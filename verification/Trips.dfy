/** A file that is created, written, closed and opened again by its name gives back what was written. */
module Trips {
  import opened Bytes
  import opened Codes
  import opened Table
  import opened Chains
  import opened Runs
  import opened Names
  import opened Slots
  import opened Entries
  import opened NewEntry
  import opened Sectors
  import opened Volume
  import opened Contents
  import opened Directory
  import opened Tree
  import opened Undo
  import opened Files

  const ATTR_ARCHIVE: byte := 0x20

  // ---- the entry ----

  lemma ArchiveStays()
    ensures SetArchive(ATTR_ARCHIVE) == ATTR_ARCHIVE
  {
    assert Shr(0x20, 1) == 16 && Shr(0x20, 2) == 8 && Shr(0x20, 3) == 4 && Shr(0x20, 4) == 2 && Shr(0x20, 5) == 1;
  }

  /** The short slot of a new file as the sync that closes it leaves it. */
  function Closed(s: Slot, size: u32, time: u16, date: u16): Slot {
    Stamped(s, true, true, size, time, date)
  }

  /** When the short slot of a new entry has been stamped, the search for its name ends there, and it tells the cluster
      and the size of the file. */
  lemma ClosedIsFound(slots: seq<Slot>, more: nat, r: Room, name: seq<byte>, c: u32, time: u16, date: u16,
                      size: u32, time': u16, date': u16, buf: seq<byte>, k: nat, res: seq<Slot>,
                      buf': seq<byte>)
    requires IsUnused(slots, name, buf) && |buf'| == 512 && 1 <= |name| <= 255
    requires IsAdded(slots, more, r, NewSlots(name, ATTR_ARCHIVE, c, time, date), res) && k + 1 == r.end
    ensures k < |res|
    ensures var s := Closed(res[k], size, time', date');
            var h := Search(res[k := s], 0, name, buf');
            h.err == ERR_NONE && h.pos == k && SfnCluster(s) == c && SfnSize(s) == size
  {
    var new_ := NewSlots(name, ATTR_ARCHIVE, c, time, date);
    var big := Grown(slots, more);
    LastAdded(big, r, new_);
    var s := Closed(res[k], size, time', date');
    var new' := ClosedSlots(name, c, time, date, size, time', date', res[k], s);
    AddedChanged(big, r, new_, s, new', k);
    FindRoomFindsRoom(slots, 0, 0, 0, false, |new_|);
    ItemExtendsMap(slots, more, r, new', name, buf, name, buf, buf');
  }

  lemma ClosedSlots(name: seq<byte>, c: u32, time: u16, date: u16, size: u32, time': u16, date': u16, x: Slot, s: Slot)
    returns (new': seq<Slot>)
    requires Plain(name) && 1 <= |name| <= 255 && s == Closed(x, size, time', date')
    requires var new_ := NewSlots(name, ATTR_ARCHIVE, c, time, date); x == new_[|new_| - 1]
    ensures var new_ := NewSlots(name, ATTR_ARCHIVE, c, time, date); new' == new_[|new_| - 1 := s]
    ensures Spells(new', name) && SfnCluster(s) == c && SfnSize(s) == size
  {
    var new_ := NewSlots(name, ATTR_ARCHIVE, c, time, date);
    new' := new_[|new_| - 1 := s];
    NewEntryReads(name, ATTR_ARCHIVE, c, time, date);
    ClosedReads(x, c, size, time', date');
    LastInUse(new_);
    ShortSlotChanged(new_, name, s, new');
  }

  lemma ClosedReads(s: Slot, c: u32, size: u32, time: u16, date: u16)
    requires s[11] == ATTR_ARCHIVE && SfnCluster(s) == c
    ensures var x := Closed(s, size, time, date);
            && SfnCluster(x) == c && SfnSize(x) == size && !IsLfn(x) && x[..11] == s[..11]
            && (!IsFree(s) ==> !IsFree(x))
  {
    StampedReads(s, true, true, size, time, date);
    ArchiveStays();
    var x := Closed(s, size, time, date);
    assert x[..11] == x[0..11] && s[..11] == s[0..11];
    assert x[0] == x[..11][0] == s[0];
  }

  lemma LastInUse(new_: seq<Slot>)
    requires IsItem(new_) && |new_| >= 2
    ensures !IsFree(new_[|new_| - 1])
  {
    var n: nat := |new_| - 1;
    assert WholeSetAt(new_, 0) && LfnCount(new_[0]) == n;
    ShortEntryAt(new_, 0, n, new_[0][13], true, n);
  }

  // ---- creating ----

  /** The directory that was `w`, and is `mid`, is as before, but a cluster was taken for a new chain. */
  ghost predicate HasTaken(g: Geometry, w: Snap, c: u32, mid: Snap) {
    match mid
    case Snap(chain, slots, a, img) =>
      && Ready(w.a) && Choose(w.a.table, 0, w.a.lastUsed) == At(c)
      && chain == w.chain && slots == w.slots && a == Stretch(w.a, 0)
      && Fits(g, w.img) && Fits(g, img) && TableStep(g, w.img, img)
  }

  /** What creating a file chose: its cluster, its directory when that was taken, the room for its entry, the slot of
      its short entry, and the directory in the end. */
  datatype Created = Created(c: u32, mid: Snap, r: Room, last: nat, n: Snap)

  /** What is to be created: the name, and the times of its entry. */
  datatype FileOrder = FileOrder(name: seq<byte>, time: u16, date: u16)

  ghost predicate HasCreated(g: Geometry, w: Snap, d: FileOrder, f: Created) {
    match f
    case Created(c, mid, r, last, n) =>
      && 1 <= |d.name| <= 255 && HasTaken(g, w, c, mid)
      && HasAdded(g, mid, r, NewSlots(d.name, ATTR_ARCHIVE, c, d.time, d.date), n) && r.end == last + 1
      && IsChain(n.a.table, n.chain) && IsChain(n.a.table, [c]) && Apart([c], n.chain)
  }

  /** How creating the entry of a file ends. It fails exactly when the name is empty or too long, when there is no
      cluster for the file, and when the directory must grow to take the entry and there is no cluster for that; in the
      last case, and when the name is too long, a cluster has been taken and is lost. */
  ghost predicate CreateEnds(dir: Dir, w: Snap, d: FileOrder, f: Created, err: int)
    reads dir, dir.fat, dir.fat.buf
  {
    && Ready(w.a)
    && if d.name == [] then err == ERR_PATH && Unchanged(dir, w)
       else if !Choose(w.a.table, 0, w.a.lastUsed).At? then
         FailsWith(w.a.table, 0, w.a.lastUsed, err) && Unchanged(dir, w)
       else if |d.name| > 255 then err == ERR_PARAM && HasTaken(dir.fat.geo, w, f.c, f.mid) && Unchanged(dir, f.mid)
       else if err == ERR_NONE then HasCreated(dir.fat.geo, w, d, f) && IsAtNew(dir, f)
       else
         && HasTaken(dir.fat.geo, w, f.c, f.mid)
         && dir.AddEnds(f.mid, NewSlots(d.name, ATTR_ARCHIVE, f.c, d.time, d.date), f.r, f.last, f.n.chain, err)
  }

  /** The cursor is at the short slot of the new entry. */
  ghost predicate IsAtNew(dir: Dir, f: Created)
    reads dir, dir.fat, dir.fat.buf
  {
    && dir.On(f.n.chain) && dir.Now(f.n.chain) == f.n && dir.At(f.n.chain, f.last)
    && dir.fat.sect == dir.sect && dir.fat.buf[..] == dir.fat.img[dir.sect]
  }

  /** Takes a cluster for a new file and adds its entry. */
  method CreateEntry(dir: Dir, ghost chain: seq<nat>, d: FileOrder) returns (err: int, ghost f: Created)
    requires dir.On(chain) && !FailsWith(dir.fat.Tab(), 0, dir.fat.lastUsed, ERR_NONE)
    modifies dir, dir.fat, dir.fat.buf
    ensures CreateEnds(dir, old(dir.Now(chain)), d, f, err)
  {
    ghost var w := dir.Now(chain);
    f := Created(0, w, Room(0, 0, false), 0, w);
    if d.name == [] {
      return ERR_PATH, f;
    }
    LinkedIsChain(dir.fat.geo, dir.fat.Tab(), chain);
    var c;
    err, c := TakeForFile(dir, chain);
    if err != ERR_NONE {
      return;
    }
    err, f := AddFile(dir, w, d, c, dir.Now(chain));
  }

  /** Takes a cluster for a new file. */
  method TakeForFile(dir: Dir, ghost chain: seq<nat>) returns (err: int, c: u32)
    requires dir.On(chain) && !FailsWith(dir.fat.Tab(), 0, dir.fat.lastUsed, ERR_NONE)
    modifies dir.fat, dir.fat.buf
    ensures dir.On(chain)
    ensures if err == ERR_NONE then HasTaken(dir.fat.geo, old(dir.Now(chain)), c, dir.Now(chain))
            else FailsWith(old(dir.fat.Tab()), 0, old(dir.fat.lastUsed), err) && Unchanged(dir, old(dir.Now(chain)))
  {
    var fat := dir.fat;
    ghost var img, a := fat.img, fat.State();
    var clust;
    err, clust := fat.CreateChain();
    if err != ERR_NONE {
      return err, 0;
    }
    c := clust;
    TakenOnDisk(fat.geo, img, a, fat.img, chain, c);
  }

  /** Adds the entry of a new file. */
  method AddFile(dir: Dir, ghost w: Snap, d: FileOrder, c: u32, ghost mid: Snap) returns (err: int, ghost f: Created)
    requires dir.On(mid.chain) && mid == dir.Now(mid.chain) && d.name != [] && HasTaken(dir.fat.geo, w, c, mid)
    requires IsChain(w.a.table, w.chain) && |w.a.table| == dir.fat.geo.ClustCnt()
    modifies dir`clust, dir`sect, dir`idx, dir.fat, dir.fat.buf
    ensures CreateEnds(dir, w, d, f, err)
  {
    ghost var r, last, longer;
    err, r, last, longer := dir.Add(mid.chain, d.name, ATTR_ARCHIVE, c, d.time, d.date);
    f := Created(c, mid, r, last, dir.Now(longer));
    if |d.name| <= 255 {
      FileAdded(dir, w, d, f, err);
    }
  }

  lemma FileAdded(dir: Dir, w: Snap, d: FileOrder, f: Created, err: int)
    requires HasTaken(dir.fat.geo, w, f.c, f.mid) && 1 <= |d.name| <= 255
    requires IsChain(w.a.table, w.chain) && |w.a.table| == dir.fat.geo.ClustCnt()
    requires dir.AddEnds(f.mid, NewSlots(d.name, ATTR_ARCHIVE, f.c, d.time, d.date), f.r, f.last, f.n.chain, err)
    requires dir.On(f.n.chain) && f.n == dir.Now(f.n.chain)
    ensures CreateEnds(dir, w, d, f, err)
  {
    if err == ERR_NONE {
      CreatedAfter(dir.fat.geo, w, d, f);
    }
  }

  lemma CreatedAfter(g: Geometry, w: Snap, d: FileOrder, f: Created)
    requires HasTaken(g, w, f.c, f.mid) && 1 <= |d.name| <= 255 && f.r.end == f.last + 1
    requires IsChain(w.a.table, w.chain) && |w.a.table| == g.ClustCnt()
    requires HasAdded(g, f.mid, f.r, NewSlots(d.name, ATTR_ARCHIVE, f.c, d.time, d.date), f.n)
    ensures HasCreated(g, w, d, f)
  {
    MadeChains(w.a, w.chain, f.c, f.n.a, f.n.chain);
  }

  /** Between two images nothing changed but the sectors of these clusters and the table, of which upper nibbles and the
      agreement of copies are kept. */
  ghost predicate OnlyIn(g: Geometry, was: Image, now: Image, s: seq<nat>) {
    Fits(g, was) && Fits(g, now) && ChainStep(g, was, now, s)
  }

  lemma OnlyInMore(g: Geometry, was: Image, now: Image, s: seq<nat>, more: seq<nat>)
    requires OnlyIn(g, was, now, s)
    ensures OnlyIn(g, was, now, s + more) && OnlyIn(g, was, now, more + s)
  {
    ChainStepLonger(g, was, now, s, s + more);
    ChainStepLonger(g, was, now, s, more + s);
  }

  lemma OnlyInTwice(g: Geometry, was: Image, mid: Image, now: Image, s: seq<nat>)
    requires OnlyIn(g, was, mid, s) && OnlyIn(g, mid, now, s)
    ensures OnlyIn(g, was, now, s)
  {
    ChainStepTwice(g, was, mid, now, s);
  }

  lemma OnlyTables(g: Geometry, was: Image, now: Image, s: seq<nat>)
    requires Fits(g, was) && Fits(g, now) && TableStep(g, was, now)
    ensures OnlyIn(g, was, now, s)
  {
    TableStepIsChainStep(g, was, now, s);
  }

  lemma CreatedTouches(g: Geometry, w: Snap, d: FileOrder, f: Created)
    requires HasCreated(g, w, d, f)
    ensures OnlyIn(g, w.img, f.n.img, f.n.chain)
  {
    OnlyTables(g, w.img, f.mid.img, f.n.chain);
    OnlyInTwice(g, w.img, f.mid.img, f.n.img, f.n.chain);
  }

  // ---- the file beside its directory ----

  /** The directory on chain `home` has these slots, and chain `file` is apart from it. */
  ghost predicate Houses(g: Geometry, t: Table, img: Image, home: seq<nat>, slots: seq<Slot>, file: seq<nat>) {
    && Fits(g, img) && |t| == g.ClustCnt() && IsChain(t, home) && IsChain(t, file) && Apart(file, home)
    && AllClusters(g, home) && AllClusters(g, file) && SlotsOf(g, img, home) == slots
  }

  lemma HousesStill(g: Geometry, t: Table, img: Image, home: seq<nat>, slots: seq<Slot>, file: seq<nat>, img': Image)
    requires Houses(g, t, img, home, slots, file) && Fits(g, img') && TableStep(g, img, img')
    ensures Houses(g, t, img', home, slots, file)
  {
    TableStepKeepsSlots(g, img, img', home);
  }

  /** When the chain of the file grows, the directory stays apart from it. */
  lemma GrownBeside(a: Alloc, chain: seq<nat>, home: seq<nat>, b: Alloc, longer: seq<nat>)
    requires Ready(a) && IsChain(a.table, chain) && IsChain(a.table, home) && Apart(chain, home)
    requires GrownTo(a, chain, b, longer)
    ensures |b.table| == |a.table| && IsChain(b.table, longer) && IsChain(b.table, home) && Apart(longer, home)
    ensures longer != [] && longer[0] == chain[0]
  {
    GrownGrewOnly(a, chain, b, longer);
    assert longer[0] == longer[..|chain|][0];
    forall i | 0 <= i < |longer|
      ensures longer[i] !in home
    {
      if i < |chain| {
        assert longer[i] == longer[..|chain|][i];
      } else {
        assert a.table[longer[|chain|..][i - |chain|]] == FREE;
        FreeNotInChain(a.table, home, longer[i]);
      }
    }
    StaysChain(a.table, b.table, home, longer[|chain| - 1..]);
  }

  lemma StaysChain(t: Table, t': Table, home: seq<nat>, changed: seq<nat>)
    requires IsChain(t, home) && |t'| == |t| && SameBut(t, t', changed)
    requires forall i :: 0 <= i < |changed| ==> changed[i] !in home
    ensures IsChain(t', home)
  {
    forall i | 0 <= i < |home|
      ensures t'[home[i]] == t[home[i]]
    {
      assert home[i] !in changed;
    }
  }

  /** Writing the file leaves its directory. */
  lemma HousesAfterWrite(g: Geometry, a: Alloc, img: Image, home: seq<nat>, slots: seq<Slot>, file: seq<nat>,
                         b: Alloc, img': Image, longer: seq<nat>)
    requires Ready(a) && Houses(g, a.table, img, home, slots, file) && GrownTo(a, file, b, longer)
    requires Fits(g, img') && ChainStep(g, img, img', longer)
    ensures Houses(g, b.table, img', home, slots, longer) && longer[0] == file[0]
  {
    GrownBeside(a, file, home, b, longer);
    LinkedIsChain(g, b.table, longer);
    ApartBack(longer, home);
    KeptBeside(g, img, img', longer, home);
  }

  lemma ApartBack(s: seq<nat>, r: seq<nat>)
    requires Apart(s, r)
    ensures Apart(r, s)
  {
  }

  /** Sector `s` and byte `at` are those of slot `k` of the directory. */
  ghost predicate IsSlot(g: Geometry, home: seq<nat>, k: nat, s: nat, at: nat) {
    && AllClusters(g, home) && k < SlotCnt(g, home)
    && Cursors(g, home)[k].sect == s && Cursors(g, home)[k].idx == at
  }

  /** The slots of a directory after the file whose short entry is slot `k` was synced. */
  function ClosedAt(slots: seq<Slot>, k: nat, size: u32, time: u16, date: u16): seq<Slot>
    requires k < |slots|
  {
    slots[k := Closed(slots[k], size, time, date)]
  }

  lemma SlotIsElsewhere(g: Geometry, home: seq<nat>, k: nat, s: nat, at: nat, file: seq<nat>)
    requires IsSlot(g, home, k, s, at) && Apart(file, home)
    ensures !InChain(g, file, s)
  {
    CursorInChain(g, home, k);
  }

  /** What a sync records in the entry of a file is a change of its slot. */
  lemma RecordedSlot(g: Geometry, t: Table, img: Image, home: seq<nat>, slots: seq<Slot>, file: seq<nat>, k: nat,
                     s: nat, at: nat, size: u32, time: u16, date: u16)
    requires Houses(g, t, img, home, slots, file) && t == Active(g, img) && IsSlot(g, home, k, s, at) && k < |slots|
    ensures g.dataSect <= s < |img| && at + 32 <= 512
    ensures Houses(g, t, Recorded(img, s, at, true, true, size, time, date), home,
                   ClosedAt(slots, k, size, time, date), file)
    ensures OnlyIn(g, img, Recorded(img, s, at, true, true, size, time, date), home)
  {
    SlotIsPatch(g, img, home, k, Closed(slots[k], size, time, date));
    SlotOf(g, img, home, k);
    CursorIs(g, home, k);
    LinkedIsChain(g, t, home);
    SlotWritten(g, img, home, k, Closed(slots[k], size, time, date));
  }

  /** The sync of a file, seen from its directory: its slot is the closed one, and the bytes stay. */
  lemma HousesAfterSync(g: Geometry, t: Table, img: Image, home: seq<nat>, slots: seq<Slot>, file: seq<nat>, k: nat,
                        s: nat, at: nat, size: u32, time: u16, date: u16, disk: Image)
    requires Houses(g, t, img, home, slots, file) && t == Active(g, img) && IsSlot(g, home, k, s, at) && k < |slots|
    requires s < |img| && at + 32 <= 512 && Fits(g, disk)
    requires Fits(g, Recorded(img, s, at, true, true, size, time, date))
    requires TableStep(g, Recorded(img, s, at, true, true, size, time, date), disk)
    ensures Houses(g, t, disk, home, ClosedAt(slots, k, size, time, date), file)
    ensures BytesOf(g, disk, file) == BytesOf(g, img, file) && OnlyIn(g, img, disk, home)
  {
    RecordedSlot(g, t, img, home, slots, file, k, s, at, size, time, date);
    SlotIsElsewhere(g, home, k, s, at, file);
    SyncedFile(g, img, s, at, true, true, size, time, date, disk, file);
    HousesStill(g, t, Recorded(img, s, at, true, true, size, time, date), home, ClosedAt(slots, k, size, time, date),
                file, disk);
    OnlyTables(g, Recorded(img, s, at, true, true, size, time, date), disk, home);
    OnlyInTwice(g, img, Recorded(img, s, at, true, true, size, time, date), disk, home);
  }

  // ---- writing the new file ----

  /** The directory that a file is in: its chain, its slots, and which of them is the short entry of the file. */
  datatype Home = Home(chain: seq<nat>, slots: seq<Slot>, k: nat)

  /** A new file, open for reading and writing: it is empty, its one cluster is `c`, and its entry is in its directory.
      */
  ghost predicate IsEmpty(file: File, h: Home, c: u32)
    reads file, file.buf, file.fat, file.fat.buf
  {
    && file.On([c]) && file.offset == 0 && file.size == 0 && !file.dirty && file.mayRead && file.mayWrite
    && Houses(file.fat.geo, file.fat.Tab(), file.fat.img, h.chain, h.slots, [c])
    && IsSlot(file.fat.geo, h.chain, h.k, file.dirSect, file.dirIdx) && h.k < |h.slots|
  }

  /** On the device there is the file on chain `file`, which begins with `data` and holds the offset behind them, and in
      the directory its entry says how long they are. */
  ghost predicate HasStored(fat: Fat, h: Home, file: seq<nat>, data: seq<byte>, time: u16, date: u16)
    reads fat, fat.buf
  {
    && fat.Valid() && fat.disk == fat.img && !fat.bufDirty && !fat.infoDirty
    && |data| <= 0xffff_ffff && h.k < |h.slots|
    && Houses(fat.geo, fat.Tab(), fat.img, h.chain, ClosedAt(h.slots, h.k, |data|, time, date), file)
    && ClustIdx(fat.geo, |data| / 512) < |file| && IsPart(data, BytesOf(fat.geo, fat.img, file), 0, |data|)
  }

  /** The data are in the file, which is still open, on chain `longer`. */
  ghost predicate IsFilled(file: File, h: Home, longer: seq<nat>, data: seq<byte>)
    reads file, file.buf, file.fat, file.fat.buf
  {
    && file.On(longer) && file.size == |data| && file.modified && file.accessed
    && Houses(file.fat.geo, file.fat.Tab(), file.Disk(), h.chain, h.slots, longer)
    && IsSlot(file.fat.geo, h.chain, h.k, file.dirSect, file.dirIdx) && h.k < |h.slots|
    && ClustIdx(file.fat.geo, |data| / 512) < |longer| && IsPart(data, file.Bytes(longer), 0, |data|)
  }

  /** A file of the one cluster `c` can come to have the offset behind `n` bytes. */
  ghost predicate HoldsAll(g: Geometry, a: Alloc, c: u32, n: nat) {
    n <= 0xffff_ffff && Reaches(a, [c], ClustIdx(g, n / 512))
  }

  /** Writes the data into a new file and closes it. That they were all written is seen by the offset; they are exactly
      when there are the clusters that it takes to have the offset behind them in the file. */
  method FillAndClose(fat: Fat, file: File, data: seq<byte>, time: u16, date: u16, ghost h: Home, ghost c: u32,
                      ghost a: Alloc, ghost was: Image)
    returns (stored: bool, ghost longer: seq<nat>)
    requires file.fat == fat && IsEmpty(file, h, c) && a == fat.State() && was == fat.img
    modifies file, file.buf, fat, fat.buf
    ensures stored <==> HoldsAll(fat.geo, a, c, |data|)
    ensures stored ==> HasStored(fat, h, longer, data, time, date) && longer[0] == c
    ensures stored ==> OnlyIn(fat.geo, was, fat.img, h.chain + longer)
  {
    stored, longer := Fill(file, data, h, c);
    if stored {
      ghost var mid := file.Disk();
      Close(file, data, time, date, h, longer, mid);
      OnlyInMore(fat.geo, was, mid, longer, h.chain);
      OnlyInMore(fat.geo, mid, fat.img, h.chain, longer);
      OnlyInTwice(fat.geo, was, mid, fat.img, h.chain + longer);
    }
  }

  method Fill(file: File, data: seq<byte>, ghost h: Home, ghost c: u32) returns (stored: bool, ghost longer: seq<nat>)
    requires IsEmpty(file, h, c)
    modifies file, file.buf, file.fat, file.fat.buf
    ensures stored <==> file.HasRoom(old(file.fat.State()), [c], 0, |data|)
    ensures stored ==> IsFilled(file, h, longer, data) && longer[0] == c
    ensures stored ==> OnlyIn(file.fat.geo, old(file.fat.img), file.Disk(), longer)
  {
    ghost var a, was := file.fat.State(), file.fat.img;
    var err, bytes;
    ghost var kept, why;
    err, bytes, longer, kept, why := file.Write([c], data);
    stored := file.offset == |data|;
    if stored {
      Filled(file, a, was, data, h, c, longer, bytes, kept);
    }
  }

  lemma Filled(file: File, a: Alloc, was: Image, data: seq<byte>, h: Home, c: u32, longer: seq<nat>, bytes: nat,
               kept: nat)
    requires file.WriteEnds(a, was, [c], longer, data, 0, bytes, kept, ERR_NONE)
    requires file.size == |data| && file.modified && file.accessed
    requires Ready(a) && Fits(file.fat.geo, was) && Houses(file.fat.geo, a.table, was, h.chain, h.slots, [c])
    requires IsSlot(file.fat.geo, h.chain, h.k, file.dirSect, file.dirIdx) && h.k < |h.slots|
    ensures IsFilled(file, h, longer, data) && longer[0] == c
  {
    HousesAfterWrite(file.fat.geo, a, was, h.chain, h.slots, [c], file.fat.State(), file.Disk(), longer);
    SectAtCluster(file.fat.geo, longer, file.offset / 512);
    WrittenIsPart(BytesOf(file.fat.geo, was, longer), data, file.Bytes(longer));
  }

  lemma WrittenIsPart(b: seq<byte>, data: seq<byte>, b': seq<byte>)
    requires |data| <= |b| && b' == Patched(b, 0, data[..|data|])
    ensures IsPart(data, b', 0, |data|)
  {
    PartIs(data, b', 0, |data|);
  }

  /** Closes the file. */
  method Close(file: File, data: seq<byte>, time: u16, date: u16, ghost h: Home, ghost longer: seq<nat>,
               ghost img: Image)
    requires IsFilled(file, h, longer, data) && img == file.Disk()
    modifies file, file.buf, file.fat, file.fat.buf
    ensures HasStored(file.fat, h, longer, data, time, date)
    ensures OnlyIn(file.fat.geo, img, file.fat.img, h.chain)
  {
    ghost var t, b := file.fat.Tab(), file.Bytes(longer);
    MayClose(file, h, longer, data);
    var err := file.Sync(longer, time, date);
    HousesAfterSync(file.fat.geo, t, img, h.chain, h.slots, longer, h.k, file.dirSect, file.dirIdx, |data|, time, date,
                    file.fat.disk);
    Stored(file, h, longer, data, b, time, date);
  }

  lemma MayClose(file: File, h: Home, longer: seq<nat>, data: seq<byte>)
    requires IsFilled(file, h, longer, data)
    ensures file.Filed(longer) && Active(file.fat.geo, file.Disk()) == file.fat.Tab()
  {
    DiskTable(file, longer);
    SlotIsPatch(file.fat.geo, file.Disk(), h.chain, h.k, h.slots[h.k]);
    SlotIsElsewhere(file.fat.geo, h.chain, h.k, file.dirSect, file.dirIdx, longer);
  }

  lemma Stored(file: File, h: Home, longer: seq<nat>, data: seq<byte>, b: seq<byte>, time: u16, date: u16)
    requires file.Settled(longer) && file.fat.disk == file.fat.img && !file.fat.bufDirty && !file.fat.infoDirty
    requires |data| <= 0xffff_ffff && h.k < |h.slots|
    requires Houses(file.fat.geo, file.fat.Tab(), file.fat.disk, h.chain, ClosedAt(h.slots, h.k, |data|, time, date),
                    longer)
    requires BytesOf(file.fat.geo, file.fat.disk, longer) == b && IsPart(data, b, 0, |data|)
    requires ClustIdx(file.fat.geo, |data| / 512) < |longer|
    ensures HasStored(file.fat, h, longer, data, time, date)
  {
  }

  /** The buffer of a file lies over no table. */
  lemma DiskTable(file: File, chain: seq<nat>)
    requires file.On(chain)
    ensures Active(file.fat.geo, file.Disk()) == file.fat.Tab()
  {
    if file.dirty {
      SectAtCluster(file.fat.geo, chain, file.offset / 512);
      DataWrite(file.fat.geo, file.fat.img, file.sect, file.buf[..]);
    }
  }

  // ---- opening the new file, and opening it again ----

  /** The directory handle belongs to the directory on this chain. */
  ghost predicate IsOf(dir: Dir, home: seq<nat>)
    reads dir
  {
    |dir.g| == 512 && home != [] && dir.sclust == home[0]
  }

  function HomeOf(f: Created): Home { Home(f.n.chain, f.n.slots, f.last) }

  /** The slots in the directory of a file that was just created. */
  lemma CreatedSlot(g: Geometry, w: Snap, d: FileOrder, f: Created)
    requires HasCreated(g, w, d, f)
    ensures f.last < |f.n.slots| && IsShort(f.n.slots[f.last], SfnName(d.name), 0x20, f.c, d.time, d.date)
  {
    AddedShort(g, f.mid, f.r, d.name, ATTR_ARCHIVE, f.c, d.time, d.date, f.n, f.last);
  }

  /** Opens a file that was just created. */
  method OpenNew(dir: Dir, ghost w: Snap, d: FileOrder, ghost f: Created) returns (file: File)
    requires HasCreated(dir.fat.geo, w, d, f) && IsAtNew(dir, f)
    modifies dir.fat, dir.fat.buf
    ensures fresh(file) && fresh(file.buf) && file.fat == dir.fat
    ensures IsEmpty(file, HomeOf(f), f.c) && IsOf(dir, f.n.chain) && dir.fat.State() == f.n.a
    ensures OnlyIn(dir.fat.geo, f.n.img, dir.fat.img, [])
  {
    CreatedSlot(dir.fat.geo, w, d, f);
    var err;
    ghost var longer, a, img, t := [f.c], dir.fat.State(), dir.fat.img, dir.fat.Tab();
    LinkedIsChain(dir.fat.geo, t, f.n.chain);
    LinkedIsChain(dir.fat.geo, t, [f.c]);
    err, file, longer := Open(dir, true, true, false, false, f.n.chain, f.last, [f.c]);
    NothingGrown(a, [f.c], file.fat.State(), longer);
    HousesStill(dir.fat.geo, t, img, f.n.chain, f.n.slots, [f.c], file.fat.img);
    OnlyTables(dir.fat.geo, img, file.fat.img, []);
  }

  /** In the directory whose slots are `slots`, with slot `k` closed, the search for the name ends at that slot, and it
      tells the first cluster of the file and its size. */
  ghost predicate Leads(h: Home, name: seq<byte>, buf: seq<byte>, size: u32, time: u16, date: u16, c: u32) {
    && h.k < |h.slots| && |buf| == 512
    && var s := ClosedAt(h.slots, h.k, size, time, date);
       && Search(s, 0, name, buf).err == ERR_NONE && Search(s, 0, name, buf).pos == h.k
       && SfnCluster(s[h.k]) == c && SfnSize(s[h.k]) == size
  }

  lemma CreatedLeads(g: Geometry, w: Snap, d: FileOrder, f: Created, buf: seq<byte>, size: u32, time: u16, date: u16,
                     buf': seq<byte>)
    requires HasCreated(g, w, d, f) && IsUnused(w.slots, d.name, buf) && |buf'| == 512
    ensures Leads(HomeOf(f), d.name, buf', size, time, date, f.c)
  {
    var more := EntryOfAdded(g, f.mid, w.slots, f.r, NewSlots(d.name, ATTR_ARCHIVE, f.c, d.time, d.date), f.n);
    ClosedIsFound(w.slots, more, f.r, d.name, f.c, d.time, d.date, size, time, date, buf, f.last, f.n.slots, buf');
  }

  /** Searches for the name of a stored file, opens what is found and reads it. */
  method FindAndRead(dir: Dir, name: seq<byte>, len: nat, ghost h: Home, ghost longer: seq<nat>, ghost data: seq<byte>,
                     ghost time: u16, ghost date: u16)
    returns (err: int, got: seq<byte>)
    requires HasStored(dir.fat, h, longer, data, time, date) && IsOf(dir, h.chain) && len == |data|
    requires Leads(h, name, dir.g, len, time, date, longer[0])
    modifies dir, dir.fat, dir.fat.buf
    ensures err == ERR_NONE && got == data && OnlyIn(dir.fat.geo, old(dir.fat.img), dir.fat.img, [])
  {
    var loc, file;
    ghost var hit, same;
    ghost var slots := ClosedAt(h.slots, h.k, len, time, date);
    LinkedIsChain(dir.fat.geo, dir.fat.Tab(), h.chain);
    err, loc, hit := dir.SearchName(h.chain, name);
    ghost var img, a := dir.fat.img, dir.fat.State();
    err, file, same := Open(dir, true, false, false, false, h.chain, h.k, longer);
    NothingGrown(a, longer, file.fat.State(), same);
    BytesAfterTableStep(dir.fat.geo, img, file.fat.img, longer);
    ghost var mid := file.fat.img;
    err, got := ReadAgain(file, longer, data, len);
    OnlyTables(dir.fat.geo, img, mid, []);
    OnlyInTwice(dir.fat.geo, img, mid, file.fat.img, []);
  }

  /** Reads a file that was just opened, all of it. */
  method ReadAgain(file: File, ghost chain: seq<nat>, ghost data: seq<byte>, len: nat)
    returns (err: int, got: seq<byte>)
    requires file.On(chain) && file.offset == 0 && file.size == len == |data| && file.mayRead && !file.dirty
    requires ClustIdx(file.fat.geo, len / 512) < |chain| && IsPart(data, file.Bytes(chain), 0, len)
    modifies file, file.buf, file.fat, file.fat.buf
    ensures err == ERR_NONE && got == data && OnlyIn(file.fat.geo, old(file.fat.img), file.fat.img, [])
  {
    ghost var b, img := file.Bytes(chain), file.fat.img;
    PartIs(data, b, 0, len);
    GrownNot(file.fat.State(), chain);
    GrownReaches(file.fat.State(), chain, file.fat.State(), chain, ClustIdx(file.fat.geo, len / 512));
    var bytes;
    ghost var longer;
    err, got, bytes, longer := file.Read(chain, len);
    PartIs(got, b, 0, len);
    OnlyTables(file.fat.geo, img, file.fat.img, []);
  }

  // ---- the round trip ----

  /** Creates a file under a name that is not in use, writes the data into it and closes it; then searches for the name,
      opens what is found and reads it. If the file is created, and the data are all written, this gives the data back,
      and no other file or directory has changed. Whether they are all written depends on the free clusters alone. */
  method CreateWriteReopen(dir: Dir, ghost chain: seq<nat>, d: FileOrder, data: seq<byte>, time: u16, date: u16)
    returns (created: int, stored: bool, err: int, got: seq<byte>, ghost f: Created, ghost file: seq<nat>)
    requires dir.On(chain) && !FailsWith(dir.fat.Tab(), 0, dir.fat.lastUsed, ERR_NONE)
    requires IsUnused(dir.Slots(chain), d.name, dir.g)
    modifies dir, dir.fat, dir.fat.buf
    ensures created != ERR_NONE ==> CreateEnds(dir, old(dir.Now(chain)), d, f, created) && !stored
    ensures created == ERR_NONE ==>
              && HasCreated(dir.fat.geo, old(dir.Now(chain)), d, f)
              && (stored <==> HoldsAll(dir.fat.geo, f.n.a, f.c, |data|))
    ensures stored ==>
              err == ERR_NONE && got == data && OnlyIn(dir.fat.geo, old(dir.fat.img), dir.fat.img, f.n.chain + file)
  {
    ghost var w, buf := dir.Now(chain), dir.g;
    stored, err, got, file := false, ERR_NONE, [], [];
    created, f := CreateEntry(dir, chain, d);
    if created != ERR_NONE {
      return;
    }
    stored, err, got, file := UseNew(dir, w, d, f, data, time, date, buf);
    if stored {
      CreatedTouches(dir.fat.geo, w, d, f);
      OnlyInMore(dir.fat.geo, w.img, f.n.img, f.n.chain, file);
      OnlyInTwice(dir.fat.geo, w.img, f.n.img, dir.fat.img, f.n.chain + file);
    }
  }

  lemma OnlyInBefore(g: Geometry, a: Image, b: Image, c: Image, s: seq<nat>)
    requires OnlyIn(g, a, b, []) && OnlyIn(g, b, c, s)
    ensures OnlyIn(g, a, c, s)
  {
    assert [] + s == s;
    OnlyInMore(g, a, b, [], s);
    OnlyInTwice(g, a, b, c, s);
  }

  lemma OnlyInAfter(g: Geometry, a: Image, b: Image, c: Image, s: seq<nat>)
    requires OnlyIn(g, a, b, s) && OnlyIn(g, b, c, [])
    ensures OnlyIn(g, a, c, s)
  {
    assert [] + s == s;
    OnlyInMore(g, b, c, [], s);
    OnlyInTwice(g, a, b, c, s);
  }

  /** Writes the data into a file that was just created, and reads them back. */
  method UseNew(dir: Dir, ghost w: Snap, d: FileOrder, ghost f: Created, data: seq<byte>, time: u16, date: u16,
                ghost buf: seq<byte>)
    returns (stored: bool, err: int, got: seq<byte>, ghost file: seq<nat>)
    requires HasCreated(dir.fat.geo, w, d, f) && IsAtNew(dir, f) && IsUnused(w.slots, d.name, buf)
    modifies dir, dir.fat, dir.fat.buf
    ensures stored <==> HoldsAll(dir.fat.geo, f.n.a, f.c, |data|)
    ensures stored ==>
              err == ERR_NONE && got == data && OnlyIn(dir.fat.geo, f.n.img, dir.fat.img, f.n.chain + file)
  {
    err, got := ERR_NONE, [];
    stored, file := WriteNew(dir, w, d, f, data, time, date);
    if stored {
      ghost var closed := dir.fat.img;
      err, got := ReadBack(dir, w, d, f, |data|, file, data, time, date, buf);
      OnlyInAfter(dir.fat.geo, f.n.img, closed, dir.fat.img, f.n.chain + file);
    }
  }

  /** Opens a file that was just created, writes the data into it and closes it. */
  method WriteNew(dir: Dir, ghost w: Snap, d: FileOrder, ghost f: Created, data: seq<byte>, time: u16, date: u16)
    returns (stored: bool, ghost file: seq<nat>)
    requires HasCreated(dir.fat.geo, w, d, f) && IsAtNew(dir, f)
    modifies dir.fat, dir.fat.buf
    ensures stored <==> HoldsAll(dir.fat.geo, f.n.a, f.c, |data|)
    ensures stored ==>
              && HasStored(dir.fat, HomeOf(f), file, data, time, date) && file[0] == f.c && IsOf(dir, f.n.chain)
              && OnlyIn(dir.fat.geo, f.n.img, dir.fat.img, f.n.chain + file)
  {
    var fat := dir.fat;
    var handle := OpenNew(dir, w, d, f);
    ghost var h, start := HomeOf(f), fat.img;
    stored, file := FillAndClose(fat, handle, data, time, date, h, f.c, f.n.a, start);
    if stored {
      OnlyInBefore(fat.geo, f.n.img, start, fat.img, h.chain + file);
    }
  }

  /** Reads a file back that was created, written and closed. */
  method ReadBack(dir: Dir, ghost w: Snap, d: FileOrder, ghost f: Created, len: nat, ghost file: seq<nat>,
                  ghost data: seq<byte>, ghost time: u16, ghost date: u16, ghost buf: seq<byte>)
    returns (err: int, got: seq<byte>)
    requires HasCreated(dir.fat.geo, w, d, f) && IsUnused(w.slots, d.name, buf) && IsOf(dir, f.n.chain)
    requires HasStored(dir.fat, HomeOf(f), file, data, time, date) && file[0] == f.c && len == |data|
    modifies dir, dir.fat, dir.fat.buf
    ensures err == ERR_NONE && got == data && OnlyIn(dir.fat.geo, old(dir.fat.img), dir.fat.img, [])
  {
    CreatedLeads(dir.fat.geo, w, d, f, buf, len, time, date, dir.g);
    err, got := FindAndRead(dir, d.name, len, HomeOf(f), file, data, time, date);
  }
}
