/** Unlinking a directory that was just made takes everything back but the growth of its parent. */
module Undo {
  import opened Bytes
  import opened Codes
  import opened Table
  import opened Chains
  import opened Runs
  import opened Names
  import opened Slots
  import opened Entries
  import opened NewEntry
  import opened Sectors
  import opened Directory
  import opened Tree

  // ---- the entry ----

  lemma DirAttr()
    ensures IsDir(ATTR_DIR) && !Protected(ATTR_DIR)
  {
    assert Shr(0x10, 1) == 8 && Shr(0x10, 2) == 4 && Shr(0x10, 3) == 2 && Shr(0x10, 4) == 1;
  }

  /** A new directory may be unlinked, wherever its entry is found but in the first slot of the root. */
  lemma FreshMayGo(n: nat, c: u32, parent: u32, time: u16, date: u16)
    requires n >= 16
    ensures UnlinkError(false, ATTR_DIR, FreshDir(n, c, parent, time, date)) == ERR_NONE
  {
    DirAttr();
    assert IsLast(FreshDir(n, c, parent, time, date)[2]);
  }

  /** In `res` the search ended at the short slot of a new entry, and without that entry there are the live entries of
      `slots`. */
  ghost predicate EntryFound(slots: seq<Slot>, res: seq<Slot>, h: Hit, attr: byte, c: u32)
    requires Clean(slots, 0)
  {
    match h
    case Hit(_, _, _, _) =>
      && h.err == ERR_NONE && h.loc < h.pos < |res|
      && res[h.pos][11] == attr && SfnCluster(res[h.pos]) == c
      && LeftWith(res, h, Live(slots, 0))
  }

  /** `res` is the directory `slots`, grown by `more` slots, with the slots `new_` in the first room for them. */
  ghost predicate IsAdded(slots: seq<Slot>, more: nat, r: Room, new_: seq<Slot>, res: seq<Slot>) {
    match r
    case Room(start, end, _) =>
      && r == FindRoom(slots, 0, 0, 0, false, |new_|) && end == start + |new_| && end < |slots| + more
      && res == Added(Grown(slots, more), r, new_)
  }

  /** What the search for a new entry ends with; `buf` is in the name buffer when the name is found not to be in use,
      and `buf'` when the new entry is looked for. */
  lemma NewEntryFound(slots: seq<Slot>, more: nat, r: Room, name: seq<byte>, attr: byte, c: u32, time: u16, date: u16,
                      buf: seq<byte>, res: seq<Slot>, buf': seq<byte>, h: Hit)
    requires Clean(slots, 0) && |buf| == |buf'| == 512 && Search(slots, 0, name, buf).err == ERR_EOF
    requires 1 <= |name| <= 255 && Plain(name) && attr != ATTR_LFN
    requires IsAdded(slots, more, r, NewSlots(name, attr, c, time, date), res) && h == Search(res, 0, name, buf')
    ensures EntryFound(slots, res, h, attr, c)
  {
    FindRoomFindsRoom(slots, 0, 0, 0, false, Lfns(|name|) + 1);
    AddExtendsMap(slots, more, r, name, attr, c, time, date, buf, name, buf, buf');
    RemoveUndoesAdd(slots, more, r, name, attr, c, time, date, buf, res, buf', h);
    LastReads(Grown(slots, more), r, name, attr, c, time, date, res, h.pos);
  }

  /** The last slot of an entry that was added is its short slot. */
  lemma LastReads(big: seq<Slot>, r: Room, name: seq<byte>, attr: byte, c: u32, time: u16, date: u16, res: seq<Slot>,
                  k: nat)
    requires 1 <= |name| <= 255 && Plain(name) && attr != ATTR_LFN && k == r.end - 1
    requires r.end == r.start + Lfns(|name|) + 1 && r.end < |big|
    requires res == Added(big, r, NewSlots(name, attr, c, time, date))
    ensures res[k][11] == attr && SfnCluster(res[k]) == c
  {
    NewEntryReads(name, attr, c, time, date);
    LastAdded(big, r, NewSlots(name, attr, c, time, date));
  }

  lemma LastAdded(big: seq<Slot>, r: Room, new_: seq<Slot>)
    requires r.end == r.start + |new_| && r.end < |big| && new_ != []
    ensures Added(big, r, new_)[r.end - 1] == new_[|new_| - 1]
  {
    AddedParts(big, r, new_);
    assert Added(big, r, new_)[r.start..r.end][|new_| - 1] == new_[|new_| - 1];
  }

  /** A sound directory holds no entry of that name. */
  ghost predicate IsUnused(slots: seq<Slot>, name: seq<byte>, buf: seq<byte>) {
    |buf| == 512 && Plain(name) && Clean(slots, 0) && Search(slots, 0, name, buf).err == ERR_EOF
  }

  /** The search for a directory that was just made ends at its entry, which leads to it and may be unlinked. */
  ghost predicate MadeFound(g: Geometry, w: Snap, m: Made, n: Snap, h: Hit) {
    match h
    case Hit(_, _, _, _) =>
      && Clean(w.slots, 0) && EntryFound(w.slots, n.slots, h, ATTR_DIR, m.c)
      && Fits(g, n.img) && AllClusters(g, [m.c])
      && UnlinkError(false, ATTR_DIR, SlotsOf(g, n.img, [m.c])) == ERR_NONE
  }

  /** A directory made under a name that was not in use is found by that name, may be unlinked at once, and when its
      slots are freed the live entries of the parent are those it had before. */
  lemma MadeDirIsFound(g: Geometry, w: Snap, d: Order, m: Made, n: Snap, buf: seq<byte>, buf': seq<byte>, h: Hit)
    requires HasMade(g, w, d, m, n) && IsUnused(w.slots, d.name, buf) && |buf'| == 512
    requires h == Search(n.slots, 0, d.name, buf')
    ensures MadeFound(g, w, m, n, h)
  {
    MadeEntryFound(g, w, d, m, n, buf, buf', h);
    NewDirMayGo(g, n.a.table, n.img, d, m.c);
  }

  lemma MadeEntryFound(g: Geometry, w: Snap, d: Order, m: Made, n: Snap, buf: seq<byte>, buf': seq<byte>, h: Hit)
    requires HasMade(g, w, d, m, n) && IsUnused(w.slots, d.name, buf) && |buf'| == 512
    requires h == Search(n.slots, 0, d.name, buf')
    ensures EntryFound(w.slots, n.slots, h, ATTR_DIR, m.c)
  {
    var more := EntryOfMade(g, w, d, m, n);
    NewEntryFound(w.slots, more, m.r, d.name, ATTR_DIR, m.c, d.time, d.date, buf, n.slots, buf', h);
  }

  lemma NewDirMayGo(g: Geometry, t: Table, img: Image, d: Order, c: u32)
    requires IsNewDir(g, t, img, d, c)
    ensures UnlinkError(false, ATTR_DIR, SlotsOf(g, img, [c])) == ERR_NONE
  {
    FreshMayGo(SlotCnt(g, [c]), c, d.parent, d.time, d.date);
  }

  /** What making a directory did to the slots of its parent. */
  lemma EntryOfMade(g: Geometry, w: Snap, d: Order, m: Made, n: Snap) returns (more: nat)
    requires HasMade(g, w, d, m, n)
    ensures IsAdded(w.slots, more, m.r, NewSlots(d.name, ATTR_DIR, m.c, d.time, d.date), n.slots)
  {
    more := EntryOfAdded(g, m.mid, w.slots, m.r, NewSlots(d.name, ATTR_DIR, m.c, d.time, d.date), n);
  }

  lemma EntryOfAdded(g: Geometry, w: Snap, slots: seq<Slot>, r: Room, new_: seq<Slot>, n: Snap) returns (more: nat)
    requires HasAdded(g, w, r, new_, n) && w.slots == slots
    ensures IsAdded(slots, more, r, new_, n.slots)
  {
    more := |n.slots| - |w.slots|;
  }

  // ---- the table ----

  lemma TakeUndone(a: Alloc, c: nat)
    requires Ready(a) && c < |a.table| && a.table[c] == FREE
    ensures Cleared(Taken(a, 0, c).table, [c]) == a.table
  {
  }

  lemma SameButUndone(a: Alloc, c: nat, t: Table, s: seq<nat>)
    requires Ready(a) && c < |a.table| && a.table[c] == FREE && SameBut(Taken(a, 0, c).table, t, s)
    ensures SameBut(a.table, Cleared(t, [c]), s)
  {
  }

  lemma AllFreeBefore(a: Alloc, c: nat, s: seq<nat>)
    requires Ready(a) && c < |a.table| && AllFree(Taken(a, 0, c).table, s)
    ensures AllFree(a.table, s)
  {
    forall i | 0 <= i < |s|
      ensures s[i] < |a.table| && a.table[s[i]] == FREE
    {
      assert Taken(a, 0, c).table[s[i]] == FREE;
    }
  }

  lemma LessLess(n: u32, k: nat)
    ensures (Less(Dec32(n), k) + 1) % 0x1_0000_0000 == Less(n, k)
  {
    LessIs(Dec32(n), k);
    LessIs(n, k);
  }

  /** State `b` is state `a`, but for the clusters by which `chain` grew into `longer`, which were free, and the link to
      them; and the free counter is less by one for each of them. */
  ghost predicate IsRestored(a: Alloc, chain: seq<nat>, b: Alloc, longer: seq<nat>) {
    match b
    case Alloc(table, _, freeCnt) =>
      && 0 < |chain| <= |longer| && longer[..|chain|] == chain
      && SameBut(a.table, table, longer[|chain| - 1..]) && AllFree(a.table, longer[|chain|..])
      && (longer == chain ==> table == a.table)
      && freeCnt == Less(a.freeCnt, |longer| - |chain|)
  }

  /** Freeing the cluster that was taken for a new directory, after its parent has grown, restores the allocator. */
  lemma TableRestored(a: Alloc, chain: seq<nat>, c: u32, b: Alloc, longer: seq<nat>)
    requires Ready(a) && IsChain(a.table, chain) && 2 <= c < |a.table| && a.table[c] == FREE
    requires GrownTo(Taken(a, 0, c), chain, b, longer)
    ensures c < |b.table| && IsRestored(a, chain, FreedChain(b, [c]), longer)
  {
    var a1 := Taken(a, 0, c);
    TakenBeside(a, chain, c);
    GrownGrewOnly(a1, chain, b, longer);
    if longer == chain {
      NothingGrown(a1, chain, b, longer);
    }
    GrowthRestored(a, chain, c, a1, b, longer);
  }

  lemma GrowthRestored(a: Alloc, chain: seq<nat>, c: u32, a1: Alloc, b: Alloc, longer: seq<nat>)
    requires Ready(a) && c < |a.table| && a.table[c] == FREE && a1 == Taken(a, 0, c)
    requires GrewOnly(a1, chain, b, longer) && (longer == chain ==> b == a1)
    ensures c < |b.table| && IsRestored(a, chain, FreedChain(b, [c]), longer)
  {
    SameButUndone(a, c, b.table, longer[|chain| - 1..]);
    AllFreeBefore(a, c, longer[|chain|..]);
    LessLess(a.freeCnt, |longer| - |chain|);
    TakeUndone(a, c);
  }

  /** When the cluster of a new directory is freed, the table is the one before, but for the clusters by which the
      parent grew. */
  lemma MadeDirIsUndone(g: Geometry, w: Snap, d: Order, m: Made, n: Snap)
    requires HasMade(g, w, d, m, n) && IsChain(w.a.table, w.chain)
    ensures IsChain(n.a.table, m.longer) && IsChain(n.a.table, [m.c]) && Apart(m.longer, [m.c])
    ensures IsRestored(w.a, w.chain, FreedChain(n.a, [m.c]), m.longer)
  {
    MadeChains(w.a, w.chain, m.c, n.a, m.longer);
    TableRestored(w.a, w.chain, m.c, n.a, m.longer);
  }

  // ---- the root directory ----

  /** The short slot of a new entry is never where the root directory begins, so unlinking is not refused there. */
  lemma NotAtRoot(dir: Dir, chain: seq<nat>, k: nat)
    requires dir.On(chain) && dir.At(chain, k) && 0 < k
    requires dir.fat.geo.rootClust !in chain[1..]
    ensures !AtRoot(dir)
  {
    var g := dir.fat.geo;
    LinkedIsChain(g, dir.fat.Tab(), chain);
    CursorIs(g, chain, k);
    SectorParts(g, chain, k / 16);
    var i := ClustIdx(g, k / 16);
    if i == 0 {
      FirstSlot(g, chain);
      CursorsDistinct(g, chain, 0, k);
    } else {
      assert chain[1..][i - 1] == chain[i];
    }
  }

  /** The root directory begins a chain, `root`, which is either that of the directory itself or apart from it; so its
      cluster is not behind the first one of the directory, and it is not when the directory has grown. */
  lemma RootNotBehind(a: Alloc, chain: seq<nat>, root: seq<nat>, b: Alloc, longer: seq<nat>)
    requires Ready(a) && IsChain(a.table, chain) && IsChain(a.table, root) && (chain == root || Apart(chain, root))
    requires IsRestored(a, chain, b, longer)
    ensures longer != [] && longer[0] == chain[0] && root[0] !in longer[1..]
  {
    assert longer[0] == longer[..|chain|][0];
    forall i | 1 <= i < |longer|
      ensures longer[i] != root[0]
    {
      if i >= |chain| {
        assert longer[|chain|..][i - |chain|] == longer[i];
        FreeNotInChain(a.table, root, longer[i]);
      } else {
        assert longer[..|chain|][i] == longer[i];
        if chain == root {
          ChainIsAcyclic(a.table, root, 0, i);
        }
      }
    }
  }

  // ---- the round trip ----

  /** Nothing of a directory that was made in the one that was `w` is left but the growth of its parent: the parent
      holds the live entries it had, the allocator is restored, no sector has changed but those of the parent and of the
      cluster that was taken and given back, upper nibbles and copies of the table are kept, and the device is up to
      date. */
  ghost predicate IsUndone(dir: Dir, w: Snap, m: Made)
    reads dir, dir.fat, dir.fat.buf
  {
    && dir.On(m.longer) && Clean(w.slots, 0)
    && Clean(dir.Slots(m.longer), 0) && Live(dir.Slots(m.longer), 0) == Live(w.slots, 0)
    && IsRestored(w.a, w.chain, dir.fat.State(), m.longer)
    && Fits(dir.fat.geo, w.img) && ChainStep(dir.fat.geo, w.img, dir.fat.img, Touched(m))
    && dir.fat.disk == dir.fat.img && !dir.fat.bufDirty && !dir.fat.infoDirty
  }

  /** Makes a directory under a name that is not in use, enters its parent again, searches for the name and unlinks what
      was found. If the directory is made at all, all of this succeeds, and nothing is left of it but the growth of the
      parent. `root` is the chain of the root directory. */
  method MakeThenUnlink(dir: Dir, ghost chain: seq<nat>, ghost root: seq<nat>, name: seq<byte>, time: u16, date: u16)
    returns (made: int, err: int, ghost m: Made)
    requires dir.On(chain) && !FailsWith(dir.fat.Tab(), 0, dir.fat.lastUsed, ERR_NONE)
    requires IsChain(dir.fat.Tab(), root) && root[0] == dir.fat.geo.rootClust && (chain == root || Apart(chain, root))
    requires IsUnused(dir.Slots(chain), name, dir.g)
    modifies dir, dir.fat, dir.fat.buf
    ensures made != ERR_NONE ==>
              MakeDirEnds(dir, old(dir.Now(chain)), Order(name, ParentOf(old(dir.sclust), dir.fat.geo), time, date),
                          m, made)
    ensures made == ERR_NONE ==> err == ERR_NONE && IsUndone(dir, old(dir.Now(chain)), m)
  {
    err := ERR_NONE;
    ghost var w, buf := dir.Now(chain), dir.g;
    var d := Order(name, ParentOf(dir.sclust, dir.fat.geo), time, date);
    LinkedIsChain(dir.fat.geo, dir.fat.Tab(), chain);
    made, m := MakeDir(dir, chain, name, time, date);
    if made == ERR_NONE {
      err := UndoMade(dir, w, d, m, root, buf);
    }
  }

  /** All that unlinking a directory that was just made depends on. `buf` was in the name buffer when its name was found
      not to be in use. */
  ghost predicate MayUndo(g: Geometry, w: Snap, d: Order, m: Made, n: Snap, buf: seq<byte>) {
    match m
    case Made(c, _, _, longer) =>
      && HasMade(g, w, d, m, n) && IsUnused(w.slots, d.name, buf)
      && IsChain(n.a.table, longer) && IsChain(n.a.table, [c]) && Apart(longer, [c])
      && IsRestored(w.a, w.chain, FreedChain(n.a, [c]), longer)
      && longer[0] == w.chain[0] && g.rootClust !in longer[1..]
      && Fits(g, w.img) && Fits(g, n.img) && ChainStep(g, w.img, n.img, Touched(m))
  }

  /** The clusters that making a directory has to do with: those of its parent, and its own. */
  function Touched(m: Made): seq<nat> { m.longer + [m.c] }

  lemma MadeTouches(g: Geometry, w: Snap, d: Order, m: Made, n: Snap)
    requires HasMade(g, w, d, m, n)
    ensures Fits(g, w.img) && Fits(g, n.img) && ChainStep(g, w.img, n.img, Touched(m))
  {
    ChainStepLonger(g, w.img, m.mid.img, [m.c], Touched(m));
    ChainStepLonger(g, m.mid.img, n.img, m.longer, Touched(m));
    ChainStepTwice(g, w.img, m.mid.img, n.img, Touched(m));
  }

  lemma UnlinkTouches(g: Geometry, w: Snap, m: Made, n: Snap, img: Image)
    requires Fits(g, w.img) && Fits(g, n.img) && ChainStep(g, w.img, n.img, Touched(m))
    requires Fits(g, img) && ChainStep(g, n.img, img, m.longer)
    ensures ChainStep(g, w.img, img, Touched(m))
  {
    ChainStepLonger(g, n.img, img, m.longer, Touched(m));
    ChainStepTwice(g, w.img, n.img, img, Touched(m));
  }

  lemma MadeMayUndo(g: Geometry, w: Snap, d: Order, m: Made, n: Snap, buf: seq<byte>, root: seq<nat>)
    requires HasMade(g, w, d, m, n) && IsUnused(w.slots, d.name, buf)
    requires IsChain(w.a.table, w.chain) && IsChain(w.a.table, root)
    requires root[0] == g.rootClust && (w.chain == root || Apart(w.chain, root))
    ensures MayUndo(g, w, d, m, n, buf)
  {
    MadeDirIsUndone(g, w, d, m, n);
    MadeTouches(g, w, d, m, n);
    RootNotBehind(w.a, w.chain, root, FreedChain(n.a, [m.c]), m.longer);
  }

  /** Enters the parent of a directory that was just made, and unlinks the directory. */
  method UndoMade(dir: Dir, ghost w: Snap, d: Order, ghost m: Made, ghost root: seq<nat>, ghost buf: seq<byte>)
    returns (err: int)
    requires IsInMade(dir, w, d, m) && IsChain(w.a.table, w.chain) && d.parent == ParentOf(w.chain[0], dir.fat.geo)
    requires IsChain(w.a.table, root) && root[0] == dir.fat.geo.rootClust && (w.chain == root || Apart(w.chain, root))
    requires IsUnused(w.slots, d.name, buf)
    modifies dir, dir.fat, dir.fat.buf
    ensures err == ERR_NONE && IsUndone(dir, w, m)
  {
    ghost var n := dir.Now(m.longer);
    DotsOfMade(dir, w, d, m);
    MadeMayUndo(dir.fat.geo, w, d, m, n, buf, root);
    EnterParent(dir, w, d, m, n, buf);
    err := UnlinkMade(dir, w, d, m, n, buf);
  }

  /** Enters the parent, to which the second slot of the new directory leads. */
  method EnterParent(dir: Dir, ghost w: Snap, d: Order, ghost m: Made, ghost n: Snap, ghost buf: seq<byte>)
    requires dir.On([m.c]) && dir.At([m.c], 0) && AllClusters(dir.fat.geo, m.longer) && n == dir.Now(m.longer)
    requires MayUndo(dir.fat.geo, w, d, m, n, buf) && w.chain != [] && d.parent == ParentOf(w.chain[0], dir.fat.geo)
    requires var s := dir.Slots([m.c]); |s| >= 2 && IsDots(s[1], 2, d.parent, d.time, d.date)
    modifies dir, dir.fat`disk, dir.fat`torn, dir.fat`bufDirty, dir.fat`sect, dir.fat.buf
    ensures dir.On(m.longer) && dir.Now(m.longer) == n
  {
    LeaveSub(dir, [m.c], d.parent, m.longer);
  }

  /** Enters the directory to which the second slot leads, and which occupies `longer`. */
  method LeaveSub(dir: Dir, ghost sub: seq<nat>, ghost parent: u32, ghost longer: seq<nat>)
    requires dir.On(sub) && dir.At(sub, 0) && AllClusters(dir.fat.geo, longer)
    requires var s := dir.Slots(sub); |s| >= 2 && SfnCluster(s[1]) == parent
    requires IsChain(dir.fat.Tab(), longer) && longer[0] == if parent == 0 then dir.fat.geo.rootClust else parent
    modifies dir, dir.fat`disk, dir.fat`torn, dir.fat`bufDirty, dir.fat`sect, dir.fat.buf
    ensures dir.On(longer) && dir.Now(longer) == old(dir.Now(longer))
  {
    var c := LoadParent(dir, sub, parent);
    dir.Enter(c, longer);
  }

  /** Reads which cluster the second slot of a directory leads to. */
  method LoadParent(dir: Dir, ghost chain: seq<nat>, ghost parent: u32) returns (c: u32)
    requires dir.On(chain) && dir.At(chain, 0)
    requires var s := dir.Slots(chain); |s| >= 2 && SfnCluster(s[1]) == parent
    modifies dir`clust, dir`sect, dir`idx, dir.fat`disk, dir.fat`torn, dir.fat`bufDirty, dir.fat`sect, dir.fat.buf
    ensures c == parent && dir.fat.Valid() && dir.fat.img == old(dir.fat.img) && |dir.g| == 512
  {
    var err := dir.Next(chain, 0);
    var s := dir.Load(chain, 1);
    c := SfnCluster(s);
  }

  /** Searches for a directory that was just made, and unlinks it. */
  method UnlinkMade(dir: Dir, ghost w: Snap, d: Order, ghost m: Made, ghost n: Snap, ghost buf: seq<byte>)
    returns (err: int)
    requires dir.On(m.longer) && n == dir.Now(m.longer) && MayUndo(dir.fat.geo, w, d, m, n, buf)
    modifies dir, dir.fat, dir.fat.buf
    ensures err == ERR_NONE && IsUndone(dir, w, m)
  {
    var loc;
    ghost var hit;
    err, loc, hit := FindMade(dir, w, d, m, n, buf);
    err := UnlinkFound(dir, loc, w, d, m, n, buf, hit);
  }

  /** Unlinks a directory that was just made, and whose entry was found. */
  method UnlinkFound(dir: Dir, loc: Loc, ghost w: Snap, d: Order, ghost m: Made, ghost n: Snap, ghost buf: seq<byte>,
                     ghost hit: Hit)
    returns (err: int)
    requires dir.On(m.longer) && dir.Now(m.longer) == n && MayUndo(dir.fat.geo, w, d, m, n, buf)
    requires dir.Found(m.longer, hit, loc) && !AtRoot(dir) && MadeFound(dir.fat.geo, w, m, n, hit)
    modifies dir, dir.fat, dir.fat.buf
    ensures err == ERR_NONE && IsUndone(dir, w, m)
  {
    ghost var sub: seq<nat> := [m.c];
    FoundMayGo(dir, w, d, m, n, buf, hit, sub);
    err := UnlinkAt(dir, loc, m.longer, n, hit, sub);
    NothingLeft(dir, w, d, m, n, buf, hit, sub);
  }

  /** The entry that was hit leads to the clusters `sub`, and may be unlinked. */
  ghost predicate MayGo(dir: Dir, n: Snap, hit: Hit, sub: seq<nat>)
    reads dir
  {
    match hit
    case Hit(_, _, _, _) =>
      && IsChain(n.a.table, sub) && Fits(dir.fat.geo, n.img) && AllClusters(dir.fat.geo, sub) && Apart(n.chain, sub)
      && hit.loc <= hit.pos < |n.slots| && sub[0] == SfnCluster(n.slots[hit.pos])
      && UnlinkError(AtRoot(dir), n.slots[hit.pos][11], SlotsOf(dir.fat.geo, n.img, sub)) == ERR_NONE
  }

  lemma FoundMayGo(dir: Dir, w: Snap, d: Order, m: Made, n: Snap, buf: seq<byte>, hit: Hit, sub: seq<nat>)
    requires MayUndo(dir.fat.geo, w, d, m, n, buf) && n.chain == m.longer
    requires !AtRoot(dir) && MadeFound(dir.fat.geo, w, m, n, hit) && sub == [m.c]
    ensures MayGo(dir, n, hit, sub)
  {
  }

  /** The entry that was hit is unlinked from the directory that was `n`, and the device is up to date. */
  ghost predicate IsGone(dir: Dir, n: Snap, hit: Hit, sub: seq<nat>)
    reads dir, dir.fat, dir.fat.buf
  {
    match hit
    case Hit(_, _, _, _) =>
      && dir.On(n.chain) && (forall i :: 0 <= i < |sub| ==> sub[i] < |n.a.table|)
      && dir.fat.State() == FreedChain(n.a, sub)
      && hit.loc <= hit.pos < |n.slots| && dir.Slots(n.chain) == Removed(n.slots, hit.loc, hit.pos + 1)
      && Fits(dir.fat.geo, n.img) && ChainStep(dir.fat.geo, n.img, dir.fat.img, n.chain)
      && dir.fat.disk == dir.fat.img && !dir.fat.bufDirty && !dir.fat.infoDirty
  }

  method UnlinkAt(dir: Dir, loc: Loc, ghost chain: seq<nat>, ghost n: Snap, ghost hit: Hit, ghost sub: seq<nat>)
    returns (err: int)
    requires dir.On(chain) && n == dir.Now(chain) && dir.Found(chain, hit, loc) && MayGo(dir, n, hit, sub)
    modifies dir, dir.fat, dir.fat.buf
    ensures err == ERR_NONE && IsGone(dir, n, hit, sub)
  {
    err := Unlink(dir, loc, chain, hit.loc, hit.pos, sub);
  }

  lemma NothingLeft(dir: Dir, w: Snap, d: Order, m: Made, n: Snap, buf: seq<byte>, h: Hit, sub: seq<nat>)
    requires MayUndo(dir.fat.geo, w, d, m, n, buf) && MadeFound(dir.fat.geo, w, m, n, h) && sub == [m.c]
    requires n.chain == m.longer && IsGone(dir, n, h, sub)
    ensures IsUndone(dir, w, m)
  {
    UnlinkTouches(dir.fat.geo, w, m, n, dir.fat.img);
  }

  /** Searches for a directory that was just made; what is found may be unlinked. */
  method FindMade(dir: Dir, ghost w: Snap, d: Order, ghost m: Made, ghost n: Snap, ghost buf: seq<byte>)
    returns (err: int, loc: Loc, ghost hit: Hit)
    requires dir.On(m.longer) && n == dir.Now(m.longer) && MayUndo(dir.fat.geo, w, d, m, n, buf)
    modifies dir`clust, dir`sect, dir`idx, dir`g, dir`gLen, dir`gCrc,
             dir.fat`disk, dir.fat`torn, dir.fat`bufDirty, dir.fat`sect, dir.fat.buf
    ensures err == ERR_NONE && dir.On(m.longer) && dir.Now(m.longer) == n
    ensures dir.Found(m.longer, hit, loc) && !AtRoot(dir) && MadeFound(dir.fat.geo, w, m, n, hit)
  {
    ghost var buf' := dir.g;
    err, loc, hit := dir.SearchName(m.longer, d.name);
    MadeDirIsFound(dir.fat.geo, w, d, m, n, buf, buf', hit);
    NotAtRoot(dir, m.longer, hit.pos);
  }
}
