/** Making and unlinking entries together with the clusters they name. */
module Tree {
  import opened Bytes
  import opened Codes
  import opened Table
  import opened Chains
  import opened Runs
  import opened Names
  import opened Entries
  import opened NewEntry
  import opened Sectors
  import opened Volume
  import opened Directory

  const ATTR_DIR: byte := 0x10

  predicate Bit(n: nat, k: nat) { Shr(n, k) % 2 == 1 }

  /** Read-only, system and label entries cannot be unlinked. */
  predicate Protected(attr: byte) { Bit(attr, 0) || Bit(attr, 2) || Bit(attr, 3) }

  predicate IsDir(attr: byte) { Bit(attr, 4) }

  // ---- is a directory empty? ----

  /** What the test for an empty directory answers, at slot `k`. */
  function EmptyFrom(slots: seq<Slot>, k: nat): int
    decreases |slots| - k
  {
    if k >= |slots| then ERR_EOF
    else if IsLast(slots[k]) then ERR_NONE
    else if !IsFree(slots[k]) then ERR_DENIED
    else EmptyFrom(slots, k + 1)
  }

  /** A directory counts as empty exactly when there is an end mark and only free slots before it; one that is full
      of free slots, without an end mark, is refused with EOF. */
  lemma {:induction false} EmptyMeans(slots: seq<Slot>, k: nat)
    ensures EmptyFrom(slots, k) == ERR_NONE <==> exists l: nat :: FirstInUse(slots, k, l) && IsLast(slots[l])
    ensures EmptyFrom(slots, k) == ERR_DENIED <==> exists l: nat :: FirstInUse(slots, k, l) && !IsFree(slots[l])
    ensures EmptyFrom(slots, k) == ERR_EOF <==> forall i :: k <= i < |slots| ==> IsFree(slots[i]) && !IsLast(slots[i])
    decreases |slots| - k
  {
    if k >= |slots| {
    } else {
      if IsLast(slots[k]) || !IsFree(slots[k]) {
        assert FirstInUse(slots, k, k);
      } else {
        EmptyMeans(slots, k + 1);
        forall l: nat
          ensures FirstInUse(slots, k, l) <==> FirstInUse(slots, k + 1, l)
        {
        }
      }
    }
  }

  /** `l` is the first slot from `k` on that is not marked free. */
  ghost predicate FirstInUse(slots: seq<Slot>, k: nat, l: nat) {
    && k <= l < |slots| && (IsLast(slots[l]) || !IsFree(slots[l]))
    && forall i :: k <= i < l ==> IsFree(slots[i]) && !IsLast(slots[i])
  }

  /** Goes past the first two slots of a directory. */
  method SkipDots(dir: Dir, ghost sub: seq<nat>) returns (err: int)
    requires dir.On(sub) && dir.At(sub, 0)
    modifies dir`clust, dir`sect, dir`idx, dir.fat`disk, dir.fat`torn, dir.fat`bufDirty, dir.fat`sect, dir.fat.buf
    ensures dir.On(sub) && dir.At(sub, 2)
  {
    ManySlots(dir.fat.geo, sub);
    err := dir.Next(sub, 0);
    err := dir.Next(sub, 1);
  }

  /** Looks for entries in the directory at cluster `c`, behind its first two slots. */
  method CheckEmpty(fat: Fat, c: nat, ghost sub: seq<nat>) returns (err: int)
    requires fat.Valid() && IsChain(fat.Tab(), sub) && AllClusters(fat.geo, sub) && c == sub[0]
    modifies fat`disk, fat`torn, fat`bufDirty, fat`sect, fat.buf
    ensures fat.Valid()
    ensures err == EmptyFrom(SlotsOf(fat.geo, fat.img, sub), 2)
  {
    var tmp := new Dir(fat, c, sub);
    err := SkipDots(tmp, sub);
    ghost var k: nat, slots := 2, tmp.Slots(sub);
    while true
      invariant tmp.On(sub) && tmp.At(sub, k) && fat.img == old(fat.img)
      invariant EmptyFrom(slots, k) == EmptyFrom(slots, 2)
      decreases SlotCnt(fat.geo, sub) - k
    {
      var s := tmp.Load(sub, k);
      if IsLast(s) {
        return ERR_NONE;
      }
      if !IsFree(s) {
        return ERR_DENIED;
      }
      err := tmp.Next(sub, k);
      if err != ERR_NONE {
        return;
      }
      k := k + 1;
    }
  }

  lemma ManySlots(g: Geometry, chain: seq<nat>)
    requires chain != []
    ensures SlotCnt(g, chain) >= 16
  {
    ShlMonotone(0, |chain|, g.shift);
  }

  // ---- unlinking ----

  /** The cursor is at the first slot of the root directory. */
  predicate AtRoot(dir: Dir)
    reads dir
  {
    var root := dir.fat.geo.rootClust;
    dir.clust == root && dir.sect == ClustToSect(dir.fat.geo, root) && dir.idx == 0
  }

  /** What unlinking the entry with attributes `attr` answers; `sub` are the slots behind it if it is a directory. */
  function UnlinkError(atRoot: bool, attr: byte, sub: seq<Slot>): int {
    if atRoot || Protected(attr) then ERR_DENIED else if IsDir(attr) then EmptyFrom(sub, 2) else ERR_NONE
  }

  /** An entry may be unlinked exactly when the cursor is not at the start of the root directory, the bits for
      read-only, system and label are clear in the attributes, and, if it is a directory, an end mark comes behind the
      first two slots of it with only free slots before. */
  lemma RefusedExactly(atRoot: bool, attr: byte, sub: seq<Slot>)
    ensures UnlinkError(atRoot, attr, sub) == ERR_NONE <==>
            && !atRoot && attr % 2 == 0 && attr / 4 % 2 == 0 && attr / 8 % 2 == 0
            && (attr / 16 % 2 == 1 ==>
                  exists l: nat :: 2 <= l < |sub| && IsLast(sub[l]) && forall i :: 2 <= i < l ==> sub[i][0] == 0xe5)
    ensures attr / 16 % 2 == 0 ==> UnlinkError(atRoot, attr, sub) in {ERR_NONE, ERR_DENIED}
  {
    BitIs(attr);
    EmptyMeans(sub, 2);
    if attr / 16 % 2 == 1 && EmptyFrom(sub, 2) == ERR_NONE {
      var l: nat :| FirstInUse(sub, 2, l) && IsLast(sub[l]);
      assert forall i :: 2 <= i < l ==> sub[i][0] == 0xe5;
    }
    if l: nat :| 2 <= l < |sub| && IsLast(sub[l]) && forall i :: 2 <= i < l ==> sub[i][0] == 0xe5 {
      assert FirstInUse(sub, 2, l);
    }
  }

  lemma BitIs(attr: byte)
    ensures Bit(attr, 0) == (attr % 2 == 1) && Bit(attr, 2) == (attr / 4 % 2 == 1)
    ensures Bit(attr, 3) == (attr / 8 % 2 == 1)
    ensures Bit(attr, 4) == (attr / 16 % 2 == 1)
  {
    assert Shr(attr, 1) == attr / 2 && Shr(attr, 2) == attr / 4;
    assert Shr(attr, 3) == attr / 8 && Shr(attr, 4) == attr / 16;
  }

  /** The cursor counts as being at the root exactly when its cluster is that of the root, and it is at the first slot
      of that cluster. */
  lemma AtRootMeans(dir: Dir, chain: seq<nat>, k: nat, i: nat)
    requires dir.On(chain) && dir.At(chain, k) && i < |chain| && chain[i] == dir.fat.geo.rootClust
    ensures ClustIdx(dir.fat.geo, k / 16) == i ==> (AtRoot(dir) <==> k == 16 * Shl(i, dir.fat.geo.shift))
    ensures ClustIdx(dir.fat.geo, k / 16) != i ==> !AtRoot(dir)
  {
    var g := dir.fat.geo;
    LinkedIsChain(g, dir.fat.Tab(), chain);
    CursorIs(g, chain, k);
    SectorParts(g, chain, k / 16);
  }

  /** Clearing a chain leaves every other chain, and what lies in it. */
  lemma ClearedKeepsChain(t: Table, chain: seq<nat>, sub: seq<nat>)
    requires IsChain(t, chain) && IsChain(t, sub) && Apart(chain, sub)
    ensures IsChain(Cleared(t, sub), chain)
  {
  }

  lemma TableStepKeepsSlots(g: Geometry, img: Image, img': Image, chain: seq<nat>)
    requires Fits(g, img) && Fits(g, img') && TableStep(g, img, img') && AllClusters(g, chain)
    ensures SlotsOf(g, img', chain) == SlotsOf(g, img, chain)
  {
    RestSame(g, img', img);
    SlotsSame(g, img, img', chain);
  }

  /** Whether the entry under the cursor may be unlinked. */
  method CheckUnlink(dir: Dir, s: Slot, ghost chain: seq<nat>, ghost b: nat, ghost sub: seq<nat>) returns (err: int)
    requires dir.On(chain) && dir.At(chain, b)
    requires IsChain(dir.fat.Tab(), sub) && AllClusters(dir.fat.geo, sub) && sub[0] == SfnCluster(s)
    modifies dir.fat`disk, dir.fat`torn, dir.fat`bufDirty, dir.fat`sect, dir.fat.buf
    ensures dir.On(chain) && dir.At(chain, b)
    ensures err == UnlinkError(AtRoot(dir), s[11], SlotsOf(dir.fat.geo, dir.fat.img, sub))
  {
    err := ERR_NONE;
    if AtRoot(dir) || Protected(s[11]) {
      return ERR_DENIED;
    }
    if IsDir(s[11]) {
      err := CheckEmpty(dir.fat, SfnCluster(s), sub);
    }
  }

  /** The device between the two halves of unlinking: the clusters `sub` are free, and the slots are as before. */
  ghost predicate HalfUnlinked(g: Geometry, disk: Image, chain: seq<nat>, slots: seq<Slot>, t: Table, sub: seq<nat>) {
    && Fits(g, disk) && AllClusters(g, chain) && SlotsOf(g, disk, chain) == slots
    && (forall i :: 0 <= i < |sub| ==> sub[i] < |t|) && Active(g, disk) == Cleared(t, sub)
  }

  /** When the driver stops between the two halves of unlinking the entry at slot `b`, the entry is still there, but no
      chain begins at the cluster that it names; and if no other cluster was free, the one allocated next is one that
      the entry led to. */
  lemma HalfUnlinkedMeans(g: Geometry, disk: Image, chain: seq<nat>, slots: seq<Slot>, t: Table, sub: seq<nat>, b: nat,
                          lastUsed: nat, s: seq<nat>, c: nat)
    requires HalfUnlinked(g, disk, chain, slots, t, sub) && IsChain(t, sub) && Sized(t) && 2 <= lastUsed < |t|
    requires b < |slots| && sub[0] == SfnCluster(slots[b])
    ensures s != [] && s[0] == SfnCluster(slots[b]) ==> !IsChain(Active(g, disk), s)
    ensures (forall i :: 2 <= i < |t| ==> t[i] != FREE) && Choose(Active(g, disk), 0, lastUsed) == At(c) ==> c in sub
  {
    ClearedHasNoChain(t, sub, s);
    OnlyClearedTaken(t, sub, lastUsed, c);
  }

  lemma ClearedHasNoChain(t: Table, sub: seq<nat>, s: seq<nat>)
    requires Sized(t) && IsChain(t, sub)
    ensures s != [] && s[0] == sub[0] ==> !IsChain(Cleared(t, sub), s)
  {
    var t' := Cleared(t, sub);
    assert t'[sub[0]] == FREE;
    if IsChain(t', s) {
      FreeNotInChain(t', s, sub[0]);
    }
  }

  lemma OnlyClearedTaken(t: Table, sub: seq<nat>, lastUsed: nat, c: nat)
    requires IsChain(t, sub) && Sized(t) && 2 <= lastUsed < |t|
    ensures (forall i :: 2 <= i < |t| ==> t[i] != FREE) && Choose(Cleared(t, sub), 0, lastUsed) == At(c) ==> c in sub
  {
    ScanFindsFirstFree(Cleared(t, sub), lastUsed);
  }

  /** Frees the chain of an entry: no other chain changes, and no data. Then the device is up to date. */
  method FreeChain(dir: Dir, c: nat, ghost chain: seq<nat>, ghost b: nat, ghost sub: seq<nat>)
    requires dir.On(chain) && dir.At(chain, b)
    requires IsChain(dir.fat.Tab(), sub) && c == sub[0] && Apart(chain, sub)
    modifies dir.fat, dir.fat.buf
    ensures dir.On(chain) && dir.At(chain, b) && dir.Slots(chain) == old(dir.Slots(chain))
    ensures dir.fat.State() == FreedChain(old(dir.fat.State()), sub)
    ensures ChainStep(dir.fat.geo, old(dir.fat.img), dir.fat.img, chain)
    ensures HalfUnlinked(dir.fat.geo, dir.fat.disk, chain, old(dir.Slots(chain)), old(dir.fat.Tab()), sub)
  {
    var fat := dir.fat;
    ghost var img := fat.img;
    FreedIs(fat.State(), sub);
    var err := fat.RemoveChain(c);
    FreedBeside(fat.geo, img, fat.img, chain, sub);
  }

  lemma FreedBeside(g: Geometry, img: Image, img': Image, chain: seq<nat>, sub: seq<nat>)
    requires Fits(g, img) && Fits(g, img') && TableStep(g, img, img') && chain != [] && AllClusters(g, chain)
    requires Linked(Active(g, img), chain, 0) && IsChain(Active(g, img), sub) && Apart(chain, sub)
    requires Active(g, img') == Cleared(Active(g, img), sub)
    ensures Linked(Active(g, img'), chain, 0)
    ensures SlotsOf(g, img', chain) == SlotsOf(g, img, chain) && ChainStep(g, img, img', chain)
  {
    LinkedIsChain(g, Active(g, img), chain);
    ClearedKeepsChain(Active(g, img), chain, sub);
    LinkedIsChain(g, Active(g, img'), chain);
    TableStepKeepsSlots(g, img, img', chain);
    TableStepIsChainStep(g, img, img', chain);
  }

  /** The allocator's state after all clusters of `sub` were freed. */
  function FreedChain(a: Alloc, sub: seq<nat>): Alloc
    requires forall i :: 0 <= i < |sub| ==> sub[i] < |a.table|
  {
    Alloc(Cleared(a.table, sub), a.lastUsed, (a.freeCnt + |sub|) % 0x1_0000_0000)
  }

  lemma FreedIs(a: Alloc, sub: seq<nat>)
    requires |a.table| <= BAD && IsChain(a.table, sub)
    ensures Remove(a, sub[0]) == (FreedChain(a, sub), true)
  {
    RemoveFreesTheChain(a, sub);
  }

  /** Brings the device up to date. */
  method Flush(dir: Dir, ghost chain: seq<nat>, ghost b: nat)
    requires dir.On(chain) && dir.At(chain, b)
    modifies dir.fat, dir.fat.buf
    ensures dir.On(chain) && dir.At(chain, b) && dir.Slots(chain) == old(dir.Slots(chain))
    ensures dir.fat.State() == old(dir.fat.State())
    ensures TableStep(dir.fat.geo, old(dir.fat.img), dir.fat.img)
    ensures dir.fat.disk == dir.fat.img && !dir.fat.bufDirty && !dir.fat.infoDirty
  {
    var fat := dir.fat;
    ghost var img := fat.img;
    fat.SyncFs();
    TableStepKeepsSlots(fat.geo, img, fat.img, chain);
  }

  /** Unlinks the entry whose slots are `a` to `b`, the cursor being at its short slot, and whose clusters are `sub`:
      frees all of its clusters and marks its slots free, or changes nothing. */
  method Unlink(dir: Dir, loc: Loc, ghost chain: seq<nat>, ghost a: nat, ghost b: nat, ghost sub: seq<nat>)
    returns (err: int)
    requires dir.On(chain) && dir.At(chain, b) && a <= b && loc == dir.LocOf(chain, a)
    requires dir.fat.sect == dir.sect && dir.fat.buf[..] == dir.fat.img[dir.sect]
    requires IsChain(dir.fat.Tab(), sub) && AllClusters(dir.fat.geo, sub) && Apart(chain, sub)
    requires sub[0] == SfnCluster(dir.Slots(chain)[b])
    modifies dir`clust, dir`sect, dir`idx, dir.fat, dir.fat.buf
    ensures dir.On(chain) && dir.At(chain, b)
    ensures err == UnlinkError(old(AtRoot(dir)), old(dir.Slots(chain))[b][11],
                               SlotsOf(dir.fat.geo, old(dir.fat.img), sub))
    ensures if err == ERR_NONE then
              && dir.fat.State() == FreedChain(old(dir.fat.State()), sub)
              && dir.Slots(chain) == Removed(old(dir.Slots(chain)), a, b + 1)
              && ChainStep(dir.fat.geo, old(dir.fat.img), dir.fat.img, chain)
              && dir.fat.disk == dir.fat.img && !dir.fat.bufDirty && !dir.fat.infoDirty
            else dir.fat.img == old(dir.fat.img) && dir.fat.State() == old(dir.fat.State())
  {
    var s := dir.Under(chain, b);
    err := CheckUnlink(dir, s, chain, b, sub);
    if err != ERR_NONE {
      return;
    }
    RemoveAll(dir, loc, SfnCluster(s), chain, a, b, sub);
  }

  /** Frees the clusters of an entry, and then its slots. */
  method RemoveAll(dir: Dir, loc: Loc, c: nat, ghost chain: seq<nat>, ghost a: nat, ghost b: nat, ghost sub: seq<nat>)
    requires dir.On(chain) && dir.At(chain, b) && a <= b && loc == dir.LocOf(chain, a)
    requires IsChain(dir.fat.Tab(), sub) && c == sub[0] && Apart(chain, sub)
    modifies dir`clust, dir`sect, dir`idx, dir.fat, dir.fat.buf
    ensures dir.On(chain) && dir.At(chain, b)
    ensures dir.fat.State() == FreedChain(old(dir.fat.State()), sub)
    ensures dir.Slots(chain) == Removed(old(dir.Slots(chain)), a, b + 1)
    ensures ChainStep(dir.fat.geo, old(dir.fat.img), dir.fat.img, chain)
    ensures dir.fat.disk == dir.fat.img && !dir.fat.bufDirty && !dir.fat.infoDirty
  {
    var fat := dir.fat;
    ghost var img0 := fat.img;
    FreeChain(dir, c, chain, b, sub);
    ghost var img1, state := fat.img, fat.State();
    var err := dir.RemoveEntries(chain, loc, a, b);
    assert fat.State() == state;
    ChainStepTwice(fat.geo, img0, img1, fat.img, chain);
    ghost var img2 := fat.img;
    Flush(dir, chain, b);
    TableStepIsChainStep(fat.geo, img2, fat.img, chain);
    ChainStepTwice(fat.geo, img0, img2, fat.img, chain);
  }

  // ---- making a directory ----

  /** The entries "." and ".." of a new directory. */
  function DotSlot(c: u32, time: u16, date: u16): Slot {
    SfnSlot([DOT] + seq(10, i => PAD), ATTR_DIR, c, time, date)
  }

  function DotDotSlot(parent: u32, time: u16, date: u16): Slot {
    SfnSlot([DOT, DOT] + seq(9, i => PAD), ATTR_DIR, parent, time, date)
  }

  /** A new directory of `n` slots at cluster `c`; `parent` is 0 when it is in the root directory. */
  function FreshDir(n: nat, c: u32, parent: u32, time: u16, date: u16): (s: seq<Slot>)
    requires n >= 2
    ensures |s| == n
  {
    Grown([DotSlot(c, time, date), DotDotSlot(parent, time, date)], n - 2)
  }

  /** A directory entry whose name is `dots` dots and that leads to cluster `c`. */
  ghost predicate IsDots(s: Slot, dots: nat, c: nat, time: u16, date: u16) {
    && (forall i :: 0 <= i < 11 ==> s[i] == if i < dots then 0x2e else 0x20)
    && s[11] == 0x10 && SfnCluster(s) == c && HasTimes(s, time, date, date, time, date)
  }

  /** The first two slots of the directory at cluster `c` lead to itself and to its parent, which starts at cluster
      `parent`; 0 stands for the root directory. */
  ghost predicate DotsLead(s: seq<Slot>, c: nat, parent: nat, root: nat, time: u16, date: u16) {
    && |s| >= 2 && IsDots(s[0], 1, c, time, date)
    && IsDots(s[1], 2, if parent == root then 0 else parent, time, date)
  }

  lemma DotsOfFresh(n: nat, c: u32, parent: u32, time: u16, date: u16)
    requires n >= 2
    ensures var s := FreshDir(n, c, parent, time, date);
            IsDots(s[0], 1, c, time, date) && IsDots(s[1], 2, parent, time, date)
  {
    var one, two := [DOT] + seq(10, i => PAD), [DOT, DOT] + seq(9, i => PAD);
    DotsRead(one, 1, c, time, date);
    DotsRead(two, 2, parent, time, date);
  }

  lemma DotsRead(name: Name11, dots: nat, c: u32, time: u16, date: u16)
    requires forall i :: 0 <= i < 11 ==> name[i] == if i < dots then 0x2e else 0x20
    ensures IsDots(SfnSlot(name, ATTR_DIR, c, time, date), dots, c, time, date)
  {
    SfnSlotIsShort(name, ATTR_DIR, c, time, date);
    var s := SfnSlot(name, ATTR_DIR, c, time, date);
    forall i | 0 <= i < 11
      ensures s[i] == name[i]
    {
      assert s[..11][i] == s[i];
    }
  }

  lemma ClearedSlots(g: Geometry, img: Image, c: nat)
    requires Fits(g, img) && IsCluster(g, c)
    ensures AllClusters(g, [c])
    ensures SlotsOf(g, Zeroed(img, ClustToSect(g, c), Spc(g)), [c]) == seq(SlotCnt(g, [c]), i => ZeroSlot())
  {
    var img' := Zeroed(img, ClustToSect(g, c), Spc(g));
    assert [] + [c] == [c];
    LongerClusters(g, [], c);
    SectAtOfLast(g, [], c, 0);
    forall k: nat | k < SlotCnt(g, [c])
      ensures SlotsOf(g, img', [c])[k] == ZeroSlot()
    {
      SlotOf(g, img', [c], k);
      NewSector(g, img, [], c, k / 16);
      assert SlotIn(ZeroSector(), k % 16) == ZeroSlot();
    }
  }

  lemma PatchedTwice(s: Sector, x: Slot, y: Slot)
    ensures Patched(Patched(s, 0, x), 32, y) == Patched(s, 0, x + y)
  {
  }

  lemma TwoSlotsPatched(g: Geometry, img: Image, c: nat, x: Slot, y: Slot)
    requires Fits(g, img) && IsCluster(g, c) && AllClusters(g, [c])
    ensures SlotCnt(g, [c]) >= 16
    ensures var s := ClustToSect(g, c);
            WithSlot(g, WithSlot(g, img, [c], 0, x), [c], 1, y) == img[s := Patched(img[s], 0, x + y)]
  {
    ManySlots(g, [c]);
    FirstSector(g, [c], 0);
    ShlAdds(0, 0, g.shift);
    assert SectAt(g, [c], 0) == ClustToSect(g, c);
    PatchedTwice(img[ClustToSect(g, c)], x, y);
  }

  /** Writing the first two slots of a cleared cluster makes it a new directory. */
  lemma TwoSlots(g: Geometry, img: Image, c: nat, x: Slot, y: Slot, img': Image)
    requires Fits(g, img) && IsCluster(g, c) && AllClusters(g, [c]) && IsChain(Active(g, img), [c])
    requires var s := ClustToSect(g, c); img' == img[s := Patched(img[s], 0, x + y)]
    ensures SlotCnt(g, [c]) >= 16 && SlotsOf(g, img', [c]) == SlotsOf(g, img, [c])[0 := x][1 := y]
    ensures Active(g, img') == Active(g, img) && ChainStep(g, img, img', [c])
  {
    TwoSlotsPatched(g, img, c, x, y);
    var mid := WithSlot(g, img, [c], 0, x);
    LinkedIsChain(g, Active(g, img), [c]);
    SlotWritten(g, img, [c], 0, x);
    SlotWritten(g, mid, [c], 1, y);
    ChainStepTwice(g, img, mid, img', [c]);
  }

  lemma FreshIs(n: nat, c: u32, parent: u32, time: u16, date: u16)
    requires n >= 2
    ensures seq(n, i => ZeroSlot())[0 := DotSlot(c, time, date)][1 := DotDotSlot(parent, time, date)] ==
            FreshDir(n, c, parent, time, date)
  {
  }

  /** What is to be made: the name, the parent as ".." names it, and the times. */
  datatype Order = Order(name: seq<byte>, parent: u32, time: u16, date: u16)

  /** Cluster `c` is a chain of its own that holds a new directory. */
  ghost predicate IsNewDir(g: Geometry, t: Table, img: Image, d: Order, c: u32) {
    && Fits(g, img) && |t| == g.ClustCnt() && IsChain(t, [c]) && AllClusters(g, [c]) && SlotCnt(g, [c]) >= 16
    && SlotsOf(g, img, [c]) == FreshDir(SlotCnt(g, [c]), c, d.parent, d.time, d.date)
  }

  /** Clears a cluster and makes it an empty directory. */
  method PrepareDir(fat: Fat, c: nat, d: Order)
    requires fat.Valid() && IsCluster(fat.geo, c) && IsChain(fat.Tab(), [c])
    modifies fat`img, fat`disk, fat`torn, fat`bufDirty, fat`sect, fat.buf
    ensures fat.Valid() && fat.Tab() == old(fat.Tab())
    ensures IsNewDir(fat.geo, fat.Tab(), fat.img, d, c)
    ensures ChainStep(fat.geo, old(fat.img), fat.img, [c])
  {
    ghost var img := fat.img;
    ClearedSlots(fat.geo, img, c);
    fat.ClustClear(c);
    ghost var img1 := fat.img;
    fat.UpdateBuf(ClustToSect(fat.geo, c));
    fat.StoreBytes(0, DotSlot(c, d.time, d.date) + DotDotSlot(d.parent, d.time, d.date));
    TwoSlots(fat.geo, img1, c, DotSlot(c, d.time, d.date), DotDotSlot(d.parent, d.time, d.date), fat.img);
    FreshIs(SlotCnt(fat.geo, [c]), c, d.parent, d.time, d.date);
    ChainStepTwice(fat.geo, img, img1, fat.img, [c]);
  }

  lemma KeptBeside(g: Geometry, img: Image, img': Image, chain: seq<nat>, other: seq<nat>)
    requires Fits(g, img) && Fits(g, img') && ChainStep(g, img, img', chain) && AllClusters(g, other)
    requires Apart(other, chain)
    ensures SlotsOf(g, img', other) == SlotsOf(g, img, other)
  {
    ChainStepMeans(g, img, img', chain);
    forall s | 0 <= s < |img| && InChain(g, other, s)
      ensures img'[s] == img[s]
    {
      DataIsOutside(g, s);
      assert Beside(g, chain, s);
    }
    SlotsSame(g, img, img', other);
  }

  /** Taking a free cluster for a new chain leaves the other chains. */
  lemma TakenBeside(a: Alloc, chain: seq<nat>, c: nat)
    requires Ready(a) && IsChain(a.table, chain) && 2 <= c < |a.table| && a.table[c] == FREE
    ensures c !in chain && IsChain(Taken(a, 0, c).table, chain) && IsChain(Taken(a, 0, c).table, [c])
  {
    FreeNotInChain(a.table, chain, c);
  }

  /** The directory that was `w`, and is `mid`, is as before, but a cluster was taken and made a new directory. */
  ghost predicate HasPrepared(g: Geometry, w: Snap, d: Order, c: u32, mid: Snap) {
    && Ready(w.a) && Choose(w.a.table, 0, w.a.lastUsed) == At(c)
    && mid.chain == w.chain && mid.slots == w.slots && mid.a == Stretch(w.a, 0) && c !in w.chain
    && Fits(g, w.img) && Fits(g, mid.img) && ChainStep(g, w.img, mid.img, [c])
    && IsNewDir(g, mid.a.table, mid.img, d, c)
  }

  /** The directory is what it was, and so is the volume. */
  ghost predicate Unchanged(dir: Dir, w: Snap)
    reads dir, dir.fat, dir.fat.buf
  {
    dir.On(w.chain) && dir.Now(w.chain) == w
  }

  /** Takes a cluster for a new directory and fills it. When there is none the volume is as before. */
  method NewCluster(dir: Dir, ghost chain: seq<nat>, d: Order) returns (err: int, c: u32)
    requires dir.On(chain) && !FailsWith(dir.fat.Tab(), 0, dir.fat.lastUsed, ERR_NONE)
    modifies dir.fat, dir.fat.buf
    ensures dir.On(chain)
    ensures if err == ERR_NONE then HasPrepared(dir.fat.geo, old(dir.Now(chain)), d, c, dir.Now(chain))
            else FailsWith(old(dir.fat.Tab()), 0, old(dir.fat.lastUsed), err) && Unchanged(dir, old(dir.Now(chain)))
  {
    var fat := dir.fat;
    ghost var img, a := fat.img, fat.State();
    var clust;
    err, clust := fat.CreateChain();
    if err != ERR_NONE {
      return err, 0;
    }
    c := clust;
    TakenOnDisk(fat.geo, img, a, fat.img, chain, c);
    ghost var img1 := fat.img;
    PrepareDir(fat, c, d);
    KeptBeside(fat.geo, img1, fat.img, [c], chain);
    ChainStepTwice(fat.geo, img, img1, fat.img, [c]);
  }

  /** What taking a cluster for a new chain leaves of a directory. */
  lemma TakenOnDisk(g: Geometry, img: Image, a: Alloc, img1: Image, chain: seq<nat>, c: nat)
    requires Fits(g, img) && Fits(g, img1) && TableStep(g, img, img1) && chain != [] && AllClusters(g, chain)
    requires Ready(a) && a.table == Active(g, img) && Choose(a.table, 0, a.lastUsed) == At(c)
    requires Linked(a.table, chain, 0) && Active(g, img1) == Stretch(a, 0).table
    ensures c !in chain && Apart(chain, [c]) && IsCluster(g, c) && IsChain(Active(g, img1), [c])
    ensures Linked(Active(g, img1), chain, 0) && SlotsOf(g, img1, chain) == SlotsOf(g, img, chain)
    ensures ChainStep(g, img, img1, [c])
  {
    LinkedIsChain(g, a.table, chain);
    TakenBeside(a, chain, c);
    LinkedIsChain(g, Active(g, img1), chain);
    TableStepKeepsSlots(g, img, img1, chain);
    TableStepIsChainStep(g, img, img1, [c]);
  }

  /** What making a directory chose: its cluster, its parent when that was prepared, the first room for its entry, and
      the chain of the parent in the end. */
  datatype Made = Made(c: u32, mid: Snap, r: Room, longer: seq<nat>)

  /** How making a directory in the one that was `w` went: its cluster was prepared, which led to `m.mid`, and the entry
      was added in the first room for it, which led to `n`. */
  ghost predicate HasMade(g: Geometry, w: Snap, d: Order, m: Made, n: Snap) {
    && 1 <= |d.name| <= 255 && HasPrepared(g, w, d, m.c, m.mid) && n.chain == m.longer
    && HasAdded(g, m.mid, m.r, NewSlots(d.name, ATTR_DIR, m.c, d.time, d.date), n)
    && IsNewDir(g, n.a.table, n.img, d, m.c) && Apart(m.longer, [m.c])
  }

  /** The chains after the parent of a new directory has grown. */
  lemma MadeChains(a: Alloc, chain: seq<nat>, c: nat, b: Alloc, longer: seq<nat>)
    requires Ready(a) && IsChain(a.table, chain) && 2 <= c < |a.table| && a.table[c] == FREE
    requires GrownTo(Taken(a, 0, c), chain, b, longer)
    ensures |b.table| == |a.table| && IsChain(b.table, longer) && IsChain(b.table, [c])
    ensures Apart([c], longer) && Apart(longer, [c])
  {
    TakenBeside(a, chain, c);
    var a1 := Taken(a, 0, c);
    GrownGrewOnly(a1, chain, b, longer);
    forall i | 0 <= i < |longer|
      ensures longer[i] != c
    {
      if i < |chain| {
        assert longer[i] == longer[..|chain|][i];
      } else {
        assert a1.table[longer[|chain|..][i - |chain|]] == FREE;
      }
    }
    forall x | x in longer[|chain| - 1..]
      ensures x in longer
    {
    }
    assert b.table[c] == a1.table[c];
  }

  /** Whatever happens to the parent, the new directory stays. */
  lemma NewDirStays(g: Geometry, w: Snap, d: Order, c: u32, mid: Snap, n: Snap)
    requires HasPrepared(g, w, d, c, mid) && IsChain(w.a.table, w.chain) && |w.a.table| == g.ClustCnt()
    requires GrownTo(mid.a, mid.chain, n.a, n.chain) && Fits(g, n.img) && ChainStep(g, mid.img, n.img, n.chain)
    ensures IsNewDir(g, n.a.table, n.img, d, c) && Apart(n.chain, [c])
  {
    MadeChains(w.a, w.chain, c, n.a, n.chain);
    KeptBeside(g, mid.img, n.img, n.chain, [c]);
  }

  /** No directory was made although its cluster had been prepared: the parent would have to grow to take its entry, and
      has done so as far as there were clusters. The new directory is there, but nothing leads to it. */
  ghost predicate HasLost(g: Geometry, w: Snap, d: Order, m: Made, n: Snap) {
    && HasPrepared(g, w, d, m.c, m.mid) && n.chain == m.longer && Grew(g, m.mid, n)
    && IsNewDir(g, n.a.table, n.img, d, m.c) && Apart(m.longer, [m.c])
  }

  ghost predicate IsStuck(dir: Dir, w: Snap, d: Order, m: Made, err: int)
    reads dir, dir.fat, dir.fat.buf
  {
    && dir.On(m.longer) && HasLost(dir.fat.geo, w, d, m, dir.Now(m.longer))
    && dir.LacksRoom(m.mid.slots, m.r, Lfns(|d.name|) + 1, m.longer, err)
  }

  lemma MadeAfter(g: Geometry, w: Snap, d: Order, m: Made, n: Snap)
    requires HasPrepared(g, w, d, m.c, m.mid) && IsChain(w.a.table, w.chain) && |w.a.table| == g.ClustCnt()
    requires 1 <= |d.name| <= 255 && n.chain == m.longer
    requires HasAdded(g, m.mid, m.r, NewSlots(d.name, ATTR_DIR, m.c, d.time, d.date), n)
    ensures HasMade(g, w, d, m, n)
  {
    NewDirStays(g, w, d, m.c, m.mid, n);
  }

  lemma LostAfter(g: Geometry, w: Snap, d: Order, m: Made, n: Snap)
    requires HasPrepared(g, w, d, m.c, m.mid) && IsChain(w.a.table, w.chain) && |w.a.table| == g.ClustCnt()
    requires n.chain == m.longer && Grew(g, m.mid, n)
    ensures HasLost(g, w, d, m, n)
  {
    NewDirStays(g, w, d, m.c, m.mid, n);
  }

  /** A directory was made; the handle is on it, and the device is up to date. */
  ghost predicate IsInMade(dir: Dir, w: Snap, d: Order, m: Made)
    reads dir, dir.fat, dir.fat.buf
  {
    && dir.On([m.c]) && dir.At([m.c], 0) && AllClusters(dir.fat.geo, m.longer)
    && HasMade(dir.fat.geo, w, d, m, dir.Now(m.longer))
    && dir.fat.disk == dir.fat.img && !dir.fat.bufDirty && !dir.fat.infoDirty
  }

  /** How making a directory ends. It fails exactly when the name is empty or too long, when there is no cluster for the
      directory, and when the parent must grow to take its entry and there is no cluster for that; in the last case, and
      when the name is too long, a cluster has been taken and is lost. */
  ghost predicate MakeDirEnds(dir: Dir, w: Snap, d: Order, m: Made, err: int)
    reads dir, dir.fat, dir.fat.buf
  {
    && Ready(w.a)
    && if d.name == [] then err == ERR_PATH && Unchanged(dir, w)
       else if !Choose(w.a.table, 0, w.a.lastUsed).At? then
         FailsWith(w.a.table, 0, w.a.lastUsed, err) && Unchanged(dir, w)
       else if |d.name| > 255 then
         err == ERR_PARAM && HasPrepared(dir.fat.geo, w, d, m.c, m.mid) && Unchanged(dir, m.mid)
       else if err == ERR_NONE then IsInMade(dir, w, d, m)
       else IsStuck(dir, w, d, m, err)
  }

  /** Makes a directory and enters it. */
  method MakeDir(dir: Dir, ghost chain: seq<nat>, name: seq<byte>, time: u16, date: u16)
    returns (err: int, ghost m: Made)
    requires dir.On(chain) && !FailsWith(dir.fat.Tab(), 0, dir.fat.lastUsed, ERR_NONE)
    modifies dir, dir.fat, dir.fat.buf
    ensures MakeDirEnds(dir, old(dir.Now(chain)), Order(name, ParentOf(old(dir.sclust), dir.fat.geo), time, date),
                        m, err)
    ensures err == ERR_NONE ==>
              && DotsLead(dir.Slots([m.c]), m.c, old(dir.sclust), dir.fat.geo.rootClust, time, date)
              && 0 < m.r.end <= |dir.Slots(m.longer)|
              && IsShort(dir.Slots(m.longer)[m.r.end - 1], SfnName(name), 0x10, m.c, time, date)
  {
    ghost var w := dir.Now(chain);
    m := Made(0, w, Room(0, 0, false), chain);
    if name == [] {
      return ERR_PATH, m;
    }
    var d := Order(name, ParentOf(dir.sclust, dir.fat.geo), time, date);
    err, m := MakeNamed(dir, chain, d);
    if err == ERR_NONE {
      DotsOfMade(dir, w, d, m);
      EntryOfNewDir(dir.fat.geo, w, d, m, dir.Now(m.longer), m.r.end - 1);
    }
  }

  /** The short entry of a new directory in its parent. */
  lemma EntryOfNewDir(g: Geometry, w: Snap, d: Order, m: Made, n: Snap, k: int)
    requires HasMade(g, w, d, m, n) && k == m.r.end - 1
    ensures 0 <= k < |n.slots| && IsShort(n.slots[k], SfnName(d.name), ATTR_DIR, m.c, d.time, d.date)
  {
    AddedShort(g, m.mid, m.r, d.name, ATTR_DIR, m.c, d.time, d.date, n, k);
  }

  /** The short entry of what was added to a directory. */
  lemma AddedShort(g: Geometry, w: Snap, r: Room, name: seq<byte>, attr: byte, c: u32, time: u16, date: u16, n: Snap,
                   k: int)
    requires 1 <= |name| <= 255 && HasAdded(g, w, r, NewSlots(name, attr, c, time, date), n) && k == r.end - 1
    ensures 0 <= k < |n.slots| && IsShort(n.slots[k], SfnName(name), attr, c, time, date)
  {
    var new_, big := NewSlots(name, attr, c, time, date), Grown(w.slots, |n.slots| - |w.slots|);
    SfnSlotIsShort(SfnName(name), attr, c, time, date);
    AddedParts(big, r, new_);
    assert Added(big, r, new_)[r.start..r.end][|new_| - 1] == new_[|new_| - 1];
  }

  lemma DotsOfMade(dir: Dir, w: Snap, d: Order, m: Made)
    requires IsInMade(dir, w, d, m)
    ensures var s := dir.Slots([m.c]);
            |s| >= 2 && IsDots(s[0], 1, m.c, d.time, d.date) && IsDots(s[1], 2, d.parent, d.time, d.date)
  {
    DotsOfFresh(SlotCnt(dir.fat.geo, [m.c]), m.c, d.parent, d.time, d.date);
  }

  method MakeNamed(dir: Dir, ghost chain: seq<nat>, d: Order) returns (err: int, ghost m: Made)
    requires dir.On(chain) && !FailsWith(dir.fat.Tab(), 0, dir.fat.lastUsed, ERR_NONE) && d.name != []
    modifies dir, dir.fat, dir.fat.buf
    ensures MakeDirEnds(dir, old(dir.Now(chain)), d, m, err)
  {
    ghost var w := dir.Now(chain);
    m := Made(0, w, Room(0, 0, false), chain);
    LinkedIsChain(dir.fat.geo, dir.fat.Tab(), chain);
    var c;
    err, c := NewCluster(dir, chain, d);
    if err != ERR_NONE {
      return;
    }
    err, m := AddMade(dir, w, d, c, dir.Now(chain));
    if err == ERR_NONE {
      EnterMade(dir, m, w, d, c);
    }
  }

  /** Adds the entry of a new directory that has been prepared. */
  method AddMade(dir: Dir, ghost w: Snap, d: Order, c: u32, ghost mid: Snap) returns (err: int, ghost m: Made)
    requires dir.On(mid.chain) && mid == dir.Now(mid.chain) && d.name != []
    requires HasPrepared(dir.fat.geo, w, d, c, mid) && IsChain(w.a.table, w.chain)
    requires |w.a.table| == dir.fat.geo.ClustCnt()
    modifies dir`clust, dir`sect, dir`idx, dir.fat, dir.fat.buf
    ensures m.c == c && m.mid == mid && dir.On(m.longer)
    ensures |d.name| > 255 ==> err == ERR_PARAM && Unchanged(dir, mid)
    ensures |d.name| <= 255 ==> MadeOrStuck(dir, w, d, m, err)
  {
    ghost var r, last, longer;
    err, r, last, longer := dir.Add(mid.chain, d.name, ATTR_DIR, c, d.time, d.date);
    m := Made(c, mid, r, longer);
    if |d.name| <= 255 {
      AddingEnds(dir, w, d, m, last, err);
    }
  }

  ghost predicate MadeOrStuck(dir: Dir, w: Snap, d: Order, m: Made, err: int)
    reads dir, dir.fat, dir.fat.buf
  {
    match m
    case Made(_, _, _, _) =>
      if err == ERR_NONE then dir.On(m.longer) && HasMade(dir.fat.geo, w, d, m, dir.Now(m.longer))
      else IsStuck(dir, w, d, m, err)
  }

  lemma AddingEnds(dir: Dir, w: Snap, d: Order, m: Made, last: nat, err: int)
    requires HasPrepared(dir.fat.geo, w, d, m.c, m.mid) && 1 <= |d.name| <= 255
    requires IsChain(w.a.table, w.chain) && |w.a.table| == dir.fat.geo.ClustCnt()
    requires dir.AddEnds(m.mid, NewSlots(d.name, ATTR_DIR, m.c, d.time, d.date), m.r, last, m.longer, err)
    ensures MadeOrStuck(dir, w, d, m, err)
  {
    if err == ERR_NONE {
      MadeAfter(dir.fat.geo, w, d, m, dir.Now(m.longer));
    } else {
      LostAfter(dir.fat.geo, w, d, m, dir.Now(m.longer));
    }
  }

  /** The cluster that ".." names: 0 for the root directory. */
  function ParentOf(c: nat, g: Geometry): nat { if c == g.rootClust then 0 else c }

  /** Enters the new directory and brings the device up to date. */
  method EnterMade(dir: Dir, ghost m: Made, ghost w: Snap, d: Order, c: u32)
    requires dir.On(m.longer) && c == m.c && HasMade(dir.fat.geo, w, d, m, dir.Now(m.longer))
    modifies dir, dir.fat, dir.fat.buf
    ensures IsInMade(dir, w, d, m)
  {
    ghost var n := dir.Now(m.longer);
    dir.Enter(c, [c]);
    Flush(dir, [c], 0);
    MadeStays(dir.fat.geo, w, d, m, n, dir.Now(m.longer));
  }

  /** Bringing the device up to date changes nothing of that. */
  lemma MadeStays(g: Geometry, w: Snap, d: Order, m: Made, n: Snap, n': Snap)
    requires HasMade(g, w, d, m, n) && AllClusters(g, n.chain) && n.slots == SlotsOf(g, n.img, n.chain)
    requires n'.chain == n.chain && n'.a == n.a && Fits(g, n'.img) && TableStep(g, n.img, n'.img)
    requires n'.slots == SlotsOf(g, n'.img, n.chain)
    ensures HasMade(g, w, d, m, n')
  {
    TableStepKeepsSlots(g, n.img, n'.img, n.chain);
    AddedStays(g, m.mid, m.r, NewSlots(d.name, ATTR_DIR, m.c, d.time, d.date), n, n');
    NewDirKept(g, n.a.table, n.img, n'.img, d, m.c);
  }

  lemma AddedStays(g: Geometry, w: Snap, r: Room, new_: seq<Slot>, n: Snap, n': Snap)
    requires HasAdded(g, w, r, new_, n) && AllClusters(g, n.chain)
    requires n'.chain == n.chain && n'.a == n.a && n'.slots == n.slots && Fits(g, n'.img) && TableStep(g, n.img, n'.img)
    ensures HasAdded(g, w, r, new_, n')
  {
    TableStepIsChainStep(g, n.img, n'.img, n.chain);
    ChainStepTwice(g, w.img, n.img, n'.img, n.chain);
  }

  lemma NewDirKept(g: Geometry, t: Table, img: Image, img': Image, d: Order, c: u32)
    requires IsNewDir(g, t, img, d, c) && Fits(g, img') && TableStep(g, img, img')
    ensures IsNewDir(g, t, img', d, c)
  {
    TableStepKeepsSlots(g, img, img', [c]);
  }
}
