/** A directory handle: a cursor over the slots of a cluster chain, and the operations on the entries in it. */
module Directory {
  import opened Bytes
  import opened Codes
  import opened Table
  import opened Chains
  import opened Names
  import opened Slots
  import opened Entries
  import opened Sectors
  import opened Volume
  import opened Runs
  import opened NewEntry

  /** Where an entry begins: a sector and a byte offset in it. */
  datatype Loc = Loc(sect: nat, idx: nat)

  /** A directory at some moment: its chain and slots, the allocator, and the disk. */
  datatype Snap = Snap(chain: seq<nat>, slots: seq<Slot>, a: Alloc, img: Image)

  /** Between two moments a directory grew by one cleared cluster, or nothing changed. */
  ghost predicate Stretched(g: Geometry, w: Snap, n: Snap) {
    match n
    case Snap(longer, slots, b, img) =>
      && Fits(g, w.img) && Fits(g, img) && ChainStep(g, w.img, img, longer) && GrownTo(w.a, w.chain, b, longer)
      && if longer == w.chain then slots == w.slots && img == w.img
         else
           && |longer| == |w.chain| + 1 && longer[..|w.chain|] == w.chain
           && slots == Grown(w.slots, 16 * Spc(g))
  }

  /** Between two moments a directory grew by any number of clusters, all of them cleared. */
  ghost predicate Grew(g: Geometry, w: Snap, n: Snap) {
    match n
    case Snap(longer, slots, b, img) =>
      && Fits(g, w.img) && Fits(g, img) && ChainStep(g, w.img, img, longer)
      && GrownTo(w.a, w.chain, b, longer) && |w.chain| <= |longer|
      && |w.slots| <= |slots| && slots == Grown(w.slots, |slots| - |w.slots|)
  }

  /** What adding an entry did: `r` is the first room for it in the old directory, the chain grew by no more than was
      needed to have one slot behind it, and the entry's slots are there, with a new end mark if the old one was
      passed. */
  ghost predicate HasAdded(g: Geometry, w: Snap, r: Room, new_: seq<Slot>, n: Snap) {
    match n
    case Snap(longer, slots, b, img) =>
      && Fits(g, w.img) && Fits(g, img) && ChainStep(g, w.img, img, longer) && GrownTo(w.a, w.chain, b, longer)
      && r == FindRoom(w.slots, 0, 0, 0, false, |new_|) && r.end == r.start + |new_|
      && |w.slots| <= |slots| && r.end < |slots|
      && (longer == w.chain || |slots| <= r.end + 16 * Spc(g))
      && slots == Added(Grown(w.slots, |slots| - |w.slots|), r, new_)
  }

  /** Between two moments slot `k` was overwritten, and nothing else happened. */
  ghost predicate HasPut(g: Geometry, w: Snap, n: Snap, k: nat, slot: Slot) {
    match n
    case Snap(chain, slots, b, img) =>
      && chain == w.chain && b == w.a && k < |w.slots| && slots == w.slots[k := slot]
      && Fits(g, w.img) && Fits(g, img) && ChainStep(g, w.img, img, chain)
  }

  /** Between two moments the slots from `a` up to `m` were marked free, and nothing else happened. */
  ghost predicate HasRemoved(g: Geometry, w: Snap, n: Snap, a: nat, m: nat) {
    match n
    case Snap(chain, slots, b, img) =>
      && chain == w.chain && b == w.a && a <= m <= |w.slots| && slots == Removed(w.slots, a, m)
      && Fits(g, w.img) && Fits(g, img) && ChainStep(g, w.img, img, chain)
  }

  /** The slots `new_` of an entry that is to be added to the directory `was`, from slot `at` on; `base` are the slots
      of the directory once the end mark behind the entry is set. */
  datatype Job = Job(was: Snap, base: seq<Slot>, at: nat, new_: seq<Slot>)

  /** The directory `n` is what `w` describes, with the first `j` slots of the entry written. */
  ghost predicate Laying(g: Geometry, w: Job, n: Snap, j: nat) {
    match w
    case Job(was, base, at, new_) =>
      && j <= |new_| && at + |new_| < |base|
      && n.chain == was.chain && n.a == was.a && n.slots == Laid(base, at, new_, j)
      && Fits(g, was.img) && Fits(g, n.img) && ChainStep(g, was.img, n.img, n.chain)
  }

  /** `r` is the place for the entry. */
  ghost predicate IsPlace(w: Job, r: Room) {
    && w.at == r.start && r.end == r.start + |w.new_| && r.end < |w.was.slots|
    && w.base == if r.eod then w.was.slots[r.end := EndMark(w.was.slots[r.end])] else w.was.slots
  }

  class Dir {
    const fat: Fat
    var sclust: nat
    var clust: nat
    var sect: nat
    var idx: nat
    /** The driver's buffer for the name read last, with its length and checksum. */
    var g: seq<byte>
    var gLen: nat
    var gCrc: byte

    /** A handle that has just entered the directory at cluster `c`. */
    constructor (fat: Fat, c: nat, ghost chain: seq<nat>)
      requires fat.Valid() && IsChain(fat.Tab(), chain) && c == chain[0]
      ensures this.fat == fat && On(chain) && At(chain, 0)
    {
      LinkedIsChain(fat.geo, fat.Tab(), chain);
      FirstSlot(fat.geo, chain);
      this.fat := fat;
      sclust, clust, sect, idx := c, c, ClustToSect(fat.geo, c), 0;
      g, gLen, gCrc := seq(512, i => 0), 0, 0;
    }

    /** The handle is on a directory that occupies `chain`. */
    ghost predicate On(chain: seq<nat>)
      reads this, fat, fat.buf
      ensures On(chain) ==> fat.Valid() && AllClusters(fat.geo, chain)
      ensures On(chain) ==> chain != [] && IsCluster(fat.geo, chain[|chain| - 1])
    {
      && fat.Valid() && |g| == 512
      && chain != [] && sclust == chain[0]
      && Linked(fat.Tab(), chain, 0) && AllClusters(fat.geo, chain)
      && (ClusterOf(fat.geo, chain, |chain| - 1); true)
    }

    /** The cursor is at slot `k` of the chain. */
    ghost predicate At(chain: seq<nat>, k: nat)
      reads this
    {
      && AllClusters(fat.geo, chain) && k < SlotCnt(fat.geo, chain)
      && Cursor(clust, sect, idx) == Cursors(fat.geo, chain)[k]
    }

    ghost function Slots(chain: seq<nat>): (s: seq<Slot>)
      requires Fits(fat.geo, fat.img) && AllClusters(fat.geo, chain)
      reads fat`img
      ensures |s| == SlotCnt(fat.geo, chain)
    {
      SlotsOf(fat.geo, fat.img, chain)
    }

    ghost function Now(chain: seq<nat>): Snap
      requires fat.Valid() && AllClusters(fat.geo, chain)
      reads this, fat, fat.buf
    {
      Snap(chain, Slots(chain), fat.State(), fat.img)
    }

    method AtClust(c: nat)
      requires IsCluster(fat.geo, c)
      modifies `clust, `sect, `idx
      ensures clust == c && sect == ClustToSect(fat.geo, c) && idx == 0
    {
      clust := c;
      sect := ClustToSect(fat.geo, c);
      idx := 0;
    }

    /** Enters the directory at cluster `c`; 0 stands for the root directory. */
    method Enter(c: nat, ghost chain: seq<nat>)
      requires fat.Valid() && |g| == 512 && IsChain(fat.Tab(), chain)
      requires chain[0] == if c == 0 then fat.geo.rootClust else c
      modifies `sclust, `clust, `sect, `idx
      ensures On(chain) && At(chain, 0)
    {
      LinkedIsChain(fat.geo, fat.Tab(), chain);
      FirstSlot(fat.geo, chain);
      sclust := if c == 0 then fat.geo.rootClust else c;
      AtClust(sclust);
    }

    /** Goes back to the first slot. */
    method Rewind(ghost chain: seq<nat>)
      requires On(chain)
      modifies `clust, `sect, `idx
      ensures On(chain) && At(chain, 0)
    {
      FirstSlot(fat.geo, chain);
      ClusterOf(fat.geo, chain, 0);
      AtClust(sclust);
    }

    /** The cache of the volume holds no data sector but one of the directory. */
    ghost predicate Near(chain: seq<nat>)
      reads fat
    {
      fat.sect < fat.geo.dataSect || InChain(fat.geo, chain, fat.sect)
    }

    /** Buffers the sector of the cursor and gives the slot under it. */
    method Load(ghost chain: seq<nat>, ghost k: nat) returns (s: Slot)
      requires On(chain) && At(chain, k)
      modifies fat`disk, fat`torn, fat`bufDirty, fat`sect, fat.buf
      ensures On(chain) && Near(chain)
      ensures fat.sect == sect && fat.buf[..] == fat.img[sect]
      ensures s == Slots(chain)[k]
    {
      CursorIs(fat.geo, chain, k);
      CursorInChain(fat.geo, chain, k);
      fat.UpdateBuf(sect);
      s := fat.buf[..][idx..idx + 32];
      SlotOf(fat.geo, fat.img, chain, k);
    }

    /** Moves to the next slot in chain order; at the last slot of the last cluster it answers EOF. */
    method Next(ghost chain: seq<nat>, ghost k: nat) returns (err: int)
      requires On(chain) && At(chain, k)
      modifies `clust, `sect, `idx, fat`disk, fat`torn, fat`bufDirty, fat`sect, fat.buf
      ensures On(chain) && Now(chain) == old(Now(chain))
      ensures if k + 1 < SlotCnt(fat.geo, chain) then err == ERR_NONE && At(chain, k + 1)
              else err == ERR_EOF && clust == chain[|chain| - 1]
      ensures fat.sect == old(fat.sect) || fat.geo.InTable(fat.geo.fatSect, fat.sect)
    {
      CursorStep(fat.geo, chain, k);
      idx := idx + 32;
      if idx < 512 {
        return ERR_NONE;
      }
      idx := 0;
      sect := sect + 1;
      if LowBits(sect, fat.geo.shift) != 0 {
        return ERR_NONE;
      }
      err := NextCluster(chain, ClustIdx(fat.geo, k / 16));
    }

    /** Moves to the first slot of the cluster that follows the `i`-th. */
    method NextCluster(ghost chain: seq<nat>, ghost i: nat) returns (err: int)
      requires On(chain) && i < |chain| && clust == chain[i] && IsCluster(fat.geo, clust)
      modifies `clust, `sect, `idx, fat`disk, fat`torn, fat`bufDirty, fat`sect, fat.buf
      ensures On(chain)
      ensures if i + 1 < |chain| then
                && err == ERR_NONE && clust == chain[i + 1] && IsCluster(fat.geo, clust)
                && sect == ClustToSect(fat.geo, clust) && idx == 0
              else err == ERR_EOF && clust == chain[i]
      ensures fat.sect == old(fat.sect) || fat.geo.InTable(fat.geo.fatSect, fat.sect)
    {
      var next, kind;
      err, next, kind := fat.GetFat(clust);
      LinkedIsChain(fat.geo, fat.Tab(), chain);
      ChainLink(fat.Tab(), chain, i);
      if err != ERR_NONE {
        return;
      }
      if kind == Bad || kind == Free {
        return ERR_BROKEN;
      }
      if kind == Last {
        return ERR_EOF;
      }
      AtClust(next);
    }

    /** The allocator finds no cluster to append to the directory, and that is what `err` says. */
    ghost predicate Stuck(chain: seq<nat>, err: int)
      reads this, fat
    {
      && Fits(fat.geo, fat.img) && 2 <= fat.lastUsed < fat.geo.ClustCnt()
      && chain != [] && chain[|chain| - 1] < fat.geo.ClustCnt()
      && err != ERR_NONE && FailsWith(fat.Tab(), chain[|chain| - 1], fat.lastUsed, err)
    }

    /** Appends a cleared cluster to the directory and goes to its first slot; it fails only when there is none. */
    method Grow(ghost chain: seq<nat>) returns (err: int, ghost longer: seq<nat>)
      requires On(chain) && clust == chain[|chain| - 1]
      modifies `clust, `sect, `idx, fat, fat.buf
      ensures On(longer) && Stretched(fat.geo, old(Now(chain)), Now(longer))
      ensures if longer == chain then Stuck(chain, err)
              else err == ERR_NONE && At(longer, SlotCnt(fat.geo, chain))
    {
      ghost var w := Now(chain);
      var next;
      err, next, longer := LinkCluster(chain);
      if err != ERR_NONE {
        return;
      }
      EnterCleared(chain, next, longer, w.img);
      ClearedIsStretched(fat.geo, w, Now(longer), next);
    }

    /** Links a new cluster to the directory, if there is one. */
    method LinkCluster(ghost chain: seq<nat>) returns (err: int, next: nat, ghost longer: seq<nat>)
      requires On(chain) && clust == chain[|chain| - 1]
      modifies fat, fat.buf
      ensures fat.Valid() && TableStep(fat.geo, old(fat.img), fat.img)
      ensures GrownTo(old(fat.State()), chain, fat.State(), longer)
      ensures if err != ERR_NONE then longer == chain && On(chain) && Stuck(chain, err) && Now(chain) == old(Now(chain))
              else
                && longer == chain + [next] && next !in chain && IsCluster(fat.geo, next)
                && Linked(fat.Tab(), longer, 0)
      ensures Stretched(fat.geo, old(Now(chain)), old(Now(chain)))
    {
      GrowthCases(fat.geo, fat.State(), chain);
      StretchedNot(fat.geo, Now(chain));
      err, next := fat.StretchChain(clust);
      longer := if err != ERR_NONE then chain else chain + [next];
    }

    /** Goes to a cluster that was just linked to the directory, and clears it; `img` is the disk before that. */
    method EnterCleared(ghost chain: seq<nat>, c: nat, ghost longer: seq<nat>, ghost img: Image)
      requires fat.Valid() && |g| == 512 && IsCluster(fat.geo, c) && c !in chain && chain != [] && longer == chain + [c]
      requires AllClusters(fat.geo, chain) && Linked(fat.Tab(), longer, 0) && sclust == chain[0]
      requires Fits(fat.geo, img) && TableStep(fat.geo, img, fat.img)
      modifies `clust, `sect, `idx, fat`img, fat`disk, fat`torn, fat`bufDirty, fat`sect, fat.buf
      ensures On(longer) && At(longer, SlotCnt(fat.geo, chain)) && fat.Tab() == old(fat.Tab())
      ensures Slots(longer) == Grown(SlotsOf(fat.geo, img, chain), 16 * Spc(fat.geo))
      ensures ChainStep(fat.geo, img, fat.img, longer)
    {
      AtClust(c);
      LastSlot(fat.geo, chain, c);
      GrownOnDisk(fat.geo, img, fat.img, chain, c);
      fat.ClustClear(c);
    }

    /** As `Next`, but at the end of the directory appends a cleared cluster to it. */
    method NextStretch(ghost chain: seq<nat>, ghost k: nat) returns (err: int, ghost longer: seq<nat>)
      requires On(chain) && At(chain, k)
      modifies `clust, `sect, `idx, fat, fat.buf
      ensures On(longer) && Stretched(fat.geo, old(Now(chain)), Now(longer))
      ensures if k + 1 < SlotCnt(fat.geo, chain) then err == ERR_NONE && longer == chain && At(chain, k + 1)
              else if longer == chain then Stuck(chain, err)
              else err == ERR_NONE && At(longer, k + 1)
    {
      StretchedNot(fat.geo, Now(chain));
      err := Next(chain, k);
      longer := chain;
      if err != ERR_EOF {
        return;
      }
      err, longer := Grow(chain);
    }

    // ---- searching ----

    /** Copies the characters of a fragment into the name buffer. */
    method CopyFrag(s: Slot, at: nat)
      requires |g| == 512 && at + 13 <= 512
      modifies `g, `gLen
      ensures |g| == 512 && g == Overlay(old(g), at, Frag(s)) && gLen == old(gLen) + |Frag(s)|
    {
      var i := 0;
      while i < 13
        invariant i <= 13 && |g| == 512 && gLen == old(gLen) + i
        invariant FragUpTo(s, i) && g == Overlay(old(g), at, Frag(s)[..i])
      {
        var c := CharAt(s, i);
        FragSplit(s, i);
        if c == 0x00 {
          return;
        }
        OverlayMore(old(g), at, Frag(s)[..i], c);
        g := g[at + i := c];
        gLen := gLen + 1;
        i := i + 1;
      }
      FragSplit(s, 13);
    }

    /** Reads the set of long-name slots under the cursor, up to its short entry. */
    method ParseLfnName(ghost chain: seq<nat>, ghost k: nat) returns (err: int)
      requires On(chain) && At(chain, k)
      modifies `clust, `sect, `idx, `g, `gLen, `gCrc, fat`disk, fat`torn, fat`bufDirty, fat`sect, fat.buf
      ensures On(chain) && HasRead(chain, ParseLfn(old(Slots(chain)), k, old(g)), err)
    {
      var lfn := Load(chain, k);
      gCrc := lfn[13];
      gLen := 0;
      if !HasHeadMark(lfn) {
        return ERR_BROKEN;
      }
      var cnt := LfnCount(lfn);
      if cnt > 20 {
        return ERR_BROKEN;
      }
      err := ParseFragments(chain, k, cnt, lfn, ParseLfn(Slots(chain), k, g));
    }

    /** Reading a set came to `p`. */
    ghost predicate HasRead(chain: seq<nat>, p: Parse, err: int)
      requires On(chain)
      reads this, fat, fat.buf
    {
      && err == p.err && g == p.g && gLen == p.len && gCrc == p.crc && Near(chain)
      && (err == ERR_NONE ==> At(chain, p.pos) && fat.sect == sect && fat.buf[..] == fat.img[sect])
    }

    /** The loop over fragments is at slot `k`, which is `lfn` and buffered, with `cnt` fragments to go. */
    ghost predicate Reading(chain: seq<nat>, p: Parse, k: nat, cnt: nat, lfn: Slot)
      requires On(chain)
      reads this, fat, fat.buf
    {
      && At(chain, k) && lfn == Slots(chain)[k] && fat.sect == sect && fat.buf[..] == fat.img[sect] && Near(chain)
      && ParseComesTo(p, Slots(chain), k, cnt, gCrc, gLen, g)
    }

    /** Takes one fragment, the `cnt`-th of its name, and goes on to the next slot. `p` is what the loop comes to. */
    method TakeFragment(ghost chain: seq<nat>, ghost k: nat, ghost n: nat, cnt: nat, left: nat, lfn: Slot,
                        ghost p: Parse)
      returns (err: int, next: Slot)
      requires On(chain) && 0 < cnt <= 20 && Reading(chain, p, k, cnt, lfn) && n == k + 1 && left == cnt - 1
      modifies `clust, `sect, `idx, `g, `gLen, fat`disk, fat`torn, fat`bufDirty, fat`sect, fat.buf
      ensures On(chain)
      ensures if err != ERR_NONE then HasRead(chain, p, err) else Reading(chain, p, n, left, next)
    {
      next := lfn;
      ghost var len0, g0 := gLen, g;
      if !IsLfn(lfn) || lfn[13] != gCrc {
        return ERR_BROKEN, lfn;
      }
      CopyFrag(lfn, 13 * left);
      ParseLoopStep(Slots(chain), k, n, cnt, left, gCrc, len0, g0, gLen, g, p);
      err, next := LoadNext(chain, k, n);
    }

    /** Moves to the next slot and buffers it. */
    method LoadNext(ghost chain: seq<nat>, ghost k: nat, ghost n: nat) returns (err: int, s: Slot)
      requires On(chain) && At(chain, k) && n == k + 1 && Near(chain)
      modifies `clust, `sect, `idx, fat`disk, fat`torn, fat`bufDirty, fat`sect, fat.buf
      ensures On(chain) && Near(chain)
      ensures if n < SlotCnt(fat.geo, chain) then
                && err == ERR_NONE && At(chain, n) && s == Slots(chain)[n]
                && fat.sect == sect && fat.buf[..] == fat.img[sect]
              else err == ERR_EOF
    {
      s := ZeroSlot();
      err := Next(chain, k);
      if err == ERR_NONE {
        s := Load(chain, n);
      }
    }

    /** The loop over the `count` slots of a set, the first of which is `first`. */
    method ParseFragments(ghost chain: seq<nat>, ghost k: nat, count: nat, first: Slot, ghost p: Parse)
      returns (err: int)
      requires On(chain) && count <= 20 && Reading(chain, p, k, count, first)
      modifies `clust, `sect, `idx, `g, `gLen, fat`disk, fat`torn, fat`bufDirty, fat`sect, fat.buf
      ensures On(chain) && HasRead(chain, p, err)
    {
      ghost var pos: nat := k;
      var lfn, cnt := first, count;
      err := ERR_NONE;
      while cnt > 0 && err == ERR_NONE
        invariant On(chain) && cnt <= 20
        invariant if err != ERR_NONE then HasRead(chain, p, err) else Reading(chain, p, pos, cnt, lfn)
      {
        ghost var n := pos + 1;
        var left := cnt - 1;
        err, lfn := TakeFragment(chain, pos, n, cnt, left, lfn, p);
        cnt, pos := left, n;
      }
      if err == ERR_NONE && gLen > 255 {
        err := ERR_BROKEN;
      }
    }

    /** The entry at slot `k` has been looked at, and the search comes to `h`: an error ended it, or the entry was the
        one looked for, or the search goes on behind its short slot `pos`. */
    ghost predicate HasChecked(chain: seq<nat>, h: Hit, k: nat, name: seq<byte>, err: int, found: bool, pos: nat,
                               n: nat)
      reads this, fat, fat.buf
    {
      && On(chain) && Near(chain)
      && if err != ERR_NONE then h.err == err
         else
           && k <= pos && n == pos + 1 && At(chain, pos) && fat.sect == sect && fat.buf[..] == fat.img[sect]
           && if found then h == Hit(ERR_NONE, k, pos, g) else SearchComesTo(h, Slots(chain), n, name, g)
    }

    /** Looks at the entry under the cursor, whose first slot is `s`, and moves to its short slot. */
    method CheckEntry(ghost chain: seq<nat>, ghost k: nat, s: Slot, name: seq<byte>, short: Name11, ghost h: Hit)
      returns (err: int, found: bool, ghost pos: nat, ghost n: nat)
      requires On(chain) && At(chain, k) && Near(chain) && s == Slots(chain)[k] && !IsFree(s) && short == SfnName(name)
      requires fat.sect == sect && fat.buf[..] == fat.img[sect] && SearchComesTo(h, Slots(chain), k, name, g)
      modifies `clust, `sect, `idx, `g, `gLen, `gCrc, fat`disk, fat`torn, fat`bufDirty, fat`sect, fat.buf
      ensures HasChecked(chain, h, k, name, err, found, pos, n)
    {
      if IsLfn(s) {
        err, found, pos, n := CheckSet(chain, k, name, h);
      } else {
        err, found, pos, n := ERR_NONE, short == s[..11], k, k + 1;
        SearchShort(h, Slots(chain), k, n, name, g);
      }
    }

    method CheckSet(ghost chain: seq<nat>, ghost k: nat, name: seq<byte>, ghost h: Hit)
      returns (err: int, found: bool, ghost pos: nat, ghost n: nat)
      requires On(chain) && At(chain, k) && Near(chain) && !IsFree(Slots(chain)[k]) && IsLfn(Slots(chain)[k])
      requires SearchComesTo(h, Slots(chain), k, name, g)
      modifies `clust, `sect, `idx, `g, `gLen, `gCrc, fat`disk, fat`torn, fat`bufDirty, fat`sect, fat.buf
      ensures HasChecked(chain, h, k, name, err, found, pos, n)
    {
      ghost var p := ParseLfn(Slots(chain), k, g);
      pos, n := p.pos, p.pos + 1;
      SearchSet(h, Slots(chain), k, n, name, g, p);
      err := ParseLfnName(chain, k);
      found := false;
      if err != ERR_NONE {
        return;
      }
      var sfn := Under(chain, pos);
      var crc := GetCrc(sfn[..11]);
      if IsFree(sfn) || IsLfn(sfn) || gCrc != crc {
        err := ERR_BROKEN;
        return;
      }
      found := gLen == |name| && g[..gLen] == name;
    }

    /** The slot under the cursor, when its sector is buffered. */
    method Under(ghost chain: seq<nat>, ghost k: nat) returns (s: Slot)
      requires On(chain) && At(chain, k) && fat.sect == sect && fat.buf[..] == fat.img[sect]
      ensures s == Slots(chain)[k]
    {
      SlotOf(fat.geo, fat.img, chain, k);
      CursorIs(fat.geo, chain, k);
      s := fat.buf[..][idx..idx + 32];
    }

    /** Where the slot at `k` lies. */
    ghost function LocOf(chain: seq<nat>, k: nat): Loc
      requires AllClusters(fat.geo, chain) && k < SlotCnt(fat.geo, chain)
    {
      var c := Cursors(fat.geo, chain)[k];
      Loc(c.sect, c.idx)
    }

    /** Looks at the item under the cursor: an end mark ends the search, a free slot is passed by, and an entry ends it
        if it is the one looked for or cannot be read. `h` is what the search comes to. */
    method SearchItem(ghost chain: seq<nat>, ghost k: nat, name: seq<byte>, short: Name11, ghost h: Hit)
      returns (done: bool, err: int, loc: Loc, ghost pos: nat, ghost n: nat)
      requires On(chain) && At(chain, k) && short == SfnName(name) && SearchComesTo(h, Slots(chain), k, name, g)
      modifies `clust, `sect, `idx, `g, `gLen, `gCrc, fat`disk, fat`torn, fat`bufDirty, fat`sect, fat.buf
      ensures On(chain) && Near(chain)
      ensures if !done then k <= pos && n == pos + 1 && At(chain, pos) && SearchComesTo(h, Slots(chain), n, name, g)
              else err == h.err && (err == ERR_NONE ==> Found(chain, h, loc))
    {
      done, err, loc, pos, n := true, ERR_EOF, Loc(sect, idx), k, k + 1;
      var s := Load(chain, k);
      SearchPast(h, Slots(chain), k, n, name, g);
      if IsLast(s) {
        return;
      }
      if IsFree(s) {
        done := false;
        return;
      }
      var found;
      err, found, pos, n := CheckEntry(chain, k, s, name, short, h);
      done := err != ERR_NONE || found;
    }

    /** One round of the search loop. */
    method SearchRound(ghost chain: seq<nat>, ghost k: nat, name: seq<byte>, short: Name11, ghost h: Hit)
      returns (done: bool, err: int, loc: Loc, ghost next: nat)
      requires On(chain) && At(chain, k) && short == SfnName(name) && SearchComesTo(h, Slots(chain), k, name, g)
      modifies `clust, `sect, `idx, `g, `gLen, `gCrc, fat`disk, fat`torn, fat`bufDirty, fat`sect, fat.buf
      ensures On(chain) && Near(chain)
      ensures if !done then k < next && At(chain, next) && SearchComesTo(h, Slots(chain), next, name, g)
              else err == h.err && (err == ERR_NONE ==> Found(chain, h, loc))
    {
      ghost var pos;
      done, err, loc, pos, next := SearchItem(chain, k, name, short, h);
      if done {
        return;
      }
      SearchPast(h, Slots(chain), next, next + 1, name, g);
      err := Next(chain, pos);
      done := err != ERR_NONE;
    }

    /** The cursor is at the short slot of the entry that was hit, which is buffered, and `loc` is its first slot. */
    ghost predicate Found(chain: seq<nat>, h: Hit, loc: Loc)
      requires On(chain)
      reads this, fat, fat.buf
    {
      && h.loc <= h.pos && At(chain, h.pos) && loc == LocOf(chain, h.loc)
      && fat.sect == sect && fat.buf[..] == fat.img[sect]
    }

    /** Searches the directory from its start; when the name is found the cursor is at the short slot of its entry, and
        `loc` is the first slot of it. */
    method SearchName(ghost chain: seq<nat>, name: seq<byte>) returns (err: int, loc: Loc, ghost hit: Hit)
      requires On(chain)
      modifies `clust, `sect, `idx, `g, `gLen, `gCrc, fat`disk, fat`torn, fat`bufDirty, fat`sect, fat.buf
      ensures On(chain) && Near(chain)
      ensures hit == Search(old(Slots(chain)), 0, name, old(g)) && err == hit.err
      ensures err == ERR_NONE ==> Found(chain, hit, loc)
    {
      hit := Search(Slots(chain), 0, name, g);
      var short := ShortName(name);
      Rewind(chain);
      ghost var k: nat := 0;
      var done := false;
      err, loc := ERR_NONE, Loc(0, 0);
      while !done
        invariant On(chain)
        invariant if !done then At(chain, k) && SearchComesTo(hit, Slots(chain), k, name, g)
                  else Near(chain) && err == hit.err && (err == ERR_NONE ==> Found(chain, hit, loc))
        decreases !done, SlotCnt(fat.geo, chain) - k
      {
        done, err, loc, k := SearchRound(chain, k, name, short, hit);
      }
    }

    /** Overwrites the slot under the cursor with its first byte changed. */
    method MarkSlot(ghost chain: seq<nat>, ghost k: nat, mark: byte)
      requires On(chain) && At(chain, k)
      modifies fat`img, fat`disk, fat`torn, fat`bufDirty, fat`sect, fat.buf
      ensures On(chain) && At(chain, k) && fat.sect == sect
      ensures HasPut(fat.geo, old(Now(chain)), Now(chain), k, old(Slots(chain))[k][0 := mark])
    {
      ghost var w := Now(chain);
      var s := Load(chain, k);
      MarkIsPatch(fat.geo, fat.img, chain, k, mark);
      fat.StoreBytes(idx, [mark]);
      SlotPut(fat.geo, w, Now(chain), k, s[0 := mark]);
    }

    /** Slots are being removed from the directory that was `w`: those from `a` up to `m` are marked free, and the
        cursor is at slot `k`. */
    ghost predicate Removing(chain: seq<nat>, w: Snap, a: nat, m: nat, k: nat)
      reads this, fat, fat.buf
    {
      On(chain) && At(chain, k) && HasRemoved(fat.geo, w, Now(chain), a, m)
    }

    /** Marks the slots from `loc`, which is slot `a`, up to the cursor at slot `b` free. */
    method RemoveEntries(ghost chain: seq<nat>, loc: Loc, ghost a: nat, ghost b: nat) returns (err: int)
      requires On(chain) && At(chain, b) && a <= b && loc == LocOf(chain, a)
      modifies `clust, `sect, `idx, fat`img, fat`disk, fat`torn, fat`bufDirty, fat`sect, fat.buf
      ensures err == ERR_NONE && Removing(chain, old(Now(chain)), a, b + 1, b) && fat.sect == sect
    {
      ghost var w, k: nat := Now(chain), a;
      var lastSect, lastIdx := sect, idx;
      GoTo(chain, loc, a);
      NoneRemoved(fat.geo, w, a);
      var done := false;
      ghost var m := a;
      while !done
        invariant k <= b && m == (if done then b + 1 else k) && (done ==> k == b && fat.sect == sect)
        invariant Removing(chain, w, a, m, k)
        decreases !done, b - k
      {
        m := k + 1;
        done, k := RemoveRound(chain, lastSect, lastIdx, k, m, b, w, a);
      }
      err := ERR_NONE;
    }

    /** Moves the cursor to a place found earlier. */
    method GoTo(ghost chain: seq<nat>, loc: Loc, ghost a: nat)
      requires On(chain) && a < SlotCnt(fat.geo, chain) && loc == LocOf(chain, a)
      modifies `clust, `sect, `idx
      ensures On(chain) && At(chain, a)
    {
      CursorOnly(fat.geo, fat.Tab(), chain, a, a);
      clust := SectToClust(fat.geo, loc.sect);
      sect := loc.sect;
      idx := loc.idx;
    }

    /** One round of the removal: marks a slot and goes on, unless it was the last one. */
    method RemoveRound(ghost chain: seq<nat>, lastSect: nat, lastIdx: nat, ghost k: nat, ghost m: nat, ghost b: nat,
                       ghost w: Snap, ghost a: nat)
      returns (done: bool, ghost next: nat)
      requires Removing(chain, w, a, k, k) && k <= b < SlotCnt(fat.geo, chain) && m == k + 1
      requires Loc(lastSect, lastIdx) == LocOf(chain, b)
      modifies `clust, `sect, `idx, fat`img, fat`disk, fat`torn, fat`bufDirty, fat`sect, fat.buf
      ensures Removing(chain, w, a, m, next)
      ensures if done then next == k == b && fat.sect == sect else next == m <= b
    {
      ghost var v := Now(chain);
      MarkSlot(chain, k, SLOT_FREE);
      OneRemoved(fat.geo, w, v, Now(chain), a, k, m);
      CursorOnly(fat.geo, fat.Tab(), chain, k, b);
      done, next := sect == lastSect && idx == lastIdx, k;
      if !done {
        var err := Next(chain, k);
        next := m;
      }
    }

    // ---- adding ----

    /** As `NextStretch`, in terms of how the directory grew since it was `w`. */
    method Advance(ghost cur: seq<nat>, ghost k: nat, ghost next: nat, ghost w: Snap)
      returns (err: int, ghost longer: seq<nat>)
      requires On(cur) && At(cur, k) && next == k + 1 && Grew(fat.geo, w, Now(cur))
      modifies `clust, `sect, `idx, fat, fat.buf
      ensures On(longer) && Grew(fat.geo, w, Now(longer))
      ensures if err == ERR_NONE then At(longer, next)
              else longer == cur && SlotCnt(fat.geo, cur) == next && Stuck(longer, err)
      ensures longer != cur ==>
                && |longer| == |cur| + 1 && longer[..|cur|] == cur
                && SlotCnt(fat.geo, longer) == next + 16 * Spc(fat.geo)
    {
      ghost var mid := Now(cur);
      err, longer := NextStretch(cur, k);
      GrewMore(fat.geo, w, mid, Now(longer));
    }

    /** Looking for room in a directory that was `w`: the cursor is at slot `k` of `cur`, `cnt` free slots in a row are
        behind it, the first of them being `start` at `loc`, and the search comes to `r`. */
    ghost predicate Looking(cur: seq<nat>, k: nat, w: Snap, r: Room, need: nat, cnt: nat, eod: bool, loc: Loc,
                            start: nat)
      reads this, fat, fat.buf
    {
      && On(cur) && Grew(fat.geo, w, Now(cur))
      && At(cur, k) && RoomComesTo(r, w.slots, k, cnt, start, eod, need)
      && (cnt > 0 ==> start < k && loc == LocOf(cur, start))
      && (cur == w.chain || SlotCnt(fat.geo, cur) <= k + 16 * Spc(fat.geo))
    }

    /** Counts the slot under the cursor as free or not. */
    method LookAt(ghost cur: seq<nat>, ghost k: nat, ghost next: nat, ghost w: Snap, ghost r: Room, ghost need: nat,
                  cnt: nat, eod: bool, loc: Loc, ghost start: nat)
      returns (cnt': nat, eod': bool, loc': Loc, ghost start': nat)
      requires On(cur) && At(cur, k) && Grew(fat.geo, w, Now(cur))
      requires cnt < need && RoomComesTo(r, w.slots, k, cnt, start, eod, need) && next == k + 1
      requires cnt > 0 ==> start < k && loc == LocOf(cur, start)
      modifies fat`disk, fat`torn, fat`bufDirty, fat`sect, fat.buf
      ensures On(cur) && At(cur, k) && Now(cur) == old(Now(cur)) && (k < |w.slots| || cnt' > cnt)
      ensures RoomComesTo(r, w.slots, next, cnt', start', eod', need)
      ensures cnt' > 0 ==> start' <= k && loc' == LocOf(cur, start')
    {
      RoomStep(r, w.slots, k, next, cnt, start, eod, need);
      var s := Load(cur, k);
      GrewSlot(fat.geo, w, Now(cur), k);
      cnt', eod', loc', start' := CountSlot(s, Loc(sect, idx), k, cnt, eod, loc, start);
    }

    /** One round of the search for room. */
    method LookRound(ghost cur: seq<nat>, ghost k: nat, ghost next: nat, ghost w: Snap, ghost r: Room, ghost need: nat,
                     cnt: nat, eod: bool, loc: Loc, ghost start: nat)
      returns (err: int, cnt': nat, eod': bool, loc': Loc, ghost start': nat, ghost longer: seq<nat>)
      requires Looking(cur, k, w, r, need, cnt, eod, loc, start) && cnt < need && next == k + 1
      modifies `clust, `sect, `idx, fat, fat.buf
      ensures if err == ERR_NONE then
                && Looking(longer, next, w, r, need, cnt', eod', loc', start') && cnt' <= need
                && (k < |w.slots| || cnt' > cnt)
              else EndsShort(longer, w, r, err)
    {
      cnt', eod', loc', start' := LookAt(cur, k, next, w, r, need, cnt, eod, loc, start);
      RoomIsAhead(w.slots, next, cnt', start', eod', need);
      err, longer := Advance(cur, k, next, w);
      if longer != cur && cnt' > 0 {
        CursorsOfLonger(fat.geo, cur, longer, start');
      }
    }

    /** Looks for `need` free slots in a row, from the start of the directory on, and appends cleared clusters to it
        when they run out. There is always one more slot behind the place it finds, where the cursor ends up; it fails
        only when the directory, with no cluster left for it, ends before that. */
    method FindPlace(ghost chain: seq<nat>, need: nat)
      returns (err: int, eod: bool, loc: Loc, ghost r: Room, ghost longer: seq<nat>)
      requires On(chain) && need > 0
      modifies `clust, `sect, `idx, fat, fat.buf
      ensures On(longer) && Grew(fat.geo, old(Now(chain)), Now(longer))
      ensures r == FindRoom(old(Slots(chain)), 0, 0, 0, false, need) && r.end == r.start + need
      ensures err == ERR_NONE ==>
                && At(longer, r.end) && loc == LocOf(longer, r.start) && eod == r.eod
                && (longer == chain || SlotCnt(fat.geo, longer) <= r.end + 16 * Spc(fat.geo))
      ensures err != ERR_NONE ==> SlotCnt(fat.geo, longer) <= r.end && Stuck(longer, err)
    {
      r := FindRoom(Slots(chain), 0, 0, 0, false, need);
      FindRoomFindsRoom(Slots(chain), 0, 0, 0, false, need);
      Rewind(chain);
      GrewNot(fat.geo, Now(chain));
      ghost var start;
      err, eod, loc, start, longer := LookFor(chain, need, Now(chain), r);
    }

    /** The directory, which was `w`, has grown as far as there were clusters, and ends before the place `r`. */
    ghost predicate EndsShort(longer: seq<nat>, w: Snap, r: Room, err: int)
      reads this, fat, fat.buf
    {
      && On(longer) && Grew(fat.geo, w, Now(longer))
      && SlotCnt(fat.geo, longer) <= r.end && Stuck(longer, err)
    }

    /** The loop that looks for room. */
    method LookFor(ghost chain: seq<nat>, need: nat, ghost w: Snap, ghost r: Room)
      returns (err: int, eod: bool, loc: Loc, ghost start: nat, ghost longer: seq<nat>)
      requires need > 0 && w.chain == chain && Looking(chain, 0, w, r, need, 0, false, Loc(0, 0), 0)
      modifies `clust, `sect, `idx, fat, fat.buf
      ensures if err == ERR_NONE then
                && Looking(longer, r.end, w, r, need, need, eod, loc, start)
                && r.start == start && r.eod == eod
              else EndsShort(longer, w, r, err)
    {
      ghost var k: nat := 0;
      var cnt: nat := 0;
      err, eod, loc, start, longer := ERR_NONE, false, Loc(0, 0), 0, chain;
      while cnt < need
        invariant cnt <= need && err == ERR_NONE && Looking(longer, k, w, r, need, cnt, eod, loc, start)
        decreases if k < |w.slots| then |w.slots| - k else 0, need - cnt
      {
        ghost var next := k + 1;
        err, cnt, eod, loc, start, longer := LookRound(longer, k, next, w, r, need, cnt, eod, loc, start);
        if err != ERR_NONE {
          return;
        }
        k := next;
      }
      assert cnt == need;
      RoomIsHere(r, w.slots, k, cnt, start, eod);
      assert k == r.end;
    }

    /** Overwrites the slot under the cursor. */
    method PutSlot(ghost chain: seq<nat>, ghost k: nat, slot: Slot)
      requires On(chain) && At(chain, k)
      modifies fat`img, fat`disk, fat`torn, fat`bufDirty, fat`sect, fat.buf
      ensures On(chain) && At(chain, k) && HasPut(fat.geo, old(Now(chain)), Now(chain), k, slot)
      ensures fat.sect == sect && fat.buf[..] == fat.img[sect]
    {
      ghost var w := Now(chain);
      SlotIsPatch(fat.geo, fat.img, chain, k, slot);
      fat.UpdateBuf(sect);
      fat.StoreBytes(idx, slot);
      SlotPut(fat.geo, w, Now(chain), k, slot);
    }

    /** Puts the `i`-th fragment of a name into the slot under the cursor. */
    method PutPiece(ghost chain: seq<nat>, ghost k: nat, name: seq<byte>, i: nat, crc: byte)
      requires On(chain) && At(chain, k) && |name| <= 255 && 1 <= i <= Lfns(|name|)
      modifies fat`img, fat`disk, fat`torn, fat`bufDirty, fat`sect, fat.buf
      ensures On(chain) && At(chain, k) && HasPut(fat.geo, old(Now(chain)), Now(chain), k, PieceSlot(name, i, crc))
    {
      PutFragment(chain, k, Piece(name, i), if i == Lfns(|name|) then 0x40 + i else i, crc);
    }

    method PutFragment(ghost chain: seq<nat>, ghost k: nat, frag: seq<byte>, seqNo: byte, crc: byte)
      requires On(chain) && At(chain, k) && |frag| <= 13
      modifies fat`img, fat`disk, fat`torn, fat`bufDirty, fat`sect, fat.buf
      ensures On(chain) && At(chain, k) && HasPut(fat.geo, old(Now(chain)), Now(chain), k, LfnSlot(frag, seqNo, crc))
    {
      ghost var w := Now(chain);
      SlotIsPatch(fat.geo, fat.img, chain, k, LfnSlot(frag, seqNo, crc));
      fat.UpdateBuf(sect);
      fat.StoreLfn(idx, frag, seqNo, crc);
      SlotPut(fat.geo, w, Now(chain), k, LfnSlot(frag, seqNo, crc));
    }

    /** The slots of a new entry are being written: the first `j` of them are in place, and the cursor is at the place
        of the next one. */
    ghost predicate Writing(chain: seq<nat>, w: Job, j: nat)
      requires On(chain)
      reads this, fat, fat.buf
    {
      At(chain, w.at + j) && Laying(fat.geo, w, Now(chain), j)
    }

    /** Writes one fragment, the slot `j` of its entry, and goes on to the next slot. */
    method WritePiece(ghost chain: seq<nat>, ghost w: Job, ghost j: nat, name: seq<byte>, i: nat, crc: byte)
      requires On(chain) && |name| <= 255 && 1 <= i <= Lfns(|name|)
      requires Writing(chain, w, j) && j < |w.new_| && w.new_[j] == PieceSlot(name, i, crc)
      modifies `clust, `sect, `idx, fat`img, fat`disk, fat`torn, fat`bufDirty, fat`sect, fat.buf
      ensures On(chain) && Writing(chain, w, j + 1)
    {
      ghost var m := Now(chain);
      PutPiece(chain, w.at + j, name, i, crc);
      SlotLaid(fat.geo, w, m, Now(chain), j);
      var err := Next(chain, w.at + j);
    }

    /** Writes the fragments of a name, the last one first. */
    method WritePieces(ghost chain: seq<nat>, ghost w: Job, name: seq<byte>, crc: byte)
      returns (ghost j: nat)
      requires On(chain) && 1 <= |name| <= 255 && |w.new_| == Lfns(|name|) + 1
      requires forall j :: 0 <= j < Lfns(|name|) ==> w.new_[j] == PieceSlot(name, Lfns(|name|) - j, crc)
      requires Writing(chain, w, 0)
      modifies `clust, `sect, `idx, fat`img, fat`disk, fat`torn, fat`bufDirty, fat`sect, fat.buf
      ensures On(chain) && j == Lfns(|name|) && Writing(chain, w, j)
    {
      var i: nat := Lfns(|name|);
      j := 0;
      while i > 0
        invariant i + j == Lfns(|name|) && On(chain) && Writing(chain, w, j)
      {
        assert w.new_[j] == PieceSlot(name, Lfns(|name|) - j, crc) && i == Lfns(|name|) - j;
        WritePiece(chain, w, j, name, i, crc);
        i, j := i - 1, j + 1;
      }
    }

    /** Writes the short slot of a new entry, behind its fragments. */
    method WriteShort(ghost chain: seq<nat>, ghost w: Job, ghost j: nat, short: Slot, ghost last: nat)
      requires On(chain) && j + 1 == |w.new_| && w.new_[j] == short && last == w.at + j && Writing(chain, w, j)
      modifies fat`img, fat`disk, fat`torn, fat`bufDirty, fat`sect, fat.buf
      ensures HasWritten(chain, w, last)
    {
      ghost var m := Now(chain);
      PutSlot(chain, last, short);
      SlotLaid(fat.geo, w, m, Now(chain), j);
    }

    /** All slots of a new entry are in place, and the cursor is at the last one. */
    ghost predicate HasWritten(chain: seq<nat>, w: Job, last: nat)
      reads this, fat, fat.buf
    {
      && On(chain) && At(chain, last) && fat.sect == sect && fat.buf[..] == fat.img[sect]
      && Laying(fat.geo, w, Now(chain), |w.new_|)
    }

    /** Writes the slots of a new entry, from the cursor on. */
    method WriteEntry(ghost chain: seq<nat>, ghost w: Job, name: seq<byte>, attr: byte, first: u32, time: u16,
                      date: u16,
                      ghost last: nat)
      requires On(chain) && 1 <= |name| <= 255 && last == w.at + Lfns(|name|)
      requires w.new_ == NewSlots(name, attr, first, time, date) && Writing(chain, w, 0)
      modifies `clust, `sect, `idx, fat`img, fat`disk, fat`torn, fat`bufDirty, fat`sect, fat.buf
      ensures HasWritten(chain, w, last)
    {
      var short := ShortName(name);
      var crc := GetCrc(short);
      NewSlotsAt(name, attr, first, time, date);
      ghost var j := WritePieces(chain, w, name, crc);
      WriteShort(chain, w, j, SfnSlot(short, attr, first, time, date), last);
    }

    /** The first room for an entry and one more slot reaches beyond the end of the directory, although it has grown as
        far as there were clusters. */
    ghost predicate LacksRoom(slots: seq<Slot>, r: Room, need: nat, longer: seq<nat>, err: int)
      reads this, fat, fat.buf
    {
      && r == FindRoom(slots, 0, 0, 0, false, need) && SlotCnt(fat.geo, longer) <= r.end
      && Stuck(longer, err)
    }

    /** Prepares the place found: sets the new end mark behind it and goes to its first slot. */
    method OpenPlace(ghost chain: seq<nat>, eod: bool, loc: Loc, ghost r: Room, ghost new_: seq<Slot>)
      returns (ghost w: Job)
      requires On(chain) && At(chain, r.end) && r.start < r.end && loc == LocOf(chain, r.start) && eod == r.eod
      requires r.end == r.start + |new_|
      modifies `clust, `sect, `idx, fat`img, fat`disk, fat`torn, fat`bufDirty, fat`sect, fat.buf
      ensures On(chain) && Writing(chain, w, 0) && w.was == old(Now(chain)) && w.new_ == new_ && IsPlace(w, r)
    {
      w := Job(Now(chain), Slots(chain), r.start, new_);
      if eod {
        w := w.(base := w.base[r.end := EndMark(w.base[r.end])]);
        MarkSlot(chain, r.end, SLOT_LAST);
      }
      GoTo(chain, loc, r.start);
    }

    /** How adding the slots `new_` to the directory that was `w` ends: they were laid over the first room `r` for them,
        where the cursor is at the last one; or there was not enough room. */
    ghost predicate AddEnds(w: Snap, new_: seq<Slot>, r: Room, last: nat, longer: seq<nat>, err: int)
      reads this, fat, fat.buf
    {
      match w
      case Snap(_, _, _, _) =>
        && On(longer)
        && if err == ERR_NONE then
             && HasAdded(fat.geo, w, r, new_, Now(longer)) && r.end == last + 1
             && At(longer, last) && fat.sect == sect && fat.buf[..] == fat.img[sect]
           else Grew(fat.geo, w, Now(longer)) && LacksRoom(w.slots, r, |new_|, longer, err)
    }

    /** Adds an entry: finds room for its slots, growing the directory if need be, and writes them. The cursor ends up
        at the new short slot. It fails only for names that are empty or too long, and when the directory would have to
        grow and no cluster is left; then the entries are as before. */
    method Add(ghost chain: seq<nat>, name: seq<byte>, attr: byte, first: u32, time: u16, date: u16)
      returns (err: int, ghost r: Room, ghost last: nat, ghost longer: seq<nat>)
      requires On(chain)
      modifies `clust, `sect, `idx, fat, fat.buf
      ensures On(longer)
      ensures |name| == 0 || |name| > 255 ==> err == ERR_PARAM && longer == chain && Now(chain) == old(Now(chain))
      ensures 1 <= |name| <= 255 ==>
                AddEnds(old(Now(chain)), NewSlots(name, attr, first, time, date), r, last, longer, err)
    {
      longer, r, last := chain, Room(0, 0, false), 0;
      if |name| == 0 || |name| > 255 {
        return ERR_PARAM, r, last, longer;
      }
      err, r, last, longer := AddNamed(chain, name, attr, first, time, date);
    }

    method AddNamed(ghost chain: seq<nat>, name: seq<byte>, attr: byte, first: u32, time: u16, date: u16)
      returns (err: int, ghost r: Room, ghost last: nat, ghost longer: seq<nat>)
      requires On(chain) && 1 <= |name| <= 255
      modifies `clust, `sect, `idx, fat, fat.buf
      ensures AddEnds(old(Now(chain)), NewSlots(name, attr, first, time, date), r, last, longer, err)
    {
      var eod, loc;
      ghost var w := Now(chain);
      var need := Lfns(|name|) + 1;
      assert |NewSlots(name, attr, first, time, date)| == need;
      err, eod, loc, r, longer := FindPlace(chain, need);
      last := r.start + Lfns(|name|);
      if err != ERR_NONE {
        return;
      }
      FillPlace(longer, eod, loc, r, w, name, attr, first, time, date, last);
    }

    /** Writes an entry into the place found for it. */
    method FillPlace(ghost longer: seq<nat>, eod: bool, loc: Loc, ghost r: Room, ghost w: Snap,
                     name: seq<byte>, attr: byte, first: u32, time: u16, date: u16, ghost last: nat)
      requires On(longer) && 1 <= |name| <= 255 && Grew(fat.geo, w, Now(longer)) && last == r.start + Lfns(|name|)
      requires r == FindRoom(w.slots, 0, 0, 0, false, Lfns(|name|) + 1) && r.end == r.start + (Lfns(|name|) + 1)
      requires At(longer, r.end) && loc == LocOf(longer, r.start) && eod == r.eod
      requires longer == w.chain || SlotCnt(fat.geo, longer) <= r.end + 16 * Spc(fat.geo)
      modifies `clust, `sect, `idx, fat`img, fat`disk, fat`torn, fat`bufDirty, fat`sect, fat.buf
      ensures AddEnds(w, NewSlots(name, attr, first, time, date), r, last, longer, ERR_NONE)
    {
      ghost var job := OpenPlace(longer, eod, loc, r, NewSlots(name, attr, first, time, date));
      WriteEntry(longer, job, name, attr, first, time, date, last);
      AddedAfter(fat.geo, w, job, r, Now(longer));
    }
  }

  /** Counts a slot, which is slot `k` and lies at `here`, as free or not; behind an end mark every slot is free. */
  method CountSlot(s: Slot, here: Loc, ghost k: nat, cnt: nat, eod: bool, loc: Loc, ghost start: nat)
    returns (cnt': nat, eod': bool, loc': Loc, ghost start': nat)
    ensures cnt' == if eod || IsFree(s) then cnt + 1 else 0
    ensures eod' == (eod || IsLast(s))
    ensures (loc', start') == if (eod || IsFree(s)) && cnt == 0 then (here, k) else (loc, start)
  {
    cnt', eod', loc', start' := cnt, eod, loc, start;
    if eod || IsFree(s) {
      if cnt == 0 {
        loc', start' := here, k;
      }
      cnt' := cnt + 1;
    } else {
      cnt' := 0;
    }
    if IsLast(s) {
      eod' := true;
    }
  }

  /** What the allocator does when one more cluster is asked for behind a chain. */
  lemma GrowthCases(g: Geometry, a: Alloc, chain: seq<nat>)
    requires Ready(a) && |a.table| == g.ClustCnt() && chain != [] && AllClusters(g, chain) && Linked(a.table, chain, 0)
    ensures var last := chain[|chain| - 1];
            && last < |a.table| && !FailsWith(a.table, last, a.lastUsed, ERR_NONE)
            && var p := Choose(a.table, last, a.lastUsed);
               if p.At? then
                 && p.c !in chain && IsCluster(g, p.c) && Linked(Stretch(a, last).table, chain + [p.c], 0)
                 && GrownTo(a, chain, Stretch(a, last), chain + [p.c])
               else Stretch(a, last) == a && GrownTo(a, chain, a, chain)
  {
    GrownNot(a, chain);
    LinkedIsChain(g, a.table, chain);
    var last := chain[|chain| - 1];
    FailureReadsAsSuccess(a.table, last, a.lastUsed);
    GrownByOne(a, chain);
    match Choose(a.table, last, a.lastUsed)
    case At(c) =>
      StretchedChain(a.table, chain, c);
      LongerClusters(g, chain, c);
      LinkedIsChain(g, Stretch(a, last).table, chain + [c]);
    case _ =>
  }

  lemma ClearedIsStretched(g: Geometry, w: Snap, n: Snap, c: nat)
    requires Fits(g, w.img) && Fits(g, n.img) && ChainStep(g, w.img, n.img, n.chain) && n.chain == w.chain + [c]
    requires GrownTo(w.a, w.chain, n.a, n.chain) && n.slots == Grown(w.slots, 16 * Spc(g))
    ensures Stretched(g, w, n)
  {
  }

  /** A directory that grew, and then an entry was written into it. */
  lemma AddedAfter(g: Geometry, w: Snap, job: Job, r: Room, n: Snap)
    requires Grew(g, w, job.was) && Laying(g, job, n, |job.new_|) && IsPlace(job, r)
    requires r == FindRoom(w.slots, 0, 0, 0, false, |job.new_|)
    requires job.was.chain == w.chain || |job.was.slots| <= r.end + 16 * Spc(g)
    ensures HasAdded(g, w, r, job.new_, n)
  {
    AddedToGrown(w.slots, |job.was.slots| - |w.slots|, job.was.slots, r, job.new_, n.slots);
    ChainStepTwice(g, w.img, job.was.img, n.img, n.chain);
  }

  /** One more slot was written. */
  lemma SlotLaid(g: Geometry, w: Job, m: Snap, n: Snap, j: nat)
    requires Laying(g, w, m, j) && j < |w.new_| && HasPut(g, m, n, w.at + j, w.new_[j])
    ensures Laying(g, w, n, j + 1)
  {
    ChainStepTwice(g, w.was.img, m.img, n.img, n.chain);
  }

  lemma AddedToGrown(slots: seq<Slot>, m: nat, mid: seq<Slot>, r: Room, new_: seq<Slot>, res: seq<Slot>)
    requires r.end == r.start + |new_| && r.end < |mid| && mid == Grown(slots, m) && res == Added(mid, r, new_)
    ensures |res| == |slots| + m && res == Added(Grown(slots, |res| - |slots|), r, new_)
  {
  }

  lemma NewSlotsAt(name: seq<byte>, attr: byte, first: u32, time: u16, date: u16)
    requires |name| <= 255
    ensures var s := NewSlots(name, attr, first, time, date);
            && s[Lfns(|name|)] == SfnSlot(SfnName(name), attr, first, time, date)
            && forall j :: 0 <= j < Lfns(|name|) ==> s[j] == PieceSlot(name, Lfns(|name|) - j, Crc(SfnName(name)))
  {
    forall j | 0 <= j < Lfns(|name|)
      ensures NewSlots(name, attr, first, time, date)[j] == PieceSlot(name, Lfns(|name|) - j, Crc(SfnName(name)))
    {
      PieceAt(name, Lfns(|name|), Crc(SfnName(name)), j);
    }
  }

  lemma GrownNone(slots: seq<Slot>)
    ensures Grown(slots, 0) == slots
  {
  }

  lemma SlotIsPatch(g: Geometry, img: Image, chain: seq<nat>, k: nat, slot: Slot)
    requires Fits(g, img) && AllClusters(g, chain) && k < SlotCnt(g, chain)
    ensures var c := Cursors(g, chain)[k];
            && g.dataSect <= c.sect < |img| && c.idx + 32 <= 512
            && WithSlot(g, img, chain, k, slot) == img[c.sect := Patched(img[c.sect], c.idx, slot)]
  {
    CursorIs(g, chain, k);
  }

  lemma CursorsOfLonger(g: Geometry, cur: seq<nat>, longer: seq<nat>, k: nat)
    requires AllClusters(g, cur) && AllClusters(g, longer) && |longer| == |cur| + 1 && longer[..|cur|] == cur
    requires k < SlotCnt(g, cur)
    ensures k < SlotCnt(g, longer) && Cursors(g, longer)[k] == Cursors(g, cur)[k]
  {
    var c := longer[|cur|];
    assert longer == cur + [c];
    LongerClusters(g, cur, c);
    SectAtOfLonger(g, cur, c, k / 16);
    SectorParts(g, cur, k / 16);
    CursorIs(g, cur, k);
    CursorIs(g, longer, k);
  }

  lemma GrewNot(g: Geometry, w: Snap)
    requires Fits(g, w.img)
    ensures Grew(g, w, w)
  {
    GrownNot(w.a, w.chain);
    GrownNone(w.slots);
  }

  lemma StretchedNot(g: Geometry, w: Snap)
    requires Fits(g, w.img)
    ensures Stretched(g, w, w)
  {
    GrownNot(w.a, w.chain);
  }

  lemma GrewSlot(g: Geometry, w: Snap, n: Snap, k: nat)
    requires Grew(g, w, n) && k < |n.slots|
    ensures n.slots[k] == SlotOr0(w.slots, k)
  {
  }

  /** A directory that grew, and then grew by one more cluster or not at all. */
  lemma GrewMore(g: Geometry, w: Snap, mid: Snap, n: Snap)
    requires Grew(g, w, mid) && Stretched(g, mid, n)
    ensures Grew(g, w, n)
  {
    GrownOnceMore(w.a, w.chain, mid.a, mid.chain, n.a, n.chain);
    if n.chain != mid.chain {
      forall x | x in mid.chain
        ensures x in n.chain
      {
        assert x in n.chain[..|mid.chain|];
      }
      ChainStepLonger(g, w.img, mid.img, mid.chain, n.chain);
    }
    ChainStepTwice(g, w.img, mid.img, n.img, n.chain);
  }

  lemma SlotPut(g: Geometry, w: Snap, n: Snap, k: nat, slot: Slot)
    requires Fits(g, w.img) && w.chain != [] && Linked(w.a.table, w.chain, 0)
    requires AllClusters(g, w.chain) && k < SlotCnt(g, w.chain)
    requires w.slots == SlotsOf(g, w.img, w.chain) && w.a.table == Active(g, w.img)
    requires n.chain == w.chain && n.img == WithSlot(g, w.img, w.chain, k, slot)
    requires n.slots == SlotsOf(g, n.img, n.chain) && n.a.table == Active(g, n.img)
    requires n.a.lastUsed == w.a.lastUsed && n.a.freeCnt == w.a.freeCnt
    ensures HasPut(g, w, n, k, slot)
  {
    SlotWritten(g, w.img, w.chain, k, slot);
  }

  lemma NoneRemoved(g: Geometry, w: Snap, a: nat)
    requires a <= |w.slots| && Fits(g, w.img)
    ensures HasRemoved(g, w, w, a, a)
  {
  }

  lemma CursorOnly(g: Geometry, t: Table, chain: seq<nat>, j: nat, k: nat)
    requires |t| == g.ClustCnt() && chain != [] && Linked(t, chain, 0) && AllClusters(g, chain)
    requires j < SlotCnt(g, chain) && k < SlotCnt(g, chain)
    ensures var c, d := Cursors(g, chain)[j], Cursors(g, chain)[k];
            && (c.sect == d.sect && c.idx == d.idx ==> j == k)
            && g.dataSect <= c.sect && SectToClust(g, c.sect) == c.clust
  {
    LinkedIsChain(g, t, chain);
    CursorsDistinct(g, chain, j, k);
  }

  /** Changing the first byte of a slot in place rewrites the slot. */
  lemma MarkIsPatch(g: Geometry, img: Image, chain: seq<nat>, k: nat, mark: byte)
    requires Fits(g, img) && AllClusters(g, chain) && k < SlotCnt(g, chain)
    ensures var c := Cursors(g, chain)[k];
            && g.dataSect <= c.sect < |img| && c.idx + 32 <= 512
            && WithSlot(g, img, chain, k, SlotsOf(g, img, chain)[k][0 := mark])
               == img[c.sect := Patched(img[c.sect], c.idx, [mark])]
  {
    CursorIs(g, chain, k);
    SlotOf(g, img, chain, k);
    PatchFirst(img[SectAt(g, chain, k / 16)], 32 * (k % 16), mark);
  }

  lemma PatchFirst(s: Sector, at: nat, mark: byte)
    requires at + 32 <= 512
    ensures Patched(s, at, [mark]) == Patched(s, at, s[at..at + 32][0 := mark])
  {
  }

  lemma RemovedMore(slots: seq<Slot>, a: nat, k: nat)
    requires a <= k < |slots|
    ensures Removed(slots, a, k)[k := FreeMark(Removed(slots, a, k)[k])] == Removed(slots, a, k + 1)
  {
  }

  lemma OneRemoved(g: Geometry, w: Snap, v: Snap, n: Snap, a: nat, k: nat, m: nat)
    requires HasRemoved(g, w, v, a, k) && k < |v.slots| && HasPut(g, v, n, k, FreeMark(v.slots[k])) && m == k + 1
    ensures HasRemoved(g, w, n, a, m)
  {
    RemovedMore(w.slots, a, k);
    ChainStepTwice(g, w.img, v.img, n.img, n.chain);
  }

  /** The first `i` characters of the slot belong to its fragment. */
  ghost predicate FragUpTo(s: Slot, i: nat) {
    i <= 13 && |Frag(s)| >= i && FragFrom(s, i) == Frag(s)[i..]
  }

  lemma FragSplit(s: Slot, i: nat)
    requires FragUpTo(s, i)
    ensures i == 13 || CharAt(s, i) == 0 ==> |Frag(s)| == i && Frag(s)[..i] == Frag(s)
    ensures i < 13 && CharAt(s, i) != 0 ==> FragUpTo(s, i + 1) && Frag(s)[..i + 1] == Frag(s)[..i] + [CharAt(s, i)]
  {
    if i < 13 && CharAt(s, i) != 0 {
      assert FragFrom(s, i)[1..] == FragFrom(s, i + 1);
    }
  }

  lemma OverlayMore(g: seq<byte>, at: nat, f: seq<byte>, c: byte)
    requires at + |f| < |g|
    ensures Overlay(g, at, f)[at + |f| := c] == Overlay(g, at, f + [c])
  {
    OverlayIs(g, at, f);
    OverlayIs(g, at, f + [c]);
  }

  /** The first slot of a cluster appended to a chain. */
  lemma LastSlot(g: Geometry, chain: seq<nat>, c: nat)
    requires AllClusters(g, chain) && IsCluster(g, c)
    ensures var k := SlotCnt(g, chain);
            && AllClusters(g, chain + [c]) && k < SlotCnt(g, chain + [c])
            && Cursors(g, chain + [c])[k] == Cursor(c, ClustToSect(g, c), 0)
  {
    SectAtOfLast(g, chain, c, 0);
    FirstSector(g, chain + [c], |chain|);
    CursorIs(g, chain + [c], SlotCnt(g, chain));
  }

  /** After a cluster was linked to a chain, `img1`, clearing it appends cleared slots to the directory. */
  lemma GrownOnDisk(g: Geometry, img: Image, img1: Image, chain: seq<nat>, c: nat)
    requires Fits(g, img) && Fits(g, img1) && AllClusters(g, chain) && IsCluster(g, c) && c !in chain
    requires TableStep(g, img, img1)
    ensures AllClusters(g, chain + [c])
    ensures var img2 := Zeroed(img1, ClustToSect(g, c), Spc(g));
            && SlotsOf(g, img2, chain + [c]) == Grown(SlotsOf(g, img, chain), 16 * Spc(g))
            && ChainStep(g, img, img2, chain + [c])
  {
    var longer, s := chain + [c], ClustToSect(g, c);
    var img2 := Zeroed(img1, s, Spc(g));
    LongerClusters(g, chain, c);
    TableStepIsChainStep(g, img, img1, longer);
    ZeroedIsChainStep(g, img1, c);
    ChainStepLonger(g, img1, img2, [c], longer);
    RestSame(g, img1, img);
    SectAtOfLast(g, chain, c, 0);
    forall k: nat | k < SlotCnt(g, longer)
      ensures SlotsOf(g, img2, longer)[k] == Grown(SlotsOf(g, img, chain), 16 * Spc(g))[k]
    {
      GrownSlot(g, img, img1, chain, c, k);
    }
  }

  lemma GrownSlot(g: Geometry, img: Image, img1: Image, chain: seq<nat>, c: nat, k: nat)
    requires Fits(g, img) && Fits(g, img1) && AllClusters(g, chain) && IsCluster(g, c) && c !in chain
    requires forall s :: 0 <= s < |img| && g.Outside(s) ==> img1[s] == img[s]
    requires AllClusters(g, chain + [c]) && k < SlotCnt(g, chain + [c])
    ensures SlotsOf(g, Zeroed(img1, ClustToSect(g, c), Spc(g)), chain + [c])[k] ==
            if k < SlotCnt(g, chain) then SlotsOf(g, img, chain)[k] else ZeroSlot()
  {
    SlotOf(g, Zeroed(img1, ClustToSect(g, c), Spc(g)), chain + [c], k);
    if k < SlotCnt(g, chain) {
      SlotOf(g, img, chain, k);
      OldSector(g, img1, chain, c, k / 16);
    } else {
      NewSector(g, img1, chain, c, k / 16);
      assert SlotIn(ZeroSector(), k % 16) == ZeroSlot();
    }
  }

  lemma OldSector(g: Geometry, img: Image, chain: seq<nat>, c: nat, n: nat)
    requires Fits(g, img) && AllClusters(g, chain) && IsCluster(g, c) && c !in chain && n < SectCnt(g, chain)
    ensures AllClusters(g, chain + [c]) && n < SectCnt(g, chain + [c])
    ensures SectAt(g, chain + [c], n) == SectAt(g, chain, n)
    ensures var x := SectAt(g, chain, n); Zeroed(img, ClustToSect(g, c), Spc(g))[x] == img[x]
  {
    var s, x := ClustToSect(g, c), SectAt(g, chain, n);
    SectAtOfLonger(g, chain, c, n);
    SectAtCluster(g, chain, n);
    ZeroedAt(img, s, Spc(g), x);
    if s <= x < s + Spc(g) {
      SectToClustInverts(g, c, x - s);
    }
  }

  lemma NewSector(g: Geometry, img: Image, chain: seq<nat>, c: nat, n: nat)
    requires Fits(g, img) && AllClusters(g, chain) && IsCluster(g, c) && AllClusters(g, chain + [c])
    requires SectCnt(g, chain) <= n < SectCnt(g, chain + [c])
    ensures Zeroed(img, ClustToSect(g, c), Spc(g))[SectAt(g, chain + [c], n)] == ZeroSector()
  {
    SectAtOfLast(g, chain, c, 0);
    SectAtOfLast(g, chain, c, n - SectCnt(g, chain));
    ZeroedAt(img, ClustToSect(g, c), Spc(g), SectAt(g, chain + [c], n));
  }

  /** A file that lies apart from the directory is not in the cache after a search. */
  lemma NearIsApart(dir: Dir, chain: seq<nat>, other: seq<nat>)
    requires dir.Near(chain) && Apart(other, chain)
    ensures !InChain(dir.fat.geo, other, dir.fat.sect)
  {
  }

  /** Where the next slot is: behind this one, or at the start of the next sector of the disk, or at the start of the
      next cluster; the sector mask tells the last two apart. */
  lemma CursorStep(g: Geometry, chain: seq<nat>, k: nat)
    requires AllClusters(g, chain) && k < SlotCnt(g, chain)
    ensures var c, i := Cursors(g, chain)[k], ClustIdx(g, k / 16);
            && i < |chain| && c.clust == chain[i] && IsCluster(g, chain[i])
            && if c.idx + 32 < 512 then
                 k + 1 < SlotCnt(g, chain) && Cursors(g, chain)[k + 1] == Cursor(c.clust, c.sect, c.idx + 32)
               else if LowBits(c.sect + 1, g.shift) != 0 then
                 k + 1 < SlotCnt(g, chain) && Cursors(g, chain)[k + 1] == Cursor(c.clust, c.sect + 1, 0)
               else if i + 1 < |chain| then
                 && k + 1 < SlotCnt(g, chain) && IsCluster(g, chain[i + 1])
                 && Cursors(g, chain)[k + 1] == Cursor(chain[i + 1], ClustToSect(g, chain[i + 1]), 0)
               else k + 1 == SlotCnt(g, chain)
  {
    CursorIs(g, chain, k);
    NextSector(g, chain, k / 16);
    if 32 * (k % 16) + 32 < 512 {
      NextInSector(g, chain, k, k + 1);
    } else if k + 1 < SlotCnt(g, chain) {
      FirstInSector(g, chain, k + 1, k / 16 + 1);
    }
  }

  lemma NextInSector(g: Geometry, chain: seq<nat>, k: nat, n: nat)
    requires AllClusters(g, chain) && k < SlotCnt(g, chain) && k % 16 < 15 && n == k + 1
    ensures var c := CursorAt(g, chain, k);
            n < SlotCnt(g, chain) && Cursors(g, chain)[n] == Cursor(c.clust, c.sect, c.idx + 32)
  {
    SameSector(k, n, SectCnt(g, chain));
    CursorIs(g, chain, n);
  }

  lemma SameSector(k: nat, n: nat, cnt: nat)
    requires k % 16 < 15 && n == k + 1 && k < 16 * cnt
    ensures n / 16 == k / 16 && n % 16 == k % 16 + 1 && n < 16 * cnt
  {
  }

  lemma CursorInChain(g: Geometry, chain: seq<nat>, k: nat)
    requires AllClusters(g, chain) && k < SlotCnt(g, chain)
    ensures InChain(g, chain, Cursors(g, chain)[k].sect)
  {
    CursorIs(g, chain, k);
    SectAtCluster(g, chain, k / 16);
  }

  lemma FirstInSector(g: Geometry, chain: seq<nat>, k: nat, n: nat)
    requires AllClusters(g, chain) && k < SlotCnt(g, chain) && k == 16 * n
    ensures n < SectCnt(g, chain) && ClustIdx(g, n) < |chain|
    ensures Cursors(g, chain)[k] == Cursor(chain[ClustIdx(g, n)], SectAt(g, chain, n), 0)
  {
    SectorParts(g, chain, n);
    CursorIs(g, chain, k);
  }

  lemma FirstSlot(g: Geometry, chain: seq<nat>)
    requires AllClusters(g, chain) && |chain| > 0
    ensures IsCluster(g, chain[0])
    ensures 0 < SlotCnt(g, chain) && Cursors(g, chain)[0] == Cursor(chain[0], ClustToSect(g, chain[0]), 0)
  {
    FirstSector(g, chain, 0);
    ShlAdds(0, 0, g.shift);
    CursorIs(g, chain, 0);
  }
}
