/** An open file: a one-sector buffer and a cursor over a chain that grows. */
module Files {
  import opened Bytes
  import opened Codes
  import opened Table
  import opened Chains
  import opened Runs
  import opened Names
  import opened Sectors
  import opened Volume
  import opened Contents
  import opened Tree
  import opened Directory

  datatype Whence = FromStart | FromCursor | FromEnd

  /** The sector number of a file that has buffered none yet. */
  const NO_SECT: u32 := 0xffff_ffff

  function Max(a: nat, b: nat): nat { if a < b then b else a }

  class File {
    const fat: Fat
    const dirSect: nat
    const dirIdx: nat
    const sclust: nat
    const buf: array<byte>
    const mayRead: bool
    const mayWrite: bool
    var clust: nat
    var sect: u32
    var size: u32
    var offset: u32
    var dirty: bool
    var accessed: bool
    var modified: bool

    /** A handle for the file that starts at cluster `c` and has its short entry at `dirSect` and `dirIdx`. */
    constructor (fat: Fat, dirSect: nat, dirIdx: nat, c: nat, size: u32, mayRead: bool, mayWrite: bool,
                 ghost chain: seq<nat>)
      requires fat.Valid() && IsChain(fat.Tab(), chain) && c == chain[0] && !InChain(fat.geo, chain, fat.sect)
      ensures this.fat == fat && this.size == size && this.mayRead == mayRead && this.mayWrite == mayWrite
      ensures this.dirSect == dirSect && this.dirIdx == dirIdx
      ensures Opened(chain) && !modified && !accessed && fresh(buf)
    {
      LinkedIsChain(fat.geo, fat.Tab(), chain);
      this.fat, this.dirSect, this.dirIdx := fat, dirSect, dirIdx;
      this.size, this.mayRead, this.mayWrite := size, mayRead, mayWrite;
      sclust, clust, sect, offset := c, c, NO_SECT, 0;
      dirty, accessed, modified := false, false, false;
      buf := new byte[512];
    }

    /** The file occupies `chain`, and the cache of the volume holds no sector of it. */
    ghost predicate OnChain(chain: seq<nat>)
      reads fat, fat.buf
      ensures OnChain(chain) ==> fat.Valid() && chain != [] && AllClusters(fat.geo, chain)
    {
      && fat.Valid() && buf.Length == 512 && buf != fat.buf
      && chain != [] && sclust == chain[0] && Linked(fat.Tab(), chain, 0) && AllClusters(fat.geo, chain)
      && !InChain(fat.geo, chain, fat.sect)
    }

    /** The cluster of the cursor is the `i`-th of the chain. */
    ghost predicate InClust(chain: seq<nat>, i: nat)
      reads `clust
    {
      i < |chain| && clust == chain[i]
    }

    /** The cluster of the cursor is the last one of the chain. */
    ghost predicate AtEnd(chain: seq<nat>)
      reads `clust
    {
      chain != [] && clust == chain[|chain| - 1]
    }

    /** The buffer belongs to sector `s` of the chain, and if it is clean holds what is there. */
    ghost predicate Buffers(chain: seq<nat>, s: u32)
      requires Fits(fat.geo, fat.img)
      reads `dirty, buf, fat
    {
      if s == NO_SECT then !dirty
      else InChain(fat.geo, chain, s) && s < |fat.img| && buf.Length == 512 && (dirty || buf[..] == fat.img[s])
    }

    /** The disk with the dirty buffer, which belongs to sector `s`, laid over it. */
    ghost function Over(s: u32): (r: Image)
      requires Fits(fat.geo, fat.img) && (dirty ==> s < |fat.img| && buf.Length == 512)
      reads `dirty, buf, fat
      ensures Fits(fat.geo, r)
    {
      if dirty then fat.img[s := buf[..]] else fat.img
    }

    /** A handle as it is when the file has just been opened, before its first seek. */
    ghost predicate Opened(chain: seq<nat>)
      reads `clust, `sect, `offset, `dirty, fat, fat.buf
    {
      OnChain(chain) && offset == 0 && clust == sclust && sect == NO_SECT && !dirty
    }

    /** The cursor is in the chain: its cluster and sector are those of the offset, and the buffer is that sector. */
    ghost predicate On(chain: seq<nat>)
      reads `clust, `sect, `offset, `dirty, buf, fat, fat.buf
      ensures On(chain) ==> sect != NO_SECT && OnChain(chain) && Buffers(chain, sect)
    {
      && OnChain(chain)
      && offset / 512 < SectCnt(fat.geo, chain)
      && InClust(chain, ClustIdx(fat.geo, offset / 512))
      && sect == SectAt(fat.geo, chain, offset / 512)
      && (dirty || buf[..] == fat.img[sect])
      && (SectAtCluster(fat.geo, chain, offset / 512);
          SectorParts(fat.geo, chain, offset / 512);
          ClusterOf(fat.geo, chain, ClustIdx(fat.geo, offset / 512)); true)
    }

    ghost function Disk(): (r: Image)
      requires Fits(fat.geo, fat.img) && (dirty ==> sect < |fat.img| && buf.Length == 512)
      reads `sect, `dirty, buf, fat
      ensures Fits(fat.geo, r)
    {
      Over(sect)
    }

    // ---- seeking ----

    /** The allocator finds no cluster to append behind the cursor's, and that is what `err` says. */
    ghost predicate Stuck(err: int)
      reads `clust, fat, fat.buf
    {
      && fat.Valid() && clust < fat.geo.ClustCnt()
      && err != ERR_NONE && FailsWith(fat.Tab(), clust, fat.lastUsed, err)
    }

    /** The chain ends before its `k`-th cluster and cannot grow, and the cursor is in its last cluster. */
    ghost predicate RunsOut(longer: seq<nat>, k: nat, err: int)
      reads `clust, fat, fat.buf
    {
      |longer| <= k && AtEnd(longer) && Stuck(err)
    }

    /** Moves to the next cluster, and at the end of the chain appends one. */
    method NextCluster(ghost cur: seq<nat>, ghost i: nat, ghost n: nat) returns (err: int, ghost longer: seq<nat>)
      requires OnChain(cur) && InClust(cur, i) && n == i + 1
      modifies `clust, fat, fat.buf
      ensures OnChain(longer)
      ensures GrownTo(old(fat.State()), cur, fat.State(), longer) && TableStep(fat.geo, old(fat.img), fat.img)
      ensures if err == ERR_NONE then InClust(longer, n) && |longer| == Max(|cur|, n + 1)
              else longer == cur && n == |cur| && AtEnd(cur) && Stuck(err)
    {
      longer := cur;
      LinkedIsChain(fat.geo, fat.Tab(), cur);
      GrownNot(fat.State(), cur);
      ClusterOf(fat.geo, cur, i);
      ChainLink(fat.Tab(), cur, i);
      var next, kind;
      err, next, kind := fat.GetFat(clust);
      CachedTable(fat.geo, cur, fat.sect);
      if err != ERR_NONE {
        return;
      }
      if kind == Bad || kind == Free {
        err := ERR_BROKEN;
        return;
      }
      if kind == Kind.Last {
        err, longer := Append(cur, i);
        return;
      }
      clust := next;
    }

    /** Appends a cluster to the chain and moves to it. */
    method Append(ghost cur: seq<nat>, ghost i: nat) returns (err: int, ghost longer: seq<nat>)
      requires OnChain(cur) && InClust(cur, i) && i + 1 == |cur|
      modifies `clust, fat, fat.buf
      ensures OnChain(longer)
      ensures GrownTo(old(fat.State()), cur, fat.State(), longer) && TableStep(fat.geo, old(fat.img), fat.img)
      ensures if err == ERR_NONE then InClust(longer, |cur|) && |longer| == |cur| + 1
              else longer == cur && AtEnd(cur) && Stuck(err)
    {
      longer := cur;
      GrowthCases(fat.geo, fat.State(), cur);
      var next;
      err, next := fat.StretchChain(clust);
      if err != ERR_NONE {
        return;
      }
      longer := cur + [next];
      LongerClusters(fat.geo, cur, next);
      clust := next;
    }

    /** Since the allocator was in state `a` and `img` on the disk, `chain` grew into `cur`, and the cursor is in its
        `i`-th cluster. */
    ghost predicate Walking(a: Alloc, img: Image, chain: seq<nat>, cur: seq<nat>, i: nat)
      requires OnChain(cur)
      reads `clust, fat, fat.buf
    {
      && InClust(cur, i) && GrownTo(a, chain, fat.State(), cur)
      && Fits(fat.geo, img) && TableStep(fat.geo, img, fat.img)
    }

    /** One round of the walk. */
    method FollowOnce(ghost a: Alloc, ghost img: Image, ghost chain: seq<nat>, ghost cur: seq<nat>, ghost i: nat,
                      ghost n: nat)
      returns (err: int, ghost longer: seq<nat>)
      requires OnChain(cur) && Walking(a, img, chain, cur, i) && n == i + 1
      modifies `clust, fat, fat.buf
      ensures OnChain(longer)
      ensures if err == ERR_NONE then Walking(a, img, chain, longer, n) && |longer| == Max(|cur|, n + 1)
              else longer == cur && Walking(a, img, chain, cur, i) && n == |cur| && AtEnd(cur) && Stuck(err)
    {
      ghost var b := fat.State();
      err, longer := NextCluster(cur, i, n);
      GrownOnceMore(a, chain, b, cur, fat.State(), longer);
    }

    /** Walks on from the `src`-th cluster to the `dst`-th, and appends those that are missing; it ends at the `k`-th.
        */
    method Follow(ghost chain: seq<nat>, src: nat, dst: nat) returns (err: int, ghost longer: seq<nat>, ghost k: nat)
      requires OnChain(chain) && InClust(chain, src) && src <= dst
      modifies `clust, fat, fat.buf
      ensures OnChain(longer) && Walking(old(fat.State()), old(fat.img), chain, longer, k) && |chain| <= |longer|
      ensures if err == ERR_NONE then k == dst && |longer| == Max(|chain|, dst + 1)
              else RunsOut(longer, dst, err)
    {
      err, longer, k := ERR_NONE, chain, src;
      ghost var a, img := fat.State(), fat.img;
      GrownNot(a, chain);
      for i := 0 to dst - src
        invariant k == src + i && OnChain(longer) && Walking(a, img, chain, longer, k)
        invariant |longer| == Max(|chain|, k + 1) && err == ERR_NONE
      {
        ghost var n := k + 1;
        err, longer := FollowOnce(a, img, chain, longer, k, n);
        if err != ERR_NONE {
          return;
        }
        k := n;
      }
    }

    /** Goes back to the first cluster. */
    method Backtrack()
      requires IsCluster(fat.geo, sclust)
      modifies `clust, `sect, `offset
      ensures clust == sclust && sect == ClustToSect(fat.geo, sclust) && offset == 0
    {
      clust := sclust;
      sect := ClustToSect(fat.geo, sclust);
      offset := 0;
    }

    /** Arrives at offset `off`: when its sector is not `from`, the one in the buffer, the dirty buffer is written back
        there and the new sector is read. */
    method Land(ghost chain: seq<nat>, off: u32, from: u32)
      requires OnChain(chain) && Buffers(chain, from)
      requires off / 512 < SectCnt(fat.geo, chain) && InClust(chain, ClustIdx(fat.geo, off / 512))
      modifies `sect, `offset, `dirty, buf, fat`img, fat`disk, fat`torn
      ensures On(chain) && offset == off && fat.Tab() == old(fat.Tab())
      ensures Disk() == old(Over(from)) && (dirty ==> old(dirty))
    {
      var n := off / 512;
      SectorParts(fat.geo, chain, n);
      ClusterOf(fat.geo, chain, ClustIdx(fat.geo, n));
      SectAtCluster(fat.geo, chain, n);
      Aim(off);
      if sect != from {
        Refill(chain, from);
      }
    }

    /** Takes the sector of offset `off` in the cluster of the cursor, whether or not the offset lies in that cluster.
        */
    method Aim(off: u32)
      requires IsCluster(fat.geo, clust)
      modifies `sect, `offset
      ensures sect == ClustToSect(fat.geo, clust) + LowBits(off / 512, fat.geo.shift) && offset == off
    {
      WithinCluster(fat.geo, off / 512);
      sect := ClustToSect(fat.geo, clust) + LowBits(off / 512, fat.geo.shift);
      offset := off;
    }

    /** Writes the dirty buffer back to sector `from`, and reads the sector of the cursor. */
    method Refill(ghost chain: seq<nat>, from: u32)
      requires OnChain(chain) && Buffers(chain, from) && InChain(fat.geo, chain, sect) && sect < |fat.img|
      modifies `dirty, buf, fat`img, fat`disk, fat`torn
      ensures OnChain(chain) && !dirty && buf[..] == fat.img[sect]
      ensures fat.img == old(Over(from)) && fat.Tab() == old(fat.Tab())
    {
      FlushTo(chain, from);
      fat.ReadThrough(buf, sect);
    }

    /** Writes the dirty buffer back to its sector. */
    method FlushTo(ghost chain: seq<nat>, s: u32)
      requires OnChain(chain) && Buffers(chain, s)
      modifies `dirty, fat`img, fat`disk, fat`torn
      ensures OnChain(chain) && !dirty
      ensures fat.img == old(Over(s)) && fat.Tab() == old(fat.Tab())
    {
      if dirty {
        DataWrite(fat.geo, fat.img, s, buf[..]);
        fat.WriteThrough(buf, s);
        dirty := false;
      }
    }

    /** The cluster that offset `off` lies in. */
    function IdxOf(off: nat): nat { ClustIdx(fat.geo, off / 512) }

    method ClustOf(off: u32) returns (i: nat)
      ensures i == IdxOf(off)
    {
      OffsetClust(fat.geo, off);
      i := off / ClustSize(fat.geo);
    }

    /** The cursor's cluster is that of its offset, and the buffer belongs to its sector. */
    ghost predicate Placed(chain: seq<nat>)
      reads `clust, `sect, `offset, `dirty, buf, fat, fat.buf
      ensures Placed(chain) ==> (dirty ==> sect < |fat.img| && buf.Length == 512)
    {
      OnChain(chain) && InClust(chain, IdxOf(offset)) && Buffers(chain, sect)
    }

    lemma IsPlaced(chain: seq<nat>)
      requires On(chain) || Opened(chain)
      ensures Placed(chain)
    {
      ZeroClust(fat.geo);
    }

    /** Goes to the cluster of offset `off`, from the cursor or, if that is behind it, from the start of the chain. */
    method Walk(ghost chain: seq<nat>, off: u32) returns (err: int, ghost longer: seq<nat>)
      requires OnChain(chain) && InClust(chain, IdxOf(offset))
      modifies `clust, `sect, `offset, fat, fat.buf
      ensures OnChain(longer)
      ensures GrownTo(old(fat.State()), chain, fat.State(), longer) && TableStep(fat.geo, old(fat.img), fat.img)
      ensures if err == ERR_NONE then InClust(longer, IdxOf(off)) && |longer| == Max(|chain|, IdxOf(off) + 1)
              else
                offset == old(offset) && sect == old(sect) && RunsOut(longer, IdxOf(off), err)
    {
      var dst := ClustOf(off);
      var src := ClustOf(offset);
      if dst < src {
        ClusterOf(fat.geo, chain, 0);
        Backtrack();
        src := 0;
      }
      ghost var k;
      err, longer, k := Follow(chain, src, dst);
    }

    /** Since the disk was `was`, with the allocator in state `a`, only the tables changed, and the chain grew. */
    ghost predicate Moved(a: Alloc, was: Image, chain: seq<nat>, longer: seq<nat>)
      reads `sect, `dirty, buf, fat, fat.buf
    {
      && OnChain(longer) && Buffers(longer, sect) && GrownTo(a, chain, fat.State(), longer)
      && Fits(fat.geo, was) && TableStep(fat.geo, was, Disk())
    }

    /** How a seek to offset `off` ended: there, the chain having grown just as far as needed; or at offset `was`, where
        it began, in the last cluster of a chain that could not grow that far. */
    ghost predicate Sought(chain: seq<nat>, longer: seq<nat>, off: u32, was: u32, err: int)
      reads `clust, `sect, `offset, `dirty, buf, fat, fat.buf
    {
      if err == ERR_NONE then On(longer) && offset == off && |longer| == Max(|chain|, IdxOf(off) + 1)
      else offset == was && RunsOut(longer, IdxOf(off), err)
    }

    /** Seeks to offset `off`: the chain grows as far as needed, and only the tables change. When no cluster is left for
        the growth the offset stays where it was. */
    method SeekTo(ghost chain: seq<nat>, off: u32) returns (err: int, ghost longer: seq<nat>)
      requires Placed(chain)
      modifies `clust, `sect, `offset, `dirty, buf, fat, fat.buf
      ensures Moved(old(fat.State()), old(Disk()), chain, longer) && (dirty ==> old(dirty))
      ensures Sought(chain, longer, off, old(offset), err)
    {
      var from := sect;
      err, longer := WalkBuffered(chain, off, from);
      if err != ERR_NONE {
        return;
      }
      SectorReached(fat.geo, longer, off);
      Land(longer, off, from);
    }

    /** As `Walk`, with what that means for the buffer. */
    method WalkBuffered(ghost chain: seq<nat>, off: u32, ghost from: u32) returns (err: int, ghost longer: seq<nat>)
      requires Placed(chain) && from == sect
      modifies `clust, `sect, `offset, fat, fat.buf
      ensures if err == ERR_NONE then
                && OnChain(longer) && Buffers(longer, from) && GrownTo(old(fat.State()), chain, fat.State(), longer)
                && TableStep(fat.geo, old(Over(from)), Over(from))
                && InClust(longer, IdxOf(off)) && |longer| == Max(|chain|, IdxOf(off) + 1)
              else
                && Moved(old(fat.State()), old(Over(from)), chain, longer)
                && Sought(chain, longer, off, old(offset), err)
    {
      ghost var img, a := fat.img, fat.State();
      LinkedIsChain(fat.geo, fat.Tab(), chain);
      err, longer := Walk(chain, off);
      BuffersStill(chain, a, img, longer, from);
    }

    /** After table operations by which the chain grew, the buffer still belongs to its sector. */
    lemma BuffersStill(chain: seq<nat>, a: Alloc, img: Image, longer: seq<nat>, s: u32)
      requires OnChain(longer) && Fits(fat.geo, img) && TableStep(fat.geo, img, fat.img)
      requires Ready(a) && a.table == Active(fat.geo, img) && IsChain(a.table, chain)
      requires GrownTo(a, chain, fat.State(), longer)
      requires if s == NO_SECT then !dirty
               else InChain(fat.geo, chain, s) && s < |img| && (dirty || buf[..] == img[s])
      ensures Buffers(longer, s)
      ensures TableStep(fat.geo, if dirty then img[s := buf[..]] else img, Over(s))
    {
      GrownGrewOnly(a, chain, fat.State(), longer);
      RestSame(fat.geo, img, fat.img);
      if s != NO_SECT {
        DataIsOutside(fat.geo, s);
        assert SectToClust(fat.geo, s) in longer[..|chain|];
        TableStepUnder(fat.geo, img, fat.img, s, buf[..]);
      }
    }

    /** The bytes of the file, all of its clusters. */
    ghost function Bytes(chain: seq<nat>): (s: seq<byte>)
      requires On(chain)
      reads `clust, `sect, `offset, `dirty, buf, fat, fat.buf
      ensures |s| == 512 * SectCnt(fat.geo, chain) && offset < |s|
    {
      BytesOf(fat.geo, Disk(), chain)
    }

    /** Seeks relative to the start, the cursor or the size, to offset `to`. A target outside the 32-bit range is
        refused with EOF. */
    method Seek(ghost chain: seq<nat>, delta: int, whence: Whence, ghost to: int)
      returns (err: int, ghost longer: seq<nat>)
      requires (On(chain) || Opened(chain)) && -0x8000_0000 <= delta < 0x8000_0000
      requires to == delta + match whence case FromStart => 0 case FromCursor => offset case FromEnd => size
      modifies `clust, `sect, `offset, `dirty, buf, fat, fat.buf
      ensures Moved(old(fat.State()), old(Disk()), chain, longer) && (dirty ==> old(dirty))
      ensures if 0 <= to <= 0xffff_ffff then
                && Sought(chain, longer, to, old(offset), err)
                && (err == ERR_NONE <==> CanHold(old(fat.State()), chain, to, 0))
                && (Placed(longer) <==> err == ERR_NONE || IdxOf(old(offset)) + 1 == |longer|)
              else err == ERR_EOF && longer == chain && Placed(chain) && offset == old(offset) && Disk() == old(Disk())
    {
      longer := chain;
      GrownNot(fat.State(), chain);
      IsPlaced(chain);
      var off := Base(whence) + delta;
      if off < 0 || off > 0xffff_ffff {
        return ERR_EOF, chain;
      }
      assert off == to;
      ghost var a, was := fat.State(), Disk();
      err, longer := SeekTo(chain, off);
      SeekReaches(a, was, chain, longer, off, err);
      PlacedExactly(longer, err);
    }

    lemma SeekReaches(a: Alloc, was: Image, chain: seq<nat>, longer: seq<nat>, to: u32, err: int)
      requires Moved(a, was, chain, longer)
      requires if err == ERR_NONE then On(longer) && offset == to else RunsOut(longer, IdxOf(to), err)
      ensures err == ERR_NONE <==> CanHold(a, chain, to, 0)
    {
      ReachesExactly(a, chain, longer, to, 0, err);
    }

    /** After a seek the cursor's cluster is that of its offset exactly when the seek succeeded, or failed with the
        offset in the last cluster. */
    lemma PlacedExactly(longer: seq<nat>, err: int)
      requires OnChain(longer) && Buffers(longer, sect) && (if err == ERR_NONE then On(longer) else AtEnd(longer))
      ensures Placed(longer) <==> err == ERR_NONE || IdxOf(offset) + 1 == |longer|
    {
      if err == ERR_NONE {
        IsPlaced(longer);
      } else {
        LinkedIsChain(fat.geo, fat.Tab(), longer);
      }
    }

    function Base(whence: Whence): u32
      reads this
    {
      match whence
      case FromStart => 0
      case FromCursor => offset
      case FromEnd => size
    }

    // ---- reading ----

    /** The file is being read: only the tables changed, and the chain grew by no more than one cluster. */
    ghost predicate OnlyRead(a: Alloc, was: Image, chain: seq<nat>, longer: seq<nat>)
      reads `sect, `dirty, buf, fat, fat.buf
    {
      Moved(a, was, chain, longer) && |longer| <= |chain| + 1
    }

    /** Seeks to a place up to the end of the file. Only at that end the chain may have to grow. */
    method SeekWithin(ghost chain: seq<nat>, to: u32, ghost was: Image) returns (err: int, ghost longer: seq<nat>)
      requires On(chain) && to <= size <= 512 * SectCnt(fat.geo, chain)
      requires Fits(fat.geo, was) && TableStep(fat.geo, was, Disk())
      modifies `clust, `sect, `offset, `dirty, buf, fat, fat.buf
      ensures OnlyRead(old(fat.State()), was, chain, longer) && (dirty ==> old(dirty))
      ensures if err == ERR_NONE then On(longer) && offset == to && (longer == chain || to == size)
              else to == size && offset == old(offset) && RunsOut(longer, IdxOf(to), err)
    {
      ghost var a := fat.State();
      IdxWithin(fat.geo, chain, to, size);
      IsPlaced(chain);
      err, longer := SeekTo(chain, to);
      NotLonger(a, chain, fat.State(), longer);
    }

    /** Appends to `got`, which are `n` bytes from offset `o` on, the next `cnt` bytes; all of these are in the buffered
        sector. Since the disk was `was`, when the file held the bytes `b`, only the tables changed. */
    method TakeBytes(ghost chain: seq<nat>, cnt: nat, got: seq<byte>, ghost n: nat, ghost m: nat, ghost was: Image,
                     ghost b: seq<byte>, ghost o: nat)
      returns (all: seq<byte>)
      requires On(chain) && offset % 512 + cnt <= 512 && o + n == offset && m == n + cnt && IsPart(got, b, o, n)
      requires Fits(fat.geo, was) && TableStep(fat.geo, was, Disk()) && b == BytesOf(fat.geo, was, chain)
      ensures IsPart(all, b, o, m)
    {
      var idx := offset % 512;
      var end := idx + cnt;
      var part := buf[..][idx..end];
      ghost var from := offset;
      BufferedBytes(chain, was, b, from, idx, end, cnt, part);
      all := Joint(got, part, b, o, n, m, cnt, from);
    }

    /** What lies in the buffer behind the cursor are the bytes of the file there. */
    lemma BufferedBytes(chain: seq<nat>, was: Image, b: seq<byte>, off: nat, idx: nat, end: nat, cnt: nat,
                        part: seq<byte>)
      requires On(chain) && off == offset && idx == off % 512 && idx + cnt == end <= 512 && part == buf[..][idx..end]
      requires Fits(fat.geo, was) && TableStep(fat.geo, was, Disk()) && b == BytesOf(fat.geo, was, chain)
      ensures off + cnt <= |b| && part == b[off..off + cnt]
    {
      BytesHere(fat.geo, was, Disk(), chain, off, idx, end, cnt, b);
      assert Disk()[sect] == buf[..];
    }

    /** One round of a read that began at offset `o` and has taken `n` bytes, `got`; since the disk was `was` only the
        tables changed. */
    method ReadRound(ghost chain: seq<nat>, rest: nat, got: seq<byte>, n: nat, ghost was: Image, ghost b: seq<byte>,
                     ghost o: nat)
      returns (err: int, all: seq<byte>, m: nat, ghost longer: seq<nat>)
      requires On(chain) && offset == o + n < size <= |b| && 0 < rest && IsPart(got, b, o, n)
      requires Fits(fat.geo, was) && TableStep(fat.geo, was, Disk()) && b == BytesOf(fat.geo, was, chain)
      modifies `clust, `sect, `offset, `dirty, buf, fat, fat.buf
      ensures OnlyRead(old(fat.State()), was, chain, longer) && (dirty ==> old(dirty))
      ensures n < m <= n + rest && o + m <= size && IsPart(all, b, o, m)
      ensures if err == ERR_NONE then On(longer) && offset == o + m && (longer == chain || offset == size)
              else o + m == size && RunsOut(longer, IdxOf(size), err)
    {
      var cnt := Min(rest, Min(512 - offset % 512, size - offset));
      m := n + cnt;
      all := TakeBytes(chain, cnt, got, n, m, was, b, o);
      var to := offset + cnt;
      assert to == o + m;
      err, longer := SeekWithin(chain, to, was);
    }

    /** A read that began at offset `o` has come `n` bytes far; the chain is as before, unless the file ended here. */
    ghost predicate HasRead(a: Alloc, was: Image, chain: seq<nat>, longer: seq<nat>, o: nat, n: nat)
      reads this, buf, fat, fat.buf
    {
      && On(longer) && offset == o + n && OnlyRead(a, was, chain, longer) && (n > 0 ==> offset <= size)
      && ((longer == chain && fat.State() == a) || offset == size)
    }

    /** With the allocator in state `a`, the chain holds the offset `n` behind `o`, or can come to hold it. */
    ghost predicate CanHold(a: Alloc, chain: seq<nat>, o: nat, n: nat) {
      Reaches(a, chain, IdxOf(o + n))
    }

    /** How a read of `n` bytes at offset `o` ended: behind them, or, only when that is the end of the file, because the
        chain ends there and cannot grow. */
    ghost predicate ReadEnds(longer: seq<nat>, o: nat, n: nat, err: int)
      reads this, buf, fat, fat.buf
    {
      if err == ERR_NONE then On(longer) && offset == o + n else o + n == size && RunsOut(longer, IdxOf(size), err)
    }

    /** The loop of a read, and when it succeeds. */
    method ReadLoop(ghost chain: seq<nat>, len: nat, ghost a: Alloc, ghost was: Image, ghost b: seq<byte>, ghost o: nat)
      returns (err: int, got: seq<byte>, bytes: nat, ghost longer: seq<nat>)
      requires On(chain) && offset == o && size <= |b|
      requires a == fat.State() && was == Disk() && b == Bytes(chain)
      modifies `clust, `sect, `offset, `dirty, buf, fat, fat.buf
      ensures OnlyRead(a, was, chain, longer) && (dirty ==> old(dirty))
      ensures bytes == ReadLen(o, size, len) && o + bytes <= |b| && IsPart(got, b, o, bytes)
      ensures ReadEnds(longer, o, bytes, err)
      ensures err == ERR_NONE <==> CanHold(a, chain, o, bytes)
    {
      err, got, bytes, longer := ReadRounds(chain, len, a, was, b, o);
      ReadReaches(a, was, chain, longer, o, bytes, err);
    }

    lemma ReadReaches(a: Alloc, was: Image, chain: seq<nat>, longer: seq<nat>, o: nat, bytes: nat, err: int)
      requires OnlyRead(a, was, chain, longer) && ReadEnds(longer, o, bytes, err)
      ensures err == ERR_NONE <==> CanHold(a, chain, o, bytes)
    {
      ReachesExactly(a, chain, longer, o, bytes, err);
    }

    /** As `ReadRound`, in terms of the whole read. */
    method ReadOnce(ghost chain: seq<nat>, ghost cur: seq<nat>, rest: nat, got: seq<byte>, n: nat, ghost a: Alloc,
                    ghost was: Image, ghost b: seq<byte>, ghost o: nat)
      returns (err: int, all: seq<byte>, m: nat, ghost longer: seq<nat>)
      requires HasRead(a, was, chain, cur, o, n) && offset < size <= |b| && 0 < rest && IsPart(got, b, o, n)
      requires Fits(fat.geo, was) && AllClusters(fat.geo, chain) && b == BytesOf(fat.geo, was, chain)
      modifies `clust, `sect, `offset, `dirty, buf, fat, fat.buf
      ensures n < m <= n + rest && o + m <= size && IsPart(all, b, o, m) && (dirty ==> old(dirty))
      ensures if err == ERR_NONE then HasRead(a, was, chain, longer, o, m)
              else OnlyRead(a, was, chain, longer) && o + m == size && RunsOut(longer, IdxOf(size), err)
    {
      err, all, m, longer := ReadRound(chain, rest, got, n, was, b, o);
      if err == ERR_NONE && longer == chain {
        NothingGrown(a, chain, fat.State(), longer);
      }
    }

    method ReadRounds(ghost chain: seq<nat>, len: nat, ghost a: Alloc, ghost was: Image, ghost b: seq<byte>,
                      ghost o: nat)
      returns (err: int, got: seq<byte>, bytes: nat, ghost longer: seq<nat>)
      requires On(chain) && offset == o && size <= |b|
      requires a == fat.State() && was == Disk() && b == Bytes(chain)
      modifies `clust, `sect, `offset, `dirty, buf, fat, fat.buf
      ensures OnlyRead(a, was, chain, longer) && (dirty ==> old(dirty))
      ensures bytes == ReadLen(o, size, len) && o + bytes <= |b| && IsPart(got, b, o, bytes)
      ensures ReadEnds(longer, o, bytes, err)
    {
      got, bytes, longer, err := [], 0, chain, ERR_NONE;
      GrownNot(fat.State(), chain);
      var rest: nat := len;
      while rest > 0 && offset < size
        invariant err == ERR_NONE && bytes + rest == len && HasRead(a, was, chain, longer, o, bytes)
        invariant o + bytes <= |b| && IsPart(got, b, o, bytes) && (dirty ==> old(dirty))
        decreases rest
      {
        err, got, bytes, longer := ReadOnce(chain, longer, rest, got, bytes, a, was, b, o);
        rest := len - bytes;
        if err != ERR_NONE {
          ReadAll(o, size, len, bytes, rest);
          return;
        }
      }
      ReadAll(o, size, len, bytes, rest);
    }

    /** Reads up to `len` bytes from the cursor on: what there is up to the size of the file. No byte of any file
        changes, and the chain grows by at most one cluster, when the read comes to its end. It fails only there,
        exactly when the chain neither holds the offset behind the bytes nor can come to hold it. */
    method Read(ghost chain: seq<nat>, len: nat) returns (err: int, got: seq<byte>, bytes: nat, ghost longer: seq<nat>)
      requires On(chain) && size <= |Bytes(chain)|
      modifies `clust, `sect, `offset, `dirty, `accessed, buf, fat, fat.buf
      ensures OnlyRead(old(fat.State()), old(Disk()), chain, longer) && (dirty ==> old(dirty))
      ensures bytes == if !mayRead || size <= old(offset) then 0
                       else if len < size - old(offset) then len else size - old(offset)
      ensures IsPart(got, old(Bytes(chain)), old(offset), bytes)
      ensures if mayRead then
                && ReadEnds(longer, old(offset), bytes, err)
                && (err == ERR_NONE <==> CanHold(old(fat.State()), chain, old(offset), bytes))
              else err == ERR_DENIED && On(longer) && offset == old(offset)
    {
      if !mayRead {
        GrownNot(fat.State(), chain);
        return ERR_DENIED, [], 0, chain;
      }
      accessed := true;
      err, got, bytes, longer := ReadLoop(chain, len, fat.State(), Disk(), Bytes(chain), offset);
    }

    // ---- writing ----

    /** Puts bytes into the buffer, from the cursor on. */
    method PutBytes(ghost chain: seq<nat>, part: seq<byte>, ghost from: nat)
      requires On(chain) && offset == from && from % 512 + |part| <= 512
      modifies `dirty, buf
      ensures On(chain) && IsPatched(fat.geo, old(Disk()), chain, Span(from, part), Disk())
    {
      ghost var was := buf[..];
      assert Disk()[sect] == was;
      var idx := offset % 512;
      forall i | 0 <= i < |part| {
        buf[idx + i] := part[i];
      }
      assert buf[..] == Patched(was, idx, part);
      dirty := true;
    }

    /** Seeks on by at most the rest of a sector: the chain grows by one cluster at most. */
    method SeekOn(ghost chain: seq<nat>, cnt: nat, ghost to: nat) returns (err: int, ghost longer: seq<nat>)
      requires On(chain) && offset % 512 + cnt <= 512 && to == offset + cnt
      modifies `clust, `sect, `offset, `dirty, buf, fat, fat.buf
      ensures OnChain(longer) && GrownTo(old(fat.State()), chain, fat.State(), longer)
      ensures OneMore(fat.geo, chain, longer) && Buffers(longer, sect) && TableStep(fat.geo, old(Disk()), Disk())
      ensures if err == ERR_NONE then On(longer) && offset == to
              else offset == old(offset) && (to > 0xffff_ffff || RunsOut(longer, IdxOf(to), err))
    {
      ghost var a := fat.State();
      EndOfChain(fat.geo, chain, to);
      assert IdxOf(to) <= |chain|;
      err, longer := Seek(chain, cnt, FromCursor, to);
      GrowthByOne(fat.geo, a, chain, fat.State(), longer);
    }

    /** Puts the bytes `n` to `m` of the data into the buffer, at offset `from`. */
    method WritePart(ghost chain: seq<nat>, src: seq<byte>, n: nat, m: nat, ghost was: Image, ghost o: nat,
                     ghost from: nat)
      requires On(chain) && n <= m <= |src| && offset == from == o + n && from % 512 + m - n <= 512
      requires IsWritten(fat.geo, was, Disk(), chain, Span(o, src[..n]))
      modifies `dirty, buf
      ensures On(chain) && IsWritten(fat.geo, was, Disk(), chain, Span(o, src[..m]))
    {
      ghost var now := Disk();
      LinkedIsChain(fat.geo, fat.Tab(), chain);
      PutBytes(chain, src[n..m], from);
      WrittenNext(fat.geo, was, now, chain, src, n, m, o, from, Disk());
    }

    /** Writes one part of the data, the bytes `n` to `m`, and seeks behind it; the write began at offset `o` of the
        disk `was`. */
    method WriteRound(ghost chain: seq<nat>, src: seq<byte>, n: nat, ghost was: Image, ghost o: nat)
      returns (err: int, m: nat, ghost longer: seq<nat>)
      requires On(chain) && n < |src| && offset == o + n
      requires IsWritten(fat.geo, was, Disk(), chain, Span(o, src[..n]))
      modifies `clust, `sect, `offset, `dirty, buf, fat, fat.buf
      ensures n < m <= |src| && m == n + PartLen(|src| - n, old(offset))
      ensures OnChain(longer) && Buffers(longer, sect)
      ensures GrownTo(old(fat.State()), chain, fat.State(), longer) && |longer| <= |chain| + 1
      ensures IsWritten(fat.geo, was, Disk(), longer, Span(o, src[..m]))
      ensures if err == ERR_NONE then On(longer) && offset == o + m
              else offset == old(offset) && (o + m > 0xffff_ffff || RunsOut(longer, IdxOf(o + m), err))
    {
      var cnt := PartLen(|src| - n, offset);
      m := n + cnt;
      WritePart(chain, src, n, m, was, o, offset);
      ghost var now := Disk();
      err, longer := SeekOn(chain, cnt, o + m);
      WrittenStill(fat.geo, was, now, chain, Span(o, src[..m]), Disk(), longer);
    }

    /** A write that began in state `a` on the disk `was`, at offset `o`, has come `n` bytes far. */
    ghost predicate HasWritten(a: Alloc, was: Image, chain: seq<nat>, longer: seq<nat>, src: seq<byte>, o: nat, n: nat)
      reads `sect, `dirty, buf, fat, fat.buf
    {
      && OnChain(longer) && Buffers(longer, sect) && n <= |src|
      && GrownTo(a, chain, fat.State(), longer)
      && IsWritten(fat.geo, was, Disk(), longer, Span(o, src[..n]))
    }

    /** A write of `len` bytes at offset `o` came `bytes` bytes far, and the seek behind the last part of them failed:
        the offset is still at the start of that part, behind the first `kept` bytes. */
    ghost predicate EndsEarly(longer: seq<nat>, len: nat, o: nat, kept: nat, bytes: nat, why: int)
      reads `clust, `offset, fat, fat.buf
    {
      && offset == o + kept && IsPartStart(offset, kept) && kept < len && bytes == kept + PartLen(len - kept, offset)
      && (o + bytes > 0xffff_ffff || RunsOut(longer, IdxOf(o + bytes), why))
    }

    /** How the loop of a write that began in state `a` on the disk `was`, at offset `o`, ended. */
    ghost predicate LoopEnds(a: Alloc, was: Image, chain: seq<nat>, longer: seq<nat>, src: seq<byte>, o: nat,
                             bytes: nat,
                              kept: nat, why: int)
      reads `clust, `sect, `offset, `dirty, buf, fat, fat.buf
    {
      && HasWritten(a, was, chain, longer, src, o, bytes)
      && if why == ERR_NONE then bytes == |src| && On(longer) && offset == o + bytes
         else EndsEarly(longer, |src|, o, kept, bytes, why)
    }

    /** The chain can come to hold the offset `n` behind `o`, which is in the 32-bit range. */
    ghost predicate HasRoom(a: Alloc, chain: seq<nat>, o: nat, n: nat) {
      o + n <= 0xffff_ffff && CanHold(a, chain, o, n)
    }

    /** How a write ended: it succeeds exactly when, before it, the chain can come to hold the offset behind the data.
        */
    ghost predicate WriteEnds(a: Alloc, was: Image, chain: seq<nat>, longer: seq<nat>, src: seq<byte>, o: nat,
                              bytes: nat,
                              kept: nat, why: int)
      reads `clust, `sect, `offset, `dirty, buf, fat, fat.buf
    {
      && LoopEnds(a, was, chain, longer, src, o, bytes, kept, why)
      && (why == ERR_NONE <==> HasRoom(a, chain, o, |src|))
    }

    /** As `WriteRound`, in terms of the whole write. */
    method WriteOnce(ghost a: Alloc, ghost was: Image, ghost chain: seq<nat>, ghost cur: seq<nat>, src: seq<byte>,
                     ghost o: nat, n: nat)
      returns (err: int, m: nat, ghost longer: seq<nat>)
      requires On(cur) && HasWritten(a, was, chain, cur, src, o, n) && n < |src| && offset == o + n
      requires IsPartStart(offset, n)
      modifies `clust, `sect, `offset, `dirty, buf, fat, fat.buf
      ensures n < m && HasWritten(a, was, chain, longer, src, o, m)
      ensures if err == ERR_NONE then On(longer) && offset == o + m && (m < |src| ==> IsPartStart(offset, m))
              else EndsEarly(longer, |src|, o, n, m, err)
    {
      ghost var b, from := fat.State(), offset;
      err, m, longer := WriteRound(cur, src, n, was, o);
      GrownOnceMore(a, chain, b, cur, fat.State(), longer);
      if err == ERR_NONE {
        PartEnds(|src|, n, m, from, offset);
      }
    }

    /** The loop of a write. It ends early, with `why`, when a seek behind the part just written fails. */
    method WriteLoop(ghost chain: seq<nat>, src: seq<byte>, ghost a: Alloc, ghost was: Image, ghost o: nat)
      returns (bytes: nat, ghost longer: seq<nat>, ghost kept: nat, ghost why: int)
      requires On(chain) && offset == o && a == fat.State() && was == Disk()
      modifies `clust, `sect, `offset, `dirty, buf, fat, fat.buf
      ensures LoopEnds(a, was, chain, longer, src, o, bytes, kept, why)
    {
      bytes, longer, kept, why := 0, chain, 0, ERR_NONE;
      GrownNot(a, chain);
      NothingWritten(fat.geo, was, chain, o);
      while bytes < |src|
        invariant bytes <= |src| && HasWritten(a, was, chain, longer, src, o, bytes) && why == ERR_NONE
        invariant On(longer) && offset == o + bytes && (bytes < |src| ==> IsPartStart(offset, bytes))
      {
        kept := bytes;
        var err;
        err, bytes, longer := WriteOnce(a, was, chain, longer, src, o, bytes);
        if err != ERR_NONE {
          why := err;
          return;
        }
      }
    }

    lemma WriteSucceedsExactly(a: Alloc, was: Image, chain: seq<nat>, longer: seq<nat>, src: seq<byte>, o: nat,
                               bytes: nat,
                               kept: nat, why: int)
      requires LoopEnds(a, was, chain, longer, src, o, bytes, kept, why)
      ensures WriteEnds(a, was, chain, longer, src, o, bytes, kept, why)
    {
      if why == ERR_NONE {
        assert bytes == |src|;
        ReachesExactly(a, chain, longer, o, |src|, why);
      } else {
        NoRoom(a, chain, longer, o, bytes, src, why);
      }
    }

    lemma NoRoom(a: Alloc, chain: seq<nat>, longer: seq<nat>, o: nat, n: nat, src: seq<byte>, err: int)
      requires OnChain(longer) && GrownTo(a, chain, fat.State(), longer) && n <= |src|
      requires o + n > 0xffff_ffff || RunsOut(longer, IdxOf(o + n), err)
      ensures !HasRoom(a, chain, o, |src|)
    {
      if o + n <= 0xffff_ffff {
        IdxGrows(fat.geo, o + n, o + |src|);
        OutOfReach(a, chain, longer, IdxOf(o + n), IdxOf(o + |src|), err);
      }
    }

    /** A chain that has run out before its `k`-th cluster reaches no further. */
    lemma OutOfReach(a: Alloc, chain: seq<nat>, longer: seq<nat>, k: nat, k': nat, err: int)
      requires OnChain(longer) && GrownTo(a, chain, fat.State(), longer) && RunsOut(longer, k, err) && k <= k'
      ensures !Reaches(a, chain, k')
    {
      ClusterOf(fat.geo, longer, |longer| - 1);
      StuckReaches(a, chain, fat.State(), longer, k');
    }

    /** Getting to the offset `n` behind `o` succeeds exactly when the chain can come to hold that. */
    lemma ReachesExactly(a: Alloc, chain: seq<nat>, longer: seq<nat>, o: nat, n: nat, err: int)
      requires OnChain(longer) && GrownTo(a, chain, fat.State(), longer)
      requires if err == ERR_NONE then On(longer) && offset == o + n else RunsOut(longer, IdxOf(o + n), err)
      ensures err == ERR_NONE <==> CanHold(a, chain, o, n)
    {
      var k := IdxOf(o + n);
      if err == ERR_NONE {
        SectorParts(fat.geo, longer, (o + n) / 512);
        GrownReaches(a, chain, fat.State(), longer, k);
      } else {
        OutOfReach(a, chain, longer, k, k, err);
      }
    }

    /** Writes data at the cursor. When every seek behind a part succeeds, just these bytes of the file are overwritten,
        the cursor is behind them, and the size grows to that place if it was smaller. When one fails the write ends,
        and the error is lost: the outer `err` that is returned is never assigned. Then the last part counts as written,
        but the offset is still at its start, and the size need not cover it. */
    method Write(ghost chain: seq<nat>, src: seq<byte>)
      returns (err: int, bytes: nat, ghost longer: seq<nat>, ghost kept: nat, ghost why: int)
      requires On(chain)
      modifies `clust, `sect, `offset, `dirty, `size, `modified, `accessed, buf, fat, fat.buf
      ensures !mayWrite ==> err == ERR_DENIED && bytes == 0 && longer == chain && On(chain) && Disk() == old(Disk())
      ensures mayWrite ==>
                && err == ERR_NONE && modified && accessed && size == Max(old(size), offset)
                && WriteEnds(old(fat.State()), old(Disk()), chain, longer, src, old(offset), bytes, kept, why)
    {
      err, bytes, longer, kept, why := ERR_NONE, 0, chain, 0, ERR_NONE;
      if !mayWrite {
        return ERR_DENIED, 0, chain, 0, ERR_NONE;
      }
      ghost var a, was, o: nat := fat.State(), Disk(), offset;
      modified, accessed := true, true;
      bytes, longer, kept, why := WriteAll(chain, src, a, was, o);
    }

    method WriteAll(ghost chain: seq<nat>, src: seq<byte>, ghost a: Alloc, ghost was: Image, ghost o: nat)
      returns (bytes: nat, ghost longer: seq<nat>, ghost kept: nat, ghost why: int)
      requires On(chain) && offset == o && a == fat.State() && was == Disk()
      modifies `clust, `sect, `offset, `dirty, `size, buf, fat, fat.buf
      ensures WriteEnds(a, was, chain, longer, src, o, bytes, kept, why)
      ensures size == Max(old(size), offset)
    {
      bytes, longer, kept, why := WriteLoop(chain, src, a, was, o);
      WriteSucceedsExactly(a, was, chain, longer, src, o, bytes, kept, why);
      CoverOffset(a, was, chain, longer, src, o, bytes, kept, why);
    }

    /** Lets the size cover the offset. */
    method CoverOffset(ghost a: Alloc, ghost was: Image, ghost chain: seq<nat>, ghost longer: seq<nat>, src: seq<byte>,
                       ghost o: nat, ghost n: nat, ghost kept: nat, ghost why: int)
      requires WriteEnds(a, was, chain, longer, src, o, n, kept, why)
      modifies `size
      ensures WriteEnds(a, was, chain, longer, src, o, n, kept, why) && size == Max(old(size), offset)
    {
      if offset > size {
        size := offset;
      }
    }

    // ---- opening ----

    /** Sets the size to 0, if the file is to be truncated; its clusters stay. */
    method Truncate(trunc: bool, ghost chain: seq<nat>)
      requires Opened(chain)
      modifies `size, `modified
      ensures Opened(chain)
      ensures size == (if trunc then 0 else old(size)) && modified == (old(modified) || (trunc && old(size) > 0))
    {
      if size > 0 && trunc {
        size := 0;
        modified := true;
      }
    }

    /** The file was opened when its entry said `was` for its size: it is that long, or empty when it was to be
        truncated, and the cursor is at its start, or at its end when data are to be appended. Only then it may fail,
        when the chain does not reach that far and cannot grow; the handle is there all the same, at offset 0. */
    ghost predicate IsOpen(was: u32, append: bool, trunc: bool, longer: seq<nat>, err: int)
      reads this, buf, fat, fat.buf
    {
      && size == (if trunc then 0 else was) && modified == (trunc && was > 0)
      && IsAtStart(append, longer, err)
    }

    ghost predicate IsAtStart(append: bool, longer: seq<nat>, err: int)
      reads this, buf, fat, fat.buf
    {
      && !dirty
      && if err == ERR_NONE then On(longer) && offset == if append then size else 0
         else append && offset == 0 && RunsOut(longer, IdxOf(size), err)
    }

    /** Goes to the start of a file that was just opened, or to its end. */
    method GoToStart(append: bool, ghost chain: seq<nat>) returns (err: int, ghost longer: seq<nat>)
      requires Opened(chain)
      modifies `clust, `sect, `offset, `dirty, buf, fat, fat.buf
      ensures OnChain(longer) && GrownTo(old(fat.State()), chain, fat.State(), longer)
      ensures TableStep(fat.geo, old(fat.img), fat.img)
      ensures IsAtStart(append, longer, err)
      ensures err == ERR_NONE <==> !append || CanHold(old(fat.State()), chain, size, 0)
      ensures !append ==> longer == chain
    {
      ZeroClust(fat.geo);
      ghost var a := fat.State();
      err, longer := Seek(chain, 0, if append then FromEnd else FromStart, if append then size else 0);
      NotLonger(a, chain, fat.State(), longer);
    }

    // ---- bringing the device up to date ----

    /** The directory sector of the file is no sector of the file. */
    ghost predicate Filed(chain: seq<nat>)
      reads fat
    {
      fat.geo.dataSect <= dirSect < |fat.img| && !InChain(fat.geo, chain, dirSect) && dirIdx + 32 <= 512
    }

    /** The buffer is what is on the disk; it may still be marked dirty. */
    ghost predicate Settled(chain: seq<nat>)
      reads `clust, `sect, `offset, `dirty, buf, fat, fat.buf
    {
      On(chain) && Filed(chain) && fat.img[sect] == buf[..] && Disk() == fat.img
    }

    /** Writes the buffer back, dirty or not; the mark stays. */
    method WriteBack(ghost chain: seq<nat>)
      requires On(chain) && Filed(chain)
      modifies fat`img, fat`disk, fat`torn
      ensures Settled(chain) && fat.img == old(Disk()) && fat.Tab() == old(fat.Tab())
    {
      DataWrite(fat.geo, fat.img, sect, buf[..]);
      fat.WriteThrough(buf, sect);
    }

    /** Records size, times and the archive mark in the short entry of the file. */
    method Record(ghost chain: seq<nat>, time: u16, date: u16)
      requires Settled(chain)
      modifies fat`img, fat`disk, fat`torn, fat`bufDirty, fat`sect, fat.buf
      ensures Settled(chain) && fat.Tab() == old(fat.Tab())
      ensures fat.img == Recorded(old(fat.img), dirSect, dirIdx, modified, accessed, size, time, date)
    {
      if accessed || modified {
        Stamp(time, date);
      }
    }

    /** Changes the short entry of the file. */
    method Stamp(time: u16, date: u16)
      requires fat.Valid() && fat.geo.dataSect <= dirSect < |fat.img| && dirIdx + 32 <= 512 && (accessed || modified)
      modifies fat`img, fat`disk, fat`torn, fat`bufDirty, fat`sect, fat.buf
      ensures fat.Valid() && fat.sect == dirSect && fat.Tab() == old(fat.Tab())
      ensures fat.img == Recorded(old(fat.img), dirSect, dirIdx, modified, accessed, size, time, date)
    {
      fat.UpdateBuf(dirSect);
      var r := Stamped(fat.buf[..][dirIdx..dirIdx + 32], modified, accessed, size, time, date);
      DataWrite(fat.geo, fat.img, dirSect, Patched(fat.img[dirSect], dirIdx, r));
      fat.StoreBytes(dirIdx, r);
    }

    /** Brings the device up to date with the file: its bytes, and its entry. */
    method Sync(ghost chain: seq<nat>, time: u16, date: u16) returns (err: int)
      requires On(chain) && Filed(chain)
      modifies `modified, `accessed, fat`img, fat`disk, fat`torn, fat`bufDirty, fat`sect, fat`infoDirty, fat.buf
      ensures err == ERR_NONE && Settled(chain) && fat.disk == fat.img && !fat.bufDirty && !fat.infoDirty
      ensures fat.Tab() == old(fat.Tab()) && !modified && !accessed
      ensures TableStep(fat.geo, Recorded(old(Disk()), dirSect, dirIdx, old(modified), old(accessed), size, time, date),
                        fat.disk)
    {
      err := ERR_NONE;
      WriteBack(chain);
      Record(chain, time, date);
      FlushAll(chain);
    }

    /** Flushes the volume; then there is nothing left to record. */
    method FlushAll(ghost chain: seq<nat>)
      requires Settled(chain)
      modifies `modified, `accessed, fat`img, fat`disk, fat`torn, fat`bufDirty, fat`sect, fat`infoDirty, fat.buf
      ensures !modified && !accessed
      ensures Settled(chain) && fat.disk == fat.img && !fat.bufDirty && !fat.infoDirty
      ensures fat.Tab() == old(fat.Tab()) && TableStep(fat.geo, old(fat.img), fat.img)
    {
      FlushVolume(chain);
      modified, accessed := false, false;
    }

    method FlushVolume(ghost chain: seq<nat>)
      requires Settled(chain)
      modifies fat`img, fat`disk, fat`torn, fat`bufDirty, fat`sect, fat`infoDirty, fat.buf
      ensures Settled(chain) && fat.disk == fat.img && !fat.bufDirty && !fat.infoDirty
      ensures fat.Tab() == old(fat.Tab()) && TableStep(fat.geo, old(fat.img), fat.img)
    {
      ghost var img, b := fat.img, buf[..];
      fat.SyncFs();
      StillSettled(chain, img, b);
    }

    lemma StillSettled(chain: seq<nat>, img: Image, b: seq<byte>)
      requires OnChain(chain) && Filed(chain) && offset / 512 < SectCnt(fat.geo, chain)
      requires InClust(chain, ClustIdx(fat.geo, offset / 512)) && sect == SectAt(fat.geo, chain, offset / 512)
      requires Fits(fat.geo, img) && TableStep(fat.geo, img, fat.img) && sect < |img| && img[sect] == b && buf[..] == b
      ensures Settled(chain)
    {
      SectAtCluster(fat.geo, chain, offset / 512);
      RestSame(fat.geo, fat.img, img);
      DataIsOutside(fat.geo, sect);
    }
  }

  /** After a sync the device holds the bytes of the file, and its entry with what there is to record. */
  lemma SyncedFile(g: Geometry, was: Image, s: nat, at: nat, modified: bool, accessed: bool, size: u32, time: u16,
                   date: u16, disk: Image, chain: seq<nat>)
    requires Fits(g, was) && Fits(g, disk) && AllClusters(g, chain)
    requires g.dataSect <= s < |was| && !InChain(g, chain, s) && at + 32 <= 512
    requires TableStep(g, Recorded(was, s, at, modified, accessed, size, time, date), disk)
    ensures BytesOf(g, disk, chain) == BytesOf(g, was, chain)
    ensures var r := Stamped(was[s][at..at + 32], modified, accessed, size, time, date);
            disk[s][at..at + 32] == if accessed || modified then r else was[s][at..at + 32]
  {
    var mid := Recorded(was, s, at, modified, accessed, size, time, date);
    BytesAfterTableStep(g, mid, disk, chain);
    forall k | 0 <= k < SectCnt(g, chain)
      ensures mid[SectAt(g, chain, k)] == was[SectAt(g, chain, k)]
    {
      SectAtCluster(g, chain, k);
    }
    BytesUpToSame(g, was, mid, chain, SectCnt(g, chain));
    RestSame(g, disk, mid);
    DataIsOutside(g, s);
  }

  /** Opens the file whose short entry is under the cursor of a directory. */
  method Open(dir: Dir, mayRead: bool, mayWrite: bool, append: bool, trunc: bool,
              ghost dirChain: seq<nat>, ghost k: nat, ghost chain: seq<nat>)
    returns (err: int, file: File, ghost longer: seq<nat>)
    requires dir.On(dirChain) && dir.At(dirChain, k)
    requires dir.fat.sect == dir.sect && dir.fat.buf[..] == dir.fat.img[dir.sect]
    requires IsChain(dir.fat.Tab(), chain) && chain[0] == SfnCluster(dir.Slots(dirChain)[k]) && Apart(chain, dirChain)
    modifies dir.fat, dir.fat.buf
    ensures fresh(file) && fresh(file.buf) && file.fat == dir.fat && file.OnChain(longer)
    ensures file.dirSect == dir.sect && file.dirIdx == dir.idx && file.mayRead == mayRead && file.mayWrite == mayWrite
    ensures GrownTo(old(dir.fat.State()), chain, file.fat.State(), longer)
    ensures TableStep(dir.fat.geo, old(dir.fat.img), file.fat.img)
    ensures file.IsOpen(SfnSize(old(dir.Slots(dirChain))[k]), append, trunc, longer, err)
    ensures err == ERR_NONE <==> !append || file.CanHold(old(dir.fat.State()), chain, file.size, 0)
    ensures !append ==> longer == chain
  {
    var s := dir.Under(dirChain, k);
    NotInChain(dir, dirChain, k, chain);
    err, file, longer := OpenSlot(dir.fat, dir.sect, dir.idx, s, mayRead, mayWrite, append, trunc, chain);
  }

  /** Opens the file of a short entry, which lies at `at` in sector `sect`. */
  method OpenSlot(fat: Fat, sect: nat, at: nat, s: Slot, mayRead: bool, mayWrite: bool, append: bool, trunc: bool,
                  ghost chain: seq<nat>)
    returns (err: int, file: File, ghost longer: seq<nat>)
    requires fat.Valid() && IsChain(fat.Tab(), chain) && chain[0] == SfnCluster(s) && !InChain(fat.geo, chain, fat.sect)
    modifies fat, fat.buf
    ensures fresh(file) && fresh(file.buf) && file.fat == fat && file.OnChain(longer)
    ensures file.dirSect == sect && file.dirIdx == at && file.mayRead == mayRead && file.mayWrite == mayWrite
    ensures GrownTo(old(fat.State()), chain, file.fat.State(), longer)
    ensures TableStep(fat.geo, old(fat.img), file.fat.img)
    ensures file.IsOpen(SfnSize(s), append, trunc, longer, err)
    ensures err == ERR_NONE <==> !append || file.CanHold(old(fat.State()), chain, file.size, 0)
    ensures !append ==> longer == chain
  {
    file := NewFile(fat, sect, at, s, mayRead, mayWrite, trunc, chain);
    err, longer := file.GoToStart(append, chain);
  }

  /** The handle of a file, before its first seek. */
  method NewFile(fat: Fat, sect: nat, at: nat, s: Slot, mayRead: bool, mayWrite: bool, trunc: bool,
                 ghost chain: seq<nat>)
    returns (file: File)
    requires fat.Valid() && IsChain(fat.Tab(), chain) && chain[0] == SfnCluster(s) && !InChain(fat.geo, chain, fat.sect)
    ensures fresh(file) && fresh(file.buf) && file.fat == fat && file.Opened(chain)
    ensures file.dirSect == sect && file.dirIdx == at && file.mayRead == mayRead && file.mayWrite == mayWrite
    ensures file.size == (if trunc then 0 else SfnSize(s)) && file.modified == (trunc && SfnSize(s) > 0)
  {
    file := new File(fat, sect, at, SfnCluster(s), SfnSize(s), mayRead, mayWrite, chain);
    file.Truncate(trunc, chain);
  }

  /** The sector of a directory slot is in no other chain. */
  lemma NotInChain(dir: Dir, dirChain: seq<nat>, k: nat, chain: seq<nat>)
    requires dir.On(dirChain) && dir.At(dirChain, k) && Apart(chain, dirChain)
    ensures !InChain(dir.fat.geo, chain, dir.sect)
  {
    CursorIs(dir.fat.geo, dirChain, k);
    SectAtCluster(dir.fat.geo, dirChain, k / 16);
  }

  function SetArchive(attr: byte): byte {
    ArchiveFits(attr);
    if Bit(attr, 5) then attr else attr + 0x20
  }

  lemma ArchiveFits(attr: byte)
    ensures !Bit(attr, 5) ==> attr + 0x20 < 0x100
  {
    assert Shr(attr, 1) == attr / 2;
    assert Shr(attr, 2) == attr / 4;
    assert Shr(attr, 3) == attr / 8;
    assert Shr(attr, 4) == attr / 16;
    assert Shr(attr, 5) == attr / 32;
  }

  /** A short entry with the changes a sync makes to it. */
  function Stamped(s: Slot, modified: bool, accessed: bool, size: u32, time: u16, date: u16): Slot {
    var t := if accessed then Patched(s, 18, Spell(date, 2)) else s;
    if modified then
      Patched(Patched(Patched(Patched(t, 11, [SetArchive(t[11])]), 28, Spell(size, 4)), 24, Spell(date, 2)), 22,
      Spell(time, 2)) else t
  }

  /** The disk after a sync put its changes into the short entry at byte `at` of sector `s`. */
  function Recorded(img: Image, s: nat, at: nat, modified: bool, accessed: bool, size: u32, time: u16,
                    date: u16): (r: Image)
    requires s < |img| && at + 32 <= 512
    ensures |r| == |img|
  {
    if !accessed && !modified then img
    else img[s := Patched(img[s], at, Stamped(img[s][at..at + 32], modified, accessed, size, time, date))]
  }

  lemma SliceKept(s: seq<byte>, at: nat, f: seq<byte>, lo: nat, hi: nat)
    requires at + |f| <= |s| && lo <= hi <= |s| && (hi <= at || at + |f| <= lo)
    ensures Patched(s, at, f)[lo..hi] == s[lo..hi]
  {
  }

  /** The parts of a short entry that a sync leaves alone: the name, and the two halves of the cluster. */
  ghost predicate SameFile(s: Slot, r: Slot) {
    r[0..11] == s[0..11] && r[20..22] == s[20..22] && r[26..28] == s[26..28]
  }

  lemma PatchedSameFile(s: Slot, at: nat, f: seq<byte>)
    requires at + |f| <= 32 && (11 <= at <= at + |f| <= 20 || 22 <= at <= at + |f| <= 26 || 28 <= at)
    ensures SameFile(s, Patched(s, at, f))
  {
    SliceKept(s, at, f, 0, 11);
    SliceKept(s, at, f, 20, 22);
    SliceKept(s, at, f, 26, 28);
  }

  /** A stamped entry names the same file, and has its new size if it was modified. */
  lemma StampedReads(s: Slot, modified: bool, accessed: bool, size: u32, time: u16, date: u16)
    ensures var r := Stamped(s, modified, accessed, size, time, date);
            && SameFile(s, r) && SfnCluster(r) == SfnCluster(s)
            && SfnSize(r) == (if modified then size else SfnSize(s))
            && r[11] == (if modified then SetArchive(s[11]) else s[11])
  {
    var t: Slot := if accessed then Patched(s, 18, Spell(date, 2)) else s;
    if accessed {
      PatchedSameFile(s, 18, Spell(date, 2));
      SliceKept(s, 18, Spell(date, 2), 28, 32);
    }
    if modified {
      ModifiedReads(t, size, time, date);
    }
  }

  lemma ModifiedReads(t: Slot, size: u32, time: u16, date: u16)
    ensures var r: Slot := Stamped(t, true, false, size, time, date);
            SameFile(t, r) && r[28..32] == Spell(size, 4) && SfnSize(r) == size && r[11] == SetArchive(t[11])
  {
    var a: Slot := Patched(t, 11, [SetArchive(t[11])]);
    var b: Slot := Patched(a, 28, Spell(size, 4));
    var c: Slot := Patched(b, 24, Spell(date, 2));
    PatchedSameFile(t, 11, [SetArchive(t[11])]);
    PatchedSameFile(a, 28, Spell(size, 4));
    PatchedSameFile(b, 24, Spell(date, 2));
    PatchedSameFile(c, 22, Spell(time, 2));
    SliceKept(b, 24, Spell(date, 2), 28, 32);
    SliceKept(c, 22, Spell(time, 2), 28, 32);
    assert b[28..32] == Spell(size, 4);
    SpellWord(size);
  }

  /** How many of `rest` bytes are written at once, at `offset`: no more than up to the end of its sector. */
  function PartLen(rest: nat, offset: nat): nat { Min(rest, 512 - offset % 512) }

  /** A part begins where the write does, or at the start of a sector. */
  predicate IsPartStart(offset: nat, n: nat) { n == 0 || offset % 512 == 0 }

  /** A part that is not the last one ends at the end of a sector. */
  lemma PartEnds(len: nat, n: nat, m: nat, offset: nat, end: nat)
    requires n <= len && m == n + PartLen(len - n, offset) && end == offset + (m - n)
    ensures m < len ==> IsPartStart(end, m)
  {
    assert m < len ==> end == 512 * (offset / 512 + 1);
  }

  /** How many of `len` bytes there are to read. */
  function ReadLen(offset: nat, size: nat, len: nat): nat {
    if size <= offset then 0 else Min(len, size - offset)
  }

  /** A read that has come to the size of the file, or to its own length, has read all it should. */
  lemma ReadAll(o: nat, size: nat, len: nat, bytes: nat, rest: nat)
    requires bytes + rest == len && (bytes > 0 ==> o + bytes <= size) && (rest == 0 || size <= o + bytes)
    ensures bytes == ReadLen(o, size, len)
  {
  }

  /** `s` are the `n` bytes of `b` from `o` on. */
  ghost predicate IsPart(s: seq<byte>, b: seq<byte>, o: nat, n: nat)
    decreases n
  {
    && |s| == n && o + n <= |b|
    && (n > 0 ==> s[n - 1] == b[o + n - 1] && IsPart(s[..n - 1], b, o, n - 1))
  }

  lemma {:induction false} PartIs(s: seq<byte>, b: seq<byte>, o: nat, n: nat)
    ensures IsPart(s, b, o, n) <==> o + n <= |b| && s == b[o..o + n]
    decreases n
  {
    if n > 0 && |s| == n && o + n <= |b| {
      PartIs(s[..n - 1], b, o, n - 1);
      assert s == s[..n - 1] + [s[n - 1]];
      assert b[o..o + n] == b[o..o + n - 1] + [b[o + n - 1]];
    }
  }

  /** Appends the next part of `b`. */
  method Joint(got: seq<byte>, part: seq<byte>, ghost b: seq<byte>, ghost o: nat, ghost n: nat, ghost m: nat,
               ghost k: nat, ghost from: nat)
    returns (all: seq<byte>)
    requires from == o + n && m == n + k && from + k <= |b| && IsPart(got, b, o, n) && part == b[from..from + k]
    ensures IsPart(all, b, o, m)
  {
    PartIs(got, b, o, n);
    all := got + part;
    ghost var to := o + m;
    assert b[o..from] + b[from..to] == b[o..to];
    PartIs(all, b, o, m);
  }

  /** A chain that grew by at most one cluster. */
  lemma GrowthByOne(g: Geometry, a: Alloc, chain: seq<nat>, b: Alloc, longer: seq<nat>)
    requires Ready(a) && |a.table| == g.ClustCnt() && chain != [] && Linked(a.table, chain, 0)
    requires GrownTo(a, chain, b, longer) && |longer| <= |chain| + 1
    ensures OneMore(g, chain, longer)
  {
    LinkedIsChain(g, a.table, chain);
    GrownGrewOnly(a, chain, b, longer);
    NotLonger(a, chain, b, longer);
    if |longer| == |chain| + 1 {
      var c := longer[|chain|];
      assert longer == longer[..|chain|] + [c];
      assert a.table[longer[|chain|..][0]] == FREE;
      FreeNotInChain(a.table, chain, c);
      LinkedIsChain(g, b.table, longer);
      ClusterOf(g, longer, |chain|);
    }
  }

  /** The bytes at offset `off` are those at `idx` of its sector. */
  lemma BytesHere(g: Geometry, was: Image, img: Image, chain: seq<nat>, off: nat, idx: nat, end: nat, cnt: nat,
                  b: seq<byte>)
    requires Fits(g, was) && Fits(g, img) && TableStep(g, was, img) && AllClusters(g, chain)
    requires off / 512 < SectCnt(g, chain) && idx == off % 512 && idx + cnt == end <= 512 && b == BytesOf(g, was, chain)
    ensures var s := SectAt(g, chain, off / 512);
            s < |img| && off + cnt <= |b| && img[s][idx..end] == b[off..off + cnt]
  {
    BytesAfterTableStep(g, was, img, chain);
    BytesAt(g, img, chain, off, cnt);
  }

  /** A place up to the end of the file is in its chain, or right behind it. */
  lemma IdxWithin(g: Geometry, chain: seq<nat>, to: nat, size: nat)
    requires to <= size <= 512 * SectCnt(g, chain)
    ensures ClustIdx(g, to / 512) <= |chain| && (to < size ==> ClustIdx(g, to / 512) < |chain|)
  {
    EndOfChain(g, chain, to);
  }

  lemma NotLonger(a: Alloc, chain: seq<nat>, b: Alloc, longer: seq<nat>)
    requires GrownTo(a, chain, b, longer)
    ensures |chain| <= |longer| && (|longer| == |chain| ==> longer == chain)
  {
    if |longer| <= |chain| {
      NothingGrown(a, chain, b, longer);
    }
  }

  /** A cached table sector is in no chain. */
  lemma CachedTable(g: Geometry, chain: seq<nat>, s: nat)
    requires g.InTable(g.fatSect, s)
    ensures s < g.dataSect && !InChain(g, chain, s)
  {
  }

  lemma ZeroClust(g: Geometry)
    ensures ClustIdx(g, 0) == 0
  {
    ShlAdds(0, 0, g.shift);
    ShiftPartsUnique(0, 0, g.shift);
  }

  lemma IdxGrows(g: Geometry, o: nat, p: nat)
    requires o <= p
    ensures ClustIdx(g, o / 512) <= ClustIdx(g, p / 512)
  {
    OffsetClust(g, o);
    OffsetClust(g, p);
    var d := ClustSize(g);
    DivGrows(o, p, d, o / d, p / d);
  }

  lemma DivGrows(o: nat, p: nat, d: nat, x: nat, y: nat)
    requires o <= p && d > 0 && x == o / d && y == p / d
    ensures x <= y
  {
    DivParts(o, d, x);
    DivParts(p, d, y);
    MulLess(d, x, y + 1);
  }

  lemma DivParts(o: nat, d: nat, x: nat)
    requires d > 0 && x == o / d
    ensures d * x <= o < d * (x + 1)
  {
    assert o == d * x + o % d;
  }

  lemma MulLess(d: nat, x: nat, y: nat)
    requires d * x < d * y
    ensures x < y
  {
  }

  lemma WithinCluster(g: Geometry, n: nat)
    ensures LowBits(n, g.shift) < Spc(g)
  {
    ShiftParts(n, g.shift);
  }

  /** An offset in one of the clusters of a chain is in one of its sectors. */
  lemma SectorReached(g: Geometry, chain: seq<nat>, off: nat)
    requires ClustIdx(g, off / 512) < |chain|
    ensures off / 512 < SectCnt(g, chain)
  {
    ShiftParts(off / 512, g.shift);
    ShlMonotone(ClustIdx(g, off / 512), |chain|, g.shift);
  }
}
