/** Where the clusters of a chain lie on the disk, and what a chain holds as a list of slots. */
module Sectors {
  import opened Bytes
  import opened Table
  import opened Chains
  import opened Names

  /** Sectors in a cluster. */
  function Spc(g: Geometry): (n: nat)
    ensures n >= 1
  {
    ShlAdds(1, 0, g.shift);
    Shl(1, g.shift)
  }

  predicate IsCluster(g: Geometry, c: nat) { 2 <= c < g.ClustCnt() }

  /** The first sector of a cluster. Its type says that the 32-bit arithmetic does not wrap around. */
  function ClustToSect(g: Geometry, c: nat): (s: u32)
    requires IsCluster(g, c)
    ensures g.dataSect <= s && s + Spc(g) <= g.sectCnt
  {
    ShlMonotone(c - 2, g.ClustCnt() - 2, g.shift);
    Shl(c - 2, g.shift) + g.dataSect
  }

  function SectToClust(g: Geometry, s: nat): nat
    requires g.dataSect <= s
  {
    Shr(s - g.dataSect, g.shift) + 2
  }

  lemma SectToClustInverts(g: Geometry, c: nat, j: nat)
    requires IsCluster(g, c) && j < Spc(g)
    ensures SectToClust(g, ClustToSect(g, c) + j) == c
    ensures LowBits(ClustToSect(g, c) + j, g.shift) == j
  {
    ShiftPartsUnique(c - 2, j, g.shift);
    ShiftParts(g.dataSect, g.shift);
    ShlAdds(c - 2, Shr(g.dataSect, g.shift), g.shift);
    ShiftPartsUnique(c - 2 + Shr(g.dataSect, g.shift), j, g.shift);
  }

  /** The sector behind a cluster is the one the sector mask takes for a cluster's first. */
  lemma BehindCluster(g: Geometry, c: nat)
    requires IsCluster(g, c)
    ensures LowBits(ClustToSect(g, c) + Spc(g), g.shift) == 0
  {
    ShiftParts(g.dataSect, g.shift);
    ShlAdds(c - 2, Shr(g.dataSect, g.shift), g.shift);
    ShlAdds(c - 2 + Shr(g.dataSect, g.shift), 1, g.shift);
    ShiftPartsUnique(c - 2 + Shr(g.dataSect, g.shift) + 1, 0, g.shift);
  }

  lemma DataIsOutside(g: Geometry, s: nat)
    requires g.dataSect <= s
    ensures g.Outside(s)
  {
  }

  // ---- the sectors of a chain ----

  ghost predicate ClustersFrom(g: Geometry, chain: seq<nat>, i: nat)
    requires i <= |chain|
    decreases |chain| - i
  {
    i == |chain| || (IsCluster(g, chain[i]) && ClustersFrom(g, chain, i + 1))
  }

  ghost predicate AllClusters(g: Geometry, chain: seq<nat>) { ClustersFrom(g, chain, 0) }

  lemma {:induction false} ClustersFromAre(g: Geometry, chain: seq<nat>, i: nat)
    requires i <= |chain|
    ensures ClustersFrom(g, chain, i) <==> forall j :: i <= j < |chain| ==> IsCluster(g, chain[j])
    decreases |chain| - i
  {
    if i == |chain| {
    } else {
      ClustersFromAre(g, chain, i + 1);
    }
  }

  lemma ClusterOf(g: Geometry, chain: seq<nat>, i: nat)
    requires AllClusters(g, chain) && i < |chain|
    ensures IsCluster(g, chain[i])
  {
    ClustersFromAre(g, chain, 0);
  }

  lemma LongerClusters(g: Geometry, chain: seq<nat>, c: nat)
    ensures AllClusters(g, chain + [c]) <==> AllClusters(g, chain) && IsCluster(g, c)
  {
    ClustersFromAre(g, chain, 0);
    ClustersFromAre(g, chain + [c], 0);
    if AllClusters(g, chain + [c]) {
      assert (chain + [c])[|chain|] == c;
      forall i | 0 <= i < |chain|
        ensures IsCluster(g, chain[i])
      {
        assert (chain + [c])[i] == chain[i];
      }
    }
  }

  /** `IsChain` link by link. */
  ghost predicate Linked(t: Table, s: seq<nat>, i: nat)
    requires i < |s|
    decreases |s| - i
  {
    && 2 <= s[i] < |t|
    && if i + 1 == |s| then t[s[i]] >= EOC_MIN else t[s[i]] == s[i + 1] && Linked(t, s, i + 1)
  }

  lemma {:induction false} LinkedFrom(t: Table, s: seq<nat>, i: nat)
    requires i < |s|
    ensures Linked(t, s, i) <==>
            && (forall j :: i <= j < |s| ==> 2 <= s[j] < |t|)
            && (forall j :: i <= j < |s| - 1 ==> t[s[j]] == s[j + 1])
            && t[s[|s| - 1]] >= EOC_MIN
    decreases |s| - i
  {
    if i + 1 == |s| {
    } else {
      LinkedFrom(t, s, i + 1);
    }
  }

  lemma LinkedIsChain(g: Geometry, t: Table, s: seq<nat>)
    requires s != [] && |t| == g.ClustCnt()
    ensures Linked(t, s, 0) <==> IsChain(t, s)
    ensures IsChain(t, s) ==> AllClusters(g, s) && Distinct(s)
  {
    LinkedFrom(t, s, 0);
    if IsChain(t, s) {
      ChainIsDistinct(g, t, s);
    }
  }

  ghost predicate Distinct(chain: seq<nat>) {
    forall i, j :: 0 <= i < j < |chain| ==> chain[i] != chain[j]
  }

  lemma ChainIsDistinct(g: Geometry, t: Table, chain: seq<nat>)
    requires |t| == g.ClustCnt() && IsChain(t, chain)
    ensures AllClusters(g, chain) && Distinct(chain)
  {
    ClustersFromAre(g, chain, 0);
    forall i, j | 0 <= i < j < |chain|
      ensures chain[i] != chain[j]
    {
      ChainIsAcyclic(t, chain, i, j);
    }
  }

  /** The number of sectors of a chain. */
  function SectCnt(g: Geometry, chain: seq<nat>): nat { Shl(|chain|, g.shift) }

  /** The place in the chain of the cluster that holds its `n`-th sector. */
  function ClustIdx(g: Geometry, n: nat): nat { Shr(n, g.shift) }

  lemma SectorParts(g: Geometry, chain: seq<nat>, n: nat)
    requires n < SectCnt(g, chain)
    ensures ClustIdx(g, n) < |chain| && LowBits(n, g.shift) < Spc(g)
    ensures n == Shl(ClustIdx(g, n), g.shift) + LowBits(n, g.shift)
  {
    ShiftParts(n, g.shift);
    if ClustIdx(g, n) >= |chain| {
      ShlAdds(|chain|, ClustIdx(g, n) - |chain|, g.shift);
    }
  }

  /** The `n`-th sector of a chain. */
  function SectAt(g: Geometry, chain: seq<nat>, n: nat): (s: u32)
    requires AllClusters(g, chain) && n < SectCnt(g, chain)
    ensures g.dataSect <= s < g.sectCnt
  {
    SectorParts(g, chain, n);
    ClusterOf(g, chain, ClustIdx(g, n));
    ClustToSect(g, chain[ClustIdx(g, n)]) + LowBits(n, g.shift)
  }

  /** From a sector of a chain the cluster it lies in can be told. */
  lemma SectAtCluster(g: Geometry, chain: seq<nat>, n: nat)
    requires AllClusters(g, chain) && n < SectCnt(g, chain)
    ensures ClustIdx(g, n) < |chain|
    ensures SectToClust(g, SectAt(g, chain, n)) == chain[ClustIdx(g, n)]
    ensures LowBits(SectAt(g, chain, n), g.shift) == LowBits(n, g.shift)
  {
    SectorParts(g, chain, n);
    ClusterOf(g, chain, ClustIdx(g, n));
    SectToClustInverts(g, chain[ClustIdx(g, n)], LowBits(n, g.shift));
  }

  /** Different places in a chain are different sectors. */
  lemma SectAtInjective(g: Geometry, chain: seq<nat>, m: nat, n: nat)
    requires AllClusters(g, chain) && Distinct(chain) && m < SectCnt(g, chain) && n < SectCnt(g, chain)
    requires SectAt(g, chain, m) == SectAt(g, chain, n)
    ensures m == n
  {
    SectAtCluster(g, chain, m);
    SectAtCluster(g, chain, n);
    SectorParts(g, chain, m);
    SectorParts(g, chain, n);
  }

  /** The next sector of a chain: while the sector mask does not say that a cluster ended, it is the next sector of
      the disk, and then it is the first sector of the next cluster, if there is one. */
  lemma NextSector(g: Geometry, chain: seq<nat>, n: nat)
    requires AllClusters(g, chain) && n < SectCnt(g, chain)
    ensures var i := ClustIdx(g, n);
            && i < |chain| && IsCluster(g, chain[i])
            && if LowBits(SectAt(g, chain, n) + 1, g.shift) != 0 then
                 && n + 1 < SectCnt(g, chain)
                 && SectAt(g, chain, n + 1) == SectAt(g, chain, n) + 1 && ClustIdx(g, n + 1) == i
               else if i + 1 < |chain| then
                 && n + 1 < SectCnt(g, chain) && ClustIdx(g, n + 1) == i + 1 && IsCluster(g, chain[i + 1])
                 && SectAt(g, chain, n + 1) == ClustToSect(g, chain[i + 1])
               else n + 1 == SectCnt(g, chain)
  {
    SectorParts(g, chain, n);
    var i, j := ClustIdx(g, n), LowBits(n, g.shift);
    var c := chain[i];
    ClusterOf(g, chain, i);
    if i + 1 < |chain| {
      ClusterOf(g, chain, i + 1);
    }
    ShlAdds(i, 1, g.shift);
    if j + 1 < Spc(g) {
      SectToClustInverts(g, c, j + 1);
      ShiftPartsUnique(i, j + 1, g.shift);
      ShlMonotone(i, |chain|, g.shift);
    } else {
      BehindCluster(g, c);
      if i + 1 < |chain| {
        FirstSector(g, chain, i + 1);
      }
    }
  }

  /** The first sector of a chain's `i`-th cluster. */
  lemma FirstSector(g: Geometry, chain: seq<nat>, i: nat)
    requires AllClusters(g, chain) && i < |chain|
    ensures IsCluster(g, chain[i])
    ensures var n := Shl(i, g.shift);
            n < SectCnt(g, chain) && ClustIdx(g, n) == i && SectAt(g, chain, n) == ClustToSect(g, chain[i])
  {
    ClusterOf(g, chain, i);
    ShlMonotone(i, |chain|, g.shift);
    ShiftPartsUnique(i, 0, g.shift);
  }

  /** A chain that grows keeps its sectors in their places. */
  lemma SectAtOfLonger(g: Geometry, chain: seq<nat>, c: nat, n: nat)
    requires AllClusters(g, chain) && IsCluster(g, c) && n < SectCnt(g, chain)
    ensures AllClusters(g, chain + [c])
    ensures SectCnt(g, chain + [c]) == SectCnt(g, chain) + Spc(g)
    ensures SectAt(g, chain + [c], n) == SectAt(g, chain, n)
  {
    LongerClusters(g, chain, c);
    ShlAdds(|chain|, 1, g.shift);
    SectorParts(g, chain, n);
  }

  /** The last `Spc(g)` sectors of a longer chain are those of its last cluster. */
  lemma SectAtOfLast(g: Geometry, chain: seq<nat>, c: nat, j: nat)
    requires AllClusters(g, chain) && IsCluster(g, c) && j < Spc(g)
    ensures AllClusters(g, chain + [c])
    ensures SectCnt(g, chain + [c]) == SectCnt(g, chain) + Spc(g)
    ensures SectAt(g, chain + [c], SectCnt(g, chain) + j) == ClustToSect(g, c) + j
  {
    LongerClusters(g, chain, c);
    ShlAdds(|chain|, 1, g.shift);
    ShiftPartsUnique(|chain|, j, g.shift);
  }

  // ---- a chain as slots ----

  function SlotIn(s: Sector, e: nat): Slot
    requires e < 16
  {
    s[32 * e..32 * e + 32]
  }

  function SlotCnt(g: Geometry, chain: seq<nat>): nat { 16 * SectCnt(g, chain) }

  function SlotAt(g: Geometry, img: Image, chain: seq<nat>, k: nat): Slot
    requires Fits(g, img) && AllClusters(g, chain) && k < SlotCnt(g, chain)
  {
    SlotIn(img[SectAt(g, chain, k / 16)], k % 16)
  }

  function SlotsUpTo(g: Geometry, img: Image, chain: seq<nat>, n: nat): (s: seq<Slot>)
    requires Fits(g, img) && AllClusters(g, chain) && n <= SlotCnt(g, chain)
    ensures |s| == n
  {
    if n == 0 then [] else SlotsUpTo(g, img, chain, n - 1) + [SlotAt(g, img, chain, n - 1)]
  }

  /** The slots of a directory, in chain order. */
  function SlotsOf(g: Geometry, img: Image, chain: seq<nat>): (s: seq<Slot>)
    requires Fits(g, img) && AllClusters(g, chain)
    ensures |s| == SlotCnt(g, chain)
  {
    SlotsUpTo(g, img, chain, SlotCnt(g, chain))
  }

  lemma {:induction false} SlotUpTo(g: Geometry, img: Image, chain: seq<nat>, n: nat, k: nat)
    requires Fits(g, img) && AllClusters(g, chain) && k < n <= SlotCnt(g, chain)
    ensures SlotsUpTo(g, img, chain, n)[k] == SlotAt(g, img, chain, k)
  {
    if k == n - 1 {
    } else {
      SlotUpTo(g, img, chain, n - 1, k);
    }
  }

  lemma SlotOf(g: Geometry, img: Image, chain: seq<nat>, k: nat)
    requires Fits(g, img) && AllClusters(g, chain) && k < SlotCnt(g, chain)
    ensures SlotsOf(g, img, chain)[k] == SlotAt(g, img, chain, k)
  {
    SlotUpTo(g, img, chain, SlotCnt(g, chain), k);
  }

  // ---- the cursor over a directory ----

  /** The fields of a directory handle that say which slot it is at. */
  datatype Cursor = Cursor(clust: nat, sect: nat, idx: nat)

  function CursorAt(g: Geometry, chain: seq<nat>, k: nat): Cursor
    requires AllClusters(g, chain) && k < SlotCnt(g, chain)
  {
    SectorParts(g, chain, k / 16);
    Cursor(chain[ClustIdx(g, k / 16)], SectAt(g, chain, k / 16), 32 * (k % 16))
  }

  function CursorsUpTo(g: Geometry, chain: seq<nat>, n: nat): (s: seq<Cursor>)
    requires AllClusters(g, chain) && n <= SlotCnt(g, chain)
    ensures |s| == n
  {
    if n == 0 then [] else CursorsUpTo(g, chain, n - 1) + [CursorAt(g, chain, n - 1)]
  }

  /** The places a cursor takes on its way through a directory. */
  function Cursors(g: Geometry, chain: seq<nat>): (s: seq<Cursor>)
    requires AllClusters(g, chain)
    ensures |s| == SlotCnt(g, chain)
  {
    CursorsUpTo(g, chain, SlotCnt(g, chain))
  }

  lemma {:induction false} CursorUpTo(g: Geometry, chain: seq<nat>, n: nat, k: nat)
    requires AllClusters(g, chain) && k < n <= SlotCnt(g, chain)
    ensures CursorsUpTo(g, chain, n)[k] == CursorAt(g, chain, k)
  {
    if k == n - 1 {
    } else {
      CursorUpTo(g, chain, n - 1, k);
    }
  }

  lemma CursorIs(g: Geometry, chain: seq<nat>, k: nat)
    requires AllClusters(g, chain) && k < SlotCnt(g, chain)
    ensures Cursors(g, chain)[k] == CursorAt(g, chain, k)
  {
    CursorUpTo(g, chain, SlotCnt(g, chain), k);
  }

  /** A cursor is at each slot once only, and its sector alone tells its cluster. */
  lemma CursorsDistinct(g: Geometry, chain: seq<nat>, j: nat, k: nat)
    requires AllClusters(g, chain) && Distinct(chain) && j < SlotCnt(g, chain) && k < SlotCnt(g, chain)
    ensures var c, d := Cursors(g, chain)[j], Cursors(g, chain)[k];
            && (c.sect == d.sect && c.idx == d.idx ==> j == k)
            && g.dataSect <= c.sect && SectToClust(g, c.sect) == c.clust
  {
    CursorIs(g, chain, j);
    CursorIs(g, chain, k);
    SectAtCluster(g, chain, j / 16);
    if SectAt(g, chain, j / 16) == SectAt(g, chain, k / 16) {
      SectAtInjective(g, chain, j / 16, k / 16);
    }
  }

  /** `s` lies in a cluster of the chain. */
  predicate InChain(g: Geometry, chain: seq<nat>, s: nat) {
    g.dataSect <= s && SectToClust(g, s) in chain
  }

  /** The images agree on the sectors of a chain. */
  ghost predicate AgreeOn(g: Geometry, img: Image, img': Image, chain: seq<nat>)
    requires Fits(g, img) && Fits(g, img')
  {
    forall s :: 0 <= s < |img| && InChain(g, chain, s) ==> img'[s] == img[s]
  }

  lemma SlotsSame(g: Geometry, img: Image, img': Image, chain: seq<nat>)
    requires Fits(g, img) && Fits(g, img') && AllClusters(g, chain) && AgreeOn(g, img, img', chain)
    ensures SlotsOf(g, img', chain) == SlotsOf(g, img, chain)
  {
    forall k: nat | k < SlotCnt(g, chain)
      ensures SlotsOf(g, img', chain)[k] == SlotsOf(g, img, chain)[k]
    {
      SectAtCluster(g, chain, k / 16);
      SlotOf(g, img, chain, k);
      SlotOf(g, img', chain, k);
    }
  }

  // ---- what an operation on one chain leaves alone ----

  /** `s` holds neither tables nor counters, nor a part of the chain. */
  predicate Beside(g: Geometry, chain: seq<nat>, s: nat) {
    g.Outside(s) && !InChain(g, chain, s)
  }

  function BesideUpTo(g: Geometry, img: Image, chain: seq<nat>, n: nat): (d: seq<Sector>)
    requires Fits(g, img) && n <= |img|
    ensures |d| == n
  {
    if n == 0 then []
    else BesideUpTo(g, img, chain, n - 1) + [if Beside(g, chain, n - 1) then img[n - 1] else seq(512, i => 0)]
  }

  /** All that an operation on one chain must leave alone. */
  function RestBut(g: Geometry, img: Image, chain: seq<nat>): Rest
    requires Fits(g, img)
  {
    RestOf(g, img).(data := BesideUpTo(g, img, chain, |img|))
  }

  /** Everything beside the tables, the info sector and the chain stays, the upper nibbles stay, and agreeing tables
      go on agreeing. */
  ghost predicate ChainStep(g: Geometry, img: Image, img': Image, chain: seq<nat>)
    requires Fits(g, img) && Fits(g, img')
  {
    RestBut(g, img', chain) == RestBut(g, img, chain) && (Mirrored(g, img) ==> Mirrored(g, img'))
  }

  lemma {:induction false} BesideAt(g: Geometry, img: Image, chain: seq<nat>, n: nat, s: nat)
    requires Fits(g, img) && s < n <= |img|
    ensures BesideUpTo(g, img, chain, n)[s] == if Beside(g, chain, s) then img[s] else seq(512, i => 0)
  {
    if s == n - 1 {
    } else {
      BesideAt(g, img, chain, n - 1, s);
    }
  }

  lemma BesideSame(g: Geometry, img: Image, img': Image, chain: seq<nat>)
    requires Fits(g, img) && Fits(g, img')
    ensures BesideUpTo(g, img, chain, |img|) == BesideUpTo(g, img', chain, |img|) <==>
            forall s :: 0 <= s < |img| && Beside(g, chain, s) ==> img[s] == img'[s]
  {
    forall s: nat | s < |img|
      ensures BesideUpTo(g, img, chain, |img|)[s] == if Beside(g, chain, s) then img[s] else seq(512, i => 0)
      ensures BesideUpTo(g, img', chain, |img|)[s] == if Beside(g, chain, s) then img'[s] else seq(512, i => 0)
    {
      BesideAt(g, img, chain, |img|, s);
      BesideAt(g, img', chain, |img|, s);
    }
  }

  /** The rest beside a chain is the same exactly when the sectors beside it and the upper nibbles are. */
  lemma ChainStepMeans(g: Geometry, img: Image, img': Image, chain: seq<nat>)
    requires Fits(g, img) && Fits(g, img')
    ensures ChainStep(g, img, img', chain) <==>
            && (forall s :: 0 <= s < |img| && Beside(g, chain, s) ==> img[s] == img'[s])
            && RestOf(g, img').nibbles == RestOf(g, img).nibbles
            && RestOf(g, img').mirrorNibbles == RestOf(g, img).mirrorNibbles
            && (Mirrored(g, img) ==> Mirrored(g, img'))
  {
    BesideSame(g, img, img', chain);
  }

  lemma TableStepIsChainStep(g: Geometry, img: Image, img': Image, chain: seq<nat>)
    requires Fits(g, img) && Fits(g, img') && TableStep(g, img, img')
    ensures ChainStep(g, img, img', chain)
  {
    RestSame(g, img', img);
    ChainStepMeans(g, img, img', chain);
  }

  /** An operation on a chain is one on every longer chain. */
  lemma ChainStepLonger(g: Geometry, img: Image, img': Image, chain: seq<nat>, longer: seq<nat>)
    requires Fits(g, img) && Fits(g, img') && ChainStep(g, img, img', chain)
    requires forall x :: x in chain ==> x in longer
    ensures ChainStep(g, img, img', longer)
  {
    ChainStepMeans(g, img, img', chain);
    ChainStepMeans(g, img, img', longer);
    forall s | 0 <= s < |img| && Beside(g, longer, s)
      ensures img[s] == img'[s]
    {
      assert Beside(g, chain, s);
    }
  }

  lemma ChainStepTwice(g: Geometry, img: Image, img1: Image, img2: Image, chain: seq<nat>)
    requires Fits(g, img) && Fits(g, img1) && Fits(g, img2)
    requires ChainStep(g, img, img1, chain) && ChainStep(g, img1, img2, chain)
    ensures ChainStep(g, img, img2, chain)
  {
  }

  /** The tables, with their upper nibbles, are the same. */
  ghost predicate TablesSame(g: Geometry, img: Image, img': Image)
    requires Fits(g, img) && Fits(g, img')
  {
    && Active(g, img') == Active(g, img)
    && (g.mirrorSect != 0 ==> Entries(g, img', g.mirrorSect) == Entries(g, img, g.mirrorSect))
    && RestOf(g, img').nibbles == RestOf(g, img).nibbles
    && RestOf(g, img').mirrorNibbles == RestOf(g, img).mirrorNibbles
  }

  /** Writing a data sector touches no table. */
  lemma DataWrite(g: Geometry, img: Image, s: nat, sector: Sector)
    requires Fits(g, img) && g.dataSect <= s < |img|
    ensures TablesSame(g, img, img[s := sector])
  {
    var img' := img[s := sector];
    forall base: nat, c: nat | g.IsCopy(base) && c < g.ClustCnt()
      ensures Raw(g, img', base, c) == Raw(g, img, base, c)
    {
      assert g.InTable(base, base + c / 128);
    }
    forall base: nat | g.IsCopy(base)
      ensures Entries(g, img', base) == Entries(g, img, base)
    {
      EntryAt(g, img, base);
      EntryAt(g, img', base);
    }
    NibblesSame(g, img, img', g.fatSect);
    if g.mirrorSect != 0 {
      NibblesSame(g, img, img', g.mirrorSect);
    }
  }

  function ZeroSector(): Sector { seq(512, i => 0) }

  /** The image after `n` sectors from `s` on were cleared. */
  function Zeroed(img: Image, s: nat, n: nat): (r: Image)
    requires s + n <= |img|
    ensures |r| == |img|
  {
    if n == 0 then img else Zeroed(img, s, n - 1)[s + n - 1 := ZeroSector()]
  }

  lemma {:induction false} ZeroedAt(img: Image, s: nat, n: nat, x: nat)
    requires s + n <= |img| && x < |img|
    ensures Zeroed(img, s, n)[x] == if s <= x < s + n then ZeroSector() else img[x]
  {
    if n == 0 {
    } else {
      ZeroedAt(img, s, n - 1, x);
    }
  }

  lemma {:induction false} ZeroedIsData(g: Geometry, img: Image, s: nat, n: nat)
    requires Fits(g, img) && g.dataSect <= s && s + n <= |img|
    ensures TablesSame(g, img, Zeroed(img, s, n))
  {
    if n == 0 {
    } else {
      ZeroedIsData(g, img, s, n - 1);
      DataWrite(g, Zeroed(img, s, n - 1), s + n - 1, ZeroSector());
    }
  }

  lemma ZeroedIsChainStep(g: Geometry, img: Image, c: nat)
    requires Fits(g, img) && IsCluster(g, c)
    ensures ChainStep(g, img, Zeroed(img, ClustToSect(g, c), Spc(g)), [c])
  {
    var s := ClustToSect(g, c);
    var img' := Zeroed(img, s, Spc(g));
    ZeroedIsData(g, img, s, Spc(g));
    ChainStepMeans(g, img, img', [c]);
    forall x | 0 <= x < |img| && Beside(g, [c], x)
      ensures img'[x] == img[x]
    {
      ZeroedAt(img, s, Spc(g), x);
      if s <= x < s + Spc(g) {
        SectToClustInverts(g, c, x - s);
      }
    }
  }

  // ---- writing a slot ----

  /** The image after slot `k` of the directory was rewritten. */
  function WithSlot(g: Geometry, img: Image, chain: seq<nat>, k: nat, slot: Slot): (r: Image)
    requires Fits(g, img) && AllClusters(g, chain) && k < SlotCnt(g, chain)
    ensures Fits(g, r)
  {
    var s := SectAt(g, chain, k / 16);
    img[s := Patched(img[s], 32 * (k % 16), slot)]
  }

  lemma SlotInPatched(s: Sector, e: nat, slot: Slot, f: nat)
    requires e < 16 && f < 16
    ensures SlotIn(Patched(s, 32 * e, slot), f) == if f == e then slot else SlotIn(s, f)
  {
  }

  lemma WriteInChain(g: Geometry, img: Image, chain: seq<nat>, s: nat, sector: Sector)
    requires Fits(g, img) && InChain(g, chain, s) && s < |img|
    ensures Active(g, img[s := sector]) == Active(g, img)
    ensures ChainStep(g, img, img[s := sector], chain)
  {
    DataWrite(g, img, s, sector);
    ChainStepMeans(g, img, img[s := sector], chain);
  }

  /** Rewriting a slot on the disk rewrites that slot of the directory, and touches no table and nothing outside
      the chain. */
  lemma SlotWritten(g: Geometry, img: Image, chain: seq<nat>, k: nat, slot: Slot)
    requires Fits(g, img) && chain != [] && Linked(Active(g, img), chain, 0)
    requires AllClusters(g, chain) && k < SlotCnt(g, chain)
    ensures SlotsOf(g, WithSlot(g, img, chain, k, slot), chain) == SlotsOf(g, img, chain)[k := slot]
    ensures Active(g, WithSlot(g, img, chain, k, slot)) == Active(g, img)
    ensures ChainStep(g, img, WithSlot(g, img, chain, k, slot), chain)
  {
    LinkedIsChain(g, Active(g, img), chain);
    var s := SectAt(g, chain, k / 16);
    var img' := WithSlot(g, img, chain, k, slot);
    forall j: nat | j < SlotCnt(g, chain)
      ensures SlotsOf(g, img', chain)[j] == SlotsOf(g, img, chain)[k := slot][j]
    {
      SlotAfterWrite(g, img, chain, k, slot, j);
    }
    SectAtCluster(g, chain, k / 16);
    WriteInChain(g, img, chain, s, img'[s]);
  }

  lemma SlotAfterWrite(g: Geometry, img: Image, chain: seq<nat>, k: nat, slot: Slot, j: nat)
    requires Fits(g, img) && AllClusters(g, chain) && Distinct(chain)
    requires k < SlotCnt(g, chain) && j < SlotCnt(g, chain)
    ensures SlotsOf(g, WithSlot(g, img, chain, k, slot), chain)[j] == if j == k then slot else SlotsOf(g, img, chain)[j]
  {
    SlotOf(g, img, chain, j);
    SlotOf(g, WithSlot(g, img, chain, k, slot), chain, j);
    if SectAt(g, chain, j / 16) == SectAt(g, chain, k / 16) {
      SectAtInjective(g, chain, j / 16, k / 16);
      SlotInPatched(img[SectAt(g, chain, k / 16)], k % 16, slot, j % 16);
    }
  }
}
