/** The bytes of a file, as they lie in the sectors of its chain. */
module Contents {
  import opened Bytes
  import opened Table
  import opened Chains
  import opened Names
  import opened Sectors

  function BytesUpTo(g: Geometry, img: Image, chain: seq<nat>, n: nat): (s: seq<byte>)
    requires Fits(g, img) && AllClusters(g, chain) && n <= SectCnt(g, chain)
    ensures |s| == 512 * n
  {
    if n == 0 then [] else BytesUpTo(g, img, chain, n - 1) + img[SectAt(g, chain, n - 1)]
  }

  /** The bytes in the sectors of a chain, in chain order. */
  function BytesOf(g: Geometry, img: Image, chain: seq<nat>): (s: seq<byte>)
    requires Fits(g, img) && AllClusters(g, chain)
    ensures |s| == 512 * SectCnt(g, chain)
  {
    BytesUpTo(g, img, chain, SectCnt(g, chain))
  }

  lemma {:induction false} SectorUpTo(g: Geometry, img: Image, chain: seq<nat>, n: nat, k: nat)
    requires Fits(g, img) && AllClusters(g, chain) && k < n <= SectCnt(g, chain)
    ensures BytesUpTo(g, img, chain, n)[512 * k..512 * k + 512] == img[SectAt(g, chain, k)]
  {
    var rest := BytesUpTo(g, img, chain, n - 1);
    if k < n - 1 {
      SectorUpTo(g, img, chain, n - 1, k);
      assert BytesUpTo(g, img, chain, n)[512 * k..512 * k + 512] == rest[512 * k..512 * k + 512];
    }
  }

  /** The `k`-th sector of a chain lies at its place in the bytes. */
  lemma SectorOfBytes(g: Geometry, img: Image, chain: seq<nat>, k: nat)
    requires Fits(g, img) && AllClusters(g, chain) && k < SectCnt(g, chain)
    ensures BytesOf(g, img, chain)[512 * k..512 * k + 512] == img[SectAt(g, chain, k)]
  {
    SectorUpTo(g, img, chain, SectCnt(g, chain), k);
  }

  /** What lies at an offset, within one sector. */
  lemma BytesAt(g: Geometry, img: Image, chain: seq<nat>, off: nat, cnt: nat)
    requires Fits(g, img) && AllClusters(g, chain) && off / 512 < SectCnt(g, chain) && off % 512 + cnt <= 512
    ensures off + cnt <= 512 * SectCnt(g, chain)
    ensures BytesOf(g, img, chain)[off..off + cnt] == img[SectAt(g, chain, off / 512)][off % 512..off % 512 + cnt]
  {
    SectorOfBytes(g, img, chain, off / 512);
    PartOfPart(BytesOf(g, img, chain), 512 * (off / 512), img[SectAt(g, chain, off / 512)], off % 512, cnt, off);
  }

  lemma PartOfPart(s: seq<byte>, at: nat, part: seq<byte>, idx: nat, cnt: nat, from: nat)
    requires at + |part| <= |s| && s[at..at + |part|] == part && idx + cnt <= |part| && from == at + idx
    ensures s[from..from + cnt] == part[idx..idx + cnt]
  {
    var x, y := s[from..from + cnt], part[idx..idx + cnt];
    forall i | 0 <= i < cnt
      ensures x[i] == y[i]
    {
      assert s[at..at + |part|][idx + i] == part[idx + i];
    }
  }

  lemma {:induction false} BytesUpToSame(g: Geometry, img: Image, img': Image, chain: seq<nat>, n: nat)
    requires Fits(g, img) && Fits(g, img') && AllClusters(g, chain) && n <= SectCnt(g, chain)
    requires forall k :: 0 <= k < n ==> img'[SectAt(g, chain, k)] == img[SectAt(g, chain, k)]
    ensures BytesUpTo(g, img', chain, n) == BytesUpTo(g, img, chain, n)
  {
    if n == 0 {
    } else {
      BytesUpToSame(g, img, img', chain, n - 1);
    }
  }

  /** What an operation on one chain leaves of the bytes of another. */
  lemma BytesBeside(g: Geometry, img: Image, img': Image, chain: seq<nat>, other: seq<nat>)
    requires Fits(g, img) && Fits(g, img') && ChainStep(g, img, img', chain) && AllClusters(g, other)
    requires Apart(other, chain)
    ensures BytesOf(g, img', other) == BytesOf(g, img, other)
  {
    ChainStepMeans(g, img, img', chain);
    forall k | 0 <= k < SectCnt(g, other)
      ensures img'[SectAt(g, other, k)] == img[SectAt(g, other, k)]
    {
      SectAtCluster(g, other, k);
      DataIsOutside(g, SectAt(g, other, k));
      assert Beside(g, chain, SectAt(g, other, k));
    }
    BytesUpToSame(g, img, img', other, SectCnt(g, other));
  }

  /** An operation on the tables leaves the bytes of every chain. */
  lemma BytesAfterTableStep(g: Geometry, img: Image, img': Image, chain: seq<nat>)
    requires Fits(g, img) && Fits(g, img') && TableStep(g, img, img') && AllClusters(g, chain)
    ensures BytesOf(g, img', chain) == BytesOf(g, img, chain)
  {
    TableStepIsChainStep(g, img, img', []);
    BytesBeside(g, img, img', [], chain);
  }

  lemma {:induction false} BytesUpToPatched(g: Geometry, img: Image, chain: seq<nat>, k: nat, at: nat, f: seq<byte>,
                                            img': Image, n: nat, from: nat)
    requires Fits(g, img) && AllClusters(g, chain) && Distinct(chain) && k < SectCnt(g, chain) && at + |f| <= 512
    requires var s := SectAt(g, chain, k); img' == img[s := Patched(img[s], at, f)]
    requires n <= SectCnt(g, chain) && from == 512 * k + at
    ensures BytesUpTo(g, img', chain, n) ==
            if k < n then Patched(BytesUpTo(g, img, chain, n), from, f) else BytesUpTo(g, img, chain, n)
  {
    if n > 0 {
      var m := n - 1;
      BytesUpToPatched(g, img, chain, k, at, f, img', m, from);
      SectorPatched(g, img, chain, k, at, f, img', m);
      var b, x := BytesUpTo(g, img, chain, m), img[SectAt(g, chain, m)];
      var b', x' := BytesUpTo(g, img', chain, m), img'[SectAt(g, chain, m)];
      PatchedStep(b, x, b', x', k, m, at, f, from);
      assert BytesUpTo(g, img, chain, n) == b + x && BytesUpTo(g, img', chain, n) == b' + x';
    }
  }

  lemma PatchedStep(b: seq<byte>, x: Sector, b': seq<byte>, x': Sector, k: nat, n: nat, at: nat, f: seq<byte>,
                    from: nat)
    requires |b| == |b'| == 512 * n && at + |f| <= 512 && from == 512 * k + at
    requires b' == if k < n then Patched(b, from, f) else b
    requires x' == if k == n then Patched(x, at, f) else x
    ensures b' + x' == if k <= n then Patched(b + x, from, f) else b + x
  {
    if k < n {
      PatchedHead(b, x, from, f);
    } else if k == n {
      PatchedTail(b, x, at, f);
    }
  }

  lemma SectorPatched(g: Geometry, img: Image, chain: seq<nat>, k: nat, at: nat, f: seq<byte>, img': Image, n: nat)
    requires Fits(g, img) && AllClusters(g, chain) && Distinct(chain) && k < SectCnt(g, chain) && at + |f| <= 512
    requires var s := SectAt(g, chain, k); img' == img[s := Patched(img[s], at, f)]
    requires n < SectCnt(g, chain)
    ensures var x := img[SectAt(g, chain, n)];
            img'[SectAt(g, chain, n)] == if n == k then Patched(x, at, f) else x
  {
    if SectAt(g, chain, k) == SectAt(g, chain, n) {
      SectAtInjective(g, chain, k, n);
    }
  }

  lemma PatchedHead(a: seq<byte>, b: seq<byte>, at: nat, f: seq<byte>)
    requires at + |f| <= |a|
    ensures Patched(a + b, at, f) == Patched(a, at, f) + b
  {
  }

  lemma PatchedTail(a: seq<byte>, b: seq<byte>, at: nat, f: seq<byte>)
    requires at + |f| <= |b|
    ensures Patched(a + b, |a| + at, f) == a + Patched(b, at, f)
  {
  }

  lemma PatchedMore(s: seq<byte>, at: nat, f: seq<byte>, mid: nat, f': seq<byte>)
    requires mid == at + |f| && mid + |f'| <= |s|
    ensures Patched(Patched(s, at, f), mid, f') == Patched(s, at, f + f')
  {
  }

  /** Changing bytes in a sector of a chain changes those bytes of the file. */
  lemma BytesPatched(g: Geometry, img: Image, chain: seq<nat>, k: nat, at: nat, f: seq<byte>)
    requires Fits(g, img) && AllClusters(g, chain) && Distinct(chain) && k < SectCnt(g, chain) && at + |f| <= 512
    ensures var s := SectAt(g, chain, k);
            BytesOf(g, img[s := Patched(img[s], at, f)], chain) == Patched(BytesOf(g, img, chain), 512 * k + at, f)
  {
    var s := SectAt(g, chain, k);
    BytesUpToPatched(g, img, chain, k, at, f, img[s := Patched(img[s], at, f)], SectCnt(g, chain), 512 * k + at);
  }

  lemma {:induction false} BytesUpToOfLonger(g: Geometry, img: Image, chain: seq<nat>, c: nat, n: nat)
    requires Fits(g, img) && AllClusters(g, chain) && IsCluster(g, c) && AllClusters(g, chain + [c])
    requires n <= SectCnt(g, chain) <= SectCnt(g, chain + [c])
    ensures BytesUpTo(g, img, chain + [c], n) == BytesUpTo(g, img, chain, n)
  {
    if n == 0 {
    } else {
      BytesUpToOfLonger(g, img, chain, c, n - 1);
      SectAtOfLonger(g, chain, c, n - 1);
    }
  }

  lemma {:induction false} BytesUpToOfMore(g: Geometry, img: Image, chain: seq<nat>, c: nat, j: nat)
    requires Fits(g, img) && AllClusters(g, chain) && IsCluster(g, c) && AllClusters(g, chain + [c])
    requires AllClusters(g, [c])
    requires j <= SectCnt(g, [c]) && SectCnt(g, chain) + j <= SectCnt(g, chain + [c])
    ensures BytesUpTo(g, img, chain + [c], SectCnt(g, chain) + j) == BytesOf(g, img, chain) + BytesUpTo(g, img, [c], j)
  {
    if j == 0 {
      BytesUpToOfLonger(g, img, chain, c, SectCnt(g, chain));
    } else {
      BytesUpToOfMore(g, img, chain, c, j - 1);
      SectAtOfLast(g, chain, c, j - 1);
      SectAtOfOne(g, c, j - 1);
      var x := img[ClustToSect(g, c) + j - 1];
      assert BytesUpTo(g, img, [c], j) == BytesUpTo(g, img, [c], j - 1) + x;
      Assoc(BytesOf(g, img, chain), BytesUpTo(g, img, [c], j - 1), x);
    }
  }

  lemma SectAtOfOne(g: Geometry, c: nat, j: nat)
    requires IsCluster(g, c) && j < Spc(g)
    ensures AllClusters(g, [c]) && SectCnt(g, [c]) == Spc(g) && SectAt(g, [c], j) == ClustToSect(g, c) + j
  {
    assert [] + [c] == [c];
    ShlAdds(0, 0, g.shift);
    SectAtOfLast(g, [], c, j);
  }

  /** A chain that grew by a cluster holds its bytes and then those of the cluster. */
  lemma BytesOfMore(g: Geometry, img: Image, chain: seq<nat>, c: nat)
    requires Fits(g, img) && AllClusters(g, chain) && IsCluster(g, c)
    ensures AllClusters(g, chain + [c]) && AllClusters(g, [c])
    ensures BytesOf(g, img, chain + [c]) == BytesOf(g, img, chain) + BytesOf(g, img, [c])
  {
    LongerClusters(g, chain, c);
    SectAtOfOne(g, c, 0);
    SectAtOfLast(g, chain, c, 0);
    BytesUpToOfMore(g, img, chain, c, Spc(g));
  }

  // ---- offsets ----

  lemma {:induction false} MulGap(d: nat, p: nat, q: nat)
    requires p < q
    ensures d * p + d <= d * q
    decreases q
  {
    if p + 1 < q {
      MulGap(d, p, q - 1);
    }
    assert d * q == d * (q - 1) + d;
  }

  lemma QuotientUnique(d: nat, q: nat, r: nat, q': nat, r': nat)
    requires r < d && r' < d && d * q + r == d * q' + r'
    ensures q == q'
  {
    if q' < q {
      MulGap(d, q', q);
    } else if q < q' {
      MulGap(d, q, q');
    }
  }

  lemma DivUnique(n: nat, d: nat, q: nat, r: nat)
    requires r < d && n == d * q + r
    ensures n / d == q
  {
    QuotientUnique(d, q, r, n / d, n % d);
  }

  lemma DivHalf(n: nat, p: nat)
    requires p > 0
    ensures n / (2 * p) == n / p / 2
  {
    var q, r := n / p, n % p;
    var h, b := q / 2, q % 2;
    assert p * q == 2 * p * h + p * b;
    DivUnique(n, 2 * p, h, p * b + r);
  }

  /** Dividing by a power of two times `m` shifts the quotient by `m`. */
  lemma {:induction false} DivShl(n: nat, m: nat, k: nat)
    requires m > 0
    ensures Shl(m, k) > 0 && n / Shl(m, k) == Shr(n / m, k)
  {
    if k == 0 {
    } else {
      DivShl(n, m, k - 1);
      DivHalf(n, Shl(m, k - 1));
    }
  }

  /** The number of bytes of a cluster. */
  function ClustSize(g: Geometry): (n: nat)
    ensures n > 0
  {
    DivShl(0, 512, g.shift);
    Shl(512, g.shift)
  }

  /** An offset lies in the cluster that its sector lies in. */
  lemma OffsetClust(g: Geometry, off: nat)
    ensures off / ClustSize(g) == ClustIdx(g, off / 512)
  {
    DivShl(off, 512, g.shift);
  }

  /** A data sector is written under a table operation. */
  lemma TableStepUnder(g: Geometry, img: Image, img': Image, s: nat, b: Sector)
    requires Fits(g, img) && Fits(g, img') && TableStep(g, img, img') && g.dataSect <= s < |img|
    ensures TableStep(g, img[s := b], img'[s := b])
  {
    DataWrite(g, img, s, b);
    DataWrite(g, img', s, b);
    RestSame(g, img, img');
    DataSame(g, img[s := b], img'[s := b]);
  }

  /** The cluster of an offset up to the end of a chain is at most one behind the chain's last, and only there if the
      offset is the end. */
  lemma EndOfChain(g: Geometry, chain: seq<nat>, off: nat)
    requires off <= 512 * SectCnt(g, chain)
    ensures ClustIdx(g, off / 512) <= |chain|
    ensures off < 512 * SectCnt(g, chain) ==> ClustIdx(g, off / 512) < |chain|
  {
    if off < 512 * SectCnt(g, chain) {
      SectorParts(g, chain, off / 512);
    } else {
      assert off / 512 == SectCnt(g, chain);
      ShlAdds(|chain|, 0, g.shift);
      ShiftPartsUnique(|chain|, 0, g.shift);
    }
  }

  // ---- writing ----

  /** Bytes to be written, and where. */
  datatype Span = Span(o: nat, f: seq<byte>)

  /** Between two images the bytes of a file on `chain` were overwritten by those of the span, and nothing else changed
      but the tables. */
  ghost predicate IsWritten(g: Geometry, was: Image, now: Image, chain: seq<nat>, w: Span) {
    match w
    case Span(_, _) =>
      && Fits(g, was) && Fits(g, now) && AllClusters(g, chain)
      && w.o + |w.f| <= 512 * SectCnt(g, chain)
      && BytesOf(g, now, chain) == Patched(BytesOf(g, was, chain), w.o, w.f)
      && ChainStep(g, was, now, chain)
  }

  /** The bytes of the span, all in one sector of the chain, were put there. */
  ghost predicate IsPatched(g: Geometry, img: Image, chain: seq<nat>, w: Span, next: Image) {
    match w
    case Span(_, _) =>
      && Fits(g, img) && AllClusters(g, chain) && w.o / 512 < SectCnt(g, chain) && w.o % 512 + |w.f| <= 512
      && var s := SectAt(g, chain, w.o / 512);
         next == img[s := Patched(img[s], w.o % 512, w.f)]
  }

  lemma NothingWritten(g: Geometry, img: Image, chain: seq<nat>, o: nat)
    requires Fits(g, img) && AllClusters(g, chain) && o <= 512 * SectCnt(g, chain)
    ensures IsWritten(g, img, img, chain, Span(o, []))
  {
    assert Patched(BytesOf(g, img, chain), o, []) == BytesOf(g, img, chain);
  }

  /** Writing the next bytes, all in one sector. */
  lemma WrittenMore(g: Geometry, was: Image, now: Image, chain: seq<nat>, w: Span, off: nat, part: seq<byte>,
                    next: Image)
    requires IsWritten(g, was, now, chain, w) && Distinct(chain) && off == w.o + |w.f|
    requires IsPatched(g, now, chain, Span(off, part), next)
    ensures IsWritten(g, was, next, chain, Span(w.o, w.f + part))
  {
    var s := SectAt(g, chain, off / 512);
    SectAtCluster(g, chain, off / 512);
    WriteInChain(g, now, chain, s, next[s]);
    BytesPatched(g, now, chain, off / 512, off % 512, part);
    PatchedMore(BytesOf(g, was, chain), w.o, w.f, off, part);
  }

  lemma WrittenNext(g: Geometry, was: Image, now: Image, chain: seq<nat>, src: seq<byte>, n: nat, m: nat, o: nat,
                    from: nat, next: Image)
    requires n <= m <= |src| && IsWritten(g, was, now, chain, Span(o, src[..n])) && Distinct(chain)
    requires from == o + n && IsPatched(g, now, chain, Span(from, src[n..m]), next)
    ensures IsWritten(g, was, next, chain, Span(o, src[..m]))
  {
    WrittenMore(g, was, now, chain, Span(o, src[..n]), from, src[n..m], next);
    assert src[..n] + src[n..m] == src[..m];
  }

  /** `longer` is the chain itself, or the chain with one more cluster at its end. */
  ghost predicate OneMore(g: Geometry, chain: seq<nat>, longer: seq<nat>) {
    longer == chain
    || (|longer| == |chain| + 1 && var c := longer[|chain|];
        longer == chain + [c] && IsCluster(g, c) && c !in chain)
  }

  /** The tables have changed and the chain may have grown by a cluster; its bytes were there before. */
  lemma WrittenStill(g: Geometry, was: Image, now: Image, chain: seq<nat>, w: Span, next: Image, longer: seq<nat>)
    requires IsWritten(g, was, now, chain, w) && Fits(g, next) && TableStep(g, now, next) && OneMore(g, chain, longer)
    ensures IsWritten(g, was, next, longer, w)
  {
    if longer == chain {
      WrittenSame(g, was, now, chain, w, next);
    } else {
      WrittenGrew(g, was, now, chain, w, next, longer[|chain|]);
    }
  }

  /** The chain has grown by a cluster, whose bytes were there before. */
  lemma WrittenGrew(g: Geometry, was: Image, now: Image, chain: seq<nat>, w: Span, next: Image, c: nat)
    requires IsWritten(g, was, now, chain, w) && Fits(g, next) && TableStep(g, now, next) && IsCluster(g, c)
    requires c !in chain
    ensures IsWritten(g, was, next, chain + [c], w)
  {
    BytesOfMore(g, was, chain, c);
    BytesOfMore(g, next, chain, c);
    BytesAfterTableStep(g, now, next, chain);
    BytesAfterTableStep(g, now, next, [c]);
    BytesBeside(g, was, now, chain, [c]);
    PatchedHead(BytesOf(g, was, chain), BytesOf(g, was, [c]), w.o, w.f);
    ChainStepLonger(g, was, now, chain, chain + [c]);
    TableStepIsChainStep(g, now, next, chain + [c]);
    ChainStepTwice(g, was, now, next, chain + [c]);
  }

  lemma WrittenSame(g: Geometry, was: Image, now: Image, chain: seq<nat>, w: Span, next: Image)
    requires IsWritten(g, was, now, chain, w) && Fits(g, next) && TableStep(g, now, next)
    ensures IsWritten(g, was, next, chain, w)
  {
    BytesAfterTableStep(g, now, next, chain);
    TableStepIsChainStep(g, now, next, chain);
    ChainStepTwice(g, was, now, next, chain);
  }
}
