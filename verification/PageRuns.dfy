/** Whole runs of the page allocator: what was reserved at start-up is never handed out, live pages never overlap, and
    the number of used pages is kept. */
module PageRuns {
  import opened Pages

  // ---- reserving ----

  ghost predicate Marks(m: seq<bool>, m': seq<bool>) {
    |m'| == |m| && forall q :: 0 <= q < |m| && m[q] ==> m'[q]
  }

  lemma MarksKeepTaken(m: seq<bool>, m': seq<bool>, p: nat)
    requires Marks(m, m') && Taken(m, p)
    ensures Taken(m', p)
  {
    var q: nat :| p <= q < ByteEnd(p) && q < |m| && m[q];
    assert m'[q];
  }

  lemma {:induction false} ReserveRunTakes(s: Pm, first: nat, n: nat)
    requires n > 0 ==> first + n <= |s.bits|
    ensures Marks(s.bits, ReserveRun(s, first, n).bits)
    ensures forall p: nat :: first <= p < first + n ==> Taken(ReserveRun(s, first, n).bits, p)
  {
    if n == 0 {
    } else {
      ReserveRunTakes(s, first, n - 1);
      var t, r := ReserveRun(s, first, n - 1), ReserveRun(s, first, n);
      forall p: nat | first <= p < first + n
        ensures Taken(r.bits, p)
      {
        if p < first + n - 1 {
          MarksKeepTaken(t.bits, r.bits, p);
        } else if !Taken(t.bits, p) {
          assert r.bits[p] && p < ByteEnd(p);
        }
      }
    }
  }

  /** Page `p` lies in the range, as far as there are pages. */
  ghost predicate InRange(r: Range, p: nat, total: nat) {
    FirstPage(r) <= p < PastPage(r) && p < total
  }

  /** Every page of a range reserved at start-up is taken when start-up is over, even if its own bit was left alone. */
  lemma {:induction false} ReservedAreTaken(s: Pm, rs: seq<Range>, total: nat, i: nat, p: nat)
    requires total <= |s.bits| && i < |rs| && InRange(rs[i], p, total)
    ensures Taken(ReserveAll(s, rs, total).bits, p)
    decreases |rs|
  {
    var t, r := ReserveAll(s, rs[..|rs| - 1], total), rs[|rs| - 1];
    ReserveRunTakes(t, FirstPage(r), PagesOf(r, total));
    if i < |rs| - 1 {
      ReservedAreTaken(s, rs[..|rs| - 1], total, i, p);
      MarksKeepTaken(t.bits, ReserveAll(s, rs, total).bits, p);
    }
  }

  // ---- counting ----

  /** The number of clear bits below `n`. */
  function ClearCount(m: seq<bool>, n: nat): (c: nat)
    requires n <= |m|
    ensures c <= n
  {
    if n == 0 then 0 else ClearCount(m, n - 1) + if m[n - 1] then 0 else 1
  }

  lemma {:induction false} CountAfterUpdate(m: seq<bool>, n: nat, p: nat, v: bool)
    requires n <= |m| && p < |m|
    ensures ClearCount(m[p := v], n) ==
            ClearCount(m, n) + if p < n then (if v then 0 else 1) - (if m[p] then 0 else 1) else 0
  {
    if n == 0 {
    } else {
      CountAfterUpdate(m, n - 1, p, v);
    }
  }

  lemma {:induction false} CountAllMarked(k: nat, n: nat)
    requires n <= k
    ensures ClearCount(AllMarked(k), n) == 0
  {
    if n == 0 {
    } else {
      CountAllMarked(k, n - 1);
    }
  }

  /** Used pages and clear bits together. */
  function Sum(s: Pm, total: nat): int
    requires total <= |s.bits|
  {
    s.used + ClearCount(s.bits, total)
  }

  /** A page that passes the test is not marked itself. */
  lemma OwnBit(m: seq<bool>, p: nat)
    requires p < |m|
    ensures m[p] ==> Taken(m, p)
  {
    assert p < ByteEnd(p);
  }

  lemma {:induction false} ReserveRunKeepsSum(s: Pm, first: nat, n: nat, total: nat)
    requires total <= |s.bits| && (n > 0 ==> first + n <= total)
    ensures Sum(ReserveRun(s, first, n), total) == Sum(s, total)
  {
    if n == 0 {
    } else {
      ReserveRunKeepsSum(s, first, n - 1, total);
      var t, p := ReserveRun(s, first, n - 1), first + n - 1;
      if !Taken(t.bits, p) {
        OwnBit(t.bits, p);
        CountAfterUpdate(t.bits, total, p, true);
      }
    }
  }

  lemma {:induction false} ReserveAllKeepsSum(s: Pm, rs: seq<Range>, total: nat)
    requires total <= |s.bits|
    ensures Sum(ReserveAll(s, rs, total), total) == Sum(s, total)
    decreases |rs|
  {
    if rs == [] {
    } else {
      var r := rs[|rs| - 1];
      ReserveAllKeepsSum(s, rs[..|rs| - 1], total);
      ReserveRunKeepsSum(ReserveAll(s, rs[..|rs| - 1], total), FirstPage(r), PagesOf(r, total), total);
    }
  }

  lemma {:induction false} ClearRunAt(m: seq<bool>, first: nat, n: nat, total: nat, p: nat)
    requires total <= |m| && p < |m|
    ensures ClearRun(m, first, n, total)[p] <==> m[p] && !(first <= p < first + n && p < total)
  {
    if n == 0 {
    } else {
      ClearRunAt(m, first, n - 1, total, p);
    }
  }

  lemma {:induction false} ClearRunCounts(m: seq<bool>, first: nat, n: nat, total: nat)
    requires total <= |m| && first + n <= total && forall p :: first <= p < first + n ==> m[p]
    ensures ClearCount(ClearRun(m, first, n, total), total) == ClearCount(m, total) + n
  {
    if n == 0 {
    } else {
      var p := first + n - 1;
      ClearRunCounts(m, first, n - 1, total);
      ClearRunAt(m, first, n - 1, total, p);
      CountAfterUpdate(ClearRun(m, first, n - 1, total), total, p, false);
    }
  }

  /** No page lies in two of the descriptors, and all lie below the end of memory. */
  ghost predicate Disjoint(ds: seq<Desc>, total: nat) {
    && (forall i, j, p: nat :: 0 <= i < j < |ds| && Covers(ds[i], p) ==> !Covers(ds[j], p))
    && (forall i, p: nat :: 0 <= i < |ds| && Covers(ds[i], p) ==> p < total)
  }

  lemma {:induction false} ClearAllAt(m: seq<bool>, ds: seq<Desc>, total: nat, p: nat)
    requires total <= |m| && p < |m|
    ensures ClearAll(m, ds, total)[p] <==> m[p] && !(p < total && exists i :: 0 <= i < |ds| && Covers(ds[i], p))
    decreases |ds|
  {
    if ds == [] {
    } else {
      var rest, d := ds[..|ds| - 1], ds[|ds| - 1];
      ClearAllAt(m, rest, total, p);
      ClearRunAt(ClearAll(m, rest, total), d.phys / 4096, d.pages, total, p);
      if exists i :: 0 <= i < |ds| && Covers(ds[i], p) {
        var i :| 0 <= i < |ds| && Covers(ds[i], p);
        assert i < |rest| ==> Covers(rest[i], p);
      }
      if exists i :: 0 <= i < |rest| && Covers(rest[i], p) {
        var i :| 0 <= i < |rest| && Covers(rest[i], p);
        assert Covers(ds[i], p);
      }
      assert Covers(d, p) ==> Covers(ds[|ds| - 1], p);
    }
  }

  lemma {:induction false} ClearAllCounts(k: nat, ds: seq<Desc>, total: nat)
    requires total <= k && Disjoint(ds, total)
    ensures ClearCount(ClearAll(AllMarked(k), ds, total), total) == SumPages(ds)
    decreases |ds|
  {
    if ds == [] {
      CountAllMarked(k, total);
    } else {
      var rest, d := ds[..|ds| - 1], ds[|ds| - 1];
      assert Disjoint(rest, total) by {
        assert forall i :: 0 <= i < |rest| ==> rest[i] == ds[i];
      }
      ClearAllCounts(k, rest, total);
      if d.conventional && d.pages > 0 {
        var m, first := ClearAll(AllMarked(k), rest, total), d.phys / 4096;
        assert Covers(d, first + d.pages - 1);
        forall p | first <= p < first + d.pages
          ensures m[p]
        {
          assert Covers(ds[|ds| - 1], p);
          ClearAllAt(AllMarked(k), rest, total, p);
          forall i | 0 <= i < |rest|
            ensures !Covers(rest[i], p)
          {
            assert rest[i] == ds[i];
          }
        }
        ClearRunCounts(m, first, d.pages, total);
      }
    }
  }

  /** When start-up is over, used pages and clear bits make up the pages of the conventional memory. */
  lemma InitSum(ds: seq<Desc>, rs: seq<Range>, total: nat)
    requires total == MaxEnd(ds) / 4096 && Disjoint(ds, total)
    ensures total <= |InitState(ds, rs).bits| && Sum(InitState(ds, rs), total) == SumPages(ds)
  {
    var k := 8 * BitmapBytes(ds);
    EnoughBits(ds);
    ReserveAllKeepsSum(Pm(ClearAll(AllMarked(k), ds, total), 0), rs, total);
    ClearAllCounts(k, ds, total);
  }

  /** Conventional descriptors that are page-aligned and overlap in no byte overlap in no page, and all lie below the
      end; whatever the descriptors of other kinds are. */
  lemma AlignedAreDisjoint(ds: seq<Desc>, total: nat)
    requires total == MaxEnd(ds) / 4096
    requires forall i :: 0 <= i < |ds| && ds[i].conventional ==> ds[i].phys % 4096 == 0
    requires forall i, j :: 0 <= i < j < |ds| && ds[i].conventional && ds[j].conventional ==>
               ds[i].phys + 4096 * ds[i].pages <= ds[j].phys || ds[j].phys + 4096 * ds[j].pages <= ds[i].phys
    ensures Disjoint(ds, total)
  {
    forall i, p: nat | 0 <= i < |ds| && Covers(ds[i], p)
      ensures p < total
    {
      BelowMaxEnd(ds, i);
    }
  }

  lemma {:induction false} BelowMaxEnd(ds: seq<Desc>, i: nat)
    requires i < |ds| && ds[i].conventional
    ensures ds[i].phys + 4096 * ds[i].pages <= MaxEnd(ds)
    decreases |ds|
  {
    if i == |ds| - 1 {
    } else {
      BelowMaxEnd(ds[..|ds| - 1], i);
    }
  }

  // ---- runs ----

  /** What a call to the allocator may come to: `n` pages from `a` on are handed out, `n` pages are refused, or a page
      is given back. */
  datatype Event = Granted(n: nat, a: nat) | Refused(n: nat) | Freed(p: nat)

  /** The allocator in state `s`, with the pages `live` handed out, may come to `e`. Only live pages are given back. */
  ghost predicate Possible(s: Pm, live: set<nat>, e: Event, total: nat) {
    match e
    case Granted(n, a) =>
      n > 0 && FreeRun(s.bits, a, n, total) && forall b: nat :: b < a ==> !FreeRun(s.bits, b, n, total)
    case Refused(n) => n > 0 ==> forall a: nat :: !FreeRun(s.bits, a, n, total)
    case Freed(p) => p in live
  }

  /** The pages from `a` to `a + n`. */
  function Run(a: nat, n: nat): (r: set<nat>)
    ensures forall p: nat :: p in r <==> a <= p < a + n
  {
    if n == 0 then {} else Run(a, n - 1) + {a + n - 1}
  }

  ghost function After(s: Pm, live: set<nat>, e: Event): (Pm, set<nat>)
    requires match e case Granted(n, a) => a + n <= |s.bits| case Freed(p) => p < |s.bits| case _ => true
  {
    match e
    case Granted(n, a) => (Pm(MarkRun(s.bits, a, n), s.used + n), live + Run(a, n))
    case Refused(n) => (s, live)
    case Freed(p) => (Pm(s.bits[p := false], s.used - 1), live - {p})
  }

  /** The bits set at start-up are still set, and no live page is one of them; and every live page is marked. */
  ghost predicate Safe(m0: seq<bool>, s: Pm, live: set<nat>, total: nat) {
    && |s.bits| == |m0| && total <= |m0|
    && (forall q :: 0 <= q < |m0| && m0[q] ==> s.bits[q] && q !in live)
    && (forall p :: p in live ==> p < total && s.bits[p])
  }

  /** Pages that are handed out were not live, and were not taken at start-up. */
  lemma GrantIsFresh(m0: seq<bool>, s: Pm, live: set<nat>, n: nat, a: nat, total: nat)
    requires Safe(m0, s, live, total) && Possible(s, live, Granted(n, a), total)
    ensures forall p :: p in Run(a, n) ==> p !in live && p < total && !Taken(m0, p)
  {
    forall p | p in Run(a, n)
      ensures p !in live && !Taken(m0, p)
    {
      OwnBit(s.bits, p);
      if Taken(m0, p) {
        MarksKeepTaken(m0, s.bits, p);
      }
    }
  }

  lemma {:induction false} MarkRunCounts(m: seq<bool>, a: nat, n: nat, total: nat)
    requires a + n <= total <= |m| && forall p :: a <= p < a + n ==> !m[p]
    ensures ClearCount(MarkRun(m, a, n), total) == ClearCount(m, total) - n
  {
    if n == 0 {
    } else {
      MarkRunCounts(m, a, n - 1, total);
      MarkRunAt(m, a, n - 1, a + n - 1);
      CountAfterUpdate(MarkRun(m, a, n - 1), total, a + n - 1, true);
    }
  }

  /** One event keeps all of this, and the sum of used pages and clear bits. */
  lemma StepIsSafe(m0: seq<bool>, s: Pm, live: set<nat>, e: Event, total: nat)
    requires Safe(m0, s, live, total) && Possible(s, live, e, total)
    ensures var (s', live') := After(s, live, e);
            Safe(m0, s', live', total) && Sum(s', total) == Sum(s, total)
  {
    match e
    case Granted(n, a) =>
      GrantIsFresh(m0, s, live, n, a, total);
      forall p: nat | p < |s.bits|
        ensures MarkRun(s.bits, a, n)[p] <==> s.bits[p] || a <= p < a + n
      {
        MarkRunAt(s.bits, a, n, p);
      }
      forall q | 0 <= q < |m0| && m0[q]
        ensures q !in Run(a, n)
      {
        OwnBit(m0, q);
      }
      forall p: nat | a <= p < a + n
        ensures !s.bits[p]
      {
        OwnBit(s.bits, p);
      }
      MarkRunCounts(s.bits, a, n, total);
    case Refused(n) =>
    case Freed(p) =>
      CountAfterUpdate(s.bits, total, p, false);
  }

  /** Freeing any page that does not pass the test counts it as unused; that keeps the sum exactly when the page's own
      bit was set, and not when only a higher page of the same byte is in use. */
  lemma FreeKeepsSumExactly(s: Pm, p: nat, total: nat)
    requires p < total <= |s.bits| && Taken(s.bits, p)
    ensures Sum(Pm(s.bits[p := false], s.used - 1), total) == Sum(s, total) <==> s.bits[p]
  {
    CountAfterUpdate(s.bits, total, p, false);
  }

  /** The events of a run are possible one after the other. */
  ghost predicate IsRun(s: Pm, live: set<nat>, es: seq<Event>, total: nat)
    requires total <= |s.bits| && forall p :: p in live ==> p < |s.bits|
    decreases |es|
  {
    es == [] || (Possible(s, live, es[0], total) &&
      var (s', live') := After(s, live, es[0]);
      IsRun(s', live', es[1..], total))
  }

  /** The live pages after a run. */
  ghost function Ends(s: Pm, live: set<nat>, es: seq<Event>, total: nat): (Pm, set<nat>)
    requires total <= |s.bits| && (forall p :: p in live ==> p < |s.bits|) && IsRun(s, live, es, total)
    decreases |es|
  {
    if es == [] then (s, live)
    else
      var (s', live') := After(s, live, es[0]);
      Ends(s', live', es[1..], total)
  }

  /** Over every run whose frees name live pages: no page that was taken at start-up, and no live page, is ever handed
      out, and used pages and clear bits keep their sum. */
  lemma {:induction false} RunIsSafe(m0: seq<bool>, s: Pm, live: set<nat>, es: seq<Event>, total: nat)
    requires Safe(m0, s, live, total) && IsRun(s, live, es, total)
    ensures var (s', live') := Ends(s, live, es, total);
            Safe(m0, s', live', total) && Sum(s', total) == Sum(s, total)
    ensures forall e :: e in es && e.Granted? ==> forall p :: p in Run(e.a, e.n) ==> p < total && !Taken(m0, p)
    decreases |es|
  {
    if es == [] {
    } else {
      StepIsSafe(m0, s, live, es[0], total);
      var (s', live') := After(s, live, es[0]);
      RunIsSafe(m0, s', live', es[1..], total);
      if es[0].Granted? {
        GrantIsFresh(m0, s, live, es[0].n, es[0].a, total);
      }
      assert es == [es[0]] + es[1..];
    }
  }

  /** What a run hands out at any point was not live at that point. */
  lemma {:induction false} LiveNeverGranted(m0: seq<bool>, s: Pm, live: set<nat>, es: seq<Event>, total: nat, i: nat)
    requires Safe(m0, s, live, total) && IsRun(s, live, es, total) && i < |es| && es[i].Granted?
    ensures IsRun(s, live, es[..i], total)
    ensures Ends(s, live, es[..i], total).1 !! Run(es[i].a, es[i].n)
    decreases |es|
  {
    if i == 0 {
      GrantIsFresh(m0, s, live, es[0].n, es[0].a, total);
    } else {
      StepIsSafe(m0, s, live, es[0], total);
      var (s', live') := After(s, live, es[0]);
      LiveNeverGranted(m0, s', live', es[1..], total, i - 1);
      assert es[..i][1..] == es[1..][..i - 1];
    }
  }

  /** No page of a range reserved at start-up is ever handed out; in particular page 0, whose address would read as a
      failure, is not. */
  lemma ReservedNeverGranted(ds: seq<Desc>, rs: seq<Range>, total: nat, es: seq<Event>, i: nat, e: Event, p: nat)
    requires total == MaxEnd(ds) / 4096 && i < |rs| && InRange(rs[i], p, total)
    requires total <= |InitState(ds, rs).bits| && IsRun(InitState(ds, rs), {}, es, total)
    requires e in es && e.Granted?
    ensures !(e.a <= p < e.a + e.n)
  {
    var k := 8 * BitmapBytes(ds);
    EnoughBits(ds);
    var s := InitState(ds, rs);
    ReservedAreTaken(Pm(ClearAll(AllMarked(k), ds, total), 0), rs, total, i, p);
    RunIsSafe(s.bits, s, {}, es, total);
    assert p in Run(e.a, e.n) ==> !Taken(s.bits, p);
  }

  // ---- what is in use at start-up ----

  /** Page `p` holds one of the `size` bytes from address `start` on. A range that ends in the last page of the address
      space, where its end wraps around, is not reserved. */
  predicate Touches(p: nat, start: nat, size: nat) {
    start + size + 4095 < 0x1_0000_0000_0000_0000 && start < 4096 * p + 4096 && 4096 * p < start + size
  }

  /** What is in use when the allocator starts: the kernel's own memory, a bitmap of `bytes` bytes at `base`, the
      framebuffer, a stack that ends at `stackTop`, and the memory map. */
  datatype Boot = Boot(kernel: Range, fb: Range, stackTop: nat, mmap: Range, base: nat, bytes: nat)

  /** Page `p` belongs to the first or the fifth megabyte, or to what is in use when the allocator starts. */
  predicate IsInUse(b: Boot, p: nat) {
    || 4096 * p < 0x10_0000 || 0x40_0000 <= 4096 * p < 0x50_0000
    || Touches(p, b.kernel.start, b.kernel.size) || Touches(p, b.fb.start, b.fb.size)
    || Touches(p, b.mmap.start, b.mmap.size) || Touches(p, b.base, b.bytes)
    || (0x2_0000 <= b.stackTop && Touches(p, b.stackTop - 0x2_0000, 0x2_0000))
  }

  lemma TouchedIsInRange(r: Range, p: nat, total: nat)
    requires Touches(p, r.start, r.size) && p < total
    ensures InRange(r, p, total)
  {
  }

  /** A page in use at start-up is in one of the ranges that are reserved. */
  lemma InUseIsReserved(ds: seq<Desc>, b: Boot, p: nat, total: nat) returns (i: nat)
    requires b.base == AlignUp(Best(ds).phys) && b.bytes == BitmapBytes(ds) && IsInUse(b, p) && p < total
    ensures var rs := Reserved(ds, b.kernel, b.fb, b.stackTop, b.mmap); i < |rs| && InRange(rs[i], p, total)
  {
    var rs := Reserved(ds, b.kernel, b.fb, b.stackTop, b.mmap);
    i := if 4096 * p < 0x10_0000 then 0 else if 0x40_0000 <= 4096 * p < 0x50_0000 then 1
         else if Touches(p, b.kernel.start, b.kernel.size) then 2 else if Touches(p, b.base, b.bytes) then 3
         else if Touches(p, b.fb.start, b.fb.size) then 4 else if Touches(p, b.mmap.start, b.mmap.size) then 6 else 5;
    TouchedIsInRange(rs[i], p, total);
  }

  /** No page that is in use at start-up is ever handed out. */
  lemma InUseNeverGranted(ds: seq<Desc>, b: Boot, total: nat, es: seq<Event>, e: Event, p: nat)
    requires total == MaxEnd(ds) / 4096 && IsInUse(b, p)
    requires b.base == AlignUp(Best(ds).phys) && b.bytes == BitmapBytes(ds)
    requires var s := InitState(ds, Reserved(ds, b.kernel, b.fb, b.stackTop, b.mmap));
             total <= |s.bits| && IsRun(s, {}, es, total)
    requires e in es && e.Granted?
    ensures !(e.a <= p < e.a + e.n)
  {
    var rs := Reserved(ds, b.kernel, b.fb, b.stackTop, b.mmap);
    var s := InitState(ds, rs);
    if p < total {
      var i := InUseIsReserved(ds, b, p, total);
      ReservedNeverGranted(ds, rs, total, es, i, e, p);
    } else {
      RunIsSafe(s.bits, s, {}, es, total);
      assert p in Run(e.a, e.n) ==> p < total;
    }
  }

  /** Page `p` belongs to a conventional part of the memory. */
  ghost predicate IsMemory(ds: seq<Desc>, p: nat) {
    exists d :: d in ds && d.conventional && d.phys / 4096 <= p < d.phys / 4096 + d.pages
  }

  /** What is handed out is conventional memory. */
  lemma GrantedIsMemory(ds: seq<Desc>, rs: seq<Range>, total: nat, es: seq<Event>, e: Event, p: nat)
    requires total == MaxEnd(ds) / 4096 && total <= |InitState(ds, rs).bits| && IsRun(InitState(ds, rs), {}, es, total)
    requires e in es && e.Granted? && e.a <= p < e.a + e.n
    ensures IsMemory(ds, p)
  {
    var k := 8 * BitmapBytes(ds);
    EnoughBits(ds);
    var s := InitState(ds, rs);
    RunIsSafe(s.bits, s, {}, es, total);
    assert p in Run(e.a, e.n);
    OwnBit(s.bits, p);
    ReserveAllMarks(Pm(ClearAll(AllMarked(k), ds, total), 0), rs, total);
    ClearAllAt(AllMarked(k), ds, total, p);
    var i :| 0 <= i < |ds| && Covers(ds[i], p);
    assert ds[i] in ds;
  }

  lemma {:induction false} ReserveAllMarks(s: Pm, rs: seq<Range>, total: nat)
    requires total <= |s.bits|
    ensures Marks(s.bits, ReserveAll(s, rs, total).bits)
    decreases |rs|
  {
    if rs == [] {
    } else {
      var r := rs[|rs| - 1];
      ReserveAllMarks(s, rs[..|rs| - 1], total);
      ReserveRunTakes(ReserveAll(s, rs[..|rs| - 1], total), FirstPage(r), PagesOf(r, total));
    }
  }

  // ---- carrying out a run ----

  /** What a user asks of the allocator: `n` pages, or to take page `p` back. */
  datatype Request = Take(n: nat) | Give(p: nat)

  /** One run after the other is a run. */
  lemma {:induction false} RunThenRun(s: Pm, live: set<nat>, es: seq<Event>, fs: seq<Event>, total: nat)
    requires total <= |s.bits| && (forall p :: p in live ==> p < |s.bits|) && IsRun(s, live, es, total)
    requires var (t, now) := Ends(s, live, es, total);
             total <= |t.bits| && (forall p :: p in now ==> p < |t.bits|) && IsRun(t, now, fs, total)
    ensures IsRun(s, live, es + fs, total)
    ensures var (t, now) := Ends(s, live, es, total);
            Ends(s, live, es + fs, total) == Ends(t, now, fs, total)
    decreases |es|
  {
    if es == [] {
      assert es + fs == fs;
    } else {
      var (s', live') := After(s, live, es[0]);
      RunThenRun(s', live', es[1..], fs, total);
      assert (es + fs)[0] == es[0] && (es + fs)[1..] == es[1..] + fs;
    }
  }

  /** The allocator has come by the run `es` from its state `s` at start-up, and `live` are the pages in use. */
  ghost predicate HasRun(pm: Pmm, s: Pm, es: seq<Event>, live: set<nat>)
    reads pm, pm.bitmap
  {
    && pm.Valid() && pm.bitmap != null && Safe(s.bits, s, {}, pm.total)
    && IsRun(s, {}, es, pm.total) && Ends(s, {}, es, pm.total) == (pm.State(), live)
    && (pm.total > 0 ==> Taken(s.bits, 0))
  }

  /** The allocator, which was in state `t` with the pages `live` in use, came by the event `e` to have `live'` in use.
      */
  ghost predicate HasDone(pm: Pmm, t: Pm, live: set<nat>, e: Event, live': set<nat>)
    reads pm, pm.bitmap
  {
    && pm.Valid() && pm.bitmap != null && pm.total <= |t.bits| && (forall p :: p in live ==> p < |t.bits|)
    && Possible(t, live, e, pm.total) && After(t, live, e) == (pm.State(), live')
  }

  /** Asks for `n` pages. An address other than 0 is one that was handed out, since page 0 never is. */
  method TakePages(pm: Pmm, n: nat, live: set<nat>, ghost m0: seq<bool>) returns (live': set<nat>, ghost e: Event)
    requires pm.Valid() && pm.bitmap != null && Safe(m0, pm.State(), live, pm.total)
    requires pm.total > 0 ==> Taken(m0, 0)
    modifies pm`bits, pm`used, pm`lastAlloc, pm.bitmap
    ensures HasDone(pm, old(pm.State()), live, e, live')
  {
    ghost var t, found, start := pm.State(), false, 0;
    var addr;
    addr, found, start := pm.AllocPages(n);
    e := if found then Granted(n, start) else Refused(n);
    live' := live;
    if found {
      GrantIsFresh(m0, t, live, n, start, pm.total);
      assert start in Run(start, n);
    }
    if addr != 0 {
      live' := live + Run(addr / 4096, n);
    }
  }

  /** Gives a page back that is in use. */
  method GivePage(pm: Pmm, p: nat, live: set<nat>, ghost m0: seq<bool>) returns (live': set<nat>, ghost e: Event)
    requires pm.Valid() && pm.bitmap != null && Safe(m0, pm.State(), live, pm.total) && p in live
    modifies pm`bits, pm`used, pm`lastAlloc, pm.bitmap
    ensures HasDone(pm, old(pm.State()), live, e, live')
  {
    OwnBit(pm.bits, p);
    pm.FreePage(4096 * p);
    live', e := live - {p}, Freed(p);
  }

  /** Carries out one request; a page that is not in use is not given back. */
  method PerformOne(pm: Pmm, q: Request, live: set<nat>, ghost s: Pm, ghost es: seq<Event>)
    returns (live': set<nat>, ghost es': seq<Event>)
    requires HasRun(pm, s, es, live)
    modifies pm`bits, pm`used, pm`lastAlloc, pm.bitmap
    ensures HasRun(pm, s, es', live')
  {
    ghost var t := pm.State();
    RunIsSafe(s.bits, s, {}, es, pm.total);
    ghost var e;
    match q {
      case Take(n) => live', e := TakePages(pm, n, live, s.bits);
      case Give(p) =>
        if p !in live {
          return live, es;
        }
        live', e := GivePage(pm, p, live, s.bits);
    }
    es' := es + [e];
    OneEvent(t, live, e, pm.State(), live', pm.total);
    RunThenRun(s, {}, es, [e], pm.total);
  }

  ghost predicate KeepsSum(pm: Pmm, s: Pm)
    reads pm
  {
    pm.total <= |s.bits| && pm.total <= |pm.bits| && Sum(pm.State(), pm.total) == Sum(s, pm.total)
  }

  /** What is in use when `pm` has started. */
  ghost function BootOf(pm: Pmm, kernel: Range, fb: Range, stackTop: nat, mmap: Range): Boot
    requires pm.bitmap != null
    reads pm
  {
    Boot(kernel, fb, stackTop, mmap, pm.base, pm.bitmap.Length)
  }

  /** The allocator has come by the run `es` from the state in which it starts. */
  ghost predicate HasStarted(pm: Pmm, ds: seq<Desc>, s: Pm, es: seq<Event>, live: set<nat>)
    reads pm, pm.bitmap
  {
    && HasRun(pm, s, es, live) && pm.total == MaxEnd(ds) / 4096
    && pm.base == AlignUp(Best(ds).phys) && pm.bitmap.Length == BitmapBytes(ds)
  }

  /** Starts the allocator and carries out requests: what it does is a run, no page that is in use at start-up is handed
      out or live, only conventional memory is, and used pages and clear bits keep their sum. */
  method StartAndPerform(pm: Pmm, ds: seq<Desc>, kernel: Range, fb: Range, stackTop: nat, mmap: Range, qs: seq<Request>)
    returns (ok: bool, live: set<nat>, ghost es: seq<Event>, ghost s: Pm)
    requires pm.bitmap == null && pm.used == 0 && pm.usable == 0
    modifies pm
    ensures s == InitState(ds, Reserved(ds, kernel, fb, stackTop, mmap))
    ensures ok ==>
              && HasStarted(pm, ds, s, es, live) && KeepsSum(pm, s)
              && NeverGranted(BootOf(pm, kernel, fb, stackTop, mmap), es, live) && OnlyMemory(ds, es)
  {
    live, es := {}, [];
    ghost var rs := Reserved(ds, kernel, fb, stackTop, mmap);
    s := InitState(ds, rs);
    ok := pm.Init(ds, kernel, fb, stackTop, mmap);
    if !ok {
      return;
    }
    StartsRun(pm, ds, rs);
    live, es := PerformAll(pm, qs, ds, s);
    RunIsSafe(s.bits, s, {}, es, pm.total);
    RunGrantsMemory(ds, rs, s, pm.total, es);
    RunGrantsOthers(ds, BootOf(pm, kernel, fb, stackTop, mmap), s, pm.total, es, live);
  }

  method PerformAll(pm: Pmm, qs: seq<Request>, ghost ds: seq<Desc>, ghost s: Pm)
    returns (live: set<nat>, ghost es: seq<Event>)
    requires HasStarted(pm, ds, s, [], {})
    modifies pm`bits, pm`used, pm`lastAlloc, pm.bitmap
    ensures HasStarted(pm, ds, s, es, live)
  {
    live, es := {}, [];
    for i := 0 to |qs|
      invariant HasStarted(pm, ds, s, es, live)
    {
      live, es := PerformOne(pm, qs[i], live, s, es);
    }
  }

  /** Every page that was handed out lies in conventional memory. */
  ghost predicate OnlyMemory(ds: seq<Desc>, es: seq<Event>) {
    forall e, p: nat :: e in es && e.Granted? && e.a <= p < e.a + e.n ==> IsMemory(ds, p)
  }

  lemma RunGrantsMemory(ds: seq<Desc>, rs: seq<Range>, s: Pm, total: nat, es: seq<Event>)
    requires s == InitState(ds, rs) && total == MaxEnd(ds) / 4096 && total <= |s.bits| && IsRun(s, {}, es, total)
    ensures OnlyMemory(ds, es)
  {
    forall e, p: nat | e in es && e.Granted? && e.a <= p < e.a + e.n
      ensures IsMemory(ds, p)
    {
      GrantedIsMemory(ds, rs, total, es, e, p);
    }
  }

  /** No page in use at start-up was handed out, or is live. */
  ghost predicate NeverGranted(b: Boot, es: seq<Event>, live: set<nat>) {
    forall p: nat :: IsInUse(b, p) ==> p !in live && forall e :: e in es && e.Granted? ==> !(e.a <= p < e.a + e.n)
  }

  lemma RunGrantsOthers(ds: seq<Desc>, b: Boot, s: Pm, total: nat, es: seq<Event>, live: set<nat>)
    requires s == InitState(ds, Reserved(ds, b.kernel, b.fb, b.stackTop, b.mmap)) && total == MaxEnd(ds) / 4096
    requires b.base == AlignUp(Best(ds).phys) && b.bytes == BitmapBytes(ds)
    requires total <= |s.bits| && IsRun(s, {}, es, total) && live == Ends(s, {}, es, total).1
    ensures NeverGranted(b, es, live)
  {
    forall p: nat | IsInUse(b, p)
      ensures p !in live && forall e :: e in es && e.Granted? ==> !(e.a <= p < e.a + e.n)
    {
      forall e | e in es && e.Granted?
        ensures !(e.a <= p < e.a + e.n)
      {
        InUseNeverGranted(ds, b, total, es, e, p);
      }
      if p in live {
        var e := LiveWasGranted(s, {}, es, total, p);
      }
    }
  }

  /** A page that is in use after a run was in use before it, or the run handed it out. */
  lemma {:induction false} LiveWasGranted(s: Pm, live: set<nat>, es: seq<Event>, total: nat, p: nat) returns (e: Event)
    requires total <= |s.bits| && (forall q :: q in live ==> q < |s.bits|) && IsRun(s, live, es, total)
    requires p in Ends(s, live, es, total).1 && p !in live
    ensures e in es && e.Granted? && e.a <= p < e.a + e.n
    decreases |es|
  {
    var (s', live') := After(s, live, es[0]);
    if p in live' {
      e := es[0];
    } else {
      e := LiveWasGranted(s', live', es[1..], total, p);
    }
  }

  lemma StartsRun(pm: Pmm, ds: seq<Desc>, rs: seq<Range>)
    requires pm.Valid() && pm.bitmap != null && pm.total == MaxEnd(ds) / 4096
    requires pm.State() == InitState(ds, rs) && rs != [] && rs[0] == Range(0, 0x10_0000)
    ensures HasRun(pm, InitState(ds, rs), [], {})
  {
    EnoughBits(ds);
    if pm.total > 0 {
      var k := 8 * BitmapBytes(ds);
      ReservedAreTaken(Pm(ClearAll(AllMarked(k), ds, pm.total), 0), rs, pm.total, 0, 0);
    }
  }

  lemma OneEvent(t: Pm, live: set<nat>, e: Event, t': Pm, live': set<nat>, total: nat)
    requires total <= |t.bits| && (forall p :: p in live ==> p < |t.bits|) && Possible(t, live, e, total)
    requires After(t, live, e) == (t', live')
    ensures IsRun(t, live, [e], total) && Ends(t, live, [e], total) == (t', live')
  {
    assert [e][1..] == [];
    assert IsRun(t', live', [], total);
  }
}
