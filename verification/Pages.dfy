/** The physical page allocator: a bitmap whose test looks at more than one bit. */
module Pages {

  // ---- one byte of the bitmap ----

  function Mask(k: nat): bv8
    requires k < 8
  {
    if k < 4 then (if k < 2 then (if k == 0 then 1 else 2) else if k == 2 then 4 else 8)
    else if k < 6 then (if k == 4 then 16 else 32) else if k == 6 then 64 else 128
  }

  predicate BitOf(b: bv8, k: nat)
    requires k < 8
  {
    b & Mask(k) != 0
  }

  lemma OrSetsBit(b: bv8, k: nat, j: nat)
    requires k < 8 && j < 8
    ensures BitOf(b | Mask(k), j) <==> j == k || BitOf(b, j)
  {
  }

  lemma AndClearsBit(b: bv8, k: nat, j: nat)
    requires k < 8 && j < 8
    ensures BitOf(b & !Mask(k), j) <==> j != k && BitOf(b, j)
  {
  }

  lemma OrSets(b: bv8, k: nat, c: bv8)
    requires k < 8 && c == b | Mask(k)
    ensures forall j: nat {:trigger BitOf(c, j)} :: j < 8 ==> (BitOf(c, j) <==> j == k || BitOf(b, j))
  {
    forall j: nat | j < 8
      ensures BitOf(c, j) <==> j == k || BitOf(b, j)
    {
      OrSetsBit(b, k, j);
    }
  }

  lemma AndClears(b: bv8, k: nat, c: bv8)
    requires k < 8 && c == b & !Mask(k)
    ensures forall j: nat {:trigger BitOf(c, j)} :: j < 8 ==> (BitOf(c, j) <==> j != k && BitOf(b, j))
  {
    forall j: nat | j < 8
      ensures BitOf(c, j) <==> j != k && BitOf(b, j)
    {
      AndClearsBit(b, k, j);
    }
  }

  /** Shifting without masking keeps every higher bit. */
  lemma ShiftKeepsHigher(b: bv8, k: nat)
    requires k < 8
    ensures b >> k != 0 <==> exists j: nat :: k <= j < 8 && BitOf(b, j)
  {
    assert b >> k != 0 <==>
           (k <= 0 && BitOf(b, 0)) || (k <= 1 && BitOf(b, 1)) || (k <= 2 && BitOf(b, 2)) || (k <= 3 && BitOf(b, 3)) ||
           (k <= 4 && BitOf(b, 4)) || (k <= 5 && BitOf(b, 5)) || (k <= 6 && BitOf(b, 6)) || BitOf(b, 7);
  }

  // ---- the bitmap as a list of marks ----

  /** The first page of the next byte of the bitmap. */
  function ByteEnd(p: nat): nat { p / 8 * 8 + 8 }

  /** The test for a page that is not free: it, or a higher page of the same byte, is marked. */
  ghost predicate Taken(m: seq<bool>, p: nat) {
    exists q: nat :: p <= q < ByteEnd(p) && q < |m| && m[q]
  }

  /** The marks after `n` pages from `a` on were marked. */
  function MarkRun(m: seq<bool>, a: nat, n: nat): (r: seq<bool>)
    requires a + n <= |m|
    ensures |r| == |m|
  {
    if n == 0 then m else MarkRun(m, a, n - 1)[a + n - 1 := true]
  }

  lemma {:induction false} MarkRunAt(m: seq<bool>, a: nat, n: nat, p: nat)
    requires a + n <= |m| && p < |m|
    ensures MarkRun(m, a, n)[p] <==> m[p] || a <= p < a + n
  {
    if n == 0 {
    } else {
      MarkRunAt(m, a, n - 1, p);
    }
  }

  /** `n` pages in a row from `a` on that all pass the test. */
  ghost predicate FreeRun(m: seq<bool>, a: nat, n: nat, total: nat) {
    a + n <= total && forall p {:trigger Taken(m, p)} :: a <= p < a + n ==> !Taken(m, p)
  }

  /** The state of the allocator that its users rely on: the marks, and how many pages are counted as used. */
  datatype Pm = Pm(bits: seq<bool>, used: int)

  /** The state after `n` pages from `first` on were reserved; a page that does not pass the test is left alone. */
  ghost function ReserveRun(s: Pm, first: nat, n: nat): (r: Pm)
    requires n > 0 ==> first + n <= |s.bits|
    ensures |r.bits| == |s.bits|
  {
    if n == 0 then s
    else
      var t := ReserveRun(s, first, n - 1);
      if Taken(t.bits, first + n - 1) then t else Pm(t.bits[first + n - 1 := true], t.used + 1)
  }

  /** An address range to be reserved. */
  datatype Range = Range(start: nat, size: nat)

  /** Addresses have 64 bits. */
  function Wrap(v: int): nat { v % 0x1_0000_0000_0000_0000 }

  function AlignUp(v: nat): nat { (v + 4095) / 4096 * 4096 }

  function FirstPage(r: Range): nat { r.start / 4096 }

  /** The page behind the last one that the range touches, unless its end wraps around. */
  function PastPage(r: Range): nat { Wrap(Wrap(r.start + r.size) + 4095) / 4096 }

  function PagesOf(r: Range, total: nat): nat {
    var past := if PastPage(r) < total then PastPage(r) else total;
    if FirstPage(r) < past then past - FirstPage(r) else 0
  }

  ghost function Reserve(s: Pm, r: Range, total: nat): (t: Pm)
    requires total <= |s.bits|
    ensures |t.bits| == |s.bits|
  {
    ReserveRun(s, FirstPage(r), PagesOf(r, total))
  }

  ghost function ReserveAll(s: Pm, rs: seq<Range>, total: nat): (t: Pm)
    requires total <= |s.bits|
    ensures |t.bits| == |s.bits|
  {
    if rs == [] then s else Reserve(ReserveAll(s, rs[..|rs| - 1], total), rs[|rs| - 1], total)
  }

  /** A descriptor of the memory map. */
  datatype Desc = Desc(conventional: bool, phys: nat, pages: nat)

  predicate Covers(d: Desc, p: nat) { d.conventional && d.phys / 4096 <= p < d.phys / 4096 + d.pages }

  /** The marks after those of `n` pages from `first` on were cleared. */
  function ClearRun(m: seq<bool>, first: nat, n: nat, total: nat): (r: seq<bool>)
    requires total <= |m|
    ensures |r| == |m|
  {
    if n == 0 then m
    else
      var t := ClearRun(m, first, n - 1, total);
      if first + n - 1 < total then t[first + n - 1 := false] else t
  }

  function ClearAll(m: seq<bool>, ds: seq<Desc>, total: nat): (r: seq<bool>)
    requires total <= |m|
    ensures |r| == |m|
  {
    if ds == [] then m
    else
      var t, d := ClearAll(m, ds[..|ds| - 1], total), ds[|ds| - 1];
      if d.conventional then ClearRun(t, d.phys / 4096, d.pages, total) else t
  }

  function SumPages(ds: seq<Desc>): nat {
    if ds == [] then 0
    else SumPages(ds[..|ds| - 1]) + if ds[|ds| - 1].conventional then ds[|ds| - 1].pages else 0
  }

  function MaxEnd(ds: seq<Desc>): nat {
    if ds == [] then 0
    else
      var m, d := MaxEnd(ds[..|ds| - 1]), ds[|ds| - 1];
      if d.conventional && d.phys + 4096 * d.pages > m then d.phys + 4096 * d.pages else m
  }

  function AllMarked(n: nat): (m: seq<bool>)
    ensures |m| == n
  {
    seq(n, i => true)
  }

  // ---- the allocator ----

  class Pmm {
    var bitmap: array?<bv8>
    /** The address of the bitmap. */
    var base: nat
    var total: nat
    var used: int
    var usable: nat
    var lastAlloc: nat
    ghost var bits: seq<bool>

    ghost predicate Valid()
      reads this, bitmap
    {
      bitmap != null ==>
        && total / 8 < bitmap.Length && |bits| == 8 * bitmap.Length
        && forall p {:trigger bits[p]} :: 0 <= p < |bits| ==> bits[p] == BitOf(bitmap[p / 8], p % 8)
    }

    ghost function State(): Pm
      reads this
    {
      Pm(bits, used)
    }

    constructor ()
      ensures Valid() && bitmap == null && used == 0 && usable == 0
    {
      bitmap, base, total, used, usable, lastAlloc := null, 0, 0, 0, 0, 0;
      bits := [];
    }

    method Set(p: nat)
      requires Valid() && bitmap != null && p < |bits|
      modifies bitmap, `bits
      ensures Valid() && bits == old(bits)[p := true]
    {
      var b := bitmap[p / 8];
      var c := b | Mask(p % 8);
      OrSets(b, p % 8, c);
      bitmap[p / 8] := c;
      bits := bits[p := true];
    }

    method Clear(p: nat)
      requires Valid() && bitmap != null && p < |bits|
      modifies bitmap, `bits
      ensures Valid() && bits == old(bits)[p := false]
    {
      var b := bitmap[p / 8];
      var c := b & !Mask(p % 8);
      AndClears(b, p % 8, c);
      bitmap[p / 8] := c;
      bits := bits[p := false];
    }

    method Test(p: nat) returns (taken: bool)
      requires Valid() && bitmap != null && p < |bits|
      ensures taken <==> Taken(bits, p)
    {
      taken := bitmap[p / 8] >> (p % 8) != 0;
      ShiftKeepsHigher(bitmap[p / 8], p % 8);
      if taken {
        var j: nat :| p % 8 <= j < 8 && BitOf(bitmap[p / 8], j);
        assert bits[p / 8 * 8 + j];
      } else {
        forall q: nat | p <= q < ByteEnd(p) && q < |bits|
          ensures !bits[q]
        {
          assert q / 8 == p / 8 && p % 8 <= q % 8;
        }
      }
    }

    method ReservRange(r: Range)
      requires Valid() && bitmap != null && total <= |bits|
      modifies bitmap, `bits, `used
      ensures Valid() && State() == Reserve(old(State()), r, total)
    {
      var first, last := r.start / 4096, Wrap(Wrap(r.start + r.size) + 4095) / 4096;
      ghost var s, n: nat := State(), 0;
      var p := first;
      while p < last && p < total
        invariant Valid() && first <= p && n == p - first && n <= PagesOf(r, total) && |bits| == |s.bits|
        invariant n < PagesOf(r, total) <==> p < last && p < total
        invariant State() == ReserveRun(s, first, n)
      {
        ghost var m := n + 1;
        ReservePage(p, s, first, n, m);
        p, n := p + 1, m;
      }
    }

    /** Marks a page, and counts it if it was not taken. */
    method ReservePage(p: nat, ghost s: Pm, ghost first: nat, ghost n: nat, ghost m: nat)
      requires Valid() && bitmap != null && p < |bits| == |s.bits| && p == first + n && m == n + 1
      requires State() == ReserveRun(s, first, n)
      modifies bitmap, `bits, `used
      ensures Valid() && |bits| == |s.bits| && State() == ReserveRun(s, first, m)
    {
      var taken := Test(p);
      if !taken {
        Set(p);
        used := used + 1;
      }
    }

    /** Marks the pages `a` to `b`. */
    method Grab(a: nat, b: nat)
      requires Valid() && bitmap != null && a <= b <= |bits|
      modifies bitmap, `bits
      ensures Valid() && bits == MarkRun(old(bits), a, b - a)
    {
      var i := a;
      while i < b
        invariant a <= i <= b && Valid() && |bits| == |old(bits)| && bits == MarkRun(old(bits), a, i - a)
      {
        Set(i);
        i := i + 1;
      }
    }

    /** The search for `n` free pages has come to page `p`: the `count` pages just behind it pass the test, `first`
        being the first of them, and the run reaches no further back; and no run that ends here or earlier is long
        enough. */
    ghost predicate Seeking(p: nat, count: nat, first: nat, n: nat)
      reads this
    {
      && p <= total <= |bits| && count <= p && count < n && (count > 0 ==> first == p - count)
      && (forall q {:trigger Taken(bits, q)} :: p - count <= q < p ==> !Taken(bits, q))
      && (count < p ==> Taken(bits, p - count - 1))
      && forall a: nat {:trigger FreeRun(bits, a, n, total)} :: a + n <= p ==> !FreeRun(bits, a, n, total)
    }

    /** Tests one page. */
    method Look(p: nat, ghost next: nat, count: nat, first: nat, n: nat) returns (count': nat, first': nat)
      requires Valid() && bitmap != null && p < total && Seeking(p, count, first, n) && next == p + 1
      ensures if count' == n then
                && FreeRun(bits, first', n, total) && first' + n == next
                && forall a: nat :: a < first' ==> !FreeRun(bits, a, n, total)
              else Seeking(next, count', first', n)
    {
      count', first' := count, first;
      var taken := Test(p);
      if !taken {
        if count == 0 {
          first' := p;
        }
        count' := count + 1;
      } else {
        count' := 0;
      }
    }

    /** Marks the run of `n` pages that ends before page `end`. */
    method TakeRun(first: nat, n: nat, end: nat)
      requires Valid() && bitmap != null && first + n == end <= |bits|
      modifies `bits, `used, `lastAlloc, bitmap
      ensures Valid() && bitmap == old(bitmap) && total == old(total)
      ensures State() == Pm(MarkRun(old(bits), first, n), old(used) + n) && lastAlloc == end
    {
      assert end - first == n;
      Grab(first, end);
      used := used + n;
      lastAlloc := end;
    }

    /** Hands out the lowest run of `n` pages that all pass the test; there is none exactly when it fails, and then
        nothing changes. */
    method AllocPages(n: nat) returns (addr: nat, ghost found: bool, ghost start: nat)
      requires Valid() && (bitmap != null ==> total <= |bits|)
      modifies `bits, `used, `lastAlloc, bitmap
      ensures Valid() && bitmap == old(bitmap) && total == old(total)
      ensures addr == if found then 4096 * start else 0
      ensures found <==> bitmap != null && n > 0 && exists a: nat :: FreeRun(old(bits), a, n, total)
      ensures found ==>
                && FreeRun(old(bits), start, n, total)
                && (forall a: nat :: a < start ==> !FreeRun(old(bits), a, n, total))
                && start + n <= |old(bits)| && State() == Pm(MarkRun(old(bits), start, n), old(used) + n)
                && lastAlloc == start + n
      ensures !found ==> State() == old(State()) && lastAlloc == old(lastAlloc)
    {
      addr, found, start := 0, false, 0;
      if bitmap == null || n == 0 {
        return;
      }
      var count: nat, first: nat, p: nat := 0, 0, 0;
      while p < total
        invariant Valid() && bitmap == old(bitmap) && total == old(total)
        invariant State() == old(State()) && lastAlloc == old(lastAlloc)
        invariant Seeking(p, count, first, n)
      {
        ghost var next := p + 1;
        count, first := Look(p, next, count, first, n);
        if count == n {
          TakeRun(first, n, p + 1);
          addr, found, start := first * 4096, true, first;
          return;
        }
        p := p + 1;
      }
    }

    /** Takes a page back if the test says it is in use. */
    method FreePage(addr: nat)
      requires Valid() && (bitmap != null ==> total <= |bits|)
      modifies `bits, `used, `lastAlloc, bitmap
      ensures Valid() && bitmap == old(bitmap) && total == old(total)
      ensures var p := addr / 4096;
              if bitmap != null && p < total && Taken(old(bits), p) then
                State() == Pm(old(bits)[p := false], old(used) - 1)
              else State() == old(State())
    {
      if bitmap == null {
        return;
      }
      var p := addr / 4096;
      if p >= total {
        return;
      }
      var taken := Test(p);
      if !taken {
        return;
      }
      Clear(p);
      used := used - 1;
      if p < lastAlloc {
        lastAlloc := p;
      }
    }

    /** Marks every page, then clears the pages of the conventional memory. */
    method ClearConventional(ds: seq<Desc>, bytes: nat)
      requires total / 8 < bytes
      modifies `bitmap, `bits, `usable
      ensures Valid() && bitmap != null && fresh(bitmap) && bitmap.Length == bytes
      ensures total == old(total) && used == old(used)
      ensures bits == ClearAll(AllMarked(8 * bytes), ds, total)
      ensures usable == old(usable) + SumPages(ds)
    {
      AllBitsOf255();
      bitmap := new bv8[bytes](i => 255);
      bits := AllMarked(8 * bytes);
      var i := 0;
      while i < |ds|
        invariant i <= |ds| && Valid() && bitmap != null && fresh(bitmap) && |bits| == 8 * bytes
        invariant bitmap.Length == bytes
        invariant total == old(total) && used == old(used)
        invariant bits == ClearAll(AllMarked(8 * bytes), ds[..i], total)
        invariant usable == old(usable) + SumPages(ds[..i])
      {
        var d := ds[i];
        assert ds[..i + 1][..i] == ds[..i];
        if d.conventional {
          ClearPages(d);
          usable := usable + d.pages;
        }
        i := i + 1;
      }
      assert ds[..i] == ds;
    }

    method ClearPages(d: Desc)
      requires Valid() && bitmap != null && total <= |bits|
      modifies bitmap, `bits
      ensures Valid() && bits == ClearRun(old(bits), d.phys / 4096, d.pages, total)
    {
      var first := d.phys / 4096;
      ghost var m := bits;
      var p := first;
      while p < first + d.pages && p < total
        invariant first <= p <= first + d.pages && Valid() && |bits| == |m|
        invariant bits == ClearRun(m, first, p - first, total)
      {
        Clear(p);
        p := p + 1;
      }
      ClearBeyond(m, first, p - first, d.pages, total);
    }

    /** Builds the bitmap from the memory map and reserves what is in use at start-up. It fails when there is no
        conventional memory, or when the bitmap does not fit into the largest part of it. */
    method Init(ds: seq<Desc>, kernel: Range, fb: Range, stackTop: nat, mmap: Range) returns (ok: bool)
      requires bitmap == null && used == 0 && usable == 0
      modifies this
      ensures ok <==> MaxEnd(ds) > 0 &&
                      AlignUp(Best(ds).phys) + BitmapBytes(ds) <= Best(ds).phys + 4096 * Best(ds).pages
      ensures ok ==>
                && Valid() && bitmap != null && fresh(bitmap) && total == MaxEnd(ds) / 4096 && usable == SumPages(ds)
                && base == AlignUp(Best(ds).phys) && bitmap.Length == BitmapBytes(ds)
                && State() == InitState(ds, Reserved(ds, kernel, fb, stackTop, mmap))
    {
      if |ds| == 0 {
        return false;
      }
      var maxAddr, best := 0, Desc(true, 0, 0);
      var i := 0;
      while i < |ds|
        invariant i <= |ds| && maxAddr == MaxEnd(ds[..i])
      {
        assert ds[..i + 1][..i] == ds[..i];
        if ds[i].conventional {
          var end := ds[i].phys + ds[i].pages * 4096;
          if end > maxAddr {
            maxAddr := end;
          }
        }
        i := i + 1;
      }
      assert ds[..i] == ds;
      if maxAddr == 0 {
        return false;
      }
      total := maxAddr / 4096;
      var bytes := AlignUp(total / 8 + 1);
      i := 0;
      while i < |ds|
        invariant i <= |ds| && best == Best(ds[..i])
      {
        assert ds[..i + 1][..i] == ds[..i];
        if ds[i].conventional && ds[i].pages > best.pages {
          best := ds[i];
        }
        i := i + 1;
      }
      assert ds[..i] == ds;
      base := AlignUp(best.phys);
      if base + bytes > best.phys + best.pages * 4096 {
        return false;
      }
      ClearConventional(ds, bytes);
      ReserveThese(ds, kernel, Range(base, bytes), fb, stackTop, mmap);
      ok := true;
    }

    method ReserveThese(ghost ds: seq<Desc>, kernel: Range, own: Range, fb: Range, stackTop: nat, mmap: Range)
      requires Valid() && bitmap != null && total <= |bits|
      requires own == Range(AlignUp(Best(ds).phys), BitmapBytes(ds))
      modifies bitmap, `bits, `used
      ensures Valid() && State() == ReserveAll(old(State()), Reserved(ds, kernel, fb, stackTop, mmap), total)
    {
      ghost var s, rs := State(), Reserved(ds, kernel, fb, stackTop, mmap);
      assert rs[..0] == [];
      ReserveNth(Range(0, 0x10_0000), s, rs, 0);
      ReserveNth(Range(0x40_0000, 0x10_0000), s, rs, 1);
      ReserveNth(kernel, s, rs, 2);
      ReserveNth(own, s, rs, 3);
      ReserveMore(fb, Range(Wrap(stackTop - 0x2_0000), 0x2_0000), mmap, s, rs);
    }

    method ReserveMore(fb: Range, stack: Range, mmap: Range, ghost s: Pm, ghost rs: seq<Range>)
      requires Valid() && bitmap != null && total <= |bits| && total <= |s.bits|
      requires |rs| == 8 && rs[4] == fb && rs[5] == stack && rs[6] == mmap && rs[7] == Range(0x40_0000, 0x10_0000)
      requires State() == ReserveAll(s, rs[..4], total)
      modifies bitmap, `bits, `used
      ensures Valid() && State() == ReserveAll(s, rs, total)
    {
      ReserveNth(fb, s, rs, 4);
      ReserveNth(stack, s, rs, 5);
      ReserveNth(mmap, s, rs, 6);
      ReserveNth(Range(0x40_0000, 0x10_0000), s, rs, 7);
      assert rs[..8] == rs;
    }

    /** Reserves the `i`-th of the ranges `rs`. */
    method ReserveNth(r: Range, ghost s: Pm, ghost rs: seq<Range>, ghost i: nat)
      requires Valid() && bitmap != null && total <= |bits| && total <= |s.bits| && i < |rs| && r == rs[i]
      requires State() == ReserveAll(s, rs[..i], total)
      modifies bitmap, `bits, `used
      ensures Valid() && total <= |bits| && State() == ReserveAll(s, rs[..i + 1], total)
    {
      assert rs[..i + 1][..i] == rs[..i];
      ReservRange(r);
    }
  }

  /** The largest part of the conventional memory, the first one if there are several. */
  function Best(ds: seq<Desc>): Desc {
    if ds == [] then Desc(true, 0, 0)
    else
      var b, d := Best(ds[..|ds| - 1]), ds[|ds| - 1];
      if d.conventional && d.pages > b.pages then d else b
  }

  function BitmapBytes(ds: seq<Desc>): nat { AlignUp(MaxEnd(ds) / 4096 / 8 + 1) }

  /** What is reserved at start-up: the first megabyte, the program area, the kernel, the bitmap itself, the
      framebuffer, the stack and the memory map. */
  function Reserved(ds: seq<Desc>, kernel: Range, fb: Range, stackTop: nat, mmap: Range): (rs: seq<Range>)
    ensures |rs| == 8
  {
    [Range(0, 0x10_0000), Range(0x40_0000, 0x10_0000), kernel, Range(AlignUp(Best(ds).phys), BitmapBytes(ds)), fb,
     Range(Wrap(stackTop - 0x2_0000), 0x2_0000), mmap, Range(0x40_0000, 0x10_0000)]
  }

  lemma AlignUpIs(v: nat)
    ensures AlignUp(v) % 4096 == 0 && v <= AlignUp(v) < v + 4096
  {
  }

  /** The bitmap has whole pages, as few as hold a bit for each page of memory and one byte more. */
  lemma BitmapBytesAre(ds: seq<Desc>, bytes: nat)
    ensures bytes == BitmapBytes(ds) <==>
            bytes % 4096 == 0 && MaxEnd(ds) / 4096 / 8 < bytes <= MaxEnd(ds) / 4096 / 8 + 4096
  {
    var v := MaxEnd(ds) / 4096 / 8 + 1;
    AlignUpIs(v);
    if bytes % 4096 == 0 && v <= bytes < v + 4096 {
      assert bytes / 4096 == AlignUp(v) / 4096;
    }
  }

  /** Memory ends where the last conventional part of it does. */
  lemma {:induction false} MaxEndIs(ds: seq<Desc>)
    ensures forall d :: d in ds && d.conventional ==> d.phys + 4096 * d.pages <= MaxEnd(ds)
    ensures MaxEnd(ds) == 0 || exists d :: d in ds && d.conventional && d.phys + 4096 * d.pages == MaxEnd(ds)
    decreases |ds|
  {
    if ds == [] {
    } else {
      var rest, d := ds[..|ds| - 1], ds[|ds| - 1];
      MaxEndIs(rest);
      assert ds == rest + [d];
    }
  }

  /** The bitmap is placed in the first of the largest conventional parts. */
  lemma {:induction false} BestIs(ds: seq<Desc>)
    ensures forall d :: d in ds && d.conventional ==> d.pages <= Best(ds).pages
    ensures Best(ds).pages == 0 ||
            exists i :: 0 <= i < |ds| && ds[i] == Best(ds) && ds[i].conventional &&
              forall j :: 0 <= j < i && ds[j].conventional ==> ds[j].pages < ds[i].pages
    decreases |ds|
  {
    if ds == [] {
    } else {
      var rest, d := ds[..|ds| - 1], ds[|ds| - 1];
      BestIs(rest);
      assert ds == rest + [d];
      if Best(ds) == Best(rest) && Best(rest).pages > 0 {
        var i :| 0 <= i < |rest| && rest[i] == Best(rest) && rest[i].conventional &&
          forall j :: 0 <= j < i && rest[j].conventional ==> rest[j].pages < rest[i].pages;
        assert ds[i] == rest[i];
      } else if Best(ds).pages > 0 {
        assert ds[|rest|] == d;
      }
    }
  }

  lemma EnoughBits(ds: seq<Desc>)
    ensures MaxEnd(ds) / 4096 <= 8 * BitmapBytes(ds)
  {
  }

  /** The state when start-up is over. */
  ghost function InitState(ds: seq<Desc>, rs: seq<Range>): Pm {
    EnoughBits(ds);
    var total, n := MaxEnd(ds) / 4096, 8 * BitmapBytes(ds);
    ReserveAll(Pm(ClearAll(AllMarked(n), ds, total), 0), rs, total)
  }

  lemma AllBitsOf255()
    ensures forall j: nat :: j < 8 ==> BitOf(255, j)
  {
  }

  lemma {:induction false} ClearBeyond(m: seq<bool>, first: nat, k: nat, n: nat, total: nat)
    requires total <= |m| && k <= n && (k < n ==> first + k >= total)
    ensures ClearRun(m, first, n, total) == ClearRun(m, first, k, total)
    decreases n
  {
    if k == n {
    } else {
      ClearBeyond(m, first, k, n - 1, total);
    }
  }
}
