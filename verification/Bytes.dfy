/** Bytes, little-endian words and 512-byte sectors. */
module Bytes {

  type byte = x: int | 0 <= x < 0x100
  type u16 = x: int | 0 <= x < 0x1_0000
  type u32 = x: int | 0 <= x < 0x1_0000_0000

  /** Unsigned 32-bit increment and decrement. */
  function Inc32(n: u32): u32 { if n == 0xffff_ffff then 0 else n + 1 }

  function Dec32(n: u32): u32 { if n == 0 then 0xffff_ffff else n - 1 }

  type Sector = s: seq<byte> | |s| == 512 witness seq(512, i => 0)
  type Image = seq<Sector>

  /** The number that the bytes of `s` spell, least significant byte first. */
  function Value(s: seq<byte>): (n: nat)
    ensures |s| == 1 ==> n < 0x100
    ensures |s| == 2 ==> n < 0x1_0000
    ensures |s| == 3 ==> n < 0x100_0000
    ensures |s| == 4 ==> n < 0x1_0000_0000
  {
    if s == [] then 0 else var low: nat := s[0]; low + 0x100 * Value(s[1..])
  }

  /** The `k` low bytes of `n`. */
  function Spell(n: nat, k: nat): (s: seq<byte>)
    ensures |s| == k
  {
    if k == 0 then [] else [n % 0x100] + Spell(n / 0x100, k - 1)
  }

  function Pow256(k: nat): nat {
    if k == 0 then 1 else 0x100 * Pow256(k - 1)
  }

  lemma {:induction false} SpellIsValue(n: nat, k: nat)
    requires n < Pow256(k)
    ensures Value(Spell(n, k)) == n
  {
    if k == 0 {
    } else {
      SpellIsValue(n / 0x100, k - 1);
      assert Spell(n, k)[1..] == Spell(n / 0x100, k - 1);
    }
  }

  /** The 32-bit little-endian word at byte offset `at`. */
  function Word(s: seq<byte>, at: nat): u32
    requires at + 4 <= |s|
  {
    Value(s[at..at + 4])
  }

  /** `s` with the word at byte offset `at` replaced. */
  function WithWord(s: seq<byte>, at: nat, w: u32): (r: seq<byte>)
    requires at + 4 <= |s|
    ensures |r| == |s|
  {
    s[..at] + Spell(w, 4) + s[at + 4..]
  }

  lemma WordThere(s: seq<byte>, at: nat, w: u32)
    requires at + 4 <= |s|
    ensures Word(WithWord(s, at, w), at) == w
  {
    assert WithWord(s, at, w)[at..at + 4] == Spell(w, 4);
    SpellWord(w);
  }

  /** The four bytes of `s` from `at` on hold the number `w`, the lowest one first. */
  predicate HoldsWord(s: seq<byte>, at: nat, w: int) {
    && at + 4 <= |s|
    && s[at] as int + 0x100 * (s[at + 1] as int) + 0x1_0000 * (s[at + 2] as int) + 0x100_0000 * (s[at + 3] as int) == w
  }

  /** The same for two bytes. */
  predicate HoldsHalf(s: seq<byte>, at: nat, w: int) {
    at + 2 <= |s| && s[at] as int + 0x100 * (s[at + 1] as int) == w
  }

  lemma ValueOf2(s: seq<byte>)
    requires |s| == 2
    ensures HoldsHalf(s, 0, Value(s))
  {
    assert Value(s[1..][1..]) == 0;
  }

  lemma ValueOf4(s: seq<byte>)
    requires |s| == 4
    ensures HoldsWord(s, 0, Value(s))
  {
    ValueOf2(s[2..]);
    assert s[1..][1..] == s[2..];
  }

  lemma WordHolds(s: seq<byte>, at: nat)
    requires at + 4 <= |s|
    ensures HoldsWord(s, at, Word(s, at))
  {
    ValueOf4(s[at..at + 4]);
  }

  lemma SpellWord(w: u32)
    ensures Value(Spell(w, 4)) == w
  {
    assert Pow256(2) == 0x1_0000;
    assert Pow256(4) == 0x1_0000_0000;
    SpellIsValue(w, 4);
  }

  lemma WordElsewhere(s: seq<byte>, at: nat, w: u32, at': nat)
    requires at + 4 <= |s| && at' + 4 <= |s|
    requires at' + 4 <= at || at + 4 <= at'
    ensures Word(WithWord(s, at, w), at') == Word(s, at')
  {
    assert WithWord(s, at, w)[at'..at' + 4] == s[at'..at' + 4];
  }

  method StoreWord(a: array<byte>, at: nat, w: u32)
    requires at + 4 <= a.Length
    modifies a
    ensures a[..] == WithWord(old(a[..]), at, w)
  {
    var d := Spell(w, 4);
    a[at], a[at + 1], a[at + 2], a[at + 3] := d[0], d[1], d[2], d[3];
  }

  // ---- shifts and masks ----

  /** `n << k`. */
  function Shl(n: nat, k: nat): nat
    decreases k, n
  {
    if k == 0 then n else 2 * Shl(n, k - 1)
  }

  /** `n >> k`. */
  function Shr(n: nat, k: nat): nat
    decreases k, n
  {
    if k == 0 then n else Shr(n, k - 1) / 2
  }

  /** `n & ((1 << k) - 1)`. */
  function LowBits(n: nat, k: nat): nat
    decreases k, n
  {
    if k == 0 then 0 else LowBits(n, k - 1) + (if Shr(n, k - 1) % 2 == 1 then Shl(1, k - 1) else 0)
  }

  lemma {:induction false} ShlTwice(n: nat, j: nat, k: nat)
    ensures Shl(Shl(n, j), k) == Shl(n, j + k)
  {
    if k == 0 {
    } else {
      ShlTwice(n, j, k - 1);
    }
  }

  lemma Shl7(n: nat)
    ensures Shl(n, 7) == 128 * n
  {
    assert Shl(n, 1) == 2 * n;
    assert Shl(n, 3) == 8 * n;
    assert Shl(n, 5) == 32 * n;
  }

  lemma Shl28(n: nat)
    ensures Shl(n, 28) == 0x1000_0000 * n
  {
    Shl7(n);
    ShlTwice(n, 7, 7);
    Shl7(Shl(n, 7));
    ShlTwice(n, 14, 7);
    Shl7(Shl(n, 14));
    ShlTwice(n, 21, 7);
    Shl7(Shl(n, 21));
  }

  lemma {:induction false} ShlAdds(m: nat, n: nat, k: nat)
    ensures Shl(m + n, k) == Shl(m, k) + Shl(n, k)
    ensures Shl(1, k) > 0
  {
    if k == 0 {
    } else {
      ShlAdds(m, n, k - 1);
    }
  }

  lemma ShlMonotone(m: nat, n: nat, k: nat)
    requires m < n
    ensures Shl(m, k) + Shl(1, k) <= Shl(n, k)
    ensures Shl(1, k) > 0
  {
    ShlAdds(m, n - m, k);
    ShlAdds(1, n - m - 1, k);
  }

  /** Shifting right and masking take a number apart, and shifting left puts it together again. */
  lemma {:induction false} ShiftParts(n: nat, k: nat)
    ensures n == Shl(Shr(n, k), k) + LowBits(n, k)
    ensures LowBits(n, k) < Shl(1, k)
  {
    if k == 0 {
    } else {
      ShiftParts(n, k - 1);
      var h := Shr(n, k - 1);
      ShlAdds(2 * (h / 2), h % 2, k - 1);
      ShlAdds(h / 2, h / 2, k - 1);
    }
  }

  lemma ShiftPartsUnique(q: nat, r: nat, k: nat)
    requires r < Shl(1, k)
    ensures Shr(Shl(q, k) + r, k) == q && LowBits(Shl(q, k) + r, k) == r
  {
    var n := Shl(q, k) + r;
    ShiftParts(n, k);
    if Shr(n, k) < q {
      ShlMonotone(Shr(n, k), q, k);
    } else if q < Shr(n, k) {
      ShlMonotone(q, Shr(n, k), k);
    }
  }

  // ---- sequences ----

  lemma Assoc<T>(a: seq<T>, b: seq<T>, c: seq<T>)
    ensures (a + b) + c == a + (b + c)
  {
  }

  /** Where two parts were joined they come apart again. */
  lemma Joined<T>(a: seq<T>, b: seq<T>)
    ensures (a + b)[..|a|] == a && (a + b)[|a|..] == b
  {
  }

  lemma Cut<T>(s: seq<T>, i: nat)
    requires i <= |s|
    ensures s[..i] + s[i..] == s
    ensures i < |s| ==> s[i..][0] == s[i] && s[i..][1..] == s[i + 1..]
  {
  }
}
