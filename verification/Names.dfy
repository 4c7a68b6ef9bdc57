/** File names in directory slots: the 8.3 form, its checksum, and the fragments of a long name. */
module Names {
  import opened Bytes

  type Slot = s: seq<byte> | |s| == 32 witness seq(32, i => 0)
  type Name11 = s: seq<byte> | |s| == 11 witness seq(11, i => 0x20)

  const SLOT_LAST: byte := 0x00
  const SLOT_FREE: byte := 0xe5
  const ATTR_LFN: byte := 0x0f
  const DOT: byte := 0x2e
  const PAD: byte := 0x20

  predicate IsLast(s: Slot) { s[0] == SLOT_LAST }

  predicate IsFree(s: Slot) { s[0] == SLOT_LAST || s[0] == SLOT_FREE }

  predicate IsLfn(s: Slot) { s[11] == ATTR_LFN }

  // ---- the 8.3 name ----

  function ToUpper(c: byte): byte {
    if 0x61 <= c <= 0x7a then c - 0x20 else c
  }

  /** The characters of `!#$%&'()-@^_`{}~` and the space. */
  predicate IsSpecial(c: byte) {
    c == 0x20 || c == 0x21 || 0x23 <= c <= 0x29 || c == 0x2d || c == 0x40 || 0x5e <= c <= 0x60 || c == 0x7b || 0x7d <= c
    <= 0x7e }

  function SfnChar(c: byte): (r: byte)
    ensures r != SLOT_LAST && r != SLOT_FREE
  {
    var u := ToUpper(c);
    if 0x41 <= u <= 0x5a || IsSpecial(u) then u else 0x5f
  }

  /** How many characters of `name` go in front of the dot: up to 8, and none from a dot on. */
  function BaseLen(name: seq<byte>, i: nat): (n: nat)
    requires i <= |name| && i <= 8
    ensures i <= n <= |name| && n <= 8
    decreases 8 - i
  {
    if i < |name| && i < 8 && name[i] != DOT then BaseLen(name, i + 1) else i
  }

  /** Where the extension starts: behind the first dot from `i` on, or at the end. */
  function AfterDot(name: seq<byte>, i: nat): (n: nat)
    requires i <= |name|
    ensures i <= n <= |name|
    decreases |name| - i
  {
    if i == |name| then i else if name[i] == DOT then i + 1 else AfterDot(name, i + 1)
  }

  function SfnChars(s: seq<byte>): (r: seq<byte>)
    ensures |r| == |s|
    ensures forall i :: 0 <= i < |s| ==> r[i] == SfnChar(s[i])
  {
    if s == [] then [] else [SfnChar(s[0])] + SfnChars(s[1..])
  }

  function Padded(s: seq<byte>, n: nat): (r: seq<byte>)
    requires |s| <= n
    ensures |r| == n
  {
    s + seq(n - |s|, i => PAD)
  }

  function Min(a: nat, b: nat): nat { if a < b then a else b }

  /** The 8.3 form of a name. */
  function SfnName(name: seq<byte>): Name11 {
    var b := BaseLen(name, 0);
    var e := AfterDot(name, b);
    Padded(SfnChars(name[..b]), 8) + Padded(SfnChars(name[e..Min(e + 3, |name|)]), 3)
  }

  /** An 8.3 name made here never makes its slot look free or last. */
  lemma SfnNameIsNotFree(name: seq<byte>)
    ensures SfnName(name)[0] != SLOT_LAST && SfnName(name)[0] != SLOT_FREE
  {
  }

  /** The checksum over the first `n` bytes of an 8.3 name. */
  function CrcUpTo(name: Name11, n: nat): byte
    requires n <= 11
    decreases n, name
  {
    if n == 0 then 0
    else
      var sum := CrcUpTo(name, n - 1);
      (sum % 2 * 128 + sum / 2 + name[n - 1]) % 0x100
  }

  function Crc(name: Name11): byte { CrcUpTo(name, 11) }

  method PutSfnName(name: seq<byte>) returns (sfn: array<byte>)
    ensures fresh(sfn) && sfn.Length == 11 && sfn[..] == SfnName(name)
  {
    sfn := new byte[11];
    var i := PutBase(sfn, name);
    i := SkipToDot(name, i);
    PutExtension(sfn, name, i);
    assert sfn[..] == sfn[..8] + sfn[8..];
  }

  /** The 8.3 form of a name, as a value. */
  method ShortName(name: seq<byte>) returns (short: Name11)
    ensures short == SfnName(name)
  {
    var sfn := PutSfnName(name);
    short := sfn[..];
  }

  method PutBase(sfn: array<byte>, name: seq<byte>) returns (i: nat)
    requires sfn.Length == 11
    modifies sfn
    ensures i == BaseLen(name, 0)
    ensures sfn[..8] == Padded(SfnChars(name[..i]), 8)
  {
    i := 0;
    while i < Min(|name|, 8) && name[i] != DOT
      invariant i <= |name| && i <= 8
      invariant BaseLen(name, i) == BaseLen(name, 0)
      invariant sfn[..i] == SfnChars(name[..i])
    {
      sfn[i] := SfnChar(name[i]);
      i := i + 1;
    }
    PadBase(sfn, i, SfnChars(name[..i]));
  }

  method PadBase(sfn: array<byte>, i: nat, ghost chars: seq<byte>)
    requires i <= 8 <= sfn.Length && sfn[..i] == chars
    modifies sfn
    ensures sfn[..8] == Padded(chars, 8)
  {
    var j := i;
    while j < 8
      invariant i <= j <= 8
      invariant sfn[..j] == Padded(chars, j)
    {
      sfn[j] := PAD;
      j := j + 1;
    }
  }

  method PutExtension(sfn: array<byte>, name: seq<byte>, start: nat)
    requires sfn.Length == 11 && start <= |name|
    modifies sfn
    ensures sfn[..8] == old(sfn[..8])
    ensures sfn[8..] == Padded(SfnChars(name[start..Min(start + 3, |name|)]), 3)
  {
    var j, i := 0, start;
    while j < 3 && i < |name|
      invariant 0 <= j <= 3 && i == start + j <= |name|
      invariant sfn[..8] == old(sfn[..8])
      invariant sfn[8..8 + j] == SfnChars(name[start..i])
    {
      sfn[8 + j] := SfnChar(name[i]);
      j, i := j + 1, i + 1;
    }
    assert i == Min(start + 3, |name|);
    while j < 3
      invariant i - start <= j <= 3
      invariant sfn[..8] == old(sfn[..8])
      invariant sfn[8..8 + j] == Padded(SfnChars(name[start..i]), j)
    {
      sfn[8 + j] := PAD;
      j := j + 1;
    }
    assert sfn[8..] == sfn[8..8 + j];
  }

  method SkipToDot(name: seq<byte>, start: nat) returns (i: nat)
    requires start <= |name|
    ensures i == AfterDot(name, start)
  {
    i := start;
    while i < |name|
      invariant i <= |name| && AfterDot(name, i) == AfterDot(name, start)
    {
      i := i + 1;
      if name[i - 1] == DOT {
        return;
      }
    }
  }

  method GetCrc(name: Name11) returns (sum: byte)
    ensures sum == Crc(name)
  {
    sum := 0;
    for i := 0 to 11
      invariant sum == CrcUpTo(name, i)
    {
      sum := (sum % 2 * 128 + sum / 2 + name[i]) % 0x100;
    }
  }

  // ---- long names ----

  /** Where the low bytes of the 13 characters of a fragment lie. */
  function LfnIndex(i: nat): nat { if i < 5 then 2 * i + 1 else if i < 11 then 2 * i + 4 else 2 * i + 6 }

  function CharAt(s: Slot, i: nat): byte
    requires i < 13
  {
    s[LfnIndex(i)]
  }

  /** The characters of a fragment from the `i`-th on, up to the first zero. */
  function FragFrom(s: Slot, i: nat): (f: seq<byte>)
    requires i <= 13
    ensures |f| <= 13 - i
    decreases 13 - i, s
  {
    if i == 13 || CharAt(s, i) == 0 then [] else [CharAt(s, i)] + FragFrom(s, i + 1)
  }

  function Frag(s: Slot): (f: seq<byte>)
    ensures |f| <= 13
  {
    FragFrom(s, 0)
  }

  /** The two bytes of character `i` in a slot that holds `frag`. */
  function Lo(frag: seq<byte>, i: nat): byte {
    if i < |frag| then frag[i] else if i == |frag| then 0 else 0xff
  }

  function Hi(frag: seq<byte>, i: nat): byte {
    if i <= |frag| then 0 else 0xff
  }

  /** Byte `p` of a slot that holds a fragment: the sequence number, the attribute, type and checksum, the unused
      cluster, and the characters at the places that LfnIndex names. */
  function LfnByte(frag: seq<byte>, seqNo: byte, crc: byte, p: nat): byte {
    if p == 0 then seqNo
    else if p < 11 then (if p % 2 == 1 then Lo(frag, p / 2) else Hi(frag, p / 2 - 1))
    else if p == 11 then ATTR_LFN
    else if p == 13 then crc
    else if p == 12 || p == 26 || p == 27 then 0
    else if p < 26 then (if p % 2 == 0 then Lo(frag, p / 2 - 2) else Hi(frag, p / 2 - 2))
    else (if p % 2 == 0 then Lo(frag, p / 2 - 3) else Hi(frag, p / 2 - 3))
  }

  function LfnBytes(frag: seq<byte>, seqNo: byte, crc: byte, n: nat): (s: seq<byte>)
    ensures |s| == n
  {
    if n == 0 then [] else LfnBytes(frag, seqNo, crc, n - 1) + [LfnByte(frag, seqNo, crc, n - 1)]
  }

  lemma {:induction false} LfnBytesAt(frag: seq<byte>, seqNo: byte, crc: byte, n: nat, p: nat)
    requires p < n
    ensures LfnBytes(frag, seqNo, crc, n)[p] == LfnByte(frag, seqNo, crc, p)
  {
    if p == n - 1 {
    } else {
      LfnBytesAt(frag, seqNo, crc, n - 1, p);
    }
  }

  /** A slot with a fragment of a long name. */
  function LfnSlot(frag: seq<byte>, seqNo: byte, crc: byte): Slot {
    LfnBytes(frag, seqNo, crc, 32)
  }

  /** No character of the name is zero. */
  predicate Plain(name: seq<byte>) {
    forall i :: 0 <= i < |name| ==> name[i] != 0
  }

  lemma {:induction false} FragFromLfnSlot(frag: seq<byte>, seqNo: byte, crc: byte, i: nat)
    requires |frag| <= 13 && Plain(frag) && i <= |frag|
    ensures FragFrom(LfnSlot(frag, seqNo, crc), i) == frag[i..]
    decreases 13 - i
  {
    var s := LfnSlot(frag, seqNo, crc);
    if i < 13 {
      CharInLfnSlot(frag, seqNo, crc, i);
      if i < |frag| {
        FragFromLfnSlot(frag, seqNo, crc, i + 1);
      }
    }
  }

  lemma CharInLfnSlot(frag: seq<byte>, seqNo: byte, crc: byte, i: nat)
    requires i < 13
    ensures CharAt(LfnSlot(frag, seqNo, crc), i) == Lo(frag, i)
  {
    LfnBytesAt(frag, seqNo, crc, 32, LfnIndex(i));
  }

  /** The number of fragments of a name. */
  function Lfns(len: nat): nat { (len + 12) / 13 }

  /** The `i`-th fragment of a name, counted from 1. */
  function Piece(name: seq<byte>, i: nat): (p: seq<byte>)
    requires 1 <= i <= Lfns(|name|)
    ensures 1 <= |p| <= 13
  {
    name[13 * (i - 1)..Min(13 * i, |name|)]
  }

  /** The slot that holds the `i`-th fragment; the last fragment is marked as the head of the set. */
  function PieceSlot(name: seq<byte>, i: nat, crc: byte): Slot
    requires 1 <= i <= Lfns(|name|) && |name| <= 255
  {
    LfnSlot(Piece(name, i), if i == Lfns(|name|) then 0x40 + i else i, crc)
  }

  /** The slots of the fragments `i`, `i - 1`, ..., 1, in the order they are written. */
  function PieceSlots(name: seq<byte>, i: nat, crc: byte): (s: seq<Slot>)
    requires i <= Lfns(|name|) && |name| <= 255
    ensures |s| == i
  {
    if i == 0 then [] else [PieceSlot(name, i, crc)] + PieceSlots(name, i - 1, crc)
  }

  lemma {:induction false} PieceAt(name: seq<byte>, i: nat, crc: byte, j: nat)
    requires j < i <= Lfns(|name|) && |name| <= 255
    ensures PieceSlots(name, i, crc)[j] == PieceSlot(name, i - j, crc)
  {
    if j == 0 {
    } else {
      PieceAt(name, i - 1, crc, j - 1);
    }
  }

  lemma PieceJoins(name: seq<byte>, i: nat)
    requires 1 <= i <= Lfns(|name|)
    ensures 13 * (i - 1) <= |name|
    ensures name[..13 * (i - 1)] + Piece(name, i) == name[..Min(13 * i, |name|)]
  {
  }

  lemma FragOfPiece(name: seq<byte>, i: nat, crc: byte)
    requires 1 <= i <= Lfns(|name|) && |name| <= 255 && Plain(name)
    ensures Frag(PieceSlot(name, i, crc)) == Piece(name, i)
  {
    FragFromLfnSlot(Piece(name, i), if i == Lfns(|name|) then 0x40 + i else i, crc, 0);
  }

  /** What makes a slot a fragment of its name: it is in use, marked as long-name slot, carries the checksum, and
      reads back as its piece of the name. */
  lemma PieceSlotReads(name: seq<byte>, i: nat, crc: byte)
    requires 1 <= i <= Lfns(|name|) && |name| <= 255 && Plain(name)
    ensures var s := PieceSlot(name, i, crc);
            && !IsFree(s) && IsLfn(s) && s[13] == crc && Frag(s) == Piece(name, i)
            && s[0] == if i == Lfns(|name|) then 0x40 + i else i
  {
    var seqNo: byte := if i == Lfns(|name|) then 0x40 + i else i;
    LfnBytesAt(Piece(name, i), seqNo, crc, 32, 0);
    LfnBytesAt(Piece(name, i), seqNo, crc, 32, 11);
    LfnBytesAt(Piece(name, i), seqNo, crc, 32, 13);
    FragOfPiece(name, i, crc);
  }

  // ---- writing a fragment ----

  /** Bytes `at` to `at + |f|` of `s` replaced by `f`. */
  function Patched(s: seq<byte>, at: nat, f: seq<byte>): (r: seq<byte>)
    requires at + |f| <= |s|
    ensures |r| == |s|
  {
    s[..at] + f + s[at + |f|..]
  }

  /** The first `n` characters of the fragment are in place, and nothing outside the slot was changed. */
  ghost predicate CharsPut(a: seq<byte>, was: seq<byte>, at: nat, frag: seq<byte>, n: nat)
    requires |a| == |was| && at + 32 <= |a| && n <= 13
  {
    && (forall k: nat {:trigger LfnIndex(k)} :: k < n ==>
          a[at + LfnIndex(k)] == Lo(frag, k) && a[at + LfnIndex(k) + 1] == Hi(frag, k))
    && a[..at] == was[..at] && a[at + 32..] == was[at + 32..]
  }

  method PutChar(a: array<byte>, at: nat, i: nat, lo: byte, hi: byte, ghost was: seq<byte>, ghost frag: seq<byte>)
    requires |was| == a.Length && at + 32 <= a.Length && i < 13 && lo == Lo(frag, i) && hi == Hi(frag, i)
    requires CharsPut(a[..], was, at, frag, i)
    modifies a
    ensures CharsPut(a[..], was, at, frag, i + 1)
  {
    a[at + LfnIndex(i)] := lo;
    a[at + LfnIndex(i) + 1] := hi;
  }

  /** Puts the characters of a fragment into the slot at `at`: a zero behind the last one, and 0xff from there on. */
  method PutLfnNameFrag(a: array<byte>, at: nat, frag: seq<byte>)
    requires at + 32 <= a.Length && |frag| <= 13
    modifies a
    ensures CharsPut(a[..], old(a[..]), at, frag, 13)
  {
    ghost var was := a[..];
    var i := 0;
    while i < |frag|
      invariant i <= |frag| && CharsPut(a[..], was, at, frag, i)
    {
      PutChar(a, at, i, frag[i], 0x00, was, frag);
      i := i + 1;
    }
    if i < 13 {
      PutChar(a, at, i, 0x00, 0x00, was, frag);
      i := i + 1;
      while i < 13
        invariant |frag| < i <= 13 && CharsPut(a[..], was, at, frag, i)
      {
        PutChar(a, at, i, 0xff, 0xff, was, frag);
        i := i + 1;
      }
    }
  }

  /** Fills the slot at `at` with a fragment. */
  method PutLfn(a: array<byte>, at: nat, frag: seq<byte>, seqNo: byte, crc: byte)
    requires at + 32 <= a.Length && |frag| <= 13
    modifies a
    ensures a[..] == Patched(old(a[..]), at, LfnSlot(frag, seqNo, crc))
  {
    ghost var was := a[..];
    PutLfnNameFrag(a, at, frag);
    ghost var mid := a[..];
    a[at + 11] := ATTR_LFN;
    a[at] := seqNo;
    a[at + 13] := crc;
    a[at + 12] := 0;
    a[at + 26], a[at + 27] := 0, 0;
    forall p: nat | p < 32
      ensures a[at + p] == LfnByte(frag, seqNo, crc, p)
    {
      if p !in {0, 11, 12, 13, 26, 27} {
        CharByte(mid, was, at, frag, seqNo, crc, p);
        assert a[at + p] == mid[at + p];
      }
    }
    SlotBytes(a[at..at + 32], frag, seqNo, crc);
    assert a[..at] == was[..at] && a[at + 32..] == was[at + 32..];
    assert a[..] == a[..at] + a[at..at + 32] + a[at + 32..];
  }

  /** The bytes of a slot that belong to the characters. */
  lemma CharByte(mid: seq<byte>, was: seq<byte>, at: nat, frag: seq<byte>, seqNo: byte, crc: byte, p: nat)
    requires |mid| == |was| && at + 32 <= |mid| && CharsPut(mid, was, at, frag, 13)
    requires p < 32 && p !in {0, 11, 12, 13, 26, 27}
    ensures mid[at + p] == LfnByte(frag, seqNo, crc, p)
  {
    var k := if p < 12 then (p - 1) / 2 else if p < 28 then p / 2 - 2 else p / 2 - 3;
    assert LfnIndex(k) == p || LfnIndex(k) + 1 == p;
  }

  lemma SlotBytes(s: seq<byte>, frag: seq<byte>, seqNo: byte, crc: byte)
    requires |s| == 32 && forall p :: 0 <= p < 32 ==> s[p] == LfnByte(frag, seqNo, crc, p)
    ensures s == LfnSlot(frag, seqNo, crc)
  {
    forall p: nat | p < 32
      ensures s[p] == LfnSlot(frag, seqNo, crc)[p]
    {
      LfnBytesAt(frag, seqNo, crc, 32, p);
    }
  }

  // ---- short entries ----

  /** A short entry as it is made: name, attributes, times, first cluster, and size 0. */
  function SfnSlot(name: Name11, attr: byte, clust: u32, time: u16, date: u16): Slot {
    name + [attr, 0, 0] + Spell(time, 2) + Spell(date, 2) + Spell(date, 2) + Spell(clust / 0x1_0000, 2)
    + Spell(time, 2) + Spell(date, 2) + Spell(clust % 0x1_0000, 2) + Spell(0, 4)
  }

  /** The first cluster named by a short entry. */
  function SfnCluster(s: Slot): u32 {
    var hi: u16, lo: u16 := Value(s[20..22]), Value(s[26..28]);
    0x1_0000 * hi + lo
  }

  lemma SfnSlotReads(name: Name11, attr: byte, clust: u32, time: u16, date: u16)
    ensures var s := SfnSlot(name, attr, clust, time, date);
            s[..11] == name && s[11] == attr && SfnCluster(s) == clust && SfnSize(s) == 0
  {
    var s := SfnSlot(name, attr, clust, time, date);
    SfnSlotBytes(name, attr, clust, time, date);
    assert s[28..32] == Spell(0, 4);
    SpellWord(0);
    assert s[20..22] == Spell(clust / 0x1_0000, 2);
    assert s[26..28] == Spell(clust % 0x1_0000, 2);
    assert Pow256(1) == 0x100;
    assert Pow256(2) == 0x1_0000;
    SpellIsValue(clust / 0x1_0000, 2);
    SpellIsValue(clust % 0x1_0000, 2);
  }

  /** The two bytes of `s` from `at` on are those of `f`. */
  ghost predicate TwoAt(s: seq<byte>, at: nat, f: seq<byte>) {
    at + 2 <= |s| && |f| >= 2 && s[at] == f[0] && s[at + 1] == f[1]
  }

  lemma SfnSlotBytes(name: Name11, attr: byte, clust: u32, time: u16, date: u16)
    ensures var s := SfnSlot(name, attr, clust, time, date);
            && s[..11] == name && s[11] == attr && s[12] == 0 && s[13] == 0
            && TwoAt(s, 14, Spell(time, 2)) && TwoAt(s, 16, Spell(date, 2)) && TwoAt(s, 18, Spell(date, 2))
            && TwoAt(s, 20, Spell(clust / 0x1_0000, 2)) && TwoAt(s, 22, Spell(time, 2)) && TwoAt(s, 24, Spell(date, 2))
            && TwoAt(s, 26, Spell(clust % 0x1_0000, 2)) && TwoAt(s, 28, Spell(0, 4))
            && s[30] == Spell(0, 4)[2] && s[31] == Spell(0, 4)[3]
  {
  }

  /** The size in a short entry. */
  function SfnSize(s: Slot): u32 { Value(s[28..32]) }

  lemma SpellHalf(n: u16)
    ensures HoldsHalf(Spell(n, 2), 0, n)
  {
    assert Pow256(1) == 0x100 && Pow256(2) == 0x1_0000;
    SpellIsValue(n, 2);
    ValueOf2(Spell(n, 2));
  }

  lemma SpellLong(n: u32)
    ensures HoldsWord(Spell(n, 4), 0, n)
  {
    SpellWord(n);
    ValueOf4(Spell(n, 4));
  }

  lemma HalfAt(s: seq<byte>, at: nat, f: seq<byte>, n: u16)
    requires |f| == 2 && TwoAt(s, at, f) && HoldsHalf(f, 0, n)
    ensures HoldsHalf(s, at, n)
  {
  }

  lemma WordAt(s: seq<byte>, at: nat, f: seq<byte>, n: u32)
    requires at + 4 <= |s| && |f| == 4 && s[at..at + 4] == f && HoldsWord(f, 0, n)
    ensures HoldsWord(s, at, n)
  {
    assert s[at] == f[0] && s[at + 1] == f[1] && s[at + 2] == f[2] && s[at + 3] == f[3];
  }

  /** The times of a short entry: made at, changed at. */
  ghost predicate HasTimes(s: Slot, made: u16, madeOn: u16, accessedOn: u16, changed: u16, changedOn: u16) {
    && HoldsHalf(s, 14, made) && HoldsHalf(s, 16, madeOn) && HoldsHalf(s, 18, accessedOn)
    && HoldsHalf(s, 22, changed) && HoldsHalf(s, 24, changedOn)
  }

  /** A short entry as it is made, byte by byte. */
  lemma SfnSlotIs(name: Name11, attr: byte, clust: u32, time: u16, date: u16)
    ensures var s := SfnSlot(name, attr, clust, time, date);
            && s[..11] == name && s[11] == attr && s[12] == 0 && s[13] == 0
            && HasTimes(s, time, date, date, time, date)
            && HoldsHalf(s, 20, clust / 0x1_0000) && HoldsHalf(s, 26, clust % 0x1_0000) && HoldsWord(s, 28, 0)
  {
    var s := SfnSlot(name, attr, clust, time, date);
    SfnSlotBytes(name, attr, clust, time, date);
    FieldIs(s, 14, time);
    FieldIs(s, 16, date);
    FieldIs(s, 18, date);
    FieldIs(s, 20, clust / 0x1_0000);
    FieldIs(s, 22, time);
    FieldIs(s, 24, date);
    FieldIs(s, 26, clust % 0x1_0000);
    SpellLong(0);
    WordAt(s, 28, Spell(0, 4), 0);
  }

  lemma FieldIs(s: Slot, at: nat, n: u16)
    requires TwoAt(s, at, Spell(n, 2))
    ensures HoldsHalf(s, at, n)
  {
    SpellHalf(n);
    HalfAt(s, at, Spell(n, 2), n);
  }

  /** A short entry that was just made. */
  ghost predicate IsShort(s: Slot, name: Name11, attr: byte, c: u32, time: u16, date: u16) {
    && s[..11] == name && s[11] == attr && SfnCluster(s) == c && SfnSize(s) == 0
    && HasTimes(s, time, date, date, time, date)
  }

  lemma SfnSlotIsShort(name: Name11, attr: byte, c: u32, time: u16, date: u16)
    ensures IsShort(SfnSlot(name, attr, c, time, date), name, attr, c, time, date)
  {
    SfnSlotReads(name, attr, c, time, date);
    SfnSlotIs(name, attr, c, time, date);
  }
}
