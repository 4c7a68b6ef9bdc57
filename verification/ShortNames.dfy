/** What an 8.3 name says, letter by letter, and which short entries a name finds. */
module ShortNames {
  import opened Bytes
  import opened Codes
  import opened Names
  import opened Slots
  import opened Entries
  import opened NewEntry
  import opened Listing

  // ---- one character ----

  predicate IsLetter(c: byte) { 0x41 <= c <= 0x5a || 0x61 <= c <= 0x7a }

  /** `u` is a capital letter, and `c` is the same letter or its small form. */
  predicate IsCapitalOf(u: byte, c: byte) { 0x41 <= u <= 0x5a && (c == u || c == u + 0x20) }

  /** The characters other than letters that a short name may have. */
  const ALLOWED: string := "!#$%&'()-@^_`{}~ "

  /** `u` stands in a short name for `c`: letters become capitals, and what is not allowed becomes an underscore. */
  predicate StandsFor(u: byte, c: byte) {
    if IsLetter(c) then IsCapitalOf(u, c) else u == if c as char in ALLOWED then c else 0x5f
  }

  lemma CharStandsFor(c: byte, u: byte)
    ensures StandsFor(u, c) <==> u == SfnChar(c)
  {
  }

  // ---- the whole name ----

  /** `d` is the place of the first dot of the name, or its length if there is none. */
  ghost predicate FirstDot(name: seq<byte>, d: nat) {
    && d <= |name| && (forall i :: 0 <= i < d ==> name[i] != 0x2e)
    && (d < |name| ==> name[d] == 0x2e)
  }

  lemma {:induction false} BaseEnds(name: seq<byte>, i: nat, d: nat)
    requires FirstDot(name, d) && i <= d && i <= 8
    ensures BaseLen(name, i) == Min(d, 8)
    decreases 8 - i
  {
    if i == d || i == 8 {
    } else {
      BaseEnds(name, i + 1, d);
    }
  }

  lemma {:induction false} ExtensionStarts(name: seq<byte>, i: nat, d: nat)
    requires FirstDot(name, d) && i <= d
    ensures AfterDot(name, i) == Min(d + 1, |name|)
    decreases |name| - i
  {
    if i == d {
    } else {
      ExtensionStarts(name, i + 1, d);
    }
  }

  /** `u` are the `n` bytes of a field: characters that stand for those of `name` from `at` to `end`, as far as they
      fit, and pads behind them. */
  ghost predicate FieldOf(u: seq<byte>, n: nat, name: seq<byte>, at: nat, end: nat) {
    && |u| == n && end <= |name|
    && forall i: nat :: i < n ==> if at + i < end then StandsFor(u[i], name[at + i]) else u[i] == 0x20
  }

  /** The first eight bytes of an 8.3 name are the characters before the first dot, the other three those behind it.
      */
  lemma SfnNameMeans(name: seq<byte>, d: nat, u: Name11)
    requires FirstDot(name, d)
    ensures u == SfnName(name) <==> FieldOf(u[..8], 8, name, 0, d) && FieldOf(u[8..], 3, name, d + 1, |name|)
  {
    BaseEnds(name, 0, d);
    ExtensionStarts(name, Min(d, 8), d);
    var b, e := Min(d, 8), Min(d + 1, |name|);
    PaddedMeans(name, 0, b, 8, d, u[..8]);
    PaddedMeans(name, e, Min(e + 3, |name|), 3, |name|, u[8..]);
    assert name[0..b] == name[..b];
    Halves(u, Padded(SfnChars(name[..b]), 8), Padded(SfnChars(name[e..Min(e + 3, |name|)]), 3));
  }

  lemma Halves(u: Name11, x: seq<byte>, y: seq<byte>)
    requires |x| == 8
    ensures u == x + y <==> u[..8] == x && u[8..] == y
  {
    Cut(u, 8);
    Joined(x, y);
  }

  lemma PaddedMeans(name: seq<byte>, at: nat, to: nat, n: nat, end: nat, u: seq<byte>)
    requires at <= to <= end <= |name| && to == (if at + n < end then at + n else end) && |u| == n
    ensures u == Padded(SfnChars(name[at..to]), n) <==> FieldOf(u, n, name, at, end)
  {
    var x := Padded(SfnChars(name[at..to]), n);
    forall i: nat | i < n
      ensures x[i] == u[i] <==> if at + i < end then StandsFor(u[i], name[at + i]) else u[i] == 0x20
    {
      if at + i < end {
        CharStandsFor(name[at + i], u[i]);
        assert x[i] == SfnChar(name[at..to][i]);
      }
    }
  }

  // ---- letters ----

  ghost predicate Letters(s: seq<byte>) {
    forall i :: 0 <= i < |s| ==> IsLetter(s[i])
  }

  /** The name with this base and this extension. */
  function WithExtension(base: seq<byte>, ext: seq<byte>): seq<byte> {
    if ext == [] then base else base + [0x2e] + ext
  }

  /** Letter by letter, `u` is `s` in capitals; dots are kept. */
  ghost predicate InCapitals(u: seq<byte>, s: seq<byte>) {
    |u| == |s| && forall i :: 0 <= i < |s| ==> if s[i] == 0x2e then u[i] == 0x2e else IsCapitalOf(u[i], s[i])
  }

  /** `u` are the `n` bytes of a field that holds the letters `s` in capitals, and pads behind them. */
  ghost predicate CapitalField(u: seq<byte>, n: nat, s: seq<byte>) {
    && |u| == n && |s| <= n
    && forall i: nat :: i < n ==> if i < |s| then IsCapitalOf(u[i], s[i]) else u[i] == 0x20
  }

  /** A short name has the letters of `base` in capitals, padded to eight bytes, and those of `ext`, padded to three. */
  ghost predicate Spelled(u: Name11, base: seq<byte>, ext: seq<byte>) {
    CapitalField(u[..8], 8, base) && CapitalField(u[8..], 3, ext)
  }

  lemma FieldOfLetters(u: seq<byte>, n: nat, name: seq<byte>, at: nat, end: nat, s: seq<byte>)
    requires |u| == n && |s| <= n && Letters(s) && end <= |name|
    requires if s == [] then end <= at else end == at + |s| && name[at..end] == s
    ensures FieldOf(u, n, name, at, end) <==> CapitalField(u, n, s)
  {
    forall i: nat | i < n
      ensures (if at + i < end then StandsFor(u[i], name[at + i]) else u[i] == 0x20) <==>
              if i < |s| then IsCapitalOf(u[i], s[i]) else u[i] == 0x20
    {
      assert i < |s| ==> name[at..end][i] == s[i] && IsLetter(s[i]);
    }
  }

  lemma SpelledIsName(u: Name11, base: seq<byte>, ext: seq<byte>)
    requires |base| <= 8 && |ext| <= 3 && Letters(base) && Letters(ext)
    ensures Spelled(u, base, ext) <==> u == SfnName(WithExtension(base, ext))
  {
    var name, d := WithExtension(base, ext), |base|;
    assert FirstDot(name, d);
    SfnNameMeans(name, d, u);
    FieldOfLetters(u[..8], 8, name, 0, d, base);
    FieldOfLetters(u[8..], 3, name, d + 1, |name|, ext);
  }

  /** What is listed for a file of which only the short name is known: the name in capitals. */
  lemma TextInCapitals(base: seq<byte>, ext: seq<byte>)
    requires 1 <= |base| <= 8 && |ext| <= 3 && Letters(base) && Letters(ext)
    ensures var name := WithExtension(base, ext); InCapitals(SfnText(SfnName(name)), name)
  {
    var u := SfnName(WithExtension(base, ext));
    SpelledIsName(u, base, ext);
    var b := FieldText(u, 0, 8, u[..8], base);
    var e := FieldText(u, 8, 11, u[8..], ext);
    TextOfFields(u, b, e);
    CapitalsJoined(b, base, e, ext, SfnText(u));
  }

  lemma TextOfFields(u: Name11, b: seq<byte>, e: seq<byte>)
    requires b == Unpadded(u, 0, 8) && e == Unpadded(u, 8, 11)
    ensures SfnText(u) == b + (if u[8] != PAD then [DOT] else []) + e
  {
  }

  /** The text of any 8.3 name: what comes before the first space of the first eight bytes, a dot if the ninth byte is
      no space, and what comes before the first space of the last three. */
  lemma SfnTextIs(u: Name11, b: nat, e: nat)
    requires b <= 8 && (forall i :: 0 <= i < b ==> u[i] != 0x20) && (b < 8 ==> u[b] == 0x20)
    requires 8 <= e <= 11 && (forall i :: 8 <= i < e ==> u[i] != 0x20) && (e < 11 ==> u[e] == 0x20)
    ensures SfnText(u) == u[0..b] + (if e > 8 then [0x2e] else []) + u[8..e]
  {
    UnpaddedIs(u, 0, b, 8);
    UnpaddedIs(u, 8, e, 11);
    TextOfFields(u, u[0..b], u[8..e]);
  }

  lemma FieldText(u: Name11, lo: nat, hi: nat, f: seq<byte>, s: seq<byte>) returns (t: seq<byte>)
    requires lo < hi <= 11 && f == u[lo..hi] && CapitalField(f, hi - lo, s)
    ensures t == Unpadded(u, lo, hi) && CapitalText(t, s) && (u[lo] == PAD <==> s == [])
  {
    forall i | lo <= i < hi
      ensures if i < lo + |s| then IsCapitalOf(u[i], s[i - lo]) else u[i] == PAD
    {
      assert f[i - lo] == u[i];
    }
    t := u[lo..lo + |s|];
    UnpaddedIs(u, lo, lo + |s|, hi);
  }

  ghost predicate CapitalText(t: seq<byte>, s: seq<byte>) {
    |t| == |s| && forall i :: 0 <= i < |s| ==> IsCapitalOf(t[i], s[i])
  }

  lemma CapitalsJoined(b: seq<byte>, base: seq<byte>, e: seq<byte>, ext: seq<byte>, t: seq<byte>)
    requires CapitalText(b, base) && CapitalText(e, ext) && Letters(base) && Letters(ext)
    requires t == b + (if ext != [] then [DOT] else []) + e
    ensures InCapitals(t, WithExtension(base, ext))
  {
    assert ext == [] ==> t == b;
  }

  lemma {:induction false} UnpaddedIs(u: seq<byte>, i: nat, to: nat, end: nat)
    requires i <= to <= end <= |u| && (forall k :: i <= k < to ==> u[k] != PAD) && (to < end ==> u[to] == PAD)
    ensures Unpadded(u, i, end) == u[i..to]
    decreases end - i
  {
    if i == to {
    } else {
      UnpaddedIs(u, i + 1, to, end);
      assert u[i..to] == [u[i]] + u[i + 1..to];
    }
  }

  // ---- names that differ in case ----

  /** The same letter, or the same character. */
  predicate SameLetter(c: byte, d: byte) { c == d || (IsLetter(c) && IsLetter(d) && (c == d + 0x20 || d == c + 0x20)) }

  /** The same name, but for the case of letters. */
  ghost predicate SameButCase(s: seq<byte>, r: seq<byte>) {
    |s| == |r| && forall i :: 0 <= i < |s| ==> SameLetter(s[i], r[i])
  }

  lemma CaseDoesNotMatter(s: seq<byte>, r: seq<byte>)
    requires SameButCase(s, r)
    ensures SfnName(s) == SfnName(r)
  {
    var d := DotOf(s, 0);
    var u := SfnName(s);
    DotSameCase(s, r, d);
    SfnNameMeans(s, d, u);
    FieldSameCase(u[..8], 8, s, r, 0, d);
    FieldSameCase(u[8..], 3, s, r, d + 1, |s|);
    SfnNameMeans(r, d, u);
  }

  lemma DotSameCase(s: seq<byte>, r: seq<byte>, d: nat)
    requires SameButCase(s, r) && FirstDot(s, d)
    ensures FirstDot(r, d)
  {
  }

  lemma FieldSameCase(u: seq<byte>, n: nat, s: seq<byte>, r: seq<byte>, at: nat, end: nat)
    requires SameButCase(s, r) && FieldOf(u, n, s, at, end)
    ensures FieldOf(u, n, r, at, end)
  {
    forall i: nat | i < n && at + i < end
      ensures StandsFor(u[i], r[at + i])
    {
      assert StandsFor(u[i], s[at + i]) && SameLetter(s[at + i], r[at + i]);
    }
  }

  lemma DotOf(s: seq<byte>, i: nat) returns (d: nat)
    requires i <= |s| && forall k :: 0 <= k < i ==> s[k] != 0x2e
    ensures FirstDot(s, d)
    decreases |s| - i
  {
    if i == |s| || s[i] == 0x2e {
      d := i;
    } else {
      d := DotOf(s, i + 1);
    }
  }

  // ---- searching ----

  /** A short entry without a long name is found by every name that it spells in capitals. If no entry before it has
      that name, the search ends there. */
  lemma SpelledIsFound(slots: seq<Slot>, i: nat, base: seq<byte>, ext: seq<byte>, g: seq<byte>)
    requires Clean(slots, 0) && |g| == 512 && i < |Live(slots, 0)|
    requires |base| <= 8 && |ext| <= 3 && Letters(base) && Letters(ext)
    requires var e := Live(slots, 0)[i]; |e.slots| == 1 && Spelled(e.slots[0][..11], base, ext)
    ensures var name, es := WithExtension(base, ext), Live(slots, 0);
            var h := Search(slots, 0, name, g);
            && h.err == ERR_NONE
            && ((forall j :: 0 <= j < i ==> es[j].slots != [] && !Matches(es[j], name)) ==>
                  h.loc == es[i].first && h.pos == es[i].first)
  {
    var name, es := WithExtension(base, ext), Live(slots, 0);
    SpelledIsName(es[i].slots[0][..11], base, ext);
    SearchFindsFirstMatch(slots, 0, name, g);
    MatchIsFirst(es, name, i);
  }

  lemma {:induction false} MatchIsFirst(es: seq<Entry>, name: seq<byte>, i: nat)
    requires i < |es| && es[i].slots != [] && Matches(es[i], name)
    ensures FirstMatch(es, name) <= i
    ensures (forall j :: 0 <= j < i ==> es[j].slots != [] && !Matches(es[j], name)) ==> FirstMatch(es, name) == i
    decreases |es|
  {
    if i == 0 {
    } else {
      MatchIsFirst(es[1..], name, i - 1);
    }
  }

  /** The short entry made for a name spells it in capitals. */
  lemma NewNameIsSpelled(base: seq<byte>, ext: seq<byte>, attr: byte, c: u32, time: u16, date: u16)
    requires |base| <= 8 && |ext| <= 3 && Letters(base) && Letters(ext)
    ensures var s := NewSlots(WithExtension(base, ext), attr, c, time, date); Spelled(s[|s| - 1][..11], base, ext)
  {
    var name := WithExtension(base, ext);
    SpelledIsName(SfnName(name), base, ext);
    SfnSlotReads(SfnName(name), attr, c, time, date);
  }

  // ---- short entries that no name finds ----

  /** Characters that stand for themselves in a short name; digits do not. */
  predicate IsShortChar(c: byte) { 0x41 <= c <= 0x5a || c as char in ALLOWED }

  lemma StandsForShortChar(u: byte, c: byte)
    ensures StandsFor(u, c) ==> IsShortChar(u)
    ensures IsShortChar(c) ==> StandsFor(c, c) && c != 0x2e
  {
  }

  /** A short entry without a long name can be found by some name exactly when its 8.3 name has only capitals and the
      special characters allowed, and no digit. */
  lemma FindableExactly(u: Name11)
    ensures (exists name :: SfnName(name) == u) <==> forall i :: 0 <= i < 11 ==> IsShortChar(u[i])
  {
    if name :| SfnName(name) == u {
      ShortCharsOnly(name, u);
    }
    if forall i :: 0 <= i < 11 ==> IsShortChar(u[i]) {
      NamesItself(u);
    }
  }

  lemma ShortCharsOnly(name: seq<byte>, u: Name11)
    requires SfnName(name) == u
    ensures forall i :: 0 <= i < 11 ==> IsShortChar(u[i])
  {
    var d := DotOf(name, 0);
    SfnNameMeans(name, d, u);
    FieldIsShort(u[..8], 8, name, 0, d);
    FieldIsShort(u[8..], 3, name, d + 1, |name|);
    forall i | 0 <= i < 11
      ensures IsShortChar(u[i])
    {
      assert u[i] == if i < 8 then u[..8][i] else u[8..][i - 8];
    }
  }

  lemma FieldIsShort(u: seq<byte>, n: nat, name: seq<byte>, at: nat, end: nat)
    requires FieldOf(u, n, name, at, end)
    ensures forall i :: 0 <= i < n ==> IsShortChar(u[i])
  {
    forall i: nat | i < n
      ensures IsShortChar(u[i])
    {
      if at + i < end {
        StandsForShortChar(u[i], name[at + i]);
      }
    }
  }

  /** The eleven characters, with a dot in between, are a name for it. */
  lemma NamesItself(u: Name11)
    requires forall i :: 0 <= i < 11 ==> IsShortChar(u[i])
    ensures SfnName(u[..8] + [0x2e] + u[8..]) == u
  {
    var name := u[..8] + [0x2e] + u[8..];
    forall i | 0 <= i < 11
      ensures StandsFor(u[i], u[i]) && u[i] != 0x2e
    {
      StandsForShortChar(u[i], u[i]);
    }
    assert FirstDot(name, 8);
    SfnNameMeans(name, 8, u);
    forall i: nat | i < 3
      ensures StandsFor(u[8..][i], name[9 + i])
    {
      assert name[9 + i] == u[8..][i] == u[8 + i];
    }
    assert FieldOf(u[..8], 8, name, 0, 8);
    assert FieldOf(u[8..], 3, name, 9, 12);
  }

  // ---- an example ----

  /** In a directory that holds a single short entry "EFI", as other systems make them, the name "efi" is found. */
  lemma EfiIsFound(u: Name11, time: u16, date: u16, c: u32, g: seq<byte>)
    requires u == [0x45, 0x46, 0x49] + seq(8, i => 0x20) && |g| == 512
    ensures var slots := [SfnSlot(u, 0x10, c, time, date), ZeroSlot()];
            var h := Search(slots, 0, [0x65, 0x66, 0x69], g);
            h.err == ERR_NONE && h.loc == 0 && h.pos == 0
  {
    var s := SfnSlot(u, 0x10, c, time, date);
    var slots, base := [s, ZeroSlot()], [0x65, 0x66, 0x69];
    SfnSlotReads(u, 0x10, c, time, date);
    assert s[0] == s[..11][0] == 0x45;
    assert Clean(slots, 1) && Live(slots, 1) == [];
    assert Clean(slots, 0) && Live(slots, 0) == [Entry(0, slots[0..1])];
    SpelledIsFound(slots, 0, base, [], g);
  }
}
