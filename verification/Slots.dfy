/** A directory as a list of 32-byte slots: how it is searched, and what adding and removing entries does to the
    entries in it. */
module Slots {
  import opened Bytes
  import opened Names
  import opened Codes

  // ---- reading a set of long-name slots ----

  /** `err` and the place where reading stopped, the length and checksum found, and the name buffer. */
  datatype Parse = Parse(err: int, pos: nat, len: nat, crc: byte, g: seq<byte>)

  function Overlay(g: seq<byte>, at: nat, f: seq<byte>): (r: seq<byte>)
    requires at + |f| <= |g|
    ensures |r| == |g|
    decreases |f|
  {
    if f == [] then g else Overlay(g[at := f[0]], at + 1, f[1..])
  }

  function ParseLoop(slots: seq<Slot>, pos: nat, cnt: nat, crc: byte, len: nat, g: seq<byte>): (p: Parse)
    requires pos < |slots| && cnt <= 20 && |g| == 512
    ensures |p.g| == 512 && p.pos < |slots| && (p.err == ERR_NONE ==> p.pos == pos + cnt)
    ensures p.len <= len + 13 * cnt
    decreases cnt
  {
    if cnt == 0 then Parse(if len <= 255 then ERR_NONE else ERR_BROKEN, pos, len, crc, g)
    else if !IsLfn(slots[pos]) || slots[pos][13] != crc then Parse(ERR_BROKEN, pos, len, crc, g)
    else
      var f := Frag(slots[pos]);
      var g' := Overlay(g, 13 * (cnt - 1), f);
      if pos + 1 == |slots| then Parse(ERR_EOF, pos, len + |f|, crc, g')
      else ParseLoop(slots, pos + 1, cnt - 1, crc, len + |f|, g')
  }

  predicate HasHeadMark(s: Slot) { Shr(s[0], 6) % 2 == 1 }

  /** The number of long-name slots that the head of a set announces. */
  function LfnCount(s: Slot): nat { LowBits(s[0], 5) }

  function ParseLfn(slots: seq<Slot>, pos: nat, g: seq<byte>): (p: Parse)
    requires pos < |slots| && |g| == 512
    ensures |p.g| == 512 && p.pos < |slots| && (p.err == ERR_NONE ==> pos <= p.pos)
    ensures p.len <= 260
  {
    var s := slots[pos];
    if !HasHeadMark(s) || LfnCount(s) > 20 then Parse(ERR_BROKEN, pos, 0, s[13], g)
    else ParseLoop(slots, pos, LfnCount(s), s[13], 0, g)
  }

  // ---- searching ----

  /** How a search ended: the error code, the first slot of the entry it ended at, the slot it stopped at, and the
      name buffer. */
  datatype Hit = Hit(err: int, loc: nat, pos: nat, g: seq<byte>)

  function Search(slots: seq<Slot>, k: nat, name: seq<byte>, g: seq<byte>): (h: Hit)
    requires |g| == 512
    ensures |h.g| == 512 && (h.err == ERR_NONE ==> h.pos < |slots|)
    decreases |slots| - k
  {
    if k >= |slots| || IsLast(slots[k]) then Hit(ERR_EOF, k, k, g)
    else if IsFree(slots[k]) then Search(slots, k + 1, name, g)
    else if !IsLfn(slots[k]) then
      if slots[k][..11] == SfnName(name) then Hit(ERR_NONE, k, k, g) else Search(slots, k + 1, name, g)
    else
      var p := ParseLfn(slots, k, g);
      if p.err != ERR_NONE then Hit(p.err, k, p.pos, p.g)
      else if IsFree(slots[p.pos]) || IsLfn(slots[p.pos]) || p.crc != Crc(slots[p.pos][..11]) then
        Hit(ERR_BROKEN, k, p.pos, p.g)
      else if p.len == |name| && p.g[..p.len] == name then Hit(ERR_NONE, k, p.pos, p.g)
      else Search(slots, p.pos + 1, name, p.g)
  }

  /** The loop over the fragments, at slot `pos` with `cnt` of them to go, comes to `p`. */
  ghost predicate ParseComesTo(p: Parse, slots: seq<Slot>, pos: nat, cnt: nat, crc: byte, len: nat, g: seq<byte>) {
    match p
    case Parse(_, _, _, _, _) =>
      pos < |slots| && cnt <= 20 && |g| == 512 && p == ParseLoop(slots, pos, cnt, crc, len, g)
  }

  /** The search, at slot `k`, comes to `h`. */
  ghost predicate SearchComesTo(h: Hit, slots: seq<Slot>, k: nat, name: seq<byte>, g: seq<byte>) {
    match h
    case Hit(_, _, _, _) => |g| == 512 && h == Search(slots, k, name, g)
  }

  /** One round of the loop over the fragments of a name. */
  lemma ParseLoopStep(slots: seq<Slot>, pos: nat, n: nat, cnt: nat, left: nat, crc: byte, len: nat, g: seq<byte>,
                      len': nat, g': seq<byte>, p: Parse)
    requires ParseComesTo(p, slots, pos, cnt, crc, len, g) && 0 < cnt && n == pos + 1 && left == cnt - 1
    requires IsLfn(slots[pos]) && slots[pos][13] == crc
    requires len' == len + |Frag(slots[pos])| && g' == Overlay(g, 13 * left, Frag(slots[pos]))
    ensures if n < |slots| then ParseComesTo(p, slots, n, left, crc, len', g')
            else p == Parse(ERR_EOF, pos, len', crc, g')
  {
    var f := Frag(slots[pos]);
    if n < |slots| {
      assert ParseLoop(slots, pos, cnt, crc, len, g) == ParseLoop(slots, n, left, crc, len + |f|, Overlay(g, 13 * left,
      f)); }
  }

  /** One step of the search, at the end of the directory, an end mark, or a free slot. */
  lemma SearchPast(h: Hit, slots: seq<Slot>, k: nat, n: nat, name: seq<byte>, g: seq<byte>)
    requires SearchComesTo(h, slots, k, name, g) && n == k + 1
    ensures if k >= |slots| || IsLast(slots[k]) then h.err == ERR_EOF
            else IsFree(slots[k]) ==> SearchComesTo(h, slots, n, name, g)
  {
  }

  /** One step of the search, at an entry that is a short slot alone. */
  lemma SearchShort(h: Hit, slots: seq<Slot>, k: nat, n: nat, name: seq<byte>, g: seq<byte>)
    requires SearchComesTo(h, slots, k, name, g) && n == k + 1 && k < |slots| && !IsFree(slots[k]) && !IsLfn(slots[k])
    ensures if slots[k][..11] == SfnName(name) then h == Hit(ERR_NONE, k, k, g)
            else SearchComesTo(h, slots, n, name, g)
  {
  }

  /** One step of the search, at an entry with a long name; reading that comes to `p`. */
  lemma SearchSet(h: Hit, slots: seq<Slot>, k: nat, n: nat, name: seq<byte>, g: seq<byte>, p: Parse)
    requires SearchComesTo(h, slots, k, name, g) && k < |slots| && !IsFree(slots[k]) && IsLfn(slots[k])
    requires p == ParseLfn(slots, k, g) && n == p.pos + 1
    ensures if p.err != ERR_NONE then h.err == p.err
            else if IsFree(slots[p.pos]) || IsLfn(slots[p.pos]) || p.crc != Crc(slots[p.pos][..11]) then h.err ==
            ERR_BROKEN else if p.len == |name| && p.g[..p.len] == name then h == Hit(ERR_NONE, k, p.pos, p.g)
            else SearchComesTo(h, slots, n, name, p.g)
  {
  }

  // ---- the entries of a directory ----

  /** How many slots the item at `k` takes. */
  function ItemLen(slots: seq<Slot>, k: nat): (n: nat)
    requires k < |slots|
    ensures n >= 1
  {
    if !IsFree(slots[k]) && IsLfn(slots[k]) then LfnCount(slots[k]) + 1 else 1
  }

  /** The name spelled by the `cnt` fragments from slot `pos` on; the first of them holds its end. */
  function TextAt(s: seq<Slot>, pos: nat, cnt: nat): seq<byte>
    requires pos + cnt <= |s|
    decreases cnt
  {
    if cnt == 0 then [] else TextAt(s, pos + 1, cnt - 1) + Frag(s[pos])
  }

  /** `cnt` long-name slots with one checksum, followed by the short entry it belongs to. All fragments are full,
      but for the one in the head of the set. */
  ghost predicate SetAt(s: seq<Slot>, pos: nat, cnt: nat, crc: byte, head: bool)
    requires pos + cnt < |s|
    decreases cnt
  {
    && !IsFree(s[pos])
    && if cnt == 0 then !IsLfn(s[pos]) && Crc(s[pos][..11]) == crc
       else
         && IsLfn(s[pos]) && s[pos][13] == crc && (head || |Frag(s[pos])| == 13)
         && SetAt(s, pos + 1, cnt - 1, crc, false)
  }

  /** A complete set at `k`, whose head announces the right number of slots. */
  ghost predicate WholeSetAt(s: seq<Slot>, k: nat)
    requires k < |s|
  {
    var n := LfnCount(s[k]);
    && HasHeadMark(s[k]) && 1 <= n <= 20 && k + n < |s|
    && SetAt(s, k, n, s[k][13], true)
    && |TextAt(s, k, n)| <= 255
  }

  /** The item at `k`, if it is a set of long-name slots, is complete. */
  ghost predicate ItemOk(slots: seq<Slot>, k: nat)
    requires k < |slots|
  {
    !IsFree(slots[k]) && IsLfn(slots[k]) ==> WholeSetAt(slots, k)
  }

  /** From slot `k` on, up to the end mark, every long-name slot belongs to a complete set. */
  ghost predicate Clean(slots: seq<Slot>, k: nat)
    decreases |slots| - k
  {
    k >= |slots| || IsLast(slots[k]) || (ItemOk(slots, k) && Clean(slots, k + ItemLen(slots, k)))
  }

  /** A live entry: its first slot and all of its slots, the short entry being the last one. */
  datatype Entry = Entry(first: nat, slots: seq<Slot>)

  /** The live entries from slot `k` on. */
  ghost function Live(slots: seq<Slot>, k: nat): seq<Entry>
    requires Clean(slots, k)
    decreases |slots| - k
  {
    if k >= |slots| || IsLast(slots[k]) then []
    else if IsFree(slots[k]) then Live(slots, k + 1)
    else
      var n := ItemLen(slots, k);
      [Entry(k, slots[k..k + n])] + Live(slots, k + n)
  }

  ghost predicate Matches(e: Entry, name: seq<byte>)
    requires e.slots != []
  {
    if |e.slots| == 1 then e.slots[0][..11] == SfnName(name) else TextAt(e.slots, 0, |e.slots| - 1) == name
  }

  /** The index of the first entry that matches, or the number of entries. */
  ghost function FirstMatch(es: seq<Entry>, name: seq<byte>): (i: nat)
    ensures i <= |es|
  {
    if es == [] || (es[0].slots != [] && Matches(es[0], name)) then 0 else 1 + FirstMatch(es[1..], name)
  }

  // ---- reading back a complete set ----

  /** What a set spells, and whether it is complete, depends only on its own slots. */
  lemma {:induction false} SetShift(s: seq<Slot>, i: nat, r: seq<Slot>, j: nat, cnt: nat, crc: byte, head: bool)
    requires i + cnt < |s| && j + cnt < |r| && s[i..i + cnt + 1] == r[j..j + cnt + 1]
    ensures SetAt(s, i, cnt, crc, head) == SetAt(r, j, cnt, crc, head)
    ensures TextAt(s, i, cnt) == TextAt(r, j, cnt)
    decreases cnt
  {
    assert s[i] == s[i..i + cnt + 1][0] == r[j];
    if cnt > 0 {
      assert s[i + 1..i + cnt + 1] == s[i..i + cnt + 1][1..];
      assert r[j + 1..j + cnt + 1] == r[j..j + cnt + 1][1..];
      SetShift(s, i + 1, r, j + 1, cnt - 1, crc, false);
    }
  }

  lemma {:induction false} FullFragments(s: seq<Slot>, pos: nat, cnt: nat, crc: byte)
    requires pos + cnt < |s| && SetAt(s, pos, cnt, crc, false)
    ensures |TextAt(s, pos, cnt)| == 13 * cnt
    decreases cnt
  {
    if cnt == 0 {
    } else {
      FullFragments(s, pos + 1, cnt - 1, crc);
    }
  }

  lemma {:induction false} ShortEntryAt(s: seq<Slot>, pos: nat, cnt: nat, crc: byte, head: bool, at: nat)
    requires at == pos + cnt < |s| && SetAt(s, pos, cnt, crc, head)
    ensures !IsLfn(s[at]) && !IsFree(s[at]) && Crc(s[at][..11]) == crc
    decreases cnt
  {
    if cnt == 0 {
    } else {
      ShortEntryAt(s, pos + 1, cnt - 1, crc, false, at);
    }
  }

  /** Reading full fragments up to their short entry puts their text to the front of the buffer. */
  lemma {:induction false} ParseFullFragments(s: seq<Slot>, pos: nat, cnt: nat, last: nat, end: nat, crc: byte,
                                              len: nat,
                                              g: seq<byte>)
    requires last == pos + cnt < |s| && cnt <= 20 && |g| == 512 && end == 13 * cnt && len + end <= 255
    requires SetAt(s, pos, cnt, crc, false)
    ensures ParseLoop(s, pos, cnt, crc, len, g) ==
            Parse(ERR_NONE, last, len + end, crc, TextAt(s, pos, cnt) + g[end..])
    decreases cnt
  {
    if cnt > 0 {
      var f, left, at := Frag(s[pos]), cnt - 1, end - 13;
      var g' := Overlay(g, at, f);
      ParseFullFragment(s, pos, cnt, left, crc, len, g, at);
      ParseFullFragments(s, pos + 1, left, last, at, crc, len + 13, g');
      OverlayTail(g, at, f, end);
      Assoc(TextAt(s, pos + 1, left), f, g[end..]);
    } else {
      assert [] + g[0..] == g;
    }
  }

  lemma ParseFullFragment(s: seq<Slot>, pos: nat, cnt: nat, left: nat, crc: byte, len: nat, g: seq<byte>, at: nat)
    requires pos + cnt < |s| && 0 < cnt <= 20 && |g| == 512 && left == cnt - 1 && at == 13 * left
    requires SetAt(s, pos, cnt, crc, false)
    ensures ParseLoop(s, pos, cnt, crc, len, g) ==
            ParseLoop(s, pos + 1, left, crc, len + 13, Overlay(g, at, Frag(s[pos])))
  {
  }

  lemma {:induction false} OverlayIs(g: seq<byte>, at: nat, f: seq<byte>)
    requires at + |f| <= |g|
    ensures Overlay(g, at, f) == g[..at] + f + g[at + |f|..]
    decreases |f|
  {
    if f == [] {
    } else {
      OverlayIs(g[at := f[0]], at + 1, f[1..]);
      assert f == [f[0]] + f[1..];
    }
  }

  lemma OverlayTail(g: seq<byte>, at: nat, f: seq<byte>, end: nat)
    requires end == at + |f| <= |g|
    ensures Overlay(g, at, f)[at..] == f + g[end..]
  {
    OverlayIs(g, at, f);
  }

  /** Reading a set from its head on. */
  lemma ParseSet(s: seq<Slot>, k: nat, n: nat, crc: byte, g: seq<byte>)
    requires k + n < |s| && 1 <= n <= 20 && |g| == 512 && SetAt(s, k, n, crc, true) && |TextAt(s, k, n)| <= 255
    ensures var p := ParseLoop(s, k, n, crc, 0, g);
            && p.err == ERR_NONE && p.pos == k + n && p.crc == crc
            && p.len == |TextAt(s, k, n)| && p.g[..p.len] == TextAt(s, k, n)
  {
    var f, left, at := Frag(s[k]), n - 1, 13 * (n - 1);
    var t := TextAt(s, k + 1, left);
    FullFragments(s, k + 1, left, crc);
    ParseFullFragments(s, k + 1, left, k + n, at, crc, |f|, Overlay(g, at, f));
    var end := at + |f|;
    OverlayTail(g, at, f, end);
    Assoc(t, f, g[end..]);
    Joined(t + f, g[end..]);
  }

  /** Reading a complete set succeeds, stops at its short entry, and leaves its name in the buffer. */
  lemma ParseWholeSet(s: seq<Slot>, k: nat, n: nat, g: seq<byte>)
    requires k < |s| && |g| == 512 && WholeSetAt(s, k) && n == LfnCount(s[k])
    ensures var p := ParseLfn(s, k, g);
            && p.err == ERR_NONE && p.pos == k + n && p.crc == s[k][13]
            && p.len == |TextAt(s, k, n)| && p.g[..p.len] == TextAt(s, k, n)
    ensures !IsLfn(s[k + n]) && !IsFree(s[k + n]) && Crc(s[k + n][..11]) == s[k][13]
  {
    ParseSet(s, k, n, s[k][13], g);
    ShortEntryAt(s, k, n, s[k][13], true, k + n);
  }

  /** `cnt` long-name slots with this checksum lie at `pos`, and a slot behind them. */
  ghost predicate FragmentsAt(s: seq<Slot>, pos: nat, cnt: nat, crc: byte) {
    pos + cnt < |s| && forall i: nat :: pos <= i < pos + cnt ==> IsLfn(s[i]) && s[i][13] == crc
  }

  /** On any directory, reading the fragments succeeds exactly when they are there and the name is not too long. */
  lemma {:induction false} FragmentsRead(s: seq<Slot>, pos: nat, cnt: nat, crc: byte, len: nat, g: seq<byte>)
    requires pos < |s| && cnt <= 20 && |g| == 512
    ensures var p := ParseLoop(s, pos, cnt, crc, len, g);
            && (p.err == ERR_NONE <==> FragmentsAt(s, pos, cnt, crc) && len + |TextAt(s, pos, cnt)| <= 255)
            && (p.err == ERR_NONE ==> p.pos == pos + cnt && p.crc == crc && p.len == len + |TextAt(s, pos, cnt)|)
            && (p.err == ERR_NONE || p.err == ERR_BROKEN || p.err == ERR_EOF)
            && (p.err == ERR_EOF ==> |s| <= pos + cnt)
    decreases cnt
  {
    if cnt == 0 {
    } else if IsLfn(s[pos]) && s[pos][13] == crc {
      var f := Frag(s[pos]);
      if pos + 1 < |s| {
        FragmentsRead(s, pos + 1, cnt - 1, crc, len + |f|, Overlay(g, 13 * (cnt - 1), f));
      }
    }
  }

  /** What a search does at a live entry: it stops there exactly when the entry matches. */
  lemma SearchAtEntry(slots: seq<Slot>, k: nat, last: nat, next: nat, name: seq<byte>, g: seq<byte>)
    returns (g': seq<byte>)
    requires k < |slots| && !IsFree(slots[k]) && ItemOk(slots, k) && |g| == 512
    requires next == k + ItemLen(slots, k) && last == next - 1
    ensures |g'| == 512 && next <= |slots|
    ensures Search(slots, k, name, g) ==
            if Matches(Entry(k, slots[k..next]), name) then Hit(ERR_NONE, k, last, g') else Search(slots, next, name,
            g') {
    if IsLfn(slots[k]) {
      g' := SearchAtSet(slots, k, LfnCount(slots[k]), last, next, name, g);
    } else {
      g' := g;
      assert slots[k..next][0] == slots[k];
    }
  }

  lemma SearchAtSet(slots: seq<Slot>, k: nat, n: nat, last: nat, next: nat, name: seq<byte>, g: seq<byte>)
    returns (g': seq<byte>)
    requires k < |slots| && !IsFree(slots[k]) && IsLfn(slots[k]) && ItemOk(slots, k) && |g| == 512
    requires n == LfnCount(slots[k]) && last == k + n && next == last + 1
    ensures |g'| == 512 && next == k + ItemLen(slots, k) <= |slots|
    ensures Search(slots, k, name, g) ==
            if Matches(Entry(k, slots[k..next]), name) then Hit(ERR_NONE, k, last, g')
            else Search(slots, next, name, g')
  {
    var h, p := Search(slots, k, name, g), ParseLfn(slots, k, g);
    ParseWholeSet(slots, k, n, g);
    SearchSet(h, slots, k, next, name, g, p);
    SetShift(slots[k..next], 0, slots, k, n, 0, false);
    g' := p.g;
  }

  lemma FirstMatchOfMore(e: Entry, es: seq<Entry>, name: seq<byte>)
    requires e.slots != []
    ensures FirstMatch([e] + es, name) == if Matches(e, name) then 0 else 1 + FirstMatch(es, name)
  {
    assert ([e] + es)[1..] == es;
  }

  /** The hit that a search should end with, given the live entries. */
  ghost predicate IsFirstMatch(h: Hit, es: seq<Entry>, name: seq<byte>) {
    var i := FirstMatch(es, name);
    if i < |es| then h.err == ERR_NONE && h.loc == es[i].first && h.pos + 1 == es[i].first + |es[i].slots|
    else h.err == ERR_EOF
  }

  /** In a clean directory a search finds the first live entry that matches, at its short slot, with the place of
      its first slot; and it says EOF exactly when no live entry matches. */
  lemma {:induction false} SearchFindsFirstMatch(slots: seq<Slot>, k: nat, name: seq<byte>, g: seq<byte>)
    requires Clean(slots, k) && |g| == 512
    ensures IsFirstMatch(Search(slots, k, name, g), Live(slots, k), name)
    decreases |slots| - k
  {
    if k >= |slots| || IsLast(slots[k]) {
    } else {
      if IsFree(slots[k]) {
        SearchFindsFirstMatch(slots, k + 1, name, g);
      } else {
        var next: nat := k + ItemLen(slots, k);
        var e := Entry(k, slots[k..next]);
        var g' := SearchAtEntry(slots, k, next - 1, next, name, g);
        LiveHere(slots, k, next, e);
        if Matches(e, name) {
          FirstMatchOfMore(e, Live(slots, next), name);
        } else {
          SearchFindsFirstMatch(slots, next, name, g');
          MatchLater(Search(slots, next, name, g'), e, Live(slots, next), name);
        }
      }
    }
  }

  lemma LiveHere(slots: seq<Slot>, k: nat, next: nat, e: Entry)
    requires k < |slots| && Clean(slots, k) && !IsFree(slots[k]) && next == k + ItemLen(slots, k) <= |slots|
    requires e == Entry(k, slots[k..next])
    ensures Clean(slots, next) && Live(slots, k) == [e] + Live(slots, next)
  {
  }

  lemma MatchLater(h: Hit, e: Entry, es: seq<Entry>, name: seq<byte>)
    requires e.slots != [] && !Matches(e, name) && IsFirstMatch(h, es, name)
    ensures IsFirstMatch(h, [e] + es, name)
  {
    FirstMatchOfMore(e, es, name);
  }
}
