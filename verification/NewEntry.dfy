/** The slots written for a new entry: they form a complete set that reads back as the given name. */
module NewEntry {
  import opened Bytes
  import opened Names
  import opened Slots
  import opened Entries
  import opened Codes

  /** The slots of a new entry: the fragments of its long name, last one first, and its short entry. */
  function NewSlots(name: seq<byte>, attr: byte, clust: u32, time: u16, date: u16): (s: seq<Slot>)
    requires |name| <= 255
    ensures |s| == Lfns(|name|) + 1
  {
    var short := SfnName(name);
    PieceSlots(name, Lfns(|name|), Crc(short)) + [SfnSlot(short, attr, clust, time, date)]
  }

  /** From slot `pos` up to slot `end` lie the fragments `end - pos`, ..., 1 of the name, and then its short entry. */
  ghost predicate PiecesAt(s: seq<Slot>, pos: nat, end: nat, name: seq<byte>, crc: byte) {
    && pos <= end < |s| && end - pos <= Lfns(|name|) && |name| <= 255
    && (forall i :: pos <= i < end ==> s[i] == PieceSlot(name, end - i, crc))
    && !IsFree(s[end]) && !IsLfn(s[end]) && Crc(s[end][..11]) == crc
  }

  lemma FullPiece(name: seq<byte>, i: nat)
    requires 1 <= i <= Lfns(|name|)
    ensures i < Lfns(|name|) ==> |Piece(name, i)| == 13
  {
  }

  lemma {:induction false} PiecesFormSet(s: seq<Slot>, pos: nat, end: nat, name: seq<byte>, crc: byte)
    requires PiecesAt(s, pos, end, name, crc) && Plain(name)
    ensures SetAt(s, pos, end - pos, crc, end - pos == Lfns(|name|))
    decreases end - pos
  {
    if pos == end {
    } else {
      PieceIsInSet(s[pos], name, end - pos, crc);
      PiecesFormSet(s, pos + 1, end, name, crc);
    }
  }

  lemma PieceIsInSet(s: Slot, name: seq<byte>, i: nat, crc: byte)
    requires 1 <= i <= Lfns(|name|) && |name| <= 255 && Plain(name) && s == PieceSlot(name, i, crc)
    ensures !IsFree(s) && IsLfn(s) && s[13] == crc && Frag(s) == Piece(name, i)
    ensures i < Lfns(|name|) ==> |Frag(s)| == 13
  {
    PieceSlotReads(name, i, crc);
    FragOfPiece(name, i, crc);
    FullPiece(name, i);
  }

  /** Together they spell the part of the name up to the first of them. */
  lemma {:induction false} PiecesSpell(s: seq<Slot>, pos: nat, end: nat, cnt: nat, name: seq<byte>, crc: byte)
    requires PiecesAt(s, pos, end, name, crc) && Plain(name) && cnt == end - pos
    ensures TextAt(s, pos, cnt) == name[..Min(13 * cnt, |name|)]
    decreases end - pos
  {
    if pos == end {
    } else {
      PieceIsInSet(s[pos], name, cnt, crc);
      PiecesSpell(s, pos + 1, end, cnt - 1, name, crc);
      PieceJoins(name, cnt);
      assert TextAt(s, pos, cnt) == TextAt(s, pos + 1, cnt - 1) + Piece(name, cnt);
    }
  }

  lemma HeadReads(s: Slot, n: nat)
    requires n <= 20 && s[0] == 0x40 + n
    ensures HasHeadMark(s) && LfnCount(s) == n
  {
    assert Shl(1, 1) == 2 && Shl(1, 3) == 8 && Shl(1, 5) == 32;
    assert Shl(2, 1) == 4 && Shl(2, 3) == 16 && Shl(2, 5) == 64;
    ShiftPartsUnique(2, n, 5);
    ShiftPartsUnique(1, n, 6);
  }

  lemma PiecesFormItem(s: seq<Slot>, name: seq<byte>, crc: byte)
    requires 1 <= |name| && PiecesAt(s, 0, Lfns(|name|), name, crc) && Plain(name) && |s| == Lfns(|name|) + 1
    ensures IsItem(s) && |s| >= 2 && TextAt(s, 0, |s| - 1) == name
  {
    PiecesAreItem(s, |s| - 1, name, crc);
  }

  lemma PiecesAreItem(s: seq<Slot>, n: nat, name: seq<byte>, crc: byte)
    requires 1 <= |name| && PiecesAt(s, 0, n, name, crc) && Plain(name) && |s| == n + 1 && n == Lfns(|name|)
    ensures IsItem(s) && n >= 1 && TextAt(s, 0, n) == name
  {
    PiecesFormSet(s, 0, n, name, crc);
    PieceSlotReads(name, n, crc);
    HeadReads(s[0], n);
    PiecesSpell(s, 0, n, n, name, crc);
    WholeName(name, n);
    assert WholeSetAt(s, 0);
  }

  lemma WholeName(name: seq<byte>, n: nat)
    requires n == Lfns(|name|)
    ensures name[..Min(13 * n, |name|)] == name
  {
    assert Min(13 * n, |name|) == |name|;
  }

  lemma NewSlotsArePieces(name: seq<byte>, attr: byte, clust: u32, time: u16, date: u16)
    requires |name| <= 255 && attr != ATTR_LFN
    ensures PiecesAt(NewSlots(name, attr, clust, time, date), 0, Lfns(|name|), name, Crc(SfnName(name)))
  {
    var s, n := NewSlots(name, attr, clust, time, date), Lfns(|name|);
    var crc := Crc(SfnName(name));
    forall i | 0 <= i < n
      ensures s[i] == PieceSlot(name, n - i, crc)
    {
      PieceAt(name, n, crc, i);
    }
    ShortSlotReads(SfnName(name), attr, clust, time, date);
    SfnNameIsNotFree(name);
  }

  lemma ShortSlotReads(short: Name11, attr: byte, clust: u32, time: u16, date: u16)
    ensures var s := SfnSlot(short, attr, clust, time, date);
            s[0] == short[0] && s[..11] == short && s[11] == attr && SfnCluster(s) == clust
  {
    SfnSlotReads(short, attr, clust, time, date);
    assert SfnSlot(short, attr, clust, time, date)[..11][0] == short[0];
  }

  /** A new entry is a complete item, and the name it was made for is the one it matches. */
  lemma NewEntryReads(name: seq<byte>, attr: byte, clust: u32, time: u16, date: u16)
    requires 1 <= |name| <= 255 && Plain(name) && attr != ATTR_LFN
    ensures var s := NewSlots(name, attr, clust, time, date);
            && IsItem(s) && |s| >= 2 && TextAt(s, 0, |s| - 1) == name
            && s[|s| - 1][11] == attr && SfnCluster(s[|s| - 1]) == clust
  {
    NewSlotsArePieces(name, attr, clust, time, date);
    PiecesFormItem(NewSlots(name, attr, clust, time, date), name, Crc(SfnName(name)));
    ShortSlotReads(SfnName(name), attr, clust, time, date);
  }

  /** None of the slots written for a name looks free or last, and all but the last one are long-name slots. */
  lemma NewSlotsInUse(name: seq<byte>, attr: byte, clust: u32, time: u16, date: u16, i: nat)
    requires |name| <= 255 && Plain(name) && attr != ATTR_LFN && i <= Lfns(|name|)
    ensures var s := NewSlots(name, attr, clust, time, date);
            !IsFree(s[i]) && (IsLfn(s[i]) <==> i < Lfns(|name|))
  {
    NewSlotsArePieces(name, attr, clust, time, date);
    if i < Lfns(|name|) {
      PieceSlotReads(name, Lfns(|name|) - i, Crc(SfnName(name)));
    }
  }

  /** Long names round-trip: reading the slots written for a name succeeds, stops at its short entry with the checksum
      of that, and leaves the name in the buffer. */
  lemma LongNameRoundTrips(name: seq<byte>, attr: byte, clust: u32, time: u16, date: u16, g: seq<byte>)
    requires 1 <= |name| <= 255 && Plain(name) && attr != ATTR_LFN && |g| == 512
    ensures var s := NewSlots(name, attr, clust, time, date);
            var p := ParseLfn(s, 0, g);
            && p.err == ERR_NONE && p.pos == Lfns(|name|) && p.crc == Crc(s[p.pos][..11])
            && p.len == |name| && p.g[..p.len] == name
  {
    var s := NewSlots(name, attr, clust, time, date);
    NewEntryReads(name, attr, clust, time, date);
    NewSlotsInUse(name, attr, clust, time, date, 0);
    ItemParses(s, name, g);
  }

  lemma ItemParses(s: seq<Slot>, name: seq<byte>, g: seq<byte>)
    requires IsItem(s) && |s| >= 2 && IsLfn(s[0]) && TextAt(s, 0, |s| - 1) == name && |g| == 512
    ensures var p := ParseLfn(s, 0, g);
            && p.err == ERR_NONE && p.pos == |s| - 1 && p.crc == Crc(s[p.pos][..11])
            && p.len == |name| && p.g[..p.len] == name
  {
    ItemParsesTo(s, |s| - 1, name, g, ParseLfn(s, 0, g));
  }

  lemma ItemParsesTo(s: seq<Slot>, n: nat, name: seq<byte>, g: seq<byte>, p: Parse)
    requires IsItem(s) && |s| >= 2 && IsLfn(s[0]) && n == |s| - 1 && TextAt(s, 0, n) == name && |g| == 512
    requires p == ParseLfn(s, 0, g)
    ensures p.err == ERR_NONE && p.pos == n && p.crc == Crc(s[n][..11]) && p.len == |name| && p.g[..p.len] == name
  {
    assert LfnCount(s[0]) == n && WholeSetAt(s, 0);
    ParseWholeSet(s, 0, n, g);
  }

  // ---- a directory as a map from names ----

  lemma {:induction false} FirstMatchInserted(es: seq<Entry>, i: nat, e: Entry, name: seq<byte>)
    requires i <= |es| && e.slots != [] && forall x :: x in es ==> x.slots != []
    ensures var es' := es[..i] + [e] + es[i..];
            var k := FirstMatch(es, name);
            FirstMatch(es', name) ==
            if k < i then k else if Matches(e, name) then i else k + 1
  {
    var es' := es[..i] + [e] + es[i..];
    if i == 0 {
      assert es' == [e] + es;
      FirstMatchOfMore(e, es, name);
    } else {
      assert es == [es[0]] + es[1..];
      assert es' == [es[0]] + (es[1..][..i - 1] + [e] + es[1..][i - 1..]);
      FirstMatchOfMore(es[0], es[1..], name);
      FirstMatchOfMore(es[0], es[1..][..i - 1] + [e] + es[1..][i - 1..], name);
      FirstMatchInserted(es[1..], i - 1, e, name);
    }
  }

  lemma {:induction false} LiveHasSlots(slots: seq<Slot>, k: nat)
    requires Clean(slots, k)
    ensures forall x :: x in Live(slots, k) ==> x.slots != []
    decreases |slots| - k
  {
    if k >= |slots| || IsLast(slots[k]) {
    } else {
      LiveHasSlots(slots, k + ItemLen(slots, k));
    }
  }

  /** How the hit `h` of a search changes into `h'` when entry `e` is put in at place `i`; `h0` is the hit of the
      search for the name of `e`. */
  lemma InsertedIsFound(es: seq<Entry>, i: nat, e: Entry, name: seq<byte>, other: seq<byte>, h0: Hit, h: Hit, h': Hit)
    requires i <= |es| && e.slots != [] && forall x :: x in es ==> x.slots != []
    requires Matches(e, other) <==> other == name
    requires IsFirstMatch(h0, es, name) && h0.err == ERR_EOF
    requires IsFirstMatch(h, es, other) && IsFirstMatch(h', es[..i] + [e] + es[i..], other)
    ensures if other == name then h'.err == ERR_NONE && h'.loc == e.first && h'.pos + 1 == e.first + |e.slots|
            else h'.err == h.err && (h.err == ERR_NONE ==> h'.loc == h.loc && h'.pos == h.pos)
  {
    FirstMatchInserted(es, i, e, other);
  }

  /** What a search of a sound directory answers does not depend on what is in the name buffer. */
  lemma SearchIgnoresBuffer(slots: seq<Slot>, name: seq<byte>, g: seq<byte>, g': seq<byte>)
    requires Clean(slots, 0) && |g| == 512 && |g'| == 512
    ensures var h, h' := Search(slots, 0, name, g), Search(slots, 0, name, g');
            h'.err == h.err && (h.err == ERR_NONE ==> h'.loc == h.loc && h'.pos == h.pos)
  {
    SearchFindsFirstMatch(slots, 0, name, g);
    SearchFindsFirstMatch(slots, 0, name, g');
  }

  /** The slots of one entry, whose long name is `name`. */
  ghost predicate Spells(new_: seq<Slot>, name: seq<byte>) {
    IsItem(new_) && |new_| >= 2 && TextAt(new_, 0, |new_| - 1) == name
  }

  /** A directory is a finite map: after an entry has been added under a name that was not found, the search for that
      name ends at its short entry, and the search for every other name ends at the very entry it ended at before, or
      finds nothing as before; whatever is in the name buffer at each of these searches. */
  lemma ItemExtendsMap(slots: seq<Slot>, m: nat, r: Room, new_: seq<Slot>, name: seq<byte>, g: seq<byte>,
                       other: seq<byte>, g1: seq<byte>, g2: seq<byte>)
    requires Clean(slots, 0) && IsRoom(slots, r) && |g| == |g1| == |g2| == 512 && Spells(new_, name)
    requires r.end == r.start + |new_| && r.end < |slots| + m
    requires Search(slots, 0, name, g).err == ERR_EOF
    ensures var res := Added(Grown(slots, m), r, new_);
            var h, h' := Search(slots, 0, other, g1), Search(res, 0, other, g2);
            && Clean(res, 0)
            && if other == name then h'.err == ERR_NONE && h'.loc == r.start && h'.pos == r.end - 1
               else h'.err == h.err && (h.err == ERR_NONE ==> h'.loc == h.loc && h'.pos == h.pos)
  {
    var i := AddInserts(slots, m, r, new_);
    var res, es := Added(Grown(slots, m), r, new_), Live(slots, 0);
    SearchFindsFirstMatch(slots, 0, name, g);
    SearchFindsFirstMatch(slots, 0, other, g1);
    SearchFindsFirstMatch(res, 0, other, g2);
    LiveHasSlots(slots, 0);
    InsertedIsFound(es, i, Entry(r.start, new_), name, other, Search(slots, 0, name, g),
                    Search(slots, 0, other, g1), Search(res, 0, other, g2));
  }

  /** So it is when a name is added. */
  lemma AddExtendsMap(slots: seq<Slot>, m: nat, r: Room, name: seq<byte>, attr: byte, clust: u32, time: u16, date: u16,
                      g: seq<byte>, other: seq<byte>, g1: seq<byte>, g2: seq<byte>)
    requires Clean(slots, 0) && IsRoom(slots, r) && |g| == |g1| == |g2| == 512
    requires 1 <= |name| <= 255 && Plain(name) && attr != ATTR_LFN
    requires r.end == r.start + Lfns(|name|) + 1 && r.end < |slots| + m
    requires Search(slots, 0, name, g).err == ERR_EOF
    ensures var res := Added(Grown(slots, m), r, NewSlots(name, attr, clust, time, date));
            var h, h' := Search(slots, 0, other, g1), Search(res, 0, other, g2);
            && Clean(res, 0)
            && if other == name then h'.err == ERR_NONE && h'.loc == r.start && h'.pos == r.end - 1
               else h'.err == h.err && (h.err == ERR_NONE ==> h'.loc == h.loc && h'.pos == h.pos)
  {
    NewEntryReads(name, attr, clust, time, date);
    ItemExtendsMap(slots, m, r, NewSlots(name, attr, clust, time, date), name, g, other, g1, g2);
  }

  // ---- an entry whose short slot changes ----

  lemma {:induction false} LastChanged(s: seq<Slot>, s': seq<Slot>, pos: nat, cnt: nat, crc: byte, head: bool)
    requires pos + cnt + 1 == |s| == |s'| && SetAt(s, pos, cnt, crc, head)
    requires forall i :: pos <= i < pos + cnt ==> s'[i] == s[i]
    requires var x := s'[|s| - 1]; !IsFree(x) && !IsLfn(x) && x[..11] == s[|s| - 1][..11]
    ensures SetAt(s', pos, cnt, crc, head) && TextAt(s', pos, cnt) == TextAt(s, pos, cnt)
    decreases cnt
  {
    if cnt == 0 {
    } else {
      LastChanged(s, s', pos + 1, cnt - 1, crc, false);
    }
  }

  /** An entry still spells its name when its short slot is changed but for the name in it. */
  lemma ShortSlotChanged(new_: seq<Slot>, name: seq<byte>, x: Slot, new': seq<Slot>)
    requires Spells(new_, name) && new' == new_[|new_| - 1 := x]
    requires !IsFree(x) && !IsLfn(x) && x[..11] == new_[|new_| - 1][..11]
    ensures Spells(new', name)
  {
    var n: nat := |new_| - 1;
    assert IsLfn(new_[0]);
    assert WholeSetAt(new_, 0) && LfnCount(new_[0]) == n;
    LastChanged(new_, new', 0, n, new_[0][13], true);
    assert new'[0] == new_[0] && WholeSetAt(new', 0);
  }

  /** Changing the short slot of an entry in its directory. */
  lemma AddedChanged(big: seq<Slot>, r: Room, new_: seq<Slot>, x: Slot, new': seq<Slot>, k: nat)
    requires r.end == r.start + |new_| && r.end < |big| && new_ != []
    requires k == r.end - 1 && new' == new_[|new_| - 1 := x]
    ensures Added(big, r, new_)[k := x] == Added(big, r, new')
  {
    AddedIs(big, r, new_);
    AddedIs(big, r, new');
  }

  /** Removing the entry that was hit leaves the live entries `es`. */
  ghost predicate LeftWith(slots: seq<Slot>, h: Hit, es: seq<Entry>) {
    match h
    case Hit(_, a, b, _) =>
      && a <= b < |slots|
      && Clean(Removed(slots, a, b + 1), 0) && Live(Removed(slots, a, b + 1), 0) == es
  }

  /** Removing an entry that was put into a list of live entries leaves that list. */
  lemma RemoveInserted(res: seq<Slot>, es: seq<Entry>, i: nat, e: Entry, h: Hit)
    requires i <= |es| && Clean(res, 0) && Live(res, 0) == es[..i] + [e] + es[i..]
    requires h.loc == e.first && h.pos + 1 == e.first + |e.slots|
    ensures LeftWith(res, h, es)
  {
    var n := h.pos + 1;
    LiveWithout(res, es, i, e, h.loc, n);
  }

  lemma LiveWithout(res: seq<Slot>, es: seq<Entry>, i: nat, e: Entry, a: nat, b: nat)
    requires i <= |es| && Clean(res, 0) && Live(res, 0) == es[..i] + [e] + es[i..]
    requires a == e.first && b == e.first + |e.slots|
    ensures a < b <= |res| && Clean(Removed(res, a, b), 0) && Live(Removed(res, a, b), 0) == es
  {
    InsertedParts(es, i, e, Live(res, 0));
    RemoveDeletes(res, i, a, b);
  }

  /** Adding an entry and removing what the search for it then finds leaves the live entries that were there
      before. */
  lemma RemoveUndoesAdd(slots: seq<Slot>, m: nat, r: Room, name: seq<byte>, attr: byte, clust: u32, time: u16,
                        date: u16,
                        g: seq<byte>, res: seq<Slot>, g': seq<byte>, h: Hit)
    requires Clean(slots, 0) && IsRoom(slots, r) && |g| == |g'| == 512
    requires 1 <= |name| <= 255 && Plain(name) && attr != ATTR_LFN
    requires r.end == r.start + Lfns(|name|) + 1 && r.end < |slots| + m
    requires Search(slots, 0, name, g).err == ERR_EOF
    requires res == Added(Grown(slots, m), r, NewSlots(name, attr, clust, time, date)) && h == Search(res, 0, name, g')
    ensures LeftWith(res, h, Live(slots, 0))
  {
    var new_ := NewSlots(name, attr, clust, time, date);
    AddExtendsMap(slots, m, r, name, attr, clust, time, date, g, name, g, g');
    NewEntryReads(name, attr, clust, time, date);
    var i := AddInserts(slots, m, r, new_);
    RemoveInserted(res, Live(slots, 0), i, Entry(r.start, new_), h);
  }

  lemma InsertedParts(es: seq<Entry>, i: nat, e: Entry, more: seq<Entry>)
    requires i <= |es| && more == es[..i] + [e] + es[i..]
    ensures i < |more| && more[i] == e && more[..i] + more[i + 1..] == es
  {
    assert more[..i] == es[..i] && more[i + 1..] == es[i..];
  }

  // ---- the end mark ----

  ghost predicate HasEndMark(slots: seq<Slot>) {
    exists k :: 0 <= k < |slots| && IsLast(slots[k])
  }

  /** A directory that has an end mark keeps one when an entry is added. */
  lemma AddKeepsEndMark(slots: seq<Slot>, m: nat, r: Room, new_: seq<Slot>)
    requires HasEndMark(slots) && IsRoom(slots, r) && r.end == r.start + |new_| && r.end < |slots| + m
    ensures HasEndMark(Added(Grown(slots, m), r, new_))
  {
    var big := Grown(slots, m);
    var res := Added(big, r, new_);
    AddedParts(big, r, new_);
    if r.eod {
      assert IsLast(res[r.end]);
    } else {
      var k :| 0 <= k < |slots| && IsLast(slots[k]);
      assert IsLast(SlotOr0(slots, k));
      assert k >= r.end && big[k] == slots[k];
      assert res[r.end..][k - r.end] == big[r.end..][k - r.end];
    }
  }

  lemma EntryIsItem(slots: seq<Slot>, i: nat, a: nat, b: nat)
    requires Clean(slots, 0) && i < |Live(slots, 0)|
    requires var e := Live(slots, 0)[i]; a == e.first && b == e.first + |e.slots|
    ensures a < |slots| && !IsFree(slots[a]) && !IsLast(slots[a]) && ItemOk(slots, a) && b == a + ItemLen(slots, a)
  {
    WalkToEntry(slots, 0, i);
    WalkSplits(slots, 0, a);
    Joined(Passed(slots, 0, a), Live(slots, a));
    assert Live(slots, 0)[i] == Live(slots, a)[0];
  }

  /** The slots of a live entry hold no end mark. */
  lemma NoEndMarkInEntry(slots: seq<Slot>, i: nat, k: nat)
    requires Clean(slots, 0) && i < |Live(slots, 0)|
    requires var e := Live(slots, 0)[i]; e.first <= k < e.first + |e.slots| <= |slots|
    ensures !IsLast(slots[k])
  {
    var e := Live(slots, 0)[i];
    var a, b := e.first, e.first + |e.slots|;
    EntryIsItem(slots, i, a, b);
    if IsLfn(slots[a]) {
      InsideIsNotFree(slots, a, b - a - 1, slots[a][13], true, k);
    }
  }

  /** And when the `i`-th entry is removed. */
  lemma RemoveKeepsEndMark(slots: seq<Slot>, i: nat, a: nat, b: nat)
    requires HasEndMark(slots) && Clean(slots, 0) && i < |Live(slots, 0)|
    requires var e := Live(slots, 0)[i]; a == e.first && b == e.first + |e.slots| && a <= b <= |slots|
    ensures HasEndMark(Removed(slots, a, b))
  {
    var k :| 0 <= k < |slots| && IsLast(slots[k]);
    if a <= k < b {
      NoEndMarkInEntry(slots, i, k);
    }
    assert IsLast(Removed(slots, a, b)[k]);
  }
}
