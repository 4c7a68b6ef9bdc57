/** What adding and removing entries does to the live entries of a directory. */
module Entries {
  import opened Bytes
  import opened Names
  import opened Slots

  // ---- walking ----

  /** Walking over complete items from `k` comes to slot `a`, with no end mark before it. */
  ghost predicate Walk(slots: seq<Slot>, k: nat, a: nat)
    decreases |slots| - k
  {
    k == a ||
    (k < |slots| && k < a && !IsLast(slots[k]) && ItemOk(slots, k) && Walk(slots, k + ItemLen(slots, k), a))
  }

  /** The entries that a walk passes. */
  ghost function Passed(slots: seq<Slot>, k: nat, a: nat): seq<Entry>
    requires Walk(slots, k, a)
    decreases |slots| - k
  {
    if k == a then []
    else
      var n := ItemLen(slots, k);
      if IsFree(slots[k]) then Passed(slots, k + n, a)
      else [Entry(k, slots[k..k + n])] + Passed(slots, k + n, a)
  }

  /** A walk takes the live entries apart. */
  lemma {:induction false} WalkSplits(slots: seq<Slot>, k: nat, a: nat)
    requires Walk(slots, k, a)
    ensures Clean(slots, k) <==> Clean(slots, a)
    ensures Clean(slots, a) ==> Live(slots, k) == Passed(slots, k, a) + Live(slots, a)
    decreases |slots| - k
  {
    if k == a {
    } else {
      var n := ItemLen(slots, k);
      WalkSplits(slots, k + n, a);
      if Clean(slots, a) && !IsFree(slots[k]) {
        var e := Entry(k, slots[k..k + n]);
        Assoc([e], Passed(slots, k + n, a), Live(slots, a));
      }
    }
  }

  /** Whether an item is complete depends only on its own slots. */
  lemma SameItem(slots: seq<Slot>, k: nat, other: seq<Slot>, j: nat)
    requires k < |slots| && j < |other| && k + ItemLen(slots, k) <= |slots| && j + ItemLen(slots, k) <= |other|
    requires slots[k..k + ItemLen(slots, k)] == other[j..j + ItemLen(slots, k)]
    ensures other[j] == slots[k] && (ItemOk(slots, k) <==> ItemOk(other, j))
  {
    var n := ItemLen(slots, k);
    assert slots[k] == slots[k..k + n][0] == other[j];
    SetShift(slots, k, other, j, n - 1, slots[k][13], true);
  }

  /** A walk goes the same way in a directory with the same slots up to its goal. */
  lemma {:induction false} SameWalk(slots: seq<Slot>, other: seq<Slot>, k: nat, a: nat)
    requires Walk(slots, k, a) && a <= |slots| && a <= |other| && other[..a] == slots[..a]
    ensures Walk(other, k, a) && Passed(other, k, a) == Passed(slots, k, a)
    decreases |slots| - k
  {
    if k == a {
    } else {
      var n := ItemLen(slots, k);
      WalkIsAhead(slots, k + n, a);
      SliceOfPrefix(slots, other, a, k, k + n);
      SameItem(slots, k, other, k);
      SameWalk(slots, other, k + n, a);
    }
  }

  lemma SliceOfPrefix(slots: seq<Slot>, other: seq<Slot>, a: nat, i: nat, j: nat)
    requires i <= j <= a <= |slots| && a <= |other| && other[..a] == slots[..a]
    ensures other[i..j] == slots[i..j]
  {
    var x, y := other[i..j], slots[i..j];
    forall m | 0 <= m < j - i
      ensures x[m] == y[m]
    {
      assert other[..a][i + m] == slots[..a][i + m];
    }
  }

  lemma WalkIsAhead(slots: seq<Slot>, k: nat, a: nat)
    requires Walk(slots, k, a)
    ensures k <= a
  {
  }

  lemma {:induction false} InsideIsNotFree(slots: seq<Slot>, pos: nat, cnt: nat, crc: byte, head: bool, a: nat)
    requires pos + cnt < |slots| && SetAt(slots, pos, cnt, crc, head) && pos <= a <= pos + cnt
    ensures !IsFree(slots[a])
    decreases cnt
  {
    if pos == a {
    } else {
      InsideIsNotFree(slots, pos + 1, cnt - 1, crc, false, a);
    }
  }

  /** A slot that looks free is inside no entry of a clean directory. */
  lemma {:induction false} WalkToFree(slots: seq<Slot>, k: nat, a: nat)
    requires Clean(slots, k) && k <= a < |slots| && IsFree(slots[a])
    requires forall i :: k <= i < a ==> !IsLast(slots[i])
    ensures Walk(slots, k, a)
    decreases |slots| - k
  {
    if k == a {
    } else {
      var n := ItemLen(slots, k);
      if a < k + n {
        InsideIsNotFree(slots, k, n - 1, slots[k][13], true, a);
      }
      WalkToFree(slots, k + n, a);
    }
  }

  lemma SuffixParts(slots: seq<Slot>, other: seq<Slot>, k: nat, n: nat)
    requires |other| == |slots| && k <= n <= |slots| && other[k..] == slots[k..]
    ensures other[k..n] == slots[k..n] && other[n..] == slots[n..]
  {
    assert other[k..n] == other[k..][..n - k] == slots[k..n];
    assert other[n..] == other[k..][n - k..] == slots[n..];
  }

  /** Live entries depend only on the slots from where one starts. */
  lemma {:induction false} SameSuffix(slots: seq<Slot>, other: seq<Slot>, k: nat)
    requires Clean(slots, k) && |other| == |slots| && k <= |slots| && other[k..] == slots[k..]
    ensures Clean(other, k) && Live(other, k) == Live(slots, k)
    decreases |slots| - k
  {
    if k >= |slots| {
    } else {
      assert other[k] == other[k..][0] == slots[k];
      if !IsLast(slots[k]) {
        var n: nat := k + ItemLen(slots, k);
        SuffixParts(slots, other, k, n);
        SameItem(slots, k, other, k);
        SameSuffix(slots, other, n);
        assert Live(other, k) == if IsFree(slots[k]) then Live(other, n)
                                 else [Entry(k, slots[k..n])] + Live(other, n);
      }
    }
  }

  /** A run of free slots holds no live entry. */
  lemma {:induction false} FreeRun(slots: seq<Slot>, a: nat, b: nat)
    requires a <= b <= |slots| && forall i :: a <= i < b ==> IsFree(slots[i]) && !IsLast(slots[i])
    ensures Clean(slots, b) <==> Clean(slots, a)
    ensures Clean(slots, a) ==> Live(slots, a) == Live(slots, b)
    decreases b - a
  {
    if a == b {
    } else {
      FreeRun(slots, a + 1, b);
    }
  }

  // ---- a directory that grows ----

  function ZeroSlot(): Slot { seq(32, i => 0) }

  /** The directory after `m` cleared slots were added to its end. */
  function Grown(slots: seq<Slot>, m: nat): (r: seq<Slot>)
    ensures |r| == |slots| + m
    ensures forall i :: 0 <= i < |slots| ==> r[i] == slots[i]
    ensures forall i :: |slots| <= i < |r| ==> r[i] == ZeroSlot()
  {
    slots + seq(m, i => ZeroSlot())
  }

  lemma {:induction false} GrownSame(slots: seq<Slot>, m: nat, k: nat)
    requires Clean(slots, k)
    ensures Clean(Grown(slots, m), k) && Live(Grown(slots, m), k) == Live(slots, k)
    decreases |slots| - k
  {
    var r := Grown(slots, m);
    if k < |slots| && !IsLast(slots[k]) {
      var n := ItemLen(slots, k);
      assert r[k..k + n] == slots[k..k + n];
      SameItem(slots, k, r, k);
      GrownSame(slots, m, k + n);
    }
  }

  // ---- looking for room ----

  /** A place for `end - start` slots. `eod` tells whether the end mark was passed on the way. */
  datatype Room = Room(start: nat, end: nat, eod: bool)

  function SlotOr0(slots: seq<Slot>, k: nat): Slot {
    if k < |slots| then slots[k] else ZeroSlot()
  }

  /** The search for `need` free slots in a row, in a directory that is cleared behind its end. Behind the end
      mark every slot counts as free. */
  function FindRoom(slots: seq<Slot>, k: nat, cnt: nat, start: nat, eod: bool, need: nat): (r: Room)
    requires cnt <= need
    decreases if k < |slots| then |slots| - k else 0, need - cnt
  {
    if cnt == need then Room(start, k, eod)
    else
      var s := SlotOr0(slots, k);
      if eod || IsFree(s) then
        FindRoom(slots, k + 1, cnt + 1, if cnt == 0 then k else start, eod || IsLast(s), need)
      else FindRoom(slots, k + 1, 0, start, eod, need)
  }

  /** The search for room, at slot `k` with `cnt` free slots in a row behind it, comes to `r`. */
  ghost predicate RoomComesTo(r: Room, slots: seq<Slot>, k: nat, cnt: nat, start: nat, eod: bool, need: nat) {
    match r
    case Room(_, _, _) => cnt <= need && r == FindRoom(slots, k, cnt, start, eod, need)
  }

  lemma RoomStep(r: Room, slots: seq<Slot>, k: nat, next: nat, cnt: nat, start: nat, eod: bool, need: nat)
    requires RoomComesTo(r, slots, k, cnt, start, eod, need) && cnt < need && next == k + 1
    ensures var s := SlotOr0(slots, k);
            if eod || IsFree(s) then
              RoomComesTo(r, slots, next, cnt + 1, if cnt == 0 then k else start, eod || IsLast(s), need)
            else RoomComesTo(r, slots, next, 0, start, eod, need)
  {
  }

  /** The search ends behind the free slots it was to find. */
  lemma RoomIsHere(r: Room, slots: seq<Slot>, k: nat, need: nat, start: nat, eod: bool)
    requires RoomComesTo(r, slots, k, need, start, eod, need)
    ensures r.start == start && r.end == k && r.eod == eod
  {
  }

  /** The place found lies ahead of where the search is. */
  lemma {:induction false} RoomIsAhead(slots: seq<Slot>, k: nat, cnt: nat, start: nat, eod: bool, need: nat)
    requires cnt <= need
    ensures FindRoom(slots, k, cnt, start, eod, need).end >= k
    decreases if k < |slots| then |slots| - k else 0, need - cnt
  {
    if cnt == need {
    } else {
      var s := SlotOr0(slots, k);
      if eod || IsFree(s) {
        RoomIsAhead(slots, k + 1, cnt + 1, if cnt == 0 then k else start, eod || IsLast(s), need);
      } else {
        RoomIsAhead(slots, k + 1, 0, start, eod, need);
      }
    }
  }

  /** What is known about a place for an entry in `slots`: before the end mark all of it is free, and if the end
      mark was passed it lies in the place. */
  ghost predicate IsRoom(slots: seq<Slot>, r: Room) {
    && r.start < r.end
    && if r.eod then
         exists l :: r.start <= l < r.end && EndMarkAt(slots, l) && FreeFrom(slots, r.start, l)
       else
         FreeFrom(slots, r.start, r.end) && NoEndMark(slots, r.end)
  }

  ghost predicate NoEndMark(slots: seq<Slot>, b: nat) {
    forall i :: 0 <= i < b ==> !IsLast(SlotOr0(slots, i))
  }

  ghost predicate FreeFrom(slots: seq<Slot>, a: nat, b: nat) {
    forall i :: a <= i < b ==> IsFree(SlotOr0(slots, i))
  }

  /** The first end mark is at `l`. */
  ghost predicate EndMarkAt(slots: seq<Slot>, l: nat) {
    IsLast(SlotOr0(slots, l)) && NoEndMark(slots, l)
  }

  lemma {:induction false} FindRoomFindsRoom(slots: seq<Slot>, k: nat, cnt: nat, start: nat, eod: bool, need: nat)
    requires cnt <= need && 0 < need && (cnt > 0 ==> k == start + cnt)
    requires if eod then
               cnt > 0 && exists l :: start <= l < k && EndMarkAt(slots, l) && FreeFrom(slots, start, l)
             else NoEndMark(slots, k) && (cnt > 0 ==> FreeFrom(slots, start, k))
    ensures var r := FindRoom(slots, k, cnt, start, eod, need);
            IsRoom(slots, r) && r.end == r.start + need
    decreases if k < |slots| then |slots| - k else 0, need - cnt
  {
    if cnt == need {
    } else {
      var s := SlotOr0(slots, k);
      if eod || IsFree(s) {
        var start' := if cnt == 0 then k else start;
        if !eod && IsLast(s) {
          assert EndMarkAt(slots, k) && FreeFrom(slots, start', k);
        }
        FindRoomFindsRoom(slots, k + 1, cnt + 1, start', eod || IsLast(s), need);
      } else {
        FindRoomFindsRoom(slots, k + 1, 0, start, eod, need);
      }
    }
  }

  /** There is an end mark before slot `k`. */
  ghost predicate MarkBefore(slots: seq<Slot>, k: nat) {
    exists l: nat :: l < k && IsLast(SlotOr0(slots, l))
  }

  /** Slot `i` may be taken: it is free, or lies behind an end mark. */
  ghost predicate MayTake(slots: seq<Slot>, i: nat) {
    IsFree(SlotOr0(slots, i)) || MarkBefore(slots, i)
  }

  ghost predicate Fitting(slots: seq<Slot>, a: nat, need: nat) {
    forall i: nat :: a <= i < a + need ==> MayTake(slots, i)
  }

  /** The place found is the first one where all the slots needed may be taken. */
  lemma {:induction false} FindRoomIsFirst(slots: seq<Slot>, k: nat, cnt: nat, start: nat, eod: bool, need: nat)
    requires cnt <= need && 0 < need && cnt <= k && (cnt > 0 ==> k == start + cnt)
    requires (eod <==> MarkBefore(slots, k)) && Fitting(slots, k - cnt, cnt)
    requires forall a: nat :: a < k - cnt ==> !Fitting(slots, a, need)
    ensures var r := FindRoom(slots, k, cnt, start, eod, need);
            && r.end == r.start + need && Fitting(slots, r.start, need) && (r.eod <==> MarkBefore(slots, r.end))
            && forall a: nat :: a < r.start ==> !Fitting(slots, a, need)
    decreases if k < |slots| then |slots| - k else 0, need - cnt
  {
    if cnt == need {
    } else {
      var s := SlotOr0(slots, k);
      if eod || IsFree(s) {
        assert MayTake(slots, k);
        FindRoomIsFirst(slots, k + 1, cnt + 1, if cnt == 0 then k else start, eod || IsLast(s), need);
      } else {
        forall a: nat | a < k + 1
          ensures !Fitting(slots, a, need)
        {
          assert k - cnt <= a ==> a <= k < a + need && !MayTake(slots, k);
        }
        FindRoomIsFirst(slots, k + 1, 0, start, eod, need);
      }
    }
  }

  // ---- adding ----

  function EndMark(s: Slot): Slot { s[0 := SLOT_LAST] }

  /** The directory with the first `j` slots of `f` laid over it from slot `at` on. */
  function Laid(slots: seq<Slot>, at: nat, f: seq<Slot>, j: nat): (r: seq<Slot>)
    requires at + j <= |slots| && j <= |f|
    ensures |r| == |slots|
  {
    if j == 0 then slots else Laid(slots, at, f, j - 1)[at + j - 1 := f[j - 1]]
  }

  lemma {:induction false} LaidIs(slots: seq<Slot>, at: nat, f: seq<Slot>, j: nat)
    requires at + j <= |slots| && j <= |f|
    ensures Laid(slots, at, f, j) == slots[..at] + f[..j] + slots[at + j..]
  {
    if j == 0 {
    } else {
      LaidIs(slots, at, f, j - 1);
    }
  }

  /** The directory after the slots of an entry were put into a place, and a new end mark behind it if the old one
      was passed. */
  function Added(slots: seq<Slot>, r: Room, new_: seq<Slot>): (res: seq<Slot>)
    requires r.end == r.start + |new_| && r.end < |slots|
    ensures |res| == |slots|
  {
    Laid(if r.eod then slots[r.end := EndMark(slots[r.end])] else slots, r.start, new_, |new_|)
  }

  lemma AddedIs(slots: seq<Slot>, r: Room, new_: seq<Slot>)
    requires r.end == r.start + |new_| && r.end < |slots|
    ensures Added(slots, r, new_) == slots[..r.start] + new_
                                     + [if r.eod then EndMark(slots[r.end]) else slots[r.end]] + slots[r.end + 1..]
  {
    if r.eod {
      LaidIs(slots[r.end := EndMark(slots[r.end])], r.start, new_, |new_|);
    } else {
      LaidIs(slots, r.start, new_, |new_|);
    }
  }

  /** The slots of one entry. */
  ghost predicate IsItem(set_: seq<Slot>) {
    set_ != [] && !IsFree(set_[0]) && ItemOk(set_, 0) && |set_| == ItemLen(set_, 0)
  }

  lemma LiveItem(slots: seq<Slot>, a: nat, b: nat)
    requires a < b <= |slots| && IsItem(slots[a..b]) && Clean(slots, b)
    ensures Clean(slots, a) && Live(slots, a) == [Entry(a, slots[a..b])] + Live(slots, b)
  {
    var n := ItemLen(slots, a);
    assert slots[a..b][0] == slots[a];
    assert slots[a..b][0..n] == slots[a..b];
    SameItem(slots[a..b], 0, slots, a);
  }

  lemma NothingBehindEndMark(slots: seq<Slot>, a: nat, l: nat)
    requires a <= l < |slots| && IsLast(slots[l]) && forall i :: a <= i < l ==> IsFree(slots[i]) && !IsLast(slots[i])
    ensures Clean(slots, a) && Live(slots, a) == []
  {
    FreeRun(slots, a, l);
  }

  lemma AddedParts(big: seq<Slot>, r: Room, new_: seq<Slot>)
    requires r.end == r.start + |new_| && r.end < |big|
    ensures var res := Added(big, r, new_);
            && res[r.start..r.end] == new_ && res[..r.start] == big[..r.start]
            && if r.eod then IsLast(res[r.end]) else res[r.end..] == big[r.end..]
  {
    AddedIs(big, r, new_);
  }

  /** Adding an entry to a clean directory puts just that entry into the list of live ones. */
  lemma AddInserts(slots: seq<Slot>, m: nat, r: Room, new_: seq<Slot>) returns (i: nat)
    requires Clean(slots, 0) && IsRoom(slots, r) && IsItem(new_)
    requires r.end == r.start + |new_| && r.end < |slots| + m
    ensures var res, es := Added(Grown(slots, m), r, new_), Live(slots, 0);
            && i <= |es| && Clean(res, 0) && Live(res, 0) == es[..i] + [Entry(r.start, new_)] + es[i..]
  {
    var big := Grown(slots, m);
    GrownSame(slots, m, 0);
    var res := Added(big, r, new_);
    var rest := RoomEmpty(slots, big, r);
    AddedParts(big, r, new_);
    if !r.eod {
      SameSuffix(big, res, r.end);
    }
    LiveItem(res, r.start, r.end);
    var p := Passed(big, 0, r.start);
    WalkSplits(big, 0, r.start);
    SameWalk(big, res, 0, r.start);
    WalkSplits(res, 0, r.start);
    i := |p|;
    Joined(p, rest);
    Assoc(p, [Entry(r.start, new_)], rest);
  }

  /** The entries from a place on are those behind it. */
  lemma RoomEmpty(slots: seq<Slot>, big: seq<Slot>, r: Room) returns (rest: seq<Entry>)
    requires Clean(big, 0) && IsRoom(slots, r) && r.end < |big|
    requires forall j :: 0 <= j < |big| ==> big[j] == SlotOr0(slots, j)
    ensures Walk(big, 0, r.start) && Clean(big, r.start) && Live(big, r.start) == rest
    ensures if r.eod then rest == [] else Clean(big, r.end) && rest == Live(big, r.end)
  {
    if r.eod {
      var l :| r.start <= l < r.end && EndMarkAt(slots, l) && FreeFrom(slots, r.start, l);
      WalkToFree(big, 0, r.start);
      NothingBehindEndMark(big, r.start, l);
      rest := [];
    } else {
      WalkToFree(big, 0, r.start);
      WalkSplits(big, 0, r.start);
      FreeRun(big, r.start, r.end);
      rest := Live(big, r.start);
    }
  }

  // ---- removing ----

  function FreeMark(s: Slot): Slot { s[0 := SLOT_FREE] }

  /** The directory after the slots from `a` to `b` were marked free. */
  function Removed(slots: seq<Slot>, a: nat, b: nat): (r: seq<Slot>)
    requires a <= b <= |slots|
    ensures |r| == |slots|
    ensures forall i :: 0 <= i < |r| ==> r[i] == if a <= i < b then FreeMark(slots[i]) else slots[i]
  {
    seq(|slots|, i requires 0 <= i < |slots| => if a <= i < b then FreeMark(slots[i]) else slots[i])
  }

  /** A walk leads to the `i`-th live entry, and passes `i` entries before it. */
  lemma {:induction false} WalkToEntry(slots: seq<Slot>, k: nat, i: nat)
    requires Clean(slots, k) && i < |Live(slots, k)|
    ensures var a := Live(slots, k)[i].first;
            && k <= a < |slots| && !IsFree(slots[a]) && Walk(slots, k, a) && |Passed(slots, k, a)| == i
    decreases |slots| - k
  {
    if IsFree(slots[k]) {
      WalkToEntry(slots, k + 1, i);
    } else if i > 0 {
      WalkToEntry(slots, k + ItemLen(slots, k), i - 1);
    }
  }

  /** The `i`-th live entry with what lies before and behind it. */
  lemma EntryParts(slots: seq<Slot>, i: nat)
    requires Clean(slots, 0) && i < |Live(slots, 0)|
    ensures var es := Live(slots, 0);
            var a, b := es[i].first, es[i].first + |es[i].slots|;
            && a < b <= |slots| && es[i].slots == slots[a..b]
            && Walk(slots, 0, a) && Passed(slots, 0, a) == es[..i]
            && Clean(slots, b) && Live(slots, b) == es[i + 1..]
  {
    var es := Live(slots, 0);
    WalkToEntry(slots, 0, i);
    var a := es[i].first;
    WalkSplits(slots, 0, a);
    Joined(Passed(slots, 0, a), Live(slots, a));
    assert es == Passed(slots, 0, a) + Live(slots, a);
    Cut(es, i);
    var b := a + ItemLen(slots, a);
    Joined([Live(slots, a)[0]], Live(slots, b));
    assert es[i] == Entry(a, slots[a..b]);
  }

  lemma RemovedParts(slots: seq<Slot>, a: nat, b: nat)
    requires a <= b <= |slots|
    ensures var r := Removed(slots, a, b);
            && r[..a] == slots[..a] && r[b..] == slots[b..]
            && forall i :: a <= i < b ==> IsFree(r[i]) && !IsLast(r[i])
  {
  }

  /** Marking the slots of a live entry free takes just that entry out of the list of live ones. */
  lemma RemoveDeletes(slots: seq<Slot>, i: nat, a: nat, b: nat)
    requires Clean(slots, 0) && i < |Live(slots, 0)|
    requires var e := Live(slots, 0)[i]; a == e.first && b == e.first + |e.slots|
    ensures a < b <= |slots| && Clean(Removed(slots, a, b), 0)
    ensures Live(Removed(slots, a, b), 0) == Live(slots, 0)[..i] + Live(slots, 0)[i + 1..]
  {
    EntryParts(slots, i);
    RemoveBetween(slots, a, b);
  }

  lemma RemoveBetween(slots: seq<Slot>, a: nat, b: nat)
    requires a <= b <= |slots| && Walk(slots, 0, a) && Clean(slots, b)
    ensures var res := Removed(slots, a, b);
            Clean(res, 0) && Live(res, 0) == Passed(slots, 0, a) + Live(slots, b)
  {
    var res := Removed(slots, a, b);
    RemovedParts(slots, a, b);
    SameSuffix(slots, res, b);
    FreeRun(res, a, b);
    SameWalk(slots, res, 0, a);
    WalkSplits(res, 0, a);
  }
}
