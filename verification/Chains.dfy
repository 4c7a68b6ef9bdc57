/** What the allocator does to a table, as functions on the table, and why chains survive it. */
module Chains {
  import opened Bytes
  import opened Table
  import opened Codes

  /** How a table entry is read. `Broken` is every value that is neither a mark nor a cluster number. */
  datatype Kind = Free | Bad | Last | Link | Broken

  function KindOf(v: u32, cnt: nat): Kind {
    if v == FREE then Free
    else if v == BAD then Bad
    else if v >= EOC_MIN then Last
    else if 2 <= v < cnt then Link
    else Broken
  }

  /** The flag bits that go with a kind of entry. */
  function FlagsOf(k: Kind): int {
    match k
    case Free => 0x01
    case Bad => 0x08
    case Last => 0x06
    case _ => 0x02
  }

  ghost predicate Sized(t: Table) { 2 < |t| <= BAD }

  // ---- the circular scan ----

  function Succ(cnt: nat, c: nat): (n: nat)
    requires 2 < cnt
    ensures 2 <= n < cnt
  {
    if c + 1 >= cnt || c == 0 then 2 else c + 1
  }

  datatype Pick = At(c: nat) | Full | Unreadable

  /** How many steps of `Succ` lead from `lu` to `c`, between 1 and `cnt - 2`. */
  function StepsFrom(cnt: nat, lu: nat, c: nat): int {
    if lu < c then c - lu else c - lu + cnt - 2
  }

  /** The scan that starts behind `c` and gives up on reaching `lu`. */
  function ScanAfter(t: Table, c: nat, lu: nat): (p: Pick)
    requires Sized(t) && 2 <= c < |t| && 2 <= lu < |t|
    ensures p.At? ==> 2 <= p.c < |t| && t[p.c] == FREE
    decreases StepsFrom(|t|, c, lu)
  {
    var n := Succ(|t|, c);
    if n == lu then Full
    else match KindOf(t[n], |t|)
      case Broken => Unreadable
      case Free => At(n)
      case _ => ScanAfter(t, n, lu)
  }

  /** The cluster an allocation takes: the one behind `prev` when that is free, otherwise whatever the scan
      finds. `prev == 0` asks for the head of a new chain. */
  function Choose(t: Table, prev: nat, lu: nat): (p: Pick)
    requires Sized(t) && prev < |t| && 2 <= lu < |t|
    ensures p.At? ==> 2 <= p.c < |t| && t[p.c] == FREE
  {
    if prev == 0 then ScanAfter(t, lu, lu)
    else
      match KindOf(t[Succ(|t|, prev)], |t|)
      case Broken => Unreadable
      case Free => At(Succ(|t|, prev))
      case _ => ScanAfter(t, lu, lu)
  }

  /** The scan walks past entries of any other kind. */
  predicate Stops(t: Table, c: nat)
    requires c < |t|
  {
    KindOf(t[c], |t|) in {Free, Broken}
  }

  lemma {:induction false} ScanIsExact(t: Table, c: nat, lu: nat)
    requires Sized(t) && 2 <= c < |t| && 2 <= lu < |t|
    ensures match ScanAfter(t, c, lu)
            case At(f) => FirstStop(t, c, lu, f) && t[f] == FREE
            case Full => forall x :: 2 <= x < |t| && StepsFrom(|t|, c, x) < StepsFrom(|t|, c, lu) ==> !Stops(t, x)
            case Unreadable => exists b: nat :: FirstStop(t, c, lu, b) && KindOf(t[b], |t|) == Broken
    decreases StepsFrom(|t|, c, lu)
  {
    var n := Succ(|t|, c);
    if n == lu {
    } else if Stops(t, n) {
      assert FirstStop(t, c, lu, n);
    } else {
      ScanIsExact(t, n, lu);
      forall x | 2 <= x < |t| && x != n
        ensures StepsFrom(|t|, c, x) == StepsFrom(|t|, n, x) + 1
      {
      }
      if ScanAfter(t, n, lu).Unreadable? {
        var b: nat :| FirstStop(t, n, lu, b) && KindOf(t[b], |t|) == Broken;
        assert FirstStop(t, c, lu, b);
      }
    }
  }

  /** `f` is the first cluster behind `c`, and before `lu`, where the scan stops. */
  ghost predicate FirstStop(t: Table, c: nat, lu: nat, f: nat)
    requires Sized(t)
  {
    && 2 <= f < |t| && Stops(t, f)
    && StepsFrom(|t|, c, f) < StepsFrom(|t|, c, lu)
    && forall x :: 2 <= x < |t| && StepsFrom(|t|, c, x) < StepsFrom(|t|, c, f) ==> !Stops(t, x)
  }

  /** The circular scan from `lu` takes the first free cluster in cyclic order. It answers FULL exactly when
      no cluster other than `lu` is free or unreadable, and it fails on a table read exactly when an
      unreadable entry comes before the first free one. */
  lemma ScanFindsFirstFree(t: Table, lu: nat)
    requires Sized(t) && 2 <= lu < |t|
    ensures ScanAfter(t, lu, lu).Full? <==> forall x :: 2 <= x < |t| && x != lu ==> !Stops(t, x)
    ensures forall f: nat :: ScanAfter(t, lu, lu) == At(f) <==> FirstStop(t, lu, lu, f) && t[f] == FREE
    ensures ScanAfter(t, lu, lu).Unreadable? <==>
            exists b: nat :: FirstStop(t, lu, lu, b) && KindOf(t[b], |t|) == Broken
  {
    ScanIsExact(t, lu, lu);
    forall f, f' | FirstStop(t, lu, lu, f) && FirstStop(t, lu, lu, f')
      ensures f == f'
    {
      assert StepsFrom(|t|, lu, f) == StepsFrom(|t|, lu, f');
    }
  }

  /** On a table without unreadable entries an allocation answers FULL exactly when no cluster is free but perhaps the
      one taken last, and that one is not the cluster behind the chain to be stretched. */
  lemma FullExactly(t: Table, prev: nat, lu: nat)
    requires Sized(t) && prev < |t| && 2 <= lu < |t|
    requires forall x :: 2 <= x < |t| ==> KindOf(t[x], |t|) != Broken
    ensures Choose(t, prev, lu).Full? <==>
            && (forall x :: 2 <= x < |t| && x != lu ==> t[x] != FREE)
            && (prev != 0 ==> t[Succ(|t|, prev)] != FREE)
  {
    ScanFindsFirstFree(t, lu);
    assert forall x :: 2 <= x < |t| ==> (Stops(t, x) <==> t[x] == FREE);
  }

  /** `f` is the first free cluster in cyclic order behind `l`, and is not `l` itself. */
  ghost predicate FirstFreeBehind(t: Table, l: nat, f: nat) {
    && 2 <= f < |t| && f != l && t[f] == FREE
    && if l < f then forall x :: 2 <= x && l < x < f ==> t[x] != FREE
       else (forall x :: l < x < |t| ==> t[x] != FREE) && (forall x :: 2 <= x < f ==> t[x] != FREE)
  }

  /** On a table without unreadable entries a new chain begins at the first free cluster behind the one taken last. A
      chain that ends in cluster `prev` is continued by the cluster behind `prev`, if that is free, and otherwise as a
      new one is begun. */
  lemma ChosenInOrder(t: Table, prev: nat, lu: nat, f: nat)
    requires Sized(t) && prev < |t| && 2 <= lu < |t|
    requires forall x :: 2 <= x < |t| ==> KindOf(t[x], |t|) != Broken
    ensures prev == 0 ==> (Choose(t, prev, lu) == At(f) <==> FirstFreeBehind(t, lu, f))
    ensures 2 <= prev ==>
              var next := if prev + 1 == |t| then 2 else prev + 1;
              Choose(t, prev, lu) == At(f) <==> if t[next] == FREE then f == next else FirstFreeBehind(t, lu, f)
  {
    ScanFindsFirstFree(t, lu);
    FirstStopIsBehind(t, lu, f);
  }

  lemma FirstStopIsBehind(t: Table, lu: nat, f: nat)
    requires Sized(t) && 2 <= lu < |t|
    requires forall x :: 2 <= x < |t| ==> KindOf(t[x], |t|) != Broken
    ensures FirstStop(t, lu, lu, f) && t[f] == FREE <==> FirstFreeBehind(t, lu, f)
  {
    assert forall x :: 2 <= x < |t| ==> (Stops(t, x) <==> t[x] == FREE);
    if 2 <= f < |t| && f != lu && t[f] == FREE {
      assert forall x :: 2 <= x < |t| && StepsFrom(|t|, lu, x) < StepsFrom(|t|, lu, f) ==>
                           x != f && (if lu < f then lu < x < f else lu < x || x < f);
    }
  }

  // ---- what a failed allocation answers ----

  /** The flags that the scan holds when it ends: those of the last entry it has read, or the ones it began with. */
  function ScanFlags(t: Table, c: nat, lu: nat, flags: int): int
    requires Sized(t) && 2 <= c < |t| && 2 <= lu < |t|
    decreases StepsFrom(|t|, c, lu)
  {
    var n := Succ(|t|, c);
    if n == lu then flags
    else
      match KindOf(t[n], |t|)
      case Broken => flags
      case Free => FlagsOf(Free)
      case k => ScanFlags(t, n, lu, FlagsOf(k))
  }

  function Pred(cnt: nat, c: nat): (n: nat)
    requires 2 <= c < cnt
    ensures 2 <= n < cnt && Succ(cnt, n) == c
  {
    if c == 2 then cnt - 1 else c - 1
  }

  /** When the scan behind `c` meets an unreadable entry it holds the flags of the entry just before that one, or, if
      there was none, those it began with. */
  lemma {:induction false} FlagsBefore(t: Table, c: nat, lu: nat, flags: int)
    requires Sized(t) && 2 <= c < |t| && 2 <= lu < |t| && ScanAfter(t, c, lu).Unreadable?
    ensures exists b: nat ::
              && FirstStop(t, c, lu, b) && KindOf(t[b], |t|) == Broken
              && ScanFlags(t, c, lu, flags) == if b == Succ(|t|, c) then flags
                                               else FlagsOf(KindOf(t[Pred(|t|, b)], |t|))
    decreases StepsFrom(|t|, c, lu)
  {
    var n := Succ(|t|, c);
    if KindOf(t[n], |t|) == Broken {
      assert FirstStop(t, c, lu, n);
    } else {
      var k := KindOf(t[n], |t|);
      FlagsBefore(t, n, lu, FlagsOf(k));
      var b: nat :| FirstStop(t, n, lu, b) && KindOf(t[b], |t|) == Broken
        && ScanFlags(t, n, lu, FlagsOf(k)) == if b == Succ(|t|, n) then FlagsOf(k)
                                              else FlagsOf(KindOf(t[Pred(|t|, b)], |t|));
      forall x | 2 <= x < |t| && x != n
        ensures StepsFrom(|t|, c, x) == StepsFrom(|t|, n, x) + 1
      {
      }
      assert FirstStop(t, c, lu, b);
    }
  }

  /** How an allocation that takes no cluster may answer. Behind a chain, a failed read of the next entry is reported as
      such. A failed read in the scan hands on the flags held; for a new chain that are those of a variable that has no
      value yet, any byte, if the very first entry is unreadable. */
  ghost predicate FailsWith(t: Table, prev: nat, lu: nat, err: int)
    requires Sized(t) && prev < |t| && 2 <= lu < |t|
  {
    match Choose(t, prev, lu)
    case At(_) => false
    case Full => err == ERR_FULL
    case Unreadable =>
      if prev != 0 then
        var k := KindOf(t[Succ(|t|, prev)], |t|);
        err == if k == Broken then ERR_BROKEN else ScanFlags(t, lu, lu, FlagsOf(k))
      else exists junk: byte :: err == ScanFlags(t, lu, lu, junk)
  }

  lemma FailsWithoutFlags(t: Table, lu: nat, err: int, junk: byte)
    requires Sized(t) && 2 <= lu < |t| && ScanAfter(t, lu, lu).Unreadable? && err == ScanFlags(t, lu, lu, junk)
    ensures FailsWith(t, 0, lu, err)
  {
  }

  lemma {:induction false} FlagsArePositive(t: Table, c: nat, lu: nat, flags: int)
    requires Sized(t) && 2 <= c < |t| && 2 <= lu < |t| && ScanAfter(t, c, lu).Unreadable?
    ensures if KindOf(t[Succ(|t|, c)], |t|) == Broken then ScanFlags(t, c, lu, flags) == flags
            else ScanFlags(t, c, lu, flags) > 0
    decreases StepsFrom(|t|, c, lu)
  {
    var n := Succ(|t|, c);
    if KindOf(t[n], |t|) != Broken {
      FlagsArePositive(t, n, lu, FlagsOf(KindOf(t[n], |t|)));
    }
  }

  /** An allocation that takes no cluster may answer that it did exactly when it is for a new chain and the entry behind
      the cluster taken last is unreadable. */
  lemma FailureReadsAsSuccess(t: Table, prev: nat, lu: nat)
    requires Sized(t) && prev < |t| && 2 <= lu < |t|
    ensures FailsWith(t, prev, lu, ERR_NONE) <==>
            prev == 0 && Succ(|t|, lu) != lu && KindOf(t[Succ(|t|, lu)], |t|) == Broken
  {
    if Choose(t, prev, lu).Unreadable? {
      if prev == 0 {
        forall junk: byte
          ensures if KindOf(t[Succ(|t|, lu)], |t|) == Broken then ScanFlags(t, lu, lu, junk) == junk
                  else ScanFlags(t, lu, lu, junk) > 0
        {
          FlagsArePositive(t, lu, lu, junk);
        }
        var zero: byte := 0;
        assert KindOf(t[Succ(|t|, lu)], |t|) == Broken ==> ERR_NONE == ScanFlags(t, lu, lu, zero);
      } else if KindOf(t[Succ(|t|, prev)], |t|) != Broken {
        FlagsArePositive(t, lu, lu, FlagsOf(KindOf(t[Succ(|t|, prev)], |t|)));
      }
    }
  }

  /** Such a table, of one sector: entry 3 holds 1, which is neither a mark nor a cluster, and cluster 2 was taken
      last. */
  lemma FailureThatReadsAsSuccess()
    ensures var t: Table := seq(128, i => EOC)[3 := 1];
            Sized(t) && Choose(t, 0, 2).Unreadable? && FailsWith(t, 0, 2, ERR_NONE)
  {
    FailureReadsAsSuccess(seq(128, i => EOC)[3 := 1], 0, 2);
  }

  // ---- allocation and removal ----

  /** The allocator's whole state: the table, where the last cluster was taken, and the free counter. */
  datatype Alloc = Alloc(table: Table, lastUsed: u32, freeCnt: u32)

  ghost predicate Ready(a: Alloc) {
    Sized(a.table) && 2 <= a.lastUsed < |a.table|
  }

  /** The state after cluster `c` was taken, and linked behind `prev` unless that is 0. */
  function Taken(a: Alloc, prev: nat, c: nat): Alloc
    requires prev < |a.table| && c < |a.table| && |a.table| <= BAD
  {
    var t := a.table[c := EOC];
    Alloc(if prev == 0 then t else t[prev := c], c, Dec32(a.freeCnt))
  }

  function Stretch(a: Alloc, prev: nat): Alloc
    requires Ready(a) && prev < |a.table|
  {
    match Choose(a.table, prev, a.lastUsed)
    case At(c) => Taken(a, prev, c)
    case _ => a
  }

  lemma StretchCases(a: Alloc, prev: nat)
    requires Ready(a) && prev < |a.table|
    ensures match Choose(a.table, prev, a.lastUsed)
            case At(c) => Stretch(a, prev) == Taken(a, prev, c)
            case _ => Stretch(a, prev) == a
  {
  }

  /** The state and the chain after up to `n` clusters were appended to a chain, one after the other. */
  ghost function GrowBy(a: Alloc, chain: seq<nat>, n: nat): (Alloc, seq<nat>) {
    if n == 0 then (a, chain) else GrowOnce(GrowBy(a, chain, n - 1).0, GrowBy(a, chain, n - 1).1)
  }

  /** The state and the chain after a cluster was appended to it, if there was one. */
  ghost function GrowOnce(b: Alloc, s: seq<nat>): (Alloc, seq<nat>) {
    if s == [] || !Ready(b) || s[|s| - 1] >= |b.table| then (b, s)
    else
      match Choose(b.table, s[|s| - 1], b.lastUsed)
      case At(c) => (Stretch(b, s[|s| - 1]), s + [c])
      case _ => (b, s)
  }

  /** The chain grew into `longer`, one cluster after the other, and the allocator came from state `a` to `b`. */
  ghost predicate GrownTo(a: Alloc, chain: seq<nat>, b: Alloc, longer: seq<nat>) {
    match b
    case Alloc(_, _, _) => |chain| <= |longer| && GrowBy(a, chain, |longer| - |chain|) == (b, longer)
  }

  lemma GrownNot(a: Alloc, chain: seq<nat>)
    ensures GrownTo(a, chain, a, chain)
  {
  }

  /** A chain grows by the cluster the allocator chooses behind its end. */
  lemma GrownByOne(a: Alloc, s: seq<nat>)
    requires s != [] && Ready(a) && s[|s| - 1] < |a.table|
    ensures var p := Choose(a.table, s[|s| - 1], a.lastUsed);
            if p.At? then GrownTo(a, s, Stretch(a, s[|s| - 1]), s + [p.c]) else Stretch(a, s[|s| - 1]) == a
  {
    assert GrowBy(a, s, 0) == (a, s);
  }

  lemma GrownOnceMore(a: Alloc, chain: seq<nat>, b: Alloc, cur: seq<nat>, c: Alloc, longer: seq<nat>)
    requires GrownTo(a, chain, b, cur) && GrownTo(b, cur, c, longer) && |longer| <= |cur| + 1
    ensures GrownTo(a, chain, c, longer)
  {
    assert GrowBy(b, cur, 0) == (b, cur);
  }

  /** The clusters whose entry is not free. */
  ghost function Used(t: Table): set<nat> {
    set c: nat | c < |t| && t[c] != FREE
  }

  lemma FreeingShrinksUse(t: Table, c: nat)
    requires c < |t| && t[c] != FREE
    ensures Used(t[c := FREE]) == Used(t) - {c} && c in Used(t)
  {
  }

  ghost function FreeSet(t: Table): set<nat> {
    set c: nat | c < |t| && t[c] == FREE
  }

  /** What freeing a chain leaves behind, and whether it came to the end of the chain. */
  ghost function Remove(a: Alloc, c: nat): (r: (Alloc, bool))
    requires c < |a.table|
    ensures |r.0.table| == |a.table| && r.0.lastUsed == a.lastUsed
    decreases Used(a.table)
  {
    var v := a.table[c];
    var b := Alloc(a.table[c := FREE], a.lastUsed, Inc32(a.freeCnt));
    match KindOf(v, |a.table|)
    case Last => (b, true)
    case Link =>
      assert c in Used(a.table) && c !in Used(b.table);
      Remove(b, v)
    case _ => (a, false)
  }

  // ---- what an interrupted operation may leave ----

  /** No used entry links to a free one. */
  ghost predicate NoDangling(t: Table) {
    forall c :: 0 <= c < |t| && KindOf(t[c], |t|) == Link ==> t[t[c]] != FREE
  }

  /** No entry links to `c`. */
  ghost predicate NoLinkTo(t: Table, c: nat) {
    forall p :: 0 <= p < |t| && KindOf(t[p], |t|) == Link ==> t[p] != c
  }

  /** Everything that can be reached from `c` is reached by one link only, and `c` itself by none. */
  ghost predicate Detached(t: Table, c: nat) {
    && NoDangling(t)
    && NoLinkTo(t, c)
    && forall p, q :: 0 <= p < q < |t| && KindOf(t[p], |t|) == Link ==> t[p] != t[q]
  }

  lemma FreeingKeepsDetached(t: Table, c: nat)
    requires c < |t| && Detached(t, c)
    ensures NoDangling(t[c := FREE])
    ensures KindOf(t[c], |t|) == Link ==> Detached(t[c := FREE], t[c])
  {
    var t' := t[c := FREE];
    forall p | 0 <= p < |t| && KindOf(t'[p], |t|) == Link
      ensures t'[t'[p]] != FREE
    {
      assert KindOf(t[p], |t|) == Link;
    }
    if KindOf(t[c], |t|) == Link {
      forall p | 0 <= p < |t| && KindOf(t'[p], |t|) == Link
        ensures t'[p] != t[c]
      {
        assert t[p] != t[c];
      }
    }
  }

  lemma TakingKeepsLinks(t: Table, prev: nat, c: nat)
    requires Sized(t) && prev < |t| && 2 <= c < |t| && NoDangling(t)
    ensures NoDangling(t[c := EOC])
    ensures NoDangling(t[c := EOC][prev := c])
  {
    var t1 := t[c := EOC];
    forall p | 0 <= p < |t| && KindOf(t1[p], |t|) == Link
      ensures t1[t1[p]] != FREE
    {
      assert KindOf(t[p], |t|) == Link;
    }
    var t2 := t1[prev := c];
    forall p | 0 <= p < |t| && KindOf(t2[p], |t|) == Link
      ensures t2[t2[p]] != FREE
    {
      assert p == prev || KindOf(t1[p], |t|) == Link;
    }
  }

  // ---- chains ----

  /** `s` lists the clusters of one chain, from some cluster to the end mark. */
  ghost predicate IsChain(t: Table, s: seq<nat>) {
    && |s| > 0
    && (forall i :: 0 <= i < |s| ==> 2 <= s[i] < |t|)
    && (forall i :: 0 <= i < |s| - 1 ==> t[s[i]] == s[i + 1])
    && t[s[|s| - 1]] >= EOC_MIN
  }

  /** A chain is acyclic: no cluster occurs in it twice. */
  lemma {:induction false} ChainIsAcyclic(t: Table, s: seq<nat>, i: nat, j: nat)
    requires |t| <= BAD && IsChain(t, s) && i < j < |s|
    ensures s[i] != s[j]
    decreases |s| - j
  {
    assert t[s[i]] == s[i + 1];
    if j < |s| - 1 {
      ChainIsAcyclic(t, s, i + 1, j + 1);
    }
  }

  /** The two chains share no cluster. */
  ghost predicate Apart(s: seq<nat>, r: seq<nat>) {
    forall i, j :: 0 <= i < |s| && 0 <= j < |r| ==> s[i] != r[j]
  }

  ghost predicate Covered(cs: set<seq<nat>>, c: nat) {
    exists s :: s in cs && c in s
  }

  /** The used entries of the table are exactly the pairwise disjoint chains of `cs`, apart from bad marks. */
  ghost predicate Forest(t: Table, cs: set<seq<nat>>) {
    && Sized(t)
    && KindOf(t[0], |t|) != Link && KindOf(t[1], |t|) != Link
    && (forall s :: s in cs ==> IsChain(t, s))
    && (forall s, r {:trigger Apart(s, r)} :: s in cs && r in cs && s != r ==> Apart(s, r))
    && (forall c: nat {:trigger Covered(cs, c)} :: 2 <= c < |t| && t[c] != FREE && t[c] != BAD ==> Covered(cs, c))
  }

  /** `t` with every entry of `s` freed. */
  function Cleared(t: Table, s: seq<nat>): (r: Table)
    requires forall i :: 0 <= i < |s| ==> s[i] < |t|
    ensures |r| == |t|
  {
    seq(|t|, c requires 0 <= c < |t| => if c in s then FREE else t[c])
  }

  /** Removing a chain from its head frees exactly that chain and counts each of its clusters. */
  lemma {:induction false} RemoveFreesTheChain(a: Alloc, s: seq<nat>)
    requires |a.table| <= BAD && IsChain(a.table, s)
    ensures Remove(a, s[0]) == (Alloc(Cleared(a.table, s), a.lastUsed, (a.freeCnt + |s|) % 0x1_0000_0000), true)
    decreases |s|
  {
    var b := Alloc(a.table[s[0] := FREE], a.lastUsed, Inc32(a.freeCnt));
    if |s| == 1 {
      assert b.table == Cleared(a.table, s);
    } else {
      ChainWithoutHead(a.table, s);
      RemoveFreesTheChain(b, s[1..]);
      assert Cleared(b.table, s[1..]) == Cleared(a.table, s) by {
        assert s == [s[0]] + s[1..];
      }
      assert Link == KindOf(a.table[s[0]], |a.table|);
    }
  }

  lemma ChainWithoutHead(t: Table, s: seq<nat>)
    requires |t| <= BAD && IsChain(t, s) && |s| > 1
    ensures IsChain(t[s[0] := FREE], s[1..]) && s[0] !in s[1..]
    ensures t[s[0]] == s[1]
  {
    forall i | 1 <= i < |s|
      ensures s[i] != s[0]
    {
      ChainIsAcyclic(t, s, 0, i);
    }
  }
}
