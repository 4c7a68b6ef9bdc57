/** Whole runs of allocations and removals: the chains stay apart and acyclic, and the free counter keeps its
    distance from the number of free entries. */
module Runs {
  import opened Bytes
  import opened Table
  import opened Chains

  /** An operation on the chains of a volume. `Extend` and `Delete` name the chain they work on. */
  datatype Op = Create | Extend(s: seq<nat>) | Delete(s: seq<nat>)

  ghost predicate Legal(cs: set<seq<nat>>, op: Op) {
    op.Create? || op.s in cs
  }

  function Last(s: seq<nat>): nat
    requires s != []
  {
    s[|s| - 1]
  }

  /** The state and the chains after an operation; an allocation that finds no cluster changes nothing. */
  ghost function Apply(a: Alloc, cs: set<seq<nat>>, op: Op): (Alloc, set<seq<nat>>)
    requires Ready(a) && Forest(a.table, cs) && Legal(cs, op)
  {
    match op
    case Create => (
      match Choose(a.table, 0, a.lastUsed)
      case At(c) => (Stretch(a, 0), cs + {[c]})
      case _ => (a, cs))
    case Extend(s) => (
      match Choose(a.table, Last(s), a.lastUsed)
      case At(c) => (Stretch(a, Last(s)), cs - {s} + {s + [c]})
      case _ => (a, cs))
    case Delete(s) => (Remove(a, s[0]).0, cs - {s})
  }

  // ---- one step ----

  lemma FreshIsApart(t: Table, cs: set<seq<nat>>, c: nat)
    requires Forest(t, cs) && c < |t| && t[c] == FREE
    ensures forall s :: s in cs ==> c !in s
  {
    forall s, i | s in cs && 0 <= i < |s|
      ensures s[i] != c
    {
      FreeIsInNoChain(t, s, i);
    }
  }

  lemma CreateKeepsForest(t: Table, cs: set<seq<nat>>, c: nat)
    requires Forest(t, cs) && 2 <= c < |t| && t[c] == FREE
    ensures Forest(t[c := EOC], cs + {[c]})
  {
    FreshIsApart(t, cs, c);
    var t', cs' := t[c := EOC], cs + {[c]};
    forall s | s in cs
      ensures IsChain(t', s) && Apart(s, [c]) && Apart([c], s)
    {
    }
    forall x: nat | 2 <= x < |t| && t'[x] != FREE && t'[x] != BAD
      ensures Covered(cs', x)
    {
      if x == c {
        assert [c] in cs' && c in [c];
      } else {
        assert Covered(cs, x);
        var s :| s in cs && x in s;
        assert s in cs';
      }
    }
  }

  lemma ExtendedIsChain(t: Table, s: seq<nat>, c: nat)
    requires Sized(t) && IsChain(t, s) && 2 <= c < |t| && t[c] == FREE && c !in s
    ensures IsChain(t[c := EOC][Last(s) := c], s + [c])
  {
    var t', r := t[c := EOC][Last(s) := c], s + [c];
    forall i | 0 <= i < |r| - 1
      ensures t'[r[i]] == r[i + 1]
    {
      if i < |s| - 1 {
        ChainIsAcyclic(t, s, i, |s| - 1);
      }
    }
  }

  lemma ExtendKeepsForest(t: Table, cs: set<seq<nat>>, s: seq<nat>, c: nat)
    requires Forest(t, cs) && s in cs && 2 <= c < |t| && t[c] == FREE
    ensures Forest(t[c := EOC][Last(s) := c], cs - {s} + {s + [c]})
  {
    FreshIsApart(t, cs, c);
    var t', cs' := t[c := EOC][Last(s) := c], cs - {s} + {s + [c]};
    ExtendedIsChain(t, s, c);
    forall r | r in cs && r != s
      ensures IsChain(t', r) && Apart(r, s + [c]) && Apart(s + [c], r)
    {
      assert Apart(r, s) && Apart(s, r);
    }
    forall x: nat | 2 <= x < |t| && t'[x] != FREE && t'[x] != BAD
      ensures Covered(cs', x)
    {
      if x == c || x in s {
        assert s + [c] in cs' && x in s + [c];
      } else {
        assert Covered(cs, x);
        var r :| r in cs && x in r;
        assert r in cs';
      }
    }
  }

  lemma DeleteKeepsForest(t: Table, cs: set<seq<nat>>, s: seq<nat>)
    requires Forest(t, cs) && s in cs
    ensures Forest(Cleared(t, s), cs - {s})
  {
    var t', cs' := Cleared(t, s), cs - {s};
    forall r | r in cs'
      ensures IsChain(t', r)
    {
      assert Apart(r, s);
    }
    forall x: nat | 2 <= x < |t| && t'[x] != FREE && t'[x] != BAD
      ensures Covered(cs', x)
    {
      assert Covered(cs, x);
      var r :| r in cs && x in r;
      assert r in cs';
    }
  }

  /** One operation keeps the forest, keeps every chain it does not name, and changes no entry outside the
      chain it names and the one cluster it takes, which was free; and a chain it extends gains just that
      cluster at its end. */
  lemma StepKeepsForest(a: Alloc, cs: set<seq<nat>>, op: Op)
    requires Ready(a) && Forest(a.table, cs) && Legal(cs, op)
    ensures var (a', cs') := Apply(a, cs, op);
            && Ready(a') && Forest(a'.table, cs') && |a'.table| == |a.table|
            && (forall s :: s in cs && (op.Create? || s != op.s) ==> s in cs')
            && (forall c :: 0 <= c < |a.table| && a.table[c] != FREE && (op.Create? || c !in op.s) ==>
                  a'.table[c] == a.table[c])
            && (forall c, d :: 0 <= c < d < |a.table| && a.table[c] == FREE == a.table[d] ==>
                  a'.table[c] == FREE || a'.table[d] == FREE)
  {
    match op
    case Create =>
      match Choose(a.table, 0, a.lastUsed) {
        case At(c) => CreateKeepsForest(a.table, cs, c);
        case _ =>
      }
    case Extend(s) =>
      match Choose(a.table, Last(s), a.lastUsed) {
        case At(c) =>
          assert Last(s) in s;
          ExtendKeepsForest(a.table, cs, s, c);
        case _ =>
      }
    case Delete(s) =>
      RemoveFreesTheChain(a, s);
      DeleteKeepsForest(a.table, cs, s);
  }

  // ---- whole runs ----

  /** The operations `ops` are legal one after the other and lead from one state to the other. */
  ghost predicate Leads(a: Alloc, cs: set<seq<nat>>, ops: seq<Op>, a': Alloc, cs': set<seq<nat>>)
    requires Ready(a) && Forest(a.table, cs)
    decreases |ops|
  {
    if ops == [] then a' == a && cs' == cs
    else
      && Legal(cs, ops[0])
      && var (b, bs) := Apply(a, cs, ops[0]);
         StepKeepsForest(a, cs, ops[0]);
         Leads(b, bs, ops[1..], a', cs')
  }

  /** Over every run the table stays a set of disjoint acyclic chains, and chains that are not named by any
      operation of the run are there at its end. */
  lemma {:induction false} RunKeepsForest(a: Alloc, cs: set<seq<nat>>, ops: seq<Op>, a': Alloc, cs': set<seq<nat>>)
    requires Ready(a) && Forest(a.table, cs) && Leads(a, cs, ops, a', cs')
    ensures Ready(a') && Forest(a'.table, cs')
    ensures forall s :: s in cs && (forall op :: op in ops ==> op.Create? || op.s != s) ==> s in cs'
    ensures Balance(a') == Balance(a)
    decreases |ops|
  {
    if ops == [] {
    } else {
      var (b, bs) := Apply(a, cs, ops[0]);
      StepKeepsForest(a, cs, ops[0]);
      RunKeepsForest(b, bs, ops[1..], a', cs');
      match ops[0] {
        case Create => StretchConserves(a, 0);
        case Extend(s) => StretchConserves(a, Last(s));
        case Delete(s) => RemoveConserves(a, s[0]);
      }
    }
  }

  // ---- the free counter ----

  /** How far the free counter is from the number of free entries, modulo its width. */
  ghost function Balance(a: Alloc): int {
    (a.freeCnt - |FreeSet(a.table)|) % 0x1_0000_0000
  }

  lemma FreeCountAfterUpdate(t: Table, c: nat, v: u32)
    requires c < |t|
    ensures |FreeSet(t[c := v])| ==
            |FreeSet(t)| + (if v == FREE then 1 else 0) - (if t[c] == FREE then 1 else 0)
  {
    var before, after := FreeSet(t), FreeSet(t[c := v]);
    assert after - {c} == before - {c};
    assert |after - {c}| == |after| - (if c in after then 1 else 0);
    assert |before - {c}| == |before| - (if c in before then 1 else 0);
  }

  lemma FreeConserves(a: Alloc, c: nat, b: Alloc)
    requires c < |a.table| && a.table[c] != FREE && b == Alloc(a.table[c := FREE], a.lastUsed, Inc32(a.freeCnt))
    ensures Balance(b) == Balance(a)
  {
    FreeCountAfterUpdate(a.table, c, FREE);
  }

  /** A removal keeps the balance on every table, also when it stops early. */
  lemma {:induction false} RemoveConserves(a: Alloc, c: nat)
    requires c < |a.table|
    ensures Balance(Remove(a, c).0) == Balance(a)
    decreases Used(a.table)
  {
    var v := a.table[c];
    var b := Alloc(a.table[c := FREE], a.lastUsed, Inc32(a.freeCnt));
    var k := KindOf(v, |a.table|);
    if k == Kind.Last || k == Link {
      FreeConserves(a, c, b);
      if k == Link {
        FreeingShrinksUse(a.table, c);
        RemoveConserves(b, v);
      }
    }
  }

  /** An allocation keeps the balance, provided the entry it links from was in use. */
  lemma StretchConserves(a: Alloc, prev: nat)
    requires Ready(a) && prev < |a.table| && (prev != 0 ==> a.table[prev] != FREE)
    ensures Balance(Stretch(a, prev)) == Balance(a)
  {
    match Choose(a.table, prev, a.lastUsed)
    case At(c) =>
      FreeCountAfterUpdate(a.table, c, EOC);
      if prev != 0 {
        FreeCountAfterUpdate(a.table[c := EOC], prev, c);
      }
    case _ =>
  }

  // ---- where the next cluster is taken ----

  /** Between two states cluster `c` was taken: its entry was free and is not any more. */
  ghost predicate Takes(a: Alloc, b: Alloc, c: nat) {
    c < |a.table| && c < |b.table| && a.table[c] == FREE && b.table[c] != FREE
  }

  /** No operation of a run takes a cluster. */
  ghost predicate TookNone(a: Alloc, cs: set<seq<nat>>, ops: seq<Op>)
    requires Ready(a) && Forest(a.table, cs)
    decreases |ops|
  {
    ops == [] || (Legal(cs, ops[0]) &&
      var (b, bs) := Apply(a, cs, ops[0]);
      StepKeepsForest(a, cs, ops[0]);
      (forall c :: !Takes(a, b, c)) && TookNone(b, bs, ops[1..]))
  }

  /** Cluster `c` is the one that a run took last. */
  ghost predicate TookLast(a: Alloc, cs: set<seq<nat>>, ops: seq<Op>, c: nat)
    requires Ready(a) && Forest(a.table, cs)
    decreases |ops|
  {
    ops != [] && Legal(cs, ops[0]) &&
    var (b, bs) := Apply(a, cs, ops[0]);
    StepKeepsForest(a, cs, ops[0]);
    (Takes(a, b, c) && TookNone(b, bs, ops[1..])) || TookLast(b, bs, ops[1..], c)
  }

  /** After an operation the last used cluster is the one that it took, or the one of before. */
  lemma StepLastUsed(a: Alloc, cs: set<seq<nat>>, op: Op, b: Alloc)
    requires Ready(a) && Forest(a.table, cs) && Legal(cs, op) && b == Apply(a, cs, op).0
    ensures forall c :: Takes(a, b, c) ==> b.lastUsed == c
    ensures Takes(a, b, b.lastUsed) || (b.lastUsed == a.lastUsed && forall c :: !Takes(a, b, c))
  {
    match op
    case Create =>
      assert b == Stretch(a, 0);
    case Extend(s) =>
      StretchCases(a, Last(s));
      FreeIsInNoChain(a.table, s, |s| - 1);
    case Delete(s) =>
      RemoveFreesTheChain(a, s);
  }

  /** After every run the last used cluster is the one that the run took last, or the first value if it took none. */
  lemma {:induction false} LastUsedIsLastTaken(a: Alloc, cs: set<seq<nat>>, ops: seq<Op>, a': Alloc, cs': set<seq<nat>>)
    requires Ready(a) && Forest(a.table, cs) && Leads(a, cs, ops, a', cs')
    ensures if TookNone(a, cs, ops) then a'.lastUsed == a.lastUsed else TookLast(a, cs, ops, a'.lastUsed)
    ensures forall c :: TookLast(a, cs, ops, c) ==> c == a'.lastUsed && !TookNone(a, cs, ops)
    decreases |ops|
  {
    if ops == [] {
    } else {
      var (b, bs) := Apply(a, cs, ops[0]);
      StepKeepsForest(a, cs, ops[0]);
      StepLastUsed(a, cs, ops[0], b);
      LastUsedIsLastTaken(b, bs, ops[1..], a', cs');
    }
  }

  lemma NothingBroken(t: Table, cs: set<seq<nat>>)
    requires Forest(t, cs)
    ensures forall c :: 2 <= c < |t| ==> KindOf(t[c], |t|) != Broken
  {
    forall c: nat | 2 <= c < |t| && t[c] != FREE && t[c] != BAD
      ensures KindOf(t[c], |t|) != Broken
    {
      assert Covered(cs, c);
      var s :| s in cs && c in s;
      var i :| 0 <= i < |s| && s[i] == c;
      assert i < |s| - 1 ==> t[s[i]] == s[i + 1];
    }
  }

  /** The cluster behind `c`, behind the last one the first. */
  function Behind(t: Table, c: nat): nat { if c + 1 == |t| then 2 else c + 1 }

  lemma CreateTakes(a: Alloc, cs: set<seq<nat>>, f: nat)
    requires Ready(a) && Forest(a.table, cs)
    ensures Takes(a, Apply(a, cs, Create).0, f) <==> FirstFreeBehind(a.table, a.lastUsed, f)
  {
    NothingBroken(a.table, cs);
    ChosenInOrder(a.table, 0, a.lastUsed, f);
    StretchCases(a, 0);
  }

  lemma ExtendTakes(a: Alloc, cs: set<seq<nat>>, s: seq<nat>, f: nat)
    requires Ready(a) && Forest(a.table, cs) && s in cs
    ensures var next := Behind(a.table, Last(s));
            Takes(a, Apply(a, cs, Extend(s)).0, f) <==>
            if a.table[next] == FREE then f == next else FirstFreeBehind(a.table, a.lastUsed, f)
  {
    NothingBroken(a.table, cs);
    ChosenInOrder(a.table, Last(s), a.lastUsed, f);
    StretchCases(a, Last(s));
    FreeIsInNoChain(a.table, s, |s| - 1);
  }

  /** So after every run a new chain begins at the first free cluster in cyclic order behind the one that was taken
      last, whatever has been freed since; and a chain is continued by the cluster right behind its end, if that is
      free, and otherwise in the same way. */
  lemma NextIsBehindLastTaken(a: Alloc, cs: set<seq<nat>>, ops: seq<Op>, a': Alloc, cs': set<seq<nat>>, last: nat,
                              f: nat)
    requires Ready(a) && Forest(a.table, cs) && Leads(a, cs, ops, a', cs') && TookLast(a, cs, ops, last)
    ensures Ready(a') && Forest(a'.table, cs')
    ensures Takes(a', Apply(a', cs', Create).0, f) <==> FirstFreeBehind(a'.table, last, f)
    ensures forall s :: s in cs' ==>
              var next := Behind(a'.table, Last(s));
              Takes(a', Apply(a', cs', Extend(s)).0, f) <==>
              if a'.table[next] == FREE then f == next else FirstFreeBehind(a'.table, last, f)
  {
    RunKeepsForest(a, cs, ops, a', cs');
    LastUsedIsLastTaken(a, cs, ops, a', cs');
    CreateTakes(a', cs', f);
    forall s | s in cs'
      ensures var next := Behind(a'.table, Last(s));
              Takes(a', Apply(a', cs', Extend(s)).0, f) <==>
              if a'.table[next] == FREE then f == next else FirstFreeBehind(a'.table, last, f)
    {
      ExtendTakes(a', cs', s, f);
    }
  }

  // ---- interrupted operations ----

  /** In a forest no used entry links to a free one. */
  lemma ForestHasNoDangling(t: Table, cs: set<seq<nat>>)
    requires Forest(t, cs)
    ensures NoDangling(t)
  {
    forall p: nat | p < |t| && KindOf(t[p], |t|) == Link
      ensures t[t[p]] != FREE
    {
      var r, i := ChainOfLink(t, cs, p);
      FreeIsInNoChain(t, r, i + 1);
    }
  }

  /** The head of a chain of a forest is detached: freeing the chain from there never leaves a used entry that
      links to a free one. */
  lemma ForestIsDetached(t: Table, cs: set<seq<nat>>, s: seq<nat>)
    requires Forest(t, cs) && s in cs
    ensures Detached(t, s[0])
  {
    ForestHasNoDangling(t, cs);
    forall p: nat | p < |t| && KindOf(t[p], |t|) == Link
      ensures t[p] != s[0]
    {
      if t[p] == s[0] {
        var r, i := ChainOfLink(t, cs, p);
        SameChainSamePlace(t, cs, r, i + 1, s, 0);
      }
    }
    forall p: nat, q | p < q < |t| && KindOf(t[p], |t|) == Link
      ensures t[p] != t[q]
    {
      if t[p] == t[q] {
        var r, i := ChainOfLink(t, cs, p);
        var u, j := ChainOfLink(t, cs, q);
        SameChainSamePlace(t, cs, r, i + 1, u, j + 1);
      }
    }
  }

  lemma ChainOfLink(t: Table, cs: set<seq<nat>>, p: nat) returns (r: seq<nat>, i: nat)
    requires Forest(t, cs) && p < |t| && KindOf(t[p], |t|) == Link
    ensures r in cs && i < |r| - 1 && r[i] == p && r[i + 1] == t[p]
  {
    assert Covered(cs, p);
    r :| r in cs && p in r;
    i :| i < |r| && r[i] == p;
  }

  lemma FreeIsInNoChain(t: Table, r: seq<nat>, i: nat)
    requires Sized(t) && IsChain(t, r) && i < |r|
    ensures t[r[i]] != FREE
  {
    assert i < |r| - 1 ==> t[r[i]] == r[i + 1];
  }

  lemma SameChainSamePlace(t: Table, cs: set<seq<nat>>, r: seq<nat>, i: nat, s: seq<nat>, j: nat)
    requires Forest(t, cs) && r in cs && s in cs && i < |r| && j < |s| && r[i] == s[j]
    ensures r == s && i == j
  {
    if r != s && Apart(r, s) {
      assert false;
    } else if i < j {
      ChainIsAcyclic(t, r, i, j);
    } else if j < i {
      ChainIsAcyclic(t, r, j, i);
    }
  }

  // ---- a chain that grew ----

  /** `b` came from `a` by growing `chain` into `longer`: the clusters it gained were free, every entry that is neither
      theirs nor that of the old end is as before, and the counter fell by one for each of them. */
  ghost predicate GrewOnly(a: Alloc, chain: seq<nat>, b: Alloc, longer: seq<nat>) {
    match b
    case Alloc(_, _, _) =>
      && Ready(b) && |b.table| == |a.table| && IsChain(b.table, longer)
      && 0 < |chain| <= |longer| && longer[..|chain|] == chain
      && SameBut(a.table, b.table, longer[|chain| - 1..])
      && AllFree(a.table, longer[|chain|..])
      && b.freeCnt == Less(a.freeCnt, |longer| - |chain|)
  }

  /** The 32-bit counter after `k` decrements. */
  function Less(n: u32, k: nat): u32 {
    if k == 0 then n else Dec32(Less(n, k - 1))
  }

  lemma {:induction false} LessIs(n: u32, k: nat)
    ensures Less(n, k) == (n - k) % 0x1_0000_0000
  {
    if k == 0 {
    } else {
      LessIs(n, k - 1);
    }
  }

  ghost predicate SameBut(t: Table, t': Table, s: seq<nat>) {
    |t'| == |t| && forall x :: 0 <= x < |t| && x !in s ==> t'[x] == t[x]
  }

  ghost predicate AllFree(t: Table, s: seq<nat>) {
    forall i :: 0 <= i < |s| ==> s[i] < |t| && t[s[i]] == FREE
  }

  lemma GrewOnlyOnce(a: Alloc, chain: seq<nat>, b: Alloc, cur: seq<nat>, c: nat)
    requires GrewOnly(a, chain, b, cur) && 2 <= c < |b.table| && b.table[c] == FREE
    ensures GrewOnly(a, chain, Taken(b, Last(cur), c), cur + [c])
  {
    FreeNotInChain(b.table, cur, c);
    ExtendedIsChain(b.table, cur, c);
    assert Last(cur) != 0;
    GrewPartsOnce(a.table, |chain|, b, cur, c, cur + [c]);
  }

  lemma GrewPartsOnce(t: Table, k: nat, b: Alloc, cur: seq<nat>, c: nat, longer: seq<nat>)
    requires 0 < k <= |cur| && longer == cur + [c] && c !in cur && 0 != Last(cur) < |b.table| && c < |b.table| <= BAD
    requires SameBut(t, b.table, cur[k - 1..]) && AllFree(t, cur[k..]) && b.table[c] == FREE
    ensures SameBut(t, Taken(b, Last(cur), c).table, longer[k - 1..]) && AllFree(t, longer[k..])
    ensures longer[..k] == cur[..k]
  {
    SlicesOfLonger(cur, c, k - 1);
    SlicesOfLonger(cur, c, k);
    SameButMore(t, b, cur[k - 1..], c, longer[k - 1..]);
    AllFreeMore(t, cur[k..], c);
  }

  lemma SlicesOfLonger(cur: seq<nat>, c: nat, k: nat)
    requires k <= |cur|
    ensures (cur + [c])[k..] == cur[k..] + [c]
    ensures k < |cur| ==> cur[k..] != [] && Last(cur[k..]) == Last(cur)
  {
  }

  lemma AllFreeMore(t: Table, s: seq<nat>, c: nat)
    requires AllFree(t, s) && c < |t| && t[c] == FREE
    ensures AllFree(t, s + [c])
  {
  }

  lemma SameButMore(t: Table, b: Alloc, s: seq<nat>, c: nat, r: seq<nat>)
    requires SameBut(t, b.table, s) && s != [] && c < |t| <= BAD && 0 != Last(s) < |t| && c !in s && r == s + [c]
    ensures SameBut(t, Taken(b, Last(s), c).table, r)
    ensures b.table[c] == t[c]
  {
    assert r[|s| - 1] == Last(s) && r[|s|] == c;
    forall x | x in s
      ensures x in r
    {
    }
  }

  lemma FreeNotInChain(t: Table, s: seq<nat>, c: nat)
    requires Sized(t) && IsChain(t, s) && c < |t| && t[c] == FREE
    ensures c !in s
  {
    forall i: nat | i < |s|
      ensures s[i] != c
    {
      FreeIsInNoChain(t, s, i);
    }
  }

  lemma GrewNone(a: Alloc, chain: seq<nat>)
    requires Ready(a) && IsChain(a.table, chain)
    ensures GrewOnly(a, chain, a, chain)
  {
    assert AllFree(a.table, []);
  }

  lemma GrewOneMore(a: Alloc, chain: seq<nat>, b: Alloc, s: seq<nat>, b': Alloc, s': seq<nat>)
    requires Ready(a) && IsChain(a.table, chain) && GrewOnly(a, chain, b, s) && GrowOnce(b, s) == (b', s')
    ensures GrewOnly(a, chain, b', s')
  {
    StretchCases(b, Last(s));
    match Choose(b.table, Last(s), b.lastUsed) {
      case At(c) => GrewOnlyOnce(a, chain, b, s, c);
      case _ =>
    }
  }

  lemma {:induction false} GrowByGrewOnly(a: Alloc, chain: seq<nat>, n: nat, b: Alloc, longer: seq<nat>)
    requires Ready(a) && IsChain(a.table, chain) && GrowBy(a, chain, n) == (b, longer)
    ensures GrewOnly(a, chain, b, longer)
  {
    if n == 0 {
      GrewNone(a, chain);
    } else {
      var prev, s := GrowBy(a, chain, n - 1).0, GrowBy(a, chain, n - 1).1;
      GrowByGrewOnly(a, chain, n - 1, prev, s);
      GrewOneMore(a, chain, prev, s, b, longer);
    }
  }

  /** Growing a chain appends clusters that were free, and changes no other chain. */
  lemma GrownGrewOnly(a: Alloc, chain: seq<nat>, b: Alloc, longer: seq<nat>)
    requires Ready(a) && IsChain(a.table, chain) && GrownTo(a, chain, b, longer)
    ensures GrewOnly(a, chain, b, longer)
  {
    GrowByGrewOnly(a, chain, |longer| - |chain|, b, longer);
  }

  // ---- how far a chain can grow ----

  /** Growing one cluster after the other, the chain comes to have a `k`-th cluster, counted from 0. */
  ghost predicate Reaches(a: Alloc, chain: seq<nat>, k: nat) {
    |GrowBy(a, chain, k + 1).1| > k
  }

  /** One step of growing a chain, which has come to state `b` and chain `s`. */
  lemma GrowOneMore(a: Alloc, chain: seq<nat>, n: nat, b: Alloc, s: seq<nat>)
    requires n > 0 && GrowBy(a, chain, n - 1) == (b, s)
    ensures |s| <= |GrowBy(a, chain, n).1| <= |s| + 1
    ensures s != [] && Ready(b) && Last(s) < |b.table| && !Choose(b.table, Last(s), b.lastUsed).At? ==>
              GrowBy(a, chain, n) == (b, s)
  {
  }

  lemma {:induction false} GrowBySize(a: Alloc, chain: seq<nat>, m: nat, n: nat)
    requires m <= n
    ensures |GrowBy(a, chain, m).1| <= |GrowBy(a, chain, n).1| <= |GrowBy(a, chain, m).1| + (n - m)
    decreases n - m
  {
    if n == m {
    } else {
      GrowBySize(a, chain, m, n - 1);
      GrowOneMore(a, chain, n, GrowBy(a, chain, n - 1).0, GrowBy(a, chain, n - 1).1);
    }
  }

  lemma GrownReaches(a: Alloc, chain: seq<nat>, b: Alloc, longer: seq<nat>, k: nat)
    requires GrownTo(a, chain, b, longer) && k < |longer|
    ensures Reaches(a, chain, k)
  {
    var m := |longer| - |chain|;
    assert GrowBy(a, chain, m).1 == longer;
    GrownSize(a, chain, m, k, k + 1);
  }

  lemma GrownSize(a: Alloc, chain: seq<nat>, m: nat, k: nat, n: nat)
    requires |GrowBy(a, chain, m).1| == |chain| + m && k < |chain| + m && n == k + 1
    ensures |GrowBy(a, chain, n).1| > k
  {
    if m <= n {
      GrowBySize(a, chain, m, n);
    } else {
      GrowBySize(a, chain, 0, n);
      GrowBySize(a, chain, n, m);
    }
  }

  /** Once the allocator has no cluster for a chain, it stays as it is. */
  lemma {:induction false} StuckStays(a: Alloc, chain: seq<nat>, m: nat, b: Alloc, s: seq<nat>, n: nat)
    requires m <= n && GrowBy(a, chain, m) == (b, s) && s != [] && Ready(b) && Last(s) < |b.table|
    requires !Choose(b.table, Last(s), b.lastUsed).At?
    ensures GrowBy(a, chain, n) == (b, s)
    decreases n
  {
    if n == m {
    } else {
      StuckStays(a, chain, m, b, s, n - 1);
      GrowOneMore(a, chain, n, b, s);
    }
  }

  /** A chain for which the allocator has no more cluster reaches no further than it is long. */
  lemma StuckReaches(a: Alloc, chain: seq<nat>, b: Alloc, s: seq<nat>, k: nat)
    requires GrownTo(a, chain, b, s) && s != [] && Ready(b) && Last(s) < |b.table|
    requires !Choose(b.table, Last(s), b.lastUsed).At? && |s| <= k
    ensures !Reaches(a, chain, k)
  {
    StuckStays(a, chain, |s| - |chain|, b, s, k + 1);
  }

  lemma StretchedChain(t: Table, chain: seq<nat>, c: nat)
    requires Sized(t) && IsChain(t, chain) && 2 <= c < |t| && t[c] == FREE
    ensures c !in chain && IsChain(t[c := EOC][chain[|chain| - 1] := c], chain + [c])
  {
    FreeNotInChain(t, chain, c);
    ExtendedIsChain(t, chain, c);
  }

  /** What the table says at a cluster of a chain. */
  lemma ChainLink(t: Table, chain: seq<nat>, i: nat)
    requires Sized(t) && IsChain(t, chain) && i < |chain|
    ensures KindOf(t[chain[i]], |t|) == if i + 1 < |chain| then Link else Kind.Last
    ensures i + 1 < |chain| ==> t[chain[i]] == chain[i + 1]
  {
  }

  lemma NothingGrown(a: Alloc, chain: seq<nat>, b: Alloc, longer: seq<nat>)
    requires GrownTo(a, chain, b, longer) && |longer| <= |chain|
    ensures longer == chain && b == a
  {
    assert GrowBy(a, chain, 0) == (a, chain);
  }
}
