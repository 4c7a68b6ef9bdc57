/** What the device may hold when a run of operations on the chains of a volume is cut short. */
module Crashes {
  import opened Chains
  import opened Runs
  import opened Volume

  /** Carries out one operation on a volume whose chains are `cs`. At no moment of it does the table on the device hold
      a used entry that links to a free one. */
  method PerformOne(fat: Fat, op: Op, ghost cs: set<seq<nat>>) returns (ghost cs': set<seq<nat>>)
    requires fat.Valid() && Forest(fat.Tab(), cs) && Legal(cs, op)
    modifies fat, fat.buf
    ensures fat.Valid() && (fat.State(), cs') == Apply(old(fat.State()), cs, op)
    ensures fat.torn == old(fat.torn)
  {
    match op
    case Create => cs' := Allocate(fat, op, 0, cs);
    case Extend(s) => cs' := Allocate(fat, op, s[|s| - 1], cs);
    case Delete(s) => cs' := Free(fat, op, s[0], cs);
  }

  /** Carries out an allocation behind cluster `prev`, or of a new chain if that is 0. */
  method Allocate(fat: Fat, op: Op, prev: nat, ghost cs: set<seq<nat>>) returns (ghost cs': set<seq<nat>>)
    requires fat.Valid() && Forest(fat.Tab(), cs) && Legal(cs, op) && !op.Delete?
    requires prev == if op.Create? then 0 else op.s[|op.s| - 1]
    modifies fat, fat.buf
    ensures fat.Valid() && (fat.State(), cs') == Apply(old(fat.State()), cs, op)
    ensures fat.torn == old(fat.torn)
  {
    ghost var a := fat.State();
    cs' := Apply(a, cs, op).1;
    ForestHasNoDangling(a.table, cs);
    var err, c;
    if op.Create? {
      err, c := fat.CreateChain();
    } else {
      err, c := fat.StretchChain(prev);
    }
    AllocationIs(a, cs, op, prev, fat.State());
  }

  /** Carries out the removal of a chain from its head. */
  method Free(fat: Fat, op: Op, head: nat, ghost cs: set<seq<nat>>) returns (ghost cs': set<seq<nat>>)
    requires fat.Valid() && Forest(fat.Tab(), cs) && Legal(cs, op) && op.Delete? && head == op.s[0]
    modifies fat, fat.buf
    ensures fat.Valid() && (fat.State(), cs') == Apply(old(fat.State()), cs, op)
    ensures fat.torn == old(fat.torn)
  {
    cs' := Apply(fat.State(), cs, op).1;
    ForestIsDetached(fat.Tab(), cs, op.s);
    var err := fat.RemoveChain(head);
  }

  lemma AllocationIs(a: Alloc, cs: set<seq<nat>>, op: Op, prev: nat, b: Alloc)
    requires Ready(a) && Forest(a.table, cs) && Legal(cs, op) && !op.Delete? && prev < |a.table|
    requires prev == (if op.Create? then 0 else op.s[|op.s| - 1]) && b == Stretch(a, prev)
    ensures b == Apply(a, cs, op).0
  {
    StretchCases(a, prev);
  }

  /** Carries out a run of operations: whenever it is cut short, no used entry of the table on the device links to a
      free one; and in the end the chains are those that the operations lead to, and the last used cluster is the one
      that was taken last. */
  method Perform(fat: Fat, ops: seq<Op>, ghost cs: set<seq<nat>>, ghost b: Alloc, ghost bs: set<seq<nat>>)
    requires fat.Valid() && Forest(fat.Tab(), cs) && Leads(fat.State(), cs, ops, b, bs)
    modifies fat, fat.buf
    ensures fat.Valid() && fat.State() == b && Forest(b.table, bs)
    ensures if TookNone(old(fat.State()), cs, ops) then fat.lastUsed == old(fat.lastUsed)
            else TookLast(old(fat.State()), cs, ops, fat.lastUsed)
    ensures fat.torn == old(fat.torn)
  {
    ghost var cur := cs;
    LastUsedIsLastTaken(fat.State(), cs, ops, b, bs);
    var i := 0;
    while i < |ops|
      invariant i <= |ops| && fat.Valid() && Forest(fat.Tab(), cur) && Leads(fat.State(), cur, ops[i..], b, bs)
      invariant fat.torn == old(fat.torn)
    {
      assert ops[i..][0] == ops[i] && ops[i..][1..] == ops[i + 1..];
      StepKeepsForest(fat.State(), cur, ops[i]);
      cur := PerformOne(fat, ops[i], cur);
      i := i + 1;
    }
  }
}
