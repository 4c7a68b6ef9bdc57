/** The ring buffer between an interrupt handler and a reader, as single memory steps of one producer and one
    consumer that may be interleaved in any way. */
module Ring {
  import opened Bytes

  function Next(i: nat): nat { (i + 1) % 4096 }

  /** Where a put is: before it, after it has read `head`, after it has found room, after it has stored its byte. */
  datatype Producer = NoPut | PutNext(c: byte, next: nat) | PutRoom(c: byte, next: nat) | PutStored(c: byte, next: nat)

  /** Where a get is: before it, after it has read `head`, after it has found a byte, after it has loaded it. */
  datatype Consumer = NoGet | GetHead(head: nat) | GetFound | GetLoaded(c: byte)

  /** The ring with both parties, the bytes accepted and taken so far, and the number of refusals. */
  datatype State = State(
    buf: seq<byte>,
    head: nat,
    tail: nat,
    put: Producer,
    get: Consumer,
    accepted: seq<byte>,
    taken: seq<byte>)
  {
    predicate Sized() { |buf| == 4096 && head < 4096 && tail < 4096 }
  }

  datatype Step = Begin(c: byte) | TestRoom | Store | CommitHead | ReadHead | TestByte | Load | CommitTail

  /** Whether it is the turn of a step in its own party. */
  predicate Enabled(s: State, e: Step) {
    match e
    case Begin(_) => s.put.NoPut?
    case TestRoom => s.put.PutNext?
    case Store => s.put.PutRoom?
    case CommitHead => s.put.PutStored?
    case ReadHead => s.get.NoGet?
    case TestByte => s.get.GetHead?
    case Load => s.get.GetFound?
    case CommitTail => s.get.GetLoaded?
  }

  /** One step: each reads or writes one of the shared cells. */
  function Do(s: State, e: Step): State
    requires s.Sized() && Enabled(s, e)
  {
    match e
    case Begin(c) => s.(put := PutNext(c, Next(s.head)))
    case TestRoom => s.(put := if s.put.next == s.tail then NoPut else PutRoom(s.put.c, s.put.next))
    case Store => s.(buf := s.buf[s.head := s.put.c], put := PutStored(s.put.c, s.put.next))
    case CommitHead => s.(head := s.put.next, put := NoPut, accepted := s.accepted + [s.put.c])
    case ReadHead => s.(get := GetHead(s.head))
    case TestByte => s.(get := if s.tail == s.get.head then NoGet else GetFound)
    case Load => s.(get := GetLoaded(s.buf[s.tail]))
    case CommitTail => s.(tail := Next(s.tail), get := NoGet, taken := s.taken + [s.get.c])
  }

  function Pending(s: State): int { |s.accepted| - |s.taken| }

  /** The bytes that are pending lie in the ring, from the tail on. */
  ghost predicate Inv(s: State) {
    var h, t := |s.accepted|, |s.taken|;
    && s.Sized() && t <= h <= t + 4095
    && s.head == h % 4096 && s.tail == t % 4096
    && s.taken == s.accepted[..t]
    && (forall i :: t <= i < h ==> s.buf[i % 4096] == s.accepted[i])
    && (match s.put
        case NoPut => true
        case PutNext(_, next) => next == Next(s.head)
        case PutRoom(_, next) => next == Next(s.head) && h - t < 4095
        case PutStored(c, next) => next == Next(s.head) && h - t < 4095 && s.buf[s.head] == c)
    && (match s.get
        case NoGet => true
        case GetHead(head) => exists k: nat :: t <= k <= h && head == k % 4096
        case GetFound => t < h
        case GetLoaded(c) => t < h && c == s.accepted[t])
  }

  lemma ModApart(i: nat, j: nat)
    requires i <= j < i + 4096 && i % 4096 == j % 4096
    ensures i == j
  {
  }

  lemma NextMod(i: nat)
    ensures Next(i % 4096) == (i + 1) % 4096
  {
  }

  /** A put that reads `tail` is refused exactly when 4095 bytes are pending at that moment. */
  lemma RefusedExactlyWhenFull(s: State)
    requires Inv(s) && s.put.PutNext?
    ensures Do(s, TestRoom).put.NoPut? <==> Pending(s) == 4095
  {
    var h, t := |s.accepted|, |s.taken|;
    NextMod(h);
    if (h + 1) % 4096 == t % 4096 {
      ModApart(t, h + 1 - if h + 1 - t >= 4096 then 4096 else 0);
    }
  }

  lemma StoreKeepsPending(s: State)
    requires Inv(s) && s.put.PutRoom?
    ensures Inv(Do(s, Store))
  {
    var h, t := |s.accepted|, |s.taken|;
    forall i | t <= i < h
      ensures i % 4096 != s.head
    {
      if i % 4096 == h % 4096 {
        ModApart(i, h);
      }
    }
  }

  lemma CommitHeadKeeps(s: State)
    requires Inv(s) && s.put.PutStored?
    ensures Inv(Do(s, CommitHead))
  {
    var h, t, s' := |s.accepted|, |s.taken|, Do(s, CommitHead);
    NextMod(h);
    if s.get.GetHead? {
      var k: nat :| t <= k <= h && s.get.head == k % 4096;
      assert t <= k <= |s'.accepted|;
    }
  }

  lemma ConsumerKeeps(s: State, e: Step)
    requires Inv(s) && Enabled(s, e) && (e.ReadHead? || e.TestByte? || e.Load?)
    ensures Inv(Do(s, e))
  {
    var h, t := |s.accepted|, |s.taken|;
    match e
    case ReadHead => assert t <= h <= h;
    case TestByte =>
      var k: nat :| t <= k <= h && s.get.head == k % 4096;
      assert t < h || k == t;
    case Load => assert s.buf[t % 4096] == s.accepted[t];
  }

  lemma CommitTailKeeps(s: State)
    requires Inv(s) && s.get.GetLoaded?
    ensures Inv(Do(s, CommitTail))
  {
    var t := |s.taken|;
    NextMod(t);
    assert s.accepted[..t + 1] == s.accepted[..t] + [s.accepted[t]];
  }

  /** Every step of either party keeps the invariant. */
  lemma StepKeepsInv(s: State, e: Step)
    requires Inv(s) && Enabled(s, e)
    ensures Inv(Do(s, e))
  {
    match e
    case Begin(_) =>
    case TestRoom => RefusedExactlyWhenFull(s);
    case Store => StoreKeepsPending(s);
    case CommitHead => CommitHeadKeeps(s);
    case CommitTail => CommitTailKeeps(s);
    case _ => ConsumerKeeps(s, e);
  }

  /** `es` is an interleaving of steps that leads from one state to the other. */
  ghost predicate Leads(s: State, es: seq<Step>, s': State)
    decreases |es|
  {
    if es == [] then s' == s else s.Sized() && Enabled(s, es[0]) && Leads(Do(s, es[0]), es[1..], s')
  }

  /** In every interleaving the bytes taken are a prefix of the bytes accepted, and at most 4095 are pending. */
  lemma {:induction false} TakenIsPrefix(s: State, es: seq<Step>, s': State)
    requires Inv(s) && Leads(s, es, s')
    ensures Inv(s') && s'.taken <= s'.accepted && Pending(s') <= 4095
    decreases |es|
  {
    if es == [] {
    } else {
      StepKeepsInv(s, es[0]);
      TakenIsPrefix(Do(s, es[0]), es[1..], s');
    }
  }
}
