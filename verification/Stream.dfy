/** The operations on the ring buffer, the keyboard handler that fills it, and the line reader that empties it. */
module Stream {
  import opened Bytes
  import opened Ring

  /** The steps of a put and of a get that no other party interrupts. */
  function PutSteps(c: byte, refused: bool): seq<Step> {
    if refused then [Begin(c), TestRoom] else [Begin(c), TestRoom, Store, CommitHead]
  }

  function GetSteps(empty: bool): seq<Step> {
    if empty then [ReadHead, TestByte] else [ReadHead, TestByte, Load, CommitTail]
  }

  ghost predicate Resting(s: State) { Inv(s) && s.put.NoPut? && s.get.NoGet? }

  /** A put on a ring at rest appends its byte, unless 4095 bytes are pending. */
  lemma PutAlone(s: State, c: byte) returns (s': State)
    requires Resting(s)
    ensures var full := Pending(s) == 4095;
            && Leads(s, PutSteps(c, full), s') && Resting(s')
            && s' == if full then s
                     else s.(buf := s.buf[s.head := c], head := Next(s.head), accepted := s.accepted + [c])
  {
    var s1 := Do(s, Begin(c));
    StepKeepsInv(s, Begin(c));
    RefusedExactlyWhenFull(s1);
    var s2 := Do(s1, TestRoom);
    StepKeepsInv(s1, TestRoom);
    if Pending(s) == 4095 {
      s' := s2;
      assert Leads(s1, [TestRoom], s');
      assert [Begin(c), TestRoom][1..] == [TestRoom];
    } else {
      var s3 := Do(s2, Store);
      StepKeepsInv(s2, Store);
      s' := Do(s3, CommitHead);
      StepKeepsInv(s3, CommitHead);
      assert [CommitHead][1..] == [] && Leads(s3, [CommitHead], s');
      assert [Store, CommitHead][1..] == [CommitHead] && Leads(s2, [Store, CommitHead], s');
      assert [TestRoom, Store, CommitHead][1..] == [Store, CommitHead] && Leads(s1, [TestRoom, Store, CommitHead], s');
      assert PutSteps(c, false)[1..] == [TestRoom, Store, CommitHead];
    }
  }

  /** A get on a ring at rest takes the oldest pending byte, if there is one. */
  lemma GetAlone(s: State) returns (s': State)
    requires Resting(s)
    ensures var empty := Pending(s) == 0;
            && Leads(s, GetSteps(empty), s') && Resting(s')
            && (!empty ==> s.buf[s.tail] == s.accepted[|s.taken|])
            && (empty <==> s.tail == s.head)
            && s' == if empty then s
                     else s.(tail := Next(s.tail), taken := s.taken + [s.accepted[|s.taken|]])
  {
    var h, t := |s.accepted|, |s.taken|;
    if h % 4096 == t % 4096 {
      ModApart(t, h);
    }
    var s1 := Do(s, ReadHead);
    StepKeepsInv(s, ReadHead);
    var s2 := Do(s1, TestByte);
    StepKeepsInv(s1, TestByte);
    if h == t {
      s' := s2;
      assert Leads(s1, [TestByte], s');
      assert GetSteps(true)[1..] == [TestByte];
    } else {
      var s3 := Do(s2, Load);
      StepKeepsInv(s2, Load);
      s' := Do(s3, CommitTail);
      StepKeepsInv(s3, CommitTail);
      assert [CommitTail][1..] == [] && Leads(s3, [CommitTail], s');
      assert [Load, CommitTail][1..] == [CommitTail] && Leads(s2, [Load, CommitTail], s');
      assert [TestByte, Load, CommitTail][1..] == [Load, CommitTail] && Leads(s1, [TestByte, Load, CommitTail], s');
      assert GetSteps(false)[1..] == [TestByte, Load, CommitTail];
    }
  }

  class RingBuf {
    const buf: array<byte>
    var head: nat
    var tail: nat
    ghost var accepted: seq<byte>
    ghost var taken: seq<byte>

    ghost function Now(): State
      reads this, buf
    {
      State(buf[..], head, tail, NoPut, NoGet, accepted, taken)
    }

    ghost predicate Valid()
      reads this, buf
    {
      Resting(Now())
    }

    /** The bytes put but not yet taken. */
    ghost function Contents(): seq<byte>
      requires Valid()
      reads this, buf
    {
      accepted[|taken|..]
    }

    constructor ()
      ensures Valid() && Contents() == [] && fresh(buf)
    {
      buf := new byte[4096];
      head, tail, accepted, taken := 0, 0, [], [];
    }

    method Put(c: byte) returns (rc: int)
      requires Valid()
      modifies `head, `accepted, buf
      ensures Valid() && rc == if |old(Contents())| == 4095 then -1 else 0
      ensures Contents() == if rc == 0 then old(Contents()) + [c] else old(Contents())
      ensures old(accepted) <= accepted
      ensures Leads(old(Now()), PutSteps(c, rc != 0), Now())
    {
      ghost var s := Now();
      ghost var s' := PutAlone(s, c);
      RefusedExactlyWhenFull(Do(s, Begin(c)));
      var next := (head + 1) % 4096;
      if next == tail {
        return -1;
      }
      buf[head] := c;
      head := next;
      accepted := accepted + [c];
      assert Now() == s';
      rc := 0;
    }

    method Get() returns (rc: int, c: byte)
      requires Valid()
      modifies `tail, `taken
      ensures Valid() && rc == if old(Contents()) == [] then -1 else 0
      ensures if rc == 0 then old(Contents()) == [c] + Contents() else Contents() == old(Contents())
      ensures taken == if rc == 0 then old(taken) + [c] else old(taken)
      ensures Leads(old(Now()), GetSteps(rc != 0), Now())
    {
      ghost var s' := GetAlone(Now());
      rc, c := -1, 0;
      if tail == head {
        return;
      }
      c := buf[tail];
      tail := (tail + 1) % 4096;
      taken := taken + [c];
      assert Now() == s';
      rc := 0;
    }

    /** Takes up to `len` bytes, as many as there are. */
    method TryRead(len: nat) returns (got: seq<byte>)
      requires Valid()
      modifies `tail, `taken
      ensures Valid() && old(Contents()) == got + Contents()
      ensures |got| <= len && (|got| < len ==> Contents() == []) && taken == old(taken) + got
    {
      got := [];
      while |got| < len
        invariant Valid() && |got| <= len && old(Contents()) == got + Contents() && taken == old(taken) + got
        decreases len - |got|
      {
        var rc, c := Get();
        if rc != 0 {
          return;
        }
        OneMore(got, c, Contents(), old(Contents()), old(taken), taken);
        got := got + [c];
      }
    }
  }

  lemma OneMore(got: seq<byte>, c: byte, rest: seq<byte>, all: seq<byte>, t0: seq<byte>, t: seq<byte>)
    requires all == got + ([c] + rest) && t == t0 + got + [c]
    ensures all == (got + [c]) + rest && t == t0 + (got + [c])
  {
  }
}
