/** The keyboard handler that fills the ring, and the line reader that edits what it takes from it. */
module Console {
  import opened Bytes
  import opened Stream

  const NEWLINE: byte := 0x0a
  const BACKSPACE: byte := 0x08

  // ---- the keyboard ----

  /** The two characters of a key, 0 for a key that has none. */
  type KeyMap = s: seq<(byte, byte)> | |s| == 58 witness seq(58, i => (0, 0))

  predicate IsDigit(c: byte) { 0x30 <= c <= 0x39 }

  /** The character of a key. Caps lock changes the level of every key but those that give a digit as they are held. */
  function CharOf(key: (byte, byte), shift: bool, caps: bool): byte {
    var c := if shift then key.1 else key.0;
    if IsDigit(c) then c else if shift != caps then key.1 else key.0
  }

  /** What a scan code types: nothing, or one character. */
  function Typed(keys: KeyMap, shift: bool, caps: bool, sc: byte): (t: seq<byte>)
    ensures |t| <= 1
  {
    if sc == 0xe0 || sc >= 0x80 || sc == 0x2a || sc == 0x36 || sc == 0x3a then []
    else if sc == 0x0e then [BACKSPACE]
    else if sc < 58 && keys[sc].0 != 0 then [CharOf(keys[sc], shift, caps)]
    else []
  }

  /** Which of its two characters a key types. Shift and caps lock together give the first one, and so does caps lock
      alone on a key with a digit: there shift gives the second one only while caps lock is off. */
  lemma CharIs(key: (byte, byte), shift: bool, caps: bool)
    requires !(0x30 <= key.1 <= 0x39)
    ensures CharOf(key, shift, caps) ==
            if (if 0x30 <= key.0 <= 0x39 then shift && !caps else shift != caps) then key.1 else key.0
  {
  }

  /** Which scan codes type something: the backspace, and the keys of the table when they are pressed, but for shift and
      caps lock, and those that have no character. */
  lemma TypedExactly(keys: KeyMap, shift: bool, caps: bool, sc: byte)
    ensures Typed(keys, shift, caps, sc) != [] <==>
            sc == 0x0e || (sc < 58 && sc != 0x2a && sc != 0x36 && keys[sc].0 != 0)
    ensures Typed(keys, shift, caps, 0x0e) == [0x08]
    ensures sc < 58 && sc !in {0x0e, 0x2a, 0x36} && keys[sc].0 != 0 ==>
              Typed(keys, shift, caps, sc) == [CharOf(keys[sc], shift, caps)]
  {
  }

  /** The contents of the ring after characters were offered to it: what does not fit is dropped. */
  function Offered(contents: seq<byte>, t: seq<byte>): seq<byte> {
    if |contents| == 4095 then contents else contents + t
  }

  class Keyboard {
    const rb: RingBuf
    const keys: KeyMap
    var shift: bool
    var caps: bool
    var overflow: nat

    constructor (rb: RingBuf, keys: KeyMap)
      ensures this.rb == rb && this.keys == keys && !shift && !caps && overflow == 0
    {
      this.rb, this.keys := rb, keys;
      shift, caps, overflow := false, false, 0;
    }

    /** One interrupt: at most one character is offered to the ring, and one that is dropped is counted, unless it is a
        backspace. */
    method Handle(sc: byte)
      requires rb.Valid()
      modifies `shift, `caps, `overflow, rb`head, rb`accepted, rb.buf
      ensures rb.Valid() && rb.Contents() == Offered(old(rb.Contents()), Typed(keys, old(shift), old(caps), sc))
      ensures overflow == old(overflow) +
                if |old(rb.Contents())| == 4095 && sc != 0x0e then |Typed(keys, old(shift), old(caps), sc)| else 0
      ensures shift == if sc == 0x2a || sc == 0x36 then true else if sc == 0xaa || sc == 0xb6 then false else old(shift)
      ensures caps == if sc == 0x3a then !old(caps) else old(caps)
    {
      if sc == 0xe0 {
        return;
      }
      var release := sc >= 0x80;
      var code := if release then sc - 0x80 else sc;
      if code == 0x2a || code == 0x36 {
        shift := !release;
        return;
      }
      if code == 0x3a && !release {
        caps := !caps;
        return;
      }
      if code == 0x0e && !release {
        var ignored := Offer([BACKSPACE]);
        return;
      }
      if !release && code < 58 && keys[code].0 != 0 {
        var c := if shift then keys[code].1 else keys[code].0;
        if !IsDigit(c) {
          c := if shift != caps then keys[code].1 else keys[code].0;
        }
        var rc := Offer([c]);
        if rc != 0 {
          overflow := overflow + 1;
        }
      }
    }

    method Offer(t: seq<byte>) returns (rc: int)
      requires rb.Valid() && |t| == 1
      modifies rb`head, rb`accepted, rb.buf
      ensures rb.Valid() && rb.Contents() == Offered(old(rb.Contents()), t)
      ensures rc == if |old(rb.Contents())| == 4095 then -1 else 0
    {
      rc := rb.Put(t[0]);
      assert t == [t[0]];
    }
  }

  // ---- the line reader ----

  /** What is left of the characters typed when every backspace takes back the last one that is left. */
  function Edited(ks: seq<byte>): (s: seq<byte>)
    ensures |s| <= |ks|
  {
    if ks == [] then []
    else
      var s, k := Edited(ks[..|ks| - 1]), ks[|ks| - 1];
      if k != BACKSPACE then s + [k] else if s == [] then [] else s[..|s| - 1]
  }

  lemma EditedNext(ks: seq<byte>, k: byte)
    ensures var s := Edited(ks);
            Edited(ks + [k]) == if k != BACKSPACE then s + [k] else if s == [] then [] else s[..|s| - 1]
  {
    assert (ks + [k])[..|ks|] == ks;
  }

  /** A character followed by a backspace leaves nothing behind. */
  lemma BackspaceUndoes(ks: seq<byte>, k: byte)
    requires k != BACKSPACE
    ensures Edited(ks + [k] + [BACKSPACE]) == Edited(ks)
  {
    assert (ks + [k] + [BACKSPACE])[..|ks| + 1] == ks + [k];
    assert (ks + [k])[..|ks|] == ks;
  }

  /** Without backspaces everything is left; and no backspace is ever left. */
  lemma {:induction false} EditedKeeps(ks: seq<byte>)
    ensures BACKSPACE !in ks ==> Edited(ks) == ks
    ensures BACKSPACE !in Edited(ks)
    decreases |ks|
  {
    if ks == [] {
    } else {
      EditedKeeps(ks[..|ks| - 1]);
      assert ks == ks[..|ks| - 1] + [ks[|ks| - 1]];
    }
  }

  /** The characters of a line, without the newline that may end it. */
  function LineOf(keys: seq<byte>): seq<byte> {
    if keys != [] && keys[|keys| - 1] == NEWLINE then keys[..|keys| - 1] else keys
  }

  /** The keys are a line: they end with a newline, or when there is room for the end mark only. */
  ghost predicate IsLine(keys: seq<byte>, len: nat) {
    var typed := LineOf(keys);
    && Goes(typed, len)
    && if keys == typed then |Edited(typed)| + 1 == len else |Edited(typed)| + 1 < len
  }

  /** None of the keys ends the line, or comes when the buffer is full. */
  ghost predicate Goes(keys: seq<byte>, len: nat) {
    forall m :: 0 <= m < |keys| ==> keys[m] != NEWLINE && |Edited(keys[..m])| + 1 < len
  }

  // ---- waiting for a key ----

  /** The contents of the ring after the characters `t` were offered to it one after the other. */
  function Offers(contents: seq<byte>, t: seq<byte>): seq<byte>
    decreases |t|
  {
    if t == [] then contents else Offers(Offered(contents, [t[0]]), t[1..])
  }

  /** What waiting for a byte comes to: whether there is one, which, what is left in the ring, and how much of the
      typing was done. */
  datatype Wait = Wait(ok: bool, c: byte, rest: seq<byte>, next: nat)

  /** `typing` says what is typed before each look into the ring, from the `k`-th on. The wait is in vain only if all of
      that has been typed and the ring is empty. */
  function Waited(contents: seq<byte>, typing: seq<seq<byte>>, k: nat): (w: Wait)
    requires k <= |typing|
    ensures k <= w.next <= |typing| && (w.ok ==> w.next > k || |w.rest| < |contents|)
    ensures !w.ok ==> w.next == |typing| && w.rest == []
    decreases |typing| - k
  {
    var n := if k < |typing| then k + 1 else k;
    var cs := if k < |typing| then Offers(contents, typing[k]) else contents;
    if cs != [] then Wait(true, cs[0], cs[1..], n)
    else if n == |typing| then Wait(false, 0, [], n)
    else Waited([], typing, n)
  }

  /** Puts what is typed into the ring; what does not fit is dropped. */
  method Type(rb: RingBuf, t: seq<byte>)
    requires rb.Valid()
    modifies rb`head, rb`accepted, rb.buf
    ensures rb.Valid() && rb.Contents() == Offers(old(rb.Contents()), t) && old(rb.accepted) <= rb.accepted
  {
    ghost var contents := rb.Contents();
    for i := 0 to |t|
      invariant rb.Valid() && old(rb.accepted) <= rb.accepted && Offers(rb.Contents(), t[i..]) == Offers(contents, t)
    {
      assert t[i..][0] == t[i] && t[i..][1..] == t[i + 1..];
      var rc := rb.Put(t[i]);
    }
  }

  /** One look into the ring, before which the next keys are typed. */
  method Look(rb: RingBuf, typing: seq<seq<byte>>, k: nat) returns (ok: bool, c: byte, next: nat)
    requires rb.Valid() && k <= |typing|
    modifies rb`head, rb`accepted, rb`tail, rb`taken, rb.buf
    ensures rb.Valid() && next == if k < |typing| then k + 1 else k
    ensures var cs := if k < |typing| then Offers(old(rb.Contents()), typing[k]) else old(rb.Contents());
            if cs != [] then ok && c == cs[0] && rb.Contents() == cs[1..] else !ok && c == 0 && rb.Contents() == []
    ensures rb.taken == (if ok then old(rb.taken) + [c] else old(rb.taken)) && old(rb.accepted) <= rb.accepted
  {
    next := k;
    if k < |typing| {
      Type(rb, typing[k]);
      next := k + 1;
    }
    var got := rb.TryRead(1);
    ok, c := |got| == 1, 0;
    if ok {
      assert got == [got[0]];
      c := got[0];
    }
  }

  /** Waits for a byte from the ring, as `Waited` says. */
  method Await(rb: RingBuf, typing: seq<seq<byte>>, k: nat) returns (ok: bool, c: byte, next: nat)
    requires rb.Valid() && k <= |typing|
    modifies rb`head, rb`accepted, rb`tail, rb`taken, rb.buf
    ensures rb.Valid() && Wait(ok, c, rb.Contents(), next) == Waited(old(rb.Contents()), typing, k)
    ensures rb.taken == (if ok then old(rb.taken) + [c] else old(rb.taken)) && old(rb.accepted) <= rb.accepted
  {
    ok, c, next := Look(rb, typing, k);
    while !ok && next < |typing|
      invariant rb.Valid() && k <= next <= |typing| && old(rb.accepted) <= rb.accepted
      invariant rb.taken == if ok then old(rb.taken) + [c] else old(rb.taken)
      invariant if ok || next == |typing| then
                  Wait(ok, c, rb.Contents(), next) == Waited(old(rb.Contents()), typing, k)
                else rb.Contents() == [] && Waited([], typing, next) == Waited(old(rb.Contents()), typing, k)
      decreases |typing| - next, !ok
    {
      ok, c, next := Look(rb, typing, next);
    }
  }

  // ---- reading a line ----

  /** What reading a line comes to: whether the line has ended, the keys taken, what is left in the ring, and how much
      of the typing was done. */
  datatype Line = Line(done: bool, keys: seq<byte>, rest: seq<byte>, next: nat)

  function LineFrom(contents: seq<byte>, typing: seq<seq<byte>>, k: nat, keys: seq<byte>, len: nat): (l: Line)
    requires k <= |typing|
    ensures k <= l.next <= |typing|
    decreases |typing| - k, |contents|
  {
    if |Edited(keys)| + 1 >= len then Line(true, keys, contents, k)
    else
      var w := Waited(contents, typing, k);
      if !w.ok then Line(false, keys, w.rest, w.next)
      else if w.c == NEWLINE then Line(true, keys + [w.c], w.rest, w.next)
      else LineFrom(w.rest, typing, w.next, keys + [w.c], len)
  }

  lemma LineStep(contents: seq<byte>, typing: seq<seq<byte>>, k: nat, keys: seq<byte>, len: nat, w: Wait, l: Line)
    requires k <= |typing| && |Edited(keys)| + 1 < len && w == Waited(contents, typing, k)
    requires l == LineFrom(contents, typing, k, keys, len)
    ensures if !w.ok then l == Line(false, keys, w.rest, w.next)
            else if w.c == NEWLINE then l == Line(true, keys + [w.c], w.rest, w.next)
            else l == LineFrom(w.rest, typing, w.next, keys + [w.c], len)
  {
  }

  /** The buffer holds what is left of the line `keys`, and an end mark. */
  ghost predicate HasLine(b: seq<byte>, i: nat, keys: seq<byte>, len: nat) {
    IsLine(keys, len) && i < len <= |b| && Holds(b, i, Edited(LineOf(keys))) && b[i] == 0
  }

  /** A line is being read: `keys` have been taken from the ring, out of which `taken` had been taken before, the buffer
      holds what is left of them, and reading comes to `l`. */
  ghost predicate Reading(rb: RingBuf, typing: seq<seq<byte>>, b: seq<byte>, len: nat, i: nat, k: nat, keys: seq<byte>,
                          taken: seq<byte>, l: Line)
    reads rb, rb.buf
  {
    && rb.Valid() && rb.taken == taken + keys && k <= |typing|
    && LineFrom(rb.Contents(), typing, k, keys, len) == l
    && i < len <= |b| && Goes(keys, len) && Holds(b, i, Edited(keys))
  }

  /** Reading a line came to `l`: when it is done the buffer holds it, and when not all has been typed and taken and the
      line has not ended. */
  ghost predicate HasRead(rb: RingBuf, typing: seq<seq<byte>>, b: seq<byte>, len: nat, done: bool, i: nat, k: nat,
                          keys: seq<byte>, taken: seq<byte>, l: Line)
    reads rb, rb.buf
  {
    && rb.Valid() && rb.taken == taken + keys && Line(done, keys, rb.Contents(), k) == l
    && if done then HasLine(b, i, keys, len)
       else k == |typing| && rb.Contents() == [] && Goes(keys, len) && |Edited(keys)| + 1 < len
  }

  /** Takes one key, which may end the line. */
  method ReadKey(rb: RingBuf, typing: seq<seq<byte>>, buf: array<byte>, len: nat, i: nat, k: nat, ghost keys: seq<byte>,
                 ghost taken: seq<byte>, ghost l: Line)
    returns (stop: bool, done: bool, i': nat, k': nat, ghost keys': seq<byte>)
    requires buf != rb.buf && Reading(rb, typing, buf[..], len, i, k, keys, taken, l) && i + 1 < len
    modifies buf, rb`head, rb`accepted, rb`tail, rb`taken, rb.buf
    ensures if stop then HasRead(rb, typing, buf[..], len, done, i', k', keys', taken, l)
            else
              && Reading(rb, typing, buf[..], len, i', k', keys', taken, l)
              && (k' > k || (k' == k && |rb.Contents()| < |old(rb.Contents())|))
    ensures buf[len..] == old(buf[len..]) && old(rb.accepted) <= rb.accepted
  {
    LineStep(rb.Contents(), typing, k, keys, len, Waited(rb.Contents(), typing, k), l);
    var ok, ch;
    ok, ch, k' := Await(rb, typing, k);
    stop, done, i', keys' := true, false, i, keys;
    if !ok {
      return;
    }
    stop, i', keys' := UseKey(rb, typing, buf, len, i, k', ch, keys, taken, l);
    done := stop;
  }

  /** Puts a key that was taken into the buffer, or ends the line. */
  method UseKey(rb: RingBuf, typing: seq<seq<byte>>, buf: array<byte>, len: nat, i: nat, k: nat, ch: byte,
                ghost keys: seq<byte>, ghost taken: seq<byte>, ghost l: Line)
    returns (stop: bool, i': nat, ghost keys': seq<byte>)
    requires buf != rb.buf && rb.Valid() && rb.taken == taken + keys + [ch] && k <= |typing|
    requires i + 1 < len <= buf.Length && Goes(keys, len) && Holds(buf[..], i, Edited(keys))
    requires l == if ch == NEWLINE then Line(true, keys + [ch], rb.Contents(), k)
                  else LineFrom(rb.Contents(), typing, k, keys + [ch], len)
    modifies buf
    ensures if stop then HasRead(rb, typing, buf[..], len, true, i', k, keys', taken, l)
            else Reading(rb, typing, buf[..], len, i', k, keys', taken, l)
    ensures buf[len..] == old(buf[len..])
  {
    assert taken + keys + [ch] == taken + (keys + [ch]);
    stop, i', keys' := ch == NEWLINE, i, keys + [ch];
    if stop {
      NewlineEnds(keys);
      EndLine(buf, len, i, keys, keys');
    } else {
      i', keys' := TakeNext(buf, len, i, ch, keys);
    }
  }

  /** Reads a line into a buffer of `len` bytes from the ring, while keys go on being typed. `keys` are the bytes it
      takes from the ring: first what was in it, then what was typed and fitted. No byte behind the buffer changes. */
  method ReadLine(rb: RingBuf, typing: seq<seq<byte>>, buf: array<byte>, len: nat)
    returns (done: bool, i: nat, k: nat, ghost keys: seq<byte>)
    requires rb.Valid() && len <= buf.Length && buf != rb.buf
    modifies buf, rb`head, rb`accepted, rb`tail, rb`taken, rb.buf
    ensures if len == 0 then
              && done && i == 0 && keys == [] && buf[..] == old(buf[..])
              && rb.Valid() && rb.taken == old(rb.taken) && rb.Contents() == old(rb.Contents())
            else
              HasRead(rb, typing, buf[..], len, done, i, k, keys, old(rb.taken),
                      LineFrom(old(rb.Contents()), typing, 0, [], len))
    ensures buf[len..] == old(buf[len..]) && old(rb.accepted) <= rb.accepted
    ensures keys + rb.Contents() == old(rb.Contents()) + rb.accepted[|old(rb.accepted)|..]
  {
    i, k, keys := 0, 0, [];
    if len == 0 {
      return true, 0, 0, [];
    }
    ghost var accepted := rb.accepted;
    ghost var l, taken := LineFrom(rb.Contents(), typing, 0, [], len), rb.taken;
    while i + 1 < len
      invariant Reading(rb, typing, buf[..], len, i, k, keys, taken, l)
      invariant buf[len..] == old(buf[len..]) && old(rb.accepted) <= rb.accepted
      decreases |typing| - k, |rb.Contents()|
    {
      var stop;
      stop, done, i, k, keys := ReadKey(rb, typing, buf, len, i, k, keys, taken, l);
      if stop {
        TakenInOrder(accepted, taken, rb.accepted, keys, rb.taken);
        return;
      }
    }
    FullIsLine(keys, len);
    EndLine(buf, len, i, keys, keys);
    TakenInOrder(accepted, taken, rb.accepted, keys, rb.taken);
    done := true;
  }

  lemma TakenInOrder(a: seq<byte>, t: seq<byte>, a': seq<byte>, keys: seq<byte>, t': seq<byte>)
    requires a <= a' && t <= a && t' == t + keys && t' <= a'
    ensures keys + a'[|t'|..] == a[|t|..] + a'[|a|..]
  {
    assert a' == a + a'[|a|..] && a' == t' + a'[|t'|..];
    assert a'[|t|..] == a[|t|..] + a'[|a|..];
    assert a'[|t|..] == keys + a'[|t'|..];
  }

  lemma NewlineEnds(keys: seq<byte>)
    ensures LineOf(keys + [0x0a]) == keys
  {
  }

  lemma FullIsLine(keys: seq<byte>, len: nat)
    requires Goes(keys, len)
    ensures LineOf(keys) == keys
  {
    assert keys != [] ==> keys[|keys| - 1] != NEWLINE;
  }

  // ---- a line depends on what is typed, and not on when ----

  /** All that is typed from the `k`-th look on. */
  function Flat(typing: seq<seq<byte>>, k: nat): seq<byte>
    decreases |typing| - k
  {
    if k >= |typing| then [] else typing[k] + Flat(typing, k + 1)
  }

  /** What fits is taken. */
  lemma {:induction false} OffersAll(contents: seq<byte>, t: seq<byte>)
    requires |contents| + |t| <= 4095
    ensures Offers(contents, t) == contents + t
    decreases |t|
  {
    if t == [] {
    } else {
      OffersAll(contents + [t[0]], t[1..]);
      assert contents + [t[0]] + t[1..] == contents + t;
    }
  }

  lemma {:induction false} WaitedKeeps(contents: seq<byte>, typing: seq<seq<byte>>, k: nat)
    requires k <= |typing| && |contents| + |Flat(typing, k)| <= 4095
    ensures var w := Waited(contents, typing, k);
            contents + Flat(typing, k) == (if w.ok then [w.c] else []) + w.rest + Flat(typing, w.next)
    decreases |typing| - k
  {
    if k == |typing| {
    } else {
      var cs := Offers(contents, typing[k]);
      OffersAll(contents, typing[k]);
      assert contents + Flat(typing, k) == cs + Flat(typing, k + 1);
      if cs == [] && k + 1 < |typing| {
        WaitedKeeps([], typing, k + 1);
      }
    }
  }

  lemma Regroup(keys: seq<byte>, c: byte, rest: seq<byte>, more: seq<byte>, contents: seq<byte>, all: seq<byte>)
    requires contents + all == [c] + rest + more
    ensures keys + [c] + rest + more == keys + contents + all
  {
    assert keys + [c] + rest + more == keys + ([c] + rest + more);
    assert keys + contents + all == keys + (contents + all);
  }

  /** As long as the ring does not overflow, the keys that are taken are the first of those that were there and those
      that are typed; all of them, if the line does not end. */
  lemma {:induction false} LineKeeps(contents: seq<byte>, typing: seq<seq<byte>>, k: nat, keys: seq<byte>, len: nat)
    requires k <= |typing| && |contents| + |Flat(typing, k)| <= 4095 && Goes(keys, len) && |Edited(keys)| < len
    ensures var l := LineFrom(contents, typing, k, keys, len);
            && l.keys + l.rest + Flat(typing, l.next) == keys + contents + Flat(typing, k)
            && if l.done then IsLine(l.keys, len)
               else
                 && l.keys == keys + contents + Flat(typing, k)
                 && Goes(l.keys, len) && |Edited(l.keys)| + 1 < len
    decreases |typing| - k, |contents|
  {
    if |Edited(keys)| + 1 >= len {
      FullIsLine(keys, len);
    } else {
      var w := Waited(contents, typing, k);
      WaitedKeeps(contents, typing, k);
      if w.ok {
        var more := keys + [w.c];
        Regroup(keys, w.c, w.rest, Flat(typing, w.next), contents, Flat(typing, k));
        if w.c == NEWLINE {
          NewlineEnds(keys);
        } else {
          EditedNext(keys, w.c);
          GoesOn(keys, w.c, len);
          LineKeeps(w.rest, typing, w.next, more, len);
        }
      }
    }
  }

  /** Keys none of which ends a line do not begin with one, unless all of them fill the buffer. */
  lemma NoLineIn(keys: seq<byte>, m: nat, len: nat)
    requires Goes(keys, len) && m <= |keys| && IsLine(keys[..m], len)
    ensures m == |keys| && |Edited(keys)| + 1 == len
  {
    assert keys[..m] != [] ==> keys[..m][m - 1] == keys[m - 1];
    assert m == |keys| ==> keys[..m] == keys;
  }

  /** So there is one way only to read a line from a text: no more than one number of its first keys is a line, and none
      is if the text goes on to its end. */
  lemma OneLine(text: seq<byte>, m: nat, n: nat, len: nat)
    requires m <= n <= |text| && IsLine(text[..m], len)
    ensures IsLine(text[..n], len) ==> m == n
    ensures !(Goes(text, len) && |Edited(text)| + 1 < len)
  {
    if IsLine(text[..n], len) && m < n {
      var b := LineOf(text[..n]);
      assert b[..m] == text[..m];
      NoLineIn(b, m, len);
    }
    if Goes(text, len) {
      NoLineIn(text, m, len);
    }
  }

  /** The buffer begins with the `i` bytes of `s`. */
  ghost predicate Holds(b: seq<byte>, i: nat, s: seq<byte>) {
    i == |s| <= |b| && b[..i] == s
  }

  /** Puts a character into the buffer, or takes the last one back. */
  method TakeKey(buf: array<byte>, len: nat, i: nat, ch: byte, ghost s: seq<byte>) returns (j: nat)
    requires i + 1 < len <= buf.Length && Holds(buf[..], i, s)
    modifies buf
    ensures Holds(buf[..], j, if ch != BACKSPACE then s + [ch] else if s == [] then [] else s[..|s| - 1])
    ensures j < len && buf[len..] == old(buf[len..])
  {
    j := i;
    if ch == BACKSPACE {
      if i > 0 {
        j := i - 1;
      }
    } else {
      buf[i] := ch;
      j := i + 1;
    }
  }

  /** As `TakeKey`, in terms of the keys so far. */
  method TakeNext(buf: array<byte>, len: nat, i: nat, ch: byte, ghost keys: seq<byte>)
    returns (j: nat, ghost keys': seq<byte>)
    requires i + 1 < len <= buf.Length && Holds(buf[..], i, Edited(keys)) && ch != NEWLINE && Goes(keys, len)
    modifies buf
    ensures keys' == keys + [ch] && Holds(buf[..], j, Edited(keys')) && Goes(keys', len)
    ensures j < len && buf[len..] == old(buf[len..])
  {
    keys' := keys + [ch];
    EditedNext(keys, ch);
    GoesOn(keys, ch, len);
    j := TakeKey(buf, len, i, ch, Edited(keys));
  }

  method EndLine(buf: array<byte>, len: nat, i: nat, ghost typed: seq<byte>, ghost keys: seq<byte>)
    requires i < len <= buf.Length && Holds(buf[..], i, Edited(typed)) && typed == LineOf(keys) && Goes(typed, len)
    requires if keys == typed then i + 1 == len else i + 1 < len
    modifies buf
    ensures HasLine(buf[..], i, keys, len) && buf[len..] == old(buf[len..])
  {
    buf[i] := 0;
  }

  lemma GoesOn(keys: seq<byte>, k: byte, len: nat)
    requires Goes(keys, len) && k != NEWLINE && |Edited(keys)| + 1 < len
    ensures Goes(keys + [k], len)
  {
    forall m | 0 <= m < |keys| + 1
      ensures (keys + [k])[m] != NEWLINE && |Edited((keys + [k])[..m])| + 1 < len
    {
      assert (keys + [k])[..m] == if m < |keys| then keys[..m] else keys;
    }
  }
}
