/** Copying in memory, by words where both addresses are aligned. An address is an index into `mem`. */
module Memory {
  import opened Bytes

  /** Memory after the `len` bytes at `src` were put at `dst`. */
  function Moved(m: seq<byte>, dst: nat, src: nat, len: nat): (r: seq<byte>)
    requires dst + len <= |m| && src + len <= |m|
    ensures |r| == |m|
  {
    m[..dst] + m[src..src + len] + m[dst + len..]
  }

  /** The first `i` bytes have been copied, and nothing else has changed. */
  ghost predicate Copied(was: seq<byte>, now: seq<byte>, dst: nat, src: nat, i: nat) {
    && |now| == |was| && dst + i <= |was| && src + i <= |was|
    && forall k {:trigger now[k]} :: 0 <= k < |was| ==>
         now[k] == if dst <= k < dst + i then was[src + (k - dst)] else was[k]
  }

  lemma CopiedIsMoved(was: seq<byte>, now: seq<byte>, dst: nat, src: nat, len: nat)
    requires Copied(was, now, dst, src, len)
    ensures now == Moved(was, dst, src, len)
  {
    var r := Moved(was, dst, src, len);
    forall k | 0 <= k < |was|
      ensures now[k] == r[k]
    {
    }
  }

  /** Copying forwards is safe: what is still to be copied has not been overwritten. */
  predicate Forwards(dst: nat, src: nat, len: nat) {
    dst <= src || src + len <= dst
  }

  /** A copy of `len` bytes from `src` to `dst` has come to `d` and `s`, with `rest` bytes to go. */
  ghost predicate Copying(was: seq<byte>, now: seq<byte>, dst: nat, src: nat, len: nat, d: nat, s: nat, rest: nat) {
    && dst + len <= |was| && src + len <= |was| && Forwards(dst, src, len)
    && dst <= d && src <= s && d - dst == s - src && d - dst + rest == len
    && Copied(was, now, dst, src, d - dst)
  }

  method CopyByte(mem: array<byte>, d: nat, s: nat, ghost rest: nat,
                  ghost was: seq<byte>, ghost dst: nat, ghost src: nat, ghost len: nat)
    requires Copying(was, mem[..], dst, src, len, d, s, rest) && rest > 0
    modifies mem
    ensures Copying(was, mem[..], dst, src, len, d + 1, s + 1, rest - 1)
  {
    ghost var now := mem[..];
    assert now[s] == was[s];
    mem[d] := mem[s];
    assert mem[..] == now[d := was[s]];
  }

  /** Loads a word and stores it; both addresses are aligned. */
  method CopyWord(mem: array<byte>, d: nat, s: nat, ghost rest: nat,
                  ghost was: seq<byte>, ghost dst: nat, ghost src: nat, ghost len: nat)
    requires Copying(was, mem[..], dst, src, len, d, s, rest) && rest >= 4 && d % 4 == 0 && s % 4 == 0
    modifies mem
    ensures Copying(was, mem[..], dst, src, len, d + 4, s + 4, rest - 4)
  {
    ghost var now := mem[..];
    assert now[s] == was[s] && now[s + 1] == was[s + 1] && now[s + 2] == was[s + 2] && now[s + 3] == was[s + 3];
    var b0, b1, b2, b3 := mem[s], mem[s + 1], mem[s + 2], mem[s + 3];
    mem[d], mem[d + 1], mem[d + 2], mem[d + 3] := b0, b1, b2, b3;
    assert mem[..] == now[d := b0][d + 1 := b1][d + 2 := b2][d + 3 := b3];
  }

  /** The copy of a forward direction: bytes until the destination is aligned; then, if the source is aligned too,
      blocks of eight words and single words; then the rest byte by byte. */
  method Memcpy(mem: array<byte>, dst: nat, src: nat, len: nat)
    requires dst + len <= mem.Length && src + len <= mem.Length && Forwards(dst, src, len)
    modifies mem
    ensures mem[..] == Moved(old(mem[..]), dst, src, len)
  {
    ghost var was := mem[..];
    var d, s, rest := CopyUntilAligned(mem, dst, src, len);
    if s % 4 == 0 {
      d, s, rest := CopyBlocks(mem, d, s, rest, was, dst, src, len);
      d, s, rest := CopyWords(mem, d, s, rest, was, dst, src, len);
    }
    while rest > 0
      invariant Copying(was, mem[..], dst, src, len, d, s, rest)
    {
      CopyByte(mem, d, s, rest, was, dst, src, len);
      d, s, rest := d + 1, s + 1, rest - 1;
    }
    CopiedIsMoved(was, mem[..], dst, src, len);
  }

  /** Bytes, until the destination is aligned. */
  method CopyUntilAligned(mem: array<byte>, dst: nat, src: nat, len: nat) returns (d: nat, s: nat, rest: nat)
    requires dst + len <= mem.Length && src + len <= mem.Length && Forwards(dst, src, len)
    modifies mem
    ensures Copying(old(mem[..]), mem[..], dst, src, len, d, s, rest) && (rest == 0 || d % 4 == 0)
  {
    ghost var was := mem[..];
    d, s, rest := dst, src, len;
    while rest > 0 && d % 4 != 0
      invariant Copying(was, mem[..], dst, src, len, d, s, rest)
    {
      CopyByte(mem, d, s, rest, was, dst, src, len);
      d, s, rest := d + 1, s + 1, rest - 1;
    }
  }

  /** Both addresses are aligned, unless nothing is left to copy. */
  predicate Aligned(d: nat, s: nat, rest: nat) { rest == 0 || (d % 4 == 0 && s % 4 == 0) }

  /** Blocks of eight words, as long as there are 32 bytes. */
  method CopyBlocks(mem: array<byte>, d0: nat, s0: nat, rest0: nat,
                    ghost was: seq<byte>, ghost dst: nat, ghost src: nat, ghost len: nat)
    returns (d: nat, s: nat, rest: nat)
    requires Copying(was, mem[..], dst, src, len, d0, s0, rest0) && Aligned(d0, s0, rest0)
    modifies mem
    ensures Copying(was, mem[..], dst, src, len, d, s, rest) && Aligned(d, s, rest) && rest < 32
  {
    d, s, rest := d0, s0, rest0;
    while rest >= 32
      invariant Copying(was, mem[..], dst, src, len, d, s, rest) && Aligned(d, s, rest)
    {
      d, s, rest := CopyBlock(mem, d, s, rest, was, dst, src, len);
    }
  }

  /** Single words, as long as there are 4 bytes. */
  method CopyWords(mem: array<byte>, d0: nat, s0: nat, rest0: nat,
                   ghost was: seq<byte>, ghost dst: nat, ghost src: nat, ghost len: nat)
    returns (d: nat, s: nat, rest: nat)
    requires Copying(was, mem[..], dst, src, len, d0, s0, rest0) && Aligned(d0, s0, rest0)
    modifies mem
    ensures Copying(was, mem[..], dst, src, len, d, s, rest) && rest < 4
  {
    d, s, rest := d0, s0, rest0;
    while rest >= 4
      invariant Copying(was, mem[..], dst, src, len, d, s, rest) && Aligned(d, s, rest)
    {
      CopyWord(mem, d, s, rest, was, dst, src, len);
      d, s, rest := d + 4, s + 4, rest - 4;
    }
  }

  /** Eight words, one after the other. */
  method CopyBlock(mem: array<byte>, d0: nat, s0: nat, rest0: nat,
                   ghost was: seq<byte>, ghost dst: nat, ghost src: nat, ghost len: nat)
    returns (d: nat, s: nat, rest: nat)
    requires Copying(was, mem[..], dst, src, len, d0, s0, rest0) && rest0 >= 32 && s0 % 4 == 0 && d0 % 4 == 0
    modifies mem
    ensures Copying(was, mem[..], dst, src, len, d, s, rest) && rest == rest0 - 32 && d % 4 == 0 && s % 4 == 0
  {
    d, s, rest := d0, s0, rest0;
    for k := 0 to 8
      invariant Copying(was, mem[..], dst, src, len, d, s, rest)
      invariant rest == rest0 - 4 * k && d == d0 + 4 * k && s == s0 + 4 * k
    {
      CopyWord(mem, d, s, rest, was, dst, src, len);
      d, s, rest := d + 4, s + 4, rest - 4;
    }
    BlockOn(d0, d);
    BlockOn(s0, s);
  }

  lemma BlockOn(a: nat, b: nat)
    requires a % 4 == 0 && b == a + 32
    ensures b % 4 == 0
  {
  }

  /** Moves bytes between places that may overlap. */
  method Memmove(mem: array<byte>, dst: nat, src: nat, len: nat)
    requires dst + len <= mem.Length && src + len <= mem.Length
    modifies mem
    ensures mem[..] == Moved(old(mem[..]), dst, src, len)
  {
    if dst > src {
      Backwards(mem, dst, src, len);
    } else if dst < src {
      Memcpy(mem, dst, src, len);
    }
  }

  /** All but the first `n` bytes have been copied, and nothing else has changed. */
  ghost predicate CopiedBack(was: seq<byte>, now: seq<byte>, dst: nat, src: nat, len: nat, n: nat) {
    && |now| == |was| && n <= len && dst + len <= |was| && src + len <= |was|
    && forall k {:trigger now[k]} :: 0 <= k < |was| ==>
         now[k] == if dst + n <= k < dst + len then was[src + (k - dst)] else was[k]
  }

  /** Bytes, from the last one to the first. */
  method Backwards(mem: array<byte>, dst: nat, src: nat, len: nat)
    requires src < dst && dst + len <= mem.Length && src + len <= mem.Length
    modifies mem
    ensures mem[..] == Moved(old(mem[..]), dst, src, len)
  {
    ghost var was := mem[..];
    var n: nat := len;
    while n > 0
      invariant CopiedBack(was, mem[..], dst, src, len, n)
    {
      n := n - 1;
      ghost var now := mem[..];
      assert now[src + n] == was[src + n];
      mem[dst + n] := mem[src + n];
      assert mem[..] == now[dst + n := was[src + n]];
    }
    assert Copied(was, mem[..], dst, src, len);
    CopiedIsMoved(was, mem[..], dst, src, len);
  }
}
