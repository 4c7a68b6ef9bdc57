/** Reading a directory entry by entry. */
module Listing {
  import opened Bytes
  import opened Codes
  import opened Names
  import opened Slots
  import opened Sectors
  import opened Directory

  // ---- the name in a short entry ----

  /** The characters from `i` on, up to the first pad or to `end`. */
  function Unpadded(s: seq<byte>, i: nat, end: nat): (r: seq<byte>)
    requires i <= end <= |s|
    ensures |r| <= end - i
    decreases end - i
  {
    if i == end || s[i] == PAD then [] else [s[i]] + Unpadded(s, i + 1, end)
  }

  /** An 8.3 name as text: the base, and the extension behind a dot if there is one. */
  function SfnText(s: Name11): (r: seq<byte>)
    ensures |r| <= 12
  {
    Unpadded(s, 0, 8) + (if s[8] != PAD then [DOT] else []) + Unpadded(s, 8, 11)
  }

  /** The name of a live entry. */
  function NameOf(e: Entry): seq<byte>
    requires e.slots != []
  {
    if |e.slots| == 1 then SfnText(e.slots[0][..11]) else TextAt(e.slots, 0, |e.slots| - 1)
  }

  method ParseUnpadded(s: seq<byte>, start: nat, end: nat) returns (r: seq<byte>)
    requires start <= end <= |s|
    ensures r == Unpadded(s, start, end)
  {
    r := [];
    var i := start;
    while i < end && s[i] != PAD
      invariant start <= i <= end && r + Unpadded(s, i, end) == Unpadded(s, start, end)
    {
      Assoc(r, [s[i]], Unpadded(s, i + 1, end));
      r := r + [s[i]];
      i := i + 1;
    }
    assert r + [] == r;
  }

  method ParseSfnName(s: Name11) returns (r: seq<byte>)
    ensures r == SfnText(s)
  {
    r := ParseUnpadded(s, 0, 8);
    var dot := if s[8] != PAD then [DOT] else [];
    var ext := ParseUnpadded(s, 8, 11);
    r := r + dot + ext;
  }

  // ---- one entry after the other ----

  /** What reading an entry gives: its name, size and attributes. */
  datatype Info = Info(name: seq<byte>, size: u32, attr: byte)

  ghost function InfoOf(e: Entry): Info
    requires e.slots != []
  {
    var s := e.slots[|e.slots| - 1];
    Info(NameOf(e), SfnSize(s), s[11])
  }

  /** How reading an entry ended: the error, the entry, its short slot, and the slot behind that. */
  datatype Listed = Listed(err: int, info: Info, pos: nat, next: nat)

  const NO_INFO: Info := Info([], 0, 0)

  /** What reading an entry from slot `k` on comes to, on any directory; `g` is in the name buffer. */
  function ReadFrom(slots: seq<Slot>, k: nat, g: seq<byte>): Listed
    requires |g| == 512
    decreases |slots| - k
  {
    if k >= |slots| || IsLast(slots[k]) then Listed(ERR_EOF, NO_INFO, k, k)
    else if IsFree(slots[k]) then ReadFrom(slots, k + 1, g)
    else if !IsLfn(slots[k]) then
      Listed(ERR_NONE, Info(SfnText(slots[k][..11]), SfnSize(slots[k]), slots[k][11]), k, k + 1)
    else
      var p := ParseLfn(slots, k, g);
      var s := slots[p.pos];
      if p.err != ERR_NONE then Listed(p.err, NO_INFO, p.pos, p.pos)
      else if IsFree(s) || p.crc != Crc(s[..11]) then Listed(ERR_BROKEN, NO_INFO, p.pos, p.pos)
      else Listed(ERR_NONE, Info(p.g[..p.len], SfnSize(s), s[11]), p.pos, p.pos + 1)
  }

  /** In a sound directory that is the first live entry from `k` on, with the cursor at its short slot; or there is
      none, which is what the error says. */
  ghost predicate IsListed(slots: seq<Slot>, k: nat, o: Listed) {
    && Clean(slots, k)
    && if Live(slots, k) == [] then o.err == ERR_EOF
       else
         var e := Live(slots, k)[0];
         && o.err == ERR_NONE && e.slots != [] && o.info == InfoOf(e) && o.next == o.pos + 1 == e.first + |e.slots|
         && o.pos < |slots| && Clean(slots, o.next) && Live(slots, k) == [e] + Live(slots, o.next)
  }

  lemma {:induction false} ReadLists(slots: seq<Slot>, k: nat, g: seq<byte>)
    requires Clean(slots, k) && |g| == 512
    ensures IsListed(slots, k, ReadFrom(slots, k, g))
    decreases |slots| - k
  {
    if k >= |slots| || IsLast(slots[k]) {
    } else {
      if IsFree(slots[k]) {
        ReadLists(slots, k + 1, g);
      } else if IsLfn(slots[k]) {
        var p := ParseLfn(slots, k, g);
        ListedSet(slots, k, g, p, p.pos, p.pos + 1, Info(p.g[..p.len], SfnSize(slots[p.pos]), slots[p.pos][11]));
      } else {
        ListedShort(slots, k, k + 1, Info(SfnText(slots[k][..11]), SfnSize(slots[k]), slots[k][11]));
      }
    }
  }

  /** The entry at a slot that is in use. */
  lemma ListedItem(slots: seq<Slot>, k: nat, info: Info, pos: nat, next: nat)
    requires k < |slots| && !IsFree(slots[k]) && Clean(slots, k) && pos + 1 == next == k + ItemLen(slots, k) <= |slots|
    requires info == InfoOf(Entry(k, slots[k..next]))
    ensures IsListed(slots, k, Listed(ERR_NONE, info, pos, next))
  {
  }

  lemma ListedShort(slots: seq<Slot>, k: nat, next: nat, info: Info)
    requires k < |slots| && !IsFree(slots[k]) && !IsLfn(slots[k]) && Clean(slots, k) && next == k + 1
    requires info == Info(SfnText(slots[k][..11]), SfnSize(slots[k]), slots[k][11])
    ensures IsListed(slots, k, Listed(ERR_NONE, info, k, next))
  {
    assert slots[k..next] == [slots[k]];
    ListedItem(slots, k, info, k, next);
  }

  lemma ListedSet(slots: seq<Slot>, k: nat, g: seq<byte>, p: Parse, pos: nat, next: nat, info: Info)
    requires k < |slots| && !IsFree(slots[k]) && IsLfn(slots[k]) && Clean(slots, k) && |g| == 512
    requires p == ParseLfn(slots, k, g) && pos == p.pos && next == pos + 1
    requires info == Info(p.g[..p.len], SfnSize(slots[pos]), slots[pos][11])
    ensures p.err == ERR_NONE && k <= pos && IsListed(slots, k, Listed(ERR_NONE, info, pos, next))
    ensures !IsFree(slots[pos]) && p.crc == Crc(slots[pos][..11])
  {
    var n := LfnCount(slots[k]);
    SetParsed(slots, k, n, g, p, pos);
    ListedText(slots, k, n, pos, next, info);
  }

  lemma SetParsed(slots: seq<Slot>, k: nat, n: nat, g: seq<byte>, p: Parse, pos: nat)
    requires k < |slots| && |g| == 512 && WholeSetAt(slots, k) && n == LfnCount(slots[k])
    requires p == ParseLfn(slots, k, g) && pos == p.pos
    ensures p.err == ERR_NONE && pos == k + n && n > 0 && p.g[..p.len] == TextAt(slots, k, n)
    ensures !IsFree(slots[pos]) && p.crc == Crc(slots[pos][..11])
  {
    ParseWholeSet(slots, k, n, g);
  }

  lemma ListedText(slots: seq<Slot>, k: nat, n: nat, pos: nat, next: nat, info: Info)
    requires k < |slots| && !IsFree(slots[k]) && IsLfn(slots[k]) && Clean(slots, k)
    requires n == LfnCount(slots[k]) && pos == k + n < |slots| && next == pos + 1 && n > 0
    requires info == Info(TextAt(slots, k, n), SfnSize(slots[pos]), slots[pos][11])
    ensures IsListed(slots, k, Listed(ERR_NONE, info, pos, next))
  {
    SetInfo(slots, k, n, pos, next);
    ListedItem(slots, k, info, pos, next);
  }

  lemma SetInfo(slots: seq<Slot>, k: nat, n: nat, pos: nat, next: nat)
    requires n > 0 && pos == k + n < |slots| && next == pos + 1
    ensures InfoOf(Entry(k, slots[k..next])) == Info(TextAt(slots, k, n), SfnSize(slots[pos]), slots[pos][11])
  {
    SetShift(slots[k..next], 0, slots, k, n, 0, false);
    assert slots[k..next][n] == slots[pos];
  }

  /** Reading an entry comes to `o`, and at slot `k` it still does. */
  ghost predicate ReadComesTo(o: Listed, slots: seq<Slot>, k: nat, g: seq<byte>) {
    |g| == 512 && o == ReadFrom(slots, k, g)
  }

  lemma ReadPast(o: Listed, slots: seq<Slot>, k: nat, n: nat, g: seq<byte>)
    requires ReadComesTo(o, slots, k, g) && n == k + 1
    ensures if k >= |slots| || IsLast(slots[k]) then o.err == ERR_EOF
            else if IsFree(slots[k]) then ReadComesTo(o, slots, n, g)
            else !IsLfn(slots[k]) ==>
              o == Listed(ERR_NONE, Info(SfnText(slots[k][..11]), SfnSize(slots[k]), slots[k][11]), k, n)
  {
  }

  lemma ReadSetIs(o: Listed, slots: seq<Slot>, k: nat, g: seq<byte>, p: Parse, n: nat)
    requires ReadComesTo(o, slots, k, g) && k < |slots| && !IsLast(slots[k]) && !IsFree(slots[k]) && IsLfn(slots[k])
    requires p == ParseLfn(slots, k, g) && n == p.pos + 1
    ensures var s := slots[p.pos];
            if p.err != ERR_NONE then o.err == p.err
            else if IsFree(s) || p.crc != Crc(s[..11]) then o.err == ERR_BROKEN
            else o == Listed(ERR_NONE, Info(p.g[..p.len], SfnSize(s), s[11]), p.pos, n)
  {
  }

  /** The entry `o` was read, and the cursor is at its short slot; or the error was. */
  ghost predicate HasReadEntry(dir: Dir, chain: seq<nat>, o: Listed, err: int, info: Info)
    reads dir, dir.fat, dir.fat.buf
  {
    dir.On(chain) && err == o.err && (err == ERR_NONE ==> info == o.info && dir.At(chain, o.pos) && o.next == o.pos + 1)
  }

  /** Reads the entry whose first slot is under the cursor and is in use. */
  method ReadItem(dir: Dir, s: Slot, ghost chain: seq<nat>, ghost k: nat, ghost o: Listed)
    returns (err: int, info: Info)
    requires dir.On(chain) && dir.At(chain, k) && s == dir.Slots(chain)[k] && !IsFree(s) && !IsLast(s)
    requires ReadComesTo(o, dir.Slots(chain), k, dir.g)
    modifies dir`clust, dir`sect, dir`idx, dir`g, dir`gLen, dir`gCrc
    modifies dir.fat`disk, dir.fat`torn, dir.fat`bufDirty, dir.fat`sect, dir.fat.buf
    ensures HasReadEntry(dir, chain, o, err, info)
  {
    if IsLfn(s) {
      err, info := ReadSet(dir, chain, k, o);
    } else {
      ReadPast(o, dir.Slots(chain), k, k + 1, dir.g);
      var name := ParseSfnName(s[..11]);
      err, info := ERR_NONE, Info(name, SfnSize(s), s[11]);
    }
  }

  method ReadSet(dir: Dir, ghost chain: seq<nat>, ghost k: nat, ghost o: Listed) returns (err: int, info: Info)
    requires dir.On(chain) && dir.At(chain, k) && ReadComesTo(o, dir.Slots(chain), k, dir.g)
    requires var s := dir.Slots(chain)[k]; !IsFree(s) && !IsLast(s) && IsLfn(s)
    modifies dir`clust, dir`sect, dir`idx, dir`g, dir`gLen, dir`gCrc
    modifies dir.fat`disk, dir.fat`torn, dir.fat`bufDirty, dir.fat`sect, dir.fat.buf
    ensures HasReadEntry(dir, chain, o, err, info)
  {
    ghost var p := ParseLfn(dir.Slots(chain), k, dir.g);
    ReadSetIs(o, dir.Slots(chain), k, dir.g, p, p.pos + 1);
    info := NO_INFO;
    err := dir.ParseLfnName(chain, k);
    if err != ERR_NONE {
      return;
    }
    var sfn := dir.Load(chain, p.pos);
    var crc := GetCrc(sfn[..11]);
    if IsFree(sfn) || dir.gCrc != crc {
      err := ERR_BROKEN;
      return;
    }
    info := Info(dir.g[..dir.gLen], SfnSize(sfn), sfn[11]);
  }

  /** Reads an entry from the cursor on. */
  method ReadEntry(dir: Dir, ghost chain: seq<nat>, ghost k: nat) returns (err: int, info: Info, ghost o: Listed)
    requires dir.On(chain) && dir.At(chain, k)
    modifies dir`clust, dir`sect, dir`idx, dir`g, dir`gLen, dir`gCrc
    modifies dir.fat`disk, dir.fat`torn, dir.fat`bufDirty, dir.fat`sect, dir.fat.buf
    ensures o == ReadFrom(old(dir.Slots(chain)), k, old(dir.g)) && HasReadEntry(dir, chain, o, err, info)
  {
    o := ReadFrom(dir.Slots(chain), k, dir.g);
    info := NO_INFO;
    ghost var i := k;
    while true
      invariant dir.On(chain) && dir.At(chain, i) && ReadComesTo(o, dir.Slots(chain), i, dir.g)
      decreases SlotCnt(dir.fat.geo, chain) - i
    {
      var s := dir.Load(chain, i);
      ghost var n := i + 1;
      ReadPast(o, dir.Slots(chain), i, n, dir.g);
      if IsLast(s) {
        return ERR_EOF, info, o;
      }
      if !IsFree(s) {
        err, info := ReadItem(dir, s, chain, i, o);
        return;
      }
      err := dir.Next(chain, i);
      if err != ERR_NONE {
        ReadPast(o, dir.Slots(chain), n, n + 1, dir.g);
        return;
      }
      i := n;
    }
  }

  /** An open directory of the kernel: the cursor stays at the entry read last, and moves on before the next read. */
  class OpenDir {
    const dir: Dir
    var needNext: bool
    /** The slot under the cursor, and the one to go on at. */
    ghost var at: nat
    ghost var from: nat

    constructor (dir: Dir, ghost chain: seq<nat>)
      requires dir.On(chain) && dir.At(chain, 0)
      ensures this.dir == dir && Valid(chain) && from == 0
    {
      this.dir := dir;
      needNext := false;
      at, from := 0, 0;
    }

    ghost predicate Valid(chain: seq<nat>)
      reads this, dir, dir.fat, dir.fat.buf
    {
      dir.On(chain) && dir.At(chain, at) && from == if needNext then at + 1 else at
    }

    /** Reads the next entry: what there is from the place on where the last read ended. */
    method Read(ghost chain: seq<nat>) returns (err: int, info: Info, ghost o: Listed)
      requires Valid(chain)
      modifies this, dir`clust, dir`sect, dir`idx, dir`g, dir`gLen, dir`gCrc
      modifies dir.fat`disk, dir.fat`torn, dir.fat`bufDirty, dir.fat`sect, dir.fat.buf
      ensures o == ReadFrom(old(dir.Slots(chain)), old(from), old(dir.g)) && err == o.err
      ensures err == ERR_NONE ==>
                info == o.info && Valid(chain) && from == o.next && dir.Slots(chain) == old(dir.Slots(chain))
    {
      o := ReadFrom(dir.Slots(chain), from, dir.g);
      info := NO_INFO;
      err := MoveOn(chain);
      if err != ERR_NONE {
        return;
      }
      needNext := true;
      err, info, o := ReadEntry(dir, chain, from);
      at, from := o.pos, o.next;
    }

    method MoveOn(ghost chain: seq<nat>) returns (err: int)
      requires Valid(chain)
      modifies dir`clust, dir`sect, dir`idx, dir.fat`disk, dir.fat`torn, dir.fat`bufDirty, dir.fat`sect, dir.fat.buf
      ensures dir.On(chain)
      ensures if err == ERR_NONE then dir.At(chain, from) else err == ERR_EOF && from == SlotCnt(dir.fat.geo, chain)
    {
      err := ERR_NONE;
      if needNext {
        err := dir.Next(chain, at);
      }
    }
  }

  /** So the reads of a sound directory give its live entries, each once and in order, and then EOF. */
  lemma ReadsGiveLive(slots: seq<Slot>, from: nat, g: seq<byte>)
    requires Clean(slots, from) && |g| == 512
    ensures var o, rest := ReadFrom(slots, from, g), Live(slots, from);
            if rest == [] then o.err == ERR_EOF
            else
              && o.err == ERR_NONE && rest[0].slots != [] && o.info == InfoOf(rest[0])
              && Clean(slots, o.next) && Live(slots, o.next) == rest[1..]
  {
    ReadLists(slots, from, g);
    var rest := Live(slots, from);
    if rest != [] {
      Joined([rest[0]], Live(slots, ReadFrom(slots, from, g).next));
    }
  }
}
