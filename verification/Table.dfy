/** The allocation table as it lies on the disk: geometry, entries, copies. */
module Table {
  import opened Bytes

  const FREE: u32 := 0
  const BAD: u32 := 0x0fff_fff7
  const EOC_MIN: u32 := 0x0fff_fff8
  const EOC: u32 := 0x0fff_ffff

  /** The fields of a mounted volume that never change. `fatSect` is the active copy of the table,
      `mirrorSect` the second one, or 0 when mirroring is off. A cluster has
      `1 << shift` sectors. */
  datatype Layout = Layout(
    shift: nat,
    fatLen: nat,
    rootClust: u32,
    fatSect: u32,
    mirrorSect: u32,
    infoSect: u32,
    dataSect: u32,
    sectCnt: nat)
  {
    /** The number of entries of a table copy, which has `fatLen` sectors. */
    function ClustCnt(): nat { 128 * fatLen }

    predicate InTable(base: nat, s: nat) { base <= s < base + fatLen }

    predicate Valid() {
      && shift <= 7
      && 2 < ClustCnt() <= BAD
      && 2 <= rootClust < ClustCnt()
      && 0 < infoSect < dataSect
      && 0 < fatSect && fatSect + fatLen <= dataSect
      && !InTable(fatSect, infoSect)
      && (mirrorSect != 0 ==>
            && mirrorSect + fatLen <= dataSect
            && !InTable(mirrorSect, infoSect)
            && (mirrorSect + fatLen <= fatSect || fatSect + fatLen <= mirrorSect))
      && LowBits(dataSect, shift) == 0
      && dataSect + Shl(ClustCnt() - 2, shift) <= sectCnt <= 0xffff_ffff
    }

    /** `s` holds neither a part of a table copy nor the info sector. */
    predicate Outside(s: nat) {
      && !InTable(fatSect, s)
      && (mirrorSect != 0 ==> !InTable(mirrorSect, s))
      && s != infoSect
    }

    /** The base of one of the copies in use. */
    predicate IsCopy(base: nat) {
      base == fatSect || (mirrorSect != 0 && base == mirrorSect)
    }
  }

  type Geometry = l: Layout | l.Valid() witness Layout(0, 1, 2, 2, 0, 1, 3, 129)

  type Table = seq<u32>

  ghost predicate Fits(g: Geometry, img: Image) {
    |img| == g.sectCnt
  }

  /** The value of an entry: all but the upper nibble of its word. */
  function Low28(w: u32): u32 {
    ShiftParts(w, 28);
    LowBits(w, 28)
  }

  function Nibble(w: u32): nat { Shr(w, 28) }

  /** The upper nibble of `w` with the lower 28 bits of `v`. */
  function UnderNibble(w: u32, v: u32): u32 {
    ShiftParts(w, 28);
    ShiftParts(v, 28);
    NibbleSmall(w);
    Shl(Shr(w, 28), 28) + LowBits(v, 28)
  }

  lemma NibbleSmall(w: u32)
    ensures Shl(Shr(w, 28), 28) + Shl(1, 28) <= 0x1_0000_0000
  {
    ShiftParts(w, 28);
    Shl28(1);
    Shl28(Shr(w, 28));
  }

  lemma UnderNibbleParts(w: u32, v: u32)
    ensures Low28(UnderNibble(w, v)) == Low28(v) && Nibble(UnderNibble(w, v)) == Nibble(w)
  {
    ShiftParts(v, 28);
    ShiftPartsUnique(Shr(w, 28), LowBits(v, 28), 28);
  }

  lemma SmallIsLow28(v: u32)
    requires v < 0x1000_0000
    ensures Low28(v) == v
  {
    Shl28(0);
    Shl28(1);
    ShiftPartsUnique(0, v, 28);
  }

  /** The full 32-bit word of entry `c` in the copy starting at sector `base`. */
  function Raw(g: Geometry, img: Image, base: nat, c: nat): u32
    requires Fits(g, img) && g.IsCopy(base) && c < g.ClustCnt()
  {
    Word(img[base + c / 128], 4 * (c % 128))
  }

  /** The first `n` entries of one copy; the upper nibble of an entry is not part of its value. */
  function EntriesUpTo(g: Geometry, img: Image, base: nat, n: nat): (t: Table)
    requires Fits(g, img) && g.IsCopy(base) && n <= g.ClustCnt()
    ensures |t| == n
  {
    if n == 0 then [] else EntriesUpTo(g, img, base, n - 1) + [Low28(Raw(g, img, base, n - 1))]
  }

  function Entries(g: Geometry, img: Image, base: nat): (t: Table)
    requires Fits(g, img) && g.IsCopy(base)
    ensures |t| == g.ClustCnt()
  {
    EntriesUpTo(g, img, base, g.ClustCnt())
  }

  lemma {:induction false} EntryUpTo(g: Geometry, img: Image, base: nat, n: nat, c: nat)
    requires Fits(g, img) && g.IsCopy(base) && c < n <= g.ClustCnt()
    ensures EntriesUpTo(g, img, base, n)[c] == Low28(Raw(g, img, base, c))
  {
    if c == n - 1 {
    } else {
      EntryUpTo(g, img, base, n - 1, c);
    }
  }

  lemma EntryAt(g: Geometry, img: Image, base: nat)
    requires Fits(g, img) && g.IsCopy(base)
    ensures forall c :: 0 <= c < g.ClustCnt() ==> Entries(g, img, base)[c] == Low28(Raw(g, img, base, c))
  {
    forall c | 0 <= c < g.ClustCnt()
      ensures Entries(g, img, base)[c] == Low28(Raw(g, img, base, c))
    {
      EntryUpTo(g, img, base, g.ClustCnt(), c);
    }
  }

  /** The table: the entries of the active copy. */
  function Active(g: Geometry, img: Image): (t: Table)
    requires Fits(g, img)
    ensures |t| == g.ClustCnt()
  {
    Entries(g, img, g.fatSect)
  }

  /** The image after one entry of one copy was rewritten under its upper nibble. */
  function PutCopy(g: Geometry, img: Image, base: nat, c: nat, v: u32): (r: Image)
    requires Fits(g, img) && g.IsCopy(base) && c < g.ClustCnt()
    ensures Fits(g, r)
  {
    img[base + c / 128 := WithWord(img[base + c / 128], 4 * (c % 128), UnderNibble(Raw(g, img, base, c), v))]
  }

  /** The image after an entry was rewritten in every copy in use, mirror first. */
  function Put(g: Geometry, img: Image, c: nat, v: u32): (r: Image)
    requires Fits(g, img) && c < g.ClustCnt()
    ensures Fits(g, r)
  {
    PutCopy(g, if g.mirrorSect != 0 then PutCopy(g, img, g.mirrorSect, c, v) else img, g.fatSect, c, v)
  }

  /** When mirroring is on, the two copies agree on the value of every entry. */
  ghost predicate Mirrored(g: Geometry, img: Image)
    requires Fits(g, img)
  {
    g.mirrorSect != 0 ==> Entries(g, img, g.mirrorSect) == Active(g, img)
  }

  /** The first `n` sectors, without the tables and the info sector. */
  function DataUpTo(g: Geometry, img: Image, n: nat): (d: seq<Sector>)
    requires Fits(g, img) && n <= |img|
    ensures |d| == n
  {
    if n == 0 then [] else DataUpTo(g, img, n - 1) + [if g.Outside(n - 1) then img[n - 1] else seq(512, i => 0)]
  }

  /** The upper nibbles of the first `n` entries of one copy. */
  function NibblesUpTo(g: Geometry, img: Image, base: nat, n: nat): (d: seq<nat>)
    requires Fits(g, img) && g.IsCopy(base) && n <= g.ClustCnt()
    ensures |d| == n
  {
    if n == 0 then [] else NibblesUpTo(g, img, base, n - 1) + [Nibble(Raw(g, img, base, n - 1))]
  }

  /** All of a volume that table operations must leave alone: the sectors outside the tables and the info
      sector, and the upper nibbles of both copies. */
  datatype Rest = Rest(data: seq<Sector>, nibbles: seq<nat>, mirrorNibbles: seq<nat>)

  function RestOf(g: Geometry, img: Image): Rest
    requires Fits(g, img)
  {
    Rest(DataUpTo(g, img, |img|), NibblesUpTo(g, img, g.fatSect, g.ClustCnt()),
         if g.mirrorSect == 0 then [] else NibblesUpTo(g, img, g.mirrorSect, g.ClustCnt()))
  }

  /** What every table operation does to a volume: the rest of it stays, and agreeing copies go on agreeing. */
  ghost predicate TableStep(g: Geometry, img: Image, img': Image)
    requires Fits(g, img) && Fits(g, img')
  {
    && RestOf(g, img') == RestOf(g, img)
    && (Mirrored(g, img) ==> Mirrored(g, img'))
  }

  lemma {:induction false} DataAt(g: Geometry, img: Image, n: nat, s: nat)
    requires Fits(g, img) && s < n <= |img|
    ensures DataUpTo(g, img, n)[s] == if g.Outside(s) then img[s] else seq(512, i => 0)
  {
    if s == n - 1 {
    } else {
      DataAt(g, img, n - 1, s);
    }
  }

  lemma {:induction false} NibbleAt(g: Geometry, img: Image, base: nat, n: nat, c: nat)
    requires Fits(g, img) && g.IsCopy(base) && c < n <= g.ClustCnt()
    ensures NibblesUpTo(g, img, base, n)[c] == Nibble(Raw(g, img, base, c))
  {
    if c == n - 1 {
    } else {
      NibbleAt(g, img, base, n - 1, c);
    }
  }

  lemma DataSame(g: Geometry, img: Image, img': Image)
    requires Fits(g, img) && Fits(g, img')
    ensures DataUpTo(g, img, |img|) == DataUpTo(g, img', |img|) <==>
            forall s :: 0 <= s < |img| && g.Outside(s) ==> img[s] == img'[s]
  {
    forall s: nat | s < |img|
      ensures DataUpTo(g, img, |img|)[s] == if g.Outside(s) then img[s] else seq(512, i => 0)
      ensures DataUpTo(g, img', |img|)[s] == if g.Outside(s) then img'[s] else seq(512, i => 0)
    {
      DataAt(g, img, |img|, s);
      DataAt(g, img', |img|, s);
    }
  }

  lemma NibblesSame(g: Geometry, img: Image, img': Image, base: nat)
    requires Fits(g, img) && Fits(g, img') && g.IsCopy(base)
    ensures NibblesUpTo(g, img, base, g.ClustCnt()) == NibblesUpTo(g, img', base, g.ClustCnt()) <==>
            forall c :: 0 <= c < g.ClustCnt() ==> Nibble(Raw(g, img, base, c)) == Nibble(Raw(g, img', base, c))
  {
    var n, n' := NibblesUpTo(g, img, base, g.ClustCnt()), NibblesUpTo(g, img', base, g.ClustCnt());
    forall c: nat | c < g.ClustCnt()
      ensures n[c] == Nibble(Raw(g, img, base, c)) && n'[c] == Nibble(Raw(g, img', base, c))
    {
      NibbleAt(g, img, base, g.ClustCnt(), c);
      NibbleAt(g, img', base, g.ClustCnt(), c);
    }
  }

  /** The rest of the volume is the same exactly when every sector outside the tables and the info sector is,
      and every upper nibble of the copies in use. */
  lemma RestSame(g: Geometry, img: Image, img': Image)
    requires Fits(g, img) && Fits(g, img')
    ensures RestOf(g, img) == RestOf(g, img') <==>
            && (forall s :: 0 <= s < |img| && g.Outside(s) ==> img[s] == img'[s])
            && (forall base, c {:trigger Raw(g, img, base, c)} :: g.IsCopy(base) && 0 <= c < g.ClustCnt() ==>
                  Nibble(Raw(g, img, base, c)) == Nibble(Raw(g, img', base, c)))
  {
    DataSame(g, img, img');
    NibblesSame(g, img, img', g.fatSect);
    if g.mirrorSect != 0 {
      NibblesSame(g, img, img', g.mirrorSect);
    }
  }

  lemma SameSectorSameCopy(g: Geometry, base: nat, c: nat, base': nat, c': nat)
    requires g.IsCopy(base) && c < g.ClustCnt() && g.IsCopy(base') && c' < g.ClustCnt()
    requires base' + c' / 128 == base + c / 128
    ensures base' == base && c' / 128 == c / 128
  {
  }

  lemma RawAfterPutCopy(g: Geometry, img: Image, base: nat, c: nat, v: u32, base': nat, c': nat)
    requires Fits(g, img) && g.IsCopy(base) && c < g.ClustCnt() && g.IsCopy(base') && c' < g.ClustCnt()
    ensures Raw(g, PutCopy(g, img, base, c, v), base', c') ==
            (var w := Raw(g, img, base', c'); if base' == base && c' == c then UnderNibble(w, v) else w)
  {
    WordThere(img[base + c / 128], 4 * (c % 128), UnderNibble(Raw(g, img, base, c), v));
    if base' + c' / 128 == base + c / 128 {
      SameSectorSameCopy(g, base, c, base', c');
      if c' != c {
        WordElsewhere(img[base + c / 128], 4 * (c % 128), UnderNibble(Raw(g, img, base, c), v), 4 * (c' % 128));
      }
    }
  }

  lemma EntriesAfterPutCopy(g: Geometry, img: Image, base: nat, c: nat, v: u32, base': nat)
    requires Fits(g, img) && g.IsCopy(base) && c < g.ClustCnt() && g.IsCopy(base')
    ensures Entries(g, PutCopy(g, img, base, c, v), base') ==
            if base' == base then Entries(g, img, base)[c := Low28(v)] else Entries(g, img, base')
    ensures RestOf(g, PutCopy(g, img, base, c, v)) == RestOf(g, img)
  {
    var r := PutCopy(g, img, base, c, v);
    forall b: nat, c': nat | g.IsCopy(b) && c' < g.ClustCnt()
      ensures Nibble(Raw(g, r, b, c')) == Nibble(Raw(g, img, b, c'))
      ensures Low28(Raw(g, r, b, c')) == if b == base && c' == c then Low28(v) else Low28(Raw(g, img, b, c'))
    {
      RawAfterPutCopy(g, img, base, c, v, b, c');
      UnderNibbleParts(Raw(g, img, b, c'), v);
    }
    EntryAt(g, img, base');
    EntryAt(g, r, base');
    PutCopyOutside(g, img, base, c, v);
    RestSame(g, r, img);
  }

  lemma PutCopyOutside(g: Geometry, img: Image, base: nat, c: nat, v: u32)
    requires Fits(g, img) && g.IsCopy(base) && c < g.ClustCnt()
    ensures forall s :: 0 <= s < |img| && g.Outside(s) ==> PutCopy(g, img, base, c, v)[s] == img[s]
  {
    assert g.InTable(base, base + c / 128);
  }

  lemma PutEntries(g: Geometry, img: Image, c: nat, v: u32, base: nat)
    requires Fits(g, img) && c < g.ClustCnt() && g.IsCopy(base)
    ensures Entries(g, Put(g, img, c, v), base) == Entries(g, img, base)[c := Low28(v)]
    ensures RestOf(g, Put(g, img, c, v)) == RestOf(g, img)
  {
    if g.mirrorSect != 0 {
      var mid := PutCopy(g, img, g.mirrorSect, c, v);
      EntriesAfterPutCopy(g, img, g.mirrorSect, c, v, base);
      EntriesAfterPutCopy(g, mid, g.fatSect, c, v, base);
    } else {
      EntriesAfterPutCopy(g, img, g.fatSect, c, v, base);
    }
  }

  /** Rewriting an entry in every copy changes that entry of the table and nothing else, keeps every
      upper nibble of both copies, and leaves mirrored copies mirrored. */
  lemma PutChangesOneEntry(g: Geometry, img: Image, c: nat, v: u32)
    requires Fits(g, img) && c < g.ClustCnt()
    ensures Active(g, Put(g, img, c, v)) == Active(g, img)[c := Low28(v)]
    ensures TableStep(g, img, Put(g, img, c, v))
  {
    PutEntries(g, img, c, v, g.fatSect);
    if g.mirrorSect != 0 {
      PutEntries(g, img, c, v, g.mirrorSect);
    }
  }
}
