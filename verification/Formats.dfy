/** Where everything lies on the disk, and what the numbers there mean, written out in bytes and offsets. The functions
    that the rest of the model works with come to just this. */
module Formats {
  import opened Bytes
  import opened Table
  import opened Chains
  import opened Names
  import opened Slots
  import opened NewEntry
  import opened Sectors
  import opened Contents
  import opened Files
  import opened Listing

  // ---- shifts and masks are products, quotients and remainders ----

  lemma {:induction false} ShlIsProduct(n: nat, k: nat)
    ensures Shl(n, k) == n * Shl(1, k)
  {
    if k == 0 {
    } else {
      ShlIsProduct(n, k - 1);
    }
  }

  lemma ShrIsQuotient(n: nat, k: nat)
    ensures Shl(1, k) > 0 && Shr(n, k) == n / Shl(1, k) && LowBits(n, k) == n % Shl(1, k)
  {
    ShiftParts(n, k);
    ShlIsProduct(Shr(n, k), k);
    DivMod(n, Shl(1, k), Shr(n, k), LowBits(n, k));
  }

  lemma DivMod(n: nat, d: nat, q: nat, r: nat)
    requires r < d && n == q * d + r
    ensures n / d == q && n % d == r
  {
    var p := n / d;
    DivUnique(n, d, q, r);
    assert n == d * p + n % d;
  }

  // ---- the table ----

  /** An entry of the table is a word of four bytes; its upper four bits do not belong to its value. */
  lemma EntryOnDisk(g: Geometry, img: Image, c: nat, w: u32)
    requires Fits(g, img) && c < g.ClustCnt()
    requires HoldsWord(img[g.fatSect + c / 128], 4 * (c % 128), w)
    ensures Active(g, img)[c] == w % 0x1000_0000 && Nibble(Raw(g, img, g.fatSect, c)) == w / 0x1000_0000
  {
    EntryAt(g, img, g.fatSect);
    WordHolds(img[g.fatSect + c / 128], 4 * (c % 128));
    ShrIsQuotient(w, 28);
    Shl28(1);
  }

  /** What a value in the table stands for, on a volume of `cnt` entries, and the flags that go with it. */
  lemma KindIs(v: u32, cnt: nat)
    requires v < 0x1000_0000 && cnt <= 0x0fff_fff7
    ensures KindOf(v, cnt) == Free <==> v == 0
    ensures KindOf(v, cnt) == Bad <==> v == 0x0fff_fff7
    ensures KindOf(v, cnt) == Last <==> v > 0x0fff_fff7
    ensures KindOf(v, cnt) == Link <==> 2 <= v < cnt
    ensures FlagsOf(KindOf(v, cnt)) == if v == 0 then 1 else if v == 0x0fff_fff7 then 8 else if v > 0x0fff_fff7 then 6
                                       else 2
  {
  }

  /** Taking a cluster: its entry becomes 0x0fffffff, that of the old end of the chain, if there is one, its number; and
      no other entry changes. */
  lemma TakenIs(a: Alloc, prev: nat, c: nat, b: Alloc)
    requires Ready(a) && prev < |a.table| && 2 <= c < |a.table| && prev != c && b == Taken(a, prev, c)
    ensures |b.table| == |a.table| && b.lastUsed == c && (b.freeCnt - (a.freeCnt - 1)) % 0x1_0000_0000 == 0
    ensures forall i :: 0 <= i < |a.table| ==>
              b.table[i] == if i == c then 0x0fff_ffff else if prev != 0 && i == prev then c else a.table[i]
  {
  }

  // ---- clusters, sectors, bytes ----

  /** Byte `i` of a file, which is byte `b` in sector `j` of the `n`-th cluster of its chain; `s` is that sector of the
      disk. */
  lemma ByteOnDisk(g: Geometry, img: Image, chain: seq<nat>, i: nat, spc: nat, n: nat, j: nat, b: nat, k: nat, s: int)
    requires Fits(g, img) && AllClusters(g, chain) && spc == Spc(g) && i < |BytesOf(g, img, chain)|
    requires i == 512 * k + b && b < 512 && k == n * spc + j && j < spc
    ensures n < |chain| && 2 <= chain[n]
    ensures s == g.dataSect + (chain[n] - 2) * spc + j ==> 0 <= s < |img| && BytesOf(g, img, chain)[i] == img[s][b]
  {
    SectorOnDisk(g, chain, k, spc, n, j);
    ByteInSector(g, img, chain, k, b, i);
  }

  lemma SectorOnDisk(g: Geometry, chain: seq<nat>, k: nat, spc: nat, n: nat, j: nat)
    requires AllClusters(g, chain) && spc == Spc(g) && k < SectCnt(g, chain) && k == n * spc + j && j < spc
    ensures n < |chain| && 2 <= chain[n] && SectAt(g, chain, k) == g.dataSect + (chain[n] - 2) * spc + j
  {
    SectorParts(g, chain, k);
    ShlIsProduct(n, g.shift);
    ShiftPartsUnique(n, j, g.shift);
    ClusterOf(g, chain, n);
    ShlIsProduct(chain[n] - 2, g.shift);
  }

  lemma ByteInSector(g: Geometry, img: Image, chain: seq<nat>, k: nat, b: nat, i: nat)
    requires Fits(g, img) && AllClusters(g, chain) && k < SectCnt(g, chain) && b < 512 && i == 512 * k + b
    ensures i < |BytesOf(g, img, chain)| && BytesOf(g, img, chain)[i] == img[SectAt(g, chain, k)][b]
  {
    SectorOfBytes(g, img, chain, k);
    assert BytesOf(g, img, chain)[512 * k..512 * k + 512][b] == BytesOf(g, img, chain)[i];
  }

  /** The slots of a directory are the bytes of its chain, cut into pieces of 32. */
  lemma SlotsAreBytes(g: Geometry, img: Image, chain: seq<nat>, k: nat)
    requires Fits(g, img) && AllClusters(g, chain) && k < SlotCnt(g, chain)
    ensures 32 * k + 32 <= |BytesOf(g, img, chain)|
    ensures SlotsOf(g, img, chain)[k] == BytesOf(g, img, chain)[32 * k..32 * k + 32]
  {
    var o := 32 * k;
    SlotOf(g, img, chain, k);
    SlotOffset(k, o);
    BytesAt(g, img, chain, o, 32);
  }

  lemma SlotOffset(k: nat, o: nat)
    requires o == 32 * k
    ensures o / 512 == k / 16 && o % 512 == 32 * (k % 16)
  {
  }

  // ---- short entries ----

  /** The first cluster that a short entry names, and its size. */
  lemma SfnFieldsAre(s: Slot)
    ensures HoldsHalf(s, 26, SfnCluster(s) % 0x1_0000) && HoldsHalf(s, 20, SfnCluster(s) / 0x1_0000)
    ensures HoldsWord(s, 28, SfnSize(s))
  {
    ValueOf2(s[20..22]);
    ValueOf2(s[26..28]);
    ValueOf4(s[28..32]);
    WordAt(s, 28, s[28..32], SfnSize(s));
  }

  /** The short entry of a file after a sync: the date of the access at 18; size, date and time of the change at 28, 24
      and 22, and the archive bit in the attributes, if the file was changed; all else as it was. */
  lemma StampedIs(s: Slot, modified: bool, accessed: bool, size: u32, time: u16, date: u16)
    ensures var r := Stamped(s, modified, accessed, size, time, date);
            && (accessed ==> HoldsHalf(r, 18, date))
            && (modified ==> HoldsHalf(r, 22, time) && HoldsHalf(r, 24, date) && HoldsWord(r, 28, size))
            && r[11] == (if modified && s[11] / 32 % 2 == 0 then s[11] + 32 else s[11])
            && forall i: nat :: i < 32 && i != 11 && !(accessed && 18 <= i < 20) ==>
                 !(modified && (22 <= i < 26 || 28 <= i)) ==> r[i] == s[i]
  {
    SpellHalf(date);
    var t: Slot := if accessed then Patched(s, 18, Spell(date, 2)) else s;
    AccessIs(s, accessed, date, t);
    if modified {
      ChangeIs(t, size, time, date);
    }
  }

  lemma AccessIs(s: Slot, accessed: bool, date: u16, t: Slot)
    requires t == if accessed then Patched(s, 18, Spell(date, 2)) else s
    ensures accessed ==> HoldsHalf(t, 18, date)
    ensures forall i: nat :: i < 32 && !(accessed && 18 <= i < 20) ==> t[i] == s[i]
  {
    SpellHalf(date);
    if accessed {
      HalfAt(t, 18, Spell(date, 2), date);
    }
  }

  lemma ChangeIs(t: Slot, size: u32, time: u16, date: u16)
    ensures var r := Stamped(t, true, false, size, time, date);
            && HoldsHalf(r, 22, time) && HoldsHalf(r, 24, date) && HoldsWord(r, 28, size)
            && r[11] == (if t[11] / 32 % 2 == 0 then t[11] + 32 else t[11])
            && forall i: nat :: i < 32 && i != 11 && !(22 <= i < 26 || 28 <= i) ==> r[i] == t[i]
  {
    SpellHalf(time);
    SpellHalf(date);
    SpellLong(size);
    ShrIsQuotient(t[11], 5);
    assert Shl(1, 5) == 32;
    var a: Slot := Patched(t, 11, [SetArchive(t[11])]);
    var b: Slot := Patched(a, 28, Spell(size, 4));
    var c: Slot := Patched(b, 24, Spell(date, 2));
    var r: Slot := Patched(c, 22, Spell(time, 2));
    SliceKept(b, 24, Spell(date, 2), 28, 32);
    SliceKept(c, 22, Spell(time, 2), 28, 32);
    SliceKept(c, 22, Spell(time, 2), 24, 26);
    HalfAt(r, 22, Spell(time, 2), time);
    HalfAt(r, 24, Spell(date, 2), date);
    WordAt(r, 28, Spell(size, 4), size);
  }

  // ---- long names ----

  /** Character `k` of a fragment lies in the two bytes at `at`: behind the last one comes a zero, and then 0xffff. */
  ghost predicate CharIs(s: Slot, at: nat, frag: seq<byte>, k: nat) {
    HoldsHalf(s, at, if k < |frag| then frag[k] else if k == |frag| then 0 else 0xffff)
  }

  /** A slot with a fragment of a long name, byte by byte. */
  lemma LfnSlotIs(frag: seq<byte>, seqNo: byte, crc: byte)
    ensures var s := LfnSlot(frag, seqNo, crc);
            && s[0] == seqNo && s[11] == 0x0f && s[12] == 0 && s[13] == crc && s[26] == 0 && s[27] == 0
            && CharIs(s, 1, frag, 0) && CharIs(s, 3, frag, 1) && CharIs(s, 5, frag, 2) && CharIs(s, 7, frag, 3)
            && CharIs(s, 9, frag, 4) && CharIs(s, 14, frag, 5) && CharIs(s, 16, frag, 6) && CharIs(s, 18, frag, 7)
            && CharIs(s, 20, frag, 8) && CharIs(s, 22, frag, 9) && CharIs(s, 24, frag, 10) && CharIs(s, 28, frag, 11)
            && CharIs(s, 30, frag, 12)
  {
    forall p: nat | p < 32
      ensures LfnSlot(frag, seqNo, crc)[p] == LfnByte(frag, seqNo, crc, p)
    {
      LfnBytesAt(frag, seqNo, crc, 32, p);
    }
  }

  /** How the head of a set of long-name slots is told, and how many slots it announces. */
  lemma HeadIs(s: Slot)
    ensures HasHeadMark(s) <==> s[0] / 64 % 2 == 1
    ensures LfnCount(s) == s[0] % 32
  {
    ShrIsQuotient(s[0], 6);
    ShrIsQuotient(s[0], 5);
    assert Shl(1, 6) == 64 && Shl(1, 5) == 32;
  }

  /** The checksum of the short name of "readme.txt", which every driver for these volumes must agree on. */
  lemma CrcOfReadme(n: Name11)
    requires n == [0x52, 0x45, 0x41, 0x44] + [0x4d, 0x45, 0x20, 0x20] + [0x54, 0x58, 0x54]
    ensures Crc(n) == 0x73
  {
    assert CrcUpTo(n, 1) == 0x52;
    assert CrcUpTo(n, 2) == 0x6e;
    assert CrcUpTo(n, 3) == 0x78;
    assert CrcUpTo(n, 4) == 0x80;
    assert CrcUpTo(n, 5) == 0x8d;
    assert CrcUpTo(n, 6) == 0x0b;
    assert CrcUpTo(n, 7) == 0xa5;
    assert CrcUpTo(n, 8) == 0xf2;
    assert CrcUpTo(n, 9) == 0xcd;
    assert CrcUpTo(n, 10) == 0x3e;
    assert CrcUpTo(n, 11) == 0x73;
  }

  // ---- listing ----

  /** What is listed for an entry that was just made. */
  lemma NewEntryIsListed(name: seq<byte>, attr: byte, clust: u32, time: u16, date: u16, k: nat)
    requires 1 <= |name| <= 255 && Plain(name) && attr != ATTR_LFN
    ensures InfoOf(Entry(k, NewSlots(name, attr, clust, time, date))) == Info(name, 0, attr)
  {
    var new_ := NewSlots(name, attr, clust, time, date);
    NewEntryReads(name, attr, clust, time, date);
    SfnSlotReads(SfnName(name), attr, clust, time, date);
    ListedAs(new_, k, name, |new_| - 1);
  }

  lemma ListedAs(new_: seq<Slot>, k: nat, name: seq<byte>, n: nat)
    requires n > 0 && |new_| == n + 1 && TextAt(new_, 0, n) == name
    ensures InfoOf(Entry(k, new_)) == Info(name, SfnSize(new_[n]), new_[n][11])
  {
    assert NameOf(Entry(k, new_)) == TextAt(new_, 0, n);
  }

  /** What is listed for a short entry without a long name: the attributes at 11, the size at 28, and the name up to the
      first space in each part. */
  lemma ShortEntryIsListed(s: Slot, k: nat)
    ensures var i := InfoOf(Entry(k, [s])); i.attr == s[11] && HoldsWord(s, 28, i.size) && i.name == SfnText(s[..11])
  {
    SfnFieldsAre(s);
  }
}
