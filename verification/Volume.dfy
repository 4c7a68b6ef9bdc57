/** A mounted volume: the one-sector write-back cache, the table on top of it, and the cluster allocator. */
module Volume {
  import opened Bytes
  import opened Table
  import opened Chains
  import opened Codes
  import opened Sectors
  import opened Names

  /** Byte offsets of the two counters in the info sector. */
  const INFO_FREE_CNT: nat := 488
  const INFO_NEXT_FREE: nat := 492

  /** The info sector after its counters were set. */
  function InfoSector(s: Sector, freeCnt: u32, lastUsed: u32): Sector {
    WithWord(WithWord(s, INFO_NEXT_FREE, lastUsed), INFO_FREE_CNT, freeCnt)
  }

  /** The info sector, which was `was`, holds the free count and the last used cluster, and is otherwise as before. */
  predicate Counted(was: Sector, now: Sector, freeCnt: u32, lastUsed: u32) {
    && HoldsWord(now, 488, freeCnt) && HoldsWord(now, 492, lastUsed)
    && (forall i :: 0 <= i < 512 && !(488 <= i < 496) ==> now[i] == was[i])
  }

  lemma InfoSectorCounts(s: Sector, freeCnt: u32, lastUsed: u32)
    ensures Counted(s, InfoSector(s, freeCnt, lastUsed), freeCnt, lastUsed)
  {
    var t := WithWord(s, INFO_NEXT_FREE, lastUsed);
    var r := WithWord(t, INFO_FREE_CNT, freeCnt);
    WordThere(s, INFO_NEXT_FREE, lastUsed);
    WordElsewhere(t, INFO_FREE_CNT, freeCnt, INFO_NEXT_FREE);
    WordThere(t, INFO_FREE_CNT, freeCnt);
    WordHolds(r, INFO_FREE_CNT);
    WordHolds(r, INFO_NEXT_FREE);
  }

  class Fat {
    const geo: Geometry
    const buf: array<byte>
    /** The sectors of the device behind `ops.read` and `ops.write`. */
    var disk: Image
    /** Whether, after some physical write since this was last reset, a used entry of the table on the device
        linked to a free one. */
    ghost var torn: bool
    var sect: u32
    var bufDirty: bool
    var infoDirty: bool
    var lastUsed: u32
    var freeCnt: u32

    /** The logical disk: the device with the dirty buffer laid over it. */
    ghost var img: Image

    ghost predicate Valid()
      reads this, buf
    {
      && Fits(geo, disk)
      && buf.Length == 512
      && sect < |disk|
      && (bufDirty ==> sect != 0)
      && (!bufDirty && sect != 0 ==> buf[..] == disk[sect])
      && 2 <= lastUsed < geo.ClustCnt()
      && img == if bufDirty then disk[sect := buf[..]] else disk
    }

    ghost function Tab(): (t: Table)
      requires Fits(geo, img)
      reads `img
      ensures |t| == geo.ClustCnt() && Sized(t)
    {
      Active(geo, img)
    }

    ghost function State(): (a: Alloc)
      requires Fits(geo, img) && 2 <= lastUsed < geo.ClustCnt()
      reads `img, `lastUsed, `freeCnt
      ensures Ready(a)
    {
      Alloc(Tab(), lastUsed, freeCnt)
    }

    /** A volume as it is when mounting succeeds: sector 0 counts as buffered, which it is not. */
    constructor (geo: Geometry, disk: Image, lastUsed: u32, freeCnt: u32)
      requires Fits(geo, disk) && 2 <= lastUsed < geo.ClustCnt()
      ensures Valid() && fresh(buf)
      ensures this.geo == geo && img == disk && State() == Alloc(Active(geo, disk), lastUsed, freeCnt) && sect == 0
    {
      this.geo := geo;
      this.disk := disk;
      this.lastUsed := lastUsed;
      this.freeCnt := freeCnt;
      buf := new byte[512];
      img := disk;
      torn := false;
      sect := 0;
      bufDirty := false;
      infoDirty := false;
    }

    // ---- the device ----

    method Read(dst: array<byte>, s: nat)
      requires dst.Length == 512 && s < |disk|
      modifies dst
      ensures dst[..] == disk[s]
    {
      forall i | 0 <= i < 512 {
        dst[i] := disk[s][i];
      }
    }

    method Write(src: array<byte>, s: nat)
      requires Fits(geo, disk) && src.Length == 512 && s < |disk|
      modifies `disk, `torn
      ensures disk == old(disk)[s := src[..]]
      ensures torn == (old(torn) || !NoDangling(Active(geo, disk)))
    {
      disk := disk[s := src[..]];
      torn := torn || !NoDangling(Active(geo, disk));
    }

    // ---- the cache ----

    /** Flushing changes the device into the logical disk, by at most one write. */
    method SyncBuf()
      requires Valid()
      modifies `disk, `torn, `bufDirty
      ensures Valid() && !bufDirty
      ensures disk == img
      ensures NoDangling(Tab()) ==> torn == old(torn)
    {
      if bufDirty {
        Write(buf, sect);
        bufDirty := false;
      }
    }

    /** Buffering a sector leaves the logical disk alone and puts that sector of it into the buffer. */
    method UpdateBuf(s: nat)
      requires Valid() && 0 < s < |disk|
      modifies `disk, `torn, `bufDirty, `sect, buf
      ensures Valid()
      ensures sect == s && buf[..] == img[s]
      ensures bufDirty ==> old(bufDirty) && old(sect) == s
      ensures NoDangling(old(Tab())) ==> torn == old(torn)
    {
      if sect != s {
        SyncBuf();
        Read(buf, s);
        sect := s;
      }
    }

    /** Puts the counters into the info sector and writes it out. */
    method WriteInfo()
      requires Valid() && !bufDirty
      modifies `img, `disk, `torn, `bufDirty, `sect, buf
      ensures Valid() && !bufDirty && sect == geo.infoSect
      ensures img == old(img)[geo.infoSect := InfoSector(old(img)[geo.infoSect], freeCnt, lastUsed)]
      ensures Counted(old(img)[geo.infoSect], disk[geo.infoSect], freeCnt, lastUsed)
      ensures NoDangling(Tab()) ==> torn == old(torn)
    {
      InfoSectorCounts(img[geo.infoSect], freeCnt, lastUsed);
      InfoOutsideTables(geo, img, InfoSector(img[geo.infoSect], freeCnt, lastUsed));
      StoreInfo();
      SyncBuf();
    }

    /** Puts the counters into the info sector in the buffer. */
    method StoreInfo()
      requires Valid() && !bufDirty
      modifies `img, `disk, `torn, `bufDirty, `sect, buf
      ensures Valid() && sect == geo.infoSect
      ensures img == old(img)[geo.infoSect := InfoSector(old(img)[geo.infoSect], freeCnt, lastUsed)]
      ensures NoDangling(old(Tab())) ==> torn == old(torn)
    {
      UpdateBuf(geo.infoSect);
      bufDirty := true;
      StoreWord(buf, INFO_NEXT_FREE, lastUsed);
      StoreWord(buf, INFO_FREE_CNT, freeCnt);
      img := disk[sect := buf[..]];
    }

    /** After a sync the device is the logical disk, and when the info flag was set the info sector holds the
        counters, everything else being as it was. */
    method SyncFs()
      requires Valid()
      modifies `img, `disk, `torn, `bufDirty, `sect, `infoDirty, buf
      ensures Valid() && !bufDirty && !infoDirty
      ensures disk == img
      ensures img == if !old(infoDirty) then old(img)
                       else old(img)[geo.infoSect := InfoSector(old(img)[geo.infoSect], freeCnt, lastUsed)]
      ensures old(infoDirty) ==> Counted(old(img)[geo.infoSect], disk[geo.infoSect], freeCnt, lastUsed)
      ensures sect == old(sect) || sect == geo.infoSect
      ensures Tab() == old(Tab()) && TableStep(geo, old(img), img)
      ensures NoDangling(old(Tab())) ==> torn == old(torn)
    {
      SyncBuf();
      if infoDirty {
        InfoOutsideTables(geo, img, InfoSector(img[geo.infoSect], freeCnt, lastUsed));
        WriteInfo();
        infoDirty := false;
      }
    }

    // ---- table entries ----

    method GetFat(clust: nat) returns (err: int, val: u32, kind: Kind)
      requires Valid() && clust < geo.ClustCnt()
      modifies `disk, `torn, `bufDirty, `sect, buf
      ensures Valid()
      ensures val == Tab()[clust] && kind == KindOf(val, geo.ClustCnt())
      ensures err == if kind.Broken? then ERR_BROKEN else ERR_NONE
      ensures geo.InTable(geo.fatSect, sect)
      ensures NoDangling(old(Tab())) ==> torn == old(torn)
    {
      UpdateBuf(geo.fatSect + clust / 128);
      val := Low28(Word(buf[..], 4 * (clust % 128)));
      EntryAt(geo, img, geo.fatSect);
      kind := KindOf(val, geo.ClustCnt());
      err := if kind.Broken? then ERR_BROKEN else ERR_NONE;
    }

    /** Rewrites an entry of one copy in the buffer. */
    method PutFat2(base: nat, clust: nat, val: u32)
      requires Valid() && geo.IsCopy(base) && clust < geo.ClustCnt()
      modifies `img, `disk, `torn, `bufDirty, `sect, buf
      ensures Valid() && bufDirty
      ensures img == PutCopy(geo, old(img), base, clust, val)
      ensures geo.InTable(base, sect) && img[geo.infoSect] == old(img)[geo.infoSect]
      ensures NoDangling(old(Tab())) ==> torn == old(torn)
    {
      UpdateBuf(base + clust / 128);
      var at := 4 * (clust % 128);
      PutWord(at, UnderNibble(Word(buf[..], at), val));
    }

    /** Stores a word in the buffered sector. */
    method PutWord(at: nat, w: u32)
      requires Valid() && 0 < sect && buf[..] == img[sect] && at + 4 <= 512
      modifies `img, `bufDirty, buf
      ensures Valid() && bufDirty
      ensures img == old(img)[sect := WithWord(old(img)[sect], at, w)]
    {
      StoreWord(buf, at, w);
      bufDirty := true;
      img := disk[sect := buf[..]];
    }

    /** Rewrites an entry in every copy in use. Up to its end, only the old table reaches the device. */
    method PutFat(clust: nat, val: u32)
      requires Valid() && clust < geo.ClustCnt()
      modifies `img, `disk, `torn, `bufDirty, `sect, buf
      ensures Valid() && bufDirty
      ensures Tab() == old(Tab())[clust := Low28(val)] && TableStep(geo, old(img), img)
      ensures img[geo.infoSect] == old(img)[geo.infoSect]
      ensures geo.InTable(geo.fatSect, sect)
      ensures NoDangling(old(Tab())) ==> torn == old(torn)
    {
      PutChangesOneEntry(geo, img, clust, val);
      if geo.mirrorSect != 0 {
        EntriesAfterPutCopy(geo, img, geo.mirrorSect, clust, val, geo.fatSect);
        PutFat2(geo.mirrorSect, clust, val);
        PutFat2(geo.fatSect, clust, val);
      } else {
        PutFat2(geo.fatSect, clust, val);
      }
    }

    // ---- the cluster allocator ----

    method SetCounters(last: u32, free: u32)
      requires Valid() && 2 <= last < geo.ClustCnt()
      modifies `lastUsed, `freeCnt
      ensures Valid() && lastUsed == last && freeCnt == free
    {
      lastUsed := last;
      freeCnt := free;
    }

    /** One step of a removal: frees entry `c` if it belongs to a chain. */
    method FreeEntry(c: nat) returns (err: int, next: nat, kind: Kind)
      requires Valid() && c < geo.ClustCnt()
      modifies `img, `disk, `torn, `bufDirty, `sect, `lastUsed, `freeCnt, buf
      ensures Valid()
      ensures next == old(Tab())[c] && kind == KindOf(next, geo.ClustCnt())
      ensures if kind == Link || kind == Last
              then err == ERR_NONE && State() == Alloc(old(Tab())[c := FREE], old(lastUsed), Inc32(old(freeCnt)))
              else err == ERR_BROKEN && State() == old(State())
      ensures TableStep(geo, old(img), img) && img[geo.infoSect] == old(img)[geo.infoSect]
      ensures NoDangling(old(Tab())) ==> torn == old(torn)
    {
      err, next, kind := GetFat(c);
      if err != ERR_NONE {
        return;
      }
      if kind == Bad || kind == Free {
        err := ERR_BROKEN;
        return;
      }
      SmallIsLow28(FREE);
      PutFat(c, FREE);
      SetCounters(lastUsed, Inc32(freeCnt));
    }

    /** One round of a removal: frees entry `c` if it belongs to a chain, and says what is left to remove. */
    method FreeRound(c: nat) returns (err: int, next: nat, kind: Kind)
      requires Valid() && c < geo.ClustCnt()
      modifies `img, `disk, `torn, `bufDirty, `sect, `lastUsed, `freeCnt, buf
      ensures Valid() && TableStep(geo, old(img), img) && img[geo.infoSect] == old(img)[geo.infoSect]
      ensures if err != ERR_NONE then err == ERR_BROKEN && Remove(old(State()), c) == (State(), false)
              else if kind == Last then Remove(old(State()), c) == (State(), true)
              else
                && next < geo.ClustCnt() && Remove(old(State()), c) == Remove(State(), next)
                && Used(Tab()) < Used(old(Tab()))
      ensures Detached(old(Tab()), c) ==>
                torn == old(torn) && NoDangling(Tab()) && (err == ERR_NONE && kind != Last ==> Detached(Tab(), next))
    {
      ghost var t := Tab();
      err, next, kind := FreeEntry(c);
      if err == ERR_NONE {
        FreeingShrinksUse(t, c);
        if Detached(t, c) {
          FreeingKeepsDetached(t, c);
        }
      }
    }

    /** The loop of a removal. It ends on every table, cyclic ones too, since each step turns a used entry
        into a free one. */
    method FreeEntries(clust: nat) returns (err: int)
      requires Valid() && clust < geo.ClustCnt()
      modifies `img, `disk, `torn, `bufDirty, `sect, `lastUsed, `freeCnt, buf
      ensures Valid() && State() == Remove(old(State()), clust).0
      ensures err == if Remove(old(State()), clust).1 then ERR_NONE else ERR_BROKEN
      ensures TableStep(geo, old(img), img) && img[geo.infoSect] == old(img)[geo.infoSect]
      ensures Detached(old(Tab()), clust) ==> torn == old(torn) && NoDangling(Tab())
    {
      var c: nat := clust;
      while true
        invariant Valid() && c < geo.ClustCnt()
        invariant Remove(State(), c) == Remove(old(State()), clust)
        invariant TableStep(geo, old(img), img) && img[geo.infoSect] == old(img)[geo.infoSect]
        invariant Detached(old(Tab()), clust) ==> torn == old(torn) && Detached(Tab(), c)
        decreases Used(Tab())
      {
        var next, kind;
        err, next, kind := FreeRound(c);
        if err != ERR_NONE {
          return;
        }
        c := next;
        if kind == Last {
          return;
        }
      }
    }

    /** Frees a chain from `clust` on, and brings the device up to date when it came to the chain's end. */
    method RemoveChain(clust: nat) returns (err: int)
      requires Valid() && clust < geo.ClustCnt()
      modifies this, buf
      ensures Valid() && State() == Remove(old(State()), clust).0
      ensures err == if Remove(old(State()), clust).1 then ERR_NONE else ERR_BROKEN
      ensures err == ERR_NONE ==> disk == img && !bufDirty && !infoDirty
      ensures err == ERR_NONE ==> Counted(old(img)[geo.infoSect], disk[geo.infoSect], freeCnt, lastUsed)
      ensures TableStep(geo, old(img), img)
      ensures Detached(old(Tab()), clust) ==> torn == old(torn) && NoDangling(Tab())
    {
      infoDirty := true;
      err := FreeEntries(clust);
      if err != ERR_NONE {
        return;
      }
      SyncFs();
    }

    /** The circular scan. `flags` are those of the last entry read before; a failed table read hands them on as
        the error code. */
    method Scan(flags: int) returns (found: bool, err: int, clust: nat)
      requires Valid()
      modifies `disk, `torn, `bufDirty, `sect, buf
      ensures Valid()
      ensures match ScanAfter(Tab(), lastUsed, lastUsed)
              case At(c) => found && err == ERR_NONE && clust == c
              case Full => !found && err == ERR_FULL
              case Unreadable => !found && err == ScanFlags(Tab(), lastUsed, lastUsed, flags)
      ensures NoDangling(old(Tab())) ==> torn == old(torn)
      ensures sect == old(sect) || geo.InTable(geo.fatSect, sect)
    {
      found, clust := false, lastUsed;
      var last := flags;
      while true
        invariant Valid()
        invariant 2 <= clust < geo.ClustCnt()
        invariant ScanAfter(Tab(), clust, lastUsed) == ScanAfter(Tab(), lastUsed, lastUsed)
        invariant ScanFlags(Tab(), clust, lastUsed, last) == ScanFlags(Tab(), lastUsed, lastUsed, flags)
        invariant NoDangling(old(Tab())) ==> torn == old(torn)
        invariant sect == old(sect) || geo.InTable(geo.fatSect, sect)
        decreases StepsFrom(geo.ClustCnt(), clust, lastUsed)
      {
        clust := if clust + 1 >= geo.ClustCnt() then 2 else clust + 1;
        if clust == lastUsed {
          err := ERR_FULL;
          return;
        }
        var next, kind;
        err, next, kind := GetFat(clust);
        if err != ERR_NONE {
          err := last;
          return;
        }
        last := FlagsOf(kind);
        if kind == Free {
          found := true;
          return;
        }
      }
    }

    /** The cluster that an allocation behind `prev` takes. */
    method FindCluster(prev: nat) returns (found: bool, err: int, clust: nat)
      requires Valid() && prev < geo.ClustCnt()
      modifies `disk, `torn, `bufDirty, `sect, buf
      ensures Valid()
      ensures match Choose(Tab(), prev, lastUsed)
              case At(c) => found && err == ERR_NONE && clust == c
              case _ => !found && FailsWith(Tab(), prev, lastUsed, err)
      ensures NoDangling(old(Tab())) ==> torn == old(torn)
      ensures sect == old(sect) || geo.InTable(geo.fatSect, sect)
    {
      var unset: byte := *;
      var flags: int := unset;
      found := false;
      if prev != 0 {
        clust := if prev + 1 >= geo.ClustCnt() then 2 else prev + 1;
        var next, kind;
        err, next, kind := GetFat(clust);
        if err != ERR_NONE {
          return;
        }
        flags := FlagsOf(kind);
        if kind == Free {
          found := true;
          return;
        }
      }
      found, err, clust := Scan(flags);
      if prev == 0 && ScanAfter(Tab(), lastUsed, lastUsed).Unreadable? {
        FailsWithoutFlags(Tab(), lastUsed, err, unset);
      }
    }

    /** Cluster `c` is the one that was taken last, and there is one free cluster less than there were, `free`. */
    predicate CountsTaken(c: nat, free: u32)
      reads `lastUsed, `freeCnt
    {
      lastUsed == c && freeCnt == if free == 0 then 0xffff_ffff else free - 1
    }

    /** Marks `clust` as the end of a chain, and only then links it behind `prev`. */
    method TakeCluster(prev: nat, clust: nat)
      requires Valid() && prev < geo.ClustCnt() && 2 <= clust < geo.ClustCnt()
      modifies this, buf
      ensures Valid() && State() == Taken(old(State()), prev, clust) && infoDirty == old(infoDirty)
      ensures CountsTaken(clust, old(freeCnt))
      ensures geo.InTable(geo.fatSect, sect)
      ensures TableStep(geo, old(img), img) && img[geo.infoSect] == old(img)[geo.infoSect]
      ensures NoDangling(old(Tab())) ==> torn == old(torn) && NoDangling(Tab())
    {
      MarkAndLink(prev, clust);
      SetCounters(clust, Dec32(freeCnt));
    }

    method MarkAndLink(prev: nat, clust: nat)
      requires Valid() && prev < geo.ClustCnt() && 2 <= clust < geo.ClustCnt()
      modifies `img, `disk, `torn, `bufDirty, `sect, buf
      ensures Valid() && Tab() == Taken(old(State()), prev, clust).table
      ensures geo.InTable(geo.fatSect, sect)
      ensures TableStep(geo, old(img), img) && img[geo.infoSect] == old(img)[geo.infoSect]
      ensures NoDangling(old(Tab())) ==> torn == old(torn) && NoDangling(Tab())
    {
      if NoDangling(Tab()) {
        TakingKeepsLinks(Tab(), prev, clust);
      }
      SmallIsLow28(EOC);
      SmallIsLow28(clust);
      PutFat(clust, EOC);
      if prev != 0 {
        PutFat(prev, clust);
      }
    }

    /** Allocates a cluster, links it behind `prev` unless that is 0, and brings the device up to date. When no
        cluster is found the volume is as before, but for the info flag. */
    method StretchChain(prev: nat) returns (err: int, clust: nat)
      requires Valid() && prev < geo.ClustCnt()
      modifies this, buf
      ensures Valid() && State() == Stretch(old(State()), prev)
      ensures match Choose(old(Tab()), prev, old(lastUsed))
              case At(c) =>
                && err == ERR_NONE && clust == c
                && disk == img && !bufDirty && !infoDirty && sect < geo.dataSect && CountsTaken(clust, old(freeCnt))
                && Counted(old(img)[geo.infoSect], disk[geo.infoSect], freeCnt, lastUsed)
              case _ => FailsWith(old(Tab()), prev, old(lastUsed), err) && img == old(img)
      ensures sect == old(sect) || sect < geo.dataSect
      ensures TableStep(geo, old(img), img)
      ensures NoDangling(old(Tab())) ==> torn == old(torn) && NoDangling(Tab())
    {
      infoDirty := true;
      StretchCases(State(), prev);
      var found;
      found, err, clust := FindCluster(prev);
      if !found {
        return;
      }
      TakeAndSync(prev, clust);
    }

    /** Takes a cluster, and brings the device up to date. */
    method TakeAndSync(prev: nat, clust: nat)
      requires Valid() && prev < geo.ClustCnt() && 2 <= clust < geo.ClustCnt() && infoDirty
      modifies this, buf
      ensures Valid() && State() == Taken(old(State()), prev, clust)
      ensures disk == img && !bufDirty && !infoDirty && sect < geo.dataSect && CountsTaken(clust, old(freeCnt))
      ensures Counted(old(img)[geo.infoSect], disk[geo.infoSect], freeCnt, lastUsed)
      ensures TableStep(geo, old(img), img)
      ensures NoDangling(old(Tab())) ==> torn == old(torn) && NoDangling(Tab())
    {
      TakeCluster(prev, clust);
      SyncFs();
    }

    method CreateChain() returns (err: int, clust: nat)
      requires Valid()
      modifies this, buf
      ensures Valid() && State() == Stretch(old(State()), 0)
      ensures match Choose(old(Tab()), 0, old(lastUsed))
              case At(c) =>
                && err == ERR_NONE && clust == c
                && disk == img && !bufDirty && !infoDirty && CountsTaken(clust, old(freeCnt))
                && Counted(old(img)[geo.infoSect], disk[geo.infoSect], freeCnt, lastUsed)
              case _ => FailsWith(old(Tab()), 0, old(lastUsed), err) && img == old(img)
      ensures TableStep(geo, old(img), img)
      ensures NoDangling(old(Tab())) ==> torn == old(torn) && NoDangling(Tab())
    {
      err, clust := StretchChain(0);
    }

    // ---- data sectors ----

    /** Writes a data sector to the device directly, past the cache, which must not hold it. */
    method WriteThrough(src: array<byte>, s: nat)
      requires Valid() && src.Length == 512 && geo.dataSect <= s < |disk| && s != sect
      modifies `img, `disk, `torn
      ensures Valid() && img == old(img)[s := src[..]]
    {
      Write(src, s);
      img := if bufDirty then disk[sect := buf[..]] else disk;
    }

    /** Reads a sector from the device directly. */
    method ReadThrough(dst: array<byte>, s: nat)
      requires Valid() && dst.Length == 512 && dst != buf && s < |disk| && s != sect
      modifies dst
      ensures Valid() && dst[..] == img[s]
    {
      Read(dst, s);
    }

    /** Fills the buffer with zeros; it no longer holds any sector. */
    method ClearBuf()
      requires buf.Length == 512
      modifies buf
      ensures buf[..] == ZeroSector()
    {
      forall i | 0 <= i < 512 {
        buf[i] := 0;
      }
    }

    /** Clears all sectors of a cluster, on the device. */
    method ClustClear(clust: nat)
      requires Valid() && IsCluster(geo, clust)
      modifies `img, `disk, `torn, `bufDirty, `sect, buf
      ensures Valid() && !bufDirty
      ensures img == Zeroed(old(img), ClustToSect(geo, clust), Spc(geo))
      ensures Tab() == old(Tab()) && ChainStep(geo, old(img), img, [clust])
      ensures NoDangling(old(Tab())) ==> torn == old(torn)
    {
      SyncBuf();
      ClearBuf();
      ZeroedIsChainStep(geo, disk, clust);
      ZeroedIsData(geo, disk, ClustToSect(geo, clust), Spc(geo));
      WriteRun(ClustToSect(geo, clust), Spc(geo));
    }

    /** Writes the cleared buffer to `n` data sectors from `s` on. */
    method WriteRun(s: nat, n: nat)
      requires Fits(geo, disk) && buf.Length == 512 && buf[..] == ZeroSector() && 2 <= lastUsed < geo.ClustCnt()
      requires geo.dataSect <= s && s + n <= |disk| && n > 0
      modifies `img, `disk, `torn, `bufDirty, `sect
      ensures Valid() && !bufDirty && sect == s + n - 1
      ensures disk == Zeroed(old(disk), s, n)
      ensures NoDangling(Active(geo, old(disk))) ==> torn == old(torn)
    {
      ghost var was := disk;
      WriteBufTo(s);
      DataWrite(geo, was, s, ZeroSector());
      var i := 1;
      while i < n
        invariant 1 <= i <= n
        invariant Valid() && !bufDirty && sect == s + i - 1
        invariant disk == Zeroed(was, s, i)
        invariant NoDangling(Active(geo, was)) ==> torn == old(torn)
      {
        WriteBufTo(s + i);
        i := i + 1;
        ZeroedIsData(geo, was, s, i);
      }
    }

    /** Lets the buffer count as sector `s` and writes it out. */
    method WriteBufTo(s: nat)
      requires Fits(geo, disk) && buf.Length == 512 && 0 < s < |disk| && 2 <= lastUsed < geo.ClustCnt()
      modifies `img, `disk, `torn, `bufDirty, `sect
      ensures Valid() && !bufDirty && sect == s
      ensures disk == old(disk)[s := buf[..]]
      ensures NoDangling(Active(geo, disk)) ==> torn == old(torn)
    {
      bufDirty := true;
      sect := s;
      img := disk[sect := buf[..]];
      SyncBuf();
    }

    /** Puts bytes into the buffered data sector. */
    method StoreBytes(at: nat, bytes: seq<byte>)
      requires Valid() && geo.dataSect <= sect && buf[..] == img[sect] && at + |bytes| <= 512
      modifies `img, `bufDirty, buf
      ensures Valid() && buf[..] == img[sect]
      ensures img == old(img)[sect := Patched(old(img)[sect], at, bytes)]
    {
      bufDirty := true;
      forall i | 0 <= i < |bytes| {
        buf[at + i] := bytes[i];
      }
      assert buf[..] == Patched(old(buf[..]), at, bytes);
      img := disk[sect := buf[..]];
    }

    /** Puts a fragment of a long name into the buffered data sector. */
    method StoreLfn(at: nat, frag: seq<byte>, seqNo: byte, crc: byte)
      requires Valid() && geo.dataSect <= sect && buf[..] == img[sect] && at + 32 <= 512 && |frag| <= 13
      modifies `img, `bufDirty, buf
      ensures Valid() && buf[..] == img[sect]
      ensures img == old(img)[sect := Patched(old(img)[sect], at, LfnSlot(frag, seqNo, crc))]
    {
      bufDirty := true;
      PutLfn(buf, at, frag, seqNo, crc);
      img := disk[sect := buf[..]];
    }
  }

  lemma InfoOutsideTables(g: Geometry, img: Image, s: Sector)
    requires Fits(g, img)
    ensures TableStep(g, img, img[g.infoSect := s])
    ensures Active(g, img[g.infoSect := s]) == Active(g, img)
  {
    var r := img[g.infoSect := s];
    forall base: nat, c | g.IsCopy(base) && 0 <= c < g.ClustCnt()
      ensures Raw(g, r, base, c) == Raw(g, img, base, c)
    {
      assert g.InTable(base, base + c / 128);
    }
    forall base: nat | g.IsCopy(base)
      ensures Entries(g, r, base) == Entries(g, img, base)
    {
      EntryAt(g, img, base);
      EntryAt(g, r, base);
    }
    RestSame(g, r, img);
  }
}
