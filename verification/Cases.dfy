/** Inputs on which the driver does not do what one would expect of it. */
module Cases {
  import opened Bytes
  import opened Codes
  import opened Table
  import opened Chains
  import opened Runs
  import opened Sectors
  import opened Volume
  import opened Files

  /** A volume of 126 clusters of one sector, with one copy of the table. */
  const SMALL: Geometry := Layout(0, 1, 2, 2, 0, 1, 3, 129)

  /** A table in which every cluster is a chain of its own. */
  function FullTable(): Table { seq(128, i => EOC) }

  method FullVolume() returns (fat: Fat)
    ensures fresh(fat) && fresh(fat.buf) && fat.Valid() && fat.geo == SMALL
    ensures fat.Tab() == FullTable() && fat.lastUsed == 2 && fat.sect < 3
  {
    fat := new Fat(SMALL, seq(129, i => ZeroSector()), 2, 0);
    SmallIsLow28(EOC);
    for c := 0 to 128
      invariant fat.Valid() && fat.sect < 3 && fat.lastUsed == 2
      invariant forall i :: 0 <= i < c ==> fat.Tab()[i] == EOC
    {
      fat.PutFat(c, EOC);
    }
  }

  /** The allocator has no cluster for a chain that ends in cluster `c`. */
  lemma NothingToTake(t: Table, c: nat)
    requires |t| == 128 && 2 <= c < 128 && forall i :: 0 <= i < 128 ==> t[i] != FREE && KindOf(t[i], 128) != Broken
    ensures Choose(t, c, 2) == Full
  {
    FullExactly(t, c, 2);
    assert !Choose(t, c, 2).At?;
    ScanFindsFirstFree(t, 2);
  }

  lemma FullGrowsNot(a: Alloc, chain: seq<nat>, n: nat)
    requires Ready(a) && chain != [] && chain[|chain| - 1] < |a.table|
    requires Choose(a.table, chain[|chain| - 1], a.lastUsed) == Full
    ensures GrowBy(a, chain, n) == (a, chain)
  {
    StuckStays(a, chain, 0, a, chain, n);
  }

  /** The full volume with one more chain, of clusters 2 and 3. */
  method TwoClusters() returns (fat: Fat)
    ensures fresh(fat) && fresh(fat.buf) && fat.Valid() && fat.geo == SMALL
    ensures fat.Tab() == FullTable()[2 := 3] && fat.lastUsed == 2 && fat.sect < 3
  {
    fat := FullVolume();
    SmallIsLow28(3);
    fat.PutFat(2, 3);
  }

  lemma SmallClusters(n: nat)
    ensures ClustIdx(SMALL, n) == n
  {
  }

  /** An empty file in cluster 2 of the full volume, with the cursor at its start. */
  method FullFile() returns (file: File)
    ensures fresh(file) && fresh(file.fat) && fresh(file.buf) && fresh(file.fat.buf)
    ensures file.On([2]) && file.offset == 0 && file.size == 0 && file.mayWrite
    ensures file.fat.geo == SMALL && file.fat.Tab() == FullTable() && file.fat.lastUsed == 2
  {
    var fat := FullVolume();
    file := new File(fat, 3, 0, 2, 0, true, true, [2]);
    ToStart(file);
  }

  method ToStart(file: File)
    requires file.Opened([2]) && file.fat.Tab() == FullTable() && file.fat.lastUsed == 2
    modifies file`clust, file`sect, file`offset, file`dirty, file.buf, file.fat, file.fat.buf
    ensures file.On([2]) && file.offset == 0 && file.fat.State() == old(file.fat.State())
  {
    ghost var a := file.fat.State();
    NothingToTake(a.table, 2);
    var err;
    ghost var longer;
    err, longer := file.GoToStart(false, [2]);
    FullStays(a, [2], file.fat.State(), longer);
  }

  /** A write that reports success, and all of its bytes written, although the seek behind them failed: they are not
      covered by the size, which is still 0. */
  method WriteThatFailedUnseen() returns (err: int, bytes: nat, size: u32, ghost why: int)
    ensures err == ERR_NONE && bytes == 512 && size == 0 && why == ERR_FULL
  {
    var file := FullFile();
    ghost var a, was := file.fat.State(), file.Disk();
    ghost var longer, kept;
    var src := seq(512, i => 1);
    err, bytes, longer, kept, why := file.Write([2], src);
    WriteEndsFull(file, a, was, longer, src, bytes, kept, why);
    size := file.size;
  }

  lemma WriteEndsFull(file: File, a: Alloc, was: Image, longer: seq<nat>, src: seq<byte>, bytes: nat, kept: nat,
                      why: int)
    requires file.fat.geo == SMALL && Ready(a) && a.table == FullTable() && a.lastUsed == 2 && |src| == 512
    requires file.WriteEnds(a, was, [2], longer, src, 0, bytes, kept, why)
    ensures why == ERR_FULL && bytes == 512 && file.offset == 0
  {
    NoRoomAtAll(file, a);
    NothingToTake(a.table, 2);
    FullStays(a, [2], file.fat.State(), longer);
  }

  lemma NoRoomAtAll(file: File, a: Alloc)
    requires file.fat.geo == SMALL && Ready(a) && a.table == FullTable() && a.lastUsed == 2
    ensures !file.HasRoom(a, [2], 0, 512)
  {
    NothingToTake(a.table, 2);
    SmallClusters(1);
    FullGrowsNot(a, [2], 2);
  }

  lemma FullStays(a: Alloc, chain: seq<nat>, b: Alloc, longer: seq<nat>)
    requires Ready(a) && chain != [] && chain[|chain| - 1] < |a.table|
    requires Choose(a.table, chain[|chain| - 1], a.lastUsed) == Full && GrownTo(a, chain, b, longer)
    ensures longer == chain && b == a
  {
    FullGrowsNot(a, chain, |longer| - |chain|);
  }

  /** A seek that fails, and leaves the cursor in cluster 3 at offset 0, which is in cluster 2. */
  method SeekThatStrands() returns (err: int, file: File, ghost longer: seq<nat>)
    ensures err == ERR_FULL && fresh(file) && longer == [2, 3] && file.offset == 0 && file.clust == 3
    ensures file.OnChain(longer) && !file.Placed(longer)
  {
    var fat := TwoClusters();
    ghost var chain, a := [2, 3], fat.State();
    file := new File(fat, 3, 0, 2, 0, true, true, chain);
    NothingToTake(a.table, 3);
    SmallClusters(0);
    SmallClusters(2);
    FullGrowsNot(a, chain, 3);
    err, longer := file.Seek(chain, 1024, FromStart, 1024);
    FullStays(a, chain, fat.State(), longer);
  }
}
