/** From a boot sector to a volume on which the driver's operations are proved. */
module FatMount {
  import opened Bytes
  import opened FatTable
  import opened FatFiles
  import opened FatLayout
  import Sal

  function VolumeOf(b: BootSector): Volume
    requires ValidBoot(b)
  {
    Volume(TablesOf(b), b.bytesPerSector, DataStart(b), Bpc(b), Clusters(b) + 2, ScanBound(b))
  }

  /** The tables are long enough for every cluster. */
  predicate TablesCover(b: BootSector)
    requires ValidBoot(b)
  {
    EntryOff(KindOf(b), Clusters(b) + 1) + 2 <= b.sectorsPerFat * b.bytesPerSector
  }

  lemma ProductAligned(n: nat, d: nat)
    requires 0 < d
    ensures n * d % d == 0
  {
    DivModUnique(n * d, d, n, 0);
  }

  /** Every copy of the table starts on a sector boundary. */
  lemma CopyAligned(b: BootSector, i: nat)
    requires ValidBoot(b)
    ensures CopyBase(TablesOf(b), i) % b.bytesPerSector == 0
  {
    var s := b.bytesPerSector;
    ProductAligned(b.reservedSectors, s);
    ProductAligned(b.sectorsPerFat, s);
    TimesAligned(i, b.sectorsPerFat * s, s);
    ModOfSum(b.reservedSectors * s, Times(i, b.sectorsPerFat * s), s);
  }

  /** An entry can be accessed through the storage layer exactly when it does not start at the last byte of a sector. */
  lemma EntryExactIff(b: BootSector, i: nat, c: nat)
    requires ValidBoot(b) && 2 < b.bytesPerSector <= Sal.TEMP_SIZE
    ensures EntryExact(VolumeOf(b), i, c) <==> EntryOff(KindOf(b), c) % b.bytesPerSector != b.bytesPerSector - 1
  {
    CopyAligned(b, i);
    ModOfSum(EntryOff(KindOf(b), c), CopyBase(TablesOf(b), i), b.bytesPerSector);
  }

  /** FAT16 entries never start at the last byte of a sector of even size. */
  lemma Fat16EntriesExact(b: BootSector, i: nat, c: nat)
    requires ValidBoot(b) && KindOf(b).Fat16?
    requires 2 < b.bytesPerSector <= Sal.TEMP_SIZE && b.bytesPerSector % 2 == 0
    ensures EntryExact(VolumeOf(b), i, c)
  {
    var s := b.bytesPerSector;
    EvenMod(c, s);
    assert EntryOff(KindOf(b), c) % s != s - 1;
    EntryExactIff(b, i, c);
  }

  lemma EvenMod(c: nat, s: nat)
    requires 0 < s && s % 2 == 0
    ensures c * 2 % s % 2 == 0
  {
    var h, q := s / 2, c * 2 / s;
    assert c * 2 == q * s + c * 2 % s;
    assert q * s == 2 * (q * h) by { assert s == 2 * h; }
  }

  /** Numbers 0 and 1 lead to the first sector behind the tables. */
  lemma ClusterOffRoot(b: BootSector, c: nat)
    requires ValidBoot(b) && c < 2
    ensures ClusterOff(VolumeOf(b), c) == (b.reservedSectors + b.numFat * b.sectorsPerFat) * b.bytesPerSector
  {
    TablesEndAtRoot(b);
  }

  /** Where the driver looks for a cluster is where the layout of the volume puts it. */
  lemma ClusterPosIsStart(b: BootSector, c: nat)
    requires ValidBoot(b) && 2 <= c
    ensures ClusterOff(VolumeOf(b), c) == ClusterPos(VolumeOf(b), c) == ClusterStart(b, c)
  {
    TimesIsProduct(c - 2, Bpc(b));
    ClusterStartIsProduct(b, c);
  }

  /** The data region of the volume, measured in clusters, ends inside the volume. */
  lemma DataFits(b: BootSector)
    requires ValidBoot(b)
    ensures DataStart(b) + Times(Clusters(b), Bpc(b)) <= TotalSectors(b) * b.bytesPerSector
  {
    TimesIsProduct(Clusters(b), Bpc(b));
    if Clusters(b) > 0 {
      var c := Clusters(b) + 1;
      ClusterInVolume(b, c);
      ClusterStartIsProduct(b, c);
      MulDistrib(c - 2, 1, Bpc(b));
    } else {
      MulMono(MetaSectors(b), TotalSectors(b), b.bytesPerSector);
    }
  }

  /** What is common to both variants. */
  lemma LaidOut(b: BootSector, size: nat)
    requires ValidBoot(b) && b.bytesPerSector <= Sal.TEMP_SIZE && b.numSectors != 0 && TablesCover(b)
    requires TotalSectors(b) * b.bytesPerSector <= size
    requires forall i, c :: 0 <= i < b.numFat && 0 <= c < Clusters(b) + 2 ==> EntryExact(VolumeOf(b), i, c)
    ensures WellFormed(VolumeOf(b), size)
  {
    var v := VolumeOf(b);
    assert 0 < v.bpc by { MulMono(1, b.sectorsPerCluster, b.bytesPerSector); }
    ProductAligned(MetaSectors(b), b.bytesPerSector);
    ProductAligned(b.sectorsPerCluster, b.bytesPerSector);
    ScanReachesIff(b);
    DataFits(b);
    TablesEndAtRoot(b);
    RootFits(b);
  }

  /** A valid FAT16 boot sector describes a volume on which every operation of the driver is right. */
  lemma Fat16Mounts(b: BootSector, size: nat)
    requires ValidBoot(b) && KindOf(b).Fat16? && TablesCover(b) && b.numSectors != 0
    requires 2 < b.bytesPerSector <= Sal.TEMP_SIZE && b.bytesPerSector % 2 == 0
    requires TotalSectors(b) * b.bytesPerSector <= size
    ensures WellFormed(VolumeOf(b), size)
  {
    forall i, c | 0 <= i < b.numFat && 0 <= c < Clusters(b) + 2
      ensures EntryExact(VolumeOf(b), i, c)
    {
      Fat16EntriesExact(b, i, c);
    }
    LaidOut(b, size);
  }

  /**
   * A valid FAT12 boot sector describes such a volume exactly when none of its entries starts at the
   * last byte of a sector; with 512-byte sectors the first entry that does is that of cluster 341.
   */
  lemma Fat12MountsIff(b: BootSector, size: nat)
    requires ValidBoot(b) && KindOf(b).Fat12? && TablesCover(b) && b.numSectors != 0
    requires 2 < b.bytesPerSector <= Sal.TEMP_SIZE
    requires TotalSectors(b) * b.bytesPerSector <= size
    ensures WellFormed(VolumeOf(b), size) <==> forall c :: 0 <= c < Clusters(b) + 2 ==> EntryFitsSector(b, c)
  {
    if WellFormed(VolumeOf(b), size) {
      forall c | 0 <= c < Clusters(b) + 2
        ensures EntryFitsSector(b, c)
      {
        assert EntryExact(VolumeOf(b), 0, c);
        EntryExactIff(b, 0, c);
      }
    }
    if forall c :: 0 <= c < Clusters(b) + 2 ==> EntryFitsSector(b, c) {
      forall i, c | 0 <= i < b.numFat && 0 <= c < Clusters(b) + 2
        ensures EntryExact(VolumeOf(b), i, c)
      {
        assert EntryFitsSector(b, c);
        EntryExactIff(b, i, c);
      }
      LaidOut(b, size);
    }
  }

  predicate EntryFitsSector(b: BootSector, c: nat)
    requires ValidBoot(b)
  {
    EntryOff(KindOf(b), c) % b.bytesPerSector != b.bytesPerSector - 1
  }

  /** The entries of the volume are those of the clusters that end inside it. */
  lemma EntriesIff(b: BootSector, c: nat)
    requires ValidBoot(b) && 2 <= c
    ensures c < VolumeOf(b).entries <==> ClusterStart(b, c) + Bpc(b) <= TotalSectors(b) * b.bytesPerSector
  {
    if c < Clusters(b) + 2 {
      ClusterInVolume(b, c);
    } else {
      var s, spc, data := b.bytesPerSector, b.sectorsPerCluster, TotalSectors(b) - MetaSectors(b);
      ClusterStartIsProduct(b, c);
      MulDistrib(c - 2, 1, Bpc(b));
      MulAssoc(c - 1, spc, s);
      DivLessIff(data, spc, c - 1);
      assert data + 1 <= (c - 1) * spc;
      MulMono(data + 1, (c - 1) * spc, s);
      MulDistrib(data, 1, s);
      MulDistrib(MetaSectors(b), data, s);
    }
  }

  /** With a fixed root directory the scan for a free cluster runs past the last entry of the volume. */
  lemma ScanLeavesVolume(b: BootSector)
    requires ValidBoot(b) && b.numSectors != 0 && 0 < b.numRootEntries
    ensures VolumeOf(b).entries < VolumeOf(b).scanBound == b.numSectors * b.sectorsPerCluster
  {
    var spc, data := b.sectorsPerCluster, TotalSectors(b) - MetaSectors(b);
    MulMono(1, b.numFat, b.sectorsPerFat);
    RootTakesSectors(b);
    assert Clusters(b) * 1 <= Clusters(b) * spc <= data by { MulMonoRight(Clusters(b), 1, spc); }
    MulMonoRight(b.numSectors, 1, spc);
  }

  lemma RootTakesSectors(b: BootSector)
    requires 0 < b.bytesPerSector && 0 < b.numRootEntries
    ensures 0 < RootSectors(b)
  {
    CeilCovers(b.numRootEntries * DIR_ENTRY_SIZE, b.bytesPerSector);
  }

  lemma Cluster341()
    ensures EntryOff(Fat12, 341) % 512 == 511
    ensures forall c :: 0 <= c < 341 ==> EntryOff(Fat12, c) % 512 != 511
  {
  }
}
