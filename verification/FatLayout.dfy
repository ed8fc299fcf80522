/** Boot sector arithmetic: the variant, the regions of a volume and the size of its tables. */
module FatLayout {
  import opened Bytes
  import opened FatTable

  /** The boot sector fields that the driver computes with. */
  datatype BootSector = BootSector(
    bytesPerSector: nat, sectorsPerCluster: nat, reservedSectors: nat, numFat: nat,
    numRootEntries: nat, numSectors: nat, sectorsPerFat: nat, longSectors: nat)

  const DIR_ENTRY_SIZE: nat := 32
  const U32: nat := 0x1_0000_0000

  function Wrap32(x: int): (r: nat)
    ensures r < U32
    ensures 0 <= x < U32 ==> r == x
  {
    x % U32
  }

  function TotalSectors(b: BootSector): nat {
    if b.numSectors != 0 then b.numSectors else b.longSectors
  }

  function RootSectors(b: BootSector): nat
    requires 0 < b.bytesPerSector
  {
    (b.numRootEntries * DIR_ENTRY_SIZE + b.bytesPerSector - 1) / b.bytesPerSector
  }

  /** First sector behind the tables; the fixed root directory of FAT12 and FAT16 starts here. */
  function RootDirSector(b: BootSector): nat {
    b.reservedSectors + b.numFat * b.sectorsPerFat
  }

  /** Sectors in front of the data region. */
  function MetaSectors(b: BootSector): nat
    requires 0 < b.bytesPerSector
  {
    RootDirSector(b) + RootSectors(b)
  }

  /** The number of clusters in the data region of a volume whose regions fit. */
  function Clusters(b: BootSector): nat
    requires 0 < b.bytesPerSector && 0 < b.sectorsPerCluster && MetaSectors(b) <= TotalSectors(b)
  {
    (TotalSectors(b) - MetaSectors(b)) / b.sectorsPerCluster
  }

  /** The variant that the format assigns to a cluster count. */
  function TypeOfCount(clusters: nat): FatType {
    if clusters < 4085 then Fat12 else if clusters < 65525 then Fat16 else Fat32
  }

  function Bpc(b: BootSector): nat {
    b.sectorsPerCluster * b.bytesPerSector
  }

  function DataStart(b: BootSector): nat
    requires 0 < b.bytesPerSector
  {
    MetaSectors(b) * b.bytesPerSector
  }

  /** `FAT_clus_to_off` for a data cluster. */
  function ClusterStart(b: BootSector, c: nat): nat
    requires 0 < b.bytesPerSector && 2 <= c
  {
    DataStart(b) + (c - 2) * b.sectorsPerCluster * b.bytesPerSector
  }

  /** A well-formed FAT12 or FAT16 volume. */
  predicate ValidBoot(b: BootSector) {
    && 0 < b.bytesPerSector && 0 < b.sectorsPerCluster
    && 0 < b.reservedSectors && 0 < b.numFat && 0 < b.sectorsPerFat
    && MetaSectors(b) <= TotalSectors(b) < U32
    && Clusters(b) < 65525
  }

  function KindOf(b: BootSector): (k: SmallFat)
    requires ValidBoot(b)
    ensures k == TypeOfCount(Clusters(b))
  {
    TypeOfCount(Clusters(b))
  }

  function TablesOf(b: BootSector): Tables
    requires ValidBoot(b)
  {
    Tables(KindOf(b), b.reservedSectors * b.bytesPerSector, b.sectorsPerFat * b.bytesPerSector, b.numFat)
  }

  /** The tables end where the root directory starts. */
  lemma TablesEndAtRoot(b: BootSector)
    requires ValidBoot(b)
    ensures TablesEnd(TablesOf(b)) == RootDirSector(b) * b.bytesPerSector
  {
    var s := b.bytesPerSector;
    TimesIsProduct(b.numFat, b.sectorsPerFat * s);
    assert (b.numFat * b.sectorsPerFat) * s == b.numFat * (b.sectorsPerFat * s) by {
      MulAssoc(b.numFat, b.sectorsPerFat, s);
    }
    MulDistrib(b.reservedSectors, b.numFat * b.sectorsPerFat, s);
  }

  lemma MulAssoc(x: int, y: int, z: int)
    ensures (x * y) * z == x * (y * z)
  {
  }

  lemma MulDistrib(x: int, y: int, z: int)
    ensures (x + y) * z == x * z + y * z
  {
  }

  /** The root directory fits between the tables and the data region. */
  lemma RootFits(b: BootSector)
    requires 0 < b.bytesPerSector
    ensures RootDirSector(b) * b.bytesPerSector + b.numRootEntries * DIR_ENTRY_SIZE <= DataStart(b)
  {
    var s, n := b.bytesPerSector, b.numRootEntries * DIR_ENTRY_SIZE;
    CeilCovers(n, s);
    MulDistrib(RootDirSector(b), RootSectors(b), s);
  }

  lemma CeilCovers(n: nat, d: nat)
    requires 0 < d
    ensures n <= (n + d - 1) / d * d < n + d
  {
    assert n + d - 1 == (n + d - 1) / d * d + (n + d - 1) % d;
  }

  lemma ClusterStartIsProduct(b: BootSector, c: nat)
    requires 0 < b.bytesPerSector && 2 <= c
    ensures ClusterStart(b, c) == DataStart(b) + (c - 2) * Bpc(b)
  {
    MulAssoc(c - 2, b.sectorsPerCluster, b.bytesPerSector);
  }

  /** The clusters follow each other from the start of the data region on. */
  lemma ClustersContiguous(b: BootSector, c: nat)
    requires ValidBoot(b) && 2 <= c
    ensures ClusterStart(b, 2) == DataStart(b)
    ensures ClusterStart(b, c + 1) == ClusterStart(b, c) + b.sectorsPerCluster * b.bytesPerSector
  {
    ClusterStartIsProduct(b, 2);
    ClusterStartIsProduct(b, c);
    ClusterStartIsProduct(b, c + 1);
    MulDistrib(c - 2, 1, Bpc(b));
  }

  /** Every counted cluster lies inside the volume, behind all metadata. */
  lemma ClusterInVolume(b: BootSector, c: nat)
    requires ValidBoot(b) && 2 <= c < Clusters(b) + 2
    ensures DataStart(b) <= ClusterStart(b, c)
    ensures ClusterStart(b, c) + Bpc(b) <= TotalSectors(b) * b.bytesPerSector
  {
    ClusterStartIsProduct(b, c);
    var s, spc, data := b.bytesPerSector, b.sectorsPerCluster, TotalSectors(b) - MetaSectors(b);
    assert (c - 2) * Bpc(b) >= 0 by { MulMono(0, c - 2, Bpc(b)); }
    assert (c - 1) * Bpc(b) == (c - 2) * Bpc(b) + Bpc(b) by { MulDistrib(c - 2, 1, Bpc(b)); }
    MulMono(c - 1, Clusters(b), spc);
    assert Clusters(b) * spc <= data;
    MulMono((c - 1) * spc, data, s);
    MulAssoc(c - 1, spc, s);
    MulDistrib(MetaSectors(b), data, s);
  }

  /** Different clusters occupy disjoint ranges. */
  lemma ClustersApart(b: BootSector, c: nat, c': nat)
    requires ValidBoot(b) && 2 <= c < c'
    ensures ClusterStart(b, c) + Bpc(b) <= ClusterStart(b, c')
  {
    ClusterStartIsProduct(b, c);
    ClusterStartIsProduct(b, c');
    MulDistrib(c - 2, 1, Bpc(b));
    MulMono(c - 1, c' - 2, Bpc(b));
  }

  /**
   * The regions of a valid volume follow each other without overlap: reserved area, every copy of
   * the table, root directory, and one range inside the volume for every counted cluster.
   */
  lemma RegionsDisjoint(b: BootSector)
    requires ValidBoot(b)
    ensures
      var t := TablesOf(b);
      && b.reservedSectors * b.bytesPerSector == CopyBase(t, 0)
      && (forall i, j :: 0 <= i < j < b.numFat ==> CopyBase(t, i) + t.fatBytes <= CopyBase(t, j))
      && (forall i :: 0 <= i < b.numFat ==> CopyBase(t, i) + t.fatBytes <= RootDirSector(b) * b.bytesPerSector)
      && RootDirSector(b) * b.bytesPerSector + b.numRootEntries * DIR_ENTRY_SIZE <= DataStart(b)
    ensures forall c, c' :: 2 <= c < c' < Clusters(b) + 2 ==> ClusterStart(b, c) + Bpc(b) <= ClusterStart(b, c')
    ensures forall c :: 2 <= c < Clusters(b) + 2 ==>
      DataStart(b) <= ClusterStart(b, c) && ClusterStart(b, c) + Bpc(b) <= TotalSectors(b) * b.bytesPerSector
  {
    var t := TablesOf(b);
    TablesEndAtRoot(b);
    RootFits(b);
    forall i, j | 0 <= i < j < b.numFat
      ensures CopyBase(t, i) + t.fatBytes <= CopyBase(t, j)
    {
      TimesMono(i, j, t.fatBytes);
    }
    forall i | 0 <= i < b.numFat
      ensures CopyBase(t, i) + t.fatBytes <= RootDirSector(b) * b.bytesPerSector
    {
      CopyInTables(t, i);
    }
    forall c, c' | 2 <= c < c' < Clusters(b) + 2
      ensures ClusterStart(b, c) + Bpc(b) <= ClusterStart(b, c')
    {
      ClustersApart(b, c, c');
    }
    forall c | 2 <= c < Clusters(b) + 2
      ensures DataStart(b) <= ClusterStart(b, c)
      ensures ClusterStart(b, c) + Bpc(b) <= TotalSectors(b) * b.bytesPerSector
    {
      ClusterInVolume(b, c);
    }
  }

  /** The bound of the free-cluster scan. */
  function ScanBound(b: BootSector): nat {
    b.numSectors * b.sectorsPerCluster
  }

  /**
   * The scan covers every cluster number of the volume exactly when the 16-bit sector count is in
   * use; with a zero count it looks at nothing.
   */
  lemma ScanReachesIff(b: BootSector)
    requires ValidBoot(b)
    ensures b.numSectors != 0 <==> Clusters(b) + 2 <= ScanBound(b)
  {
    var spc, data := b.sectorsPerCluster, TotalSectors(b) - MetaSectors(b);
    if b.numSectors != 0 {
      MulMono(1, b.numFat, b.sectorsPerFat);
      assert Clusters(b) * 1 <= Clusters(b) * spc <= data by { MulMonoRight(Clusters(b), 1, spc); }
      MulMonoRight(b.numSectors, 1, spc);
    }
  }

  lemma MulMonoRight(d: int, a: int, b: int)
    requires 0 <= d && a <= b
    ensures d * a <= d * b
  {
  }

  // ----- the table size chosen when formatting -----

  /** Sectors left for tables and data. */
  function Tmp1(b: BootSector): int
    requires 0 < b.bytesPerSector
  {
    b.numSectors - (b.reservedSectors + RootSectors(b))
  }

  function Tmp2(k: FatType, b: BootSector): nat {
    var t := 256 * b.sectorsPerCluster + b.numFat;
    if k.Fat32? then t / 2 else t
  }

  /** `f` is the least number of sectors with `f * per >= need`. */
  ghost predicate LeastCover(f: nat, need: nat, per: nat) {
    f * per >= need && forall f': nat :: f' * per >= need ==> f <= f'
  }

  lemma CeilIsLeastCover(need: nat, per: nat)
    requires 0 < per
    ensures LeastCover((need + (per - 1)) / per, need, per)
  {
    var f := (need + (per - 1)) / per;
    CeilCovers(need, per);
    forall f': nat | f' * per >= need
      ensures f <= f'
    {
      if f' < f {
        MulMono(f' + 1, f, per);
        MulDistrib(f', 1, per);
      }
    }
  }

  lemma LeastCoverUnique(f: nat, f': nat, need: nat, per: nat)
    requires LeastCover(f, need, per) && LeastCover(f', need, per)
    ensures f == f'
  {
  }

  /** The root directory gets the least number of sectors that holds its entries of 32 bytes. */
  lemma RootSectorsLeast(b: BootSector)
    requires 0 < b.bytesPerSector
    ensures LeastCover(RootSectors(b), b.numRootEntries * 32, b.bytesPerSector)
  {
    CeilIsLeastCover(b.numRootEntries * 32, b.bytesPerSector);
  }

  lemma OnlyRootSectors(b: BootSector)
    requires 0 < b.bytesPerSector
    ensures forall r: nat :: LeastCover(r, b.numRootEntries * 32, b.bytesPerSector) ==> r == RootSectors(b)
  {
    RootSectorsLeast(b);
    forall r: nat | LeastCover(r, b.numRootEntries * 32, b.bytesPerSector)
      ensures r == RootSectors(b)
    {
      LeastCoverUnique(r, RootSectors(b), b.numRootEntries * 32, b.bytesPerSector);
    }
  }

  /** The number of clusters left once `numFat` tables of `f` sectors are placed. */
  function ClustersLeft(b: BootSector, f: nat): nat
    requires 0 < b.bytesPerSector && 0 < b.sectorsPerCluster && b.numFat * f <= Tmp1(b)
  {
    (Tmp1(b) - b.numFat * f) / b.sectorsPerCluster
  }

  /** The data behind the tables holds at most 256 clusters for each table sector. */
  lemma ClustersBounded(b: BootSector, f: nat)
    requires 0 < b.bytesPerSector && 0 < b.sectorsPerCluster && b.numFat * f <= Tmp1(b)
    requires LeastCover(f, Tmp1(b), Tmp2(Fat16, b))
    ensures ClustersLeft(b, f) <= 256 * f
  {
    var spc, left := b.sectorsPerCluster, Tmp1(b) - b.numFat * f;
    MulDistrib(256 * spc, b.numFat, f);
    assert f * Tmp2(Fat16, b) == (256 * spc) * f + b.numFat * f;
    assert (256 * spc) * f == (256 * f) * spc;
    DivAtMost(left, spc, 256 * f);
  }

  lemma DivAtMost(x: nat, d: nat, q: nat)
    requires 0 < d && x <= q * d
    ensures x / d <= q
  {
    if q < x / d {
      MulMono(q + 1, x / d, d);
      MulDistrib(q, 1, d);
    }
  }

  lemma DivLessIff(x: nat, d: nat, q: int)
    requires 0 < d
    ensures x / d < q <==> x < q * d
  {
    var y := x / d;
    assert y * d <= x < y * d + d;
    if y < q {
      MulMono(y + 1, q, d);
      MulDistrib(y, 1, d);
    } else {
      MulMono(q, y, d);
    }
  }

  /** With 512-byte sectors a FAT12 table of the computed size holds every cluster's entry. */
  lemma Fat12TableFits(b: BootSector, f: nat)
    requires b.bytesPerSector == 512 && 0 < b.sectorsPerCluster && 0 < Tmp1(b) && b.numFat * f <= Tmp1(b)
    requires LeastCover(f, Tmp1(b), Tmp2(Fat12, b))
    ensures EntryOff(Fat12, ClustersLeft(b, f) + 1) + 2 <= 512 * f
  {
    ClustersBounded(b, f);
    assert f != 0;
  }

  /**
   * With 512-byte sectors a FAT16 table of the computed size holds every cluster's entry exactly
   * when rounding up left a slack of more than one cluster; otherwise it is one or two entries short.
   */
  lemma Fat16TableFitsIff(b: BootSector, f: nat)
    requires b.bytesPerSector == 512 && 0 < b.sectorsPerCluster && 0 <= Tmp1(b) && b.numFat * f <= Tmp1(b)
    requires LeastCover(f, Tmp1(b), Tmp2(Fat16, b))
    ensures EntryOff(Fat16, ClustersLeft(b, f) + 1) + 2 <= 512 * f
      <==> 0 < Tmp1(b) % Tmp2(Fat16, b) < Tmp2(Fat16, b) - b.sectorsPerCluster
    ensures EntryOff(Fat16, ClustersLeft(b, f) + 1) + 2 <= 512 * f + 4
  {
    var need, per, spc := Tmp1(b), Tmp2(Fat16, b), b.sectorsPerCluster;
    var left := need - b.numFat * f;
    ClustersBounded(b, f);
    MulDistrib(256 * spc, b.numFat, f);
    assert f * per == (256 * spc) * f + b.numFat * f;
    assert (256 * spc) * f == (256 * f) * spc;
    DivLessIff(left, spc, 256 * f - 1);
    assert (256 * f - 1) * spc == (256 * f) * spc - spc by { MulDistrib(256 * f, -1, spc); }
    SlackOfCover(f, need, per);
  }

  /** The slack of the least cover, from the remainder. */
  lemma SlackOfCover(f: nat, need: nat, per: nat)
    requires 0 < per && LeastCover(f, need, per)
    ensures f * per - need == if need % per == 0 then 0 else per - need % per
  {
    var q := need / per;
    assert need == q * per + need % per;
    MulDistrib(q, 1, per);
    if need % per == 0 {
      if f > q { assert q * per >= need; }
      if f < q { MulMono(f + 1, q, per); MulDistrib(f, 1, per); }
    } else {
      assert (q + 1) * per >= need;
      if f <= q { MulMono(f, q, per); }
    }
  }

  // ----- the context that a mount fills in -----

  /** The count that `FAT_init_type` arrives at, with its 32-bit subtraction. */
  function ComputedClusters(b: BootSector, sectorsPerFat: nat): nat
    requires 0 < b.bytesPerSector && 0 < b.sectorsPerCluster
  {
    Wrap32(TotalSectors(b) - (b.reservedSectors + sectorsPerFat * b.numFat + RootSectors(b))) / b.sectorsPerCluster
  }

  /** Whole clusters in the sectors behind reserved area, tables and root directory, in 32-bit arithmetic. */
  ghost predicate HoldsClusters(b: BootSector, sectorsPerFat: nat, n: nat) {
    forall r: nat :: LeastCover(r, b.numRootEntries * 32, b.bytesPerSector) ==>
      var total := if b.numSectors != 0 then b.numSectors else b.longSectors;
      var data := (total - (b.reservedSectors + sectorsPerFat * b.numFat + r)) % 0x1_0000_0000;
      n * b.sectorsPerCluster <= data < (n + 1) * b.sectorsPerCluster
  }

  /** The count computed is exactly that number. */
  lemma ComputedClustersIff(b: BootSector, sectorsPerFat: nat, n: nat)
    requires 0 < b.bytesPerSector && 0 < b.sectorsPerCluster
    ensures HoldsClusters(b, sectorsPerFat, n) <==> n == ComputedClusters(b, sectorsPerFat)
  {
    hide LeastCover, RootSectors;
    OnlyRootSectors(b);
    RootSectorsLeast(b);
    assert LeastCover(RootSectors(b), b.numRootEntries * 32, b.bytesPerSector);
    DivIff(Wrap32(TotalSectors(b) - (b.reservedSectors + sectorsPerFat * b.numFat + RootSectors(b))),
           b.sectorsPerCluster, n);
  }

  lemma DivIff(x: nat, d: nat, q: nat)
    requires 0 < d
    ensures q * d <= x < (q + 1) * d <==> q == x / d
  {
    if q * d <= x < (q + 1) * d {
      MulDistrib(q, 1, d);
      DivModUnique(x, d, q, x - q * d);
    }
    MulDistrib(x / d, 1, d);
  }

  lemma ComputedClustersExact(b: BootSector)
    requires ValidBoot(b)
    ensures ComputedClusters(b, b.sectorsPerFat) == Clusters(b)
  {
    assert b.sectorsPerFat * b.numFat == b.numFat * b.sectorsPerFat;
  }

  lemma ValidSizes(b: BootSector)
    requires ValidBoot(b)
    ensures 0 < b.bytesPerSector && 0 < b.sectorsPerCluster
  {
  }

  class FatContext {
    var bootSector: BootSector
    var fat32SectorsPerFat: nat
    var kind: FatType
    var dataRegionStart: nat
    var bytesPerCluster: nat

    constructor (bootSector: BootSector)
      ensures this.bootSector == bootSector
    {
      this.bootSector := bootSector;
      fat32SectorsPerFat, kind, dataRegionStart, bytesPerCluster := 0, FatNull, 0, 0;
    }

    function SectorsPerFat(): nat
      reads this
    {
      if bootSector.sectorsPerFat != 0 then bootSector.sectorsPerFat else fat32SectorsPerFat
    }

    /** `FAT_init_type`, with its 32-bit subtraction. */
    method InitType()
      requires 0 < bootSector.bytesPerSector && 0 < bootSector.sectorsPerCluster
      modifies `kind
      ensures ValidBoot(bootSector) ==> kind == KindOf(bootSector)
      ensures kind == TypeOfCount(ComputedClusters(bootSector, SectorsPerFat()))
      ensures forall n: nat :: HoldsClusters(bootSector, SectorsPerFat(), n) ==>
        kind == if n < 4085 then Fat12 else if n < 65525 then Fat16 else Fat32
    {
      forall n: nat | HoldsClusters(bootSector, SectorsPerFat(), n)
        ensures n == ComputedClusters(bootSector, SectorsPerFat())
      {
        ComputedClustersIff(bootSector, SectorsPerFat(), n);
      }
      hide HoldsClusters;
      if ValidBoot(bootSector) {
        ComputedClustersExact(bootSector);
      }
      var total := if bootSector.numSectors != 0 then bootSector.numSectors else bootSector.longSectors;
      var rootSectors := (bootSector.numRootEntries * DIR_ENTRY_SIZE + (bootSector.bytesPerSector - 1))
                         / bootSector.bytesPerSector;
      var meta := bootSector.reservedSectors + SectorsPerFat() * bootSector.numFat + rootSectors;
      var dataSectors := Wrap32(total - meta);
      var clusters := dataSectors / bootSector.sectorsPerCluster;
      if clusters < 4085 {
        kind := Fat12;
      } else if clusters < 65525 {
        kind := Fat16;
      } else {
        kind := Fat32;
      }
    }

    /** The part of `FAT_mount` that computes the layout of a FAT12 or FAT16 volume. */
    method Mount()
      requires ValidBoot(bootSector)
      modifies `kind, `dataRegionStart, `bytesPerCluster
      ensures kind == KindOf(bootSector)
      ensures dataRegionStart == DataStart(bootSector) && bytesPerCluster == Bpc(bootSector)
      ensures forall r: nat :: LeastCover(r, bootSector.numRootEntries * 32, bootSector.bytesPerSector) ==>
        dataRegionStart ==
          (bootSector.reservedSectors + bootSector.numFat * bootSector.sectorsPerFat + r) * bootSector.bytesPerSector
      ensures bytesPerCluster == bootSector.sectorsPerCluster * bootSector.bytesPerSector
    {
      hide LeastCover, ValidBoot, HoldsClusters, KindOf;
      ValidSizes(bootSector);
      OnlyRootSectors(bootSector);
      InitType();
      var rootSectors := (bootSector.numRootEntries * 32 + bootSector.bytesPerSector - 1) / bootSector.bytesPerSector;
      dataRegionStart := bootSector.reservedSectors;
      dataRegionStart := dataRegionStart + bootSector.numFat * bootSector.sectorsPerFat;
      dataRegionStart := dataRegionStart + rootSectors;
      dataRegionStart := dataRegionStart * bootSector.bytesPerSector;
      bytesPerCluster := bootSector.sectorsPerCluster * bootSector.bytesPerSector;
    }

    /** `FAT_calc_size`: stores the least number of table sectors that covers the volume. */
    method CalcSize()
      requires 0 < bootSector.bytesPerSector && 0 < bootSector.sectorsPerCluster
      requires bootSector.numSectors < 0x1_0000 && 0 <= Tmp1(bootSector) && 0 < Tmp2(kind, bootSector)
      modifies `bootSector, `fat32SectorsPerFat
      ensures old(kind).Fat32? ==>
        bootSector == old(bootSector).(sectorsPerFat := 0)
        && LeastCover(fat32SectorsPerFat, old(Tmp1(bootSector)), old(Tmp2(kind, bootSector)))
      ensures !old(kind).Fat32? ==>
        bootSector == old(bootSector).(sectorsPerFat := bootSector.sectorsPerFat)
        && fat32SectorsPerFat == old(fat32SectorsPerFat)
        && LeastCover(bootSector.sectorsPerFat, old(Tmp1(bootSector)), old(Tmp2(kind, bootSector)))
      ensures
        var b, fatSize := old(bootSector), if kind.Fat32? then fat32SectorsPerFat else bootSector.sectorsPerFat;
        forall r: nat :: LeastCover(r, b.numRootEntries * 32, b.bytesPerSector) ==>
          && b.numSectors >= b.reservedSectors + r
          && LeastCover(fatSize, b.numSectors - (b.reservedSectors + r),
               (256 * b.sectorsPerCluster + b.numFat) / if kind.Fat32? then 2 else 1)
    {
      OnlyRootSectors(bootSector);
      hide LeastCover;
      var rootSectors := (bootSector.numRootEntries * DIR_ENTRY_SIZE + (bootSector.bytesPerSector - 1))
                         / bootSector.bytesPerSector;
      var tmp1 := bootSector.numSectors - (bootSector.reservedSectors + rootSectors);
      var tmp2 := 256 * bootSector.sectorsPerCluster + bootSector.numFat;
      if kind.Fat32? {
        tmp2 := tmp2 / 2;
      }
      var fatSize := (tmp1 + (tmp2 - 1)) / tmp2;
      CeilIsLeastCover(tmp1, tmp2);
      if kind.Fat32? {
        bootSector := bootSector.(sectorsPerFat := 0);
        fat32SectorsPerFat := fatSize;
      } else {
        bootSector := bootSector.(sectorsPerFat := fatSize);
      }
    }
  }
}
