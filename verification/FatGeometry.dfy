/** The layout of a FAT volume as its boot record describes it (kernel/src/fat_definitions.h:66-84, 128-160).
    The arithmetic is unsigned and 64 bits wide. */
module FatGeometry {

  type u8 = x: int | 0 <= x < 0x100
  type u16 = x: int | 0 <= x < 0x1_0000
  type u32 = x: int | 0 <= x < 0x1_0000_0000
  type u64 = x: int | 0 <= x < 0x1_0000_0000_0000_0000

  const DIRECTORY_ENTRY_SIZE := 32

  function Wrap(x: int): u64 {
    x % 0x1_0000_0000_0000_0000
  }

  function Div(n: nat, d: nat): (q: nat)
    requires d > 0
    ensures q * d <= n < q * d + d && q <= n
  {
    assert n / d <= n / d * d by {
      Scale(1, d, n / d);
    }
    n / d
  }

  /** The fields that geometry depends on; `sectorsPerFat32` is the one in the FAT32 extension. */
  datatype BootRecord = BootRecord(
    bytesPerSector: u16, sectorsPerCluster: u8, reservedSectors: u16, fats: u8, rootEntries: u16,
    totalSectors16: u16, totalSectors32: u32, sectorsPerFat16: u16, sectorsPerFat32: u32)
  {
    /** What the divisions need. */
    predicate WellFormed() {
      bytesPerSector > 0 && sectorsPerCluster > 0
    }

    function FirstFatSector(): nat {
      reservedSectors
    }

    function RootDirectorySectors(): nat
      requires WellFormed()
    {
      Div(rootEntries * DIRECTORY_ENTRY_SIZE + (bytesPerSector - 1), bytesPerSector)
    }

    function TotalSectors(): u32 {
      if totalSectors16 == 0 then totalSectors32 else totalSectors16
    }

    function FatSectors(): u32 {
      if sectorsPerFat16 == 0 then sectorsPerFat32 else sectorsPerFat16
    }

    function FirstDataSector(): u64
      requires WellFormed()
    {
      Wrap(reservedSectors + fats * FatSectors() + RootDirectorySectors())
    }

    function FirstRootDirectorySector(): u64
      requires WellFormed()
    {
      Wrap(FirstDataSector() - RootDirectorySectors())
    }

    function DataSectors(): u64
      requires WellFormed()
    {
      Wrap(TotalSectors() - FirstDataSector())
    }

    function TotalClusters(): u64
      requires WellFormed()
    {
      Div(DataSectors(), sectorsPerCluster)
    }

    function ClusterToSector(cluster: u64): u64
      requires WellFormed()
    {
      Wrap(Wrap(Wrap(cluster - 2) * sectorsPerCluster) + FirstDataSector())
    }

    function SectorToCluster(sector: u64): u64
      requires WellFormed()
    {
      Wrap(Div(Wrap(sector - FirstDataSector()), sectorsPerCluster) + 2)
    }

    /** The clusters that exist. */
    predicate IsCluster(cluster: u64)
      requires WellFormed()
    {
      2 <= cluster <= TotalClusters() + 1
    }
  }

  lemma WrapSmall(x: int)
    requires 0 <= x < 0x1_0000_0000_0000_0000
    ensures Wrap(x) == x
  {}

  lemma WrapBelow(x: int)
    requires -0x200_0000_0000 <= x < 0
    ensures Wrap(x) == x + 0x1_0000_0000_0000_0000
  {}

  lemma Scale(a: nat, b: nat, k: nat)
    ensures a <= b ==> a * k <= b * k
    ensures a < b ==> a * k + k <= b * k
  {
    if a < b {
      var d := b - a - 1;
      assert b * k == (a + 1 + d) * k == a * k + k + d * k;
    }
  }

  /** The product of a byte and a 32-bit value. */
  lemma Small(a: nat, b: nat)
    requires a <= 0x100 && b <= 0x1_0000_0000
    ensures 0 <= a * b <= 0x100_0000_0000
  {
    Scale(a, 0x100, b);
  }

  /** The volume in order: reserved sectors, the FATs, the root directory in as few sectors as hold it, data. */
  lemma Regions(b: BootRecord)
    requires b.WellFormed()
    ensures b.FirstRootDirectorySector() == b.FirstFatSector() + b.fats * b.FatSectors()
    ensures b.FirstDataSector() == b.FirstRootDirectorySector() + b.RootDirectorySectors()
    ensures b.rootEntries * 32 <= b.RootDirectorySectors() * b.bytesPerSector < b.rootEntries * 32 + b.bytesPerSector
    ensures b.FirstDataSector() < 0x200_0000_0000
  {
    hide Wrap, Div;
    Ceiling(b.rootEntries * 32, b.bytesPerSector);
    Small(b.fats, b.FatSectors());
    WrapSmall(b.reservedSectors + b.fats * b.FatSectors() + b.RootDirectorySectors());
    WrapSmall(b.reservedSectors + b.fats * b.FatSectors());
  }

  /** The same in the record's own fields: a 16-bit field counts unless it is zero, as it is on FAT32. */
  lemma RegionsOfFields(b: BootRecord, fat: nat, total: nat)
    requires b.WellFormed()
    requires b.sectorsPerFat16 > 0 ==> fat == b.sectorsPerFat16
    requires b.sectorsPerFat16 == 0 ==> fat == b.sectorsPerFat32
    requires b.totalSectors16 > 0 ==> total == b.totalSectors16
    requires b.totalSectors16 == 0 ==> total == b.totalSectors32
    ensures var root, data := b.reservedSectors + b.fats * fat, b.FirstDataSector();
            && b.FirstFatSector() == b.reservedSectors && b.FirstRootDirectorySector() == root
            && root * b.bytesPerSector + b.rootEntries * 32 <= data * b.bytesPerSector
            && data * b.bytesPerSector < root * b.bytesPerSector + b.rootEntries * 32 + b.bytesPerSector
            && (data <= total ==> b.DataSectors() == total - data)
            && (data > total ==> b.DataSectors() == total - data + 0x1_0000_0000_0000_0000)
  {
    hide Wrap, Div;
    Regions(b);
    var root, data := b.reservedSectors + b.fats * fat, b.FirstDataSector();
    assert data * b.bytesPerSector == root * b.bytesPerSector + b.RootDirectorySectors() * b.bytesPerSector;
    if data <= total {
      WrapSmall(total - data);
    } else {
      WrapBelow(total - data);
    }
  }

  /** A FAT32 volume of half a gigabyte. */
  lemma Fat32Volume()
    ensures var b := BootRecord(512, 8, 32, 2, 0, 0, 1000000, 0, 1000);
            && b.WellFormed() && b.FirstDataSector() == 2032 && b.TotalClusters() == 124746
            && b.ClusterToSector(2) == 2032 && b.SectorToCluster(2040) == 3
  {
    var b := BootRecord(512, 8, 32, 2, 0, 0, 1000000, 0, 1000);
    RegionsOfFields(b, 1000, 1000000);
    Divide(997968, 124746, 8);
    Divide(8, 1, 8);
  }

  lemma Ceiling(n: nat, d: nat)
    requires d > 0
    ensures var q := Div(n + (d - 1), d); n <= q * d < n + d && q <= n
  {
    hide Div;
    var q := Div(n + (d - 1), d);
    Scale(n, q, d);
    Scale(1, d, n);
  }

  /** The data region, when the volume reaches it, is its clusters and less than one more. */
  lemma Clusters(b: BootRecord)
    requires b.WellFormed() && b.FirstDataSector() <= b.TotalSectors()
    ensures var used := b.TotalClusters() * b.sectorsPerCluster;
            b.FirstDataSector() + used <= b.TotalSectors() < b.FirstDataSector() + used + b.sectorsPerCluster
    ensures b.TotalClusters() <= b.TotalSectors()
  {
    hide Wrap, Div, BootRecord.FirstDataSector;
    WrapSmall(b.TotalSectors() - b.FirstDataSector());
  }

  /** Where a cluster is, without the wrapping. */
  lemma ClusterStart(b: BootRecord, c: u64)
    requires b.WellFormed() && b.FirstDataSector() <= b.TotalSectors() && b.IsCluster(c)
    ensures b.ClusterToSector(c) == (c - 2) * b.sectorsPerCluster + b.FirstDataSector()
    ensures b.FirstDataSector() <= b.ClusterToSector(c)
    ensures b.ClusterToSector(c) + b.sectorsPerCluster <= b.TotalSectors()
  {
    hide Wrap, BootRecord.FirstDataSector, BootRecord.TotalClusters, BootRecord.TotalSectors;
    Clusters(b);
    WrapSmall(c - 2);
    var k, n := c - 2, b.TotalClusters();
    assert (k + 1) * b.sectorsPerCluster == k * b.sectorsPerCluster + b.sectorsPerCluster;
    Scale(k + 1, n, b.sectorsPerCluster);
    WrapSmall(k * b.sectorsPerCluster);
    WrapSmall(k * b.sectorsPerCluster + b.FirstDataSector());
  }

  /** Different clusters share no sector. */
  lemma ClustersDisjoint(b: BootRecord, c: u64, d: u64)
    requires b.WellFormed() && b.FirstDataSector() <= b.TotalSectors() && b.IsCluster(c) && b.IsCluster(d) && c < d
    ensures b.ClusterToSector(c) + b.sectorsPerCluster <= b.ClusterToSector(d)
  {
    hide Wrap, BootRecord.FirstDataSector, BootRecord.TotalClusters;
    hide BootRecord.TotalSectors, BootRecord.ClusterToSector;
    ClusterStart(b, c);
    ClusterStart(b, d);
    assert (c - 1) * b.sectorsPerCluster == (c - 2) * b.sectorsPerCluster + b.sectorsPerCluster;
    Scale(c - 1, d - 2, b.sectorsPerCluster);
  }

  /** Every sector of a cluster leads back to it. */
  lemma RoundTrip(b: BootRecord, c: u64, s: u64)
    requires b.WellFormed() && b.FirstDataSector() <= b.TotalSectors() && b.IsCluster(c)
    requires b.ClusterToSector(c) <= s < b.ClusterToSector(c) + b.sectorsPerCluster
    ensures b.SectorToCluster(s) == c
  {
    hide Wrap, BootRecord.FirstDataSector, BootRecord.TotalClusters;
    hide BootRecord.TotalSectors, BootRecord.ClusterToSector;
    ClusterStart(b, c);
    WrapSmall(s - b.FirstDataSector());
    Divide(s - b.FirstDataSector(), c - 2, b.sectorsPerCluster);
    WrapSmall(c);
  }

  lemma Divide(n: nat, q: nat, d: nat)
    requires d > 0 && q * d <= n < q * d + d
    ensures Div(n, d) == q
  {
    hide Div;
    Scale(Div(n, d), q, d);
    Scale(q, Div(n, d), d);
  }

  /** And every data sector, but for the remainder at the end, is in the cluster it leads to. */
  lemma SectorInCluster(b: BootRecord, s: u64)
    requires b.WellFormed() && b.FirstDataSector() <= s < b.FirstDataSector() + b.TotalClusters() * b.sectorsPerCluster
    requires b.FirstDataSector() <= b.TotalSectors()
    ensures b.IsCluster(b.SectorToCluster(s))
    ensures b.ClusterToSector(b.SectorToCluster(s)) <= s < b.ClusterToSector(b.SectorToCluster(s)) + b.sectorsPerCluster
  {
    hide Wrap, BootRecord.FirstDataSector, BootRecord.TotalClusters;
    hide BootRecord.TotalSectors, BootRecord.ClusterToSector;
    hide Div;
    var n, d := s - b.FirstDataSector(), b.sectorsPerCluster;
    Clusters(b);
    WrapSmall(n);
    var q := Div(n, d);
    WrapSmall(q + 2);
    Scale(b.TotalClusters(), q, d);
    ClusterStart(b, q + 2);
  }

  /** All clusters lie in the volume exactly when the volume reaches its own data region; otherwise the
      subtraction wraps around and the very first cluster is out of bounds. */
  lemma ClustersInside(b: BootRecord)
    requires b.WellFormed()
    ensures (forall c: u64 :: b.IsCluster(c) ==> b.ClusterToSector(c) + b.sectorsPerCluster <= b.TotalSectors())
            <==> b.FirstDataSector() <= b.TotalSectors()
  {
    if b.FirstDataSector() <= b.TotalSectors() {
      forall c: u64 | b.IsCluster(c) ensures b.ClusterToSector(c) + b.sectorsPerCluster <= b.TotalSectors() {
        ClusterStart(b, c);
      }
    } else {
      FirstClusterOutside(b);
    }
  }

  lemma FirstClusterOutside(b: BootRecord)
    requires b.WellFormed() && b.FirstDataSector() > b.TotalSectors()
    ensures b.IsCluster(2) && b.ClusterToSector(2) == b.FirstDataSector()
  {
    hide Wrap, Div, BootRecord.FirstDataSector;
    Regions(b);
    WrapBelow(b.TotalSectors() - b.FirstDataSector());
    WrapSmall(0);
    WrapSmall(0 * b.sectorsPerCluster);
    WrapSmall(b.FirstDataSector());
  }

  /** A volume of 16 sectors whose FATs alone take 20. */
  lemma OverfullVolume()
    ensures var b := BootRecord(512, 1, 1, 2, 0, 16, 0, 10, 0);
            b.WellFormed() && b.IsCluster(2) && b.ClusterToSector(2) == 21 > b.TotalSectors() == 16
  {
    var b := BootRecord(512, 1, 1, 2, 0, 16, 0, 10, 0);
    assert b.RootDirectorySectors() == 0;
    assert b.FirstDataSector() == 21;
    FirstClusterOutside(b);
  }
}
