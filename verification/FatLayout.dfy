/** A FAT12/FAT16 image mounted: the layout its boot sector gives, and the allocation table read out of it. */
module FatLayout {
  import opened Machine

  const SECTOR := 512
  const ENTRY_SIZE := 32
  const FAT12_MAX_CLUSTERS := 4084
  const FAT16_MAX_CLUSTERS := 65524

  datatype Image = Image(
    data: seq<Byte>, sectorsPerCluster: Byte, fatCount: Byte, rootEntries: Word, sectorsPerFat: Word,
    reservedSectors: Word, totalSectors: Dword, isFat16: bool,
    fatOffset: Dword, rootOffset: Dword, dataOffset: Dword, clusterSize: Dword, clusterCount: Dword)

  /** The C cast `(DWORD)value`, for sums and products that may not fit. */
  function ToDword(value: nat): Dword {
    value % 0x1_0000_0000
  }

  function DwordIn(data: seq<Byte>, at: nat): Dword
    requires at + 3 < |data|
  {
    data[at] as int + 0x100 * data[at + 1] as int + 0x1_0000 * data[at + 2] as int + 0x100_0000 * data[at + 3] as int
  }

  predicate IsPowerOfTwo(n: Byte) {
    n in {1, 2, 4, 8, 16, 32, 64, 128}
  }

  /** The sectors all FATs take. */
  function FatSectors(fats: Byte, perFat: Word): (sectors: nat)
    ensures fats > 0 ==> sectors >= perFat
  {
    Product(fats, perFat);
    fats * perFat
  }

  lemma Product(fats: nat, perFat: nat)
    ensures fats * perFat >= 0
    ensures fats > 0 ==> fats * perFat >= perFat
  {
  }

  /** The sums and products of the layout stay below 2^32, so that no DWORD wraps. */
  predicate FitsDword(data: seq<Byte>)
    requires |data| >= SECTOR
  {
    var reserved, fats, root, perFat := WordIn(data, 14), data[16], WordIn(data, 17), WordIn(data, 22);
    && 512 * reserved + 512 * FatSectors(fats, perFat) + 32 * root + 1024 < 0x1_0000_0000
    && 512 * TotalSectors(data) < 0x1_0000_0000
  }

  function TotalSectors(data: seq<Byte>): Dword
    requires |data| >= SECTOR
  {
    if WordIn(data, 19) != 0 then WordIn(data, 19) else DwordIn(data, 32)
  }

  /** What every reader of a mounted image relies on. */
  ghost predicate WellLaid(image: Image) {
    && 0 < image.sectorsPerCluster && image.clusterSize == 512 * image.sectorsPerCluster
    && 0 < image.clusterCount <= 65524
    && image.isFat16 == (image.clusterCount > 4084)
    && 0 < image.fatOffset <= image.rootOffset
    && image.rootOffset + 32 * image.rootEntries <= |image.data| < 0x1_0000_0000
    && image.rootOffset + 32 * image.rootEntries <= image.dataOffset <= |image.data|
    && image.fatOffset + FatBytes(image) <= image.rootOffset
  }

  /** The data area ends within a DWORD. */
  ghost predicate DataFits(image: Image) {
    image.dataOffset + image.clusterCount * image.clusterSize < 0x1_0000_0000
  }

  /** The bytes a FAT needs for entries 0 .. clusterCount + 1. */
  function FatBytes(image: Image): nat {
    if image.isFat16 then (image.clusterCount + 2) * 2 else ((image.clusterCount + 2) * 3 + 1) / 2
  }

  /** The offsets the mount computes from the boot sector's counts. */
  function RootOffset(reserved: Word, fats: Byte, perFat: Word): Dword {
    ToDword(reserved * SECTOR + FatSectors(fats, perFat) * SECTOR)
  }

  function FirstDataSector(rootOffset: Dword, root: Word): nat {
    rootOffset / SECTOR + (root * ENTRY_SIZE + SECTOR - 1) / SECTOR
  }

  /** FatImageMount: the layout, or nothing when this reader cannot serve the volume. */
  function FatImageMount(data: seq<Byte>): (image: Option<Image>)
    requires |data| < 0x1_0000_0000
  {
    hide ToDword, RootOffset, FirstDataSector, FatSectors, TotalSectors, WordIn;
    if |data| < SECTOR then None
    else
      var perCluster, reserved, fats, root := data[13], WordIn(data, 14), data[16], WordIn(data, 17);
      var total, perFat := TotalSectors(data), WordIn(data, 22);
      if WordIn(data, 11) != SECTOR || perCluster == 0 || !IsPowerOfTwo(perCluster) || fats == 0
         || root == 0 || perFat == 0 || reserved == 0 || total == 0 then None
      else
        var rootOffset := RootOffset(reserved, fats, perFat);
        var first := FirstDataSector(rootOffset, root);
        var dataOffset := ToDword(first * SECTOR);
        if total <= first || dataOffset > |data| then None
        else
          Quotient(total - first, perCluster);
          var clusterCount: Dword := (total - first) / perCluster;
          var image := Image(data, perCluster, fats, root, perFat, reserved, total, clusterCount > FAT12_MAX_CLUSTERS,
                             reserved * SECTOR, rootOffset, dataOffset, perCluster * SECTOR, clusterCount);
          if clusterCount == 0 || clusterCount > FAT16_MAX_CLUSTERS then None
          else if FatBytes(image) > perFat * SECTOR || ToDword(rootOffset + root * ENTRY_SIZE) > |data| then None
          else Some(image)
  }

  lemma Quotient(n: nat, d: nat)
    requires d > 0
    ensures 0 <= n / d <= n
  {
    DivTimes(n, d);
    AtMost(n / d, d, n);
  }

  lemma AtMost(q: int, d: nat, n: nat)
    requires d > 0 && q * d <= n < (q + 1) * d
    ensures 0 <= q <= n
  {
    if q < 0 {
      NoneNegative(q + 1, d);
    } else {
      Product(d, q);
    }
  }

  lemma NoneNegative(a: int, d: nat)
    requires a <= 0
    ensures a * d <= 0
  {
  }

  /** A mounted image whose layout fits a DWORD is in order: FATs, root directory, data area, all inside the file. */
  lemma MountedIsWellLaid(data: seq<Byte>)
    requires |data| < 0x1_0000_0000 && FatImageMount(data).Some? && FitsDword(data)
    ensures FatImageMount(data).value.data == data
    ensures WellLaid(FatImageMount(data).value) && DataFits(FatImageMount(data).value)
  {
    var image := FatImageMount(data).value;
    var reserved, fats, root, perFat := WordIn(data, 14), data[16], WordIn(data, 17), WordIn(data, 22);
    var total := TotalSectors(data);
    RootOffsetFits(reserved, fats, perFat);
    FirstDataSectorFits(reserved, FatSectors(fats, perFat), root);
    ClustersFit(total - FirstDataSector(image.rootOffset, root), data[13]);
  }

  /**
   * Without that: what the mount's own tests leave open. The layout is in order exactly when the entries of
   * all clusters end before the root directory and the root directory ends before the data area.
   */
  lemma MountedIsWellLaidIff(data: seq<Byte>)
    requires |data| < 0x1_0000_0000 && FatImageMount(data).Some?
    ensures var image := FatImageMount(data).value;
            && image.data == data && image.fatOffset == SECTOR * WordIn(data, 14)
            && (WellLaid(image)
                <==> && image.fatOffset + FatBytes(image) <= image.rootOffset
                     && image.rootOffset + ENTRY_SIZE * image.rootEntries <= image.dataOffset)
  {
  }

  /** Sectors up to `bytes`, the last one perhaps not full. */
  function SectorsFor(bytes: nat): (sectors: nat)
    ensures 512 * sectors >= bytes && 512 * sectors < bytes + 512
  {
    (bytes + 512 - 1) / 512
  }

  /** `clusters` whole clusters, and no more, fit into that many sectors. */
  predicate HoldsWhole(sectors: nat, perCluster: nat, clusters: nat) {
    clusters * perCluster <= sectors < (clusters + 1) * perCluster
  }

  /** One past the last byte of a cluster's entry in a FAT for that many clusters. */
  function EntryEnd(clusters: nat, cluster: nat): nat {
    if clusters > 4084 then 2 * cluster + 2 else cluster * 3 / 2 + 2
  }

  /**
   * A FAT12 or FAT16 volume of 512-byte sectors whose data starts at sector `first`: as many whole clusters
   * as fit behind it, and in the FAT an entry for each.
   */
  ghost predicate IsVolumeFrom(data: seq<Byte>, first: nat, clusters: nat) {
    && |data| >= 512
    && var perCluster, reserved, fats, root := data[13], WordIn(data, 14), data[16], WordIn(data, 17);
       var total, perFat := TotalSectors(data), WordIn(data, 22);
       && WordIn(data, 11) == 512 && IsPowerOfTwo(perCluster)
       && 0 < fats && 0 < root && 0 < perFat && 0 < reserved
       && first < total
       && HoldsWhole(total - first, perCluster, clusters) && 0 < clusters <= 65524
       && forall cluster :: 2 <= cluster < clusters + 2 ==> EntryEnd(clusters, cluster) <= 512 * perFat
  }

  /** Reserved sectors, FATs, root directory and data one after the other, and the data area starts inside the file. */
  ghost predicate IsVolume(data: seq<Byte>, clusters: nat) {
    && |data| >= 512
    && var first := WordIn(data, 14) + FatSectors(data[16], WordIn(data, 22))
         + SectorsFor(32 * WordIn(data, 17));
       IsVolumeFrom(data, first, clusters) && 512 * first <= |data|
  }

  /** The same with sector counts taken modulo 2^23, as DWORD offsets have them, and ends taken modulo 2^32. */
  ghost predicate IsWrappedVolume(data: seq<Byte>, clusters: nat) {
    && |data| >= 512
    && var inFront, root := (WordIn(data, 14) + FatSectors(data[16], WordIn(data, 22))) % 0x80_0000, WordIn(data, 17);
       var first := inFront + SectorsFor(32 * root);
       && IsVolumeFrom(data, first, clusters)
       && ToDword(512 * first) <= |data| && ToDword(512 * inFront + 32 * root) <= |data|
  }

  /** Whatever the boot sector's counts are: exactly the volumes modulo 2^32 mount. */
  lemma MountsExactlyWrapped(data: seq<Byte>)
    requires |data| < 0x1_0000_0000
    ensures FatImageMount(data).Some? <==> exists clusters :: IsWrappedVolume(data, clusters)
    ensures FatImageMount(data).Some? ==> IsWrappedVolume(data, FatImageMount(data).value.clusterCount)
  {
    hide WordIn, DwordIn, TotalSectors, SectorsFor, RootOffset, ToDword, FatSectors, HoldsWhole, EntryEnd;
    if |data| >= SECTOR && IsPowerOfTwo(data[13]) {
      var reserved, fats, root, perFat := WordIn(data, 14), data[16], WordIn(data, 17), WordIn(data, 22);
      RootOffsetWraps(reserved, fats, perFat);
      FirstDataSectorIs((reserved + FatSectors(fats, perFat)) % 0x80_0000, root);
      var first := (reserved + FatSectors(fats, perFat)) % 0x80_0000 + SectorsFor(ENTRY_SIZE * root);
      if TotalSectors(data) > first {
        var sectors := TotalSectors(data) - first;
        WholeClusters(sectors, data[13]);
        if sectors / data[13] > 0 {
          EntriesFit(sectors / data[13], perFat);
          assert IsWrappedVolume(data, sectors / data[13]) <==> FatImageMount(data).Some?;
        }
      }
    }
  }

  /** While the layout fits a DWORD, exactly the volumes mount, and the layout is the one their boot sector gives. */
  lemma MountsExactlyVolumes(data: seq<Byte>)
    requires SECTOR <= |data| < 0x1_0000_0000 && FitsDword(data)
    ensures FatImageMount(data).Some? <==> exists clusters :: IsVolume(data, clusters)
    ensures FatImageMount(data).Some? ==>
              var image := FatImageMount(data).value;
              && IsVolume(data, image.clusterCount)
              && image.fatOffset == 512 * WordIn(data, 14)
              && image.rootOffset == 512 * (WordIn(data, 14) + FatSectors(data[16], WordIn(data, 22)))
              && image.dataOffset == image.rootOffset + 512 * SectorsFor(32 * WordIn(data, 17))
  {
    hide WordIn, DwordIn, TotalSectors, SectorsFor, RootOffset, ToDword, FatSectors, HoldsWhole, EntryEnd, IsVolumeFrom;
    var reserved, fats, root, perFat := WordIn(data, 14), data[16], WordIn(data, 17), WordIn(data, 22);
    var inFront: nat := reserved + FatSectors(fats, perFat);
    MountsExactlyWrapped(data);
    SmallDword(SECTOR * (inFront + SectorsFor(ENTRY_SIZE * root)));
    SmallDword(SECTOR * inFront + ENTRY_SIZE * root);
    assert inFront % 0x80_0000 == inFront;
    assert forall clusters :: IsVolume(data, clusters) <==> IsWrappedVolume(data, clusters);
    RootOffsetWraps(reserved, fats, perFat);
    FirstDataSectorIs(inFront, root);
  }

  /** The sizes of a mounted image: its clusters', its root directory's, and which of the two FATs it has. */
  lemma MountedSizes(data: seq<Byte>)
    requires 512 <= |data| < 0x1_0000_0000 && FatImageMount(data).Some?
    ensures var image := FatImageMount(data).value;
            && image.data == data && image.rootEntries == WordIn(data, 17)
            && image.totalSectors == (if WordIn(data, 19) != 0 then WordIn(data, 19) else DwordIn(data, 32))
            && image.clusterSize == 512 * data[13] as int && image.isFat16 == (image.clusterCount > 4084)
  {
  }

  /** The division counts the whole clusters. */
  lemma WholeClusters(sectors: nat, perCluster: Byte)
    requires IsPowerOfTwo(perCluster)
    ensures forall clusters: nat :: HoldsWhole(sectors, perCluster, clusters) <==> clusters == sectors / perCluster
  {
    forall clusters: nat | HoldsWhole(sectors, perCluster, clusters)
      ensures clusters == sectors / perCluster
    {
      QuotientIs(sectors, perCluster, clusters);
    }
    DivTimes(sectors, perCluster);
  }

  lemma QuotientIs(n: nat, d: nat, q: nat)
    requires d > 0 && q * d <= n < (q + 1) * d
    ensures n / d == q
  {
    DivTimes(n, d);
    Cancel(n / d, q + 1, d);
    Cancel(q, n / d + 1, d);
  }

  lemma Cancel(a: nat, b: nat, d: nat)
    requires a * d < b * d
    ensures a < b
  {
  }

  /** The mount's one test covers every entry, and asks no more than they need. */
  lemma EntriesFit(clusters: nat, perFat: nat)
    requires clusters > 0
    ensures (forall cluster :: 2 <= cluster < clusters + 2 ==> EntryEnd(clusters, cluster) <= SECTOR * perFat)
       <==> (if clusters > FAT12_MAX_CLUSTERS then (clusters + 2) * 2
             else ((clusters + 2) * 3 + 1) / 2) <= perFat * SECTOR
  {
    assert EntryEnd(clusters, clusters + 1)
        == if clusters > FAT12_MAX_CLUSTERS then (clusters + 2) * 2 else ((clusters + 2) * 3 + 1) / 2;
  }

  lemma RootOffsetFits(reserved: Word, fats: Byte, perFat: Word)
    requires 512 * reserved + 512 * FatSectors(fats, perFat) < 0x1_0000_0000 && fats > 0
    ensures RootOffset(reserved, fats, perFat) == 512 * (reserved + FatSectors(fats, perFat))
  {
    hide FatSectors;
    SmallDword(reserved * SECTOR + FatSectors(fats, perFat) * SECTOR);
  }

  /** The root directory's offset wraps as its sector does. */
  lemma RootOffsetWraps(reserved: Word, fats: Byte, perFat: Word)
    ensures RootOffset(reserved, fats, perFat) == 512 * ((reserved + FatSectors(fats, perFat)) % 0x80_0000)
  {
    hide FatSectors, ToDword;
    var sectors := FatSectors(fats, perFat);
    SectorWraps(reserved + sectors);
    assert reserved * SECTOR + sectors * SECTOR == 512 * (reserved + sectors);
  }

  lemma SectorWraps(sectors: nat)
    ensures ToDword(512 * sectors) == 512 * (sectors % 0x80_0000)
  {
    var quotient := sectors / 0x80_0000;
    assert 512 * sectors == quotient * 0x1_0000_0000 + 512 * (sectors % 0x80_0000);
  }

  lemma FirstDataSectorIs(inFront: nat, root: Word)
    requires inFront < 0x80_0000
    ensures FirstDataSector(512 * inFront, root) == inFront + SectorsFor(ENTRY_SIZE * root)
  {
    assert 512 * inFront / SECTOR == inFront;
  }

  lemma SmallDword(n: nat)
    requires n < 0x1_0000_0000
    ensures ToDword(n) == n
  {
  }

  lemma FirstDataSectorFits(reserved: Word, sectors: nat, root: Word)
    requires 512 * reserved + 512 * sectors + 32 * root + 1024 < 0x1_0000_0000
    ensures var rootOffset := 512 * (reserved + sectors);
            var first := FirstDataSector(rootOffset, root);
            && ToDword(first * SECTOR) == first * SECTOR && rootOffset + 32 * root <= first * SECTOR
            && first == reserved + sectors + SectorsFor(ENTRY_SIZE * root)
  {
    var rootOffset := 512 * (reserved + sectors);
    assert rootOffset / SECTOR == reserved + sectors;
  }

  lemma ClustersFit(sectors: nat, perCluster: Byte)
    requires perCluster > 0
    ensures sectors / perCluster * (perCluster * SECTOR) <= 512 * sectors
  {
    var count := sectors / perCluster;
    DivTimes(sectors, perCluster);
    assert count * (perCluster * SECTOR) == (count * perCluster) * 512;
  }

  lemma DivTimes(n: nat, d: nat)
    requires d > 0
    ensures n / d * d <= n < (n / d + 1) * d
  {
  }

  // ---- a boot sector whose counts wrap ----

  /** The boot sector's fields the mount reads, and zeros up to 4096 bytes. */
  function WrappingFile(): (data: seq<Byte>)
    ensures |data| == 4096
    ensures WordIn(data, 11) == SECTOR && data[13] == 1 && WordIn(data, 14) == 1 && data[16] == 129
    ensures WordIn(data, 17) == 16 && WordIn(data, 19) == 0 && WordIn(data, 22) == 65028 && DwordIn(data, 32) == 65000
  {
    seq(11, _ => 0) + [0, 2, 1, 1, 0, 129, 16, 0, 0, 0, 0xF0, 4, 254] + seq(8, _ => 0) + [232, 253, 0, 0]
        + seq(4060, _ => 0)
  }

  /**
   * 129 FATs of 65028 sectors are 2560 bytes more than 2^32: the root directory and the data area seem to lie in
   * the first 4096 bytes, and 64994 clusters to be described by a FAT that is not there. No volume is like that.
   */
  lemma WrappingFileMounts()
    ensures var image := FatImageMount(WrappingFile());
            && image.Some? && image.value.clusterCount == 64994 && image.value.isFat16
            && image.value.fatOffset + FatBytes(image.value) > |image.value.data|
    ensures forall clusters :: !IsVolume(WrappingFile(), clusters)
  {
    hide WordIn, DwordIn, WrappingFile;
    assert RootOffset(1, 129, 65028) == 2048 + 512;
    assert FirstDataSector(2560, 16) == 6;
  }
}
