/** The volume geometry computed by probe: regions of the volume, FAT type, and where clusters lie. */
module FatGeometry {
  import opened FatTable
  import opened Machine

  /** The fields of the boot sector that probe reads. */
  datatype Bpb = Bpb(
    oemId: seq<char>, bytesPerSector: Word16, sectorsPerCluster: bv8, reservedSectors: Word16, fatCount: Byte,
    rootDirEntries: Word16, totalSectors: Word16, sectorsPerFat: Word16, largeSectorCount: Word32,
    signature: Byte, sectorsPerFat32: Word32, rootDirCluster: Word32, signature32: Byte, bootSig: Word16)

  datatype FsInfo = FsInfo(lead: Word32, signature: Word32, trail: Word32)

  datatype VolumeInfo = VolumeInfo(
    kind: FatType, bytesPerSector: nat, sectorsPerCluster: nat, reservedSectors: nat, sectorsPerFat: nat, fatCount: nat,
    totalSectors: nat, fatLBA: nat, rootDirectoryLBA: nat, dataLBA: nat, rootDirSectors: nat, dataSectors: nat,
    totalClusters: nat, rootCluster: nat, chainEndCluster: nat)

  predicate IsValidSectorSize(size: int) {
    size in {512, 1024, 2048, 4096}
  }

  predicate IsPowerOfTwo(n: bv8) {
    n > 0 && n & (n - 1) == 0
  }

  lemma PowersOfTwo(n: bv8)
    ensures IsPowerOfTwo(n) <==> n in {1, 2, 4, 8, 16, 32, 64, 128}
  {
  }

  const ROOT_ENTRY_SIZE := 32

  function FatArea(sectorsPerFat: nat, fatCount: nat): nat {
    sectorsPerFat * fatCount
  }

  function ClusterCount(dataSectors: nat, sectorsPerCluster: nat): nat
    requires sectorsPerCluster > 0
  {
    dataSectors / sectorsPerCluster
  }

  const EXFAT: seq<char> := "EXFAT"
  const NTFS: seq<char> := "NTFS"

  /** The fields of the volume that come before its type. */
  ghost predicate IsLayout(bpb: Bpb, v: VolumeInfo) {
    && IsValidSectorSize(v.bytesPerSector) && v.bytesPerSector == bpb.bytesPerSector
    && 0 < v.sectorsPerCluster == bpb.sectorsPerCluster as int && IsPowerOfTwo(bpb.sectorsPerCluster)
    && 0 < v.reservedSectors == bpb.reservedSectors && 0 < v.fatCount == bpb.fatCount
    && 0 < v.sectorsPerFat == (if bpb.sectorsPerFat != 0 then bpb.sectorsPerFat else bpb.sectorsPerFat32 % 0x1_0000)
    && v.totalSectors == (if bpb.totalSectors != 0 then bpb.totalSectors else bpb.largeSectorCount)
    && v.fatLBA == v.reservedSectors
    && v.rootDirectoryLBA == v.fatLBA + FatArea(v.sectorsPerFat, v.fatCount)
    && v.dataLBA == v.rootDirectoryLBA + v.rootDirSectors
    && v.rootDirSectors == DivideRoundUp(bpb.rootDirEntries * ROOT_ENTRY_SIZE, v.bytesPerSector)
    && v.dataSectors == ToUint32(v.totalSectors - v.dataLBA)
    && v.totalClusters == ClusterCount(v.dataSectors, v.sectorsPerCluster)
  }

  /** What every accepted volume satisfies. */
  ghost predicate IsGeometry(bpb: Bpb, v: VolumeInfo) {
    && IsLayout(bpb, v) && 0 < v.totalClusters
    && v.kind == (if v.totalClusters < 4085 then FAT12 else if v.totalClusters < 65525 then FAT16 else FAT32)
    && (v.kind == FAT32 ==> v.rootDirSectors == 0)
    && v.rootCluster == (if v.kind == FAT32 then bpb.rootDirCluster else 0)
    && v.chainEndCluster == (if v.kind == FAT12 then 0xFF7 else if v.kind == FAT16 then 0xFFF7 else 0x0FFFFFF7)
  }

  /** The extended boot record, and on FAT32 the information sector, carry their signatures. */
  predicate IsSigned(bpb: Bpb, fsinfo: FsInfo, kind: FatType) {
    && (if kind == FAT32 then bpb.signature32 else bpb.signature) in {0x28, 0x29}
    && (kind == FAT32 ==> fsinfo == FsInfo(0x41615252, 0x61417272, 0xAA550000))
  }

  ghost predicate Accepts(bpb: Bpb, fsinfo: FsInfo, v: VolumeInfo) {
    IsGeometry(bpb, v) && IsSigned(bpb, fsinfo, v.kind)
  }

  /** The FAT type by the number of clusters, or None. */
  method Classify(totalClusters: nat, rootDirSectors: nat) returns (kind: Option<FatType>)
    ensures kind.Some? <==> totalClusters > 0 && (totalClusters < 65525 || rootDirSectors == 0)
    ensures kind.Some? ==>
              kind.value == if totalClusters < 4085 then FAT12 else if totalClusters < 65525 then FAT16 else FAT32
  {
    if totalClusters == 0 {
      kind := None;
    } else if totalClusters < 4085 {
      kind := Some(FAT12);
    } else if totalClusters < 65525 {
      kind := Some(FAT16);
    } else if rootDirSectors == 0 {
      kind := Some(FAT32);
    } else {
      kind := None;
    }
  }

  /** The regions of the volume, as far as its type does not matter. */
  method Regions(bpb: Bpb) returns (r: Option<VolumeInfo>)
    requires IsValidSectorSize(bpb.bytesPerSector) && IsPowerOfTwo(bpb.sectorsPerCluster)
    ensures r.Some? ==> IsLayout(bpb, r.value)
    ensures r.None? ==> forall v :: !IsLayout(bpb, v)
  {
    assert bpb.bytesPerSector > 0 && bpb.sectorsPerCluster as int > 0;
    hide DivideRoundUp, FatArea, ClusterCount, ToUint32, IsValidSectorSize, IsPowerOfTwo;
    var sectorsPerFat := bpb.sectorsPerFat;
    if sectorsPerFat == 0 {
      sectorsPerFat := bpb.sectorsPerFat32 % 0x1_0000;
    }
    if bpb.reservedSectors == 0 || bpb.fatCount == 0 || sectorsPerFat == 0 {
      return None;
    }
    var totalSectors: Word32 := bpb.totalSectors;
    if totalSectors == 0 {
      totalSectors := bpb.largeSectorCount;
    }
    var fatLBA := bpb.reservedSectors;
    var fatSectors := FatArea(sectorsPerFat, bpb.fatCount);
    var rootDirectoryLBA := fatLBA + fatSectors;
    var rootDirSectors := DivideRoundUp(bpb.rootDirEntries * ROOT_ENTRY_SIZE, bpb.bytesPerSector);
    var dataLBA := rootDirectoryLBA + rootDirSectors;
    var dataSectors := ToUint32(totalSectors - (bpb.reservedSectors + fatSectors + rootDirSectors));
    var totalClusters := ClusterCount(dataSectors, bpb.sectorsPerCluster as int);
    r := Some(VolumeInfo(FAT12, bpb.bytesPerSector, bpb.sectorsPerCluster as int, bpb.reservedSectors, sectorsPerFat,
                         bpb.fatCount, totalSectors, fatLBA, rootDirectoryLBA, dataLBA, rootDirSectors, dataSectors,
                         totalClusters, 0, 0));
  }

  predicate SameRegions(v: VolumeInfo, w: VolumeInfo) {
    w == v.(kind := w.kind, rootCluster := w.rootCluster, chainEndCluster := w.chainEndCluster)
  }

  lemma SameLayout(bpb: Bpb, v: VolumeInfo, w: VolumeInfo)
    requires IsLayout(bpb, v)
    ensures IsLayout(bpb, w) <==> SameRegions(v, w)
  {
    hide DivideRoundUp, FatArea, ClusterCount, ToUint32, IsValidSectorSize, IsPowerOfTwo;
  }

  /** The part of probe behind the checks of the boot sector's form. */
  method Measure(bpb: Bpb, fsinfo: FsInfo) returns (r: Option<VolumeInfo>)
    requires IsValidSectorSize(bpb.bytesPerSector) && IsPowerOfTwo(bpb.sectorsPerCluster)
    ensures r.Some? ==> Accepts(bpb, fsinfo, r.value)
    ensures r.None? ==> forall v :: !Accepts(bpb, fsinfo, v)
  {
    r := Regions(bpb);
    if r.None? {
      return;
    }
    var info := r.value;
    forall w ensures IsLayout(bpb, w) <==> SameRegions(info, w) {
      SameLayout(bpb, info, w);
    }
    hide IsLayout, IsValidSectorSize, IsPowerOfTwo;
    var k := Classify(info.totalClusters, info.rootDirSectors);
    if k.None? {
      return None;
    }
    info := info.(kind := k.value);
    var signature := if info.kind == FAT32 then bpb.signature32 else bpb.signature;
    if signature != 0x28 && signature != 0x29 {
      return None;
    }
    if info.kind == FAT32 {
      if fsinfo.lead != 0x41615252 || fsinfo.signature != 0x61417272 || fsinfo.trail != 0xAA550000 {
        return None;
      }
      info := info.(rootCluster := bpb.rootDirCluster, chainEndCluster := 0x0FFFFFF7);
    } else {
      info := info.(rootCluster := 0, chainEndCluster := if info.kind == FAT12 then 0xFF7 else 0xFFF7);
    }
    r := Some(info);
  }

  method Probe(bpb: Bpb, fsinfo: FsInfo) returns (r: Option<VolumeInfo>)
    ensures r.Some? ==> bpb.bootSig == 0xAA55 && !(EXFAT <= bpb.oemId) && !(NTFS <= bpb.oemId)
    ensures r.Some? ==> Accepts(bpb, fsinfo, r.value) && RegionsAdjoin(r.value) && ClustersFill(r.value)
    ensures r.None? ==> bpb.bootSig != 0xAA55 || EXFAT <= bpb.oemId || NTFS <= bpb.oemId
                        || forall v :: !Accepts(bpb, fsinfo, v)
  {
    if bpb.bootSig != 0xAA55 {
      return None;
    }
    if EXFAT <= bpb.oemId || NTFS <= bpb.oemId {
      return None;
    }
    if !IsValidSectorSize(bpb.bytesPerSector) {
      return None;
    }
    if !IsPowerOfTwo(bpb.sectorsPerCluster) {
      return None;
    }
    r := Measure(bpb, fsinfo);
    hide IsGeometry, RegionsAdjoin, ClustersFill;
    if r.Some? {
      GeometryMeans(bpb, r.value);
    }
  }

  // ---- what the geometry means

  /** The sectors per FAT that the boot sector declares. */
  function DeclaredFat(bpb: Bpb): nat {
    if bpb.sectorsPerFat != 0 then bpb.sectorsPerFat else bpb.sectorsPerFat32
  }

  /** They are kept exactly when they fit 16 bits; a larger number that is a multiple of 0x10000 is refused. */
  lemma FatSizeKept(bpb: Bpb, v: VolumeInfo)
    ensures IsLayout(bpb, v) ==> (v.sectorsPerFat == DeclaredFat(bpb) <==> DeclaredFat(bpb) < 0x1_0000)
    ensures IsLayout(bpb, v) ==> v.sectorsPerFat <= DeclaredFat(bpb)
    ensures DeclaredFat(bpb) % 0x1_0000 == 0 ==> !IsLayout(bpb, v)
  {
    hide DivideRoundUp, FatArea, ClusterCount, ToUint32, IsValidSectorSize, IsPowerOfTwo;
  }

  lemma MulBelow(a: nat, b: nat, m: nat)
    requires m > 0
    ensures a < b ==> a * m < b * m
  {
  }

  /** The data area starts where the declared sizes put it exactly when the sectors per FAT were kept. */
  lemma DataStartsAsDeclared(bpb: Bpb, v: VolumeInfo)
    requires IsLayout(bpb, v)
    ensures v.dataLBA == bpb.reservedSectors + FatArea(DeclaredFat(bpb), bpb.fatCount) + v.rootDirSectors <==>
            DeclaredFat(bpb) < 0x1_0000
  {
    FatSizeKept(bpb, v);
    MulBelow(v.sectorsPerFat, DeclaredFat(bpb), bpb.fatCount);
    assert FatArea(v.sectorsPerFat, bpb.fatCount) == FatArea(DeclaredFat(bpb), bpb.fatCount) <==>
           v.sectorsPerFat == DeclaredFat(bpb);
    hide FatArea, DeclaredFat, DivideRoundUp, ClusterCount, ToUint32, IsValidSectorSize, IsPowerOfTwo;
  }

  /** A volume of 0x1_0001 sectors per FAT: its data start at sector 131106, the driver takes sector 34. */
  lemma LargeFatMisplaced()
    ensures var bpb := Bpb("MSWIN4.1", 512, 1, 32, 2, 0, 0, 0, 8520000, 0, 0x1_0001, 2, 0x29, 0xAA55);
            var v := VolumeInfo(FAT32, 512, 1, 32, 1, 2, 8520000, 32, 34, 34, 0, 8519966, 8519966, 2, 0x0FFFFFF7);
            && Accepts(bpb, FsInfo(0x41615252, 0x61417272, 0xAA550000), v)
            && 32 + DeclaredFat(bpb) * 2 == 131106 && v.dataLBA == 34
  {
  }

  /** The data area ends with the volume exactly when the metadata fits on it; otherwise its size has wrapped. */
  lemma DataEndsWithVolume(bpb: Bpb, v: VolumeInfo)
    requires IsGeometry(bpb, v)
    ensures v.dataLBA + v.dataSectors == v.totalSectors <==> v.dataLBA <= v.totalSectors
  {
    assert v.totalSectors < TWO_32;
    assert v.dataLBA <= v.totalSectors ==> 0 <= v.totalSectors - v.dataLBA < TWO_32;
  }

  /** How many values an entry of the table has. */
  function EntryValues(kind: FatType): nat {
    match kind
    case FAT12 => ENTRY12
    case FAT16 => ENTRY16
    case FAT32 => ENTRY28
  }

  /**
    The type is the first whose entries can name every cluster and still leave the ten highest values free; of those
    the chain ends at the last nine, the mark of a bad cluster and the eight of the end. Only the two smaller types
    keep the root directory in a region of its own.
   */
  lemma TypeFitsEntries(bpb: Bpb, v: VolumeInfo)
    requires IsGeometry(bpb, v)
    ensures v.kind == FAT12 <==> v.totalClusters + 1 < EntryValues(FAT12) - 10
    ensures v.kind == FAT16 <==> EntryValues(FAT12) - 10 <= v.totalClusters + 1 < EntryValues(FAT16) - 10
    ensures v.chainEndCluster == EntryValues(v.kind) - 9
    ensures v.rootCluster == 0 || v.kind == FAT32
    ensures v.kind == FAT32 ==> v.rootCluster == bpb.rootDirCluster && v.dataLBA == v.rootDirectoryLBA
  {
  }

  /** A volume declares its sectors in one of two fields; the small one is believed when both are set. */
  lemma SectorsDeclared(bpb: Bpb, v: VolumeInfo)
    requires IsLayout(bpb, v)
    ensures bpb.totalSectors == 0 || bpb.largeSectorCount == 0 ==>
              v.totalSectors == bpb.totalSectors + bpb.largeSectorCount
    ensures bpb.totalSectors != 0 ==> v.totalSectors == bpb.totalSectors < 0x1_0000
  {
    hide DivideRoundUp, FatArea, ClusterCount, ToUint32, IsValidSectorSize, IsPowerOfTwo;
  }

  /** A floppy disk of 1.44 MB: 2847 clusters of one sector from sector 33 on, the root directory at 19. */
  lemma Floppy()
    ensures var bpb := Bpb("MSDOS5.0", 512, 1, 1, 2, 224, 2880, 9, 0, 0x29, 0, 0, 0, 0xAA55);
            var v := VolumeInfo(FAT12, 512, 1, 1, 9, 2, 2880, 1, 19, 33, 14, 2847, 2847, 0, 0xFF7);
            Accepts(bpb, FsInfo(0, 0, 0), v)
  {
  }

  /** A disk of 32 MB with four sectors a cluster, its size in the large field. */
  lemma SmallDisk()
    ensures var bpb := Bpb("MSDOS5.0", 512, 4, 1, 2, 512, 0, 64, 65536, 0x28, 0, 0, 0, 0xAA55);
            var v := VolumeInfo(FAT16, 512, 4, 1, 64, 2, 65536, 1, 129, 161, 32, 65375, 16343, 0, 0xFFF7);
            Accepts(bpb, FsInfo(0, 0, 0), v)
  {
  }

  const DEVICE_SECTOR := 512

  /** First sector and number of sectors, as the device counts them, of n sectors of the volume from lba on. */
  function OnDevice(v: VolumeInfo, lba: nat, n: nat): (nat, nat) {
    var converter := v.bytesPerSector / DEVICE_SECTOR;
    (lba * converter, n * converter)
  }

  /** What on_init reads as the first FAT. */
  function FatRead(v: VolumeInfo): (nat, nat) {
    (v.fatLBA, v.sectorsPerFat * v.bytesPerSector / DEVICE_SECTOR)
  }

  /** It is as long as the volume's FAT, but is that FAT exactly when the volume has sectors of 512 bytes. */
  lemma FatReadRight(bpb: Bpb, v: VolumeInfo)
    requires IsLayout(bpb, v)
    ensures FatRead(v).1 == OnDevice(v, v.fatLBA, v.sectorsPerFat).1
    ensures FatRead(v) == OnDevice(v, v.fatLBA, v.sectorsPerFat) <==> v.bytesPerSector == DEVICE_SECTOR
  {
    hide DivideRoundUp, FatArea, ClusterCount, ToUint32, IsPowerOfTwo;
    var converter := v.bytesPerSector / DEVICE_SECTOR;
    assert converter in {1, 2, 4, 8} && v.bytesPerSector == DEVICE_SECTOR * converter;
  }

  predicate IsCluster(v: VolumeInfo, c: nat) {
    2 <= c < v.totalClusters + 2
  }

  /** No valid cluster is taken for the end of a chain, except on FAT32 volumes beyond the format's limit. */
  lemma ClustersBelowEnd(bpb: Bpb, v: VolumeInfo)
    requires IsGeometry(bpb, v)
    ensures (forall c: nat :: IsCluster(v, c) ==> c < v.chainEndCluster) <==>
            (v.kind == FAT32 ==> v.totalClusters <= 0x0FFFFFF5)
  {
    assert IsCluster(v, v.totalClusters + 1);
  }

  function FirstSector(v: VolumeInfo, c: nat): int {
    v.dataLBA + (c - 2) * v.sectorsPerCluster
  }

  lemma MulAtMost(a: nat, b: nat, m: nat)
    requires a <= b
    ensures a * m <= b * m
  {
  }

  lemma DivBound(n: nat, m: nat, k: nat)
    requires m > 0
    ensures k * m <= n <==> k <= n / m
  {
    var q, r := n / m, n % m;
    assert n == q * m + r;
    if k <= q {
      MulAtMost(k, q, m);
    } else {
      MulAtMost(q + 1, k, m);
      assert (q + 1) * m == q * m + m;
    }
  }

  /** The valid clusters are exactly those whose sectors lie in the data area. */
  lemma ClusterInData(bpb: Bpb, v: VolumeInfo, c: nat)
    requires IsGeometry(bpb, v) && c >= 2
    ensures IsCluster(v, c) <==> FirstSector(v, c) + v.sectorsPerCluster <= v.dataLBA + v.dataSectors
    ensures v.dataLBA <= FirstSector(v, c)
  {
    DivBound(v.dataSectors, v.sectorsPerCluster, c - 1);
    assert (c - 1) * v.sectorsPerCluster == (c - 2) * v.sectorsPerCluster + v.sectorsPerCluster;
    MulAtMost(0, c - 2, v.sectorsPerCluster);
  }

  /** Distinct clusters share no sector. */
  lemma ClustersDisjoint(v: VolumeInfo, c: nat, d: nat)
    requires 2 <= c < d
    ensures FirstSector(v, c) + v.sectorsPerCluster <= FirstSector(v, d)
  {
    MulAtMost(c - 1, d - 2, v.sectorsPerCluster);
    assert (c - 1) * v.sectorsPerCluster == (c - 2) * v.sectorsPerCluster + v.sectorsPerCluster;
  }

  /** Reserved sectors, FATs, root directory and data follow one another without a gap. */
  predicate RegionsAdjoin(v: VolumeInfo) {
    && v.fatLBA == v.reservedSectors
    && v.rootDirectoryLBA - v.fatLBA == v.sectorsPerFat * v.fatCount
    && v.dataLBA - v.rootDirectoryLBA == v.rootDirSectors
  }

  /** The clusters lie in the data area, one behind the other, and no further one would fit. */
  ghost predicate ClustersFill(v: VolumeInfo) {
    forall c: nat :: c >= 2 ==>
      && v.dataLBA <= FirstSector(v, c) && FirstSector(v, c) + v.sectorsPerCluster == FirstSector(v, c + 1)
      && (IsCluster(v, c) <==> FirstSector(v, c + 1) <= v.dataLBA + v.dataSectors)
  }

  lemma GeometryMeans(bpb: Bpb, v: VolumeInfo)
    requires IsGeometry(bpb, v)
    ensures RegionsAdjoin(v) && ClustersFill(v)
  {
    forall c: nat | c >= 2
      ensures v.dataLBA <= FirstSector(v, c) && FirstSector(v, c) + v.sectorsPerCluster == FirstSector(v, c + 1)
      ensures IsCluster(v, c) <==> FirstSector(v, c + 1) <= v.dataLBA + v.dataSectors
    {
      ClusterInData(bpb, v, c);
      NextSector(v, c);
    }
  }

  lemma NextSector(v: VolumeInfo, c: nat)
    requires c >= 2
    ensures FirstSector(v, c) + v.sectorsPerCluster == FirstSector(v, c + 1)
  {
    assert (c - 1) * v.sectorsPerCluster == (c - 2) * v.sectorsPerCluster + v.sectorsPerCluster;
  }

  /** The root directory region holds its entries with less than a sector to spare. */
  lemma RootDirectoryFits(bpb: Bpb, v: VolumeInfo)
    requires IsGeometry(bpb, v)
    ensures var bytes, room := bpb.rootDirEntries * ROOT_ENTRY_SIZE, v.rootDirSectors * v.bytesPerSector;
            bytes <= room < bytes + v.bytesPerSector
  {
    var bytes, b := bpb.rootDirEntries * ROOT_ENTRY_SIZE, v.bytesPerSector;
    assert bytes == bytes / b * b + bytes % b;
    assert (bytes / b + 1) * b == bytes / b * b + b;
  }
}
