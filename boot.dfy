/**
 * Boot records: CHS addresses in partition entries, the MBR and DBR
 * recognisers, the partition-entry reader, and the volume geometry that
 * Phat_Mount derives from the BIOS parameter block (section 3 of the
 * Microsoft FAT specification) and the FSInfo sector (section 5).
 *
 * Offsets are those of the byte-packed structures Phat_MBR_t, Phat_DBR_FAT_t,
 * Phat_DBR_FAT32_t and Phat_FSInfo_t; each multi-byte field is read
 * little-endian.
 */
module Boot {
  import opened Common
  import opened FatCodec

  // ---------------------------------------------------------------------
  // Cylinder-head-sector addresses.

  /** A byte field as a number. */
  type Octet = x: nat | x < 256

  datatype Chs = Chs(head: Octet, sector: Octet, cylinder: Octet)

  /** Addresses from here on cannot be written as CHS: 1024 cylinders, 255 heads, 63 sectors. */
  const CHS_LIMIT: nat := 1024 * 255 * 63

  /**
   * Phat_CHS_to_LBA keeping the low sectorBits bits of the sector byte as the
   * sector number. Bits 6 and 7 of that byte are bits 8 and 9 of the
   * cylinder (sector & 0xC0, shifted left by 2); sector 0 is invalid and
   * gives LBA 0.
   */
  function ChsToLbaMasked(chs: Chs, sectorBits: nat): nat
    requires sectorBits == 5 || sectorBits == 6
  {
    var actualSector := if sectorBits == 5 then chs.sector % 32 else chs.sector % 64;
    var actualCylinder := (chs.sector / 64) * 256 + chs.cylinder;
    if actualSector < 1 then 0
    else (actualCylinder * 255 + chs.head) * 63 + (actualSector - 1)
  }

  /** Phat_CHS_to_LBA as written: the sector number is masked with 0x1F. */
  function ChsToLbaAsWritten(chs: Chs): nat
  {
    ChsToLbaMasked(chs, 5)
  }

  /** Phat_CHS_to_LBA corrected: the sector number has six bits (mask 0x3F). */
  function ChsToLba(chs: Chs): nat
  {
    ChsToLbaMasked(chs, 6)
  }

  /**
   * Phat_LBA_to_CHS with 255 heads and 63 sectors per track. An address past
   * the CHS range gives false and the saturated address FE FF FF. The sector
   * byte is sector | ((cylinder >> 2) & 0xC0): the sector number is below
   * 64, so the cylinder's bits 8 and 9 land in bits 6 and 7.
   */
  function LbaToChs(lba: nat): (r: (bool, Chs))
    ensures r.0 <==> lba < CHS_LIMIT
    ensures !r.0 ==> r.1 == Chs(0xFE, 0xFF, 0xFF)
    ensures r.0 ==> r.1.head < 255 && 1 <= r.1.sector % 64 <= 63
  {
    if lba >= CHS_LIMIT then (false, Chs(0xFE, 0xFF, 0xFF))
    else
      var cylinder := lba / (255 * 63);
      var head := (lba / 63) % 255;
      var sector := lba % 63 + 1;
      (true, Chs(head, sector + (cylinder / 256) * 64, cylinder % 256))
  }

  lemma DivMod63(lba: nat)
    requires lba < CHS_LIMIT
    ensures lba / (255 * 63) < 1024
    ensures lba == ((lba / (255 * 63)) * 255 + (lba / 63) % 255) * 63 + lba % 63
  {
    var q := lba / 63;
    var r := lba % 63;
    var cy := q / 255;
    var h := q % 255;
    assert lba == 63 * q + r;
    assert q == 255 * cy + h;
    assert lba == 16065 * cy + (63 * h + r);
    assert 0 <= 63 * h + r < 16065;
    assert lba / 16065 == cy;
  }

  /** The sector byte splits back into the sector number and the high cylinder bits. */
  lemma SectorByte(sector: nat, cylinder: nat)
    requires 1 <= sector <= 63 && cylinder < 1024
    ensures (sector + (cylinder / 256) * 64) % 64 == sector
    ensures (sector + (cylinder / 256) * 64) % 32 == sector % 32
    ensures ((sector + (cylinder / 256) * 64) / 64) * 256 + cylinder % 256 == cylinder
  {
    var hi := cylinder / 256;
    assert sector + hi * 64 == hi * 64 + sector;
    assert (hi * 64 + sector) / 64 == hi;
    assert (hi * 64 + sector) % 64 == sector;
    assert (hi * 64 + sector) % 32 == sector % 32;
  }

  /** The corrected decoder gives back every address the encoder can write. */
  lemma ChsRoundTrip(lba: nat)
    requires lba < CHS_LIMIT
    ensures ChsToLba(LbaToChs(lba).1) == lba
  {
    DivMod63(lba);
    SectorByte(lba % 63 + 1, lba / (255 * 63));
  }

  /**
   * As written, an address whose sector number is 32 or more loses bit 5 of
   * it: LBA 31 is encoded as sector 32 and decoded as sector 0, which gives 0.
   */
  lemma AsWrittenChsLosesSectorBit(lba: nat)
    requires lba < CHS_LIMIT && lba % 63 >= 31
    ensures ChsToLbaAsWritten(LbaToChs(lba).1) != lba
  {
    DivMod63(lba);
    var sector := lba % 63 + 1;
    SectorByte(sector, lba / (255 * 63));
    assert sector % 32 == sector - 32;
  }

  // ---------------------------------------------------------------------
  // MBR and DBR.

  const BOOT_SIGNATURE: Word := 0xAA55
  /** Offset of the first of the four 16-byte partition entries of an MBR. */
  const MBR_ENTRIES: nat := 446

  /** Phat_IsSectorDBR: signature, non-zero BPB counts and a jump instruction. */
  predicate IsSectorDBR(s: Sector)
  {
    LE16(s, 510) == BOOT_SIGNATURE
    && LE16(s, 11) != 0      // bytes per sector
    && s[13] != 0            // sectors per cluster
    && LE16(s, 14) != 0      // reserved sector count
    && s[16] != 0            // number of FATs
    && (s[0] == 0xEB || s[0] == 0xE9)
  }

  /**
   * Phat_IsSectorMBR: not a DBR, signed, and every boot indicator 0 or 0x80.
   */
  predicate IsSectorMBR(s: Sector)
  {
    !IsSectorDBR(s) && LE16(s, 510) == BOOT_SIGNATURE
    && forall i :: 0 <= i < 4 ==> s[MBR_ENTRIES + 16 * i] == 0 || s[MBR_ENTRIES + 16 * i] == 0x80
  }

  function EntryChs(s: Sector, at: nat): Chs
    requires at + 3 <= 512
  {
    Chs(s[at] as nat, s[at + 1] as nat, s[at + 2] as nat)
  }

  /** The fields of partition entry i of an MBR (offsets 1, 5, 8 and 12 of the entry). */
  function EntryStartChs(s: Sector, i: nat): Chs
    requires i < 4
  {
    EntryChs(s, MBR_ENTRIES + 16 * i + 1)
  }

  function EntryEndChs(s: Sector, i: nat): Chs
    requires i < 4
  {
    EntryChs(s, MBR_ENTRIES + 16 * i + 5)
  }

  function EntryLbaStart(s: Sector, i: nat): nat
    requires i < 4
  {
    LE32(s, MBR_ENTRIES + 16 * i + 8) as nat
  }

  function EntryLbaSize(s: Sector, i: nat): nat
    requires i < 4
  {
    LE32(s, MBR_ENTRIES + 16 * i + 12) as nat
  }

  /**
   * Phat_GetMBREntryInfo for entry i: the LBA fields when both are non-zero,
   * else the range from the starting to the ending CHS address, both
   * included, or None when that range is reversed. The three-argument call
   * of the source is read as passing the two CHS structures. The source's
   * size, the difference of the two addresses, is MbrEntryInfoAsWritten.
   */
  function MbrEntryInfo(s: Sector, i: nat): (r: Option<(nat, nat)>)
    requires i < 4
    ensures EntryLbaStart(s, i) != 0 && EntryLbaSize(s, i) != 0 ==> r == Some((EntryLbaStart(s, i), EntryLbaSize(s, i)))
    ensures r.None? <==> (EntryLbaStart(s, i) == 0 || EntryLbaSize(s, i) == 0) && ChsToLba(EntryEndChs(s, i)) < ChsToLba(EntryStartChs(s, i))
    ensures (EntryLbaStart(s, i) == 0 || EntryLbaSize(s, i) == 0) && r.Some? ==>
      r.value.0 == ChsToLba(EntryStartChs(s, i)) && r.value.0 + r.value.1 == ChsToLba(EntryEndChs(s, i)) + 1
  {
    var start := ChsToLba(EntryStartChs(s, i));
    var end := ChsToLba(EntryEndChs(s, i));
    if EntryLbaStart(s, i) != 0 && EntryLbaSize(s, i) != 0 then Some((EntryLbaStart(s, i), EntryLbaSize(s, i)))
    else if end < start then None
    else Some((start, end - start + 1))
  }

  /**
   * Phat_GetMBREntryInfo as written: from the CHS fields the size is the
   * ending address minus the starting one, although the ending address
   * names the partition's last sector. It differs from MbrEntryInfo only
   * there, by one sector.
   */
  function MbrEntryInfoAsWritten(s: Sector, i: nat): (r: Option<(nat, nat)>)
    requires i < 4
    ensures r.None? <==> MbrEntryInfo(s, i).None?
    ensures EntryLbaStart(s, i) != 0 && EntryLbaSize(s, i) != 0 ==> r == MbrEntryInfo(s, i)
    ensures (EntryLbaStart(s, i) == 0 || EntryLbaSize(s, i) == 0) && r.Some? ==>
      r.value.0 == MbrEntryInfo(s, i).value.0 && r.value.1 + 1 == MbrEntryInfo(s, i).value.1
  {
    var start := ChsToLba(EntryStartChs(s, i));
    var end := ChsToLba(EntryEndChs(s, i));
    if EntryLbaStart(s, i) != 0 && EntryLbaSize(s, i) != 0 then Some((EntryLbaStart(s, i), EntryLbaSize(s, i)))
    else if end < start then None
    else Some((start, end - start))
  }

  /**
   * An entry with a zero LBA field whose CHS fields hold the addresses
   * Phat_LBA_to_CHS gives for `first` and `last` covers exactly the sectors
   * first..last, and is refused when last lies before first.
   */
  lemma MbrEntryFromChs(s: Sector, i: nat, first: nat, last: nat)
    requires i < 4 && (EntryLbaStart(s, i) == 0 || EntryLbaSize(s, i) == 0)
    requires first < CHS_LIMIT && last < CHS_LIMIT
    requires EntryStartChs(s, i) == LbaToChs(first).1 && EntryEndChs(s, i) == LbaToChs(last).1
    ensures last < first ==> MbrEntryInfo(s, i).None?
    ensures first <= last ==> MbrEntryInfo(s, i) == Some((first, (last - first + 1) as nat))
  {
    ChsRoundTrip(first);
    ChsRoundTrip(last);
  }

  /**
   * As written, an entry whose CHS fields name first..last is given
   * last - first sectors, so its last sector falls outside it; a
   * one-sector partition gets size 0.
   */
  lemma AsWrittenChsSizeShort(s: Sector, i: nat, first: nat, last: nat)
    requires i < 4 && (EntryLbaStart(s, i) == 0 || EntryLbaSize(s, i) == 0)
    requires first < CHS_LIMIT && last < CHS_LIMIT && first <= last
    requires EntryStartChs(s, i) == LbaToChs(first).1 && EntryEndChs(s, i) == LbaToChs(last).1
    ensures MbrEntryInfoAsWritten(s, i) == Some((first, (last - first) as nat))
    ensures !(last < first + MbrEntryInfoAsWritten(s, i).value.1)
    ensures first == last ==> MbrEntryInfoAsWritten(s, i).value.1 == 0
  {
    ChsRoundTrip(first);
    ChsRoundTrip(last);
  }

  // ---------------------------------------------------------------------
  // Geometry.

  /** The fields of Phat_t that Phat_Mount and Phat_MakeFS_And_Mount fill in. */
  datatype Geometry = Geometry(
    fatBits: nat,
    partitionStart: nat,
    totalSectors: nat,
    fatSize: nat,
    fat1Start: nat,
    numFATs: nat,
    rootDirCluster: nat,
    rootDirStart: nat,
    rootEntryCount: nat,
    dataStart: nat,
    bytesPerSector: nat,
    sectorsPerCluster: nat,
    itemsPerSector: nat,
    itemsPerCluster: nat,
    numFatEntries: nat,
    fatsAreSame: bool,
    endOfChain: nat,
    maxValid: nat)

  /** The file-system type strings "FAT12   ", "FAT16   ", "FAT32   ". */
  function FsType(bits: nat): seq<Byte>
    requires bits == 12 || bits == 16 || bits == 32
  {
    if bits == 12 then [0x46, 0x41, 0x54, 0x31, 0x32, 0x20, 0x20, 0x20]
    else if bits == 16 then [0x46, 0x41, 0x54, 0x31, 0x36, 0x20, 0x20, 0x20]
    else [0x46, 0x41, 0x54, 0x33, 0x32, 0x20, 0x20, 0x20]
  }

  /** The width a DBR names: at offset 54 for FAT12/16, at 82 for FAT32. */
  function DbrFatBits(s: Sector): (bits: nat)
    ensures bits == 0 || bits == 12 || bits == 16 || bits == 32
    ensures bits == 12 ==> BytesAt(s, 54, FsType(12))
    ensures bits == 16 ==> BytesAt(s, 54, FsType(16))
    ensures bits == 32 ==> BytesAt(s, 82, FsType(32))
    ensures bits == 0 ==> !BytesAt(s, 54, FsType(12)) && !BytesAt(s, 54, FsType(16)) && !BytesAt(s, 82, FsType(32))
  {
    if BytesAt(s, 54, FsType(12)) then 12
    else if BytesAt(s, 54, FsType(16)) then 16
    else if BytesAt(s, 82, FsType(32)) then 32
    else 0
  }

  /** Reduction to an unsigned 32-bit value. */
  function U32(x: int): nat
  {
    x % 0x1_0000_0000
  }

  /** Number of FAT entries in fatSize sectors of bytesPerSector bytes. */
  function FatEntries(fatSize: nat, bytesPerSector: nat, bits: nat): nat
    requires bits > 0
  {
    (fatSize * bytesPerSector * 8) / bits
  }

  /** The BIOS parameter block fields of a DBR, as numbers. */
  datatype Bpb = Bpb(
    bytesPerSector: nat, sectorsPerCluster: nat, reservedSectors: nat,
    numFATs: nat, rootEntryCount: nat, totalSectors16: nat, totalSectors32: nat,
    fatSize16: nat, fatSize32: nat, fatsAreDifferent: nat, rootCluster: nat,
    fsInfoSector: nat)

  /**
   * The fields of the common BPB (offsets 11 to 35) and of the FAT32
   * extension (offsets 36 to 49); the extension is read whatever the width
   * and used only for FAT32.
   */
  function ParseBpb(s: Sector): Bpb
  {
    Bpb(LE16(s, 11) as nat, s[13] as nat, LE16(s, 14) as nat, s[16] as nat,
        LE16(s, 17) as nat, LE16(s, 19) as nat, LE32(s, 32) as nat,
        LE16(s, 22) as nat, LE32(s, 36) as nat, LE16(s, 40) as nat,
        LE32(s, 44) as nat, LE16(s, 48) as nat)
  }

  /** The first sector after the reserved area and every FAT copy. */
  function EndOfFat(b: Bpb, fatSize: nat): nat
  {
    b.reservedSectors + b.numFATs * fatSize
  }

  /** FAT_size_in_sectors: FAT12/16 take the 16-bit field, FAT32 falls back to the 32-bit one. */
  function BpbFatSize(b: Bpb, bits: nat): nat
  {
    if bits != 32 || b.fatSize16 != 0 then b.fatSize16 else b.fatSize32
  }

  /**
   * First sector of the root directory relative to the partition, as
   * written: for FAT32 the cluster arithmetic root_dir_cluster - 2 is
   * unsigned 32-bit, and so is the sum.
   */
  function RootStartAsWritten(bits: nat, endOfFat: nat, rootCluster: nat, spc: nat): nat
  {
    if bits == 32 then U32(endOfFat + U32(rootCluster - 2) * spc) else endOfFat
  }

  /** Sectors the fixed FAT12/16 root directory occupies, rounded up. */
  function RootDirSectors(rootEntries: nat, bps: nat): nat
    requires bps > 0
  {
    (rootEntries * 32 + (bps - 1)) / bps
  }

  function EndOfChainFor(bits: nat): nat
  {
    if bits == 12 then 0x0FF8 else if bits == 16 then 0xFFF8 else 0x0FFFFFF8
  }

  /**
   * The geometry Phat_Mount derives from the BPB of a DBR at partitionStart,
   * as written. For FAT32 the data area is placed where the root cluster
   * starts, which is right only when the root is cluster 2, and the highest
   * valid cluster is the number of FAT entries plus one.
   */
  function MountGeometryAsWritten(bits: nat, b: Bpb, partitionStart: nat): (g: Geometry)
    requires bits == 12 || bits == 16 || bits == 32
    requires b.bytesPerSector > 0
    ensures g.fatBits == bits && g.partitionStart == partitionStart
    ensures g.maxValid == g.numFatEntries + 1
    ensures bits == 32 ==> g.dataStart == g.rootDirStart
  {
    var fatSize := BpbFatSize(b, bits);
    var endOfFat := EndOfFat(b, fatSize);
    var rootCluster := if bits == 32 then b.rootCluster else 0;
    var rootStart := RootStartAsWritten(bits, endOfFat, rootCluster, b.sectorsPerCluster);
    var dataStart := if bits == 32 then rootStart else rootStart + RootDirSectors(b.rootEntryCount, b.bytesPerSector);
    var entries := FatEntries(fatSize, b.bytesPerSector, bits);
    Geometry(
      bits, partitionStart,
      if b.totalSectors16 != 0 then b.totalSectors16 else b.totalSectors32,
      fatSize, b.reservedSectors, b.numFATs,
      rootCluster, rootStart, b.rootEntryCount, dataStart,
      b.bytesPerSector, b.sectorsPerCluster,
      (b.bytesPerSector / 32) % 256, (b.bytesPerSector * b.sectorsPerCluster / 32) % 65536,
      entries, bits != 32 || b.fatsAreDifferent == 0,
      EndOfChainFor(bits), entries + 1)
  }

  /** Phat_ClusterToLBA, relative to the partition: clusters are numbered from 2. */
  function ClusterToLba(g: Geometry, c: nat): nat
    requires c >= 2
  {
    g.dataStart + (c - 2) * g.sectorsPerCluster
  }

  /** Data clusters that fit between the data area and the end of the partition. */
  function DataClusters(total: nat, dataStart: nat, spc: nat): nat
  {
    if total >= dataStart && spc > 0 then (total - dataStart) / spc else 0
  }

  /**
   * The highest cluster number that has both a FAT entry and a data
   * cluster: entries 0 and 1 are reserved, so a FAT of n entries describes
   * clusters 2 to n - 1, and a data area of k clusters holds clusters 2 to
   * k + 1. With no usable cluster it is 1.
   */
  function MaxValidCluster(entries: nat, clusters: nat): (m: nat)
    ensures m >= 1
    ensures m < entries || m == 1
    ensures m <= clusters + 1
  {
    if entries < 2 then 1 else MinNat(entries - 1, clusters + 1)
  }

  /**
   * The geometry Phat_Mount derives from the BPB, corrected: the FAT32 data
   * area starts right after the FATs and the root directory sits at its root
   * cluster, and the highest valid cluster is MaxValidCluster.
   */
  function MountGeometry(bits: nat, b: Bpb, partitionStart: nat): (g: Geometry)
    requires ValidBits(bits)
    requires b.bytesPerSector > 0
    ensures g.fatBits == bits && g.partitionStart == partitionStart
    ensures g.numFatEntries == EntryCount(bits, g.fatSize * g.bytesPerSector)
    ensures g.maxValid == MaxValidCluster(g.numFatEntries, DataClusters(g.totalSectors, g.dataStart, g.sectorsPerCluster))
    ensures bits == 32 ==> g.dataStart == EndOfFat(b, g.fatSize)
    ensures bits == 32 && g.rootDirCluster >= 2 ==> g.rootDirStart == ClusterToLba(g, g.rootDirCluster)
    ensures bits != 32 ==> g.dataStart == g.rootDirStart + RootDirSectors(b.rootEntryCount, b.bytesPerSector)
  {
    var fatSize := BpbFatSize(b, bits);
    var endOfFat := EndOfFat(b, fatSize);
    var rootCluster := if bits == 32 then b.rootCluster else 0;
    var dataStart := if bits == 32 then endOfFat else endOfFat + RootDirSectors(b.rootEntryCount, b.bytesPerSector);
    var rootStart := if bits != 32 then endOfFat
      else if rootCluster >= 2 then dataStart + (rootCluster - 2) * b.sectorsPerCluster
      else dataStart;
    var total := if b.totalSectors16 != 0 then b.totalSectors16 else b.totalSectors32;
    var entries := FatEntries(fatSize, b.bytesPerSector, bits);
    assert fatSize * b.bytesPerSector * 8 == (fatSize * b.bytesPerSector) * 8;
    Geometry(
      bits, partitionStart, total,
      fatSize, b.reservedSectors, b.numFATs,
      rootCluster, rootStart, b.rootEntryCount, dataStart,
      b.bytesPerSector, b.sectorsPerCluster,
      (b.bytesPerSector / 32) % 256, (b.bytesPerSector * b.sectorsPerCluster / 32) % 65536,
      entries, bits != 32 || b.fatsAreDifferent == 0,
      EndOfChainFor(bits),
      MaxValidCluster(entries, DataClusters(total, dataStart, b.sectorsPerCluster)))
  }

  /** A cluster no higher than the data area's last one ends inside the partition. */
  lemma ClusterInData(total: nat, dataStart: nat, spc: nat, c: nat)
    requires 2 <= c <= DataClusters(total, dataStart, spc) + 1
    requires c > 2 || DataClusters(total, dataStart, spc) >= 1
    ensures dataStart + (c - 2) * spc + spc <= total
  {
    var k := DataClusters(total, dataStart, spc);
    assert spc > 0 && total >= dataStart && c - 1 <= k;
    MulUpTo(c - 1, k, spc);
    assert (c - 2) * spc + spc == (c - 1) * spc;
    DivTimes(total - dataStart, spc);
  }

  lemma MulUpTo(a: nat, b: nat, m: nat)
    requires a <= b
    ensures a * m <= b * m
  {
  }

  lemma DivTimes(n: nat, d: nat)
    requires d > 0
    ensures (n / d) * d <= n
  {
  }

  /**
   * In the corrected geometry every valid cluster has its FAT entry inside
   * the FAT and its sectors inside the partition.
   */
  lemma ValidClustersInRange(bits: nat, b: Bpb, partitionStart: nat, c: nat)
    requires ValidBits(bits) && b.bytesPerSector > 0
    requires 2 <= c <= MountGeometry(bits, b, partitionStart).maxValid
    ensures var g := MountGeometry(bits, b, partitionStart);
      EntryFits(bits, c, g.fatSize * g.bytesPerSector)
      && ClusterToLba(g, c) + g.sectorsPerCluster <= g.totalSectors
  {
    var g := MountGeometry(bits, b, partitionStart);
    var k := DataClusters(g.totalSectors, g.dataStart, g.sectorsPerCluster);
    assert c < g.numFatEntries && c <= k + 1;
    EntriesBelowCountFit(bits, g.fatSize * g.bytesPerSector, c);
    ClusterInData(g.totalSectors, g.dataStart, g.sectorsPerCluster, c);
  }

  /**
   * As written, the highest valid cluster of a FAT16 or FAT32 volume has no
   * entry in the FAT: max_valid_cluster is num_FAT_entries + 1, and entries
   * are numbered from 0.
   */
  lemma AsWrittenMaxValidOutsideFat(bits: nat, b: Bpb, partitionStart: nat)
    requires (bits == 16 || bits == 32) && b.bytesPerSector == 512
    ensures var g := MountGeometryAsWritten(bits, b, partitionStart);
      !EntryFits(bits, g.maxValid, g.fatSize * g.bytesPerSector)
  {
    var g := MountGeometryAsWritten(bits, b, partitionStart);
    var n := g.fatSize * 512;
    var k := if bits == 16 then g.fatSize * 256 else g.fatSize * 128;
    assert n * 8 == k * bits;
    MultipleMod(k, bits);
    EntryAtCountDoesNotFit(bits, n);
    assert g.numFatEntries == EntryCount(bits, n);
  }

  lemma MultipleMod(k: nat, d: nat)
    requires d == 16 || d == 32
    ensures (k * d) % d == 0
  {
    if d == 16 {
      assert (k * 16) % 16 == 0;
    } else {
      assert (k * 32) % 32 == 0;
    }
  }

  /**
   * As written, a FAT32 volume whose root directory is not cluster 2 has its
   * data area placed at the root directory, so cluster 2 is read from the
   * root directory's first sector and the root cluster from further on.
   */
  lemma AsWrittenFat32RootMisplaced(b: Bpb, partitionStart: nat)
    requires b.bytesPerSector > 0 && b.sectorsPerCluster > 0 && b.rootCluster > 2
    requires EndOfFat(b, BpbFatSize(b, 32)) + (b.rootCluster - 2) * b.sectorsPerCluster < 0x1_0000_0000
    ensures var g := MountGeometryAsWritten(32, b, partitionStart);
      ClusterToLba(g, g.rootDirCluster) != g.rootDirStart
      && ClusterToLba(g, 2) == g.rootDirStart
  {
    var g := MountGeometryAsWritten(32, b, partitionStart);
    RootStartNoWrap(EndOfFat(b, BpbFatSize(b, 32)), b.rootCluster, b.sectorsPerCluster);
    assert g.rootDirCluster == b.rootCluster;
    assert ClusterToLba(g, g.rootDirCluster) == g.rootDirStart + (b.rootCluster - 2) * b.sectorsPerCluster;
  }

  lemma RootStartNoWrap(endOfFat: nat, rootCluster: nat, spc: nat)
    requires rootCluster > 2 && spc > 0
    requires endOfFat + (rootCluster - 2) * spc < 0x1_0000_0000
    ensures (rootCluster - 2) * spc > 0
    ensures RootStartAsWritten(32, endOfFat, rootCluster, spc) == endOfFat + (rootCluster - 2) * spc
  {
    var k := rootCluster - 2;
    MulUpTo(1, spc, k);
    assert k <= k * spc;
    assert k < 0x1_0000_0000;
    assert U32(k) == k;
    assert U32(endOfFat + k * spc) == endOfFat + k * spc;
  }

  /** The corrected geometry and the as-written one agree for FAT12/16 except for the highest cluster. */
  lemma GeometriesAgreeOnFixedRoot(bits: nat, b: Bpb, partitionStart: nat)
    requires (bits == 12 || bits == 16) && b.bytesPerSector > 0
    ensures MountGeometry(bits, b, partitionStart).(maxValid := 0) == MountGeometryAsWritten(bits, b, partitionStart).(maxValid := 0)
  {
  }

  // ---------------------------------------------------------------------
  // Where Phat_Mount finds the volume.

  /**
   * The sector Phat_Mount takes the DBR of partition `index` from, given
   * sector 0: with an MBR, the start of entry `index` (0 to 3), or
   * PartitionTableError when that entry's range is reversed; without an
   * MBR, sector 0 itself, and only for index 0.
   */
  function LocateDbr(s0: Sector, index: int): (r: (PhatState, nat))
    ensures r.0 in {OK, InvalidParameter, PartitionTableError}
    ensures r.0 == OK && IsSectorMBR(s0) ==>
      0 <= index < 4 && MbrEntryInfo(s0, index).Some? && r.1 == MbrEntryInfo(s0, index).value.0
    ensures r.0 == OK && !IsSectorMBR(s0) ==> index == 0 && r.1 == 0
    ensures r.0 == PartitionTableError ==> IsSectorMBR(s0) && 0 <= index < 4 && MbrEntryInfo(s0, index).None?
    ensures r.0 == InvalidParameter <==> !(0 <= index < 4) || (!IsSectorMBR(s0) && index != 0)
  {
    if IsSectorMBR(s0) then
      if index < 0 || index >= 4 then (InvalidParameter, 0)
      else match MbrEntryInfo(s0, index)
        case None => (PartitionTableError, 0)
        case Some(info) => (OK, info.0)
    else if index != 0 then (InvalidParameter, 0)
    else (OK, 0)
  }

  /**
   * The geometry Phat_Mount takes from a DBR at partitionStart: None
   * (FSNotFat) unless the sector passes Phat_IsSectorDBR and names FAT12,
   * FAT16 or FAT32; otherwise MountGeometry of its BPB.
   */
  function DbrGeometry(dbr: Sector, partitionStart: nat): (r: Option<Geometry>)
    ensures r.Some? <==> IsSectorDBR(dbr) && DbrFatBits(dbr) != 0
    ensures r.Some? ==>
      r.value.fatBits == DbrFatBits(dbr) && r.value.partitionStart == partitionStart &&
      r.value.bytesPerSector == LE16(dbr, 11) as nat && r.value.endOfChain == EndOfChainFor(r.value.fatBits)
  {
    if !IsSectorDBR(dbr) || DbrFatBits(dbr) == 0 then None
    else Some(MountGeometry(DbrFatBits(dbr), ParseBpb(dbr), partitionStart))
  }

  // ---------------------------------------------------------------------
  // FSInfo (Microsoft FAT specification, section 5).

  const FSI_LEAD_SIG: DWord := 0x41615252
  const FSI_STRUC_SIG: DWord := 0x61417272

  /** The three signatures Phat_Mount checks before trusting an FSInfo sector. */
  predicate FsInfoValid(s: Sector)
  {
    LE32(s, 0) == FSI_LEAD_SIG && LE32(s, 484) == FSI_STRUC_SIG && LE16(s, 510) == BOOT_SIGNATURE
  }

  function FsInfoFreeCount(s: Sector): nat { LE32(s, 488) as nat }
  function FsInfoNextFree(s: Sector): nat { LE32(s, 492) as nat }

  /**
   * Phat_UpdateFSInfo's change to an FSInfo sector: the next-free hint and
   * the free count, every other byte kept.
   */
  function PutFsInfo(s: Sector, nextFree: DWord, freeCount: DWord): (r: Sector)
    ensures FsInfoNextFree(r) == nextFree as nat && FsInfoFreeCount(r) == freeCount as nat
    ensures forall i :: 0 <= i < 512 && !(488 <= i < 496) ==> r[i] == s[i]
    ensures FsInfoValid(s) ==> FsInfoValid(r)
  {
    var t := PutLE32(s, 492, nextFree);
    var r := PutLE32(t, 488, freeCount);
    assert LE32(r, 492) == LE32(t, 492);
    assert FsInfoValid(s) ==> LE32(r, 0) == LE32(s, 0) && LE32(r, 484) == LE32(s, 484) && LE16(r, 510) == LE16(s, 510);
    r
  }
}
