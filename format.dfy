/**
 * Phat_MakeFS_And_Mount's choice of format parameters: the FAT width, the
 * cluster size, the FAT size, the free-cluster estimate and the status the
 * call ends with; the BPB fields it writes and the geometry Phat_Mount
 * later derives from them; and the first sector of each fresh FAT copy.
 */
module Format {
  import opened Common
  import opened FatCodec
  import opened Boot

  /** reserved_sector_count and num_FATs of every volume MakeFS writes. */
  const RESERVED_SECTORS: nat := 32
  const FORMAT_FATS: nat := 2

  /** The largest partition, in sectors, MakeFS accepts: 0xFFFFFFFF / 512. */
  const MAX_FORMAT_SIZE: nat := 0xFFFF_FFFF / 512

  /** max_cluster for each width. */
  function ClusterLimit(bits: nat): nat
  {
    if bits == 12 then 0xFF0 else if bits == 16 then 0xFFF0 else 0x0FFF_FFF0
  }

  /** The default root_dir_entry_count of FAT12 and FAT16 when the caller passes 0. */
  function DefaultRootEntries(bits: nat): nat
  {
    if bits == 12 then 224 else 512
  }

  /**
   * FAT_bits 0: the narrowest width whose cluster limit, at eight sectors a
   * cluster, exceeds the partition; FAT32 when none does.
   */
  function AutoBits(size: nat): (bits: nat)
    ensures ValidBits(bits)
    ensures bits == 32 || size < 8 * ClusterLimit(bits)
    ensures forall b: nat :: ValidBits(b) && b < bits ==> size >= 8 * ClusterLimit(b)
  {
    if size >= 8 * 0xFFF0 then 32 else if size >= 8 * 0xFF0 then 16 else 12
  }

  /** The width and root-directory size the FAT_bits switch settles on. */
  datatype Width = Width(bits: nat, rootEntries: nat)

  /**
   * The FAT_bits switch: 12, 16 and 32 are taken as given and 0 picks
   * AutoBits; FAT12/16 default a zero root_dir_entry_count, FAT32 refuses a
   * non-zero one, and any other FAT_bits is refused.
   */
  function ChooseWidth(size: nat, fatBits: int, rootEntries: nat): (r: (PhatState, Width))
    ensures r.0 == OK || r.0 == InvalidParameter
    ensures r.0 == OK ==> ValidBits(r.1.bits)
    ensures r.0 == OK ==> r.1.bits == if fatBits == 0 then AutoBits(size) else fatBits
    ensures r.0 == OK ==>
      r.1.rootEntries == (if r.1.bits == 32 then 0 else if rootEntries != 0 then rootEntries else DefaultRootEntries(r.1.bits))
    ensures r.0 == InvalidParameter <==>
      !(fatBits == 0 || (fatBits > 0 && ValidBits(fatBits))) ||
      (rootEntries != 0 && (fatBits == 32 || (fatBits == 0 && AutoBits(size) == 32)))
  {
    if fatBits != 0 && fatBits != 12 && fatBits != 16 && fatBits != 32 then (InvalidParameter, Width(0, 0))
    else
      var bits := if fatBits == 0 then AutoBits(size) else fatBits as nat;
      if bits == 32 then
        if rootEntries != 0 then (InvalidParameter, Width(0, 0)) else (OK, Width(32, 0))
      else (OK, Width(bits, if rootEntries != 0 then rootEntries else DefaultRootEntries(bits)))
  }

  /** The cluster sizes MakeFS can pick: the powers of two up to 128. */
  predicate ClusterSizeValue(n: nat)
  {
    n == 1 || n == 2 || n == 4 || n == 8 || n == 16 || n == 32 || n == 64 || n == 128
  }

  /**
   * The sectors_per_cluster chain: a power of two that brings the cluster
   * count down to the width's limit, and half of it would not.
   */
  function ClusterSize(size: nat, limit: nat): (spc: nat)
    requires size < 128 * limit
    ensures ClusterSizeValue(spc)
    ensures size <= spc * limit
    ensures spc > 1 ==> size > (spc / 2) * limit
  {
    if size > 64 * limit then 128
    else if size > 32 * limit then 64
    else if size > 16 * limit then 32
    else if size > 8 * limit then 16
    else if size > 4 * limit then 8
    else if size > 2 * limit then 4
    else if size > limit then 2
    else 1
  }

  /** Among the cluster sizes that cover the partition, ClusterSize is the smallest. */
  lemma ClusterSizeSmallest(size: nat, limit: nat, s: nat)
    requires size < 128 * limit && ClusterSizeValue(s) && size <= s * limit
    ensures ClusterSize(size, limit) <= s
  {
    var spc := ClusterSize(size, limit);
    if s < spc {
      HalfAtLeast(s, spc);
      MulMono(s, spc / 2, limit);
    }
  }

  lemma HalfAtLeast(s: nat, spc: nat)
    requires ClusterSizeValue(s) && ClusterSizeValue(spc) && s < spc
    ensures s <= spc / 2
  {
  }

  lemma MulMono(a: nat, b: nat, m: nat)
    requires a <= b
    ensures a * m <= b * m
  {
  }

  /** Bytes of FAT the code reserves for n clusters: one and a half, two or four each, rounded down. */
  function FatBytesAsWritten(bits: nat, n: nat): nat
  {
    if bits == 12 then n + n / 2 else if bits == 16 then n * 2 else n * 4
  }

  /** Bytes n entries need: one and a half (rounded up), two or four each. */
  function FatBytesFor(bits: nat, n: nat): nat
  {
    if bits == 12 then (3 * n + 1) / 2 else if bits == 16 then n * 2 else n * 4
  }

  /**
   * The rounding at line 2917 as written, in 32-bit arithmetic: a FAT of f
   * sectors grows to the next multiple of the cluster size.
   */
  function RoundToClusters(f: nat, spc: nat): nat
    requires spc >= 1
  {
    if spc > 1 then U32((U32(f - 1) / spc + 1) * spc) else f
  }

  /**
   * FAT_size as written: the FAT bytes for the partition's clusters divided
   * by 512 and rounded DOWN, then rounded up to whole clusters. Entries 0
   * and 1 are not counted either.
   */
  function FatSizeAsWritten(bits: nat, clusters: nat, spc: nat): nat
    requires spc >= 1
  {
    RoundToClusters(FatBytesAsWritten(bits, clusters) / 512, spc)
  }

  /**
   * FAT_size corrected: enough whole sectors for the two reserved entries
   * and one entry per cluster, then rounded up to whole clusters.
   */
  function FatSizeFor(bits: nat, clusters: nat, spc: nat): (f: nat)
    requires ValidBits(bits) && ClusterSizeValue(spc) && clusters <= 0x0FFF_FFF0
    ensures EntryCount(bits, f * 512) >= clusters + 2
    ensures f >= 1
  {
    var raw := (FatBytesFor(bits, clusters + 2) + 511) / 512;
    RawCovers(bits, clusters + 2, raw);
    RoundUpCovers(raw, spc);
    EntryCountMono(bits, raw * 512, RoundToClusters(raw, spc) * 512);
    RoundToClusters(raw, spc)
  }

  /** Whole sectors holding FatBytesFor(bits, n) bytes have room for n entries. */
  lemma RawCovers(bits: nat, n: nat, raw: nat)
    requires ValidBits(bits) && raw == (FatBytesFor(bits, n) + 511) / 512
    ensures n >= 1 ==> raw >= 1
    ensures EntryCount(bits, raw * 512) >= n
  {
    var m := FatBytesFor(bits, n);
    assert raw * 512 >= m;
    assert (raw * 512) * 8 >= n * bits;
  }

  /** Rounding a positive size up to whole clusters keeps it in 32 bits and never shrinks it. */
  lemma RoundUpCovers(raw: nat, spc: nat)
    requires ClusterSizeValue(spc) && 1 <= raw < 0x1000_0000
    ensures raw <= RoundToClusters(raw, spc) <= raw + spc
  {
    if spc > 1 {
      U32Small(raw - 1);
      RoundUpBounds(raw - 1, spc);
      U32Small((U32(raw - 1) / spc + 1) * spc);
    }
  }

  /** n rounded up past the next multiple of d lies above n and at most d further. */
  lemma RoundUpBounds(n: nat, d: nat)
    requires d > 0
    ensures n < (n / d + 1) * d <= n + d
  {
    DivTimes(n, d);
    DivTimesAbove(n, d);
    assert (n / d + 1) * d == (n / d) * d + d;
  }

  lemma U32Small(x: int)
    requires 0 <= x < 0x1_0000_0000
    ensures U32(x) == x
  {
  }

  lemma DivTimesAbove(n: nat, d: nat)
    requires d > 0
    ensures n < (n / d + 1) * d
  {
  }

  lemma EntryCountMono(bits: nat, a: nat, b: nat)
    requires ValidBits(bits) && a <= b
    ensures EntryCount(bits, a) <= EntryCount(bits, b)
  {
    assert a * 8 <= b * 8;
  }

  // ---------------------------------------------------------------------
  // The layout.

  /** What MakeFS settles on before it writes anything. */
  datatype Layout = Layout(
    bits: nat, rootEntries: nat, spc: nat, clusters: nat, totalSectors: nat, fatSize: nat, freeClusters: nat)

  /**
   * free_clusters as written to FSInfo: the sectors after the reserved area
   * and both FATs, in clusters, less three, in 32-bit arithmetic.
   */
  function FreeEstimate(total: nat, fatSize: nat, spc: nat): nat
    requires spc >= 1
  {
    U32(U32(total - RESERVED_SECTORS - FORMAT_FATS * fatSize) / spc - 3)
  }

  /**
   * The layout for a partition of `size` sectors once the width is chosen:
   * ClusterSize's cluster size, the partition cut down to whole clusters
   * (never more than the width's limit), the FAT size and the free estimate.
   * `asWritten` selects the FAT size of lines 2912-2917 (FatSizeAsWritten)
   * instead of FatSizeFor.
   */
  function LayoutFor(size: nat, w: Width, asWritten: bool): (l: Layout)
    requires ValidBits(w.bits) && size < 128 * ClusterLimit(w.bits)
    ensures l.bits == w.bits && l.rootEntries == w.rootEntries
    ensures l.spc == ClusterSize(size, ClusterLimit(w.bits))
    ensures l.clusters <= ClusterLimit(w.bits)
    ensures l.totalSectors == l.clusters * l.spc <= size < l.totalSectors + l.spc
    ensures l.fatSize == if asWritten then FatSizeAsWritten(l.bits, l.clusters, l.spc) else FatSizeFor(l.bits, l.clusters, l.spc)
    ensures l.freeClusters == FreeEstimate(l.totalSectors, l.fatSize, l.spc)
  {
    var spc := ClusterSize(size, ClusterLimit(w.bits));
    var clusters := size / spc;
    ClustersWithinLimit(size, spc, ClusterLimit(w.bits));
    var total := clusters * spc;
    var fatSize := if asWritten then FatSizeAsWritten(w.bits, clusters, spc) else FatSizeFor(w.bits, clusters, spc);
    Layout(w.bits, w.rootEntries, spc, clusters, total, fatSize, FreeEstimate(total, fatSize, spc))
  }

  /**
   * The status MakeFS ends with when every sector access succeeds, and the
   * layout it writes: CannotMakeFS for a partition of 0xFFFFFFFF / 512
   * sectors or more, InvalidParameter for a partition at LBA 0 with a
   * non-zero index or a refused width, CannotMakeFS when even 128-sector
   * clusters exceed the width's limit, and FSIsSubOptimal instead of OK
   * exactly when the clusters have more than eight sectors.
   */
  function Plan(size: nat, start: nat, index: int, fatBits: int, rootEntries: nat, asWritten: bool): (r: (PhatState, Layout))
    ensures r.0 in {OK, FSIsSubOptimal, CannotMakeFS, InvalidParameter}
    ensures r.0 == InvalidParameter <==>
      size < MAX_FORMAT_SIZE && ((start == 0 && index != 0) || ChooseWidth(size, fatBits, rootEntries).0 == InvalidParameter)
    ensures r.0 == CannotMakeFS <==>
      size >= MAX_FORMAT_SIZE ||
      (!(start == 0 && index != 0) && ChooseWidth(size, fatBits, rootEntries).0 == OK &&
       size >= 128 * ClusterLimit(ChooseWidth(size, fatBits, rootEntries).1.bits))
    ensures r.0 == OK || r.0 == FSIsSubOptimal ==>
      ValidBits(r.1.bits) && r.1.bits == ChooseWidth(size, fatBits, rootEntries).1.bits &&
      size < 128 * ClusterLimit(r.1.bits) && r.1 == LayoutFor(size, ChooseWidth(size, fatBits, rootEntries).1, asWritten)
    ensures r.0 == OK || r.0 == FSIsSubOptimal ==> (r.0 == FSIsSubOptimal <==> r.1.spc > 8)
  {
    var none := Layout(0, 0, 0, 0, 0, 0, 0);
    if size >= MAX_FORMAT_SIZE then (CannotMakeFS, none)
    else if start == 0 && index != 0 then (InvalidParameter, none)
    else
      var (st, w) := ChooseWidth(size, fatBits, rootEntries);
      if st != OK then (st, none)
      else if size >= 128 * ClusterLimit(w.bits) then (CannotMakeFS, none)
      else
        var l := LayoutFor(size, w, asWritten);
        (if l.spc > 8 then FSIsSubOptimal else OK, l)
  }

  /** Cutting the partition to whole clusters: at most the limit, and less than a cluster lost. */
  lemma ClustersWithinLimit(size: nat, spc: nat, limit: nat)
    requires spc >= 1 && size <= spc * limit
    ensures size / spc <= limit
    ensures (size / spc) * spc <= size < (size / spc) * spc + spc
  {
    DivTimes(size, spc);
    DivTimesAbove(size, spc);
    if size / spc > limit {
      MulMono(limit + 1, size / spc, spc);
    }
  }

  // ---------------------------------------------------------------------
  // What Phat_Mount reads back.

  /**
   * The BPB fields of the DBR MakeFS writes that Phat_Mount reads: the
   * 16- or 32-bit total, the 16- or 32-bit FAT size on FAT32 (a 16-bit field
   * on FAT12/16), and on FAT32 mirrored FATs, root cluster 2 and FSInfo
   * sector 1.
   */
  predicate Writes(b: Bpb, l: Layout)
  {
    b.bytesPerSector == 512 && b.sectorsPerCluster == l.spc &&
    b.reservedSectors == RESERVED_SECTORS && b.numFATs == FORMAT_FATS &&
    b.rootEntryCount == l.rootEntries &&
    b.totalSectors16 == (if l.totalSectors <= 0xFFFF then l.totalSectors else 0) &&
    b.totalSectors32 == (if l.totalSectors > 0xFFFF then l.totalSectors else 0) &&
    (l.bits != 32 ==> b.fatSize16 == l.fatSize % 0x1_0000) &&
    (l.bits == 32 ==>
      b.fatSize16 == (if l.fatSize <= 0xFFFF then l.fatSize else 0) &&
      b.fatSize32 == (if l.fatSize > 0xFFFF then l.fatSize else 0) &&
      b.fatsAreDifferent == 0 && b.rootCluster == 2 && b.fsInfoSector == 1)
  }

  /**
   * Mounting what the corrected MakeFS wrote gives back its cluster size,
   * FAT size and sector count, a FAT of entries of the chosen width, and a
   * FAT with an entry for every cluster of the data area.
   */
  lemma MountSeesFormat(size: nat, start: nat, index: int, fatBits: int, rootEntries: nat, b: Bpb)
    requires var r := Plan(size, start, index, fatBits, rootEntries, false);
      (r.0 == OK || r.0 == FSIsSubOptimal) && Writes(b, r.1)
    ensures var l := Plan(size, start, index, fatBits, rootEntries, false).1;
      var g := MountGeometry(l.bits, b, start);
      g.sectorsPerCluster == l.spc && g.fatSize == l.fatSize && g.totalSectors == l.totalSectors &&
      g.numFatEntries == EntryCount(l.bits, l.fatSize * 512) &&
      g.maxValid == DataClusters(g.totalSectors, g.dataStart, g.sectorsPerCluster) + 1
  {
    var l := Plan(size, start, index, fatBits, rootEntries, false).1;
    MountSeesLayout(l, start, b);
  }

  /** MountSeesFormat for one layout of the corrected FAT size. */
  lemma MountSeesLayout(l: Layout, start: nat, b: Bpb)
    requires ValidBits(l.bits) && ClusterSizeValue(l.spc) && l.clusters <= ClusterLimit(l.bits)
    requires l.totalSectors == l.clusters * l.spc && l.fatSize == FatSizeFor(l.bits, l.clusters, l.spc)
    requires Writes(b, l)
    ensures var g := MountGeometry(l.bits, b, start);
      g.sectorsPerCluster == l.spc && g.fatSize == l.fatSize && g.totalSectors == l.totalSectors &&
      g.numFatEntries == EntryCount(l.bits, l.fatSize * 512) &&
      g.maxValid == DataClusters(g.totalSectors, g.dataStart, g.sectorsPerCluster) + 1
  {
    FatSizeSmall(l.bits, l.clusters, l.spc);
    FatSizeRead(b, l);
    var g := MountGeometry(l.bits, b, start);
    assert g.totalSectors == l.totalSectors;
    DataWithinClusters(l.totalSectors, g.dataStart, l.spc, l.clusters);
  }

  /** A corrected FAT12/16 FAT fits the 16-bit BPB field. */
  lemma FatSizeSmall(bits: nat, clusters: nat, spc: nat)
    requires ValidBits(bits) && ClusterSizeValue(spc) && clusters <= ClusterLimit(bits)
    ensures bits != 32 ==> FatSizeFor(bits, clusters, spc) < 0x1_0000
  {
    if bits != 32 {
      var raw := (FatBytesFor(bits, clusters + 2) + 511) / 512;
      assert raw <= 300;
      RoundUpCovers(raw, spc);
    }
  }

  /** Phat_Mount's FAT size is the one MakeFS wrote. */
  lemma FatSizeRead(b: Bpb, l: Layout)
    requires Writes(b, l) && ValidBits(l.bits) && l.fatSize >= 1
    requires l.bits != 32 ==> l.fatSize < 0x1_0000
    ensures BpbFatSize(b, l.bits) == l.fatSize
  {
  }

  /** The data area of a partition of n whole clusters has at most n clusters. */
  lemma DataWithinClusters(total: nat, dataStart: nat, spc: nat, n: nat)
    requires spc >= 1 && total == n * spc
    ensures DataClusters(total, dataStart, spc) <= n
  {
    if total >= dataStart {
      var k := (total - dataStart) / spc;
      DivTimes(total - dataStart, spc);
      if k > n {
        MulMono(n + 1, k, spc);
      }
    }
  }

  /**
   * As written, a 1.44 MB floppy (2880 sectors, FAT12) gets one-sector
   * clusters and an 8-sector FAT: 2730 entries, so clusters up to 2729,
   * while its data area holds 2818 clusters (2 to 2819).
   */
  lemma AsWrittenFloppyFatTooSmall(b: Bpb)
    requires Writes(b, Plan(2880, 0, 0, 12, 0, true).1)
    ensures var r := Plan(2880, 0, 0, 12, 0, true);
      r.0 == OK && r.1.spc == 1 && r.1.fatSize == 8 &&
      var g := MountGeometry(12, b, 0);
      g.numFatEntries == 2730 && g.maxValid == 2729 &&
      DataClusters(g.totalSectors, g.dataStart, g.sectorsPerCluster) == 2818
  {
    var l := FloppyLayout(true);
    assert l.fatSize == 8 by {
      assert FatBytesAsWritten(12, 2880) == 4320;
    }
    FloppyMount(l, b);
  }

  /** The corrected FAT of the same floppy has nine sectors and an entry for every cluster. */
  lemma FloppyFatCovers(b: Bpb)
    requires Writes(b, Plan(2880, 0, 0, 12, 0, false).1)
    ensures var r := Plan(2880, 0, 0, 12, 0, false);
      r.0 == OK && r.1.fatSize == 9 &&
      var g := MountGeometry(12, b, 0);
      g.maxValid == DataClusters(g.totalSectors, g.dataStart, g.sectorsPerCluster) + 1 == 2817
  {
    var l := FloppyLayout(false);
    assert l.fatSize == 9 by {
      assert FatBytesFor(12, 2882) == 4323;
      assert (4323 + 511) / 512 == 9;
    }
    FloppyMount(l, b);
    MountSeesLayout(l, 0, b);
  }

  /** The floppy's layout before the FAT size is chosen. */
  lemma FloppyLayout(asWritten: bool) returns (l: Layout)
    ensures Plan(2880, 0, 0, 12, 0, asWritten) == (OK, l)
    ensures l.bits == 12 && l.rootEntries == 224 && l.spc == 1 && l.clusters == 2880 && l.totalSectors == 2880
    ensures l.fatSize == if asWritten then FatSizeAsWritten(12, 2880, 1) else FatSizeFor(12, 2880, 1)
  {
    assert ChooseWidth(2880, 12, 0) == (OK, Width(12, 224));
    assert ClusterSize(2880, 0xFF0) == 1;
    l := LayoutFor(2880, Width(12, 224), asWritten);
  }

  /** What Phat_Mount derives from the floppy's BPB for a FAT of f sectors. */
  lemma FloppyMount(l: Layout, b: Bpb)
    requires l.bits == 12 && l.rootEntries == 224 && l.spc == 1 && l.totalSectors == 2880
    requires 8 <= l.fatSize <= 9 && Writes(b, l)
    ensures var g := MountGeometry(12, b, 0);
      g.fatSize == l.fatSize && g.totalSectors == 2880 && g.sectorsPerCluster == 1 &&
      g.dataStart == 32 + 2 * l.fatSize + 14 &&
      g.numFatEntries == l.fatSize * 4096 / 12 &&
      DataClusters(g.totalSectors, g.dataStart, g.sectorsPerCluster) == 2880 - g.dataStart
  {
    assert BpbFatSize(b, 12) == l.fatSize;
    assert RootDirSectors(224, 512) == 14;
  }

  /**
   * As written, num_FAT_entries divides by phat->FAT_bits, which MakeFS
   * never sets: zero after Phat_Init (a division by zero, None here), or the
   * width of whatever was mounted before.
   */
  function EntriesAsWritten(fatSize: nat, staleBits: nat): Option<nat>
  {
    if staleBits == 0 then None else Some(fatSize * 512 * 8 / staleBits)
  }

  /**
   * Formatting a FAT12 volume after a FAT16 one was mounted counts 16-bit
   * entries; straight after Phat_Init it divides by zero.
   */
  lemma AsWrittenStaleWidth(fatSize: nat)
    requires fatSize >= 1
    ensures EntriesAsWritten(fatSize, 0).None?
    ensures EntriesAsWritten(fatSize, 16) == Some(fatSize * 256) && EntryCount(12, fatSize * 512) > fatSize * 256
  {
    assert fatSize * 512 * 8 == (fatSize * 256) * 16;
    assert (fatSize * 512) * 8 / 12 >= fatSize * 341;
  }

  // ---------------------------------------------------------------------
  // The first sector of each fresh FAT copy.

  /** Lines 3168-3181: a zeroed sector with the first double word (and on FAT32 the second) set. */
  function FatHead(bits: nat): (s: Sector)
    requires ValidBits(bits)
    ensures forall i :: (if bits == 32 then 8 else 4) <= i < 512 ==> s[i] == 0
    ensures bits == 12 ==> s[3] == 0
  {
    if bits == 12 then PutLE32(ZeroSector(), 0, 0x00FF_FFF0)
    else if bits == 16 then PutLE32(ZeroSector(), 0, 0xFFFF_FFF8)
    else PutLE32(PutLE32(ZeroSector(), 0, 0x0FFF_FFF8), 4, 0xFFFF_FFFF)
  }

  /**
   * As written: on FAT32 the root cluster's end of chain is stored into the
   * cached first FAT sector (line 3157) before the FAT initialisation
   * rewrites that sector. The memset at line 3168 clears every byte of it,
   * so whatever the sector held, the root's end of chain included, the
   * sector ends as FatHead.
   */
  function FirstFatSectorAsWritten(bits: nat, cached: Sector): Sector
    requires ValidBits(bits)
  {
    FatHead(bits)
  }

  /**
   * As written, a fresh FAT32 volume's root cluster is free: the end of
   * chain line 3157 stored is gone once the first FAT sector is
   * reinitialised, so the first allocation hands out the root directory.
   */
  lemma AsWrittenRootClusterFree(cached: Sector)
    ensures GetEntry(PutEntry(cached, 32, 2, 0x0FFF_FFF8), 32, 2) == 0x0FFF_FFF8
    ensures GetEntry(FirstFatSectorAsWritten(32, cached), 32, 2) == 0
  {
    WindowOfPut(cached, 32, 2, 0x0FFF_FFF8);
    ZeroWindow(FatHead(32), 32, 2);
  }

  /** Corrected: the FAT is initialised first and the root cluster's end of chain stored after. */
  function FirstFatSector(bits: nat): Sector
    requires ValidBits(bits)
  {
    if bits == 32 then PutEntry(FatHead(32), 32, 2, 0x0FFF_FFF8) else FatHead(bits)
  }

  /**
   * The corrected first FAT sector: entry 0 holds the media value, entry 1
   * all ones, on FAT32 entry 2 ends the root directory's chain, and every
   * other entry in the sector is free.
   */
  lemma FreshFirstFatSector(bits: nat)
    requires ValidBits(bits)
    ensures GetEntry(FirstFatSector(bits), bits, 0) == if bits == 12 then 0xFF0 else if bits == 16 then 0xFFF8 else 0x0FFF_FFF8
    ensures GetEntry(FirstFatSector(bits), bits, 1) == if bits == 12 then 0xFFF else if bits == 16 then 0xFFFF else 0xFFFF_FFFF
    ensures bits == 32 ==> GetEntry(FirstFatSector(bits), bits, 2) as nat >= EndOfChainFor(32)
    ensures forall c :: (if bits == 32 then 3 else 2) <= c && EntryFits(bits, c, 512) ==> GetEntry(FirstFatSector(bits), bits, c) == 0
  {
    var s := FirstFatSector(bits);
    if bits == 32 {
      WindowOfPut(FatHead(32), 32, 2, 0x0FFF_FFF8);
      assert Window(s, 32, 0) == Window(FatHead(32), 32, 0);
      assert Window(s, 32, 1) == Window(FatHead(32), 32, 1);
      HeadDWords();
    } else {
      HeadWords(bits);
    }
    forall c | (if bits == 32 then 3 else 2) <= c && EntryFits(bits, c, 512)
      ensures GetEntry(s, bits, c) == 0
    {
      if bits == 32 {
        assert Window(s, 32, c) == Window(FatHead(32), 32, c);
      }
      ZeroWindow(FatHead(bits), bits, c);
    }
  }

  /** The FAT32 head: 0x0FFFFFF8 then 0xFFFFFFFF. */
  lemma HeadDWords()
    ensures GetEntry(FatHead(32), 32, 0) == 0x0FFF_FFF8 && GetEntry(FatHead(32), 32, 1) == 0xFFFF_FFFF
  {
    var z := PutLE32(ZeroSector(), 0, 0x0FFF_FFF8);
    assert FatHead(32)[0..4] == z[0..4];
  }

  /** The FAT12 and FAT16 heads: 0xFF0/0xFFF and 0xFFF8/0xFFFF. */
  lemma HeadWords(bits: nat)
    requires bits == 12 || bits == 16
    ensures GetEntry(FatHead(bits), bits, 0) == if bits == 12 then 0xFF0 else 0xFFF8
    ensures GetEntry(FatHead(bits), bits, 1) == if bits == 12 then 0xFFF else 0xFFFF
  {
  }

  /** An entry whose bytes lie past the head reads zero. */
  lemma ZeroWindow(s: Sector, bits: nat, c: nat)
    requires ValidBits(bits) && EntryFits(bits, c, 512) && s == FatHead(bits) && 2 <= c
    ensures GetEntry(s, bits, c) == 0
  {
    var w := Window(s, bits, c);
    assert forall i :: 0 <= i < |w| ==> w[i] == 0;
  }
}
