/**
 * Files: how the file pointer names a sector of the cluster chain, and the
 * handle operations built on it (Phat_OpenFile's handle set-up,
 * Phat_ReadFile, Phat_WriteFile, Phat_SeekFile, Phat_IsEOF, Phat_CloseFile).
 *
 * The device is seen through the file: `lbas` are the LBAs of the file's
 * sectors in file order (FileLbas computes them from a cluster chain) and
 * `content` the bytes those sectors hold, 512 per sector; `faulty` is the set
 * of LBAs the driver fails to transfer. For a write, `lbas` goes on past the
 * chain with the sectors of the clusters the allocator would hand out, which
 * Phat_WipeCluster has zeroed.
 */
module FileIo {
  import opened Common
  import opened Boot
  import opened LongNames
  import opened DirEntries
  import opened Directory

  // ---------------------------------------------------------------------
  // From the file pointer to an LBA.

  /** The chain index of the cluster holding byte p (cluster_index in Phat_UpdateClusterByFilePointer). */
  function ClusterIndexOf(p: nat, spc: nat): nat
    requires spc > 0
  {
    DivNonNeg(p, spc * 512);
    p / (spc * 512)
  }

  /** The sector of byte p within its cluster (offset_in_cluster in Phat_GetCurFilePointerLBA). */
  function SectorInCluster(p: nat, spc: nat): nat
    requires spc > 0
  {
    (p / 512) % spc
  }

  /** Every cluster of the chain is a data cluster. */
  predicate DataChain(chain: seq<nat>)
  {
    forall i :: 0 <= i < |chain| ==> chain[i] >= 2
  }

  /** No value occurs twice. */
  predicate Distinct(xs: seq<nat>)
  {
    forall i, j :: 0 <= i < |xs| && 0 <= j < |xs| && i != j ==> xs[i] != xs[j]
  }

  /** The LBA Phat_GetCurFilePointerLBA returns for pointer p once the walk has reached its cluster. */
  function PointerLba(g: Geometry, chain: seq<nat>, p: nat): nat
    requires g.sectorsPerCluster > 0 && DataChain(chain)
    requires ClusterIndexOf(p, g.sectorsPerCluster) < |chain|
  {
    ClusterToLba(g, chain[ClusterIndexOf(p, g.sectorsPerCluster)]) + SectorInCluster(p, g.sectorsPerCluster) + g.partitionStart
  }

  lemma DivNonNeg(p: nat, d: nat)
    requires d > 0
    ensures p / d >= 0
  {
  }

  lemma MulImp(a: nat, b: nat, m: nat)
    ensures a <= b ==> a * m <= b * m
  {
  }

  lemma DivUnique(p: nat, d: nat, q: nat, r: nat)
    requires 0 <= r < d && p == d * q + r
    ensures p / d == q && p % d == r
  {
    var q', r' := p / d, p % d;
    assert p == d * q' + r';
    MulImp(q + 1, q', d);
    MulImp(q' + 1, q, d);
    assert (q + 1) * d == q * d + d && (q' + 1) * d == q' * d + d;
  }

  lemma BelowProduct(s: nat, n: nat, spc: nat)
    requires spc > 0 && s < n * spc
    ensures s / spc < n
  {
    assert spc * (s / spc) <= s;
    MulImp(n, s / spc, spc);
  }

  /** The cluster index of a byte is the cluster index of its sector. */
  lemma ClusterOfSector(p: nat, spc: nat)
    requires spc > 0
    ensures ClusterIndexOf(p, spc) == (p / 512) / spc
  {
    var s, r := p / 512, p % 512;
    var q, t := s / spc, s % spc;
    assert s == spc * q + t;
    assert 512 * t + r < 512 * spc by {
      assert t + 1 <= spc;
      assert 512 * (t + 1) <= 512 * spc;
    }
    calc {
      p;
      512 * s + r;
      512 * (spc * q + t) + r;
      (spc * 512) * q + (512 * t + r);
    }
    DivUnique(p, spc * 512, q, 512 * t + r);
  }

  /** The sector of the file at chain position s / spc, offset s % spc in its cluster. */
  function SectorLba(g: Geometry, chain: seq<nat>, s: nat): nat
    requires g.sectorsPerCluster > 0 && DataChain(chain)
    requires s < |chain| * g.sectorsPerCluster
  {
    BelowProduct(s, |chain|, g.sectorsPerCluster);
    ClusterToLba(g, chain[s / g.sectorsPerCluster]) + s % g.sectorsPerCluster + g.partitionStart
  }

  /** The LBAs of the file's sectors in file order: each cluster of the chain gives its sectors in turn. */
  function FileLbas(g: Geometry, chain: seq<nat>): (r: seq<nat>)
    requires g.sectorsPerCluster > 0 && DataChain(chain)
    ensures |r| == |chain| * g.sectorsPerCluster
    ensures forall s :: 0 <= s < |r| ==> r[s] == SectorLba(g, chain, s)
  {
    seq(|chain| * g.sectorsPerCluster, s requires 0 <= s < |chain| * g.sectorsPerCluster => SectorLba(g, chain, s))
  }

  /**
   * Pointer p reaches the LBA of file sector p / 512: the cluster walk plus
   * the offset in the cluster land on the sector that holds byte p.
   */
  lemma PointerLbaIsFileSector(g: Geometry, chain: seq<nat>, p: nat)
    requires g.sectorsPerCluster > 0 && DataChain(chain)
    requires p / 512 < |chain| * g.sectorsPerCluster
    ensures ClusterIndexOf(p, g.sectorsPerCluster) < |chain|
    ensures PointerLba(g, chain, p) == FileLbas(g, chain)[p / 512]
  {
    ClusterOfSector(p, g.sectorsPerCluster);
    BelowProduct(p / 512, |chain|, g.sectorsPerCluster);
  }

  lemma BlocksApart(a: nat, b: nat, o1: nat, o2: nat, spc: nat)
    requires a < b && o1 < spc && o2 < spc
    ensures a * spc + o1 < b * spc + o2
  {
    assert (a + 1) * spc <= b * spc;
  }

  /** Offsets o1, o2 in clusters c1, c2 of spc sectors name different sectors unless both agree. */
  lemma PlacesApart(c1: nat, c2: nat, o1: nat, o2: nat, spc: nat)
    requires o1 < spc && o2 < spc && (c1 != c2 || o1 != o2)
    ensures c1 * spc + o1 != c2 * spc + o2
  {
    if c1 < c2 {
      BlocksApart(c1, c2, o1, o2, spc);
    } else if c2 < c1 {
      BlocksApart(c2, c1, o2, o1, spc);
    }
  }

  /**
   * Sectors s1 = i1 * spc + o1 and s2 = i2 * spc + o2 of a file, the first
   * in cluster c1 and the second in c2, lie apart on the disk when they are
   * in different clusters or at different offsets of one.
   */
  lemma OffsetsApart(spc: nat, s1: nat, s2: nat, i1: nat, i2: nat, o1: nat, o2: nat, c1: nat, c2: nat)
    requires s1 == i1 * spc + o1 && s2 == i2 * spc + o2 && o1 < spc && o2 < spc
    requires s1 != s2 && (i1 == i2 || c1 != c2)
    ensures c1 * spc + o1 != c2 * spc + o2
  {
    PlacesApart(c1, c2, o1, o2, spc);
  }

  /** File sector s lies at offset o of the chain's cluster i: its LBA is that cluster's first sector plus o. */
  lemma SectorLbaParts(g: Geometry, chain: seq<nat>, s: nat) returns (i: nat, o: nat)
    requires g.sectorsPerCluster > 0 && DataChain(chain) && s < |chain| * g.sectorsPerCluster
    ensures s == i * g.sectorsPerCluster + o && o < g.sectorsPerCluster && i < |chain| && chain[i] >= 2
    ensures SectorLba(g, chain, s) == g.dataStart + g.partitionStart + ((chain[i] - 2) * g.sectorsPerCluster + o)
  {
    BelowProduct(s, |chain|, g.sectorsPerCluster);
    i, o := s / g.sectorsPerCluster, s % g.sectorsPerCluster;
  }

  /** File sectors s1 and s2, in different clusters or at different offsets of one, have different LBAs. */
  lemma SectorsApart(g: Geometry, chain: seq<nat>, s1: nat, s2: nat)
    requires g.sectorsPerCluster > 0 && DataChain(chain) && Distinct(chain)
    requires s1 < |chain| * g.sectorsPerCluster && s2 < |chain| * g.sectorsPerCluster && s1 != s2
    ensures SectorLba(g, chain, s1) != SectorLba(g, chain, s2)
  {
    var spc := g.sectorsPerCluster;
    var i1, o1 := SectorLbaParts(g, chain, s1);
    var i2, o2 := SectorLbaParts(g, chain, s2);
    OffsetsApart(spc, s1, s2, i1, i2, o1, o2, chain[i1] - 2, chain[i2] - 2);
  }

  /** A chain that visits no cluster twice gives every file sector its own LBA. */
  lemma FileLbasDistinct(g: Geometry, chain: seq<nat>)
    requires g.sectorsPerCluster > 0 && DataChain(chain) && Distinct(chain)
    ensures Distinct(FileLbas(g, chain))
  {
    var r := FileLbas(g, chain);
    forall s1, s2 | 0 <= s1 < |r| && 0 <= s2 < |r| && s1 != s2
      ensures r[s1] != r[s2]
    {
      SectorsApart(g, chain, s1, s2);
    }
  }

  // ---------------------------------------------------------------------
  // Sectors of a file's bytes.

  /** Sector k of the bytes. */
  function SectorAt(content: seq<Byte>, k: nat): (r: seq<Byte>)
    requires 512 * k + 512 <= |content|
    ensures |r| == 512 && forall j :: 0 <= j < 512 ==> r[j] == content[512 * k + j]
  {
    content[512 * k..512 * k + 512]
  }

  /** The bytes with sector k replaced by s. */
  function PutSector(content: seq<Byte>, k: nat, s: seq<Byte>): (r: seq<Byte>)
    requires 512 * k + 512 <= |content| && |s| == 512
    ensures |r| == |content|
    ensures forall i :: 0 <= i < |r| ==> r[i] == if 512 * k <= i < 512 * k + 512 then s[i - 512 * k] else content[i]
  {
    content[..512 * k] + s + content[512 * k + 512..]
  }

  lemma JoinSlices(s: seq<Byte>, a: nat, b: nat, c: nat)
    requires a <= b <= c <= |s|
    ensures s[a..b] + s[b..c] == s[a..c]
  {
  }

  /** The bytes handed over while the pointer went from p0 to p are the file's bytes from p0. */
  ghost predicate Progress(p0: nat, p: nat, out: seq<Byte>, content: seq<Byte>)
  {
    p == p0 + |out| && (|out| > 0 ==> p <= |content|) && (p <= |content| ==> out == content[p0..p])
  }

  /** The handle's one-sector buffer holds what the file's sector at bufferLba holds. */
  ghost predicate BufferMatches(buffer: seq<Byte>, bufferLba: nat, lbas: seq<nat>, content: seq<Byte>)
  {
    |buffer| == 512 && |content| == 512 * |lbas| &&
    forall k :: 0 <= k < |lbas| && lbas[k] == bufferLba ==> buffer == SectorAt(content, k)
  }

  /**
   * After sector k is written with s, the buffer is still right if it holds s
   * and names sector k, or names another sector and was right before.
   */
  lemma PutKeepsMatch(buffer: seq<Byte>, bufferLba: nat, lbas: seq<nat>, content: seq<Byte>, k: nat, s: seq<Byte>)
    requires Distinct(lbas) && k < |lbas| && |s| == 512 && |content| == 512 * |lbas|
    requires (lbas[k] == bufferLba && buffer == s) || (lbas[k] != bufferLba && BufferMatches(buffer, bufferLba, lbas, content))
    ensures BufferMatches(buffer, bufferLba, lbas, PutSector(content, k, s))
  {
    var now := PutSector(content, k, s);
    forall j | 0 <= j < |lbas| && lbas[j] == bufferLba
      ensures buffer == SectorAt(now, j)
    {
      if j != k {
        assert SectorAt(now, j) == SectorAt(content, j);
      } else {
        assert SectorAt(now, j) == s;
      }
    }
  }

  /** How many bytes Phat_ReadFile hands over: n, cut at the end of the file. */
  function Wanted(n: nat, p: nat, size: nat): (m: nat)
    ensures m <= n && (p >= size ==> m == 0) && (p < size ==> p + m <= size)
    ensures p < size && n > 0 ==> m > 0
  {
    if p >= size then 0 else if p + n > size then size - p else n
  }

  // ---------------------------------------------------------------------
  // What Phat_WriteFile leaves in the file.

  /** Whether Phat_WriteFile's tail step runs: the write ends inside a sector the head step did not cover. */
  predicate TailStep(p0: nat, q: nat)
  {
    q % 512 != 0 && (p0 % 512 == 0 || p0 / 512 != q / 512)
  }

  /** Where the bytes the write changes end: as written, the tail step zeroes the rest of its sector. */
  function WriteEnd(p0: nat, q: nat, asWritten: bool): (e: nat)
    ensures e >= q
  {
    if asWritten && TailStep(p0, q) then q / 512 * 512 + 512 else q
  }

  lemma WriteEndFits(p0: nat, q: nat, asWritten: bool, len: nat)
    requires q <= len && len % 512 == 0
    ensures WriteEnd(p0, q, asWritten) <= len
  {
    if asWritten && TailStep(p0, q) {
      assert q / 512 < len / 512 by {
        assert q == 512 * (q / 512) + q % 512;
        assert len == 512 * (len / 512);
      }
    }
  }

  /**
   * The bytes after writing data at p0. Corrected, that is the data in place
   * and every other byte kept; as written, the tail step also zeroes what
   * followed the data in its last sector.
   */
  function Written(was: seq<Byte>, p0: nat, data: seq<Byte>, asWritten: bool): (r: seq<Byte>)
    requires |was| % 512 == 0 && p0 + |data| <= |was|
    ensures |r| == |was| && r[p0..p0 + |data|] == data
    ensures forall i :: 0 <= i < |r| ==>
      r[i] == if p0 <= i < p0 + |data| then data[i - p0] else if p0 + |data| <= i < WriteEnd(p0, p0 + |data|, asWritten) then 0 else was[i]
  {
    var q := p0 + |data|;
    var e := WriteEnd(p0, q, asWritten);
    WriteEndFits(p0, q, asWritten, |was|);
    var r := was[..p0] + data + Zeros(e - q) + was[e..];
    assert r[p0..q] == data;
    r
  }

  /**
   * As written, a one-byte write at the start of a full sector of 0x41
   * leaves the other 511 bytes of that sector zero instead of 0x41.
   */
  lemma AsWrittenTailLost()
    ensures var was := seq(512, _ => 0x41 as Byte);
      Written(was, 0, [0x42], true)[1] == 0 && Written(was, 0, [0x42], false)[1] == 0x41
  {
    var was := seq(512, _ => 0x41 as Byte);
    assert TailStep(0, 1);
    assert WriteEnd(0, 1, true) == 512;
    assert WriteEnd(0, 1, false) == 1;
  }

  /** Corrected, a write replaces exactly the bytes it covers. */
  lemma CorrectedWriteKeepsRest(was: seq<Byte>, p0: nat, data: seq<Byte>)
    requires |was| % 512 == 0 && p0 + |data| <= |was|
    ensures Written(was, p0, data, false) == was[..p0] + data + was[p0 + |data|..]
  {
    var r := Written(was, p0, data, false);
    var t := was[..p0] + data + was[p0 + |data|..];
    assert |r| == |t|;
    forall i | 0 <= i < |r|
      ensures r[i] == t[i]
    {
      if i < p0 {
      } else if i < p0 + |data| {
      } else {
      }
    }
  }

  /**
   * The handle's view while a write is under way: data[..w] is in place from
   * p0, bytes from p0 + w up to z are zero, and the rest is as it was.
   */
  ghost predicate Patched(now: seq<Byte>, was: seq<Byte>, p0: nat, data: seq<Byte>, w: nat, z: nat)
  {
    |now| == |was| && w <= |data| && p0 + w <= z && (z > p0 ==> z <= |was|) &&
    forall i {:trigger now[i]} :: 0 <= i < |was| ==> now[i] == if p0 <= i < p0 + w then data[i - p0] else if p0 + w <= i < z then 0 else was[i]
  }

  /** Writing sector k with c more data bytes (and zeroes up to z) extends the patch. */
  lemma WriteSector(now: seq<Byte>, was: seq<Byte>, p0: nat, data: seq<Byte>, w: nat, c: nat, z: nat, k: nat, s: seq<Byte>)
    requires Patched(now, was, p0, data, w, p0 + w)
    requires 512 * k <= p0 + w && p0 + w + c <= z <= 512 * k + 512 <= |now| && w + c <= |data| && |s| == 512
    requires forall j :: 0 <= j < 512 ==> s[j] == if p0 + w <= 512 * k + j < p0 + w + c then data[512 * k + j - p0]
                                                 else if p0 + w + c <= 512 * k + j < z then 0 else now[512 * k + j]
    ensures Patched(PutSector(now, k, s), was, p0, data, w + c, z)
  {
    var r := PutSector(now, k, s);
    forall i | 0 <= i < |was|
      ensures r[i] == if p0 <= i < p0 + w + c then data[i - p0] else if p0 + w + c <= i < z then 0 else was[i]
    {
      if 512 * k <= i < 512 * k + 512 {
        assert r[i] == s[i - 512 * k];
      }
    }
  }

  /** Sector with piece copied in at offset off (the memcpy into sector_buffer). */
  function Overlaid(sector: seq<Byte>, off: nat, piece: seq<Byte>): (s: seq<Byte>)
    requires |sector| == 512 && off + |piece| <= 512
    ensures |s| == 512
    ensures forall j :: 0 <= j < 512 ==> s[j] == if off <= j < off + |piece| then piece[j - off] else sector[j]
  {
    sector[..off] + piece + sector[off + |piece|..]
  }

  /** A read-modify-write of sector k with data[w..w2] extends the patch to w2. */
  lemma SplicedPatch(now: seq<Byte>, was: seq<Byte>, p0: nat, data: seq<Byte>, w: nat, w2: nat, k: nat, s: seq<Byte>, z: nat)
    requires Patched(now, was, p0, data, w, p0 + w)
    requires 512 * k <= p0 + w && w <= w2 <= |data| && p0 + w2 <= 512 * k + 512 <= |now| && z == p0 + w2
    requires s == Overlaid(SectorAt(now, k), p0 + w - 512 * k, data[w..w2])
    ensures Patched(PutSector(now, k, s), was, p0, data, w2, z)
  {
    WriteSector(now, was, p0, data, w, w2 - w, z, k, s);
  }

  /** Writing data[w..w2] followed by zeroes over sector k extends the patch to w2 and zeroes to the sector's end. */
  lemma ZeroedPatch(now: seq<Byte>, was: seq<Byte>, p0: nat, data: seq<Byte>, w: nat, w2: nat, k: nat, s: seq<Byte>, z: nat)
    requires Patched(now, was, p0, data, w, p0 + w)
    requires 512 * k == p0 + w && 512 * k + 512 <= |now| && w <= w2 <= |data| && w2 - w <= 512 && z == 512 * k + 512
    requires s == Overlaid(ZeroSector(), 0, data[w..w2])
    ensures Patched(PutSector(now, k, s), was, p0, data, w2, z)
  {
    WriteSector(now, was, p0, data, w, w2 - w, z, k, s);
  }

  /** How many bytes the head step of a transfer of n bytes from p covers: up to the sector's end. */
  function HeadLen(p: nat, n: nat): (c: nat)
    ensures c <= n
  {
    if 512 - p % 512 > n then n else 512 - p % 512
  }

  /** The head step covers all n bytes or ends on a sector boundary, and never leaves p's sector otherwise. */
  lemma HeadStepFacts(p: nat, n: nat)
    requires p % 512 != 0 && n > 0
    ensures HeadLen(p, n) > 0 && 512 * (p / 512) + p % 512 == p && p + HeadLen(p, n) <= 512 * (p / 512) + 512
    ensures HeadLen(p, n) == n || (p + HeadLen(p, n)) % 512 == 0
    ensures (p + HeadLen(p, n)) % 512 != 0 ==> (p + HeadLen(p, n)) / 512 == p / 512
  {
  }

  /** A write that ends on a sector boundary has no tail step. */
  lemma AlignedEnd(p0: nat, q: nat, asWritten: bool)
    requires q % 512 == 0
    ensures WriteEnd(p0, q, asWritten) == q
  {
  }

  /** From an aligned pointer p with fewer than 512 bytes left, ending mid-sector, the write ends with a tail step. */
  lemma TailFacts(p0: nat, p: nat, q: nat, asWritten: bool)
    requires p % 512 == 0 && p0 <= p < q < p + 512
    ensures TailStep(p0, q) && WriteEnd(p0, q, asWritten) == if asWritten then p + 512 else q
  {
    assert p == 512 * (p / 512);
    DivUnique(q, 512, p / 512, q - p);
    if p0 < p {
      assert p0 / 512 < p / 512;
    }
  }

  /** A finished patch is Written. */
  lemma PatchedIsWritten(now: seq<Byte>, was: seq<Byte>, p0: nat, data: seq<Byte>, asWritten: bool)
    requires |was| % 512 == 0 && p0 + |data| <= |was|
    requires Patched(now, was, p0, data, |data|, WriteEnd(p0, p0 + |data|, asWritten))
    ensures now == Written(was, p0, data, asWritten)
  {
  }

  // ---------------------------------------------------------------------
  // The open file.

  /** Phat_FileInfo_t: an open file and its one-sector buffer. */
  class FileHandle {
    var pointer: nat       // file_pointer
    var size: nat          // file_size
    var firstCluster: nat  // first_cluster
    var attributes: Byte   // file_item.attributes
    var readonly: bool
    var modified: bool
    var bufferLba: nat     // sector_buffer_LBA
    var buffer: seq<Byte>  // sector_buffer

    /** The buffer holds what the file's sector at bufferLba holds. */
    ghost predicate Coherent(lbas: seq<nat>, content: seq<Byte>)
      reads this`buffer, this`bufferLba
    {
      BufferMatches(buffer, bufferLba, lbas, content)
    }

    /** Phat_WriteFile's read-only checks: the handle, the volume's write switch and the entry's attribute. */
    predicate WriteLocked(writeEnable: bool)
      reads this`readonly, this`attributes
    {
      readonly || !writeEnable || attributes & ATTRIB_READ_ONLY != 0
    }

    /** Phat_IsEOF. */
    predicate AtEnd()
      reads this
    {
      pointer >= size
    }

    /**
     * The handle set-up of Phat_OpenFile once the path names a file whose
     * entry is e: the buffer is aimed at the first sector and, for a file
     * that is not empty, loaded from it; `first` is what reading that sector
     * gives, None when the driver fails.
     */
    method Open(g: Geometry, e: Entry, ro: bool, first: Option<Sector>) returns (st: PhatState)
      modifies this
      ensures pointer == 0 && !modified
      ensures firstCluster == FirstClusterOf(e) as nat && size == FileSizeOf(e) as nat && attributes == Attributes(e)
      ensures readonly == (ro || Attributes(e) & ATTRIB_READ_ONLY != 0)
      ensures bufferLba == DataLba(g, firstCluster) + g.partitionStart
      ensures size == 0 ==> st == OK && buffer == old(buffer)
      ensures size > 0 ==> (st == OK <==> first.Some?) && (st == OK || st == ReadFail)
      ensures size > 0 && st == OK ==> buffer == first.value
      ensures st != OK ==> buffer == old(buffer)
    {
      Describe(e, ro);
      bufferLba := DataLba(g, firstCluster) + g.partitionStart;
      st := Load(first);
    }

    /** The fields Phat_OpenFile copies from the entry, with the pointer at the start and nothing modified yet. */
    method Describe(e: Entry, ro: bool)
      modifies this`pointer, this`modified, this`firstCluster, this`size, this`attributes, this`readonly
      ensures pointer == 0 && !modified
      ensures firstCluster == FirstClusterOf(e) as nat && size == FileSizeOf(e) as nat && attributes == Attributes(e)
      ensures readonly == (ro || Attributes(e) & ATTRIB_READ_ONLY != 0)
    {
      modified := false;
      firstCluster := FirstClusterOf(e) as nat;
      size := FileSizeOf(e) as nat;
      attributes := Attributes(e);
      readonly := ro || Attributes(e) & ATTRIB_READ_ONLY != 0;
      pointer := 0;
    }

    /** Phat_OpenFile's first read: a file that is not empty has its first sector loaded into the buffer. */
    method Load(first: Option<Sector>) returns (st: PhatState)
      modifies this`buffer
      ensures size == 0 ==> st == OK && buffer == old(buffer)
      ensures size > 0 ==> (st == OK <==> first.Some?) && (st == OK || st == ReadFail)
      ensures size > 0 && st == OK ==> buffer == first.value
      ensures st != OK ==> buffer == old(buffer)
    {
      st := OK;
      if size > 0 {
        match first
        case None =>
          st := ReadFail;
        case Some(s) =>
          buffer := s;
      }
    }

    /** Brings file sector k into the buffer unless the buffer already names it. */
    method Fetch(k: nat, lbas: seq<nat>, content: seq<Byte>, faulty: set<nat>) returns (st: PhatState)
      requires Coherent(lbas, content) && Distinct(lbas) && k < |lbas|
      modifies this`buffer, this`bufferLba
      ensures Coherent(lbas, content)
      ensures st == OK || st == ReadFail
      ensures st == OK <==> old(bufferLba) == lbas[k] || lbas[k] !in faulty
      ensures st == OK ==> bufferLba == lbas[k] && buffer == SectorAt(content, k)
    {
      if bufferLba != lbas[k] {
        if lbas[k] in faulty {
          return ReadFail;
        }
        buffer := SectorAt(content, k);
        bufferLba := lbas[k];
      }
      return OK;
    }

    /** The head step of Phat_ReadFile: c bytes from offset off of sector k, through the buffer. */
    method ReadHead(k: nat, off: nat, c: nat, lbas: seq<nat>, content: seq<Byte>, faulty: set<nat>) returns (st: PhatState, piece: seq<Byte>)
      requires Coherent(lbas, content) && Distinct(lbas) && k < |lbas| && off + c <= 512
      modifies this`buffer, this`bufferLba
      ensures Coherent(lbas, content)
      ensures st == OK || st == ReadFail
      ensures st == ReadFail ==> lbas[k] in faulty
      ensures st == OK ==> piece == content[512 * k + off..512 * k + off + c]
    {
      piece := [];
      st := Fetch(k, lbas, content, faulty);
      if st == OK {
        piece := buffer[off..off + c];
      }
    }

    /** A whole-sector step of Phat_ReadFile: the buffer if it names sector k, else the sector itself. */
    method ReadWhole(k: nat, lbas: seq<nat>, content: seq<Byte>, faulty: set<nat>) returns (st: PhatState, chunk: seq<Byte>)
      requires Coherent(lbas, content) && k < |lbas|
      ensures st == OK || st == ReadFail
      ensures st == ReadFail <==> lbas[k] != bufferLba && lbas[k] in faulty
      ensures st == OK ==> chunk == content[512 * k..512 * k + 512]
    {
      if lbas[k] == bufferLba {
        return OK, buffer;
      }
      if lbas[k] in faulty {
        return ReadFail, [];
      }
      return OK, SectorAt(content, k);
    }

    /** The tail step of Phat_ReadFile: it reads sector k again even when the buffer holds it. */
    method ReadTail(k: nat, c: nat, lbas: seq<nat>, content: seq<Byte>, faulty: set<nat>) returns (st: PhatState, piece: seq<Byte>)
      requires Coherent(lbas, content) && Distinct(lbas) && k < |lbas| && c <= 512
      modifies this`buffer, this`bufferLba
      ensures Coherent(lbas, content)
      ensures st == OK || st == ReadFail
      ensures st == ReadFail <==> lbas[k] in faulty
      ensures st == OK ==> piece == content[512 * k..512 * k + c]
    {
      piece := [];
      st := Fetch(k, lbas, content, faulty);
      if st != OK {
        return;
      }
      if lbas[k] in faulty {
        return ReadFail, piece;
      }
      piece := buffer[..c];
    }

    /** Phat_ReadFile's head step, up to the next sector boundary or want bytes, whichever comes first. */
    method HeadRead(want: nat, lbas: seq<nat>, content: seq<Byte>, faulty: set<nat>) returns (st: PhatState, out: seq<Byte>)
      requires Coherent(lbas, content) && Distinct(lbas) && want > 0 && pointer % 512 != 0
      modifies this`pointer, this`buffer, this`bufferLba
      ensures Coherent(lbas, content) && Progress(old(pointer), pointer, out, content) && |out| <= want
      ensures st == OK || st == EndOfFile || st == ReadFail
      ensures st == OK ==> |out| > 0 && (|out| == want || pointer % 512 == 0)
      ensures st == OK && pointer % 512 != 0 ==> pointer / 512 == old(pointer) / 512
      ensures st == EndOfFile ==> out == [] && pointer / 512 >= |lbas|
      ensures st == ReadFail ==> out == [] && pointer / 512 < |lbas| && lbas[pointer / 512] in faulty
    {
      out := [];
      var off := pointer % 512;
      var k := pointer / 512;
      if k >= |lbas| {
        return EndOfFile, out;
      }
      var c := if 512 - off > want then want else 512 - off;
      assert 512 * k + off == pointer;
      st, out := ReadHead(k, off, c, lbas, content, faulty);
      if st != OK {
        return st, [];
      }
      pointer := pointer + c;
    }

    /** Phat_ReadFile's loop over whole sectors, count of them from an aligned pointer. */
    method SectorsRead(count: nat, lbas: seq<nat>, content: seq<Byte>, faulty: set<nat>) returns (st: PhatState, out: seq<Byte>)
      requires Coherent(lbas, content) && pointer % 512 == 0
      modifies this`pointer
      ensures Coherent(lbas, content) && Progress(old(pointer), pointer, out, content) && pointer % 512 == 0
      ensures st == OK || st == EndOfFile || st == ReadFail
      ensures |out| <= 512 * count && (st == OK <==> |out| == 512 * count)
      ensures st == EndOfFile ==> pointer / 512 >= |lbas|
      ensures st == ReadFail ==> pointer / 512 < |lbas| && lbas[pointer / 512] in faulty
    {
      ghost var p0 := pointer;
      out := [];
      var left := count;
      while left > 0
        invariant Progress(p0, pointer, out, content) && pointer % 512 == 0
        invariant |out| + 512 * left == 512 * count
      {
        var k := pointer / 512;
        if k >= |lbas| {
          return EndOfFile, out;
        }
        assert 512 * k == pointer;
        var chunk;
        st, chunk := ReadWhole(k, lbas, content, faulty);
        if st != OK {
          return st, out;
        }
        JoinSlices(content, p0, pointer, pointer + 512);
        out := out + chunk;
        pointer := pointer + 512;
        left := left - 1;
      }
      st := OK;
    }

    /** Phat_ReadFile's tail step: the last c bytes, from an aligned pointer. */
    method TailRead(c: nat, lbas: seq<nat>, content: seq<Byte>, faulty: set<nat>) returns (st: PhatState, out: seq<Byte>)
      requires Coherent(lbas, content) && Distinct(lbas) && 0 < c < 512 && pointer % 512 == 0
      modifies this`pointer, this`buffer, this`bufferLba
      ensures Coherent(lbas, content) && Progress(old(pointer), pointer, out, content)
      ensures st == OK || st == EndOfFile || st == ReadFail
      ensures |out| <= c && (st == OK <==> |out| == c)
      ensures st == EndOfFile ==> pointer / 512 >= |lbas|
      ensures st == ReadFail ==> pointer / 512 < |lbas| && lbas[pointer / 512] in faulty
    {
      out := [];
      var k := pointer / 512;
      if k >= |lbas| {
        return EndOfFile, out;
      }
      assert 512 * k == pointer;
      st, out := ReadTail(k, c, lbas, content, faulty);
      if st != OK {
        return st, [];
      }
      pointer := pointer + c;
    }

    /** The whole-sector and tail steps of Phat_ReadFile for want bytes from an aligned pointer. */
    method AlignedTransfer(want: nat, lbas: seq<nat>, content: seq<Byte>, faulty: set<nat>) returns (st: PhatState, out: seq<Byte>)
      requires Coherent(lbas, content) && Distinct(lbas) && (want > 0 ==> pointer % 512 == 0)
      modifies this`pointer, this`buffer, this`bufferLba
      ensures Coherent(lbas, content) && Progress(old(pointer), pointer, out, content) && |out| <= want
      ensures st == OK || st == EndOfFile || st == ReadFail
      ensures st == OK <==> |out| == want
      ensures st == EndOfFile ==> pointer / 512 >= |lbas|
      ensures st == ReadFail ==> pointer / 512 < |lbas| && lbas[pointer / 512] in faulty
    {
      ghost var p0 := pointer;
      out := [];
      var left := want;
      if left >= 512 {
        st, out := SectorsRead(left / 512, lbas, content, faulty);
        if st != OK {
          return;
        }
        left := left - |out|;
      }
      if left > 0 {
        ghost var p1 := pointer;
        var more;
        st, more := TailRead(left, lbas, content, faulty);
        if |more| > 0 {
          JoinSlices(content, p0, p1, pointer);
        }
        out := out + more;
        if st != OK {
          return;
        }
      }
      st := OK;
    }

    /** The three steps of Phat_ReadFile for want bytes from the pointer. */
    method Transfer(want: nat, lbas: seq<nat>, content: seq<Byte>, faulty: set<nat>) returns (st: PhatState, out: seq<Byte>)
      requires Coherent(lbas, content) && Distinct(lbas)
      modifies this`pointer, this`buffer, this`bufferLba
      ensures Coherent(lbas, content) && Progress(old(pointer), pointer, out, content) && |out| <= want
      ensures st == OK || st == EndOfFile || st == ReadFail
      ensures st == OK <==> |out| == want
      ensures st == EndOfFile ==> pointer / 512 >= |lbas|
      ensures st == ReadFail ==> pointer / 512 < |lbas| && lbas[pointer / 512] in faulty
    {
      ghost var p0 := pointer;
      out := [];
      var left := want;
      if left > 0 && pointer % 512 != 0 {
        st, out := HeadRead(left, lbas, content, faulty);
        if st != OK {
          return;
        }
        left := left - |out|;
      }
      ghost var p1 := pointer;
      var more;
      st, more := AlignedTransfer(left, lbas, content, faulty);
      if |more| > 0 {
        JoinSlices(content, p0, p1, pointer);
      }
      out := out + more;
    }

    /**
     * Phat_ReadFile: reads up to n bytes at the pointer, in a head step up to
     * the next sector boundary, whole sectors, and a tail. From a handle
     * whose buffer is Coherent, the bytes handed over are the file's own,
     * however far the read got. A failed write or the opening of an empty
     * file can leave the buffer out of step with the disk; reads from such
     * a handle are not described here.
     */
    method Read(n: nat, lbas: seq<nat>, content: seq<Byte>, faulty: set<nat>) returns (st: PhatState, out: seq<Byte>)
      requires Coherent(lbas, content) && Distinct(lbas)
      modifies this`pointer, this`buffer, this`bufferLba
      ensures Coherent(lbas, content)
      ensures st == OK || st == EndOfFile || st == ReadFail || st == InvalidParameter
      ensures n == 0 ==> st == InvalidParameter && out == [] && pointer == old(pointer)
      ensures n > 0 && (firstCluster == 0 || old(pointer) >= size) ==> st == EndOfFile && out == [] && pointer == old(pointer)
      ensures Progress(old(pointer), pointer, out, content) && |out| <= Wanted(n, old(pointer), size)
      ensures st == OK ==> |out| == Wanted(n, old(pointer), size) && pointer < size
      ensures (n > 0 && firstCluster != 0 && old(pointer) + Wanted(n, old(pointer), size) <= |content|
               && (st == OK || st == EndOfFile)) ==> |out| == Wanted(n, old(pointer), size)
      ensures st == EndOfFile && firstCluster != 0 && |out| < Wanted(n, old(pointer), size) ==> pointer / 512 >= |lbas|
      ensures st == EndOfFile && |out| == Wanted(n, old(pointer), size) ==> pointer >= size
      ensures st == ReadFail ==> pointer / 512 < |lbas| && lbas[pointer / 512] in faulty
    {
      out := [];
      if n == 0 {
        return InvalidParameter, out;
      }
      if firstCluster == 0 || pointer >= size {
        return EndOfFile, out;
      }
      var want: nat := if pointer + n > size then size - pointer else n;
      st, out := Transfer(want, lbas, content, faulty);
      if st == OK {
        st := if pointer >= size then EndOfFile else OK;
      }
    }

    /**
     * Writes s over file sector k (Phat_WriteSectorsWithoutCache) after
     * aiming the buffer at it when retarget is set and copying s into the
     * buffer when the buffer names sector k.
     */
    method Store(k: nat, s: seq<Byte>, retarget: bool, lbas: seq<nat>, now: seq<Byte>, faulty: set<nat>) returns (st: PhatState, now': seq<Byte>)
      requires Coherent(lbas, now) && Distinct(lbas) && k < |lbas| && |s| == 512
      modifies this`buffer, this`bufferLba, this`modified
      ensures bufferLba == if retarget then lbas[k] else old(bufferLba)
      ensures buffer == if bufferLba == lbas[k] then s else old(buffer)
      ensures st == OK || st == WriteFail
      ensures st == WriteFail <==> lbas[k] in faulty
      ensures st == OK ==> now' == PutSector(now, k, s) && Coherent(lbas, now') && modified
      ensures st != OK ==> now' == now && modified == old(modified)
    {
      now' := now;
      if retarget {
        bufferLba := lbas[k];
      }
      if lbas[k] == bufferLba {
        buffer := s;
      }
      if lbas[k] in faulty {
        return WriteFail, now';
      }
      PutKeepsMatch(buffer, bufferLba, lbas, now, k, s);
      now' := PutSector(now, k, s);
      modified := true;
      st := OK;
    }

    /** Phat_WriteFile's head step: read-modify-write of the sector the pointer is inside. */
    method HeadWrite(ghost was: seq<Byte>, ghost p0: nat, data: seq<Byte>, now: seq<Byte>, lbas: seq<nat>, faulty: set<nat>)
      returns (st: PhatState, now': seq<Byte>, w: nat)
      requires Coherent(lbas, now) && Distinct(lbas) && |data| > 0
      requires pointer == p0 && p0 % 512 != 0 && Patched(now, was, p0, data, 0, p0)
      modifies this`pointer, this`buffer, this`bufferLba, this`modified
      ensures pointer == p0 + w && Patched(now', was, p0, data, w, pointer)
      ensures modified == (old(modified) || w > 0)
      ensures st != WriteFail ==> Coherent(lbas, now')
      ensures st == OK || st == NotEnoughSpace || st == ReadFail || st == WriteFail
      ensures st != OK ==> w == 0
      ensures st == OK ==> w > 0 && (w == |data| || pointer % 512 == 0)
      ensures st == OK && pointer % 512 != 0 ==> pointer / 512 == p0 / 512
      ensures st == NotEnoughSpace ==> p0 / 512 >= |lbas|
      ensures st == ReadFail || st == WriteFail ==> p0 / 512 < |lbas| && lbas[p0 / 512] in faulty
    {
      now', w := now, 0;
      var k := pointer / 512;
      var off := pointer % 512;
      if k >= |lbas| {
        return NotEnoughSpace, now', w;
      }
      st := Fetch(k, lbas, now, faulty);
      if st != OK {
        return;
      }
      st, now', w := HeadStore(was, p0, data, now, lbas, faulty);
    }

    /** The head step once its sector is in the buffer: the data goes in after the pointer's offset and the sector is written. */
    method HeadStore(ghost was: seq<Byte>, ghost p0: nat, data: seq<Byte>, now: seq<Byte>, lbas: seq<nat>, faulty: set<nat>)
      returns (st: PhatState, now': seq<Byte>, w: nat)
      requires Coherent(lbas, now) && Distinct(lbas) && |data| > 0
      requires pointer == p0 && p0 % 512 != 0 && Patched(now, was, p0, data, 0, p0)
      requires p0 / 512 < |lbas| && bufferLba == lbas[p0 / 512] && buffer == SectorAt(now, p0 / 512)
      modifies this`pointer, this`buffer, this`bufferLba, this`modified
      ensures pointer == p0 + w && Patched(now', was, p0, data, w, pointer)
      ensures modified == (old(modified) || w > 0)
      ensures st != WriteFail ==> Coherent(lbas, now')
      ensures st == OK || st == WriteFail
      ensures st == WriteFail <==> lbas[p0 / 512] in faulty
      ensures st != OK ==> w == 0
      ensures st == OK ==> w > 0 && (w == |data| || pointer % 512 == 0)
      ensures st == OK && pointer % 512 != 0 ==> pointer / 512 == p0 / 512
    {
      var k := pointer / 512;
      var off := pointer % 512;
      var c := HeadLen(pointer, |data|);
      HeadStepFacts(p0, |data|);
      assert off == p0 + 0 - 512 * k;
      var s := Overlaid(buffer, off, data[0..c]);
      st, now' := Store(k, s, false, lbas, now, faulty);
      w := 0;
      if st == OK {
        pointer := pointer + c;
        w := c;
        SplicedPatch(now, was, p0, data, 0, c, k, s, p0 + c);
      }
    }

    /** Phat_WriteFile's loop over whole sectors: each is written straight from the data, and copied into the buffer if the buffer names it. */
    method SectorsWrite(ghost was: seq<Byte>, ghost p0: nat, data: seq<Byte>, w0: nat, now: seq<Byte>, lbas: seq<nat>, faulty: set<nat>)
      returns (st: PhatState, now': seq<Byte>, w: nat)
      requires Coherent(lbas, now) && Distinct(lbas)
      requires pointer == p0 + w0 && pointer % 512 == 0 && Patched(now, was, p0, data, w0, pointer)
      modifies this`pointer, this`buffer, this`bufferLba, this`modified
      ensures pointer == p0 + w && w0 <= w <= |data| && pointer % 512 == 0 && Patched(now', was, p0, data, w, pointer)
      ensures modified == (old(modified) || w > w0)
      ensures st != WriteFail ==> Coherent(lbas, now')
      ensures st == OK || st == NotEnoughSpace || st == WriteFail
      ensures st == OK ==> |data| - w < 512
      ensures st != OK ==> w + 512 <= |data|
      ensures st == NotEnoughSpace ==> pointer / 512 >= |lbas|
      ensures st == WriteFail ==> pointer / 512 < |lbas| && lbas[pointer / 512] in faulty
    {
      now', w := now, w0;
      while |data| - w >= 512
        invariant pointer == p0 + w && w0 <= w <= |data| && pointer % 512 == 0 && Patched(now', was, p0, data, w, pointer)
        invariant modified == (old(modified) || w > w0)
        invariant Coherent(lbas, now')
        decreases |data| - w
      {
        if pointer / 512 >= |lbas| {
          return NotEnoughSpace, now', w;
        }
        st, now' := WholeSector(was, p0, data, w, now', lbas, faulty);
        if st != OK {
          return;
        }
        pointer := pointer + 512;
        w := w + 512;
      }
      st := OK;
    }

    /** One pass of the whole-sector loop: the sector at the pointer is written straight from the data. */
    method WholeSector(ghost was: seq<Byte>, ghost p0: nat, data: seq<Byte>, w: nat, now: seq<Byte>, lbas: seq<nat>, faulty: set<nat>)
      returns (st: PhatState, now': seq<Byte>)
      requires Coherent(lbas, now) && Distinct(lbas) && w + 512 <= |data|
      requires pointer == p0 + w && pointer % 512 == 0 && pointer / 512 < |lbas| && Patched(now, was, p0, data, w, pointer)
      modifies this`buffer, this`bufferLba, this`modified
      ensures st == OK || st == WriteFail
      ensures st == WriteFail <==> lbas[pointer / 512] in faulty
      ensures st == OK ==> Coherent(lbas, now') && modified && Patched(now', was, p0, data, w + 512, pointer + 512)
      ensures st != OK ==> now' == now && modified == old(modified)
    {
      var k := pointer / 512;
      assert 512 * k == pointer;
      var s := data[w..w + 512];
      WriteSector(now, was, p0, data, w, 512, p0 + w + 512, k, s);
      st, now' := Store(k, s, false, lbas, now, faulty);
    }

    /**
     * Phat_WriteFile's tail step for the last bytes, from an aligned pointer.
     * As written it clears the buffer and writes the data followed by zeroes;
     * corrected, it reads the sector first and keeps what follows the data.
     */
    method TailWrite(ghost was: seq<Byte>, ghost p0: nat, data: seq<Byte>, w0: nat, now: seq<Byte>, lbas: seq<nat>, faulty: set<nat>, asWritten: bool)
      returns (st: PhatState, now': seq<Byte>, w: nat)
      requires Coherent(lbas, now) && Distinct(lbas) && 0 < |data| - w0 < 512
      requires pointer == p0 + w0 && pointer % 512 == 0 && Patched(now, was, p0, data, w0, pointer)
      modifies this`pointer, this`buffer, this`bufferLba, this`modified
      ensures pointer == p0 + w
      ensures modified == (old(modified) || w > w0)
      ensures st != WriteFail ==> Coherent(lbas, now')
      ensures st == OK || st == NotEnoughSpace || st == ReadFail || st == WriteFail
      ensures st != OK ==> w == w0 && Patched(now', was, p0, data, w, pointer)
      ensures st == OK ==> w == |data| && Patched(now', was, p0, data, w, WriteEnd(p0, p0 + |data|, asWritten))
      ensures st == NotEnoughSpace ==> pointer / 512 >= |lbas|
      ensures st == ReadFail || st == WriteFail ==> pointer / 512 < |lbas| && lbas[pointer / 512] in faulty
    {
      now', w := now, w0;
      TailFacts(p0, pointer, p0 + |data|, asWritten);
      var k := pointer / 512;
      if k >= |lbas| {
        return NotEnoughSpace, now', w;
      }
      assert 512 * k == pointer;
      if !asWritten {
        st := Fetch(k, lbas, now, faulty);
        if st != OK {
          return;
        }
      }
      st, now', w := TailStore(was, p0, data, w0, now, lbas, faulty, asWritten, k);
    }

    /**
     * The tail step once its sector k is at hand: the last bytes go over the
     * buffered sector (corrected) or over zeroes (as written), and the sector
     * is written.
     */
    method TailStore(ghost was: seq<Byte>, ghost p0: nat, data: seq<Byte>, w0: nat, now: seq<Byte>, lbas: seq<nat>, faulty: set<nat>, asWritten: bool, k: nat)
      returns (st: PhatState, now': seq<Byte>, w: nat)
      requires Coherent(lbas, now) && Distinct(lbas) && 0 < |data| - w0 < 512 && k < |lbas|
      requires pointer == p0 + w0 && pointer == 512 * k && Patched(now, was, p0, data, w0, pointer)
      requires WriteEnd(p0, p0 + |data|, asWritten) == if asWritten then pointer + 512 else p0 + |data|
      requires !asWritten ==> buffer == SectorAt(now, k)
      modifies this`pointer, this`buffer, this`bufferLba, this`modified
      ensures pointer == p0 + w
      ensures modified == (old(modified) || w > w0)
      ensures st != WriteFail ==> Coherent(lbas, now')
      ensures st == OK || st == WriteFail
      ensures st == WriteFail <==> lbas[k] in faulty
      ensures st != OK ==> w == w0 && Patched(now', was, p0, data, w, pointer)
      ensures st == OK ==> w == |data| && Patched(now', was, p0, data, w, WriteEnd(p0, p0 + |data|, asWritten))
    {
      w := w0;
      var piece := data[w0..];
      assert piece == data[w0..|data|];
      var s := Overlaid(if asWritten then ZeroSector() else buffer, 0, piece);
      st, now' := Store(k, s, true, lbas, now, faulty);
      if st != OK {
        return;
      }
      if asWritten {
        ZeroedPatch(now, was, p0, data, w0, |data|, k, s, WriteEnd(p0, p0 + |data|, asWritten));
      } else {
        SplicedPatch(now, was, p0, data, w0, |data|, k, s, WriteEnd(p0, p0 + |data|, asWritten));
      }
      pointer := pointer + |piece|;
      w := |data|;
    }

    /** Phat_WriteFile's whole-sector loop and tail step, from an aligned pointer. */
    method AlignedWrite(ghost was: seq<Byte>, ghost p0: nat, data: seq<Byte>, w0: nat, now: seq<Byte>, lbas: seq<nat>, faulty: set<nat>, asWritten: bool)
      returns (st: PhatState, now': seq<Byte>, w: nat)
      requires Coherent(lbas, now) && Distinct(lbas) && w0 < |data|
      requires pointer == p0 + w0 && pointer % 512 == 0 && Patched(now, was, p0, data, w0, pointer)
      modifies this`pointer, this`buffer, this`bufferLba, this`modified
      ensures pointer == p0 + w && w0 <= w <= |data|
      ensures modified == (old(modified) || w > w0)
      ensures st != WriteFail ==> Coherent(lbas, now')
      ensures st == OK || st == NotEnoughSpace || st == ReadFail || st == WriteFail
      ensures st == OK ==> w == |data| && Patched(now', was, p0, data, w, WriteEnd(p0, p0 + |data|, asWritten))
      ensures st != OK ==> w < |data| && Patched(now', was, p0, data, w, pointer)
      ensures st == NotEnoughSpace ==> pointer / 512 >= |lbas|
      ensures st == ReadFail || st == WriteFail ==> pointer / 512 < |lbas| && lbas[pointer / 512] in faulty
    {
      st, now', w := SectorsWrite(was, p0, data, w0, now, lbas, faulty);
      if st != OK {
        return;
      }
      if w == |data| {
        AlignedEnd(p0, p0 + |data|, asWritten);
        return;
      }
      st, now', w := TailWrite(was, p0, data, w, now', lbas, faulty, asWritten);
    }

    /** The head step, whole sectors and tail of Phat_WriteFile for data at the pointer. */
    method Transmit(data: seq<Byte>, lbas: seq<nat>, content: seq<Byte>, faulty: set<nat>, asWritten: bool) returns (st: PhatState, now: seq<Byte>)
      requires Coherent(lbas, content) && Distinct(lbas) && |data| > 0
      modifies this`pointer, this`modified, this`buffer, this`bufferLba
      ensures st == OK || st == NotEnoughSpace || st == ReadFail || st == WriteFail
      ensures old(pointer) <= pointer <= old(pointer) + |data|
      ensures modified == (old(modified) || pointer > old(pointer))
      ensures st != WriteFail ==> Coherent(lbas, now)
      ensures st == OK ==> old(pointer) + |data| <= |content|
      ensures st == OK ==> now == Written(content, old(pointer), data, asWritten) && pointer == old(pointer) + |data|
      ensures st != OK ==> Patched(now, content, old(pointer), data, pointer - old(pointer), pointer)
      ensures st == ReadFail || st == WriteFail ==> pointer < old(pointer) + |data| && pointer / 512 < |lbas| && lbas[pointer / 512] in faulty
      ensures st == NotEnoughSpace ==> pointer < old(pointer) + |data| && pointer / 512 >= |lbas|
    {
      ghost var p0 := pointer;
      now := content;
      var w := 0;
      if pointer % 512 != 0 {
        st, now, w := HeadWrite(content, p0, data, content, lbas, faulty);
        if st != OK {
          return;
        }
      }
      if w < |data| {
        st, now, w := AlignedWrite(content, p0, data, w, now, lbas, faulty, asWritten);
        if st != OK {
          return;
        }
      }
      PatchedIsWritten(now, content, p0, data, asWritten);
      st := OK;
    }

    /**
     * Phat_WriteFile: writes data at the pointer after the read-only checks,
     * giving an empty file its first cluster (allocSt and allocCluster are
     * what the allocator returns; a failure status is returned as it is, and
     * on OK the entry item gets the cluster), then a head step, whole sectors and
     * a tail, growing the size when the pointer passes it. On success the
     * file reads as Written; after a failure the bytes before the pointer
     * are written and the rest are as they were.
     */
    method Write(data: seq<Byte>, writeEnable: bool, allocSt: PhatState, allocCluster: DWord, item: Entry, lbas: seq<nat>, content: seq<Byte>, faulty: set<nat>, asWritten: bool)
      returns (st: PhatState, now: seq<Byte>, item': Entry)
      requires Coherent(lbas, content) && Distinct(lbas)
      modifies this`pointer, this`size, this`firstCluster, this`modified, this`buffer, this`bufferLba
      ensures st == OK || st == InvalidParameter || st == ReadOnly || st == NotEnoughSpace || st == ReadFail || st == WriteFail || st == allocSt
      ensures |data| == 0 ==> st == InvalidParameter
      ensures |data| > 0 && WriteLocked(writeEnable) ==> st == ReadOnly
      ensures st == InvalidParameter || st == ReadOnly ==> now == content && item' == item && firstCluster == old(firstCluster)
      ensures old(firstCluster) != 0 ==> firstCluster == old(firstCluster) && item' == item
      ensures (|data| > 0 && !WriteLocked(writeEnable) && old(firstCluster) == 0 && allocSt != OK) ==>
                st == allocSt && now == content && item' == item && pointer == old(pointer)
      ensures (|data| > 0 && !WriteLocked(writeEnable) && old(firstCluster) == 0 && allocSt == OK) ==>
                firstCluster == allocCluster as nat && item' == WithFirstCluster(item, allocCluster)
      ensures old(pointer) <= pointer <= old(pointer) + |data|
      ensures modified == (old(modified) || pointer > old(pointer))
      ensures st != WriteFail ==> Coherent(lbas, now)
      ensures st == OK ==> old(pointer) + |data| <= |content|
      ensures st == OK ==> now == Written(content, old(pointer), data, asWritten) && pointer == old(pointer) + |data|
      ensures st == OK ==> size == MaxNat(old(size), pointer)
      ensures st != OK ==> size == old(size) && Patched(now, content, old(pointer), data, pointer - old(pointer), pointer)
      ensures (st == ReadFail || st == WriteFail) && (old(firstCluster) != 0 || allocSt == OK) ==>
                pointer < old(pointer) + |data| && pointer / 512 < |lbas| && lbas[pointer / 512] in faulty
      ensures st == NotEnoughSpace && (old(firstCluster) != 0 || allocSt == OK) ==> pointer < old(pointer) + |data| && pointer / 512 >= |lbas|
    {
      now := content;
      st, item' := Admit(|data|, writeEnable, allocSt, allocCluster, item);
      if st != OK {
        return;
      }
      st, now := Transmit(data, lbas, content, faulty, asWritten);
      if st == OK && pointer > size {
        size := pointer;
      }
    }

    /**
     * Phat_WriteFile's checks before any byte moves: n bytes to write, a
     * handle and entry that allow writing, and a first cluster for an empty
     * file (the allocator's status allocSt and cluster allocCluster, which
     * the entry item then names).
     */
    method Admit(n: nat, writeEnable: bool, allocSt: PhatState, allocCluster: DWord, item: Entry) returns (st: PhatState, item': Entry)
      modifies this`firstCluster
      ensures st == OK || st == InvalidParameter || st == ReadOnly || st == allocSt
      ensures n == 0 ==> st == InvalidParameter
      ensures n > 0 && WriteLocked(writeEnable) ==> st == ReadOnly
      ensures n > 0 && !WriteLocked(writeEnable) && old(firstCluster) == 0 ==> st == allocSt
      ensures n > 0 && !WriteLocked(writeEnable) && old(firstCluster) != 0 ==> st == OK
      ensures st != OK ==> item' == item && firstCluster == old(firstCluster)
      ensures old(firstCluster) != 0 ==> firstCluster == old(firstCluster) && item' == item
      ensures st == OK && old(firstCluster) == 0 ==> firstCluster == allocCluster as nat && item' == WithFirstCluster(item, allocCluster)
    {
      item' := item;
      if n == 0 {
        return InvalidParameter, item';
      }
      if WriteLocked(writeEnable) {
        return ReadOnly, item';
      }
      if firstCluster == 0 {
        if allocSt != OK {
          return allocSt, item';
        }
        item' := Adopt(allocCluster, item);
      }
      st := OK;
    }

    /** An empty file takes the allocated cluster c as its first cluster, and its entry item names it. */
    method Adopt(c: DWord, item: Entry) returns (item': Entry)
      modifies this`firstCluster
      ensures firstCluster == c as nat && item' == WithFirstCluster(item, c)
    {
      var n: nat := c as nat;
      firstCluster := n;
      item' := WithFirstCluster(item, c);
    }

    /** Phat_SeekFile: moves the pointer anywhere, past the end included, and says whether it is there. */
    method Seek(position: nat) returns (st: PhatState)
      modifies this`pointer
      ensures pointer == position
      ensures st == OK || st == EndOfFile
      ensures st == EndOfFile <==> position >= size
    {
      pointer := position;
      st := if AtEnd() then EndOfFile else OK;
    }

    /**
     * Phat_CloseFile. With writes enabled the entry is read back first:
     * `got` is what Phat_GetDirItem answers and e the entry it reads. The
     * entry gets its access date and, after a write, its modification stamp
     * and the size (truncated to the 32-bit field); e' is what is handed to
     * Phat_PutDirItem, which answers `put`. A failure of either is returned
     * with the handle left open; otherwise the handle is cleared.
     */
    method Close(writeEnable: bool, got: PhatState, e: Entry, put: PhatState, date: Word, time: Word)
      returns (st: PhatState, e': Entry)
      modifies this
      ensures !writeEnable ==> st == OK && e' == e
      ensures writeEnable && got != OK ==> st == got && e' == e
      ensures writeEnable && got == OK ==>
                st == put && e' == Closed(e, date, time, old(modified), (old(size) % 0x1_0000_0000) as DWord)
      ensures st != OK ==> unchanged(this)
      ensures st == OK ==> pointer == 0 && size == 0 && firstCluster == 0 && attributes == 0
      ensures st == OK ==> !readonly && !modified && bufferLba == 0 && buffer == Zeros(512)
    {
      e' := e;
      if writeEnable {
        if got != OK {
          return got, e';
        }
        e' := Closed(e, date, time, modified, (size % 0x1_0000_0000) as DWord);
        if put != OK {
          return put, e';
        }
      }
      pointer, size, firstCluster, attributes := 0, 0, 0, 0;
      readonly, modified, bufferLba, buffer := false, false, 0, Zeros(512);
      st := OK;
    }
  }
}
