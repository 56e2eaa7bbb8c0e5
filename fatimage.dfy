/**
 * The File Allocation Tables as they lie on the disk: FAT copy k occupies
 * fatSize sectors from partitionStart + fat1Start + k * fatSize, and entry
 * c of a copy is read from and written to the sector (or, for a FAT12 entry
 * at the last byte of a sector, the two sectors) that hold its bytes.
 */
module FatImage {
  import opened Common
  import opened FatCodec
  import opened Boot

  /** First sector of FAT copy k on the disk. */
  function FatBase(g: Geometry, k: nat): nat
  {
    g.partitionStart + g.fat1Start + k * g.fatSize
  }

  /** The facts about a mounted geometry the FAT layer relies on. */
  predicate Sound(g: Geometry)
  {
    ValidBits(g.fatBits) && g.bytesPerSector == SECTOR_SIZE &&
    g.numFATs >= 1 && g.sectorsPerCluster >= 1 && g.numFatEntries >= 2 &&
    g.numFatEntries <= EntryCount(g.fatBits, SECTOR_SIZE * g.fatSize) &&
    (g.maxValid < g.numFatEntries || g.maxValid < 2) &&
    g.endOfChain == EndOfChainFor(g.fatBits)
  }

  /**
   * The facts about a mounted geometry the directory layer relies on:
   * sectors of 16 directory items, cluster numbers below the end-of-chain
   * marker, and a root directory and data area that lie past the FAT copies.
   */
  predicate Laid(g: Geometry)
  {
    g.maxValid < g.endOfChain &&
    g.itemsPerSector == 16 && g.itemsPerCluster == 16 * g.sectorsPerCluster &&
    FatBase(g, g.numFATs) <= g.partitionStart + g.rootDirStart &&
    FatBase(g, g.numFATs) <= g.partitionStart + g.dataStart
  }

  /** Every FAT copy lies on a disk of n sectors. */
  predicate OnDisk(g: Geometry, n: nat)
  {
    FatBase(g, g.numFATs) <= n
  }

  /** Sector l belongs to one of the FAT copies. */
  predicate InFat(g: Geometry, l: nat)
  {
    FatBase(g, 0) <= l < FatBase(g, g.numFATs)
  }

  /** FAT copies Phat_WriteFAT updates: all of them when they mirror each other, else the first. */
  function MirrorCount(g: Geometry): nat
  {
    if g.fatsAreSame then g.numFATs else 1
  }

  lemma CopyOnDisk(g: Geometry, n: nat, k: nat)
    requires OnDisk(g, n) && k < g.numFATs
    ensures FatBase(g, 0) <= FatBase(g, k) && FatBase(g, k) + g.fatSize <= FatBase(g, g.numFATs) <= n
  {
    assert (k + 1) * g.fatSize <= g.numFATs * g.fatSize by {
      MulLe(k + 1, g.numFATs, g.fatSize);
    }
  }

  lemma MulLe(a: nat, b: nat, m: nat)
    requires a <= b
    ensures a * m <= b * m
  {
  }

  /** Sectors of two different copies are different sectors. */
  lemma CopiesApart(g: Geometry, k: nat, k2: nat, l: nat)
    requires k < k2
    requires FatBase(g, k) <= l < FatBase(g, k) + g.fatSize
    ensures !(FatBase(g, k2) <= l < FatBase(g, k2) + g.fatSize)
  {
    MulLe(k + 1, k2, g.fatSize);
  }

  /** The sectors of FAT copy k. */
  function CopySectors(view: seq<Sector>, g: Geometry, k: nat): (ss: seq<Sector>)
    requires OnDisk(g, |view|) && k < g.numFATs
    ensures |ss| == g.fatSize
  {
    CopyOnDisk(g, |view|, k);
    view[FatBase(g, k)..FatBase(g, k) + g.fatSize]
  }

  /** The bytes of FAT copy k. */
  function Image(view: seq<Sector>, g: Geometry, k: nat): (img: seq<Byte>)
    requires OnDisk(g, |view|) && k < g.numFATs
    ensures |img| == SECTOR_SIZE * g.fatSize
  {
    Flatten(CopySectors(view, g, k))
  }

  /** A sound geometry's entries all lie inside one copy. */
  lemma SoundFits(g: Geometry)
    requires Sound(g)
    ensures AllFit(g.fatBits, g.numFatEntries, SECTOR_SIZE * g.fatSize)
  {
    if g.numFatEntries > 0 {
      EntriesBelowCountFit(g.fatBits, SECTOR_SIZE * g.fatSize, g.numFatEntries - 1);
    }
  }

  /** The table the engine works with: the entries of the first copy, as Phat_ReadFAT reads them. */
  function Fat(view: seq<Sector>, g: Geometry): (es: seq<DWord>)
    requires Sound(g) && OnDisk(g, |view|)
    ensures |es| == g.numFatEntries
  {
    Entries(Image(view, g, 0), g.fatBits, g.numFatEntries)
  }

  // ---------------------------------------------------------------------
  // From a byte image to its sectors.

  lemma DivMod512(off: nat)
    ensures off == 512 * (off / 512) + off % 512 && off % 512 < 512
  {
  }

  lemma DivUnique512(x: nat, j: nat, r: nat)
    requires x == 512 * j + r && r < 512
    ensures x / 512 == j && x % 512 == r
  {
  }

  /** Byte p of sector j is byte 512 * j + p of the stream. */
  lemma ByteAt(ss: seq<Sector>, j: nat, p: nat)
    requires j < |ss| && p < 512
    ensures 512 * j + p < |Flatten(ss)| && Flatten(ss)[512 * j + p] == ss[j][p]
  {
    DivUnique512(512 * j + p, j, p);
  }

  /** Bytes inside one sector of a byte stream are bytes of that sector. */
  lemma SliceInSector(ss: seq<Sector>, off: nat, span: nat)
    requires off % 512 + span <= 512 && off < 512 * |ss|
    ensures off / 512 < |ss| && off + span <= 512 * |ss|
    ensures Flatten(ss)[off..off + span] == ss[off / 512][off % 512..off % 512 + span]
  {
    var j, p := off / 512, off % 512;
    DivMod512(off);
    var w, u := Flatten(ss)[off..off + span], ss[j][p..p + span];
    forall i | 0 <= i < span
      ensures w[i] == u[i]
    {
      ByteAt(ss, j, p + i);
    }
    assert w == u;
  }

  /** Two bytes either side of a sector boundary. */
  lemma SliceAcrossSectors(ss: seq<Sector>, off: nat)
    requires off % 512 == 511 && off + 2 <= 512 * |ss|
    ensures off / 512 + 1 < |ss|
    ensures Flatten(ss)[off..off + 2] == [ss[off / 512][511], ss[off / 512 + 1][0]]
  {
    var j := off / 512;
    DivMod512(off);
    ByteAt(ss, j, 511);
    ByteAt(ss, j + 1, 0);
    var w := Flatten(ss)[off..off + 2];
    assert w[0] == ss[j][511] && w[1] == ss[j + 1][0];
    assert w == [w[0], w[1]];
  }

  /** The sector of stream position off with the bytes e written at that position. */
  function Spliced(s: Sector, p: nat, e: seq<Byte>): (r: Sector)
    requires p + |e| <= 512
    ensures r[p..p + |e|] == e
    ensures forall i :: 0 <= i < 512 && !(p <= i < p + |e|) ==> r[i] == s[i]
  {
    s[..p] + e + s[p + |e|..]
  }

  /** Two streams that agree with f outside [off, off + n) and with each other inside it are equal. */
  lemma SameOutside(a: seq<Byte>, b: seq<Byte>, f: seq<Byte>, off: nat, n: nat)
    requires |a| == |f| && |b| == |f| && off + n <= |f|
    requires a[off..off + n] == b[off..off + n]
    requires forall k :: 0 <= k < |f| && !(off <= k < off + n) ==> a[k] == f[k]
    requires forall k :: 0 <= k < |f| && !(off <= k < off + n) ==> b[k] == f[k]
    ensures a == b
  {
    forall k | 0 <= k < |f|
      ensures a[k] == b[k]
    {
      if off <= k < off + n {
        assert a[k] == a[off..off + n][k - off];
        assert b[k] == b[off..off + n][k - off];
      }
    }
  }

  /** Writing bytes that lie inside one sector changes the stream at those bytes only. */
  lemma SpliceInSector(ss: seq<Sector>, off: nat, e: seq<Byte>)
    requires off % 512 + |e| <= 512 && off < 512 * |ss|
    ensures off / 512 < |ss| && off + |e| <= 512 * |ss|
    ensures var r := Flatten(ss[off / 512 := Spliced(ss[off / 512], off % 512, e)]);
      r[off..off + |e|] == e &&
      forall k :: 0 <= k < |r| && !(off <= k < off + |e|) ==> r[k] == Flatten(ss)[k]
  {
    var j, p := off / 512, off % 512;
    DivMod512(off);
    var t := Spliced(ss[j], p, e);
    var ts := ss[j := t];
    var r, f := Flatten(ts), Flatten(ss);
    SliceInSector(ts, off, |e|);
    forall k | 0 <= k < |r| && !(off <= k < off + |e|)
      ensures r[k] == f[k]
    {
      DivMod512(k);
      ByteAt(ts, k / 512, k % 512);
      ByteAt(ss, k / 512, k % 512);
    }
  }

  /** Writing two bytes either side of a sector boundary changes the stream at those bytes only. */
  lemma SpliceAcrossSectors(ss: seq<Sector>, off: nat, x: Byte, y: Byte)
    requires off % 512 == 511 && off + 2 <= 512 * |ss|
    ensures off / 512 + 1 < |ss|
    ensures var j := off / 512;
      var r := Flatten(ss[j := Spliced(ss[j], 511, [x])][j + 1 := Spliced(ss[j + 1], 0, [y])]);
      r[off..off + 2] == [x, y] &&
      forall k :: 0 <= k < |r| && !(off <= k < off + 2) ==> r[k] == Flatten(ss)[k]
  {
    var j := off / 512;
    DivMod512(off);
    var ts := ss[j := Spliced(ss[j], 511, [x])][j + 1 := Spliced(ss[j + 1], 0, [y])];
    var r, f := Flatten(ts), Flatten(ss);
    SliceAcrossSectors(ts, off);
    forall k | 0 <= k < |r| && !(off <= k < off + 2)
      ensures r[k] == f[k]
    {
      DivMod512(k);
      ByteAt(ts, k / 512, k % 512);
      ByteAt(ss, k / 512, k % 512);
    }
  }

  /** Where an entry's bytes start: sector off / 512 of the copy, byte off % 512. */
  function EntrySector(bits: nat, c: nat): nat
    requires ValidBits(bits)
  {
    EntryOffset(bits, c) / 512
  }

  function EntryByte(bits: nat, c: nat): nat
    requires ValidBits(bits)
  {
    EntryOffset(bits, c) % 512
  }

  /** Only a FAT12 entry can cross a sector boundary, and then it starts at the sector's last byte. */
  lemma CrossingIsFat12(bits: nat, c: nat)
    requires ValidBits(bits)
    ensures EntryByte(bits, c) + EntrySpan(bits) > 512 ==> bits == 12 && EntryByte(bits, c) == 511
  {
    if bits == 16 {
      var q, r := c / 256, c % 256;
      assert 2 * c == 512 * q + 2 * r;
      DivUnique512(2 * c, q, 2 * r);
    } else if bits == 32 {
      var q, r := c / 128, c % 128;
      assert 4 * c == 512 * q + 4 * r;
      DivUnique512(4 * c, q, 4 * r);
    }
  }

  /** An entry inside one sector is read from that sector's bytes. */
  lemma WindowInSector(ss: seq<Sector>, bits: nat, c: nat)
    requires ValidBits(bits) && EntryFits(bits, c, 512 * |ss|)
    requires EntryByte(bits, c) + EntrySpan(bits) <= 512
    ensures EntrySector(bits, c) < |ss|
    ensures Window(Flatten(ss), bits, c) == ss[EntrySector(bits, c)][EntryByte(bits, c)..EntryByte(bits, c) + EntrySpan(bits)]
  {
    SliceInSector(ss, EntryOffset(bits, c), EntrySpan(bits));
  }

  /** A FAT12 entry at byte 511 takes its second byte from the next sector. */
  lemma WindowAcrossSectors(ss: seq<Sector>, c: nat)
    requires EntryFits(12, c, 512 * |ss|) && EntryByte(12, c) == 511
    ensures EntrySector(12, c) + 1 < |ss|
    ensures Window(Flatten(ss), 12, c) == [ss[EntrySector(12, c)][511], ss[EntrySector(12, c) + 1][0]]
  {
    SliceAcrossSectors(ss, EntryOffset(12, c));
  }

  /** The sector Phat_WriteFAT leaves behind when the entry lies inside it. */
  function PutInSector(s: Sector, bits: nat, c: nat, v: DWord): Sector
    requires ValidBits(bits) && EntryByte(bits, c) + EntrySpan(bits) <= 512
  {
    var p := EntryByte(bits, c);
    Spliced(s, p, Encode(bits, c % 2 == 1, s[p..p + EntrySpan(bits)], v))
  }

  /** The new bytes of a FAT12 entry that crosses from sector s0 into s1. */
  function Across(s0: Sector, s1: Sector, c: nat, v: DWord): (e: seq<Byte>)
    ensures |e| == 2
  {
    Encode(12, c % 2 == 1, [s0[511], s1[0]], v)
  }

  function PutInFirst(s0: Sector, s1: Sector, c: nat, v: DWord): Sector
  {
    Spliced(s0, 511, [Across(s0, s1, c, v)[0]])
  }

  function PutInSecond(s0: Sector, s1: Sector, c: nat, v: DWord): Sector
  {
    Spliced(s1, 0, [Across(s0, s1, c, v)[1]])
  }

  /** A stream that holds the encoded entry at its window and f elsewhere is f with the entry stored. */
  lemma PutFromWindow(r: seq<Byte>, f: seq<Byte>, bits: nat, c: nat, v: DWord, off: nat, span: nat, window: seq<Byte>)
    requires ValidBits(bits) && EntryFits(bits, c, |f|) && |r| == |f|
    requires off == EntryOffset(bits, c) && span == EntrySpan(bits)
    requires window == f[off..off + span] && r[off..off + span] == Encode(bits, c % 2 == 1, window, v)
    requires forall k :: 0 <= k < |r| && !(off <= k < off + span) ==> r[k] == f[k]
    ensures r == PutEntry(f, bits, c, v)
  {
    WindowOfPut(f, bits, c, v);
    SameOutside(r, PutEntry(f, bits, c, v), f, off, span);
  }

  lemma PutInSectorBytes(ss: seq<Sector>, bits: nat, c: nat, v: DWord, off: nat, span: nat, e: seq<Byte>)
    requires ValidBits(bits) && EntryFits(bits, c, 512 * |ss|)
    requires off == EntryOffset(bits, c) && span == EntrySpan(bits) && off % 512 + span <= 512
    requires off / 512 < |ss| && e == Encode(bits, c % 2 == 1, ss[off / 512][off % 512..off % 512 + span], v)
    ensures Flatten(ss[off / 512 := Spliced(ss[off / 512], off % 512, e)]) == PutEntry(Flatten(ss), bits, c, v)
  {
    var j, p := off / 512, off % 512;
    var f := Flatten(ss);
    assert f[off..off + span] == ss[j][p..p + span] by {
      SliceInSector(ss, off, span);
    }
    var r := Flatten(ss[j := Spliced(ss[j], p, e)]);
    assert r[off..off + span] == e && forall k :: 0 <= k < |r| && !(off <= k < off + span) ==> r[k] == f[k] by {
      SpliceInSector(ss, off, e);
    }
    PutFromWindow(r, f, bits, c, v, off, span, ss[j][p..p + span]);
  }

  /** Storing an entry that lies inside one sector is storing into that sector. */
  lemma PutWithinSector(ss: seq<Sector>, bits: nat, c: nat, v: DWord)
    requires ValidBits(bits) && EntryFits(bits, c, 512 * |ss|)
    requires EntryByte(bits, c) + EntrySpan(bits) <= 512
    ensures EntrySector(bits, c) < |ss|
    ensures Flatten(ss[EntrySector(bits, c) := PutInSector(ss[EntrySector(bits, c)], bits, c, v)]) == PutEntry(Flatten(ss), bits, c, v)
  {
    var off, span := EntryOffset(bits, c), EntrySpan(bits);
    SliceInSector(ss, off, span);
    var e := Encode(bits, c % 2 == 1, ss[off / 512][off % 512..off % 512 + span], v);
    PutInSectorBytes(ss, bits, c, v, off, span, e);
  }

  lemma PutAcrossBytes(ss: seq<Sector>, c: nat, v: DWord, off: nat, j: nat)
    requires EntryFits(12, c, 512 * |ss|) && off == EntryOffset(12, c) && off == 512 * j + 511 && j + 1 < |ss|
    ensures Flatten(ss[j := PutInFirst(ss[j], ss[j + 1], c, v)][j + 1 := PutInSecond(ss[j], ss[j + 1], c, v)]) == PutEntry(Flatten(ss), 12, c, v)
  {
    DivUnique512(off, j, 511);
    var f := Flatten(ss);
    var e := Across(ss[j], ss[j + 1], c, v);
    assert f[off..off + 2] == [ss[j][511], ss[j + 1][0]] by {
      SliceAcrossSectors(ss, off);
    }
    var r := Flatten(ss[j := Spliced(ss[j], 511, [e[0]])][j + 1 := Spliced(ss[j + 1], 0, [e[1]])]);
    assert r[off..off + 2] == e && forall k :: 0 <= k < |r| && !(off <= k < off + 2) ==> r[k] == f[k] by {
      SpliceAcrossSectors(ss, off, e[0], e[1]);
      assert [e[0], e[1]] == e;
    }
    PutFromWindow(r, f, 12, c, v, off, 2, [ss[j][511], ss[j + 1][0]]);
  }

  /** Storing a FAT12 entry that crosses a sector boundary is storing into both sectors. */
  lemma PutAcrossSectors(ss: seq<Sector>, c: nat, v: DWord)
    requires EntryFits(12, c, 512 * |ss|) && EntryByte(12, c) == 511
    ensures EntrySector(12, c) + 1 < |ss|
    ensures var j := EntrySector(12, c);
      Flatten(ss[j := PutInFirst(ss[j], ss[j + 1], c, v)][j + 1 := PutInSecond(ss[j], ss[j + 1], c, v)]) == PutEntry(Flatten(ss), 12, c, v)
  {
    var off := EntryOffset(12, c);
    DivMod512(off);
    SliceAcrossSectors(ss, off);
    PutAcrossBytes(ss, c, v, off, off / 512);
  }

  lemma SliceAfterUpdate(view: seq<Sector>, a: nat, b: nat, l: nat, t: Sector)
    requires a <= b <= |view| && l < |view|
    ensures !(a <= l < b) ==> view[l := t][a..b] == view[a..b]
    ensures a <= l < b ==> view[l := t][a..b] == view[a..b][l - a := t]
  {
  }

  /** Writing sector l of the disk changes only the copy it lies in. */
  lemma ImageAfterWrite(view: seq<Sector>, g: Geometry, l: nat, t: Sector, k: nat)
    requires OnDisk(g, |view|) && l < |view| && k < g.numFATs
    ensures OnDisk(g, |view[l := t]|)
    ensures !(FatBase(g, k) <= l < FatBase(g, k) + g.fatSize) ==> Image(view[l := t], g, k) == Image(view, g, k)
    ensures FatBase(g, k) <= l < FatBase(g, k) + g.fatSize ==>
      Image(view[l := t], g, k) == Flatten(CopySectors(view, g, k)[l - FatBase(g, k) := t])
  {
    CopyOnDisk(g, |view|, k);
    SliceAfterUpdate(view, FatBase(g, k), FatBase(g, k) + g.fatSize, l, t);
  }

  // ---------------------------------------------------------------------
  // The table as a sequence of entries, and its free entries.

  /** Entries below hi can all be read from an image of n bytes. */
  predicate AllFit(bits: nat, hi: nat, n: nat)
    requires ValidBits(bits)
  {
    hi == 0 || EntryFits(bits, hi - 1, n)
  }

  /** Entries 0 .. hi - 1 of an image, as Phat_ReadFAT reads them. */
  function Entries(img: seq<Byte>, bits: nat, hi: nat): (es: seq<DWord>)
    requires ValidBits(bits)
    ensures |es| == hi
  {
    if hi == 0 then [] else Entries(img, bits, hi - 1) + [GetEntry(img, bits, hi - 1)]
  }

  /** Element i of the entries is entry i of the image. */
  lemma {:induction false} EntriesAt(img: seq<Byte>, bits: nat, hi: nat, i: nat)
    requires ValidBits(bits) && AllFit(bits, hi, |img|) && i < hi
    ensures EntryFits(bits, i, |img|)
    ensures Entries(img, bits, hi)[i] == GetEntry(img, bits, i)
  {
    FitsBelow(bits, hi - 1, i, |img|);
    if i < hi - 1 {
      FitsBelow(bits, hi - 1, hi - 2, |img|);
      EntriesAt(img, bits, hi - 1, i);
    }
  }

  /** Storing into entry c of an image stores into element c of its entries and nowhere else. */
  lemma EntriesAfterPut(img: seq<Byte>, bits: nat, hi: nat, c: nat, v: DWord)
    requires ValidBits(bits) && AllFit(bits, hi, |img|) && c < hi
    ensures EntryFits(bits, c, |img|)
    ensures Entries(PutEntry(img, bits, c, v), bits, hi) == Entries(img, bits, hi)[c := Stored(bits, v)]
  {
    FitsBelow(bits, hi - 1, c, |img|);
    var r := PutEntry(img, bits, c, v);
    var a, b := Entries(r, bits, hi), Entries(img, bits, hi)[c := Stored(bits, v)];
    forall d | 0 <= d < hi
      ensures a[d] == b[d]
    {
      EntriesAt(r, bits, hi, d);
      EntriesAt(img, bits, hi, d);
      if d == c {
        GetPutSame(img, bits, c, v);
      } else {
        GetPutOther(img, bits, c, d, v);
      }
    }
    assert a == b;
  }

  /** Number of zero (free) entries. */
  function CountFree(es: seq<DWord>): (n: nat)
    ensures n <= |es|
  {
    if es == [] then 0 else CountFree(es[..|es| - 1]) + (if es[|es| - 1] == 0 then 1 else 0)
  }

  /** No free entry at all exactly when the count is zero. */
  lemma {:induction false} CountFreeZero(es: seq<DWord>)
    ensures CountFree(es) == 0 <==> forall i :: 0 <= i < |es| ==> es[i] != 0
  {
    if es != [] {
      CountFreeZero(es[..|es| - 1]);
      assert forall i :: 0 <= i < |es| - 1 ==> es[..|es| - 1][i] == es[i];
    }
  }

  /** Replacing element c changes the count by what c itself changes. */
  lemma {:induction false} CountFreeUpdate(es: seq<DWord>, c: nat, x: DWord)
    requires c < |es|
    ensures CountFree(es[c := x]) + (if es[c] == 0 then 1 else 0) == CountFree(es) + (if x == 0 then 1 else 0)
  {
    var n := |es| - 1;
    if c < n {
      assert es[c := x][..n] == es[..n][c := x];
      CountFreeUpdate(es[..n], c, x);
    } else {
      assert es[c := x][..n] == es[..n];
    }
  }

  // ---------------------------------------------------------------------
  // Entries of the disk: the sectors Phat_ReadFAT and Phat_WriteFAT touch.

  /** The disk sector of copy k that holds the first byte of entry c. */
  function EntryLba(g: Geometry, k: nat, c: nat): nat
    requires ValidBits(g.fatBits)
  {
    FatBase(g, k) + EntrySector(g.fatBits, c)
  }

  /** Entry c's sector, and for a crossing FAT12 entry the next one, lie inside copy k. */
  lemma EntryLbaInCopy(g: Geometry, n: nat, k: nat, c: nat)
    requires Sound(g) && OnDisk(g, n) && k < g.numFATs && c < g.numFatEntries
    ensures EntryFits(g.fatBits, c, SECTOR_SIZE * g.fatSize)
    ensures EntrySector(g.fatBits, c) < g.fatSize
    ensures FatBase(g, k) + g.fatSize <= FatBase(g, g.numFATs) <= n
    ensures EntryByte(g.fatBits, c) + EntrySpan(g.fatBits) > 512 ==>
      g.fatBits == 12 && EntryByte(12, c) == 511 && EntrySector(12, c) + 1 < g.fatSize
  {
    SoundFits(g);
    FitsBelow(g.fatBits, g.numFatEntries - 1, c, SECTOR_SIZE * g.fatSize);
    DivMod512(EntryOffset(g.fatBits, c));
    CrossingIsFat12(g.fatBits, c);
    CopyOnDisk(g, n, k);
  }

  /** Entry c of the table is entry c of the first copy's image. */
  lemma FatAt(view: seq<Sector>, g: Geometry, c: nat)
    requires Sound(g) && OnDisk(g, |view|) && c < g.numFatEntries
    ensures EntryFits(g.fatBits, c, SECTOR_SIZE * g.fatSize)
    ensures Fat(view, g)[c] == GetEntry(Image(view, g, 0), g.fatBits, c)
  {
    SoundFits(g);
    EntriesAt(Image(view, g, 0), g.fatBits, g.numFatEntries, c);
  }

  /** Entry c read from the one sector that holds it. */
  lemma ReadInSector(view: seq<Sector>, g: Geometry, c: nat)
    requires Sound(g) && OnDisk(g, |view|) && c < g.numFatEntries
    requires EntryByte(g.fatBits, c) + EntrySpan(g.fatBits) <= 512
    ensures EntryLba(g, 0, c) < |view|
    ensures var p := EntryByte(g.fatBits, c);
      Fat(view, g)[c] == Decode(g.fatBits, c % 2 == 1, view[EntryLba(g, 0, c)][p..p + EntrySpan(g.fatBits)])
  {
    EntryLbaInCopy(g, |view|, 0, c);
    var ss := CopySectors(view, g, 0);
    FatAt(view, g, c);
    WindowInSector(ss, g.fatBits, c);
    var base, j := FatBase(g, 0), EntrySector(g.fatBits, c);
    assert ss == view[base..base + g.fatSize];
    assert ss[j] == view[base + j];
  }

  /** A FAT12 entry read from the last byte of one sector and the first of the next. */
  lemma ReadAcrossSectors(view: seq<Sector>, g: Geometry, c: nat)
    requires Sound(g) && OnDisk(g, |view|) && c < g.numFatEntries
    requires EntryByte(g.fatBits, c) + EntrySpan(g.fatBits) > 512
    ensures g.fatBits == 12 && EntryLba(g, 0, c) + 1 < |view|
    ensures var l := EntryLba(g, 0, c);
      Fat(view, g)[c] == Decode(12, c % 2 == 1, [view[l][511], view[l + 1][0]])
  {
    EntryLbaInCopy(g, |view|, 0, c);
    var ss := CopySectors(view, g, 0);
    FatAt(view, g, c);
    WindowAcrossSectors(ss, c);
    var j := EntrySector(12, c);
    assert ss[j] == view[EntryLba(g, 0, c)] && ss[j + 1] == view[EntryLba(g, 0, c) + 1];
  }

  /** The disk after Phat_WriteFAT stores v into entry c of copy k. */
  function PutCopy(view: seq<Sector>, g: Geometry, k: nat, c: nat, v: DWord): (r: seq<Sector>)
    requires Sound(g) && OnDisk(g, |view|) && k < g.numFATs && c < g.numFatEntries
    ensures |r| == |view|
  {
    EntryLbaInCopy(g, |view|, k, c);
    var l := EntryLba(g, k, c);
    if EntryByte(g.fatBits, c) + EntrySpan(g.fatBits) <= 512 then
      view[l := PutInSector(view[l], g.fatBits, c, v)]
    else
      view[l := PutInFirst(view[l], view[l + 1], c, v)][l + 1 := PutInSecond(view[l], view[l + 1], c, v)]
  }

  /** Sector l lies in copy k. */
  predicate InCopy(g: Geometry, k: nat, l: nat)
  {
    FatBase(g, k) <= l < FatBase(g, k) + g.fatSize
  }

  /** Storing into copy k changes no sector outside it. */
  lemma PutCopyElsewhere(view: seq<Sector>, g: Geometry, k: nat, c: nat, v: DWord)
    requires Sound(g) && OnDisk(g, |view|) && k < g.numFATs && c < g.numFatEntries
    ensures forall l :: 0 <= l < |view| && !InCopy(g, k, l) ==> PutCopy(view, g, k, c, v)[l] == view[l]
  {
    EntryLbaInCopy(g, |view|, k, c);
  }

  /** Storing into copy k stores into copy k's image. */
  lemma PutCopyImage(view: seq<Sector>, g: Geometry, k: nat, c: nat, v: DWord)
    requires Sound(g) && OnDisk(g, |view|) && k < g.numFATs && c < g.numFatEntries
    ensures EntryFits(g.fatBits, c, SECTOR_SIZE * g.fatSize)
    ensures Image(PutCopy(view, g, k, c, v), g, k) == PutEntry(Image(view, g, k), g.fatBits, c, v)
  {
    EntryLbaInCopy(g, |view|, k, c);
    if EntryByte(g.fatBits, c) + EntrySpan(g.fatBits) <= 512 {
      PutCopyImageWithin(view, g, k, c, v);
    } else {
      PutCopyImageAcross(view, g, k, c, v);
    }
  }

  /** Writing sector l of copy k writes sector l - FatBase(g, k) of the copy. */
  lemma CopyAfterWrite(view: seq<Sector>, g: Geometry, k: nat, l: nat, t: Sector)
    requires OnDisk(g, |view|) && k < g.numFATs && InCopy(g, k, l)
    ensures l < |view| && OnDisk(g, |view[l := t]|)
    ensures CopySectors(view[l := t], g, k) == CopySectors(view, g, k)[l - FatBase(g, k) := t]
  {
    CopyOnDisk(g, |view|, k);
    SliceAfterUpdate(view, FatBase(g, k), FatBase(g, k) + g.fatSize, l, t);
  }

  lemma PutCopyImageWithin(view: seq<Sector>, g: Geometry, k: nat, c: nat, v: DWord)
    requires Sound(g) && OnDisk(g, |view|) && k < g.numFATs && c < g.numFatEntries
    requires EntryByte(g.fatBits, c) + EntrySpan(g.fatBits) <= 512
    ensures EntryFits(g.fatBits, c, SECTOR_SIZE * g.fatSize)
    ensures Image(PutCopy(view, g, k, c, v), g, k) == PutEntry(Image(view, g, k), g.fatBits, c, v)
  {
    EntryLbaInCopy(g, |view|, k, c);
    var ss := CopySectors(view, g, k);
    var j := EntrySector(g.fatBits, c);
    var l := EntryLba(g, k, c);
    CopyAfterWrite(view, g, k, l, PutInSector(view[l], g.fatBits, c, v));
    assert view[l] == ss[j];
    PutWithinSector(ss, g.fatBits, c, v);
  }

  lemma PutCopyImageAcross(view: seq<Sector>, g: Geometry, k: nat, c: nat, v: DWord)
    requires Sound(g) && OnDisk(g, |view|) && k < g.numFATs && c < g.numFatEntries
    requires EntryByte(g.fatBits, c) + EntrySpan(g.fatBits) > 512
    ensures EntryFits(g.fatBits, c, SECTOR_SIZE * g.fatSize)
    ensures Image(PutCopy(view, g, k, c, v), g, k) == PutEntry(Image(view, g, k), g.fatBits, c, v)
  {
    EntryLbaInCopy(g, |view|, k, c);
    var ss := CopySectors(view, g, k);
    var j := EntrySector(g.fatBits, c);
    var l := EntryLba(g, k, c);
    var t0 := PutInFirst(view[l], view[l + 1], c, v);
    var t1 := PutInSecond(view[l], view[l + 1], c, v);
    var after := view[l := t0][l + 1 := t1];
    assert PutCopy(view, g, k, c, v) == after;
    CopyAfterWrite(view, g, k, l, t0);
    CopyAfterWrite(view[l := t0], g, k, l + 1, t1);
    assert view[l] == ss[j] && view[l + 1] == ss[j + 1];
    assert CopySectors(after, g, k) == ss[j := t0][j + 1 := t1];
    PutAcrossSectors(ss, c, v);
  }

  /** Two copies never share a sector. */
  lemma CopiesDisjoint(g: Geometry, k: nat, k2: nat, l: nat)
    requires k != k2 && InCopy(g, k2, l)
    ensures !InCopy(g, k, l)
  {
    if k < k2 {
      if InCopy(g, k, l) {
        CopiesApart(g, k, k2, l);
      }
    } else {
      CopiesApart(g, k2, k, l);
    }
  }

  /** Two disks that agree on the sectors of copy k have the same image of it. */
  lemma SameCopy(a: seq<Sector>, b: seq<Sector>, g: Geometry, k: nat)
    requires |a| == |b| && OnDisk(g, |a|) && k < g.numFATs
    requires forall l :: 0 <= l < |a| && InCopy(g, k, l) ==> a[l] == b[l]
    ensures Image(a, g, k) == Image(b, g, k)
  {
    CopyOnDisk(g, |a|, k);
    var sa := CopySectors(a, g, k);
    var sb := CopySectors(b, g, k);
    forall i | 0 <= i < g.fatSize
      ensures sa[i] == sb[i]
    {
      assert InCopy(g, k, FatBase(g, k) + i);
    }
    assert sa == sb;
  }

  /** Storing into copy k leaves every other copy's image as it was. */
  lemma PutCopyOtherImage(view: seq<Sector>, g: Geometry, k: nat, c: nat, v: DWord, k2: nat)
    requires Sound(g) && OnDisk(g, |view|) && k < g.numFATs && c < g.numFatEntries && k2 < g.numFATs && k2 != k
    ensures Image(PutCopy(view, g, k, c, v), g, k2) == Image(view, g, k2)
  {
    var r := PutCopy(view, g, k, c, v);
    PutCopyElsewhere(view, g, k, c, v);
    forall l | 0 <= l < |r| && InCopy(g, k2, l)
      ensures r[l] == view[l]
    {
      CopiesDisjoint(g, k, k2, l);
    }
    SameCopy(r, view, g, k2);
  }

  /** An entry of a sound geometry fits in a copy. */
  lemma EntryFitsInCopy(g: Geometry, c: nat)
    requires Sound(g) && c < g.numFatEntries
    ensures EntryFits(g.fatBits, c, SECTOR_SIZE * g.fatSize)
  {
    SoundFits(g);
    FitsBelow(g.fatBits, g.numFatEntries - 1, c, SECTOR_SIZE * g.fatSize);
  }

  /** Storing into one copy changes no sector outside the FAT. */
  lemma PutCopyOutsideFat(view: seq<Sector>, g: Geometry, k: nat, c: nat, v: DWord)
    requires Sound(g) && OnDisk(g, |view|) && k < g.numFATs && c < g.numFatEntries
    ensures forall l :: 0 <= l < |view| && !InFat(g, l) ==> PutCopy(view, g, k, c, v)[l] == view[l]
  {
    PutCopyElsewhere(view, g, k, c, v);
    CopyOnDisk(g, |view|, k);
  }

  /** `b` agrees with `a` on every sector outside the FAT copies. */
  predicate SameOutsideFat(a: seq<Sector>, b: seq<Sector>, g: Geometry)
  {
    |b| == |a| && forall l :: 0 <= l < |a| && !InFat(g, l) ==> b[l] == a[l]
  }

  /**
   * The disk `now` is `before` after Phat_WriteFAT stored v into entry c of
   * copies 0 .. m - 1: those copies hold the new entry, the other copies and
   * every sector outside the FAT are as they were.
   */
  predicate WroteCopies(before: seq<Sector>, now: seq<Sector>, g: Geometry, c: nat, v: DWord, m: nat)
    requires Sound(g) && OnDisk(g, |before|) && c < g.numFatEntries && m <= g.numFATs
  {
    EntryFitsInCopy(g, c);
    && SameOutsideFat(before, now, g)
    && (forall k :: 0 <= k < g.numFATs ==>
          Image(now, g, k) == if k < m then PutEntry(Image(before, g, k), g.fatBits, c, v) else Image(before, g, k))
  }

  /** Before the first copy is written, nothing has changed. */
  lemma WroteNoCopies(view: seq<Sector>, g: Geometry, c: nat, v: DWord)
    requires Sound(g) && OnDisk(g, |view|) && c < g.numFatEntries
    ensures WroteCopies(view, view, g, c, v, 0)
  {
  }

  /** Writing copy m after copies 0 .. m - 1 gives copies 0 .. m. */
  lemma WroteNextCopy(before: seq<Sector>, now: seq<Sector>, g: Geometry, c: nat, v: DWord, m: nat)
    requires Sound(g) && OnDisk(g, |before|) && c < g.numFatEntries && m < g.numFATs
    requires WroteCopies(before, now, g, c, v, m)
    ensures WroteCopies(before, PutCopy(now, g, m, c, v), g, c, v, m + 1)
  {
    var r := PutCopy(now, g, m, c, v);
    PutCopyOutsideFat(now, g, m, c, v);
    PutCopyImage(now, g, m, c, v);
    forall k | 0 <= k < g.numFATs && k != m
      ensures Image(r, g, k) == Image(now, g, k)
    {
      PutCopyOtherImage(now, g, m, c, v, k);
    }
  }

  /** The table after a completed Phat_WriteFAT: entry c reads back as the stored value, no other entry changes. */
  lemma FatAfterWrite(before: seq<Sector>, now: seq<Sector>, g: Geometry, c: nat, v: DWord, m: nat)
    requires Sound(g) && OnDisk(g, |before|) && c < g.numFatEntries && 1 <= m <= g.numFATs
    requires WroteCopies(before, now, g, c, v, m)
    ensures Fat(now, g) == Fat(before, g)[c := Stored(g.fatBits, v)]
  {
    SoundFits(g);
    EntriesAfterPut(Image(before, g, 0), g.fatBits, g.numFatEntries, c, v);
  }

  /** The copies Phat_WriteFAT keeps in step hold the same bytes. */
  predicate Mirrored(view: seq<Sector>, g: Geometry)
    requires OnDisk(g, |view|) && MirrorCount(g) <= g.numFATs
  {
    forall k :: 0 <= k < MirrorCount(g) ==> Image(view, g, k) == Image(view, g, 0)
  }

  /** Writing an entry into every mirrored copy keeps them mirrored. */
  lemma WriteKeepsMirror(before: seq<Sector>, now: seq<Sector>, g: Geometry, c: nat, v: DWord)
    requires Sound(g) && OnDisk(g, |before|) && c < g.numFatEntries
    requires WroteCopies(before, now, g, c, v, MirrorCount(g)) && Mirrored(before, g)
    ensures Mirrored(now, g)
  {
  }
}
