/**
 * FAT entries inside the byte image of one FAT copy: where entry c lives for
 * each width, what Phat_ReadFAT decodes there and what Phat_WriteFAT stores
 * (Microsoft FAT specification, section 4), and the dirty flag the engine
 * keeps in entry 0.
 */
module FatCodec {
  import opened Common

  /** The three FAT widths. */
  predicate ValidBits(bits: nat)
  {
    bits == 12 || bits == 16 || bits == 32
  }

  /** Byte offset of entry c: one and a half, two or four bytes per entry. */
  function EntryOffset(bits: nat, c: nat): nat
    requires ValidBits(bits)
  {
    if bits == 12 then c + c / 2 else if bits == 16 then 2 * c else 4 * c
  }

  /** Bytes read at that offset: a 16-bit word for FAT12/16, a double word for FAT32. */
  function EntrySpan(bits: nat): nat
    requires ValidBits(bits)
  {
    if bits == 32 then 4 else 2
  }

  /** Entry c can be read from an image of n bytes. */
  predicate EntryFits(bits: nat, c: nat, n: nat)
    requires ValidBits(bits)
  {
    EntryOffset(bits, c) + EntrySpan(bits) <= n
  }

  /** The bytes Phat_ReadFAT and Phat_WriteFAT access for entry c. */
  function Window(img: seq<Byte>, bits: nat, c: nat): (w: seq<Byte>)
    requires ValidBits(bits) && EntryFits(bits, c, |img|)
    ensures |w| == EntrySpan(bits)
  {
    img[EntryOffset(bits, c)..EntryOffset(bits, c) + EntrySpan(bits)]
  }

  /**
   * An entry from its bytes: the low twelve bits of the word for an even
   * FAT12 entry, its high twelve bits for an odd one, the word for FAT16
   * and the whole double word (reserved bits included) for FAT32.
   */
  function Decode(bits: nat, odd: bool, w: seq<Byte>): (v: DWord)
    requires ValidBits(bits) && |w| == EntrySpan(bits)
    ensures bits == 12 ==> v <= 0xFFF
    ensures bits == 16 ==> v <= 0xFFFF
  {
    if bits == 12 then
      if !odd then (LE16(w, 0) & 0x0FFF) as DWord
      else ((LE16(w, 0) >> 4) & 0x0FFF) as DWord
    else if bits == 16 then LE16(w, 0) as DWord
    else LE32(w, 0)
  }

  /** The value Phat_ReadFAT gives for entry c. */
  function GetEntry(img: seq<Byte>, bits: nat, c: nat): (v: DWord)
    requires ValidBits(bits)
    ensures bits == 12 ==> v <= 0xFFF
    ensures bits == 16 ==> v <= 0xFFFF
  {
    if EntryFits(bits, c, |img|) then Decode(bits, c % 2 == 1, Window(img, bits, c)) else 0
  }

  /**
   * What an entry reads back as after Phat_WriteFAT stores v: the
   * end-of-chain value 0x0FFFFFFF becomes all ones of the width, and FAT12
   * and FAT16 keep only their low bits.
   */
  function Stored(bits: nat, v: DWord): (r: DWord)
    requires ValidBits(bits)
    ensures bits == 12 ==> r <= 0xFFF
    ensures bits == 16 ==> r <= 0xFFFF
    ensures bits == 32 ==> r == v
    ensures v == 0x0FFFFFFF ==> r == (if bits == 12 then 0xFFF else if bits == 16 then 0xFFFF else v)
    ensures v == 0 ==> r == 0
  {
    if bits == 12 then (if v == 0x0FFFFFFF then 0x0FFF else v) & 0x0FFF
    else if bits == 16 then (if v == 0x0FFFFFFF then 0xFFFF else v) & 0xFFFF
    else v
  }

  /** The 16-bit word Phat_WriteFAT stores for a FAT12 entry, keeping the neighbour's nibble. */
  function Merge12(raw: Word, odd: bool, v: DWord): Word
  {
    var w := ((if v == 0x0FFFFFFF then 0x0FFF else v) & 0x0FFF) as Word;
    if !odd then (raw & 0xF000) | w else (raw & 0x000F) | (w << 4)
  }

  /** The new bytes of an entry's window after Phat_WriteFAT stores v. */
  function Encode(bits: nat, odd: bool, w: seq<Byte>, v: DWord): (r: seq<Byte>)
    requires ValidBits(bits) && |w| == EntrySpan(bits)
    ensures |r| == |w|
  {
    if bits == 12 then PutLE16(w, 0, Merge12(LE16(w, 0), odd, v))
    else if bits == 16 then PutLE16(w, 0, ((if v == 0x0FFFFFFF then 0xFFFF else v) & 0xFFFF) as Word)
    else PutLE32(w, 0, v)
  }

  /** Phat_WriteFAT's update of entry c inside one FAT copy. */
  function PutEntry(img: seq<Byte>, bits: nat, c: nat, v: DWord): (r: seq<Byte>)
    requires ValidBits(bits) && EntryFits(bits, c, |img|)
    ensures |r| == |img|
    ensures forall i :: 0 <= i < |img| && !(EntryOffset(bits, c) <= i < EntryOffset(bits, c) + EntrySpan(bits)) ==> r[i] == img[i]
  {
    var off := EntryOffset(bits, c);
    img[..off] + Encode(bits, c % 2 == 1, Window(img, bits, c), v) + img[off + EntrySpan(bits)..]
  }

  /** The window of the entry just written holds the encoded bytes. */
  lemma WindowOfPut(img: seq<Byte>, bits: nat, c: nat, v: DWord)
    requires ValidBits(bits) && EntryFits(bits, c, |img|)
    ensures Window(PutEntry(img, bits, c, v), bits, c) == Encode(bits, c % 2 == 1, Window(img, bits, c), v)
  {
    var off := EntryOffset(bits, c);
    var e := Encode(bits, c % 2 == 1, Window(img, bits, c), v);
    var r := PutEntry(img, bits, c, v);
    assert r[off..off + EntrySpan(bits)] == e;
  }

  lemma DecodeEncode12(odd: bool, w: seq<Byte>, v: DWord)
    requires |w| == 2
    ensures Decode(12, odd, Encode(12, odd, w, v)) == Stored(12, v)
  {
  }

  lemma DecodeEncode16(odd: bool, w: seq<Byte>, v: DWord)
    requires |w| == 2
    ensures Decode(16, odd, Encode(16, odd, w, v)) == Stored(16, v)
  {
  }

  /** Decoding what was encoded gives the stored form of the value. */
  lemma DecodeEncode(bits: nat, odd: bool, w: seq<Byte>, v: DWord)
    requires ValidBits(bits) && |w| == EntrySpan(bits)
    ensures Decode(bits, odd, Encode(bits, odd, w, v)) == Stored(bits, v)
  {
    if bits == 12 {
      DecodeEncode12(odd, w, v);
    } else if bits == 16 {
      DecodeEncode16(odd, w, v);
    } else {
      assert LE32(Encode(bits, odd, w, v), 0) == v;
    }
  }

  /** The entry just written reads back as the stored form of the value. */
  lemma GetPutSame(img: seq<Byte>, bits: nat, c: nat, v: DWord)
    requires ValidBits(bits) && EntryFits(bits, c, |img|)
    ensures GetEntry(PutEntry(img, bits, c, v), bits, c) == Stored(bits, v)
  {
    WindowOfPut(img, bits, c, v);
    DecodeEncode(bits, c % 2 == 1, Window(img, bits, c), v);
  }

  /** An even FAT12 entry and the odd one after it share a byte; the odd one keeps its bits. */
  lemma SharedByteEven(b0: Byte, b1: Byte, b2: Byte, v: DWord)
    ensures Decode(12, true, [Encode(12, false, [b0, b1], v)[1], b2]) == Decode(12, true, [b1, b2])
  {
  }

  lemma SharedByteOdd(b0: Byte, b1: Byte, b2: Byte, v: DWord)
    ensures Decode(12, false, [b0, Encode(12, true, [b1, b2], v)[0]]) == Decode(12, false, [b0, b1])
  {
  }

  /** Byte ranges of two different entries overlap only for FAT12 neighbours. */
  lemma Disjoint(bits: nat, c: nat, d: nat)
    requires ValidBits(bits) && c != d
    requires bits != 12 || (c + 1 != d && d + 1 != c)
    ensures EntryOffset(bits, c) + EntrySpan(bits) <= EntryOffset(bits, d)
         || EntryOffset(bits, d) + EntrySpan(bits) <= EntryOffset(bits, c)
  {
  }

  lemma GetPutNeighbourAfter(img: seq<Byte>, c: nat, v: DWord)
    requires EntryFits(12, c, |img|) && EntryFits(12, c + 1, |img|) && c % 2 == 0
    ensures GetEntry(PutEntry(img, 12, c, v), 12, c + 1) == GetEntry(img, 12, c + 1)
  {
    var r := PutEntry(img, 12, c, v);
    var oc := EntryOffset(12, c);
    assert EntryOffset(12, c + 1) == oc + 1;
    WindowOfPut(img, 12, c, v);
    var e := Encode(12, false, [img[oc], img[oc + 1]], v);
    assert Window(img, 12, c) == [img[oc], img[oc + 1]];
    assert r[oc + 1] == e[1];
    assert Window(r, 12, c + 1) == [e[1], img[oc + 2]];
    assert Window(img, 12, c + 1) == [img[oc + 1], img[oc + 2]];
    SharedByteEven(img[oc], img[oc + 1], img[oc + 2], v);
  }

  lemma GetPutNeighbourBefore(img: seq<Byte>, d: nat, v: DWord)
    requires EntryFits(12, d, |img|) && EntryFits(12, d + 1, |img|) && d % 2 == 0
    ensures GetEntry(PutEntry(img, 12, d + 1, v), 12, d) == GetEntry(img, 12, d)
  {
    var r := PutEntry(img, 12, d + 1, v);
    var od := EntryOffset(12, d);
    assert EntryOffset(12, d + 1) == od + 1;
    WindowOfPut(img, 12, d + 1, v);
    var e := Encode(12, true, [img[od + 1], img[od + 2]], v);
    assert Window(img, 12, d + 1) == [img[od + 1], img[od + 2]];
    assert r[od + 1] == e[0];
    assert Window(r, 12, d) == [img[od], e[0]];
    assert Window(img, 12, d) == [img[od], img[od + 1]];
    SharedByteOdd(img[od], img[od + 1], img[od + 2], v);
  }

  lemma GetPutApart(img: seq<Byte>, bits: nat, c: nat, d: nat, v: DWord)
    requires ValidBits(bits) && EntryFits(bits, c, |img|) && EntryFits(bits, d, |img|)
    requires EntryOffset(bits, c) + EntrySpan(bits) <= EntryOffset(bits, d)
          || EntryOffset(bits, d) + EntrySpan(bits) <= EntryOffset(bits, c)
    ensures GetEntry(PutEntry(img, bits, c, v), bits, d) == GetEntry(img, bits, d)
  {
    var r := PutEntry(img, bits, c, v);
    assert Window(r, bits, d) == Window(img, bits, d);
  }

  /**
   * Writing entry c leaves every other entry as it was, the FAT12 entry
   * sharing a byte with it included.
   */
  lemma GetPutOther(img: seq<Byte>, bits: nat, c: nat, d: nat, v: DWord)
    requires ValidBits(bits) && EntryFits(bits, c, |img|) && EntryFits(bits, d, |img|) && c != d
    ensures GetEntry(PutEntry(img, bits, c, v), bits, d) == GetEntry(img, bits, d)
  {
    if bits == 12 && c + 1 == d && c % 2 == 0 {
      GetPutNeighbourAfter(img, c, v);
    } else if bits == 12 && d + 1 == c && d % 2 == 0 {
      GetPutNeighbourBefore(img, d, v);
    } else if bits == 12 && (c + 1 == d || d + 1 == c) {
      // An odd entry followed by an even one: offsets 3k+1 and 3k+3.
      GetPutApart(img, bits, c, d, v);
    } else {
      Disjoint(bits, c, d);
      GetPutApart(img, bits, c, d, v);
    }
  }

  /** Highest entry whose bytes lie inside an image of n bytes, with every lower one. */
  lemma FitsBelow(bits: nat, c: nat, d: nat, n: nat)
    requires ValidBits(bits) && d <= c && EntryFits(bits, c, n)
    ensures EntryFits(bits, d, n)
  {
  }

  // ---------------------------------------------------------------------
  // The number of entries in a FAT and the entries that fit.

  /** Phat_Mount's num_FAT_entries: the image's bits divided by the width. */
  function EntryCount(bits: nat, n: nat): nat
    requires ValidBits(bits)
  {
    n * 8 / bits
  }

  /** Every entry numbered below the count lies wholly inside the image. */
  lemma EntriesBelowCountFit(bits: nat, n: nat, c: nat)
    requires ValidBits(bits) && c < EntryCount(bits, n)
    ensures EntryFits(bits, c, n)
  {
    assert (c + 1) * bits <= n * 8;
    if bits == 12 {
      if c % 2 == 0 {
        assert EntryOffset(bits, c) * 2 == 3 * c;
      } else {
        assert EntryOffset(bits, c) * 2 == 3 * c - 1;
      }
    }
  }

  /**
   * The entry numbered with the count itself does not fit when the image
   * holds a whole number of entries, which it always does for FAT16 and
   * FAT32.
   */
  lemma EntryAtCountDoesNotFit(bits: nat, n: nat)
    requires ValidBits(bits) && (n * 8) % bits == 0
    ensures !EntryFits(bits, EntryCount(bits, n), n)
  {
    var k := EntryCount(bits, n);
    assert k * bits == n * 8;
    if bits == 12 {
      if k % 2 == 0 {
        assert EntryOffset(bits, k) * 2 == 3 * k;
      } else {
        assert EntryOffset(bits, k) * 2 == 3 * k - 1;
      }
    }
  }

  // ---------------------------------------------------------------------
  // A FAT12 entry at the last byte of a sector.

  /**
   * Phat_ReadFAT as written for a FAT12 entry whose byte offset inside its
   * sector is at: it takes the 16-bit word at data[at], and for at = 511 the
   * second byte is the one after the 512-byte array of the cache slot,
   * which is the low byte of the slot's own LBA field.
   */
  function Read12InSlotAsWritten(data: Sector, slotLba: nat, at: nat, odd: bool): (v: DWord)
    requires at < 512
  {
    var hi := if at + 1 < 512 then data[at + 1] else (slotLba % 256) as Byte;
    var raw := (hi as Word << 8) | data[at] as Word;
    if !odd then (raw & 0x0FFF) as DWord else ((raw >> 4) & 0x0FFF) as DWord
  }

  /**
   * Phat_WriteFAT as written for the same entry: for at = 511 the high byte
   * of the merged word replaces the low byte of the slot's LBA field.
   */
  function Write12InSlotAsWritten(data: Sector, slotLba: nat, at: nat, odd: bool, v: DWord): (Sector, nat)
    requires at < 512 && slotLba < 0x1_0000_0000
  {
    var hi := if at + 1 < 512 then data[at + 1] else (slotLba % 256) as Byte;
    var m := Merge12((hi as Word << 8) | data[at] as Word, odd, v);
    if at + 1 < 512 then (data[at := Lo8(m)][at + 1 := Hi8(m)], slotLba)
    else (data[at := Lo8(m)], slotLba - slotLba % 256 + Hi8(m) as nat)
  }

  /** FAT12 entry 341 starts on byte 511: the first entry that straddles two sectors. */
  lemma Entry341Straddles()
    ensures EntryOffset(12, 341) == 511 && EntryOffset(12, 341) % 512 == 511
    ensures forall c :: c < 341 ==> EntryOffset(12, c) + 2 <= 512
  {
  }

  /**
   * The straddling entry read as written: with the FAT's first two sectors
   * zero except byte 0 of the second, which is 0xFF, entry 341 is 0xFF0, but
   * the slot holding the first sector at LBA 1 gives 0x010.
   */
  lemma AsWrittenStraddleRead()
    ensures var img := Zeros(512) + [0xFF as Byte] + Zeros(511);
      GetEntry(img, 12, 341) == 0xFF0
      && Read12InSlotAsWritten(Zeros(512), 1, 511, true) == 0x010
  {
    var img := Zeros(512) + [0xFF as Byte] + Zeros(511);
    assert img[511] == 0 && img[512] == 0xFF;
    assert LE16(img, 511) == 0xFF00;
  }

  /**
   * The straddling entry written as written: marking entry 341 end-of-chain
   * in the slot of LBA 1 turns the slot's LBA into 0xFF, so the modified
   * sector is later written back to sector 0xFF.
   */
  lemma AsWrittenStraddleWriteMovesSlot()
    ensures Write12InSlotAsWritten(Zeros(512), 1, 511, true, 0x0FFFFFFF).1 == 0xFF
  {
    var m := Merge12(0x0100, true, 0x0FFFFFFF);
    assert m == 0xFFF0;
  }

  /**
   * The corrected write of a straddling entry touches byte 511 of one sector
   * and byte 0 of the next, and the entry reads back in full.
   */
  lemma StraddleWriteCorrected(img: seq<Byte>, v: DWord)
    requires |img| >= 1024
    ensures var r := PutEntry(img, 12, 341, v);
      GetEntry(r, 12, 341) == Stored(12, v)
      && r[..511] == img[..511] && r[513..] == img[513..]
  {
    GetPutSame(img, 12, 341, v);
    var r := PutEntry(img, 12, 341, v);
    assert forall i :: 0 <= i < 511 ==> r[i] == img[i];
    assert forall i :: 513 <= i < |img| ==> r[i] == img[i];
  }

  // ---------------------------------------------------------------------
  // The dirty flag.

  /** The flag bit Phat_MarkDirty and Phat_CheckIsDirty use in entry 0: set means clean. */
  function CleanBit(bits: nat): DWord
    requires ValidBits(bits)
  {
    if bits == 12 then 0x800 else if bits == 16 then 0x8000 else 0x80000000
  }

  /** Phat_MarkDirty's new entry 0: clear the bit (and any above it) when dirty, set it when clean. */
  function MarkedEntry(bits: nat, e: DWord, dirty: bool): DWord
    requires ValidBits(bits)
  {
    if dirty then e & (CleanBit(bits) - 1) else e | CleanBit(bits)
  }

  /** Phat_CheckIsDirty: dirty exactly when the bit is clear. */
  predicate IsDirtyEntry(bits: nat, e: DWord)
    requires ValidBits(bits)
  {
    e & CleanBit(bits) == 0
  }

  /** Marking entry 0 and reading it back gives the flag that was marked. */
  lemma MarkThenCheck(img: seq<Byte>, bits: nat, dirty: bool)
    requires ValidBits(bits) && EntryFits(bits, 0, |img|)
    ensures IsDirtyEntry(bits, GetEntry(PutEntry(img, bits, 0, MarkedEntry(bits, GetEntry(img, bits, 0), dirty)), bits, 0)) == dirty
  {
  }

  /**
   * Entry 0 of a freshly formatted FAT32 volume, 0x0FFFFFF8, does not have
   * bit 31 set, so the engine reads such a volume as dirty; entries 0 of
   * fresh FAT12 and FAT16 volumes read as clean.
   */
  lemma FreshEntryZeroFlags()
    ensures IsDirtyEntry(32, 0x0FFFFFF8)
    ensures !IsDirtyEntry(16, 0xFFF8) && !IsDirtyEntry(12, 0xFF0)
  {
  }
}
