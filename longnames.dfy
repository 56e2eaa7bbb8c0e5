/**
 * Long file names (section 7 of the Microsoft FAT specification): the
 * checksum of the 8.3 name, the layout of a long-name entry, the entries
 * Phat_CreateNewItemInDir writes for a name, and the accumulation of those
 * entries by Phat_NextDirItem through Phat_SuckLFNIntoBuffer.
 *
 * A name of L code units is stored in n = ceil(L/13) entries, written from
 * ordinal n (flagged 0x40) down to 1; entry i holds the code units from
 * (i-1)*13, then one 0x0000 terminator if the name ends inside it, then
 * 0xFFFF padding. The decoder copies each entry back to (i-1)*13 and derives
 * the length from the write position of the flagged entry. As written it
 * counts the terminator when L is 12 more than a multiple of 13; the model
 * keeps that decoder (SuckSpec with asWritten) and a corrected one.
 */
module LongNames {
  import opened Common

  const LAST_LONG_ENTRY: Byte := 0x40
  const DELETED_MARK: Byte := 0xE5
  /** Size of the name buffer of a cursor: MAX_LFN code units plus a terminator. */
  const LFN_BUFFER: nat := 256

  type Entry = e: seq<Byte> | |e| == 32 witness seq(32, _ => 0 as Byte)

  // ---------------------------------------------------------------------
  // The checksum of an 8.3 name.

  /** The checksum as the Microsoft specification states it: rotate right by one, then add the next byte. */
  function ChecksumFrom(acc: Byte, s: seq<Byte>): Byte
    decreases |s|
  {
    if s == [] then acc else ChecksumFrom(acc.RotateRight(1) + s[0], s[1..])
  }

  function Checksum(name83: seq<Byte>): Byte
  {
    ChecksumFrom(0, name83)
  }

  /** Phat_LFN_ChkSum: the source's step "(sum & 1 ? 0x80 : 0) + (sum >> 1) + b" over the 11 bytes. */
  method LfnChecksum(name83: seq<Byte>) returns (sum: Byte)
    requires |name83| == 11
    ensures sum == Checksum(name83)
  {
    sum := 0;
    var i := 0;
    while i < 11
      invariant 0 <= i <= 11
      invariant ChecksumFrom(sum, name83[i..]) == Checksum(name83)
    {
      assert name83[i..][1..] == name83[i + 1..];
      RotateStep(sum);
      sum := (if sum & 1 == 1 then 0x80 else 0) + (sum >> 1) + name83[i];
      i := i + 1;
    }
    assert name83[11..] == [];
  }

  lemma RotateStep(x: Byte)
    ensures (if x & 1 == 1 then 0x80 else 0) + (x >> 1) == x.RotateRight(1)
  {
  }

  // ---------------------------------------------------------------------
  // The layout of a long-name entry.

  /** Byte offset within the entry of its k-th name code unit (name1, name2, name3). */
  function CharOffset(k: nat): (off: nat)
    requires k < 13
    ensures off + 2 <= 32
  {
    if k < 5 then 1 + 2 * k else if k < 11 then 14 + 2 * (k - 5) else 28 + 2 * (k - 11)
  }

  /** The 13 code units an entry carries, in order. */
  function EntryChars(e: Entry): (r: seq<WChar>)
    ensures |r| == 13
  {
    seq(13, k requires 0 <= k < 13 => LE16(e, CharOffset(k)))
  }

  /** Phat_IsValidLFNEntry. */
  predicate IsValidLfnEntry(e: Entry)
  {
    e[0] != DELETED_MARK && e[11] == ATTRIB_LFN && e[12] == 0 && LE16(e, 26) == 0
  }

  /** Byte b of a long-name entry built from an ordinal, a checksum and 13 code units. */
  function LfnByte(order: Byte, checksum: Byte, chars: seq<WChar>, b: nat): Byte
    requires |chars| == 13 && b < 32
  {
    if b == 0 then order
    else if b == 11 then ATTRIB_LFN
    else if b == 12 then 0
    else if b == 13 then checksum
    else if b == 26 || b == 27 then 0
    else
      var k := if b < 11 then (b - 1) / 2 else if b < 26 then 5 + (b - 14) / 2 else 11 + (b - 28) / 2;
      var high := if b < 11 then (b - 1) % 2 == 1 else b % 2 == 1;
      if high then Hi8(chars[k]) else Lo8(chars[k])
  }

  /** A long-name entry with the given ordinal byte, checksum and 13 code units; every other field zero. */
  function MakeLfnEntry(order: Byte, checksum: Byte, chars: seq<WChar>): (e: Entry)
    requires |chars| == 13
  {
    seq(32, b requires 0 <= b < 32 => LfnByte(order, checksum, chars, b))
  }

  /** A word stored low byte first reads back as itself. */
  lemma LoHi(s: seq<Byte>, off: nat, w: Word)
    requires off + 2 <= |s| && s[off] == Lo8(w) && s[off + 1] == Hi8(w)
    ensures LE16(s, off) == w
  {
  }

  lemma LfnByteAt(order: Byte, checksum: Byte, chars: seq<WChar>, k: nat)
    requires |chars| == 13 && k < 13
    ensures LfnByte(order, checksum, chars, CharOffset(k)) == Lo8(chars[k])
    ensures LfnByte(order, checksum, chars, CharOffset(k) + 1) == Hi8(chars[k])
  {
  }

  /** The fields of a built entry read back as they were given, and it is a valid long-name entry unless its ordinal is 0xE5. */
  lemma MakeLfnEntryFields(order: Byte, checksum: Byte, chars: seq<WChar>)
    requires |chars| == 13
    ensures var e := MakeLfnEntry(order, checksum, chars);
      e[0] == order && e[13] == checksum && EntryChars(e) == chars
      && (IsValidLfnEntry(e) <==> order != DELETED_MARK)
  {
    var e := MakeLfnEntry(order, checksum, chars);
    MakeLfnEntryChars(order, checksum, chars);
    assert e[11] == ATTRIB_LFN && e[12] == 0 && e[26] == 0 && e[27] == 0;
    ZeroLE16(e, 26);
  }

  lemma ZeroLE16(s: seq<Byte>, off: nat)
    requires off + 2 <= |s| && s[off] == 0 && s[off + 1] == 0
    ensures LE16(s, off) == 0
  {
  }

  lemma MakeLfnEntryChars(order: Byte, checksum: Byte, chars: seq<WChar>)
    requires |chars| == 13
    ensures EntryChars(MakeLfnEntry(order, checksum, chars)) == chars
  {
    var e := MakeLfnEntry(order, checksum, chars);
    forall k | 0 <= k < 13 ensures LE16(e, CharOffset(k)) == chars[k] {
      LfnByteAt(order, checksum, chars, k);
      LoHi(e, CharOffset(k), chars[k]);
    }
  }

  // ---------------------------------------------------------------------
  // Encoding a long name (Phat_CreateNewItemInDir).

  /** A name as stored: at most MAX_LFN code units, none of them the terminator. */
  predicate IsStorableName(name: seq<WChar>)
  {
    1 <= |name| <= MAX_LFN && forall k :: 0 <= k < |name| ==> name[k] != 0
  }

  /** Number of long-name entries for a name of len code units. */
  function EntryCount(len: nat): nat
  {
    (len + 12) / 13
  }

  /** What entry i (1-based) holds in its slot j: a name code unit, the terminator, or 0xFFFF padding. */
  function SlotValue(name: seq<WChar>, i: nat, j: nat): WChar
    requires 1 <= i && (i - 1) * 13 < |name| && j < 13
  {
    var offset := (i - 1) * 13;
    var copyLen := if |name| - offset < 13 then |name| - offset else 13;
    if j < copyLen then name[offset + j] else if j == copyLen then 0 else 0xFFFF
  }

  /** Long-name entry number i of n for name, with the 8.3 checksum. */
  function EncodeLfnEntry(name: seq<WChar>, i: nat, checksum: Byte): Entry
    requires IsStorableName(name) && 1 <= i <= EntryCount(|name|)
  {
    var n := EntryCount(|name|);
    var order: Byte := (if i == n then (i as Byte) | LAST_LONG_ENTRY else i as Byte);
    MakeLfnEntry(order, checksum, Slots(name, i))
  }

  /** The entries in directory order: ordinals i down to 1. */
  function EncodeFrom(name: seq<WChar>, i: nat, checksum: Byte): (r: seq<Entry>)
    requires IsStorableName(name) && i <= EntryCount(|name|)
    ensures |r| == i
  {
    if i == 0 then [] else [EncodeLfnEntry(name, i, checksum)] + EncodeFrom(name, i - 1, checksum)
  }

  function EncodeLongName(name: seq<WChar>, checksum: Byte): (r: seq<Entry>)
    requires IsStorableName(name)
  {
    EncodeFrom(name, EntryCount(|name|), checksum)
  }

  /**
   * The encoder's shape: ceil(L/13) entries, at most 20, the first flagged as
   * the last long entry, ordinals descending to 1, every one a valid
   * long-name entry carrying the checksum.
   */
  lemma EncodeLongNameShape(name: seq<WChar>, checksum: Byte, k: nat)
    requires IsStorableName(name) && k < EntryCount(|name|)
    ensures |EncodeLongName(name, checksum)| == EntryCount(|name|) <= 20
    ensures var e := EncodeLongName(name, checksum)[k];
      var n := EntryCount(|name|);
      e[0] & 0x3F == (n - k) as Byte && (e[0] & LAST_LONG_ENTRY != 0 <==> k == 0)
      && e[13] == checksum && IsValidLfnEntry(e)
  {
    var n := EntryCount(|name|);
    EncodeFromAt(name, n, checksum, k);
    var i := n - k;
    var order: Byte := (if i == n then (i as Byte) | LAST_LONG_ENTRY else i as Byte);
    EntryCountBounds(|name|);
    OrderBits(i);
    MakeLfnEntryFields(order, checksum, seq(13, j requires 0 <= j < 13 => SlotValue(name, i, j)));
  }

  lemma {:induction false} EncodeFromAt(name: seq<WChar>, i: nat, checksum: Byte, k: nat)
    requires IsStorableName(name) && i <= EntryCount(|name|) && k < i
    ensures EncodeFrom(name, i, checksum)[k] == EncodeLfnEntry(name, i - k, checksum)
  {
    if k > 0 {
      EncodeFromAt(name, i - 1, checksum, k - 1);
    }
  }

  // ---------------------------------------------------------------------
  // Decoding one entry (Phat_SuckLFNIntoBuffer).

  /** Position of the first terminator among an entry's 13 code units, or 13. */
  function NulIndex(chars: seq<WChar>): (k: nat)
    ensures k <= |chars|
    ensures forall j :: 0 <= j < k ==> chars[j] != 0
    ensures k < |chars| ==> chars[k] == 0
  {
    NulFrom(chars, 0)
  }

  function NulFrom(chars: seq<WChar>, from: nat): (k: nat)
    requires from <= |chars|
    requires forall j :: 0 <= j < from ==> chars[j] != 0
    ensures from <= k <= |chars|
    ensures forall j :: 0 <= j < k ==> chars[j] != 0
    ensures k < |chars| ==> chars[k] == 0
    decreases |chars| - from
  {
    if from == |chars| || chars[from] == 0 then from else NulFrom(chars, from + 1)
  }

  /** buffer with its positions pos..pos+w-1 replaced by the first w code units of chars. */
  function Spliced(buffer: seq<WChar>, pos: nat, chars: seq<WChar>, w: nat): (r: seq<WChar>)
    requires pos + w <= |buffer| && w <= |chars|
    ensures |r| == |buffer|
    ensures forall k :: 0 <= k < |buffer| ==> r[k] == if pos <= k < pos + w then chars[k - pos] else buffer[k]
  {
    buffer[..pos] + chars[..w] + buffer[pos + w..]
  }

  datatype SuckResult = SuckResult(status: PhatState, buffer: seq<WChar>, length: nat)

  /** Number of code units Phat_SuckLFNIntoBuffer copies from position pos: up to and including the terminator, and not past the buffer. */
  function CopyCount(chars: seq<WChar>, pos: nat): nat
    requires |chars| == 13 && pos < LFN_BUFFER
  {
    var nul := NulIndex(chars);
    MinNat(if nul < 13 then nul + 1 else 13, LFN_BUFFER - pos)
  }

  /**
   * The effect of Phat_SuckLFNIntoBuffer on the cursor's name buffer and
   * length. The entry's code units are copied from (order-1)*13 up to and
   * including the first terminator, stopping at the end of the buffer; an
   * entry flagged as the last sets the length from the final write
   * position. With asWritten the length is "pos - 1 if pos is not a multiple
   * of 13, else pos"; otherwise the terminator is discounted exactly when
   * one was copied, and the result is capped at MAX_LFN.
   */
  function SuckSpec(buffer: seq<WChar>, length: nat, e: Entry, asWritten: bool): (r: SuckResult)
    requires |buffer| == LFN_BUFFER
    ensures |r.buffer| == LFN_BUFFER
    ensures r.status == OK || r.status == FSError
    ensures r.status == FSError ==> r.buffer == buffer && r.length == length
  {
    SuckUnits(buffer, length, (e[0] & 0x3F) as nat, e[0] & LAST_LONG_ENTRY != 0, EntryChars(e), asWritten)
  }

  /** SuckSpec on the decoded fields of the entry: its ordinal, its last-entry flag and its code units. */
  function SuckUnits(buffer: seq<WChar>, length: nat, order: nat, last: bool, chars: seq<WChar>, asWritten: bool): (r: SuckResult)
    requires |buffer| == LFN_BUFFER && |chars| == 13
    ensures |r.buffer| == LFN_BUFFER
    ensures r.status == OK || r.status == FSError
    ensures r.status == FSError ==> r.buffer == buffer && r.length == length
  {
    if order < 1 || (order - 1) * 13 > MAX_LFN then SuckResult(FSError, buffer, length)
    else
      var pos := (order - 1) * 13;
      var w := CopyCount(chars, pos);
      var terminated := NulIndex(chars) < w;
      SuckResult(OK, Spliced(buffer, pos, chars, w), NewLength(length, last, pos + w, terminated, asWritten))
  }

  /**
   * The cursor's length after an entry whose copy ended at end: kept unless
   * the entry is flagged as the last; as written, end - 1 unless end is a
   * multiple of 13; corrected, end less the terminator if one was copied.
   */
  function NewLength(length: nat, last: bool, end: nat, terminated: bool, asWritten: bool): nat
    requires terminated ==> end >= 1
  {
    if !last then length
    else if asWritten then (if end % 13 != 0 then end - 1 else end)
    else MinNat(if terminated then end - 1 else end, MAX_LFN)
  }

  /** The copy loop of Phat_SuckLFNIntoBuffer: returns the new write position and whether a terminator was copied. */
  method CopyUnits(chars: seq<WChar>, buffer: array<WChar>, pos: nat) returns (writePos: nat, terminated: bool)
    requires |chars| == 13 && buffer.Length == LFN_BUFFER && pos < LFN_BUFFER
    modifies buffer
    ensures writePos == pos + CopyCount(chars, pos)
    ensures terminated <==> NulIndex(chars) < CopyCount(chars, pos)
    ensures buffer[..] == Spliced(old(buffer[..]), pos, chars, CopyCount(chars, pos))
  {
    ghost var before := buffer[..];
    writePos := pos;
    var j := 0;
    terminated := false;
    while j < 13
      invariant 0 <= j <= 13 && writePos == pos + j <= LFN_BUFFER
      invariant forall k :: 0 <= k < j - 1 ==> chars[k] != 0
      invariant terminated <==> (j > 0 && chars[j - 1] == 0)
      invariant forall k :: 0 <= k < LFN_BUFFER ==> buffer[k] == if pos <= k < pos + j then chars[k - pos] else before[k]
      decreases 13 - j
    {
      if terminated || writePos > MAX_LFN {
        break;
      }
      var ch := chars[j];
      buffer[writePos] := ch;
      writePos := writePos + 1;
      terminated := ch == 0;
      j := j + 1;
    }
    assert j == CopyCount(chars, pos);
    assert buffer[..] == Spliced(before, pos, chars, j);
  }

  /**
   * Phat_SuckLFNIntoBuffer on the cursor's buffer, one code unit at a time;
   * asWritten selects the source's length rule or the corrected one.
   */
  method SuckLfnIntoBuffer(e: Entry, buffer: array<WChar>, length: nat, asWritten: bool) returns (status: PhatState, length': nat)
    requires buffer.Length == LFN_BUFFER
    modifies buffer
    ensures var r := SuckSpec(old(buffer[..]), length, e, asWritten);
      status == r.status && buffer[..] == r.buffer && length' == r.length
  {
    ghost var before := buffer[..];
    var order := (e[0] & 0x3F) as nat;
    var last := e[0] & LAST_LONG_ENTRY != 0;
    var chars := EntryChars(e);
    assert SuckSpec(before, length, e, asWritten) == SuckUnits(before, length, order, last, chars, asWritten);
    if order < 1 {
      return FSError, length;
    }
    var writePos := (order - 1) * 13;
    if writePos > MAX_LFN {
      return FSError, length;
    }
    SuckUnitsOK(before, length, order, last, chars, asWritten);
    var terminated;
    writePos, terminated := CopyUnits(chars, buffer, writePos);
    length' := NewLength(length, last, writePos, terminated, asWritten);
    status := OK;
  }

  // ---------------------------------------------------------------------
  // Accumulating a run of entries (the long-name branch of Phat_NextDirItem).

  /** The cursor's long-name state between entries. */
  datatype LfnState = LfnState(buffer: seq<WChar>, length: nat, checksum: Byte, noChecksum: bool)

  predicate WellFormed(s: LfnState)
  {
    |s.buffer| == LFN_BUFFER
  }

  /** The checksum bookkeeping before an entry is copied in. */
  function ChecksumStep(s: LfnState, e: Entry): (r: LfnState)
  {
    if s.noChecksum then s.(noChecksum := false, checksum := e[13])
    else if e[13] != s.checksum then s.(checksum := e[13], length := 0)
    else s
  }

  /**
   * One valid long-name entry: the first of a run fixes the expected
   * checksum, a later one with a different checksum restarts the name, then
   * the entry's code units are copied in.
   */
  function LfnStep(s: LfnState, e: Entry, asWritten: bool): (r: (PhatState, LfnState))
    requires WellFormed(s)
    ensures WellFormed(r.1)
  {
    var s1 := ChecksumStep(s, e);
    var sr := SuckSpec(s1.buffer, s1.length, e, asWritten);
    (sr.status, s1.(buffer := sr.buffer, length := sr.length))
  }

  /** A run of long-name entries processed in directory order, stopping at the first error. */
  function Accumulate(s: LfnState, es: seq<Entry>, asWritten: bool): (r: (PhatState, LfnState))
    requires WellFormed(s)
    ensures WellFormed(r.1)
    decreases |es|
  {
    if es == [] then (OK, s)
    else
      var (st, s') := LfnStep(s, es[0], asWritten);
      if st != OK then (st, s') else Accumulate(s', es[1..], asWritten)
  }

  /** The start of an enumeration step: no checksum and no name yet. */
  function Fresh(buffer: seq<WChar>, checksum: Byte): LfnState
  {
    LfnState(buffer, 0, checksum, true)
  }

  /** What decoding the encoder's entries yields, given the corrected or the source's length rule. */
  function DecodedLength(len: nat, asWritten: bool): nat
  {
    if asWritten && len % 13 == 12 then len + 1 else len
  }

  lemma EntryCountBounds(len: nat)
    requires 1 <= len <= MAX_LFN
    ensures var n := EntryCount(len); 1 <= n <= 20 && (n - 1) * 13 < len <= n * 13
  {
  }

  /** The 13 code units the encoder puts in entry i. */
  function Slots(name: seq<WChar>, i: nat): (r: seq<WChar>)
    requires 1 <= i && (i - 1) * 13 < |name|
    ensures |r| == 13
  {
    seq(13, j requires 0 <= j < 13 => SlotValue(name, i, j))
  }

  /**
   * chars, copied w code units at a time from position pos, give back the
   * name's units there and, when the copy reaches past the name, exactly one
   * terminator after it.
   */
  ghost predicate HoldsBlock(name: seq<WChar>, chars: seq<WChar>, pos: nat, w: nat)
    requires |chars| == 13
  {
    w <= 13 && pos <= |name| && pos + w <= LFN_BUFFER
    && (forall k :: pos <= k < pos + w && k < |name| ==> chars[k - pos] == name[k])
    && (pos + w > |name| ==> pos + w == |name| + 1 && chars[|name| - pos] == 0)
    && (pos + w <= |name| ==> w == 13)
  }

  /** Where block i of a name of L code units lies: whole before the last entry, and the last one ends the name. */
  lemma BlockPlace(L: nat, i: nat, pos: nat)
    requires 1 <= L <= MAX_LFN && 1 <= i <= EntryCount(L) && pos == (i - 1) * 13
    ensures pos < L
    ensures i < EntryCount(L) ==> pos + 13 < L
    ensures i == EntryCount(L) ==> L - pos <= 13 && (L - pos == 13 <==> L % 13 == 0)
  {
    EntryCountBounds(L);
    var q, r := L / 13, L % 13;
    assert L == 13 * q + r;
    if r == 0 {
      assert EntryCount(L) == q;
    } else {
      assert EntryCount(L) == q + 1;
    }
  }

  /** Entry i copies back the part of the name it holds, plus a terminator when the name ends inside it. */
  lemma SlotsDecode(name: seq<WChar>, i: nat, pos: nat, w: nat)
    requires IsStorableName(name) && 1 <= i <= EntryCount(|name|)
    requires pos == (i - 1) * 13 && pos < |name| && w == CopyCount(Slots(name, i), pos)
    ensures HoldsBlock(name, Slots(name, i), pos, w)
    ensures pos + w > |name| ==> NulIndex(Slots(name, i)) < w
    ensures pos + w <= |name| ==> NulIndex(Slots(name, i)) == 13
    ensures i < EntryCount(|name|) ==> w == 13
    ensures i == EntryCount(|name|) ==> pos + w == |name| + (if |name| % 13 == 0 then 0 else 1)
  {
    var L := |name|;
    BlockPlace(L, i, pos);
    var chars := Slots(name, i);
    var copyLen := if L - pos < 13 then L - pos else 13;
    assert forall j :: 0 <= j < copyLen ==> chars[j] == name[pos + j];
    if copyLen < 13 {
      assert chars[copyLen] == 0;
      assert NulIndex(chars) == copyLen;
    } else {
      assert NulIndex(chars) == 13;
    }
  }

  /** The buffer holds the name from position from to its end. */
  predicate NameFrom(buf: seq<WChar>, name: seq<WChar>, from: nat)
  {
    |name| < |buf| && forall k :: from <= k < |name| ==> buf[k] == name[k]
  }

  /**
   * Decoding ordinal i, flagged exactly when i is the last, with code units
   * that behave like Slots(name, i): the name's block (i-1)*13 is added to
   * what the buffer held from i*13 on, and the terminator after the name is
   * written by the last entry and kept by the others. The length is
   * SuckBlockLength's part.
   */
  lemma SuckBlock(buffer: seq<WChar>, length: nat, name: seq<WChar>, i: nat, last: bool, chars: seq<WChar>, asWritten: bool, pos: nat, w: nat)
    requires IsStorableName(name) && |buffer| == LFN_BUFFER && |chars| == 13
    requires 1 <= i && pos == (i - 1) * 13 && pos < |name| && w == CopyCount(chars, pos)
    requires HoldsBlock(name, chars, pos, w)
    ensures var r := SuckUnits(buffer, length, i, last, chars, asWritten);
      var L := |name|;
      r.status == OK
      && (NameFrom(buffer, name, pos + 13) ==> NameFrom(r.buffer, name, pos))
      && (pos + w > L ==> r.buffer[L] == 0)
      && (pos + w <= L ==> r.buffer[L] == buffer[L])
  {
    SuckUnitsOK(buffer, length, i, last, chars, asWritten);
    SplicedBlock(buffer, pos, chars, w, name);
  }

  /** The length after decoding ordinal i of a name: set by the last entry, kept by the others. */
  lemma SuckBlockLength(buffer: seq<WChar>, length: nat, name: seq<WChar>, i: nat, chars: seq<WChar>, asWritten: bool, pos: nat, w: nat)
    requires IsStorableName(name) && |buffer| == LFN_BUFFER && 1 <= i <= EntryCount(|name|) && |chars| == 13
    requires pos == (i - 1) * 13 && pos < |name| && w == CopyCount(chars, pos)
    requires pos + w > |name| ==> pos + w == |name| + 1 && NulIndex(chars) < w
    requires pos + w <= |name| ==> NulIndex(chars) == 13
    requires i < EntryCount(|name|) ==> w == 13
    requires i == EntryCount(|name|) ==> pos + w == |name| + (if |name| % 13 == 0 then 0 else 1)
    ensures var r := SuckUnits(buffer, length, i, i == EntryCount(|name|), chars, asWritten);
      (i == EntryCount(|name|) ==> r.length == DecodedLength(|name|, asWritten))
      && (i < EntryCount(|name|) ==> r.length == length)
  {
    var L := |name|;
    EntryCountBounds(L);
    var terminated := NulIndex(chars) < w;
    var last := i == EntryCount(L);
    SuckUnitsOK(buffer, length, i, last, chars, asWritten);
    assert terminated <==> pos + w == L + 1;
    EndLength(length, L, pos + w, terminated, last, asWritten);
  }

  /** An in-range ordinal is accepted, and the entry is spliced in at (order-1)*13. */
  lemma SuckUnitsOK(buffer: seq<WChar>, length: nat, order: nat, last: bool, chars: seq<WChar>, asWritten: bool)
    requires |buffer| == LFN_BUFFER && |chars| == 13 && 1 <= order && (order - 1) * 13 <= MAX_LFN
    ensures var pos := (order - 1) * 13;
      var w := CopyCount(chars, pos);
      w >= 1 && SuckUnits(buffer, length, order, last, chars, asWritten)
        == SuckResult(OK, Spliced(buffer, pos, chars, w), NewLength(length, last, pos + w, NulIndex(chars) < w, asWritten))
  {
  }

  /** Splicing a block of a name into the buffer extends the part that holds the name, and writes the terminator if the block ends there. */
  lemma SplicedBlock(buffer: seq<WChar>, pos: nat, chars: seq<WChar>, w: nat, name: seq<WChar>)
    requires pos < |name| < |buffer| == LFN_BUFFER && |chars| == 13 && HoldsBlock(name, chars, pos, w)
    ensures var r := Spliced(buffer, pos, chars, w);
      (NameFrom(buffer, name, pos + 13) ==> NameFrom(r, name, pos))
      && (pos + w > |name| ==> r[|name|] == 0)
      && (pos + w <= |name| ==> r[|name|] == buffer[|name|])
  {
  }

  /** The length rule applied where the encoder's last entry ends. */
  lemma EndLength(length: nat, L: nat, end: nat, terminated: bool, last: bool, asWritten: bool)
    requires terminated <==> end == L + 1
    requires last ==> end == L + (if L % 13 == 0 then 0 else 1)
    requires !last ==> end <= L && L <= MAX_LFN
    requires L <= MAX_LFN
    ensures last ==> NewLength(length, last, end, terminated, asWritten) == DecodedLength(L, asWritten)
    ensures !last ==> NewLength(length, last, end, terminated, asWritten) == length
  {
    if last && L % 13 != 0 {
      ModSucc(L);
    }
  }

  lemma ModSucc(L: nat)
    ensures (L + 1) % 13 == 0 <==> L % 13 == 12
  {
  }

  /**
   * Decoding an entry that carries ordinal i, flagged exactly when i is the
   * last, and the code units the encoder puts in entry i, adds the i-th
   * block of 13 code units to what the buffer held of the name after it;
   * the last entry writes the terminator after the name and sets the
   * length, the others keep both.
   */
  lemma SuckEncoded(buffer: seq<WChar>, length: nat, name: seq<WChar>, i: nat, e: Entry, asWritten: bool)
    requires IsStorableName(name) && |buffer| == LFN_BUFFER && 1 <= i <= EntryCount(|name|)
    requires (e[0] & 0x3F) as nat == i && (e[0] & LAST_LONG_ENTRY != 0 <==> i == EntryCount(|name|))
    requires EntryChars(e) == Slots(name, i)
    ensures var r := SuckSpec(buffer, length, e, asWritten);
      var L := |name|;
      var pos := (i - 1) * 13;
      r.status == OK
      && (NameFrom(buffer, name, pos + 13) ==> NameFrom(r.buffer, name, pos))
      && (i == EntryCount(L) ==> r.length == DecodedLength(L, asWritten) && (L % 13 != 0 ==> r.buffer[L] == 0))
      && (i < EntryCount(L) ==> r.length == length && r.buffer[L] == buffer[L])
  {
    var L := |name|;
    var pos := (i - 1) * 13;
    var last := i == EntryCount(L);
    EntryCountBounds(L);
    var chars := Slots(name, i);
    var w := CopyCount(chars, pos);
    assert SuckSpec(buffer, length, e, asWritten) == SuckUnits(buffer, length, i, last, chars, asWritten);
    SlotsDecode(name, i, pos, w);
    SuckBlock(buffer, length, name, i, last, chars, asWritten, pos, w);
    SuckBlockLength(buffer, length, name, i, chars, asWritten, pos, w);
    assert last && L % 13 != 0 ==> pos + w > L;
    assert !last ==> pos + w <= L;
  }

  /** Entry i of the encoder's output: its ordinal, flag, checksum and code units. */
  lemma EncodedEntryFields(name: seq<WChar>, i: nat, checksum: Byte)
    requires IsStorableName(name) && 1 <= i <= EntryCount(|name|)
    ensures var e := EncodeLfnEntry(name, i, checksum);
      (e[0] & 0x3F) as nat == i && (e[0] & LAST_LONG_ENTRY != 0 <==> i == EntryCount(|name|))
      && e[13] == checksum && EntryChars(e) == Slots(name, i)
  {
    var n := EntryCount(|name|);
    EntryCountBounds(|name|);
    var order: Byte := (if i == n then (i as Byte) | LAST_LONG_ENTRY else i as Byte);
    MakeLfnEntryFields(order, checksum, Slots(name, i));
    OrderBits(i);
  }

  lemma OrderBits(n: nat)
    requires 1 <= n <= 20
    ensures ((n as Byte) | LAST_LONG_ENTRY) & 0x3F == n as Byte
    ensures ((n as Byte) | LAST_LONG_ENTRY) & LAST_LONG_ENTRY != 0
    ensures (n as Byte) & 0x3F == n as Byte && (n as Byte) & LAST_LONG_ENTRY == 0
  {
  }

  /**
   * After entries n..i+1 have been accumulated, the buffer holds the name from
   * i*13 on, the length is the decoded length, and the checksum is the
   * encoder's.
   */
  predicate DecodedFrom(s: LfnState, name: seq<WChar>, i: nat, checksum: Byte, asWritten: bool)
  {
    WellFormed(s) && s.length == DecodedLength(|name|, asWritten)
    && !s.noChecksum && s.checksum == checksum
    && NameFrom(s.buffer, name, i * 13)
    && (|name| % 13 != 0 ==> s.buffer[|name|] == 0)
  }

  /** The flagged entry n, processed first, leaves the tail of the name and the length. */
  lemma FirstEntryDecodes(s: LfnState, name: seq<WChar>, checksum: Byte, asWritten: bool)
    requires IsStorableName(name) && WellFormed(s) && s.noChecksum
    ensures var n := EntryCount(|name|);
      var r := LfnStep(s, EncodeLfnEntry(name, n, checksum), asWritten);
      r.0 == OK && DecodedFrom(r.1, name, n - 1, checksum, asWritten)
  {
    var n := EntryCount(|name|);
    EntryCountBounds(|name|);
    var e := EncodeLfnEntry(name, n, checksum);
    assert NameFrom(s.buffer, name, (n - 1) * 13 + 13);
    EncodedEntryFields(name, n, checksum);
    SuckEncoded(s.buffer, 0, name, n, e, asWritten);
    var s1 := ChecksumStep(s, e);
    assert s1.buffer == s.buffer && s1.checksum == checksum && !s1.noChecksum;
  }

  /** An unflagged entry i < n fills the block (i-1)*13 and keeps what later blocks decoded. */
  lemma InnerEntryDecodes(s: LfnState, name: seq<WChar>, i: nat, checksum: Byte, asWritten: bool)
    requires IsStorableName(name) && 1 <= i < EntryCount(|name|)
    requires DecodedFrom(s, name, i, checksum, asWritten)
    ensures var r := LfnStep(s, EncodeLfnEntry(name, i, checksum), asWritten);
      r.0 == OK && DecodedFrom(r.1, name, i - 1, checksum, asWritten)
  {
    var e := EncodeLfnEntry(name, i, checksum);
    assert (i - 1) * 13 + 13 == i * 13;
    EncodedEntryFields(name, i, checksum);
    SuckEncoded(s.buffer, s.length, name, i, e, asWritten);
    assert ChecksumStep(s, e) == s;
  }

  lemma {:induction false} AccumulateEncoded(s: LfnState, name: seq<WChar>, i: nat, checksum: Byte, asWritten: bool)
    requires IsStorableName(name) && i < EntryCount(|name|)
    requires DecodedFrom(s, name, i, checksum, asWritten)
    ensures var r := Accumulate(s, EncodeFrom(name, i, checksum), asWritten);
      r.0 == OK && DecodedFrom(r.1, name, 0, checksum, asWritten)
    decreases i
  {
    if i > 0 {
      InnerEntryDecodes(s, name, i, checksum, asWritten);
      var r := LfnStep(s, EncodeLfnEntry(name, i, checksum), asWritten);
      AccumulateEncoded(r.1, name, i - 1, checksum, asWritten);
      AccumulateCons(s, EncodeLfnEntry(name, i, checksum), EncodeFrom(name, i - 1, checksum), asWritten);
    }
  }

  /**
   * Long-name round trip. Accumulating the entries the encoder writes for a
   * name recovers every code unit of the name, followed by a terminator
   * unless the name fills its last entry, and the encoder's checksum. With
   * the corrected length rule the length is the name's; with the source's
   * rule it is one too many exactly when the length is 12 more than a
   * multiple of 13.
   */
  lemma LongNameRoundTrip(buffer: seq<WChar>, oldChecksum: Byte, name: seq<WChar>, checksum: Byte, asWritten: bool)
    requires IsStorableName(name) && |buffer| == LFN_BUFFER
    ensures var r := Accumulate(Fresh(buffer, oldChecksum), EncodeLongName(name, checksum), asWritten);
      r.0 == OK && r.1.checksum == checksum && r.1.buffer[..|name|] == name
      && r.1.length == DecodedLength(|name|, asWritten)
      && (|name| % 13 != 0 ==> r.1.buffer[|name|] == 0)
  {
    var n := EntryCount(|name|);
    EntryCountBounds(|name|);
    var s := Fresh(buffer, oldChecksum);
    var e := EncodeLfnEntry(name, n, checksum);
    FirstEntryDecodes(s, name, checksum, asWritten);
    var r1 := LfnStep(s, e, asWritten);
    AccumulateEncoded(r1.1, name, n - 1, checksum, asWritten);
    assert EncodeLongName(name, checksum) == [e] + EncodeFrom(name, n - 1, checksum);
    AccumulateCons(s, e, EncodeFrom(name, n - 1, checksum), asWritten);
    var r := Accumulate(r1.1, EncodeFrom(name, n - 1, checksum), asWritten);
    assert r.1.buffer[..|name|] == name;
  }

  lemma AccumulateCons(s: LfnState, e: Entry, rest: seq<Entry>, asWritten: bool)
    requires WellFormed(s)
    ensures var r1 := LfnStep(s, e, asWritten);
      Accumulate(s, [e] + rest, asWritten) == if r1.0 != OK then r1 else Accumulate(r1.1, rest, asWritten)
  {
    assert ([e] + rest)[1..] == rest;
  }

  /** A concrete name of 12 code units decodes with length 13 under the source's rule. */
  lemma AsWrittenLengthCounterexample(buffer: seq<WChar>)
    requires |buffer| == LFN_BUFFER
    ensures var name: seq<WChar> := seq(12, _ => 0x61);
      var r := Accumulate(Fresh(buffer, 0), EncodeLongName(name, 0), true);
      IsStorableName(name) && r.1.length == 13 && r.1.length != |name|
  {
    var name: seq<WChar> := seq(12, _ => 0x61);
    LongNameRoundTrip(buffer, 0, name, 0, true);
  }
}
