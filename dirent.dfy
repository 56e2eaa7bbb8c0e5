/**
 * The 32-byte short directory entry (Phat_DirItem_t) as bytes: the 8.3 name
 * in 0-10, attributes 11, case bits 12, creation tenths 13, creation time
 * 14-15, creation date 16-17, last access date 18-19, high half of the first
 * cluster 20-21, modification time 22-23 and date 24-25, low half of the
 * first cluster 26-27 and the file size 28-31, each field little-endian.
 */
module DirEntries {
  import opened Common
  import opened LongNames

  /** First name byte of the slot that ends the directory. */
  const END_MARK: Byte := 0x00

  /** The 8.3 names of the two entries that seed a new directory. */
  const DOT_NAME: seq<Byte> := [0x2E, 0x20, 0x20, 0x20, 0x20, 0x20, 0x20, 0x20, 0x20, 0x20, 0x20]
  const DOTDOT_NAME: seq<Byte> := [0x2E, 0x2E, 0x20, 0x20, 0x20, 0x20, 0x20, 0x20, 0x20, 0x20, 0x20]

  /** A slot that can take a new entry: the end mark or a deleted entry. */
  predicate IsFree(e: Entry)
  {
    e[0] == END_MARK || e[0] == DELETED_MARK
  }

  function Name83(e: Entry): (name: seq<Byte>)
    ensures |name| == 11
  {
    e[..11]
  }

  function Attributes(e: Entry): Byte
  {
    e[11]
  }

  /** The first cluster: high half at 20, low half at 26. */
  function FirstClusterOf(e: Entry): DWord
  {
    (LE16(e, 20) as DWord << 16) | LE16(e, 26) as DWord
  }

  function FileSizeOf(e: Entry): DWord
  {
    LE32(e, 28)
  }

  /** The high and low halves of a cluster number put back together give it back. */
  lemma JoinHalves(c: DWord)
    ensures (((c >> 16) as Word) as DWord << 16) | ((c & 0xFFFF) as Word) as DWord == c
  {
  }

  /** Storing a word leaves a word that does not overlap it as it was. */
  lemma KeepLE16(s: seq<Byte>, off: nat, w: Word, other: nat)
    requires off + 2 <= |s| && other + 2 <= |s| && (other + 2 <= off || off + 2 <= other)
    ensures LE16(PutLE16(s, off, w), other) == LE16(s, other)
  {
    var r := PutLE16(s, off, w);
    assert r[other] == s[other];
    assert r[other + 1] == s[other + 1];
    SameWord(r, s, other);
  }

  lemma SameWord(a: seq<Byte>, b: seq<Byte>, off: nat)
    requires off + 2 <= |a| && off + 2 <= |b| && a[off] == b[off] && a[off + 1] == b[off + 1]
    ensures LE16(a, off) == LE16(b, off)
  {
  }

  /** The first cluster read from the two halves it is stored as. */
  lemma ClusterOfHalves(e: Entry, c: DWord)
    requires LE16(e, 20) == (c >> 16) as Word && LE16(e, 26) == (c & 0xFFFF) as Word
    ensures FirstClusterOf(e) == c
  {
    JoinHalves(c);
  }

  /** The entry with its first-cluster halves set to those of c. */
  function WithFirstCluster(e: Entry, c: DWord): (r: Entry)
    ensures forall i :: 0 <= i < 32 && i != 20 && i != 21 && i != 26 && i != 27 ==> r[i] == e[i]
  {
    PutLE16(PutLE16(e, 20, (c >> 16) as Word), 26, (c & 0xFFFF) as Word)
  }

  /** The entry WithFirstCluster gives reads back c as its first cluster. */
  lemma FirstClusterSet(e: Entry, c: DWord)
    ensures FirstClusterOf(WithFirstCluster(e, c)) == c
  {
    var e1: Entry := PutLE16(e, 20, (c >> 16) as Word);
    var r: Entry := PutLE16(e1, 26, (c & 0xFFFF) as Word);
    KeepLE16(e1, 26, (c & 0xFFFF) as Word, 20);
    ClusterOfHalves(r, c);
  }

  /** The entry with its size field set. */
  function WithFileSize(e: Entry, n: DWord): (r: Entry)
    ensures FileSizeOf(r) == n
    ensures forall i :: 0 <= i < 28 ==> r[i] == e[i]
  {
    PutLE32(e, 28, n)
  }

  /** The entry with its first name byte replaced by the deleted mark, as deletion leaves it. */
  function Deleted(e: Entry): (r: Entry)
    ensures r[0] == DELETED_MARK && r[1..] == e[1..]
  {
    e[0 := DELETED_MARK]
  }

  /**
   * A short entry as Phat_CreateNewItemInDir fills one: the given name,
   * attributes and case bits, creation tenths 0, the creation, access and
   * modification stamps from one date and one time, the first cluster, and
   * size 0.
   */
  function ShortEntry(name83: seq<Byte>, attr: Byte, caseBits: Byte, date: Word, time: Word, cluster: DWord): (e: Entry)
    requires |name83| == 11
  {
    var hi, lo := (cluster >> 16) as Word, (cluster & 0xFFFF) as Word;
    seq(32, i requires 0 <= i < 32 =>
      if i < 11 then name83[i]
      else if i == 11 then attr
      else if i == 12 then caseBits
      else if i == 14 || i == 22 then Lo8(time)
      else if i == 15 || i == 23 then Hi8(time)
      else if i == 16 || i == 18 || i == 24 then Lo8(date)
      else if i == 17 || i == 19 || i == 25 then Hi8(date)
      else if i == 20 then Lo8(hi)
      else if i == 21 then Hi8(hi)
      else if i == 26 then Lo8(lo)
      else if i == 27 then Hi8(lo)
      else 0)
  }

  /** Two bytes holding the halves of a word read back as that word. */
  lemma WordAt(e: seq<Byte>, off: nat, w: Word)
    requires off + 2 <= |e| && e[off] == Lo8(w) && e[off + 1] == Hi8(w)
    ensures LE16(e, off) == w
  {
    JoinWord(w);
  }

  lemma ZeroSize(e: Entry)
    requires e[28] == 0 && e[29] == 0 && e[30] == 0 && e[31] == 0
    ensures FileSizeOf(e) == 0
  {
  }

  /** Every field of a built entry reads back as it was given. */
  lemma ShortEntryFields(name83: seq<Byte>, attr: Byte, caseBits: Byte, date: Word, time: Word, cluster: DWord)
    requires |name83| == 11
    ensures var e := ShortEntry(name83, attr, caseBits, date, time, cluster);
      Name83(e) == name83 && Attributes(e) == attr && e[12] == caseBits && e[13] == 0 &&
      LE16(e, 14) == time && LE16(e, 16) == date && LE16(e, 18) == date &&
      LE16(e, 22) == time && LE16(e, 24) == date &&
      FirstClusterOf(e) == cluster && FileSizeOf(e) == 0
  {
    var e := ShortEntry(name83, attr, caseBits, date, time, cluster);
    ShortEntryHead(e, name83, attr, caseBits, date, time, cluster);
    ShortEntryStamps(e, name83, attr, caseBits, date, time, cluster);
    ShortEntryCluster(e, name83, attr, caseBits, date, time, cluster);
  }

  lemma ShortEntryHead(e: Entry, name83: seq<Byte>, attr: Byte, caseBits: Byte, date: Word, time: Word, cluster: DWord)
    requires |name83| == 11 && e == ShortEntry(name83, attr, caseBits, date, time, cluster)
    ensures Name83(e) == name83 && Attributes(e) == attr && e[12] == caseBits && e[13] == 0
    ensures FileSizeOf(e) == 0
  {
    assert e[28] == 0 && e[29] == 0 && e[30] == 0 && e[31] == 0;
    ZeroSize(e);
    assert e[..11] == name83;
  }

  lemma ShortEntryStamps(e: Entry, name83: seq<Byte>, attr: Byte, caseBits: Byte, date: Word, time: Word, cluster: DWord)
    requires |name83| == 11 && e == ShortEntry(name83, attr, caseBits, date, time, cluster)
    ensures LE16(e, 14) == time && LE16(e, 22) == time
    ensures LE16(e, 16) == date && LE16(e, 18) == date && LE16(e, 24) == date
  {
    assert LE16(e, 14) == time by { assert e[14] == Lo8(time) && e[15] == Hi8(time); WordAt(e, 14, time); }
    assert LE16(e, 22) == time by { assert e[22] == Lo8(time) && e[23] == Hi8(time); WordAt(e, 22, time); }
    assert LE16(e, 16) == date by { assert e[16] == Lo8(date) && e[17] == Hi8(date); WordAt(e, 16, date); }
    assert LE16(e, 18) == date by { assert e[18] == Lo8(date) && e[19] == Hi8(date); WordAt(e, 18, date); }
    assert LE16(e, 24) == date by { assert e[24] == Lo8(date) && e[25] == Hi8(date); WordAt(e, 24, date); }
  }

  lemma ShortEntryCluster(e: Entry, name83: seq<Byte>, attr: Byte, caseBits: Byte, date: Word, time: Word, cluster: DWord)
    requires |name83| == 11 && e == ShortEntry(name83, attr, caseBits, date, time, cluster)
    ensures FirstClusterOf(e) == cluster
  {
    var hi, lo := (cluster >> 16) as Word, (cluster & 0xFFFF) as Word;
    assert e[20] == Lo8(hi) && e[21] == Hi8(hi) && e[26] == Lo8(lo) && e[27] == Hi8(lo);
    WordAt(e, 20, hi);
    WordAt(e, 26, lo);
    ClusterOfHalves(e, cluster);
  }

  /**
   * A built entry is not a free slot unless its name starts with the end or
   * deleted mark, and it is never read as a long-name entry when its
   * attributes are not ATTRIB_LFN.
   */
  lemma ShortEntryKind(name83: seq<Byte>, attr: Byte, caseBits: Byte, date: Word, time: Word, cluster: DWord)
    requires |name83| == 11
    ensures var e := ShortEntry(name83, attr, caseBits, date, time, cluster);
      (IsFree(e) <==> name83[0] == END_MARK || name83[0] == DELETED_MARK) &&
      (attr != ATTRIB_LFN ==> !IsValidLfnEntry(e))
  {
  }

  /** The "." entry of a new directory: a directory entry for the directory's own first cluster. */
  function DotEntry(date: Word, time: Word, cluster: DWord): Entry
  {
    ShortEntry(DOT_NAME, ATTRIB_DIRECTORY, 0, date, time, cluster)
  }

  /**
   * The ".." entry: a directory entry for the parent's first cluster, or 0
   * when the parent is the root directory (its start equals the root
   * cluster).
   */
  function DotDotEntry(date: Word, time: Word, parent: DWord, rootCluster: DWord): Entry
  {
    ShortEntry(DOTDOT_NAME, ATTRIB_DIRECTORY, 0, date, time, if parent == rootCluster then 0 else parent)
  }

  /**
   * Phat_CloseFile's update of the file's entry: the access date always;
   * the modification date and time and the size only when the file was
   * written.
   */
  function Closed(e: Entry, date: Word, time: Word, modified: bool, size: DWord): (r: Entry)
    ensures LE16(r, 18) == date
    ensures modified ==> LE16(r, 24) == date && LE16(r, 22) == time && FileSizeOf(r) == size
    ensures !modified ==> FileSizeOf(r) == FileSizeOf(e) && LE16(r, 22) == LE16(e, 22) && LE16(r, 24) == LE16(e, 24)
    ensures forall i :: 0 <= i < 18 ==> r[i] == e[i]
    ensures FirstClusterOf(r) == FirstClusterOf(e)
  {
    var a: Entry := PutLE16(e, 18, date);
    AccessStamped(e, date);
    if modified then
      var b: Entry := PutLE16(a, 24, date);
      var m: Entry := PutLE16(b, 22, time);
      ModificationStamped(a, date, time);
      KeepBelowSize(m, size);
      PutLE32(m, 28, size)
    else
      a
  }

  /** Stamping the access date keeps the other words of the entry. */
  lemma AccessStamped(e: Entry, date: Word)
    ensures var a := PutLE16(e, 18, date);
      LE16(a, 20) == LE16(e, 20) && LE16(a, 22) == LE16(e, 22) && LE16(a, 24) == LE16(e, 24) &&
      LE16(a, 26) == LE16(e, 26) && FileSizeOf(a) == FileSizeOf(e) && FirstClusterOf(a) == FirstClusterOf(e)
  {
    var a := PutLE16(e, 18, date);
    assert LE16(a, 20) == LE16(e, 20) by { KeepLE16(e, 18, date, 20); }
    assert LE16(a, 22) == LE16(e, 22) by { KeepLE16(e, 18, date, 22); }
    assert LE16(a, 24) == LE16(e, 24) by { KeepLE16(e, 18, date, 24); }
    assert LE16(a, 26) == LE16(e, 26) by { KeepLE16(e, 18, date, 26); }
    assert FileSizeOf(a) == FileSizeOf(e) by { SameDWord(a, e, 28); }
  }

  lemma SameDWord(a: seq<Byte>, b: seq<Byte>, off: nat)
    requires off + 4 <= |a| && off + 4 <= |b|
    requires a[off] == b[off] && a[off + 1] == b[off + 1] && a[off + 2] == b[off + 2] && a[off + 3] == b[off + 3]
    ensures LE32(a, off) == LE32(b, off)
  {
  }

  /** Stamping the modification date and time keeps the access date and the first cluster. */
  lemma ModificationStamped(a: Entry, date: Word, time: Word)
    ensures var m := PutLE16(PutLE16(a, 24, date), 22, time);
      LE16(m, 18) == LE16(a, 18) && LE16(m, 20) == LE16(a, 20) && LE16(m, 26) == LE16(a, 26) &&
      LE16(m, 22) == time && LE16(m, 24) == date
  {
    var b := PutLE16(a, 24, date);
    KeepLE16(a, 24, date, 18);
    KeepLE16(a, 24, date, 20);
    KeepLE16(a, 24, date, 26);
    KeepLE16(b, 22, time, 18);
    KeepLE16(b, 22, time, 20);
    KeepLE16(b, 22, time, 24);
    KeepLE16(b, 22, time, 26);
  }

  /** Storing the size leaves the words before it as they were. */
  lemma KeepBelowSize(m: Entry, size: DWord)
    ensures var r := PutLE32(m, 28, size);
      LE16(r, 18) == LE16(m, 18) && LE16(r, 20) == LE16(m, 20) && LE16(r, 22) == LE16(m, 22) &&
      LE16(r, 24) == LE16(m, 24) && LE16(r, 26) == LE16(m, 26) && r[..18] == m[..18]
  {
    var r := PutLE32(m, 28, size);
    assert forall i :: 0 <= i < 28 ==> r[i] == m[i];
    SameWord(r, m, 18);
    SameWord(r, m, 20);
    SameWord(r, m, 22);
    SameWord(r, m, 24);
    SameWord(r, m, 26);
  }
}
