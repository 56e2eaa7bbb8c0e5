/**
 * Shared vocabulary of the Phat FAT engine: machine words, 512-byte sectors,
 * UTF-16 code units, the PhatState status codes and the little-endian field
 * accessors that stand in for the source's packed-struct overlays.
 */
module Common {

  type Byte = bv8
  type Word = bv16
  type DWord = bv32
  /** A UTF-16 code unit (WChar_t). */
  type WChar = bv16

  /** A wide string held without its terminator: no code unit is NUL. */
  predicate NoNul(name: seq<WChar>)
  {
    forall i :: 0 <= i < |name| ==> name[i] != 0
  }

  const SECTOR_SIZE: nat := 512
  /** Number of sectors the cache holds (PHAT_CACHED_SECTORS). */
  const CACHED_SECTORS: nat := 8
  /** Longest long file name in code units (MAX_LFN). */
  const MAX_LFN: nat := 255

  type Sector = s: seq<Byte> | |s| == 512 witness seq(512, _ => 0 as Byte)

  function ZeroSector(): (r: Sector)
    ensures forall i :: 0 <= i < 512 ==> r[i] == 0
  {
    seq(512, _ => 0 as Byte)
  }

  function Zeros(n: nat): (r: seq<Byte>)
    ensures |r| == n && forall i :: 0 <= i < n ==> r[i] == 0
  {
    seq(n, _ => 0 as Byte)
  }

  // Directory-entry attribute bits.
  const ATTRIB_READ_ONLY: Byte := 0x01
  const ATTRIB_HIDDEN: Byte := 0x02
  const ATTRIB_SYSTEM: Byte := 0x04
  const ATTRIB_VOLUME_ID: Byte := 0x08
  const ATTRIB_DIRECTORY: Byte := 0x10
  const ATTRIB_ARCHIVE: Byte := 0x20
  /** The attribute combination that marks a long-name entry. */
  const ATTRIB_LFN: Byte := 0x0F

  // Bits of the NT case byte of a short entry.
  const CI_EXTENSION_IS_LOWER: Byte := 0x08
  const CI_BASENAME_IS_LOWER: Byte := 0x10

  /** The status codes of the engine, in the order of their numeric values. */
  datatype PhatState =
    | OK
    | InvalidParameter
    | InternalError
    | DriverError
    | ReadFail
    | WriteFail
    | PartitionTableError
    | FSNotFat
    | FATError
    | FSError
    | FileNotFound
    | DirectoryNotFound
    | IsADirectory
    | NotADirectory
    | InvalidPath
    | EndOfDirectory
    | EndOfFATChain
    | EndOfFile
    | NotEnoughSpace
    | DirectoryNotEmpty
    | FileAlreadyExists
    | DirectoryAlreadyExists
    | ReadOnly
    | NameTooLong
    | BadFileName
    | CannotMakeFS
    | FSIsSubOptimal
    | DiskAlreadyInitialized
    | NoFreePartitions
    | PartitionTooSmall
    | NoMBR
    | PartitionLBAIsIllegal
    | PartitionOverlapped
    | PartitionIndexOutOfBound
    | NeedBigLBA

  /** Numeric value of a status; the sentinel PhatState_LastState is 35. */
  const LAST_STATE: nat := 35

  function StateValue(s: PhatState): (n: nat)
    ensures n < LAST_STATE
  {
    match s
    case OK => 0
    case InvalidParameter => 1
    case InternalError => 2
    case DriverError => 3
    case ReadFail => 4
    case WriteFail => 5
    case PartitionTableError => 6
    case FSNotFat => 7
    case FATError => 8
    case FSError => 9
    case FileNotFound => 10
    case DirectoryNotFound => 11
    case IsADirectory => 12
    case NotADirectory => 13
    case InvalidPath => 14
    case EndOfDirectory => 15
    case EndOfFATChain => 16
    case EndOfFile => 17
    case NotEnoughSpace => 18
    case DirectoryNotEmpty => 19
    case FileAlreadyExists => 20
    case DirectoryAlreadyExists => 21
    case ReadOnly => 22
    case NameTooLong => 23
    case BadFileName => 24
    case CannotMakeFS => 25
    case FSIsSubOptimal => 26
    case DiskAlreadyInitialized => 27
    case NoFreePartitions => 28
    case PartitionTooSmall => 29
    case NoMBR => 30
    case PartitionLBAIsIllegal => 31
    case PartitionOverlapped => 32
    case PartitionIndexOutOfBound => 33
    case NeedBigLBA => 34
  }

  datatype Option<T> = None | Some(value: T)

  // ---------------------------------------------------------------------
  // Little-endian fields inside byte sequences.

  function LE16(s: seq<Byte>, off: nat): Word
    requires off + 2 <= |s|
  {
    (s[off + 1] as Word << 8) | s[off] as Word
  }

  function LE32(s: seq<Byte>, off: nat): DWord
    requires off + 4 <= |s|
  {
    (s[off + 3] as DWord << 24) | (s[off + 2] as DWord << 16)
      | (s[off + 1] as DWord << 8) | s[off] as DWord
  }

  function Lo8(w: Word): Byte { (w & 0xFF) as Byte }
  function Hi8(w: Word): Byte { ((w >> 8) & 0xFF) as Byte }

  /** Stores a 16-bit value at off, low byte first. */
  function PutLE16(s: seq<Byte>, off: nat, w: Word): (r: seq<Byte>)
    requires off + 2 <= |s|
    ensures |r| == |s| && LE16(r, off) == w
    ensures forall i :: 0 <= i < |s| && i != off && i != off + 1 ==> r[i] == s[i]
  {
    JoinWord(w);
    s[off := Lo8(w)][off + 1 := Hi8(w)]
  }

  /** The two bytes of a word, put together little-endian, give it back. */
  lemma JoinWord(w: Word)
    ensures (Hi8(w) as Word << 8) | Lo8(w) as Word == w
  {
  }

  function Byte32(d: DWord, k: nat): Byte
    requires k < 4
  {
    if k == 0 then (d & 0xFF) as Byte
    else if k == 1 then ((d >> 8) & 0xFF) as Byte
    else if k == 2 then ((d >> 16) & 0xFF) as Byte
    else ((d >> 24) & 0xFF) as Byte
  }

  /** Stores a 32-bit value at off, low byte first. */
  function PutLE32(s: seq<Byte>, off: nat, d: DWord): (r: seq<Byte>)
    requires off + 4 <= |s|
    ensures |r| == |s| && LE32(r, off) == d
    ensures forall i :: 0 <= i < |s| && !(off <= i < off + 4) ==> r[i] == s[i]
  {
    JoinDWord(d);
    s[off := Byte32(d, 0)][off + 1 := Byte32(d, 1)][off + 2 := Byte32(d, 2)][off + 3 := Byte32(d, 3)]
  }

  /** The four bytes of a double word, put together little-endian, give it back. */
  lemma JoinDWord(d: DWord)
    ensures (Byte32(d, 3) as DWord << 24) | (Byte32(d, 2) as DWord << 16) | (Byte32(d, 1) as DWord << 8) | Byte32(d, 0) as DWord == d
  {
  }

  /** Splitting a word built from two bytes gives the bytes back. */
  lemma SplitWord(lo: Byte, hi: Byte)
    ensures Lo8((hi as Word << 8) | lo as Word) == lo && Hi8((hi as Word << 8) | lo as Word) == hi
  {
  }

  /** Writing back the value just read changes nothing. */
  lemma PutLE16Same(s: seq<Byte>, off: nat)
    requires off + 2 <= |s|
    ensures PutLE16(s, off, LE16(s, off)) == s
  {
    SplitWord(s[off], s[off + 1]);
    var r := PutLE16(s, off, LE16(s, off));
    assert r[off] == s[off] && r[off + 1] == s[off + 1];
    assert forall i :: 0 <= i < |s| ==> r[i] == s[i];
  }

  /** Bytes from -> to as an ASCII/byte string, for fixed signatures. */
  predicate BytesAt(s: seq<Byte>, off: nat, sig: seq<Byte>)
  {
    off + |sig| <= |s| && s[off..off + |sig|] == sig
  }

  // ---------------------------------------------------------------------
  // Sequences of sectors as one byte stream.

  /** The sectors laid end to end: byte k is byte k % 512 of sector k / 512. */
  function Flatten(ss: seq<Sector>): (r: seq<Byte>)
    ensures |r| == 512 * |ss|
  {
    seq(512 * |ss|, k requires 0 <= k < 512 * |ss| => ss[k / 512][k % 512])
  }

  // ---------------------------------------------------------------------
  // Small arithmetic helpers.

  function MinNat(a: nat, b: nat): nat { if a < b then a else b }
  function MaxNat(a: nat, b: nat): nat { if a < b then b else a }
  lemma BelowHalf(y: DWord)
    requires y as nat < 0x8000_0000
    ensures y < 0x8000_0000
  {
  }

  lemma Doubled(y: DWord)
    requires y < 0x8000_0000
    ensures (y << 1) as nat == 2 * (y as nat)
    ensures ((y << 1) + 1) as nat == 2 * (y as nat) + 1
  {
  }

  /** Every number below 2^32 is the value of some double word, built bit by bit. */
  lemma {:induction false} DWordOf(n: nat) returns (x: DWord)
    requires n < 0x1_0000_0000
    ensures x as nat == n
    decreases n
  {
    if n == 0 {
      x := 0;
    } else {
      var y := DWordOf(n / 2);
      BelowHalf(y);
      Doubled(y);
      x := if n % 2 == 0 then y << 1 else (y << 1) + 1;
    }
  }

  /** A cluster number below 2^32 survives being stored in a 32-bit field. */
  lemma DWordRoundTrip(n: nat)
    requires n < 0x1_0000_0000
    ensures (n as DWord) as nat == n
  {
    var x := DWordOf(n);
    assert (x as nat) as DWord == x;
  }
}
