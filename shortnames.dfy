/**
 * 8.3 short names: the fit test Phat_IsFit83, the alias generator
 * Phat_Gen83NameForLongFilename, and the name Phat_NextDirItem displays for
 * a short entry that has no long name (its 8.3 bytes, the NT case bits and
 * the CP437 to UTF-16 table).
 *
 * The fit test of the source decides whether a letter belongs to the base
 * name or to the extension by its position (below 8 or not) instead of by
 * the dot. Both splits are modelled, chosen by asWritten; the display round
 * trip holds for the split at the last dot and fails for the positional one.
 */
module ShortNames {
  import opened Common

  const SPACE: Byte := 0x20
  const DOT: WChar := 0x2E
  const UNDERSCORE: Byte := 0x5F
  const TILDE: Byte := 0x7E
  const DIGIT_ZERO: Byte := 0x30
  /** The base name used when an alias would start with a space. */
  const NONAME: seq<Byte> := [0x4E, 0x4F, 0x4E, 0x41, 0x4D, 0x45]
  /** The last numeric tail the alias generator tries. */
  const MAX_ALIAS_INDEX: nat := 999999

  // ---------------------------------------------------------------------
  // ASCII case mapping (toupper/tolower in the C locale).

  predicate IsUpperW(c: WChar) { 0x41 <= c <= 0x5A }
  predicate IsLowerW(c: WChar) { 0x61 <= c <= 0x7A }

  function UpperW(c: WChar): (r: WChar)
    ensures IsLowerW(c) ==> IsUpperW(r) && r == c - 0x20
    ensures !IsLowerW(c) ==> r == c
  {
    if IsLowerW(c) then c - 0x20 else c
  }

  function LowerB(b: Byte): (r: Byte)
    ensures 0x41 <= b <= 0x5A ==> r == b + 0x20
    ensures !(0x41 <= b <= 0x5A) ==> r == b
  {
    if 0x41 <= b <= 0x5A then b + 0x20 else b
  }

  /** The byte the source stores for a code unit: its upper-case form cast to 8 bits. */
  function StoredByte(c: WChar): Byte
  {
    (UpperW(c) & 0xFF) as Byte
  }

  // ---------------------------------------------------------------------
  // Code page 437 (Cp437_To_Unicode).

  /** UTF-16 code units of the CP437 bytes 0x80..0xFF. */
  const CP437_UPPER_PART: seq<WChar> := [
    0x00c7, 0x00fc, 0x00e9, 0x00e2, 0x00e4, 0x00e0, 0x00e5, 0x00e7,
    0x00ea, 0x00eb, 0x00e8, 0x00ef, 0x00ee, 0x00ec, 0x00c4, 0x00c5,
    0x00c9, 0x00e6, 0x00c6, 0x00f4, 0x00f6, 0x00f2, 0x00fb, 0x00f9,
    0x00ff, 0x00d6, 0x00dc, 0x00a2, 0x00a3, 0x00a5, 0x20a7, 0x0192,
    0x00e1, 0x00ed, 0x00f3, 0x00fa, 0x00f1, 0x00d1, 0x00aa, 0x00ba,
    0x00bf, 0x2310, 0x00ac, 0x00bd, 0x00bc, 0x00a1, 0x00ab, 0x00bb,
    0x2591, 0x2592, 0x2593, 0x2502, 0x2524, 0x2561, 0x2562, 0x2556,
    0x2555, 0x2563, 0x2551, 0x2557, 0x255d, 0x255c, 0x255b, 0x2510,
    0x2514, 0x2534, 0x252c, 0x251c, 0x2500, 0x253c, 0x255e, 0x255f,
    0x255a, 0x2554, 0x2569, 0x2566, 0x2560, 0x2550, 0x256c, 0x2567,
    0x2568, 0x2564, 0x2565, 0x2559, 0x2558, 0x2552, 0x2553, 0x256b,
    0x256a, 0x2518, 0x250c, 0x2588, 0x2584, 0x258c, 0x2590, 0x2580,
    0x03b1, 0x00df, 0x0393, 0x03c0, 0x03a3, 0x03c3, 0x00b5, 0x03c4,
    0x03a6, 0x0398, 0x03a9, 0x03b4, 0x221e, 0x03c6, 0x03b5, 0x2229,
    0x2261, 0x00b1, 0x2265, 0x2264, 0x2320, 0x2321, 0x00f7, 0x2248,
    0x00b0, 0x2219, 0x00b7, 0x221a, 0x207f, 0x00b2, 0x25a0, 0x00a0
  ]

  /** ASCII bytes map to themselves; the upper half goes through the table. */
  function Cp437ToUnicode(b: Byte): (r: WChar)
    ensures b < 0x80 ==> r == b as WChar
  {
    if b < 0x80 then b as WChar else CP437_UPPER_PART[(b - 0x80) as nat]
  }

  // ---------------------------------------------------------------------
  // The fit test (Phat_IsFit83).

  /** Index of the last '.' before position n, or -1. */
  function DotBefore(name: seq<WChar>, n: nat): (d: int)
    requires n <= |name|
    ensures -1 <= d < n
    ensures d >= 0 ==> name[d] == DOT
    ensures forall i :: d < i < n ==> name[i] != DOT
  {
    if n == 0 then -1
    else if name[n - 1] == DOT then n - 1
    else DotBefore(name, n - 1)
  }

  /** Index of the last '.', or -1. */
  function LastDot(name: seq<WChar>): (d: int)
    ensures -1 <= d < |name|
    ensures d >= 0 ==> name[d] == DOT
    ensures forall i :: d < i < |name| ==> name[i] != DOT
  {
    DotBefore(name, |name|)
  }

  /** Where the base name ends for the case test: position 8 as written, the last dot when corrected. */
  function CaseSplit(name: seq<WChar>, asWritten: bool): nat
  {
    if asWritten then 8 else if LastDot(name) < 0 then |name| else LastDot(name)
  }

  predicate HasUpper(name: seq<WChar>, lo: nat, hi: nat)
  {
    exists i :: lo <= i < hi && i < |name| && IsUpperW(name[i])
  }

  predicate HasLower(name: seq<WChar>, lo: nat, hi: nat)
  {
    exists i :: lo <= i < hi && i < |name| && IsLowerW(name[i])
  }

  /** No space and nothing at or above 128. */
  predicate CharsOk(name: seq<WChar>)
  {
    forall i :: 0 <= i < |name| ==> name[i] != SPACE as WChar && name[i] < 0x80
  }

  /** Every dot at index 8 or below with at most three code units after it. */
  predicate DotsOk(name: seq<WChar>)
  {
    forall i :: 0 <= i < |name| && name[i] == DOT ==> i <= 8 && |name| - i <= 4
  }

  /** Neither the part before split nor the part from split on mixes upper and lower case. */
  predicate CaseOk(name: seq<WChar>, split: nat)
  {
    !(HasUpper(name, 0, split) && HasLower(name, 0, split))
    && !(HasUpper(name, split, |name|) && HasLower(name, split, |name|))
  }

  /** The names Phat_IsFit83 accepts. */
  predicate Fits83(name: seq<WChar>, asWritten: bool)
  {
    1 <= |name| <= 11 && CharsOk(name) && DotsOk(name)
    && (LastDot(name) < 0 ==> |name| <= 8)
    && CaseOk(name, CaseSplit(name, asWritten))
  }

  /** The lengths an 8.3 name allows: a base of at most 8 and an extension of at most 3. */
  predicate Shape83(name: seq<WChar>)
  {
    var d := LastDot(name);
    if d < 0 then |name| <= 8 else d <= 8 && |name| - d <= 4
  }

  /** The 8.3 buffer with the first nb base bytes and the first ne extension bytes filled in. */
  function Partial(name: seq<WChar>, d: int, nb: nat, ne: nat): (r: seq<Byte>)
    requires nb <= 8 && nb <= |name| && ne <= 3 && (ne > 0 ==> 0 <= d && d + ne < |name|)
    ensures |r| == 11
  {
    seq(11, p requires 0 <= p < 11 =>
      if p < nb then StoredByte(name[p])
      else if 8 <= p < 8 + ne then StoredByte(name[d + 1 + (p - 8)])
      else SPACE)
  }

  /** The 8.3 bytes of an accepted name: the part before the last dot and the part after it, upper-cased and space-padded. */
  function Sfn83(name: seq<WChar>): (r: seq<Byte>)
    requires Shape83(name)
    ensures |r| == 11
  {
    var d := LastDot(name);
    if d < 0 then Partial(name, d, |name|, 0) else Partial(name, d, d, |name| - d - 1)
  }

  /** The NT case bits: a part that contains a lower-case letter is flagged as lower case. */
  function CaseInfo(name: seq<WChar>, asWritten: bool): (r: Byte)
    ensures r & CI_BASENAME_IS_LOWER != 0 <==> HasLower(name, 0, CaseSplit(name, asWritten))
    ensures r & CI_EXTENSION_IS_LOWER != 0 <==> HasLower(name, CaseSplit(name, asWritten), |name|)
  {
    var split := CaseSplit(name, asWritten);
    (if HasLower(name, 0, split) then CI_BASENAME_IS_LOWER else 0)
      | (if HasLower(name, split, |name|) then CI_EXTENSION_IS_LOWER else 0)
  }

  lemma HasStep(name: seq<WChar>, lo: nat, hi: nat)
    requires hi < |name|
    ensures HasUpper(name, lo, hi + 1) == (HasUpper(name, lo, hi) || (lo <= hi && IsUpperW(name[hi])))
    ensures HasLower(name, lo, hi + 1) == (HasLower(name, lo, hi) || (lo <= hi && IsLowerW(name[hi])))
  {
  }

  /** The case flags of Phat_IsFit83's loop after i code units, with the base name ending at split. */
  ghost predicate CaseFlags(name: seq<WChar>, split: nat, i: nat, bnUpper: bool, bnLower: bool, extUpper: bool, extLower: bool)
  {
    bnUpper == HasUpper(name, 0, MinNat(split, i)) && bnLower == HasLower(name, 0, MinNat(split, i))
    && extUpper == HasUpper(name, split, i) && extLower == HasLower(name, split, i)
  }

  /** Code unit i sets the upper or lower flag of the part it belongs to. */
  lemma CaseFlagsStep(name: seq<WChar>, split: nat, i: nat, bnUpper: bool, bnLower: bool, extUpper: bool, extLower: bool)
    requires i < |name| && CaseFlags(name, split, i, bnUpper, bnLower, extUpper, extLower)
    ensures var u, l := IsUpperW(name[i]), IsLowerW(name[i]);
      !(u && l) &&
      CaseFlags(name, split, i + 1, bnUpper || (i < split && u), bnLower || (i < split && l),
        extUpper || (i >= split && u), extLower || (i >= split && l))
  {
    HasStep(name, 0, i);
    HasStep(name, split, i);
  }

  lemma HasWider(name: seq<WChar>, lo: nat, hi: nat, hi': nat)
    requires hi <= hi'
    ensures HasUpper(name, lo, hi) ==> HasUpper(name, lo, hi')
    ensures HasLower(name, lo, hi) ==> HasLower(name, lo, hi')
  {
  }

  lemma HasClip(name: seq<WChar>, lo: nat, hi: nat)
    ensures HasUpper(name, lo, hi) == HasUpper(name, lo, MinNat(hi, |name|))
    ensures HasLower(name, lo, hi) == HasLower(name, lo, MinNat(hi, |name|))
  {
  }

  /** The scan for the last dot that the corrected fit test does first. */
  method FindLastDot(name: seq<WChar>) returns (d: int)
    ensures d == LastDot(name)
  {
    d := -1;
    var i := 0;
    while i < |name|
      invariant 0 <= i <= |name|
      invariant d == DotBefore(name, i)
    {
      if name[i] == DOT {
        d := i;
      }
      i := i + 1;
    }
  }

  /** Code unit k is neither a space nor at or above 128, and a dot there is at index 8 or below with at most three code units after it. */
  predicate UnitOk(name: seq<WChar>, k: nat)
    requires k < |name|
  {
    name[k] != SPACE as WChar && name[k] < 0x80 && (name[k] == DOT ==> k <= 8 && |name| - k <= 4)
  }

  /** The first i code units pass the character and dot tests. */
  ghost predicate PassedTo(name: seq<WChar>, i: nat)
    requires i <= |name|
  {
    i == 0 || (PassedTo(name, i - 1) && UnitOk(name, i - 1))
  }

  lemma {:induction false} PassedAll(name: seq<WChar>, i: nat)
    requires i <= |name| && PassedTo(name, i)
    ensures forall k :: 0 <= k < i ==> UnitOk(name, k)
  {
    if i > 0 {
      PassedAll(name, i - 1);
    }
  }

  /** What the checking loop of Phat_IsFit83 knows after the first i code units. */
  ghost predicate Scanned(name: seq<WChar>, split: nat, i: nat, dot: int, bnUpper: bool, bnLower: bool, extUpper: bool, extLower: bool)
  {
    i <= |name| && PassedTo(name, i)
    && dot == DotBefore(name, i)
    && CaseFlags(name, split, i, bnUpper, bnLower, extUpper, extLower)
    && !(bnUpper && bnLower) && !(extUpper && extLower)
  }

  /** A code unit that passes every test extends the scanned prefix by one. */
  lemma ScanStep(name: seq<WChar>, split: nat, i: nat, dot: int, bnUpper: bool, bnLower: bool, extUpper: bool, extLower: bool,
                 dot': int, bnUpper': bool, bnLower': bool, extUpper': bool, extLower': bool)
    requires i < |name| && Scanned(name, split, i, dot, bnUpper, bnLower, extUpper, extLower)
    requires UnitOk(name, i)
    requires dot' == if name[i] == DOT then i else dot
    requires var u, l := IsUpperW(name[i]), IsLowerW(name[i]);
      bnUpper' == (bnUpper || (i < split && u)) && bnLower' == (bnLower || (i < split && l))
      && extUpper' == (extUpper || (i >= split && u)) && extLower' == (extLower || (i >= split && l))
    requires !(bnUpper' && bnLower') && !(extUpper' && extLower')
    ensures Scanned(name, split, i + 1, dot', bnUpper', bnLower', extUpper', extLower')
  {
    CaseFlagsStep(name, split, i, bnUpper, bnLower, extUpper, extLower);
  }

  /** A space, a code unit at or above 128 or a misplaced dot rules the name out. */
  lemma ScanRejects(name: seq<WChar>, split: nat, i: nat)
    requires i < |name|
    requires name[i] == SPACE as WChar || name[i] >= 0x80 || (name[i] == DOT && (i > 8 || |name| - i > 4))
    ensures !(CharsOk(name) && DotsOk(name) && CaseOk(name, split))
  {
  }

  /** A part that already mixes upper and lower case rules the name out. */
  lemma MixRejects(name: seq<WChar>, split: nat, i: nat, bnUpper: bool, bnLower: bool, extUpper: bool, extLower: bool)
    requires i < |name| && CaseFlags(name, split, i + 1, bnUpper, bnLower, extUpper, extLower)
    requires (bnUpper && bnLower) || (extUpper && extLower)
    ensures !CaseOk(name, split)
  {
    HasWider(name, 0, MinNat(split, i + 1), split);
    HasWider(name, split, i + 1, |name|);
  }

  /** A name scanned to its end passes every test, and the flags are those of its two parts. */
  lemma ScanAccepts(name: seq<WChar>, split: nat, dot: int, bnUpper: bool, bnLower: bool, extUpper: bool, extLower: bool)
    requires Scanned(name, split, |name|, dot, bnUpper, bnLower, extUpper, extLower)
    ensures CharsOk(name) && DotsOk(name) && CaseOk(name, split) && dot == LastDot(name)
    ensures bnLower == HasLower(name, 0, split) && extLower == HasLower(name, split, |name|)
  {
    PassedAll(name, |name|);
    forall k | 0 <= k < |name|
      ensures name[k] != SPACE as WChar && name[k] < 0x80 && (name[k] == DOT ==> k <= 8 && |name| - k <= 4)
    {
      assert UnitOk(name, k);
    }
    HasClip(name, 0, split);
  }

  /**
   * The checking loop of Phat_IsFit83: it stops at the first space, code
   * unit at or above 128, misplaced dot or case mix, and otherwise reports
   * the last dot and whether each part holds a lower-case letter.
   */
  method ScanFit(filename: seq<WChar>, split: nat) returns (ok: bool, dot: int, bnLower: bool, extLower: bool)
    ensures ok == (CharsOk(filename) && DotsOk(filename) && CaseOk(filename, split))
    ensures ok ==> dot == LastDot(filename)
    ensures ok ==> bnLower == HasLower(filename, 0, split) && extLower == HasLower(filename, split, |filename|)
  {
    var length := |filename|;
    var bnUpper, extUpper := false, false;
    bnLower, extLower := false, false;
    dot := -1;
    var i := 0;
    while i < length
      invariant Scanned(filename, split, i, dot, bnUpper, bnLower, extUpper, extLower)
    {
      ghost var (dot0, bu, bl, eu, el) := (dot, bnUpper, bnLower, extUpper, extLower);
      var ch := filename[i];
      if ch == SPACE as WChar {
        ScanRejects(filename, split, i);
        return false, dot, bnLower, extLower;
      }
      var upper, lower := IsUpperW(ch), IsLowerW(ch);
      // A letter sets the flag of the part it is in: the base name before split, the extension from it.
      bnUpper, bnLower := bnUpper || (i < split && upper), bnLower || (i < split && lower);
      extUpper, extLower := extUpper || (i >= split && upper), extLower || (i >= split && lower);
      // A letter is neither a dot nor at or above 128.
      if !upper && !lower {
        if ch == DOT {
          dot := i;
          if i > 8 || length - dot > 4 {
            ScanRejects(filename, split, i);
            return false, dot, bnLower, extLower;
          }
        } else if ch >= 0x80 {
          ScanRejects(filename, split, i);
          return false, dot, bnLower, extLower;
        }
      }
      if (bnUpper && bnLower) || (extUpper && extLower) {
        CaseFlagsStep(filename, split, i, bu, bl, eu, el);
        MixRejects(filename, split, i, bnUpper, bnLower, extUpper, extLower);
        return false, dot, bnLower, extLower;
      }
      ScanStep(filename, split, i, dot0, bu, bl, eu, el, dot, bnUpper, bnLower, extUpper, extLower);
      i := i + 1;
    }
    ScanAccepts(filename, split, dot, bnUpper, bnLower, extUpper, extLower);
    ok := true;
  }

  /** The filling loops of Phat_IsFit83: the base bytes, then the extension bytes after the dot. */
  method FillSfn(filename: seq<WChar>, dot: int) returns (sfn83: seq<Byte>)
    requires Shape83(filename) && dot == LastDot(filename)
    ensures sfn83 == Sfn83(filename)
  {
    var length := |filename|;
    var baseEnd := if dot < 0 then length else dot;
    sfn83 := Partial(filename, dot, 0, 0);
    var j := 0;
    while j < baseEnd
      invariant 0 <= j <= baseEnd
      invariant sfn83 == Partial(filename, dot, j, 0)
    {
      sfn83 := sfn83[j := StoredByte(filename[j])];
      j := j + 1;
    }
    if dot >= 0 {
      j := dot + 1;
      while j < length
        invariant dot + 1 <= j <= length
        invariant sfn83 == Partial(filename, dot, dot, j - dot - 1)
      {
        sfn83 := sfn83[8 + (j - (dot + 1)) := StoredByte(filename[j])];
        j := j + 1;
      }
    }
  }

  /**
   * Phat_IsFit83. filename is the name without its terminator. When the
   * name fits, the 8.3 bytes and the case bits are those of Sfn83 and
   * CaseInfo.
   */
  method IsFit83(filename: seq<WChar>, asWritten: bool) returns (fits: bool, sfn83: seq<Byte>, caseInfo: Byte)
    ensures fits == Fits83(filename, asWritten)
    ensures fits ==> Shape83(filename) && sfn83 == Sfn83(filename) && caseInfo == CaseInfo(filename, asWritten)
  {
    sfn83, caseInfo := Partial(filename, -1, 0, 0), 0;
    var length := |filename|;
    if length == 0 || length > 11 {
      return false, sfn83, caseInfo;
    }
    var split: nat := 8;
    if !asWritten {
      var last := FindLastDot(filename);
      split := if last < 0 then length else last;
    }
    var ok, dot, bnLower, extLower := ScanFit(filename, split);
    if !ok {
      return false, sfn83, caseInfo;
    }
    if dot < 0 && length > 8 {
      return false, sfn83, caseInfo;
    }
    if bnLower { caseInfo := caseInfo | CI_BASENAME_IS_LOWER; }
    if extLower { caseInfo := caseInfo | CI_EXTENSION_IS_LOWER; }
    CaseBits(bnLower, extLower);
    if dot >= 0 {
      assert filename[dot] == DOT;
    }
    sfn83 := FillSfn(filename, dot);
    fits := true;
  }

  lemma CaseBits(b: bool, e: bool)
    ensures var r: Byte := (if b then CI_BASENAME_IS_LOWER else 0) | (if e then CI_EXTENSION_IS_LOWER else 0);
      r == (0 | (if b then CI_BASENAME_IS_LOWER else 0)) | (if e then CI_EXTENSION_IS_LOWER else 0)
  {
  }

  // ---------------------------------------------------------------------
  // The name displayed for a short entry (the 8.3 branch of Phat_NextDirItem).

  /** Number of bytes kept of a space-padded field: up to its last non-space byte before the first NUL. */
  function TrimEnd(s: seq<Byte>): (r: nat)
    ensures r <= |s|
    ensures forall j :: 0 <= j < r ==> s[j] != 0
    ensures r > 0 ==> s[r - 1] != SPACE
  {
    if s == [] || s[0] == 0 then 0
    else
      var t := TrimEnd(s[1..]);
      if t > 0 then t + 1 else if s[0] != SPACE then 1 else 0
  }

  function ShowByte(b: Byte, lower: bool): WChar
  {
    Cp437ToUnicode(if lower then LowerB(b) else b)
  }

  /** n bytes of sfn83 from lo, each lower-cased if lower is set and mapped through CP437. */
  function ShownPart(sfn83: seq<Byte>, lo: nat, n: nat, lower: bool): (r: seq<WChar>)
    requires lo + n <= |sfn83|
    ensures |r| == n
  {
    seq(n, i requires 0 <= i < n => ShowByte(sfn83[lo + i], lower))
  }

  /**
   * The displayed name: the base bytes up to the last non-space one (at
   * least one byte), then, if byte 8 is not a space, a dot and the extension
   * bytes up to the last non-space one; each part lower-cased when its case
   * bit is set, then mapped through CP437.
   */
  function DisplayName(sfn83: seq<Byte>, caseInfo: Byte): (r: seq<WChar>)
    requires |sfn83| == 11
    ensures 1 <= |r| <= 12
  {
    DisplayParts(sfn83, caseInfo, MaxNat(TrimEnd(sfn83[..8]), 1), TrimEnd(sfn83[8..]))
  }

  /** DisplayName with the shown lengths of the base and the extension given. */
  function DisplayParts(sfn83: seq<Byte>, caseInfo: Byte, baseLen: nat, extLen: nat): (r: seq<WChar>)
    requires |sfn83| == 11 && baseLen <= 8 && extLen <= 3
    ensures |r| == if sfn83[8] == SPACE then baseLen else baseLen + 1 + extLen
  {
    var base := ShownPart(sfn83, 0, baseLen, caseInfo & CI_BASENAME_IS_LOWER != 0);
    if sfn83[8] == SPACE then base
    else base + [DOT] + ShownPart(sfn83, 8, extLen, caseInfo & CI_EXTENSION_IS_LOWER != 0)
  }

  /**
   * The scanning loop of the display path over sfn83[lo..hi]: the index of
   * the last non-space byte before the first NUL, or keep if there is none.
   */
  method LastShown(sfn83: seq<Byte>, lo: nat, hi: nat, keep: nat) returns (copyTo: nat)
    requires lo <= hi <= |sfn83|
    ensures copyTo == if TrimEnd(sfn83[lo..hi]) == 0 then keep else lo + TrimEnd(sfn83[lo..hi]) - 1
  {
    copyTo := keep;
    var i := lo;
    while i < hi
      invariant lo <= i <= hi
      invariant forall k :: lo <= k < i ==> sfn83[k] != 0
      invariant copyTo == if TrimEnd(sfn83[lo..i]) == 0 then keep else lo + TrimEnd(sfn83[lo..i]) - 1
    {
      if sfn83[i] == 0 {
        TrimEndStops(sfn83, lo, i, hi);
        return;
      }
      TrimEndGrows(sfn83, lo, i);
      if sfn83[i] != SPACE {
        copyTo := i;
      }
      i := i + 1;
    }
  }

  /** The copying loop of the display path: count bytes from sfn83[lo] shown into buffer[at..]. */
  method CopyShown(sfn83: seq<Byte>, lo: nat, count: nat, lower: bool, buffer: array<WChar>, at: nat)
    requires lo + count <= |sfn83| && at + count <= buffer.Length
    modifies buffer
    ensures buffer[at..at + count] == ShownPart(sfn83, lo, count, lower)
    ensures buffer[..at] == old(buffer[..at]) && buffer[at + count..] == old(buffer[at + count..])
  {
    var i := 0;
    while i < count
      invariant 0 <= i <= count
      invariant forall k :: 0 <= k < buffer.Length ==>
        buffer[k] == if at <= k < at + i then ShowByte(sfn83[lo + (k - at)], lower) else old(buffer[k])
    {
      var ch := sfn83[lo + i];
      if lower {
        ch := LowerB(ch);
      }
      buffer[at + i] := Cp437ToUnicode(ch);
      i := i + 1;
    }
  }

  /**
   * The extension half of the rendering: a dot at position at, then the
   * shown extension bytes. copyTo is the base scan's result, which the
   * source's extension scan starts from.
   */
  method RenderExtension(sfn83: seq<Byte>, caseInfo: Byte, buffer: array<WChar>, at: nat, copyTo: nat) returns (length: nat)
    requires |sfn83| == 11 && copyTo < 8 && at + 4 < buffer.Length
    modifies buffer
    ensures length == at + 1 + TrimEnd(sfn83[8..])
    ensures buffer[at..length] == [DOT] + ShownPart(sfn83, 8, TrimEnd(sfn83[8..]), caseInfo & CI_EXTENSION_IS_LOWER != 0)
    ensures buffer[..at] == old(buffer[..at]) && buffer[length..] == old(buffer[length..])
  {
    buffer[at] := DOT;
    var extTo := LastShown(sfn83, 8, 11, copyTo);
    assert sfn83[8..11] == sfn83[8..];
    var extLen := if extTo >= 8 then extTo - 7 else 0;
    ghost var mid := buffer[..];
    CopyShown(sfn83, 8, extLen, caseInfo & CI_EXTENSION_IS_LOWER != 0, buffer, at + 1);
    length := at + 1 + extLen;
    assert buffer[at..length] == [buffer[at]] + buffer[at + 1..length];
    assert buffer[..at] == mid[..at];
  }

  /** The base half of the rendering: the shown base bytes from position 0; copyTo is the index of the last one. */
  method RenderBase(sfn83: seq<Byte>, caseInfo: Byte, buffer: array<WChar>) returns (copyTo: nat)
    requires |sfn83| == 11 && buffer.Length >= 8
    modifies buffer
    ensures copyTo < 8 && copyTo + 1 == MaxNat(TrimEnd(sfn83[..8]), 1)
    ensures buffer[..copyTo + 1] == ShownPart(sfn83, 0, copyTo + 1, caseInfo & CI_BASENAME_IS_LOWER != 0)
    ensures buffer[copyTo + 1..] == old(buffer[copyTo + 1..])
  {
    copyTo := LastShown(sfn83, 0, 8, 0);
    assert sfn83[0..8] == sfn83[..8];
    CopyShown(sfn83, 0, copyTo + 1, caseInfo & CI_BASENAME_IS_LOWER != 0, buffer, 0);
    assert buffer[0..copyTo + 1] == buffer[..copyTo + 1];
  }

  /**
   * The rendering of Phat_NextDirItem for a short entry without a long
   * name, writing into the cursor's name buffer from position 0 followed by
   * a terminator.
   */
  method RenderShortName(sfn83: seq<Byte>, caseInfo: Byte, buffer: array<WChar>) returns (length: nat)
    requires |sfn83| == 11 && buffer.Length > 12
    modifies buffer
    ensures length == |DisplayName(sfn83, caseInfo)|
    ensures buffer[..length] == DisplayName(sfn83, caseInfo) && buffer[length] == 0
    ensures buffer[length + 1..] == old(buffer[length + 1..])
  {
    ghost var orig := buffer[..];
    var copyTo := RenderBase(sfn83, caseInfo, buffer);
    length := copyTo + 1;
    if sfn83[8] != SPACE {
      ghost var mid := buffer[..];
      length := RenderExtension(sfn83, caseInfo, buffer, copyTo + 1, copyTo);
      SuffixFrom(mid, orig, copyTo + 1, length);
    }
    RenderedName(sfn83, caseInfo, buffer[..], copyTo + 1, TrimEnd(sfn83[8..]), length);
    ghost var last := buffer[..];
    buffer[length] := 0;
    SetAt(last, length, 0);
    SuffixFrom(last, orig, length, length + 1);
  }

  /** The base part and, unless the extension is blank, the dot and extension part make up the displayed name. */
  lemma RenderedName(sfn83: seq<Byte>, caseInfo: Byte, s: seq<WChar>, baseLen: nat, extLen: nat, length: nat)
    requires |sfn83| == 11 && 1 <= baseLen <= 8 && extLen <= 3 && baseLen <= length <= |s|
    requires s[..baseLen] == ShownPart(sfn83, 0, baseLen, caseInfo & CI_BASENAME_IS_LOWER != 0)
    requires sfn83[8] == SPACE ==> length == baseLen
    requires sfn83[8] != SPACE ==> length == baseLen + 1 + extLen
    requires sfn83[8] != SPACE ==>
      s[baseLen..length] == [DOT] + ShownPart(sfn83, 8, extLen, caseInfo & CI_EXTENSION_IS_LOWER != 0)
    ensures s[..length] == DisplayParts(sfn83, caseInfo, baseLen, extLen)
  {
    if sfn83[8] == SPACE {
      assert s[..length] == s[..baseLen];
    } else {
      var base := ShownPart(sfn83, 0, baseLen, caseInfo & CI_BASENAME_IS_LOWER != 0);
      var ext := ShownPart(sfn83, 8, extLen, caseInfo & CI_EXTENSION_IS_LOWER != 0);
      assert s[..length] == s[..baseLen] + s[baseLen..length];
      assert base + [DOT] + ext == base + ([DOT] + ext);
    }
  }

  lemma SuffixFrom<T>(a: seq<T>, b: seq<T>, m: nat, n: nat)
    requires m <= n <= |a| == |b| && a[m..] == b[m..]
    ensures a[n..] == b[n..]
  {
    assert a[n..] == a[m..][n - m..];
    assert b[n..] == b[m..][n - m..];
  }

  lemma SetAt<T>(s: seq<T>, n: nat, x: T)
    requires n < |s|
    ensures s[n := x][..n] == s[..n] && s[n := x][n + 1..] == s[n + 1..]
  {
  }

  /** Appending a byte to a field without NULs. */
  lemma {:induction false} TrimEndSnoc(s: seq<Byte>, b: Byte)
    requires forall k :: 0 <= k < |s| ==> s[k] != 0
    requires b != 0
    ensures TrimEnd(s + [b]) == if b != SPACE then |s| + 1 else TrimEnd(s)
  {
    if s != [] {
      assert (s + [b])[1..] == s[1..] + [b];
      TrimEndSnoc(s[1..], b);
    }
  }

  /** Scanning one more byte of sfn83[lo..]: a visible byte is the new end. */
  lemma TrimEndGrows(sfn83: seq<Byte>, lo: nat, i: nat)
    requires lo <= i < |sfn83| && sfn83[i] != 0
    requires forall k :: lo <= k < i ==> sfn83[k] != 0
    ensures TrimEnd(sfn83[lo..i + 1]) == if sfn83[i] != SPACE then i + 1 - lo else TrimEnd(sfn83[lo..i])
  {
    TrimEndSnoc(sfn83[lo..i], sfn83[i]);
    assert sfn83[lo..i + 1] == sfn83[lo..i] + [sfn83[i]];
  }

  /** Scanning sfn83[lo..hi] stops at a NUL at i. */
  lemma TrimEndStops(sfn83: seq<Byte>, lo: nat, i: nat, hi: nat)
    requires lo <= i < hi <= |sfn83| && sfn83[i] == 0
    ensures TrimEnd(sfn83[lo..hi]) == TrimEnd(sfn83[lo..i])
  {
    TrimEndNul(sfn83[lo..hi], i - lo);
    assert sfn83[lo..hi][..i - lo] == sfn83[lo..i];
  }

  /** A field is trimmed at its first NUL. */
  lemma {:induction false} TrimEndNul(s: seq<Byte>, i: nat)
    requires i < |s| && s[i] == 0
    ensures TrimEnd(s) == TrimEnd(s[..i])
  {
    if i > 0 && s[0] != 0 {
      assert s[1..][..i - 1] == s[..i][1..];
      TrimEndNul(s[1..], i - 1);
    }
  }

  /** A field of n visible bytes followed by spaces keeps exactly n bytes. */
  lemma {:induction false} TrimEndPadded(s: seq<Byte>, n: nat)
    requires n <= |s|
    requires forall j :: 0 <= j < n ==> s[j] != 0 && s[j] != SPACE
    requires forall j :: n <= j < |s| ==> s[j] == SPACE
    ensures TrimEnd(s) == n
  {
    if s != [] {
      TrimEndPadded(s[1..], if n > 0 then n - 1 else 0);
    }
  }

  // ---------------------------------------------------------------------
  // Display round trip.

  /** How a code unit of an accepted name comes back from its stored byte, with the part's case bit. */
  lemma ShowStored(c: WChar, lower: bool)
    requires c < 0x80
    requires lower ==> !IsUpperW(c)
    requires !lower ==> !IsLowerW(c)
    ensures ShowByte(StoredByte(c), lower) == c
  {
  }

  /** The displayed form of an accepted name when the case bits are ci: each part shown with its own bit. */
  function ShownName(name: seq<WChar>, ci: Byte): (r: seq<WChar>)
    ensures |r| == |name|
  {
    var d := LastDot(name);
    seq(|name|, i requires 0 <= i < |name| =>
      if i == d then DOT
      else ShowByte(StoredByte(name[i]), if d < 0 || i < d then ci & CI_BASENAME_IS_LOWER != 0 else ci & CI_EXTENSION_IS_LOWER != 0))
  }

  /** The base bytes of an 8.3 name are the stored code units before the last dot, then spaces. */
  lemma SfnBaseLength(name: seq<WChar>)
    requires Shape83(name) && CharsOk(name) && NoNul(name)
    ensures TrimEnd(Sfn83(name)[..8]) == (if LastDot(name) < 0 then |name| else LastDot(name))
  {
    var s := Sfn83(name);
    var d := LastDot(name);
    var baseEnd := if d < 0 then |name| else d;
    forall j | 0 <= j < baseEnd ensures s[..8][j] != 0 && s[..8][j] != SPACE {
      assert s[j] == StoredByte(name[j]);
    }
    TrimEndPadded(s[..8], baseEnd);
  }

  /** The extension bytes of an 8.3 name are the stored code units after the last dot, then spaces. */
  lemma SfnExtLength(name: seq<WChar>)
    requires Shape83(name) && CharsOk(name) && NoNul(name) && LastDot(name) >= 0
    ensures TrimEnd(Sfn83(name)[8..]) == |name| - LastDot(name) - 1
  {
    var s := Sfn83(name);
    var d := LastDot(name);
    forall j | 0 <= j < |name| - d - 1 ensures s[8..][j] != 0 && s[8..][j] != SPACE {
      assert s[8 + j] == StoredByte(name[d + 1 + j]);
    }
    TrimEndPadded(s[8..], |name| - d - 1);
  }

  /** The shown base bytes of an 8.3 name are the shown code units before its last dot. */
  lemma ShownBase(name: seq<WChar>, ci: Byte)
    requires Shape83(name)
    ensures var baseEnd := if LastDot(name) < 0 then |name| else LastDot(name);
      ShownPart(Sfn83(name), 0, baseEnd, ci & CI_BASENAME_IS_LOWER != 0) == ShownName(name, ci)[..baseEnd]
  {
    var s := Sfn83(name);
    var d := LastDot(name);
    var baseEnd := if d < 0 then |name| else d;
    var shown := ShownName(name, ci);
    var base := ShownPart(s, 0, baseEnd, ci & CI_BASENAME_IS_LOWER != 0);
    forall i | 0 <= i < baseEnd ensures base[i] == shown[i] {
      assert s[i] == StoredByte(name[i]);
    }
  }

  /** The shown extension bytes of an 8.3 name are the shown code units after its last dot. */
  lemma ShownExt(name: seq<WChar>, ci: Byte)
    requires Shape83(name) && LastDot(name) >= 0
    ensures var d := LastDot(name);
      ShownPart(Sfn83(name), 8, |name| - d - 1, ci & CI_EXTENSION_IS_LOWER != 0) == ShownName(name, ci)[d + 1..]
  {
    var s := Sfn83(name);
    var d := LastDot(name);
    var shown := ShownName(name, ci);
    var ext := ShownPart(s, 8, |name| - d - 1, ci & CI_EXTENSION_IS_LOWER != 0);
    forall i | 0 <= i < |name| - d - 1 ensures ext[i] == shown[d + 1 + i] {
      assert s[8 + i] == StoredByte(name[d + 1 + i]);
    }
  }

  /**
   * For an accepted name with a non-empty base and, if it has a dot, a
   * non-empty extension, displaying its 8.3 bytes under any case bits gives
   * the name with each part shown under its bit.
   */
  lemma DisplayOfSfn83(name: seq<WChar>, ci: Byte)
    requires 1 <= |name| && Shape83(name) && CharsOk(name) && NoNul(name)
    requires LastDot(name) != 0 && LastDot(name) != |name| - 1
    ensures DisplayName(Sfn83(name), ci) == ShownName(name, ci)
  {
    if LastDot(name) < 0 {
      DisplayWithoutDot(name, ci);
    } else {
      DisplayWithDot(name, ci);
    }
  }

  /** DisplayOfSfn83 for a name without a dot: only the base is shown. */
  lemma DisplayWithoutDot(name: seq<WChar>, ci: Byte)
    requires 1 <= |name| && Shape83(name) && CharsOk(name) && NoNul(name) && LastDot(name) < 0
    ensures DisplayName(Sfn83(name), ci) == ShownName(name, ci)
  {
    var shown := ShownName(name, ci);
    SfnBaseLength(name);
    ShownBase(name, ci);
    assert Sfn83(name)[8] == SPACE;
    assert shown == shown[..|name|];
  }

  /** DisplayOfSfn83 for a name with a dot between a non-empty base and extension. */
  lemma DisplayWithDot(name: seq<WChar>, ci: Byte)
    requires 1 <= |name| && Shape83(name) && CharsOk(name) && NoNul(name)
    requires 0 < LastDot(name) < |name| - 1
    ensures DisplayName(Sfn83(name), ci) == ShownName(name, ci)
  {
    var d := LastDot(name);
    var s := Sfn83(name);
    var shown := ShownName(name, ci);
    SfnBaseLength(name);
    ShownBase(name, ci);
    SfnExtLength(name);
    ShownExt(name, ci);
    assert MaxNat(TrimEnd(s[..8]), 1) == d;
    assert s[8] == StoredByte(name[d + 1]) != SPACE;
    assert DisplayName(s, ci) == shown[..d] + [DOT] + shown[d + 1..];
    assert shown == shown[..d] + [DOT] + shown[d + 1..];
  }

  /** With the case bits of the corrected test, an accepted name is displayed as itself. */
  lemma DisplayRoundTrip(name: seq<WChar>)
    requires Fits83(name, false) && NoNul(name)
    requires LastDot(name) != 0 && LastDot(name) != |name| - 1
    ensures DisplayName(Sfn83(name), CaseInfo(name, false)) == name
  {
    var ci := CaseInfo(name, false);
    var d := LastDot(name);
    var split := CaseSplit(name, false);
    DisplayOfSfn83(name, ci);
    var shown := ShownName(name, ci);
    forall i | 0 <= i < |name| && i != d ensures shown[i] == name[i] {
      var inBase := d < 0 || i < d;
      var lower := if inBase then ci & CI_BASENAME_IS_LOWER != 0 else ci & CI_EXTENSION_IS_LOWER != 0;
      var lo, hi := if inBase then 0 else split, if inBase then split else |name|;
      assert lo <= i < hi;
      assert IsUpperW(name[i]) ==> HasUpper(name, lo, hi);
      assert IsLowerW(name[i]) ==> HasLower(name, lo, hi);
      ShowStored(name[i], lower);
    }
  }

  /** ".abc" and "abc." both fit 8.3, in both variants of the case test. */
  lemma DotEdgeNamesFit()
    ensures Fits83([DOT, 0x61, 0x62, 0x63], false) && Fits83([DOT, 0x61, 0x62, 0x63], true)
    ensures Fits83([0x61, 0x62, 0x63, DOT], false) && Fits83([0x61, 0x62, 0x63, DOT], true)
  {
    var lead: seq<WChar> := [DOT, 0x61, 0x62, 0x63];
    var trail: seq<WChar> := [0x61, 0x62, 0x63, DOT];
    assert lead[0] == DOT && lead[1] != DOT && lead[2] != DOT && lead[3] != DOT;
    assert LastDot(lead) == 0;
    assert trail[3] == DOT;
    assert LastDot(trail) == 3;
  }

  /**
   * A name whose only dot is its first character (".abc") fits 8.3 with an
   * empty base; the base field is all spaces, and the displayed name starts
   * with the space the display path keeps for a base of at least one byte.
   */
  lemma DisplayLeadingDot(name: seq<WChar>, ci: Byte)
    requires 1 <= |name| && Shape83(name) && LastDot(name) == 0
    ensures DisplayName(Sfn83(name), ci)[0] == SPACE as WChar
    ensures DisplayName(Sfn83(name), ci) != name
  {
    var sfn83 := Sfn83(name);
    assert sfn83[0] == SPACE;
    var baseLen := MaxNat(TrimEnd(sfn83[..8]), 1);
    var base := ShownPart(sfn83, 0, baseLen, ci & CI_BASENAME_IS_LOWER != 0);
    assert DisplayName(sfn83, ci)[0] == base[0];
  }

  /**
   * A name ending in its dot ("abc.") fits 8.3 with an empty extension; the
   * extension field is all spaces, so no dot is displayed and the name comes
   * back without it.
   */
  lemma DisplayTrailingDot(name: seq<WChar>, ci: Byte)
    requires 1 <= |name| && Shape83(name) && LastDot(name) == |name| - 1
    ensures DisplayName(Sfn83(name), ci) != name
  {
    var d := |name| - 1;
    var sfn83 := Sfn83(name);
    assert sfn83[8] == SPACE;
    var r := DisplayName(sfn83, ci);
    if |r| == |name| {
      var baseLen := MaxNat(TrimEnd(sfn83[..8]), 1);
      assert r == ShownPart(sfn83, 0, baseLen, ci & CI_BASENAME_IS_LOWER != 0);
      assert sfn83[d] == SPACE;
      assert r[d] == SPACE as WChar;
    }
  }

  /**
   * The 8.3 test as evidently intended: besides what Phat_IsFit83 checks
   * (with the corrected case split), the name neither starts nor ends with
   * its only dot, since an 8.3 entry has no room for an empty base or an
   * empty extension after a dot.
   */
  predicate Fits83Listed(name: seq<WChar>)
  {
    Fits83(name, false) && LastDot(name) != 0 && LastDot(name) != |name| - 1
  }

  /**
   * The corrected test accepts exactly the names that Phat_IsFit83 accepts
   * and that the display path then shows as themselves, so a lookup under
   * the name it was created with finds the entry.
   */
  lemma Fits83ListedExactly(name: seq<WChar>)
    requires NoNul(name)
    ensures Fits83Listed(name) <==>
      Fits83(name, false) && DisplayName(Sfn83(name), CaseInfo(name, false)) == name
  {
    if Fits83(name, false) {
      if LastDot(name) == 0 {
        DisplayLeadingDot(name, CaseInfo(name, false));
      } else if LastDot(name) == |name| - 1 {
        DisplayTrailingDot(name, CaseInfo(name, false));
      } else {
        DisplayRoundTrip(name);
      }
    }
  }

  /**
   * As written, a name of at most 8 code units never gets the extension
   * bit, so a lower-case letter after its dot is displayed upper-case:
   * "abc.txt" is stored as "ABC     TXT" with only the base bit and comes
   * back as "abc.TXT".
   */
  lemma AsWrittenDisplayUppercasesExtension(name: seq<WChar>, j: nat)
    requires Fits83(name, true) && NoNul(name) && |name| <= 8
    requires 0 < LastDot(name) < |name| - 1
    requires LastDot(name) < j < |name| && IsLowerW(name[j])
    ensures DisplayName(Sfn83(name), CaseInfo(name, true)) != name
  {
    var ci := CaseInfo(name, true);
    DisplayOfSfn83(name, ci);
    assert ci & CI_EXTENSION_IS_LOWER == 0;
    assert ShownName(name, ci)[j] == ShowByte(StoredByte(name[j]), false);
    assert ShownName(name, ci)[j] != name[j];
  }

  // ---------------------------------------------------------------------
  // The alias generator (Phat_Gen83NameForLongFilename).

  /** A base-name code unit of an alias: upper-cased, '.' replaced by '_', cut to 8 bits. */
  function AliasByte(c: WChar): (r: Byte)
    ensures c == DOT ==> r == UNDERSCORE
  {
    if c == DOT then UNDERSCORE else StoredByte(c)
  }

  /**
   * The alias before any numeric tail. With no dot: the first 8 code units.
   * With a dot: the code units up to and including the last dot, at most 8,
   * and up to 3 after it. "NONAME" replaces bytes 0-5 when byte 0 is a
   * space.
   */
  function AliasBase(name: seq<WChar>): (r: seq<Byte>)
    ensures |r| == 11
    ensures r[0] != SPACE
  {
    var d := LastDot(name);
    var baseEnd := if d < 0 then MinNat(8, |name|) else MinNat(8, d + 1);
    var extLen := if d < 0 then 0 else MinNat(3, |name| - d - 1);
    var raw := seq(11, p requires 0 <= p < 11 =>
      if p < baseEnd then AliasByte(name[p])
      else if 8 <= p < 8 + extLen then StoredByte(name[d + 1 + (p - 8)])
      else SPACE);
    if raw[0] == SPACE then NONAME + raw[6..] else raw
  }

  /** Number of decimal digits of k, for 1 <= k <= MAX_ALIAS_INDEX. */
  function NumDigits(k: nat): (n: nat)
    requires 1 <= k <= MAX_ALIAS_INDEX
    ensures 1 <= n <= 6
  {
    if k < 10 then 1 else if k < 100 then 2 else if k < 1000 then 3
    else if k < 10000 then 4 else if k < 100000 then 5 else 6
  }

  function Pow10(n: nat): (r: nat)
    ensures r >= 1
  {
    if n == 0 then 1 else 10 * Pow10(n - 1)
  }

  /** The ASCII digit of k for the power 10^p. */
  function Digit(k: nat, p: nat): Byte
  {
    DIGIT_ZERO + ((k / Pow10(p)) % 10) as Byte
  }

  /** s with the numeric tail of k: '~' at byte 7 - digits, then the digits of k up to byte 7. */
  function WithTail(s: seq<Byte>, k: nat): (r: seq<Byte>)
    requires |s| == 11 && 1 <= k <= MAX_ALIAS_INDEX
    ensures |r| == 11
  {
    var n := NumDigits(k);
    seq(11, i requires 0 <= i < 11 =>
      if i == 7 - n then TILDE else if 7 - n < i < 8 then Digit(k, 7 - i) else s[i])
  }

  /** The k-th name the generator tries: the bare alias for 0, then the tails ~1 to ~999999. */
  function Candidate(base: seq<Byte>, k: nat): (r: seq<Byte>)
    requires |base| == 11 && k <= MAX_ALIAS_INDEX
    ensures |r| == 11
  {
    if k == 0 then base else WithTail(base, k)
  }

  /** A longer tail covers every byte a shorter one wrote, so tails never need clearing. */
  lemma TailOverTail(base: seq<Byte>, k: nat)
    requires |base| == 11 && 1 <= k < MAX_ALIAS_INDEX
    ensures WithTail(Candidate(base, k), k + 1) == Candidate(base, k + 1)
  {
  }

  /** The first candidate from k on that is not taken, if any. */
  function FirstFree(base: seq<Byte>, taken: set<seq<Byte>>, k: nat): (r: Option<nat>)
    requires |base| == 11 && k <= MAX_ALIAS_INDEX + 1
    ensures r.Some? ==> k <= r.value <= MAX_ALIAS_INDEX
    decreases MAX_ALIAS_INDEX + 1 - k
  {
    if k > MAX_ALIAS_INDEX then None
    else if Candidate(base, k) !in taken then Some(k)
    else FirstFree(base, taken, k + 1)
  }

  /** FirstFree finds the least free candidate from k on, and finds none only when all are taken. */
  lemma {:induction false} FirstFreeIsFirst(base: seq<Byte>, taken: set<seq<Byte>>, k: nat)
    requires |base| == 11 && k <= MAX_ALIAS_INDEX + 1
    ensures FirstFree(base, taken, k).Some? ==>
      var m := FirstFree(base, taken, k).value;
      k <= m <= MAX_ALIAS_INDEX && Candidate(base, m) !in taken
      && forall j :: k <= j < m ==> Candidate(base, j) in taken
    ensures FirstFree(base, taken, k).None? ==>
      forall j :: k <= j <= MAX_ALIAS_INDEX ==> Candidate(base, j) in taken
    decreases MAX_ALIAS_INDEX + 1 - k
  {
    if k <= MAX_ALIAS_INDEX && Candidate(base, k) in taken {
      FirstFreeIsFirst(base, taken, k + 1);
    }
  }

  /**
   * Phat_Gen83NameForLongFilename. The directory's lookup of a short name
   * (Phat_FindShortFileName) is the set taken of the 8.3 names present.
   * The result is the first candidate not taken; FSError when all
   * 1 000 000 candidates are.
   */
  method Gen83(longname: seq<WChar>, taken: set<seq<Byte>>) returns (st: PhatState, sfn83: seq<Byte>)
    ensures FirstFree(AliasBase(longname), taken, 0).None? ==> st == FSError
    ensures FirstFree(AliasBase(longname), taken, 0).Some? ==>
      st == OK && sfn83 == Candidate(AliasBase(longname), FirstFree(AliasBase(longname), taken, 0).value)
  {
    var base := AliasBase(longname);
    sfn83 := base;
    var index: nat := 1;
    while true
      invariant 1 <= index <= MAX_ALIAS_INDEX + 1
      invariant sfn83 == Candidate(base, index - 1)
      invariant FirstFree(base, taken, 0) == FirstFree(base, taken, index - 1)
      decreases MAX_ALIAS_INDEX + 1 - index
    {
      if sfn83 !in taken {
        return OK, sfn83;
      }
      if index > MAX_ALIAS_INDEX {
        return FSError, sfn83;
      }
      if index > 1 {
        TailOverTail(base, index - 1);
      }
      sfn83 := WithTail(sfn83, index);
      index := index + 1;
    }
  }
}
