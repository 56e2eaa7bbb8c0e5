/**
 * The wide-string path helpers: Phat_Wcslen/Phat_Wcscmp, the in-place
 * Phat_ToUpperDirectoryPath, Phat_NormalizePath, Phat_PathToName and the
 * name check Phat_IsValidFilename.
 *
 * A string is held without its terminator (NoNul). Where a helper rewrites
 * its buffer in place, the buffer is modelled as the string followed by its
 * NUL, and the helper's pointers as indices into it.
 */
module Paths {
  import opened Common

  const SLASH: WChar := 0x2F
  const BACKSLASH: WChar := 0x5C
  const PERIOD: WChar := 0x2E

  /** Both '/' and '\' separate path components. */
  predicate IsSep(c: WChar) { c == SLASH || c == BACKSLASH }

  predicate NoSep(s: seq<WChar>)
  {
    forall i :: 0 <= i < |s| ==> !IsSep(s[i])
  }

  // ---------------------------------------------------------------------
  // Phat_Wcslen and Phat_Wcscmp.

  /** Phat_ToEndOfString from index i: the first NUL at or after i. */
  function CLenFrom(buf: seq<WChar>, i: nat): (n: nat)
    requires i <= |buf|
    ensures i <= n <= |buf|
    ensures forall j :: i <= j < n ==> buf[j] != 0
    ensures n < |buf| ==> buf[n] == 0
    decreases |buf| - i
  {
    if i == |buf| || buf[i] == 0 then i else CLenFrom(buf, i + 1)
  }

  /** Phat_Wcslen: the length of the C string a buffer holds. */
  function CLen(buf: seq<WChar>): nat
  {
    CLenFrom(buf, 0)
  }

  /** The C string a buffer holds: everything before its first NUL. */
  function CStr(buf: seq<WChar>): (s: seq<WChar>)
    ensures NoNul(s) && |s| <= |buf| && s == buf[..|s|]
    ensures |s| < |buf| ==> buf[|s|] == 0
  {
    buf[..CLen(buf)]
  }

  /** A buffer whose first NUL is at n holds a C string of length n. */
  lemma CLenIs(buf: seq<WChar>, n: nat)
    requires n < |buf| && buf[n] == 0
    requires forall j :: 0 <= j < n ==> buf[j] != 0
    ensures CLen(buf) == n
  {
  }

  /** A string followed by its terminator holds that string. */
  lemma CStrOfTerminated(s: seq<WChar>, rest: seq<WChar>)
    requires NoNul(s)
    ensures CStr(s + [0] + rest) == s
  {
    var buf := s + [0] + rest;
    assert buf[|s|] == 0;
    assert forall j :: 0 <= j < |s| ==> buf[j] != 0;
    assert CLen(buf) == |s|;
  }

  /** The bytes memcmp sees for a wide string: each code unit low byte first. */
  function WideBytes(s: seq<WChar>): (r: seq<Byte>)
    ensures |r| == 2 * |s|
    ensures forall i :: 0 <= i < |s| ==> r[2 * i] == Lo8(s[i]) && r[2 * i + 1] == Hi8(s[i])
  {
    seq(2 * |s|, k requires 0 <= k < 2 * |s| => if k % 2 == 0 then Lo8(s[k / 2]) else Hi8(s[k / 2]))
  }

  /** Equal byte images come from equal strings of the same length. */
  lemma WideBytesInjective(a: seq<WChar>, b: seq<WChar>)
    requires |a| == |b|
    ensures WideBytes(a) == WideBytes(b) ==> a == b
  {
    if WideBytes(a) == WideBytes(b) {
      forall i | 0 <= i < |a|
        ensures a[i] == b[i]
      {
        assert WideBytes(a)[2 * i] == WideBytes(b)[2 * i];
        assert WideBytes(a)[2 * i + 1] == WideBytes(b)[2 * i + 1];
        JoinWord(a[i]);
        JoinWord(b[i]);
      }
    }
  }

  /** memcmp over x[i..] and y[i..]: the sign of the first differing byte. */
  function MemcmpFrom(x: seq<Byte>, y: seq<Byte>, i: nat): (r: int)
    requires |x| == |y| && i <= |x|
    ensures -1 <= r <= 1
    ensures r == 0 <==> forall j :: i <= j < |x| ==> x[j] == y[j]
    decreases |x| - i
  {
    if i == |x| then 0
    else if x[i] < y[i] then -1
    else if x[i] > y[i] then 1
    else MemcmpFrom(x, y, i + 1)
  }

  /**
   * Phat_Wcscmp: the longer string is greater; strings of one length are
   * ordered by memcmp over their bytes. Callers only test for 0.
   */
  function Wcscmp(s1: seq<WChar>, s2: seq<WChar>): (r: int)
    ensures r == 0 <==> s1 == s2
    ensures |s1| > |s2| ==> r == 1
    ensures |s1| < |s2| ==> r == -1
  {
    if |s1| > |s2| then 1
    else if |s2| > |s1| then -1
    else
      WideBytesInjective(s1, s2);
      MemcmpFrom(WideBytes(s1), WideBytes(s2), 0)
  }

  // ---------------------------------------------------------------------
  // Phat_ToUpperDirectoryPath.

  /**
   * The backward scan of Phat_ToUpperDirectoryPath over buf[..n]: trailing
   * separators and then the last component are cleared; the scan stops on
   * the separator before that component, which is kept. Returns the length
   * that is left.
   */
  function UpperFrom(buf: seq<WChar>, n: nat, trimming: bool): (k: nat)
    requires n <= |buf|
    ensures k <= n
  {
    if n == 0 then 0
    else if IsSep(buf[n - 1]) && !trimming then n
    else UpperFrom(buf, n - 1, trimming && IsSep(buf[n - 1]))
  }

  /** The string Phat_ToUpperDirectoryPath leaves. */
  function UpperDirectory(s: seq<WChar>): seq<WChar>
  {
    s[..UpperFrom(s, |s|, true)]
  }

  /** After index n the string is a run of non-separators, then separators. */
  predicate TailShape(s: seq<WChar>, n: nat)
  {
    forall i, j :: n <= i < j < |s| && IsSep(s[i]) ==> IsSep(s[j])
  }

  lemma {:induction false} UpperFromShape(s: seq<WChar>, n: nat, trimming: bool)
    requires n <= |s|
    requires trimming ==> forall j :: n <= j < |s| ==> IsSep(s[j])
    requires !trimming ==> TailShape(s, n) && exists j :: n <= j < |s| && !IsSep(s[j])
    ensures var k := UpperFrom(s, n, trimming);
      TailShape(s, k) && (k > 0 ==> IsSep(s[k - 1]) && exists j :: k <= j < |s| && !IsSep(s[j]))
    decreases n
  {
    if n > 0 && !(IsSep(s[n - 1]) && !trimming) {
      UpperFromShape(s, n - 1, trimming && IsSep(s[n - 1]));
    }
  }

  /**
   * Phat_ToUpperDirectoryPath only clears a suffix: what it removes is the
   * last component followed by trailing separators, and what it keeps is
   * empty or ends in the separator before that component. These facts fix
   * the kept length uniquely.
   */
  lemma UpperDirectoryShape(s: seq<WChar>)
    ensures var k := |UpperDirectory(s)|;
      k <= |s| && UpperDirectory(s) == s[..k] && TailShape(s, k)
      && (k > 0 ==> IsSep(s[k - 1]) && exists j :: k <= j < |s| && !IsSep(s[j]))
  {
    UpperFromShape(s, |s|, true);
  }

  /**
   * The code keeps the separator: "/a/b" becomes "/a/" and "/" becomes the
   * empty string (its comment promises "/a" and "/").
   */
  lemma UpperDirectoryExamples()
    ensures UpperDirectory([SLASH, 0x61, SLASH, 0x62]) == [SLASH, 0x61, SLASH]
    ensures UpperDirectory([SLASH]) == []
  {
    var s := [SLASH, 0x61, SLASH, 0x62];
    assert UpperFrom(s, 4, true) == UpperFrom(s, 3, false) == 3;
  }

  /**
   * The parent path Phat_ToUpperDirectoryPath's header documents: trailing
   * separators and the last component are removed, and so is the separator
   * before it unless that separator is the root ("/a/b" and "/a/b/" give
   * "/a", "/a" and "/" give "/").
   */
  function DocumentedParent(s: seq<WChar>): (r: seq<WChar>)
    ensures |r| <= |s| && r == s[..|r|]
  {
    var q := StripSeps(s);
    if |q| == 1 && IsSep(q[0]) then q
    else
      var u := UpperDirectory(q);
      UpperDirectoryShape(q);
      StripSeps(u)
  }

  /** The header's four examples hold for DocumentedParent. */
  lemma DocumentedParentExamples()
    ensures DocumentedParent([SLASH, 0x61, SLASH, 0x62]) == [SLASH, 0x61]
    ensures DocumentedParent([SLASH, 0x61, SLASH, 0x62, SLASH]) == [SLASH, 0x61]
    ensures DocumentedParent([SLASH, 0x61]) == [SLASH]
    ensures DocumentedParent([SLASH]) == [SLASH]
  {
    var ab: seq<WChar> := [SLASH, 0x61, SLASH, 0x62];
    assert StripSeps(ab) == ab;
    assert UpperFrom(ab, 4, true) == UpperFrom(ab, 3, false) == 3;
    assert StripSeps(ab[..3]) == StripSeps(ab[..2]) == ab[..2];
    var abs: seq<WChar> := [SLASH, 0x61, SLASH, 0x62, SLASH];
    assert abs[..4] == ab;
    assert StripSeps(abs) == ab;
    var a: seq<WChar> := [SLASH, 0x61];
    assert StripSeps(a) == a;
    assert UpperFrom(a, 2, true) == UpperFrom(a, 1, false) == 1;
    assert StripSeps(a[..1]) == [SLASH];
  }

  /** Separators at the end of the scanned part are cleared while the scan is still trimming. */
  lemma {:induction false} UpperSkipsSeps(s: seq<WChar>, n: nat, m: nat)
    requires m <= n <= |s|
    requires forall k :: m <= k < n ==> IsSep(s[k])
    ensures UpperFrom(s, n, true) == UpperFrom(s, m, true)
    decreases n
  {
    if n > m {
      UpperSkipsSeps(s, n - 1, m);
    }
  }

  /**
   * What the code leaves against what its header documents: for a path
   * with a component the code keeps DocumentedParent followed by
   * separators (the one before the last component, "/a/" for "/a/b"); for
   * a path of separators only the code clears everything where the header
   * keeps the root ("/" gives "" and not "/").
   */
  lemma DocumentedParentAgainstCode(s: seq<WChar>)
    ensures (exists j :: 0 <= j < |s| && !IsSep(s[j])) ==>
      DocumentedParent(s) <= UpperDirectory(s) &&
      forall k :: |DocumentedParent(s)| <= k < |UpperDirectory(s)| ==> IsSep(UpperDirectory(s)[k])
    ensures (forall j :: 0 <= j < |s| ==> IsSep(s[j])) ==>
      UpperDirectory(s) == [] && DocumentedParent(s) == s[..if |s| == 0 then 0 else 1]
  {
    var q := StripSeps(s);
    UpperSkipsSeps(s, |s|, |q|);
    UpperFromPrefix(s, |q|, |q|, true);
    assert s[..|q|] == q;
    var k := UpperFrom(s, |s|, true);
    assert UpperDirectory(s) == s[..k] == q[..k];
    assert UpperDirectory(s) == UpperDirectory(q);
    if forall j :: 0 <= j < |s| ==> IsSep(s[j]) {
      UpperSkipsSeps(s, |s|, 0);
      if |s| > 0 {
        assert |q| == 1;
      }
    } else {
      var j :| 0 <= j < |s| && !IsSep(s[j]);
      assert j < |q|;
    }
  }

  lemma {:induction false} UpperFromPrefix(buf: seq<WChar>, n: nat, m: nat, trimming: bool)
    requires n <= m <= |buf|
    ensures UpperFrom(buf, n, trimming) == UpperFrom(buf[..m], n, trimming)
    decreases n
  {
    if n > 0 {
      UpperFromPrefix(buf, n - 1, m, trimming && IsSep(buf[n - 1]));
    }
  }

  /** Phat_ToUpperDirectoryPath over a NUL-terminated buffer, in place. */
  method ToUpperDirectoryPath(path: array<WChar>)
    requires CLen(path[..]) < path.Length
    modifies path
    ensures CStr(path[..]) == UpperDirectory(CStr(old(path[..])))
    ensures path[CLen(old(path[..]))..] == old(path[..])[CLen(old(path[..]))..]
  {
    ghost var orig := path[..];
    ghost var n := CLen(orig);
    ghost var k := UpperFrom(orig, n, true);
    var length := 0;
    while path[length] != 0
      invariant 0 <= length <= n
      invariant forall j :: 0 <= j < length ==> path[j] != 0
      decreases n - length
    {
      length := length + 1;
    }
    var trimming := true;
    while length > 0
      invariant 0 <= length <= n
      invariant UpperFrom(orig, length, trimming) == k
      invariant path[..length] == orig[..length]
      invariant forall j :: length <= j < n ==> path[j] == 0
      invariant path[n..] == orig[n..]
    {
      length := length - 1;
      if IsSep(path[length]) {
        if !trimming {
          UpperCleared(orig, path[..], length + 1, n);
          return;
        }
      } else {
        trimming := false;
      }
      path[length] := 0;
    }
    UpperCleared(orig, path[..], 0, n);
  }

  /** The buffer the scan leaves holds the kept prefix as its C string. */
  lemma UpperCleared(orig: seq<WChar>, now: seq<WChar>, k: nat, n: nat)
    requires n == CLen(orig) < |orig| == |now| && k <= n
    requires k == UpperFrom(orig, n, true)
    requires now[..k] == orig[..k] && now[n..] == orig[n..]
    requires forall j :: k <= j < n ==> now[j] == 0
    ensures CStr(now) == UpperDirectory(CStr(orig))
    ensures now[n..] == orig[n..]
  {
    UpperFromPrefix(orig, n, n, true);
    assert orig[..n] == CStr(orig);
    if k < n {
      assert now[k] == 0;
    } else {
      assert now[k] == orig[n] == 0;
    }
    assert forall j :: 0 <= j < k ==> now[j] == orig[j] != 0;
    assert CLen(now) == k;
  }

  // ---------------------------------------------------------------------
  // Phat_NormalizePath as written.

  /** The buffer after copying buf[st..r] down to w, front to back; w <= st. */
  function CopyDown(buf: seq<WChar>, w: nat, st: nat, r: nat): (b: seq<WChar>)
    requires w <= st <= r <= |buf|
    ensures |b| == |buf|
  {
    seq(|buf|, i requires 0 <= i < |buf| => if w <= i < w + (r - st) then buf[st + (i - w)] else buf[i])
  }

  /** The buffer with indices [k, n) cleared to NUL. */
  function ClearRange(buf: seq<WChar>, k: nat, n: nat): (b: seq<WChar>)
    ensures |b| == |buf|
  {
    seq(|buf|, i requires 0 <= i < |buf| => if k <= i < n then 0 else buf[i])
  }

  /**
   * What Phat_NormalizePath does when the reader reaches the separator or
   * terminator at r, ending the segment buf[st..r]: the new buffer and the
   * new write position.
   */
  function EndSegment(buf: seq<WChar>, r: nat, w: nat, st: nat): (res: (seq<WChar>, nat))
    requires w <= st <= r < |buf|
    ensures |res.0| == |buf| && res.1 <= r + 1
    ensures res.0[r] == 0 ==> res.1 <= r
  {
    var len := r - st;
    if len == 1 && buf[st] == PERIOD then
      (buf[w := 0], w)
    else if len == 2 && buf[st] == PERIOD && buf[st + 1] == PERIOD then
      var b1 := buf[st := 0];
      var n := CLen(b1);
      var k := UpperFrom(b1, n, true);
      assert b1[st] == 0 && n <= st;
      (ClearRange(b1, k, n), k)
    else if len > 0 then
      (CopyDown(buf, w, st, r)[w + len := SLASH], w + len + 1)
    else
      (buf, w)
  }

  /** The terminator written at w and a trailing separator before it cleared. */
  function Finish(buf: seq<WChar>, w: nat): seq<WChar>
    requires w < |buf|
  {
    var b1 := buf[w := 0];
    var b2 := if w > 0 && IsSep(b1[w - 1]) then b1[w - 1 := 0] else b1;
    CStr(b2)
  }

  /**
   * The main loop of Phat_NormalizePath with read position r, write position
   * w and segment start st. None when the loop reads past the buffer.
   */
  function NormalizeLoop(buf: seq<WChar>, r: nat, w: nat, st: nat): Option<seq<WChar>>
    requires w <= st <= r <= |buf|
    decreases |buf| - r
  {
    if r == |buf| then None
    else if !IsSep(buf[r]) && buf[r] != 0 then NormalizeLoop(buf, r + 1, w, st)
    else
      var (b, w') := EndSegment(buf, r, w, st);
      if b[r] == 0 then Some(Finish(b, w')) else NormalizeLoop(b, r + 1, w', r + 1)
  }

  /** Index of the first non-separator at or after i. */
  function SkipSeps(buf: seq<WChar>, i: nat): (j: nat)
    requires i <= |buf|
    ensures i <= j <= |buf|
    ensures forall k :: i <= k < j ==> IsSep(buf[k])
    ensures j < |buf| ==> !IsSep(buf[j])
    decreases |buf| - i
  {
    if i < |buf| && IsSep(buf[i]) then SkipSeps(buf, i + 1) else i
  }

  /**
   * Phat_NormalizePath as written, on the string p and its terminator.
   * Leading separators are skipped but for the last one. None when the
   * rewrite reads past the terminator.
   */
  function NormalizeAsWritten(p: seq<WChar>): Option<seq<WChar>>
  {
    var buf := p + [0];
    var lead := SkipSeps(buf, 0);
    var r0 := if lead > 0 then lead - 1 else 0;
    NormalizeLoop(buf, r0, 0, r0)
  }

  // ---------------------------------------------------------------------
  // Phat_NormalizePath as its comment describes it: a fold over segments.

  /** Index of the first separator at or after i, or |s|. */
  function SepFrom(s: seq<WChar>, i: nat): (j: nat)
    requires i <= |s|
    ensures i <= j <= |s|
    ensures forall k :: i <= k < j ==> !IsSep(s[k])
    ensures j < |s| ==> IsSep(s[j])
    decreases |s| - i
  {
    if i == |s| || IsSep(s[i]) then i else SepFrom(s, i + 1)
  }

  /** The components of s between separators: k separators give k + 1 components. */
  function Split(s: seq<WChar>): (segs: seq<seq<WChar>>)
    ensures |segs| >= 1
    ensures forall k :: 0 <= k < |segs| ==> NoSep(segs[k])
    decreases |s|
  {
    var j := SepFrom(s, 0);
    if j == |s| then [s] else [s[..j]] + Split(s[j + 1..])
  }

  /** The components put back together with '/'. */
  function Join(segs: seq<seq<WChar>>): seq<WChar>
  {
    if segs == [] then []
    else if |segs| == 1 then segs[0]
    else segs[0] + [SLASH] + Join(segs[1..])
  }

  /** A component that survives normalisation: not empty, "." or "..". */
  predicate Proper(seg: seq<WChar>)
  {
    seg != [] && NoSep(seg) && seg != [PERIOD] && seg != [PERIOD, PERIOD]
  }

  predicate AllProper(segs: seq<seq<WChar>>)
  {
    forall k :: 0 <= k < |segs| ==> Proper(segs[k])
  }

  /** One segment: "" and "." are dropped, ".." drops the previous one. */
  function Step(acc: seq<seq<WChar>>, seg: seq<WChar>): seq<seq<WChar>>
  {
    if seg == [] || seg == [PERIOD] then acc
    else if seg == [PERIOD, PERIOD] then (if acc == [] then [] else acc[..|acc| - 1])
    else acc + [seg]
  }

  function Fold(segs: seq<seq<WChar>>, acc: seq<seq<WChar>>): seq<seq<WChar>>
  {
    if segs == [] then acc else Fold(segs[1..], Step(acc, segs[0]))
  }

  /** The normalised path: the corrected Phat_NormalizePath. */
  function Normalize(p: seq<WChar>): seq<WChar>
  {
    Join(Fold(Split(p), []))
  }

  /** The components other than "" and ".". */
  function Kept(segs: seq<seq<WChar>>): seq<seq<WChar>>
  {
    if segs == [] then []
    else if segs[0] == [] || segs[0] == [PERIOD] then Kept(segs[1..])
    else [segs[0]] + Kept(segs[1..])
  }

  /** Each component with the separator after it. */
  function Weight(segs: seq<seq<WChar>>): nat
  {
    if segs == [] then 0 else |segs[0]| + 1 + Weight(segs[1..])
  }

  lemma {:induction false} WeightAppend(a: seq<seq<WChar>>, b: seq<seq<WChar>>)
    ensures Weight(a + b) == Weight(a) + Weight(b)
  {
    if a != [] {
      assert (a + b)[1..] == a[1..] + b;
      WeightAppend(a[1..], b);
    } else {
      assert a + b == b;
    }
  }

  lemma {:induction false} SplitWeight(s: seq<WChar>)
    ensures Weight(Split(s)) == |s| + 1
    decreases |s|
  {
    var j := SepFrom(s, 0);
    if j < |s| {
      SplitWeight(s[j + 1..]);
    }
  }

  lemma {:induction false} JoinWeight(segs: seq<seq<WChar>>)
    requires segs != []
    ensures |Join(segs)| + 1 == Weight(segs)
  {
    if |segs| > 1 {
      JoinWeight(segs[1..]);
    }
  }

  lemma StepWeight(acc: seq<seq<WChar>>, seg: seq<WChar>)
    ensures Weight(Step(acc, seg)) <= Weight(acc) + |seg| + 1
  {
    if seg == [PERIOD, PERIOD] && acc != [] {
      WeightAppend(acc[..|acc| - 1], [acc[|acc| - 1]]);
      assert acc == acc[..|acc| - 1] + [acc[|acc| - 1]];
    } else if !(seg == [] || seg == [PERIOD]) && seg != [PERIOD, PERIOD] {
      WeightAppend(acc, [seg]);
    }
  }

  lemma {:induction false} FoldWeight(segs: seq<seq<WChar>>, acc: seq<seq<WChar>>)
    ensures Weight(Fold(segs, acc)) <= Weight(acc) + Weight(segs)
  {
    if segs != [] {
      StepWeight(acc, segs[0]);
      FoldWeight(segs[1..], Step(acc, segs[0]));
    }
  }

  /** Phat_NormalizePath never lengthens the path. */
  lemma NormalizeShorter(p: seq<WChar>)
    ensures |Normalize(p)| <= |p|
  {
    var f := Fold(Split(p), []);
    SplitWeight(p);
    FoldWeight(Split(p), []);
    if f != [] {
      JoinWeight(f);
    }
  }

  lemma {:induction false} FoldProper(segs: seq<seq<WChar>>, acc: seq<seq<WChar>>)
    requires AllProper(acc)
    requires forall k :: 0 <= k < |segs| ==> NoSep(segs[k])
    ensures AllProper(Fold(segs, acc))
  {
    if segs != [] {
      FoldProper(segs[1..], Step(acc, segs[0]));
    }
  }

  /** Splitting the join of separator-free components gives them back. */
  lemma {:induction false} SplitJoin(segs: seq<seq<WChar>>)
    requires segs != []
    requires forall k :: 0 <= k < |segs| ==> NoSep(segs[k])
    ensures Split(Join(segs)) == segs
  {
    var s := Join(segs);
    if |segs| == 1 {
      assert SepFrom(s, 0) == |s|;
    } else {
      var head := segs[0];
      assert s == head + [SLASH] + Join(segs[1..]);
      assert s[|head|] == SLASH;
      assert forall k :: 0 <= k < |head| ==> s[k] == head[k];
      assert SepFrom(s, 0) == |head|;
      assert s[..|head|] == head;
      assert s[|head| + 1..] == Join(segs[1..]);
      SplitJoin(segs[1..]);
    }
  }

  lemma {:induction false} JoinChars(segs: seq<seq<WChar>>)
    requires forall k :: 0 <= k < |segs| ==> NoSep(segs[k])
    ensures forall i :: 0 <= i < |Join(segs)| ==> Join(segs)[i] == SLASH || !IsSep(Join(segs)[i])
  {
    if |segs| > 1 {
      JoinChars(segs[1..]);
      var s := Join(segs);
      assert s == segs[0] + [SLASH] + Join(segs[1..]);
      forall i | 0 <= i < |s|
        ensures s[i] == SLASH || !IsSep(s[i])
      {
        if i < |segs[0]| {
          assert s[i] == segs[0][i];
        } else if i > |segs[0]| {
          assert s[i] == Join(segs[1..])[i - |segs[0]| - 1];
        }
      }
    }
  }

  lemma {:induction false} JoinEnds(segs: seq<seq<WChar>>)
    requires segs != [] && AllProper(segs)
    ensures var s := Join(segs); s != [] && !IsSep(s[0]) && !IsSep(s[|s| - 1])
  {
    if |segs| > 1 {
      JoinEnds(segs[1..]);
      var s := Join(segs);
      assert s == segs[0] + [SLASH] + Join(segs[1..]);
      assert s[0] == segs[0][0];
      assert s[|s| - 1] == Join(segs[1..])[|Join(segs[1..])| - 1];
    } else {
      assert Join(segs) == segs[0];
    }
  }

  /**
   * The normalised path uses '/' only, has no leading or trailing separator,
   * and every component in it is neither empty, "." nor "..".
   */
  lemma NormalizeClean(p: seq<WChar>)
    ensures var r := Normalize(p);
      (forall i :: 0 <= i < |r| ==> r[i] != BACKSLASH)
      && (r != [] ==> !IsSep(r[0]) && !IsSep(r[|r| - 1]) && AllProper(Split(r)))
  {
    var f := Fold(Split(p), []);
    FoldProper(Split(p), []);
    JoinChars(f);
    if f != [] {
      JoinEnds(f);
      SplitJoin(f);
    }
  }

  /** Without "..", normalising keeps the non-empty, non-"." components in order. */
  lemma {:induction false} FoldWithoutParent(segs: seq<seq<WChar>>, acc: seq<seq<WChar>>)
    requires forall k :: 0 <= k < |segs| ==> segs[k] != [PERIOD, PERIOD]
    ensures Fold(segs, acc) == acc + Kept(segs)
  {
    if segs != [] {
      FoldWithoutParent(segs[1..], Step(acc, segs[0]));
      if !(segs[0] == [] || segs[0] == [PERIOD]) {
        assert acc + [segs[0]] + Kept(segs[1..]) == acc + ([segs[0]] + Kept(segs[1..]));
      }
    }
  }

  lemma NormalizeWithoutParent(p: seq<WChar>)
    requires forall k :: 0 <= k < |Split(p)| ==> Split(p)[k] != [PERIOD, PERIOD]
    ensures Normalize(p) == Join(Kept(Split(p)))
  {
    FoldWithoutParent(Split(p), []);
    assert [] + Kept(Split(p)) == Kept(Split(p));
  }

  lemma {:induction false} FoldOfProper(segs: seq<seq<WChar>>, acc: seq<seq<WChar>>)
    requires AllProper(segs)
    ensures Fold(segs, acc) == acc + segs
  {
    if segs != [] {
      FoldOfProper(segs[1..], acc + [segs[0]]);
      assert acc + [segs[0]] + segs[1..] == acc + segs;
    }
  }

  /** A normalised path is left as it is by a second normalisation. */
  lemma NormalizeIdempotent(p: seq<WChar>)
    ensures Normalize(Normalize(p)) == Normalize(p)
  {
    var f := Fold(Split(p), []);
    FoldProper(Split(p), []);
    if f == [] {
      assert Split([]) == [[]];
    } else {
      SplitJoin(f);
      FoldOfProper(f, []);
      assert [] + f == f;
    }
  }

  /**
   * As written, ".." clears back over a buffer that still holds the stale
   * copy of an earlier segment: "a/./b/../c" gives "a/b/c", where the
   * comment promises "a/c".
   */
  lemma AsWrittenParentKeepsStaleSegment()
    ensures NormalizeAsWritten([0x61, SLASH, PERIOD, SLASH, 0x62, SLASH, PERIOD, PERIOD, SLASH, 0x63])
      == Some([0x61, SLASH, 0x62, SLASH, 0x63])
  {
    var p: seq<WChar> := [0x61, SLASH, PERIOD, SLASH, 0x62, SLASH, PERIOD, PERIOD, SLASH, 0x63];
    var b0 := p + [0];
    assert SkipSeps(b0, 0) == 0;
    var b1 := [0x61, SLASH, PERIOD, SLASH, 0x62, SLASH, PERIOD, PERIOD, SLASH, 0x63, 0];
    assert b0 == b1;
    StaleSegmentHead();
    StaleSegmentMiddle();
    StaleSegmentTail();
  }

  /** The first two segments of the example in AsWrittenParentKeepsStaleSegment: "a/" and "./". */
  lemma StaleSegmentHead()
    ensures NormalizeLoop([0x61, SLASH, PERIOD, SLASH, 0x62, SLASH, PERIOD, PERIOD, SLASH, 0x63, 0], 0, 0, 0)
      == NormalizeLoop([0x61, SLASH, 0, SLASH, 0x62, SLASH, PERIOD, PERIOD, SLASH, 0x63, 0], 4, 2, 4)
  {
    var b1: seq<WChar> := [0x61, SLASH, PERIOD, SLASH, 0x62, SLASH, PERIOD, PERIOD, SLASH, 0x63, 0];
    assert CopyDown(b1, 0, 0, 1) == b1 by {
      assert forall i :: 0 <= i < 11 ==> CopyDown(b1, 0, 0, 1)[i] == b1[i];
    }
    assert b1[1 := SLASH] == b1;
    assert EndSegment(b1, 1, 0, 0) == (b1, 2);
    var b2 := [0x61, SLASH, 0, SLASH, 0x62, SLASH, PERIOD, PERIOD, SLASH, 0x63, 0];
    assert b1[2 := 0] == b2;
    assert EndSegment(b1, 3, 2, 2) == (b2, 2);
    assert NormalizeLoop(b1, 2, 2, 2) == NormalizeLoop(b1, 3, 2, 2) == NormalizeLoop(b2, 4, 2, 4);
    assert NormalizeLoop(b1, 0, 0, 0) == NormalizeLoop(b1, 1, 0, 0) == NormalizeLoop(b1, 2, 2, 2);
  }

  /** The third segment of the example in AsWrittenParentKeepsStaleSegment: "b/" is copied down, the old "b" stays. */
  lemma StaleSegmentMiddle()
    ensures NormalizeLoop([0x61, SLASH, 0, SLASH, 0x62, SLASH, PERIOD, PERIOD, SLASH, 0x63, 0], 4, 2, 4)
      == NormalizeLoop([0x61, SLASH, 0x62, SLASH, 0x62, SLASH, PERIOD, PERIOD, SLASH, 0x63, 0], 6, 4, 6)
  {
    var b2: seq<WChar> := [0x61, SLASH, 0, SLASH, 0x62, SLASH, PERIOD, PERIOD, SLASH, 0x63, 0];
    var b3 := [0x61, SLASH, 0x62, SLASH, 0x62, SLASH, PERIOD, PERIOD, SLASH, 0x63, 0];
    assert CopyDown(b2, 2, 4, 5)[3 := SLASH] == b3 by {
      assert forall i :: 0 <= i < 11 ==> CopyDown(b2, 2, 4, 5)[3 := SLASH][i] == b3[i];
    }
    assert EndSegment(b2, 5, 2, 4) == (b3, 4);
    assert NormalizeLoop(b2, 4, 2, 4) == NormalizeLoop(b2, 5, 2, 4) == NormalizeLoop(b3, 6, 4, 6);
  }

  /** The last two segments of the example in AsWrittenParentKeepsStaleSegment: "../" and "c". */
  lemma StaleSegmentTail()
    ensures NormalizeLoop([0x61, SLASH, 0x62, SLASH, 0x62, SLASH, PERIOD, PERIOD, SLASH, 0x63, 0], 6, 4, 6)
      == Some([0x61, SLASH, 0x62, SLASH, 0x63])
  {
    var b3: seq<WChar> := [0x61, SLASH, 0x62, SLASH, 0x62, SLASH, PERIOD, PERIOD, SLASH, 0x63, 0];
    // "../": the buffer now reads "a/b/b/", so only the stale "b" goes.
    var b3' := b3[6 := 0];
    CLenIs(b3', 6);
    assert UpperFrom(b3', 6, true) == UpperFrom(b3', 5, true) == UpperFrom(b3', 4, false) == 4;
    var b4 := [0x61, SLASH, 0x62, SLASH, 0, 0, 0, PERIOD, SLASH, 0x63, 0];
    assert ClearRange(b3', 4, 6) == b4 by {
      assert forall i :: 0 <= i < 11 ==> ClearRange(b3', 4, 6)[i] == b4[i];
    }
    assert EndSegment(b3, 8, 4, 6) == (b4, 4);
    // "c" and the terminator.
    var b5 := [0x61, SLASH, 0x62, SLASH, 0x63, SLASH, 0, PERIOD, SLASH, 0x63, 0];
    assert CopyDown(b4, 4, 9, 10)[5 := SLASH] == b5 by {
      assert forall i :: 0 <= i < 11 ==> CopyDown(b4, 4, 9, 10)[5 := SLASH][i] == b5[i];
    }
    assert EndSegment(b4, 10, 4, 9) == (b5, 6);
    var out := [0x61, SLASH, 0x62, SLASH, 0x63, 0, 0, PERIOD, SLASH, 0x63, 0];
    assert b5[6 := 0][5 := 0] == out;
    CLenIs(out, 5);
    assert Finish(b5, 6) == [0x61, SLASH, 0x62, SLASH, 0x63];
    assert NormalizeLoop(b4, 9, 4, 9) == Some([0x61, SLASH, 0x62, SLASH, 0x63]);
    assert NormalizeLoop(b3, 6, 4, 6) == NormalizeLoop(b3, 7, 4, 6) == NormalizeLoop(b3, 8, 4, 6) == NormalizeLoop(b4, 9, 4, 9);
  }

  /** Normalised as its comment describes, "a/./b/../c" gives "a/c". */
  lemma NormalizeParentExample()
    ensures Normalize([0x61, SLASH, PERIOD, SLASH, 0x62, SLASH, PERIOD, PERIOD, SLASH, 0x63])
      == [0x61, SLASH, 0x63]
  {
    var segs := ParentExampleSplit();
    ParentExampleFold(segs);
    assert Join([[0x61], [0x63]]) == [0x61, SLASH, 0x63];
  }

  /** "a/./b/../c" splits into "a", ".", "b", ".." and "c". */
  lemma ParentExampleSplit() returns (segs: seq<seq<WChar>>)
    ensures segs == [[0x61], [PERIOD], [0x62], [PERIOD, PERIOD], [0x63]]
    ensures Split([0x61, SLASH, PERIOD, SLASH, 0x62, SLASH, PERIOD, PERIOD, SLASH, 0x63]) == segs
  {
    segs := [[0x61], [PERIOD], [0x62], [PERIOD, PERIOD], [0x63]];
    assert segs[1..][1..][1..][1..] == [[0x63]];
    assert Join(segs[1..][1..][1..]) == [PERIOD, PERIOD, SLASH, 0x63];
    assert Join(segs[1..][1..]) == [0x62, SLASH, PERIOD, PERIOD, SLASH, 0x63];
    assert Join(segs[1..]) == [PERIOD, SLASH, 0x62, SLASH, PERIOD, PERIOD, SLASH, 0x63];
    assert Join(segs) == [0x61, SLASH, PERIOD, SLASH, 0x62, SLASH, PERIOD, PERIOD, SLASH, 0x63];
    SplitJoin(segs);
  }

  /** Folding those components keeps "a" and "c": "." is dropped and ".." removes "b". */
  lemma ParentExampleFold(segs: seq<seq<WChar>>)
    requires segs == [[0x61], [PERIOD], [0x62], [PERIOD, PERIOD], [0x63]]
    ensures Fold(segs, []) == [[0x61], [0x63]]
  {
    assert Step([], segs[0]) == [[0x61]];
    assert Step([[0x61]], segs[1]) == [[0x61]];
    assert Step([[0x61]], segs[2]) == [[0x61], [0x62]];
    assert Step([[0x61], [0x62]], segs[3]) == [[0x61]];
    assert Step([[0x61]], segs[4]) == [[0x61], [0x63]];
    assert Fold(segs, []) == Fold(segs[1..], [[0x61]]) == Fold(segs[2..], [[0x61]]);
    assert Fold(segs[2..], [[0x61]]) == Fold(segs[3..], [[0x61], [0x62]]) == Fold(segs[4..], [[0x61]]);
    assert Fold(segs[4..], [[0x61]]) == [[0x61], [0x63]];
  }

  /**
   * As written, a segment copied onto itself overwrites the terminator with
   * its '/', so the loop reads past the buffer: "a" is never finished.
   */
  lemma AsWrittenReadsPastTerminator()
    ensures NormalizeAsWritten([0x61]) == None
    ensures Normalize([0x61]) == [0x61]
  {
    var b0: seq<WChar> := [0x61, 0];
    assert [0x61] + [0 as WChar] == b0;
    assert SkipSeps(b0, 0) == 0;
    assert CopyDown(b0, 0, 0, 1)[1 := SLASH] == [0x61, SLASH] by {
      assert forall i :: 0 <= i < 2 ==> CopyDown(b0, 0, 0, 1)[1 := SLASH][i] == [0x61, SLASH][i];
    }
    assert EndSegment(b0, 1, 0, 0) == ([0x61, SLASH], 2);
    assert SepFrom([0x61], 0) == 1;
  }

  /** What Finish returns is no longer than the write position it ends at. */
  lemma FinishShorter(buf: seq<WChar>, w: nat)
    requires w < |buf|
    ensures |Finish(buf, w)| <= w
  {
    var b1 := buf[w := 0];
    var b2 := if w > 0 && IsSep(b1[w - 1]) then b1[w - 1 := 0] else b1;
    assert b2[w] == 0;
  }

  lemma {:induction false} LoopShorter(buf: seq<WChar>, r: nat, w: nat, st: nat)
    requires w <= st <= r <= |buf|
    ensures var res := NormalizeLoop(buf, r, w, st); res.Some? ==> |res.value| < |buf|
    decreases |buf| - r
  {
    if r < |buf| {
      if !IsSep(buf[r]) && buf[r] != 0 {
        LoopShorter(buf, r + 1, w, st);
      } else {
        var (b, w') := EndSegment(buf, r, w, st);
        if b[r] == 0 {
          FinishShorter(b, w');
        } else {
          LoopShorter(b, r + 1, w', r + 1);
        }
      }
    }
  }

  /** Whatever the as-written loop finishes with is no longer than its input. */
  lemma NormalizeAsWrittenShorter(p: seq<WChar>)
    ensures var res := NormalizeAsWritten(p); res.Some? ==> |res.value| <= |p|
  {
    var buf := p + [0];
    var lead := SkipSeps(buf, 0);
    var r0 := if lead > 0 then lead - 1 else 0;
    LoopShorter(buf, r0, 0, r0);
  }

  /** Scanning the characters of one component moves r to its end. */
  lemma {:induction false} LoopScans(buf: seq<WChar>, r: nat, e: nat, w: nat, st: nat)
    requires w <= st <= r <= e < |buf|
    requires forall i :: r <= i < e ==> !IsSep(buf[i]) && buf[i] != 0
    ensures NormalizeLoop(buf, r, w, st) == NormalizeLoop(buf, e, w, st)
    decreases e - r
  {
    if r < e {
      LoopScans(buf, r + 1, e, w, st);
    }
  }

  /** Scanning a whole component that holds no separator and no NUL. */
  lemma ComponentScans(buf: seq<WChar>, st: nat, e: nat, w: nat)
    requires w <= st <= e < |buf|
    requires NoSep(buf[st..e]) && NoNul(buf[st..e])
    ensures NormalizeLoop(buf, st, w, st) == NormalizeLoop(buf, e, w, st)
  {
    forall i | st <= i < e
      ensures !IsSep(buf[i]) && buf[i] != 0
    {
      assert buf[i] == buf[st..e][i - st];
    }
    LoopScans(buf, st, e, w, st);
  }

  /** A component copied onto itself leaves the buffer as it was. */
  lemma CopyDownInPlace(buf: seq<WChar>, st: nat, e: nat)
    requires st <= e <= |buf|
    ensures CopyDown(buf, st, st, e) == buf
  {
  }

  /** A proper component ending at e is copied and followed by '/'. */
  lemma EndSegmentProper(buf: seq<WChar>, st: nat, e: nat)
    requires st <= e < |buf| && Proper(buf[st..e])
    ensures EndSegment(buf, e, st, st) == (buf[e := SLASH], e + 1)
  {
    var s0 := buf[st..e];
    if e - st == 1 {
      assert s0 == [buf[st]];
    } else if e - st == 2 {
      assert s0 == [buf[st], buf[st + 1]];
    }
    CopyDownInPlace(buf, st, e);
  }

  lemma JoinCons(segs: seq<seq<WChar>>)
    requires |segs| > 1
    ensures Join(segs) == segs[0] + [SLASH] + Join(segs[1..])
  {
  }

  /**
   * Over pre + Join(segs) + [0], with the write position at the start of the
   * first component, nothing has been dropped: each component is copied onto
   * itself, its '/' lands on the separator after it, and the last one lands
   * on the terminator.
   */
  lemma {:induction false} LoopOverrunsClean(pre: seq<WChar>, segs: seq<seq<WChar>>)
    requires segs != [] && AllProper(segs)
    requires forall k :: 0 <= k < |segs| ==> NoNul(segs[k])
    ensures NormalizeLoop(pre + Join(segs) + [0], |pre|, |pre|, |pre|) == None
    decreases |segs|
  {
    var buf := pre + Join(segs) + [0];
    var st := |pre|;
    var e := st + |segs[0]|;
    FirstOfJoin(pre, segs);
    assert Proper(segs[0]) && NoNul(segs[0]);
    ProperStep(buf, st, e);
    var b := buf[e := SLASH];
    if |segs| > 1 {
      var pre' := pre + segs[0] + [SLASH];
      assert b == pre' + Join(segs[1..]) + [0] && |pre'| == e + 1;
      LoopOverrunsClean(pre', segs[1..]);
    } else {
      assert e + 1 == |b|;
    }
  }

  /** In pre + Join(segs) + [0] the first component follows pre and is ended by '/' or by the terminator. */
  lemma FirstOfJoin(pre: seq<WChar>, segs: seq<seq<WChar>>)
    requires segs != []
    ensures var buf, e := pre + Join(segs) + [0], |pre| + |segs[0]|;
      e < |buf| && buf[|pre|..e] == segs[0] && (buf[e] == 0 || IsSep(buf[e])) &&
      (|segs| > 1 ==> buf[e := SLASH] == pre + segs[0] + [SLASH] + Join(segs[1..]) + [0])
  {
    var s0 := segs[0];
    if |segs| == 1 {
      Middle(pre, s0, [0]);
    } else {
      var rest := Join(segs[1..]);
      JoinCons(segs);
      Regroup(pre, s0, rest);
      Middle(pre, s0, [SLASH] + rest + [0]);
    }
  }

  /** The middle part of a + b + c, and the unit after it. */
  lemma Middle(a: seq<WChar>, b: seq<WChar>, c: seq<WChar>)
    requires c != []
    ensures (a + b + c)[|a|..|a| + |b|] == b && (a + b + c)[|a| + |b|] == c[0]
  {
    assert (a + b + c)[|a|..|a| + |b|] == b;
  }

  /** pre + (s0 + "/" + rest) + [0], regrouped around the separator. */
  lemma Regroup(pre: seq<WChar>, s0: seq<WChar>, rest: seq<WChar>)
    ensures pre + (s0 + [SLASH] + rest) + [0] == pre + s0 + ([SLASH] + rest + [0])
    ensures pre + (s0 + [SLASH] + rest) + [0] == pre + s0 + [SLASH] + rest + [0]
  {
  }

  /** One proper component, copied onto itself, then the character after it. */
  lemma ProperStep(buf: seq<WChar>, st: nat, e: nat)
    requires st <= e < |buf| && Proper(buf[st..e]) && NoNul(buf[st..e])
    requires buf[e] == 0 || IsSep(buf[e])
    ensures NormalizeLoop(buf, st, st, st) == NormalizeLoop(buf[e := SLASH], e + 1, e + 1, e + 1)
  {
    ComponentScans(buf, st, e, st);
    EndSegmentProper(buf, st, e);
  }

  /**
   * As written, Phat_NormalizePath never finishes a path that is already
   * normal: the terminator of any non-empty path made of proper components is
   * overwritten, and the loop reads past the buffer, while the intended
   * routine leaves such a path as it is.
   */
  lemma AsWrittenOverrunsNormalPaths(segs: seq<seq<WChar>>)
    requires segs != [] && AllProper(segs)
    requires forall k :: 0 <= k < |segs| ==> NoNul(segs[k])
    ensures NormalizeAsWritten(Join(segs)) == None
    ensures Normalize(Join(segs)) == Join(segs)
  {
    StartsInPlace(segs);
    assert Fold(Split(Join(segs)), []) == segs by {
      SplitJoin(segs);
      FoldOfProper(segs, []);
      assert [] + segs == segs;
    }
  }

  /** A path made of proper components starts the loop at its first character. */
  lemma StartsInPlace(segs: seq<seq<WChar>>)
    requires segs != [] && AllProper(segs)
    requires forall k :: 0 <= k < |segs| ==> NoNul(segs[k])
    ensures NormalizeAsWritten(Join(segs)) == NormalizeLoop(Join(segs) + [0], 0, 0, 0) == None
  {
    var p := Join(segs);
    var buf := p + [0];
    assert SkipSeps(buf, 0) == 0 by {
      JoinEnds(segs);
      assert buf[0] == p[0];
    }
    assert buf == [] + Join(segs) + [0];
    LoopOverrunsClean([], segs);
  }

  // ---------------------------------------------------------------------
  // Phat_PathToName.

  /** The backward scan over the last component from chr: where it stops. */
  function NameStop(buf: seq<WChar>, chr: nat): (stop: nat)
    requires chr < |buf|
    ensures stop <= chr
    ensures forall k :: stop < k <= chr ==> !IsSep(buf[k])
    ensures stop > 0 ==> IsSep(buf[stop])
  {
    if chr > 0 && !IsSep(buf[chr]) then NameStop(buf, chr - 1) else chr
  }

  /** Where the copied name starts and how many units it has, before the cap. */
  function NameSpan(p: seq<WChar>): (span: (nat, nat))
    ensures span.0 + span.1 == |p|
  {
    var buf := p + [0];
    var stop := NameStop(buf, |p|);
    if IsSep(buf[stop]) then (stop + 1, |p| - stop - 1) else (stop, |p| - stop)
  }

  /**
   * Phat_PathToName as written: the units copied into name. The loop meant
   * to clear trailing separators starts on the terminator and stops at once,
   * and when the name is longer than MAX_LFN the copy stops after MAX_LFN + 1
   * units of the name, with no terminator.
   */
  function PathToNameAsWritten(p: seq<WChar>): (name: seq<WChar>)
  {
    var buf := p + [0];
    var (start, length) := NameSpan(p);
    var capped := if length > MAX_LFN then MAX_LFN else length;
    buf[start..start + capped + 1]
  }

  /** The string with trailing separators removed; index 0 is never removed. */
  function StripSeps(p: seq<WChar>): (q: seq<WChar>)
    ensures |q| <= |p| && q == p[..|q|] && (|p| > 0 ==> |q| > 0)
    ensures |q| > 1 ==> !IsSep(q[|q| - 1])
    ensures forall k :: |q| <= k < |p| ==> IsSep(p[k])
  {
    if |p| > 1 && IsSep(p[|p| - 1]) then StripSeps(p[..|p| - 1]) else p
  }

  /**
   * Phat_PathToName corrected: trailing separators are removed first, and
   * the copy is at most MAX_LFN units followed by a terminator.
   */
  function PathToName(p: seq<WChar>): (name: seq<WChar>)
    ensures 1 <= |name| <= MAX_LFN + 1 && name[|name| - 1] == 0
    ensures NoNul(p) ==> NoSep(name[..|name| - 1]) && NoNul(name[..|name| - 1])
  {
    var q := StripSeps(p);
    var (start, length) := NameSpan(q);
    var capped := if length > MAX_LFN then MAX_LFN else length;
    NameSpanClean(p, q, start, length, capped);
    q[start..start + capped] + [0]
  }

  /** The units PathToName copies are no separators, and no terminators when the path has none. */
  lemma NameSpanClean(p: seq<WChar>, q: seq<WChar>, start: nat, length: nat, capped: nat)
    requires q == StripSeps(p) && NameSpan(q) == (start, length) && capped <= length
    ensures start + capped <= |q|
    ensures NoSep(q[start..start + capped])
    ensures NoNul(p) ==> NoNul(q[start..start + capped])
    ensures (q[start..start + capped] + [0])[..capped] == q[start..start + capped]
  {
    var buf := q + [0];
    var stop := NameStop(buf, |q|);
    forall k | start <= k < start + capped
      ensures !IsSep(q[k]) && (NoNul(p) ==> q[k] != 0)
    {
      assert buf[k] == q[k];
      assert q[k] == p[k];
    }
  }

  /** The backward scan stops at the separator before a separator-free tail. */
  lemma {:induction false} NameStopAt(buf: seq<WChar>, chr: nat, lo: nat)
    requires lo <= chr < |buf|
    requires lo == 0 || IsSep(buf[lo])
    requires forall k :: lo < k <= chr ==> !IsSep(buf[k])
    ensures NameStop(buf, chr) == lo
    decreases chr
  {
    if chr > lo {
      NameStopAt(buf, chr - 1, lo);
    }
  }

  /**
   * The last component of a path comes back, whatever comes before it and
   * however many separators follow it.
   */
  lemma PathToNameOfJoin(dir: seq<WChar>, name: seq<WChar>, tail: seq<WChar>)
    requires 1 <= |name| <= MAX_LFN && NoSep(name) && NoNul(name)
    requires forall k :: 0 <= k < |tail| ==> IsSep(tail[k])
    ensures PathToName(dir + [SLASH] + name + tail) == name + [0]
    ensures dir == [] ==> PathToName(name + tail) == name + [0]
  {
    var p := dir + [SLASH] + name;
    StripNameTail(p, tail);
    var buf := p + [0];
    NameStopAt(buf, |p|, |dir|);
    assert buf[|dir|] == SLASH;
    assert NameSpan(p) == (|dir| + 1, |name|);
    assert p[|dir| + 1..|dir| + 1 + |name|] == name;
    if dir == [] {
      PathToNameOfName(name, tail);
    }
  }

  /** A path of one component, followed by separators, names that component. */
  lemma PathToNameOfName(name: seq<WChar>, tail: seq<WChar>)
    requires 1 <= |name| <= MAX_LFN && NoSep(name) && NoNul(name)
    requires forall k :: 0 <= k < |tail| ==> IsSep(tail[k])
    ensures PathToName(name + tail) == name + [0]
  {
    StripNameTail(name, tail);
    var buf := name + [0];
    NameStopAt(buf, |name|, 0);
    assert buf[0..|name|] == name;
  }

  lemma {:induction false} StripNameTail(p: seq<WChar>, tail: seq<WChar>)
    requires p != [] && !IsSep(p[|p| - 1])
    requires forall k :: 0 <= k < |tail| ==> IsSep(tail[k])
    ensures StripSeps(p + tail) == p
    decreases |tail|
  {
    if tail != [] {
      var t := tail[..|tail| - 1];
      assert (p + tail)[..|p + tail| - 1] == p + t;
      StripNameTail(p, t);
    } else {
      assert p + tail == p;
    }
  }

  /** As written, a trailing separator gives the empty name: "a/b/" gives "". */
  lemma AsWrittenTrailingSeparator()
    ensures PathToNameAsWritten([0x61, SLASH, 0x62, SLASH]) == [0]
    ensures PathToName([0x61, SLASH, 0x62, SLASH]) == [0x62, 0]
  {
    var p: seq<WChar> := [0x61, SLASH, 0x62, SLASH];
    assert NameStop(p + [0], 4) == 3;
    PathToNameOfJoin([0x61], [0x62], [SLASH]);
    assert [0x61] + [SLASH] + [0x62] + [SLASH] == p;
  }

  /** As written, a name longer than MAX_LFN is copied without a terminator. */
  lemma AsWrittenLongNameUnterminated(name: seq<WChar>)
    requires |name| > MAX_LFN && NoSep(name) && NoNul(name)
    ensures var r := PathToNameAsWritten(name); |r| == MAX_LFN + 1 && NoNul(r)
    ensures var r := PathToName(name); |r| == MAX_LFN + 1 && r[MAX_LFN] == 0
  {
    var buf := name + [0];
    NameStopAt(buf, |name|, 0);
    var r := PathToNameAsWritten(name);
    assert forall k :: 0 <= k < |r| ==> r[k] == name[k];
  }

  // ---------------------------------------------------------------------
  // Phat_IsValidFilename.

  /** The code units a file name may not contain: " * / : < > ? \ | and controls. */
  predicate Forbidden(ch: WChar)
  {
    ch == 0x22 || ch == 0x2A || ch == SLASH || ch == 0x3A || ch == 0x3C
    || ch == 0x3E || ch == 0x3F || ch == BACKSLASH || ch == 0x7C || ch < 0x20
  }

  predicate ValidFilename(name: seq<WChar>)
  {
    1 <= |name| <= MAX_LFN
    && (forall i :: 0 <= i < |name| ==> !Forbidden(name[i]))
    && name != [PERIOD] && name != [PERIOD, PERIOD]
  }

  /** Phat_IsValidFilename on a name given without its terminator. */
  method IsValidFilename(filename: seq<WChar>) returns (ok: bool)
    ensures ok == ValidFilename(filename)
  {
    var length := |filename|;
    if length == 0 || length > MAX_LFN {
      return false;
    }
    var i := 0;
    while i < length
      invariant 0 <= i <= length
      invariant forall j :: 0 <= j < i ==> !Forbidden(filename[j])
    {
      if Forbidden(filename[i]) {
        return false;
      }
      i := i + 1;
    }
    if length == 1 && filename[0] == PERIOD {
      return false;
    }
    if length == 2 && filename[0] == PERIOD && filename[1] == PERIOD {
      return false;
    }
    return true;
  }
}
