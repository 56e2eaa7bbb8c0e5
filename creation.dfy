/**
 * Phat_CreateNewItemInDir: the search for a run of free slots long enough
 * for the new item, the items written into that run, and the "." and ".."
 * entries that seed a new directory. The search is stated over the
 * directory's items in order: the slots the directory has, and, for a
 * directory that can grow by a cluster (every one but the fixed FAT12/16
 * root), wiped slots past them.
 */
module Creation {
  import opened Common
  import opened LongNames
  import opened ShortNames
  import opened DirEntries
  import opened DirItems

  // ---------------------------------------------------------------------
  // The free-run search (phat.c 1945-1980).

  /** Slot k can be moved to: the directory has it, or can be grown to it. */
  predicate Exists(items: seq<Entry>, growable: bool, k: nat)
  {
    k < |items| || growable
  }

  /** Slot k can take a new entry: a free slot of the directory, or a wiped slot of a new cluster. */
  predicate Vacant(items: seq<Entry>, growable: bool, k: nat)
  {
    if k < |items| then IsFree(items[k]) else growable
  }

  /** The need slots from f can all take the new item. */
  ghost predicate Fits(items: seq<Entry>, growable: bool, f: nat, need: nat)
  {
    forall m :: f <= m < f + need ==> Vacant(items, growable, m)
  }

  /** How many slots from k on are vacant, counting at most need of them. */
  function VacantRun(items: seq<Entry>, growable: bool, k: nat, need: nat): (n: nat)
    ensures n <= need
    ensures forall m :: k <= m < k + n ==> Vacant(items, growable, m)
    ensures n < need ==> !Vacant(items, growable, k + n)
    decreases need
  {
    if need == 0 || !Vacant(items, growable, k) then 0 else 1 + VacantRun(items, growable, k + 1, need - 1)
  }

  /** Where the new item goes: its first slot, and the last slot the cursor was moved to. */
  datatype Run = Run(first: nat, reach: nat)

  /**
   * The search from slot k for need vacant slots in a row. A slot in use is
   * stepped over; a vacant one starts a run that is counted until it is long
   * enough or a slot in use breaks it, and the search goes on from there.
   * Moving past the last slot of a directory that cannot grow ends the
   * search (EndOfDirectory, None). As written (asWritten), the cursor is
   * moved past the first slot of a run before the run is checked against
   * need, so a run of one slot also needs the slot after it.
   */
  function FreeRun(items: seq<Entry>, growable: bool, need: nat, k: nat, asWritten: bool): (r: Option<Run>)
    requires need >= 1 && Exists(items, growable, k)
    decreases |items| + 1 - k
  {
    if !Vacant(items, growable, k) then
      if Exists(items, growable, k + 1) then FreeRun(items, growable, need, k + 1, asWritten) else None
    else
      var n := VacantRun(items, growable, k, need);
      if n == need then
        if asWritten && need == 1 then
          if Exists(items, growable, k + 1) then Some(Run(k, k + 1)) else None
        else
          Some(Run(k, k + need - 1))
      else if Exists(items, growable, k + n) then FreeRun(items, growable, need, k + n, asWritten)
      else None
  }

  /** A slot the directory cannot reach rules out every later one. */
  lemma ExistsBelow(items: seq<Entry>, growable: bool, a: nat, b: nat)
    requires !Exists(items, growable, a) && a <= b
    ensures !Exists(items, growable, b) && !Vacant(items, growable, b)
  {
  }

  /**
   * The search checks before it advances: it finds the first run from k that
   * fits, the cursor reaching only the run's last slot; it fails only when no
   * run fits, which never happens in a directory that can grow.
   */
  lemma {:induction false} FreeRunIsFirstFit(items: seq<Entry>, growable: bool, need: nat, k: nat)
    requires need >= 1 && Exists(items, growable, k)
    ensures var r := FreeRun(items, growable, need, k, false);
      (r.Some? ==> k <= r.value.first && Fits(items, growable, r.value.first, need) &&
                   r.value.reach == r.value.first + need - 1 &&
                   forall f :: k <= f < r.value.first ==> !Fits(items, growable, f, need)) &&
      (r.None? ==> !growable && forall f :: f >= k ==> !Fits(items, growable, f, need))
    decreases |items| + 1 - k
  {
    var r := FreeRun(items, growable, need, k, false);
    if !Vacant(items, growable, k) {
      assert !Fits(items, growable, k, need);
      if Exists(items, growable, k + 1) {
        FreeRunIsFirstFit(items, growable, need, k + 1);
      } else {
        forall f | f >= k ensures !Fits(items, growable, f, need) {
          if f > k {
            ExistsBelow(items, growable, k + 1, f);
          }
        }
      }
    } else {
      var n := VacantRun(items, growable, k, need);
      if n < need {
        assert !Vacant(items, growable, k + n);
        forall f | k <= f <= k + n ensures !Fits(items, growable, f, need) {
          assert f <= k + n < f + need;
        }
        if Exists(items, growable, k + n) {
          FreeRunIsFirstFit(items, growable, need, k + n);
        } else {
          forall f | f >= k ensures !Fits(items, growable, f, need) {
            if f > k + n {
              ExistsBelow(items, growable, k + n, f);
            }
          }
        }
      }
    }
  }

  /** A run fits within the slots the directory has: the search then needs no new cluster. */
  lemma SearchKeepsSize(items: seq<Entry>, growable: bool, need: nat, f: nat)
    requires need >= 1 && Exists(items, growable, 0)
    requires Fits(items, growable, f, need) && f + need <= |items|
    ensures var r := FreeRun(items, growable, need, 0, false);
      r.Some? && r.value.first <= f && r.value.reach < |items|
  {
    FreeRunIsFirstFit(items, growable, need, 0);
  }

  /** Runs of two or more slots are found alike as written and as intended. */
  lemma {:induction false} AsWrittenWideRun(items: seq<Entry>, growable: bool, need: nat, k: nat)
    requires need >= 2 && Exists(items, growable, k)
    ensures FreeRun(items, growable, need, k, true) == FreeRun(items, growable, need, k, false)
    decreases |items| + 1 - k
  {
    if !Vacant(items, growable, k) {
      if Exists(items, growable, k + 1) {
        AsWrittenWideRun(items, growable, need, k + 1);
      }
    } else {
      var n := VacantRun(items, growable, k, need);
      if n < need && Exists(items, growable, k + n) {
        AsWrittenWideRun(items, growable, need, k + n);
      }
    }
  }

  /**
   * For one slot, the search as written finds the same slot as intended but
   * also moves to the slot after it: when that slot is past the end, a
   * directory that can grow is given a cluster it does not need, and one
   * that cannot fails with EndOfDirectory.
   */
  lemma {:induction false} AsWrittenOneSlot(items: seq<Entry>, growable: bool, k: nat)
    requires Exists(items, growable, k)
    ensures var w := FreeRun(items, growable, 1, k, true);
      var r := FreeRun(items, growable, 1, k, false);
      (r.None? ==> w.None?) &&
      (r.Some? ==> r.value.reach == r.value.first &&
                   w == (if Exists(items, growable, r.value.first + 1) then Some(Run(r.value.first, r.value.first + 1)) else None))
    decreases |items| + 1 - k
  {
    if !Vacant(items, growable, k) {
      if Exists(items, growable, k + 1) {
        AsWrittenOneSlot(items, growable, k + 1);
      }
    }
  }

  /**
   * The input that shows it: in a fixed root whose only free slot is the
   * last one, the intended search finds that slot and the search as written
   * fails; in a directory that can grow, it reaches past the last slot.
   */
  lemma AsWrittenMissesLastSlot(items: seq<Entry>, growable: bool)
    requires |items| >= 1 && IsFree(items[|items| - 1])
    requires forall m :: 0 <= m < |items| - 1 ==> !IsFree(items[m])
    ensures FreeRun(items, growable, 1, 0, false) == Some(Run(|items| - 1, |items| - 1))
    ensures !growable ==> FreeRun(items, growable, 1, 0, true).None?
    ensures growable ==> FreeRun(items, growable, 1, 0, true) == Some(Run(|items| - 1, |items|))
  {
    var last := |items| - 1;
    FreeRunIsFirstFit(items, growable, 1, 0);
    var r := FreeRun(items, growable, 1, 0, false);
    assert Fits(items, growable, last, 1);
    forall f: nat | f < last ensures !Fits(items, growable, f, 1) {
      assert !Vacant(items, growable, f);
    }
    assert r.Some? && r.value.first == last;
    AsWrittenOneSlot(items, growable, 0);
  }

  // ---------------------------------------------------------------------
  // The items written (phat.c 1933-1942, 2027-2080).

  /** Slots a new item takes: its short entry, after one long-name entry per 13 code units when it needs a long name. */
  function ItemsNeeded(len: nat, only83: bool): (n: nat)
    ensures n >= 1 && (only83 ==> n == 1)
    ensures len <= MAX_LFN ==> n <= 21
  {
    if only83 then 1 else 1 + EntryCount(len)
  }

  /**
   * The items written from the first slot of the run: the long-name entries
   * with the checksum of the 8.3 name, unless the name is an 8.3 name, then
   * the short entry with case bits caseBits, the creation and modification
   * stamps, the first cluster and size 0.
   */
  function CreatedItems(name: seq<WChar>, sfn83: seq<Byte>, only83: bool, caseBits: Byte, attr: Byte,
                        date: Word, time: Word, cluster: DWord): (r: seq<Entry>)
    requires |sfn83| == 11 && (only83 || IsStorableName(name))
    ensures |r| == ItemsNeeded(|name|, only83)
  {
    var long := if only83 then [] else EncodeLongName(name, Checksum(sfn83));
    long + [ShortEntry(sfn83, attr, caseBits, date, time, cluster)]
  }

  /**
   * What is written is listed under the name it was created with, when the
   * short entry keeps the case bits of Phat_IsFit83 (with the corrected
   * split of base and extension): the enumeration gathers the long-name
   * entries and reports the short entry under the long name, or, for an 8.3
   * name, displays the 8.3 name with its case bits as the name itself.
   */
  lemma CreatedItemsListed(buffer: seq<WChar>, oldChecksum: Byte, name: seq<WChar>, sfn83: seq<Byte>, only83: bool,
                           attr: Byte, date: Word, time: Word, cluster: DWord)
    requires |buffer| == LFN_BUFFER && |sfn83| == 11
    requires only83 ==> Fits83Listed(name) && NoNul(name) &&
                        sfn83 == Sfn83(name)
    requires !only83 ==> IsStorableName(name)
    ensures var items := CreatedItems(name, sfn83, only83, if only83 then CaseInfo(name, false) else 0,
                                      attr, date, time, cluster);
      var r := Scan(Fresh(buffer, oldChecksum), items[..|items| - 1]);
      r.0 == OK && ListedName(Finish(r.1, items[|items| - 1])) == name
  {
    var caseBits := if only83 then CaseInfo(name, false) else 0;
    var items := CreatedItems(name, sfn83, only83, caseBits, attr, date, time, cluster);
    var short := ShortEntry(sfn83, attr, caseBits, date, time, cluster);
    ShortEntryFields(sfn83, attr, caseBits, date, time, cluster);
    assert items[|items| - 1] == short;
    if only83 {
      assert items[..|items| - 1] == [];
      DisplayRoundTrip(name);
    } else {
      assert items[..|items| - 1] == EncodeLongName(name, Checksum(Name83(short)));
      ListedLongName(buffer, oldChecksum, name, short);
    }
  }

  /**
   * As written, the short entry of an 8.3 name gets case bits 0 whatever
   * Phat_IsFit83 found: a name with a lower-case letter ("readme.txt") is
   * listed upper-cased ("README.TXT"), so a lookup of the name it was
   * created with does not find it.
   */
  lemma AsWrittenDropsCase(buffer: seq<WChar>, oldChecksum: Byte, name: seq<WChar>, i: nat,
                           attr: Byte, date: Word, time: Word, cluster: DWord)
    requires |buffer| == LFN_BUFFER
    requires Fits83Listed(name) && NoNul(name)
    requires i < |name| && IsLowerW(name[i])
    ensures var items := CreatedItems(name, Sfn83(name), true, 0, attr, date, time, cluster);
      var r := Scan(Fresh(buffer, oldChecksum), items[..|items| - 1]);
      r.0 == OK && ListedName(Finish(r.1, items[|items| - 1])) != name
  {
    var short := ShortEntry(Sfn83(name), attr, 0, date, time, cluster);
    var items := CreatedItems(name, Sfn83(name), true, 0, attr, date, time, cluster);
    ShortEntryFields(Sfn83(name), attr, 0, date, time, cluster);
    assert items[..|items| - 1] == [] && items[|items| - 1] == short;
    DisplayOfSfn83(name, 0);
    var shown := ShownName(name, 0);
    assert name[i] != DOT;
    assert shown[i] == ShowByte(StoredByte(name[i]), false);
    assert shown[i] != name[i];
    var s := Finish(Fresh(buffer, oldChecksum), short);
    assert s.buffer[..s.length] == shown;
  }

  // ---------------------------------------------------------------------
  // Seeding a new directory (phat.c 1983-2026).

  /**
   * The two items a new directory starts with: "." for its own first
   * cluster and ".." for the parent's, stored as 0 when the parent is the
   * root directory; both are directories of size 0 that the enumeration
   * lists under the names "." and "..".
   */
  lemma SeedEntries(date: Word, time: Word, cluster: DWord, parent: DWord, rootCluster: DWord)
    ensures var dot := DotEntry(date, time, cluster);
      Listed(dot) && Attributes(dot) == ATTRIB_DIRECTORY && FirstClusterOf(dot) == cluster && FileSizeOf(dot) == 0 &&
      DisplayName(Name83(dot), dot[12]) == [DOT]
    ensures var dotdot := DotDotEntry(date, time, parent, rootCluster);
      Listed(dotdot) && Attributes(dotdot) == ATTRIB_DIRECTORY && FileSizeOf(dotdot) == 0 &&
      FirstClusterOf(dotdot) == (if parent == rootCluster then 0 else parent) &&
      DisplayName(Name83(dotdot), dotdot[12]) == [DOT, DOT]
  {
    var p := if parent == rootCluster then 0 else parent;
    ShortEntryFields(DOT_NAME, ATTRIB_DIRECTORY, 0, date, time, cluster);
    ShortEntryFields(DOTDOT_NAME, ATTRIB_DIRECTORY, 0, date, time, p);
    ShortEntryKind(DOT_NAME, ATTRIB_DIRECTORY, 0, date, time, cluster);
    ShortEntryKind(DOTDOT_NAME, ATTRIB_DIRECTORY, 0, date, time, p);
    DotNamesShown();
  }

  lemma DotNamesShown()
    ensures DisplayName(DOT_NAME, 0) == [DOT]
    ensures DisplayName(DOTDOT_NAME, 0) == [DOT, DOT]
  {
    PaddedShown(DOT_NAME, 1);
    PaddedShown(DOTDOT_NAME, 2);
  }

  /** An 8.3 name of n visible base bytes and an empty extension is shown as those bytes. */
  lemma PaddedShown(sfn83: seq<Byte>, n: nat)
    requires |sfn83| == 11 && 1 <= n <= 8
    requires forall j :: 0 <= j < n ==> sfn83[j] != 0 && sfn83[j] != SPACE
    requires forall j :: n <= j < 11 ==> sfn83[j] == SPACE
    ensures DisplayName(sfn83, 0) == ShownPart(sfn83, 0, n, false)
  {
    TrimEndPadded(sfn83[..8], n);
    TrimEndPadded(sfn83[8..], 0);
  }
}
