/**
 * The mounted volume (Phat_t) and the engine's FAT layer on top of the
 * sector cache: reading and writing entries (Phat_ReadFAT, Phat_WriteFAT),
 * searching and counting free clusters, following, freeing and allocating
 * cluster chains, the dirty flag in entry 0, the FSInfo sector, wiping a
 * cluster, and Phat_Mount / Phat_Unmount.
 *
 * Every operation is specified over the disk as the engine sees it
 * (Cache.View: the device with the cached changes laid over it) and over
 * the table read from its first FAT copy (FatImage.Fat).
 */
module FatVolume {
  import opened Common
  import opened FatCodec
  import opened Boot
  import opened FatImage
  import opened SectorCache

  /** Copy k of the FAT lies inside the FAT area. */
  lemma CopyInFat(g: Geometry, n: nat, k: nat, l: nat)
    requires OnDisk(g, n) && k < g.numFATs && InCopy(g, k, l)
    ensures InFat(g, l)
  {
    CopyOnDisk(g, n, k);
  }

  /** The table after the entries of `freed` are set to 0, one after the other. */
  function Freed(t: seq<DWord>, freed: seq<nat>): (r: seq<DWord>)
    ensures |r| == |t|
  {
    if freed == [] then t
    else
      var p := Freed(t, freed[..|freed| - 1]);
      var c := freed[|freed| - 1];
      if c < |p| then p[c := 0] else p
  }

  /** After freeing, an entry reads 0 exactly when it was freed, and as before otherwise. */
  lemma {:induction false} FreedAt(t: seq<DWord>, freed: seq<nat>, j: nat)
    requires j < |t|
    ensures Freed(t, freed)[j] == if j in freed then 0 else t[j]
  {
    if freed != [] {
      var init := freed[..|freed| - 1];
      FreedAt(t, init, j);
      assert freed == init + [freed[|freed| - 1]];
    }
  }

  /** Freeing one more entry. */
  lemma FreedStep(t: seq<DWord>, freed: seq<nat>, c: nat)
    requires c < |t|
    ensures Freed(t, freed + [c]) == Freed(t, freed)[c := 0]
  {
    assert (freed + [c])[..|freed|] == freed;
  }

  /** `chain` is a run of linked entries: each one's entry holds the next cluster. */
  ghost predicate Linked(t: seq<DWord>, chain: seq<nat>)
    decreases |chain|
  {
    chain == [] ||
    (chain[|chain| - 1] < |t| && Linked(t, chain[..|chain| - 1]) &&
     (|chain| >= 2 ==> t[chain[|chain| - 2]] as nat == chain[|chain| - 1]))
  }

  /** Linked, element by element: every cluster is in the table and its entry names the next. */
  lemma {:induction false} LinkedMeans(t: seq<DWord>, chain: seq<nat>)
    ensures Linked(t, chain) <==>
      (forall i :: 0 <= i < |chain| ==> chain[i] < |t|) &&
      (forall i :: 0 <= i < |chain| - 1 ==> t[chain[i]] as nat == chain[i + 1])
  {
    if chain != [] {
      var init := chain[..|chain| - 1];
      LinkedMeans(t, init);
      assert forall i :: 0 <= i < |init| ==> init[i] == chain[i];
    }
  }

  /** The smallest cluster of a chain, or `bound` when that is smaller. */
  function MinOf(bound: nat, chain: seq<nat>): (m: nat)
    ensures m <= bound && forall i :: 0 <= i < |chain| ==> m <= chain[i]
    ensures m == bound || m in chain
  {
    if chain == [] then bound else MinNat(MinOf(bound, chain[..|chain| - 1]), chain[|chain| - 1])
  }

  /** The entry read from a copy of the sector that holds it. */
  lemma EntryFromSector(view: seq<Sector>, g: Geometry, c: nat, data: Sector)
    requires Sound(g) && OnDisk(g, |view|) && c < g.numFatEntries
    requires EntryByte(g.fatBits, c) + EntrySpan(g.fatBits) <= 512
    requires EntryLba(g, 0, c) < |view| && data == view[EntryLba(g, 0, c)]
    ensures DecodeWithin(g.fatBits, c, data) == Fat(view, g)[c]
  {
    ReadInSector(view, g, c);
  }

  /** Entry c decoded from the bytes it occupies in a copy of its sector. */
  function DecodeWithin(bits: nat, c: nat, data: Sector): (v: DWord)
    requires ValidBits(bits) && EntryByte(bits, c) + EntrySpan(bits) <= 512
  {
    Decode(bits, c % 2 == 1, data[EntryByte(bits, c)..EntryByte(bits, c) + EntrySpan(bits)])
  }

  /** A crossing FAT12 entry read from copies of its two sectors. */
  lemma EntryFromSectors(view: seq<Sector>, g: Geometry, c: nat, d0: Sector, d1: Sector)
    requires Sound(g) && OnDisk(g, |view|) && c < g.numFatEntries
    requires EntryByte(g.fatBits, c) + EntrySpan(g.fatBits) > 512
    requires EntryLba(g, 0, c) + 1 < |view| && d0 == view[EntryLba(g, 0, c)] && d1 == view[EntryLba(g, 0, c) + 1]
    ensures Decode(12, c % 2 == 1, [d0[511], d1[0]]) == Fat(view, g)[c]
  {
    ReadAcrossSectors(view, g, c);
  }

  /** `b` agrees with `a` on every sector outside copy k of the FAT. */
  ghost predicate SameOutsideCopy(a: seq<Sector>, b: seq<Sector>, g: Geometry, k: nat)
  {
    |b| == |a| && forall l :: 0 <= l < |a| && !InCopy(g, k, l) ==> b[l] == a[l]
  }

  lemma SameOutsideSelf(a: seq<Sector>, g: Geometry, k: nat)
    ensures SameOutsideCopy(a, a, g, k)
  {
  }

  /** Changing one sector of copy k keeps the sectors outside it. */
  lemma SameOutsideUpdate(a: seq<Sector>, b: seq<Sector>, g: Geometry, k: nat, l: nat, t: Sector)
    requires SameOutsideCopy(a, b, g, k) && l < |b| && InCopy(g, k, l)
    ensures SameOutsideCopy(a, b[l := t], g, k)
  {
  }

  /** Changing two sectors of copy k keeps the sectors outside it. */
  lemma SameOutsidePair(a: seq<Sector>, g: Geometry, k: nat, l: nat, t0: Sector, t1: Sector)
    requires l + 1 < |a| && InCopy(g, k, l) && InCopy(g, k, l + 1)
    ensures SameOutsideCopy(a, a[l := t0][l + 1 := t1], g, k)
  {
  }

  /** An entry that crosses a sector boundary lies in two sectors of copy k, which PutCopy rewrites. */
  lemma AcrossSectors(view: seq<Sector>, g: Geometry, k: nat, c: nat, v: DWord, l: nat)
    requires Sound(g) && OnDisk(g, |view|) && k < g.numFATs && c < g.numFatEntries
    requires EntryByte(g.fatBits, c) + EntrySpan(g.fatBits) > 512 && l == EntryLba(g, k, c)
    ensures l + 1 < |view| && InCopy(g, k, l) && InCopy(g, k, l + 1)
    ensures PutCopy(view, g, k, c, v) == view[l := PutInFirst(view[l], view[l + 1], c, v)][l + 1 := PutInSecond(view[l], view[l + 1], c, v)]
    ensures SameOutsideCopy(view, view, g, k)
  {
    EntryLbaInCopy(g, |view|, k, c);
  }

  /** A change confined to copy k, after changes confined to the FAT, is confined to the FAT. */
  lemma OutsideFatStep(before: seq<Sector>, now: seq<Sector>, after: seq<Sector>, g: Geometry, k: nat)
    requires OnDisk(g, |before|) && k < g.numFATs
    requires SameOutsideFat(before, now, g) && SameOutsideCopy(now, after, g, k)
    ensures SameOutsideFat(before, after, g)
  {
    forall l | 0 <= l < |before| && !InFat(g, l)
      ensures after[l] == before[l]
    {
      if InCopy(g, k, l) {
        CopyInFat(g, |before|, k, l);
      }
    }
  }

  /** Changes confined to the FAT, twice over, are confined to the FAT. */
  lemma OutsideFatTrans(a: seq<Sector>, b: seq<Sector>, c: seq<Sector>, g: Geometry)
    requires SameOutsideFat(a, b, g) && SameOutsideFat(b, c, g)
    ensures SameOutsideFat(a, c, g)
  {
  }

  /** No entry of t in [lo, hi) is free. */
  ghost predicate NoFreeIn(t: seq<DWord>, lo: nat, hi: nat)
  {
    forall j :: lo <= j < hi && j < |t| ==> t[j] != 0
  }

  /** A search that finds entry i in use goes on past it. */
  lemma NoFreeInStep(t: seq<DWord>, lo: nat, i: nat)
    requires NoFreeIn(t, lo, i) && i < |t| && t[i] != 0
    ensures NoFreeIn(t, lo, i + 1)
  {
  }

  /** The minimum over a chain extended by one cluster. */
  lemma MinOfStep(bound: nat, chain: seq<nat>, c: nat)
    ensures MinOf(bound, chain + [c]) == MinNat(MinOf(bound, chain), c)
  {
    assert (chain + [c])[..|chain|] == chain;
  }

  /** Marking the flag and storing the entry leaves the flag reading as marked. */
  lemma MarkedFlag(bits: nat, e: DWord, dirty: bool)
    requires ValidBits(bits)
    requires bits == 12 ==> e <= 0xFFF
    requires bits == 16 ==> e <= 0xFFFF
    ensures IsDirtyEntry(bits, Stored(bits, MarkedEntry(bits, e, dirty))) == dirty
  {
  }

  /**
   * After Phat_MarkDirty the table's entry 0 reads back as the flag that
   * was marked (Phat_CheckIsDirty's answer), and no other entry changed.
   */
  lemma MarkThenCheckTable(t: seq<DWord>, bits: nat, dirty: bool)
    requires ValidBits(bits) && |t| >= 1
    requires bits == 12 ==> t[0] <= 0xFFF
    requires bits == 16 ==> t[0] <= 0xFFFF
    ensures var t2 := t[0 := Stored(bits, MarkedEntry(bits, t[0], dirty))];
      IsDirtyEntry(bits, t2[0]) == dirty && forall c :: 1 <= c < |t| ==> t2[c] == t[c]
  {
    MarkedFlag(bits, t[0], dirty);
  }

  /** `b` is `a` with sectors [lo, hi) zeroed. */
  ghost predicate WipedRange(a: seq<Sector>, b: seq<Sector>, lo: nat, hi: nat)
  {
    |b| == |a| && forall l :: 0 <= l < |a| ==> b[l] == if lo <= l < hi then ZeroSector() else a[l]
  }

  /** `b` agrees with `a` outside [lo, hi). */
  ghost predicate SameOutsideRange(a: seq<Sector>, b: seq<Sector>, lo: nat, hi: nat)
  {
    |b| == |a| && forall l :: 0 <= l < |a| && !(lo <= l < hi) ==> b[l] == a[l]
  }

  /** A range wiped so far leaves everything outside a larger range alone. */
  lemma WipedInside(a: seq<Sector>, b: seq<Sector>, lo: nat, mid: nat, hi: nat)
    requires WipedRange(a, b, lo, mid) && mid <= hi
    ensures SameOutsideRange(a, b, lo, hi)
  {
  }

  /** Zeroing sector `mid` of a wiped [lo, mid) gives a wiped [lo, mid + 1). */
  lemma WipeOne(a: seq<Sector>, b: seq<Sector>, b2: seq<Sector>, lo: nat, mid: nat)
    requires WipedRange(a, b, lo, mid) && lo <= mid
    requires mid < |b| && b2 == b[..mid] + [ZeroSector()] + b[mid + 1..]
    ensures WipedRange(a, b2, lo, mid + 1)
  {
    assert forall l :: 0 <= l < |b| ==> b2[l] == if l == mid then ZeroSector() else b[l];
  }

  /**
   * Phat_UnlinkCluster part way: from the table `before` and the disk
   * `view0`, the walk from `start` has freed `chain` and stands at `cur`,
   * and the hint has been lowered from `hint` to each freed cluster,
   * giving `hintNow`, `view` and `table`.
   */
  ghost predicate UnlinkingAt(g: Geometry, before: seq<DWord>, chain: seq<nat>, cur: nat, start: nat, hint: nat,
                              view0: seq<Sector>, hintNow: nat, view: seq<Sector>, table: seq<DWord>)
  {
    |before| == g.numFatEntries && Walked(before, chain, cur, start, g.maxValid) &&
    table == Freed(before, chain) && hintNow == MinOf(hint, chain) && SameOutsideFat(view0, view, g)
  }

  /**
   * Phat_UnlinkCluster done with status `st`: `chain` is the walk from
   * `start` through the table `before`, the hint has been lowered from
   * `hint` to each of its clusters, only FAT sectors differ from `view0`,
   * and on OK or FATError every cluster of the walk is free. OK means the
   * walk ended at an end-of-chain mark, FATError at a bad entry.
   */
  ghost predicate UnlinkedAt(g: Geometry, before: seq<DWord>, chain: seq<nat>, start: nat, hint: nat,
                             view0: seq<Sector>, st: PhatState, hintNow: nat, view: seq<Sector>, table: seq<DWord>)
  {
    |chain| >= 1 && chain[0] == start && Linked(before, chain) && ValidAfterHead(chain, g.maxValid) &&
    hintNow == MinOf(hint, chain) && SameOutsideFat(view0, view, g) &&
    (st in {OK, FATError} ==> table == Freed(before, chain)) &&
    (st == OK ==> ChainEnds(before, chain, g.endOfChain)) &&
    (st == FATError ==> ChainBroken(before, chain, g.endOfChain, g.maxValid))
  }

  /**
   * One pass of Phat_UnlinkCluster on values: freeing `cur` (status `st`,
   * entry `next`) takes the walk on to `next` when it is a valid cluster,
   * and otherwise ends it with OK at an end-of-chain mark, FATError at a
   * bad entry, or the failure `st`.
   */
  lemma PassStep(g: Geometry, before: seq<DWord>, chain: seq<nat>, cur: nat, start: nat, hint: nat, view0: seq<Sector>,
                 hint0: nat, view: seq<Sector>, st: PhatState, next: DWord, hint1: nat, view1: seq<Sector>, table1: seq<DWord>)
    requires Sound(g) && UnlinkingAt(g, before, chain, cur, start, hint, view0, hint0, view, Freed(before, chain))
    requires st in {OK, ReadFail, WriteFail, InternalError} && hint1 == MinNat(hint0, cur) && SameOutsideFat(view, view1, g)
    requires st == OK ==> next == Freed(before, chain)[cur] && table1 == Freed(before, chain + [cur])
    ensures st != OK ==> UnlinkedAt(g, before, chain + [cur], start, hint, view0, st, hint1, view1, table1)
    ensures st == OK && next as nat >= g.endOfChain ==>
      UnlinkedAt(g, before, chain + [cur], start, hint, view0, OK, hint1, view1, table1)
    ensures st == OK && next as nat < g.endOfChain && (next < 2 || next as nat > g.maxValid) ==>
      UnlinkedAt(g, before, chain + [cur], start, hint, view0, FATError, hint1, view1, table1)
    ensures st == OK && next as nat < g.endOfChain && 2 <= next as nat <= g.maxValid ==>
      cur !in chain && UnlinkingAt(g, before, chain + [cur], next as nat, start, hint, view0, hint1, view1, table1)
  {
    LinkedStep(before, chain, cur);
    ValidAfterFirst(chain, cur, g.maxValid);
    MinOfStep(hint, chain, cur);
    OutsideFatTrans(view0, view, view1, g);
    if st == OK {
      PassFacts(before, chain, cur, start, next, g.endOfChain, g.maxValid);
    }
  }

  /** The 32-bit field an unbounded counter is stored in: its value modulo 2^32. */
  function Low32(n: nat): DWord
  {
    (n % 0x1_0000_0000) as DWord
  }

  lemma SameOutsideFatSelf(a: seq<Sector>, g: Geometry)
    ensures SameOutsideFat(a, a, g)
  {
  }

  /** The last cluster of a non-empty chain has `cur` as its entry. */
  ghost predicate Follows(t: seq<DWord>, chain: seq<nat>, cur: nat)
  {
    chain != [] && chain[|chain| - 1] < |t| && t[chain[|chain| - 1]] as nat == cur
  }

  /** The chain's last entry is an end-of-chain mark. */
  ghost predicate ChainEnds(t: seq<DWord>, chain: seq<nat>, eoc: nat)
  {
    chain != [] && chain[|chain| - 1] < |t| && t[chain[|chain| - 1]] as nat >= eoc
  }

  /** A chain extended by the cluster its last entry names stays linked. */
  lemma LinkedStep(t: seq<DWord>, chain: seq<nat>, cur: nat)
    requires Linked(t, chain) && cur < |t|
    requires chain != [] ==> Follows(t, chain, cur)
    ensures Linked(t, chain + [cur])
    ensures (chain + [cur])[0] == if chain == [] then cur else chain[0]
  {
    assert (chain + [cur])[..|chain|] == chain;
  }

  /**
   * The state of the unlink walk from `start`: `chain` is linked in the
   * original table, every cluster after the first is valid, and `cur` is
   * the start itself or the valid cluster the last one names.
   */
  ghost predicate Walked(before: seq<DWord>, chain: seq<nat>, cur: nat, start: nat, maxValid: nat)
  {
    cur < |before| && Linked(before, chain) &&
    ValidAfterHead(chain, maxValid) &&
    (chain == [] ==> cur == start) &&
    (chain != [] ==> chain[0] == start && Follows(before, chain, cur) && 2 <= cur <= maxValid)
  }

  /** Every cluster of the chain after the first is a valid cluster number. */
  ghost predicate ValidAfterHead(chain: seq<nat>, maxValid: nat)
  {
    chain == [] || forall c :: c in chain[1..] ==> 2 <= c <= maxValid
  }

  /** A chain whose head and later clusters are valid holds only valid clusters. */
  lemma AllValid(chain: seq<nat>, maxValid: nat)
    requires chain != [] && 2 <= chain[0] <= maxValid && ValidAfterHead(chain, maxValid)
    ensures forall c :: c in chain ==> 2 <= c <= maxValid
  {
    assert chain == [chain[0]] + chain[1..];
  }

  /** Clusters after the first of a chain extended by a valid cluster stay valid. */
  lemma ValidAfterFirst(chain: seq<nat>, cur: nat, maxValid: nat)
    requires ValidAfterHead(chain, maxValid)
    requires chain != [] ==> 2 <= cur <= maxValid
    ensures ValidAfterHead(chain + [cur], maxValid)
  {
    if chain != [] {
      assert (chain + [cur])[1..] == chain[1..] + [cur];
    }
  }

  /** Clusters below n the walk has not visited yet. */
  ghost function Unvisited(n: nat, chain: seq<nat>): set<nat>
  {
    set c | 0 <= c < n && c !in chain
  }

  /** Visiting a cluster not visited before leaves fewer unvisited. */
  lemma UnvisitedShrinks(n: nat, chain: seq<nat>, cur: nat)
    requires cur < n && cur !in chain
    ensures Unvisited(n, chain + [cur]) < Unvisited(n, chain)
  {
    assert cur in Unvisited(n, chain);
  }

  /**
   * The walk ended at a cluster it had already freed (the chain loops), or
   * at one whose entry is neither an end-of-chain mark nor a valid cluster.
   */
  ghost predicate ChainBroken(t: seq<DWord>, chain: seq<nat>, eoc: nat, maxValid: nat)
  {
    chain != [] && chain[|chain| - 1] < |t| &&
    (chain[|chain| - 1] in chain[..|chain| - 1] ||
     var n := t[chain[|chain| - 1]] as nat; n < eoc && (n < 2 || n > maxValid))
  }

  /**
   * The unlink walk on the table: `cur`, whose entry in the partly freed
   * table reads `next`, ends the chain at an end-of-chain mark, breaks it
   * at a bad entry, or extends it to the valid cluster `next`.
   */
  lemma PassFacts(before: seq<DWord>, chain: seq<nat>, cur: nat, start: nat, next: DWord, eoc: nat, maxValid: nat)
    requires Walked(before, chain, cur, start, maxValid) && next == Freed(before, chain)[cur]
    requires eoc >= 2 && (maxValid < |before| || maxValid < 2)
    ensures next as nat >= eoc ==> ChainEnds(before, chain + [cur], eoc)
    ensures next as nat < eoc && (next < 2 || next as nat > maxValid) ==>
      ChainBroken(before, chain + [cur], eoc, maxValid)
    ensures next as nat < eoc && 2 <= next as nat <= maxValid ==>
      cur !in chain && Walked(before, chain + [cur], next as nat, start, maxValid)
  {
    if next as nat >= eoc || 2 <= next as nat <= maxValid {
      FreedAt(before, chain, cur);
      LinkedStep(before, chain, cur);
      ValidAfterFirst(chain, cur, maxValid);
    } else {
      BrokenStep(before, chain, cur, eoc, maxValid);
    }
  }

  /** Reading a bad entry for `cur` from the partly freed table ends the walk broken. */
  lemma BrokenStep(before: seq<DWord>, chain: seq<nat>, cur: nat, eoc: nat, maxValid: nat)
    requires cur < |before|
    requires var n := Freed(before, chain)[cur] as nat; n < eoc && (n < 2 || n > maxValid)
    ensures ChainBroken(before, chain + [cur], eoc, maxValid)
  {
    FreedAt(before, chain, cur);
    assert (chain + [cur])[..|chain|] == chain;
  }

  /**
   * A chain walked from entry 0 frees entry 0, the media byte and clean
   * flag, and leaves the next-free hint at 0.
   */
  lemma UnlinkFromZero(before: seq<DWord>, chain: seq<nat>, hint: nat)
    requires |before| >= 1 && chain != [] && chain[0] == 0
    ensures Freed(before, chain)[0] == 0 && MinOf(hint, chain) == 0
  {
    FreedAt(before, chain, 0);
  }

  /** The entry an end-of-chain mark leaves in a FAT of the given width. */
  function EocEntry(bits: nat): DWord
  {
    if bits == 12 then 0xFF8 else if bits == 16 then 0xFFF8 else 0x0FFF_FFF8
  }

  /** The end-of-chain mark is the geometry's, and once stored it reads back unchanged, not free. */
  lemma EndOfChainStored(g: Geometry)
    requires Sound(g)
    ensures EocEntry(g.fatBits) as nat == g.endOfChain
    ensures Stored(g.fatBits, EocEntry(g.fatBits)) == EocEntry(g.fatBits) != 0
  {
    if g.fatBits == 12 {
      assert (0xFF8 as DWord) & 0x0FFF == 0xFF8;
    } else if g.fatBits == 16 {
      assert (0xFFF8 as DWord) & 0xFFFF == 0xFFF8;
    }
  }

  /** Writing a sector outside the first FAT copy leaves the table as it was. */
  lemma FatAfterOtherWrite(view: seq<Sector>, g: Geometry, l: nat, t: Sector)
    requires Sound(g) && OnDisk(g, |view|) && l < |view| && !InCopy(g, 0, l)
    ensures OnDisk(g, |view[l := t]|) && Fat(view[l := t], g) == Fat(view, g)
  {
    ImageAfterWrite(view, g, l, t, 0);
  }

  /** The free count after one cluster is taken: it never goes below 0. */
  function Dec(n: nat): (r: nat)
    ensures n > 0 ==> r + 1 == n
    ensures n == 0 ==> r == 0
  {
    if n > 0 then n - 1 else 0
  }

  /**
   * After the hint is marked with the non-zero e, a free entry the search
   * finds is another cluster, which was free from the start.
   */
  lemma SecondTaken(t0: seq<DWord>, t1: seq<DWord>, hint: nat, c: nat, e: DWord)
    requires e != 0 && hint < |t0| && t1 == t0[hint := e] && c < |t1| && t1[c] == 0
    ensures c != hint && t0[c] == 0 && t1[c := e] == t0[hint := e][c := e]
  {
  }

  /** Two searched ranges that meet cover the whole range. */
  lemma NoFreeInJoin(t: seq<DWord>, lo: nat, mid: nat, hi: nat)
    requires lo <= mid && NoFreeIn(t, lo, mid) && NoFreeIn(t, mid, hi)
    ensures NoFreeIn(t, lo, hi)
  {
  }

  /**
   * The geometry Phat_Mount installs for partition `index` of a disk: the
   * DBR is located from sector 0 (LocateDbr) and read (DbrGeometry). The
   * model mounts only a geometry the FAT and directory layers can work
   * with: one that is Sound and Laid and whose FAT copies lie on the disk.
   */
  function MountedGeometry(disk: seq<Sector>, index: int): (r: Option<Geometry>)
    ensures r.Some? ==> Sound(r.value) && Laid(r.value) && OnDisk(r.value, |disk|) && r.value.partitionStart < |disk|
    ensures r.Some? ==> |disk| > 0 && LocateDbr(disk[0], index) == (OK, r.value.partitionStart)
    ensures r.Some? ==> DbrGeometry(disk[r.value.partitionStart], r.value.partitionStart) == r
  {
    if |disk| == 0 then None
    else
      var loc := LocateDbr(disk[0], index);
      if loc.0 != OK || loc.1 >= |disk| then None
      else
        var g := DbrGeometry(disk[loc.1], loc.1);
        if g.Some? && Sound(g.value) && Laid(g.value) && OnDisk(g.value, |disk|) then g else None
  }

  /** Once the DBR is located at `start`, the mounted geometry is the one DbrGeometry reads there, if the model can mount it. */
  lemma MountedFrom(disk: seq<Sector>, index: int, start: nat)
    requires |disk| > 0 && LocateDbr(disk[0], index) == (OK, start) && start < |disk|
    ensures var g := DbrGeometry(disk[start], start);
      MountedGeometry(disk, index) == if g.Some? && Sound(g.value) && Laid(g.value) && OnDisk(g.value, |disk|) then g else None
  {
  }

  class Volume {
    var cache: Cache
    var geo: Geometry
    var hasFsInfo: bool
    var freeClusters: nat
    var nextFree: nat
    var isDirty: bool
    /** The FSInfo sector Phat_Mount read (partition start plus the BPB's FSInfo field). */
    var fsInfoLba: nat

    /** A volume whose cache is usable. */
    ghost predicate Ready()
      reads this`cache, cache, cache.Repr
    {
      cache.Valid() && this !in cache.Repr
    }

    /** A mounted volume: a usable cache and a sound geometry whose FATs lie on the device. */
    ghost predicate Valid()
      reads this`cache, this`geo, cache, cache.Repr
    {
      cache.Valid() && this !in cache.Repr && Sound(geo) && OnDisk(geo, |cache.dev.disk|) && OnDisk(geo, |View()|)
    }

    /** The disk as the engine sees it. */
    ghost function View(): seq<Sector>
      reads this`cache, cache, cache.slots, cache.dev
    {
      cache.View()
    }

    /** The table of the first FAT copy; empty only when the geometry does not fit the disk, which Valid() rules out. */
    ghost function Table(): (t: seq<DWord>)
      reads this`cache, this`geo, cache, cache.slots, cache.dev
      ensures Sound(geo) && OnDisk(geo, |View()|) ==> |t| == geo.numFatEntries
    {
      if Sound(geo) && OnDisk(geo, |View()|) then Fat(View(), geo) else []
    }

    /** The cache object, its footprint, device and write access, and the geometry are those of the pre-state. */
    twostate predicate Kept()
      reads this`cache, this`geo, cache
    {
      cache == old(cache) && cache.Repr == old(cache.Repr) && geo == old(geo) &&
      cache.dev == old(cache.dev) && cache.writeEnable == old(cache.writeEnable)
    }

    /** A volume whose sectors and geometry read as before has the table it had. */
    twostate lemma TableKept()
      requires geo == old(geo) && View() == old(View())
      ensures Table() == old(Table())
    {
    }

    /** The FSInfo flag, the two counters and the FSInfo sector are those of the pre-state. */
    twostate predicate FsInfoKept()
      reads this
    {
      hasFsInfo == old(hasFsInfo) && freeClusters == old(freeClusters) && nextFree == old(nextFree) &&
      fsInfoLba == old(fsInfoLba)
    }

    /**
     * Phat_Init: every field zero, the device opened, nothing mounted. The
     * current date and time it also sets are not part of this model.
     */
    constructor (d: Device)
      ensures Ready() && fresh(cache) && fresh(cache.slots) && cache.dev == d
      ensures View() == d.disk && !cache.writeEnable && !cache.initialized
      ensures !hasFsInfo && freeClusters == 0 && nextFree == 0 && !isDirty && fsInfoLba == 0
    {
      cache := new Cache(d, false);
      geo := Geometry(0, 0, 0, 0, 0, 0, 0, 0, 0, 0, 0, 0, 0, 0, 0, false, 0, 0);
      hasFsInfo := false;
      freeClusters := 0;
      nextFree := 0;
      isDirty := false;
      fsInfoLba := 0;
    }

    /**
     * Phat_ReadFAT, from the first copy: the entry's sector is
     * partition_start + FAT1_start + offset / 512 (EntryLba) and its bytes
     * start at offset % 512 (EntryByte). A FAT12 entry that starts at the
     * last byte of a sector takes its second byte from the next sector.
     */
    method ReadFat(c: nat) returns (st: PhatState, v: DWord)
      requires Valid() && c < geo.numFatEntries
      modifies cache.Repr
      ensures Valid() && Kept() && View() == old(View())
      ensures st in {OK, ReadFail, WriteFail, InternalError}
      ensures st == OK ==> v == Table()[c]
      ensures st == OK && old(cache.Settled()) ==> cache.Settled()
    {
      if EntryByte(geo.fatBits, c) + EntrySpan(geo.fatBits) <= 512 {
        st, v := ReadWithin(c);
      } else {
        st, v := ReadAcross(c);
      }
    }

    /** ReadFat for an entry inside one sector. */
    method ReadWithin(c: nat) returns (st: PhatState, v: DWord)
      requires Valid() && c < geo.numFatEntries
      requires EntryByte(geo.fatBits, c) + EntrySpan(geo.fatBits) <= 512
      modifies cache.Repr
      ensures Valid() && Kept() && View() == old(View())
      ensures st in {OK, ReadFail, WriteFail, InternalError}
      ensures st == OK ==> v == Table()[c]
      ensures st == OK && old(cache.Settled()) ==> cache.Settled()
    {
      v := 0;
      ghost var view := View();
      EntryLbaInCopy(geo, |view|, 0, c);
      var data;
      st, data := cache.ReadSector(EntryLba(geo, 0, c));
      TableKept();
      if st == OK {
        v := DecodeWithin(geo.fatBits, c, data);
        EntryFromSector(view, geo, c, data);
      }
    }

    /** ReadFat for a FAT12 entry whose second byte is the first of the next sector. */
    method ReadAcross(c: nat) returns (st: PhatState, v: DWord)
      requires Valid() && c < geo.numFatEntries
      requires EntryByte(geo.fatBits, c) + EntrySpan(geo.fatBits) > 512
      modifies cache.Repr
      ensures Valid() && Kept() && View() == old(View())
      ensures st in {OK, ReadFail, WriteFail, InternalError}
      ensures st == OK ==> v == Table()[c]
      ensures st == OK && old(cache.Settled()) ==> cache.Settled()
    {
      v := 0;
      EntryLbaInCopy(geo, |View()|, 0, c);
      var data, next;
      st, data, next := cache.ReadPair(EntryLba(geo, 0, c));
      if st == OK {
        v := Decode(12, c % 2 == 1, [data[511], next[0]]);
        EntryFromSectors(View(), geo, c, data, next);
      }
    }

    /**
     * Phat_WriteFAT's update of copy k: the sector is read through the cache,
     * changed in its slot, and written back when `flush` is set. A FAT12
     * entry that crosses a sector boundary changes the last byte of its
     * sector and the first byte of the next.
     */
    method WriteCopy(k: nat, c: nat, v: DWord, flush: bool) returns (st: PhatState)
      requires Valid() && k < geo.numFATs && c < geo.numFatEntries
      modifies cache.Repr
      ensures Valid() && Kept()
      ensures st in {OK, ReadFail, WriteFail, InternalError}
      ensures st == OK ==> View() == PutCopy(old(View()), geo, k, c, v)
      ensures flush && st == OK && old(cache.Settled()) ==> cache.Settled()
      ensures SameOutsideCopy(old(View()), View(), geo, k)
    {
      EntryLbaInCopy(geo, |View()|, k, c);
      if EntryByte(geo.fatBits, c) + EntrySpan(geo.fatBits) <= 512 {
        st := WriteWithin(k, c, v, flush);
      } else {
        st := WriteAcross(k, c, v, flush);
      }
    }

    /** WriteCopy for an entry inside one sector. */
    method WriteWithin(k: nat, c: nat, v: DWord, flush: bool) returns (st: PhatState)
      requires Valid() && k < geo.numFATs && c < geo.numFatEntries
      requires EntryByte(geo.fatBits, c) + EntrySpan(geo.fatBits) <= 512
      modifies cache.Repr
      ensures Valid() && Kept()
      ensures st in {OK, ReadFail, WriteFail, InternalError}
      ensures st == OK ==> View() == PutCopy(old(View()), geo, k, c, v)
      ensures flush && st == OK && old(cache.Settled()) ==> cache.Settled()
      ensures SameOutsideCopy(old(View()), View(), geo, k)
    {
      ghost var view := View();
      EntryLbaInCopy(geo, |view|, k, c);
      var lba := EntryLba(geo, k, c);
      SameOutsideSelf(view, geo, k);
      var s;
      st, s := cache.ReadSector(lba);
      if st != OK {
        return;
      }
      var t := PutInSector(s, geo.fatBits, c, v);
      st := cache.WriteSector(lba, t, flush);
      if st == OK {
        SameOutsideUpdate(view, view, geo, k, lba, t);
      }
    }

    /** WriteCopy for a FAT12 entry that crosses into the next sector. */
    method WriteAcross(k: nat, c: nat, v: DWord, flush: bool) returns (st: PhatState)
      requires Valid() && k < geo.numFATs && c < geo.numFatEntries
      requires EntryByte(geo.fatBits, c) + EntrySpan(geo.fatBits) > 512
      modifies cache.Repr
      ensures Valid() && Kept()
      ensures st in {OK, ReadFail, WriteFail, InternalError}
      ensures st == OK ==> View() == PutCopy(old(View()), geo, k, c, v)
      ensures flush && st == OK && old(cache.Settled()) ==> cache.Settled()
      ensures SameOutsideCopy(old(View()), View(), geo, k)
    {
      ghost var view := View();
      var lba := EntryLba(geo, k, c);
      AcrossSectors(view, geo, k, c, v, lba);
      var s0, s1;
      st, s0, s1 := cache.ReadPair(lba);
      if st != OK {
        return;
      }
      var t0 := PutInFirst(s0, s1, c, v);
      var t1 := PutInSecond(s0, s1, c, v);
      st := cache.WritePair(lba, t0, t1, flush);
      if st == OK {
        SameOutsidePair(view, geo, k, lba, t0, t1);
      } else if View() != view {
        SameOutsideUpdate(view, view, geo, k, lba, t0);
      }
    }

    /**
     * Phat_WriteFAT: stores v into entry c of the first copy and, when the
     * copies are kept the same, of every other copy too. On success the
     * table reads the stored form of v at c and nothing else changed; a
     * failed read or write may leave copies partly written but never
     * touches a sector outside the FAT.
     */
    method WriteFat(c: nat, v: DWord, flush: bool) returns (st: PhatState)
      requires Valid() && c < geo.numFatEntries
      modifies cache.Repr
      ensures Valid() && Kept()
      ensures st in {OK, ReadFail, WriteFail, InternalError}
      ensures st == OK ==> WroteCopies(old(View()), View(), geo, c, v, MirrorCount(geo))
      ensures st == OK ==> Table() == old(Table())[c := Stored(geo.fatBits, v)]
      ensures flush && st == OK && old(cache.Settled()) ==> cache.Settled()
      ensures SameOutsideFat(old(View()), View(), geo)
    {
      ghost var before := View();
      WroteNoCopies(before, geo, c, v);
      st := OK;
      var k := 0;
      while k < geo.numFATs
        invariant Valid() && Kept() && st == OK
        invariant k <= MirrorCount(geo) && (!geo.fatsAreSame ==> k == 0)
        invariant WroteCopies(before, View(), geo, c, v, k)
        invariant flush && old(cache.Settled()) ==> cache.Settled()
        decreases geo.numFATs - k
      {
        ghost var now := View();
        st := WriteCopy(k, c, v, flush);
        if st != OK {
          OutsideFatStep(before, now, View(), geo, k);
          return;
        }
        WroteNextCopy(before, now, geo, c, v, k);
        k := k + 1;
        if !geo.fatsAreSame {
          break;
        }
      }
      assert k == MirrorCount(geo);
      FatAfterWrite(before, View(), geo, c, v, k);
    }

    /**
     * Phat_SearchForFreeCluster over [from, to): the first free entry, or
     * NotEnoughSpace when there is none. The source's search runs to
     * num_FAT_entries (Search below).
     */
    method SearchIn(from: nat, to: nat) returns (st: PhatState, found: nat)
      requires Valid() && to <= geo.numFatEntries
      modifies cache.Repr
      ensures Valid() && Kept() && View() == old(View())
      ensures st in {OK, NotEnoughSpace, ReadFail, WriteFail, InternalError}
      ensures st == OK ==> from <= found < to && Table()[found] == 0 && NoFreeIn(Table(), from, found)
      ensures st == NotEnoughSpace ==> NoFreeIn(Table(), from, to)
      ensures from >= to ==> st == NotEnoughSpace
    {
      found := 0;
      ghost var t := Table();
      var i := from;
      while i < to
        invariant Valid() && Kept() && View() == old(View()) && Table() == t
        invariant from <= i && NoFreeIn(t, from, i)
      {
        var v;
        st, v := ReadFat(i);
        if st != OK {
          return;
        }
        if v == 0 {
          return OK, i;
        }
        NoFreeInStep(t, from, i);
        i := i + 1;
      }
      return NotEnoughSpace, found;
    }

    /** Phat_SearchForFreeCluster: the first free entry at or after `from`. */
    method Search(from: nat) returns (st: PhatState, found: nat)
      requires Valid()
      modifies cache.Repr
      ensures Valid() && Kept() && View() == old(View())
      ensures Table() == old(Table())
      ensures st in {OK, NotEnoughSpace, ReadFail, WriteFail, InternalError}
      ensures st == OK ==> from <= found < geo.numFatEntries && Table()[found] == 0 && NoFreeIn(Table(), from, found)
      ensures st == NotEnoughSpace ==> NoFreeIn(Table(), from, geo.numFatEntries)
      ensures from >= geo.numFatEntries ==> st == NotEnoughSpace
    {
      st, found := SearchIn(from, geo.numFatEntries);
    }

    /** Phat_SumFreeClusters: the number of free entries in the whole table. */
    method SumFree() returns (st: PhatState, n: nat)
      requires Valid()
      modifies cache.Repr
      ensures Valid() && Kept() && View() == old(View())
      ensures st in {OK, ReadFail, WriteFail, InternalError}
      ensures st == OK ==> n == CountFree(Table())
    {
      n := 0;
      var i := 0;
      while i < geo.numFatEntries
        invariant Valid() && Kept() && View() == old(View())
        invariant i <= geo.numFatEntries && n == CountFree(Table()[..i])
      {
        var v;
        st, v := ReadFat(i);
        if st != OK {
          return;
        }
        assert Table()[..i + 1][..i] == Table()[..i];
        if v == 0 {
          n := n + 1;
        }
        i := i + 1;
      }
      assert Table()[..i] == Table();
      st := OK;
    }

    /**
     * Phat_GetFATNextCluster: the cluster after `cur` in its chain. `cur`
     * must be a valid cluster; an end-of-chain mark ends the chain, and any
     * other value outside [2, max_valid_cluster] is a broken table.
     */
    method GetNextCluster(cur: nat) returns (st: PhatState, next: nat)
      requires Valid()
      modifies cache.Repr
      ensures Valid() && Kept() && View() == old(View())
      ensures st in {OK, InvalidParameter, EndOfFATChain, FATError, ReadFail, WriteFail, InternalError}
      ensures st == InvalidParameter <==> cur < 2 || cur > geo.maxValid
      ensures st == OK ==> next == Table()[cur] as nat && 2 <= next <= geo.maxValid && next < geo.endOfChain
      ensures st == EndOfFATChain ==> Table()[cur] as nat >= geo.endOfChain
      ensures st == FATError ==>
        cur < geo.numFatEntries && Table()[cur] as nat < geo.endOfChain &&
        (Table()[cur] < 2 || Table()[cur] as nat > geo.maxValid)
    {
      next := 0;
      if cur < 2 || cur > geo.maxValid {
        return InvalidParameter, next;
      }
      var v;
      st, v := ReadFat(cur);
      if st != OK {
        return;
      }
      if v as nat >= geo.endOfChain {
        return EndOfFATChain, next;
      }
      if v as nat > geo.maxValid || v < 2 {
        return FATError, next;
      }
      next := v as nat;
    }

    /** UnlinkingAt on the volume's own hint, disk and table. */
    ghost predicate Unlinking(before: seq<DWord>, chain: seq<nat>, cur: nat, start: nat, hint: nat, view0: seq<Sector>)
      reads this, cache, cache.slots, cache.dev
    {
      UnlinkingAt(geo, before, chain, cur, start, hint, view0, nextFree, View(), Table())
    }

    /** UnlinkedAt on the volume's own hint, disk and table. */
    ghost predicate Unlinked(before: seq<DWord>, chain: seq<nat>, start: nat, hint: nat, view0: seq<Sector>, st: PhatState)
      reads this, cache, cache.slots, cache.dev
    {
      UnlinkedAt(geo, before, chain, start, hint, view0, st, nextFree, View(), Table())
    }

    /**
     * One pass of Phat_UnlinkCluster's loop: lower the next-free hint to
     * `cur`, read its entry and free it.
     */
    method FreeOne(cur: nat, ghost before: seq<DWord>, ghost chain: seq<nat>) returns (st: PhatState, next: DWord)
      requires Valid() && cur < geo.numFatEntries && Table() == Freed(before, chain)
      modifies this, cache.Repr
      ensures Valid() && Kept()
      ensures hasFsInfo == old(hasFsInfo) && freeClusters == old(freeClusters)
      ensures isDirty == old(isDirty) && fsInfoLba == old(fsInfoLba)
      ensures nextFree == MinNat(old(nextFree), cur)
      ensures st in {OK, ReadFail, WriteFail, InternalError}
      ensures SameOutsideFat(old(View()), View(), geo)
      ensures st == OK ==> next == Freed(before, chain)[cur] && Table() == Freed(before, chain + [cur])
    {
      FreedStep(before, chain, cur);
      if cur < nextFree {
        nextFree := cur;
      }
      st, next := ReadFat(cur);
      if st != OK {
        SameOutsideFatSelf(View(), geo);
        return;
      }
      st := WriteFat(cur, 0, false);
    }

    /**
     * One pass of Phat_UnlinkCluster's loop over a walk that has freed
     * `chain` so far and stands at `cur`: free `cur`, then stop on a
     * failure, an end-of-chain mark or a bad entry, or go on (`more`) to
     * the valid cluster `next` that the entry names.
     */
    method UnlinkPass(cur: nat, ghost before: seq<DWord>, ghost chain: seq<nat>, ghost start: nat,
                      ghost hint: nat, ghost view0: seq<Sector>)
      returns (st: PhatState, next: DWord, ghost walked: seq<nat>, more: bool)
      requires Valid() && Unlinking(before, chain, cur, start, hint, view0)
      modifies this, cache.Repr
      ensures Valid() && Kept()
      ensures hasFsInfo == old(hasFsInfo) && freeClusters == old(freeClusters)
      ensures isDirty == old(isDirty) && fsInfoLba == old(fsInfoLba)
      ensures st in {OK, FATError, ReadFail, WriteFail, InternalError}
      ensures walked == chain + [cur]
      ensures more ==> st == OK && cur !in chain && Unlinking(before, walked, next as nat, start, hint, view0)
      ensures !more ==> Unlinked(before, walked, start, hint, view0, st)
    {
      ghost var view, hint0 := View(), nextFree;
      walked := chain + [cur];
      more := false;
      st, next := FreeOne(cur, before, chain);
      PassStep(geo, before, chain, cur, start, hint, view0, hint0, view, st, next, nextFree, View(), Table());
      if st != OK {
        return;
      }
      if next as nat >= geo.endOfChain {
        return;
      }
      if next < 2 || next as nat > geo.maxValid {
        return FATError, next, walked, false;
      }
      more := true;
    }

    /**
     * Phat_UnlinkCluster as written: from `start`, lower the next-free hint
     * to each cluster met, read its entry, free it, and follow the entry
     * until an end-of-chain mark. `chain` is every cluster visited. Nothing
     * stops it at `start` = 0, which the file-deletion path passes for an
     * empty file: entry 0, which holds the media byte and the clean flag,
     * is then freed and the hint becomes 0 (UnlinkFromZero).
     */
    method UnlinkClusterAsWritten(start: nat) returns (st: PhatState, ghost chain: seq<nat>)
      requires Valid() && start < geo.numFatEntries
      modifies this, cache.Repr
      ensures Valid() && Kept()
      ensures hasFsInfo == old(hasFsInfo) && freeClusters == old(freeClusters)
      ensures isDirty == old(isDirty) && fsInfoLba == old(fsInfoLba)
      ensures st in {OK, FATError, ReadFail, WriteFail, InternalError}
      ensures |chain| >= 1 && chain[0] == start && Linked(old(Table()), chain)
      ensures ValidAfterHead(chain, geo.maxValid)
      ensures nextFree == MinOf(old(nextFree), chain)
      ensures SameOutsideFat(old(View()), View(), geo)
      ensures st in {OK, FATError} ==> Table() == Freed(old(Table()), chain)
      ensures st == OK ==> ChainEnds(old(Table()), chain, geo.endOfChain)
      ensures st == FATError ==> ChainBroken(old(Table()), chain, geo.endOfChain, geo.maxValid)
    {
      ghost var before := Table();
      ghost var view0 := View();
      SameOutsideFatSelf(view0, geo);
      st, chain := UnlinkFrom(start, before, nextFree, view0);
    }

    /** The loop of Phat_UnlinkCluster, from `start` with nothing freed yet. */
    method UnlinkFrom(start: nat, ghost before: seq<DWord>, ghost hint: nat, ghost view0: seq<Sector>)
      returns (st: PhatState, ghost chain: seq<nat>)
      requires Valid() && |before| == geo.numFatEntries && start < |before|
      requires Table() == before && nextFree == hint && SameOutsideFat(view0, View(), geo)
      modifies this, cache.Repr
      ensures Valid() && Kept()
      ensures hasFsInfo == old(hasFsInfo) && freeClusters == old(freeClusters)
      ensures isDirty == old(isDirty) && fsInfoLba == old(fsInfoLba)
      ensures st in {OK, FATError, ReadFail, WriteFail, InternalError}
      ensures Unlinked(before, chain, start, hint, view0, st)
    {
      chain := [];
      var cur: nat := start;
      while true
        invariant Valid() && Kept()
        invariant hasFsInfo == old(hasFsInfo) && freeClusters == old(freeClusters)
        invariant isDirty == old(isDirty) && fsInfoLba == old(fsInfoLba)
        invariant Unlinking(before, chain, cur, start, hint, view0)
        decreases Unvisited(|before|, chain)
      {
        ghost var prev := chain;
        var next, more;
        st, next, chain, more := UnlinkPass(cur, before, chain, start, hint, view0);
        if !more {
          return;
        }
        UnvisitedShrinks(|before|, prev, cur);
        cur := next as nat;
      }
    }

    /**
     * Phat_UnlinkCluster as evidently intended: a start that is not a
     * valid cluster (the 0 of an empty file) names no chain, and nothing
     * changes.
     */
    method UnlinkCluster(start: nat) returns (st: PhatState, ghost chain: seq<nat>)
      requires Valid()
      modifies this, cache.Repr
      ensures Valid() && Kept()
      ensures hasFsInfo == old(hasFsInfo) && freeClusters == old(freeClusters)
      ensures isDirty == old(isDirty) && fsInfoLba == old(fsInfoLba)
      ensures st in {OK, FATError, ReadFail, WriteFail, InternalError}
      ensures start < 2 || start > geo.maxValid ==> st == OK && chain == [] && View() == old(View()) && nextFree == old(nextFree)
      ensures 2 <= start <= geo.maxValid ==> |chain| >= 1 && chain[0] == start && Linked(old(Table()), chain)
      ensures forall c :: c in chain ==> 2 <= c <= geo.maxValid
      ensures nextFree == MinOf(old(nextFree), chain)
      ensures SameOutsideFat(old(View()), View(), geo)
      ensures st in {OK, FATError} ==> Table() == Freed(old(Table()), chain)
      ensures st == OK && chain != [] ==> ChainEnds(old(Table()), chain, geo.endOfChain)
    {
      if start < 2 || start > geo.maxValid {
        return OK, [];
      }
      st, chain := UnlinkClusterAsWritten(start);
      AllValid(chain, geo.maxValid);
    }

    /**
     * Lines 1091-1099 of Phat_AllocateCluster: a hint that is a valid
     * cluster whose entry reads 0 is marked end-of-chain. `marked` says the
     * hint was found free and its write was attempted; when the hint's entry
     * cannot be read, the allocator passes over it.
     */
    method TakeHint(hint: nat) returns (st: PhatState, marked: bool)
      requires Valid()
      modifies cache.Repr
      ensures Valid() && Kept()
      ensures st in {OK, ReadFail, WriteFail, InternalError}
      ensures SameOutsideFat(old(View()), View(), geo)
      ensures !marked ==> View() == old(View())
      ensures !marked && st == OK ==> !(2 <= hint <= geo.maxValid && old(Table())[hint] == 0)
      ensures marked ==> 2 <= hint <= geo.maxValid && old(Table())[hint] == 0
      ensures marked && st == OK ==> Table() == old(Table())[hint := EocEntry(geo.fatBits)]
    {
      marked := false;
      st := OK;
      SameOutsideFatSelf(View(), geo);
      if hint < 2 || hint > geo.maxValid {
        return;
      }
      var v;
      st, v := ReadFat(hint);
      if st != OK || v != 0 {
        return;
      }
      marked := true;
      st := WriteFat(hint, EocEntry(geo.fatBits), false);
      EndOfChainStored(geo);
    }

    /**
     * The FSInfo bookkeeping after cluster c is taken (lines 1100-1111 and
     * 1122-1131 of Phat_AllocateCluster): with FSInfo, a next-free hint that
     * named c moves to the next free entry after c, or to 2 when that search
     * fails, and the free count drops by one unless it is 0. Without FSInfo
     * neither counter changes.
     */
    method Consume(c: nat)
      requires Valid()
      modifies this, cache.Repr
      ensures Valid() && Kept() && View() == old(View()) && Table() == old(Table())
      ensures hasFsInfo == old(hasFsInfo) && isDirty == old(isDirty) && fsInfoLba == old(fsInfoLba)
      ensures !hasFsInfo ==> nextFree == old(nextFree) && freeClusters == old(freeClusters)
      ensures hasFsInfo ==> freeClusters == Dec(old(freeClusters))
      ensures hasFsInfo && old(nextFree) != c ==> nextFree == old(nextFree)
      ensures hasFsInfo && old(nextFree) == c ==>
        nextFree == 2 || (c < nextFree < geo.numFatEntries && Table()[nextFree] == 0 && NoFreeIn(Table(), c + 1, nextFree))
    {
      if hasFsInfo {
        if nextFree == c {
          var st, n := Search(c + 1);
          nextFree := if st == OK then n else 2;
        }
        freeClusters := Dec(freeClusters);
      }
    }

    /**
     * Lines 1114-1134 of Phat_AllocateCluster: the first free entry at or
     * after the next-free hint is marked end-of-chain, the FSInfo counters
     * are brought up to date and, with FSInfo, written by
     * Phat_UpdateFSInfo (to partition_start + 1, UpdateFsInfoAsWritten).
     */
    method SeekAndMark() returns (st: PhatState, c: nat)
      requires Valid()
      modifies this, cache.Repr
      ensures Valid() && Kept()
      ensures hasFsInfo == old(hasFsInfo) && isDirty == old(isDirty) && fsInfoLba == old(fsInfoLba)
      ensures st in {OK, NotEnoughSpace, ReadFail, WriteFail, InternalError}
      ensures st == NotEnoughSpace ==> View() == old(View()) && NoFreeIn(old(Table()), old(nextFree), geo.numFatEntries)
      ensures old(nextFree) >= geo.numFatEntries ==> st == NotEnoughSpace
      ensures st == OK ==>
        old(nextFree) <= c < geo.numFatEntries && old(Table())[c] == 0 && NoFreeIn(old(Table()), old(nextFree), c)
      ensures st == OK && (!hasFsInfo || !InCopy(geo, 0, geo.partitionStart + 1)) ==>
        Table() == old(Table())[c := EocEntry(geo.fatBits)]
      ensures st == OK && hasFsInfo ==> freeClusters == Dec(old(freeClusters))
      ensures st == OK && !hasFsInfo ==> freeClusters == old(freeClusters) && nextFree == old(nextFree)
    {
      st, c := MarkFirstFree(nextFree);
      if st != OK {
        return;
      }
      st := Account(c, geo.partitionStart + 1);
    }

    /** The first free entry at or after `from`, marked end-of-chain. */
    method MarkFirstFree(from: nat) returns (st: PhatState, c: nat)
      requires Valid()
      modifies cache.Repr
      ensures Valid() && Kept()
      ensures st in {OK, NotEnoughSpace, ReadFail, WriteFail, InternalError}
      ensures st == NotEnoughSpace ==> View() == old(View()) && NoFreeIn(old(Table()), from, geo.numFatEntries)
      ensures from >= geo.numFatEntries ==> st == NotEnoughSpace
      ensures st == OK ==>
        from <= c < geo.numFatEntries && old(Table())[c] == 0 && NoFreeIn(old(Table()), from, c) &&
        Table() == old(Table())[c := EocEntry(geo.fatBits)]
    {
      st, c := Search(from);
      if st != OK {
        return;
      }
      st := WriteFat(c, EocEntry(geo.fatBits), false);
      EndOfChainStored(geo);
    }

    /**
     * The end of Phat_AllocateCluster once cluster c is taken: Consume,
     * then, with FSInfo, the counters written to the FSInfo sector at `lba`.
     */
    method Account(c: nat, lba: nat) returns (st: PhatState)
      requires Valid()
      modifies this, cache.Repr
      ensures Valid() && Kept()
      ensures hasFsInfo == old(hasFsInfo) && isDirty == old(isDirty) && fsInfoLba == old(fsInfoLba)
      ensures st in {OK, ReadFail, WriteFail, InternalError}
      ensures !hasFsInfo || !InCopy(geo, 0, lba) ==> Table() == old(Table())
      ensures hasFsInfo ==> freeClusters == Dec(old(freeClusters))
      ensures !hasFsInfo ==> st == OK && View() == old(View()) && freeClusters == old(freeClusters) && nextFree == old(nextFree)
    {
      Consume(c);
      st := OK;
      if hasFsInfo {
        st := PutFsInfoAt(lba);
      }
    }

    /**
     * The first half of Phat_AllocateCluster as written (lines 1092-1112): a
     * hint that is a free valid cluster is marked end-of-chain and the
     * FSInfo counters are brought up to date for it.
     */
    method TakeAndConsume(hint: nat) returns (st: PhatState, marked: bool)
      requires Valid()
      modifies this, cache.Repr
      ensures Valid() && Kept()
      ensures hasFsInfo == old(hasFsInfo) && isDirty == old(isDirty) && fsInfoLba == old(fsInfoLba)
      ensures st in {OK, ReadFail, WriteFail, InternalError}
      ensures !marked ==> View() == old(View()) && nextFree == old(nextFree) && freeClusters == old(freeClusters)
      ensures marked ==> 2 <= hint <= geo.maxValid && old(Table())[hint] == 0
      ensures marked && st == OK ==> Table() == old(Table())[hint := EocEntry(geo.fatBits)]
      ensures marked && st == OK && hasFsInfo ==> freeClusters == Dec(old(freeClusters))
      ensures marked && st == OK && hasFsInfo && old(nextFree) == hint ==>
        nextFree == 2 || (hint < nextFree < geo.numFatEntries && Table()[nextFree] == 0)
      ensures !hasFsInfo || old(nextFree) != hint ==> nextFree == old(nextFree)
    {
      st, marked := TakeHint(hint);
      if marked && st == OK {
        Consume(hint);
      }
    }

    /**
     * Phat_AllocateCluster as written. A hint that is a free valid cluster
     * is marked end-of-chain, and then the search from the next-free hint
     * runs all the same: it marks a second cluster, which is the one
     * returned, and the hint is left allocated with nothing pointing at it.
     * With FSInfo the free count drops twice. A next-free hint at or past
     * the end of the FAT (0xFFFFFFFF, "unknown", included) makes every
     * allocation fail, as the search never wraps round.
     */
    method AllocateClusterAsWritten(hint: nat) returns (st: PhatState, c: nat, ghost taken: bool)
      requires Valid()
      modifies this, cache.Repr
      ensures Valid() && Kept()
      ensures hasFsInfo == old(hasFsInfo) && isDirty == old(isDirty) && fsInfoLba == old(fsInfoLba)
      ensures st in {OK, NotEnoughSpace, ReadFail, WriteFail, InternalError}
      ensures old(nextFree) >= geo.numFatEntries ==> st != OK
      ensures st == OK ==> c < geo.numFatEntries && old(Table())[c] == 0
      ensures taken ==> 2 <= hint <= geo.maxValid && old(Table())[hint] == 0
      ensures var eoc := EocEntry(geo.fatBits);
        st == OK && taken && (!hasFsInfo || !InCopy(geo, 0, geo.partitionStart + 1)) ==>
          c != hint && Table() == old(Table())[hint := eoc][c := eoc]
      ensures st == OK && taken && hasFsInfo ==> freeClusters == Dec(Dec(old(freeClusters)))
    {
      var marked;
      st, marked := TakeAndConsume(hint);
      taken := marked;
      if marked && st != OK {
        return st, hint, taken;
      }
      ghost var t1 := Table();
      st, c := SeekAndMark();
      if st == OK && marked {
        EndOfChainStored(geo);
        SecondTaken(old(Table()), t1, hint, c, EocEntry(geo.fatBits));
      }
    }

    /**
     * Phat_SearchForFreeCluster over the valid clusters, from `from` to
     * max_valid_cluster and then round from 2: the corrected allocator's
     * search.
     */
    method SearchValid(from: nat) returns (st: PhatState, found: nat)
      requires Valid()
      modifies cache.Repr
      ensures Valid() && Kept() && View() == old(View())
      ensures st in {OK, NotEnoughSpace, ReadFail, WriteFail, InternalError}
      ensures st == OK ==> 2 <= found <= geo.maxValid && Table()[found] == 0
      ensures st == NotEnoughSpace ==> NoFreeIn(Table(), 2, geo.maxValid + 1)
    {
      var hi := geo.maxValid + 1;
      var lo := if from < 2 || from > hi then 2 else from;
      st, found := SearchIn(lo, hi);
      if st != NotEnoughSpace {
        return;
      }
      st, found := SearchIn(2, lo);
      if st == NotEnoughSpace {
        NoFreeInJoin(Table(), 2, lo, hi);
      }
    }

    /**
     * The corrected allocator's search: the first free valid cluster from
     * the next-free hint on, wrapping round to 2, marked end-of-chain.
     */
    method SearchAndMark() returns (st: PhatState, c: nat)
      requires Valid()
      modifies cache.Repr
      ensures Valid() && Kept()
      ensures st in {OK, NotEnoughSpace, ReadFail, WriteFail, InternalError}
      ensures st == OK ==>
        2 <= c <= geo.maxValid && old(Table())[c] == 0 && Table() == old(Table())[c := EocEntry(geo.fatBits)]
      ensures st == NotEnoughSpace ==> View() == old(View()) && NoFreeIn(old(Table()), 2, geo.maxValid + 1)
    {
      st, c := SearchValid(nextFree);
      if st != OK {
        return;
      }
      st := WriteFat(c, EocEntry(geo.fatBits), false);
      EndOfChainStored(geo);
    }

    /**
     * Phat_AllocateCluster as evidently intended: a hint that is a free
     * valid cluster is the one allocated, and otherwise the first free
     * valid cluster from the next-free hint on, wrapping round to 2. It is
     * marked end-of-chain, the FSInfo counters are brought up to date and
     * written to the FSInfo sector Phat_Mount read (UpdateFsInfo). A failed
     * read of the hint's entry is reported rather than passed over.
     */
    method AllocateCluster(hint: nat) returns (st: PhatState, c: nat)
      requires Valid()
      modifies this, cache.Repr
      ensures Valid() && Kept()
      ensures hasFsInfo == old(hasFsInfo) && isDirty == old(isDirty) && fsInfoLba == old(fsInfoLba)
      ensures st in {OK, NotEnoughSpace, ReadFail, WriteFail, InternalError}
      ensures st == OK ==> 2 <= c <= geo.maxValid && old(Table())[c] == 0
      ensures st == OK && 2 <= hint <= geo.maxValid && old(Table())[hint] == 0 ==> c == hint
      ensures st == OK && (!hasFsInfo || !InCopy(geo, 0, fsInfoLba)) ==>
        Table() == old(Table())[c := EocEntry(geo.fatBits)]
      ensures st == NotEnoughSpace ==> View() == old(View()) && NoFreeIn(old(Table()), 2, geo.maxValid + 1)
      ensures st == OK && hasFsInfo ==> freeClusters == Dec(old(freeClusters))
      ensures st == OK && !hasFsInfo ==> freeClusters == old(freeClusters) && nextFree == old(nextFree)
    {
      var marked;
      st, marked := TakeHint(hint);
      if marked || st != OK {
        if st != OK {
          return st, hint;
        }
        c := hint;
      } else {
        st, c := SearchAndMark();
        if st != OK {
          return;
        }
      }
      st := Account(c, fsInfoLba);
    }

    /**
     * Phat_MarkDirty: entry 0 keeps its other bits and its clean bit is
     * cleared (dirty) or set (clean), in every mirrored copy, written back
     * at once.
     */
    method MarkDirty(dirty: bool) returns (st: PhatState)
      requires Valid()
      modifies cache.Repr
      ensures Valid() && Kept()
      ensures st in {OK, ReadFail, WriteFail, InternalError}
      ensures st == OK ==> Table() == old(Table())[0 := Stored(geo.fatBits, MarkedEntry(geo.fatBits, old(Table())[0], dirty))]
      ensures st == OK && old(cache.Settled()) ==> cache.Settled()
      ensures SameOutsideFat(old(View()), View(), geo)
    {
      var e;
      st, e := ReadFat(0);
      if st != OK {
        return;
      }
      st := WriteFat(0, MarkedEntry(geo.fatBits, e, dirty), true);
    }

    /** Phat_CheckIsDirty: the volume is dirty when entry 0's clean bit is clear. */
    method CheckIsDirty() returns (st: PhatState, dirty: bool)
      requires Valid()
      modifies cache.Repr
      ensures Valid() && Kept() && View() == old(View())
      ensures st in {OK, ReadFail, WriteFail, InternalError}
      ensures st == OK ==> dirty == IsDirtyEntry(geo.fatBits, Table()[0])
    {
      var e;
      dirty := false;
      st, e := ReadFat(0);
      if st == OK {
        dirty := IsDirtyEntry(geo.fatBits, e);
      }
    }

    /** Phat_UpdateFSInfo's change, to the FSInfo sector at `lba`: left in the cache, not flushed. */
    method PutFsInfoAt(lba: nat) returns (st: PhatState)
      requires Valid()
      modifies cache.Repr
      ensures Valid() && Kept()
      ensures st in {OK, ReadFail, WriteFail, InternalError}
      ensures st == OK ==>
        lba < |old(View())| &&
        View() == old(View())[lba := PutFsInfo(old(View())[lba], Low32(nextFree), Low32(freeClusters))]
      ensures st != OK ==> View() == old(View())
      ensures !InCopy(geo, 0, lba) ==> Table() == old(Table())
    {
      var s;
      st, s := cache.ReadSector(lba);
      if st != OK {
        return;
      }
      ghost var view := View();
      st := cache.WriteSector(lba, PutFsInfo(s, Low32(nextFree), Low32(freeClusters)), false);
      if st == OK && !InCopy(geo, 0, lba) {
        FatAfterOtherWrite(view, geo, lba, PutFsInfo(s, Low32(nextFree), Low32(freeClusters)));
      }
    }

    /**
     * Phat_UpdateFSInfo as written: it updates sector partition_start + 1,
     * while Phat_Mount read the FSInfo sector at partition_start plus the
     * BPB's FSInfo field. When that field is not 1 the counters go to the
     * wrong sector and the real FSInfo sector keeps its old values.
     */
    method UpdateFsInfoAsWritten() returns (st: PhatState)
      requires Valid()
      modifies cache.Repr
      ensures Valid() && Kept()
      ensures st in {OK, ReadFail, WriteFail, InternalError}
      ensures st == OK ==>
        geo.partitionStart + 1 < |old(View())| &&
        View() == old(View())[geo.partitionStart + 1 := PutFsInfo(old(View())[geo.partitionStart + 1], Low32(nextFree), Low32(freeClusters))]
      ensures st != OK ==> View() == old(View())
      ensures fsInfoLba != geo.partitionStart + 1 && fsInfoLba < |View()| ==> View()[fsInfoLba] == old(View())[fsInfoLba]
      ensures !InCopy(geo, 0, geo.partitionStart + 1) ==> Table() == old(Table())
    {
      st := PutFsInfoAt(geo.partitionStart + 1);
    }

    /** Phat_UpdateFSInfo as evidently intended: the counters go to the FSInfo sector Phat_Mount read. */
    method UpdateFsInfo() returns (st: PhatState)
      requires Valid()
      modifies cache.Repr
      ensures Valid() && Kept()
      ensures st in {OK, ReadFail, WriteFail, InternalError}
      ensures st == OK ==>
        fsInfoLba < |old(View())| &&
        View() == old(View())[fsInfoLba := PutFsInfo(old(View())[fsInfoLba], Low32(nextFree), Low32(freeClusters))]
      ensures st == OK ==> FsInfoNextFree(View()[fsInfoLba]) == Low32(nextFree) as nat
      ensures st == OK ==> FsInfoFreeCount(View()[fsInfoLba]) == Low32(freeClusters) as nat
      ensures st != OK ==> View() == old(View())
      ensures !InCopy(geo, 0, fsInfoLba) ==> Table() == old(Table())
    {
      st := PutFsInfoAt(fsInfoLba);
    }

    /**
     * Phat_WipeCluster: the cluster's sectors, from
     * partition_start + data_start + (cluster - 2) * sectors_per_cluster,
     * are written with zeros past the cache, one at a time.
     */
    method WipeCluster(c: nat) returns (st: PhatState)
      requires Valid() && c >= 2
      modifies cache.Repr
      ensures Valid() && Kept()
      ensures st == OK || st == WriteFail
      ensures var lba := geo.partitionStart + ClusterToLba(geo, c);
        st == OK ==> WipedRange(old(View()), View(), lba, lba + geo.sectorsPerCluster)
      ensures var lba := geo.partitionStart + ClusterToLba(geo, c);
        st != OK ==> SameOutsideRange(old(View()), View(), lba, lba + geo.sectorsPerCluster)
    {
      var lba := geo.partitionStart + ClusterToLba(geo, c);
      ghost var view0 := View();
      var i := 0;
      while i < geo.sectorsPerCluster
        invariant Valid() && Kept()
        invariant i <= geo.sectorsPerCluster && WipedRange(view0, View(), lba, lba + i)
      {
        st := WipeSector(lba, lba + i, lba + geo.sectorsPerCluster, view0);
        if st != OK {
          return;
        }
        i := i + 1;
      }
      st := OK;
    }

    /** One pass of WipeCluster's loop: sector `mid` of [lo, hi) is written with zeros past the cache. */
    method WipeSector(lo: nat, mid: nat, hi: nat, ghost view0: seq<Sector>) returns (st: PhatState)
      requires Valid() && lo <= mid < hi && WipedRange(view0, View(), lo, mid)
      modifies cache.Repr
      ensures Valid() && Kept()
      ensures st == OK || st == WriteFail
      ensures st == OK ==> WipedRange(view0, View(), lo, mid + 1)
      ensures st != OK ==> SameOutsideRange(view0, View(), lo, hi)
    {
      ghost var view := View();
      st := cache.WriteSectorsWithoutCache(mid, [ZeroSector()]);
      if st != OK {
        WipedInside(view0, view, lo, mid, hi);
        return;
      }
      WipeOne(view0, view, View(), lo, mid);
    }

    /**
     * The FSInfo part of Phat_Mount for FAT32 (sector lba): when its three
     * signatures are present the counters come from it; otherwise they are
     * recounted (Recount).
     */
    method ReadFsInfo(lba: nat) returns (st: PhatState, has: bool, free: nat, next: nat)
      requires Valid()
      modifies cache.Repr
      ensures Valid() && Kept() && View() == old(View())
      ensures st in {OK, ReadFail, WriteFail, InternalError}
      ensures st == OK ==> lba < |View()| && has == FsInfoValid(View()[lba])
      ensures st == OK && has ==> free == FsInfoFreeCount(View()[lba]) && next == FsInfoNextFree(View()[lba])
      ensures st == OK && !has ==>
        next == 2 || (next < geo.numFatEntries && Table()[next] == 0 && NoFreeIn(Table(), 0, next))
      ensures st == OK && !has ==> free == 0 || free == CountFree(Table())
    {
      var s;
      free, next := 0, 0;
      st, s := cache.ReadSector(lba);
      if st != OK {
        return st, false, free, next;
      }
      has := FsInfoValid(s);
      if has {
        free, next := FsInfoFreeCount(s), FsInfoNextFree(s);
      } else {
        next, free := Recount();
      }
    }

    /**
     * Phat_Mount's counters without a valid FSInfo sector: the first free
     * entry (2 when the search fails) and the number of free entries (0
     * when counting fails).
     */
    method Recount() returns (next: nat, free: nat)
      requires Valid()
      modifies cache.Repr
      ensures Valid() && Kept() && View() == old(View())
      ensures next == 2 || (next < geo.numFatEntries && Table()[next] == 0 && NoFreeIn(Table(), 0, next))
      ensures free == 0 || free == CountFree(Table())
    {
      var r, n := Search(0);
      next := if r == OK then n else 2;
      r, n := SumFree();
      free := if r == OK then n else 0;
    }

    /**
     * Phat_Mount: sector 0 is read and the DBR located from it (LocateDbr);
     * with an MBR the partition's first sector is read. Write access is set
     * before the DBR is checked. A DBR that fails DbrGeometry, or whose
     * geometry the model cannot mount, gives FSNotFat. For FAT32 the FSInfo
     * sector at partition start plus the BPB's FSInfo field is loaded
     * (LoadState); for FAT12/16 the FSInfo fields keep their values. The
     * clean bit of entry 0 then gives is_dirty.
     */
    method Mount(index: int, writeEnable: bool) returns (st: PhatState)
      requires Ready()
      modifies this, cache.Repr
      ensures Ready() && cache == old(cache) && cache.Repr == old(cache.Repr) && cache.dev == old(cache.dev)
      ensures View() == old(View())
      ensures st in {OK, InvalidParameter, PartitionTableError, FSNotFat, ReadFail, WriteFail, InternalError}
      ensures st == InvalidParameter || st == PartitionTableError ==>
        |View()| > 0 && LocateDbr(View()[0], index).0 == st
      ensures st == FSNotFat ==>
        |View()| > 0 && LocateDbr(View()[0], index).0 == OK && MountedGeometry(View(), index).None?
      ensures st == OK ==>
        Valid() && MountedGeometry(View(), index) == Some(geo) && cache.writeEnable == writeEnable &&
        isDirty == IsDirtyEntry(geo.fatBits, Table()[0])
      ensures st == OK && geo.fatBits == 32 ==>
        fsInfoLba == geo.partitionStart + ParseBpb(View()[geo.partitionStart]).fsInfoSector &&
        fsInfoLba < |View()| && hasFsInfo == FsInfoValid(View()[fsInfoLba])
      ensures st == OK && geo.fatBits != 32 ==> FsInfoKept()
    {
      var start, dbr;
      st, start, dbr := FindDbr(index);
      if st != OK {
        return;
      }
      cache.SetWriteEnable(writeEnable);
      st := MountAt(index, start, dbr);
    }

    /**
     * Phat_Mount once the DBR of partition `index` is found at `start`: the
     * geometry is read from it (FSNotFat when there is none the model can
     * mount), installed, and the rest of the state loaded (LoadState).
     */
    method MountAt(ghost index: int, start: nat, dbr: Sector) returns (st: PhatState)
      requires Ready() && |View()| > 0 && LocateDbr(View()[0], index) == (OK, start)
      requires start < |View()| && dbr == View()[start]
      modifies this, cache.Repr
      ensures Ready() && cache == old(cache) && cache.Repr == old(cache.Repr) && cache.dev == old(cache.dev)
      ensures View() == old(View()) && cache.writeEnable == old(cache.writeEnable)
      ensures st in {OK, FSNotFat, ReadFail, WriteFail, InternalError}
      ensures st == FSNotFat ==> MountedGeometry(View(), index).None?
      ensures st == OK ==>
        Valid() && MountedGeometry(View(), index) == Some(geo) && isDirty == IsDirtyEntry(geo.fatBits, Table()[0])
      ensures st == OK && geo.fatBits == 32 ==>
        fsInfoLba == start + ParseBpb(dbr).fsInfoSector && fsInfoLba < |View()| && hasFsInfo == FsInfoValid(View()[fsInfoLba])
      ensures st == OK && geo.fatBits != 32 ==> FsInfoKept()
    {
      var g := Vet(index, start, dbr);
      if g.None? {
        return FSNotFat;
      }
      var fsInfo := start + ParseBpb(dbr).fsInfoSector;
      Install(g.value);
      st := LoadState(fsInfo);
    }

    /** The geometry the DBR `dbr` of partition `index` gives, when the model can mount it. */
    method Vet(ghost index: int, start: nat, dbr: Sector) returns (g: Option<Geometry>)
      requires Ready() && |View()| > 0 && LocateDbr(View()[0], index) == (OK, start)
      requires start < |View()| && dbr == View()[start]
      ensures g == MountedGeometry(View(), index)
      ensures g.Some? ==> Sound(g.value) && OnDisk(g.value, |cache.dev.disk|)
    {
      MountedFrom(View(), index, start);
      g := DbrGeometry(dbr, start);
      if g.None? || !Sound(g.value) || !Laid(g.value) || !OnDisk(g.value, |cache.dev.disk|) {
        g := None;
      }
    }

    /** A sound geometry that lies on the device installed as the volume's own. */
    method Install(g: Geometry)
      requires Ready() && Sound(g) && OnDisk(g, |cache.dev.disk|)
      modifies this`geo
      ensures Valid() && geo == g
    {
      geo := g;
    }

    /**
     * The first part of Phat_Mount: sector 0 is read and, when it is an
     * MBR, the first sector of the chosen partition; `dbr` is the sector
     * the DBR is then taken from.
     */
    method FindDbr(index: int) returns (st: PhatState, start: nat, dbr: Sector)
      requires Ready()
      modifies cache.Repr
      ensures Ready() && Kept() && View() == old(View())
      ensures st in {OK, InvalidParameter, PartitionTableError, ReadFail, WriteFail, InternalError}
      ensures st == InvalidParameter || st == PartitionTableError ==>
        |View()| > 0 && LocateDbr(View()[0], index).0 == st
      ensures st == OK ==>
        |View()| > 0 && LocateDbr(View()[0], index) == (OK, start) && start < |View()| && dbr == View()[start]
    {
      var s0;
      st, s0 := cache.ReadSector(0);
      if st != OK {
        return st, 0, s0;
      }
      var loc := LocateDbr(s0, index);
      if loc.0 != OK {
        return loc.0, 0, s0;
      }
      start, dbr := loc.1, s0;
      if IsSectorMBR(s0) {
        st, dbr := cache.ReadSector(start);
      }
    }

    /**
     * The rest of Phat_Mount once the geometry is installed: for FAT32 the
     * FSInfo sector at `fsInfo` is read (ReadFsInfo) and the counters set
     * from it, and the clean bit of entry 0 gives is_dirty.
     */
    method LoadState(fsInfo: nat) returns (st: PhatState)
      requires Valid()
      modifies this, cache.Repr
      ensures Valid() && Kept() && View() == old(View())
      ensures st in {OK, ReadFail, WriteFail, InternalError}
      ensures st == OK ==> isDirty == IsDirtyEntry(geo.fatBits, Table()[0])
      ensures st == OK && geo.fatBits == 32 ==> fsInfoLba == fsInfo && fsInfo < |View()| && hasFsInfo == FsInfoValid(View()[fsInfo])
      ensures geo.fatBits != 32 ==> FsInfoKept()
    {
      if geo.fatBits == 32 {
        st := LoadFsInfo(fsInfo);
        if st != OK {
          return;
        }
      }
      st, isDirty := CheckIsDirty();
    }

    /** The FSInfo sector at `lba` read (ReadFsInfo) and the counters set from it. */
    method LoadFsInfo(lba: nat) returns (st: PhatState)
      requires Valid()
      modifies this, cache.Repr
      ensures Valid() && Kept() && View() == old(View()) && isDirty == old(isDirty)
      ensures st in {OK, ReadFail, WriteFail, InternalError}
      ensures st == OK ==> fsInfoLba == lba && lba < |View()| && hasFsInfo == FsInfoValid(View()[lba])
    {
      var has, free, next;
      st, has, free, next := ReadFsInfo(lba);
      if st == OK {
        hasFsInfo, freeClusters, nextFree, fsInfoLba := has, free, next, lba;
      }
    }

    /**
     * Phat_Unmount: every cached sector is written back and dropped; on a
     * writable volume the clean flag in entry 0 is then restored to what
     * Phat_Mount found (is_dirty).
     */
    method Unmount() returns (st: PhatState)
      requires Valid()
      modifies cache.Repr
      ensures Valid() && Kept()
      ensures st in {OK, ReadFail, WriteFail, InternalError}
      ensures st == OK && !cache.writeEnable ==> View() == old(View()) && cache.dev.disk == old(View())
      ensures st == OK && cache.writeEnable ==>
        Table() == old(Table())[0 := Stored(geo.fatBits, MarkedEntry(geo.fatBits, old(Table())[0], isDirty))]
      ensures SameOutsideFat(old(View()), View(), geo)
      ensures st == OK ==> cache.dev.disk == View()
    {
      st := cache.Flush();
      if st != OK {
        return;
      }
      assert cache.Settled();
      if cache.writeEnable {
        st := MarkDirty(isDirty);
      }
      if st == OK {
        SettledView(cache.dev.disk, cache.slots[..], cache.dev.faulty);
      }
    }
  }
}
