/**
 * The directory cursor (Phat_DirInfo_t): a directory is the chain of
 * clusters that starts at its first cluster, or on FAT12/16 the fixed root
 * area; item i of a cluster directory lies in cluster i / items-per-cluster
 * of the chain, sector (i % items-per-cluster) / 16 of that cluster, slot
 * i % 16 of that sector. The cursor remembers the cluster it last reached
 * and its position in the chain, so that moving on does not walk the chain
 * from its start again, and it can grow the chain when asked to.
 */
module Directory {
  import opened Common
  import opened FatCodec
  import opened Boot
  import opened FatImage
  import opened SectorCache
  import opened FatVolume
  import opened LongNames

  // ---------------------------------------------------------------------
  // Chains.

  /**
   * The cluster k links after `start` in table t, when each link on the
   * way is a valid cluster number below the end-of-chain marker, as
   * Phat_GetFATNextCluster accepts it.
   */
  ghost function Walk(t: seq<DWord>, g: Geometry, start: nat, k: nat): Option<nat>
  {
    if k == 0 then Some(start)
    else match Walk(t, g, start, k - 1)
      case None => None
      case Some(c) =>
        if 2 <= c <= g.maxValid && c < |t| && 2 <= t[c] as nat <= g.maxValid && (t[c] as nat) < g.endOfChain
        then Some(t[c] as nat) else None
  }

  /** One more link of a walk that has reached `cur`. */
  lemma WalkOn(t: seq<DWord>, g: Geometry, start: nat, k: nat, cur: nat)
    requires Walk(t, g, start, k) == Some(cur)
    ensures Walk(t, g, start, k + 1) ==
      if 2 <= cur <= g.maxValid && cur < |t| && 2 <= t[cur] as nat <= g.maxValid && (t[cur] as nat) < g.endOfChain
      then Some(t[cur] as nat) else None
  {
  }

  /** A chain that has ended stays ended. */
  lemma {:induction false} WalkStaysEnded(t: seq<DWord>, g: Geometry, start: nat, k: nat, m: nat)
    requires Walk(t, g, start, k).None? && k <= m
    ensures Walk(t, g, start, m).None?
    decreases m - k
  {
    if k < m {
      WalkStaysEnded(t, g, start, k + 1, m);
    }
  }

  /**
   * Storing into two entries the walk does not pass through: a free one,
   * and one that ends the chain; the first k links are as they were.
   */
  lemma {:induction false} WalkKept(t: seq<DWord>, t2: seq<DWord>, g: Geometry, start: nat, k: nat, cur: nat, next: nat)
    requires Walk(t, g, start, k).Some?
    requires cur < |t| && next < |t| && |t2| == |t| && t[next] == 0 && t[cur] as nat >= g.endOfChain
    requires forall c :: 0 <= c < |t| && c != cur && c != next ==> t2[c] == t[c]
    ensures Walk(t2, g, start, k) == Walk(t, g, start, k)
  {
    if k > 0 {
      WalkKept(t, t2, g, start, k - 1, cur, next);
    }
  }

  /**
   * Linking a free cluster after the end of a walk extends it by that
   * cluster, and leaves its first k links as they were.
   */
  lemma WalkGrown(t: seq<DWord>, t2: seq<DWord>, g: Geometry, start: nat, k: nat, cur: nat, next: nat, e: DWord)
    requires Sound(g) && Walk(t, g, start, k) == Some(cur) && 2 <= cur <= g.maxValid && g.maxValid < g.endOfChain
    requires cur < |t| && next < |t| && t[next] == 0 && t[cur] as nat >= g.endOfChain
    requires 2 <= next <= g.maxValid && t2 == t[next := e][cur := next as DWord]
    ensures Walk(t2, g, start, k) == Some(cur)
    ensures Walk(t2, g, start, k + 1) == Some(next)
  {
    WalkKept(t, t2, g, start, k, cur, next);
    DWordRoundTrip(next);
  }

  lemma Below12(v: DWord)
    requires (v as nat) < 0x0FF8
    ensures v < 0x0FF8 && v & 0x0FFF == v
  {
  }

  lemma Below16(v: DWord)
    requires (v as nat) < 0xFFF8
    ensures v < 0xFFF8 && v & 0xFFFF == v
  {
  }

  /** A cluster number below the end-of-chain marker is stored as it is. */
  lemma StoredLink(bits: nat, v: DWord)
    requires ValidBits(bits) && (v as nat) < EndOfChainFor(bits)
    ensures Stored(bits, v) == v
  {
    if bits == 12 {
      Below12(v);
    } else if bits == 16 {
      Below16(v);
    }
  }

  /** Sectors changed only in a range past the FAT copies leave the table as it was. */
  lemma TableKeptPastFat(a: seq<Sector>, b: seq<Sector>, g: Geometry, lo: nat, hi: nat)
    requires Sound(g) && OnDisk(g, |a|) && FatBase(g, g.numFATs) <= lo
    requires SameOutsideRange(a, b, lo, hi) || WipedRange(a, b, lo, hi)
    ensures Fat(b, g) == Fat(a, g)
  {
    assert SameOutsideRange(a, b, lo, hi);
    CopyOnDisk(g, |a|, 0);
    SameCopy(a, b, g, 0);
  }

  // ---------------------------------------------------------------------
  // Where an item lies.

  /**
   * Phat_ClusterToLBA with its unsigned arithmetic: for cluster 0 or 1,
   * cluster - 2 wraps round in 32 bits before it is cast to LBA_t. This is
   * the PHAT_BIGLBA build, where LBA_t has 64 bits and the wrapped value
   * survives the widening; the 32-bit LBA_t build is not modelled here.
   */
  function DataLba(g: Geometry, c: nat): (lba: nat)
    ensures lba >= g.dataStart
    ensures c >= 2 ==> lba == ClusterToLba(g, c)
  {
    if c >= 2 then ClusterToLba(g, c) else g.dataStart + (c + 0xFFFF_FFFE) * g.sectorsPerCluster
  }

  /** The cursor is in the FAT12/16 root area, which has no clusters. */
  predicate FixedRoot(g: Geometry, start: nat)
  {
    g.fatBits != 32 && start == 0
  }

  /**
   * The disk sector that holds item i of the directory starting at `start`
   * once the cursor stands on `cluster`: in the root area, sector i / 16 of
   * it; otherwise sector (i % items-per-cluster) / 16 of the cluster. A
   * sector holds 16 items (Laid); SourcePlace ties this to the way
   * Phat_GetDirItem and Phat_PutDirItem compute it.
   */
  function ItemLba(g: Geometry, start: nat, cluster: nat, i: nat): (lba: nat)
    requires Sound(g) && Laid(g)
    ensures lba >= FatBase(g, g.numFATs)
  {
    g.partitionStart +
      if FixedRoot(g, start) then g.rootDirStart + Quotient(i, 16)
      else DataLba(g, cluster) + Quotient(Remainder(i, g.itemsPerCluster), 16)
  }

  /** The position in the chain of the cluster that holds item i. */
  function ClusterOf(g: Geometry, i: nat): nat
    requires g.itemsPerCluster > 0
  {
    Quotient(i, g.itemsPerCluster)
  }

  /** The item's slot in its sector. */
  function ItemSlot(i: nat): (k: nat)
    ensures k < 16
  {
    DivMod(i, 16);
    Remainder(i, 16)
  }

  /**
   * Phat_GetDirItem and Phat_PutDirItem find item i at sector
   * (i % items-per-cluster) / items-per-sector of the cursor's cluster, or
   * sector i / items-per-sector of the FAT12/16 root area, and at slot
   * (i % items-per-cluster) % items-per-sector: the place ItemLba and
   * ItemSlot describe, and the cluster is the one at ClusterOf in the chain.
   */
  lemma SourcePlace(g: Geometry, start: nat, cluster: nat, i: nat)
    requires Sound(g) && Laid(g)
    ensures ClusterOf(g, i) == i / g.itemsPerCluster
    ensures (i % g.itemsPerCluster) % g.itemsPerSector == ItemSlot(i)
    ensures ItemLba(g, start, cluster, i) == g.partitionStart +
      if FixedRoot(g, start) then g.rootDirStart + i / g.itemsPerSector
      else DataLba(g, cluster) + (i % g.itemsPerCluster) / g.itemsPerSector
  {
    DivMod(i, g.itemsPerCluster);
    DivMod(i % g.itemsPerCluster, 16);
    DivMod(i, 16);
    SlotOfItem(i, g.sectorsPerCluster);
  }

  /**
   * i / n and i % n, counted by repeated subtraction. The item arithmetic
   * goes through these so that a proof about items sees a division only
   * where DivMod brings it in.
   */
  function Quotient(i: nat, n: nat): nat
    requires n > 0
    decreases i
  {
    if i < n then 0 else 1 + Quotient(i - n, n)
  }

  function Remainder(i: nat, n: nat): nat
    requires n > 0
    decreases i
  {
    if i < n then i else Remainder(i - n, n)
  }

  lemma {:induction false} DivMod(i: nat, n: nat)
    requires n > 0
    ensures Quotient(i, n) == i / n && Remainder(i, n) == i % n
    decreases i
  {
    if i >= n {
      DivMod(i - n, n);
      DivUnique(i, n, (i - n) / n + 1, (i - n) % n);
    }
  }

  /** The quotient and remainder are the only such pair. */
  lemma DivUnique(i: nat, n: nat, q: int, r: int)
    requires n > 0 && 0 <= r < n && i == n * q + r
    ensures i / n == q && i % n == r
  {
    var q', r' := i / n, i % n;
    assert n * (q - q') == r' - r;
    if q' < q {
      MulAtLeast(n, q - q');
    } else if q < q' {
      MulAtLeast(n, q' - q);
    }
  }

  lemma MulAtLeast(n: nat, k: int)
    requires k >= 1
    ensures n * k >= n
  {
    assert n * k == n * (k - 1) + n;
  }

  lemma SlotOfItem(i: nat, spc: nat)
    requires spc >= 1
    ensures (i % (16 * spc)) % 16 == i % 16
  {
    DivMod(i, 16 * spc);
    DivMod(Remainder(i, 16 * spc), 16);
    DivMod(i, 16);
    RemainderOfRemainder(i, spc);
  }

  /** i is n times its quotient plus its remainder, which is below n. */
  lemma {:induction false} QuotRem(i: nat, n: nat)
    requires n > 0
    ensures i == n * Quotient(i, n) + Remainder(i, n) && Remainder(i, n) < n
    decreases i
  {
    if i >= n {
      QuotRem(i - n, n);
      assert n * (Quotient(i - n, n) + 1) == n * Quotient(i - n, n) + n;
    }
  }

  /** Taking whole clusters of 16 * spc items off an index keeps its slot. */
  lemma {:induction false} RemainderOfRemainder(i: nat, spc: nat)
    requires spc >= 1
    ensures Remainder(Remainder(i, 16 * spc), 16) == Remainder(i, 16)
    decreases i
  {
    if i >= 16 * spc {
      RemainderOfRemainder(i - 16 * spc, spc);
      RemainderSkip(i, spc);
    }
  }

  lemma {:induction false} RemainderSkip(i: nat, k: nat)
    requires i >= 16 * k
    ensures Remainder(i, 16) == Remainder(i - 16 * k, 16)
    decreases k
  {
    if k > 0 {
      RemainderSkip(i - 16, k - 1);
    }
  }

  /** Item i of a cluster lies in one of the cluster's sectors. */
  lemma ItemInCluster(g: Geometry, start: nat, cluster: nat, i: nat)
    requires Sound(g) && Laid(g) && !FixedRoot(g, start) && cluster >= 2
    ensures var lba := g.partitionStart + ClusterToLba(g, cluster);
      lba <= ItemLba(g, start, cluster, i) < lba + g.sectorsPerCluster
  {
    var spc := g.sectorsPerCluster;
    var r := Remainder(i, 16 * spc);
    DivMod(i, 16 * spc);
    DivMod(r, 16);
    assert r < 16 * spc;
    assert r / 16 < spc;
  }

  /**
   * Two different items of the same cluster lie in different places: they
   * differ in sector or in slot.
   */
  lemma ItemsApart(g: Geometry, start: nat, cluster: nat, i: nat, j: nat)
    requires Sound(g) && Laid(g) && !FixedRoot(g, start) && i != j
    requires ClusterOf(g, i) == ClusterOf(g, j)
    ensures ItemLba(g, start, cluster, i) != ItemLba(g, start, cluster, j) || ItemSlot(i) != ItemSlot(j)
  {
    var n := g.itemsPerCluster;
    var ri, rj := Remainder(i, n), Remainder(j, n);
    QuotRem(i, n);
    QuotRem(j, n);
    assert ri != rj;
    QuotRem(ri, 16);
    QuotRem(rj, 16);
    RemainderOfRemainder(i, g.sectorsPerCluster);
    RemainderOfRemainder(j, g.sectorsPerCluster);
  }

  /** Two different items of the root area lie in different places. */
  lemma RootItemsApart(g: Geometry, i: nat, j: nat)
    requires Sound(g) && Laid(g) && FixedRoot(g, 0) && i != j
    ensures ItemLba(g, 0, 0, i) != ItemLba(g, 0, 0, j) || ItemSlot(i) != ItemSlot(j)
  {
    DivMod(i, 16);
    DivMod(j, 16);
    assert i == 16 * (i / 16) + i % 16 && j == 16 * (j / 16) + j % 16;
  }

  // ---------------------------------------------------------------------
  // Items in a sector.

  /** Item k of a sector: bytes 32k to 32k + 31. */
  function ItemOf(s: Sector, k: nat): Entry
    requires k < 16
  {
    s[32 * k..32 * k + 32]
  }

  /** The sector with item k replaced. */
  function WithItem(s: Sector, k: nat, e: Entry): Sector
    requires k < 16
  {
    s[..32 * k] + e + s[32 * k + 32..]
  }

  /** Reading back an item after storing it gives what was stored; the other items are as they were. */
  lemma ItemOfWithItem(s: Sector, k: nat, e: Entry, j: nat)
    requires k < 16 && j < 16
    ensures ItemOf(WithItem(s, k, e), j) == if j == k then e else ItemOf(s, j)
  {
    var s2 := WithItem(s, k, e);
    if j != k {
      assert forall i :: 32 * j <= i < 32 * j + 32 ==> s2[i] == s[i];
    }
  }

  // ---------------------------------------------------------------------
  // The cursor.

  /**
   * Phat_DirInfo_t without its volume pointer: the first cluster of the
   * directory, the cluster the cursor last reached and its position in the
   * chain, and the index of the current item.
   */
  datatype DirCursor = DirCursor(startCluster: nat, currentCluster: nat, clusterIndex: nat, item: nat)

  /** The remembered cluster is the one clusterIndex links along the chain from the start. */
  ghost predicate Positioned(t: seq<DWord>, g: Geometry, d: DirCursor)
  {
    Walk(t, g, d.startCluster, d.clusterIndex) == Some(d.currentCluster)
  }

  /** The volume is mounted with the layout the directory layer relies on. */
  ghost predicate Ready(vol: Volume)
    reads vol, vol.cache, vol.cache.Repr
  {
    vol.Valid() && Laid(vol.geo)
  }

  /** The FSInfo sector, when there is one, is not a sector of the first FAT copy. */
  predicate FsInfoApart(vol: Volume)
    reads vol
  {
    !vol.hasFsInfo || !InCopy(vol.geo, 0, vol.fsInfoLba)
  }

  /** Phat_OpenRootDir, or a cursor opened at the first cluster of a directory: positioned on any table. */
  function Open(start: nat): (d: DirCursor)
    ensures forall t: seq<DWord>, g: Geometry :: Positioned(t, g, d)
    ensures d.startCluster == start && d.item == 0
  {
    DirCursor(start, start, 0, 0)
  }

  /**
   * Phat_UpdateClusterByDirItemIndex: in the FAT12/16 root area only the
   * item count is checked. Otherwise the cursor goes back to the start of
   * the chain when it is past item / items-per-cluster, then follows the
   * chain up to that position; at the end of the chain it either stops
   * (EndOfDirectory) or, when asked to, links in a wiped free cluster.
   */
  method UpdateCluster(vol: Volume, d: DirCursor, allocate: bool) returns (st: PhatState, d2: DirCursor)
    requires Ready(vol)
    modifies vol, vol.cache.Repr
    ensures Ready(vol) && vol.Kept()
    ensures d2.startCluster == d.startCluster && d2.item == d.item
    ensures vol.hasFsInfo == old(vol.hasFsInfo) && vol.isDirty == old(vol.isDirty) && vol.fsInfoLba == old(vol.fsInfoLba)
    ensures !allocate ==> vol.View() == old(vol.View()) && vol.FsInfoKept()
    ensures st in {OK, EndOfDirectory, InvalidParameter, FATError, NotEnoughSpace, ReadFail, WriteFail, InternalError}
    ensures FixedRoot(vol.geo, d.startCluster) ==>
      d2 == d && vol.View() == old(vol.View()) && vol.FsInfoKept() &&
      st == if d.item >= vol.geo.rootEntryCount then EndOfDirectory else OK
    ensures vol.geo.fatBits == 32 && d.startCluster < 2 ==>
      st == InvalidParameter && d2 == d && vol.View() == old(vol.View()) && vol.FsInfoKept()
    ensures st == EndOfDirectory && !FixedRoot(vol.geo, d.startCluster) ==> !allocate
    ensures st == OK && !FixedRoot(vol.geo, d.startCluster) ==> d2.clusterIndex == ClusterOf(vol.geo, d.item)
    ensures !allocate && Positioned(old(vol.Table()), vol.geo, d) ==> Positioned(vol.Table(), vol.geo, d2)
    ensures (!FixedRoot(vol.geo, d.startCluster) && (vol.geo.fatBits == 32 ==> d.startCluster >= 2) && (allocate ==> FsInfoApart(vol)) &&
             (Positioned(old(vol.Table()), vol.geo, d) || d.clusterIndex > ClusterOf(vol.geo, d.item))) ==>
      (st == OK ==> Positioned(vol.Table(), vol.geo, d2)) &&
      (st in {EndOfDirectory, FATError, InvalidParameter} ==>
        Walk(vol.Table(), vol.geo, d.startCluster, ClusterOf(vol.geo, d.item)).None?)
  {
    d2 := d;
    if vol.geo.fatBits != 32 {
      if d.startCluster == 0 {
        if d.item >= vol.geo.rootEntryCount {
          return EndOfDirectory, d2;
        }
        return OK, d2;
      }
    } else if d.startCluster < 2 {
      return InvalidParameter, d2;
    }
    var target := ClusterOf(vol.geo, d.item);
    if d.clusterIndex > target {
      d2 := d.(clusterIndex := 0, currentCluster := d.startCluster);
    }
    st, d2 := Follow(vol, d2, target, allocate);
  }

  /** The loop of Phat_UpdateClusterByDirItemIndex: follow the chain up to position `target`. */
  method Follow(vol: Volume, d: DirCursor, target: nat, allocate: bool) returns (st: PhatState, d2: DirCursor)
    requires Ready(vol) && d.clusterIndex <= target
    modifies vol, vol.cache.Repr
    ensures Ready(vol) && vol.Kept()
    ensures d2.startCluster == d.startCluster && d2.item == d.item
    ensures vol.hasFsInfo == old(vol.hasFsInfo) && vol.isDirty == old(vol.isDirty) && vol.fsInfoLba == old(vol.fsInfoLba)
    ensures !allocate ==> vol.View() == old(vol.View()) && vol.FsInfoKept()
    ensures st in {OK, EndOfDirectory, InvalidParameter, FATError, NotEnoughSpace, ReadFail, WriteFail, InternalError}
    ensures st == EndOfDirectory ==> !allocate
    ensures st == OK ==> d2.clusterIndex == target
    ensures Positioned(old(vol.Table()), vol.geo, d) && (allocate ==> FsInfoApart(vol)) ==>
      (st == OK || !allocate ==> Positioned(vol.Table(), vol.geo, d2)) &&
      (st in {EndOfDirectory, FATError, InvalidParameter} ==> Walk(vol.Table(), vol.geo, d.startCluster, target).None?)
  {
    ghost var g, view0 := vol.geo, vol.View();
    ghost var fs, dirty, lba, free, hint := vol.hasFsInfo, vol.isDirty, vol.fsInfoLba, vol.freeClusters, vol.nextFree;
    ghost var t := vol.Table();
    ghost var tracked := Positioned(t, g, d) && (allocate ==> FsInfoApart(vol));
    d2 := d;
    st := OK;
    while d2.clusterIndex < target
      invariant Ready(vol) && vol.Kept() && d2.clusterIndex <= target && vol.geo == g
      invariant d2.startCluster == d.startCluster && d2.item == d.item
      invariant vol.hasFsInfo == fs && vol.isDirty == dirty && vol.fsInfoLba == lba
      invariant !allocate ==> vol.View() == view0 && vol.freeClusters == free && vol.nextFree == hint
      invariant st == OK && t == vol.Table()
      invariant tracked ==> Positioned(t, g, d2)
      decreases target - d2.clusterIndex
    {
      st, d2, t := Step(vol, d2, target, allocate, tracked, t);
      if st != OK {
        return;
      }
    }
  }

  /** What Phat_GetFATNextCluster reports about entry `cur` of table `t`. */
  ghost predicate LinkRead(t: seq<DWord>, g: Geometry, cur: nat, st: PhatState, next: nat)
  {
    (st == InvalidParameter <==> cur < 2 || cur > g.maxValid) &&
    (st == OK ==> cur < |t| && next == t[cur] as nat && 2 <= next <= g.maxValid && next < g.endOfChain) &&
    (st == EndOfFATChain ==> cur < |t| && t[cur] as nat >= g.endOfChain) &&
    (st == FATError ==> cur < |t| && t[cur] as nat < g.endOfChain && (t[cur] < 2 || t[cur] as nat > g.maxValid))
  }

  /** A link read moves the walk one cluster on; the end of the chain or a bad link ends it. */
  lemma WalkAfterRead(t: seq<DWord>, g: Geometry, d: DirCursor, target: nat, st: PhatState, next: nat)
    requires Positioned(t, g, d) && d.clusterIndex < target && LinkRead(t, g, d.currentCluster, st, next)
    ensures st == OK ==> Walk(t, g, d.startCluster, d.clusterIndex + 1) == Some(next)
    ensures st in {EndOfFATChain, FATError, InvalidParameter} ==> Walk(t, g, d.startCluster, target).None?
  {
    WalkOn(t, g, d.startCluster, d.clusterIndex, d.currentCluster);
    if st in {EndOfFATChain, FATError, InvalidParameter} {
      WalkStaysEnded(t, g, d.startCluster, d.clusterIndex + 1, target);
    }
  }

  /**
   * One pass of the loop of Phat_UpdateClusterByDirItemIndex: the cursor
   * moves to the next cluster of the chain, which is appended first when
   * the chain ends and `allocate` is set. `t` and `t2` are the table
   * before and after.
   */
  method Step(vol: Volume, d: DirCursor, target: nat, allocate: bool, ghost tracked: bool, ghost t: seq<DWord>)
    returns (st: PhatState, d2: DirCursor, ghost t2: seq<DWord>)
    requires Ready(vol) && t == vol.Table() && d.clusterIndex < target
    requires tracked ==> (allocate ==> FsInfoApart(vol)) && Positioned(t, vol.geo, d)
    modifies vol, vol.cache.Repr
    ensures Ready(vol) && vol.Kept() && t2 == vol.Table()
    ensures vol.hasFsInfo == old(vol.hasFsInfo) && vol.isDirty == old(vol.isDirty) && vol.fsInfoLba == old(vol.fsInfoLba)
    ensures !allocate ==> vol.View() == old(vol.View()) && vol.FsInfoKept()
    ensures st in {OK, EndOfDirectory, InvalidParameter, FATError, NotEnoughSpace, ReadFail, WriteFail, InternalError}
    ensures st == EndOfDirectory ==> !allocate
    ensures d2.startCluster == d.startCluster && d2.item == d.item
    ensures d2.clusterIndex == if st == OK then d.clusterIndex + 1 else d.clusterIndex
    ensures tracked && (st == OK || !allocate) ==> Positioned(t2, vol.geo, d2)
    ensures tracked && st in {EndOfDirectory, FATError, InvalidParameter} ==>
      Walk(t2, vol.geo, d.startCluster, target).None?
  {
    d2, t2 := d, t;
    if d.currentCluster < 2 {
      return InternalError, d2, t2;
    }
    var next;
    st, next := NextInChain(vol, d, target, tracked, t);
    if st == EndOfFATChain {
      if !allocate {
        return EndOfDirectory, d2, t2;
      }
      st, d2, t2 := Extend(vol, d, tracked, t);
      return;
    } else if st != OK {
      return;
    }
    if next > vol.geo.maxValid {
      return FATError, d2, t2;
    }
    d2 := DirCursor(d.startCluster, next, d.clusterIndex + 1, d.item);
  }

  /**
   * Phat_GetFATNextCluster on the cursor's cluster, read as a step of the
   * walk: a link moves the walk on; the end of the chain and a bad link
   * end it.
   */
  method NextInChain(vol: Volume, d: DirCursor, target: nat, ghost tracked: bool, ghost t: seq<DWord>)
    returns (st: PhatState, next: nat)
    requires Ready(vol) && t == vol.Table() && d.clusterIndex < target
    requires tracked ==> Positioned(t, vol.geo, d)
    modifies vol.cache.Repr
    ensures Ready(vol) && vol.Kept() && vol.View() == old(vol.View()) && t == vol.Table()
    ensures st in {OK, InvalidParameter, EndOfFATChain, FATError, ReadFail, WriteFail, InternalError}
    ensures st == OK ==> 2 <= next <= vol.geo.maxValid
    ensures st == EndOfFATChain ==> 2 <= d.currentCluster <= vol.geo.maxValid && t[d.currentCluster] as nat >= vol.geo.endOfChain
    ensures tracked && st == OK ==> Walk(t, vol.geo, d.startCluster, d.clusterIndex + 1) == Some(next)
    ensures tracked && st in {EndOfFATChain, FATError, InvalidParameter} ==> Walk(t, vol.geo, d.startCluster, target).None?
  {
    st, next := vol.GetNextCluster(d.currentCluster);
    vol.TableKept();
    if tracked {
      WalkAfterRead(t, vol.geo, d, target, st, next);
    }
  }

  /**
   * The cursor's chain ends at its current cluster: a new cluster is
   * appended and the cursor moves onto it. Once the link is written the
   * cursor stands on the new cluster, even if wiping it then fails; its
   * index only moves on success.
   */
  method Extend(vol: Volume, d: DirCursor, ghost tracked: bool, ghost t: seq<DWord>)
    returns (st: PhatState, d2: DirCursor, ghost t2: seq<DWord>)
    requires Ready(vol) && t == vol.Table()
    requires 2 <= d.currentCluster <= vol.geo.maxValid && t[d.currentCluster] as nat >= vol.geo.endOfChain
    requires tracked ==> FsInfoApart(vol) && Positioned(t, vol.geo, d)
    modifies vol, vol.cache.Repr
    ensures Ready(vol) && vol.Kept() && t2 == vol.Table()
    ensures vol.hasFsInfo == old(vol.hasFsInfo) && vol.isDirty == old(vol.isDirty) && vol.fsInfoLba == old(vol.fsInfoLba)
    ensures st in {OK, NotEnoughSpace, ReadFail, WriteFail, InternalError}
    ensures d2.startCluster == d.startCluster && d2.item == d.item
    ensures d2.clusterIndex == if st == OK then d.clusterIndex + 1 else d.clusterIndex
    ensures tracked && st == OK ==> Positioned(t2, vol.geo, d2)
  {
    var next, linked;
    st, next, linked := AppendCluster(vol, d.currentCluster);
    t2 := vol.Table();
    d2 := d;
    if linked {
      d2 := DirCursor(d.startCluster, next, if st == OK then d.clusterIndex + 1 else d.clusterIndex, d.item);
      if tracked && st == OK {
        CursorGrown(t, t2, vol.geo, d, next);
      }
    }
  }

  /** A cursor at the end of its chain moves onto the cluster appended there. */
  lemma CursorGrown(t: seq<DWord>, t2: seq<DWord>, g: Geometry, d: DirCursor, next: nat)
    requires Sound(g) && Laid(g) && Positioned(t, g, d)
    requires 2 <= d.currentCluster <= g.maxValid && d.currentCluster < |t| && t[d.currentCluster] as nat >= g.endOfChain
    requires 2 <= next <= g.maxValid && next < |t| && t[next] == 0
    requires t2 == t[next := EocEntry(g.fatBits)][d.currentCluster := next as DWord]
    ensures Positioned(t2, g, DirCursor(d.startCluster, next, d.clusterIndex + 1, d.item))
  {
    WalkGrown(t, t2, g, d.startCluster, d.clusterIndex, d.currentCluster, next, EocEntry(g.fatBits));
  }

  /**
   * The allocation branch of Phat_UpdateClusterByDirItemIndex: a free
   * cluster is taken (the one after `cur` when it is free), linked after
   * `cur`, and wiped. `linked` says the link was written, after which
   * the cursor stands on the new cluster even if the wipe fails.
   */
  method AppendCluster(vol: Volume, cur: nat) returns (st: PhatState, next: nat, linked: bool)
    requires Ready(vol) && 2 <= cur <= vol.geo.maxValid
    modifies vol, vol.cache.Repr
    ensures Ready(vol) && vol.Kept()
    ensures vol.hasFsInfo == old(vol.hasFsInfo) && vol.isDirty == old(vol.isDirty) && vol.fsInfoLba == old(vol.fsInfoLba)
    ensures st in {OK, NotEnoughSpace, ReadFail, WriteFail, InternalError}
    ensures st == OK ==> linked
    ensures linked ==> 2 <= next <= vol.geo.maxValid && old(vol.Table())[next] == 0
    ensures linked && FsInfoApart(vol) ==>
      vol.Table() == old(vol.Table())[next := EocEntry(vol.geo.fatBits)][cur := next as DWord]
  {
    linked := false;
    st, next := vol.AllocateCluster(cur + 1);
    if st != OK {
      return;
    }
    ghost var t1 := vol.Table();
    st := vol.WriteFat(cur, next as DWord, false);
    if st != OK {
      return;
    }
    linked := true;
    DWordRoundTrip(next);
    StoredLink(vol.geo.fatBits, next as DWord);
    assert vol.Table() == t1[cur := next as DWord];
    st := WipeData(vol, next);
  }

  /** Phat_WipeCluster on a data cluster: the table is left as it was. */
  method WipeData(vol: Volume, c: nat) returns (st: PhatState)
    requires Ready(vol) && 2 <= c <= vol.geo.maxValid
    modifies vol.cache.Repr
    ensures Ready(vol) && vol.Kept() && vol.Table() == old(vol.Table())
    ensures st == OK || st == WriteFail
    ensures var lba := vol.geo.partitionStart + ClusterToLba(vol.geo, c);
      st == OK ==> WipedRange(old(vol.View()), vol.View(), lba, lba + vol.geo.sectorsPerCluster)
  {
    ghost var view := vol.View();
    ghost var lba := vol.geo.partitionStart + DataLba(vol.geo, c);
    st := vol.WipeCluster(c);
    TableKeptPastFat(view, vol.View(), vol.geo, lba, lba + vol.geo.sectorsPerCluster);
  }
}
