/**
 * Reading and writing the items of a directory through its cursor
 * (Phat_GetDirItem, Phat_PutDirItem, Phat_MoveToNextDirItem) and the
 * enumeration built on them (Phat_NextDirItem, Phat_FindFirstLFNEntry).
 * The contents of a directory are described by ItemAt: the 32 bytes that
 * item i of the directory starting at a given cluster occupies on the disk
 * as the engine sees it, found through the chain in the first FAT.
 */
module DirItems {
  import opened Common
  import opened Boot
  import opened FatImage
  import opened SectorCache
  import opened FatVolume
  import opened LongNames
  import opened ShortNames
  import opened Directory
  import opened DirEntries

  /** One more than the largest value of the engine's 32-bit item index. */
  const ITEM_LIMIT: nat := 0x1_0000_0000

  // ---------------------------------------------------------------------
  // Where item i of a directory is.

  /** A sector of the disk and a slot of it. */
  datatype Place = Place(lba: nat, slot: nat)

  /**
   * The place Phat_GetDirItem reads item i from: none for a FAT32 cursor on
   * cluster 0 or 1; in the FAT12/16 root area, sector i / 16 of the area,
   * with no check against the number of root entries; otherwise the sector
   * of the cluster the chain reaches at position i / items-per-cluster,
   * none when the chain ends before it.
   */
  ghost function ItemPlace(t: seq<DWord>, g: Geometry, start: nat, i: nat): (p: Option<Place>)
    requires Sound(g) && Laid(g)
    ensures p.Some? ==> p.value.slot < 16 && p.value.lba >= FatBase(g, g.numFATs)
  {
    if g.fatBits == 32 && start < 2 then None
    else if FixedRoot(g, start) then Some(Place(ItemLba(g, start, 0, i), ItemSlot(i)))
    else match Walk(t, g, start, ClusterOf(g, i))
      case None => None
      case Some(c) => Some(Place(ItemLba(g, start, c, i), ItemSlot(i)))
  }

  /** Item i of the directory as it lies on the disk `view`, when it has a place on it. */
  ghost function ItemAt(view: seq<Sector>, t: seq<DWord>, g: Geometry, start: nat, i: nat): Option<Entry>
    requires Sound(g) && Laid(g)
  {
    match ItemPlace(t, g, start, i)
    case None => None
    case Some(p) => if p.lba < |view| then Some(ItemOf(view[p.lba], p.slot)) else None
  }

  /**
   * Where the enumeration of a directory ends without reading an item: the
   * item has no place (the chain ends before it), lies past the FAT12/16
   * root area, or the 32-bit index has run out.
   */
  ghost predicate Ended(t: seq<DWord>, g: Geometry, start: nat, i: nat)
    requires Sound(g) && Laid(g)
  {
    ItemPlace(t, g, start, i).None? || (FixedRoot(g, start) && i >= g.rootEntryCount) || i >= ITEM_LIMIT
  }

  /** The disk with entry e stored at place p. */
  function PutAt(view: seq<Sector>, p: Place, e: Entry): (r: seq<Sector>)
    requires p.lba < |view| && p.slot < 16
    ensures |r| == |view|
  {
    view[p.lba := WithItem(view[p.lba], p.slot, e)]
  }

  /** After storing at p, the item at p reads back as stored and every other place as before. */
  lemma PutAtReads(view: seq<Sector>, p: Place, e: Entry, q: Place)
    requires p.lba < |view| && p.slot < 16 && q.lba < |view| && q.slot < 16
    ensures ItemOf(PutAt(view, p, e)[q.lba], q.slot) == if q == p then e else ItemOf(view[q.lba], q.slot)
  {
    if q.lba == p.lba {
      ItemOfWithItem(view[p.lba], p.slot, e, q.slot);
    }
  }

  /** Storing at a place past the FAT copies leaves the table as it was. */
  lemma PutAtKeepsTable(view: seq<Sector>, g: Geometry, p: Place, e: Entry)
    requires Sound(g) && OnDisk(g, |view|) && p.lba < |view| && p.slot < 16 && FatBase(g, g.numFATs) <= p.lba
    ensures Fat(PutAt(view, p, e), g) == Fat(view, g)
  {
    TableKeptPastFat(view, PutAt(view, p, e), g, p.lba, p.lba + 1);
  }

  // ---------------------------------------------------------------------
  // Phat_GetDirItem, Phat_PutDirItem, Phat_MoveToNextDirItem.

  /**
   * The sector that holds the cursor's item and its slot, as
   * Phat_GetDirItem and Phat_PutDirItem compute them, bringing the cursor
   * to the item's cluster first outside the FAT12/16 root area.
   */
  method Locate(vol: Volume, d: DirCursor) returns (st: PhatState, d2: DirCursor, p: Place)
    requires Ready(vol)
    modifies vol, vol.cache.Repr
    ensures Ready(vol) && vol.Kept() && vol.View() == old(vol.View()) && vol.FsInfoKept()
    ensures vol.isDirty == old(vol.isDirty)
    ensures d2.startCluster == d.startCluster && d2.item == d.item
    ensures st in {OK, EndOfDirectory, InvalidParameter, FATError, NotEnoughSpace, ReadFail, WriteFail, InternalError}
    ensures vol.geo.fatBits == 32 && d.startCluster == 0 ==> st == EndOfDirectory
    ensures st == OK ==> p.slot < 16 && p.lba >= FatBase(vol.geo, vol.geo.numFATs)
    ensures Positioned(old(vol.Table()), vol.geo, d) && st == OK ==>
      Positioned(vol.Table(), vol.geo, d2) && ItemPlace(vol.Table(), vol.geo, d.startCluster, d.item) == Some(p)
    ensures Positioned(old(vol.Table()), vol.geo, d) && ItemPlace(vol.Table(), vol.geo, d.startCluster, d.item).None? ==>
      st != OK
    ensures Positioned(old(vol.Table()), vol.geo, d) && st == EndOfDirectory ==>
      ItemPlace(vol.Table(), vol.geo, d.startCluster, d.item).None?
  {
    ghost var t := vol.Table();
    var g := vol.geo;
    d2, p := d, Place(0, 0);
    if g.fatBits == 32 && d.startCluster == 0 {
      return EndOfDirectory, d2, p;
    }
    var inCluster := d.item % g.itemsPerCluster;
    var slot := inCluster % g.itemsPerSector;
    if FixedRoot(g, d.startCluster) {
      SourcePlace(g, 0, 0, d.item);
      return OK, d2, Place(g.partitionStart + g.rootDirStart + d.item / g.itemsPerSector, slot);
    }
    st, d2 := UpdateCluster(vol, d, false);
    vol.TableKept();
    if st != OK {
      return;
    }
    SourcePlace(g, d.startCluster, d2.currentCluster, d.item);
    p := Place(g.partitionStart + DataLba(g, d2.currentCluster) + inCluster / g.itemsPerSector, slot);
  }

  /**
   * Phat_GetDirItem: the cursor's item, read through the cache. Nothing on
   * the disk changes; on a cursor that tracks its chain the item returned
   * is the directory's item at the cursor's index.
   */
  method GetDirItem(vol: Volume, d: DirCursor) returns (st: PhatState, d2: DirCursor, e: Entry)
    requires Ready(vol)
    modifies vol, vol.cache.Repr
    ensures Ready(vol) && vol.Kept() && vol.View() == old(vol.View()) && vol.FsInfoKept()
    ensures vol.isDirty == old(vol.isDirty) && vol.Table() == old(vol.Table())
    ensures d2.startCluster == d.startCluster && d2.item == d.item
    ensures st in {OK, EndOfDirectory, InvalidParameter, FATError, NotEnoughSpace, ReadFail, WriteFail, InternalError}
    ensures vol.geo.fatBits == 32 && d.startCluster == 0 ==> st == EndOfDirectory
    ensures Positioned(old(vol.Table()), vol.geo, d) && st == OK ==>
      Positioned(vol.Table(), vol.geo, d2) && ItemAt(vol.View(), vol.Table(), vol.geo, d.startCluster, d.item) == Some(e)
    ensures Positioned(old(vol.Table()), vol.geo, d) && ItemAt(vol.View(), vol.Table(), vol.geo, d.startCluster, d.item).None? ==>
      st != OK
    ensures Positioned(old(vol.Table()), vol.geo, d) && st == EndOfDirectory ==>
      ItemPlace(vol.Table(), vol.geo, d.startCluster, d.item).None?
  {
    e := seq(32, _ => 0);
    var p;
    st, d2, p := Locate(vol, d);
    vol.TableKept();
    if st != OK {
      return;
    }
    var data;
    st, data := vol.cache.ReadSector(p.lba);
    vol.TableKept();
    if st != OK {
      return;
    }
    e := ItemOf(data, p.slot);
  }

  /**
   * Phat_PutDirItem: the cursor's item replaced by e in the cached sector,
   * which is marked modified. Only that item changes, and the FAT does not.
   */
  method PutDirItem(vol: Volume, d: DirCursor, e: Entry) returns (st: PhatState, d2: DirCursor)
    requires Ready(vol)
    modifies vol, vol.cache.Repr
    ensures Ready(vol) && vol.Kept() && vol.FsInfoKept()
    ensures vol.isDirty == old(vol.isDirty) && vol.Table() == old(vol.Table())
    ensures d2.startCluster == d.startCluster && d2.item == d.item
    ensures st in {OK, EndOfDirectory, InvalidParameter, FATError, NotEnoughSpace, ReadFail, WriteFail, InternalError}
    ensures st != OK ==> vol.View() == old(vol.View())
    ensures vol.geo.fatBits == 32 && d.startCluster == 0 ==> st == EndOfDirectory
    ensures Positioned(old(vol.Table()), vol.geo, d) && st == OK ==>
      Positioned(vol.Table(), vol.geo, d2) &&
      var p := ItemPlace(vol.Table(), vol.geo, d.startCluster, d.item);
      p.Some? && p.value.lba < |old(vol.View())| && vol.View() == PutAt(old(vol.View()), p.value, e)
    ensures Positioned(old(vol.Table()), vol.geo, d) && ItemAt(old(vol.View()), vol.Table(), vol.geo, d.startCluster, d.item).None? ==>
      st != OK
  {
    var p;
    st, d2, p := Locate(vol, d);
    vol.TableKept();
    if st != OK {
      return;
    }
    st := StoreItem(vol, p, e);
  }

  /** The read-modify-write of Phat_PutDirItem on the sector at p. */
  method StoreItem(vol: Volume, p: Place, e: Entry) returns (st: PhatState)
    requires Ready(vol) && p.slot < 16 && p.lba >= FatBase(vol.geo, vol.geo.numFATs)
    modifies vol.cache.Repr
    ensures Ready(vol) && vol.Kept() && vol.Table() == old(vol.Table())
    ensures st in {OK, ReadFail, WriteFail, InternalError}
    ensures st != OK ==> vol.View() == old(vol.View())
    ensures st == OK ==> p.lba < |old(vol.View())| && vol.View() == PutAt(old(vol.View()), p, e)
  {
    ghost var view := vol.View();
    var data;
    st, data := vol.cache.ReadSector(p.lba);
    if st != OK {
      vol.TableKept();
      return;
    }
    st := vol.cache.WriteSector(p.lba, WithItem(data, p.slot, e), false);
    if st == OK {
      assert vol.View() == PutAt(view, p, e);
      PutAtKeepsTable(view, vol.geo, p, e);
    } else {
      vol.TableKept();
    }
  }

  /**
   * Phat_MoveToNextDirItem and Phat_MoveToNextDirItemWithAllocation: the
   * index moves on and the cursor is brought to its cluster, growing the
   * chain when asked to. The model stops with EndOfDirectory where the
   * 32-bit index would wrap round to 0.
   */
  method MoveNext(vol: Volume, d: DirCursor, allocate: bool) returns (st: PhatState, d2: DirCursor)
    requires Ready(vol)
    modifies vol, vol.cache.Repr
    ensures Ready(vol) && vol.Kept()
    ensures vol.hasFsInfo == old(vol.hasFsInfo) && vol.isDirty == old(vol.isDirty) && vol.fsInfoLba == old(vol.fsInfoLba)
    ensures !allocate ==> vol.View() == old(vol.View()) && vol.FsInfoKept()
    ensures d2.startCluster == d.startCluster
    ensures d2.item == if d.item + 1 < ITEM_LIMIT then d.item + 1 else d.item
    ensures st in {OK, EndOfDirectory, InvalidParameter, FATError, NotEnoughSpace, ReadFail, WriteFail, InternalError}
    ensures st == OK ==> d.item + 1 < ITEM_LIMIT
    ensures FixedRoot(vol.geo, d.startCluster) ==> vol.View() == old(vol.View()) && vol.FsInfoKept()
    ensures FixedRoot(vol.geo, d.startCluster) && d.item + 1 < ITEM_LIMIT ==>
      st == if d.item + 1 >= vol.geo.rootEntryCount then EndOfDirectory else OK
    ensures Positioned(old(vol.Table()), vol.geo, d) && (allocate ==> FsInfoApart(vol)) && st == OK ==>
      Positioned(vol.Table(), vol.geo, d2)
    ensures Positioned(old(vol.Table()), vol.geo, d) && !allocate && st == EndOfDirectory ==>
      Ended(vol.Table(), vol.geo, d.startCluster, d.item + 1)
    ensures !allocate && Positioned(old(vol.Table()), vol.geo, d) ==> Positioned(vol.Table(), vol.geo, d2)
  {
    if d.item + 1 >= ITEM_LIMIT {
      return EndOfDirectory, d;
    }
    st, d2 := UpdateCluster(vol, d.(item := d.item + 1), allocate);
  }

  // ---------------------------------------------------------------------
  // What Phat_NextDirItem makes of a run of items.

  /** An item the enumeration passes over: a valid long-name entry or a deleted entry. */
  predicate Skipped(e: Entry)
  {
    IsValidLfnEntry(e) || e[0] == DELETED_MARK
  }

  /** An item the enumeration reports: a short entry that is neither deleted nor the end mark. */
  predicate Listed(e: Entry)
  {
    !IsValidLfnEntry(e) && e[0] != DELETED_MARK && e[0] != END_MARK
  }

  /**
   * One item passed over: a long-name entry goes through the checksum rule
   * and is copied into the name buffer; a deleted entry drops the name
   * gathered so far and forgets the expected checksum.
   */
  function Absorb(s: LfnState, e: Entry): (r: (PhatState, LfnState))
    requires WellFormed(s)
    ensures WellFormed(r.1)
  {
    if IsValidLfnEntry(e) then LfnStep(s, e, false)
    else (OK, s.(length := 0, noChecksum := true))
  }

  /** A run of items passed over in directory order, stopping at the first error. */
  function Scan(s: LfnState, es: seq<Entry>): (r: (PhatState, LfnState))
    requires WellFormed(s)
    ensures WellFormed(r.1)
    decreases |es|
  {
    if es == [] then (OK, s)
    else
      var (st, s1) := Absorb(s, es[0]);
      if st != OK then (st, s1) else Scan(s1, es[1..])
  }

  /** Scanning one more item after a run that scanned without error. */
  lemma {:induction false} ScanSnoc(s: LfnState, es: seq<Entry>, x: Entry)
    requires WellFormed(s) && Scan(s, es).0 == OK
    ensures Scan(s, es + [x]) == Absorb(Scan(s, es).1, x)
    decreases |es|
  {
    if es != [] {
      var (st, s1) := Absorb(s, es[0]);
      assert (es + [x])[1..] == es[1..] + [x];
      ScanSnoc(s1, es[1..], x);
    }
  }

  /** On a run of long-name entries the scan is the accumulation of their name parts. */
  lemma {:induction false} ScanOfLongNames(s: LfnState, es: seq<Entry>)
    requires WellFormed(s) && forall k :: 0 <= k < |es| ==> IsValidLfnEntry(es[k])
    ensures Scan(s, es) == Accumulate(s, es, false)
    decreases |es|
  {
    if es != [] {
      var r := LfnStep(s, es[0], false);
      if r.0 == OK {
        ScanOfLongNames(r.1, es[1..]);
      }
    }
  }

  /** The buffer with a terminator at n when n is inside it. */
  function Terminated(buffer: seq<WChar>, n: nat): (r: seq<WChar>)
    ensures |r| == |buffer| && r[..MinNat(n, |buffer|)] == buffer[..MinNat(n, |buffer|)]
  {
    if n < |buffer| then buffer[n := 0] else buffer
  }

  /**
   * The short entry that ends a run: a long name whose checksum does not
   * match the entry's 8.3 name is dropped; with no long name left, the
   * displayed 8.3 name takes its place. The name is then terminated.
   */
  function Finish(s: LfnState, e: Entry): (r: LfnState)
    requires WellFormed(s)
    ensures WellFormed(r) && r.checksum == s.checksum
    ensures s.length > 0 && (s.noChecksum || Checksum(Name83(e)) == s.checksum) ==>
      r.length == s.length && r.buffer[..MinNat(s.length, LFN_BUFFER)] == s.buffer[..MinNat(s.length, LFN_BUFFER)]
    ensures s.length == 0 || !(s.noChecksum || Checksum(Name83(e)) == s.checksum) ==>
      r.length <= 12 && r.buffer[..r.length] == DisplayName(Name83(e), e[12])
  {
    var keep := s.noChecksum || Checksum(Name83(e)) == s.checksum;
    var len := if keep then s.length else 0;
    if len == 0 then
      var n := DisplayName(Name83(e), e[12]);
      s.(buffer := Terminated(n + s.buffer[|n|..], |n|), length := |n|)
    else
      s.(buffer := Terminated(s.buffer, len), length := len)
  }

  /** The name the enumeration reports for a state: the first `length` code units of the buffer. */
  function ListedName(s: LfnState): seq<WChar>
    requires WellFormed(s)
  {
    s.buffer[..MinNat(s.length, LFN_BUFFER)]
  }

  /**
   * What the creation of an item writes, the enumeration reads back: the
   * long-name entries of a name followed by a short entry whose 8.3 name
   * they carry the checksum of are reported under that name.
   */
  lemma ListedLongName(buffer: seq<WChar>, oldChecksum: Byte, name: seq<WChar>, short: Entry)
    requires IsStorableName(name) && |buffer| == LFN_BUFFER
    ensures var r := Scan(Fresh(buffer, oldChecksum), EncodeLongName(name, Checksum(Name83(short))));
      r.0 == OK && ListedName(Finish(r.1, short)) == name
  {
    var es := EncodeLongName(name, Checksum(Name83(short)));
    forall k | 0 <= k < |es|
      ensures IsValidLfnEntry(es[k])
    {
      EncodeLongNameShape(name, Checksum(Name83(short)), k);
    }
    ScanOfLongNames(Fresh(buffer, oldChecksum), es);
    LongNameRoundTrip(buffer, oldChecksum, name, Checksum(Name83(short)), false);
  }

  // ---------------------------------------------------------------------
  // Phat_NextDirItem.

  /** The items from index `from` on are those of run, and the enumeration passes over each. */
  ghost predicate RunAt(view: seq<Sector>, t: seq<DWord>, g: Geometry, start: nat, from: nat, run: seq<Entry>)
    requires Sound(g) && Laid(g)
    decreases |run|
  {
    run == [] ||
    (RunAt(view, t, g, start, from, run[..|run| - 1]) &&
     ItemAt(view, t, g, start, from + |run| - 1) == Some(run[|run| - 1]) && Skipped(run[|run| - 1]))
  }

  lemma RunAtSnoc(view: seq<Sector>, t: seq<DWord>, g: Geometry, start: nat, from: nat, run: seq<Entry>, x: Entry)
    requires Sound(g) && Laid(g) && RunAt(view, t, g, start, from, run)
    requires ItemAt(view, t, g, start, from + |run|) == Some(x) && Skipped(x)
    ensures RunAt(view, t, g, start, from, run + [x])
  {
    assert (run + [x])[..|run|] == run;
  }

  /** Each item of a run is the directory's item at its index, and is passed over. */
  lemma {:induction false} RunAtItem(view: seq<Sector>, t: seq<DWord>, g: Geometry, start: nat, from: nat, run: seq<Entry>, k: nat)
    requires Sound(g) && Laid(g) && RunAt(view, t, g, start, from, run) && k < |run|
    ensures ItemAt(view, t, g, start, from + k) == Some(run[k]) && Skipped(run[k])
    decreases |run|
  {
    if k < |run| - 1 {
      RunAtItem(view, t, g, start, from, run[..|run| - 1], k);
    }
  }

  /**
   * How an enumeration that reports EndOfDirectory at item `at` ended: on the
   * end mark, with the name emptied, or where the directory has no item.
   */
  ghost predicate EndSeen(view: seq<Sector>, t: seq<DWord>, g: Geometry, start: nat, at: nat, e: Entry, s: LfnState)
    requires Sound(g) && Laid(g)
  {
    (ItemAt(view, t, g, start, at) == Some(e) && e[0] == END_MARK && s.length == 0) || Ended(t, g, start, at)
  }

  /**
   * The long-name and deleted branches of Phat_NextDirItem's loop: the item
   * is absorbed into the name state, and unless that fails the cursor moves
   * on to the next item. `absorbed` is the status of the absorption.
   */
  method PassOver(vol: Volume, cur: DirCursor, state: LfnState, x: Entry)
    returns (st: PhatState, absorbed: PhatState, state2: LfnState, cur2: DirCursor)
    requires Ready(vol) && WellFormed(state)
    modifies vol, vol.cache.Repr
    ensures Ready(vol) && vol.Kept() && vol.View() == old(vol.View()) && vol.FsInfoKept()
    ensures vol.isDirty == old(vol.isDirty) && vol.Table() == old(vol.Table())
    ensures (absorbed, state2) == Absorb(state, x)
    ensures absorbed != OK ==> st == absorbed && cur2 == cur
    ensures st in {OK, EndOfDirectory, InvalidParameter, FATError, NotEnoughSpace, ReadFail, WriteFail, InternalError, FSError}
    ensures cur2.startCluster == cur.startCluster
    ensures st == OK ==> absorbed == OK && cur2.item == cur.item + 1 && cur.item + 1 < ITEM_LIMIT
    ensures st == OK && Positioned(old(vol.Table()), vol.geo, cur) ==> Positioned(vol.Table(), vol.geo, cur2)
    ensures Positioned(old(vol.Table()), vol.geo, cur) && st == EndOfDirectory ==>
      Ended(vol.Table(), vol.geo, cur.startCluster, cur.item + 1)
  {
    ghost var t := vol.Table();
    absorbed, state2 := Absorb(state, x).0, Absorb(state, x).1;
    cur2 := cur;
    if absorbed != OK {
      return absorbed, absorbed, state2, cur2;
    }
    st, cur2 := MoveNext(vol, cur, false);
    vol.TableKept();
  }

  /**
   * What one pass of Phat_NextDirItem's loop did, from cursor `cur` and name
   * state `state`: a long-name or deleted item passed over (`passed`) is
   * absorbed into the name state, and unless the pass is `done` the cursor is
   * at the next item; a reported short entry comes with its name (Finish) and
   * the cursor past it; EndOfDirectory comes from the end mark or from the
   * directory having no further item.
   */
  ghost predicate Stepped(view: seq<Sector>, t: seq<DWord>, g: Geometry, cur: DirCursor, state: LfnState,
                          done: bool, st: PhatState, cur2: DirCursor, state2: LfnState, x: Entry, passed: bool)
    requires Sound(g) && Laid(g) && WellFormed(state)
  {
    var start := cur.startCluster;
    cur2.startCluster == start && WellFormed(state2) &&
    (passed ==> Skipped(x) && state2 == Absorb(state, x).1) &&
    (passed && Positioned(t, g, cur) ==> ItemAt(view, t, g, start, cur.item) == Some(x)) &&
    (!done ==> passed && st == OK && Absorb(state, x).0 == OK && cur2.item == cur.item + 1 < ITEM_LIMIT) &&
    (!done && Positioned(t, g, cur) ==> Positioned(t, g, cur2)) &&
    (done && st == OK ==> !passed && Listed(x) && state2 == Finish(state, x)) &&
    (done && st == OK ==> cur2.item == if cur.item + 1 < ITEM_LIMIT then cur.item + 1 else cur.item) &&
    (done && st == OK && Positioned(t, g, cur) ==> ItemAt(view, t, g, start, cur.item) == Some(x) && Positioned(t, g, cur2)) &&
    (done && st == EndOfDirectory && Positioned(t, g, cur) ==>
       EndSeen(view, t, g, start, cur.item + (if passed then 1 else 0), x, state2))
  }

  /** A pass that stops on a failed read, or where the directory has no item at the cursor. */
  lemma SteppedStopped(view: seq<Sector>, t: seq<DWord>, g: Geometry, cur: DirCursor, state: LfnState,
                       st: PhatState, cur2: DirCursor, x: Entry)
    requires Sound(g) && Laid(g) && WellFormed(state)
    requires cur2.startCluster == cur.startCluster && st != OK
    requires Positioned(t, g, cur) && st == EndOfDirectory ==> ItemPlace(t, g, cur.startCluster, cur.item).None?
    ensures Stepped(view, t, g, cur, state, true, st, cur2, state, x, false)
  {
  }

  /** A pass over a long-name or deleted item. */
  lemma SteppedPassed(view: seq<Sector>, t: seq<DWord>, g: Geometry, cur: DirCursor, at: DirCursor, state: LfnState,
                      st: PhatState, absorbed: PhatState, cur2: DirCursor, state2: LfnState, x: Entry)
    requires Sound(g) && Laid(g) && WellFormed(state)
    requires at.startCluster == cur.startCluster && at.item == cur.item
    requires Skipped(x) && (absorbed, state2) == Absorb(state, x)
    requires Positioned(t, g, cur) ==> Positioned(t, g, at) && ItemAt(view, t, g, cur.startCluster, cur.item) == Some(x)
    requires absorbed != OK ==> st == absorbed
    requires cur2.startCluster == at.startCluster
    requires st == OK ==> absorbed == OK && cur2.item == at.item + 1 && at.item + 1 < ITEM_LIMIT
    requires st == OK && Positioned(t, g, at) ==> Positioned(t, g, cur2)
    requires Positioned(t, g, at) && st == EndOfDirectory ==> Ended(t, g, at.startCluster, at.item + 1)
    ensures Stepped(view, t, g, cur, state, st != OK, st, cur2, state2, x, true)
  {
  }

  /** A pass that meets the end mark. */
  lemma SteppedEnded(view: seq<Sector>, t: seq<DWord>, g: Geometry, cur: DirCursor, state: LfnState, cur2: DirCursor, x: Entry)
    requires Sound(g) && Laid(g) && WellFormed(state)
    requires !Skipped(x) && x[0] == END_MARK && cur2.startCluster == cur.startCluster
    requires Positioned(t, g, cur) ==> ItemAt(view, t, g, cur.startCluster, cur.item) == Some(x)
    ensures Stepped(view, t, g, cur, state, true, EndOfDirectory, cur2, state.(length := 0), x, false)
  {
  }

  /** A pass that meets a short entry and reports it. */
  lemma SteppedReported(view: seq<Sector>, t: seq<DWord>, g: Geometry, cur: DirCursor, state: LfnState, cur2: DirCursor, x: Entry)
    requires Sound(g) && Laid(g) && WellFormed(state)
    requires Listed(x) && cur2.startCluster == cur.startCluster
    requires cur2.item == if cur.item + 1 < ITEM_LIMIT then cur.item + 1 else cur.item
    requires Positioned(t, g, cur) ==> ItemAt(view, t, g, cur.startCluster, cur.item) == Some(x) && Positioned(t, g, cur2)
    ensures Stepped(view, t, g, cur, state, true, OK, cur2, Finish(state, x), x, false)
  {
  }

  /**
   * One pass of Phat_NextDirItem's loop: the cursor's item is read; a
   * long-name or deleted item is passed over and the cursor moved on, the
   * end mark ends the enumeration, and a short entry is reported with its
   * name and the cursor moved past it whatever that move reports.
   */
  method Advance(vol: Volume, cur: DirCursor, state: LfnState)
    returns (done: bool, st: PhatState, cur2: DirCursor, state2: LfnState, x: Entry, ghost passed: bool)
    requires Ready(vol) && WellFormed(state)
    modifies vol, vol.cache.Repr
    ensures Ready(vol) && vol.Kept() && vol.View() == old(vol.View()) && vol.FsInfoKept()
    ensures vol.isDirty == old(vol.isDirty) && vol.Table() == old(vol.Table())
    ensures st in {OK, EndOfDirectory, InvalidParameter, FATError, NotEnoughSpace, ReadFail, WriteFail, InternalError, FSError}
    ensures Stepped(vol.View(), vol.Table(), vol.geo, cur, state, done, st, cur2, state2, x, passed)
  {
    done, passed, state2 := true, false, state;
    var at;
    st, at, x := GetDirItem(vol, cur);
    cur2 := at;
    if st != OK {
      SteppedStopped(vol.View(), vol.Table(), vol.geo, cur, state, st, cur2, x);
      return;
    }
    done, st, cur2, state2, passed := Dispatch(vol, cur, at, state, x);
  }

  /**
   * The branches of one pass of Phat_NextDirItem's loop once item x has
   * been read at `at`, the cursor `cur` brought to the item's cluster.
   */
  method Dispatch(vol: Volume, cur: DirCursor, at: DirCursor, state: LfnState, x: Entry)
    returns (done: bool, st: PhatState, cur2: DirCursor, state2: LfnState, ghost passed: bool)
    requires Ready(vol) && WellFormed(state)
    requires at.startCluster == cur.startCluster && at.item == cur.item
    requires Positioned(vol.Table(), vol.geo, cur) ==>
      Positioned(vol.Table(), vol.geo, at) && ItemAt(vol.View(), vol.Table(), vol.geo, cur.startCluster, cur.item) == Some(x)
    modifies vol, vol.cache.Repr
    ensures Ready(vol) && vol.Kept() && vol.View() == old(vol.View()) && vol.FsInfoKept()
    ensures vol.isDirty == old(vol.isDirty) && vol.Table() == old(vol.Table())
    ensures st in {OK, EndOfDirectory, InvalidParameter, FATError, NotEnoughSpace, ReadFail, WriteFail, InternalError, FSError}
    ensures Stepped(vol.View(), vol.Table(), vol.geo, cur, state, done, st, cur2, state2, x, passed)
  {
    ghost var view, t := vol.View(), vol.Table();
    done, passed, state2, cur2 := true, false, state, at;
    if Skipped(x) {
      passed := true;
      done, st, cur2, state2 := Pass(vol, cur, at, state, x);
    } else if x[0] == END_MARK {
      st, state2 := EndOfDirectory, state.(length := 0);
      SteppedEnded(view, t, vol.geo, cur, state, cur2, x);
    } else {
      st, state2 := OK, Finish(state, x);
      cur2 := Report(vol, cur, at, state, x);
    }
  }

  /** A long-name or deleted item is passed over and, unless its absorption fails, the cursor moved on. */
  method Pass(vol: Volume, cur: DirCursor, at: DirCursor, state: LfnState, x: Entry)
    returns (done: bool, st: PhatState, cur2: DirCursor, state2: LfnState)
    requires Ready(vol) && WellFormed(state) && Skipped(x)
    requires at.startCluster == cur.startCluster && at.item == cur.item
    requires Positioned(vol.Table(), vol.geo, cur) ==>
      Positioned(vol.Table(), vol.geo, at) && ItemAt(vol.View(), vol.Table(), vol.geo, cur.startCluster, cur.item) == Some(x)
    modifies vol, vol.cache.Repr
    ensures Ready(vol) && vol.Kept() && vol.View() == old(vol.View()) && vol.FsInfoKept()
    ensures vol.isDirty == old(vol.isDirty) && vol.Table() == old(vol.Table())
    ensures st in {OK, EndOfDirectory, InvalidParameter, FATError, NotEnoughSpace, ReadFail, WriteFail, InternalError, FSError}
    ensures Stepped(vol.View(), vol.Table(), vol.geo, cur, state, done, st, cur2, state2, x, true)
  {
    ghost var view, t := vol.View(), vol.Table();
    var absorbed;
    st, absorbed, state2, cur2 := PassOver(vol, at, state, x);
    done := st != OK;
    SteppedPassed(view, t, vol.geo, cur, at, state, st, absorbed, cur2, state2, x);
  }

  /** A short entry is reported and the cursor moved past it, whatever that move reports. */
  method Report(vol: Volume, cur: DirCursor, at: DirCursor, state: LfnState, x: Entry) returns (cur2: DirCursor)
    requires Ready(vol) && WellFormed(state) && Listed(x)
    requires at.startCluster == cur.startCluster && at.item == cur.item
    requires Positioned(vol.Table(), vol.geo, cur) ==>
      Positioned(vol.Table(), vol.geo, at) && ItemAt(vol.View(), vol.Table(), vol.geo, cur.startCluster, cur.item) == Some(x)
    modifies vol, vol.cache.Repr
    ensures Ready(vol) && vol.Kept() && vol.View() == old(vol.View()) && vol.FsInfoKept()
    ensures vol.isDirty == old(vol.isDirty) && vol.Table() == old(vol.Table())
    ensures Stepped(vol.View(), vol.Table(), vol.geo, cur, state, true, OK, cur2, Finish(state, x), x, false)
  {
    ghost var view, t := vol.View(), vol.Table();
    var ignored;
    ignored, cur2 := MoveNext(vol, at, false);
    vol.TableKept();
    SteppedReported(view, t, vol.geo, cur, state, cur2, x);
  }

  /** What Phat_NextDirItem's loop keeps: the run passed over so far from d, and the name state it left. */
  ghost predicate Trail(view: seq<Sector>, t: seq<DWord>, g: Geometry, d: DirCursor, s: LfnState, tracked: bool,
                        run: seq<Entry>, state: LfnState, cur: DirCursor)
    requires Sound(g) && Laid(g) && WellFormed(s)
  {
    cur.startCluster == d.startCluster && cur.item == d.item + |run| && WellFormed(state) &&
    Scan(Fresh(s.buffer, s.checksum), run) == (OK, state) &&
    (tracked ==> Positioned(t, g, cur) && RunAt(view, t, g, d.startCluster, d.item, run))
  }

  /** What Phat_NextDirItem reports after passing over run from d. */
  ghost predicate Outcome(view: seq<Sector>, t: seq<DWord>, g: Geometry, d: DirCursor, s: LfnState,
                          st: PhatState, d2: DirCursor, s2: LfnState, e: Entry, run: seq<Entry>)
    requires Sound(g) && Laid(g) && WellFormed(s)
  {
    RunAt(view, t, g, d.startCluster, d.item, run) &&
    (st == OK ==> Found(view, t, g, d, s, d2, s2, e, run)) &&
    (st == EndOfDirectory ==> EndSeen(view, t, g, d.startCluster, d.item + |run|, e, s2))
  }

  /** The short entry right after the run is listed, with the name the run gathered; the cursor moves past it. */
  ghost predicate Found(view: seq<Sector>, t: seq<DWord>, g: Geometry, d: DirCursor, s: LfnState,
                        d2: DirCursor, s2: LfnState, e: Entry, run: seq<Entry>)
    requires Sound(g) && Laid(g) && WellFormed(s)
  {
    var at := d.item + |run|;
    ItemAt(view, t, g, d.startCluster, at) == Some(e) && Listed(e) &&
    Scan(Fresh(s.buffer, s.checksum), run).0 == OK && s2 == Finish(Scan(Fresh(s.buffer, s.checksum), run).1, e) &&
    d2.item == (if at + 1 < ITEM_LIMIT then at + 1 else at) && Positioned(t, g, d2)
  }

  /** One pass of the loop keeps the trail, or ends it with the outcome Phat_NextDirItem reports. */
  lemma TrailStep(view: seq<Sector>, t: seq<DWord>, g: Geometry, d: DirCursor, s: LfnState, tracked: bool,
                  run: seq<Entry>, state: LfnState, cur: DirCursor,
                  done: bool, st: PhatState, cur2: DirCursor, state2: LfnState, x: Entry, passed: bool)
    requires Sound(g) && Laid(g) && WellFormed(s) && WellFormed(state)
    requires tracked == Positioned(t, g, d)
    requires Trail(view, t, g, d, s, tracked, run, state, cur)
    requires Stepped(view, t, g, cur, state, done, st, cur2, state2, x, passed)
    ensures var run2 := if passed then run + [x] else run;
      (!done ==> Trail(view, t, g, d, s, tracked, run2, state2, cur2)) &&
      (done && tracked ==> Outcome(view, t, g, d, s, st, cur2, state2, x, run2))
  {
    if passed {
      TrailPassed(view, t, g, d, s, tracked, run, state, cur, done, st, cur2, state2, x);
    } else if done && tracked {
      TrailReported(view, t, g, d, s, run, state, cur, st, cur2, state2, x);
    }
  }

  /** An item passed over extends the run and the scan by one. */
  lemma TrailPassed(view: seq<Sector>, t: seq<DWord>, g: Geometry, d: DirCursor, s: LfnState, tracked: bool,
                    run: seq<Entry>, state: LfnState, cur: DirCursor,
                    done: bool, st: PhatState, cur2: DirCursor, state2: LfnState, x: Entry)
    requires Sound(g) && Laid(g) && WellFormed(s) && WellFormed(state)
    requires tracked == Positioned(t, g, d)
    requires Trail(view, t, g, d, s, tracked, run, state, cur)
    requires Stepped(view, t, g, cur, state, done, st, cur2, state2, x, true)
    ensures !done ==> Trail(view, t, g, d, s, tracked, run + [x], state2, cur2)
    ensures done && tracked ==> Outcome(view, t, g, d, s, st, cur2, state2, x, run + [x])
  {
    if !done {
      TrailExtended(view, t, g, d, s, tracked, run, state, cur, cur2, state2, x);
    } else if tracked {
      PassedLast(view, t, g, d, s, run, cur, st, cur2, state2, x);
    }
  }

  /** A pass over x that goes on extends the run, the scan and, on a tracked cursor, the chain position by x. */
  lemma TrailExtended(view: seq<Sector>, t: seq<DWord>, g: Geometry, d: DirCursor, s: LfnState, tracked: bool,
                      run: seq<Entry>, state: LfnState, cur: DirCursor, cur2: DirCursor, state2: LfnState, x: Entry)
    requires Sound(g) && Laid(g) && WellFormed(s) && WellFormed(state) && WellFormed(state2)
    requires cur.startCluster == d.startCluster && cur.item == d.item + |run|
    requires cur2.startCluster == cur.startCluster && cur2.item == cur.item + 1
    requires Scan(Fresh(s.buffer, s.checksum), run) == (OK, state) && Absorb(state, x) == (OK, state2)
    requires tracked ==> Positioned(t, g, cur2) && RunAt(view, t, g, d.startCluster, d.item, run)
    requires tracked ==> ItemAt(view, t, g, cur.startCluster, cur.item) == Some(x) && Skipped(x)
    ensures Trail(view, t, g, d, s, tracked, run + [x], state2, cur2)
  {
    ScanSnoc(Fresh(s.buffer, s.checksum), run, x);
    if tracked {
      RunAtSnoc(view, t, g, d.startCluster, d.item, run, x);
    }
  }

  /** A pass over x that ends the enumeration with an error or at the directory's end. */
  lemma PassedLast(view: seq<Sector>, t: seq<DWord>, g: Geometry, d: DirCursor, s: LfnState,
                   run: seq<Entry>, cur: DirCursor, st: PhatState, cur2: DirCursor, state2: LfnState, x: Entry)
    requires Sound(g) && Laid(g) && WellFormed(s)
    requires cur.startCluster == d.startCluster && cur.item == d.item + |run|
    requires RunAt(view, t, g, d.startCluster, d.item, run)
    requires ItemAt(view, t, g, cur.startCluster, cur.item) == Some(x) && Skipped(x)
    requires st != OK
    requires st == EndOfDirectory ==> EndSeen(view, t, g, cur.startCluster, cur.item + 1, x, state2)
    ensures Outcome(view, t, g, d, s, st, cur2, state2, x, run + [x])
  {
    RunAtSnoc(view, t, g, d.startCluster, d.item, run, x);
    if st == EndOfDirectory {
      EndedAt(view, t, g, d, s, run + [x], cur.startCluster, cur.item + 1, cur2, state2, x);
    } else {
      FailedAt(view, t, g, d, s, run + [x], st, cur2, state2, x);
    }
  }

  lemma FailedAt(view: seq<Sector>, t: seq<DWord>, g: Geometry, d: DirCursor, s: LfnState,
                 run: seq<Entry>, st: PhatState, cur2: DirCursor, state2: LfnState, x: Entry)
    requires Sound(g) && Laid(g) && WellFormed(s)
    requires RunAt(view, t, g, d.startCluster, d.item, run) && st != OK && st != EndOfDirectory
    ensures Outcome(view, t, g, d, s, st, cur2, state2, x, run)
  {
  }

  /** A short entry met right after the run is reported with the name the run gathered. */
  lemma TrailReported(view: seq<Sector>, t: seq<DWord>, g: Geometry, d: DirCursor, s: LfnState,
                      run: seq<Entry>, state: LfnState, cur: DirCursor,
                      st: PhatState, cur2: DirCursor, state2: LfnState, x: Entry)
    requires Sound(g) && Laid(g) && WellFormed(s) && WellFormed(state)
    requires Positioned(t, g, d)
    requires Trail(view, t, g, d, s, true, run, state, cur)
    requires Stepped(view, t, g, cur, state, true, st, cur2, state2, x, false)
    ensures Outcome(view, t, g, d, s, st, cur2, state2, x, run)
  {
    if st == OK {
      ReportedAt(view, t, g, d, s, run, state, cur, cur2, state2, x);
    } else if st == EndOfDirectory {
      EndedAt(view, t, g, d, s, run, cur.startCluster, cur.item, cur2, state2, x);
    } else {
      FailedAt(view, t, g, d, s, run, st, cur2, state2, x);
    }
  }

  lemma ReportedAt(view: seq<Sector>, t: seq<DWord>, g: Geometry, d: DirCursor, s: LfnState,
                   run: seq<Entry>, state: LfnState, cur: DirCursor, cur2: DirCursor, state2: LfnState, x: Entry)
    requires Sound(g) && Laid(g) && WellFormed(s) && WellFormed(state)
    requires cur.startCluster == d.startCluster && cur.item == d.item + |run|
    requires RunAt(view, t, g, d.startCluster, d.item, run)
    requires Scan(Fresh(s.buffer, s.checksum), run) == (OK, state)
    requires ItemAt(view, t, g, cur.startCluster, cur.item) == Some(x) && Listed(x) && state2 == Finish(state, x)
    requires cur2.item == (if cur.item + 1 < ITEM_LIMIT then cur.item + 1 else cur.item) && Positioned(t, g, cur2)
    ensures Outcome(view, t, g, d, s, OK, cur2, state2, x, run)
  {
  }

  lemma EndedAt(view: seq<Sector>, t: seq<DWord>, g: Geometry, d: DirCursor, s: LfnState,
                run: seq<Entry>, start: nat, at: nat, cur2: DirCursor, state2: LfnState, x: Entry)
    requires Sound(g) && Laid(g) && WellFormed(s)
    requires start == d.startCluster && at == d.item + |run|
    requires RunAt(view, t, g, d.startCluster, d.item, run)
    requires EndSeen(view, t, g, start, at, x, state2)
    ensures Outcome(view, t, g, d, s, EndOfDirectory, cur2, state2, x, run)
  {
  }

  /**
   * Phat_NextDirItem: from the cursor's item on, long-name and deleted
   * entries are passed over until a short entry is met, which is reported
   * with the name gathered before it (Finish) and the cursor moved past it
   * whatever that move reports; the end mark ends the directory. `run` is
   * the items passed over; on a cursor that tracks its chain they are the
   * directory's items from the cursor's index on.
   */
  method NextDirItem(vol: Volume, d: DirCursor, s: LfnState)
    returns (st: PhatState, d2: DirCursor, s2: LfnState, e: Entry, ghost run: seq<Entry>)
    requires Ready(vol) && WellFormed(s)
    modifies vol, vol.cache.Repr
    ensures Ready(vol) && vol.Kept() && vol.View() == old(vol.View()) && vol.FsInfoKept()
    ensures vol.isDirty == old(vol.isDirty) && vol.Table() == old(vol.Table())
    ensures d2.startCluster == d.startCluster && WellFormed(s2)
    ensures st in {OK, EndOfDirectory, InvalidParameter, FATError, NotEnoughSpace, ReadFail, WriteFail, InternalError, FSError}
    ensures st == OK ==> d.item <= d2.item && (d2.item == d.item ==> d.item + 1 >= ITEM_LIMIT)
    ensures st == OK && d.item < ITEM_LIMIT ==> d2.item < ITEM_LIMIT
    ensures Positioned(old(vol.Table()), vol.geo, d) ==> Outcome(vol.View(), vol.Table(), vol.geo, d, s, st, d2, s2, e, run)
  {
    ghost var view, t, g := vol.View(), vol.Table(), vol.geo;
    ghost var tracked := Positioned(t, g, d);
    var state := Fresh(s.buffer, s.checksum);
    var cur := d;
    run := [];
    while true
      invariant Ready(vol) && vol.Kept() && vol.View() == view && vol.Table() == t && vol.geo == g
      invariant vol.FsInfoKept() && vol.isDirty == old(vol.isDirty) && WellFormed(state)
      invariant Trail(view, t, g, d, s, tracked, run, state, cur)
      invariant d.item < ITEM_LIMIT ==> cur.item < ITEM_LIMIT
      decreases if cur.item < ITEM_LIMIT then ITEM_LIMIT - cur.item else 0
    {
      var done, x, state2, cur2;
      ghost var passed;
      done, st, cur2, state2, x, passed := Advance(vol, cur, state);
      TrailStep(view, t, g, d, s, tracked, run, state, cur, done, st, cur2, state2, x, passed);
      if passed {
        run := run + [x];
      }
      if done {
        return st, cur2, state2, x, run;
      }
      state, cur := state2, cur2;
    }
  }

  // ---------------------------------------------------------------------
  // Phat_FindFirstLFNEntry.

  /** A long-name entry of the run that belongs to a short entry with checksum `sum`. */
  predicate Piece(x: Entry, sum: Byte)
  {
    IsValidLfnEntry(x) && x[13] == sum
  }

  /** The piece that opens a run: the ordinal carries the 0x40 flag. */
  predicate Opens(x: Entry)
  {
    x[0] & 0x40 != 0
  }

  /** An item that ends the search backwards: not a long-name entry, or a deleted one. */
  predicate Boundary(x: Entry)
  {
    x[11] != ATTRIB_LFN || x[0] == DELETED_MARK
  }

  /** Items lo .. hi-1 of the directory are pieces with checksum `sum`, none of them opening the run. */
  ghost predicate Pieces(view: seq<Sector>, t: seq<DWord>, g: Geometry, start: nat, lo: nat, hi: nat, sum: Byte)
    requires Sound(g) && Laid(g)
    decreases if lo < hi then hi - lo else 0
  {
    lo >= hi ||
    (ItemAt(view, t, g, start, lo).Some? && Piece(ItemAt(view, t, g, start, lo).value, sum) &&
     !Opens(ItemAt(view, t, g, start, lo).value) && Pieces(view, t, g, start, lo + 1, hi, sum))
  }

  /**
   * Item `first` starts the long-name run of the short entry at `last`:
   * either it is the opening piece and the pieces after it lead up to the
   * short entry, or the pieces from it up to the short entry follow an
   * item that is no piece, or the start of the directory.
   */
  ghost predicate RunStart(view: seq<Sector>, t: seq<DWord>, g: Geometry, start: nat, first: nat, last: nat, sum: Byte)
    requires Sound(g) && Laid(g)
  {
    first <= last &&
    ((first < last && ItemAt(view, t, g, start, first).Some? && Piece(ItemAt(view, t, g, start, first).value, sum) &&
      Opens(ItemAt(view, t, g, start, first).value) && Pieces(view, t, g, start, first + 1, last, sum)) ||
     (Pieces(view, t, g, start, first, last, sum) &&
      (first == 0 || (ItemAt(view, t, g, start, first - 1).Some? && Boundary(ItemAt(view, t, g, start, first - 1).value)))))
  }

  /**
   * What one step backwards of Phat_FindFirstLFNEntry's loop did from the
   * cursor `cur` (not at item 0): a further piece (`!done`); the item before
   * is no piece, and the cursor stays; the opening piece; a malformed piece
   * (FSError); or a failed read.
   */
  ghost predicate SteppedBack(view: seq<Sector>, t: seq<DWord>, g: Geometry, cur: DirCursor, sum: Byte,
                              done: bool, st: PhatState, cur2: DirCursor, x: Entry)
    requires Sound(g) && Laid(g) && cur.item > 0
  {
    var start, prev := cur.startCluster, cur.item - 1;
    cur2.startCluster == start &&
    (!done ==> st == OK && cur2.item == prev && Piece(x, sum) && !Opens(x)) &&
    (done && st == OK ==> (cur2.item == cur.item && Boundary(x)) || (cur2.item == prev && Piece(x, sum) && Opens(x))) &&
    (done && st == FSError ==> cur2.item == prev && !Boundary(x) && !Piece(x, sum)) &&
    (Positioned(t, g, cur) && (st == OK || st == FSError) ==>
      Positioned(t, g, cur2) && ItemAt(view, t, g, start, prev) == Some(x))
  }

  /** One step of Phat_FindFirstLFNEntry's loop: the item before the cursor is read and classified. */
  method StepBack(vol: Volume, cur: DirCursor, sum: Byte) returns (done: bool, st: PhatState, cur2: DirCursor, ghost x: Entry)
    requires Ready(vol) && cur.item > 0
    modifies vol, vol.cache.Repr
    ensures Ready(vol) && vol.Kept() && vol.View() == old(vol.View()) && vol.FsInfoKept()
    ensures vol.isDirty == old(vol.isDirty) && vol.Table() == old(vol.Table())
    ensures st in {OK, EndOfDirectory, InvalidParameter, FATError, NotEnoughSpace, ReadFail, WriteFail, InternalError, FSError}
    ensures SteppedBack(vol.View(), vol.Table(), vol.geo, cur, sum, done, st, cur2, x)
  {
    var e, at;
    ghost var prev := cur.(item := cur.item - 1);
    st, at, e := GetDirItem(vol, cur.(item := cur.item - 1));
    x, done, cur2 := e, true, at;
    if st != OK {
      return;
    }
    ghost var view, t := vol.View(), vol.Table();
    if e[11] != ATTRIB_LFN || e[0] == DELETED_MARK {
      cur2 := at.(item := at.item + 1);
    } else if e[13] != sum || !IsValidLfnEntry(e) {
      st := FSError;
    } else {
      done := e[0] & 0x40 != 0;
    }
    BackClassified(view, t, vol.geo, cur, prev, at, sum, done, st, cur2, e);
  }

  /** How StepBack classifies the item it read at `at`, one before the cursor. */
  lemma BackClassified(view: seq<Sector>, t: seq<DWord>, g: Geometry, cur: DirCursor, prev: DirCursor, at: DirCursor,
                       sum: Byte, done: bool, st: PhatState, cur2: DirCursor, x: Entry)
    requires Sound(g) && Laid(g) && cur.item > 0 && prev == cur.(item := cur.item - 1)
    requires at.startCluster == prev.startCluster && at.item == prev.item
    requires Positioned(t, g, prev) ==> Positioned(t, g, at) && ItemAt(view, t, g, prev.startCluster, prev.item) == Some(x)
    requires Boundary(x) ==> st == OK && done && cur2 == at.(item := at.item + 1)
    requires !Boundary(x) && !Piece(x, sum) ==> st == FSError && done && cur2 == at
    requires !Boundary(x) && Piece(x, sum) ==> st == OK && done == Opens(x) && cur2 == at
    ensures SteppedBack(view, t, g, cur, sum, done, st, cur2, x)
  {
  }

  /** A step backwards keeps the pieces between the cursor and the short entry, or ends at the run's start. */
  lemma BackStep(view: seq<Sector>, t: seq<DWord>, g: Geometry, cur: DirCursor, last: nat, sum: Byte,
                 done: bool, st: PhatState, cur2: DirCursor, x: Entry)
    requires Sound(g) && Laid(g) && cur.item > 0 && cur.item <= last
    requires Positioned(t, g, cur) && Pieces(view, t, g, cur.startCluster, cur.item, last, sum)
    requires SteppedBack(view, t, g, cur, sum, done, st, cur2, x)
    ensures !done ==> Positioned(t, g, cur2) && cur2.item < cur.item && Pieces(view, t, g, cur.startCluster, cur2.item, last, sum)
    ensures done && st == OK ==> Positioned(t, g, cur2) && RunStart(view, t, g, cur.startCluster, cur2.item, last, sum)
  {
  }

  /** The search backwards so far: the cursor is at or before the short entry at `at`, and pieces lie between. */
  ghost predicate BackTrail(view: seq<Sector>, t: seq<DWord>, g: Geometry, d: DirCursor, tracked: bool, at: nat, sum: Byte,
                            cur: DirCursor)
    requires Sound(g) && Laid(g)
  {
    cur.startCluster == d.startCluster && cur.item <= at &&
    (tracked ==> Positioned(t, g, cur) && Pieces(view, t, g, d.startCluster, cur.item, at, sum))
  }

  /**
   * What Phat_FindFirstLFNEntry reports from the cursor d: `read` says the
   * item at d was read, as `short`; it must be a listed short entry
   * (InvalidParameter otherwise), and on OK d2 is the first item of its run.
   */
  ghost predicate FirstFound(view: seq<Sector>, t: seq<DWord>, g: Geometry, d: DirCursor,
                             st: PhatState, d2: DirCursor, short: Entry, read: bool)
    requires Sound(g) && Laid(g)
  {
    d2.startCluster == d.startCluster &&
    (read && Positioned(t, g, d) ==> ItemAt(view, t, g, d.startCluster, d.item) == Some(short)) &&
    (read && !Listed(short) ==> st == InvalidParameter) &&
    (st == OK || st == FSError ==> read && Listed(short)) &&
    (st == OK ==> d2.item <= d.item) &&
    (st == OK && Positioned(t, g, d) ==>
      Positioned(t, g, d2) && RunStart(view, t, g, d.startCluster, d2.item, d.item, Checksum(Name83(short))))
  }

  /** The search stopped at item 0, or a step ended it: what is reported. */
  lemma BackDone(view: seq<Sector>, t: seq<DWord>, g: Geometry, d: DirCursor, tracked: bool, sum: Byte,
                 st: PhatState, cur: DirCursor, d2: DirCursor, short: Entry)
    requires Sound(g) && Laid(g) && tracked == Positioned(t, g, d)
    requires Listed(short) && sum == Checksum(Name83(short))
    requires tracked ==> ItemAt(view, t, g, d.startCluster, d.item) == Some(short)
    requires BackTrail(view, t, g, d, tracked, d.item, sum, cur)
    requires d2.startCluster == d.startCluster
    requires st == OK ==> d2.item <= cur.item
    requires cur.item == 0 && st == OK ==> d2 == cur
    requires cur.item > 0 && st == OK && tracked ==> Positioned(t, g, d2) && RunStart(view, t, g, d.startCluster, d2.item, d.item, sum)
    ensures FirstFound(view, t, g, d, st, d2, short, true)
  {
  }

  /**
   * Phat_FindFirstLFNEntry as evidently intended: from a cursor on a short
   * entry, step back over the long-name pieces that carry its checksum to
   * the first item of its run. The entry must be a listed short entry
   * (InvalidParameter otherwise); a piece whose checksum or form is wrong
   * is FSError. At item 0 the search stops: the run starts there.
   */
  method FindFirstLfn(vol: Volume, d: DirCursor) returns (st: PhatState, d2: DirCursor, short: Entry, ghost read: bool)
    requires Ready(vol)
    modifies vol, vol.cache.Repr
    ensures Ready(vol) && vol.Kept() && vol.View() == old(vol.View()) && vol.FsInfoKept()
    ensures vol.isDirty == old(vol.isDirty) && vol.Table() == old(vol.Table())
    ensures st in {OK, EndOfDirectory, InvalidParameter, FATError, NotEnoughSpace, ReadFail, WriteFail, InternalError, FSError}
    ensures FirstFound(vol.View(), vol.Table(), vol.geo, d, st, d2, short, read)
  {
    ghost var view, t, g := vol.View(), vol.Table(), vol.geo;
    ghost var tracked := Positioned(t, g, d);
    read := false;
    st, d2, short := GetDirItem(vol, d);
    if st != OK {
      return;
    }
    read := true;
    if !Listed(short) {
      return InvalidParameter, d2, short, read;
    }
    var sum := Checksum(Name83(short));
    d2 := d2.(item := d.item);
    while true
      invariant Ready(vol) && vol.Kept() && vol.View() == view && vol.Table() == t && vol.geo == g
      invariant vol.FsInfoKept() && vol.isDirty == old(vol.isDirty)
      invariant BackTrail(view, t, g, d, tracked, d.item, sum, d2)
      decreases d2.item
    {
      if d2.item == 0 {
        BackDone(view, t, g, d, tracked, sum, OK, d2, d2, short);
        return OK, d2, short, read;
      }
      var done;
      ghost var x;
      ghost var cur := d2;
      done, st, d2, x := StepBack(vol, d2, sum);
      if tracked {
        BackStep(view, t, g, cur, d.item, sum, done, st, d2, x);
      }
      if done {
        BackDone(view, t, g, d, tracked, sum, st, cur, d2, short);
        return;
      }
    }
  }

  /** The 32-bit `cur_diritem--` of Phat_FindFirstLFNEntry's loop, taken at every index. */
  function PrevItemAsWritten(i: nat): (r: nat)
    requires i < ITEM_LIMIT
    ensures r < ITEM_LIMIT
  {
    (i + 0xFFFF_FFFF) % ITEM_LIMIT
  }

  /** Away from item 0 the decrement is the previous item, as the corrected search steps. */
  lemma PrevItemAway(i: nat)
    requires 0 < i < ITEM_LIMIT
    ensures PrevItemAsWritten(i) == i - 1
  {
  }

  /**
   * On a short entry at item 0 of the FAT12/16 root area, the loop as
   * written steps to item 0xFFFFFFFF and reads it from sector 0x0FFFFFFF of
   * the root area, far past the root entries, instead of stopping.
   */
  lemma BackFromZeroAsWritten(t: seq<DWord>, g: Geometry)
    requires Sound(g) && Laid(g) && g.fatBits != 32 && g.rootEntryCount < 0x1_0000
    ensures PrevItemAsWritten(0) == 0xFFFF_FFFF >= g.rootEntryCount
    ensures ItemPlace(t, g, 0, PrevItemAsWritten(0)) == Some(Place(g.partitionStart + g.rootDirStart + 0x0FFF_FFFF, 15))
    ensures ItemPlace(t, g, 0, PrevItemAsWritten(0)).value.lba >= g.partitionStart + g.rootDirStart + g.rootEntryCount / 16 + 1
  {
    DivMod(0xFFFF_FFFF, 16);
  }
}
