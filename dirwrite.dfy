/**
 * Changing the items of a directory: deletion of an entry with its
 * long-name run by marking every item of the run deleted (the loop shared by
 * Phat_DeleteFile and Phat_RemoveDirectory).
 */
module DirWrites {
  import opened Common
  import opened Boot
  import opened FatImage
  import opened SectorCache
  import opened FatVolume
  import opened Directory
  import opened DirEntries
  import opened DirItems
  import opened LongNames

  // ---------------------------------------------------------------------
  // Marking items deleted.

  /** The disk after item i is read, its first byte set to 0xE5 and written back, when it has a place on the disk. */
  ghost function MarkStep(view: seq<Sector>, t: seq<DWord>, g: Geometry, start: nat, i: nat): (r: seq<Sector>)
    requires Sound(g) && Laid(g)
    ensures |r| == |view|
  {
    match ItemPlace(t, g, start, i)
    case None => view
    case Some(p) => if p.lba < |view| then PutAt(view, p, Deleted(ItemOf(view[p.lba], p.slot))) else view
  }

  /**
   * The disk after items lo .. hi-1 of `view` are marked deleted in turn,
   * each read from the disk as the marks before it left it.
   */
  ghost function Marked(view: seq<Sector>, t: seq<DWord>, g: Geometry, start: nat, lo: nat, hi: nat): (r: seq<Sector>)
    requires Sound(g) && Laid(g)
    ensures |r| == |view|
    decreases if lo < hi then hi - lo else 0
  {
    if hi <= lo then view else Marked(MarkStep(view, t, g, start, lo), t, g, start, lo + 1, hi)
  }

  /** `now` is `view` with items lo .. hi-1 marked. */
  ghost predicate MarkedTo(view: seq<Sector>, t: seq<DWord>, g: Geometry, start: nat, lo: nat, hi: nat, now: seq<Sector>)
    requires Sound(g) && Laid(g)
  {
    now == Marked(view, t, g, start, lo, hi)
  }

  /** The disk `next` is `now` with item i marked deleted. */
  ghost predicate MarkedOne(now: seq<Sector>, t: seq<DWord>, g: Geometry, start: nat, i: nat, next: seq<Sector>)
    requires Sound(g) && Laid(g)
  {
    next == MarkStep(now, t, g, start, i)
  }

  /** Marking one item more at the end of a run. */
  lemma {:induction false} MarkedToLast(view: seq<Sector>, t: seq<DWord>, g: Geometry, start: nat, lo: nat, hi: nat,
                                        now: seq<Sector>, next: seq<Sector>)
    requires Sound(g) && Laid(g) && lo <= hi && MarkedTo(view, t, g, start, lo, hi, now)
    requires MarkedOne(now, t, g, start, hi, next)
    ensures MarkedTo(view, t, g, start, lo, hi + 1, next)
    decreases hi - lo
  {
    if lo < hi {
      MarkedToLast(MarkStep(view, t, g, start, lo), t, g, start, lo + 1, hi, now, next);
    }
  }

  /** Place q is the place of one of the items lo .. hi-1. */
  ghost predicate PlaceOfRun(t: seq<DWord>, g: Geometry, start: nat, lo: nat, hi: nat, q: Place)
    requires Sound(g) && Laid(g)
    decreases if lo < hi then hi - lo else 0
  {
    lo < hi && (ItemPlace(t, g, start, lo) == Some(q) || PlaceOfRun(t, g, start, lo + 1, hi, q))
  }

  /** One mark: the item at the marked place reads back deleted, every other place as before. */
  lemma MarkStepReads(view: seq<Sector>, t: seq<DWord>, g: Geometry, start: nat, i: nat, q: Place)
    requires Sound(g) && Laid(g) && q.lba < |view| && q.slot < 16
    ensures ItemOf(MarkStep(view, t, g, start, i)[q.lba], q.slot) ==
      if ItemPlace(t, g, start, i) == Some(q) then Deleted(ItemOf(view[q.lba], q.slot)) else ItemOf(view[q.lba], q.slot)
  {
    match ItemPlace(t, g, start, i)
    case None =>
    case Some(p) =>
      if p.lba < |view| {
        PutAtReads(view, p, Deleted(ItemOf(view[p.lba], p.slot)), q);
      }
  }

  /**
   * After items lo .. hi-1 are marked, each place of one of them holds its
   * old item with the deleted mark in its first byte, and every other place
   * holds what it held: the 31 other bytes of a marked item are kept, even
   * where two indexes of a looping chain share a place.
   */
  lemma {:induction false} MarkedToReads(view: seq<Sector>, t: seq<DWord>, g: Geometry, start: nat, lo: nat, hi: nat,
                                         now: seq<Sector>, q: Place)
    requires Sound(g) && Laid(g) && q.lba < |view| && q.slot < 16 && MarkedTo(view, t, g, start, lo, hi, now)
    ensures |now| == |view|
    ensures ItemOf(now[q.lba], q.slot) ==
      if PlaceOfRun(t, g, start, lo, hi, q) then Deleted(ItemOf(view[q.lba], q.slot)) else ItemOf(view[q.lba], q.slot)
    decreases if lo < hi then hi - lo else 0
  {
    if lo < hi {
      var after := MarkStep(view, t, g, start, lo);
      MarkStepReads(view, t, g, start, lo, q);
      MarkedToReads(after, t, g, start, lo + 1, hi, now, q);
      var e := ItemOf(view[q.lba], q.slot);
      assert Deleted(Deleted(e)) == Deleted(e);
    }
  }

  /** One mark leaves the FAT as it was: directory items lie past the FAT copies. */
  lemma MarkStepKeepsTable(view: seq<Sector>, t: seq<DWord>, g: Geometry, start: nat, i: nat)
    requires Sound(g) && Laid(g) && OnDisk(g, |view|)
    ensures Fat(MarkStep(view, t, g, start, i), g) == Fat(view, g)
  {
    match ItemPlace(t, g, start, i)
    case None =>
    case Some(p) =>
      if p.lba < |view| {
        PutAtKeepsTable(view, g, p, Deleted(ItemOf(view[p.lba], p.slot)));
      }
  }

  /** Marking items leaves the FAT as it was. */
  lemma {:induction false} MarkedKeepsTable(view: seq<Sector>, t: seq<DWord>, g: Geometry, start: nat, lo: nat, hi: nat)
    requires Sound(g) && Laid(g) && OnDisk(g, |view|)
    ensures Fat(Marked(view, t, g, start, lo, hi), g) == Fat(view, g)
    decreases if lo < hi then hi - lo else 0
  {
    if lo < hi {
      MarkStepKeepsTable(view, t, g, start, lo);
      MarkedKeepsTable(MarkStep(view, t, g, start, lo), t, g, start, lo + 1, hi);
    }
  }

  /** Every item of the run that was on the disk reads back as itself with the deleted mark. */
  lemma MarkedItem(view: seq<Sector>, t: seq<DWord>, g: Geometry, start: nat, lo: nat, hi: nat, now: seq<Sector>,
                   k: nat, e: Entry)
    requires Sound(g) && Laid(g) && lo <= k < hi && MarkedTo(view, t, g, start, lo, hi, now)
    requires ItemAt(view, t, g, start, k) == Some(e)
    ensures ItemAt(now, t, g, start, k) == Some(Deleted(e))
  {
    var q := ItemPlace(t, g, start, k).value;
    PlacedInRun(t, g, start, lo, hi, k);
    MarkedToReads(view, t, g, start, lo, hi, now, q);
  }

  lemma {:induction false} PlacedInRun(t: seq<DWord>, g: Geometry, start: nat, lo: nat, hi: nat, k: nat)
    requires Sound(g) && Laid(g) && lo <= k < hi && ItemPlace(t, g, start, k).Some?
    ensures PlaceOfRun(t, g, start, lo, hi, ItemPlace(t, g, start, k).value)
    decreases hi - lo
  {
    if lo < k {
      PlacedInRun(t, g, start, lo + 1, hi, k);
    }
  }

  /** Phat_GetDirItem and Phat_PutDirItem on one item of the run, with the first byte set to 0xE5 in between. */
  method MarkOne(vol: Volume, cur: DirCursor) returns (st: PhatState, cur2: DirCursor)
    requires Ready(vol)
    modifies vol, vol.cache.Repr
    ensures Ready(vol) && vol.Kept() && vol.FsInfoKept()
    ensures vol.isDirty == old(vol.isDirty) && vol.Table() == old(vol.Table())
    ensures cur2.startCluster == cur.startCluster && cur2.item == cur.item
    ensures st in {OK, EndOfDirectory, InvalidParameter, FATError, NotEnoughSpace, ReadFail, WriteFail, InternalError}
    ensures st != OK ==> vol.View() == old(vol.View())
    ensures Positioned(old(vol.Table()), vol.geo, cur) && st == OK ==>
      Positioned(vol.Table(), vol.geo, cur2) && MarkedOne(old(vol.View()), vol.Table(), vol.geo, cur.startCluster, cur.item, vol.View())
  {
    var e;
    st, cur2, e := GetDirItem(vol, cur);
    if st != OK {
      return;
    }
    st, cur2 := PutDirItem(vol, cur2, Deleted(e));
  }

  /**
   * Where the deletion loop stands before marking item i: the cursor is in
   * the directory at `start`, i lies in first .. last + 1, and on a tracked
   * run the disk `now` has items first .. i-1 marked.
   */
  ghost predicate Marking(view: seq<Sector>, t: seq<DWord>, g: Geometry, start: nat, tracked: bool, first: nat, last: nat,
                          i: nat, st: PhatState, cur: DirCursor, now: seq<Sector>)
    requires Sound(g) && Laid(g)
  {
    && cur.startCluster == start
    && first <= i && i <= (if first <= last then last + 1 else first)
    && st in {OK, EndOfDirectory, InvalidParameter, FATError, NotEnoughSpace, ReadFail, WriteFail, InternalError}
    && (tracked && st == OK ==> Positioned(t, g, cur))
    && (tracked ==> MarkedTo(view, t, g, start, first, i, now))
  }

  /** One pass of the deletion loop: item i is marked, and on OK the loop moves to i + 1. */
  method MarkNext(vol: Volume, ghost view: seq<Sector>, ghost t: seq<DWord>, ghost g: Geometry, ghost start: nat,
                  ghost tracked: bool, ghost first: nat, ghost last: nat, i: nat, cur: DirCursor, ghost now: seq<Sector>)
    returns (st: PhatState, cur2: DirCursor, ghost next: seq<Sector>)
    requires Ready(vol) && vol.Table() == t && vol.geo == g && vol.View() == now
    requires i <= last && Marking(view, t, g, start, tracked, first, last, i, OK, cur, now)
    modifies vol, vol.cache.Repr
    ensures Ready(vol) && vol.Kept() && vol.FsInfoKept()
    ensures vol.isDirty == old(vol.isDirty) && vol.Table() == t && vol.View() == next
    ensures Marking(view, t, g, start, tracked, first, last, if st == OK then i + 1 else i, st, cur2, next)
  {
    st, cur2 := MarkOne(vol, cur.(item := i));
    next := vol.View();
    if st == OK && tracked {
      MarkedToLast(view, t, g, start, first, i, now, next);
    }
  }

  // ---------------------------------------------------------------------
  // Phat_DeleteFile after the lookup.

  /** The item at d is a listed short entry whose run starts at `first`. */
  ghost predicate Started(view: seq<Sector>, t: seq<DWord>, g: Geometry, d: DirCursor, first: nat, short: Entry)
    requires Sound(g) && Laid(g)
  {
    ItemAt(view, t, g, d.startCluster, d.item) == Some(short) && Listed(short) &&
    RunStart(view, t, g, d.startCluster, first, d.item, Checksum(Name83(short)))
  }

  /**
   * The items of the entry at d are marked: the run of the entry starts at
   * `first`, and `marked` is the disk with items first .. d.item marked
   * deleted.
   */
  ghost predicate Erased(view: seq<Sector>, t: seq<DWord>, g: Geometry, d: DirCursor, first: nat, short: Entry,
                         marked: seq<Sector>)
    requires Sound(g) && Laid(g)
  {
    Started(view, t, g, d, first, short) && MarkedTo(view, t, g, d.startCluster, first, d.item + 1, marked)
  }

  /** What Phat_FindFirstLFNEntry's report says about the run when it is OK. */
  lemma FoundRun(view: seq<Sector>, t: seq<DWord>, g: Geometry, d: DirCursor, st: PhatState, d2: DirCursor, short: Entry,
                 read: bool)
    requires Sound(g) && Laid(g)
    requires FirstFound(view, t, g, d, st, d2, short, read)
    ensures st == OK && Positioned(t, g, d) ==>
      Started(view, t, g, d, d2.item, short) && Positioned(t, g, d2) && d2.startCluster == d.startCluster
    ensures st == OK ==> d2.item <= d.item
  {
  }

  /** Phat_FindFirstLFNEntry seen from the deletion: on OK the run starts at d2's item, which is not after d's. */
  method FindRun(vol: Volume, d: DirCursor) returns (st: PhatState, d2: DirCursor, ghost short: Entry)
    requires Ready(vol)
    modifies vol, vol.cache.Repr
    ensures Ready(vol) && vol.Kept() && vol.View() == old(vol.View()) && vol.Table() == old(vol.Table())
    ensures st in {OK, EndOfDirectory, InvalidParameter, FATError, NotEnoughSpace, ReadFail, WriteFail, InternalError, FSError}
    ensures d2.startCluster == d.startCluster && (st == OK ==> d2.item <= d.item)
    ensures st == OK && Positioned(old(vol.Table()), vol.geo, d) ==>
      Started(old(vol.View()), old(vol.Table()), vol.geo, d, d2.item, short) && Positioned(vol.Table(), vol.geo, d2)
  {
    var e;
    ghost var read;
    st, d2, e, read := FindFirstLfn(vol, d);
    FoundRun(vol.View(), vol.Table(), vol.geo, d, st, d2, e, read);
    short := e;
  }

  /** When the deletion loop stops with OK, the whole run has been marked. */
  lemma ErasedAtEnd(view: seq<Sector>, t: seq<DWord>, g: Geometry, d: DirCursor, tracked: bool, first: nat, short: Entry,
                    i: nat, st: PhatState, cur: DirCursor, now: seq<Sector>)
    requires Sound(g) && Laid(g) && first <= d.item
    requires tracked ==> Started(view, t, g, d, first, short)
    requires Marking(view, t, g, d.startCluster, tracked, first, d.item, i, st, cur, now)
    requires !(i <= d.item && st == OK)
    ensures st == OK && tracked ==> Erased(view, t, g, d, first, short, now)
  {
  }

  /**
   * The run of the entry is found and each of its items, from the first
   * long-name item to the short entry, is read, marked deleted and written
   * back; the first failure stops the loop.
   */
  method EraseRun(vol: Volume, d: DirCursor) returns (st: PhatState, ghost first: nat, ghost short: Entry)
    requires Ready(vol)
    modifies vol, vol.cache.Repr
    ensures Ready(vol) && vol.Kept() && vol.Table() == old(vol.Table())
    ensures st in {OK, EndOfDirectory, InvalidParameter, FATError, NotEnoughSpace, ReadFail, WriteFail, InternalError, FSError}
    ensures st == OK && Positioned(old(vol.Table()), vol.geo, d) ==>
      Erased(old(vol.View()), old(vol.Table()), vol.geo, d, first, short, vol.View())
  {
    ghost var view, t, g := vol.View(), vol.Table(), vol.geo;
    var d2;
    st, d2, short := FindRun(vol, d);
    first := d2.item;
    if st != OK {
      return;
    }
    ghost var tracked := Positioned(t, g, d);
    ghost var now := view;
    var i := d2.item;
    while i <= d.item && st == OK
      invariant Ready(vol) && vol.Kept() && vol.geo == g
      invariant vol.Table() == t && vol.View() == now
      invariant tracked ==> Started(view, t, g, d, first, short)
      invariant Marking(view, t, g, d.startCluster, tracked, first, d.item, i, st, d2, now)
      decreases d.item + 1 - i, if st == OK then 1 else 0
    {
      st, d2, now := MarkNext(vol, view, t, g, d.startCluster, tracked, first, d.item, i, d2, now);
      i := if st == OK then i + 1 else i;
    }
    ErasedAtEnd(view, t, g, d, tracked, first, short, i, st, d2, now);
  }

  /**
   * Phat_DeleteFile from the point where Phat_FindItem has left the cursor
   * on the file's short entry and read its first cluster (firstCluster,
   * the cluster that entry names): the run of the entry is found
   * (Phat_FindFirstLFNEntry), each of its items is marked deleted, and the
   * file's chain is freed. `marked` is the disk between
   * the two halves; the second changes only the FAT copies. A first cluster
   * of 0 (an empty file) frees nothing, as Phat_UnlinkCluster is evidently
   * meant to.
   */
  method DeleteEntry(vol: Volume, d: DirCursor, firstCluster: nat)
    returns (st: PhatState, ghost first: nat, ghost short: Entry, ghost marked: seq<Sector>, ghost chain: seq<nat>)
    requires Ready(vol)
    requires Positioned(vol.Table(), vol.geo, d) ==>
      ItemAt(vol.View(), vol.Table(), vol.geo, d.startCluster, d.item).Some? &&
      firstCluster == FirstClusterOf(ItemAt(vol.View(), vol.Table(), vol.geo, d.startCluster, d.item).value) as nat
    modifies vol, vol.cache.Repr
    ensures Ready(vol) && vol.Kept()
    ensures st in {OK, EndOfDirectory, InvalidParameter, FATError, NotEnoughSpace, ReadFail, WriteFail, InternalError, FSError}
    ensures st == OK && Positioned(old(vol.Table()), vol.geo, d) ==>
      Erased(old(vol.View()), old(vol.Table()), vol.geo, d, first, short, marked) &&
      firstCluster == FirstClusterOf(short) as nat
    ensures st == OK ==> SameOutsideFat(marked, vol.View(), vol.geo)
    ensures st == OK && 2 <= firstCluster <= vol.geo.maxValid ==>
      chain != [] && chain[0] == firstCluster && Linked(old(vol.Table()), chain) &&
      vol.Table() == Freed(old(vol.Table()), chain)
    ensures st == OK && (firstCluster < 2 || firstCluster > vol.geo.maxValid) ==>
      vol.Table() == old(vol.Table()) && vol.View() == marked
  {
    ghost var t, g := vol.Table(), vol.geo;
    st, first, short := EraseRun(vol, d);
    marked, chain := vol.View(), [];
    if st != OK {
      return;
    }
    assert t == Fat(marked, g);
    st, chain := vol.UnlinkCluster(firstCluster);
    if st == OK && (firstCluster < 2 || firstCluster > g.maxValid) {
      assert vol.Table() == Fat(marked, g);
    }
  }
}
