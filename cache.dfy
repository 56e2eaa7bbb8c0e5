// The eight-sector write-back cache that sits between the FAT engine and the
// block device (Phat_SectorCache_t and the Phat_*CachedSector functions).
//
// Every operation is specified against View(): the disk as the engine sees
// it, i.e. the device's sectors with each valid cache slot laid over its LBA.

module SectorCache {
  import opened Common

  /** One cache entry: the sector bytes, the LBA they belong to, and the
      VALID and SYNC usage bits. */
  datatype Slot = Slot(data: Sector, lba: nat, valid: bool, sync: bool)

  predicate Holds(s: Slot, lba: nat)
  {
    s.valid && s.lba == lba
  }

  /** No two valid slots cache the same LBA. */
  predicate UniqueLbas(ss: seq<Slot>)
  {
    forall i, j :: 0 <= i < |ss| && 0 <= j < |ss| && i != j && ss[i].valid && ss[j].valid ==> ss[i].lba != ss[j].lba
  }

  /** The slots agree with the disk they cache: distinct LBAs, each on the
      disk, and a SYNC slot holds exactly the device's bytes. */
  predicate Coherent(disk: seq<Sector>, ss: seq<Slot>)
  {
    UniqueLbas(ss) &&
    forall i :: 0 <= i < |ss| && ss[i].valid ==>
      ss[i].lba < |disk| && (ss[i].sync ==> disk[ss[i].lba] == ss[i].data)
  }

  /** The bytes the engine sees at `lba`: the last valid slot holding it, or `d`. */
  function Lookup(ss: seq<Slot>, lba: nat, d: Sector): Sector
  {
    if |ss| == 0 then d
    else if Holds(ss[|ss| - 1], lba) then ss[|ss| - 1].data
    else Lookup(ss[..|ss| - 1], lba, d)
  }

  /** The disk with every valid slot laid over its sector. */
  function Overlay(disk: seq<Sector>, ss: seq<Slot>): (v: seq<Sector>)
    ensures |v| == |disk|
    ensures forall l :: 0 <= l < |disk| ==> v[l] == Lookup(ss, l, disk[l])
  {
    seq(|disk|, l requires 0 <= l < |disk| => Lookup(ss, l, disk[l]))
  }

  lemma {:induction false} LookupHit(ss: seq<Slot>, i: nat, lba: nat, d: Sector)
    requires UniqueLbas(ss) && i < |ss| && Holds(ss[i], lba)
    ensures Lookup(ss, lba, d) == ss[i].data
    decreases |ss|
  {
    var n := |ss| - 1;
    if i < n {
      assert !Holds(ss[n], lba);
      assert UniqueLbas(ss[..n]) by {
        forall a, b | 0 <= a < n && 0 <= b < n && a != b && ss[..n][a].valid && ss[..n][b].valid
          ensures ss[..n][a].lba != ss[..n][b].lba
        {
          assert ss[..n][a] == ss[a] && ss[..n][b] == ss[b];
        }
      }
      LookupHit(ss[..n], i, lba, d);
    }
  }

  lemma {:induction false} LookupMiss(ss: seq<Slot>, lba: nat, d: Sector)
    requires forall i :: 0 <= i < |ss| ==> !Holds(ss[i], lba)
    ensures Lookup(ss, lba, d) == d
    decreases |ss|
  {
    if |ss| > 0 {
      LookupMiss(ss[..|ss| - 1], lba, d);
    }
  }

  /** Two slot arrays that agree on which slots hold `lba`, and on their bytes,
      show the same sector there. */
  lemma {:induction false} LookupSameHolders(ss: seq<Slot>, tt: seq<Slot>, lba: nat, d: Sector)
    requires |ss| == |tt|
    requires forall i :: 0 <= i < |ss| ==> Holds(ss[i], lba) == Holds(tt[i], lba)
    requires forall i :: 0 <= i < |ss| && Holds(ss[i], lba) ==> ss[i].data == tt[i].data
    ensures Lookup(ss, lba, d) == Lookup(tt, lba, d)
    decreases |ss|
  {
    if |ss| > 0 {
      var n := |ss| - 1;
      LookupSameHolders(ss[..n], tt[..n], lba, d);
    }
  }

  /** With no valid slot the view is the disk itself. */
  lemma OverlayAllInvalid(disk: seq<Sector>, ss: seq<Slot>)
    requires forall i :: 0 <= i < |ss| ==> !ss[i].valid
    ensures Overlay(disk, ss) == disk
  {
    forall l | 0 <= l < |disk|
      ensures Overlay(disk, ss)[l] == disk[l]
    {
      LookupMiss(ss, l, disk[l]);
    }
  }

  /** Setting or clearing SYNC on a slot leaves the view alone. */
  lemma OverlayIgnoresSync(disk: seq<Sector>, ss: seq<Slot>, i: nat, b: bool)
    requires i < |ss|
    ensures Overlay(disk, ss[i := ss[i].(sync := b)]) == Overlay(disk, ss)
  {
    var tt := ss[i := ss[i].(sync := b)];
    forall l | 0 <= l < |disk|
      ensures Overlay(disk, tt)[l] == Overlay(disk, ss)[l]
    {
      LookupSameHolders(tt, ss, l, disk[l]);
    }
  }

  /** Writing a valid slot's bytes to the device under it leaves the view alone. */
  lemma OverlayWriteBack(disk: seq<Sector>, ss: seq<Slot>, i: nat)
    requires UniqueLbas(ss) && i < |ss| && ss[i].valid && ss[i].lba < |disk|
    ensures Overlay(disk[ss[i].lba := ss[i].data], ss) == Overlay(disk, ss)
  {
    var d2 := disk[ss[i].lba := ss[i].data];
    forall l | 0 <= l < |disk|
      ensures Overlay(d2, ss)[l] == Overlay(disk, ss)[l]
    {
      if l == ss[i].lba {
        LookupHit(ss, i, l, d2[l]);
        LookupHit(ss, i, l, disk[l]);
      }
    }
  }

  /** Clearing VALID on a slot whose bytes are already on the device leaves
      the view alone. */
  lemma OverlayDropClean(disk: seq<Sector>, ss: seq<Slot>, i: nat)
    requires UniqueLbas(ss) && i < |ss|
    requires ss[i].valid ==> ss[i].lba < |disk| && disk[ss[i].lba] == ss[i].data
    ensures Overlay(disk, ss[i := ss[i].(valid := false)]) == Overlay(disk, ss)
  {
    var tt := ss[i := ss[i].(valid := false)];
    forall l | 0 <= l < |disk|
      ensures Overlay(disk, tt)[l] == Overlay(disk, ss)[l]
    {
      if ss[i].valid && l == ss[i].lba {
        LookupHit(ss, i, l, disk[l]);
        forall j | 0 <= j < |tt|
          ensures !Holds(tt[j], l)
        {
          if j != i {
            assert tt[j] == ss[j];
          }
        }
        LookupMiss(tt, l, disk[l]);
      } else {
        LookupSameHolders(tt, ss, l, disk[l]);
      }
    }
  }

  /** Loading the device's sector into an unused slot, when no slot holds that
      LBA yet, leaves the view alone and keeps the LBAs distinct. */
  lemma OverlayFill(disk: seq<Sector>, ss: seq<Slot>, i: nat, lba: nat)
    requires Coherent(disk, ss) && i < |ss| && !ss[i].valid && lba < |disk|
    requires forall j :: 0 <= j < |ss| ==> !Holds(ss[j], lba)
    ensures Coherent(disk, ss[i := Slot(disk[lba], lba, true, true)])
    ensures Overlay(disk, ss[i := Slot(disk[lba], lba, true, true)]) == Overlay(disk, ss)
  {
    var tt := ss[i := Slot(disk[lba], lba, true, true)];
    forall a, b | 0 <= a < |tt| && 0 <= b < |tt| && a != b && tt[a].valid && tt[b].valid
      ensures tt[a].lba != tt[b].lba
    {
      if a != i && b != i {
        assert tt[a] == ss[a] && tt[b] == ss[b];
      } else if a == i {
        assert tt[b] == ss[b] && !Holds(ss[b], lba);
      } else {
        assert tt[a] == ss[a] && !Holds(ss[a], lba);
      }
    }
    forall l | 0 <= l < |disk|
      ensures Overlay(disk, tt)[l] == Overlay(disk, ss)[l]
    {
      if l == lba {
        LookupHit(tt, i, l, disk[l]);
        LookupMiss(ss, l, disk[l]);
      } else {
        LookupSameHolders(tt, ss, l, disk[l]);
      }
    }
  }

  /** Giving a valid slot new bytes changes exactly its own sector of the view. */
  lemma OverlayStore(disk: seq<Sector>, ss: seq<Slot>, i: nat, data: Sector)
    requires UniqueLbas(ss) && i < |ss| && ss[i].valid && ss[i].lba < |disk|
    ensures Overlay(disk, ss[i := ss[i].(data := data, sync := false)]) == Overlay(disk, ss)[ss[i].lba := data]
  {
    var tt := ss[i := ss[i].(data := data, sync := false)];
    assert UniqueLbas(tt) by {
      forall a, b | 0 <= a < |tt| && 0 <= b < |tt| && a != b && tt[a].valid && tt[b].valid
        ensures tt[a].lba != tt[b].lba
      {
        assert tt[a].lba == ss[a].lba && tt[b].lba == ss[b].lba;
        assert tt[a].valid == ss[a].valid && tt[b].valid == ss[b].valid;
      }
    }
    forall l | 0 <= l < |disk|
      ensures Overlay(disk, tt)[l] == Overlay(disk, ss)[ss[i].lba := data][l]
    {
      if l == ss[i].lba {
        LookupHit(tt, i, l, disk[l]);
      } else {
        LookupSameHolders(tt, ss, l, disk[l]);
      }
    }
  }

  /** Writing a valid slot back marks it SYNC and keeps the slots coherent. */
  lemma CoherentWriteBack(disk: seq<Sector>, ss: seq<Slot>, i: nat)
    requires Coherent(disk, ss) && i < |ss| && ss[i].valid
    ensures Coherent(disk[ss[i].lba := ss[i].data], ss[i := ss[i].(sync := true)])
  {
    var d2 := disk[ss[i].lba := ss[i].data];
    var tt := ss[i := ss[i].(sync := true)];
    forall j | 0 <= j < |tt| && tt[j].valid && tt[j].sync
      ensures d2[tt[j].lba] == tt[j].data
    {
      if j != i {
        assert tt[j] == ss[j] && ss[j].lba != ss[i].lba;
      }
    }
  }

  /** Replacing a slot by an unused one keeps the slots coherent. */
  lemma CoherentDrop(disk: seq<Sector>, ss: seq<Slot>, i: nat, s: Slot)
    requires Coherent(disk, ss) && i < |ss| && !s.valid
    ensures Coherent(disk, ss[i := s])
  {
    var tt := ss[i := s];
    forall j | 0 <= j < |tt| && j != i
      ensures tt[j] == ss[j]
    {
    }
  }

  /** Giving a valid slot new bytes without SYNC keeps the slots coherent. */
  lemma CoherentStore(disk: seq<Sector>, ss: seq<Slot>, i: nat, data: Sector)
    requires Coherent(disk, ss) && i < |ss| && ss[i].valid
    ensures Coherent(disk, ss[i := ss[i].(data := data, sync := false)])
  {
    var tt := ss[i := ss[i].(data := data, sync := false)];
    forall a | 0 <= a < |tt|
      ensures tt[a].lba == ss[a].lba && tt[a].valid == ss[a].valid
      ensures a != i ==> tt[a] == ss[a]
    {
    }
  }

  /** A one-sector device write is a sequence update. */
  lemma SpliceOne(disk: seq<Sector>, lba: nat, s: Sector)
    requires lba < |disk|
    ensures disk[..lba] + [s] + disk[lba + 1..] == disk[lba := s]
  {
  }

  /** A multi-sector device write changes exactly the sectors it covers. */
  lemma Splice(disk: seq<Sector>, lba: nat, data: seq<Sector>)
    requires lba + |data| <= |disk|
    ensures var d1 := disk[..lba] + data + disk[lba + |data|..];
      |d1| == |disk| && d1[lba..lba + |data|] == data &&
      (forall l :: lba <= l < lba + |data| ==> d1[l] == data[l - lba]) &&
      (forall l :: 0 <= l < |disk| && !(lba <= l < lba + |data|) ==> d1[l] == disk[l])
  {
  }

  /** A slot after the uncached transfers: if it holds an LBA of [lo, hi) it
      takes the device's bytes for it and becomes SYNC. */
  function Refresh(s: Slot, disk: seq<Sector>, lo: nat, hi: nat): Slot
  {
    if s.valid && lo <= s.lba < hi && s.lba < |disk| then s.(data := disk[s.lba], sync := true) else s
  }

  function RefreshAll(ss: seq<Slot>, disk: seq<Sector>, lo: nat, hi: nat): (r: seq<Slot>)
    ensures |r| == |ss|
    ensures forall j :: 0 <= j < |ss| ==> r[j] == Refresh(ss[j], disk, lo, hi)
  {
    seq(|ss|, j requires 0 <= j < |ss| => Refresh(ss[j], disk, lo, hi))
  }

  /** After the device range [lo, hi) is (re)written and the slots in it are
      refreshed from the device, the view is the old view with the device's
      sectors in that range. */
  lemma OverlayRefresh(disk0: seq<Sector>, disk1: seq<Sector>, ss: seq<Slot>, lo: nat, hi: nat)
    requires |disk0| == |disk1| && lo <= hi <= |disk1| && UniqueLbas(ss)
    requires forall l :: 0 <= l < |disk1| && !(lo <= l < hi) ==> disk0[l] == disk1[l]
    ensures Overlay(disk1, RefreshAll(ss, disk1, lo, hi)) == Overlay(disk0, ss)[..lo] + disk1[lo..hi] + Overlay(disk0, ss)[hi..]
  {
    var tt := RefreshAll(ss, disk1, lo, hi);
    var v := Overlay(disk0, ss);
    assert UniqueLbas(tt) by {
      forall a, b | 0 <= a < |tt| && 0 <= b < |tt| && a != b && tt[a].valid && tt[b].valid
        ensures tt[a].lba != tt[b].lba
      {
        assert tt[a].lba == ss[a].lba && tt[b].lba == ss[b].lba;
      }
    }
    forall l | 0 <= l < |disk1|
      ensures Overlay(disk1, tt)[l] == (v[..lo] + disk1[lo..hi] + v[hi..])[l]
    {
      if lo <= l < hi {
        if j :| 0 <= j < |tt| && Holds(tt[j], l) {
          LookupHit(tt, j, l, disk1[l]);
        } else {
          LookupMiss(tt, l, disk1[l]);
        }
      } else {
        LookupSameHolders(tt, ss, l, disk1[l]);
      }
    }
  }

  /** Refreshing from the device keeps the slots coherent with it. */
  lemma CoherentRefresh(disk0: seq<Sector>, disk1: seq<Sector>, ss: seq<Slot>, lo: nat, hi: nat)
    requires Coherent(disk0, ss) && |disk0| == |disk1|
    requires forall l :: 0 <= l < |disk1| && !(lo <= l < hi) ==> disk0[l] == disk1[l]
    ensures Coherent(disk1, RefreshAll(ss, disk1, lo, hi))
  {
    var tt := RefreshAll(ss, disk1, lo, hi);
    forall a, b | 0 <= a < |tt| && 0 <= b < |tt| && a != b && tt[a].valid && tt[b].valid
      ensures tt[a].lba != tt[b].lba
    {
      assert tt[a].lba == ss[a].lba && tt[b].lba == ss[b].lba;
    }
  }

  /** Finding: a valid slot whose bytes differ from the device's (a cached
      write not yet written back) is overwritten by the as-written uncached
      read, so the view loses that write. */
  lemma AsWrittenReloadDiscardsDirtySlot(disk: seq<Sector>, ss: seq<Slot>, i: nat, lo: nat, hi: nat)
    requires UniqueLbas(ss) && i < |ss| && ss[i].valid && lo <= ss[i].lba < hi <= |disk|
    requires ss[i].data != disk[ss[i].lba]
    ensures Overlay(disk, RefreshAll(ss, disk, lo, hi)) != Overlay(disk, ss)
  {
    var l := ss[i].lba;
    var tt := RefreshAll(ss, disk, lo, hi);
    LookupHit(ss, i, l, disk[l]);
    assert UniqueLbas(tt) by {
      forall a, b | 0 <= a < |tt| && 0 <= b < |tt| && a != b && tt[a].valid && tt[b].valid
        ensures tt[a].lba != tt[b].lba
      {
        assert tt[a].lba == ss[a].lba && tt[b].lba == ss[b].lba;
      }
    }
    LookupHit(tt, i, l, disk[l]);
    assert Overlay(disk, tt)[l] != Overlay(disk, ss)[l];
  }

  // ---------------------------------------------------------------------
  // The LRU list, kept as the sequence of slot numbers from head to tail.

  /** The list order the engine builds on first use: slot 0 at the head. */
  const ORDER0: seq<nat> := [0, 1, 2, 3, 4, 5, 6, 7]

  /** Every slot number appears exactly once. */
  predicate IsOrder(order: seq<nat>)
  {
    |order| == CACHED_SECTORS &&
    (forall m :: 0 <= m < |order| ==> order[m] < CACHED_SECTORS) &&
    (forall j :: 0 <= j < CACHED_SECTORS ==> j in order)
  }

  /** Phat_MoveCachedSectorHead: the entry at position k goes to the head,
      the others keep their relative order. */
  function MovedToHead(order: seq<nat>, k: nat): (r: seq<nat>)
    requires k < |order|
    ensures |r| == |order| && r[0] == order[k]
    ensures multiset(r) == multiset(order)
    ensures r[1..] == order[..k] + order[k + 1..]
    ensures IsOrder(order) ==> IsOrder(r)
  {
    assert order == order[..k] + [order[k]] + order[k + 1..];
    var r := [order[k]] + order[..k] + order[k + 1..];
    assert forall x :: x in order ==> x in r by {
      forall x | x in order
        ensures x in r
      {
        assert x in multiset(order);
      }
    }
    r
  }

  // ---------------------------------------------------------------------
  // The device and the cache.

  /** Whether n sectors from lba can be transferred on a disk of `size`
      sectors whose sectors in `faulty` fail. */
  predicate Transferable(size: nat, faulty: set<nat>, lba: nat, n: nat)
  {
    lba + n <= size && forall l :: lba <= l < lba + n ==> l !in faulty
  }

  /** Every valid slot is SYNC and its sector can be transferred: the state a
      flush leaves, kept by reads and by writes that are written back at once. */
  predicate SettledSlots(ss: seq<Slot>, size: nat, faulty: set<nat>)
  {
    forall j :: 0 <= j < |ss| && ss[j].valid ==> ss[j].sync && Transferable(size, faulty, ss[j].lba, 1)
  }

  /** Replacing one slot by an unused one, or by a SYNC one whose sector can be
      transferred, keeps the slots settled. */
  lemma SettledPut(ss: seq<Slot>, size: nat, faulty: set<nat>, i: nat, s: Slot)
    requires SettledSlots(ss, size, faulty) && i < |ss|
    requires s.valid ==> s.sync && Transferable(size, faulty, s.lba, 1)
    ensures SettledSlots(ss[i := s], size, faulty)
  {
  }

  /** Over settled slots the view is the device's disk. */
  lemma SettledView(disk: seq<Sector>, ss: seq<Slot>, faulty: set<nat>)
    requires Coherent(disk, ss) && SettledSlots(ss, |disk|, faulty)
    ensures Overlay(disk, ss) == disk
  {
    forall l | 0 <= l < |disk|
      ensures Overlay(disk, ss)[l] == disk[l]
    {
      if j :| 0 <= j < |ss| && Holds(ss[j], l) {
        LookupHit(ss, j, l, disk[l]);
      } else {
        LookupMiss(ss, l, disk[l]);
      }
    }
  }

  /** Whether a slot can be dropped: it is unused or clean, or the engine
      may write and the device accepts its sector. */
  predicate Evictable(s: Slot, writeEnable: bool, size: nat, faulty: set<nat>)
  {
    !s.valid || s.sync || (writeEnable && Transferable(size, faulty, s.lba, 1))
  }

  /** The driver's sector store (fn_read_sector / fn_write_sector). A transfer
      fails when it leaves the disk or touches a sector in `faulty`; a failed
      write leaves the disk as it was. */
  class Device {
    var disk: seq<Sector>
    var faulty: set<nat>

    constructor (disk0: seq<Sector>, faulty0: set<nat>)
      ensures disk == disk0 && faulty == faulty0
    {
      disk := disk0;
      faulty := faulty0;
    }

    predicate CanTransfer(lba: nat, n: nat)
      reads this
    {
      Transferable(|disk|, faulty, lba, n)
    }

    method Read(lba: nat, n: nat) returns (ok: bool, data: seq<Sector>)
      ensures ok == CanTransfer(lba, n)
      ensures ok ==> data == disk[lba..lba + n]
    {
      ok := CanTransfer(lba, n);
      data := if ok then disk[lba..lba + n] else [];
    }

    method Write(lba: nat, data: seq<Sector>) returns (ok: bool)
      modifies this
      ensures faulty == old(faulty)
      ensures ok == old(CanTransfer(lba, |data|))
      ensures disk == if ok then old(disk[..lba] + data + disk[lba + |data|..]) else old(disk)
    {
      ok := CanTransfer(lba, |data|);
      if ok {
        disk := disk[..lba] + data + disk[lba + |data|..];
      }
    }
  }

  class Cache {
    var slots: array<Slot>
    /** The LRU list from head (most recent) to tail. */
    var lru: seq<nat>
    /** False until the first cached read links the list (cache_LRU_head == NULL). */
    var initialized: bool
    var writeEnable: bool
    var dev: Device
    ghost var Repr: set<object>

    ghost predicate Valid()
      reads this, Repr
    {
      Repr == {this, slots, dev} &&
      slots.Length == CACHED_SECTORS &&
      IsOrder(lru) &&
      Coherent(dev.disk, slots[..]) &&
      (!initialized ==> forall i :: 0 <= i < slots.Length ==> !slots[i].valid)
    }

    /** The disk as the engine sees it. */
    ghost function View(): seq<Sector>
      reads this, slots, dev
    {
      Overlay(dev.disk, slots[..])
    }

    /** No slot holds a change the device lacks, and every cached sector can
        be written back. */
    ghost predicate Settled()
      reads this, slots, dev
    {
      SettledSlots(slots[..], |dev.disk|, dev.faulty)
    }

    ghost predicate Cached(lba: nat)
      reads this, slots
    {
      exists j :: 0 <= j < slots.Length && Holds(slots[j], lba)
    }

    /** Whether slot j can be dropped: it is unused or clean, or the engine
        may write and the device accepts its sector. */
    ghost predicate CanEvict(j: nat)
      requires j < slots.Length
      reads this, slots, dev
    {
      Evictable(slots[j], writeEnable, |dev.disk|, dev.faulty)
    }

    /** The cache of a freshly mounted volume: no slot valid, list not built. */
    constructor (d: Device, writable: bool)
      ensures Valid() && fresh(slots) && dev == d && writeEnable == writable && !initialized
      ensures View() == d.disk
    {
      slots := new Slot[CACHED_SECTORS](_ => Slot(ZeroSector(), 0, false, false));
      lru := ORDER0;
      initialized := false;
      writeEnable := writable;
      dev := d;
      Repr := {this, slots, d};
      new;
      OverlayAllInvalid(d.disk, slots[..]);
    }

    /** Phat_Mount's `phat->write_enable = write_enable`. */
    method SetWriteEnable(w: bool)
      requires Valid()
      modifies this
      ensures Valid() && Repr == old(Repr) && View() == old(View())
      ensures writeEnable == w
      ensures slots == old(slots) && dev == old(dev) && lru == old(lru) && initialized == old(initialized)
    {
      writeEnable := w;
    }

    /** Phat_MoveCachedSectorHead for the entry at list position k. */
    method MoveToHead(k: nat)
      requires Valid() && k < CACHED_SECTORS
      modifies this
      ensures Valid() && Repr == old(Repr) && View() == old(View())
      ensures lru == MovedToHead(old(lru), k)
      ensures slots == old(slots) && dev == old(dev)
      ensures initialized == old(initialized) && writeEnable == old(writeEnable)
    {
      lru := MovedToHead(lru, k);
    }

    /** Phat_WriteBackCachedSector: a slot not in SYNC is written to the device. */
    method WriteBack(i: nat) returns (st: PhatState)
      requires Valid() && i < CACHED_SECTORS && slots[i].valid
      modifies slots, dev
      ensures Valid() && View() == old(View()) && dev.faulty == old(dev.faulty)
      ensures st == OK || st == WriteFail
      ensures st == OK <==> old(slots[i].sync) || old(dev.CanTransfer(slots[i].lba, 1))
      ensures st == OK ==> slots[..] == old(slots[..])[i := old(slots[i]).(sync := true)]
      ensures st == OK ==> dev.disk == old(dev.disk)[old(slots[i].lba) := old(slots[i].data)]
      ensures st != OK ==> slots[..] == old(slots[..]) && dev.disk == old(dev.disk)
    {
      var s := slots[i];
      ghost var ss := slots[..];
      if !s.sync {
        var ok := dev.Write(s.lba, [s.data]);
        if !ok {
          return WriteFail;
        }
        SpliceOne(old(dev.disk), s.lba, s.data);
        OverlayWriteBack(old(dev.disk), ss, i);
        OverlayIgnoresSync(dev.disk, ss, i, true);
        CoherentWriteBack(old(dev.disk), ss, i);
        slots[i] := s.(sync := true);
        assert slots[..] == ss[i := s.(sync := true)];
      } else {
        assert old(dev.disk)[s.lba := s.data] == old(dev.disk);
      }
      return OK;
    }

    /** Phat_InvalidateCachedSector: a dirty slot is written back first (which
        needs write access), then the slot is marked unused. */
    method Invalidate(i: nat) returns (st: PhatState)
      requires Valid() && i < CACHED_SECTORS
      modifies slots, dev
      ensures Valid() && View() == old(View()) && dev.faulty == old(dev.faulty)
      ensures st == OK <==> old(CanEvict(i))
      ensures st != OK ==> st == (if writeEnable then WriteFail else InternalError)
      ensures st != OK ==> slots[..] == old(slots[..]) && dev.disk == old(dev.disk)
      ensures st == OK ==> slots[..] == old(slots[..])[i := old(slots[i]).(valid := false, sync := old(slots[i].sync || slots[i].valid))]
      ensures st == OK ==> dev.disk == if old(slots[i].valid) then old(dev.disk)[old(slots[i].lba) := old(slots[i].data)] else old(dev.disk)
    {
      var s := slots[i];
      if s.valid && !s.sync {
        if !writeEnable {
          return InternalError;
        }
        st := WriteBack(i);
        if st != OK {
          return;
        }
      } else if s.valid {
        assert old(dev.disk)[s.lba := s.data] == old(dev.disk);
      }
      OverlayDropClean(dev.disk, slots[..], i);
      slots[i] := slots[i].(valid := false);
      return OK;
    }

    /** The scan of Phat_ReadSectorThroughCache: walks the list from the head
        and stops at the first slot that holds `lba` (CACHED_SECTORS if none). */
    method Find(lba: nat) returns (k: nat)
      requires Valid()
      ensures k <= CACHED_SECTORS
      ensures k < CACHED_SECTORS ==> Holds(slots[lru[k]], lba)
      ensures k == CACHED_SECTORS <==> !Cached(lba)
    {
      k := 0;
      while k < CACHED_SECTORS
        invariant 0 <= k <= CACHED_SECTORS
        invariant forall m :: 0 <= m < k ==> !Holds(slots[lru[m]], lba)
      {
        var s := slots[lru[k]];
        if s.lba == lba && s.valid {
          return;
        }
        k := k + 1;
      }
      forall j | 0 <= j < CACHED_SECTORS
        ensures !Holds(slots[j], lba)
      {
        assert j in lru;
      }
    }

    /** The miss path after the victim slot i was invalidated: the device's
        sector is read into it and it becomes valid and SYNC. */
    method Load(i: nat, lba: nat) returns (st: PhatState)
      requires Valid() && initialized && i < CACHED_SECTORS && !slots[i].valid && !Cached(lba)
      modifies slots
      ensures Valid() && View() == old(View())
      ensures st == OK || st == ReadFail
      ensures st == OK <==> dev.CanTransfer(lba, 1)
      ensures st == OK ==> lba < |dev.disk| && slots[..] == old(slots[..])[i := Slot(dev.disk[lba], lba, true, true)]
      ensures st == OK ==> Holds(slots[i], lba) && slots[i].data == View()[lba]
      ensures st != OK ==> slots[..] == old(slots[..])
    {
      var ok, data := dev.Read(lba, 1);
      if !ok {
        return ReadFail;
      }
      ghost var ss := slots[..];
      OverlayFill(dev.disk, ss, i, lba);
      slots[i] := Slot(data[0], lba, true, true);
      assert slots[..] == ss[i := Slot(dev.disk[lba], lba, true, true)];
      LookupHit(slots[..], i, lba, dev.disk[lba]);
      return OK;
    }

    /** Phat_ReadSectorThroughCache: returns the slot that holds `lba`, loading
        it into the list's tail slot on a miss; the slot becomes the head. */
    method ReadThroughCache(lba: nat) returns (st: PhatState, i: nat)
      requires Valid()
      modifies Repr
      ensures Valid() && Repr == old(Repr) && View() == old(View()) && dev.faulty == old(dev.faulty)
      ensures slots == old(slots) && dev == old(dev) && writeEnable == old(writeEnable) && initialized
      ensures st in {OK, ReadFail, WriteFail, InternalError}
      ensures st == InternalError ==> !writeEnable
      ensures st == OK ==> i < CACHED_SECTORS && Holds(slots[i], lba) && lru[0] == i
      ensures st == OK ==> slots[i].data == View()[lba]
      ensures st == OK && old(Settled()) ==> Settled()
      // first use: the list is built and slot 0 receives the sector
      ensures !old(initialized) ==> i == 0 && lru == ORDER0 && dev.disk == old(dev.disk)
      ensures !old(initialized) ==> (st == OK <==> old(dev.CanTransfer(lba, 1)))
      // hit: nothing but the list order changes
      ensures old(initialized && Cached(lba)) ==>
        st == OK && slots[..] == old(slots[..]) && dev.disk == old(dev.disk) &&
        exists k :: 0 <= k < CACHED_SECTORS && old(lru)[k] == i && lru == MovedToHead(old(lru), k)
      // miss: the tail slot is evicted, refilled and moved to the head
      ensures old(initialized && !Cached(lba)) ==> i == old(lru[CACHED_SECTORS - 1])
      ensures old(initialized && !Cached(lba)) ==>
        (st == OK <==> old(CanEvict(lru[CACHED_SECTORS - 1])) && old(dev.CanTransfer(lba, 1)))
      ensures old(initialized && !Cached(lba)) && st == OK ==>
        lru == MovedToHead(old(lru), CACHED_SECTORS - 1) &&
        dev.disk == (if old(slots[i].valid) then old(dev.disk)[old(slots[i].lba) := old(slots[i].data)] else old(dev.disk)) &&
        slots[..] == old(slots[..])[i := Slot(dev.disk[lba], lba, true, true)]
    {
      if !initialized {
        st, i := LoadFirst(lba);
        return;
      }
      var k := Find(lba);
      if k < CACHED_SECTORS {
        i := lru[k];
        LookupHit(slots[..], i, lba, dev.disk[lba]);
        MoveToHead(k);
        return OK, i;
      }
      st, i := Replace(lba);
    }

    /** The first cached read: the list is linked in array order and the
        sector is loaded into slot 0. */
    method LoadFirst(lba: nat) returns (st: PhatState, i: nat)
      requires Valid() && !initialized
      modifies this, slots
      ensures Valid() && Repr == old(Repr) && View() == old(View())
      ensures slots == old(slots) && dev == old(dev) && writeEnable == old(writeEnable) && initialized
      ensures i == 0 && lru == ORDER0
      ensures st == OK || st == ReadFail
      ensures st == OK <==> dev.CanTransfer(lba, 1)
      ensures st == OK ==> Holds(slots[0], lba) && slots[0].data == View()[lba]
      ensures st == OK ==> Settled()
    {
      ghost var ss := slots[..];
      lru := ORDER0;
      initialized := true;
      i := 0;
      st := Load(0, lba);
      if st == OK {
        SettledPut(ss, |dev.disk|, dev.faulty, 0, slots[0]);
      }
    }

    /** A miss: the tail slot of the list is invalidated, refilled from the
        device and moved to the head. */
    method Replace(lba: nat) returns (st: PhatState, i: nat)
      requires Valid() && initialized && !Cached(lba)
      modifies Repr
      ensures Valid() && Repr == old(Repr) && View() == old(View()) && dev.faulty == old(dev.faulty)
      ensures slots == old(slots) && dev == old(dev) && writeEnable == old(writeEnable) && initialized
      ensures i == old(lru[CACHED_SECTORS - 1])
      ensures st in {OK, ReadFail, WriteFail, InternalError}
      ensures st == InternalError ==> !writeEnable
      ensures st == OK <==> old(CanEvict(lru[CACHED_SECTORS - 1])) && old(dev.CanTransfer(lba, 1))
      ensures st == OK ==> i < CACHED_SECTORS && Holds(slots[i], lba) && lru[0] == i
      ensures st == OK ==> slots[i].data == View()[lba]
      ensures st == OK ==>
        lru == MovedToHead(old(lru), CACHED_SECTORS - 1) &&
        dev.disk == (if old(slots[i].valid) then old(dev.disk)[old(slots[i].lba) := old(slots[i].data)] else old(dev.disk)) &&
        slots[..] == old(slots[..])[i := Slot(dev.disk[lba], lba, true, true)]
      ensures st == OK && old(Settled()) ==> Settled()
    {
      i := lru[CACHED_SECTORS - 1];
      st := Invalidate(i);
      if st != OK {
        return;
      }
      assert !Cached(lba);
      ghost var ss := slots[..];
      st := Load(i, lba);
      if st != OK {
        return;
      }
      if old(Settled()) {
        SettledPut(old(slots[..]), |dev.disk|, dev.faulty, i, ss[i]);
        SettledPut(ss, |dev.disk|, dev.faulty, i, slots[i]);
        assert slots[..] == ss[i := slots[i]];
      }
      MoveToHead(CACHED_SECTORS - 1);
    }

    /** The caller's memcpy into a cached sector followed by
        Phat_SetCachedSectorModified: new bytes, SYNC cleared. */
    method Store(i: nat, data: Sector)
      requires Valid() && i < CACHED_SECTORS && slots[i].valid
      modifies slots
      ensures Valid() && View() == old(View())[old(slots[i].lba) := data]
      ensures slots[..] == old(slots[..])[i := old(slots[i]).(data := data, sync := false)]
    {
      OverlayStore(dev.disk, slots[..], i, data);
      slots[i] := slots[i].(data := data, sync := false);
    }

    /** Phat_WriteSectorThroughCache: bring the sector into the cache and
        replace its bytes there; the device is written later. */
    method WriteThroughCache(lba: nat, data: Sector) returns (st: PhatState)
      requires Valid()
      modifies Repr
      ensures Valid() && Repr == old(Repr) && dev.faulty == old(dev.faulty)
      ensures slots == old(slots) && dev == old(dev) && writeEnable == old(writeEnable)
      ensures st in {OK, ReadFail, WriteFail, InternalError}
      ensures old(initialized && Cached(lba)) ==> st == OK
      ensures st == OK ==> lba < |old(View())| && View() == old(View())[lba := data]
      ensures st != OK ==> View() == old(View())
    {
      var i;
      st, i := ReadThroughCache(lba);
      if st != OK {
        return;
      }
      Store(i, data);
    }

    /** The bytes of sector lba as the engine sees them, read through the
        cache (Phat_ReadSectorThroughCache followed by reading the slot). */
    method ReadSector(lba: nat) returns (st: PhatState, data: Sector)
      requires Valid()
      modifies Repr
      ensures Valid() && Repr == old(Repr) && View() == old(View())
      ensures slots == old(slots) && dev == old(dev) && writeEnable == old(writeEnable)
      ensures |dev.disk| == old(|dev.disk|)
      ensures st in {OK, ReadFail, WriteFail, InternalError}
      ensures st == OK ==> lba < |View()| && data == View()[lba]
      ensures st == OK && old(Settled()) ==> Settled()
    {
      var i;
      data := ZeroSector();
      st, i := ReadThroughCache(lba);
      if st == OK {
        data := slots[i].data;
      }
    }

    /** A sector changed in its cache slot: Phat_ReadSectorThroughCache, the
        new bytes, Phat_SetCachedSectorModified, and when `flush` is set
        Phat_WriteBackCachedSector, whose result the callers ignore. */
    method WriteSector(lba: nat, data: Sector, flush: bool) returns (st: PhatState)
      requires Valid()
      modifies Repr
      ensures Valid() && Repr == old(Repr)
      ensures slots == old(slots) && dev == old(dev) && writeEnable == old(writeEnable)
      ensures |dev.disk| == old(|dev.disk|)
      ensures st in {OK, ReadFail, WriteFail, InternalError}
      ensures st == OK ==> lba < |old(View())| && View() == old(View())[lba := data]
      ensures st != OK ==> View() == old(View())
      ensures flush && st == OK && old(Settled()) ==> Settled()
    {
      var i;
      st, i := ReadThroughCache(lba);
      if st != OK {
        return;
      }
      ghost var ss := slots[..];
      ghost var settled := Settled();
      Store(i, data);
      if flush {
        var wrote := WriteBack(i);
        if settled {
          assert wrote == OK;
          SettledPut(ss, |dev.disk|, dev.faulty, i, ss[i].(data := data));
          assert slots[..] == ss[i := ss[i].(data := data)];
        }
      }
    }

    /** Two neighbouring sectors read through the cache, the first one first. */
    method ReadPair(lba: nat) returns (st: PhatState, d0: Sector, d1: Sector)
      requires Valid()
      modifies Repr
      ensures Valid() && Repr == old(Repr) && View() == old(View())
      ensures slots == old(slots) && dev == old(dev) && writeEnable == old(writeEnable)
      ensures |dev.disk| == old(|dev.disk|)
      ensures st in {OK, ReadFail, WriteFail, InternalError}
      ensures st == OK ==> lba + 1 < |View()| && d0 == View()[lba] && d1 == View()[lba + 1]
      ensures st == OK && old(Settled()) ==> Settled()
    {
      d1 := ZeroSector();
      st, d0 := ReadSector(lba);
      if st != OK {
        return;
      }
      st, d1 := ReadSector(lba + 1);
    }

    /** Two neighbouring sectors changed through the cache, the first one first;
        a failure on the second leaves the first one changed. */
    method WritePair(lba: nat, d0: Sector, d1: Sector, flush: bool) returns (st: PhatState)
      requires Valid()
      modifies Repr
      ensures Valid() && Repr == old(Repr)
      ensures slots == old(slots) && dev == old(dev) && writeEnable == old(writeEnable)
      ensures |dev.disk| == old(|dev.disk|)
      ensures st in {OK, ReadFail, WriteFail, InternalError}
      ensures st == OK ==> lba + 1 < |old(View())| && View() == old(View())[lba := d0][lba + 1 := d1]
      ensures st != OK ==> View() == old(View()) || (lba < |old(View())| && View() == old(View())[lba := d0])
      ensures flush && st == OK && old(Settled()) ==> Settled()
    {
      st := WriteSector(lba, d0, flush);
      if st != OK {
        return;
      }
      st := WriteSector(lba + 1, d1, flush);
    }

    /** Phat_FlushCache: invalidates the slots in array order, stopping at the
        first failure. */
    method Flush() returns (st: PhatState)
      requires Valid()
      modifies slots, dev
      ensures Valid() && View() == old(View()) && dev.faulty == old(dev.faulty)
      ensures st in {OK, WriteFail, InternalError}
      ensures (forall j :: 0 <= j < CACHED_SECTORS ==> old(CanEvict(j))) ==> st == OK
      ensures st == OK ==> dev.disk == old(View())
      ensures st == OK ==> forall j :: 0 <= j < CACHED_SECTORS ==> !slots[j].valid
    {
      st := OK;
      ghost var ss := slots[..];
      ghost var size := |dev.disk|;
      ghost var all := forall j :: 0 <= j < CACHED_SECTORS ==> CanEvict(j);
      assert forall j :: 0 <= j < CACHED_SECTORS ==> CanEvict(j) == Evictable(ss[j], writeEnable, size, dev.faulty);
      var k := 0;
      while k < CACHED_SECTORS
        invariant 0 <= k <= CACHED_SECTORS && st == OK
        invariant Valid() && View() == old(View()) && dev.faulty == old(dev.faulty)
        invariant |dev.disk| == size
        invariant forall j :: 0 <= j < k ==> !slots[j].valid
        invariant forall j :: k <= j < CACHED_SECTORS ==> slots[j] == ss[j]
        invariant all ==> forall j :: k <= j < CACHED_SECTORS ==> Evictable(ss[j], writeEnable, size, dev.faulty)
      {
        st := Invalidate(k);
        if st != OK {
          return;
        }
        k := k + 1;
      }
      OverlayAllInvalid(dev.disk, slots[..]);
    }

    /** The slot pass of the uncached transfers: every slot holding a sector
        of [lba, lba + |data|) takes its bytes from `data` and becomes SYNC. */
    method RefreshSlots(lba: nat, data: seq<Sector>)
      requires slots.Length == CACHED_SECTORS && lba + |data| <= |dev.disk|
      requires dev.disk[lba..lba + |data|] == data
      modifies slots
      ensures slots[..] == RefreshAll(old(slots[..]), dev.disk, lba, lba + |data|)
    {
      ghost var ss := slots[..];
      assert forall l :: lba <= l < lba + |data| ==> dev.disk[l] == data[l - lba];
      for k := 0 to CACHED_SECTORS
        invariant forall j :: 0 <= j < k ==> slots[j] == Refresh(ss[j], dev.disk, lba, lba + |data|)
        invariant forall j :: k <= j < CACHED_SECTORS ==> slots[j] == ss[j]
      {
        var s := slots[k];
        if s.valid && lba <= s.lba < lba + |data| {
          slots[k] := s.(data := data[s.lba - lba], sync := true);
        }
      }
    }

    /** The slot pass after an uncached transfer that left the device at
        `dev.disk`, equal to `disk0` outside [lba, lba + |data|): the cache
        is usable again and the engine sees `data` there. */
    method RefreshAfter(lba: nat, data: seq<Sector>, ghost disk0: seq<Sector>)
      requires Repr == {this, slots, dev} && slots.Length == CACHED_SECTORS && IsOrder(lru)
      requires Coherent(disk0, slots[..]) && (!initialized ==> forall i :: 0 <= i < slots.Length ==> !slots[i].valid)
      requires |disk0| == |dev.disk| && lba + |data| <= |dev.disk| && dev.disk[lba..lba + |data|] == data
      requires forall l :: 0 <= l < |disk0| && !(lba <= l < lba + |data|) ==> disk0[l] == dev.disk[l]
      modifies slots
      ensures Valid()
      ensures View() == Overlay(disk0, old(slots[..]))[..lba] + data + Overlay(disk0, old(slots[..]))[lba + |data|..]
    {
      ghost var ss := slots[..];
      RefreshSlots(lba, data);
      OverlayRefresh(disk0, dev.disk, ss, lba, lba + |data|);
      CoherentRefresh(disk0, dev.disk, ss, lba, lba + |data|);
    }

    /** Phat_WriteSectorsWithoutCache: the sectors go straight to the device
        and any slot holding one of them takes the new bytes as SYNC. */
    method WriteSectorsWithoutCache(lba: nat, data: seq<Sector>) returns (st: PhatState)
      requires Valid()
      modifies slots, dev
      ensures Valid() && dev.faulty == old(dev.faulty) && |dev.disk| == old(|dev.disk|)
      ensures st == OK || st == WriteFail
      ensures st == OK <==> old(dev.CanTransfer(lba, |data|))
      ensures st == OK ==> dev.disk == old(dev.disk)[..lba] + data + old(dev.disk)[lba + |data|..]
      ensures st == OK ==> View() == old(View())[..lba] + data + old(View())[lba + |data|..]
      ensures st != OK ==> slots[..] == old(slots[..]) && dev.disk == old(dev.disk)
    {
      var ok := dev.Write(lba, data);
      if !ok {
        return WriteFail;
      }
      Splice(old(dev.disk), lba, data);
      RefreshAfter(lba, data, old(dev.disk));
      return OK;
    }

    /** Phat_ReadSectorsWithoutCache as written: the buffer gets the device's
        sectors, and any slot holding one of them is overwritten with the
        device's bytes and marked SYNC, even when it held a change not yet
        written back. */
    method ReadSectorsWithoutCacheAsWritten(lba: nat, n: nat) returns (st: PhatState, buf: seq<Sector>)
      requires Valid()
      modifies slots
      ensures Valid()
      ensures st == OK || st == ReadFail
      ensures st == OK <==> dev.CanTransfer(lba, n)
      ensures st == OK ==> buf == dev.disk[lba..lba + n]
      ensures st == OK ==> View() == old(View())[..lba] + dev.disk[lba..lba + n] + old(View())[lba + n..]
      ensures st != OK ==> slots[..] == old(slots[..])
    {
      var ok;
      ok, buf := dev.Read(lba, n);
      if !ok {
        return ReadFail, buf;
      }
      RefreshAfter(lba, buf, dev.disk);
      return OK, buf;
    }

    /** Phat_ReadSectorsWithoutCache, corrected: the buffer gets the sectors
        as the engine sees them, cached changes included, and nothing in the
        cache changes. */
    method ReadSectorsWithoutCache(lba: nat, n: nat) returns (st: PhatState, buf: seq<Sector>)
      requires Valid()
      ensures st == OK || st == ReadFail
      ensures st == OK <==> dev.CanTransfer(lba, n)
      ensures st == OK ==> buf == View()[lba..lba + n]
    {
      var ok;
      ok, buf := dev.Read(lba, n);
      if !ok {
        return ReadFail, buf;
      }
      for k := 0 to CACHED_SECTORS
        invariant |buf| == n
        invariant forall m :: 0 <= m < n ==> buf[m] == Lookup(slots[..k], lba + m, dev.disk[lba + m])
      {
        assert slots[..k + 1][..k] == slots[..k];
        var s := slots[k];
        if s.valid && lba <= s.lba < lba + n {
          buf := buf[s.lba - lba := s.data];
        }
      }
      assert slots[..CACHED_SECTORS] == slots[..];
      return OK, buf;
    }
  }
}
