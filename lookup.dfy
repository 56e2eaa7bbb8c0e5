/**
 * Looking a path up in the directory tree: Phat_ChDir, Phat_OpenDir and
 * Phat_FindItem cut the path into components and, for each, enumerate the
 * current directory with Phat_NextDirItem until an item reported under
 * that name is met; a directory met for a component that is not the last
 * becomes the directory the next component is looked up in.
 */
module Lookup {
  import opened Common
  import opened Boot
  import opened FatImage
  import opened SectorCache
  import opened FatVolume
  import opened Directory
  import opened DirEntries
  import opened DirItems
  import opened LongNames
  import opened Paths

  // ---------------------------------------------------------------------
  // How the lookup cuts a path.

  /**
   * The components of path from index i on, as the lookup cuts them: up to
   * the next separator; after a separator every further separator is
   * skipped. A path that starts with a separator or ends with one has an
   * empty component there.
   */
  function Components(path: seq<WChar>, i: nat): (segs: seq<seq<WChar>>)
    requires i <= |path|
    ensures |segs| >= 1
    decreases |path| - i
  {
    var j := SepFrom(path, i);
    if j == |path| then [path[i..]] else [path[i..j]] + Components(path, SkipSeps(path, j + 1))
  }

  /** The first component from i is path[i..SepFrom(path, i)]; there is another one iff a separator ends it. */
  lemma ComponentsHead(path: seq<WChar>, i: nat)
    requires i <= |path|
    ensures Components(path, i)[0] == path[i..SepFrom(path, i)]
    ensures |Components(path, i)| == 1 <==> SepFrom(path, i) == |path|
  {
  }

  /** Passing a component and the separators after it. */
  lemma ComponentsNext(path: seq<WChar>, i: nat)
    requires i <= |path| && SepFrom(path, i) < |path|
    ensures Components(path, i) == [path[i..SepFrom(path, i)]] + Components(path, SkipSeps(path, SepFrom(path, i) + 1))
  {
  }

  /** No component contains a separator. */
  lemma {:induction false} ComponentsNoSep(path: seq<WChar>, i: nat, k: nat)
    requires i <= |path| && k < |Components(path, i)|
    ensures NoSep(Components(path, i)[k])
    decreases |path| - i
  {
    var j := SepFrom(path, i);
    if j < |path| && k > 0 {
      ComponentsNoSep(path, SkipSeps(path, j + 1), k - 1);
    }
  }

  lemma {:induction false} SepFromIs(s: seq<WChar>, i: nat, j: nat)
    requires i <= j <= |s|
    requires forall k :: i <= k < j ==> !IsSep(s[k])
    requires j == |s| || IsSep(s[j])
    ensures SepFrom(s, i) == j
    decreases j - i
  {
    if i < j {
      SepFromIs(s, i + 1, j);
    }
  }

  /** A separator-free piece followed by a separator or the end: SepFrom stops right after it. */
  lemma SepAfterPiece(x: seq<WChar>, head: seq<WChar>, tail: seq<WChar>)
    requires NoSep(head)
    requires tail == [] || IsSep(tail[0])
    ensures var s := x + head + tail;
      SepFrom(s, |x|) == |x| + |head| && s[|x|..|x| + |head|] == head
  {
    var s := x + head + tail;
    PieceInside(x, head, tail);
    SepFromIs(s, |x|, |x| + |head|);
  }

  /** Where head lies in x + head + tail, and what follows it. */
  lemma PieceInside(x: seq<WChar>, head: seq<WChar>, tail: seq<WChar>)
    requires NoSep(head)
    requires tail == [] || IsSep(tail[0])
    ensures var s := x + head + tail;
      |s| == |x| + |head| + |tail| && s[|x|..|x| + |head|] == head &&
      (forall k :: |x| <= k < |x| + |head| ==> !IsSep(s[k])) &&
      (|x| + |head| == |s| || IsSep(s[|x| + |head|]))
  {
    var s := x + head + tail;
    forall k | |x| <= k < |x| + |head|
      ensures !IsSep(s[k])
    {
      assert s[k] == head[k - |x|];
    }
    if tail != [] {
      assert s[|x| + |head|] == tail[0];
    }
    assert s[|x|..|x| + |head|] == head;
  }

  /** Joined pieces start with the first piece's first unit. */
  lemma JoinStart(segs: seq<seq<WChar>>)
    requires segs != [] && segs[0] != []
    ensures Join(segs) != [] && Join(segs)[0] == segs[0][0]
  {
  }

  /** A piece ending at a separator, then components from right after that separator. */
  lemma PieceThenRest(s: seq<WChar>, i: nat, head: seq<WChar>, rest: seq<seq<WChar>>)
    requires i + |head| < |s| && SepFrom(s, i) == i + |head| && s[i..i + |head|] == head
    requires SkipSeps(s, i + |head| + 1) == i + |head| + 1
    requires Components(s, i + |head| + 1) == rest
    ensures Components(s, i) == [head] + rest
  {
    ComponentsNext(s, i);
  }

  /** One piece, alone: it is the only component. */
  lemma LastPiece(x: seq<WChar>, head: seq<WChar>)
    requires NoSep(head)
    ensures Components(x + head, |x|) == [head]
  {
    var s := x + head;
    assert s == x + head + [];
    SepAfterPiece(x, head, []);
    ComponentsHead(s, |x|);
    assert s[|x|..] == head;
  }

  /** A piece, a '/', then pieces the components after the '/' read back. */
  lemma PieceBeforeJoin(x: seq<WChar>, head: seq<WChar>, rest: seq<seq<WChar>>)
    requires NoSep(head) && rest != [] && rest[0] != []
    requires Components(x + head + [SLASH] + Join(rest), |x + head + [SLASH]|) == rest
    ensures Components(x + head + [SLASH] + Join(rest), |x|) == [head] + rest
  {
    var s := x + head + [SLASH] + Join(rest);
    var x' := x + head + [SLASH];
    Regroup(x + head, [SLASH], Join(rest));
    SepAfterPiece(x, head, [SLASH] + Join(rest));
    JoinStart(rest);
    assert s[|x'|] == rest[0][0];
    assert SkipSeps(s, |x'|) == |x'|;
    PieceThenRest(s, |x|, head, rest);
  }

  /**
   * Components read back the pieces a path was joined from, when none of
   * them is empty: x is whatever precedes them.
   */
  lemma {:induction false} ComponentsOfJoinAfter(x: seq<WChar>, segs: seq<seq<WChar>>)
    requires segs != []
    requires forall k :: 0 <= k < |segs| ==> segs[k] != [] && NoSep(segs[k])
    ensures Components(x + Join(segs), |x|) == segs
    decreases |segs|
  {
    var head := segs[0];
    if |segs| == 1 {
      LastPiece(x, head);
      assert segs == [head];
    } else {
      var rest := segs[1..];
      ComponentsOfJoinAfter(x + head + [SLASH], rest);
      JoinCons(segs);
      Regroup(x, head + [SLASH], Join(rest));
      Regroup(x, head, [SLASH]);
      PieceBeforeJoin(x, head, rest);
      assert segs == [head] + rest;
    }
  }

  /**
   * A normalised path that is not empty is cut into the components the
   * normalisation joined, none of them empty: looking it up never meets an
   * empty component.
   */
  lemma NormalizedComponents(p: seq<WChar>)
    requires Normalize(p) != []
    ensures var r := Normalize(p);
      Components(r, 0) == Split(r) && forall k :: 0 <= k < |Split(r)| ==> Split(r)[k] != []
  {
    var f := Fold(Split(p), []);
    FoldProper(Split(p), []);
    assert Normalize(p) == Join(f);
    assert f != [];
    assert [] + Join(f) == Join(f);
    ComponentsOfJoinAfter([], f);
    SplitJoin(f);
  }

  // ---------------------------------------------------------------------
  // The walk down the tree.

  /** The memcmp test of the lookup: the reported name has the component's length and code units. */
  predicate Matches(seg: seq<WChar>, s: LfnState)
    requires WellFormed(s)
  {
    s.length == |seg| && ListedName(s) == seg
  }

  predicate IsDirectory(e: Entry)
  {
    Attributes(e) & ATTRIB_DIRECTORY != 0
  }

  /** The first cluster an entry names, where a directory it describes starts. */
  function ChildStart(e: Entry): nat
  {
    FirstClusterOf(e) as nat
  }

  /**
   * What Phat_NextDirItem did to report one item: from index `from` it
   * passed over `run`, gathering a name from the buffer and checksum of
   * `prior`, and reported the item after the run with the name state `shown`.
   */
  datatype Report = Report(from: nat, prior: LfnState, run: seq<Entry>, shown: LfnState)

  /**
   * An item the lookup met: the entry at `item` of the directory at `start`,
   * weighed against the component `name`, as `report` says it was reported.
   */
  datatype Hop = Hop(start: nat, item: nat, entry: Entry, name: seq<WChar>, report: Report)

  /** The hop's item is the listed entry on the disk that Phat_NextDirItem reported as its report says. */
  ghost predicate ReportedAs(view: seq<Sector>, t: seq<DWord>, g: Geometry, h: Hop)
    requires Sound(g) && Laid(g)
  {
    var r := h.report;
    WellFormed(r.prior) && h.item == r.from + |r.run| && RunAt(view, t, g, h.start, r.from, r.run) &&
    ItemAt(view, t, g, h.start, h.item) == Some(h.entry) && Listed(h.entry) &&
    Scan(Fresh(r.prior.buffer, r.prior.checksum), r.run).0 == OK &&
    r.shown == DirItems.Finish(Scan(Fresh(r.prior.buffer, r.prior.checksum), r.run).1, h.entry)
  }

  /** The hop's item was reported under the hop's name. */
  predicate Named(h: Hop)
  {
    WellFormed(h.report.shown) && Matches(h.name, h.report.shown)
  }

  /** The item at i of the directory at `start` is one the enumeration reports. */
  ghost predicate ListedAt(view: seq<Sector>, t: seq<DWord>, g: Geometry, start: nat, i: nat)
    requires Sound(g) && Laid(g)
  {
    ItemAt(view, t, g, start, i).Some? && Listed(ItemAt(view, t, g, start, i).value)
  }

  /** The hop is the item at `k` of the directory at `start`, reported under a name other than `seg`. */
  ghost predicate Against(view: seq<Sector>, t: seq<DWord>, g: Geometry, start: nat, k: nat, seg: seq<WChar>, h: Hop)
    requires Sound(g) && Laid(g)
  {
    h.start == start && h.item == k && ReportedAs(view, t, g, h) &&
    WellFormed(h.report.shown) && !Matches(seg, h.report.shown)
  }

  /**
   * Every listed item of the directory at `start` below `upTo` was reported
   * under a name other than `seg`, as the hops in `others` record.
   */
  ghost predicate Unmatched(view: seq<Sector>, t: seq<DWord>, g: Geometry, start: nat, upTo: nat, seg: seq<WChar>,
                            others: map<nat, Hop>)
    requires Sound(g) && Laid(g)
  {
    (forall k: nat :: k < upTo && ListedAt(view, t, g, start, k) ==> k in others) &&
    (forall k :: k in others ==> Against(view, t, g, start, k, seg, others[k]))
  }

  /** Where a directory's enumeration stops: the end mark, or no item at all. */
  ghost predicate EndsAt(view: seq<Sector>, t: seq<DWord>, g: Geometry, start: nat, at: nat)
    requires Sound(g) && Laid(g)
  {
    (ItemAt(view, t, g, start, at).Some? && ItemAt(view, t, g, start, at).value[0] == END_MARK) || Ended(t, g, start, at)
  }

  /** A component not found: the items met under other names, and where the directory ended. */
  datatype Miss = Miss(others: map<nat, Hop>, end: nat)

  /** The directory at `start` ends at miss.end, and none of its listed items before that is named `seg`. */
  ghost predicate Absent(view: seq<Sector>, t: seq<DWord>, g: Geometry, start: nat, seg: seq<WChar>, miss: Miss)
    requires Sound(g) && Laid(g)
  {
    EndsAt(view, t, g, start, miss.end) && Unmatched(view, t, g, start, miss.end, seg, miss.others)
  }

  /** The names the hops were met under, in order. */
  function Names(hops: seq<Hop>): (r: seq<seq<WChar>>)
    ensures |r| == |hops|
    decreases |hops|
  {
    if hops == [] then [] else Names(hops[..|hops| - 1]) + [hops[|hops| - 1].name]
  }

  /**
   * The hops are directories, each looked up in the one before it, the
   * first in the directory at `start`; `here` is the last one's first
   * cluster (or `start` when there is none).
   */
  predicate Descended(hops: seq<Hop>, start: nat, here: nat)
    decreases |hops|
  {
    if hops == [] then here == start
    else
      var h := hops[|hops| - 1];
      Descended(hops[..|hops| - 1], start, h.start) && IsDirectory(h.entry) && here == ChildStart(h.entry)
  }

  /** Every hop is the listed entry at its place on the disk, reported under the hop's name. */
  ghost predicate Seen(view: seq<Sector>, t: seq<DWord>, g: Geometry, hops: seq<Hop>)
    requires Sound(g) && Laid(g)
    decreases |hops|
  {
    hops == [] ||
    (Seen(view, t, g, hops[..|hops| - 1]) && ReportedAs(view, t, g, hops[|hops| - 1]) && Named(hops[|hops| - 1]))
  }

  /** Where the walk stands between two calls of Phat_NextDirItem. */
  ghost predicate Walking(view: seq<Sector>, t: seq<DWord>, g: Geometry, path: seq<WChar>, start: nat, tracked: bool,
                          i: nat, j: nat, hops: seq<Hop>, d: DirCursor)
    requires Sound(g) && Laid(g)
  {
    && i < j <= |path| && j == SepFrom(path, i)
    && d.item < ITEM_LIMIT
    && Components(path, 0) == Names(hops) + Components(path, i)
    && Descended(hops, start, d.startCluster)
    && (tracked ==> Positioned(t, g, d) && Seen(view, t, g, hops))
  }

  lemma NamesSnoc(hops: seq<Hop>, h: Hop)
    ensures (hops + [h])[..|hops|] == hops
    ensures Names(hops + [h]) == Names(hops) + [h.name]
  {
    assert (hops + [h])[..|hops|] == hops;
  }

  lemma Regroup<T>(a: seq<T>, b: seq<T>, c: seq<T>)
    ensures a + (b + c) == (a + b) + c
  {
  }

  lemma PrefixOfJoin<T>(a: seq<T>, b: seq<T>)
    ensures a <= a + b
  {
    assert (a + b)[..|a|] == a;
  }

  /** The components met so far, one more. */
  lemma PassedComponent(path: seq<WChar>, i: nat, hops: seq<Hop>, h: Hop)
    requires i <= |path| && SepFrom(path, i) < |path|
    requires Components(path, 0) == Names(hops) + Components(path, i)
    requires h.name == path[i..SepFrom(path, i)]
    ensures Components(path, 0) == Names(hops + [h]) + Components(path, SkipSeps(path, SepFrom(path, i) + 1))
  {
    var rest := Components(path, SkipSeps(path, SepFrom(path, i) + 1));
    ComponentsNext(path, i);
    NamesSnoc(hops, h);
    Regroup(Names(hops), [h.name], rest);
  }

  lemma DescendedSnoc(hops: seq<Hop>, start: nat, h: Hop)
    requires Descended(hops, start, h.start) && IsDirectory(h.entry)
    ensures Descended(hops + [h], start, ChildStart(h.entry))
  {
    assert (hops + [h])[..|hops|] == hops;
  }

  lemma SeenSnoc(view: seq<Sector>, t: seq<DWord>, g: Geometry, hops: seq<Hop>, h: Hop)
    requires Sound(g) && Laid(g) && Seen(view, t, g, hops)
    requires ReportedAs(view, t, g, h) && Named(h)
    ensures Seen(view, t, g, hops + [h])
  {
    assert (hops + [h])[..|hops|] == hops;
  }

  /** An item met under the current component, taken as a hop: the names gone through, one more. */
  lemma TookNames(path: seq<WChar>, i: nat, j: nat, hops: seq<Hop>, h: Hop)
    requires i <= j <= |path| && j == SepFrom(path, i)
    requires Components(path, 0) == Names(hops) + Components(path, i)
    requires h.name == path[i..j]
    ensures (hops + [h])[..|hops|] == hops
    ensures Names(hops + [h]) <= Components(path, 0)
    ensures j == |path| ==> Names(hops + [h]) == Components(path, 0)
    ensures j < |path| ==> Components(path, 0) == Names(hops + [h]) + Components(path, SkipSeps(path, j + 1))
  {
    NamesSnoc(hops, h);
    if j < |path| {
      PassedComponent(path, i, hops, h);
      PrefixOfJoin(Names(hops + [h]), Components(path, SkipSeps(path, j + 1)));
    } else {
      ComponentsHead(path, i);
      assert Components(path, i) == [h.name];
    }
  }

  /** A directory met for a component that is not the last: the walk goes on in it with the next component. */
  lemma WalkDown(view: seq<Sector>, t: seq<DWord>, g: Geometry, path: seq<WChar>, start: nat, tracked: bool,
                 i: nat, j: nat, hops: seq<Hop>, d: DirCursor, h: Hop, d2: DirCursor, i': nat, j': nat)
    requires Sound(g) && Laid(g)
    requires Walking(view, t, g, path, start, tracked, i, j, hops, d)
    requires j < |path| && i' == SkipSeps(path, j + 1) && j' == SepFrom(path, i') && i' < j'
    requires h.start == d.startCluster && h.name == path[i..j] && IsDirectory(h.entry)
    requires Named(h)
    requires tracked ==> Met(view, t, g, h, d2)
    ensures Walking(view, t, g, path, start, tracked, i', j', hops + [h], Open(ChildStart(h.entry)))
  {
    TookNames(path, i, j, hops, h);
    DescendedSnoc(hops, start, h);
    if tracked {
      SeenSnoc(view, t, g, hops, h);
    }
    var d' := Open(ChildStart(h.entry));
    assert Positioned(t, g, d');
  }

  /** The cursor of a walk is within the 32-bit index and, when tracked, positioned. */
  lemma WalkingAt(view: seq<Sector>, t: seq<DWord>, g: Geometry, path: seq<WChar>, start: nat, tracked: bool,
                  i: nat, j: nat, hops: seq<Hop>, d: DirCursor)
    requires Sound(g) && Laid(g)
    requires Walking(view, t, g, path, start, tracked, i, j, hops, d)
    ensures d.item < ITEM_LIMIT && (tracked ==> Positioned(t, g, d))
  {
  }

  /** The walk stops before component |hops|: how many components are left. */
  lemma WalkStopped(view: seq<Sector>, t: seq<DWord>, g: Geometry, path: seq<WChar>, start: nat, tracked: bool,
                    i: nat, j: nat, hops: seq<Hop>, d: DirCursor)
    requires Sound(g) && Laid(g)
    requires Walking(view, t, g, path, start, tracked, i, j, hops, d)
    ensures |hops| < |Components(path, 0)| && Components(path, 0)[|hops|] == path[i..j] != []
    ensures |Components(path, 0)| == |hops| + 1 <==> j == |path|
    ensures Names(hops) <= Components(path, 0)
  {
    ComponentsHead(path, i);
    assert Components(path, 0)[|hops|] == Components(path, i)[0];
    assert Names(hops) == Components(path, 0)[..|hops|];
  }

  /** Phat_FindItem's final step back by one item, on the 32-bit index. */
  function Back(item: nat): (r: nat)
    requires item < ITEM_LIMIT
    ensures r < ITEM_LIMIT && (item > 0 ==> r + 1 == item)
  {
    if item == 0 then ITEM_LIMIT - 1 else item - 1
  }

  /**
   * What a lookup from the directory at `start` reports, as the hops it
   * went through: they follow the path's components; an empty component
   * reached is InvalidParameter; OK means every component was met, and
   * then (Phat_ChDir) the cursor is opened on the last directory or
   * (Phat_FindItem) stands on the last item met; NotADirectory names a
   * hop that is not a directory although a component follows it; the
   * end of a directory is EndOfDirectory only for Phat_FindItem's last
   * component, which then starts at `next` (Phat_FindItem's next_path).
   * On a cursor that tracks its chain the hops are the items on the disk
   * reported under the components' names, and where a component is not
   * found (EndOfDirectory, DirectoryNotFound) the directory searched ends
   * at miss.end and none of its listed items before that bears its name.
   */
  ghost predicate Looked(view: seq<Sector>, t: seq<DWord>, g: Geometry, path: seq<WChar>, start: nat, tracked: bool,
                         findLast: bool, st: PhatState, d: DirCursor, next: nat, hops: seq<Hop>, miss: Miss)
    requires Sound(g) && Laid(g)
  {
    var comps := Components(path, 0);
    && Names(hops) <= comps
    && (st != NotADirectory && |hops| < |comps| && comps[|hops|] == [] ==> st == InvalidParameter)
    && (st == OK ==> Names(hops) == comps)
    && (st == OK && !findLast ==> Descended(hops, start, d.startCluster) && d == Open(d.startCluster))
    && (st == OK && findLast ==>
          hops != [] &&
          var h := hops[|hops| - 1];
          Descended(hops[..|hops| - 1], start, h.start) && d.startCluster == h.start &&
          (tracked && h.item + 1 < ITEM_LIMIT ==> d.item == h.item))
    && (st == NotADirectory ==>
          hops != [] && !IsDirectory(hops[|hops| - 1].entry) && Descended(hops[..|hops| - 1], start, hops[|hops| - 1].start) &&
          (findLast ==> |hops| < |comps|))
    && (st == EndOfDirectory ==> findLast && next <= |path| && comps == Names(hops) + [path[next..]])
    && (st == DirectoryNotFound ==> |hops| + 1 < |comps| || !findLast)
    && (st == EndOfDirectory || st == DirectoryNotFound ==> Descended(hops, start, d.startCluster))
    && (tracked ==> Seen(view, t, g, hops))
    && (tracked && (st == EndOfDirectory || st == DirectoryNotFound) ==>
          |hops| < |comps| && Absent(view, t, g, d.startCluster, comps[|hops|], miss))
  }

  /** A path whose first component is empty is refused before any item is read. */
  lemma EmptyFirst(view: seq<Sector>, t: seq<DWord>, g: Geometry, path: seq<WChar>, start: nat, tracked: bool,
                   findLast: bool, d: DirCursor)
    requires Sound(g) && Laid(g) && SepFrom(path, 0) == 0
    ensures Looked(view, t, g, path, start, tracked, findLast, InvalidParameter, d, 0, [], Miss(map[], 0))
  {
    ComponentsHead(path, 0);
    assert Names([]) == [];
  }

  /** The directory ends, as miss says, before an item under the component is met. */
  lemma Stopped(view: seq<Sector>, t: seq<DWord>, g: Geometry, path: seq<WChar>, start: nat, tracked: bool,
                findLast: bool, i: nat, j: nat, hops: seq<Hop>, d: DirCursor, d2: DirCursor, miss: Miss)
    requires Sound(g) && Laid(g)
    requires Walking(view, t, g, path, start, tracked, i, j, hops, d)
    requires d2.startCluster == d.startCluster
    requires tracked ==> Absent(view, t, g, d.startCluster, path[i..j], miss)
    ensures Looked(view, t, g, path, start, tracked, findLast,
                   if findLast && j == |path| then EndOfDirectory else DirectoryNotFound, d2, i, hops, miss)
  {
    WalkStopped(view, t, g, path, start, tracked, i, j, hops, d);
    if j == |path| {
      assert Components(path, i) == [path[i..]];
    }
  }

  /** Phat_NextDirItem fails: its state is passed on. */
  lemma Failed(view: seq<Sector>, t: seq<DWord>, g: Geometry, path: seq<WChar>, start: nat, tracked: bool,
               findLast: bool, i: nat, j: nat, hops: seq<Hop>, d: DirCursor, st: PhatState, d2: DirCursor)
    requires Sound(g) && Laid(g)
    requires Walking(view, t, g, path, start, tracked, i, j, hops, d)
    requires st != OK && st != EndOfDirectory && st != DirectoryNotFound && st != NotADirectory
    ensures Looked(view, t, g, path, start, tracked, findLast, st, d2, i, hops, Miss(map[], 0))
  {
    WalkStopped(view, t, g, path, start, tracked, i, j, hops, d);
  }

  /** An item under another name: the walk goes on after it in the same directory. */
  lemma OtherName(view: seq<Sector>, t: seq<DWord>, g: Geometry, path: seq<WChar>, start: nat, tracked: bool,
                  i: nat, j: nat, hops: seq<Hop>, d: DirCursor, h: Hop, d2: DirCursor)
    requires Sound(g) && Laid(g)
    requires Walking(view, t, g, path, start, tracked, i, j, hops, d)
    requires d2.startCluster == d.startCluster && d2.item < ITEM_LIMIT
    requires tracked ==> Met(view, t, g, h, d2)
    ensures Walking(view, t, g, path, start, tracked, i, j, hops, d2)
  {
  }

  /** Items passed over are not listed: the items below the end of a run are covered as before. */
  lemma RunUnlisted(view: seq<Sector>, t: seq<DWord>, g: Geometry, start: nat, from: nat, run: seq<Entry>,
                    seg: seq<WChar>, others: map<nat, Hop>)
    requires Sound(g) && Laid(g)
    requires Unmatched(view, t, g, start, from, seg, others) && RunAt(view, t, g, start, from, run)
    ensures Unmatched(view, t, g, start, from + |run|, seg, others)
  {
    forall k: nat | k < from + |run| && ListedAt(view, t, g, start, k)
      ensures k in others
    {
      if k >= from {
        RunAtItem(view, t, g, start, from, run, k - from);
      }
    }
  }

  /** An item reported under another name joins the items met in its directory. */
  lemma PassedUnder(view: seq<Sector>, t: seq<DWord>, g: Geometry, start: nat, from: nat, seg: seq<WChar>,
                    others: map<nat, Hop>, h: Hop)
    requires Sound(g) && Laid(g)
    requires Unmatched(view, t, g, start, from, seg, others)
    requires h.start == start && h.report.from == from && ReportedAs(view, t, g, h)
    requires WellFormed(h.report.shown) && !Matches(seg, h.report.shown)
    ensures Unmatched(view, t, g, start, h.item + 1, seg, others[h.item := h])
  {
    RunUnlisted(view, t, g, start, from, h.report.run, seg, others);
    var others2 := others[h.item := h];
    forall k: nat | k < h.item + 1 && ListedAt(view, t, g, start, k)
      ensures k in others2
    {
    }
    forall k | k in others2
      ensures Against(view, t, g, start, k, seg, others2[k])
    {
      if k != h.item {
        assert others2[k] == others[k];
      }
    }
  }

  /** Phat_NextDirItem reached the end of the directory after the items met: the name is absent. */
  lemma EndedUnmatched(view: seq<Sector>, t: seq<DWord>, g: Geometry, d: DirCursor, s: LfnState, seg: seq<WChar>,
                       others: map<nat, Hop>, d2: DirCursor, s2: LfnState, e: Entry, run: seq<Entry>)
    requires Sound(g) && Laid(g) && WellFormed(s)
    requires Outcome(view, t, g, d, s, EndOfDirectory, d2, s2, e, run)
    requires Unmatched(view, t, g, d.startCluster, d.item, seg, others)
    ensures Absent(view, t, g, d.startCluster, seg, Miss(others, d.item + |run|))
  {
    RunUnlisted(view, t, g, d.startCluster, d.item, run, seg, others);
  }

  /** The item at the last 32-bit index was reported under another name: nothing follows it. */
  lemma LastIndexUnmatched(view: seq<Sector>, t: seq<DWord>, g: Geometry, start: nat, seg: seq<WChar>,
                           others: map<nat, Hop>, at: nat)
    requires Sound(g) && Laid(g)
    requires Unmatched(view, t, g, start, at + 1, seg, others) && at + 1 >= ITEM_LIMIT
    ensures Absent(view, t, g, start, seg, Miss(others, at + 1))
  {
  }

  /** The item of a hop was reported as its report says; the cursor after it is positioned one item on. */
  ghost predicate Met(view: seq<Sector>, t: seq<DWord>, g: Geometry, h: Hop, d2: DirCursor)
    requires Sound(g) && Laid(g)
  {
    ReportedAs(view, t, g, h) &&
    d2.item == (if h.item + 1 < ITEM_LIMIT then h.item + 1 else h.item) && Positioned(t, g, d2)
  }

  /** What Phat_NextDirItem's OK outcome says about the item it reports. */
  lemma Reported(view: seq<Sector>, t: seq<DWord>, g: Geometry, d: DirCursor, s: LfnState,
                 d2: DirCursor, s2: LfnState, e: Entry, run: seq<Entry>, h: Hop)
    requires Sound(g) && Laid(g) && WellFormed(s)
    requires Outcome(view, t, g, d, s, OK, d2, s2, e, run)
    requires h.start == d.startCluster && h.item == d.item + |run| && h.entry == e && h.report == Report(d.item, s, run, s2)
    ensures Met(view, t, g, h, d2)
  {
    OutcomeFound(view, t, g, d, s, d2, s2, e, run);
    FoundItem(view, t, g, d, s, d2, s2, e, run, h);
  }

  lemma OutcomeFound(view: seq<Sector>, t: seq<DWord>, g: Geometry, d: DirCursor, s: LfnState,
                     d2: DirCursor, s2: LfnState, e: Entry, run: seq<Entry>)
    requires Sound(g) && Laid(g) && WellFormed(s)
    requires Outcome(view, t, g, d, s, OK, d2, s2, e, run)
    ensures Found(view, t, g, d, s, d2, s2, e, run)
  {
  }

  lemma FoundItem(view: seq<Sector>, t: seq<DWord>, g: Geometry, d: DirCursor, s: LfnState,
                  d2: DirCursor, s2: LfnState, e: Entry, run: seq<Entry>, h: Hop)
    requires Sound(g) && Laid(g) && WellFormed(s)
    requires Found(view, t, g, d, s, d2, s2, e, run) && RunAt(view, t, g, d.startCluster, d.item, run)
    requires h.start == d.startCluster && h.item == d.item + |run| && h.entry == e && h.report == Report(d.item, s, run, s2)
    ensures Met(view, t, g, h, d2)
  {
  }

  /** Phat_FindItem meets its last component: the cursor steps back onto the item. */
  lemma FoundLast(view: seq<Sector>, t: seq<DWord>, g: Geometry, path: seq<WChar>, start: nat, tracked: bool,
                  i: nat, j: nat, hops: seq<Hop>, d: DirCursor, h: Hop, d2: DirCursor)
    requires Sound(g) && Laid(g)
    requires Walking(view, t, g, path, start, tracked, i, j, hops, d)
    requires j == |path| && h.start == d.startCluster && h.name == path[i..j]
    requires Named(h)
    requires d2.startCluster == d.startCluster && d2.item < ITEM_LIMIT
    requires tracked ==> Met(view, t, g, h, d2)
    ensures Looked(view, t, g, path, start, tracked, true, OK, d2.(item := Back(d2.item)), i, hops + [h], Miss(map[], 0))
  {
    TookNames(path, i, j, hops, h);
    if tracked {
      SeenSnoc(view, t, g, hops, h);
    }
  }

  /** An item met for a component that is not its last, and not a directory. */
  lemma NotDirectory(view: seq<Sector>, t: seq<DWord>, g: Geometry, path: seq<WChar>, start: nat, tracked: bool,
                     findLast: bool, i: nat, j: nat, hops: seq<Hop>, d: DirCursor, h: Hop, d2: DirCursor)
    requires Sound(g) && Laid(g)
    requires Walking(view, t, g, path, start, tracked, i, j, hops, d)
    requires !(findLast && j == |path|) && !IsDirectory(h.entry)
    requires h.start == d.startCluster && h.name == path[i..j]
    requires Named(h)
    requires tracked ==> Met(view, t, g, h, d2)
    ensures Looked(view, t, g, path, start, tracked, findLast, NotADirectory, d2, i, hops + [h], Miss(map[], 0))
  {
    TookNames(path, i, j, hops, h);
    if tracked {
      SeenSnoc(view, t, g, hops, h);
    }
    if findLast {
      PassedComponent(path, i, hops, h);
    }
  }

  /** Phat_ChDir meets its last component, a directory: the cursor opens it. */
  lemma EnteredLast(view: seq<Sector>, t: seq<DWord>, g: Geometry, path: seq<WChar>, start: nat, tracked: bool,
                    i: nat, j: nat, hops: seq<Hop>, d: DirCursor, h: Hop, d2: DirCursor)
    requires Sound(g) && Laid(g)
    requires Walking(view, t, g, path, start, tracked, i, j, hops, d)
    requires j == |path| && IsDirectory(h.entry)
    requires h.start == d.startCluster && h.name == path[i..j]
    requires Named(h)
    requires tracked ==> Met(view, t, g, h, d2)
    ensures Looked(view, t, g, path, start, tracked, false, OK, Open(ChildStart(h.entry)), i, hops + [h], Miss(map[], 0))
  {
    var d' := Open(ChildStart(h.entry));
    var hops' := hops + [h];
    TookNames(path, i, j, hops, h);
    DescendedSnoc(hops, start, h);
    assert Names(hops') == Components(path, 0);
    assert Descended(hops', start, d'.startCluster) && d' == Open(d'.startCluster);
    if tracked {
      SeenSnoc(view, t, g, hops, h);
    }
  }

  /** A directory met for a component followed by an empty one (a trailing separator). */
  lemma EmptyNext(view: seq<Sector>, t: seq<DWord>, g: Geometry, path: seq<WChar>, start: nat, tracked: bool,
                  findLast: bool, i: nat, j: nat, hops: seq<Hop>, d: DirCursor, h: Hop, d2: DirCursor, i': nat)
    requires Sound(g) && Laid(g)
    requires Walking(view, t, g, path, start, tracked, i, j, hops, d)
    requires j < |path| && i' == SkipSeps(path, j + 1) && SepFrom(path, i') == i' && IsDirectory(h.entry)
    requires h.start == d.startCluster && h.name == path[i..j]
    requires Named(h)
    requires tracked ==> Met(view, t, g, h, d2)
    ensures Looked(view, t, g, path, start, tracked, findLast, InvalidParameter, Open(ChildStart(h.entry)), i, hops + [h],
                   Miss(map[], 0))
  {
    TookNames(path, i, j, hops, h);
    ComponentsHead(path, i');
    if tracked {
      SeenSnoc(view, t, g, hops, h);
    }
  }

  /**
   * One pass of the loop shared by Phat_ChDir and Phat_FindItem, once
   * Phat_NextDirItem has answered st0 with item e: either the lookup ends
   * (done) with what it reports, or it goes on from the new cursor, maybe
   * with the next component in a subdirectory.
   */
  method Consider(ghost view: seq<Sector>, ghost t: seq<DWord>, ghost g: Geometry, path: seq<WChar>, ghost start: nat,
                  ghost tracked: bool, findLast: bool, i: nat, j: nat, ghost hops: seq<Hop>, d: DirCursor, s: LfnState,
                  st0: PhatState, d2: DirCursor, s2: LfnState, e: Entry, ghost run: seq<Entry>, ghost others: map<nat, Hop>)
    returns (done: bool, st: PhatState, d': DirCursor, s': LfnState, i': nat, j': nat, ghost hops': seq<Hop>,
             ghost miss': Miss)
    requires Sound(g) && Laid(g) && WellFormed(s) && WellFormed(s2)
    requires Walking(view, t, g, path, start, tracked, i, j, hops, d)
    requires tracked ==> Unmatched(view, t, g, d.startCluster, d.item, path[i..j], others)
    requires st0 in {OK, EndOfDirectory, InvalidParameter, FATError, NotEnoughSpace, ReadFail, WriteFail, InternalError, FSError}
    requires d2.startCluster == d.startCluster && (st0 == OK ==> d.item <= d2.item && d2.item < ITEM_LIMIT)
    requires tracked ==> Outcome(view, t, g, d, s, st0, d2, s2, e, run)
    ensures WellFormed(s')
    ensures done ==> st in {OK, EndOfDirectory, DirectoryNotFound, NotADirectory, InvalidParameter, FATError, NotEnoughSpace,
                            ReadFail, WriteFail, InternalError, FSError}
    ensures done ==> Looked(view, t, g, path, start, tracked, findLast, st, d', i', hops', miss')
    ensures !done ==> Walking(view, t, g, path, start, tracked, i', j', hops', d')
    ensures !done && tracked ==> Unmatched(view, t, g, d'.startCluster, d'.item, path[i'..j'], miss'.others)
    ensures !done ==> i < i' || (i' == i && d.item < d'.item)
  {
    d', s', i', j', hops' := d, s, i, j, hops;
    miss' := Miss(map[], 0);
    done := true;
    if st0 == EndOfDirectory {
      if tracked {
        EndedUnmatched(view, t, g, d, s, path[i..j], others, d2, s2, e, run);
      }
      miss' := Miss(others, d.item + |run|);
      Stopped(view, t, g, path, start, tracked, findLast, i, j, hops, d, d2, miss');
      st, d', s' := if findLast && j == |path| then EndOfDirectory else DirectoryNotFound, d2, s2;
      return;
    } else if st0 != OK {
      Failed(view, t, g, path, start, tracked, findLast, i, j, hops, d, st0, d2);
      st, d', s' := st0, d2, s2;
      return;
    }
    st := OK;
    ghost var h := Hop(d.startCluster, d.item + |run|, e, path[i..j], Report(d.item, s, run, s2));
    if tracked {
      Reported(view, t, g, d, s, d2, s2, e, run, h);
    }
    if !Matches(path[i..j], s2) {
      done, st, d', s', miss' := Passed(view, t, g, path, start, tracked, findLast, i, j, hops, d, h, d2, s2, others);
      return;
    }
    done, st, d', s', i', j', hops', miss' := Take(view, t, g, path, start, tracked, findLast, i, j, hops, d, h, d2, s2, e);
  }

  /**
   * The item is reported under another name: the walk goes on after it, or,
   * when the cursor could not move past the last 32-bit index, the
   * directory is taken as ended.
   */
  method Passed(ghost view: seq<Sector>, ghost t: seq<DWord>, ghost g: Geometry, path: seq<WChar>, ghost start: nat,
                ghost tracked: bool, findLast: bool, i: nat, j: nat, ghost hops: seq<Hop>, d: DirCursor, ghost h: Hop,
                d2: DirCursor, s2: LfnState, ghost others: map<nat, Hop>)
    returns (done: bool, st: PhatState, d': DirCursor, s': LfnState, ghost miss': Miss)
    requires Sound(g) && Laid(g) && WellFormed(s2)
    requires Walking(view, t, g, path, start, tracked, i, j, hops, d)
    requires tracked ==> Unmatched(view, t, g, d.startCluster, d.item, path[i..j], others)
    requires h.start == d.startCluster && h.report.from == d.item && h.report.shown == s2 && !Matches(path[i..j], s2)
    requires d2.startCluster == d.startCluster && d2.item < ITEM_LIMIT && d.item <= d2.item
    requires tracked ==> Met(view, t, g, h, d2)
    ensures WellFormed(s')
    ensures done ==> st == (if findLast && j == |path| then EndOfDirectory else DirectoryNotFound)
    ensures done ==> Looked(view, t, g, path, start, tracked, findLast, st, d', i, hops, miss')
    ensures !done ==> Walking(view, t, g, path, start, tracked, i, j, hops, d') && d.item < d'.item
    ensures !done && tracked ==> Unmatched(view, t, g, d'.startCluster, d'.item, path[i..j], miss'.others)
  {
    ghost var others2 := others[h.item := h];
    if tracked {
      PassedUnder(view, t, g, d.startCluster, d.item, path[i..j], others, h);
    }
    if d2.item <= d.item {
      // its last possible index reported again
      if tracked {
        LastIndexUnmatched(view, t, g, d.startCluster, path[i..j], others2, h.item);
      }
      miss' := Miss(others2, h.item + 1);
      Stopped(view, t, g, path, start, tracked, findLast, i, j, hops, d, d2, miss');
      done, st, d', s' := true, if findLast && j == |path| then EndOfDirectory else DirectoryNotFound, d2, s2;
      return;
    }
    OtherName(view, t, g, path, start, tracked, i, j, hops, d, h, d2);
    done, st, d', s', miss' := false, OK, d2, s2, Miss(others2, d2.item);
  }

  /** The item is reported under the component: the lookup ends on it or goes down into it. */
  method Take(ghost view: seq<Sector>, ghost t: seq<DWord>, ghost g: Geometry, path: seq<WChar>, ghost start: nat,
              ghost tracked: bool, findLast: bool, i: nat, j: nat, ghost hops: seq<Hop>, d: DirCursor, ghost h: Hop,
              d2: DirCursor, s2: LfnState, e: Entry)
    returns (done: bool, st: PhatState, d': DirCursor, s': LfnState, i': nat, j': nat, ghost hops': seq<Hop>,
             ghost miss': Miss)
    requires Sound(g) && Laid(g) && WellFormed(s2)
    requires Walking(view, t, g, path, start, tracked, i, j, hops, d)
    requires h.start == d.startCluster && h.name == path[i..j] && h.entry == e && Named(h)
    requires d2.startCluster == d.startCluster && d2.item < ITEM_LIMIT
    requires tracked ==> Met(view, t, g, h, d2)
    ensures WellFormed(s')
    ensures done ==> st in {OK, NotADirectory, InvalidParameter}
    ensures done ==> Looked(view, t, g, path, start, tracked, findLast, st, d', i', hops', miss')
    ensures !done ==> Walking(view, t, g, path, start, tracked, i', j', hops', d')
    ensures !done && tracked ==> Unmatched(view, t, g, d'.startCluster, d'.item, path[i'..j'], miss'.others)
    ensures !done ==> i < i'
  {
    d', s', i', j', hops' := d, s2, i, j, hops + [h];
    miss' := Miss(map[], 0);
    done, st := true, OK;
    if findLast && j == |path| {
      FoundLast(view, t, g, path, start, tracked, i, j, hops, d, h, d2);
      d' := d2.(item := Back(d2.item));
      return;
    }
    if !IsDirectory(e) {
      NotDirectory(view, t, g, path, start, tracked, findLast, i, j, hops, d, h, d2);
      st, d' := NotADirectory, d2;
      return;
    }
    if j == |path| {
      EnteredLast(view, t, g, path, start, tracked, i, j, hops, d, h, d2);
      d' := Open(ChildStart(e));
      return;
    }
    var next := SkipSeps(path, j + 1);
    var end := SepFrom(path, next);
    if end == next {
      EmptyNext(view, t, g, path, start, tracked, findLast, i, j, hops, d, h, d2, next);
      st, d' := InvalidParameter, Open(ChildStart(e));
      return;
    }
    WalkDown(view, t, g, path, start, tracked, i, j, hops, d, h, d2, next, end);
    done, d', i', j' := false, Open(ChildStart(e)), next, end;
  }

  /**
   * One pass of the lookup loop: Phat_NextDirItem from the cursor, then
   * the item it reports is weighed against the component.
   */
  method Probe(vol: Volume, ghost start: nat, ghost tracked: bool, path: seq<WChar>, findLast: bool,
               i: nat, j: nat, ghost hops: seq<Hop>, d: DirCursor, s: LfnState, ghost others: map<nat, Hop>)
    returns (done: bool, st: PhatState, d': DirCursor, s': LfnState, i': nat, j': nat, ghost hops': seq<Hop>,
             ghost miss': Miss)
    requires Ready(vol) && WellFormed(s)
    requires Walking(vol.View(), vol.Table(), vol.geo, path, start, tracked, i, j, hops, d)
    requires tracked ==> Unmatched(vol.View(), vol.Table(), vol.geo, d.startCluster, d.item, path[i..j], others)
    modifies vol, vol.cache.Repr
    ensures Ready(vol) && vol.Kept() && vol.View() == old(vol.View()) && vol.Table() == old(vol.Table())
    ensures vol.FsInfoKept() && vol.isDirty == old(vol.isDirty) && WellFormed(s')
    ensures done ==> st in {OK, EndOfDirectory, DirectoryNotFound, NotADirectory, InvalidParameter, FATError, NotEnoughSpace,
                            ReadFail, WriteFail, InternalError, FSError}
    ensures done ==> Looked(vol.View(), vol.Table(), vol.geo, path, start, tracked, findLast, st, d', i', hops', miss')
    ensures !done ==> Walking(vol.View(), vol.Table(), vol.geo, path, start, tracked, i', j', hops', d')
    ensures !done && tracked ==>
              Unmatched(vol.View(), vol.Table(), vol.geo, d'.startCluster, d'.item, path[i'..j'], miss'.others)
    ensures !done ==> i < i' || (i' == i && d.item < d'.item)
  {
    ghost var view, t, g := vol.View(), vol.Table(), vol.geo;
    WalkingAt(view, t, g, path, start, tracked, i, j, hops, d);
    var st0, d2, s2, e;
    ghost var run;
    st0, d2, s2, e, run := NextDirItem(vol, d, s);
    done, st, d', s', i', j', hops', miss' := Consider(view, t, g, path, start, tracked, findLast, i, j, hops, d, s,
                                                      st0, d2, s2, e, run, others);
  }

  /**
   * The loop shared by Phat_ChDir (findLast false) and Phat_FindItem
   * (findLast true), from the cursor's directory: a component is cut from
   * the path (an empty one is InvalidParameter), then the directory is
   * enumerated until an item is reported under that name. Phat_ChDir then
   * requires a directory and moves into it, stopping after the last
   * component; Phat_FindItem stops on the last component whatever the item
   * is, its cursor stepped back onto it, and requires a directory
   * otherwise. The end of a directory is DirectoryNotFound, except on
   * Phat_FindItem's last component where it is EndOfDirectory. `hops` is
   * the items gone through; on a cursor that tracks its chain they are
   * the items on the disk. `next` is where the last component tried
   * starts. On a failure the cursor is left as Phat_NextDirItem left it.
   */
  method Descend(vol: Volume, path: seq<WChar>, d0: DirCursor, s0: LfnState, findLast: bool)
    returns (st: PhatState, d: DirCursor, s: LfnState, next: nat, ghost hops: seq<Hop>, ghost miss: Miss)
    requires Ready(vol) && WellFormed(s0)
    modifies vol, vol.cache.Repr
    ensures Ready(vol) && vol.Kept() && vol.View() == old(vol.View()) && vol.Table() == old(vol.Table())
    ensures vol.FsInfoKept() && vol.isDirty == old(vol.isDirty) && WellFormed(s)
    ensures st in {OK, EndOfDirectory, DirectoryNotFound, NotADirectory, InvalidParameter, FATError, NotEnoughSpace,
                   ReadFail, WriteFail, InternalError, FSError}
    ensures Looked(vol.View(), vol.Table(), vol.geo, path, d0.startCluster, Positioned(vol.Table(), vol.geo, d0),
                   findLast, st, d, next, hops, miss)
  {
    ghost var view, t, g := vol.View(), vol.Table(), vol.geo;
    ghost var tracked := Positioned(t, g, d0);
    d, s, hops, miss := d0.(item := 0), s0, [], Miss(map[], 0);
    next := 0;
    var j := SepFrom(path, 0);
    if j == next {
      EmptyFirst(view, t, g, path, d0.startCluster, tracked, findLast, d);
      return InvalidParameter, d, s, next, hops, miss;
    }
    while true
      invariant Ready(vol) && vol.Kept() && vol.View() == view && vol.Table() == t && vol.geo == g
      invariant vol.FsInfoKept() && vol.isDirty == old(vol.isDirty) && WellFormed(s)
      invariant Walking(view, t, g, path, d0.startCluster, tracked, next, j, hops, d)
      invariant tracked ==> Unmatched(view, t, g, d.startCluster, d.item, path[next..j], miss.others)
      decreases |path| - next, ITEM_LIMIT - d.item
    {
      var done;
      done, st, d, s, next, j, hops, miss :=
        Probe(vol, d0.startCluster, tracked, path, findLast, next, j, hops, d, s, miss.others);
      if done {
        return;
      }
    }
  }

  /** The long-name part of a cursor that Phat_OpenRootDir clears. */
  function Cleared(): (s: LfnState)
    ensures WellFormed(s) && s.length == 0 && !s.noChecksum
  {
    LfnState(seq(LFN_BUFFER, k => 0), 0, 0, false)
  }

  /**
   * Phat_ChDir: the cursor moves down the path's components from its own
   * directory, each of which must be a directory; on OK it is opened on
   * the last one.
   */
  method ChDir(vol: Volume, path: seq<WChar>, d0: DirCursor, s0: LfnState)
    returns (st: PhatState, d: DirCursor, s: LfnState, ghost hops: seq<Hop>, ghost miss: Miss)
    requires Ready(vol) && WellFormed(s0)
    modifies vol, vol.cache.Repr
    ensures Ready(vol) && vol.Kept() && vol.View() == old(vol.View()) && vol.Table() == old(vol.Table())
    ensures vol.FsInfoKept() && vol.isDirty == old(vol.isDirty) && WellFormed(s)
    ensures st != EndOfDirectory
    ensures (st == OK ==>
               Names(hops) == Components(path, 0) && d == Open(d.startCluster) &&
               Descended(hops, d0.startCluster, d.startCluster))
    ensures Looked(vol.View(), vol.Table(), vol.geo, path, d0.startCluster, Positioned(vol.Table(), vol.geo, d0),
                   false, st, d, 0, hops, miss)
  {
    var next;
    st, d, s, next, hops, miss := Descend(vol, path, d0, s0, false);
  }

  /**
   * Phat_OpenDir: separators at the head of the path are skipped and the
   * root directory is opened; what is left of the path, if anything, is
   * gone down with Phat_ChDir.
   */
  method OpenDir(vol: Volume, path: seq<WChar>)
    returns (st: PhatState, d: DirCursor, s: LfnState, ghost hops: seq<Hop>, ghost miss: Miss)
    requires Ready(vol)
    modifies vol, vol.cache.Repr
    ensures Ready(vol) && vol.Kept() && vol.View() == old(vol.View()) && vol.Table() == old(vol.Table())
    ensures vol.FsInfoKept() && vol.isDirty == old(vol.isDirty) && WellFormed(s)
    ensures SkipSeps(path, 0) == |path| ==> st == OK && d == Open(vol.geo.rootDirCluster) && hops == []
    ensures SkipSeps(path, 0) < |path| ==>
              Looked(vol.View(), vol.Table(), vol.geo, path[SkipSeps(path, 0)..], vol.geo.rootDirCluster, true,
                     false, st, d, 0, hops, miss)
  {
    var p := SkipSeps(path, 0);
    d, s, hops, miss := Open(vol.geo.rootDirCluster), Cleared(), [], Miss(map[], 0);
    if p == |path| {
      return OK, d, s, hops, miss;
    }
    st, d, s, hops, miss := ChDir(vol, path[p..], d, s);
  }

  /**
   * Phat_FindItem: on FAT32 a cursor that is not on a cluster of the data
   * area is first put back on the root directory; then the path is gone
   * down and the cursor is left on the item of its last component.
   */
  method FindItem(vol: Volume, path: seq<WChar>, d0: DirCursor, s0: LfnState)
    returns (st: PhatState, d: DirCursor, s: LfnState, next: nat, ghost hops: seq<Hop>, ghost miss: Miss)
    requires Ready(vol) && WellFormed(s0)
    modifies vol, vol.cache.Repr
    ensures Ready(vol) && vol.Kept() && vol.View() == old(vol.View()) && vol.Table() == old(vol.Table())
    ensures vol.FsInfoKept() && vol.isDirty == old(vol.isDirty) && WellFormed(s)
    ensures vol.geo.fatBits == 32 && d0.currentCluster < 2 ==>
              Looked(vol.View(), vol.Table(), vol.geo, path, vol.geo.rootDirCluster, true, true, st, d, next, hops, miss)
    ensures !(vol.geo.fatBits == 32 && d0.currentCluster < 2) ==>
              Looked(vol.View(), vol.Table(), vol.geo, path, d0.startCluster, Positioned(vol.Table(), vol.geo, d0),
                     true, st, d, next, hops, miss)
  {
    var d1, s1 := d0, s0;
    if vol.geo.fatBits == 32 && d0.currentCluster < 2 {
      d1, s1 := Open(vol.geo.rootDirCluster), Cleared();
    }
    st, d, s, next, hops, miss := Descend(vol, path, d1, s1, true);
  }
}
