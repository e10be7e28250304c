/**
  A transaction with a collection in the middle: writes, a new live root, garbage collection,
  further writes over what it freed, and the commit, with power failing anywhere.
*/
module Interleaved {
  import opened Bytes
  import opened Arith
  import opened Format
  import opened Space
  import opened Device
  import opened BlockTree
  import opened Content
  import opened Election
  import opened Engine
  import opened PowerLoss
  import opened Gc
  import opened Reach
  import opened Reclaim
  import opened Crash

  /** What the committed root and the committed snapshot table reach. */
  ghost predicate Committable(g: Geometry, img: seq<byte>, root: ObjRef, table: ObjRef, o: ObjRef)
    requires g.Valid()
  {
    Reached(g, img, root, o) || TableReached(g, img, table, o)
  }

  /** The elements at the places given, as far as there are such places. */
  function Chosen<T>(s: seq<T>, places: seq<nat>): (r: seq<T>)
    ensures forall k :: 0 <= k < |r| ==> r[k] in s
    decreases |places|
  {
    if places == [] then []
    else
      var rest := Chosen(s, places[..|places| - 1]);
      if places[|places| - 1] < |s| then rest + [s[places[|places| - 1]]] else rest
  }

  lemma {:induction false} ChosenHas<T>(s: seq<T>, places: seq<nat>, place: nat)
    requires place in places && place < |s|
    ensures s[place] in Chosen(s, places)
    decreases |places|
  {
    var n := |places| - 1;
    if places[n] != place {
      assert place in places[..n];
      ChosenHas(s, places[..n], place);
    }
  }

  lemma {:induction false} ChosenHeld(g: Geometry, img: seq<byte>, s: Space, objs: seq<ObjRef>, contents: seq<seq<byte>>, places: seq<nat>)
    requires g.Valid() && |objs| == |contents|
    requires forall k :: 0 <= k < |places| && places[k] < |objs| ==> HeldAt(g, img, s, objs[places[k]], contents[places[k]])
    ensures AllHeld(g, img, s, Chosen(objs, places), Chosen(contents, places))
    decreases |places|
  {
    hide HeldAt;
    if places != [] { ChosenHeld(g, img, s, objs, contents, places[..|places| - 1]); }
  }

  /** Whatever the first writes make of the image: the roots then reach only objects the run
      knows of, and the objects it goes on with are among what they reach. */
  ghost predicate Disciplined(g: Geometry, img: seq<byte>, s: Space, objs: seq<ObjRef>, contents: seq<seq<byte>>,
                              first: seq<WriteOp>, point: nat, keep: seq<nat>, roots: Roots)
    requires g.Valid()
  {
    forall img', s', known, done {:trigger Evolves(img, s, img', s'), AllHeld(g, img', s', known, Replayed(contents, first, done))} ::
      |done| == |first| && objs <= known && Evolves(img, s, img', s') && AllHeld(g, img', s', known, Replayed(contents, first, done)) ==>
        Knows(g, img', known, keep, roots.(live := Published(known, point, roots.live)))
  }

  ghost predicate Knows(g: Geometry, img: seq<byte>, known: seq<ObjRef>, keep: seq<nat>, roots: Roots)
    requires g.Valid()
  {
    && (forall o :: Live(g, img, roots, o) ==> o in known)
    && forall k :: 0 <= k < |keep| && keep[k] < |known| ==> Live(g, img, roots, known[keep[k]])
  }

  /** A run that points the root at nothing new, and knows all that is on disk, is disciplined. */
  lemma QuietDiscipline(g: Geometry, img: seq<byte>, s: Space, objs: seq<ObjRef>, contents: seq<seq<byte>>,
                        first: seq<WriteOp>, point: nat, root: ObjRef, table: ObjRef)
    requires g.Valid() && AllHeld(g, img, s, objs, contents) && point >= |objs| + |first|
    requires forall o :: o in objs <==> Committable(g, img, root, table, o)
    ensures Disciplined(g, img, s, objs, contents, first, point, [point], Roots(root, root, table, table))
  {
    hide AllHeld, Evolves, Live, Replayed, Committable;
    var roots := Roots(root, root, table, table);
    forall img', s', known, done | |done| == |first| && objs <= known && Evolves(img, s, img', s')
                                   && AllHeld(g, img', s', known, Replayed(contents, first, done))
      ensures Knows(g, img', known, [point], roots.(live := Published(known, point, roots.live)))
    {
      HeldLengths(g, img, s, objs, contents);
      HeldLengths(g, img', s', known, Replayed(contents, first, done));
      ReplayedLength(contents, first, done);
      BothHold(g, img, s, img', s', objs, contents, known, Replayed(contents, first, done));
      forall o | Live(g, img', roots, o)
        ensures o in known
      {
        LiveOnDisk(g, img, img', objs, root, table, o);
      }
    }
  }

  lemma {:induction false} ReplayedLength(contents: seq<seq<byte>>, ops: seq<WriteOp>, done: seq<bool>)
    requires |done| == |ops|
    ensures |Replayed(contents, ops, done)| <= |contents| + |ops|
    decreases |ops|
  {
    hide Content.Written;
    if ops != [] { ReplayedLength(contents, ops[..|ops| - 1], done[..|ops| - 1]); }
  }

  /** What is live on the later image with nothing new pointed at was on disk before. */
  lemma LiveOnDisk(g: Geometry, a: seq<byte>, b: seq<byte>, objs: seq<ObjRef>, root: ObjRef, table: ObjRef, o: ObjRef)
    requires g.Valid() && HeldOnBoth(g, a, b, objs) && forall x :: x in objs <==> Committable(g, a, root, table, x)
    requires Live(g, b, Roots(root, root, table, table), o)
    ensures o in objs
  {
    hide Reached, SameContent, SnapshotRoots;
    LiveFrom(g, b, Roots(root, root, table, table), o);
    assert forall x :: Reached(g, a, root, x) ==> Committable(g, a, root, table, x);
    TreeSame(g, a, b, objs, root, o);
    if o != table && !Reached(g, b, root, o) {
      assert Committable(g, a, root, table, table);
      SameSnapshots(g, a, b, table);
      var top :| top in SnapshotRoots(g, b, table) && Reached(g, b, top, o);
      forall x | Reached(g, a, top, x)
        ensures x in objs
      {
        AmongRoots(g, a, SnapshotRoots(g, a, table), top, x);
        assert Committable(g, a, root, table, x);
      }
      TreeSame(g, a, b, objs, top, o);
    } else if o == table {
      assert Committable(g, a, root, table, table);
    }
  }

  /** Everything of the list has one content on both images. */
  ghost predicate HeldOnBoth(g: Geometry, a: seq<byte>, b: seq<byte>, objs: seq<ObjRef>)
    requires g.Valid()
  {
    forall o :: o in objs ==> SameContent(g, a, b, o)
  }

  lemma BothHold(g: Geometry, a: seq<byte>, s: Space, b: seq<byte>, s': Space, objs: seq<ObjRef>, contents: seq<seq<byte>>,
                 known: seq<ObjRef>, after: seq<seq<byte>>)
    requires g.Valid() && AllHeld(g, a, s, objs, contents) && AllHeld(g, b, s', known, after)
    requires objs <= known && contents <= after
    ensures HeldOnBoth(g, a, b, objs)
  {
    hide AllHeld, Geometry.Holds;
    forall o | o in objs
      ensures SameContent(g, a, b, o)
    {
      var i :| 0 <= i < |objs| && objs[i] == o;
      HeldOne(g, a, s, objs, contents, i);
      HeldOne(g, b, s', known, after, i);
    }
  }

  lemma TreeSame(g: Geometry, a: seq<byte>, b: seq<byte>, objs: seq<ObjRef>, root: ObjRef, o: ObjRef)
    requires g.Valid() && HeldOnBoth(g, a, b, objs)
    requires forall x :: Reached(g, a, root, x) ==> x in objs
    ensures Reached(g, a, root, o) <==> Reached(g, b, root, o)
  {
    hide Reached, SameContent, DirAt;
    forall q | DirAt(g, a, root, q).Some?
      ensures SameContent(g, a, b, DirAt(g, a, root, q).value)
    {
      DirReached(g, a, root, q);
    }
    SameReached(g, a, b, root, o);
  }

  lemma SameSnapshots(g: Geometry, a: seq<byte>, b: seq<byte>, table: ObjRef)
    requires g.Valid() && SameContent(g, a, b, table)
    ensures SnapshotRoots(g, a, table) == SnapshotRoots(g, b, table)
  {
    hide Geometry.Holds, ReadWhole;
    var c :| g.Holds(a, table, c) && g.Holds(b, table, c);
    HeldReadsWhole(g, a, table, c);
    HeldReadsWhole(g, b, table, c);
  }

  /** What is on disk is still reached after writes that keep it. */
  lemma CommittableStays(g: Geometry, a: seq<byte>, b: seq<byte>, objs: seq<ObjRef>, root: ObjRef, table: ObjRef, o: ObjRef)
    requires g.Valid() && HeldOnBoth(g, a, b, objs)
    requires forall x :: Committable(g, a, root, table, x) ==> x in objs
    requires Committable(g, a, root, table, o)
    ensures Committable(g, b, root, table, o)
  {
    hide Reached, SameContent, SnapshotRoots;
    forall x | Reached(g, a, root, x)
      ensures x in objs
    {
      assert Committable(g, a, root, table, x);
    }
    TreeSame(g, a, b, objs, root, o);
    if TableReached(g, a, table, o) && o != table {
      assert TableReached(g, a, table, table);
      SameSnapshots(g, a, b, table);
      var roots := SnapshotRoots(g, a, table);
      var i :| 0 <= i < |roots| && Reached(g, a, roots[i], o);
      forall x | Reached(g, a, roots[i], x)
        ensures x in objs
      {
        assert AnyReached(g, a, roots, x);
        assert Committable(g, a, root, table, x);
      }
      TreeSame(g, a, b, objs, roots[i], o);
      assert AnyReached(g, b, roots, o);
    }
  }

  lemma CommittableLive(g: Geometry, img: seq<byte>, roots: Roots, o: ObjRef)
    requires g.Valid() && Committable(g, img, roots.committed, roots.committedTable, o)
    ensures Live(g, img, roots, o)
  {
    hide Reached, SnapshotRoots;
    AllLive(g, img, roots);
  }

  /** A held object that stays out of reach stays held. */
  lemma HeldStays(g: Geometry, img: seq<byte>, s: Space, after: Space, o: ObjRef, c: seq<byte>)
    requires g.Valid() && HeldAt(g, img, s, o, c) && Stays(g, img, s, after, o)
    ensures HeldAt(g, img, after, o, c)
  {
    hide Geometry.Holds, Geometry.Kept, TreeRetained, Geometry.DistinctAddrs;
    HeldCollects(g, img, o, c);
    KeptTree(g, img, s, o);
    KeptTree(g, img, after, o);
  }

  lemma HeldCollects(g: Geometry, img: seq<byte>, o: ObjRef, c: seq<byte>)
    requires g.Valid() && g.Holds(img, o, c)
    ensures g.Collects(img, o)
  {
  }

  lemma HeldTogether(g: Geometry, img: seq<byte>, s: Space, a: seq<ObjRef>, ca: seq<seq<byte>>, b: seq<ObjRef>, cb: seq<seq<byte>>)
    requires g.Valid() && AllHeld(g, img, s, a, ca) && AllHeld(g, img, s, b, cb)
    ensures AllHeld(g, img, s, a + b, ca + cb)
  {
    hide HeldAt;
  }

  /** After a collection in which all that is live was known and held: the space is sound, and
      what was on disk and what was chosen is still held. */
  lemma GoesOn(g: Geometry, img: seq<byte>, s: Space, after: Space, roots: Roots, objs: seq<ObjRef>, contents: seq<seq<byte>>,
               known: seq<ObjRef>, knownContents: seq<seq<byte>>, keep: seq<nat>)
    requires g.Valid() && AllHeld(g, img, s, known, knownContents) && objs <= known && contents <= knownContents
    requires |objs| == |contents| && Knows(g, img, known, keep, roots)
    requires forall o :: o in objs ==> Live(g, img, roots, o)
    requires forall o :: Live(g, img, roots, o) ==> Stays(g, img, s, after, o)
    ensures AllHeld(g, img, after, objs + Chosen(known, keep), contents + Chosen(knownContents, keep))
  {
    hide Live, Stays, HeldAt;
    assert |known| == |knownContents|;
    forall k | 0 <= k < |keep| && keep[k] < |known|
      ensures HeldAt(g, img, after, known[keep[k]], knownContents[keep[k]])
    {
      HeldStays(g, img, s, after, known[keep[k]], knownContents[keep[k]]);
    }
    ChosenHeld(g, img, after, known, knownContents, keep);
    forall i | 0 <= i < |objs|
      ensures HeldAt(g, img, after, objs[i], contents[i])
    {
      assert HeldAt(g, img, s, known[i], knownContents[i]);
      HeldStays(g, img, s, after, objs[i], contents[i]);
    }
    HeldTogether(g, img, after, objs, contents, Chosen(known, keep), Chosen(knownContents, keep));
  }

  /** Steps that write nothing of an object leave it as far out of reach of any other space. */
  lemma SurvivesIn(g: Geometry, img: seq<byte>, s: Space, img': seq<byte>, s': Space, t: Space, o: ObjRef, c: seq<byte>)
    requires g.Valid() && Evolves(img, s, img', s') && HeldAt(g, img, s, o, c) && HeldAt(g, img, t, o, c)
    ensures HeldAt(g, img', t, o, c)
  {
    hide Evolves, Geometry.Flatten, TreeRetained, Geometry.DistinctAddrs, Geometry.LeavesHold;
    ObjectSurvives(g, img, s, img', s', o, c);
    HeldCollects(g, img, o, c);
    HeldCollects(g, img', o, c);
    SameBlocks(g, img, s, img', s', o, c);
    KeptTree(g, img, t, o);
    KeptTree(g, img', t, o);
    CollectsMarkable(g, img, o);
    CollectsMarkable(g, img', o);
  }

  lemma SameBlocks(g: Geometry, img: seq<byte>, s: Space, img': seq<byte>, s': Space, o: ObjRef, c: seq<byte>)
    requires g.Valid() && Evolves(img, s, img', s') && HeldAt(g, img, s, o, c)
    ensures TreeOf(g, img', o) == TreeOf(g, img, o)
  {
    hide Evolves, Geometry.Flatten, Geometry.Retained, Geometry.DistinctAddrs, Geometry.LeavesHold;
    if o.size > 0 {
      assert DivCeil(|c|, g.blockSize) > 0;
      FlattenFrame(g, img, s, img', s', o.root, o.level);
    }
  }

  lemma AllSurviveIn(g: Geometry, img: seq<byte>, s: Space, img': seq<byte>, s': Space, t: Space,
                     objs: seq<ObjRef>, contents: seq<seq<byte>>)
    requires g.Valid() && Evolves(img, s, img', s') && AllHeld(g, img, s, objs, contents) && AllHeld(g, img, t, objs, contents)
    ensures AllHeld(g, img', t, objs, contents)
  {
    hide Evolves, HeldAt;
    forall i | 0 <= i < |objs|
      ensures HeldAt(g, img', t, objs[i], contents[i])
    {
      SurvivesIn(g, img, s, img', s', t, objs[i], contents[i]);
    }
  }

  /** What either space may hand out. */
  function Both(s: Space, t: Space): Space {
    s.(free := s.free + t.free)
  }

  lemma BothAvailable(s: Space, t: Space, x: int)
    requires s.frontier <= t.frontier && s.deviceSize == t.deviceSize
    ensures Both(s, t).Available(x) <==> s.Available(x) || t.Available(x)
  {
    var both := s.free + t.free;
    if Covered(both, x) {
      var i :| Covers(both, i, x);
      if i < |s.free| { assert Covers(s.free, i, x); } else { assert Covers(t.free, i - |s.free|, x); }
    }
    if Covered(s.free, x) {
      var i :| Covers(s.free, i, x);
      assert Covers(both, i, x);
    }
    if Covered(t.free, x) {
      var i :| Covers(t.free, i, x);
      assert Covers(both, |s.free| + i, x);
    }
  }

  lemma HeldBoth(g: Geometry, img: seq<byte>, s: Space, t: Space, objs: seq<ObjRef>, contents: seq<seq<byte>>)
    requires g.Valid() && AllHeld(g, img, s, objs, contents) && AllHeld(g, img, t, objs, contents)
    requires s.frontier <= t.frontier && s.deviceSize == t.deviceSize
    ensures AllHeld(g, img, Both(s, t), objs, contents)
  {
    hide Geometry.Holds, Geometry.Collects, Geometry.Leaves, Geometry.Flatten, Space.Available, Geometry.DistinctAddrs, Geometry.Placed;
    forall x
      ensures Both(s, t).Available(x) <==> s.Available(x) || t.Available(x)
    {
      BothAvailable(s, t, x);
    }
    forall i | 0 <= i < |objs|
      ensures HeldAt(g, img, Both(s, t), objs[i], contents[i])
    {
      assert HeldAt(g, img, s, objs[i], contents[i]) && HeldAt(g, img, t, objs[i], contents[i]);
    }
  }

  /** A collection that hands out more leaves the device safe for what is held either way. */
  lemma SafeWider(g: Geometry, d: Moment, now: Space, s: Space, t: Space, objs: seq<ObjRef>, contents: seq<seq<byte>>)
    requires g.Valid() && Safe(g, d, now, s, objs, contents) && AllHeld(g, d.img, t, objs, contents)
    requires s.Valid() && t.Valid() && s.frontier <= t.frontier && s.deviceSize == t.deviceSize
    ensures Safe(g, d, t, Both(s, t), objs, contents)
  {
    hide AllHeld, Space.Available, Touched, Space.Valid;
    HeldBoth(g, d.img, s, t, objs, contents);
    AvailableData(s);
    AvailableData(t);
    forall x
      ensures Both(s, t).Available(x) <==> s.Available(x) || t.Available(x)
    {
      BothAvailable(s, t, x);
    }
  }

  /** The state a collection found and the space it left. */
  datatype Pause = Pause(img: seq<byte>, before: Space, after: Space, roots: Roots)

  /**
    Writes, a new live root, a collection that hands out again what nothing live uses, further
    writes over it, and a commit; power may fail anywhere. The image then elects the
    transaction that was committed before, or the new one, the new one for certain after
    success; all that was on disk holds its exact content in either case; and the new root
    holds exactly what the successful writes of both rounds made of it.
  */
  method CollectingTransaction(fs: Eofs, first: seq<WriteOp>, point: nat, keep: seq<nat>, second: seq<WriteOp>, root: nat,
                               objs: seq<ObjRef>, ghost contents: seq<seq<byte>>, ghost u: Uberblock)
    returns (r: Result<u64>, objs': seq<ObjRef>, early: seq<bool>, late: seq<bool>, ghost contents': seq<seq<byte>>,
             ghost pause: Pause, ghost mid: seq<byte>, ghost power: Power, ghost next: Uberblock)
    requires fs.Valid() && fs.OnDisk(u) && fs.committedTxg < U64_MAX && point in keep
    requires AllHeld(fs.geo, fs.Img(), fs.Sp(), objs, contents) && Safe(fs.geo, fs.dev.Now(), fs.Sp(), fs.Sp(), objs, contents)
    requires forall o :: o in objs <==> Committable(fs.geo, fs.Img(), fs.committedLiveRoot, fs.committedSnapshots, o)
    requires Disciplined(fs.geo, fs.Img(), fs.Sp(), objs, contents, first, point, keep,
                         Roots(fs.committedLiveRoot, fs.liveRoot, fs.committedSnapshots, fs.snapshots))
    modifies fs, fs.dev, fs.dev.inner.data, fs.alloc
    // What the writes did, and what the collection between them freed.
    ensures |early| == |first| && |late| == |second| && |objs| == |contents|
    ensures contents' == Replayed(contents + Chosen(Replayed(contents, first, early), keep), second, late)
    ensures fs.Valid() && AllHeld(fs.geo, mid, fs.Sp(), objs', contents') && objs <= objs' && contents <= contents'
    ensures Evolves(old(fs.Img()), old(fs.Sp()), pause.img, pause.before) && Evolves(pause.img, pause.after, mid, fs.Sp())
    ensures Sound(fs.geo, pause.img, pause.roots) ==>
              exists live :: (forall o :: o in live <==> Live(fs.geo, pause.img, pause.roots, o))
                             && Freed(fs.geo, pause.img, live, pause.before, pause.after)
    // What the commit was to publish.
    ensures next == Uberblock(fs.geo.blockSize, fs.geo.allocUnit, fs.geo.codec, old(fs.committedTxg) + 1, fs.Sp().frontier,
                              fs.formatDeviceSize, Published(objs', root, pause.roots.live), old(fs.snapshots))
    ensures pause.roots.live == old(fs.liveRoot) || pause.roots.live in objs'
    ensures root < |objs'| ==> fs.geo.Holds(fs.Img(), next.liveRoot, contents'[root])
    // What was on disk is no nearer to any space than it was.
    ensures forall t {:trigger AllHeld(fs.geo, mid, t, objs, contents)} ::
              AllHeld(fs.geo, old(fs.Img()), t, objs, contents) ==> AllHeld(fs.geo, mid, t, objs, contents)
    ensures forall i :: 0 <= i < |objs| ==> fs.geo.Holds(fs.Img(), objs[i], contents[i])
    // What is on the device, commit or crash.
    ensures r.Ok? && root < |objs'| ==> fs.OnDisk(next) && Elect(fs.geo.prims, fs.Img()) == Some(next)
    ensures r.Err? ==> r.error == Device(Io) && fs.dev.dead
    ensures NoAccidents(fs.geo.prims, next, old(Slot(fs.Img(), SlotOf(fs.committedTxg + 1)))) ==>
              (Elect(fs.geo.prims, fs.Img()) == Some(u) || Elect(fs.geo.prims, fs.Img()) == Some(next))
    ensures Slot(mid, 0) == old(Slot(fs.Img(), 0)) && Slot(mid, 1) == old(Slot(fs.Img(), 1))
    ensures fs.Img() == mid || fs.Img() == AfterCommit(fs.geo.prims, mid, power, next)
    // What is left when the device loses any of what was not flushed, and nothing after success.
    ensures AllHeld(fs.geo, mid, Both(old(fs.Sp()), pause.after), objs, contents)
    ensures Withstands(fs.geo, u, next, Both(old(fs.Sp()), pause.after), objs, contents, fs.Sp(), objs', contents', mid, fs.dev.cache)
    ensures r.Ok? && root < |objs'| ==> fs.dev.cache == Cache(fs.Img(), [])
  {
    hide Evolves, Geometry.Holds, Geometry.Kept, AllHeld, Space.Valid, Uberblock.ClassifySlot, NoAccidents, Elect, Slot, Steady,
      Committed, Replayed, AfterCommit, Live, LiveRetained, Sound, Freed, Reached, SnapshotRoots, Stays, Committable, Disciplined, Knows,
      Safe, Withstands, Both, HeldOnBoth, Chosen;
    ghost var g, img, s := fs.geo, fs.Img(), fs.Sp();
    ghost var roots := Roots(fs.committedLiveRoot, fs.liveRoot, fs.committedSnapshots, fs.snapshots);
    HeldLengths(g, img, s, objs, contents);
    var known;
    ghost var knownContents;
    known, early, knownContents := Replay(fs, first, objs, contents);
    SlotsSteady(old(fs.dev.Now()), s, fs.dev.Now(), g.prims, u);
    SafeStays(g, old(fs.dev.Now()), s, fs.dev.Now(), fs.Sp(), s, objs, contents);
    assert Knows(g, fs.Img(), known, keep, roots.(live := Published(known, point, roots.live))) by {
      DisciplineKnows(g, img, s, objs, contents, first, point, keep, roots, fs.Img(), fs.Sp(), known, early);
    }
    if point < |known| {
      fs.liveRoot, fs.dirty := known[point], true;
    }
    ghost var now := Roots(fs.committedLiveRoot, fs.liveRoot, fs.committedSnapshots, fs.snapshots);
    ghost var img1, s1 := fs.Img(), fs.Sp();
    BothHold(g, img, s, img1, s1, objs, contents, known, knownContents);
    forall o | o in objs
      ensures Live(g, img1, now, o)
    {
      CommittableStays(g, img, img1, objs, now.committed, now.committedTable, o);
      CommittableLive(g, img1, now, o);
    }
    KnowsRetained(g, img1, s1, now, known, knownContents, keep);
    var outcome, live := CollectGarbage(fs);
    forall o | Live(g, img1, now, o)
      ensures Stays(g, img1, s1, fs.Sp(), o)
    {
      LiveFrom(g, img1, now, o);
    }
    pause := Pause(img1, s1, fs.Sp(), now);
    if point < |known| { ChosenHas(known, keep, point); }
    if Sound(g, img1, now) { FreedSound(g, img1, live, s1, fs.Sp()); }
    GoesOn(g, img1, s1, fs.Sp(), now, objs, contents, known, knownContents, keep);
    assert now.live == old(fs.liveRoot) || now.live in objs + Chosen(known, keep);
    ghost var list, listContents := objs + Chosen(known, keep), contents + Chosen(knownContents, keep);
    FirstHeld(g, img1, fs.Sp(), objs, contents, list, listContents);
    FrontierKept(img, s, img1, s1);
    SafeWider(g, fs.dev.Now(), s1, s, fs.Sp(), objs, contents);
    r, objs', late, contents', mid, power, next :=
      Transaction(fs, second, objs + Chosen(known, keep), contents + Chosen(knownContents, keep), root, u,
                  Both(s, pause.after), objs, contents);
    forall t | AllHeld(g, img, t, objs, contents)
      ensures AllHeld(g, mid, t, objs, contents)
    {
      AllSurviveIn(g, img, s, img1, s1, t, objs, contents);
      AllSurviveIn(g, img1, pause.after, mid, fs.Sp(), t, objs, contents);
    }
  }

  lemma FrontierKept(img: seq<byte>, s: Space, img': seq<byte>, s': Space)
    requires Evolves(img, s, img', s')
    ensures s.frontier <= s'.frontier && s.deviceSize == s'.deviceSize
  {
    hide Space.Available;
  }

  lemma FirstHeld(g: Geometry, img: seq<byte>, s: Space, objs: seq<ObjRef>, contents: seq<seq<byte>>,
                  list: seq<ObjRef>, listContents: seq<seq<byte>>)
    requires g.Valid() && AllHeld(g, img, s, list, listContents) && |objs| == |contents| && objs <= list && contents <= listContents
    ensures AllHeld(g, img, s, objs, contents)
  {
    hide HeldAt;
    forall i | 0 <= i < |objs|
      ensures HeldAt(g, img, s, objs[i], contents[i])
    {
      assert HeldAt(g, img, s, list[i], listContents[i]);
    }
  }

  lemma DisciplineKnows(g: Geometry, img: seq<byte>, s: Space, objs: seq<ObjRef>, contents: seq<seq<byte>>, first: seq<WriteOp>,
                        point: nat, keep: seq<nat>, roots: Roots, img': seq<byte>, s': Space, known: seq<ObjRef>, done: seq<bool>)
    requires g.Valid() && Disciplined(g, img, s, objs, contents, first, point, keep, roots)
    requires |done| == |first| && objs <= known && Evolves(img, s, img', s') && AllHeld(g, img', s', known, Replayed(contents, first, done))
    ensures Knows(g, img', known, keep, roots.(live := Published(known, point, roots.live)))
  {
    hide Knows, AllHeld, Evolves, Replayed;
  }

  lemma KnowsRetained(g: Geometry, img: seq<byte>, s: Space, roots: Roots, known: seq<ObjRef>, contents: seq<seq<byte>>, keep: seq<nat>)
    requires g.Valid() && AllHeld(g, img, s, known, contents) && Knows(g, img, known, keep, roots)
    ensures LiveRetained(g, img, s, roots)
  {
    hide AllHeld, Live, LiveRetained;
    HeldRetained(g, img, s, roots, known, contents);
  }

  lemma FreedSound(g: Geometry, img: seq<byte>, objs: seq<ObjRef>, before: Space, after: Space)
    requires g.Valid() && Freed(g, img, objs, before, after)
    ensures after.Valid() && after.unit == before.unit && after.deviceSize == before.deviceSize
  {
    hide Space.Valid;
  }
}
