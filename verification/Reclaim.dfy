/**
  Garbage collection from the roots: the committed and the pending root, every snapshot in
  both tables, and what all of them reach. Everything else below the frontier becomes free.
*/
module Reclaim {
  import opened Bytes
  import opened Format
  import opened Space
  import opened BlockTree
  import opened Content
  import opened Engine
  import opened Gc
  import opened Reach
  import Dir = Directory

  // ----- snapshot tables -----

  /** How marking, reading and parsing a snapshot table ends. */
  ghost function VisitTable(g: Geometry, img: seq<byte>, table: ObjRef): Reading<()>
    requires g.Valid()
  {
    if Markable(g, img, table).Err? then Finished(Markable(g, img, table))
    else
      match ReadWhole(g, img, table)
      case Panics => Panics
      case Spins => Spins
      case Finished(Err(e)) => Finished(Err(e))
      case Finished(Ok(bytes)) =>
        match Dir.ParsedSnapshots(bytes)
        case Err(e) => Finished(Err(e))
        case Ok(_) => Finished(Ok(()))
  }

  function RootsOf(es: seq<Dir.SnapEntry>): (roots: seq<ObjRef>)
    ensures |roots| == |es| && forall i :: 0 <= i < |es| ==> roots[i] == es[i].root
  {
    seq(|es|, i requires 0 <= i < |es| => es[i].root)
  }

  /** The roots of the snapshots in a table; none if it cannot be read. */
  ghost function SnapshotRoots(g: Geometry, img: seq<byte>, table: ObjRef): seq<ObjRef>
    requires g.Valid()
  {
    var whole := ReadWhole(g, img, table);
    if whole.Finished? && whole.r.Ok? && Dir.ParsedSnapshots(whole.r.value).Ok?
    then RootsOf(Dir.ParsedSnapshots(whole.r.value).value) else []
  }

  ghost predicate AnyReached(g: Geometry, img: seq<byte>, roots: seq<ObjRef>, o: ObjRef)
    requires g.Valid()
  {
    exists i :: 0 <= i < |roots| && Reached(g, img, roots[i], o)
  }

  ghost predicate AllWalkable(g: Geometry, img: seq<byte>, roots: seq<ObjRef>)
    requires g.Valid()
  {
    forall i :: 0 <= i < |roots| ==> Walkable(g, img, roots[i])
  }

  // ----- marking from the roots -----

  /** Marks what each root reaches. */
  method MarkRoots(fs: Eofs, roots: seq<ObjRef>) returns (r: Reading<()>, marks: seq<Extent>, ghost objs: seq<ObjRef>)
    requires fs.geo.Valid()
    ensures r == Finished(Ok(())) <==> AllWalkable(fs.geo, fs.Img(), roots)
    ensures r == Finished(Ok(())) ==>
      && MarksOf(fs.geo, TreesOf(fs.geo, fs.Img(), objs), marks)
      && forall o :: o in objs <==> AnyReached(fs.geo, fs.Img(), roots, o)
  {
    hide Walkable, Reached, MarksOf, TreesOf, Stops;
    ghost var g, img := fs.geo, fs.Img();
    marks, objs := [], [];
    NothingMarked(g, img);
    for k := 0 to |roots|
      invariant forall i :: 0 <= i < k ==> Walkable(g, img, roots[i])
      invariant MarksOf(g, TreesOf(g, img, objs), marks)
      invariant forall o :: o in objs <==> exists i :: 0 <= i < k && Reached(g, img, roots[i], o)
    {
      var one, own, more := MarkDirTree(fs, roots[k]);
      if one != Finished(Ok(())) { return one, marks, objs; }
      TreesJoin(g, img, objs, more);
      MarksJoin(g, TreesOf(g, img, objs), TreesOf(g, img, more), marks, own);
      marks, objs := marks + own, objs + more;
    }
    r := Finished(Ok(()));
  }

  /** The table is sound, and so is every snapshot in it. */
  ghost predicate TableWalkable(g: Geometry, img: seq<byte>, table: ObjRef)
    requires g.Valid()
  {
    VisitTable(g, img, table) == Finished(Ok(())) && AllWalkable(g, img, SnapshotRoots(g, img, table))
  }

  /** The table itself, or something one of its snapshots reaches. */
  ghost predicate TableReached(g: Geometry, img: seq<byte>, table: ObjRef, o: ObjRef)
    requires g.Valid()
  {
    o == table || AnyReached(g, img, SnapshotRoots(g, img, table), o)
  }

  /** Marks a snapshot table and what its snapshots reach. */
  method MarkTable(fs: Eofs, table: ObjRef) returns (r: Reading<()>, marks: seq<Extent>, ghost objs: seq<ObjRef>)
    requires fs.geo.Valid()
    ensures r == Finished(Ok(())) <==> TableWalkable(fs.geo, fs.Img(), table)
    ensures r == Finished(Ok(())) ==>
      && MarksOf(fs.geo, TreesOf(fs.geo, fs.Img(), objs), marks)
      && forall o :: o in objs <==> TableReached(fs.geo, fs.Img(), table, o)
  {
    hide AllWalkable, AnyReached, MarksOf, TreesOf, TreeOf, Markable, ReadWhole, Dir.ParsedSnapshots;
    var img := fs.dev.inner.data[..];
    ghost var g := fs.geo;
    marks, objs := [], [];
    var one, own := MarkObject(fs.geo, img, table);
    if one.Err? { return Finished(one), marks, objs; }
    var whole := fs.ReadObject(table);
    match whole
    case Panics => return Panics, marks, objs;
    case Spins => return Spins, marks, objs;
    case Finished(Err(e)) => return Finished(Err(e)), marks, objs;
    case Finished(Ok(bytes)) =>
      var parsed := Dir.ParseSnapshots(bytes);
      if parsed.Err? { return Finished(Err(parsed.error)), marks, objs; }
      var roots := RootsOf(parsed.value);
      assert roots == SnapshotRoots(g, img, table);
      r, marks, objs := MarkRoots(fs, roots);
      if r == Finished(Ok(())) {
        OneTree(g, img, table);
        TreesJoin(g, img, [table], objs);
        MarksJoin(g, TreeOf(g, img, table), TreesOf(g, img, objs), own, marks);
        objs := [table] + objs;
      }
      marks := own + marks;
  }

  /** Where a collection starts. */
  datatype Roots = Roots(committed: ObjRef, live: ObjRef, committedTable: ObjRef, table: ObjRef)

  ghost predicate Sound(g: Geometry, img: seq<byte>, roots: Roots)
    requires g.Valid()
  {
    && AllWalkable(g, img, [roots.committed, roots.live])
    && TableWalkable(g, img, roots.committedTable) && TableWalkable(g, img, roots.table)
  }

  /** Some retained root reaches the object. */
  ghost predicate Live(g: Geometry, img: seq<byte>, roots: Roots, o: ObjRef)
    requires g.Valid()
  {
    || AnyReached(g, img, [roots.committed, roots.live], o)
    || TableReached(g, img, roots.committedTable, o) || TableReached(g, img, roots.table, o)
  }

  method MarkLive(fs: Eofs) returns (r: Reading<()>, marks: seq<Extent>, ghost objs: seq<ObjRef>)
    requires fs.geo.Valid()
    ensures var roots := Roots(fs.committedLiveRoot, fs.liveRoot, fs.committedSnapshots, fs.snapshots);
      && (r == Finished(Ok(())) <==> Sound(fs.geo, fs.Img(), roots))
      && (r == Finished(Ok(())) ==>
           && MarksOf(fs.geo, TreesOf(fs.geo, fs.Img(), objs), marks)
           && forall o :: o in objs <==> Live(fs.geo, fs.Img(), roots, o))
  {
    hide AllWalkable, AnyReached, TableWalkable, TableReached, MarksOf, TreesOf;
    ghost var g, img := fs.geo, fs.Img();
    r, marks, objs := MarkRoots(fs, [fs.committedLiveRoot, fs.liveRoot]);
    if r != Finished(Ok(())) { return; }
    var tables := [fs.committedSnapshots, fs.snapshots];
    ghost var first := objs;
    for k := 0 to 2
      invariant forall i :: 0 <= i < k ==> TableWalkable(g, img, tables[i])
      invariant MarksOf(g, TreesOf(g, img, objs), marks)
      invariant forall o :: o in objs <==> o in first || exists i :: 0 <= i < k && TableReached(g, img, tables[i], o)
    {
      var one, own, more := MarkTable(fs, tables[k]);
      if one != Finished(Ok(())) { return one, marks, objs; }
      TreesJoin(g, img, objs, more);
      MarksJoin(g, TreesOf(g, img, objs), TreesOf(g, img, more), marks, own);
      marks, objs := marks + own, objs + more;
    }
    assert tables[0] == fs.committedSnapshots && tables[1] == fs.snapshots;
  }

  // ----- the collection -----

  /** `Overflowing`: the end of some mark passes the largest address. */
  datatype Outcome = Swept | Stopped(why: Reading<()>) | Overflowing

  method Within64(marks: seq<Extent>) returns (ok: bool)
    ensures ok <==> Bounded64(marks)
  {
    ok := forall i :: 0 <= i < |marks| ==> marks[i].addr + marks[i].len <= U64_MAX;
  }

  /** What every live object uses is out of the allocator's reach. */
  ghost predicate LiveRetained(g: Geometry, img: seq<byte>, s: Space, roots: Roots)
    requires g.Valid()
  {
    forall o :: Live(g, img, roots, o) ==> TreeRetained(g, s, TreeOf(g, img, o))
  }

  /**
    Deferred reclamation. It goes through exactly when everything the roots reach is sound,
    and otherwise leaves the allocator as it was. When what is live is retained, exactly the
    bytes below the frontier that nothing live uses become free.
  */
  method CollectGarbage(fs: Eofs) returns (r: Outcome, ghost objs: seq<ObjRef>)
    requires fs.Valid()
    modifies fs.alloc`free
    ensures var roots := Roots(fs.committedLiveRoot, fs.liveRoot, fs.committedSnapshots, fs.snapshots);
      var g, img := fs.geo, fs.Img();
      && (r.Stopped? <==> !Sound(g, img, roots))
      && (!r.Swept? ==> fs.Sp() == old(fs.Sp()))
      && fs.Sp() == old(fs.Sp()).(free := fs.Sp().free)
      && (Sound(g, img, roots) ==> forall o :: o in objs <==> Live(g, img, roots, o))
      && (Sound(g, img, roots) && LiveRetained(g, img, old(fs.Sp()), roots) ==>
           r.Swept? && Freed(g, img, objs, old(fs.Sp()), fs.Sp()))
    // Nothing that a root reaches is handed out, whatever else the image holds.
    ensures forall o :: Reached(fs.geo, fs.Img(), fs.liveRoot, o) ==> Stays(fs.geo, fs.Img(), old(fs.Sp()), fs.Sp(), o)
    ensures forall o :: Reached(fs.geo, fs.Img(), fs.committedLiveRoot, o) ==> Stays(fs.geo, fs.Img(), old(fs.Sp()), fs.Sp(), o)
    ensures forall root, o :: root in SnapshotRoots(fs.geo, fs.Img(), fs.snapshots) && Reached(fs.geo, fs.Img(), root, o) ==>
              Stays(fs.geo, fs.Img(), old(fs.Sp()), fs.Sp(), o)
    ensures forall root, o :: root in SnapshotRoots(fs.geo, fs.Img(), fs.committedSnapshots) && Reached(fs.geo, fs.Img(), root, o) ==>
              Stays(fs.geo, fs.Img(), old(fs.Sp()), fs.Sp(), o)
    ensures Stays(fs.geo, fs.Img(), old(fs.Sp()), fs.Sp(), fs.snapshots)
    ensures Stays(fs.geo, fs.Img(), old(fs.Sp()), fs.Sp(), fs.committedSnapshots)
  {
    hide Sound, Live, LiveRetained, MarksOf, TreesOf, Gaps, Bounded64, Space.Valid, AllMarksOk, Reclaimed, Freed, Stays, Reached,
      SnapshotRoots, Sorted;
    ghost var g, img, s := fs.geo, fs.Img(), fs.Sp();
    ghost var roots := Roots(fs.committedLiveRoot, fs.liveRoot, fs.committedSnapshots, fs.snapshots);
    var why, marks;
    why, marks, objs := MarkLive(fs);
    StaysPut(g, img, s);
    if why != Finished(Ok(())) { return Stopped(why), objs; }
    if LiveRetained(g, img, s, roots) { LiveMarksOk(g, img, s, roots, objs, marks); }
    var ok := Within64(marks);
    if !ok { return Overflowing, objs; }
    var sorted := Sweep(fs.alloc, marks);
    forall o | o in objs
      ensures Stays(g, img, s, fs.Sp(), o)
    {
      MarkedStays(g, img, s, objs, marks, sorted, o);
    }
    AllLive(g, img, roots);
    if LiveRetained(g, img, s, roots) { LiveFreed(g, img, objs, marks, s, fs.Sp()); }
    r := Swept;
  }

  /** The object's blocks are as far out of the allocator's reach as before. */
  ghost predicate Stays(g: Geometry, img: seq<byte>, before: Space, after: Space, o: ObjRef)
    requires g.Valid()
  {
    TreeRetained(g, before, TreeOf(g, img, o)) ==> TreeRetained(g, after, TreeOf(g, img, o))
  }

  lemma StaysPut(g: Geometry, img: seq<byte>, s: Space)
    requires g.Valid()
    ensures forall o :: Stays(g, img, s, s, o)
  {
    hide TreeRetained, TreeOf;
  }

  lemma {:induction false} TreeAmong(g: Geometry, img: seq<byte>, objs: seq<ObjRef>, o: ObjRef, p: BlockPtr)
    requires g.Valid() && o in objs && (p in TreeOf(g, img, o).leaves || p in TreeOf(g, img, o).indirect)
    ensures p in TreesOf(g, img, objs).leaves || p in TreesOf(g, img, objs).indirect
    decreases |objs|
  {
    hide TreeOf;
    var n := |objs| - 1;
    if o != objs[n] {
      assert o in objs[..n];
      TreeAmong(g, img, objs[..n], o, p);
    }
  }

  lemma MarkedStays(g: Geometry, img: seq<byte>, s: Space, objs: seq<ObjRef>, marks: seq<Extent>, sorted: seq<Extent>, o: ObjRef)
    requires g.Valid() && o in objs && MarksOf(g, TreesOf(g, img, objs), marks)
    requires multiset(sorted) == multiset(marks) && Sorted(sorted) && Bounded64(sorted)
    ensures Stays(g, img, s, s.(free := Gaps(sorted, DATA_START, s.frontier)), o)
  {
    hide TreesOf, TreeOf, Gaps, Sorted, Bounded64, HasMark, TreeRetained;
    var f := TreeOf(g, img, o);
    if TreeRetained(g, s, f) {
      forall p | p in f.leaves || p in f.indirect
        ensures HasMark(g, p, marks)
      {
        TreeAmong(g, img, objs, o, p);
      }
      SweepKeeps(g, s, f, marks, sorted);
    }
  }

  /** What the pending root, the committed root, and every snapshot of either table reach is
      live, and so are the tables. */
  lemma AllLive(g: Geometry, img: seq<byte>, roots: Roots)
    requires g.Valid()
    ensures forall o :: Reached(g, img, roots.live, o) || Reached(g, img, roots.committed, o) ==> Live(g, img, roots, o)
    ensures forall root, o :: root in SnapshotRoots(g, img, roots.table) && Reached(g, img, root, o) ==> Live(g, img, roots, o)
    ensures forall root, o :: root in SnapshotRoots(g, img, roots.committedTable) && Reached(g, img, root, o) ==> Live(g, img, roots, o)
    ensures Live(g, img, roots, roots.table) && Live(g, img, roots, roots.committedTable)
  {
    hide Reached, SnapshotRoots;
    assert [roots.committed, roots.live][0] == roots.committed && [roots.committed, roots.live][1] == roots.live;
    forall root, o | root in SnapshotRoots(g, img, roots.table) && Reached(g, img, root, o)
      ensures AnyReached(g, img, SnapshotRoots(g, img, roots.table), o)
    {
      AmongRoots(g, img, SnapshotRoots(g, img, roots.table), root, o);
    }
    forall root, o | root in SnapshotRoots(g, img, roots.committedTable) && Reached(g, img, root, o)
      ensures AnyReached(g, img, SnapshotRoots(g, img, roots.committedTable), o)
    {
      AmongRoots(g, img, SnapshotRoots(g, img, roots.committedTable), root, o);
    }
  }

  lemma AmongRoots(g: Geometry, img: seq<byte>, roots: seq<ObjRef>, root: ObjRef, o: ObjRef)
    requires g.Valid() && root in roots && Reached(g, img, root, o)
    ensures AnyReached(g, img, roots, o)
  {
    hide Reached;
    var i :| 0 <= i < |roots| && roots[i] == root;
  }

  /** And nothing else is. */
  lemma LiveFrom(g: Geometry, img: seq<byte>, roots: Roots, o: ObjRef)
    requires g.Valid() && Live(g, img, roots, o)
    ensures || Reached(g, img, roots.live, o) || Reached(g, img, roots.committed, o) || o == roots.table || o == roots.committedTable
            || exists root :: (root in SnapshotRoots(g, img, roots.table) || root in SnapshotRoots(g, img, roots.committedTable))
                              && Reached(g, img, root, o)
  {
    hide Reached, SnapshotRoots;
  }

  lemma LiveMarksOk(g: Geometry, img: seq<byte>, s: Space, roots: Roots, objs: seq<ObjRef>, marks: seq<Extent>)
    requires g.Valid() && s.Valid() && s.unit == g.allocUnit && s.deviceSize == g.deviceSize
    requires LiveRetained(g, img, s, roots) && forall o :: o in objs <==> Live(g, img, roots, o)
    requires MarksOf(g, TreesOf(g, img, objs), marks)
    ensures AllMarksOk(s, marks) && Bounded64(marks)
  {
    hide Live, MarksOf, TreesOf, TreeOf, TreeRetained, Space.Valid, AllMarksOk, Bounded64;
    forall i | 0 <= i < |objs|
      ensures TreeRetained(g, s, TreeOf(g, img, objs[i]))
    {
      assert objs[i] in objs;
    }
    TreesRetained(g, img, s, objs);
    RetainedMarksOk(g, s, TreesOf(g, img, objs), marks);
  }

  lemma LiveFreed(g: Geometry, img: seq<byte>, objs: seq<ObjRef>, marks: seq<Extent>, s: Space, after: Space)
    requires g.Valid() && MarksOf(g, TreesOf(g, img, objs), marks) && Reclaimed(s, marks, after)
    ensures Freed(g, img, objs, s, after)
  {
    hide MarksOf, TreesOf, UsedByAny, Covered, Space.Valid;
    forall x
      ensures Covered(marks, x) <==> UsedByAny(g, img, objs, x)
    {
      MarksCover(g, TreesOf(g, img, objs), marks, x);
      TreesUsed(g, img, objs, x);
    }
  }

  /** What is freed depends on which objects are live, not on how they are listed. */
  lemma FreedAlike(g: Geometry, img: seq<byte>, a: seq<ObjRef>, b: seq<ObjRef>, s: Space, after: Space)
    requires g.Valid() && Freed(g, img, a, s, after) && forall o :: o in a <==> o in b
    ensures Freed(g, img, b, s, after)
  {
    hide UsedBy, TreeOf, Space.Valid;
    forall x
      ensures UsedByAny(g, img, a, x) <==> UsedByAny(g, img, b, x)
    {
      if UsedByAny(g, img, a, x) { UsedAmong(g, img, a, b, x); }
      if UsedByAny(g, img, b, x) { UsedAmong(g, img, b, a, x); }
    }
  }

  lemma UsedAmong(g: Geometry, img: seq<byte>, a: seq<ObjRef>, b: seq<ObjRef>, x: int)
    requires g.Valid() && UsedByAny(g, img, a, x) && forall o :: o in a ==> o in b
    ensures UsedByAny(g, img, b, x)
  {
    hide UsedBy, TreeOf;
    var i :| 0 <= i < |a| && UsedBy(g, TreeOf(g, img, a[i]), x);
    assert a[i] in b;
    var j :| 0 <= j < |b| && b[j] == a[i];
  }

  /** Objects that are held are retained, if they are all that is live. */
  lemma HeldRetained(g: Geometry, img: seq<byte>, s: Space, roots: Roots, objs: seq<ObjRef>, contents: seq<seq<byte>>)
    requires g.Valid() && AllHeld(g, img, s, objs, contents)
    requires forall o :: Live(g, img, roots, o) ==> o in objs
    ensures LiveRetained(g, img, s, roots)
  {
    hide Live, AllHeld, TreeRetained, TreeOf, Geometry.Holds, Geometry.Kept, Geometry.Collects;
    forall o | Live(g, img, roots, o)
      ensures TreeRetained(g, s, TreeOf(g, img, o))
    {
      var i :| 0 <= i < |objs| && objs[i] == o;
      HeldOne(g, img, s, objs, contents, i);
      KeptTree(g, img, s, o);
    }
  }

  // ----- trees of objects that are held -----

  /** The object has a content. */
  ghost predicate Written(g: Geometry, img: seq<byte>, o: ObjRef)
    requires g.Valid()
  {
    exists c :: g.Holds(img, o, c)
  }

  lemma WrittenMarkable(g: Geometry, img: seq<byte>, o: ObjRef)
    requires g.Valid() && Written(g, img, o)
    ensures Markable(g, img, o) == Ok(())
    ensures ReadWhole(g, img, o).Finished?
  {
    hide Markable, Geometry.LeavesHold, Geometry.Leaves, Geometry.Collects, ReadWhole;
    var c :| g.Holds(img, o, c);
    CollectsMarkable(g, img, o);
    UnitOk(Markable(g, img, o));
    HeldReadsWhole(g, img, o, c);
  }

  lemma {:induction false} WrittenFiles(g: Geometry, img: seq<byte>, es: seq<Dir.DirEntry>)
    requires g.Valid() && forall k :: 0 <= k < |es| && es[k].kind.File? ==> Written(g, img, es[k].obj)
    ensures FilesMarked(g, img, es) == Ok(())
    decreases |es|
  {
    hide Written, Markable;
    if es != [] {
      var last := es[|es| - 1];
      WrittenFiles(g, img, es[..|es| - 1]);
      if last.kind.File? { WrittenMarkable(g, img, last.obj); }
    }
  }

  lemma WrittenVisit(g: Geometry, img: seq<byte>, root: ObjRef, p: Path)
    requires g.Valid() && DirAt(g, img, root, p).Some?
    requires forall o :: Reached(g, img, root, o) ==> Written(g, img, o)
    ensures var dir := DirAt(g, img, root, p).value;
      && Visit(g, img, dir).Finished? && (Visit(g, img, dir) == Finished(Ok(())) <==> Listed(g, img, dir))
  {
    hide DirAt, Written, Markable, FilesMarked, ReadWhole, Dir.ParsedDir;
    var dir := DirAt(g, img, root, p).value;
    assert FoundAt(g, img, root, p, dir);
    WrittenMarkable(g, img, dir);
    var es := Listing(g, img, dir);
    forall k | 0 <= k < |es| && es[k].kind.File?
      ensures Written(g, img, es[k].obj)
    {
      assert FileOf(g, img, dir, es[k].obj);
      assert FoundAt(g, img, root, p, es[k].obj);
    }
    WrittenFiles(g, img, es);
  }

  /** Every directory reached reads and parses as one. */
  ghost predicate AllListed(g: Geometry, img: seq<byte>, root: ObjRef)
    requires g.Valid()
  {
    forall p {:trigger DirAt(g, img, root, p)} :: DirAt(g, img, root, p).Some? ==> Listed(g, img, DirAt(g, img, root, p).value)
  }

  /** When all that is reached has been written, a walk can only fail for a directory that does
      not read as one, or for a tree that is not a tree. */
  lemma WrittenWalkable(g: Geometry, img: seq<byte>, root: ObjRef)
    requires g.Valid() && forall o :: Reached(g, img, root, o) ==> Written(g, img, o)
    ensures Walkable(g, img, root) <==> TreeShaped(g, img, root) && AllListed(g, img, root)
  {
    hide DirAt, Written, Visit, Listed, TreeShaped, Reached;
    if Walkable(g, img, root) {
      forall p | DirAt(g, img, root, p).Some?
        ensures Listed(g, img, DirAt(g, img, root, p).value)
      {
        WrittenVisit(g, img, root, p);
      }
    }
    if AllListed(g, img, root) {
      forall p | DirAt(g, img, root, p).Some?
        ensures Visit(g, img, DirAt(g, img, root, p).value) == Finished(Ok(()))
      {
        WrittenVisit(g, img, root, p);
      }
    }
  }

  // ----- a tree on two images -----

  /** Every directory reached has the same content on both images. */
  ghost predicate SameDirectories(g: Geometry, a: seq<byte>, b: seq<byte>, root: ObjRef)
    requires g.Valid()
  {
    forall p {:trigger DirAt(g, a, root, p)} :: DirAt(g, a, root, p).Some? ==> SameContent(g, a, b, DirAt(g, a, root, p).value)
  }

  ghost predicate SameContent(g: Geometry, a: seq<byte>, b: seq<byte>, o: ObjRef)
    requires g.Valid()
  {
    exists c :: g.Holds(a, o, c) && g.Holds(b, o, c)
  }

  lemma SameListing(g: Geometry, a: seq<byte>, b: seq<byte>, dir: ObjRef)
    requires g.Valid() && SameContent(g, a, b, dir)
    ensures Listing(g, a, dir) == Listing(g, b, dir)
  {
    hide Geometry.Holds, ReadWhole;
    var c :| g.Holds(a, dir, c) && g.Holds(b, dir, c);
    HeldReadsWhole(g, a, dir, c);
    HeldReadsWhole(g, b, dir, c);
  }

  lemma {:induction false} SameDirAt(g: Geometry, a: seq<byte>, b: seq<byte>, root: ObjRef, p: Path)
    requires g.Valid() && SameDirectories(g, a, b, root)
    ensures DirAt(g, a, root, p) == DirAt(g, b, root, p)
    decreases |p|
  {
    hide Listing, SameContent;
    if p != [] {
      SameDirAt(g, a, b, root, Parent(p));
      var up := DirAt(g, a, root, Parent(p));
      if up.Some? { SameListing(g, a, b, up.value); }
    }
  }

  lemma DirReached(g: Geometry, img: seq<byte>, root: ObjRef, q: Path)
    requires g.Valid() && DirAt(g, img, root, q).Some?
    ensures Reached(g, img, root, DirAt(g, img, root, q).value)
  {
    hide DirAt;
    assert FoundAt(g, img, root, q, DirAt(g, img, root, q).value);
  }

  lemma RootReached(g: Geometry, img: seq<byte>, root: ObjRef)
    requires g.Valid()
    ensures Reached(g, img, root, root) && DirAt(g, img, root, []) == Some(root)
  {
    hide Listing;
    assert DirAt(g, img, root, []) == Some(root);
    assert FoundAt(g, img, root, [], root);
  }

  /** Whatever a directory that is reached lists is reached, files and directories alike, and
      the directories as directories. */
  lemma EntryReached(g: Geometry, img: seq<byte>, root: ObjRef, p: Path, dir: ObjRef, c: seq<byte>, es: seq<Dir.DirEntry>, k: nat)
    requires g.Valid() && DirAt(g, img, root, p) == Some(dir)
    requires g.Holds(img, dir, c) && |c| <= 0x100_0000 && Dir.ParsedDir(c) == Ok(es) && k < |es|
    ensures Reached(g, img, root, es[k].obj)
    ensures es[k].kind.Directory? ==> DirAt(g, img, root, p + [k]) == Some(es[k].obj)
  {
    hide Geometry.Holds, ReadWhole, Dir.ParsedDir, DirAt;
    HeldSize(g, img, dir, c);
    HeldReadsWhole(g, img, dir, c);
    assert Listing(g, img, dir) == es;
    ChildAt(g, img, root, p, k);
    match es[k].kind
    case Directory => DirReached(g, img, root, p + [k]);
    case File =>
      assert FileOf(g, img, dir, es[k].obj);
      assert FoundAt(g, img, root, p, es[k].obj);
  }

  lemma HeldSize(g: Geometry, img: seq<byte>, o: ObjRef, c: seq<byte>)
    requires g.Valid() && g.Holds(img, o, c)
    ensures o.size == |c|
  {
  }

  /** A tree whose directories are the same reaches the same. */
  lemma SameReached(g: Geometry, a: seq<byte>, b: seq<byte>, root: ObjRef, o: ObjRef)
    requires g.Valid() && SameDirectories(g, a, b, root)
    ensures Reached(g, a, root, o) <==> Reached(g, b, root, o)
  {
    hide DirAt, Listing, SameContent;
    forall p
      ensures FoundAt(g, a, root, p, o) <==> FoundAt(g, b, root, p, o)
    {
      SameDirAt(g, a, b, root, p);
      var dir := DirAt(g, a, root, p);
      if dir.Some? { SameListing(g, a, b, dir.value); }
    }
  }
}
