/**
  The life of an image: formatted once, then any number of sessions, each of which mounts it,
  may collect garbage, writes, commits, and may lose power at any point.
*/
module Sessions {
  import opened Bytes
  import opened Arith
  import opened Format
  import opened Space
  import opened Device
  import opened BlockTree
  import opened Content
  import opened Election
  import opened Engine
  import opened Gc
  import opened Reach
  import opened Reclaim
  import opened Crash
  import opened PowerLoss
  import opened Interleaved

  /** What an image holds between sessions: the committed uberblock, and the retained objects
      with their contents. */
  datatype Epoch = Epoch(img: seq<byte>, u: Uberblock, objs: seq<ObjRef>, contents: seq<seq<byte>>)

  /** The image elects its uberblock, would be mounted, and every retained object is held on
      blocks that the allocator of that mount cannot hand out. */
  ghost predicate Consistent(p: Primitives, e: Epoch) {
    && p.Lawful() && DATA_START <= |e.img| <= U64_MAX && Committed(p, e.img, e.u)
    && Mountable(e.u, |e.img|) && Multiple(e.u.frontier, e.u.allocUnit)
    && GeoOf(p, e.u, |e.img|).Valid()
    && AllHeld(GeoOf(p, e.u, |e.img|), e.img, SpaceOf(e.u, |e.img|), e.objs, e.contents)
    && e.u.liveRoot in e.objs
  }

  // ----- formatting -----

  /** Create a file system: blank both slots, then commit the empty state as transaction 1. */
  method MakeFilesystem(prims: Primitives, dev: CutDevice, blockSize: u32, allocUnit: u32, compression: bool)
    returns (r: Result<Eofs>, ghost u: Uberblock)
    requires prims.Lawful() && |dev.Image()| <= U64_MAX
    modifies dev, dev.inner.data
    ensures !BlockSizeOk(blockSize) ==> r == Err(InvalidConfig("block_size"))
    ensures BlockSizeOk(blockSize) && !AllocUnitOk(allocUnit, blockSize) ==> r == Err(InvalidConfig("alloc_unit"))
    ensures BlockSizeOk(blockSize) && AllocUnitOk(allocUnit, blockSize) ==>
              if |dev.Image()| < DATA_START + 4 * blockSize then r == Err(InvalidConfig("device too small"))
              else r.Err? ==> r.error == Device(Io) && dev.dead
    ensures r.Err? && r.error.InvalidConfig? ==> dev.Image() == old(dev.Image())
    ensures r.Ok? ==>
              && u.txg == 1 && u.liveRoot == u.snapshots == EMPTY_OBJ
              && r.value.dev == dev && r.value.Valid() && r.value.OnDisk(u) && !r.value.dirty
              && Consistent(prims, Epoch(dev.Image(), u, [EMPTY_OBJ], [[]])) && dev.cache == Cache(dev.Image(), [])
  {
    hide Uberblock.ClassifySlot, Slot, Space.Valid, Uberblock.SlotBytes, Geometry.Holds, Geometry.Kept, PowerOfTwo, Multiple;
    var codec := if compression then Lz4 else Raw;
    var size := dev.inner.data.Length;
    u := Uberblock(0, 0, codec, 1, DATA_START, size, EMPTY_OBJ, EMPTY_OBJ);
    if !BlockSizeOk(blockSize) {
      return Err(InvalidConfig("block_size")), u;
    }
    if !AllocUnitOk(allocUnit, blockSize) {
      return Err(InvalidConfig("alloc_unit")), u;
    }
    if size < DATA_START + 4 * blockSize {
      return Err(InvalidConfig("device too small")), u;
    }
    AllocUnitDivides(allocUnit, blockSize);
    var fs := new Eofs(prims, dev, size, Uberblock(blockSize, allocUnit, codec, 0, DATA_START, size, EMPTY_OBJ, EMPTY_OBJ), true);
    FreshSpace(fs.Sp());
    WriteContract(dev.Image(), dev.State(), 0, Zeros(DATA_START));
    var wiped := dev.WriteAt(0, Zeros(DATA_START));
    if wiped.Err? {
      return Err(wiped.error), u;
    }
    u := fs.Pending();
    BlankSlot(prims);
    WipedSlots(dev.Image());
    var committed := fs.Commit(u);
    if committed.Err? {
      return Err(committed.error), u;
    }
    EmptyHolds(fs.geo, fs.Img(), fs.Sp());
    r := Ok(fs);
  }

  lemma FreshSpace(s: Space)
    requires Multiple(DATA_START, s.unit) && s.frontier == DATA_START <= s.deviceSize && s.free == []
    ensures s.Valid()
  {
  }

  lemma WipedSlots(img: seq<byte>)
    requires |img| >= DATA_START && img[0..DATA_START] == Zeros(DATA_START)
    ensures Slot(img, 0) == Slot(img, 1) == Zeros(SLOT_SIZE)
  {
    SliceOfSlice(img, 0, DATA_START, 0, SLOT_SIZE);
    SliceOfSlice(img, 0, DATA_START, SLOT_SIZE, DATA_START);
  }

  // ----- one session -----

  /** What one session did: the objects it kept, the allocator after mounting and perhaps
      collecting, where its writes left image and allocator, and what the commit was to
      publish. */
  datatype Work = Work(kept: seq<ObjRef>, keptContents: seq<seq<byte>>, start: Space,
                       mid: seq<byte>, end: Space,
                       next: Uberblock, objs: seq<ObjRef>, contents: seq<seq<byte>>)

  /** Each object kept is one that was held, with its content. */
  ghost predicate KeptOf(e: Epoch, kept: seq<ObjRef>, keptContents: seq<seq<byte>>) {
    && |kept| == |keptContents| && |e.objs| == |e.contents|
    && forall i {:trigger kept[i]} :: 0 <= i < |kept| ==>
         exists j :: 0 <= j < |e.objs| && e.objs[j] == kept[i] && e.contents[j] == keptContents[i]
  }

  /** The uberblock has the same parameters, one transaction on. */
  predicate Successor(u: Uberblock, next: Uberblock) {
    && next.txg == u.txg + 1 && next.blockSize == u.blockSize && next.allocUnit == u.allocUnit
    && next.codec == u.codec && next.deviceSize == u.deviceSize
  }

  /** A session on the image of `e` that left `img'`: it kept objects it found, as far out of
      reach of the next mount as before, and then at most the one slot was written, of which
      any bytes may have been lost. */
  ghost predicate Worked(p: Primitives, e: Epoch, w: Work, img': seq<byte>) {
    && DATA_START <= |e.img| <= U64_MAX && |w.mid| == |e.img|
    && var g := GeoOf(p, e.u, |e.img|);
    && g.Valid()
    && KeptOf(e, w.kept, w.keptContents) && e.u.liveRoot in w.kept
    && AllHeld(g, w.mid, SpaceOf(e.u, |e.img|), w.kept, w.keptContents)
    && Slot(w.mid, 0) == Slot(e.img, 0) && Slot(w.mid, 1) == Slot(e.img, 1)
    && w.end.Valid() && w.end.unit == e.u.allocUnit && w.end.deviceSize == |e.img|
    && AllHeld(g, w.mid, w.end, w.objs, w.contents)
    && w.kept <= w.objs && w.keptContents <= w.contents
    && Successor(e.u, w.next) && w.next.frontier == w.end.frontier && w.next.liveRoot in w.objs
    && SlotMixed(p, w.mid, w.next, img')
  }

  /** It started from a space that has none of the kept objects' blocks, and wrote available
      space only. */
  ghost predicate WroteAvailable(p: Primitives, e: Epoch, w: Work) {
    && DATA_START <= |e.img| <= U64_MAX
    && var g := GeoOf(p, e.u, |e.img|);
    && g.Valid()
    && w.start.Valid() && w.start == SpaceOf(e.u, |e.img|).(free := w.start.free)
    && AllHeld(g, e.img, w.start, w.kept, w.keptContents)
    && Evolves(e.img, w.start, w.mid, w.end)
  }

  /** What is in the slot does not checksum by accident. */
  ghost predicate Calm(p: Primitives, e: Epoch, w: Work, img': seq<byte>) {
    && |e.img| >= DATA_START && |img'| >= DATA_START
    && NoMixup(p, w.next, Slot(e.img, SlotOf(w.next.txg)), Slot(img', SlotOf(w.next.txg)))
  }

  /** What the next mount finds: the new transaction if it is elected, else the old one. */
  ghost function After(p: Primitives, e: Epoch, w: Work, img': seq<byte>): Epoch {
    if |img'| >= DATA_START && Elect(p, img') == Some(w.next) then Epoch(img', w.next, w.objs, w.contents)
    else Epoch(img', e.u, w.kept, w.keptContents)
  }

  /** Having fewer bytes to hand out is a step that writes nothing. */
  lemma Fewer(img: seq<byte>, s: Space, less: Space)
    requires Shrinks(s, less) && forall x {:trigger less.Available(x)} :: less.Available(x) ==> s.Available(x)
    ensures Evolves(img, s, img, less)
  {
  }

  lemma NoFreeIsFewer(s: Space, x: int)
    ensures s.(free := []).Available(x) ==> s.Available(x)
  {
  }

  /** The old objects outlive the session's writes, in the space a mount of the old uberblock
      starts from. */
  lemma OldOutlive(p: Primitives, e: Epoch, w: Work)
    requires WroteAvailable(p, e, w)
    ensures AllHeld(GeoOf(p, e.u, |e.img|), w.mid, SpaceOf(e.u, |e.img|), w.kept, w.keptContents)
  {
    hide AllHeld, Space.Available, KeptOf;
    var g := GeoOf(p, e.u, |e.img|);
    ShrinksRefl(w.start);
    assert Evolves(e.img, w.start, w.mid, w.start);
    AllSurvive(g, e.img, w.start, w.mid, w.start, w.kept, w.keptContents);
    forall x | SpaceOf(e.u, |e.img|).Available(x) ensures w.start.Available(x) {
      NoFreeIsFewer(w.start, x);
    }
    Fewer(w.mid, w.start, SpaceOf(e.u, |e.img|));
    AllSurvive(g, w.mid, w.start, w.mid, SpaceOf(e.u, |e.img|), w.kept, w.keptContents);
  }

  /** The new objects are held in the space a mount of the new uberblock starts from. */
  lemma NewStart(p: Primitives, e: Epoch, w: Work, img': seq<byte>)
    requires Consistent(p, e) && Worked(p, e, w, img')
    ensures GeoOf(p, w.next, |e.img|) == GeoOf(p, e.u, |e.img|)
    ensures Mountable(w.next, |e.img|) && Multiple(w.next.frontier, w.next.allocUnit)
    ensures AllHeld(GeoOf(p, e.u, |e.img|), w.mid, SpaceOf(w.next, |e.img|), w.objs, w.contents)
  {
    hide AllHeld, Space.Available, KeptOf, Evolves;
    var s := SpaceOf(w.next, |e.img|);
    assert s == w.end.(free := []);
    forall x | s.Available(x) ensures w.end.Available(x) {
      NoFreeIsFewer(w.end, x);
    }
    Fewer(w.mid, w.end, s);
    AllSurvive(GeoOf(p, e.u, |e.img|), w.mid, w.end, w.mid, s, w.objs, w.contents);
  }

  /** One session, cut anywhere: what the next mount finds is consistent again. */
  lemma SessionKeeps(p: Primitives, e: Epoch, w: Work, img': seq<byte>)
    requires Consistent(p, e) && Worked(p, e, w, img') && Calm(p, e, w, img')
    ensures Consistent(p, After(p, e, w, img'))
  {
    hide AllHeld, Space.Available, KeptOf, Evolves, Slot, Uberblock.ClassifySlot, NoMixup, Mountable, Multiple,
      Space.Valid, Geometry.Valid, Elect, SlotMixed;
    var g := GeoOf(p, e.u, |e.img|);
    NewStart(p, e, w, img');
    assert Committed(p, w.mid, e.u);
    MixedLength(p, w.mid, w.next, img');
    CommitOrLoss(p, w.mid, e.u, w.next, img');
    AllSurviveCommit(g, w.mid, SpaceOf(e.u, |e.img|), img', w.kept, w.keptContents);
    AllSurviveCommit(g, w.mid, SpaceOf(w.next, |e.img|), img', w.objs, w.contents);
  }

  lemma MixedLength(p: Primitives, img: seq<byte>, u: Uberblock, img': seq<byte>)
    requires |img| >= DATA_START && SlotMixed(p, img, u, img')
    ensures |img'| == |img|
  {
    hide Mixed, Slot;
  }

  /** The same session, had it published nothing and left `lost`. */
  function Unpublished(e: Epoch, w: Work, lost: seq<byte>): Work
    requires |e.img| <= U64_MAX
  {
    w.(mid := lost, end := SpaceOf(e.u, |e.img|), objs := w.kept, contents := w.keptContents,
       next := w.next.(frontier := e.u.frontier, liveRoot := e.u.liveRoot))
  }

  /** What a session left is what it would have left, or one without its commit. */
  ghost predicate Salvaged(p: Primitives, e: Epoch, w: Work, lost: seq<byte>) {
    || Worked(p, e, w, lost)
    || (|e.img| <= U64_MAX && Worked(p, e, Unpublished(e, w, lost), lost) && Calm(p, e, Unpublished(e, w, lost), lost))
  }

  lemma LossSalvaged(p: Primitives, e: Epoch, w: Work, img': seq<byte>, wide: Space, lost: seq<byte>)
    requires Consistent(p, e) && Worked(p, e, w, img') && Leaves(p, wide, w.mid, w.next, lost)
    requires forall x {:trigger wide.Available(x)} :: wide.Available(x) ==> DATA_START <= x
    requires wide == SpaceOf(e.u, |e.img|).(free := wide.free)
    requires AllHeld(GeoOf(p, e.u, |e.img|), w.mid, wide, w.kept, w.keptContents)
    ensures Salvaged(p, e, w, lost)
  {
    hide AllHeld, Space.Available, KeptOf, Evolves, Slot, Uberblock.ClassifySlot, NoMixup, Mountable, Space.Valid, Geometry.Valid, Elect,
      SlotMixed, Elsewhere;
    var g, s, v := GeoOf(p, e.u, |e.img|), SpaceOf(e.u, |e.img|), Unpublished(e, w, lost);
    if Elsewhere(wide, w.mid, lost) {
      SlotsElsewhere(wide, w.mid, lost);
      ElsewhereLength(wide, w.mid, lost);
      HeldElsewhere(g, wide, w.mid, lost, w.kept, w.keptContents);
      forall x | s.Available(x) ensures wide.Available(x) {
        NoFreeIsFewer(wide, x);
      }
      Fewer(lost, wide, s);
      AllSurvive(g, lost, wide, lost, s, w.kept, w.keptContents);
      SpaceOfValid(p, e);
      CommitIsMixed(p, lost, Power(None, 0, false), v.next);
      SlotCalm(p, v.next, Slot(e.img, SlotOf(v.next.txg)));
    }
  }

  lemma ElsewhereLength(wide: Space, img: seq<byte>, img': seq<byte>)
    requires Elsewhere(wide, img, img')
    ensures |img'| == |img|
  {
    hide Space.Available;
  }

  lemma SpaceOfValid(p: Primitives, e: Epoch)
    requires Consistent(p, e)
    ensures SpaceOf(e.u, |e.img|).Valid() && SpaceOf(e.u, |e.img|).unit == e.u.allocUnit
  {
    hide AllHeld, Committed, PowerOfTwo;
  }

  lemma SlotCalm(p: Primitives, u: Uberblock, was: seq<byte>)
    requires |was| == SLOT_SIZE
    ensures NoMixup(p, u, was, was)
  {
  }

  lemma KeptHeld(g: Geometry, s: Space, e: Epoch, kept: seq<ObjRef>, keptContents: seq<seq<byte>>)
    requires g.Valid() && AllHeld(g, e.img, s, e.objs, e.contents) && KeptOf(e, kept, keptContents)
    ensures AllHeld(g, e.img, s, kept, keptContents)
  {
    hide HeldAt;
  }

  /** The roots a collection right after a mount starts from. */
  function RootsAt(u: Uberblock): Roots {
    Roots(u.liveRoot, u.liveRoot, u.snapshots, u.snapshots)
  }

  /** The objects of the list are those that the roots on disk reach. */
  ghost predicate KeepsLive(p: Primitives, e: Epoch, kept: seq<ObjRef>)
    requires Consistent(p, e)
  {
    forall o :: o in kept <==> Live(GeoOf(p, e.u, |e.img|), e.img, RootsAt(e.u), o)
  }

  /** Collecting after a mount keeps what is live and frees the rest, or does nothing. */
  method CollectKept(fs: Eofs, ghost p: Primitives, ghost e: Epoch, ghost kept: seq<ObjRef>, ghost keptContents: seq<seq<byte>>)
    requires Consistent(p, e) && KeepsLive(p, e, kept)
    requires fs.Valid() && fs.geo == GeoOf(p, e.u, |e.img|) && fs.Img() == e.img && fs.Sp() == SpaceOf(e.u, |e.img|)
    requires Roots(fs.committedLiveRoot, fs.liveRoot, fs.committedSnapshots, fs.snapshots) == RootsAt(e.u)
    requires AllHeld(fs.geo, fs.Img(), fs.Sp(), kept, keptContents)
    modifies fs.alloc`free
    ensures if Sound(fs.geo, e.img, RootsAt(e.u)) then Freed(fs.geo, e.img, kept, SpaceOf(e.u, |e.img|), fs.Sp())
            else fs.Sp() == SpaceOf(e.u, |e.img|)
    ensures fs.Valid() && AllHeld(fs.geo, e.img, fs.Sp(), kept, keptContents)
  {
    hide AllHeld, Space.Valid, Geometry.Valid, Live, LiveRetained, Sound, Freed, Consistent, Multiple;
    HeldRetained(fs.geo, e.img, fs.Sp(), RootsAt(e.u), kept, keptContents);
    var r, objs := CollectGarbage(fs);
    if Sound(fs.geo, e.img, RootsAt(e.u)) {
      FreedAlike(fs.geo, e.img, objs, kept, SpaceOf(e.u, |e.img|), fs.Sp());
      CollectionKeeps(fs.geo, e.img, SpaceOf(e.u, |e.img|), kept, keptContents, fs.Sp());
      FreedValid(fs.geo, e.img, kept, SpaceOf(e.u, |e.img|), fs.Sp());
    }
  }

  lemma FreedValid(g: Geometry, img: seq<byte>, objs: seq<ObjRef>, before: Space, after: Space)
    requires g.Valid() && Freed(g, img, objs, before, after)
    ensures after.Valid() && after.unit == before.unit && after.deviceSize == before.deviceSize
    ensures after == before.(free := after.free)
  {
    hide Space.Valid;
  }

  /** A session: mount, collect garbage if asked to, write, publish, commit. Whatever the
      power does, what it does is a session in the sense above; a collection frees exactly what
      no root reaches; and what was to be published holds what the successful writes made. */
  method Session(prims: Primitives, dev: CutDevice, kept: seq<ObjRef>, collect: bool, ops: seq<WriteOp>, root: nat,
                 ghost e: Epoch, ghost keptContents: seq<seq<byte>>)
    returns (r: Result<u64>, done: seq<bool>, ghost w: Work, ghost dead: bool)
    requires Consistent(prims, e) && e.img == dev.Image() && e.u.txg < U64_MAX && dev.cache == Cache(e.img, [])
    requires KeptOf(e, kept, keptContents) && e.u.liveRoot in kept && (collect ==> KeepsLive(prims, e, kept))
    modifies dev, dev.inner.data
    ensures Worked(prims, e, w, dev.Image()) && WroteAvailable(prims, e, w) && w.kept == kept && w.keptContents == keptContents
    ensures if collect && Sound(GeoOf(prims, e.u, |e.img|), e.img, RootsAt(e.u))
            then Freed(GeoOf(prims, e.u, |e.img|), e.img, kept, SpaceOf(e.u, |e.img|), w.start)
            else w.start == SpaceOf(e.u, |e.img|)
    ensures |done| == |ops| && w.contents == Replayed(keptContents, ops, done)
    ensures forall k {:trigger done[k]} :: 0 <= k < |ops| ==>
              Fate(GeoOf(prims, e.u, |e.img|), |Replayed(keptContents, ops[..k], done[..k])|, ops[k], done[k], w.end, dead)
    ensures w.next.liveRoot == Published(w.objs, root, e.u.liveRoot)
    ensures r.Ok? && root < |w.objs| ==> After(prims, e, w, dev.Image()).u == w.next && dev.cache == Cache(dev.Image(), [])
    ensures r.Err? ==> r.error == Device(Io) && dev.dead
    // So is whatever is left when the device loses any of what was not flushed.
    ensures forall lost {:trigger MayRemain(dev.cache, lost)} :: MayRemain(dev.cache, lost) ==> Salvaged(prims, e, w, lost)
  {
    hide AllHeld, Space.Available, KeptOf, Evolves, Slot, Uberblock.ClassifySlot, NoAccidents, Multiple, Space.Valid, AfterCommit,
      Geometry.Valid, Elect, Replayed, Geometry.Holds, Fate, Committed, Live, Sound, Freed, SlotMixed, Safe, Withstands, Salvaged;
    CommittedIsElected(prims, e.img, e.u);
    var mounted, _ := Mount(prims, dev);
    var fs := mounted.value;
    KeptHeld(fs.geo, fs.Sp(), e, kept, keptContents);
    if collect {
      CollectKept(fs, prims, e, kept, keptContents);
    }
    ghost var start := fs.Sp();
    var objs;
    ghost var contents, mid, power, next;
    SafeAtFirst(fs.geo, dev.Now(), start, kept, keptContents);
    r, objs, done, contents, mid, power, next := Transaction(fs, ops, kept, keptContents, root, e.u, start, kept, keptContents);
    w, dead := Work(kept, keptContents, start, mid, fs.Sp(), next, objs, contents), power.dead;
    EvolvesLength(e.img, start, mid, fs.Sp());
    OldOutlive(prims, e, w);
    RootAmong(kept, objs, root, e.u.liveRoot);
    CommitIsMixed(prims, mid, power, next);
    AllSalvaged(prims, e, w, dev.Image(), start, fs.Sp(), fs.dev.cache);
  }

  lemma AllSalvaged(p: Primitives, e: Epoch, w: Work, img': seq<byte>, wide: Space, s: Space, c: Cache)
    requires Consistent(p, e) && Worked(p, e, w, img')
    requires Withstands(GeoOf(p, e.u, |e.img|), e.u, w.next, wide, w.kept, w.keptContents, s, w.objs, w.contents, w.mid, c)
    requires wide == SpaceOf(e.u, |e.img|).(free := wide.free)
    requires AllHeld(GeoOf(p, e.u, |e.img|), w.mid, wide, w.kept, w.keptContents)
    ensures forall lost {:trigger MayRemain(c, lost)} :: MayRemain(c, lost) ==> Salvaged(p, e, w, lost)
  {
    hide AllHeld, Consistent, Worked, Salvaged, Leaves, Recovers, NoMixup, MayRemain, Space.Available, Geometry.Valid;
    forall lost {:trigger MayRemain(c, lost)} | MayRemain(c, lost)
      ensures Salvaged(p, e, w, lost)
    {
      LossSalvaged(p, e, w, img', wide, lost);
    }
  }

  lemma GeometryValid(p: Primitives, e: Epoch)
    requires Consistent(p, e)
    ensures GeoOf(p, e.u, |e.img|).Valid()
  {
  }

  lemma OnDiskLive(p: Primitives, e: Epoch, kept: seq<ObjRef>)
    requires Consistent(p, e) && KeepsLive(p, e, kept)
    ensures e.u.liveRoot in kept && GeoOf(p, e.u, |e.img|).Valid()
    ensures forall o :: o in kept <==> Committable(GeoOf(p, e.u, |e.img|), e.img, e.u.liveRoot, e.u.snapshots, o)
  {
    hide Consistent, Reached, SnapshotRoots, Geometry.Valid, DirAt;
    GeometryValid(p, e);
    var g, two := GeoOf(p, e.u, |e.img|), [e.u.liveRoot, e.u.liveRoot];
    assert two[0] == e.u.liveRoot;
    forall o
      ensures AnyReached(g, e.img, two, o) <==> Reached(g, e.img, e.u.liveRoot, o)
    {
      if Reached(g, e.img, e.u.liveRoot, o) { AmongRoots(g, e.img, two, e.u.liveRoot, o); }
    }
    RootReached(g, e.img, e.u.liveRoot);
  }

  /**
    A session with a collection between its writes: mount, write, point the live root at
    something written, collect, write over what that freed, and commit. It is a session in
    the same sense, wherever it is cut, and it publishes exactly what the successful writes of
    both rounds made.
  */
  method CollectingSession(prims: Primitives, dev: CutDevice, kept: seq<ObjRef>, first: seq<WriteOp>, point: nat, keep: seq<nat>,
                           second: seq<WriteOp>, root: nat, ghost e: Epoch, ghost keptContents: seq<seq<byte>>)
    returns (r: Result<u64>, early: seq<bool>, late: seq<bool>, ghost pause: Pause, ghost w: Work)
    requires Consistent(prims, e) && e.img == dev.Image() && e.u.txg < U64_MAX && dev.cache == Cache(e.img, [])
    requires KeptOf(e, kept, keptContents) && KeepsLive(prims, e, kept) && point in keep
    requires Disciplined(GeoOf(prims, e.u, |e.img|), e.img, SpaceOf(e.u, |e.img|), kept, keptContents, first, point, keep, RootsAt(e.u))
    modifies dev, dev.inner.data
    ensures Worked(prims, e, w, dev.Image()) && w.kept == kept && w.keptContents == keptContents
    ensures |early| == |first| && |late| == |second|
    ensures w.contents == Replayed(keptContents + Chosen(Replayed(keptContents, first, early), keep), second, late)
    ensures Evolves(e.img, SpaceOf(e.u, |e.img|), pause.img, pause.before) && Evolves(pause.img, pause.after, w.mid, w.end)
    ensures Sound(GeoOf(prims, e.u, |e.img|), pause.img, pause.roots) ==>
              exists live :: (forall o :: o in live <==> Live(GeoOf(prims, e.u, |e.img|), pause.img, pause.roots, o))
                             && Freed(GeoOf(prims, e.u, |e.img|), pause.img, live, pause.before, pause.after)
    ensures root < |w.objs| ==> w.next.liveRoot == w.objs[root]
    ensures r.Ok? && root < |w.objs| ==> After(prims, e, w, dev.Image()).u == w.next && dev.cache == Cache(dev.Image(), [])
    ensures r.Err? ==> r.error == Device(Io) && dev.dead
    ensures forall lost {:trigger MayRemain(dev.cache, lost)} :: MayRemain(dev.cache, lost) ==> Salvaged(prims, e, w, lost)
  {
    hide AllHeld, Space.Available, KeptOf, Evolves, Slot, Uberblock.ClassifySlot, NoAccidents, Multiple, Space.Valid, AfterCommit,
      Geometry.Valid, Elect, Replayed, Geometry.Holds, Committed, Live, Sound, Freed, Disciplined, Committable, KeepsLive,
      SlotMixed, Safe, Withstands, Salvaged;
    CommittedIsElected(prims, e.img, e.u);
    OnDiskLive(prims, e, kept);
    var mounted, _ := Mount(prims, dev);
    var fs := mounted.value;
    KeptHeld(fs.geo, fs.Sp(), e, kept, keptContents);
    var objs;
    ghost var contents, mid, power, next;
    ghost var start := fs.Sp();
    SafeAtFirst(fs.geo, dev.Now(), start, kept, keptContents);
    r, objs, early, late, contents, pause, mid, power, next :=
      CollectingTransaction(fs, first, point, keep, second, root, kept, keptContents, e.u);
    w := Work(kept, keptContents, pause.after, mid, fs.Sp(), next, objs, contents);
    EvolvesLength(e.img, SpaceOf(e.u, |e.img|), pause.img, pause.before);
    EvolvesLength(pause.img, pause.after, mid, fs.Sp());
    CommitIsMixed(prims, mid, power, next);
    KeptAmong(kept, objs, e.u.liveRoot);
    AllSalvaged(prims, e, w, dev.Image(), Both(start, pause.after), fs.Sp(), fs.dev.cache);
  }

  lemma EvolvesLength(img: seq<byte>, s: Space, img': seq<byte>, s': Space)
    requires Evolves(img, s, img', s')
    ensures |img'| == |img|
  {
  }

  lemma KeptAmong(kept: seq<ObjRef>, objs: seq<ObjRef>, o: ObjRef)
    requires kept <= objs && o in kept
    ensures o in objs
  {
    var i :| 0 <= i < |kept| && kept[i] == o;
    assert objs[i] == o;
  }

  lemma RootAmong(kept: seq<ObjRef>, objs: seq<ObjRef>, root: nat, was: ObjRef)
    requires kept <= objs && was in kept
    ensures Published(objs, root, was) in objs
  {
    KeptAmong(kept, objs, was);
  }

  // ----- any number of sessions -----

  /** Consecutive epochs of one image, with a session between each two. */
  ghost predicate Chronicle(p: Primitives, es: seq<Epoch>, ws: seq<Work>) {
    && |es| == |ws| + 1
    && forall k {:trigger ws[k]} :: 0 <= k < |ws| ==>
         && Worked(p, es[k], ws[k], es[k + 1].img) && Calm(p, es[k], ws[k], es[k + 1].img)
         && es[k + 1] == After(p, es[k], ws[k], es[k + 1].img)
  }

  /** Over any number of sessions, each cut anywhere or not at all, every mount finds a
      consistent image: the elected root and all objects retained with it hold their exact
      contents, out of the new allocator's reach. */
  lemma {:induction false} ChronicleConsistent(p: Primitives, es: seq<Epoch>, ws: seq<Work>, k: nat)
    requires Chronicle(p, es, ws) && Consistent(p, es[0]) && k < |es|
    ensures Consistent(p, es[k])
    decreases k
  {
    hide Consistent, Worked, Calm;
    if k > 0 {
      ChronicleConsistent(p, es, ws, k - 1);
      assert es[k - 1 + 1] == After(p, es[k - 1], ws[k - 1], es[k].img);
      SessionKeeps(p, es[k - 1], ws[k - 1], es[k].img);
    }
  }

  /** An object kept by a session is there afterwards, with the content it had. */
  lemma SessionRetains(p: Primitives, e: Epoch, w: Work, img': seq<byte>, o: ObjRef, c: seq<byte>)
    requires Consistent(p, e) && Worked(p, e, w, img') && Consistent(p, After(p, e, w, img'))
    requires o in w.kept && GeoOf(p, e.u, |e.img|).Holds(e.img, o, c)
    ensures var n := After(p, e, w, img');
            o in n.objs && GeoOf(p, n.u, |n.img|).Holds(n.img, o, c)
  {
    hide Evolves, Slot, Elect, Geometry.Valid, Geometry.Holds, Geometry.Kept, Mountable, Space.Valid, Committed,
      Multiple, AfterCommit;
    var g, n := GeoOf(p, e.u, |e.img|), After(p, e, w, img');
    var i :| 0 <= i < |w.kept| && w.kept[i] == o;
    var j :| 0 <= j < |e.objs| && e.objs[j] == o && e.contents[j] == w.keptContents[i];
    HeldOne(g, e.img, SpaceOf(e.u, |e.img|), e.objs, e.contents, j);
    HoldsOne(g, e.img, o, c, e.contents[j]);
    assert |img'| == |e.img| by { WorkedLength(p, e, w, img'); }
    assert n.objs[i] == o && n.contents[i] == c;
    HeldOne(GeoOf(p, n.u, |n.img|), n.img, SpaceOf(n.u, |n.img|), n.objs, n.contents, i);
  }

  lemma WorkedLength(p: Primitives, e: Epoch, w: Work, img': seq<byte>)
    requires Worked(p, e, w, img')
    ensures |img'| == |e.img| && |w.kept| <= |w.objs| && |w.keptContents| <= |w.contents| && |w.kept| == |w.keptContents|
  {
  }

  /** Every object that is kept by each session from some epoch on still holds its content. */
  lemma {:induction false} ChronicleRetains(p: Primitives, es: seq<Epoch>, ws: seq<Work>, j: nat, k: nat, o: ObjRef, c: seq<byte>)
    requires Chronicle(p, es, ws) && Consistent(p, es[0]) && j <= k < |es|
    requires Consistent(p, es[j]) && o in es[j].objs && GeoOf(p, es[j].u, |es[j].img|).Holds(es[j].img, o, c)
    requires forall m {:trigger ws[m]} :: j <= m < k ==> o in ws[m].kept
    ensures o in es[k].objs && Consistent(p, es[k]) && GeoOf(p, es[k].u, |es[k].img|).Holds(es[k].img, o, c)
    decreases k
  {
    hide Worked, Calm, Elect, Geometry.Holds, AllHeld, Geometry.Valid, Committed, Mountable, Multiple;
    if j < k {
      ChronicleRetains(p, es, ws, j, k - 1, o, c);
      ChronicleConsistent(p, es, ws, k);
      assert es[k - 1 + 1] == After(p, es[k - 1], ws[k - 1], es[k].img);
      SessionRetains(p, es[k - 1], ws[k - 1], es[k].img, o, c);
    }
  }

  // ----- what a root reaches -----

  /** The root is the live one on disk, or that of a snapshot in the table on disk. */
  ghost predicate Rooted(p: Primitives, e: Epoch, root: ObjRef)
    requires Consistent(p, e)
  {
    root == e.u.liveRoot || root in SnapshotRoots(GeoOf(p, e.u, |e.img|), e.img, e.u.snapshots)
  }

  lemma RootedLive(p: Primitives, e: Epoch, root: ObjRef, o: ObjRef)
    requires Consistent(p, e) && Rooted(p, e, root) && Reached(GeoOf(p, e.u, |e.img|), e.img, root, o)
    ensures Live(GeoOf(p, e.u, |e.img|), e.img, RootsAt(e.u), o)
  {
    hide Consistent, Reached, SnapshotRoots, Geometry.Valid;
    GeometryValid(p, e);
    var g := GeoOf(p, e.u, |e.img|);
    if root == e.u.liveRoot {
      assert [e.u.liveRoot, e.u.liveRoot][0] == root;
      assert AnyReached(g, e.img, [e.u.liveRoot, e.u.liveRoot], o);
    } else {
      var roots := SnapshotRoots(g, e.img, e.u.snapshots);
      var i :| 0 <= i < |roots| && roots[i] == root;
      assert AnyReached(g, e.img, roots, o);
    }
  }

  /** From the root one image reaches what the other does, with the same contents. */
  ghost predicate SameReach(g: Geometry, a: seq<byte>, b: seq<byte>, root: ObjRef)
    requires g.Valid()
  {
    && (forall o :: Reached(g, a, root, o) <==> Reached(g, b, root, o))
    && forall o, c :: Reached(g, a, root, o) && g.Holds(a, o, c) ==> g.Holds(b, o, c)
  }

  /** Both epochs are consistent, and the root heads the same tree in both. */
  ghost predicate TreeStays(p: Primitives, e: Epoch, n: Epoch, root: ObjRef) {
    && Consistent(p, e) && Consistent(p, n) && GeoOf(p, n.u, |n.img|) == GeoOf(p, e.u, |e.img|)
    && SameReach(GeoOf(p, e.u, |e.img|), e.img, n.img, root)
  }

  /** The session keeps what is live, and the root is on disk before it. */
  ghost predicate Retains(p: Primitives, e: Epoch, w: Work, root: ObjRef) {
    Consistent(p, e) && KeepsLive(p, e, w.kept) && Rooted(p, e, root)
  }

  /** A session that keeps what is live leaves every tree on disk as it is. */
  lemma SessionTree(p: Primitives, e: Epoch, w: Work, img': seq<byte>, root: ObjRef)
    requires Worked(p, e, w, img') && Calm(p, e, w, img') && Retains(p, e, w, root)
    ensures TreeStays(p, e, After(p, e, w, img'), root)
  {
    hide Consistent, Worked, Calm, Live, DirAt, Reached, Rooted, Geometry.Holds, Geometry.Valid, Elect, Listing;
    GeometryValid(p, e);
    var g, n := GeoOf(p, e.u, |e.img|), After(p, e, w, img');
    SessionKeeps(p, e, w, img');
    WorkedGeometry(p, e, w, img');
    forall o, c | Reached(g, e.img, root, o) && g.Holds(e.img, o, c)
      ensures g.Holds(img', o, c)
    {
      RootedLive(p, e, root, o);
      SessionRetains(p, e, w, img', o, c);
    }
    forall q | DirAt(g, e.img, root, q).Some?
      ensures SameContent(g, e.img, img', DirAt(g, e.img, root, q).value)
    {
      var dir := DirAt(g, e.img, root, q).value;
      DirReached(g, e.img, root, q);
      RootedLive(p, e, root, dir);
      KeptContent(p, e, w, img', dir);
    }
    forall o
      ensures Reached(g, e.img, root, o) <==> Reached(g, img', root, o)
    {
      SameReached(g, e.img, img', root, o);
    }
  }

  lemma KeptContent(p: Primitives, e: Epoch, w: Work, img': seq<byte>, o: ObjRef)
    requires Consistent(p, e) && Worked(p, e, w, img') && Consistent(p, After(p, e, w, img')) && o in w.kept
    requires GeoOf(p, After(p, e, w, img').u, |img'|) == GeoOf(p, e.u, |e.img|)
    ensures SameContent(GeoOf(p, e.u, |e.img|), e.img, img', o)
  {
    hide Evolves, Slot, Elect, Geometry.Valid, Geometry.Holds, Geometry.Kept, Mountable, Space.Valid, Committed, Multiple, AfterCommit;
    var i :| 0 <= i < |w.kept| && w.kept[i] == o;
    var j :| 0 <= j < |e.objs| && e.objs[j] == o && e.contents[j] == w.keptContents[i];
    HeldOne(GeoOf(p, e.u, |e.img|), e.img, SpaceOf(e.u, |e.img|), e.objs, e.contents, j);
    SessionRetains(p, e, w, img', o, e.contents[j]);
  }

  lemma WorkedGeometry(p: Primitives, e: Epoch, w: Work, img': seq<byte>)
    requires Consistent(p, e) && Worked(p, e, w, img')
    ensures var n := After(p, e, w, img'); GeoOf(p, n.u, |n.img|) == GeoOf(p, e.u, |e.img|) && n.img == img'
  {
    hide Consistent, Elect;
    WorkedSucceeds(p, e, w, img');
    WorkedLength(p, e, w, img');
    hide Worked;
  }

  /** As long as every session keeps what is live, and a root is on disk before each, as the
      live root or in the snapshot table, it reaches the same objects with the same contents
      after any number of sessions, each cut anywhere, whatever was collected and overwritten. */
  lemma {:induction false} ChronicleTree(p: Primitives, es: seq<Epoch>, ws: seq<Work>, j: nat, k: nat, root: ObjRef)
    requires Chronicle(p, es, ws) && Consistent(p, es[0]) && j <= k < |es|
    requires forall m {:trigger ws[m]} :: j <= m < k ==> Retains(p, es[m], ws[m], root)
    ensures TreeStays(p, es[j], es[k], root)
    decreases k
  {
    hide Consistent, Worked, Calm, Elect, Retains, TreeStays, After;
    if j < k {
      ChronicleTree(p, es, ws, j, k - 1, root);
      assert es[k - 1 + 1] == After(p, es[k - 1], ws[k - 1], es[k].img);
      SessionTree(p, es[k - 1], ws[k - 1], es[k].img, root);
      StaysTwice(p, es[j], es[k - 1], es[k], root);
    } else {
      ChronicleConsistent(p, es, ws, j);
      StaysPut(p, es[j], root);
    }
  }

  lemma StaysPut(p: Primitives, e: Epoch, root: ObjRef)
    requires Consistent(p, e)
    ensures TreeStays(p, e, e, root)
  {
    hide Reached, Geometry.Holds;
  }

  lemma StaysTwice(p: Primitives, a: Epoch, b: Epoch, c: Epoch, root: ObjRef)
    requires TreeStays(p, a, b, root) && TreeStays(p, b, c, root)
    ensures TreeStays(p, a, c, root)
  {
    hide Reached, Geometry.Holds, Committed, Mountable, AllHeld, Multiple;
  }

  /** Transaction numbers only grow, by one with each commit that took effect. */
  lemma {:induction false} ChronicleAdvances(p: Primitives, es: seq<Epoch>, ws: seq<Work>, k: nat)
    requires Chronicle(p, es, ws) && k < |es|
    ensures es[0].u.txg <= es[k].u.txg <= es[0].u.txg + k
    ensures es[k].u.txg == es[0].u.txg ==> es[k].u == es[0].u
    decreases k
  {
    hide Worked, Calm, Elect;
    if k > 0 {
      ChronicleAdvances(p, es, ws, k - 1);
      assert es[k - 1 + 1] == After(p, es[k - 1], ws[k - 1], es[k].img);
      assert Successor(es[k - 1].u, ws[k - 1].next) by { WorkedSucceeds(p, es[k - 1], ws[k - 1], es[k].img); }
    }
  }

  lemma WorkedSucceeds(p: Primitives, e: Epoch, w: Work, img': seq<byte>)
    requires Worked(p, e, w, img')
    ensures Successor(e.u, w.next)
  {
  }
}
