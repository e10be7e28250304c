/**
  Mounting, and crash consistency over whole runs: any sequence of object writes followed by
  a commit, on a device that may lose power at any write and tear it at any byte; and any
  number of such sessions, one after the other, on one image.
*/
module Crash {
  import opened Bytes
  import opened Arith
  import opened Format
  import opened Space
  import opened Device
  import opened BlockTree
  import opened Content
  import opened Election
  import opened Engine
  import opened Gc
  import opened PowerLoss

  // ----- mounting -----

  /** The parameters of an uberblock that a mount accepts. */
  predicate Mountable(u: Uberblock, deviceSize: nat) {
    && BlockSizeOk(u.blockSize) && AllocUnitOk(u.allocUnit, u.blockSize)
    && u.deviceSize <= deviceSize && DATA_START <= u.frontier <= deviceSize
  }

  /** A slot that holds something, but not a valid uberblock. */
  predicate Degraded(state: Result<SlotState>) {
    state.Err? || state.value.Invalid?
  }

  /** Either slot holds the remains of an uberblock. */
  predicate FallsBack(p: Primitives, img: seq<byte>)
    requires |img| >= DATA_START
  {
    Degraded(Uberblock.ClassifySlot(p, Slot(img, 0))) || Degraded(Uberblock.ClassifySlot(p, Slot(img, 1)))
  }

  /** The fault of the last slot that has an intact body which cannot be parsed. */
  function SlotFault(p: Primitives, img: seq<byte>): Option<FsError>
    requires |img| >= DATA_START
  {
    var a, b := Uberblock.ClassifySlot(p, Slot(img, 0)), Uberblock.ClassifySlot(p, Slot(img, 1));
    if b.Err? then Some(b.error) else if a.Err? then Some(a.error) else None
  }

  /** Read both slots in order and keep the best valid uberblock seen. */
  method ElectSlots(prims: Primitives, dev: CutDevice)
    returns (best: Option<Uberblock>, deferred: Option<FsError>, fellBack: bool)
    requires |dev.Image()| >= DATA_START
    ensures best == Elect(prims, dev.Image())
    ensures fellBack <==> FallsBack(prims, dev.Image())
    ensures deferred == SlotFault(prims, dev.Image())
  {
    hide Uberblock.ClassifySlot;
    best, deferred, fellBack := None, None, false;
    ghost var a, b := Uberblock.ClassifySlot(prims, Slot(dev.Image(), 0)), Uberblock.ClassifySlot(prims, Slot(dev.Image(), 1));
    var k := 0;
    while k < 2
      invariant 0 <= k <= 2
      invariant best == if k == 0 then None else if k == 1 then Better(None, a) else Elect(prims, dev.Image())
      invariant fellBack <==> (k > 0 && Degraded(a)) || (k > 1 && Degraded(b))
      invariant deferred == if k > 1 && b.Err? then Some(b.error) else if k > 0 && a.Err? then Some(a.error) else None
      decreases 2 - k
    {
      var slot := dev.inner.data[k * SLOT_SIZE..(k + 1) * SLOT_SIZE];
      assert slot == Slot(dev.Image(), k);
      match Uberblock.ClassifySlot(prims, slot) {
      case Ok(Valid(ub)) =>
        if best.None? || ub.txg > best.value.txg {
          best := Some(ub);
        }
      case Ok(NoMagic) =>
      case Ok(Invalid) =>
        fellBack := true;
      case Err(e) =>
        fellBack, deferred := true, Some(e);
      }
      k := k + 1;
    }
  }

  /** The first thing about an elected uberblock that a mount refuses. */
  function MountFault(u: Uberblock): FsError {
    if !BlockSizeOk(u.blockSize) then Corrupt(BadBlockSize)
    else if !AllocUnitOk(u.allocUnit, u.blockSize) then Corrupt(BadAllocUnit)
    else Corrupt(SmallerThanFilesystem)
  }

  function GeoOf(p: Primitives, u: Uberblock, size: u64): Geometry {
    Geometry(u.blockSize, u.allocUnit, u.codec, size, p)
  }

  /** The allocator's state right after a mount: nothing free below the recorded frontier. */
  function SpaceOf(u: Uberblock, size: u64): Space {
    Space(u.allocUnit, size, u.frontier, [])
  }

  /** Mount an image: adopt the elected uberblock if its parameters make sense. */
  method Mount(prims: Primitives, dev: CutDevice) returns (r: Result<Eofs>, fellBack: bool)
    requires prims.Lawful() && |dev.Image()| <= U64_MAX
    ensures |dev.Image()| < DATA_START ==> r == Err(Corrupt(DeviceTooSmall))
    ensures |dev.Image()| >= DATA_START ==>
              && (fellBack <==> FallsBack(prims, dev.Image()))
              && match Elect(prims, dev.Image())
                 case None =>
                   var fault := SlotFault(prims, dev.Image());
                   r == Err(if fault.Some? then fault.value else Corrupt(NoUberblock))
                 case Some(u) =>
                   if !Mountable(u, |dev.Image()|) then r == Err(MountFault(u))
                   else
                     && r.Ok?
                     && var fs := r.value;
                        && fresh(fs) && fs.dev == dev && fs.geo == GeoOf(prims, u, |dev.Image()|) && fs.geo.Valid()
                        && fs.formatDeviceSize == u.deviceSize && fs.committedTxg == u.txg && !fs.dirty
                        && fs.liveRoot == fs.committedLiveRoot == u.liveRoot
                        && fs.snapshots == fs.committedSnapshots == u.snapshots
                        && fs.Sp() == SpaceOf(u, |dev.Image()|) && fresh(fs.alloc)
                        && (fs.Valid() <==> Multiple(u.frontier, u.allocUnit))
  {
    hide Elect, FallsBack, SlotFault, Multiple, PowerOfTwo;
    fellBack := false;
    var deviceSize := dev.inner.data.Length;
    if deviceSize < DATA_START {
      return Err(Corrupt(DeviceTooSmall)), fellBack;
    }
    var best, deferred;
    best, deferred, fellBack := ElectSlots(prims, dev);
    if best.None? {
      return Err(if deferred.Some? then deferred.value else Corrupt(NoUberblock)), fellBack;
    }
    var u := best.value;
    if !BlockSizeOk(u.blockSize) {
      return Err(Corrupt(BadBlockSize)), fellBack;
    }
    if !AllocUnitOk(u.allocUnit, u.blockSize) {
      return Err(Corrupt(BadAllocUnit)), fellBack;
    }
    if u.deviceSize > deviceSize || u.frontier > deviceSize || u.frontier < DATA_START {
      return Err(Corrupt(SmallerThanFilesystem)), fellBack;
    }
    AllocUnitDivides(u.allocUnit, u.blockSize);
    var fs := new Eofs(prims, dev, deviceSize, u, false);
    r := Ok(fs);
  }

  /** The recorded frontier is not checked for alignment: an image that mounts, whose first
      allocation is at an address that the reader then refuses. */
  lemma MisalignedFrontier(p: Primitives) returns (img: seq<byte>, u: Uberblock)
    requires p.Lawful()
    ensures DATA_START <= |img| <= U64_MAX && Elect(p, img) == Some(u) && Mountable(u, |img|)
    ensures !Multiple(u.frontier, u.allocUnit) && !SpaceOf(u, |img|).Valid()
    ensures SpaceOf(u, |img|).Allocate(1).1 == Ok(u.frontier)
    ensures forall ptr: BlockPtr :: ptr.addr == u.frontier ==> GeoOf(p, u, |img|).ReadBlock(img, ptr).Err?
  {
    hide Uberblock.SlotBytes, Elect, Space.Allocate, Geometry.ReadBlock, PowerOfTwo;
    u := Uberblock(512, 512, Raw, 2, DATA_START + 1, 0x1_0000, EMPTY_OBJ, EMPTY_OBJ);
    img := u.SlotBytes(p) + Zeros(0x1_0000 - SLOT_SIZE);
    LoneSlot(p, img, u);
    Power512();
    MisalignedUse(p, img, u);
  }

  lemma Power512()
    ensures PowerOfTwo(512)
  {
    assert PowerOfTwo(1) && PowerOfTwo(2) && PowerOfTwo(4) && PowerOfTwo(8) && PowerOfTwo(16) && PowerOfTwo(32);
    assert PowerOfTwo(64) && PowerOfTwo(128) && PowerOfTwo(256);
  }

  lemma MisalignedUse(p: Primitives, img: seq<byte>, u: Uberblock)
    requires u.allocUnit == 512 && u.frontier == DATA_START + 1 && |img| == 0x1_0000
    ensures !Multiple(u.frontier, u.allocUnit) && SpaceOf(u, |img|).Allocate(1).1 == Ok(u.frontier)
    ensures forall ptr: BlockPtr :: ptr.addr == u.frontier ==> GeoOf(p, u, |img|).ReadBlock(img, ptr).Err?
  {
    DivCeilIs(1, 512, 1);
  }

  /** An image whose first slot holds `u` and whose second is blank elects `u`. */
  lemma LoneSlot(p: Primitives, img: seq<byte>, u: Uberblock)
    requires |img| >= DATA_START && u.txg % 2 == 0
    requires img[..SLOT_SIZE] == u.SlotBytes(p) && img[SLOT_SIZE..DATA_START] == Zeros(SLOT_SIZE)
    ensures Elect(p, img) == Some(u)
  {
    hide Uberblock.ClassifySlot, Uberblock.SlotBytes;
    SlotRoundTrip(p, u);
    BlankSlot(p);
    assert Slot(img, 0) == img[..SLOT_SIZE];
    CommittedIsElected(p, img, u);
  }

  /** A blank slot holds no uberblock. */
  lemma BlankSlot(p: Primitives)
    ensures Uberblock.ClassifySlot(p, Zeros(SLOT_SIZE)) == Ok(NoMagic)
  {
    assert Zeros(SLOT_SIZE)[0..8][0] == 0;
  }

  // ----- runs of writes -----

  /** A run: the image and allocator state after each step, successful or not. */
  ghost predicate Run(imgs: seq<seq<byte>>, spaces: seq<Space>) {
    && |imgs| == |spaces| > 0
    && forall k {:trigger imgs[k]} :: 0 <= k < |imgs| - 1 ==> Evolves(imgs[k], spaces[k], imgs[k + 1], spaces[k + 1])
  }

  /** Over any run, every object held at the start is held with the same content at the end. */
  lemma {:induction false} RunSurvives(g: Geometry, imgs: seq<seq<byte>>, spaces: seq<Space>,
                                       objs: seq<ObjRef>, contents: seq<seq<byte>>)
    requires g.Valid() && Run(imgs, spaces)
    requires AllHeld(g, imgs[0], spaces[0], objs, contents)
    ensures AllHeld(g, imgs[|imgs| - 1], spaces[|imgs| - 1], objs, contents)
    decreases |imgs|
  {
    hide AllHeld, Evolves;
    if |imgs| > 1 {
      var imgs1, spaces1 := imgs[1..], spaces[1..];
      assert Evolves(imgs[0], spaces[0], imgs[0 + 1], spaces[0 + 1]);
      AllSurvive(g, imgs[0], spaces[0], imgs1[0], spaces1[0], objs, contents);
      forall k | 0 <= k < |imgs1| - 1 ensures Evolves(imgs1[k], spaces1[k], imgs1[k + 1], spaces1[k + 1]) {
        assert imgs1[k] == imgs[k + 1];
      }
      RunSurvives(g, imgs1, spaces1, objs, contents);
    }
  }

  /** One write of a run: splice `data` into object number `target` at `offset`. */
  datatype WriteOp = WriteOp(target: nat, offset: u64, data: seq<byte>)

  /** The range written ends at an address there is. */
  predicate InReach(op: WriteOp) {
    op.data == [] || op.offset + |op.data| <= U64_MAX
  }

  /** When a write succeeds and when it may fail, with `known` objects before it: a failure
      is for want of the object, of addresses, of space for some block, or of power. */
  ghost predicate Fate(g: Geometry, known: nat, op: WriteOp, done: bool, s: Space, dead: bool) {
    if done then op.target < known && InReach(op)
    else op.target >= known || !InReach(op) || Exhausted(g, s) || dead
  }

  /** Perform the writes one after the other, going on after failures, and collect the objects
      they produce. Every object, old or new, keeps its exact content to the end; the new ones
      hold what the successful writes made; and each failure has its reason. */
  method Replay(fs: Eofs, ops: seq<WriteOp>, objs: seq<ObjRef>, ghost contents: seq<seq<byte>>)
    returns (objs': seq<ObjRef>, done: seq<bool>, ghost contents': seq<seq<byte>>)
    requires fs.Valid() && AllHeld(fs.geo, fs.Img(), fs.Sp(), objs, contents)
    modifies fs.dev, fs.dev.inner.data, fs.alloc
    ensures fs.Valid() && AllHeld(fs.geo, fs.Img(), fs.Sp(), objs', contents')
    ensures objs <= objs' && |done| == |ops| && contents' == Replayed(contents, ops, done)
    ensures forall k {:trigger done[k]} :: 0 <= k < |ops| ==>
              Fate(fs.geo, |Replayed(contents, ops[..k], done[..k])|, ops[k], done[k], fs.Sp(), fs.dev.dead)
    ensures Evolves(old(fs.Img()), old(fs.Sp()), fs.Img(), fs.Sp())
    ensures Steady(old(fs.dev.Now()), old(fs.Sp()), fs.dev.Now())
  {
    hide Evolves, Geometry.Holds, Geometry.Kept, AllHeld, Spliced, Space.Valid, Exhausted, InReach, Replayed, Steady;
    EvolvesRefl(fs.Img(), fs.Sp());
    SteadyRefl(fs.dev.Now(), fs.Sp());
    assert Replayed(contents, [], []) == contents by { NothingReplayed(contents); }
    objs', contents', done := objs, contents, [];
    HeldLengths(fs.geo, fs.Img(), fs.Sp(), objs, contents);
    while |done| < |ops|
      invariant |done| <= |ops| && fs.Valid()
      invariant AllHeld(fs.geo, fs.Img(), fs.Sp(), objs', contents') && |objs'| == |contents'|
      invariant objs <= objs'
      invariant contents' == Replayed(contents, ops[..|done|], done)
      invariant forall k {:trigger done[k]} :: 0 <= k < |done| ==>
                  Fate(fs.geo, |Replayed(contents, ops[..k], done[..k])|, ops[k], done[k], fs.Sp(), fs.dev.dead)
      invariant Evolves(old(fs.Img()), old(fs.Sp()), fs.Img(), fs.Sp())
      invariant Steady(old(fs.dev.Now()), old(fs.Sp()), fs.dev.Now())
      decreases |ops| - |done|
    {
      var op := ops[|done|];
      ghost var img, s, d, known, dead := fs.Img(), fs.Sp(), fs.dev.Now(), |contents'|, fs.dev.dead;
      var ok := false;
      EvolvesRefl(img, s);
      if op.target < |objs'| {
        ghost var c := contents'[op.target];
        HeldOne(fs.geo, img, s, objs', contents', op.target);
        var r := fs.WriteObjectRange(objs'[op.target], op.offset, op.data, c);
        WriteFate(fs.geo, s, img, objs'[op.target], op, c, fs.Img(), fs.Sp(), r, fs.dev.dead);
        EvolvesTrans(old(fs.Img()), old(fs.Sp()), img, s, fs.Img(), fs.Sp());
        StillDead(d, s, fs.dev.Now());
        SteadyTrans(old(fs.dev.Now()), old(fs.Sp()), d, s, fs.dev.Now());
        AllSurvive(fs.geo, img, s, fs.Img(), fs.Sp(), objs', contents');
        if r.Ok? {
          ok := true;
          HeldNew(fs.geo, s, img, objs', contents', op, fs.Img(), fs.Sp(), r.value);
          objs', contents' := objs' + [r.value], contents' + [Written(c, op.offset, op.data)];
        }
      }
      assert Fate(fs.geo, known, op, ok, fs.Sp(), fs.dev.dead);
      FatesStay(fs.geo, contents, ops, done, img, s, dead, fs.Img(), fs.Sp(), fs.dev.dead);
      ReplayedStep(contents, ops, done, ok);
      ghost var before := done;
      done := done + [ok];
      assert done[..|before|] == before;
      assert forall k :: 0 <= k < |before| ==> done[..k] == before[..k];
    }
    assert ops[..|done|] == ops;
  }

  lemma StillDead(d: Moment, s: Space, d': Moment)
    requires Steady(d, s, d')
    ensures d.power.dead ==> d'.power.dead
  {
  }

  /** A reason to fail does not go away. */
  lemma FatesStay(g: Geometry, contents: seq<seq<byte>>, ops: seq<WriteOp>, done: seq<bool>,
                  img: seq<byte>, s: Space, dead: bool, img': seq<byte>, s': Space, dead': bool)
    requires |done| <= |ops| && Evolves(img, s, img', s') && (dead ==> dead')
    requires forall k {:trigger done[k]} :: 0 <= k < |done| ==>
               Fate(g, |Replayed(contents, ops[..k], done[..k])|, ops[k], done[k], s, dead)
    ensures forall k {:trigger done[k]} :: 0 <= k < |done| ==>
               Fate(g, |Replayed(contents, ops[..k], done[..k])|, ops[k], done[k], s', dead')
  {
    hide Replayed, Exhausted, InReach, Shrinks;
    if Exhausted(g, s) { ExhaustedStays(g, s, s'); }
  }

  /** What the outcome of one write of an object that exists says about its fate. */
  lemma WriteFate(g: Geometry, s0: Space, img0: seq<byte>, obj: ObjRef, op: WriteOp, c: seq<byte>,
                  img: seq<byte>, s: Space, r: Result<ObjRef>, dead: bool)
    requires g.Valid() && g.Collects(img0, obj)
    requires op.data == [] ==> r.Ok?
    requires r.Ok? && op.data != [] ==> Spliced(g, s0, g.Leaves(img0, obj), c, op.offset, op.data, img, s, r.value)
    requires r.Err? ==> (r.error == NoSpace && Exhausted(g, s)) || (r.error == Device(Io) && dead)
                        || (r.error == NoSpace && op.offset + |op.data| > U64_MAX)
    ensures r.Ok? ==> InReach(op)
    ensures r.Err? ==> !InReach(op) || Exhausted(g, s) || dead
  {
    hide Geometry.Collects, Geometry.Leaves, Geometry.Kept, Exhausted;
  }

  /** The contents after a run, given which of its writes succeeded. */
  ghost function Replayed(contents: seq<seq<byte>>, ops: seq<WriteOp>, done: seq<bool>): (r: seq<seq<byte>>)
    requires |done| == |ops|
    ensures contents <= r
    decreases |ops|
  {
    if ops == [] then contents
    else
      var n := |ops| - 1;
      var before := Replayed(contents, ops[..n], done[..n]);
      if done[n] && ops[n].target < |before|
      then before + [Written(before[ops[n].target], ops[n].offset, ops[n].data)]
      else before
  }

  lemma ReplayedStep(contents: seq<seq<byte>>, ops: seq<WriteOp>, done: seq<bool>, ok: bool)
    requires |done| < |ops|
    ensures var before, op := Replayed(contents, ops[..|done|], done), ops[|done|];
            Replayed(contents, ops[..|done| + 1], done + [ok]) ==
              if ok && op.target < |before| then before + [Written(before[op.target], op.offset, op.data)] else before
  {
    assert ops[..|done| + 1][..|done|] == ops[..|done|] && (done + [ok])[..|done|] == done;
  }

  lemma NothingReplayed(contents: seq<seq<byte>>)
    ensures Replayed(contents, [], []) == contents
  {
  }

  lemma HeldNew(g: Geometry, s0: Space, img0: seq<byte>, objs: seq<ObjRef>, contents: seq<seq<byte>>, op: WriteOp,
                img: seq<byte>, s: Space, obj: ObjRef)
    requires g.Valid() && AllHeld(g, img, s, objs, contents) && AllHeld(g, img0, s0, objs, contents)
    requires op.target < |objs|
    requires op.data == [] ==> obj == objs[op.target]
    requires op.data != [] ==>
               g.Collects(img0, objs[op.target])
               && Spliced(g, s0, g.Leaves(img0, objs[op.target]), contents[op.target], op.offset, op.data, img, s, obj)
    ensures AllHeld(g, img, s, objs + [obj], contents + [Written(contents[op.target], op.offset, op.data)])
  {
    hide Geometry.Holds, Geometry.Kept, Splice;
    assert HeldAt(g, img, s, objs[op.target], contents[op.target]);
    var objs', contents' := objs + [obj], contents + [Written(contents[op.target], op.offset, op.data)];
    assert HeldAt(g, img, s, obj, contents'[|objs|]);
    forall i | 0 <= i < |objs'| ensures HeldAt(g, img, s, objs'[i], contents'[i]) {
      if i < |objs| { assert objs'[i] == objs[i]; }
    }
  }

  // ----- a whole transaction -----

  /** The root a transaction publishes: object number `root` if there is one by then. */
  function Published(objs: seq<ObjRef>, root: nat, otherwise: ObjRef): ObjRef {
    if root < |objs| then objs[root] else otherwise
  }

  /** Crash consistency: run any writes, point the live root at one of the objects, commit,
      and lose power anywhere in between. The image then elects either the transaction that
      was committed before or the new one, the new one certainly if the commit reported
      success; the old root holds its exact content in either case, and the new one holds
      exactly what the writes that succeeded made of it. The objects in `disk`, which have
      nothing in `wide`, and what is elected withstand any loss of what was not flushed. */
  method Transaction(fs: Eofs, ops: seq<WriteOp>, objs: seq<ObjRef>, ghost contents: seq<seq<byte>>, root: nat, ghost u: Uberblock,
                     ghost wide: Space, ghost disk: seq<ObjRef>, ghost diskContents: seq<seq<byte>>)
    returns (r: Result<u64>, objs': seq<ObjRef>, done: seq<bool>, ghost contents': seq<seq<byte>>,
             ghost mid: seq<byte>, ghost power: Power, ghost next: Uberblock)
    requires fs.Valid() && fs.OnDisk(u) && fs.committedTxg < U64_MAX
    requires AllHeld(fs.geo, fs.Img(), fs.Sp(), objs, contents)
    requires Safe(fs.geo, fs.dev.Now(), fs.Sp(), wide, disk, diskContents)
    modifies fs, fs.dev, fs.dev.inner.data, fs.alloc
    // What the writes did.
    ensures fs.Valid() && AllHeld(fs.geo, fs.Img(), fs.Sp(), objs', contents')
    ensures objs <= objs' && |done| == |ops| && contents' == Replayed(contents, ops, done)
    ensures forall k {:trigger done[k]} :: 0 <= k < |ops| ==>
              Fate(fs.geo, |Replayed(contents, ops[..k], done[..k])|, ops[k], done[k], fs.Sp(), power.dead)
    // What the commit was to publish.
    ensures next == Uberblock(fs.geo.blockSize, fs.geo.allocUnit, fs.geo.codec, old(fs.committedTxg) + 1, fs.Sp().frontier,
                              fs.formatDeviceSize, Published(objs', root, old(fs.liveRoot)), old(fs.snapshots))
    ensures root < |objs'| ==> fs.geo.Holds(fs.Img(), next.liveRoot, Replayed(contents, ops, done)[root])
    ensures forall i :: 0 <= i < |objs| ==> objs'[i] == objs[i] && fs.geo.Holds(fs.Img(), objs[i], contents[i])
    // What is on the device, commit or crash.
    ensures r.Ok? && (old(fs.dirty) || root < |objs'|) ==> fs.OnDisk(next) && Elect(fs.geo.prims, fs.Img()) == Some(next)
    ensures !old(fs.dirty) && root >= |objs'| ==> r == Ok(old(fs.committedTxg)) && Elect(fs.geo.prims, fs.Img()) == Some(u)
    ensures r.Err? ==> r.error == Device(Io) && fs.dev.dead
    ensures NoAccidents(fs.geo.prims, next, old(Slot(fs.Img(), SlotOf(fs.committedTxg + 1)))) ==>
              (Elect(fs.geo.prims, fs.Img()) == Some(u) || Elect(fs.geo.prims, fs.Img()) == Some(next))
    // How it came about.
    ensures Evolves(old(fs.Img()), old(fs.Sp()), mid, fs.Sp()) && AllHeld(fs.geo, mid, fs.Sp(), objs', contents')
    ensures Slot(mid, 0) == old(Slot(fs.Img(), 0)) && Slot(mid, 1) == old(Slot(fs.Img(), 1))
    ensures fs.Img() == mid || fs.Img() == AfterCommit(fs.geo.prims, mid, power, next)
    // What is left when the device loses any of what was not flushed, and nothing after success.
    ensures AllHeld(fs.geo, mid, wide, disk, diskContents)
    ensures Withstands(fs.geo, u, next, wide, disk, diskContents, fs.Sp(), objs', contents', mid, fs.dev.cache)
    ensures r.Ok? && (old(fs.dirty) || root < |objs'|) ==> fs.dev.cache == Cache(fs.Img(), [])
  {
    hide Evolves, Geometry.Holds, Geometry.Kept, AllHeld, Space.Valid, Uberblock.ClassifySlot, NoAccidents, Elect, Slot, Steady,
      Committed, Replayed, Fate, AfterCommit, Safe, Withstands;
    HeldLengths(fs.geo, fs.Img(), fs.Sp(), objs, contents);
    objs', done, contents' := Replay(fs, ops, objs, contents);
    SlotsSteady(old(fs.dev.Now()), old(fs.Sp()), fs.dev.Now(), fs.geo.prims, u);
    SafeStays(fs.geo, old(fs.dev.Now()), old(fs.Sp()), fs.dev.Now(), fs.Sp(), wide, disk, diskContents);
    SafeHeld(fs.geo, fs.dev.Now(), fs.Sp(), wide, disk, diskContents);
    if root < |objs'| {
      fs.liveRoot, fs.dirty := objs'[root], true;
    }
    NextSlot(fs.geo.prims, fs.Img(), u);
    next, mid, power := fs.Pending(), fs.Img(), fs.dev.State();
    CommittedIsElectedIf(fs.geo.prims, mid, u);
    ghost var before := fs.dev.Now();
    r := fs.Commit(u);
    assert CommitLeft(fs.geo.prims, before, power, next, fs.Img(), fs.dev.cache);
    CommitWithstands(fs.geo, before, u, next, wide, disk, diskContents, fs.Sp(), objs', contents', power, fs.Img(), fs.dev.cache);
    AllSurviveCommit(fs.geo, mid, fs.Sp(), fs.Img(), objs', contents');
    CommittedIsElectedIf(fs.geo.prims, fs.Img(), u);
    CommittedIsElectedIf(fs.geo.prims, fs.Img(), next);
    HeldLengths(fs.geo, fs.Img(), fs.Sp(), objs', contents');
    forall i | 0 <= i < |objs'|
      ensures fs.geo.Holds(fs.Img(), objs'[i], contents'[i])
    {
      HeldOne(fs.geo, fs.Img(), fs.Sp(), objs', contents', i);
    }
  }

  /** The slot that keeps the old transaction is never newer than the next one. */
  lemma NextSlot(p: Primitives, img: seq<byte>, u: Uberblock)
    requires |img| >= DATA_START
    ensures Committed(p, img, u) ==> NotNewer(p, Slot(img, 1 - SlotOf(u.txg + 1)), u.txg + 1)
  {
    hide Uberblock.ClassifySlot, Slot;
  }

  lemma SlotsSteady(d: Moment, s: Space, d': Moment, prims: Primitives, u: Uberblock)
    requires Steady(d, s, d')
    ensures |d'.img| >= DATA_START && Slot(d.img, 0) == Slot(d'.img, 0) && Slot(d.img, 1) == Slot(d'.img, 1)
    ensures Committed(prims, d.img, u) ==> Committed(prims, d'.img, u)
  {
    hide Uberblock.ClassifySlot, CacheGrows;
    SliceOfSlice(d.img, 0, DATA_START, 0, SLOT_SIZE);
    SliceOfSlice(d'.img, 0, DATA_START, 0, SLOT_SIZE);
    SliceOfSlice(d.img, 0, DATA_START, SLOT_SIZE, DATA_START);
    SliceOfSlice(d'.img, 0, DATA_START, SLOT_SIZE, DATA_START);
  }
}
