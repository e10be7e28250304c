/**
  The read/write engine: writing and reading single blocks, building and walking block
  trees, and range reads and writes of byte objects, over a device that may lose power.
*/
module Engine {
  import opened Bytes
  import opened Arith
  import opened Format
  import opened Space
  import opened Device
  import opened BlockTree
  import opened Content
  import opened Election

  // ----- writing one block -----

  /** `ptr` is where `logical` was just stored: taken from what was available before, out of
      reach afterwards, described exactly, and reading back as `logical`. */
  ghost predicate WroteBlock(g: Geometry, s: Space, img': seq<byte>, s': Space, logical: seq<byte>, ptr: BlockPtr) {
    var (codec, payload) := g.Stored(logical);
    && s.unit > 0 && s.Available(ptr.addr) && g.Retained(s', ptr)
    && ptr.lsize == |logical| && ptr.psize == |payload| && ptr.codec == codec
    && ptr.hash == g.prims.blake3(logical)
    && InRange(|img'|, ptr.addr, |payload|) && img'[ptr.addr..ptr.addr + |payload|] == payload
    && g.ReadBlock(img', ptr) == Ok(logical)
  }

  lemma AlignedBound(s: Space, len: nat)
    requires s.unit > 0
    ensures s.Aligned(len) < len + s.unit
  {
    var q := DivCeil(len, s.unit);
    if q > 0 { assert q * s.unit == (q - 1) * s.unit + s.unit; }
  }

  lemma PayloadSize(g: Geometry, logical: seq<byte>)
    requires g.Valid() && 0 < |logical|
    ensures 0 < |g.Stored(logical).1| <= |logical|
  {
  }

  lemma ReadsBack(g: Geometry, img: seq<byte>, logical: seq<byte>, ptr: BlockPtr)
    requires g.Valid() && 0 < |logical| <= g.blockSize
    requires DATA_START <= ptr.addr && ptr.addr % g.allocUnit == 0 && ptr.addr + ptr.psize <= g.deviceSize
    requires ptr.lsize == |logical| && ptr.psize == |g.Stored(logical).1| && ptr.codec == g.Stored(logical).0
    requires ptr.hash == g.prims.blake3(logical)
    requires ReadImage(img, ptr.addr, ptr.psize) == Ok(g.Stored(logical).1)
    ensures g.ReadBlock(img, ptr) == Ok(logical)
  {
    PayloadSize(g, logical);
    assert g.CheckPtr(ptr).Ok?;
    assert g.Decode(ptr, g.Stored(logical).1) == Ok(logical);
  }

  /** Allocating for a block and writing its payload: whatever the device does, only space
      that was available changes; if it succeeds the block is there. */
  lemma WriteBlockSound(g: Geometry, img: seq<byte>, p: Power, s: Space, logical: seq<byte>)
    requires g.Valid() && s.Valid() && s.unit == g.allocUnit && s.deviceSize == g.deviceSize == |img|
    requires 0 < |logical| <= g.blockSize
    ensures var (codec, payload) := g.Stored(logical);
            var (s1, r1) := s.Allocate(|payload|);
            && s1.Valid()
            && (r1.Err? ==> r1.error == NoSpace && s1 == s && Exhausted(g, s))
            && (r1.Ok? ==>
                 var (img1, p1, r2) := AfterWrite(img, p, r1.value, payload);
                 && Evolves(img, s, img1, s1)
                 && (forall x :: r1.value <= x < r1.value + |payload| ==> s.Available(x))
                 && img1[..DATA_START] == img[..DATA_START]
                 && PowerStep(p, p1)
                 && (r2.Err? ==> r2.error == Device(Io) && p1.dead)
                 && (r2.Ok? ==> WroteBlock(g, s, img1, s1, logical,
                       BlockPtr(r1.value, |logical|, |payload|, codec, g.prims.blake3(logical)))))
  {
    hide Shrinks, Evolves, WroteBlock, AfterWrite, TakesExactly, Multiple;
    var (codec, payload) := g.Stored(logical);
    PayloadSize(g, logical);
    AllocateSound(s, |payload|);
    AllocateShrinks(s, |payload|);
    AllocateFails(s, |payload|);
    var (s1, r1) := s.Allocate(|payload|);
    if r1.Ok? {
      var ptr := BlockPtr(r1.value, |logical|, |payload|, codec, g.prims.blake3(logical));
      PlaceBlock(g, img, p, s, s1, logical, ptr);
    } else {
      assert NoRoomFor(s, |payload|);
    }
  }

  lemma PlaceBlock(g: Geometry, img: seq<byte>, p: Power, s: Space, s1: Space, logical: seq<byte>, ptr: BlockPtr)
    requires g.Valid() && s.unit == g.allocUnit && g.deviceSize == |img|
    requires 0 < |logical| <= g.blockSize
    requires ptr.lsize == |logical| && ptr.psize == |g.Stored(logical).1| && ptr.codec == g.Stored(logical).0
    requires ptr.hash == g.prims.blake3(logical)
    requires g.Placed(ptr) && TakesExactly(s, s1, ptr.addr, g.Padded(ptr)) && Shrinks(s, s1)
    ensures var (img1, p1, r2) := AfterWrite(img, p, ptr.addr, g.Stored(logical).1);
            && Evolves(img, s, img1, s1)
            && (forall x :: ptr.addr <= x < ptr.addr + ptr.psize ==> s.Available(x))
            && img1[..DATA_START] == img[..DATA_START]
            && PowerStep(p, p1)
            && (r2.Err? ==> r2.error == Device(Io) && p1.dead)
            && (r2.Ok? ==> WroteBlock(g, s, img1, s1, logical, ptr))
  {
    hide Shrinks;
    var payload := g.Stored(logical).1;
    var (img1, p1, r2) := AfterWrite(img, p, ptr.addr, payload);
    WriteContract(img, p, ptr.addr, payload);
    forall x | 0 <= x < |img| && !s.Available(x) ensures img1[x] == img[x] {
      assert !Within(x, ptr.addr, g.Padded(ptr));
    }
    forall x | ptr.addr <= x < ptr.addr + ptr.psize ensures s.Available(x) {
      assert Within(x, ptr.addr, g.Padded(ptr));
    }
    if r2.Ok? {
      assert Within(ptr.addr, ptr.addr, g.Padded(ptr));
      ReadsBack(g, img1, logical, ptr);
    }
  }

  /** The writes since are of available space, and the image is one that may remain. */
  ghost predicate CacheGrows(d: Moment, s: Space, d': Moment) {
    && d'.cache.durable == d.cache.durable
    && (MayRemain(d.cache, d.img) ==> MayRemain(d'.cache, d'.img))
    && forall x :: Touched(d'.cache, x) ==> Touched(d.cache, x) || s.Available(x)
  }

  /** No write of a block touches an uberblock slot, what is not available, or a power that is
      out. */
  ghost predicate Steady(d: Moment, s: Space, d': Moment) {
    && |d.img| >= DATA_START && |d'.img| >= DATA_START && d'.img[..DATA_START] == d.img[..DATA_START]
    && PowerStep(d.power, d'.power) && CacheGrows(d, s, d')
  }

  lemma SteadyRefl(d: Moment, s: Space)
    requires |d.img| >= DATA_START
    ensures Steady(d, s, d)
  {
  }

  lemma SteadyTrans(d: Moment, s: Space, d1: Moment, s1: Space, d2: Moment)
    requires Steady(d, s, d1) && Steady(d1, s1, d2) && Evolves(d.img, s, d1.img, s1)
    ensures Steady(d, s, d2)
  {
    hide MayRemain, Touched, Space.Available, Shrinks;
  }

  /** A write of available space. */
  lemma NotedSteady(d: Moment, s: Space, offset: nat, data: seq<byte>)
    requires forall x :: offset <= x < offset + |data| ==> s.Available(x)
    ensures var w := AfterWrite(d.img, d.power, offset, data);
      CacheGrows(d, s, Moment(w.0, w.1, Noted(d.cache, d.power, offset, data)))
  {
    hide MayRemain, Touched, Space.Available, AfterWrite, Noted;
    var c, w := Noted(d.cache, d.power, offset, data), AfterWrite(d.img, d.power, offset, data);
    NotedDurable(d, offset, data);
    if MayRemain(d.cache, d.img) {
      NotedRemains(d.cache, d.img, d.power, offset, data);
      assert MayRemain(c, w.0);
    }
    forall x
      ensures Touched(c, x) ==> Touched(d.cache, x) || s.Available(x)
    {
      NotedTouches(d.cache, d.power, offset, data, x);
    }
    assert CacheGrows(d, s, Moment(w.0, w.1, c));
  }

  lemma NotedDurable(d: Moment, offset: nat, data: seq<byte>)
    ensures Noted(d.cache, d.power, offset, data).durable == d.cache.durable
  {
  }

  class Eofs {
    const geo: Geometry
    const dev: CutDevice
    const alloc: Allocator
    /** The device size recorded at format time. */
    const formatDeviceSize: u64
    var committedTxg: u64
    var committedLiveRoot: ObjRef
    var committedSnapshots: ObjRef
    /** The pending, possibly uncommitted, roots. */
    var liveRoot: ObjRef
    var snapshots: ObjRef
    var dirty: bool

    ghost function Img(): seq<byte>
      reads dev.inner.data
    {
      dev.Image()
    }

    ghost function Sp(): Space
      reads alloc
    {
      alloc.State()
    }

    ghost predicate Valid()
      reads dev.inner.data, alloc
    {
      && geo.Valid() && Sp().Valid()
      && Sp().unit == geo.allocUnit && Sp().deviceSize == geo.deviceSize == |Img()|
    }

    /** A file system over `dev` in the state an uberblock records. */
    constructor (prims: Primitives, dev: CutDevice, deviceSize: u64, u: Uberblock, dirty: bool)
      ensures this.dev == dev && fresh(alloc) && !fresh(dev)
      ensures geo == Geometry(u.blockSize, u.allocUnit, u.codec, deviceSize, prims)
      ensures Sp() == Space(u.allocUnit, deviceSize, u.frontier, [])
      ensures formatDeviceSize == u.deviceSize && committedTxg == u.txg && this.dirty == dirty
      ensures committedLiveRoot == liveRoot == u.liveRoot && committedSnapshots == snapshots == u.snapshots
    {
      this.geo := Geometry(u.blockSize, u.allocUnit, u.codec, deviceSize, prims);
      this.dev, this.dirty := dev, dirty;
      this.alloc := new Allocator(u.allocUnit, deviceSize, u.frontier);
      this.formatDeviceSize, this.committedTxg := u.deviceSize, u.txg;
      this.committedLiveRoot, this.committedSnapshots := u.liveRoot, u.snapshots;
      this.liveRoot, this.snapshots := u.liveRoot, u.snapshots;
    }

    // ----- transactions -----

    /** The uberblock the next commit writes. */
    ghost function Pending(): Uberblock
      requires committedTxg < U64_MAX
      reads this, alloc
    {
      Uberblock(geo.blockSize, geo.allocUnit, geo.codec, committedTxg + 1, alloc.frontier, formatDeviceSize,
                liveRoot, snapshots)
    }

    /** The committed transaction is the one on disk. */
    ghost predicate OnDisk(u: Uberblock)
      requires Valid()
      reads this, dev.inner.data, alloc
    {
      && u.txg == committedTxg && u.liveRoot == committedLiveRoot && u.snapshots == committedSnapshots
      && Committed(geo.prims, Img(), u)
    }

    /** Write the next uberblock into the slot the previous commit did not use. */
    method Commit(ghost u: Uberblock) returns (r: Result<u64>)
      requires Valid() && committedTxg < U64_MAX
      modifies this, dev, dev.inner.data
      ensures Valid() && liveRoot == old(liveRoot) && snapshots == old(snapshots)
      ensures !old(dirty) ==> r == Ok(committedTxg) && Img() == old(Img()) && unchanged(this)
      ensures old(dirty) && r.Ok? ==>
                && r.value == committedTxg == old(committedTxg) + 1 && !dirty
                && committedLiveRoot == liveRoot && committedSnapshots == snapshots
      ensures r.Ok? && old(dirty && NotNewer(geo.prims, Slot(Img(), 1 - SlotOf(committedTxg + 1)), committedTxg + 1))
              ==> OnDisk(old(Pending()))
      ensures r.Err? ==> r.error == Device(Io) && dev.dead && unchanged(this)
      ensures old(dirty && OnDisk(u) && NoAccidents(geo.prims, Pending(), Slot(Img(), SlotOf(committedTxg + 1))))
              ==> Committed(geo.prims, Img(), u) || Committed(geo.prims, Img(), old(Pending()))
      ensures Img() == old(Img()) || Img() == old(AfterCommit(geo.prims, Img(), dev.State(), Pending()))
      ensures forall x :: DATA_START <= x < |Img()| ==> Img()[x] == old(Img()[x])
      // Everything is durable before the slot is written, and the slot before success is reported.
      ensures !old(dirty) ==> dev.cache == old(dev.cache)
      ensures old(dirty) && r.Ok? ==> dev.cache == Cache(Img(), [])
      ensures r.Err? ==>
                || (Img() == old(Img()) && dev.cache == old(dev.cache))
                || dev.cache == old(Cache(Img(), [Write(SlotOf(committedTxg + 1) * SLOT_SIZE, Pending().SlotBytes(geo.prims))]))
    {
      hide Uberblock.SlotBytes, Slot, NoAccidents, Elect, Committed, AfterWrite, NotNewer, Space.Valid;
      if !dirty {
        return Ok(committedTxg);
      }
      ghost var img0, p0 := Img(), dev.State();
      ghost var pending := Pending();
      var _ :- dev.Flush();
      var txg := committedTxg + 1;
      var ub := Uberblock(geo.blockSize, geo.allocUnit, geo.codec, txg, alloc.frontier, formatDeviceSize,
                          liveRoot, snapshots);
      var slot := ub.ToSlotBytes(geo.prims);
      var offset := SlotOf(txg) * SLOT_SIZE;
      CommitWrite(geo.prims, img0, p0, u, ub);
      var _ :- dev.WriteAt(offset, slot[..]);
      r := FlushAs(txg);
      if r.Ok? {
        committedTxg, committedLiveRoot, committedSnapshots, dirty := txg, liveRoot, snapshots, false;
      }
    }

    method FlushAs(txg: u64) returns (r: Result<u64>)
      modifies dev`cache
      ensures r == if dev.dead then Err(Device(Io)) else Ok(txg)
      ensures dev.cache == if dev.dead then old(dev.cache) else Cache(Img(), [])
    {
      var _ :- dev.Flush();
      return Ok(txg);
    }

    /** Discard every change since the last commit. */
    method Rollback()
      modifies this
      ensures liveRoot == committedLiveRoot == old(committedLiveRoot)
      ensures snapshots == committedSnapshots == old(committedSnapshots)
      ensures !dirty && committedTxg == old(committedTxg)
    {
      liveRoot, snapshots, dirty := committedLiveRoot, committedSnapshots, false;
    }

    /** Writing fails only because the allocator cannot place a block or the power is out. */
    ghost predicate WriteFailure(e: FsError)
      reads dev, alloc
    {
      (e == NoSpace && Exhausted(geo, Sp())) || (e == Device(Io) && dev.dead)
    }

    method WriteBlock(logical: seq<byte>) returns (r: Result<BlockPtr>)
      requires Valid() && 0 < |logical| <= geo.blockSize
      modifies dev, dev.inner.data, alloc
      ensures Valid()
      ensures Evolves(old(Img()), old(Sp()), Img(), Sp())
      ensures Steady(old(dev.Now()), old(Sp()), dev.Now())
      ensures r.Ok? ==> WroteBlock(geo, old(Sp()), Img(), Sp(), logical, r.value)
      ensures r.Err? ==> WriteFailure(r.error)
    {
      SteadyRefl(dev.Now(), Sp());
      WriteBlockSound(geo, Img(), dev.State(), Sp(), logical);
      PayloadSize(geo, logical);
      var hash := geo.prims.blake3(logical);
      var codec, payload := Raw, logical;
      if geo.codec == Lz4 {
        var compressed := geo.prims.compress(logical);
        if |compressed| < |logical| {
          codec, payload := Lz4, compressed;
        }
      }
      AlignedBound(Sp(), |payload|);
      var addr :- alloc.Allocate(|payload|);
      NotedSteady(dev.Now(), old(Sp()), addr, payload);
      var _ :- dev.WriteAt(addr, payload);
      return Ok(BlockPtr(addr, |logical|, |payload|, codec, hash));
    }

    /** The stored bytes of a block, checked against its pointer. */
    method ReadBlock(ptr: BlockPtr) returns (r: Result<seq<byte>>)
      requires geo.Valid()
      ensures r == geo.ReadBlock(Img(), ptr)
    {
      if ptr.IsNull() {
        return Err(Corrupt(NullPointer));
      }
      if ptr.lsize == 0 || ptr.lsize > geo.blockSize || ptr.psize == 0 || ptr.psize > geo.blockSize {
        return Err(Corrupt(ImpossibleSizes));
      }
      if ptr.addr < DATA_START || ptr.addr % geo.allocUnit != 0 || ptr.addr + ptr.psize > geo.deviceSize {
        return Err(Corrupt(OutsideDataRegion));
      }
      var payload :- dev.inner.ReadAt(ptr.addr, ptr.psize);
      var logical := payload;
      if ptr.codec == Raw {
        if ptr.psize != ptr.lsize {
          return Err(Corrupt(RawSizesDiffer));
        }
      } else {
        var out := geo.prims.decompress(payload, ptr.lsize);
        if out == None {
          return Err(ChecksumMismatch);
        }
        logical := out.value;
        if |logical| != ptr.lsize {
          return Err(Corrupt(DecompressedSize));
        }
      }
      if geo.prims.blake3(logical) != ptr.hash {
        return Err(ChecksumMismatch);
      }
      return Ok(logical);
    }

    // ----- references and trees -----

    /** The height that check_object expects: grow a saturating capacity level by level. */
    method CanonicalLevel(leafCount: nat) returns (level: nat)
      requires geo.Valid() && leafCount <= U64_MAX
      ensures level == geo.Level(leafCount)
    {
      var fanout := geo.Fanout();
      var capacity := 1;
      level := 0;
      while capacity < leafCount
        invariant capacity == Min(Pow(fanout, level), U64_MAX)
        invariant level > 0 ==> Pow(fanout, level - 1) < leafCount
        decreases leafCount - capacity
      {
        SaturatingStep(fanout, level);
        capacity := Min(capacity * fanout, U64_MAX);
        level := level + 1;
      }
      LevelIs(geo, leafCount, level);
    }

    /** Refuse a reference before any work is done for it. */
    method CheckObject(obj: ObjRef) returns (r: Result<nat>)
      requires geo.Valid()
      ensures r == geo.CheckObject(obj)
    {
      if obj.size == 0 {
        if !obj.root.IsNull() || obj.level != 0 {
          return Err(Corrupt(EmptyWithRoot));
        }
        return Ok(0);
      }
      if obj.root.IsNull() {
        return Err(Corrupt(MissingRoot));
      }
      var leafCount := DivCeil(obj.size, geo.blockSize);
      LeafCountBound(geo, obj.size);
      if leafCount > geo.MaxLeaves() {
        return Err(Corrupt(LargerThanDevice));
      }
      var level := CanonicalLevel(leafCount);
      if obj.level != level {
        return Err(Corrupt(WrongLevel));
      }
      return Ok(leafCount);
    }

    /** Recursive descent that pushes data-block pointers onto `out`. For arbitrary device
        contents it pushes no more than `leafCount`, reads a bounded number of blocks, and
        ends at the first fault or at one data block too many, whichever comes first. */
    method CollectLevel(ptr: BlockPtr, level: nat, leafCount: nat, out: seq<BlockPtr>)
      returns (r: Result<()>, out': seq<BlockPtr>, ghost fetched: nat)
      requires geo.Valid() && |out| <= leafCount
      ensures Collected(geo.Flatten(Img(), ptr, level), geo.Seen(Img(), ptr, level), leafCount, out, r, out')
      ensures fetched <= Cost(level, |out'| - |out| + (if r.Ok? then 0 else 1))
      decreases level, 0
    {
      hide Geometry.FlattenPacked, Geometry.SeenPacked, Geometry.ReadBlock, BlockPtr.ReadFrom;
      if level == 0 {
        if |out| >= leafCount {
          return Err(Corrupt(TooManyLeaves)), out, 0;
        }
        return Ok(()), out + [ptr], 0;
      }
      var block := ReadBlock(ptr);
      if block.Err? {
        return Err(block.error), out, 1;
      }
      if |block.value| == 0 || |block.value| % BLOCK_PTR_SIZE != 0 {
        return Err(Corrupt(MalformedIndirect)), out, 1;
      }
      r, out', fetched := CollectChildren(block.value, level - 1, leafCount, out);
      CostUp(level, |out'| - |out| + (if r.Ok? then 0 else 1));
      fetched := fetched + 1;
    }

    /** The pointers packed in an indirect block, parsed and descended one after the other. */
    method CollectChildren(block: seq<byte>, level: nat, leafCount: nat, out: seq<BlockPtr>)
      returns (r: Result<()>, out': seq<BlockPtr>, ghost fetched: nat)
      requires geo.Valid() && |out| <= leafCount
      requires block != [] && |block| % BLOCK_PTR_SIZE == 0
      ensures Collected(geo.FlattenPacked(Img(), block, level), geo.SeenPacked(Img(), block, level), leafCount, out, r, out')
      ensures fetched <= Cost(level, |out'| - |out| + (if r.Ok? then 0 else 1))
      ensures r.Ok? ==> |out| < |out'|
      decreases level, |block|
    {
      hide Geometry.Flatten, Geometry.FlattenPacked, Geometry.Seen, Geometry.SeenPacked, Cost, Continues, Collected;
      ghost var whole, seen := geo.FlattenPacked(Img(), block, level), geo.SeenPacked(Img(), block, level);
      NothingDone(whole, seen, level, out);
      var rest := block;
      out' := out;
      fetched := 0;
      while rest != []
        invariant |rest| % BLOCK_PTR_SIZE == 0
        invariant out <= out' && |out'| <= leafCount
        invariant rest != block ==> |out| < |out'|
        invariant Continues(whole, seen, out'[|out|..], geo.FlattenPacked(Img(), rest, level), geo.SeenPacked(Img(), rest, level))
        invariant fetched <= Cost(level, |out'| - |out|)
        decreases |rest|
      {
        PackedStep(geo, Img(), rest, level);
        ghost var remaining, remainingSeen := geo.FlattenPacked(Img(), rest, level), geo.SeenPacked(Img(), rest, level);
        var child := BlockPtr.ReadFrom(rest[..BLOCK_PTR_SIZE]);
        if child.Err? {
          CostSum(level, |out'| - |out|, 1);
          StopCollecting(whole, seen, remaining, leafCount, out, child.error, out');
          return Err(child.error), out', fetched;
        }
        ghost var before, more := out', 0;
        r, out', more := CollectLevel(child.value, level, leafCount, out');
        ghost var first, firstSeen := geo.Flatten(Img(), child.value, level), geo.Seen(Img(), child.value, level);
        CollectedGrows(first, firstSeen, leafCount, before, r, out');
        CostSum(level, |before| - |out|, |out'| - |before| + (if r.Ok? then 0 else 1));
        fetched := fetched + more;
        if first.Ok? { SeenAll(geo, Img(), child.value, level); LeafUnder(geo, Img(), child.value, level); }
        ChildCollected(whole, seen, remaining, remainingSeen, first, firstSeen,
                       geo.FlattenPacked(Img(), rest[BLOCK_PTR_SIZE..], level),
                       geo.SeenPacked(Img(), rest[BLOCK_PTR_SIZE..], level), leafCount, out, before, r, out');
        if r.Err? {
          return;
        }
        rest := rest[BLOCK_PTR_SIZE..];
      }
      AllCollected(geo, Img(), whole, seen, level, leafCount, out, out');
      r := Ok(());
    }

    /** The ordered data-block pointers of an object: exactly as many as its size needs. */
    method CollectLeaves(obj: ObjRef) returns (r: Result<seq<BlockPtr>>, ghost fetched: nat)
      requires geo.Valid()
      ensures r == geo.CollectedLeaves(Img(), obj)
      ensures r.Ok? <==> geo.Collects(Img(), obj)
      ensures r.Ok? ==> r.value == geo.Leaves(Img(), obj)
      ensures fetched <= if geo.CheckObject(obj).Err? then 0 else obj.level * (geo.CheckObject(obj).value + 1)
    {
      hide Geometry.Flatten, Geometry.Seen, Geometry.Collects, Geometry.Leaves, Geometry.CheckObject, Cost;
      CollectsIff(geo, Img(), obj);
      fetched := 0;
      var leafCount := CheckObject(obj);
      if leafCount.Err? {
        return Err(leafCount.error), 0;
      }
      if leafCount.value == 0 {
        return Ok([]), 0;
      }
      var step, leaves;
      step, leaves, fetched := CollectLevel(obj.root, obj.level, leafCount.value, []);
      CostIs(obj.level, |leaves| + (if step.Ok? then 0 else 1), leafCount.value + 1);
      if step.Err? {
        return Err(step.error), fetched;
      }
      ghost var found := geo.Flatten(Img(), obj.root, obj.level).value.leaves;
      assert leaves == [] + found == found;
      if |leaves| != leafCount.value {
        return Err(Corrupt(LeafCountMismatch)), fetched;
      }
      return Ok(leaves), fetched;
    }

    /** Pack the pointers of one group into a block. */
    method PackGroup(group: seq<BlockPtr>) returns (bytes: array<byte>)
      ensures fresh(bytes) && bytes[..] == Pack(group)
    {
      bytes := new byte[|group| * BLOCK_PTR_SIZE](_ => 0);
      var i := 0;
      assert bytes[..0] == [];
      while i < |group|
        invariant 0 <= i <= |group|
        invariant bytes[..i * BLOCK_PTR_SIZE] == Pack(group[..i])
      {
        ghost var was := bytes[..];
        group[i].WriteTo(bytes, i * BLOCK_PTR_SIZE);
        PackLast(group[..i], group[i]);
        assert group[..i + 1] == group[..i] + [group[i]];
        assert bytes[..(i + 1) * BLOCK_PTR_SIZE]
            == was[..i * BLOCK_PTR_SIZE] + group[i].Encoded();
        i := i + 1;
      }
      assert group[..i] == group;
      assert bytes[..i * BLOCK_PTR_SIZE] == bytes[..];
    }

    /** Write the indirect block over the first `m` of the pending trees. */
    method WriteGroup(pending: seq<BlockPtr>, m: nat, ghost level: nat, ghost below: seq<BlockPtr>,
                      ghost next: seq<BlockPtr>, ghost above: seq<BlockPtr>)
      returns (r: Result<BlockPtr>, ghost mine: seq<BlockPtr>, ghost later: seq<BlockPtr>)
      requires Valid() && 0 < m <= |pending| && m <= geo.Fanout()
      requires geo.Heads(Sp(), Img(), pending, level, below) && geo.Heads(Sp(), Img(), next, level + 1, above)
      modifies dev, dev.inner.data, alloc
      ensures Valid()
      ensures Evolves(old(Img()), old(Sp()), Img(), Sp())
      ensures Steady(old(dev.Now()), old(Sp()), dev.Now())
      ensures r.Err? ==> WriteFailure(r.error)
      ensures r.Ok? ==> below == mine + later
      ensures r.Ok? ==> geo.Heads(Sp(), Img(), next + [r.value], level + 1, above + mine)
      ensures r.Ok? ==> geo.Heads(Sp(), Img(), pending[m..], level, later)
    {
      mine, later := [], [];
      GroupFits(geo, m);
      ghost var img, s := Img(), Sp();
      var bytes := PackGroup(pending[..m]);
      r := WriteBlock(bytes[..]);
      if r.Ok? {
        mine, later := LayerStep(geo, img, s, Img(), Sp(), pending, m, level, below, next, above, r.value);
      }
    }

    /** One layer of indirect blocks over `current`. */
    method BuildLayer(current: seq<BlockPtr>, ghost level: nat, ghost leaves: seq<BlockPtr>)
      returns (r: Result<seq<BlockPtr>>)
      requires Valid() && |current| > 1
      requires geo.Heads(Sp(), Img(), current, level, leaves)
      modifies dev, dev.inner.data, alloc
      ensures Valid()
      ensures Evolves(old(Img()), old(Sp()), Img(), Sp())
      ensures Steady(old(dev.Now()), old(Sp()), dev.Now())
      ensures r.Err? ==> WriteFailure(r.error)
      ensures r.Ok? ==> |r.value| == DivCeil(|current|, geo.Fanout())
                        && geo.Heads(Sp(), Img(), r.value, level + 1, leaves)
    {
      hide Geometry.FlattenAll, Geometry.AllRetained, Space.Valid, Steady, Evolves;
      EvolvesRefl(Img(), Sp());
      SteadyRefl(dev.Now(), Sp());
      NoHeads(geo, Sp(), Img(), level + 1, []);
      var fanout := geo.Fanout();
      var next: seq<BlockPtr> := [];
      var at := 0;
      ghost var above: seq<BlockPtr>, below := [], leaves;
      assert current[0..] == current;
      while at < |current|
        invariant at <= |current| && Grouped(|next|, at, |current|, fanout)
        invariant Valid() && Evolves(old(Img()), old(Sp()), Img(), Sp())
        invariant Steady(old(dev.Now()), old(Sp()), dev.Now())
        invariant leaves == above + below
        invariant geo.Heads(Sp(), Img(), next, level + 1, above)
        invariant geo.Heads(Sp(), Img(), current[at..], level, below)
        decreases |current| - at
      {
        var end := Min(at + fanout, |current|);
        GroupedStep(|next|, at, |current|, fanout);
        ghost var img, s, d := Img(), Sp(), dev.Now();
        ghost var mine, later;
        var ptr;
        ptr, mine, later := WriteGroup(current[at..], end - at, level, below, next, above);
        EvolvesTrans(old(Img()), old(Sp()), img, s, Img(), Sp());
        SteadyTrans(old(dev.Now()), old(Sp()), d, s, dev.Now());
        if ptr.Err? {
          return Err(ptr.error);
        }
        assert current[at..][end - at..] == current[end..];
        next := next + [ptr.value];
        above, below := above + mine, later;
        at := end;
      }
      assert current[at..] == [];
      NoHeads(geo, Sp(), Img(), level, below);
      DivCeilIs(|current|, fanout, |next|);
      return Ok(next);
    }

    /** Build the indirect tree over `leaves`. */
    method BuildTree(leaves: seq<BlockPtr>, size: u64) returns (r: Result<ObjRef>)
      requires Valid() && |leaves| <= U64_MAX && (leaves == [] ==> size == 0)
      modifies dev, dev.inner.data, alloc
      ensures Valid()
      ensures Evolves(old(Img()), old(Sp()), Img(), Sp())
      ensures Steady(old(dev.Now()), old(Sp()), dev.Now())
      ensures r.Err? ==> WriteFailure(r.error)
      ensures leaves == [] ==> r == Ok(EMPTY_OBJ)
      ensures r.Ok? && leaves != [] ==>
                && r.value.size == size && r.value.level == geo.Level(|leaves|)
                && geo.Heads(Sp(), Img(), [r.value.root], r.value.level, leaves)
    {
      hide Geometry.FlattenAll, Geometry.AllRetained, Geometry.Retained, Space.Valid, Exhausted, Evolves, Geometry.Level,
        Geometry.Heads, Steady, Geometry.Flatten;
      if leaves == [] {
        EvolvesRefl(Img(), Sp());
        SteadyRefl(dev.Now(), Sp());
        return Ok(EMPTY_OBJ);
      }
      EvolvesRefl(Img(), Sp());
      SteadyRefl(dev.Now(), Sp());
      LevelFits(geo, |leaves|);
      var level: u8 := 0;
      var current := leaves;
      LeafHeads(geo, Sp(), Img(), leaves);
      while |current| > 1
        invariant |current| >= 1 && level + geo.Level(|current|) == geo.Level(|leaves|)
        invariant Valid() && Evolves(old(Img()), old(Sp()), Img(), Sp())
        invariant Steady(old(dev.Now()), old(Sp()), dev.Now())
        invariant geo.Heads(Sp(), Img(), current, level, leaves)
        decreases |current|
      {
        LevelStep(geo, |current|);
        ghost var img, s, d := Img(), Sp(), dev.Now();
        var layer := BuildLayer(current, level, leaves);
        EvolvesTrans(old(Img()), old(Sp()), img, s, Img(), Sp());
        SteadyTrans(old(dev.Now()), old(Sp()), d, s, dev.Now());
        current :- layer;
        level := level + 1;
      }
      LevelStep(geo, |current|);
      assert current == [current[0]];
      return Ok(ObjRef(size, level, current[0]));
    }

    // ----- ranges of objects -----

    /** Read up to `buf.Length` bytes of an object from `offset` on; short only at its end. On
        an image with a short data block the source's loop may panic or go on for ever, and
        then this says which. */
    method ReadObjectRange(obj: ObjRef, offset: u64, buf: array<byte>) returns (r: Reading<nat>)
      requires geo.Valid() && buf != dev.inner.data
      modifies buf
      ensures var want := Wanted(obj.size, offset, buf.Length);
              && (forall i :: want <= i < buf.Length ==> buf[i] == old(buf[i]))
              && if want == 0 then r == Finished(Ok(0))
                 else
                   match geo.CollectedLeaves(Img(), obj)
                   case Err(e) => r == Finished(Err(e))
                   case Ok(leaves) =>
                     && offset + want <= geo.Start(|leaves|)
                     && match RangeBytes(geo, Img(), leaves, offset, offset + want)
                        case Finished(Ok(bytes)) => r == Finished(Ok(want)) && buf[..want] == bytes
                        case Finished(Err(e)) => r == Finished(Err(e))
                        case Panics => r == Panics
                        case Spins => r == Spins
    {
      hide Geometry.ReadBlock, Geometry.IndexOf, Geometry.OffsetIn, Geometry.Collects, Geometry.Leaves, Patch,
        RangeBytes, RangeFrom, Geometry.CollectedLeaves, Geometry.Start;
      if offset >= obj.size || buf.Length == 0 {
        return Finished(Ok(0));
      }
      var want := Min(buf.Length, obj.size - offset);
      var collected, _ := CollectLeaves(obj);
      if collected.Err? {
        return Finished(Err(collected.error));
      }
      var leaves := collected.value;
      LeavesReachEnd(geo, Img(), obj);
      ghost var whole := RangeBytes(geo, Img(), leaves, offset, offset + want);
      NothingReadYet(whole);
      var done := 0;
      assert buf[..0] == [];
      while done < want
        invariant 0 <= done <= want
        invariant forall i :: want <= i < buf.Length ==> buf[i] == old(buf[i])
        invariant RangeFrom(whole, buf[..done], RangeBytes(geo, Img(), leaves, offset + done, offset + want))
        decreases want - done
      {
        var at := offset + done;
        RangeStep(geo, Img(), leaves, at, offset + want);
        var within := geo.OffsetIn(at);
        var block := ReadBlock(leaves[geo.IndexOf(at)]);
        if block.Err? {
          AllRead(whole, buf[..done], Finished(Err(block.error)));
          return Finished(Err(block.error));
        }
        var logical := block.value;
        if within > |logical| {
          AllRead(whole, buf[..done], Panics);
          return Panics;
        }
        var take := Min(want - done, |logical| - within);
        if take == 0 {
          AllRead(whole, buf[..done], Spins);
          return Spins;
        }
        RangeFromStep(whole, buf[..done], logical[within..within + take],
                      RangeBytes(geo, Img(), leaves, at + take, offset + want));
        ghost var before := buf[..done];
        Put(buf, done, logical[within..within + take]);
        assert buf[..done + take] == before + logical[within..within + take];
        done := done + take;
      }
      RangeDone(geo, Img(), leaves, offset + want);
      AllRead(whole, buf[..want], Finished(Ok([])));
      return Finished(Ok(want));
    }

    /** Read a whole metadata object. */
    method ReadObject(obj: ObjRef) returns (r: Reading<seq<byte>>)
      requires geo.Valid()
      ensures r == ReadWhole(geo, Img(), obj)
    {
      hide RangeBytes, Geometry.CollectedLeaves, Geometry.CheckObject, Geometry.Start;
      if obj.size > MAX_META_OBJECT_SIZE { return Finished(Err(Corrupt(MetadataTooLarge))); }
      var checked := CheckObject(obj);
      if checked.Err? { return Finished(Err(checked.error)); }
      var buf := new byte[obj.size](_ => 0);
      var got := ReadObjectRange(obj, 0, buf);
      match got
      case Panics => return Panics;
      case Spins => return Spins;
      case Finished(Err(e)) => return Finished(Err(e));
      case Finished(Ok(n)) =>
        assert n == obj.size;
        assert buf[..n] == buf[..];
        return Finished(Ok(buf[..]));
    }

    /** One data block of the new object: the old pointer when nothing about the block
        changes, otherwise a fresh block with the data spliced in. */
    method SpliceBlock(obj: ObjRef, oldLeaves: seq<BlockPtr>, offset: u64, data: seq<byte>, b: nat, ghost c: seq<byte>)
      returns (r: Result<BlockPtr>)
      requires Valid() && |oldLeaves| == DivCeil(obj.size, geo.blockSize)
      requires geo.Start(b) < Max(obj.size, offset + |data|)
      modifies dev, dev.inner.data, alloc
      ensures Valid()
      ensures Evolves(old(Img()), old(Sp()), Img(), Sp())
      ensures Steady(old(dev.Now()), old(Sp()), dev.Now())
      ensures r.Ok? ==>
                if Untouched(geo, obj.size, offset, |data|, b)
                then b < |oldLeaves| && r.value == oldLeaves[b] && Img() == old(Img()) && Sp() == old(Sp())
                else old(Sp()).Available(r.value.addr) && geo.Retained(Sp(), r.value)
      ensures old(LeafBefore(geo, Img(), oldLeaves, obj.size, b, c)) ==>
                && (r.Ok? ==> geo.LeafHolds(Img(), r.value, Splice(c, offset, data), b))
                && (r.Err? ==> WriteFailure(r.error))
    {
      hide Geometry.ReadBlock, Geometry.Start, Geometry.BlockOf, Geometry.Retained, Patch, Evolves, WroteBlock, Splice,
        Overlaps, Assembled, Steady;
      EvolvesRefl(Img(), Sp());
      SteadyRefl(dev.Now(), Sp());
      var start := geo.Start(b);
      StartIs(geo, obj.size, b);
      var newSize := Max(obj.size, offset + |data|);
      var newLen := Min(geo.blockSize, newSize - start);
      var oldLen := if b < |oldLeaves| then Min(geo.blockSize, obj.size - start) else 0;
      var overlapStart := Max(start, offset);
      var overlapEnd := Min(start + newLen, offset + |data|);
      var overlaps := overlapStart < overlapEnd;
      assert overlaps <==> Overlaps(start, newLen, offset, |data|) by { OverlapIs(start, newLen, offset, |data|); }
      ghost var held := LeafBefore(geo, Img(), oldLeaves, obj.size, b, c);
      if held {
        SplicedLeaf(geo, Img(), oldLeaves, offset, data, b, c);
      }
      if !overlaps && newLen == oldLen {
        assert Untouched(geo, obj.size, offset, |data|, b);
        return Ok(oldLeaves[b]);
      }
      var before: seq<byte> := [];
      if oldLen > 0 {
        before :- ReadBlock(oldLeaves[b]);
        if |before| != oldLen {
          return Err(Corrupt(DataBlockSize));
        }
      }
      var content := AssembleBlock(before, newLen, start, offset, data);
      ghost var s := Sp();
      r := WriteBlock(content[..]);
      if r.Ok? {
        WroteMeans(geo, s, Img(), Sp(), content[..], r.value);
      }
    }

    /** Copy-on-write range update. Whatever happens, only available space is written; if `obj`
        held `c` with all blocks retained, success means the spliced content and failure can
        only be a full device or lost power. */
    method WriteObjectRange(obj: ObjRef, offset: u64, data: seq<byte>, ghost c: seq<byte>) returns (r: Result<ObjRef>)
      requires Valid()
      modifies dev, dev.inner.data, alloc
      ensures Valid()
      ensures Evolves(old(Img()), old(Sp()), Img(), Sp())
      ensures Steady(old(dev.Now()), old(Sp()), dev.Now())
      ensures data == [] ==> r == Ok(obj) && Img() == old(Img()) && Sp() == old(Sp())
      ensures old(geo.Holds(Img(), obj, c) && geo.Kept(Sp(), Img(), obj)) ==>
                && (r.Ok? && data != [] ==>
                     Spliced(geo, old(Sp()), old(geo.Leaves(Img(), obj)), c, offset, data, Img(), Sp(), r.value))
                && (r.Err? ==> WriteFailure(r.error) || (r.error == NoSpace && offset + |data| > U64_MAX))
    {
      hide Geometry.Holds, Geometry.Kept, Geometry.Start, Geometry.Collects, Geometry.Leaves, Geometry.CheckObject,
        Rewritten, Spliced, Untouched, Splice, OldLeavesKept, LeafBefore, Geometry.LeafHolds, Geometry.Retained, Geometry.Heads,
        Evolves, Steady;
      ghost var img0, s0, d0 := Img(), Sp(), dev.Now();
      EvolvesRefl(img0, s0);
      SteadyRefl(d0, s0);
      if data == [] {
        return Ok(obj);
      }
      var writeEnd := offset + |data|;
      if writeEnd > U64_MAX {
        return Err(NoSpace);
      }
      var newSize := Max(obj.size, writeEnd);
      ghost var held := geo.Holds(img0, obj, c) && geo.Kept(s0, img0, obj);
      var collected, _ := CollectLeaves(obj);
      HeldMeans(geo, img0, s0, obj, c);
      if collected.Err? {
        return Err(collected.error);
      }
      var oldLeaves := collected.value;
      var blockCount := DivCeil(newSize, geo.blockSize);
      LeafCountBound(geo, newSize);
      var newLeaves: seq<BlockPtr> := [];
      if held {
        NothingRewritten(geo, img0, s0, oldLeaves, c, offset, data);
      }
      while |newLeaves| < blockCount
        invariant |newLeaves| <= blockCount
        invariant Valid() && Evolves(img0, s0, Img(), Sp())
        invariant Steady(d0, s0, dev.Now())
        invariant held ==> Rewritten(geo, Img(), Sp(), s0, oldLeaves, newLeaves, c, offset, data)
        decreases blockCount - |newLeaves|
      {
        StartIs(geo, newSize, |newLeaves|);
        ghost var img, s, d := Img(), Sp(), dev.Now();
        if held {
          StillThere(geo, img0, s0, img, s, obj, oldLeaves, c, |newLeaves|);
        }
        var leaf := SpliceBlock(obj, oldLeaves, offset, data, |newLeaves|, c);
        EvolvesTrans(img0, s0, img, s, Img(), Sp());
        SteadyTrans(d0, s0, d, s, dev.Now());
        if leaf.Err? {
          return Err(leaf.error);
        }
        if held {
          EvolvesMeans(img0, s0, img, s);
          RewrittenStep(geo, img, s, Img(), Sp(), s0, oldLeaves, newLeaves, leaf.value, c, offset, data);
        }
        newLeaves := newLeaves + [leaf.value];
      }
      ghost var img, s, d := Img(), Sp(), dev.Now();
      r := BuildTree(newLeaves, newSize);
      EvolvesTrans(img0, s0, img, s, Img(), Sp());
      SteadyTrans(d0, s0, d, s, dev.Now());
      StartIs(geo, newSize, 0);
      if held && r.Ok? {
        FinishWrite(geo, img, s, Img(), Sp(), s0, oldLeaves, newLeaves, c, offset, data, r.value);
      }
    }

    /** Store `data` as a fresh object. */
    method WriteObject(data: seq<byte>) returns (r: Result<ObjRef>)
      requires Valid()
      modifies dev, dev.inner.data, alloc
      ensures Valid()
      ensures Evolves(old(Img()), old(Sp()), Img(), Sp())
      ensures Steady(old(dev.Now()), old(Sp()), dev.Now())
      ensures r.Ok? ==> geo.Holds(Img(), r.value, data) && geo.Kept(Sp(), Img(), r.value)
      ensures r.Err? ==> WriteFailure(r.error) || (r.error == NoSpace && |data| > U64_MAX)
    {
      EmptyHolds(geo, Img(), Sp());
      r := WriteObjectRange(EMPTY_OBJ, 0, data, []);
      if data == [] {
        EmptyHolds(geo, Img(), Sp());
      } else {
        assert Splice([], 0, data) == data;
      }
    }

    /** The bytes of one rewritten block: the old block over zeros, then the data over both. */
    method AssembleBlock(before: seq<byte>, newLen: nat, start: nat, offset: nat, data: seq<byte>)
      returns (content: array<byte>)
      requires |before| <= newLen
      ensures fresh(content) && content[..] == Assembled(before, newLen, start, offset, data)
    {
      hide Overlay, Patch;
      PatchNothing(Zeros(newLen));
      content := new byte[newLen](_ => 0);
      assert content[..] == Zeros(newLen);
      if before != [] {
        Put(content, 0, before);
      }
      OverlayData(content, start, offset, data);
    }

    method OverlayData(content: array<byte>, start: nat, offset: nat, data: seq<byte>)
      modifies content
      ensures content[..] == Overlay(old(content[..]), start, offset, data)
    {
      hide Patch, Overlay;
      ghost var was := content[..];
      var from: nat, to: nat := Max(start, offset), Min(start + content.Length, offset + |data|);
      if from >= to {
        OverlayNothing(was, start, offset, data);
        return;
      }
      var at, piece := from - start, data[from - offset..to - offset];
      OverlayPiece(was, start, offset, data, at, piece);
      Put(content, at, piece);
    }
  }

  lemma LevelStep(g: Geometry, n: nat)
    requires g.Fanout() >= 2 && n >= 1
    ensures n > 1 ==> 1 <= DivCeil(n, g.Fanout()) < n && g.Level(n) == 1 + g.Level(DivCeil(n, g.Fanout()))
    ensures n == 1 ==> g.Level(n) == 0
  {
    if n > 1 { g.FewerGroups(n); }
  }

  lemma OverlayNothing(base: seq<byte>, start: nat, offset: nat, data: seq<byte>)
    requires Max(start, offset) >= Min(start + |base|, offset + |data|)
    ensures Overlay(base, start, offset, data) == base
  {
  }

  lemma OverlayPiece(base: seq<byte>, start: nat, offset: nat, data: seq<byte>, at: nat, piece: seq<byte>)
    requires var from, to := Max(start, offset), Min(start + |base|, offset + |data|);
             from < to && at == from - start && piece == data[from - offset..to - offset]
    ensures at + |piece| <= |base| && Overlay(base, start, offset, data) == Patch(base, at, piece)
  {
    hide Patch;
  }

  /** What a held object contributes to a write of it. */
  lemma HeldMeans(g: Geometry, img: seq<byte>, s: Space, obj: ObjRef, c: seq<byte>)
    requires g.Valid()
    ensures g.Holds(img, obj, c) ==> g.Collects(img, obj) && obj.size == |c|
    ensures g.Collects(img, obj) ==> |g.Leaves(img, obj)| == DivCeil(obj.size, g.blockSize)
    ensures g.Kept(s, img, obj) ==> g.Collects(img, obj) && OldLeavesKept(g, s, g.Leaves(img, obj))
  {
    hide Geometry.Flatten, Geometry.LeavesHold, Geometry.DistinctAddrs, Geometry.AllRetained;
  }

  lemma NothingRewritten(g: Geometry, img: seq<byte>, s: Space, oldLeaves: seq<BlockPtr>, c: seq<byte>, offset: nat, data: seq<byte>)
    requires g.Valid()
    ensures Rewritten(g, img, s, s, oldLeaves, [], c, offset, data)
  {
  }

  lemma EvolvesMeans(img: seq<byte>, s: Space, img': seq<byte>, s': Space)
    requires Evolves(img, s, img', s')
    ensures forall x :: s'.Available(x) ==> s.Available(x)
  {
  }

  /** While the write is under way, the old block `b` still holds its part of the content. */
  lemma StillThere(g: Geometry, img0: seq<byte>, s0: Space, img: seq<byte>, s: Space, obj: ObjRef,
                   oldLeaves: seq<BlockPtr>, c: seq<byte>, b: nat)
    requires g.Valid() && Evolves(img0, s0, img, s)
    requires g.Holds(img0, obj, c) && g.Kept(s0, img0, obj) && oldLeaves == g.Leaves(img0, obj)
    ensures LeafBefore(g, img, oldLeaves, obj.size, b, c)
  {
    hide Geometry.ReadBlock, Geometry.Flatten, Evolves, Geometry.Retained;
    if b < |oldLeaves| {
      assert g.LeafHolds(img0, oldLeaves[b], c, b);
      ReadBlockFrame(g, img0, s0, img, s, oldLeaves[b]);
    }
  }

  lemma EmptyHolds(g: Geometry, img: seq<byte>, s: Space)
    requires g.Valid()
    ensures g.Holds(img, EMPTY_OBJ, []) && g.Kept(s, img, EMPTY_OBJ)
  {
    DivCeilIs(0, g.blockSize, 0);
  }

  lemma OverlapIs(start: nat, len: nat, offset: nat, dataLen: nat)
    ensures Overlaps(start, len, offset, dataLen) <==> Max(start, offset) < Min(start + len, offset + dataLen)
  {
  }

  lemma WroteMeans(g: Geometry, s: Space, img: seq<byte>, s': Space, logical: seq<byte>, ptr: BlockPtr)
    requires WroteBlock(g, s, img, s', logical, ptr)
    ensures s.unit > 0 && s.Available(ptr.addr) && g.Retained(s', ptr)
    ensures g.allocUnit > 0 && g.ReadBlock(img, ptr) == Ok(logical)
  {
  }

  lemma SaturatingStep(f: nat, k: nat)
    requires f >= 2
    ensures Min(Min(Pow(f, k), U64_MAX) * f, U64_MAX) == Min(Pow(f, k + 1), U64_MAX)
    ensures 1 <= Pow(f, k) < Pow(f, k + 1)
  {
    PowMonotone(f, 0, k);
    MulLess(1, f, Pow(f, k));
    MulLess(1, f, U64_MAX);
    if Pow(f, k) >= U64_MAX { MulLess(U64_MAX, Pow(f, k), f); }
  }

  /** `level` reads for each of `n` pushes, as a running sum. */
  ghost function Cost(level: nat, n: nat): nat {
    if n == 0 then 0 else level + Cost(level, n - 1)
  }

  lemma {:induction false} CostSum(level: nat, a: nat, b: nat)
    ensures Cost(level, a + b) == Cost(level, a) + Cost(level, b)
  {
    if b > 0 {
      CostSum(level, a, b - 1);
    }
  }

  lemma {:induction false} CostUp(level: nat, n: nat)
    requires level > 0 && n > 0
    ensures 1 + Cost(level - 1, n) <= Cost(level, n)
  {
    if n > 1 {
      CostUp(level, n - 1);
    }
  }

  lemma {:induction false} CostIs(level: nat, n: nat, limit: nat)
    requires n <= limit
    ensures Cost(level, n) == level * n <= level * limit
  {
    if n > 0 {
      CostIs(level, n - 1, limit);
    }
    MulLess(n, limit, level + 1);
  }

  /** The outcome of a descent over a tree that flattens to `whole` and meets `seen` data
      blocks up to its first fault. */
  ghost predicate Collected(whole: Result<Flat>, seen: nat, leafCount: nat, out: seq<BlockPtr>, r: Result<()>, out': seq<BlockPtr>) {
    && |out| <= leafCount && r == Bounded(whole, seen, leafCount - |out|)
    && out <= out' && |out'| == |out| + Min(seen, leafCount - |out|)
    && (r.Ok? ==> out' == out + whole.value.leaves && seen == |whole.value.leaves|)
  }

  lemma CollectedGrows(whole: Result<Flat>, seen: nat, leafCount: nat, out: seq<BlockPtr>, r: Result<()>, out': seq<BlockPtr>)
    requires Collected(whole, seen, leafCount, out, r, out')
    ensures out <= out' && |out'| <= leafCount
  {
  }

  /** `whole` is what is `done` followed by `rest`, or the fault that `rest` meets. */
  ghost predicate Continues(whole: Result<Flat>, seen: nat, done: seq<BlockPtr>, rest: Result<Flat>, restSeen: nat) {
    && (whole.Ok? <==> rest.Ok?)
    && (whole.Ok? ==> whole.value.leaves == done + rest.value.leaves)
    && (whole.Err? ==> whole == rest)
    && seen == |done| + restSeen
  }

  lemma NothingDone(whole: Result<Flat>, seen: nat, level: nat, out: seq<BlockPtr>)
    ensures Continues(whole, seen, out[|out|..], whole, seen)
    ensures Cost(level, 0) == 0
  {
    if whole.Ok? {
      assert out[|out|..] + whole.value.leaves == whole.value.leaves;
    }
  }

  /** Every tree has a data block. */
  lemma {:induction false} LeafUnder(g: Geometry, img: seq<byte>, ptr: BlockPtr, level: nat)
    requires g.allocUnit > 0 && g.Flatten(img, ptr, level).Ok?
    ensures g.Flatten(img, ptr, level).value.leaves != []
    decreases level
  {
    hide Geometry.CheckPtr, Geometry.Decode;
    if level > 0 {
      var block := g.ReadBlock(img, ptr).value;
      LeafUnder(g, img, BlockPtr.ReadFrom(block[..BLOCK_PTR_SIZE]).value, level - 1);
    }
  }

  lemma StopCollecting(whole: Result<Flat>, seen: nat, remaining: Result<Flat>, leafCount: nat, out: seq<BlockPtr>,
                       e: FsError, out': seq<BlockPtr>)
    requires out <= out' && |out'| <= leafCount
    requires Continues(whole, seen, out'[|out|..], remaining, 0) && remaining == Err(e)
    ensures Collected(whole, seen, leafCount, out, Err(e), out')
  {
  }

  lemma ChildCollected(whole: Result<Flat>, seen: nat, remaining: Result<Flat>, remainingSeen: nat,
                       first: Result<Flat>, firstSeen: nat, later: Result<Flat>, laterSeen: nat,
                       leafCount: nat, out: seq<BlockPtr>, before: seq<BlockPtr>, r: Result<()>, out': seq<BlockPtr>)
    requires out <= before && Continues(whole, seen, before[|out|..], remaining, remainingSeen)
    requires remaining == Then(first, later) && remainingSeen == firstSeen + if first.Err? then 0 else laterSeen
    requires first.Ok? ==> firstSeen == |first.value.leaves| > 0
    requires Collected(first, firstSeen, leafCount, before, r, out')
    ensures out <= out' && |before| <= |out'| <= leafCount && (r.Ok? ==> |before| < |out'|)
    ensures r.Ok? ==> Continues(whole, seen, out'[|out|..], later, laterSeen)
    ensures r.Err? ==> Collected(whole, seen, leafCount, out, r, out')
  {
    assert out'[|out|..] == before[|out|..] + out'[|before|..];
    if r.Ok? && later.Ok? {
      assert (before[|out|..] + first.value.leaves) + later.value.leaves
          == before[|out|..] + (first.value.leaves + later.value.leaves);
    }
  }

  lemma AllCollected(g: Geometry, img: seq<byte>, whole: Result<Flat>, seen: nat, level: nat, leafCount: nat,
                     out: seq<BlockPtr>, out': seq<BlockPtr>)
    requires g.allocUnit > 0 && out <= out' && |out'| <= leafCount
    requires Continues(whole, seen, out'[|out|..], g.FlattenPacked(img, [], level), g.SeenPacked(img, [], level))
    ensures Collected(whole, seen, leafCount, out, Ok(()), out')
  {
    assert whole.value.leaves == out'[|out|..] + [] == out'[|out|..];
    assert out' == out + out'[|out|..];
  }

  /** After `n` groups of `fanout` pointers, `at` of `total` pointers are packed. */
  ghost predicate Grouped(n: nat, at: nat, total: nat, fanout: nat) {
    at == Min(n * fanout, total) && (n > 0 ==> (n - 1) * fanout < total)
  }

  lemma GroupedStep(n: nat, at: nat, total: nat, fanout: nat)
    requires Grouped(n, at, total, fanout) && at < total && fanout > 0
    ensures Grouped(n + 1, Min(at + fanout, total), total, fanout)
  {
    assert (n + 1) * fanout == n * fanout + fanout;
  }

  lemma LeafCountBound(g: Geometry, size: u64)
    requires g.Valid()
    ensures DivCeil(size, g.blockSize) <= size
  {
    var q := DivCeil(size, g.blockSize);
    if q > 1 { MulLess(1, g.blockSize, q - 1); }
  }

  lemma GroupFits(g: Geometry, n: nat)
    requires g.Valid() && 0 < n <= g.Fanout()
    ensures 0 < n * BLOCK_PTR_SIZE <= g.blockSize
  {
  }

  /** A freshly written indirect block heads the trees of the pointers packed in it. */
  lemma GroupHeads(g: Geometry, img: seq<byte>, s: Space, img': seq<byte>, s': Space,
                   group: seq<BlockPtr>, level: nat, leaves: seq<BlockPtr>, ptr: BlockPtr)
    requires Evolves(img, s, img', s')
    requires g.Heads(s, img, group, level, leaves) && group != []
    requires WroteBlock(g, s, img', s', Pack(group), ptr)
    ensures g.Heads(s', img', [ptr], level + 1, leaves)
  {
    HeadsFrame(g, img, s, img', s', group, level, leaves);
    IndirectFlattens(g, img', group, level, ptr);
    RetainedConcat(g, s', [ptr], g.FlattenAll(img', group, level).value.indirect);
    SingleHead(g, s', img', ptr, level + 1, leaves);
  }

  lemma IndirectFlattens(g: Geometry, img: seq<byte>, group: seq<BlockPtr>, level: nat, ptr: BlockPtr)
    requires g.allocUnit > 0 && g.ReadBlock(img, ptr) == Ok(Pack(group)) && g.FlattenAll(img, group, level).Ok?
    ensures var below := g.FlattenAll(img, group, level).value;
            g.Flatten(img, ptr, level + 1) == Ok(Flat(below.leaves, [ptr] + below.indirect))
  {
    hide Geometry.ReadBlock, Geometry.FlattenPacked, Geometry.FlattenAll, Pack;
    FlattenPackedIsAll(g, img, group, level);
    assert |Pack(group)| % BLOCK_PTR_SIZE == 0;
  }

  /** One step of building a layer: the first `m` of the pending trees move under `ptr`. */
  lemma LayerStep(g: Geometry, img: seq<byte>, s: Space, img': seq<byte>, s': Space,
                  pending: seq<BlockPtr>, m: nat, level: nat, below: seq<BlockPtr>,
                  next: seq<BlockPtr>, above: seq<BlockPtr>, ptr: BlockPtr)
    returns (mine: seq<BlockPtr>, later: seq<BlockPtr>)
    requires 0 < m <= |pending| && Evolves(img, s, img', s')
    requires g.Heads(s, img, pending, level, below) && g.Heads(s, img, next, level + 1, above)
    requires WroteBlock(g, s, img', s', Pack(pending[..m]), ptr)
    ensures below == mine + later
    ensures g.Heads(s', img', next + [ptr], level + 1, above + mine)
    ensures g.Heads(s', img', pending[m..], level, later)
  {
    mine, later := HeadsSplit(g, s, img, pending, m, level, below);
    GroupHeads(g, img, s, img', s', pending[..m], level, mine, ptr);
    HeadsFrame(g, img, s, img', s', next, level + 1, above);
    HeadsFrame(g, img, s, img', s', pending[m..], level, later);
    HeadsJoin(g, s', img', next, [ptr], level + 1, above, mine);
  }
}
