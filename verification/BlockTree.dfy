/**
  Blocks and block trees on an image, as values.

  `Geometry` carries what a mounted file system knows about its device. Its functions say
  what a stored block reads as, what the tree under a pointer flattens to, and what it means
  for an object reference to hold a byte string; the lemmas below them say when all of that
  survives further writes.
*/
module BlockTree {
  import opened Bytes
  import opened Arith
  import opened Format
  import opened Space
  import opened Device

  /** A flattened tree: its data-block pointers in order, and the indirect blocks read on the
      way down, in the order they are read. */
  datatype Flat = Flat(leaves: seq<BlockPtr>, indirect: seq<BlockPtr>)

  /** What follows when two trees are walked one after the other. */
  function Then(first: Result<Flat>, later: Result<Flat>): Result<Flat> {
    var a :- first;
    var b :- later;
    Ok(Flat(a.leaves + b.leaves, a.indirect + b.indirect))
  }

  /** A walk that may meet `room` data blocks at most: one too many stops it, and so does a fault. */
  function Bounded(whole: Result<Flat>, seen: nat, room: nat): (r: Result<()>)
    ensures r.Ok? ==> whole.Ok?
  {
    if seen > room then Err(Corrupt(TooManyLeaves))
    else
      var _ :- whole;
      Ok(())
  }

  datatype Geometry = Geometry(blockSize: u32, allocUnit: u32, codec: Codec, deviceSize: u64, prims: Primitives) {

    /** What formatting and mounting establish: room for at least two pointers in a block, an
        allocation unit that divides the start of the data region, a device that reaches it. */
    ghost predicate Valid() {
      && 2 * BLOCK_PTR_SIZE <= blockSize
      && Multiple(DATA_START, allocUnit)
      && DATA_START <= deviceSize
      && prims.Lawful()
    }

    /** Pointers per indirect block. */
    function Fanout(): nat {
      blockSize / BLOCK_PTR_SIZE
    }

    // ----- single blocks -----

    /** How a logical block is stored: compressed only when that makes it strictly shorter. */
    function Stored(logical: seq<byte>): (Codec, seq<byte>) {
      if codec == Lz4 && |prims.compress(logical)| < |logical| then (Lz4, prims.compress(logical))
      else (Raw, logical)
    }

    /** The checks on a pointer before anything is read through it. */
    function CheckPtr(ptr: BlockPtr): Result<()>
      requires allocUnit > 0
    {
      if ptr.IsNull() then Err(Corrupt(NullPointer))
      else if ptr.lsize == 0 || ptr.lsize > blockSize || ptr.psize == 0 || ptr.psize > blockSize then
        Err(Corrupt(ImpossibleSizes))
      else if ptr.addr < DATA_START || ptr.addr % allocUnit != 0 || ptr.addr + ptr.psize > deviceSize then
        Err(Corrupt(OutsideDataRegion))
      else Ok(())
    }

    /** The stored bytes of a block turned back into its logical bytes. */
    function Decode(ptr: BlockPtr, payload: seq<byte>): Result<seq<byte>> {
      match ptr.codec
      case Raw => if ptr.psize != ptr.lsize then Err(Corrupt(RawSizesDiffer)) else Ok(payload)
      case Lz4 =>
        match prims.decompress(payload, ptr.lsize)
        case None => Err(ChecksumMismatch)
        case Some(out) => if |out| != ptr.lsize then Err(Corrupt(DecompressedSize)) else Ok(out)
    }

    /** Read one block: check the pointer, fetch, decode, and check the hash. */
    function ReadBlock(img: seq<byte>, ptr: BlockPtr): (r: Result<seq<byte>>)
      requires allocUnit > 0
      ensures r.Ok? ==> |r.value| == ptr.lsize && 1 <= ptr.lsize <= blockSize
      ensures r.Ok? ==> prims.blake3(r.value) == ptr.hash
    {
      var _ :- CheckPtr(ptr);
      var payload :- ReadImage(img, ptr.addr, ptr.psize);
      var logical :- Decode(ptr, payload);
      if prims.blake3(logical) != ptr.hash then Err(ChecksumMismatch) else Ok(logical)
    }

    // ----- trees -----

    /** The tree under `ptr`, `level` indirect levels high. */
    function Flatten(img: seq<byte>, ptr: BlockPtr, level: nat): Result<Flat>
      requires allocUnit > 0
      decreases level, 0
    {
      if level == 0 then Ok(Flat([ptr], []))
      else
        var block :- ReadBlock(img, ptr);
        if |block| % BLOCK_PTR_SIZE != 0 then Err(Corrupt(MalformedIndirect))
        else
          var below :- FlattenPacked(img, block, level - 1);
          Ok(Flat(below.leaves, [ptr] + below.indirect))
    }

    /** The trees under the pointers packed in `block`, parsed and walked one after the other. */
    function FlattenPacked(img: seq<byte>, block: seq<byte>, level: nat): Result<Flat>
      requires allocUnit > 0 && |block| % BLOCK_PTR_SIZE == 0
      decreases level, |block|
    {
      if block == [] then Ok(Flat([], []))
      else
        var child :- BlockPtr.ReadFrom(block[..BLOCK_PTR_SIZE]);
        Then(Flatten(img, child, level), FlattenPacked(img, block[BLOCK_PTR_SIZE..], level))
    }

    /** How many data-block pointers the walk of the tree under `ptr` meets, up to a fault. */
    function Seen(img: seq<byte>, ptr: BlockPtr, level: nat): nat
      requires allocUnit > 0
      decreases level, 0
    {
      if level == 0 then 1
      else
        var block := ReadBlock(img, ptr);
        if block.Err? || |block.value| % BLOCK_PTR_SIZE != 0 then 0 else SeenPacked(img, block.value, level - 1)
    }

    function SeenPacked(img: seq<byte>, block: seq<byte>, level: nat): nat
      requires allocUnit > 0 && |block| % BLOCK_PTR_SIZE == 0
      decreases level, |block|
    {
      if block == [] then 0
      else
        var child := BlockPtr.ReadFrom(block[..BLOCK_PTR_SIZE]);
        if child.Err? then 0
        else
          Seen(img, child.value, level)
          + if Flatten(img, child.value, level).Err? then 0 else SeenPacked(img, block[BLOCK_PTR_SIZE..], level)
    }

    /** The trees under a row of pointers. */
    function FlattenAll(img: seq<byte>, ptrs: seq<BlockPtr>, level: nat): Result<Flat>
      requires allocUnit > 0
      decreases |ptrs|
    {
      if ptrs == [] then Ok(Flat([], []))
      else
        Then(Flatten(img, ptrs[0], level), FlattenAll(img, ptrs[1..], level))
    }

    /** How often `n` pointers are packed into blocks until one is left. */
    function Level(n: nat): nat
      requires Fanout() >= 2
      decreases n
    {
      if n <= 1 then 0
      else
        FewerGroups(n);
        1 + Level(DivCeil(n, Fanout()))
    }

    lemma FewerGroups(n: nat)
      requires Fanout() >= 2 && n > 1
      ensures 1 <= DivCeil(n, Fanout()) < n
    {
      var q := DivCeil(n, Fanout());
      if q >= n {
        MulLess(2, Fanout(), q - 1);
      }
    }

    // ----- objects -----

    function MaxLeaves(): nat
      requires allocUnit > 0 && DATA_START <= deviceSize
    {
      (deviceSize - DATA_START) / allocUnit
    }

    /** The number of data blocks a well-formed reference must have, or why it is refused. */
    function CheckObject(obj: ObjRef): Result<nat>
      requires Valid()
    {
      if obj.size == 0 then
        if !obj.root.IsNull() || obj.level != 0 then Err(Corrupt(EmptyWithRoot)) else Ok(0)
      else if obj.root.IsNull() then Err(Corrupt(MissingRoot))
      else
        var leafCount := DivCeil(obj.size, blockSize);
        if leafCount > MaxLeaves() then Err(Corrupt(LargerThanDevice))
        else if obj.level != Level(leafCount) then Err(Corrupt(WrongLevel))
        else Ok(leafCount)
    }

    /** The ordered data-block pointers of an object, or the first thing wrong with it. */
    function CollectedLeaves(img: seq<byte>, obj: ObjRef): Result<seq<BlockPtr>>
      requires Valid()
    {
      var n :- CheckObject(obj);
      if n == 0 then Ok([])
      else
        var whole := Flatten(img, obj.root, obj.level);
        var _ :- Bounded(whole, Seen(img, obj.root, obj.level), n);
        if |whole.value.leaves| != n then Err(Corrupt(LeafCountMismatch)) else Ok(whole.value.leaves)
    }

    /** The object's leaves can be collected: the reference is sane, the tree flattens, and it
        has the right number of data blocks. */
    ghost predicate Collects(img: seq<byte>, obj: ObjRef)
      requires Valid()
    {
      && CheckObject(obj).Ok?
      && (CheckObject(obj).value > 0 ==>
           && Flatten(img, obj.root, obj.level).Ok?
           && |Flatten(img, obj.root, obj.level).value.leaves| == CheckObject(obj).value)
    }

    ghost function Leaves(img: seq<byte>, obj: ObjRef): seq<BlockPtr>
      requires Valid() && Collects(img, obj)
    {
      if CheckObject(obj).value == 0 then [] else Flatten(img, obj.root, obj.level).value.leaves
    }

    /** Where data block `b` starts. */
    function Start(b: nat): nat {
      b * blockSize
    }

    /** The data block that byte `at` falls in, and how far into it. */
    function IndexOf(at: nat): nat
      requires blockSize > 0
    {
      at / blockSize
    }

    function OffsetIn(at: nat): nat
      requires blockSize > 0
    {
      at % blockSize
    }

    /** The part of `c` stored in its data block number `b`. */
    function BlockOf(c: seq<byte>, b: nat): seq<byte>
      requires Start(b) <= |c|
    {
      BlockAt(c, Start(b), blockSize)
    }

    /** The data blocks of a byte string, in order. */
    ghost predicate LeavesHold(img: seq<byte>, leaves: seq<BlockPtr>, c: seq<byte>)
      requires allocUnit > 0 && blockSize > 0
    {
      && |leaves| == DivCeil(|c|, blockSize)
      && forall b {:trigger leaves[b]} :: 0 <= b < |leaves| ==> LeafHolds(img, leaves[b], c, b)
    }

    ghost predicate LeafHolds(img: seq<byte>, leaf: BlockPtr, c: seq<byte>, b: nat)
      requires allocUnit > 0 && blockSize > 0
    {
      Start(b) <= |c| && ReadBlock(img, leaf) == Ok(BlockOf(c, b))
    }

    /** On this image, `obj` is an object whose content is `c`. */
    ghost predicate Holds(img: seq<byte>, obj: ObjRef, c: seq<byte>)
      requires Valid()
    {
      obj.size == |c| && Collects(img, obj) && LeavesHold(img, Leaves(img, obj), c)
    }

    // ----- what further writes leave alone -----

    /** The block lies in the data region, on an allocation unit, with its padding. */
    ghost predicate Placed(ptr: BlockPtr) {
      && allocUnit > 0 && Multiple(ptr.addr, allocUnit) && DATA_START <= ptr.addr && 0 < ptr.psize
      && ptr.addr + Padded(ptr) <= deviceSize
    }

    /** The space a block occupies. */
    function Padded(ptr: BlockPtr): nat
      requires allocUnit > 0
    {
      DivCeil(ptr.psize, allocUnit) * allocUnit
    }

    /** No byte of the block can be handed out again. */
    ghost predicate Retained(s: Space, ptr: BlockPtr) {
      && Placed(ptr)
      && forall x {:trigger s.Available(x)} :: Within(x, ptr.addr, Padded(ptr)) ==> !s.Available(x)
    }

    ghost predicate AllRetained(s: Space, ptrs: seq<BlockPtr>) {
      forall i {:trigger ptrs[i]} :: 0 <= i < |ptrs| ==> Retained(s, ptrs[i])
    }

    ghost predicate DistinctAddrs(leaves: seq<BlockPtr>) {
      forall i, j {:trigger leaves[i], leaves[j]} :: 0 <= i < j < |leaves| ==> leaves[i].addr != leaves[j].addr
    }

    /** Every block of the object lies outside the allocator's free space, and no two of its
        data blocks share an address. */
    ghost predicate Kept(s: Space, img: seq<byte>, obj: ObjRef)
      requires Valid()
    {
      && Collects(img, obj)
      && AllRetained(s, Leaves(img, obj)) && DistinctAddrs(Leaves(img, obj))
      && (obj.size > 0 ==> AllRetained(s, Flatten(img, obj.root, obj.level).value.indirect))
    }

    /** `ptrs` head trees of height `level` whose data blocks are `leaves`, all of whose
        indirect blocks are out of the allocator's reach. */
    ghost predicate Heads(s: Space, img: seq<byte>, ptrs: seq<BlockPtr>, level: nat, leaves: seq<BlockPtr>) {
      && allocUnit > 0
      && FlattenAll(img, ptrs, level).Ok?
      && FlattenAll(img, ptrs, level).value.leaves == leaves
      && AllRetained(s, FlattenAll(img, ptrs, level).value.indirect)
    }
  }

  /** The `size`-byte piece of `c` that starts at `start`, shorter at the end. */
  function BlockAt(c: seq<byte>, start: nat, size: nat): seq<byte>
    requires start <= |c|
  {
    c[start..Min(start + size, |c|)]
  }

  /** The pointers of an indirect block, packed. */
  function Pack(ptrs: seq<BlockPtr>): (bytes: seq<byte>)
    ensures |bytes| == BLOCK_PTR_SIZE * |ptrs|
  {
    if ptrs == [] then [] else ptrs[0].Encoded() + Pack(ptrs[1..])
  }

  lemma {:induction false} PackLast(ptrs: seq<BlockPtr>, p: BlockPtr)
    ensures Pack(ptrs + [p]) == Pack(ptrs) + p.Encoded()
  {
    if ptrs == [] {
      assert (ptrs + [p])[1..] == [];
    } else {
      assert (ptrs + [p])[1..] == ptrs[1..] + [p];
      PackLast(ptrs[1..], p);
    }
  }

  /** Only bytes that were still available may differ, and nothing became available. */
  ghost predicate Evolves(img: seq<byte>, s: Space, img': seq<byte>, s': Space) {
    && |img'| == |img| && Shrinks(s, s')
    && (forall x {:trigger img'[x]} :: 0 <= x < |img| && !s.Available(x) ==> img'[x] == img[x])
    && (forall x {:trigger s'.Available(x)} :: s'.Available(x) ==> s.Available(x))
  }

  /** The allocator cannot place some block of legal size. */
  ghost predicate Exhausted(g: Geometry, s: Space) {
    s.unit > 0 && exists len: nat :: 0 < len <= g.blockSize && NoRoomFor(s, len)
  }

  /** No free extent fits `len` bytes, and neither does the space after the frontier. */
  ghost predicate NoRoomFor(s: Space, len: nat)
    requires s.unit > 0
  {
    && (forall i :: 0 <= i < |s.free| ==> s.free[i].len < s.Aligned(len))
    && s.frontier + s.Aligned(len) > s.deviceSize
  }

  /** What could not be placed once cannot be placed later. */
  lemma ExhaustedStays(g: Geometry, s: Space, s': Space)
    requires Exhausted(g, s) && Shrinks(s, s')
    ensures Exhausted(g, s')
  {
    var len: nat :| 0 < len <= g.blockSize && NoRoomFor(s, len);
    assert s'.Aligned(len) == s.Aligned(len);
    forall i | 0 <= i < |s'.free| ensures s'.free[i].len < s'.Aligned(len) {
      assert Inside(s.free, s'.free[i]);
    }
    assert NoRoomFor(s', len);
  }

  /** The parameters that formatting and mounting accept. */
  predicate PowerOfTwo(n: nat) {
    n == 1 || (n > 0 && n % 2 == 0 && PowerOfTwo(n / 2))
  }

  predicate BlockSizeOk(n: nat) {
    PowerOfTwo(n) && 512 <= n <= 0x10_0000
  }

  predicate AllocUnitOk(n: nat, blockSize: nat) {
    PowerOfTwo(n) && 64 <= n <= 4096 && n <= blockSize
  }

  /** Such an allocation unit divides the start of the data region. */
  lemma AllocUnitDivides(n: nat, blockSize: nat)
    requires AllocUnitOk(n, blockSize)
    ensures Multiple(DATA_START, n)
  {
    assert PowerOfTwo(1) && PowerOfTwo(2) && PowerOfTwo(4) && PowerOfTwo(8) && PowerOfTwo(16) && PowerOfTwo(32);
    assert PowerOfTwo(64) && PowerOfTwo(128) && PowerOfTwo(256) && PowerOfTwo(512) && PowerOfTwo(1024);
    assert PowerOfTwo(2048) && PowerOfTwo(4096) && PowerOfTwo(8192);
    PowersDivide(n, DATA_START);
  }

  lemma {:induction false} PowersDivide(n: nat, k: nat)
    requires PowerOfTwo(n) && PowerOfTwo(k) && n <= k
    ensures Multiple(k, n)
  {
    if n > 1 {
      PowersDivide(n / 2, k / 2);
      Euclid(k / 2, n / 2);
      var q := k / 2 / (n / 2);
      assert q * n == 2 * (q * (n / 2));
      MultipleIs(q, n);
    }
  }

  lemma EvolvesRefl(img: seq<byte>, s: Space)
    ensures Evolves(img, s, img, s)
  {
    ShrinksRefl(s);
  }

  lemma EvolvesTrans(img: seq<byte>, s: Space, img1: seq<byte>, s1: Space, img2: seq<byte>, s2: Space)
    requires Evolves(img, s, img1, s1) && Evolves(img1, s1, img2, s2)
    ensures Evolves(img, s, img2, s2)
  {
    hide Shrinks;
    ShrinksTrans(s, s1, s2);
    forall x | 0 <= x < |img| && !s.Available(x) ensures img2[x] == img[x] {
      assert img1[x] == img[x];
      assert !s1.Available(x);
    }
  }

  // ----- levels -----

  /** The height from repeated division is the least one whose capacity suffices. */
  lemma {:induction false} LevelIsLeast(g: Geometry, n: nat)
    requires g.Fanout() >= 2
    ensures Pow(g.Fanout(), g.Level(n)) >= n
    ensures g.Level(n) > 0 ==> Pow(g.Fanout(), g.Level(n) - 1) < n
    decreases n
  {
    if n > 1 {
      var m := DivCeil(n, g.Fanout());
      g.FewerGroups(n);
      LevelIsLeast(g, m);
      CapacityStep(g.Fanout(), n, m, g.Level(m));
    }
  }

  lemma CapacityStep(f: nat, n: nat, m: nat, k: nat)
    requires f >= 2 && n > 1 && m == DivCeil(n, f)
    requires Pow(f, k) >= m && (k > 0 ==> Pow(f, k - 1) < m)
    ensures Pow(f, k + 1) >= n && Pow(f, k) < n
  {
    MulLess(m, Pow(f, k), f);
    if k > 0 {
      MulLess(Pow(f, k - 1), m - 1, f);
    }
  }

  /** Any other least height is the same one. */
  lemma LevelIs(g: Geometry, n: nat, k: nat)
    requires g.Fanout() >= 2
    requires Pow(g.Fanout(), k) >= n && (k > 0 ==> Pow(g.Fanout(), k - 1) < n)
    ensures g.Level(n) == k
  {
    LevelIsLeast(g, n);
    if g.Level(n) < k { PowMonotone(g.Fanout(), g.Level(n), k - 1); }
    if k < g.Level(n) { PowMonotone(g.Fanout(), k, g.Level(n) - 1); }
  }

  /** A 64-bit count needs at most 64 levels, so the level always fits its byte. */
  lemma LevelFits(g: Geometry, n: nat)
    requires g.Fanout() >= 2 && n <= U64_MAX
    ensures g.Level(n) <= 64
  {
    LevelIsLeast(g, n);
    if g.Level(n) > 64 {
      Pow64();
      PowMonotone(2, 64, g.Level(n) - 1);
      PowGrows(g.Fanout(), g.Level(n) - 1);
    }
  }

  // ----- walks -----

  /** One pointer of an indirect block at a time. */
  lemma PackedStep(g: Geometry, img: seq<byte>, block: seq<byte>, level: nat)
    requires g.allocUnit > 0 && |block| % BLOCK_PTR_SIZE == 0 && block != []
    ensures var child := BlockPtr.ReadFrom(block[..BLOCK_PTR_SIZE]);
            && g.FlattenPacked(img, block, level) ==
               (if child.Err? then Err(child.error)
                else Then(g.Flatten(img, child.value, level), g.FlattenPacked(img, block[BLOCK_PTR_SIZE..], level)))
            && g.SeenPacked(img, block, level) ==
               (if child.Err? then 0
                else g.Seen(img, child.value, level)
                     + if g.Flatten(img, child.value, level).Err? then 0 else g.SeenPacked(img, block[BLOCK_PTR_SIZE..], level))
  {
    hide Geometry.Flatten, Geometry.Seen;
  }

  /** A walk without a fault meets exactly the tree's data blocks. */
  lemma {:induction false} SeenAll(g: Geometry, img: seq<byte>, ptr: BlockPtr, level: nat)
    requires g.allocUnit > 0 && g.Flatten(img, ptr, level).Ok?
    ensures g.Seen(img, ptr, level) == |g.Flatten(img, ptr, level).value.leaves|
    decreases level, 0
  {
    hide Geometry.ReadBlock;
    if level > 0 {
      SeenAllPacked(g, img, g.ReadBlock(img, ptr).value, level - 1);
    }
  }

  lemma {:induction false} SeenAllPacked(g: Geometry, img: seq<byte>, block: seq<byte>, level: nat)
    requires g.allocUnit > 0 && |block| % BLOCK_PTR_SIZE == 0 && g.FlattenPacked(img, block, level).Ok?
    ensures g.SeenPacked(img, block, level) == |g.FlattenPacked(img, block, level).value.leaves|
    decreases level, |block|
  {
    hide Geometry.Flatten, Geometry.Seen;
    if block != [] {
      SeenAll(g, img, BlockPtr.ReadFrom(block[..BLOCK_PTR_SIZE]).value, level);
      SeenAllPacked(g, img, block[BLOCK_PTR_SIZE..], level);
    }
  }

  /** The leaves of an object can be collected exactly when nothing is wrong with it. */
  lemma CollectsIff(g: Geometry, img: seq<byte>, obj: ObjRef)
    requires g.Valid()
    ensures g.Collects(img, obj) <==> g.CollectedLeaves(img, obj).Ok?
    ensures g.Collects(img, obj) ==> g.CollectedLeaves(img, obj) == Ok(g.Leaves(img, obj))
  {
    hide Geometry.Flatten, Geometry.Seen, Geometry.CheckObject;
    if g.CheckObject(obj).Ok? && g.Flatten(img, obj.root, obj.level).Ok? {
      SeenAll(g, img, obj.root, obj.level);
    }
  }

  // ----- rows of trees -----

  lemma {:induction false} FlattenPackedIsAll(g: Geometry, img: seq<byte>, ptrs: seq<BlockPtr>, level: nat)
    requires g.allocUnit > 0
    ensures g.FlattenPacked(img, Pack(ptrs), level) == g.FlattenAll(img, ptrs, level)
    decreases |ptrs|
  {
    if ptrs != [] {
      var block := Pack(ptrs);
      assert block[..BLOCK_PTR_SIZE] == ptrs[0].Encoded() && block[BLOCK_PTR_SIZE..] == Pack(ptrs[1..]);
      PtrRoundTrip(ptrs[0]);
      FlattenPackedIsAll(g, img, ptrs[1..], level);
    }
  }

  lemma ThenNothing(r: Result<Flat>)
    ensures Then(Ok(Flat([], [])), r) == r
  {
    if r.Ok? { assert [] + r.value.leaves == r.value.leaves && [] + r.value.indirect == r.value.indirect; }
  }

  lemma ThenAssociative(a: Result<Flat>, b: Result<Flat>, c: Result<Flat>)
    ensures Then(Then(a, b), c) == Then(a, Then(b, c))
  {
    if a.Ok? && b.Ok? && c.Ok? {
      var x, y, z := a.value, b.value, c.value;
      assert x.leaves + y.leaves + z.leaves == x.leaves + (y.leaves + z.leaves);
      assert x.indirect + y.indirect + z.indirect == x.indirect + (y.indirect + z.indirect);
    }
  }

  lemma {:induction false} FlattenAllSplit(g: Geometry, img: seq<byte>, a: seq<BlockPtr>, b: seq<BlockPtr>, level: nat)
    requires g.allocUnit > 0
    ensures g.FlattenAll(img, a + b, level) == Then(g.FlattenAll(img, a, level), g.FlattenAll(img, b, level))
    decreases |a|
  {
    hide Geometry.Flatten, Then;
    if a == [] {
      assert a + b == b;
      ThenNothing(g.FlattenAll(img, b, level));
    } else {
      assert (a + b)[0] == a[0] && (a + b)[1..] == a[1..] + b;
      FlattenAllSplit(g, img, a[1..], b, level);
      ThenAssociative(g.Flatten(img, a[0], level), g.FlattenAll(img, a[1..], level), g.FlattenAll(img, b, level));
    }
  }

  lemma {:induction false} LeavesAreTheirOwnHeads(g: Geometry, img: seq<byte>, leaves: seq<BlockPtr>)
    requires g.allocUnit > 0
    ensures g.FlattenAll(img, leaves, 0) == Ok(Flat(leaves, []))
    decreases |leaves|
  {
    if leaves != [] {
      LeavesAreTheirOwnHeads(g, img, leaves[1..]);
      var rest := g.FlattenAll(img, leaves[1..], 0).value;
      assert [leaves[0]] + rest.leaves == leaves && [] + rest.indirect == [];
    }
  }

  lemma LeafHeads(g: Geometry, s: Space, img: seq<byte>, leaves: seq<BlockPtr>)
    requires g.allocUnit > 0
    ensures g.Heads(s, img, leaves, 0, leaves)
  {
    hide Geometry.FlattenAll;
    LeavesAreTheirOwnHeads(g, img, leaves);
  }

  lemma NoHeads(g: Geometry, s: Space, img: seq<byte>, level: nat, leaves: seq<BlockPtr>)
    requires g.allocUnit > 0
    ensures g.Heads(s, img, [], level, leaves) <==> leaves == []
  {
  }

  /** A row of one tree. */
  lemma SingleHead(g: Geometry, s: Space, img: seq<byte>, ptr: BlockPtr, level: nat, leaves: seq<BlockPtr>)
    requires g.allocUnit > 0
    ensures g.Heads(s, img, [ptr], level, leaves) <==>
            && g.Flatten(img, ptr, level).Ok?
            && g.Flatten(img, ptr, level).value.leaves == leaves
            && g.AllRetained(s, g.Flatten(img, ptr, level).value.indirect)
  {
    hide Geometry.Flatten, Geometry.AllRetained;
    assert g.FlattenAll(img, [], level) == Ok(Flat([], [])) && [ptr][1..] == [];
    if g.Flatten(img, ptr, level).Ok? {
      var f := g.Flatten(img, ptr, level).value;
      assert f.leaves + [] == f.leaves && f.indirect + [] == f.indirect;
      assert g.FlattenAll(img, [ptr], level) == Ok(f);
    }
  }

  /** The pointer a tree flattens under is not null, unless it is itself a null leaf. */
  lemma RootNotNull(g: Geometry, img: seq<byte>, ptr: BlockPtr, level: nat)
    requires g.allocUnit > 0 && g.Flatten(img, ptr, level).Ok?
    ensures level == 0 ==> g.Flatten(img, ptr, level).value.leaves == [ptr]
    ensures level > 0 ==> !ptr.IsNull()
  {
    hide Geometry.Decode, Geometry.FlattenPacked;
  }

  lemma HeadsJoin(g: Geometry, s: Space, img: seq<byte>, a: seq<BlockPtr>, b: seq<BlockPtr>, level: nat,
                  la: seq<BlockPtr>, lb: seq<BlockPtr>)
    requires g.Heads(s, img, a, level, la) && g.Heads(s, img, b, level, lb)
    ensures g.Heads(s, img, a + b, level, la + lb)
  {
    FlattenAllSplit(g, img, a, b, level);
  }

  lemma HeadsSplit(g: Geometry, s: Space, img: seq<byte>, ptrs: seq<BlockPtr>, m: nat, level: nat, leaves: seq<BlockPtr>)
    returns (la: seq<BlockPtr>, lb: seq<BlockPtr>)
    requires m <= |ptrs| && g.Heads(s, img, ptrs, level, leaves)
    ensures leaves == la + lb
    ensures g.Heads(s, img, ptrs[..m], level, la) && g.Heads(s, img, ptrs[m..], level, lb)
  {
    hide Geometry.Flatten, Geometry.Retained;
    assert ptrs == ptrs[..m] + ptrs[m..];
    FlattenAllSplit(g, img, ptrs[..m], ptrs[m..], level);
    var fa, fb := g.FlattenAll(img, ptrs[..m], level).value, g.FlattenAll(img, ptrs[m..], level).value;
    la, lb := fa.leaves, fb.leaves;
    var all := g.FlattenAll(img, ptrs, level).value.indirect;
    assert forall i :: 0 <= i < |fa.indirect| ==> fa.indirect[i] == all[i];
    assert forall i :: 0 <= i < |fb.indirect| ==> fb.indirect[i] == all[|fa.indirect| + i];
  }

  // ----- frames -----

  /** A retained block reads the same after any further writes. */
  lemma ReadBlockFrame(g: Geometry, img: seq<byte>, s: Space, img': seq<byte>, s': Space, ptr: BlockPtr)
    requires Evolves(img, s, img', s') && g.Retained(s, ptr)
    ensures g.ReadBlock(img', ptr) == g.ReadBlock(img, ptr)
    ensures g.Retained(s', ptr)
  {
    var n := g.Padded(ptr);
    if InRange(|img|, ptr.addr, ptr.psize) {
      forall x | ptr.addr <= x < ptr.addr + ptr.psize ensures img'[x] == img[x] {
        assert Within(x, ptr.addr, n);
      }
      assert img'[ptr.addr..ptr.addr + ptr.psize] == img[ptr.addr..ptr.addr + ptr.psize];
    }
  }

  lemma RetainedConcat(g: Geometry, s: Space, a: seq<BlockPtr>, b: seq<BlockPtr>)
    ensures g.AllRetained(s, a + b) <==> g.AllRetained(s, a) && g.AllRetained(s, b)
  {
    var c := a + b;
    assert forall i :: 0 <= i < |a| ==> c[i] == a[i];
    assert forall i :: 0 <= i < |b| ==> c[|a| + i] == b[i];
  }

  /** A tree whose indirect blocks are retained flattens the same after further writes. */
  lemma {:induction false} FlattenFrame(g: Geometry, img: seq<byte>, s: Space, img': seq<byte>, s': Space,
                                        ptr: BlockPtr, level: nat)
    requires g.allocUnit > 0 && Evolves(img, s, img', s')
    requires g.Flatten(img, ptr, level).Ok? && g.AllRetained(s, g.Flatten(img, ptr, level).value.indirect)
    ensures g.Flatten(img', ptr, level) == g.Flatten(img, ptr, level)
    decreases level, 0
  {
    hide Geometry.ReadBlock, Evolves;
    if level > 0 {
      var f := g.Flatten(img, ptr, level).value;
      assert f.indirect[0] == ptr;
      ReadBlockFrame(g, img, s, img', s', ptr);
      var block := g.ReadBlock(img, ptr).value;
      var below := g.FlattenPacked(img, block, level - 1).value;
      RetainedConcat(g, s, [ptr], below.indirect);
      FlattenPackedFrame(g, img, s, img', s', block, level - 1);
    }
  }

  lemma {:induction false} FlattenPackedFrame(g: Geometry, img: seq<byte>, s: Space, img': seq<byte>, s': Space,
                                              block: seq<byte>, level: nat)
    requires g.allocUnit > 0 && Evolves(img, s, img', s') && |block| % BLOCK_PTR_SIZE == 0
    requires g.FlattenPacked(img, block, level).Ok?
    requires g.AllRetained(s, g.FlattenPacked(img, block, level).value.indirect)
    ensures g.FlattenPacked(img', block, level) == g.FlattenPacked(img, block, level)
    decreases level, |block|
  {
    hide Geometry.ReadBlock, Evolves;
    if block != [] {
      var child := BlockPtr.ReadFrom(block[..BLOCK_PTR_SIZE]).value;
      var first := g.Flatten(img, child, level).value;
      var rest := g.FlattenPacked(img, block[BLOCK_PTR_SIZE..], level).value;
      RetainedConcat(g, s, first.indirect, rest.indirect);
      FlattenFrame(g, img, s, img', s', child, level);
      FlattenPackedFrame(g, img, s, img', s', block[BLOCK_PTR_SIZE..], level);
    }
  }

  lemma RetainedFrame(g: Geometry, img: seq<byte>, s: Space, img': seq<byte>, s': Space, ptrs: seq<BlockPtr>)
    requires Evolves(img, s, img', s') && g.AllRetained(s, ptrs)
    ensures g.AllRetained(s', ptrs)
  {
    forall i | 0 <= i < |ptrs| ensures g.Retained(s', ptrs[i]) {
      assert forall x :: Within(x, ptrs[i].addr, g.Padded(ptrs[i])) ==> !s.Available(x);
    }
  }

  lemma {:induction false} FlattenAllFrame(g: Geometry, img: seq<byte>, s: Space, img': seq<byte>, s': Space,
                                           ptrs: seq<BlockPtr>, level: nat)
    requires g.allocUnit > 0 && Evolves(img, s, img', s')
    requires g.FlattenAll(img, ptrs, level).Ok? && g.AllRetained(s, g.FlattenAll(img, ptrs, level).value.indirect)
    ensures g.FlattenAll(img', ptrs, level) == g.FlattenAll(img, ptrs, level)
    decreases |ptrs|
  {
    if ptrs != [] {
      var first := g.Flatten(img, ptrs[0], level).value;
      var rest := g.FlattenAll(img, ptrs[1..], level).value;
      RetainedConcat(g, s, first.indirect, rest.indirect);
      FlattenFrame(g, img, s, img', s', ptrs[0], level);
      FlattenAllFrame(g, img, s, img', s', ptrs[1..], level);
    }
  }

  lemma HeadsFrame(g: Geometry, img: seq<byte>, s: Space, img': seq<byte>, s': Space,
                   ptrs: seq<BlockPtr>, level: nat, leaves: seq<BlockPtr>)
    requires Evolves(img, s, img', s') && g.Heads(s, img, ptrs, level, leaves)
    ensures g.Heads(s', img', ptrs, level, leaves)
  {
    FlattenAllFrame(g, img, s, img', s', ptrs, level);
    RetainedFrame(g, img, s, img', s', g.FlattenAll(img, ptrs, level).value.indirect);
  }

  /** Whatever is written later, an object whose blocks are all retained keeps its exact
      content, and its blocks stay retained. */
  lemma ObjectSurvives(g: Geometry, img: seq<byte>, s: Space, img': seq<byte>, s': Space, obj: ObjRef, c: seq<byte>)
    requires g.Valid() && Evolves(img, s, img', s')
    requires g.Holds(img, obj, c) && g.Kept(s, img, obj)
    ensures g.Holds(img', obj, c) && g.Kept(s', img', obj)
  {
    hide Geometry.ReadBlock;
    if c != [] {
      assert DivCeil(|c|, g.blockSize) > 0;
      FlattenFrame(g, img, s, img', s', obj.root, obj.level);
      RetainedFrame(g, img, s, img', s', g.Flatten(img, obj.root, obj.level).value.indirect);
    }
    var leaves := g.Leaves(img, obj);
    forall i | 0 <= i < |leaves| ensures g.LeafHolds(img', leaves[i], c, i) {
      ReadBlockFrame(g, img, s, img', s', leaves[i]);
      assert g.LeafHolds(img, leaves[i], c, i);
    }
    RetainedFrame(g, img, s, img', s', leaves);
  }

  /** All of these objects hold their contents, on blocks nobody can be handed again. */
  ghost predicate AllHeld(g: Geometry, img: seq<byte>, s: Space, objs: seq<ObjRef>, contents: seq<seq<byte>>)
    requires g.Valid()
  {
    && |objs| == |contents|
    && forall i {:trigger objs[i]} :: 0 <= i < |objs| ==> HeldAt(g, img, s, objs[i], contents[i])
  }

  ghost predicate HeldAt(g: Geometry, img: seq<byte>, s: Space, obj: ObjRef, c: seq<byte>)
    requires g.Valid()
  {
    g.Holds(img, obj, c) && g.Kept(s, img, obj)
  }

  lemma HeldLengths(g: Geometry, img: seq<byte>, s: Space, objs: seq<ObjRef>, contents: seq<seq<byte>>)
    requires g.Valid() && AllHeld(g, img, s, objs, contents)
    ensures |objs| == |contents|
  {
  }

  lemma HeldOne(g: Geometry, img: seq<byte>, s: Space, objs: seq<ObjRef>, contents: seq<seq<byte>>, i: nat)
    requires g.Valid() && AllHeld(g, img, s, objs, contents) && i < |objs|
    ensures |contents| == |objs| && g.Holds(img, objs[i], contents[i]) && g.Kept(s, img, objs[i])
    ensures g.Collects(img, objs[i])
  {
    hide Geometry.Collects, Geometry.Leaves, Geometry.Flatten;
    assert HeldAt(g, img, s, objs[i], contents[i]);
  }

  /** Objects survive every step that writes available space only. */
  lemma AllSurvive(g: Geometry, img: seq<byte>, s: Space, img': seq<byte>, s': Space, objs: seq<ObjRef>, contents: seq<seq<byte>>)
    requires g.Valid() && Evolves(img, s, img', s') && AllHeld(g, img, s, objs, contents)
    ensures AllHeld(g, img', s', objs, contents)
  {
    hide Geometry.Holds, Geometry.Kept, Evolves;
    forall i | 0 <= i < |objs| ensures HeldAt(g, img', s', objs[i], contents[i]) {
      assert HeldAt(g, img, s, objs[i], contents[i]);
      ObjectSurvives(g, img, s, img', s', objs[i], contents[i]);
    }
  }

  // ----- how many data blocks fit -----

  lemma UnitInRange(at: nat, len: nat, room: nat, u: nat)
    requires Multiple(at, u) && len >= u && at + len <= room
    ensures at == at / u * u && at / u < room / u
  {
    Euclid(at, u);
    Euclid(room, u);
    MulLess(room / u, at / u, u);
  }

  /** The allocation unit a block starts in, counted from the start of the data region. */
  ghost function UnitIndex(g: Geometry, ptr: BlockPtr): (k: nat)
    requires g.Placed(ptr) && Multiple(DATA_START, g.allocUnit) && DATA_START <= g.deviceSize
    ensures ptr.addr == DATA_START + k * g.allocUnit && k < g.MaxLeaves()
  {
    hide Multiple;
    MultipleSum(ptr.addr, DATA_START, g.allocUnit);
    MulLess(1, DivCeil(ptr.psize, g.allocUnit), g.allocUnit);
    UnitInRange(ptr.addr - DATA_START, g.Padded(ptr), g.deviceSize - DATA_START, g.allocUnit);
    (ptr.addr - DATA_START) / g.allocUnit
  }

  lemma {:induction false} UpTo(n: nat) returns (s: set<nat>)
    ensures |s| == n && forall k: nat :: k in s <==> k < n
  {
    if n == 0 {
      s := {};
    } else {
      var t := UpTo(n - 1);
      s := t + {n - 1};
    }
  }

  lemma SubsetSize(a: set<nat>, b: set<nat>)
    requires a <= b
    ensures |a| <= |b|
  {
    assert b == a + (b - a);
  }

  lemma {:induction false} UnitsUsed(g: Geometry, leaves: seq<BlockPtr>) returns (used: set<nat>)
    requires Multiple(DATA_START, g.allocUnit) && DATA_START <= g.deviceSize
    requires forall i :: 0 <= i < |leaves| ==> g.Placed(leaves[i])
    requires g.DistinctAddrs(leaves)
    ensures |used| == |leaves|
    ensures forall k :: k in used ==> k < g.MaxLeaves()
    ensures forall k :: k in used ==> exists i :: 0 <= i < |leaves| && k == UnitIndex(g, leaves[i])
    decreases |leaves|
  {
    if leaves == [] {
      used := {};
    } else {
      var n := |leaves| - 1;
      var rest := UnitsUsed(g, leaves[..n]);
      var k := UnitIndex(g, leaves[n]);
      forall j | j in rest ensures j != k {
        var i :| 0 <= i < n && j == UnitIndex(g, leaves[..n][i]);
        assert leaves[i].addr != leaves[n].addr;
      }
      used := rest + {k};
      forall j | j in used ensures exists i :: 0 <= i < |leaves| && j == UnitIndex(g, leaves[i]) {
        if j in rest {
          var i :| 0 <= i < n && j == UnitIndex(g, leaves[..n][i]);
          assert leaves[..n][i] == leaves[i];
        }
      }
    }
  }

  /** Blocks at distinct aligned addresses never outnumber the units of the data region, so
      an object that was written is never refused for its size. */
  lemma LeavesFit(g: Geometry, leaves: seq<BlockPtr>)
    requires Multiple(DATA_START, g.allocUnit) && DATA_START <= g.deviceSize
    requires forall i :: 0 <= i < |leaves| ==> g.Placed(leaves[i])
    requires g.DistinctAddrs(leaves)
    ensures |leaves| <= g.MaxLeaves()
  {
    var used := UnitsUsed(g, leaves);
    var all := UpTo(g.MaxLeaves());
    SubsetSize(used, all);
  }
}
