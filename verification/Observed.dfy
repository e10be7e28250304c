/**
  What a client of the storage engine can observe, in bytes and numbers alone: what a read
  returns after a write, which blocks a write leaves alone, what a block takes on the device,
  and what is accepted for reading and for mounting.
*/
module Observed {
  import opened Bytes
  import opened Arith
  import opened Format
  import opened Space
  import opened Device
  import opened BlockTree
  import opened Content
  import opened Election
  import opened Engine
  import opened Crash

  // ----- a write, then a read -----

  /** Byte `x` of a content after `data` was written at `offset`: the data where it lies, the old
      content elsewhere, and zero in between. */
  function ByteAfter(c: seq<byte>, offset: nat, data: seq<byte>, x: nat): byte {
    if offset <= x < offset + |data| then data[x - offset] else if x < |c| then c[x] else 0
  }

  /** Write at `offset`, then read `buf.Length` bytes at `at` of what the write returned. */
  method WriteThenRead(fs: Eofs, obj: ObjRef, offset: u64, data: seq<byte>, at: u64, buf: array<byte>, ghost c: seq<byte>)
    returns (w: Result<ObjRef>, r: Reading<nat>)
    requires fs.Valid() && fs.geo.Holds(fs.Img(), obj, c) && fs.geo.Kept(fs.Sp(), fs.Img(), obj)
    requires buf != fs.dev.inner.data && data != []
    modifies fs.dev, fs.dev.inner.data, fs.alloc, buf
    ensures w.Ok? ==>
      var total := Max(|c|, offset + |data|);
      var n := if at >= total then 0 else Min(buf.Length, total - at);
      && w.value.size == total && r == Finished(Ok(n))
      && (forall i :: 0 <= i < n ==> buf[i] == ByteAfter(c, offset, data, at + i))
      && (forall i :: n <= i < buf.Length ==> buf[i] == old(buf[i]))
    ensures w.Err? ==> fs.WriteFailure(w.error) || (w.error == NoSpace && offset + |data| > U64_MAX)
  {
    hide Geometry.Holds, Geometry.Kept, Geometry.Collects, Geometry.Leaves, Geometry.CollectedLeaves, RangeBytes, Untouched, Evolves,
      Steady, Geometry.Start, Splice, Space.Valid;
    w := fs.WriteObjectRange(obj, offset, data, c);
    r := Finished(Ok(0));
    if w.Err? { return; }
    ghost var now := Splice(c, offset, data);
    ReadsBack(fs.geo, fs.Img(), w.value, now, at, buf.Length);
    r := fs.ReadObjectRange(w.value, at, buf);
    SpliceBytes(c, offset, data);
    ghost var n := Wanted(|now|, at, buf.Length);
    if n > 0 {
      assert buf[..n] == now[at..at + n];
      forall i | 0 <= i < n
        ensures buf[i] == ByteAfter(c, offset, data, at + i)
      {
        assert buf[i] == buf[..n][i] == now[at..at + n][i] == now[at + i];
      }
    }
  }

  lemma SpliceBytes(c: seq<byte>, offset: nat, data: seq<byte>)
    ensures |Splice(c, offset, data)| == Max(|c|, offset + |data|)
    ensures forall x :: 0 <= x < |Splice(c, offset, data)| ==> Splice(c, offset, data)[x] == ByteAfter(c, offset, data, x)
  {
  }

  /** What a range read of a held object comes to. */
  lemma ReadsBack(g: Geometry, img: seq<byte>, obj: ObjRef, c: seq<byte>, at: nat, len: nat)
    requires g.Valid() && g.Holds(img, obj, c)
    ensures obj.size == |c|
    ensures var n := Wanted(|c|, at, len);
      n > 0 ==>
        && g.CollectedLeaves(img, obj).Ok? && at + n <= g.Start(|g.CollectedLeaves(img, obj).value|)
        && RangeBytes(g, img, g.CollectedLeaves(img, obj).value, at, at + n) == Finished(Ok(c[at..at + n]))
  {
    hide Geometry.LeavesHold, RangeBytes, Geometry.CheckObject, Geometry.Flatten, Geometry.CollectedLeaves, FullLeaves;
    CollectsIff(g, img, obj);
    HeldLeavesAreFull(g, img, g.Leaves(img, obj), c);
    var n := Wanted(|c|, at, len);
    if n > 0 { RangeIsSlice(g, img, g.Leaves(img, obj), c, at, at + n); }
  }

  // ----- which blocks a write leaves alone -----

  /** Block `b` keeps its pointer exactly when it was there, ends before the data or starts after
      it, and is either a full block already or not the one the object grows in. */
  lemma UntouchedIff(g: Geometry, size: nat, offset: nat, len: nat, b: nat)
    requires len > 0 && g.blockSize > 0
    ensures var from, to := b * g.blockSize, b * g.blockSize + g.blockSize;
      Untouched(g, size, offset, len, b)
      <==> from < size && (offset + len <= from || Min(to, Max(size, offset + len)) <= offset)
           && (to <= size || offset + len <= size)
  {
  }

  // ----- what a block takes -----

  /** A stored block takes no more than it does raw, nor, where compression is on, than it does
      compressed; it is raw or compressed, and compressed only when that is shorter. */
  lemma StoredLeast(g: Geometry, logical: seq<byte>)
    ensures var (codec, payload) := g.Stored(logical);
      && |payload| <= |logical| && (g.codec == Lz4 ==> |payload| <= |g.prims.compress(logical)|)
      && (codec == Raw ==> payload == logical)
      && (codec == Lz4 ==> payload == g.prims.compress(logical) && |payload| < |logical| && g.codec == Lz4)
  {
  }

  /** It takes the least multiple of the allocation unit that holds it. */
  lemma AlignedLeast(s: Space, len: nat)
    requires s.unit > 0
    ensures len <= s.Aligned(len) < len + s.unit && Multiple(s.Aligned(len), s.unit)
  {
    AlignedBound(s, len);
  }

  // ----- the shape of a tree -----

  /** A tree has the least height at which blocks of 56-byte pointers reach all data blocks. */
  lemma HeightIff(g: Geometry, n: nat, k: nat)
    requires g.Valid() && n > 0
    ensures g.Level(n) == k
       <==> Pow(g.blockSize / 56, k) >= n && (k > 0 ==> Pow(g.blockSize / 56, k - 1) < n)
  {
    LevelIsLeast(g, n);
    if Pow(g.blockSize / 56, k) >= n && (k > 0 ==> Pow(g.blockSize / 56, k - 1) < n) { LevelIs(g, n, k); }
  }

  /** Pointer `i` of an indirect block lies at 56 * `i`. */
  lemma {:induction false} PackedAt(ptrs: seq<BlockPtr>, i: nat)
    requires i < |ptrs|
    ensures |Pack(ptrs)| == 56 * |ptrs| && Pack(ptrs)[56 * i..56 * i + 56] == ptrs[i].Encoded()
    decreases i
  {
    var first, rest := ptrs[0].Encoded(), Pack(ptrs[1..]);
    assert Pack(ptrs) == first + rest;
    if i > 0 {
      PackedAt(ptrs[1..], i - 1);
      assert (first + rest)[56 * i..56 * i + 56] == rest[56 * (i - 1)..56 * (i - 1) + 56];
    }
  }

  // ----- what is accepted for reading -----

  /** Where a block may lie and what it may say of itself. */
  ghost predicate PointerSane(g: Geometry, ptr: BlockPtr) {
    && 1 <= ptr.lsize <= g.blockSize && 1 <= ptr.psize <= g.blockSize
    && 8192 <= ptr.addr && Multiple(ptr.addr, g.allocUnit) && ptr.addr + ptr.psize <= g.deviceSize
  }

  /** A read succeeds with exactly the bytes that are stored where a sane pointer says, raw or
      as compressed, and that hash to what it says. Nothing before the data region is read. */
  lemma ReadBlockIff(g: Geometry, img: seq<byte>, ptr: BlockPtr, block: seq<byte>)
    requires g.Valid() && |img| == g.deviceSize
    ensures g.ReadBlock(img, ptr) == Ok(block)
       <==> && PointerSane(g, ptr) && |block| == ptr.lsize && g.prims.blake3(block) == ptr.hash
            && (if ptr.codec == Raw then block == img[ptr.addr..ptr.addr + ptr.psize]
                else g.prims.decompress(img[ptr.addr..ptr.addr + ptr.psize], ptr.lsize) == Some(block))
  {
  }

  /** A reference is accepted only if its data blocks, one unit each at least, fit the device,
      and it is refused as too large only if they do not. */
  lemma AcceptedFits(g: Geometry, obj: ObjRef)
    requires g.Valid()
    ensures g.CheckObject(obj).Ok? ==>
      g.CheckObject(obj).value == DivCeil(obj.size, g.blockSize) && DivCeil(obj.size, g.blockSize) * g.allocUnit <= g.deviceSize - 8192
    ensures g.CheckObject(obj) == Err(Corrupt(LargerThanDevice))
       <==> obj.size > 0 && obj.root.addr != 0 && DivCeil(obj.size, g.blockSize) * g.allocUnit > g.deviceSize - 8192
  {
    hide Multiple, Geometry.Level;
    var n, room, unit := DivCeil(obj.size, g.blockSize), g.deviceSize - DATA_START, g.allocUnit;
    assert unit > 0 by { MultiplePositive(DATA_START, unit); }
    Euclid(room, unit);
    MulLess(room / unit, n, unit);
    MulLess(room / unit + 1, n, unit);
    if obj.size == 0 { DivCeilIs(0, g.blockSize, 0); }
  }

  lemma MultiplePositive(a: int, m: nat)
    requires Multiple(a, m)
    ensures m > 0
  {
  }

  // ----- what is accepted for mounting -----

  /** The powers of two up to 2^`k`. */
  lemma {:induction false} PowersUpTo(n: nat, k: nat)
    ensures PowerOfTwo(n) && n <= Pow(2, k) ==> exists j :: 0 <= j <= k && n == Pow(2, j)
    decreases k
  {
    if PowerOfTwo(n) && n <= Pow(2, k) {
      if n == 1 {
        assert n == Pow(2, 0);
      } else if k > 0 {
        PowersUpTo(n / 2, k - 1);
        assert Pow(2, k) == 2 * Pow(2, k - 1);
        var j :| 0 <= j <= k - 1 && n / 2 == Pow(2, j);
        assert Pow(2, j + 1) == 2 * Pow(2, j);
      }
    }
  }

  lemma {:induction false} PowIsPower(j: nat)
    ensures PowerOfTwo(Pow(2, j))
    decreases j
  {
    if j > 0 { PowIsPower(j - 1); }
  }

  /** A mount accepts exactly blocks of 2^9 to 2^20 bytes, allocation units of 2^6 to 2^12 bytes
      that are no longer than a block, and a frontier within the data region of a device no
      shorter than it was. */
  lemma MountableIff(u: Uberblock, deviceSize: nat)
    ensures Mountable(u, deviceSize)
       <==> && (exists j :: 9 <= j <= 20 && u.blockSize == Pow(2, j)) && (exists k :: 6 <= k <= 12 && u.allocUnit == Pow(2, k))
            && u.allocUnit <= u.blockSize && u.deviceSize <= deviceSize && 8192 <= u.frontier <= deviceSize
  {
    hide PowerOfTwo;
    SomePowers();
    PowersUpTo(u.blockSize, 20);
    PowersUpTo(u.allocUnit, 12);
    forall j: nat
      ensures PowerOfTwo(Pow(2, j))
      ensures j < 9 ==> Pow(2, j) < 512
      ensures 9 <= j <= 20 ==> 512 <= Pow(2, j) <= 0x10_0000
      ensures j < 6 ==> Pow(2, j) < 64
      ensures 6 <= j <= 12 ==> 64 <= Pow(2, j) <= 4096
    {
      PowIsPower(j);
      PowersOrdered(j);
    }
  }

  lemma SomePowers()
    ensures Pow(2, 5) == 32 && Pow(2, 6) == 64 && Pow(2, 8) == 256 && Pow(2, 9) == 512 && Pow(2, 12) == 4096 && Pow(2, 20) == 0x10_0000
  {
    assert Pow(2, 3) == 8 && Pow(2, 7) == 128 && Pow(2, 10) == 1024 && Pow(2, 14) == 16384 && Pow(2, 17) == 131072;
  }

  lemma PowersOrdered(j: nat)
    ensures j < 9 ==> Pow(2, j) < 512
    ensures 9 <= j <= 20 ==> 512 <= Pow(2, j) <= 0x10_0000
    ensures j < 6 ==> Pow(2, j) < 64
    ensures 6 <= j <= 12 ==> 64 <= Pow(2, j) <= 4096
  {
    SomePowers();
    if j < 9 { PowMonotone(2, j, 8); }
    if j < 6 { PowMonotone(2, j, 5); }
    if 9 <= j <= 20 { PowMonotone(2, 9, j); PowMonotone(2, j, 20); }
    if 6 <= j <= 12 { PowMonotone(2, 6, j); PowMonotone(2, j, 12); }
  }

  /** A mount elects a transaction that one of the two slots holds intact, and neither holds a
      newer one; it finds none exactly when neither holds any. */
  lemma ElectIff(p: Primitives, img: seq<byte>)
    requires |img| >= 8192
    ensures var a, b := Uberblock.ClassifySlot(p, img[..4096]), Uberblock.ClassifySlot(p, img[4096..8192]);
      match Elect(p, img)
      case None => !Intact(a) && !Intact(b)
      case Some(u) =>
        && (a == Ok(Valid(u)) || b == Ok(Valid(u)))
        && (Intact(a) ==> a.value.ub.txg <= u.txg) && (Intact(b) ==> b.value.ub.txg <= u.txg)
  {
    hide Uberblock.ClassifySlot;
    assert Slot(img, 0) == img[..4096] && Slot(img, 1) == img[4096..8192];
  }

  predicate Intact(state: Result<SlotState>) {
    state.Ok? && state.value.Valid?
  }
}
