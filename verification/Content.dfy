/**
  Byte contents of objects: splicing, cutting into blocks, and reading a range back block
  by block.
*/
module Content {
  import opened Bytes
  import opened Arith
  import opened Format
  import opened Space
  import opened BlockTree

  // ----- splicing -----

  /** `c` with `data` written at `offset`, growing it and zero-filling any gap. */
  function Splice(c: seq<byte>, offset: nat, data: seq<byte>): (r: seq<byte>)
    ensures |r| == Max(|c|, offset + |data|)
  {
    seq(Max(|c|, offset + |data|), i requires 0 <= i =>
      if offset <= i < offset + |data| then data[i - offset] else if i < |c| then c[i] else 0)
  }

  /** What a write leaves behind: nothing at all changes for empty data. */
  function Written(c: seq<byte>, offset: nat, data: seq<byte>): seq<byte> {
    if data == [] then c else Splice(c, offset, data)
  }

  /** The write touches the block of `len` bytes at `start`. */
  predicate Overlaps(start: nat, len: nat, offset: nat, dataLen: nat) {
    Max(start, offset) < Min(start + len, offset + dataLen)
  }

  /** The length of the block at `start` of a `total`-byte content. */
  function PieceLen(start: nat, size: nat, total: nat): nat {
    if start < total then Min(size, total - start) else 0
  }

  /** A block's bytes with the overlapping part of the data written over them. */
  function Overlay(base: seq<byte>, start: nat, offset: nat, data: seq<byte>): (r: seq<byte>)
    ensures |r| == |base|
  {
    var from, to := Max(start, offset), Min(start + |base|, offset + |data|);
    if from < to then Patch(base, from - start, data[from - offset..to - offset]) else base
  }

  /** The block at `start` after a write, as the source assembles it: the old block over
      zeros, then the overlapping part of the data over both. */
  function Assembled(was: seq<byte>, len: nat, start: nat, offset: nat, data: seq<byte>): (r: seq<byte>)
    requires |was| <= len
    ensures |r| == len
  {
    Overlay(Patch(Zeros(len), 0, was), start, offset, data)
  }

  lemma SplicedBlock(c: seq<byte>, offset: nat, data: seq<byte>, start: nat, size: nat)
    requires start < Max(|c|, offset + |data|)
    ensures var c2 := Splice(c, offset, data);
            var was := if start < |c| then BlockAt(c, start, size) else [];
            |was| == PieceLen(start, size, |c|) <= PieceLen(start, size, |c2|) == |BlockAt(c2, start, size)|
            && BlockAt(c2, start, size) == Assembled(was, PieceLen(start, size, |c2|), start, offset, data)
  {
    hide Assembled;
    var c2 := Splice(c, offset, data);
    var len := PieceLen(start, size, |c2|);
    var was := if start < |c| then BlockAt(c, start, size) else [];
    var block := BlockAt(c2, start, size);
    forall i | 0 <= i < len ensures block[i] == Assembled(was, len, start, offset, data)[i] {
      AssembledAt(was, len, start, offset, data, i);
      assert block[i] == c2[start + i];
    }
  }

  lemma AssembledAt(was: seq<byte>, len: nat, start: nat, offset: nat, data: seq<byte>, i: nat)
    requires |was| <= len && i < len
    ensures Assembled(was, len, start, offset, data)[i] ==
            if offset <= start + i < offset + |data| then data[start + i - offset]
            else if i < |was| then was[i] else 0
  {
    hide Patch;
  }

  /** A block that is neither overlapped nor resized keeps its bytes. */
  lemma UntouchedBlock(c: seq<byte>, offset: nat, data: seq<byte>, start: nat, size: nat)
    requires start < |c|
    requires var total := Max(|c|, offset + |data|);
             !Overlaps(start, PieceLen(start, size, total), offset, |data|)
             && PieceLen(start, size, total) == PieceLen(start, size, |c|)
    ensures BlockAt(Splice(c, offset, data), start, size) == BlockAt(c, start, size)
  {
    var c2 := Splice(c, offset, data);
    var end := Min(start + size, |c|);
    assert end == Min(start + size, |c2|);
    forall i | start <= i < end ensures c2[i] == c[i] {
      assert !(offset <= i < offset + |data|);
    }
    assert c2[start..end] == c[start..end];
  }

  lemma SliceOfSlice(c: seq<byte>, a: nat, b: nat, i: nat, j: nat)
    requires a <= b <= |c| && i <= j <= b - a
    ensures c[a..b][i..j] == c[a + i..a + j]
  {
    var l, r := c[a..b][i..j], c[a + i..a + j];
    assert |l| == |r|;
    assert forall k :: 0 <= k < |l| ==> l[k] == c[a..b][i + k] == c[a + i + k] == r[k];
  }

  lemma SliceJoin(c: seq<byte>, a: nat, m: nat, b: nat)
    requires a <= m <= b <= |c|
    ensures c[a..m] + c[m..b] == c[a..b]
  {
  }

  // ----- block indices -----

  /** Block `b` exists exactly when it starts before the end. */
  lemma BlockStarts(total: nat, size: nat, b: nat)
    requires size > 0
    ensures b < DivCeil(total, size) <==> b * size < total
  {
    var n := DivCeil(total, size);
    if b < n { MulLess(b, n - 1, size); } else { MulLess(n, b, size); }
  }

  lemma StartIs(g: Geometry, total: nat, b: nat)
    requires g.blockSize > 0
    ensures g.Start(b) == b * g.blockSize
    ensures b < DivCeil(total, g.blockSize) <==> g.Start(b) < total
  {
    BlockStarts(total, g.blockSize, b);
  }

  // ----- reading a range -----

  /** Every data block is full except the last, which ends the object. */
  ghost predicate FullLeaves(g: Geometry, leaves: seq<BlockPtr>, size: nat)
    requires g.Valid()
  {
    && |leaves| == DivCeil(size, g.blockSize)
    && forall b {:trigger leaves[b]} :: 0 <= b < |leaves| ==>
         leaves[b].lsize == PieceLen(g.Start(b), g.blockSize, size)
  }

  /** Where byte `at` lives: inside an existing block, at the offset computed. */
  lemma Locate(g: Geometry, at: nat, size: nat)
    requires g.Valid() && at < size
    ensures var b := g.IndexOf(at);
            && at == g.Start(b) + g.OffsetIn(at) && b < DivCeil(size, g.blockSize)
            && g.OffsetIn(at) < PieceLen(g.Start(b), g.blockSize, size) <= g.blockSize
  {
    var b, w := g.IndexOf(at), g.OffsetIn(at);
    Euclid(at, g.blockSize);
    StartIs(g, size, b);
    hide Geometry.Start, Geometry.IndexOf, Geometry.OffsetIn;
    assert at == g.Start(b) + w && w < g.blockSize;
  }

  /** Where byte `at` lies among `n` blocks that reach beyond it. */
  lemma LocateIn(g: Geometry, at: nat, n: nat)
    requires g.Valid() && at < g.Start(n)
    ensures var b := g.IndexOf(at);
            at == g.Start(b) + g.OffsetIn(at) && b < n && g.OffsetIn(at) < g.blockSize && g.Start(b + 1) == g.Start(b) + g.blockSize
  {
    var b := g.IndexOf(at);
    Euclid(at, g.blockSize);
    if b >= n { MulLess(n, b, g.blockSize); }
    assert (b + 1) * g.blockSize == b * g.blockSize + g.blockSize;
  }

  /** How a loop over blocks ends: with bytes or an error, in a panic, or never. */
  datatype Reading<T> = Finished(r: Result<T>) | Panics | Spins

  /** The bytes read so far before the rest. */
  function Prefixed(piece: seq<byte>, rest: Reading<seq<byte>>): Reading<seq<byte>> {
    if rest.Finished? && rest.r.Ok? then Finished(Ok(piece + rest.r.value)) else rest
  }

  /**
    The bytes from `at` to `end`, read block by block; the first bad block is the error. The
    length left in a block is a subtraction, so a block that ends before the offset wanted in
    it panics, and one that ends just there gives nothing for ever.
  */
  function RangeBytes(g: Geometry, img: seq<byte>, leaves: seq<BlockPtr>, at: nat, end: nat): (r: Reading<seq<byte>>)
    requires g.Valid() && at <= end <= g.Start(|leaves|)
    ensures r.Finished? && r.r.Ok? ==> |r.r.value| == end - at
    decreases end - at
  {
    hide Geometry.Start, Geometry.IndexOf, Geometry.OffsetIn, Geometry.ReadBlock;
    if at == end then Finished(Ok([]))
    else
      LocateIn(g, at, |leaves|);
      var b, within := g.IndexOf(at), g.OffsetIn(at);
      var logical := g.ReadBlock(img, leaves[b]);
      if logical.Err? then Finished(logical)
      else if within > |logical.value| then Panics
      else if within == |logical.value| then Spins
      else
        var take := Min(end - at, |logical.value| - within);
        Prefixed(logical.value[within..within + take], RangeBytes(g, img, leaves, at + take, end))
  }

  lemma RangeStep(g: Geometry, img: seq<byte>, leaves: seq<BlockPtr>, at: nat, end: nat)
    requires g.Valid() && at < end <= g.Start(|leaves|)
    ensures g.IndexOf(at) < |leaves|
    ensures var r, whole := g.ReadBlock(img, leaves[g.IndexOf(at)]), RangeBytes(g, img, leaves, at, end);
            if r.Err? then whole == Finished(r)
            else if g.OffsetIn(at) > |r.value| then whole == Panics
            else if g.OffsetIn(at) == |r.value| then whole == Spins
            else
              var take := Min(end - at, |r.value| - g.OffsetIn(at));
              whole == Prefixed(r.value[g.OffsetIn(at)..g.OffsetIn(at) + take], RangeBytes(g, img, leaves, at + take, end))
  {
    hide Geometry.Start, Geometry.IndexOf, Geometry.OffsetIn, Geometry.ReadBlock;
    LocateIn(g, at, |leaves|);
  }

  lemma RangeDone(g: Geometry, img: seq<byte>, leaves: seq<BlockPtr>, at: nat)
    requires g.Valid() && at <= g.Start(|leaves|)
    ensures RangeBytes(g, img, leaves, at, at) == Finished(Ok([]))
  {
  }

  /** The blocks from number `first` to `b` all pass their checks. */
  ghost predicate Readable(g: Geometry, img: seq<byte>, leaves: seq<BlockPtr>, first: nat, b: int)
    requires g.Valid() && b < |leaves|
  {
    forall j {:trigger leaves[j]} :: first <= j <= b ==> g.ReadBlock(img, leaves[j]).Ok?
  }

  /**
    Up to the first block that cannot be read, every data block of the range reaches either
    its full size or the end of the range. Block lengths are recorded in the pointers.
  */
  ghost predicate Reaches(g: Geometry, img: seq<byte>, leaves: seq<BlockPtr>, at: nat, end: nat)
    requires g.Valid()
  {
    forall b {:trigger leaves[b]} ::
      g.IndexOf(at) <= b < |leaves| && g.Start(b) < end && Readable(g, img, leaves, g.IndexOf(at), b) ==>
        leaves[b].lsize >= Min(g.blockSize, end - g.Start(b))
  }

  /** Reading a range comes to an end exactly when no block in it is short. */
  lemma {:induction false} RangeEndsIff(g: Geometry, img: seq<byte>, leaves: seq<BlockPtr>, at: nat, end: nat)
    requires g.Valid() && at < end <= g.Start(|leaves|)
    ensures RangeBytes(g, img, leaves, at, end).Finished? <==> Reaches(g, img, leaves, at, end)
    ensures RangeBytes(g, img, leaves, at, end).Panics? <==>
              g.IndexOf(at) < |leaves| && g.ReadBlock(img, leaves[g.IndexOf(at)]).Ok?
              && leaves[g.IndexOf(at)].lsize < g.OffsetIn(at)
    decreases end - at
  {
    hide Geometry.ReadBlock, Geometry.Start, Geometry.IndexOf, Geometry.OffsetIn, Readable, RangeBytes;
    LocateIn(g, at, |leaves|);
    RangeStep(g, img, leaves, at, end);
    var b, within := g.IndexOf(at), g.OffsetIn(at);
    var logical := g.ReadBlock(img, leaves[b]);
    OneReadable(g, img, leaves, b);
    if logical.Err? {
      forall j | b <= j < |leaves| && Readable(g, img, leaves, b, j) ensures false {
        Unreadable(g, img, leaves, b, j);
      }
    } else if within < |logical.value| {
      var next := at + Min(end - at, |logical.value| - within);
      NextPlace(g, leaves, at, |logical.value|);
      if next == end {
        RangeDone(g, img, leaves, end);
        forall j | b < j < |leaves| ensures g.Start(j) >= end {
          StartsGrow(g, b + 1, j);
        }
      } else {
        RangeEndsIff(g, img, leaves, next, end);
        if g.IndexOf(next) == b + 1 {
          ReachesOneLess(g, img, leaves, at, next, end);
        }
      }
    }
  }

  lemma OneReadable(g: Geometry, img: seq<byte>, leaves: seq<BlockPtr>, b: nat)
    requires g.Valid() && b < |leaves|
    ensures Readable(g, img, leaves, b, b) <==> g.ReadBlock(img, leaves[b]).Ok?
  {
    hide Geometry.ReadBlock;
  }

  lemma Unreadable(g: Geometry, img: seq<byte>, leaves: seq<BlockPtr>, b: nat, j: nat)
    requires g.Valid() && b <= j < |leaves| && g.ReadBlock(img, leaves[b]).Err?
    ensures !Readable(g, img, leaves, b, j)
  {
    hide Geometry.ReadBlock;
  }

  lemma StartsGrow(g: Geometry, a: nat, b: nat)
    requires g.Valid() && a <= b
    ensures g.Start(a) <= g.Start(b)
  {
    MulLess(a, b, g.blockSize);
  }

  /** After a block of `len` bytes the next place is in the next block, if the block was full. */
  lemma NextPlace(g: Geometry, leaves: seq<BlockPtr>, at: nat, len: nat)
    requires g.Valid() && g.OffsetIn(at) < len <= g.blockSize
    ensures var next := g.Start(g.IndexOf(at)) + len;
            if len == g.blockSize then g.IndexOf(next) == g.IndexOf(at) + 1 && g.OffsetIn(next) == 0
            else g.IndexOf(next) == g.IndexOf(at) && g.OffsetIn(next) == len
  {
    var b := g.IndexOf(at);
    if len == g.blockSize {
      assert (b + 1) * g.blockSize == b * g.blockSize + g.blockSize;
      DivIs(g.Start(b) + len, g.blockSize, b + 1, 0);
    } else {
      DivIs(g.Start(b) + len, g.blockSize, b, len);
    }
  }

  /** Past a full block the condition is that of the blocks after it. */
  lemma ReachesOneLess(g: Geometry, img: seq<byte>, leaves: seq<BlockPtr>, at: nat, next: nat, end: nat)
    requires g.Valid() && g.IndexOf(at) < |leaves| && g.IndexOf(next) == g.IndexOf(at) + 1
    requires g.ReadBlock(img, leaves[g.IndexOf(at)]).Ok? && leaves[g.IndexOf(at)].lsize == g.blockSize
    ensures Reaches(g, img, leaves, at, end) <==> Reaches(g, img, leaves, next, end)
  {
    hide Geometry.ReadBlock, Geometry.Start, Geometry.IndexOf;
    var b := g.IndexOf(at);
    forall j | b < j < |leaves|
      ensures Readable(g, img, leaves, b, j) <==> Readable(g, img, leaves, b + 1, j)
    {
    }
  }

  /** The data blocks of a written object never stop a read. */
  lemma FullLeavesReach(g: Geometry, img: seq<byte>, leaves: seq<BlockPtr>, size: nat, at: nat, end: nat)
    requires g.Valid() && FullLeaves(g, leaves, size) && at <= end <= size
    ensures end <= g.Start(|leaves|) && Reaches(g, img, leaves, at, end)
  {
    hide Readable, Geometry.IndexOf;
  }

  /** Nothing else the reader checks keeps short blocks out: an image and an accepted object
      on which one range reads for ever and another panics. */
  lemma ShortBlockStops(g: Geometry) returns (img: seq<byte>, obj: ObjRef)
    requires g.Valid() && g.MaxLeaves() >= 1
    ensures |img| == g.deviceSize && obj.size == 3 && g.Collects(img, obj)
    ensures |g.Leaves(img, obj)| == 1 && g.Start(1) >= 3
    ensures RangeBytes(g, img, g.Leaves(img, obj), 0, 3) == Spins
    ensures RangeBytes(g, img, g.Leaves(img, obj), 2, 3) == Panics
  {
    img := Zeros(g.deviceSize);
    var leaf := BlockPtr(DATA_START, 1, 1, Raw, g.prims.blake3([0]));
    obj := ObjRef(3, 0, leaf);
    UnitFits(g);
    assert img[DATA_START..DATA_START + 1] == [0];
    assert g.ReadBlock(img, leaf) == Ok([0]);
    DivCeilIs(3, g.blockSize, 1);
    assert g.Leaves(img, obj) == [leaf];
    FirstBlock(g, 0);
    FirstBlock(g, 1);
    FirstBlock(g, 2);
    hide RangeBytes, Geometry.Start, Geometry.IndexOf, Geometry.OffsetIn, Geometry.ReadBlock;
    RangeStep(g, img, [leaf], 0, 3);
    RangeStep(g, img, [leaf], 1, 3);
    RangeStep(g, img, [leaf], 2, 3);
  }

  lemma FirstBlock(g: Geometry, at: nat)
    requires g.Valid() && at < 3
    ensures g.IndexOf(at) == 0 && g.OffsetIn(at) == at && g.Start(1) == g.blockSize
  {
    DivIs(at, g.blockSize, 0, at);
  }

  lemma UnitFits(g: Geometry)
    requires g.Valid() && g.MaxLeaves() >= 1
    ensures DATA_START + 1 <= g.deviceSize && DATA_START % g.allocUnit == 0
  {
    Euclid(g.deviceSize - DATA_START, g.allocUnit);
  }

  lemma HeldLeavesAreFull(g: Geometry, img: seq<byte>, leaves: seq<BlockPtr>, c: seq<byte>)
    requires g.Valid() && g.LeavesHold(img, leaves, c)
    ensures FullLeaves(g, leaves, |c|)
  {
    hide Geometry.ReadBlock;
    forall b | 0 <= b < |leaves| ensures leaves[b].lsize == PieceLen(g.Start(b), g.blockSize, |c|) {
      assert g.LeafHolds(img, leaves[b], c, b);
      BlockStarts(|c|, g.blockSize, b);
    }
  }

  /** On an image that holds the object, the range is exactly that slice of its content. */
  lemma {:induction false} RangeIsSlice(g: Geometry, img: seq<byte>, leaves: seq<BlockPtr>, c: seq<byte>, at: nat, end: nat)
    requires g.Valid() && g.LeavesHold(img, leaves, c) && FullLeaves(g, leaves, |c|) && at <= end <= |c|
    ensures end <= g.Start(|leaves|) && RangeBytes(g, img, leaves, at, end) == Finished(Ok(c[at..end]))
    decreases end - at
  {
    hide Geometry.ReadBlock, Geometry.Start, Geometry.IndexOf, Geometry.OffsetIn, Reaches, RangeBytes;
    FullLeavesReach(g, img, leaves, |c|, at, end);
    if at < end {
      Locate(g, at, |c|);
      RangeStep(g, img, leaves, at, end);
      var b, within := g.IndexOf(at), g.OffsetIn(at);
      assert g.LeafHolds(img, leaves[b], c, b);
      var logical := g.BlockOf(c, b);
      var take := Min(end - at, |logical| - within);
      RangeIsSlice(g, img, leaves, c, at + take, end);
      assert logical[within..within + take] == c[at..at + take] by {
        SliceOfSlice(c, g.Start(b), Min(g.Start(b) + g.blockSize, |c|), within, within + take);
      }
      SliceJoin(c, at, at + take, end);
    } else {
      RangeDone(g, img, leaves, at);
      assert c[at..end] == [];
    }
  }

  /** An image holds at most one content under a reference. */
  lemma HoldsOne(g: Geometry, img: seq<byte>, obj: ObjRef, a: seq<byte>, b: seq<byte>)
    requires g.Valid() && g.Holds(img, obj, a) && g.Holds(img, obj, b)
    ensures a == b
  {
    hide Geometry.ReadBlock, Geometry.Flatten, RangeBytes, Geometry.Start;
    var leaves := g.Leaves(img, obj);
    HeldLeavesAreFull(g, img, leaves, a);
    HeldLeavesAreFull(g, img, leaves, b);
    RangeIsSlice(g, img, leaves, a, 0, |a|);
    RangeIsSlice(g, img, leaves, b, 0, |b|);
    assert a[0..|a|] == a && b[0..|b|] == b;
  }

  // ----- whole objects -----

  /** An object's data blocks cover its size. */
  lemma LeavesReachEnd(g: Geometry, img: seq<byte>, obj: ObjRef)
    requires g.Valid() && g.Collects(img, obj)
    ensures obj.size <= g.Start(|g.Leaves(img, obj)|)
  {
    hide Geometry.Flatten;
  }

  /** A metadata object read whole: refused when impossibly large, else checked and read. */
  function ReadWhole(g: Geometry, img: seq<byte>, obj: ObjRef): Reading<seq<byte>>
    requires g.Valid()
  {
    hide Geometry.CheckObject, Geometry.Flatten, RangeBytes;
    if obj.size > MAX_META_OBJECT_SIZE then Finished(Err(Corrupt(MetadataTooLarge)))
    else if g.CheckObject(obj).Err? then Finished(Err(g.CheckObject(obj).error))
    else if obj.size == 0 then Finished(Ok([]))
    else
      var leaves := g.CollectedLeaves(img, obj);
      if leaves.Err? then Finished(Err(leaves.error))
      else
        CollectsIff(g, img, obj);
        LeavesReachEnd(g, img, obj);
        RangeBytes(g, img, leaves.value, 0, obj.size)
  }

  /** An object that holds a content reads whole as that content, unless it is too large. */
  lemma HeldReadsWhole(g: Geometry, img: seq<byte>, obj: ObjRef, c: seq<byte>)
    requires g.Valid() && g.Holds(img, obj, c)
    ensures ReadWhole(g, img, obj)
         == if |c| > 0x100_0000 then Finished(Err(Corrupt(MetadataTooLarge))) else Finished(Ok(c))
  {
    hide Geometry.CheckObject, Geometry.Flatten, RangeBytes, Geometry.LeavesHold, Geometry.Leaves, Geometry.CollectedLeaves;
    CollectsIff(g, img, obj);
    assert g.CheckObject(obj).Ok?;
    var leaves := g.Leaves(img, obj);
    HeldLeavesAreFull(g, img, leaves, c);
    RangeIsSlice(g, img, leaves, c, 0, |c|);
    assert c[0..|c|] == c;
  }

  /** How many bytes a read of `len` bytes at `offset` yields. */
  function Wanted(size: nat, offset: nat, len: nat): nat {
    if offset >= size then 0 else Min(len, size - offset)
  }

  /** `whole` is `done` followed by `rest`, or the end that `rest` comes to. */
  ghost predicate RangeFrom(whole: Reading<seq<byte>>, done: seq<byte>, rest: Reading<seq<byte>>) {
    whole == Prefixed(done, rest)
  }

  lemma NothingReadYet(whole: Reading<seq<byte>>)
    ensures RangeFrom(whole, [], whole)
  {
    if whole.Finished? && whole.r.Ok? {
      assert [] + whole.r.value == whole.r.value;
    }
  }

  lemma AllRead(whole: Reading<seq<byte>>, done: seq<byte>, rest: Reading<seq<byte>>)
    requires RangeFrom(whole, done, rest) && (rest == Finished(Ok([])) || !rest.Finished? || rest.r.Err?)
    ensures whole == if rest == Finished(Ok([])) then Finished(Ok(done)) else rest
  {
    assert done + [] == done;
  }

  lemma RangeFromStep(whole: Reading<seq<byte>>, done: seq<byte>, piece: seq<byte>, rest: Reading<seq<byte>>)
    requires RangeFrom(whole, done, Prefixed(piece, rest))
    ensures RangeFrom(whole, done + piece, rest)
  {
    if rest.Finished? && rest.r.Ok? {
      assert done + (piece + rest.r.value) == (done + piece) + rest.r.value;
    }
  }

  // ----- one block of a write -----

  /** The write neither overlaps block `b` nor changes its length. */
  predicate Untouched(g: Geometry, size: nat, offset: nat, dataLen: nat, b: nat) {
    var start, total := g.Start(b), Max(size, offset + dataLen);
    && start < size && !Overlaps(start, PieceLen(start, g.blockSize, total), offset, dataLen)
    && PieceLen(start, g.blockSize, total) == PieceLen(start, g.blockSize, size)
  }

  /** Before the write, block `b` (when there is one) holds its part of `c`. */
  ghost predicate LeafBefore(g: Geometry, img: seq<byte>, oldLeaves: seq<BlockPtr>, size: nat, b: nat, c: seq<byte>)
    requires g.Valid()
  {
    |c| == size && (b < |oldLeaves| ==> g.LeafHolds(img, oldLeaves[b], c, b))
  }

  /** What block `b` holds before the write; nothing beyond the end. */
  function BlockBefore(g: Geometry, c: seq<byte>, b: nat): seq<byte> {
    if g.Start(b) < |c| then g.BlockOf(c, b) else []
  }

  /** The block the write must produce, from what is there before it. */
  lemma SplicedLeaf(g: Geometry, img: seq<byte>, oldLeaves: seq<BlockPtr>, offset: nat, data: seq<byte>, b: nat, c: seq<byte>)
    requires g.Valid() && |oldLeaves| == DivCeil(|c|, g.blockSize)
    requires LeafBefore(g, img, oldLeaves, |c|, b, c) && g.Start(b) < Max(|c|, offset + |data|)
    ensures var c2, start := Splice(c, offset, data), g.Start(b);
            && (b < |oldLeaves| <==> start < |c|)
            && (b < |oldLeaves| ==> g.ReadBlock(img, oldLeaves[b]) == Ok(BlockBefore(g, c, b)))
            && |BlockBefore(g, c, b)| == PieceLen(start, g.blockSize, |c|)
            && PieceLen(start, g.blockSize, |c|) <= PieceLen(start, g.blockSize, |c2|)
            && g.BlockOf(c2, b) == Assembled(BlockBefore(g, c, b), PieceLen(start, g.blockSize, |c2|), start, offset, data)
            && (Untouched(g, |c|, offset, |data|, b) ==> g.BlockOf(c2, b) == g.BlockOf(c, b))
  {
    hide Geometry.ReadBlock, Assembled, Splice, Overlaps;
    BlockStarts(|c|, g.blockSize, b);
    SplicedBlock(c, offset, data, g.Start(b), g.blockSize);
    if Untouched(g, |c|, offset, |data|, b) {
      UntouchedBlock(c, offset, data, g.Start(b), g.blockSize);
    }
  }

  // ----- a whole write -----

  /** Block `b` of the new content: held, out of reach, and either the old pointer or taken
      from what was available when the write began. */
  ghost predicate NewLeaf(g: Geometry, img: seq<byte>, s: Space, s0: Space, oldLeaves: seq<BlockPtr>,
                          leaf: BlockPtr, b: nat, c: seq<byte>, offset: nat, data: seq<byte>)
    requires g.Valid()
  {
    && g.LeafHolds(img, leaf, Splice(c, offset, data), b) && g.Retained(s, leaf)
    && if Untouched(g, |c|, offset, |data|, b) then b < |oldLeaves| && leaf == oldLeaves[b] else s0.Available(leaf.addr)
  }

  ghost predicate Rewritten(g: Geometry, img: seq<byte>, s: Space, s0: Space, oldLeaves: seq<BlockPtr>,
                            leaves: seq<BlockPtr>, c: seq<byte>, offset: nat, data: seq<byte>)
    requires g.Valid()
  {
    && g.DistinctAddrs(leaves)
    && forall b {:trigger leaves[b]} :: 0 <= b < |leaves| ==>
         NewLeaf(g, img, s, s0, oldLeaves, leaves[b], b, c, offset, data)
  }

  lemma RewrittenFrame(g: Geometry, img: seq<byte>, s: Space, img': seq<byte>, s': Space, s0: Space,
                       oldLeaves: seq<BlockPtr>, leaves: seq<BlockPtr>, c: seq<byte>, offset: nat, data: seq<byte>)
    requires g.Valid() && Evolves(img, s, img', s')
    requires Rewritten(g, img, s, s0, oldLeaves, leaves, c, offset, data)
    ensures Rewritten(g, img', s', s0, oldLeaves, leaves, c, offset, data)
  {
    hide Geometry.ReadBlock, Geometry.BlockOf, Geometry.Start, Untouched, Splice, Evolves, Geometry.Retained, Geometry.DistinctAddrs;
    forall b | 0 <= b < |leaves| ensures NewLeaf(g, img', s', s0, oldLeaves, leaves[b], b, c, offset, data) {
      assert NewLeaf(g, img, s, s0, oldLeaves, leaves[b], b, c, offset, data);
      ReadBlockFrame(g, img, s, img', s', leaves[b]);
    }
  }

  /** The old leaves were retained and distinct when the write began. */
  ghost predicate OldLeavesKept(g: Geometry, s0: Space, oldLeaves: seq<BlockPtr>) {
    g.AllRetained(s0, oldLeaves) && g.DistinctAddrs(oldLeaves)
  }

  lemma RetainedStarts(g: Geometry, s: Space, ptr: BlockPtr)
    requires g.Retained(s, ptr)
    ensures !s.Available(ptr.addr)
  {
    assert Within(ptr.addr, ptr.addr, g.Padded(ptr));
  }

  /** Adding one more block, old or fresh, keeps the addresses distinct. */
  lemma RewrittenStep(g: Geometry, img: seq<byte>, s: Space, img': seq<byte>, s': Space, s0: Space,
                      oldLeaves: seq<BlockPtr>, leaves: seq<BlockPtr>, leaf: BlockPtr,
                      c: seq<byte>, offset: nat, data: seq<byte>)
    requires g.Valid() && Evolves(img, s, img', s') && OldLeavesKept(g, s0, oldLeaves)
    requires forall x :: s.Available(x) ==> s0.Available(x)
    requires Rewritten(g, img, s, s0, oldLeaves, leaves, c, offset, data)
    requires g.LeafHolds(img', leaf, Splice(c, offset, data), |leaves|)
    requires if Untouched(g, |c|, offset, |data|, |leaves|)
             then |leaves| < |oldLeaves| && leaf == oldLeaves[|leaves|] && s' == s
             else s.Available(leaf.addr) && g.Retained(s', leaf)
    ensures Rewritten(g, img', s', s0, oldLeaves, leaves + [leaf], c, offset, data)
  {
    hide Geometry.ReadBlock, Geometry.BlockOf, Geometry.Start, Untouched, Splice, Evolves, Geometry.Retained, Space.Available;
    RewrittenFrame(g, img, s, img', s', s0, oldLeaves, leaves, c, offset, data);
    var n := |leaves|;
    var more := leaves + [leaf];
    if Untouched(g, |c|, offset, |data|, n) {
      RetainedStarts(g, s0, oldLeaves[n]);
      KeepsRetained(g, s0, s, leaf, img);
    }
    forall i | 0 <= i < n ensures leaves[i].addr != leaf.addr {
      assert NewLeaf(g, img, s, s0, oldLeaves, leaves[i], i, c, offset, data);
      RetainedStarts(g, s, leaves[i]);
    }
    forall b | 0 <= b < |more| ensures NewLeaf(g, img', s', s0, oldLeaves, more[b], b, c, offset, data) {
      if b < n { assert more[b] == leaves[b]; }
    }
  }

  lemma KeepsRetained(g: Geometry, s0: Space, s: Space, ptr: BlockPtr, img: seq<byte>)
    requires g.Retained(s0, ptr) && forall x :: s.Available(x) ==> s0.Available(x)
    ensures g.Retained(s, ptr)
  {
  }

  /** The result of a range write: the new object holds the spliced content, all of its blocks
      are out of reach, and its blocks are the old ones except where the write changed them. */
  ghost predicate Spliced(g: Geometry, s0: Space, oldLeaves: seq<BlockPtr>, c: seq<byte>, offset: nat, data: seq<byte>,
                          img: seq<byte>, s: Space, obj: ObjRef)
    requires g.Valid()
  {
    && g.Holds(img, obj, Splice(c, offset, data)) && g.Kept(s, img, obj)
    && forall b {:trigger g.Leaves(img, obj)[b]} :: 0 <= b < |g.Leaves(img, obj)| ==>
         if Untouched(g, |c|, offset, |data|, b) then b < |oldLeaves| && g.Leaves(img, obj)[b] == oldLeaves[b]
         else s0.Available(g.Leaves(img, obj)[b].addr)
  }

  lemma FinishWrite(g: Geometry, img: seq<byte>, s: Space, img': seq<byte>, s': Space, s0: Space,
                    oldLeaves: seq<BlockPtr>, leaves: seq<BlockPtr>, c: seq<byte>, offset: nat, data: seq<byte>, obj: ObjRef)
    requires g.Valid() && data != [] && Evolves(img, s, img', s')
    requires Rewritten(g, img, s, s0, oldLeaves, leaves, c, offset, data)
    requires |leaves| == DivCeil(obj.size, g.blockSize) && obj.size == Max(|c|, offset + |data|)
    requires obj.level == g.Level(|leaves|) && g.Heads(s', img', [obj.root], obj.level, leaves)
    ensures Spliced(g, s0, oldLeaves, c, offset, data, img', s', obj)
  {
    hide Geometry.ReadBlock, Geometry.BlockOf, Geometry.Start, Untouched, Splice, Evolves, Geometry.Retained,
      Geometry.Flatten, Geometry.FlattenAll, Geometry.DistinctAddrs, Geometry.Level;
    var c2 := Splice(c, offset, data);
    RewrittenFrame(g, img, s, img', s', s0, oldLeaves, leaves, c, offset, data);
    SingleHead(g, s', img', obj.root, obj.level, leaves);
    BlockStarts(obj.size, g.blockSize, 0);
    forall b | 0 <= b < |leaves|
      ensures g.LeafHolds(img', leaves[b], c2, b) && g.Retained(s', leaves[b])
              && g.Placed(leaves[b]) && !leaves[b].IsNull() {
      assert NewLeaf(g, img', s', s0, oldLeaves, leaves[b], b, c, offset, data);
      RetainedMeans(g, s', leaves[b]);
    }
    LeavesFit(g, leaves);
    RootNotNull(g, img', obj.root, obj.level);
    assert leaves[0] == leaves[..1][0] && !obj.root.IsNull();
    assert g.CheckObject(obj) == Ok(|leaves|);
  }

  lemma RetainedMeans(g: Geometry, s: Space, ptr: BlockPtr)
    requires g.Retained(s, ptr)
    ensures g.Placed(ptr) && !ptr.IsNull()
  {
  }

  // ----- Merkle authenticity -----

  /** No two different blocks of the set share a digest. */
  ghost predicate NoCollision(g: Geometry, blocks: set<seq<byte>>) {
    forall x, y {:trigger g.prims.blake3(x), g.prims.blake3(y)} ::
      x in blocks && y in blocks && g.prims.blake3(x) == g.prims.blake3(y) ==> x == y
  }

  /** The logical blocks that reading through `ptrs` yields. */
  ghost function BlocksRead(g: Geometry, img: seq<byte>, ptrs: seq<BlockPtr>): set<seq<byte>>
    requires g.allocUnit > 0
  {
    set i | 0 <= i < |ptrs| && g.ReadBlock(img, ptrs[i]).Ok? :: g.ReadBlock(img, ptrs[i]).value
  }

  lemma BlocksReadConcat(g: Geometry, img: seq<byte>, a: seq<BlockPtr>, b: seq<BlockPtr>)
    requires g.allocUnit > 0
    ensures BlocksRead(g, img, a + b) == BlocksRead(g, img, a) + BlocksRead(g, img, b)
  {
    hide Geometry.ReadBlock;
    var c := a + b;
    forall x | x in BlocksRead(g, img, a) + BlocksRead(g, img, b) ensures x in BlocksRead(g, img, c) {
      if x in BlocksRead(g, img, a) {
        var i :| 0 <= i < |a| && g.ReadBlock(img, a[i]).Ok? && x == g.ReadBlock(img, a[i]).value;
        assert c[i] == a[i];
      } else {
        var i :| 0 <= i < |b| && g.ReadBlock(img, b[i]).Ok? && x == g.ReadBlock(img, b[i]).value;
        assert c[|a| + i] == b[i];
      }
    }
  }

  /** Through the same pointer, two images that both pass the checks give the same block. */
  lemma SameBlock(g: Geometry, a: seq<byte>, b: seq<byte>, ptr: BlockPtr, blocks: set<seq<byte>>)
    requires g.allocUnit > 0 && g.ReadBlock(a, ptr).Ok? && g.ReadBlock(b, ptr).Ok?
    requires NoCollision(g, blocks) && g.ReadBlock(a, ptr).value in blocks && g.ReadBlock(b, ptr).value in blocks
    ensures g.ReadBlock(a, ptr) == g.ReadBlock(b, ptr)
  {
    hide Geometry.CheckPtr, Geometry.Decode;
  }

  /** Two images on which the same pointer flattens flatten it to the same tree. */
  lemma {:induction false} SameTree(g: Geometry, a: seq<byte>, b: seq<byte>, ptr: BlockPtr, level: nat, blocks: set<seq<byte>>)
    requires g.allocUnit > 0 && NoCollision(g, blocks)
    requires g.Flatten(a, ptr, level).Ok? && g.Flatten(b, ptr, level).Ok?
    requires BlocksRead(g, a, g.Flatten(a, ptr, level).value.indirect) <= blocks
    requires BlocksRead(g, b, g.Flatten(b, ptr, level).value.indirect) <= blocks
    ensures g.Flatten(a, ptr, level) == g.Flatten(b, ptr, level)
    decreases level, 0
  {
    hide Geometry.ReadBlock, NoCollision, BlocksRead;
    if level > 0 {
      var block := g.ReadBlock(a, ptr).value;
      var fa := g.FlattenPacked(a, block, level - 1).value;
      var fb := g.FlattenPacked(b, g.ReadBlock(b, ptr).value, level - 1).value;
      BlocksReadConcat(g, a, [ptr], fa.indirect);
      BlocksReadConcat(g, b, [ptr], fb.indirect);
      OneBlockRead(g, a, ptr);
      OneBlockRead(g, b, ptr);
      SameBlock(g, a, b, ptr, blocks);
      SameRow(g, a, b, block, level - 1, blocks);
    }
  }

  lemma OneBlockRead(g: Geometry, img: seq<byte>, ptr: BlockPtr)
    requires g.allocUnit > 0 && g.ReadBlock(img, ptr).Ok?
    ensures g.ReadBlock(img, ptr).value in BlocksRead(g, img, [ptr])
  {
    hide Geometry.ReadBlock;
    assert [ptr][0] == ptr;
  }

  lemma {:induction false} SameRow(g: Geometry, a: seq<byte>, b: seq<byte>, block: seq<byte>, level: nat, blocks: set<seq<byte>>)
    requires g.allocUnit > 0 && NoCollision(g, blocks) && |block| % BLOCK_PTR_SIZE == 0
    requires g.FlattenPacked(a, block, level).Ok? && g.FlattenPacked(b, block, level).Ok?
    requires BlocksRead(g, a, g.FlattenPacked(a, block, level).value.indirect) <= blocks
    requires BlocksRead(g, b, g.FlattenPacked(b, block, level).value.indirect) <= blocks
    ensures g.FlattenPacked(a, block, level) == g.FlattenPacked(b, block, level)
    decreases level, |block|
  {
    hide Geometry.ReadBlock, Geometry.Flatten, NoCollision, BlocksRead;
    if block != [] {
      var child := BlockPtr.ReadFrom(block[..BLOCK_PTR_SIZE]).value;
      var rest := block[BLOCK_PTR_SIZE..];
      BlocksReadConcat(g, a, g.Flatten(a, child, level).value.indirect, g.FlattenPacked(a, rest, level).value.indirect);
      BlocksReadConcat(g, b, g.Flatten(b, child, level).value.indirect, g.FlattenPacked(b, rest, level).value.indirect);
      SameTree(g, a, b, child, level, blocks);
      SameRow(g, a, b, rest, level, blocks);
    }
  }

  /** If the same range reads on both images, it reads the same bytes. */
  lemma {:induction false} SameRange(g: Geometry, a: seq<byte>, b: seq<byte>, leaves: seq<BlockPtr>,
                                     at: nat, end: nat, blocks: set<seq<byte>>)
    requires g.Valid() && at <= end <= g.Start(|leaves|) && NoCollision(g, blocks)
    requires BytesRead(RangeBytes(g, a, leaves, at, end)) && BytesRead(RangeBytes(g, b, leaves, at, end))
    requires BlocksRead(g, a, leaves) <= blocks && BlocksRead(g, b, leaves) <= blocks
    ensures RangeBytes(g, a, leaves, at, end) == RangeBytes(g, b, leaves, at, end)
    decreases end - at
  {
    hide Geometry.ReadBlock, NoCollision, Geometry.Start, Geometry.IndexOf, Geometry.OffsetIn, RangeBytes;
    if at < end {
      RangeStep(g, a, leaves, at, end);
      RangeStep(g, b, leaves, at, end);
      var i, within := g.IndexOf(at), g.OffsetIn(at);
      SameBlock(g, a, b, leaves[i], blocks);
      var logical := g.ReadBlock(a, leaves[i]).value;
      SameRange(g, a, b, leaves, at + Min(end - at, |logical| - within), end, blocks);
    } else {
      RangeDone(g, a, leaves, at);
      RangeDone(g, b, leaves, at);
    }
  }

  ghost predicate BytesRead(r: Reading<seq<byte>>) {
    r.Finished? && r.r.Ok?
  }

  /** Authenticity: take an object held by one image and any other image at all, under the
      hypothesis that no two of the blocks read share a digest. If collecting the object's
      leaves succeeds on the other image, it gives the same leaves, and reading a range comes
      to an end with an error or the bytes of the original content; corruption can only
      surface as an error. */
  lemma Authentic(g: Geometry, a: seq<byte>, b: seq<byte>, obj: ObjRef, c: seq<byte>, at: nat, end: nat, blocks: set<seq<byte>>)
    requires g.Valid() && g.Holds(a, obj, c) && NoCollision(g, blocks)
    requires g.Collects(b, obj) && at <= end <= |c|
    requires c != [] ==> BlocksRead(g, a, g.Flatten(a, obj.root, obj.level).value.indirect) <= blocks
                         && BlocksRead(g, b, g.Flatten(b, obj.root, obj.level).value.indirect) <= blocks
    requires BlocksRead(g, a, g.Leaves(a, obj)) <= blocks && BlocksRead(g, b, g.Leaves(b, obj)) <= blocks
    ensures g.Leaves(b, obj) == g.Leaves(a, obj) && end <= g.Start(|g.Leaves(b, obj)|)
    ensures var r := RangeBytes(g, b, g.Leaves(b, obj), at, end); r.Finished? && (r.r.Err? || r.r.value == c[at..end])
  {
    hide Geometry.ReadBlock, Geometry.Flatten, BlocksRead, NoCollision, RangeBytes, Reaches;
    if c != [] {
      BlockStarts(|c|, g.blockSize, 0);
      SameTree(g, a, b, obj.root, obj.level, blocks);
    }
    var leaves := g.Leaves(a, obj);
    HeldLeavesAreFull(g, a, leaves, c);
    RangeIsSlice(g, a, leaves, c, at, end);
    FullLeavesReach(g, b, leaves, |c|, at, end);
    if at < end { RangeEndsIff(g, b, leaves, at, end); } else { RangeDone(g, b, leaves, at); }
    if BytesRead(RangeBytes(g, b, leaves, at, end)) {
      SameRange(g, a, b, leaves, at, end, blocks);
    }
  }
}
