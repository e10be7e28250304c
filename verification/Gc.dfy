/**
  Garbage collection: marking what retained objects reach, and handing every unmarked byte
  below the frontier back to the allocator.
*/
module Gc {
  import opened Bytes
  import opened Arith
  import opened Format
  import opened Space
  import opened BlockTree

  // ----- marking -----

  ghost predicate HasMark(g: Geometry, p: BlockPtr, marks: seq<Extent>)
    requires g.Valid()
  {
    exists i :: 0 <= i < |marks| && MarkFor(g, p, marks[i])
  }

  predicate MarkFor(g: Geometry, p: BlockPtr, e: Extent)
    requires g.allocUnit > 0
  {
    e.addr == p.addr && e.len == g.Padded(p)
  }

  /** The marks are those of the tree's blocks, data and indirect, and no others. */
  ghost predicate MarksOf(g: Geometry, f: Flat, marks: seq<Extent>)
    requires g.Valid()
  {
    && (forall p {:trigger HasMark(g, p, marks)} :: p in f.leaves || p in f.indirect ==> HasMark(g, p, marks))
    && (forall i {:trigger marks[i]} :: 0 <= i < |marks| ==> IsMarkIn(g, f, marks[i]))
  }

  ghost predicate IsMarkIn(g: Geometry, f: Flat, e: Extent)
    requires g.Valid()
  {
    exists p :: (p in f.leaves || p in f.indirect) && MarkFor(g, p, e)
  }

  lemma PaddedBound(g: Geometry, p: BlockPtr)
    requires g.allocUnit > 0
    ensures g.Padded(p) < p.psize + g.allocUnit
  {
    var q := DivCeil(p.psize, g.allocUnit);
    assert q * g.allocUnit == (q - 1) * g.allocUnit + g.allocUnit;
  }

  lemma HasMarkJoin(g: Geometry, p: BlockPtr, a: seq<Extent>, b: seq<Extent>)
    requires g.Valid()
    ensures HasMark(g, p, a + b) <==> HasMark(g, p, a) || HasMark(g, p, b)
  {
    if HasMark(g, p, a) {
      var i :| 0 <= i < |a| && MarkFor(g, p, a[i]);
      assert (a + b)[i] == a[i];
    }
    if HasMark(g, p, b) {
      var i :| 0 <= i < |b| && MarkFor(g, p, b[i]);
      assert (a + b)[|a| + i] == b[i];
    }
  }

  lemma MarksJoin(g: Geometry, f: Flat, h: Flat, a: seq<Extent>, b: seq<Extent>)
    requires g.Valid() && MarksOf(g, f, a) && MarksOf(g, h, b)
    ensures MarksOf(g, Flat(f.leaves + h.leaves, f.indirect + h.indirect), a + b)
  {
    hide MarkFor, HasMark, IsMarkIn;
    var flat, marks := Flat(f.leaves + h.leaves, f.indirect + h.indirect), a + b;
    forall p | p in flat.leaves || p in flat.indirect
      ensures HasMark(g, p, marks)
    {
      HasMarkJoin(g, p, a, b);
      assert HasMark(g, p, a) || HasMark(g, p, b);
    }
    forall i | 0 <= i < |marks|
      ensures IsMarkIn(g, flat, marks[i])
    {
      if i < |a| {
        assert marks[i] == a[i];
        MarkInJoin(g, f, h, a[i]);
      } else {
        var j := i - |a|;
        assert marks[i] == b[j];
        MarkInJoin(g, f, h, b[j]);
      }
    }
  }

  lemma MarkInJoin(g: Geometry, f: Flat, h: Flat, e: Extent)
    requires g.Valid() && (IsMarkIn(g, f, e) || IsMarkIn(g, h, e))
    ensures IsMarkIn(g, Flat(f.leaves + h.leaves, f.indirect + h.indirect), e)
  {
    hide MarkFor;
  }

  lemma MarkOne(g: Geometry, p: BlockPtr, e: Extent)
    requires g.Valid() && MarkFor(g, p, e)
    ensures MarksOf(g, Flat([p], []), [e]) && MarksOf(g, Flat([], [p]), [e])
  {
    assert [e][0] == e && p in [p];
  }

  lemma ThenOk(done: Flat, later: Result<Flat>)
    ensures Then(Ok(done), later).Ok? <==> later.Ok?
    ensures later.Ok? ==>
      Then(Ok(done), later).value == Flat(done.leaves + later.value.leaves, done.indirect + later.value.indirect)
    ensures later.Err? ==> Then(Ok(done), later) == later
  {
  }

  /** Marks the tree under `ptr`; stops at the first fault or at one data block too many. */
  method MarkPtr(g: Geometry, img: seq<byte>, ptr: BlockPtr, level: nat, leafCount: nat, seen0: nat)
    returns (r: Result<()>, seen: nat, marks: seq<Extent>)
    requires g.Valid() && seen0 <= leafCount
    ensures r == Bounded(g.Flatten(img, ptr, level), g.Seen(img, ptr, level), leafCount - seen0)
    ensures r.Ok? ==> seen == seen0 + g.Seen(img, ptr, level) && MarksOf(g, g.Flatten(img, ptr, level).value, marks)
    decreases level, 1
  {
    hide Geometry.ReadBlock, MarksOf, MarkFor, HasMark, IsMarkIn, Geometry.FlattenPacked, Geometry.SeenPacked, Then;
    PaddedBound(g, ptr);
    var own := Extent(ptr.addr, g.Padded(ptr));
    assert MarksOf(g, Flat([ptr], []), [own]) && MarksOf(g, Flat([], [ptr]), [own]) by {
      assert MarkFor(g, ptr, own) by { MarkForIs(g, ptr, own); }
      MarkOne(g, ptr, own);
    }
    marks, seen := [own], seen0;
    if level == 0 {
      seen := seen + 1;
      return if seen > leafCount then Err(Corrupt(TooManyLeaves)) else Ok(()), seen, marks;
    }
    var logical := g.ReadBlock(img, ptr);
    if logical.Err? { return Err(logical.error), seen, marks; }
    var block := logical.value;
    if |block| == 0 || |block| % BLOCK_PTR_SIZE != 0 { return Err(Corrupt(MalformedIndirect)), seen, marks; }
    var below;
    r, seen, below := MarkPacked(g, img, block, level - 1, leafCount, seen);
    ghost var f := g.FlattenPacked(img, block, level - 1);
    if r.Ok? {
      MarksJoin(g, Flat([], [ptr]), f.value, [own], below);
      assert [] + f.value.leaves == f.value.leaves;
    }
    marks := marks + below;
  }

  lemma MarkForIs(g: Geometry, p: BlockPtr, e: Extent)
    requires g.Valid() && e.addr == p.addr && e.len == g.Padded(p)
    ensures MarkFor(g, p, e)
  {
  }

  /** Marks the trees under the pointers packed in an indirect block, one after the other. */
  method MarkPacked(g: Geometry, img: seq<byte>, block: seq<byte>, level: nat, leafCount: nat, seen0: nat)
    returns (r: Result<()>, seen: nat, marks: seq<Extent>)
    requires g.Valid() && seen0 <= leafCount && |block| % BLOCK_PTR_SIZE == 0
    ensures r == Bounded(g.FlattenPacked(img, block, level), g.SeenPacked(img, block, level), leafCount - seen0)
    ensures r.Ok? ==>
      && seen == seen0 + g.SeenPacked(img, block, level)
      && MarksOf(g, g.FlattenPacked(img, block, level).value, marks)
    decreases level, 2
  {
    hide MarksOf, Geometry.Flatten, Geometry.FlattenPacked, Geometry.Seen, Geometry.SeenPacked, BlockPtr.ReadFrom, Then;
    marks, seen := [], seen0;
    ghost var done := Flat([], []);
    NoMarks(g);
    var rest := block;
    ghost var whole, all := g.FlattenPacked(img, block, level), g.SeenPacked(img, block, level);
    ThenNothing(whole);
    while rest != []
      invariant |rest| % BLOCK_PTR_SIZE == 0 && seen0 <= seen <= leafCount
      invariant whole == Then(Ok(done), g.FlattenPacked(img, rest, level))
      invariant all == seen - seen0 + g.SeenPacked(img, rest, level) && MarksOf(g, done, marks)
      decreases |rest|
    {
      PackedStep(g, img, rest, level);
      ThenOk(done, g.FlattenPacked(img, rest, level));
      var child := BlockPtr.ReadFrom(rest[..BLOCK_PTR_SIZE]);
      if child.Err? { return Err(child.error), seen, marks; }
      ghost var tree, later := g.Flatten(img, child.value, level), g.FlattenPacked(img, rest[BLOCK_PTR_SIZE..], level);
      ThenParts(tree, later);
      var one, below;
      one, seen, below := MarkPtr(g, img, child.value, level, leafCount, seen);
      if one.Err? { return one, seen, marks; }
      ThenJoin(done, tree.value, later);
      MarksJoin(g, done, tree.value, marks, below);
      marks := marks + below;
      done := Flat(done.leaves + tree.value.leaves, done.indirect + tree.value.indirect);
      rest := rest[BLOCK_PTR_SIZE..];
    }
    PackedDone(g, img, level);
    ThenOk(done, g.FlattenPacked(img, [], level));
    assert done.leaves + [] == done.leaves && done.indirect + [] == done.indirect;
    r := Ok(());
  }

  lemma NoMarks(g: Geometry)
    requires g.Valid()
    ensures MarksOf(g, Flat([], []), [])
  {
  }

  lemma ThenParts(a: Result<Flat>, b: Result<Flat>)
    ensures Then(a, b).Ok? <==> a.Ok? && b.Ok?
    ensures a.Err? ==> Then(a, b) == a
    ensures a.Ok? && b.Err? ==> Then(a, b) == b
  {
  }

  lemma ThenJoin(done: Flat, tree: Flat, rest: Result<Flat>)
    ensures Then(Ok(done), Then(Ok(tree), rest))
         == Then(Ok(Flat(done.leaves + tree.leaves, done.indirect + tree.indirect)), rest)
  {
    ThenAssociative(Ok(done), Ok(tree), rest);
  }

  lemma PackedDone(g: Geometry, img: seq<byte>, level: nat)
    requires g.Valid()
    ensures g.FlattenPacked(img, [], level) == Ok(Flat([], [])) && g.SeenPacked(img, [], level) == 0
  {
  }

  // ----- marking objects -----

  /** How marking an object ends. Unlike collecting its leaves it does not count them. */
  ghost function Markable(g: Geometry, img: seq<byte>, obj: ObjRef): Result<()>
    requires g.Valid()
  {
    var n :- g.CheckObject(obj);
    if n == 0 then Ok(()) else Bounded(g.Flatten(img, obj.root, obj.level), g.Seen(img, obj.root, obj.level), n)
  }

  /** The blocks of an object. */
  ghost function TreeOf(g: Geometry, img: seq<byte>, obj: ObjRef): Flat
    requires g.Valid()
  {
    if obj.size > 0 && g.Flatten(img, obj.root, obj.level).Ok? then g.Flatten(img, obj.root, obj.level).value
    else Flat([], [])
  }

  lemma CollectsMarkable(g: Geometry, img: seq<byte>, obj: ObjRef)
    requires g.Valid() && g.Collects(img, obj)
    ensures Markable(g, img, obj).Ok?
    ensures TreeOf(g, img, obj).leaves == g.Leaves(img, obj)
  {
    hide Geometry.Flatten, Geometry.Seen;
    if obj.size > 0 { SeenAll(g, img, obj.root, obj.level); }
  }

  method MarkObject(g: Geometry, img: seq<byte>, obj: ObjRef) returns (r: Result<()>, marks: seq<Extent>)
    requires g.Valid()
    ensures r == Markable(g, img, obj)
    ensures r.Ok? ==> MarksOf(g, TreeOf(g, img, obj), marks)
  {
    hide Geometry.Flatten, Geometry.Seen, MarksOf;
    NoMarks(g);
    marks := [];
    var n := g.CheckObject(obj);
    if n.Err? { return Err(n.error), marks; }
    if n.value == 0 { return Ok(()), marks; }
    var seen;
    r, seen, marks := MarkPtr(g, img, obj.root, obj.level, n.value, 0);
  }

  /** The blocks of all objects of a list. */
  ghost function TreesOf(g: Geometry, img: seq<byte>, objs: seq<ObjRef>): Flat
    requires g.Valid()
  {
    if objs == [] then Flat([], [])
    else
      var before, last := TreesOf(g, img, objs[..|objs| - 1]), TreeOf(g, img, objs[|objs| - 1]);
      Flat(before.leaves + last.leaves, before.indirect + last.indirect)
  }

  /** Some block of the tree has byte `x`. */
  ghost predicate UsedBy(g: Geometry, f: Flat, x: int)
    requires g.allocUnit > 0
  {
    exists p :: (p in f.leaves || p in f.indirect) && Within(x, p.addr, g.Padded(p))
  }

  /** Some block of some object has byte `x`. */
  ghost predicate UsedByAny(g: Geometry, img: seq<byte>, objs: seq<ObjRef>, x: int)
    requires g.Valid()
  {
    exists i :: 0 <= i < |objs| && UsedBy(g, TreeOf(g, img, objs[i]), x)
  }

  /** The marks have exactly the bytes of the blocks marked. */
  lemma MarksCover(g: Geometry, f: Flat, marks: seq<Extent>, x: int)
    requires g.Valid() && MarksOf(g, f, marks)
    ensures Covered(marks, x) <==> UsedBy(g, f, x)
  {
    hide Geometry.Padded;
    if Covered(marks, x) {
      var i :| Covers(marks, i, x);
      assert IsMarkIn(g, f, marks[i]);
    }
    if UsedBy(g, f, x) {
      var p :| (p in f.leaves || p in f.indirect) && Within(x, p.addr, g.Padded(p));
      assert HasMark(g, p, marks);
      var i :| 0 <= i < |marks| && MarkFor(g, p, marks[i]);
      assert Covers(marks, i, x);
    }
  }

  lemma UsedByJoin(g: Geometry, f: Flat, h: Flat, x: int)
    requires g.allocUnit > 0
    ensures UsedBy(g, Flat(f.leaves + h.leaves, f.indirect + h.indirect), x) <==> UsedBy(g, f, x) || UsedBy(g, h, x)
  {
    hide Geometry.Padded;
    var all := Flat(f.leaves + h.leaves, f.indirect + h.indirect);
    forall p
      ensures p in all.leaves || p in all.indirect <==> p in f.leaves || p in f.indirect || p in h.leaves || p in h.indirect
    {
    }
    if UsedBy(g, f, x) {
      var p :| (p in f.leaves || p in f.indirect) && Within(x, p.addr, g.Padded(p));
      assert p in all.leaves || p in all.indirect;
    }
    if UsedBy(g, h, x) {
      var p :| (p in h.leaves || p in h.indirect) && Within(x, p.addr, g.Padded(p));
      assert p in all.leaves || p in all.indirect;
    }
  }

  lemma {:induction false} TreesUsed(g: Geometry, img: seq<byte>, objs: seq<ObjRef>, x: int)
    requires g.Valid()
    ensures UsedBy(g, TreesOf(g, img, objs), x) <==> UsedByAny(g, img, objs, x)
    decreases |objs|
  {
    hide TreeOf, UsedBy;
    if objs == [] {
      NothingUsed(g, x);
    } else {
      var n := |objs| - 1;
      var front := objs[..n];
      TreesUsed(g, img, front, x);
      UsedByJoin(g, TreesOf(g, img, front), TreeOf(g, img, objs[n]), x);
      assert forall i :: 0 <= i < n ==> front[i] == objs[i];
      if UsedByAny(g, img, front, x) {
        var i :| 0 <= i < n && UsedBy(g, TreeOf(g, img, front[i]), x);
        assert UsedBy(g, TreeOf(g, img, objs[i]), x);
      }
      if UsedByAny(g, img, objs, x) {
        var i :| 0 <= i < |objs| && UsedBy(g, TreeOf(g, img, objs[i]), x);
        if i < n { assert UsedBy(g, TreeOf(g, img, front[i]), x); }
      }
    }
  }

  lemma NothingUsed(g: Geometry, x: int)
    requires g.allocUnit > 0
    ensures !UsedBy(g, Flat([], []), x)
  {
  }

  // ----- sweeping -----

  predicate Sorted(marks: seq<Extent>) {
    forall i, j :: 0 <= i < j < |marks| ==> marks[i].addr <= marks[j].addr
  }

  /** A mark lies in the data region, on allocation units, below the frontier. */
  ghost predicate MarkOk(s: Space, e: Extent) {
    && s.unit > 0 && Multiple(e.addr, s.unit) && Multiple(e.len, s.unit)
    && DATA_START <= e.addr && e.addr + e.len <= s.frontier
  }

  lemma Inserted(sorted: seq<Extent>, at: nat, e: Extent)
    requires Sorted(sorted) && at <= |sorted|
    requires forall j :: 0 <= j < at ==> sorted[j].addr <= e.addr
    requires forall j :: at <= j < |sorted| ==> e.addr <= sorted[j].addr
    ensures Sorted(sorted[..at] + [e] + sorted[at..])
    ensures multiset(sorted[..at] + [e] + sorted[at..]) == multiset(sorted) + multiset{e}
  {
    assert sorted == sorted[..at] + sorted[at..];
  }

  /** The marks in address order. */
  method SortByAddr(marks: seq<Extent>) returns (sorted: seq<Extent>)
    ensures multiset(sorted) == multiset(marks) && Sorted(sorted)
  {
    sorted := [];
    for k := 0 to |marks|
      invariant multiset(sorted) == multiset(marks[..k]) && Sorted(sorted)
    {
      assert marks[..k + 1] == marks[..k] + [marks[k]];
      sorted := InsertByAddr(sorted, marks[k]);
    }
    assert marks[..|marks|] == marks;
  }

  method InsertByAddr(sorted: seq<Extent>, e: Extent) returns (r: seq<Extent>)
    requires Sorted(sorted)
    ensures multiset(r) == multiset(sorted) + multiset{e} && Sorted(r)
  {
    var at := |sorted|;
    while at > 0 && sorted[at - 1].addr > e.addr
      invariant 0 <= at <= |sorted| && forall j :: at <= j < |sorted| ==> sorted[j].addr > e.addr
    {
      at := at - 1;
    }
    Inserted(sorted, at, e);
    r := sorted[..at] + [e] + sorted[at..];
  }

  lemma CoveredPermuted(a: seq<Extent>, b: seq<Extent>, x: int)
    requires multiset(a) == multiset(b) && Covered(a, x)
    ensures Covered(b, x)
  {
    var i :| Covers(a, i, x);
    assert a[i] in multiset(b);
    var j :| 0 <= j < |b| && b[j] == a[i];
    assert Covers(b, j, x);
  }

  lemma CoveredSnoc(es: seq<Extent>, e: Extent, x: int)
    ensures Covered(es + [e], x) <==> Covered(es, x) || Within(x, e.addr, e.len)
  {
    var more := es + [e];
    if Covered(es, x) {
      var i :| Covers(es, i, x);
      assert Covers(more, i, x);
    }
    if Within(x, e.addr, e.len) { assert Covers(more, |es|, x); }
    if Covered(more, x) {
      var i :| Covers(more, i, x);
      if i < |es| { assert Covers(es, i, x); }
    }
  }

  /** The free extents are in order and apart, each on units, and all end by `cursor`. */
  ghost predicate GapsOk(s: Space, free: seq<Extent>, cursor: int) {
    && (forall i {:trigger free[i]} :: 0 <= i < |free| ==> s.FreeExtentOk(free[i]) && free[i].addr + free[i].len <= cursor)
    && (forall i, j {:trigger free[i], free[j]} :: 0 <= i < j < |free| ==> free[i].addr + free[i].len <= free[j].addr)
  }

  /** One more gap, from `cursor` to `to`. */
  lemma GapAdded(s: Space, free: seq<Extent>, cursor: int, to: int)
    requires s.unit > 0 && DATA_START <= cursor < to <= s.frontier
    requires Multiple(cursor, s.unit) && Multiple(to, s.unit) && GapsOk(s, free, cursor)
    ensures GapsOk(s, free + [Extent(cursor, to - cursor)], to)
  {
    hide Multiple;
    MultipleSum(to, cursor, s.unit);
    var e := Extent(cursor, to - cursor);
    var more := free + [e];
    forall i | 0 <= i < |more|
      ensures s.FreeExtentOk(more[i]) && more[i].addr + more[i].len <= to
    {
      if i < |free| { assert more[i] == free[i]; }
    }
    forall i, j | 0 <= i < j < |more|
      ensures more[i].addr + more[i].len <= more[j].addr
    {
      assert more[i] == free[i];
      if j < |free| { assert more[j] == free[j]; }
    }
  }

  /** So far: exactly the unmarked bytes below the cursor are free, and no mark passes it. */
  ghost predicate Swept(s: Space, marks: seq<Extent>, k: nat, free: seq<Extent>, cursor: int)
    requires k <= |marks|
  {
    && s.unit > 0 && DATA_START <= cursor <= s.frontier && Multiple(cursor, s.unit)
    && GapsOk(s, free, cursor)
    && (forall x {:trigger Covered(free, x)} :: Covered(free, x) <==> DATA_START <= x < cursor && !Covered(marks[..k], x))
    && (forall x {:trigger Covered(marks[..k], x)} :: Covered(marks[..k], x) ==> x < cursor)
  }

  /** All gaps so far lie before the last mark swept. */
  ghost predicate GapsBefore(marks: seq<Extent>, k: nat, free: seq<Extent>)
    requires k <= |marks|
  {
    forall x {:trigger Covered(free, x)} :: Covered(free, x) ==> k > 0 && x < marks[k - 1].addr
  }

  /** The free list with the gap from `cursor` to `to`, if there is one. */
  function WithGap(free: seq<Extent>, cursor: u64, to: u64): seq<Extent> {
    if to > cursor then free + [Extent(cursor, to - cursor)] else free
  }

  /** The next mark: the bytes before it are a gap, the bytes under it are not. */
  lemma SweepStep(s: Space, marks: seq<Extent>, k: nat, free: seq<Extent>, cursor: u64)
    requires k < |marks| && MarkOk(s, marks[k]) && Sorted(marks)
    requires Swept(s, marks, k, free, cursor) && GapsBefore(marks, k, free)
    ensures var e := marks[k];
      var more := WithGap(free, cursor, e.addr);
      Swept(s, marks, k + 1, more, Max(cursor, e.addr + e.len)) && GapsBefore(marks, k + 1, more)
  {
    hide Multiple, GapsOk, Covered;
    var e := marks[k];
    MultipleSum(e.addr, e.len, s.unit);
    var next := Max(cursor, e.addr + e.len);
    var more := WithGap(free, cursor, e.addr);
    if e.addr > cursor {
      GapAdded(s, free, cursor, e.addr);
      GapsLater(s, more, e.addr, next);
    } else {
      GapsLater(s, more, cursor, next);
    }
    var done := marks[..k + 1];
    assert done == marks[..k] + [e];
    forall x: int
      ensures Covered(more, x) <==> DATA_START <= x < next && !Covered(done, x)
      ensures Covered(more, x) ==> x < e.addr
      ensures Covered(done, x) ==> x < next
    {
      CoveredSnoc(marks[..k], e, x);
      if e.addr > cursor { CoveredSnoc(free, Extent(cursor, e.addr - cursor), x); }
    }
  }

  lemma GapsLater(s: Space, free: seq<Extent>, cursor: int, to: int)
    requires GapsOk(s, free, cursor) && cursor <= to
    ensures GapsOk(s, free, to)
  {
  }

  /** The end of the sweep: what is left below the frontier is a gap. */
  lemma SweepEnd(s: Space, marks: seq<Extent>, free: seq<Extent>, cursor: u64)
    requires Swept(s, marks, |marks|, free, cursor) && Multiple(s.frontier, s.unit)
    ensures Swept(s, marks, |marks|, WithGap(free, cursor, s.frontier), s.frontier)
  {
    hide Multiple, GapsOk, Covered;
    if s.frontier > cursor {
      var last := Extent(cursor, s.frontier - cursor);
      var more := free + [last];
      GapAdded(s, free, cursor, s.frontier);
      forall x
        ensures Covered(more, x) <==> DATA_START <= x < s.frontier && !Covered(marks[..|marks|], x)
      {
        CoveredSnoc(free, last, x);
      }
      assert Swept(s, marks, |marks|, more, s.frontier);
    }
  }

  /** Exactly the unmarked bytes below the frontier become free. */
  ghost predicate Reclaimed(before: Space, marks: seq<Extent>, after: Space) {
    && after == before.(free := after.free) && after.Valid()
    && forall x {:trigger after.Available(x)} ::
         after.Available(x) <==> before.frontier <= x < before.deviceSize
                                 || (DATA_START <= x < before.frontier && !Covered(marks, x))
  }

  lemma SweptReclaims(s: Space, marks: seq<Extent>, sorted: seq<Extent>, free: seq<Extent>)
    requires s.Valid() && multiset(sorted) == multiset(marks)
    requires Swept(s, sorted, |sorted|, free, s.frontier)
    ensures Reclaimed(s, marks, s.(free := free))
  {
    hide Multiple, Covered;
    var after := s.(free := free);
    assert sorted[..|sorted|] == sorted;
    forall x
      ensures after.Available(x) <==> s.frontier <= x < s.deviceSize || (DATA_START <= x < s.frontier && !Covered(marks, x))
    {
      if Covered(sorted, x) { CoveredPermuted(sorted, marks, x); }
      if Covered(marks, x) { CoveredPermuted(marks, sorted, x); }
    }
    assert forall i {:trigger free[i]} :: 0 <= i < |free| ==> (after.FreeExtentOk(free[i]) <==> s.FreeExtentOk(free[i]));
  }

  /** The gaps between `cursor`, the marks, and the frontier, whatever the marks are. */
  function Gaps(marks: seq<Extent>, cursor: u64, frontier: u64): seq<Extent>
    requires Bounded64(marks)
    decreases |marks|
  {
    if marks == [] then WithGap([], cursor, frontier)
    else
      var e := marks[0];
      WithGap([], cursor, e.addr) + Gaps(marks[1..], Max(cursor, e.addr + e.len), frontier)
  }

  /** No mark ends past the largest address. */
  predicate Bounded64(marks: seq<Extent>) {
    forall i :: 0 <= i < |marks| ==> marks[i].addr + marks[i].len <= U64_MAX
  }

  lemma GapAfter(free: seq<Extent>, cursor: u64, to: u64)
    ensures WithGap(free, cursor, to) == free + WithGap([], cursor, to)
  {
  }

  lemma GapsStep(free: seq<Extent>, marks: seq<Extent>, cursor: u64, frontier: u64)
    requires Bounded64(marks) && marks != []
    ensures var e := marks[0];
      free + Gaps(marks, cursor, frontier)
      == WithGap(free, cursor, e.addr) + Gaps(marks[1..], Max(cursor, e.addr + e.len), frontier)
  {
    hide WithGap;
    var e := marks[0];
    var later := Gaps(marks[1..], Max(cursor, e.addr + e.len), frontier);
    GapAfter(free, cursor, e.addr);
    assert free + (WithGap([], cursor, e.addr) + later) == free + WithGap([], cursor, e.addr) + later;
  }

  ghost predicate AllMarksOk(s: Space, marks: seq<Extent>) {
    forall i {:trigger marks[i]} :: 0 <= i < |marks| ==> MarkOk(s, marks[i])
  }

  lemma PermutedMarks(s: Space, a: seq<Extent>, b: seq<Extent>)
    requires multiset(a) == multiset(b)
    ensures Bounded64(a) ==> Bounded64(b)
    ensures AllMarksOk(s, a) ==> AllMarksOk(s, b)
  {
    hide MarkOk;
    forall i | 0 <= i < |b|
      ensures b[i] in a
    {
      assert b[i] in multiset(a);
    }
  }

  /** The sweep: sorts the marks and gives the gaps between them to the allocator. */
  method Sweep(alloc: Allocator, marks: seq<Extent>) returns (ghost sorted: seq<Extent>)
    requires alloc.Valid() && Bounded64(marks)
    modifies alloc`free
    ensures multiset(sorted) == multiset(marks) && Sorted(sorted) && Bounded64(sorted)
    ensures alloc.State() == old(alloc.State()).(free := Gaps(sorted, DATA_START, old(alloc.frontier)))
    ensures AllMarksOk(old(alloc.State()), marks) ==> Reclaimed(old(alloc.State()), marks, alloc.State())
  {
    hide Swept, Reclaimed, Multiple, MarkOk, GapsBefore, Gaps, AllMarksOk;
    var inOrder := SortByAddr(marks);
    ghost var s := alloc.State();
    ghost var ok := AllMarksOk(s, marks);
    sorted := inOrder;
    PermutedMarks(s, marks, inOrder);
    var free: seq<Extent> := [];
    var cursor: u64 := DATA_START;
    var frontier := alloc.frontier;
    SweepStarts(s, inOrder);
    assert inOrder[0..] == inOrder && [] + Gaps(inOrder, DATA_START, frontier) == Gaps(inOrder, DATA_START, frontier);
    for k := 0 to |inOrder|
      invariant free + Gaps(inOrder[k..], cursor, frontier) == Gaps(inOrder, DATA_START, frontier)
      invariant ok ==> Swept(s, inOrder, k, free, cursor) && GapsBefore(inOrder, k, free)
    {
      var e := inOrder[k];
      GapsStep(free, inOrder[k..], cursor, frontier);
      assert inOrder[k..][1..] == inOrder[k + 1..];
      if ok {
        assert MarkOk(s, e) by { OneMarkOk(s, inOrder, k); }
        SweepStep(s, inOrder, k, free, cursor);
      }
      if e.addr > cursor { free := free + [Extent(cursor, e.addr - cursor)]; }
      cursor := Max(cursor, e.addr + e.len);
    }
    if ok {
      SweepEnd(s, inOrder, free, cursor);
      SweptReclaims(s, marks, inOrder, WithGap(free, cursor, frontier));
    }
    GapsEnd(free, cursor, frontier);
    if frontier > cursor { free := free + [Extent(cursor, frontier - cursor)]; }
    alloc.SetFree(free);
  }

  lemma OneMarkOk(s: Space, marks: seq<Extent>, k: nat)
    requires AllMarksOk(s, marks) && k < |marks|
    ensures MarkOk(s, marks[k])
  {
  }

  lemma GapsEnd(free: seq<Extent>, cursor: u64, frontier: u64)
    ensures free + Gaps([], cursor, frontier) == WithGap(free, cursor, frontier)
  {
  }

  lemma SweepStarts(s: Space, marks: seq<Extent>)
    requires s.Valid()
    ensures Swept(s, marks, 0, [], DATA_START) && GapsBefore(marks, 0, [])
  {
    hide Multiple;
    assert marks[..0] == [];
    assert s.unit > 0 by { UnitPositive(s); }
  }

  lemma UnitPositive(s: Space)
    requires s.Valid()
    ensures s.unit > 0
  {
  }

  // ----- what collection keeps -----

  /** A retained block's mark is one the sweep accepts. */
  lemma RetainedMarkOk(g: Geometry, s: Space, p: BlockPtr, e: Extent)
    requires g.Valid() && s.Valid() && s.unit == g.allocUnit && s.deviceSize == g.deviceSize
    requires g.Retained(s, p) && MarkFor(g, p, e)
    ensures MarkOk(s, e)
  {
    hide Multiple, Geometry.Padded;
    assert Multiple(e.len, s.unit) && e.len > 0 by { PaddedMultiple(g, p); }
    var last := e.addr + e.len - 1;
    assert Within(last, p.addr, g.Padded(p));
    assert !s.Available(last);
  }

  lemma PaddedMultiple(g: Geometry, p: BlockPtr)
    requires g.Valid() && p.psize > 0
    ensures Multiple(g.Padded(p), g.allocUnit) && g.Padded(p) > 0
  {
    MultipleIs(DivCeil(p.psize, g.allocUnit), g.allocUnit);
  }

  /** Every block of the tree is out of the allocator's reach. */
  ghost predicate TreeRetained(g: Geometry, s: Space, f: Flat)
    requires g.Valid()
  {
    g.AllRetained(s, f.leaves) && g.AllRetained(s, f.indirect)
  }

  lemma KeptTree(g: Geometry, img: seq<byte>, s: Space, obj: ObjRef)
    requires g.Valid() && g.Collects(img, obj)
    ensures g.Kept(s, img, obj) <==> TreeRetained(g, s, TreeOf(g, img, obj)) && g.DistinctAddrs(g.Leaves(img, obj))
  {
    hide Geometry.Flatten, Geometry.Retained, Geometry.DistinctAddrs;
    CollectsMarkable(g, img, obj);
  }

  /** The marks of retained blocks are all ones the sweep accepts. */
  lemma RetainedMarksOk(g: Geometry, s: Space, f: Flat, marks: seq<Extent>)
    requires g.Valid() && s.Valid() && s.unit == g.allocUnit && s.deviceSize == g.deviceSize
    requires TreeRetained(g, s, f) && MarksOf(g, f, marks)
    ensures AllMarksOk(s, marks) && Bounded64(marks)
  {
    hide Geometry.Retained, MarkFor, HasMark;
    forall i | 0 <= i < |marks|
      ensures MarkOk(s, marks[i])
    {
      assert IsMarkIn(g, f, marks[i]);
      var p :| (p in f.leaves || p in f.indirect) && MarkFor(g, p, marks[i]);
      RetainedMarkOk(g, s, p, marks[i]);
    }
  }

  lemma {:induction false} TreesRetained(g: Geometry, img: seq<byte>, s: Space, objs: seq<ObjRef>)
    requires g.Valid() && forall i :: 0 <= i < |objs| ==> TreeRetained(g, s, TreeOf(g, img, objs[i]))
    ensures TreeRetained(g, s, TreesOf(g, img, objs))
    decreases |objs|
  {
    hide TreeOf, Geometry.AllRetained;
    if objs == [] {
      NothingRetained(g, s);
    } else {
      var n := |objs| - 1;
      var before, last := TreesOf(g, img, objs[..n]), TreeOf(g, img, objs[n]);
      TreesRetained(g, img, s, objs[..n]);
      RetainedConcat(g, s, before.leaves, last.leaves);
      RetainedConcat(g, s, before.indirect, last.indirect);
    }
  }

  lemma NothingRetained(g: Geometry, s: Space)
    requires g.Valid()
    ensures TreeRetained(g, s, Flat([], []))
  {
  }

  /** What a collection does to the space: exactly what no listed object uses is free. */
  ghost predicate Freed(g: Geometry, img: seq<byte>, objs: seq<ObjRef>, before: Space, after: Space)
    requires g.Valid()
  {
    && after == before.(free := after.free) && after.Valid()
    && forall x {:trigger after.Available(x)} ::
         after.Available(x) <==> before.frontier <= x < before.deviceSize
                                 || (DATA_START <= x < before.frontier && !UsedByAny(g, img, objs, x))
  }

  /** A tree whose bytes all stay used is as far out of reach after the collection. */
  lemma UsedStaysRetained(g: Geometry, img: seq<byte>, objs: seq<ObjRef>, s: Space, after: Space, i: nat)
    requires g.Valid() && Freed(g, img, objs, s, after) && i < |objs|
    requires TreeRetained(g, s, TreeOf(g, img, objs[i]))
    ensures TreeRetained(g, after, TreeOf(g, img, objs[i]))
  {
    hide TreeOf, Geometry.Padded, Geometry.Placed;
    var f := TreeOf(g, img, objs[i]);
    forall p, x | (p in f.leaves || p in f.indirect) && g.Retained(s, p) && Within(x, p.addr, g.Padded(p))
      ensures !after.Available(x)
    {
      assert UsedBy(g, f, x);
      assert !s.Available(x);
    }
  }

  /** Every object of the list is as safe after the collection as before. */
  lemma CollectionKeeps(g: Geometry, img: seq<byte>, s: Space, objs: seq<ObjRef>, contents: seq<seq<byte>>, after: Space)
    requires g.Valid() && AllHeld(g, img, s, objs, contents) && Freed(g, img, objs, s, after)
    ensures AllHeld(g, img, after, objs, contents)
  {
    hide Geometry.Holds, Geometry.Kept, Freed, TreeRetained, Geometry.DistinctAddrs;
    forall i | 0 <= i < |objs|
      ensures HeldAt(g, img, after, objs[i], contents[i])
    {
      HeldOne(g, img, s, objs, contents, i);
      KeptTree(g, img, s, objs[i]);
      UsedStaysRetained(g, img, objs, s, after, i);
      KeptTree(g, img, after, objs[i]);
    }
  }

  /** Whatever the marks are, no gap between them has a marked byte. */
  lemma {:induction false} GapsUnmarked(marks: seq<Extent>, cursor: u64, frontier: u64, x: int)
    requires Bounded64(marks) && Sorted(marks) && Covered(Gaps(marks, cursor, frontier), x)
    ensures cursor <= x && !Covered(marks, x)
    decreases |marks|
  {
    var gaps := Gaps(marks, cursor, frontier);
    var i :| Covers(gaps, i, x);
    if marks != [] {
      var e := marks[0];
      var next := Max(cursor, e.addr + e.len);
      var first, later := WithGap([], cursor, e.addr), Gaps(marks[1..], next, frontier);
      if i < |first| {
        assert cursor <= x < e.addr;
      } else {
        assert Covers(later, i - |first|, x);
        GapsUnmarked(marks[1..], next, frontier, x);
      }
      if Covered(marks, x) { CoveredApart(marks, x); }
    }
  }

  lemma CoveredApart(marks: seq<Extent>, x: int)
    requires marks != [] && Covered(marks, x)
    ensures Covers(marks, 0, x) || Covered(marks[1..], x)
  {
    var j :| Covers(marks, j, x);
    if j > 0 { assert Covers(marks[1..], j - 1, x); }
  }

  /** A retained tree whose blocks are all marked is retained after the sweep, whatever else is
      marked, and however the sweep comes out. */
  lemma SweepKeeps(g: Geometry, s: Space, f: Flat, marks: seq<Extent>, sorted: seq<Extent>)
    requires g.Valid() && TreeRetained(g, s, f) && multiset(sorted) == multiset(marks) && Sorted(sorted) && Bounded64(sorted)
    requires forall p :: p in f.leaves || p in f.indirect ==> HasMark(g, p, marks)
    ensures TreeRetained(g, s.(free := Gaps(sorted, DATA_START, s.frontier)), f)
  {
    hide Gaps, Geometry.Padded, Geometry.Placed, Sorted, Bounded64;
    var after := s.(free := Gaps(sorted, DATA_START, s.frontier));
    forall p, x | (p in f.leaves || p in f.indirect) && g.Retained(s, p) && Within(x, p.addr, g.Padded(p))
      ensures !after.Available(x)
    {
      assert !s.Available(x);
      var i :| 0 <= i < |marks| && MarkFor(g, p, marks[i]);
      assert Covers(marks, i, x);
      CoveredPermuted(marks, sorted, x);
      if Covered(after.free, x) { GapsUnmarked(sorted, DATA_START, s.frontier, x); }
    }
  }

  // ----- marks of damaged images -----

  /** The sweep's condition: whatever bounds a gap lies on a unit, at or below the frontier. */
  ghost predicate GapsBounded(s: Space, marks: seq<Extent>, cursor: u64)
    requires Bounded64(marks)
    decreases |marks|
  {
    if marks == [] then s.frontier > cursor ==> Multiple(cursor, s.unit)
    else
      var e := marks[0];
      && (e.addr > cursor ==> Multiple(cursor, s.unit) && Multiple(e.addr, s.unit) && e.addr <= s.frontier)
      && GapsBounded(s, marks[1..], Max(cursor, e.addr + e.len))
  }

  lemma GapBounds(s: Space, cursor: u64, to: u64)
    requires s.unit > 0 && DATA_START <= cursor < to
    ensures s.FreeExtentOk(Extent(cursor, to - cursor)) <==> Multiple(cursor, s.unit) && Multiple(to, s.unit) && to <= s.frontier
  {
    hide Multiple;
    if Multiple(cursor, s.unit) && Multiple(to, s.unit) { MultipleSum(to, cursor, s.unit); }
    if Multiple(cursor, s.unit) && Multiple(to - cursor, s.unit) { MultipleSum(cursor, to - cursor, s.unit); }
  }

  /** The extents start at `cursor` or later, in order and apart. */
  ghost predicate InOrder(free: seq<Extent>, cursor: int) {
    && (forall i {:trigger free[i]} :: 0 <= i < |free| ==> cursor <= free[i].addr)
    && (forall i, j {:trigger free[i], free[j]} :: 0 <= i < j < |free| ==> free[i].addr + free[i].len <= free[j].addr)
  }

  ghost predicate AllSound(s: Space, free: seq<Extent>) {
    forall i {:trigger free[i]} :: 0 <= i < |free| ==> s.FreeExtentOk(free[i])
  }

  lemma GapInFront(s: Space, gap: Extent, later: seq<Extent>, next: int)
    requires InOrder(later, next) && gap.addr + gap.len <= next
    ensures InOrder([gap] + later, gap.addr)
    ensures AllSound(s, [gap] + later) <==> s.FreeExtentOk(gap) && AllSound(s, later)
  {
    hide Space.FreeExtentOk;
    var free := [gap] + later;
    forall i | 0 <= i < |free|
      ensures free[i] == if i == 0 then gap else later[i - 1]
    {
    }
    forall i, j | 0 <= i < j < |free|
      ensures free[i].addr + free[i].len <= free[j].addr
    {
      if i > 0 { assert later[i - 1].addr + later[i - 1].len <= later[j - 1].addr; }
    }
    SoundInFront(s, gap, later);
  }

  lemma SoundInFront(s: Space, gap: Extent, later: seq<Extent>)
    ensures AllSound(s, [gap] + later) <==> s.FreeExtentOk(gap) && AllSound(s, later)
  {
    hide Space.FreeExtentOk;
    var free := [gap] + later;
    if AllSound(s, free) {
      assert free[0] == gap;
      forall i | 0 <= i < |later|
        ensures s.FreeExtentOk(later[i])
      {
        assert free[i + 1] == later[i];
      }
    }
  }

  /** Gaps are in order and apart whatever the marks; they are sound exactly within bounds. */
  lemma {:induction false} GapsSoundIff(s: Space, marks: seq<Extent>, cursor: u64)
    requires Bounded64(marks) && s.unit > 0 && Multiple(s.frontier, s.unit) && DATA_START <= cursor
    ensures InOrder(Gaps(marks, cursor, s.frontier), cursor)
    ensures AllSound(s, Gaps(marks, cursor, s.frontier)) <==> GapsBounded(s, marks, cursor)
    decreases |marks|
  {
    hide Multiple, Space.FreeExtentOk, InOrder, AllSound;
    if marks == [] {
      NoGaps(s, cursor);
      NoGaps(s, s.frontier);
      if s.frontier > cursor {
        GapBounds(s, cursor, s.frontier);
        var gap := Extent(cursor, s.frontier - cursor);
        GapInFront(s, gap, [], s.frontier);
        assert [] + [gap] == [gap] + [];
      }
    } else {
      var e := marks[0];
      var next := Max(cursor, e.addr + e.len);
      GapsSoundIff(s, marks[1..], next);
      var later := Gaps(marks[1..], next, s.frontier);
      if e.addr > cursor {
        GapBounds(s, cursor, e.addr);
        var gap := Extent(cursor, e.addr - cursor);
        GapInFront(s, gap, later, next);
        assert [] + [gap] == [gap];
      } else {
        assert [] + later == later;
        Earlier(later, next, cursor);
      }
    }
  }

  lemma NoGaps(s: Space, cursor: int)
    ensures InOrder([], cursor) && AllSound(s, [])
  {
  }

  lemma Earlier(free: seq<Extent>, next: int, cursor: int)
    requires InOrder(free, next) && cursor <= next
    ensures InOrder(free, cursor)
  {
  }

  /** A sweep leaves the allocator with a sound free list exactly when its gaps are bounded. */
  lemma SweepSoundIff(s: Space, marks: seq<Extent>)
    requires s.Valid() && Bounded64(marks)
    ensures s.(free := Gaps(marks, DATA_START, s.frontier)).Valid() <==> GapsBounded(s, marks, DATA_START)
  {
    hide Multiple, Gaps, GapsBounded;
    UnitPositive(s);
    GapsSoundIff(s, marks, DATA_START);
    var after := s.(free := Gaps(marks, DATA_START, s.frontier));
    assert forall i {:trigger after.free[i]} :: 0 <= i < |after.free| ==>
      (after.FreeExtentOk(after.free[i]) <==> s.FreeExtentOk(after.free[i]));
  }

  /** A reference to one byte, stored a unit past the frontier. */
  function StrayRef(s: Space, hash: Digest): ObjRef
    requires s.frontier + s.unit <= U64_MAX
  {
    ObjRef(1, 0, BlockPtr(s.frontier + s.unit, 1, 1, Raw, hash))
  }

  /**
    A damaged reference is enough, on any image: marking it succeeds, for its one data block
    is never read; and however the mark is recorded, the sweep then puts the byte at the
    frontier on the free list as well.
  */
  lemma StrayMark(g: Geometry, img: seq<byte>, s: Space, hash: Digest, marks: seq<Extent>)
    requires g.Valid() && s.Valid() && s.unit == g.allocUnit && s.deviceSize == g.deviceSize
    requires s.frontier + 2 * s.unit <= s.deviceSize
    requires MarksOf(g, TreeOf(g, img, StrayRef(s, hash)), marks)
    ensures Markable(g, img, StrayRef(s, hash)) == Ok(())
    ensures Bounded64(marks) && Sorted(marks)
    ensures var after := s.(free := Gaps(marks, DATA_START, s.frontier));
      !after.Valid() && Covered(after.free, s.frontier) && after.frontier == s.frontier < s.deviceSize
  {
    hide MarkFor;
    UnitPositive(s);
    StrayMarkable(g, img, s, hash);
    var ptr, e := StrayRef(s, hash).root, Extent(s.frontier + s.unit, s.unit);
    StrayPadded(g, ptr);
    assert HasMark(g, ptr, marks);
    forall i | 0 <= i < |marks|
      ensures marks[i] == e
    {
      assert IsMarkIn(g, Flat([ptr], []), marks[i]);
      assert MarkFor(g, ptr, marks[i]);
      MarkForMeans(g, ptr, marks[i]);
    }
    var gap := Extent(DATA_START, s.frontier + s.unit - DATA_START);
    var later := Gaps(marks[1..], Max(DATA_START, e.addr + e.len), s.frontier);
    assert Gaps(marks, DATA_START, s.frontier) == ([] + [gap]) + later;
    var after := s.(free := Gaps(marks, DATA_START, s.frontier));
    assert after.free[0] == gap;
    assert Covers(after.free, 0, s.frontier);
    assert !after.FreeExtentOk(after.free[0]);
  }

  lemma MarkForMeans(g: Geometry, p: BlockPtr, e: Extent)
    requires g.allocUnit > 0 && MarkFor(g, p, e)
    ensures e == Extent(p.addr, g.Padded(p))
  {
  }

  lemma StrayPadded(g: Geometry, p: BlockPtr)
    requires g.allocUnit > 0 && p.psize == 1
    ensures g.Padded(p) == g.allocUnit
  {
  }

  lemma StrayMarkable(g: Geometry, img: seq<byte>, s: Space, hash: Digest)
    requires g.Valid() && s.Valid() && s.unit == g.allocUnit && s.deviceSize == g.deviceSize
    requires s.frontier + 2 * s.unit <= s.deviceSize
    ensures var obj := StrayRef(s, hash);
      Markable(g, img, obj) == Ok(()) && TreeOf(g, img, obj) == Flat([obj.root], [])
  {
    hide Geometry.CheckObject, Geometry.Flatten, Geometry.Seen;
    UnitPositive(s);
    OneBlock(g, img, s, StrayRef(s, hash));
  }

  lemma OneBlock(g: Geometry, img: seq<byte>, s: Space, obj: ObjRef)
    requires g.Valid() && s.Valid() && s.unit == g.allocUnit && s.deviceSize == g.deviceSize
    requires s.frontier + 2 * s.unit <= s.deviceSize
    requires obj.size == 1 && obj.level == 0 && !obj.root.IsNull()
    ensures g.CheckObject(obj) == Ok(1)
    ensures g.Flatten(img, obj.root, 0) == Ok(Flat([obj.root], [])) && g.Seen(img, obj.root, 0) == 1
  {
    hide Multiple, DivCeil, Geometry.MaxLeaves;
    RoomForOne(g, s);
    DivCeilIs(1, g.blockSize, 1);
  }

  lemma RoomForOne(g: Geometry, s: Space)
    requires g.Valid() && s.Valid() && s.unit == g.allocUnit && s.deviceSize == g.deviceSize
    requires s.frontier + 2 * s.unit <= s.deviceSize
    ensures g.MaxLeaves() >= 1
  {
    hide Multiple;
    UnitPositive(s);
    Euclid(g.deviceSize - DATA_START, g.allocUnit);
    MulLess(g.MaxLeaves(), 1, g.allocUnit);
  }
}
