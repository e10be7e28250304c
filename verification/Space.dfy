/**
  Space allocation: first fit from a free list, otherwise at the frontier.

  `Space` is the allocator's state as a value and `Allocate` what one call does to it; the
  class `Allocator` is the in-place form, proved against it. What the file system relies on
  is stated about `Available`, the bytes that may still be handed out.
*/
module Space {
  import opened Bytes
  import opened Arith
  import opened Format

  datatype Extent = Extent(addr: u64, len: u64)

  datatype Space = Space(unit: u64, deviceSize: u64, frontier: u64, free: seq<Extent>) {

    /** Sorted, non-overlapping, aligned free extents, all below an aligned frontier. */
    ghost predicate Valid() {
      && Multiple(DATA_START, unit) && Multiple(frontier, unit)
      && DATA_START <= frontier <= deviceSize
      && (forall i {:trigger free[i]} :: 0 <= i < |free| ==> FreeExtentOk(free[i]))
      && (forall i, j {:trigger free[i], free[j]} :: 0 <= i < j < |free| ==>
           free[i].addr + free[i].len <= free[j].addr)
    }

    ghost predicate FreeExtentOk(e: Extent) {
      && unit > 0 && Multiple(e.addr, unit) && Multiple(e.len, unit)
      && e.len > 0 && DATA_START <= e.addr && e.addr + e.len <= frontier
    }

    /** Byte `x` may still be handed out. */
    ghost predicate Available(x: int) {
      || frontier <= x < deviceSize
      || Covered(free, x)
    }

    /** `len` rounded up to the allocation unit. */
    function Aligned(len: nat): (need: nat)
      requires unit > 0
      ensures need >= len && Multiple(need, unit) && (len > 0 ==> need >= unit)
    {
      MultipleIs(DivCeil(len, unit), unit);
      MulLess(1, DivCeil(len, unit), unit);
      DivCeil(len, unit) * unit
    }

    /** The first free extent of at least `need` bytes, counting from `from`. */
    function FirstFit(need: nat, from: nat): (i: nat)
      requires from <= |free|
      ensures from <= i <= |free|
      ensures forall k :: from <= k < i ==> free[k].len < need
      ensures i < |free| ==> free[i].len >= need
      decreases |free| - from
    {
      if from == |free| || free[from].len >= need then from else FirstFit(need, from + 1)
    }

    /** The free list with `need` bytes taken off the front of extent `i`. */
    function Carve(i: nat, need: nat): seq<Extent>
      requires i < |free| && need <= free[i].len && free[i].addr + need < 0x1_0000_0000_0000_0000
    {
      if free[i].len == need then free[..i] + free[i + 1..]
      else free[i := Extent(free[i].addr + need, free[i].len - need)]
    }

    /** One allocation: the new state and the address, or the reason there is none. */
    function Allocate(len: nat): (r: (Space, Result<u64>))
      requires unit > 0
      requires forall i :: 0 <= i < |free| ==> free[i].addr + free[i].len <= frontier
    {
      if len == 0 then (this, Err(Corrupt(ZeroAllocation)))
      else
        var need := Aligned(len);
        var i := FirstFit(need, 0);
        if i < |free| then (this.(free := Carve(i, need)), Ok(free[i].addr))
        else if frontier + need > deviceSize then (this, Err(NoSpace))
        else (this.(frontier := frontier + need), Ok(frontier))
    }

    function FreeBytes(): nat {
      SumLen(free)
    }

    /** Everything that can still be handed out. */
    function Room(): int {
      FreeBytes() + (deviceSize - frontier)
    }
  }

  /** Byte `x` belongs to the extent that starts at `addr` and holds `len` bytes. */
  predicate Within(x: int, addr: nat, len: nat) {
    addr <= x < addr + len
  }

  /** Extent number `i` has byte `x`. */
  predicate Covers(es: seq<Extent>, i: int, x: int) {
    0 <= i < |es| && Within(x, es[i].addr, es[i].len)
  }

  /** Some extent has byte `x`. */
  ghost predicate Covered(es: seq<Extent>, x: int) {
    exists i :: Covers(es, i, x)
  }

  function SumLen(es: seq<Extent>): nat {
    if es == [] then 0 else es[0].len + SumLen(es[1..])
  }

  lemma {:induction false} SumLenSplit(a: seq<Extent>, b: seq<Extent>)
    ensures SumLen(a + b) == SumLen(a) + SumLen(b)
  {
    if a == [] {
      assert a + b == b;
    } else {
      assert (a + b)[1..] == a[1..] + b;
      SumLenSplit(a[1..], b);
    }
  }

  lemma CarveRoom(s: Space, i: nat, need: nat)
    requires i < |s.free| && 0 < need <= s.free[i].len
    requires s.free[i].addr + need < 0x1_0000_0000_0000_0000
    ensures SumLen(s.Carve(i, need)) + need == SumLen(s.free)
  {
    var e := s.free[i];
    assert s.free == s.free[..i] + ([e] + s.free[i + 1..]);
    SumLenSplit(s.free[..i], [e] + s.free[i + 1..]);
    if e.len == need {
      SumLenSplit(s.free[..i], s.free[i + 1..]);
    } else {
      var f := Extent(e.addr + need, e.len - need);
      assert s.free[i := f] == s.free[..i] + ([f] + s.free[i + 1..]);
      SumLenSplit(s.free[..i], [f] + s.free[i + 1..]);
    }
  }

  /** `Available` after an allocation is exactly `Available` before it less the extent. */
  ghost predicate TakesExactly(s: Space, s': Space, addr: nat, need: nat) {
    && (forall x {:trigger s'.Available(x)} :: s'.Available(x) ==> s.Available(x) && !Within(x, addr, need))
    && (forall x {:trigger s.Available(x)} :: s.Available(x) && !Within(x, addr, need) ==> s'.Available(x))
    && (forall x {:trigger Within(x, addr, need)} :: Within(x, addr, need) ==> s.Available(x))
  }

  /** Extent `e` lies within one of the extents. */
  ghost predicate Inside(es: seq<Extent>, e: Extent) {
    exists j :: 0 <= j < |es| && es[j].addr <= e.addr && e.addr + e.len <= es[j].addr + es[j].len
  }

  /** Nothing grows: free extents lie in free extents, and the frontier only advances. */
  ghost predicate Shrinks(s: Space, s': Space) {
    && s'.unit == s.unit && s'.deviceSize == s.deviceSize && s.frontier <= s'.frontier
    && forall i {:trigger s'.free[i]} :: 0 <= i < |s'.free| ==> Inside(s.free, s'.free[i])
  }

  lemma ShrinksRefl(s: Space)
    ensures Shrinks(s, s)
  {
    forall i | 0 <= i < |s.free| ensures Inside(s.free, s.free[i]) {
      assert s.free[i].addr <= s.free[i].addr;
    }
  }

  lemma ShrinksTrans(s: Space, s1: Space, s2: Space)
    requires Shrinks(s, s1) && Shrinks(s1, s2)
    ensures Shrinks(s, s2)
  {
    forall i | 0 <= i < |s2.free| ensures Inside(s.free, s2.free[i]) {
      var j :| 0 <= j < |s1.free| && s1.free[j].addr <= s2.free[i].addr
               && s2.free[i].addr + s2.free[i].len <= s1.free[j].addr + s1.free[j].len;
      assert Inside(s.free, s1.free[j]);
    }
  }

  lemma CarveShrinks(s: Space, i: nat, need: nat)
    requires i < |s.free| && 0 < need <= s.free[i].len && s.free[i].addr + need < 0x1_0000_0000_0000_0000
    ensures Shrinks(s, s.(free := s.Carve(i, need)))
  {
    var free := s.Carve(i, need);
    forall k | 0 <= k < |free| ensures Inside(s.free, free[k]) {
      var j := if s.free[i].len == need && k >= i then k + 1 else k;
      assert s.free[j].addr <= free[k].addr && free[k].addr + free[k].len <= s.free[j].addr + s.free[j].len;
    }
  }

  lemma CarveValid(s: Space, i: nat, need: nat)
    requires s.Valid() && i < |s.free| && 0 < need <= s.free[i].len && Multiple(need, s.unit)
    ensures s.(free := s.Carve(i, need)).Valid()
  {
    var e := s.free[i];
    assert s.FreeExtentOk(e);
    MultipleSum(e.addr, need, s.unit);
    MultipleSum(e.len, need, s.unit);
    var s' := s.(free := s.Carve(i, need));
    if e.len == need {
      assert forall k :: 0 <= k < |s'.free| ==> s'.free[k] == s.free[if k < i then k else k + 1];
    } else {
      var f := Extent(e.addr + need, e.len - need);
      assert s'.FreeExtentOk(f);
    }
  }

  lemma CarveTakes(s: Space, i: nat, need: nat)
    requires s.Valid() && i < |s.free| && 0 < need <= s.free[i].len
    ensures TakesExactly(s, s.(free := s.Carve(i, need)), s.free[i].addr, need)
  {
    var s' := s.(free := s.Carve(i, need));
    forall x | s'.Available(x)
      ensures s.Available(x) && !Within(x, s.free[i].addr, need)
    {
      CarveTakesFrom(s, i, need, x);
    }
    forall x | s.Available(x) && !Within(x, s.free[i].addr, need)
      ensures s'.Available(x)
    {
      CarveLeaves(s, i, need, x);
    }
    assert forall x :: Within(x, s.free[i].addr, need) ==> Covers(s.free, i, x);
  }

  lemma CarveTakesFrom(s: Space, i: nat, need: nat, x: int)
    requires s.Valid() && i < |s.free| && 0 < need <= s.free[i].len
    requires s.(free := s.Carve(i, need)).Available(x)
    ensures s.Available(x) && !Within(x, s.free[i].addr, need)
  {
    hide Space.Valid;
    var e := s.free[i];
    InBounds(s, i);
    var s' := s.(free := s.Carve(i, need));
    if !(s.frontier <= x < s.deviceSize) {
      var k :| Covers(s'.free, k, x);
      var j := if e.len == need && k >= i then k + 1 else k;
      assert Covers(s.free, j, x);
      Ordered(s, i, j);
    }
  }

  lemma InBounds(s: Space, i: nat)
    requires s.Valid() && i < |s.free|
    ensures s.free[i].len > 0 && s.free[i].addr + s.free[i].len <= s.frontier
  {
    assert s.FreeExtentOk(s.free[i]);
  }

  /** Extents lie in order of their numbers. */
  lemma Ordered(s: Space, i: nat, j: nat)
    requires s.Valid() && i < |s.free| && j < |s.free|
    ensures j < i ==> s.free[j].addr + s.free[j].len <= s.free[i].addr
    ensures i < j ==> s.free[i].addr + s.free[i].len <= s.free[j].addr
  {
  }

  lemma CarveLeaves(s: Space, i: nat, need: nat, x: int)
    requires s.Valid() && i < |s.free| && 0 < need <= s.free[i].len
    requires s.Available(x) && !Within(x, s.free[i].addr, need)
    ensures s.(free := s.Carve(i, need)).Available(x)
  {
    var s' := s.(free := s.Carve(i, need));
    if !(s.frontier <= x < s.deviceSize) {
      var j :| Covers(s.free, j, x);
      var k := if s.free[i].len == need && j > i then j - 1 else j;
      assert Covers(s'.free, k, x);
    }
  }

  lemma FrontierTakes(s: Space, need: nat)
    requires s.Valid() && need > 0 && s.frontier + need <= s.deviceSize
    ensures TakesExactly(s, s.(frontier := s.frontier + need), s.frontier, need)
  {
    var s' := s.(frontier := s.frontier + need);
    forall x | s'.Available(x)
      ensures s.Available(x) && !Within(x, s.frontier, need)
    {
      if x < s'.frontier {
        var i :| Covers(s'.free, i, x);
        assert Covers(s.free, i, x) && s.FreeExtentOk(s.free[i]);
      }
    }
    forall x | s.Available(x) && !Within(x, s.frontier, need)
      ensures s'.Available(x)
    {
      if x < s'.frontier {
        var i :| Covers(s.free, i, x);
        assert Covers(s'.free, i, x);
      }
    }
  }

  /** What one allocation guarantees: an aligned extent inside the data region, taken from
      what was available and no longer available, and nothing else changed. */
  lemma AllocateSound(s: Space, len: nat)
    requires s.Valid() && len > 0
    ensures var (s', r) := s.Allocate(len);
            && s'.Valid()
            && (r.Ok? ==>
                 && Multiple(r.value, s.unit) && DATA_START <= r.value
                 && r.value + s.Aligned(len) <= s'.frontier
                 && TakesExactly(s, s', r.value, s.Aligned(len))
                 && s'.Room() + s.Aligned(len) == s.Room())
            && (r.Err? ==> s' == s)
  {
    var need := s.Aligned(len);
    var i := s.FirstFit(need, 0);
    if i < |s.free| {
      CarveValid(s, i, need);
      CarveTakes(s, i, need);
      CarveRoom(s, i, need);
      assert s.FreeExtentOk(s.free[i]);
    } else if s.frontier + need <= s.deviceSize {
      MultipleSum(s.frontier, need, s.unit);
      var s' := s.(frontier := s.frontier + need);
      forall i | 0 <= i < |s'.free| ensures s'.FreeExtentOk(s'.free[i]) {
        assert s.FreeExtentOk(s.free[i]);
      }
      FrontierTakes(s, need);
    }
  }

  /** An allocation only takes away. */
  lemma AllocateShrinks(s: Space, len: nat)
    requires s.Valid() && len > 0
    ensures Shrinks(s, s.Allocate(len).0)
  {
    hide Shrinks;
    ShrinksRefl(s);
    var need := s.Aligned(len);
    var i := s.FirstFit(need, 0);
    if i < |s.free| {
      assert s.FreeExtentOk(s.free[i]);
      CarveShrinks(s, i, need);
    } else if s.frontier + need <= s.deviceSize {
      FrontierShrinks(s, s.frontier + need);
    }
  }

  lemma FrontierShrinks(s: Space, frontier: u64)
    requires s.frontier <= frontier
    ensures Shrinks(s, s.(frontier := frontier))
  {
    ShrinksRefl(s);
  }

  /** For a non-empty request the allocator fails exactly when neither a free extent nor the
      space after the frontier is long enough; it then reports that there is no space. */
  lemma AllocateFails(s: Space, len: nat)
    requires s.Valid() && len > 0
    ensures var r := s.Allocate(len).1;
            && (r.Err? <==> (forall i :: 0 <= i < |s.free| ==> s.free[i].len < s.Aligned(len))
                            && s.frontier + s.Aligned(len) > s.deviceSize)
            && (r.Err? ==> r.error == NoSpace)
  {
  }

  /** The lowest free extent of at least `need` bytes. */
  ghost predicate LowestFit(free: seq<Extent>, need: nat, e: Extent) {
    e in free && e.len >= need && forall f :: f in free && f.len >= need ==> e.addr <= f.addr
  }

  /** What a success does: the front of the lowest free extent that fits is taken and nothing
      else moves; only when none fits is the frontier appended to. */
  ghost predicate TakesLowest(s: Space, need: nat, s': Space, addr: nat) {
    && s'.unit == s.unit && s'.deviceSize == s.deviceSize
    && (forall e :: LowestFit(s.free, need, e) ==> addr == e.addr && s'.frontier == s.frontier && OnlyShrinks(s.free, e, need, s'.free))
    && ((forall e :: e in s.free ==> e.len < need) ==> addr == s.frontier && s'.frontier == s.frontier + need && s'.free == s.free)
  }

  /** The extent loses its first `need` bytes, or goes; the others stay. */
  ghost predicate OnlyShrinks(free: seq<Extent>, e: Extent, need: nat, free': seq<Extent>) {
    && (forall f :: f in free && f != e ==> f in free')
    && (forall f :: f in free' ==> f in free || (f.addr == e.addr + need && f.len == e.len - need))
    && e !in free'
    && (e.len > need ==> exists f :: f in free' && f.addr == e.addr + need && f.len == e.len - need)
  }

  /** An extent other than the one carved stays. */
  lemma CarveKeeps(s: Space, i: nat, need: nat, j: nat)
    requires i < |s.free| && 0 < need <= s.free[i].len && s.free[i].addr + need < 0x1_0000_0000_0000_0000
    requires j < |s.free| && j != i
    ensures s.free[j] in s.Carve(i, need)
  {
    var k := if s.free[i].len == need && j > i then j - 1 else j;
    assert s.Carve(i, need)[k] == s.free[j];
  }

  /** What is left after carving was there before, but for the rest of the one carved. */
  lemma CarveAdds(s: Space, i: nat, need: nat, k: nat)
    requires i < |s.free| && 0 < need <= s.free[i].len && s.free[i].addr + need < 0x1_0000_0000_0000_0000
    requires k < |s.Carve(i, need)|
    ensures var e, f := s.free[i], s.Carve(i, need)[k];
      if e.len > need && k == i then f == Extent(e.addr + need, e.len - need)
      else exists j :: 0 <= j < |s.free| && j != i && s.free[j] == f
  {
    var e := s.free[i];
    if !(e.len > need && k == i) {
      var j := if e.len == need && k >= i then k + 1 else k;
      assert s.free[j] == s.Carve(i, need)[k];
    }
  }

  lemma CarveOnly(s: Space, i: nat, need: nat)
    requires s.Valid() && i < |s.free| && 0 < need <= s.free[i].len
    ensures s.free[i].addr + need < 0x1_0000_0000_0000_0000
    ensures OnlyShrinks(s.free, s.free[i], need, s.Carve(i, need))
  {
    var e := s.free[i];
    InBounds(s, i);
    hide Space.Carve, Space.Valid;
    var free := s.Carve(i, need);
    forall f | f in s.free && f != e
      ensures f in free
    {
      var j :| 0 <= j < |s.free| && s.free[j] == f;
      CarveKeeps(s, i, need, j);
    }
    forall f | f in free
      ensures f != e && (f in s.free || (f.addr == e.addr + need && f.len == e.len - need))
    {
      var k :| 0 <= k < |free| && free[k] == f;
      CarveAdds(s, i, need, k);
      if !(e.len > need && k == i) {
        var j :| 0 <= j < |s.free| && j != i && s.free[j] == f;
        Ordered(s, i, j);
        InBounds(s, j);
      }
    }
    if e.len > need { CarveRest(s, i, need); }
  }

  lemma CarveRest(s: Space, i: nat, need: nat)
    requires i < |s.free| && need < s.free[i].len && s.free[i].addr + need < 0x1_0000_0000_0000_0000
    ensures Extent(s.free[i].addr + need, s.free[i].len - need) in s.Carve(i, need)
  {
    assert s.Carve(i, need)[i] == Extent(s.free[i].addr + need, s.free[i].len - need);
  }

  /** First fit: some free extent fits or none does, and a success takes the lowest or appends. */
  lemma AllocateLowest(s: Space, len: nat)
    requires s.Valid() && len > 0 && s.Allocate(len).1.Ok?
    ensures TakesLowest(s, s.Aligned(len), s.Allocate(len).0, s.Allocate(len).1.value)
    ensures (exists e :: LowestFit(s.free, s.Aligned(len), e)) || forall e :: e in s.free ==> e.len < s.Aligned(len)
  {
    hide OnlyShrinks, Multiple;
    var need := s.Aligned(len);
    var i := s.FirstFit(need, 0);
    if i < |s.free| {
      var e := s.free[i];
      forall f | f in s.free && f.len >= need
        ensures e.addr <= f.addr && (f.addr == e.addr ==> f == e)
      {
        var j :| 0 <= j < |s.free| && s.free[j] == f;
        InBounds(s, i);
        Ordered(s, i, j);
      }
      assert LowestFit(s.free, need, e);
      CarveOnly(s, i, need);
    }
  }

  /** The outcome of a request for `len` bytes is first fit. */
  ghost predicate FirstFits(s: Space, len: nat, after: (Space, Result<u64>))
    requires s.unit > 0
  {
    after.1.Ok? ==> TakesLowest(s, s.Aligned(len), after.0, after.1.value)
  }

  lemma NothingAsked(s: Space)
    requires s.Valid()
    ensures s.Allocate(0).1.Err?
  {
  }

  lemma AllocateFirstFits(s: Space, len: nat)
    requires s.Valid()
    ensures s.unit > 0 && FirstFits(s, len, s.Allocate(len))
  {
    hide TakesLowest, Space.Allocate;
    assert s.unit > 0;
    if len == 0 {
      NothingAsked(s);
    } else if s.Allocate(len).1.Ok? {
      AllocateLowest(s, len);
    }
  }

  // ----- runs of allocations -----

  /** The state and the extents handed out by a sequence of requests, failures included. */
  function AllocateAll(s: Space, lens: seq<nat>): (r: (Space, seq<Extent>))
    requires s.Valid() && forall k :: 0 <= k < |lens| ==> lens[k] > 0
    ensures r.0.Valid() && r.0.unit == s.unit
    ensures forall k :: 0 <= k < |r.1| ==> r.1[k].addr + r.1[k].len <= s.deviceSize
    decreases |lens|
  {
    if lens == [] then (s, [])
    else
      AllocateSound(s, lens[0]);
      var (s1, r1) := s.Allocate(lens[0]);
      var (s2, rest) := AllocateAll(s1, lens[1..]);
      match r1
      case Ok(addr) => (s2, [Extent(addr, s.Aligned(lens[0]))] + rest)
      case Err(_) => (s2, rest)
  }

  ghost predicate HandedOut(s: Space, s': Space, e: Extent) {
    && s.unit > 0 && Multiple(e.addr, s.unit) && Multiple(e.len, s.unit)
    && e.len > 0 && DATA_START <= e.addr && e.addr + e.len <= s.deviceSize
    && forall x {:trigger Within(x, e.addr, e.len)} :: Within(x, e.addr, e.len) ==>
         s.Available(x) && !s'.Available(x)
  }

  predicate Apart(a: Extent, b: Extent) {
    a.addr + a.len <= b.addr || b.addr + b.len <= a.addr
  }

  lemma DisjointFromHandedOut(s: Space, s': Space, a: Extent, b: Extent)
    requires HandedOut(s, s', b) && a.len > 0
    requires forall x :: Within(x, a.addr, a.len) ==> !s.Available(x)
    ensures Apart(a, b)
  {
    if !Apart(a, b) {
      var x := Max(a.addr, b.addr);
      assert Within(x, a.addr, a.len) && Within(x, b.addr, b.len);
    }
  }

  /** Over any run of requests the extents handed out are aligned, in range, pairwise
      disjoint and never offered again, and the room left falls by exactly their total. */
  lemma {:induction false} RunSound(s: Space, lens: seq<nat>)
    requires s.Valid() && forall k :: 0 <= k < |lens| ==> lens[k] > 0
    ensures var (s', es) := AllocateAll(s, lens);
            && (forall k {:trigger es[k]} :: 0 <= k < |es| ==> HandedOut(s, s', es[k]))
            && (forall j, k {:trigger es[j], es[k]} :: 0 <= j < k < |es| ==> Apart(es[j], es[k]))
            && (forall x {:trigger s'.Available(x)} :: s'.Available(x) ==> s.Available(x))
            && s'.Room() + SumLen(es) == s.Room()
            && s'.deviceSize == s.deviceSize
    decreases |lens|
  {
    if lens != [] {
      hide Space.Allocate, Space.Available;
      AllocateSound(s, lens[0]);
      var (s1, r1) := s.Allocate(lens[0]);
      RunSound(s1, lens[1..]);
      var (s2, rest) := AllocateAll(s1, lens[1..]);
      if r1.Ok? {
        var e := Extent(r1.value, s.Aligned(lens[0]));
        assert AllocateAll(s, lens) == (s2, [e] + rest);
        assert HandedOut(s, s2, e);
        OneMore(s, s1, s2, e, rest);
      }
    }
  }

  /** A first extent, and those handed out after it. */
  lemma OneMore(s: Space, s1: Space, s2: Space, e: Extent, rest: seq<Extent>)
    requires TakesExactly(s, s1, e.addr, e.len) && HandedOut(s, s2, e) && s.deviceSize == s1.deviceSize
    requires forall k {:trigger rest[k]} :: 0 <= k < |rest| ==> HandedOut(s1, s2, rest[k])
    requires forall j, k {:trigger rest[j], rest[k]} :: 0 <= j < k < |rest| ==> Apart(rest[j], rest[k])
    requires s.unit == s1.unit
    ensures var es := [e] + rest;
      && (forall k {:trigger es[k]} :: 0 <= k < |es| ==> HandedOut(s, s2, es[k]))
      && (forall j, k {:trigger es[j], es[k]} :: 0 <= j < k < |es| ==> Apart(es[j], es[k]))
      && SumLen(es) == e.len + SumLen(rest)
  {
    hide Space.Available, Multiple;
    var es := [e] + rest;
    assert es[1..] == rest;
    forall k | 0 <= k < |es|
      ensures HandedOut(s, s2, es[k])
    {
      if k > 0 { assert HandedOut(s1, s2, rest[k - 1]); }
    }
    forall j, k | 0 <= j < k < |es|
      ensures Apart(es[j], es[k])
    {
      if j == 0 {
        DisjointFromHandedOut(s1, s2, e, rest[k - 1]);
      } else {
        assert es[j] == rest[j - 1] && es[k] == rest[k - 1];
      }
    }
  }

  lemma {:induction false} OneRequestMore(s: Space, lens: seq<nat>, len: nat)
    requires s.Valid() && len > 0 && forall k :: 0 <= k < |lens| ==> lens[k] > 0
    ensures AllocateAll(s, lens + [len]).0 == AllocateAll(s, lens).0.Allocate(len).0
    decreases |lens|
  {
    hide Space.Allocate;
    if lens == [] {
      AllocateSound(s, len);
      assert (lens + [len])[1..] == [];
    } else {
      AllocateSound(s, lens[0]);
      assert (lens + [len])[1..] == lens[1..] + [len] && (lens + [len])[0] == lens[0];
      OneRequestMore(s.Allocate(lens[0]).0, lens[1..], len);
    }
  }

  /** Over any run of requests the frontier moves only for one that no free extent fits, and
      the free list changes only for one that some free extent fits. */
  lemma FrontierLast(s: Space, lens: seq<nat>, k: nat)
    requires s.Valid() && k < |lens| && forall j :: 0 <= j < |lens| ==> lens[j] > 0
    ensures var a, b := AllocateAll(s, lens[..k]).0, AllocateAll(s, lens[..k + 1]).0;
      && (b.frontier != a.frontier ==> forall e :: e in a.free ==> e.len < a.Aligned(lens[k]))
      && (b.free != a.free ==> exists e :: LowestFit(a.free, a.Aligned(lens[k]), e))
  {
    hide Space.Allocate, AllocateAll, OnlyShrinks, Space.Aligned;
    assert lens[..k + 1] == lens[..k] + [lens[k]];
    OneRequestMore(s, lens[..k], lens[k]);
    var a := AllocateAll(s, lens[..k]).0;
    AllocateSound(a, lens[k]);
    if a.Allocate(lens[k]).1.Ok? { AllocateLowest(a, lens[k]); }
  }

  /** The allocator itself: two fields that each call updates in place. */
  class Allocator {
    const unit: u64
    const deviceSize: u64
    var frontier: u64
    var free: seq<Extent>

    ghost function State(): Space
      reads this
    {
      Space(unit, deviceSize, frontier, free)
    }

    ghost predicate Valid()
      reads this
    {
      State().Valid()
    }

    constructor (unit: u64, deviceSize: u64, frontier: u64)
      ensures State() == Space(unit, deviceSize, frontier, [])
    {
      this.unit, this.deviceSize, this.frontier, this.free := unit, deviceSize, frontier, [];
    }

    method Allocate(len: u64) returns (r: Result<u64>)
      requires Valid()
      requires State().Aligned(len) < 0x1_0000_0000_0000_0000
      modifies this`frontier, this`free
      ensures (State(), r) == old(State().Allocate(len))
      ensures Valid()
      ensures FirstFits(old(State()), len, (State(), r))
    {
      hide FirstFits, Space.Available, Space.Room;
      ghost var s := State();
      AllocateFirstFits(s, len);
      if len == 0 {
        return Err(Corrupt(ZeroAllocation));
      }
      assert s.Allocate(len).0.Valid() by { AllocateSound(s, len); }
      var need: u64 := DivCeil(len, unit) * unit;
      assert need == s.Aligned(len);
      hide Space.Aligned;
      var i := 0;
      while i < |free|
        invariant 0 <= i <= |free| && State() == s
        invariant s.FirstFit(need, 0) == s.FirstFit(need, i)
      {
        if free[i].len >= need {
          assert s.FreeExtentOk(s.free[i]);
          var addr := free[i].addr;
          free := free[i := Extent(addr + need, free[i].len - need)];
          if free[i].len == 0 {
            free := free[..i] + free[i + 1..];
          }
          assert free == s.Carve(i, need);
          return Ok(addr);
        }
        i := i + 1;
      }
      var addr := frontier;
      if addr + need > deviceSize {
        return Err(NoSpace);
      }
      frontier := addr + need;
      return Ok(addr);
    }

    /** Replace the free list by what garbage collection found. */
    method SetFree(extents: seq<Extent>)
      modifies this`free
      ensures State() == old(State()).(free := extents)
    {
      free := extents;
    }
  }
}
