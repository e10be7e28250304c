/**
  The lowerer of compose-time configuration: it lays values down in a growing arena of
  bytes, remembering where arena-relative pointers sit, and its memory layout step rebases
  each of those pointers once.
*/
module Lowering {
  import opened Bytes
  import opened Utf8
  import opened CanonicalAbi
  import opened Baking
  import opened Flattening

  ghost predicate BlankAt(cells: seq<Cell>, off: nat, n: nat) {
    off + n <= |cells| && forall i {:trigger cells[i]} :: off <= i < off + n ==> cells[i] == Lit(0)
  }

  // ----- bytes and relocations that stand for cells -----

  ghost predicate PointerAt(arena: seq<byte>, cells: seq<Cell>, r: nat) {
    && |arena| == |cells|
    && r + 4 <= |cells|
    && cells[r].Rel?
    && cells[r].target <= |arena|
    && cells[r..r + 4] == Pointer(cells[r].target)
    && arena[r..r + 4] == Le(cells[r].target, 4)
  }

  ghost predicate StandsAt(arena: seq<byte>, relocs: seq<nat>, cells: seq<Cell>, i: nat)
    requires i < |arena| == |cells|
  {
    match cells[i]
    case Lit(b) => arena[i] == b
    case Rel(_, k) => k < 4 && k <= i && i - k in relocs
  }

  ghost predicate Represents(arena: seq<byte>, relocs: seq<nat>, cells: seq<Cell>) {
    && |arena| == |cells|
    && (forall j {:trigger relocs[j]} :: 0 <= j < |relocs| ==> PointerAt(arena, cells, relocs[j]))
    && (forall i, j {:trigger relocs[i], relocs[j]} :: 0 <= i < j < |relocs| ==> relocs[i] != relocs[j])
    && (forall i {:trigger cells[i]} :: 0 <= i < |cells| ==> StandsAt(arena, relocs, cells, i))
  }

  lemma GrowPointer(arena: seq<byte>, cells: seq<Cell>, n: nat, r: nat)
    requires PointerAt(arena, cells, r)
    ensures PointerAt(arena + Zeros(n), cells + Blank(n), r)
  {
    hide Pointer, Le;
    assert (cells + Blank(n))[r..r + 4] == cells[r..r + 4];
    assert (arena + Zeros(n))[r..r + 4] == arena[r..r + 4];
    assert (cells + Blank(n))[r] == cells[r];
  }

  lemma Grow(arena: seq<byte>, relocs: seq<nat>, cells: seq<Cell>, n: nat)
    requires Represents(arena, relocs, cells)
    ensures Represents(arena + Zeros(n), relocs, cells + Blank(n))
  {
    hide PointerAt;
    var bytes, wider := arena + Zeros(n), cells + Blank(n);
    forall j | 0 <= j < |relocs|
      ensures PointerAt(bytes, wider, relocs[j])
    {
      GrowPointer(arena, cells, n, relocs[j]);
    }
    forall i | 0 <= i < |wider|
      ensures StandsAt(bytes, relocs, wider, i)
    {
      if i < |cells| {
        assert StandsAt(arena, relocs, cells, i);
      }
    }
  }

  lemma PointerCells(arena: seq<byte>, cells: seq<Cell>, r: nat)
    requires PointerAt(arena, cells, r)
    ensures forall i :: r <= i < r + 4 ==> cells[i].Rel?
  {
    forall i | r <= i < r + 4
      ensures cells[i].Rel?
    {
      assert cells[i] == cells[r..r + 4][i - r];
    }
  }

  /** A pointer's cells are all relocated, so it lies apart from any blank stretch. */
  lemma PointerApart(arena: seq<byte>, cells: seq<Cell>, r: nat, off: nat, n: nat)
    requires PointerAt(arena, cells, r) && BlankAt(cells, off, n)
    ensures n == 0 || r + 4 <= off || off + n <= r
  {
    PointerCells(arena, cells, r);
    var atPointer := cells[r];
    var atBlank := if off < |cells| then cells[off] else Lit(0);
    if n > 0 && off < r + 4 && r < off + n {
      assert false;
    }
  }

  lemma PointerKept(arena: seq<byte>, cells: seq<Cell>, r: nat, off: nat, bytes: seq<byte>, over: seq<Cell>)
    requires PointerAt(arena, cells, r) && BlankAt(cells, off, |bytes|) && |over| == |bytes|
    ensures PointerAt(Patch(arena, off, bytes), Patch(cells, off, over), r)
  {
    hide Pointer, Le;
    PointerApart(arena, cells, r, off, |bytes|);
    assert Patch(cells, off, over)[r..r + 4] == cells[r..r + 4];
    assert Patch(arena, off, bytes)[r..r + 4] == arena[r..r + 4];
    assert Patch(cells, off, over)[r] == cells[r];
  }

  lemma WriteKeeps(arena: seq<byte>, relocs: seq<nat>, cells: seq<Cell>, off: nat, bytes: seq<byte>)
    requires Represents(arena, relocs, cells) && BlankAt(cells, off, |bytes|)
    ensures Represents(Patch(arena, off, bytes), relocs, Patch(cells, off, Lits(bytes)))
  {
    hide PointerAt, BlankAt, Patch;
    assert off + |bytes| <= |cells| by { BlankInside(cells, off, |bytes|); }
    var over := Patch(cells, off, Lits(bytes));
    forall j | 0 <= j < |relocs|
      ensures PointerAt(Patch(arena, off, bytes), over, relocs[j])
    {
      PointerKept(arena, cells, relocs[j], off, bytes, Lits(bytes));
    }
    forall i | 0 <= i < |over|
      ensures StandsAt(Patch(arena, off, bytes), relocs, over, i)
    {
      assert StandsAt(arena, relocs, cells, i);
    }
  }

  lemma BlankInside(cells: seq<Cell>, off: nat, n: nat)
    requires BlankAt(cells, off, n)
    ensures off + n <= |cells|
  {
  }

  lemma PointerMade(arena: seq<byte>, cells: seq<Cell>, off: nat, target: nat)
    requires |arena| == |cells| && off + 4 <= |cells| && target <= |arena|
    ensures PointerAt(Patch(arena, off, Le(target, 4)), Patch(cells, off, Pointer(target)), off)
  {
    hide Le;
    var over := Patch(cells, off, Pointer(target));
    assert over[off..off + 4] == Pointer(target);
    assert over[off] == Pointer(target)[0];
  }

  lemma PointerStands(arena: seq<byte>, relocs: seq<nat>, cells: seq<Cell>, off: nat, target: nat, i: nat)
    requires i < |arena| == |cells| && off + 4 <= |cells|
    requires StandsAt(arena, relocs, cells, i)
    ensures StandsAt(Patch(arena, off, Le(target, 4)), relocs + [off], Patch(cells, off, Pointer(target)), i)
  {
    hide Le;
    var more := relocs + [off];
    assert more[|relocs|] == off;
    if cells[i].Rel? {
      var j :| 0 <= j < |relocs| && relocs[j] == i - cells[i].k;
      assert more[j] == relocs[j];
    }
  }

  lemma PointerKeeps(arena: seq<byte>, relocs: seq<nat>, cells: seq<Cell>, off: nat, target: nat)
    requires Represents(arena, relocs, cells) && BlankAt(cells, off, 4) && target <= |arena|
    ensures Represents(Patch(arena, off, Le(target, 4)), relocs + [off], Patch(cells, off, Pointer(target)))
  {
    hide Le, PointerAt, StandsAt, Patch, Pointer;
    BlankInside(cells, off, 4);
    var bytes := Patch(arena, off, Le(target, 4));
    var over := Patch(cells, off, Pointer(target));
    var more := relocs + [off];
    forall j | 0 <= j < |more|
      ensures PointerAt(bytes, over, more[j])
    {
      if j < |relocs| {
        PointerKept(arena, cells, relocs[j], off, Le(target, 4), Pointer(target));
      } else {
        PointerMade(arena, cells, off, target);
      }
    }
    forall j | 0 <= j < |relocs|
      ensures relocs[j] != off
    {
      PointerApart(arena, cells, relocs[j], off, 4);
    }
    forall i | 0 <= i < |over|
      ensures StandsAt(bytes, more, over, i)
    {
      var _ := cells[i];
      PointerStands(arena, relocs, cells, off, target, i);
    }
  }

  // ----- rows of slots being filled in -----

  /** A row of slots, filled up to a point and blank for the `n` cells after it. */
  function Row(front: seq<Cell>, slots: seq<Cell>, n: nat, back: seq<Cell>): seq<Cell> {
    front + slots + Blank(n) + back
  }

  lemma RowBlank(front: seq<Cell>, slots: seq<Cell>, n: nat, back: seq<Cell>, k: nat)
    requires k <= n
    ensures BlankAt(Row(front, slots, n, back), |front| + |slots|, k)
    ensures |Row(front, slots, n, back)| == |front| + |slots| + n + |back|
  {
  }

  lemma RowSkip(front: seq<Cell>, slots: seq<Cell>, n: nat, back: seq<Cell>, k: nat)
    requires k <= n
    ensures Row(front, slots, n, back) == Row(front, slots + Blank(k), n - k, back)
  {
    assert Blank(n) == Blank(k) + Blank(n - k);
    SeqAssoc(front, slots, Blank(k), Blank(n - k), back);
  }

  lemma SeqAssoc(a: seq<Cell>, b: seq<Cell>, c: seq<Cell>, d: seq<Cell>, e: seq<Cell>)
    ensures a + b + (c + d) + e == a + (b + c) + d + e
  {
  }

  lemma RowStep(front: seq<Cell>, slots: seq<Cell>, n: nat, back: seq<Cell>, slot: seq<Cell>, body: seq<Cell>)
    requires |slot| <= n
    ensures Patch(Row(front, slots, n, back), |front| + |slots|, slot) + body
         == Row(front, slots + slot, n - |slot|, back + body)
  {
    var row := Row(front, slots, n, back);
    var at := |front| + |slots|;
    assert row[..at] == front + slots;
    assert row[at + |slot|..] == Blank(n - |slot|) + back;
    assert front + (slots + slot) == front + slots + slot;
  }

  /** A blank stretch is an empty row. */
  lemma RowStart(was: seq<Cell>, off: nat, n: nat)
    requires BlankAt(was, off, n)
    ensures was == Row(was[..off], [], n, was[off + n..])
  {
    assert was[off..off + n] == Blank(n);
  }

  lemma RowDone(was: seq<Cell>, off: nat, n: nat, slots: seq<Cell>, body: seq<Cell>)
    requires BlankAt(was, off, n) && |slots| <= n
    ensures Row(was[..off], slots, n - |slots|, was[off + n..] + body)
         == Patch(was, off, slots + Blank(n - |slots|)) + body
  {
    assert was[..off] + slots + Blank(n - |slots|) == was[..off] + (slots + Blank(n - |slots|));
  }

  lemma RowFresh(was: seq<Cell>, pad: nat, n: nat)
    ensures was + Blank(pad + n) == Row(was + Blank(pad), [], n, [])
  {
    assert Blank(pad + n) == Blank(pad) + Blank(n);
  }

  lemma RowFull(was: seq<Cell>, pad: seq<Cell>, slots: seq<Cell>, back: seq<Cell>)
    ensures Row(was + pad, slots, 0, back) == was + (pad + slots + back)
  {
  }

  /** Splitting the next element off what is still to be stored. */
  lemma ElemsStep(vs: seq<Val>, e: Ty, i: nat, end: nat, done: Piece, all: Piece)
    requires i < |vs| && AllFitElem(vs[i..], e)
    requires all == done.Then(EncElems(vs[i..], e, end + |done.body|))
    ensures Fits(vs[i], e) && AllFitElem(vs[i + 1..], e)
    ensures var first := Enc(vs[i], e, end + |done.body|);
      && all == done.Then(first).Then(EncElems(vs[i + 1..], e, end + |done.Then(first).body|))
  {
    hide Enc, HasType, WellFormed, Size, Span;
    assert vs[i..][1..] == vs[i + 1..] && vs[i..][0] == vs[i];
    var first := Enc(vs[i], e, end + |done.body|);
    ThenAssoc(done, first, EncElems(vs[i + 1..], e, end + |done.body| + |first.body|));
  }

  lemma ThenAssoc(a: Piece, b: Piece, c: Piece)
    ensures a.Then(b.Then(c)) == a.Then(b).Then(c)
  {
  }

  lemma ElemsDone(vs: seq<Val>, e: Ty, end: nat, done: Piece, all: Piece)
    requires AllFitElem(vs[|vs|..], e)
    requires all == done.Then(EncElems(vs[|vs|..], e, end + |done.body|))
    ensures all == done
  {
    assert vs[|vs|..] == [];
  }

  lemma ListBody(vs: seq<Val>, e: Ty, end: nat)
    requires AllFitElem(vs, e)
    ensures var first := AlignUp(end, Align(e));
      var inner := EncElems(vs, e, first + Span(|vs|, Size(e)));
      && EncList(vs, e, end).body == Blank(first - end) + inner.slot + inner.body
      && |EncList(vs, e, end).body| == first - end + Span(|vs|, Size(e)) + |inner.body|
  {
    hide EncElems, AlignUp, Align, Size, Span;
  }

  lemma FieldsUnfold(vs: seq<Val>, tys: seq<Ty>, at: nat, end: nat)
    requires AllFit(vs, tys) && tys != []
    ensures AllFit(vs[1..], tys[1..]) && Fits(vs[0], tys[0])
    ensures var here := AlignUp(at, Align(tys[0]));
      var first := Enc(vs[0], tys[0], end);
      && FieldsEnd(tys, at) == FieldsEnd(tys[1..], here + Size(tys[0]))
      && EncFields(vs, tys, at, end) == Piece(Blank(here - at), []).Then(first).Then(
           EncFields(vs[1..], tys[1..], here + Size(tys[0]), end + |first.body|))
  {
    hide Enc, HasType, WellFormed, Size, Align, AlignUp, Blank, Piece.Then;
  }

  lemma PadJoin(done: Piece, pad: seq<Cell>, first: Piece, rest: Piece)
    ensures done.Then(Piece(pad, []).Then(first).Then(rest)) == Piece(done.slot + pad, done.body).Then(first).Then(rest)
  {
    assert done.slot + (pad + first.slot + rest.slot) == done.slot + pad + first.slot + rest.slot;
    assert done.body + ([] + first.body + rest.body) == done.body + first.body + rest.body;
  }

  lemma {:induction false} SameCount(vs: seq<Val>, tys: seq<Ty>)
    requires AllFit(vs, tys)
    ensures |vs| == |tys|
  {
  }

  // ----- how far the arena reaches after the first few values -----

  lemma {:induction false} FitPrefix(vs: seq<Val>, tys: seq<Ty>, k: nat)
    requires AllFit(vs, tys) && k <= |tys|
    ensures |vs| == |tys| && AllFit(vs[..k], tys[..k])
  {
    hide WellFormed, HasType;
    if k > 0 {
      FitPrefix(vs[1..], tys[1..], k - 1);
      assert vs[..k][1..] == vs[1..][..k - 1] && tys[..k][1..] == tys[1..][..k - 1];
    }
  }

  /** The arena's length once the first `k` fields of a record are stored. */
  ghost function FieldsTo(vs: seq<Val>, tys: seq<Ty>, k: nat, end: nat): nat
    requires AllFit(vs, tys) && k <= |tys|
  {
    FitPrefix(vs, tys, k);
    end + |EncFields(vs[..k], tys[..k], 0, end).body|
  }

  /** The arena's length once the first `k` parameters are lowered flat. */
  ghost function FlatsTo(vs: seq<Val>, tys: seq<Ty>, k: nat, end: nat): nat
    requires AllFit(vs, tys) && k <= |tys|
  {
    FitPrefix(vs, tys, k);
    end + |EncFlatAll(vs[..k], tys[..k], end).body|
  }

  lemma {:induction false} FieldsBody(vs: seq<Val>, tys: seq<Ty>, v: Val, ty: Ty, at: nat, end: nat)
    requires AllFit(vs, tys) && AllFit(vs + [v], tys + [ty]) && Fits(v, ty)
    ensures var before := EncFields(vs, tys, at, end).body;
      EncFields(vs + [v], tys + [ty], at, end).body == before + Enc(v, ty, end + |before|).body
    decreases |tys|
  {
    hide Enc, EncFields, FieldsEnd, AllFit, Fits, Size, Align, AlignUp, Blank;
    SameCount(vs, tys);
    FieldsUnfold(vs + [v], tys + [ty], at, end);
    if tys == [] {
      assert [v][1..] == [] && [ty][1..] == [] && vs + [v] == [v] && tys + [ty] == [ty];
      NoFields(AlignUp(at, Align(ty)) + Size(ty), end + |Enc(v, ty, end).body|);
      NoFields(at, end);
    } else {
      FieldsUnfold(vs, tys, at, end);
      assert (vs + [v])[1..] == vs[1..] + [v] && (tys + [ty])[1..] == tys[1..] + [ty];
      var first := Enc(vs[0], tys[0], end);
      FieldsBody(vs[1..], tys[1..], v, ty, AlignUp(at, Align(tys[0])) + Size(tys[0]), end + |first.body|);
    }
  }

  lemma NoFields(at: nat, end: nat)
    ensures AllFit([], []) && EncFields([], [], at, end) == Piece([], [])
  {
  }

  lemma {:induction false} FlatBody(vs: seq<Val>, tys: seq<Ty>, v: Val, ty: Ty, end: nat)
    requires AllFit(vs, tys) && AllFit(vs + [v], tys + [ty]) && Fits(v, ty)
    ensures var before := EncFlatAll(vs, tys, end).body;
      EncFlatAll(vs + [v], tys + [ty], end).body == before + EncFlat(v, ty, end + |before|).body
    decreases |tys|
  {
    hide EncFlat, EncFlatAll, AllFit, Fits, FlatTypes, FlatAll, KindsAre;
    SameCount(vs, tys);
    FlatUnfold(vs + [v], tys + [ty], end);
    if tys == [] {
      assert [v][1..] == [] && [ty][1..] == [] && vs + [v] == [v] && tys + [ty] == [ty];
      NoFlats(end + |EncFlat(v, ty, end).body|);
      NoFlats(end);
    } else {
      FlatUnfold(vs, tys, end);
      assert (vs + [v])[1..] == vs[1..] + [v] && (tys + [ty])[1..] == tys[1..] + [ty];
      FlatBody(vs[1..], tys[1..], v, ty, end + |EncFlat(vs[0], tys[0], end).body|);
    }
  }

  lemma NoFlats(end: nat)
    ensures AllFit([], []) && EncFlatAll([], [], end) == FlatPiece([], [])
  {
  }

  lemma FieldsToNext(vs: seq<Val>, tys: seq<Ty>, k: nat, end: nat)
    requires AllFit(vs, tys) && k < |tys| == |vs| && Fits(vs[k], tys[k])
    ensures var reach := FieldsTo(vs, tys, k, end);
      FieldsTo(vs, tys, k + 1, end) == reach + |Enc(vs[k], tys[k], reach).body|
  {
    hide Enc, EncFields, AllFit, Fits;
    FitPrefix(vs, tys, k);
    FitPrefix(vs, tys, k + 1);
    assert vs[..k + 1] == vs[..k] + [vs[k]] && tys[..k + 1] == tys[..k] + [tys[k]];
    FieldsBody(vs[..k], tys[..k], vs[k], tys[k], 0, end);
  }

  lemma FlatsToNext(vs: seq<Val>, tys: seq<Ty>, k: nat, end: nat)
    requires AllFit(vs, tys) && k < |tys| == |vs| && Fits(vs[k], tys[k])
    ensures var reach := FlatsTo(vs, tys, k, end);
      FlatsTo(vs, tys, k + 1, end) == reach + |EncFlat(vs[k], tys[k], reach).body|
  {
    hide EncFlat, EncFlatAll, AllFit, Fits, FlatTypes, FlatAll, KindsAre;
    FitPrefix(vs, tys, k);
    FitPrefix(vs, tys, k + 1);
    assert vs[..k + 1] == vs[..k] + [vs[k]] && tys[..k + 1] == tys[..k] + [tys[k]];
    FlatBody(vs[..k], tys[..k], vs[k], tys[k], end);
  }

  lemma {:induction false} FitAt(vs: seq<Val>, tys: seq<Ty>, k: nat)
    requires AllFit(vs, tys) && k < |tys|
    ensures |vs| == |tys| && Fits(vs[k], tys[k])
  {
    hide WellFormed, HasType;
    if k > 0 { FitAt(vs[1..], tys[1..], k - 1); }
  }

  /** The arena only grows, so the first value that takes it past a limit is unique. */
  lemma {:induction false} ReachGrows(vs: seq<Val>, tys: seq<Ty>, j: nat, k: nat, end: nat)
    requires AllFit(vs, tys) && j <= k <= |tys|
    ensures FieldsTo(vs, tys, j, end) <= FieldsTo(vs, tys, k, end) && FlatsTo(vs, tys, j, end) <= FlatsTo(vs, tys, k, end)
    decreases k
  {
    hide AllFit, Fits, FieldsTo, FlatsTo, Enc, EncFlat, KindsAre, FlatTypes;
    if j < k {
      ReachGrows(vs, tys, j, k - 1, end);
      FitAt(vs, tys, k - 1);
      FieldsToNext(vs, tys, k - 1, end);
      FlatsToNext(vs, tys, k - 1, end);
    }
  }

  lemma NothingYet(vs: seq<Val>, tys: seq<Ty>, end: nat)
    requires AllFit(vs, tys)
    ensures FieldsTo(vs, tys, 0, end) == end && FlatsTo(vs, tys, 0, end) == end
  {
    hide AllFit, EncFields, EncFlatAll, KindsAre, FlatAll;
    FitPrefix(vs, tys, 0);
    assert vs[..0] == [] && tys[..0] == [];
    NoFields(0, end);
    NoFlats(end);
  }

  // ----- a record half stored -----

  /** The first `i` fields are laid out as `done`, up to offset `at`, of all that `all` holds. */
  ghost predicate Midway(vs: seq<Val>, tys: seq<Ty>, i: nat, at: nat, end: nat, done: Piece, all: Piece)
    requires AllFit(vs, tys)
  {
    && i <= |tys| == |vs| && AllFit(vs[i..], tys[i..])
    && |done.slot| == at && FieldsEnd(tys[i..], at) == FieldsEnd(tys, 0)
    && all == done.Then(EncFields(vs[i..], tys[i..], at, end + |done.body|))
    && end + |done.body| == FieldsTo(vs, tys, i, end)
  }

  lemma MidwayStarts(vs: seq<Val>, tys: seq<Ty>, end: nat)
    requires AllFit(vs, tys)
    ensures Midway(vs, tys, 0, 0, end, Piece([], []), EncFields(vs, tys, 0, end))
  {
    hide AllFit, EncFields, FieldsEnd, FieldsTo;
    SameCount(vs, tys);
    NothingYet(vs, tys, end);
    assert vs[0..] == vs && tys[0..] == tys;
  }

  /** Splitting the next field off what is still to be stored. */
  lemma MidwayStep(vs: seq<Val>, tys: seq<Ty>, i: nat, at: nat, end: nat, done: Piece, all: Piece)
    requires AllFit(vs, tys) && Midway(vs, tys, i, at, end, done, all) && i < |tys|
    ensures |vs| == |tys| && Fits(vs[i], tys[i])
    ensures var here := AlignUp(at, Align(tys[i]));
      var first := Enc(vs[i], tys[i], end + |done.body|);
      var next := Piece(done.slot + Blank(here - at), done.body).Then(first);
      && here + Size(tys[i]) <= FieldsEnd(tys, 0) && |next.body| <= |all.body|
      && FieldsTo(vs, tys, i, end) == end + |done.body| && FieldsTo(vs, tys, i + 1, end) == end + |next.body|
      && Midway(vs, tys, i + 1, here + Size(tys[i]), end, next, all)
  {
    hide Enc, EncFields, FieldsEnd, AllFit, Fits, Size, Align, AlignUp, Blank, FieldsTo;
    FieldsUnfold(vs[i..], tys[i..], at, end + |done.body|);
    assert vs[i..][1..] == vs[i + 1..] && tys[i..][1..] == tys[i + 1..];
    assert vs[i..][0] == vs[i] && tys[i..][0] == tys[i];
    var here := AlignUp(at, Align(tys[i]));
    var first := Enc(vs[i], tys[i], end + |done.body|);
    var rest := EncFields(vs[i + 1..], tys[i + 1..], here + Size(tys[i]), end + |done.body| + |first.body|);
    PadJoin(done, Blank(here - at), first, rest);
    FieldsToNext(vs, tys, i, end);
  }

  lemma MidwayEnds(vs: seq<Val>, tys: seq<Ty>, at: nat, end: nat, done: Piece, all: Piece)
    requires AllFit(vs, tys) && Midway(vs, tys, |tys|, at, end, done, all)
    ensures all == done
  {
    hide FieldsTo, AllFit;
    assert vs[|tys|..] == [] && tys[|tys|..] == [];
  }

  lemma BlankLess(cells: seq<Cell>, off: nat, n: nat, m: nat)
    requires BlankAt(cells, off, n) && m <= n
    ensures BlankAt(cells, off, m)
  {
  }

  /** The index of an enum case by name. */
  method EnumDiscriminant(cases: seq<string>, name: string) returns (index: nat)
    requires name in cases
    ensures index == CaseIndex(cases, name)
  {
    index := 0;
    while cases[index] != name
      invariant index < |cases| && forall j :: 0 <= j < index ==> cases[j] != name
      invariant exists j :: index <= j < |cases| && cases[j] == name
      decreases |cases| - index
    {
      index := index + 1;
    }
  }

  /** A record's values in the order its type declares the fields, found by name. */
  method PickFields(labels: seq<string>, vals: seq<Val>, names: seq<string>) returns (picked: seq<Val>)
    requires |labels| == |vals| && Distinct(labels)
    requires forall i :: 0 <= i < |names| ==> names[i] in labels
    ensures |picked| == |names|
    ensures forall i, j :: 0 <= i < |names| && 0 <= j < |labels| && labels[j] == names[i] ==> picked[i] == vals[j]
  {
    picked := [];
    for i := 0 to |names|
      invariant |picked| == i
      invariant forall k, j :: 0 <= k < i && 0 <= j < |labels| && labels[j] == names[k] ==> picked[k] == vals[j]
    {
      var at := EnumDiscriminant(labels, names[i]);
      picked := picked + [vals[at]];
    }
  }

  /** Splitting the next parameter off what is still to be lowered. */
  lemma FlatStep(vs: seq<Val>, tys: seq<Ty>, i: nat, end: nat, done: FlatPiece, all: FlatPiece)
    requires i < |tys| == |vs| && AllFit(vs[i..], tys[i..])
    requires all == done.Then(EncFlatAll(vs[i..], tys[i..], end + |done.body|))
    ensures AllFit(vs[i + 1..], tys[i + 1..]) && Fits(vs[i], tys[i])
    ensures var first := EncFlat(vs[i], tys[i], end + |done.body|);
      var next := done.Then(first);
      all == next.Then(EncFlatAll(vs[i + 1..], tys[i + 1..], end + |next.body|))
  {
    hide EncFlat, EncFlatAll, AllFit, Fits, FlatTypes, FlatAll, KindsAre;
    FlatUnfold(vs[i..], tys[i..], end + |done.body|);
    assert vs[i..][1..] == vs[i + 1..] && tys[i..][1..] == tys[i + 1..];
    assert vs[i..][0] == vs[i] && tys[i..][0] == tys[i];
    var first := EncFlat(vs[i], tys[i], end + |done.body|);
    FlatJoin(done, first, EncFlatAll(vs[i + 1..], tys[i + 1..], end + |done.body| + |first.body|));
  }

  lemma FlatUnfold(vs: seq<Val>, tys: seq<Ty>, end: nat)
    requires AllFit(vs, tys) && tys != []
    ensures AllFit(vs[1..], tys[1..]) && Fits(vs[0], tys[0])
    ensures var first := EncFlat(vs[0], tys[0], end);
      EncFlatAll(vs, tys, end) == first.Then(EncFlatAll(vs[1..], tys[1..], end + |first.body|))
  {
    hide EncFlat, HasType, WellFormed, FlatTypes, FlatAll, KindsAre, FlatPiece.Then;
  }

  lemma FlatsAssoc(a: seq<FlatConst>, b: seq<FlatConst>, c: seq<FlatConst>)
    ensures a + b + c == a + (b + c)
  {
  }

  lemma FlatJoin(a: FlatPiece, b: FlatPiece, c: FlatPiece)
    ensures a.Then(b.Then(c)) == a.Then(b).Then(c)
  {
    assert a.flats + (b.flats + c.flats) == a.flats + b.flats + c.flats;
    assert a.body + (b.body + c.body) == a.body + b.body + c.body;
  }

  lemma FlatDone(vs: seq<Val>, tys: seq<Ty>, end: nat, done: FlatPiece, all: FlatPiece)
    requires |vs| == |tys| && AllFit(vs[|tys|..], tys[|tys|..])
    requires all == done.Then(EncFlatAll(vs[|tys|..], tys[|tys|..], end + |done.body|))
    ensures all == done
  {
    assert vs[|tys|..] == [] && tys[|tys|..] == [];
  }

  lemma PairStep(was: seq<Cell>, tail: seq<Cell>, off: nat, a: seq<Cell>, b: seq<Cell>)
    requires off + |a| + |b| <= |was|
    ensures Patch(Patch(was + tail, off, a), off + |a|, b) == Patch(was, off, a + b) + tail
  {
    assert Patch(was + tail, off, a)[..off + |a|] == was[..off] + a;
    assert Patch(was + tail, off, a)[off + |a| + |b|..] == was[off + |a| + |b|..] + tail;
  }

  lemma NoneStep(was: seq<Cell>, off: nat, size: nat)
    requires BlankAt(was, off, size) && size > 0
    ensures Patch(was, off, Lits([0])) == Patch(was, off, Blank(size)) + []
  {
  }

  lemma OptionParts(v: Val, p: Ty, end: nat)
    requires Fits(v, Opt(p))
    ensures AlignUp(1, Align(p)) + Size(p) <= Size(Opt(p))
    ensures v.inner == None ==> Enc(v, Opt(p), end) == Piece(Blank(Size(Opt(p))), [])
    ensures v.inner != None ==> Fits(v.inner.value, p) && Enc(v, Opt(p), end) == EncSome(v.inner.value, p, Size(Opt(p)), end)
  {
    hide AlignUp, Align, Blank, EncSome;
  }

  lemma PairParts(v: Val, ty: Ty, end: nat)
    requires Fits(v, ty) && (ty.Str? || ty.List?)
    ensures Size(ty) == 8
    ensures ty.Str? ==> v == VStr(v.text) && IsUtf8(v.text)
    ensures ty.List? ==> AllFitElem(v.elems, ty.elem) && Enc(v, ty, end) == EncList(v.elems, ty.elem, end)
  {
    hide EncList, IsUtf8;
  }

  lemma RecordParts(v: Val, names: seq<string>, fields: seq<Ty>, end: nat)
    requires Fits(v, Record(names, fields))
    ensures AllFit(v.vals, fields) && FieldsEnd(fields, 0) <= Size(Record(names, fields))
    ensures v.labels == names && |names| == |v.vals| && Distinct(names)
    ensures Enc(v, Record(names, fields), end) == EncRecord(v.vals, fields, Size(Record(names, fields)), end)
  {
    hide EncRecord, FieldsEnd, AlignUp;
    SameCount(v.vals, fields);
  }

  lemma TupleParts(v: Val, items: seq<Ty>, end: nat)
    requires Fits(v, Tuple(items))
    ensures AllFit(v.comps, items) && FieldsEnd(items, 0) <= Size(Tuple(items))
    ensures Enc(v, Tuple(items), end) == EncRecord(v.comps, items, Size(Tuple(items)), end)
  {
    hide EncRecord, FieldsEnd, AlignUp;
  }

  lemma SomeStep(was: seq<Cell>, off: nat, size: nat, at: nat, n: nat)
    requires BlankAt(was, off, size) && 0 < at && at + n <= size
    ensures BlankAt(Patch(was, off, Lits([1])), off + at, n)
    ensures |Patch(was, off, Lits([1]))| == |was|
  {
  }

  lemma SomeJoin(was: seq<Cell>, off: nat, size: nat, at: nat, slot: seq<Cell>)
    requires BlankAt(was, off, size) && 0 < at && at + |slot| <= size
    ensures Patch(Patch(was, off, Lits([1])), off + at, slot)
         == Patch(was, off, Lits([1]) + Blank(at - 1) + slot + Blank(size - at - |slot|))
  {
    var one := Patch(was, off, Lits([1]));
    assert one[..off + at] == was[..off] + (Lits([1]) + Blank(at - 1));
    assert one[off + at + |slot|..] == Blank(size - at - |slot|) + was[off + size..];
    SeqAssoc(was[..off], Lits([1]) + Blank(at - 1), slot, Blank(size - at - |slot|), was[off + size..]);
    assert was[..off] + (Lits([1]) + Blank(at - 1)) + slot + (Blank(size - at - |slot|) + was[off + size..])
        == was[..off] + (Lits([1]) + Blank(at - 1) + slot + Blank(size - at - |slot|)) + was[off + size..];
  }

  lemma StillBlank(was: seq<Cell>, tail: seq<Cell>, off: nat, n: nat, over: seq<Cell>)
    requires BlankAt(was, off, n) && |over| <= n
    ensures BlankAt(was + tail, off, n)
    ensures BlankAt(Patch(was + tail, off, over), off + |over|, n - |over|)
  {
  }

  // ----- the lowerer -----

  class Lowerer {
    var arena: seq<byte>
    var relocs: seq<nat>
    /** What the arena and its relocations stand for. */
    ghost var cells: seq<Cell>

    ghost predicate Valid()
      reads this
    {
      |arena| == |cells| <= ARENA_LIMIT && Represents(arena, relocs, cells)
    }

    constructor ()
      ensures Valid() && arena == [] && relocs == [] && cells == []
    {
      arena, relocs, cells := [], [], [];
    }

    /** Zero-filled room at the next aligned offset, unless the arena would grow too large. */
    method Reserve(size: nat, align: nat) returns (r: Option<nat>)
      requires Valid() && IsAlign(align)
      modifies this
      ensures Valid()
      ensures var at := AlignUp(|old(cells)|, align);
        if at + size <= ARENA_LIMIT
        then r == Some(at) && cells == old(cells) + Blank(at + size - |old(cells)|)
        else r == None && cells == old(cells)
    {
      hide Represents, Blank, Zeros, AlignUp;
      var padded := AlignUp(|arena|, align);
      var end := padded + size;
      if end > ARENA_LIMIT { return None; }
      Grow(arena, relocs, cells, end - |arena|);
      arena, cells := arena + Zeros(end - |arena|), cells + Blank(end - |arena|);
      return Some(padded);
    }

    method Write(offset: nat, bytes: seq<byte>)
      requires Valid() && BlankAt(cells, offset, |bytes|)
      modifies this`arena, this`cells
      ensures Valid() && cells == Patch(old(cells), offset, Lits(bytes))
    {
      WriteKeeps(arena, relocs, cells, offset, bytes);
      arena := Patch(arena, offset, bytes);
      cells := Patch(cells, offset, Lits(bytes));
    }

    /** An arena-relative pointer, and its relocation. */
    method WriteRelPtr(offset: nat, target: nat)
      requires Valid() && BlankAt(cells, offset, 4) && target <= |cells|
      modifies this
      ensures Valid() && cells == Patch(old(cells), offset, Pointer(target))
    {
      PointerKeeps(arena, relocs, cells, offset, target);
      arena := Patch(arena, offset, Le(target, 4));
      relocs := relocs + [offset];
      cells := Patch(cells, offset, Pointer(target));
    }

    method AppendString(text: seq<byte>) returns (r: Option<nat>)
      requires Valid()
      modifies this
      ensures r == None <==> |old(cells)| + |text| > ARENA_LIMIT
      ensures r != None ==> Valid() && r == Some(|old(cells)|) && cells == old(cells) + Lits(text)
    {
      r := Reserve(|text|, 1);
      if r != None {
        Write(r.value, text);
        assert cells == old(cells) + Lits(text);
      }
    }

    /** A list's elements, in a row reserved for them after `front`. */
    method StoreElems(vs: seq<Val>, e: Ty, ghost front: seq<Cell>, base: nat) returns (ok: bool)
      requires Valid() && AllFitElem(vs, e) && base == |front|
      requires cells == Row(front, [], Span(|vs|, Size(e)), [])
      modifies this
      ensures ok <==> |old(cells)| + |EncElems(vs, e, |old(cells)|).body| <= ARENA_LIMIT
      ensures ok ==>
        var p := EncElems(vs, e, |old(cells)|);
        Valid() && cells == Row(front, p.slot, 0, p.body)
      decreases e, 1
    {
      hide Represents, Size, Enc, EncElems, Span, Row, Patch, BlankAt, AllFitElem, Fits;
      ghost var tail := |cells|;
      ghost var all := EncElems(vs, e, tail);
      ghost var done := Piece([], []);
      SpanStep(0, Size(e));
      assert vs[0..] == vs;
      var i := 0;
      while i < |vs|
        invariant 0 <= i <= |vs| && Valid() && AllFitElem(vs[i..], e)
        invariant |done.slot| == Span(i, Size(e))
        invariant all == done.Then(EncElems(vs[i..], e, tail + |done.body|))
        invariant cells == Row(front, done.slot, Span(|vs| - i, Size(e)), done.body)
        invariant |cells| == tail + |done.body|
      {
        ElemsStep(vs, e, i, tail, done, all);
        ghost var first := Enc(vs[i], e, |cells|);
        ghost var left := Span(|vs| - i, Size(e));
        SpanStep(|vs| - i - 1, Size(e));
        SpanStep(i, Size(e));
        RowBlank(front, done.slot, left, done.body, Size(e));
        ok := Store(vs[i], e, base + Span(i, Size(e)));
        if !ok { return; }
        RowStep(front, done.slot, left, done.body, first.slot, first.body);
        done := done.Then(first);
        RowBlank(front, done.slot, Span(|vs| - i - 1, Size(e)), done.body, 0);
        i := i + 1;
      }
      ElemsDone(vs, e, tail, done, all);
      ok := true;
    }

    /** The elements at their own alignment, each followed at the end by what it appends. */
    method AppendList(vs: seq<Val>, e: Ty) returns (r: Option<nat>)
      requires Valid() && AllFitElem(vs, e)
      modifies this
      ensures r == None <==> |old(cells)| + |EncList(vs, e, |old(cells)|).body| > ARENA_LIMIT
      ensures r != None ==>
        && Valid() && r == Some(AlignUp(|old(cells)|, Align(e))) && r.value <= |cells|
        && cells == old(cells) + EncList(vs, e, |old(cells)|).body
      decreases e, 2
    {
      hide Represents, Size, Align, AlignUp, EncElems, EncList, Span, Row, Blank, AllFitElem;
      ghost var was := cells;
      ListBody(vs, e, |was|);
      r := Reserve(Span(|vs|, Size(e)), Align(e));
      if r == None { return; }
      ghost var pad := Blank(r.value - |was|);
      RowFresh(was, r.value - |was|, Span(|vs|, Size(e)));
      var ok := StoreElems(vs, e, was + pad, r.value);
      if !ok { return None; }
      ghost var all := EncElems(vs, e, r.value + Span(|vs|, Size(e)));
      RowFull(was, pad, all.slot, all.body);
      RowBlank(was + pad, all.slot, 0, all.body, 0);
    }

    /** One value at `off`, in room already reserved; what it contains is appended. */
    method Store(v: Val, ty: Ty, off: nat) returns (ok: bool)
      requires Valid() && Fits(v, ty) && BlankAt(cells, off, Size(ty))
      modifies this
      ensures ok <==> |old(cells)| + |Enc(v, ty, |old(cells)|).body| <= ARENA_LIMIT
      ensures ok ==>
        var p := Enc(v, ty, |old(cells)|);
        && BlankAt(old(cells), off, |p.slot|)
        && Valid() && cells == Patch(old(cells), off, p.slot) + p.body
      decreases ty, 0
    {
      hide Represents, BlankAt, Patch, Size, EncList, EncRecord, EncSome, AlignUp, Align, Enc;
      match ty {
        case Str =>
          PairParts(v, ty, |cells|);
          ok := StoreString(v.text, off);
        case List(e) =>
          PairParts(v, ty, |cells|);
          ok := StoreList(v.elems, e, off);
        case Record(names, fields) =>
          RecordParts(v, names, fields, |cells|);
          var vals := PickFields(v.labels, v.vals, names);
          assert vals == v.vals;
          var stored, _ := StoreFields(vals, fields, off, Size(ty));
          ok := stored;
        case Tuple(items) =>
          TupleParts(v, items, |cells|);
          var stored, _ := StoreFields(v.comps, items, off, Size(ty));
          ok := stored;
        case Opt(payload) => ok := StoreOption(v, payload, off);
        case _ =>
          StoreScalar(v, ty, off);
          ok := true;
      }
    }

    method StoreScalar(v: Val, ty: Ty, off: nat)
      requires Valid() && Fits(v, ty) && Scalar(ty) && BlankAt(cells, off, Size(ty))
      modifies this
      ensures var p := Enc(v, ty, |old(cells)|);
        && BlankAt(old(cells), off, |p.slot|)
        && Valid() && p.body == [] && cells == Patch(old(cells), off, p.slot) + p.body
    {
      hide Represents, BlankAt, Patch, Lits, Le, Unsigned, Pow256, IntFits;
      match ty {
        case Bool => Write(off, [if v.b then 1 else 0]);
        case Int(w, _) => Write(off, Le(Unsigned(v.n, w), w));
        case Float(w) => Write(off, Le(v.bits, w));
        case Char => Write(off, Le(v.code, 4));
        case Enum(cases) =>
          var index := EnumDiscriminant(cases, v.case_);
          Write(off, Le(index, TagWidth(|cases|)));
      }
    }

    method StoreString(text: seq<byte>, off: nat) returns (ok: bool)
      requires Valid() && IsUtf8(text) && BlankAt(cells, off, 8)
      modifies this
      ensures var p := Enc(VStr(text), Str, |old(cells)|);
        && (ok <==> |old(cells)| + |p.body| <= ARENA_LIMIT)
        && (ok ==> |p.slot| == 8 && BlankAt(old(cells), off, 8))
        && (ok ==> Valid() && cells == Patch(old(cells), off, p.slot) + p.body)
    {
      hide Represents, BlankAt, Patch, Lits, Le, Pointer, IsUtf8;
      ghost var was := cells;
      var ptr := AppendString(text);
      if ptr == None { return false; }
      StorePair(off, ptr.value, |text|, was, Lits(text));
      return true;
    }

    method StoreList(vs: seq<Val>, e: Ty, off: nat) returns (ok: bool)
      requires Valid() && AllFitElem(vs, e) && BlankAt(cells, off, 8)
      modifies this
      ensures ok <==> |old(cells)| + |EncList(vs, e, |old(cells)|).body| <= ARENA_LIMIT
      ensures ok ==> BlankAt(old(cells), off, 8)
      ensures ok ==>
        var p := EncList(vs, e, |old(cells)|);
        Valid() && cells == Patch(old(cells), off, p.slot) + p.body
      decreases e, 3
    {
      hide Represents, BlankAt, Patch, Lits, Le, Pointer, EncElems, AllFitElem, AlignUp, Align, Span;
      ghost var was := cells;
      var ptr := AppendList(vs, e);
      if ptr == None { return false; }
      StorePair(off, ptr.value, |vs|, was, EncList(vs, e, |was|).body);
      return true;
    }

    method StoreOption(v: Val, payload: Ty, off: nat) returns (ok: bool)
      requires Valid() && Fits(v, Opt(payload)) && BlankAt(cells, off, Size(Opt(payload)))
      modifies this
      ensures ok <==> |old(cells)| + |Enc(v, Opt(payload), |old(cells)|).body| <= ARENA_LIMIT
      ensures ok ==>
        var p := Enc(v, Opt(payload), |old(cells)|);
        && BlankAt(old(cells), off, |p.slot|)
        && Valid() && cells == Patch(old(cells), off, p.slot) + p.body
      decreases payload, 1
    {
      hide Represents, BlankAt, Patch, Lits, Blank, Size, AlignUp, Align;
      ghost var was := cells;
      ghost var size := Size(Opt(payload));
      SizePositive(Opt(payload));
      BlankLess(cells, off, size, 1);
      OptionParts(v, payload, |was|);
      if v.inner == None {
        Write(off, [0]);
        NoneStep(was, off, size);
        return true;
      }
      var at := AlignUp(1, Align(payload));
      Write(off, [1]);
      SomeStep(was, off, size, at, Size(payload));
      ok := Store(v.inner.value, payload, off + at);
      SomeJoin(was, off, size, at, Enc(v.inner.value, payload, |was|).slot);
    }

    /** Where the value's own cells are a relative pointer and a count. */
    method StorePair(off: nat, ptr: nat, count: nat, ghost was: seq<Cell>, ghost tail: seq<Cell>)
      requires Valid() && cells == was + tail && BlankAt(was, off, 8) && ptr <= |cells|
      modifies this
      ensures Valid() && cells == Patch(was, off, Pointer(ptr) + Lits(Le(count, 4))) + tail
    {
      hide Represents, Le, BlankAt, Patch;
      StillBlank(was, tail, off, 8, []);
      StillBlank(was, tail, off, 8, Pointer(ptr));
      BlankInside(was, off, 8);
      BlankLess(cells, off, 8, 4);
      WriteRelPtr(off, ptr);
      BlankLess(cells, off + 4, 4, 4);
      Write(off + 4, Le(count, 4));
      PairStep(was, tail, off, Pointer(ptr), Lits(Le(count, 4)));
    }

    /** The fields of a record at their offsets, in room already reserved. */
    method StoreFields(vs: seq<Val>, tys: seq<Ty>, off: nat, size: nat) returns (ok: bool, failed: nat)
      requires Valid() && AllFit(vs, tys) && BlankAt(cells, off, size) && FieldsEnd(tys, 0) <= size
      modifies this
      ensures ok <==> |old(cells)| + |EncRecord(vs, tys, size, |old(cells)|).body| <= ARENA_LIMIT
      ensures !ok ==>
        && failed < |tys|
        && FieldsTo(vs, tys, failed, |old(cells)|) <= ARENA_LIMIT < FieldsTo(vs, tys, failed + 1, |old(cells)|)
      ensures ok ==>
        var p := EncRecord(vs, tys, size, |old(cells)|);
        && BlankAt(old(cells), off, size)
        && Valid() && cells == Patch(old(cells), off, p.slot) + p.body
      decreases tys, 1
    {
      hide Represents, AllFit, Size, Align, AlignUp, Enc, EncFields, FieldsEnd, Row, Patch, BlankAt, Blank, Fits, AllWellFormed;
      hide FieldsTo, Midway;
      ghost var was := cells;
      ghost var all := EncFields(vs, tys, 0, |was|);
      assert |vs| == |tys| by { SameCount(vs, tys); }
      ghost var done := Piece([], []);
      MidwayStarts(vs, tys, |was|);
      BlankInside(was, off, size);
      ghost var front, back := was[..off], was[off + size..];
      RowStart(was, off, size);
      assert back + [] == back;
      var i, at := 0, 0;
      while i < |tys|
        invariant 0 <= i <= |tys| && Valid()
        invariant |done.slot| == at <= size && Midway(vs, tys, i, at, |was|, done, all)
        invariant cells == Row(front, done.slot, size - at, back + done.body)
        invariant |cells| == |was| + |done.body|
      {
        MidwayStep(vs, tys, i, at, |was|, done, all);
        ghost var first := Enc(vs[i], tys[i], |cells|);
        var here := AlignUp(at, Align(tys[i]));
        ghost var padded := Piece(done.slot + Blank(here - at), done.body);
        RowSkip(front, done.slot, size - at, back + done.body, here - at);
        RowBlank(front, padded.slot, size - here, back + done.body, Size(tys[i]));
        var ok' := Store(vs[i], tys[i], off + here);
        if !ok' { return false, i; }
        RowStep(front, padded.slot, size - here, back + done.body, first.slot, first.body);
        assert back + done.body + first.body == back + (done.body + first.body);
        done := padded.Then(first);
        at := here + Size(tys[i]);
        RowBlank(front, done.slot, size - at, back + done.body, 0);
        i := i + 1;
      }
      MidwayEnds(vs, tys, at, |was|, done, all);
      RowDone(was, off, size, done.slot, done.body);
      return true, 0;
    }

    /** A parameter's flat constants, pushed after `flats`. */
    method LowerFlat(v: Val, ty: Ty, flats: seq<FlatConst>) returns (r: Option<seq<FlatConst>>)
      requires Valid() && Fits(v, ty)
      modifies this
      ensures r == None <==> |old(cells)| + |EncFlat(v, ty, |old(cells)|).body| > ARENA_LIMIT
      ensures r != None ==>
        var p := EncFlat(v, ty, |old(cells)|);
        Valid() && cells == old(cells) + p.body && r == Some(flats + p.flats)
      decreases ty, 4
    {
      hide Represents, EncList, EncFlatAll, Lits, FlatTypes, KindsAre, ZeroFlats, AlignUp, Align, IsUtf8, Unsigned;
      match ty {
        case Bool => r := Some(flats + [Const(CI32, if v.b then 1 else 0)]);
        case Int(w, _) =>
          r := Some(flats + [if w == 8 then Const(CI64, Unsigned(v.n, 8)) else Const(CI32, Unsigned(v.n, 4))]);
        case Float(w) => r := Some(flats + [Const(if w == 8 then CF64 else CF32, v.bits)]);
        case Char => r := Some(flats + [Const(CI32, v.code)]);
        case Str =>
          var ptr := AppendString(v.text);
          r := if ptr == None then None else Some(flats + [ArenaPtr(ptr.value), Const(CI32, |v.text|)]);
        case Enum(cases) =>
          var index := EnumDiscriminant(cases, v.case_);
          r := Some(flats + [Const(CI32, index)]);
        case List(e) =>
          PairParts(v, ty, |cells|);
          var ptr := AppendList(v.elems, e);
          r := if ptr == None then None else Some(flats + [ArenaPtr(ptr.value), Const(CI32, |v.elems|)]);
        case Record(names, fields) =>
          RecordParts(v, names, fields, |cells|);
          var vals := PickFields(v.labels, v.vals, names);
          assert vals == v.vals;
          var all, _ := LowerAll(vals, fields, flats);
          r := all;
        case Tuple(items) =>
          var all, _ := LowerAll(v.comps, items, flats);
          r := all;
        case Opt(p) =>
          if v.inner == None {
            r := PushZeroFlats(p, flats + [Const(CI32, 0)]);
            FlatsAssoc(flats, [Const(CI32, 0)], ZeroFlats(FlatTypes(p)));
          } else {
            ghost var inner := EncFlat(v.inner.value, p, |cells|);
            FlatsAssoc(flats, [Const(CI32, 1)], inner.flats);
            assert [] + inner.body == inner.body;
            r := LowerFlat(v.inner.value, p, flats + [Const(CI32, 1)]);
          }
      }
    }

    /** A zero of the right kind for every flat value of an absent payload. */
    method PushZeroFlats(ty: Ty, flats: seq<FlatConst>) returns (r: Option<seq<FlatConst>>)
      ensures r == Some(flats + ZeroFlats(FlatTypes(ty)))
    {
      var kinds := FlatTypes(ty);
      var out := flats;
      for i := 0 to |kinds|
        invariant out == flats + ZeroFlats(kinds[..i])
      {
        out := out + [Const(kinds[i], 0)];
        assert kinds[..i + 1] == kinds[..i] + [kinds[i]];
      }
      assert kinds[..|kinds|] == kinds;
      r := Some(out);
    }

    method LowerAll(vs: seq<Val>, tys: seq<Ty>, flats: seq<FlatConst>) returns (r: Option<seq<FlatConst>>, failed: nat)
      requires Valid() && AllFit(vs, tys)
      modifies this
      ensures r == None <==> |old(cells)| + |EncFlatAll(vs, tys, |old(cells)|).body| > ARENA_LIMIT
      ensures r == None ==>
        && failed < |tys|
        && FlatsTo(vs, tys, failed, |old(cells)|) <= ARENA_LIMIT < FlatsTo(vs, tys, failed + 1, |old(cells)|)
      ensures r != None ==>
        var p := EncFlatAll(vs, tys, |old(cells)|);
        Valid() && cells == old(cells) + p.body && r == Some(flats + p.flats)
      decreases tys, 3
    {
      hide Represents, AllFit, AllWellFormed, AllHaveType, EncFlat, EncFlatAll, Fits, KindsAre, FlatTypes, FlatAll, FieldsTo, FlatsTo;
      ghost var was := cells;
      ghost var all := EncFlatAll(vs, tys, |was|);
      ghost var done := FlatPiece([], []);
      assert |vs| == |tys| by { SameCount(vs, tys); }
      assert vs[0..] == vs && tys[0..] == tys && was + [] == was;
      var out := flats;
      NothingYet(vs, tys, |was|);
      var i := 0;
      while i < |tys|
        invariant 0 <= i <= |tys| == |vs| && Valid() && AllFit(vs[i..], tys[i..])
        invariant all == done.Then(EncFlatAll(vs[i..], tys[i..], |was| + |done.body|))
        invariant cells == was + done.body && out == flats + done.flats
        invariant |was| + |done.body| == FlatsTo(vs, tys, i, |was|)
      {
        FlatStep(vs, tys, i, |was|, done, all);
        FlatsToNext(vs, tys, i, |was|);
        ghost var first := EncFlat(vs[i], tys[i], |cells|);
        var next := LowerFlat(vs[i], tys[i], out);
        if next == None { return None, i; }
        out := next.value;
        done := done.Then(first);
        i := i + 1;
      }
      FlatDone(vs, tys, |was|, done, all);
      return Some(out), 0;
    }
  }
}
