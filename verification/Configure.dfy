/**
  Compose-time configuration end to end: checking the supplied arguments, lowering them,
  laying the constant arena out in the binder's memory, and what `configure` then receives.
*/
module Configure {
  import opened Bytes
  import opened Utf8
  import opened CanonicalAbi
  import opened Baking
  import opened Flattening
  import opened Lowering

  const MAX_FLAT_PARAMS: nat := 16
  const PAGE: nat := 65536
  const ADDRESSES: nat := 0x1_0000_0000

  datatype Param = Param(name: string, ty: Ty)

  datatype BindError =
    | UnknownArgument(name: string)
    | MissingArgument(name: string)
    | InvalidArgument(name: string)
    | Internal

  datatype Checked = Values(vals: seq<Val>) | Rejected(error: BindError)

  /** The lowered arguments: flat constants, arena bytes, and where its pointers are. */
  datatype LoweredArguments = LoweredArguments(flats: seq<FlatConst>, arena: seq<byte>, relocs: seq<nat>)

  datatype Bound = Bound(lowered: LoweredArguments) | Refused(error: BindError)

  // ----- checking the arguments -----

  predicate Known(params: seq<Param>, name: string) {
    exists i :: 0 <= i < |params| && params[i].name == name
  }

  /** The texts supplied under a name, in order. */
  function Texts(args: seq<(string, string)>, name: string): seq<string> {
    if args == [] then []
    else (if args[0].0 == name then [args[0].1] else []) + Texts(args[1..], name)
  }

  /** Parameter `p` is supplied exactly once, with a text that parses at its type. */
  predicate Supplied(p: Param, args: seq<(string, string)>, parse: (Ty, string) -> Option<Val>) {
    var texts := Texts(args, p.name);
    |texts| == 1 && parse(p.ty, texts[0]) != None
  }

  function Given(p: Param, args: seq<(string, string)>, parse: (Ty, string) -> Option<Val>): Val
    requires Supplied(p, args, parse)
  {
    parse(p.ty, Texts(args, p.name)[0]).value
  }

  predicate Acceptable(params: seq<Param>, args: seq<(string, string)>, parse: (Ty, string) -> Option<Val>) {
    && (forall k :: 0 <= k < |args| ==> Known(params, args[k].0))
    && (forall i :: 0 <= i < |params| ==> Supplied(params[i], args, parse))
  }

  function AllGiven(params: seq<Param>, args: seq<(string, string)>, parse: (Ty, string) -> Option<Val>): seq<Val>
    requires Acceptable(params, args, parse)
  {
    seq(|params|, i requires 0 <= i < |params| => Given(params[i], args, parse))
  }

  /** Which fault is reported: an unknown name first, else the first faulty parameter's. */
  ghost predicate Explains(params: seq<Param>, args: seq<(string, string)>, parse: (Ty, string) -> Option<Val>, e: BindError) {
    match e
    case UnknownArgument(name) =>
      exists k :: (0 <= k < |args| && args[k].0 == name && !Known(params, name)
                   && forall j :: 0 <= j < k ==> Known(params, args[j].0))
    case MissingArgument(name) =>
      && (forall k :: 0 <= k < |args| ==> Known(params, args[k].0))
      && exists i :: (0 <= i < |params| && params[i].name == name && Texts(args, name) == []
                      && forall j :: 0 <= j < i ==> Supplied(params[j], args, parse))
    case InvalidArgument(name) =>
      && (forall k :: 0 <= k < |args| ==> Known(params, args[k].0))
      && exists i :: (0 <= i < |params| && params[i].name == name && Texts(args, name) != []
                      && !Supplied(params[i], args, parse)
                      && forall j :: 0 <= j < i ==> Supplied(params[j], args, parse))
    case Internal => false
  }

  method CheckArguments(params: seq<Param>, args: seq<(string, string)>, parse: (Ty, string) -> Option<Val>)
    returns (r: Checked)
    ensures r.Values? <==> Acceptable(params, args, parse)
    ensures r.Values? ==> r.vals == AllGiven(params, args, parse)
    ensures r.Rejected? ==> Explains(params, args, parse, r.error)
  {
    for k := 0 to |args|
      invariant forall j :: 0 <= j < k ==> Known(params, args[j].0)
    {
      if !Known(params, args[k].0) { return Rejected(UnknownArgument(args[k].0)); }
    }
    var vals := [];
    for i := 0 to |params|
      invariant |vals| == i
      invariant forall j :: 0 <= j < i ==> Supplied(params[j], args, parse) && vals[j] == Given(params[j], args, parse)
    {
      var p := params[i];
      var supplied := Supplying(args, p.name);
      if |supplied| == 0 { return Rejected(MissingArgument(p.name)); }
      if |supplied| > 1 { return Rejected(InvalidArgument(p.name)); }
      var v := parse(p.ty, supplied[0]);
      if v == None { return Rejected(InvalidArgument(p.name)); }
      vals := vals + [v.value];
    }
    return Values(vals);
  }

  method Supplying(args: seq<(string, string)>, name: string) returns (texts: seq<string>)
    ensures texts == Texts(args, name)
  {
    texts := [];
    for k := 0 to |args|
      invariant Texts(args, name) == texts + Texts(args[k..], name)
    {
      assert args[k..][1..] == args[k + 1..];
      if args[k].0 == name { texts := texts + [args[k].1]; }
    }
  }

  // ----- lowering them -----

  function TypesOf(params: seq<Param>): (tys: seq<Ty>)
    ensures |tys| == |params| && forall i :: 0 <= i < |params| ==> tys[i] == params[i].ty
  {
    seq(|params|, i requires 0 <= i < |params| => params[i].ty)
  }

  /** A list too wide to pass flat is passed as a pointer to one record. */
  predicate Indirect(tys: seq<Ty>) {
    |FlatAll(tys)| > MAX_FLAT_PARAMS
  }

  /** What the arena holds for the whole parameter list. */
  ghost function ArenaCells(vals: seq<Val>, tys: seq<Ty>): seq<Cell>
    requires AllFit(vals, tys)
  {
    if Indirect(tys) then
      var size := Size(Tuple(tys));
      EncRecord(vals, tys, size, size).slot + EncRecord(vals, tys, size, size).body
    else EncFlatAll(vals, tys, 0).body
  }

  ghost function Flats(vals: seq<Val>, tys: seq<Ty>): seq<FlatConst>
    requires AllFit(vals, tys)
  {
    if Indirect(tys) then [ArenaPtr(0)] else EncFlatAll(vals, tys, 0).flats
  }

  /** How far the arena reaches once the first `k` parameters are lowered. */
  ghost function ArenaTo(vals: seq<Val>, tys: seq<Ty>, k: nat): nat
    requires AllFit(vals, tys) && k <= |tys|
  {
    if Indirect(tys) then FieldsTo(vals, tys, k, Size(Tuple(tys))) else FlatsTo(vals, tys, k, 0)
  }

  /** Parameter `i` is the first that takes the arena past its limit. */
  ghost predicate FirstPast(vals: seq<Val>, tys: seq<Ty>, i: nat)
    requires AllFit(vals, tys)
  {
    i < |tys| && ArenaTo(vals, tys, i + 1) > ARENA_LIMIT && forall j :: 0 <= j <= i ==> ArenaTo(vals, tys, j) <= ARENA_LIMIT
  }

  /** What an arena overflow is blamed on: the record of all parameters when it is too large by
      itself, else the first parameter that takes the arena past its limit. */
  ghost predicate PastLimit(params: seq<Param>, vals: seq<Val>, e: BindError)
    requires AllFit(vals, TypesOf(params))
  {
    var tys := TypesOf(params);
    if Indirect(tys) && Size(Tuple(tys)) > ARENA_LIMIT then e == Internal
    else exists i :: 0 <= i < |params| && FirstPast(vals, tys, i) && e == InvalidArgument(params[i].name)
  }

  lemma FirstPastIs(vals: seq<Val>, tys: seq<Ty>, i: nat)
    requires AllFit(vals, tys) && i < |tys|
    requires ArenaTo(vals, tys, i) <= ARENA_LIMIT < ArenaTo(vals, tys, i + 1)
    ensures FirstPast(vals, tys, i)
  {
    hide AllFit, FieldsTo, FlatsTo, FlatAll, MaxAlign;
    forall j | 0 <= j <= i
      ensures ArenaTo(vals, tys, j) <= ArenaTo(vals, tys, i)
    {
      ReachGrows(vals, tys, j, i, if Indirect(tys) then Size(Tuple(tys)) else 0);
    }
  }

  ghost predicate LawfulParse(parse: (Ty, string) -> Option<Val>) {
    forall ty, text :: parse(ty, text).Some? ==> HasType(parse(ty, text).value, ty)
  }

  lemma {:induction false} FitAll(vals: seq<Val>, tys: seq<Ty>)
    requires |vals| == |tys|
    requires forall i {:trigger tys[i]} :: 0 <= i < |tys| ==> WellFormed(tys[i]) && HasType(vals[i], tys[i])
    ensures AllFit(vals, tys)
  {
    hide WellFormed, HasType;
    if tys != [] {
      forall i | 0 <= i < |tys| - 1
        ensures WellFormed(tys[1..][i]) && HasType(vals[1..][i], tys[1..][i])
      {
        assert tys[1..][i] == tys[i + 1];
      }
      assert WellFormed(tys[0]) && HasType(vals[0], tys[0]);
      FitAll(vals[1..], tys[1..]);
    }
  }

  lemma GivenFit(params: seq<Param>, args: seq<(string, string)>, parse: (Ty, string) -> Option<Val>)
    requires LawfulParse(parse) && Acceptable(params, args, parse)
    requires forall i :: 0 <= i < |params| ==> WellFormed(params[i].ty)
    ensures AllFit(AllGiven(params, args, parse), TypesOf(params))
  {
    hide WellFormed, HasType, AllFit, Texts;
    var vals, tys := AllGiven(params, args, parse), TypesOf(params);
    forall i | 0 <= i < |tys|
      ensures WellFormed(tys[i]) && HasType(vals[i], tys[i])
    {
      assert tys[i] == params[i].ty && Supplied(params[i], args, parse);
      assert vals[i] == Given(params[i], args, parse);
    }
    FitAll(vals, tys);
  }

  lemma ReservedRecord(vals: seq<Val>, tys: seq<Ty>)
    requires AllFit(vals, tys)
    ensures FieldsEnd(tys, 0) <= Size(Tuple(tys))
    ensures BlankAt([] + Blank(Size(Tuple(tys))), 0, Size(Tuple(tys)))
    ensures var size := Size(Tuple(tys));
      var p := EncRecord(vals, tys, size, size);
      Patch([] + Blank(size), 0, p.slot) + p.body == p.slot + p.body
  {
    hide EncRecord, FieldsEnd, MaxAlign, AlignUp;
  }

  /** Checks the arguments and lowers them, flat or as one record in the arena. */
  method BindArguments(params: seq<Param>, args: seq<(string, string)>, parse: (Ty, string) -> Option<Val>)
    returns (r: Bound)
    requires LawfulParse(parse) && forall i :: 0 <= i < |params| ==> WellFormed(params[i].ty)
    ensures !Acceptable(params, args, parse) ==> r.Refused? && Explains(params, args, parse, r.error)
    ensures Acceptable(params, args, parse) ==>
      var vals := AllGiven(params, args, parse);
      var tys := TypesOf(params);
      && AllFit(vals, tys)
      && (r.Bound? <==> |ArenaCells(vals, tys)| <= ARENA_LIMIT)
      && (r.Refused? ==> PastLimit(params, vals, r.error))
      && (r.Bound? ==>
           && r.lowered.flats == Flats(vals, tys)
           && Represents(r.lowered.arena, r.lowered.relocs, ArenaCells(vals, tys)))
  {
    hide WellFormed, LawfulParse, Acceptable, AllGiven, Explains, Represents, AllFit, EncRecord, EncFlatAll, FieldsEnd;
    hide Size, FlatAll, Patch, BlankAt, Blank, MaxAlign, KindsAre, FieldsTo, FlatsTo, FirstPast;
    var checked := CheckArguments(params, args, parse);
    if checked.Rejected? { return Refused(checked.error); }
    var vals, tys := checked.vals, TypesOf(params);
    GivenFit(params, args, parse);
    var lowerer := new Lowerer();
    if |FlatAll(tys)| > MAX_FLAT_PARAMS {
      ReservedRecord(vals, tys);
      var size := Size(Tuple(tys));
      var base := lowerer.Reserve(size, MaxAlign(tys));
      if base == None { return Refused(Internal); }
      var ok, failed := lowerer.StoreFields(vals, tys, base.value, size);
      if !ok {
        FirstPastIs(vals, tys, failed);
        return Refused(InvalidArgument(params[failed].name));
      }
      return Bound(LoweredArguments([ArenaPtr(base.value)], lowerer.arena, lowerer.relocs));
    } else {
      var flats, failed := lowerer.LowerAll(vals, tys, []);
      if flats == None {
        FirstPastIs(vals, tys, failed);
        return Refused(InvalidArgument(params[failed].name));
      }
      assert [] + EncFlatAll(vals, tys, 0).flats == EncFlatAll(vals, tys, 0).flats;
      assert [] + EncFlatAll(vals, tys, 0).body == EncFlatAll(vals, tys, 0).body;
      return Bound(LoweredArguments(flats.value, lowerer.arena, lowerer.relocs));
    }
  }

  // ----- the binder's memory -----

  /** The result scratch area, then the constant arena, then the bump heap. */
  datatype Layout = Layout(scratch: nat, arenaBase: nat, arena: seq<byte>, heapBase: nat)

  ghost predicate Rendered(arena: seq<byte>, cells: seq<Cell>, base: nat) {
    |arena| == |cells| && forall i {:trigger cells[i]} :: 0 <= i < |cells| ==> arena[i] == Render(cells[i], base)
  }

  /** Two relocated pointers never overlap. */
  lemma PointersApart(arena: seq<byte>, cells: seq<Cell>, r: nat, s: nat)
    requires PointerAt(arena, cells, r) && PointerAt(arena, cells, s) && r < s
    ensures r + 4 <= s
  {
    assert cells[r..r + 4][1] == cells[r + 1] && cells[r..r + 4][2] == cells[r + 2] && cells[r..r + 4][3] == cells[r + 3];
    assert cells[s..s + 4][0] == cells[s];
  }

  /** Bytes of the arena once the first `n` relocations have been rebased. */
  ghost predicate Rebased(out: seq<byte>, relocs: seq<nat>, cells: seq<Cell>, base: nat, n: nat)
    requires forall j {:trigger relocs[j]} :: 0 <= j < |relocs| ==> relocs[j] + 4 <= |cells| && cells[relocs[j]].Rel?
  {
    && |out| == |cells|
    && (forall i {:trigger cells[i]} :: 0 <= i < |cells| && cells[i].Lit? ==> out[i] == cells[i].b)
    && (forall j {:trigger relocs[j]} :: 0 <= j < |relocs| ==>
          out[relocs[j]..relocs[j] + 4] == Le((if j < n then base else 0) + cells[relocs[j]].target, 4))
  }

  lemma RebaseOne(arena: seq<byte>, out: seq<byte>, relocs: seq<nat>, cells: seq<Cell>, base: nat, n: nat)
    requires Represents(arena, relocs, cells) && n < |relocs|
    requires forall j {:trigger relocs[j]} :: 0 <= j < |relocs| ==> relocs[j] + 4 <= |cells| && cells[relocs[j]].Rel?
    requires Rebased(out, relocs, cells, base, n)
    ensures Rebased(Patch(out, relocs[n], Le(base + cells[relocs[n]].target, 4)), relocs, cells, base, n + 1)
  {
    hide Le, PointerAt, StandsAt;
    var r := relocs[n];
    var next := Patch(out, r, Le(base + cells[r].target, 4));
    forall i | 0 <= i < |cells| && cells[i].Lit?
      ensures next[i] == cells[i].b
    {
      PointerCells(arena, cells, r);
    }
    forall j | 0 <= j < |relocs|
      ensures next[relocs[j]..relocs[j] + 4] == Le((if j < n + 1 then base else 0) + cells[relocs[j]].target, 4)
    {
      var s := relocs[j];
      if s < r {
        PointersApart(arena, cells, s, r);
        assert next[s..s + 4] == out[s..s + 4];
      } else if r < s {
        PointersApart(arena, cells, r, s);
        assert next[s..s + 4] == out[s..s + 4];
      }
    }
  }

  lemma PointerRendered(arena: seq<byte>, out: seq<byte>, cells: seq<Cell>, base: nat, r: nat, k: nat)
    requires PointerAt(arena, cells, r) && k < 4 && |out| == |cells|
    requires out[r..r + 4] == Le(base + cells[r].target, 4)
    ensures out[r + k] == Render(cells[r + k], base)
  {
    assert cells[r..r + 4][k] == cells[r + k] && out[r..r + 4][k] == out[r + k];
  }

  lemma Relocated(arena: seq<byte>, relocs: seq<nat>, cells: seq<Cell>, i: nat) returns (j: nat)
    requires Represents(arena, relocs, cells) && i < |cells| && cells[i].Rel?
    ensures j < |relocs| && cells[i].k < 4 && cells[i].k <= i && relocs[j] == i - cells[i].k
    ensures PointerAt(arena, cells, relocs[j])
  {
    hide PointerAt;
    assert StandsAt(arena, relocs, cells, i);
    j :| 0 <= j < |relocs| && relocs[j] == i - cells[i].k;
  }

  lemma LitRendered(c: Cell, base: nat)
    requires c.Lit?
    ensures Render(c, base) == c.b
  {
  }

  lemma RebasedAll(arena: seq<byte>, out: seq<byte>, relocs: seq<nat>, cells: seq<Cell>, base: nat)
    requires Represents(arena, relocs, cells)
    requires forall j {:trigger relocs[j]} :: 0 <= j < |relocs| ==> relocs[j] + 4 <= |cells| && cells[relocs[j]].Rel?
    requires Rebased(out, relocs, cells, base, |relocs|)
    ensures Rendered(out, cells, base)
  {
    hide Le, PointerAt, Render, Represents;
    forall i | 0 <= i < |cells|
      ensures out[i] == Render(cells[i], base)
    {
      if cells[i].Rel? {
        var j := Relocated(arena, relocs, cells, i);
        PointerRendered(arena, out, cells, base, relocs[j], cells[i].k);
      } else {
        LitRendered(cells[i], base);
      }
    }
  }

  lemma RelocsInside(arena: seq<byte>, relocs: seq<nat>, cells: seq<Cell>)
    requires Represents(arena, relocs, cells)
    ensures forall j {:trigger relocs[j]} :: 0 <= j < |relocs| ==>
      && relocs[j] + 4 <= |cells| && cells[relocs[j]].Rel? && cells[relocs[j]].target <= |cells|
      && arena[relocs[j]..relocs[j] + 4] == Le(cells[relocs[j]].target, 4)
    ensures forall i {:trigger cells[i]} :: 0 <= i < |cells| && cells[i].Lit? ==> arena[i] == cells[i].b
  {
    hide Le, Pointer;
    forall i | 0 <= i < |cells| && cells[i].Lit?
      ensures arena[i] == cells[i].b
    {
      assert StandsAt(arena, relocs, cells, i);
    }
  }

  lemma NothingRebased(arena: seq<byte>, relocs: seq<nat>, cells: seq<Cell>, base: nat)
    requires |arena| == |cells|
    requires forall j {:trigger relocs[j]} :: 0 <= j < |relocs| ==>
      && relocs[j] + 4 <= |cells| && cells[relocs[j]].Rel?
      && arena[relocs[j]..relocs[j] + 4] == Le(cells[relocs[j]].target, 4)
    requires forall i {:trigger cells[i]} :: 0 <= i < |cells| && cells[i].Lit? ==> arena[i] == cells[i].b
    ensures Rebased(arena, relocs, cells, base, 0)
  {
    hide Le;
  }

  lemma NotYetRebased(out: seq<byte>, relocs: seq<nat>, cells: seq<Cell>, base: nat, n: nat)
    requires n < |relocs|
    requires forall j {:trigger relocs[j]} :: 0 <= j < |relocs| ==> relocs[j] + 4 <= |cells| && cells[relocs[j]].Rel?
    requires Rebased(out, relocs, cells, base, n)
    ensures |out| == |cells| && out[relocs[n]..relocs[n] + 4] == Le(cells[relocs[n]].target, 4)
  {
    hide Le;
  }

  lemma RenderedLength(arena: seq<byte>, cells: seq<Cell>, base: nat)
    requires Rendered(arena, cells, base)
    ensures |arena| == |cells|
  {
  }

  /** Rebases every arena-relative pointer once. */
  method Rebase(lowered: LoweredArguments, base: nat, ghost cells: seq<Cell>) returns (out: seq<byte>)
    requires Represents(lowered.arena, lowered.relocs, cells) && |lowered.arena| < ADDRESSES
    ensures Rendered(out, cells, base) && |out| == |cells|
  {
    hide Represents, Le, PointerAt, LeValue, Pow256, Rebased, Rendered, Patch;
    var relocs := lowered.relocs;
    RelocsInside(lowered.arena, relocs, cells);
    assert |lowered.arena| == |cells| by { RepresentsLength(lowered.arena, relocs, cells); }
    out := lowered.arena;
    NothingRebased(out, relocs, cells, base);
    for n := 0 to |relocs|
      invariant Rebased(out, relocs, cells, base, n)
    {
      NotYetRebased(out, relocs, cells, base, n);
      var relative := ReadPointer(out, relocs[n], cells[relocs[n]].target);
      RebaseOne(lowered.arena, out, relocs, cells, base, n);
      out := Patch(out, relocs[n], Le(base + relative, 4));
    }
    RebasedAll(lowered.arena, out, relocs, cells, base);
    RenderedLength(out, cells, base);
  }

  /** Places scratch area, rebased arena and heap one after the other. */
  method LayOut(lowered: LoweredArguments, scratchSize: nat, ghost cells: seq<Cell>) returns (l: Layout)
    requires Represents(lowered.arena, lowered.relocs, cells)
    requires scratchSize % 8 == 0 && UpTo16(16 + scratchSize + |lowered.arena|) < ADDRESSES
    ensures l.scratch == 16 && l.arenaBase == 16 + scratchSize && l.arenaBase % 8 == 0
    ensures Rendered(l.arena, cells, l.arenaBase)
    ensures l.heapBase % 16 == 0 && l.arenaBase + |l.arena| <= l.heapBase < l.arenaBase + |l.arena| + 16
  {
    hide Represents, Rendered, UpTo16;
    var base := 16 + scratchSize;
    var out := Rebase(lowered, base, cells);
    l := Layout(16, base, out, UpTo16(base + |out|));
  }

  /** The relative pointer stored at `r`. */
  method ReadPointer(out: seq<byte>, r: nat, ghost target: nat) returns (relative: nat)
    requires r + 4 <= |out| && out[r..r + 4] == Le(target, 4) && target < 0x1_0000_0000
    ensures relative == target
  {
    Pow256Widths();
    LeRoundTrip(target, 4);
    relative := LeValue(out[r..r + 4]);
  }

  function UpTo16(x: nat): (r: nat)
    ensures x <= r < x + 16 && r % 16 == 0
  {
    (x + 15) / 16 * 16
  }

  lemma RepresentsLength(arena: seq<byte>, relocs: seq<nat>, cells: seq<Cell>)
    requires Represents(arena, relocs, cells)
    ensures |arena| == |cells|
  {
  }

  // ----- what `configure` receives -----

  /** The baked constants have the core types that the callee's signature asks for. */
  lemma CoreTypesMatch(vals: seq<Val>, tys: seq<Ty>, base: nat)
    requires AllFit(vals, tys)
    ensures TypedAs(ResolveAll(Flats(vals, tys), base), CoreParams(tys))
  {
    hide EncFlatAll, AllFit, FlatAll;
    if !Indirect(tys) {
      var fs := EncFlatAll(vals, tys, 0).flats;
      forall i | 0 <= i < |fs|
        ensures Resolve(fs[i], base).core == FlatAll(tys)[i]
      {
        assert CoreOf(fs[i]) == FlatAll(tys)[i];
      }
    }
  }

  /** Wherever the rendered arena sits, at a multiple of 8, the callee reads the values. */
  lemma ArgumentsArrive(mem: seq<byte>, arena: seq<byte>, base: nat, tys: seq<Ty>, vals: seq<Val>)
    requires AllFit(vals, tys) && base % 8 == 0
    requires Rendered(arena, ArenaCells(vals, tys), base)
    requires base + |arena| <= |mem| && base + |arena| < 0x1_0000_0000 && mem[base..base + |arena|] == arena
    ensures CalleeReads(mem, tys, ResolveAll(Flats(vals, tys), base), vals)
  {
    hide EncRecord, EncFlatAll, AllFit, Load, LiftAll, FlatAll, KindsAre, Size, FieldsEnd, MaxAlign, Shows, TypedAs;
    var cells := ArenaCells(vals, tys);
    CoreTypesMatch(vals, tys, base);
    ArenaShows(mem, arena, base, cells);
    if Indirect(tys) {
      var size := Size(Tuple(tys));
      TupleFits(vals, tys);
      var p := EncRecord(vals, tys, size, size);
      ShowsSplit(mem, base, base, p.slot, p.body);
      EncLoads(mem, base, VTuple(vals), Tuple(tys), 0, size);
    } else {
      AllLift(mem, base, vals, tys, 0, []);
      var args := ResolveAll(Flats(vals, tys), base);
      assert args + [] == args;
    }
  }

  lemma ArenaShows(mem: seq<byte>, arena: seq<byte>, base: nat, cells: seq<Cell>)
    requires Rendered(arena, cells, base)
    requires base + |arena| <= |mem| && mem[base..base + |arena|] == arena
    ensures Shows(mem, base, base, cells)
  {
    forall i | 0 <= i < |cells|
      ensures mem[base + i] == Render(cells[i], base)
    {
      assert mem[base..base + |arena|][i] == mem[base + i];
    }
  }

  lemma TupleFits(vals: seq<Val>, tys: seq<Ty>)
    requires AllFit(vals, tys) && Indirect(tys)
    ensures Fits(VTuple(vals), Tuple(tys)) && FieldsEnd(tys, 0) <= Size(Tuple(tys))
    ensures Enc(VTuple(vals), Tuple(tys), Size(Tuple(tys))) == EncRecord(vals, tys, Size(Tuple(tys)), Size(Tuple(tys)))
  {
    hide EncRecord, FieldsEnd, MaxAlign, AlignUp;
  }

  /**
    The binder's memory when it is instantiated: one page, with the arena as a data
    segment; a segment that does not fit traps.
  */
  function Instantiate(l: Layout): Option<seq<byte>> {
    if l.arena == [] then Some(Zeros(PAGE))
    else if l.arenaBase + |l.arena| > PAGE then None
    else Some(Patch(Zeros(PAGE), l.arenaBase, l.arena))
  }

  lemma Instantiated(l: Layout)
    requires Instantiate(l) != None && l.arenaBase <= PAGE
    ensures var mem := Instantiate(l).value;
      l.arenaBase + |l.arena| <= |mem| == PAGE && mem[l.arenaBase..l.arenaBase + |l.arena|] == l.arena
  {
  }

  datatype Binder = Binder(args: seq<CoreVal>, layout: Layout)

  /** `Overflowing`: the binder's layout passes the 32-bit addresses it is computed in. */
  datatype Configured = Configured(binder: Binder) | NotConfigured(error: BindError) | Overflowing

  /** The result scratch size for a result of `resultSize` bytes. */
  function ScratchSize(resultSize: nat): (s: nat)
    ensures s % 8 == 0 && Max(resultSize, 16) <= s < Max(resultSize, 16) + 8
  {
    Max(AlignUp(resultSize, 8), 16)
  }

  /**
    Compose-time configuration. A binder that can be instantiated hands `configure` exactly
    the values the argument texts stand for, and keeps them clear of the result area and
    the heap; it can be instantiated exactly when its arena fits the one initial page. If the
    result area alone passes the page, nothing is promised of the arguments.
  */
  method Bake(params: seq<Param>, args: seq<(string, string)>, parse: (Ty, string) -> Option<Val>, resultSize: u32)
    returns (r: Configured)
    requires LawfulParse(parse) && forall i :: 0 <= i < |params| ==> WellFormed(params[i].ty)
    ensures !Acceptable(params, args, parse) ==> r.NotConfigured? && Explains(params, args, parse, r.error)
    ensures r.Configured? ==>
      var l := r.binder.layout;
      && Acceptable(params, args, parse)
      && l.scratch == 16 && l.arenaBase % 8 == 0 && l.heapBase % 16 == 0
      && 16 + Max(resultSize, 16) <= l.arenaBase < 16 + Max(resultSize, 16) + 8
      && l.arenaBase + |l.arena| <= l.heapBase < l.arenaBase + |l.arena| + 16
      && TypedAs(r.binder.args, CoreParams(TypesOf(params)))
      && (Instantiate(l) == None <==> l.arena != [] && l.arenaBase + |l.arena| > 65536)
      && (Instantiate(l) != None && l.arenaBase <= 65536 ==>
           CalleeReads(Instantiate(l).value, TypesOf(params), r.binder.args, AllGiven(params, args, parse)))
    ensures Acceptable(params, args, parse) ==> AllFit(AllGiven(params, args, parse), TypesOf(params))
    ensures Acceptable(params, args, parse) ==>
      var vals := AllGiven(params, args, parse);
      var reach := |ArenaCells(vals, TypesOf(params))|;
      && (r.NotConfigured? <==> reach > 0x400_0000)
      && (r.NotConfigured? ==> PastLimit(params, vals, r.error))
      && (r.Overflowing? <==> reach <= 0x400_0000 && UpTo16(16 + ScratchSize(resultSize) + reach) >= 0x1_0000_0000)
      && (r.Configured? ==> |r.binder.layout.arena| == reach)
  {
    hide WellFormed, LawfulParse, Acceptable, AllGiven, Explains, Represents, AllFit, ArenaCells, Flats, CalleeReads, TypedAs, ResolveAll;
    hide UpTo16, PastLimit;
    var bound := BindArguments(params, args, parse);
    if bound.Refused? { return NotConfigured(bound.error); }
    ghost var vals, tys := AllGiven(params, args, parse), TypesOf(params);
    ghost var cells := ArenaCells(vals, tys);
    assert |bound.lowered.arena| == |cells| by { RepresentsLength(bound.lowered.arena, bound.lowered.relocs, cells); }
    if UpTo16(16 + ScratchSize(resultSize) + |bound.lowered.arena|) >= ADDRESSES { return Overflowing; }
    var l := LayOut(bound.lowered, ScratchSize(resultSize), cells);
    r := Configured(Binder(ResolveAll(bound.lowered.flats, l.arenaBase), l));
    CoreTypesMatch(vals, tys, l.arenaBase);
    if Instantiate(l) != None && l.arenaBase <= PAGE {
      Instantiated(l);
      ArgumentsArrive(Instantiate(l).value, l.arena, l.arenaBase, tys, vals);
    }
  }

  /**
    A string constant of one page is accepted, well below the arena limit, yet the binder
    that carries it cannot be instantiated: the memory starts with one page only.
  */
  lemma OversizeConstant()
    ensures exists vals: seq<Val>, l: Layout ::
      && AllFit(vals, [Str]) && |ArenaCells(vals, [Str])| <= ARENA_LIMIT
      && l.arenaBase == 16 + ScratchSize(12) && Rendered(l.arena, ArenaCells(vals, [Str]), l.arenaBase)
      && Instantiate(l) == None
  {
    var text: seq<byte> := seq(PAGE, _ => 97);
    AsciiIsUtf8(text);
    var vals := [VStr(text)];
    StringArena(text);
    var l := Layout(16, 16 + ScratchSize(12), text, 0);
    assert Rendered(text, ArenaCells(vals, [Str]), l.arenaBase) && Instantiate(l) == None by { hide ArenaCells, AllFit; }
    assert AllFit(vals, [Str]) && |ArenaCells(vals, [Str])| <= ARENA_LIMIT;
  }

  lemma StringArena(text: seq<byte>)
    requires IsUtf8(text)
    ensures AllFit([VStr(text)], [Str]) && ArenaCells([VStr(text)], [Str]) == Lits(text)
  {
    hide IsUtf8;
    assert [Str][1..] == [] && [VStr(text)][1..] == [];
    assert FlatAll([Str]) == [CI32, CI32] + FlatAll([]);
    var p := EncFlatAll([VStr(text)], [Str], 0);
    assert p.body == Lits(text) + EncFlatAll([], [], |text|).body;
  }
}
