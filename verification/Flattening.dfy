/**
  The by-value form of a baked argument: its flat core constants. Their types depend only
  on the value's type, an absent option being padded, and lifting them gives the value back.
*/
module Flattening {
  import opened Bytes
  import opened Utf8
  import opened CanonicalAbi
  import opened Baking

  /** A baked core argument; an arena pointer is still relative. */
  datatype FlatConst = Const(core: Core, bits: nat) | ArenaPtr(offset: nat)

  function CoreOf(f: FlatConst): Core {
    match f
    case Const(core, _) => core
    case ArenaPtr(_) => CI32
  }

  function Resolve(f: FlatConst, base: nat): CoreVal {
    match f
    case Const(core, bits) => CoreVal(core, bits)
    case ArenaPtr(offset) => CoreVal(CI32, base + offset)
  }

  function ResolveAll(fs: seq<FlatConst>, base: nat): (vs: seq<CoreVal>)
    ensures |vs| == |fs| && forall i :: 0 <= i < |fs| ==> vs[i] == Resolve(fs[i], base)
  {
    seq(|fs|, i requires 0 <= i < |fs| => Resolve(fs[i], base))
  }

  ghost predicate KindsAre(fs: seq<FlatConst>, kinds: seq<Core>) {
    |fs| == |kinds| && forall i :: 0 <= i < |fs| ==> CoreOf(fs[i]) == kinds[i]
  }

  function ZeroFlats(kinds: seq<Core>): (fs: seq<FlatConst>)
    ensures KindsAre(fs, kinds)
  {
    seq(|kinds|, i requires 0 <= i < |kinds| => Const(kinds[i], 0))
  }

  /** Flat constants, and the arena cells they append. */
  datatype FlatPiece = FlatPiece(flats: seq<FlatConst>, body: seq<Cell>) {
    function Then(next: FlatPiece): FlatPiece {
      FlatPiece(flats + next.flats, body + next.body)
    }
  }

  ghost function EncFlat(v: Val, ty: Ty, end: nat): (p: FlatPiece)
    requires Fits(v, ty)
    ensures KindsAre(p.flats, FlatTypes(ty))
    decreases ty, 2
  {
    match ty
    case Bool => FlatPiece([Const(CI32, if v.b then 1 else 0)], [])
    case Int(w, _) => FlatPiece([if w == 8 then Const(CI64, Unsigned(v.n, 8)) else Const(CI32, Unsigned(v.n, 4))], [])
    case Float(w) => FlatPiece([Const(if w == 8 then CF64 else CF32, v.bits)], [])
    case Char => FlatPiece([Const(CI32, v.code)], [])
    case Str => FlatPiece([ArenaPtr(end), Const(CI32, |v.text|)], Lits(v.text))
    case Enum(cases) => FlatPiece([Const(CI32, CaseIndex(cases, v.case_))], [])
    case List(e) =>
      FlatPiece([ArenaPtr(AlignUp(end, Align(e))), Const(CI32, |v.elems|)], EncList(v.elems, e, end).body)
    case Record(_, fields) => EncFlatAll(v.vals, fields, end)
    case Tuple(items) => EncFlatAll(v.comps, items, end)
    case Opt(p) =>
      if v.inner == None then FlatPiece([Const(CI32, 0)] + ZeroFlats(FlatTypes(p)), [])
      else FlatPiece([Const(CI32, 1)], []).Then(EncFlat(v.inner.value, p, end))
  }

  ghost function EncFlatAll(vs: seq<Val>, tys: seq<Ty>, end: nat): (p: FlatPiece)
    requires AllFit(vs, tys)
    ensures KindsAre(p.flats, FlatAll(tys))
    decreases tys, 1
  {
    if tys == [] then FlatPiece([], [])
    else
      var first := EncFlat(vs[0], tys[0], end);
      first.Then(EncFlatAll(vs[1..], tys[1..], end + |first.body|))
  }

  /** What the flat constants' pointers refer to is in place. */
  ghost predicate BodyLaid(mem: seq<byte>, base: nat, end: nat, body: seq<Cell>) {
    base % 8 == 0 && base + end + |body| < 0x1_0000_0000 && Shows(mem, base, base + end, body)
  }

  lemma BodySplit(mem: seq<byte>, base: nat, end: nat, a: seq<Cell>, b: seq<Cell>)
    requires BodyLaid(mem, base, end, a + b)
    ensures BodyLaid(mem, base, end, a) && BodyLaid(mem, base, end + |a|, b)
  {
    hide Shows;
    ShowsSplit(mem, base, base + end, a, b);
    assert base + end + |a| == base + (end + |a|);
  }

  lemma MatchesResolved(fs: seq<FlatConst>, kinds: seq<Core>, base: nat, rest: seq<CoreVal>)
    requires KindsAre(fs, kinds)
    ensures Matches(ResolveAll(fs, base) + rest, kinds)
    ensures (ResolveAll(fs, base) + rest)[|kinds|..] == rest
  {
    var all := ResolveAll(fs, base);
    forall i | 0 <= i < |kinds|
      ensures (all + rest)[i].core == kinds[i]
    {
      assert (all + rest)[i] == all[i] == Resolve(fs[i], base);
      assert CoreOf(fs[i]) == kinds[i];
    }
  }

  lemma ResolveJoin(a: seq<FlatConst>, b: seq<FlatConst>, base: nat, rest: seq<CoreVal>)
    ensures ResolveAll(a + b, base) + rest == ResolveAll(a, base) + (ResolveAll(b, base) + rest)
  {
  }

  /** Lifting a parameter's flat constants gives the value back and consumes just them. */
  lemma {:induction false} FlatLifts(mem: seq<byte>, base: nat, v: Val, ty: Ty, end: nat, rest: seq<CoreVal>)
    requires Fits(v, ty)
    requires BodyLaid(mem, base, end, EncFlat(v, ty, end).body)
    ensures Lift(mem, ty, ResolveAll(EncFlat(v, ty, end).flats, base) + rest) == Some((v, rest))
    decreases ty, 2
  {
    hide KindsAre, FlatTypes, Matches, ResolveAll, Resolve, EncFlatAll, LiftAll, BodyLaid, EncList, IntFits, IsUtf8;
    hide AlignUp, Align, Unsigned, Signed, IsScalarValue, Distinct, CaseIndex, Pow256, LoadListFrom, Lits, ZeroFlats;
    var fs := EncFlat(v, ty, end).flats;
    var args := ResolveAll(fs, base) + rest;
    MatchesResolved(fs, FlatTypes(ty), base, rest);
    match ty {
      case Record(_, fields) => AllLift(mem, base, v.vals, fields, end, rest);
      case Tuple(items) => AllLift(mem, base, v.comps, items, end, rest);
      case Opt(p) =>
        if v.inner == None {
          assert fs[0] == Const(CI32, 0);
          FirstResolved(fs, base, rest);
        } else {
          var inner := EncFlat(v.inner.value, p, end);
          assert fs == [Const(CI32, 1)] + inner.flats;
          FirstResolved(fs, base, rest);
          ResolveJoin([Const(CI32, 1)], inner.flats, base, rest);
          assert [] + inner.body == inner.body;
          assert args[1..] == ResolveAll(inner.flats, base) + rest;
          FlatLifts(mem, base, v.inner.value, p, end, rest);
        }
      case Str =>
        FirstResolved(fs, base, rest);
        StringLifts(mem, base, v.text, end);
      case List(e) =>
        FirstResolved(fs, base, rest);
        ListLifts(mem, base, v.elems, e, end);
      case _ =>
        FirstResolved(fs, base, rest);
        ScalarLifts(mem, base, v, ty, end, rest);
    }
  }

  lemma FirstResolved(fs: seq<FlatConst>, base: nat, rest: seq<CoreVal>)
    requires |fs| > 0
    ensures var args := ResolveAll(fs, base) + rest;
      args[0] == Resolve(fs[0], base) && (|fs| == 2 ==> args[1] == Resolve(fs[1], base))
    ensures fs[0].Const? ==> Resolve(fs[0], base).bits == fs[0].bits
    ensures fs[0].ArenaPtr? ==> Resolve(fs[0], base).bits == base + fs[0].offset
    ensures |fs| == 2 && fs[1].Const? ==> Resolve(fs[1], base).bits == fs[1].bits
  {
  }

  lemma StringLifts(mem: seq<byte>, base: nat, text: seq<byte>, end: nat)
    requires IsUtf8(text) && BodyLaid(mem, base, end, Lits(text))
    ensures LoadStringFrom(mem, base + end, |text|) == Some(VStr(text))
  {
    hide IsUtf8;
    ShowsBytes(mem, base, base + end, text);
  }

  lemma ListLifts(mem: seq<byte>, base: nat, vs: seq<Val>, e: Ty, end: nat)
    requires AllFitElem(vs, e) && BodyLaid(mem, base, end, EncList(vs, e, end).body)
    ensures LoadListFrom(mem, e, base + AlignUp(end, Align(e)), |vs|) == Some(VList(vs))
  {
    hide Shows, EncList, LoadListFrom, AlignUp, Align;
    ListBodyLoads(mem, base, vs, e, end);
  }

  lemma NarrowWord(n: int, w: nat, signed: bool)
    requires IsAlign(w) && IntFits(n, w, signed)
    ensures var u := Unsigned(n, if w == 8 then 8 else 4) % Pow256(w);
      (if signed then Signed(u, w) else u) == n
  {
    Pow256Widths();
    if w == 1 {
      assert Unsigned(n, 4) % 0x100 == n % 0x100;
    } else if w == 2 {
      assert Unsigned(n, 4) % 0x1_0000 == n % 0x1_0000;
    } else if w == 4 {
      assert Unsigned(n, 4) % 0x1_0000_0000 == n % 0x1_0000_0000;
    } else {
      assert Unsigned(n, 8) % 0x1_0000_0000_0000_0000 == n % 0x1_0000_0000_0000_0000;
    }
  }

  lemma ScalarLifts(mem: seq<byte>, base: nat, v: Val, ty: Ty, end: nat, rest: seq<CoreVal>)
    requires Fits(v, ty) && Scalar(ty)
    ensures var args := ResolveAll(EncFlat(v, ty, end).flats, base) + rest;
      Matches(args, FlatTypes(ty)) && args[|FlatTypes(ty)|..] == rest && Lift(mem, ty, args) == Some((v, rest))
  {
    hide Unsigned, Signed, Pow256, IntFits, ResolveAll, Distinct, Matches;
    var fs := EncFlat(v, ty, end).flats;
    MatchesResolved(fs, FlatTypes(ty), base, rest);
    FirstResolved(fs, base, rest);
    match ty {
      case Int(w, signed) => NarrowWord(v.n, w, signed);
      case _ =>
    }
  }

  /** Lifting a whole parameter list gives all the values back. */
  lemma {:induction false} AllLift(mem: seq<byte>, base: nat, vs: seq<Val>, tys: seq<Ty>, end: nat, rest: seq<CoreVal>)
    requires AllFit(vs, tys)
    requires BodyLaid(mem, base, end, EncFlatAll(vs, tys, end).body)
    ensures LiftAll(mem, tys, ResolveAll(EncFlatAll(vs, tys, end).flats, base) + rest) == Some((vs, rest))
    decreases tys, 1
  {
    hide KindsAre, FlatTypes, EncFlat, Lift, BodyLaid, HasType, WellFormed, ResolveAll;
    if tys == [] {
      ResolveNone(base, rest);
      assert vs == [];
    } else {
      var first := EncFlat(vs[0], tys[0], end);
      var more := EncFlatAll(vs[1..], tys[1..], end + |first.body|);
      BodySplit(mem, base, end, first.body, more.body);
      ResolveJoin(first.flats, more.flats, base, rest);
      FlatLifts(mem, base, vs[0], tys[0], end, ResolveAll(more.flats, base) + rest);
      AllLift(mem, base, vs[1..], tys[1..], end + |first.body|, rest);
      assert [vs[0]] + vs[1..] == vs;
    }
  }

  lemma ResolveNone(base: nat, rest: seq<CoreVal>)
    ensures ResolveAll([], base) + rest == rest
  {
  }
}
