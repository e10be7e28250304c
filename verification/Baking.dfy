/**
  What compose-time configuration lays down for a value: the canonical layout of the
  constant arena, with every arena-internal pointer still relative, and the flat constants
  of a by-value parameter list. The theorems say that a callee which loads or lifts them
  with the canonical ABI, once the pointers are rebased, gets the value back.
*/
module Baking {
  import opened Arith
  import opened Bytes
  import opened Utf8
  import opened CanonicalAbi

  const ARENA_LIMIT: nat := 64 * 1024 * 1024

  /** One byte of the arena: a constant, or byte `k` of a relocated pointer to `target`. */
  datatype Cell = Lit(b: byte) | Rel(target: nat, k: nat)

  function Lits(bytes: seq<byte>): (cells: seq<Cell>)
    ensures |cells| == |bytes|
    ensures forall i :: 0 <= i < |bytes| ==> cells[i] == Lit(bytes[i])
  {
    seq(|bytes|, i requires 0 <= i < |bytes| => Lit(bytes[i]))
  }

  function Blank(n: nat): (cells: seq<Cell>)
    ensures |cells| == n && forall i :: 0 <= i < n ==> cells[i] == Lit(0)
  {
    Lits(Zeros(n))
  }

  function Pointer(target: nat): (cells: seq<Cell>)
    ensures |cells| == 4 && forall i :: 0 <= i < 4 ==> cells[i] == Rel(target, i)
  {
    [Rel(target, 0), Rel(target, 1), Rel(target, 2), Rel(target, 3)]
  }

  ghost predicate Fits(v: Val, ty: Ty) {
    WellFormed(ty) && HasType(v, ty)
  }

  ghost predicate AllFit(vs: seq<Val>, tys: seq<Ty>) {
    AllWellFormed(tys) && AllHaveType(vs, tys)
  }

  /** The two's complement word of `n` in `w` bytes. */
  function Unsigned(n: int, w: nat): (u: nat)
    ensures u < Pow256(w)
  {
    n % Pow256(w)
  }

  function CaseIndex(cases: seq<string>, name: string): (i: nat)
    requires name in cases
    ensures i < |cases| && cases[i] == name
    ensures forall j :: 0 <= j < i ==> cases[j] != name
  {
    if cases[0] == name then 0 else 1 + CaseIndex(cases[1..], name)
  }

  /** A value's own cells, and the cells of the strings and lists it appends. */
  datatype Piece = Piece(slot: seq<Cell>, body: seq<Cell>) {
    function Then(next: Piece): Piece {
      Piece(slot + next.slot, body + next.body)
    }
  }

  /** The layout of `v`, when what it appends starts at arena offset `end`. */
  ghost function Enc(v: Val, ty: Ty, end: nat): (p: Piece)
    requires Fits(v, ty)
    ensures |p.slot| == Size(ty)
    decreases ty, 2
  {
    match ty
    case Bool => Piece(Lits([if v.b then 1 else 0]), [])
    case Int(w, _) => Piece(Lits(Le(Unsigned(v.n, w), w)), [])
    case Float(w) => Piece(Lits(Le(v.bits, w)), [])
    case Char => Piece(Lits(Le(v.code, 4)), [])
    case Str => Piece(Pointer(end) + Lits(Le(|v.text|, 4)), Lits(v.text))
    case Enum(cases) => Piece(Lits(Le(CaseIndex(cases, v.case_), TagWidth(|cases|))), [])
    case List(e) => EncList(v.elems, e, end)
    case Record(_, fields) => EncRecord(v.vals, fields, Size(ty), end)
    case Tuple(items) => EncRecord(v.comps, items, Size(ty), end)
    case Opt(p) => if v.inner == None then Piece(Blank(Size(ty)), []) else EncSome(v.inner.value, p, Size(ty), end)
  }

  /** A list: a pointer and a count, and the elements appended at their own alignment. */
  ghost function EncList(vs: seq<Val>, e: Ty, end: nat): (p: Piece)
    requires AllFitElem(vs, e)
    ensures |p.slot| == 8
    decreases e, 4
  {
    var first := AlignUp(end, Align(e));
    var inner := EncElems(vs, e, first + Span(|vs|, Size(e)));
    Piece(Pointer(first) + Lits(Le(|vs|, 4)), Blank(first - end) + inner.slot + inner.body)
  }

  ghost function EncRecord(vs: seq<Val>, tys: seq<Ty>, size: nat, end: nat): (p: Piece)
    requires AllFit(vs, tys) && FieldsEnd(tys, 0) <= size
    ensures |p.slot| == size
    decreases tys, 2
  {
    var inner := EncFields(vs, tys, 0, end);
    Piece(inner.slot + Blank(size - |inner.slot|), inner.body)
  }

  /** A present option: the tag 1, then the payload at its alignment. */
  ghost function EncSome(v: Val, ty: Ty, size: nat, end: nat): (p: Piece)
    requires Fits(v, ty) && AlignUp(1, Align(ty)) + Size(ty) <= size
    ensures |p.slot| == size
    decreases ty, 3
  {
    var inner := Enc(v, ty, end);
    var at := AlignUp(1, Align(ty));
    Piece(Lits([1]) + Blank(at - 1) + inner.slot + Blank(size - at - Size(ty)), inner.body)
  }

  ghost predicate AllFitElem(vs: seq<Val>, e: Ty) {
    WellFormed(e) && forall i {:trigger vs[i]} :: 0 <= i < |vs| ==> HasType(vs[i], e)
  }

  ghost function EncElems(vs: seq<Val>, e: Ty, end: nat): (p: Piece)
    requires AllFitElem(vs, e)
    ensures |p.slot| == Span(|vs|, Size(e))
    decreases e, 3, |vs|
  {
    hide Size, HasType, WellFormed, Enc, Span;
    if vs == [] then (SpanStep(0, Size(e)); Piece([], []))
    else
      SpanStep(|vs| - 1, Size(e));
      var first := Enc(vs[0], e, end);
      first.Then(EncElems(vs[1..], e, end + |first.body|))
  }

  /** The fields of a record, the first placed at or after offset `at` of the record. */
  ghost function EncFields(vs: seq<Val>, tys: seq<Ty>, at: nat, end: nat): (p: Piece)
    requires AllFit(vs, tys)
    ensures |p.slot| == FieldsEnd(tys, at) - at
    decreases tys, 1
  {
    if tys == [] then Piece([], [])
    else
      var off := AlignUp(at, Align(tys[0]));
      var first := Enc(vs[0], tys[0], end);
      Piece(Blank(off - at), []).Then(first).Then(
        EncFields(vs[1..], tys[1..], off + Size(tys[0]), end + |first.body|))
  }

  // ----- what a cell is once the arena sits at `base` -----

  function Render(c: Cell, base: nat): byte {
    match c
    case Lit(b) => b
    case Rel(t, k) => if k < 4 then Le(base + t, 4)[k] else 0
  }

  ghost predicate Shows(mem: seq<byte>, base: nat, at: nat, cells: seq<Cell>) {
    && at + |cells| <= |mem|
    && forall i {:trigger cells[i]} :: 0 <= i < |cells| ==> mem[at + i] == Render(cells[i], base)
  }

  lemma ShowsSplit(mem: seq<byte>, base: nat, at: nat, a: seq<Cell>, b: seq<Cell>)
    requires Shows(mem, base, at, a + b)
    ensures Shows(mem, base, at, a) && Shows(mem, base, at + |a|, b)
  {
    forall i | 0 <= i < |a|
      ensures mem[at + i] == Render(a[i], base)
    {
      assert (a + b)[i] == a[i];
    }
    forall i | 0 <= i < |b|
      ensures mem[at + |a| + i] == Render(b[i], base)
    {
      assert (a + b)[|a| + i] == b[i];
    }
  }

  lemma ShowsBytes(mem: seq<byte>, base: nat, at: nat, bytes: seq<byte>)
    requires Shows(mem, base, at, Lits(bytes))
    ensures mem[at..at + |bytes|] == bytes
  {
    forall i | 0 <= i < |bytes|
      ensures mem[at + i] == bytes[i]
    {
      assert Lits(bytes)[i] == Lit(bytes[i]);
    }
  }

  lemma ShowsWord(mem: seq<byte>, base: nat, at: nat, n: nat, w: nat)
    requires n < Pow256(w)
    requires Shows(mem, base, at, Lits(Le(n, w)))
    ensures Word(mem, at, w) == n
  {
    ShowsBytes(mem, base, at, Le(n, w));
    LeRoundTrip(n, w);
  }

  lemma ShowsPointer(mem: seq<byte>, base: nat, at: nat, target: nat)
    requires base + target < 0x1_0000_0000
    requires Shows(mem, base, at, Pointer(target))
    ensures Word(mem, at, 4) == base + target
  {
    var le := Le(base + target, 4);
    forall i | 0 <= i < 4
      ensures mem[at + i] == le[i]
    {
      assert Pointer(target)[i] == Rel(target, i);
    }
    assert mem[at..at + 4] == le;
    Pow256Widths();
    LeRoundTrip(base + target, 4);
  }

  // ----- arithmetic of layout -----

  lemma AlignSum(x: nat, y: nat, a: nat)
    requires IsAlign(a) && x % a == 0 && y % a == 0
    ensures (x + y) % a == 0
  {
    MultipleSum(x, y, a);
  }

  lemma AlignBase(base: nat, a: nat)
    requires IsAlign(a) && base % 8 == 0
    ensures base % a == 0
  {
    AlignDivides(base, a, 8);
  }

  lemma AlignDivides(x: nat, a: nat, b: nat)
    requires IsAlign(a) && IsAlign(b) && a <= b && x % b == 0
    ensures x % a == 0
  {
    if a < b {
      Euclid(x, b);
      var q := x / b;
      if a == 2 {
        MultipleIs(if b == 4 then 2 * q else 4 * q, 2);
      } else if a == 4 {
        MultipleIs(2 * q, 4);
      }
    }
  }

  lemma {:induction false} SizePositive(ty: Ty)
    requires WellFormed(ty)
    ensures Size(ty) > 0
    decreases ty
  {
    match ty
    case Record(_, fields) => SizePositive(fields[0]);
    case Tuple(items) => SizePositive(items[0]);
    case _ =>
  }

  lemma SignedUnsigned(n: int, w: nat)
    requires IsAlign(w) && IntFits(n, w, true)
    ensures Signed(Unsigned(n, w), w) == n
  {
    Pow256Widths();
  }

  lemma WordFits(n: nat, w: nat)
    requires IsAlign(w) && IntFits(n, w, false)
    ensures Unsigned(n, w) == n
  {
  }

  lemma FirstCase(cases: seq<string>, name: string)
    requires name in cases && |cases| < 0x1_0000_0000
    ensures CaseIndex(cases, name) < Pow256(TagWidth(|cases|))
  {
    Pow256Widths();
  }

  // ----- loading gives the value back -----

  /** The arena is laid out where the callee's loads look, and it is in the 32-bit range. */
  ghost predicate Laid(mem: seq<byte>, base: nat, off: nat, end: nat, p: Piece) {
    && base % 8 == 0
    && base + end + |p.body| < 0x1_0000_0000
    && Shows(mem, base, base + off, p.slot)
    && Shows(mem, base, base + end, p.body)
  }

  /** Storing and then loading gives the value back, for every bakeable nesting of types. */
  lemma {:induction false} EncLoads(mem: seq<byte>, base: nat, v: Val, ty: Ty, off: nat, end: nat)
    requires Fits(v, ty) && off % Align(ty) == 0
    requires Laid(mem, base, off, end, Enc(v, ty, end))
    ensures Load(mem, ty, base + off) == Some(v)
    decreases ty, 2
  {
    hide Load, Enc, Fits, Laid, Align, Size;
    match ty {
      case Str => StringCase(mem, base, v, off, end);
      case List(e) => ListCase(mem, base, v, e, off, end);
      case Record(names, fields) => RecordCase(mem, base, v, names, fields, off, end);
      case Tuple(items) => TupleCase(mem, base, v, items, off, end);
      case Opt(p) => OptionCase(mem, base, v, p, off, end);
      case _ => ScalarCase(mem, base, v, ty, off, end);
    }
  }

  /** The address is aligned and the slot lies inside memory. */
  lemma Placed(mem: seq<byte>, base: nat, off: nat, end: nat, p: Piece, a: nat)
    requires IsAlign(a) && off % a == 0 && Laid(mem, base, off, end, p)
    ensures (base + off) % a == 0 && base + off + |p.slot| <= |mem|
  {
    hide Shows;
    LaidInside(mem, base, off, end, p);
    AlignBase(base, a);
    AlignSum(base, off, a);
  }

  lemma ScalarCase(mem: seq<byte>, base: nat, v: Val, ty: Ty, off: nat, end: nat)
    requires Fits(v, ty) && Scalar(ty) && off % Align(ty) == 0
    requires Laid(mem, base, off, end, Enc(v, ty, end))
    ensures Load(mem, ty, base + off) == Some(v)
  {
    hide Load, Enc, Fits, Laid, Align;
    Placed(mem, base, off, end, Enc(v, ty, end), Align(ty));
    ScalarLoads(mem, base, v, ty, off, end);
  }

  lemma StringCase(mem: seq<byte>, base: nat, v: Val, off: nat, end: nat)
    requires Fits(v, Str) && off % Align(Str) == 0
    requires Laid(mem, base, off, end, Enc(v, Str, end))
    ensures Load(mem, Str, base + off) == Some(v)
  {
    hide Load, Enc, Laid, IsUtf8;
    Placed(mem, base, off, end, Enc(v, Str, end), 4);
    StringLoads(mem, base, v.text, off, end);
  }

  lemma {:induction false} ListCase(mem: seq<byte>, base: nat, v: Val, e: Ty, off: nat, end: nat)
    requires Fits(v, List(e)) && off % Align(List(e)) == 0
    requires Laid(mem, base, off, end, Enc(v, List(e), end))
    ensures Load(mem, List(e), base + off) == Some(v)
    decreases e, 6
  {
    hide EncList, Laid, LoadListFrom, Word;
    Placed(mem, base, off, end, Enc(v, List(e), end), 4);
    ListLoads(mem, base, v.elems, e, off, end);
  }

  lemma {:induction false} RecordCase(mem: seq<byte>, base: nat, v: Val, names: seq<string>, fields: seq<Ty>, off: nat, end: nat)
    requires Fits(v, Record(names, fields)) && off % Align(Record(names, fields)) == 0
    requires Laid(mem, base, off, end, Enc(v, Record(names, fields), end))
    ensures Load(mem, Record(names, fields), base + off) == Some(v)
    decreases fields, 3
  {
    hide EncRecord, Laid, LoadFields, FieldsEnd, MaxAlign, AlignUp, Distinct;
    Placed(mem, base, off, end, Enc(v, Record(names, fields), end), MaxAlign(fields));
    RecordLoads(mem, base, v.vals, fields, Size(Record(names, fields)), off, end);
  }

  lemma {:induction false} TupleCase(mem: seq<byte>, base: nat, v: Val, items: seq<Ty>, off: nat, end: nat)
    requires Fits(v, Tuple(items)) && off % Align(Tuple(items)) == 0
    requires Laid(mem, base, off, end, Enc(v, Tuple(items), end))
    ensures Load(mem, Tuple(items), base + off) == Some(v)
    decreases items, 3
  {
    hide EncRecord, Laid, LoadFields, FieldsEnd, MaxAlign, AlignUp;
    Placed(mem, base, off, end, Enc(v, Tuple(items), end), MaxAlign(items));
    RecordLoads(mem, base, v.comps, items, Size(Tuple(items)), off, end);
  }

  lemma {:induction false} OptionCase(mem: seq<byte>, base: nat, v: Val, p: Ty, off: nat, end: nat)
    requires Fits(v, Opt(p)) && off % Align(Opt(p)) == 0
    requires Laid(mem, base, off, end, Enc(v, Opt(p), end))
    ensures Load(mem, Opt(p), base + off) == Some(v)
    decreases p, 4
  {
    hide EncSome, Laid, AlignUp, Blank;
    Placed(mem, base, off, end, Enc(v, Opt(p), end), Align(p));
    SizePositive(Opt(p));
    if v.inner == None {
      NoneLoads(mem, base, p, off, end);
    } else {
      SomeLoads(mem, base, v.inner.value, p, Size(Opt(p)), off, end);
    }
  }

  predicate Scalar(ty: Ty) {
    ty.Bool? || ty.Int? || ty.Float? || ty.Char? || ty.Enum?
  }

  lemma ScalarLoads(mem: seq<byte>, base: nat, v: Val, ty: Ty, off: nat, end: nat)
    requires Fits(v, ty) && Scalar(ty) && (base + off) % Align(ty) == 0
    requires Laid(mem, base, off, end, Enc(v, ty, end))
    ensures Load(mem, ty, base + off) == Some(v)
  {
    hide Shows, Word, Le, Lits, Signed, Unsigned, Distinct;
    Pow256Widths();
    ShowsInside(mem, base, base + off, Enc(v, ty, end).slot);
    match ty {
      case Bool => ShowsBytes(mem, base, base + off, [if v.b then 1 else 0]);
      case Int(w, signed) =>
        ShowsWord(mem, base, base + off, Unsigned(v.n, w), w);
        if signed { SignedUnsigned(v.n, w); } else { WordFits(v.n, w); }
      case Float(w) => ShowsWord(mem, base, base + off, v.bits, w);
      case Char => ShowsWord(mem, base, base + off, v.code, 4);
      case Enum(cases) =>
        FirstCase(cases, v.case_);
        ShowsWord(mem, base, base + off, CaseIndex(cases, v.case_), TagWidth(|cases|));
    }
  }

  lemma LaidInside(mem: seq<byte>, base: nat, off: nat, end: nat, p: Piece)
    requires Laid(mem, base, off, end, p)
    ensures base % 8 == 0 && base + off + |p.slot| <= |mem|
  {
  }

  lemma NoneLoads(mem: seq<byte>, base: nat, ty: Ty, off: nat, end: nat)
    requires Size(Opt(ty)) > 0
    requires Laid(mem, base, off, end, Piece(Blank(Size(Opt(ty))), []))
    ensures base + off < |mem| && mem[base + off] == 0
  {
    hide Size;
    assert Blank(Size(Opt(ty)))[0] == Lit(0);
  }

  /** A pointer and a count, as a string or a list stores them. */
  lemma PairLoads(mem: seq<byte>, base: nat, at: nat, target: nat, count: nat)
    requires base + target < 0x1_0000_0000 && count < 0x1_0000_0000
    requires Shows(mem, base, at, Pointer(target) + Lits(Le(count, 4)))
    ensures Word(mem, at, 4) == base + target && Word(mem, at + 4, 4) == count
  {
    hide Shows, Word, Le;
    Pow256Widths();
    ShowsSplit(mem, base, at, Pointer(target), Lits(Le(count, 4)));
    ShowsPointer(mem, base, at, target);
    ShowsWord(mem, base, at + 4, count, 4);
  }

  lemma StringLoads(mem: seq<byte>, base: nat, text: seq<byte>, off: nat, end: nat)
    requires IsUtf8(text) && (base + off) % 4 == 0
    requires Laid(mem, base, off, end, Enc(VStr(text), Str, end))
    ensures Load(mem, Str, base + off) == Some(VStr(text))
  {
    hide IsUtf8, Word, Le, Pointer;
    ShowsBytes(mem, base, base + end, text);
    PairLoads(mem, base, base + off, end, |text|);
  }

  lemma {:induction false} ListBodyLoads(mem: seq<byte>, base: nat, vs: seq<Val>, e: Ty, end: nat)
    requires AllFitElem(vs, e) && base % 8 == 0
    requires base + end + |EncList(vs, e, end).body| < 0x1_0000_0000
    requires Shows(mem, base, base + end, EncList(vs, e, end).body)
    ensures base + AlignUp(end, Align(e)) < 0x1_0000_0000 && |vs| < 0x1_0000_0000
    ensures LoadListFrom(mem, e, base + AlignUp(end, Align(e)), |vs|) == Some(VList(vs))
    decreases e, 4
  {
    hide Enc, EncElems, Shows, Word, Le, HasType, WellFormed, Size, Align, Span, LoadElems;
    var first := AlignUp(end, Align(e));
    var tail := first + Span(|vs|, Size(e));
    var inner := EncElems(vs, e, tail);
    ShowsSplit(mem, base, base + end, Blank(first - end) + inner.slot, inner.body);
    ShowsSplit(mem, base, base + end, Blank(first - end), inner.slot);
    ElemsLoad(mem, base, vs, e, first, tail);
    SizePositive(e);
    SpanStep(|vs|, Size(e));
    AlignBase(base, Align(e));
    AlignSum(base, first, Align(e));
    ShowsInside(mem, base, base + first, inner.slot);
  }

  lemma {:induction false} ListLoads(mem: seq<byte>, base: nat, vs: seq<Val>, e: Ty, off: nat, end: nat)
    requires AllFitElem(vs, e)
    requires Laid(mem, base, off, end, EncList(vs, e, end))
    ensures LoadListFrom(mem, e, Word(mem, base + off, 4), Word(mem, base + off + 4, 4)) == Some(VList(vs))
    decreases e, 5
  {
    hide EncElems, Shows, Word, Le, HasType, WellFormed, Size, Align, Span, LoadListFrom;
    ListBodyLoads(mem, base, vs, e, end);
    PairLoads(mem, base, base + off, AlignUp(end, Align(e)), |vs|);
  }

  lemma ShowsInside(mem: seq<byte>, base: nat, at: nat, cells: seq<Cell>)
    requires Shows(mem, base, at, cells)
    ensures at + |cells| <= |mem|
  {
  }

  lemma LaidSplit(mem: seq<byte>, base: nat, off: nat, end: nat, p: Piece, q: Piece)
    requires Laid(mem, base, off, end, p.Then(q))
    ensures Laid(mem, base, off, end, p)
    ensures Laid(mem, base, off + |p.slot|, end + |p.body|, q)
  {
    hide Shows;
    ShowsSplit(mem, base, base + off, p.slot, q.slot);
    ShowsSplit(mem, base, base + end, p.body, q.body);
    assert base + off + |p.slot| == base + (off + |p.slot|) && base + end + |p.body| == base + (end + |p.body|);
  }

  lemma ElemsLaid(mem: seq<byte>, base: nat, vs: seq<Val>, e: Ty, off: nat, end: nat)
    requires AllFitElem(vs, e) && vs != []
    requires Laid(mem, base, off, end, EncElems(vs, e, end))
    ensures var first := Enc(vs[0], e, end);
      && Laid(mem, base, off, end, first)
      && Laid(mem, base, off + Size(e), end + |first.body|, EncElems(vs[1..], e, end + |first.body|))
  {
    hide Enc, Laid, HasType, WellFormed, Size, Piece.Then;
    var first := Enc(vs[0], e, end);
    var rest := EncElems(vs[1..], e, end + |first.body|);
    LaidSplit(mem, base, off, end, first, rest);
  }

  lemma {:induction false} ElemsLoad(mem: seq<byte>, base: nat, vs: seq<Val>, e: Ty, off: nat, end: nat)
    requires AllFitElem(vs, e) && off % Align(e) == 0
    requires Laid(mem, base, off, end, EncElems(vs, e, end))
    ensures LoadElems(mem, e, base + off, |vs|) == Some(vs)
    decreases e, 3, |vs|
  {
    hide Enc, EncElems, Laid, HasType, WellFormed, Size, Align, Load;
    if vs != [] {
      var next := end + |Enc(vs[0], e, end).body|;
      ElemsLaid(mem, base, vs, e, off, end);
      EncLoads(mem, base, vs[0], e, off, end);
      SizeAligned(e);
      AlignSum(off, Size(e), Align(e));
      ElemsLoad(mem, base, vs[1..], e, off + Size(e), next);
      assert base + (off + Size(e)) == base + off + Size(e);
      assert [vs[0]] + vs[1..] == vs;
    }
  }

  lemma FieldsLaid(mem: seq<byte>, base: nat, vs: seq<Val>, tys: seq<Ty>, off: nat, at: nat, end: nat)
    requires AllFit(vs, tys) && tys != []
    requires Laid(mem, base, off + at, end, EncFields(vs, tys, at, end))
    ensures var here := AlignUp(at, Align(tys[0]));
      var first := Enc(vs[0], tys[0], end);
      && Laid(mem, base, off + here, end, first)
      && Laid(mem, base, off + (here + Size(tys[0])), end + |first.body|,
              EncFields(vs[1..], tys[1..], here + Size(tys[0]), end + |first.body|))
  {
    hide Enc, Laid, HasType, WellFormed, Size, Align, AlignUp, FieldsEnd;
    var here := AlignUp(at, Align(tys[0]));
    var pad := Piece(Blank(here - at), []);
    var first := Enc(vs[0], tys[0], end);
    var rest := EncFields(vs[1..], tys[1..], here + Size(tys[0]), end + |first.body|);
    LaidSplit(mem, base, off + at, end, pad.Then(first), rest);
    LaidSplit(mem, base, off + at, end, pad, first);
    assert off + at + |pad.slot| == off + here && off + at + |pad.Then(first).slot| == off + (here + Size(tys[0]));
  }

  lemma {:induction false} FieldsLoad(mem: seq<byte>, base: nat, vs: seq<Val>, tys: seq<Ty>, off: nat, at: nat, end: nat)
    requires AllFit(vs, tys) && off % MaxAlign(tys) == 0
    requires Laid(mem, base, off + at, end, EncFields(vs, tys, at, end))
    ensures LoadFields(mem, tys, base + off, at) == Some(vs)
    decreases tys, 1
  {
    hide Enc, EncFields, Laid, HasType, WellFormed, Size, Align, Load, AlignUp;
    if tys != [] {
      var here := AlignUp(at, Align(tys[0]));
      var next := end + |Enc(vs[0], tys[0], end).body|;
      FieldsLaid(mem, base, vs, tys, off, at, end);
      AlignDivides(off, Align(tys[0]), MaxAlign(tys));
      AlignDivides(off, MaxAlign(tys[1..]), MaxAlign(tys));
      AlignSum(off, here, Align(tys[0]));
      EncLoads(mem, base, vs[0], tys[0], off + here, end);
      FieldsLoad(mem, base, vs[1..], tys[1..], off, here + Size(tys[0]), next);
      assert base + (off + here) == base + off + here;
      assert [vs[0]] + vs[1..] == vs;
    }
  }

  lemma {:induction false} RecordLoads(mem: seq<byte>, base: nat, vs: seq<Val>, tys: seq<Ty>, size: nat, off: nat, end: nat)
    requires AllFit(vs, tys) && off % MaxAlign(tys) == 0 && FieldsEnd(tys, 0) <= size
    requires Laid(mem, base, off, end, EncRecord(vs, tys, size, end))
    ensures LoadFields(mem, tys, base + off, 0) == Some(vs)
    decreases tys, 2
  {
    hide Shows, EncFields, FieldsEnd, MaxAlign, LoadFields, AllHaveType, AllWellFormed;
    var inner := EncFields(vs, tys, 0, end);
    ShowsSplit(mem, base, base + off, inner.slot, Blank(size - |inner.slot|));
    FieldsLoad(mem, base, vs, tys, off, 0, end);
  }

  lemma {:induction false} SomeLoads(mem: seq<byte>, base: nat, v: Val, ty: Ty, size: nat, off: nat, end: nat)
    requires Fits(v, ty) && off % Align(ty) == 0 && AlignUp(1, Align(ty)) + Size(ty) <= size
    requires Laid(mem, base, off, end, EncSome(v, ty, size, end))
    ensures base + off < |mem| && mem[base + off] == 1
    ensures Load(mem, ty, base + off + AlignUp(1, Align(ty))) == Some(v)
    decreases ty, 3
  {
    hide Shows, Enc, Load, Align, Size, HasType, WellFormed, AlignUp;
    var inner := Enc(v, ty, end);
    var at := AlignUp(1, Align(ty));
    var tail := Blank(size - at - Size(ty));
    ShowsSplit(mem, base, base + off, Lits([1]) + Blank(at - 1) + inner.slot, tail);
    ShowsSplit(mem, base, base + off, Lits([1]) + Blank(at - 1), inner.slot);
    ShowsSplit(mem, base, base + off, Lits([1]), Blank(at - 1));
    ShowsBytes(mem, base, base + off, [1]);
    ShowsInside(mem, base, base + off, Lits([1]));
    assert mem[base + off] == mem[base + off..base + off + 1][0];
    AlignSum(off, at, Align(ty));
    EncLoads(mem, base, v, ty, off + at, end);
    assert base + (off + at) == base + off + at;
  }
}
