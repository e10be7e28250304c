/**
  The part of the Component Model's canonical ABI that compose-time configuration relies on:
  value types, their layout in linear memory, and how a callee loads or lifts a value
  (CanonicalABI.md, sections Alignment, Element Size, Loading, Flattening, Flat Lifting).
*/
module CanonicalAbi {
  import opened Bytes
  import opened Utf8

  /** The value types that can be baked; aliases are taken as resolved. */
  datatype Ty =
    | Bool
    | Int(width: nat, signed: bool)
    | Float(fwidth: nat)
    | Char
    | Str
    | Enum(cases: seq<string>)
    | List(elem: Ty)
    | Record(names: seq<string>, fields: seq<Ty>)
    | Tuple(items: seq<Ty>)
    | Opt(payload: Ty)

  /** Values; a float is its bit pattern, a string its UTF-8 bytes. */
  datatype Val =
    | VBool(b: bool)
    | VInt(n: int)
    | VFloat(bits: nat)
    | VChar(code: nat)
    | VStr(text: seq<byte>)
    | VEnum(case_: string)
    | VList(elems: seq<Val>)
    | VRecord(labels: seq<string>, vals: seq<Val>)
    | VTuple(comps: seq<Val>)
    | VOpt(inner: Option<Val>)

  ghost predicate Distinct(names: seq<string>) {
    forall i, j {:trigger names[i], names[j]} :: 0 <= i < j < |names| ==> names[i] != names[j]
  }

  /** What the WIT grammar guarantees of a type. */
  ghost predicate WellFormed(ty: Ty)
    decreases ty, 1
  {
    match ty
    case Int(w, _) => w == 1 || w == 2 || w == 4 || w == 8
    case Float(w) => w == 4 || w == 8
    case Enum(cases) => 0 < |cases| < 0x1_0000_0000 && Distinct(cases)
    case List(e) => WellFormed(e)
    case Record(names, fields) => |names| == |fields| > 0 && Distinct(names) && AllWellFormed(fields)
    case Tuple(items) => |items| > 0 && AllWellFormed(items)
    case Opt(p) => WellFormed(p)
    case _ => true
  }

  ghost predicate AllWellFormed(tys: seq<Ty>)
    decreases tys, 0
  {
    tys == [] || (WellFormed(tys[0]) && AllWellFormed(tys[1..]))
  }

  predicate IntFits(n: int, w: nat, signed: bool) {
    if signed then -(Pow256(w) / 2) <= n < Pow256(w) / 2 else 0 <= n < Pow256(w)
  }

  predicate IsScalarValue(code: int) {
    0 <= code < 0xD800 || 0xE000 <= code < 0x11_0000
  }

  ghost predicate HasType(v: Val, ty: Ty)
    decreases ty, 1
  {
    match ty
    case Bool => v.VBool?
    case Int(w, signed) => v.VInt? && IntFits(v.n, w, signed)
    case Float(w) => v.VFloat? && v.bits < Pow256(w)
    case Char => v.VChar? && IsScalarValue(v.code)
    case Str => v.VStr? && IsUtf8(v.text)
    case Enum(cases) => v.VEnum? && v.case_ in cases
    case List(e) => v.VList? && forall i {:trigger v.elems[i]} :: 0 <= i < |v.elems| ==> HasType(v.elems[i], e)
    case Record(names, fields) => v.VRecord? && v.labels == names && AllHaveType(v.vals, fields)
    case Tuple(items) => v.VTuple? && AllHaveType(v.comps, items)
    case Opt(p) => v.VOpt? && (v.inner.Some? ==> HasType(v.inner.value, p))
  }

  ghost predicate AllHaveType(vs: seq<Val>, tys: seq<Ty>)
    decreases tys, 0
  {
    |vs| == |tys| && (tys == [] || (HasType(vs[0], tys[0]) && AllHaveType(vs[1..], tys[1..])))
  }

  // ----- alignment and size -----

  predicate IsAlign(a: nat) {
    a == 1 || a == 2 || a == 4 || a == 8
  }

  function UpTo2(x: nat): (r: nat)
    ensures x <= r < x + 2 && r % 2 == 0
  {
    (x + 1) / 2 * 2
  }

  function UpTo4(x: nat): (r: nat)
    ensures x <= r < x + 4 && r % 4 == 0
  {
    (x + 3) / 4 * 4
  }

  function UpTo8(x: nat): (r: nat)
    ensures x <= r < x + 8 && r % 8 == 0
  {
    (x + 7) / 8 * 8
  }

  /** The next multiple of `a` at or after `x`. */
  function AlignUp(x: nat, a: nat): (r: nat)
    requires IsAlign(a)
    ensures x <= r < x + a && r % a == 0
  {
    hide UpTo2, UpTo4, UpTo8;
    if a == 1 then x else if a == 2 then UpTo2(x) else if a == 4 then UpTo4(x) else UpTo8(x)
  }

  /** The width of the discriminant of an enum with `n` cases. */
  function TagWidth(n: nat): (w: nat)
    ensures IsAlign(w) && w <= 4
  {
    if n <= 0x100 then 1 else if n <= 0x1_0000 then 2 else 4
  }

  function Align(ty: Ty): (a: nat)
    ensures IsAlign(a)
    decreases ty, 1
  {
    match ty
    case Bool => 1
    case Int(w, _) => if IsAlign(w) then w else 1
    case Float(w) => if IsAlign(w) then w else 1
    case Char => 4
    case Str => 4
    case Enum(cases) => TagWidth(|cases|)
    case List(_) => 4
    case Record(_, fields) => MaxAlign(fields)
    case Tuple(items) => MaxAlign(items)
    case Opt(p) => Align(p)
  }

  function MaxAlign(tys: seq<Ty>): (a: nat)
    ensures IsAlign(a)
    decreases tys, 0
  {
    if tys == [] then 1 else Max(Align(tys[0]), MaxAlign(tys[1..]))
  }

  function Size(ty: Ty): nat
    decreases ty, 1
  {
    match ty
    case Bool => 1
    case Int(w, _) => if IsAlign(w) then w else 1
    case Float(w) => if IsAlign(w) then w else 1
    case Char => 4
    case Str => 8
    case Enum(cases) => TagWidth(|cases|)
    case List(_) => 8
    case Record(_, fields) => AlignUp(FieldsEnd(fields, 0), MaxAlign(fields))
    case Tuple(items) => AlignUp(FieldsEnd(items, 0), MaxAlign(items))
    case Opt(p) => AlignUp(AlignUp(1, Align(p)) + Size(p), Align(p))
  }

  /** Where the fields end when the first is placed at or after `at`. */
  function FieldsEnd(tys: seq<Ty>, at: nat): (end: nat)
    ensures at <= end
    decreases tys, 0
  {
    if tys == [] then at else FieldsEnd(tys[1..], AlignUp(at, Align(tys[0])) + Size(tys[0]))
  }

  /** A size is always a multiple of the alignment. */
  lemma SizeAligned(ty: Ty)
    ensures Size(ty) % Align(ty) == 0
  {
  }

  // ----- loading -----

  /** The signed reading of a `w`-byte word. */
  function Signed(n: nat, w: nat): int {
    if n < Pow256(w) / 2 then n else n - Pow256(w)
  }

  function Word(mem: seq<byte>, ptr: nat, w: nat): nat
    requires ptr + w <= |mem|
  {
    LeValue(mem[ptr..ptr + w])
  }

  /** Load the value of type `ty` at `ptr`; `None` is a trap. */
  function Load(mem: seq<byte>, ty: Ty, ptr: nat): Option<Val>
    decreases ty, 2
  {
    if ptr % Align(ty) != 0 || ptr + Size(ty) > |mem| then None
    else
      match ty
      case Bool => Some(VBool(mem[ptr] != 0))
      case Int(w, signed) =>
        if !IsAlign(w) then None
        else if signed then Some(VInt(Signed(Word(mem, ptr, w), w)))
        else Some(VInt(Word(mem, ptr, w)))
      case Float(w) => if !IsAlign(w) then None else Some(VFloat(Word(mem, ptr, w)))
      case Char => LiftChar(Word(mem, ptr, 4))
      case Str => LoadStringFrom(mem, Word(mem, ptr, 4), Word(mem, ptr + 4, 4))
      case Enum(cases) => LiftEnum(cases, Word(mem, ptr, TagWidth(|cases|)))
      case List(e) => LoadListFrom(mem, e, Word(mem, ptr, 4), Word(mem, ptr + 4, 4))
      case Record(names, fields) =>
        var vs := LoadFields(mem, fields, ptr, 0);
        if vs == None then None else Some(VRecord(names, vs.value))
      case Tuple(items) =>
        var vs := LoadFields(mem, items, ptr, 0);
        if vs == None then None else Some(VTuple(vs.value))
      case Opt(p) =>
        if mem[ptr] == 0 then Some(VOpt(None))
        else if mem[ptr] != 1 then None
        else
          var v := Load(mem, p, ptr + AlignUp(1, Align(p)));
          if v == None then None else Some(VOpt(v))
  }

  function LiftChar(code: nat): Option<Val> {
    if IsScalarValue(code) then Some(VChar(code)) else None
  }

  function LiftEnum(cases: seq<string>, index: nat): Option<Val> {
    if index < |cases| then Some(VEnum(cases[index])) else None
  }

  function LoadStringFrom(mem: seq<byte>, begin: nat, len: nat): Option<Val> {
    if begin + len > |mem| || !IsUtf8(mem[begin..begin + len]) then None
    else Some(VStr(mem[begin..begin + len]))
  }

  /** The bytes `len` elements of `size` bytes take. */
  function Span(len: nat, size: nat): nat {
    len * size
  }

  lemma SpanStep(len: nat, size: nat)
    ensures Span(0, size) == 0
    ensures Span(len + 1, size) == size + Span(len, size)
    ensures size > 0 ==> len <= Span(len, size)
  {
  }

  function LoadListFrom(mem: seq<byte>, e: Ty, begin: nat, len: nat): Option<Val>
    decreases e, 4
  {
    if begin % Align(e) != 0 || begin + Span(len, Size(e)) > |mem| then None
    else
      var vs := LoadElems(mem, e, begin, len);
      if vs == None then None else Some(VList(vs.value))
  }

  function LoadElems(mem: seq<byte>, e: Ty, ptr: nat, len: nat): Option<seq<Val>>
    decreases e, 3, len
  {
    if len == 0 then Some([])
    else
      var first := Load(mem, e, ptr);
      var rest := LoadElems(mem, e, ptr + Size(e), len - 1);
      if first == None || rest == None then None else Some([first.value] + rest.value)
  }

  /** The fields of a record at `ptr`, the first of them at or after offset `at`. */
  function LoadFields(mem: seq<byte>, tys: seq<Ty>, ptr: nat, at: nat): Option<seq<Val>>
    decreases tys, 0
  {
    if tys == [] then Some([])
    else
      var off := AlignUp(at, Align(tys[0]));
      var first := Load(mem, tys[0], ptr + off);
      var rest := LoadFields(mem, tys[1..], ptr, off + Size(tys[0]));
      if first == None || rest == None then None else Some([first.value] + rest.value)
  }

  // ----- flattening -----

  datatype Core = CI32 | CI64 | CF32 | CF64

  /** The core types a value type is passed as. */
  function FlatTypes(ty: Ty): seq<Core>
    decreases ty, 1
  {
    match ty
    case Bool => [CI32]
    case Int(w, _) => [if w == 8 then CI64 else CI32]
    case Float(w) => [if w == 8 then CF64 else CF32]
    case Char => [CI32]
    case Str => [CI32, CI32]
    case Enum(_) => [CI32]
    case List(_) => [CI32, CI32]
    case Record(_, fields) => FlatAll(fields)
    case Tuple(items) => FlatAll(items)
    case Opt(p) => [CI32] + FlatTypes(p)
  }

  function FlatAll(tys: seq<Ty>): seq<Core>
    decreases tys, 0
  {
    if tys == [] then [] else FlatTypes(tys[0]) + FlatAll(tys[1..])
  }

  /** A core value: its type and its bit pattern. */
  datatype CoreVal = CoreVal(core: Core, bits: nat)

  /** The front of `args` has the given core types. */
  predicate Matches(args: seq<CoreVal>, kinds: seq<Core>) {
    |args| >= |kinds| && forall i :: 0 <= i < |kinds| ==> args[i].core == kinds[i]
  }

  /** Lift a value of type `ty` from the front of `args`; `None` is a trap. */
  function Lift(mem: seq<byte>, ty: Ty, args: seq<CoreVal>): Option<(Val, seq<CoreVal>)>
    decreases ty, 5
  {
    if !Matches(args, FlatTypes(ty)) then None
    else
      var rest := args[|FlatTypes(ty)|..];
      match ty
      case Bool => Some((VBool(args[0].bits != 0), rest))
      case Int(w, signed) =>
        var n := args[0].bits % Pow256(w);
        Some((VInt(if signed then Signed(n, w) else n), rest))
      case Float(w) => Some((VFloat(args[0].bits), rest))
      case Char => WithRest(LiftChar(args[0].bits), rest)
      case Str => WithRest(LoadStringFrom(mem, args[0].bits, args[1].bits), rest)
      case Enum(cases) => WithRest(LiftEnum(cases, args[0].bits), rest)
      case List(e) => WithRest(LoadListFrom(mem, e, args[0].bits, args[1].bits), rest)
      case Record(names, fields) =>
        var vs := LiftAll(mem, fields, args);
        if vs == None then None else Some((VRecord(names, vs.value.0), vs.value.1))
      case Tuple(items) =>
        var vs := LiftAll(mem, items, args);
        if vs == None then None else Some((VTuple(vs.value.0), vs.value.1))
      case Opt(p) =>
        if args[0].bits == 0 then Some((VOpt(None), rest))
        else if args[0].bits != 1 then None
        else
          var v := Lift(mem, p, args[1..]);
          if v == None then None else Some((VOpt(Some(v.value.0)), v.value.1))
  }

  function WithRest(v: Option<Val>, rest: seq<CoreVal>): Option<(Val, seq<CoreVal>)> {
    if v == None then None else Some((v.value, rest))
  }

  function LiftAll(mem: seq<byte>, tys: seq<Ty>, args: seq<CoreVal>): Option<(seq<Val>, seq<CoreVal>)>
    decreases tys, 0
  {
    if tys == [] then Some(([], args))
    else
      var first := Lift(mem, tys[0], args);
      if first == None then None
      else
        var rest := LiftAll(mem, tys[1..], first.value.1);
        if rest == None then None else Some(([first.value.0] + rest.value.0, rest.value.1))
  }

  // ----- a function's core signature -----

  /** The core parameters of a function with parameters of these types: their flat types when
      there are at most 16, and else the address of one record. */
  function CoreParams(tys: seq<Ty>): (kinds: seq<Core>)
    ensures |kinds| <= 16
  {
    if |FlatAll(tys)| <= 16 then FlatAll(tys) else [CI32]
  }

  /** The callee reads its parameters off core arguments of its core signature. */
  ghost predicate CalleeReads(mem: seq<byte>, tys: seq<Ty>, args: seq<CoreVal>, vals: seq<Val>) {
    && TypedAs(args, CoreParams(tys))
    && if |FlatAll(tys)| <= 16 then LiftAll(mem, tys, args) == Some((vals, []))
       else Load(mem, Tuple(tys), args[0].bits) == Some(VTuple(vals))
  }

  /** As many arguments as there are parameters, each of its core type. */
  ghost predicate TypedAs(args: seq<CoreVal>, kinds: seq<Core>) {
    |args| == |kinds| && forall i :: 0 <= i < |kinds| ==> args[i].core == kinds[i]
  }

  /** The discriminant of an enum is the narrowest word that numbers all its cases. */
  lemma TagWidthLeast(n: nat, w: nat)
    requires n <= 0x1_0000_0000
    ensures n <= Pow256(TagWidth(n)) && (w in {1, 2, 4} && n <= Pow256(w) ==> TagWidth(n) <= w)
  {
    Pow256Widths();
  }

  // ----- alignment and size, part by part -----

  /** A word of `w` bytes lies in the type's own memory; a pointer or a length is one of four. */
  ghost predicate HoldsWord(ty: Ty, w: nat)
    decreases ty, 1
  {
    match ty
    case Bool => w == 1
    case Int(width, _) => w == width
    case Float(width) => w == width
    case Enum(cases) => w in {1, 2, 4} && |cases| <= Pow256(w) && forall v :: v in {1, 2, 4} && |cases| <= Pow256(v) ==> w <= v
    case Record(_, fields) => SomeHoldsWord(fields, w)
    case Tuple(items) => SomeHoldsWord(items, w)
    case Opt(p) => w == 1 || HoldsWord(p, w)
    case _ => w == 4
  }

  ghost predicate SomeHoldsWord(tys: seq<Ty>, w: nat)
    decreases tys, 0
  {
    tys != [] && (HoldsWord(tys[0], w) || SomeHoldsWord(tys[1..], w))
  }

  /** A type is aligned as its widest word. */
  lemma {:induction false} AlignIsWidest(ty: Ty, w: nat)
    requires WellFormed(ty)
    ensures HoldsWord(ty, Align(ty)) && (HoldsWord(ty, w) ==> w <= Align(ty))
    decreases ty, 1
  {
    match ty
    case Enum(cases) => forall v { TagWidthLeast(|cases|, v); }
    case Record(_, fields) => WidestOf(fields, w);
    case Tuple(items) => WidestOf(items, w);
    case Opt(p) => AlignIsWidest(p, w);
    case _ =>
  }

  lemma {:induction false} WidestOf(tys: seq<Ty>, w: nat)
    requires tys != [] && AllWellFormed(tys)
    ensures SomeHoldsWord(tys, MaxAlign(tys)) && (SomeHoldsWord(tys, w) ==> w <= MaxAlign(tys))
    decreases tys, 0
  {
    AlignIsWidest(tys[0], w);
    assert MaxAlign(tys) == Max(Align(tys[0]), MaxAlign(tys[1..]));
    if |tys| > 1 {
      hide Align, MaxAlign;
      WidestOf(tys[1..], w);
    } else {
      assert tys[1..] == [] && MaxAlign([]) == 1 && !SomeHoldsWord([], w);
      assert MaxAlign(tys) == Align(tys[0]);
    }
  }

  /** Each part begins at the first place after the one before it that is aligned for it. */
  ghost predicate Packed(tys: seq<Ty>, at: seq<nat>, from: nat)
    requires |at| == |tys|
  {
    forall i :: 0 <= i < |tys| ==> BeginsAt(tys, at, from, i)
  }

  ghost predicate BeginsAt(tys: seq<Ty>, at: seq<nat>, from: nat, i: nat)
    requires |at| == |tys| && i < |tys|
  {
    var end := if i == 0 then from else at[i - 1] + Size(tys[i - 1]);
    end <= at[i] < end + Align(tys[i]) && at[i] % Align(tys[i]) == 0
  }

  lemma {:induction false} FieldsPacked(tys: seq<Ty>, from: nat) returns (at: seq<nat>)
    ensures |at| == |tys| && Packed(tys, at, from)
    ensures FieldsEnd(tys, from) == if tys == [] then from else at[|tys| - 1] + Size(tys[|tys| - 1])
    decreases |tys|
  {
    hide Size, Align, AlignUp;
    if tys == [] {
      at := [];
    } else {
      var here := AlignUp(from, Align(tys[0]));
      var rest := FieldsPacked(tys[1..], here + Size(tys[0]));
      at := [here] + rest;
      forall i | 0 <= i < |tys|
        ensures BeginsAt(tys, at, from, i)
      {
        if i > 0 { assert BeginsAt(tys[1..], rest, here + Size(tys[0]), i - 1); }
      }
    }
  }

  /** A record's fields are packed, and its size is the next multiple of its alignment. */
  lemma RecordIsPacked(names: seq<string>, fields: seq<Ty>) returns (at: seq<nat>)
    requires fields != []
    ensures |at| == |fields| && Packed(fields, at, 0)
    ensures var end, ty := at[|fields| - 1] + Size(fields[|fields| - 1]), Record(names, fields);
      end <= Size(ty) < end + Align(ty) && Size(ty) % Align(ty) == 0 && Size(Tuple(fields)) == Size(ty)
  {
    at := FieldsPacked(fields, 0);
  }

  /** An option is its discriminant, of one byte, and its payload, packed. */
  lemma OptionIsPacked(p: Ty)
    ensures Size(Opt(p)) == Size(Tuple([Bool, p])) && Align(Opt(p)) == Align(Tuple([Bool, p]))
  {
    var both, one := [Bool, p], [p];
    assert both[1..] == one && one[1..] == [];
    assert AlignUp(0, Align(Bool)) + Size(Bool) == 1;
    OneField(p, 1);
    assert FieldsEnd(both, 0) == FieldsEnd(one, 1) && MaxAlign(both) == Max(1, MaxAlign(one));
  }

  lemma OneField(p: Ty, at: nat)
    ensures FieldsEnd([p], at) == AlignUp(at, Align(p)) + Size(p) && MaxAlign([p]) == Align(p)
  {
    hide Size, Align, AlignUp;
    var one, none: seq<Ty> := [p], [];
    assert one[1..] == none;
    assert FieldsEnd(none, AlignUp(at, Align(p)) + Size(p)) == AlignUp(at, Align(p)) + Size(p);
    assert MaxAlign(none) == 1;
  }
}
