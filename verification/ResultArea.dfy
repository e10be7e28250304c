/**
  The result area a binder shares with `configure`: `configure` lowers its own result there,
  and `bind` returns the same address as its own `result<_, string>` (CanonicalABI.md, sections
  Despecialization, Alignment, Loading).
*/
module ResultArea {
  import opened Bytes
  import opened Arith
  import opened Utf8
  import opened CanonicalAbi
  import opened Baking

  /** `result<ok, err>`, either payload absent or not; a resource handle is a 32-bit index. */
  datatype ResultTy = ResultTy(ok: Option<Ty>, err: Option<Ty>)

  /** What `bind` returns: `result<_, string>`. */
  const BIND := ResultTy(None, Some(Str))

  datatype Answer = Fine(payload: Option<Val>) | Refused(error: Option<Val>)

  function ArmAlign(arm: Option<Ty>): (a: nat)
    ensures IsAlign(a)
  {
    if arm.Some? then Align(arm.value) else 1
  }

  function ArmSize(arm: Option<Ty>): nat {
    if arm.Some? then Size(arm.value) else 0
  }

  function ResultAlign(t: ResultTy): (a: nat)
    ensures IsAlign(a)
  {
    Max(ArmAlign(t.ok), ArmAlign(t.err))
  }

  /** Both payloads start at the first offset after the discriminant that suits either. */
  function PayloadAt(t: ResultTy): nat {
    AlignUp(1, ResultAlign(t))
  }

  function ResultSize(t: ResultTy): nat {
    AlignUp(PayloadAt(t) + Max(ArmSize(t.ok), ArmSize(t.err)), ResultAlign(t))
  }

  ghost predicate WellFormedArm(arm: Option<Ty>) {
    arm.Some? ==> WellFormed(arm.value)
  }

  /** A payload as it lies in memory; `None` is a trap. */
  function LoadArm(mem: seq<byte>, arm: Option<Ty>, ptr: nat): Option<Option<Val>> {
    if arm == None then Some(None)
    else
      var v := Load(mem, arm.value, ptr);
      if v == None then None else Some(v)
  }

  /** A result as it lies in memory; `None` is a trap. */
  function LoadResult(mem: seq<byte>, t: ResultTy, ptr: nat): Option<Answer> {
    if ptr % ResultAlign(t) != 0 || ptr + ResultSize(t) > |mem| then None
    else if mem[ptr] == 0 then
      var v := LoadArm(mem, t.ok, ptr + PayloadAt(t));
      if v == None then None else Some(Fine(v.value))
    else if mem[ptr] == 1 then
      var v := LoadArm(mem, t.err, ptr + PayloadAt(t));
      if v == None then None else Some(Refused(v.value))
    else None
  }

  /** What `configure` left at `ptr` reads as the same outcome for the caller of `bind`: the
      error unchanged, the payload of a success ignored. */
  ghost predicate Stands(t: ResultTy, mem: seq<byte>, ptr: nat) {
    match LoadResult(mem, t, ptr)
    case None => true
    case Some(Fine(_)) => LoadResult(mem, BIND, ptr) == Some(Fine(None))
    case Some(Refused(e)) => LoadResult(mem, BIND, ptr) == Some(Refused(e))
  }

  /** The result area as binders reserve it. */
  predicate AreaAt(mem: seq<byte>, ptr: nat) {
    ptr % 8 == 0 && ptr + 16 <= |mem|
  }

  lemma BindLayout()
    ensures PayloadAt(BIND) == 4 && ResultSize(BIND) == 12 && ResultAlign(BIND) == 4
  {
  }

  // ----- when the outcome stands -----

  lemma StandsAtFour(t: ResultTy, mem: seq<byte>, ptr: nat)
    requires AreaAt(mem, ptr) && t.err == Some(Str) && ArmAlign(t.ok) <= 4
    ensures Stands(t, mem, ptr)
  {
    hide Load;
    BindLayout();
    assert PayloadAt(t) == 4;
    AlignDivides(ptr, 4, 8);
  }

  // ----- when it does not -----

  /** All zeros load as a value of every type, which is a string only for the string type. */
  lemma {:induction false} ZerosLoad(mem: seq<byte>, ty: Ty, ptr: nat)
    requires WellFormed(ty) && ptr % Align(ty) == 0 && ptr + Size(ty) <= |mem|
    requires forall i :: ptr <= i < ptr + Size(ty) ==> mem[i] == 0
    ensures Load(mem, ty, ptr).Some? && (Load(mem, ty, ptr).value.VStr? ==> ty == Str)
    decreases ty, 1
  {
    match ty
    case Record(names, fields) => ZeroFields(mem, fields, ptr, 0, Size(ty));
    case Tuple(items) => ZeroFields(mem, items, ptr, 0, Size(ty));
    case Int(w, _) => ZeroWord(mem, ptr, w);
    case Char => ZeroWord(mem, ptr, 4);
    case Str =>
      ZeroWord(mem, ptr, 4);
      ZeroWord(mem, ptr + 4, 4);
      assert mem[0..0] == [];
    case Enum(cases) => ZeroWord(mem, ptr, TagWidth(|cases|));
    case List(e) =>
      ZeroWord(mem, ptr, 4);
      ZeroWord(mem, ptr + 4, 4);
      SpanStep(0, Size(e));
      assert LoadElems(mem, e, 0, 0) == Some([]);
      assert LoadListFrom(mem, e, 0, 0) == Some(VList([]));
    case _ =>
  }

  lemma ZeroWord(mem: seq<byte>, ptr: nat, w: nat)
    requires ptr + w <= |mem| && forall i :: ptr <= i < ptr + w ==> mem[i] == 0
    ensures Word(mem, ptr, w) == 0
  {
    ZeroValue(mem[ptr..ptr + w]);
  }

  lemma {:induction false} ZeroValue(bytes: seq<byte>)
    requires forall i :: 0 <= i < |bytes| ==> bytes[i] == 0
    ensures LeValue(bytes) == 0
    decreases |bytes|
  {
    if bytes != [] { ZeroValue(bytes[1..]); }
  }

  lemma {:induction false} ZeroFields(mem: seq<byte>, tys: seq<Ty>, ptr: nat, at: nat, size: nat)
    requires AllWellFormed(tys) && ptr % MaxAlign(tys) == 0 && FieldsEnd(tys, at) <= size && ptr + size <= |mem|
    requires forall i :: ptr <= i < ptr + size ==> mem[i] == 0
    ensures LoadFields(mem, tys, ptr, at).Some?
    decreases tys, 0
  {
    hide Load, Align, Size, WellFormed;
    if tys != [] {
      var off := AlignUp(at, Align(tys[0]));
      AlignDivides(ptr, Align(tys[0]), MaxAlign(tys));
      AlignDivides(ptr, MaxAlign(tys[1..]), MaxAlign(tys));
      AlignSum(ptr, off, Align(tys[0]));
      ZerosLoad(mem, tys[0], ptr + off);
      ZeroFields(mem, tys[1..], ptr, off + Size(tys[0]), size);
    }
  }

  /** A refusal that carries anything but a string is not read back. */
  lemma OtherErrorLost(t: ResultTy) returns (mem: seq<byte>)
    requires WellFormedArm(t.ok) && WellFormedArm(t.err) && t.err != Some(Str)
    ensures AreaAt(mem, 16) && !Stands(t, mem, 16)
  {
    hide Load, Size, Align, WellFormed;
    BindLayout();
    var n := 16 + Max(ResultSize(t), 16);
    mem := Zeros(n)[16 := 1];
    AlignDivides(16, ResultAlign(t), 8);
    var at := 16 + PayloadAt(t);
    if t.err.Some? {
      AlignDivides(16, ArmAlign(t.err), 8);
      AlignDivides(PayloadAt(t), ArmAlign(t.err), ResultAlign(t));
      AlignSum(16, PayloadAt(t), ArmAlign(t.err));
      ZerosLoad(mem, t.err.value, at);
    }
    EmptyText(mem);
  }

  lemma EmptyText(mem: seq<byte>)
    requires |mem| >= 28 && mem[16] == 1 && forall i :: 20 <= i < 28 ==> mem[i] == 0
    ensures LoadResult(mem, BIND, 16) == Some(Refused(Some(VStr([]))))
  {
    BindLayout();
    ZeroWord(mem, 20, 4);
    ZeroWord(mem, 24, 4);
    assert mem[0..0] == [];
  }

  /** A success payload of alignment 8 moves the error to where `bind` does not look: here a
      one-byte error reads as an empty one. */
  lemma WideOkMisread(t: ResultTy) returns (mem: seq<byte>)
    requires t.err == Some(Str) && ArmAlign(t.ok) == 8
    ensures AreaAt(mem, 16) && !Stands(t, mem, 16)
    ensures LoadResult(mem, t, 16) == Some(Refused(Some(VStr([0]))))
    ensures LoadResult(mem, BIND, 16) == Some(Refused(Some(VStr([]))))
  {
    var n := 16 + Max(ResultSize(t), 16);
    mem := Zeros(n)[16 := 1][28 := 1];
    assert PayloadAt(t) == 8;
    EmptyText(mem);
    ZeroWord(mem, 24, 4);
    assert mem[28..32] == [1, 0, 0, 0];
    assert Word(mem, 28, 4) == 1 by {
      ZeroValue([0, 0, 0]);
      assert [1, 0, 0, 0][1..] == [0, 0, 0];
    }
    assert mem[0..1] == [0];
    AsciiIsUtf8([0]);
  }

  /** Every outcome of `configure` stands as the outcome of `bind` exactly when its error is
      a string and its success payload needs no alignment above 4. */
  lemma StandsIff(t: ResultTy)
    requires WellFormedArm(t.ok) && WellFormedArm(t.err)
    ensures (forall mem, ptr :: AreaAt(mem, ptr) ==> Stands(t, mem, ptr)) <==> t.err == Some(Str) && ArmAlign(t.ok) <= 4
  {
    hide Stands, AreaAt, WellFormedArm;
    if t.err == Some(Str) && ArmAlign(t.ok) <= 4 {
      forall mem, ptr | AreaAt(mem, ptr) ensures Stands(t, mem, ptr) {
        StandsAtFour(t, mem, ptr);
      }
    } else if t.err == Some(Str) {
      var mem := WideOkMisread(t);
    } else {
      var mem := OtherErrorLost(t);
    }
  }
}
