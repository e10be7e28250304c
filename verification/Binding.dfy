/**
  The bind entrypoints of configured components: the instructions a binder and a bind
  merger are made of, how `$` and `&` nest them, and what any number of calls to the
  outermost entrypoint does.
*/
module Binding {
  import opened Bytes
  import opened CanonicalAbi

  const SCRATCH: nat := 16

  /** `result<_, string>`, as the area that a configure or a bind left its result in reads, or
      as a configure returned it by value. `ResultArea.StandsIff` says for which types what
      the area reads is what configure answered. */
  datatype Outcome = Done | Failed(message: string)

  // ----- code -----

  datatype Instr =
    | Const(value: CoreVal)
    | GlobalGet
    | GlobalSet
    | If(body: seq<Instr>)
    | Return
    | Call(callee: nat)
    | Drop
    | Load8
    | Store8
    | Eqz

  /** A synthesized entrypoint: a binder around one `configure`, or a merger of two others. */
  datatype Rider =
    | Binder(id: nat, args: seq<CoreVal>, retptr: bool, results: nat)
    | Merger(id: nat, first: Rider, second: Rider)

  function I32(n: nat): Instr {
    Const(CoreVal(CI32, n))
  }

  function Consts(args: seq<CoreVal>): (code: seq<Instr>)
    ensures |code| == |args|
  {
    seq(|args|, i requires 0 <= i < |args| => Const(args[i]))
  }

  function Drops(n: nat): (code: seq<Instr>)
    ensures |code| == n
  {
    seq(n, _ => Drop)
  }

  /** A second bind reports success at once. */
  const Guard: seq<Instr> := [GlobalGet, If([I32(SCRATCH), I32(0), Store8, I32(SCRATCH), Return])]

  /** After `configure` returned. */
  function Finish(retptr: bool): seq<Instr> {
    if retptr then [I32(SCRATCH), Load8, Eqz, If([I32(1), GlobalSet]), I32(SCRATCH)]
    else [I32(1), GlobalSet, I32(SCRATCH), I32(0), Store8, I32(SCRATCH)]
  }

  const MergerCode: seq<Instr> :=
    [I32(SCRATCH), Call(0), I32(SCRATCH), Load8, If([I32(SCRATCH), Return]), I32(SCRATCH), Call(1), I32(SCRATCH)]

  function RetArg(retptr: bool): seq<Instr> {
    if retptr then [I32(SCRATCH)] else []
  }

  function BinderCode(args: seq<CoreVal>, retptr: bool, results: nat): seq<Instr> {
    Guard + (Consts(args) + (RetArg(retptr) + ([Call(0)] + (Drops(results) + Finish(retptr)))))
  }

  /** Emits a binder's `bind` for the given constants and signature. */
  method BindBody(args: seq<CoreVal>, retptr: bool, results: nat) returns (code: seq<Instr>)
    ensures code == BinderCode(args, retptr, results)
  {
    hide Finish;
    code := Guard;
    for i := 0 to |args|
      invariant code == Guard + Consts(args[..i])
    {
      code := code + [Const(args[i])];
      assert args[..i + 1] == args[..i] + [args[i]];
    }
    assert args[..|args|] == args;
    code := code + RetArg(retptr) + [Call(0)];
    ghost var called := code;
    for i := 0 to results
      invariant code == called + Drops(i)
    {
      code := code + [Drop];
    }
    code := code + Finish(retptr);
  }

  function Code(r: Rider): seq<Instr> {
    match r
    case Binder(_, args, retptr, results) => BinderCode(args, retptr, results)
    case Merger(_, _, _) => MergerCode
  }

  // ----- execution -----

  /** One call of a provider's `configure`, with the arguments it got and its outcome. */
  datatype Event = Event(leaf: nat, args: seq<CoreVal>, outcome: Outcome)

  /** The result area of a module: the discriminant byte, and the error string it points to. */
  datatype Area = Area(tag: nat, message: string)

  /** The modules' globals and result areas, and every `configure` call so far. */
  datatype World = World(globals: map<nat, nat>, areas: map<nat, Area>, trace: seq<Event>) {
    function Global(id: nat): nat {
      if id in globals then globals[id] else 0
    }

    function AreaOf(id: nat): Area {
      if id in areas then areas[id] else Area(0, "")
    }

    function SetGlobal(id: nat, n: nat): World {
      this.(globals := globals[id := n])
    }

    /** Storing the discriminant byte. */
    function SetTag(id: nat, tag: byte): World {
      this.(areas := areas[id := AreaOf(id).(tag := tag)])
    }

    /** Lowering an outcome into a module's result area. */
    function Lower(id: nat, o: Outcome): World {
      var area := if o.Done? then Area(0, "") else Area(1, o.message);
      this.(areas := areas[id := area])
    }

    /** Lifting the outcome a module returned. */
    function Lift(id: nat): Outcome {
      var area := AreaOf(id);
      if area.tag == 0 then Done else Failed(area.message)
    }
  }

  /** How the outcomes of `configure` calls turn out, by their position in the whole run. */
  type Env = nat -> Outcome

  datatype Exec =
    | Trap
    | Next(stack: seq<CoreVal>, world: World)
    | Returned(value: CoreVal, world: World)

  function Run(r: Rider, code: seq<Instr>, stack: seq<CoreVal>, w: World, env: Env): Exec
    decreases r, 1, code
  {
    if code == [] then Next(stack, w)
    else
      match Step(r, code[0], stack, w, env)
      case Trap => Trap
      case Returned(v, w') => Returned(v, w')
      case Next(stack', w') => Run(r, code[1..], stack', w', env)
  }

  /** Pops are from the end of the stack. */
  function Step(r: Rider, i: Instr, stack: seq<CoreVal>, w: World, env: Env): Exec
    decreases r, 1, i
  {
    var n := |stack|;
    match i
    case Const(v) => Next(stack + [v], w)
    case GlobalGet => Next(stack + [CoreVal(CI32, w.Global(r.id))], w)
    case GlobalSet =>
      if n == 0 then Trap else Next(stack[..n - 1], w.SetGlobal(r.id, stack[n - 1].bits))
    case If(body) =>
      if n == 0 then Trap
      else if stack[n - 1].bits == 0 then Next(stack[..n - 1], w)
      else Run(r, body, stack[..n - 1], w, env)
    case Return => if n == 0 then Trap else Returned(stack[n - 1], w)
    case Drop => if n == 0 then Trap else Next(stack[..n - 1], w)
    case Load8 =>
      if n == 0 || stack[n - 1].bits != SCRATCH then Trap
      else Next(stack[..n - 1] + [CoreVal(CI32, w.AreaOf(r.id).tag)], w)
    case Store8 =>
      if n < 2 || stack[n - 2].bits != SCRATCH then Trap
      else Next(stack[..n - 2], w.SetTag(r.id, stack[n - 1].bits % 256))
    case Eqz =>
      if n == 0 then Trap
      else Next(stack[..n - 1] + [CoreVal(CI32, if stack[n - 1].bits == 0 then 1 else 0)], w)
    case Call(callee) =>
      match r
      case Binder(_, _, _, _) => CallConfigure(r, stack, w, env)
      case Merger(_, first, second) =>
        if n == 0 || stack[n - 1].bits != SCRATCH then Trap
        else
          var bound := Bind(if callee == 0 then first else second, w, env);
          if bound == None then Trap else Next(stack[..n - 1], bound.value.1.Lower(r.id, bound.value.0))
  }

  /** The import a binder calls: the provider's `configure`, lowered into the binder's memory. */
  function CallConfigure(r: Rider, stack: seq<CoreVal>, w: World, env: Env): Exec
    requires r.Binder?
  {
    var arity := |r.args| + if r.retptr then 1 else 0;
    var n := |stack|;
    if n < arity || (r.retptr && stack[n - 1].bits != SCRATCH) then Trap
    else
      var args := stack[n - arity..n - arity + |r.args|];
      var out := env(|w.trace|);
      var called := w.(trace := w.trace + [Event(r.id, args, out)]);
      Next(stack[..n - arity] + seq(r.results, _ => CoreVal(CI32, 0)),
           if r.retptr then called.Lower(r.id, out) else called)
  }

  /** One call of an entrypoint; `None` is a trap. */
  function Bind(r: Rider, w: World, env: Env): Option<(Outcome, World)>
    decreases r, 2
  {
    match Run(r, Code(r), [], w, env)
    case Trap => None
    case Returned(v, w') => if v.bits == SCRATCH then Some((w'.Lift(r.id), w')) else None
    case Next(stack, w') =>
      if |stack| == 1 && stack[0].bits == SCRATCH then Some((w'.Lift(r.id), w')) else None
  }

  // ----- what the code does -----

  /** The outcome a binder reports: without a result pointer it cannot see a failure. */
  function Reported(b: Rider, out: Outcome): Outcome
    requires b.Binder?
  {
    if b.retptr then out else Done
  }

  lemma RunStep(r: Rider, i: Instr, rest: seq<Instr>, stack: seq<CoreVal>, w: World, env: Env)
    ensures var s := Step(r, i, stack, w, env);
      Run(r, [i] + rest, stack, w, env) == if s.Next? then Run(r, rest, s.stack, s.world, env) else s
  {
    assert ([i] + rest)[1..] == rest;
  }

  lemma {:induction false} RunConsts(r: Rider, args: seq<CoreVal>, rest: seq<Instr>, stack: seq<CoreVal>, w: World, env: Env)
    ensures Run(r, Consts(args) + rest, stack, w, env) == Run(r, rest, stack + args, w, env)
    decreases |args|
  {
    if args == [] {
      assert Consts(args) + rest == rest && stack + args == stack;
    } else {
      assert Consts(args) + rest == [Const(args[0])] + (Consts(args[1..]) + rest);
      RunStep(r, Const(args[0]), Consts(args[1..]) + rest, stack, w, env);
      RunConsts(r, args[1..], rest, stack + [args[0]], w, env);
      assert stack + [args[0]] + args[1..] == stack + args;
    }
  }

  lemma {:induction false} RunDrops(r: Rider, n: nat, rest: seq<Instr>, stack: seq<CoreVal>, extra: seq<CoreVal>, w: World, env: Env)
    requires |extra| == n
    ensures Run(r, Drops(n) + rest, stack + extra, w, env) == Run(r, rest, stack, w, env)
    decreases n
  {
    if n == 0 {
      assert Drops(n) + rest == rest && stack + extra == stack;
    } else {
      assert Drops(n) + rest == [Drop] + (Drops(n - 1) + rest);
      RunStep(r, Drop, Drops(n - 1) + rest, stack + extra, w, env);
      assert (stack + extra)[..|stack| + n - 1] == stack + extra[..n - 1];
      RunDrops(r, n - 1, rest, stack, extra[..n - 1], w, env);
    }
  }

  // One lemma an instruction: what running it first does.

  lemma RunConst(r: Rider, v: CoreVal, rest: seq<Instr>, stack: seq<CoreVal>, w: World, env: Env)
    ensures Run(r, [Const(v)] + rest, stack, w, env) == Run(r, rest, stack + [v], w, env)
  {
    RunStep(r, Const(v), rest, stack, w, env);
  }

  lemma RunStore(r: Rider, tag: byte, rest: seq<Instr>, w: World, env: Env)
    ensures Run(r, [Store8] + rest, [CoreVal(CI32, SCRATCH), CoreVal(CI32, tag)], w, env)
         == Run(r, rest, [], w.SetTag(r.id, tag), env)
  {
    RunStep(r, Store8, rest, [CoreVal(CI32, SCRATCH), CoreVal(CI32, tag)], w, env);
    assert [CoreVal(CI32, SCRATCH), CoreVal(CI32, tag)][..0] == [];
  }

  lemma RunLoad(r: Rider, rest: seq<Instr>, w: World, env: Env)
    ensures Run(r, [Load8] + rest, [CoreVal(CI32, SCRATCH)], w, env)
         == Run(r, rest, [CoreVal(CI32, w.AreaOf(r.id).tag)], w, env)
  {
    RunStep(r, Load8, rest, [CoreVal(CI32, SCRATCH)], w, env);
    assert [] + [CoreVal(CI32, w.AreaOf(r.id).tag)] == [CoreVal(CI32, w.AreaOf(r.id).tag)];
  }

  lemma RunEqz(r: Rider, n: nat, rest: seq<Instr>, w: World, env: Env)
    ensures Run(r, [Eqz] + rest, [CoreVal(CI32, n)], w, env)
         == Run(r, rest, [CoreVal(CI32, if n == 0 then 1 else 0)], w, env)
  {
    RunStep(r, Eqz, rest, [CoreVal(CI32, n)], w, env);
    assert [] + [CoreVal(CI32, if n == 0 then 1 else 0)] == [CoreVal(CI32, if n == 0 then 1 else 0)];
  }

  lemma RunSet(r: Rider, n: nat, rest: seq<Instr>, w: World, env: Env)
    ensures Run(r, [GlobalSet] + rest, [CoreVal(CI32, n)], w, env) == Run(r, rest, [], w.SetGlobal(r.id, n), env)
  {
    RunStep(r, GlobalSet, rest, [CoreVal(CI32, n)], w, env);
  }

  lemma RunIf(r: Rider, n: nat, body: seq<Instr>, rest: seq<Instr>, w: World, env: Env)
    ensures n == 0 ==> Run(r, [If(body)] + rest, [CoreVal(CI32, n)], w, env) == Run(r, rest, [], w, env)
    ensures n != 0 ==>
      var e := Run(r, body, [], w, env);
      Run(r, [If(body)] + rest, [CoreVal(CI32, n)], w, env) == if e.Next? then Run(r, rest, e.stack, e.world, env) else e
  {
    hide Run;
    RunStep(r, If(body), rest, [CoreVal(CI32, n)], w, env);
  }

  lemma RunReturn(r: Rider, v: CoreVal, w: World, env: Env)
    ensures Run(r, [Return], [v], w, env) == Returned(v, w)
  {
    assert [Return] == [Return] + [];
    RunStep(r, Return, [], [v], w, env);
  }

  lemma RunNone(r: Rider, stack: seq<CoreVal>, w: World, env: Env)
    ensures Run(r, [], stack, w, env) == Next(stack, w)
  {
  }

  /** The guard: an applied binder reports success and does nothing else. */
  lemma GuardRuns(r: Rider, rest: seq<Instr>, w: World, env: Env)
    ensures Run(r, Guard + rest, [], w, env) ==
      if w.Global(r.id) == 0 then Run(r, rest, [], w, env)
      else Returned(CoreVal(CI32, SCRATCH), w.SetTag(r.id, 0))
  {
    hide Run, World.SetTag;
    var body := [I32(SCRATCH), I32(0), Store8, I32(SCRATCH), Return];
    var flag := CoreVal(CI32, w.Global(r.id));
    assert Guard + rest == [GlobalGet] + ([If(body)] + rest);
    RunStep(r, GlobalGet, [If(body)] + rest, [], w, env);
    assert [] + [flag] == [flag];
    RunIf(r, flag.bits, body, rest, w, env);
    ReportSuccess(r, w, env);
  }

  lemma ReportSuccess(r: Rider, w: World, env: Env)
    ensures Run(r, [I32(SCRATCH), I32(0), Store8, I32(SCRATCH), Return], [], w, env)
         == Returned(CoreVal(CI32, SCRATCH), w.SetTag(r.id, 0))
  {
    hide Run, World.SetTag;
    var s, z := CoreVal(CI32, SCRATCH), CoreVal(CI32, 0);
    var tail := [I32(SCRATCH), Return];
    assert [] + [s] == [s] && [s] + [z] == [s, z];
    assert [I32(SCRATCH), I32(0), Store8, I32(SCRATCH), Return] == [I32(SCRATCH)] + ([I32(0)] + ([Store8] + tail));
    RunConst(r, s, [I32(0)] + ([Store8] + tail), [], w, env);
    RunConst(r, z, [Store8] + tail, [s], w, env);
    RunStore(r, 0, tail, w, env);
    assert tail == [I32(SCRATCH)] + [Return];
    RunConst(r, s, [Return], [], w.SetTag(r.id, 0), env);
    RunReturn(r, s, w.SetTag(r.id, 0), env);
  }

  /** After `configure`: the flag is set unless the result area holds an error. */
  lemma FinishRuns(r: Rider, retptr: bool, w: World, env: Env)
    ensures Run(r, Finish(retptr), [], w, env) ==
      Next([CoreVal(CI32, SCRATCH)],
           if !retptr then w.SetGlobal(r.id, 1).SetTag(r.id, 0)
           else if w.AreaOf(r.id).tag == 0 then w.SetGlobal(r.id, 1) else w)
  {
    hide Run, World.SetTag, World.SetGlobal;
    var s, one := CoreVal(CI32, SCRATCH), CoreVal(CI32, 1);
    assert [] + [s] == [s] && [] + [one] == [one];
    if retptr {
      var body := [I32(1), GlobalSet];
      var tag := w.AreaOf(r.id).tag;
      var end := [I32(SCRATCH)];
      assert Finish(true) == [I32(SCRATCH)] + ([Load8] + ([Eqz] + ([If(body)] + end)));
      RunConst(r, s, [Load8] + ([Eqz] + ([If(body)] + end)), [], w, env);
      RunLoad(r, [Eqz] + ([If(body)] + end), w, env);
      RunEqz(r, tag, [If(body)] + end, w, env);
      RunIf(r, if tag == 0 then 1 else 0, body, end, w, env);
      SetsFlag(r, [], w, env);
      assert body + [] == body;
      var w' := w.SetGlobal(r.id, 1);
      RunNone(r, [], w', env);
      LeavesPointer(r, w, env);
      LeavesPointer(r, w', env);
    } else {
      var end := [I32(SCRATCH)];
      var store := [I32(SCRATCH)] + ([I32(0)] + ([Store8] + end));
      assert Finish(false) == [I32(1), GlobalSet] + store;
      SetsFlag(r, store, w, env);
      var w' := w.SetGlobal(r.id, 1);
      assert [s] + [CoreVal(CI32, 0)] == [s, CoreVal(CI32, 0)];
      RunConst(r, s, [I32(0)] + ([Store8] + end), [], w', env);
      RunConst(r, CoreVal(CI32, 0), [Store8] + end, [s], w', env);
      RunStore(r, 0, end, w', env);
      LeavesPointer(r, w'.SetTag(r.id, 0), env);
    }
  }

  lemma SetsFlag(r: Rider, rest: seq<Instr>, w: World, env: Env)
    ensures Run(r, [I32(1), GlobalSet] + rest, [], w, env) == Run(r, rest, [], w.SetGlobal(r.id, 1), env)
  {
    hide Run, World.SetGlobal;
    assert [I32(1), GlobalSet] + rest == [I32(1)] + ([GlobalSet] + rest);
    assert [] + [CoreVal(CI32, 1)] == [CoreVal(CI32, 1)];
    RunConst(r, CoreVal(CI32, 1), [GlobalSet] + rest, [], w, env);
    RunSet(r, 1, rest, w, env);
  }

  lemma LeavesPointer(r: Rider, w: World, env: Env)
    ensures Run(r, [I32(SCRATCH)], [], w, env) == Next([CoreVal(CI32, SCRATCH)], w)
  {
    hide Run;
    assert [I32(SCRATCH)] == [I32(SCRATCH)] + [];
    assert [] + [CoreVal(CI32, SCRATCH)] == [CoreVal(CI32, SCRATCH)];
    RunConst(r, CoreVal(CI32, SCRATCH), [], [], w, env);
    RunNone(r, [CoreVal(CI32, SCRATCH)], w, env);
  }

  /** The call itself: `configure` gets the baked constants, and its outcome is noted. */
  lemma CallRuns(r: Rider, rest: seq<Instr>, w: World, env: Env)
    requires r.Binder?
    ensures var args := r.args + if r.retptr then [CoreVal(CI32, SCRATCH)] else [];
      var out := env(|w.trace|);
      var called := w.(trace := w.trace + [Event(r.id, r.args, out)]);
      Run(r, [Call(0)] + (Drops(r.results) + rest), args, w, env)
      == Run(r, rest, [], if r.retptr then called.Lower(r.id, out) else called, env)
  {
    hide Run, World.Lower;
    var args := r.args + if r.retptr then [CoreVal(CI32, SCRATCH)] else [];
    RunStep(r, Call(0), Drops(r.results) + rest, args, w, env);
    assert args[..|r.args|] == r.args;
    var e := CallConfigure(r, args, w, env);
    var back := seq(r.results, _ => CoreVal(CI32, 0));
    assert [] + back == back;
    RunDrops(r, r.results, rest, [], back, e.world, env);
  }

  /** What one bind of a binder does. */
  ghost predicate BinderDid(r: Rider, w: World, env: Env, o: Outcome, w': World)
    requires r.Binder?
  {
    if w.Global(r.id) != 0 then o == Done && w'.globals == w.globals && w'.trace == w.trace
    else
      var out := env(|w.trace|);
      && o == Reported(r, out)
      && w'.trace == w.trace + [Event(r.id, r.args, out)]
      && w'.globals == if o.Done? then w.globals[r.id := 1] else w.globals
  }

  lemma BinderBinds(r: Rider, w: World, env: Env)
    requires r.Binder?
    ensures Bind(r, w, env).Some?
    ensures BinderDid(r, w, env, Bind(r, w, env).value.0, Bind(r, w, env).value.1)
  {
    hide Run, Consts, Drops, Finish;
    var end := Finish(r.retptr);
    var call := [Call(0)] + (Drops(r.results) + end);
    var rest := Consts(r.args) + (RetArg(r.retptr) + call);
    GuardRuns(r, rest, w, env);
    if w.Global(r.id) == 0 {
      var none: seq<CoreVal> := [];
      assert none + r.args == r.args;
      RunConsts(r, r.args, RetArg(r.retptr) + call, none, w, env);
      if r.retptr {
        RunConst(r, CoreVal(CI32, SCRATCH), call, r.args, w, env);
      } else {
        assert RetArg(false) + call == call && r.args + none == r.args;
      }
      CallRuns(r, end, w, env);
      var out := env(|w.trace|);
      var called := w.(trace := w.trace + [Event(r.id, r.args, out)]);
      FinishRuns(r, r.retptr, if r.retptr then called.Lower(r.id, out) else called, env);
    }
  }

  /** A merger binds its first entrypoint, and the second only if that succeeded. */
  lemma MergerBinds(r: Rider, w: World, env: Env)
    requires r.Merger? && Bind(r.first, w, env).Some?
    requires var (o1, w1) := Bind(r.first, w, env).value; o1.Done? ==> Bind(r.second, w1.Lower(r.id, o1), env).Some?
    ensures Bind(r, w, env).Some?
    ensures
      var (o1, w1) := Bind(r.first, w, env).value;
      var (o, w') := Bind(r, w, env).value;
      if o1.Failed? then o == o1 && w' == w1.Lower(r.id, o1)
      else
        var (o2, w2) := Bind(r.second, w1.Lower(r.id, o1), env).value;
        o == o2 && w' == w2.Lower(r.id, o2)
  {
    hide Run;
    var (o1, w1) := Bind(r.first, w, env).value;
    var s := CoreVal(CI32, SCRATCH);
    var none: seq<CoreVal> := [];
    assert none + [s] == [s] && [s][..0] == none;
    var end := [I32(SCRATCH), Call(1), I32(SCRATCH)];
    var test := [If([I32(SCRATCH), Return])] + end;
    assert MergerCode == [I32(SCRATCH)] + ([Call(0)] + ([I32(SCRATCH)] + ([Load8] + test)));
    RunConst(r, s, [Call(0)] + ([I32(SCRATCH)] + ([Load8] + test)), none, w, env);
    RunStep(r, Call(0), [I32(SCRATCH)] + ([Load8] + test), [s], w, env);
    var w1' := w1.Lower(r.id, o1);
    RunConst(r, s, [Load8] + test, none, w1', env);
    RunLoad(r, test, w1', env);
    RunIf(r, w1'.AreaOf(r.id).tag, [I32(SCRATCH), Return], end, w1', env);
    if o1.Failed? {
      assert [I32(SCRATCH), Return] == [I32(SCRATCH)] + [Return];
      RunConst(r, s, [Return], none, w1', env);
      RunReturn(r, s, w1', env);
    } else {
      var (o2, w2) := Bind(r.second, w1', env).value;
      var w2' := w2.Lower(r.id, o2);
      assert end == [I32(SCRATCH)] + ([Call(1)] + [I32(SCRATCH)]);
      RunConst(r, s, [Call(1)] + [I32(SCRATCH)], none, w1', env);
      RunStep(r, Call(1), [I32(SCRATCH)], [s], w1', env);
      LeavesPointer(r, w2', env);
    }
  }

  // ----- nested entrypoints are one loop over the binders -----

  /** The binders an entrypoint reaches, in the order it tries them. */
  function Leaves(r: Rider): (ls: seq<Rider>)
    ensures forall i :: 0 <= i < |ls| ==> ls[i].Binder?
  {
    match r
    case Binder(_, _, _, _) => [r]
    case Merger(_, first, second) => Leaves(first) + Leaves(second)
  }

  ghost predicate AllBinders(ls: seq<Rider>) {
    forall i :: 0 <= i < |ls| ==> ls[i].Binder?
  }

  ghost predicate DistinctIds(ls: seq<Rider>) {
    forall i, j {:trigger ls[i], ls[j]} :: 0 <= i < j < |ls| ==> ls[i].id != ls[j].id
  }

  datatype Progress = Progress(outcome: Outcome, next: nat, trace: seq<Event>)

  /** Try the binders from the `k`-th on, up to the first reported failure. */
  function Attempt(ls: seq<Rider>, k: nat, trace: seq<Event>, env: Env): (p: Progress)
    requires AllBinders(ls) && k <= |ls|
    ensures k <= p.next <= |ls| && (p.outcome.Done? <==> p.next == |ls|)
    decreases |ls| - k
  {
    if k == |ls| then Progress(Done, k, trace)
    else
      var out := env(|trace|);
      var trace' := trace + [Event(ls[k].id, ls[k].args, out)];
      if Reported(ls[k], out).Done? then Attempt(ls, k + 1, trace', env) else Progress(Reported(ls[k], out), k, trace')
  }

  /** Exactly the first `k` binders have their applied flag set. */
  ghost predicate AppliedUpTo(ls: seq<Rider>, k: nat, w: World) {
    k <= |ls| && forall i {:trigger ls[i]} :: 0 <= i < |ls| ==> (w.Global(ls[i].id) != 0 <==> i < k)
  }

  ghost predicate Among(ls: seq<Rider>, id: nat) {
    exists i :: 0 <= i < |ls| && ls[i].id == id
  }

  /** The flags of all other modules are as before. */
  ghost predicate OthersKept(ls: seq<Rider>, w: World, w': World) {
    forall id :: !Among(ls, id) ==> w'.Global(id) == w.Global(id)
  }

  lemma OthersJoin(a: seq<Rider>, b: seq<Rider>, w: World, w1: World, w2: World)
    requires OthersKept(a, w, w1) && OthersKept(b, w1, w2)
    ensures OthersKept(a + b, w, w2)
  {
    forall id | !Among(a + b, id)
      ensures w2.Global(id) == w.Global(id)
    {
      assert forall i :: 0 <= i < |a| ==> (a + b)[i] == a[i];
      assert forall j :: 0 <= j < |b| ==> (a + b)[|a| + j] == b[j];
      assert !Among(a, id) && !Among(b, id);
    }
  }

  /** What one half does leaves the other half's progress alone. */
  lemma HalfKept(a: seq<Rider>, b: seq<Rider>, k: nat, w: World, w': World)
    requires AppliedUpTo(b, k, w) && OthersKept(a, w, w')
    requires forall i, j {:trigger a[i], b[j]} :: 0 <= i < |a| && 0 <= j < |b| ==> a[i].id != b[j].id
    ensures AppliedUpTo(b, k, w')
  {
    forall j | 0 <= j < |b|
      ensures w'.Global(b[j].id) == w.Global(b[j].id)
    {
      assert !Among(a, b[j].id);
    }
  }

  lemma HalvesApplied(a: seq<Rider>, b: seq<Rider>, m: nat, n: nat, w: World)
    requires AppliedUpTo(a, m, w) && AppliedUpTo(b, n, w) && (n == 0 || m == |a|)
    ensures AppliedUpTo(a + b, m + n, w)
  {
  }

  lemma {:induction false} AttemptJoin(a: seq<Rider>, b: seq<Rider>, k: nat, trace: seq<Event>, env: Env)
    requires AllBinders(a) && AllBinders(b) && k <= |a| + |b|
    ensures Attempt(a + b, k, trace, env) ==
      if k >= |a| then
        var p := Attempt(b, k - |a|, trace, env);
        Progress(p.outcome, |a| + p.next, p.trace)
      else
        var p := Attempt(a, k, trace, env);
        if p.outcome.Failed? then p
        else
          var q := Attempt(b, 0, p.trace, env);
          Progress(q.outcome, |a| + q.next, q.trace)
    decreases |a| + |b| - k
  {
    if k < |a| + |b| {
      var ls := a + b;
      var out := env(|trace|);
      var trace' := trace + [Event(ls[k].id, ls[k].args, out)];
      if Reported(ls[k], out).Done? { AttemptJoin(a, b, k + 1, trace', env); }
    }
  }

  /** One bind of any nest of entrypoints is one attempt at its binders, from where it stood. */
  lemma {:induction false} BindIsAttempt(r: Rider, k: nat, w: World, env: Env)
    requires DistinctIds(Leaves(r)) && AppliedUpTo(Leaves(r), k, w)
    ensures Bind(r, w, env).Some?
    ensures
      var (o, w') := Bind(r, w, env).value;
      var p := Attempt(Leaves(r), k, w.trace, env);
      && o == p.outcome && w'.trace == p.trace && AppliedUpTo(Leaves(r), p.next, w')
      && OthersKept(Leaves(r), w, w')
    decreases r
  {
    match r
    case Binder(id, args, retptr, results) =>
      BinderBinds(r, w, env);
      assert Leaves(r)[0] == r;
    case Merger(id, first, second) => MergerIsAttempt(r, k, w, env);
  }

  lemma {:induction false} MergerIsAttempt(r: Rider, k: nat, w: World, env: Env)
    requires r.Merger? && DistinctIds(Leaves(r)) && AppliedUpTo(Leaves(r), k, w)
    ensures Bind(r, w, env).Some?
    ensures
      var (o, w') := Bind(r, w, env).value;
      var p := Attempt(Leaves(r), k, w.trace, env);
      && o == p.outcome && w'.trace == p.trace && AppliedUpTo(Leaves(r), p.next, w')
      && OthersKept(Leaves(r), w, w')
    decreases r, 0
  {
    hide Bind, Attempt;
    var a, b := Leaves(r.first), Leaves(r.second);
    HalvesDistinct(a, b, k, w);
    var k1 := if k < |a| then k else |a|;
    BindIsAttempt(r.first, k1, w, env);
    var (o1, w1) := Bind(r.first, w, env).value;
    AttemptJoin(a, b, k, w.trace, env);
    var w1' := w1.Lower(r.id, o1);
    assert w1'.globals == w1.globals && w1'.trace == w1.trace;
    var k2 := if k < |a| then 0 else k - |a|;
    var p1 := Attempt(a, k1, w.trace, env);
    HalfKept(a, b, k2, w, w1);
    if o1.Done? {
      BindIsAttempt(r.second, k2, w1', env);
      var (o2, w2) := Bind(r.second, w1', env).value;
      var p2 := Attempt(b, k2, w1.trace, env);
      MergerBinds(r, w, env);
      DoneAll(a, w.trace, env);
      OthersJoin(a, b, w, w1', w2);
      HalfKept(b, a, |a|, w1', w2);
      HalvesApplied(a, b, |a|, p2.next, w2);
      SameFlags(a, b, |a| + p2.next, w, w2, w2.Lower(r.id, o2));
    } else {
      MergerBinds(r, w, env);
      OthersJoin(a, b, w, w1, w1);
      DoneAll(a, w.trace, env);
      HalvesApplied(a, b, p1.next, 0, w1);
      SameFlags(a, b, p1.next, w, w1, w1');
    }
  }

  lemma DoneAll(a: seq<Rider>, trace: seq<Event>, env: Env)
    requires AllBinders(a)
    ensures Attempt(a, |a|, trace, env) == Progress(Done, |a|, trace)
  {
  }

  lemma SameFlags(a: seq<Rider>, b: seq<Rider>, k: nat, w: World, w1: World, w2: World)
    requires AppliedUpTo(a + b, k, w1) && OthersKept(a + b, w, w1) && w2.globals == w1.globals
    ensures AppliedUpTo(a + b, k, w2) && OthersKept(a + b, w, w2)
  {
  }

  lemma HalvesDistinct(a: seq<Rider>, b: seq<Rider>, k: nat, w: World)
    requires DistinctIds(a + b) && AppliedUpTo(a + b, k, w)
    ensures DistinctIds(a) && DistinctIds(b)
    ensures forall i, j {:trigger a[i], b[j]} :: 0 <= i < |a| && 0 <= j < |b| ==> a[i].id != b[j].id
    ensures AppliedUpTo(a, if k < |a| then k else |a|, w)
    ensures AppliedUpTo(b, if k < |a| then 0 else k - |a|, w)
  {
    assert forall i :: 0 <= i < |a| ==> (a + b)[i] == a[i];
    assert forall j :: 0 <= j < |b| ==> (a + b)[|a| + j] == b[j];
  }
}
