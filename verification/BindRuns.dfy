/**
  Whole runs of the bind entrypoint of a composition: any number of calls, any outcomes of
  the `configure` calls behind it, any tree of configured components under `$` and `&`.
*/
module BindRuns {
  import opened Bytes
  import opened CanonicalAbi
  import opened Binding

  /** A composition; a `Configured` leaf carries its baked arguments. */
  datatype Tree =
    | Plain
    | Configured(id: nat, args: seq<CoreVal>, retptr: bool, results: nat)
    | Compose(id: nat, provider: Tree, consumer: Tree)
    | Extend(id: nat, base: Tree, layer: Tree)

  /** How two operands' entrypoints reach the result: merged, passed through, or none. */
  function PropagateBinds(id: nat, first: Option<Rider>, second: Option<Rider>): Option<Rider> {
    if first.Some? && second.Some? then Some(Merger(id, first.value, second.value))
    else if first.Some? then first
    else second
  }

  function Entrypoint(t: Tree): Option<Rider> {
    match t
    case Plain => None
    case Configured(id, args, retptr, results) => Some(Binder(id, args, retptr, results))
    case Compose(id, p, c) => PropagateBinds(id, Entrypoint(p), Entrypoint(c))
    case Extend(id, x, y) => PropagateBinds(id, Entrypoint(x), Entrypoint(y))
  }

  /** The configured leaves, provider before consumer and base before layer. */
  function InOrder(t: Tree): (ls: seq<Rider>)
    ensures AllBinders(ls)
  {
    match t
    case Plain => []
    case Configured(id, args, retptr, results) => [Binder(id, args, retptr, results)]
    case Compose(_, p, c) => InOrder(p) + InOrder(c)
    case Extend(_, x, y) => InOrder(x) + InOrder(y)
  }

  lemma {:induction false} EntrypointReachesAll(t: Tree)
    ensures Entrypoint(t).Some? <==> InOrder(t) != []
    ensures Entrypoint(t).Some? ==> Leaves(Entrypoint(t).value) == InOrder(t)
  {
    match t
    case Plain =>
    case Configured(_, _, _, _) =>
    case Compose(_, p, c) =>
      EntrypointReachesAll(p);
      EntrypointReachesAll(c);
    case Extend(_, x, y) =>
      EntrypointReachesAll(x);
      EntrypointReachesAll(y);
  }

  // ----- many calls -----

  datatype Calls = Calls(outcomes: seq<Outcome>, world: World)

  const Fresh := World(map[], map[], [])

  /** The first `n` calls of an entrypoint; `None` if one of them traps. */
  function BindTimes(r: Rider, n: nat, env: Env): Option<Calls> {
    if n == 0 then Some(Calls([], Fresh))
    else
      var before := BindTimes(r, n - 1, env);
      if before == None then None
      else
        var last := Bind(r, before.value.world, env);
        if last == None then None else Some(Calls(before.value.outcomes + [last.value.0], last.value.1))
  }

  datatype Attempts = Attempts(outcomes: seq<Outcome>, next: nat, trace: seq<Event>)

  function AttemptTimes(ls: seq<Rider>, n: nat, env: Env): (a: Attempts)
    requires AllBinders(ls)
    ensures |a.outcomes| == n && a.next <= |ls|
  {
    if n == 0 then Attempts([], 0, [])
    else
      var before := AttemptTimes(ls, n - 1, env);
      var p := Attempt(ls, before.next, before.trace, env);
      Attempts(before.outcomes + [p.outcome], p.next, p.trace)
  }

  lemma {:induction false} BindTimesIsAttempts(r: Rider, n: nat, env: Env)
    requires DistinctIds(Leaves(r))
    ensures BindTimes(r, n, env).Some?
    ensures
      var c, a := BindTimes(r, n, env).value, AttemptTimes(Leaves(r), n, env);
      c.outcomes == a.outcomes && c.world.trace == a.trace && AppliedUpTo(Leaves(r), a.next, c.world)
  {
    hide Bind, Attempt;
    if n > 0 {
      BindTimesIsAttempts(r, n - 1, env);
      BindIsAttempt(r, AttemptTimes(Leaves(r), n - 1, env).next, BindTimes(r, n - 1, env).value.world, env);
    }
  }

  /** Nesting does not matter: entrypoints over the same leaves in order behave alike. */
  lemma SameLeavesSameRuns(r: Rider, s: Rider, n: nat, env: Env)
    requires Leaves(r) == Leaves(s) && DistinctIds(Leaves(r))
    ensures BindTimes(r, n, env).Some? && BindTimes(s, n, env).Some?
    ensures BindTimes(r, n, env).value.outcomes == BindTimes(s, n, env).value.outcomes
    ensures BindTimes(r, n, env).value.world.trace == BindTimes(s, n, env).value.world.trace
  {
    hide BindTimes, AttemptTimes;
    BindTimesIsAttempts(r, n, env);
    BindTimesIsAttempts(s, n, env);
  }

  /** The action law for configurations: where both groupings compose, `(x & y) $ c` binds just
      as `x $ (y $ c)` does. */
  lemma ActionLawBinds(i: nat, j: nat, x: Tree, y: Tree, c: Tree, n: nat, env: Env)
    requires DistinctIds(InOrder(x) + InOrder(y) + InOrder(c))
    ensures
      var l, r := Entrypoint(Compose(i, Extend(j, x, y), c)), Entrypoint(Compose(i, x, Compose(j, y, c)));
      && (l.Some? <==> r.Some?)
      && (l.Some? ==>
           && BindTimes(l.value, n, env).Some? && BindTimes(r.value, n, env).Some?
           && BindTimes(l.value, n, env).value.outcomes == BindTimes(r.value, n, env).value.outcomes
           && BindTimes(l.value, n, env).value.world.trace == BindTimes(r.value, n, env).value.world.trace)
  {
    hide BindTimes, Entrypoint;
    var t, u := Compose(i, Extend(j, x, y), c), Compose(i, x, Compose(j, y, c));
    EntrypointReachesAll(t);
    EntrypointReachesAll(u);
    assert InOrder(t) == InOrder(x) + InOrder(y) + InOrder(c);
    assert InOrder(u) == InOrder(x) + (InOrder(y) + InOrder(c)) == InOrder(t);
    if Entrypoint(t).Some? {
      SameLeavesSameRuns(Entrypoint(t).value, Entrypoint(u).value, n, env);
    }
  }

  // ----- what the trace shows -----

  ghost predicate Succeeds(l: Rider, e: Event)
    requires l.Binder?
  {
    Reported(l, e.outcome).Done?
  }

  /** How many leaves have succeeded, each being tried until it does. */
  ghost function Reached(ls: seq<Rider>, trace: seq<Event>): (j: nat)
    requires AllBinders(ls)
    ensures j <= |ls|
  {
    if trace == [] then 0
    else
      var j := Reached(ls, trace[..|trace| - 1]);
      if j < |ls| && Succeeds(ls[j], trace[|trace| - 1]) then j + 1 else j
  }

  /** Event `p` is a call of the first leaf that has not yet succeeded, with its own arguments. */
  ghost predicate OrderlyAt(ls: seq<Rider>, trace: seq<Event>, env: Env, p: nat)
    requires AllBinders(ls) && p < |trace|
  {
    var j := Reached(ls, trace[..p]);
    j < |ls| && trace[p] == Event(ls[j].id, ls[j].args, env(p))
  }

  ghost predicate Orderly(ls: seq<Rider>, trace: seq<Event>, env: Env)
    requires AllBinders(ls)
  {
    forall p :: 0 <= p < |trace| ==> OrderlyAt(ls, trace, env, p)
  }

  lemma OrderlySnoc(ls: seq<Rider>, trace: seq<Event>, env: Env)
    requires AllBinders(ls) && Orderly(ls, trace, env) && Reached(ls, trace) < |ls|
    ensures var j := Reached(ls, trace);
      var e := Event(ls[j].id, ls[j].args, env(|trace|));
      && Orderly(ls, trace + [e], env)
      && Reached(ls, trace + [e]) == if Succeeds(ls[j], e) then j + 1 else j
  {
    var j := Reached(ls, trace);
    var e := Event(ls[j].id, ls[j].args, env(|trace|));
    var longer := trace + [e];
    assert longer[..|trace|] == trace;
    forall p | 0 <= p < |longer|
      ensures OrderlyAt(ls, longer, env, p)
    {
      if p < |trace| {
        assert OrderlyAt(ls, trace, env, p);
        assert longer[..p] == trace[..p];
      }
    }
  }

  /** What one call adds: successes, then at most one failure, which is what it returns. */
  ghost predicate CallReport(ls: seq<Rider>, before: seq<Event>, after: seq<Event>, o: Outcome)
    requires AllBinders(ls)
  {
    && before <= after
    && if o.Done? then Reached(ls, after) == |ls| && |after| == |before| + |ls| - Reached(ls, before)
       else
         && |after| > |before|
         && Reached(ls, after) < |ls|
         && Reached(ls, after[..|after| - 1]) == Reached(ls, after)
         && |after| == |before| + Reached(ls, after) - Reached(ls, before) + 1
         && after[|after| - 1].leaf == ls[Reached(ls, after)].id
         && after[|after| - 1].outcome == o
  }

  lemma {:induction false} AttemptReports(ls: seq<Rider>, k: nat, trace: seq<Event>, env: Env)
    requires AllBinders(ls) && Orderly(ls, trace, env) && k == Reached(ls, trace)
    ensures var p := Attempt(ls, k, trace, env);
      Orderly(ls, p.trace, env) && Reached(ls, p.trace) == p.next && CallReport(ls, trace, p.trace, p.outcome)
    decreases |ls| - k
  {
    hide Orderly;
    if k < |ls| {
      var e := Event(ls[k].id, ls[k].args, env(|trace|));
      OrderlySnoc(ls, trace, env);
      if Succeeds(ls[k], e) {
        AttemptReports(ls, k + 1, trace + [e], env);
      } else {
        assert (trace + [e])[..|trace|] == trace;
      }
    }
  }

  lemma {:induction false} AttemptTimesReports(ls: seq<Rider>, n: nat, env: Env)
    requires AllBinders(ls)
    ensures var a := AttemptTimes(ls, n, env);
      Orderly(ls, a.trace, env) && Reached(ls, a.trace) == a.next
    ensures n > 0 ==>
      var b, a := AttemptTimes(ls, n - 1, env), AttemptTimes(ls, n, env);
      CallReport(ls, b.trace, a.trace, a.outcomes[n - 1])
  {
    hide Orderly, CallReport, Reached, Attempt;
    if n == 0 {
      NothingYet(ls, env);
    } else {
      AttemptTimesReports(ls, n - 1, env);
      var b := AttemptTimes(ls, n - 1, env);
      AttemptReports(ls, b.next, b.trace, env);
    }
  }

  lemma NothingYet(ls: seq<Rider>, env: Env)
    requires AllBinders(ls)
    ensures Orderly(ls, [], env) && Reached(ls, []) == 0
  {
  }

  /**
    Any number of calls to the outermost entrypoint of any composition: every `configure`
    call is of the first leaf not yet configured, with that leaf's own arguments; and each
    call reports success exactly when all leaves are then configured, and otherwise the one
    failure it met, unchanged.
  */
  lemma CompositionBinds(t: Tree, n: nat, env: Env)
    requires Entrypoint(t).Some? && DistinctIds(InOrder(t))
    ensures var r := Entrypoint(t).value;
      && BindTimes(r, n, env).Some?
      && Orderly(InOrder(t), BindTimes(r, n, env).value.world.trace, env)
      && |BindTimes(r, n, env).value.outcomes| == n
      && (n > 0 ==>
           && BindTimes(r, n - 1, env).Some?
           && CallReport(InOrder(t), BindTimes(r, n - 1, env).value.world.trace,
                         BindTimes(r, n, env).value.world.trace, BindTimes(r, n, env).value.outcomes[n - 1]))
  {
    hide Orderly, CallReport, BindTimes, AttemptTimes, Entrypoint, InOrder;
    EntrypointReachesAll(t);
    var r := Entrypoint(t).value;
    BindTimesIsAttempts(r, n, env);
    AttemptTimesReports(Leaves(r), n, env);
    if n > 0 { BindTimesIsAttempts(r, n - 1, env); }
  }

  /** A leaf is tried only after every earlier leaf has succeeded. */
  lemma {:induction false} EarlierSucceeded(ls: seq<Rider>, trace: seq<Event>, env: Env, i: nat)
    requires AllBinders(ls) && Orderly(ls, trace, env) && i < Reached(ls, trace)
    ensures exists q :: 0 <= q < |trace| && trace[q].leaf == ls[i].id && Succeeds(ls[i], trace[q])
    decreases |trace|
  {
    var m := |trace| - 1;
    var j := Reached(ls, trace[..m]);
    assert OrderlyAt(ls, trace, env, m);
    if i < j {
      PrefixOrderly(ls, trace, env, m);
      EarlierSucceeded(ls, trace[..m], env, i);
      var q :| 0 <= q < m && trace[..m][q].leaf == ls[i].id && Succeeds(ls[i], trace[..m][q]);
      assert trace[q] == trace[..m][q];
    }
  }

  lemma PrefixOrderly(ls: seq<Rider>, trace: seq<Event>, env: Env, m: nat)
    requires AllBinders(ls) && Orderly(ls, trace, env) && m <= |trace|
    ensures Orderly(ls, trace[..m], env)
  {
    forall p | 0 <= p < m
      ensures OrderlyAt(ls, trace[..m], env, p)
    {
      assert OrderlyAt(ls, trace, env, p);
      assert trace[..m][..p] == trace[..p];
    }
  }

  lemma {:induction false} ReachedGrows(ls: seq<Rider>, trace: seq<Event>, m: nat)
    requires AllBinders(ls) && m <= |trace|
    ensures Reached(ls, trace[..m]) <= Reached(ls, trace)
    decreases |trace|
  {
    if m == |trace| {
      assert trace[..m] == trace;
    } else {
      ReachedGrows(ls, trace[..|trace| - 1], m);
      assert trace[..|trace| - 1][..m] == trace[..m];
    }
  }

  /** A leaf's `configure` is never called again once it has succeeded. */
  lemma NeverAgain(ls: seq<Rider>, trace: seq<Event>, env: Env, p: nat, q: nat)
    requires AllBinders(ls) && DistinctIds(ls) && Orderly(ls, trace, env)
    requires p < q < |trace| && trace[p].leaf == trace[q].leaf
    ensures var j := Reached(ls, trace[..p]);
      j < |ls| && trace[p].leaf == ls[j].id && !Succeeds(ls[j], trace[p])
  {
    var j, k := Reached(ls, trace[..p]), Reached(ls, trace[..q]);
    assert OrderlyAt(ls, trace, env, p) && OrderlyAt(ls, trace, env, q);
    ReachedGrows(ls, trace[..q], p + 1);
    assert trace[..q][..p + 1] == trace[..p + 1];
    assert trace[..p + 1][..p] == trace[..p];
    assert j == k by { assert ls[j].id == ls[k].id; }
  }

  // ----- who comes first, without the order -----

  /** `s` is a part of the composition `t`. */
  ghost predicate PartOf(s: Tree, t: Tree) {
    s == t || match t
              case Compose(_, p, c) => PartOf(s, p) || PartOf(s, c)
              case Extend(_, x, y) => PartOf(s, x) || PartOf(s, y)
              case _ => false
  }

  /** `first` must be configured before `second`: one is the provider of the other as its
      consumer, or the base of the other as its layer. */
  ghost predicate Before(s: Tree, first: Tree, second: Tree) {
    match s
    case Compose(_, p, c) => first == p && second == c
    case Extend(_, x, y) => first == x && second == y
    case _ => false
  }

  lemma {:induction false} PartInOrder(s: Tree, t: Tree) returns (front: seq<Rider>, back: seq<Rider>)
    requires PartOf(s, t)
    ensures InOrder(t) == front + InOrder(s) + back
  {
    if s == t {
      front, back := [], [];
    } else {
      var (a, b) := match t case Compose(_, p, c) => (p, c) case Extend(_, x, y) => (x, y);
      assert InOrder(t) == InOrder(a) + InOrder(b);
      hide InOrder;
      if PartOf(s, a) {
        var before, after := PartInOrder(s, a);
        front, back := before, after + InOrder(b);
        Regroup(before, InOrder(s), after, InOrder(b));
      } else {
        var before, after := PartInOrder(s, b);
        front, back := InOrder(a) + before, after;
        Shift(InOrder(a), before, InOrder(s), after);
      }
    }
  }

  lemma Regroup<T>(w: seq<T>, x: seq<T>, y: seq<T>, z: seq<T>)
    ensures (w + x + y) + z == w + x + (y + z)
  {
  }

  lemma Shift<T>(w: seq<T>, x: seq<T>, y: seq<T>, z: seq<T>)
    ensures w + (x + y + z) == (w + x) + y + z
  {
  }

  lemma LeafAt(t: Tree, leaf: Tree) returns (i: nat)
    requires leaf.Configured? && PartOf(leaf, t)
    ensures i < |InOrder(t)| && InOrder(t)[i] == Binder(leaf.id, leaf.args, leaf.retptr, leaf.results)
  {
    var front, back := PartInOrder(leaf, t);
    i := |front|;
  }

  lemma PlacesInOrder(t: Tree, s: Tree, first: Tree, second: Tree, a: Tree, b: Tree) returns (i: nat, j: nat)
    requires PartOf(s, t) && Before(s, first, second)
    requires a.Configured? && PartOf(a, first) && b.Configured? && PartOf(b, second)
    ensures i < j < |InOrder(t)|
    ensures InOrder(t)[i] == Binder(a.id, a.args, a.retptr, a.results)
    ensures InOrder(t)[j] == Binder(b.id, b.args, b.retptr, b.results)
  {
    hide PartOf;
    var front, back := PartInOrder(s, t);
    var m := LeafAt(first, a);
    var n := LeafAt(second, b);
    HalvesInOrder(s, first, second);
    hide InOrder;
    i, j := |front| + m, |front| + |InOrder(first)| + n;
  }

  lemma HalvesInOrder(s: Tree, first: Tree, second: Tree)
    requires Before(s, first, second)
    ensures InOrder(s) == InOrder(first) + InOrder(second)
  {
  }

  /** Event `k` is a call of the leaf that counts as a success: one without a result pointer, or
      one that reported success. */
  ghost predicate ConfiguredAt(trace: seq<Event>, leaf: Tree, k: nat)
    requires leaf.Configured? && k < |trace|
  {
    trace[k].leaf == leaf.id && (!leaf.retptr || trace[k].outcome.Done?)
  }

  /** In any run of any composition, before a leaf of a consumer or a layer is called every leaf of
      its provider or base has been called and has succeeded. */
  lemma ProvidersFirst(t: Tree, s: Tree, first: Tree, second: Tree, a: Tree, b: Tree, n: nat, env: Env, q: nat)
    requires Entrypoint(t).Some? && DistinctIds(InOrder(t)) && PartOf(s, t) && Before(s, first, second)
    requires a.Configured? && PartOf(a, first) && b.Configured? && PartOf(b, second)
    requires BindTimes(Entrypoint(t).value, n, env).Some?
    requires q < |BindTimes(Entrypoint(t).value, n, env).value.world.trace|
    requires BindTimes(Entrypoint(t).value, n, env).value.world.trace[q].leaf == b.id
    ensures exists k :: 0 <= k < q && ConfiguredAt(BindTimes(Entrypoint(t).value, n, env).value.world.trace, a, k)
  {
    hide BindTimes, Entrypoint, InOrder, Orderly, CallReport, PartOf, Before;
    var ls, trace := InOrder(t), BindTimes(Entrypoint(t).value, n, env).value.world.trace;
    CompositionBinds(t, n, env);
    var i, j := PlacesInOrder(t, s, first, second, a, b);
    CalledAt(ls, trace, env, q);
    var r := Reached(ls, trace[..q]);
    assert r == j by { assert ls[r].id == ls[j].id; }
    PrefixOrderly(ls, trace, env, q);
    EarlierSucceeded(ls, trace[..q], env, i);
    var k :| 0 <= k < q && trace[..q][k].leaf == ls[i].id && Succeeds(ls[i], trace[..q][k]);
    assert trace[k] == trace[..q][k];
    assert ConfiguredAt(trace, a, k);
  }

  lemma CalledAt(ls: seq<Rider>, trace: seq<Event>, env: Env, q: nat)
    requires AllBinders(ls) && Orderly(ls, trace, env) && q < |trace|
    ensures Reached(ls, trace[..q]) < |ls| && trace[q].leaf == ls[Reached(ls, trace[..q])].id
  {
    assert OrderlyAt(ls, trace, env, q);
  }

  /** When a bind returns success every configured leaf has been called and has succeeded. */
  lemma SuccessMeansAll(t: Tree, a: Tree, n: nat, env: Env)
    requires Entrypoint(t).Some? && DistinctIds(InOrder(t)) && a.Configured? && PartOf(a, t)
    requires n > 0 && BindTimes(Entrypoint(t).value, n, env).Some?
    requires |BindTimes(Entrypoint(t).value, n, env).value.outcomes| == n
    requires BindTimes(Entrypoint(t).value, n, env).value.outcomes[n - 1].Done?
    ensures var trace := BindTimes(Entrypoint(t).value, n, env).value.world.trace;
      exists k :: 0 <= k < |trace| && ConfiguredAt(trace, a, k)
  {
    hide BindTimes, Entrypoint, InOrder, Orderly, PartOf, Reached;
    var ls, trace := InOrder(t), BindTimes(Entrypoint(t).value, n, env).value.world.trace;
    CompositionBinds(t, n, env);
    var i := LeafAt(t, a);
    EarlierSucceeded(ls, trace, env, i);
    var k :| 0 <= k < |trace| && trace[k].leaf == ls[i].id && Succeeds(ls[i], trace[k]);
    assert ConfiguredAt(trace, a, k);
  }

  /**
    Without a result pointer a rejected configuration goes unseen: the entrypoint reports
    success on a failing `configure`, and never tries again.
  */
  lemma FailureUnseen(args: seq<CoreVal>, results: nat, env: Env, message: string)
    requires env(0) == Failed(message)
    ensures var t := Configured(0, args, false, results);
      && BindTimes(Entrypoint(t).value, 2, env).Some?
      && BindTimes(Entrypoint(t).value, 2, env).value.outcomes == [Done, Done]
      && BindTimes(Entrypoint(t).value, 2, env).value.world.trace == [Event(0, args, Failed(message))]
  {
    hide Bind, BindTimes;
    var r := Binder(0, args, false, results);
    BindTimesIsAttempts(r, 2, env);
    var ls := Leaves(r);
    assert AttemptTimes(ls, 0, env) == Attempts([], 0, []);
    assert Attempt(ls, 0, [], env) == Progress(Done, 1, [Event(0, args, Failed(message))]);
    assert AttemptTimes(ls, 1, env) == Attempts([Done], 1, [Event(0, args, Failed(message))]);
    assert AttemptTimes(ls, 2, env).outcomes == [Done] + [Done];
  }

  /** A failing `configure` stops the run and stays pending exactly when it has a result pointer. */
  lemma FailureStopsIff(ls: seq<Rider>, trace: seq<Event>, env: Env, p: nat)
    requires AllBinders(ls) && Orderly(ls, trace, env) && p < |trace| && env(p).Failed?
    ensures var j := Reached(ls, trace[..p]);
      j < |ls| && (Reached(ls, trace[..p + 1]) == j <==> ls[j].retptr)
  {
    assert OrderlyAt(ls, trace, env, p);
    assert trace[..p + 1][..p] == trace[..p] && trace[..p + 1][p] == trace[p];
  }
}
