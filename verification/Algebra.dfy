/**
  The composition algebra at the level of slots: what `$` and `&` leave open and export, and
  when they refuse, as sets and as the loops that compute them.
*/
module Algebra {
  import opened Bytes
  import opened Semver

  const CONFIGURED: string := "eo9:rt/configured"
  const MERGED: string := "eo9:rt/configured@0.1.0"
  const CONFIG_SUFFIX: string := "-config"
  const OPTIONAL_SUFFIX: string := "-optional"
  const MAIN: string := "main"

  /** An import: its extern name, whether it is an interface, and what it is an interface of. */
  datatype Import = Import(name: string, instance: bool, authorityFree: bool, interface: string)

  datatype Export = Export(name: string, instance: bool, interface: string)

  /** A component's surface. */
  datatype Surface = Surface(imports: set<Import>, exports: set<Export>)

  function PackageOf(interface: string): string {
    Before(interface, '/')
  }

  predicate IsRider(e: Export) {
    e.instance && SlotName(e.name) == CONFIGURED
  }

  /** A component is a binary if it exports `main`, else a provider. */
  ghost predicate IsProvider(s: Surface) {
    forall e :: e in s.exports ==> e.name != MAIN
  }

  predicate EndsWith(s: string, suffix: string) {
    |suffix| <= |s| && s[|s| - |suffix|..] == suffix
  }

  /** Imports of an optional flavour need not be satisfied. */
  predicate Required(i: Import) {
    !EndsWith(i.interface, OPTIONAL_SUFFIX)
  }

  /** The interfaces exported. */
  function Offered(exports: set<Export>): set<string> {
    set e | e in exports :: e.interface
  }

  // ----- wiring -----

  /**
    A types-only import that must stay residual: its package's authority interface is also
    imported, and is not among those offered.
  */
  ghost predicate Skipped(offered: set<string>, imports: set<Import>, i: Import) {
    && i.authorityFree && i.interface != ""
    && exists o :: o in imports && !o.authorityFree && PackageOf(o.interface) == PackageOf(i.interface) && o.interface !in offered
  }

  ghost predicate NoneSkipped(from: Surface, to: Surface) {
    forall i :: i in to.imports ==> !Skipped(Offered(from.exports), to.imports, i)
  }

  /** Some export of `from` can be wired to the import. */
  ghost predicate Matched(exports: set<Export>, i: Import) {
    i.instance && exists e :: e in exports && e.instance && Matches(e.name, i.name)
  }

  ghost predicate Sealed(from: Surface, to: Surface, i: Import) {
    Matched(from.exports, i) && !Skipped(Offered(from.exports), to.imports, i)
  }

  /** The imports of `to` that wiring from `from` leaves open. */
  ghost function Residual(from: Surface, to: Surface): set<Import> {
    set i | i in to.imports && !Sealed(from, to, i)
  }

  ghost predicate HasRider(s: Surface) {
    exists e :: e in s.exports && IsRider(e)
  }

  ghost function Riders(s: Surface): set<Export> {
    set e | e in s.exports && IsRider(e)
  }

  /** The merged bind entrypoint's export. */
  function MergedRider(): Export {
    Export(MERGED, true, CONFIGURED)
  }

  /** A required import for which only the interface that configures its API is offered. */
  predicate Unconfigured(offered: set<string>, i: Import) {
    Required(i) && i.interface != "" && i.interface + CONFIG_SUFFIX in offered && i.interface !in offered
  }

  /** Wiring from `p` seals nothing, and `p` must first be configured for something required. */
  ghost predicate Refused(p: Surface, c: Surface) {
    && (forall i :: i in c.imports ==> !Sealed(p, c, i))
    && exists i :: i in c.imports && Unconfigured(Offered(p.exports), i)
  }

  /** `p $ c` when it is not refused: the consumer's exports, and the bind entrypoints of both. */
  ghost function Composed(p: Surface, c: Surface): Surface {
    Surface(p.imports + Residual(p, c),
            if HasRider(p) && HasRider(c) then (set e | e in c.exports && SlotName(e.name) != CONFIGURED) + {MergedRider()}
            else c.exports + Riders(p))
  }

  /** `p $ c`; `None` is a refusal. */
  ghost function Compose(p: Surface, c: Surface): Option<Surface> {
    if IsProvider(p) && !Refused(p, c) then Some(Composed(p, c)) else None
  }

  ghost predicate Shadowed(e: Export, y: Surface) {
    exists f :: f in y.exports && SlotName(f.name) == SlotName(e.name)
  }

  /** `x & y` of providers: the layer's exports over what it does not shadow of the base's. */
  ghost function Extended(x: Surface, y: Surface): Surface {
    Surface(x.imports + Residual(x, y),
            if HasRider(x) && HasRider(y) then
              (set e | e in y.exports && SlotName(e.name) != CONFIGURED)
              + (set e | e in x.exports && !Shadowed(e, y)) + {MergedRider()}
            else y.exports + set e | e in x.exports && !Shadowed(e, y))
  }

  /** `x & y`; `None` is a refusal. */
  ghost function Extend(x: Surface, y: Surface): Option<Surface> {
    if IsProvider(x) && IsProvider(y) then Some(Extended(x, y)) else None
  }

  // ----- the loops that compute them -----

  /** The names of the imports that must not be wired. */
  method SplitIdentitySkips(exports: seq<Export>, imports: seq<Import>) returns (skips: seq<string>)
    ensures forall n :: n in skips <==> exists i :: i in imports && i.name == n && Skipped(Offered(Elements(exports)), Elements(imports), i)
  {
    skips := [];
    for k := 0 to |imports|
      invariant forall n :: n in skips <==>
        exists i :: i in imports[..k] && i.name == n && Skipped(Offered(Elements(exports)), Elements(imports), i)
    {
      var i := imports[k];
      assert imports[..k + 1] == imports[..k] + [i];
      if i.authorityFree && i.interface != "" {
        OfferedIn(exports);
        var unsatisfied := exists o :: o in imports && !o.authorityFree && PackageOf(o.interface) == PackageOf(i.interface)
                                       && forall e :: e in exports ==> e.interface != o.interface;
        if unsatisfied { skips := skips + [i.name]; }
      }
    }
  }

  lemma OfferedIn(exports: seq<Export>)
    ensures forall f :: f in Offered(Elements(exports)) <==> exists e :: e in exports && e.interface == f
  {
  }

  function Elements<T>(s: seq<T>): set<T> {
    set x | x in s
  }

  predicate DistinctNames(imports: seq<Import>) {
    forall i, j :: 0 <= i < j < |imports| ==> imports[i].name != imports[j].name
  }

  /** Wires what can be wired; what is left open is the residual. */
  method WireMatchingImports(exports: seq<Export>, imports: seq<Import>) returns (open: seq<Import>, sealed: nat)
    requires DistinctNames(imports)
    ensures Elements(open) == Residual(Surface({}, Elements(exports)), Surface(Elements(imports), {}))
    ensures sealed == 0 <==> forall i :: i in imports ==> !Sealed(Surface({}, Elements(exports)), Surface(Elements(imports), {}), i)
  {
    var skip := SplitIdentitySkips(exports, imports);
    var from, to := Surface({}, Elements(exports)), Surface(Elements(imports), {});
    hide Skipped, Matches;
    open, sealed := [], 0;
    for k := 0 to |imports|
      invariant forall i :: i in open <==> i in imports[..k] && !Sealed(from, to, i)
      invariant sealed == 0 <==> forall i :: i in imports[..k] ==> !Sealed(from, to, i)
    {
      var i := imports[k];
      assert imports[..k + 1] == imports[..k] + [i];
      SkipByName(exports, imports, skip, k);
      var matched := i.instance && i.name !in skip && exists e :: e in exports && e.instance && Matches(e.name, i.name);
      assert matched <==> Sealed(from, to, i) by {
        assert from.exports == Elements(exports) && to.imports == Elements(imports);
      }
      if matched { sealed := sealed + 1; } else { open := open + [i]; }
    }
    assert imports[..|imports|] == imports;
  }

  lemma SkipByName(exports: seq<Export>, imports: seq<Import>, skip: seq<string>, k: nat)
    requires DistinctNames(imports) && k < |imports|
    requires forall n :: n in skip <==> exists i :: i in imports && i.name == n && Skipped(Offered(Elements(exports)), Elements(imports), i)
    ensures imports[k].name in skip <==> Skipped(Offered(Elements(exports)), Elements(imports), imports[k])
  {
    hide Skipped;
    var i := imports[k];
    assert i in imports;
    forall o | o in imports && o.name == i.name
      ensures o == i
    {
      var j :| 0 <= j < |imports| && imports[j] == o;
    }
  }

  /** The first required import for which only the configuring interface is exported. */
  method UnconfiguredProviderFor(exports: seq<Export>, imports: seq<Import>) returns (slot: Option<string>)
    ensures slot.Some? <==> exists i :: i in imports && Unconfigured(Offered(Elements(exports)), i)
    ensures slot.Some? ==>
      exists k :: (0 <= k < |imports| && slot.value == SlotName(imports[k].name) && Unconfigured(Offered(Elements(exports)), imports[k])
                   && forall j :: 0 <= j < k ==> !Unconfigured(Offered(Elements(exports)), imports[j]))
  {
    OfferedIn(exports);
    for k := 0 to |imports|
      invariant forall j :: 0 <= j < k ==> !Unconfigured(Offered(Elements(exports)), imports[j])
    {
      var i := imports[k];
      if Required(i) && i.interface != "" {
        var api := exists e :: e in exports && e.interface == i.interface;
        var config := exists e :: e in exports && e.interface == i.interface + CONFIG_SUFFIX;
        if config && !api {
          assert i in imports && Unconfigured(Offered(Elements(exports)), i);
          return Some(SlotName(i.name));
        }
      }
    }
    slot := None;
  }

  /** The exports whose slots are not among those skipped, after those there already are. */
  method ExportAll(exports: seq<Export>, skip: Option<seq<string>>, before: seq<Export>) returns (out: seq<Export>)
    ensures forall e :: e in out <==> e in before || (e in exports && (skip.Some? ==> SlotName(e.name) !in skip.value))
  {
    out := before;
    for k := 0 to |exports|
      invariant forall e :: e in out <==> e in before || (e in exports[..k] && (skip.Some? ==> SlotName(e.name) !in skip.value))
    {
      assert exports[..k + 1] == exports[..k] + [exports[k]];
      if skip.None? || SlotName(exports[k].name) !in skip.value { out := out + [exports[k]]; }
    }
    assert exports[..|exports|] == exports;
  }

  /** The bind entrypoint a component exports, if any. */
  method ConfiguredExport(exports: seq<Export>) returns (rider: Option<Export>)
    ensures rider.Some? <==> exists e :: e in exports && IsRider(e)
    ensures rider.Some? ==> rider.value in exports && IsRider(rider.value)
  {
    for k := 0 to |exports|
      invariant forall j :: 0 <= j < k ==> !IsRider(exports[j])
    {
      if IsRider(exports[k]) { return Some(exports[k]); }
    }
    rider := None;
  }

  /** Adds the merged entrypoint of both operands, or the first one's alone. */
  method PropagateBinds(first: Option<Export>, second: Option<Export>, before: seq<Export>) returns (out: seq<Export>)
    ensures Elements(out) == Elements(before)
      + (if first.Some? && second.Some? then {MergedRider()} else if first.Some? then {first.value} else {})
  {
    if first.Some? && second.Some? {
      out := before + [MergedRider()];
    } else if first.Some? {
      out := before + [first.value];
    } else {
      out := before;
    }
  }

  /** A component as lists, in the order of its sections. */
  datatype Component = Component(imports: seq<Import>, exports: seq<Export>)

  function SurfaceOf(c: Component): Surface {
    Surface(Elements(c.imports), Elements(c.exports))
  }

  method Kind(c: Component) returns (provider: bool)
    ensures provider <==> IsProvider(SurfaceOf(c))
  {
    provider := forall e :: e in c.exports ==> e.name != MAIN;
  }

  /** `$`, step by step, with the warning that none of the provider's exports is used. */
  method ComposeChecked(p: Component, c: Component) returns (r: Option<Component>, unused: bool)
    requires DistinctNames(c.imports) && OneRider(SurfaceOf(p)) && OneRider(SurfaceOf(c))
    ensures r.Some? <==> Compose(SurfaceOf(p), SurfaceOf(c)).Some?
    ensures r.Some? ==> (unused <==> forall i :: i in c.imports ==> !Sealed(SurfaceOf(p), SurfaceOf(c), i))
    ensures r.Some? ==> Compose(SurfaceOf(p), SurfaceOf(c)) == Some(SurfaceOf(r.value))
  {
    hide Sealed, Unconfigured, SlotName;
    var provider := Kind(p);
    if !provider { return None, false; }
    var open, sealed := WireMatchingImports(p.exports, c.imports);
    ByExports(SurfaceOf(p), SurfaceOf(c));
    if sealed == 0 {
      var slot := UnconfiguredProviderFor(p.exports, c.imports);
      if slot.Some? { return None, false; }
    }
    unused := sealed == 0;
    var pBind := ConfiguredExport(p.exports);
    var cBind := ConfiguredExport(c.exports);
    var consumer := ExportAll(c.exports, if pBind.Some? && cBind.Some? then Some([CONFIGURED]) else None, []);
    var exports := PropagateBinds(pBind, cBind, consumer);
    r := Some(Component(p.imports + open, exports));
    Joined(p.imports, open);
    ExportsComposed(SurfaceOf(p), SurfaceOf(c), pBind, cBind, Elements(consumer), Elements(exports));
  }

  lemma Joined<T>(a: seq<T>, b: seq<T>)
    ensures Elements(a + b) == Elements(a) + Elements(b)
  {
  }

  /** The entrypoint found is the surface's one. */
  ghost predicate Found(s: Surface, rider: Option<Export>) {
    (rider.Some? <==> exists e :: e in s.exports && IsRider(e)) && (rider.Some? ==> rider.value in s.exports && IsRider(rider.value))
  }

  lemma ExportsComposed(p: Surface, c: Surface, pBind: Option<Export>, cBind: Option<Export>, consumer: set<Export>, exports: set<Export>)
    requires OneRider(p) && OneRider(c) && Found(p, pBind) && Found(c, cBind)
    requires forall e :: e in consumer <==> e in c.exports && (pBind.Some? && cBind.Some? ==> SlotName(e.name) !in [CONFIGURED])
    requires exports == consumer
      + (if pBind.Some? && cBind.Some? then {MergedRider()} else if pBind.Some? then {pBind.value} else {})
    ensures exports == Composed(p, c).exports
  {
    hide SlotName, Residual;
    OneRiderOnly(p, pBind);
  }

  /** `&`, step by step. */
  method ExtendChecked(x: Component, y: Component) returns (r: Option<Component>)
    requires DistinctNames(y.imports) && OneRider(SurfaceOf(x)) && OneRider(SurfaceOf(y))
    ensures r.Some? <==> Extend(SurfaceOf(x), SurfaceOf(y)).Some?
    ensures r.Some? ==> Extend(SurfaceOf(x), SurfaceOf(y)) == Some(SurfaceOf(r.value))
  {
    hide Sealed, Unconfigured, SlotName;
    var xProvider := Kind(x);
    var yProvider := Kind(y);
    if !xProvider || !yProvider { return None; }
    var open, _ := WireMatchingImports(x.exports, y.imports);
    ByExports(SurfaceOf(x), SurfaceOf(y));
    var xBind := ConfiguredExport(x.exports);
    var yBind := ConfiguredExport(y.exports);
    var bothBind := xBind.Some? && yBind.Some?;
    var layer := ExportAll(y.exports, if bothBind then Some([CONFIGURED]) else None, []);
    var shadowed := SlotsOf(y.exports);
    var exports := ExportAll(x.exports, Some(shadowed), layer);
    if bothBind { exports := PropagateBinds(xBind, yBind, exports); }
    r := Some(Component(x.imports + open, exports));
    Joined(x.imports, open);
    ExportsExtended(SurfaceOf(x), SurfaceOf(y), bothBind, shadowed, Elements(exports));
  }

  lemma ExportsExtended(x: Surface, y: Surface, both: bool, shadowed: seq<string>, exports: set<Export>)
    requires both <==> HasRider(x) && HasRider(y)
    requires forall n :: n in shadowed <==> exists e :: e in y.exports && SlotName(e.name) == n
    requires forall e :: e in exports <==>
      || (e in y.exports && (both ==> SlotName(e.name) !in [CONFIGURED]))
      || (e in x.exports && SlotName(e.name) !in shadowed)
      || (both && e == MergedRider())
    ensures exports == Extended(x, y).exports
  {
    hide SlotName, Residual, HasRider;
    forall e
      ensures Shadowed(e, y) <==> SlotName(e.name) in shadowed
    {
    }
  }

  method SlotsOf(exports: seq<Export>) returns (slots: seq<string>)
    ensures forall n :: n in slots <==> exists e :: e in exports && SlotName(e.name) == n
  {
    slots := [];
    for k := 0 to |exports|
      invariant forall n :: n in slots <==> exists e :: e in exports[..k] && SlotName(e.name) == n
    {
      assert exports[..k + 1] == exports[..k] + [exports[k]];
      slots := slots + [SlotName(exports[k].name)];
    }
    assert exports[..|exports|] == exports;
  }

  lemma OneRiderOnly(s: Surface, rider: Option<Export>)
    requires OneRider(s) && (rider.Some? <==> HasRider(s)) && (rider.Some? ==> rider.value in s.exports && IsRider(rider.value))
    ensures Riders(s) == if rider.Some? then {rider.value} else {}
  {
    hide SlotName;
  }

  /** Only the provider's exports and the consumer's imports matter to the wiring. */
  lemma ByExports(p: Surface, c: Surface)
    ensures Residual(Surface({}, p.exports), Surface(c.imports, {})) == Residual(p, c)
    ensures forall i :: Sealed(Surface({}, p.exports), Surface(c.imports, {}), i) <==> Sealed(p, c, i)
  {
    hide Matched, Skipped;
  }

  // ----- the residual formula -----

  /** With nothing skipped, what stays open of `c` is what `p` has no match for. */
  lemma ResidualIs(p: Surface, c: Surface)
    requires NoneSkipped(p, c)
    ensures Residual(p, c) == set i | i in c.imports && !Matched(p.exports, i)
  {
    hide Skipped, Matched;
  }

  // ----- bind entrypoints -----

  /** At most one bind entrypoint, of whatever version, and nothing else in its slot. */
  ghost predicate OneRider(s: Surface) {
    && (forall e :: e in s.exports && SlotName(e.name) == CONFIGURED ==> e.instance && e.interface == CONFIGURED)
    && (forall e, f :: e in s.exports && f in s.exports && SlotName(e.name) == CONFIGURED && SlotName(f.name) == CONFIGURED ==> e == f)
  }

  /** The entrypoint that two operands' entrypoints become. */
  ghost function Merge(a: set<Export>, b: set<Export>): set<Export> {
    if a != {} && b != {} then {MergedRider()} else a + b
  }

  lemma MergeAssociative(a: set<Export>, b: set<Export>, c: set<Export>)
    ensures Merge(Merge(a, b), c) == Merge(a, Merge(b, c))
  {
  }

  lemma MergedIsRider()
    ensures IsRider(MergedRider())
  {
    assert Before(MERGED, '@') == CONFIGURED by {
      assert MERGED == CONFIGURED + ['@'] + "0.1.0";
      BeforeFirst(CONFIGURED, '@', "0.1.0");
    }
  }

  lemma RidersAre(s: Surface)
    requires OneRider(s)
    ensures HasRider(s) <==> Riders(s) != {}
    ensures forall e :: e in Riders(s) <==> e in s.exports && SlotName(e.name) == CONFIGURED
  {
    hide SlotName;
    if HasRider(s) {
      var e :| e in s.exports && IsRider(e);
      assert e in Riders(s);
    }
  }

  /** What `&` exports: the merged entrypoint, and elsewhere the layer over what it does not shadow. */
  lemma ExtendExports(x: Surface, y: Surface, e: Export)
    requires OneRider(x) && OneRider(y)
    ensures SlotName(e.name) == CONFIGURED ==>
      (e in Extended(x, y).exports <==> e in Merge(Riders(x), Riders(y)))
    ensures SlotName(e.name) != CONFIGURED ==>
      (e in Extended(x, y).exports <==> e in y.exports || (e in x.exports && !Shadowed(e, y)))
  {
    hide SlotName;
    MergedIsRider();
    RidersAre(x);
    RidersAre(y);
    if e in x.exports && SlotName(e.name) == CONFIGURED && HasRider(y) {
      var f :| f in y.exports && IsRider(f);
      assert Shadowed(e, y);
    }
  }

  lemma ExtendRiders(x: Surface, y: Surface)
    requires OneRider(x) && OneRider(y)
    ensures OneRider(Extended(x, y)) && Riders(Extended(x, y)) == Merge(Riders(x), Riders(y))
  {
    hide SlotName, Extended;
    MergedIsRider();
    RidersAre(x);
    RidersAre(y);
    var all := Extended(x, y);
    forall e
      ensures e in Riders(all) <==> e in Merge(Riders(x), Riders(y))
      ensures e in all.exports && SlotName(e.name) == CONFIGURED ==> e in Merge(Riders(x), Riders(y))
    {
      ExtendExports(x, y, e);
    }
  }

  /** What `$` exports: the merged entrypoint, and elsewhere what the consumer does. */
  lemma ComposeExports(p: Surface, c: Surface, e: Export)
    requires OneRider(p) && OneRider(c)
    ensures SlotName(e.name) == CONFIGURED ==>
      (e in Composed(p, c).exports <==> e in Merge(Riders(p), Riders(c)))
    ensures SlotName(e.name) != CONFIGURED ==> (e in Composed(p, c).exports <==> e in c.exports)
  {
    hide SlotName;
    MergedIsRider();
    RidersAre(p);
    RidersAre(c);
  }

  lemma ComposeRiders(p: Surface, c: Surface)
    requires OneRider(p) && OneRider(c)
    ensures OneRider(Composed(p, c)) && Riders(Composed(p, c)) == Merge(Riders(p), Riders(c))
  {
    hide SlotName, Composed;
    MergedIsRider();
    RidersAre(p);
    RidersAre(c);
    var all := Composed(p, c);
    forall e
      ensures e in Riders(all) <==> e in Merge(Riders(p), Riders(c))
      ensures e in all.exports && SlotName(e.name) == CONFIGURED ==> e in Merge(Riders(p), Riders(c))
    {
      ComposeExports(p, c, e);
    }
  }
}
