/**
  The laws of the composition algebra: exactly when `(x & y) $ c` and `x $ (y $ c)` come out the
  same, refusals included, and when `&` is associative.
*/
module Laws {
  import opened Bytes
  import opened Semver
  import opened Algebra

  /** `(x & y) $ c`. */
  ghost function AtOnce(x: Surface, y: Surface, c: Surface): Option<Surface> {
    var e := Extend(x, y);
    if e == None then None else Compose(e.value, c)
  }

  /** `x $ (y $ c)`. */
  ghost function InStages(x: Surface, y: Surface, c: Surface): Option<Surface> {
    var inner := Compose(y, c);
    if inner == None then None else Compose(x, inner.value)
  }

  // ----- exports -----

  /** When neither grouping is refused, both export the same. */
  lemma ActionLawExports(x: Surface, y: Surface, c: Surface)
    requires OneRider(x) && OneRider(y) && OneRider(c)
    ensures Composed(Extended(x, y), c).exports == Composed(x, Composed(y, c)).exports
  {
    hide SlotName, Composed, Extended, OneRider, Riders, Merge;
    var e, inner := Extended(x, y), Composed(y, c);
    ExtendRiders(x, y);
    ComposeRiders(y, c);
    MergeAssociative(Riders(x), Riders(y), Riders(c));
    forall f
      ensures f in Composed(e, c).exports <==> f in Composed(x, inner).exports
    {
      ComposeExports(e, c, f);
      ComposeExports(x, inner, f);
      ComposeExports(y, c, f);
    }
  }

  /** An import `x` could provide, but whose slot `y` shadows without providing it. */
  ghost predicate Lost(x: Surface, y: Surface, i: Import) {
    && Matched(x.exports, i) && !Matched(y.exports, i)
    && exists f :: f in y.exports && SlotName(f.name) == SlotName(i.name)
  }

  /** What the extended environment matches: what either does, but for what shadowing loses. */
  lemma ExtendMatches(x: Surface, y: Surface, i: Import)
    requires OneRider(x) && OneRider(y) && SlotName(i.name) != CONFIGURED
    ensures Matched(Extended(x, y).exports, i) <==> (Matched(y.exports, i) || Matched(x.exports, i)) && !Lost(x, y, i)
  {
    hide Satisfies, SlotName, SlotVersion, Extended, OneRider;
    var all := Extended(x, y).exports;
    forall e: Export | SlotName(e.name) == SlotName(i.name)
      ensures e in all <==> e in y.exports || (e in x.exports && !Shadowed(e, y))
    {
      ExtendExports(x, y, e);
    }
    if Matched(y.exports, i) {
      var f :| f in y.exports && f.instance && Matches(f.name, i.name);
      assert f in all;
    } else if Matched(x.exports, i) {
      var e :| e in x.exports && e.instance && Matches(e.name, i.name);
      if !Lost(x, y, i) {
        assert !Shadowed(e, y);
        assert e in all;
      } else {
        var f :| f in y.exports && SlotName(f.name) == SlotName(i.name);
        forall g | g in all && g.instance
          ensures !Matches(g.name, i.name)
        {
          assert SlotName(g.name) == SlotName(i.name) ==> g in y.exports || Shadowed(g, y);
        }
      }
    }
  }

  /** Nobody but the executor imports a bind entrypoint. */
  ghost predicate NoBindImport(c: Surface) {
    forall i :: i in c.imports ==> SlotName(i.name) != CONFIGURED
  }

  /** The interfaces that the layer, or the base where it is not shadowed, exports. */
  ghost function OfferedBy(x: Surface, y: Surface): set<string> {
    Offered(y.exports) + (set e | e in x.exports && !Shadowed(e, y) :: e.interface)
  }

  lemma ExtendOffers(x: Surface, y: Surface)
    requires OneRider(x) && OneRider(y)
    ensures Offered(Extended(x, y).exports) == OfferedBy(x, y)
  {
    hide SlotName, Shadowed;
    RidersAre(x);
    RidersAre(y);
    var all := Extended(x, y).exports;
    if HasRider(x) && HasRider(y) {
      var r :| r in y.exports && IsRider(r);
      assert r.interface == CONFIGURED;
      assert MergedRider() in all;
      forall f
        ensures f in Offered(all) <==> f in OfferedBy(x, y)
      {
        if f in Offered(y.exports) {
          var e :| e in y.exports && e.interface == f;
          if SlotName(e.name) != CONFIGURED { assert e in all; }
        }
        if f in Offered(all) {
          var e :| e in all && e.interface == f;
          assert e == MergedRider() ==> r.interface == f;
        }
      }
    }
  }

  lemma ExtendProvides(x: Surface, y: Surface)
    requires IsProvider(x) && IsProvider(y)
    ensures IsProvider(Extended(x, y))
  {
    assert |MERGED| != |MAIN|;
  }

  // ----- how one import fares -----

  /** At once, `(x & y) $ c`: the environment has a match, and the import is not held back. */
  ghost predicate SealedAtOnce(x: Surface, y: Surface, c: Surface, i: Import) {
    && (Matched(y.exports, i) || Matched(x.exports, i)) && !Lost(x, y, i)
    && !Skipped(OfferedBy(x, y), c.imports, i)
  }

  /** What the layer leaves for the base to satisfy. */
  ghost function StagedImports(y: Surface, c: Surface): set<Import> {
    y.imports + Residual(y, c)
  }

  /** In the second stage of `x $ (y $ c)` the base has a match, and the import is not held back. */
  ghost predicate SealedByBase(x: Surface, y: Surface, c: Surface, i: Import) {
    Matched(x.exports, i) && !Skipped(Offered(x.exports), StagedImports(y, c), i)
  }

  // How an import that neither `x` nor the layer's own wiring leaves open can come out
  // differently at once and in stages.

  /** Open at once: its slot is shadowed or its package's authority is not there, but in
      stages `x` seals it. */
  ghost predicate LeftOpen(x: Surface, y: Surface, c: Surface, i: Import) {
    && i in c.imports && (Lost(x, y, i) || Skipped(OfferedBy(x, y), c.imports, i))
    && SealedByBase(x, y, c, i)
  }

  /** Open in stages: it meets, among what the layer and the consumer leave open together, an
      authority interface of its package that `x` does not export; at once it is sealed. */
  ghost predicate SkippedLate(x: Surface, y: Surface, c: Surface, i: Import) {
    && Matched(x.exports, i) && Skipped(Offered(x.exports), StagedImports(y, c), i)
    && (i in y.imports || !Sealed(y, c, i))
    && (i in c.imports ==> !Lost(x, y, i) && !Skipped(OfferedBy(x, y), c.imports, i))
  }

  /** Open in stages: the layer has the types but not the authority interface, which only `x`
      adds; at once it is sealed by the layer. */
  ghost predicate SkippedEarly(x: Surface, y: Surface, c: Surface, i: Import) {
    && i in c.imports && !Matched(x.exports, i)
    && Matched(y.exports, i) && Skipped(Offered(y.exports), c.imports, i) && !Skipped(OfferedBy(x, y), c.imports, i)
  }

  ghost predicate Differs(x: Surface, y: Surface, c: Surface, i: Import) {
    LeftOpen(x, y, c, i) || SkippedLate(x, y, c, i) || SkippedEarly(x, y, c, i)
  }

  /** No import of the layer or the consumer comes out differently. */
  ghost predicate NoneDiffers(x: Surface, y: Surface, c: Surface) {
    forall i :: i in y.imports + c.imports && i !in x.imports + Residual(x, y) ==> !Differs(x, y, c, i)
  }

  lemma SkipsLess(some: set<string>, more: set<string>, imports: set<Import>, i: Import)
    requires Skipped(more, imports, i) && some <= more
    ensures Skipped(some, imports, i)
  {
  }

  lemma SkipsMore(offered: set<string>, some: set<Import>, more: set<Import>, i: Import)
    requires Skipped(offered, some, i) && some <= more
    ensures Skipped(offered, more, i)
  {
  }

  lemma SealedAtOnceIs(x: Surface, y: Surface, c: Surface, i: Import)
    requires OneRider(x) && OneRider(y) && NoBindImport(c) && i in c.imports
    ensures Sealed(Extended(x, y), c, i) <==> SealedAtOnce(x, y, c, i)
  {
    hide Extended, Matched, Skipped, OfferedBy, OneRider;
    ExtendMatches(x, y, i);
    ExtendOffers(x, y);
  }

  lemma LostParts(x: Surface, y: Surface, i: Import)
    ensures Lost(x, y, i) ==> Matched(x.exports, i) && !Matched(y.exports, i)
  {
  }

  lemma OneImport(x: Surface, y: Surface, c: Surface, i: Import)
    requires OneRider(x) && OneRider(y) && NoBindImport(c)
    requires i in y.imports + c.imports && i !in x.imports + Residual(x, y)
    ensures (i in Composed(Extended(x, y), c).imports <==> i in Composed(x, Composed(y, c)).imports) <==> !Differs(x, y, c, i)
  {
    hide Matched, Skipped, Lost, SlotName, OneRider, OfferedBy;
    var e, inner := Extended(x, y), Composed(y, c);
    if i in c.imports { SealedAtOnceIs(x, y, c, i); }
    LostParts(x, y, i);
    if Skipped(OfferedBy(x, y), c.imports, i) {
      assert Offered(y.exports) <= OfferedBy(x, y) by { LayerOffers(x, y); }
      SkipsLess(Offered(y.exports), OfferedBy(x, y), c.imports, i);
    }
    assert i in y.imports ==> Sealed(x, y, i);
    assert inner.imports == StagedImports(y, c);
    assert i in Composed(e, c).imports <==> i in c.imports && !Sealed(e, c, i);
    assert i in Composed(x, inner).imports <==> (i in y.imports || (i in c.imports && !Sealed(y, c, i))) && !SealedByBase(x, y, c, i);
  }

  lemma LayerOffers(x: Surface, y: Surface)
    ensures Offered(y.exports) <= OfferedBy(x, y)
  {
    hide Offered;
  }

  /** What `x` or the layer leaves open is open either way, and nothing foreign is. */
  lemma OpenAnyway(x: Surface, y: Surface, c: Surface, i: Import)
    ensures i in x.imports + Residual(x, y) ==>
      i in Composed(Extended(x, y), c).imports && i in Composed(x, Composed(y, c)).imports
    ensures i in Composed(Extended(x, y), c).imports + Composed(x, Composed(y, c)).imports ==>
      i in x.imports + y.imports + c.imports
  {
    hide Skipped, Matched;
    if i in Residual(x, y) && Skipped(Offered(x.exports), y.imports, i) {
      SkipsMore(Offered(x.exports), y.imports, Composed(y, c).imports, i);
    }
  }

  /** What the two groupings leave open, refusals aside. */
  lemma ImportsAgreeIff(x: Surface, y: Surface, c: Surface)
    requires OneRider(x) && OneRider(y) && NoBindImport(c)
    ensures Composed(Extended(x, y), c).imports == Composed(x, Composed(y, c)).imports <==> NoneDiffers(x, y, c)
  {
    hide Composed, Extended, Residual, Differs, OneRider, NoBindImport;
    var l, r := Composed(Extended(x, y), c).imports, Composed(x, Composed(y, c)).imports;
    forall i
      ensures i in y.imports + c.imports && i !in x.imports + Residual(x, y) ==> ((i in l <==> i in r) <==> !Differs(x, y, c, i))
      ensures i in x.imports + Residual(x, y) ==> i in l && i in r
      ensures i in l + r ==> i in x.imports + y.imports + c.imports
    {
      OpenAnyway(x, y, c, i);
      if i in y.imports + c.imports && i !in x.imports + Residual(x, y) { OneImport(x, y, c, i); }
    }
    if NoneDiffers(x, y, c) {
      assert forall i :: i in l <==> i in r;
    }
  }

  // ----- refusals -----

  /** `(x & y) $ c` is refused: no import of the consumer is sealed, and for a required one the
      environment offers nothing but the configuring interface. */
  ghost predicate RefusedAtOnce(x: Surface, y: Surface, c: Surface) {
    && (forall i :: i in c.imports ==> !SealedAtOnce(x, y, c, i))
    && exists i :: i in c.imports && Unconfigured(OfferedBy(x, y), i)
  }

  /** The second stage is refused: the base seals nothing of what the layer leaves to it, and
      for something required it offers nothing but the configuring interface. */
  ghost predicate RefusedByBase(x: Surface, y: Surface, c: Surface) {
    && (forall i :: i in StagedImports(y, c) ==> !SealedByBase(x, y, c, i))
    && exists i :: i in StagedImports(y, c) && Unconfigured(Offered(x.exports), i)
  }

  /** `x $ (y $ c)` is refused at one stage or the other. */
  ghost predicate RefusedInStages(x: Surface, y: Surface, c: Surface) {
    Refused(y, c) || RefusedByBase(x, y, c)
  }

  lemma RefusedAtOnceIs(x: Surface, y: Surface, c: Surface)
    requires OneRider(x) && OneRider(y) && NoBindImport(c)
    ensures Refused(Extended(x, y), c) <==> RefusedAtOnce(x, y, c)
  {
    hide Extended, Sealed, SealedAtOnce, Unconfigured, OfferedBy, OneRider, NoBindImport;
    ExtendOffers(x, y);
    forall i | i in c.imports
      ensures Sealed(Extended(x, y), c, i) <==> SealedAtOnce(x, y, c, i)
    {
      SealedAtOnceIs(x, y, c, i);
    }
  }

  lemma RefusedByBaseIs(x: Surface, y: Surface, c: Surface)
    ensures Refused(x, Composed(y, c)) <==> RefusedByBase(x, y, c)
  {
    hide Matched, Skipped, Unconfigured, Residual;
    assert Composed(y, c).imports == StagedImports(y, c);
  }

  lemma GroupingsAre(x: Surface, y: Surface, c: Surface)
    requires OneRider(x) && OneRider(y) && NoBindImport(c)
    ensures AtOnce(x, y, c) ==
      if IsProvider(x) && IsProvider(y) && !RefusedAtOnce(x, y, c) then Some(Composed(Extended(x, y), c)) else None
    ensures InStages(x, y, c) ==
      if IsProvider(x) && IsProvider(y) && !RefusedInStages(x, y, c) then Some(Composed(x, Composed(y, c))) else None
  {
    hide Composed, Extended, Refused, RefusedAtOnce, RefusedByBase, OneRider, NoBindImport, IsProvider;
    RefusedAtOnceIs(x, y, c);
    RefusedByBaseIs(x, y, c);
    if IsProvider(x) && IsProvider(y) { ExtendProvides(x, y); }
  }

  // ----- the action law -----

  /**
    The action law, whatever is skipped or refused: `(x & y) $ c` and `x $ (y $ c)` of providers
    come out the same exactly when both are refused, or neither is and no import differs.
  */
  lemma ActionLawExact(x: Surface, y: Surface, c: Surface)
    requires OneRider(x) && OneRider(y) && OneRider(c) && NoBindImport(c)
    ensures AtOnce(x, y, c) == InStages(x, y, c)
       <==> (IsProvider(x) && IsProvider(y) ==>
              && (RefusedAtOnce(x, y, c) <==> RefusedInStages(x, y, c))
              && (RefusedAtOnce(x, y, c) || NoneDiffers(x, y, c)))
  {
    hide AtOnce, InStages, RefusedAtOnce, RefusedInStages, NoneDiffers, Composed, Extended, OneRider, NoBindImport, IsProvider;
    GroupingsAre(x, y, c);
    ImportsAgreeIff(x, y, c);
    ActionLawExports(x, y, c);
  }

  /** No wiring of the law leaves a types-only import behind. */
  ghost predicate PlainWirings(x: Surface, y: Surface, c: Surface) {
    NoneSkipped(x, y) && NoneSkipped(y, c) && NoneSkipped(Extended(x, y), c) && NoneSkipped(x, Composed(y, c))
  }

  /** Everything that shadowing loses stays open on its own account anyway. */
  ghost predicate LossesOpen(x: Surface, y: Surface, c: Surface) {
    forall i :: i in c.imports && Lost(x, y, i) ==> i in x.imports + Residual(x, y)
  }

  lemma PlainDiffers(x: Surface, y: Surface, c: Surface)
    requires OneRider(x) && OneRider(y) && PlainWirings(x, y, c)
    ensures NoneDiffers(x, y, c) <==> LossesOpen(x, y, c)
  {
    hide Matched, Skipped, Residual, Extended, OneRider;
    ExtendOffers(x, y);
    assert Composed(y, c).imports == StagedImports(y, c);
    forall i | i in y.imports + c.imports && i !in x.imports + Residual(x, y)
      ensures Differs(x, y, c, i) <==> i in c.imports && Lost(x, y, i)
    {
      LostParts(x, y, i);
      OpenOrSealed(y, c, i);
    }
  }

  lemma OpenOrSealed(y: Surface, c: Surface, i: Import)
    requires i in y.imports + c.imports
    ensures i in StagedImports(y, c) || Sealed(y, c, i)
  {
    hide Sealed;
  }

  /** With nothing skipped, the law holds exactly when both are refused, or neither is and
      everything shadowing loses stays open anyway. */
  lemma ActionLawIff(x: Surface, y: Surface, c: Surface)
    requires OneRider(x) && OneRider(y) && OneRider(c) && NoBindImport(c) && PlainWirings(x, y, c)
    ensures AtOnce(x, y, c) == InStages(x, y, c)
       <==> (IsProvider(x) && IsProvider(y) ==>
              && (RefusedAtOnce(x, y, c) <==> RefusedInStages(x, y, c))
              && (RefusedAtOnce(x, y, c) || LossesOpen(x, y, c)))
  {
    hide AtOnce, InStages, RefusedAtOnce, RefusedInStages, NoneDiffers, LossesOpen, PlainWirings, OneRider, NoBindImport, IsProvider;
    ActionLawExact(x, y, c);
    PlainDiffers(x, y, c);
  }

  /** For every slot both export, `y`'s version satisfies all that `x`'s does. */
  ghost predicate Covers(x: Surface, y: Surface) {
    forall e :: e in x.exports && e.instance && Shadowed(e, y) ==>
      exists f :: f in y.exports && f.instance && Matches(f.name, e.name)
  }

  lemma CoversLosesNothing(x: Surface, y: Surface, i: Import)
    requires Covers(x, y)
    ensures !Lost(x, y, i)
  {
    hide Satisfies, SlotName, SlotVersion;
    if Lost(x, y, i) {
      var e :| e in x.exports && e.instance && Matches(e.name, i.name);
      assert Shadowed(e, y);
      var f :| f in y.exports && f.instance && Matches(f.name, e.name);
      MatchesTransitive(f.name, e.name, i.name);
      assert false;
    }
  }

  /** Under covering, the law holds of a consumer whose wirings skip nothing exactly when
      either both groupings are refused or neither is. */
  lemma ActionLaw(x: Surface, y: Surface, c: Surface)
    requires OneRider(x) && OneRider(y) && OneRider(c) && NoBindImport(c) && PlainWirings(x, y, c) && Covers(x, y)
    ensures AtOnce(x, y, c) == InStages(x, y, c)
       <==> (IsProvider(x) && IsProvider(y) ==> (RefusedAtOnce(x, y, c) <==> RefusedInStages(x, y, c)))
  {
    hide AtOnce, InStages, RefusedAtOnce, RefusedInStages, PlainWirings, OneRider, NoBindImport, IsProvider, Lost, Covers;
    ActionLawIff(x, y, c);
    forall i | i in c.imports
      ensures !Lost(x, y, i)
    {
      CoversLosesNothing(x, y, i);
    }
  }

  /** No operand exports just the configuring interface of anything the others require. */
  ghost predicate AllConfigured(x: Surface, y: Surface, c: Surface) {
    forall i :: i in y.imports + c.imports && Required(i) && i.interface != "" ==>
      i.interface + CONFIG_SUFFIX !in Offered(x.exports) + Offered(y.exports)
  }

  /** With everything configured nothing is refused, and the law holds outright. */
  lemma ConfiguredLaw(x: Surface, y: Surface, c: Surface)
    requires OneRider(x) && OneRider(y) && OneRider(c) && NoBindImport(c) && PlainWirings(x, y, c) && Covers(x, y)
    requires AllConfigured(x, y, c) && IsProvider(x) && IsProvider(y)
    ensures AtOnce(x, y, c) == InStages(x, y, c) == Some(Composed(x, Composed(y, c)))
  {
    hide AtOnce, InStages, PlainWirings, OneRider, NoBindImport, IsProvider, Sealed, SealedAtOnce, SealedByBase, Covers, Composed, Extended;
    assert OfferedBy(x, y) <= Offered(x.exports) + Offered(y.exports);
    GroupingsAre(x, y, c);
    ActionLaw(x, y, c);
  }

  // ----- where it fails -----

  /** Without covering it fails of the consumer that imports just what is shadowed. */
  lemma ActionLawNeedsCovers(x: Surface, y: Surface, e: Export)
    requires OneRider(x) && OneRider(y) && IsProvider(x) && IsProvider(y)
    requires e in x.exports && e.instance && Shadowed(e, y) && SlotName(e.name) != CONFIGURED
    requires forall f :: f in y.exports && f.instance ==> !Matches(f.name, e.name)
    requires forall i :: i in x.imports + y.imports ==> i.name != e.name && !i.authorityFree
    ensures AtOnce(x, y, Surface({Import(e.name, true, false, "")}, {})) != InStages(x, y, Surface({Import(e.name, true, false, "")}, {}))
  {
    hide AtOnce, InStages, Composed, Extended, Satisfies, SlotName, SlotVersion, OneRider, IsProvider;
    var i := Import(e.name, true, false, "");
    var c := Surface({i}, {});
    assert PlainWirings(x, y, c) by { PlainHere(x, y, c); }
    assert OneRider(c) by { NoExports(c); }
    ActionLawIff(x, y, c);
    MatchesSelf(e.name);
    assert Matched(x.exports, i) && !Matched(y.exports, i);
    assert Lost(x, y, i);
    assert i !in x.imports + Residual(x, y);
    assert !RefusedAtOnce(x, y, c);
  }

  lemma NoExports(c: Surface)
    requires c.exports == {}
    ensures OneRider(c)
  {
  }

  lemma PlainHere(x: Surface, y: Surface, c: Surface)
    requires forall i :: i in x.imports + y.imports + c.imports ==> !i.authorityFree
    ensures PlainWirings(x, y, c)
  {
  }

  /** One such case: the base's slot `a` is shadowed by an older version. */
  lemma OlderLayerBreaks()
    ensures var x, y := Surface({}, {Export("a@1.2.0", true, "a")}), Surface({}, {Export("a@1.0.0", true, "a")});
      var c := Surface({Import("a@1.2.0", true, false, "")}, {});
      AtOnce(x, y, c) != InStages(x, y, c)
  {
    hide AtOnce, InStages, SlotName, Matches;
    var newer, older := Export("a@1.2.0", true, "a"), Export("a@1.0.0", true, "a");
    OlderName();
    assert Shadowed(newer, Surface({}, {older}));
    assert |"a@1.2.0"| != |MAIN| && |"a@1.0.0"| != |MAIN|;
    ActionLawNeedsCovers(Surface({}, {newer}), Surface({}, {older}), newer);
  }

  lemma OlderName()
    ensures SlotName("a@1.2.0") == SlotName("a@1.0.0") == "a" != CONFIGURED
    ensures !Matches("a@1.0.0", "a@1.2.0")
  {
    hide SlotName, SlotVersion, Satisfies, Render;
    var one, two := Version(1, 0, 0, ""), Version(1, 2, 0, "");
    assert Render(one) == "1.0.0" && Render(two) == "1.2.0" by { Rendered(); }
    VersionedName("a", one, "a@1.0.0");
    VersionedName("a", two, "a@1.2.0");
    SatisfiesIff(one, two);
    assert |"a"| != |CONFIGURED|;
  }

  lemma Rendered()
    ensures Render(Version(1, 0, 0, "")) == "1.0.0" && Render(Version(1, 2, 0, "")) == "1.2.0"
  {
    assert Decimal(0) == "0" && Decimal(1) == "1" && Decimal(2) == "2";
  }

  lemma VersionedName(slot: string, v: Version, name: string)
    requires '@' !in slot && name == slot + "@" + Render(v)
    ensures SlotName(name) == slot && SlotVersion(name) == Render(v)
  {
    assert name == slot + ['@'] + Render(v);
    BeforeFirst(slot, '@', Render(v));
  }

  /** And one with no shadowing at all: the base has a package's types, the layer wants its
      authority interface from elsewhere, and the consumer wants the types. */
  lemma SkipBreaks()
    ensures var types, auth := Import("p/t", true, true, "p/t"), Import("p/a", true, false, "p/a");
      var x, y, c := Surface({}, {Export("p/t", true, "p/t")}), Surface({auth}, {}), Surface({types}, {});
      && AtOnce(x, y, c) == Some(Surface({auth}, {}))
      && InStages(x, y, c) == Some(Surface({auth, types}, {}))
  {
    hide SlotName, PackageOf, Matches, EndsWith, AtOnce, InStages;
    PackageNames();
    SkipFacts(Import("p/t", true, true, "p/t"), Import("p/a", true, false, "p/a"), Export("p/t", true, "p/t"));
  }

  /** The same of any such package. */
  lemma SkipFacts(types: Import, auth: Import, e: Export)
    requires types.instance && types.authorityFree && !auth.authorityFree && e.instance
    requires PackageOf(types.interface) == PackageOf(auth.interface) && auth.interface != e.interface && types.interface != ""
    requires Matches(e.name, types.name) && !Matches(e.name, auth.name)
    requires SlotName(e.name) != CONFIGURED && SlotName(types.name) != CONFIGURED && e.name != MAIN
    requires |e.interface| < |CONFIG_SUFFIX|
    ensures var x, y, c := Surface({}, {e}), Surface({auth}, {}), Surface({types}, {});
      && AtOnce(x, y, c) == Some(Surface({auth}, {}))
      && InStages(x, y, c) == Some(Surface({auth, types}, {}))
  {
    hide SlotName, PackageOf, Matches, Required, AtOnce, InStages, Composed, Extended;
    var x, y, c := Surface({}, {e}), Surface({auth}, {}), Surface({types}, {});
    assert e in x.exports;
    assert Matched({e}, types) && !Matched({e}, auth) && !Matched({}, types);
    assert auth in {auth, types} && auth.interface !in Offered({e});
    SkipComposed(types, auth, e);
    NotConfiguring(Offered({e}), types, e.interface);
    NotConfiguring(Offered({e}), auth, e.interface);
    assert OfferedBy(x, y) == Offered({e});
    hide Skipped, Matched, Composed, Extended;
    GroupingsAre(x, y, c);
  }

  lemma SkipComposed(types: Import, auth: Import, e: Export)
    requires e.instance && SlotName(e.name) != CONFIGURED && types != auth
    requires Matched({e}, types) && !Matched({e}, auth) && !Matched({}, types)
    requires !Skipped(Offered({e}), {types}, types) && Skipped(Offered({e}), {auth, types}, types)
    ensures var x, y, c := Surface({}, {e}), Surface({auth}, {}), Surface({types}, {});
      && Composed(Extended(x, y), c) == Surface({auth}, {}) && Composed(y, c) == Surface({auth, types}, {})
      && Composed(x, Composed(y, c)) == Surface({auth, types}, {})
  {
    hide Skipped, Matched, SlotName;
    var x, y, c := Surface({}, {e}), Surface({auth}, {}), Surface({types}, {});
    assert Extended(x, y) == Surface({auth}, {e});
    assert Composed(Extended(x, y), c) == Surface({auth}, {});
    assert Composed(y, c) == Surface({auth, types}, {});
    assert Composed(x, Composed(y, c)) == Surface({auth, types}, {});
  }

  lemma PackageNames()
    ensures Matches("p/t", "p/t") && !Matches("p/t", "p/a") && PackageOf("p/t") == PackageOf("p/a") == "p"
    ensures SlotName("p/t") != CONFIGURED && "p/t" != MAIN && "p/a" != "p/t" && |"p/t"| < |CONFIG_SUFFIX|
  {
    hide SlotName, SlotVersion, Satisfies, PackageOf;
    PlainName("p/t");
    PlainName("p/a");
    MatchesSelf("p/t");
    assert PackageOf("p/t") == PackageOf("p/a") == "p" by { ThePackage(); }
    assert |"p/t"| == 3 && |"p/a"| == 3 && |CONFIGURED| == 17 && |MAIN| == 4 && |CONFIG_SUFFIX| == 7;
    assert "p/t"[2] != "p/a"[2];
  }

  lemma ThePackage()
    ensures PackageOf("p/t") == PackageOf("p/a") == "p"
  {
    assert "p/t" == "p" + ['/'] + "t" && "p/a" == "p" + ['/'] + "a";
    BeforeFirst("p", '/', "t");
    BeforeFirst("p", '/', "a");
  }

  lemma PlainName(name: string)
    requires '@' !in name
    ensures SlotName(name) == name && SlotVersion(name) == ""
  {
    BeforeAll(name, '@');
  }

  lemma NotConfiguring(offered: set<string>, i: Import, name: string)
    requires offered == {name} && |name| < |CONFIG_SUFFIX|
    ensures !Unconfigured(offered, i)
  {
  }

  const FS := Import("eo9:fs/fs", true, false, "eo9:fs/fs")
  const TIME := Import("eo9:time/time", true, false, "eo9:time/time")
  const FS_CONFIG := Export("eo9:fs/fs-config", true, "eo9:fs/fs-config")
  const CLOCK := Export("eo9:time/time", true, "eo9:time/time")

  lemma ApiNames()
    ensures Matches(CLOCK.name, TIME.name) && !Matches(CLOCK.name, FS.name)
    ensures !Matches(FS_CONFIG.name, FS.name) && !Matches(FS_CONFIG.name, TIME.name)
    ensures SlotName(CLOCK.name) != SlotName(FS_CONFIG.name)
    ensures SlotName(FS.name) != CONFIGURED && SlotName(TIME.name) != CONFIGURED && SlotName(FS_CONFIG.name) != CONFIGURED
    ensures CLOCK.name != MAIN && FS_CONFIG.name != MAIN
    ensures Required(FS) && FS.interface + CONFIG_SUFFIX == FS_CONFIG.interface
    ensures FS.interface != CLOCK.interface && FS.interface != FS_CONFIG.interface && FS.interface != ""
  {
    hide Satisfies, SlotName, SlotVersion, EndsWith;
    PlainName(FS.name);
    PlainName(TIME.name);
    PlainName(FS_CONFIG.name);
    MatchesSelf(TIME.name);
    ApiLengths();
    FsRequired();
  }

  lemma ApiLengths()
    ensures |FS.name| == 9 && |TIME.name| == 13 && |FS_CONFIG.name| == 16 && |CONFIGURED| == 17 && |MAIN| == 4
    ensures FS.interface + CONFIG_SUFFIX == FS_CONFIG.interface
  {
  }

  lemma FsRequired()
    ensures Required(FS)
  {
    var n := |FS.interface| - |OPTIONAL_SUFFIX|;
    assert FS.interface[n..][0] == 'e' && OPTIONAL_SUFFIX[0] == '-';
  }

  /**
    Two refusals in stages only. The consumer requires a file system and a clock; one operand
    has the clock, the other just the configuring interface of the file system. At once the
    clock is sealed and the file system left open; in stages the operand that has only the
    configuring interface seals nothing, first or last, and is refused.
  */
  lemma UnconfiguredBreaks()
    ensures var config, clock, c := Surface({}, {FS_CONFIG}), Surface({}, {CLOCK}), Surface({FS, TIME}, {});
      && AtOnce(config, clock, c).Some? && InStages(config, clock, c) == None
      && AtOnce(clock, config, c).Some? && InStages(clock, config, c) == None
  {
    hide Matches, SlotName, Required, AtOnce, InStages;
    ApiNames();
    UnconfiguredLate(FS, TIME, FS_CONFIG, CLOCK);
    UnconfiguredEarly(FS, TIME, FS_CONFIG, CLOCK);
  }

  /** An API required, its configuring interface, and something else with its own match. */
  ghost predicate ApiAndOther(api: Import, other: Import, config: Export, fit: Export) {
    && !api.authorityFree && !other.authorityFree && other.instance && fit.instance
    && Matches(fit.name, other.name) && !Matches(fit.name, api.name)
    && !Matches(config.name, api.name) && !Matches(config.name, other.name)
    && SlotName(fit.name) != SlotName(config.name)
    && SlotName(api.name) != CONFIGURED && SlotName(other.name) != CONFIGURED
    && SlotName(config.name) != CONFIGURED && SlotName(fit.name) != CONFIGURED
    && fit.name != MAIN && config.name != MAIN
    && Required(api) && api.interface != "" && api.interface + CONFIG_SUFFIX == config.interface
    && api.interface != fit.interface && api.interface != config.interface
  }

  lemma UnconfiguredLate(api: Import, other: Import, config: Export, fit: Export)
    requires ApiAndOther(api, other, config, fit)
    ensures var x, y, c := Surface({}, {config}), Surface({}, {fit}), Surface({api, other}, {});
      AtOnce(x, y, c).Some? && InStages(x, y, c) == None
  {
    hide Matches, SlotName, Required, AtOnce, InStages, Composed, Extended;
    var x, y, c := Surface({}, {config}), Surface({}, {fit}), Surface({api, other}, {});
    assert config in x.exports && fit in y.exports;
    assert Matched(y.exports, other) && !Matched(x.exports, other) && !Matched(x.exports, api);
    assert SealedAtOnce(x, y, c, other) && Sealed(y, c, other);
    assert api in StagedImports(y, c) && other !in StagedImports(y, c) && Unconfigured(Offered(x.exports), api);
    GroupingsAre(x, y, c);
  }

  lemma UnconfiguredEarly(api: Import, other: Import, config: Export, fit: Export)
    requires ApiAndOther(api, other, config, fit)
    ensures var x, y, c := Surface({}, {fit}), Surface({}, {config}), Surface({api, other}, {});
      AtOnce(x, y, c).Some? && InStages(x, y, c) == None
  {
    hide Matches, SlotName, Required, AtOnce, InStages, Composed, Extended;
    var x, y, c := Surface({}, {fit}), Surface({}, {config}), Surface({api, other}, {});
    assert fit in x.exports && config in y.exports;
    assert Matched(x.exports, other) && !Matched(y.exports, other) && !Matched(y.exports, api);
    MatchesSlot(fit.name, other.name);
    ElsewhereNotLost(x, y, other, config);
    assert SealedAtOnce(x, y, c, other);
    assert api in c.imports && Unconfigured(Offered(y.exports), api);
    GroupingsAre(x, y, c);
  }

  lemma MatchesSlot(a: string, b: string)
    requires Matches(a, b)
    ensures SlotName(a) == SlotName(b)
  {
  }

  lemma ElsewhereNotLost(x: Surface, y: Surface, i: Import, e: Export)
    requires y.exports == {e} && SlotName(e.name) != SlotName(i.name)
    ensures !Lost(x, y, i)
  {
  }

  /** And one at once only: the base has what the layer imports, and nothing the consumer does. */
  lemma RefusedAtOnceBreaks()
    ensures var x, y, c := Surface({}, {FS_CONFIG, CLOCK}), Surface({TIME}, {}), Surface({FS}, {});
      AtOnce(x, y, c) == None && InStages(x, y, c).Some?
  {
    hide Matches, SlotName, Required, AtOnce, InStages;
    ApiNames();
    UnconfiguredAtOnce(FS, TIME, FS_CONFIG, CLOCK);
  }

  lemma UnconfiguredAtOnce(api: Import, other: Import, config: Export, fit: Export)
    requires ApiAndOther(api, other, config, fit)
    ensures var x, y, c := Surface({}, {config, fit}), Surface({other}, {}), Surface({api}, {});
      AtOnce(x, y, c) == None && InStages(x, y, c).Some?
  {
    hide Matches, SlotName, Required, AtOnce, InStages, Composed, Extended;
    var x, y, c := Surface({}, {config, fit}), Surface({other}, {}), Surface({api}, {});
    assert fit in x.exports && config in x.exports;
    assert !Shadowed(config, y) && config.interface in OfferedBy(x, y);
    assert api in c.imports && Unconfigured(OfferedBy(x, y), api);
    assert other in StagedImports(y, c) && SealedByBase(x, y, c, other);
    GroupingsAre(x, y, c);
  }

  // ----- associativity of `&` -----

  lemma ResidualByImports(p: Surface, a: Surface, b: Surface)
    requires a.imports == b.imports
    ensures Residual(p, a) == Residual(p, b)
  {
    hide Matched, Skipped;
  }

  lemma ExtendShadows(y: Surface, z: Surface, e: Export)
    requires OneRider(y) && OneRider(z) && SlotName(e.name) != CONFIGURED
    ensures Shadowed(e, Extended(y, z)) <==> Shadowed(e, y) || Shadowed(e, z)
  {
    hide SlotName, Extended, OneRider;
    var all := Extended(y, z).exports;
    forall f: Export | SlotName(f.name) == SlotName(e.name)
      ensures f in all <==> f in z.exports || (f in y.exports && !Shadowed(f, z))
    {
      ExtendExports(y, z, f);
    }
    if Shadowed(e, y) {
      var f :| f in y.exports && SlotName(f.name) == SlotName(e.name);
      if Shadowed(f, z) {
        var g :| g in z.exports && SlotName(g.name) == SlotName(f.name);
        assert g in all;
      } else {
        assert f in all;
      }
    }
    if Shadowed(e, z) {
      var g :| g in z.exports && SlotName(g.name) == SlotName(e.name);
      assert g in all;
    }
  }

  /** `(x & y) & z`. */
  ghost function LeftNested(x: Surface, y: Surface, z: Surface): Option<Surface> {
    var e := Extend(x, y);
    if e == None then None else Extend(e.value, z)
  }

  /** `x & (y & z)`. */
  ghost function RightNested(x: Surface, y: Surface, z: Surface): Option<Surface> {
    var e := Extend(y, z);
    if e == None then None else Extend(x, e.value)
  }

  /** Both groupings of `&` are refused alike, always export the same, and are equal exactly
      when what they leave open is what the two sides of the action law do. */
  lemma ExtendAssociativeIff(x: Surface, y: Surface, z: Surface)
    requires OneRider(x) && OneRider(y) && OneRider(z)
    ensures Extended(Extended(x, y), z).exports == Extended(x, Extended(y, z)).exports
    ensures LeftNested(x, y, z) == RightNested(x, y, z)
       <==> (IsProvider(x) && IsProvider(y) && IsProvider(z) ==>
              Composed(Extended(x, y), z).imports == Composed(x, Composed(y, z)).imports)
    ensures NoBindImport(z) ==>
      (LeftNested(x, y, z) == RightNested(x, y, z) <==> (IsProvider(x) && IsProvider(y) && IsProvider(z) ==> NoneDiffers(x, y, z)))
  {
    hide Residual, SlotName, Shadowed, OneRider, Riders, Merge, NoneDiffers, IsProvider;
    var xy, yz := Extended(x, y), Extended(y, z);
    ResidualByImports(x, yz, Composed(y, z));
    forall e
      ensures e in Extended(xy, z).exports <==> e in Extended(x, yz).exports
    {
      SameExport(x, y, z, e);
    }
    if NoBindImport(z) { ImportsAgreeIff(x, y, z); }
    if IsProvider(x) && IsProvider(y) { ExtendProvides(x, y); }
    if IsProvider(y) && IsProvider(z) { ExtendProvides(y, z); }
  }

  lemma SameExport(x: Surface, y: Surface, z: Surface, e: Export)
    requires OneRider(x) && OneRider(y) && OneRider(z)
    ensures e in Extended(Extended(x, y), z).exports <==> e in Extended(x, Extended(y, z)).exports
  {
    hide Extended, SlotName, Shadowed, OneRider, Riders, Merge;
    ExtendRiders(x, y);
    ExtendRiders(y, z);
    MergeAssociative(Riders(x), Riders(y), Riders(z));
    ExtendExports(Extended(x, y), z, e);
    ExtendExports(x, Extended(y, z), e);
    ExtendExports(x, y, e);
    ExtendExports(y, z, e);
    if SlotName(e.name) != CONFIGURED { ExtendShadows(y, z, e); }
  }

  /** `&` is associative when the inner layer covers what it shadows and nothing is skipped. */
  lemma ExtendAssociative(x: Surface, y: Surface, z: Surface)
    requires OneRider(x) && OneRider(y) && OneRider(z) && NoBindImport(z) && PlainWirings(x, y, z) && Covers(x, y)
    ensures LeftNested(x, y, z) == RightNested(x, y, z)
  {
    hide LeftNested, RightNested, Composed, Extended, OneRider, NoBindImport, PlainWirings, Covers, NoneDiffers, Lost;
    ExtendAssociativeIff(x, y, z);
    PlainDiffers(x, y, z);
    forall i | i in z.imports
      ensures !Lost(x, y, i)
    {
      CoversLosesNothing(x, y, i);
    }
  }
}
