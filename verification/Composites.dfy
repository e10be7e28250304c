/**
  What `$` and `&` leave open, export and refuse, name by name: in terms of what the operands
  import and export alone.
*/
module Composites {
  import opened Bytes
  import opened Semver
  import opened Algebra

  /** The interface belongs to the package: it is the package itself, or a member of it. */
  predicate MemberOf(interface: string, package: string) {
    interface == package || package + "/" <= interface
  }

  /** Two interfaces of one package, which is what precedes the first slash. */
  ghost predicate SamePackage(a: string, b: string) {
    exists package :: '/' !in package && MemberOf(a, package) && MemberOf(b, package)
  }

  lemma PackageIs(interface: string, package: string)
    requires '/' !in package
    ensures PackageOf(interface) == package <==> MemberOf(interface, package)
  {
    var before := PackageOf(interface);
    if before == package && |before| < |interface| {
      assert interface[..|package| + 1] == package + "/";
    }
    if interface == package {
      BeforeAll(package, '/');
    } else if package + "/" <= interface {
      var rest := interface[|package| + 1..];
      assert interface == package + ['/'] + rest;
      BeforeFirst(package, '/', rest);
    }
  }

  lemma SamePackageIs(a: string, b: string)
    ensures SamePackage(a, b) <==> PackageOf(a) == PackageOf(b)
  {
    if PackageOf(a) == PackageOf(b) {
      PackageIs(a, PackageOf(a));
      PackageIs(b, PackageOf(a));
      assert MemberOf(a, PackageOf(a)) && MemberOf(b, PackageOf(a));
    }
    if SamePackage(a, b) {
      var package :| '/' !in package && MemberOf(a, package) && MemberOf(b, package);
      PackageIs(a, package);
      PackageIs(b, package);
    }
  }

  /** Some export can stand in for the import. */
  ghost predicate Offers(s: Surface, i: Import) {
    i.instance && exists e :: e in s.exports && e.instance && Matches(e.name, i.name)
  }

  /** The authority import `o` of the consumer is of the same package as `i`, and the provider
      does not export its interface. */
  ghost predicate Withheld(p: Surface, c: Surface, i: Import, o: Import) {
    && o in c.imports && !o.authorityFree && SamePackage(o.interface, i.interface)
    && forall e :: e in p.exports ==> e.interface != o.interface
  }

  ghost predicate StaysOpen(p: Surface, c: Surface, i: Import) {
    i in p.imports || !Offers(p, i) || (i.authorityFree && i.interface != "" && exists o :: Withheld(p, c, i, o))
  }

  lemma SealedIff(p: Surface, c: Surface, i: Import)
    ensures Sealed(p, c, i)
       <==> Offers(p, i) && !(i.authorityFree && i.interface != "" && exists o :: Withheld(p, c, i, o))
  {
    hide Matches, PackageOf, SamePackage;
    forall o: Import
      ensures Withheld(p, c, i, o) <==>
        o in c.imports && !o.authorityFree && PackageOf(o.interface) == PackageOf(i.interface) && o.interface !in Offered(p.exports)
    {
      SamePackageIs(o.interface, i.interface);
    }
  }

  /** What the consumer imports is open after `$` exactly when the provider imports it too, or
      has nothing to stand in for it, or it is types-only and an authority interface of its
      package that the consumer imports is not exported by the provider. */
  lemma OpenIff(p: Surface, c: Surface, i: Import)
    requires i in c.imports
    ensures Compose(p, c).Some? ==> (i in Compose(p, c).value.imports <==> StaysOpen(p, c, i))
    ensures Extend(p, c).Some? ==> (i in Extend(p, c).value.imports <==> StaysOpen(p, c, i))
  {
    hide Sealed, Withheld, Offers, Refused, IsProvider;
    SealedIff(p, c, i);
  }

  /** And nothing is open that neither operand imports. */
  lemma OpenFrom(p: Surface, c: Surface, i: Import)
    ensures Compose(p, c).Some? ==> (i in Compose(p, c).value.imports ==> i in p.imports || i in c.imports)
    ensures Compose(p, c).Some? ==> (i in p.imports ==> i in Compose(p, c).value.imports)
    ensures Extend(p, c).Some? ==> (i in Extend(p, c).value.imports ==> i in p.imports || i in c.imports)
    ensures Extend(p, c).Some? ==> (i in p.imports ==> i in Extend(p, c).value.imports)
  {
    hide Sealed, Refused, IsProvider;
  }

  /** The types of a package: they stay open exactly when some authority interface of just that
      package is imported and not exported. */
  lemma TypesOpenIff(p: Surface, c: Surface, i: Import, package: string, n: string)
    requires '/' !in package && i.interface == package + "/" + n
    requires i in c.imports && i !in p.imports && i.authorityFree && Offers(p, i)
    ensures var withheld := exists o :: o in c.imports && !o.authorityFree && MemberOf(o.interface, package)
                                       && forall e :: e in p.exports ==> e.interface != o.interface;
      && (Compose(p, c).Some? ==> (i in Compose(p, c).value.imports <==> withheld))
      && (Extend(p, c).Some? ==> (i in Extend(p, c).value.imports <==> withheld))
  {
    hide Compose, Extend, Offers, SamePackage, MemberOf;
    OpenIff(p, c, i);
    MemberIs(i.interface, package, n);
    PackageIs(i.interface, package);
    forall o: Import
      ensures Withheld(p, c, i, o) <==>
        o in c.imports && !o.authorityFree && MemberOf(o.interface, package) && forall e :: e in p.exports ==> e.interface != o.interface
    {
      SamePackageIs(o.interface, i.interface);
      PackageIs(o.interface, package);
    }
    assert i.interface != "";
    hide Withheld;
  }

  lemma MemberIs(interface: string, package: string, n: string)
    requires interface == package + "/" + n
    ensures MemberOf(interface, package)
  {
    assert package + "/" <= interface;
  }

  /** Imports of other packages make no difference to it. */
  lemma OthersDoNotMatter(p: Surface, c: Surface, more: set<Import>, i: Import)
    requires i in c.imports && forall o :: o in more ==> !SamePackage(o.interface, i.interface)
    ensures var wider := Surface(c.imports + more, c.exports);
      && (Compose(p, c).Some? && Compose(p, wider).Some? ==>
           (i in Compose(p, c).value.imports <==> i in Compose(p, wider).value.imports))
      && (Extend(p, c).Some? && Extend(p, wider).Some? ==>
           (i in Extend(p, c).value.imports <==> i in Extend(p, wider).value.imports))
  {
    hide Compose, Extend, Offers, SamePackage;
    var wider := Surface(c.imports + more, c.exports);
    OpenIff(p, c, i);
    OpenIff(p, wider, i);
    forall o: Import
      ensures Withheld(p, c, i, o) <==> Withheld(p, wider, i, o)
    {
    }
  }

  /** `$` is refused exactly when the provider is a binary, or when nothing the consumer imports
      is sealed and some import that is not optional has its configuring interface exported
      and its own interface not. */
  lemma RefusedIff(p: Surface, c: Surface)
    ensures Compose(p, c) == None
       <==> || (exists e :: e in p.exports && e.name == "main")
            || (&& (forall i :: i in c.imports && Offers(p, i) ==>
                      i.authorityFree && i.interface != "" && exists o :: Withheld(p, c, i, o))
                && exists i, e :: i in c.imports && e in p.exports && i.interface != "" && e.interface == i.interface + "-config"
                     && !Optional(i.interface) && forall f :: f in p.exports ==> f.interface != i.interface)
  {
    hide Sealed, Withheld, Offers;
    forall i | i in c.imports
      ensures Sealed(p, c, i) <==> Offers(p, i) && !(i.authorityFree && i.interface != "" && exists o :: Withheld(p, c, i, o))
    {
      SealedIff(p, c, i);
    }
    forall i: Import
      ensures Unconfigured(Offered(p.exports), i) <==>
        i.interface != "" && !Optional(i.interface) && (exists e :: e in p.exports && e.interface == i.interface + "-config")
        && forall f :: f in p.exports ==> f.interface != i.interface
    {
      OptionalIs(i.interface);
    }
  }

  /** The name of an optional flavour. */
  ghost predicate Optional(interface: string) {
    exists base: string :: interface == base + "-optional"
  }

  lemma OptionalIs(interface: string)
    ensures Optional(interface) <==> EndsWith(interface, "-optional")
  {
    if EndsWith(interface, "-optional") {
      assert interface == interface[..|interface| - 9] + "-optional";
    }
  }

  // ----- what is exported -----

  /** The name is of the slot: it is the slot itself, or the slot with a version. */
  predicate InSlot(name: string, slot: string) {
    name == slot || slot + "@" <= name
  }

  lemma SlotIs(name: string, slot: string)
    requires '@' !in slot
    ensures SlotName(name) == slot <==> InSlot(name, slot)
  {
    var before := SlotName(name);
    if before == slot && |before| < |name| {
      assert name[..|slot| + 1] == slot + "@";
    }
    if name == slot {
      BeforeAll(slot, '@');
    } else if slot + "@" <= name {
      var rest := name[|slot| + 1..];
      assert name == slot + ['@'] + rest;
      BeforeFirst(slot, '@', rest);
    }
  }

  /** Two names of one slot. */
  ghost predicate SameSlot(a: string, b: string) {
    exists slot :: '@' !in slot && InSlot(a, slot) && InSlot(b, slot)
  }

  lemma SameSlotIs(a: string, b: string)
    ensures SameSlot(a, b) <==> SlotName(a) == SlotName(b)
  {
    if SlotName(a) == SlotName(b) {
      SlotIs(a, SlotName(a));
      SlotIs(b, SlotName(a));
      assert InSlot(a, SlotName(a)) && InSlot(b, SlotName(a));
    }
    if SameSlot(a, b) {
      var slot :| '@' !in slot && InSlot(a, slot) && InSlot(b, slot);
      SlotIs(a, slot);
      SlotIs(b, slot);
    }
  }

  /** A bind entrypoint, of any version. */
  predicate IsBind(e: Export) {
    e.instance && InSlot(e.name, "eo9:rt/configured")
  }

  ghost predicate Binds(s: Surface) {
    exists e :: e in s.exports && IsBind(e)
  }

  lemma BindsAre(s: Surface)
    ensures forall e :: IsRider(e) <==> IsBind(e)
    ensures Binds(s) <==> HasRider(s)
    ensures forall e: Export :: SlotName(e.name) == CONFIGURED <==> InSlot(e.name, "eo9:rt/configured")
  {
    assert '@' !in CONFIGURED;
    forall e: Export
      ensures SlotName(e.name) == CONFIGURED <==> InSlot(e.name, "eo9:rt/configured")
    {
      SlotIs(e.name, CONFIGURED);
    }
  }

  /** `$` exports what the consumer does, and the provider's bind entrypoint. Where both have
      one, a merged entrypoint of version 0.1.0 stands for both. */
  lemma ComposeExportsIff(p: Surface, c: Surface, e: Export)
    requires Compose(p, c).Some?
    ensures e in Compose(p, c).value.exports <==>
      if Binds(p) && Binds(c) then
        (e in c.exports && !InSlot(e.name, "eo9:rt/configured")) || e == Export("eo9:rt/configured@0.1.0", true, "eo9:rt/configured")
      else e in c.exports || (e in p.exports && IsBind(e))
  {
    hide Refused, IsProvider, Residual, InSlot, SlotName, IsRider, IsBind, HasRider, Binds;
    BindsAre(p);
    BindsAre(c);
  }

  /** `&` exports what the layer does, and what the base does in slots where the layer exports
      nothing. Where both have a bind entrypoint, the merged one stands for both. */
  lemma ExtendExportsIff(x: Surface, y: Surface, e: Export)
    requires Extend(x, y).Some?
    ensures var kept := e in x.exports && forall f :: f in y.exports ==> !SameSlot(f.name, e.name);
      e in Extend(x, y).value.exports <==>
      if Binds(x) && Binds(y) then
        || (e in y.exports && !InSlot(e.name, "eo9:rt/configured")) || kept
        || e == Export("eo9:rt/configured@0.1.0", true, "eo9:rt/configured")
      else e in y.exports || kept
  {
    hide Refused, IsProvider, Residual, InSlot, SlotName, IsRider, IsBind, HasRider, Binds, SameSlot;
    BindsAre(x);
    BindsAre(y);
    forall f: Export
      ensures SameSlot(f.name, e.name) <==> SlotName(f.name) == SlotName(e.name)
    {
      SameSlotIs(f.name, e.name);
    }
  }

  /** `&` is refused exactly when either operand is a binary. */
  lemma ExtendRefusedIff(x: Surface, y: Surface)
    ensures Extend(x, y) == None <==> exists e :: (e in x.exports || e in y.exports) && e.name == "main"
  {
  }
}
