/**
  Link-time version satisfaction, and slot names: which export can stand in for which import.
*/
module Semver {
  import opened Bytes

  datatype Version = Version(major: nat, minor: nat, patch: nat, suffix: string)

  // ----- parsing -----

  predicate IsDigit(c: char) {
    '0' <= c <= '9'
  }

  /** A decimal number of at least one digit that fits 64 bits. */
  function ParseU64(s: string): Option<nat> {
    if s == [] then None else ParseDigits(s, 0)
  }

  function ParseDigits(s: string, n: nat): Option<nat> {
    if s == [] then Some(n)
    else if !IsDigit(s[0]) then None
    else
      var next := n * 10 + (s[0] as nat - '0' as nat);
      if next > U64_MAX then None else ParseDigits(s[1..], next)
  }

  /** The text up to a character, and what follows it if it is there. */
  function Before(s: string, c: char): (r: string)
    ensures |r| <= |s| && c !in r && (|r| < |s| ==> s[|r|] == c) && r == s[..|r|]
  {
    if s == [] || s[0] == c then [] else [s[0]] + Before(s[1..], c)
  }

  /** The pieces between dots. */
  function SplitDots(s: string): (parts: seq<string>)
    ensures |parts| > 0
    decreases |s|
  {
    var first := Before(s, '.');
    if |first| == |s| then [s] else [first] + SplitDots(s[|first| + 1..])
  }

  /** The numeric part, before any pre-release or build tag. */
  function Numeric(s: string): string {
    Before(Before(s, '-'), '+')
  }

  function Parse(s: string): Option<Version> {
    var numeric := Numeric(s);
    var parts := SplitDots(numeric);
    if |parts| != 3 then None
    else
      var major, minor, patch := ParseU64(parts[0]), ParseU64(parts[1]), ParseU64(parts[2]);
      if major == None || minor == None || patch == None then None
      else Some(Version(major.value, minor.value, patch.value, s[|numeric|..]))
  }

  // ----- satisfaction -----

  /** Same compatibility track, and not older. */
  predicate Newer(p: Version, r: Version) {
    && p.suffix == "" && r.suffix == ""
    && p.major == r.major
    && if p.major > 0 then p.minor > r.minor || (p.minor == r.minor && p.patch >= r.patch)
       else r.minor > 0 && p.minor == r.minor && p.patch >= r.patch
  }

  /** An export at version `provided` satisfies an import pinned to `required`. */
  predicate Satisfies(provided: string, required: string) {
    if required == "" || provided == required then true
    else if provided == "" then false
    else
      var p, r := Parse(provided), Parse(required);
      p != None && r != None && Newer(p.value, r.value)
  }

  lemma SatisfiesSelf(v: string)
    ensures Satisfies(v, v)
  {
  }

  /** Satisfaction is a preorder. */
  lemma SatisfiesTransitive(a: string, b: string, c: string)
    requires Satisfies(a, b) && Satisfies(b, c)
    ensures Satisfies(a, c)
  {
    hide Parse;
  }

  /** Mutual satisfaction of tracked versions is equality of their numbers. */
  lemma SatisfiesAntisymmetric(a: string, b: string)
    requires Satisfies(a, b) && Satisfies(b, a) && a != b
    ensures Parse(a) != None && Parse(a) == Parse(b)
  {
    hide Parse;
  }

  // ----- slots -----

  /** The versionless slot name, and the version text. */
  function SlotName(extern: string): string {
    Before(extern, '@')
  }

  function SlotVersion(extern: string): string {
    var slot := SlotName(extern);
    if |slot| == |extern| then "" else extern[|slot| + 1..]
  }

  predicate Matches(exportName: string, importName: string) {
    SlotName(exportName) == SlotName(importName) && Satisfies(SlotVersion(exportName), SlotVersion(importName))
  }

  lemma MatchesSelf(name: string)
    ensures Matches(name, name)
  {
    SatisfiesSelf(SlotVersion(name));
  }

  lemma MatchesTransitive(a: string, b: string, c: string)
    requires Matches(a, b) && Matches(b, c)
    ensures Matches(a, c)
  {
    hide Satisfies;
    SatisfiesTransitive(SlotVersion(a), SlotVersion(b), SlotVersion(c));
  }

  /** Without a version an export satisfies only a requirement without one. */
  lemma UnversionedProvides(required: string)
    ensures Satisfies("", required) <==> required == ""
  {
  }

  /** So an unversioned export stands in for nothing but the import of its own name. */
  lemma UnversionedMatches(name: string, importName: string)
    requires '@' !in name
    ensures Matches(name, importName) <==> importName == name || importName == name + "@"
  {
    BeforeAll(name, '@');
    UnversionedProvides(SlotVersion(importName));
    BeforeFirst(name, '@', "");
    assert name + ['@'] + "" == name + "@";
    if Matches(name, importName) && |importName| > |name| {
      assert importName[|name| + 1..] == "";
      assert importName == importName[..|name|] + "@";
    }
  }

  // ----- rendered versions -----

  function Digit(d: nat): char
    requires d < 10
  {
    '0' + (d as char)
  }

  function Decimal(n: nat): (s: string)
    ensures s != [] && forall i :: 0 <= i < |s| ==> IsDigit(s[i])
  {
    if n < 10 then [Digit(n)] else Decimal(n / 10) + [Digit(n % 10)]
  }

  lemma {:induction false} DigitsJoin(a: string, c: char, n: nat)
    ensures ParseDigits(a + [c], n) == (if ParseDigits(a, n) == None then None else ParseDigits([c], ParseDigits(a, n).value))
    decreases |a|
  {
    if a == [] {
      assert a + [c] == [c];
    } else {
      assert (a + [c])[0] == a[0] && (a + [c])[1..] == a[1..] + [c];
      if IsDigit(a[0]) { DigitsJoin(a[1..], c, n * 10 + (a[0] as nat - '0' as nat)); }
    }
  }

  lemma DigitReads(d: nat, n: nat)
    requires d < 10 && n * 10 + d <= U64_MAX
    ensures ParseDigits([Digit(d)], n) == Some(n * 10 + d)
  {
    assert [Digit(d)][1..] == [];
  }

  lemma {:induction false} DecimalReads(n: nat)
    requires n <= U64_MAX
    ensures ParseU64(Decimal(n)) == Some(n)
    decreases n
  {
    DigitReads(n % 10, n / 10);
    if n >= 10 {
      DecimalReads(n / 10);
      DigitsJoin(Decimal(n / 10), Digit(n % 10), 0);
    }
  }

  function Render(v: Version): string {
    Decimal(v.major) + "." + Decimal(v.minor) + "." + Decimal(v.patch)
  }

  lemma {:induction false} BeforeAll(s: string, c: char)
    requires c !in s
    ensures Before(s, c) == s
    decreases |s|
  {
    if s != [] { BeforeAll(s[1..], c); }
  }

  lemma {:induction false} BeforeFirst(s: string, c: char, rest: string)
    requires c !in s
    ensures Before(s + [c] + rest, c) == s
    decreases |s|
  {
    if s == [] {
      assert s + [c] + rest == [c] + rest;
    } else {
      assert (s + [c] + rest)[0] == s[0] && (s + [c] + rest)[1..] == s[1..] + [c] + rest;
      BeforeFirst(s[1..], c, rest);
    }
  }

  /** A plain version's text parses as that version. */
  lemma RenderReads(v: Version)
    requires v.major <= U64_MAX && v.minor <= U64_MAX && v.patch <= U64_MAX && v.suffix == ""
    ensures Parse(Render(v)) == Some(v)
  {
    hide Decimal, ParseU64;
    var a, b, c := Decimal(v.major), Decimal(v.minor), Decimal(v.patch);
    PlainNumeric(a, b, c);
    PlainParts(a, b, c);
    DecimalReads(v.major);
    DecimalReads(v.minor);
    DecimalReads(v.patch);
    assert Render(v)[|Render(v)|..] == "";
  }

  predicate Digits(s: string) {
    forall i :: 0 <= i < |s| ==> IsDigit(s[i])
  }

  lemma PlainNumeric(a: string, b: string, c: string)
    requires Digits(a) && Digits(b) && Digits(c)
    ensures Numeric(a + "." + b + "." + c) == a + "." + b + "." + c
  {
    var s := a + "." + b + "." + c;
    assert forall i :: 0 <= i < |s| ==> IsDigit(s[i]) || s[i] == '.';
    BeforeAll(s, '-');
    BeforeAll(s, '+');
  }

  lemma PlainParts(a: string, b: string, c: string)
    requires Digits(a) && Digits(b) && Digits(c)
    ensures SplitDots(a + "." + b + "." + c) == [a, b, c]
  {
    var s, t := a + "." + b + "." + c, b + ['.'] + c;
    assert s == a + ['.'] + t;
    BeforeFirst(a, '.', t);
    BeforeFirst(b, '.', c);
    BeforeAll(c, '.');
    assert s[|a| + 1..] == t && t[|b| + 1..] == c;
    assert SplitDots(c) == [c];
    assert SplitDots(t) == [b] + [c];
    assert SplitDots(s) == [a] + ([b] + [c]);
  }

  /** Not older: by major, then minor, then patch number. */
  predicate AtLeast(p: Version, r: Version) {
    p.major > r.major || (p.major == r.major && (p.minor > r.minor || (p.minor == r.minor && p.patch >= r.patch)))
  }

  /** Of the same line: the first number that is not zero has not changed, nor any before it. */
  predicate SameLine(p: Version, r: Version) {
    if r.major != 0 then p.major == r.major
    else if r.minor != 0 then p.major == 0 && p.minor == r.minor
    else p.major == 0 && p.minor == 0 && p.patch == r.patch
  }

  /** On plain versions satisfaction is the semver rule, both ways. */
  lemma SatisfiesIff(p: Version, r: Version)
    requires p.major <= U64_MAX && p.minor <= U64_MAX && p.patch <= U64_MAX && p.suffix == ""
    requires r.major <= U64_MAX && r.minor <= U64_MAX && r.patch <= U64_MAX && r.suffix == ""
    ensures Satisfies(Render(p), Render(r)) <==> AtLeast(p, r) && SameLine(p, r)
  {
    hide Parse, Render;
    RenderReads(p);
    RenderReads(r);
    assert Render(p) != "" && Render(r) != "" by { RenderSome(p); RenderSome(r); }
  }

  lemma RenderSome(v: Version)
    ensures Render(v) != ""
  {
  }

  /** A pre-release or build tag. */
  predicate IsTag(tag: string) {
    tag != "" && (tag[0] == '-' || tag[0] == '+')
  }

  lemma TaggedReads(v: Version, tag: string)
    requires v.major <= U64_MAX && v.minor <= U64_MAX && v.patch <= U64_MAX && v.suffix == "" && IsTag(tag)
    ensures Parse(Render(v) + tag) == Some(v.(suffix := tag))
  {
    hide Decimal, ParseU64;
    var a, b, c := Decimal(v.major), Decimal(v.minor), Decimal(v.patch);
    RenderReads(v);
    PlainNumeric(a, b, c);
    TaggedNumeric(Render(v), tag);
    PlainParts(a, b, c);
    DecimalReads(v.major);
    DecimalReads(v.minor);
    DecimalReads(v.patch);
  }

  lemma TaggedNumeric(plain: string, tag: string)
    requires IsTag(tag) && '-' !in plain && '+' !in plain
    ensures Numeric(plain + tag) == plain && (plain + tag)[|plain|..] == tag
  {
    BeforeAll(plain, '+');
    if tag[0] == '-' {
      assert plain + tag == plain + ['-'] + tag[1..];
      BeforeFirst(plain, '-', tag[1..]);
    } else {
      var front := Before(plain + tag, '-');
      assert forall i :: 0 <= i <= |plain| ==> (plain + tag)[i] != '-';
      assert front == plain + ['+'] + front[|plain| + 1..];
      BeforeFirst(plain, '+', front[|plain| + 1..]);
    }
  }

  /** A version with a pre-release or build tag satisfies, and is satisfied by, itself alone. */
  lemma TaggedOnlyItself(v: Version, tag: string, other: string)
    requires v.major <= U64_MAX && v.minor <= U64_MAX && v.patch <= U64_MAX && v.suffix == "" && IsTag(tag)
    ensures other != "" ==> (Satisfies(Render(v) + tag, other) <==> other == Render(v) + tag)
    ensures Satisfies(other, Render(v) + tag) <==> other == Render(v) + tag
  {
    hide Parse, Render;
    TaggedReads(v, tag);
    assert Render(v) + tag != "";
  }

  predicate IsVersion(s: string, a: string, b: string, c: string, tag: string) {
    && s == a + "." + b + "." + c + tag && (tag == "" || IsTag(tag))
    && a != "" && b != "" && c != "" && Digits(a) && Digits(b) && Digits(c)
  }

  /** What is read as a version has three decimal numbers, and a tag or nothing behind them. */
  lemma VersionShape(s: string)
    requires Parse(s) != None
    ensures exists a, b, c, tag :: IsVersion(s, a, b, c, tag)
  {
    hide ParseU64, SplitDots;
    var numeric := Numeric(s);
    var parts := SplitDots(numeric);
    DotsJoin(numeric);
    DigitsOnly(parts[0]);
    DigitsOnly(parts[1]);
    DigitsOnly(parts[2]);
    assert JoinDots(parts) == parts[0] + "." + parts[1] + "." + parts[2] by { ThreeParts(parts); }
    var tag := s[|numeric|..];
    NumericFront(s);
    assert s == numeric + tag;
    assert IsVersion(s, parts[0], parts[1], parts[2], tag);
  }

  lemma NumericFront(s: string)
    ensures var numeric := Numeric(s);
      |numeric| <= |s| && s[..|numeric|] == numeric && (|numeric| < |s| ==> IsTag(s[|numeric|..]))
  {
  }

  function JoinDots(parts: seq<string>): string
    requires |parts| > 0
  {
    if |parts| == 1 then parts[0] else parts[0] + "." + JoinDots(parts[1..])
  }

  lemma ThreeParts(parts: seq<string>)
    requires |parts| == 3
    ensures JoinDots(parts) == parts[0] + "." + parts[1] + "." + parts[2]
  {
    assert parts[1..][1..] == [parts[2]];
    assert JoinDots(parts[1..]) == parts[1] + "." + parts[2];
  }

  lemma {:induction false} DotsJoin(s: string)
    ensures JoinDots(SplitDots(s)) == s
    decreases |s|
  {
    var first := Before(s, '.');
    if |first| < |s| {
      DotsJoin(s[|first| + 1..]);
      assert SplitDots(s)[1..] == SplitDots(s[|first| + 1..]);
      assert s == first + "." + s[|first| + 1..];
    }
  }

  lemma DigitsOnly(s: string)
    requires ParseU64(s) != None
    ensures s != "" && Digits(s)
  {
    DigitsFrom(s, 0);
  }

  lemma {:induction false} DigitsFrom(s: string, n: nat)
    requires ParseDigits(s, n) != None
    ensures Digits(s)
    decreases |s|
  {
    if s != [] {
      DigitsFrom(s[1..], n * 10 + (s[0] as nat - '0' as nat));
      assert forall i :: 1 <= i < |s| ==> s[i] == s[1..][i - 1];
    }
  }

  /** With versions, or without one on the import, the names are of one slot and the versions
      decide. */
  lemma MatchesNamed(a: string, provided: string, b: string, required: string)
    requires '@' !in a && '@' !in b
    ensures Matches(a + "@" + provided, b + "@" + required) <==> a == b && Satisfies(provided, required)
    ensures Matches(a + "@" + provided, b) <==> a == b
  {
    hide Satisfies;
    NamedSlot(a, provided);
    NamedSlot(b, required);
    BeforeAll(b, '@');
    assert Satisfies(provided, "") by { SatisfiesNothing(provided); }
  }

  lemma NamedSlot(slot: string, version: string)
    requires '@' !in slot
    ensures SlotName(slot + "@" + version) == slot && SlotVersion(slot + "@" + version) == version
  {
    assert slot + "@" + version == slot + ['@'] + version;
    BeforeFirst(slot, '@', version);
  }

  lemma SatisfiesNothing(provided: string)
    ensures Satisfies(provided, "")
  {
  }
}
