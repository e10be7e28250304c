/**
  What is stored where: the records of the format as numbers and bytes at fixed offsets, and
  the order of the names in a directory.
*/
module Layouts {
  import opened Bytes
  import opened Utf8
  import opened Format
  import opened Directory

  /** The number in `width` bytes at `at`, the first byte the least. */
  function NumberAt(s: seq<byte>, at: nat, width: nat): nat
    requires at + width <= |s|
    decreases width
  {
    if width == 0 then 0 else s[at] + 256 * NumberAt(s, at + 1, width - 1)
  }

  lemma {:induction false} NumberIs(s: seq<byte>, at: nat, width: nat)
    requires at + width <= |s|
    ensures LeValue(s[at..at + width]) == NumberAt(s, at, width)
    decreases width
  {
    if width > 0 {
      assert s[at..at + width][1..] == s[at + 1..at + width];
      NumberIs(s, at + 1, width - 1);
    }
  }

  lemma Numbers(s: seq<byte>)
    ensures forall i {:trigger NumberAt(s, i, 2)} :: 0 <= i && i + 2 <= |s| ==> ReadU16(s[i..i + 2]) == NumberAt(s, i, 2)
    ensures forall i {:trigger NumberAt(s, i, 4)} :: 0 <= i && i + 4 <= |s| ==> ReadU32(s[i..i + 4]) == NumberAt(s, i, 4)
    ensures forall i {:trigger NumberAt(s, i, 8)} :: 0 <= i && i + 8 <= |s| ==> ReadU64(s[i..i + 8]) == NumberAt(s, i, 8)
  {
    hide NumberAt, LeValue;
    forall i: nat {:trigger NumberAt(s, i, 2)} | i + 2 <= |s| ensures ReadU16(s[i..i + 2]) == NumberAt(s, i, 2) { NumberIs(s, i, 2); }
    forall i: nat {:trigger NumberAt(s, i, 4)} | i + 4 <= |s| ensures ReadU32(s[i..i + 4]) == NumberAt(s, i, 4) { NumberIs(s, i, 4); }
    forall i: nat {:trigger NumberAt(s, i, 8)} | i + 8 <= |s| ensures ReadU64(s[i..i + 8]) == NumberAt(s, i, 8) { NumberIs(s, i, 8); }
  }

  // ----- block pointers and object references -----

  /** The 56 bytes at `at` are the pointer. */
  ghost predicate PtrAt(s: seq<byte>, at: nat, p: BlockPtr)
    requires at + 56 <= |s|
  {
    && NumberAt(s, at, 8) == p.addr && NumberAt(s, at + 8, 4) == p.lsize && NumberAt(s, at + 12, 4) == p.psize
    && s[at + 16] == (if p.codec == Raw then 0 else 1) && s[at + 24..at + 56] == p.hash
  }

  /** The 72 bytes at `at` are the reference. */
  ghost predicate ObjAt(s: seq<byte>, at: nat, o: ObjRef)
    requires at + 72 <= |s|
  {
    NumberAt(s, at, 8) == o.size && s[at + 8] == o.level && PtrAt(s, at + 16, o.root)
  }

  lemma PtrIff(bytes: seq<byte>, p: BlockPtr)
    requires |bytes| == 56
    ensures BlockPtr.ReadFrom(bytes) == Ok(p) <==> PtrAt(bytes, 0, p)
  {
    hide NumberAt, ReadU32, ReadU64;
    Numbers(bytes);
    assert bytes[0..8] == bytes[0..0 + 8] && bytes[8..12] == bytes[8..8 + 4] && bytes[12..16] == bytes[12..12 + 4];
  }

  lemma {:induction false} NumberWithin(s: seq<byte>, from: nat, at: nat, width: nat, to: nat)
    requires from <= to <= |s| && from + at + width <= to
    ensures NumberAt(s[from..to], at, width) == NumberAt(s, from + at, width)
    decreases width
  {
    if width > 0 { NumberWithin(s, from, at + 1, width - 1, to); }
  }

  lemma PtrWithin(s: seq<byte>, from: nat, p: BlockPtr)
    requires from + 56 <= |s|
    ensures PtrAt(s[from..from + 56], 0, p) <==> PtrAt(s, from, p)
  {
    hide NumberAt;
    NumberWithin(s, from, 0, 8, from + 56);
    NumberWithin(s, from, 8, 4, from + 56);
    NumberWithin(s, from, 12, 4, from + 56);
    assert s[from..from + 56][24..56] == s[from + 24..from + 56];
  }

  /** A reference is read off exactly where its fields lie. */
  lemma ObjIff(s: seq<byte>, at: nat, o: ObjRef)
    requires at + 72 <= |s|
    ensures ObjRef.ReadFrom(s[at..at + 72]) == Ok(o) <==> ObjAt(s, at, o)
  {
    hide NumberAt, ReadU64, BlockPtr.ReadFrom, PtrAt;
    var bytes := s[at..at + 72];
    assert bytes[16..72] == s[at + 16..at + 16 + 56];
    PtrIff(bytes[16..72], o.root);
    PtrWithin(s, at + 16, o.root);
    Numbers(s);
    assert bytes[0..8] == s[at..at + 8];
  }

  // ----- uberblock slots -----

  /** The slot's fields are the uberblock's, under the magic and version 1. */
  ghost predicate UberAt(s: seq<byte>, u: Uberblock)
    requires |s| >= 224
  {
    && s[0..8] == [0x45, 0x4F, 0x46, 0x53, 0x2D, 0x55, 0x42, 0] && NumberAt(s, 8, 4) == 1
    && NumberAt(s, 12, 4) == u.blockSize && NumberAt(s, 16, 4) == u.allocUnit && s[20] == (if u.codec == Raw then 0 else 1)
    && NumberAt(s, 24, 8) == u.txg && NumberAt(s, 32, 8) == u.frontier && NumberAt(s, 40, 8) == u.deviceSize
    && ObjAt(s, 48, u.liveRoot) && ObjAt(s, 120, u.snapshots)
  }

  /** A slot is a valid uberblock exactly when its fields say so and the digest of its first 192
      bytes follows them. */
  lemma SlotIff(p: Primitives, slot: seq<byte>, u: Uberblock)
    requires |slot| >= 224
    ensures Uberblock.ClassifySlot(p, slot) == Ok(Valid(u)) <==> UberAt(slot, u) && p.blake3(slot[0..192]) == slot[192..224]
  {
    hide Uberblock.Parse, UberAt;
    ParseIff(slot, u);
  }

  lemma ParseIff(slot: seq<byte>, u: Uberblock)
    requires |slot| >= 224
    ensures slot[0..8] == MAGIC && Uberblock.Parse(slot) == Ok(u) <==> UberAt(slot, u)
  {
    hide NumberAt, ReadU32, ReadU64, ObjRef.ReadFrom, ObjAt;
    Numbers(slot);
    ObjIff(slot, 48, u.liveRoot);
    ObjIff(slot, 120, u.snapshots);
    FieldsOf(slot);
  }

  lemma FieldsOf(s: seq<byte>)
    requires |s| >= 224
    ensures s[8..12] == s[8..8 + 4] && s[12..16] == s[12..12 + 4] && s[16..20] == s[16..16 + 4]
    ensures s[24..32] == s[24..24 + 8] && s[32..40] == s[32..32 + 8] && s[40..48] == s[40..40 + 8]
    ensures s[48..120] == s[48..48 + 72] && s[120..192] == s[120..120 + 72]
  {
  }

  /** What a commit writes: 4096 bytes, with the fields where they belong, the digest of the
      first 192, and nothing else but zeros. */
  lemma SlotWritten(p: Primitives, u: Uberblock)
    ensures var s := u.SlotBytes(p);
      && |s| == 4096 && UberAt(s, u) && p.blake3(s[0..192]) == s[192..224]
      && (forall i :: 224 <= i < 4096 ==> s[i] == 0) && s[21..24] == [0, 0, 0]
  {
    hide Uberblock.Body, Uberblock.ClassifySlot, UberAt;
    SlotRoundTrip(p, u);
    SlotIff(p, u.SlotBytes(p), u);
    var s := u.SlotBytes(p);
    assert s[21..24] == u.Body()[21..24];
    BodyGap(u);
  }

  lemma BodyGap(u: Uberblock)
    ensures u.Body()[21..24] == [0, 0, 0]
  {
    hide Uberblock.Identity, Uberblock.Counters, ObjRef.Encoded;
  }

  // ----- directory entries -----

  /** The record of an entry: the length of its name, its kind, its object, and its name. */
  ghost predicate EntryAt(s: seq<byte>, e: DirEntry)
    requires |s| >= 76
  {
    && NumberAt(s, 0, 2) == |e.name| <= 255 && 76 + |e.name| <= |s|
    && s[2] == (if e.kind == File then 1 else 2) && ObjAt(s, 4, e.obj) && s[76..76 + |e.name|] == e.name && IsUtf8(e.name)
  }

  lemma EntryIff(s: seq<byte>, e: DirEntry, n: nat)
    ensures ParseEntry(s) == Ok((e, n)) <==> |s| >= 76 && EntryAt(s, e) && n == 76 + |e.name|
  {
    hide NumberAt, ReadU16, ObjRef.ReadFrom, ObjAt, IsUtf8;
    if |s| >= 76 {
      Numbers(s);
      ObjIff(s, 4, e.obj);
      assert s[0..2] == s[0..0 + 2] && s[4..76] == s[4..4 + 72];
    }
  }

  /** The record of a snapshot: its transaction, the length of its name, its root, and its name. */
  ghost predicate SnapAt(s: seq<byte>, e: SnapEntry)
    requires |s| >= 88
  {
    && NumberAt(s, 0, 8) == e.txg && NumberAt(s, 8, 2) == |e.name| <= 255 && 88 + |e.name| <= |s|
    && ObjAt(s, 16, e.root) && s[88..88 + |e.name|] == e.name && IsUtf8(e.name)
  }

  lemma SnapIff(s: seq<byte>, e: SnapEntry, n: nat)
    ensures ParseSnap(s) == Ok((e, n)) <==> |s| >= 88 && SnapAt(s, e) && n == 88 + |e.name|
  {
    hide NumberAt, ReadU16, ReadU64, ObjRef.ReadFrom, ObjAt, IsUtf8;
    if |s| >= 88 {
      Numbers(s);
      ObjIff(s, 16, e.root);
      assert s[0..8] == s[0..0 + 8] && s[8..10] == s[8..8 + 2] && s[16..88] == s[16..16 + 72];
    }
  }

  // ----- the order of names -----

  /** A name comes before what it begins, and before what has a greater byte where the two first
      differ. */
  ghost predicate NotAfter(a: seq<byte>, b: seq<byte>) {
    a <= b || exists i :: 0 <= i < |a| && i < |b| && FirstLess(a, b, i)
  }

  ghost predicate FirstLess(a: seq<byte>, b: seq<byte>, i: nat)
    requires i < |a| && i < |b|
  {
    a[..i] == b[..i] && a[i] < b[i]
  }

  lemma {:induction false} LeqIff(a: seq<byte>, b: seq<byte>)
    ensures Leq(a, b) <==> NotAfter(a, b)
    decreases |a|
  {
    if a != [] && b != [] && a[0] == b[0] {
      LeqIff(a[1..], b[1..]);
      assert a == [a[0]] + a[1..] && b == [b[0]] + b[1..];
      if NotAfter(a[1..], b[1..]) && !(a[1..] <= b[1..]) {
        var i :| 0 <= i < |a| - 1 && i < |b| - 1 && FirstLess(a[1..], b[1..], i);
        assert a[..i + 1] == [a[0]] + a[1..][..i] && b[..i + 1] == [b[0]] + b[1..][..i];
        assert FirstLess(a, b, i + 1);
      }
      if NotAfter(a, b) && !(a <= b) {
        var i :| 0 <= i < |a| && i < |b| && FirstLess(a, b, i);
        assert a[1..][..i - 1] == a[..i][1..] && b[1..][..i - 1] == b[..i][1..];
        assert FirstLess(a[1..], b[1..], i - 1);
      }
    } else if a != [] && b != [] && a[0] < b[0] {
      assert FirstLess(a, b, 0);
    } else if a != [] && b != [] {
      forall i | 0 <= i < |a| && i < |b|
        ensures !FirstLess(a, b, i)
      {
        if i > 0 { assert a[..i][0] == a[0] && b[..i][0] == b[0]; }
      }
    }
  }

  /** A stored directory: the records of its entries, each after the last, in the order of their
      names. */
  lemma DirStored(es: seq<DirEntry>)
    requires forall i :: 0 <= i < |es| ==> |es[i].name| <= 255 && IsUtf8(es[i].name)
    ensures exists sorted: seq<DirEntry> ::
      && multiset(sorted) == multiset(es) && ParsedDir(DirBytes(es)) == Ok(sorted)
      && forall i, j {:trigger sorted[i], sorted[j]} :: 0 <= i < j < |sorted| ==> NotAfter(sorted[i].name, sorted[j].name)
  {
    hide Leq, IsUtf8, NotAfter, ParsedDir, DirBytes;
    DirRoundTrip(es);
    var sorted := SortByName(es);
    forall i, j | 0 <= i < j < |sorted|
      ensures NotAfter(sorted[i].name, sorted[j].name)
    {
      LeqIff(sorted[i].name, sorted[j].name);
    }
  }
}
