/**
  Directories and the snapshot table as byte strings: the encoding of a directory depends
  only on its set of entries, and both encodings are read back without loss.
*/
module Directory {
  import opened Bytes
  import opened Format
  import opened Utf8

  const DIR_ENTRY_FIXED: nat := 4 + OBJ_REF_SIZE
  const SNAP_ENTRY_FIXED: nat := 16 + OBJ_REF_SIZE
  const MAX_NAME_LEN: nat := 255

  datatype NodeKind = File | Directory {
    function ToTag(): byte {
      match this
      case File => 1
      case Directory => 2
    }

    static function FromTag(tag: byte): Result<NodeKind> {
      if tag == 1 then Ok(File) else if tag == 2 then Ok(Directory) else Err(Corrupt(UnknownKind))
    }
  }

  /** A directory entry; names are their UTF-8 bytes. */
  datatype DirEntry = DirEntry(name: seq<byte>, kind: NodeKind, obj: ObjRef)

  datatype SnapEntry = SnapEntry(txg: u64, name: seq<byte>, root: ObjRef)

  predicate NameOk(name: seq<byte>) {
    |name| <= MAX_NAME_LEN && IsUtf8(name)
  }

  // ----- name order -----

  /** Byte-wise lexicographic order, shorter first. */
  predicate Leq(a: seq<byte>, b: seq<byte>)
    decreases |a|
  {
    a == [] || (b != [] && (a[0] < b[0] || (a[0] == b[0] && Leq(a[1..], b[1..]))))
  }

  lemma {:induction false} LeqTotal(a: seq<byte>, b: seq<byte>)
    ensures Leq(a, b) || Leq(b, a)
    decreases |a|
  {
    if a != [] && b != [] { LeqTotal(a[1..], b[1..]); }
  }

  lemma {:induction false} LeqAntisymmetric(a: seq<byte>, b: seq<byte>)
    requires Leq(a, b) && Leq(b, a)
    ensures a == b
    decreases |a|
  {
    if a != [] {
      LeqAntisymmetric(a[1..], b[1..]);
      assert a == [a[0]] + a[1..] && b == [b[0]] + b[1..];
    }
  }

  lemma {:induction false} LeqTransitive(a: seq<byte>, b: seq<byte>, c: seq<byte>)
    requires Leq(a, b) && Leq(b, c)
    ensures Leq(a, c)
    decreases |a|
  {
    if a != [] && a[0] == b[0] == c[0] { LeqTransitive(a[1..], b[1..], c[1..]); }
  }

  ghost predicate Sorted(es: seq<DirEntry>) {
    forall i, j {:trigger es[i], es[j]} :: 0 <= i < j < |es| ==> Leq(es[i].name, es[j].name)
  }

  ghost predicate DistinctNames(es: seq<DirEntry>) {
    forall i, j {:trigger es[i], es[j]} :: 0 <= i < j < |es| ==> es[i].name != es[j].name
  }

  /** Insert after every entry with an equal or smaller name: a stable sort. */
  function Insert(e: DirEntry, es: seq<DirEntry>): (r: seq<DirEntry>)
    ensures multiset(r) == multiset(es) + multiset{e}
  {
    if es == [] then [e]
    else if Leq(es[|es| - 1].name, e.name) then es + [e]
    else
      assert es == es[..|es| - 1] + [es[|es| - 1]];
      Insert(e, es[..|es| - 1]) + [es[|es| - 1]]
  }

  function SortByName(es: seq<DirEntry>): (r: seq<DirEntry>)
    ensures multiset(r) == multiset(es)
  {
    if es == [] then []
    else
      assert es == es[..|es| - 1] + [es[|es| - 1]];
      Insert(es[|es| - 1], SortByName(es[..|es| - 1]))
  }

  /** What is inserted among entries below `top`, below it itself, stays below it. */
  lemma InsertBelow(e: DirEntry, es: seq<DirEntry>, top: DirEntry)
    requires Leq(e.name, top.name) && forall i :: 0 <= i < |es| ==> Leq(es[i].name, top.name)
    ensures forall i :: 0 <= i < |Insert(e, es)| ==> Leq(Insert(e, es)[i].name, top.name)
  {
    hide Leq, Insert;
    var r := Insert(e, es);
    forall i | 0 <= i < |r| ensures Leq(r[i].name, top.name) {
      assert r[i] in multiset(r);
      if r[i] != e {
        assert r[i] in multiset(es);
        var j :| 0 <= j < |es| && es[j] == r[i];
      }
    }
  }

  lemma {:induction false} InsertSorted(e: DirEntry, es: seq<DirEntry>)
    requires Sorted(es)
    ensures Sorted(Insert(e, es))
  {
    if es != [] {
      var n := |es| - 1;
      if Leq(es[n].name, e.name) {
        forall i | 0 <= i < |es| ensures Leq(es[i].name, e.name) {
          if i < n { LeqTransitive(es[i].name, es[n].name, e.name); }
        }
      } else {
        InsertSorted(e, es[..n]);
        LeqTotal(es[n].name, e.name);
        InsertBelow(e, es[..n], es[n]);
      }
    }
  }

  lemma {:induction false} SortedByName(es: seq<DirEntry>)
    ensures Sorted(SortByName(es))
  {
    if es != [] {
      SortedByName(es[..|es| - 1]);
      InsertSorted(es[|es| - 1], SortByName(es[..|es| - 1]));
    }
  }

  lemma DistinctFrom(es: seq<DirEntry>, fs: seq<DirEntry>)
    requires DistinctNames(es) && multiset(es) == multiset(fs)
    ensures forall x, y :: x in fs && y in fs && x.name == y.name ==> x == y
  {
    forall x, y | x in fs && y in fs && x.name == y.name ensures x == y {
      assert x in multiset(fs) && y in multiset(fs);
      assert x in multiset(es) && y in multiset(es);
      var i :| 0 <= i < |es| && es[i] == x;
      var j :| 0 <= j < |es| && es[j] == y;
    }
  }

  /** A set of entries with distinct names has one sorted order. */
  lemma {:induction false} SortedUnique(a: seq<DirEntry>, b: seq<DirEntry>)
    requires Sorted(a) && Sorted(b) && multiset(a) == multiset(b)
    requires forall x, y :: x in a && y in a && x.name == y.name ==> x == y
    ensures a == b
    decreases |a|
  {
    hide Leq, Sorted;
    SameSize(a, b);
    if a != [] {
      var n := |a| - 1;
      SameLast(a, b);
      SortedPrefix(a);
      SortedPrefix(b);
      SameRest(a, b);
      assert forall x :: x in a[..n] ==> x in a;
      SortedUnique(a[..n], b[..n]);
      assert a == a[..n] + [a[n]] && b == b[..n] + [b[n]];
    }
  }

  lemma SortedPrefix(a: seq<DirEntry>)
    requires Sorted(a) && a != []
    ensures Sorted(a[..|a| - 1])
  {
    hide Leq;
  }

  lemma SameRest(a: seq<DirEntry>, b: seq<DirEntry>)
    requires multiset(a) == multiset(b) && |a| == |b| > 0 && a[|a| - 1] == b[|b| - 1]
    ensures multiset(a[..|a| - 1]) == multiset(b[..|b| - 1])
  {
    var n := |a| - 1;
    assert a == a[..n] + [a[n]] && b == b[..n] + [b[n]];
    assert multiset(a) - multiset{a[n]} == multiset(a[..n]);
    assert multiset(b) - multiset{b[n]} == multiset(b[..n]);
  }

  lemma LastIsGreatest(a: seq<DirEntry>, x: DirEntry)
    requires Sorted(a) && x in multiset(a)
    ensures a != [] && Leq(x.name, a[|a| - 1].name)
  {
    hide Leq;
    var j :| 0 <= j < |a| && a[j] == x;
    LeqRefl(x.name);
  }

  /** Sorted orders of the same entries end in the same entry. */
  lemma SameLast(a: seq<DirEntry>, b: seq<DirEntry>)
    requires Sorted(a) && Sorted(b) && multiset(a) == multiset(b) && |a| == |b| > 0
    requires forall x, y :: x in a && y in a && x.name == y.name ==> x == y
    ensures a[|a| - 1] == b[|b| - 1]
  {
    hide Leq, Sorted;
    var x, y := a[|a| - 1], b[|b| - 1];
    assert x in multiset(b) && y in multiset(a);
    LastIsGreatest(b, x);
    LastIsGreatest(a, y);
    LeqAntisymmetric(x.name, y.name);
  }

  lemma SameSize(a: seq<DirEntry>, b: seq<DirEntry>)
    requires multiset(a) == multiset(b)
    ensures |a| == |b|
  {
    assert |multiset(a)| == |a| && |multiset(b)| == |b|;
  }

  lemma {:induction false} LeqRefl(a: seq<byte>)
    ensures Leq(a, a)
    decreases |a|
  {
    if a != [] { LeqRefl(a[1..]); }
  }

  // ----- directories -----

  function EntryBytes(e: DirEntry): (r: seq<byte>)
    ensures |r| == DIR_ENTRY_FIXED + |e.name|
  {
    Le(|e.name|, 2) + [e.kind.ToTag()] + [0] + e.obj.Encoded() + e.name
  }

  function EntriesBytes(es: seq<DirEntry>): seq<byte> {
    if es == [] then [] else EntriesBytes(es[..|es| - 1]) + EntryBytes(es[|es| - 1])
  }

  /** The canonical encoding: entries sorted by name. */
  function DirBytes(es: seq<DirEntry>): seq<byte> {
    EntriesBytes(SortByName(es))
  }

  function ParseEntry(bytes: seq<byte>): (r: Result<(DirEntry, nat)>)
    ensures r.Ok? ==> DIR_ENTRY_FIXED <= r.value.1 <= |bytes|
  {
    if |bytes| < DIR_ENTRY_FIXED then Err(Corrupt(TruncatedEntry))
    else
      var nameLen := ReadU16(bytes[0..2]);
      var kind :- NodeKind.FromTag(bytes[2]);
      var obj :- ObjRef.ReadFrom(bytes[4..DIR_ENTRY_FIXED]);
      if nameLen > MAX_NAME_LEN || |bytes| - DIR_ENTRY_FIXED < nameLen then Err(Corrupt(TruncatedName))
      else
        var name := bytes[DIR_ENTRY_FIXED..DIR_ENTRY_FIXED + nameLen];
        if !IsUtf8(name) then Err(Corrupt(NameNotUtf8))
        else Ok((DirEntry(name, kind, obj), DIR_ENTRY_FIXED + nameLen))
  }

  function ParsedDir(bytes: seq<byte>): Result<seq<DirEntry>>
    decreases |bytes|
  {
    if bytes == [] then Ok([])
    else
      var first :- ParseEntry(bytes);
      var rest :- ParsedDir(bytes[first.1..]);
      Ok([first.0] + rest)
  }

  lemma EntryRoundTrip(e: DirEntry, rest: seq<byte>)
    requires NameOk(e.name)
    ensures ParseEntry(EntryBytes(e) + rest) == Ok((e, |EntryBytes(e)|))
  {
    hide IsUtf8, ObjRef.Encoded, ObjRef.ReadFrom;
    var bytes := EntryBytes(e) + rest;
    assert bytes[0..2] == Le(|e.name|, 2);
    assert bytes[2] == e.kind.ToTag();
    assert bytes[4..DIR_ENTRY_FIXED] == e.obj.Encoded();
    assert bytes[DIR_ENTRY_FIXED..DIR_ENTRY_FIXED + |e.name|] == e.name;
    ReadBack16(|e.name|);
    ObjRoundTrip(e.obj);
  }

  lemma Associate(a: seq<byte>, b: seq<byte>, c: seq<byte>)
    ensures (a + b) + c == a + (b + c)
  {
  }

  lemma {:induction false} EntriesFront(es: seq<DirEntry>)
    requires es != []
    ensures EntriesBytes(es) == EntryBytes(es[0]) + EntriesBytes(es[1..])
    decreases |es|
  {
    hide EntryBytes;
    var n := |es| - 1;
    if n > 0 {
      EntriesFront(es[..n]);
      var mid := es[1..][..n - 1];
      assert es[..n][1..] == mid && es[1..][n - 1] == es[n] && es[..n][0] == es[0];
      assert EntriesBytes(es[1..]) == EntriesBytes(mid) + EntryBytes(es[n]);
      Associate(EntryBytes(es[0]), EntriesBytes(mid), EntryBytes(es[n]));
    } else {
      assert es[1..] == [] && es[..n] == [];
    }
  }

  lemma {:induction false} EntriesRoundTrip(es: seq<DirEntry>)
    requires forall i :: 0 <= i < |es| ==> NameOk(es[i].name)
    ensures ParsedDir(EntriesBytes(es)) == Ok(es)
    decreases |es|
  {
    hide ParseEntry, EntryBytes, NameOk;
    if es != [] {
      EntriesFront(es);
      EntryRoundTrip(es[0], EntriesBytes(es[1..]));
      var bytes := EntriesBytes(es);
      assert bytes[|EntryBytes(es[0])|..] == EntriesBytes(es[1..]);
      EntriesRoundTrip(es[1..]);
      assert [es[0]] + es[1..] == es;
    }
  }

  /** Reading a directory back yields its entries, sorted by name. */
  lemma DirRoundTrip(es: seq<DirEntry>)
    requires forall i :: 0 <= i < |es| ==> NameOk(es[i].name)
    ensures ParsedDir(DirBytes(es)) == Ok(SortByName(es)) && Sorted(SortByName(es))
  {
    var sorted := SortByName(es);
    forall i | 0 <= i < |sorted| ensures NameOk(sorted[i].name) {
      assert sorted[i] in multiset(sorted);
      assert sorted[i] in multiset(es);
      var j :| 0 <= j < |es| && es[j] == sorted[i];
    }
    EntriesRoundTrip(sorted);
    SortedByName(es);
  }

  /** Any two orders of the same entries encode to the same bytes. */
  lemma DirCanonical(es: seq<DirEntry>, fs: seq<DirEntry>)
    requires DistinctNames(es) && multiset(es) == multiset(fs)
    ensures DirBytes(es) == DirBytes(fs)
  {
    SortedByName(es);
    SortedByName(fs);
    DistinctFrom(es, SortByName(es));
    SortedUnique(SortByName(es), SortByName(fs));
  }

  /** Directories with different entries never share an encoding. */
  lemma DirInjective(es: seq<DirEntry>, fs: seq<DirEntry>)
    requires forall i :: 0 <= i < |es| ==> NameOk(es[i].name)
    requires forall i :: 0 <= i < |fs| ==> NameOk(fs[i].name)
    requires DirBytes(es) == DirBytes(fs)
    ensures multiset(es) == multiset(fs)
  {
    DirRoundTrip(es);
    DirRoundTrip(fs);
  }

  method SerializeDir(es: seq<DirEntry>) returns (out: seq<byte>)
    requires forall i :: 0 <= i < |es| ==> |es[i].name| <= MAX_NAME_LEN
    ensures out == DirBytes(es)
  {
    var sorted := SortByName(es);
    out := [];
    var i := 0;
    while i < |sorted|
      invariant 0 <= i <= |sorted|
      invariant out == EntriesBytes(sorted[..i])
    {
      var e := sorted[i];
      assert sorted[..i + 1][..i] == sorted[..i];
      out := out + (Le(|e.name|, 2) + [e.kind.ToTag()] + [0] + e.obj.Encoded() + e.name);
      i := i + 1;
    }
    assert sorted[..i] == sorted;
  }

  lemma ParsedStep(bytes: seq<byte>, at: nat)
    requires at < |bytes|
    ensures var first := ParseEntry(bytes[at..]);
      && (first.Err? ==> ParsedDir(bytes[at..]) == Err(first.error))
      && (first.Ok? ==>
           at + first.value.1 <= |bytes|
           && ParsedDir(bytes[at..]) == Prefixed([first.value.0], ParsedDir(bytes[at + first.value.1..])))
  {
    hide ParseEntry;
    var first := ParseEntry(bytes[at..]);
    if first.Ok? { assert bytes[at..][first.value.1..] == bytes[at + first.value.1..]; }
  }

  lemma PrefixedJoin<T>(a: seq<T>, b: seq<T>, rest: Result<seq<T>>)
    ensures Prefixed(a, Prefixed(b, rest)) == Prefixed(a + b, rest)
    ensures Prefixed([], rest) == rest && Prefixed(a, Ok([])) == Ok(a)
  {
    if rest.Ok? { assert a + (b + rest.value) == a + b + rest.value && [] + rest.value == rest.value; }
    assert a + [] == a;
  }

  method ParseDir(bytes: seq<byte>) returns (r: Result<seq<DirEntry>>)
    ensures r == ParsedDir(bytes)
  {
    hide ParseEntry, ParsedDir, Prefixed;
    var entries: seq<DirEntry> := [];
    var at := 0;
    assert bytes[0..] == bytes;
    PrefixedJoin(entries, entries, ParsedDir(bytes));
    while at < |bytes|
      invariant 0 <= at <= |bytes|
      invariant ParsedDir(bytes) == Prefixed(entries, ParsedDir(bytes[at..]))
      decreases |bytes| - at
    {
      ParsedStep(bytes, at);
      var step := ParseEntry(bytes[at..]);
      if step.Err? {
        PrefixedError(entries, step.error);
        return Err(step.error);
      }
      PrefixedJoin(entries, [step.value.0], ParsedDir(bytes[at + step.value.1..]));
      entries := entries + [step.value.0];
      at := at + step.value.1;
    }
    PrefixedJoin(entries, [], Ok([]));
    assert ParsedDir(bytes[at..]) == Ok([]) by { ParsedNothing(bytes[at..]); }
    return Ok(entries);
  }

  lemma ParsedNothing(bytes: seq<byte>)
    requires bytes == []
    ensures ParsedDir(bytes) == Ok([])
  {
  }

  lemma PrefixedError<T>(done: seq<T>, e: FsError)
    ensures Prefixed(done, Err(e)) == Err(e)
  {
  }

  ghost function Prefixed<T>(done: seq<T>, rest: Result<seq<T>>): Result<seq<T>> {
    if rest.Ok? then Ok(done + rest.value) else rest
  }

  // ----- the snapshot table -----

  function SnapBytes(e: SnapEntry): (r: seq<byte>)
    ensures |r| == SNAP_ENTRY_FIXED + |e.name|
  {
    Le(e.txg, 8) + Le(|e.name|, 2) + Zeros(6) + e.root.Encoded() + e.name
  }

  function SnapTableBytes(es: seq<SnapEntry>): seq<byte> {
    if es == [] then [] else SnapBytes(es[0]) + SnapTableBytes(es[1..])
  }

  function ParseSnap(bytes: seq<byte>): (r: Result<(SnapEntry, nat)>)
    ensures r.Ok? ==> SNAP_ENTRY_FIXED <= r.value.1 <= |bytes|
  {
    if |bytes| < SNAP_ENTRY_FIXED then Err(Corrupt(TruncatedEntry))
    else
      var nameLen := ReadU16(bytes[8..10]);
      var root :- ObjRef.ReadFrom(bytes[16..SNAP_ENTRY_FIXED]);
      if nameLen > MAX_NAME_LEN || |bytes| - SNAP_ENTRY_FIXED < nameLen then Err(Corrupt(TruncatedName))
      else
        var name := bytes[SNAP_ENTRY_FIXED..SNAP_ENTRY_FIXED + nameLen];
        if !IsUtf8(name) then Err(Corrupt(NameNotUtf8))
        else Ok((SnapEntry(ReadU64(bytes[0..8]), name, root), SNAP_ENTRY_FIXED + nameLen))
  }

  function ParsedSnapshots(bytes: seq<byte>): Result<seq<SnapEntry>>
    decreases |bytes|
  {
    if bytes == [] then Ok([])
    else
      var first :- ParseSnap(bytes);
      var rest :- ParsedSnapshots(bytes[first.1..]);
      Ok([first.0] + rest)
  }

  lemma SnapRoundTrip(e: SnapEntry, rest: seq<byte>)
    requires NameOk(e.name)
    ensures ParseSnap(SnapBytes(e) + rest) == Ok((e, |SnapBytes(e)|))
  {
    hide IsUtf8, ObjRef.Encoded, ObjRef.ReadFrom;
    var bytes := SnapBytes(e) + rest;
    assert bytes[0..8] == Le(e.txg, 8);
    assert bytes[8..10] == Le(|e.name|, 2);
    assert bytes[16..SNAP_ENTRY_FIXED] == e.root.Encoded();
    assert bytes[SNAP_ENTRY_FIXED..SNAP_ENTRY_FIXED + |e.name|] == e.name;
    ReadBack64(e.txg);
    ReadBack16(|e.name|);
    ObjRoundTrip(e.root);
  }

  /** The snapshot table reads back entry for entry, in creation order. */
  lemma {:induction false} SnapshotsRoundTrip(es: seq<SnapEntry>)
    requires forall i :: 0 <= i < |es| ==> NameOk(es[i].name)
    ensures ParsedSnapshots(SnapTableBytes(es)) == Ok(es)
    decreases |es|
  {
    hide ParseSnap, SnapBytes, NameOk;
    if es != [] {
      SnapRoundTrip(es[0], SnapTableBytes(es[1..]));
      var bytes := SnapTableBytes(es);
      assert bytes[|SnapBytes(es[0])|..] == SnapTableBytes(es[1..]);
      SnapshotsRoundTrip(es[1..]);
      assert [es[0]] + es[1..] == es;
    }
  }

  method SerializeSnapshots(es: seq<SnapEntry>) returns (out: seq<byte>)
    requires forall i :: 0 <= i < |es| ==> |es[i].name| <= MAX_NAME_LEN
    ensures out == SnapTableBytes(es)
  {
    hide SnapBytes;
    out := [];
    for i := 0 to |es|
      invariant SnapTableBytes(es) == out + SnapTableBytes(es[i..])
    {
      var e := es[i];
      assert es[i..][1..] == es[i + 1..];
      Associate(out, SnapBytes(e), SnapTableBytes(es[i + 1..]));
      SnapBytesAre(e);
      out := out + (Le(e.txg, 8) + Le(|e.name|, 2) + Zeros(6) + e.root.Encoded() + e.name);
    }
  }

  lemma SnapBytesAre(e: SnapEntry)
    ensures SnapBytes(e) == Le(e.txg, 8) + Le(|e.name|, 2) + Zeros(6) + e.root.Encoded() + e.name
  {
  }

  method ParseSnapshots(bytes: seq<byte>) returns (r: Result<seq<SnapEntry>>)
    ensures r == ParsedSnapshots(bytes)
  {
    hide ParseSnap;
    var entries: seq<SnapEntry> := [];
    var at := 0;
    assert bytes[0..] == bytes;
    assert ParsedSnapshots(bytes).Ok? ==> [] + ParsedSnapshots(bytes).value == ParsedSnapshots(bytes).value;
    while at < |bytes|
      invariant 0 <= at <= |bytes|
      invariant ParsedSnapshots(bytes) == Prefixed(entries, ParsedSnapshots(bytes[at..]))
      decreases |bytes| - at
    {
      var step := ParseSnap(bytes[at..]);
      if step.Err? { return Err(step.error); }
      assert bytes[at..][step.value.1..] == bytes[at + step.value.1..];
      ghost var rest := ParsedSnapshots(bytes[at + step.value.1..]);
      assert rest.Ok? ==> entries + ([step.value.0] + rest.value) == (entries + [step.value.0]) + rest.value;
      entries := entries + [step.value.0];
      at := at + step.value.1;
    }
    assert entries + [] == entries;
    return Ok(entries);
  }
}
