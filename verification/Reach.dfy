/**
  The collector's walk from the roots: what a directory tree reaches, that the worklist marks
  exactly that, and that a collection frees exactly what no root reaches.
*/
module Reach {
  import opened Bytes
  import opened Format
  import opened Space
  import opened BlockTree
  import opened Content
  import opened Engine
  import opened Gc
  import Dir = Directory

  // ----- directory trees -----

  /** The object reads and parses as a directory. */
  ghost predicate Listed(g: Geometry, img: seq<byte>, dir: ObjRef)
    requires g.Valid()
  {
    var whole := ReadWhole(g, img, dir);
    whole.Finished? && whole.r.Ok? && Dir.ParsedDir(whole.r.value).Ok?
  }

  ghost function Listing(g: Geometry, img: seq<byte>, dir: ObjRef): seq<Dir.DirEntry>
    requires g.Valid()
  {
    if Listed(g, img, dir) then Dir.ParsedDir(ReadWhole(g, img, dir).r.value).value else []
  }

  /** A way down from a root: which entry to take in each directory. */
  type Path = seq<nat>

  function Parent(p: Path): Path
    requires p != []
  {
    p[..|p| - 1]
  }

  /** The directory at the end of a path. */
  ghost function DirAt(g: Geometry, img: seq<byte>, root: ObjRef, p: Path): Option<ObjRef>
    requires g.Valid()
    decreases |p|
  {
    if p == [] then Some(root)
    else
      var up, k := DirAt(g, img, root, Parent(p)), p[|p| - 1];
      if up.Some? && k < |Listing(g, img, up.value)| && Listing(g, img, up.value)[k].kind.Directory?
      then Some(Listing(g, img, up.value)[k].obj) else None
  }

  /** A file listed in the directory. */
  ghost predicate FileOf(g: Geometry, img: seq<byte>, dir: ObjRef, o: ObjRef)
    requires g.Valid()
  {
    exists k :: 0 <= k < |Listing(g, img, dir)| && Listing(g, img, dir)[k].kind.File? && Listing(g, img, dir)[k].obj == o
  }

  /** The object is the directory at the end of the path or a file in it. */
  ghost predicate FoundAt(g: Geometry, img: seq<byte>, root: ObjRef, p: Path, o: ObjRef)
    requires g.Valid()
  {
    var dir := DirAt(g, img, root, p);
    dir.Some? && (dir.value == o || FileOf(g, img, dir.value, o))
  }

  /** The root reaches the object. */
  ghost predicate Reached(g: Geometry, img: seq<byte>, root: ObjRef, o: ObjRef)
    requires g.Valid()
  {
    exists p :: FoundAt(g, img, root, p, o)
  }

  // ----- marking one directory -----

  /** How marking the files among the entries ends: with the first one that cannot be marked. */
  ghost function FilesMarked(g: Geometry, img: seq<byte>, es: seq<Dir.DirEntry>): Result<()>
    requires g.Valid()
  {
    if es == [] then Ok(())
    else
      var before, last := FilesMarked(g, img, es[..|es| - 1]), es[|es| - 1];
      if before.Err? then before else if last.kind.File? then Markable(g, img, last.obj) else Ok(())
  }

  /** How marking a directory, reading it, and marking its files ends. */
  ghost function Visit(g: Geometry, img: seq<byte>, dir: ObjRef): Reading<()>
    requires g.Valid()
  {
    if Markable(g, img, dir).Err? then Finished(Markable(g, img, dir))
    else
      match ReadWhole(g, img, dir)
      case Panics => Panics
      case Spins => Spins
      case Finished(Err(e)) => Finished(Err(e))
      case Finished(Ok(bytes)) =>
        match Dir.ParsedDir(bytes)
        case Err(e) => Finished(Err(e))
        case Ok(es) => Finished(FilesMarked(g, img, es))
  }

  /** The first `n` entries' directories, in order, and where they stand. */
  ghost predicate Subdirectories(es: seq<Dir.DirEntry>, n: nat, subdirs: seq<ObjRef>, at: seq<nat>)
    requires n <= |es|
  {
    && |at| == |subdirs| <= n
    && (forall i {:trigger at[i]} :: 0 <= i < |at| ==> at[i] < n && es[at[i]].kind.Directory? && subdirs[i] == es[at[i]].obj)
    && (forall i, j {:trigger at[i], at[j]} :: 0 <= i < j < |at| ==> at[i] < at[j])
    && forall k {:trigger es[k]} :: 0 <= k < n && es[k].kind.Directory? ==> k in at
  }

  lemma NextSubdirectory(es: seq<Dir.DirEntry>, n: nat, subdirs: seq<ObjRef>, at: seq<nat>)
    requires n < |es| && Subdirectories(es, n, subdirs, at)
    ensures if es[n].kind.Directory? then Subdirectories(es, n + 1, subdirs + [es[n].obj], at + [n])
            else Subdirectories(es, n + 1, subdirs, at)
  {
    if es[n].kind.Directory? {
      var more := at + [n];
      forall k | 0 <= k < n + 1 && es[k].kind.Directory?
        ensures k in more
      {
        if k < n { assert k in at; } else { assert more[|at|] == n; }
      }
    }
  }

  ghost predicate FilesAmong(es: seq<Dir.DirEntry>, n: nat, files: seq<ObjRef>)
    requires n <= |es|
  {
    forall o :: o in files <==> exists k :: 0 <= k < n && es[k].kind.File? && es[k].obj == o
  }

  lemma NextFile(es: seq<Dir.DirEntry>, n: nat, files: seq<ObjRef>)
    requires n < |es| && FilesAmong(es, n, files)
    ensures FilesAmong(es, n + 1, if es[n].kind.File? then files + [es[n].obj] else files)
  {
    var more := if es[n].kind.File? then files + [es[n].obj] else files;
    forall o
      ensures o in more <==> exists k :: 0 <= k < n + 1 && es[k].kind.File? && es[k].obj == o
    {
      if o in files {
        var k :| 0 <= k < n && es[k].kind.File? && es[k].obj == o;
      }
    }
  }

  lemma TreesSnoc(g: Geometry, img: seq<byte>, objs: seq<ObjRef>, o: ObjRef)
    requires g.Valid()
    ensures var before, last := TreesOf(g, img, objs), TreeOf(g, img, o);
      TreesOf(g, img, objs + [o]) == Flat(before.leaves + last.leaves, before.indirect + last.indirect)
  {
    hide TreeOf;
    assert (objs + [o])[..|objs|] == objs;
  }

  lemma {:induction false} TreesJoin(g: Geometry, img: seq<byte>, a: seq<ObjRef>, b: seq<ObjRef>)
    requires g.Valid()
    ensures var x, y := TreesOf(g, img, a), TreesOf(g, img, b);
      TreesOf(g, img, a + b) == Flat(x.leaves + y.leaves, x.indirect + y.indirect)
    decreases |b|
  {
    hide TreeOf;
    if b == [] {
      assert a + b == a;
      var x := TreesOf(g, img, a);
      assert x.leaves + [] == x.leaves && x.indirect + [] == x.indirect;
    } else {
      var front, o := b[..|b| - 1], b[|b| - 1];
      TreesJoin(g, img, a, front);
      TreesSnoc(g, img, a + front, o);
      TreesSnoc(g, img, front, o);
      assert a + front + [o] == a + b && front + [o] == b;
      var x, y, z := TreesOf(g, img, a), TreesOf(g, img, front), TreeOf(g, img, o);
      assert x.leaves + y.leaves + z.leaves == x.leaves + (y.leaves + z.leaves);
      assert x.indirect + y.indirect + z.indirect == x.indirect + (y.indirect + z.indirect);
    }
  }

  /** Marks every file among the entries and lists the directories. */
  method MarkEntries(g: Geometry, img: seq<byte>, es: seq<Dir.DirEntry>)
    returns (r: Result<()>, subdirs: seq<ObjRef>, marks: seq<Extent>, ghost files: seq<ObjRef>, ghost at: seq<nat>)
    requires g.Valid()
    ensures r == FilesMarked(g, img, es)
    ensures r.Ok? ==>
      && MarksOf(g, TreesOf(g, img, files), marks)
      && FilesAmong(es, |es|, files) && Subdirectories(es, |es|, subdirs, at)
  {
    hide Markable, TreeOf, TreesOf, MarksOf, FilesAmong, Subdirectories, FilesMarked;
    subdirs, marks, files, at := [], [], [], [];
    NothingMarked(g, img);
    NoEntries(es);
    assert FilesMarked(g, img, []) == Ok(()) && es[..0] == [] by { NoFiles(g, img); }
    for k := 0 to |es|
      invariant FilesMarked(g, img, es[..k]) == Ok(())
      invariant MarksOf(g, TreesOf(g, img, files), marks)
      invariant FilesAmong(es, k, files) && Subdirectories(es, k, subdirs, at)
    {
      var e := es[k];
      FilesStep(g, img, es, k);
      NextFile(es, k, files);
      NextSubdirectory(es, k, subdirs, at);
      match e.kind
      case File =>
        var one, own := MarkObject(g, img, e.obj);
        if one.Err? {
          LaterFiles(g, img, es, k + 1);
          return one, subdirs, marks, files, at;
        }
        UnitOk(one);
        TreesSnoc(g, img, files, e.obj);
        MarksJoin(g, TreesOf(g, img, files), TreeOf(g, img, e.obj), marks, own);
        marks, files := marks + own, files + [e.obj];
      case Directory =>
        subdirs, at := subdirs + [e.obj], at + [k];
    }
    assert es[..|es|] == es;
    r := Ok(());
  }

  lemma FilesStep(g: Geometry, img: seq<byte>, es: seq<Dir.DirEntry>, k: nat)
    requires g.Valid() && k < |es| && FilesMarked(g, img, es[..k]) == Ok(())
    ensures FilesMarked(g, img, es[..k + 1]) == if es[k].kind.File? then Markable(g, img, es[k].obj) else Ok(())
  {
    hide Markable;
    assert es[..k + 1][..k] == es[..k];
  }

  lemma NothingMarked(g: Geometry, img: seq<byte>)
    requires g.Valid()
    ensures MarksOf(g, TreesOf(g, img, []), [])
  {
    NoMarks(g);
  }

  lemma UnitOk(r: Result<()>)
    requires r.Ok?
    ensures r == Ok(())
  {
    match r.value
    case () =>
  }

  lemma NoFiles(g: Geometry, img: seq<byte>)
    requires g.Valid()
    ensures FilesMarked(g, img, []) == Ok(())
  {
  }

  lemma NoEntries(es: seq<Dir.DirEntry>)
    ensures FilesAmong(es, 0, []) && Subdirectories(es, 0, [], [])
  {
  }

  lemma {:induction false} LaterFiles(g: Geometry, img: seq<byte>, es: seq<Dir.DirEntry>, k: nat)
    requires g.Valid() && k <= |es| && FilesMarked(g, img, es[..k]).Err?
    ensures FilesMarked(g, img, es) == FilesMarked(g, img, es[..k])
    decreases |es|
  {
    hide Markable;
    if k == |es| {
      assert es[..k] == es;
    } else {
      assert es[..|es| - 1][..k] == es[..k];
      LaterFiles(g, img, es[..|es| - 1], k);
    }
  }

  // ----- the worklist -----

  /** No directory but an empty one is reached by two paths, nor two stored at one address. */
  ghost predicate TreeShaped(g: Geometry, img: seq<byte>, root: ObjRef)
    requires g.Valid()
  {
    forall p, q {:trigger DirAt(g, img, root, p), DirAt(g, img, root, q)} :: p != q ==> Apart(g, img, root, p, q)
  }

  ghost predicate Apart(g: Geometry, img: seq<byte>, root: ObjRef, p: Path, q: Path)
    requires g.Valid()
  {
    var a, b := DirAt(g, img, root, p), DirAt(g, img, root, q);
    a.Some? && b.Some? && !a.value.root.IsNull() ==> a.value.root.addr != b.value.root.addr
  }

  /** Every directory reached can be visited, and no two share an address. */
  ghost predicate Walkable(g: Geometry, img: seq<byte>, root: ObjRef)
    requires g.Valid()
  {
    && TreeShaped(g, img, root)
    && forall p {:trigger DirAt(g, img, root, p)} ::
         DirAt(g, img, root, p).Some? ==> Visit(g, img, DirAt(g, img, root, p).value) == Finished(Ok(()))
  }

  /** The paths done have been visited, and with each the path it extends. */
  ghost predicate Done(g: Geometry, img: seq<byte>, root: ObjRef, done: set<Path>)
    requires g.Valid()
  {
    && (forall p {:trigger p in done} :: p in done ==>
         && DirAt(g, img, root, p).Some? && Visit(g, img, DirAt(g, img, root, p).value) == Finished(Ok(()))
         && (p != [] ==> Parent(p) in done))
    && forall p, q {:trigger p in done, q in done} :: p in done && q in done && p != q ==> Apart(g, img, root, p, q)
  }

  /** The paths pending lead to the directories pending, each one new and a step beyond those done. */
  ghost predicate Stacked(g: Geometry, img: seq<byte>, root: ObjRef, pending: seq<ObjRef>, stack: seq<Path>, done: set<Path>)
    requires g.Valid()
  {
    && |stack| == |pending|
    && (forall i {:trigger stack[i]} :: 0 <= i < |stack| ==>
         && DirAt(g, img, root, stack[i]) == Some(pending[i]) && stack[i] !in done
         && (stack[i] != [] ==> Parent(stack[i]) in done))
    && forall i, j {:trigger stack[i], stack[j]} :: 0 <= i < j < |stack| ==> stack[i] != stack[j]
  }

  /** Nothing a step beyond the paths done is forgotten. */
  ghost predicate Closed(g: Geometry, img: seq<byte>, root: ObjRef, stack: seq<Path>, done: set<Path>)
    requires g.Valid()
  {
    && ([] in done || [] in stack)
    && forall q {:trigger DirAt(g, img, root, q)} ::
         q != [] && Parent(q) in done && DirAt(g, img, root, q).Some? ==> q in done || q in stack
  }

  /** The addresses visited are those of the directories done. */
  ghost predicate Remembered(g: Geometry, img: seq<byte>, root: ObjRef, visited: set<u64>, done: set<Path>)
    requires g.Valid()
  {
    && (forall p {:trigger p in done} :: p in done && DirAt(g, img, root, p).Some? && !DirAt(g, img, root, p).value.root.IsNull() ==>
         DirAt(g, img, root, p).value.root.addr in visited)
    && forall a {:trigger a in visited} :: a in visited ==>
         exists p :: p in done && DirAt(g, img, root, p).Some? && DirAt(g, img, root, p).value.root.addr == a
  }

  ghost predicate Halfway(g: Geometry, img: seq<byte>, root: ObjRef, pending: seq<ObjRef>, visited: set<u64>,
                          stack: seq<Path>, done: set<Path>)
    requires g.Valid()
  {
    && Done(g, img, root, done) && Stacked(g, img, root, pending, stack, done)
    && Closed(g, img, root, stack, done) && Remembered(g, img, root, visited, done)
  }

  lemma HalfwayStarts(g: Geometry, img: seq<byte>, root: ObjRef)
    requires g.Valid()
    ensures Halfway(g, img, root, [root], {}, [[]], {})
  {
  }

  /** The next directory's address has been visited: the tree is not one. */
  lemma VisitedTwice(g: Geometry, img: seq<byte>, root: ObjRef, pending: seq<ObjRef>, visited: set<u64>,
                     stack: seq<Path>, done: set<Path>)
    requires g.Valid() && Halfway(g, img, root, pending, visited, stack, done) && pending != []
    requires !pending[|pending| - 1].root.IsNull() && pending[|pending| - 1].root.addr in visited
    ensures !TreeShaped(g, img, root)
  {
    hide DirAt, Visit;
    var p := stack[|stack| - 1];
    assert DirAt(g, img, root, p) == Some(pending[|pending| - 1]);
    var q :| q in done && DirAt(g, img, root, q).Some?
             && DirAt(g, img, root, q).value.root.addr == pending[|pending| - 1].root.addr;
    assert !Apart(g, img, root, p, q);
  }

  function Children(p: Path, at: seq<nat>): (kids: seq<Path>)
    ensures |kids| == |at| && forall i :: 0 <= i < |at| ==> kids[i] == p + [at[i]]
  {
    seq(|at|, i requires 0 <= i < |at| => p + [at[i]])
  }

  lemma ChildAt(g: Geometry, img: seq<byte>, root: ObjRef, p: Path, k: nat)
    requires g.Valid()
    ensures Parent(p + [k]) == p
    ensures var up := DirAt(g, img, root, p);
      DirAt(g, img, root, p + [k]) ==
        if up.Some? && k < |Listing(g, img, up.value)| && Listing(g, img, up.value)[k].kind.Directory?
        then Some(Listing(g, img, up.value)[k].obj) else None
  {
    hide Listing;
    assert (p + [k])[..|p|] == p;
  }

  /** A visit moves the last path to those done and puts its subdirectories on the stack. */
  lemma Visited(g: Geometry, img: seq<byte>, root: ObjRef, pending: seq<ObjRef>, visited: set<u64>,
                stack: seq<Path>, done: set<Path>, subdirs: seq<ObjRef>, at: seq<nat>)
    requires g.Valid() && Halfway(g, img, root, pending, visited, stack, done) && pending != []
    requires var dir := pending[|pending| - 1];
      && Visit(g, img, dir) == Finished(Ok(())) && (!dir.root.IsNull() ==> dir.root.addr !in visited)
      && Subdirectories(Listing(g, img, dir), |Listing(g, img, dir)|, subdirs, at)
    ensures |stack| == |pending|
    ensures var dir, p := pending[|pending| - 1], stack[|pending| - 1];
      && DirAt(g, img, root, p) == Some(dir) && p !in done
      && Halfway(g, img, root, pending[..|pending| - 1] + subdirs,
                 if dir.root.IsNull() then visited else visited + {dir.root.addr},
                 stack[..|pending| - 1] + Children(p, at), done + {p})
  {
    hide DirAt, Visit, Listing, Done, Stacked, Closed, Remembered;
    assert |stack| == |pending| by { StackLength(g, img, root, pending, stack, done); }
    var n := |pending| - 1;
    var dir, p := pending[n], stack[n];
    StackedLast(g, img, root, pending, stack, done);
    DoneMore(g, img, root, visited, done, p);
    StackedMore(g, img, root, pending, stack, done, subdirs, at);
    ClosedMore(g, img, root, pending, stack, done, subdirs, at);
    RememberedMore(g, img, root, visited, done, p);
  }

  lemma StackLength(g: Geometry, img: seq<byte>, root: ObjRef, pending: seq<ObjRef>, stack: seq<Path>, done: set<Path>)
    requires g.Valid() && Stacked(g, img, root, pending, stack, done)
    ensures |stack| == |pending|
  {
  }

  lemma StackedLast(g: Geometry, img: seq<byte>, root: ObjRef, pending: seq<ObjRef>, stack: seq<Path>, done: set<Path>)
    requires g.Valid() && Stacked(g, img, root, pending, stack, done) && pending != []
    ensures |stack| == |pending|
    ensures var p := stack[|stack| - 1];
      DirAt(g, img, root, p) == Some(pending[|pending| - 1]) && p !in done && (p != [] ==> Parent(p) in done)
  {
    hide DirAt;
  }

  lemma DoneMore(g: Geometry, img: seq<byte>, root: ObjRef, visited: set<u64>, done: set<Path>, p: Path)
    requires g.Valid() && Done(g, img, root, done) && Remembered(g, img, root, visited, done)
    requires p !in done && (p != [] ==> Parent(p) in done)
    requires var dir := DirAt(g, img, root, p);
      dir.Some? && Visit(g, img, dir.value) == Finished(Ok(())) && (!dir.value.root.IsNull() ==> dir.value.root.addr !in visited)
    ensures Done(g, img, root, done + {p})
  {
    hide DirAt, Visit, Parent;
  }

  lemma RememberedMore(g: Geometry, img: seq<byte>, root: ObjRef, visited: set<u64>, done: set<Path>, p: Path)
    requires g.Valid() && Remembered(g, img, root, visited, done) && DirAt(g, img, root, p).Some?
    ensures var dir := DirAt(g, img, root, p).value;
      Remembered(g, img, root, if dir.root.IsNull() then visited else visited + {dir.root.addr}, done + {p})
  {
    hide DirAt;
    var dir := DirAt(g, img, root, p).value;
    var more := done + {p};
    assert p in more;
    forall a | a in visited
      ensures exists q :: q in more && DirAt(g, img, root, q).Some? && DirAt(g, img, root, q).value.root.addr == a
    {
      var q :| q in done && DirAt(g, img, root, q).Some? && DirAt(g, img, root, q).value.root.addr == a;
      assert q in more;
    }
  }

  lemma NotYetDone(g: Geometry, img: seq<byte>, root: ObjRef, done: set<Path>, p: Path, kid: Path)
    requires g.Valid() && Done(g, img, root, done) && p !in done && kid != [] && Parent(kid) == p
    ensures kid !in done
  {
    hide DirAt, Visit, Parent;
  }

  lemma StackedFront(g: Geometry, img: seq<byte>, root: ObjRef, pending: seq<ObjRef>, stack: seq<Path>, done: set<Path>)
    requires g.Valid() && Stacked(g, img, root, pending, stack, done) && pending != []
    ensures |stack| == |pending|
    ensures var n := |pending| - 1; Stacked(g, img, root, pending[..n], stack[..n], done + {stack[n]})
  {
    hide DirAt, Parent;
    var n := |pending| - 1;
    var front, more := stack[..n], done + {stack[n]};
    forall i | 0 <= i < n
      ensures DirAt(g, img, root, front[i]) == Some(pending[..n][i]) && front[i] !in more
      ensures front[i] != [] ==> Parent(front[i]) in more
    {
      assert front[i] == stack[i];
    }
  }

  lemma StackedKids(g: Geometry, img: seq<byte>, root: ObjRef, done: set<Path>, p: Path, dir: ObjRef,
                    subdirs: seq<ObjRef>, at: seq<nat>)
    requires g.Valid() && Done(g, img, root, done) && p !in done && DirAt(g, img, root, p) == Some(dir)
    requires Subdirectories(Listing(g, img, dir), |Listing(g, img, dir)|, subdirs, at)
    ensures Stacked(g, img, root, subdirs, Children(p, at), done + {p})
  {
    hide DirAt, Listing, Done;
    var kids, more := Children(p, at), done + {p};
    forall i | 0 <= i < |at|
      ensures DirAt(g, img, root, kids[i]) == Some(subdirs[i]) && kids[i] !in more && Parent(kids[i]) in more
      ensures kids[i][|p|] == at[i]
    {
      ChildAt(g, img, root, p, at[i]);
      NotYetDone(g, img, root, done, p, kids[i]);
    }
  }

  lemma StackedJoin(g: Geometry, img: seq<byte>, root: ObjRef, done: set<Path>, pending: seq<ObjRef>, stack: seq<Path>,
                    more: seq<ObjRef>, kids: seq<Path>)
    requires g.Valid() && Stacked(g, img, root, pending, stack, done) && Stacked(g, img, root, more, kids, done)
    requires forall i, j :: 0 <= i < |stack| && 0 <= j < |kids| ==> stack[i] != kids[j]
    ensures Stacked(g, img, root, pending + more, stack + kids, done)
  {
    hide DirAt, Parent;
    var all := stack + kids;
    forall i | 0 <= i < |all|
      ensures DirAt(g, img, root, all[i]) == Some((pending + more)[i]) && all[i] !in done
      ensures all[i] != [] ==> Parent(all[i]) in done
    {
      if i >= |stack| { assert all[i] == kids[i - |stack|]; } else { assert all[i] == stack[i]; }
    }
  }

  lemma KidsNew(g: Geometry, img: seq<byte>, root: ObjRef, pending: seq<ObjRef>, stack: seq<Path>, done: set<Path>,
                p: Path, at: seq<nat>)
    requires g.Valid() && Stacked(g, img, root, pending, stack, done) && p !in done
    ensures forall i, j :: 0 <= i < |stack| && 0 <= j < |at| ==> stack[i] != Children(p, at)[j]
  {
    hide DirAt;
    forall i, j | 0 <= i < |stack| && 0 <= j < |at|
      ensures stack[i] != Children(p, at)[j]
    {
      ChildAt(g, img, root, p, at[j]);
      assert Children(p, at)[j] == p + [at[j]];
    }
  }

  lemma StackedMore(g: Geometry, img: seq<byte>, root: ObjRef, pending: seq<ObjRef>, stack: seq<Path>, done: set<Path>,
                    subdirs: seq<ObjRef>, at: seq<nat>)
    requires g.Valid() && Done(g, img, root, done) && Stacked(g, img, root, pending, stack, done) && pending != []
    requires var dir := pending[|pending| - 1]; Subdirectories(Listing(g, img, dir), |Listing(g, img, dir)|, subdirs, at)
    ensures |stack| == |pending|
    ensures var n := |pending| - 1;
      Stacked(g, img, root, pending[..n] + subdirs, stack[..n] + Children(stack[n], at), done + {stack[n]})
  {
    hide DirAt, Listing, Stacked, Done, Subdirectories, Children, Parent;
    StackedLast(g, img, root, pending, stack, done);
    var n := |pending| - 1;
    var p, dir := stack[n], pending[n];
    StackedFront(g, img, root, pending, stack, done);
    StackedKids(g, img, root, done, p, dir, subdirs, at);
    KidsNew(g, img, root, pending, stack, done, p, at);
    StackedJoin(g, img, root, done + {p}, pending[..n], stack[..n], subdirs, Children(p, at));
  }

  lemma ClosedMore(g: Geometry, img: seq<byte>, root: ObjRef, pending: seq<ObjRef>, stack: seq<Path>, done: set<Path>,
                   subdirs: seq<ObjRef>, at: seq<nat>)
    requires g.Valid() && Stacked(g, img, root, pending, stack, done) && Closed(g, img, root, stack, done) && pending != []
    requires var dir := pending[|pending| - 1]; Subdirectories(Listing(g, img, dir), |Listing(g, img, dir)|, subdirs, at)
    ensures |stack| == |pending|
    ensures var n := |pending| - 1;
      Closed(g, img, root, stack[..n] + Children(stack[n], at), done + {stack[n]})
  {
    hide DirAt, Listing;
    var n := |pending| - 1;
    var p, dir := stack[n], pending[n];
    var kids := Children(p, at);
    var later, more := stack[..n] + kids, done + {p};
    assert DirAt(g, img, root, p) == Some(dir);
    Survivors(stack, kids);
    forall q | q != [] && Parent(q) in more && DirAt(g, img, root, q).Some?
      ensures q in more || q in later
    {
      if Parent(q) in done {
        assert q in done || q in stack;
      } else {
        var k := q[|q| - 1];
        assert q == p + [k];
        ChildAt(g, img, root, p, k);
        assert Listing(g, img, dir)[k].kind.Directory?;
        var i :| 0 <= i < |at| && at[i] == k;
        assert later[n + i] == kids[i];
      }
    }
  }

  lemma Survivors(stack: seq<Path>, kids: seq<Path>)
    requires stack != []
    ensures forall q :: q in stack ==> q == stack[|stack| - 1] || q in stack[..|stack| - 1] + kids
  {
    forall q | q in stack
      ensures q == stack[|stack| - 1] || q in stack[..|stack| - 1] + kids
    {
      var i :| 0 <= i < |stack| && stack[i] == q;
      if i < |stack| - 1 { assert (stack[..|stack| - 1] + kids)[i] == q; }
    }
  }

  /** With nothing pending every path has been visited. */
  lemma {:induction false} AllDone(g: Geometry, img: seq<byte>, root: ObjRef, done: set<Path>, p: Path)
    requires g.Valid() && Closed(g, img, root, [], done) && DirAt(g, img, root, p).Some?
    ensures p in done
    decreases |p|
  {
    hide Listing;
    if p != [] { AllDone(g, img, root, done, Parent(p)); }
  }

  lemma Walked(g: Geometry, img: seq<byte>, root: ObjRef, visited: set<u64>, stack: seq<Path>, done: set<Path>)
    requires g.Valid() && Halfway(g, img, root, [], visited, stack, done)
    ensures Walkable(g, img, root)
    ensures forall p {:trigger DirAt(g, img, root, p)} :: DirAt(g, img, root, p).Some? <==> p in done
  {
    hide DirAt, Visit, Remembered;
    assert stack == [];
    forall p | DirAt(g, img, root, p).Some?
      ensures p in done
    {
      AllDone(g, img, root, done, p);
    }
    forall p, q | p != q
      ensures Apart(g, img, root, p, q)
    {
      if DirAt(g, img, root, p).Some? && DirAt(g, img, root, q).Some? { assert p in done && q in done; }
    }
  }

  /** The objects of the list are those found along the paths done. */
  ghost predicate Found(g: Geometry, img: seq<byte>, root: ObjRef, done: set<Path>, objs: seq<ObjRef>)
    requires g.Valid()
  {
    forall o {:trigger o in objs} :: o in objs <==> exists p :: p in done && FoundAt(g, img, root, p, o)
  }

  lemma FoundMore(g: Geometry, img: seq<byte>, root: ObjRef, done: set<Path>, objs: seq<ObjRef>, p: Path, files: seq<ObjRef>)
    requires g.Valid() && Found(g, img, root, done, objs) && DirAt(g, img, root, p).Some?
    requires var es := Listing(g, img, DirAt(g, img, root, p).value); FilesAmong(es, |es|, files)
    ensures Found(g, img, root, done + {p}, objs + [DirAt(g, img, root, p).value] + files)
  {
    hide DirAt, Listing;
    var dir := DirAt(g, img, root, p).value;
    var all, more := objs + [dir] + files, done + {p};
    forall o
      ensures o in all <==> exists q :: q in more && FoundAt(g, img, root, q, o)
    {
      assert o in all <==> o in objs || o == dir || o in files;
      assert FoundAt(g, img, root, p, o) <==> o == dir || o in files;
      if o in objs {
        var q :| q in done && FoundAt(g, img, root, q, o);
        assert q in more;
      }
      if o == dir || o in files { assert p in more; }
    }
  }

  lemma FoundAll(g: Geometry, img: seq<byte>, root: ObjRef, done: set<Path>, objs: seq<ObjRef>, o: ObjRef)
    requires g.Valid() && Found(g, img, root, done, objs)
    requires forall p {:trigger DirAt(g, img, root, p)} :: DirAt(g, img, root, p).Some? <==> p in done
    ensures o in objs <==> Reached(g, img, root, o)
  {
    hide DirAt, FileOf;
    if Reached(g, img, root, o) {
      var p :| FoundAt(g, img, root, p, o);
      assert p in done;
    }
  }

  /** Why the walk of a tree stopped: some directory in it cannot be visited, or two share an
      address. */
  ghost predicate Stops(g: Geometry, img: seq<byte>, root: ObjRef, r: Reading<()>)
    requires g.Valid()
  {
    || (exists p :: DirAt(g, img, root, p).Some? && Visit(g, img, DirAt(g, img, root, p).value) == r)
    || (r == Finished(Err(Corrupt(NotATree))) && !TreeShaped(g, img, root))
  }

  lemma StopsHere(g: Geometry, img: seq<byte>, root: ObjRef, p: Path, dir: ObjRef, r: Reading<()>)
    requires g.Valid() && DirAt(g, img, root, p) == Some(dir) && Visit(g, img, dir) == r != Finished(Ok(()))
    ensures Stops(g, img, root, r) && !Walkable(g, img, root)
  {
    hide DirAt, Visit;
  }

  function Free(visited: set<u64>): int {
    U64_MAX + 1 - |visited|
  }

  /** So the walk ends: every directory but an empty one takes one of finitely many addresses. */
  lemma {:induction false} AddressesFinite(visited: set<u64>, bound: nat)
    requires forall a :: a in visited ==> a < bound
    ensures |visited| <= bound
    decreases bound
  {
    if bound == 0 {
      assert visited == {};
    } else {
      var last := bound - 1;
      var fewer := set a | a in visited && a != last;
      AddressesFinite(fewer, last);
      if bound - 1 in visited {
        assert visited == fewer + {last};
      } else {
        assert visited == fewer;
      }
    }
  }

  /** Marks one directory and its files; the directories in it are still to be marked. */
  method MarkDirectory(fs: Eofs, dir: ObjRef)
    returns (r: Reading<()>, subdirs: seq<ObjRef>, marks: seq<Extent>, ghost files: seq<ObjRef>, ghost at: seq<nat>)
    requires fs.geo.Valid()
    ensures r == Visit(fs.geo, fs.Img(), dir)
    ensures r == Finished(Ok(())) ==>
      var es := Listing(fs.geo, fs.Img(), dir);
      && MarksOf(fs.geo, TreesOf(fs.geo, fs.Img(), [dir] + files), marks)
      && FilesAmong(es, |es|, files) && Subdirectories(es, |es|, subdirs, at)
  {
    hide Markable, TreeOf, TreesOf, MarksOf, FilesAmong, Subdirectories, FilesMarked, ReadWhole, Dir.ParsedDir;
    var g, img := fs.geo, fs.dev.inner.data[..];
    subdirs, marks, files, at := [], [], [], [];
    var one, own := MarkObject(g, img, dir);
    if one.Err? { return Finished(one), subdirs, marks, files, at; }
    var whole := fs.ReadObject(dir);
    match whole
    case Panics => return Panics, subdirs, marks, files, at;
    case Spins => return Spins, subdirs, marks, files, at;
    case Finished(Err(e)) => return Finished(Err(e)), subdirs, marks, files, at;
    case Finished(Ok(bytes)) =>
      var parsed := Dir.ParseDir(bytes);
      if parsed.Err? { return Finished(Err(parsed.error)), subdirs, marks, files, at; }
      var marked;
      marked, subdirs, marks, files, at := MarkEntries(g, img, parsed.value);
      r := Finished(marked);
      if marked.Ok? {
        OneTree(g, img, dir);
        TreesJoin(g, img, [dir], files);
        MarksJoin(g, TreeOf(g, img, dir), TreesOf(g, img, files), own, marks);
      }
      marks := own + marks;
  }

  lemma OneTree(g: Geometry, img: seq<byte>, o: ObjRef)
    requires g.Valid()
    ensures TreesOf(g, img, [o]) == TreeOf(g, img, o)
  {
    hide TreeOf;
    assert [o][..0] == [];
    var f := TreeOf(g, img, o);
    assert [] + f.leaves == f.leaves && [] + f.indirect == f.indirect;
  }

  /** Marks everything the root reaches, with a worklist and a set of visited addresses. */
  method MarkDirTree(fs: Eofs, root: ObjRef) returns (r: Reading<()>, marks: seq<Extent>, ghost objs: seq<ObjRef>)
    requires fs.geo.Valid()
    ensures r == Finished(Ok(())) <==> Walkable(fs.geo, fs.Img(), root)
    ensures r != Finished(Ok(())) ==> Stops(fs.geo, fs.Img(), root, r)
    ensures r == Finished(Ok(())) ==>
      && MarksOf(fs.geo, TreesOf(fs.geo, fs.Img(), objs), marks)
      && forall o :: o in objs <==> Reached(fs.geo, fs.Img(), root, o)
  {
    hide DirAt, Visit, TreesOf, MarksOf, Halfway, Found, FilesAmong, Subdirectories, Listing, Reached, Walkable, Stops, TreeShaped;
    var g := fs.geo;
    ghost var img := fs.Img();
    var pending, visited: set<u64> := [root], {};
    ghost var stack: seq<Path>, done: set<Path> := [[]], {};
    marks, objs := [], [];
    HalfwayStarts(g, img, root);
    NothingMarked(g, img);
    NothingFound(g, img, root);
    while pending != []
      invariant Halfway(g, img, root, pending, visited, stack, done)
      invariant MarksOf(g, TreesOf(g, img, objs), marks) && Found(g, img, root, done, objs)
      decreases Free(visited), |pending|
    {
      var n := |pending| - 1;
      var dir := pending[n];
      if !dir.root.IsNull() && dir.root.addr in visited {
        VisitedTwice(g, img, root, pending, visited, stack, done);
        StopsTwice(g, img, root);
        return Finished(Err(Corrupt(NotATree))), marks, objs;
      }
      AddressesFinite(visited, U64_MAX + 1);
      AddressesFinite(visited + {dir.root.addr}, U64_MAX + 1);
      LastPath(g, img, root, pending, visited, stack, done);
      var one, subdirs, own, files, at := MarkDirectory(fs, dir);
      if one != Finished(Ok(())) {
        StopsHere(g, img, root, stack[n], dir, one);
        return one, marks, objs;
      }
      if dir.root.IsNull() { EmptyDirectory(g, img, dir, subdirs, at); }
      Visited(g, img, root, pending, visited, stack, done, subdirs, at);
      FoundMore(g, img, root, done, objs, stack[n], files);
      TreesJoin(g, img, objs, [dir] + files);
      assert objs + ([dir] + files) == objs + [dir] + files;
      MarksJoin(g, TreesOf(g, img, objs), TreesOf(g, img, [dir] + files), marks, own);
      marks, objs := marks + own, objs + [dir] + files;
      pending := pending[..n] + subdirs;
      if !dir.root.IsNull() { visited := visited + {dir.root.addr}; }
      stack, done := stack[..n] + Children(stack[n], at), done + {stack[n]};
    }
    Walked(g, img, root, visited, stack, done);
    forall o
      ensures o in objs <==> Reached(g, img, root, o)
    {
      FoundAll(g, img, root, done, objs, o);
    }
    r := Finished(Ok(()));
  }

  /** A directory without a root block is empty. */
  lemma EmptyDirectory(g: Geometry, img: seq<byte>, dir: ObjRef, subdirs: seq<ObjRef>, at: seq<nat>)
    requires g.Valid() && dir.root.IsNull() && Visit(g, img, dir) == Finished(Ok(()))
    requires Subdirectories(Listing(g, img, dir), |Listing(g, img, dir)|, subdirs, at)
    ensures subdirs == []
  {
    hide Geometry.Flatten, Geometry.Seen, FilesMarked;
    assert g.CheckObject(dir).Ok?;
    assert Listing(g, img, dir) == [];
  }

  lemma NothingFound(g: Geometry, img: seq<byte>, root: ObjRef)
    requires g.Valid()
    ensures Found(g, img, root, {}, [])
  {
  }

  lemma LastPath(g: Geometry, img: seq<byte>, root: ObjRef, pending: seq<ObjRef>, visited: set<u64>,
                 stack: seq<Path>, done: set<Path>)
    requires g.Valid() && Halfway(g, img, root, pending, visited, stack, done) && pending != []
    ensures |stack| == |pending| && DirAt(g, img, root, stack[|stack| - 1]) == Some(pending[|pending| - 1])
  {
    hide DirAt, Done, Closed, Remembered, Stacked;
    StackedLast(g, img, root, pending, stack, done);
  }

  lemma StopsTwice(g: Geometry, img: seq<byte>, root: ObjRef)
    requires g.Valid() && !TreeShaped(g, img, root)
    ensures Stops(g, img, root, Finished(Err(Corrupt(NotATree)))) && !Walkable(g, img, root)
  {
    hide TreeShaped;
  }
}
