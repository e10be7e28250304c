/**
  What a loss of power leaves on a device that keeps only what was flushed: writes since the
  last flush may be lost, torn at any byte, and done in any order.
*/
module PowerLoss {
  import opened Bytes
  import opened Arith
  import opened Format
  import opened Space
  import opened Device
  import opened BlockTree
  import opened Content
  import opened Election
  import opened Engine

  /** All that is not durable, and all that may still be handed out, lies in `wide`; the objects
      have none of it. */
  ghost predicate Safe(g: Geometry, d: Moment, s: Space, wide: Space, objs: seq<ObjRef>, contents: seq<seq<byte>>)
    requires g.Valid()
  {
    && |d.img| >= DATA_START && MayRemain(d.cache, d.img) && AllHeld(g, d.img, wide, objs, contents)
    && (forall x {:trigger wide.Available(x)} :: wide.Available(x) ==> DATA_START <= x)
    && (forall x {:trigger s.Available(x)} :: s.Available(x) ==> wide.Available(x))
    && (forall x {:trigger Touched(d.cache, x)} :: Touched(d.cache, x) ==> wide.Available(x))
  }

  /** A device on which all is durable is safe. */
  lemma SafeAtFirst(g: Geometry, d: Moment, s: Space, objs: seq<ObjRef>, contents: seq<seq<byte>>)
    requires g.Valid() && s.Valid() && |d.img| >= DATA_START && AllHeld(g, d.img, s, objs, contents)
    requires d.cache == Cache(d.img, [])
    ensures Safe(g, d, s, s, objs, contents)
  {
    hide AllHeld;
    AvailableData(s);
  }

  lemma AvailableData(s: Space)
    requires s.Valid()
    ensures forall x {:trigger s.Available(x)} :: s.Available(x) ==> DATA_START <= x
  {
    forall x {:trigger s.Available(x)} | s.Available(x)
      ensures DATA_START <= x
    {
      if !(s.frontier <= x < s.deviceSize) {
        var i :| Covers(s.free, i, x);
        assert s.FreeExtentOk(s.free[i]);
      }
    }
  }

  /** It stays safe whatever available space is written. */
  lemma SafeStays(g: Geometry, d: Moment, s: Space, d': Moment, s': Space, wide: Space, objs: seq<ObjRef>, contents: seq<seq<byte>>)
    requires g.Valid() && Safe(g, d, s, wide, objs, contents) && Steady(d, s, d') && Evolves(d.img, s, d'.img, s')
    ensures Safe(g, d', s', wide, objs, contents) && Elsewhere(wide, d.img, d'.img)
  {
    hide AllHeld, MayRemain, Touched, Space.Available, Shrinks;
    HeldElsewhere(g, wide, d.img, d'.img, objs, contents);
  }

  lemma SafeHeld(g: Geometry, d: Moment, s: Space, wide: Space, objs: seq<ObjRef>, contents: seq<seq<byte>>)
    requires g.Valid() && Safe(g, d, s, wide, objs, contents)
    ensures |d.img| >= DATA_START && AllHeld(g, d.img, wide, objs, contents)
    ensures forall x {:trigger wide.Available(x)} :: wide.Available(x) ==> DATA_START <= x
  {
  }

  /** The images differ at most in what `wide` has available. */
  ghost predicate Elsewhere(wide: Space, img: seq<byte>, img': seq<byte>) {
    |img'| == |img| && forall x :: 0 <= x < |img| && !wide.Available(x) ==> img'[x] == img[x]
  }

  lemma HeldElsewhere(g: Geometry, wide: Space, img: seq<byte>, img': seq<byte>, objs: seq<ObjRef>, contents: seq<seq<byte>>)
    requires g.Valid() && AllHeld(g, img, wide, objs, contents) && Elsewhere(wide, img, img')
    ensures AllHeld(g, img', wide, objs, contents)
  {
    hide AllHeld, Space.Available;
    ShrinksRefl(wide);
    AllSurvive(g, img, wide, img', wide, objs, contents);
  }

  /** What remains of a safe device differs only there. */
  lemma LossElsewhere(g: Geometry, d: Moment, s: Space, wide: Space, objs: seq<ObjRef>, contents: seq<seq<byte>>, lost: seq<byte>)
    requires g.Valid() && Safe(g, d, s, wide, objs, contents) && MayRemain(d.cache, lost)
    ensures Elsewhere(wide, d.img, lost)
  {
    hide AllHeld, Space.Available, Touched;
    forall x | 0 <= x < |d.img| && !wide.Available(x)
      ensures lost[x] == d.img[x]
    {
      Unreached(d.cache, lost, x);
      Unreached(d.cache, d.img, x);
    }
  }

  /** What a transaction that reached `mid` leaves: before its commit something that differs from
      `mid` in `wide` only, and afterwards a mixture in the one slot. */
  ghost predicate Leaves(p: Primitives, wide: Space, mid: seq<byte>, next: Uberblock, lost: seq<byte>) {
    |mid| >= DATA_START && (Elsewhere(wide, mid, lost) || SlotMixed(p, mid, next, lost))
  }

  lemma LeavesLength(p: Primitives, wide: Space, mid: seq<byte>, next: Uberblock, lost: seq<byte>)
    requires Leaves(p, wide, mid, next, lost)
    ensures |lost| == |mid| >= DATA_START
  {
    hide Mixed, Slot;
  }

  /** The state of a device that a commit may leave, given what it was before. */
  ghost predicate CommitLeft(p: Primitives, d: Moment, power: Power, next: Uberblock, img': seq<byte>, c': Cache) {
    || (img' == d.img && c' == d.cache)
    || c' == Cache(d.img, [Write(SlotOf(next.txg) * SLOT_SIZE, next.SlotBytes(p))])
    || (c' == Cache(img', []) && |d.img| >= DATA_START && (img' == d.img || img' == AfterCommit(p, d.img, power, next)))
  }

  lemma CommitLeaves(g: Geometry, d: Moment, s: Space, wide: Space, objs: seq<ObjRef>, contents: seq<seq<byte>>, power: Power,
                     next: Uberblock, img': seq<byte>, c': Cache, lost: seq<byte>)
    requires g.Valid() && Safe(g, d, s, wide, objs, contents) && CommitLeft(g.prims, d, power, next, img', c')
    requires MayRemain(c', lost)
    ensures Leaves(g.prims, wide, d.img, next, lost)
  {
    hide AllHeld, Space.Available, Touched, SlotMixed, AfterWrite, Uberblock.SlotBytes, Elsewhere;
    CommitIsMixed(g.prims, d.img, power, next);
    if img' == d.img && c' == d.cache {
      LossElsewhere(g, d, s, wide, objs, contents, lost);
    } else if c' == Cache(img', []) {
      FlushedRemains(img', lost);
    } else {
      LossIsMixed(g.prims, d.img, next, lost);
    }
  }

  /** When everything is flushed nothing is lost. */
  lemma FlushedRemains(img: seq<byte>, lost: seq<byte>)
    requires MayRemain(Cache(img, []), lost)
    ensures lost == img
  {
    var c := Cache(img, []);
    forall x | 0 <= x < |img|
      ensures lost[x] == img[x]
    {
      assert forall i :: !PutAt(c, i, x, lost[x]);
    }
  }

  /** What the next mount finds on it: the old transaction with its objects, or the new one with
      the new objects as well. */
  ghost predicate Recovers(g: Geometry, u: Uberblock, next: Uberblock, wide: Space, objs: seq<ObjRef>, contents: seq<seq<byte>>,
                           s: Space, objs': seq<ObjRef>, contents': seq<seq<byte>>, lost: seq<byte>)
    requires g.Valid()
  {
    && |lost| >= DATA_START && AllHeld(g, lost, wide, objs, contents)
    && (Elect(g.prims, lost) == Some(u) || (Elect(g.prims, lost) == Some(next) && AllHeld(g, lost, s, objs', contents')))
  }

  lemma LossRecovers(g: Geometry, d: Moment, u: Uberblock, next: Uberblock, wide: Space, objs: seq<ObjRef>, contents: seq<seq<byte>>,
                     s: Space, objs': seq<ObjRef>, contents': seq<seq<byte>>, lost: seq<byte>)
    requires g.Valid() && Safe(g, d, s, wide, objs, contents) && AllHeld(g, d.img, s, objs', contents')
    requires Committed(g.prims, d.img, u) && next.txg == u.txg + 1 && Leaves(g.prims, wide, d.img, next, lost)
    requires NoMixup(g.prims, next, Slot(d.img, SlotOf(next.txg)), Slot(lost, SlotOf(next.txg)))
    ensures Recovers(g, u, next, wide, objs, contents, s, objs', contents', lost)
  {
    hide AllHeld, Space.Available, Touched, MayRemain, SlotMixed, NoMixup, Elect, Slot, Uberblock.ClassifySlot;
    if Elsewhere(wide, d.img, lost) {
      HeldElsewhere(g, wide, d.img, lost, objs, contents);
      SlotsElsewhere(wide, d.img, lost);
      CommittedIsElected(g.prims, lost, u);
    } else {
      CommitOrLoss(g.prims, d.img, u, next, lost);
      LeavesLength(g.prims, wide, d.img, next, lost);
      AllSurviveCommit(g, d.img, wide, lost, objs, contents);
      AllSurviveCommit(g, d.img, s, lost, objs', contents');
    }
  }

  lemma SlotsElsewhere(wide: Space, img: seq<byte>, img': seq<byte>)
    requires |img| >= DATA_START && Elsewhere(wide, img, img')
    requires forall x {:trigger wide.Available(x)} :: wide.Available(x) ==> DATA_START <= x
    ensures Slot(img', 0) == Slot(img, 0) && Slot(img', 1) == Slot(img, 1)
  {
    hide Space.Available;
  }

  lemma AllSurviveCommit(g: Geometry, img: seq<byte>, s: Space, img': seq<byte>, objs: seq<ObjRef>, contents: seq<seq<byte>>)
    requires g.Valid() && AllHeld(g, img, s, objs, contents)
    requires |img'| == |img| && forall x :: DATA_START <= x < |img| ==> img'[x] == img[x]
    ensures AllHeld(g, img', s, objs, contents)
  {
    hide Geometry.Holds, Geometry.Kept;
    forall i | 0 <= i < |objs|
      ensures HeldAt(g, img', s, objs[i], contents[i])
    {
      assert HeldAt(g, img, s, objs[i], contents[i]);
      ObjectSurvivesCommit(g, img, s, img', objs[i], contents[i]);
    }
  }

  /** Whatever remains after a commit: what it leaves, and what the next mount finds. */
  ghost predicate Withstands(g: Geometry, u: Uberblock, next: Uberblock, wide: Space, objs: seq<ObjRef>, contents: seq<seq<byte>>,
                          s: Space, objs': seq<ObjRef>, contents': seq<seq<byte>>, mid: seq<byte>, c: Cache)
    requires g.Valid() && |mid| >= DATA_START
  {
    && (forall x {:trigger wide.Available(x)} :: wide.Available(x) ==> DATA_START <= x)
    && forall lost {:trigger MayRemain(c, lost)} :: MayRemain(c, lost) ==>
      && Leaves(g.prims, wide, mid, next, lost) && |lost| == |mid|
      && (NoMixup(g.prims, next, Slot(mid, SlotOf(next.txg)), Slot(lost, SlotOf(next.txg))) ==>
           Recovers(g, u, next, wide, objs, contents, s, objs', contents', lost))
  }

  lemma CommitWithstands(g: Geometry, d: Moment, u: Uberblock, next: Uberblock, wide: Space, objs: seq<ObjRef>, contents: seq<seq<byte>>,
                      s: Space, objs': seq<ObjRef>, contents': seq<seq<byte>>, power: Power, img': seq<byte>, c': Cache)
    requires g.Valid() && Safe(g, d, s, wide, objs, contents) && AllHeld(g, d.img, s, objs', contents')
    requires Committed(g.prims, d.img, u) && next.txg == u.txg + 1 && CommitLeft(g.prims, d, power, next, img', c')
    ensures |d.img| >= DATA_START && Withstands(g, u, next, wide, objs, contents, s, objs', contents', d.img, c')
  {
    hide AllHeld, Safe, MayRemain, CommitLeft, Leaves, NoMixup, Recovers, Slot, Committed, Space.Available;
    SafeHeld(g, d, s, wide, objs, contents);
    forall lost {:trigger MayRemain(c', lost)} | MayRemain(c', lost)
      ensures Leaves(g.prims, wide, d.img, next, lost) && |lost| == |d.img|
      ensures NoMixup(g.prims, next, Slot(d.img, SlotOf(next.txg)), Slot(lost, SlotOf(next.txg))) ==>
                Recovers(g, u, next, wide, objs, contents, s, objs', contents', lost)
    {
      CommitLeaves(g, d, s, wide, objs, contents, power, next, img', c', lost);
      LeavesLength(g.prims, wide, d.img, next, lost);
      if NoMixup(g.prims, next, Slot(d.img, SlotOf(next.txg)), Slot(lost, SlotOf(next.txg))) {
        LossRecovers(g, d, u, next, wide, objs, contents, s, objs', contents', lost);
      }
    }
  }
}
