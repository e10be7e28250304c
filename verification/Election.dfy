/**
  Commit and mount: which uberblock a mount adopts, and why a commit that is cut at any byte
  leaves either the previous transaction or the new one.
*/
module Election {
  import opened Bytes
  import opened Arith
  import opened Format
  import opened Space
  import opened Device
  import opened BlockTree
  import opened Content

  /** The slot at offset 0 or 4096. */
  function Slot(img: seq<byte>, k: nat): (slot: seq<byte>)
    requires k < 2 && |img| >= DATA_START
    ensures |slot| == SLOT_SIZE
  {
    img[k * SLOT_SIZE..(k + 1) * SLOT_SIZE]
  }

  function SlotOf(txg: nat): (k: nat)
    ensures k < 2
  {
    txg % 2
  }

  /** Mounting prefers a valid slot with a strictly higher transaction number. */
  function Better(best: Option<Uberblock>, state: Result<SlotState>): Option<Uberblock> {
    if state.Ok? && state.value.Valid? && (best.None? || state.value.ub.txg > best.value.txg) then Some(state.value.ub)
    else best
  }

  /** The uberblock a mount adopts, before its parameters are checked. */
  function Elect(p: Primitives, img: seq<byte>): Option<Uberblock>
    requires |img| >= DATA_START
  {
    Better(Better(None, Uberblock.ClassifySlot(p, Slot(img, 0))), Uberblock.ClassifySlot(p, Slot(img, 1)))
  }

  /** The slot holds nothing a mount would prefer to transaction `txg`. */
  predicate NotNewer(p: Primitives, slot: seq<byte>, txg: nat) {
    var state := Uberblock.ClassifySlot(p, slot);
    state.Ok? && state.value.Valid? ==> state.value.ub.txg < txg
  }

  /** The image is at transaction `u.txg`: its slot holds `u`, the other nothing as new. */
  predicate Committed(p: Primitives, img: seq<byte>, u: Uberblock)
    requires |img| >= DATA_START
  {
    && Uberblock.ClassifySlot(p, Slot(img, SlotOf(u.txg))) == Ok(Valid(u))
    && NotNewer(p, Slot(img, 1 - SlotOf(u.txg)), u.txg)
  }

  lemma CommittedIsElected(p: Primitives, img: seq<byte>, u: Uberblock)
    requires |img| >= DATA_START && Committed(p, img, u)
    ensures Elect(p, img) == Some(u)
  {
    hide Uberblock.ClassifySlot;
  }

  // ----- torn slots -----

  /** The first `t` bytes of a new slot over an old one. */
  function Torn(full: seq<byte>, was: seq<byte>, t: nat): (slot: seq<byte>)
    requires |full| == |was| == SLOT_SIZE && t <= SLOT_SIZE
    ensures |slot| == SLOT_SIZE
  {
    full[..t] + was[t..]
  }

  /** The torn slot does not checksum by accident: if it checksums, its body is one that was
      really written. */
  ghost predicate NoAccident(p: Primitives, u: Uberblock, was: seq<byte>, t: nat)
    requires |was| == SLOT_SIZE && t <= SLOT_SIZE
  {
    var slot := Torn(u.SlotBytes(p), was, t);
    p.blake3(slot[0..192]) == slot[192..224] ==> slot[0..192] == u.Body() || slot[0..192] == was[0..192]
  }

  /** Over a slot that checksums, an accident would be a digest collision. */
  lemma NoAccidentOverValid(p: Primitives, u: Uberblock, was: seq<byte>, t: nat)
    requires |was| == SLOT_SIZE && t <= SLOT_SIZE
    requires p.blake3(was[0..192]) == was[192..224]
    requires var body := Torn(u.SlotBytes(p), was, t)[0..192];
             p.blake3(body) == p.blake3(was[0..192]) ==> body == was[0..192]
    ensures NoAccident(p, u, was, t)
  {
    var slot := Torn(u.SlotBytes(p), was, t);
    if t <= 192 {
      assert slot[192..224] == was[192..224];
    } else {
      assert slot[0..192] == u.SlotBytes(p)[0..192] == u.Body();
    }
  }

  /** Over a blank slot, an accident would be a body whose digest is all zeros. */
  lemma NoAccidentOverBlank(p: Primitives, u: Uberblock, t: nat)
    requires t <= SLOT_SIZE
    requires p.blake3(Torn(u.SlotBytes(p), Zeros(SLOT_SIZE), t)[0..192]) != Zeros(32)
             || Torn(u.SlotBytes(p), Zeros(SLOT_SIZE), t)[0..192] == u.Body()
    ensures NoAccident(p, u, Zeros(SLOT_SIZE), t)
  {
    var was := Zeros(SLOT_SIZE);
    var slot := Torn(u.SlotBytes(p), was, t);
    if t <= 192 {
      assert slot[192..224] == Zeros(32);
    } else {
      assert slot[0..192] == u.SlotBytes(p)[0..192] == u.Body();
    }
  }

  /** However many bytes of the new uberblock reach the slot, the slot classifies as it did
      before, as the new uberblock, as remains, or as blank; never as a third uberblock. */
  lemma TornSlot(p: Primitives, u: Uberblock, was: seq<byte>, t: nat)
    requires |was| == SLOT_SIZE && t <= SLOT_SIZE && NoAccident(p, u, was, t)
    ensures var state := Uberblock.ClassifySlot(p, Torn(u.SlotBytes(p), was, t));
            || state == Ok(Valid(u)) || state == Ok(Invalid) || state == Ok(NoMagic)
            || state == Uberblock.ClassifySlot(p, was)
    ensures t == SLOT_SIZE ==> Uberblock.ClassifySlot(p, Torn(u.SlotBytes(p), was, t)) == Ok(Valid(u))
  {
    var full := u.SlotBytes(p);
    var slot := Torn(full, was, t);
    SlotRoundTrip(p, u);
    if t == SLOT_SIZE {
      assert slot == full;
    } else if slot[0..8] == MAGIC && p.blake3(slot[0..192]) == slot[192..224] {
      if t > 192 || slot[0..192] == u.Body() {
        if t > 192 { assert slot[0..192] == full[0..192]; }
        ParseBody(u, slot);
      } else {
        assert slot[192..224] == was[192..224];
        assert slot[0..224] == slot[0..192] + slot[192..224];
        assert was[0..224] == was[0..192] + was[192..224];
        SameClass(p, slot, was);
      }
    }
  }

  lemma SameSlice(a: seq<byte>, b: seq<byte>, i: nat, j: nat)
    requires |a| == |b| == SLOT_SIZE && a[0..224] == b[0..224] && i <= j <= 224
    ensures a[i..j] == b[i..j]
  {
    SliceOfSlice(a, 0, 224, i, j);
    SliceOfSlice(b, 0, 224, i, j);
  }

  /** Only the first 224 bytes of a slot matter. */
  lemma SameClass(p: Primitives, a: seq<byte>, b: seq<byte>)
    requires |a| == |b| == SLOT_SIZE && a[0..224] == b[0..224]
    ensures Uberblock.ClassifySlot(p, a) == Uberblock.ClassifySlot(p, b)
  {
    SameSlice(a, b, 0, 8);
    SameSlice(a, b, 8, 12);
    SameSlice(a, b, 12, 16);
    SameSlice(a, b, 16, 20);
    SameSlice(a, b, 24, 32);
    SameSlice(a, b, 32, 40);
    SameSlice(a, b, 40, 48);
    SameSlice(a, b, 48, 120);
    SameSlice(a, b, 120, 192);
    SameSlice(a, b, 0, 192);
    SameSlice(a, b, 192, 224);
    assert a[20] == a[0..224][20] == b[20];
  }

  // ----- commits -----

  /** Writing slot `k` of an image. */
  lemma WriteSlot(img: seq<byte>, k: nat, bytes: seq<byte>)
    requires k < 2 && |img| >= DATA_START && |bytes| <= SLOT_SIZE
    ensures var img' := Patch(img, k * SLOT_SIZE, bytes);
            && Slot(img', k) == bytes + Slot(img, k)[|bytes|..]
            && Slot(img', 1 - k) == Slot(img, 1 - k)
            && (forall x :: DATA_START <= x < |img| ==> img'[x] == img[x])
  {
  }

  /** No prefix of the new slot checksums by accident over what the slot held. */
  ghost predicate NoAccidents(p: Primitives, u: Uberblock, was: seq<byte>)
    requires |was| == SLOT_SIZE
  {
    forall t {:trigger NoAccident(p, u, was, t)} :: 0 <= t <= SLOT_SIZE ==> NoAccident(p, u, was, t)
  }

  /** Whatever the device does with the write of a slot, some prefix of it arrives. */
  lemma SlotAfterWrite(img: seq<byte>, power: Power, k: nat, bytes: seq<byte>) returns (t: nat)
    requires k < 2 && |img| >= DATA_START && |bytes| == SLOT_SIZE
    ensures t <= SLOT_SIZE
    ensures var (img', power', r) := AfterWrite(img, power, k * SLOT_SIZE, bytes);
            && Slot(img', k) == Torn(bytes, Slot(img, k), t) && Slot(img', 1 - k) == Slot(img, 1 - k)
            && (r.Ok? ==> t == SLOT_SIZE)
            && (forall x :: DATA_START <= x < |img| ==> img'[x] == img[x])
  {
    hide Patch, Slot;
    var (img', power', r) := AfterWrite(img, power, k * SLOT_SIZE, bytes);
    WriteContract(img, power, k * SLOT_SIZE, bytes);
    if img' == img && r.Err? {
      t := 0;
      assert bytes[..0] + Slot(img, k)[0..] == Slot(img, k);
    } else {
      t := if r.Ok? then SLOT_SIZE else Min(power.tear, SLOT_SIZE);
      assert bytes[..SLOT_SIZE] == bytes;
      WriteSlot(img, k, bytes[..t]);
    }
  }

  /** A commit of the next transaction, cut at any byte or not at all: a completed write
      commits it, and after a cut the mount adopts the previous transaction or the new one. */
  lemma CommitOrNothing(p: Primitives, img: seq<byte>, power: Power, prev: Uberblock, u: Uberblock)
    requires |img| >= DATA_START && Committed(p, img, prev) && u.txg == prev.txg + 1
    requires NoAccidents(p, u, Slot(img, SlotOf(u.txg)))
    ensures var (img', power', r) := AfterWrite(img, power, SlotOf(u.txg) * SLOT_SIZE, u.SlotBytes(p));
            && (r.Ok? ==> Committed(p, img', u))
            && ((Committed(p, img', prev) && Elect(p, img') == Some(prev))
                || (Committed(p, img', u) && Elect(p, img') == Some(u)))
            && (forall x :: DATA_START <= x < |img| ==> img'[x] == img[x])
  {
    hide Uberblock.ClassifySlot, NoAccident, Slot, Torn, AfterWrite, Uberblock.SlotBytes, Elect;
    var k := SlotOf(u.txg);
    assert k == 1 - SlotOf(prev.txg);
    var (img', power', r) := AfterWrite(img, power, k * SLOT_SIZE, u.SlotBytes(p));
    var t := SlotAfterWrite(img, power, k, u.SlotBytes(p));
    assert NoAccident(p, u, Slot(img, k), t);
    TornSlot(p, u, Slot(img, k), t);
    if Uberblock.ClassifySlot(p, Slot(img', k)) == Ok(Valid(u)) {
      CommittedIsElected(p, img', u);
    } else {
      CommittedIsElected(p, img', prev);
    }
  }

  /** The image the single write of a commit leaves, whatever the device does with it. */
  function AfterCommit(p: Primitives, img: seq<byte>, power: Power, u: Uberblock): seq<byte> {
    AfterWrite(img, power, SlotOf(u.txg) * SLOT_SIZE, u.SlotBytes(p)).0
  }

  lemma CommittedIsElectedIf(p: Primitives, img: seq<byte>, u: Uberblock)
    requires |img| >= DATA_START
    ensures Committed(p, img, u) ==> Elect(p, img) == Some(u)
  {
    if Committed(p, img, u) { CommittedIsElected(p, img, u); }
  }

  /** Everything a commit's single write guarantees, whatever the slots held before. */
  lemma CommitWrite(p: Primitives, img: seq<byte>, power: Power, prev: Uberblock, u: Uberblock)
    requires |img| >= DATA_START
    ensures var (img', power', r) := AfterWrite(img, power, SlotOf(u.txg) * SLOT_SIZE, u.SlotBytes(p));
            && (r.Ok? && NotNewer(p, Slot(img, 1 - SlotOf(u.txg)), u.txg) ==> Committed(p, img', u))
            && (r.Ok? ==> power'.dead == power.dead)
            && (r.Err? ==> r.error == Device(Io) && power'.dead)
            && (Committed(p, img, prev) && u.txg == prev.txg + 1 && NoAccidents(p, u, Slot(img, SlotOf(u.txg))) ==>
                 Committed(p, img', prev) || Committed(p, img', u))
            && (forall x :: DATA_START <= x < |img| ==> img'[x] == img[x])
  {
    hide Uberblock.ClassifySlot, NoAccident, NoAccidents, Slot, AfterWrite, Uberblock.SlotBytes, Elect, Patch;
    var k := SlotOf(u.txg);
    WriteContract(img, power, k * SLOT_SIZE, u.SlotBytes(p));
    var t := SlotAfterWrite(img, power, k, u.SlotBytes(p));
    if Committed(p, img, prev) && u.txg == prev.txg + 1 && NoAccidents(p, u, Slot(img, k)) {
      CommitOrNothing(p, img, power, prev, u);
    }
    var (img', power', r) := AfterWrite(img, power, k * SLOT_SIZE, u.SlotBytes(p));
    if r.Ok? {
      SlotRoundTrip(p, u);
      assert Torn(u.SlotBytes(p), Slot(img, k), SLOT_SIZE) == u.SlotBytes(p);
    }
  }

  // ----- commits on a device that loses what was not flushed -----

  /** Each byte is the new one, or the one there was. */
  ghost predicate Mixed(full: seq<byte>, was: seq<byte>, slot: seq<byte>) {
    |slot| == |full| == |was| && forall i :: 0 <= i < |slot| ==> slot[i] == full[i] || slot[i] == was[i]
  }

  /** The slot does not checksum by accident: if it checksums, it is the new one or what there was. */
  ghost predicate NoMixup(p: Primitives, u: Uberblock, was: seq<byte>, slot: seq<byte>)
    requires |was| == |slot| == SLOT_SIZE
  {
    p.blake3(slot[0..192]) == slot[192..224] ==> slot[0..192] == u.Body() || slot[0..224] == was[0..224]
  }

  /** For what tearing leaves it is enough that no torn prefix checksums by accident. */
  lemma TornIsMixed(p: Primitives, u: Uberblock, was: seq<byte>, t: nat)
    requires |was| == SLOT_SIZE && t <= SLOT_SIZE
    ensures Mixed(u.SlotBytes(p), was, Torn(u.SlotBytes(p), was, t))
    ensures NoAccident(p, u, was, t) ==> NoMixup(p, u, was, Torn(u.SlotBytes(p), was, t))
  {
    hide Uberblock.Body;
    var slot := Torn(u.SlotBytes(p), was, t);
    if t > 192 {
      assert slot[0..192] == u.SlotBytes(p)[0..192] == u.Body();
    } else {
      assert slot[192..224] == was[192..224];
      assert slot[0..224] == slot[0..192] + slot[192..224] && was[0..224] == was[0..192] + was[192..224];
    }
  }

  /** Whichever of its bytes reach the slot, the slot classifies as it did before, as the new
      uberblock, as remains, or as blank. */
  lemma MixedSlot(p: Primitives, u: Uberblock, was: seq<byte>, slot: seq<byte>)
    requires |was| == |slot| == SLOT_SIZE && NoMixup(p, u, was, slot)
    ensures var state := Uberblock.ClassifySlot(p, slot);
            || state == Ok(Valid(u)) || state == Ok(Invalid) || state == Ok(NoMagic)
            || state == Uberblock.ClassifySlot(p, was)
  {
    hide Uberblock.Body, Uberblock.Parse;
    if slot[0..8] == MAGIC && p.blake3(slot[0..192]) == slot[192..224] {
      if slot[0..192] == u.Body() { ParseBody(u, slot); } else { SameClass(p, slot, was); }
    }
  }

  /** The image that writing the slot of `u` leaves when any of its bytes may be lost. */
  ghost predicate SlotMixed(p: Primitives, img: seq<byte>, u: Uberblock, img': seq<byte>)
    requires |img| >= DATA_START
  {
    var k := SlotOf(u.txg);
    && |img'| == |img|
    && (forall x :: 0 <= x < |img| && !(k * SLOT_SIZE <= x < (k + 1) * SLOT_SIZE) ==> img'[x] == img[x])
    && Mixed(u.SlotBytes(p), Slot(img, k), Slot(img', k))
  }

  /** The slot as it is, and the slot after the simulator's write, are such images. */
  lemma CommitIsMixed(p: Primitives, img: seq<byte>, power: Power, u: Uberblock)
    requires |img| >= DATA_START
    ensures SlotMixed(p, img, u, img)
    ensures SlotMixed(p, img, u, AfterCommit(p, img, power, u))
    ensures NoAccidents(p, u, Slot(img, SlotOf(u.txg))) ==>
              NoMixup(p, u, Slot(img, SlotOf(u.txg)), Slot(AfterCommit(p, img, power, u), SlotOf(u.txg)))
  {
    hide Uberblock.SlotBytes, AfterWrite, NoAccident, NoMixup, Torn, Mixed;
    var k := SlotOf(u.txg);
    WriteContract(img, power, k * SLOT_SIZE, u.SlotBytes(p));
    var t := SlotAfterWrite(img, power, k, u.SlotBytes(p));
    TornIsMixed(p, u, Slot(img, k), t);
    assert Mixed(u.SlotBytes(p), Slot(img, k), Slot(img, k)) by { MixedNothing(u.SlotBytes(p), Slot(img, k)); }
    if NoAccidents(p, u, Slot(img, k)) { assert NoAccident(p, u, Slot(img, k), t); }
  }

  lemma MixedNothing(full: seq<byte>, was: seq<byte>)
    requires |full| == |was|
    ensures Mixed(full, was, was)
  {
  }

  /** So is what remains when the write of the slot alone was not flushed. */
  lemma LossIsMixed(p: Primitives, img: seq<byte>, u: Uberblock, img': seq<byte>)
    requires |img| >= DATA_START
    requires MayRemain(Cache(img, [Write(SlotOf(u.txg) * SLOT_SIZE, u.SlotBytes(p))]), img')
    ensures SlotMixed(p, img, u, img')
  {
    hide Uberblock.SlotBytes;
    var k, bytes := SlotOf(u.txg), u.SlotBytes(p);
    var c := Cache(img, [Write(k * SLOT_SIZE, bytes)]);
    forall x | 0 <= x < |img|
      ensures img'[x] == img[x] || (k * SLOT_SIZE <= x < (k + 1) * SLOT_SIZE && img'[x] == bytes[x - k * SLOT_SIZE])
    {
      if img'[x] != c.durable[x] { var i :| PutAt(c, i, x, img'[x]); }
    }
  }

  /** A commit of which any bytes were lost: the mount adopts the previous transaction or the
      new one, and all data is untouched. */
  lemma CommitOrLoss(p: Primitives, img: seq<byte>, prev: Uberblock, u: Uberblock, img': seq<byte>)
    requires |img| >= DATA_START && Committed(p, img, prev) && u.txg == prev.txg + 1 && SlotMixed(p, img, u, img')
    requires NoMixup(p, u, Slot(img, SlotOf(u.txg)), Slot(img', SlotOf(u.txg)))
    ensures (Committed(p, img', prev) && Elect(p, img') == Some(prev)) || (Committed(p, img', u) && Elect(p, img') == Some(u))
    ensures forall x :: DATA_START <= x < |img| ==> img'[x] == img[x]
  {
    hide Uberblock.ClassifySlot, NoMixup, Mixed, Uberblock.SlotBytes, Elect;
    var k := SlotOf(u.txg);
    assert k == 1 - SlotOf(prev.txg);
    assert Slot(img', 1 - k) == Slot(img, 1 - k);
    MixedSlot(p, u, Slot(img, k), Slot(img', k));
    if Uberblock.ClassifySlot(p, Slot(img', k)) == Ok(Valid(u)) {
      CommittedIsElected(p, img', u);
    } else {
      CommittedIsElected(p, img', prev);
    }
  }

  // ----- what commits leave alone -----

  /** The allocator's space with the slots added to what may change. */
  function SlotsToo(s: Space): Space {
    s.(free := [Extent(0, DATA_START)] + s.free)
  }

  lemma SlotsTooAvailable(s: Space, x: int)
    ensures SlotsToo(s).Available(x) <==> s.Available(x) || 0 <= x < DATA_START
  {
    var s' := SlotsToo(s);
    if s.Available(x) && !(s.frontier <= x < s.deviceSize) {
      var i :| Covers(s.free, i, x);
      assert Covers(s'.free, i + 1, x);
    }
    if 0 <= x < DATA_START {
      assert Covers(s'.free, 0, x);
    }
    if s'.Available(x) && !(s.frontier <= x < s.deviceSize) {
      var i :| Covers(s'.free, i, x);
      if i > 0 { assert Covers(s.free, i - 1, x); }
    }
  }

  /** Both uberblock slots may be overwritten without touching any object. */
  lemma ObjectSurvivesCommit(g: Geometry, img: seq<byte>, s: Space, img': seq<byte>, obj: ObjRef, c: seq<byte>)
    requires g.Valid() && g.Holds(img, obj, c) && g.Kept(s, img, obj)
    requires |img'| == |img| && forall x :: DATA_START <= x < |img| ==> img'[x] == img[x]
    ensures g.Holds(img', obj, c) && g.Kept(s, img', obj)
  {
    hide Geometry.ReadBlock, Geometry.Flatten, Geometry.LeavesHold, SlotsToo, Geometry.DistinctAddrs;
    var s' := SlotsToo(s);
    forall x ensures s'.Available(x) <==> s.Available(x) || 0 <= x < DATA_START {
      SlotsTooAvailable(s, x);
    }
    RetainedWithSlots(g, s, s', g.Leaves(img, obj));
    if obj.size > 0 {
      RetainedWithSlots(g, s, s', g.Flatten(img, obj.root, obj.level).value.indirect);
    }
    assert g.Kept(s', img, obj);
    ShrinksRefl(s');
    assert Evolves(img, s', img', s');
    ObjectSurvives(g, img, s', img', s', obj, c);
    RetainedWithSlots(g, s, s', g.Leaves(img', obj));
    if obj.size > 0 {
      RetainedWithSlots(g, s, s', g.Flatten(img', obj.root, obj.level).value.indirect);
    }
  }

  lemma RetainedWithSlots(g: Geometry, s: Space, s': Space, ptrs: seq<BlockPtr>)
    requires forall x :: s'.Available(x) <==> s.Available(x) || 0 <= x < DATA_START
    ensures g.AllRetained(s, ptrs) <==> g.AllRetained(s', ptrs)
  {
    hide Space.Available;
    forall i | 0 <= i < |ptrs| ensures g.Retained(s, ptrs[i]) <==> g.Retained(s', ptrs[i]) {
    }
  }
}
