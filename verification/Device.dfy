/**
  Block devices: a RAM image, and the power-cut simulator wrapped around one.

  `Power` and `AfterWrite` say what one write does to an image and to the simulator; the
  classes `MemDevice` and `CutDevice` do the same in place. A `CutDevice` whose `remaining`
  is `None` never cuts and behaves as the RAM device it wraps.
*/
module Device {
  import opened Bytes
  import opened Format

  predicate InRange(size: nat, offset: nat, len: nat) {
    offset + len <= size
  }

  /** Reading `len` bytes at `offset` of an image. */
  function ReadImage(img: seq<byte>, offset: nat, len: nat): Result<seq<byte>> {
    if InRange(|img|, offset, len) then Ok(img[offset..offset + len]) else Err(Device(OutOfRange))
  }

  /** Writing `data` at `offset` of a RAM image. */
  function WriteImage(img: seq<byte>, offset: nat, data: seq<byte>): (r: (seq<byte>, Result<()>))
    ensures |r.0| == |img|
  {
    if InRange(|img|, offset, |data|) then (Patch(img, offset, data), Ok(())) else (img, Err(Device(OutOfRange)))
  }

  /** The simulator's own state: full writes still allowed, how much of the cut write is
      applied, and whether the power is out. */
  datatype Power = Power(remaining: Option<nat>, tear: nat, dead: bool)

  function AfterWrite(img: seq<byte>, p: Power, offset: nat, data: seq<byte>): (r: (seq<byte>, Power, Result<()>))
    ensures |r.0| == |img|
  {
    if p.dead then
      (img, p, Err(Device(Io)))
    else if p.remaining == Some(0) then
      var torn := Min(p.tear, |data|);
      var (img', inner) := if torn > 0 then WriteImage(img, offset, data[..torn]) else (img, Ok(()));
      (img', p.(dead := true), if inner.Err? then inner else Err(Device(Io)))
    else
      var left := if p.remaining.Some? then Some(p.remaining.value - 1) else None;
      var (img', inner) := WriteImage(img, offset, data);
      (img', p.(remaining := left), inner)
  }

  /** The device contract the file system relies on: a write that succeeds was applied in
      full; one that fails wrote a prefix or nothing and, in range, means the power is out;
      no byte outside the written range ever changes. */
  lemma WriteContract(img: seq<byte>, p: Power, offset: nat, data: seq<byte>)
    ensures var (img', p', r) := AfterWrite(img, p, offset, data);
            && (r.Ok? ==> InRange(|img|, offset, |data|) && img' == Patch(img, offset, data)
                          && !p.dead && p'.dead == p.dead && p.remaining != Some(0))
            && (r.Err? && InRange(|img|, offset, |data|) ==> r.error == Device(Io) && p'.dead)
            && (r.Err? ==> img' == img || (InRange(|img|, offset, Min(p.tear, |data|))
                            && img' == Patch(img, offset, data[..Min(p.tear, |data|)])))
            && (forall i :: 0 <= i < |img| && !(offset <= i < offset + |data|) ==> img'[i] == img[i])
  {
  }

  /** The power never comes back, and a device that never cuts stays as it is. */
  ghost predicate PowerStep(p: Power, p': Power) {
    (p.dead ==> p'.dead) && (p.remaining == None ==> p' == p)
  }

  // ----- what is durable -----

  datatype Write = Write(at: nat, bytes: seq<byte>)

  /** The image as the last flush made it durable, and the writes since. */
  datatype Cache = Cache(durable: seq<byte>, writes: seq<Write>)

  /** Some write since the last flush put `b` at `x`. */
  ghost predicate PutAt(c: Cache, i: int, x: int, b: byte) {
    0 <= i < |c.writes| && Reaches(c.writes[i], x) && c.writes[i].bytes[x - c.writes[i].at] == b
  }

  predicate Reaches(w: Write, x: int) {
    w.at <= x < w.at + |w.bytes|
  }

  /** Some write since the last flush may have changed byte `x`. */
  ghost predicate Touched(c: Cache, x: int) {
    exists w :: w in c.writes && Reaches(w, x)
  }

  /** An image that losing power may leave: writes since the last flush may be lost, torn
      anywhere, and done in any order. */
  ghost predicate MayRemain(c: Cache, img: seq<byte>) {
    |img| == |c.durable| && forall x :: 0 <= x < |img| ==> img[x] == c.durable[x] || exists i :: PutAt(c, i, x, img[x])
  }

  /** An image, the simulator's state, and what is durable. */
  datatype Moment = Moment(img: seq<byte>, power: Power, cache: Cache)

  /** What a write adds: nothing once the power is out. */
  function Noted(c: Cache, p: Power, offset: nat, data: seq<byte>): Cache {
    if p.dead then c else c.(writes := c.writes + [Write(offset, data)])
  }

  /** What no write has reached is durable. */
  lemma Unreached(c: Cache, img: seq<byte>, x: int)
    requires MayRemain(c, img) && 0 <= x < |img|
    ensures Touched(c, x) || img[x] == c.durable[x]
  {
    if img[x] != c.durable[x] {
      var i :| PutAt(c, i, x, img[x]);
      assert c.writes[i] in c.writes;
    }
  }

  lemma NotedTouches(c: Cache, p: Power, offset: nat, data: seq<byte>, x: int)
    ensures Touched(Noted(c, p, offset, data), x) <==> Touched(c, x) || (!p.dead && Reaches(Write(offset, data), x))
  {
    if !p.dead {
      var w := Write(offset, data);
      assert Noted(c, p, offset, data).writes[|c.writes|] == w;
      if Touched(c, x) {
        var v :| v in c.writes && Reaches(v, x);
        assert v in Noted(c, p, offset, data).writes;
      }
    }
  }

  /** The image itself is one that may remain, and stays one. */
  lemma NotedRemains(c: Cache, img: seq<byte>, p: Power, offset: nat, data: seq<byte>)
    requires MayRemain(c, img)
    ensures MayRemain(Noted(c, p, offset, data), AfterWrite(img, p, offset, data).0)
  {
    hide AfterWrite;
    var img', c' := AfterWrite(img, p, offset, data).0, Noted(c, p, offset, data);
    forall x | 0 <= x < |img'|
      ensures img'[x] == c'.durable[x] || exists i :: PutAt(c', i, x, img'[x])
    {
      WrittenByte(img, p, offset, data, x);
      if img'[x] == img[x] {
        if img[x] != c.durable[x] {
          var i :| PutAt(c, i, x, img[x]);
          assert PutAt(c', i, x, img'[x]);
        }
      } else {
        assert PutAt(c', |c.writes|, x, img'[x]);
      }
    }
  }

  lemma WrittenByte(img: seq<byte>, p: Power, offset: nat, data: seq<byte>, x: nat)
    requires x < |img|
    ensures var img' := AfterWrite(img, p, offset, data).0;
      img'[x] == img[x] || (!p.dead && offset <= x < offset + |data| && img'[x] == data[x - offset])
  {
  }

  class MemDevice {
    const data: array<byte>

    ghost function Image(): seq<byte>
      reads data
    {
      data[..]
    }

    /** A zero-filled device of `size` bytes. */
    constructor (size: u64)
      ensures fresh(data) && Image() == Zeros(size)
    {
      data := new byte[size](_ => 0);
    }

    /** Wrap an existing image. */
    constructor FromVec(image: seq<byte>)
      ensures fresh(data) && Image() == image
    {
      data := new byte[|image|](i requires 0 <= i < |image| => image[i]);
    }

    method ReadAt(offset: nat, len: nat) returns (r: Result<seq<byte>>)
      ensures r == ReadImage(Image(), offset, len)
    {
      if offset + len > data.Length {
        return Err(Device(OutOfRange));
      }
      return Ok(data[offset..offset + len]);
    }

    method WriteAt(offset: nat, bytes: seq<byte>) returns (r: Result<()>)
      modifies data
      ensures (Image(), r) == WriteImage(old(Image()), offset, bytes)
    {
      if offset + |bytes| > data.Length {
        return Err(Device(OutOfRange));
      }
      Put(data, offset, bytes);
      return Ok(());
    }
  }

  class CutDevice {
    const inner: MemDevice
    const tear: nat
    var remaining: Option<nat>
    var dead: bool
    var writes: nat
    /** What is durable of the image. */
    ghost var cache: Cache

    ghost function Image(): seq<byte>
      reads inner.data
    {
      inner.Image()
    }

    ghost function State(): Power
      reads this
    {
      Power(remaining, tear, dead)
    }

    ghost function Now(): Moment
      reads this, inner.data
    {
      Moment(Image(), State(), cache)
    }

    /** A wrapper that never cuts. */
    constructor Unlimited(inner: MemDevice)
      ensures this.inner == inner && State() == Power(None, 0, false) && writes == 0 && cache == Cache(Image(), [])
    {
      this.inner, this.tear, this.remaining, this.dead, this.writes := inner, 0, None, false, 0;
      this.cache := Cache(inner.Image(), []);
    }

    /** Cut the power during write number `allowed`, applying its first `tear` bytes. */
    constructor CutAfter(inner: MemDevice, allowed: nat, tear: nat)
      ensures this.inner == inner && State() == Power(Some(allowed), tear, false) && writes == 0 && cache == Cache(Image(), [])
    {
      this.inner, this.tear, this.remaining, this.dead, this.writes := inner, tear, Some(allowed), false, 0;
      this.cache := Cache(inner.Image(), []);
    }

    method WriteAt(offset: nat, bytes: seq<byte>) returns (r: Result<()>)
      modifies this, inner.data
      ensures (Image(), State(), r) == AfterWrite(old(Image()), old(State()), offset, bytes)
      ensures writes == old(writes) + (if r.Ok? then 1 else 0)
      ensures cache == old(Noted(cache, State(), offset, bytes))
    {
      cache := Noted(cache, State(), offset, bytes);
      if dead {
        return Err(Device(Io));
      }
      if remaining.Some? {
        if remaining.value == 0 {
          dead := true;
          var torn := Min(tear, |bytes|);
          if torn > 0 {
            r := inner.WriteAt(offset, bytes[..torn]);
            if r.Err? {
              return;
            }
          }
          return Err(Device(Io));
        }
        remaining := Some(remaining.value - 1);
      }
      r := inner.WriteAt(offset, bytes);
      if r.Err? {
        return;
      }
      writes := writes + 1;
    }

    /** Makes every completed write durable. */
    method Flush() returns (r: Result<()>)
      modifies this`cache
      ensures r == if dead then Err(Device(Io)) else Ok(())
      ensures cache == if dead then old(cache) else Cache(Image(), [])
    {
      if dead {
        return Err(Device(Io));
      }
      cache := Cache(Image(), []);
      return Ok(());
    }
  }
}
