/**
  What the stub makes of a whole frame, whatever it heard before: each byte lands at its
  address, acknowledgements come at their interval, and the verdict is the checksum's.
*/
module SerialFrame {
  import opened Bytes
  import opened Crc
  import opened SerialStub

  function Bytes8(bytes: seq<bv8>): (rx: seq<Rx>)
    ensures |rx| == |bytes| && forall i :: 0 <= i < |bytes| ==> rx[i] == Byte(bytes[i])
  {
    seq(|bytes|, i requires 0 <= i < |bytes| => Byte(bytes[i]))
  }

  /** The stub fed with bytes and no stall. */
  function Fed(l: Live, bytes: seq<bv8>): (r: Live)
    requires Valid(l.stub)
    ensures Valid(r.stub)
    decreases |bytes|
  {
    if bytes == [] then l else Fed(OnRx(l, Byte(bytes[0])), bytes[1..])
  }

  /** Feeding bytes one by one is what the receive loops do with them. */
  lemma {:induction false} FedRuns(l: Live, bytes: seq<bv8>)
    requires Valid(l.stub)
    ensures RunStub(l, Bytes8(bytes)) == Fed(l, bytes)
    decreases |bytes|
  {
    hide OnRx;
    if bytes != [] {
      assert Bytes8(bytes)[1..] == Bytes8(bytes[1..]);
      FedRuns(OnRx(l, Byte(bytes[0])), bytes[1..]);
    }
  }

  lemma {:induction false} FedJoin(l: Live, a: seq<bv8>, b: seq<bv8>)
    requires Valid(l.stub)
    ensures Fed(l, a + b) == Fed(Fed(l, a), b)
    decreases |a|
  {
    hide OnRx;
    if a == [] {
      assert a + b == b;
    } else {
      assert (a + b)[0] == a[0] && (a + b)[1..] == a[1..] + b;
      FedJoin(OnRx(l, Byte(a[0])), a[1..], b);
    }
  }

  lemma FedOne(l: Live, a: seq<bv8>, b: bv8)
    requires Valid(l.stub)
    ensures Fed(l, a + [b]) == OnRx(Fed(l, a), Byte(b))
  {
    hide OnRx;
    FedJoin(l, a, [b]);
    assert [b][1..] == [];
    assert Fed(Fed(l, a), [b]) == Fed(OnRx(Fed(l, a), Byte(b)), []);
  }

  lemma {:induction false} RunJoin(l: Live, a: seq<Rx>, b: seq<Rx>)
    requires Valid(l.stub)
    ensures RunStub(l, a + b) == RunStub(RunStub(l, a), b)
    decreases |a|
  {
    hide OnRx;
    if a == [] {
      assert a + b == b;
    } else {
      assert (a + b)[0] == a[0] && (a + b)[1..] == a[1..] + b;
      RunJoin(OnRx(l, a[0]), a[1..], b);
    }
  }

  lemma RunOne(l: Live, rx: Rx)
    requires Valid(l.stub)
    ensures RunStub(l, [rx]) == OnRx(l, rx)
  {
    hide OnRx;
    assert [rx][1..] == [];
    assert RunStub(OnRx(l, rx), []) == OnRx(l, rx);
  }

  // ----- the hunt for the magic -----

  /** The last `m` bytes heard are the first `m` of the magic. */
  predicate Ends(heard: seq<bv8>, m: nat)
    requires m <= 4
  {
    var n := |heard|;
    && m <= n
    && (m == 1 ==> heard[n - 1] == MAGIC[0])
    && (m == 2 ==> heard[n - 2] == MAGIC[0] && heard[n - 1] == MAGIC[1])
    && (m == 3 ==> heard[n - 3] == MAGIC[0] && heard[n - 2] == MAGIC[1] && heard[n - 1] == MAGIC[2])
    && (m == 4 ==> heard[n - 4] == MAGIC[0] && heard[n - 3] == MAGIC[1] && heard[n - 2] == MAGIC[2] && heard[n - 1] == MAGIC[3])
  }

  /** The longest proper prefix of the magic that `heard` ends with. */
  function Longest(heard: seq<bv8>): (m: nat)
    ensures m < 4 && Ends(heard, m) && forall k :: m < k < 4 ==> !Ends(heard, k)
  {
    if Ends(heard, 3) then 3 else if Ends(heard, 2) then 2 else if Ends(heard, 1) then 1 else 0
  }

  /** No magic is complete before the last byte heard. */
  ghost predicate NoneBefore(heard: seq<bv8>) {
    forall n :: 0 <= n < |heard| ==> !Ends(heard[..n], 4)
  }

  /**
    The hunt is exact: until a magic is complete the stub is at the longest prefix the line
    ends with, and the byte that completes the first magic ends the hunt.
  */
  lemma {:induction false} HuntExact(l: Live, heard: seq<bv8>)
    requires l.stub == Hunt(0) && NoneBefore(heard)
    ensures Fed(l, heard) == l.(stub := if Ends(heard, 4) then Header([], []) else Hunt(Longest(heard)))
    decreases |heard|
  {
    hide Fed, Ends, Longest, OnRx;
    if heard == [] {
      FedNone(l);
    } else {
      var n := |heard| - 1;
      var before, b := heard[..n], heard[n];
      assert heard == before + [b];
      forall k | 0 <= k < n
        ensures !Ends(before[..k], 4)
      {
        assert before[..k] == heard[..k];
      }
      HuntExact(l, before);
      FedOne(l, before, b);
      HuntByte(before, b);
      OnHunt(l.(stub := Hunt(Longest(before))), b);
    }
  }

  lemma FedNone(l: Live)
    requires Valid(l.stub)
    ensures Fed(l, []) == l
    ensures !Ends([], 4) && Longest([]) == 0
  {
  }

  lemma OnHunt(l: Live, b: bv8)
    requires l.stub.Hunt? && Valid(l.stub)
    ensures var m := l.stub.matched;
      OnRx(l, Byte(b)) ==
        l.(stub := if b != MAGIC[m] then Hunt(if b == MAGIC[0] then 1 else 0) else if m < 3 then Hunt(m + 1) else Header([], []))
  {
  }

  /** One more byte: the next match of the hunt, or the whole magic. */
  lemma HuntByte(before: seq<bv8>, b: bv8)
    ensures var m := Longest(before);
      var heard := before + [b];
      && (Ends(heard, 4) <==> m == 3 && b == MAGIC[3])
      && (!Ends(heard, 4) ==> Longest(heard) == if b == MAGIC[m] then m + 1 else if b == MAGIC[0] then 1 else 0)
  {
    hide Longest;
    var heard := before + [b];
    EndsByte(before, b, 1);
    EndsByte(before, b, 2);
    EndsByte(before, b, 3);
    EndsByte(before, b, 4);
    var m := Longest(before);
    Apart(before);
    assert forall k :: m < k < 4 ==> !Ends(before, k);
    var l := Longest(heard);
    assert forall k :: l < k < 4 ==> !Ends(heard, k);
    assert Ends(heard, l);
  }

  lemma EndsByte(before: seq<bv8>, b: bv8, k: nat)
    requires 1 <= k <= 4
    ensures Ends(before + [b], k) <==> b == MAGIC[k - 1] && Ends(before, k - 1)
  {
  }

  /** The magic's bytes differ, so at most one of its prefixes ends the line. */
  lemma Apart(heard: seq<bv8>)
    ensures !(Ends(heard, 1) && Ends(heard, 2)) && !(Ends(heard, 1) && Ends(heard, 3)) && !(Ends(heard, 2) && Ends(heard, 3))
  {
  }

  // ----- frames -----

  /** A transfer: the header's values and the payload. */
  datatype Transfer = Transfer(load: bv64, length: bv64, x0: bv64, payload: seq<bv8>) {
    function Load(): nat { load as nat }

    function Length(): nat { length as nat }

    function Entry(): nat { x0 as nat }
  }

  /** The header tells the payload's length, and the stub will accept it. */
  ghost predicate Sendable(t: Transfer) {
    |t.payload| == t.Length() && Accepted(t.Load(), t.Length())
  }

  function HeaderBytes(t: Transfer): (bytes: seq<bv8>)
    ensures |bytes| == 4 + HEADER_LEN
  {
    MAGIC + (Pack64(t.load) + (Pack64(t.length) + Pack64(t.x0)))
  }

  /** `n` acknowledgements. */
  function AckRun(n: nat): (bytes: seq<bv8>)
    ensures |bytes| == n && forall i :: 0 <= i < n ==> bytes[i] == ACK
  {
    seq(n, _ => ACK)
  }

  function Stored(mem: Memory, load: nat, i: nat, bytes: seq<bv8>): Memory
    decreases |bytes|
  {
    if bytes == [] then mem else Stored(mem[Address(load, i) := bytes[0]], load, i + 1, bytes[1..])
  }

  lemma MagicFed(l: Live)
    requires Valid(l.stub) && l.stub.Hunt?
    ensures Fed(l, MAGIC) == l.(stub := Header([], []))
  {
    hide OnRx;
    var l1, l2, l3 := l.(stub := Hunt(1)), l.(stub := Hunt(2)), l.(stub := Hunt(3));
    OnHunt(l, MAGIC[0]);
    OnHunt(l1, MAGIC[1]);
    OnHunt(l2, MAGIC[2]);
    OnHunt(l3, MAGIC[3]);
    FedFour(l, MAGIC[0], MAGIC[1], MAGIC[2], MAGIC[3]);
    assert MAGIC == [MAGIC[0], MAGIC[1], MAGIC[2], MAGIC[3]];
  }

  lemma FedFour(l: Live, a: bv8, b: bv8, c: bv8, d: bv8)
    requires Valid(l.stub)
    ensures Fed(l, [a, b, c, d]) == OnRx(OnRx(OnRx(OnRx(l, Byte(a)), Byte(b)), Byte(c)), Byte(d))
  {
    hide OnRx;
    assert [a, b, c, d][1..] == [b, c, d] && [b, c, d][1..] == [c, d] && [c, d][1..] == [d] && [d][1..] == [];
    var l1 := OnRx(l, Byte(a));
    var l2 := OnRx(l1, Byte(b));
    assert Fed(l, [a, b, c, d]) == Fed(l1, [b, c, d]);
    assert Fed(l1, [b, c, d]) == Fed(l2, [c, d]);
    assert Fed(l2, [c, d]) == Fed(OnRx(l2, Byte(c)), [d]);
    assert Fed(OnRx(l2, Byte(c)), [d]) == Fed(OnRx(OnRx(l2, Byte(c)), Byte(d)), []);
  }

  lemma {:induction false} FieldFed(l: Live, bytes: seq<bv8>)
    requires Valid(l.stub) && l.stub.Header? && bytes != [] && |l.stub.got| + |bytes| == 8
    ensures Fed(l, bytes) == HeaderField(l.stub.fields, Some(Unpack64(l.stub.got + bytes)), l.mem, l.out)
    decreases |bytes|
  {
    hide OnRx, Unpack64, HeaderField;
    OnHeader(l, Byte(bytes[0]));
    if |bytes| == 1 {
      assert bytes[1..] == [] && l.stub.got + [bytes[0]] == l.stub.got + bytes;
    } else {
      assert l.stub.got + [bytes[0]] + bytes[1..] == l.stub.got + bytes;
      FieldFed(OnRx(l, Byte(bytes[0])), bytes[1..]);
    }
  }

  /** Whatever was heard before, a header that is acceptable opens its payload. */
  lemma HeaderFed(l: Live, t: Transfer)
    requires Valid(l.stub) && l.stub.Hunt? && Sendable(t)
    ensures Fed(l, HeaderBytes(t)) == l.(stub := Payload(t.Load(), t.Length(), t.Entry(), 0, INIT))
  {
    hide Fed, Pack64, Unpack64, Accepted, HeaderField;
    var a, b, c := Pack64(t.load), Pack64(t.length), Pack64(t.x0);
    var l0 := l.(stub := Header([], []));
    MagicFed(l);
    FedJoin(l, MAGIC, a + (b + c));
    FieldOf(l0, t.load);
    FedJoin(l0, a, b + c);
    var l1 := l.(stub := Header([Some(t.load)], []));
    FieldOf(l1, t.length);
    FedJoin(l1, b, c);
    var l2 := l.(stub := Header([Some(t.load), Some(t.length)], []));
    FieldOf(l2, t.x0);
    FieldsAccepted(l, t);
  }

  lemma FieldsAccepted(l: Live, t: Transfer)
    requires Sendable(t)
    ensures HeaderField([], Some(t.load), l.mem, l.out) == l.(stub := Header([Some(t.load)], []))
    ensures HeaderField([Some(t.load)], Some(t.length), l.mem, l.out) == l.(stub := Header([Some(t.load), Some(t.length)], []))
    ensures HeaderField([Some(t.load), Some(t.length)], Some(t.x0), l.mem, l.out)
         == l.(stub := Payload(t.Load(), t.Length(), t.Entry(), 0, INIT))
  {
    hide Accepted;
    assert [Some(t.load), Some(t.length)] + [Some(t.x0)] == [Some(t.load), Some(t.length), Some(t.x0)];
    assert [Some(t.load)] + [Some(t.length)] == [Some(t.load), Some(t.length)];
  }

  lemma FieldOf(l: Live, v: bv64)
    requires Valid(l.stub) && l.stub.Header? && l.stub.got == []
    ensures Fed(l, Pack64(v)) == HeaderField(l.stub.fields, Some(v), l.mem, l.out)
  {
    hide HeaderField, Fed, Pack64, Unpack64;
    FieldFed(l, Pack64(v));
    UnpackPack64(v);
    assert [] + Pack64(v) == Pack64(v);
  }

  /** How many bytes away from a payload the stub is at least. */
  function Away(s: Stub): int {
    match s
    case Hunt(m) => 28 - m
    case Header(fields, got) => 24 - 8 * |fields| - |got|
    case _ => 0
  }

  lemma {:induction false} StillQuiet(l: Live, bytes: seq<bv8>)
    requires Valid(l.stub) && |bytes| < Away(l.stub)
    ensures Fed(l, bytes).mem == l.mem && Fed(l, bytes).out == l.out
    decreases |bytes|
  {
    hide OnRx;
    if bytes != [] {
      QuietByte(l, bytes[0]);
      StillQuiet(OnRx(l, Byte(bytes[0])), bytes[1..]);
    }
  }

  lemma QuietByte(l: Live, b: bv8)
    requires Valid(l.stub) && 1 < Away(l.stub)
    ensures var r := OnRx(l, Byte(b)); r.mem == l.mem && r.out == l.out && Away(r.stub) >= Away(l.stub) - 1
  {
    hide Unpack64, HeaderDone;
  }

  /** Where a payload of `len` bytes stands after `i` of them. */
  function PayloadAt(t: Transfer, i: nat, crc: bv32): Stub {
    var load, len, x0 := t.Load(), t.Length(), t.Entry();
    if i < len then Payload(load, len, x0, i, crc) else Trailer(load, len, x0, Not(crc), [])
  }

  /** The acknowledgements owed for `i` payload bytes. */
  function Owed(i: nat): nat {
    i / ACK_INTERVAL
  }

  lemma AckStep(i: nat, out: seq<bv8>, k: nat)
    requires Owed(i + 1) <= k
    ensures Owed(i) <= Owed(i + 1)
    ensures out + Acks(i + 1) + AckRun(k - Owed(i + 1)) == out + AckRun(k - Owed(i))
  {
    var n := k - Owed(i + 1);
    if (i + 1) % ACK_INTERVAL == 0 {
      assert Owed(i + 1) == Owed(i) + 1;
      assert [ACK] + AckRun(n) == AckRun(n + 1);
      assert out + [ACK] + AckRun(n) == out + ([ACK] + AckRun(n));
    } else {
      assert Owed(i + 1) == Owed(i);
      assert out + [] == out;
    }
  }

  lemma OwedGrows(i: nat, j: nat)
    requires i <= j
    ensures Owed(i) <= Owed(j)
  {
  }

  lemma PayloadShape(t: Transfer, i: nat, crc: bv32)
    requires Sendable(t) && i < |t.payload|
    ensures PayloadAt(t, i, crc) == Payload(t.Load(), t.Length(), t.Entry(), i, crc) && i < t.Length()
  {
    hide Accepted;
  }

  lemma PayloadByte(l: Live, t: Transfer, i: nat, crc: bv32, b: bv8)
    requires Sendable(t) && i < |t.payload| && l.stub == PayloadAt(t, i, crc)
    ensures Valid(l.stub)
    ensures OnRx(l, Byte(b)) ==
      Live(PayloadAt(t, i + 1, Update(crc, b)), l.mem[Address(t.Load(), i) := b], l.out + Acks(i + 1))
  {
    hide OnRx, Update, Sendable, Address, Acks, Not, Transfer.Load, Transfer.Length, Transfer.Entry;
    PayloadValid(t, i, crc);
    assert PayloadAt(t, i, crc) == Payload(t.Load(), t.Length(), t.Entry(), i, crc) by {
      hide PayloadAt;
      PayloadShape(t, i, crc);
    }
    OnPayload(l, Byte(b));
  }

  lemma PayloadValid(t: Transfer, i: nat, crc: bv32)
    ensures Valid(PayloadAt(t, i, crc))
  {
  }

  lemma {:induction false} PayloadFed(l: Live, t: Transfer, i: nat, crc: bv32, bytes: seq<bv8>)
    requires Sendable(t) && i + |bytes| <= |t.payload| && l.stub == PayloadAt(t, i, crc)
    ensures Valid(l.stub) && Owed(i) <= Owed(i + |bytes|)
    ensures Fed(l, bytes) ==
      Live(PayloadAt(t, i + |bytes|, Feed(crc, bytes)), Stored(l.mem, t.Load(), i, bytes),
           l.out + AckRun(Owed(i + |bytes|) - Owed(i)))
    decreases |bytes|
  {
    hide OnRx, Update, Sendable, Address, Acks, PayloadAt, AckRun, Owed;
    PayloadValid(t, i, crc);
    OwedGrows(i, i + |bytes|);
    if bytes == [] {
      NoAcks(l.out);
    } else {
      PayloadByte(l, t, i, crc, bytes[0]);
      var next := OnRx(l, Byte(bytes[0]));
      PayloadFed(next, t, i + 1, Update(crc, bytes[0]), bytes[1..]);
      AckStep(i, l.out, Owed(i + |bytes|));
    }
  }

  lemma NoAcks(out: seq<bv8>)
    ensures out + AckRun(0) == out
  {
  }

  lemma {:induction false} TrailerFed(l: Live, wire: seq<bv8>)
    requires Valid(l.stub) && l.stub.Trailer? && |l.stub.got| + |wire| <= 4
    ensures |l.stub.got| + |wire| < 4 ==>
      Fed(l, wire) == l.(stub := Trailer(l.stub.load, l.stub.len, l.stub.x0, l.stub.crc, l.stub.got + wire))
    ensures |l.stub.got| + |wire| == 4 ==>
      Fed(l, wire) == Verdict(l.stub.load, l.stub.len, l.stub.x0, l.stub.crc, l.stub.got + wire, l.mem, l.out)
    decreases |wire|
  {
    hide OnRx, Verdict;
    if wire == [] {
      assert l.stub.got + [] == l.stub.got;
    } else {
      OnTrailer(l, Byte(wire[0]));
      assert l.stub.got + [wire[0]] + wire[1..] == l.stub.got + wire;
      if |l.stub.got| + 1 < 4 {
        TrailerFed(OnRx(l, Byte(wire[0])), wire[1..]);
      } else {
        assert wire[1..] == [] && l.stub.got + [wire[0]] == l.stub.got + wire;
      }
    }
  }

  /** What a whole frame leaves, with whatever payload bytes and checksum came over the line. */
  ghost predicate FrameLeaves(l: Live, t: Transfer, received: seq<bv8>, wire: seq<bv8>, r: Live)
    requires |wire| == 4
  {
    var ok := Unpack32(wire) == Crc32(received);
    && r.mem == Stored(l.mem, t.Load(), 0, received)
    && r.out == l.out + AckRun(Owed(|received|)) + [if ok then VERIFIED else MISMATCH]
    && r.stub == if ok then Running(t.Load(), t.Length(), t.Entry()) else Hunt(0)
  }

  lemma FrameBytes(l: Live, t: Transfer, received: seq<bv8>, wire: seq<bv8>)
    requires Valid(l.stub) && l.stub.Hunt? && Sendable(t) && |received| == |t.payload| && |wire| == 4
    ensures FrameLeaves(l, t, received, wire, Fed(l, HeaderBytes(t) + received + wire))
  {
    hide Fed, HeaderBytes, Verdict, FrameLeaves, Stored, AckRun, Sendable, Valid, Feed;
    var h := HeaderBytes(t);
    FedJoin(l, h + received, wire);
    FedJoin(l, h, received);
    BeforeChecksum(l, t, received);
    var full := Fed(Fed(l, h), received);
    PayloadValid(t, |received|, Feed(INIT, received));
    TrailerFed(full, wire);
    assert [] + wire == wire;
    Judged(l, t, received, wire, full);
  }

  /** The payload is all there, and its own checksum with it. */
  lemma BeforeChecksum(l: Live, t: Transfer, received: seq<bv8>)
    requires Valid(l.stub) && l.stub.Hunt? && Sendable(t) && |received| == |t.payload|
    ensures Fed(Fed(l, HeaderBytes(t)), received) ==
      Live(Trailer(t.Load(), t.Length(), t.Entry(), Not(Feed(INIT, received)), []), Stored(l.mem, t.Load(), 0, received),
           l.out + AckRun(Owed(|received|)))
    ensures Valid(Trailer(t.Load(), t.Length(), t.Entry(), Not(Feed(INIT, received)), []))
  {
    hide Fed, Feed, HeaderBytes, Stored, AckRun, Sendable;
    OpensPayload(l, t);
    PayloadFed(Fed(l, HeaderBytes(t)), t, 0, INIT, received);
    ClosesPayload(t, Feed(INIT, received));
  }

  lemma Judged(l: Live, t: Transfer, received: seq<bv8>, wire: seq<bv8>, full: Live)
    requires |wire| == 4 && full.mem == Stored(l.mem, t.Load(), 0, received) && full.out == l.out + AckRun(Owed(|received|))
    ensures FrameLeaves(l, t, received, wire,
              Verdict(t.Load(), t.Length(), t.Entry(), Not(Feed(INIT, received)), wire, full.mem, full.out))
  {
    hide Stored, AckRun, Owed, Unpack32;
  }

  /** The receive loops on a whole frame, whatever was heard before. */
  lemma FrameFed(l: Live, t: Transfer, received: seq<bv8>, wire: seq<bv8>)
    requires Valid(l.stub) && l.stub.Hunt? && Sendable(t) && |received| == |t.payload| && |wire| == 4
    ensures FrameLeaves(l, t, received, wire, RunStub(l, Bytes8(HeaderBytes(t) + received + wire)))
  {
    hide Fed, HeaderBytes, RunStub, Bytes8, FrameLeaves, Sendable, Valid;
    FrameBytes(l, t, received, wire);
    FedRuns(l, HeaderBytes(t) + received + wire);
  }

  lemma OpensPayload(l: Live, t: Transfer)
    requires Valid(l.stub) && l.stub.Hunt? && Sendable(t)
    ensures Fed(l, HeaderBytes(t)) == l.(stub := PayloadAt(t, 0, INIT))
  {
    hide Fed, HeaderBytes, Accepted;
    HeaderFed(l, t);
    Positive(t.Load(), t.Length());
  }

  lemma ClosesPayload(t: Transfer, crc: bv32)
    requires Sendable(t)
    ensures PayloadAt(t, |t.payload|, crc) == Trailer(t.Load(), t.Length(), t.Entry(), Not(crc), [])
  {
    hide Accepted;
  }

  /** The receive loops never answer a payload damaged only within four consecutive bytes as
      verified: they report a mismatch and hunt again. */
  lemma DamageRefused(l: Live, t: Transfer, before: seq<bv8>, w: seq<bv8>, v: seq<bv8>, after: seq<bv8>)
    requires Valid(l.stub) && l.stub.Hunt? && Sendable(t)
    requires t.payload == before + w + after && |v| == |w| <= 4 && v != w
    ensures var r := RunStub(l, Bytes8(HeaderBytes(t) + (before + v + after) + Pack32(Crc32(t.payload))));
      r.stub == Hunt(0) && r.out == l.out + AckRun(Owed(|t.payload|)) + [MISMATCH]
  {
    hide Fed, Crc32, HeaderBytes, Pack32, Unpack32, Stored, Accepted, RunStub;
    FrameFed(l, t, before + v + after, Pack32(Crc32(t.payload)));
    UnpackPack32(Crc32(t.payload));
    if Crc32(before + v + after) == Crc32(t.payload) {
      WindowDetected(before, v, w, after);
    }
  }

  // ----- where the payload lands -----

  /** What address `a` holds after `bytes` were stored. */
  lemma {:induction false} StoredAt(mem: Memory, load: nat, i: nat, bytes: seq<bv8>, a: nat)
    requires load + i + |bytes| <= U64
    ensures var r := Stored(mem, load, i, bytes);
      if load + i <= a < load + i + |bytes| then a in r && r[a] == bytes[a - load - i]
      else (a in r <==> a in mem) && (a in r ==> r[a] == mem[a])
    decreases |bytes|
  {
    if bytes != [] {
      assert Address(load, i) == load + i;
      StoredAt(mem[Address(load, i) := bytes[0]], load, i + 1, bytes[1..], a);
      if a == load + i {
      } else if load + i < a < load + i + |bytes| {
        assert bytes[1..][a - load - (i + 1)] == bytes[a - load - i];
      }
    }
  }

  /**
    The header check keeps payload bytes out of the stub's own home, unless the address range
    wraps around past it: exactly then an accepted payload overwrites the stub.
  */
  lemma GuardHitIff(load: nat, len: nat)
    requires load < U64 && Accepted(load, len)
    ensures (exists i :: 0 <= i < len && STUB_BASE <= Address(load, i) < STUB_BASE + STUB_GUARD_LEN)
       <==> load + len > U64 + STUB_BASE
  {
    if load + len > U64 + STUB_BASE {
      assert Address(load, U64 + STUB_BASE - load) == STUB_BASE;
    } else {
      forall i | 0 <= i < len
        ensures !(STUB_BASE <= Address(load, i) < STUB_BASE + STUB_GUARD_LEN)
      {
        if load + i >= U64 { assert Address(load, i) == load + i - U64; } else { assert Address(load, i) == load + i; }
      }
    }
  }

  /** A header the stub accepts and whose payload runs over the stub: it begins 256 bytes
      below the end of the address space, and its last bytes wrap around to the stub's base
      and beyond. */
  lemma WrapOverwrites()
    ensures var load, len := U64 - 0x100, 0x0400_0200;
      load < U64 && Accepted(load, len)
      && Address(load, 0x100 + STUB_BASE) == STUB_BASE && 0x100 + STUB_BASE < len
  {
    var load, len := U64 - 0x100, 0x0400_0200;
    assert load + len == U64 + 0x0400_0100;
    assert (load + len) % U64 == 0x0400_0100;
    assert load + (0x100 + STUB_BASE) == U64 + STUB_BASE;
  }
}
