/**
  The serial protocol as the line shows it, in bytes and numbers alone: what the sender writes,
  which headers are accepted, and what the stub answers to a whole or a broken-off frame.
*/
module SerialWire {
  import opened Bytes
  import opened Crc
  import opened SerialStub
  import opened SerialFrame
  import opened SerialLink

  // ----- little-endian fields -----

  /** The number that the bytes stand for, the first one the least. */
  function LittleEndian(b: seq<bv8>): bv64 {
    if b == [] then 0 else Under(b[0], LittleEndian(b[1..]))
  }

  function Under(least: bv8, rest: bv64): bv64 {
    (least as bv64) | (rest << 8)
  }

  function Flat(a: bv8, b: bv8, c: bv8, d: bv8, e: bv8, f: bv8, g: bv8, h: bv8): bv64 {
    (a as bv64) | ((b as bv64) << 8) | ((c as bv64) << 16) | ((d as bv64) << 24)
    | ((e as bv64) << 32) | ((f as bv64) << 40) | ((g as bv64) << 48) | ((h as bv64) << 56)
  }

  lemma FlatIs(a: bv8, b: bv8, c: bv8, d: bv8, e: bv8, f: bv8, g: bv8, h: bv8)
    ensures Under(a, Under(b, Under(c, Under(d, Under(e, Under(f, Under(g, Under(h, 0)))))))) == Flat(a, b, c, d, e, f, g, h)
  {
  }

  lemma LittleEndianStep(b: seq<bv8>, rest: seq<bv8>)
    requires b != [] && b[1..] == rest
    ensures LittleEndian(b) == Under(b[0], LittleEndian(rest))
  {
  }

  /** What eight bytes of a header say. */
  lemma FieldIs(b: seq<bv8>)
    requires |b| == 8
    ensures LittleEndian(b) == Unpack64(b)
  {
    assert Unpack64(b) == Flat(b[0], b[1], b[2], b[3], b[4], b[5], b[6], b[7]);
    hide Flat, Unpack64, Under, LittleEndian;
    FlatIs(b[0], b[1], b[2], b[3], b[4], b[5], b[6], b[7]);
    EightSteps(b);
  }

  lemma EightSteps(b: seq<bv8>)
    requires |b| == 8
    ensures LittleEndian(b) ==
      Under(b[0], Under(b[1], Under(b[2], Under(b[3], Under(b[4], Under(b[5], Under(b[6], Under(b[7], 0))))))))
  {
    hide Under;
    assert LittleEndian(b[8..]) == 0;
    hide LittleEndian;
    LittleEndianStep(b[7..], b[8..]);
    LittleEndianStep(b[6..], b[7..]);
    LittleEndianStep(b[5..], b[6..]);
    LittleEndianStep(b[4..], b[5..]);
    LittleEndianStep(b[3..], b[4..]);
    LittleEndianStep(b[2..], b[3..]);
    LittleEndianStep(b[1..], b[2..]);
    LittleEndianStep(b, b[1..]);
  }

  function Flat32(a: bv8, b: bv8, c: bv8, d: bv8): bv32 {
    (a as bv32) | ((b as bv32) << 8) | ((c as bv32) << 16) | ((d as bv32) << 24)
  }

  lemma Flat32Is(a: bv8, b: bv8, c: bv8, d: bv8)
    ensures Under(a, Under(b, Under(c, Under(d, 0)))) == Wide(Flat32(a, b, c, d))
  {
  }

  function Wide(c: bv32): bv64 { c as bv64 }

  /** What the four bytes of a checksum say. */
  lemma ChecksumIs(b: seq<bv8>)
    requires |b| == 4
    ensures LittleEndian(b) == Wide(Unpack32(b))
  {
    assert Unpack32(b) == Flat32(b[0], b[1], b[2], b[3]);
    hide Flat32, Unpack32, Under, Wide;
    Flat32Is(b[0], b[1], b[2], b[3]);
    assert LittleEndian(b[4..]) == 0;
    hide LittleEndian;
    LittleEndianStep(b[3..], b[4..]);
    LittleEndianStep(b[2..], b[3..]);
    LittleEndianStep(b[1..], b[2..]);
    LittleEndianStep(b, b[1..]);
  }

  lemma PackUnpack64(b: seq<bv8>)
    requires |b| == 8
    ensures Pack64(Unpack64(b)) == b
  {
    assert b == [b[0], b[1], b[2], b[3], b[4], b[5], b[6], b[7]];
    PackUnpack(b[0], b[1], b[2], b[3], b[4], b[5], b[6], b[7]);
  }

  lemma PackUnpack(a: bv8, b: bv8, c: bv8, d: bv8, e: bv8, f: bv8, g: bv8, h: bv8)
    ensures Pack64(Unpack64([a, b, c, d, e, f, g, h])) == [a, b, c, d, e, f, g, h]
  {
  }

  lemma SameChecksum(b: seq<bv8>, crc: bv32)
    requires |b| == 4
    ensures Unpack32(b) == crc <==> LittleEndian(b) == Wide(crc)
  {
    hide Unpack32, LittleEndian, Wide;
    ChecksumIs(b);
    Widened(Unpack32(b), crc);
  }

  lemma Widened(a: bv32, b: bv32)
    ensures a == b <==> Wide(a) == Wide(b)
  {
  }

  // ----- what the sender writes -----

  /** The frame: the magic, three fields of eight bytes, the payload, and its checksum. */
  lemma StreamOnWire(t: Transfer)
    ensures var s, n := Stream(t), |t.payload|;
      && |s| == 32 + n && s[..4] == [0x45, 0x4F, 0x39, 0x4C]
      && LittleEndian(s[4..12]) == t.load && LittleEndian(s[12..20]) == t.length && LittleEndian(s[20..28]) == t.x0
      && s[28..28 + n] == t.payload && LittleEndian(s[28 + n..]) == Wide(Crc32(t.payload))
  {
    hide Pack64, Unpack64, Pack32, Unpack32, Crc32, LittleEndian, Wide;
    var s, n := Stream(t), |t.payload|;
    StreamParts(t, 0, n);
    HeaderParts(t);
    SubHeader(s, HeaderBytes(t));
    FieldIs(Pack64(t.load));
    FieldIs(Pack64(t.length));
    FieldIs(Pack64(t.x0));
    UnpackPack64(t.load);
    UnpackPack64(t.length);
    UnpackPack64(t.x0);
    ChecksumIs(Pack32(Crc32(t.payload)));
    UnpackPack32(Crc32(t.payload));
  }

  lemma HeaderParts(t: Transfer)
    ensures var h := HeaderBytes(t);
      h[..4] == [0x45, 0x4F, 0x39, 0x4C] && h[4..12] == Pack64(t.load) && h[12..20] == Pack64(t.length) && h[20..28] == Pack64(t.x0)
  {
    hide Pack64;
  }

  lemma SubHeader(s: seq<bv8>, h: seq<bv8>)
    requires |s| >= 28 == |h| && s[0..28] == h
    ensures s[..4] == h[..4] && s[4..12] == h[4..12] && s[12..20] == h[12..20] && s[20..28] == h[20..28]
  {
    assert s[0..28][..4] == s[..4] && s[0..28][4..12] == s[4..12] && s[0..28][12..20] == s[12..20] && s[0..28][20..28] == s[20..28];
  }

  // ----- which headers are accepted -----

  /** A header as the stub hears it. */
  ghost predicate IsHeader(h: seq<bv8>) {
    |h| == 28 && h[..4] == [0x45, 0x4F, 0x39, 0x4C]
  }

  function LoadOf(h: seq<bv8>): nat
    requires |h| >= 28
  {
    LittleEndian(h[4..12]) as nat
  }

  function LengthOf(h: seq<bv8>): nat
    requires |h| >= 28
  {
    LittleEndian(h[12..20]) as nat
  }

  function EntryOf(h: seq<bv8>): nat
    requires |h| >= 28
  {
    LittleEndian(h[20..28]) as nat
  }

  /** One byte to a gibibyte, whose end, as the stub computes it, is not past the stub's base
      unless its beginning is past the stub's home. */
  predicate Welcome(load: nat, len: nat) {
    0 < len <= 0x4000_0000 && (load >= 0x0401_0000 || (load + len) % 0x1_0000_0000_0000_0000 <= 0x0400_0000)
  }

  /** Whatever a stub that hunts has heard before, it opens the payload of a header that is
      welcome, and answers any other with a mismatch and hunts again. */
  lemma HeaderJudged(l: Live, h: seq<bv8>)
    requires Valid(l.stub) && l.stub.Hunt? && IsHeader(h)
    ensures var r := RunStub(l, Bytes8(h));
      r.mem == l.mem &&
      if Welcome(LoadOf(h), LengthOf(h)) then
        r.out == l.out && r.stub == Payload(LoadOf(h), LengthOf(h), EntryOf(h), 0, 0xFFFF_FFFF)
      else r.out == l.out + [0x45] && r.stub == Hunt(0)
  {
    hide Fed, Unpack64, RunStub, LittleEndian, HeaderField;
    var l0 := l.(stub := Header([], []));
    var a, b, c := h[4..12], h[12..20], h[20..28];
    assert h == MAGIC + (a + (b + c));
    FedRuns(l, h);
    MagicFed(l);
    FedJoin(l, MAGIC, a + (b + c));
    FedJoin(l0, a, b + c);
    FieldHeard(l0, a);
    FieldsJudged(l, Transfer(Unpack64(a), Unpack64(b), Unpack64(c), []));
    var l1 := l.(stub := Header([Some(Unpack64(a))], []));
    FedJoin(l1, b, c);
    FieldHeard(l1, b);
    var l2 := l.(stub := Header([Some(Unpack64(a)), Some(Unpack64(b))], []));
    FieldHeard(l2, c);
    FieldIs(a);
    FieldIs(b);
    FieldIs(c);
  }

  lemma FieldHeard(l: Live, b: seq<bv8>)
    requires Valid(l.stub) && l.stub.Header? && l.stub.got == [] && |b| == 8
    ensures Fed(l, b) == HeaderField(l.stub.fields, Some(Unpack64(b)), l.mem, l.out)
  {
    hide Fed, HeaderField, Unpack64;
    FieldFed(l, b);
    assert [] + b == b;
  }

  lemma FieldsJudged(l: Live, t: Transfer)
    ensures HeaderField([], Some(t.load), l.mem, l.out) == l.(stub := Header([Some(t.load)], []))
    ensures HeaderField([Some(t.load)], Some(t.length), l.mem, l.out) == l.(stub := Header([Some(t.load), Some(t.length)], []))
    ensures HeaderField([Some(t.load), Some(t.length)], Some(t.x0), l.mem, l.out)
         == if Welcome(t.Load(), t.Length()) then l.(stub := Payload(t.Load(), t.Length(), t.Entry(), 0, 0xFFFF_FFFF))
            else Live(Hunt(0), l.mem, l.out + [0x45])
  {
    WelcomeAccepted(t.Load(), t.Length());
    hide Accepted, Welcome;
    assert [Some(t.load), Some(t.length)] + [Some(t.x0)] == [Some(t.load), Some(t.length), Some(t.x0)];
    assert [Some(t.load)] + [Some(t.length)] == [Some(t.load), Some(t.length)];
  }

  lemma WelcomeAccepted(load: nat, len: nat)
    ensures Welcome(load, len) <==> Accepted(load, len)
  {
  }

  // ----- what the stub answers to a frame -----

  /** `n` times the byte that acknowledges. */
  function Acknowledged(n: nat): seq<bv8> {
    seq(n, _ => 0x6B)
  }

  /** The transfer that a header announces. */
  function TransferOf(h: seq<bv8>, payload: seq<bv8>): Transfer
    requires |h| >= 28
  {
    Transfer(LittleEndian(h[4..12]), LittleEndian(h[12..20]), LittleEndian(h[20..28]), payload)
  }

  lemma TransferHeader(h: seq<bv8>, payload: seq<bv8>)
    requires IsHeader(h)
    ensures HeaderBytes(TransferOf(h, payload)) == h
  {
    hide LittleEndian, Pack64, Unpack64;
    var a, b, c := h[4..12], h[12..20], h[20..28];
    FieldIs(a);
    FieldIs(b);
    FieldIs(c);
    PackUnpack64(a);
    PackUnpack64(b);
    PackUnpack64(c);
    assert h == MAGIC + (a + (b + c));
  }

  lemma AcksAre(n: nat)
    ensures AckRun(Owed(n)) == Acknowledged(n / 65536)
  {
  }

  /** The stub on a whole frame, whatever it heard before: one acknowledgement for each 64 KiB,
      then approval exactly if the checksum is the payload's, which is now at its address with
      nothing else changed. */
  lemma FrameAnswered(l: Live, h: seq<bv8>, payload: seq<bv8>, wire: seq<bv8>)
    requires Valid(l.stub) && l.stub.Hunt? && IsHeader(h) && Welcome(LoadOf(h), LengthOf(h))
    requires |payload| == LengthOf(h) && |wire| == 4
    ensures var r := RunStub(l, Bytes8(h + payload + wire));
      var good := LittleEndian(wire) == Wide(Crc32(payload));
      && r.out == l.out + Acknowledged(|payload| / 65536) + [if good then 0x4B else 0x45]
      && r.stub == (if good then Running(LoadOf(h), LengthOf(h), EntryOf(h)) else Hunt(0))
      && (LoadOf(h) + |payload| <= 0x1_0000_0000_0000_0000 ==>
            Holds(TransferOf(h, payload), l.mem, r.mem, |payload|))
  {
    hide LittleEndian, Wide, RunStub, Bytes8, Crc32, Stored, Unpack32, AckRun, Acknowledged, Holds, HeaderBytes, Accepted, Welcome;
    var t := TransferOf(h, payload);
    WelcomeAccepted(LoadOf(h), LengthOf(h));
    TransferHeader(h, payload);
    FrameFed(l, t, payload, wire);
    SameChecksum(wire, Crc32(payload));
    AcksAre(|payload|);
    if LoadOf(h) + |payload| <= U64 {
      StoredPrefix(t, l.mem, |payload|);
      assert payload[..|payload|] == payload;
    }
  }

  /** A silence after the header answers for what has come: the acknowledgements due, then the
      stall, and the hunt begins again. */
  lemma StallAnswered(l: Live, h: seq<bv8>, sent: seq<bv8>)
    requires Valid(l.stub) && l.stub.Hunt? && IsHeader(h) && Welcome(LoadOf(h), LengthOf(h))
    requires |sent| < LengthOf(h) + 4
    ensures var r := RunStub(l, Bytes8(h + sent) + [Silence]);
      r.out == l.out + Acknowledged(Min(|sent|, LengthOf(h)) / 65536) + [0x54] && r.stub == Hunt(0)
  {
    hide LittleEndian, RunStub, Bytes8, Stored, AckRun, Acknowledged, HeaderBytes, Accepted, Welcome, Fed, PayloadAt, Feed;
    var n := Min(|sent|, LengthOf(h));
    var filler := seq(LengthOf(h) - n, _ => 0);
    var t := TransferOf(h, sent[..n] + filler);
    WelcomeAccepted(LoadOf(h), LengthOf(h));
    TransferHeader(h, t.payload);
    OpensPayload(l, t);
    var open := Fed(l, h);
    FedRuns(l, h + sent);
    FedJoin(l, h, sent);
    PayloadFed(open, t, 0, INIT, sent[..n]);
    AcksAre(n);
    var full := Fed(open, sent[..n]);
    assert full.out == l.out + Acknowledged(n / 65536);
    FedJoin(open, sent[..n], sent[n..]);
    assert sent == sent[..n] + sent[n..];
    PayloadValid(t, n, Feed(INIT, sent[..n]));
    Breaks(t, n, Feed(INIT, sent[..n]), full, sent[n..]);
    RunJoin(l, Bytes8(h + sent), [Silence]);
    RunOne(Fed(l, h + sent), Silence);
  }

  lemma Breaks(t: Transfer, n: nat, crc: bv32, l: Live, rest: seq<bv8>)
    requires Sendable(t) && n <= |t.payload| && l.stub == PayloadAt(t, n, crc) && Valid(l.stub)
    requires if n < |t.payload| then rest == [] else |rest| < 4
    ensures OnRx(Fed(l, rest), Silence) == Live(Hunt(0), Fed(l, rest).mem, l.out + [0x54])
  {
    hide Accepted, OnRx, Not;
    if n < |t.payload| {
      OnPayload(l, Silence);
    } else {
      TrailerFed(l, rest);
      OnTrailer(Fed(l, rest), Silence);
    }
  }

  /** A header field as the stub hears it: eight bytes, or fewer and then a silence. */
  function Heard(field: seq<bv8>): seq<Rx> {
    Bytes8(field) + if |field| == 8 then [] else [Silence]
  }

  function FieldGot(field: seq<bv8>): Option<bv64> {
    if |field| == 8 then Some(Unpack64(field)) else None
  }

  /** A header field that is broken off does not stop the fields after it; the stall is answered
      once all three have been heard or given up. */
  lemma HeaderStallAnswered(l: Live, a: seq<bv8>, b: seq<bv8>, c: seq<bv8>)
    requires Valid(l.stub) && l.stub.Hunt? && |a| <= 8 && |b| <= 8 && |c| <= 8 && |a| + |b| + |c| < 24
    ensures RunStub(l, Bytes8([0x45, 0x4F, 0x39, 0x4C]) + (Heard(a) + (Heard(b) + Heard(c))))
         == Live(Hunt(0), l.mem, l.out + [0x54])
  {
    hide RunStub, Heard, FieldGot, Bytes8, Fed, HeaderField, MAGIC;
    var magic := [0x45, 0x4F, 0x39, 0x4C];
    assert magic == MAGIC by { MagicIs(); }
    FedRuns(l, MAGIC);
    MagicFed(l);
    RunJoin(l, Bytes8(magic), Heard(a) + (Heard(b) + Heard(c)));
    var l0 := l.(stub := Header([], []));
    RunJoin(l0, Heard(a), Heard(b) + Heard(c));
    HeardGives(l0, a);
    GivenUp(l, FieldGot(a), FieldGot(b), FieldGot(c));
    var l1 := l.(stub := Header([FieldGot(a)], []));
    RunJoin(l1, Heard(b), Heard(c));
    HeardGives(l1, b);
    var l2 := l.(stub := Header([FieldGot(a), FieldGot(b)], []));
    HeardGives(l2, c);
    assert FieldGot(a) == None || FieldGot(b) == None || FieldGot(c) == None by { Missing(a, b, c); }
  }

  lemma MagicIs()
    ensures MAGIC == [0x45, 0x4F, 0x39, 0x4C]
  {
  }

  lemma Missing(a: seq<bv8>, b: seq<bv8>, c: seq<bv8>)
    requires |a| + |b| + |c| < 24
    ensures FieldGot(a) == None || FieldGot(b) == None || FieldGot(c) == None
  {
    hide Unpack64;
  }

  lemma HeardGives(l: Live, field: seq<bv8>)
    requires Valid(l.stub) && l.stub.Header? && l.stub.got == [] && |field| <= 8
    ensures RunStub(l, Heard(field)) == HeaderField(l.stub.fields, FieldGot(field), l.mem, l.out)
  {
    hide RunStub, Fed, HeaderField, Unpack64, Bytes8, OnRx;
    FedRuns(l, field);
    if |field| == 8 {
      FieldHeard(l, field);
      assert Bytes8(field) + [] == Bytes8(field);
    } else {
      FieldPart(l, field);
      RunJoin(l, Bytes8(field), [Silence]);
      RunOne(Fed(l, field), Silence);
      OnHeader(Fed(l, field), Silence);
    }
  }

  lemma {:induction false} FieldPart(l: Live, part: seq<bv8>)
    requires Valid(l.stub) && l.stub.Header? && |l.stub.got| + |part| < 8
    ensures Fed(l, part) == l.(stub := Header(l.stub.fields, l.stub.got + part))
    decreases |part|
  {
    hide OnRx, Unpack64, HeaderField;
    if part == [] {
      assert l.stub.got + [] == l.stub.got;
    } else {
      OnHeader(l, Byte(part[0]));
      FieldPart(OnRx(l, Byte(part[0])), part[1..]);
      assert l.stub.got + [part[0]] + part[1..] == l.stub.got + part;
    }
  }

  lemma GivenUp(l: Live, a: Option<bv64>, b: Option<bv64>, c: Option<bv64>)
    ensures HeaderField([], a, l.mem, l.out) == l.(stub := Header([a], []))
    ensures HeaderField([a], b, l.mem, l.out) == l.(stub := Header([a, b], []))
    ensures a == None || b == None || c == None ==> HeaderField([a, b], c, l.mem, l.out) == Live(Hunt(0), l.mem, l.out + [0x54])
  {
    hide Accepted;
    assert [a, b] + [c] == [a, b, c];
    assert [a] + [b] == [a, b];
  }
}
