/**
  The receiving end of the serial loader: the stub's receive loops as one step per byte, what
  it does with a whole frame, and which frames it accepts.
*/
module SerialStub {
  import opened Bytes
  import opened Crc

  const MAGIC: seq<bv8> := [0x45, 0x4F, 0x39, 0x4C]
  const HEADER_LEN: nat := 24
  const ACK_INTERVAL: nat := 64 * 1024
  const MAX_LENGTH: nat := 0x4000_0000
  const STUB_BASE: nat := 0x0400_0000
  const STUB_GUARD_LEN: nat := 0x1_0000
  const U64: nat := 0x1_0000_0000_0000_0000

  // The replies.
  const ACK: bv8 := 0x6B
  const VERIFIED: bv8 := 0x4B
  const MISMATCH: bv8 := 0x45
  const STALLED: bv8 := 0x54

  // ----- wire integers -----

  function Pack64(v: bv64): (bytes: seq<bv8>)
    ensures |bytes| == 8
  {
    [(v & 0xFF) as bv8, ((v >> 8) & 0xFF) as bv8, ((v >> 16) & 0xFF) as bv8, ((v >> 24) & 0xFF) as bv8,
     ((v >> 32) & 0xFF) as bv8, ((v >> 40) & 0xFF) as bv8, ((v >> 48) & 0xFF) as bv8, ((v >> 56) & 0xFF) as bv8]
  }

  function Unpack64(b: seq<bv8>): bv64
    requires |b| == 8
  {
    (b[0] as bv64) | ((b[1] as bv64) << 8) | ((b[2] as bv64) << 16) | ((b[3] as bv64) << 24)
    | ((b[4] as bv64) << 32) | ((b[5] as bv64) << 40) | ((b[6] as bv64) << 48) | ((b[7] as bv64) << 56)
  }

  function Pack32(v: bv32): (bytes: seq<bv8>)
    ensures |bytes| == 4
  {
    [(v & 0xFF) as bv8, ((v >> 8) & 0xFF) as bv8, ((v >> 16) & 0xFF) as bv8, ((v >> 24) & 0xFF) as bv8]
  }

  function Unpack32(b: seq<bv8>): bv32
    requires |b| == 4
  {
    (b[0] as bv32) | ((b[1] as bv32) << 8) | ((b[2] as bv32) << 16) | ((b[3] as bv32) << 24)
  }

  lemma UnpackPack64(v: bv64)
    ensures Unpack64(Pack64(v)) == v
  {
  }

  lemma UnpackPack32(v: bv32)
    ensures Unpack32(Pack32(v)) == v
  {
  }

  // ----- one byte at a time -----

  /** Where the stub is in its receive loops. */
  datatype Stub =
    | Hunt(matched: nat)
    | Header(fields: seq<Option<bv64>>, got: seq<bv8>)
    | Payload(load: nat, len: nat, x0: nat, i: nat, crc: bv32)
    | Trailer(load: nat, len: nat, x0: nat, crc: bv32, got: seq<bv8>)
    | Running(load: nat, len: nat, x0: nat)

  type Memory = map<nat, bv8>

  /** What the line delivers: a byte, or a silence longer than the stall limit. */
  datatype Rx = Byte(b: bv8) | Silence

  datatype Live = Live(stub: Stub, mem: Memory, out: seq<bv8>)

  ghost predicate Valid(s: Stub) {
    match s
    case Hunt(m) => m < 4
    case Header(fields, got) => |fields| < 3 && |got| < 8
    case Payload(_, len, _, i, _) => i < len
    case Trailer(_, _, _, _, got) => |got| < 4
    case Running(_, _, _) => true
  }

  predicate Overlaps(load: nat, len: nat) {
    load < STUB_BASE + STUB_GUARD_LEN && (load + len) % U64 > STUB_BASE
  }

  predicate Accepted(load: nat, len: nat) {
    len != 0 && len <= MAX_LENGTH && !Overlaps(load, len)
  }

  /** All three header fields have been read, or given up on. */
  function HeaderDone(fields: seq<Option<bv64>>, mem: Memory, out: seq<bv8>): (l: Live)
    requires |fields| == 3
    ensures Valid(l.stub)
  {
    hide Accepted;
    if fields[0] == None || fields[1] == None || fields[2] == None then Live(Hunt(0), mem, out + [STALLED])
    else
      var load, len, x0 := fields[0].value as nat, fields[1].value as nat, fields[2].value as nat;
      if Accepted(load, len) then
        Positive(load, len);
        Live(Payload(load, len, x0, 0, INIT), mem, out)
      else Live(Hunt(0), mem, out + [MISMATCH])
  }

  function HeaderField(fields: seq<Option<bv64>>, f: Option<bv64>, mem: Memory, out: seq<bv8>): (l: Live)
    requires |fields| < 3
    ensures Valid(l.stub)
  {
    if |fields| == 2 then HeaderDone(fields + [f], mem, out) else Live(Header(fields + [f], []), mem, out)
  }

  /** The address of payload byte `i`, as the stub computes it. */
  function Address(load: nat, i: nat): nat {
    (load + i) % U64
  }

  function Acks(i: nat): seq<bv8> {
    if i % ACK_INTERVAL == 0 then [ACK] else []
  }

  function Receive(l: Live, b: bv8): Live
    requires Valid(l.stub)
  {
    match l.stub
    case Hunt(m) =>
      if b != MAGIC[m] then l.(stub := Hunt(if b == MAGIC[0] then 1 else 0))
      else if m + 1 < 4 then l.(stub := Hunt(m + 1))
      else l.(stub := Header([], []))
    case Header(fields, got) =>
      if |got| + 1 < 8 then l.(stub := Header(fields, got + [b]))
      else HeaderField(fields, Some(Unpack64(got + [b])), l.mem, l.out)
    case Payload(load, len, x0, i, crc) =>
      var mem := l.mem[Address(load, i) := b];
      var crc' := Update(crc, b);
      Live(if i + 1 < len then Payload(load, len, x0, i + 1, crc') else Trailer(load, len, x0, Not(crc'), []),
           mem, l.out + Acks(i + 1))
    case Trailer(load, len, x0, crc, got) =>
      if |got| + 1 < 4 then l.(stub := Trailer(load, len, x0, crc, got + [b]))
      else if Unpack32(got + [b]) == crc then Live(Running(load, len, x0), l.mem, l.out + [VERIFIED])
      else Live(Hunt(0), l.mem, l.out + [MISMATCH])
    case Running(_, _, _) => l
  }

  /** A stall ends a field of the header, or the whole frame; an idle stub waits on. */
  function Quiet(l: Live): Live
    requires Valid(l.stub)
  {
    match l.stub
    case Hunt(_) => l
    case Header(fields, _) => HeaderField(fields, None, l.mem, l.out)
    case Payload(_, _, _, _, _) => Live(Hunt(0), l.mem, l.out + [STALLED])
    case Trailer(_, _, _, _, _) => Live(Hunt(0), l.mem, l.out + [STALLED])
    case Running(_, _, _) => l
  }

  function OnRx(l: Live, rx: Rx): (r: Live)
    requires Valid(l.stub)
    ensures Valid(r.stub)
  {
    match rx
    case Byte(b) => Receive(l, b)
    case Silence => Quiet(l)
  }

  function RunStub(l: Live, input: seq<Rx>): (r: Live)
    requires Valid(l.stub)
    ensures Valid(r.stub)
    decreases |input|
  {
    if input == [] then l else RunStub(OnRx(l, input[0]), input[1..])
  }

  // ----- the receive loops themselves -----

  lemma Unroll(l: Live, input: seq<Rx>, at: nat)
    requires Valid(l.stub) && at < |input|
    ensures RunStub(l, input[at..]) == RunStub(OnRx(l, input[at]), input[at + 1..])
  {
    assert input[at..][1..] == input[at + 1..];
  }

  lemma Exhausted(l: Live, input: seq<Rx>, at: nat)
    requires Valid(l.stub) && at == |input|
    ensures RunStub(l, input[at..]) == l
  {
  }

  lemma OnHeader(l: Live, rx: Rx)
    requires l.stub.Header? && Valid(l.stub)
    ensures var Header(fields, got) := l.stub;
      OnRx(l, rx) ==
        if rx == Silence then HeaderField(fields, None, l.mem, l.out)
        else if |got| + 1 < 8 then Live(Header(fields, got + [rx.b]), l.mem, l.out)
        else HeaderField(fields, Some(Unpack64(got + [rx.b])), l.mem, l.out)
  {
    hide Unpack64, HeaderField;
  }

  /** One header field: eight bytes, or `None` after a stall. */
  method ReadField(fields: seq<Option<bv64>>, mem: Memory, out: seq<bv8>, input: seq<Rx>, start: nat)
    returns (ended: bool, got: seq<bv8>, field: Option<bv64>, at: nat)
    requires |fields| < 3 && start <= |input|
    ensures start <= at <= |input| && (ended ==> |got| < 8 && at == |input|)
    ensures RunStub(Live(Header(fields, []), mem, out), input[start..])
         == if ended then RunStub(Live(Header(fields, got), mem, out), input[at..])
            else RunStub(HeaderField(fields, field, mem, out), input[at..])
  {
    hide Unpack64, RunStub, Receive, Quiet, HeaderField, OnRx;
    got, at := [], start;
    while |got| < 8
      invariant |got| <= 8 && start <= at <= |input| && (|got| > 0 ==> start < at)
      invariant RunStub(Live(Header(fields, []), mem, out), input[start..])
             == if |got| < 8 then RunStub(Live(Header(fields, got), mem, out), input[at..])
                else RunStub(HeaderField(fields, Some(Unpack64(got)), mem, out), input[at..])
      decreases |input| - at
    {
      ghost var l := Live(Header(fields, got), mem, out);
      if at == |input| { return true, got, None, at; }
      Unroll(l, input, at);
      OnHeader(l, input[at]);
      var rx := input[at];
      at := at + 1;
      if rx == Silence { return false, got, None, at; }
      got := got + [rx.b];
    }
    return false, got, Some(Unpack64(got)), at;
  }

  /** The three header fields, then the checks on them. */
  method ReadHeader(mem: Memory, out: seq<bv8>, input: seq<Rx>, start: nat) returns (ended: bool, l: Live, at: nat)
    requires start <= |input|
    ensures start <= at <= |input| && Valid(l.stub)
    ensures RunStub(Live(Header([], []), mem, out), input[start..]) == RunStub(l, input[at..])
    ensures if ended then at == |input| else (l.stub == Hunt(0) || (l.stub.Payload? && l.stub.i == 0 && l.stub.crc == INIT))
  {
    hide RunStub, Unpack64, Accepted;
    at := start;
    var fields: seq<Option<bv64>> := [];
    while |fields| < 3
      invariant |fields| <= 3 && start <= at <= |input|
      invariant RunStub(Live(Header([], []), mem, out), input[start..])
             == if |fields| < 3 then RunStub(Live(Header(fields, []), mem, out), input[at..])
                else RunStub(HeaderDone(fields, mem, out), input[at..])
      decreases 3 - |fields|
    {
      var got, field;
      ended, got, field, at := ReadField(fields, mem, out, input, at);
      if ended { return true, Live(Header(fields, got), mem, out), at; }
      fields := fields + [field];
    }
    return false, HeaderDone(fields, mem, out), at;
  }

  /** Stores and sums the payload, with an acknowledgement at every interval. */
  method ReadPayload(load: nat, len: nat, x0: nat, mem0: Memory, out0: seq<bv8>, input: seq<Rx>, start: nat)
    returns (ended: bool, l: Live, at: nat)
    requires start <= |input| && 0 < len
    ensures start <= at <= |input| && Valid(l.stub)
    ensures RunStub(Live(Payload(load, len, x0, 0, INIT), mem0, out0), input[start..]) == RunStub(l, input[at..])
    ensures if ended then at == |input| else (l.stub == Hunt(0) || (l.stub.Trailer? && l.stub.got == []))
  {
    hide RunStub, Receive, Quiet, OnRx, Address, Update, Not;
    var mem: Memory := mem0;
    var out := out0;
    var crc, i := INIT, 0;
    at := start;
    while i < len
      invariant i <= len && start <= at <= |input|
      invariant RunStub(Live(Payload(load, len, x0, 0, INIT), mem0, out0), input[start..])
             == if i < len then RunStub(Live(Payload(load, len, x0, i, crc), mem, out), input[at..])
                else RunStub(Live(Trailer(load, len, x0, Not(crc), []), mem, out), input[at..])
    {
      ghost var now := Live(Payload(load, len, x0, i, crc), mem, out);
      if at == |input| { return true, Live(Payload(load, len, x0, i, crc), mem, out), at; }
      Unroll(now, input, at);
      var rx := input[at];
      at := at + 1;
      OnPayload(now, rx);
      if rx == Silence { return false, Live(Hunt(0), mem, out + [STALLED]), at; }
      mem := mem[Address(load, i) := rx.b];
      crc := Crc32Update(crc, rx.b);
      i := i + 1;
      if i % ACK_INTERVAL == 0 { out := out + [ACK]; } else { assert out + [] == out; }
    }
    return false, Live(Trailer(load, len, x0, Not(crc), []), mem, out), at;
  }

  /** The sender's checksum, and the verdict on it. */
  method ReadTrailer(load: nat, len: nat, x0: nat, own: bv32, mem: Memory, out: seq<bv8>, input: seq<Rx>, start: nat)
    returns (ended: bool, l: Live, at: nat)
    requires start <= |input|
    ensures start <= at <= |input| && Valid(l.stub)
    ensures RunStub(Live(Trailer(load, len, x0, own, []), mem, out), input[start..]) == RunStub(l, input[at..])
    ensures if ended then at == |input| else (l.stub == Hunt(0) || l.stub.Running?)
  {
    hide RunStub, Receive, Quiet, OnRx, Unpack32;
    var wire: seq<bv8> := [];
    at := start;
    while |wire| < 4
      invariant |wire| <= 4 && start <= at <= |input|
      invariant RunStub(Live(Trailer(load, len, x0, own, []), mem, out), input[start..])
             == if |wire| < 4 then RunStub(Live(Trailer(load, len, x0, own, wire), mem, out), input[at..])
                else RunStub(Verdict(load, len, x0, own, wire, mem, out), input[at..])
    {
      ghost var now := Live(Trailer(load, len, x0, own, wire), mem, out);
      if at == |input| { return true, Live(Trailer(load, len, x0, own, wire), mem, out), at; }
      Unroll(now, input, at);
      var rx := input[at];
      at := at + 1;
      OnTrailer(now, rx);
      if rx == Silence { return false, Live(Hunt(0), mem, out + [STALLED]), at; }
      wire := wire + [rx.b];
    }
    if Unpack32(wire) != own { return false, Live(Hunt(0), mem, out + [MISMATCH]), at; }
    return false, Live(Running(load, len, x0), mem, out + [VERIFIED]), at;
  }

  /** The stub's main loop, as far as the line's input goes. */
  method StubMain(mem0: Memory, input: seq<Rx>) returns (l: Live)
    ensures l == RunStub(Live(Hunt(0), mem0, []), input)
  {
    hide RunStub;
    l := Live(Hunt(0), mem0, []);
    ghost var first := l;
    var at, ended := 0, false;
    assert input[0..] == input;
    while true
      invariant 0 <= at <= |input| && l.stub == Hunt(0)
      invariant RunStub(first, input) == RunStub(l, input[at..])
      decreases |input| - at
    {
      ghost var from := at;
      ended, l, at := HuntMagic(l.mem, l.out, input, at);
      if ended {
        Exhausted(l, input, at);
        return;
      }
      ended, l, at := ReadHeader(l.mem, l.out, input, at);
      if ended {
        Exhausted(l, input, at);
        return;
      }
      if l.stub.Hunt? { continue; }
      var p := l.stub;
      ended, l, at := ReadPayload(p.load, p.len, p.x0, l.mem, l.out, input, at);
      if ended {
        Exhausted(l, input, at);
        return;
      }
      if l.stub.Hunt? { continue; }
      var t := l.stub;
      ended, l, at := ReadTrailer(t.load, t.len, t.x0, t.crc, l.mem, l.out, input, at);
      if ended {
        Exhausted(l, input, at);
        return;
      }
      if l.stub.Hunt? { continue; }
      RunningStays(l, input, at);
      return;
    }
  }

  lemma Positive(load: nat, len: nat)
    requires Accepted(load, len)
    ensures 0 < len
  {
  }

  function Verdict(load: nat, len: nat, x0: nat, own: bv32, wire: seq<bv8>, mem: Memory, out: seq<bv8>): (l: Live)
    requires |wire| == 4
    ensures Valid(l.stub)
  {
    if Unpack32(wire) == own then Live(Running(load, len, x0), mem, out + [VERIFIED])
    else Live(Hunt(0), mem, out + [MISMATCH])
  }

  lemma OnPayload(l: Live, rx: Rx)
    requires l.stub.Payload? && Valid(l.stub)
    ensures var Payload(load, len, x0, i, crc) := l.stub;
      OnRx(l, rx) ==
        if rx == Silence then Live(Hunt(0), l.mem, l.out + [STALLED])
        else
          Live(if i + 1 < len then Payload(load, len, x0, i + 1, Update(crc, rx.b))
               else Trailer(load, len, x0, Not(Update(crc, rx.b)), []),
               l.mem[Address(load, i) := rx.b], l.out + Acks(i + 1))
  {
    hide Update, Not, Address;
  }

  lemma OnTrailer(l: Live, rx: Rx)
    requires l.stub.Trailer? && Valid(l.stub)
    ensures var Trailer(load, len, x0, own, wire) := l.stub;
      OnRx(l, rx) ==
        if rx == Silence then Live(Hunt(0), l.mem, l.out + [STALLED])
        else if |wire| + 1 < 4 then Live(Trailer(load, len, x0, own, wire + [rx.b]), l.mem, l.out)
        else Verdict(load, len, x0, own, wire + [rx.b], l.mem, l.out)
  {
    hide Unpack32;
  }

  lemma {:induction false} RunningStays(l: Live, input: seq<Rx>, at: nat)
    requires l.stub.Running? && at <= |input|
    ensures RunStub(l, input[at..]) == l
    decreases |input| - at
  {
    if at < |input| {
      Unroll(l, input, at);
      RunningStays(l, input, at + 1);
    }
  }

  /** Slides over the line until the magic has been seen; silence does not end the hunt. */
  method HuntMagic(mem: Memory, out: seq<bv8>, input: seq<Rx>, start: nat) returns (ended: bool, l: Live, at: nat)
    requires start <= |input|
    ensures start <= at <= |input| && Valid(l.stub)
    ensures RunStub(Live(Hunt(0), mem, out), input[start..]) == RunStub(l, input[at..])
    ensures if ended then at == |input| else start < at && l == Live(Header([], []), mem, out)
  {
    at := start;
    var matched := 0;
    while matched < 4
      invariant matched <= 4 && start <= at <= |input| && (matched == 4 ==> start < at)
      invariant RunStub(Live(Hunt(0), mem, out), input[start..])
             == RunStub(Live(if matched < 4 then Hunt(matched) else Header([], []), mem, out), input[at..])
      decreases |input| - at
    {
      ghost var now := Live(Hunt(matched), mem, out);
      if at == |input| { return true, Live(Hunt(matched), mem, out), at; }
      Unroll(now, input, at);
      var rx := input[at];
      at := at + 1;
      if rx != Silence {
        matched := if rx.b == MAGIC[matched] then matched + 1 else if rx.b == MAGIC[0] then 1 else 0;
      }
    }
    return false, Live(Header([], []), mem, out), at;
  }
}
