/**
  The serial sender and the stub as two processes over in-order lines: what every
  interleaving keeps, why the window never deadlocks, and how every unstalled run ends.
*/
module SerialLink {
  import opened Bytes
  import opened Crc
  import opened SerialStub
  import opened SerialFrame

  const CHUNK: nat := 4096
  const WINDOW: nat := 8 * ACK_INTERVAL

  // ----- the sender's reading of the replies -----

  /** Counts acknowledgements up to the first verdict; anything else is line noise. */
  function Scan(data: seq<bv8>, seen: nat): (nat, Option<bv8>)
    decreases |data|
  {
    if data == [] then (seen, None)
    else if data[0] == ACK then Scan(data[1..], seen + 1)
    else if data[0] == VERIFIED || data[0] == MISMATCH || data[0] == STALLED then (seen, Some(data[0]))
    else Scan(data[1..], seen)
  }

  method ScanStubBytes(data: seq<bv8>, seen0: nat) returns (seen: nat, term: Option<bv8>)
    ensures (seen, term) == Scan(data, seen0)
  {
    seen := seen0;
    for i := 0 to |data|
      invariant Scan(data, seen0) == Scan(data[i..], seen)
    {
      assert data[i..][1..] == data[i + 1..];
      if data[i] == ACK {
        seen := seen + 1;
      } else if data[i] == VERIFIED || data[i] == MISMATCH || data[i] == STALLED {
        return seen, Some(data[i]);
      }
    }
    return seen, None;
  }

  lemma {:induction false} ScanAcks(n: nat, rest: seq<bv8>, seen: nat)
    ensures Scan(AckRun(n) + rest, seen) == Scan(rest, seen + n)
    decreases n
  {
    if n == 0 {
      assert AckRun(0) + rest == rest;
    } else {
      assert (AckRun(n) + rest)[0] == ACK && (AckRun(n) + rest)[1..] == AckRun(n - 1) + rest;
      ScanAcks(n - 1, rest, seen + 1);
    }
  }

  // ----- the two processes -----

  datatype Phase = Start | Streaming | Polling | Windowed | Closing | Finished | GaveUp

  datatype Sender = Sender(phase: Phase, sent: nat, acks: nat, term: Option<bv8>)

  /**
    `wire` is everything the sender wrote, of which the stub has taken `taken` bytes; the
    stub's replies are `live.out`, of which the sender has read `read`.
  */
  datatype Link = Link(sender: Sender, wire: seq<bv8>, taken: nat, live: Live, read: nat)

  datatype Action =
    | SendHeader
    | SendChunk
    | Poll(n: nat)
    | Wait(n: nat)
    | Proceed
    | SendCrc
    | Listen(n: nat)
    | StubTakes

  /** Payload bytes sent beyond what has been acknowledged. */
  function Unacked(s: Sender): int {
    s.sent - s.acks * ACK_INTERVAL
  }

  /** Drain `n` of the replies that have arrived. */
  function Drain(s: Link, n: nat, next: Phase): Link
    requires s.read + n <= |s.live.out|
  {
    var (acks, term) := Scan(s.live.out[s.read..s.read + n], s.sender.acks);
    s.(sender := s.sender.(phase := next, acks := acks, term := term), read := s.read + n)
  }

  /** One step of either process; `None` when it is not enabled. */
  function Do(t: Transfer, s: Link, a: Action): Option<Link>
    requires Valid(s.live.stub)
  {
    var p, len := s.sender.phase, |t.payload|;
    var arrived := |s.live.out| - s.read;
    match a
    case SendHeader =>
      if p != Start then None
      else Some(s.(sender := s.sender.(phase := Streaming), wire := s.wire + HeaderBytes(t)))
    case SendChunk =>
      if p != Streaming || s.sender.sent >= len then None
      else
        var next := Min(s.sender.sent + CHUNK, len);
        Some(s.(sender := s.sender.(phase := Polling, sent := next), wire := s.wire + t.payload[s.sender.sent..next]))
    case Poll(n) => if p != Polling || n > arrived then None else Some(Drain(s, n, Windowed))
    case Wait(n) =>
      if p != Windowed || s.sender.term != None || Unacked(s.sender) <= WINDOW || n > arrived then None
      else Some(Drain(s, n, Windowed))
    case Proceed =>
      if p != Windowed then None
      else if s.sender.term != None then Some(s.(sender := s.sender.(phase := GaveUp)))
      else if Unacked(s.sender) > WINDOW then None
      else Some(s.(sender := s.sender.(phase := Streaming)))
    case SendCrc =>
      if p != Streaming || s.sender.sent < len then None
      else Some(s.(sender := s.sender.(phase := Closing), wire := s.wire + Pack32(Crc32(t.payload))))
    case Listen(n) =>
      if p != Closing || n > arrived then None
      else
        var d := Drain(s, n, Closing);
        Some(if d.sender.term == None then d else d.(sender := d.sender.(phase := Finished)))
    case StubTakes =>
      if s.taken >= |s.wire| then None
      else Some(s.(live := OnRx(s.live, Byte(s.wire[s.taken])), taken := s.taken + 1))
  }

  /** The stub idles, having heard anything before; the host's input buffer is empty. */
  ghost predicate Idle(l: Live) {
    Valid(l.stub) && l.stub.Hunt? && l.out == []
  }

  function Begin(l: Live): Link {
    Link(Sender(Start, 0, 0, None), [], 0, l, 0)
  }

  // ----- the stub along the stream -----

  function Stream(t: Transfer): (bytes: seq<bv8>)
    ensures |bytes| == 32 + |t.payload|
  {
    HeaderBytes(t) + t.payload + Pack32(Crc32(t.payload))
  }

  /** Payload bytes among the first `c` of the stream. */
  function Seen(t: Transfer, c: nat): (n: nat)
    ensures n <= |t.payload|
  {
    if c <= 28 then 0 else Min(c - 28, |t.payload|)
  }

  function Replies(t: Transfer, c: nat): seq<bv8> {
    AckRun(Owed(Seen(t, c))) + if c == 32 + |t.payload| then [VERIFIED] else []
  }

  /** What the stub has done after taking `c` bytes of the stream. */
  ghost predicate StubAt(t: Transfer, l: Live, r: Live, c: nat)
    requires c <= 32 + |t.payload|
  {
    && r.mem == Stored(l.mem, t.Load(), 0, t.payload[..Seen(t, c)])
    && r.out == Replies(t, c)
    && (c == 32 + |t.payload| ==> r.stub == Running(t.Load(), t.Length(), t.Entry()))
  }

  lemma HeaderQuiet(l: Live, bytes: seq<bv8>)
    requires Idle(l) && |bytes| < 28 && (bytes != [] ==> bytes[0] == MAGIC[0])
    ensures Fed(l, bytes).mem == l.mem && Fed(l, bytes).out == []
  {
    if bytes != [] {
      OnHunt(l, bytes[0]);
      StillQuiet(l.(stub := Hunt(1)), bytes[1..]);
    }
  }

  lemma StreamStubAt(t: Transfer, l: Live, c: nat)
    requires Sendable(t) && Idle(l) && c <= 32 + |t.payload|
    ensures StubAt(t, l, Fed(l, Stream(t)[..c]), c)
  {
    hide Fed, HeaderBytes, Sendable, Stored, Pack32, Unpack32, Valid, StubAt, PayloadAt, Feed;
    var h, p, w := HeaderBytes(t), t.payload, Pack32(Crc32(t.payload));
    if c < 28 {
      assert Stream(t)[..c] == h[..c];
      assert h[..c] != [] ==> h[..c][0] == MAGIC[0] by { HeaderFirst(t); }
      HeaderQuiet(l, h[..c]);
      AtHeader(t, l, c, Fed(l, h[..c]));
    } else {
      OpensPayload(l, t);
      var open := Fed(l, h);
      var n := Min(c - 28, |p|);
      FedJoin(l, h, p[..n]);
      PayloadFed(open, t, 0, INIT, p[..n]);
      var r := Fed(open, p[..n]);
      PayloadValid(t, n, Feed(INIT, p[..n]));
      if c <= 28 + |p| {
        assert Stream(t)[..c] == h + p[..n];
        AtPayload(t, l, c, r);
      } else {
        assert p[..n] == p;
        var k := c - 28 - |p|;
        assert Stream(t)[..c] == h + p + w[..k];
        FedJoin(l, h + p, w[..k]);
        ClosesPayload(t, Feed(INIT, p));
        TrailerFed(r, w[..k]);
        assert [] + w[..k] == w[..k];
        var acks := AckRun(Owed(|p|));
        assert [] + acks == acks && acks + [] == acks;
        if k == 4 {
          assert w[..k] == w;
          UnpackPack32(Crc32(p));
        }
        AtTrailer(t, l, c, r.mem, Fed(r, w[..k]));
      }
    }
  }

  lemma HeaderFirst(t: Transfer)
    ensures HeaderBytes(t)[0] == MAGIC[0]
  {
  }

  lemma AtHeader(t: Transfer, l: Live, c: nat, r: Live)
    requires c < 28 && r.mem == l.mem && r.out == []
    ensures StubAt(t, l, r, c)
  {
    assert t.payload[..0] == [];
  }

  lemma AtPayload(t: Transfer, l: Live, c: nat, r: Live)
    requires 28 <= c <= 28 + |t.payload|
    requires r.mem == Stored(l.mem, t.Load(), 0, t.payload[..c - 28])
    requires r.out == [] + AckRun(Owed(c - 28) - Owed(0))
    ensures StubAt(t, l, r, c)
  {
    hide Stored;
  }

  lemma AtTrailer(t: Transfer, l: Live, c: nat, mem: Memory, r: Live)
    requires 28 + |t.payload| < c <= 32 + |t.payload|
    requires mem == Stored(l.mem, t.Load(), 0, t.payload) && r.mem == mem
    requires r.out == AckRun(Owed(|t.payload|)) + if c == 32 + |t.payload| then [VERIFIED] else []
    requires c == 32 + |t.payload| ==> r.stub == Running(t.Load(), t.Length(), t.Entry())
    ensures StubAt(t, l, r, c)
  {
    hide Stored;
    assert t.payload[..|t.payload|] == t.payload;
  }

  // ----- what every interleaving keeps -----

  /** How much of the stream the sender has written. */
  function Written(t: Transfer, s: Sender): nat {
    match s.phase
    case Start => 0
    case Streaming => 28 + s.sent
    case Polling => 28 + s.sent
    case Windowed => 28 + s.sent
    case _ => 32 + |t.payload|
  }

  ghost predicate Inv(t: Transfer, l: Live, s: Link)
    requires Idle(l)
  {
    && s.sender.phase != GaveUp
    && s.sender.sent <= |t.payload|
    && s.wire == Stream(t)[..Written(t, s.sender)]
    && s.taken <= |s.wire|
    && Valid(s.live.stub) && s.live == Fed(l, Stream(t)[..s.taken])
    && s.read <= |s.live.out|
    && (s.sender.term == None ==> s.sender.acks == s.read <= Owed(Seen(t, s.taken)))
    && (s.sender.term != None ==>
         && s.sender.term == Some(VERIFIED) && s.taken == 32 + |t.payload|
         && s.sender.acks == Owed(|t.payload|) && s.sender.phase == Finished)
    && (s.sender.phase == Finished ==> s.sender.term != None)
    && (s.sender.phase == Start ==> s.sender.sent == 0)
    && (s.sender.phase == Streaming ==> Unacked(s.sender) <= WINDOW)
    && (s.sender.phase == Closing || s.sender.phase == Finished ==> s.sender.sent == |t.payload|)
    && Unacked(s.sender) <= WINDOW + CHUNK
  }

  lemma BeginInv(t: Transfer, l: Live)
    requires Idle(l)
    ensures Inv(t, l, Begin(l))
  {
    hide HeaderBytes, Stream;
    assert Stream(t)[..0] == [];
  }

  /** What a drain of the replies finds. */
  lemma DrainFinds(t: Transfer, l: Live, s: Link, n: nat)
    requires Sendable(t) && Idle(l) && Inv(t, l, s) && s.sender.term == None && s.read + n <= |s.live.out|
    ensures var (acks, term) := Scan(s.live.out[s.read..s.read + n], s.sender.acks);
      var due := Owed(Seen(t, s.taken));
      if s.read + n <= due then acks == s.read + n && term == None
      else acks == due && term == Some(VERIFIED) && s.taken == 32 + |t.payload|
  {
    hide Fed, Stream, Stored, Sendable, Idle, Owed, Seen, AckRun;
    StreamStubAt(t, l, s.taken);
    var due := Owed(Seen(t, s.taken));
    var rest := if s.taken == 32 + |t.payload| then [VERIFIED] else [];
    assert s.live.out == AckRun(due) + rest;
    Drained(due, rest, s.read, s.read + n);
    if s.read + n <= due {
      assert AckRun(n) + [] == AckRun(n);
      ScanAcks(n, [], s.read);
    } else {
      ScanAcks(due - s.read, [VERIFIED], s.read);
    }
  }

  /** Part of a run of acknowledgements, to its end or beyond. */
  lemma Drained(due: nat, rest: seq<bv8>, from: nat, to: nat)
    requires from <= to <= due + |rest| && from <= due && |rest| <= 1
    ensures (AckRun(due) + rest)[from..to] == if to <= due then AckRun(to - from) else AckRun(due - from) + rest
  {
  }

  lemma WireGrows(t: Transfer, m: nat, n: nat)
    requires m <= n <= |Stream(t)|
    ensures Stream(t)[..m] + Stream(t)[m..n] == Stream(t)[..n]
  {
    hide Stream;
  }

  lemma StreamParts(t: Transfer, i: nat, j: nat)
    requires i <= j <= |t.payload|
    ensures Stream(t)[0..28] == HeaderBytes(t) && Stream(t)[28 + i..28 + j] == t.payload[i..j]
    ensures Stream(t)[28 + |t.payload|..32 + |t.payload|] == Pack32(Crc32(t.payload))
  {
    hide HeaderBytes, Pack32, Crc32;
  }

  lemma StubTakesInv(t: Transfer, l: Live, s: Link)
    requires Sendable(t) && Idle(l) && Inv(t, l, s) && s.taken < |s.wire|
    ensures Inv(t, l, Do(t, s, StubTakes).value)
    ensures |Do(t, s, StubTakes).value.live.out| <= |s.live.out| + 1
  {
    hide Fed, Stream, Sendable, Idle, OnRx, Stored;
    var next := Do(t, s, StubTakes).value;
    var c := s.taken;
    assert Stream(t)[..c + 1] == Stream(t)[..c] + [s.wire[c]];
    assert Valid(l.stub) by { IdleValid(l); }
    FedOne(l, Stream(t)[..c], s.wire[c]);
    StreamStubAt(t, l, c);
    StreamStubAt(t, l, c + 1);
    OwedStep(t, c);
  }

  lemma IdleValid(l: Live)
    requires Idle(l)
    ensures Valid(l.stub)
  {
  }

  lemma SeenAll(t: Transfer)
    ensures Seen(t, 32 + |t.payload|) == |t.payload|
  {
  }

  lemma OwedStep(t: Transfer, c: nat)
    ensures Owed(Seen(t, c)) <= Owed(Seen(t, c + 1)) <= Owed(Seen(t, c)) + 1
    ensures c + 1 == 32 + |t.payload| ==> Owed(Seen(t, c + 1)) == Owed(Seen(t, c))
  {
  }

  lemma SendInv(t: Transfer, l: Live, s: Link, a: Action)
    requires Sendable(t) && Idle(l) && Inv(t, l, s) && Do(t, s, a) != None
    requires a.SendHeader? || a.SendChunk? || a.SendCrc? || a.Proceed?
    ensures Inv(t, l, Do(t, s, a).value)
  {
    hide Fed, Stream, Sendable, Idle, OnRx, Owed, Seen, Scan, HeaderBytes, Pack32, Crc32, Drain;
    match a {
      case SendHeader =>
        StreamParts(t, 0, 0);
        WireGrows(t, 0, 28);
      case SendChunk =>
        var next := Min(s.sender.sent + CHUNK, |t.payload|);
        StreamParts(t, s.sender.sent, next);
        WireGrows(t, 28 + s.sender.sent, 28 + next);
      case SendCrc =>
        StreamParts(t, 0, 0);
        WireGrows(t, 28 + |t.payload|, 32 + |t.payload|);
      case Proceed =>
    }
  }

  lemma DrainInv(t: Transfer, l: Live, s: Link, a: Action)
    requires Sendable(t) && Idle(l) && Inv(t, l, s) && Do(t, s, a) != None
    requires a.Poll? || a.Wait? || a.Listen?
    ensures Inv(t, l, Do(t, s, a).value)
  {
    hide Fed, Stream, Sendable, Idle, OnRx, Owed, Seen, Scan, HeaderBytes, Pack32, Crc32;
    DrainFinds(t, l, s, a.n);
    SeenAll(t);
  }

  /** Every step of either process keeps the invariant. */
  lemma StepInv(t: Transfer, l: Live, s: Link, a: Action)
    requires Sendable(t) && Idle(l) && Inv(t, l, s) && Do(t, s, a) != None
    ensures Inv(t, l, Do(t, s, a).value)
  {
    hide Fed, Stream, Sendable, Idle, OnRx, Inv;
    match a {
      case Poll(_) => DrainInv(t, l, s, a);
      case Wait(_) => DrainInv(t, l, s, a);
      case Listen(_) => DrainInv(t, l, s, a);
      case StubTakes =>
        InvWired(t, l, s);
        StubTakesInv(t, l, s);
      case _ => SendInv(t, l, s, a);
    }
  }

  lemma InvWired(t: Transfer, l: Live, s: Link)
    requires Idle(l) && Inv(t, l, s)
    ensures Valid(s.live.stub) && s.taken <= |s.wire|
  {
    hide Fed, Stream, Idle;
  }

  // ----- whole runs -----

  /** A run of the two processes without a stall. */
  ghost predicate Run(t: Transfer, l: Live, ss: seq<Link>, acts: seq<Action>)
    requires Idle(l)
  {
    && |ss| == |acts| + 1 && ss[0] == Begin(l)
    && forall i :: 0 <= i < |acts| ==> StepAt(t, ss, acts, i)
  }

  ghost predicate StepAt(t: Transfer, ss: seq<Link>, acts: seq<Action>, i: nat)
    requires i < |acts| && |ss| == |acts| + 1
  {
    Valid(ss[i].live.stub) && Do(t, ss[i], acts[i]) == Some(ss[i + 1])
  }

  lemma RunLength(t: Transfer, l: Live, ss: seq<Link>, acts: seq<Action>)
    requires Idle(l) && Run(t, l, ss, acts)
    ensures |ss| == |acts| + 1
  {
  }

  lemma {:induction false} RunInv(t: Transfer, l: Live, ss: seq<Link>, acts: seq<Action>, i: nat)
    requires Sendable(t) && Idle(l) && Run(t, l, ss, acts) && i <= |acts|
    ensures Inv(t, l, ss[i])
    decreases i
  {
    hide Inv, Do, Sendable, Idle;
    if i == 0 {
      BeginInv(t, l);
    } else {
      RunInv(t, l, ss, acts, i - 1);
      assert StepAt(t, ss, acts, i - 1);
      StepInv(t, l, ss[i - 1], acts[i - 1]);
    }
  }

  /** The first `k` payload bytes are at their addresses and nothing else has changed. */
  ghost predicate Holds(t: Transfer, before: Memory, mem: Memory, k: nat) {
    && k <= |t.payload|
    && forall a: nat {:trigger a in mem} ::
         if t.Load() <= a < t.Load() + k then a in mem && mem[a] == t.payload[a - t.Load()]
         else (a in mem <==> a in before) && (a in mem ==> mem[a] == before[a])
  }

  lemma StoredPrefix(t: Transfer, mem: Memory, k: nat)
    requires t.Load() + |t.payload| <= U64 && k <= |t.payload|
    ensures Holds(t, mem, Stored(mem, t.Load(), 0, t.payload[..k]), k)
  {
    var r := Stored(mem, t.Load(), 0, t.payload[..k]);
    forall a: nat
      ensures if t.Load() <= a < t.Load() + k then a in r && r[a] == t.payload[a - t.Load()]
              else (a in r <==> a in mem) && (a in r ==> r[a] == mem[a])
    {
      StoredAt(mem, t.Load(), 0, t.payload[..k], a);
    }
  }

  /**
    At every moment of every run: memory holds a prefix of the payload, the sender is at most
    the window and a chunk ahead of the acknowledgements, and it never gives up.
  */
  lemma RunSafe(t: Transfer, l: Live, ss: seq<Link>, acts: seq<Action>, i: nat)
    requires Sendable(t) && Idle(l) && Run(t, l, ss, acts) && i <= |acts|
    requires t.Load() + |t.payload| <= U64
    ensures exists k :: Holds(t, l.mem, ss[i].live.mem, k)
    ensures ss[i].sender.sent - 65536 * ss[i].sender.acks <= 524288 + 4096 && ss[i].sender.phase != GaveUp
  {
    hide Fed, Stream, Sendable, Stored, Holds, Run, Idle;
    RunLength(t, l, ss, acts);
    RunInv(t, l, ss, acts, i);
    StreamStubAt(t, l, ss[i].taken);
    StoredPrefix(t, l.mem, Seen(t, ss[i].taken));
  }

  /** The window wait never blocks once the lines are empty and the stub owes nothing. */
  lemma WindowOpens(t: Transfer, l: Live, s: Link)
    requires Sendable(t) && Idle(l) && Inv(t, l, s)
    requires s.sender.phase == Windowed && s.taken == |s.wire| && s.read == |s.live.out|
    ensures Unacked(s.sender) < ACK_INTERVAL && Do(t, s, Proceed) != None
  {
    hide Fed, Stream, Sendable, Stored, Idle;
    StreamStubAt(t, l, s.taken);
  }

  /** A step that moves something: a drain in a wait must find at least one reply. */
  predicate Productive(a: Action) {
    (a.Wait? || a.Listen?) ==> a.n > 0
  }

  /** Until the sender has finished, some productive step is enabled. */
  lemma NeverStuck(t: Transfer, l: Live, s: Link) returns (a: Action)
    requires Sendable(t) && Idle(l) && Inv(t, l, s) && s.sender.phase != Finished
    ensures Productive(a) && Do(t, s, a) != None
  {
    hide Fed, Stream, Sendable, Stored, Scan, OnRx, Idle;
    if s.taken < |s.wire| { return StubTakes; }
    match s.sender.phase {
      case Start => return SendHeader;
      case Streaming => return if s.sender.sent < |t.payload| then SendChunk else SendCrc;
      case Polling => return Poll(0);
      case Windowed =>
        if Unacked(s.sender) <= WINDOW { return Proceed; }
        if s.read < |s.live.out| { return Wait(1); }
        WindowOpens(t, l, s);
        return Proceed;
      case Closing =>
        StreamStubAt(t, l, s.taken);
        return Listen(1);
    }
  }

  function Bonus(p: Phase): nat {
    match p
    case Polling => 2
    case Windowed => 1
    case _ => 0
  }

  /** What is left to do: bytes to send, bytes in flight, replies in flight. */
  function Left(t: Transfer, s: Link): int {
    6 * (32 + |t.payload| - |s.wire|) + 3 * (|s.wire| - s.taken) + (|s.live.out| - s.read) + Bonus(s.sender.phase)
  }

  lemma Decreases(t: Transfer, l: Live, s: Link, a: Action)
    requires Sendable(t) && Idle(l) && Inv(t, l, s) && Productive(a) && Do(t, s, a) != None
    ensures 0 <= Left(t, Do(t, s, a).value) < Left(t, s)
  {
    hide Fed, Sendable, Idle, OnRx, Owed, Seen, Scan, HeaderBytes, Stream;
    StepInv(t, l, s, a);
    if a == StubTakes { StubTakesInv(t, l, s); }
  }

  /** Every unstalled run is finite. */
  lemma {:induction false} RunEnds(t: Transfer, l: Live, ss: seq<Link>, acts: seq<Action>, i: nat)
    requires Sendable(t) && Idle(l) && Run(t, l, ss, acts) && i <= |acts|
    requires forall j :: 0 <= j < |acts| ==> Productive(acts[j])
    ensures i <= i + Left(t, ss[i]) <= 6 * (32 + |t.payload|)
    decreases i
  {
    hide Inv, Do, Sendable, Idle;
    if i == 0 {
      NothingSent(t, l);
    } else {
      RunEnds(t, l, ss, acts, i - 1);
      RunInv(t, l, ss, acts, i - 1);
      assert StepAt(t, ss, acts, i - 1);
      Decreases(t, l, ss[i - 1], acts[i - 1]);
    }
  }

  lemma NothingSent(t: Transfer, l: Live)
    requires Idle(l)
    ensures Left(t, Begin(l)) == 6 * (32 + |t.payload|)
  {
  }

  /**
    A run that can go no further has ended well: verified, with the whole payload in memory,
    one acknowledgement per interval, and the stub about to run it.
  */
  lemma RunDelivers(t: Transfer, l: Live, ss: seq<Link>, acts: seq<Action>)
    requires Sendable(t) && Idle(l) && Run(t, l, ss, acts) && t.Load() + |t.payload| <= U64
    requires forall a :: Productive(a) ==> Valid(ss[|acts|].live.stub) && Do(t, ss[|acts|], a) == None
    ensures var s := ss[|acts|];
      && s.wire == Stream(t)
      && s.sender.phase == Finished && s.sender.term == Some(0x4B)
      && s.sender.acks == |t.payload| / 65536
      && Holds(t, l.mem, s.live.mem, |t.payload|)
      && s.live.stub == Running(t.Load(), t.Length(), t.Entry())
  {
    hide Fed, Stream, Sendable, Stored, Do, Idle, Run, Productive, Holds;
    RunLength(t, l, ss, acts);
    var s := ss[|acts|];
    RunInv(t, l, ss, acts, |acts|);
    if s.sender.phase != Finished {
      var a := NeverStuck(t, l, s);
      assert false;
    }
    StreamStubAt(t, l, s.taken);
    StoredPrefix(t, l.mem, |t.payload|);
  }
}
