/**
  The serial link when either side may time out at any moment: the stub may stall wherever it
  is, and the sender may stop in the middle of anything it writes. The sender's first verdict
  is honest all the same.
*/
module SerialStall {
  import opened Bytes
  import opened Crc
  import opened SerialStub
  import opened SerialFrame
  import opened SerialLink

  /** A step of the protocol; a silence longer than the stub's limit; or the sender stopping
      for good, with `k` more bytes of what it had to send on the wire. */
  datatype Move = Act(action: Action) | Stall | Stop(k: nat)

  function Make(t: Transfer, s: Link, m: Move): Option<Link>
    requires Valid(s.live.stub)
  {
    match m
    case Act(a) => Do(t, s, a)
    case Stall => Some(s.(live := OnRx(s.live, Silence)))
    case Stop(k) =>
      if s.sender.phase.Finished? || s.sender.phase.GaveUp? || |s.wire| + k > |Stream(t)| then None
      else Some(s.(sender := s.sender.(phase := GaveUp), wire := s.wire + Stream(t)[|s.wire|..|s.wire| + k]))
  }

  // ----- the first verdict -----

  lemma {:induction false} ScanJoin(a: seq<bv8>, b: seq<bv8>, seen: nat)
    ensures Scan(a + b, seen) == if Scan(a, seen).1 == None then Scan(b, Scan(a, seen).0) else Scan(a, seen)
    decreases |a|
  {
    if a == [] {
      assert a + b == b;
    } else {
      assert (a + b)[0] == a[0] && (a + b)[1..] == a[1..] + b;
      ScanJoin(a[1..], b, if a[0] == ACK then seen + 1 else seen);
    }
  }

  lemma {:induction false} ScanCounts(data: seq<bv8>, seen: nat)
    ensures Scan(data, seen).0 >= seen
    decreases |data|
  {
    if data != [] {
      ScanCounts(data[1..], seen);
      ScanCounts(data[1..], seen + 1);
    }
  }

  /** The first verdict among the replies. */
  function First(out: seq<bv8>): Option<bv8> {
    Scan(out, 0).1
  }

  lemma FirstStays(out: seq<bv8>, more: seq<bv8>)
    requires First(out) != None
    ensures First(out + more) == First(out)
  {
    ScanJoin(out, more, 0);
  }

  lemma FirstNow(out: seq<bv8>, verdict: bv8)
    requires First(out) == None && verdict != ACK
    requires verdict == VERIFIED || verdict == MISMATCH || verdict == STALLED
    ensures First(out + [verdict]) == Some(verdict)
  {
    ScanJoin(out, [verdict], 0);
  }

  lemma NoVerdict(n: nat)
    ensures Scan(AckRun(n), 0) == (n, None)
  {
    ScanAcks(n, [], 0);
    assert AckRun(n) + [] == AckRun(n);
  }

  // ----- a stub that has stalled -----

  /** The stub has reported a stall before anything else, or is bound to: a header field is
      missing. */
  ghost predicate Spoiled(l: Live) {
    First(l.out) == Some(STALLED) || (First(l.out) == None && l.stub.Header? && None in l.stub.fields)
  }

  lemma MissingField(fields: seq<Option<bv64>>, f: Option<bv64>, mem: Memory, out: seq<bv8>)
    requires |fields| < 3 && First(out) == None && None in fields + [f]
    ensures Spoiled(HeaderField(fields, f, mem, out))
  {
    hide First, Accepted;
    var all := fields + [f];
    if |fields| == 2 {
      assert all[0] == None || all[1] == None || all[2] == None;
      FirstNow(out, STALLED);
    }
  }

  lemma OutGrows(l: Live, rx: Rx)
    requires Valid(l.stub)
    ensures l.out <= OnRx(l, rx).out
  {
    hide Accepted, Unpack64, Unpack32, Update;
  }

  /** Once spoiled, always spoiled. */
  lemma SpoiledStays(l: Live, rx: Rx)
    requires Valid(l.stub) && Spoiled(l)
    ensures Spoiled(OnRx(l, rx))
  {
    hide First;
    if First(l.out) == Some(STALLED) {
      OutGrows(l, rx);
      var out := OnRx(l, rx).out;
      assert out == l.out + out[|l.out|..];
      FirstStays(l.out, out[|l.out|..]);
    } else {
      SpoiledHeader(l, rx);
    }
  }

  lemma SpoiledHeader(l: Live, rx: Rx)
    requires Valid(l.stub) && First(l.out) == None && l.stub.Header? && None in l.stub.fields
    ensures Spoiled(OnRx(l, rx))
  {
    hide First, Unpack64, HeaderField;
    var Header(fields, got) := l.stub;
    OnHeader(l, rx);
    match rx
    case Silence => MissingField(fields, None, l.mem, l.out);
    case Byte(b) =>
      if |got| + 1 == 8 {
        var f := Some(Unpack64(got + [b]));
        assert None in fields + [f];
        MissingField(fields, f, l.mem, l.out);
      }
  }

  /** A stall of a stub in the middle of a frame spoils it; one between frames goes unnoticed. */
  lemma StallSpoils(l: Live)
    requires Valid(l.stub) && First(l.out) == None
    ensures OnRx(l, Silence) == l || Spoiled(OnRx(l, Silence))
  {
    hide First, HeaderField;
    match l.stub
    case Hunt(_) =>
    case Header(fields, _) => MissingField(fields, None, l.mem, l.out);
    case Payload(_, _, _, _, _) => FirstNow(l.out, STALLED);
    case Trailer(_, _, _, _, _) => FirstNow(l.out, STALLED);
    case Running(_, _, _) =>
  }

  // ----- what every interleaving keeps -----

  /** The stub has taken the stream so far without a stall that mattered. */
  ghost predicate Clean(t: Transfer, l: Live, s: Link)
    requires Idle(l)
  {
    s.taken <= |Stream(t)| && s.live == Fed(l, Stream(t)[..s.taken])
  }

  ghost predicate Kept(t: Transfer, l: Live, s: Link)
    requires Idle(l)
  {
    && s.sender.sent <= |t.payload|
    && |s.wire| <= |Stream(t)| && s.wire == Stream(t)[..|s.wire|]
    && (s.sender.phase != GaveUp ==> |s.wire| == Written(t, s.sender))
    && s.taken <= |s.wire| && Valid(s.live.stub)
    && s.read <= |s.live.out| && (s.sender.acks, s.sender.term) == Scan(s.live.out[..s.read], 0)
    && (s.sender.phase in {Start, Streaming, Polling, Closing} ==> s.sender.term == None)
    && (s.sender.phase == Finished ==> s.sender.term != None)
    && (s.sender.phase == Start ==> s.sender.sent == 0)
    && (s.sender.phase == Streaming ==> Unacked(s.sender) <= WINDOW)
    && (s.sender.phase in {Closing, Finished} ==> s.sender.sent == |t.payload|)
    && Unacked(s.sender) <= WINDOW + CHUNK
    && (Clean(t, l, s) || Spoiled(s.live))
  }

  lemma BeginKept(t: Transfer, l: Live)
    requires Idle(l)
    ensures Kept(t, l, Begin(l))
  {
    hide HeaderBytes, Stream;
    assert Stream(t)[..0] == [] && l.out[..0] == [];
  }

  /** The replies of an unspoiled stub. */
  lemma CleanReplies(t: Transfer, l: Live, s: Link)
    requires Sendable(t) && Idle(l) && Clean(t, l, s)
    ensures First(s.live.out) == if s.taken == |Stream(t)| then Some(VERIFIED) else None
    ensures s.taken == |Stream(t)| ==> s.live.stub.Running? && Scan(s.live.out, 0) == (Owed(|t.payload|), Some(VERIFIED))
  {
    hide Fed, Stream, Stored, Sendable, Owed, AckRun;
    StreamStubAt(t, l, s.taken);
    var due := Owed(Seen(t, s.taken));
    NoVerdict(due);
    if s.taken == |Stream(t)| {
      assert Seen(t, s.taken) == |t.payload|;
      ScanJoin(AckRun(due), [VERIFIED], 0);
    } else {
      assert AckRun(due) + [] == AckRun(due);
    }
  }

  lemma StallKept(t: Transfer, l: Live, s: Link)
    requires Sendable(t) && Idle(l) && Kept(t, l, s)
    ensures Kept(t, l, Make(t, s, Stall).value)
  {
    hide Fed, Stream, Sendable, Idle, OnRx, Scan, Spoiled, Unacked, Clean;
    var next := Make(t, s, Stall).value;
    RepliesKept(s.live, Silence, s.read);
    if Spoiled(s.live) {
      SpoiledStays(s.live, Silence);
    } else {
      CleanStalls(t, l, s);
    }
  }

  lemma RepliesKept(l: Live, rx: Rx, n: nat)
    requires Valid(l.stub) && n <= |l.out|
    ensures n <= |OnRx(l, rx).out| && OnRx(l, rx).out[..n] == l.out[..n]
  {
    hide OnRx;
    OutGrows(l, rx);
  }

  lemma CleanStalls(t: Transfer, l: Live, s: Link)
    requires Sendable(t) && Idle(l) && Valid(s.live.stub) && Clean(t, l, s)
    ensures Clean(t, l, Make(t, s, Stall).value) || Spoiled(OnRx(s.live, Silence))
  {
    hide Fed, Stream, Sendable, Idle, Spoiled, First, HeaderField;
    CleanReplies(t, l, s);
    if s.taken < |Stream(t)| { StallSpoils(s.live); }
  }

  lemma TakeKept(t: Transfer, l: Live, s: Link)
    requires Sendable(t) && Idle(l) && Kept(t, l, s) && Do(t, s, StubTakes) != None
    ensures Kept(t, l, Do(t, s, StubTakes).value)
  {
    hide Fed, Stream, Sendable, Idle, OnRx, Scan, Spoiled, Unacked;
    var rx := Byte(s.wire[s.taken]);
    RepliesKept(s.live, rx, s.read);
    if Spoiled(s.live) {
      SpoiledStays(s.live, rx);
    } else {
      assert Stream(t)[..s.taken + 1] == Stream(t)[..s.taken] + [s.wire[s.taken]];
      assert Valid(l.stub) by { IdleValid(l); }
      FedOne(l, Stream(t)[..s.taken], s.wire[s.taken]);
    }
  }

  lemma StopKept(t: Transfer, l: Live, s: Link, k: nat)
    requires Idle(l) && Kept(t, l, s) && Make(t, s, Stop(k)) != None
    ensures Kept(t, l, Make(t, s, Stop(k)).value)
  {
    hide Fed, Stream, Idle, Scan, Spoiled, Clean;
    WireGrows(t, |s.wire|, |s.wire| + k);
    CleanAlike(t, l, s, Make(t, s, Stop(k)).value);
  }

  /** Whether the stub is unspoiled does not depend on the sender. */
  lemma CleanAlike(t: Transfer, l: Live, s: Link, next: Link)
    requires Idle(l) && next.taken == s.taken && next.live == s.live
    ensures Clean(t, l, next) <==> Clean(t, l, s)
  {
  }

  lemma SendKept(t: Transfer, l: Live, s: Link, a: Action)
    requires Sendable(t) && Idle(l) && Kept(t, l, s) && Do(t, s, a) != None
    requires a.SendHeader? || a.SendChunk? || a.SendCrc? || a.Proceed?
    ensures Kept(t, l, Do(t, s, a).value)
  {
    hide Fed, Stream, Sendable, Idle, OnRx, Scan, HeaderBytes, Pack32, Crc32, Drain, Spoiled, Clean;
    CleanAlike(t, l, s, Do(t, s, a).value);
    SendsStream(t, s, a);
  }

  /** Whatever is sent is what comes next of the stream. */
  lemma SendsStream(t: Transfer, s: Link, a: Action)
    requires Valid(s.live.stub) && Do(t, s, a) != None && s.sender.sent <= |t.payload|
    requires a.SendHeader? || a.SendChunk? || a.SendCrc? || a.Proceed?
    requires |s.wire| == Written(t, s.sender) <= |Stream(t)| && s.wire == Stream(t)[..|s.wire|]
    requires s.sender.phase == Start ==> s.sender.sent == 0
    ensures var next := Do(t, s, a).value;
      && |next.wire| <= |Stream(t)| && next.wire == Stream(t)[..|next.wire|]
      && (next.sender.phase != GaveUp ==> |next.wire| == Written(t, next.sender))
  {
    hide Stream, HeaderBytes, Pack32, Crc32, Drain, OnRx;
    match a {
      case SendHeader =>
        StreamParts(t, 0, 0);
        WireGrows(t, 0, 28);
      case SendChunk =>
        var next := Min(s.sender.sent + CHUNK, |t.payload|);
        StreamParts(t, s.sender.sent, next);
        WireGrows(t, 28 + s.sender.sent, 28 + next);
      case SendCrc =>
        StreamParts(t, 0, 0);
        WireGrows(t, 28 + |t.payload|, 32 + |t.payload|);
      case Proceed =>
    }
  }

  /** Draining continues the count from where it stood. */
  lemma DrainScans(out: seq<bv8>, read: nat, n: nat, acks: nat)
    requires read + n <= |out| && Scan(out[..read], 0) == (acks, None)
    ensures Scan(out[read..read + n], acks) == Scan(out[..read + n], 0)
    ensures Scan(out[read..read + n], acks).0 >= acks
  {
    hide Scan;
    ScanJoin(out[..read], out[read..read + n], 0);
    assert out[..read] + out[read..read + n] == out[..read + n];
    ScanCounts(out[read..read + n], acks);
  }

  lemma DrainKept(t: Transfer, l: Live, s: Link, a: Action)
    requires Sendable(t) && Idle(l) && Kept(t, l, s) && Do(t, s, a) != None
    requires a.Poll? || a.Wait? || a.Listen?
    ensures Kept(t, l, Do(t, s, a).value)
  {
    hide Fed, Stream, Sendable, Idle, OnRx, Scan, HeaderBytes, Pack32, Crc32, Spoiled, Clean;
    DrainScans(s.live.out, s.read, a.n, s.sender.acks);
    CleanAlike(t, l, s, Do(t, s, a).value);
  }

  /** Every move of either side, timeouts included, keeps the invariant. */
  lemma MoveKept(t: Transfer, l: Live, s: Link, m: Move)
    requires Sendable(t) && Idle(l) && Kept(t, l, s) && Make(t, s, m) != None
    ensures Kept(t, l, Make(t, s, m).value)
  {
    hide Fed, Stream, Sendable, Idle, OnRx, Kept, Do;
    match m
    case Stall => StallKept(t, l, s);
    case Stop(k) => StopKept(t, l, s, k);
    case Act(a) => ActKept(t, l, s, a);
  }

  lemma ActKept(t: Transfer, l: Live, s: Link, a: Action)
    requires Sendable(t) && Idle(l) && Kept(t, l, s) && Do(t, s, a) != None
    ensures Kept(t, l, Do(t, s, a).value)
  {
    hide Fed, Stream, Sendable, Idle, OnRx, Kept;
    match a {
      case Poll(_) => DrainKept(t, l, s, a);
      case Wait(_) => DrainKept(t, l, s, a);
      case Listen(_) => DrainKept(t, l, s, a);
      case StubTakes => TakeKept(t, l, s);
      case _ => SendKept(t, l, s, a);
    }
  }

  // ----- whole runs -----

  /** A run in which either side may time out at any moment. */
  ghost predicate Faulty(t: Transfer, l: Live, ss: seq<Link>, ms: seq<Move>)
    requires Idle(l)
  {
    && |ss| == |ms| + 1 && ss[0] == Begin(l)
    && forall i :: 0 <= i < |ms| ==> MoveAt(t, ss, ms, i)
  }

  ghost predicate MoveAt(t: Transfer, ss: seq<Link>, ms: seq<Move>, i: nat)
    requires i < |ms| && |ss| == |ms| + 1
  {
    Valid(ss[i].live.stub) && Make(t, ss[i], ms[i]) == Some(ss[i + 1])
  }

  lemma FaultyLength(t: Transfer, l: Live, ss: seq<Link>, ms: seq<Move>)
    requires Idle(l) && Faulty(t, l, ss, ms)
    ensures |ss| == |ms| + 1
  {
  }

  lemma {:induction false} FaultyKept(t: Transfer, l: Live, ss: seq<Link>, ms: seq<Move>, i: nat)
    requires Sendable(t) && Idle(l) && Faulty(t, l, ss, ms) && i <= |ms|
    ensures Kept(t, l, ss[i])
    decreases i
  {
    hide Kept, Make, Sendable, Idle;
    if i == 0 {
      BeginKept(t, l);
    } else {
      FaultyKept(t, l, ss, ms, i - 1);
      assert MoveAt(t, ss, ms, i - 1);
      MoveKept(t, l, ss[i - 1], ms[i - 1]);
    }
  }

  /** What the sender believes is what has happened. */
  ghost predicate Honest(t: Transfer, before: Memory, s: Link) {
    match s.sender.term
    case None => s.sender.phase != Finished
    case Some(verdict) =>
      if verdict == 0x4B then
        && |s.wire| == |Stream(t)| && s.sender.acks == |t.payload| / 65536
        && Holds(t, before, s.live.mem, |t.payload|)
        && s.live.stub == Running(t.Load(), t.Length(), t.Entry())
      else verdict == 0x54
  }

  /**
    At every moment of every run, whoever times out and whenever: a sender that has read the
    stub's approval has sent everything, memory holds the whole payload and nothing else has
    changed, and the stub is about to run it; any other verdict it reads is a stall; it does
    not finish without one; and it never runs further ahead than the window and a chunk.
  */
  lemma VerdictHonest(t: Transfer, l: Live, ss: seq<Link>, ms: seq<Move>, i: nat)
    requires Sendable(t) && Idle(l) && Faulty(t, l, ss, ms) && i <= |ms| && t.Load() + |t.payload| <= U64
    ensures Honest(t, l.mem, ss[i])
    ensures ss[i].sender.sent - 65536 * ss[i].sender.acks <= 524288 + 4096
  {
    hide Fed, Stream, Sendable, Stored, Holds, Idle, Faulty, Clean, Spoiled, Scan;
    FaultyLength(t, l, ss, ms);
    FaultyKept(t, l, ss, ms, i);
    var s := ss[i];
    if s.sender.term != None {
      assert s.live.out == s.live.out[..s.read] + s.live.out[s.read..];
      ScanJoin(s.live.out[..s.read], s.live.out[s.read..], 0);
      assert First(s.live.out) == s.sender.term && Scan(s.live.out, 0).0 == s.sender.acks;
      if Clean(t, l, s) {
        CleanVerdict(t, l, s);
      } else {
        assert s.sender.term == Some(STALLED) by { SpoiledVerdict(s.live); }
      }
    }
  }

  lemma SpoiledVerdict(l: Live)
    requires Spoiled(l) && First(l.out) != None
    ensures First(l.out) == Some(STALLED)
  {
  }

  lemma CleanVerdict(t: Transfer, l: Live, s: Link)
    requires Sendable(t) && Idle(l) && Kept(t, l, s) && Clean(t, l, s) && t.Load() + |t.payload| <= U64
    requires s.sender.term != None && Scan(s.live.out, 0) == (s.sender.acks, s.sender.term)
    ensures Honest(t, l.mem, s) && s.sender.term == Some(VERIFIED)
  {
    hide Fed, Stored, Sendable, Holds, Idle, Stream, Scan;
    CleanReplies(t, l, s);
    StreamStubAt(t, l, s.taken);
    StoredPrefix(t, l.mem, |t.payload|);
    assert t.payload[..|t.payload|] == t.payload;
  }

  /** As long as no stall has mattered, memory holds a prefix of the payload. */
  lemma PrefixUnlessSpoiled(t: Transfer, l: Live, ss: seq<Link>, ms: seq<Move>, i: nat)
    requires Sendable(t) && Idle(l) && Faulty(t, l, ss, ms) && i <= |ms| && t.Load() + |t.payload| <= U64
    ensures Spoiled(ss[i].live) || exists k :: Holds(t, l.mem, ss[i].live.mem, k)
  {
    hide Fed, Stream, Sendable, Stored, Holds, Idle, Faulty, Spoiled, Scan;
    FaultyLength(t, l, ss, ms);
    FaultyKept(t, l, ss, ms, i);
    if !Spoiled(ss[i].live) {
      StreamStubAt(t, l, ss[i].taken);
      StoredPrefix(t, l.mem, Seen(t, ss[i].taken));
    }
  }

  /**
    Only the first verdict is honest. A payload may contain a frame of its own; a stub that
    stalls just after the header hears it, loads it at its own address, approves it, and is
    about to run it. What the sender reads first is the stall.
  */
  lemma EmbeddedFrame(t: Transfer, inner: Transfer, l: Live)
    requires Sendable(t) && Sendable(inner) && Idle(l)
    ensures var r := RunStub(l, Bytes8(HeaderBytes(t)) + [Silence] + Bytes8(Stream(inner)));
      && r.stub == Running(inner.Load(), inner.Length(), inner.Entry())
      && r.mem == Stored(l.mem, inner.Load(), 0, inner.payload)
      && r.out == [STALLED] + AckRun(Owed(|inner.payload|)) + [VERIFIED]
      && Scan(r.out, 0) == (0, Some(STALLED))
  {
    hide Fed, HeaderBytes, RunStub, Bytes8, Sendable, Stored, Pack32, Crc32, Unpack32, AckRun;
    var stalled := l.(stub := Hunt(0), out := l.out + [STALLED]);
    RunJoin(l, Bytes8(HeaderBytes(t)) + [Silence], Bytes8(Stream(inner)));
    RunJoin(l, Bytes8(HeaderBytes(t)), [Silence]);
    FedRuns(l, HeaderBytes(t));
    HeaderFed(l, t);
    assert RunStub(Fed(l, HeaderBytes(t)), [Silence]) == stalled by { RunOne(Fed(l, HeaderBytes(t)), Silence); }
    FrameFed(stalled, inner, inner.payload, Pack32(Crc32(inner.payload)));
    UnpackPack32(Crc32(inner.payload));
    assert [] + [STALLED] == [STALLED];
    var rest := AckRun(Owed(|inner.payload|)) + [VERIFIED];
    assert [STALLED] + AckRun(Owed(|inner.payload|)) + [VERIFIED] == [STALLED] + rest;
    ScanJoin([STALLED], rest, 0);
  }
}
