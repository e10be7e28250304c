/**
  The DNS resolver's wire format (sections 4.1.1 to 4.1.4 of RFC 1035): a query out, and the
  walk over a reply that finds its first address record.
*/
module Dns {
  import opened Bytes

  datatype NameError = EmptyLabel | LabelTooLong | NameTooLong

  datatype QueryResult = Query(packet: seq<byte>) | Refused(error: NameError)

  /** What a datagram turned out to be. */
  datatype Reply =
    | NotOurs
    | Rcode(code: nat)
    | NoRecords
    | Address(a: byte, b: byte, c: byte, d: byte)
    | Answered(count: nat)

  function Be16(n: nat): (s: seq<byte>)
    ensures |s| == 2
  {
    [n / 256 % 256, n % 256]
  }

  function Read16(s: seq<byte>, at: nat): nat
    requires at + 2 <= |s|
  {
    var hi: nat := s[at];
    hi * 256 + s[at + 1]
  }

  lemma ReadBe16(n: nat, before: seq<byte>, after: seq<byte>)
    requires n < 0x1_0000
    ensures Read16(before + Be16(n) + after, |before|) == n
  {
    var s := before + Be16(n) + after;
    assert s[|before|] == n / 256 && s[|before| + 1] == n % 256;
  }

  // ----- names -----

  /** How a name ends: at the root, or in a compression pointer. */
  datatype End = Root | Pointer(hi: byte, lo: byte)

  datatype Name = Name(labels: seq<seq<byte>>, end: End)

  ghost predicate LabelOk(l: seq<byte>) {
    1 <= |l| <= 63
  }

  ghost predicate NameOk(n: Name) {
    && (forall i :: 0 <= i < |n.labels| ==> LabelOk(n.labels[i]))
    && (n.end.Pointer? ==> n.end.hi >= 0xC0)
  }

  function EncodeLabels(labels: seq<seq<byte>>): seq<byte>
    requires forall i :: 0 <= i < |labels| ==> |labels[i]| < 256
  {
    if labels == [] then [] else [|labels[0]|] + labels[0] + EncodeLabels(labels[1..])
  }

  function EncodeEnd(e: End): seq<byte> {
    if e.Root? then [0] else [e.hi, e.lo]
  }

  ghost function EncodeName(n: Name): seq<byte>
    requires NameOk(n)
  {
    EncodeLabels(n.labels) + EncodeEnd(n.end)
  }

  /** The end of a (possibly compressed) name at `at`. */
  function SkipName(packet: seq<byte>, at: nat): (r: Option<nat>)
    ensures r.Some? ==> at < r.value <= |packet| + 1
    decreases |packet| - at
  {
    if at >= |packet| then None
    else
      var len := packet[at];
      if len == 0 then Some(at + 1)
      else if len >= 0xC0 then Some(at + 2)
      else SkipName(packet, at + 1 + len)
  }

  method SkipNameLoop(packet: seq<byte>, start: nat) returns (r: Option<nat>)
    ensures r == SkipName(packet, start)
  {
    var at := start;
    while at < |packet|
      invariant SkipName(packet, at) == SkipName(packet, start)
      decreases |packet| - at
    {
      var len := packet[at];
      if len == 0 { return Some(at + 1); }
      if len >= 0xC0 { return Some(at + 2); }
      at := at + 1 + len;
    }
    return None;
  }

  /** Skipping an encoded name lands right after it, wherever it stands. */
  lemma {:induction false} SkipsName(before: seq<byte>, labels: seq<seq<byte>>, end: End, after: seq<byte>)
    requires NameOk(Name(labels, end))
    ensures SkipName(before + EncodeName(Name(labels, end)) + after, |before|)
         == Some(|before| + |EncodeName(Name(labels, end))|)
    decreases |labels|
  {
    var packet := before + EncodeName(Name(labels, end)) + after;
    if labels == [] {
      assert EncodeName(Name(labels, end)) == EncodeEnd(end);
      assert packet[|before|] == EncodeEnd(end)[0];
    } else {
      var l, more := labels[0], labels[1..];
      assert LabelOk(l);
      var longer := before + [|l|] + l;
      assert EncodeName(Name(labels, end)) == [|l|] + l + EncodeName(Name(more, end));
      assert packet == longer + EncodeName(Name(more, end)) + after;
      assert packet[|before|] == |l|;
      SkipsName(longer, more, end, after);
    }
  }

  // ----- queries -----

  const QueryHead: seq<byte> := [0x01, 0x00, 0x00, 0x01, 0, 0, 0, 0, 0, 0]
  const TypeAClassIn: seq<byte> := [0x00, 0x01, 0x00, 0x01]

  /** One A/IN question for `labels`, unless the name breaks a wire limit. */
  method MakeQuery(id: nat, labels: seq<seq<byte>>) returns (r: QueryResult)
    requires id < 0x1_0000
    ensures r.Query? <==>
      && labels != [] && (forall i :: 0 <= i < |labels| ==> LabelOk(labels[i]))
      && |EncodeLabels(labels)| + 1 <= 255
    ensures r.Query? ==>
      r.packet == [id / 256, id % 256, 1, 0, 0, 1, 0, 0, 0, 0, 0, 0] + EncodeName(Name(labels, Root)) + [0, 1, 0, 1]
    ensures r == Refused(EmptyLabel) ==>
      labels == [] || exists i :: 0 <= i < |labels| && labels[i] == [] && forall j :: 0 <= j < i ==> LabelOk(labels[j])
    ensures r == Refused(LabelTooLong) ==>
      exists i :: 0 <= i < |labels| && |labels[i]| > 63 && forall j :: 0 <= j < i ==> LabelOk(labels[j])
    ensures r == Refused(NameTooLong) ==>
      labels != [] && (forall i :: 0 <= i < |labels| ==> LabelOk(labels[i])) && |EncodeLabels(labels)| + 1 > 255
  {
    var packet := Be16(id) + QueryHead;
    var nameStarts := |packet|;
    var i := 0;
    assert labels[..0] == [] && packet == Be16(id) + QueryHead + EncodeLabels([]);
    hide EncodeLabels;
    while i < |labels|
      invariant 0 <= i <= |labels| && forall j :: 0 <= j < i ==> LabelOk(labels[j])
      invariant packet == Be16(id) + QueryHead + EncodeLabels(labels[..i])
    {
      var text := labels[i];
      if text == [] { return Refused(EmptyLabel); }
      if |text| > 63 { return Refused(LabelTooLong); }
      LabelsSnoc(labels[..i], text);
      assert labels[..i + 1] == labels[..i] + [text];
      packet := packet + [|text|] + text;
      i := i + 1;
    }
    assert labels[..|labels|] == labels;
    if |labels| == 0 { return Refused(EmptyLabel); }
    packet := packet + [0];
    if |packet| - nameStarts > 255 { return Refused(NameTooLong); }
    packet := packet + TypeAClassIn;
    QueryBytes(id, labels);
    return Query(packet);
  }

  lemma QueryBytes(id: nat, labels: seq<seq<byte>>)
    requires id < 0x1_0000 && NameOk(Name(labels, Root))
    ensures Be16(id) + QueryHead + EncodeLabels(labels) + [0] + TypeAClassIn
         == [id / 256, id % 256, 1, 0, 0, 1, 0, 0, 0, 0, 0, 0] + EncodeName(Name(labels, Root)) + [0, 1, 0, 1]
  {
    hide EncodeLabels;
    assert Be16(id) + QueryHead == [id / 256, id % 256, 1, 0, 0, 1, 0, 0, 0, 0, 0, 0];
    assert EncodeName(Name(labels, Root)) == EncodeLabels(labels) + [0];
  }

  lemma {:induction false} LabelsSnoc(labels: seq<seq<byte>>, l: seq<byte>)
    requires |l| < 256 && forall i :: 0 <= i < |labels| ==> |labels[i]| < 256
    ensures EncodeLabels(labels + [l]) == EncodeLabels(labels) + [|l|] + l
    decreases |labels|
  {
    if labels == [] {
      assert [l][1..] == [];
      assert EncodeLabels([l]) == [|l|] + l + [];
    } else {
      assert (labels + [l])[0] == labels[0] && (labels + [l])[1..] == labels[1..] + [l];
      LabelsSnoc(labels[1..], l);
    }
  }

  // ----- replies -----

  /** Past `n` questions from `at`. */
  function SkipQuestions(packet: seq<byte>, at: nat, n: nat): Option<nat>
    decreases n
  {
    if n == 0 then Some(at)
    else
      var next := SkipName(packet, at);
      if next == None then None else SkipQuestions(packet, next.value + 4, n - 1)
  }

  /** The first address among `n` records from `at`; `count` is the header's. */
  function ScanAnswers(packet: seq<byte>, at: nat, n: nat, count: nat): Reply
    decreases n
  {
    if n == 0 then Answered(count)
    else
      var name := SkipName(packet, at);
      if name == None || |packet| < name.value + 10 then Answered(count)
      else
        var fixed := name.value;
        var len := Read16(packet, fixed + 8);
        var data := fixed + 10;
        if Read16(packet, fixed) == 1 && len == 4 && |packet| >= data + 4 then
          Address(packet[data], packet[data + 1], packet[data + 2], packet[data + 3])
        else ScanAnswers(packet, data + len, n - 1, count)
  }

  function Parse(packet: seq<byte>, id: nat): Reply {
    if |packet| < 12 || packet[0..2] != Be16(id) || packet[2] < 0x80 then NotOurs
    else if packet[3] % 16 != 0 then Rcode(packet[3] % 16)
    else if Read16(packet, 6) == 0 then NoRecords
    else
      var at := SkipQuestions(packet, 12, Read16(packet, 4));
      if at == None then Answered(Read16(packet, 6)) else ScanAnswers(packet, at.value, Read16(packet, 6), Read16(packet, 6))
  }

  /** The parser's two loops; the cursor only moves forward. */
  method ParseReply(packet: seq<byte>, id: nat) returns (r: Reply)
    ensures r == Parse(packet, id)
  {
    hide Read16;
    if |packet| < 12 { return NotOurs; }
    if packet[0..2] != Be16(id) { return NotOurs; }
    if packet[2] < 0x80 { return NotOurs; }
    var rcode := packet[3] % 16;
    if rcode != 0 { return Rcode(rcode); }
    var questions, answers := Read16(packet, 4), Read16(packet, 6);
    if answers == 0 { return NoRecords; }
    var at := 12;
    for q := 0 to questions
      invariant 12 <= at
      invariant SkipQuestions(packet, 12, questions) == SkipQuestions(packet, at, questions - q)
    {
      var next := SkipNameLoop(packet, at);
      if next == None { return Answered(answers); }
      assert at < next.value;
      at := next.value + 4;
    }
    ghost var first := at;
    for k := 0 to answers
      invariant first <= at
      invariant ScanAnswers(packet, first, answers, answers) == ScanAnswers(packet, at, answers - k, answers)
    {
      var name := SkipNameLoop(packet, at);
      if name == None { return Answered(answers); }
      var afterName := name.value;
      if |packet| < afterName + 10 { return Answered(answers); }
      var rtype, rdlength := Read16(packet, afterName), Read16(packet, afterName + 8);
      var rdata := afterName + 10;
      if rtype == 1 && rdlength == 4 && |packet| >= rdata + 4 {
        return Address(packet[rdata], packet[rdata + 1], packet[rdata + 2], packet[rdata + 3]);
      }
      at := rdata + rdlength;
    }
    return Answered(answers);
  }

  // ----- well-formed replies -----

  datatype Question = Question(name: Name, tail: seq<byte>)

  datatype Record = Record(name: Name, rtype: nat, class_: nat, ttl: seq<byte>, data: seq<byte>)

  ghost predicate QuestionOk(q: Question) {
    NameOk(q.name) && |q.tail| == 4
  }

  ghost predicate RecordOk(r: Record) {
    NameOk(r.name) && r.rtype < 0x1_0000 && r.class_ < 0x1_0000 && |r.ttl| == 4 && |r.data| < 0x1_0000
  }

  ghost function EncodeQuestions(qs: seq<Question>): seq<byte>
    requires forall i :: 0 <= i < |qs| ==> QuestionOk(qs[i])
  {
    if qs == [] then []
    else
      assert QuestionOk(qs[0]);
      EncodeName(qs[0].name) + qs[0].tail + EncodeQuestions(qs[1..])
  }

  function Fixed(r: Record): (s: seq<byte>)
    requires |r.ttl| == 4
    ensures |s| == 10
  {
    Be16(r.rtype) + Be16(r.class_) + r.ttl + Be16(|r.data|)
  }

  ghost function EncodeRecords(rs: seq<Record>): seq<byte>
    requires forall i :: 0 <= i < |rs| ==> RecordOk(rs[i])
  {
    if rs == [] then []
    else
      assert RecordOk(rs[0]);
      EncodeRecord(rs[0]) + EncodeRecords(rs[1..])
  }

  ghost function EncodeRecord(r: Record): seq<byte>
    requires RecordOk(r)
  {
    EncodeName(r.name) + Fixed(r) + r.data
  }

  predicate IsAddress(r: Record) {
    r.rtype == 1 && |r.data| == 4
  }

  /** The first address record's address, whatever its class; the count if there is none. */
  function FirstAddress(rs: seq<Record>, count: nat): Reply {
    if rs == [] then Answered(count)
    else if IsAddress(rs[0]) then Address(rs[0].data[0], rs[0].data[1], rs[0].data[2], rs[0].data[3])
    else FirstAddress(rs[1..], count)
  }

  lemma QuestionSkipped(before: seq<byte>, q: Question, after: seq<byte>)
    requires QuestionOk(q)
    ensures SkipName(before + (EncodeName(q.name) + q.tail) + after, |before|) == Some(|before| + |EncodeName(q.name)|)
  {
    hide EncodeName, NameOk, SkipName;
    SkipsName(before, q.name.labels, q.name.end, q.tail + after);
    assert before + (EncodeName(q.name) + q.tail) + after == before + EncodeName(q.name) + (q.tail + after);
  }

  lemma {:induction false} QuestionsSkipped(before: seq<byte>, qs: seq<Question>, after: seq<byte>)
    requires forall i :: 0 <= i < |qs| ==> QuestionOk(qs[i])
    ensures SkipQuestions(before + EncodeQuestions(qs) + after, |before|, |qs|) == Some(|before| + |EncodeQuestions(qs)|)
    decreases |qs|
  {
    hide EncodeName, NameOk, SkipName;
    if qs != [] {
      var q, more := qs[0], EncodeQuestions(qs[1..]);
      assert QuestionOk(q);
      var one := EncodeName(q.name) + q.tail;
      var packet := before + EncodeQuestions(qs) + after;
      assert packet == before + one + (more + after);
      QuestionSkipped(before, q, more + after);
      assert packet == before + one + more + after;
      QuestionsSkipped(before + one, qs[1..], after);
    }
  }

  lemma FixedRead(before: seq<byte>, r: Record, after: seq<byte>)
    requires RecordOk(r)
    ensures var packet := before + Fixed(r) + after;
      Read16(packet, |before|) == r.rtype && Read16(packet, |before| + 8) == |r.data|
  {
    var packet := before + Fixed(r) + after;
    assert packet == before + Be16(r.rtype) + (Be16(r.class_) + r.ttl + Be16(|r.data|) + after);
    ReadBe16(r.rtype, before, Be16(r.class_) + r.ttl + Be16(|r.data|) + after);
    var front := before + Be16(r.rtype) + Be16(r.class_) + r.ttl;
    assert packet == front + Be16(|r.data|) + after;
    ReadBe16(|r.data|, front, after);
  }

  /** Where the parts of one record are found. */
  lemma RecordRead(before: seq<byte>, r: Record, after: seq<byte>)
    requires RecordOk(r)
    ensures var packet := before + EncodeRecord(r) + after;
      var fixed := |before| + |EncodeName(r.name)|;
      && SkipName(packet, |before|) == Some(fixed)
      && fixed + 10 + |r.data| == |before + EncodeRecord(r)| <= |packet|
      && Read16(packet, fixed) == r.rtype && Read16(packet, fixed + 8) == |r.data|
      && packet[fixed + 10..fixed + 10 + |r.data|] == r.data
  {
    hide EncodeName, NameOk, SkipName, Read16, Fixed;
    var name, fixed, data := EncodeName(r.name), Fixed(r), r.data;
    var packet := before + EncodeRecord(r) + after;
    assert packet == before + name + (fixed + data + after);
    SkipsName(before, r.name.labels, r.name.end, fixed + data + after);
    assert packet == before + name + fixed + (data + after);
    FixedRead(before + name, r, data + after);
    assert packet == before + name + fixed + data + after;
  }

  lemma RecordScanned(before: seq<byte>, r: Record, after: seq<byte>, n: nat, count: nat)
    requires RecordOk(r)
    ensures var packet := before + EncodeRecord(r) + after;
      ScanAnswers(packet, |before|, n + 1, count) ==
        if IsAddress(r) then Address(r.data[0], r.data[1], r.data[2], r.data[3])
        else ScanAnswers(packet, |before + EncodeRecord(r)|, n, count)
  {
    hide EncodeRecord, EncodeName, NameOk, SkipName, Read16;
    RecordRead(before, r, after);
    var packet := before + EncodeRecord(r) + after;
    var data := |before| + |EncodeName(r.name)| + 10;
    if IsAddress(r) {
      var slice := packet[data..data + 4];
      assert slice[0] == packet[data] && slice[1] == packet[data + 1] && slice[2] == packet[data + 2] && slice[3] == packet[data + 3];
    }
  }

  lemma {:induction false} RecordsScanned(before: seq<byte>, rs: seq<Record>, after: seq<byte>, count: nat)
    requires forall i :: 0 <= i < |rs| ==> RecordOk(rs[i])
    ensures ScanAnswers(before + EncodeRecords(rs) + after, |before|, |rs|, count) == FirstAddress(rs, count)
    decreases |rs|
  {
    hide EncodeRecord, RecordOk, SkipName, Read16;
    if rs != [] {
      var r, more := rs[0], EncodeRecords(rs[1..]);
      assert RecordOk(r);
      var one := EncodeRecord(r);
      var packet := before + EncodeRecords(rs) + after;
      assert packet == before + one + (more + after);
      RecordScanned(before, r, more + after, |rs| - 1, count);
      assert packet == before + one + more + after;
      RecordsScanned(before + one, rs[1..], after, count);
    }
  }

  /** A reply's bytes: header (with the other sections' counts), questions, answers, and what follows. */
  ghost function EncodeReply(id: nat, flags: seq<byte>, counts: seq<byte>, qs: seq<Question>, rs: seq<Record>, rest: seq<byte>): seq<byte>
    requires |flags| == 2 && |counts| == 4
    requires forall i :: 0 <= i < |qs| ==> QuestionOk(qs[i])
    requires forall i :: 0 <= i < |rs| ==> RecordOk(rs[i])
  {
    Be16(id) + flags + Be16(|qs|) + Be16(|rs|) + counts + EncodeQuestions(qs) + EncodeRecords(rs) + rest
  }

  /**
    For every well-formed answer to our query the parser finds its first address record, and
    reports the answer count exactly when there is none.
  */
  lemma ReplyParsed(id: nat, flags: seq<byte>, counts: seq<byte>, qs: seq<Question>, rs: seq<Record>, rest: seq<byte>)
    requires id < 0x1_0000 && |flags| == 2 && flags[0] >= 0x80 && flags[1] % 16 == 0 && |counts| == 4
    requires |qs| < 0x1_0000 && 0 < |rs| < 0x1_0000
    requires forall i :: 0 <= i < |qs| ==> QuestionOk(qs[i])
    requires forall i :: 0 <= i < |rs| ==> RecordOk(rs[i])
    ensures Parse(EncodeReply(id, flags, counts, qs, rs, rest), id) == FirstAddress(rs, |rs|)
  {
    hide EncodeQuestions, EncodeRecords, SkipQuestions, ScanAnswers, FirstAddress, Read16, Be16, QuestionOk, RecordOk;
    var head := Be16(id) + flags + Be16(|qs|) + Be16(|rs|) + counts;
    var q, a := EncodeQuestions(qs), EncodeRecords(rs);
    Regroup(head, q, a, rest);
    HeadRead(id, flags, |qs|, |rs|, counts, q + a + rest);
    QuestionsSkipped(head, qs, a + rest);
    RecordsScanned(head + q, rs, rest, |rs|);
  }

  lemma Regroup(a: seq<byte>, b: seq<byte>, c: seq<byte>, d: seq<byte>)
    ensures a + b + c + d == a + (b + c + d) == a + b + (c + d)
  {
  }

  lemma HeadRead(id: nat, flags: seq<byte>, questions: nat, answers: nat, counts: seq<byte>, tail: seq<byte>)
    requires |flags| == 2 && |counts| == 4 && questions < 0x1_0000 && answers < 0x1_0000
    ensures var packet := Be16(id) + flags + Be16(questions) + Be16(answers) + counts + tail;
      && packet[0..2] == Be16(id) && packet[2] == flags[0] && packet[3] == flags[1]
      && Read16(packet, 4) == questions && Read16(packet, 6) == answers
  {
    hide Read16;
    var packet := Be16(id) + flags + Be16(questions) + Be16(answers) + counts + tail;
    ReadBe16(questions, Be16(id) + flags, Be16(answers) + counts + tail);
    assert packet == Be16(id) + flags + Be16(questions) + (Be16(answers) + counts + tail);
    ReadBe16(answers, Be16(id) + flags + Be16(questions), counts + tail);
    assert packet == Be16(id) + flags + Be16(questions) + Be16(answers) + (counts + tail);
  }

  /** `FirstAddress` is what it says: the first record of type A with four bytes, or none. */
  lemma {:induction false} FirstAddressIs(rs: seq<Record>, count: nat)
    ensures var r := FirstAddress(rs, count);
      if r.Address? then
        exists i :: (0 <= i < |rs| && IsAddress(rs[i]) && rs[i].data == [r.a, r.b, r.c, r.d]
                     && forall j :: 0 <= j < i ==> !IsAddress(rs[j]))
      else r == Answered(count) && forall i :: 0 <= i < |rs| ==> !IsAddress(rs[i])
    decreases |rs|
  {
    if rs != [] {
      if IsAddress(rs[0]) {
        var r := FirstAddress(rs, count);
        assert rs[0].data == [r.a, r.b, r.c, r.d];
      } else {
        FirstAddressIs(rs[1..], count);
        var r := FirstAddress(rs[1..], count);
        if r.Address? {
          var i :| 0 <= i < |rs| - 1 && IsAddress(rs[1..][i]) && rs[1..][i].data == [r.a, r.b, r.c, r.d]
                && forall j :: 0 <= j < i ==> !IsAddress(rs[1..][j]);
          assert forall j :: 1 <= j < i + 1 ==> rs[j] == rs[1..][j - 1];
          assert rs[i + 1] == rs[1..][i];
        } else {
          assert forall j :: 1 <= j < |rs| ==> rs[j] == rs[1..][j - 1];
        }
      }
    }
  }

  // ----- what the bytes of a query and of a reply say -----

  /** The labels of an uncompressed name at `at`, read by their lengths. */
  function LabelsAt(packet: seq<byte>, at: nat): Option<seq<seq<byte>>>
    decreases |packet| - at
  {
    if at >= |packet| || packet[at] > 63 then None
    else if packet[at] == 0 then Some([])
    else if at + 1 + packet[at] > |packet| then None
    else
      var more := LabelsAt(packet, at + 1 + packet[at]);
      if more == None then None else Some([packet[at + 1..at + 1 + packet[at]]] + more.value)
  }

  /** A server that reads the name of a query finds the labels asked for. */
  lemma {:induction false} NameReads(before: seq<byte>, labels: seq<seq<byte>>, after: seq<byte>)
    requires NameOk(Name(labels, Root))
    ensures LabelsAt(before + EncodeName(Name(labels, Root)) + after, |before|) == Some(labels)
    decreases |labels|
  {
    var packet := before + EncodeName(Name(labels, Root)) + after;
    if labels == [] {
      assert EncodeName(Name(labels, Root)) == [0];
      assert packet[|before|] == 0;
    } else {
      var l, more := labels[0], labels[1..];
      assert LabelOk(l);
      assert EncodeName(Name(labels, Root)) == [|l|] + l + EncodeName(Name(more, Root));
      var longer := before + [|l|] + l;
      assert packet == longer + EncodeName(Name(more, Root)) + after;
      assert packet[|before|] == |l|;
      assert packet[|before| + 1..|before| + 1 + |l|] == l;
      NameReads(longer, more, after);
      assert labels == [l] + more;
    }
  }

  /** The header alone decides whether a datagram is ours, a refusal, or empty. */
  lemma HeaderDecides(packet: seq<byte>, id: nat)
    requires id < 0x1_0000
    ensures var r := Parse(packet, id);
      if |packet| < 12 || packet[0] as int * 256 + packet[1] != id || packet[2] < 128 then r == NotOurs
      else if packet[3] % 16 != 0 then r == Rcode(packet[3] % 16)
      else if packet[6] == 0 && packet[7] == 0 then r == NoRecords
      else r.Address? || r == Answered(packet[6] as int * 256 + packet[7])
  {
    hide SkipQuestions;
    if |packet| >= 12 {
      assert packet[0..2] == Be16(id) <==> packet[0] == id / 256 && packet[1] == id % 256 by {
        assert packet[0..2] == [packet[0], packet[1]];
      }
      var n := Read16(packet, 6);
      var at := SkipQuestions(packet, 12, Read16(packet, 4));
      if at != None { ScanFinds(packet, at.value, n, n); }
    }
  }

  lemma {:induction false} ScanFinds(packet: seq<byte>, at: nat, n: nat, count: nat)
    ensures ScanAnswers(packet, at, n, count).Address? || ScanAnswers(packet, at, n, count) == Answered(count)
    decreases n
  {
    hide SkipName, Read16;
    var name := SkipName(packet, at);
    if n > 0 && name != None && |packet| >= name.value + 10 {
      ScanFinds(packet, name.value + 10 + Read16(packet, name.value + 8), n - 1, count);
    }
  }

  lemma {:induction false} SkipGrows(a: seq<byte>, b: seq<byte>, at: nat)
    requires SkipName(a, at) != None
    ensures SkipName(a + b, at) == SkipName(a, at)
    decreases |a| - at
  {
    assert (a + b)[at] == a[at];
    if 0 < a[at] < 0xC0 { SkipGrows(a, b, at + 1 + a[at]); }
  }

  lemma {:induction false} QuestionsGrow(a: seq<byte>, b: seq<byte>, at: nat, n: nat)
    requires SkipQuestions(a, at, n) != None
    ensures SkipQuestions(a + b, at, n) == SkipQuestions(a, at, n)
    decreases n
  {
    hide SkipName;
    if n > 0 {
      SkipGrows(a, b, at);
      QuestionsGrow(a, b, SkipName(a, at).value + 4, n - 1);
    }
  }

  lemma ReadGrows(a: seq<byte>, b: seq<byte>, at: nat)
    requires at + 2 <= |a|
    ensures Read16(a + b, at) == Read16(a, at)
  {
  }

  lemma {:induction false} AnswersGrow(a: seq<byte>, b: seq<byte>, at: nat, n: nat, count: nat)
    requires ScanAnswers(a, at, n, count).Address?
    ensures ScanAnswers(a + b, at, n, count) == ScanAnswers(a, at, n, count)
    decreases n
  {
    hide SkipName, Read16;
    var fixed := SkipName(a, at).value;
    var len, data := Read16(a, fixed + 8), fixed + 10;
    SkipGrows(a, b, at);
    ReadGrows(a, b, fixed);
    ReadGrows(a, b, fixed + 8);
    if !(Read16(a, fixed) == 1 && len == 4) { AnswersGrow(a, b, data + len, n - 1, count); }
  }

  /** A reply cut off anywhere behind its header never names another address: it gives what the
      whole reply gives, or only the answer count where the whole one has an address. */
  lemma CutReply(a: seq<byte>, b: seq<byte>, id: nat)
    requires |a| >= 12 && id < 0x1_0000
    ensures Parse(a, id) == Parse(a + b, id) || (Parse(a, id) == Answered(a[6] as int * 256 + a[7]) && Parse(a + b, id).Address?)
  {
    hide SkipQuestions, ScanAnswers, Be16;
    HeaderDecides(a, id);
    HeaderDecides(a + b, id);
    assert (a + b)[0..2] == a[0..2];
    var questions, answers := Read16(a, 4), Read16(a, 6);
    if Parse(a, id).Address? {
      QuestionsGrow(a, b, 12, questions);
      AnswersGrow(a, b, SkipQuestions(a, 12, questions).value, answers, answers);
    }
  }
}
