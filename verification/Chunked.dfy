/**
  Chunked transfer decoding (section 7.1 of RFC 9112): decoding a prefix of the input never
  contradicts decoding more of it, and whatever is framed decodes to what was framed.
*/
module Chunked {
  import opened Bytes

  const CHUNK_SIZE_LIMIT: nat := 16 * 1024 * 1024
  const CR: byte := 0x0D
  const LF: byte := 0x0A
  const SEMICOLON: byte := 0x3B
  const CRLF: seq<byte> := [CR, LF]

  datatype Dechunked =
    | Body(body: seq<byte>, complete: bool)
    | BadSizeLine(line: seq<byte>)
    | Oversize(size: nat)
    | MissingDataTerminator

  // ----- searching -----

  /** The first position of CRLF. */
  function FindCrlf(s: seq<byte>): (r: Option<nat>)
    ensures r.Some? ==> r.value + 2 <= |s| && s[r.value] == CR && s[r.value + 1] == LF
    ensures r.Some? ==> forall i :: 0 <= i < r.value ==> !(s[i] == CR && s[i + 1] == LF)
    ensures r == None ==> forall i :: 0 <= i < |s| - 1 ==> !(s[i] == CR && s[i + 1] == LF)
  {
    if |s| < 2 then None
    else if s[0] == CR && s[1] == LF then Some(0)
    else
      var r := FindCrlf(s[1..]);
      assert forall i :: 1 <= i < |s| ==> s[i] == s[1..][i - 1];
      if r == None then None else Some(r.value + 1)
  }

  method Find(s: seq<byte>) returns (r: Option<nat>)
    ensures r == FindCrlf(s)
  {
    for i := 0 to |s|
      invariant forall k :: 0 <= k < i && k + 1 < |s| ==> !(s[k] == CR && s[k + 1] == LF)
    {
      if i + 1 < |s| && s[i] == CR && s[i + 1] == LF { return Some(i); }
    }
    return None;
  }

  // ----- the size line -----

  /** The part before a chunk extension. */
  function BeforeExtension(line: seq<byte>): (text: seq<byte>) {
    if line == [] || line[0] == SEMICOLON then [] else [line[0]] + BeforeExtension(line[1..])
  }

  predicate IsSpace(b: byte) {
    b == 0x20 || b == 0x09 || b == 0x0A || b == 0x0C || b == 0x0D
  }

  function TrimStart(s: seq<byte>): seq<byte> {
    if s != [] && IsSpace(s[0]) then TrimStart(s[1..]) else s
  }

  function TrimEnd(s: seq<byte>): seq<byte> {
    if s != [] && IsSpace(s[|s| - 1]) then TrimEnd(s[..|s| - 1]) else s
  }

  function HexValue(b: byte): Option<nat> {
    if 0x30 <= b <= 0x39 then Some(b - 0x30)
    else if 0x61 <= b <= 0x66 then Some(b - 0x61 + 10)
    else if 0x41 <= b <= 0x46 then Some(b - 0x41 + 10)
    else None
  }

  datatype Size = Size(n: nat) | TooBig(n: nat) | NotHex

  /** The value of hex digits after `size`, unless it passes the limit on the way. */
  function HexFrom(text: seq<byte>, size: nat): Size {
    if text == [] then Size(size)
    else
      var d := HexValue(text[0]);
      if d == None then NotHex
      else if size * 16 + d.value > CHUNK_SIZE_LIMIT then TooBig(size * 16 + d.value)
      else HexFrom(text[1..], size * 16 + d.value)
  }

  function SizeText(line: seq<byte>): seq<byte> {
    TrimEnd(TrimStart(BeforeExtension(line)))
  }

  function SizeOf(line: seq<byte>): Size {
    if SizeText(line) == [] then NotHex else HexFrom(SizeText(line), 0)
  }

  // ----- decoding -----

  function After(data: seq<byte>, rest: Dechunked): Dechunked {
    if rest.Body? then Body(data + rest.body, rest.complete) else rest
  }

  /** What the input decodes to. */
  function Decode(raw: seq<byte>): Dechunked
    decreases |raw|
  {
    var end := FindCrlf(raw);
    if end == None then Body([], false)
    else
      var line, rest := raw[..end.value], raw[end.value + 2..];
      match SizeOf(line)
      case NotHex => BadSizeLine(line)
      case TooBig(n) => Oversize(n)
      case Size(n) => DecodeData(rest, n)
  }

  /** From the data of a chunk of `n` bytes on. */
  function DecodeData(rest: seq<byte>, n: nat): Dechunked
    decreases |rest|
  {
    if n == 0 then Body([], true)
    else if n > |rest| then Body(rest, false)
    else if |rest| < n + 2 then Body(rest[..n], false)
    else if rest[n..n + 2] != CRLF then MissingDataTerminator
    else After(rest[..n], Decode(rest[n + 2..]))
  }

  method ParseSize(line: seq<byte>) returns (r: Size)
    ensures r == SizeOf(line)
  {
    var semi := 0;
    while semi < |line| && line[semi] != SEMICOLON
      invariant 0 <= semi <= |line|
      invariant BeforeExtension(line) == line[..semi] + BeforeExtension(line[semi..])
    {
      assert line[semi..][1..] == line[semi + 1..];
      assert line[..semi + 1] == line[..semi] + [line[semi]];
      semi := semi + 1;
    }
    assert BeforeExtension(line) == line[..semi];
    var text := TrimEnd(TrimStart(line[..semi]));
    if text == [] { return NotHex; }
    var size: nat := 0;
    for i := 0 to |text|
      invariant HexFrom(text, 0) == HexFrom(text[i..], size)
    {
      assert text[i..][1..] == text[i + 1..];
      var digit := HexValue(text[i]);
      if digit == None { return NotHex; }
      size := size * 16 + digit.value;
      if size > CHUNK_SIZE_LIMIT { return TooBig(size); }
    }
    return Size(size);
  }

  /** What decoding from `at` comes to, once the size line there has been found and read. */
  lemma DecodeAt(raw: seq<byte>, at: nat, found: Option<nat>)
    requires at <= |raw| && found == FindCrlf(raw[at..])
    ensures found == None ==> Decode(raw[at..]) == Body([], false)
    ensures found != None ==>
      var line := raw[at..at + found.value];
      var start := at + found.value + 2;
      var size := SizeOf(line);
      && start <= |raw|
      && (size.NotHex? ==> Decode(raw[at..]) == BadSizeLine(line))
      && (size.TooBig? ==> Decode(raw[at..]) == Oversize(size.n))
      && (size.Size? ==> Decode(raw[at..]) == DecodeData(raw[start..], size.n))
  {
    hide SizeOf, DecodeData;
    if found != None {
      var start := at + found.value + 2;
      assert raw[at..][..found.value] == raw[at..at + found.value];
      assert raw[at..][found.value + 2..] == raw[start..];
    }
  }

  lemma DataAt(raw: seq<byte>, start: nat, size: nat)
    requires start <= |raw| && 0 < size && start + size + 2 <= |raw|
    ensures DecodeData(raw[start..], size) ==
      if raw[start + size..start + size + 2] != CRLF then MissingDataTerminator
      else After(raw[start..start + size], Decode(raw[start + size + 2..]))
  {
    hide Decode;
    assert raw[start..][..size] == raw[start..start + size];
    assert raw[start..][size..size + 2] == raw[start + size..start + size + 2];
    assert raw[start..][size + 2..] == raw[start + size + 2..];
  }

  lemma DataCutOff(raw: seq<byte>, start: nat, size: nat)
    requires start <= |raw|
    ensures size == 0 ==> DecodeData(raw[start..], size) == Body([], true)
    ensures size > |raw| - start ==> DecodeData(raw[start..], size) == Body(raw[start..], false)
    ensures 0 < size <= |raw| - start < size + 2 ==> DecodeData(raw[start..], size) == Body(raw[start..start + size], false)
  {
    if size <= |raw| - start { assert raw[start..][..size] == raw[start..start + size]; }
  }

  /** The decoder's loop. */
  method Dechunk(raw: seq<byte>) returns (r: Dechunked)
    ensures r == Decode(raw)
  {
    hide SizeOf, Decode, DecodeData, FindCrlf;
    var body: seq<byte> := [];
    var at := 0;
    assert raw[0..] == raw;
    AfterNothing(Decode(raw));
    while true
      invariant 0 <= at <= |raw| && Decode(raw) == After(body, Decode(raw[at..]))
      decreases |raw| - at
    {
      var found := Find(raw[at..]);
      DecodeAt(raw, at, found);
      if found == None {
        assert body + [] == body;
        return Body(body, false);
      }
      var line := raw[at..at + found.value];
      var parsed := ParseSize(line);
      if parsed.NotHex? { return BadSizeLine(line); }
      if parsed.TooBig? { return Oversize(parsed.n); }
      var size := parsed.n;
      DataCutOff(raw, at + found.value + 2, size);
      if size == 0 {
        assert body + [] == body;
        return Body(body, true);
      }
      var dataStart := at + found.value + 2;
      if size > |raw| - dataStart { return Body(body + raw[dataStart..], false); }
      var dataEnd := dataStart + size;
      if |raw| < dataEnd + 2 { return Body(body + raw[dataStart..dataEnd], false); }
      DataAt(raw, dataStart, size);
      if raw[dataEnd..dataEnd + 2] != CRLF { return MissingDataTerminator; }
      AfterJoin(body, raw[dataStart..dataEnd], Decode(raw[dataEnd + 2..]));
      body := body + raw[dataStart..dataEnd];
      at := dataEnd + 2;
    }
  }

  lemma AfterNothing(r: Dechunked)
    ensures After([], r) == r
  {
    if r.Body? { assert [] + r.body == r.body; }
  }

  lemma AfterJoin(a: seq<byte>, b: seq<byte>, r: Dechunked)
    ensures After(a, After(b, r)) == After(a + b, r)
  {
    if r.Body? { assert a + (b + r.body) == a + b + r.body; }
  }

  // ----- prefixes -----

  /** What may still become of `short` when more input arrives. */
  ghost predicate ExtendsTo(short: Dechunked, long: Dechunked) {
    if short.Body? && !short.complete then long.Body? ==> short.body <= long.body
    else long == short
  }

  lemma FindStable(a: seq<byte>, b: seq<byte>)
    requires FindCrlf(a) != None
    ensures FindCrlf(a + b) == FindCrlf(a)
  {
    var i := FindCrlf(a).value;
    assert (a + b)[i] == CR && (a + b)[i + 1] == LF;
    assert forall k :: 0 <= k < i + 2 ==> (a + b)[k] == a[k];
  }

  /**
    More input never changes an error or a complete body, and an incomplete body only grows.
  */
  lemma {:induction false} PrefixStable(a: seq<byte>, b: seq<byte>)
    ensures ExtendsTo(Decode(a), Decode(a + b))
    decreases |a|
  {
    hide SizeOf, DecodeData, ExtendsTo;
    var end := FindCrlf(a);
    if end == None {
      EmptyExtends(Decode(a + b));
    } else {
      FindStable(a, b);
      var line, rest := a[..end.value], a[end.value + 2..];
      assert (a + b)[..end.value] == line && (a + b)[end.value + 2..] == rest + b;
      SameExtends(Decode(a));
      if SizeOf(line).Size? { DataStable(rest, b, SizeOf(line).n); }
    }
  }

  lemma EmptyExtends(r: Dechunked)
    ensures ExtendsTo(Body([], false), r)
  {
  }

  lemma SameExtends(r: Dechunked)
    ensures ExtendsTo(r, r)
  {
  }

  lemma AfterExtends(data: seq<byte>, short: Dechunked, long: Dechunked)
    requires ExtendsTo(short, long)
    ensures ExtendsTo(After(data, short), After(data, long))
  {
  }

  lemma {:induction false} DataStable(rest: seq<byte>, b: seq<byte>, n: nat)
    ensures ExtendsTo(DecodeData(rest, n), DecodeData(rest + b, n))
    decreases |rest|
  {
    hide Decode;
    if n == 0 {
      SameExtends(Body([], true));
    } else if n > |rest| {
      LongerData(rest, b, n);
      DataBegins(rest + b, rest, n);
    } else if |rest| < n + 2 {
      assert (rest + b)[..n] == rest[..n];
      DataBegins(rest + b, rest[..n], n);
    } else {
      assert (rest + b)[..n] == rest[..n];
      assert (rest + b)[n..n + 2] == rest[n..n + 2];
      assert (rest + b)[n + 2..] == rest[n + 2..] + b;
      PrefixStable(rest[n + 2..], b);
      AfterExtends(rest[..n], Decode(rest[n + 2..]), Decode((rest + b)[n + 2..]));
    }
  }

  /** Whatever body comes of a chunk's data begins with what has arrived of it. */
  lemma DataBegins(rest: seq<byte>, start: seq<byte>, n: nat)
    requires n > 0 && start <= rest && |start| <= n
    ensures DecodeData(rest, n).Body? ==> start <= DecodeData(rest, n).body
  {
    hide Decode;
    if n <= |rest| { assert start <= rest[..n]; }
  }

  lemma LongerData(rest: seq<byte>, b: seq<byte>, n: nat)
    requires n > |rest|
    ensures rest <= rest + b
    ensures n <= |rest + b| ==> rest <= (rest + b)[..n]
  {
  }

  // ----- framing -----

  /** One chunk: its size line, without the line end, and its data. */
  datatype Chunk = Chunk(line: seq<byte>, data: seq<byte>)

  ghost predicate WellFramed(c: Chunk) {
    && SizeOf(c.line) == Size(|c.data|) && |c.data| > 0
    && forall i :: 0 <= i < |c.line| - 1 ==> !(c.line[i] == CR && c.line[i + 1] == LF)
  }

  function Frame(chunks: seq<Chunk>, last: seq<byte>): seq<byte> {
    if chunks == [] then last + CRLF
    else chunks[0].line + CRLF + chunks[0].data + CRLF + Frame(chunks[1..], last)
  }

  function Content(chunks: seq<Chunk>): seq<byte> {
    if chunks == [] then [] else chunks[0].data + Content(chunks[1..])
  }

  lemma LineFound(line: seq<byte>, rest: seq<byte>)
    requires forall i :: 0 <= i < |line| - 1 ==> !(line[i] == CR && line[i + 1] == LF)
    ensures FindCrlf(line + CRLF + rest) == Some(|line|)
  {
    var s := line + CRLF + rest;
    assert s[|line|] == CR && s[|line| + 1] == LF;
    assert forall i :: 0 <= i < |line| ==> s[i] == line[i];
  }

  /** Framed chunks decode to their data, whatever follows the last chunk's line. */
  lemma {:induction false} FrameDecodes(chunks: seq<Chunk>, last: seq<byte>, trailers: seq<byte>)
    requires forall i :: 0 <= i < |chunks| ==> WellFramed(chunks[i])
    requires SizeOf(last) == Size(0) && forall i :: 0 <= i < |last| - 1 ==> !(last[i] == CR && last[i + 1] == LF)
    ensures Decode(Frame(chunks, last) + trailers) == Body(Content(chunks), true)
    decreases |chunks|
  {
    hide SizeOf, Decode, FindCrlf;
    if chunks == [] {
      LastDecodes(last, trailers);
    } else {
      var c, more := chunks[0], Frame(chunks[1..], last) + trailers;
      assert WellFramed(c);
      assert Frame(chunks, last) + trailers == c.line + CRLF + (c.data + CRLF + more);
      ChunkDecodes(c, more);
      FrameDecodes(chunks[1..], last, trailers);
    }
  }

  lemma LastDecodes(last: seq<byte>, trailers: seq<byte>)
    requires SizeOf(last) == Size(0) && forall i :: 0 <= i < |last| - 1 ==> !(last[i] == CR && last[i + 1] == LF)
    ensures Decode(last + CRLF + trailers) == Body([], true)
  {
    hide SizeOf;
    LineFound(last, trailers);
    assert (last + CRLF + trailers)[..|last|] == last;
  }

  lemma ChunkDecodes(c: Chunk, more: seq<byte>)
    requires WellFramed(c)
    ensures Decode(c.line + CRLF + (c.data + CRLF + more)) == After(c.data, Decode(more))
  {
    hide SizeOf, DecodeData;
    var rest := c.data + CRLF + more;
    var raw := c.line + CRLF + rest;
    LineFound(c.line, rest);
    assert raw[..|c.line|] == c.line && raw[|c.line| + 2..] == rest;
    DataDecodes(c.data, more);
  }

  lemma DataDecodes(data: seq<byte>, more: seq<byte>)
    requires |data| > 0
    ensures DecodeData(data + CRLF + more, |data|) == After(data, Decode(more))
  {
    hide Decode;
    var rest := data + CRLF + more;
    assert rest[..|data|] == data && rest[|data|..|data| + 2] == CRLF && rest[|data| + 2..] == more;
  }

  /** No truncation of a well-framed body is an error: it decodes to a prefix of the content. */
  lemma TruncationIsPrefix(chunks: seq<Chunk>, last: seq<byte>, cut: seq<byte>)
    requires forall i :: 0 <= i < |chunks| ==> WellFramed(chunks[i])
    requires SizeOf(last) == Size(0) && forall i :: 0 <= i < |last| - 1 ==> !(last[i] == CR && last[i + 1] == LF)
    requires cut <= Frame(chunks, last)
    ensures Decode(cut).Body? && Decode(cut).body <= Content(chunks)
    ensures Decode(cut).complete ==> Decode(cut).body == Content(chunks)
  {
    hide Decode, SizeOf, Frame, Content;
    var whole := Frame(chunks, last);
    FrameDecodes(chunks, last, []);
    assert whole + [] == whole;
    PrefixStable(cut, whole[|cut|..]);
    assert cut + whole[|cut|..] == whole;
  }

  // ----- hexadecimal size lines -----

  function HexDigit(d: nat): byte
    requires d < 16
  {
    if d < 10 then 0x30 + d else 0x61 + d - 10
  }

  /** `n` in lower-case hexadecimal. */
  function Hex(n: nat): (s: seq<byte>)
    ensures s != [] && forall i :: 0 <= i < |s| ==> HexValue(s[i]) != None
  {
    if n < 16 then [HexDigit(n)] else Hex(n / 16) + [HexDigit(n % 16)]
  }

  lemma {:induction false} HexFromJoin(a: seq<byte>, b: byte, size: nat)
    ensures HexFrom(a + [b], size) ==
      var s := HexFrom(a, size);
      if s.Size? then HexFrom([b], s.n) else s
    decreases |a|
  {
    if a == [] {
      assert a + [b] == [b];
    } else {
      assert (a + [b])[1..] == a[1..] + [b] && (a + [b])[0] == a[0];
      var d := HexValue(a[0]);
      if d != None && size * 16 + d.value <= CHUNK_SIZE_LIMIT { HexFromJoin(a[1..], b, size * 16 + d.value); }
    }
  }

  lemma {:induction false} HexReads(n: nat)
    requires n <= CHUNK_SIZE_LIMIT
    ensures HexFrom(Hex(n), 0) == Size(n)
    decreases n
  {
    if n >= 16 {
      HexReads(n / 16);
      HexFromJoin(Hex(n / 16), HexDigit(n % 16), 0);
      assert [HexDigit(n % 16)][1..] == [];
    }
  }

  lemma {:induction false} NoExtension(s: seq<byte>, tail: seq<byte>)
    requires forall i :: 0 <= i < |s| ==> s[i] != SEMICOLON
    requires tail == [] || tail[0] == SEMICOLON
    ensures BeforeExtension(s + tail) == s
    decreases |s|
  {
    if s == [] {
      assert s + tail == tail;
    } else {
      assert (s + tail)[1..] == s[1..] + tail;
      NoExtension(s[1..], tail);
    }
  }

  /** A hexadecimal size, with or without an extension, is read as the size it stands for. */
  lemma HexLineReads(n: nat, extension: seq<byte>)
    requires n <= CHUNK_SIZE_LIMIT && (extension == [] || extension[0] == SEMICOLON)
    ensures SizeOf(Hex(n) + extension) == Size(n)
  {
    var text := Hex(n);
    NoExtension(text, extension);
    assert !IsSpace(text[0]) && !IsSpace(text[|text| - 1]);
    HexReads(n);
  }

  /** Data of 1 byte to the limit, under its hexadecimal size, is a well-framed chunk. */
  lemma HexChunk(data: seq<byte>, extension: seq<byte>)
    requires 0 < |data| <= CHUNK_SIZE_LIMIT && (extension == [] || extension[0] == SEMICOLON)
    requires forall i :: 0 <= i < |extension| - 1 ==> !(extension[i] == CR && extension[i + 1] == LF)
    ensures WellFramed(Chunk(Hex(|data|) + extension, data))
  {
    hide SizeOf, Hex;
    HexLineReads(|data|, extension);
    var text, line := Hex(|data|), Hex(|data|) + extension;
    forall i | 0 <= i < |line| - 1
      ensures !(line[i] == CR && line[i + 1] == LF)
    {
      if i < |text| {
        assert line[i] == text[i] && HexValue(text[i]) != None;
      } else {
        assert line[i] == extension[i - |text|] && line[i + 1] == extension[i - |text| + 1];
      }
    }
  }
}
