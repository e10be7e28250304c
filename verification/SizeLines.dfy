/**
  Chunked bodies from the outside: which size lines stand for which number, and what becomes of
  any body that breaks off or goes wrong after some well-framed chunks.
*/
module SizeLines {
  import opened Bytes
  import opened Chunked

  // ----- hexadecimal numbers -----

  const LOWER := "0123456789abcdef"
  const UPPER := "0123456789ABCDEF"

  ghost predicate DigitIs(b: byte, d: nat) {
    d < 16 && (LOWER[d] as int == b || UPPER[d] as int == b)
  }

  ghost predicate IsDigit(b: byte) {
    exists d: nat :: DigitIs(b, d)
  }

  ghost predicate AllDigits(text: seq<byte>) {
    forall i :: 0 <= i < |text| ==> IsDigit(text[i])
  }

  ghost function Digit(b: byte): nat {
    if IsDigit(b) then var d: nat :| DigitIs(b, d); d else 0
  }

  /** The number that digits stand for, the last one the least. */
  ghost function Number(text: seq<byte>): nat {
    if text == [] then 0 else 16 * Number(text[..|text| - 1]) + Digit(text[|text| - 1])
  }

  lemma TableAt(d: nat)
    requires d < 16
    ensures LOWER[d] as int == (if d < 10 then 0x30 + d else 0x61 + d - 10)
    ensures UPPER[d] as int == (if d < 10 then 0x30 + d else 0x41 + d - 10)
  {
  }

  lemma HexValueIs(b: byte)
    ensures HexValue(b) == None <==> !IsDigit(b)
    ensures HexValue(b) != None ==> HexValue(b).value == Digit(b) && IsDigit(b)
  {
    forall d: nat | DigitIs(b, d)
      ensures HexValue(b) == Some(d)
    {
      TableAt(d);
    }
    if HexValue(b) != None {
      TableAt(HexValue(b).value);
      assert DigitIs(b, HexValue(b).value);
    }
  }

  /** How reading the digits of `text` ends: at its end, within 16 MiB; at the first digit that
      takes the number past that; or before it, at something that is no digit. */
  ghost predicate Ends(text: seq<byte>, size: Size) {
    if size.Size? then AllDigits(text) && size.n == Number(text) <= 16777216
    else if size.TooBig? then exists k :: 0 < k <= |text| && PassesAt(text, k, size.n)
    else exists k :: 0 <= k < |text| && FailsAt(text, k)
  }

  ghost predicate PassesAt(text: seq<byte>, k: nat, n: nat)
    requires 0 < k <= |text|
  {
    AllDigits(text[..k]) && Number(text[..k - 1]) <= 16777216 < n == Number(text[..k])
  }

  ghost predicate FailsAt(text: seq<byte>, k: nat)
    requires k < |text|
  {
    AllDigits(text[..k]) && Number(text[..k]) <= 16777216 && !AllDigits(text[..k + 1])
  }

  /** A text ends in one way only. */
  lemma EndsOnce(text: seq<byte>, a: Size, b: Size)
    requires Ends(text, a) && Ends(text, b)
    ensures a == b
  {
    forall i, j {:trigger text[..i], text[..j]} | 0 <= i <= j <= |text|
      ensures AllDigits(text[..j]) ==> AllDigits(text[..i]) && Number(text[..i]) <= Number(text[..j])
    {
      Prefixes(text, i, j);
    }
    assert text[..|text|] == text;
  }

  lemma LastDigit(text: seq<byte>)
    requires text != []
    ensures AllDigits(text) <==> AllDigits(text[..|text| - 1]) && IsDigit(text[|text| - 1])
  {
    hide IsDigit;
    var n := |text| - 1;
    assert forall i :: 0 <= i < n ==> text[..n][i] == text[i];
    if AllDigits(text[..n]) && IsDigit(text[n]) {
      forall i | 0 <= i < |text|
        ensures IsDigit(text[i])
      {
        assert i < n ==> IsDigit(text[..n][i]);
      }
    }
  }

  lemma {:induction false} Prefixes(text: seq<byte>, i: nat, j: nat)
    requires i <= j <= |text|
    ensures AllDigits(text[..j]) ==> AllDigits(text[..i])
    ensures Number(text[..i]) <= Number(text[..j])
    decreases j
  {
    hide AllDigits, Digit;
    if i < j {
      Prefixes(text, i, j - 1);
      assert text[..j][..j - 1] == text[..j - 1];
      LastDigit(text[..j]);
    }
  }

  lemma {:induction false} HexFromEnds(text: seq<byte>)
    ensures Ends(text, HexFrom(text, 0))
    decreases |text|
  {
    hide HexFrom, HexValue;
    if text == [] {
      NoDigits();
    } else {
      var n := |text| - 1;
      HexFromEnds(text[..n]);
      assert text[..n] + [text[n]] == text;
      HexFromJoin(text[..n], text[n], 0);
      OneDigit(text[n], if HexFrom(text[..n], 0).Size? then HexFrom(text[..n], 0).n else 0);
      HexValueIs(text[n]);
      Longer(text, HexFrom(text[..n], 0), HexFrom(text, 0));
    }
  }

  lemma NoDigits()
    ensures Ends([], HexFrom([], 0))
  {
  }

  lemma OneDigit(b: byte, size: nat)
    ensures HexFrom([b], size) ==
      var d := HexValue(b);
      if d == None then NotHex else if size * 16 + d.value > 16777216 then TooBig(size * 16 + d.value) else Size(size * 16 + d.value)
  {
    assert [b][1..] == [];
  }

  lemma Longer(text: seq<byte>, before: Size, after: Size)
    requires text != [] && Ends(text[..|text| - 1], before)
    requires !before.Size? ==> after == before
    requires before.Size? ==>
      var b := text[|text| - 1];
      after == if !IsDigit(b) then NotHex
               else if before.n * 16 + Digit(b) > 16777216 then TooBig(before.n * 16 + Digit(b)) else Size(before.n * 16 + Digit(b))
    ensures Ends(text, after)
  {
    hide Digit, IsDigit, AllDigits;
    var n := |text| - 1;
    assert text[..n + 1] == text;
    assert forall k :: 0 <= k <= n ==> text[..n][..k] == text[..k];
    assert text[..n][..n] == text[..n];
    match before {
      case Size(_) =>
        LastDigit(text);
        assert text[..|text|] == text;
        if !after.Size? {
          assert text[..n] == text[..n + 1][..n];
          if after.TooBig? { assert PassesAt(text, n + 1, after.n); } else { assert FailsAt(text, n); }
        }
      case TooBig(m) =>
        var k :| 0 < k <= n && PassesAt(text[..n], k, m);
        assert PassesAt(text, k, m);
      case NotHex =>
        var k :| 0 <= k < n && FailsAt(text[..n], k);
        assert FailsAt(text, k);
    }
  }

  // ----- whole size lines -----

  /** Space, tab, line feed, form feed and carriage return. */
  ghost predicate Blank(s: seq<byte>) {
    forall i :: 0 <= i < |s| ==> s[i] in {0x20, 0x09, 0x0A, 0x0C, 0x0D}
  }

  ghost predicate Trimmed(text: seq<byte>) {
    text != [] ==> !Blank([text[0]]) && !Blank([text[|text| - 1]])
  }

  /** A line is white space, the size, white space, and an extension from a semicolon on; it
      says what the size says, and is refused if there is none. */
  lemma SizeLine(left: seq<byte>, text: seq<byte>, right: seq<byte>, extension: seq<byte>)
    requires Blank(left) && Blank(right) && Trimmed(text) && (extension == [] || extension[0] == 0x3B)
    requires 0x3B !in text
    ensures var size := SizeOf(left + text + right + extension);
      if text == [] then size == NotHex else Ends(text, size)
  {
    hide TrimStart, TrimEnd, BeforeExtension, HexFrom, Ends;
    var head := left + text + right;
    forall i | 0 <= i < |head|
      ensures head[i] != SEMICOLON
    {
      if |left| <= i < |left| + |text| { assert head[i] == text[i - |left|]; }
      else if i < |left| { assert head[i] == left[i]; } else { assert head[i] == right[i - |left| - |text|]; }
    }
    NoExtension(head, extension);
    assert head == left + (text + right);
    StartTrimmed(left, text, right);
    if text != [] {
      EndTrimmed(text, right);
      HexFromEnds(text);
    }
  }

  lemma {:induction false} StartTrimmed(left: seq<byte>, text: seq<byte>, right: seq<byte>)
    requires Blank(left) && Blank(right) && Trimmed(text)
    ensures text != [] ==> TrimStart(left + (text + right)) == text + right
    ensures text == [] ==> TrimEnd(TrimStart(left + (text + right))) == []
    decreases |left|
  {
    var s := left + (text + right);
    if left != [] {
      assert s[0] == left[0] && s[1..] == left[1..] + (text + right);
      StartTrimmed(left[1..], text, right);
    } else if text != [] {
      assert s == text + right && s[0] == text[0];
      assert !IsSpace(text[0]) by { assert [text[0]][0] == text[0]; }
    } else {
      assert s == right;
      AllTrimmed(right);
    }
  }

  lemma {:induction false} AllTrimmed(s: seq<byte>)
    requires Blank(s)
    ensures TrimStart(s) == []
    decreases |s|
  {
    if s != [] { AllTrimmed(s[1..]); }
  }

  lemma {:induction false} EndTrimmed(text: seq<byte>, right: seq<byte>)
    requires Blank(right) && Trimmed(text) && text != []
    ensures TrimEnd(text + right) == text
    decreases |right|
  {
    var s := text + right;
    if right == [] {
      assert s == text && !IsSpace(text[|text| - 1]) by { assert [text[|text| - 1]][0] == text[|text| - 1]; }
    } else {
      assert s[|s| - 1] == right[|right| - 1] && s[..|s| - 1] == text + right[..|right| - 1];
      EndTrimmed(text, right[..|right| - 1]);
    }
  }

  // ----- bodies that break off or go wrong -----

  /** Chunks without the last one. */
  function Framed(chunks: seq<Chunk>): seq<byte> {
    if chunks == [] then [] else chunks[0].line + [0x0D, 0x0A] + chunks[0].data + [0x0D, 0x0A] + Framed(chunks[1..])
  }

  /** Whatever follows well-framed chunks, their data comes before what the rest decodes to. */
  lemma {:induction false} DecodesThrough(chunks: seq<Chunk>, more: seq<byte>)
    requires forall i :: 0 <= i < |chunks| ==> WellFramed(chunks[i])
    ensures Decode(Framed(chunks) + more) == After(Content(chunks), Decode(more))
    decreases |chunks|
  {
    hide Decode, SizeOf;
    if chunks == [] {
      assert [] + more == more;
      AfterNothing(Decode(more));
    } else {
      var c, rest := chunks[0], Framed(chunks[1..]) + more;
      assert WellFramed(c);
      assert Framed(chunks) + more == c.line + CRLF + (c.data + CRLF + rest);
      ChunkDecodes(c, rest);
      DecodesThrough(chunks[1..], more);
      AfterJoin(c.data, Content(chunks[1..]), Decode(more));
    }
  }

  ghost predicate NoLineEnd(s: seq<byte>) {
    forall i :: 0 <= i < |s| - 1 ==> !(s[i] == 0x0D && s[i + 1] == 0x0A)
  }

  /** What breaking off or going wrong after any well-framed chunks comes to, and when. */
  lemma BodyEnds(chunks: seq<Chunk>, line: seq<byte>, rest: seq<byte>)
    requires (forall i :: 0 <= i < |chunks| ==> WellFramed(chunks[i])) && NoLineEnd(line)
    ensures Decode(Framed(chunks) + line) == Body(Content(chunks), false)
    ensures
      var r, size := Decode(Framed(chunks) + (line + [0x0D, 0x0A] + rest)), SizeOf(line);
      && (size.NotHex? ==> r == BadSizeLine(line))
      && (size.TooBig? ==> r == Oversize(size.n))
      && (size == Size(0) ==> r == Body(Content(chunks), true))
      && (size.Size? && 0 < size.n && |rest| < size.n + 2 ==> r == Body(Content(chunks) + rest[..Min(size.n, |rest|)], false))
      && (size.Size? && 0 < size.n && |rest| >= size.n + 2 && rest[size.n..size.n + 2] != [0x0D, 0x0A] ==> r == MissingDataTerminator)
  {
    hide Decode, SizeOf, Framed, Content;
    DecodesThrough(chunks, line);
    Unended(line);
    assert Content(chunks) + [] == Content(chunks);
    DecodesThrough(chunks, line + CRLF + rest);
    OneLine(line, rest);
    if SizeOf(line).Size? { OneData(rest, SizeOf(line).n); }
  }

  lemma Unended(line: seq<byte>)
    requires NoLineEnd(line)
    ensures Decode(line) == Body([], false)
  {
    hide SizeOf, DecodeData;
  }

  lemma OneLine(line: seq<byte>, rest: seq<byte>)
    requires NoLineEnd(line)
    ensures var r, size := Decode(line + CRLF + rest), SizeOf(line);
      && (size.NotHex? ==> r == BadSizeLine(line))
      && (size.TooBig? ==> r == Oversize(size.n))
      && (size.Size? ==> r == DecodeData(rest, size.n))
  {
    hide SizeOf, DecodeData;
    LineFound(line, rest);
    var raw := line + CRLF + rest;
    assert raw[..|line|] == line && raw[|line| + 2..] == rest;
  }

  lemma OneData(rest: seq<byte>, n: nat)
    ensures n == 0 ==> DecodeData(rest, n) == Body([], true)
    ensures n > 0 && |rest| < n + 2 ==> DecodeData(rest, n) == Body(rest[..Min(n, |rest|)], false)
    ensures n > 0 && |rest| >= n + 2 && rest[n..n + 2] != CRLF ==> DecodeData(rest, n) == MissingDataTerminator
  {
    hide Decode;
  }
}
