/**
  CRC-32 (section 3.2.9 of IEEE 802.3-2018, reflected): the register computes the complemented
  remainder of the message polynomial; and its update loses nothing, so a payload damaged only
  within four consecutive bytes never keeps its checksum.
*/
module Crc {
  import opened Polynomial

  const POLYNOMIAL: bv32 := 0xEDB8_8320
  const INIT: bv32 := 0xFFFF_FFFF

  function Flip(c: bv32): bv32 { c ^ POLYNOMIAL }

  function Up(c: bv32): bv32 { (c << 1) | 1 }

  predicate Top(c: bv32) { c & 0x8000_0000 != 0 }

  /** One bit of the register. */
  function Step(c: bv32): bv32 {
    if c & 1 != 0 then Flip(c >> 1) else c >> 1
  }

  function Unstep(c: bv32): bv32 {
    if Top(c) then Up(Flip(c)) else c << 1
  }

  function Xor(a: bv32, b: bv32): bv32 { a ^ b }

  function Widen(b: bv8): bv32 { b as bv32 }

  function Steps(c: bv32, n: nat): bv32
    decreases n
  {
    if n == 0 then c else Steps(Step(c), n - 1)
  }

  function Unsteps(c: bv32, n: nat): bv32
    decreases n
  {
    if n == 0 then c else Unstep(Unsteps(c, n - 1))
  }

  function Update(c: bv32, b: bv8): bv32 {
    Steps(Xor(c, Widen(b)), 8)
  }

  function Feed(c: bv32, bytes: seq<bv8>): bv32
    decreases |bytes|
  {
    if bytes == [] then c else Feed(Update(c, bytes[0]), bytes[1..])
  }

  function Not(c: bv32): bv32 { !c }

  function Crc32(bytes: seq<bv8>): bv32 {
    Not(Feed(INIT, bytes))
  }

  // ----- the checksum as a remainder -----

  predicate Odd(c: bv32) { c & 1 != 0 }

  function Half(c: bv32): bv32 { c >> 1 }

  /** The lowest `n` bits of a word, lowest first. */
  function LowBits(c: bv32, n: nat): (bits: Bits)
    ensures |bits| == n
    decreases n
  {
    if n == 0 then [] else [Odd(c)] + LowBits(Half(c), n - 1)
  }

  /** The message polynomial: the bits of each byte in the order they are sent, lowest first. */
  function Message(bytes: seq<bv8>): (bits: Bits)
    ensures |bits| == 8 * |bytes|
  {
    if bytes == [] then [] else LowBits(Widen(bytes[0]), 8) + Message(bytes[1..])
  }

  /** What is divided: the message times x^32, with its first 32 bits complemented. */
  function Dividend(bytes: seq<bv8>): (d: Bits)
    ensures |d| == 8 * |bytes| + 32
  {
    var shifted := Message(bytes) + ZeroBits(32);
    Complement(shifted[..32]) + shifted[32..]
  }

  lemma {:induction false} LowXor(a: bv32, b: bv32, n: nat)
    ensures LowBits(Xor(a, b), n) == Add(LowBits(a, n), LowBits(b, n))
    decreases n
  {
    hide Xor, Odd, Half;
    if n > 0 {
      OddXor(a, b);
      HalfXor(a, b);
      LowXor(Half(a), Half(b), n - 1);
    }
  }

  lemma OddXor(a: bv32, b: bv32)
    ensures Odd(Xor(a, b)) <==> Odd(a) != Odd(b)
  {
  }

  lemma HalfXor(a: bv32, b: bv32)
    ensures Half(Xor(a, b)) == Xor(Half(a), Half(b))
  {
  }

  function Shr(c: bv32, n: nat): bv32
    decreases n
  {
    if n == 0 then c else Shr(Half(c), n - 1)
  }

  lemma LowNext(c: bv32, n: nat)
    ensures LowBits(c, n + 1) == [Odd(c)] + LowBits(Half(c), n)
  {
    hide Odd, Half;
  }

  lemma {:induction false} LowSplit(c: bv32, m: nat, n: nat)
    ensures LowBits(c, m + n) == LowBits(c, m) + LowBits(Shr(c, m), n)
    decreases m
  {
    hide Odd, Half, LowBits;
    if m == 0 {
      assert LowBits(c, 0) == [] && [] + LowBits(c, n) == LowBits(c, n);
    } else {
      LowSplit(Half(c), m - 1, n);
      LowNext(c, m - 1 + n);
      LowNext(c, m - 1);
      var first, low, high := [Odd(c)], LowBits(Half(c), m - 1), LowBits(Shr(c, m), n);
      assert first + (low + high) == first + low + high;
    }
  }

  lemma {:induction false} LowZero(n: nat)
    ensures LowBits(0, n) == ZeroBits(n)
    decreases n
  {
    if n > 0 {
      assert Half(0) == 0 && !Odd(0);
      hide Odd, Half;
      LowZero(n - 1);
    }
  }

  lemma {:induction false} ShrJoin(c: bv32, m: nat, n: nat)
    ensures Shr(c, m + n) == Shr(Shr(c, m), n)
    decreases m
  {
    hide Half;
    if m > 0 { ShrJoin(Half(c), m - 1, n); }
  }

  lemma ShrByte(c: bv32)
    ensures Shr(c, 8) == ByteDown(c)
  {
    EightHalves(c);
    hide Half, ByteDown;
    assert Shr(c, 3) == Half(Half(Half(c)));
    ShrJoin(c, 3, 5);
    ShrJoin(Shr(c, 3), 3, 2);
    var d := Shr(c, 3);
    assert Shr(d, 3) == Half(Half(Half(d)));
    var e := Shr(d, 3);
    assert Shr(e, 2) == Half(Half(e));
  }

  function ByteDown(c: bv32): bv32 { c >> 8 }

  lemma EightHalves(c: bv32)
    ensures Half(Half(Half(Half(Half(Half(Half(Half(c)))))))) == ByteDown(c)
  {
  }

  lemma NothingAbove(c: bv32)
    ensures Shr(c, 32) == 0
  {
    FourBytes(c);
    hide Half, ByteDown;
    ShrJoin(c, 8, 24);
    ShrJoin(Shr(c, 8), 8, 16);
    ShrJoin(Shr(Shr(c, 8), 8), 8, 8);
    ShrByte(c);
    ShrByte(ByteDown(c));
    ShrByte(ByteDown(ByteDown(c)));
    ShrByte(ByteDown(ByteDown(ByteDown(c))));
  }

  lemma FourBytes(c: bv32)
    ensures ByteDown(ByteDown(ByteDown(ByteDown(c)))) == 0
  {
  }

  /** A byte in the register: its bits, and zeros. */
  lemma ByteBits(b: bv8)
    ensures LowBits(Widen(b), 32) == LowBits(Widen(b), 8) + ZeroBits(24)
  {
    ByteUp(b);
    hide Widen, Odd, Half, ByteDown;
    LowSplit(Widen(b), 8, 24);
    ShrByte(Widen(b));
    LowZero(24);
  }

  lemma ByteUp(b: bv8)
    ensures ByteDown(Widen(b)) == 0
  {
  }

  /** Shifting a word of `n` bits drops its lowest bit and brings in a zero. */
  lemma ShiftedBits(c: bv32, n: nat)
    requires n > 0 && Shr(c, n) == 0
    ensures LowBits(Half(c), n) == LowBits(c, n)[1..] + [false]
  {
    hide Odd, Half;
    LowSplit(c, n, 1);
    LowZero(1);
    var whole := LowBits(c, n + 1);
    assert whole == [Odd(c)] + LowBits(Half(c), n);
    assert whole[1..] == LowBits(c, n)[1..] + [false];
  }

  lemma FourBits(c: bv32)
    ensures LowBits(c, 4) == [Odd(c), Odd(Half(c)), Odd(Half(Half(c))), Odd(Half(Half(Half(c))))]
    ensures Shr(c, 4) == Half(Half(Half(Half(c))))
  {
    hide Odd, Half;
    var d := Half(Half(c));
    assert LowBits(c, 4) == [Odd(c)] + LowBits(Half(c), 3);
    assert LowBits(Half(c), 3) == [Odd(Half(c))] + LowBits(d, 2);
    assert LowBits(d, 2) == [Odd(d)] + LowBits(Half(d), 1);
    assert LowBits(Half(d), 1) == [Odd(Half(d))] + LowBits(Half(Half(d)), 0);
    assert Shr(c, 4) == Shr(d, 2);
  }

  /** The lowest hexadecimal digit of a word, lowest bit first, and the rest of the word. */
  predicate Splits(c: bv32, digit: Bits, rest: bv32) {
    digit == [c & 1 != 0, c & 2 != 0, c & 4 != 0, c & 8 != 0] && rest == c >> 4
  }

  lemma Digit(c: bv32, n: nat, digit: Bits, rest: bv32)
    requires Splits(c, digit, rest)
    ensures LowBits(c, n + 4) == digit + LowBits(rest, n)
  {
    SecondBit(c);
    ThirdBit(c);
    FourthBit(c);
    assert Odd(c) == digit[0];
    hide Odd, Half;
    FourBits(c);
    LowSplit(c, 4, n);
  }

  lemma TwoDigits(c: bv32, n: nat, d0: Bits, c1: bv32, d1: Bits, rest: bv32)
    requires Splits(c, d0, c1) && Splits(c1, d1, rest)
    ensures LowBits(c, n + 8) == d0 + d1 + LowBits(rest, n)
  {
    hide LowBits, Splits;
    Digit(c, n + 4, d0, c1);
    Digit(c1, n, d1, rest);
    assert d0 + (d1 + LowBits(rest, n)) == d0 + d1 + LowBits(rest, n);
  }

  /** Four digits, lowest first. */
  lemma FourDigits(c: bv32, n: nat, d0: Bits, c1: bv32, d1: Bits, c2: bv32, d2: Bits, c3: bv32, d3: Bits, rest: bv32)
    requires Splits(c, d0, c1) && Splits(c1, d1, c2) && Splits(c2, d2, c3) && Splits(c3, d3, rest)
    ensures LowBits(c, n + 16) == d0 + d1 + (d2 + d3) + LowBits(rest, n)
  {
    hide LowBits, Splits;
    TwoDigits(c, n + 8, d0, c1, d1, c2);
    TwoDigits(c2, n, d2, c3, d3, rest);
    assert d0 + d1 + (d2 + d3 + LowBits(rest, n)) == d0 + d1 + (d2 + d3) + LowBits(rest, n);
  }

  lemma SecondBit(c: bv32)
    ensures Odd(Half(c)) <==> c & 2 != 0
  {
  }

  lemma ThirdBit(c: bv32)
    ensures Odd(Half(Half(c))) <==> c & 4 != 0
  {
  }

  lemma FourthBit(c: bv32)
    ensures Odd(Half(Half(Half(c)))) <==> c & 8 != 0
    ensures Half(Half(Half(Half(c)))) == c >> 4
  {
  }

  /** The register's polynomial is the generator without its leading term. */
  lemma PolynomialBits()
    ensures LowBits(POLYNOMIAL, 32) == Generator()[1..]
  {
    var zero, two := [false, false, false, false], [false, true, false, false];
    var three, eight := [true, true, false, false], [false, false, false, true];
    var eleven, thirteen, fourteen := [true, true, false, true], [true, false, true, true], [false, true, true, true];
    LowerDigits(zero, two, three, eight);
    UpperDigits(eight, eleven, thirteen, fourteen);
    hide LowBits, Generator;
    assert LowBits(0, 0) == [] by { LowZero(0); }
    GeneratorTail(zero, two, three, eight, eleven, thirteen, fourteen);
    var upper := eight + eleven + (thirteen + fourteen);
    assert upper + [] == upper;
  }

  lemma GeneratorTail(zero: Bits, two: Bits, three: Bits, eight: Bits, eleven: Bits, thirteen: Bits, fourteen: Bits)
    requires zero == [false, false, false, false] && two == [false, true, false, false]
    requires three == [true, true, false, false] && eight == [false, false, false, true]
    requires eleven == [true, true, false, true] && thirteen == [true, false, true, true]
    requires fourteen == [false, true, true, true]
    ensures Generator()[1..] == zero + two + (three + eight) + (eight + eleven + (thirteen + fourteen))
  {
    var tail, digits := Generator()[1..], zero + two + (three + eight) + (eight + eleven + (thirteen + fourteen));
    assert |tail| == |digits| == 32;
    forall i | 0 <= i < 32
      ensures tail[i] == digits[i]
    {
    }
  }

  lemma LowerDigits(zero: Bits, two: Bits, three: Bits, eight: Bits)
    requires zero == [false, false, false, false] && two == [false, true, false, false]
    requires three == [true, true, false, false] && eight == [false, false, false, true]
    ensures LowBits(POLYNOMIAL, 32) == zero + two + (three + eight) + LowBits(0xEDB8, 16)
  {
    hide LowBits;
    FourDigits(0xEDB8_8320, 16, zero, 0xEDB_8832, two, 0xED_B883, three, 0xE_DB88, eight, 0xEDB8);
  }

  lemma UpperDigits(eight: Bits, eleven: Bits, thirteen: Bits, fourteen: Bits)
    requires eight == [false, false, false, true] && eleven == [true, true, false, true]
    requires thirteen == [true, false, true, true] && fourteen == [false, true, true, true]
    ensures LowBits(0xEDB8, 16) == eight + eleven + (thirteen + fourteen) + LowBits(0, 0)
  {
    hide LowBits;
    FourDigits(0xEDB8, 0, eight, 0xEDB, eleven, 0xED, thirteen, 0xE, fourteen, 0);
  }

  lemma InitBits()
    ensures LowBits(INIT, 32) == OneBits(32)
  {
    var ones: Bits := [true, true, true, true];
    hide LowBits;
    FourDigits(0xFFFF_FFFF, 16, ones, 0xFFF_FFFF, ones, 0xFF_FFFF, ones, 0xF_FFFF, ones, 0xFFFF);
    FourDigits(0xFFFF, 0, ones, 0xFFF, ones, 0xFF, ones, 0xF, ones, 0);
    assert LowBits(0, 0) == [] by { LowZero(0); }
  }

  lemma StepIs(c: bv32)
    ensures Step(c) == if Odd(c) then Xor(Half(c), POLYNOMIAL) else Half(c)
  {
  }

  lemma FirstBit(c: bv32, n: nat)
    requires n > 0
    ensures LowBits(c, n)[0] == Odd(c)
  {
    hide Odd, Half;
  }

  lemma StepBits(c: bv32)
    ensures var shifted := LowBits(c, 32)[1..] + [false];
      LowBits(Step(c), 32) == if LowBits(c, 32)[0] then Add(shifted, Generator()[1..]) else shifted
  {
    hide Odd, Half, Step, Xor, Generator, Shr, LowBits;
    StepIs(c);
    NothingAbove(c);
    ShiftedBits(c, 32);
    PolynomialBits();
    LowXor(Half(c), POLYNOMIAL, 32);
    FirstBit(c, 32);
  }

  /** The register above `n` further bits, added to what is still to come. */
  function Pending(c: bv32, n: nat, coming: Bits): (d: Bits)
    requires |coming| == n + 32
    ensures |d| == n + 32
  {
    Add(LowBits(c, 32) + ZeroBits(n), coming)
  }

  /** A step of the register is a step of the division. */
  lemma CancelIsStep(c: bv32, n: nat, coming: Bits)
    requires n > 0 && |coming| == n + 32 && !coming[0]
    ensures Cancel(Pending(c, n, coming)) == Pending(Step(c), n - 1, coming[1..])
  {
    StepBits(c);
    hide Step, Generator, LowBits, Copy, Add, ZeroBits;
    var r := LowBits(c, 32);
    CopyTail(r[0], n - 1);
    var register := r + ZeroBits(n);
    assert Pending(c, n, coming)[0] == register[0] == r[0];
    Shifted(r, LowBits(Step(c), 32), n - 1);
    AddAgain(register, Copy(r[0], n - 1), coming, LowBits(Step(c), 32) + ZeroBits(n - 1));
  }

  /** The register shifted, over one bit less to come. */
  lemma Shifted(r: Bits, next: Bits, n: nat)
    requires |r| == |next| == 32
    requires next == if r[0] then Add(r[1..] + [false], Generator()[1..]) else r[1..] + [false]
    ensures Add(r + ZeroBits(n + 1), Copy(r[0], n))[1..] == next + ZeroBits(n)
  {
    hide Generator;
    CopyTail(r[0], n);
    var a, b, copy := Add(r + ZeroBits(n + 1), Copy(r[0], n))[1..], next + ZeroBits(n), Copy(r[0], n);
    forall i | 0 <= i < n + 32
      ensures a[i] == b[i]
    {
      assert copy[i + 1] == copy[1..][i];
      assert (r + ZeroBits(n + 1))[i + 1] == (r[1..] + [false] + ZeroBits(n))[i];
    }
  }

  lemma AddAgain(register: Bits, copy: Bits, coming: Bits, next: Bits)
    requires |register| == |copy| == |coming| == |next| + 1 && Add(register, copy)[1..] == next
    ensures Add(Add(register, coming), copy)[1..] == Add(next, coming[1..])
  {
    var a, b := Add(Add(register, coming), copy)[1..], Add(next, coming[1..]);
    forall i | 0 <= i < |next|
      ensures a[i] == b[i]
    {
      assert next[i] == Add(register, copy)[i + 1];
    }
  }

  lemma CopyTail(b: bool, n: nat)
    ensures Copy(b, n)[1..] == (if b then Generator()[1..] else ZeroBits(32)) + ZeroBits(n)
  {
    hide Generator;
  }

  lemma {:induction false} StepsDivide(c: bv32, n: nat, k: nat, coming: Bits)
    requires k <= n && |coming| == n + 32 && forall i :: 0 <= i < k ==> !coming[i]
    ensures Remainder(Pending(c, n, coming)) == Remainder(Pending(Steps(c, k), n - k, coming[k..]))
    decreases k
  {
    hide Step, Pending, Cancel;
    if k == 0 {
      assert coming[0..] == coming;
    } else {
      CancelIsStep(c, n, coming);
      StepsDivide(Step(c), n - 1, k - 1, coming[1..]);
      assert coming[1..][k - 1..] == coming[k..];
    }
  }

  /** A byte that is coming may be added to the register first. */
  lemma ByteComing(c: bv32, b: bv8, n: nat, rest: Bits)
    requires n >= 8 && |rest| == n + 24
    ensures Pending(c, n, LowBits(Widen(b), 8) + rest) == Pending(Xor(c, Widen(b)), n, ZeroBits(8) + rest)
  {
    hide Xor, Widen, LowBits;
    LowXor(c, Widen(b), 32);
    ByteBits(b);
    var low, coming := LowBits(Widen(b), 8), LowBits(Widen(b), 8) + rest;
    var before, after := Pending(c, n, coming), Pending(Xor(c, Widen(b)), n, ZeroBits(8) + rest);
    forall i | 0 <= i < n + 32
      ensures before[i] == after[i]
    {
    }
    assert before == after;
  }

  lemma {:induction false} FeedDivides(c: bv32, bytes: seq<bv8>)
    ensures Remainder(Pending(c, 8 * |bytes|, Message(bytes) + ZeroBits(32))) == LowBits(Feed(c, bytes), 32)
    decreases |bytes|
  {
    hide Steps, Xor, Widen, LowBits, Pending;
    if bytes == [] {
      NothingComing(c);
    } else {
      var n, b := 8 * |bytes|, bytes[0];
      var rest := Message(bytes[1..]) + ZeroBits(32);
      assert Message(bytes) + ZeroBits(32) == LowBits(Widen(b), 8) + rest;
      ByteComing(c, b, n, rest);
      StepsDivide(Xor(c, Widen(b)), n, 8, ZeroBits(8) + rest);
      assert (ZeroBits(8) + rest)[8..] == rest;
      FeedDivides(Update(c, b), bytes[1..]);
    }
  }

  lemma NothingComing(c: bv32)
    ensures Pending(c, 0, [] + ZeroBits(32)) == LowBits(c, 32)
  {
    hide LowBits;
  }

  /** Starting with ones is complementing the first 32 bits. */
  lemma InitComplements(bytes: seq<bv8>)
    ensures Pending(INIT, 8 * |bytes|, Message(bytes) + ZeroBits(32)) == Dividend(bytes)
  {
    InitBits();
    hide LowBits, Message;
  }

  lemma NotBits(c: bv32)
    ensures LowBits(Not(c), 32) == Complement(LowBits(c, 32))
  {
    assert Not(c) == Xor(c, INIT);
    hide Not, Xor;
    LowXor(c, INIT, 32);
    InitBits();
  }

  /** For every input the checksum, lowest bit first, is the complemented remainder. */
  lemma Crc32IsRemainder(bytes: seq<bv8>)
    ensures LowBits(Crc32(bytes), 32) == Complement(Remainder(Dividend(bytes)))
  {
    hide Not, LowBits, Feed, Remainder;
    FeedDivides(INIT, bytes);
    InitComplements(bytes);
    NotBits(Feed(INIT, bytes));
  }

  /** And there is only one remainder, however the division is done. */
  lemma Crc32Divides(bytes: seq<bv8>, q: Bits, r: Bits)
    ensures Divides(Dividend(bytes), q, r) ==> LowBits(Crc32(bytes), 32) == Complement(r)
    ensures Divides(Dividend(bytes), Quotient(Dividend(bytes)), Complement(LowBits(Crc32(bytes), 32)))
  {
    hide Crc32, Dividend, Divides, Remainder, LowBits;
    Crc32IsRemainder(bytes);
    LongDivision(Dividend(bytes));
    var left := Remainder(Dividend(bytes));
    assert Complement(Complement(left)) == left;
    if Divides(Dividend(bytes), q, r) {
      DivisionUnique(Dividend(bytes), q, r, Quotient(Dividend(bytes)), left);
    }
  }

  method Crc32Update(crc: bv32, b: bv8) returns (c: bv32)
    ensures c == Update(crc, b)
  {
    hide Step;
    c := Xor(crc, Widen(b));
    var i := 0;
    while i < 8
      invariant 0 <= i <= 8 && Steps(c, 8 - i) == Update(crc, b)
    {
      c := StepBit(c);
      i := i + 1;
    }
  }

  method StepBit(crc: bv32) returns (c: bv32)
    ensures c == Step(crc)
  {
    c := if crc & 1 != 0 then (crc >> 1) ^ 0xEDB8_8320 else crc >> 1;
  }

  method Checksum(bytes: seq<bv8>) returns (crc: bv32)
    ensures crc == Crc32(bytes) && LowBits(crc, 32) == Complement(Remainder(Dividend(bytes)))
  {
    hide Update, LowBits, Remainder, Dividend, Complement;
    var c := INIT;
    for i := 0 to |bytes|
      invariant Feed(c, bytes[i..]) == Feed(INIT, bytes)
    {
      assert bytes[i..][1..] == bytes[i + 1..];
      c := Crc32Update(c, bytes[i]);
    }
    crc := !c;
    assert crc == Crc32(bytes);
    Crc32IsRemainder(bytes);
  }

  // ----- the update is a bijection -----

  lemma StepOdd(x: bv32)
    requires !Top(x)
    ensures Step(Up(x)) == Flip(x)
  {
    hide Flip;
  }

  lemma StepEven(x: bv32)
    requires !Top(x)
    ensures Step(x << 1) == x
  {
  }

  lemma FlipTwice(c: bv32)
    ensures Flip(Flip(c)) == c
  {
  }

  lemma FlipClears(c: bv32)
    requires Top(c)
    ensures !Top(Flip(c))
  {
  }

  lemma StepUnstep(c: bv32)
    ensures Step(Unstep(c)) == c
  {
    hide Step, Flip, Up, Top;
    if Top(c) {
      FlipClears(c);
      StepOdd(Flip(c));
      FlipTwice(c);
    } else {
      StepEven(c);
    }
  }

  lemma UnstepStep(c: bv32)
    ensures Unstep(Step(c)) == c
  {
  }

  lemma {:induction false} StepsUndone(c: bv32, n: nat)
    ensures Unsteps(Steps(c, n), n) == c
    decreases n
  {
    hide Step, Unstep;
    if n > 0 {
      StepsUndone(Step(c), n - 1);
      UnstepStep(c);
    }
  }

  lemma {:induction false} UnstepsUndone(c: bv32, n: nat)
    ensures Steps(Unsteps(c, n), n) == c
    decreases n
  {
    hide Step, Unstep;
    if n > 0 {
      StepUnstep(Unsteps(c, n - 1));
      UnstepsUndone(c, n - 1);
    }
  }

  lemma XorTwice(c: bv32, x: bv32)
    ensures Xor(Xor(c, x), x) == c
  {
  }

  /** For each byte the update is a bijection on the state: one-to-one and onto. */
  lemma UpdateBijective(b: bv8, c: bv32, d: bv32)
    ensures Update(c, b) == Update(d, b) ==> c == d
    ensures Update(Xor(Unsteps(c, 8), Widen(b)), b) == c
  {
    hide Steps, Unsteps, Xor, Widen;
    var x := Widen(b);
    StepsUndone(Xor(c, x), 8);
    StepsUndone(Xor(d, x), 8);
    XorTwice(c, x);
    XorTwice(d, x);
    XorTwice(Unsteps(c, 8), x);
    UnstepsUndone(c, 8);
  }

  lemma {:induction false} FeedInjective(c: bv32, d: bv32, bytes: seq<bv8>)
    requires Feed(c, bytes) == Feed(d, bytes)
    ensures c == d
    decreases |bytes|
  {
    hide Update;
    if bytes != [] {
      FeedInjective(Update(c, bytes[0]), Update(d, bytes[0]), bytes[1..]);
      UpdateBijective(bytes[0], c, d);
    }
  }

  lemma {:induction false} FeedJoin(c: bv32, a: seq<bv8>, b: seq<bv8>)
    ensures Feed(c, a + b) == Feed(Feed(c, a), b)
    decreases |a|
  {
    hide Update;
    if a == [] {
      assert a + b == b;
    } else {
      assert (a + b)[1..] == a[1..] + b && (a + b)[0] == a[0];
      FeedJoin(Update(c, a[0]), a[1..], b);
    }
  }

  // ----- windows of up to four bytes -----

  /** `x` put above a byte. */
  function Join(b: bv32, x: bv32): bv32 { b | (x << 8) }

  /** The bytes of a window as one word, first byte lowest. */
  function Word(w: seq<bv8>): bv32 {
    if w == [] then 0 else Join(Widen(w[0]), Word(w[1..]))
  }

  predicate Fits24(x: bv32) { x < 0x100_0000 }

  function Double(x: bv32): bv32 { x << 1 }

  function Shl(x: bv32, n: nat): bv32
    decreases n
  {
    if n == 0 then x else Double(Shl(x, n - 1))
  }

  /** The top `8 - n` bits are clear. */
  function Mask(n: nat): bv32 {
    match n
    case 0 => 0xFF00_0000
    case 1 => 0xFE00_0000
    case 2 => 0xFC00_0000
    case 3 => 0xF800_0000
    case 4 => 0xF000_0000
    case 5 => 0xE000_0000
    case 6 => 0xC000_0000
    case 7 => 0x8000_0000
    case _ => 0
  }

  predicate Clear(y: bv32, mask: bv32) { y & mask == 0 }

  lemma MaskStep(n: nat)
    requires n < 8
    ensures Mask(n) & 0x8000_0000 != 0 && (Mask(n) << 1) == Mask(n + 1)
  {
  }

  lemma ClearDouble(y: bv32, mask: bv32)
    requires Clear(y, mask) && mask & 0x8000_0000 != 0
    ensures !Top(y) && Clear(Double(y), mask << 1)
  {
  }

  lemma ClearStart(x: bv32)
    requires Fits24(x)
    ensures Clear(x, 0xFF00_0000)
  {
  }

  lemma {:induction false} ShlClear(x: bv32, n: nat)
    requires Fits24(x) && n <= 8
    ensures Clear(Shl(x, n), Mask(n)) && (n < 8 ==> !Top(Shl(x, n)))
    decreases n
  {
    hide Fits24, Clear, Double, Top;
    if n == 0 {
      ClearStart(x);
    } else {
      ShlClear(x, n - 1);
      MaskStep(n - 1);
      ClearDouble(Shl(x, n - 1), Mask(n - 1));
    }
    if n < 8 {
      MaskStep(n);
      ClearDouble(Shl(x, n), Mask(n));
    }
  }

  lemma ShlByte(x: bv32)
    ensures Shl(x, 8) == x << 8
  {
    hide Double;
    EightDoubles(x);
    assert Shl(x, 3) == Double(Double(Double(x)));
    assert Shl(x, 6) == Double(Double(Double(Shl(x, 3))));
  }

  lemma EightDoubles(x: bv32)
    ensures Double(Double(Double(Double(Double(Double(Double(Double(x)))))))) == x << 8
  {
  }

  /** A later byte may be put in early, shifted up by the steps still to come. */
  lemma StepAbsorbs(c: bv32, y: bv32)
    requires !Top(y)
    ensures Xor(Step(c), y) == Step(Xor(c, Double(y)))
  {
  }

  lemma {:induction false} StepsAbsorb(c: bv32, x: bv32, n: nat)
    requires Fits24(x) && n <= 8
    ensures Xor(Steps(c, n), x) == Steps(Xor(c, Shl(x, n)), n)
    decreases n
  {
    hide Step, Top, Xor, Fits24, Double;
    if n > 0 {
      StepsAbsorb(Step(c), x, n - 1);
      AbsorbOne(c, x, n - 1);
    }
  }

  lemma AbsorbOne(c: bv32, x: bv32, n: nat)
    requires Fits24(x) && n < 8
    ensures Xor(Step(c), Shl(x, n)) == Step(Xor(c, Shl(x, n + 1)))
  {
    hide Step, Top, Xor, Fits24, Double;
    ShlClear(x, n);
    StepAbsorbs(c, Shl(x, n));
  }

  lemma {:induction false} StepsJoin(c: bv32, m: nat, n: nat)
    ensures Steps(c, m + n) == Steps(Steps(c, m), n)
    decreases m
  {
    hide Step;
    if m > 0 { StepsJoin(Step(c), m - 1, n); }
  }

  predicate Below(x: bv32, n: nat) {
    match n
    case 0 => x == 0
    case 1 => x < 0x100
    case 2 => x < 0x1_0000
    case 3 => x < 0x100_0000
    case _ => true
  }

  lemma {:induction false} WordBelow(w: seq<bv8>)
    requires |w| <= 3
    ensures Below(Word(w), |w|) && Fits24(Word(w))
    decreases |w|
  {
    hide Join, Below, Fits24;
    if w == [] {
      EmptyBelow();
    } else {
      WordBelow(w[1..]);
      JoinBelow(w[0], Word(w[1..]), |w| - 1);
    }
  }

  lemma EmptyBelow()
    ensures Below(0, 0) && Fits24(0)
  {
  }

  lemma JoinBelow(b: bv8, x: bv32, n: nat)
    requires n < 3 && Below(x, n)
    ensures Below(Join(Widen(b), x), n + 1) && Fits24(Join(Widen(b), x))
  {
    ByteBelow(b);
    WideBelow(Widen(b), x, n);
  }

  lemma WideBelow(b: bv32, x: bv32, n: nat)
    requires n < 3 && Below(x, n) && b < 0x100
    ensures Below(Join(b, x), n + 1) && Fits24(Join(b, x))
  {
  }

  lemma ByteBelow(b: bv8)
    ensures Widen(b) < 0x100
  {
  }

  lemma Interleave(c: bv32, b: bv8, x: bv32)
    requires Fits24(x)
    ensures Xor(Xor(c, Widen(b)), Shl(x, 8)) == Xor(c, Join(Widen(b), x))
  {
    hide Xor, Widen, Join;
    ByteBelow(b);
    ShlByte(x);
    XorAssoc(c, Widen(b), x << 8);
    JoinIsXor(Widen(b), x);
  }

  lemma XorAssoc(a: bv32, b: bv32, c: bv32)
    ensures Xor(Xor(a, b), c) == Xor(a, Xor(b, c))
  {
  }

  lemma JoinIsXor(b: bv32, x: bv32)
    requires b < 0x100
    ensures Xor(b, x << 8) == Join(b, x)
  {
  }

  /** Feeding a window steps the state xored with the whole window at once. */
  lemma {:induction false} FeedWindow(c: bv32, w: seq<bv8>)
    requires |w| <= 4
    ensures Feed(c, w) == Steps(Xor(c, Word(w)), 8 * |w|)
    decreases |w|
  {
    hide Step, Steps, Xor, Join, Widen, Shl, Fits24;
    if w == [] {
      ZeroSteps(c);
    } else {
      var b, x := Widen(w[0]), Word(w[1..]);
      WordBelow(w[1..]);
      FeedWindow(Update(c, w[0]), w[1..]);
      StepsAbsorb(Xor(c, b), x, 8);
      Interleave(c, w[0], x);
      StepsJoin(Xor(c, Word(w)), 8, 8 * |w[1..]|);
    }
  }

  lemma ZeroSteps(c: bv32)
    ensures Steps(Xor(c, 0), 0) == c
  {
  }

  lemma JoinInjective(a: bv8, b: bv8, x: bv32, y: bv32)
    requires Fits24(x) && Fits24(y) && Join(Widen(a), x) == Join(Widen(b), y)
    ensures a == b && x == y
  {
    ByteBelow(a);
    ByteBelow(b);
    LowAndHigh(Widen(a), Widen(b), x, y);
    WidenInjective(a, b);
  }

  lemma WidenInjective(a: bv8, b: bv8)
    requires Widen(a) == Widen(b)
    ensures a == b
  {
  }

  lemma LowAndHigh(s: bv32, t: bv32, x: bv32, y: bv32)
    requires s < 0x100 && t < 0x100 && Fits24(x) && Fits24(y) && Join(s, x) == Join(t, y)
    ensures s == t && x == y
  {
  }

  lemma {:induction false} WordInjective(w: seq<bv8>, v: seq<bv8>)
    requires |w| == |v| <= 4 && Word(w) == Word(v)
    ensures w == v
    decreases |w|
  {
    hide Join, Widen, Fits24;
    if w != [] {
      WordBelow(w[1..]);
      WordBelow(v[1..]);
      JoinInjective(w[0], v[0], Word(w[1..]), Word(v[1..]));
      WordInjective(w[1..], v[1..]);
      assert w == [w[0]] + w[1..] && v == [v[0]] + v[1..];
    }
  }

  /** A window decides the state it leads to. */
  lemma WindowInjective(c: bv32, w: seq<bv8>, v: seq<bv8>)
    requires |w| == |v| <= 4 && Feed(c, w) == Feed(c, v)
    ensures w == v
  {
    hide Feed, Steps, Unsteps, Word, Xor;
    FeedWindow(c, w);
    FeedWindow(c, v);
    StepsUndone(Xor(c, Word(w)), 8 * |w|);
    StepsUndone(Xor(c, Word(v)), 8 * |v|);
    XorCancel(c, Word(w), Word(v));
    WordInjective(w, v);
  }

  /** Payloads that differ only within a window of up to four bytes have different checksums. */
  lemma WindowDetected(before: seq<bv8>, w: seq<bv8>, v: seq<bv8>, after: seq<bv8>)
    requires |w| == |v| <= 4 && Crc32(before + w + after) == Crc32(before + v + after)
    ensures w == v
  {
    hide Feed, Not;
    var c := Feed(INIT, before);
    NotInjective(Feed(INIT, before + w + after), Feed(INIT, before + v + after));
    FeedJoin(INIT, before + w, after);
    FeedJoin(INIT, before, w);
    FeedJoin(INIT, before + v, after);
    FeedJoin(INIT, before, v);
    FeedInjective(Feed(c, w), Feed(c, v), after);
    WindowInjective(c, w, v);
  }

  lemma NotInjective(a: bv32, b: bv32)
    requires Not(a) == Not(b)
    ensures a == b
  {
  }

  lemma XorCancel(c: bv32, x: bv32, y: bv32)
    requires Xor(c, x) == Xor(c, y)
    ensures x == y
  {
  }
}
