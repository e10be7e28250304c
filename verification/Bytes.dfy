/**
  Bytes, fixed-width unsigned integers and their little-endian encodings, and the
  small sequence facts every codec of the model relies on.
*/
module Bytes {

  type byte = x: int | 0 <= x < 0x100
  type u8 = x: int | 0 <= x < 0x100
  type u16 = x: int | 0 <= x < 0x1_0000
  type u32 = x: int | 0 <= x < 0x1_0000_0000
  type u64 = x: int | 0 <= x < 0x1_0000_0000_0000_0000

  const U64_MAX: nat := 0xFFFF_FFFF_FFFF_FFFF

  datatype Option<+T> = None | Some(value: T)

  function Min(a: int, b: int): int { if a <= b then a else b }

  function Max(a: int, b: int): int { if a >= b then a else b }

  /** `n` zero bytes. */
  function Zeros(n: nat): (zs: seq<byte>)
    ensures |zs| == n && forall i :: 0 <= i < n ==> zs[i] == 0
  {
    seq(n, _ => 0)
  }

  function Pow256(n: nat): (p: nat)
    ensures p > 0
  {
    if n == 0 then 1 else 256 * Pow256(n - 1)
  }

  lemma Pow256Widths()
    ensures Pow256(1) == 0x100
    ensures Pow256(2) == 0x1_0000
    ensures Pow256(4) == 0x1_0000_0000
    ensures Pow256(8) == 0x1_0000_0000_0000_0000
  {
    assert Pow256(2) == 256 * Pow256(1);
    assert Pow256(4) == 256 * Pow256(3) == 256 * (256 * Pow256(2));
    assert Pow256(6) == 256 * Pow256(5) == 256 * (256 * Pow256(4));
    assert Pow256(8) == 256 * Pow256(7) == 256 * (256 * Pow256(6));
  }

  /** The low `width` bytes of `n`, least significant first. */
  function Le(n: nat, width: nat): (bytes: seq<byte>)
    ensures |bytes| == width
  {
    if width == 0 then [] else [n % 256] + Le(n / 256, width - 1)
  }

  function LeValue(bytes: seq<byte>): nat {
    if bytes == [] then 0 else bytes[0] + 256 * LeValue(bytes[1..])
  }

  lemma {:induction false} LeRoundTrip(n: nat, width: nat)
    requires n < Pow256(width)
    ensures LeValue(Le(n, width)) == n
  {
    if width > 0 {
      LeRoundTrip(n / 256, width - 1);
      assert Le(n, width)[1..] == Le(n / 256, width - 1);
    }
  }

  lemma {:induction false} LeBound(bytes: seq<byte>)
    ensures LeValue(bytes) < Pow256(|bytes|)
  {
    if bytes != [] {
      LeBound(bytes[1..]);
    }
  }

  /** Two encodings of the same width agree only when the encoded values do. */
  lemma LeInjective(a: nat, b: nat, width: nat)
    requires a < Pow256(width) && b < Pow256(width)
    requires Le(a, width) == Le(b, width)
    ensures a == b
  {
    LeRoundTrip(a, width);
    LeRoundTrip(b, width);
  }

  function ReadU16(bytes: seq<byte>): u16
    requires |bytes| == 2
  {
    Pow256Widths(); LeBound(bytes); LeValue(bytes)
  }

  function ReadU32(bytes: seq<byte>): u32
    requires |bytes| == 4
  {
    Pow256Widths(); LeBound(bytes); LeValue(bytes)
  }

  function ReadU64(bytes: seq<byte>): u64
    requires |bytes| == 8
  {
    Pow256Widths(); LeBound(bytes); LeValue(bytes)
  }

  lemma ReadBack16(n: u16)
    ensures ReadU16(Le(n, 2)) == n
  {
    Pow256Widths(); LeRoundTrip(n, 2);
  }

  lemma ReadBack32(n: u32)
    ensures ReadU32(Le(n, 4)) == n
  {
    Pow256Widths(); LeRoundTrip(n, 4);
  }

  lemma ReadBack64(n: u64)
    ensures ReadU64(Le(n, 8)) == n
  {
    Pow256Widths(); LeRoundTrip(n, 8);
  }

  /** `s` with `bytes` written over it at `at`. */
  function Patch<T>(s: seq<T>, at: nat, bytes: seq<T>): (r: seq<T>)
    requires at + |bytes| <= |s|
    ensures |r| == |s|
    ensures forall i {:trigger r[i]} :: 0 <= i < |s| ==>
      r[i] == if at <= i < at + |bytes| then bytes[i - at] else s[i]
    ensures r[at..at + |bytes|] == bytes
  {
    s[..at] + bytes + s[at + |bytes|..]
  }

  /** Filling the head of a zeroed tail extends the finished prefix. */
  lemma PatchTail(done: seq<byte>, n: nat, bytes: seq<byte>)
    requires |bytes| <= n
    ensures Patch(done + Zeros(n), |done|, bytes) == (done + bytes) + Zeros(n - |bytes|)
  {
  }

  lemma PatchNothing(s: seq<byte>)
    ensures Patch(s, 0, []) == s
  {
  }

  /** Adjacent writes are one write of the concatenation. */
  lemma PatchJoin(s: seq<byte>, at: nat, a: seq<byte>, b: seq<byte>)
    requires at + |a| + |b| <= |s|
    ensures Patch(Patch(s, at, a), at + |a|, b) == Patch(s, at, a + b)
  {
  }

  /** `copy_from_slice` into the range starting at `at`. */
  method Put(out: array<byte>, at: nat, bytes: seq<byte>)
    requires at + |bytes| <= out.Length
    modifies out
    ensures out[..] == Patch(old(out[..]), at, bytes)
  {
    forall i | 0 <= i < |bytes| {
      out[at + i] := bytes[i];
    }
  }
}
