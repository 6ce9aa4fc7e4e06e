/**
 * Go's byte and uint32, and the little-endian uint32 encoding that encoding/binary
 * uses for every multi-byte field of an LGC file. A byte is an 8-bit vector; a
 * uint32 is the number it denotes. Bytes and numbers are related through the value
 * of each nibble, so that no proof reasons about a cast between the two.
 */
module Bytes {

  type byte = bv8

  newtype uint32 = x: int | 0 <= x < 0x1_0000_0000

  /** Go's uint32(n) conversion of a non-negative count: keeps the low 32 bits. */
  function U32(n: nat): (r: uint32)
    ensures r as int == n % 0x1_0000_0000
  {
    (n % 0x1_0000_0000) as uint32
  }

  /** A count below 2^32 converts exactly. */
  lemma U32Exact(n: nat)
    requires n < 0x1_0000_0000
    ensures U32(n) as int == n
  {
  }

  /** The nibble whose value is `m`. */
  function NibbleOf(m: nat): byte
    requires m < 16
  {
    if m == 0 then 0 else NibbleOf(m - 1) + 1
  }

  /** The value of the nibble `b`. */
  function NibbleValue(b: byte): nat
    requires b < 16
    decreases b
  {
    if b == 0 then 0 else NibbleValue(b - 1) + 1
  }

  lemma NibbleOfValue(m: nat)
    requires m < 16
    ensures NibbleOf(m) < 16 && NibbleValue(NibbleOf(m)) == m
  {
    if m == 0 {} else if m == 1 {} else if m == 2 {} else if m == 3 {}
    else if m == 4 {} else if m == 5 {} else if m == 6 {} else if m == 7 {}
    else if m == 8 {} else if m == 9 {} else if m == 10 {} else if m == 11 {}
    else if m == 12 {} else if m == 13 {} else if m == 14 {} else {}
  }

  lemma ValueOfNibble(b: byte)
    requires b < 16
    ensures NibbleValue(b) < 16 && NibbleOf(NibbleValue(b)) == b
  {
    if b == 0 {} else if b == 1 {} else if b == 2 {} else if b == 3 {}
    else if b == 4 {} else if b == 5 {} else if b == 6 {} else if b == 7 {}
    else if b == 8 {} else if b == 9 {} else if b == 10 {} else if b == 11 {}
    else if b == 12 {} else if b == 13 {} else if b == 14 {} else {}
  }

  /** Go's byte(n) for `n < 256`. */
  function ByteOf(n: nat): byte
    requires n < 0x100
  {
    (NibbleOf(n / 16) << 4) | NibbleOf(n % 16)
  }

  /** Go's int(b). */
  function Value(b: byte): (r: nat)
    ensures r < 0x100
  {
    ValueOfNibble(b >> 4);
    ValueOfNibble(b & 0x0F);
    16 * NibbleValue(b >> 4) + NibbleValue(b & 0x0F)
  }

  lemma SplitNibbles(hi: byte, lo: byte)
    requires hi < 16 && lo < 16
    ensures ((hi << 4) | lo) >> 4 == hi && ((hi << 4) | lo) & 0x0F == lo
  {
  }

  lemma JoinNibbles(b: byte)
    ensures b >> 4 < 16 && b & 0x0F < 16
    ensures ((b >> 4) << 4) | (b & 0x0F) == b
  {
  }

  /** Converting a number below 256 to a byte keeps its value. */
  lemma ValueOfByte(n: nat)
    requires n < 0x100
    ensures Value(ByteOf(n)) == n
  {
    NibbleOfValue(n / 16);
    NibbleOfValue(n % 16);
    SplitNibbles(NibbleOf(n / 16), NibbleOf(n % 16));
  }

  /** Every byte is the conversion of its value, which is below 256. */
  lemma ByteOfValue(b: byte)
    ensures 0 <= Value(b) < 0x100
    ensures ByteOf(Value(b)) == b
  {
    JoinNibbles(b);
    ValueOfNibble(b >> 4);
    ValueOfNibble(b & 0x0F);
    var hi, lo := NibbleValue(b >> 4), NibbleValue(b & 0x0F);
    assert (16 * hi + lo) / 16 == hi && (16 * hi + lo) % 16 == lo;
  }

  /** A number is its low byte plus 256 times the rest. */
  lemma SplitByte(n: nat)
    ensures n == n % 0x100 + 0x100 * (n / 0x100)
  {
  }

  /** Splitting off the low byte of `lo + 256 * hi` gives `lo` and `hi` back. */
  lemma JoinByte(lo: int, hi: nat)
    requires 0 <= lo < 0x100
    ensures (lo + 0x100 * hi) % 0x100 == lo && (lo + 0x100 * hi) / 0x100 == hi
  {
  }

  /** The low `k` bytes of `n`, least significant first. */
  function LittleEndian(n: nat, k: nat): (r: seq<byte>)
    ensures |r| == k
  {
    if k == 0 then [] else [ByteOf(n % 0x100)] + LittleEndian(n / 0x100, k - 1)
  }

  /** The four bytes of `x`, least significant first. */
  function LE32(x: uint32): (r: seq<byte>)
    ensures |r| == 4
  {
    LittleEndian(x as int, 4)
  }

  /** The uint32 whose little-endian encoding is `b`. */
  function DecodeLE32(b: seq<byte>): uint32
    requires |b| == 4
  {
    (Value(b[0]) + 0x100 * (Value(b[1]) + 0x100 * (Value(b[2]) + 0x100 * Value(b[3])))) as uint32
  }

  /** The four bytes of `x` spelled out. */
  lemma LE32Bytes(x: uint32)
    ensures var n0 := x as int; var n1 := n0 / 0x100; var n2 := n1 / 0x100; var n3 := n2 / 0x100;
      LE32(x) == [ByteOf(n0 % 0x100), ByteOf(n1 % 0x100), ByteOf(n2 % 0x100), ByteOf(n3 % 0x100)]
  {
    var n0 := x as int;
    var n1 := n0 / 0x100;
    var n2 := n1 / 0x100;
    var n3 := n2 / 0x100;
    assert LittleEndian(n3, 1) == [ByteOf(n3 % 0x100)] + LittleEndian(n3 / 0x100, 0);
    assert LittleEndian(n2, 2) == [ByteOf(n2 % 0x100)] + LittleEndian(n3, 1);
    assert LittleEndian(n1, 3) == [ByteOf(n1 % 0x100)] + LittleEndian(n2, 2);
    assert LittleEndian(n0, 4) == [ByteOf(n0 % 0x100)] + LittleEndian(n1, 3);
  }

  /** A uint32 in base 256. */
  lemma Base256(n0: nat)
    requires n0 < 0x1_0000_0000
    ensures var n1 := n0 / 0x100; var n2 := n1 / 0x100; var n3 := n2 / 0x100;
      n3 < 0x100 && n0 == n0 % 0x100 + 0x100 * (n1 % 0x100 + 0x100 * (n2 % 0x100 + 0x100 * n3))
  {
    var n1 := n0 / 0x100;
    var n2 := n1 / 0x100;
    var n3 := n2 / 0x100;
    SplitByte(n0);
    SplitByte(n1);
    SplitByte(n2);
  }

  /** Every uint32 reads back from its four bytes. */
  lemma DecodeOfLE32(x: uint32)
    ensures DecodeLE32(LE32(x)) == x
  {
    var n0 := x as int;
    var n1 := n0 / 0x100;
    var n2 := n1 / 0x100;
    var n3 := n2 / 0x100;
    var b := LE32(x);
    LE32Bytes(x);
    Base256(n0);
    ValueOfByte(n0 % 0x100);
    ValueOfByte(n1 % 0x100);
    ValueOfByte(n2 % 0x100);
    ValueOfByte(n3 % 0x100);
    assert Value(b[0]) == n0 % 0x100 && Value(b[1]) == n1 % 0x100;
    assert Value(b[2]) == n2 % 0x100 && Value(b[3]) == n3;
  }

  /** The base-256 digits of a decoded uint32 are the values of its bytes. */
  lemma DecodeDigits(b: seq<byte>)
    requires |b| == 4
    ensures var n0 := DecodeLE32(b) as int; var n1 := n0 / 0x100; var n2 := n1 / 0x100; var n3 := n2 / 0x100;
      && n0 % 0x100 == Value(b[0]) && n1 % 0x100 == Value(b[1])
      && n2 % 0x100 == Value(b[2]) && n3 % 0x100 == Value(b[3])
  {
    var v0, v1, v2, v3 := Value(b[0]), Value(b[1]), Value(b[2]), Value(b[3]);
    var n2 := v2 + 0x100 * v3;
    var n1 := v1 + 0x100 * n2;
    JoinByte(v0, n1);
    JoinByte(v1, n2);
    JoinByte(v2, v3);
    JoinByte(v3, 0);
  }

  /** Every four bytes are the encoding of exactly one uint32. */
  lemma LE32OfDecode(b: seq<byte>)
    requires |b| == 4
    ensures LE32(DecodeLE32(b)) == b
  {
    DecodeDigits(b);
    LE32Bytes(DecodeLE32(b));
    ByteOfValue(b[0]);
    ByteOfValue(b[1]);
    ByteOfValue(b[2]);
    ByteOfValue(b[3]);
  }

  /** `part` lies in `s` starting at index `at`. */
  predicate SliceIs(s: seq<byte>, at: nat, part: seq<byte>) {
    at + |part| <= |s| && s[at .. at + |part|] == part
  }

  /** In `s`, after its first `k` bytes and then `before`, lies `part`. */
  lemma SliceAfter(s: seq<byte>, k: nat, rest: seq<byte>, before: seq<byte>, part: seq<byte>, after: seq<byte>, at: nat)
    requires k <= |s| && s[k..] == rest && rest == before + part + after
    requires at == k + |before|
    ensures SliceIs(s, at, part)
  {
    assert s == (s[..k] + before) + part + after;
  }

  /** Where `a + b` lies, `a` lies, and `b` right after it. */
  lemma SliceIsSplit(s: seq<byte>, at: nat, a: seq<byte>, b: seq<byte>)
    requires SliceIs(s, at, a + b)
    ensures SliceIs(s, at, a) && SliceIs(s, at + |a|, b)
  {
    var w := s[at .. at + |a| + |b|];
    assert s[at .. at + |a|] == w[..|a|];
    assert s[at + |a| .. at + |a| + |b|] == w[|a|..];
  }

  /** What lies in `s` within its first `m` bytes lies in `s[..m]` too. */
  lemma SliceIsPrefix(s: seq<byte>, m: nat, at: nat, part: seq<byte>)
    requires m <= |s| && at + |part| <= m && SliceIs(s, at, part)
    ensures SliceIs(s[..m], at, part)
  {
    assert s[..m][at .. at + |part|] == s[at .. at + |part|];
  }

  /** A table of uint32 values written one after the other. */
  function LE32s(xs: seq<uint32>): (r: seq<byte>)
    ensures |r| == 4 * |xs|
  {
    if xs == [] then [] else LE32s(xs[..|xs| - 1]) + LE32(xs[|xs| - 1])
  }

  /** Entry `i` of a table occupies bytes `4i .. 4i+4` of its encoding. */
  lemma {:induction false} LE32sAt(xs: seq<uint32>, i: nat)
    requires i < |xs|
    ensures LE32s(xs)[4 * i .. 4 * i + 4] == LE32(xs[i])
    decreases |xs|
  {
    var n := |xs| - 1;
    var front := LE32s(xs[..n]);
    assert LE32s(xs) == front + LE32(xs[n]);
    if i < n {
      LE32sAt(xs[..n], i);
      assert xs[..n][i] == xs[i];
      assert LE32s(xs)[4 * i .. 4 * i + 4] == front[4 * i .. 4 * i + 4];
    } else {
      assert LE32s(xs)[4 * i .. 4 * i + 4] == LE32(xs[n]);
    }
  }

  /** Decoding every four-byte slot of a table's encoding gives the table back. */
  lemma DecodeLE32s(xs: seq<uint32>)
    ensures |LE32s(xs)| == 4 * |xs|
    ensures forall i :: 0 <= i < |xs| ==> DecodeLE32(LE32s(xs)[4 * i .. 4 * i + 4]) == xs[i]
  {
    forall i | 0 <= i < |xs|
      ensures DecodeLE32(LE32s(xs)[4 * i .. 4 * i + 4]) == xs[i]
    {
      LE32sAt(xs, i);
      DecodeOfLE32(xs[i]);
    }
  }
}
