/**
 * Test vectors: a row of pin states packed two per byte into a fixed 24-byte record
 * (parseVectorString), and the symbol string the text writers build back from the
 * first PinCount/2 bytes of such a record.
 */
module Vectors {
  import opened Bytes
  import opened Wrappers
  import opened Symbols

  /** Size of lgcLogicVectors.Vectors. */
  const VectorSize: nat := 24

  /** Longest symbol string that packs: 24 full pairs and one unpaired symbol. */
  const MaxSymbols: nat := 2 * VectorSize + 1

  /** lgcLogicVectors: exactly 24 bytes. */
  type LogicVector = v: seq<byte> | |v| == VectorSize witness seq(24, _ => 0)

  /**
   * Why a symbol string does not pack. The source panics in both cases: in
   * unmapVector on an unknown character, and on the write to byte 24 of the record.
   */
  datatype PackError = InvalidSymbol(position: nat) | TooManyPins

  function LowNibble(b: byte): byte {
    b & 0x0F
  }

  function HighNibble(b: byte): byte {
    b >> 4
  }

  /** The byte whose low nibble is `lo` and whose high nibble is `hi`. */
  function PackPair(lo: byte, hi: byte): byte {
    lo | (hi << 4)
  }

  lemma NibblesOfPair(lo: byte, hi: byte)
    requires lo < 16 && hi < 16
    ensures LowNibble(PackPair(lo, hi)) == lo && HighNibble(PackPair(lo, hi)) == hi
  {
  }

  lemma PairOfNibbles(b: byte)
    ensures PackPair(LowNibble(b), HighNibble(b)) == b
    ensures LowNibble(b) < 16 && HighNibble(b) < 16
  {
  }

  /** The nibble code of a valid symbol. */
  function Code(c: byte): (code: byte)
    requires IsSymbol(c)
    ensures code < CodeCount && MapVector(code) == c
  {
    UnmapVector(c).value
  }

  /** The index of the first byte of `s` that is not a symbol, or |s| if there is none. */
  function FirstNonSymbol(s: seq<byte>): (r: nat)
    ensures r <= |s|
    ensures forall j :: 0 <= j < r ==> IsSymbol(s[j])
    ensures r < |s| ==> !IsSymbol(s[r])
  {
    if s == [] || !IsSymbol(s[0]) then 0 else 1 + FirstNonSymbol(s[1..])
  }

  predicate AllSymbols(s: seq<byte>) {
    forall j :: 0 <= j < |s| ==> IsSymbol(s[j])
  }

  /** Byte `k` of the record packed from a string of symbols. */
  function PackedByte(s: seq<byte>, k: nat): byte
    requires AllSymbols(s)
  {
    if k < |s| / 2 then PackPair(Code(s[2 * k]), Code(s[2 * k + 1])) else 0
  }

  /**
   * What parseVectorString produces. Symbols are examined left to right until the
   * first failure: position 49 is the first whose pair would land in byte 24, so at
   * most 50 symbols are examined.
   */
  function PackVector(s: seq<byte>): (r: Result<LogicVector, PackError>)
    ensures r.Success? <==> |s| <= MaxSymbols && AllSymbols(s)
    ensures r.Success? ==> forall k :: 0 <= k < |s| / 2 ==>
      LowNibble(r.value[k]) == Code(s[2 * k]) && HighNibble(r.value[k]) == Code(s[2 * k + 1])
    ensures r.Success? ==> forall k :: |s| / 2 <= k < VectorSize ==> r.value[k] == 0
    ensures r.Failure? && r.error.InvalidSymbol? ==>
      var p := r.error.position;
      p < |s| && p <= MaxSymbols && !IsSymbol(s[p]) && forall j :: 0 <= j < p ==> IsSymbol(s[j])
    ensures r.Failure? && r.error.TooManyPins? ==>
      |s| > MaxSymbols && forall j :: 0 <= j <= MaxSymbols ==> IsSymbol(s[j])
  {
    var examined := if |s| <= MaxSymbols then |s| else MaxSymbols + 1;
    var bad := FirstNonSymbol(s[..examined]);
    if bad < examined then
      Failure(InvalidSymbol(bad))
    else if |s| > MaxSymbols then
      Failure(TooManyPins)
    else
      var v := seq(VectorSize, k requires 0 <= k < VectorSize => PackedByte(s, k));
      assert forall k :: 0 <= k < |s| / 2 ==>
        LowNibble(v[k]) == Code(s[2 * k]) && HighNibble(v[k]) == Code(s[2 * k + 1]) by {
        forall k | 0 <= k < |s| / 2
          ensures LowNibble(v[k]) == Code(s[2 * k]) && HighNibble(v[k]) == Code(s[2 * k + 1])
        {
          assert v[k] == PackPair(Code(s[2 * k]), Code(s[2 * k + 1]));
          NibblesOfPair(Code(s[2 * k]), Code(s[2 * k + 1]));
        }
      }
      Success(v)
  }

  lemma PackVectorInvalid(s: seq<byte>, p: nat)
    requires p < |s| && p <= MaxSymbols && !IsSymbol(s[p]) && AllSymbols(s[..p])
    ensures PackVector(s) == Failure(InvalidSymbol(p))
  {
    var examined := if |s| <= MaxSymbols then |s| else MaxSymbols + 1;
    var bad := FirstNonSymbol(s[..examined]);
    assert s[..examined][p] == s[p];
    assert forall j :: 0 <= j < p ==> s[..examined][j] == s[..p][j];
  }

  lemma PackVectorOverflow(s: seq<byte>)
    requires |s| > MaxSymbols && AllSymbols(s[..MaxSymbols + 1])
    ensures PackVector(s) == Failure(TooManyPins)
  {
    var bad := FirstNonSymbol(s[..MaxSymbols + 1]);
    assert bad == MaxSymbols + 1;
  }

  lemma PackVectorSuccess(s: seq<byte>)
    requires |s| <= MaxSymbols && AllSymbols(s)
    ensures PackVector(s) == Success(seq(VectorSize, k requires 0 <= k < VectorSize => PackedByte(s, k)))
  {
    assert s[..|s|] == s;
    var bad := FirstNonSymbol(s[..|s|]);
    assert bad == |s|;
  }

  /** The record packed from a string of symbols short enough to fit. */
  ghost function Packing(t: seq<byte>): LogicVector
    requires AllSymbols(t) && |t| / 2 <= VectorSize
  {
    seq(VectorSize, k requires 0 <= k < VectorSize => PackedByte(t, k))
  }

  /** Appending one full pair of symbols fills the next byte of the record. */
  lemma PackingStep(t: seq<byte>, a: byte, b: byte)
    requires AllSymbols(t + [a, b]) && |t| % 2 == 0 && |t| / 2 < VectorSize
    ensures AllSymbols(t) && IsSymbol(a) && IsSymbol(b)
    ensures Packing(t + [a, b]) == Packing(t)[|t| / 2 := PackPair(Code(a), Code(b))]
  {
    var u := t + [a, b];
    assert IsSymbol(u[|t|]) && IsSymbol(u[|t| + 1]);
    assert forall j :: 0 <= j < |t| ==> u[j] == t[j];
    forall k | 0 <= k < VectorSize
      ensures Packing(u)[k] == Packing(t)[|t| / 2 := PackPair(Code(a), Code(b))][k]
    {
      if k < |t| / 2 {
        assert u[2 * k] == t[2 * k] && u[2 * k + 1] == t[2 * k + 1];
      }
    }
  }

  /** An unpaired last symbol does not reach the record. */
  lemma PackingOddTail(t: seq<byte>, a: byte)
    requires AllSymbols(t + [a]) && |t| % 2 == 0 && |t| / 2 <= VectorSize
    ensures AllSymbols(t)
    ensures Packing(t + [a]) == Packing(t)
  {
    var u := t + [a];
    assert forall j :: 0 <= j < |t| ==> u[j] == t[j];
    forall k | 0 <= k < VectorSize
      ensures Packing(u)[k] == Packing(t)[k]
    {
      if k < |t| / 2 {
        assert u[2 * k] == t[2 * k] && u[2 * k + 1] == t[2 * k + 1];
      }
    }
  }

  lemma SymbolPrefixStep(s: seq<byte>, i: nat)
    requires i < |s| && AllSymbols(s[..i]) && IsSymbol(s[i])
    ensures AllSymbols(s[..i + 1])
  {
    assert s[..i + 1] == s[..i] + [s[i]];
  }

  /** Reading the odd symbol at `i` completes byte i/2 of the record. */
  lemma PairPrefixStep(s: seq<byte>, i: nat)
    requires i < |s| && i % 2 == 1 && i / 2 < VectorSize && AllSymbols(s[..i + 1])
    ensures AllSymbols(s[..i - 1]) && IsSymbol(s[i - 1]) && IsSymbol(s[i])
    ensures Packing(s[..i + 1]) == Packing(s[..i - 1])[i / 2 := PackPair(Code(s[i - 1]), Code(s[i]))]
  {
    assert s[..i + 1] == s[..i - 1] + [s[i - 1], s[i]];
    PackingStep(s[..i - 1], s[i - 1], s[i]);
  }

  lemma OddPrefixEnd(s: seq<byte>)
    requires |s| % 2 == 1 && |s| / 2 <= VectorSize && AllSymbols(s)
    ensures AllSymbols(s[..|s| - 1]) && Packing(s[..|s| - 1]) == Packing(s)
  {
    assert s[..|s| - 1] + [s[|s| - 1]] == s;
    PackingOddTail(s[..|s| - 1], s[|s| - 1]);
  }

  /**
   * parseVectorString: packs the symbols pairwise into a 24-byte record, the
   * even-index symbol in the low nibble and the odd-index one in the high nibble.
   */
  method ParseVectorString(vectorStr: seq<byte>) returns (r: Result<LogicVector, PackError>)
    ensures r == PackVector(vectorStr)
  {
    var result := new byte[VectorSize](_ => 0);
    var vByte: byte := 0;
    var vOffset := 0;
    var i := 0;
    assert result[..] == Packing([]);
    while i < |vectorStr|
      invariant 0 <= i <= |vectorStr|
      invariant vOffset == i / 2 && vOffset <= VectorSize
      invariant AllSymbols(vectorStr[..i]) && AllSymbols(vectorStr[..2 * vOffset])
      invariant result[..] == Packing(vectorStr[..2 * vOffset])
      invariant i % 2 == 1 ==> vByte == Code(vectorStr[i - 1])
    {
      var nib := UnmapVector(vectorStr[i]);
      if nib.None? {
        PackVectorInvalid(vectorStr, i);
        return Failure(InvalidSymbol(i));
      }
      SymbolPrefixStep(vectorStr, i);
      if i % 2 == 0 {
        vByte := nib.value;
      } else {
        vByte := vByte | (nib.value << 4);
        if vOffset >= VectorSize {
          PackVectorOverflow(vectorStr);
          return Failure(TooManyPins);
        }
        PairPrefixStep(vectorStr, i);
        ghost var before := result[..];
        result[vOffset] := vByte;
        assert result[..] == before[vOffset := vByte];
        vOffset := vOffset + 1;
        assert 2 * vOffset == i + 1;
      }
      i := i + 1;
    }
    assert vectorStr[..i] == vectorStr;
    if i % 2 == 1 {
      OddPrefixEnd(vectorStr);
    }
    PackVectorSuccess(vectorStr);
    r := Success(result[..]);
  }

  /** The first `n` bytes of a record rendered as symbols, low nibble first. */
  function RenderedPins(v: LogicVector, n: nat): (r: seq<byte>)
    requires n <= VectorSize
    ensures |r| == 2 * n
    ensures forall k :: 0 <= k < n ==>
      r[2 * k] == MapVector(LowNibble(v[k])) && r[2 * k + 1] == MapVector(HighNibble(v[k]))
  {
    if n == 0 then [] else RenderedPins(v, n - 1) + [MapVector(LowNibble(v[n - 1])), MapVector(HighNibble(v[n - 1]))]
  }

  /**
   * The symbol string the text writers build for a record of a part with `pinCount`
   * pins: PinCount/2 bytes are rendered, so an odd last pin is never shown. The
   * source indexes past the record (and panics) when PinCount/2 exceeds 24.
   */
  function RenderVector(v: LogicVector, pinCount: byte): (r: Option<seq<byte>>)
    ensures r.Some? <==> Value(pinCount) <= MaxSymbols
    ensures r.Some? ==> |r.value| == 2 * (Value(pinCount) / 2)
  {
    var n := Value(pinCount) / 2;
    if n > VectorSize then None else Some(RenderedPins(v, n))
  }

  /**
   * The per-vector loop of writeToml, writeJson and writeXml (and DumpLGCFile):
   * vectorStr grows by the low-nibble symbol and then the high-nibble symbol of
   * each byte.
   */
  method BuildVectorString(v: LogicVector, pinCount: byte) returns (r: Option<seq<byte>>)
    ensures r == RenderVector(v, pinCount)
  {
    var bytes := Value(pinCount) / 2;
    if bytes > VectorSize {
      return None;
    }
    var vectorStr: seq<byte> := [];
    var vecByte := 0;
    while vecByte < bytes
      invariant 0 <= vecByte <= bytes
      invariant vectorStr == RenderedPins(v, vecByte)
    {
      var pinLow := MapVector(v[vecByte] >> 4);
      var pinHigh := MapVector(v[vecByte] & 0x0F);
      vectorStr := vectorStr + [pinHigh, pinLow];
      vecByte := vecByte + 1;
    }
    r := Some(vectorStr);
  }

  /**
   * Packing and rendering are inverse: a string of symbols that packs renders back
   * to itself, except for an unpaired last symbol, which is dropped.
   */
  lemma PackRenderRoundTrip(s: seq<byte>, pinCount: byte)
    requires |s| <= MaxSymbols && AllSymbols(s)
    requires Value(pinCount) == |s|
    ensures PackVector(s).Success?
    ensures RenderVector(PackVector(s).value, pinCount) == Some(s[..2 * (|s| / 2)])
  {
    var v := PackVector(s).value;
    var n := |s| / 2;
    var r := RenderedPins(v, n);
    forall j | 0 <= j < 2 * n
      ensures r[j] == s[j]
    {
      var k := j / 2;
      assert j == 2 * k || j == 2 * k + 1;
      assert 2 * k + 1 < 2 * n <= |s|;
      assert IsSymbol(s[2 * k]) && IsSymbol(s[2 * k + 1]);
      assert MapVector(Code(s[2 * k])) == s[2 * k];
      assert MapVector(Code(s[2 * k + 1])) == s[2 * k + 1];
    }
    assert r == s[..2 * n];
  }

  /** An even-length symbol string of at most 48 pins renders back exactly. */
  lemma PackRenderEven(s: seq<byte>, pinCount: byte)
    requires |s| % 2 == 0 && |s| < MaxSymbols && AllSymbols(s)
    requires Value(pinCount) == |s|
    ensures PackVector(s).Success?
    ensures RenderVector(PackVector(s).value, pinCount) == Some(s)
  {
    PackRenderRoundTrip(s, pinCount);
    assert s[..2 * (|s| / 2)] == s;
  }

  /** A record holding `n` bytes of defined codes and zeros after them. */
  predicate WellPacked(v: LogicVector, n: nat) {
    && n <= VectorSize
    && (forall k :: 0 <= k < n ==> LowNibble(v[k]) < CodeCount && HighNibble(v[k]) < CodeCount)
    && (forall k :: n <= k < VectorSize ==> v[k] == 0)
  }

  /** Rendering a well-packed record and packing the string gives the record back. */
  lemma RenderPackRoundTrip(v: LogicVector, n: nat)
    requires WellPacked(v, n)
    ensures PackVector(RenderedPins(v, n)) == Success(v)
  {
    var s := RenderedPins(v, n);
    forall j | 0 <= j < |s|
      ensures IsSymbol(s[j])
    {
      var k := j / 2;
      if j == 2 * k {
        assert s[j] == MapVector(LowNibble(v[k]));
      } else {
        assert s[j] == MapVector(HighNibble(v[k]));
      }
    }
    var w := PackVector(s).value;
    forall k | 0 <= k < VectorSize
      ensures w[k] == v[k]
    {
      if k < n {
        CodeRoundTrip(LowNibble(v[k]));
        CodeRoundTrip(HighNibble(v[k]));
        PairOfNibbles(v[k]);
        PairOfNibbles(w[k]);
      }
    }
    assert w == v;
  }
}
