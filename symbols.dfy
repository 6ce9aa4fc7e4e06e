/**
 * The closed table between the nine pin-state codes 0..8 stored in a vector nibble
 * and the characters used for them in the text formats (mapVector / unmapVector).
 */
module Symbols {
  import opened Bytes
  import opened Wrappers

  const InputLow: byte := 0
  const InputHigh: byte := 1
  const OutputLow: byte := 2
  const OutputHigh: byte := 3
  const InputPulse: byte := 4
  const HighZ: byte := 5
  const Ignore: byte := 6
  const Ground: byte := 7
  const Vcc: byte := 8

  /** Number of defined codes; 9..15 fit in a nibble but name no state. */
  const CodeCount: byte := 9

  /** What mapVector renders for a code outside the table. */
  const Blank: byte := 0x20  // ' '

  /** The nine characters of the text formats: 0 1 L H C Z X G V. */
  predicate IsSymbol(c: byte) {
    c in {0x30, 0x31, 0x4C, 0x48, 0x43,
          0x5A, 0x58, 0x47, 0x56}
  }

  /** mapVector: the character of a nibble code, a blank for an unknown code. */
  function MapVector(code: byte): (c: byte)
    ensures code < CodeCount ==> IsSymbol(c)
    ensures code >= CodeCount <==> c == Blank
  {
    match code
    case 0 => 0x30  // '0'
    case 1 => 0x31  // '1'
    case 2 => 0x4C  // 'L'
    case 3 => 0x48  // 'H'
    case 5 => 0x5A  // 'Z'
    case 4 => 0x43  // 'C'
    case 6 => 0x58  // 'X'
    case 8 => 0x56  // 'V'
    case 7 => 0x47  // 'G'
    case _ => Blank
  }

  /**
   * unmapVector: the code of a character. The source panics on any other
   * character; here that is `None`.
   */
  function UnmapVector(c: byte): (r: Option<byte>)
    ensures r.Some? <==> IsSymbol(c)
    ensures r.Some? ==> r.value < CodeCount && MapVector(r.value) == c
  {
    if c == 0x30 then Some(InputLow)  // '0'
    else if c == 0x31 then Some(InputHigh)  // '1'
    else if c == 0x4C then Some(OutputLow)  // 'L'
    else if c == 0x48 then Some(OutputHigh)  // 'H'
    else if c == 0x5A then Some(HighZ)  // 'Z'
    else if c == 0x43 then Some(InputPulse)  // 'C'
    else if c == 0x58 then Some(Ignore)  // 'X'
    else if c == 0x56 then Some(Vcc)  // 'V'
    else if c == 0x47 then Some(Ground)  // 'G'
    else None
  }

  /** Every defined code survives rendering and parsing back. */
  lemma CodeRoundTrip(code: byte)
    requires code < CodeCount
    ensures UnmapVector(MapVector(code)) == Some(code)
  {
  }
}
