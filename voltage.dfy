/**
 * The supply-voltage table (mapVoltageLevel / unmapVoltageLevel). The source
 * compares float64 values against four literals; here the values are exact reals and
 * only those equality tests are modelled.
 */
module Voltage {
  import opened Bytes

  const Level5v0: byte := 0
  const Level3v3: byte := 1
  const Level2v5: byte := 2
  const Level1v8: byte := 3

  /** The sentinel both directions return for a value outside the table. */
  const Invalid: byte := 255

  predicate IsSupportedVcc(vcc: real) {
    vcc == 5.0 || vcc == 3.3 || vcc == 2.5 || vcc == 1.8
  }

  /** mapVoltageLevel: the level byte of a supply voltage. */
  function MapVoltageLevel(vcc: real): (level: byte)
    ensures level != Invalid <==> IsSupportedVcc(vcc)
    ensures level == Invalid || level <= Level1v8
  {
    if vcc == 5.0 then Level5v0
    else if vcc == 3.3 then Level3v3
    else if vcc == 2.5 then Level2v5
    else if vcc == 1.8 then Level1v8
    else Invalid
  }

  /** unmapVoltageLevel: the supply voltage of a level byte, 255.0 when unknown. */
  function UnmapVoltageLevel(level: byte): (vcc: real)
    ensures level <= Level1v8 <==> IsSupportedVcc(vcc)
    ensures level > Level1v8 ==> vcc == Invalid as int as real
  {
    match level
    case 0 => 5.0
    case 1 => 3.3
    case 2 => 2.5
    case 3 => 1.8
    case _ => 255.0
  }

  /** A supported voltage survives the round trip through its level byte. */
  lemma VoltageRoundTrip(vcc: real)
    requires IsSupportedVcc(vcc)
    ensures UnmapVoltageLevel(MapVoltageLevel(vcc)) == vcc
  {
  }

  /** A defined level byte survives the round trip through its voltage. */
  lemma LevelRoundTrip(level: byte)
    requires level <= Level1v8
    ensures MapVoltageLevel(UnmapVoltageLevel(level)) == level
  {
  }

  /** Any other level byte maps to 255.0, and 255.0 maps back to the sentinel. */
  lemma InvalidLevelRoundTrip(level: byte)
    requires level > Level1v8
    ensures MapVoltageLevel(UnmapVoltageLevel(level)) == Invalid
  {
  }
}
