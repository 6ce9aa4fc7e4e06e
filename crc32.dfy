/**
 * CRC-32 of IEEE 802.3 (clause 3.2.9), in the reflected form that Go's hash/crc32
 * computes with its IEEE table: polynomial 0xEDB88320, register inverted on entry and
 * on exit, so that `Update` can be chained over consecutive pieces of data.
 */
module Crc32 {
  import opened Bytes

  /** The reflected IEEE polynomial (0x04C11DB7 bit-reversed). */
  const IEEE: bv32 := 0xEDB88320

  /** One bit of the reflected shift register. */
  function Shift(r: bv32): bv32 {
    if r & 1 == 1 then (r >> 1) ^ IEEE else r >> 1
  }

  function Shifts(r: bv32, n: nat): bv32
    decreases n
  {
    if n == 0 then r else Shifts(Shift(r), n - 1)
  }

  /** The register after absorbing one byte. */
  function Step(r: bv32, b: byte): bv32 {
    Shifts(r ^ (b as bv32), 8)
  }

  /** The register after absorbing `data`, front to back. */
  function Raw(r: bv32, data: seq<byte>): bv32
    decreases |data|
  {
    if data == [] then r else Raw(Step(r, data[0]), data[1..])
  }

  /** crc32.Update(crc, crc32.IEEETable, data). */
  function Update(crc: bv32, data: seq<byte>): bv32 {
    !Raw(!crc, data)
  }

  lemma {:induction false} RawConcat(r: bv32, a: seq<byte>, b: seq<byte>)
    ensures Raw(r, a + b) == Raw(Raw(r, a), b)
    decreases |a|
  {
    if a == [] {
      assert a + b == b;
    } else {
      assert (a + b)[1..] == a[1..] + b;
      RawConcat(Step(r, a[0]), a[1..], b);
    }
  }

  /** Chaining: updating with `a` and then with `b` is updating with `a + b`. */
  lemma UpdateConcat(crc: bv32, a: seq<byte>, b: seq<byte>)
    ensures Update(Update(crc, a), b) == Update(crc, a + b)
  {
    var x := Raw(!crc, a);
    assert !Update(crc, a) == x;
    RawConcat(!crc, a, b);
  }

  /** Absorbing a first byte `b` into `r` gives the register `next` that absorbs the rest. */
  lemma RawCons(r: bv32, b: byte, rest: seq<byte>, next: bv32)
    requires Step(r, b) == next
    ensures Raw(r, [b] + rest) == Raw(next, rest)
  {
    assert ([b] + rest)[1..] == rest;
  }

  /** The register after each digit of "123456789", starting from the inverted zero. */
  lemma CheckValueSteps()
    ensures Step(0xFFFF_FFFF, 0x31) == 0x7C23_1048
    ensures Step(0x7C23_1048, 0x32) == 0xB0AC_BB32
    ensures Step(0xB0AC_BB32, 0x33) == 0x77B7_9C2D
    ensures Step(0x77B7_9C2D, 0x34) == 0x641C_1F5C
    ensures Step(0x641C_1F5C, 0x35) == 0x340A_C5E3
    ensures Step(0x340A_C5E3, 0x36) == 0xF68D_2C9E
    ensures Step(0xF68D_2C9E, 0x37) == 0xAFFC_9660
    ensures Step(0xAFFC_9660, 0x38) == 0x651F_2550
    ensures Step(0x651F_2550, 0x39) == 0x340B_C6D9
  {
  }

  /** The standard check value of CRC-32/IEEE: the CRC of the ASCII digits "123456789". */
  lemma UpdateCheckValue()
    ensures Update(0, [0x31, 0x32, 0x33, 0x34, 0x35, 0x36, 0x37, 0x38, 0x39]) == 0xCBF43926
  {
    CheckValueSteps();
    var s9: seq<byte> := [];
    var s8 := [0x39] + s9;
    var s7 := [0x38] + s8;
    var s6 := [0x37] + s7;
    var s5 := [0x36] + s6;
    var s4 := [0x35] + s5;
    var s3 := [0x34] + s4;
    var s2 := [0x33] + s3;
    var s1 := [0x32] + s2;
    var s0 := [0x31] + s1;
    RawCons(0xFFFF_FFFF, 0x31, s1, 0x7C23_1048);
    RawCons(0x7C23_1048, 0x32, s2, 0xB0AC_BB32);
    RawCons(0xB0AC_BB32, 0x33, s3, 0x77B7_9C2D);
    RawCons(0x77B7_9C2D, 0x34, s4, 0x641C_1F5C);
    RawCons(0x641C_1F5C, 0x35, s5, 0x340A_C5E3);
    RawCons(0x340A_C5E3, 0x36, s6, 0xF68D_2C9E);
    RawCons(0xF68D_2C9E, 0x37, s7, 0xAFFC_9660);
    RawCons(0xAFFC_9660, 0x38, s8, 0x651F_2550);
    RawCons(0x651F_2550, 0x39, s9, 0x340B_C6D9);
    assert s0 == [0x31, 0x32, 0x33, 0x34, 0x35, 0x36, 0x37, 0x38, 0x39];
  }

  /** Updating with nothing leaves the checksum as it was. */
  lemma UpdateEmpty(crc: bv32)
    ensures Update(crc, []) == crc
  {
    assert !!crc == crc;
  }

  lemma ShiftKeepsDistinct(x: bv32, y: bv32)
    requires x != y
    ensures Shift(x) != Shift(y)
  {
    if x & 1 == y & 1 {
      assert x >> 1 != y >> 1;
    } else {
      assert Shift(x) & 0x8000_0000 != Shift(y) & 0x8000_0000;
    }
  }

  lemma {:induction false} ShiftsKeepDistinct(x: bv32, y: bv32, n: nat)
    requires x != y
    ensures Shifts(x, n) != Shifts(y, n)
    decreases n
  {
    if n > 0 {
      ShiftKeepsDistinct(x, y);
      ShiftsKeepDistinct(Shift(x), Shift(y), n - 1);
    }
  }

  lemma XorKeepsDistinct(r: bv32, s: bv32, a: byte, b: byte)
    requires r != s || a != b
    requires r == s || a == b
    ensures r ^ (a as bv32) != s ^ (b as bv32)
  {
    if r == s {
      assert a as bv32 != b as bv32;
    }
  }

  /** Absorbing two different bytes into the same register gives different registers. */
  lemma StepDistinguishesBytes(r: bv32, a: byte, b: byte)
    requires a != b
    ensures Step(r, a) != Step(r, b)
  {
    XorKeepsDistinct(r, r, a, b);
    ShiftsKeepDistinct(r ^ (a as bv32), r ^ (b as bv32), 8);
  }

  /** Absorbing one byte into two different registers keeps them different. */
  lemma StepDistinguishesRegisters(r: bv32, s: bv32, b: byte)
    requires r != s
    ensures Step(r, b) != Step(s, b)
  {
    XorKeepsDistinct(r, s, b, b);
    ShiftsKeepDistinct(r ^ (b as bv32), s ^ (b as bv32), 8);
  }

  /** Absorbing the same data into two different registers keeps them different. */
  lemma {:induction false} RawDistinguishesRegisters(r: bv32, s: bv32, data: seq<byte>)
    requires r != s
    ensures Raw(r, data) != Raw(s, data)
    decreases |data|
  {
    if data != [] {
      StepDistinguishesRegisters(r, s, data[0]);
      RawDistinguishesRegisters(Step(r, data[0]), Step(s, data[0]), data[1..]);
    }
  }

  /**
   * A running checksum that has gone wrong stays wrong: two different checksums
   * updated with the same data remain different.
   */
  lemma UpdateKeepsDistinct(c: bv32, d: bv32, data: seq<byte>)
    requires c != d
    ensures Update(c, data) != Update(d, data)
  {
    RawDistinguishesRegisters(!c, !d, data);
  }

  /** The checksum changes whenever exactly one byte of the data changes. */
  lemma UpdateDetectsByteChange(crc: bv32, data: seq<byte>, i: nat, v: byte)
    requires i < |data| && v != data[i]
    ensures Update(crc, data) != Update(crc, data[i := v])
  {
    var other := data[i := v];
    var front, back := data[..i], data[i + 1..];
    assert data == front + ([data[i]] + back);
    assert other == front + ([v] + back);
    RawConcat(!crc, front, [data[i]] + back);
    RawConcat(!crc, front, [v] + back);
    var r := Raw(!crc, front);
    assert ([data[i]] + back)[1..] == back;
    assert ([v] + back)[1..] == back;
    StepDistinguishesBytes(r, data[i], v);
    RawDistinguishesRegisters(Step(r, data[i]), Step(r, v), back);
  }

  /** The register as the uint32 that Go stores. */
  function AsUint32(x: bv32): uint32 {
    (x as int) as uint32
  }

  lemma CastBack(x: bv32)
    ensures (x as int) as bv32 == x
  {
  }

  /** Different registers are stored as different uint32 values. */
  lemma AsUint32Injective(x: bv32, y: bv32)
    requires x != y
    ensures AsUint32(x) != AsUint32(y)
  {
    CastBack(x);
    CastBack(y);
  }
}
