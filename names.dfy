/**
 * The 32-byte ItemName slot: how parseJsonFile pads a name into it and how
 * cleanItemName recovers a name from it for the text formats.
 */
module Names {
  import opened Bytes
  import opened Wrappers

  const NameSize: nat := 32

  /** lgcFileItem.ItemName: exactly 32 bytes. */
  type NameSlot = s: seq<byte> | |s| == NameSize witness seq(32, _ => 0)

  const Nul: byte := 0x00
  const Space: byte := 0x20

  function Spaces(n: nat): (r: seq<byte>)
    ensures |r| == n && forall k :: 0 <= k < n ==> r[k] == Space
  {
    seq(n, _ => Space)
  }

  /**
   * The slot parseJsonFile builds: the name left-justified in 32 columns of spaces
   * (`%-32s`), then a NUL written at index len(name). For a name of 32 bytes or
   * more that index is out of range and the source panics; here that is `None`.
   */
  function PadName(name: seq<byte>): (r: Option<NameSlot>)
    ensures r.Some? <==> |name| < NameSize
    ensures r.Some? ==> r.value[..|name|] == name && r.value[|name|] == Nul
    ensures r.Some? ==> forall k :: |name| < k < NameSize ==> r.value[k] == Space
  {
    if |name| >= NameSize then None else Some(name + [Nul] + Spaces(NameSize - 1 - |name|))
  }

  /** unicode.IsPrint restricted to 7-bit ASCII: space through tilde. */
  predicate IsPrintable(b: byte) {
    0x20 <= b <= 0x7E
  }

  predicate AllPrintable(s: seq<byte>) {
    forall k :: 0 <= k < |s| ==> IsPrintable(s[k])
  }

  /** The strings.Map step of cleanItemName: non-printable bytes are dropped. */
  function KeepPrintable(s: seq<byte>): (r: seq<byte>)
    ensures |r| <= |s|
    ensures AllPrintable(r)
  {
    if s == [] then []
    else KeepPrintable(s[..|s| - 1]) + (if IsPrintable(s[|s| - 1]) then [s[|s| - 1]] else [])
  }

  lemma {:induction false} KeepPrintableConcat(a: seq<byte>, b: seq<byte>)
    ensures KeepPrintable(a + b) == KeepPrintable(a) + KeepPrintable(b)
    decreases |b|
  {
    if b == [] {
      assert a + b == a;
    } else {
      var n := |b| - 1;
      assert (a + b)[..|a + b| - 1] == a + b[..n];
      KeepPrintableConcat(a, b[..n]);
    }
  }

  /** A single byte survives the filter exactly when it is printable. */
  lemma KeepPrintableOne(b: byte)
    ensures KeepPrintable([b]) == if IsPrintable(b) then [b] else []
  {
    assert [b][..0] == [];
  }

  lemma {:induction false} KeepPrintableOfPrintable(s: seq<byte>)
    requires AllPrintable(s)
    ensures KeepPrintable(s) == s
    decreases |s|
  {
    if s != [] {
      KeepPrintableOfPrintable(s[..|s| - 1]);
    }
  }

  /** Leading spaces removed. */
  function TrimLeft(s: seq<byte>): (r: seq<byte>)
    ensures |r| <= |s| && r == s[|s| - |r|..]
    ensures forall k :: 0 <= k < |s| - |r| ==> s[k] == Space
    ensures r != [] ==> r[0] != Space
  {
    if s != [] && s[0] == Space then TrimLeft(s[1..]) else s
  }

  /** Trailing spaces removed. */
  function TrimRight(s: seq<byte>): (r: seq<byte>)
    ensures |r| <= |s| && r == s[..|r|]
    ensures forall k :: |r| <= k < |s| ==> s[k] == Space
    ensures r != [] ==> r[|r| - 1] != Space
  {
    if s != [] && s[|s| - 1] == Space then TrimRight(s[..|s| - 1]) else s
  }

  /** strings.Trim(s, " "): spaces removed from both ends. */
  function TrimSpaces(s: seq<byte>): (r: seq<byte>)
    ensures r != [] ==> r[0] != Space && r[|r| - 1] != Space
  {
    TrimLeft(TrimRight(s))
  }

  /** Spaces appended to a string are exactly what TrimRight removes again. */
  lemma {:induction false} TrimRightSpaces(s: seq<byte>, n: nat)
    ensures TrimRight(s + Spaces(n)) == TrimRight(s)
    decreases n
  {
    if n == 0 {
      assert s + Spaces(n) == s;
    } else {
      var t := s + Spaces(n);
      assert t[..|t| - 1] == s + Spaces(n - 1);
      TrimRightSpaces(s, n - 1);
    }
  }

  /**
   * cleanItemName: the slot as text, without the NUL terminator and other
   * non-printable bytes, and with surrounding spaces trimmed.
   */
  function CleanItemName(slot: NameSlot): (r: seq<byte>)
    ensures AllPrintable(r)
    ensures r != [] ==> r[0] != Space && r[|r| - 1] != Space
  {
    var printable := KeepPrintable(slot);
    var right := TrimRight(printable);
    var trimmed := TrimLeft(right);
    PrintableSlice(printable, 0, |right|);
    PrintableSlice(right, |right| - |trimmed|, |right|);
    trimmed
  }

  lemma PrintableSlice(s: seq<byte>, i: nat, j: nat)
    requires i <= j <= |s| && AllPrintable(s)
    ensures AllPrintable(s[i..j])
  {
    assert forall k :: 0 <= k < j - i ==> s[i..j][k] == s[i + k];
  }

  /** Keeping the printable bytes of a padded slot drops only the NUL. */
  lemma KeepPrintablePadded(name: seq<byte>)
    requires |name| < NameSize && AllPrintable(name)
    ensures PadName(name).Some?
    ensures KeepPrintable(PadName(name).value) == name + Spaces(NameSize - 1 - |name|)
  {
    var pad := Spaces(NameSize - 1 - |name|);
    assert PadName(name).value == name + ([Nul] + pad);
    KeepPrintableConcat(name, [Nul] + pad);
    KeepPrintableConcat([Nul], pad);
    KeepPrintableOfPrintable(name);
    KeepPrintableOfPrintable(pad);
    KeepPrintableOne(Nul);
    assert [] + pad == pad;
  }

  /**
   * cleanItemName is the inverse projection of the padding: a printable name of
   * fewer than 32 bytes comes back with only its own surrounding spaces removed.
   */
  lemma CleanPaddedName(name: seq<byte>)
    requires |name| < NameSize && AllPrintable(name)
    ensures PadName(name).Some?
    ensures CleanItemName(PadName(name).value) == TrimSpaces(name)
  {
    KeepPrintablePadded(name);
    TrimRightSpaces(name, NameSize - 1 - |name|);
    assert TrimRight(KeepPrintable(PadName(name).value)) == TrimRight(name);
  }

  /** A printable name without surrounding spaces comes back unchanged. */
  lemma CleanPaddedTrimmedName(name: seq<byte>)
    requires |name| < NameSize && AllPrintable(name)
    requires name != [] ==> name[0] != Space && name[|name| - 1] != Space
    ensures CleanItemName(PadName(name).value) == name
  {
    CleanPaddedName(name);
  }
}
