/**
The encoding check on raw JSON string literals (validJSONStringEncoding and jsonHexQuad in
internal/anilibria/models.go): \u escapes and surrogate pairs as in sections 7 and 8.2 of RFC 8259, and
UTF-8 as in section 4 of RFC 3629. The scanner is proved to accept a quoted literal exactly when its
inside is a concatenation of the units below; JsonUtf8 says what that means for the whole text.
*/
module JsonText {
  import opened Common

  type Byte = b: int | 0 <= b < 256

  const QUOTE: Byte := 0x22
  const BACKSLASH: Byte := 0x5c
  const LETTER_U: Byte := 0x75

  // ---------- hexadecimal quads ----------

  function HexValue(b: Byte): Option<nat> {
    if 0x30 <= b <= 0x39 then Some(b - 0x30)
    else if 0x61 <= b <= 0x66 then Some(b - 0x61 + 10)
    else if 0x41 <= b <= 0x46 then Some(b - 0x41 + 10)
    else None
  }

  predicate AllHex(s: seq<Byte>) {
    forall k :: 0 <= k < |s| ==> HexValue(s[k]).Some?
  }

  /** The number hexadecimal digits spell. */
  function HexNumber(s: seq<Byte>): nat
    requires AllHex(s)
  {
    if s == [] then 0 else 16 * HexNumber(s[..|s| - 1]) + HexValue(s[|s| - 1]).value
  }

  /** jsonHexQuad, with its 16-bit arithmetic; nothing is ever shifted out. */
  method JsonHexQuad(value: seq<Byte>, start: nat) returns (code: nat, ok: bool)
    ensures ok <==> start + 4 <= |value| && AllHex(value[start..start + 4])
    ensures ok ==> code == HexNumber(value[start..start + 4]) && code < 0x10000
  {
    if start + 4 > |value| {
      return 0, false;
    }
    ghost var quad := value[start..start + 4];
    code := 0;
    for k := 0 to 4
      invariant AllHex(quad[..k]) && code == HexNumber(quad[..k])
      invariant code < if k == 0 then 1 else if k == 1 then 16 else if k == 2 then 0x100
                       else if k == 3 then 0x1000 else 0x10000
    {
      assert quad[..k + 1][..k] == quad[..k] && quad[k] == value[start + k];
      var digit := HexValue(value[start + k]);
      if digit.None? {
        return 0, false;
      }
      code := code * 16 % 0x10000;
      code := (code + digit.value) % 0x10000;
    }
    assert quad[..4] == quad;
    ok := true;
  }

  /** The hexadecimal digits: decimal digits, and the letters from a to f in either case. */
  lemma HexDigits(b: Byte, v: nat)
    ensures HexValue(b) == Some(v) <==>
              v < 16 && ((v < 10 && b == 0x30 + v) || (v >= 10 && (b == 0x61 + (v - 10) || b == 0x41 + (v - 10))))
  {
  }

  /** The first digit of a quad counts most. */
  lemma QuadByPlaces(s: seq<Byte>)
    requires |s| == 4 && AllHex(s)
    ensures HexNumber(s) ==
              0x1000 * HexValue(s[0]).value + 0x100 * HexValue(s[1]).value + 0x10 * HexValue(s[2]).value
              + HexValue(s[3]).value
  {
    assert s[..3][..2] == s[..2] && s[..2][..1] == s[..1] && s[..1][..0] == [];
    assert HexNumber(s[..1]) == HexValue(s[0]).value;
    assert HexNumber(s[..2]) == 16 * HexNumber(s[..1]) + HexValue(s[1]).value;
    assert HexNumber(s[..3]) == 16 * HexNumber(s[..2]) + HexValue(s[2]).value;
  }

  // ---------- UTF-8 ----------

  /** A Unicode scalar value outside ASCII. */
  predicate IsWideScalar(c: int) {
    0x80 <= c <= 0x10ffff && !(0xd800 <= c <= 0xdfff)
  }

  /** The UTF-8 form of section 3 of RFC 3629. */
  function Encode(c: int): seq<Byte>
    requires IsWideScalar(c)
  {
    var c1 := c / 64;
    var c2 := c1 / 64;
    var c3 := c2 / 64;
    if c < 0x800 then [0xc0 + c1, 0x80 + c % 64]
    else if c < 0x10000 then [0xe0 + c2, 0x80 + c1 % 64, 0x80 + c % 64]
    else [0xf0 + c3, 0x80 + c2 % 64, 0x80 + c1 % 64, 0x80 + c % 64]
  }

  /** The bytes carry the scalar value: the lead byte its highest bits, each further byte six more. */
  lemma EncodingCarriesItsScalar(c: int)
    requires IsWideScalar(c)
    ensures var s := Encode(c);
            match |s|
            case 2 => s[0] >= 0xc0 && s[1] >= 0x80 && c == (s[0] as int - 0xc0) * 64 + (s[1] as int - 0x80)
            case 3 => c == ((s[0] as int - 0xe0) * 64 + (s[1] as int - 0x80)) * 64 + (s[2] as int - 0x80)
            case 4 =>
              var high := (s[0] as int - 0xf0) * 64 + (s[1] as int - 0x80);
              c == (high * 64 + (s[2] as int - 0x80)) * 64 + (s[3] as int - 0x80)
            case _ => false
  {
  }

  predicate IsTail(b: Byte) {
    0x80 <= b <= 0xbf
  }

  /** utf8.DecodeRune at a byte that is not ASCII: the size of a well-formed sequence, 0 for RuneError of size 1. */
  function DecodeSize(s: seq<Byte>): (n: nat)
    ensures n <= |s| && n <= 4
  {
    if s == [] then 0
    else
      var b0 := s[0];
      if 0xc2 <= b0 <= 0xdf then
        if |s| >= 2 && IsTail(s[1]) then 2 else 0
      else if 0xe0 <= b0 <= 0xef then
        var lo, hi := if b0 == 0xe0 then 0xa0 else 0x80, if b0 == 0xed then 0x9f else 0xbf;
        if |s| >= 3 && lo <= s[1] <= hi && IsTail(s[2]) then 3 else 0
      else if 0xf0 <= b0 <= 0xf4 then
        var lo, hi := if b0 == 0xf0 then 0x90 else 0x80, if b0 == 0xf4 then 0x8f else 0xbf;
        if |s| >= 4 && lo <= s[1] <= hi && IsTail(s[2]) && IsTail(s[3]) then 4 else 0
      else 0
  }

  /** The decoder's byte ranges admit exactly the encodings of scalar values: no surrogate, nothing overlong. */
  lemma DecodesExactlyTheEncodings(s: seq<Byte>, k: nat)
    requires 0 < k <= |s|
    ensures DecodeSize(s) == k <==> exists c :: IsWideScalar(c) && Encode(c) == s[..k]
  {
    if c :| IsWideScalar(c) && Encode(c) == s[..k] {
      EncodingDecodes(s, k, c);
    }
    if DecodeSize(s) == k {
      DecodedIsEncoding(s, k);
    }
  }

  lemma EncodingDecodes(s: seq<Byte>, k: nat, c: int)
    requires 0 < k <= |s| && IsWideScalar(c) && Encode(c) == s[..k]
    ensures DecodeSize(s) == k
  {
    assert forall i :: 0 <= i < k ==> s[i] == Encode(c)[i];
  }

  lemma DecodedIsEncoding(s: seq<Byte>, k: nat)
    requires 0 < k == DecodeSize(s)
    ensures exists c :: IsWideScalar(c) && Encode(c) == s[..k]
  {
    if k == 2 { DecodedPair(s); } else if k == 3 { DecodedTriple(s); } else { DecodedQuadruple(s); }
  }

  lemma DecodedPair(s: seq<Byte>)
    requires DecodeSize(s) == 2
    ensures exists c :: IsWideScalar(c) && Encode(c) == s[..2]
  {
    var d1: int, d0: int := s[0] as int - 0xc0, s[1] as int - 0x80;
    EncodingOf(0, 0, d1, d0);
    assert Encode(d1 * 64 + d0) == s[..2];
  }

  lemma DecodedTriple(s: seq<Byte>)
    requires DecodeSize(s) == 3
    ensures exists c :: IsWideScalar(c) && Encode(c) == s[..3]
  {
    var d2: int, d1: int, d0: int := s[0] as int - 0xe0, s[1] as int - 0x80, s[2] as int - 0x80;
    EncodingOf(0, d2, d1, d0);
    var c := (d2 * 64 + d1) * 64 + d0;
    assert IsWideScalar(c) && c >= 0x800;
    assert Encode(c) == s[..3];
  }

  lemma DecodedQuadruple(s: seq<Byte>)
    requires DecodeSize(s) == 4
    ensures exists c :: IsWideScalar(c) && Encode(c) == s[..4]
  {
    var d3: int, d2: int := s[0] as int - 0xf0, s[1] as int - 0x80;
    var d1: int, d0: int := s[2] as int - 0x80, s[3] as int - 0x80;
    EncodingOf(d3, d2, d1, d0);
    var c := ((d3 * 64 + d2) * 64 + d1) * 64 + d0;
    assert IsWideScalar(c) && c >= 0x10000;
    assert Encode(c) == s[..4];
  }

  /** Taking a number apart in base 64 gives back the digits it was put together from. */
  lemma EncodingOf(d3: int, d2: int, d1: int, d0: int)
    requires 0 <= d3 && 0 <= d2 < 64 && 0 <= d1 < 64 && 0 <= d0 < 64
    ensures var c := ((d3 * 64 + d2) * 64 + d1) * 64 + d0;
            && c / 64 == (d3 * 64 + d2) * 64 + d1 && c % 64 == d0
            && c / 64 / 64 == d3 * 64 + d2 && c / 64 % 64 == d1
            && c / 64 / 64 / 64 == d3 && c / 64 / 64 % 64 == d2
  {
  }

  // ---------- the units of a string ----------

  predicate IsEscapedCode(s: seq<Byte>) {
    |s| == 6 && s[0] == BACKSLASH && s[1] == LETTER_U && AllHex(s[2..6])
  }

  function EscapedCode(s: seq<Byte>): nat
    requires IsEscapedCode(s)
  {
    HexNumber(s[2..6])
  }

  /**
  One unit: a backslash with any one byte but u, an escaped non-surrogate, a surrogate pair, an ASCII byte
  other than a backslash, quotes and control characters included, or the UTF-8 form of another scalar value.
  */
  ghost predicate IsUnit(s: seq<Byte>) {
    || (|s| == 2 && s[0] == BACKSLASH && s[1] != LETTER_U)
    || (IsEscapedCode(s) && !(0xd800 <= EscapedCode(s) <= 0xdfff))
    || (|s| == 12 && IsEscapedCode(s[..6]) && IsEscapedCode(s[6..])
        && 0xd800 <= EscapedCode(s[..6]) <= 0xdbff && 0xdc00 <= EscapedCode(s[6..]) <= 0xdfff)
    || (|s| == 1 && s[0] < 0x80 && s[0] != BACKSLASH)
    || (exists c :: IsWideScalar(c) && Encode(c) == s)
  }

  /** The text is a concatenation of units. */
  ghost predicate Splits(s: seq<Byte>) {
    s == [] || exists k :: 0 < k <= |s| && IsUnit(s[..k]) && Splits(s[k..])
  }

  /** The length of the unit a text starts with, or 0. */
  function NextUnit(s: seq<Byte>): (n: nat)
    ensures n <= |s|
  {
    if s == [] then 0
    else if s[0] == BACKSLASH then
      if |s| < 2 then 0
      else if s[1] != LETTER_U then 2
      else if |s| < 6 || !AllHex(s[2..6]) then 0
      else
        var code := HexNumber(s[2..6]);
        if 0xd800 <= code <= 0xdbff then
          if |s| >= 12 && s[6] == BACKSLASH && s[7] == LETTER_U && AllHex(s[8..12])
             && 0xdc00 <= HexNumber(s[8..12]) <= 0xdfff then 12 else 0
        else if 0xdc00 <= code <= 0xdfff then 0
        else 6
    else if s[0] < 0x80 then 1
    else DecodeSize(s)
  }

  /** At most one prefix of a text is a unit, and NextUnit finds it. */
  lemma UnitsArePrefixFree(s: seq<Byte>, k: nat)
    requires 0 < k <= |s|
    ensures IsUnit(s[..k]) <==> NextUnit(s) == k
  {
    var unit := s[..k];
    assert unit[0] == s[0];
    DecodesExactlyTheEncodings(s, k);
    forall c | IsWideScalar(c) ensures Encode(c)[0] >= 0xc2 && |Encode(c)| >= 2 {}
    if k >= 6 {
      assert unit[2..6] == s[2..6] && unit[..6][2..6] == s[2..6];
    }
    if k >= 12 {
      assert unit[6..] == s[6..k];
      assert k == 12 ==> unit[6..][2..6] == s[8..12];
    }
  }

  lemma SplitsByNextUnit(s: seq<Byte>)
    requires s != []
    ensures Splits(s) <==> NextUnit(s) > 0 && Splits(s[NextUnit(s)..])
  {
    var n := NextUnit(s);
    if n > 0 {
      UnitsArePrefixFree(s, n);
    }
    forall k | 0 < k <= |s| ensures IsUnit(s[..k]) <==> n == k {
      UnitsArePrefixFree(s, k);
    }
  }

  // ---------- the scanner ----------

  predicate Quoted(value: seq<Byte>) {
    |value| >= 2 && value[0] == QUOTE && value[|value| - 1] == QUOTE
  }

  /**
  validJSONStringEncoding. It accepts a quoted literal exactly when its inside splits into units, and
  it never reads a unit across the closing quote.
  */
  method ValidJSONStringEncoding(value: seq<Byte>) returns (valid: bool)
    ensures valid <==> (Quoted(value) ==> Splits(value[1..|value| - 1]))
  {
    hide Splits, IsUnit, HexNumber;
    if |value| < 2 || value[0] != QUOTE || value[|value| - 1] != QUOTE {
      return true;
    }
    var index := 1;
    ghost var inside := value[1..|value| - 1];
    while index < |value| - 1
      invariant 1 <= index <= |value| - 1
      invariant Splits(inside) <==> Splits(value[index..|value| - 1])
      decreases |value| - index
    {
      ghost var rest := value[index..|value| - 1];
      SplitsByNextUnit(rest);
      var n := UnitAt(value, index);
      if n == 0 {
        return false;
      }
      assert rest[n..] == value[index + n..|value| - 1];
      index := index + n;
    }
    assert value[index..|value| - 1] == [];
    NothingSplits();
    return true;
  }

  lemma NothingSplits()
    ensures Splits([])
  {
  }

  /** One round of the loop of validJSONStringEncoding: how far it advances, 0 where it rejects. */
  method UnitAt(value: seq<Byte>, index: nat) returns (n: nat)
    requires Quoted(value) && 1 <= index < |value| - 1
    ensures n == NextUnit(value[index..|value| - 1])
  {
    hide HexNumber;
    ghost var rest := value[index..|value| - 1];
    if value[index] == BACKSLASH {
      if index + 1 >= |value| - 1 {
        return 0;
      }
      if value[index + 1] != LETTER_U {
        return 2;
      }
      var code, ok := JsonHexQuad(value, index + 2);
      QuadStaysInside(value, index, 2);
      if !ok {
        return 0;
      }
      if 0xd800 <= code <= 0xdbff {
        if index + 12 > |value| - 1 || value[index + 6] != BACKSLASH || value[index + 7] != LETTER_U {
          return 0;
        }
        var low, lowOk := JsonHexQuad(value, index + 8);
        QuadStaysInside(value, index, 8);
        if !lowOk || low < 0xdc00 || low > 0xdfff {
          return 0;
        }
        return 12;
      }
      if 0xdc00 <= code <= 0xdfff {
        return 0;
      }
      return 6;
    }
    if value[index] < 0x80 {
      return 1;
    }
    n := DecodeSize(value[index..|value| - 1]);
  }

  /** A quad that reads hexadecimal digits only ends before the closing quote, which is not one. */
  lemma QuadStaysInside(value: seq<Byte>, index: nat, offset: nat)
    requires Quoted(value) && 1 <= index < |value| - 1
    ensures var start, rest := index + offset, value[index..|value| - 1];
            (start + 4 <= |value| && AllHex(value[start..start + 4])) <==>
            (offset + 4 <= |rest| && AllHex(rest[offset..offset + 4]))
    ensures var start, rest := index + offset, value[index..|value| - 1];
            offset + 4 <= |rest| ==> rest[offset..offset + 4] == value[start..start + 4]
  {
    var start, rest := index + offset, value[index..|value| - 1];
    if offset + 4 <= |rest| {
      var inner, outer := rest[offset..offset + 4], value[start..start + 4];
      forall k | 0 <= k < |inner| ensures inner[k] == outer[k] {
        assert inner[k] == rest[offset + k];
      }
      assert inner == outer;
    } else if start + 4 == |value| {
      assert value[start..start + 4][3] == QUOTE;
    }
  }
}
