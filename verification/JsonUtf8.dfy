/**
What acceptance by the JSON string scanner says about UTF-8. The scanner skips the byte after a backslash
unless it is a u, whatever that byte is. So a literal it accepts is well-formed UTF-8 exactly when no short
escape is a backslash and a byte that is not ASCII, and without such escapes it accepts exactly the texts
that are well-formed UTF-8 with complete escapes and paired surrogates.
*/
module JsonUtf8 {
  import opened JsonText

  /** The UTF-8 form of one Unicode scalar value. */
  ghost predicate IsScalarForm(s: seq<Byte>) {
    (|s| == 1 && s[0] < 0x80) || exists c :: IsWideScalar(c) && Encode(c) == s
  }

  /** Section 4 of RFC 3629: a concatenation of such forms. */
  ghost predicate WellFormed(s: seq<Byte>) {
    s == [] || exists k :: 0 < k <= |s| && IsScalarForm(s[..k]) && WellFormed(s[k..])
  }

  /** No backslash that starts an escape is followed by a byte that is not ASCII. */
  predicate NoWideEscape(s: seq<Byte>) {
    if s == [] then true
    else if s[0] == BACKSLASH then |s| >= 2 ==> s[1] < 0x80 && NoWideEscape(s[2..])
    else NoWideEscape(s[1..])
  }

  /** A \u escape at the start of the text. */
  predicate StartsWithCode(s: seq<Byte>) {
    |s| >= 6 && IsEscapedCode(s[..6])
  }

  /** Every escape is complete, and escaped surrogates come in pairs. */
  predicate EscapesComplete(s: seq<Byte>) {
    if s == [] then true
    else if s[0] != BACKSLASH then EscapesComplete(s[1..])
    else if |s| < 2 then false
    else if s[1] != LETTER_U then EscapesComplete(s[2..])
    else if !StartsWithCode(s) then false
    else
      var code := EscapedCode(s[..6]);
      if 0xd800 <= code <= 0xdbff then
        StartsWithCode(s[6..]) && 0xdc00 <= EscapedCode(s[6..][..6]) <= 0xdfff && EscapesComplete(s[12..])
      else !(0xdc00 <= code <= 0xdfff) && EscapesComplete(s[6..])
  }

  // ---------- reading UTF-8 ----------

  function NextScalar(s: seq<Byte>): (n: nat)
    ensures n <= |s|
  {
    if s == [] then 0 else if s[0] < 0x80 then 1 else DecodeSize(s)
  }

  lemma ScalarAt(s: seq<Byte>, k: nat)
    requires 0 < k <= |s|
    ensures IsScalarForm(s[..k]) <==> NextScalar(s) == k
  {
    assert s[..k][0] == s[0];
    DecodesExactlyTheEncodings(s, k);
    forall c | IsWideScalar(c) ensures Encode(c)[0] >= 0xc2 && |Encode(c)| >= 2 {}
  }

  lemma WellFormedByScalars(s: seq<Byte>)
    requires s != []
    ensures WellFormed(s) <==> NextScalar(s) > 0 && WellFormed(s[NextScalar(s)..])
  {
    hide IsScalarForm, NextScalar;
    var n := NextScalar(s);
    if n > 0 {
      ScalarAt(s, n);
    }
    forall k | 0 < k <= |s| ensures IsScalarForm(s[..k]) <==> n == k {
      ScalarAt(s, k);
    }
  }

  lemma {:induction false} SkipAscii(s: seq<Byte>, n: nat)
    requires n <= |s| && forall k :: 0 <= k < n ==> s[k] < 0x80
    ensures WellFormed(s) <==> WellFormed(s[n..])
    decreases n
  {
    hide WellFormed;
    if n > 0 {
      WellFormedByScalars(s);
      SkipAscii(s[1..], n - 1);
      assert s[1..][n - 1..] == s[n..];
    } else {
      assert s[0..] == s;
    }
  }

  lemma {:induction false} SkipPlain(s: seq<Byte>, n: nat)
    requires n <= |s| && forall k :: 0 <= k < n ==> s[k] != BACKSLASH
    ensures NoWideEscape(s) <==> NoWideEscape(s[n..])
    ensures EscapesComplete(s) <==> EscapesComplete(s[n..])
    decreases n
  {
    if n > 0 {
      SkipPlain(s[1..], n - 1);
      assert s[1..][n - 1..] == s[n..];
    } else {
      assert s[0..] == s;
    }
  }

  // ---------- one unit ----------

  ghost predicate ReadAlike(s: seq<Byte>, rest: seq<Byte>) {
    && (WellFormed(s) <==> WellFormed(rest))
    && (NoWideEscape(s) <==> NoWideEscape(rest))
    && (EscapesComplete(s) <==> EscapesComplete(rest))
  }

  /** A unit other than a backslash with a byte beyond ASCII is passed by all three readings alike. */
  lemma UnitStep(s: seq<Byte>)
    requires s != [] && NextUnit(s) > 0 && !(s[0] == BACKSLASH && s[1] >= 0x80)
    ensures ReadAlike(s, s[NextUnit(s)..])
  {
    hide WellFormed, HexNumber, DecodeSize;
    if s[0] != BACKSLASH {
      PlainStep(s);
    } else if s[1] != LETTER_U {
      SkipAscii(s, 2);
    } else {
      EscapeStep(s);
    }
  }

  lemma PlainStep(s: seq<Byte>)
    requires s != [] && NextUnit(s) > 0 && s[0] != BACKSLASH
    ensures ReadAlike(s, s[NextUnit(s)..])
  {
    hide WellFormed, NoWideEscape, EscapesComplete;
    SkipPlain(s, NextUnit(s));
    WellFormedByScalars(s);
  }

  lemma EscapeStep(s: seq<Byte>)
    requires NextUnit(s) > 0 && s[0] == BACKSLASH && s[1] == LETTER_U
    ensures ReadAlike(s, s[NextUnit(s)..])
  {
    hide WellFormed, HexNumber, DecodeSize, NoWideEscape;
    CodeStep(s);
    assert s[..6][2..6] == s[2..6];
    if NextUnit(s) == 12 {
      assert s[6..][2..6] == s[8..12] && s[6..][6..] == s[12..];
      CodeStep(s[6..]);
      assert s[6..][..6][2..6] == s[8..12];
    }
  }

  /** Past the six bytes of a \u escape. */
  lemma CodeStep(s: seq<Byte>)
    requires |s| >= 6 && s[0] == BACKSLASH && s[1] == LETTER_U && AllHex(s[2..6])
    ensures WellFormed(s) <==> WellFormed(s[6..])
    ensures NoWideEscape(s) <==> NoWideEscape(s[6..])
    ensures StartsWithCode(s)
  {
    hide WellFormed;
    forall k | 2 <= k < 6 ensures s[k] < 0x80 && s[k] != BACKSLASH {
      assert s[k] == s[2..6][k - 2];
    }
    SkipAscii(s, 6);
    SkipPlain(s[2..], 4);
    assert s[2..][4..] == s[6..];
    assert s[..6][2..6] == s[2..6];
  }

  // ---------- the theorems ----------

  /** An accepted text is well-formed UTF-8 if and only if it has no escape with a byte beyond ASCII. */
  lemma {:induction false} AcceptedIsUtf8Exactly(s: seq<Byte>)
    requires Splits(s)
    ensures WellFormed(s) <==> NoWideEscape(s)
    decreases |s|
  {
    hide Splits, WellFormed;
    if s == [] {
      assert WellFormed(s) by { EmptyIsWellFormed(); }
    } else {
      SplitsByNextUnit(s);
      if s[0] == BACKSLASH && s[1] >= 0x80 {
        WideEscapeIsNotUtf8(s);
      } else {
        UnitStep(s);
        AcceptedIsUtf8Exactly(s[NextUnit(s)..]);
      }
    }
  }

  lemma EmptyIsWellFormed()
    ensures WellFormed([]) && Splits([])
  {
  }

  /** The rest of a sequence whose first byte the scanner has skipped does not start a unit. */
  lemma WideEscapeIsNotUtf8(s: seq<Byte>)
    requires |s| >= 2 && s[0] == BACKSLASH && s[1] >= 0x80 && Splits(s[2..])
    ensures !WellFormed(s)
  {
    hide WellFormed, Splits;
    SkipAscii(s, 1);
    WellFormedByScalars(s[1..]);
    if |s| > 2 {
      SplitsByNextUnit(s[2..]);
    }
  }

  /**
  Without such escapes the scanner accepts exactly the well-formed UTF-8 texts whose escapes are complete,
  with surrogates in pairs.
  */
  lemma {:induction false} AcceptsExactlyUtf8(s: seq<Byte>)
    requires NoWideEscape(s)
    ensures Splits(s) <==> WellFormed(s) && EscapesComplete(s)
    decreases |s|
  {
    hide Splits, WellFormed, HexNumber;
    if s == [] {
      EmptyIsWellFormed();
    } else {
      SplitsByNextUnit(s);
      if NextUnit(s) > 0 {
        UnitStep(s);
        AcceptsExactlyUtf8(s[NextUnit(s)..]);
      } else if s[0] != BACKSLASH {
        WellFormedByScalars(s);
      } else if StartsWithCode(s) {
        assert s[..6][2..6] == s[2..6];
        assert StartsWithCode(s[6..]) ==> s[6..][..6][2..6] == s[8..12];
      }
    }
  }

  /** The literals "\<ff>", accepted without being UTF-8, and "\<c3><a9>", rejected although it is. */
  lemma ShortEscapesAreBytes()
    ensures Splits([0x5c, 0xff]) && !WellFormed([0x5c, 0xff])
    ensures !Splits([0x5c, 0xc3, 0xa9]) && WellFormed([0x5c, 0xc3, 0xa9])
  {
    hide Splits, WellFormed;
    EmptyIsWellFormed();
    var accepted, rejected := [0x5c, 0xff], [0x5c, 0xc3, 0xa9];
    SplitsByNextUnit(accepted);
    assert accepted[2..] == [];
    AcceptedIsUtf8Exactly(accepted);
    SplitsByNextUnit(rejected);
    SplitsByNextUnit(rejected[2..]);
    SkipAscii(rejected, 1);
    WellFormedByScalars(rejected[1..]);
    assert rejected[1..][2..] == [];
  }

  /** Bare quotes and control characters inside a literal, which JSON excludes, are left to the decoder. */
  lemma QuotesAndControlsPass(b: Byte)
    requires b == QUOTE || b < 0x20
    ensures Splits([b])
  {
    hide Splits;
    EmptyIsWellFormed();
    SplitsByNextUnit([b]);
    assert [b][1..] == [];
  }
}
