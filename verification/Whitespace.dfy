/**
White space in cleaned text: strings.TrimSpace, strings.Fields and the join of
collapseWhitespace, with what they keep and what they normalise.
*/
module Whitespace {
  import opened Runes
  import opened QueryTokens

  /** strings.TrimSpace. */
  function TrimSpace(s: string): string {
    var start := SpacesEnd(s, 0);
    if start == |s| then "" else s[start..SpacesStart(s, |s|)]
  }

  predicate EndsInWord(s: string) {
    s != "" && !IsSpace(s[|s| - 1])
  }

  /** strings.Fields: the maximal runs without white space. */
  function Fields(s: string): (words: seq<string>)
    ensures forall k :: 0 <= k < |words| ==> words[k] != ""
    ensures EndsInWord(s) ==> words != []
  {
    if s == "" then []
    else
      var rest, r := s[..|s| - 1], s[|s| - 1];
      var words := Fields(rest);
      if IsSpace(r) then words
      else if EndsInWord(rest) then words[..|words| - 1] + [words[|words| - 1] + [r]]
      else words + [[r]]
  }

  /** strings.Join(words, " "). */
  function Join(words: seq<string>): string {
    if words == [] then ""
    else if |words| == 1 then words[0]
    else Join(words[..|words| - 1]) + " " + words[|words| - 1]
  }

  function NonSpace(s: string): string {
    if s == "" then ""
    else NonSpace(s[..|s| - 1]) + if IsSpace(s[|s| - 1]) then "" else [s[|s| - 1]]
  }

  /** The letters and digits of a text, in order. */
  function TitleOf(s: string, u: Tables): string {
    if s == "" then ""
    else TitleOf(s[..|s| - 1], u) + if u.IsTitleRune(s[|s| - 1]) then [s[|s| - 1]] else ""
  }

  /** No white space at either end, none but ASCII spaces inside, and never two in a row. */
  ghost predicate Normal(s: string) {
    && (forall i :: 0 <= i < |s| && IsSpace(s[i]) ==> s[i] == ' ' && 0 < i < |s| - 1)
    && (forall i :: 0 < i < |s| && IsSpace(s[i]) ==> !IsSpace(s[i - 1]))
  }

  lemma {:induction false} NonSpaceConcat(a: string, b: string)
    ensures NonSpace(a + b) == NonSpace(a) + NonSpace(b)
  {
    if b == "" {
      assert a + b == a;
    } else {
      assert (a + b)[..|a + b| - 1] == a + b[..|b| - 1];
      NonSpaceConcat(a, b[..|b| - 1]);
    }
  }

  lemma {:induction false} JoinKeepsText(words: seq<string>)
    ensures NonSpace(Join(words)) == Texts(words)
  {
    if |words| == 1 {
      assert Texts(words[..0]) == "";
    } else if |words| > 1 {
      var rest, last := words[..|words| - 1], words[|words| - 1];
      JoinKeepsText(rest);
      NonSpaceConcat(Join(rest) + " ", last);
      NonSpaceConcat(Join(rest), " ");
      assert " "[..0] == "";
      assert NonSpace(" ") == "";
    }
  }

  function Texts(words: seq<string>): string {
    if words == [] then "" else Texts(words[..|words| - 1]) + NonSpace(words[|words| - 1])
  }

  lemma TextsExtend(words: seq<string>, r: char)
    requires !IsSpace(r)
    ensures Texts(words + [[r]]) == Texts(words) + [r]
    ensures words != [] ==>
              Texts(words[..|words| - 1] + [words[|words| - 1] + [r]]) == Texts(words) + [r]
  {
    assert [r][..0] == "" && NonSpace([r]) == [r];
    assert (words + [[r]])[..|words|] == words;
    if words != [] {
      var front, last := words[..|words| - 1], words[|words| - 1];
      NonSpaceConcat(last, [r]);
      assert (front + [last + [r]])[..|front|] == front;
      assert Texts(front) + (NonSpace(last) + [r]) == Texts(words) + [r];
    }
  }

  lemma {:induction false} FieldsKeepText(s: string)
    ensures Texts(Fields(s)) == NonSpace(s)
  {
    if s != "" {
      var rest, r := s[..|s| - 1], s[|s| - 1];
      FieldsKeepText(rest);
      if IsSpace(r) {
        assert NonSpace(s) == NonSpace(rest);
      } else {
        TextsExtend(Fields(rest), r);
      }
    }
  }

  lemma {:induction false} FieldsAreWords(s: string)
    ensures forall k :: 0 <= k < |Fields(s)| ==> SpaceFree(Fields(s)[k])
  {
    if s != "" {
      var rest, r := s[..|s| - 1], s[|s| - 1];
      FieldsAreWords(rest);
      var words := Fields(rest);
      forall k | 0 <= k < |Fields(s)| ensures SpaceFree(Fields(s)[k]) {
        assert k < |words| ==> SpaceFree(words[k]);
      }
    }
  }

  predicate SpaceFree(s: string) {
    forall i :: 0 <= i < |s| ==> !IsSpace(s[i])
  }

  /** Collapsing white space loses no other rune and leaves single ASCII spaces between words only. */
  lemma CollapseKeepsText(s: string)
    ensures NonSpace(Join(Fields(s))) == NonSpace(s)
    ensures Normal(Join(Fields(s)))
  {
    FieldsKeepText(s);
    FieldsAreWords(s);
    JoinKeepsText(Fields(s));
    JoinIsNormal(Fields(s));
  }

  lemma {:induction false} JoinIsNormal(words: seq<string>)
    requires forall k :: 0 <= k < |words| ==> words[k] != "" && SpaceFree(words[k])
    ensures Normal(Join(words)) && (words != [] ==> EndsInWord(Join(words)) && !IsSpace(Join(words)[0]))
  {
    if |words| == 1 {
      assert SpaceFree(words[0]);
    } else if |words| > 1 {
      var rest, last := words[..|words| - 1], words[|words| - 1];
      JoinIsNormal(rest);
      var front := Join(rest);
      var all := front + " " + last;
      assert forall j :: |front| < j < |all| ==> all[j] == last[j - |front| - 1];
      assert SpaceFree(last);
      forall i | 0 <= i < |all| && IsSpace(all[i])
        ensures all[i] == ' ' && 0 < i < |all| - 1 && !IsSpace(all[i - 1])
      {
        if i < |front| {
          assert all[i] == front[i] && all[i - 1] == front[i - 1];
        }
      }
    }
  }

  lemma {:induction false} TitleIsNonSpace(s: string, u: Tables)
    requires u.Sane()
    ensures TitleOf(NonSpace(s), u) == TitleOf(s, u)
  {
    if s != "" {
      var rest, r := s[..|s| - 1], s[|s| - 1];
      TitleIsNonSpace(rest, u);
      if IsSpace(r) {
        assert !u.IsTitleRune(r) && NonSpace(s) == NonSpace(rest);
      } else {
        assert NonSpace(s)[..|NonSpace(s)| - 1] == NonSpace(rest);
      }
    }
  }

  // ---------- word boundaries ----------

  /** A rune of a text, and whether white space sets it apart from the rune before it. */
  datatype Stroke = Stroke(rune: char, apart: bool)

  /** What of a text is not white space, with the word boundaries. */
  function Ink(s: string): seq<Stroke> {
    if s == "" then []
    else
      var front, r := s[..|s| - 1], s[|s| - 1];
      if IsSpace(r) then Ink(front) else Ink(front) + [Stroke(r, Ink(front) != [] && !EndsInWord(front))]
  }

  lemma InkPush(s: string, r: char)
    ensures Ink(s + [r]) ==
              if IsSpace(r) then Ink(s) else Ink(s) + [Stroke(r, Ink(s) != [] && !EndsInWord(s))]
  {
    assert (s + [r])[..|s|] == s;
  }

  lemma FieldsPush(s: string, r: char)
    ensures Fields(s + [r]) ==
              if IsSpace(r) then Fields(s)
              else if EndsInWord(s) then Fields(s)[..|Fields(s)| - 1] + [Fields(s)[|Fields(s)| - 1] + [r]]
              else Fields(s) + [[r]]
  {
    assert (s + [r])[..|s|] == s;
  }

  lemma JoinExtend(front: seq<string>, last: string, r: char)
    ensures Join(front + [last + [r]]) == Join(front + [last]) + [r]
  {
    hide Join;
    JoinAppend(front, last);
    JoinAppend(front, last + [r]);
    if front != [] {
      var joined := Join(front) + " ";
      assert joined + (last + [r]) == joined + last + [r];
    }
  }

  lemma JoinAppend(words: seq<string>, word: string)
    ensures Join(words + [word]) == if words == [] then word else Join(words) + " " + word
  {
    assert (words + [word])[..|words|] == words;
  }

  /**
  Collapsing keeps the words: every rune that is not white space stays, in order, and stands apart from the one
  before it in the collapsed text exactly if it did so in the text.
  */
  lemma {:induction false} CollapseKeepsWords(s: string)
    ensures Ink(Join(Fields(s))) == Ink(s)
    ensures Fields(s) == [] <==> Ink(s) == []
  {
    if s != "" {
      var rest, r := s[..|s| - 1], s[|s| - 1];
      assert s == rest + [r];
      CollapseKeepsWords(rest);
      InkPush(rest, r);
      if !IsSpace(r) {
        WordPush(rest, r);
      }
    }
  }

  /** One more rune that is not white space: it extends the last word or starts a new one. */
  lemma WordPush(rest: string, r: char)
    requires !IsSpace(r) && Ink(Join(Fields(rest))) == Ink(rest) && (Fields(rest) == [] <==> Ink(rest) == [])
    ensures Ink(Join(Fields(rest + [r]))) == Ink(rest + [r]) && Fields(rest + [r]) != []
  {
    hide Ink, Join, Fields;
    var words := Fields(rest);
    FieldsPush(rest, r);
    FieldsAreWords(rest);
    JoinIsNormal(words);
    InkPush(rest, r);
    InkPush(Join(words), r);
    if EndsInWord(rest) {
      var front, last := words[..|words| - 1], words[|words| - 1];
      assert words == front + [last];
      JoinExtend(front, last, r);
    } else {
      JoinAppend(words, [r]);
      InkPush(Join(words), ' ');
      InkPush(Join(words) + " ", r);
      OneStroke(r);
    }
  }

  lemma OneStroke(r: char)
    requires !IsSpace(r)
    ensures Ink([r]) == [Stroke(r, false)]
  {
    assert [r][..0] == "";
  }

  lemma {:induction false} AppendWord(front: string, word: string)
    requires !EndsInWord(front) && word != "" && SpaceFree(word)
    ensures Fields(front + word) == Fields(front) + [word]
    decreases |word|
  {
    hide Fields;
    var most, r := word[..|word| - 1], word[|word| - 1];
    assert front + word == front + most + [r];
    FieldsPush(front + most, r);
    if most == "" {
      assert front + most == front && word == [r];
    } else {
      AppendWord(front, most);
      assert most[|most| - 1] == word[|word| - 2] && EndsInWord(front + most);
      assert Fields(front + most)[..|Fields(front)|] == Fields(front) && most + [r] == word;
    }
  }

  /** Joined words are the fields of the joined text. */
  lemma {:induction false} FieldsOfJoin(words: seq<string>)
    requires forall k :: 0 <= k < |words| ==> words[k] != "" && SpaceFree(words[k])
    ensures Fields(Join(words)) == words
  {
    if words != [] {
      var front, last := words[..|words| - 1], words[|words| - 1];
      FieldsOfJoin(front);
      assert words == front + [last];
      if front == [] {
        AppendWord("", last);
        assert "" + last == last;
      } else {
        assert (Join(front) + " ")[..|Join(front)|] == Join(front);
        AppendWord(Join(front) + " ", last);
      }
    }
  }

  // ---------- strings.TrimSpace ----------

  ghost predicate Blank(s: string) {
    forall i :: 0 <= i < |s| ==> IsSpace(s[i])
  }

  /** TrimSpace takes white space off both ends and nothing else, and leaves none there. */
  lemma TrimsExactly(s: string)
    ensures TrimSpace(s) != "" ==> !IsSpace(TrimSpace(s)[0]) && EndsInWord(TrimSpace(s))
    ensures exists front, back :: Blank(front) && Blank(back) && s == front + TrimSpace(s) + back
  {
    hide SpacesEnd, SpacesStart;
    var start, end := SpacesEnd(s, 0), SpacesStart(s, |s|);
    if start == |s| {
      Apart(s, "", "");
    } else {
      assert start < end;
      Apart(s[..start], TrimSpace(s), s[end..]);
      assert s == s[..start] + s[start..end] + s[end..];
    }
  }

  lemma Apart(front: string, middle: string, back: string)
    requires Blank(front) && Blank(back)
    ensures exists a, b :: Blank(a) && Blank(b) && front + middle + back == a + middle + b
  {
  }

  /** Whatever white space surrounds a text without any at its ends, trimming gives that text. */
  lemma TrimGives(front: string, s: string, back: string)
    requires Blank(front) && Blank(back) && (s != "" ==> !IsSpace(s[0]) && EndsInWord(s))
    ensures TrimSpace(front + s + back) == s
  {
    hide SpacesEnd, SpacesStart;
    var text := front + s + back;
    var start, end := SpacesEnd(text, 0), SpacesStart(text, |text|);
    forall i | 0 <= i < |front| ensures IsSpace(text[i]) {
      assert text[i] == front[i];
    }
    forall i | |front| + |s| <= i < |text| ensures IsSpace(text[i]) {
      assert text[i] == back[i - |front| - |s|];
    }
    if s != "" {
      assert text[|front|] == s[0] && text[|front| + |s| - 1] == s[|s| - 1];
      assert start == |front| && end == |front| + |s|;
      assert text[start..end] == s;
    }
  }

  // ---------- strings.TrimSpace does not change the words ----------

  lemma {:induction false} FieldsDropFront(s: string)
    requires s != "" && IsSpace(s[0])
    ensures Fields(s[1..]) == Fields(s)
  {
    if |s| > 1 {
      var rest := s[..|s| - 1];
      assert s[1..][..|s| - 2] == rest[1..];
      FieldsDropFront(rest);
      assert |s| > 2 ==> rest[1..][|s| - 3] == rest[|s| - 2];
    } else {
      assert s[..0] == "";
    }
  }

  lemma {:induction false} FieldsDropSpaces(s: string, i: nat)
    requires i <= |s| && forall k :: 0 <= k < i ==> IsSpace(s[k])
    ensures Fields(s[i..]) == Fields(s)
    decreases i
  {
    if i == 0 {
      assert s[0..] == s;
    } else {
      FieldsDropFront(s);
      FieldsDropSpaces(s[1..], i - 1);
      assert s[1..][i - 1..] == s[i..];
    }
  }

  lemma {:induction false} FieldsDropTail(s: string, i: nat)
    requires i <= |s| && forall k :: i <= k < |s| ==> IsSpace(s[k])
    ensures Fields(s[..i]) == Fields(s)
    decreases |s| - i
  {
    if i == |s| {
      assert s[..i] == s;
    } else {
      FieldsDropTail(s[..|s| - 1], i);
      assert s[..|s| - 1][..i] == s[..i];
    }
  }

  lemma TrimKeepsFields(s: string)
    ensures Fields(TrimSpace(s)) == Fields(s)
  {
    var start := SpacesEnd(s, 0);
    FieldsDropSpaces(s, start);
    if start < |s| {
      var end := SpacesStart(s, |s|);
      assert start < end;
      FieldsDropTail(s[start..], end - start);
      assert s[start..][..end - start] == s[start..end];
    }
  }
}
