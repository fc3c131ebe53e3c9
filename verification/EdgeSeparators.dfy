/**
Trimming of the separators a removed token leaves at either edge of the query
(markTechnicalEdgeSeparators in internal/torznab/query.go). The leading run is the longest prefix of
removed text, white space and separators; its separators go when a technical token stands somewhere
in the run, except the innermost one when its spacing ties it to the title. The trailing run mirrors it.
*/
module EdgeSeparators {
  import opened Runes
  import opened TechnicalPairs

  /** A position a run at either edge may cover. */
  predicate Passes(value: string, m: Marks, p: nat)
    requires |m| == |value| && p < |value|
  {
    m[p] || IsSpace(value[p]) || IsTokenSeparator(value[p])
  }

  predicate Loose(value: string, m: Marks, p: nat)
    requires |m| == |value| && p < |value|
  {
    !m[p] && !IsSpace(value[p]) && IsTokenSeparator(value[p])
  }

  ghost predicate LeadingRun(value: string, m: Marks, end: nat)
    requires |m| == |value|
  {
    && end <= |value|
    && (forall p :: 0 <= p < end ==> Passes(value, m, p))
    && (end < |value| ==> !Passes(value, m, end))
  }

  ghost predicate TrailingRun(value: string, m: Marks, start: nat)
    requires |m| == |value|
  {
    && start <= |value|
    && (forall p :: start <= p < |value| ==> Passes(value, m, p))
    && (start > 0 ==> !Passes(value, m, start - 1))
  }

  ghost predicate HoldsToken(m: Marks, technical: Marks, lo: nat, hi: nat)
    requires |m| == |technical|
  {
    exists p :: lo <= p < hi <= |m| && m[p] && technical[p]
  }

  predicate LeadingBelongsToTitle(value: string, p: nat)
    requires p < |value|
  {
    && p != 0 && p + 1 != |value|
    && IsSpace(value[p - 1]) && !IsSpace(value[p + 1])
  }

  predicate TrailingBelongsToTitle(value: string, p: nat)
    requires p < |value|
  {
    && p != 0 && p + 1 != |value|
    && !IsSpace(value[p - 1]) && IsSpace(value[p + 1])
  }

  /** The leading separators that go: all of them, or all but the innermost. */
  ghost predicate TrimmedInFront(value: string, m: Marks, technical: Marks, end: nat, p: nat)
    requires |m| == |value| == |technical| && end <= |value|
  {
    && p < end && Loose(value, m, p)
    && HoldsToken(m, technical, 0, end)
    && !(LeadingBelongsToTitle(value, p) && forall q :: p < q < end ==> !Loose(value, m, q))
  }

  ghost predicate TrimmedBehind(value: string, m: Marks, technical: Marks, start: nat, p: nat)
    requires |m| == |value| == |technical|
  {
    && start <= p < |value| && Loose(value, m, p)
    && HoldsToken(m, technical, start, |value|)
    && !(TrailingBelongsToTitle(value, p) && forall q :: start <= q < p ==> !Loose(value, m, q))
  }

  lemma RunsAreUnique(value: string, m: Marks)
    requires |m| == |value|
    ensures forall e, f :: LeadingRun(value, m, e) && LeadingRun(value, m, f) ==> e == f
    ensures forall e, f :: TrailingRun(value, m, e) && TrailingRun(value, m, f) ==> e == f
  {
  }

  /** The separators the scan collected, nearest to the edge first. */
  ghost predicate Collected(value: string, m: Marks, lo: nat, hi: nat, found: seq<nat>)
    requires |m| == |value| && hi <= |value|
  {
    && (forall k :: 0 <= k < |found| ==> lo <= found[k] < hi && Loose(value, m, found[k]))
    && (forall p :: lo <= p < hi && Loose(value, m, p) ==> p in found)
  }

  method LeadingScan(value: string, remove: array<bool>, technical: array<bool>)
    returns (separators: seq<nat>, sawTechnical: bool, ghost end: nat)
    requires remove.Length == technical.Length == |value|
    ensures LeadingRun(value, remove[..], end) && sawTechnical == HoldsToken(remove[..], technical[..], 0, end)
    ensures Collected(value, remove[..], 0, end, separators)
    ensures forall k, l :: 0 <= k < l < |separators| ==> separators[k] < separators[l]
  {
    separators, sawTechnical := [], false;
    var index := 0;
    ghost var m, t := remove[..], technical[..];
    while index < |value|
      invariant 0 <= index <= |value|
      invariant forall p :: 0 <= p < index ==> Passes(value, m, p)
      invariant sawTechnical == HoldsToken(m, t, 0, index)
      invariant Collected(value, m, 0, index, separators)
      invariant forall k, l :: 0 <= k < l < |separators| ==> separators[k] < separators[l]
    {
      assert m[index] && t[index] ==> HoldsToken(m, t, 0, index + 1);
      if remove[index] {
        sawTechnical := sawTechnical || technical[index];
      } else if IsSpace(value[index]) {
      } else if IsTokenSeparator(value[index]) {
        separators := separators + [index];
      } else {
        break;
      }
      index := index + 1;
    }
    end := index;
  }

  method TrailingScan(value: string, remove: array<bool>, technical: array<bool>)
    returns (separators: seq<nat>, sawTechnical: bool, ghost start: nat)
    requires remove.Length == technical.Length == |value|
    ensures TrailingRun(value, remove[..], start)
    ensures sawTechnical == HoldsToken(remove[..], technical[..], start, |value|)
    ensures Collected(value, remove[..], start, |value|, separators)
    ensures forall k, l :: 0 <= k < l < |separators| ==> separators[k] > separators[l]
  {
    separators, sawTechnical := [], false;
    var index := |value|;
    ghost var m, t := remove[..], technical[..];
    while index > 0
      invariant 0 <= index <= |value|
      invariant forall p :: index <= p < |value| ==> Passes(value, m, p)
      invariant sawTechnical == HoldsToken(m, t, index, |value|)
      invariant Collected(value, m, index, |value|, separators)
      invariant forall k, l :: 0 <= k < l < |separators| ==> separators[k] > separators[l]
    {
      assert m[index - 1] && t[index - 1] ==> HoldsToken(m, t, index - 1, |value|);
      if remove[index - 1] {
        sawTechnical := sawTechnical || technical[index - 1];
      } else if IsSpace(value[index - 1]) {
      } else if IsTokenSeparator(value[index - 1]) {
        separators := separators + [index - 1];
      } else {
        break;
      }
      index := index - 1;
    }
    start := index;
  }

  ghost predicate Chosen(separators: seq<nat>, spareLast: bool, p: nat) {
    exists k :: 0 <= k < |separators| && separators[k] == p && !(spareLast && k == |separators| - 1)
  }

  /** Remove the collected separators, sparing the innermost one when it belongs to the title. */
  method Trim(remove: array<bool>, separators: seq<nat>, spareLast: bool)
    requires forall k :: 0 <= k < |separators| ==> separators[k] < remove.Length
    modifies remove
    ensures forall p :: 0 <= p < remove.Length ==>
              (remove[p] <==> old(remove[p]) || Chosen(separators, spareLast, p))
  {
    ghost var m := remove[..];
    for k := 0 to |separators|
      invariant forall p :: 0 <= p < remove.Length ==>
                  (remove[p] <==> m[p] || exists j :: 0 <= j < k && separators[j] == p
                                                  && !(spareLast && j == |separators| - 1))
    {
      if k == |separators| - 1 && spareLast {
        continue;
      }
      ghost var before := remove[..];
      var _ := MarkBytes(remove, separators[k], separators[k] + 1);
      assert forall p :: 0 <= p < remove.Length ==> remove[p] == remove[..][p] && before[p] == before[..][p];
    }
  }

  lemma CollectedInside(value: string, m: Marks, lo: nat, hi: nat, found: seq<nat>)
    requires |m| == |value| && hi <= |value| && Collected(value, m, lo, hi, found)
    ensures forall k :: 0 <= k < |found| ==> found[k] < |value|
  {
  }

  lemma NothingTrimmed(value: string, m: Marks, t: Marks, edge: nat)
    requires |m| == |value| == |t| && (LeadingRun(value, m, edge) || TrailingRun(value, m, edge))
    ensures edge <= |value|
    ensures !HoldsToken(m, t, 0, edge) ==> forall p: nat :: !TrimmedInFront(value, m, t, edge, p)
    ensures !HoldsToken(m, t, edge, |value|) ==> forall p: nat :: !TrimmedBehind(value, m, t, edge, p)
  {
  }

  lemma ChosenInFront(value: string, m: Marks, t: Marks, end: nat, found: seq<nat>, p: nat)
    requires |m| == |value| == |t| && end <= |value| && Collected(value, m, 0, end, found)
    requires forall k, l :: 0 <= k < l < |found| ==> found[k] < found[l]
    requires HoldsToken(m, t, 0, end)
    ensures TrimmedInFront(value, m, t, end, p)
       <==> Chosen(found, found != [] && LeadingBelongsToTitle(value, found[|found| - 1]), p)
  {
    if p in found {
      var k :| 0 <= k < |found| && found[k] == p;
      if k < |found| - 1 {
        assert Loose(value, m, found[k + 1]);
      }
    }
  }

  lemma ChosenBehind(value: string, m: Marks, t: Marks, start: nat, found: seq<nat>, p: nat)
    requires |m| == |value| == |t| && start <= |value| && Collected(value, m, start, |value|, found)
    requires forall k, l :: 0 <= k < l < |found| ==> found[k] > found[l]
    requires HoldsToken(m, t, start, |value|)
    ensures TrimmedBehind(value, m, t, start, p)
       <==> Chosen(found, found != [] && TrailingBelongsToTitle(value, found[|found| - 1]), p)
  {
    if p in found {
      var k :| 0 <= k < |found| && found[k] == p;
      if k < |found| - 1 {
        assert Loose(value, m, found[k + 1]);
      }
    }
  }

  /** markTechnicalEdgeSeparators: the marks afterwards, position by position. */
  method MarkTechnicalEdgeSeparators(value: string, remove: array<bool>, technical: array<bool>)
    returns (ghost end: nat, ghost middle: Marks, ghost start: nat)
    requires remove != technical && remove.Length == technical.Length == |value|
    modifies remove
    ensures LeadingRun(value, old(remove[..]), end) && |middle| == |value|
    ensures forall p :: 0 <= p < |value| ==>
              (middle[p] <==> old(remove[p]) || TrimmedInFront(value, old(remove[..]), technical[..], end, p))
    ensures TrailingRun(value, middle, start)
    ensures forall p :: 0 <= p < |value| ==>
              (remove[p] <==> middle[p] || TrimmedBehind(value, middle, technical[..], start, p))
  {
    hide LeadingRun, TrailingRun, HoldsToken, Collected, Chosen, TrimmedInFront, TrimmedBehind;
    ghost var m, t := remove[..], technical[..];
    var leading, sawTechnical;
    leading, sawTechnical, end := LeadingScan(value, remove, technical);
    NothingTrimmed(value, m, t, end);
    if sawTechnical {
      var spare := leading != [] && LeadingBelongsToTitle(value, leading[|leading| - 1]);
      CollectedInside(value, m, 0, end, leading);
      forall p: nat ensures TrimmedInFront(value, m, t, end, p) <==> Chosen(leading, spare, p) {
        ChosenInFront(value, m, t, end, leading, p);
      }
      Trim(remove, leading, spare);
    }
    middle := remove[..];
    var trailing;
    trailing, sawTechnical, start := TrailingScan(value, remove, technical);
    NothingTrimmed(value, middle, t, start);
    if sawTechnical {
      var spare := trailing != [] && TrailingBelongsToTitle(value, trailing[|trailing| - 1]);
      CollectedInside(value, middle, start, |value|, trailing);
      forall p: nat ensures TrimmedBehind(value, middle, t, start, p) <==> Chosen(trailing, spare, p) {
        ChosenBehind(value, middle, t, start, trailing, p);
      }
      Trim(remove, trailing, spare);
    }
  }
}
