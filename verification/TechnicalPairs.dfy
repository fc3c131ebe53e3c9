/**
Removal of bracket pairs that a removed token left empty (internal/torznab/query.go). The slow
algorithm looks for any pair of matching brackets around nothing but white space and removed text,
at least some of it removed, removes that pair, and starts over until no such pair is left. The
repository does it in one pass with a stack. The two are proved to remove the same text, whatever
pair the slow algorithm happens to find first, on balanced, unbalanced and mismatched brackets alike.
*/
module TechnicalPairs {
  import opened Common
  import opened Runes

  type Marks = seq<bool>

  // ---------- the slow algorithm ----------

  ghost predicate Blank(value: string, m: Marks, lo: int, hi: int)
    requires |m| == |value|
  {
    forall p :: 0 <= lo <= p < hi <= |m| ==> m[p] || IsSpace(value[p])
  }

  ghost predicate SomeMarked(m: Marks, lo: int, hi: int) {
    exists p :: 0 <= lo <= p < hi <= |m| && m[p]
  }

  /** Brackets i and j match, are not removed, and hold only blanks and removed text, some of it removed. */
  ghost predicate Emptied(value: string, m: Marks, i: int, j: int)
    requires |m| == |value|
  {
    && 0 <= i < j < |value|
    && TechnicalPairClose(value[i]) == Some(value[j])
    && !m[i] && !m[j]
    && Blank(value, m, i + 1, j)
    && SomeMarked(m, i + 1, j)
  }

  ghost predicate Settled(value: string, m: Marks)
    requires |m| == |value|
  {
    forall i, j :: !Emptied(value, m, i, j)
  }

  function MarkRange(m: Marks, start: int, end: int): (r: Marks)
    ensures |r| == |m|
  {
    seq(|m|, p requires 0 <= p < |m| => m[p] || start <= p < end)
  }

  function MarkAll(m: Marks, pairs: seq<(int, int)>): (r: Marks)
    ensures |r| == |m|
    decreases |pairs|
  {
    if pairs == [] then m else MarkAll(MarkRange(m, pairs[0].0, pairs[0].1 + 1), pairs[1..])
  }

  /** The pairs are a possible course of the slow algorithm from m: each is emptied when its turn comes. */
  ghost predicate IsSweep(value: string, m: Marks, pairs: seq<(int, int)>)
    requires |m| == |value|
    decreases |pairs|
  {
    pairs != [] ==>
      && Emptied(value, m, pairs[0].0, pairs[0].1)
      && IsSweep(value, MarkRange(m, pairs[0].0, pairs[0].1 + 1), pairs[1..])
  }

  ghost function Unmarked(m: Marks): set<int> {
    set p | 0 <= p < |m| && !m[p]
  }

  lemma RemovalShrinks(value: string, m: Marks, i: int, j: int)
    requires |m| == |value| && Emptied(value, m, i, j)
    ensures Unmarked(MarkRange(m, i, j + 1)) < Unmarked(m)
  {
    assert i in Unmarked(m) && i !in Unmarked(MarkRange(m, i, j + 1));
  }

  lemma SweepPrepend(value: string, m: Marks, i: int, j: int, rest: seq<(int, int)>)
    requires |m| == |value| && Emptied(value, m, i, j) && IsSweep(value, MarkRange(m, i, j + 1), rest)
    ensures IsSweep(value, m, [(i, j)] + rest)
    ensures MarkAll(m, [(i, j)] + rest) == MarkAll(MarkRange(m, i, j + 1), rest)
  {
    hide Emptied, MarkRange;
    assert ([(i, j)] + rest)[1..] == rest;
  }

  /** One full course of the slow algorithm. */
  ghost function Sweep(value: string, m: Marks): (pairs: seq<(int, int)>)
    requires |m| == |value|
    ensures IsSweep(value, m, pairs) && Settled(value, MarkAll(m, pairs))
    decreases Unmarked(m)
  {
    hide MarkRange;
    if Settled(value, m) then []
    else
      var i, j :| Emptied(value, m, i, j);
      RemovalShrinks(value, m, i, j);
      var rest := Sweep(value, MarkRange(m, i, j + 1));
      SweepPrepend(value, m, i, j, rest);
      [(i, j)] + rest
  }

  /** What the slow algorithm removes in the end. */
  ghost function SlowMarks(value: string, m: Marks): Marks
    requires |m| == |value|
  {
    MarkAll(m, Sweep(value, m))
  }

  // ---------- the slow algorithm has one outcome ----------

  /** Two emptied pairs share no text, so removing one neither destroys the other nor matters for its result. */
  lemma EmptiedPairsAreIndependent(value: string, m: Marks, i: int, j: int, a: int, b: int)
    requires |m| == |value| && Emptied(value, m, i, j) && Emptied(value, m, a, b) && (i, j) != (a, b)
    ensures Emptied(value, MarkRange(m, i, j + 1), a, b)
    ensures MarkRange(MarkRange(m, i, j + 1), a, b + 1) == MarkRange(MarkRange(m, a, b + 1), i, j + 1)
  {
    var after := MarkRange(m, i, j + 1);
    assert !(i < a < j) && !(i < b < j) && !(a < i < b) && !(a < j < b);
    var p :| a + 1 <= p < b && m[p];
    assert after[p];
  }

  /** However the slow algorithm is run, it ends with the same removals. */
  lemma {:induction false} SweepsAgree(value: string, m: Marks, first: seq<(int, int)>, second: seq<(int, int)>)
    requires |m| == |value| && IsSweep(value, m, first) && IsSweep(value, m, second)
    requires Settled(value, MarkAll(m, first)) && Settled(value, MarkAll(m, second))
    ensures MarkAll(m, first) == MarkAll(m, second)
    decreases Unmarked(m)
  {
    hide Emptied, Unmarked, MarkRange;
    if first != [] && second != [] {
      var (i, j) := first[0];
      var (a, b) := second[0];
      var left, right := MarkRange(m, i, j + 1), MarkRange(m, a, b + 1);
      RemovalShrinks(value, m, i, j);
      RemovalShrinks(value, m, a, b);
      if (i, j) == (a, b) {
        SweepsAgree(value, left, first[1..], second[1..]);
      } else {
        EmptiedPairsAreIndependent(value, m, i, j, a, b);
        EmptiedPairsAreIndependent(value, m, a, b, i, j);
        var both := MarkRange(left, a, b + 1);
        var rest := Sweep(value, both);
        var afterLeft, afterRight := [(a, b)] + rest, [(i, j)] + rest;
        assert afterLeft[1..] == rest && afterRight[1..] == rest;
        SweepsAgree(value, left, first[1..], afterLeft);
        SweepsAgree(value, right, second[1..], afterRight);
      }
    }
  }

  // ---------- the stack machine ----------

  datatype Frame = Frame(open: int, close: char, hasTechnical: bool, hasVisible: bool)

  /** The text of frame d that no frame above it covers: from after its bracket to the next open one. */
  function RegionEnd(stack: seq<Frame>, d: int, index: int): int
    requires 0 <= d < |stack|
  {
    if d + 1 < |stack| then stack[d + 1].open else index
  }

  /** A frame knows whether its own text shows anything and whether anything in it was removed. */
  ghost predicate FrameKnows(value: string, m: Marks, stack: seq<Frame>, d: int, index: int)
    requires |m| == |value| && 0 <= d < |stack|
  {
    var f := stack[d];
    && 0 <= f.open < RegionEnd(stack, d, index) <= index <= |value|
    && !m[f.open] && TechnicalPairClose(value[f.open]) == Some(f.close)
    && f.hasVisible == !Blank(value, m, f.open + 1, RegionEnd(stack, d, index))
    && f.hasTechnical == SomeMarked(m, f.open + 1, RegionEnd(stack, d, index))
  }

  ghost predicate OnStack(stack: seq<Frame>, i: int) {
    exists d :: 0 <= d < |stack| && stack[d].open == i
  }

  /** An open bracket that left the stack is cut off for good by a closing bracket that stays. */
  ghost predicate CutOff(value: string, m: Marks, i: int, index: int)
    requires |m| == |value|
  {
    exists c :: 0 <= i < c < index <= |value| && !m[c] && IsCloser(value[c])
  }

  /** What the scan has established when it is about to read position index. */
  ghost predicate Scanned(value: string, m: Marks, stack: seq<Frame>, index: int) {
    && |m| == |value| && 0 <= index <= |value|
    && (forall d :: 0 <= d < |stack| ==> FrameKnows(value, m, stack, d, index))
    && (forall i :: 0 <= i < index && IsOpener(value[i]) && !m[i] && !OnStack(stack, i) ==> CutOff(value, m, i, index))
    && (forall i, j :: j < index ==> !Emptied(value, m, i, j))
  }

  function Last<T>(s: seq<T>): T
    requires s != []
  {
    s[|s| - 1]
  }

  function DropLast<T>(s: seq<T>): seq<T>
    requires s != []
  {
    s[..|s| - 1]
  }

  function WithTechnical(stack: seq<Frame>): seq<Frame> {
    if stack == [] then stack else DropLast(stack) + [Last(stack).(hasTechnical := true)]
  }

  function WithVisible(stack: seq<Frame>): seq<Frame> {
    if stack == [] then stack else DropLast(stack) + [Last(stack).(hasVisible := true)]
  }

  // ---------- what reading one rune does ----------

  /** Frames below the top do not see the rune being read. */
  lemma LowerFramesKeep(value: string, m: Marks, stack: seq<Frame>, top: Frame, index: int, d: int)
    requires |m| == |value| && 0 <= d < |stack| - 1 && top.open == Last(stack).open
    requires FrameKnows(value, m, stack, d, index) && index < |value|
    ensures FrameKnows(value, m, DropLast(stack) + [top], d, index + 1)
  {
    var after := DropLast(stack) + [top];
    assert after[d] == stack[d] && RegionEnd(after, d, index + 1) == RegionEnd(stack, d, index);
  }

  lemma StackKeepsOpens(stack: seq<Frame>, top: Frame)
    requires stack != [] && top.open == Last(stack).open
    ensures forall i :: OnStack(DropLast(stack) + [top], i) <==> OnStack(stack, i)
  {
    var after := DropLast(stack) + [top];
    forall i ensures OnStack(after, i) <==> OnStack(stack, i) {
      assert forall d :: 0 <= d < |stack| ==> after[d].open == stack[d].open;
    }
  }

  /** Only the bracket of the top frame has nothing to show between itself and the scan. */
  lemma BelowTheTopShows(value: string, m: Marks, stack: seq<Frame>, i: int, index: int)
    requires Scanned(value, m, stack, index) && 0 <= i < index && IsOpener(value[i]) && !m[i]
    requires stack == [] || Last(stack).open != i
    ensures !Blank(value, m, i + 1, index)
  {
    if OnStack(stack, i) {
      var d :| 0 <= d < |stack| && stack[d].open == i;
      assert FrameKnows(value, m, stack, d, index) && FrameKnows(value, m, stack, d + 1, index);
      assert !IsSpace(value[stack[d + 1].open]);
    } else {
      assert CutOff(value, m, i, index);
      var c :| 0 <= i < c < index <= |value| && !m[c] && IsCloser(value[c]);
      assert !IsSpace(value[c]);
    }
  }

  /** A bracket pair that ends here is emptied only if the top frame says so. */
  lemma OnlyTheTopCloses(value: string, m: Marks, stack: seq<Frame>, i: int, index: int)
    requires Scanned(value, m, stack, index) && index < |value|
    ensures Emptied(value, m, i, index) ==>
              && stack != [] && Last(stack).open == i && Last(stack).close == value[index]
              && Last(stack).hasTechnical && !Last(stack).hasVisible
  {
    if 0 <= i < index && IsOpener(value[i]) && !m[i] {
      if stack == [] || Last(stack).open != i {
        BelowTheTopShows(value, m, stack, i, index);
      } else {
        assert FrameKnows(value, m, stack, |stack| - 1, index);
      }
    }
  }

  lemma CutOffGrows(value: string, m: Marks, stack: seq<Frame>, index: int, i: int)
    requires Scanned(value, m, stack, index) && index < |value|
    requires 0 <= i < index && IsOpener(value[i]) && !m[i] && !OnStack(stack, i)
    ensures CutOff(value, m, i, index + 1)
  {
    var c :| 0 <= i < c < index <= |value| && !m[c] && IsCloser(value[c]);
    assert i < c < index + 1;
  }

  lemma ReadRemoved(value: string, m: Marks, stack: seq<Frame>, index: int)
    requires Scanned(value, m, stack, index) && index < |value| && m[index]
    ensures Scanned(value, m, WithTechnical(stack), index + 1)
  {
    var after := WithTechnical(stack);
    var upto := index + 1;
    forall d | 0 <= d < |after| ensures FrameKnows(value, m, after, d, upto) {
      assert FrameKnows(value, m, stack, d, index);
      if d < |stack| - 1 {
        LowerFramesKeep(value, m, stack, Last(after), index, d);
      }
    }
    if stack != [] { StackKeepsOpens(stack, Last(after)); }
    forall i | 0 <= i < index + 1 && IsOpener(value[i]) && !m[i] && !OnStack(after, i)
      ensures CutOff(value, m, i, index + 1)
    {
      CutOffGrows(value, m, stack, index, i);
    }
  }

  lemma ReadSpace(value: string, m: Marks, stack: seq<Frame>, index: int)
    requires Scanned(value, m, stack, index) && index < |value| && !m[index] && IsSpace(value[index])
    ensures Scanned(value, m, stack, index + 1)
  {
    var upto := index + 1;
    forall d | 0 <= d < |stack| ensures FrameKnows(value, m, stack, d, upto) {
      assert FrameKnows(value, m, stack, d, index);
      if d < |stack| - 1 {
        assert DropLast(stack) + [Last(stack)] == stack;
        LowerFramesKeep(value, m, stack, Last(stack), index, d);
      }
    }
    forall i | 0 <= i < index + 1 && IsOpener(value[i]) && !m[i] && !OnStack(stack, i)
      ensures CutOff(value, m, i, index + 1)
    {
      CutOffGrows(value, m, stack, index, i);
    }
  }

  lemma ReadOpener(value: string, m: Marks, stack: seq<Frame>, index: int)
    requires Scanned(value, m, stack, index) && index < |value| && !m[index] && IsOpener(value[index])
    ensures Scanned(value, m, stack + [Frame(index, TechnicalPairClose(value[index]).value, false, false)], index + 1)
  {
    var after := stack + [Frame(index, TechnicalPairClose(value[index]).value, false, false)];
    var upto := index + 1;
    forall d | 0 <= d < |after| ensures FrameKnows(value, m, after, d, upto) {
      if d < |stack| {
        assert FrameKnows(value, m, stack, d, index);
        assert RegionEnd(after, d, index + 1) == RegionEnd(stack, d, index);
      }
    }
    forall i | 0 <= i < index + 1 && IsOpener(value[i]) && !m[i] && !OnStack(after, i)
      ensures CutOff(value, m, i, index + 1)
    {
      assert after[|stack|].open == index;
      assert forall d :: 0 <= d < |stack| ==> after[d] == stack[d];
      CutOffGrows(value, m, stack, index, i);
    }
  }

  /** Any other rune, a closing bracket that does not match the top frame included. */
  lemma ReadVisible(value: string, m: Marks, stack: seq<Frame>, index: int)
    requires Scanned(value, m, stack, index) && index < |value| && !m[index]
    requires !IsSpace(value[index]) && !IsOpener(value[index])
    requires stack != [] ==> value[index] != Last(stack).close
    ensures Scanned(value, m, WithVisible(stack), index + 1)
  {
    var after := WithVisible(stack);
    var upto := index + 1;
    forall d | 0 <= d < |after| ensures FrameKnows(value, m, after, d, upto) {
      assert FrameKnows(value, m, stack, d, index);
      if d < |stack| - 1 {
        LowerFramesKeep(value, m, stack, Last(after), index, d);
      }
    }
    if stack != [] { StackKeepsOpens(stack, Last(after)); }
    forall i | 0 <= i < index + 1 && IsOpener(value[i]) && !m[i] && !OnStack(after, i)
      ensures CutOff(value, m, i, index + 1)
    {
      CutOffGrows(value, m, stack, index, i);
    }
    forall i, j | j < index + 1 ensures !Emptied(value, m, i, j) {
      OnlyTheTopCloses(value, m, stack, i, index);
    }
  }

  /** What popping the top frame tells the frame below when its brackets stay. */
  function Kept(stack: seq<Frame>): seq<Frame>
    requires stack != []
  {
    var current, rest := Last(stack), DropLast(stack);
    if rest == [] then rest
    else
      DropLast(rest)
      + [Last(rest).(hasVisible := true, hasTechnical := Last(rest).hasTechnical || current.hasTechnical)]
  }

  lemma PoppedOpens(stack: seq<Frame>, after: seq<Frame>)
    requires stack != [] && |after| == |stack| - 1
    requires forall d :: 0 <= d < |after| ==> after[d].open == stack[d].open
    ensures forall i :: OnStack(stack, i) <==> OnStack(after, i) || i == Last(stack).open
  {
    forall i ensures OnStack(stack, i) <==> OnStack(after, i) || i == Last(stack).open {
      if OnStack(after, i) {
        var d :| 0 <= d < |after| && after[d].open == i;
        assert stack[d].open == i;
      }
      if OnStack(stack, i) && i != Last(stack).open {
        var d :| 0 <= d < |stack| && stack[d].open == i;
        assert after[d].open == i;
      }
    }
  }

  lemma ReadCloserKept(value: string, m: Marks, stack: seq<Frame>, index: int)
    requires Scanned(value, m, stack, index) && index < |value| && !m[index]
    requires stack != [] && value[index] == Last(stack).close
    requires !(Last(stack).hasTechnical && !Last(stack).hasVisible)
    ensures Scanned(value, m, Kept(stack), index + 1)
  {
    var after, n := Kept(stack), |stack| - 1;
    assert FrameKnows(value, m, stack, n, index);
    PoppedOpens(stack, after);
    var upto := index + 1;
    forall d | 0 <= d < |after| ensures FrameKnows(value, m, after, d, upto) {
      assert FrameKnows(value, m, stack, d, index);
      if d < n - 1 {
        assert after[d] == stack[d] && RegionEnd(after, d, index + 1) == RegionEnd(stack, d, index);
      } else {
        var open := stack[n].open;
        assert RegionEnd(stack, d, index) == open && RegionEnd(after, d, index + 1) == index + 1;
        assert !IsSpace(value[open]) && !m[open];
        MarkedJoins(m, stack[d].open + 1, open, index);
      }
    }
    forall i | 0 <= i < index + 1 && IsOpener(value[i]) && !m[i] && !OnStack(after, i)
      ensures CutOff(value, m, i, index + 1)
    {
      if i == stack[n].open {
        assert i < index < index + 1 && IsCloser(value[index]);
      } else {
        CutOffGrows(value, m, stack, index, i);
      }
    }
    forall i, j | j < index + 1 ensures !Emptied(value, m, i, j) {
      OnlyTheTopCloses(value, m, stack, i, index);
    }
  }

  lemma MarkedJoins(m: Marks, lo: int, mid: int, hi: int)
    requires 0 <= lo <= mid < hi < |m| && !m[mid] && !m[hi]
    ensures SomeMarked(m, lo, hi + 1) == (SomeMarked(m, lo, mid) || SomeMarked(m, mid + 1, hi))
  {
    if SomeMarked(m, lo, hi + 1) {
      var p :| lo <= p < hi + 1 && m[p];
      assert p < mid || mid + 1 <= p < hi;
    }
    if SomeMarked(m, lo, mid) {
      var p :| lo <= p < mid && m[p];
      assert lo <= p < hi + 1;
    }
    if SomeMarked(m, mid + 1, hi) {
      var p :| mid + 1 <= p < hi && m[p];
      assert lo <= p < hi + 1;
    }
  }

  lemma FramesUnderEmptied(value: string, m: Marks, stack: seq<Frame>, index: int)
    requires Scanned(value, m, stack, index) && index < |value| && stack != []
    ensures var next, after := MarkRange(m, Last(stack).open, index + 1), WithTechnical(DropLast(stack));
            var upto := index + 1;
            forall d :: 0 <= d < |after| ==> FrameKnows(value, next, after, d, upto)
  {
    var n, upto := |stack| - 1, index + 1;
    assert FrameKnows(value, m, stack, n, index);
    var open := stack[n].open;
    var next := MarkRange(m, open, upto);
    var after := WithTechnical(DropLast(stack));
    forall d | 0 <= d < |after| ensures FrameKnows(value, next, after, d, upto) {
      assert FrameKnows(value, m, stack, d, index);
      var lo, end := stack[d].open + 1, RegionEnd(stack, d, index);
      assert end <= open by { OpensAscend(value, m, stack, d + 1, n, index); }
      MarksAgreeBelow(value, m, next, lo, end);
      if d < n - 1 {
        assert after[d] == stack[d] && RegionEnd(after, d, index + 1) == end;
      } else {
        assert next[index];
        assert Blank(value, next, lo, index + 1) == Blank(value, next, lo, end);
      }
    }
  }

  lemma ReadCloserEmptied(value: string, m: Marks, stack: seq<Frame>, index: int)
    requires Scanned(value, m, stack, index) && index < |value| && !m[index]
    requires stack != [] && value[index] == Last(stack).close
    requires Last(stack).hasTechnical && !Last(stack).hasVisible
    ensures Emptied(value, m, Last(stack).open, index)
    ensures Scanned(value, MarkRange(m, Last(stack).open, index + 1), WithTechnical(DropLast(stack)), index + 1)
  {
    var n := |stack| - 1;
    assert FrameKnows(value, m, stack, n, index);
    var open := stack[n].open;
    var next := MarkRange(m, open, index + 1);
    var after := WithTechnical(DropLast(stack));
    PoppedOpens(stack, after);
    FramesUnderEmptied(value, m, stack, index);
    forall i | 0 <= i < index + 1 && IsOpener(value[i]) && !next[i] && !OnStack(after, i)
      ensures CutOff(value, next, i, index + 1)
    {
      assert CutOff(value, m, i, index);
      var c :| 0 <= i < c < index <= |value| && !m[c] && IsCloser(value[c]);
      assert !(open < c < index) && !next[c];
    }
    forall i, j | j < index + 1 ensures !Emptied(value, next, i, j) {
      if 0 <= i < j < open {
        MarksAgreeBelow(value, m, next, i + 1, j);
        assert Emptied(value, next, i, j) == Emptied(value, m, i, j);
      }
    }
  }

  lemma MarksAgreeBelow(value: string, m: Marks, next: Marks, lo: int, hi: int)
    requires |m| == |next| == |value| && 0 <= lo && hi <= |m|
    requires forall p :: lo <= p < hi ==> m[p] == next[p]
    ensures Blank(value, m, lo, hi) == Blank(value, next, lo, hi)
    ensures SomeMarked(m, lo, hi) == SomeMarked(next, lo, hi)
  {
    if SomeMarked(m, lo, hi) {
      var p :| lo <= p < hi && m[p];
      assert next[p];
    }
    if SomeMarked(next, lo, hi) {
      var p :| lo <= p < hi && next[p];
      assert m[p];
    }
  }

  lemma {:induction false} OpensAscend(value: string, m: Marks, stack: seq<Frame>, d: int, e: int, index: int)
    requires |m| == |value| && 0 <= d <= e < |stack|
    requires forall k :: 0 <= k < |stack| ==> FrameKnows(value, m, stack, k, index)
    ensures stack[d].open <= stack[e].open
    decreases e - d
  {
    if d < e {
      assert FrameKnows(value, m, stack, d, index);
      OpensAscend(value, m, stack, d + 1, e, index);
    }
  }

  // ---------- the repository's loop ----------

  /** markBytes. */
  method MarkBytes(marked: array<bool>, start: nat, end: nat) returns (changed: bool)
    requires start <= end <= marked.Length
    modifies marked
    ensures marked[..] == MarkRange(old(marked[..]), start, end)
    ensures changed == (marked[..] != old(marked[..]))
  {
    changed := false;
    ghost var before := marked[..];
    for index := start to end
      invariant forall p :: 0 <= p < marked.Length ==> marked[p] == (before[p] || start <= p < index)
      invariant changed == exists p :: start <= p < index && !before[p]
    {
      if !marked[index] {
        marked[index] := true;
        changed := true;
      }
    }
    assert marked[..] == MarkRange(before, start, end);
    if changed {
      ghost var p :| start <= p < end && !before[p];
      assert marked[..][p];
    } else {
      assert marked[..] == before;
    }
  }

  lemma {:induction false} MarkAllAppend(m: Marks, pairs: seq<(int, int)>, i: int, j: int)
    ensures MarkAll(m, pairs + [(i, j)]) == MarkRange(MarkAll(m, pairs), i, j + 1)
    decreases |pairs|
  {
    if pairs == [] {
      assert (pairs + [(i, j)])[1..] == [];
    } else {
      assert (pairs + [(i, j)])[1..] == pairs[1..] + [(i, j)];
      MarkAllAppend(MarkRange(m, pairs[0].0, pairs[0].1 + 1), pairs[1..], i, j);
    }
  }

  lemma {:induction false} SweepAppend(value: string, m: Marks, pairs: seq<(int, int)>, i: int, j: int)
    requires |m| == |value| && IsSweep(value, m, pairs) && Emptied(value, MarkAll(m, pairs), i, j)
    ensures IsSweep(value, m, pairs + [(i, j)])
    decreases |pairs|
  {
    if pairs == [] {
      assert (pairs + [(i, j)])[1..] == [];
    } else {
      assert (pairs + [(i, j)])[1..] == pairs[1..] + [(i, j)];
      SweepAppend(value, MarkRange(m, pairs[0].0, pairs[0].1 + 1), pairs[1..], i, j);
    }
  }

  /**
  markEmptyTechnicalPairs: one pass over the query. It removes exactly what the slow algorithm
  removes; the pairs it removed, in order, are returned for the record.
  */
  method MarkEmptyTechnicalPairs(value: string, remove: array<bool>, technical: array<bool>)
    returns (ghost pairs: seq<(int, int)>)
    requires remove != technical && remove.Length == technical.Length == |value|
    modifies remove, technical
    ensures remove[..] == SlowMarks(value, old(remove[..]))
    ensures IsSweep(value, old(remove[..]), pairs)
    ensures remove[..] == MarkAll(old(remove[..]), pairs) && technical[..] == MarkAll(old(technical[..]), pairs)
  {
    hide SlowMarks, Settled, FrameKnows, OnStack, CutOff, Emptied, IsSweep;
    var stack: seq<Frame> := [];
    var index := 0;
    pairs := [];
    ghost var m, t := remove[..], technical[..];
    ScanStarts(value, m);
    while index < |value|
      invariant 0 <= index <= |value|
      invariant Scanned(value, remove[..], stack, index)
      invariant IsSweep(value, m, pairs)
      invariant remove[..] == MarkAll(m, pairs) && technical[..] == MarkAll(t, pairs)
    {
      var r := value[index];
      ghost var now := remove[..];
      if remove[index] {
        ReadRemoved(value, now, stack, index);
        if stack != [] {
          stack := stack[..|stack| - 1] + [stack[|stack| - 1].(hasTechnical := true)];
        }
      } else if IsSpace(r) {
        ReadSpace(value, now, stack, index);
      } else if TechnicalPairClose(r).Some? {
        ReadOpener(value, now, stack, index);
        stack := stack + [Frame(index, TechnicalPairClose(r).value, false, false)];
      } else if stack != [] && r == stack[|stack| - 1].close {
        var current := stack[|stack| - 1];
        ghost var whole := stack;
        stack := stack[..|stack| - 1];
        if current.hasTechnical && !current.hasVisible {
          ReadCloserEmptied(value, now, whole, index);
          SweepAppend(value, m, pairs, current.open, index);
          MarkAllAppend(m, pairs, current.open, index);
          MarkAllAppend(t, pairs, current.open, index);
          var _ := MarkBytes(remove, current.open, index + 1);
          var _ := MarkBytes(technical, current.open, index + 1);
          pairs := pairs + [(current.open, index)];
          if stack != [] {
            stack := stack[..|stack| - 1] + [stack[|stack| - 1].(hasTechnical := true)];
          }
        } else {
          ReadCloserKept(value, now, whole, index);
          if stack != [] {
            var parent := stack[|stack| - 1];
            stack := stack[..|stack| - 1]
              + [parent.(hasVisible := true, hasTechnical := parent.hasTechnical || current.hasTechnical)];
          }
        }
      } else {
        ReadVisible(value, now, stack, index);
        if stack != [] {
          stack := stack[..|stack| - 1] + [stack[|stack| - 1].(hasVisible := true)];
        }
      }
      index := index + 1;
    }
    ScanSettles(value, remove[..], stack);
    SweepIsSlow(value, m, pairs);
  }

  lemma ScanStarts(value: string, m: Marks)
    requires |m| == |value|
    ensures Scanned(value, m, [], 0) && IsSweep(value, m, [])
  {
  }

  lemma ScanSettles(value: string, m: Marks, stack: seq<Frame>)
    requires Scanned(value, m, stack, |value|)
    ensures Settled(value, m)
  {
  }

  lemma SweepIsSlow(value: string, m: Marks, pairs: seq<(int, int)>)
    requires |m| == |value| && IsSweep(value, m, pairs) && Settled(value, MarkAll(m, pairs))
    ensures MarkAll(m, pairs) == SlowMarks(value, m)
  {
    SweepsAgree(value, m, pairs, Sweep(value, m));
  }
}
