/** CMake's string(FIND) and string(REPLACE), and when replacing leaves no copy of what it replaces.

    A replacement can create new copies of the needle: across the edge of an inserted text, or, when
    the inserted text is empty, across the place where a needle was cut out. The lemmas here settle
    both cases for all texts. */
module TextRewrite {

  predicate At(s: string, needle: string, i: int) {
    0 <= i <= |s| - |needle| && s[i..i + |needle|] == needle
  }

  ghost predicate Contains(s: string, needle: string) { exists i :: At(s, needle, i) }

  /** string(FIND): the first position, or -1. */
  function Find(s: string, needle: string): (r: int)
    requires needle != []
    ensures r >= 0 ==> At(s, needle, r) && forall j :: 0 <= j < r ==> !At(s, needle, j)
    ensures r == -1 || r >= 0
    ensures r == -1 <==> !Contains(s, needle)
  {
    if needle <= s then
      assert At(s, needle, 0);
      0
    else if s == [] then -1
    else
      AtTail(s, needle);
      FindStep(s, needle);
      var r := Find(s[1..], needle);
      if r == -1 then -1 else r + 1
  }

  lemma FindStep(s: string, needle: string)
    requires s != [] && !(needle <= s)
    ensures !At(s, needle, 0)
    ensures Contains(s, needle) <==> Contains(s[1..], needle)
    ensures forall j :: 0 < j && At(s, needle, j) ==> At(s[1..], needle, j - 1)
  {
    AtTail(s, needle);
    forall j | 0 < j && At(s, needle, j) ensures At(s[1..], needle, j - 1) {
      assert At(s, needle, (j - 1) + 1);
    }
    if Contains(s, needle) {
      var j :| At(s, needle, j);
      assert At(s[1..], needle, j - 1);
    }
  }

  lemma AtTail(s: string, needle: string)
    requires s != []
    ensures forall i :: i >= 0 ==> (At(s[1..], needle, i) <==> At(s, needle, i + 1))
    ensures !Contains(s, needle) ==> !Contains(s[1..], needle)
  {
  }

  lemma PrefixStep(a: string, s: string)
    requires a != [] && s != []
    ensures a <= s <==> a[0] == s[0] && a[1..] <= s[1..]
  {
  }

  /** string(REPLACE): from left to right, each copy once, inserted text not looked at again. */
  function Replace(s: string, needle: string, ins: string): string
    requires needle != []
    decreases |s|
  {
    if needle <= s then ins + Replace(s[|needle|..], needle, ins)
    else if s == [] then []
    else [s[0]] + Replace(s[1..], needle, ins)
  }

  /** The number of copies that string(REPLACE) replaces. */
  function Count(s: string, needle: string): nat
    requires needle != []
    decreases |s|
  {
    if needle <= s then 1 + Count(s[|needle|..], needle)
    else if s == [] then 0
    else Count(s[1..], needle)
  }

  lemma OneMore(c: int, d: int)
    ensures (1 + c) * d == d + c * d
  {
  }

  lemma {:induction false} ReplaceLength(s: string, needle: string, ins: string)
    requires needle != []
    ensures |Replace(s, needle, ins)| == |s| + Count(s, needle) * (|ins| - |needle|)
    decreases |s|
  {
    if needle <= s {
      var c, d := Count(s[|needle|..], needle), |ins| - |needle|;
      ReplaceLength(s[|needle|..], needle, ins);
      OneMore(c, d);
    } else if s != [] {
      ReplaceLength(s[1..], needle, ins);
    }
  }

  lemma {:induction false} CountPositive(s: string, needle: string)
    requires needle != []
    ensures Count(s, needle) > 0 <==> Contains(s, needle)
    ensures !Contains(s, needle) ==> forall ins :: Replace(s, needle, ins) == s
  {
    if needle <= s {
      assert At(s, needle, 0);
    } else if s != [] {
      FindStep(s, needle);
      CountPositive(s[1..], needle);
    }
  }

  // ---------------------------------------------------------------- replacing by a text

  /** Four comparisons of characters that keep copies of one text from overlapping the other: the
      second character of each is foreign to the other, and neither ends as the other begins. */
  predicate Separated(a: string, b: string) {
    && |a| >= 2 && |b| >= 2
    && a[1] !in b && b[1] !in a
    && a[0] != b[|b| - 1] && b[0] != a[|a| - 1]
  }

  /** No end of the needle stands at the start of the inserted text. */
  lemma ForeignStart(needle: string, ins: string, k: nat, rest: string)
    requires Separated(needle, ins) && 1 <= k < |needle|
    ensures !(needle[k..] <= ins + rest)
  {
    assert needle[k..][0] == needle[k] && (ins + rest)[0] == ins[0] && (ins + rest)[1] == ins[1];
    if k + 1 < |needle| {
      assert needle[k..][1] == needle[k + 1] && needle[k + 1] in needle;
    }
  }

  /** An end of the needle at the start of the output was there in the input. */
  lemma {:induction false} EndSurvives(s: string, needle: string, ins: string, k: nat)
    requires Separated(needle, ins) && 1 <= k <= |needle|
    requires needle[k..] <= Replace(s, needle, ins)
    ensures needle[k..] <= s
    decreases |s|
  {
    if k < |needle| {
      forall rest ensures !(needle[k..] <= ins + rest) { ForeignStart(needle, ins, k, rest); }
      assert !(needle <= s);
      PrefixStep(needle[k..], Replace(s, needle, ins));
      assert needle[k..][1..] == needle[k + 1..];
      EndSurvives(s[1..], needle, ins, k + 1);
      PrefixStep(needle[k..], s);
    }
  }

  /** No needle starts inside the inserted text. */
  lemma NotInside(needle: string, ins: string, rest: string, i: nat)
    requires Separated(needle, ins) && i < |ins|
    ensures !At(ins + rest, needle, i)
  {
  }

  lemma AtRight(a: string, b: string, needle: string, i: int)
    requires i >= |a|
    ensures At(a + b, needle, i) <==> At(b, needle, i - |a|)
  {
  }

  /** Replacing by a separated text leaves no needle. */
  lemma {:induction false} NoNeedleLeft(s: string, needle: string, ins: string)
    requires Separated(needle, ins)
    ensures !Contains(Replace(s, needle, ins), needle)
    decreases |s|
  {
    var out := Replace(s, needle, ins);
    if needle <= s {
      var rest := Replace(s[|needle|..], needle, ins);
      NoNeedleLeft(s[|needle|..], needle, ins);
      forall i ensures !At(out, needle, i) {
        if 0 <= i < |ins| {
          NotInside(needle, ins, rest, i);
        } else if i >= |ins| {
          AtRight(ins, rest, needle, i);
        }
      }
    } else if s != [] {
      NoNeedleLeft(s[1..], needle, ins);
      PrefixStep(needle, s);
      PrefixStep(needle, out);
      if needle[1..] <= out[1..] {
        EndSurvives(s[1..], needle, ins, 1);
      }
      assert !(needle <= out);
      FindStep(out, needle);
    }
  }

  /** If anything was replaced, a copy of the inserted text is there. */
  lemma {:induction false} InsertedIsThere(s: string, needle: string, ins: string)
    requires needle != [] && Contains(s, needle)
    ensures Contains(Replace(s, needle, ins), ins)
    decreases |s|
  {
    var out := Replace(s, needle, ins);
    if needle <= s {
      assert At(out, ins, 0);
    } else {
      FindStep(s, needle);
      InsertedIsThere(s[1..], needle, ins);
      AtTail(out, ins);
    }
  }

  /** The text overlaps itself nowhere. */
  predicate Unbordered(a: string) {
    |a| >= 2 && a[0] != a[|a| - 1] && forall k :: 0 <= k < |a| && k != 1 ==> a[k] != a[1]
  }

  /** No end of the inserted text stands at its start. */
  lemma NoSelfOverlap(ins: string, k: nat, rest: string)
    requires Unbordered(ins) && 1 <= k < |ins|
    ensures !(ins[k..] <= ins + rest)
  {
    assert ins[k..][0] == ins[k] && (ins + rest)[0] == ins[0] && (ins + rest)[1] == ins[1];
    if k + 1 < |ins| {
      assert ins[k..][1] == ins[k + 1];
    }
  }

  /** An end of the inserted text at the start of the output was there in the input. */
  lemma {:induction false} NoHalfInserted(s: string, needle: string, ins: string, k: nat)
    requires Separated(needle, ins) && Unbordered(ins) && 1 <= k <= |ins|
    requires ins[k..] <= Replace(s, needle, ins)
    ensures ins[k..] <= s
    decreases |s|
  {
    if k < |ins| {
      forall rest ensures !(ins[k..] <= ins + rest) { NoSelfOverlap(ins, k, rest); }
      assert !(needle <= s);
      PrefixStep(ins[k..], Replace(s, needle, ins));
      assert ins[k..][1..] == ins[k + 1..];
      NoHalfInserted(s[1..], needle, ins, k + 1);
      PrefixStep(ins[k..], s);
    }
  }

  lemma RestAvoids(front: string, rest: string, needle: string)
    requires !Contains(front + rest, needle)
    ensures !Contains(rest, needle)
  {
    forall i | i >= 0 ensures !At(rest, needle, i) { AtRight(front, rest, needle, i + |front|); }
  }

  /** Nothing but the needles changed: putting them back gives the original text, if the inserted
      text was not in it. */
  lemma {:induction false} ReplaceBack(s: string, needle: string, ins: string)
    requires Separated(needle, ins) && Unbordered(ins)
    requires !Contains(s, ins)
    ensures Replace(Replace(s, needle, ins), ins, needle) == s
    decreases |s|
  {
    var out := Replace(s, needle, ins);
    if needle <= s {
      var rest := s[|needle|..];
      assert s == needle + rest;
      RestAvoids(needle, rest, ins);
      ReplaceBack(rest, needle, ins);
      assert out[|ins|..] == Replace(rest, needle, ins);
    } else if s != [] {
      AtTail(s, ins);
      ReplaceBack(s[1..], needle, ins);
      NotInserted(s, needle, ins);
      assert out == [s[0]] + Replace(s[1..], needle, ins) && out[1..] == Replace(s[1..], needle, ins);
    }
  }

  /** Where no needle stands, the inserted text does not appear either. */
  lemma NotInserted(s: string, needle: string, ins: string)
    requires Separated(needle, ins) && Unbordered(ins) && !Contains(s, ins) && s != [] && !(needle <= s)
    ensures !(ins <= Replace(s, needle, ins))
  {
    var out := Replace(s, needle, ins);
    PrefixStep(ins, s);
    PrefixStep(ins, out);
    if ins[1..] <= out[1..] {
      NoHalfInserted(s[1..], needle, ins, 1);
    }
    assert !At(s, ins, 0);
  }

  // ---------------------------------------------------------------- cutting out

  /** w spells the needle from its k-th character on, with whole needles spliced in between. */
  predicate Spliced(w: string, needle: string, k: nat)
    requires needle != [] && k <= |needle|
    decreases |w|
  {
    if w == [] then k == |needle|
    else if 0 < k < |needle| && needle <= w then Spliced(w[|needle|..], needle, k)
    else k < |needle| && w[0] == needle[k] && Spliced(w[1..], needle, k + 1)
  }

  /** A needle with at least one whole needle spliced into it. */
  predicate Interrupted(w: string, needle: string)
    requires needle != []
  {
    |w| > |needle| && Spliced(w, needle, 0)
  }

  ghost predicate HasInterrupted(s: string, needle: string)
    requires needle != []
  {
    exists p, q :: 0 <= p <= q <= |s| && Interrupted(s[p..q], needle)
  }

  lemma {:induction false} SplicedLength(w: string, needle: string, k: nat)
    requires needle != [] && k <= |needle| && Spliced(w, needle, k)
    ensures |w| >= |needle| - k
    ensures |w| == |needle| - k ==> w == needle[k..]
    ensures |w| < |needle| ==> w == needle[k..]
    decreases |w|
  {
    if w == [] {
    } else if 0 < k < |needle| && needle <= w {
      SplicedLength(w[|needle|..], needle, k);
    } else {
      SplicedLength(w[1..], needle, k + 1);
      assert w == [w[0]] + w[1..];
      if |w| == |needle| && k == 0 {
        assert needle[1..] == w[1..];
      }
    }
  }

  /** A spliced text that starts with the rest of the needle is that rest. */
  lemma {:induction false} NoSplice(w: string, needle: string, k: nat)
    requires Unbordered(needle) && k <= |needle|
    requires Spliced(w, needle, k) && needle[k..] <= w
    ensures w == needle[k..]
    decreases |w|
  {
    if k < |needle| {
      assert needle[k..][0] == needle[k] && (k + 1 < |needle| ==> needle[k..][1] == needle[k + 1]);
      assert 0 < k ==> !(needle <= w);
      assert needle[k..][1..] == needle[k + 1..];
      NoSplice(w[1..], needle, k + 1);
    }
  }

  /** Between splices no needle starts, whatever follows. */
  lemma NotStarted(w: string, y: string, needle: string, k: nat)
    requires Unbordered(needle) && 1 <= k < |needle|
    requires Spliced(w, needle, k) && !(needle <= w)
    ensures !(needle <= w + y)
  {
  }

  /** Cutting the needles out of a spliced text, whatever follows it, brings the pieces together. */
  lemma {:induction false} SplicedCollapses(w: string, y: string, needle: string, k: nat)
    requires Unbordered(needle) && 1 <= k <= |needle| && Spliced(w, needle, k)
    ensures needle[k..] <= Replace(w + y, needle, "")
    decreases |w|
  {
    var s := w + y;
    if k < |needle| {
      if needle <= w {
        assert needle <= s && s[|needle|..] == w[|needle|..] + y;
        SplicedCollapses(w[|needle|..], y, needle, k);
        assert Replace(s, needle, "") == Replace(s[|needle|..], needle, "");
      } else {
        NotStarted(w, y, needle, k);
        assert s[1..] == w[1..] + y;
        SplicedCollapses(w[1..], y, needle, k + 1);
        assert needle[k..] == [s[0]] + needle[k + 1..];
      }
    }
  }

  /** A text that an interrupted needle starts has the needle at its start once cut. */
  lemma InterruptedCollapses(w: string, y: string, needle: string)
    requires Unbordered(needle) && Interrupted(w, needle)
    ensures !(needle <= w + y) && needle <= Replace(w + y, needle, "")
  {
    if needle <= w + y {
      assert needle <= w;
      NoSplice(w, needle, 0);
      assert false;
    }
    assert (w + y)[1..] == w[1..] + y;
    SplicedCollapses(w[1..], y, needle, 1);
    assert needle == [w[0]] + needle[1..];
  }

  /** No needle reaches from a text into an interrupted needle that follows it. */
  lemma NoStraddle(x: string, w: string, y: string, needle: string)
    requires Unbordered(needle) && Interrupted(w, needle)
    requires |x| < |needle|
    ensures !(needle <= x + w + y)
  {
    var s, a := x + w + y, |x|;
    if a == 0 {
      assert s == w + y;
      InterruptedCollapses(w, y, needle);
    } else {
      assert Spliced(w[1..], needle, 1) && s[a] == w[0] == needle[0];
      assert s[a + 1] == w[1] == w[1..][0] && s[a + 2] == w[2] == w[1..][1];
      assert w[1] == if needle <= w[1..] then needle[0] else needle[1];
    }
  }

  lemma {:induction false} InterruptedLeavesNeedle(x: string, w: string, y: string, needle: string)
    requires Unbordered(needle) && Interrupted(w, needle)
    ensures Contains(Replace(x + w + y, needle, ""), needle)
    decreases |x|
  {
    var s := x + w + y;
    var out := Replace(s, needle, "");
    if x == [] {
      assert s == w + y;
      InterruptedCollapses(w, y, needle);
      assert At(out, needle, 0);
    } else if needle <= s {
      assert |x| >= |needle| by {
        if |x| < |needle| { NoStraddle(x, w, y, needle); }
      }
      assert s[|needle|..] == x[|needle|..] + w + y;
      InterruptedLeavesNeedle(x[|needle|..], w, y, needle);
      assert out == Replace(s[|needle|..], needle, "");
    } else {
      assert s[1..] == x[1..] + w + y;
      InterruptedLeavesNeedle(x[1..], w, y, needle);
      var j :| At(out[1..], needle, j);
      AtTail(out, needle);
      assert At(out, needle, j + 1);
    }
  }

  /** The other way: what ends up at the start of the output was spliced in the input. */
  lemma {:induction false} CollapsedWasSpliced(s: string, needle: string, k: nat) returns (q: nat)
    requires needle != [] && 1 <= k <= |needle|
    requires needle[k..] <= Replace(s, needle, "")
    ensures q <= |s| && Spliced(s[..q], needle, k)
    decreases |s|
  {
    var out := Replace(s, needle, "");
    if k == |needle| {
      q := 0;
    } else if needle <= s {
      assert out == Replace(s[|needle|..], needle, "");
      var r := CollapsedWasSpliced(s[|needle|..], needle, k);
      q := r + |needle|;
      assert s[..q][|needle|..] == s[|needle|..][..r];
    } else {
      assert needle[k..][0] == out[0] == s[0];
      assert needle[k..][1..] == needle[k + 1..] && out[1..] == Replace(s[1..], needle, "");
      var r := CollapsedWasSpliced(s[1..], needle, k + 1);
      q := r + 1;
      assert s[..q][1..] == s[1..][..r];
    }
  }

  lemma {:induction false} NeedleLeftWasInterrupted(s: string, needle: string, i: nat)
    requires |needle| >= 2 && At(Replace(s, needle, ""), needle, i)
    ensures HasInterrupted(s, needle)
    decreases |s|
  {
    var out := Replace(s, needle, "");
    if needle <= s {
      assert out == Replace(s[|needle|..], needle, "");
      NeedleLeftWasInterrupted(s[|needle|..], needle, i);
      InterruptedInRest(s, needle, |needle|);
    } else if i > 0 {
      AtTail(out, needle);
      assert At(Replace(s[1..], needle, ""), needle, i - 1);
      NeedleLeftWasInterrupted(s[1..], needle, i - 1);
      InterruptedInRest(s, needle, 1);
    } else {
      StartWasInterrupted(s, needle);
    }
  }

  lemma InterruptedInRest(s: string, needle: string, d: nat)
    requires needle != [] && d <= |s| && HasInterrupted(s[d..], needle)
    ensures HasInterrupted(s, needle)
  {
    var p, q :| 0 <= p <= q <= |s| - d && Interrupted(s[d..][p..q], needle);
    assert s[d..][p..q] == s[p + d..q + d];
  }

  lemma StartWasInterrupted(s: string, needle: string)
    requires |needle| >= 2 && !(needle <= s) && needle <= Replace(s, needle, "")
    ensures HasInterrupted(s, needle)
  {
    var out := Replace(s, needle, "");
    PrefixStep(needle, out);
    var r := CollapsedWasSpliced(s[1..], needle, 1);
    var w := s[..r + 1];
    assert w[1..] == s[1..][..r] && w[0] == needle[0];
    SplicedLength(w, needle, 0);
    assert s[0..r + 1] == w;
  }

  /** Cutting the needle out leaves a needle if and only if the text held an interrupted needle. */
  lemma NeedleLeftIffInterrupted(s: string, needle: string)
    requires Unbordered(needle)
    ensures Contains(Replace(s, needle, ""), needle) <==> HasInterrupted(s, needle)
  {
    if Contains(Replace(s, needle, ""), needle) {
      var i :| At(Replace(s, needle, ""), needle, i);
      NeedleLeftWasInterrupted(s, needle, i);
    }
    if HasInterrupted(s, needle) {
      var p, q :| 0 <= p <= q <= |s| && Interrupted(s[p..q], needle);
      assert s == s[..p] + s[p..q] + s[q..];
      InterruptedLeavesNeedle(s[..p], s[p..q], s[q..], needle);
    }
  }

  lemma {:induction false} SplicedRest(needle: string, k: nat)
    requires Unbordered(needle) && 1 <= k <= |needle|
    ensures Spliced(needle[k..], needle, k)
    decreases |needle| - k
  {
    if k < |needle| {
      SplicedRest(needle, k + 1);
      assert needle[k..][1..] == needle[k + 1..];
    }
  }

  lemma {:induction false} SplicedNested(needle: string, j: nat, k: nat)
    requires Unbordered(needle) && 1 <= j <= k < |needle|
    ensures Spliced(needle[j..k] + needle + needle[k..], needle, j)
    decreases k - j
  {
    var w := needle[j..k] + needle + needle[k..];
    if j == k {
      SplicedRest(needle, k);
      assert w == needle + needle[k..] && w[|needle|..] == needle[k..];
    } else {
      SplicedNested(needle, j + 1, k);
      assert w[1..] == needle[j + 1..k] + needle + needle[k..];
      assert w[0] == needle[j] && w[1] == if j + 1 < k then needle[j + 1] else needle[0];
      assert j + 1 == k ==> w[2] == needle[1];
    }
  }

  lemma {:induction false} CutShrinks(s: string, needle: string)
    requires needle != []
    ensures |Replace(s, needle, "")| <= |s|
    ensures Contains(s, needle) ==> |Replace(s, needle, "")| <= |s| - |needle|
    decreases |s|
  {
    if needle <= s {
      CutShrinks(s[|needle|..], needle);
    } else if s != [] {
      FindStep(s, needle);
      CutShrinks(s[1..], needle);
    }
  }

  lemma NestedIsInterrupted(needle: string, k: nat)
    requires Unbordered(needle) && 1 <= k < |needle|
    ensures Interrupted(needle[..k] + needle + needle[k..], needle)
  {
    var w := needle[..k] + needle + needle[k..];
    SplicedNested(needle, 1, k);
    assert w[1..] == needle[1..k] + needle + needle[k..];
  }

  /** A needle put strictly inside another leaves a whole needle when it is cut out. */
  lemma NestedCollapses(needle: string, k: nat)
    requires Unbordered(needle) && 1 <= k < |needle|
    ensures Replace(needle[..k] + needle + needle[k..], needle, "") == needle
    ensures Replace(needle, needle, "") == ""
  {
    var w := needle[..k] + needle + needle[k..];
    NestedIsInterrupted(needle, k);
    InterruptedCollapses(w, "", needle);
    assert w + "" == w;
    assert At(w, needle, k);
    CutShrinks(w, needle);
    assert At(needle, needle, 0);
    CutShrinks(needle, needle);
  }

  // ---------------------------------------------------------------- what string(REPLACE) means

  /** The first copy of the needle stands at p. */
  ghost predicate FirstAt(s: string, needle: string, p: nat) {
    At(s, needle, p) && forall j :: 0 <= j < p ==> !At(s, needle, j)
  }

  lemma FirstInTail(s: string, needle: string, p: nat)
    requires needle != [] && p > 0 && FirstAt(s, needle, p)
    ensures !(needle <= s) && s != [] && FirstAt(s[1..], needle, p - 1) && p + |needle| <= |s|
  {
    assert !At(s, needle, 0);
    AtTail(s, needle);
    assert At(s, needle, (p - 1) + 1);
  }

  /** Up to the first copy of the needle nothing changes, that copy becomes the inserted text, and the rest
      is treated in the same way. Together with a text without the needle, which stays as it is, this
      leaves one answer only. */
  lemma {:induction false} ReplaceAtFirst(s: string, needle: string, ins: string, p: nat)
    requires needle != [] && FirstAt(s, needle, p)
    ensures p + |needle| <= |s| && Replace(s, needle, ins) == s[..p] + ins + Replace(s[p + |needle|..], needle, ins)
    decreases p
  {
    if p == 0 {
      ReplaceHere(s, needle, ins);
    } else {
      FirstInTail(s, needle, p);
      ReplaceAtFirst(s[1..], needle, ins, p - 1);
      var rest := Replace(s[p + |needle|..], needle, ins);
      OneInFront(s, needle, ins, p, rest);
      ReplaceOn(s, needle, ins, s[1..][..p - 1] + ins + rest);
    }
  }

  lemma ReplaceHere(s: string, needle: string, ins: string)
    requires needle != [] && At(s, needle, 0)
    ensures Replace(s, needle, ins) == s[..0] + ins + Replace(s[0 + |needle|..], needle, ins)
  {
    assert needle <= s && s[..0] + ins == ins;
  }

  lemma ReplaceOn(s: string, needle: string, ins: string, rest: string)
    requires needle != [] && s != [] && !(needle <= s) && rest == Replace(s[1..], needle, ins)
    ensures Replace(s, needle, ins) == [s[0]] + rest
  {
  }

  lemma OneInFront(s: string, needle: string, ins: string, p: nat, rest: string)
    requires 0 < p && p + |needle| <= |s|
    ensures s[1..][p - 1 + |needle|..] == s[p + |needle|..]
    ensures [s[0]] + (s[1..][..p - 1] + ins + rest) == s[..p] + ins + rest
  {
  }
}
