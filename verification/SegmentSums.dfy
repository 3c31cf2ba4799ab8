/** Splitting a text that was put together from parts (samia/core/ia.py): white space around it
    does not matter, and paragraphs joined by a blank line stay what they were. */
module SegmentSums {
  import opened Strings
  import opened Segments

  // ---- matches do not depend on what follows ------------------------------------------------

  lemma {:induction false} SpaceEndIs(s: string, i: nat, e: nat)
    requires i <= e < |s| && !IsSpace(s[e]) && forall k :: i <= k < e ==> IsSpace(s[k])
    ensures SpaceEnd(s, i) == e
    decreases e - i
  {
    if i < e { SpaceEndIs(s, i + 1, e); }
  }

  lemma {:induction false} LastNewlineSame(s: string, t: string, lo: nat, hi: nat)
    requires lo <= hi <= |s| && hi <= |t| && forall k :: lo <= k < hi ==> s[k] == t[k]
    ensures LastNewline(s, lo, hi) == LastNewline(t, lo, hi)
    decreases hi
  {
    if lo < hi && s[hi - 1] != '\n' { LastNewlineSame(s, t, lo, hi - 1); }
  }

  lemma {:induction false} FirstBreakIs(s: string, from: nat, i: nat)
    requires from <= i < |s| && BreakAt(s, i) != -1 && forall k :: from <= k < i ==> BreakAt(s, k) == -1
    ensures FirstBreak(s, from) == i
    decreases i - from
  {
    if from < i { FirstBreakIs(s, from + 1, i); }
  }

  /** A text with a visible last character. */
  predicate EndsInk(x: string) {
    x != "" && !IsSpace(x[|x| - 1])
  }

  lemma BreakStays(x: string, rest: string, k: nat)
    requires EndsInk(x) && k < |x|
    ensures BreakAt(x + rest, k) == BreakAt(x, k)
    ensures BreakAt(x, k) < |x|
  {
    var s := x + rest;
    assert s[k] == x[k];
    if x[k] == '\n' {
      var e := SpaceEnd(x, k + 1);
      assert e < |x|;
      forall j | k + 1 <= j <= e ensures s[j] == x[j] {}
      SpaceEndIs(s, k + 1, e);
      LastNewlineSame(s, x, k + 1, e);
    }
  }

  lemma FirstBreakStays(x: string, rest: string)
    requires EndsInk(x) && FirstBreak(x, 0) >= 0
    ensures var i := FirstBreak(x, 0); FirstBreak(x + rest, 0) == i && BreakAt(x + rest, i) == BreakAt(x, i)
  {
    var i := FirstBreak(x, 0);
    forall k | 0 <= k <= i ensures BreakAt(x + rest, k) == BreakAt(x, k) { BreakStays(x, rest, k); }
    FirstBreakIs(x + rest, 0, i);
  }

  /** The paragraphs of a text with a match: what is before it, and those of what is behind it. */
  lemma ParagraphsUnfold(s: string)
    requires FirstBreak(s, 0) >= 0
    ensures var i := FirstBreak(s, 0);
      Paragraphs(s) == Kept([s[..i]]) + Paragraphs(s[BreakAt(s, i)..])
  {
    var i := FirstBreak(s, 0);
    KeptFirst(s[..i], Chunks(s[BreakAt(s, i)..]));
    KeptOnly(s[..i]);
  }

  /** The same with the parts named. */
  lemma ParagraphsAt(s: string, i: nat, e: nat, head: string, rest: string)
    requires FirstBreak(s, 0) == i && BreakAt(s, i) == e && head == s[..i] && rest == s[e..]
    ensures Paragraphs(s) == Kept([head]) + Paragraphs(rest)
  {
    ParagraphsUnfold(s);
  }

  lemma KeptSame(x: string, y: string)
    requires Strip(x) == Strip(y)
    ensures Kept([x]) == Kept([y])
  {
    KeptOnly(x);
    KeptOnly(y);
  }

  lemma ParagraphsOfOne(s: string)
    requires FirstBreak(s, 0) < 0
    ensures Paragraphs(s) == Kept([s])
  {
  }

  lemma BehindBreak(x: string, rest: string, i: nat, e: nat)
    requires EndsInk(x) && i <= e < |x|
    ensures (x + rest)[..i] == x[..i] && (x + rest)[e..] == x[e..] + rest && EndsInk(x[e..])
  {
  }

  // ---- what comes after a paragraph ------------------------------------------------------------

  /** `tail` behind a text without a blank line gives the paragraph and then `more`. */
  ghost predicate Continues(tail: string, more: seq<string>) {
    forall p :: Solid(p) ==> Paragraphs(p + tail) == [Strip(p)] + more
  }

  lemma SolidAlone(p: string)
    requires EndsInk(p) && FirstBreak(p, 0) < 0
    ensures Solid(p) && Paragraphs(p) == [Strip(p)]
  {
    LeadingChunk(p);
    SolidIsInked(p);
    KeptOnly(p);
  }

  /** Whatever text is in front. */
  lemma {:induction false} ParagraphsThen(x: string, tail: string, more: seq<string>)
    requires EndsInk(x) && Continues(tail, more)
    ensures Paragraphs(x + tail) == Paragraphs(x) + more
    decreases |x|
  {
    var i := FirstBreak(x, 0);
    if i < 0 {
      SolidAlone(x);
    } else {
      var e := BreakAt(x, i);
      BreakStays(x, tail, i);
      FirstBreakStays(x, tail);
      BehindBreak(x, tail, i, e);
      ParagraphsAt(x, i, e, x[..i], x[e..]);
      ParagraphsAt(x + tail, i, e, x[..i], x[e..] + tail);
      ParagraphsThen(x[e..], tail, more);
      Regrouped(Kept([x[..i]]), Paragraphs(x[e..]), more);
    }
  }

  lemma Regrouped(a: seq<string>, b: seq<string>, c: seq<string>)
    ensures a + (b + c) == (a + b) + c
  {
  }

  // ---- white space around ------------------------------------------------------------------------

  lemma {:induction false} SpaceOnly(s: string)
    requires AllSpace(s)
    ensures Paragraphs(s) == []
    decreases |s|
  {
    var i := FirstBreak(s, 0);
    if i < 0 {
      StripToNothing(s);
      KeptOnly(s);
    } else {
      StripToNothing(s[..i]);
      ParagraphsUnfold(s);
      KeptOnly(s[..i]);
      SpaceOnly(s[BreakAt(s, i)..]);
    }
  }

  lemma StripBeforeSpace(p: string, w: string)
    requires EndsInk(p) && AllSpace(w)
    ensures Strip(p + w) == Strip(p)
  {
    StripLeftBefore(p, w);
    PadRight(StripLeft(p), w);
    PadRight(StripLeft(p), "");
    assert StripLeft(p) + "" == StripLeft(p);
  }

  lemma SpaceBehind(p: string, w: string)
    requires Solid(p) && AllSpace(w)
    ensures Paragraphs(p + w) == [Strip(p)]
  {
    var i := FirstBreak(p + w, 0);
    if i < 0 {
      ParagraphsOfOne(p + w);
      KeptBeforeSpace(p, w);
    } else {
      SpaceBehindAt(p, w, i, BreakAt(p + w, i));
    }
  }

  lemma KeptBeforeSpace(p: string, w: string)
    requires Solid(p) && AllSpace(w)
    ensures Kept([p + w]) == [Strip(p)]
  {
    SolidIsInked(p);
    StripBeforeSpace(p, w);
    KeptOnly(p + w);
  }

  lemma SplitBehind(p: string, w: string, i: nat, e: nat)
    requires |p| <= i <= e <= |p| + |w|
    ensures (p + w)[..i] == p + w[..i - |p|] && (p + w)[e..] == w[e - |p|..]
  {
  }

  lemma SpaceBehindAt(p: string, w: string, i: nat, e: nat)
    requires Solid(p) && AllSpace(w) && FirstBreak(p + w, 0) == i && BreakAt(p + w, i) == e
    ensures Paragraphs(p + w) == [Strip(p)]
  {
    NoBreakInside(p, w);
    SplitBehind(p, w, i, e);
    ParagraphsAt(p + w, i, e, p + w[..i - |p|], w[e - |p|..]);
    KeptBeforeSpace(p, w[..i - |p|]);
    SpaceOnly(w[e - |p|..]);
  }

  lemma TrailingSpace(x: string, w: string)
    requires EndsInk(x) && AllSpace(w)
    ensures Paragraphs(x + w) == Paragraphs(x)
  {
    forall p | Solid(p) ensures Paragraphs(p + w) == [Strip(p)] + [] { SpaceBehind(p, w); }
    ParagraphsThen(x, w, []);
  }

  lemma BreakShifted(w: string, t: string, k: nat)
    requires k <= |t|
    ensures BreakAt(w + t, |w| + k) == if BreakAt(t, k) == -1 then -1 else |w| + BreakAt(t, k)
  {
    var s := w + t;
    if k < |t| && t[k] == '\n' {
      SpaceEndShifted(w, t, k + 1);
      LastNewlineShifted(w, t, k + 1, SpaceEnd(t, k + 1));
    }
  }

  lemma {:induction false} SpaceEndShifted(w: string, t: string, i: nat)
    requires i <= |t|
    ensures SpaceEnd(w + t, |w| + i) == |w| + SpaceEnd(t, i)
    decreases |t| - i
  {
    if i < |t| && IsSpace(t[i]) { SpaceEndShifted(w, t, i + 1); }
  }

  lemma {:induction false} LastNewlineShifted(w: string, t: string, lo: nat, hi: nat)
    requires lo <= hi <= |t|
    ensures LastNewline(w + t, |w| + lo, |w| + hi) == if LastNewline(t, lo, hi) == -1 then -1 else |w| + LastNewline(t, lo, hi)
    decreases hi
  {
    if lo < hi && t[hi - 1] != '\n' { LastNewlineShifted(w, t, lo, hi - 1); }
  }

  lemma LeadStrip(w: string, t: string)
    requires AllSpace(w) && t != "" && !IsSpace(t[0])
    ensures Strip(w + t) == Strip(t)
  {
    PadLeft(w, t);
    PadLeft("", t);
    assert "" + t == t;
  }

  /** Leading white space without a match in it. */
  lemma LeadWithoutBreak(w: string, t: string)
    requires AllSpace(w) && t != "" && !IsSpace(t[0])
    requires forall k :: 0 <= k < |w| ==> BreakAt(w + t, k) == -1
    ensures Paragraphs(w + t) == Paragraphs(t)
  {
    var j := FirstBreak(t, 0);
    if j < 0 {
      NoBreakBehind(w, t);
      ParagraphsOfOne(w + t);
      ParagraphsOfOne(t);
      LeadStrip(w, t);
      KeptSame(w + t, t);
    } else {
      FirstBreakShifted(w, t, j);
      BreakShifted(w, t, j);
      NotAtStart(t);
      LeadChunk(w, t, j);
    }
  }

  lemma NotAtStart(t: string)
    requires t != "" && !IsSpace(t[0])
    ensures FirstBreak(t, 0) != 0
  {
    assert BreakAt(t, 0) == -1;
  }

  lemma NoBreakBehind(w: string, t: string)
    requires FirstBreak(t, 0) < 0 && forall k :: 0 <= k < |w| ==> BreakAt(w + t, k) == -1
    ensures FirstBreak(w + t, 0) < 0
  {
    var i := FirstBreak(w + t, 0);
    if i >= |w| { BreakShifted(w, t, i - |w|); }
  }

  lemma FirstBreakShifted(w: string, t: string, j: nat)
    requires FirstBreak(t, 0) == j && forall k :: 0 <= k < |w| ==> BreakAt(w + t, k) == -1
    ensures FirstBreak(w + t, 0) == |w| + j
  {
    forall k | 0 <= k < |w| + j ensures BreakAt(w + t, k) == -1 { NoBreakAt(w, t, j, k); }
    BreakShifted(w, t, j);
    FirstBreakIs(w + t, 0, |w| + j);
  }

  lemma NoBreakAt(w: string, t: string, j: nat, k: nat)
    requires FirstBreak(t, 0) == j && k < |w| + j && (k < |w| ==> BreakAt(w + t, k) == -1)
    ensures BreakAt(w + t, k) == -1
  {
    if k >= |w| { BreakShifted(w, t, k - |w|); }
  }

  lemma LeadChunk(w: string, t: string, j: nat)
    requires AllSpace(w) && t != "" && !IsSpace(t[0]) && 0 < j == FirstBreak(t, 0)
    requires FirstBreak(w + t, 0) == |w| + j && BreakAt(w + t, |w| + j) == |w| + BreakAt(t, j)
    ensures Paragraphs(w + t) == Paragraphs(t)
  {
    ParagraphsAt(t, j, BreakAt(t, j), t[..j], t[BreakAt(t, j)..]);
    ShiftedAt(w + t, w, t, j, BreakAt(t, j));
    LeadKept(w, t, j);
  }

  lemma ShiftedAt(s: string, w: string, t: string, j: nat, e: nat)
    requires s == w + t && j <= e <= |t| && FirstBreak(s, 0) == |w| + j && BreakAt(s, |w| + j) == |w| + e
    ensures Paragraphs(s) == Kept([w + t[..j]]) + Paragraphs(t[e..])
  {
    SplitShifted(w, t, j, e);
    ParagraphsAt(s, |w| + j, |w| + e, w + t[..j], t[e..]);
  }

  lemma LeadKept(w: string, t: string, j: nat)
    requires AllSpace(w) && t != "" && !IsSpace(t[0]) && 0 < j <= |t|
    ensures Kept([w + t[..j]]) == Kept([t[..j]])
  {
    LeadStrip(w, t[..j]);
    KeptSame(w + t[..j], t[..j]);
  }

  lemma SplitShifted(w: string, t: string, j: nat, e: nat)
    requires j <= e <= |t|
    ensures (w + t)[..|w| + j] == w + t[..j] && (w + t)[|w| + e..] == t[e..]
  {
  }

  lemma NoNewlineNoBreak(w: string, t: string)
    requires '\n' !in w
    ensures forall k :: 0 <= k < |w| ==> BreakAt(w + t, k) == -1
  {
    forall k | 0 <= k < |w| ensures BreakAt(w + t, k) == -1 { assert (w + t)[k] == w[k]; }
  }

  /** A match in the leading white space takes all its newlines. */
  lemma LeadBreak(w: string, t: string, i: nat)
    requires AllSpace(w) && t != "" && !IsSpace(t[0]) && i < |w| && BreakAt(w + t, i) != -1
    ensures var e := BreakAt(w + t, i); i < e <= |w| && '\n' !in w[e..] && (w + t)[e..] == w[e..] + t && (w + t)[..i] == w[..i]
  {
    var s, e := w + t, BreakAt(w + t, i);
    forall k | i + 1 <= k < |w| ensures IsSpace(s[k]) { assert s[k] == w[k]; }
    assert s[|w|] == t[0];
    SpaceEndIs(s, i + 1, |w|);
    forall k | 0 <= k < |w| - e ensures w[e..][k] != '\n' { assert s[e + k] == w[e + k]; }
  }

  lemma LeadingSpace(w: string, t: string)
    requires AllSpace(w) && t != "" && !IsSpace(t[0])
    ensures Paragraphs(w + t) == Paragraphs(t)
  {
    var s := w + t;
    var i := FirstBreak(s, 0);
    if 0 <= i < |w| {
      var e := BreakAt(s, i);
      LeadBreak(w, t, i);
      ParagraphsUnfold(s);
      StripToNothing(s[..i]);
      KeptOnly(s[..i]);
      NoNewlineNoBreak(w[e..], t);
      LeadWithoutBreak(w[e..], t);
    } else {
      LeadWithoutBreak(w, t);
    }
  }

  /** White space around a text does not change its paragraphs. */
  lemma StripKeepsParagraphs(s: string)
    ensures Paragraphs(Strip(s)) == Paragraphs(s)
  {
    var left, right := Padding(s);
    var t := Strip(s);
    if t == "" {
      StripToNothing(s);
      SpaceOnly(s);
      SpaceOnly("");
    } else {
      LeadingSpace(left, t + right);
      TrailingSpace(t, right);
    }
  }

  // ---- a blank line between any two texts ----------------------------------------------------------

  lemma StripFramed(left: string, t: string, right: string)
    requires AllSpace(left) && AllSpace(right) && Stripped(t)
    ensures Strip(left + (t + right)) == t
  {
    if t == "" {
      assert AllSpace(left + (t + right));
      StripToNothing(left + (t + right));
    } else {
      assert (t + right)[0] == t[0];
      LeadStrip(left, t + right);
      StripBeforeSpace(t, right);
      StripOfStripped(t);
    }
  }

  lemma Framed(w: string, left: string, t: string, right: string, v: string)
    ensures w + ((left + (t + right)) + v) == (w + left) + (t + (right + v))
  {
  }

  lemma BothSpace(a: string, b: string)
    requires AllSpace(a) && AllSpace(b)
    ensures AllSpace(a + b)
  {
  }

  /** A text in white space. */
  lemma Surrounded(w: string, s: string, v: string)
    requires AllSpace(w) && AllSpace(v)
    ensures Paragraphs(w + (s + v)) == Paragraphs(s)
  {
    var left, right := Padding(s);
    Framed(w, left, Strip(s), right, v);
    BothSpace(w, left);
    BothSpace(right, v);
    StripFramed(w + left, Strip(s), right + v);
    StripKeepsParagraphs(w + (s + v));
    StripKeepsParagraphs(s);
  }

  lemma SurroundedIs(z: string, w: string, s: string, v: string)
    requires z == w + (s + v) && AllSpace(w) && AllSpace(v)
    ensures Paragraphs(z) == Paragraphs(s)
  {
    Surrounded(w, s, v);
  }

  lemma NothingFirst(s: string)
    ensures "" + s == s
  {
  }

  lemma GapFirst(x: string, y: string)
    ensures x + ("\n\n" + y) == (x + "\n\n") + (y + "")
  {
  }

  lemma NewlineBehind(s: string)
    ensures Paragraphs(s + "\n") == Paragraphs(s)
  {
    NothingFirst(s + "\n");
    SurroundedIs(s + "\n", "", s, "\n");
  }

  /** White space with two newlines next to each other at `n`. */
  predicate IsGap(gap: string, n: nat) {
    AllSpace(gap) && n + 1 < |gap| && gap[n] == '\n' && gap[n + 1] == '\n'
  }

  lemma GapChar(p: string, gap: string, y: string, k: nat)
    requires |p| <= k < |p| + |gap| && AllSpace(gap)
    ensures var s := p + (gap + y); s[k] == gap[k - |p|] && IsSpace(s[k])
  {
  }

  lemma GapEnds(p: string, gap: string, y: string, i: nat)
    requires |p| <= i <= |p| + |gap| && AllSpace(gap) && y != "" && !IsSpace(y[0])
    ensures SpaceEnd(p + (gap + y), i) == |p| + |gap|
  {
    var s := p + (gap + y);
    forall k | i <= k < |p| + |gap| ensures IsSpace(s[k]) { GapChar(p, gap, y, k); }
    assert s[|p| + |gap|] == y[0];
    SpaceEndIs(s, i, |p| + |gap|);
  }

  /** There is a match in the gap. */
  lemma GapMatches(p: string, gap: string, y: string, n: nat)
    requires IsGap(gap, n) && y != "" && !IsSpace(y[0])
    ensures BreakAt(p + (gap + y), |p| + n) != -1
  {
    GapEnds(p, gap, y, |p| + n + 1);
    GapChar(p, gap, y, |p| + n);
    GapChar(p, gap, y, |p| + n + 1);
  }

  /** The first match behind a paragraph starts in the gap and ends in it. */
  lemma GapBreak(p: string, gap: string, y: string, n: nat) returns (i: nat, e: nat)
    requires Solid(p) && IsGap(gap, n) && y != "" && !IsSpace(y[0])
    ensures FirstBreak(p + (gap + y), 0) == |p| + i && BreakAt(p + (gap + y), |p| + i) == |p| + e && i <= e <= |gap|
  {
    GapMatches(p, gap, y, n);
    NoBreakInside(p, gap + y);
    var first := FirstBreak(p + (gap + y), 0);
    i := first - |p|;
    GapEnds(p, gap, y, first + 1);
    e := BreakAt(p + (gap + y), first) - |p|;
  }

  lemma GapParts(p: string, gap: string, y: string, i: nat, e: nat)
    requires i <= e <= |gap|
    ensures (p + (gap + y))[..|p| + i] == p + gap[..i] && (p + (gap + y))[|p| + e..] == gap[e..] + y
  {
  }

  lemma SolidThenGap(p: string, gap: string, y: string, n: nat)
    requires Solid(p) && IsGap(gap, n) && y != "" && !IsSpace(y[0])
    ensures Paragraphs(p + (gap + y)) == [Strip(p)] + Paragraphs(y)
  {
    var i, e := GapBreak(p, gap, y, n);
    GapCut(p + (gap + y), p, gap, y, i, e);
    KeptBeforeSpace(p, gap[..i]);
    LeadingSpace(gap[e..], y);
  }

  lemma GapCut(s: string, p: string, gap: string, y: string, i: nat, e: nat)
    requires s == p + (gap + y) && i <= e <= |gap| && FirstBreak(s, 0) == |p| + i && BreakAt(s, |p| + i) == |p| + e
    ensures Paragraphs(s) == Kept([p + gap[..i]]) + Paragraphs(gap[e..] + y)
  {
    GapParts(p, gap, y, i, e);
    ParagraphsAt(s, |p| + i, |p| + e, p + gap[..i], gap[e..] + y);
  }

  lemma InkThenGap(x: string, gap: string, y: string, n: nat)
    requires EndsInk(x) && IsGap(gap, n) && y != "" && !IsSpace(y[0])
    ensures Paragraphs(x + (gap + y)) == Paragraphs(x) + Paragraphs(y)
  {
    forall p | Solid(p) ensures Paragraphs(p + (gap + y)) == [Strip(p)] + Paragraphs(y) { SolidThenGap(p, gap, y, n); }
    ParagraphsThen(x, gap + y, Paragraphs(y));
  }

  lemma GapBetween(left: string, x: string, right: string, l: string, y: string, r: string)
    ensures (left + (x + right)) + ("\n\n" + (l + (y + r))) == left + ((x + ((right + ("\n\n" + l)) + y)) + r)
  {
  }

  lemma BlankLineIsGap(right: string, l: string)
    requires AllSpace(right) && AllSpace(l)
    ensures IsGap(right + ("\n\n" + l), |right|)
  {
  }

  lemma SpaceThen(x: string, y: string)
    requires AllSpace(x)
    ensures Paragraphs(x + ("\n\n" + y)) == Paragraphs(y)
  {
    BothSpace(x, "\n\n");
    GapFirst(x, y);
    SurroundedIs(x + ("\n\n" + y), x + "\n\n", y, "");
  }

  lemma ThenSpace(x: string, y: string)
    requires AllSpace(y)
    ensures Paragraphs(x + ("\n\n" + y)) == Paragraphs(x)
  {
    BothSpace("\n\n", y);
    NothingFirst(x + ("\n\n" + y));
    SurroundedIs(x + ("\n\n" + y), "", x, "\n\n" + y);
  }

  lemma FramedAdds(left: string, x: string, right: string, l: string, y: string, r: string)
    requires AllSpace(left) && AllSpace(right) && AllSpace(l) && AllSpace(r)
    requires EndsInk(x) && y != "" && !IsSpace(y[0])
    ensures Paragraphs((left + (x + right)) + ("\n\n" + (l + (y + r)))) == Paragraphs(x) + Paragraphs(y)
  {
    var gap := right + ("\n\n" + l);
    BlankLineIsGap(right, l);
    InkThenGap(x, gap, y, |right|);
    GapBetween(left, x, right, l, y, r);
    Surrounded(left, x + (gap + y), r);
  }

  /** A blank line between any two texts, whatever white space they begin and end with, adds up
      their paragraphs. */
  lemma BlankLineAdds(x: string, y: string)
    ensures Paragraphs(x + ("\n\n" + y)) == Paragraphs(x) + Paragraphs(y)
  {
    if AllSpace(x) {
      SpaceThen(x, y);
      SpaceOnly(x);
    } else if AllSpace(y) {
      ThenSpace(x, y);
      SpaceOnly(y);
    } else {
      StripToNothing(x);
      StripToNothing(y);
      var left, right := Padding(x);
      var l, r := Padding(y);
      FramedAdds(left, Strip(x), right, l, Strip(y), r);
      StripKeepsParagraphs(x);
      StripKeepsParagraphs(y);
    }
  }

  lemma NoNewlineNoMatch(t: string, k: nat)
    requires '\n' !in t && k <= |t|
    ensures BreakAt(t, k) == -1
  {
  }

  /** The paragraphs of a line of text. */
  lemma LineParagraph(line: string)
    requires Strip(line) != "" && '\n' !in line
    ensures Paragraphs(line) == [Strip(line)]
  {
    var i := FirstBreak(line, 0);
    if i >= 0 { NoNewlineNoMatch(line, i); }
    ParagraphsOfOne(line);
    KeptOnly(line);
  }

  /** Normalising the end of a text does not change its paragraphs. */
  lemma EndKeepsParagraphs(s: string)
    requires !AllSpace(s)
    ensures Paragraphs(StripRight(s) + "\n") == Paragraphs(s)
  {
    StripRightToNothing(s);
    var right := RightSpace(s);
    TrailingSpace(StripRight(s), right);
    NewlineBehind(StripRight(s));
  }
}
