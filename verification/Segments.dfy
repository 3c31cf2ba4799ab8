/** Splitting a body into paragraphs and joining them again (samia/core/ia.py). */
module Segments {
  import opened Strings
  import Decimals

  // ---- the regular expression `\n\s*\n` ---------------------------------------------------

  /** The end of the run of white space from `i`. */
  function SpaceEnd(s: string, i: nat): (e: nat)
    requires i <= |s|
    ensures i <= e <= |s|
    ensures forall k :: i <= k < e ==> IsSpace(s[k])
    ensures e == |s| || !IsSpace(s[e])
    decreases |s| - i
  {
    if i < |s| && IsSpace(s[i]) then SpaceEnd(s, i + 1) else i
  }

  /** The last newline in `s[lo..hi]`, or -1. */
  function LastNewline(s: string, lo: nat, hi: nat): (j: int)
    requires lo <= hi <= |s|
    ensures j == -1 || (lo <= j < hi && s[j] == '\n')
    ensures forall k :: lo <= k < hi && j < k ==> s[k] != '\n'
    decreases hi
  {
    if lo == hi then -1 else if s[hi - 1] == '\n' then hi - 1 else LastNewline(s, lo, hi - 1)
  }

  /** The end of the match that starts at `i`, or -1: a newline, white space as far as it
      goes, and back to its last newline. */
  function BreakAt(s: string, i: nat): (e: int)
    requires i <= |s|
    ensures e == -1 || (i + 2 <= e <= |s| && s[i] == '\n' && s[e - 1] == '\n')
  {
    if i < |s| && s[i] == '\n' then
      var j := LastNewline(s, i + 1, SpaceEnd(s, i + 1));
      if j < 0 then -1 else j + 1
    else -1
  }

  /** The leftmost match at or after `from`, or -1. */
  function FirstBreak(s: string, from: nat): (i: int)
    requires from <= |s|
    ensures i == -1 || (from <= i < |s| && BreakAt(s, i) != -1)
    ensures forall k :: from <= k <= |s| && (i == -1 || k < i) ==> BreakAt(s, k) == -1
    decreases |s| - from
  {
    if BreakAt(s, from) != -1 then from else if from == |s| then -1 else FirstBreak(s, from + 1)
  }

  /** `re.split` on blank lines. */
  function Chunks(s: string): (cs: seq<string>)
    ensures |cs| >= 1
    decreases |s|
  {
    var i := FirstBreak(s, 0);
    if i < 0 then [s] else [s[..i]] + Chunks(s[BreakAt(s, i)..])
  }

  /** The paragraphs of a body. */
  function Paragraphs(body: string): seq<string> {
    Kept(Chunks(body))
  }

  // ---- what a paragraph looks like --------------------------------------------------------

  /** Two newlines with nothing but white space between them. */
  ghost predicate HasBlankLine(s: string) {
    exists i, j :: 0 <= i < j < |s| && s[i] == '\n' && s[j] == '\n' && AllSpace(s[i..j])
  }

  /** Non-empty, stripped, and without a blank line. */
  ghost predicate IsParagraph(s: string) {
    s != "" && Stripped(s) && !HasBlankLine(s)
  }

  ghost predicate AllParagraphs(parts: seq<string>) {
    forall k :: 0 <= k < |parts| ==> IsParagraph(parts[k])
  }

  lemma SpaceReaches(s: string, i: nat, j: nat)
    requires i <= j <= |s|
    requires forall k :: i <= k < j ==> IsSpace(s[k])
    ensures SpaceEnd(s, i) >= j
  {
  }

  /** A match starts at the first newline of every blank line. */
  lemma BlankLineBreaks(s: string, i: nat, j: nat)
    requires i < j < |s| && s[i] == '\n' && s[j] == '\n' && AllSpace(s[i..j])
    ensures BreakAt(s, i) != -1
  {
    forall k | i + 1 <= k < j + 1 ensures IsSpace(s[k]) {
      if k < j { assert s[i..j][k - i] == s[k]; }
    }
    SpaceReaches(s, i + 1, j + 1);
  }

  lemma BlankLineInPrefix(s: string, n: nat) returns (i: nat)
    requires n <= |s| && HasBlankLine(s[..n])
    ensures i < n && BreakAt(s, i) != -1
  {
    var t := s[..n];
    var a, b :| 0 <= a < b < |t| && t[a] == '\n' && t[b] == '\n' && AllSpace(t[a..b]);
    SliceOfSlice(s, 0, n, a, b);
    BlankLineBreaks(s, a, b);
    i := a;
  }

  lemma SliceOfSlice(s: string, lo: nat, hi: nat, i: nat, j: nat)
    requires lo <= hi <= |s| && i <= j <= hi - lo
    ensures s[lo..hi][i..j] == s[lo + i..lo + j]
  {
    var t := s[lo..hi];
    forall k | 0 <= k < j - i ensures t[i..j][k] == s[lo + i..lo + j][k] {
      assert t[i..j][k] == t[i + k];
    }
  }

  lemma BlankLineInside(s: string, lo: nat, hi: nat)
    requires lo <= hi <= |s|
    ensures HasBlankLine(s[lo..hi]) ==> HasBlankLine(s)
  {
    var t := s[lo..hi];
    if HasBlankLine(t) {
      var i, j :| 0 <= i < j < |t| && t[i] == '\n' && t[j] == '\n' && AllSpace(t[i..j]);
      SliceOfSlice(s, lo, hi, i, j);
      assert s[lo + i] == t[i] && s[lo + j] == t[j];
    }
  }

  /** The part before the first match has no blank line. */
  lemma LeadingChunk(s: string)
    ensures !HasBlankLine(if FirstBreak(s, 0) < 0 then s else s[..FirstBreak(s, 0)])
  {
    var n := if FirstBreak(s, 0) < 0 then |s| else FirstBreak(s, 0);
    assert s[..|s|] == s;
    if HasBlankLine(s[..n]) {
      var i := BlankLineInPrefix(s, n);
    }
  }

  lemma {:induction false} ChunksHaveNoBlankLine(s: string)
    ensures forall k :: 0 <= k < |Chunks(s)| ==> !HasBlankLine(Chunks(s)[k])
    decreases |s|
  {
    LeadingChunk(s);
    var i := FirstBreak(s, 0);
    if i >= 0 { ChunksHaveNoBlankLine(s[BreakAt(s, i)..]); }
  }

  lemma KeptAreParagraphs(chunks: seq<string>)
    requires forall k :: 0 <= k < |chunks| ==> !HasBlankLine(chunks[k])
    ensures AllParagraphs(Kept(chunks))
  {
    forall k | 0 <= k < |Kept(chunks)| ensures IsParagraph(Kept(chunks)[k]) {
      var i := KeptItem(chunks, Strip, Kept(chunks)[k]);
      StrippedIsParagraph(chunks[i]);
    }
  }

  lemma StrippedIsParagraph(chunk: string)
    requires !HasBlankLine(chunk) && Strip(chunk) != ""
    ensures IsParagraph(Strip(chunk))
  {
    var lo, hi := StripIsInside(chunk);
    StripIsStripped(chunk);
    BlankLineInside(chunk, lo, hi);
  }

  /** Every segment is non-empty, stripped, and free of blank lines. */
  lemma SegmentsAreParagraphs(body: string)
    ensures AllParagraphs(Paragraphs(body))
  {
    ChunksHaveNoBlankLine(body);
    KeptAreParagraphs(Chunks(body));
  }

  // ---- joining ------------------------------------------------------------------------------

  /** The body text the decompressor writes. */
  function Joined(parts: seq<string>): string {
    Join("\n\n", parts) + "\n"
  }

  /** Not ending in white space, and without a blank line. */
  ghost predicate Solid(s: string) {
    s != "" && !IsSpace(s[|s| - 1]) && !HasBlankLine(s)
  }

  /** A match that starts inside a text that does not end in white space ends inside it, whatever
      follows the text. */
  lemma BreakInside(p: string, rest: string, i: nat)
    requires p != "" && !IsSpace(p[|p| - 1]) && i < |p| && BreakAt(p + rest, i) != -1
    ensures HasBlankLine(p)
  {
    var s := p + rest;
    var e := BreakAt(s, i);
    assert s[i] == p[i] && s[|p| - 1] == p[|p| - 1];
    assert SpaceEnd(s, i + 1) <= |p| - 1;
    assert e - 1 < |p| - 1 && s[e - 1] == p[e - 1];
    forall k | i <= k < e - 1 ensures IsSpace(p[k]) { assert s[k] == p[k]; }
    assert AllSpace(p[i..e - 1]);
  }

  lemma NoBreakInside(p: string, rest: string)
    requires Solid(p)
    ensures forall i :: 0 <= i < |p| ==> BreakAt(p + rest, i) == -1
  {
    forall i | 0 <= i < |p| ensures BreakAt(p + rest, i) == -1 {
      if BreakAt(p + rest, i) != -1 { BreakInside(p, rest, i); }
    }
  }

  lemma OneChunk(s: string)
    requires forall k :: 0 <= k <= |s| ==> BreakAt(s, k) == -1
    ensures Chunks(s) == [s]
  {
    assert FirstBreak(s, 0) == -1;
  }

  lemma SolidIsInked(p: string)
    requires Solid(p)
    ensures Strip(p) != ""
  {
    StripToNothing(p);
  }

  lemma StripEndsAt(p: string)
    requires p != "" && !IsSpace(p[|p| - 1])
    ensures Strip(p + "\n") == Strip(p)
  {
    StripLeftBefore(p, "\n");
    var l := StripLeft(p);
    PadRight(l, "\n");
    PadRight(l, "");
    assert l + "" == l;
  }

  lemma {:induction false} StripLeftBefore(p: string, rest: string)
    requires p != "" && !IsSpace(p[|p| - 1])
    ensures StripLeft(p + rest) == StripLeft(p) + rest
    ensures StripLeft(p) != "" && StripLeft(p)[|StripLeft(p)| - 1] == p[|p| - 1]
  {
    assert (p + rest)[0] == p[0];
    if IsSpace(p[0]) {
      assert (p + rest)[1..] == p[1..] + rest;
      StripLeftBefore(p[1..], rest);
    }
  }

  lemma LastParagraph(p: string)
    requires Solid(p)
    ensures Paragraphs(p + "\n") == [Strip(p)]
  {
    NoBreakInside(p, "\n");
    OneChunk(p + "\n");
    StripEndsAt(p);
    SolidIsInked(p);
    KeptOnly(p + "\n");
  }

  lemma FirstBreakOf(p: string, rest: string)
    requires Solid(p) && rest != "" && !IsSpace(rest[0])
    ensures var s := p + ("\n\n" + rest);
      && FirstBreak(s, 0) == |p| && BreakAt(s, |p|) == |p| + 2 && s[..|p|] == p && s[|p| + 2..] == rest
  {
    var s := p + ("\n\n" + rest);
    var n := |p|;
    NoBreakInside(p, "\n\n" + rest);
    assert s[n] == '\n' && s[n + 1] == '\n' && s[n + 2] == rest[0];
    assert SpaceEnd(s, n + 1) == n + 2;
    assert BreakAt(s, n) == n + 2;
  }

  lemma FirstParagraph(p: string, rest: string)
    requires Solid(p) && rest != "" && !IsSpace(rest[0])
    ensures Paragraphs(p + ("\n\n" + rest)) == [Strip(p)] + Paragraphs(rest)
  {
    FirstBreakOf(p, rest);
    SolidIsInked(p);
    KeptFirst(p, Chunks(rest));
  }

  lemma NoParagraphs()
    ensures Paragraphs(Joined([])) == []
  {
    assert Joined([]) == "\n";
    OneChunk("\n");
    assert AllSpace("\n");
    StripToNothing("\n");
    KeptOnly("\n");
  }

  lemma JoinedStep(parts: seq<string>)
    requires |parts| >= 2
    ensures Joined(parts) == parts[0] + ("\n\n" + Joined(parts[1..]))
  {
  }

  lemma JoinedStart(parts: seq<string>)
    requires parts != [] && parts[0] != ""
    ensures Joined(parts)[0] == parts[0][0]
  {
  }

  /** Joining paragraphs and splitting the text again gives the same paragraphs. */
  lemma {:induction false} SplitOfJoined(parts: seq<string>)
    requires AllParagraphs(parts)
    ensures Paragraphs(Joined(parts)) == parts
  {
    if parts == [] {
      NoParagraphs();
    } else if |parts| == 1 {
      assert IsParagraph(parts[0]);
      LastParagraph(parts[0]);
      StripOfStripped(parts[0]);
    } else {
      SplitOfJoined(parts[1..]);
      SplitStep(parts);
    }
  }

  lemma SplitStep(parts: seq<string>)
    requires |parts| >= 2 && AllParagraphs(parts)
    requires Paragraphs(Joined(parts[1..])) == parts[1..]
    ensures Paragraphs(Joined(parts)) == parts
  {
    var rest := Joined(parts[1..]);
    assert IsParagraph(parts[1]);
    JoinedStart(parts[1..]);
    JoinedStep(parts);
    assert IsParagraph(parts[0]);
    FirstParagraph(parts[0], rest);
    StripOfStripped(parts[0]);
    assert parts == [parts[0]] + parts[1..];
  }

  // ---- the loop -------------------------------------------------------------------------------

  datatype Segment = Segment(id: string, content: string)

  function SegmentId(i: nat): string {
    "seg-" + Decimals.Padded(i, 3)
  }

  method Number(chunks: seq<string>) returns (segments: seq<Segment>)
    ensures |segments| == |chunks|
    ensures forall i :: 0 <= i < |segments| ==> segments[i] == Segment(SegmentId(i), chunks[i])
  {
    segments := [];
    for i := 0 to |chunks|
      invariant |segments| == i
      invariant forall k :: 0 <= k < i ==> segments[k] == Segment(SegmentId(k), chunks[k])
    {
      segments := segments + [Segment(SegmentId(i), chunks[i])];
    }
  }

  /** `segment_body`: the paragraphs, numbered from `seg-000`. */
  method SegmentBody(body: string) returns (segments: seq<Segment>)
    ensures |segments| == |Paragraphs(body)|
    ensures forall i :: 0 <= i < |segments| ==> segments[i] == Segment(SegmentId(i), Paragraphs(body)[i])
  {
    segments := Number(Paragraphs(body));
  }
}
