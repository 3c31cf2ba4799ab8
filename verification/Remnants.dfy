/** What a reader makes of a file whose body was joined from pooled segments (samia/core/ia.py,
    samia/core/frontmatter.py): the segments again, or, when the header was cut short at a key
    that looks like the fence, the segments with a rest of the header in front. */
module Remnants {
  import opened Strings
  import opened FrontmatterText
  import opened Segments

  // ---- a complete header ------------------------------------------------------------------------

  lemma {:induction false} JoinEnds(parts: seq<string>)
    requires parts != [] && AllParagraphs(parts)
    ensures var j := Join("\n\n", parts); j != "" && !IsSpace(j[0]) && !IsSpace(j[|j| - 1])
    decreases |parts|
  {
    assert IsParagraph(parts[0]);
    if |parts| > 1 {
      JoinEnds(parts[1..]);
      var rest, j := Join("\n\n", parts[1..]), Join("\n\n", parts);
      assert j == parts[0] + "\n\n" + rest;
      assert j[0] == parts[0][0] && j[|j| - 1] == rest[|rest| - 1];
    }
  }

  lemma JoinedIsTrimmed(parts: seq<string>)
    requires parts != [] && AllParagraphs(parts)
    ensures StripRight(Joined(parts)) + "\n" == Joined(parts) && Trimmed(Joined(parts)) == Joined(parts)
  {
    JoinEnds(parts);
    var j := Join("\n\n", parts);
    PadRight(j, "\n");
    assert Joined(parts)[0] == j[0];
    TrimmedNonEmpty(Joined(parts));
  }

  /** Behind a complete header the segments come back. */
  lemma TrimmedSegments(parts: seq<string>)
    requires AllParagraphs(parts)
    ensures Paragraphs(Trimmed(Joined(parts))) == parts
  {
    SplitOfJoined(parts);
    if parts == [] {
      assert Joined(parts) == "\n";
      OneChunk("");
      KeptOnly("");
    } else {
      JoinedIsTrimmed(parts);
    }
  }

  // ---- a header cut short -------------------------------------------------------------------------

  /** A line that starts with a character other than white space. */
  predicate Inked(line: string) {
    line != "" && !IsSpace(line[0]) && '\n' !in line
  }

  predicate AllInked(lines: seq<string>) {
    forall i :: 0 <= i < |lines| ==> Inked(lines[i])
  }

  lemma SpaceBetween(s: string, i: nat, j: nat, k: nat)
    requires i <= k < j <= |s| && AllSpace(s[i..j])
    ensures IsSpace(s[k])
  {
    assert s[i..j][k - i] == s[k];
  }

  lemma BlankLineBehind(line: string, x: string)
    requires '\n' !in line && x != "" && !IsSpace(x[0]) && HasBlankLine(line + ("\n" + x))
    ensures HasBlankLine(x)
  {
    var s, n := line + ("\n" + x), |line| + 1;
    var i, j :| 0 <= i < j < |s| && s[i] == '\n' && s[j] == '\n' && AllSpace(s[i..j]);
    assert s[n] == x[0] && forall k :: 0 <= k < |line| ==> s[k] == line[k];
    if i == |line| && n < j { SpaceBetween(s, i, j, n); }
    assert s[n..] == x;
    assert x[i - n] == '\n' && x[j - n] == '\n' && x[i - n..j - n] == s[i..j];
  }

  lemma SolidLine(line: string, x: string)
    requires '\n' !in line && Solid(x) && !IsSpace(x[0])
    ensures Solid(line + ("\n" + x))
  {
    var s := line + ("\n" + x);
    assert s[|s| - 1] == x[|x| - 1];
    if HasBlankLine(s) { BlankLineBehind(line, x); }
  }

  lemma {:induction false} RenderedSolid(lines: seq<string>, x: string)
    requires AllInked(lines) && Solid(x) && !IsSpace(x[0])
    ensures var r := Rendered(lines, x); Solid(r) && !IsSpace(r[0])
  {
    if lines == [] {
      assert Rendered(lines, x) == "---" + ("\n" + x);
      SolidLine("---", x);
    } else {
      RenderedSolid(lines[1..], x);
      assert Inked(lines[0]);
      SolidLine(lines[0], Rendered(lines[1..], x));
    }
  }

  lemma {:induction false} RenderedMore(lines: seq<string>, a: string, b: string)
    ensures Rendered(lines, a + b) == Rendered(lines, a) + b
  {
    if lines == [] {
      assert "---\n" + (a + b) == ("---\n" + a) + b;
    } else {
      RenderedMore(lines[1..], a, b);
      assert lines[0] + ("\n" + (Rendered(lines[1..], a) + b)) == (lines[0] + ("\n" + Rendered(lines[1..], a))) + b;
    }
  }

  lemma SolidSuffix(s: string, n: nat)
    requires Solid(s) && n < |s|
    ensures Solid(s[n..])
  {
    assert s[n..|s|] == s[n..];
    BlankLineInside(s, n, |s|);
  }

  /** What stays of the header lines: all but the three characters taken for the fence. */
  function Remnant(lines: seq<string>): string {
    var r := Rendered(lines, "");
    if |r| >= 3 then r[3..] else ""
  }

  lemma {:induction false} RenderedLength(lines: seq<string>, x: string)
    ensures |Rendered(lines, x)| >= 4 + |x|
  {
    if lines != [] { RenderedLength(lines[1..], x); }
  }

  lemma RemnantAndRest(lines: seq<string>, x: string)
    ensures |Rendered(lines, x)| >= 3 && Rendered(lines, x)[3..] == Remnant(lines) + x
  {
    RenderedLength(lines, "");
    RenderedMore(lines, "", x);
    assert "" + x == x;
  }

  lemma RemnantStart(lines: seq<string>)
    requires lines != [] && |lines[0]| >= 4
    ensures exists rest :: Remnant(lines) == lines[0][3..] + ("\n" + rest)
  {
    var rest := Rendered(lines[1..], "");
    assert (lines[0] + ("\n" + rest))[3..] == lines[0][3..] + ("\n" + rest);
  }

  lemma InkedPrefix(f: string, rest: string)
    requires !AllSpace(f)
    ensures !AllSpace(f + rest)
  {
    var i :| 0 <= i < |f| && !IsSpace(f[i]);
    assert (f + rest)[i] == f[i];
  }

  /** A first line with ink makes a first paragraph. */
  lemma SomeParagraph(f: string, rest: string)
    requires '\n' !in f && !AllSpace(f)
    ensures Paragraphs(f + ("\n" + rest)) != []
  {
    var s := f + ("\n" + rest);
    var i := FirstBreak(s, 0);
    if i < 0 {
      InkedPrefix(f, "\n" + rest);
      StripToNothing(s);
      KeptOnly(s);
    } else {
      assert forall k :: 0 <= k < |f| ==> s[k] == f[k];
      assert s[..i] == f + s[|f|..i];
      InkedPrefix(f, s[|f|..i]);
      StripToNothing(s[..i]);
      KeptFirst(s[..i], Chunks(s[BreakAt(s, i)..]));
    }
  }

  lemma SpaceTail(y: string)
    requires !AllSpace(y) && IsSpace(y[0])
    ensures y != [] && !AllSpace(y[1..])
  {
    assert y == [y[0]] + y[1..];
  }

  lemma StripOne(y: string)
    requires y != "" && IsSpace(y[0])
    ensures StripLeft(y) == StripLeft(y[1..])
  {
  }

  lemma {:induction false} StripGlued(y: string, p: string)
    requires !AllSpace(y) && p != "" && !IsSpace(p[|p| - 1])
    ensures StripLeft(y + p) == StripLeft(y) + p
  {
    if IsSpace(y[0]) {
      assert (y + p)[1..] == y[1..] + p;
      SpaceTail(y);
      StripOne(y);
      StripOne(y + p);
      StripGlued(y[1..], p);
    } else {
      assert (y + p)[0] == y[0];
    }
  }

  lemma GluedStrip(y: string, p: string)
    requires !AllSpace(y) && p != "" && !IsSpace(p[|p| - 1])
    ensures Strip(y + p) == StripLeft(y) + p && !AllSpace(StripLeft(y))
  {
    StripGlued(y, p);
    StripLeftToNothing(y);
    var q := StripLeft(y) + p;
    assert q[|q| - 1] == p[|p| - 1];
    assert !IsSpace(StripLeft(y)[0]);
  }

  /** What follows the first segment in the joined body. */
  function AfterFirst(parts: seq<string>): string {
    if |parts| <= 1 then "\n" else "\n\n" + Joined(parts[1..])
  }

  lemma JoinedFirst(parts: seq<string>)
    requires parts != []
    ensures Joined(parts) == parts[0] + AfterFirst(parts)
  {
    if |parts| > 1 { JoinedStep(parts); }
  }

  lemma GluedParagraphs(q: string, parts: seq<string>)
    requires Solid(q) && parts != [] && AllParagraphs(parts)
    ensures Paragraphs(q + AfterFirst(parts)) == [Strip(q)] + parts[1..]
  {
    if |parts| == 1 {
      LastParagraph(q);
    } else {
      assert IsParagraph(parts[1]);
      JoinedStart(parts[1..]);
      SplitOfJoined(parts[1..]);
      FirstParagraph(q, Joined(parts[1..]));
    }
  }

  lemma RemnantIsInked(lines: seq<string>)
    requires lines != [] && |lines[0]| >= 4 && !AllSpace(lines[0][3..])
    ensures !AllSpace(Remnant(lines))
  {
    RemnantStart(lines);
    var rest :| Remnant(lines) == lines[0][3..] + ("\n" + rest);
    InkedPrefix(lines[0][3..], "\n" + rest);
  }

  lemma RemnantSolid(lines: seq<string>, p: string)
    requires lines != [] && AllInked(lines) && IsParagraph(p)
    ensures Solid(Remnant(lines) + p)
  {
    RenderedSolid(lines, p);
    RemnantAndRest(lines, p);
    RenderedLength(lines, p);
    SolidSuffix(Rendered(lines, p), 3);
  }

  /** The body read behind a header cut short. */
  function CutBody(lines: seq<string>, parts: seq<string>): string {
    Remnant(lines) + (StripRight(Joined(parts)) + "\n")
  }

  lemma CutBodyParts(lines: seq<string>, parts: seq<string>)
    requires parts != [] && AllParagraphs(parts)
    ensures CutBody(lines, parts) == (Remnant(lines) + parts[0]) + AfterFirst(parts)
  {
    JoinedIsTrimmed(parts);
    JoinedFirst(parts);
    Regroup(Remnant(lines), parts[0], AfterFirst(parts));
  }

  lemma Regroup(a: string, b: string, c: string)
    ensures a + (b + c) == (a + b) + c
  {
  }

  lemma CutBodyGlued(lines: seq<string>, parts: seq<string>)
    requires lines != [] && AllInked(lines) && |lines[0]| >= 4 && !AllSpace(lines[0][3..])
    requires parts != [] && AllParagraphs(parts)
    ensures var y := StripLeft(Remnant(lines));
      !AllSpace(y) && Paragraphs(CutBody(lines, parts)) == [y + parts[0]] + parts[1..]
  {
    assert IsParagraph(parts[0]);
    RemnantIsInked(lines);
    RemnantSolid(lines, parts[0]);
    CutBodyParts(lines, parts);
    GluedParagraphs(Remnant(lines) + parts[0], parts);
    GluedStrip(Remnant(lines), parts[0]);
  }

  lemma CutBodyAlone(lines: seq<string>)
    requires lines != [] && AllInked(lines) && |lines[0]| >= 4 && !AllSpace(lines[0][3..])
    ensures Paragraphs(CutBody(lines, [])) != []
  {
    RemnantStart(lines);
    var f, tail := lines[0][3..], StripRight(Joined([])) + "\n";
    var rest :| Remnant(lines) == f + ("\n" + rest);
    assert (f + ("\n" + rest)) + tail == f + ("\n" + (rest + tail));
    assert '\n' !in f by { assert Inked(lines[0]); }
    SomeParagraph(f, rest + tail);
  }

  /** The reader drops leading newlines; there are none. */
  lemma RemnantStays(lines: seq<string>, tail: string)
    requires lines != [] && AllInked(lines) && |lines[0]| >= 4
    ensures DropNewlines(Remnant(lines) + tail) == Remnant(lines) + tail
  {
    RemnantStart(lines);
    assert Inked(lines[0]) && lines[0][3] in lines[0];
    assert (Remnant(lines) + tail)[0] == lines[0][3];
  }
}
