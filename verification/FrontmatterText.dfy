/** The text layer of frontmatter (samia/core/frontmatter.py): fenced lines, the search for the
    closing fence, and splitting into lines. */
module FrontmatterText {
  import opened Strings
  import opened Scalars

  const FENCE := "---"
  const CLOSE := "\n---"

  // ---- searching ------------------------------------------------------------------------------

  lemma MatchInTail(s: string, pat: string, n: nat, k: nat)
    requires n <= |s|
    ensures MatchAt(s, pat, n + k) <==> MatchAt(s[n..], pat, k)
  {
    if n + k + |pat| <= |s| {
      assert s[n + k..n + k + |pat|] == s[n..][k..k + |pat|];
    }
  }

  function Shifted(r: int, offset: nat): int {
    if r < 0 then -1 else r + offset
  }

  lemma FindInTail(s: string, pat: string, n: nat)
    requires n <= |s|
    ensures Find(s, pat, n) == Shifted(Find(s[n..], pat, 0), n)
  {
    var r := Find(s[n..], pat, 0);
    if r >= 0 {
      MatchInTail(s, pat, n, r);
      forall k | n <= k < n + r ensures !MatchAt(s, pat, k) { MatchInTail(s, pat, n, k - n); }
      FindUnique(s, pat, n, n + r);
    } else {
      var q := Find(s, pat, n);
      if q >= 0 { MatchInTail(s, pat, n, q - n); }
    }
  }

  lemma FindSkip(s: string, pat: string, a: nat, b: nat)
    requires a <= b && forall k :: a <= k < b ==> !MatchAt(s, pat, k)
    ensures Find(s, pat, a) == Find(s, pat, b)
  {
    var r := Find(s, pat, b);
    if r >= 0 { FindUnique(s, pat, a, r); }
  }

  lemma StartOf(f: string, rest: string)
    ensures StartsWith(f + ("\n" + rest), FENCE) <==> StartsWith(f, FENCE)
  {
    var s := f + ("\n" + rest);
    if |f| >= 3 {
      assert s[..3] == f[..3];
    } else if |s| >= 3 {
      assert s[|f|] == '\n';
    }
  }

  lemma CloseAt(s: string, k: nat)
    ensures MatchAt(s, CLOSE, k) ==> k < |s| && s[k] == '\n'
    ensures k < |s| && s[k] == '\n' ==> (MatchAt(s, CLOSE, k) <==> StartsWith(s[k + 1..], FENCE))
  {
    if k + 4 <= |s| {
      assert s[k..k + 4] == [s[k]] + s[k + 1..][..3];
      assert CLOSE == ['\n'] + FENCE;
      if s[k..k + 4] == CLOSE { assert s[k..k + 4][0] == '\n'; assert s[k + 1..][..3] == s[k..k + 4][1..]; }
    }
  }

  lemma NoCloseInLine(f: string, rest: string)
    requires '\n' !in f
    ensures forall k :: 0 <= k < |f| ==> !MatchAt(f + rest, CLOSE, k)
  {
    forall k | 0 <= k < |f| ensures !MatchAt(f + rest, CLOSE, k) {
      CloseAt(f + rest, k);
      assert (f + rest)[k] == f[k];
    }
  }

  lemma CloseAfterLine(f: string, rest: string)
    ensures MatchAt(f + ("\n" + rest), CLOSE, |f|) <==> StartsWith(rest, FENCE)
  {
    var s := f + ("\n" + rest);
    CloseAt(s, |f|);
    assert s[|f| + 1..] == rest;
  }

  lemma TailOf(f: string, rest: string)
    ensures (f + ("\n" + rest))[|f| + 1..] == rest
  {
  }

  lemma FindFrom(s: string, pat: string, n: nat)
    requires n < |s| && forall k :: 0 <= k < n ==> !MatchAt(s, pat, k)
    ensures Find(s, pat, 0) == if MatchAt(s, pat, n) then n else Shifted(Find(s[n + 1..], pat, 0), n + 1)
  {
    if MatchAt(s, pat, n) {
      FindUnique(s, pat, 0, n);
    } else {
      FindSkip(s, pat, 0, n + 1);
      FindInTail(s, pat, n + 1);
    }
  }

  /** The closing fence is never inside a line: it follows it, or is further on. */
  lemma FindCloseAfterLine(f: string, rest: string)
    requires '\n' !in f
    ensures Find(f + ("\n" + rest), CLOSE, 0) == if StartsWith(rest, FENCE) then |f| else Shifted(Find(rest, CLOSE, 0), |f| + 1)
  {
    NoCloseInLine(f, "\n" + rest);
    CloseAfterLine(f, rest);
    TailOf(f, rest);
    FindFrom(f + ("\n" + rest), CLOSE, |f|);
  }

  // ---- the layout --------------------------------------------------------------------------------

  /** The lines after the opening fence, the closing fence, and what follows it. */
  function Rendered(lines: seq<string>, tail: string): string {
    if lines == [] then "---\n" + tail else lines[0] + ("\n" + Rendered(lines[1..], tail))
  }

  /** How many lines a reader takes: up to the first later line that looks like the fence. */
  function Cut(lines: seq<string>): (m: nat)
    requires lines != []
    ensures 1 <= m <= |lines|
    ensures m < |lines| ==> StartsWith(lines[m], FENCE)
    ensures forall i :: 1 <= i < m ==> !StartsWith(lines[i], FENCE)
  {
    if |lines| == 1 || StartsWith(lines[1], FENCE) then 1 else 1 + Cut(lines[1..])
  }

  function Block(lines: seq<string>): string {
    Join("\n", lines)
  }

  lemma BlockStep(lines: seq<string>, m: nat)
    requires 1 <= m < |lines|
    ensures Block(lines[..m + 1]) == lines[0] + ("\n" + Block(lines[1..][..m]))
  {
    assert lines[..m + 1][1..] == lines[1..][..m];
  }

  lemma RenderedStart(lines: seq<string>, tail: string)
    ensures StartsWith(Rendered(lines, tail), FENCE) <==> lines == [] || StartsWith(lines[0], FENCE)
  {
    if lines == [] {
      assert Rendered(lines, tail)[..3] == FENCE;
    } else {
      StartOf(lines[0], Rendered(lines[1..], tail));
    }
  }

  ghost predicate NoNewlines(lines: seq<string>) {
    forall i :: 0 <= i < |lines| ==> '\n' !in lines[i]
  }

  /** `r` is `block` followed by a newline and the rendering of the remaining lines, and the
      closing fence is found right after `block`. */
  ghost predicate ClosesAfter(r: string, block: string, remaining: string) {
    Find(r, CLOSE, 0) == |block| && r == block + ("\n" + remaining)
  }

  lemma ClosesLater(f: string, rest: string, block: string, remaining: string)
    requires '\n' !in f && !StartsWith(rest, FENCE)
    requires ClosesAfter(rest, block, remaining)
    ensures ClosesAfter(f + ("\n" + rest), f + ("\n" + block), remaining)
  {
    FindCloseAfterLine(f, rest);
  }

  /** Where a reader of rendered lines finds the closing fence. */
  lemma {:induction false} CloseOfRendered(lines: seq<string>, tail: string)
    requires lines != [] && NoNewlines(lines)
    ensures ClosesAfter(Rendered(lines, tail), Block(lines[..Cut(lines)]), Rendered(lines[Cut(lines)..], tail))
    decreases |lines|
  {
    var f, rest := lines[0], Rendered(lines[1..], tail);
    RenderedStart(lines[1..], tail);
    if |lines| == 1 || StartsWith(lines[1], FENCE) {
      FindCloseAfterLine(f, rest);
      assert lines[..1] == [f];
    } else {
      var m := Cut(lines[1..]);
      CloseOfRendered(lines[1..], tail);
      ClosesLater(f, rest, Block(lines[1..][..m]), Rendered(lines[1..][m..], tail));
      BlockStep(lines, m);
      assert lines[1..][m..] == lines[m + 1..];
    }
  }

  // ---- splitting into lines ----------------------------------------------------------------------

  function LineEnd(s: string): (e: nat)
    ensures e <= |s| && OneLine(s[..e])
    ensures e < |s| ==> IsBreak(s[e])
  {
    if s == "" || IsBreak(s[0]) then 0
    else
      var e := LineEnd(s[1..]);
      assert s[..e + 1] == [s[0]] + s[1..][..e];
      e + 1
  }

  function AfterBreak(s: string, e: nat): nat
    requires e < |s|
  {
    if s[e] == '\r' && e + 1 < |s| && s[e + 1] == '\n' then e + 2 else e + 1
  }

  /** `str.splitlines` */
  function SplitLines(s: string): (lines: seq<string>)
    ensures forall i :: 0 <= i < |lines| ==> OneLine(lines[i])
    decreases |s|
  {
    if s == "" then []
    else
      var e := LineEnd(s);
      assert s[..|s|] == s;
      if e == |s| then [s] else [s[..e]] + SplitLines(s[AfterBreak(s, e)..])
  }

  lemma {:induction false} LineEndOf(f: string, rest: string)
    requires OneLine(f)
    ensures LineEnd(f + ("\n" + rest)) == |f|
    ensures LineEnd(f) == |f|
  {
    if f != "" {
      assert (f + ("\n" + rest))[1..] == f[1..] + ("\n" + rest);
      LineEndOf(f[1..], rest);
    }
  }

  ghost predicate ProperLines(lines: seq<string>) {
    forall i :: 0 <= i < |lines| ==> lines[i] != "" && OneLine(lines[i])
  }

  lemma SplitFirstLine(f: string, rest: string)
    requires OneLine(f)
    ensures SplitLines(f + ("\n" + rest)) == [f] + SplitLines(rest)
  {
    var s := f + ("\n" + rest);
    LineEndOf(f, rest);
    assert s[|f|] == '\n' && s[..|f|] == f && s[|f| + 1..] == rest;
  }

  lemma BlockCons(lines: seq<string>)
    requires |lines| >= 2
    ensures Block(lines) == lines[0] + ("\n" + Block(lines[1..]))
    ensures lines == [lines[0]] + lines[1..]
  {
    assert lines[0] + "\n" + Block(lines[1..]) == lines[0] + ("\n" + Block(lines[1..]));
  }

  lemma {:induction false} LinesOfBlock(lines: seq<string>)
    requires lines != [] && ProperLines(lines)
    ensures SplitLines(Block(lines)) == lines
    decreases |lines|
  {
    if |lines| == 1 {
      LineEndOf(lines[0], "");
      assert lines == [lines[0]];
    } else {
      LinesOfBlock(lines[1..]);
      SplitFirstLine(lines[0], Block(lines[1..]));
      BlockCons(lines);
    }
  }

  // ---- trimming ------------------------------------------------------------------------------------

  /** `s.lstrip("\n")` */
  function DropNewlines(s: string): (r: string)
    ensures |r| <= |s|
    ensures r == "" || r[0] != '\n'
  {
    if s != "" && s[0] == '\n' then DropNewlines(s[1..]) else s
  }

  /** The body as it comes back: no leading newline, no trailing white space but one newline. */
  function Trimmed(body: string): string {
    if AllSpace(body) then "" else DropNewlines(StripRight(body)) + "\n"
  }

  lemma {:induction false} DropNewlinesBefore(s: string, rest: string)
    requires DropNewlines(s) != ""
    ensures DropNewlines(s + rest) == DropNewlines(s) + rest
  {
    if s[0] == '\n' {
      assert (s + rest)[1..] == s[1..] + rest;
      DropNewlinesBefore(s[1..], rest);
    }
  }

  lemma {:induction false} DropsNotAll(s: string)
    requires s != "" && !IsSpace(s[|s| - 1])
    ensures DropNewlines(s) != "" && DropNewlines(s)[|DropNewlines(s)| - 1] == s[|s| - 1]
  {
    if s[0] == '\n' {
      DropsNotAll(s[1..]);
    }
  }

  lemma DropOne(s: string)
    ensures DropNewlines("\n" + s) == DropNewlines(s)
  {
    assert ("\n" + s)[1..] == s;
  }

  lemma TrimmedIs(body: string)
    ensures DropNewlines("\n" + (StripRight(body) + "\n")) == Trimmed(body)
  {
    var b := StripRight(body);
    StripRightToNothing(body);
    DropOne(b + "\n");
    if b == "" {
      DropOne("");
      assert "\n" + "" == b + "\n";
    } else {
      DropsNotAll(b);
      DropNewlinesBefore(b, "\n");
    }
  }

  lemma TrimmedNonEmpty(body: string)
    requires StripRight(body) != "" && body[0] != '\n'
    ensures Trimmed(body) == StripRight(body) + "\n"
  {
    StripRightToNothing(body);
    assert StripRight(body)[0] == body[0];
  }

  /** Trimming what is already free of leading newlines only normalises the end. */
  lemma TrimmedAgain(body: string)
    requires body == "" || body[0] != '\n'
    ensures StripRight(Trimmed(body)) == StripRight(body)
  {
    if StripRight(body) == "" {
      StripRightToNothing(body);
    } else {
      TrimmedNonEmpty(body);
      PadRight(StripRight(body), "\n");
    }
  }
}
