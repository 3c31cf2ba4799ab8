/** Reading and writing headers (samia/core/frontmatter.py) on any text: which fields a text has,
    and in which order they are written. */
module HeaderLaws {
  import opened Filters
  import opened Frontmatter
  import opened FrontmatterText
  import opened HeaderLines
  import opened KeyTexts
  import opened Options
  import opened Scalars
  import opened Strings

  // ---- stripped texts ----------------------------------------------------------------------------------

  /** The text without the white space around it. */
  ghost predicate Trims(text: string, name: string) {
    Stripped(name) && exists left, right :: Padded(text, left, name, right)
  }

  lemma TrimExactly(text: string, name: string)
    ensures Strip(text) == name <==> Trims(text, name)
  {
    var left, right := StripIsPadded(text);
    if Trims(text, name) {
      var l, r :| Padded(text, l, name, r);
      if name == "" {
        assert text == l + r;
        StripToNothing(text);
      } else {
        StripOfPadded(text, l, name, r);
      }
    }
  }

  // ---- one line ------------------------------------------------------------------------------------------

  /** The line is cut at its first colon, and the key is what stands before it, trimmed. */
  ghost predicate IsField(line: string, k: string, raw: string) {
    exists before :: CutAtColon(line, before, raw) && Trims(before, k)
  }

  ghost predicate CutAtColon(line: string, before: string, raw: string) {
    line == before + ":" + raw && ':' !in before
  }

  lemma ColonFound(line: string, before: string, raw: string)
    requires CutAtColon(line, before, raw)
    ensures var i := Find(line, ":", 0); i == |before| && line[..i] == before && line[i + 1..] == raw
  {
    FirstChar(before, ':', raw);
    assert line == before + [':'] + raw;
  }

  lemma CutAtFound(line: string, i: nat, before: string, raw: string)
    requires i as int == Find(line, ":", 0) && i < |line| && before == line[..i] && raw == line[i + 1..]
    ensures CutAtColon(line, before, raw)
  {
    forall n | 0 <= n < i ensures before[n] != ':' { MatchChar(line, ':', n); }
    MatchChar(line, ':', i);
    assert line == before + [line[i]] + raw;
  }

  lemma FieldFound(line: string, i: nat, before: string, k: string, raw: string)
    requires i as int == Find(line, ":", 0) && i < |line| && before == line[..i] && raw == line[i + 1..]
    requires Strip(before) == k
    ensures IsField(line, k, raw)
  {
    CutAtFound(line, i, before, raw);
    TrimExactly(before, k);
  }

  lemma FieldGiven(line: string, k: string, raw: string, before: string)
    requires CutAtColon(line, before, raw) && Trims(before, k)
    ensures SplitField(line) == Some((k, raw))
  {
    ColonFound(line, before, raw);
    TrimExactly(before, k);
  }

  lemma ColonPlace(line: string) returns (i: nat)
    requires SplitField(line).Some?
    ensures i as int == Find(line, ":", 0) && i < |line| && SplitField(line) == Some(FieldAt(line, i))
  {
    i := Find(line, ":", 0);
    assert MatchAt(line, ":", i);
  }

  lemma SidesOf(line: string, i: nat) returns (before: string, behind: string)
    requires i < |line|
    ensures before == line[..i] && behind == line[i + 1..] && FieldAt(line, i) == (Strip(before), behind)
  {
    before, behind := line[..i], line[i + 1..];
  }

  lemma FieldOfSplit(line: string, k: string, raw: string)
    requires SplitField(line) == Some((k, raw))
    ensures IsField(line, k, raw)
  {
    var i := ColonPlace(line);
    var before, behind := SidesOf(line, i);
    FieldFound(line, i, before, k, behind);
  }

  lemma SplitOfField(line: string, k: string, raw: string)
    requires IsField(line, k, raw)
    ensures SplitField(line) == Some((k, raw))
  {
    var before :| CutAtColon(line, before, raw) && Trims(before, k);
    FieldGiven(line, k, raw, before);
  }

  /** `line.partition(":")` with the key stripped. */
  lemma FieldExactly(line: string, k: string, raw: string)
    ensures SplitField(line) == Some((k, raw)) <==> IsField(line, k, raw)
  {
    if SplitField(line) == Some((k, raw)) { FieldOfSplit(line, k, raw); }
    if IsField(line, k, raw) { SplitOfField(line, k, raw); }
  }

  // ---- lines ---------------------------------------------------------------------------------------------

  /** A line ends with one break character, or with a carriage return and a newline. */
  ghost predicate IsEnd(b: string) {
    b == "\r\n" || (|b| == 1 && IsBreak(b[0]))
  }

  /** Lines with their ends; the last may have none unless it is empty, and a carriage return is not
      followed by a newline of its own. */
  ghost predicate AreLines(lines: seq<string>, ends: seq<string>) {
    && |lines| == |ends|
    && (forall i :: 0 <= i < |lines| ==> OneLine(lines[i]))
    && (forall i :: 0 <= i < |ends| ==> IsEnd(ends[i]) || (i == |ends| - 1 && ends[i] == "" && lines[i] != ""))
    && (forall i :: 0 <= i < |ends| - 1 && ends[i] == "\r" ==> lines[i + 1] != "" || ends[i + 1] != "\n")
  }

  function Ended(lines: seq<string>, ends: seq<string>): string
    requires |lines| == |ends|
  {
    if lines == [] then "" else lines[0] + (ends[0] + Ended(lines[1..], ends[1..]))
  }

  lemma {:induction false} LineEndBefore(line: string, rest: string)
    requires OneLine(line) && (rest == "" || IsBreak(rest[0]))
    ensures LineEnd(line + rest) == |line|
  {
    if line == "" {
      assert line + rest == rest;
    } else {
      assert (line + rest)[1..] == line[1..] + rest;
      LineEndBefore(line[1..], rest);
    }
  }

  lemma OneEnd(line: string, end: string, rest: string)
    requires OneLine(line) && IsEnd(end) && (end == "\r" && rest != "" ==> rest[0] != '\n')
    ensures SplitLines(line + (end + rest)) == [line] + SplitLines(rest)
  {
    var s := line + (end + rest);
    LineEndBefore(line, end + rest);
    AfterEnd(line, end, rest);
    Sides(line, end, rest);
    SplitAt(s, |line|, line, rest);
  }

  lemma SplitAt(s: string, e: nat, line: string, rest: string)
    requires e == LineEnd(s) && e < |s| && line == s[..e] && AfterBreak(s, e) <= |s| && rest == s[AfterBreak(s, e)..]
    ensures SplitLines(s) == [line] + SplitLines(rest)
  {
  }

  lemma Sides(line: string, end: string, rest: string)
    ensures var s := line + (end + rest); s[..|line|] == line && s[|line| + |end|..] == rest
  {
    var s := line + (end + rest);
    assert s == (line + end) + rest;
  }

  lemma AfterEnd(line: string, end: string, rest: string)
    requires IsEnd(end) && (end == "\r" && rest != "" ==> rest[0] != '\n')
    ensures AfterBreak(line + (end + rest), |line|) == |line| + |end|
  {
    var s, e := line + (end + rest), |line|;
    assert s[e] == end[0];
    if end == "\r\n" {
      assert s[e + 1] == end[1];
    } else if rest != "" {
      assert s[e + 1] == rest[0];
    }
  }

  /** `str.splitlines`: lines joined with any line ends are split at exactly these. */
  lemma {:induction false} LinesExactly(lines: seq<string>, ends: seq<string>)
    requires AreLines(lines, ends)
    ensures SplitLines(Ended(lines, ends)) == lines
    decreases |lines|
  {
    if lines != [] {
      var rest := Ended(lines[1..], ends[1..]);
      if ends[0] == "" {
        LineEndBefore(lines[0], "");
        assert rest == "" && lines[0] + ("" + rest) == lines[0] + "" == lines[0];
        assert lines == [lines[0]];
      } else {
        LinesExactly(lines[1..], ends[1..]);
        NextChar(lines, ends, rest);
        OneEnd(lines[0], ends[0], rest);
        assert lines == [lines[0]] + lines[1..];
      }
    }
  }

  lemma NextChar(lines: seq<string>, ends: seq<string>, rest: string)
    requires lines != [] && AreLines(lines, ends) && rest == Ended(lines[1..], ends[1..])
    ensures ends[0] == "\r" && rest != "" ==> rest[0] != '\n'
  {
    if ends[0] == "\r" && |lines| > 1 {
      if lines[1] != "" {
        assert rest[0] == lines[1][0] && !IsBreak(lines[1][0]);
      } else {
        assert ends[1] != "\n" && rest[0] == ends[1][0];
      }
    }
  }

  // ---- all lines -----------------------------------------------------------------------------------------

  /** The last of the lines that gives the key. */
  ghost predicate LastWith(lines: seq<string>, i: int, k: string, raw: string, c: Codec) {
    && 0 <= i < |lines| && c.split(lines[i]) == Some((k, raw))
    && forall j :: i < j < |lines| && c.split(lines[j]).Some? ==> c.split(lines[j]).value.0 != k
  }

  /** A header has a field exactly when some line gives it, with the value of the last such line. */
  lemma {:induction false} ValuesExactly(lines: seq<string>, k: string, c: Codec)
    ensures forall i, raw :: LastWith(lines, i, k, raw, c) ==>
              k in ReadLines(lines, c).fm && ReadLines(lines, c).fm[k] == c.read(raw)
    ensures (forall i, raw :: !LastWith(lines, i, k, raw, c)) ==> k !in ReadLines(lines, c).fm
  {
    if lines != [] {
      var init, n := lines[..|lines| - 1], |lines| - 1;
      ValuesExactly(init, k, c);
      forall i, raw ensures LastWith(lines, i, k, raw, c) <==>
        if i == n then c.split(lines[n]) == Some((k, raw))
        else LastWith(init, i, k, raw, c) && (c.split(lines[n]).None? || c.split(lines[n]).value.0 != k)
      {
        LastInInit(lines, i, k, raw, c);
      }
      if c.split(lines[n]).Some? && c.split(lines[n]).value.0 == k {
        assert LastWith(lines, n, k, c.split(lines[n]).value.1, c);
      }
    }
  }

  lemma LastInInit(lines: seq<string>, i: int, k: string, raw: string, c: Codec)
    requires lines != []
    ensures var n := |lines| - 1;
      LastWith(lines, i, k, raw, c) <==>
        if i == n then c.split(lines[n]) == Some((k, raw))
        else LastWith(lines[..n], i, k, raw, c) && (c.split(lines[n]).None? || c.split(lines[n]).value.0 != k)
  {
  }

  ghost predicate KeysOf(keys: seq<string>, lines: seq<string>, c: Codec) {
    && |keys| == |lines|
    && forall i :: 0 <= i < |keys| ==> c.split(lines[i]).Some? && c.split(lines[i]).value.0 == keys[i]
  }

  /** The key order lists the key of every line that gives one, repetitions included. */
  lemma {:induction false} OrderExactly(lines: seq<string>, c: Codec, gives: string -> bool) returns (kept: seq<string>)
    requires forall line :: gives(line) <==> c.split(line).Some?
    ensures IsFiltered(kept, lines, gives) && KeysOf(ReadLines(lines, c).order, kept, c)
  {
    if lines == [] {
      kept := [];
      NothingFiltered(gives);
    } else {
      var init, last := lines[..|lines| - 1], lines[|lines| - 1];
      var before := OrderExactly(init, c, gives);
      FilterLast(before, lines, gives, init);
      kept := if gives(last) then before + [last] else before;
    }
  }

  // ---- the order of emission -------------------------------------------------------------------------------

  /** The first place of a key that is still a field. */
  predicate FirstAt(order: seq<string>, i: int, fm: map<string, Val>) {
    0 <= i < |order| && order[i] in fm && forall j :: 0 <= j < i ==> order[j] != order[i]
  }

  ghost predicate FirstPlaces(at: seq<int>, order: seq<string>, fm: map<string, Val>) {
    Rising(at) && forall i :: i in at <==> FirstAt(order, i, fm)
  }

  ghost predicate KeysAt(keys: seq<string>, order: seq<string>, at: seq<int>) {
    |keys| == |at| && forall i :: 0 <= i < |keys| ==> 0 <= at[i] < |order| && keys[i] == order[at[i]]
  }

  lemma PlaceBehind(at: seq<int>, n: nat)
    requires Rising(at) && forall i :: i in at ==> i < n
    ensures Rising(at + [n])
  {
    forall i | 0 <= i < |at| ensures at[i] < n {
      var k := at[i];
      assert k in at;
    }
  }

  lemma {:induction false} FirstsExactly(order: seq<string>, fm: map<string, Val>) returns (at: seq<int>)
    ensures FirstPlaces(at, order, fm) && KeysAt(FirstOccurrences(order, fm), order, at)
  {
    if order == [] {
      at := [];
    } else {
      var init, n := order[..|order| - 1], |order| - 1;
      var before := FirstsExactly(init, fm);
      var listed := FirstOccurrences(init, fm);
      forall i: int | i != n ensures FirstAt(order, i, fm) <==> FirstAt(init, i, fm) {}
      assert FirstAt(order, n, fm) <==> order[n] in fm && order[n] !in listed;
      forall i | i in before ensures i < n { assert FirstAt(init, i, fm); }
      PlaceBehind(before, n);
      if FirstAt(order, n, fm) {
        at := before + [n];
        forall i ensures i in at <==> FirstAt(order, i, fm) { assert i in at <==> i in before || i == n; }
      } else {
        at := before;
      }
    }
  }

  lemma {:induction false} MissingExactly(keys: seq<string>, listed: seq<string>, rest: string -> bool)
    requires forall k :: rest(k) <==> k !in listed
    ensures IsFiltered(Missing(keys, listed), keys, rest)
  {
    if keys == [] {
      NothingFiltered(rest);
    } else {
      var init, last := keys[..|keys| - 1], keys[|keys| - 1];
      MissingExactly(init, listed, rest);
      FilterLast(Missing(init, listed), keys, rest, init);
      assert Missing(init, listed) + [] == Missing(init, listed);
    }
  }

  /** The fields are written in the listed order, each at the first place of its key, and then those
      that are not listed in the order in which they were set. */
  lemma EmissionExactly(h: Head, rest: string -> bool) returns (at: seq<int>, listed: seq<string>, others: seq<string>)
    requires forall k :: rest(k) <==> !(k in h.order && k in h.fm)
    ensures EmittedKeys(h) == listed + others
    ensures FirstPlaces(at, h.order, h.fm) && KeysAt(listed, h.order, at)
    ensures IsFiltered(others, h.keys, rest)
  {
    at := FirstsExactly(h.order, h.fm);
    listed := FirstOccurrences(h.order, h.fm);
    others := Missing(h.keys, listed);
    MissingExactly(h.keys, listed, rest);
  }

  // ---- the whole text --------------------------------------------------------------------------------------

  /** Four characters that begin with the fence, the header up to the first closing fence, and what
      follows it. */
  ghost predicate Fences(text: string, open: string, header: string, rest: string) {
    |open| == 4 && "---" <= open && text == open + (header + "\n---" + rest) && EndsAt(header, "\n---")
  }

  /** The text behind its leading newlines. */
  ghost predicate BehindNewlines(body: string, text: string) {
    && (exists newlines :: AllNewlines(newlines) && text == newlines + body)
    && (body == "" || body[0] != '\n')
  }

  ghost predicate AllNewlines(s: string) {
    forall i :: 0 <= i < |s| ==> s[i] == '\n'
  }

  lemma {:induction false} LeadingNewlines(text: string) returns (newlines: string)
    ensures AllNewlines(newlines) && text == newlines + DropNewlines(text)
  {
    newlines := "";
    if text != "" && text[0] == '\n' {
      var more := LeadingNewlines(text[1..]);
      newlines := [text[0]] + more;
    }
  }

  lemma BodyExactly(text: string)
    ensures BehindNewlines(DropNewlines(text), text)
  {
    var newlines := LeadingNewlines(text);
  }

  lemma CloseOfFenced(text: string, open: string, header: string, rest: string)
    requires Fences(text, open, header, rest)
    ensures StartsWith(text, FENCE) && Find(text, CLOSE, 4) == 4 + |header|
    ensures text[4..4 + |header|] == header && text[4 + |header| + 4..] == rest
  {
    var tail := header + CLOSE + rest;
    assert text[..3] == open[..3];
    assert text[4..] == tail;
    assert tail[|header|..|header| + 4] == CLOSE;
    forall k | 0 <= k < |header| ensures !MatchAt(tail, CLOSE, k) { MatchWithin(header + CLOSE, rest, CLOSE, k); }
    FindUnique(tail, CLOSE, 0, |header|);
    FindInTail(text, CLOSE, 4);
    assert tail[..|header|] == header && tail[|header| + 4..] == rest;
  }

  lemma NoEarlierClose(text: string, end: int, k: nat)
    requires 4 <= end && end + 4 <= |text| && k < end - 4 && !MatchAt(text, CLOSE, 4 + k)
    ensures !MatchAt(text[4..end + 4], CLOSE, k)
  {
    var prefix := text[..end + 4];
    assert prefix + text[end + 4..] == text;
    MatchWithin(prefix, text[end + 4..], CLOSE, 4 + k);
    MatchInTail(prefix, CLOSE, 4, k);
    assert prefix[4..] == text[4..end + 4];
  }

  lemma FencesOfText(text: string, end: int)
    requires StartsWith(text, FENCE) && end == Find(text, CLOSE, 4) && end >= 0
    ensures Fences(text, text[..4], text[4..end], text[end + 4..])
  {
    var header, rest := text[4..end], text[end + 4..];
    assert text[end..end + 4] == CLOSE;
    assert header + CLOSE == text[4..end + 4];
    assert text == text[..4] + (header + CLOSE + rest);
    assert text[..4][..3] == text[..3];
    forall k | 0 <= k < |header| ensures !MatchAt(header + CLOSE, CLOSE, k) { NoEarlierClose(text, end, k); }
  }

  /** A text has a header exactly when it is fenced; the header is read from the lines between the
      fences, and the body is what follows the closing fence, behind its leading newlines. */
  lemma ParseExactly(text: string, c: Codec)
    ensures ParseText(text, c).Parsed? <==> exists open, header, rest :: Fences(text, open, header, rest)
    ensures forall open, header, rest :: Fences(text, open, header, rest) ==>
              var p := ParseText(text, c);
              p.Parsed? && p.head == ReadLines(SplitLines(header), c) && BehindNewlines(p.body, rest)
  {
    forall open, header, rest | Fences(text, open, header, rest)
      ensures var p := ParseText(text, c);
        p.Parsed? && p.head == ReadLines(SplitLines(header), c) && BehindNewlines(p.body, rest)
    {
      CloseOfFenced(text, open, header, rest);
      BodyExactly(rest);
    }
    if ParseText(text, c).Parsed? { FencesOfText(text, Find(text, CLOSE, 4)); }
  }
}
