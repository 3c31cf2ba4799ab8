/** Reading one frontmatter value (samia/core/frontmatter.py) from any text. */
module ScalarLaws {
  import opened Filters
  import opened HeaderLaws
  import opened KeyTexts
  import opened Options
  import opened Scalars
  import opened Strings
  import Decimals

  // ---- whole numbers -------------------------------------------------------------------------------------

  /** Groups of digits. */
  ghost predicate AreGroups(groups: seq<string>) {
    groups != [] && forall i :: 0 <= i < |groups| ==> groups[i] != "" && Decimals.AllDigits(groups[i])
  }

  function Flattened(groups: seq<string>): string {
    if groups == [] then "" else groups[0] + Flattened(groups[1..])
  }

  /** Digits in groups with single underscores between them denote the number of the digits. */
  ghost predicate Denotes(s: string, n: nat) {
    exists groups :: AreGroups(groups) && s == Join("_", groups) && IsValue(Flattened(groups), n)
  }

  ghost predicate IsValue(digits: string, n: nat) {
    Decimals.AllDigits(digits) && Decimals.Value(digits) == n
  }

  /** A whole number: digits, perhaps behind a sign. */
  ghost predicate IsWhole(s: string, n: int) {
    || (n >= 0 && Denotes(s, n))
    || (s != "" && s[0] == '+' && n >= 0 && Denotes(s[1..], n))
    || (s != "" && s[0] == '-' && n <= 0 && Denotes(s[1..], -n))
  }

  lemma {:induction false} DigitsSum(a: string, b: string)
    ensures DigitsIn(a + b) == DigitsIn(a) + DigitsIn(b)
    decreases |b|
  {
    if b == "" {
      assert a + b == a;
    } else {
      var init, last := b[..|b| - 1], b[|b| - 1];
      DigitsSum(a, init);
      assert (a + b)[..|a + b| - 1] == a + init && (a + b)[|a + b| - 1] == last;
    }
  }

  lemma {:induction false} GroupsAreInt(groups: seq<string>)
    requires AreGroups(groups)
    ensures IntBody(Join("_", groups)) && DigitsIn(Join("_", groups)) == Flattened(groups)
    decreases |groups|
  {
    var g := groups[0];
    if |groups| == 1 {
      DigitsOfDigits(g);
      assert Flattened(groups) == g + Flattened(groups[1..]) == g + "" == g;
    } else {
      var rest := Join("_", groups[1..]);
      forall i | 0 <= i < |groups[1..]| ensures groups[1..][i] != "" && Decimals.AllDigits(groups[1..][i]) {
        assert groups[1..][i] == groups[i + 1];
      }
      GroupsAreInt(groups[1..]);
      GroupBefore(g, rest);
      DigitsBefore(g, rest);
    }
  }

  lemma NoDigit()
    ensures DigitsIn("_") == ""
  {
    assert "_"[..0] == "";
  }

  lemma DigitsBefore(g: string, rest: string)
    requires Decimals.AllDigits(g)
    ensures DigitsIn(g + "_" + rest) == g + DigitsIn(rest)
  {
    DigitsOfDigits(g);
    DigitsSum(g + "_", rest);
    DigitsSum(g, "_");
    NoDigit();
    assert g + "" == g;
  }

  lemma GroupBefore(g: string, rest: string)
    requires g != "" && Decimals.AllDigits(g) && IntBody(rest)
    ensures IntBody(g + "_" + rest)
  {
    var s := g + "_" + rest;
    forall i | 0 <= i < |s| ensures Decimals.IsDigit(s[i]) || s[i] == '_' {
      if i > |g| { assert s[i] == rest[i - |g| - 1]; }
    }
    forall i | 0 < i < |s| && s[i] == '_' ensures Decimals.IsDigit(s[i - 1]) {
      if i > |g| {
        assert s[i] == rest[i - |g| - 1];
        assert i > |g| + 1;
        assert s[i - 1] == rest[i - |g| - 2];
      }
    }
    assert s[|s| - 1] == rest[|rest| - 1];
  }

  lemma {:induction false} FirstUnderscore(s: string, n: nat) returns (k: nat)
    requires n < |s| && s[n] == '_'
    ensures k <= n && s[k] == '_' && forall j :: 0 <= j < k ==> s[j] != '_'
    decreases n
  {
    if j :| 0 <= j < n && s[j] == '_' { k := FirstUnderscore(s, j); } else { k := n; }
  }

  lemma {:induction false} IntHasGroups(s: string) returns (groups: seq<string>)
    requires IntBody(s)
    ensures AreGroups(groups) && s == Join("_", groups)
    decreases |s|
  {
    if n :| 0 <= n < |s| && s[n] == '_' {
      var k := FirstUnderscore(s, n);
      var g, rest := s[..k], s[k + 1..];
      RestIsInt(s, k);
      var more := IntHasGroups(rest);
      groups := [g] + more;
      assert groups[1..] == more;
      assert s == g + "_" + rest;
    } else {
      groups := [s];
    }
  }

  lemma RestIsInt(s: string, k: nat)
    requires IntBody(s) && k < |s| && s[k] == '_'
    ensures k > 0 && IntBody(s[k + 1..])
  {
    var rest := s[k + 1..];
    assert k < |s| - 1;
    assert s[k + 1] != '_';
    assert rest[0] == s[k + 1] && rest[|rest| - 1] == s[|s| - 1];
    forall i | 0 < i < |rest| && rest[i] == '_' ensures Decimals.IsDigit(rest[i - 1]) { assert s[k + 1 + i] == '_'; }
  }

  lemma BodyExactly(s: string, n: nat)
    ensures IntBody(s) && DigitValue(s) == n <==> Denotes(s, n)
  {
    if IntBody(s) {
      var groups := IntHasGroups(s);
      GroupsAreInt(groups);
      assert IsValue(Flattened(groups), DigitValue(s));
    }
    if Denotes(s, n) {
      var groups :| AreGroups(groups) && s == Join("_", groups) && IsValue(Flattened(groups), n);
      GroupsAreInt(groups);
    }
  }

  lemma SignedBodies(s: string)
    requires s != "" && (s[0] == '+' || s[0] == '-')
    ensures !IntBody(s)
  {
  }

  /** `int` on a stripped text. */
  lemma WholeExactly(s: string, n: int)
    ensures ParseInt(s) == Some(n) <==> IsWhole(s, n)
  {
    var m: nat := if n < 0 then -n else n;
    BodyExactly(s, m);
    if s != "" { BodyExactly(s[1..], m); }
    if s != "" && (s[0] == '+' || s[0] == '-') { SignedBodies(s); }
  }

  // ---- words, lists and the choice between them ------------------------------------------------------------

  /** The word in any mix of cases. */
  ghost predicate SpellsWord(s: string, lower: string, upper: string)
    requires |lower| == |upper|
  {
    |s| == |lower| && forall i :: 0 <= i < |s| ==> s[i] == lower[i] || s[i] == upper[i]
  }

  lemma WordsExactly(s: string)
    ensures BoolWord(s) == Some(true) <==> SpellsWord(s, "true", "TRUE")
    ensures BoolWord(s) == Some(false) <==> SpellsWord(s, "false", "FALSE")
  {
  }

  ghost predicate TrimmedPieces(items: seq<string>, pieces: seq<string>) {
    |items| == |pieces| && forall i :: 0 <= i < |items| ==> Trims(pieces[i], items[i])
  }

  ghost predicate StripsOf(items: seq<string>, pieces: seq<string>, strip: string -> string) {
    |items| == |pieces| && forall i :: 0 <= i < |items| ==> items[i] == strip(pieces[i])
  }

  lemma {:induction false} KeptPieces(parts: seq<string>, strip: string -> string, inked: string -> bool)
    returns (kept: seq<string>)
    requires forall p :: inked(p) <==> strip(p) != ""
    ensures IsFiltered(kept, parts, inked) && StripsOf(KeptOf(parts, strip), kept, strip)
  {
    if parts == [] {
      kept := [];
      NothingFiltered(inked);
    } else {
      var rest := KeptPieces(parts[1..], strip, inked);
      FilterFirst(rest, parts, inked);
      kept := if inked(parts[0]) then [parts[0]] + rest else rest;
      if !inked(parts[0]) { assert [] + KeptOf(parts[1..], strip) == KeptOf(parts[1..], strip); }
    }
  }

  /** The items between the commas, trimmed, without those that are blank. */
  lemma ItemsKept(parts: seq<string>, inked: string -> bool) returns (kept: seq<string>)
    requires forall p :: inked(p) <==> !AllSpace(p)
    ensures IsFiltered(kept, parts, inked) && TrimmedPieces(Kept(parts), kept)
  {
    forall p ensures inked(p) <==> Strip(p) != "" { StripToNothing(p); }
    kept := KeptPieces(parts, Strip, inked);
    forall i | 0 <= i < |kept| ensures Trims(kept[i], Kept(parts)[i]) { TrimExactly(kept[i], Strip(kept[i])); }
  }

  /** A list is read by cutting at every comma. */
  lemma ItemsExactly(inner: string, inked: string -> bool) returns (body: string, parts: seq<string>, kept: seq<string>)
    requires forall p :: inked(p) <==> !AllSpace(p)
    ensures Trims(inner, body) && (body == "" ==> ItemsOf(inner) == [])
    ensures body != "" ==>
              IsSplit(body, ",", parts) && IsFiltered(kept, parts, inked) && TrimmedPieces(ItemsOf(inner), kept)
  {
    body := Strip(inner);
    TrimExactly(inner, body);
    parts := Split(body, ",");
    SplitExactly(body, ",", parts);
    kept := ItemsKept(parts, inked);
  }

  /** What a text reads as, once trimmed: nothing, a truth value, a list, a number if it is one, and
      else itself. */
  ghost predicate ReadsAs(s: string, v: Val, c: FloatCodec) {
    if s == "" then v == Str("")
    else if SpellsWord(s, "true", "TRUE") then v == Bool(true)
    else if SpellsWord(s, "false", "FALSE") then v == Bool(false)
    else if |s| >= 2 && s[0] == '[' && s[|s| - 1] == ']' && '\n' !in s[1..|s| - 1] then v == List(ItemsOf(s[1..|s| - 1]))
    else ReadsAsNumber(s, v, c)
  }

  ghost predicate ReadsAsNumber(s: string, v: Val, c: FloatCodec) {
    if '.' in s then (if c.read(s).Some? then v == Float(c.read(s).value) else v == Str(s))
    else (v.Int? && IsWhole(s, v.n)) || (v == Str(s) && forall n :: !IsWhole(s, n))
  }

  lemma NumberExactly(s: string, c: FloatCodec)
    ensures ReadsAsNumber(s, ParseNumber(s, c), c)
  {
    forall n ensures ParseInt(s) == Some(n) <==> IsWhole(s, n) { WholeExactly(s, n); }
  }

  lemma StrippedExactly(s: string, c: FloatCodec)
    ensures ReadsAs(s, ParseStripped(s, c), c)
  {
    WordsExactly(s);
    NumberExactly(s, c);
  }

  lemma ValueExactly(raw: string, c: FloatCodec) returns (s: string)
    ensures Trims(raw, s) && ReadsAs(s, ParseVal(raw, c), c)
  {
    s := Strip(raw);
    TrimExactly(raw, s);
    StrippedExactly(s, c);
  }
}
