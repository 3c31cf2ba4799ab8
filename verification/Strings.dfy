/** The Python string operations the modelled code uses. */
module Strings {

  /** `str.isspace` for one character; the regular-expression class `\s` is the same set. */
  predicate IsSpace(c: char) {
    var u := c as int;
    || 0x09 <= u <= 0x0D
    || 0x1C <= u <= 0x20
    || u == 0x85 || u == 0xA0 || u == 0x1680 || u == 0x2028 || u == 0x2029 || u == 0x202F || u == 0x205F || u == 0x3000
    || 0x2000 <= u <= 0x200A
  }

  function StripLeft(s: string): (r: string)
    ensures |r| <= |s| && r == s[|s| - |r|..]
    ensures r == [] || !IsSpace(r[0])
  {
    if s != [] && IsSpace(s[0]) then StripLeft(s[1..]) else s
  }

  function StripRight(s: string): (r: string)
    ensures r <= s
    ensures r == [] || !IsSpace(r[|r| - 1])
  {
    if s != [] && IsSpace(s[|s| - 1]) then StripRight(s[..|s| - 1]) else s
  }

  /** `str.strip()` */
  function Strip(s: string): string {
    StripRight(StripLeft(s))
  }

  /** Neither end is white space. */
  predicate Stripped(s: string) {
    s == [] || (!IsSpace(s[0]) && !IsSpace(s[|s| - 1]))
  }

  predicate AllSpace(s: string) {
    forall i :: 0 <= i < |s| ==> IsSpace(s[i])
  }

  lemma StripIsStripped(s: string)
    ensures Stripped(Strip(s))
    ensures |Strip(s)| <= |s|
  {
    var l := StripLeft(s);
    var r := StripRight(l);
    if r != [] {
      assert r[0] == l[0];
    }
  }

  lemma StripOfStripped(s: string)
    requires Stripped(s)
    ensures Strip(s) == s
  {
  }

  lemma {:induction false} StripLeftToNothing(s: string)
    ensures StripLeft(s) == [] <==> AllSpace(s)
  {
    if s != [] && IsSpace(s[0]) {
      StripLeftToNothing(s[1..]);
      assert s == [s[0]] + s[1..];
    }
  }

  lemma {:induction false} StripRightToNothing(s: string)
    ensures StripRight(s) == [] <==> AllSpace(s)
  {
    if s != [] && IsSpace(s[|s| - 1]) {
      StripRightToNothing(s[..|s| - 1]);
      assert s == s[..|s| - 1] + [s[|s| - 1]];
    }
  }

  lemma StripToNothing(s: string)
    ensures Strip(s) == [] <==> AllSpace(s)
  {
    var l := StripLeft(s);
    StripLeftToNothing(s);
    StripRightToNothing(l);
    if l != [] { assert !AllSpace(l); }
  }

  /** The characters of the stripped text come from the text. */
  lemma StripCharacters(s: string, c: char)
    requires c in Strip(s)
    ensures c in s
  {
    var l := StripLeft(s);
    assert c in l;
  }

  lemma {:induction false} PadLeft(left: string, s: string)
    requires AllSpace(left) && s != "" && !IsSpace(s[0])
    ensures StripLeft(left + s) == s
  {
    if left == "" {
      assert left + s == s;
    } else {
      assert (left + s)[0] == left[0] && (left + s)[1..] == left[1..] + s;
      PadLeft(left[1..], s);
    }
  }

  lemma {:induction false} PadRight(s: string, right: string)
    requires AllSpace(right) && s != "" && !IsSpace(s[|s| - 1])
    ensures StripRight(s + right) == s
  {
    if right == "" {
      assert s + right == s;
    } else {
      var n := |right| - 1;
      assert (s + right)[|s| + n] == right[n] && (s + right)[..|s| + n] == s + right[..n];
      PadRight(s, right[..n]);
    }
  }

  lemma FrontAgain(s: string, a: string, b: string)
    requires s != "" && s[1..] == a + b
    ensures s == ([s[0]] + a) + b
  {
    assert s == [s[0]] + s[1..];
  }

  lemma BackAgain(s: string, a: string, b: string)
    requires s != "" && s[..|s| - 1] == a + b
    ensures s == a + (b + [s[|s| - 1]])
  {
    assert s == s[..|s| - 1] + [s[|s| - 1]];
  }

  lemma {:induction false} LeftSpace(s: string) returns (left: string)
    ensures s == left + StripLeft(s) && AllSpace(left)
  {
    if s != "" && IsSpace(s[0]) {
      var rest := LeftSpace(s[1..]);
      left := [s[0]] + rest;
      FrontAgain(s, rest, StripLeft(s[1..]));
    } else {
      left := "";
    }
  }

  lemma {:induction false} RightSpace(s: string) returns (right: string)
    ensures s == StripRight(s) + right && AllSpace(right)
  {
    if s != "" && IsSpace(s[|s| - 1]) {
      var rest := RightSpace(s[..|s| - 1]);
      right := rest + [s[|s| - 1]];
      BackAgain(s, StripRight(s[..|s| - 1]), rest);
    } else {
      right := "";
    }
  }

  /** A text in its white space. */
  lemma Padding(s: string) returns (left: string, right: string)
    ensures s == left + (Strip(s) + right) && AllSpace(left) && AllSpace(right) && Stripped(Strip(s))
  {
    StripIsStripped(s);
    left := LeftSpace(s);
    right := RightSpace(StripLeft(s));
  }

  lemma StripIsInside(s: string) returns (lo: nat, hi: nat)
    ensures lo <= hi <= |s| && Strip(s) == s[lo..hi]
  {
    var l := StripLeft(s);
    var r := StripRight(l);
    lo := |s| - |l|;
    hi := lo + |r|;
    assert r == l[..|r|];
  }

  predicate StartsWith(s: string, pat: string) {
    pat <= s
  }

  predicate EndsWith(s: string, pat: string) {
    |pat| <= |s| && s[|s| - |pat|..] == pat
  }

  predicate MatchAt(s: string, pat: string, k: int) {
    0 <= k && k + |pat| <= |s| && s[k..k + |pat|] == pat
  }

  lemma MatchChar(s: string, c: char, k: int)
    ensures MatchAt(s, [c], k) <==> 0 <= k < |s| && s[k] == c
  {
    if 0 <= k < |s| { assert s[k..k + 1] == [s[k]]; }
  }

  /** `s.find(pat, from)`: the least match at or after `from`, or -1. */
  function Find(s: string, pat: string, from: nat): (r: int)
    ensures r == -1 || (from <= r && MatchAt(s, pat, r))
    ensures forall k :: from <= k && (r == -1 || k < r) ==> !MatchAt(s, pat, k)
    decreases |s| - from
  {
    if from + |pat| > |s| then -1
    else if s[from..from + |pat|] == pat then from
    else if from == |s| then -1
    else Find(s, pat, from + 1)
  }

  lemma FindUnique(s: string, pat: string, from: nat, r: int)
    requires from <= r && MatchAt(s, pat, r)
    requires forall k :: from <= k < r ==> !MatchAt(s, pat, k)
    ensures Find(s, pat, from) == r
  {
  }

  /** `s.split(sep)` for a non-empty separator. */
  function Split(s: string, sep: string): (parts: seq<string>)
    requires sep != []
    ensures |parts| >= 1
    decreases |s|
  {
    var i := Find(s, sep, 0);
    if i < 0 then [s] else [s[..i]] + Split(s[i + |sep|..], sep)
  }

  /** `sep.join(parts)` */
  function Join(sep: string, parts: seq<string>): string {
    if parts == [] then ""
    else if |parts| == 1 then parts[0]
    else parts[0] + sep + Join(sep, parts[1..])
  }

  lemma FirstChar(a: string, c: char, rest: string)
    requires c !in a
    ensures Find(a + [c] + rest, [c], 0) == |a|
  {
    var s := a + [c] + rest;
    MatchChar(s, c, |a|);
    forall k | 0 <= k < |a| ensures !MatchAt(s, [c], k) {
      MatchChar(s, c, k);
      assert s[k] == a[k];
    }
    FindUnique(s, [c], 0, |a|);
  }

  lemma SplitHead(a: string, c: char, rest: string)
    requires c !in a
    ensures Split(a + [c] + rest, [c]) == [a] + Split(rest, [c])
  {
    var s := a + [c] + rest;
    FirstChar(a, c, rest);
    assert s[..|a|] == a && s[|a| + 1..] == rest;
  }

  lemma SplitNone(a: string, c: char)
    requires c !in a
    ensures Split(a, [c]) == [a]
  {
    forall k ensures !MatchAt(a, [c], k) { MatchChar(a, c, k); }
  }

  lemma NoneBeforeFirst(s: string, c: char, n: nat, x: char)
    requires n <= |s| && forall k :: 0 <= k < n ==> !MatchAt(s, [c], k)
    requires x in s[..n]
    ensures x in s && x != c
  {
    var j :| 0 <= j < n && s[j] == x;
    MatchChar(s, c, j);
  }

  function FirstPart(s: string, c: char): string {
    var i := Find(s, [c], 0);
    if i < 0 then s else s[..i]
  }

  lemma SplitUnfold(s: string, c: char)
    ensures var i := Find(s, [c], 0);
      Split(s, [c]) == [FirstPart(s, c)] + if i < 0 then [] else Split(s[i + 1..], [c])
  {
  }

  lemma FirstPartIsClean(s: string, c: char, x: char)
    requires x in FirstPart(s, c)
    ensures x in s && x != c
  {
    var i := Find(s, [c], 0);
    assert s[..|s|] == s;
    NoneBeforeFirst(s, c, if i < 0 then |s| else i, x);
  }

  /** The parts of a text split at a character do not contain it, and their characters come
      from the text. */
  lemma {:induction false} SplitPart(s: string, c: char, k: nat, x: char)
    requires k < |Split(s, [c])| && x in Split(s, [c])[k]
    ensures x in s && x != c
    decreases |s|
  {
    SplitUnfold(s, c);
    if k == 0 {
      FirstPartIsClean(s, c, x);
    } else {
      SplitPart(s[Find(s, [c], 0) + 1..], c, k - 1, x);
    }
  }

  function KeptOf(parts: seq<string>, strip: string -> string): seq<string> {
    if parts == [] then []
    else (if strip(parts[0]) != "" then [strip(parts[0])] else []) + KeptOf(parts[1..], strip)
  }

  /** `[p.strip() for p in parts if p.strip()]` */
  function Kept(parts: seq<string>): seq<string> {
    KeptOf(parts, Strip)
  }

  lemma KeptFirst(c: string, rest: seq<string>)
    ensures Kept([c] + rest) == (if Strip(c) != "" then [Strip(c)] else []) + Kept(rest)
  {
    assert ([c] + rest)[1..] == rest;
  }

  lemma KeptOnly(c: string)
    ensures Kept([c]) == if Strip(c) != "" then [Strip(c)] else []
  {
    KeptFirst(c, []);
    assert [c] + [] == [c];
  }

  /** A kept item is the stripped form of some part. */
  lemma {:induction false} KeptItem(parts: seq<string>, strip: string -> string, item: string) returns (i: nat)
    requires item in KeptOf(parts, strip)
    ensures i < |parts| && item == strip(parts[i]) && item != ""
  {
    if item == strip(parts[0]) && item != "" {
      i := 0;
    } else {
      var j := KeptItem(parts[1..], strip, item);
      i := j + 1;
    }
  }

  /** Lexicographic order on code points, as `<=` on `str`. */
  predicate LexLeq(a: string, b: string) {
    a == [] || (b != [] && (a[0] < b[0] || (a[0] == b[0] && LexLeq(a[1..], b[1..]))))
  }

  lemma {:induction false} LexTotal(a: string, b: string)
    ensures LexLeq(a, b) || LexLeq(b, a)
    ensures LexLeq(a, b) && LexLeq(b, a) ==> a == b
  {
    if a != [] && b != [] && a[0] == b[0] {
      LexTotal(a[1..], b[1..]);
      assert a == [a[0]] + a[1..] && b == [b[0]] + b[1..];
    }
  }

  lemma {:induction false} LexTransitive(a: string, b: string, c: string)
    requires LexLeq(a, b) && LexLeq(b, c)
    ensures LexLeq(a, c)
  {
    if a != [] && b != [] && c != [] && a[0] == b[0] == c[0] {
      LexTransitive(a[1..], b[1..], c[1..]);
    }
  }
}
