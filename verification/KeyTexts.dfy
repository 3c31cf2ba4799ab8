/** The texts of store keys: which parts a separator cuts a key into, and which names the
    parts spell, stated on the characters. */
module KeyTexts {
  import opened Strings

  ghost predicate Lacks(s: string, pat: string) {
    forall k :: !MatchAt(s, pat, k)
  }

  /** Read from the left, the first `sep` in `p + sep` is the one behind `p`. */
  ghost predicate EndsAt(p: string, sep: string) {
    forall k :: 0 <= k < |p| ==> !MatchAt(p + sep, sep, k)
  }

  /** The key is these parts with the separator between them, each cut at the first separator. */
  ghost predicate IsSplit(key: string, sep: string, parts: seq<string>) {
    && parts != [] && Join(sep, parts) == key
    && Lacks(parts[|parts| - 1], sep)
    && (forall i :: 0 <= i < |parts| - 1 ==> EndsAt(parts[i], sep))
  }

  lemma MatchWithin(a: string, b: string, pat: string, k: int)
    requires 0 <= k && k + |pat| <= |a|
    ensures MatchAt(a + b, pat, k) <==> MatchAt(a, pat, k)
  {
    assert (a + b)[k..k + |pat|] == a[k..k + |pat|];
  }

  lemma CutAtFirst(p: string, sep: string, rest: string)
    requires sep != "" && EndsAt(p, sep)
    ensures Split(p + sep + rest, sep) == [p] + Split(rest, sep)
  {
    var s := p + sep + rest;
    assert s[|p|..|p| + |sep|] == sep;
    forall k | 0 <= k < |p| ensures !MatchAt(s, sep, k) { MatchWithin(p + sep, rest, sep, k); }
    FindUnique(s, sep, 0, |p|);
    assert s[..|p|] == p && s[|p| + |sep|..] == rest;
  }

  lemma {:induction false} SplitOfParts(key: string, sep: string, parts: seq<string>)
    requires sep != "" && IsSplit(key, sep, parts)
    ensures Split(key, sep) == parts
    decreases |parts|
  {
    if |parts| == 1 {
      assert parts == [key];
    } else {
      var rest := Join(sep, parts[1..]);
      assert EndsAt(parts[0], sep);
      forall i | 0 <= i < |parts[1..]| - 1 ensures EndsAt(parts[1..][i], sep) { assert parts[1..][i] == parts[i + 1]; }
      SplitOfParts(rest, sep, parts[1..]);
      CutAtFirst(parts[0], sep, rest);
      assert key == parts[0] + sep + rest;
      assert parts == [parts[0]] + parts[1..];
    }
  }

  lemma PartBefore(p: string, sep: string, rest: string, parts: seq<string>)
    requires EndsAt(p, sep) && IsSplit(rest, sep, parts)
    ensures IsSplit(p + sep + rest, sep, [p] + parts)
  {
    var all := [p] + parts;
    assert all[1..] == parts && all[|all| - 1] == parts[|parts| - 1];
    forall i | 0 <= i < |all| - 1 ensures EndsAt(all[i], sep) {
      if i > 0 { assert all[i] == parts[i - 1]; }
    }
  }

  lemma CutApart(key: string, sep: string, i: nat)
    requires MatchAt(key, sep, i)
    ensures i + |sep| <= |key| && key == key[..i] + sep + key[i + |sep|..]
  {
    assert key[i..i + |sep|] == sep;
  }

  lemma FirstCut(key: string, sep: string, i: nat)
    requires sep != "" && i as int == Find(key, sep, 0)
    ensures i + |sep| <= |key| && EndsAt(key[..i], sep) && key == key[..i] + sep + key[i + |sep|..]
  {
    assert MatchAt(key, sep, i);
    CutApart(key, sep, i);
    forall k | 0 <= k < i ensures !MatchAt(key[..i] + sep, sep, k) { MatchWithin(key[..i] + sep, key[i + |sep|..], sep, k); }
  }

  lemma {:induction false} PartsOfSplit(key: string, sep: string)
    requires sep != ""
    ensures IsSplit(key, sep, Split(key, sep))
    decreases |key|
  {
    var i := Find(key, sep, 0);
    if i >= 0 {
      FirstCut(key, sep, i);
      PartsOfSplit(key[i + |sep|..], sep);
      PartBefore(key[..i], sep, key[i + |sep|..], Split(key[i + |sep|..], sep));
    }
  }

  /** `str.split`: its result is the one way to cut the key so. */
  lemma SplitExactly(key: string, sep: string, parts: seq<string>)
    requires sep != ""
    ensures Split(key, sep) == parts <==> IsSplit(key, sep, parts)
  {
    PartsOfSplit(key, sep);
    if IsSplit(key, sep, parts) { SplitOfParts(key, sep, parts); }
  }

  /** A name with white space around it at will. */
  ghost predicate Spells(text: string, name: string) {
    && name != "" && !IsSpace(name[0]) && !IsSpace(name[|name| - 1])
    && exists left, right :: Padded(text, left, name, right)
  }

  ghost predicate Padded(text: string, left: string, name: string, right: string) {
    AllSpace(left) && AllSpace(right) && text == left + name + right
  }

  lemma StripOfPadded(text: string, left: string, name: string, right: string)
    requires Padded(text, left, name, right)
    requires name != "" && !IsSpace(name[0]) && !IsSpace(name[|name| - 1])
    ensures Strip(text) == name
  {
    assert text == left + (name + right);
    assert (name + right)[0] == name[0];
    PadLeft(left, name + right);
    PadRight(name, right);
  }

  lemma StripIsPadded(text: string) returns (left: string, right: string)
    ensures Padded(text, left, Strip(text), right)
    ensures Stripped(Strip(text))
  {
    left, right := Padding(text);
    Associate(left, Strip(text), right);
  }

  lemma Associate(a: string, b: string, c: string)
    ensures a + (b + c) == a + b + c
  {
  }

  /** `str.strip`: the non-empty result is the name the text spells. */
  lemma StripSpells(text: string, name: string)
    ensures name != "" && Strip(text) == name <==> Spells(text, name)
  {
    var left, right := StripIsPadded(text);
    if Spells(text, name) {
      var l, r :| Padded(text, l, name, r);
      StripOfPadded(text, l, name, r);
    }
  }
}
