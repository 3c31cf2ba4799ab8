/** File names and paths as texts: which file a node name stands for, and which file a path
    leads to (samia/core/chain.py). */
module FileTexts {
  import opened ChainData
  import opened KeyTexts
  import opened Strings

  /** The file of a node name: the name itself where it ends in ".md". */
  ghost predicate IsFileOf(fname: string, node: string) {
    (fname == node && exists stem :: node == stem + ".md") || (fname == node + ".md" && forall stem :: node != stem + ".md")
  }

  lemma FileExactly(fname: string, node: string)
    ensures fname == FileName(node) <==> IsFileOf(fname, node)
  {
    if EndsWith(node, ".md") {
      assert node == node[..|node| - 3] + ".md";
    } else {
      forall stem ensures node != stem + ".md" {
        var t := stem + ".md";
        assert t[|t| - 3..] == ".md";
      }
    }
  }

  /** The path is the file name, alone or in some directory. */
  ghost predicate IsPathTo(path: string, fname: string) {
    Lacks(fname, "/") && (path == fname || exists dir :: path == dir + "/" + fname)
  }

  lemma {:induction false} JoinLast(sep: string, parts: seq<string>) returns (front: string)
    requires |parts| >= 2
    ensures Join(sep, parts) == front + sep + parts[|parts| - 1]
    decreases |parts|
  {
    if |parts| == 2 {
      front := parts[0];
      assert parts[1..] == [parts[1]];
    } else {
      var f := JoinLast(sep, parts[1..]);
      front := parts[0] + sep + f;
      assert front + sep + parts[|parts| - 1] == parts[0] + sep + (f + sep + parts[|parts| - 1]);
    }
  }

  lemma CutOfPath(dir: string, fname: string) returns (i: nat, rest: string)
    ensures i <= |dir| && rest == if i == |dir| then fname else dir[i + 1..] + "/" + fname
    ensures Split(dir + "/" + fname, "/") == [dir[..i]] + Split(rest, "/")
  {
    var s := dir + "/" + fname;
    assert s[|dir|..|dir| + 1] == "/";
    assert MatchAt(s, "/", |dir|);
    i := Find(s, "/", 0);
    rest := s[i + 1..];
    assert s[..i] == dir[..i];
  }

  lemma {:induction false} SplitTail(dir: string, fname: string)
    requires Lacks(fname, "/")
    ensures var parts := Split(dir + "/" + fname, "/"); parts[|parts| - 1] == fname
    decreases |dir|
  {
    var i, rest := CutOfPath(dir, fname);
    if i == |dir| { SplitExactly(fname, "/", [fname]); } else { SplitTail(dir[i + 1..], fname); }
  }

  lemma BaseNameExactly(path: string, fname: string)
    ensures BaseName(path) == fname <==> IsPathTo(path, fname)
  {
    var parts := Split(path, "/");
    SplitExactly(path, "/", parts);
    if |parts| >= 2 {
      var front := JoinLast("/", parts);
    }
    if IsPathTo(path, fname) {
      if path == fname {
        SplitExactly(fname, "/", [fname]);
      } else {
        var dir :| path == dir + "/" + fname;
        SplitTail(dir, fname);
      }
    }
  }

  /** The name has an extension: something before its last dot and something behind it. */
  ghost predicate Extended(base: string) {
    exists stem, ext :: IsExtended(base, stem, ext)
  }

  ghost predicate IsExtended(base: string, stem: string, ext: string) {
    stem != "" && ext != "" && '.' !in ext && base == stem + "." + ext
  }

  lemma ExtendedExactly(base: string)
    ensures HasSuffix(base) <==> Extended(base)
  {
    if HasSuffix(base) {
      var i :| 0 < i < |base| - 1 && base[i] == '.' && forall j :: i < j < |base| ==> base[j] != '.';
      assert base == base[..i] + "." + base[i + 1..];
      assert IsExtended(base, base[..i], base[i + 1..]);
    }
    if Extended(base) {
      var stem, ext :| IsExtended(base, stem, ext);
      var i := |stem|;
      assert base[i] == '.';
      forall j | i < j < |base| ensures base[j] != '.' { assert base[j] == ext[j - i - 1]; }
    }
  }
}
