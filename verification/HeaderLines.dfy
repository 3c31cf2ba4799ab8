/** One header line of the form `key: value` (samia/core/frontmatter.py): splitting it, writing
    it, and the laws under which headers read back. */
module HeaderLines {
  import opened Options
  import opened Strings
  import opened Scalars

  /** A key that a line gives back: stripped, without a colon, on one line. */
  predicate KeyOk(k: string) {
    Stripped(k) && ':' !in k && OneLine(k)
  }

  /** `line.partition(":")` with the key stripped; None without a colon. */
  function SplitField(line: string): Option<(string, string)> {
    var i := Find(line, ":", 0);
    if i < 0 then None else Some(FieldAt(line, i))
  }

  function FieldAt(line: string, i: nat): (string, string)
    requires i < |line|
  {
    (Strip(line[..i]), line[i + 1..])
  }

  function FieldText(k: string, shown: string): string {
    k + (": " + shown)
  }

  function Spaced(s: string): string {
    " " + s
  }

  /** Splitting a line, reading a value, and printing one. */
  datatype Codec = Codec(split: string -> Option<(string, string)>, read: string -> Val, show: Val -> string)

  function Standard(floats: FloatCodec): Codec {
    Codec(SplitField, raw => ParseVal(raw, floats), v => FmtVal(v, floats))
  }

  // ---- the laws -------------------------------------------------------------------------------

  /** A written field splits into its key and its printed value, whose leading space does not
      matter. */
  ghost predicate ReadsFields(c: Codec) {
    && (forall s {:trigger Spaced(s)} :: c.read(Spaced(s)) == c.read(s))
    && (forall k, s {:trigger FieldText(k, s)} :: KeyOk(k) ==> c.split(FieldText(k, s)) == Some((k, Spaced(s))))
  }

  /** What a single line splits into is a clean key and a value on one line. */
  ghost predicate SplitsCleanly(c: Codec) {
    forall line :: OneLine(line) && c.split(line).Some? ==>
      KeyOk(c.split(line).value.0) && OneLine(c.split(line).value.1)
  }

  /** Prints on one line, and its printed form reads back to something that prints the same. */
  ghost predicate Settled(v: Val, c: Codec) {
    OneLine(c.show(v)) && c.show(c.read(c.show(v))) == c.show(v)
  }

  ghost predicate Lawful(c: Codec) {
    ReadsFields(c) && SplitsCleanly(c) && forall raw :: OneLine(raw) ==> Settled(c.read(raw), c)
  }

  // ---- the standard splitting and the standard values obey them ------------------------------------

  lemma LeadingSpace(s: string, floats: FloatCodec)
    ensures ParseVal(Spaced(s), floats) == ParseVal(s, floats)
  {
    assert Spaced(s)[1..] == s;
  }

  lemma SplitAtColon(k: string, rest: string)
    requires ':' !in k
    ensures var line := k + (":" + rest); Find(line, ":", 0) == |k| && line[..|k|] == k && line[|k| + 1..] == rest
  {
    FirstChar(k, ':', rest);
    assert k + (":" + rest) == k + [':'] + rest;
  }

  lemma FieldSplits(k: string, shown: string)
    requires KeyOk(k)
    ensures SplitField(FieldText(k, shown)) == Some((k, Spaced(shown)))
  {
    SplitAtColon(k, Spaced(shown));
    assert FieldText(k, shown) == k + (":" + Spaced(shown));
    StripOfStripped(k);
  }

  lemma NoneBefore(s: string, x: char, i: nat)
    requires i == Find(s, [x], 0)
    ensures i < |s| && x !in s[..i]
  {
    MatchChar(s, x, i);
    forall j | 0 <= j < i ensures s[j] != x { MatchChar(s, x, j); }
  }

  lemma KeyBefore(line: string, i: nat)
    requires OneLine(line) && i <= |line| && ':' !in line[..i]
    ensures KeyOk(Strip(line[..i]))
  {
    StripIsStripped(line[..i]);
    StripOneLine(line[..i]);
    if ':' in Strip(line[..i]) { StripCharacters(line[..i], ':'); }
  }

  lemma SplitIsClean(line: string)
    requires OneLine(line) && SplitField(line).Some?
    ensures KeyOk(SplitField(line).value.0) && OneLine(SplitField(line).value.1)
  {
    var i := Find(line, ":", 0);
    NoneBefore(line, ':', i);
    SplitsAt(line, i);
    KeyBefore(line, i);
    AfterOneLine(line, i + 1);
  }

  lemma SplitsAt(line: string, i: nat)
    requires i == Find(line, ":", 0) && i < |line|
    ensures SplitField(line) == Some((Strip(line[..i]), line[i + 1..]))
  {
  }

  lemma AfterOneLine(line: string, i: nat)
    requires OneLine(line) && i <= |line|
    ensures OneLine(line[i..])
  {
  }

  lemma StandardReadsFields(floats: FloatCodec)
    ensures ReadsFields(Standard(floats))
  {
    var c := Standard(floats);
    forall s ensures c.read(Spaced(s)) == c.read(s) { LeadingSpace(s, floats); }
    forall k, s | KeyOk(k) ensures c.split(FieldText(k, s)) == Some((k, Spaced(s))) { FieldSplits(k, s); }
  }

  lemma StandardSplitsCleanly(floats: FloatCodec)
    ensures SplitsCleanly(Standard(floats))
  {
    var c := Standard(floats);
    forall line | OneLine(line) && c.split(line).Some?
      ensures KeyOk(c.split(line).value.0) && OneLine(c.split(line).value.1)
    {
      SplitIsClean(line);
    }
  }

  lemma ReadIsSettled(raw: string, floats: FloatCodec)
    requires CodecOk(floats) && OneLine(raw)
    ensures Settled(Standard(floats).read(raw), Standard(floats))
  {
    PrintsOnOneLine(raw, floats);
    PrintedFormIsStable(raw, floats);
  }

  lemma StandardIsLawful(floats: FloatCodec)
    requires CodecOk(floats)
    ensures Lawful(Standard(floats))
  {
    StandardReadsFields(floats);
    StandardSplitsCleanly(floats);
    forall raw | OneLine(raw) ensures Settled(Standard(floats).read(raw), Standard(floats)) { ReadIsSettled(raw, floats); }
  }
}
