/** Reading and printing one frontmatter value (samia/core/frontmatter.py). */
module Scalars {
  import opened Options
  import opened Strings
  import Decimals

  datatype Val = Bool(b: bool) | Int(n: int) | Float(x: real) | List(items: seq<string>) | Str(s: string)

  /** `float(text)` on a text with a dot, and `str(x)`. */
  datatype FloatCodec = FloatCodec(read: string -> Option<real>, show: real -> string)

  /** The characters at which `str.splitlines` breaks. */
  predicate IsBreak(c: char) {
    var u := c as int;
    0x0A <= u <= 0x0D || 0x1C <= u <= 0x1E || u == 0x85 || u == 0x2028 || u == 0x2029
  }

  predicate OneLine(s: string) {
    forall i :: 0 <= i < |s| ==> !IsBreak(s[i])
  }

  // ---- words and integers -----------------------------------------------------------------

  /** The letter in either case. */
  predicate Is(c: char, lower: char, upper: char) {
    c == lower || c == upper
  }

  predicate IsTrueWord(s: string) {
    |s| == 4 && Is(s[0], 't', 'T') && Is(s[1], 'r', 'R') && Is(s[2], 'u', 'U') && Is(s[3], 'e', 'E')
  }

  predicate IsFalseWord(s: string) {
    |s| == 5 && Is(s[0], 'f', 'F') && Is(s[1], 'a', 'A') && Is(s[2], 'l', 'L') && Is(s[3], 's', 'S') && Is(s[4], 'e', 'E')
  }

  /** `s.lower() in ("true", "false")`, and which. */
  function BoolWord(s: string): Option<bool> {
    if IsTrueWord(s) then Some(true) else if IsFalseWord(s) then Some(false) else None
  }

  /** Digits, possibly grouped by single underscores. */
  predicate IntBody(s: string) {
    && s != "" && Decimals.IsDigit(s[0]) && Decimals.IsDigit(s[|s| - 1])
    && (forall i :: 0 <= i < |s| ==> Decimals.IsDigit(s[i]) || s[i] == '_')
    && (forall i :: 0 < i < |s| && s[i] == '_' ==> Decimals.IsDigit(s[i - 1]))
  }

  function DigitsIn(s: string): (d: string)
    ensures Decimals.AllDigits(d)
  {
    if s == "" then ""
    else DigitsIn(s[..|s| - 1]) + if Decimals.IsDigit(s[|s| - 1]) then [s[|s| - 1]] else []
  }

  function DigitValue(s: string): int {
    Decimals.Value(DigitsIn(s))
  }

  /** `int(s)` on a stripped text of ASCII digits; None where it raises. */
  function ParseInt(s: string): Option<int> {
    if s != "" && s[0] == '-' then
      if IntBody(s[1..]) then Some(-DigitValue(s[1..])) else None
    else if s != "" && s[0] == '+' then
      if IntBody(s[1..]) then Some(DigitValue(s[1..])) else None
    else if IntBody(s) then Some(DigitValue(s))
    else None
  }

  /** `str(n)` */
  function ShowInt(n: int): string {
    if n < 0 then "-" + Decimals.Numeral(-n) else Decimals.Numeral(n)
  }

  lemma {:induction false} DigitsOfDigits(s: string)
    requires Decimals.AllDigits(s)
    ensures DigitsIn(s) == s
  {
    if s != "" {
      DigitsOfDigits(s[..|s| - 1]);
      assert s == s[..|s| - 1] + [s[|s| - 1]];
    }
  }

  lemma DigitsAreInt(s: string)
    requires s != "" && Decimals.AllDigits(s)
    ensures IntBody(s) && DigitValue(s) == Decimals.Value(s)
  {
    DigitsOfDigits(s);
  }

  lemma PlainInt(s: string)
    requires IntBody(s)
    ensures ParseInt(s) == Some(DigitValue(s))
  {
  }

  lemma NegativeInt(s: string)
    requires IntBody(s)
    ensures ParseInt("-" + s) == Some(-DigitValue(s))
  {
    assert ("-" + s)[1..] == s;
  }

  lemma IntRoundTrip(n: int)
    ensures ParseInt(ShowInt(n)) == Some(n)
  {
    var m: nat := if n < 0 then -n else n;
    Decimals.ValueOfNumeral(m);
    DigitsAreInt(Decimals.Numeral(m));
    if n < 0 { NegativeInt(Decimals.Numeral(m)); } else { PlainInt(Decimals.Numeral(m)); }
  }

  /** `int(x)` on a float */
  function Truncated(x: real): int {
    if x >= 0.0 then x.Floor else -((-x).Floor)
  }

  // ---- lists ---------------------------------------------------------------------------------

  /** The inside of a bracketed text; the pattern's dot does not cross a newline. */
  function ListInner(s: string): Option<string> {
    if |s| >= 2 && s[0] == '[' && s[|s| - 1] == ']' && '\n' !in s[1..|s| - 1] then Some(s[1..|s| - 1]) else None
  }

  function ItemsOf(inner: string): seq<string> {
    if Strip(inner) == "" then [] else Kept(Split(Strip(inner), ","))
  }

  // ---- reading and printing ------------------------------------------------------------------

  function ParseNumber(s: string, c: FloatCodec): Val {
    if '.' in s then match c.read(s) { case Some(x) => Float(x) case None => Str(s) }
    else match ParseInt(s) { case Some(n) => Int(n) case None => Str(s) }
  }

  /** What a stripped text denotes. */
  function ParseStripped(s: string, c: FloatCodec): Val {
    if s == "" then Str("")
    else if BoolWord(s).Some? then Bool(BoolWord(s).value)
    else if ListInner(s).Some? then List(ItemsOf(ListInner(s).value))
    else ParseNumber(s, c)
  }

  function ParseVal(raw: string, c: FloatCodec): Val {
    ParseStripped(Strip(raw), c)
  }

  function FmtVal(v: Val, c: FloatCodec): string {
    match v
    case Bool(b) => if b then "true" else "false"
    case List(items) => "[" + Join(", ", items) + "]"
    case Int(n) => ShowInt(n)
    case Float(x) => c.show(x)
    case Str(s) => s
  }

  /** A number that some text denotes. There are reals that none does. */
  ghost predicate IsFloat(x: real, c: FloatCodec) {
    exists s :: c.read(s) == Some(x)
  }

  ghost predicate FloatValue(v: Val, c: FloatCodec) {
    v.Float? ==> IsFloat(v.x, c)
  }

  predicate HasDigit(s: string) {
    exists i :: 0 <= i < |s| && Decimals.IsDigit(s[i])
  }

  /** A printed float: one word with a digit that reads back as itself, is neither a boolean nor a
      list, and is not an integer when it has no dot (as in "1e+16"). */
  ghost predicate Printed(s: string, x: real, c: FloatCodec) {
    && HasDigit(s) && Stripped(s) && OneLine(s) && c.read(s) == Some(x)
    && BoolWord(s).None? && ListInner(s).None?
    && ('.' !in s ==> ParseInt(s).None?)
  }

  /** Every number that a text denotes prints well. */
  ghost predicate CodecOk(c: FloatCodec) {
    forall s :: c.read(s).Some? ==> Printed(c.show(c.read(s).value), c.read(s).value, c)
  }

  lemma FloatPrints(x: real, c: FloatCodec)
    requires CodecOk(c) && IsFloat(x, c)
    ensures Printed(c.show(x), x, c)
  {
    var s :| c.read(s) == Some(x);
  }

  // ---- which values survive printing and reading ------------------------------------------------

  predicate CleanItem(s: string) {
    s != "" && Stripped(s) && ',' !in s && '\n' !in s
  }

  predicate AllClean(items: seq<string>) {
    forall i :: 0 <= i < |items| ==> CleanItem(items[i])
  }

  predicate Survives(v: Val, c: FloatCodec) {
    match v
    case Bool(_) => true
    case Int(_) => true
    case Float(x) => '.' in c.show(x)
    case List(items) => AllClean(items)
    case Str(s) => Stripped(s) && BoolWord(s).None? && ListInner(s).None? && ParseNumber(s, c) == Str(s)
  }

  lemma NumeralIsPlain(n: int)
    ensures var s := ShowInt(n); s != "" && Stripped(s) && OneLine(s) && '.' !in s && s[0] != '['
    ensures BoolWord(ShowInt(n)).None?
  {
    var d := Decimals.Numeral(if n < 0 then -n else n);
    assert n < 0 ==> ShowInt(n) == "-" + d;
    var s := ShowInt(n);
    forall i | 0 <= i < |s| ensures s[i] == '-' || Decimals.IsDigit(s[i]) {
      if n < 0 && i > 0 { assert s[i] == d[i - 1]; }
    }
  }

  lemma IntSurvives(n: int, c: FloatCodec)
    ensures ParseVal(ShowInt(n), c) == Int(n)
  {
    NumeralIsPlain(n);
    IntRoundTrip(n);
    ReadsInt(ShowInt(n), n, c);
  }

  lemma ReadsStripped(s: string, c: FloatCodec)
    requires Stripped(s)
    ensures ParseVal(s, c) == ParseStripped(s, c)
  {
    StripOfStripped(s);
  }

  lemma ReadsInt(s: string, n: int, c: FloatCodec)
    requires s != "" && Stripped(s) && BoolWord(s).None? && s[0] != '[' && '.' !in s && ParseInt(s) == Some(n)
    ensures ParseVal(s, c) == Int(n)
  {
    ReadsStripped(s, c);
  }

  // ---- lists ------------------------------------------------------------------------------------

  predicate Separable(s: string) {
    s != "" && Stripped(s) && ',' !in s
  }

  lemma PaddedItem(pad: string, x: string)
    requires AllSpace(pad) && ',' !in pad && Separable(x)
    ensures Strip(pad + x) == x && ',' !in pad + x
  {
    PadLeft(pad, x);
  }

  lemma SplitLastItem(pad: string, x: string)
    requires AllSpace(pad) && ',' !in pad && Separable(x)
    ensures Kept(Split(pad + x, ",")) == [x]
  {
    PaddedItem(pad, x);
    SplitNone(pad + x, ',');
    KeptOnly(pad + x);
  }

  lemma Regrouped(pad: string, x: string, rest: string)
    ensures pad + (x + ", " + rest) == (pad + x) + [','] + (" " + rest)
  {
  }

  lemma SplitFirstItem(pad: string, x: string, rest: string)
    requires AllSpace(pad) && ',' !in pad && Separable(x)
    ensures Kept(Split(pad + (x + ", " + rest), ",")) == [x] + Kept(Split(" " + rest, ","))
  {
    PaddedItem(pad, x);
    Regrouped(pad, x, rest);
    SplitHead(pad + x, ',', " " + rest);
    KeptFirst(pad + x, Split(" " + rest, ","));
  }

  predicate AllSeparable(items: seq<string>) {
    forall i :: 0 <= i < |items| ==> Separable(items[i])
  }

  lemma JoinStep(items: seq<string>)
    requires |items| >= 2
    ensures Join(", ", items) == items[0] + ", " + Join(", ", items[1..])
    ensures items == [items[0]] + items[1..]
  {
  }

  lemma SplitItemStep(pad: string, items: seq<string>)
    requires AllSpace(pad) && ',' !in pad
    requires |items| >= 2 && AllSeparable(items)
    requires Kept(Split(" " + Join(", ", items[1..]), ",")) == items[1..]
    ensures Kept(Split(pad + Join(", ", items), ",")) == items
  {
    JoinStep(items);
    SplitFirstItem(pad, items[0], Join(", ", items[1..]));
  }

  /** Splitting joined items at the commas and stripping gives the items back. */
  lemma {:induction false} SplitOfItems(pad: string, items: seq<string>)
    requires AllSpace(pad) && ',' !in pad
    requires items != [] && AllSeparable(items)
    ensures Kept(Split(pad + Join(", ", items), ",")) == items
    decreases |items|
  {
    if |items| == 1 {
      SplitLastItem(pad, items[0]);
      assert Join(", ", items) == items[0];
    } else {
      SplitOfItems(" ", items[1..]);
      SplitItemStep(pad, items);
    }
  }

  lemma {:induction false} JoinedEnds(items: seq<string>)
    requires items != [] && AllSeparable(items)
    ensures var j := Join(", ", items); j != "" && Stripped(j)
    decreases |items|
  {
    if |items| > 1 {
      JoinedEnds(items[1..]);
      var rest := Join(", ", items[1..]);
      var j := Join(", ", items);
      assert j[0] == items[0][0] && j[|j| - 1] == rest[|rest| - 1];
    }
  }

  lemma {:induction false} JoinedCharacters(items: seq<string>, c: char)
    requires c in Join(", ", items)
    ensures c == ',' || c == ' ' || exists i :: 0 <= i < |items| && c in items[i]
    decreases |items|
  {
    if |items| > 1 && c !in items[0] {
      var rest := Join(", ", items[1..]);
      assert Join(", ", items) == items[0] + ", " + rest;
      if c != ',' && c != ' ' {
        assert c in rest;
        JoinedCharacters(items[1..], c);
        var i :| 0 <= i < |items[1..]| && c in items[1..][i];
        assert c in items[i + 1];
      }
    }
  }

  function Bracketed(items: seq<string>): string {
    "[" + Join(", ", items) + "]"
  }

  lemma BracketedIsStripped(items: seq<string>)
    ensures var s := Bracketed(items); Stripped(s) && |s| >= 2 && s[0] == '[' && s[1..|s| - 1] == Join(", ", items)
    ensures BoolWord(Bracketed(items)).None?
  {
  }

  lemma ItemsOfJoined(items: seq<string>)
    requires AllSeparable(items)
    ensures ItemsOf(Join(", ", items)) == items
  {
    if items != [] {
      JoinedEnds(items);
      StripOfStripped(Join(", ", items));
      SplitOfItems("", items);
      assert "" + Join(", ", items) == Join(", ", items);
    }
  }

  lemma InnerOfBracketed(items: seq<string>)
    requires forall i :: 0 <= i < |items| ==> '\n' !in items[i]
    ensures ListInner(Bracketed(items)) == Some(Join(", ", items))
  {
    BracketedIsStripped(items);
    if '\n' in Join(", ", items) { JoinedCharacters(items, '\n'); }
  }

  lemma ReadsList(s: string, inner: string, c: FloatCodec)
    requires s != "" && Stripped(s) && BoolWord(s).None? && ListInner(s) == Some(inner)
    ensures ParseVal(s, c) == List(ItemsOf(inner))
  {
    StripOfStripped(s);
  }

  lemma CleanListSurvives(items: seq<string>, c: FloatCodec)
    requires AllClean(items)
    ensures ParseVal(Bracketed(items), c) == List(items)
  {
    BracketedIsStripped(items);
    InnerOfBracketed(items);
    ItemsOfJoined(items);
    ReadsList(Bracketed(items), Join(", ", items), c);
  }

  /** A bracketed text that reads as a list has an inside that makes up its items. */
  lemma ReadAsList(s: string, items: seq<string>, c: FloatCodec)
    requires ParseStripped(s, c) == List(items)
    ensures ListInner(s).Some? && items == ItemsOf(ListInner(s).value)
  {
    NumberIsNoList(s, c);
  }

  lemma NumberIsNoList(s: string, c: FloatCodec)
    ensures !ParseNumber(s, c).List?
  {
  }

  /** What reading a list yields: non-empty stripped items without commas, made of characters
      of the text. */
  lemma ItemIsSeparable(inner: string, item: string)
    requires item in ItemsOf(inner)
    ensures Separable(item)
    ensures forall x :: x in item ==> x in inner
  {
    var parts := Split(Strip(inner), ",");
    var i := KeptItem(parts, Strip, item);
    StripIsStripped(parts[i]);
    forall x | x in item ensures x in inner && x != ',' {
      StripCharacters(parts[i], x);
      SplitPart(Strip(inner), ',', i, x);
      StripCharacters(inner, x);
    }
  }

  lemma ItemsAreClean(inner: string)
    requires '\n' !in inner
    ensures AllClean(ItemsOf(inner))
  {
    var items := ItemsOf(inner);
    forall i | 0 <= i < |items| ensures CleanItem(items[i]) {
      ItemIsSeparable(inner, items[i]);
    }
  }

  lemma SurvivingListIsClean(items: seq<string>, c: FloatCodec)
    requires ParseVal(Bracketed(items), c) == List(items)
    ensures AllClean(items)
  {
    BracketedIsStripped(items);
    ReadsStripped(Bracketed(items), c);
    ReadAsList(Bracketed(items), items, c);
    ItemsAreClean(ListInner(Bracketed(items)).value);
  }

  lemma ListSurvivesExactlyWhen(items: seq<string>, c: FloatCodec)
    ensures ParseVal(Bracketed(items), c) == List(items) <==> AllClean(items)
  {
    if AllClean(items) {
      CleanListSurvives(items, c);
    } else if ParseVal(Bracketed(items), c) == List(items) {
      SurvivingListIsClean(items, c);
    }
  }

  // ---- the value theorem ------------------------------------------------------------------------

  lemma FloatReads(x: real, c: FloatCodec)
    requires CodecOk(c) && IsFloat(x, c)
    ensures ParseVal(c.show(x), c) == if '.' in c.show(x) then Float(x) else Str(c.show(x))
  {
    FloatPrints(x, c);
    ReadsStripped(c.show(x), c);
  }

  lemma StrReads(s: string, c: FloatCodec)
    ensures ParseVal(s, c) == Str(s)
       <==> Stripped(s) && BoolWord(s).None? && ListInner(s).None? && ParseNumber(s, c) == Str(s)
  {
    if Stripped(s) {
      StripOfStripped(s);
    } else {
      StripIsStripped(s);
    }
  }

  lemma BoolReads(b: bool, c: FloatCodec)
    ensures ParseVal(FmtVal(Bool(b), c), c) == Bool(b)
  {
    if b { ReadsStripped("true", c); } else { ReadsStripped("false", c); }
  }

  /** Printing a value and reading it back gives the value, exactly when it survives: every
      boolean and integer; a float printed with a dot; a list of clean items; a stripped string
      that does not read as something else. */
  lemma SurvivesExactlyWhen(v: Val, c: FloatCodec)
    requires CodecOk(c) && FloatValue(v, c)
    ensures ParseVal(FmtVal(v, c), c) == v <==> Survives(v, c)
  {
    match v
    case Bool(b) => BoolReads(b, c);
    case Int(n) => IntSurvives(n, c);
    case Float(x) => FloatReads(x, c);
    case List(items) => ListSurvivesExactlyWhen(items, c);
    case Str(s) => StrReads(s, c);
  }

  /** A large float loses its type: it prints without a dot and comes back as a string. */
  lemma FloatMayBecomeString(x: real, c: FloatCodec)
    requires CodecOk(c) && IsFloat(x, c) && '.' !in c.show(x)
    ensures ParseVal(FmtVal(Float(x), c), c) == Str(c.show(x))
  {
    FloatReads(x, c);
  }

  // ---- printing what was read ---------------------------------------------------------------------

  /** The printed form of a read value is stable from then on. */
  lemma PrintedFormIsStable(raw: string, c: FloatCodec)
    requires CodecOk(c)
    ensures var printed := FmtVal(ParseVal(raw, c), c); FmtVal(ParseVal(printed, c), c) == printed
  {
    StripIsStripped(raw);
    StrippedFormIsStable(Strip(raw), c);
  }

  lemma StrippedFormIsStable(s: string, c: FloatCodec)
    requires CodecOk(c) && Stripped(s)
    ensures var printed := FmtVal(ParseStripped(s, c), c); FmtVal(ParseVal(printed, c), c) == printed
  {
    if s == "" {
      StripOfStripped(s);
    } else if BoolWord(s).Some? {
      SurvivesExactlyWhen(Bool(BoolWord(s).value), c);
    } else if ListInner(s).Some? {
      var items := ItemsOf(ListInner(s).value);
      ItemsAreClean(ListInner(s).value);
      CleanListSurvives(items, c);
    } else {
      NumberFormIsStable(s, c);
    }
  }

  lemma NumberFormIsStable(s: string, c: FloatCodec)
    requires CodecOk(c) && Stripped(s) && BoolWord(s).None? && ListInner(s).None?
    ensures var printed := FmtVal(ParseNumber(s, c), c); FmtVal(ParseVal(printed, c), c) == printed
  {
    match ParseNumber(s, c)
    case Int(n) => IntSurvives(n, c);
    case Float(x) => FloatReads(x, c);
    case Str(t) => StrReads(s, c);
  }

  /** `u` is `v`, or its printed form where `v` is a float printed without a dot. */
  predicate ReadsAgainAs(v: Val, u: Val, c: FloatCodec) {
    u == v || (v.Float? && u == Str(c.show(v.x)) && HasDigit(c.show(v.x)))
  }

  /** A value that was read comes back from its printed form, but for large floats. */
  lemma ReadAgain(raw: string, c: FloatCodec)
    requires CodecOk(c)
    ensures var v := ParseVal(raw, c); ReadsAgainAs(v, ParseVal(FmtVal(v, c), c), c)
  {
    StripIsStripped(raw);
    StrippedReadAgain(Strip(raw), c);
  }

  lemma StrippedReadAgain(s: string, c: FloatCodec)
    requires CodecOk(c) && Stripped(s)
    ensures var v := ParseStripped(s, c); ReadsAgainAs(v, ParseVal(FmtVal(v, c), c), c)
  {
    if s == "" {
      StripOfStripped(s);
    } else if BoolWord(s).Some? {
      BoolReads(BoolWord(s).value, c);
    } else if ListInner(s).Some? {
      ItemsAreClean(ListInner(s).value);
      CleanListSurvives(ItemsOf(ListInner(s).value), c);
    } else {
      NumberReadAgain(s, c);
    }
  }

  lemma NumberReadAgain(s: string, c: FloatCodec)
    requires CodecOk(c) && Stripped(s) && BoolWord(s).None? && ListInner(s).None?
    ensures var v := ParseNumber(s, c); ReadsAgainAs(v, ParseVal(FmtVal(v, c), c), c)
  {
    match ParseNumber(s, c)
    case Int(n) => IntSurvives(n, c);
    case Float(x) =>
      FloatPrints(x, c);
      FloatReads(x, c);
    case Str(t) => StrReads(s, c);
  }

  /** A word that is no boolean, list or number reads as itself. */
  lemma WordReads(s: string, c: FloatCodec)
    requires s != "" && Stripped(s) && BoolWord(s).None? && s[0] != '[' && '.' !in s && ParseInt(s).None?
    ensures ParseVal(s, c) == Str(s)
  {
    ReadsStripped(s, c);
  }

  lemma StripOneLine(raw: string)
    requires OneLine(raw)
    ensures OneLine(Strip(raw))
  {
    forall i | 0 <= i < |Strip(raw)| ensures !IsBreak(Strip(raw)[i]) { StripCharacters(raw, Strip(raw)[i]); }
  }

  lemma ItemsCharacters(inner: string, x: char)
    requires x in Join(", ", ItemsOf(inner))
    ensures x == ',' || x == ' ' || x in inner
  {
    var items := ItemsOf(inner);
    JoinedCharacters(items, x);
    if x != ',' && x != ' ' {
      var k :| 0 <= k < |items| && x in items[k];
      ItemIsSeparable(inner, items[k]);
    }
  }

  lemma OneLineCharacter(s: string, x: char)
    requires OneLine(s) && x in s
    ensures !IsBreak(x)
  {
  }

  lemma BracketedOneLine(j: string)
    requires OneLine(j)
    ensures OneLine("[" + j + "]")
  {
  }

  lemma ListOnOneLine(inner: string)
    requires OneLine(inner)
    ensures OneLine(Bracketed(ItemsOf(inner)))
  {
    var j := Join(", ", ItemsOf(inner));
    forall i | 0 <= i < |j| ensures !IsBreak(j[i]) {
      ItemsCharacters(inner, j[i]);
      if j[i] in inner { OneLineCharacter(inner, j[i]); }
    }
    BracketedOneLine(j);
  }

  lemma NumberOnOneLine(s: string, c: FloatCodec)
    requires CodecOk(c) && OneLine(s)
    ensures OneLine(FmtVal(ParseNumber(s, c), c))
  {
    match ParseNumber(s, c)
    case Int(n) => NumeralIsPlain(n);
    case Float(x) => FloatPrints(x, c);
    case Str(t) => assert t == s;
  }

  /** A value read from one line prints on one line. */
  lemma PrintsOnOneLine(raw: string, c: FloatCodec)
    requires CodecOk(c) && OneLine(raw)
    ensures OneLine(FmtVal(ParseVal(raw, c), c))
  {
    StripOneLine(raw);
    StrippedPrintsOnOneLine(Strip(raw), c);
  }

  lemma StrippedPrintsOnOneLine(s: string, c: FloatCodec)
    requires CodecOk(c) && OneLine(s)
    ensures OneLine(FmtVal(ParseStripped(s, c), c))
  {
    if s != "" && BoolWord(s).None? {
      if ListInner(s).Some? {
        ListOnOneLine(ListInner(s).value);
      } else {
        NumberOnOneLine(s, c);
      }
    }
  }
}
