/** Floats with a whole value below 1e16, 1e16 itself, and a half: what `float` and `str` do on
    them (samia/core/frontmatter.py). They show that the law asked of floats can be met, and that
    a large float loses its type. */
module WholeFloats {
  import opened Options
  import opened Scalars
  import opened HeaderLines
  import Decimals

  /** The least positive float printed with an exponent, 1e16. */
  const LARGE: int := 10_000_000_000_000_000

  function Dotted(n: int): string {
    ShowInt(n) + ".0"
  }

  function Whole(n: Option<int>): Option<real> {
    if n.Some? && -LARGE < n.value <= LARGE then Some(n.value as real) else None
  }

  function ReadWhole(s: string): Option<real> {
    if s == "1e+16" then Some(LARGE as real)
    else if s == "0.5" then Some(0.5)
    else if |s| > 2 && s[|s| - 2..] == ".0" then Whole(ParseInt(s[..|s| - 2]))
    else None
  }

  function ShowWhole(x: real): string {
    if x == LARGE as real then "1e+16" else if x == 0.5 then "0.5" else Dotted(x.Floor)
  }

  function Codec(): FloatCodec {
    FloatCodec(ReadWhole, ShowWhole)
  }

  lemma DottedEnds(n: int)
    ensures var s := Dotted(n); |s| > 2 && s[..|s| - 2] == ShowInt(n) && s[|s| - 2..] == ".0" && '.' in s
  {
    NumeralIsPlain(n);
    var s := Dotted(n);
    assert s[|s| - 2] == '.';
  }

  lemma DottedReads(n: int)
    requires -LARGE < n <= LARGE
    ensures ReadWhole(Dotted(n)) == Some(n as real)
  {
    DottedEnds(n);
    IntRoundTrip(n);
    ReadsDotted(Dotted(n), ShowInt(n), n);
  }

  lemma ReadsDotted(s: string, digits: string, n: int)
    requires |s| > 2 && s[..|s| - 2] == digits && s[|s| - 2..] == ".0" && ParseInt(digits) == Some(n)
    requires -LARGE < n <= LARGE
    ensures ReadWhole(s) == Some(n as real)
  {
    assert s[|s| - 1] == ".0"[1];
    assert "1e+16"[4] == '6' && "0.5"[2] == '5';
  }

  lemma DottedIsPrinted(n: int, c: FloatCodec)
    requires c.read(Dotted(n)) == Some(n as real)
    ensures Printed(Dotted(n), n as real, c)
  {
    NumeralIsPlain(n);
    DottedEnds(n);
    var s := Dotted(n);
    assert s[0] == ShowInt(n)[0];
    assert s[|s| - 1] == '0' && Decimals.IsDigit(s[|s| - 1]);
    forall i | 0 <= i < |s| ensures !IsBreak(s[i]) {
      if i < |ShowInt(n)| { assert s[i] == ShowInt(n)[i]; } else { assert s[i] == '.' || s[i] == '0'; }
    }
  }

  lemma LargeIsPrinted(c: FloatCodec)
    requires c.read("1e+16") == Some(LARGE as real)
    ensures Printed("1e+16", LARGE as real, c)
  {
    assert Decimals.IsDigit("1e+16"[0]) && "1e+16"[1] == 'e';
  }

  lemma HalfIsPrinted(c: FloatCodec)
    requires c.read("0.5") == Some(0.5)
    ensures Printed("0.5", 0.5, c)
  {
    assert Decimals.IsDigit("0.5"[0]) && "0.5"[1] == '.';
  }

  lemma WholeValue(s: string) returns (n: int)
    requires ReadWhole(s).Some? && s != "0.5"
    ensures -LARGE < n <= LARGE && ReadWhole(s).value == n as real
  {
    n := if s == "1e+16" then LARGE else ParseInt(s[..|s| - 2]).value;
  }

  /** The law asked of floats can be met. */
  lemma CodecIsOk()
    ensures CodecOk(Codec()) && IsFloat(0.5, Codec())
  {
    var c := Codec();
    assert c.read("0.5") == Some(0.5);
    forall s | c.read(s).Some? ensures Printed(c.show(c.read(s).value), c.read(s).value, c) {
      if s == "0.5" {
        HalfIsPrinted(c);
      } else {
        var n := WholeValue(s);
        DottedReads(n);
        ShownWhole(n);
        WholeIsPrinted(n, c);
      }
    }
  }

  lemma ShownWhole(n: int)
    ensures ShowWhole(n as real) == if n == LARGE then "1e+16" else Dotted(n)
  {
    assert (n as real).Floor == n;
    assert n as real != 0.5;
  }

  lemma WholeIsPrinted(n: int, c: FloatCodec)
    requires -LARGE < n <= LARGE && c.read("1e+16") == Some(LARGE as real) && c.read(Dotted(n)) == Some(n as real)
    ensures Printed(if n == LARGE then "1e+16" else Dotted(n), n as real, c)
  {
    if n == LARGE {
      LargeIsPrinted(c);
    } else {
      DottedIsPrinted(n, c);
    }
  }

  /** A large float loses its type: read from its digits, it prints without a dot, and its
      printed form reads as a string. */
  lemma LargeFloatLosesItsType()
    ensures var v := ParseVal(Dotted(LARGE), Codec());
      v == Float(LARGE as real) && FmtVal(v, Codec()) == "1e+16" && ParseVal("1e+16", Codec()) == Str("1e+16")
  {
    CodecIsOk();
    DottedReads(LARGE);
    DottedIsPrinted(LARGE, Codec());
    ReadsStripped(Dotted(LARGE), Codec());
    DottedEnds(LARGE);
    FloatMayBecomeString(LARGE as real, Codec());
  }
}
