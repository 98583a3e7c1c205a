/** Python's `float(str)` on finite decimal literals, with the value kept exactly
    as a decimal (no binary rounding). */
module PyFloat {
  import opened Text
  import opened Wrappers

  predicate IsSign(c: char) {
    c == '+' || c == '-'
  }

  predicate IsExponentMark(c: char) {
    c == 'e' || c == 'E'
  }

  /** The characters a finite decimal literal is made of. */
  predicate IsNumeralChar(c: char) {
    IsDigit(c) || c == '.' || IsSign(c) || IsExponentMark(c)
  }

  predicate AllNumeralChars(s: string) {
    forall k :: 0 <= k < |s| ==> IsNumeralChar(s[k])
  }

  predicate HasDigit(s: string) {
    exists k :: 0 <= k < |s| && IsDigit(s[k])
  }

  /** Only digits and decimal points. */
  predicate MantissaChars(m: string) {
    forall k :: 0 <= k < |m| ==> IsDigit(m[k]) || m[k] == '.'
  }

  /** Index of the first character of `s` that is in `cs`, or `|s|` if none is. */
  function IndexOfAny(s: string, cs: set<char>): (i: nat)
    ensures i <= |s|
    ensures forall k :: 0 <= k < i ==> s[k] !in cs
    ensures i < |s| ==> s[i] in cs
  {
    if s == [] || s[0] in cs then 0 else 1 + IndexOfAny(s[1..], cs)
  }

  /** An exact decimal number, `digits * 10^exponent`. It is positive exactly when
      `digits` is, since every power of ten is. */
  datatype Decimal = Decimal(digits: int, exponent: int) {

    predicate IsPositive() {
      digits > 0
    }

    function Negate(): Decimal {
      Decimal(-digits, exponent)
    }
  }

  /** `0.0`. */
  const Zero := Decimal(0, 0)

  /** `r` is the value `digits * 10^exponent`, compared field by field. */
  predicate ReadsAs(r: Option<Decimal>, digits: int, exponent: int)
  {
    r.Some? && r.value.digits == digits && r.value.exponent == exponent
  }

  /** A mantissa: `digits "." digits`, `digits ["."]` or `"." digits`; its value is all
      its digits read as one number, scaled down by the number of fraction digits. */
  function ParseMantissa(m: string): Option<Decimal> {
    var d := IndexOfAny(m, {'.'});
    var ip := m[..d];
    var fp := if d < |m| then m[d + 1..] else "";
    if AllDigits(ip) && AllDigits(fp) && |ip| + |fp| > 0 then
      DigitsConcat(ip, fp);
      Some(Decimal(DigitsValue(ip + fp), -|fp|))
    else
      None
  }

  lemma DigitsConcat(a: string, b: string)
    requires AllDigits(a) && AllDigits(b)
    ensures AllDigits(a + b)
  {
  }

  /** An exponent after `e`/`E`: an optional sign then at least one digit. */
  function ParseExponent(x: string): Option<int> {
    if x != [] && IsSign(x[0]) then
      var ds := x[1..];
      if ds != [] && AllDigits(ds) then
        var magnitude: int := DigitsValue(ds);
        Some(if x[0] == '-' then -magnitude else magnitude)
      else
        None
    else if x != [] && AllDigits(x) then
      Some(DigitsValue(x))
    else
      None
  }

  /** An unsigned literal: a mantissa with an optional exponent part. */
  function ParseUnsigned(t: string): Option<Decimal> {
    var e := IndexOfAny(t, {'e', 'E'});
    match ParseMantissa(t[..e])
    case None => None
    case Some(m) =>
      if e == |t| then
        Some(m)
      else
        match ParseExponent(t[e + 1..])
        case None => None
        case Some(x) => Some(Decimal(m.digits, m.exponent + x))
  }

  /** A literal with an optional leading sign. */
  function ParseLiteral(t: string): Option<Decimal> {
    if t != [] && IsSign(t[0]) then
      match ParseUnsigned(t[1..])
      case None => None
      case Some(v) => Some(if t[0] == '-' then v.Negate() else v)
    else
      ParseUnsigned(t)
  }

  /** The whitespace `float()` ignores around a literal. It turns every non-ASCII
      whitespace character into a space and then strips only ASCII whitespace, so it is
      `str.isspace()` less the four ASCII separators U+001C..U+001F, which stay and make
      the literal fail. */
  predicate IsFloatSpace(c: char) {
    IsSpace(c) && !('\U{1C}' <= c <= '\U{1F}')
  }

  /** The text left after dropping leading whitespace that `float()` ignores. */
  function FloatTrimStart(s: string): (r: string)
    ensures |r| <= |s| && r == s[|s| - |r|..]
    ensures forall k :: 0 <= k < |s| - |r| ==> IsFloatSpace(s[k])
    ensures r != [] ==> !IsFloatSpace(r[0])
    decreases |s|
  {
    if s != [] && IsFloatSpace(s[0]) then FloatTrimStart(s[1..]) else s
  }

  /** The text left after dropping trailing whitespace that `float()` ignores. */
  function FloatTrimEnd(s: string): (r: string)
    ensures |r| <= |s| && r == s[..|r|]
    ensures forall k :: |r| <= k < |s| ==> IsFloatSpace(s[k])
    ensures r != [] ==> !IsFloatSpace(r[|r| - 1])
    decreases |s|
  {
    if s != [] && IsFloatSpace(s[|s| - 1]) then FloatTrimEnd(s[..|s| - 1]) else s
  }

  /** `s` is `r` placed at offset `i` with only whitespace `float()` ignores around it. */
  predicate FloatPadded(s: string, r: string, i: nat) {
    && i + |r| <= |s| && s[i..i + |r|] == r
    && (forall k :: 0 <= k < i ==> IsFloatSpace(s[k]))
    && (forall k :: i + |r| <= k < |s| ==> IsFloatSpace(s[k]))
  }

  /** What `float()` reads of `s`: a contiguous slice with ignorable whitespace only
      around it, and neither end of it ignorable. */
  function FloatStrip(s: string): (r: string)
    ensures |r| <= |s|
    ensures r != [] ==> !IsFloatSpace(r[0]) && !IsFloatSpace(r[|r| - 1])
    ensures exists i :: 0 <= i && FloatPadded(s, r, i)
  {
    var t := FloatTrimStart(s);
    var r := FloatTrimEnd(t);
    FloatStripPadded(s, t, r);
    r
  }

  lemma FloatStripPadded(s: string, t: string, r: string)
    requires |t| <= |s| && |r| <= |t|
    requires t == s[|s| - |t|..] && r == t[..|r|]
    requires forall k :: 0 <= k < |s| - |t| ==> IsFloatSpace(s[k])
    requires forall k :: |r| <= k < |t| ==> IsFloatSpace(t[k])
    ensures FloatPadded(s, r, |s| - |t|)
  {
    var i := |s| - |t|;
    assert s[i..][..|r|] == s[i..i + |r|];
    forall k | i + |r| <= k < |s|
      ensures IsFloatSpace(s[k])
    {
      assert s[k] == t[k - i];
    }
  }

  /** Text whose ends are not ignorable whitespace is read whole. */
  lemma FloatStripUnpadded(s: string)
    requires s != [] ==> !IsFloatSpace(s[0]) && !IsFloatSpace(s[|s| - 1])
    ensures FloatStrip(s) == s
  {
  }

  /** `float(s)`: surrounding whitespace it ignores is dropped, the rest must be a
      literal; `None` stands for the `ValueError` Python raises. */
  function ParseFloat(s: string): Option<Decimal> {
    ParseLiteral(FloatStrip(s))
  }

  /** Dropping the whitespace `float()` ignores first does not change what it reads. */
  lemma ParseFloatStripped(s: string)
    ensures ParseFloat(FloatStrip(s)) == ParseFloat(s)
  {
    FloatStripUnpadded(FloatStrip(s));
  }

  /** `float()` ignores less than `str.strip()` removes: the separators U+001C..U+001F
      are whitespace to `strip()` but make `float()` fail. */
  lemma SeparatorNotIgnored(c: char, t: string)
    requires '\U{1C}' <= c <= '\U{1F}'
    ensures IsSpace(c) && !IsFloatSpace(c)
    ensures ParseFloat([c] + t) == None
  {
    var s := [c] + t;
    assert s[0] == c;
    var r := FloatStrip(s);
    if r != [] {
      var i :| 0 <= i && FloatPadded(s, r, i);
      assert i == 0 && r[0] == c;
      LiteralStart(r);
    }
  }

  /** A literal that parses starts with a digit, a sign or a point. */
  lemma LiteralStart(t: string)
    requires t != [] && !IsNumeralChar(t[0])
    ensures ParseLiteral(t) == None
  {
    LiteralShape(t);
  }

  /** What a mantissa that parses is made of: digits and a point, at least one digit,
      and a non-negative value. */
  lemma MantissaShape(m: string)
    ensures ParseMantissa(m).Some? ==> HasDigit(m) && MantissaChars(m) && ParseMantissa(m).value.digits >= 0
  {
    var d := IndexOfAny(m, {'.'});
    var ip := m[..d];
    var fp := if d < |m| then m[d + 1..] else "";
    if AllDigits(ip) && AllDigits(fp) && |ip| + |fp| > 0 {
      MantissaPieces(m, d);
    }
  }

  /** A point-separated pair of digit runs, not both empty, is made of digits and points
      and holds a digit. */
  lemma MantissaPieces(m: string, d: nat)
    requires d <= |m| && (d < |m| ==> m[d] == '.')
    requires AllDigits(m[..d]) && AllDigits(if d < |m| then m[d + 1..] else "")
    requires d > 0 || d + 1 < |m|
    ensures HasDigit(m) && MantissaChars(m)
  {
    var fp := if d < |m| then m[d + 1..] else "";
    forall k | 0 <= k < |m|
      ensures IsDigit(m[k]) || m[k] == '.'
    {
      if k < d {
        assert m[k] == m[..d][k];
      } else if k > d {
        assert m[k] == fp[k - d - 1];
      }
    }
    if d > 0 {
      assert m[0] == m[..d][0];
    } else {
      assert m[d + 1] == fp[0];
    }
  }

  /** An exponent that parses is made of digits and signs. */
  lemma ExponentShape(x: string)
    ensures ParseExponent(x).Some? ==> forall k :: 0 <= k < |x| ==> IsDigit(x[k]) || IsSign(x[k])
  {
    if x != [] && IsSign(x[0]) {
      assert forall k :: 0 < k < |x| ==> x[k] == x[1..][k - 1];
    }
  }

  /** An unsigned literal that parses has a digit, only numeral characters and a
      non-negative value. */
  lemma UnsignedShape(t: string)
    ensures ParseUnsigned(t).Some? ==> HasDigit(t) && AllNumeralChars(t) && ParseUnsigned(t).value.digits >= 0
  {
    var e := IndexOfAny(t, {'e', 'E'});
    var m := t[..e];
    MantissaShape(m);
    if ParseUnsigned(t).Some? {
      if e == |t| {
        assert m == t;
      } else {
        ExponentShape(t[e + 1..]);
        NumeralSplit(t, e, m, t[e + 1..]);
      }
    }
  }

  /** A mantissa, an exponent mark and an exponent make a literal. */
  lemma NumeralSplit(t: string, e: nat, m: string, x: string)
    requires e < |t| && IsExponentMark(t[e]) && m == t[..e] && x == t[e + 1..]
    requires HasDigit(m) && MantissaChars(m)
    requires forall k :: 0 <= k < |x| ==> IsDigit(x[k]) || IsSign(x[k])
    ensures HasDigit(t) && AllNumeralChars(t)
  {
    var j :| 0 <= j < e && IsDigit(m[j]);
    assert IsDigit(t[j]);
    forall k | 0 <= k < |t|
      ensures IsNumeralChar(t[k])
    {
      if k < e {
        assert t[k] == m[k];
      } else if k > e {
        assert t[k] == x[k - e - 1];
      }
    }
  }

  /** A literal that parses has a digit and only numeral characters. */
  lemma LiteralShape(t: string)
    ensures ParseLiteral(t).Some? ==> HasDigit(t) && AllNumeralChars(t)
  {
    if t != [] && IsSign(t[0]) {
      UnsignedShape(t[1..]);
      assert forall k :: 0 < k < |t| ==> t[k] == t[1..][k - 1];
      if ParseLiteral(t).Some? {
        var j :| 0 <= j < |t[1..]| && IsDigit(t[1..][j]);
        assert IsDigit(t[j + 1]);
      }
    } else {
      UnsignedShape(t);
    }
  }

  /** Text `float()` accepts holds a digit, and once stripped holds nothing but
      digits, signs, points and exponent marks (so no currency symbol). */
  lemma FloatShape(s: string)
    ensures ParseFloat(s).Some? ==> HasDigit(s) && AllNumeralChars(FloatStrip(s))
  {
    var t := FloatStrip(s);
    LiteralShape(t);
    if ParseLiteral(t).Some? {
      var i :| 0 <= i && FloatPadded(s, t, i);
      var k :| 0 <= k < |t| && IsDigit(t[k]);
      assert s[i + k] == t[k];
    }
  }

  /** A literal without an exponent mark or a sign is read as a mantissa alone. */
  lemma LiteralWithoutExponent(t: string)
    requires t != [] && IsDigit(t[0]) && MantissaChars(t)
    ensures ParseLiteral(t) == ParseMantissa(t)
  {
    assert IndexOfAny(t, {'e', 'E'}) == |t|;
    assert t[..|t|] == t;
  }

  /** `ip.fp` with digit strings on both sides is read as the digits of `ip + fp`
      scaled down by `|fp|` places. */
  lemma ParseDecimalPoint(ip: string, fp: string)
    requires AllDigits(ip) && AllDigits(fp) && |ip| + |fp| > 0
    ensures AllDigits(ip + fp)
    ensures ReadsAs(ParseMantissa(ip + "." + fp), DigitsValue(ip + fp), -|fp|)
  {
    var m := ip + "." + fp;
    PointIndex(ip, fp);
    assert m[..|ip|] == ip;
    assert m[|ip| + 1..] == fp;
  }

  /** The first point of `ip.fp` is the one after `ip` when `ip` has no point. */
  lemma PointIndex(ip: string, fp: string)
    requires AllDigits(ip)
    ensures IndexOfAny(ip + "." + fp, {'.'}) == |ip|
  {
    var m := ip + "." + fp;
    assert forall k :: 0 <= k < |ip| ==> m[k] == ip[k];
    assert m[|ip|] == '.';
  }

  /** `ip.fp` is a literal that `strip()` and `float()` leave whole. */
  lemma DecimalString(ip: string, fp: string)
    requires AllDigits(ip) && AllDigits(fp) && ip != [] && fp != []
    ensures var s := ip + "." + fp; IsDigit(s[0]) && IsDigit(s[|s| - 1]) && MantissaChars(s)
    ensures Strip(ip + "." + fp) == ip + "." + fp
    ensures FloatStrip(ip + "." + fp) == ip + "." + fp
  {
    var s := ip + "." + fp;
    assert s[0] == ip[0] && s[|s| - 1] == fp[|fp| - 1];
    StripUnpadded(s);
    FloatStripUnpadded(s);
  }

  /** `float()` reads `ip.fp`, with digits on both sides of the point, exactly. */
  lemma ParseDecimal(ip: string, fp: string)
    requires AllDigits(ip) && AllDigits(fp) && ip != [] && fp != []
    ensures AllDigits(ip + fp)
    ensures ReadsAs(ParseLiteral(ip + "." + fp), DigitsValue(ip + fp), -|fp|)
    ensures ReadsAs(ParseFloat(ip + "." + fp), DigitsValue(ip + fp), -|fp|)
  {
    DecimalString(ip, fp);
    LiteralWithoutExponent(ip + "." + fp);
    ParseDecimalPoint(ip, fp);
  }

  /** A minus sign in front of a literal that starts and ends with a digit negates
      the value `float()` reads. */
  lemma ParseNegated(t: string, digits: int, exponent: int)
    requires t != [] && IsDigit(t[0]) && IsDigit(t[|t| - 1])
    requires ReadsAs(ParseLiteral(t), digits, exponent)
    ensures ReadsAs(ParseFloat("-" + t), -digits, exponent)
  {
    var g := "-" + t;
    assert g[1..] == t;
    assert g[0] == '-';
    assert ParseLiteral(g) == Some(ParseLiteral(t).value.Negate());
    assert ParseFloat(g) == ParseLiteral(g) by {
      SignedUnpadded(t);
    }
  }

  /** A minus sign in front of text that ends in a digit leaves nothing for `float()`
      to drop. */
  lemma SignedUnpadded(s: string)
    requires s != [] && IsDigit(s[|s| - 1])
    ensures FloatStrip("-" + s) == "-" + s
  {
    var g := "-" + s;
    assert g[0] == '-' && g[|g| - 1] == s[|s| - 1];
    FloatStripUnpadded(g);
  }

  /** With a minus sign in front, `float()` reads the negated value. */
  lemma ParseNegativeDecimal(ip: string, fp: string)
    requires AllDigits(ip) && AllDigits(fp) && ip != [] && fp != []
    ensures AllDigits(ip + fp)
    ensures ReadsAs(ParseFloat("-" + (ip + "." + fp)), -(DigitsValue(ip + fp) as int), -|fp|)
  {
    DecimalString(ip, fp);
    ParseDecimal(ip, fp);
    ParseNegated(ip + "." + fp, DigitsValue(ip + fp), -|fp|);
  }

  /** The two pence digits of a price. */
  function PenceDigits(pence: nat): (s: string)
    requires pence < 100
    ensures |s| == 2 && AllDigits(s)
  {
    [DigitChar(pence / 10), DigitChar(pence % 10)]
  }

  /** A price as the catalogue prints it after its currency symbol: `pounds.pence`. */
  function FormatPrice(pounds: nat, pence: nat): string
    requires pence < 100
  {
    NatToDigits(pounds) + "." + PenceDigits(pence)
  }

  /** The digits of `pounds` followed by two pence digits read as `100 * pounds + pence`. */
  lemma PriceDigits(pounds: nat, pence: nat)
    requires pence < 100
    ensures AllDigits(NatToDigits(pounds) + PenceDigits(pence))
    ensures DigitsValue(NatToDigits(pounds) + PenceDigits(pence)) == 100 * pounds + pence
  {
    var ip := NatToDigits(pounds);
    var s := ip + PenceDigits(pence);
    var a := DigitChar(pence / 10);
    assert AllDigits(s);
    assert s[..|s| - 1] == ip + [a];
    assert (ip + [a])[..|ip|] == ip;
    DigitsRoundTrip(pounds);
  }

  /** `float()` reads back a printed price exactly: `pounds.pence` is `100 * pounds + pence`
      hundredths. */
  lemma ParseFormattedPrice(pounds: nat, pence: nat)
    requires pence < 100
    ensures ReadsAs(ParseFloat(FormatPrice(pounds, pence)), 100 * pounds + pence, -2)
  {
    ParseDecimal(NatToDigits(pounds), PenceDigits(pence));
    PriceDigits(pounds, pence);
  }

  /** `float()` reads a printed price after a minus sign as its negation. */
  lemma ParseNegativePrice(pounds: nat, pence: nat)
    requires pence < 100
    ensures ReadsAs(ParseFloat("-" + FormatPrice(pounds, pence)), -(100 * pounds + pence), -2)
  {
    ParseNegativeDecimal(NatToDigits(pounds), PenceDigits(pence));
    PriceDigits(pounds, pence);
  }
}
