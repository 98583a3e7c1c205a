/** The field extractors of `BooksScraper`: rating labels, prices and availability. */
module Extractors {
  import opened Text
  import opened Wrappers
  import opened PyFloat

  /** The rating map, in the order `convert_rating_to_number` walks it: label k is worth k + 1. */
  const RatingLabels: seq<string> := ["One", "Two", "Three", "Four", "Five"]

  /** What `convert_rating_to_number` returns: the 1-based position of the first label,
      in the order One..Five, that occurs in `ratingClass` as a substring, and 0 if none does. */
  function LabelRating(ratingClass: string): (r: nat)
    ensures r <= 5
    ensures r == 0 <==> forall k :: 0 <= k < 5 ==> !IsSubstring(RatingLabels[k], ratingClass)
    ensures r > 0 ==> IsSubstring(RatingLabels[r - 1], ratingClass)
    ensures forall k :: 0 <= k < r - 1 ==> !IsSubstring(RatingLabels[k], ratingClass)
  {
    LabelRatingFrom(ratingClass, 0)
  }

  function LabelRatingFrom(ratingClass: string, i: nat): (r: nat)
    requires i <= 5
    ensures r == 0 || i < r <= 5
    ensures r == 0 <==> forall k :: i <= k < 5 ==> !IsSubstring(RatingLabels[k], ratingClass)
    ensures r > 0 ==> IsSubstring(RatingLabels[r - 1], ratingClass)
    ensures forall k :: i <= k < r - 1 ==> !IsSubstring(RatingLabels[k], ratingClass)
    decreases 5 - i
  {
    if i == 5 then 0
    else if IsSubstring(RatingLabels[i], ratingClass) then i + 1
    else LabelRatingFrom(ratingClass, i + 1)
  }

  /** `convert_rating_to_number`: the loop over the rating map with its early return. */
  method ConvertRatingToNumber(ratingClass: string) returns (number: nat)
    ensures number == LabelRating(ratingClass)
  {
    var i := 0;
    while i < |RatingLabels|
      invariant 0 <= i <= 5
      invariant forall k :: 0 <= k < i ==> !IsSubstring(RatingLabels[k], ratingClass)
    {
      if IsSubstring(RatingLabels[i], ratingClass) {
        return i + 1;
      }
      i := i + 1;
    }
    return 0;
  }

  /** Every label is rated by its own position: no earlier label occurs inside a later one. */
  lemma ExactLabelRating(k: nat)
    requires k < 5
    ensures LabelRating(RatingLabels[k]) == k + 1
  {
    var w := RatingLabels[k];
    assert OccursAt(w, w, 0);
    forall j | 0 <= j < k
      ensures !IsSubstring(RatingLabels[j], w)
    {
      var v := RatingLabels[j];
      if v[0] == 'O' {
        NotSubstringByFirstChar(v, w);
      } else if k == 2 {
        assert !OccursAt(v, w, 0) && !OccursAt(v, w, 1) && !OccursAt(v, w, 2);
      } else if k == 3 {
        NotSubstringByFirstChar(v, w);
      } else {
        assert k == 4;
        if j == 3 {
          assert !OccursAt(v, w, 0);
        } else {
          NotSubstringByFirstChar(v, w);
        }
      }
    }
  }

  /** A label given as the whole class text is rated by its own position. */
  lemma LabelRatedExactly(w: string)
    requires w in RatingLabels
    ensures 0 < LabelRating(w) && RatingLabels[LabelRating(w) - 1] == w
  {
    var k :| 0 <= k < 5 && RatingLabels[k] == w;
    ExactLabelRating(k);
  }

  /** Index of the first class token that is one of the labels, or `|classes|`. */
  function FirstLabelToken(classes: seq<string>): (j: nat)
    ensures j <= |classes|
    ensures forall i :: 0 <= i < j ==> classes[i] !in RatingLabels
    ensures j < |classes| ==> classes[j] in RatingLabels
  {
    if classes == [] || classes[0] in RatingLabels then 0
    else 1 + FirstLabelToken(classes[1..])
  }

  /** The rating the class-token loop of `scrape_page` finds: the first token that equals
      a label exactly, rated by `convert_rating_to_number`; 0 when no token is a label. */
  function ClassesRating(classes: seq<string>): (r: nat)
    ensures r <= 5
    ensures r == 0 <==> forall j :: 0 <= j < |classes| ==> classes[j] !in RatingLabels
    ensures r > 0 ==> classes[FirstLabelToken(classes)] == RatingLabels[r - 1]
  {
    var j := FirstLabelToken(classes);
    if j == |classes| then 0
    else
      LabelRatedExactly(classes[j]);
      LabelRating(classes[j])
  }

  /** A scan of the class tokens that stops at the first label, converting it, and gives
      0 when it runs off the end, finds the rating `ClassesRating` gives. */
  lemma ScannedRating(classes: seq<string>, i: nat, rating: nat)
    requires i <= |classes|
    requires forall j :: 0 <= j < i ==> classes[j] !in RatingLabels
    requires i == |classes| ==> rating == 0
    requires i < |classes| ==> classes[i] in RatingLabels && rating == LabelRating(classes[i])
    ensures rating == ClassesRating(classes)
  {
    if i < |classes| {
      assert FirstLabelToken(classes) == i;
    }
  }

  /** The currency symbols `clean_price` deletes: pound, dollar and euro. */
  predicate IsCurrencySymbol(c: char) {
    c == '£' || c == '$' || c == '€'
  }

  predicate NoCurrencySymbol(s: string) {
    forall k :: 0 <= k < |s| ==> !IsCurrencySymbol(s[k])
  }

  /** Every currency symbol deleted, every other character kept in order. */
  function RemoveCurrency(s: string): (r: string)
    ensures |r| <= |s| && NoCurrencySymbol(r)
    ensures NoCurrencySymbol(s) ==> r == s
  {
    if s == [] then []
    else if IsCurrencySymbol(s[0]) then RemoveCurrency(s[1..])
    else [s[0]] + RemoveCurrency(s[1..])
  }

  /** Deleting symbols adds nothing: every character left was in the text. */
  lemma {:induction false} RemoveCurrencyKeeps(s: string)
    ensures forall k :: 0 <= k < |RemoveCurrency(s)| ==> RemoveCurrency(s)[k] in s
  {
    if s != [] {
      RemoveCurrencyKeeps(s[1..]);
      var r := RemoveCurrency(s);
      forall k | 0 <= k < |r|
        ensures r[k] in s
      {
        if !IsCurrencySymbol(s[0]) && k == 0 {
          assert r[0] == s[0];
        } else if !IsCurrencySymbol(s[0]) {
          assert r[k] == RemoveCurrency(s[1..])[k - 1];
          assert r[k] in s[1..];
        } else {
          assert r[k] in s[1..];
        }
      }
    }
  }

  /** Deleting symbols works piecewise, so it keeps the order of what is left. */
  lemma {:induction false} RemoveCurrencyConcat(a: string, b: string)
    ensures RemoveCurrency(a + b) == RemoveCurrency(a) + RemoveCurrency(b)
  {
    if a == [] {
      assert a + b == b;
    } else {
      assert (a + b)[0] == a[0];
      assert (a + b)[1..] == a[1..] + b;
      RemoveCurrencyConcat(a[1..], b);
    }
  }

  /** `clean_price`: strip, delete the currency symbols, parse; 0.0 when parsing fails. */
  function CleanPrice(priceText: string): Decimal {
    ParseFloat(RemoveCurrency(Strip(priceText))).GetOr(Zero)
  }

  /** A price printed after a currency symbol is read back exactly: `£51.77` is 5177
      hundredths. */
  lemma CleanPrintedPrice(symbol: char, pounds: nat, pence: nat)
    requires IsCurrencySymbol(symbol) && pence < 100
    ensures CleanPrice([symbol] + FormatPrice(pounds, pence)) == Decimal(100 * pounds + pence, -2)
  {
    DecimalString(NatToDigits(pounds), PenceDigits(pence));
    ParseFormattedPrice(pounds, pence);
    CleanSymbolPrefixed(false, symbol, FormatPrice(pounds, pence), 100 * pounds + pence, -2);
  }

  /** A minus sign before the symbol survives: the price comes out negative. */
  lemma CleanNegativePrice(symbol: char, pounds: nat, pence: nat)
    requires IsCurrencySymbol(symbol) && pence < 100
    ensures CleanPrice("-" + [symbol] + FormatPrice(pounds, pence)) == Decimal(-(100 * pounds + pence), -2)
  {
    DecimalString(NatToDigits(pounds), PenceDigits(pence));
    ParseNegativePrice(pounds, pence);
    CleanSymbolPrefixed(true, symbol, FormatPrice(pounds, pence), -(100 * pounds + pence), -2);
  }

  /** With the symbol after an optional minus sign and a literal ending in a digit,
      `clean_price` is whatever `float()` reads from the text without the symbol. */
  lemma CleanSymbolPrefixed(negative: bool, symbol: char, f: string, digits: int, exponent: int)
    requires IsCurrencySymbol(symbol) && f != [] && IsDigit(f[|f| - 1]) && MantissaChars(f)
    requires ReadsAs(ParseFloat(if negative then "-" + f else f), digits, exponent)
    ensures CleanPrice(if negative then "-" + [symbol] + f else [symbol] + f) == Decimal(digits, exponent)
  {
    assert NoCurrencySymbol(f) by {
      forall k | 0 <= k < |f|
        ensures !IsCurrencySymbol(f[k])
      {
        assert IsDigit(f[k]) || f[k] == '.';
      }
    }
    if negative {
      SignedSymbolRemoved(symbol, f);
      CleanedAs("-" + [symbol] + f, "-" + f, digits, exponent);
    } else {
      SymbolRemoved(symbol, f);
      CleanedAs([symbol] + f, f, digits, exponent);
    }
  }

  /** Once the symbols are gone, `clean_price` is whatever `float()` reads. */
  lemma CleanedAs(priceText: string, cleaned: string, digits: int, exponent: int)
    requires RemoveCurrency(Strip(priceText)) == cleaned
    requires ReadsAs(ParseFloat(cleaned), digits, exponent)
    ensures CleanPrice(priceText) == Decimal(digits, exponent)
  {
  }

  /** For a literal `f` ending in a digit, `strip()` keeps `[symbol] + f` whole and the
      deletion leaves `f`. */
  lemma SymbolRemoved(symbol: char, f: string)
    requires IsCurrencySymbol(symbol) && f != [] && IsDigit(f[|f| - 1]) && NoCurrencySymbol(f)
    ensures RemoveCurrency(Strip([symbol] + f)) == f
  {
    var s := [symbol] + f;
    assert Strip(s) == s by {
      assert s[0] == symbol && s[|s| - 1] == f[|f| - 1];
      StripUnpadded(s);
    }
    LeadingSymbolDropped(symbol, f);
  }

  /** A leading currency symbol is deleted and the rest is processed as it stands. */
  lemma LeadingSymbolDropped(symbol: char, f: string)
    requires IsCurrencySymbol(symbol)
    ensures RemoveCurrency([symbol] + f) == RemoveCurrency(f)
  {
    assert ([symbol] + f)[1..] == f;
  }

  /** The same with a minus sign in front: the sign is kept. */
  lemma SignedSymbolRemoved(symbol: char, f: string)
    requires IsCurrencySymbol(symbol) && f != [] && IsDigit(f[|f| - 1]) && NoCurrencySymbol(f)
    ensures RemoveCurrency(Strip("-" + [symbol] + f)) == "-" + f
  {
    SignedUnstripped(symbol, f);
    SignedRemoved(symbol, f);
  }

  /** A signed price ending in a digit has no padding to strip. */
  lemma SignedUnstripped(symbol: char, f: string)
    requires f != [] && IsDigit(f[|f| - 1])
    ensures Strip("-" + [symbol] + f) == "-" + [symbol] + f
  {
    var s := "-" + [symbol] + f;
    assert s[0] == '-' && s[|s| - 1] == f[|f| - 1];
    StripUnpadded(s);
  }

  lemma SignedRemoved(symbol: char, f: string)
    requires IsCurrencySymbol(symbol) && NoCurrencySymbol(f)
    ensures RemoveCurrency("-" + [symbol] + f) == "-" + f
  {
    assert "-" + [symbol] + f == ['-'] + ([symbol] + f);
    LeadingCharKept('-', [symbol] + f);
    LeadingSymbolDropped(symbol, f);
  }

  /** A leading character other than a currency symbol is kept. */
  lemma LeadingCharKept(c: char, f: string)
    requires !IsCurrencySymbol(c)
    ensures RemoveCurrency([c] + f) == [c] + RemoveCurrency(f)
  {
    assert ([c] + f)[1..] == f;
  }

  /** A currency symbol in front of text without symbols: `clean_price` is whatever
      `float()` makes of that text once `strip()` has dropped its trailing whitespace,
      and 0.0 when `float()` rejects it. */
  lemma CleanSymbolThen(symbol: char, f: string)
    requires IsCurrencySymbol(symbol) && NoCurrencySymbol(f)
    ensures CleanPrice([symbol] + f) == ParseFloat(TrimEnd(f)).GetOr(Zero)
  {
    CleanedText(symbol, f);
  }

  /** A separator character after the symbol survives `strip()` and makes `float()` fail,
      so `clean_price` gives 0.0: for instance `£` then U+001C then `5`. */
  lemma SeparatorPrice(symbol: char, c: char, f: string)
    requires IsCurrencySymbol(symbol) && '\U{1C}' <= c <= '\U{1F}' && NoCurrencySymbol(f)
    ensures CleanPrice([symbol] + ([c] + f)) == Zero
  {
    var t := [c] + f;
    assert NoCurrencySymbol(t) by {
      forall k | 0 <= k < |t|
        ensures !IsCurrencySymbol(t[k])
      {
        if k > 0 {
          assert t[k] == f[k - 1];
        }
      }
    }
    SeparatorRejected(c, f);
    CleanSymbolThen(symbol, t);
  }

  /** Text that starts with a separator is rejected by `float()`, trailing whitespace
      dropped or not. */
  lemma SeparatorRejected(c: char, f: string)
    requires '\U{1C}' <= c <= '\U{1F}'
    ensures ParseFloat(TrimEnd([c] + f)) == None
  {
    var r := TrimEnd([c] + f);
    if r == [] {
      assert FloatStrip(r) == [];
    } else {
      assert r[0] == c;
      assert [c] + r[1..] == r;
      SeparatorNotIgnored(c, r[1..]);
    }
  }

  /** Stripping and deleting the symbol leave the text with its trailing whitespace dropped. */
  lemma CleanedText(symbol: char, f: string)
    requires IsCurrencySymbol(symbol) && NoCurrencySymbol(f)
    ensures RemoveCurrency(Strip([symbol] + f)) == TrimEnd(f)
  {
    var t := TrimEnd(f);
    SymbolPrefixStripped(symbol, f);
    LeadingSymbolDropped(symbol, t);
    assert NoCurrencySymbol(t) by {
      forall k | 0 <= k < |t|
        ensures !IsCurrencySymbol(t[k])
      {
        assert t[k] == f[k];
      }
    }
  }

  /** `strip()` keeps a leading symbol and drops only the trailing whitespace after it. */
  lemma SymbolPrefixStripped(symbol: char, f: string)
    requires IsCurrencySymbol(symbol)
    ensures Strip([symbol] + f) == [symbol] + TrimEnd(f)
  {
    var s := [symbol] + f;
    var r := [symbol] + TrimEnd(f);
    assert s[0..|r|] == r;
    assert forall k :: |r| <= k < |s| ==> s[k] == f[k - 1];
    assert Padded(s, r, 0);
    StripUnique(s, r, 0);
  }

  /** Text without any digit, such as a missing amount, falls back to 0.0. */
  lemma CleanPriceWithoutDigits(priceText: string)
    requires forall k :: 0 <= k < |priceText| ==> !IsDigit(priceText[k])
    ensures CleanPrice(priceText) == Zero
  {
    CleanedWithoutDigits(priceText);
    FloatShape(RemoveCurrency(Strip(priceText)));
  }

  /** Stripping and deleting symbols add no digit. */
  lemma CleanedWithoutDigits(priceText: string)
    requires forall k :: 0 <= k < |priceText| ==> !IsDigit(priceText[k])
    ensures !HasDigit(RemoveCurrency(Strip(priceText)))
  {
    var t := Strip(priceText);
    StrippedWithoutDigits(priceText);
    var u := RemoveCurrency(t);
    RemoveCurrencyKeeps(t);
    forall k | 0 <= k < |u|
      ensures !IsDigit(u[k])
    {
      assert u[k] in t;
    }
  }

  /** `strip()` adds no digit. */
  lemma StrippedWithoutDigits(priceText: string)
    requires forall k :: 0 <= k < |priceText| ==> !IsDigit(priceText[k])
    ensures forall k :: 0 <= k < |Strip(priceText)| ==> !IsDigit(Strip(priceText)[k])
  {
    var t := Strip(priceText);
    var i :| 0 <= i && Padded(priceText, t, i);
    forall k | 0 <= k < |t|
      ensures !IsDigit(t[k])
    {
      assert t[k] == priceText[i..i + |t|][k] == priceText[i + k];
    }
  }

  const InStock := "In stock"
  const OutOfStock := "Out of stock"
  const Unknown := "Unknown"

  /** The availability rule: "In stock" when the element's text contains it, "Out of stock"
      for any other text, "Unknown" when there is no availability element. */
  function Availability(text: Option<string>): (r: string)
    ensures r == InStock || r == OutOfStock || r == Unknown
    ensures r == InStock <==> text.Some? && IsSubstring(InStock, text.value)
    ensures r == Unknown <==> text.None?
  {
    match text
    case None => Unknown
    case Some(t) => if IsSubstring(InStock, t) then InStock else OutOfStock
  }
}
