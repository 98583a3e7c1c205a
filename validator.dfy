/** The statistics `validate_data` computes over `books_data`. */
module Validator {
  import opened PyFloat
  import opened Catalog

  /** The set of the records' URLs, which `validate_data` builds to count distinct addresses. */
  function UrlSet(data: seq<Book>): (urls: set<string>)
    ensures forall i :: 0 <= i < |data| ==> data[i].url in urls
    ensures forall u :: u in urls ==> exists i :: 0 <= i < |data| && data[i].url == u
  {
    if data == [] then {}
    else UrlSet(data[..|data| - 1]) + {data[|data| - 1].url}
  }

  /** No two records share a URL. */
  predicate DistinctUrls(data: seq<Book>) {
    forall i, j :: 0 <= i < j < |data| ==> data[i].url != data[j].url
  }

  /** There are never more distinct URLs than records, so `duplicates` is never negative. */
  lemma {:induction false} UrlSetBound(data: seq<Book>)
    ensures |UrlSet(data)| <= |data|
  {
    if data != [] {
      UrlSetBound(data[..|data| - 1]);
    }
  }

  /** `duplicates` is 0 exactly when the URLs are pairwise distinct. */
  lemma {:induction false} NoDuplicatesIff(data: seq<Book>)
    ensures |UrlSet(data)| == |data| <==> DistinctUrls(data)
  {
    if data != [] {
      var init := data[..|data| - 1];
      NoDuplicatesIff(init);
      UrlSetBound(init);
      DistinctSnoc(data);
    }
  }

  /** A sequence of records has distinct URLs exactly when all but its last record do and
      the last URL is new. */
  lemma DistinctSnoc(data: seq<Book>)
    requires data != []
    ensures DistinctUrls(data) <==>
              DistinctUrls(data[..|data| - 1]) && data[|data| - 1].url !in UrlSet(data[..|data| - 1])
  {
    var init := data[..|data| - 1];
    var last := data[|data| - 1].url;
    assert forall i :: 0 <= i < |init| ==> init[i] == data[i];
  }

  /** The prices above zero, in record order: the list the average price is taken over. */
  function PositivePrices(data: seq<Book>): (prices: seq<Decimal>)
    ensures |prices| <= |data|
    ensures forall k :: 0 <= k < |prices| ==> prices[k].IsPositive()
  {
    if data == [] then []
    else
      var rest := PositivePrices(data[..|data| - 1]);
      var p := data[|data| - 1].price;
      if p.IsPositive() then rest + [p] else rest
  }

  /** The number of records whose price is above zero. */
  function CountPositive(data: seq<Book>): (n: nat)
    ensures n <= |data|
  {
    if data == [] then 0
    else CountPositive(data[..|data| - 1]) + (if data[|data| - 1].price.IsPositive() then 1 else 0)
  }

  /** The list holds one price per positive-priced record, so its length is the average's
      denominator. */
  lemma {:induction false} PositivePricesCount(data: seq<Book>)
    ensures |PositivePrices(data)| == CountPositive(data)
  {
    if data != [] {
      PositivePricesCount(data[..|data| - 1]);
    }
  }

  /** Every positive price is kept, and only prices of the records are. */
  lemma {:induction false} PositivePricesComplete(data: seq<Book>)
    ensures forall i :: 0 <= i < |data| && data[i].price.IsPositive() ==> data[i].price in PositivePrices(data)
    ensures forall p :: p in PositivePrices(data) ==> exists i :: 0 <= i < |data| && data[i].price == p
  {
    if data != [] {
      var init := data[..|data| - 1];
      PositivePricesComplete(init);
      forall i | 0 <= i < |init|
        ensures data[i] == init[i]
      {
      }
    }
  }

  /** The number of records rated `r`, counted over the list of ratings. */
  function CountRating(data: seq<Book>, r: nat): (n: nat)
    ensures n <= |data|
  {
    if data == [] then 0
    else CountRating(data[..|data| - 1], r) + (if data[|data| - 1].rating == r then 1 else 0)
  }

  /** The positions of the records rated `r`. */
  function RatedAt(data: seq<Book>, r: nat): set<nat> {
    set i: nat | i < |data| && data[i].rating == r
  }

  /** The count of rating `r` is the number of positions holding a record rated `r`. */
  lemma {:induction false} CountRatingPositions(data: seq<Book>, r: nat)
    ensures CountRating(data, r) == |RatedAt(data, r)|
  {
    if data != [] {
      var n := |data| - 1;
      var init := data[..n];
      CountRatingPositions(init, r);
      var tail: set<nat> := if data[n].rating == r then {n} else {};
      forall i: nat | i < n
        ensures data[i] == init[i]
      {
      }
      assert RatedAt(data, r) == RatedAt(init, r) + tail;
      assert n !in RatedAt(init, r);
    }
  }

  /** The histogram line: counts of 1..5 stars. */
  function RatingCounts(data: seq<Book>): (counts: seq<nat>)
    ensures |counts| == 5
    ensures forall k :: 0 <= k < 5 ==> counts[k] == CountRating(data, k + 1)
  {
    [CountRating(data, 1), CountRating(data, 2), CountRating(data, 3), CountRating(data, 4), CountRating(data, 5)]
  }

  /** The five counts of the histogram line added up. */
  function RatedCount(data: seq<Book>): nat {
    CountRating(data, 1) + CountRating(data, 2) + CountRating(data, 3) + CountRating(data, 4) + CountRating(data, 5)
  }

  /** With every rating in 0..5, the unrated books and the five counts make up the total;
      so the five counts never add up to more than the number of books. */
  lemma {:induction false} RatingHistogram(data: seq<Book>)
    ensures (forall i :: 0 <= i < |data| ==> data[i].rating <= 5) ==> CountRating(data, 0) + RatedCount(data) == |data|
    ensures RatedCount(data) <= |data|
  {
    if data != [] {
      var init := data[..|data| - 1];
      assert forall i :: 0 <= i < |init| ==> init[i] == data[i];
      RatingHistogram(init);
    }
  }

  /** The expected-count check of `validate_data`. */
  predicate InExpectedRange(total: nat) {
    900 <= total <= 1100
  }

  /** What `validate_data` reports. */
  datatype Report = Report(
    total: nat,
    uniqueUrls: nat,
    duplicates: int,
    positivePrices: seq<Decimal>,
    countInRange: bool,
    ratingCounts: seq<nat>)

  /** `validate_data`: the totals it prints, as values. */
  function Validate(data: seq<Book>): (r: Report)
    ensures r.total == |data|
    ensures r.uniqueUrls == |UrlSet(data)| && r.uniqueUrls <= r.total
    ensures r.duplicates >= 0
    ensures r.duplicates == 0 <==> DistinctUrls(data)
    ensures r.duplicates == r.total - r.uniqueUrls
    ensures r.positivePrices == PositivePrices(data) && |r.positivePrices| == CountPositive(data)
    ensures r.countInRange <==> 900 <= |data| <= 1100
    ensures |r.ratingCounts| == 5
    ensures forall k :: 0 <= k < 5 ==> r.ratingCounts[k] == CountRating(data, k + 1)
    ensures RatedCount(data) <= r.total
  {
    var unique := |UrlSet(data)|;
    UrlSetBound(data);
    NoDuplicatesIff(data);
    RatingHistogram(data);
    PositivePricesCount(data);
    Report(|data|, unique, |data| - unique, PositivePrices(data), InExpectedRange(|data|), RatingCounts(data))
  }
}
