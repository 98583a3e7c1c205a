/** `BooksScraper`: the scraper object, whose `books_data` list the scraping methods
    append to. */
module Scraper {
  import opened Wrappers
  import opened Text
  import opened Extractors
  import opened Catalog
  import opened Exporter
  import opened Validator

  class BooksScraper {
    /** `self.books_data`. */
    var booksData: seq<Book>
    /** The addresses requested so far, in order. */
    ghost var requested: seq<string>

    /** Every record the scraper holds is well formed. */
    ghost predicate Valid()
      reads this
    {
      forall k :: 0 <= k < |booksData| ==> WellFormed(booksData[k])
    }

    constructor()
      ensures booksData == [] && requested == []
      ensures Valid()
    {
      booksData := [];
      requested := [];
    }

    /** The body of the per-article `try` of `scrape_page`: the record for one article, or
        `None` where reading the title anchor raises and the article is skipped. */
    method ExtractBook(article: Article) returns (book: Option<Book>)
      ensures book == BookOf(article)
    {
      if article.anchor.None? {
        return None;
      }
      var anchor := article.anchor.value;
      var title := TitleOf(anchor);
      var url := ResolveHref(anchor.href);
      var price := PriceOf(article.priceStrings);
      var classes := article.ratingClasses.GetOr([]);
      var rating := 0;
      var i := 0;
      while i < |classes|
        invariant 0 <= i <= |classes|
        invariant forall j :: 0 <= j < i ==> classes[j] !in RatingLabels
        invariant rating == 0
      {
        if classes[i] in RatingLabels {
          rating := ConvertRatingToNumber(classes[i]);
          break;
        }
        i := i + 1;
      }
      ScannedRating(classes, i, rating);
      var availability := AvailabilityOf(article.availabilityStrings);
      book := Some(Book(title, price, rating, availability, url));
      BookOfAnchor(article, anchor);
    }

    /** `scrape_page`: request the page; on failure append nothing and return 0, otherwise
        append the record of every article that reads and return the number of articles. */
    method ScrapePage(source: PageSource, pageUrl: string) returns (count: nat)
      requires Valid()
      modifies this
      ensures Valid()
      ensures requested == old(requested) + [pageUrl]
      ensures count == PageCount(source, pageUrl)
      ensures booksData == old(booksData) + PageResult(source, pageUrl)
    {
      requested := requested + [pageUrl];
      var page := source(pageUrl);
      if page.None? {
        return 0;
      }
      var articles := page.value;
      var i := 0;
      while i < |articles|
        invariant 0 <= i <= |articles|
        invariant booksData == old(booksData) + PageBooks(articles[..i])
        invariant requested == old(requested) + [pageUrl]
      {
        var book := ExtractBook(articles[i]);
        PageBooksSnoc(articles, i);
        AppendAssoc(old(booksData), PageBooks(articles[..i]), Appended(book));
        if book.Some? {
          booksData := booksData + [book.value];
        }
        i := i + 1;
      }
      assert articles[..|articles|] == articles;
      PageBooksWellFormed(articles);
      return |articles|;
    }

    /** `scrape_all_pages`: page 1, then pages 2..50 until one returns 0. The pages
        requested are exactly 1..k for the stopping page k, and their records are appended
        page after page. */
    method ScrapeAllPages(source: PageSource)
      requires Valid()
      modifies this
      ensures Valid()
      ensures requested == old(requested) + PageUrls(CrawlEnd(source, 1))
      ensures booksData == old(booksData) + CrawlBooks(source, CrawlEnd(source, 1))
    {
      var booksCount := ScrapePage(source, PageUrl(1));
      // The page the crawl stops at: 1 if page 1 returns 0, else the page that breaks the
      // loop, else page 50.
      ghost var last := 1;
      if booksCount > 0 {
        FirstPageBooks(source);
        FirstPageUrls();
        last := LastPage;
        for pageNum := 2 to LastPage + 1
          invariant PagesReturned(source, pageNum - 1)
          invariant requested == old(requested) + PageUrls(pageNum - 1)
          invariant booksData == old(booksData) + CrawlBooks(source, pageNum - 1)
          invariant Valid()
        {
          ghost var requestedBefore, booksBefore := requested, booksData;
          var booksOnPage := ScrapePage(source, PageUrl(pageNum));
          PageUrlsStep(pageNum, old(requested), requestedBefore, requested);
          CrawlBooksStep(source, pageNum, old(booksData), booksBefore, booksData);
          if booksOnPage == 0 {
            last := pageNum;
            break;
          }
        }
      }
      CrawlStopsAt(source, last);
    }

    /** `save_to_csv`: nothing when there are no records; otherwise the header row and one
        row per record, which read back as exactly the records. */
    method SaveToCsv() returns (written: Option<seq<Row>>)
      ensures written.None? <==> booksData == []
      ensures written.Some? ==> written.value == Table(booksData)
      ensures written.Some? ==> ReadTable(written.value) == Some(booksData)
    {
      if booksData == [] {
        return None;
      }
      var rows := [HeaderRow];
      for i := 0 to |booksData|
        invariant rows == Table(booksData[..i])
      {
        assert booksData[..i + 1][..i] == booksData[..i];
        rows := rows + [RowOf(booksData[i])];
      }
      assert booksData[..|booksData|] == booksData;
      TableRoundTrip(booksData);
      return Some(rows);
    }

    /** `validate_data` on the current records. */
    function ValidateData(): (r: Report)
      reads this
      ensures r == Validate(booksData)
      ensures r.total == |booksData| && r.uniqueUrls == |UrlSet(booksData)|
      ensures r.duplicates >= 0 && (r.duplicates == 0 <==> DistinctUrls(booksData))
      ensures r.countInRange <==> 900 <= |booksData| <= 1100
      ensures forall k :: 0 <= k < 5 ==> r.ratingCounts[k] == CountRating(booksData, k + 1)
      ensures Valid() ==> RatedCount(booksData) + CountRating(booksData, 0) == r.total
    {
      RatingHistogram(booksData);
      Validate(booksData)
    }
  }
}
