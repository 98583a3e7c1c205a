/** What `scrape_page` sees of a catalogue page and the book records it builds from it,
    plus the catalogue's page addresses and the crawl `scrape_all_pages` performs. */
module Catalog {
  import opened Text
  import opened Wrappers
  import opened PyFloat
  import opened Extractors

  /** The `<a>` inside an article's `<h3>`: its `title` and `href` attributes, when present,
      and the text strings it contains. */
  datatype Anchor = Anchor(title: Option<string>, strings: seq<string>, href: Option<string>)

  /** One `article.product_pod` card. `anchor` is `None` when the card has no `<h3>` or the
      `<h3>` has no `<a>`; each paragraph is `None` when the card lacks it and otherwise
      gives the text strings it contains (and, for the rating, its class tokens). */
  datatype Article = Article(
    anchor: Option<Anchor>,
    priceStrings: Option<seq<string>>,
    ratingClasses: Option<seq<string>>,
    availabilityStrings: Option<seq<string>>)

  /** One record of `books_data`. */
  datatype Book = Book(title: string, price: Decimal, rating: nat, availability: string, url: string)

  const BaseUrl := "https://books.toscrape.com"
  const CatalogueUrl := BaseUrl + "/catalogue/"

  /** `get_text()`: the text strings joined as they are. */
  function GetText(strings: seq<string>): string {
    if strings == [] then [] else GetText(strings[..|strings| - 1]) + strings[|strings| - 1]
  }

  /** The text of a single string is that string. */
  lemma GetTextSingle(s: string)
    ensures GetText([s]) == s
  {
    assert [s][..0] == [];
  }

  /** The text of consecutive runs of strings is the texts of the runs, joined. */
  lemma {:induction false} GetTextConcat(a: seq<string>, b: seq<string>)
    ensures GetText(a + b) == GetText(a) + GetText(b)
  {
    if b == [] {
      assert a + b == a;
    } else {
      var b' := b[..|b| - 1];
      assert (a + b)[..|a + b| - 1] == a + b';
      GetTextConcat(a, b');
      assert (GetText(a) + GetText(b')) + b[|b| - 1] == GetText(a) + (GetText(b') + b[|b| - 1]);
    }
  }

  /** `get_text(strip=True)`: each string stripped, the empty ones dropped, the rest joined.
      The result starts and ends with a non-space character. */
  function StrippedText(strings: seq<string>): (r: string)
    ensures r != [] ==> !IsSpace(r[0]) && !IsSpace(r[|r| - 1])
  {
    if strings == [] then []
    else
      var init := StrippedText(strings[..|strings| - 1]);
      var last := Strip(strings[|strings| - 1]);
      assert init != [] && last != [] ==> (init + last)[0] == init[0];
      init + last
  }

  /** The title of a card: the anchor's `title` attribute when it has one, otherwise the
      anchor's stripped text. */
  function TitleOf(anchor: Anchor): (title: string)
    ensures anchor.title.Some? ==> title == anchor.title.value
    ensures anchor.title.None? ==> title == StrippedText(anchor.strings)
  {
    anchor.title.GetOr(StrippedText(anchor.strings))
  }

  /** An address with an `http` or `https` scheme. */
  predicate IsAbsolute(href: string) {
    "http://" <= href || "https://" <= href
  }

  /** The book address: the anchor's `href` resolved against the catalogue address. A
      missing or empty `href` gives the
      catalogue address itself, an absolute address is kept, a path from the root is put on
      the site, and anything else is resolved inside `/catalogue/`. */
  function ResolveHref(href: Option<string>): (url: string)
    ensures IsAbsolute(url)
    ensures href.None? || href == Some([]) ==> url == CatalogueUrl
    ensures href.Some? && IsAbsolute(href.value) ==> url == href.value
    ensures href.Some? && href.value != [] && !IsAbsolute(href.value) ==>
              url == (if href.value[0] == '/' then BaseUrl else CatalogueUrl) + href.value
  {
    match href
    case None => SiteAbsolute([]); CatalogueUrl
    case Some(h) =>
      SiteAbsolute(h);
      if h == [] then CatalogueUrl
      else if IsAbsolute(h) then h
      else if h[0] == '/' then BaseUrl + h
      else CatalogueUrl + h
  }

  /** Every address on the site, the catalogue address included, is absolute. */
  lemma SiteAbsolute(h: string)
    ensures IsAbsolute(CatalogueUrl) && IsAbsolute(BaseUrl + h) && IsAbsolute(CatalogueUrl + h)
  {
    var p := "https://";
    assert BaseUrl[..|p|] == p;
    assert (BaseUrl + h)[..|p|] == p;
    assert CatalogueUrl[..|p|] == p;
    assert (CatalogueUrl + h)[..|p|] == p;
  }

  /** Two relative `href`s that differ lead to different book addresses. */
  lemma ResolveRelativeInjective(h1: string, h2: string)
    requires h1 != [] && h2 != [] && h1[0] != '/' && h2[0] != '/'
    requires !IsAbsolute(h1) && !IsAbsolute(h2)
    requires ResolveHref(Some(h1)) == ResolveHref(Some(h2))
    ensures h1 == h2
  {
    var c := CatalogueUrl;
    assert (c + h1)[|c|..] == h1;
    assert (c + h2)[|c|..] == h2;
  }

  /** The price rule of `scrape_page`: `clean_price` of the paragraph's text, 0.0 without one. */
  function PriceOf(priceStrings: Option<seq<string>>): Decimal {
    match priceStrings
    case None => Zero
    case Some(strings) => CleanPrice(GetText(strings))
  }

  /** A price paragraph holding a currency symbol and then text without one gives
      `float()` of that text with its trailing whitespace stripped, or 0.0 when it does
      not parse. */
  lemma PriceOfSymbolThen(symbol: char, f: string)
    requires IsCurrencySymbol(symbol) && NoCurrencySymbol(f)
    ensures PriceOf(Some([[symbol] + f])) == ParseFloat(TrimEnd(f)).GetOr(Zero)
  {
    GetTextSingle([symbol] + f);
    CleanSymbolThen(symbol, f);
  }

  /** A missing price paragraph and one holding no digit both give 0.0. */
  lemma PriceOfWithoutDigits(priceStrings: Option<seq<string>>)
    requires priceStrings.Some? ==>
               forall k :: 0 <= k < |GetText(priceStrings.value)| ==> !IsDigit(GetText(priceStrings.value)[k])
    ensures PriceOf(priceStrings) == Zero
  {
    if priceStrings.Some? {
      CleanPriceWithoutDigits(GetText(priceStrings.value));
    }
  }

  /** The availability rule of `scrape_page` on the paragraph's stripped text. */
  function AvailabilityOf(availabilityStrings: Option<seq<string>>): (r: string)
    ensures r == InStock || r == OutOfStock || r == Unknown
    ensures r == Unknown <==> availabilityStrings.None?
    ensures r == InStock <==>
              availabilityStrings.Some? && IsSubstring(InStock, StrippedText(availabilityStrings.value))
  {
    match availabilityStrings
    case None => Availability(None)
    case Some(strings) => Availability(Some(StrippedText(strings)))
  }

  /** What every record `scrape_page` builds satisfies: a rating in 0..5, one of the
      three availability values and an absolute address. */
  predicate WellFormed(book: Book) {
    && book.rating <= 5
    && (book.availability == InStock || book.availability == OutOfStock || book.availability == Unknown)
    && IsAbsolute(book.url)
  }

  /** The record `scrape_page` appends for an article, or `None` when reading the article
      raises (it has no title anchor), in which case the article is skipped. */
  function BookOf(article: Article): (book: Option<Book>)
    ensures book.None? <==> article.anchor.None?
    ensures book.Some? ==> WellFormed(book.value)
  {
    match article.anchor
    case None => None
    case Some(anchor) =>
      Some(Book(
        TitleOf(anchor),
        PriceOf(article.priceStrings),
        ClassesRating(article.ratingClasses.GetOr([])),
        AvailabilityOf(article.availabilityStrings),
        ResolveHref(anchor.href)))
  }

  /** The record of an article with a title anchor, field by field. */
  lemma BookOfAnchor(article: Article, anchor: Anchor)
    requires article.anchor == Some(anchor)
    ensures BookOf(article) == Some(Book(TitleOf(anchor), PriceOf(article.priceStrings),
              ClassesRating(article.ratingClasses.GetOr([])), AvailabilityOf(article.availabilityStrings),
              ResolveHref(anchor.href)))
  {
  }

  /** The book of a present article, as a sequence of zero or one records. */
  function Appended(book: Option<Book>): seq<Book> {
    match book
    case None => []
    case Some(b) => [b]
  }

  /** The records `read` gives for `articles`, in order, the `None`s left out. */
  function Gather(read: Article -> Option<Book>, articles: seq<Article>): (books: seq<Book>)
    ensures |books| <= |articles|
  {
    if articles == [] then []
    else Gather(read, articles[..|articles| - 1]) + Appended(read(articles[|articles| - 1]))
  }

  /** The articles `read` gives no record for. */
  function Misses(read: Article -> Option<Book>, articles: seq<Article>): nat {
    if articles == [] then 0
    else Misses(read, articles[..|articles| - 1]) + (if read(articles[|articles| - 1]).None? then 1 else 0)
  }

  lemma {:induction false} GatherCount(read: Article -> Option<Book>, articles: seq<Article>)
    ensures |Gather(read, articles)| == |articles| - Misses(read, articles)
  {
    if articles != [] {
      GatherCount(read, articles[..|articles| - 1]);
    }
  }

  lemma {:induction false} GatherConcat(read: Article -> Option<Book>, a: seq<Article>, b: seq<Article>)
    ensures Gather(read, a + b) == Gather(read, a) + Gather(read, b)
  {
    if b == [] {
      assert a + b == a;
    } else {
      var c := a + b;
      var b' := b[..|b| - 1];
      assert c[..|c| - 1] == a + b';
      assert c[|c| - 1] == b[|b| - 1];
      GatherConcat(read, a, b');
      var x := Appended(read(b[|b| - 1]));
      assert (Gather(read, a) + Gather(read, b')) + x == Gather(read, a) + (Gather(read, b') + x);
    }
  }

  lemma {:induction false} GatherTotal(read: Article -> Option<Book>, articles: seq<Article>)
    requires forall i :: 0 <= i < |articles| ==> read(articles[i]).Some?
    ensures |Gather(read, articles)| == |articles|
    ensures forall k :: 0 <= k < |articles| ==> Gather(read, articles)[k] == read(articles[k]).value
  {
    if articles != [] {
      var init := articles[..|articles| - 1];
      var last := articles[|articles| - 1];
      GatherTotal(read, init);
      var g := Gather(read, init);
      assert Gather(read, articles) == g + [read(last).value];
      forall k | 0 <= k < |articles|
        ensures Gather(read, articles)[k] == read(articles[k]).value
      {
        if k < |init| {
          assert articles[k] == init[k];
          assert (g + [read(last).value])[k] == g[k];
        }
      }
    }
  }

  lemma {:induction false} GatherWellFormed(read: Article -> Option<Book>, articles: seq<Article>)
    requires forall a :: read(a).Some? ==> WellFormed(read(a).value)
    ensures forall k :: 0 <= k < |Gather(read, articles)| ==> WellFormed(Gather(read, articles)[k])
  {
    if articles != [] {
      GatherWellFormed(read, articles[..|articles| - 1]);
    }
  }

  /** The records a page's articles give, in page order, the skipped ones left out. */
  function PageBooks(articles: seq<Article>): (books: seq<Book>)
    ensures |books| <= |articles|
  {
    Gather(BookOf, articles)
  }

  /** Reading one more article adds its record, if any, at the end. */
  lemma PageBooksSnoc(articles: seq<Article>, i: nat)
    requires i < |articles|
    ensures PageBooks(articles[..i + 1]) == PageBooks(articles[..i]) + Appended(BookOf(articles[i]))
  {
    var p := articles[..i + 1];
    assert p[..i] == articles[..i];
    assert p[i] == articles[i];
  }

  /** Articles without a title anchor, the ones `scrape_page` skips. */
  function Skipped(articles: seq<Article>): nat {
    Misses(BookOf, articles)
  }

  /** One record per article, except the skipped ones. */
  lemma PageBooksCount(articles: seq<Article>)
    ensures |PageBooks(articles)| == |articles| - Skipped(articles)
  {
    GatherCount(BookOf, articles);
  }

  /** Records come out in article order: a page's records are those of its first half
      followed by those of its second half. */
  lemma PageBooksConcat(a: seq<Article>, b: seq<Article>)
    ensures PageBooks(a + b) == PageBooks(a) + PageBooks(b)
  {
    GatherConcat(BookOf, a, b);
  }

  /** When every article has its anchor, record `k` is article `k`'s book. */
  lemma PageBooksAllAnchored(articles: seq<Article>)
    requires forall i :: 0 <= i < |articles| ==> articles[i].anchor.Some?
    ensures |PageBooks(articles)| == |articles|
    ensures forall k :: 0 <= k < |articles| ==> PageBooks(articles)[k] == BookOf(articles[k]).value
  {
    GatherTotal(BookOf, articles);
  }

  /** Every record of a page is well formed. */
  lemma PageBooksWellFormed(articles: seq<Article>)
    ensures forall k :: 0 <= k < |PageBooks(articles)| ==> WellFormed(PageBooks(articles)[k])
  {
    GatherWellFormed(BookOf, articles);
  }

  /** The address of catalogue page `n`, as both f-strings of `scrape_all_pages` build it. */
  function PageUrl(n: nat): (url: string)
    ensures IsAbsolute(url) && CatalogueUrl <= url
  {
    var url := BaseUrl + "/catalogue/page-" + NatToDigits(n) + ".html";
    assert url == CatalogueUrl + ("page-" + NatToDigits(n) + ".html");
    SiteAbsolute("page-" + NatToDigits(n) + ".html");
    url
  }

  /** Different page numbers have different addresses. */
  lemma PageUrlInjective(m: nat, n: nat)
    requires PageUrl(m) == PageUrl(n)
    ensures m == n
  {
    var p := BaseUrl + "/catalogue/page-";
    var u := PageUrl(m);
    var v := PageUrl(n);
    var dm := NatToDigits(m);
    var dn := NatToDigits(n);
    assert u == p + (dm + ".html");
    assert v == p + (dn + ".html");
    assert u[|p|..] == dm + ".html";
    assert v[|p|..] == dn + ".html";
    assert |dm| == |dn|;
    assert (dm + ".html")[..|dm|] == dm;
    assert (dn + ".html")[..|dn|] == dn;
    NatToDigitsInjective(m, n);
  }

  /** How the site answers a request for an address: the page's articles, or `None` when
      the request fails, the status is an error or the page cannot be read. */
  type PageSource = string -> Option<seq<Article>>

  /** What `scrape_page` returns: the number of articles, 0 when the page fails. */
  function PageCount(source: PageSource, url: string): nat {
    match source(url)
    case None => 0
    case Some(articles) => |articles|
  }

  /** What `scrape_page` appends: the page's records, nothing when the page fails. */
  function PageResult(source: PageSource, url: string): (books: seq<Book>)
    ensures |books| <= PageCount(source, url)
    ensures source(url).None? ==> books == []
    ensures forall k :: 0 <= k < |books| ==> WellFormed(books[k])
  {
    match source(url)
    case None => []
    case Some(articles) =>
      PageBooksWellFormed(articles);
      PageBooks(articles)
  }

  /** An empty page, like a failed one, contributes nothing. */
  lemma EmptyPageResult(source: PageSource, url: string)
    requires PageCount(source, url) == 0
    ensures PageResult(source, url) == []
  {
  }

  /** The last page `scrape_all_pages` visits. */
  const LastPage := 50

  /** The page on which the crawl starting at page `n` stops: the first one that returns 0,
      or page 50. */
  function CrawlEnd(source: PageSource, n: nat): (last: nat)
    requires 1 <= n <= LastPage
    ensures n <= last <= LastPage
    ensures forall m :: n <= m < last ==> PageCount(source, PageUrl(m)) > 0
    ensures last == LastPage || PageCount(source, PageUrl(last)) == 0
    decreases LastPage - n
  {
    if n == LastPage || PageCount(source, PageUrl(n)) == 0 then n
    else CrawlEnd(source, n + 1)
  }

  /** The stopping page is pinned down by its properties: the pages before it return
      articles, and it is page 50 or returns none. */
  lemma {:induction false} CrawlEndUnique(source: PageSource, n: nat, last: nat)
    requires 1 <= n <= last <= LastPage
    requires forall m :: n <= m < last ==> PageCount(source, PageUrl(m)) > 0
    requires last == LastPage || PageCount(source, PageUrl(last)) == 0
    ensures CrawlEnd(source, n) == last
    decreases last - n
  {
    if n < last {
      assert PageCount(source, PageUrl(n)) > 0;
      CrawlEndUnique(source, n + 1, last);
    }
  }

  /** Pages 1..k all return articles. */
  predicate PagesReturned(source: PageSource, k: nat) {
    k == 0 || (PagesReturned(source, k - 1) && PageCount(source, PageUrl(k)) > 0)
  }

  lemma {:induction false} PagesReturnedAll(source: PageSource, k: nat)
    requires PagesReturned(source, k)
    ensures forall m :: 1 <= m <= k ==> PageCount(source, PageUrl(m)) > 0
  {
    if k > 0 {
      PagesReturnedAll(source, k - 1);
    }
  }

  /** The crawl from page 1 stops at `last` when the pages before it return articles and
      `last` is page 50 or returns none. */
  lemma CrawlStopsAt(source: PageSource, last: nat)
    requires 1 <= last <= LastPage
    requires PagesReturned(source, last - 1)
    requires last == LastPage || PageCount(source, PageUrl(last)) == 0
    ensures CrawlEnd(source, 1) == last
  {
    PagesReturnedAll(source, last - 1);
    CrawlEndUnique(source, 1, last);
  }

  /** The addresses of pages 1..k, in order. */
  function PageUrls(k: nat): (urls: seq<string>)
    ensures |urls| == k
    ensures forall i :: 0 <= i < k ==> urls[i] == PageUrl(i + 1)
  {
    if k == 0 then [] else PageUrls(k - 1) + [PageUrl(k)]
  }

  /** No page is requested twice. */
  lemma PageUrlsDistinct(k: nat)
    ensures forall i, j :: 0 <= i < j < k ==> PageUrls(k)[i] != PageUrls(k)[j]
  {
    forall i, j | 0 <= i < j < k
      ensures PageUrls(k)[i] != PageUrls(k)[j]
    {
      if PageUrls(k)[i] == PageUrls(k)[j] {
        PageUrlInjective(i + 1, j + 1);
      }
    }
  }

  lemma FirstPageUrls()
    ensures PageUrls(1) == [PageUrl(1)]
  {
  }

  /** The records of pages 1..k, page after page. */
  function CrawlBooks(source: PageSource, k: nat): (books: seq<Book>)
    ensures forall i :: 0 <= i < |books| ==> WellFormed(books[i])
  {
    if k == 0 then [] else CrawlBooks(source, k - 1) + PageResult(source, PageUrl(k))
  }

  lemma FirstPageBooks(source: PageSource)
    ensures CrawlBooks(source, 1) == PageResult(source, PageUrl(1))
  {
    assert CrawlBooks(source, 1) == [] + PageResult(source, PageUrl(1));
  }

  /** Appending page `n`'s records to the records of pages 1..n-1 gives those of pages 1..n. */
  lemma CrawlBooksStep(source: PageSource, n: nat, base: seq<Book>, before: seq<Book>, after: seq<Book>)
    requires n >= 1
    requires before == base + CrawlBooks(source, n - 1)
    requires after == before + PageResult(source, PageUrl(n))
    ensures after == base + CrawlBooks(source, n)
  {
    AppendAssoc(base, CrawlBooks(source, n - 1), PageResult(source, PageUrl(n)));
  }

  /** Requesting page `n` after pages 1..n-1 gives the requests for pages 1..n. */
  lemma PageUrlsStep(n: nat, base: seq<string>, before: seq<string>, after: seq<string>)
    requires n >= 1
    requires before == base + PageUrls(n - 1)
    requires after == before + [PageUrl(n)]
    ensures after == base + PageUrls(n)
  {
    AppendAssoc(base, PageUrls(n - 1), [PageUrl(n)]);
  }

  lemma AppendAssoc<T>(a: seq<T>, b: seq<T>, c: seq<T>)
    ensures (a + b) + c == a + (b + c)
  {
  }
}
