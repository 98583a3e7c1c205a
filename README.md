# Books scraper, modelled in Dafny

This project models `BooksScraper` from `scraper.py`, a scraper for the books.toscrape.com
catalogue, and proves properties of the model. The scraper requests the catalogue pages in
order. From every `article.product_pod` card it builds a record with five fields: title,
price, star rating, availability and book address. It appends each record to
`books_data`. It can then write the records to a CSV table and print statistics about
them.

The model has eight modules:

- `Wrappers`: the `Option` type.
- `Text`: Python's `isspace`, `strip` and substring test `in`, plus decimal digits.
- `PyFloat`: Python's `float(str)` on finite decimal literals. Values are kept exactly, as
  `digits * 10^exponent`. `float()` ignores slightly less whitespace than `str.strip()`
  removes: U+001C..U+001F are left in place and make the literal fail.
- `Extractors`: `convert_rating_to_number`, `clean_price` and the availability rule.
- `Catalog`:
  - what `scrape_page` reads from a card (`Article`) and the record it builds (`Book`);
  - the page addresses;
  - the functions that define what one page yields (`PageResult`) and what the whole
    crawl yields (`CrawlEnd`, `CrawlBooks`, `PageUrls`).
- `Validator`: the numbers `validate_data` reports.
- `Exporter`: the table `save_to_csv` writes, and reading it back through its header row.
- `Scraper`: the class `BooksScraper`.
  - `booksData` is `books_data`.
  - The ghost field `requested` logs the page addresses requested, in order.

The methods `ScrapePage` and `ScrapeAllPages` are proved against the `Catalog` functions.
They append exactly `PageResult` and exactly `CrawlBooks` up to the page where the crawl
stops.

The site is a parameter. `PageSource` maps an address to the page's articles, or to `None`
when the request raises, the status is an error, or the page cannot be read. The HTML is
given as data:

- `Article` holds the optional title anchor.
- It holds the text strings of the price and availability paragraphs when those exist.
- It holds the class tokens of the rating paragraph.

Prices are not forced to be non-negative. `clean_price` keeps a minus sign, so `-£5.00`
reads as -5.00 (`Extractors.CleanNegativePrice`). A non-negative price would be a
property of the site's pages, not of the code, and the model follows the code. In the model a
record's rating is always in 0..5, its availability is always one of the three strings,
and its address is always an absolute `http(s)` address (`Catalog.WellFormed`). The
address part holds of the modelled resolution only; see `Catalog.ResolveHref` under
"Left out". `BooksScraper.Valid` keeps that invariant for every record held.

## Model

| member | source | states |
|---|---|---|
| `Text.Strip` | scraper.py:36 | `strip()` returns a contiguous slice of the text. There is only whitespace around the slice, and the slice neither starts nor ends with whitespace. |
| `Text.StripUnpadded` | scraper.py:36 | Text whose first and last characters are not whitespace is returned unchanged by `strip()`. |
| `Text.StripIdempotent` | scraper.py:36 | Stripping twice gives the same text as stripping once. |
| `Text.StripUnique` | scraper.py:36 | When text is whitespace around a slice that neither starts nor ends with whitespace, `strip()` returns exactly that slice. |
| `Text.DigitsRoundTrip` | scraper.py:120 | The decimal rendering of a page number reads back as that number. |
| `Text.NatToDigitsInjective` | scraper.py:120 | Different page numbers render as different digit strings. |
| `PyFloat.FloatShape` | scraper.py:38 | Text that the modelled `float()` accepts contains a digit. Once the whitespace `float()` ignores is dropped, it holds only digits, signs, points and exponent marks, so no currency symbol. |
| `PyFloat.FloatStrip` | scraper.py:38 | What `float()` reads of its argument is a contiguous slice with only ignorable whitespace around it, and neither end of the slice is ignorable. Ignorable whitespace is `str.isspace()` less U+001C..U+001F. |
| `PyFloat.FloatStripUnpadded` | scraper.py:38 | Text whose ends are not ignorable whitespace is read whole by `float()`. |
| `PyFloat.ParseFloat` | scraper.py:38 | `float(str)`: the text with the whitespace `float()` ignores dropped at both ends, read as a finite decimal literal, or `None` where Python raises `ValueError`. Its properties are the `PyFloat` lemmas in this table. |
| `PyFloat.SeparatorNotIgnored` | scraper.py:38 | U+001C..U+001F are whitespace to `str.strip()`, but `float()` does not ignore them: text starting with one is rejected. |
| `PyFloat.ParseFloatStripped` | scraper.py:38 | Dropping the whitespace `float()` ignores before calling it reads the same value, or fails the same way. |
| `PyFloat.ParseDecimal` | scraper.py:38 | `float()` reads `ip.fp`, with digits on both sides of the point, exactly: the digits of `ip + fp`, scaled down by `len(fp)` places. |
| `PyFloat.ParseNegated` | scraper.py:38 | A minus sign in front of such a literal negates the value `float()` reads. |
| `PyFloat.ParseFormattedPrice` | scraper.py:38 | A price printed as `pounds.pence` is read back as `100 * pounds + pence` hundredths. |
| `PyFloat.ParseNegativePrice` | scraper.py:38 | With a minus sign in front, the same price is read as its negation. |
| `Extractors.LabelRating` | scraper.py:18-31 | The rating of a class string is 1..5 or 0. It is 0 exactly when none of One..Five occurs in the string. Otherwise it is the position of the first label, in map order, that occurs, and no earlier label occurs. |
| `Extractors.ConvertRatingToNumber` | scraper.py:18-31 | The loop over the rating map, with its early return, returns exactly `LabelRating` of its argument. |
| `Extractors.ExactLabelRating` | scraper.py:20-31 | Each label by itself is rated by its own position ("Three" is 3). No earlier label occurs inside a later one. |
| `Extractors.ClassesRating` | scraper.py:69-75 | The class-token loop gives a rating in 0..5. It is 0 exactly when no token equals a label. Otherwise it is the rating of the first such token, and that token is the label of that rating. |
| `Extractors.ScannedRating` | scraper.py:71-75 | A scan that stops at the first label token and converts it, and gives 0 when it runs off the end, finds the rating `ClassesRating` gives. |
| `Extractors.RemoveCurrency` | scraper.py:36 | Removing symbols never makes the text longer and leaves no £, $ or €. Text without a symbol is unchanged. |
| `Extractors.RemoveCurrencyKeeps` | scraper.py:36 | Every character left after removing the symbols was in the text. |
| `Extractors.RemoveCurrencyConcat` | scraper.py:36 | Symbol removal works piece by piece, so the characters that remain keep their order. |
| `Extractors.CleanPrice` | scraper.py:33-40 | `clean_price`: strip, remove every £, $ and €, then `float()`, with 0.0 when `float()` fails. Its properties are the `CleanPrintedPrice`, `CleanNegativePrice`, `CleanPriceWithoutDigits` and `CleanSymbolThen` lemmas. |
| `Extractors.CleanPrintedPrice` | scraper.py:33-40 | `clean_price` of a currency symbol followed by `pounds.pence` is exactly `100 * pounds + pence` hundredths. |
| `Extractors.CleanNegativePrice` | scraper.py:33-40 | A minus sign before the symbol survives: `clean_price` gives the negated price. |
| `Extractors.CleanPriceWithoutDigits` | scraper.py:37-40 | Price text without a digit makes the modelled `float()` fail, and `clean_price` gives 0.0. |
| `Extractors.CleanSymbolPrefixed` | scraper.py:33-40 | With a currency symbol after an optional minus sign, and a mantissa ending in a digit, `clean_price` gives exactly the value `float()` reads from the text without the symbol. |
| `Extractors.CleanSymbolThen` | scraper.py:33-40 | `clean_price` of a currency symbol followed by any text without a symbol is `float()` of that text with its trailing whitespace stripped, or 0.0 when `float()` fails. |
| `Extractors.SeparatorRejected` | scraper.py:36-40 | Text that starts with one of U+001C..U+001F is rejected by `float()`, with or without its trailing whitespace. |
| `Extractors.SeparatorPrice` | scraper.py:33-40 | A currency symbol followed by one of U+001C..U+001F, then anything without a symbol, gives 0.0: `strip()` keeps the separator, and `float()` rejects it. |
| `Extractors.Availability` | scraper.py:79-83 | The availability is one of "In stock", "Out of stock" and "Unknown". It is "In stock" exactly when the paragraph exists and its text contains "In stock". It is "Unknown" exactly when the paragraph is missing. |
| `Catalog.GetText` | scraper.py:66 | `get_text()`: the element's text strings joined in order, as `GetTextSingle` and `GetTextConcat` state. |
| `Catalog.GetTextSingle` | scraper.py:66 | The text of a single string is that string. |
| `Catalog.GetTextConcat` | scraper.py:66 | The text of two runs of strings is the first run's text followed by the second's. |
| `Catalog.StrippedText` | scraper.py:59 | `get_text(strip=True)` neither starts nor ends with whitespace. |
| `Catalog.TitleOf` | scraper.py:58-59 | The title is the anchor's `title` attribute when present. Otherwise it is the anchor's stripped text. |
| `Catalog.ResolveHref` | scraper.py:62 | A missing or empty `href` gives the catalogue address. An absolute `href` is kept. A rooted path is put on the site. Anything else is appended to `/catalogue/`. The result is always an absolute `http(s)` address. |
| `Catalog.SiteAbsolute` | scraper.py:62 | The catalogue address, and any text put after the site or the catalogue address, is an absolute `https` address. |
| `Catalog.ResolveRelativeInjective` | scraper.py:62 | Different relative `href`s give different book addresses. |
| `Catalog.PriceOf` | scraper.py:65-66 | The price of a card: `clean_price` of the price paragraph's text, 0.0 when the card has none. |
| `Catalog.PriceOfSymbolThen` | scraper.py:65-66 | A price paragraph whose text is a currency symbol and then text without one gives `float()` of that text with its trailing whitespace stripped, or 0.0. |
| `Catalog.PriceOfWithoutDigits` | scraper.py:65-66 | A missing price paragraph gives 0.0. So does one whose text has no digit, under the modelled `float()`. |
| `Catalog.AvailabilityOf` | scraper.py:78-83 | The availability rule applied to the paragraph's stripped text. "Unknown" is given exactly when the paragraph is missing. "In stock" is given exactly when the stripped text contains "In stock". |
| `Catalog.BookOf` | scraper.py:56-98 | An article gives no record exactly when it has no title anchor, which is the case where `scrape_page` skips it. Every record it gives is well formed: its rating is in 0..5, its availability is one of the three strings and its address is absolute. |
| `Catalog.PageBooks` | scraper.py:55-98 | A page never yields more records than it has articles. |
| `Catalog.PageBooksCount` | scraper.py:55-98 | A page yields one record per article, except the skipped ones. |
| `Catalog.PageBooksConcat` | scraper.py:55-98 | Records come out in article order: the records of two runs of articles are those of the first run followed by those of the second. |
| `Catalog.PageBooksAllAnchored` | scraper.py:55-98 | When every article has its anchor, there are as many records as articles, and record k is article k's record. |
| `Catalog.PageBooksWellFormed` | scraper.py:55-94 | Every record a page yields is well formed. |
| `Catalog.PageCount` | scraper.py:100-104 | What `scrape_page` returns: the number of articles of a page that loads, 0 when loading it raises. |
| `Catalog.PageResult` | scraper.py:46-104 | A page appends at most as many records as it has articles. A failed page appends none. Every record appended is well formed. |
| `Catalog.EmptyPageResult` | scraper.py:100-104 | A page that returns 0, whether empty or failed, appends nothing. |
| `Catalog.PageUrl` | scraper.py:111-120 | Every page address is absolute and lies under the catalogue address. |
| `Catalog.PageUrlInjective` | scraper.py:111-120 | Different page numbers give different page addresses. |
| `Catalog.CrawlEnd` | scraper.py:112-127 | The crawl from page n stops at a page between n and 50. Every page before the stop returns articles. The stop is page 50 or a page that returns 0. |
| `Catalog.CrawlEndUnique` | scraper.py:112-127 | Those three properties determine the stopping page. |
| `Catalog.CrawlStopsAt` | scraper.py:112-127 | The crawl from page 1 stops at `last` when pages 1..last-1 return articles and `last` is page 50 or returns 0. |
| `Catalog.PageUrls` | scraper.py:111-122 | The requests of a crawl to page k are the addresses of pages 1..k, in order. |
| `Catalog.PageUrlsDistinct` | scraper.py:119-122 | No page address is requested twice. |
| `Catalog.CrawlBooks` | scraper.py:106-127 | The records of pages 1..k, page after page, are all well formed. |
| `Validator.UrlSet` | scraper.py:163 | The URL set contains each record's URL and nothing else. |
| `Validator.UrlSetBound` | scraper.py:163-164 | There are never more distinct URLs than records. |
| `Validator.NoDuplicatesIff` | scraper.py:163-169 | `duplicates` is 0 exactly when no two records share a URL. |
| `Validator.PositivePrices` | scraper.py:172 | The list of positive prices is no longer than the records, and every price in it is positive. |
| `Validator.CountPositive` | scraper.py:172 | The number of records with a positive price never exceeds the number of records. |
| `Validator.PositivePricesCount` | scraper.py:172 | The list holds exactly one price per record whose price is positive. |
| `Validator.PositivePricesComplete` | scraper.py:172 | Every positive price of a record is in the list, and only prices of records are in it. |
| `Validator.CountRating` | scraper.py:189 | The count of a rating never exceeds the number of records. |
| `Validator.CountRatingPositions` | scraper.py:189 | The count of a rating is the number of positions whose record has that rating. |
| `Validator.RatingCounts` | scraper.py:188-189 | The histogram has five entries, and entry k is the number of records rated k + 1. |
| `Validator.RatingHistogram` | scraper.py:188-189 | When all ratings are in 0..5, the unrated records and the five counts add up to the total. The five counts never exceed the total. |
| `Validator.Validate` | scraper.py:155-189 | The report holds the record count, the number of distinct URLs, and `duplicates = total - unique`. `duplicates` is never negative, and it is 0 exactly when the URLs are distinct. It holds the positive prices in record order, one per record priced above zero. The range flag holds exactly when 900 <= total <= 1100. It also holds the five rating counts. |
| `Exporter.HeaderOf` | scraper.py:143-147 | The header row has one cell per field name, and cell k is field name k. |
| `Exporter.Cells` | scraper.py:143-151 | A data row has one cell per field name, and cell k is the record's value for field name k. |
| `Exporter.RowOf` | scraper.py:151 | The row of a record has one cell per entry of `fieldnames`, and cell k is the record's value for `fieldnames[k]`. |
| `Exporter.Column` | scraper.py:143-151 | The column of a name is the first one whose header cell is that name, and there is none when no header cell is. |
| `Exporter.ColumnOfDistinct` | scraper.py:143-147 | In a header of distinct names, each name heads exactly its own column. |
| `Exporter.CellsRoundTrip` | scraper.py:143-151 | Under any header of distinct names holding the five field names, in any order, a written row reads back as the record. |
| `Exporter.RowRoundTrip` | scraper.py:150-151 | Reading a written row back through the header row gives the record. |
| `Exporter.RowOfInjective` | scraper.py:150-151 | Different records give different rows. |
| `Exporter.Rows` | scraper.py:150-151 | There is one data row per record, in order, and row i is record i's row. |
| `Exporter.Table` | scraper.py:142-151 | The table has the header row first, then row i + 1 for record i, and nothing else. |
| `Exporter.TableRoundTrip` | scraper.py:142-151 | Reading the written table back gives exactly the records, in order. |
| `Scraper.BooksScraper.constructor` | scraper.py:9-11 | The scraper starts with no records and no requests. |
| `Scraper.BooksScraper.ExtractBook` | scraper.py:56-94 | The per-article code returns exactly `BookOf` of the article. This includes the class-token loop with its `break`. |
| `Scraper.BooksScraper.ScrapePage` | scraper.py:42-104 | One request is made, for the given address. The result is the page's article count, or 0 on failure. The new `books_data` is the old one followed by `PageResult`. The records stay well formed. |
| `Scraper.BooksScraper.ScrapeAllPages` | scraper.py:106-132 | The requests are exactly pages 1..k, in order, for k the page where the crawl stops. The new `books_data` is the old one followed by the records of pages 1..k. |
| `Scraper.BooksScraper.SaveToCsv` | scraper.py:134-153 | Nothing is written exactly when there are no records. Otherwise the header row is written, then one row per record, and the table reads back as exactly the records. |
| `Scraper.BooksScraper.ValidateData` | scraper.py:155-189 | The report is `Validate` of the records held: their count, the number of distinct URLs, the positive prices, the range flag and the five rating counts. `duplicates` is never negative, and it is 0 exactly when the URLs are distinct. When the records are well formed, the unrated records plus the five counts make up the total. |

## Left out

- HTTP is left out: the session, its `User-Agent` header, `raise_for_status` and the
  error messages. A page is `PageSource`'s answer, and every way a request can raise
  becomes `None`.
- BeautifulSoup is left out. The cards, and the paragraphs found by class, are given
  as `Article` values. How the HTML is parsed and searched is not modelled, nor is any
  failure other than a missing `<h3>`/`<a>` inside a card.
- `print`, `time.sleep(0.5)` and `main()` are left out: they are output, timing and
  wiring, with no effect on the records.
- PyFloat.ParseFloat: accepts only finite decimal literals. Python's `float()` also
  accepts `inf`, `nan`, digit separators (`1_000`) and non-ASCII digits. The model reads
  those as a failure, so `clean_price` gives 0.0 where Python would give a value. The
  digit-free lemmas, `PyFloat.FloatShape`, `Extractors.CleanPriceWithoutDigits` and
  `Catalog.PriceOfWithoutDigits`, hold of the model only, since `float("inf")` and
  `float("nan")` succeed in Python.
- Prices are exact decimals, not binary floats. The model keeps no rounding, `1e400`
  does not overflow to infinity, and `1e-400` does not underflow to 0.0. In Python
  `float("1e-400")` is 0.0, which is not above zero and so is left out of the positive
  prices; the model reads it as a positive value and keeps it.
- `Decimal` values are compared as pairs, so `51.77` and `51.770` are different values;
  only the sign of a price is compared with 0.
- The average price of `validate_data` (lines 173-179) is left out: it needs floating
  point division and formatting. The report keeps the list of positive prices it is
  computed from.
- `csv.DictWriter` is left out: the `;` delimiter, quoting, the encoding, how a float is
  turned into text, and the file itself. `SaveToCsv` returns the rows as cells.
- Catalog.ResolveHref: models only four cases of `urljoin`: a missing or empty
  `href`, an absolute `http(s)` address, a rooted path, and a relative path, which is
  put after `/catalogue/` unchanged. Network-path references (`//host`), other schemes
  (`urljoin` keeps a `mailto:` or `javascript:` address as it is, so that address is not
  `http(s)`), scheme letters in upper case, empty path segments,
  queries, fragments and `.`/`..` segments are not resolved as `urljoin` would: in
  Python `?` and `#` give the catalogue address itself and `./a` gives the same address
  as `a`. `urljoin` also drops the empty segments of a relative path, so `a//b` gives
  `.../catalogue/a/b` where the model gives `.../catalogue/a//b`. Python also strips leading spaces and control characters and removes tabs and
  line breaks before resolving, which the model does not. An `href` that Python cannot
  split, such as `http://[x`, raises `ValueError`; `scrape_page` catches it and skips the
  article, while `BookOf` gives a record with that address.
- Catalog.ResolveRelativeInjective: holds of the four-case resolution above, which puts
  a relative `href` after `/catalogue/` unchanged. It does not hold of `urljoin` for the
  `href`s it normalises: `./a` and `a`, `x/../a` and `a`, `a//b` and `a/b`, ` a` and
  `a`, or `?` and `#`, give the same address in Python.
- `get_text()` is the concatenation of the element's text strings. `get_text(strip=True)`
  strips each string, drops the empty ones and joins the rest. How BeautifulSoup splits
  an element into strings is not modelled.
- The `class` attribute is a list of tokens. The `star-rating` regular expression that
  selects the paragraph is not modelled; the paragraph is given, or absent.
