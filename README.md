# Mercado Livre result-page scraper, modelled in Dafny

The scraper asks the Brazilian store Mercado Livre for a search, reads how many result pages the
search has, and turns every listing on each page into one row:

- URL;
- name;
- price;
- installments multiplier and installment price;
- interest-free flag;
- seller;
- shipping.

Two versions of the scraper exist:

- the current one, `ML-Data_Scraper/ML-Data-Scraper.py` (list display);
- an older one, `ML-Data-Scraper.py` (grid display), which reads the name and the seller from the
  listing's `h2` title.

This project models the parts of both that compute:

- the request suffix built from the search text;
- the page-count estimate read from the result counter;
- the per-listing field rules and the per-page extraction loop;
- the paging offset and the main loop that appends the rows of pages 2 .. `pages`;
- the export file name.

A result page is modelled as a `Document`: the counter text and the listings in document order.
Each listing (`Listing`) is reduced to the texts of the elements the extractor looks up, with
`None` for an element that is not there.

The Python string primitives the scraper relies on are defined in `PyText`:

- `strip`, `split()`, `split(sep)`, `join`;
- `in`;
- `int()` and `'{}'.format(n)`;
- the decimal reading done by `float()`.

Each one has lemmas that state what it does. A price is kept as the decimal text handed to
`float`. `PlainDecimal` gives that text's exact rational value.

Where the scraper raises on a missing element, on too few words, or on `int()` rejecting its
text, the model has a precondition instead. The predicates `Extractable` and
`LegacyExtractable` collect these conditions. Where the scraper raises because `float()` rejects a
price text, the model has no precondition: the row keeps the text (see "## Left out"). The one exception the older scraper catches (a
title without "por") is modelled as the 'Not discriminated' value it produces.

Modules:

- `PyText`: the string primitives;
- `Markup`: the page and listing data, plus the field rules both versions share;
- `Scraper`: the current version;
- `LegacyScraper`: the older version;
- `Pagination`: the main loop of the current version.

## Model

| member | source | states |
|---|---|---|
| Scraper.RequestSuffixShape | ML-Data_Scraper/ML-Data-Scraper.py:24-28 | The request suffix never holds whitespace. It ends with `_DisplayType_LF` whenever the subject does not already hold that tag. |
| Scraper.RequestSuffixWords | ML-Data_Scraper/ML-Data-Scraper.py:24-28 | Take an untagged subject whose words hold no '-'. Its suffix is the words joined by '-', plus the tag. Splitting that join on '-' gives the words back. |
| Scraper.PageTailIsWord | ML-Data_Scraper/ML-Data-Scraper.py:242 | The paging tail `_Desde_<n>_DisplayType_LF` holds no whitespace. |
| Scraper.PageRequest | ML-Data_Scraper/ML-Data-Scraper.py:242 | The offset for the page after `pageNum` pages reads back as `pageNum * 50 + 1`. The request is the search words joined by '-', with the paging tail glued to the last word. When the search is empty or ends in whitespace, the tail is a word of its own. |
| Scraper.ResultCountOfDigits | ML-Data_Scraper/ML-Data-Scraper.py:82-83 | A counter whose first word is digits and dots reads as the value of those digits, with the dots deleted. |
| Scraper.NumberOfPages | ML-Data_Scraper/ML-Data-Scraper.py:86-92 | Never more than 40 pages, and exactly 40 when the count exceeds 40 * 50. Otherwise it is the ceiling of count / 50: `(pages - 1) * 50 < count <= pages * 50`. It is non-negative for a non-negative count. |
| Scraper.Seller | ML-Data_Scraper/ML-Data-Scraper.py:152-158 | The seller is 'Not discriminated' exactly when the brand span is missing. |
| Scraper.SellerIsSecondWord | ML-Data_Scraper/ML-Data-Scraper.py:155 | When the brand span is present, the seller is its second whitespace-separated word, which is a non-empty run of non-whitespace. |
| Scraper.FreeShippingSpec | ML-Data_Scraper/ML-Data-Scraper.py:161-166 | Free shipping is reported exactly when the shipping span exists and holds a non-whitespace character. |
| Scraper.ExtractRow | ML-Data_Scraper/ML-Data-Scraper.py:109-170 | The row keeps the listing's URL. The multiplier and the installment price are both 'Not discriminated', or neither is, and they are exactly when the multiplier span is missing. Interest-free holds exactly when the interest span exists. The seller is 'Not discriminated' exactly when the brand span is missing. |
| Scraper.PriceFromSpans | ML-Data_Scraper/ML-Data-Scraper.py:117-131 | With a fraction span, the price text is the fraction without dots, a point, and the decimals (or "0" when the decimals span is missing). For digit texts its value is the integer part plus the decimal fraction, and a whole number when the decimals span is missing. |
| Scraper.PriceOfFallbackChar | ML-Data_Scraper/ML-Data-Scraper.py:125-130 | One character split on ',' and rebuilt: ',' gives "." (text that `float` then rejects), '.' gives ".0", and any other character c gives c followed by ".0". |
| Scraper.PriceFallback | ML-Data_Scraper/ML-Data-Scraper.py:123-126 | Without a fraction span, the price text depends only on character 1 of the options text's second word, by the three cases above. |
| Scraper.FallbackCommaUnreadable | ML-Data_Scraper/ML-Data-Scraper.py:124-131 | When that character is ',' (as in "R$ 9,90"), the price text is ".", which reads as no number: `float` raises at line 131. |
| Scraper.FallbackReadsOneDigit | ML-Data_Scraper/ML-Data-Scraper.py:123-126 | The options text "R$ 99,00" yields the price text "9.0", worth 9. |
| Scraper.PriceExample | ML-Data_Scraper/ML-Data-Scraper.py:128-131 | A fraction "1.234" with decimals "90" gives "1234.90", worth 1234.9. |
| Scraper.PageRowsAt | ML-Data_Scraper/ML-Data-Scraper.py:109-170 | Row `i` of a page is the row extracted from listing `i`. |
| Scraper.ContentSearch | ML-Data_Scraper/ML-Data-Scraper.py:94-172 | The loop yields one row per listing, in document order: row `i` is the row of listing `i`. |
| Scraper.ExportFileName | ML-Data_Scraper/ML-Data-Scraper.py:202-208 | A file name is produced exactly for "CSV" and "EXCEL". It starts with `ML_` and holds no whitespace. |
| Scraper.ExportFileNameWords | ML-Data_Scraper/ML-Data-Scraper.py:202-208 | The names are `ML_<words joined by '_'>.csv` and `.xlsx`. For words without '_', splitting the join on '_' gives the words back. |
| Markup.CombinePriceValue | ML-Data_Scraper/ML-Data-Scraper.py:129-131 | Dropping the dots deletes every '.' of the fraction and nothing else. For digit parts the text reads as integer part plus decimal fraction. |
| Markup.CombinePriceWhole | ML-Data_Scraper/ML-Data-Scraper.py:119-131 | When the decimals span is missing, the price reads as the whole number the fraction spells. |
| Markup.MultiplierBeforeX | ML-Data_Scraper/ML-Data-Scraper.py:136 | The multiplier text is the longest x-free prefix of the stripped span. It is followed by an 'x' unless it is the whole text. |
| Markup.InstallmentPriceWhole | ML-Data_Scraper/ML-Data-Scraper.py:137-139 | With two tokens (currency, amount), the installment price reads as the whole amount. |
| Markup.InstallmentPriceWithCents | ML-Data_Scraper/ML-Data-Scraper.py:140-141 | With three tokens or more, token 1 is the integer part and token 2 the decimals. Later tokens are ignored. |
| LegacyScraper.LegacyRequestSuffixWords | ML-Data-Scraper.py:22-26 | The request holds no whitespace and always ends with `_DisplayType_G`, even when the subject already holds it. For words without '-', the join splits back into the words. |
| LegacyScraper.LegacyNameBeforePor | ML-Data-Scraper.py:76 | The name is the stripped text before the first "por" of the stripped title, wherever that "por" occurs. Without a "por" it is the whole stripped title. |
| LegacyScraper.LegacySellerAfterPor | ML-Data-Scraper.py:97-102 | A seller is reported exactly when the stripped title holds "por". The seller is the stripped text between the first "por" and the next one. |
| LegacyScraper.PorInsideWord | ML-Data-Scraper.py:76-102 | The title "Suporte" gives the name "Su" and the seller "te". |
| LegacyScraper.LegacyShippingSpec | ML-Data-Scraper.py:104-110 | A missing span gives 'Not discriminated'. The free-shipping label gives 'Free'. Any other text is kept, stripped, and is never the label. |
| LegacyScraper.LegacyShippingPadding | ML-Data-Scraper.py:105-108 | Whitespace around the shipping text does not change the shipping cell. |
| LegacyScraper.LegacyExtractRow | ML-Data-Scraper.py:71-114 | The row keeps the URL. Interest-free holds exactly when the interest span exists. Shipping is 'Not discriminated' exactly when the shipping span is missing. |
| LegacyScraper.LegacyContentSearch | ML-Data-Scraper.py:56-116 | The loop yields one row per listing, in document order: row `i` is the row of listing `i`. |
| Pagination.PagesScraped | ML-Data_Scraper/ML-Data-Scraper.py:237-240 | A run scrapes `pages` pages when `pages >= 1`, and only the first page otherwise. |
| Pagination.ScrapeStart | ML-Data_Scraper/ML-Data-Scraper.py:218-226 | Page 1 is the page served for the bare search, and its rows form the table of one page. |
| Pagination.ScrapeStep | ML-Data_Scraper/ML-Data-Scraper.py:240-245 | Page `pageNum + 1` is the page served for the paging subject. Its rows are appended to the table of the pages before it. |
| Pagination.Scrape | ML-Data_Scraper/ML-Data-Scraper.py:218-245 | The page maximum is the first page's count estimate. At most 40 pages are scraped. The table is the rows of pages 1 .. `pages`, in page order. |
| Pagination.TableSnoc | ML-Data_Scraper/ML-Data-Scraper.py:243-245 | Scraping one more page appends exactly that page's rows. |
| Pagination.TableSize | ML-Data_Scraper/ML-Data-Scraper.py:240-245 | The table holds one row per listing of the scraped pages. |
| Pagination.TablePrefix | ML-Data_Scraper/ML-Data-Scraper.py:240-245 | The table of fewer pages is a prefix of the table of more pages. |
| Pagination.TableRow | ML-Data_Scraper/ML-Data-Scraper.py:240-245 | Row `i` of page `k + 1` sits right after the rows of the first `k` pages, and it is that page's row `i`. |
| PyText.StripSpec | ML-Data_Scraper/ML-Data-Scraper.py:114 | `strip()` leaves non-whitespace at both ends. It is empty exactly for all-whitespace text, and it leaves text with non-whitespace ends alone. |
| PyText.StripPadded | ML-Data-Scraper.py:105 | `strip()` removes whitespace padding on both sides of a text. |
| PyText.SplitGivesWords | ML-Data_Scraper/ML-Data-Scraper.py:26 | Every piece `split()` returns is a non-empty run of non-whitespace. |
| PyText.SplitOfStrip | ML-Data_Scraper/ML-Data-Scraper.py:82 | `s.strip().split()` equals `s.split()`. |
| PyText.SplitJoin | ML-Data_Scraper/ML-Data-Scraper.py:26 | Splitting words joined by a blank gives the words back. |
| PyText.SplitAppendWord | ML-Data_Scraper/ML-Data-Scraper.py:242 | Appending a word to a text adds it as a new word after whitespace, and extends the last word otherwise. |
| PyText.JoinSplitOn | ML-Data_Scraper/ML-Data-Scraper.py:130 | Joining `s.split(sep)` with `sep` restores `s`. |
| PyText.FirstPiece | ML-Data_Scraper/ML-Data-Scraper.py:136 | `s.split(sep)[0]` is the prefix of `s` before the first `sep`, or all of `s` when there is none. |
| PyText.SplitOnJoin | ML-Data_Scraper/ML-Data-Scraper.py:26 | Splitting a join on a one-character separator that no part holds gives the parts back. |
| PyText.DropCharIsWithout | ML-Data_Scraper/ML-Data-Scraper.py:129-130 | `''.join(s.split(c)) if c in s else s` deletes every `c` and nothing else. |
| PyText.NatToStringValue | ML-Data_Scraper/ML-Data-Scraper.py:242 | The decimal digits `'{}'.format(n)` writes have the value `n`. |
| PyText.ParseIntNatToString | ML-Data_Scraper/ML-Data-Scraper.py:242 | `int('{}'.format(n)) == n` for every natural `n`. |
| PyText.PlainDecimalOfParts | ML-Data_Scraper/ML-Data-Scraper.py:131 | `float(w + '.' + f)` for digit texts `w` and `f` is `w`'s integer plus `f` read as a decimal fraction. |

## Left out

- HTTP requests, status checks, sleeps and retries: the fetched page is the parameter `fetch`, a function from request suffix to page.
- The wait loop that re-requests until listings appear (current file, lines 31-52): it is part of fetching.
- The legacy file's `__main__` loop, which re-fetches until listings appear: it is part of fetching too.
- HTML parsing: a listing is the texts of the elements the extractor looks up.
- The `numpy` array and the `pandas` frame, and so `content_to_df` and the legacy `content_to_df` stub. The model keeps rows as typed records. `np.array` would turn every cell of a mixed row into text.
- `print_html`, every `print`, the timers, and the item count printed at line 246 (one less than the number of rows).
- `input()`:
  - the search text is a parameter;
  - the page prompt, which repeats until `pages <= maximum_pages`, becomes a precondition of `Scrape`;
  - the file-type prompt becomes `ExportFileName`'s result being `None` for any other type;
  - writing the file is left out.
- Scraper.NumberOfPages: compares `count / 50 > 40` in exact arithmetic rather than binary floating point. Both agree for every count below 2^53.
- Prices and installment prices stay as the decimal text handed to `float`. Only plain decimal texts are given a value (`PlainDecimal`). Floating-point rounding, exponents, signs, `inf` and `nan` are not modelled.
- `int()` of texts with underscores or non-ASCII digits: `ParseInt` accepts surrounding whitespace, one sign and ASCII digits only.
- Characters are single code points. `str.split()`'s whitespace set is written out (`IsSpace`).
- Exceptions the scraper does not catch (missing element, too few words, `int()` failure) are preconditions, not modelled error values. The counter's words must be readable by `int()` once the dots are removed; otherwise the program stops.
- ExtractRow: `float()` rejecting the price text (line 131) or an installment text (lines 139 and 141) is not modelled. The row keeps the text, where the program raises. The fallback case where character 1 is ',' is one such input (`FallbackCommaUnreadable`).
- LegacyExtractRow: `float()` rejecting the price text or an installment text (older file, lines 83, 89 and 91) is not modelled. The row keeps the text, where the program raises.
- The order of the requests: `fetch` is a function, so the model fixes which page each request returns and the order of the rows in the table, not the order in which the requests are sent.
- The model follows the code in these places:
  - offsets advance by 50, although the comments at lines 24 and 107 say 48 results per page;
  - a counter that `int()` cannot read stops the program;
  - without a fraction span, the price is built from character 1 of the options text's second word. So "R$ 99,00" gives 9.0 (see `FallbackReadsOneDigit`).
