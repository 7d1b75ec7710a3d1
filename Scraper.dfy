/** The scraper for the current page layout: the search request suffix, the page-count estimate,
    the per-listing field rules, the per-page extraction and the export file name. */
module Scraper {
  import opened PyText
  import opened Markup

  /** Result offsets advance in steps of 50, whatever the number of listings shown. */
  const ResultsPerPage := 50
  /** The site serves no more than 40 result pages for a search. */
  const MaxPages := 40
  /** Display-mode tag appended to every request. */
  const ListMode := "_DisplayType_LF"

  // ---------------------------------------------------------------------------
  // Request suffix and paging offset

  /** The path requested for a search subject: its words joined by '-', followed by the
      display-mode tag unless the subject already holds it. */
  function RequestSuffix(subject: string): string {
    if Contains(subject, ListMode) then Join("-", Split(subject))
    else Join("-", Split(subject)) + ListMode
  }

  /** The request never holds whitespace, and it ends with the display-mode tag whenever the
      subject does not already hold the tag somewhere. */
  lemma RequestSuffixShape(subject: string)
    ensures NoSpace(RequestSuffix(subject))
    ensures !Contains(subject, ListMode) ==> EndsWith(RequestSuffix(subject), ListMode)
  {
    var words := Split(subject);
    SplitGivesWords(subject);
    JoinNoSpace("-", words);
    var j := Join("-", words);
    if !Contains(subject, ListMode) {
      var r := j + ListMode;
      forall i | 0 <= i < |r| ensures !IsSpace(r[i]) {
        if i < |j| { assert r[i] == j[i]; } else { assert r[i] == ListMode[i - |j|]; }
      }
      EndsWithConcat(j, ListMode);
    }
  }

  /** For words without '-' the request names exactly those words: splitting on '-' gives them back. */
  lemma RequestSuffixWords(subject: string)
    requires !Contains(subject, ListMode)
    requires Split(subject) != []
    requires forall i :: 0 <= i < |Split(subject)| ==> '-' !in Split(subject)[i]
    ensures RequestSuffix(subject) == Join("-", Split(subject)) + ListMode
    ensures SplitOn(Join("-", Split(subject)), "-") == Split(subject)
  {
    SplitOnJoin('-', Split(subject));
  }

  /** The paging tail: `_Desde_`, the offset of the page's first result, the display-mode tag. */
  function PageTail(pageNum: nat): string
    requires pageNum >= 1
  {
    "_Desde_" + NatToString(pageNum * ResultsPerPage + 1) + ListMode
  }

  /** The search subject for the result page after `pageNum` full pages (page `pageNum + 1`). */
  function PageSubject(search: string, pageNum: nat): string
    requires pageNum >= 1
  {
    search + PageTail(pageNum)
  }

  lemma PageTailIsWord(pageNum: nat)
    requires pageNum >= 1
    ensures IsWord(PageTail(pageNum))
  {
    var d := NatToString(pageNum * ResultsPerPage + 1);
    forall i | 0 <= i < |d| ensures !IsSpace(d[i]) {
      assert IsDigit(d[i]);
    }
    var t := PageTail(pageNum);
    forall i | 0 <= i < |t| ensures !IsSpace(t[i]) {
      if i < 7 {
        assert t[i] == "_Desde_"[i];
      } else if i < 7 + |d| {
        assert t[i] == d[i - 7];
      } else {
        assert t[i] == ListMode[i - 7 - |d|];
      }
    }
  }

  /** A paged subject always holds the display-mode tag, so it is sent as its words joined by '-'. */
  lemma PageSubjectTagged(search: string, pageNum: nat)
    requires pageNum >= 1
    ensures RequestSuffix(PageSubject(search, pageNum)) == Join("-", Split(PageSubject(search, pageNum)))
  {
    EndsWithConcat("_Desde_" + NatToString(pageNum * ResultsPerPage + 1), ListMode);
    EndsWithPrepend(search, PageTail(pageNum), ListMode);
    ContainsSuffix(PageSubject(search, pageNum), ListMode);
  }

  // Steadies PageRequest's proof: the glued join, stated on plain sequences.
  lemma JoinGlued(ws: seq<string>, tail: string, glued: seq<string>)
    requires ws != [] && glued == ws[..|ws| - 1] + [ws[|ws| - 1] + tail]
    ensures Join("-", glued) == Join("-", ws) + tail
  {
    JoinExtendLast("-", ws, tail);
  }

  // Steadies PageRequest's proof: the case of a search whose last character is not whitespace.
  lemma PageRequestGlued(search: string, pageNum: nat)
    requires pageNum >= 1 && search != [] && !IsSpace(search[|search| - 1])
    ensures RequestSuffix(PageSubject(search, pageNum)) == Join("-", Split(search)) + PageTail(pageNum)
  {
    var tail, subject := PageTail(pageNum), PageSubject(search, pageNum);
    PageSubjectTagged(search, pageNum);
    PageTailIsWord(pageNum);
    SplitAppendWord(search, tail);
    JoinGlued(Split(search), tail, Split(subject));
  }

  // Steadies PageRequest's proof: the case of an empty search or one ending in whitespace.
  lemma PageRequestApart(search: string, pageNum: nat)
    requires pageNum >= 1 && (search == [] || IsSpace(search[|search| - 1]))
    ensures RequestSuffix(PageSubject(search, pageNum)) == Join("-", Split(search) + [PageTail(pageNum)])
  {
    PageSubjectTagged(search, pageNum);
    PageTailIsWord(pageNum);
    SplitAppendWord(search, PageTail(pageNum));
  }

  /** Page `k = pageNum + 1` asks for the results from offset `(k - 1) * 50 + 1` on: the offset's
      digits read back as that number, and the request is the search words joined by '-' with
      the paging tail glued to the last word. A search that ends in whitespace gets the tail as
      a word of its own instead. */
  lemma PageRequest(search: string, pageNum: nat)
    requires pageNum >= 1
    ensures ParseInt(NatToString(pageNum * ResultsPerPage + 1)) == Some(pageNum * ResultsPerPage + 1)
    ensures search != [] && !IsSpace(search[|search| - 1]) ==>
      RequestSuffix(PageSubject(search, pageNum)) == Join("-", Split(search)) + PageTail(pageNum)
    ensures search == [] || IsSpace(search[|search| - 1]) ==>
      RequestSuffix(PageSubject(search, pageNum)) == Join("-", Split(search) + [PageTail(pageNum)])
  {
    ParseIntNatToString(pageNum * ResultsPerPage + 1);
    if search != [] && !IsSpace(search[|search| - 1]) {
      PageRequestGlued(search, pageNum);
    } else {
      PageRequestApart(search, pageNum);
    }
  }

  // ---------------------------------------------------------------------------
  // Page-count estimate

  /** The counter's first word, with its thousands dots removed, is text that `int` accepts. */
  predicate CounterReadable(text: string) {
    var words := Split(Strip(text));
    |words| > 0 && ParseInt(DropChar(words[0], '.')).Some?
  }

  /** The number of results the site reports: the counter's first word, dots removed, read by `int`. */
  function ResultCount(text: string): int
    requires CounterReadable(text)
  {
    ParseInt(DropChar(Split(Strip(text))[0], '.')).value
  }

  /** A counter such as "1.234 resultados" reads as the digits of its first word with the dots deleted. */
  lemma ResultCountOfDigits(text: string)
    requires var words := Split(Strip(text));
      |words| > 0 && Without(words[0], '.') != [] && AllDigits(Without(words[0], '.'))
    ensures CounterReadable(text)
    ensures ResultCount(text) == DigitsValue(Without(Split(Strip(text))[0], '.'))
  {
    var total := Split(Strip(text))[0];
    DropCharIsWithout(total, '.');
    ParseIntDigits(Without(total, '.'));
  }

  /** The number of result pages: `ceil(count / 50)`, clamped to 40 when the count exceeds 40 pages. */
  function NumberOfPages(text: string): (pages: int)
    requires CounterReadable(text)
    ensures pages <= MaxPages
    ensures ResultCount(text) > MaxPages * ResultsPerPage ==> pages == MaxPages
    ensures ResultCount(text) <= MaxPages * ResultsPerPage ==>
      (pages - 1) * ResultsPerPage < ResultCount(text) <= pages * ResultsPerPage
    ensures ResultCount(text) >= 0 ==> pages >= 0
  {
    var n := ResultCount(text);
    if n as real / ResultsPerPage as real > MaxPages as real then MaxPages
    else if n % ResultsPerPage != 0 then n / ResultsPerPage + 1
    else n / ResultsPerPage
  }

  // ---------------------------------------------------------------------------
  // Listing fields

  /** One output row: URL, name, price (BRL), installments multiplier, installment price,
      interest-free, seller, free shipping. Prices are the decimal text handed to `float`. */
  datatype Row = Row(
    url: string,
    name: string,
    price: string,
    multiplier: Field<int>,
    installments: Field<string>,
    interestFree: bool,
    seller: Field<string>,
    freeShipping: bool)

  /** The fallback price source: the options text with at least two words, the second of at least two characters. */
  predicate FallbackReadable(l: Listing) {
    && l.optionsText.Some?
    && |Split(Strip(l.optionsText.value))| >= 2
    && |Split(Strip(l.optionsText.value))[1]| >= 2
  }

  /** The conditions under which the extractor reads a listing without raising. */
  predicate Extractable(l: Listing) {
    && l.mainTitle.Some?
    && (l.priceFraction.None? ==> FallbackReadable(l))
    && (l.installmentsMultiplier.Some? ==>
          && MultiplierReadable(l.installmentsMultiplier.value)
          && l.installmentsPrice.Some?
          && InstallmentPriceReadable(l.installmentsPrice.value))
    && (l.brandTitle.Some? ==> |Split(Strip(l.brandTitle.value))| >= 2)
  }

  /** The second word of the options text. */
  function FallbackToken(l: Listing): string
    requires FallbackReadable(l)
  {
    Split(Strip(l.optionsText.value))[1]
  }

  /** The price text. Without a fraction span it is rebuilt from character 1 of the options
      text's second word, split on ','. */
  function Price(l: Listing): string
    requires l.priceFraction.Some? || FallbackReadable(l)
  {
    if l.priceFraction.None? then
      var price := FallbackToken(l);
      var pieces := SplitOn([price[1]], ",");
      CombinePrice(pieces[0], if |pieces| > 1 then pieces[1] else "0")
    else
      CombinePrice(l.priceFraction.value, DecimalsOrZero(l.priceDecimals))
  }

  /** The seller: the second word of the brand span, when there is one. */
  function Seller(l: Listing): (r: Field<string>)
    requires l.brandTitle.Some? ==> |Split(Strip(l.brandTitle.value))| >= 2
    ensures r.NotDiscriminated? <==> l.brandTitle.None?
  {
    if l.brandTitle.Some? then Known(Split(Strip(l.brandTitle.value))[1]) else NotDiscriminated
  }

  /** The seller cell holds the brand span's second word, a non-empty run of non-whitespace. */
  lemma SellerIsSecondWord(l: Listing)
    requires l.brandTitle.Some? && |Split(Strip(l.brandTitle.value))| >= 2
    ensures var words := Split(l.brandTitle.value);
      |words| >= 2 && Seller(l) == Known(words[1]) && IsWord(words[1])
  {
    SplitOfStrip(l.brandTitle.value);
    SplitGivesWords(l.brandTitle.value);
  }

  /** Whether the shipping span has any text besides whitespace. */
  function FreeShipping(l: Listing): bool {
    l.shippingText.Some? && Strip(l.shippingText.value) != ""
  }

  /** Free shipping is reported exactly when the shipping span exists and holds a non-whitespace character. */
  lemma FreeShippingSpec(l: Listing)
    ensures FreeShipping(l) <==>
      l.shippingText.Some? && exists i :: 0 <= i < |l.shippingText.value| && !IsSpace(l.shippingText.value[i])
  {
    if l.shippingText.Some? {
      StripSpec(l.shippingText.value);
    }
  }

  /** The row for one listing. */
  function ExtractRow(l: Listing): (r: Row)
    requires Extractable(l)
    ensures r.url == l.href
    ensures r.multiplier.NotDiscriminated? <==> r.installments.NotDiscriminated?
    ensures r.multiplier.NotDiscriminated? <==> l.installmentsMultiplier.None?
    ensures r.interestFree <==> l.installmentsInterest.Some?
    ensures r.seller.NotDiscriminated? <==> l.brandTitle.None?
  {
    var (multiplier, installments) :=
      if l.installmentsMultiplier.Some? then
        (Known(Multiplier(l.installmentsMultiplier.value)), Known(InstallmentPrice(l.installmentsPrice.value)))
      else (NotDiscriminated, NotDiscriminated);
    Row(l.href, Strip(l.mainTitle.value), Price(l), multiplier, installments,
        l.installmentsInterest.Some?, Seller(l), FreeShipping(l))
  }

  /** With a fraction span the price is the fraction without dots, a point, and the decimals
      (or "0"); read as a number it is the fraction's integer plus the decimals' fraction. */
  lemma PriceFromSpans(l: Listing)
    requires l.priceFraction.Some?
    ensures var w := Without(l.priceFraction.value, '.');
      && Price(l) == w + "." + DecimalsOrZero(l.priceDecimals)
      && (w != [] && AllDigits(w) && AllDigits(DecimalsOrZero(l.priceDecimals)) ==>
            PlainDecimal(Price(l)) == Some(DigitsValue(w) as real + Fraction(DecimalsOrZero(l.priceDecimals))))
      && (w != [] && AllDigits(w) && l.priceDecimals.None? ==>
            PlainDecimal(Price(l)) == Some(DigitsValue(w) as real))
  {
    CombinePriceValue(l.priceFraction.value, DecimalsOrZero(l.priceDecimals));
    var w := Without(l.priceFraction.value, '.');
    if w != [] && AllDigits(w) && l.priceDecimals.None? {
      CombinePriceWhole(l.priceFraction.value);
    }
  }

  /** The price text rebuilt from one character: split on ',', dots dropped from the first piece,
      the second piece (or "0") as decimals. */
  lemma PriceOfFallbackChar(c: char)
    ensures var pieces := SplitOn([c], ",");
      CombinePrice(pieces[0], if |pieces| > 1 then pieces[1] else "0") ==
        if c == ',' then "." else if c == '.' then ".0" else [c] + ".0"
  {
    var pieces := SplitOn([c], ",");
    assert [c][1..] == [];
    assert Find([], ",") == None;
    if c == ',' {
      assert [c][..1] == ",";
      assert Find([c], ",") == Some(0);
      assert pieces == ["", ""];
      DropCharIsWithout("", '.');
    } else {
      assert [c][..1] == [c] && [c] != ",";
      assert Find([c], ",") == None;
      assert pieces == [[c]];
      DropCharIsWithout([c], '.');
      assert Without([c], '.') == if c == '.' then [] else [c];
    }
  }

  /** Without a fraction span only character 1 of the options text's second word counts:
      a ',' gives ".", a '.' gives ".0", any other character c gives c followed by ".0". */
  lemma PriceFallback(l: Listing)
    requires l.priceFraction.None? && FallbackReadable(l)
    ensures FallbackToken(l)[1] == ',' ==> Price(l) == "."
    ensures FallbackToken(l)[1] == '.' ==> Price(l) == ".0"
    ensures FallbackToken(l)[1] !in ",." ==> Price(l) == [FallbackToken(l)[1]] + ".0"
  {
    PriceOfFallbackChar(FallbackToken(l)[1]);
  }

  /** The text "." reads as no number: `float('.')` raises. */
  lemma DotUnreadable(p: string)
    requires p == "."
    ensures PlainDecimal(p) == None
  {
    assert p[..0] == [] && p[0..1] == ".";
    assert Find(p, ".") == Some(0);
    assert p[1..] == [];
    assert Find([], ".") == None;
    assert SplitOn(p, ".") == ["", ""];
  }

  /** A ',' in character 1 of the options text's second word (as in "R$ 9,90") gives the price
      text ".", which `float` rejects: there the scraper raises, while `ExtractRow` still
      builds a row. */
  lemma FallbackCommaUnreadable(l: Listing)
    requires l.priceFraction.None? && FallbackReadable(l) && FallbackToken(l)[1] == ','
    ensures Price(l) == "."
    ensures PlainDecimal(Price(l)) == None
  {
    PriceFallback(l);
    DotUnreadable(Price(l));
  }

  lemma OptionsExampleWords(text: string)
    requires text == "R$ 99,00"
    ensures Split(Strip(text)) == ["R$", "99,00"]
  {
    StripSpec(text);
    var words := ["R$", "99,00"];
    assert IsWord(words[0]) && IsWord(words[1]);
    SplitJoin(words);
    assert Join(" ", words) == text;
  }

  lemma NineValue()
    ensures PlainDecimal("9.0") == Some(9.0)
  {
    assert "9"[..0] == [] && "0"[..0] == [];
    FractionOfZero("0");
    PlainDecimalOfParts("9", "0");
    assert "9" + "." + "0" == "9.0";
  }

  // Steadies FallbackExamplePrice's proof: the concrete words, stated on a plain sequence.
  lemma SecondWordNine(words: seq<string>)
    requires words == ["R$", "99,00"]
    ensures |words| >= 2 && |words[1]| >= 2 && words[1][1] == '9'
  {
  }

  // Steadies FallbackTokenNine's proof: the concrete price text, stated on a plain string.
  lemma NineText(p: string, c: char)
    requires c == '9' && (c !in ",." ==> p == [c] + ".0")
    ensures p == "9.0"
  {
  }

  lemma FallbackTokenNine(l: Listing)
    requires l.priceFraction.None? && FallbackReadable(l) && FallbackToken(l)[1] == '9'
    ensures Price(l) == "9.0"
  {
    PriceFallback(l);
    NineText(Price(l), FallbackToken(l)[1]);
  }

  lemma FallbackExamplePrice(l: Listing)
    requires l.priceFraction.None? && l.optionsText == Some("R$ 99,00")
    ensures FallbackReadable(l) && Price(l) == "9.0"
  {
    var text := l.optionsText.value;
    OptionsExampleWords(text);
    SecondWordNine(Split(Strip(text)));
    FallbackTokenNine(l);
  }

  /** The options text "R$ 99,00" yields the price text "9.0", worth 9, not 99. */
  lemma FallbackReadsOneDigit(l: Listing)
    requires l.priceFraction.None? && l.optionsText == Some("R$ 99,00")
    ensures FallbackReadable(l)
    ensures Price(l) == "9.0"
    ensures PlainDecimal(Price(l)) == Some(9.0)
  {
    FallbackExamplePrice(l);
    NineValue();
  }

  lemma ExampleWithout(s: string)
    requires s == "1.234"
    ensures Without(s, '.') == "1234"
  {
    assert "1.234"[1..] == ".234" && ".234"[1..] == "234";
    assert "234"[1..] == "34" && "34"[1..] == "4" && "4"[1..] == [];
  }

  lemma ExampleDigits(w: string)
    requires w == "1234"
    ensures w != [] && AllDigits(w) && DigitsValue(w) == 1234
  {
    assert "1234"[..3] == "123" && "123"[..2] == "12" && "12"[..1] == "1" && "1"[..0] == [];
  }

  lemma ExampleFraction(d: string)
    requires d == "90"
    ensures AllDigits(d) && Fraction(d) == 0.9
  {
    assert "90"[..1] == "9" && "9"[..0] == [];
    assert DigitsValue("90") == 90;
    assert Pow10(2) == 100;
  }

  // Steadies PriceExample's proof: the concrete price text, stated on plain strings.
  lemma ExampleText(p: string, w: string, d: string)
    requires w == "1234" && d == "90" && p == w + "." + d
    ensures p == "1234.90"
  {
  }

  // Steadies PriceExample's proof: the concrete value, stated on plain numbers.
  lemma ExampleValue(v: Option<real>, n: int, f: real)
    requires n == 1234 && f == 0.9 && v == Some(n as real + f)
    ensures v == Some(1234.9)
  {
  }

  /** The fraction "1.234" with decimals "90" yields "1234.90", worth 1234.9. */
  lemma PriceExample(l: Listing)
    requires l.priceFraction == Some("1.234") && l.priceDecimals == Some("90")
    ensures Price(l) == "1234.90"
    ensures PlainDecimal(Price(l)) == Some(1234.9)
  {
    var w := Without(l.priceFraction.value, '.');
    var d := DecimalsOrZero(l.priceDecimals);
    PriceFromSpans(l);
    ExampleWithout(l.priceFraction.value);
    ExampleDigits(w);
    ExampleFraction(d);
    ExampleText(Price(l), w, d);
    ExampleValue(PlainDecimal(Price(l)), DigitsValue(w), Fraction(d));
  }

  // ---------------------------------------------------------------------------
  // One page

  predicate AllExtractable(items: seq<Listing>) {
    forall i :: 0 <= i < |items| ==> Extractable(items[i])
  }

  /** The rows of a page, one per listing, in document order. */
  function PageRows(items: seq<Listing>): (rows: seq<Row>)
    requires AllExtractable(items)
    ensures |rows| == |items|
  {
    if items == [] then []
    else PageRows(items[..|items| - 1]) + [ExtractRow(items[|items| - 1])]
  }

  /** Row `i` of a page is the row of listing `i`. */
  lemma {:induction false} PageRowsAt(items: seq<Listing>, i: int)
    requires AllExtractable(items) && 0 <= i < |items|
    ensures PageRows(items)[i] == ExtractRow(items[i])
  {
    var init := items[..|items| - 1];
    var rows := PageRows(init);
    assert PageRows(items) == rows + [ExtractRow(items[|items| - 1])];
    if i < |init| {
      PageRowsAt(init, i);
      assert init[i] == items[i];
      assert PageRows(items)[i] == rows[i];
    } else {
      assert i == |items| - 1;
    }
  }

  lemma PageRowsPointwise(items: seq<Listing>)
    requires AllExtractable(items)
    ensures forall i :: 0 <= i < |items| ==> PageRows(items)[i] == ExtractRow(items[i])
  {
    forall i | 0 <= i < |items| ensures PageRows(items)[i] == ExtractRow(items[i]) {
      PageRowsAt(items, i);
    }
  }

  lemma ExtractablePrefix(items: seq<Listing>, k: int)
    requires AllExtractable(items) && 0 <= k <= |items|
    ensures AllExtractable(items[..k])
  {
    forall i | 0 <= i < k ensures Extractable(items[..k][i]) {
      assert items[..k][i] == items[i];
    }
  }

  lemma PageRowsSnoc(items: seq<Listing>, k: int)
    requires AllExtractable(items) && 0 <= k < |items|
    ensures AllExtractable(items[..k + 1])
    ensures PageRows(items[..k + 1]) == PageRows(items[..k]) + [ExtractRow(items[k])]
  {
    ExtractablePrefix(items, k + 1);
    ExtractablePrefix(items, k);
    assert items[..k + 1][..k] == items[..k];
    assert items[..k + 1][k] == items[k];
  }

  /** Walks the page's listings and appends one row per listing. */
  method ContentSearch(doc: Document) returns (rows: seq<Row>)
    requires AllExtractable(doc.items)
    ensures rows == PageRows(doc.items)
    ensures |rows| == |doc.items|
    ensures forall i :: 0 <= i < |rows| ==> rows[i] == ExtractRow(doc.items[i])
  {
    rows := [];
    assert doc.items[..0] == [];
    for k := 0 to |doc.items|
      invariant rows == PageRows(doc.items[..k])
    {
      PageRowsSnoc(doc.items, k);
      rows := rows + [ExtractRow(doc.items[k])];
    }
    assert doc.items[..|doc.items|] == doc.items;
    PageRowsPointwise(doc.items);
  }

  // ---------------------------------------------------------------------------
  // Export file name

  /** 'ML_' and the name's words joined by '_', with '.csv' for "CSV" and '.xlsx' for "EXCEL";
      no file for any other type. */
  function ExportFileName(fileName: string, typeOfFile: string): (r: Option<string>)
    ensures r.Some? <==> typeOfFile == "CSV" || typeOfFile == "EXCEL"
    ensures r.Some? ==> |r.value| >= 3 && r.value[..3] == "ML_" && NoSpace(r.value)
  {
    var words := Split(fileName);
    SplitGivesWords(fileName);
    JoinNoSpace("_", words);
    var base := "ML_" + Join("_", words);
    assert NoSpace(base) by {
      var j := Join("_", words);
      forall i | 0 <= i < |base| ensures !IsSpace(base[i]) {
        if i >= 3 { assert base[i] == j[i - 3]; }
      }
    }
    if typeOfFile == "CSV" then
      var name := base + ".csv";
      assert forall i :: 0 <= i < |base| ==> name[i] == base[i];
      Some(name)
    else if typeOfFile == "EXCEL" then
      var name := base + ".xlsx";
      assert forall i :: 0 <= i < |base| ==> name[i] == base[i];
      Some(name)
    else None
  }

  /** For words without '_' the file name spells the words: splitting on '_' gives them back. */
  lemma ExportFileNameWords(fileName: string)
    requires Split(fileName) != []
    requires forall i :: 0 <= i < |Split(fileName)| ==> '_' !in Split(fileName)[i]
    ensures ExportFileName(fileName, "CSV") == Some("ML_" + Join("_", Split(fileName)) + ".csv")
    ensures ExportFileName(fileName, "EXCEL") == Some("ML_" + Join("_", Split(fileName)) + ".xlsx")
    ensures SplitOn(Join("_", Split(fileName)), "_") == Split(fileName)
  {
    SplitOnJoin('_', Split(fileName));
  }
}
