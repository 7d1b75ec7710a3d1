/** The scraper for the older page layout (grid display): its request suffix and its per-listing
    field rules, where the product name and the seller both come from the listing's h2 title,
    split at the first and second occurrence of "por". */
module LegacyScraper {
  import opened PyText
  import opened Markup

  /** Display-mode tag appended to every request of the older layout. */
  const GridMode := "_DisplayType_G"

  /** The free-shipping label the older layout prints in the shipping span. */
  const FreeShippingLabel := "Frete gr\U{e1}tis"

  /** The path requested for a search subject: its words joined by '-', then the grid tag, always. */
  function LegacyRequestSuffix(subject: string): string {
    Join("-", Split(subject)) + GridMode
  }

  /** The request has no whitespace, always ends with the grid tag (even when the subject already
      holds it), and for words without '-' the part before the tag splits on '-' back into the words. */
  lemma LegacyRequestSuffixWords(subject: string)
    ensures NoSpace(LegacyRequestSuffix(subject))
    ensures EndsWith(LegacyRequestSuffix(subject), GridMode)
    ensures Split(subject) != [] && (forall i :: 0 <= i < |Split(subject)| ==> '-' !in Split(subject)[i]) ==>
      SplitOn(Join("-", Split(subject)), "-") == Split(subject)
  {
    var words := Split(subject);
    SplitGivesWords(subject);
    JoinNoSpace("-", words);
    var j := Join("-", words);
    var r := LegacyRequestSuffix(subject);
    forall i | 0 <= i < |r| ensures !IsSpace(r[i]) {
      if i < |j| { assert r[i] == j[i]; } else { assert r[i] == GridMode[i - |j|]; }
    }
    EndsWithConcat(j, GridMode);
    if words != [] && forall i :: 0 <= i < |words| ==> '-' !in words[i] {
      SplitOnJoin('-', words);
    }
  }

  /** What the shipping column holds: the shipping text, 'Free', or 'Not discriminated'. */
  datatype Shipping = NoShippingInfo | Free | Cost(text: string)

  /** One output row: URL, name, price, installments multiplier, installment price,
      interest-free, seller, shipping. Prices are the decimal text handed to `float`. */
  datatype LegacyRow = LegacyRow(
    url: string,
    name: string,
    price: string,
    multiplier: int,
    installments: string,
    interestFree: bool,
    seller: Field<string>,
    shipping: Shipping)

  /** The conditions under which the older extractor reads a listing without raising: the title,
      the fraction span, a readable multiplier and an installment price of two words or more. */
  predicate LegacyExtractable(l: Listing) {
    && l.h2.Some?
    && l.priceFraction.Some?
    && l.installmentsMultiplier.Some? && MultiplierReadable(l.installmentsMultiplier.value)
    && l.installmentsPrice.Some? && InstallmentPriceReadable(l.installmentsPrice.value)
  }

  /** The stripped title split at every "por". */
  function TitlePieces(title: string): (pieces: seq<string>)
    ensures |pieces| >= 1
  {
    SplitOn(Strip(title), "por")
  }

  /** The product name: the stripped title's text before its first "por", stripped. */
  function LegacyName(title: string): string {
    Strip(TitlePieces(title)[0])
  }

  /** The seller: the text between the first and the second "por", stripped; no "por" at all
      raises an index error that the extractor turns into 'Not discriminated'. */
  function LegacySeller(title: string): Field<string> {
    var pieces := TitlePieces(title);
    if |pieces| >= 2 then Known(Strip(pieces[1])) else NotDiscriminated
  }

  /** The name is cut at the first "por" of the stripped title, wherever it occurs, even inside a word. */
  lemma LegacyNameBeforePor(title: string)
    ensures var t := Strip(title); var p := TitlePieces(title)[0];
      && p == t[..|p|]
      && !Contains(p, "por")
      && LegacyName(title) == Strip(p)
      && (Contains(t, "por") ==> OccursAt(t, "por", |p|))
      && (!Contains(t, "por") ==> LegacyName(title) == t)
  {
    var t := Strip(title);
    FirstPiece(t, "por");
    if !Contains(t, "por") {
      StripSpec(title);
      StripSpec(t);
    }
  }

  /** A seller is reported exactly when the stripped title holds "por"; it is the text after the
      first "por" up to the next one. */
  lemma LegacySellerAfterPor(title: string)
    ensures LegacySeller(title).Known? <==> Contains(Strip(title), "por")
    ensures var t := Strip(title); var p := TitlePieces(title)[0];
      LegacySeller(title).Known? ==>
        |p| + 3 <= |t| && LegacySeller(title).value == Strip(SplitOn(t[|p| + 3..], "por")[0])
  {
    var t := Strip(title);
    match Find(t, "por")
    case None =>
      assert TitlePieces(title) == [t];
      assert !Contains(t, "por");
    case Some(i) =>
      assert Contains(t, "por");
      var rest := SplitOn(t[i + 3..], "por");
      assert TitlePieces(title) == [t[..i]] + rest;
      assert TitlePieces(title)[0] == t[..i] && |t[..i]| == i;
      assert TitlePieces(title)[1] == rest[0];
      assert LegacySeller(title) == Known(Strip(rest[0]));
  }

  lemma SuportePieces(t: string)
    requires t == "Suporte"
    ensures SplitOn(t, "por") == ["Su", "te"]
  {
    assert t[0..3][0] == 'S' && t[1..4][0] == 'u';
    assert OccursAt(t, "por", 2);
    FindSpec(t, "por");
    assert Find(t, "por") == Some(2);
    assert t[..2] == "Su" && t[5..] == "te";
    FindSpec("te", "por");
    assert SplitOn("te", "por") == ["te"];
  }

  lemma StripsNothing(s: string)
    requires s != [] && !IsSpace(s[0]) && !IsSpace(s[|s| - 1])
    ensures Strip(s) == s
  {
    StripSpec(s);
  }

  lemma SuporteTitlePieces(title: string)
    requires title == "Suporte"
    ensures TitlePieces(title) == ["Su", "te"]
  {
    StripsNothing(title);
    SuportePieces(title);
  }

  lemma SuporteName(title: string)
    requires TitlePieces(title) == ["Su", "te"]
    ensures LegacyName(title) == "Su"
  {
    StripsNothing("Su");
  }

  lemma SuporteSeller(title: string)
    requires TitlePieces(title) == ["Su", "te"]
    ensures LegacySeller(title) == Known("te")
  {
    StripsNothing("te");
  }

  /** The title "Suporte" has no seller, yet the "por" inside the word splits it: the name is "Su"
      and the seller "te". */
  lemma PorInsideWord(title: string)
    requires title == "Suporte"
    ensures LegacyName(title) == "Su"
    ensures LegacySeller(title) == Known("te")
  {
    SuporteTitlePieces(title);
    SuporteName(title);
    SuporteSeller(title);
  }

  /** The shipping column: no span gives 'Not discriminated'; otherwise the stripped text, except
      that the free-shipping label becomes 'Free'. */
  function LegacyShipping(shipping: Option<string>): Shipping {
    if shipping.Some? && Strip(shipping.value) != FreeShippingLabel then Cost(Strip(shipping.value))
    else if shipping.Some? && Strip(shipping.value) == FreeShippingLabel then Free
    else NoShippingInfo
  }

  /** No span gives 'Not discriminated', the label (padded or not) gives 'Free', and any other
      text is kept, stripped; so 'Free' and a shipping text can never be told apart wrongly. */
  lemma LegacyShippingSpec(shipping: Option<string>)
    ensures var r := LegacyShipping(shipping);
      && (r.NoShippingInfo? <==> shipping.None?)
      && (r.Free? <==> shipping.Some? && Strip(shipping.value) == FreeShippingLabel)
      && (r.Cost? ==> r.text == Strip(shipping.value) && r.text != FreeShippingLabel)
  {
  }

  /** Padding around the label does not matter, and a shipping text never has padding. */
  lemma LegacyShippingPadding(text: string, pad1: string, pad2: string)
    requires forall i :: 0 <= i < |pad1| ==> IsSpace(pad1[i])
    requires forall i :: 0 <= i < |pad2| ==> IsSpace(pad2[i])
    requires text != [] && !IsSpace(text[0]) && !IsSpace(text[|text| - 1])
    ensures LegacyShipping(Some(pad1 + text + pad2)) == LegacyShipping(Some(text))
  {
    StripPadded(pad1, text, pad2);
    StripSpec(text);
  }

  /** The row for one listing of the older layout. */
  function LegacyExtractRow(l: Listing): (r: LegacyRow)
    requires LegacyExtractable(l)
    ensures r.url == l.href
    ensures r.interestFree <==> l.installmentsInterest.Some?
    ensures r.shipping.NoShippingInfo? <==> l.shippingText.None?
  {
    var title := l.h2.value;
    LegacyRow(
      l.href,
      LegacyName(title),
      CombinePrice(l.priceFraction.value, DecimalsOrZero(l.priceDecimals)),
      Multiplier(l.installmentsMultiplier.value),
      InstallmentPrice(l.installmentsPrice.value),
      l.installmentsInterest.Some?,
      LegacySeller(title),
      LegacyShipping(l.shippingText))
  }

  predicate AllLegacyExtractable(items: seq<Listing>) {
    forall i :: 0 <= i < |items| ==> LegacyExtractable(items[i])
  }

  /** The rows of a page of the older layout, one per listing, in document order. */
  function LegacyPageRows(items: seq<Listing>): (rows: seq<LegacyRow>)
    requires AllLegacyExtractable(items)
  {
    seq(|items|, i requires 0 <= i < |items| => LegacyExtractRow(items[i]))
  }

  /** Appending the row of listing `k` to the rows of the listings before it. */
  lemma LegacyRowsStep(items: seq<Listing>, rows: seq<LegacyRow>, k: int)
    requires AllLegacyExtractable(items) && 0 <= k < |items| && |rows| == k
    requires forall i :: 0 <= i < k ==> rows[i] == LegacyExtractRow(items[i])
    ensures forall i :: 0 <= i < k + 1 ==>
      (rows + [LegacyExtractRow(items[k])])[i] == LegacyExtractRow(items[i])
  {
    var next := rows + [LegacyExtractRow(items[k])];
    forall i | 0 <= i < k + 1 ensures next[i] == LegacyExtractRow(items[i]) {
      if i < k {
        assert next[i] == rows[i];
      } else {
        assert i == k;
      }
    }
  }

  /** Walks the page's listings and appends one row per listing. */
  method LegacyContentSearch(doc: Document) returns (rows: seq<LegacyRow>)
    requires AllLegacyExtractable(doc.items)
    ensures rows == LegacyPageRows(doc.items)
    ensures |rows| == |doc.items|
    ensures forall i :: 0 <= i < |rows| ==> rows[i] == LegacyExtractRow(doc.items[i])
  {
    rows := [];
    for k := 0 to |doc.items|
      invariant |rows| == k
      invariant forall i :: 0 <= i < k ==> rows[i] == LegacyExtractRow(doc.items[i])
    {
      LegacyRowsStep(doc.items, rows, k);
      rows := rows + [LegacyExtractRow(doc.items[k])];
    }
  }
}
