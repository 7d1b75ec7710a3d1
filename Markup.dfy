/** A result page as the extractor sees it, and the field rules that both page layouts share.
    A listing (`li.results-item`) is reduced to the texts of the elements the extractor looks up;
    `None` stands for an element that `find` does not return. */
module Markup {
  import opened PyText

  datatype Listing = Listing(
    href: string,                           // the listing's first link
    mainTitle: Option<string>,              // span.main-title
    h2: Option<string>,                     // the h2 title (older layout)
    priceFraction: Option<string>,          // span.price__fraction
    priceDecimals: Option<string>,          // span.price__decimals
    optionsText: Option<string>,            // div.pdp_options__text
    installmentsMultiplier: Option<string>, // span.item-installments-multiplier
    installmentsPrice: Option<string>,      // span.item-installments-price
    installmentsInterest: Option<string>,   // span.item-installments-interest
    brandTitle: Option<string>,             // span.item__brand-title-tos
    shippingText: Option<string>)           // span.text-shipping

  /** A fetched result page: the result counter (div.quantity-results) and the listings in document order. */
  datatype Document = Document(quantityResults: Option<string>, items: seq<Listing>)

  /** A cell holding either the sentinel 'Not discriminated' or a value. */
  datatype Field<T> = NotDiscriminated | Known(value: T)

  /** The decimals span's text, or "0" when the span is missing (integer prices). */
  function DecimalsOrZero(decimals: Option<string>): string {
    if decimals.Some? then decimals.value else "0"
  }

  /** The decimal text handed to `float`: the fraction without thousands dots, a point, the decimals. */
  function CombinePrice(fraction: string, decimals: string): string {
    DropChar(fraction, '.') + "." + decimals
  }

  /** The dots of the fraction are dropped and nothing else changes; digit parts read as
      integer part plus decimal fraction. */
  lemma CombinePriceValue(fraction: string, decimals: string)
    ensures CombinePrice(fraction, decimals) == Without(fraction, '.') + "." + decimals
    ensures var w := Without(fraction, '.');
      AllDigits(w) && AllDigits(decimals) && w != [] ==>
        PlainDecimal(CombinePrice(fraction, decimals)) == Some(DigitsValue(w) as real + Fraction(decimals))
  {
    DropCharIsWithout(fraction, '.');
    var w := Without(fraction, '.');
    if AllDigits(w) && AllDigits(decimals) && w != [] {
      PlainDecimalOfParts(w, decimals);
    }
  }

  /** With the decimals span missing the price is a whole number. */
  lemma CombinePriceWhole(fraction: string)
    requires var w := Without(fraction, '.'); w != [] && AllDigits(w)
    ensures PlainDecimal(CombinePrice(fraction, DecimalsOrZero(None))) == Some(DigitsValue(Without(fraction, '.')) as real)
  {
    CombinePriceValue(fraction, "0");
    assert "0"[..0] == [];
  }

  /** The text in front of the first 'x' of the stripped multiplier span. */
  function MultiplierText(text: string): string {
    SplitOn(Strip(text), "x")[0]
  }

  predicate MultiplierReadable(text: string) {
    ParseInt(MultiplierText(text)).Some?
  }

  /** `int(text.strip().split('x')[0])`. */
  function Multiplier(text: string): int
    requires MultiplierReadable(text)
  {
    ParseInt(MultiplierText(text)).value
  }

  /** The multiplier is read from the longest x-free prefix of the stripped span text. */
  lemma MultiplierBeforeX(text: string)
    ensures var t := Strip(text); var p := MultiplierText(text);
      && p == t[..|p|]
      && 'x' !in p
      && (|p| < |t| ==> t[|p|] == 'x')
  {
    var t := Strip(text);
    var p := MultiplierText(text);
    FirstPiece(t, "x");
    NotContainsChar(p, 'x');
    if |p| < |t| {
      assert t[|p|..|p| + 1] == "x";
    }
  }

  predicate InstallmentPriceReadable(text: string) {
    |Split(Strip(text))| >= 2
  }

  /** The installment price text: token 1 alone for two tokens or fewer, else token 1, a point, token 2. */
  function InstallmentPrice(text: string): string
    requires InstallmentPriceReadable(text)
  {
    var tokens := Split(Strip(text));
    if |tokens| <= 2 then tokens[1] else tokens[1] + "." + tokens[2]
  }

  /** With two tokens (currency, amount) the installment price reads as the whole amount. */
  lemma {:induction false} InstallmentPriceWhole(text: string)
    requires InstallmentPriceReadable(text)
    ensures var tokens := Split(Strip(text));
      |tokens| == 2 && AllDigits(tokens[1]) ==>
        PlainDecimal(InstallmentPrice(text)) == Some(DigitsValue(tokens[1]) as real)
  {
    var tokens := Split(Strip(text));
    if |tokens| == 2 && AllDigits(tokens[1]) {
      assert InstallmentPrice(text) == tokens[1];
      SplitPieceIsWord(Strip(text), 1);
      PlainDecimalOfDigits(tokens[1]);
    }
  }

  // Steadies InstallmentPriceWithCents' proof: the three-token case of the body on its own.
  lemma InstallmentPriceTokens(text: string)
    requires InstallmentPriceReadable(text)
    ensures var tokens := Split(Strip(text));
      |tokens| >= 3 ==> InstallmentPrice(text) == tokens[1] + "." + tokens[2]
  {
  }

  // Steadies InstallmentPriceWithCents' proof: `PlainDecimalOfParts` with the price text named.
  lemma DecimalOfParts(p: string, w: string, f: string)
    requires p == w + "." + f && AllDigits(w) && AllDigits(f) && IsWord(w)
    ensures PlainDecimal(p) == Some(DigitsValue(w) as real + Fraction(f))
  {
    PlainDecimalOfParts(w, f);
  }

  /** With three tokens or more, token 1 is the integer part and token 2 the decimals;
      any later token is ignored. */
  lemma InstallmentPriceWithCents(text: string)
    requires |Split(Strip(text))| >= 3
    requires AllDigits(Split(Strip(text))[1]) && AllDigits(Split(Strip(text))[2])
    ensures var tokens := Split(Strip(text));
      PlainDecimal(InstallmentPrice(text)) == Some(DigitsValue(tokens[1]) as real + Fraction(tokens[2]))
  {
    var tokens := Split(Strip(text));
    InstallmentPriceTokens(text);
    SplitPieceIsWord(Strip(text), 1);
    DecimalOfParts(InstallmentPrice(text), tokens[1], tokens[2]);
  }
}
