/** Reading a product page: the ordered fallback chains that give the
    title, price, image, ASIN, and the ordered list of add-to-cart buttons.
    The browser is seen only through what each locator finds. */
module Extraction {
  import opened PyStr
  import opened Commands

  /** The Selenium locator strategies the script uses. */
  datatype By = Id | CssSelector | ClassName | XPath

  /** Every element the script looks up, by the part it plays on the page. */
  datatype Locator =
    | ProductTitle | LandingImage | AsinCell
    | OurPrice | DealPrice | SalePrice | CorePriceDisplay | CorePrice
    | PriceWhole | PriceFraction
    | AddToCartButton | SubmitAddToCart | SubmitAddToCartUbb
    | AddToCartInput | SubmitAddToCartInput | AddToCartValueInput | AddToCartTextButton

  /** The strategy and selector text the script passes to `find_element`. */
  function Query(loc: Locator): (By, string)
  {
    match loc
    case ProductTitle => (Id, "productTitle")
    case LandingImage => (Id, "landingImage")
    case AsinCell => (XPath, "//th[text()='ASIN']/following-sibling::td")
    case OurPrice => (CssSelector, "#priceblock_ourprice")
    case DealPrice => (CssSelector, "#priceblock_dealprice")
    case SalePrice => (CssSelector, "#priceblock_saleprice")
    case CorePriceDisplay => (CssSelector, "#corePriceDisplay_desktop_feature_div .a-price .a-offscreen")
    case CorePrice => (CssSelector, "#corePrice_feature_div .a-price .a-offscreen")
    case PriceWhole => (ClassName, "a-price-whole")
    case PriceFraction => (ClassName, "a-price-fraction")
    case AddToCartButton => (Id, "add-to-cart-button")
    case SubmitAddToCart => (Id, "submit.add-to-cart")
    case SubmitAddToCartUbb => (Id, "submit.add-to-cart-ubb")
    case AddToCartInput => (CssSelector, "input#add-to-cart-button")
    case SubmitAddToCartInput => (CssSelector, "input[name='submit.add-to-cart']")
    case AddToCartValueInput => (XPath, "//input[@value='Add to Cart']")
    case AddToCartTextButton => (XPath, "//button[contains(text(), 'Add to Cart')]")
  }

  /** An element a locator finds: its visible text and its `src` attribute. */
  datatype Element = Element(text: string, src: string)

  /** The product page the user opened: the element each locator finds
      (a locator that is not a key raises on lookup), the locators whose
      add-to-cart attempt succeeds (the element appears, becomes clickable
      and the direct or the scripted click goes through), and the current URL. */
  datatype Page = Page(elements: map<Locator, Element>, clickable: set<Locator>, url: string)

  /** `driver.find_element(loc).text`, or `None` where the lookup raises. */
  function TextAt(page: Page, loc: Locator): Option<string>
  {
    if loc in page.elements then Some(page.elements[loc].text) else None
  }

  /** The five price selectors, in the order they are tried. */
  const PriceSelectors: seq<Locator> := [OurPrice, DealPrice, SalePrice, CorePriceDisplay, CorePrice]

  /** The currency prefix of the whole+fraction price, character for
      character as the script's source file holds it (the UTF-8 bytes of the
      rupee sign read as Windows-1252). */
  const Rupee: string := "\U{00E2}\U{201A}\U{00B9}"

  /** The add-to-cart locators, in the order they are tried. */
  const CartSelectors: seq<Locator> := [
    AddToCartButton, SubmitAddToCart, SubmitAddToCartUbb,
    AddToCartInput, SubmitAddToCartInput, AddToCartValueInput, AddToCartTextButton
  ]

  /** `title`: the stripped text of the title element, else "N/A". */
  function TitleOf(page: Page): string
  {
    match TextAt(page, ProductTitle)
    case Some(t) => Strip(t)
    case None => NotFound
  }

  /** `img_url`: the `src` of the main image, else "N/A". */
  function ImageOf(page: Page): string
  {
    if LandingImage in page.elements then page.elements[LandingImage].src else NotFound
  }

  /** `asin`: the stripped text of the ASIN table cell, else the ASIN in the URL. */
  function AsinOf(page: Page): string
  {
    match TextAt(page, AsinCell)
    case Some(t) => Strip(t)
    case None => AsinFromUrl(page.url)
  }

  /** The title is the stripped text of the title element when the lookup
      succeeds; it is "N/A" when the lookup fails, or when the element's own
      stripped text is literally "N/A". */
  lemma TitleFallback(page: Page)
    ensures ProductTitle in page.elements ==> TitleOf(page) == Strip(page.elements[ProductTitle].text)
    ensures ProductTitle !in page.elements ==> TitleOf(page) == NotFound
    ensures TitleOf(page) == NotFound ==>
      ProductTitle !in page.elements || Strip(page.elements[ProductTitle].text) == NotFound
  {
  }

  /** The image URL is the main image's `src` when the lookup succeeds; it is
      "N/A" when the lookup fails, or when the `src` is literally "N/A". */
  lemma ImageFallback(page: Page)
    ensures LandingImage in page.elements ==> ImageOf(page) == page.elements[LandingImage].src
    ensures LandingImage !in page.elements ==> ImageOf(page) == NotFound
    ensures ImageOf(page) == NotFound ==>
      LandingImage !in page.elements || page.elements[LandingImage].src == NotFound
  {
  }

  /** The ASIN cell wins whenever it is found; only when its lookup fails is
      the ASIN taken from the URL, and then it is the "/dp/" segment (with no
      '/' in it) or "N/A". */
  lemma AsinFallback(page: Page)
    ensures AsinCell in page.elements ==> AsinOf(page) == Strip(page.elements[AsinCell].text)
    ensures AsinCell !in page.elements ==> AsinOf(page) == AsinFromUrl(page.url)
    ensures AsinCell !in page.elements && !Contains(page.url, "/dp/") ==> AsinOf(page) == NotFound
    ensures AsinCell !in page.elements && Contains(page.url, "/dp/") ==> '/' !in AsinOf(page)
  {
    AsinFromUrlSegment(page.url);
  }

  /** `element.text.strip()` for the element a locator finds, or `None`
      where the lookup raises. */
  function StrippedText(page: Page, loc: Locator): Option<string>
  {
    match TextAt(page, loc)
    case Some(t) => Some(Strip(t))
    case None => None
  }

  /** Entry `k` was found and its stripped text is not empty. */
  predicate NonBlankAt(found: seq<Option<string>>, k: int)
  {
    0 <= k < |found| && found[k].Some? && found[k].value != []
  }

  /** The earliest entry at or after `from` with non-blank text. */
  function FirstNonBlank(found: seq<Option<string>>, from: nat): (r: Option<nat>)
    ensures r.Some? ==> from <= r.value && NonBlankAt(found, r.value)
    ensures r.Some? ==> forall j :: from <= j < r.value ==> !NonBlankAt(found, j)
    ensures r.None? ==> forall j :: from <= j < |found| ==> !NonBlankAt(found, j)
    decreases |found| - from
  {
    if from >= |found| then None
    else if NonBlankAt(found, from) then Some(from)
    else FirstNonBlank(found, from + 1)
  }

  /** An entry with non-blank text and none before it is the one found. */
  lemma FirstNonBlankIs(found: seq<Option<string>>, k: nat)
    requires NonBlankAt(found, k)
    requires forall j :: 0 <= j < k ==> !NonBlankAt(found, j)
    ensures FirstNonBlank(found, 0) == Some(k)
  {
  }

  /** The stripped texts the five price selectors find, in order. */
  function PriceTexts(page: Page): (found: seq<Option<string>>)
    ensures |found| == |PriceSelectors|
    ensures forall k :: 0 <= k < |found| ==> found[k] == StrippedText(page, PriceSelectors[k])
  {
    seq(|PriceSelectors|, k requires 0 <= k < |PriceSelectors| => StrippedText(page, PriceSelectors[k]))
  }

  /** The price the selector chain settles on, "N/A" when none has text. */
  function SelectorPrice(page: Page): string
  {
    var found := PriceTexts(page);
    match FirstNonBlank(found, 0)
    case Some(k) => found[k].value
    case None => NotFound
  }

  /** The whole+fraction fallback: both elements must be found; commas are
      dropped from the whole part. */
  function WholeFractionPrice(page: Page): Option<string>
  {
    match (TextAt(page, PriceWhole), TextAt(page, PriceFraction))
    case (Some(w), Some(f)) => Some(Rupee + Replace(Strip(w), ",", "") + "." + Strip(f))
    case _ => None
  }

  /** The recorded price: the selector chain, then, while the price is still
      "N/A", the whole+fraction fallback. */
  function PriceOf(page: Page): string
  {
    var p := SelectorPrice(page);
    if p == NotFound then
      match WholeFractionPrice(page)
      case Some(q) => q
      case None => NotFound
    else p
  }

  /** The earliest selector with text decides the price; no later selector
      and, unless its text is literally "N/A", not the fallback either. */
  lemma PriceFromEarliestSelector(page: Page, k: nat)
    requires NonBlankAt(PriceTexts(page), k)
    requires forall j :: 0 <= j < k ==> !NonBlankAt(PriceTexts(page), j)
    requires PriceTexts(page)[k].value != NotFound
    ensures PriceOf(page) == PriceTexts(page)[k].value
  {
    FirstNonBlankIs(PriceTexts(page), k);
  }

  /** The fallback result is the currency prefix, the whole part with no ','
      left in it, a '.', and the stripped fraction. */
  lemma WholeFractionShape(page: Page)
    requires WholeFractionPrice(page).Some?
    ensures var whole := RemoveChar(Strip(TextAt(page, PriceWhole).value), ',');
      && ',' !in whole
      && WholeFractionPrice(page).value == Rupee + whole + "." + Strip(TextAt(page, PriceFraction).value)
  {
    ReplaceCharByNothing(Strip(TextAt(page, PriceWhole).value), ',');
  }

  /** The price is "N/A" exactly when no selector yields text other than "N/A"
      and the fallback cannot find both of its parts. */
  lemma PriceNotFound(page: Page)
    ensures PriceOf(page) == NotFound <==> SelectorPrice(page) == NotFound && WholeFractionPrice(page).None?
  {
    if WholeFractionPrice(page).Some? {
      var q := WholeFractionPrice(page).value;
      assert q[0] == Rupee[0];
      assert q != NotFound;
    }
  }

  /** The price loop: try each selector in turn, keep the first stripped
      text that is not empty and stop. */
  method TryPriceSelectors(page: Page) returns (price: string)
    ensures price == SelectorPrice(page)
  {
    price := NotFound;
    ghost var found := PriceTexts(page);
    var k := 0;
    while k < |PriceSelectors|
      invariant 0 <= k <= |PriceSelectors|
      invariant price == NotFound
      invariant forall j :: 0 <= j < k ==> !NonBlankAt(found, j)
    {
      var element := TextAt(page, PriceSelectors[k]);
      assert found[k] == StrippedText(page, PriceSelectors[k]);
      if element.Some? {
        var text := Strip(element.value);
        if text != [] {
          price := text;
          FirstNonBlankIs(found, k);
          return;
        }
      }
      assert !NonBlankAt(found, k);
      k := k + 1;
    }
  }

  /** The selector loop, then, if the price is still "N/A", the
      whole+fraction fallback. */
  method ResolvePrice(page: Page) returns (price: string)
    ensures price == PriceOf(page)
  {
    price := TryPriceSelectors(page);
    if price == NotFound {
      var whole := TextAt(page, PriceWhole);
      var fraction := TextAt(page, PriceFraction);
      if whole.Some? && fraction.Some? {
        price := Rupee + Replace(Strip(whole.value), ",", "") + "." + Strip(fraction.value);
      }
    }
  }

  /** The cart loop: try each add-to-cart locator in turn and stop at the
      first that succeeds. `attempts` is how many locators were tried. */
  method ClickAddToCart(page: Page) returns (clicked: bool, attempts: nat)
    ensures clicked <==> exists k :: 0 <= k < |CartSelectors| && CartSelectors[k] in page.clickable
    ensures clicked ==> 0 < attempts <= |CartSelectors| && CartSelectors[attempts - 1] in page.clickable
    ensures !clicked ==> attempts == |CartSelectors|
    ensures forall j :: 0 <= j < attempts && (!clicked || j < attempts - 1) ==> CartSelectors[j] !in page.clickable
  {
    clicked := false;
    attempts := 0;
    while attempts < |CartSelectors|
      invariant 0 <= attempts <= |CartSelectors|
      invariant forall j :: 0 <= j < attempts ==> CartSelectors[j] !in page.clickable
    {
      var selector := CartSelectors[attempts];
      attempts := attempts + 1;
      if selector in page.clickable {
        clicked := true;
        break;
      }
    }
  }
}
