/** The shopping session: the main loop that asks for a product, inspects
    the page the user opened, asks about the cart, records the product in
    `all_products`, and asks whether to go on. */
module Session {
  import opened Commands
  import opened Extraction

  /** The two values of the "Added_to_Cart" column. */
  datatype YesNo = No | Yes

  /** One row of the output file. */
  datatype ProductRecord = ProductRecord(
    asin: string, title: string, price: string, imageUrl: string,
    date: string, time: string, addedToCart: YesNo, link: string)

  /** What the world supplies for one inspection: the product page the user
      opened by hand, and the date and time read from the clock. */
  datatype Visit = Visit(page: Page, date: string, time: string)

  /** `product_info` as first built: every field read from the page, and
      "Added_to_Cart" set to "No". */
  function NewRecord(v: Visit): ProductRecord
  {
    ProductRecord(AsinOf(v.page), TitleOf(v.page), PriceOf(v.page), ImageOf(v.page),
                  v.date, v.time, No, v.page.url)
  }

  /** A fresh record starts with "Added_to_Cart" at "No", carries the visit's
      date, time and URL, and on a page where no lookup succeeds it holds
      "N/A" for title, price and image and the ASIN from the URL. */
  lemma NewRecordFields(v: Visit)
    ensures var r := NewRecord(v);
      r.addedToCart == No && r.date == v.date && r.time == v.time && r.link == v.page.url
    ensures v.page.elements == map[] ==>
      var r := NewRecord(v);
      r.title == NotFound && r.price == NotFound && r.imageUrl == NotFound && r.asin == AsinFromUrl(v.page.url)
  {
    if v.page.elements == map[] {
      var found := PriceTexts(v.page);
      forall k | 0 <= k < |found| ensures !NonBlankAt(found, k) {
        assert found[k] == StrippedText(v.page, PriceSelectors[k]);
      }
      PriceNotFound(v.page);
    }
  }

  /** A record with the cart question settled. */
  function Marked(info: ProductRecord, added: bool): ProductRecord
  {
    info.(addedToCart := if added then Yes else No)
  }

  /** The record after the cart question: "Added_to_Cart" is "Yes" exactly
      when the reply is accepted, whether or not a button was clicked, and
      no other field changes. */
  function Inspection(v: Visit, decision: string): (r: ProductRecord)
    ensures r.addedToCart == Yes <==> AcceptsCart(decision)
    ensures r.(addedToCart := No) == NewRecord(v)
  {
    Marked(NewRecord(v), AcceptsCart(decision))
  }

  /** The fresh record of every page, in the order the pages are visited. */
  function ReadPages(visits: seq<Visit>): (pages: seq<ProductRecord>)
    ensures |pages| == |visits|
  {
    if visits == [] then []
    else ReadPages(visits[..|visits| - 1]) + [NewRecord(visits[|visits| - 1])]
  }

  lemma {:induction false} ReadPagesAt(visits: seq<Visit>, p: nat)
    requires p < |visits|
    ensures ReadPages(visits)[p] == NewRecord(visits[p])
    decreases |visits|
  {
    if p < |visits| - 1 {
      ReadPagesAt(visits[..|visits| - 1], p);
      assert visits[..|visits| - 1][p] == visits[p];
    }
  }

  /** How a session ends: an exit phrase, a reply other than yes to "search
      for another product?", or, in the model only, no more replies or pages
      (where the script would wait for ever). */
  datatype Ending = ExitPhrase | Declined | InputExhausted

  datatype Outcome = Outcome(records: seq<ProductRecord>, ending: Ending)

  /** How the main loop reads a reply to "what product?": an exit phrase
      (checked first), a blank reply, or a product name. */
  datatype Heard = ExitRequest | Silence | ProductName

  function Classify(reply: string): Heard
  {
    if IsExitCommand(reply) then ExitRequest
    else if IsBlank(reply) then Silence
    else ProductName
  }

  /** A reply read as an answer to each of the three questions of the loop:
      "what product?", "add to cart?" and "search for another product?". */
  datatype Reading = Reading(heard: Heard, addsToCart: bool, searchesAgain: bool)

  function Read(reply: string): Reading
  {
    Reading(Classify(reply), AcceptsCart(reply), WantsAnother(reply))
  }

  /** Every reply read in all three ways, in order. */
  function ReadAll(replies: seq<string>): (readings: seq<Reading>)
    ensures |readings| == |replies|
  {
    if replies == [] then []
    else ReadAll(replies[..|replies| - 1]) + [Read(replies[|replies| - 1])]
  }

  lemma {:induction false} ReadAllAt(replies: seq<string>, u: nat)
    requires u < |replies|
    ensures ReadAll(replies)[u] == Read(replies[u])
    decreases |replies|
  {
    if u < |replies| - 1 {
      ReadAllAt(replies[..|replies| - 1], u);
      assert replies[..|replies| - 1][u] == replies[u];
    }
  }

  /** Reply `u` as read by each question on its own. */
  lemma HeardAt(replies: seq<string>, u: nat)
    requires u < |replies|
    ensures ReadAll(replies)[u].heard == Classify(replies[u])
  {
    ReadAllAt(replies, u);
  }

  lemma AddsToCartAt(replies: seq<string>, u: nat)
    requires u < |replies|
    ensures ReadAll(replies)[u].addsToCart == AcceptsCart(replies[u])
  {
    ReadAllAt(replies, u);
  }

  lemma SearchesAgainAt(replies: seq<string>, u: nat)
    requires u < |replies|
    ensures ReadAll(replies)[u].searchesAgain == WantsAnother(replies[u])
  {
    ReadAllAt(replies, u);
  }

  /** The records a session produces, in order, and how it ends, when it
      goes on from reply `u` and page `p`: `readings` are the replies heard
      by each `listen` of the main loop in turn, `pages` the fresh records of
      the pages the user opens. */
  function SessionFrom(readings: seq<Reading>, pages: seq<ProductRecord>, u: nat, p: nat): (o: Outcome)
    requires p <= |pages|
    ensures |o.records| <= |pages| - p
    ensures o.ending == Declined ==> o.records != []
    decreases |readings| - u
  {
    if u >= |readings| then Outcome([], InputExhausted)
    else match readings[u].heard
      case ExitRequest => Outcome([], ExitPhrase)
      case Silence => SessionFrom(readings, pages, u + 1, p)
      case ProductName =>
        if p == |pages| || u + 1 == |readings| then Outcome([], InputExhausted)
        else
          var info := Marked(pages[p], readings[u + 1].addsToCart);
          if u + 2 == |readings| then Outcome([info], InputExhausted)
          else if !readings[u + 2].searchesAgain then Outcome([info], Declined)
          else
            var rest := SessionFrom(readings, pages, u + 3, p + 1);
            Outcome([info] + rest.records, rest.ending)
  }

  /** A whole session, from its first reply and first page. */
  function SessionOutcome(replies: seq<string>, visits: seq<Visit>): Outcome
  {
    SessionFrom(ReadAll(replies), ReadPages(visits), 0, 0)
  }

  /** `r` is `base` with only "Added_to_Cart" possibly changed. */
  predicate MadeFrom(r: ProductRecord, base: ProductRecord)
  {
    r.(addedToCart := No) == base.(addedToCart := No)
  }

  /** The k-th record from page `p` on is made from page `p + k`: one record
      per page, in the order the pages were visited. */
  lemma {:induction false} RecordsFollowPages(readings: seq<Reading>, pages: seq<ProductRecord>, u: nat, p: nat, k: nat)
    requires p <= |pages| && k < |SessionFrom(readings, pages, u, p).records|
    ensures p + k < |pages| && MadeFrom(SessionFrom(readings, pages, u, p).records[k], pages[p + k])
    decreases |readings| - u
  {
    if readings[u].heard == Silence {
      RecordsFollowPages(readings, pages, u + 1, p, k);
    } else if k > 0 {
      RecordsFollowPages(readings, pages, u + 3, p + 1, k - 1);
    }
  }

  /** The k-th record of a whole session is the k-th page visited as read by
      `NewRecord`, with only "Added_to_Cart" possibly turned to "Yes". */
  lemma RecordsFollowVisits(replies: seq<string>, visits: seq<Visit>, k: nat)
    requires k < |SessionOutcome(replies, visits).records|
    ensures k < |visits|
    ensures SessionOutcome(replies, visits).records[k].(addedToCart := No) == NewRecord(visits[k])
  {
    RecordsFollowPages(ReadAll(replies), ReadPages(visits), 0, 0, k);
    ReadPagesAt(visits, k);
  }

  /** A reply other than an accepted yes to "search for another product?"
      ends the session with the product just inspected as its last record. */
  lemma DeclineEndsAfterOne(replies: seq<string>, visits: seq<Visit>, u: nat, p: nat)
    requires u + 2 < |replies| && p < |visits|
    requires !IsExitCommand(replies[u]) && !IsBlank(replies[u])
    requires !WantsAnother(replies[u + 2])
    ensures SessionFrom(ReadAll(replies), ReadPages(visits), u, p)
         == Outcome([Inspection(visits[p], replies[u + 1])], Declined)
  {
    HeardAt(replies, u);
    AddsToCartAt(replies, u + 1);
    SearchesAgainAt(replies, u + 2);
    ReadPagesAt(visits, p);
    DeclinedAt(ReadAll(replies), ReadPages(visits), u, p);
  }

  lemma DeclinedAt(readings: seq<Reading>, pages: seq<ProductRecord>, u: nat, p: nat)
    requires u + 2 < |readings| && p < |pages|
    requires readings[u].heard == ProductName && !readings[u + 2].searchesAgain
    ensures SessionFrom(readings, pages, u, p) == Outcome([Marked(pages[p], readings[u + 1].addsToCart)], Declined)
  {
  }

  /** An exit phrase ends the session at once, before the blank check, with
      no further record. */
  lemma ExitEndsAtOnce(replies: seq<string>, visits: seq<Visit>, u: nat, p: nat)
    requires u < |replies| && p <= |visits| && IsExitCommand(replies[u])
    ensures SessionFrom(ReadAll(replies), ReadPages(visits), u, p) == Outcome([], ExitPhrase)
  {
    HeardAt(replies, u);
  }

  /** One pass of the loop body up to the cart: read the page, ask about the
      cart, and on a yes mark the record and try the cart buttons. */
  method InspectProduct(v: Visit, decision: string) returns (info: ProductRecord)
    ensures info == Inspection(v, decision)
  {
    var title := TitleOf(v.page);
    var price := ResolvePrice(v.page);
    var imageUrl := ImageOf(v.page);
    var asin := AsinOf(v.page);
    info := ProductRecord(asin, title, price, imageUrl, v.date, v.time, No, v.page.url);
    if AcceptsCart(decision) {
      info := info.(addedToCart := Yes);
      var clicked, attempts := ClickAddToCart(v.page);
    }
  }

  /** The session state: the list of products inspected so far. */
  class ShoppingSession {
    var allProducts: seq<ProductRecord>

    constructor ()
      ensures allProducts == []
    {
      allProducts := [];
    }

    /** `all_products.append(product_info)`: one record at the end, the
        earlier ones unchanged. */
    method Append(info: ProductRecord)
      modifies this
      ensures allProducts == old(allProducts) + [info]
    {
      allProducts := allProducts + [info];
    }

    /** Inspect a page and append its record: the record is the page's
        fresh record `base` with the cart question settled by `decision`. */
    method Inspect(v: Visit, decision: string, ghost base: ProductRecord) returns (info: ProductRecord)
      requires base == NewRecord(v)
      modifies this
      ensures info == Marked(base, AcceptsCart(decision))
      ensures allProducts == old(allProducts) + [info]
    {
      info := InspectProduct(v, decision);
      Append(info);
    }

    /** One pass of the loop body, from reply `u` and page `p`: either the
        session ends here (`done`), or the loop goes round again from reply
        `next` and page `nextPage`, with the records appended so far and those
        still to come making up the same session. `readings` and `pages` are
        what the replies and pages read as, as far as this pass looks. */
    method Turn(replies: seq<string>, visits: seq<Visit>, ghost readings: seq<Reading>,
                ghost pages: seq<ProductRecord>, u: nat, p: nat)
      returns (done: bool, ending: Ending, next: nat, nextPage: nat)
      requires u < |replies| == |readings| && p <= |visits| == |pages|
      requires readings[u].heard == Classify(replies[u])
      requires u + 1 < |replies| ==> readings[u + 1].addsToCart == AcceptsCart(replies[u + 1])
      requires u + 2 < |replies| ==> readings[u + 2].searchesAgain == WantsAnother(replies[u + 2])
      requires p < |visits| ==> pages[p] == NewRecord(visits[p])
      modifies this
      ensures done ==> allProducts == old(allProducts) + SessionFrom(readings, pages, u, p).records
      ensures done ==> ending == SessionFrom(readings, pages, u, p).ending
      ensures !done ==> u < next <= |replies| && nextPage <= |visits|
      ensures !done ==> allProducts + SessionFrom(readings, pages, next, nextPage).records
                        == old(allProducts) + SessionFrom(readings, pages, u, p).records
      ensures !done ==> SessionFrom(readings, pages, next, nextPage).ending == SessionFrom(readings, pages, u, p).ending
    {
      var productName := replies[u];
      if IsExitCommand(productName) {
        return true, ExitPhrase, u, p;
      }
      if IsBlank(productName) {
        return false, InputExhausted, u + 1, p;
      }
      if p == |visits| || u + 1 == |replies| {
        return true, InputExhausted, u, p;
      }
      done, ending := InspectAndAsk(replies, visits, readings, pages, u, p);
      next, nextPage := u + 3, p + 1;
    }

    /** The rest of a pass once a product name was heard: inspect page `p`
        with cart reply `u + 1`, append the record, and ask reply `u + 2`
        whether to search again. */
    method InspectAndAsk(replies: seq<string>, visits: seq<Visit>, ghost readings: seq<Reading>,
                         ghost pages: seq<ProductRecord>, u: nat, p: nat)
      returns (done: bool, ending: Ending)
      requires u + 1 < |replies| == |readings| && p < |visits| == |pages|
      requires readings[u].heard == ProductName
      requires readings[u + 1].addsToCart == AcceptsCart(replies[u + 1])
      requires u + 2 < |replies| ==> readings[u + 2].searchesAgain == WantsAnother(replies[u + 2])
      requires pages[p] == NewRecord(visits[p])
      modifies this
      ensures done ==> allProducts == old(allProducts) + SessionFrom(readings, pages, u, p).records
      ensures done ==> ending == SessionFrom(readings, pages, u, p).ending
      ensures !done ==> u + 3 <= |replies|
      ensures !done ==> allProducts + SessionFrom(readings, pages, u + 3, p + 1).records
                        == old(allProducts) + SessionFrom(readings, pages, u, p).records
      ensures !done ==> SessionFrom(readings, pages, u + 3, p + 1).ending == SessionFrom(readings, pages, u, p).ending
    {
      ghost var before := allProducts;
      var info := Inspect(visits[p], replies[u + 1], pages[p]);
      done, ending := AskAgain(replies, readings, pages, u, p, before, info);
    }

    /** Ask reply `u + 2` whether to search again, once page `p` was
        inspected with cart reply `u + 1` into `info` and appended to
        `before`. The session from `u` and `p` then either ends with `info`
        as its one record, or has `info` followed by the session from `u + 3`
        and `p + 1`. */
    method AskAgain(replies: seq<string>, ghost readings: seq<Reading>, ghost pages: seq<ProductRecord>,
                    u: nat, p: nat, ghost before: seq<ProductRecord>, ghost info: ProductRecord)
      returns (done: bool, ending: Ending)
      requires u + 1 < |replies| == |readings| && p < |pages|
      requires readings[u].heard == ProductName
      requires info == Marked(pages[p], readings[u + 1].addsToCart)
      requires u + 2 < |replies| ==> readings[u + 2].searchesAgain == WantsAnother(replies[u + 2])
      requires allProducts == before + [info]
      ensures done ==> allProducts == before + SessionFrom(readings, pages, u, p).records
      ensures done ==> ending == SessionFrom(readings, pages, u, p).ending
      ensures !done ==> u + 3 <= |replies|
      ensures !done ==> allProducts + SessionFrom(readings, pages, u + 3, p + 1).records
                        == before + SessionFrom(readings, pages, u, p).records
      ensures !done ==> SessionFrom(readings, pages, u + 3, p + 1).ending == SessionFrom(readings, pages, u, p).ending
    {
      if u + 2 == |replies| {
        return true, InputExhausted;
      }
      var again := replies[u + 2];
      if !WantsAnother(again) {
        return true, Declined;
      }
      ghost var rest := SessionFrom(readings, pages, u + 3, p + 1);
      assert allProducts + rest.records == before + ([info] + rest.records);
      return false, InputExhausted;
    }

    /** The main loop, fed the replies heard and the pages visited in order. */
    method Run(replies: seq<string>, visits: seq<Visit>) returns (ending: Ending)
      modifies this
      ensures allProducts == old(allProducts) + SessionOutcome(replies, visits).records
      ensures ending == SessionOutcome(replies, visits).ending
    {
      ghost var readings, pages := ReadAll(replies), ReadPages(visits);
      var u, p := 0, 0;
      while true
        invariant 0 <= u <= |replies| && 0 <= p <= |visits|
        invariant allProducts + SessionFrom(readings, pages, u, p).records
                  == old(allProducts) + SessionOutcome(replies, visits).records
        invariant SessionFrom(readings, pages, u, p).ending == SessionOutcome(replies, visits).ending
        decreases |replies| - u
      {
        if u == |replies| {
          return InputExhausted;
        }
        HeardAt(replies, u);
        if u + 1 < |replies| {
          AddsToCartAt(replies, u + 1);
        }
        if u + 2 < |replies| {
          SearchesAgainAt(replies, u + 2);
        }
        if p < |visits| {
          ReadPagesAt(visits, p);
        }
        var done, e, next, nextPage := Turn(replies, visits, readings, pages, u, p);
        if done {
          return e;
        }
        u, p := next, nextPage;
      }
    }
  }
}
