/** How the main loop reads the user's replies (exit, blank, yes/no) and
    the two strings it derives from text: the search URL and the ASIN
    taken from a product URL. */
module Commands {
  import opened PyStr

  /** A reply ends the session when it contains "exit", "quit" or "close" anywhere. */
  predicate IsExitCommand(reply: string)
  {
    Contains(reply, "exit") || Contains(reply, "quit") || Contains(reply, "close")
  }

  /** The exit words are matched as substrings, so a product name that merely
      contains one of them also ends the session. */
  lemma ExitWordInsideProductName()
    ensures IsExitCommand("closet organiser")
    ensures IsExitCommand("wireless exit sign")
  {
    assert OccursAt("closet organiser", "close", 0);
    assert OccursAt("wireless exit sign", "exit", 9);
  }

  /** `not reply.strip()`: nothing but whitespace was heard. */
  predicate IsBlank(reply: string)
  {
    Strip(reply) == []
  }

  /** A reply that names an exit word is never blank, so checking for an
      exit before checking for a blank reply loses nothing. */
  lemma ExitIsNotBlank(reply: string)
    requires IsExitCommand(reply)
    ensures !IsBlank(reply)
  {
    if Contains(reply, "exit") {
      ContainsNotBlank(reply, "exit");
    } else if Contains(reply, "quit") {
      ContainsNotBlank(reply, "quit");
    } else {
      ContainsNotBlank(reply, "close");
    }
  }

  /** The spellings of "yes" accepted before adding to the cart. */
  const CartAcceptances: seq<string> := ["yes", "y", "s", "yyes", "ys", "yees"]

  /** The cart reply with spaces and '-' removed, then lower-cased. */
  function NormaliseCartReply(reply: string): (r: string)
    ensures r == Lower(RemoveChar(RemoveChar(reply, ' '), '-'))
    ensures ' ' !in r && '-' !in r
  {
    var noSpaces := Replace(reply, " ", "");
    ReplaceCharByNothing(reply, ' ');
    ReplaceCharByNothing(noSpaces, '-');
    var bare := RemoveChar(noSpaces, '-');
    LowerRemoveChar(bare, ' ');
    LowerRemoveChar(bare, '-');
    RemoveCharAbsent(bare, '-');
    RemoveCharCommutes(noSpaces, '-', ' ');
    RemoveCharAbsent(noSpaces, ' ');
    Lower(Replace(noSpaces, "-", ""))
  }

  /** The decision to add the product to the cart. */
  predicate AcceptsCart(reply: string)
  {
    NormaliseCartReply(reply) in CartAcceptances
  }

  /** Normalising a cart reply twice is normalising it once, so a reply
      and its normal form get the same decision. */
  lemma CartReplyIdempotent(reply: string)
    ensures NormaliseCartReply(NormaliseCartReply(reply)) == NormaliseCartReply(reply)
    ensures AcceptsCart(NormaliseCartReply(reply)) == AcceptsCart(reply)
  {
    var r := NormaliseCartReply(reply);
    RemoveCharAbsent(r, ' ');
    RemoveCharAbsent(r, '-');
    LowerProperties(RemoveChar(RemoveChar(reply, ' '), '-'));
  }

  /** A reply made of whitespace only (the empty reply among them) is a "no". */
  lemma BlankCartReplyDeclines(reply: string)
    requires IsBlank(reply)
    ensures !AcceptsCart(reply)
  {
    StripEmpty(reply);
    var bare := RemoveChar(RemoveChar(reply, ' '), '-');
    RemoveCharAllSpace(reply, ' ');
    RemoveCharAllSpace(RemoveChar(reply, ' '), '-');
    LowerAllSpace(bare);
    SpaceIsNoYes(NormaliseCartReply(reply));
  }

  /** No accepted spelling starts with whitespace. */
  lemma SpaceIsNoYes(r: string)
    requires AllSpace(r)
    ensures r !in CartAcceptances && r !in AgainAcceptances
  {
    if r != [] {
      assert IsSpace(r[0]);
    }
  }

  /** The normal form of a reply, from the characters it keeps. */
  lemma CartReplyIs(reply: string, w: string)
    requires RemoveChar(RemoveChar(reply, ' '), '-') == w && Lower(w) == w
    ensures NormaliseCartReply(reply) == w
  {
  }

  lemma AgainReplyIs(reply: string, w: string)
    requires RemoveChar(reply, ' ') == w && Lower(w) == w
    ensures NormaliseAgainReply(reply) == w
  {
  }

  /** "yes" said with pauses, or spelled letter by letter, is a yes to both questions. */
  lemma SpacedYesAccepted(reply: string)
    requires RemoveChar(reply, ' ') == "yes"
    ensures AcceptsCart(reply) && WantsAnother(reply)
  {
    YesIsStable();
    CartReplyIs(reply, "yes");
    AgainReplyIs(reply, "yes");
    AcceptanceWords();
  }

  /** A yes spelled letter by letter is accepted by both questions. */
  lemma SpelledYesAccepted()
    ensures AcceptsCart("y e s") && WantsAnother("y e s")
  {
    SpelledYesUnspaced();
    SpacedYesAccepted("y e s");
  }

  /** "y e s", as the recogniser writes a spelled yes, has its spaces removed. */
  lemma SpelledYesUnspaced()
    ensures RemoveChar("y e s", ' ') == "yes"
  {
    assert "y e s"[1..] == " e s" && " e s"[1..] == "e s" && "e s"[1..] == " s" && " s"[1..] == "s";
    assert "s"[1..] == [];
  }

  lemma YesIsStable()
    ensures RemoveChar("yes", '-') == "yes" && RemoveChar("yes", ' ') == "yes" && Lower("yes") == "yes"
  {
    assert "yes"[1..] == "es" && "es"[1..] == "s" && "s"[1..] == [];
  }

  /** The spellings of "yes" accepted for searching again. */
  const AgainAcceptances: seq<string> := ["yes", "y", "yeah", "sure", "yea", "yep"]

  /** The search-again reply with spaces removed, then lower-cased. */
  function NormaliseAgainReply(reply: string): (r: string)
    ensures r == Lower(RemoveChar(reply, ' '))
    ensures ' ' !in r
  {
    ReplaceCharByNothing(reply, ' ');
    LowerRemoveChar(RemoveChar(reply, ' '), ' ');
    RemoveCharAbsent(RemoveChar(reply, ' '), ' ');
    Lower(Replace(reply, " ", ""))
  }

  /** The decision to search for another product. */
  predicate WantsAnother(reply: string)
  {
    NormaliseAgainReply(reply) in AgainAcceptances
  }

  /** The two questions accept different words: "s" adds to the cart but
      does not continue the session ... */
  lemma BareSAddsButDoesNotContinue(reply: string)
    requires RemoveChar(reply, ' ') == "s"
    ensures AcceptsCart(reply) && !WantsAnother(reply)
  {
    SIsStable();
    CartReplyIs(reply, "s");
    AgainReplyIs(reply, "s");
    AcceptanceWords();
  }

  /** ... and "yeah" continues the session but does not add to the cart. */
  lemma YeahContinuesButDoesNotAdd(reply: string)
    requires RemoveChar(reply, ' ') == "yeah"
    ensures WantsAnother(reply) && !AcceptsCart(reply)
  {
    YeahIsStable();
    CartReplyIs(reply, "yeah");
    AgainReplyIs(reply, "yeah");
    AcceptanceWords();
  }

  /** Which of the words at hand each question accepts. */
  lemma AcceptanceWords()
    ensures "yes" in CartAcceptances && "yes" in AgainAcceptances
    ensures "s" in CartAcceptances && "s" !in AgainAcceptances
    ensures "yeah" in AgainAcceptances && "yeah" !in CartAcceptances
  {
  }

  lemma SIsStable()
    ensures RemoveChar("s", '-') == "s" && Lower("s") == "s"
  {
    assert "s"[1..] == [];
  }

  lemma YeahIsStable()
    ensures RemoveChar("yeah", '-') == "yeah" && Lower("yeah") == "yeah"
  {
    assert "yeah"[1..] == "eah" && "eah"[1..] == "ah" && "ah"[1..] == "h" && "h"[1..] == [];
  }

  /** A reply made of whitespace only ends the session. */
  lemma BlankAgainReplyDeclines(reply: string)
    requires IsBlank(reply)
    ensures !WantsAnother(reply)
  {
    StripEmpty(reply);
    RemoveCharAllSpace(reply, ' ');
    LowerAllSpace(RemoveChar(reply, ' '));
    SpaceIsNoYes(NormaliseAgainReply(reply));
  }

  /** The query string of the search URL. */
  function SearchQuery(productName: string): (q: string)
    ensures |q| == |productName| && ' ' !in q
    ensures forall k :: 0 <= k < |q| ==> q[k] == if productName[k] == ' ' then '+' else productName[k]
  {
    ReplaceChar(productName, ' ', '+');
    Replace(productName, " ", "+")
  }

  const SearchPrefix: string := "https://www.amazon.in/s?k="

  /** The search page URL for a spoken product name. */
  function SearchUrl(productName: string): (url: string)
    ensures |url| == |SearchPrefix| + |productName|
    ensures url[..|SearchPrefix|] == SearchPrefix && ' ' !in url[|SearchPrefix|..]
    ensures url[|SearchPrefix|..] == SearchQuery(productName)
  {
    var q := SearchQuery(productName);
    assert (SearchPrefix + q)[|SearchPrefix|..] == q;
    SearchPrefix + q
  }

  const NotFound: string := "N/A"

  /** The ASIN read from the product URL when the page has no ASIN row:
      `url.split("/dp/")[1].split("/")[0]` if "/dp/" occurs, otherwise "N/A". */
  function AsinFromUrl(url: string): string
  {
    if Contains(url, "/dp/") then Split(Split(url, "/dp/")[1], "/")[0] else NotFound
  }

  /** The ASIN from the URL is the text after the first "/dp/" up to the next
      '/' or the end of the URL, and holds no '/'; without "/dp/" it is "N/A". */
  lemma AsinFromUrlSegment(url: string)
    ensures !Contains(url, "/dp/") ==> AsinFromUrl(url) == NotFound
    ensures Contains(url, "/dp/") ==>
      var rest := url[Find(url, "/dp/").value + 4..];
      var asin := AsinFromUrl(url);
      && |asin| <= |rest| && asin == rest[..|asin|] && '/' !in asin
      && (|asin| == |rest| || rest[|asin|] == '/')
  {
    if Contains(url, "/dp/") {
      SplitAfterFirst(url, "/dp/", '/');
    }
  }
}
