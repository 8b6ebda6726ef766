# Amazon voice assistant: a Dafny model of its deterministic core

The assistant is a single script that runs a voice-driven shopping session.
It asks the user to spell an e-mail address and say a password, and logs in.
Then it loops. It asks for a product and searches for it. It waits for the
user to open a product page, reads the title, price, image and ASIN from that
page, and asks whether to add the product to the cart. It records the product
in `all_products` and asks whether to search again. At the end it writes the
list to a CSV file.

This project models the part of that script that is plain string and list
logic. The speech engine, the browser and the file system are left out.

- `python_str.dfy` (module `PyStr`): the Python `str` operations the script
  relies on, with CPython's meaning. `find` and `in` give the leftmost
  occurrence. `replace` replaces every non-overlapping occurrence, scanning
  left to right. The module also has `split`, `join`, `rfind`, `strip` (over
  the full `str.isspace` set) and `lower`.
- `spoken_input.dfy` (module `SpokenInput`): the e-mail and password
  normalisation chains, `is_valid_email` as a character-class check proved
  equal to the regular expression read literally, and the `get_spelled_email`
  retry loop.
- `commands.dfy` (module `Commands`): how replies are read. A reply is an
  exit command if it contains "exit", "quit" or "close" as a substring. It is
  blank if it strips to nothing. The cart question and the search-again
  question each have a normalisation and a fixed set of accepted replies.
  This module also builds the search URL and the ASIN taken from a product URL.
- `extraction.dfy` (module `Extraction`): a product page, seen only through
  what each locator finds. It holds the fallback chains for title, image and
  ASIN, the five-selector price loop with its whole+fraction fallback, and
  the seven-locator add-to-cart loop.
- `session.dfy` (module `Session`): the product record, the main loop as a
  class `ShoppingSession` whose `allProducts` field is `all_products`, and a
  function `SessionOutcome` that gives the records and the ending of a session.

Every element the script looks up is a `Locator`, named for the part it
plays on the page; `Extraction.Query` gives the Selenium strategy and the
selector text the script passes for it. `Query` is there to document which
selector each locator stands for; no contract depends on it.

`listen` is modelled as a stream of replies: `Run` takes the replies in the
order the script would hear them. The product page the user opens by hand,
together with the clock reading for it, is a second stream (`Visit`).
The session itself is specified by `Session.SessionFrom` over what those
streams read as: each reply read as an answer to each of the three questions
of the loop (`Reading`), and each page as the record first built from it.

Behaviour of the code that the model keeps, and that its lemmas state:

- The exit words are matched as substrings, so "closet organiser" ends the
  session (`Commands.ExitWordInsideProductName`).
- The two yes/no questions accept different words. "s" adds to the cart but
  does not continue the session. "yeah" does the reverse. Only the cart
  reply has its '-' characters removed.
- A price selector whose stripped text is literally "N/A" leaves the price at
  "N/A", so the whole+fraction fallback still runs
  (`Extraction.PriceFromEarliestSelector` needs the text to differ from "N/A").
- The currency prefix of the fallback price is the three characters
  U+00E2 U+201A U+00B9. These are the bytes of the source file at
  Amazon_voice_assistant/amazon.py:180: the UTF-8 rupee sign read as
  Windows-1252. The model keeps the literal as written.
- `Added_to_Cart` holds the string "Yes" or "No" (amazon.py:202, 222). The
  model keeps exactly these two values as the datatype `YesNo`.
- The record is marked "Yes" as soon as the cart reply is accepted, before
  any button is tried, and stays "Yes" when no locator succeeds
  (amazon.py:221-222, 257-258).
- The cart reply has its '-' characters removed as well as its spaces
  (amazon.py:219); the search-again reply only its spaces (amazon.py:291).
- E-mail normalisation replaces exactly the four tokens " at ", " dot ",
  "underscore" and "dash", and then removes every space (amazon.py:51-52).
- `get_spoken_password` does no check at all on the password, not even for
  being non-empty (amazon.py:61-76).

## Model

| member | source | states |
|---|---|---|
| `PyStr.FindFrom` | Amazon_voice_assistant/amazon.py:191 | the result is the leftmost occurrence at or after `start`; there is none before it, and `None` means there is none at all |
| `PyStr.ContainsIff` | Amazon_voice_assistant/amazon.py:125 | Python's `pat in s` holds exactly when `pat` occurs at some index of `s` |
| `PyStr.Split` | Amazon_voice_assistant/amazon.py:191 | `split` gives at least one piece, at least two exactly when the separator occurs, and no piece contains the separator |
| `PyStr.SplitHead` | Amazon_voice_assistant/amazon.py:191 | `split(sep)[0]` is the text before the first separator (or all of it), and `[1]` is the first piece of what follows that separator |
| `PyStr.JoinSplit` | Amazon_voice_assistant/amazon.py:191 | joining the pieces of `split(sep)` with `sep` gives back the original string |
| `PyStr.ReplaceIsJoinSplit` | Amazon_voice_assistant/amazon.py:51-52 | `s.replace(a, b)` equals `b.join(s.split(a))`: every non-overlapping occurrence, left to right, is replaced |
| `PyStr.ReplaceChar` | Amazon_voice_assistant/amazon.py:133 | replacing one character by another keeps the length and changes exactly the positions that held it |
| `PyStr.ReplaceCharByNothing` | Amazon_voice_assistant/amazon.py:52 | replacing a character by "" removes every occurrence of it and keeps every other character in order |
| `PyStr.RemoveCharCommutes` | Amazon_voice_assistant/amazon.py:219 | removing spaces and removing '-' give the same text in either order |
| `PyStr.LowerRemoveChar` | Amazon_voice_assistant/amazon.py:219 | lower-casing commutes with removing a character that is not a letter |
| `PyStr.Strip` | Amazon_voice_assistant/amazon.py:129 | `strip()` is no longer than its input and, when not empty, neither starts nor ends with whitespace |
| `PyStr.StripEmpty` | Amazon_voice_assistant/amazon.py:129 | a reply strips to nothing exactly when it is all whitespace (the empty reply included) |
| `PyStr.StripIsSlice` | Amazon_voice_assistant/amazon.py:152 | the stripped text is a contiguous slice of the input, and all that is cut off before and after it is whitespace |
| `PyStr.ContainsNotBlank` | Amazon_voice_assistant/amazon.py:125-129 | text that contains a word starting with a non-space character does not strip to nothing |
| `PyStr.StripIdempotent` | Amazon_voice_assistant/amazon.py:152 | stripping a stripped text changes nothing |
| `SpokenInput.NormaliseEmail` | Amazon_voice_assistant/amazon.py:51-52 | the normalised e-mail is the token substitutions with every space removed, so it holds no space |
| `SpokenInput.NormalisePassword` | Amazon_voice_assistant/amazon.py:63-65 | the normalised password is the substitutions with " space " dropped and every space removed, so it holds no space |
| `SpokenInput.PasswordLikeEmail` | Amazon_voice_assistant/amazon.py:63-65 | when " space " is not spoken, the password is normalised exactly like an e-mail address |
| `SpokenInput.ValidEmailIffPattern` | Amazon_voice_assistant/amazon.py:44-46 | the character-class check accepts exactly the strings that `^[\w\.-]+@[\w\.-]+\.\w+$` matches, read as a split at an '@' and a later '.' |
| `SpokenInput.ValidEmailOneAt` | Amazon_voice_assistant/amazon.py:45 | an accepted address contains exactly one '@' |
| `SpokenInput.ValidEmailSuffix` | Amazon_voice_assistant/amazon.py:45 | an accepted address ends in one or more word characters after a '.' |
| `SpokenInput.NoneAcceptedAt` | Amazon_voice_assistant/amazon.py:53-58 | in a run of replies none of which normalises to an accepted address, each reply on its own is rejected |
| `SpokenInput.GetSpelledEmail` | Amazon_voice_assistant/amazon.py:48-58 | the result is the normalisation of the first reply that passes the check, so the check holds of it; every earlier reply failed; with no valid reply, all replies are used and nothing is returned |
| `SpokenInput.GetSpokenPassword` | Amazon_voice_assistant/amazon.py:61-76 | the password is the normalised reply, with no space in it; the on-screen mask is one '*' per character of the password |
| `Commands.ExitWordInsideProductName` | Amazon_voice_assistant/amazon.py:125 | a product name that merely contains an exit word ("closet organiser", "wireless exit sign") is an exit command |
| `Commands.ExitIsNotBlank` | Amazon_voice_assistant/amazon.py:125-131 | a reply with an exit word is never blank, so testing for an exit before testing for a blank reply loses nothing |
| `Commands.NormaliseCartReply` | Amazon_voice_assistant/amazon.py:219 | the normalised cart reply is the lower-cased reply without spaces and '-', and holds neither |
| `Commands.CartReplyIdempotent` | Amazon_voice_assistant/amazon.py:219-221 | normalising twice is normalising once, so a reply and its normal form get the same decision |
| `Commands.BlankCartReplyDeclines` | Amazon_voice_assistant/amazon.py:219-221 | a reply of whitespace only, the empty reply among them, is not accepted as adding to the cart |
| `Commands.SpacedYesAccepted` | Amazon_voice_assistant/amazon.py:219-221 | any reply that reads "yes" once its spaces are removed is a yes to the cart question and to the search-again question |
| `Commands.SpelledYesAccepted` | Amazon_voice_assistant/amazon.py:219-292 | the letter-by-letter reply "y e s" is a yes both to the cart question (lines 219-221) and to the search-again question (lines 291-292) |
| `Commands.NormaliseAgainReply` | Amazon_voice_assistant/amazon.py:291 | the normalised search-again reply is the lower-cased reply without spaces, and holds none |
| `Commands.BlankAgainReplyDeclines` | Amazon_voice_assistant/amazon.py:291-294 | a reply of whitespace only does not continue the session |
| `Commands.BareSAddsButDoesNotContinue` | Amazon_voice_assistant/amazon.py:292 | "s" is a yes to the cart question but a no to the search-again question |
| `Commands.YeahContinuesButDoesNotAdd` | Amazon_voice_assistant/amazon.py:292 | "yeah" is a yes to the search-again question but a no to the cart question |
| `Commands.SearchQuery` | Amazon_voice_assistant/amazon.py:133 | the query has the product name's length and no space, and differs from the name only where a space became '+' |
| `Commands.SearchUrl` | Amazon_voice_assistant/amazon.py:133-134 | the search URL is the fixed prefix followed by exactly the query built from the product name, so it holds no space after the prefix and is as long as prefix and name together |
| `Commands.AsinFromUrlSegment` | Amazon_voice_assistant/amazon.py:191 | with "/dp/" in the URL, the ASIN is the text after the first "/dp/" up to the next '/' or the end, and holds no '/'; without it, the ASIN is "N/A" |
| `Extraction.TitleFallback` | Amazon_voice_assistant/amazon.py:151-154 | the title is the stripped text of the title element when the lookup succeeds; it is "N/A" when the lookup fails, or when the element's own stripped text is literally "N/A" |
| `Extraction.ImageFallback` | Amazon_voice_assistant/amazon.py:183-186 | the image URL is the main image's `src` when the lookup succeeds; it is "N/A" when the lookup fails, or when the `src` is literally "N/A" |
| `Extraction.AsinFallback` | Amazon_voice_assistant/amazon.py:188-191 | the stripped ASIN cell wins whenever it is found; only when its lookup fails is the ASIN taken from the URL, and then it is the "/dp/" segment, with no '/' in it, or "N/A" |
| `Extraction.FirstNonBlank` | Amazon_voice_assistant/amazon.py:166-173 | the result is the earliest selector whose element was found with non-blank text, and no earlier selector qualifies; `None` means none does |
| `Extraction.FirstNonBlankIs` | Amazon_voice_assistant/amazon.py:166-171 | a selector with non-blank text and none before it is the one `FirstNonBlank` returns |
| `Extraction.PriceFromEarliestSelector` | Amazon_voice_assistant/amazon.py:166-176 | the earliest selector with non-blank text decides the price, stripped; no later selector overrides it, and neither does the fallback unless that text is "N/A" |
| `Extraction.WholeFractionShape` | Amazon_voice_assistant/amazon.py:176-182 | the fallback price is the currency prefix, the stripped whole part with no ',' left in it, '.', and the stripped fraction |
| `Extraction.PriceNotFound` | Amazon_voice_assistant/amazon.py:156-182 | the price is "N/A" exactly when the selectors give "N/A" and the fallback does not find both of its parts |
| `Extraction.TryPriceSelectors` | Amazon_voice_assistant/amazon.py:156-173 | the selector loop stops at the earliest selector with non-blank text and returns that text stripped, or "N/A" |
| `Extraction.ResolvePrice` | Amazon_voice_assistant/amazon.py:156-182 | the price loop followed by the fallback, run only while the price is "N/A", gives the specified price |
| `Extraction.ClickAddToCart` | Amazon_voice_assistant/amazon.py:236-258 | `button_clicked` holds exactly when some locator succeeds; the loop stops at the first locator that succeeds, after trying only those before it, which all failed; without success all seven are tried |
| `Session.NewRecordFields` | Amazon_voice_assistant/amazon.py:193-204 | a fresh record has "Added_to_Cart" at "No" and the visit's date, time and URL; on a page where no lookup succeeds, title, price and image are "N/A" and the ASIN comes from the URL |
| `Session.Inspection` | Amazon_voice_assistant/amazon.py:195-222 | "Added_to_Cart" is "Yes" exactly when the reply is accepted and "No" otherwise, whatever the cart loop does; every other field is as first read from the page |
| `Session.SessionFrom` | Amazon_voice_assistant/amazon.py:123-294 | a session records no more products than pages visited, and a session ended by a declined search-again reply has recorded at least one product |
| `Session.RecordsFollowPages` | Amazon_voice_assistant/amazon.py:282 | from any point of a session, its k-th record comes from the k-th page still to be visited, with only "Added_to_Cart" possibly changed |
| `Session.RecordsFollowVisits` | Amazon_voice_assistant/amazon.py:282 | the k-th record is the k-th page visited, as read when inspected, with only "Added_to_Cart" possibly set to "Yes" |
| `Session.DeclineEndsAfterOne` | Amazon_voice_assistant/amazon.py:290-294 | a reply that is not an accepted "yes" to the search-again question ends the session with that product as the last record |
| `Session.ExitEndsAtOnce` | Amazon_voice_assistant/amazon.py:124-127 | a reply with an exit word ends the session at once, with no further record |
| `Session.InspectProduct` | Amazon_voice_assistant/amazon.py:150-271 | reading the page, running the price loop and, on a yes, marking the record and running the cart loop produce the specified record |
| `Session.ShoppingSession.constructor` | Amazon_voice_assistant/amazon.py:121 | `all_products` starts empty |
| `Session.ShoppingSession.Append` | Amazon_voice_assistant/amazon.py:282 | appending adds exactly one record at the end and leaves the earlier records unchanged |
| `Session.ShoppingSession.Inspect` | Amazon_voice_assistant/amazon.py:150-282 | the record appended is the page's record as first read, with "Added_to_Cart" settled by the cart reply, and nothing else is appended |
| `Session.ShoppingSession.Turn` | Amazon_voice_assistant/amazon.py:124-294 | one pass of the loop body either ends the session (exit phrase, declined reply, or no more input) with `all_products` holding the whole session, or goes round again with the records still to come completing the same session |
| `Session.ShoppingSession.InspectAndAsk` | Amazon_voice_assistant/amazon.py:150-294 | once a product name is heard, the pass appends exactly the record the session specifies for this page and either ends as specified or hands on to the next product |
| `Session.ShoppingSession.AskAgain` | Amazon_voice_assistant/amazon.py:290-294 | a reply other than an accepted yes ends the session with the record just appended as its last; an accepted yes continues it from the next reply and page |
| `Session.ShoppingSession.Run` | Amazon_voice_assistant/amazon.py:123-294 | the main loop extends `all_products` by exactly the records of the session, in order, and ends as the session specifies |

## Left out

- Speech capture and text-to-speech (`speak`, `listen`, lines 17-42) are
  external services. The text `listen` returns is an input stream of replies.
  A speech-service failure is simply the reply "".
- Browser control is left out: starting the driver, navigation, the login
  form (lines 97-118), window switching and closing (lines 142-148 and
  284-289), `WebDriverWait`, scrolling and highlighting. A page is a map from
  locators to the elements they find. A bare `except` that catches any
  failure of a lookup is modelled as "not found".
- The cart confirmation waits (lines 259-266 and 273-280) only speak or
  print, so they are left out. The outer `try` around the cart block (lines
  225-269) cannot fail in the model, because every failure is per locator.
- `save_to_csv`, the timestamped file name and the CSV format (lines 79-91
  and 296)
  are left out. So is the clock: the date and time strings of a record come
  with each `Visit`.
- `time.sleep`, the `input()` gates and the carriage-return masking on
  standard output are left out. Only the mask's length and content are stated.
- `SpokenInput.GetSpelledEmail` returns `None` when the replies run out,
  where the script keeps asking for ever.
- `Session.ShoppingSession.Run` ends with `InputExhausted` when the replies
  or the pages run out, where the script would wait for ever.
- `SpokenInput.IsValidEmail` reads `\w` as ASCII letters, digits and '_'.
  Python's `\w` on `str` also admits other Unicode letters and digits. The
  `$` anchor's match before a final newline is not modelled either.
- `PyStr.Lower` lower-cases ASCII letters only. Python's `str.lower`
  also folds other scripts.
- `PyStr.Replace` requires a non-empty pattern. Python's empty-pattern case
  is not modelled, because every call in the script passes a non-empty
  literal.
- `Extraction.ImageOf` treats the image's `src` as a string. Python's
  `get_attribute` can return `None` for an element without `src`.
- The search URL is computed (`Commands.SearchUrl`), but the navigation to
  it is not modelled.
