# Scenty scraper core, modelled in Dafny

This project models the scraper half of Scenty-API, `Scenty-API/scrape.py`. The scraper reads a perfume product page and turns it into a record. The record holds:

- the title and the gender tags;
- the brand and its logo;
- the accords;
- the bottle image;
- the rating and the rating count;
- the description;
- up to 21 reviews.

The model covers every function of that file:

- **`get_html`** is a bounded retry loop. The network is an oracle `outcome: nat -> Attempt<D>`, where `outcome(k)` is what attempt `k` yields: a fetched document or a failure. The method counts its attempts and its sleeps.
- **`extract`** and the element dereferences (`.text`, `.get_text()`, `.get(...)`) work on an abstract `Page.Element`. An element carries:
  - its tag, its classes, its text and its attributes;
  - its element children;
  - for each lookup the scraper performs (`Page.Selector`), the elements that lookup returns, in document order.

  Dereferencing a missing element is the source's `AttributeError`. It is modelled as an `Err`, not ruled out by a precondition.
- **`parse_info`** covers these steps:
  - the title/gender split (module `Title`), which is built on Python's `str.find`, slicing, `str.split()` and `str.rstrip()` (module `Text`);
  - the rating count, `int(text.replace(",", ""))` (modules `Numbers` and `RatingCount`);
  - the accords loop;
  - the record assembly in the order the source evaluates it (module `Info`).
- **`parse_reviews`** is a loop over the selected review boxes that carries `item` from one iteration to the next (module `Reviews`).
- **`scrape_all`** fetches with the default budget of 3, then parses (module `Scrape`).

Python exceptions are `Outcomes.Error` values: `AttributeError`, `IndexError`, `ValueError` and `UnboundLocalError`. A call that raises is modelled as an `Err`.

Each loop is a method proved against a function. `GetHtml` is proved against `FirstSuccess`, `ParseReviews` against `ReviewsOf`, `ParseInfo` against `InfoOf`, and `ScrapeAll` against `ScrapeOf`. The lemmas state what the source promises of those functions.

## Behaviour the code has that its comments do not suggest

The model follows the code in each of these cases:

- **Sleeps.** `get_html` sleeps after every failed attempt, the last one included (scrape.py:19-25). When all 3 attempts fail it sleeps 3 times, leaves the loop and returns None.
- **Missing review fields.** A missing review body, author or date element makes `.text`/`.get` raise `AttributeError` (scrape.py:95-97), and the whole call aborts.
- **Info section.** A page with fewer than two `cell small-12` divisions raises `IndexError` at `find_all(...)[1]` (scrape.py:51). A BeautifulSoup tag is always true, so `if infoSection` never takes its else branch. The string 'No information on this perfume' is never returned.
- **Gender tags.** The tags are not restricted to "men" and "women". `find('for')` is a substring search, so "Comfort for men" matches inside "Comfort". It gives the title "Co" and the tags ["t", "men"].
- **Boxes without a grid.** The comments at scrape.py:105-106 read "None for all" and "don't add anything", but the `append` at scrape.py:109 still runs: the previous iteration's `item` is appended again. If the first box has no grid, `item` is unbound and the loop raises `UnboundLocalError`.
- **Box positions.** The comment at scrape.py:88 says "first 20", but the selector `:nth-child(-n+21)` admits the first 21 positions, so up to 21 reviews come back.

## Model

| member | source | states |
|---|---|---|
| Fetch.FirstSuccess | Scenty-API/scrape.py:11-17 | the first attempt within the budget that fetched a document: present exactly when some attempt below the budget succeeds, and every earlier attempt failed |
| Fetch.FirstSuccessStable | Scenty-API/scrape.py:7-11 | a larger retry budget does not change which attempt succeeds first, once one has |
| Fetch.GetHtml | Scenty-API/scrape.py:7-25 | returns the document of the first successful attempt after k+1 attempts and k sleeps; when every attempt fails: None, after exactly max(0, max_retries) attempts and as many sleeps (the last failure sleeps too); never more than max(0, max_retries) attempts, so max_retries <= 0 makes no attempt |
| Page.Extract | Scenty-API/scrape.py:28-32 | None exactly when the scope is missing (the caught AttributeError) or nothing matches; otherwise the first match in document order |
| Page.Find | Scenty-API/scrape.py:35 | `find`/`select_one`: None exactly when there is no match, else the first match |
| Page.TextOf | Scenty-API/scrape.py:35 | `.text` of a missing element raises AttributeError; otherwise it is the element's text |
| Page.AttributeOf | Scenty-API/scrape.py:54 | `.get(name)`: AttributeError on a missing element; else the attribute when present and None when absent |
| Text.Find | Scenty-API/scrape.py:38 | `str.find`: -1 exactly when the pattern occurs nowhere; otherwise an occurrence with none before it |
| Text.SliceTo | Scenty-API/scrape.py:49 | `s[:j]` is a prefix of `s`, of length j for 0 <= j <= len(s), and len(s)+j (at least 0) for negative j |
| Text.RStrip | Scenty-API/scrape.py:67 | `rstrip()` gives a prefix of the text; everything it removes is whitespace, and what it keeps does not end in whitespace |
| Text.LeadingSpaceIsSpace | Scenty-API/scrape.py:44 | the leading strip that `split()` starts with removes only whitespace, and leaves no leading whitespace |
| Text.TrailingSpaceIsSpace | Scenty-API/scrape.py:67 | the characters the trailing-whitespace count covers are all whitespace |
| Text.SplitGivesWords | Scenty-API/scrape.py:44 | `split()` (Text.Split): every element returned is non-empty and holds no whitespace |
| Text.SplitEmptyIffBlank | Scenty-API/scrape.py:44 | `split()` returns no words exactly when the text is all whitespace |
| Text.SplitSpaced | Scenty-API/scrape.py:44 | splitting words each preceded by one space gives back exactly those words |
| Text.WithoutSpec | Scenty-API/scrape.py:65 | `replace(c, "")` leaves no `c`, introduces no character, and changes nothing when `c` is absent |
| Text.WithoutAppend | Scenty-API/scrape.py:65 | `replace(c, "")` distributes over concatenation |
| Numbers.ParseInt | Scenty-API/scrape.py:65 | `int()` succeeds exactly when the text, stripped of the whitespace `int()` strips and minus an optional sign, is an integer body (digits with single underscores between them); it fails only with ValueError |
| Numbers.TrimStart | Scenty-API/scrape.py:65 | the leading strip of `int()` keeps a suffix of the text, removes only ASCII tab, line feed, vertical tab, form feed, carriage return and space or non-ASCII whitespace, and leaves none of them in front |
| Numbers.TrimEnd | Scenty-API/scrape.py:65 | the trailing strip of `int()` keeps a prefix, removes only that whitespace, and leaves none of it at the end |
| Numbers.SignAndBody | Scenty-API/scrape.py:65 | after stripping, one leading sign at most is taken off, negative exactly when it is '-'; the body is the rest of the stripped text |
| Numbers.TrimUnchanged | Scenty-API/scrape.py:65 | text with no such whitespace at either end is not stripped |
| Numbers.SeparatorIsNotIntSpace | Scenty-API/scrape.py:65 | U+001C, which `str.isspace` accepts but `int()` does not strip, before "7" raises ValueError |
| Numbers.ParseIntOfDecimal | Scenty-API/scrape.py:65 | `int(str(n)) == n` for every integer n |
| Numbers.ParseIntRejectsEmpty | Scenty-API/scrape.py:65 | text that is empty after stripping and taking off a sign raises ValueError |
| Numbers.ValueOfDecimal | Scenty-API/scrape.py:65 | the digits of `str(n)` have value n |
| RatingCount.ParseRatingCount | Scenty-API/scrape.py:64-65 | the rating count is `int` of the text with commas removed; it fails only with ValueError |
| RatingCount.CommasIgnored | Scenty-API/scrape.py:65 | removing commas first changes nothing: commas anywhere are ignored |
| RatingCount.ParseRatingCountOfGrouped | Scenty-API/scrape.py:64-65 | the thousands-grouped rendering of any n reads back as n |
| RatingCount.ExampleThousands | Scenty-API/scrape.py:64-65 | "1,234" reads as 1234 |
| RatingCount.RejectsNonDigits | Scenty-API/scrape.py:65 | a character other than a digit or an underscore in the body raises ValueError |
| RatingCount.TrailingSeparatorRejected | Scenty-API/scrape.py:65 | "12" followed by U+001F raises ValueError: the count is not read as 12 |
| Title.GenderOf | Scenty-API/scrape.py:45-48 | one or two tags: the first and last word, once when they are equal |
| Title.SplitTitle | Scenty-API/scrape.py:38-49 | without "for": the whole text and ["men", "women"]; it fails only with IndexError; a result has 1 or 2 tags and a title that is a prefix of the text |
| Title.SplitTitleFound | Scenty-API/scrape.py:43-49 | when "for" first occurs at i: IndexError exactly when no word follows it; the tags are those of the following words; the title is name[:i-1], which for i == 0 is all but the last character |
| Title.GenderTagsAreWords | Scenty-API/scrape.py:44-48 | every gender tag is a non-empty word without whitespace |
| Title.SplitTitleOfComposed | Scenty-API/scrape.py:38-49 | a title without "for", then " for" and any words, splits back into that title and the tags of those words |
| Title.SplitTitleNothingAfter | Scenty-API/scrape.py:44-45 | a title followed by " for" and nothing else raises IndexError |
| Title.ExampleNoFor | Scenty-API/scrape.py:39-42 | "Sauvage" gives "Sauvage" and ["men", "women"] |
| Title.ExampleForMen | Scenty-API/scrape.py:43-49 | "Sauvage for men" gives "Sauvage" and ["men"] |
| Title.ExampleForMenAndWomen | Scenty-API/scrape.py:43-49 | "Sauvage for men and women" gives "Sauvage" and ["men", "women"] |
| Title.ExampleNothingAfterFor | Scenty-API/scrape.py:44-45 | "Sauvage for" raises IndexError |
| Title.ExampleForInsideWord | Scenty-API/scrape.py:38-49 | "Comfort for men" matches inside "Comfort": title "Co", tags ["t", "men"] |
| Title.ExampleForAtStart | Scenty-API/scrape.py:49 | "for men" matches at 0, and name[:-1] gives the title "for me" |
| Reviews.BoxesAmong | Scenty-API/scrape.py:89 | the selected elements are exactly the review boxes among the children |
| Reviews.BoxesAmongAppend | Scenty-API/scrape.py:89 | the selection of a concatenation is the concatenation of the selections, so document order is kept |
| Reviews.BoxesAmongOne | Scenty-API/scrape.py:89 | a single child is selected exactly when it is a review box |
| Reviews.BoxKeptInPlace | Scenty-API/scrape.py:89 | a review box is selected between the boxes before it and the boxes after it |
| Reviews.SelectedBoxes | Scenty-API/scrape.py:89 | at most 21 boxes; every selected element is a review box among the first 21 children, and every review box among them is selected |
| Reviews.AllBoxesSelected | Scenty-API/scrape.py:89 | when every child is a review box, all of them are selected, in order |
| Reviews.OnlyBoxesSelected | Scenty-API/scrape.py:89 | a child that is not a review box is dropped wherever it stands, and the boxes around it keep their order |
| Reviews.ReviewRecord | Scenty-API/scrape.py:95-103 | a record exactly when the body, author and date lookups all match, else AttributeError; its body and author are the first matches' texts, and its date is their `content` attribute or None |
| Reviews.Step | Scenty-API/scrape.py:91-109 | one iteration: on success the earlier entries are kept and one entry, the new `item`, is appended; a grid with a missing field raises AttributeError, and a box without a grid while `item` is unbound raises UnboundLocalError |
| Reviews.Accumulate | Scenty-API/scrape.py:89-111 | a completed loop has one entry per box and `item` is the last entry (unbound when there are no boxes); it raises only AttributeError or UnboundLocalError |
| Reviews.ReviewsOf | Scenty-API/scrape.py:84-114 | the sentinel exactly when the review section is missing; a returned list has at most 21 entries; it raises only AttributeError or UnboundLocalError |
| Reviews.ParseReviews | Scenty-API/scrape.py:84-114 | the loop computes exactly what ReviewsOf describes, raising where it raises |
| Reviews.AccumulateErrSticks | Scenty-API/scrape.py:91-111 | once an iteration raises, the later boxes change nothing |
| Reviews.StepOutcome | Scenty-API/scrape.py:92-109 | one iteration completes when the grid yields a record, or there is no grid and `item` is bound; it appends `item` and keeps the stale one when there is no grid |
| Reviews.LatestGrid | Scenty-API/scrape.py:92-109 | the latest box at or before k with a grid: none after it up to k has one, and when there is none no box up to k has one |
| Reviews.AccumulateClosedForm | Scenty-API/scrape.py:89-111 | the loop completes exactly when there are no boxes or the first has a grid, and every grid yields a record; it then holds one entry per box, each the record of the latest grid at or before that box, and `item` is the last entry |
| Reviews.StaleItemRepeated | Scenty-API/scrape.py:105-109 | a box without a grid repeats the previous entry |
| Reviews.FirstBoxWithoutGrid | Scenty-API/scrape.py:91-109 | a first box without a grid raises UnboundLocalError |
| Reviews.NoSectionSentinel | Scenty-API/scrape.py:85-87 | the sentinel 'No reviews on this page.' comes back exactly when there is no review section |
| Reviews.ReviewsClosedForm | Scenty-API/scrape.py:84-111 | with a section: completes exactly as the loop does, and returns a list of at most 21 entries, one per selected box, each the record of the latest grid so far |
| Reviews.ReviewsErrors | Scenty-API/scrape.py:91-109 | it raises only AttributeError or UnboundLocalError |
| Info.Texts | Scenty-API/scrape.py:57-59 | one text per element, in order |
| Info.DescriptionOf | Scenty-API/scrape.py:67 | AttributeError exactly when the description block or its paragraph is missing; otherwise a prefix of the paragraph text whose removed tail is all whitespace and which does not end in whitespace |
| Info.InfoOf | Scenty-API/scrape.py:34-80 | a page without the title block raises AttributeError; a record comes from a page with at least two information cells, has 1 or 2 gender tags and carries the page's reviews |
| Info.RecordOf | Scenty-API/scrape.py:53-80 | a record carries the title and tags it is given and the page's reviews; the record stage never raises IndexError |
| Info.RecordCompletes | Scenty-API/scrape.py:53-80 | the record is built exactly when all five field lookups match, the count reads as an integer, the description is there and the reviews parse |
| Info.RecordErrors | Scenty-API/scrape.py:53-80 | a missing field raises AttributeError, then a bad count ValueError, then a missing description AttributeError, then the reviews' own error |
| Info.ParseInfo | Scenty-API/scrape.py:34-80 | the method, with its accords loop and the call to `parse_reviews`, computes exactly what InfoOf describes, raising where it raises |
| Info.NoTitleBlock | Scenty-API/scrape.py:35 | a page without the title block raises AttributeError |
| Info.TitleWithoutGender | Scenty-API/scrape.py:44-45 | a title with "for" and no word after it aborts the parse with IndexError |
| Info.TooFewInfoCells | Scenty-API/scrape.py:51 | with a readable title, fewer than two information cells raise IndexError before any field is read |
| Info.ParsedHeader | Scenty-API/scrape.py:35-51 | a completed parse read a title block whose split succeeded (1 or 2 tags) and at least two cells, and took its fields from the second |
| Info.ParsedFields | Scenty-API/scrape.py:53-80 | a record found all five field lookups and carries the split's title and tags, the brand and rating texts, each image's `src` when it has one and None otherwise, one accord per accord bar in order, the count as ParseRatingCount reads it, the description DescriptionOf gives and the page's reviews |
| Info.ParsedDescription | Scenty-API/scrape.py:67 | the description is the paragraph text with its trailing whitespace, and only that, removed |
| Scrape.ScrapeAll | Scenty-API/scrape.py:116-121 | computes exactly ScrapeOf, with the attempt and sleep counts of `get_html` at budget 3 |
| Scrape.ScrapeOf | Scenty-API/scrape.py:116-121 | None exactly when all three attempts fail; a record or an error is the parse of the first fetched document |
| Scrape.AllAttemptsFail | Scenty-API/scrape.py:116-121 | three failed attempts give None |
| Scrape.FetchedThenParsed | Scenty-API/scrape.py:116-119 | after a first success at attempt k < 3, the result is the parse of that document: its record, or the fault it raises |

## Left out

- Scenty-API/main.py is not part of this model: its Flask routes, SQL statements, connections, JSON serialisation and floating-point statistics are I/O and database plumbing.
- `requests.get`, `raise_for_status`, the headers and the URL are left out. Each attempt is an abstract outcome, fetched or failed. `scrape_all`'s `url` parameter is therefore absent.
- `print` and `time.sleep` are left out. Sleeps are counted, not timed (the five seconds of each are not modelled), and no log text is modelled.
- The parsing of HTML and the meaning of CSS selectors are left out. Each lookup returns the elements an `Element` records for it, in document order. An element's text is given, not computed from its descendants.
- Reviews.SelectedBoxes: the selection looks only at the section's direct children. `select(...)` in the source also searches deeper descendants, each judged by its position among its own siblings.
- Numbers.ParseInt: only ASCII digits are accepted. Python's `int()` also accepts other Unicode decimal digits.
- Numbers.ParseInt: the limit on the number of digits that Python 3.11 and later apply (`sys.int_max_str_digits`, 4300 by default) is not modelled; a longer count would raise ValueError there and is read here.
- Scrape.ScrapeAll: `if html:` is modelled as "a document was fetched", because a parsed document is always true.
- The 'No information on this perfume' result is left out: it cannot be reached.
