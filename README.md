# Hotel-review crawler and text pipeline, modelled in Dafny

This project models the two parts of the hotel-review scraper that have
behaviour of their own, and proves what that behaviour promises.

**The crawler (`scrap_data.py`).** It starts from the wakacje.pl hotel catalog
and reads the hotel links in the catalog's carousel. Each link's `href` is
rewritten into the address of that hotel's review listing. For each hotel, it
gathers the opinion texts of the first review page and of every page after it,
following the "next page" control. The result is one `{hotel_url, opinions}`
entry per hotel.

**The library-free part of the text pipeline (`main.py`).** This covers:
- the corpus of cleaned opinions, with punctuation removed and the text lowered;
- tokenization, through a tokenizer given as a parameter;
- stop-word filtering;
- the newline-joined text of the intermediate files;
- the word and unique-word counts of the analysis step.

Modules:

- `Wrappers` holds `Option`.
- `Text` holds the Python `str` operations used: `split`, `join`, slicing past
  the third `/`, `rfind`, and `strip`.
- `Html` is an abstract parsed document: a tree of elements with `find`
  (the first matching descendant in document order, possibly absent) and
  `find_all` (every matching descendant in document order). A lemma proves
  that `find` returns exactly the first element of `find_all`.
- `Scraper` covers `parse_hotel_links`, `extract_opinions`,
  `scrape_hotel_opinions` and the loop of `main`.
- `Pipeline` covers `create_corpus`, `tokenize`, `remove_stop_words`, the join
  of `write_tokens_to_file`, and the two counts of `analyze_and_visualize`.

Modelling choices:

- **Fetching.** `fetch_page` is a function parameter
  `fetch: string -> Option<Element>`. `None` stands for any request error,
  including an error HTTP status. The oracle is a pure function of the
  address: two fetches of the same address always give the same page, for
  instance on a cyclic chain or when two hotels share a page. A live site does
  not promise that.
- **Truthiness of found elements.** A parsed element is always truthy in
  BeautifulSoup, so each `if not x` in the source becomes a test for `None`.
- **Crashes.** The program does not catch two exceptions, and either one ends
  the whole run, so no result file is written. The model reports them as
  `Crashed(...)` results:
  - `HrefMissing`: a carousel anchor without `href`, which gives `None.split`;
  - `NextAnchorMissing`: a next-page item without an `<a>`, which gives
    `None.get`.
- **An `<a>` without `href` in the next-page control** does not crash.
  `str(None)` makes the address `"https://www.wakacje.pl" + "None"`.
- **The pagination loop** need not end on a site whose next-page links form
  a cycle. The model bounds it by `fuel`, the largest number of next-page
  fetches. Each walk records three things:
  - the opinions it gathered;
  - every address it fetched, in order;
  - why it stopped: no next page, a failed fetch, or the fuel bound.
- **Generic helpers.** The loop of `parse_hotel_links` is stated for any
  rewrite function. The pagination walk is stated for any page reader.
  `create_corpus` is stated for any cleaning function. Each is then applied to
  the concrete one, so the proofs of their order and structure do not depend
  on the string details.

The rewrite of a carousel href, as the code does it:

- The rewrite drops the first three `/`-separated pieces of the href.
- The `h` goes after the *last* `-`.
- When there is no `-`, `rfind` returns -1 and the `h` is put in front.

A site-relative href `/pl/offer/123-grand-hotel` therefore becomes
`https://www.wakacje.pl/opinie/hotele/123-grand-hhotel`, as
`Scraper.RewriteRelativeHref` states.

## Model

| member | source | states |
|---|---|---|
| Text.Split | scrap_data.py:56 | `split` on one character gives at least one piece, and no piece contains the separator |
| Text.Join | scrap_data.py:57 | `"/".join(parts)`, the pieces with the separator between them; `JoinSplit`, `JoinSplitFrom` and `SplitJoin` give its contract |
| Text.JoinSplit | scrap_data.py:56-57 | joining the pieces of a split with the same separator gives the original text back |
| Text.DropFirst | scrap_data.py:57 | the slice `parts[k:]`, empty when there are at most `k` parts; `JoinSplitFrom` gives its meaning with the join |
| Text.AfterNth | scrap_data.py:56-57 | the text after the `k`-th separator, defined on its own character by character; `JoinSplitFrom` proves it equal to the join of the pieces from the `k`-th on |
| Text.JoinSplitFrom | scrap_data.py:56-57 | `"/".join(href.split("/")[k:])` is exactly the text after the `k`-th `/` of the href (empty if there are fewer) |
| Text.AfterNthPiece | scrap_data.py:56-57 | one more separator skipped drops exactly the separator-free piece in front of it |
| Text.SplitWithoutSeparator | main.py:246 | a text without the separator splits into itself alone |
| Text.SplitAfterPiece | main.py:246 | a separator-free piece followed by the separator splits off as the first piece |
| Text.SplitJoin | main.py:246 | splitting `sep.join(parts)` on `sep` gives `parts` back when there is a part and no part contains `sep` |
| Text.RFind | scrap_data.py:58 | `rfind` returns the highest index holding the character, or -1 exactly when the character is absent |
| Text.InsertAt | scrap_data.py:59 | `s[:k] + c + s[k:]` is one longer, holds `c` at `k`, and removing that `c` gives `s`; the characters before `k` stay put and those from `k` on shift by one |
| Text.IsSpace | scrap_data.py:87 | the characters `strip()` removes, exactly those of Python's `str.isspace()`; `StripSpec` gives its meaning |
| Text.StripStart | scrap_data.py:87 | the leading white-space removal of `strip()`; `StripStartSpec` gives its contract |
| Text.StripEnd | scrap_data.py:87 | the trailing white-space removal of `strip()`; `StripEndSpec` gives its contract |
| Text.Strip | scrap_data.py:87 | `strip()`, both ends; `StripSpec` gives its contract |
| Text.StripStartSpec | scrap_data.py:87 | removing leading white space keeps a suffix; everything dropped is white space and the rest does not start with it |
| Text.StripEndSpec | scrap_data.py:87 | the mirror image of `StripStartSpec` for trailing white space |
| Text.StripSpec | scrap_data.py:87 | `strip()` keeps one contiguous piece; everything around it is white space, and it neither starts nor ends with white space |
| Html.Matches | scrap_data.py:86 | the tag and `class_` test of every `find` and `find_all`; `FindIsFirstOfFindAll` gives its meaning |
| Html.FindAll | scrap_data.py:53 | `find_all(marker)`: the matching descendants in document order; `FilterAppend` and `FindIsFirstOfFindAll` give its contract |
| Html.FilterAppend | scrap_data.py:53 | matching elements are selected in document order: filtering two runs concatenates the results |
| Html.Find | scrap_data.py:47 | `find(marker)`: the first matching descendant, or none; `FindIsFirstOfFindAll` proves it the first element of `FindAll` |
| Html.FindInIsFirstOfFilter | scrap_data.py:47 | the depth-first search of a forest returns the first match in document order, or nothing when nothing matches |
| Html.FindIsFirstOfFindAll | scrap_data.py:47 | `find` is absent exactly when `find_all` is empty, and otherwise returns the first element of `find_all` |
| Scraper.PrependNothing | scrap_data.py:54 | prepending nothing to a list result leaves it unchanged, whether it succeeded or crashed |
| Scraper.PrependPrepend | scrap_data.py:59 | appending one run and then another equals appending the two runs at once |
| Scraper.ReviewBase | scrap_data.py:56-57 | the un-inserted address is the review prefix followed by the href's text after its third `/` |
| Scraper.InsertH | scrap_data.py:58-59 | `url[:i+1] + "h" + url[i+1:]` with `i = url.rfind("-")`; `InsertHSpec`, `InsertHAfterLastDash` and `InsertHWithoutDash` give its contract |
| Scraper.InsertHSpec | scrap_data.py:58-59 | inserting `h` after the last `-` lengthens the address by one; that position holds `h`; deleting it restores the address |
| Scraper.InsertHAfterLastDash | scrap_data.py:58-59 | with a `-`, everything up to the last `-` is unchanged and no `-` follows the inserted `h` |
| Scraper.InsertHWithoutDash | scrap_data.py:58-59 | without a `-`, the result is `"h"` followed by the address |
| Scraper.PrefixHasNoDash | scrap_data.py:57 | the fixed prefix `https://www.wakacje.pl/opinie/hotele/` contains no `-` |
| Scraper.LastDashAfterPrefix | scrap_data.py:57-58 | the address has a `-` exactly when the part after the prefix has one, and then the last `-` lies past the prefix |
| Scraper.RewriteHref | scrap_data.py:56-59 | the address one carousel href is rewritten to; `RewriteHrefSpec`, `RewriteHrefKeepsPrefix`, `RewriteHrefWithDash`, `RewriteHrefWithoutDash` and `RewriteRelativeHref` give its contract |
| Scraper.RewriteHrefSpec | scrap_data.py:56-59 | each rewritten address is the un-inserted address with a single `h` inserted: one longer, and deleting the `h` restores it |
| Scraper.RewriteHrefKeepsPrefix | scrap_data.py:57-59 | when the text after the third `/` holds a `-`, the rewritten address starts with the review prefix |
| Scraper.RewriteHrefWithDash | scrap_data.py:57-59 | when there is a `-`, the `h` sits right after the last `-`, past the prefix, and no `-` follows the `h` |
| Scraper.RewriteHrefWithoutDash | scrap_data.py:57-59 | when there is no `-`, the result is `"h"` + prefix + the text after the third `/` |
| Scraper.RewriteRelativeHref | scrap_data.py:56-59 | for an href `/a/b/rest`, only `rest` follows the prefix, and the `h` is inserted into `prefix + rest` |
| Scraper.RewriteAll | scrap_data.py:55-59 | the only crash is a missing href; a success has one address per anchor |
| Scraper.RewriteAllSpec | scrap_data.py:53-60 | the rewrite succeeds exactly when every anchor has an href, and then gives each anchor's rewritten href, in anchor order |
| Scraper.HotelLinks | scrap_data.py:47-60 | what `parse_hotel_links` returns; `ParseHotelLinks` states its contract, through `RewriteAllSpec` |
| Scraper.RewriteAnchors | scrap_data.py:54-60 | the appending loop computes the anchor-by-anchor rewrite, stopping at the first anchor without href |
| Scraper.ParseHotelLinks | scrap_data.py:47-60 | no carousel gives the empty list; otherwise it gives one rewritten address per carousel anchor in document order, and crashes exactly when some anchor lacks an href |
| Scraper.ExtractOpinions | scrap_data.py:80-87 | what `extract_opinions` returns; `ExtractOpinionsSpec` gives its contract |
| Scraper.StrippedTexts | scrap_data.py:87 | the comprehension `[opinion.get_text(strip=True) for opinion in opinions]`; `StrippedTextsSpec` gives its contract |
| Scraper.StrippedTextsSpec | scrap_data.py:87 | the comprehension gives one stripped text per element, in order |
| Scraper.ExtractOpinionsSpec | scrap_data.py:80-87 | no opinions list gives no opinions; otherwise there is one opinion per matching `p`, in document order, each its stripped text; no opinion starts or ends with white space |
| Scraper.NextPageUrl | scrap_data.py:120 | the next address is `"https://www.wakacje.pl" + href` (`+ "None"` when the `<a>` has no href), and the control crashes exactly when it has no `<a>` |
| Scraper.ReadPage | scrap_data.py:116-117 | the opinions of a page and the next-page address its next-page control leads to, if it has one; `ExtractOpinionsSpec` and `NextPageUrl` give its parts' contracts |
| Scraper.ThenNothing | scrap_data.py:116-127 | adding nothing in front of a walk leaves it unchanged |
| Scraper.ThenThen | scrap_data.py:123 | extending the opinions twice equals extending once by both runs, and the same holds for the fetched addresses |
| Scraper.WalkFrom | scrap_data.py:119-126 | the rest of a walk fetches at most `fuel` pages |
| Scraper.ScrapeWith | scrap_data.py:112-127 | a walk fetches its start address first and at most `fuel + 1` pages in all |
| Scraper.Scrape | scrap_data.py:112-127 | what `scrape_hotel_opinions` gathers; `ScrapeHotelOpinions`, `ScrapeChainToEnd`, `ScrapeChainThenFailure` and `ScrapeChainOutOfFuel` give its contract |
| Scraper.ThenStop | scrap_data.py:119-127 | whatever way the walk stops, the opinions gathered so far are kept |
| Scraper.FollowPages | scrap_data.py:119-126 | the `while next_page` loop computes the walk: it accumulates opinions in page order and stops at no next page, a failed fetch, a crash, or the fuel bound |
| Scraper.ScrapeHotelOpinions | scrap_data.py:112-127 | the scrape of one hotel is the walk from its address; a failed first fetch gives no opinions |
| Scraper.WalkFromChain | scrap_data.py:119-126 | along a chain of fetched, linked pages, the walk gathers every page's opinions in order and fetches each address in order |
| Scraper.ScrapeChain | scrap_data.py:112-127 | a walk from the start of a chain gathers all of its opinions and then continues from its last page |
| Scraper.ScrapeChainToEnd | scrap_data.py:116-127 | a chain whose last page has no next-page control yields the concatenation of its pages' opinions, after one fetch per page |
| Scraper.ScrapeChainThenFailure | scrap_data.py:119-126 | when the page after a chain cannot be fetched, the walk stops with exactly the opinions of the pages before it |
| Scraper.ScrapeChainOutOfFuel | scrap_data.py:119-126 | with fuel for exactly a chain's pages, a chain that links on is cut off after its last page, with all of its opinions |
| Scraper.ScrapeAll | scrap_data.py:139-141 | the entries of the hotel loop; `ScrapeAllSpec` gives its contract |
| Scraper.ScrapeAllSpec | scrap_data.py:139-141 | the hotel loop succeeds exactly when no hotel's scrape crashes, and gives one `{hotel_url, opinions}` entry per link, in link order |
| Scraper.ScrapeHotels | scrap_data.py:139-141 | the appending loop over the hotel links computes that aggregation |
| Scraper.CrawlResult | scrap_data.py:131-141 | what `main` collects; `Crawl` states its contract |
| Scraper.Crawl | scrap_data.py:131-141 | `main` gives the empty list when the catalog fetch fails, and otherwise one entry per rewritten link in order, with that hotel's opinions |
| Pipeline.InAsciiRun | main.py:58 | a character is in a run exactly when its code is in the run's range |
| Pipeline.PunctuationRuns | main.py:58 | `string.punctuation` is the four ASCII punctuation ranges in code order |
| Pipeline.PunctuationIsAsciiPunctuation | main.py:58 | `string.punctuation` has 32 characters, exactly the ASCII punctuation characters |
| Pipeline.LowerChar | main.py:60 | `lower()` on one character; `LowerCharIdempotent` and `LowerCharKeepsNonPunctuation` give its contract |
| Pipeline.LowerCharIdempotent | main.py:60 | lowering a lowered character changes nothing |
| Pipeline.LowerCharKeepsNonPunctuation | main.py:57-60 | lowering never turns a character into punctuation |
| Pipeline.Lower | main.py:60 | `s.lower()`, character by character; `LowerLower` gives its contract |
| Pipeline.LowerLower | main.py:60 | `lower()` is idempotent |
| Pipeline.RemovePunctuation | main.py:57-59 | `"".join(char for char in s if char not in string.punctuation)`; `RemovePunctuationSpec`, `RemovePunctuationAppend` and `RemovePunctuationKeepsClean` give its contract |
| Pipeline.RemovePunctuationSpec | main.py:57-59 | the result is no longer than the input, and holds exactly the input's characters that are not punctuation |
| Pipeline.RemovePunctuationConcat | main.py:57-59 | removing punctuation from two texts in a row gives the two results in a row |
| Pipeline.RemovePunctuationAppend | main.py:57-59 | the filter goes character by character in order: one character is dropped exactly when it is punctuation, and two texts in a row give their two results in a row |
| Pipeline.RemovePunctuationKeepsClean | main.py:57-59 | removing punctuation from a text that has none gives the text back |
| Pipeline.CleanOpinion | main.py:57-60 | one opinion's punctuation removed, then lowered; `CleanOpinionSpec` gives its contract |
| Pipeline.LowerAppend | main.py:60 | lowering two texts in a row gives their two lowered forms in a row |
| Pipeline.CleanOpinionSpec | main.py:57-60 | a cleaned opinion holds no punctuation, is fixed by `lower()`, and is no longer than the opinion; cleaning goes character by character in order, dropping each punctuation character and lowering every other one |
| Pipeline.CleanAll | main.py:56-61 | the inner loop: one entry's opinions, each cleaned, in order; `CorpusIndex` gives its meaning |
| Pipeline.CorpusOf | main.py:55-61 | the outer loop: entry after entry, the cleaned opinions of each; `CorpusOfIndex` and `CorpusIndex` give its meaning |
| Pipeline.Corpus | main.py:54-62 | what `create_corpus` returns; `CorpusLength`, `CorpusIndex`, `CorpusIsClean` and `CorpusAppend` give its contract |
| Pipeline.CreateCorpus | main.py:54-62 | the nested loops compute the corpus: each item's opinions cleaned, item after item |
| Pipeline.CorpusAppend | main.py:54-62 | the corpus of two runs of items is the corpus of the first followed by that of the second |
| Pipeline.CorpusLength | main.py:54-62 | the corpus has exactly one string per opinion over all items |
| Pipeline.CorpusOfIndex | main.py:55-61 | the `j`-th opinion of item `i` lands at the position after all opinions of the earlier items |
| Pipeline.CorpusIndex | main.py:55-61 | the same, with the cleaning `create_corpus` applies: item order, then opinion order |
| Pipeline.CorpusIsClean | main.py:57-61 | no corpus string contains a punctuation character, and each is fixed by `lower()` |
| Pipeline.Tokens | main.py:81-85 | the tokens of every text, text after text; `TokensAppend` and `Tokenize` give its contract |
| Pipeline.Tokenize | main.py:81-85 | the loop computes the tokens of every text, text after text, in the tokenizer's order |
| Pipeline.TokensAppend | main.py:81-85 | tokenizing two runs of texts gives the tokens of the first followed by those of the second |
| Pipeline.RemoveStopWords | main.py:103-105 | the result is no longer than the input, and a token appears in it exactly when it appears in the input and its lower-case form is not a stop word |
| Pipeline.Kept | main.py:104 | the filter condition `token.lower() not in stop_words`; `KeptPositionsSpec` gives its meaning |
| Pipeline.KeptPositions | main.py:104 | every kept position is a position of the input |
| Pipeline.KeptPositionsSpec | main.py:104 | the kept positions strictly increase, and a position is kept exactly when its token's lower-case form is not a stop word |
| Pipeline.RemoveStopWordsSpec | main.py:104 | the filtered list is the input's tokens at the kept positions, in their original order: an order-preserving subsequence |
| Pipeline.RemoveStopWordsIdempotent | main.py:104 | filtering the filtered tokens again removes nothing |
| Pipeline.JoinChars | main.py:246 | `"".join(token)` gives the token back |
| Pipeline.FileText | main.py:246 | the text `write_tokens_to_file` writes; `FileTextRoundTrip` and `FileTextEmpty` give its contract |
| Pipeline.FileTextRoundTrip | main.py:246 | when there is a token and none holds a newline, splitting the written text on newlines gives the tokens back |
| Pipeline.FileTextEmpty | main.py:246 | no tokens and one empty token both give the empty text, which splits into one empty token |
| Pipeline.Vocabulary | main.py:170 | `set(flattened_tokens)`; `VocabularySnoc` and `VocabularySize` give its contract |
| Pipeline.VocabularySnoc | main.py:170 | one more token adds at most that token to `set(tokens)` |
| Pipeline.NoDuplicatesSnoc | main.py:170 | one more token keeps the tokens distinct exactly when it is new |
| Pipeline.VocabularySize | main.py:169-170 | the number of distinct tokens is at most the number of tokens, and equal exactly when no token repeats |
| Pipeline.Analyze | main.py:167-170 | `word_count` is the number of tokens and `unique_words` the size of their set; `unique_words <= word_count`, with equality exactly when no token repeats |

## Left out

- `fetch_page` (scrap_data.py:7-28): the HTTP session, `raise_for_status` and the printed messages are network I/O. A fetch is the parameter `fetch`; a failure is `None`.
- BeautifulSoup parsing is a foreign library. A page is an already-parsed element tree, and a class marker matches an element that carries that class.
- Scraper.ExtractOpinions: each matching element carries a single text, so the stripping and joining of several text fragments by `get_text(strip=True)` is not modelled.
- Scraper.ExtractOpinionsSpec: `get_text(strip=True)` strips and joins every text fragment inside the element. The model gives each element a single text, so the joining of several fragments is not modelled.
- Pipeline.LowerChar: `str.lower()` follows the full Unicode case mapping. The model lowers ASCII capitals and the nine Polish capitals, and leaves every other character unchanged.
- Scraper.WalkFrom: the source loop may run forever on a cyclic chain of next-page links. The model stops after `fuel` next-page fetches and reports `FuelExhausted`.
- Pipeline.FileTextRoundTrip: requires at least one token, because `"\n".join([])` is `""` and `"".split("\n")` is `[""]` (see `Pipeline.FileTextEmpty`).
- Pipeline.Tokenize: spaCy's tokenizer is a foreign library. It is the parameter `nlp`, giving each text's token texts in order.
- The stop-word set `nlp.Defaults.stop_words` is spaCy data. It is the parameter `stopWords`.
- `lemmatize`, `stem_text`, `vectorize_text` and `CountVectorizer` are spaCy, NLTK and scikit-learn calls (main.py:108-144, 206-223), and the word cloud and charts are plots (main.py:174-203). None is modelled.
- The top-percentage slice (main.py:188-190) uses floating-point arithmetic and is not modelled.
- JSON reading and writing, directory creation, file writes, `print` and `logging` are plain I/O and are not modelled (scrap_data.py:143-147, main.py:16-34, 226-227, 245-247, 298-299).
- `process_data` (main.py:250-299) is not modelled as a whole. Besides I/O, it calls `lemmatize`, `stem_text` and `vectorize_text` (main.py:280-297), none of which is modelled. It also passes the lemmas, not the tokens, to `remove_stop_words` (main.py:290). `RemoveStopWords` is stated for any token list, so its properties hold for that call with the lemmas as input.
