# Wikipedia fact ingestion, modelled in Dafny

The facts feed gets its content from an offline ingestion script, `scripts/wikipedia_scraper.py`.
For each category the script:

1. searches Wikipedia for the category's topics and keeps a capped list of distinct article titles;
2. cuts each article into candidate passages;
3. cleans every passage and rejects it unless it is 100 to 2000 characters long and in English;
4. assembles a fact, with a reading-time estimate and an initial popularity score;
5. saves it, counting the facts it processed and saved.

This project models the deterministic part of that pipeline and proves what it guarantees. The
network, NLTK, textstat, langdetect and DynamoDB calls become parameters.

Modules, one file each:

- `Wrappers` (`wrappers.dfy`): `Option`.
- `Seqs` (`seqs.dfy`): generic sequence helpers:
  - Python prefix slicing (`PyPrefix`, which counts a negative bound from the end);
  - subsequences;
  - first-seen de-duplication;
  - concatenation;
  - counting.
- `Text` (`text.dfy`): Python's `str` operations used by the script:
  - `isspace` (the exact set of characters `str.isspace` and the regex class `\s` accept);
  - `lower` and `isalpha`;
  - `in`;
  - `replace`;
  - `split()`;
  - `strip()`.
- `Cleaning` (`cleaning.dfy`): `clean_content`. Each regular expression is a left-to-right scanner.
- `Scoring` (`scoring.dfy`):
  - `calculate_initial_popularity`, with its loop kept as a method;
  - `calculate_reading_time`;
  - `extract_key_words`, with its loop kept as a method.
- `Categories` (`categories.dfy`): the category table, with the topic lists verbatim.
- `Articles` (`articles.dfy`): `get_wikipedia_articles`, with its nested loops kept as a method.
- `Facts` (`facts.dfy`): the `Fact` record and `create_fact_from_content`.
- `Scraper` (`scraper.dfy`): the `WikipediaScraper` class, with its `facts_processed`/`facts_saved`
  fields, `scrape_category` and `run_scraper`.

The facts store itself allows reading times up to 30 minutes. The script only ever produces 1 to 15
minutes, and `Facts.CreatedFactReadsInAtMostFourMinutes` shows that the 2000-character gate
actually caps the estimate at 4 minutes.

## Model

| member | source | states |
|---|---|---|
| Text.Split | scripts/wikipedia_scraper.py:403 | `content.split()`: every word is non-empty and free of whitespace, and there are at most (n+1)/2 words in n characters |
| Text.SplitWord | scripts/wikipedia_scraper.py:403 | a non-empty run without whitespace is exactly one word |
| Text.SplitAtSpace | scripts/wikipedia_scraper.py:403 | words break at every whitespace character: splitting `a + c + b` at a whitespace `c` gives the words of `a` followed by the words of `b` |
| Text.SplitKeepsText | scripts/wikipedia_scraper.py:435 | the words of `split()`, joined, are exactly the input's non-whitespace characters in order |
| Text.ReplaceAll | scripts/wikipedia_scraper.py:324-325 | `str.replace(pat, '')` never lengthens the text, leaves text without `pat` unchanged, and shortens text holding `pat` by at least `len(pat)` |
| Text.ReplaceAllIsSubseq | scripts/wikipedia_scraper.py:324-325 | deleting occurrences keeps the remaining characters in order |
| Text.ReplaceAllFirstOccurrence | scripts/wikipedia_scraper.py:324-325 | deletion is left to right and non-overlapping: when the first occurrence of `pat` starts right after `a`, the result is `a` followed by the deletion applied to what comes after that occurrence |
| Text.ReplaceAllDeletesWholeOccurrences | scripts/wikipedia_scraper.py:324-325 | only whole occurrences are deleted: the number of characters removed is a multiple of `len(pat)` |
| Text.Strip | scripts/wikipedia_scraper.py:327 | `strip()` never lengthens the text and leaves no whitespace at either end |
| Text.StripTrims | scripts/wikipedia_scraper.py:327 | the stripped text is a slice of the input, and everything cut before and after it is whitespace |
| Text.StripIsSubseq | scripts/wikipedia_scraper.py:327 | the stripped text is a subsequence of the input |
| Text.StripKeepsTrimmed | scripts/wikipedia_scraper.py:327 | `strip()` returns text without whitespace at either end unchanged |
| Text.IsSpace | scripts/wikipedia_scraper.py:317 | the whitespace set shared by `\s` (:317), `strip()` (:327) and `split()` (:403, :435): space, `\t`..`\r`, U+001C..U+001F, U+0085, U+00A0, U+1680, U+2000..U+200A, U+2028, U+2029, U+202F, U+205F and U+3000 |
| Text.IsAlpha | scripts/wikipedia_scraper.py:441 | `word.isalpha()`: non-empty and made of letters only |
| Text.Contains | scripts/wikipedia_scraper.py:415 | `keyword in text`: the keyword is a prefix of the text or of one of its suffixes; then it is no longer than the text |
| Text.ContainsAt | scripts/wikipedia_scraper.py:415 | an occurrence of the keyword at some index makes `keyword in text` true |
| Text.OccurrenceOf | scripts/wikipedia_scraper.py:415 | when `keyword in text` is true, the keyword occurs at the index returned |
| Text.ContainsIffOccurs | scripts/wikipedia_scraper.py:415 | substring test `keyword in text` holds iff the keyword occurs at some index |
| Text.MissingCharNotContained | scripts/wikipedia_scraper.py:324-325 | a needle holding a character the text lacks is not in the text |
| Text.Lower | scripts/wikipedia_scraper.py:415 | `lower()` keeps the length, leaves no capital letter, turns each capital into its small letter and keeps every other character |
| Text.LowerIdempotent | scripts/wikipedia_scraper.py:415 | lower-casing twice is the same as lower-casing once |
| Cleaning.CollapseWhitespace | scripts/wikipedia_scraper.py:317 | `re.sub(r'\s+', ' ', ...)` never lengthens the text, is empty only for empty input, and turns a leading whitespace run into one space |
| Cleaning.CollapseKeepsLast | scripts/wikipedia_scraper.py:317 | a trailing whitespace run likewise becomes one space, and any other last character is kept |
| Cleaning.CollapsedSpacing | scripts/wikipedia_scraper.py:317 | after collapsing, the only whitespace character is `' '` and no two spaces are adjacent |
| Cleaning.CollapseKeepsWords | scripts/wikipedia_scraper.py:317 | collapsing whitespace does not change what `split()` returns |
| Cleaning.CollapseKeepsSingleSpaces | scripts/wikipedia_scraper.py:317 | text whose whitespace is already single plain spaces is not changed by collapsing |
| Cleaning.SpanEnd | scripts/wikipedia_scraper.py:320-321 | the non-greedy `.*?` ends at the first closing bracket: no closing bracket and no line break lies before it; when there is no match, every closing bracket is preceded by a line break |
| Cleaning.RemoveSpans | scripts/wikipedia_scraper.py:320-321 | deleting `[...]`/`(...)` spans never lengthens the text, is the identity when there is no opening bracket, and keeps all the text before the first opening bracket |
| Cleaning.RemoveSpansIsSubseq | scripts/wikipedia_scraper.py:320-321 | span deletion keeps the surviving characters in order |
| Cleaning.RemoveSpansLeavesNoSpan | scripts/wikipedia_scraper.py:320-321 | on single-line text no complete span survives the deletion |
| Cleaning.SpanEndAtFirstClose | scripts/wikipedia_scraper.py:320-321 | the lazy match ends at the first closing bracket when no line break comes before it |
| Cleaning.RemoveSpansKeepsHead | scripts/wikipedia_scraper.py:320-321 | a first character other than the opening bracket is kept |
| Cleaning.RemoveSpansKeepsPlainPrefix | scripts/wikipedia_scraper.py:320-321 | text without an opening bracket is kept as it is, and what follows it is processed on its own |
| Cleaning.RemoveSpansDropsSpan | scripts/wikipedia_scraper.py:320-321 | a complete span on one line is deleted, and scanning resumes right after its closing bracket |
| Cleaning.RemoveSpansKeepsUnmatchedOpen | scripts/wikipedia_scraper.py:320-321 | an opening bracket with no closing bracket after it on its line is kept, and scanning resumes after it |
| Cleaning.NoDoubleEqualsLeft | scripts/wikipedia_scraper.py:324 | after `replace('==', '')` the text contains no `==` |
| Cleaning.TripleEqualsPassIsNoOp | scripts/wikipedia_scraper.py:324 | the following `replace('===', '')` therefore never changes anything |
| Cleaning.DropMarkers | scripts/wikipedia_scraper.py:324-325 | the four marker deletions never lengthen the text |
| Cleaning.DropMarkersIsSubseq | scripts/wikipedia_scraper.py:324-325 | the marker deletions keep the remaining characters in order |
| Cleaning.DropSpans | scripts/wikipedia_scraper.py:320-321 | the two span deletions never lengthen the text |
| Cleaning.DropSpansShape | scripts/wikipedia_scraper.py:317-321 | on collapsed text, the span deletions leave a subsequence with no `[...]` or `(...)` span |
| Cleaning.CleanContent | scripts/wikipedia_scraper.py:314-327 | `clean_content` output is never longer than its input and has no leading or trailing whitespace |
| Cleaning.CleanContentIsSubseq | scripts/wikipedia_scraper.py:314-327 | the cleaned text is an in-order selection of the collapsed input, and its only whitespace is `' '` |
| Cleaning.CleanContentHasNoSpan | scripts/wikipedia_scraper.py:314-327 | the cleaned text has no `[...]` or `(...)` span |
| Cleaning.CleanContentKeepsCleanText | scripts/wikipedia_scraper.py:314-327 | text that is already clean (single plain spaces between other characters, no `[`, `(`, `=` or `:`) comes back unchanged |
| Scoring.CategoryBonus | scripts/wikipedia_scraper.py:419-428 | the category bonus lies in 0..25 and is 0 for an unknown category |
| Scoring.CountPresentIsSetSize | scripts/wikipedia_scraper.py:413-416 | the loop's count of hits is the number of distinct boost keywords found |
| Scoring.RawPopularityCountsKeywordsFound | scripts/wikipedia_scraper.py:410-428 | the unclamped score is 50 + 10 × (boost keywords contained in the lower-cased content) + the category bonus |
| Scoring.InitialPopularity | scripts/wikipedia_scraper.py:408-430 | the popularity is always in 0..100 |
| Scoring.CalculateInitialPopularity | scripts/wikipedia_scraper.py:408-430 | the accumulating loop returns `InitialPopularity`, hence a value in 0..100 |
| Scoring.RawPopularityRange | scripts/wikipedia_scraper.py:410-430 | the unclamped score lies in 50..145, so only the upper clamp can apply |
| Scoring.CountPresentAllFound | scripts/wikipedia_scraper.py:413-416 | when every keyword is contained in the text, all of them are counted |
| Scoring.AllBoostKeywordsIsLowerCase | scripts/wikipedia_scraper.py:413-415 | a text made of the boost keywords is unchanged by `lower()` |
| Scoring.AllBoostKeywordsHoldsEach | scripts/wikipedia_scraper.py:413-415 | that text contains every boost keyword |
| Scoring.RawPopularityReaches145 | scripts/wikipedia_scraper.py:413-430 | a technology text containing every boost keyword scores 145 unclamped, so the clamp to 100 matters |
| Scoring.RoundHalfEven | scripts/wikipedia_scraper.py:405 | `round(n / d)` is within half a unit of the exact ratio |
| Scoring.RoundingNeverTies | scripts/wikipedia_scraper.py:405 | for whole word counts, `round(w / 225)` equals `(2w + 225) div 450` |
| Scoring.ReadingMinutes | scripts/wikipedia_scraper.py:405-406 | the estimate is always in 1..15 |
| Scoring.CalculateReadingTime | scripts/wikipedia_scraper.py:401-406 | the reading time of any content is in 1..15 |
| Scoring.ReadingMinutesMonotone | scripts/wikipedia_scraper.py:401-406 | more words never give fewer minutes |
| Scoring.ReadingMinutesThresholds | scripts/wikipedia_scraper.py:403-406 | exactly 1 minute iff at most 337 words; exactly 15 minutes iff at least 3263 words |
| Scoring.StopListIsRedundant | scripts/wikipedia_scraper.py:439-441 | the stop-list never rejects a word the length-and-alphabetic test would accept |
| Scoring.Qualifying | scripts/wikipedia_scraper.py:438-442 | every kept word is longer than 5 characters, alphabetic and not a stop word, and every such word is kept |
| Scoring.QualifyingAppend | scripts/wikipedia_scraper.py:438-442 | the filter distributes over concatenation, one word at a time |
| Scoring.QualifyingIsSubseq | scripts/wikipedia_scraper.py:438-442 | the kept words are an order-preserving subsequence of the words |
| Scoring.ExtractKeyWords | scripts/wikipedia_scraper.py:432-444 | the loop returns at most 5 words, each a qualifying key word, equal to the first five qualifying words |
| Scoring.KeyWordsAreFirstQualifying | scripts/wikipedia_scraper.py:432-444 | the key words are a subsequence of `split()`; there are min(5, qualifying) of them, all of them when at most five qualify, and each is a word longer than 5 and alphabetic |
| Categories.Topics | scripts/wikipedia_scraper.py:95-162 | an unknown category has no topics; a known one has at least 15 |
| Categories.CategoryNamesAreTheTable | scripts/wikipedia_scraper.py:95-153 | the six names `run_scraper` walks by default are exactly the table's keys |
| Articles.FirstDistinctProperties | scripts/wikipedia_scraper.py:164-180 | the merged titles are distinct, at most `max_articles` (none for a non-positive cap), all taken from the search results, and all results are kept when the cap is not reached |
| Seqs.PyPrefix | scripts/wikipedia_scraper.py:180 | Python's `s[:n]`: a prefix of `s`; for `n >= 0` it has `n` elements or is all of `s`; for `n < 0` it keeps `max(0, len(s) + n)` elements |
| Articles.FirstDistinctKeepsFirstSeenOrder | scripts/wikipedia_scraper.py:169-171 | titles appear in the order of their first occurrence among the search results |
| Articles.FirstDistinctStep | scripts/wikipedia_scraper.py:170-171 | one more result is appended exactly when it is new and the list is below the cap |
| Articles.MergeSearchResults | scripts/wikipedia_scraper.py:164-178 | the outer loop over the topics yields the first distinct titles of all successful searches, a failed search adding nothing |
| Articles.AppendNewResults | scripts/wikipedia_scraper.py:169-171 | the inner loop turns the list built from the results seen so far into the list built from those results plus the new ones |
| Articles.GetWikipediaArticles | scripts/wikipedia_scraper.py:158-180 | the nested loops return the first `max_articles` distinct titles in first-seen order, with no duplicate and within the cap |
| Facts.Difficulty.Name | scripts/wikipedia_scraper.py:394-399 | a difficulty is one of `beginner`, `intermediate`, `advanced` |
| Facts.CreateFactFromContent | scripts/wikipedia_scraper.py:270-312 | a fact is returned iff the cleaned content has 100..2000 characters and is detected as `en`. It then holds the cleaned content, the category, `"Wikipedia - " + source_title`, the URL, and the title, tags and difficulty computed from the cleaned content. Its popularity is in 0..100 and its reading time in 1..15 |
| Facts.LengthAccepted | scripts/wikipedia_scraper.py:277-278 | the length gate admits cleaned content of 100 to 2000 characters |
| Facts.IsEnglish | scripts/wikipedia_scraper.py:281-285 | the language gate admits content detected as `en`; a detection error rejects it |
| Facts.CreatedFactContentIsClean | scripts/wikipedia_scraper.py:273-277 | a created fact's content has 100..2000 characters, only plain spaces, and no bracketed span |
| Facts.CreatedFactReadsInAtMostFourMinutes | scripts/wikipedia_scraper.py:276-295 | the length gate caps a created fact's reading time at 4 minutes |
| Scraper.UnknownCategoryYieldsNothing | scripts/wikipedia_scraper.py:161-162 | an unknown category produces no article, so nothing is processed or saved |
| Scraper.SavedForAtMostProcessedFor | scripts/wikipedia_scraper.py:486-495 | for any list of articles, the saves never exceed the facts processed |
| Scraper.RunStep | scripts/wikipedia_scraper.py:519-524 | one more category adds its saved and processed counts exactly when it is known |
| Scraper.RunSavedIsSavedOverAll | scripts/wikipedia_scraper.py:519-524 | skipping unknown categories gives the same total as scraping every listed category |
| Scraper.RunSavedAtMostProcessed | scripts/wikipedia_scraper.py:507-536 | a run never saves more facts than it processes |
| Scraper.RunCategories | scripts/wikipedia_scraper.py:509-510 | the categories walked are the given ones, or the six table keys when none are given |
| Scraper.WikipediaScraper.constructor | scripts/wikipedia_scraper.py:67-71 | both counters start at zero |
| Scraper.WikipediaScraper.ScrapeCategory | scripts/wikipedia_scraper.py:477-505 | returns the number of successful saves; `facts_saved` grows by that number and `facts_processed` by the number of facts; saved ≤ processed is preserved |
| Scraper.WikipediaScraper.ProcessArticles | scripts/wikipedia_scraper.py:486-495 | the article loop returns the number of successful saves; `facts_saved` grows by that number and `facts_processed` by the number of facts |
| Scraper.WikipediaScraper.RunScraper | scripts/wikipedia_scraper.py:507-536 | walks the given categories, or all six when none are given; skips unknown ones; returns the sum of the per-category saves; the counters grow by the run's totals |
| Scraper.WikipediaScraper.ScrapeCategories | scripts/wikipedia_scraper.py:515-531 | the loop over the category names returns the run's total saves, and the counters grow by the run's saved and processed totals |
| Scraper.WikipediaScraper.ScrapeIfKnown | scripts/wikipedia_scraper.py:518-524 | one pass of that loop: an unknown category adds nothing, a known one adds its saves and processed facts |

## Left out

- AWS setup and `save_fact_to_dynamodb` (scripts/wikipedia_scraper.py:73-91, 446-475) are DynamoDB I/O. A save is the boolean outcome `outcomes(category, article)` supplies, one per extracted fact.
- `wikipedia.search`, `wikipedia.page` and the disambiguation retry are network calls. A search is the parameter `search(topic)`, which is `None` when the call raised. The `results=3` limit belongs to that parameter.
- `extract_facts_from_article` and `filter_interesting_sentences` (scripts/wikipedia_scraper.py:182-268) rest on NLTK tokenisation, page fetching and textstat scores. Their only contribution to the counters is the number of facts per article, which is the length of `outcomes(category, article)`. The per-category `keywords` lists in the category table feed only this filter and are not modelled.
- Language detection, `generate_title`, `extract_tags` and `determine_difficulty` are library-based. They are the parameters bundled in `Facts.Oracles`. The order of `list(set(tags))[:8]` is unspecified in Python, so the tags are not constrained.
- The import at scripts/wikipedia_scraper.py:23 names `LangDetectError`, while langdetect's documented exception is `LangDetectException`, so the import may fail as written. The model assumes the import succeeds and reads the handler at scripts/wikipedia_scraper.py:284-285 as `detect` returning `None`.
- `search` and `outcomes` are functions of their arguments. A category listed twice in `run_scraper(categories=[...])` therefore gets the same search results and save outcomes both times, whereas live Wikipedia and DynamoDB calls could differ between the two visits.
- Fact ids, timestamps, `time.sleep`, logging, the progress bar and the command-line `main` are environment concerns.
- Scraper.WikipediaScraper.ScrapeCategory: the `except Exception` handlers around each article and each category are not modelled. The inner calls already catch their own errors, so a modelled run never raises.
- Scraper.WikipediaScraper.RunScraper: the default `max_articles_per_category = 10` (and `max_articles = 10` of `scrape_category`) is an ordinary argument here.
- Text.Lower: only ASCII capitals are lower-cased, while Python's `lower()` also lower-cases other scripts. The boost keywords and stop words are ASCII, so no popularity score or stop-word decision changes.
- Text.IsAlpha: only ASCII letters count, while Python's `isalpha()` accepts letters of every script. A word such as "Pokémon" is therefore a key word for `extract_key_words` (scripts/wikipedia_scraper.py:441) but is not one in the model.
- Scoring.RoundHalfEven: Python divides in floating point before rounding. The model divides exactly. The floating-point quotient could differ only for word counts far beyond what the 2000-character gate admits.
- The article loop of `scrape_category` is the method `Scraper.WikipediaScraper.ProcessArticles`. The loop of `run_scraper` is `Scraper.WikipediaScraper.ScrapeCategories`, and its body is `Scraper.WikipediaScraper.ScrapeIfKnown`. The two loops of `get_wikipedia_articles` are `Articles.MergeSearchResults` and `Articles.AppendNewResults`. The behaviour is the same; only the code is split.
- Cleaning.RemoveSpans: as in Python's `.`, a span never crosses a line break. After whitespace collapsing the text holds no line breaks, so this is moot inside `clean_content`.
