# App Store review collector — a Dafny model

This project models the core of a small App Store review analyser. The analyser
collects the Russian-language reviews of an app from the storefront's customer-review
feed, region by region and page by page, and then counts problem and strength
keywords in the review texts. Three modules mirror the three core files:

- `TextUtils` (`text_utils.dfy`) covers the Cyrillic character rule `[а-яА-ЯёЁ]` and
  `is_russian`. `is_russian` is a classifier memoised in a process-wide dictionary keyed
  by a digest of the text. The memo is the `cache` field of class `LanguageFilter`, and
  `IsRussian` updates it in place. A ghost `origin` map records which text each entry
  was computed from, so the memo's invariant can be stated even when digests collide.
- `Scraper` (`scraper.dfy`) covers `collect_reviews`. The walk is specified as a state
  machine on values:
  - `Admit` handles one entry.
  - `AdmitAll` handles the candidates of one page.
  - `Crawl` handles the region/page traversal, and `Collect` is a whole call.

  `CollectReviews` is the nested loop itself (regions, then pages, then entries). Its
  postcondition says it ends with exactly the answer, memo and request log that
  `Collect` computes. `ScraperProperties` (`scraper_properties.dfy`) proves what the
  collector promises about that state machine. Each review is kept at most once. Only
  Cyrillic texts are kept. Output is in region order, and each page appends its reviews in entry order. The stop flag is honoured, and
  each failed page ends only its own region.
- `AnalysisUtils` (`analysis_utils.dfy`) covers the `NEGATIVE`/`POSITIVE` keyword tables
  and `extract_problems_and_pluses`. `ExtractProblemsAndPluses` is the nested counting
  loop over two `map<string, nat>` counters. Each counter is proved to hold, per
  category, the number of (text, keyword) hits.

Environment inputs are parameters of the model:
- The network is a `Feed`: an oracle from (app id, region, page) to `BadStatus` or a list
  of raw entries. It comes with a page number `lastPage` beyond which every page is
  either a bad status or empty.
- The stop flag is a function from poll number to boolean.
- The md5 digest is an abstract `key: string -> string`.
- `str.lower` is an abstract `lower: string -> string`.

## Error behaviour of `collect_reviews`

- Fields are read only when needed, and a missing one raises `KeyError`, which escapes
  `collect_reviews`:
  - A missing `id` always aborts the call.
  - A missing `content` aborts it when the id is unseen.
  - A missing other field, or a rating label that is not an integer (`ValueError`),
    aborts it only when the text is accepted.

  The error is not confined to one page. Such an abort is the `Raise`/`Aborted` path,
  and the caller sees `Raised`. The memo keeps whatever was stored before the abort.
- Only a non-200 status or an empty page ends a region early. Transport exceptions are
  not caught and would escape the call; the model has no transport failure at all (see
  "Left out").
- The language filter is always applied, and `collect_reviews` keeps no cache of its own
  results.

## Model

| member | source | states |
|---|---|---|
| TextUtils.ContainsCyrillic | text_utils.py:4 | true exactly when some character of the text lies in U+0430..U+044F, U+0410..U+042F, or is U+0451 or U+0401 (a regex search for the class) |
| TextUtils.LanguageFilter.IsRussian | text_utils.py:7-17 | empty text gives false and leaves the memo alone; a cached digest returns the stored verdict and leaves the memo alone; a miss stores exactly one new entry, key(text) -> the character rule's verdict; the memo's invariant (every entry is the rule applied to the text it came from) is kept |
| TextUtils.LanguageFilter.constructor | text_utils.py:5 | the memo starts empty and valid |
| TextUtils.Classify | text_utils.py:7-17 | an empty text answers false and leaves the memo alone; for any other text the memo afterwards maps its digest to the answer; on a miss the answer is the character rule's verdict on the text |
| TextUtils.ClassifyGrows | text_utils.py:12-16 | the memo only grows: no entry is removed or overwritten; a non-empty text's digest is always present afterwards; the answer is true iff the memo then holds a positive verdict for the text |
| TextUtils.ClassifyRepeat | text_utils.py:11-13 | asking again about the same text returns the same answer and leaves the memo unchanged |
| TextUtils.ClassifyAgrees | text_utils.py:11-17 | with an injective digest and a sound memo, the answer is exactly "non-empty and contains a Cyrillic letter", and the memo stays sound |
| TextUtils.ValidIsSound | text_utils.py:11-17 | with an injective digest, the memo's invariant means every cached verdict is the rule's verdict on any text with that digest |
| Scraper.NatToDecimal | scraper.py:43 | the decimal numeral of a natural number consists of digits only, so it is a valid rating label |
| Scraper.DecimalRoundTrip | scraper.py:43 | the digits of a numeral evaluate back to the number |
| Scraper.RatingRoundTrip | scraper.py:43 | `int()` of any integer's numeral, including a sign, gives that integer back: the rating is the integer the label spells, with no range check |
| Scraper.ParseInt | scraper.py:43 | `int()` succeeds exactly on an optional sign followed by one or more ASCII digits; any other label is the `ValueError` case; a leading `-` gives a value of at most 0, otherwise at least 0 |
| Scraper.BuildReview | scraper.py:40-49 | no record exactly when a field is missing or the rating label is not an integer; otherwise every field is copied from its label, the rating is the parsed label, and the region is the current one |
| Scraper.Candidates | scraper.py:30-31 | page 1 drops exactly its first entry; every other page keeps all its entries |
| Scraper.Admit | scraper.py:33-50 | an already seen id changes nothing; a raise means a missing id, a missing text or a record that cannot be built; otherwise the reviews and `seen` stay as they were or grow by exactly this entry's record and id |
| ScraperProperties.AdmitCases | scraper.py:34-50 | the converse, in the order the fields are read: a missing id raises; a seen id changes nothing; for an unseen id a missing text raises; a rejected text changes only the memo; an accepted text with a complete record is appended and its id marked seen; an accepted text whose record cannot be built raises |
| ScraperProperties.AdmitByRule | scraper.py:35-50 | with an injective digest and a sound memo, an unseen entry is appended exactly when its text has a Cyrillic letter and its record is complete, raises when the text has one but the record cannot be built, and otherwise leaves the reviews and `seen` alone |
| Scraper.AdmitAll | scraper.py:33-50 | a page that does not raise keeps the earlier reviews as a prefix, only adds to `seen`, and adds no more reviews than it has candidates |
| Scraper.Collect | scraper.py:5-55 | with no regions the call makes no request and returns nothing, leaving the memo alone; a stop flag already set at the first poll does the same and ends the call as cancelled |
| Scraper.CollectReviews | scraper.py:5-55 | the loop ends with the answer, memo and sequence of page requests that `Collect` computes, and keeps the memo's invariant |
| Scraper.AdmitPage | scraper.py:33-50 | the loop over one page's candidates ends as `AdmitAll` does: with the new reviews, `seen` and memo, or reporting the entry that raised, with the memo as it then stood; the memo's invariant is kept |
| Scraper.CrawlStep | scraper.py:12-52 | after a poll that read false, a bad status or empty page continues at page 1 of the next region; otherwise the page lies within the feed's bound, and the walk either aborts with the reviews as they were or continues at the next page |
| ScraperProperties.AdmitKeeps | scraper.py:33-50 | one entry keeps the invariant: ids are unique, `seen` equals the set of collected ids, every collected text is accepted by the memo, and the memo only grows (and stays sound under an injective digest) |
| ScraperProperties.AdmitAllKeeps | scraper.py:33-50 | the same invariant holds across all the candidates of one page, including when an entry aborts the call |
| ScraperProperties.AdmitAllAppends | scraper.py:33-50 | a page only appends, in entry order: earlier reviews stay a prefix, and the m-th new review is the record built in the current region from candidate `idx[m]`, with `idx` strictly increasing, so each candidate yields at most one review and none is taken out of order |
| ScraperProperties.FirstPageYield | scraper.py:30-31 | page 1 with K entries adds at most K-1 reviews, and none of them comes from the first (metadata) entry |
| ScraperProperties.RejectedIdStaysOpen | scraper.py:35-50 | an id whose text was rejected is not marked seen: with a sound memo and an injective digest, a rejected entry followed by an entry with the same id and a Cyrillic text yields exactly that second review, and the id is then seen |
| ScraperProperties.LeadingRun | scraper.py:9-48 | the length of the leading block of reviews from one region: all reviews before it carry that region, and the next one does not |
| ScraperProperties.AppendInLastRegion | scraper.py:40-48 | appending a review of the current region keeps the output in region order |
| ScraperProperties.StopEndsCall | scraper.py:12-13 | when the stop flag reads true before a request, the call ends with exactly the reviews gathered so far and makes no further request |
| ScraperProperties.FailedPageEndsRegion | scraper.py:10-28 | a non-200 response or an empty page ends the current region only; the walk goes on with page 1 of the next region |
| ScraperProperties.PageKeeps | scraper.py:33-50 | a page keeps the invariant and the earlier reviews; an abort leaves the reviews as they were, still accepted by the grown memo |
| ScraperProperties.CrawlKeeps | scraper.py:9-55 | the walk keeps unique ids and memo-accepted texts to the end, keeps earlier reviews as a prefix, and only grows the memo |
| ScraperProperties.CrawlAdvance | scraper.py:9-52 | after a poll that read false, the walk either aborts on the page just requested or continues from the next position (`Successor`) |
| ScraperProperties.CrawlOrdered | scraper.py:9-52 | reviews come out in one block per region, in the order of the regions list |
| ScraperProperties.CrawlPolls | scraper.py:9-20 | every request made follows a poll that read false, names a listed region and a page from 1 on, and the first is the current position; a cancelled walk saw true at its last poll |
| ScraperProperties.CrawlFollows | scraper.py:9-52 | each request after the first is the next page of the same region after a non-empty page, and page 1 of the next region otherwise |
| ScraperProperties.CrawlExhausts | scraper.py:9-55 | a walk that ran out of regions did so because its last request moved it past the last region |
| ScraperProperties.CollectNoDuplicates | scraper.py:34-50 | no two returned reviews share a review id |
| ScraperProperties.CollectOnlyCyrillic | scraper.py:38-40 | every returned text has a positive verdict in the final memo, and the memo only grew; with an injective digest and a sound memo, every returned text contains a Cyrillic letter |
| ScraperProperties.CollectInRegionOrder | scraper.py:9-48 | the output is in region order, and each review's region is one of the requested regions |
| ScraperProperties.CollectRequests | scraper.py:9-28 | a call's requests start at page 1 of the first region and each follows the previous one as `CrawlFollows` describes; the stop flag read false before each request; an exhausted call ended past the last region |
| AnalysisUtils.Contains | analysis_utils.py:29-32 | `k in low` is true exactly when the keyword occurs at some position of the text |
| AnalysisUtils.ExtractProblemsAndPluses | analysis_utils.py:22-35 | for every category, the value in each counter (0 when absent) is the number of (text, keyword) pairs with the keyword in that category occurring in the lower-cased text; a key is present exactly when that number is positive; the keys are categories of the tables; empty input gives two empty counters |
| AnalysisUtils.Increment | analysis_utils.py:28-33 | one text's pass over a table adds its hits to each category and creates a key only for a category that was hit |
| AnalysisUtils.Hits | analysis_utils.py:28-33 | one text's hits in a category are at most the number of the table's keywords that occur in it |
| AnalysisUtils.Count | analysis_utils.py:26-33 | a category's count over the texts is at most the number of texts times the table's size |
| AnalysisUtils.CountedCategoryListed | analysis_utils.py:28-33 | a category with a positive count is a value of the table |
| AnalysisUtils.HitCategoryListed | analysis_utils.py:28-33 | a category hit by one text is a value of the table |
| AnalysisUtils.CountOneMore | analysis_utils.py:26-33 | a further text adds exactly its own hits to every count, so no count decreases |
| AnalysisUtils.SlowAndLaggy | analysis_utils.py:8-30 | a text containing both "медлен" and "лага" adds 2 to "Производительность" |
| AnalysisUtils.SumHitsBound | analysis_utils.py:28-33 | summed over distinct categories, one text's hits are at most the number of keywords it contains, which is at most the table's size |
| AnalysisUtils.TotalOneMore | analysis_utils.py:26-33 | a further text raises a counter's total by exactly its hits summed over the categories |
| AnalysisUtils.TotalOneMoreBound | analysis_utils.py:28-33 | a further text raises a counter's total by at most the table's size |
| AnalysisUtils.OneTextBound | analysis_utils.py:3-33 | each text adds at most 8 to the sum of `problems` and at most 5 to the sum of `pluses` |
| AnalysisUtils.CategoryListsComplete | analysis_utils.py:3-20 | the category lists summed over are exactly the tables' categories, each listed once |
| AnalysisUtils.OccurrencesAtMostOne | analysis_utils.py:3-20 | a category occurs at most once in a list of distinct categories |

## Left out

- app.py is not part of this model. It covers the Streamlit page, session state, the
  pandas conversion and de-duplication, the charts, the CSV download, and the
  `st.cache_data` memo around whole calls.
- llm_analysis.py is not part of this model. It reads an environment variable and
  calls a foreign network API.
- The URL string, `requests.get` with its timeout, JSON decoding and `time.sleep(0.2)`
  are replaced by the `Feed` oracle. An absent `feed` or `entry` key is the empty
  entry list.
- Transport and JSON errors raised by `requests.get` or `r.json()` are not modelled.
  In the code they escape the call, like a missing field does.
- A feed whose `entry` is a single object rather than a list is not modelled.
- Scraper.CollectReviews: the page loop is modelled only for feeds with a page number
  past which every page is a non-200 status or empty (`Feed.Bounded`). On a feed that
  always returns entries, the code runs until the stop flag reads true. Such an
  unbounded feed, with a stop flag that fires at some later poll, is outside the model.
- Scraper.ParseInt: `int()` is modelled on an optional sign followed by ASCII digits.
  Surrounding whitespace, `_` separators and non-ASCII digits, which Python also
  accepts, are treated as errors.
- The md5 digest is an abstract function. Results that hold only when no two texts
  share a digest take injectivity as a hypothesis (`TextUtils.ClassifyAgrees`,
  `TextUtils.ValidIsSound`, `ScraperProperties.AdmitByRule`,
  `ScraperProperties.CollectOnlyCyrillic`).
- `str.lower` is an abstract function; Unicode case mapping is not modelled.
- Concurrent callers sharing the process-wide memo are not modelled. The memo is one
  object, updated one call at a time.
- The review record's author is the `name.label` of the entry in the code. The model
  reads every field as one optional label.
