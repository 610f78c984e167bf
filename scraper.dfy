/** Model of scraper.py: `collect_reviews`, the region-by-region, page-by-page walk over a
    storefront's review feed that keeps the Cyrillic reviews it has not seen yet.

    The walk is specified as a state machine on values (`Admit` for one entry, `AdmitAll`
    for a page, `Crawl` for the traversal); `CollectReviews` is the loop itself, proved to
    end in the state that `Crawl` computes. */
module Scraper {
  import opened TextUtils

  datatype Option<T> = None | Some(value: T)

  /** One raw feed entry. Each field is the `label` of its wrapper; None when a key is absent. */
  datatype RawEntry = RawEntry(
    id: Option<string>,
    author: Option<string>,
    rating: Option<string>,
    title: Option<string>,
    content: Option<string>,
    updated: Option<string>,
    version: Option<string>)

  /** The answer to one page request: a status other than 200, or the list of entries
      (empty when the response has no `feed` or no `entry`). */
  datatype Page = BadStatus | Entries(entries: seq<RawEntry>)

  /** The record appended to `all_reviews`. */
  datatype Review = Review(
    reviewId: string,
    author: string,
    rating: int,
    title: string,
    reviewText: string,
    reviewDate: string,
    version: string,
    region: string)

  /** The storefront feed as an oracle over (app id, region, page). Every page after
      `lastPage` is a bad status or empty, which is what lets the page loop end. */
  datatype Feed = Feed(fetch: (string, string, nat) -> Page, lastPage: nat) {
    ghost predicate Bounded() {
      forall app, region, page :: lastPage < page ==>
        fetch(app, region, page).BadStatus? || fetch(app, region, page) == Entries([])
    }
  }

  /** Everything one `collect_reviews` call depends on besides its running state:
      `stop(n)` is the value of the stop flag at its n-th poll, `key` the digest of the
      language memo. */
  datatype Call = Call(
    appId: string,
    regions: seq<string>,
    feed: Feed,
    stop: nat -> bool,
    key: string -> string)

  /** The running state: `all_reviews`, `seen` and the language memo. */
  datatype Acc = Acc(reviews: seq<Review>, seen: set<string>, cache: map<string, bool>)

  /** Processing goes on, or an exception (a missing key or a bad rating) ends the call;
      the memo keeps what was stored before the exception. */
  datatype Flow = Go(acc: Acc) | Raise(cache: map<string, bool>)

  /** How a traversal ended: every region walked, the stop flag seen, or an exception. */
  datatype Ending = Exhausted | Cancelled | Aborted

  /** The end state of a traversal; `fetched` lists the (region index, page) pairs requested. */
  datatype Outcome = Outcome(ending: Ending, reviews: seq<Review>, cache: map<string, bool>, fetched: seq<(nat, nat)>)

  /** What the caller of `collect_reviews` sees. */
  datatype Collected = Returned(reviews: seq<Review>) | Raised

  // ---------------------------------------------------------------------------
  // Parsing one entry

  predicate IsDigit(ch: char) {
    '0' <= ch <= '9'
  }

  predicate IsNumeral(s: string) {
    |s| > 0 && forall i :: 0 <= i < |s| ==> IsDigit(s[i])
  }

  function DigitValue(ch: char): nat
    requires IsDigit(ch)
  {
    ch as int - '0' as int
  }

  function DigitsValue(s: string): nat
    requires forall i :: 0 <= i < |s| ==> IsDigit(s[i])
    decreases |s|
  {
    if s == [] then 0 else 10 * DigitsValue(s[..|s| - 1]) + DigitValue(s[|s| - 1])
  }

  /** The labels `ParseInt` accepts: an optional sign followed by decimal digits. */
  predicate IsIntegerLiteral(s: string) {
    IsNumeral(s) || (|s| > 0 && (s[0] == '-' || s[0] == '+') && IsNumeral(s[1..]))
  }

  /** `int(label)` on an optional sign followed by decimal digits; anything else is the
      ValueError case (None). No range check: "0" and "42" parse as well as "5". */
  function ParseInt(s: string): (r: Option<int>)
    ensures r.Some? <==> IsIntegerLiteral(s)
    ensures r.Some? ==> |s| > 0 && (s[0] == '-' ==> r.value <= 0) && (s[0] != '-' ==> 0 <= r.value)
  {
    if |s| > 0 && (s[0] == '-' || s[0] == '+') then
      if IsNumeral(s[1..]) then
        var magnitude: int := DigitsValue(s[1..]);
        Some(if s[0] == '-' then -magnitude else magnitude)
      else None
    else if IsNumeral(s) then Some(DigitsValue(s))
    else None
  }

  /** The decimal numeral of `n`, used to state what `ParseInt` accepts. */
  function NatToDecimal(n: nat): (s: string)
    ensures IsNumeral(s)
  {
    if n < 10 then ['0' + n as char]
    else NatToDecimal(n / 10) + ['0' + (n % 10) as char]
  }

  function IntToDecimal(n: int): string {
    if n < 0 then "-" + NatToDecimal(-n) else NatToDecimal(n)
  }

  lemma {:induction false} DecimalRoundTrip(n: nat)
    ensures DigitsValue(NatToDecimal(n)) == n
  {
    if n >= 10 {
      var s := NatToDecimal(n);
      assert s[..|s| - 1] == NatToDecimal(n / 10);
      DecimalRoundTrip(n / 10);
    }
  }

  /** Every integer's numeral parses back to it: the rating is the integer the label
      spells, whatever its range. */
  lemma RatingRoundTrip(n: int)
    ensures ParseInt(IntToDecimal(n)) == Some(n)
  {
    if n < 0 {
      var digits := NatToDecimal(-n);
      DecimalRoundTrip(-n);
      assert IntToDecimal(n)[0] == '-' && IntToDecimal(n)[1..] == digits;
    } else {
      var digits := NatToDecimal(n);
      DecimalRoundTrip(n);
      assert IsDigit(digits[0]);
    }
  }

  /** The record built from an entry in `region`; None when a field is missing or the
      rating label is not an integer. */
  function BuildReview(e: RawEntry, region: string): (r: Option<Review>)
    ensures r.None? <==>
      || e.id.None? || e.author.None? || e.rating.None? || e.title.None?
      || e.content.None? || e.updated.None? || e.version.None?
      || !IsIntegerLiteral(e.rating.value)
    ensures r.Some? ==>
      && e.id == Some(r.value.reviewId) && e.author == Some(r.value.author)
      && e.title == Some(r.value.title) && e.content == Some(r.value.reviewText)
      && e.updated == Some(r.value.reviewDate) && e.version == Some(r.value.version)
      && e.rating.Some? && ParseInt(e.rating.value) == Some(r.value.rating)
      && r.value.region == region
  {
    if && e.id.Some? && e.author.Some? && e.rating.Some? && ParseInt(e.rating.value).Some?
       && e.title.Some? && e.content.Some? && e.updated.Some? && e.version.Some?
    then
      Some(Review(e.id.value, e.author.value, ParseInt(e.rating.value).value, e.title.value,
                  e.content.value, e.updated.value, e.version.value, region))
    else None
  }

  // ---------------------------------------------------------------------------
  // The traversal as a state machine

  /** The entries of a page that are candidate reviews: page 1 starts with the app's own
      metadata entry, which is dropped (`entries[1:]`). */
  function Candidates(entries: seq<RawEntry>, page: nat): (r: seq<RawEntry>)
    ensures page != 1 ==> r == entries
    ensures page == 1 && entries != [] ==> [entries[0]] + r == entries
    ensures entries == [] ==> r == []
  {
    if page == 1 && entries != [] then entries[1..] else entries
  }

  /** One entry: its id is read first and a seen id is skipped; then its text is read and
      classified; a Cyrillic text becomes a review and its id is marked seen. */
  function Admit(key: string -> string, region: string, acc: Acc, e: RawEntry): (r: Flow)
    ensures e.id.Some? && e.id.value in acc.seen ==> r == Go(acc)
    ensures r.Raise? ==> e.id.None? || e.content.None? || BuildReview(e, region).None?
    ensures r.Go? ==>
      || (r.acc.reviews == acc.reviews && r.acc.seen == acc.seen)
      || (&& e.id.Some? && e.id.value !in acc.seen && BuildReview(e, region).Some?
          && r.acc.reviews == acc.reviews + [BuildReview(e, region).value]
          && r.acc.seen == acc.seen + {e.id.value})
  {
    match e.id
    case None => Raise(acc.cache)
    case Some(rid) =>
      if rid in acc.seen then Go(acc)
      else match e.content
        case None => Raise(acc.cache)
        case Some(text) =>
          var (russian, cache') := Classify(acc.cache, key, text);
          if !russian then Go(acc.(cache := cache'))
          else match BuildReview(e, region)
            case None => Raise(cache')
            case Some(review) => Go(Acc(acc.reviews + [review], acc.seen + {rid}, cache'))
  }

  /** The candidates of one page, in order, until one raises. */
  function AdmitAll(key: string -> string, region: string, acc: Acc, entries: seq<RawEntry>): (r: Flow)
    ensures r.Go? ==> acc.reviews <= r.acc.reviews && acc.seen <= r.acc.seen
    ensures r.Go? ==> |r.acc.reviews| <= |acc.reviews| + |entries|
    decreases |entries|
  {
    if entries == [] then Go(acc)
    else match Admit(key, region, acc, entries[0])
      case Raise(cache) => Raise(cache)
      case Go(acc') => AdmitAll(key, region, acc', entries[1..])
  }

  /** The traversal from page `page` of region number `ri` on, having made the requests in
      `fetched`: the stop flag is polled before every request; a bad status or an empty
      page moves on to page 1 of the next region; otherwise the page's candidates are
      admitted and the next page follows. */
  function Crawl(c: Call, ri: nat, page: nat, acc: Acc, fetched: seq<(nat, nat)>): Outcome
    requires c.feed.Bounded() && ri <= |c.regions| && 1 <= page <= c.feed.lastPage + 1
    decreases |c.regions| - ri, c.feed.lastPage + 1 - page
  {
    if ri == |c.regions| then Outcome(Exhausted, acc.reviews, acc.cache, fetched)
    else if c.stop(|fetched|) then Outcome(Cancelled, acc.reviews, acc.cache, fetched)
    else
      var fetched' := fetched + [(ri, page)];
      match c.feed.fetch(c.appId, c.regions[ri], page)
      case BadStatus => Crawl(c, ri + 1, 1, acc, fetched')
      case Entries(entries) =>
        if entries == [] then Crawl(c, ri + 1, 1, acc, fetched')
        else match AdmitAll(c.key, c.regions[ri], acc, Candidates(entries, page))
          case Raise(cache) => Outcome(Aborted, acc.reviews, cache, fetched')
          case Go(acc') => Crawl(c, ri, page + 1, acc', fetched')
  }

  /** One step of the traversal after a poll that read false. */
  lemma CrawlStep(c: Call, ri: nat, page: nat, acc: Acc, fetched: seq<(nat, nat)>)
    requires c.feed.Bounded() && ri < |c.regions| && 1 <= page <= c.feed.lastPage + 1
    requires !c.stop(|fetched|)
    ensures var response := c.feed.fetch(c.appId, c.regions[ri], page);
      var fetched' := fetched + [(ri, page)];
      if response.BadStatus? || response.entries == [] then
        Crawl(c, ri, page, acc, fetched) == Crawl(c, ri + 1, 1, acc, fetched')
      else
        && page <= c.feed.lastPage
        && match AdmitAll(c.key, c.regions[ri], acc, Candidates(response.entries, page))
           case Raise(cache) => Crawl(c, ri, page, acc, fetched) == Outcome(Aborted, acc.reviews, cache, fetched')
           case Go(acc') => Crawl(c, ri, page, acc, fetched) == Crawl(c, ri, page + 1, acc', fetched')
  {
  }

  /** A whole call, starting with no reviews, nothing seen and the memo `cache`. */
  function Collect(c: Call, cache: map<string, bool>): (o: Outcome)
    requires c.feed.Bounded()
    ensures c.regions == [] ==> o == Outcome(Exhausted, [], cache, [])
    ensures c.regions != [] && c.stop(0) ==> o == Outcome(Cancelled, [], cache, [])
  {
    Crawl(c, 0, 1, Acc([], {}, cache), [])
  }

  function Result(o: Outcome): Collected {
    if o.ending == Aborted then Raised else Returned(o.reviews)
  }

  // ---------------------------------------------------------------------------
  // The loop

  /** The `for e in entries` loop of one page: ends as `AdmitAll` does, with the new
      reviews, `seen` and memo, or reports that an entry raised. */
  method AdmitPage(country: string, entries: seq<RawEntry>, reviews: seq<Review>, seen: set<string>, filter: LanguageFilter)
    returns (admitted: bool, reviews': seq<Review>, seen': set<string>)
    requires filter.Valid()
    modifies filter
    ensures filter.Valid()
    ensures var flow := AdmitAll(filter.key, country, Acc(reviews, seen, old(filter.cache)), entries);
      if admitted then flow == Go(Acc(reviews', seen', filter.cache)) else flow == Raise(filter.cache)
  {
    ghost var start := Acc(reviews, seen, filter.cache);
    reviews', seen' := reviews, seen;
    for j := 0 to |entries|
      invariant filter.Valid()
      invariant AdmitAll(filter.key, country, Acc(reviews', seen', filter.cache), entries[j..])
             == AdmitAll(filter.key, country, start, entries)
    {
      var e := entries[j];
      assert entries[j..][1..] == entries[j + 1..];
      if e.id.None? {
        return false, reviews', seen';
      }
      var rid := e.id.value;
      if rid in seen' {
        continue;
      }
      if e.content.None? {
        return false, reviews', seen';
      }
      var text := e.content.value;
      var russian := filter.IsRussian(text);
      if russian {
        var review := BuildReview(e, country);
        if review.None? {
          return false, reviews', seen';
        }
        reviews' := reviews' + [review.value];
        seen' := seen' + {rid};
      }
    }
    admitted := true;
  }

  /** `collect_reviews(app_id, regions, stop_flag)`, with the language memo passed in as
      `filter`. Ends in the state `Collect` computes: the same answer, memo and requests. */
  method CollectReviews(appId: string, regions: seq<string>, feed: Feed, stopFlag: nat -> bool, filter: LanguageFilter)
    returns (result: Collected, ghost fetched: seq<(nat, nat)>)
    requires feed.Bounded() && filter.Valid()
    modifies filter
    ensures filter.Valid()
    ensures var o := Collect(Call(appId, regions, feed, stopFlag, filter.key), old(filter.cache));
      result == Result(o) && filter.cache == o.cache && fetched == o.fetched
  {
    ghost var c := Call(appId, regions, feed, stopFlag, filter.key);
    ghost var final := Collect(c, filter.cache);
    var allReviews: seq<Review> := [];
    var seen: set<string> := {};
    var polls: nat := 0;
    fetched := [];
    for ri := 0 to |regions|
      invariant filter.Valid() && filter.key == c.key
      invariant polls == |fetched|
      invariant Crawl(c, ri, 1, Acc(allReviews, seen, filter.cache), fetched) == final
    {
      var country := regions[ri];
      var page: nat := 1;
      while true
        invariant filter.Valid() && filter.key == c.key
        invariant 1 <= page <= feed.lastPage + 1
        invariant polls == |fetched|
        invariant Crawl(c, ri, page, Acc(allReviews, seen, filter.cache), fetched) == final
        decreases feed.lastPage + 1 - page
      {
        if stopFlag(polls) {
          result := Returned(allReviews);
          return;
        }
        var response := feed.fetch(appId, country, page);
        polls := polls + 1;
        fetched := fetched + [(ri, page)];
        if response.BadStatus? {
          break;
        }
        var raw := response.entries;
        if raw == [] {
          break;
        }
        var entries := if page == 1 then raw[1..] else raw;
        assert entries == Candidates(raw, page);
        var admitted;
        admitted, allReviews, seen := AdmitPage(country, entries, allReviews, seen, filter);
        if !admitted {
          result := Raised;
          return;
        }
        page := page + 1;
      }
    }
    result := Returned(allReviews);
  }
}
