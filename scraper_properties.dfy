/** What `collect_reviews` guarantees, proved about the state machine of module Scraper:
    no duplicate ids, `seen` equal to the ids collected, only texts the language filter
    accepted, reviews grouped by region in region order, and requests that follow the
    page/region rules and stop at the stop flag. */
module ScraperProperties {
  import opened TextUtils
  import opened Scraper

  // ---------------------------------------------------------------------------
  // Invariants of the running state

  function Ids(reviews: seq<Review>): set<string> {
    set i | 0 <= i < |reviews| :: reviews[i].reviewId
  }

  predicate UniqueIds(reviews: seq<Review>) {
    forall i, j :: 0 <= i < j < |reviews| ==> reviews[i].reviewId != reviews[j].reviewId
  }

  /** Every review's text got a positive answer from the language filter, which the memo keeps. */
  ghost predicate AllAccepted(cache: map<string, bool>, key: string -> string, reviews: seq<Review>) {
    forall i :: 0 <= i < |reviews| ==> Accepts(cache, key, reviews[i].reviewText)
  }

  /** The running state of one call: ids unique, `seen` exactly the ids collected, every text accepted. */
  ghost predicate Inv(key: string -> string, acc: Acc) {
    && UniqueIds(acc.reviews)
    && acc.seen == Ids(acc.reviews)
    && AllAccepted(acc.cache, key, acc.reviews)
  }

  /** The memo went from `before` to `after` as `is_russian` changes it: only growing, and
      staying sound when the digest is injective. */
  ghost predicate MemoKept(key: string -> string, before: map<string, bool>, after: map<string, bool>) {
    && Extends(before, after)
    && (Injective(key) && Sound(before, key) ==> Sound(after, key))
  }

  lemma AcceptedUnderGrowth(before: map<string, bool>, after: map<string, bool>, key: string -> string, reviews: seq<Review>)
    requires AllAccepted(before, key, reviews) && Extends(before, after)
    ensures AllAccepted(after, key, reviews)
  {
  }

  /** What decides one entry, in the order its fields are read: a missing id raises; a
      seen id is skipped; for an unseen id a missing text raises; a rejected text leaves
      the reviews and `seen` alone; an accepted text is appended with its id, or raises
      when its record cannot be built. */
  lemma AdmitCases(key: string -> string, region: string, acc: Acc, e: RawEntry)
    ensures e.id.None? ==> Admit(key, region, acc, e) == Raise(acc.cache)
    ensures e.id.Some? && e.id.value in acc.seen ==> Admit(key, region, acc, e) == Go(acc)
    ensures e.id.Some? && e.id.value !in acc.seen && e.content.None? ==> Admit(key, region, acc, e) == Raise(acc.cache)
    ensures e.id.Some? && e.id.value !in acc.seen && e.content.Some? ==>
      var (russian, cache') := Classify(acc.cache, key, e.content.value);
      && (!russian ==> Admit(key, region, acc, e) == Go(acc.(cache := cache')))
      && (russian && BuildReview(e, region).None? ==> Admit(key, region, acc, e) == Raise(cache'))
      && (russian && BuildReview(e, region).Some? ==>
            Admit(key, region, acc, e) == Go(Acc(acc.reviews + [BuildReview(e, region).value], acc.seen + {e.id.value}, cache')))
  {
  }

  /** With an injective digest and a sound memo, an unseen entry whose text has a Cyrillic
      letter and whose record is complete is appended, and one whose text has none
      changes neither the reviews nor `seen`. */
  lemma AdmitByRule(key: string -> string, region: string, acc: Acc, e: RawEntry)
    requires Injective(key) && Sound(acc.cache, key)
    requires e.id.Some? && e.id.value !in acc.seen && e.content.Some?
    ensures ContainsCyrillic(e.content.value) && BuildReview(e, region).Some? ==>
      && Admit(key, region, acc, e).Go?
      && Admit(key, region, acc, e).acc.reviews == acc.reviews + [BuildReview(e, region).value]
      && Admit(key, region, acc, e).acc.seen == acc.seen + {e.id.value}
    ensures ContainsCyrillic(e.content.value) && BuildReview(e, region).None? ==> Admit(key, region, acc, e).Raise?
    ensures !ContainsCyrillic(e.content.value) ==>
      && Admit(key, region, acc, e).Go?
      && Admit(key, region, acc, e).acc.reviews == acc.reviews
      && Admit(key, region, acc, e).acc.seen == acc.seen
  {
    ClassifyAgrees(acc.cache, key, e.content.value);
  }

  /** One entry keeps the invariant. A review is appended only for an unseen id, so ids
      stay unique and `seen` stays equal to them; a rejected text adds nothing to `seen`. */
  lemma AdmitKeeps(key: string -> string, region: string, acc: Acc, e: RawEntry)
    requires Inv(key, acc)
    ensures match Admit(key, region, acc, e)
      case Raise(cache) => MemoKept(key, acc.cache, cache)
      case Go(acc') => Inv(key, acc') && MemoKept(key, acc.cache, acc'.cache)
  {
    if e.id.Some? && e.id.value !in acc.seen && e.content.Some? {
      var text := e.content.value;
      ClassifyGrows(acc.cache, key, text);
      if Injective(key) && Sound(acc.cache, key) {
        ClassifyAgrees(acc.cache, key, text);
      }
      var (russian, cache') := Classify(acc.cache, key, text);
      AcceptedUnderGrowth(acc.cache, cache', key, acc.reviews);
      if russian && BuildReview(e, region).Some? {
        var review := BuildReview(e, region).value;
        var reviews' := acc.reviews + [review];
        assert review.reviewId !in Ids(acc.reviews);
        assert Ids(reviews') == Ids(acc.reviews) + {review.reviewId} by {
          assert forall i :: 0 <= i < |acc.reviews| ==> reviews'[i] == acc.reviews[i];
          assert reviews'[|acc.reviews|] == review;
        }
      }
    }
  }

  /** A page keeps the invariant. */
  lemma {:induction false} AdmitAllKeeps(key: string -> string, region: string, acc: Acc, entries: seq<RawEntry>)
    requires Inv(key, acc)
    ensures match AdmitAll(key, region, acc, entries)
      case Raise(cache) => MemoKept(key, acc.cache, cache)
      case Go(acc') => Inv(key, acc') && MemoKept(key, acc.cache, acc'.cache)
    decreases |entries|
  {
    if entries != [] {
      AdmitKeeps(key, region, acc, entries[0]);
      match Admit(key, region, acc, entries[0])
      case Raise(_) =>
      case Go(mid) =>
        AdmitAllKeeps(key, region, mid, entries[1..]);
    }
  }

  /** `after` is `before` followed by records built in `region` from `entries`, in entry
      order: the m-th new record comes from entry `idx[m]`, and `idx` strictly increases. */
  ghost predicate AppendedFrom(before: seq<Review>, after: seq<Review>, entries: seq<RawEntry>, region: string, idx: seq<nat>) {
    && before <= after
    && |idx| == |after| - |before|
    && (forall m, n :: 0 <= m < n < |idx| ==> idx[m] < idx[n])
    && (forall m :: 0 <= m < |idx| ==>
          idx[m] < |entries| && BuildReview(entries[idx[m]], region) == Some(after[|before| + m]))
    && (forall i :: |before| <= i < |after| ==> after[i].region == region)
  }

  /** A page appends, in entry order, one record per admitted candidate: no candidate
      yields two reviews and none is taken out of order. */
  lemma {:induction false} AdmitAllAppends(key: string -> string, region: string, acc: Acc, entries: seq<RawEntry>)
    returns (idx: seq<nat>)
    ensures var flow := AdmitAll(key, region, acc, entries);
      flow.Go? ==> AppendedFrom(acc.reviews, flow.acc.reviews, entries, region, idx)
    decreases |entries|
  {
    idx := [];
    if entries != [] {
      match Admit(key, region, acc, entries[0])
      case Raise(_) =>
      case Go(mid) =>
        var rest := AdmitAllAppends(key, region, mid, entries[1..]);
        var flow := AdmitAll(key, region, mid, entries[1..]);
        if flow.Go? {
          if mid.reviews == acc.reviews {
            idx := AppendedSkip(acc.reviews, flow.acc.reviews, entries, region, rest);
          } else {
            idx := AppendedTake(acc.reviews, flow.acc.reviews, entries, region, rest);
          }
        }
    }
  }

  /** The index of every entry after the first, shifted past the first. */
  function Shifted(rest: seq<nat>): (idx: seq<nat>)
    ensures |idx| == |rest| && forall m :: 0 <= m < |rest| ==> idx[m] == rest[m] + 1
  {
    seq(|rest|, m requires 0 <= m < |rest| => rest[m] + 1)
  }

  /** Putting entry 0 in front of the shifted indices keeps them strictly increasing. */
  lemma ShiftedIncreasing(rest: seq<nat>)
    requires forall m, n :: 0 <= m < n < |rest| ==> rest[m] < rest[n]
    ensures var idx := [0] + Shifted(rest); forall m, n :: 0 <= m < n < |idx| ==> idx[m] < idx[n]
  {
  }

  /** The step of `AdmitAllAppends` when the first entry appended nothing. */
  lemma AppendedSkip(before: seq<Review>, after: seq<Review>, entries: seq<RawEntry>, region: string, rest: seq<nat>)
    returns (idx: seq<nat>)
    requires entries != [] && AppendedFrom(before, after, entries[1..], region, rest)
    ensures AppendedFrom(before, after, entries, region, idx)
  {
    idx := Shifted(rest);
    forall m | 0 <= m < |idx|
      ensures idx[m] < |entries| && BuildReview(entries[idx[m]], region) == Some(after[|before| + m])
    {
      assert entries[idx[m]] == entries[1..][rest[m]];
    }
  }

  /** The step of `AdmitAllAppends` when the first entry appended its own record. */
  lemma AppendedTake(before: seq<Review>, after: seq<Review>, entries: seq<RawEntry>, region: string, rest: seq<nat>)
    returns (idx: seq<nat>)
    requires entries != [] && BuildReview(entries[0], region).Some?
    requires AppendedFrom(before + [BuildReview(entries[0], region).value], after, entries[1..], region, rest)
    ensures AppendedFrom(before, after, entries, region, idx)
  {
    var mid := before + [BuildReview(entries[0], region).value];
    idx := [0] + Shifted(rest);
    assert after[|before|] == mid[|before|];
    assert before <= after by {
      assert before == mid[..|before|];
    }
    ShiftedIncreasing(rest);
    forall m | 0 <= m < |idx|
      ensures idx[m] < |entries| && BuildReview(entries[idx[m]], region) == Some(after[|before| + m])
    {
      if m > 0 {
        assert idx[m] == rest[m - 1] + 1;
        assert entries[idx[m]] == entries[1..][rest[m - 1]];
      }
    }
  }

  /** Page 1 with K entries adds at most K - 1 reviews, none of them built from the
      first (metadata) entry's position. */
  lemma FirstPageYield(key: string -> string, region: string, acc: Acc, entries: seq<RawEntry>)
    requires entries != []
    ensures var flow := AdmitAll(key, region, acc, Candidates(entries, 1));
      flow.Go? ==>
        && |flow.acc.reviews| <= |acc.reviews| + |entries| - 1
        && forall i :: |acc.reviews| <= i < |flow.acc.reviews| ==>
             exists j :: 1 <= j < |entries| && BuildReview(entries[j], region) == Some(flow.acc.reviews[i])
  {
    var candidates := Candidates(entries, 1);
    var idx := AdmitAllAppends(key, region, acc, candidates);
    var flow := AdmitAll(key, region, acc, candidates);
    if flow.Go? {
      forall i | |acc.reviews| <= i < |flow.acc.reviews|
        ensures exists j :: 1 <= j < |entries| && BuildReview(entries[j], region) == Some(flow.acc.reviews[i])
      {
        var j := idx[i - |acc.reviews|];
        assert entries[j + 1] == candidates[j];
      }
    }
  }

  /** An id whose text was rejected is not marked seen: a later entry with the same id
      and a Cyrillic text is still collected. The memo must be sound and the digest
      injective, or a stored verdict could stand in for the rule. */
  lemma RejectedIdStaysOpen(key: string -> string, region: string, acc: Acc, rejected: RawEntry, accepted: RawEntry)
    requires Injective(key) && Sound(acc.cache, key)
    requires rejected.id.Some? && rejected.id == accepted.id && rejected.id.value !in acc.seen
    requires rejected.content.Some? && !ContainsCyrillic(rejected.content.value)
    requires accepted.content.Some? && ContainsCyrillic(accepted.content.value)
    requires BuildReview(accepted, region).Some?
    ensures var flow := AdmitAll(key, region, acc, [rejected, accepted]);
      && flow.Go?
      && flow.acc.reviews == acc.reviews + [BuildReview(accepted, region).value]
      && flow.acc.seen == acc.seen + {rejected.id.value}
  {
    var first := rejected.content.value;
    ClassifyAgrees(acc.cache, key, first);
    var mid := acc.(cache := Classify(acc.cache, key, first).1);
    assert Admit(key, region, acc, rejected) == Go(mid);
    var second := accepted.content.value;
    ClassifyAgrees(mid.cache, key, second);
    var review := BuildReview(accepted, region).value;
    var last := Acc(acc.reviews + [review], acc.seen + {rejected.id.value}, Classify(mid.cache, key, second).1);
    assert Admit(key, region, mid, accepted) == Go(last);
    assert [rejected, accepted][1..] == [accepted];
    assert [accepted][1..] == [];
    assert AdmitAll(key, region, mid, [accepted]) == AdmitAll(key, region, last, []);
  }

  // ---------------------------------------------------------------------------
  // Region order

  /** The length of the leading block of reviews from `region`. */
  function LeadingRun(reviews: seq<Review>, region: string): (n: nat)
    ensures n <= |reviews|
    ensures forall i :: 0 <= i < n ==> reviews[i].region == region
    ensures n < |reviews| ==> reviews[n].region != region
  {
    if reviews == [] || reviews[0].region != region then 0
    else 1 + LeadingRun(reviews[1..], region)
  }

  /** `reviews` is one block per entry of `regions`, in that order; blocks may be empty.
      Taking each block as long as possible loses no split, so this is the greedy split. */
  predicate RegionOrdered(reviews: seq<Review>, regions: seq<string>)
    decreases |regions|
  {
    if regions == [] then reviews == []
    else RegionOrdered(reviews[LeadingRun(reviews, regions[0])..], regions[1..])
  }

  lemma {:induction false} EmptyOrdered(regions: seq<string>)
    ensures RegionOrdered([], regions)
    decreases |regions|
  {
    if regions != [] {
      EmptyOrdered(regions[1..]);
    }
  }

  /** A region-ordered sequence only names regions of the list. */
  lemma {:induction false} OrderedRegionsListed(reviews: seq<Review>, regions: seq<string>)
    requires RegionOrdered(reviews, regions)
    ensures forall i :: 0 <= i < |reviews| ==> reviews[i].region in regions
    decreases |regions|
  {
    if regions != [] {
      var n := LeadingRun(reviews, regions[0]);
      OrderedRegionsListed(reviews[n..], regions[1..]);
      forall i | 0 <= i < |reviews| ensures reviews[i].region in regions {
        if i >= n {
          assert reviews[i] == reviews[n..][i - n];
          assert reviews[i].region in regions[1..];
        }
      }
    }
  }

  /** Later regions that have no reviews yet do not disturb the order. */
  lemma {:induction false} OrderedMoreRegions(reviews: seq<Review>, regions: seq<string>, more: seq<string>)
    requires RegionOrdered(reviews, regions)
    ensures RegionOrdered(reviews, regions + more)
    decreases |regions|
  {
    if regions == [] {
      EmptyOrdered(more);
      assert regions + more == more;
    } else {
      var n := LeadingRun(reviews, regions[0]);
      OrderedMoreRegions(reviews[n..], regions[1..], more);
      assert (regions + more)[1..] == regions[1..] + more;
    }
  }

  /** Appending a review of the last region keeps the order. */
  lemma {:induction false} AppendInLastRegion(reviews: seq<Review>, review: Review, regions: seq<string>)
    requires RegionOrdered(reviews, regions) && regions != [] && review.region == regions[|regions| - 1]
    ensures RegionOrdered(reviews + [review], regions)
    decreases |regions|, 1
  {
    if LeadingRun(reviews, regions[0]) < |reviews| {
      AppendPastFirstBlock(reviews, review, regions);
    } else {
      AppendToFirstBlock(reviews, review, regions);
    }
  }

  /** `AppendInLastRegion` when the reviews reach past the first region's block. */
  lemma {:induction false} AppendPastFirstBlock(reviews: seq<Review>, review: Review, regions: seq<string>)
    requires RegionOrdered(reviews, regions) && regions != [] && review.region == regions[|regions| - 1]
    requires LeadingRun(reviews, regions[0]) < |reviews|
    ensures RegionOrdered(reviews + [review], regions)
    decreases |regions|, 0
  {
    var extended := reviews + [review];
    var n := LeadingRun(reviews, regions[0]);
    assert extended[n] == reviews[n];
    assert forall i :: 0 <= i < n ==> extended[i] == reviews[i];
    assert LeadingRun(extended, regions[0]) == n;
    assert extended[n..] == reviews[n..] + [review];
    if |regions| == 1 {
      assert false;
    } else {
      AppendInLastRegion(reviews[n..], review, regions[1..]);
    }
  }

  /** `AppendInLastRegion` when every review so far is in the first region's block. */
  lemma AppendToFirstBlock(reviews: seq<Review>, review: Review, regions: seq<string>)
    requires RegionOrdered(reviews, regions) && regions != [] && review.region == regions[|regions| - 1]
    requires LeadingRun(reviews, regions[0]) == |reviews|
    ensures RegionOrdered(reviews + [review], regions)
  {
    var extended := reviews + [review];
    assert forall i :: 0 <= i < |reviews| ==> extended[i] == reviews[i] && reviews[i].region == regions[0];
    assert extended[|reviews|] == review;
    EmptyOrdered(regions[1..]);
    if review.region == regions[0] {
      assert LeadingRun(extended, regions[0]) == |reviews| + 1;
      assert extended[|reviews| + 1..] == [];
    } else {
      assert LeadingRun(extended, regions[0]) == |reviews|;
      assert extended[|reviews|..] == [review];
      SingleInLastRegion(review, regions[1..]);
    }
  }

  /** A single review of the last region is in order. */
  lemma {:induction false} SingleInLastRegion(review: Review, regions: seq<string>)
    requires regions != [] && review.region == regions[|regions| - 1]
    ensures RegionOrdered([review], regions)
    decreases |regions|
  {
    if review.region == regions[0] {
      assert LeadingRun([review], regions[0]) == 1;
      assert [review][1..] == [];
      EmptyOrdered(regions[1..]);
    } else {
      assert LeadingRun([review], regions[0]) == 0;
      SingleInLastRegion(review, regions[1..]);
    }
  }

  /** Appending any number of reviews of the last region keeps the order. */
  lemma {:induction false} ExtendInLastRegion(reviews: seq<Review>, longer: seq<Review>, regions: seq<string>)
    requires RegionOrdered(reviews, regions) && regions != [] && reviews <= longer
    requires forall i :: |reviews| <= i < |longer| ==> longer[i].region == regions[|regions| - 1]
    ensures RegionOrdered(longer, regions)
    decreases |longer|
  {
    if |longer| > |reviews| {
      var shorter := longer[..|longer| - 1];
      var last := longer[|longer| - 1];
      assert reviews <= shorter by {
        assert forall i :: 0 <= i < |reviews| ==> shorter[i] == longer[i];
      }
      assert forall i :: |reviews| <= i < |shorter| ==> shorter[i] == longer[i];
      ExtendInLastRegion(reviews, shorter, regions);
      assert shorter + [last] == longer;
      AppendInLastRegion(shorter, last, regions);
    } else {
      assert longer == reviews;
    }
  }

  // ---------------------------------------------------------------------------
  // The traversal

  /** The request after a fetch of (region index, page): the next page after a non-empty
      page, page 1 of the next region after a bad status or an empty page. */
  function Successor(c: Call, pos: (nat, nat)): (nat, nat)
    requires pos.0 < |c.regions|
  {
    match c.feed.fetch(c.appId, c.regions[pos.0], pos.1)
    case Entries(entries) => if entries != [] then (pos.0, pos.1 + 1) else (pos.0 + 1, 1)
    case BadStatus => (pos.0 + 1, 1)
  }

  /** The stop flag, polled before a request, ends the whole call with exactly the
      reviews gathered so far and no further request, in this region or any later one. */
  lemma StopEndsCall(c: Call, ri: nat, page: nat, acc: Acc, fetched: seq<(nat, nat)>)
    requires c.feed.Bounded() && ri < |c.regions| && 1 <= page <= c.feed.lastPage + 1
    requires c.stop(|fetched|)
    ensures Crawl(c, ri, page, acc, fetched) == Outcome(Cancelled, acc.reviews, acc.cache, fetched)
  {
  }

  /** A bad status or an empty page ends this region only: the walk goes on at page 1 of
      the next region with the state unchanged. */
  lemma FailedPageEndsRegion(c: Call, ri: nat, page: nat, acc: Acc, fetched: seq<(nat, nat)>)
    requires c.feed.Bounded() && ri < |c.regions| && 1 <= page <= c.feed.lastPage + 1
    requires !c.stop(|fetched|)
    requires c.feed.fetch(c.appId, c.regions[ri], page) in {BadStatus, Entries([])}
    ensures Crawl(c, ri, page, acc, fetched) == Crawl(c, ri + 1, 1, acc, fetched + [(ri, page)])
  {
  }

  /** What a traversal from `acc` keeps up to its outcome `o`. */
  ghost predicate Kept(key: string -> string, acc: Acc, o: Outcome) {
    && UniqueIds(o.reviews)
    && AllAccepted(o.cache, key, o.reviews)
    && acc.reviews <= o.reviews
    && MemoKept(key, acc.cache, o.cache)
  }

  /** The invariant holds to the end: unique ids, every text accepted by the memo at the
      end, the reviews gathered before kept as a prefix, the memo only grown. */
  lemma {:induction false} CrawlKeeps(c: Call, ri: nat, page: nat, acc: Acc, fetched: seq<(nat, nat)>)
    requires c.feed.Bounded() && ri <= |c.regions| && 1 <= page <= c.feed.lastPage + 1
    requires Inv(c.key, acc)
    ensures var o := Crawl(c, ri, page, acc, fetched);
      && UniqueIds(o.reviews)
      && AllAccepted(o.cache, c.key, o.reviews)
      && acc.reviews <= o.reviews
      && MemoKept(c.key, acc.cache, o.cache)
    decreases |c.regions| - ri, c.feed.lastPage + 1 - page, 3
  {
    if ri < |c.regions| && !c.stop(|fetched|) {
      CrawlKeepsAfterFetch(c, ri, page, acc, fetched);
    }
  }

  /** The fetching step of `CrawlKeeps`. */
  lemma {:induction false} CrawlKeepsAfterFetch(c: Call, ri: nat, page: nat, acc: Acc, fetched: seq<(nat, nat)>)
    requires c.feed.Bounded() && ri < |c.regions| && 1 <= page <= c.feed.lastPage + 1
    requires !c.stop(|fetched|) && Inv(c.key, acc)
    ensures Kept(c.key, acc, Crawl(c, ri, page, acc, fetched))
    decreases |c.regions| - ri, c.feed.lastPage + 1 - page, 2
  {
    var response := c.feed.fetch(c.appId, c.regions[ri], page);
    if response.BadStatus? || response.entries == [] {
      CrawlStep(c, ri, page, acc, fetched);
      CrawlKeeps(c, ri + 1, 1, acc, fetched + [(ri, page)]);
    } else {
      CrawlKeepsAfterPage(c, ri, page, acc, fetched, response.entries);
    }
  }

  /** The step of `CrawlKeeps` after a non-empty page. */
  lemma {:induction false} CrawlKeepsAfterPage(c: Call, ri: nat, page: nat, acc: Acc, fetched: seq<(nat, nat)>, entries: seq<RawEntry>)
    requires c.feed.Bounded() && ri < |c.regions| && 1 <= page <= c.feed.lastPage + 1
    requires !c.stop(|fetched|) && Inv(c.key, acc)
    requires c.feed.fetch(c.appId, c.regions[ri], page) == Entries(entries) && entries != []
    ensures Kept(c.key, acc, Crawl(c, ri, page, acc, fetched))
    decreases |c.regions| - ri, c.feed.lastPage + 1 - page, 1
  {
    CrawlStep(c, ri, page, acc, fetched);
    PageKeeps(c.key, c.regions[ri], acc, Candidates(entries, page));
    var flow := AdmitAll(c.key, c.regions[ri], acc, Candidates(entries, page));
    if flow.Go? {
      CrawlKeepsNextPage(c, ri, page, acc, fetched, flow.acc);
    }
  }

  /** `CrawlKeeps` carried on from the next page. */
  lemma {:induction false} CrawlKeepsNextPage(c: Call, ri: nat, page: nat, acc: Acc, fetched: seq<(nat, nat)>, acc': Acc)
    requires c.feed.Bounded() && ri < |c.regions| && 1 <= page <= c.feed.lastPage
    requires Crawl(c, ri, page, acc, fetched) == Crawl(c, ri, page + 1, acc', fetched + [(ri, page)])
    requires Inv(c.key, acc') && MemoKept(c.key, acc.cache, acc'.cache) && acc.reviews <= acc'.reviews
    ensures Kept(c.key, acc, Crawl(c, ri, page, acc, fetched))
    decreases |c.regions| - ri, c.feed.lastPage + 1 - page, 0
  {
    CrawlKeeps(c, ri, page + 1, acc', fetched + [(ri, page)]);
    KeptTrans(c.key, acc, acc', Crawl(c, ri, page + 1, acc', fetched + [(ri, page)]));
  }

  /** A state reached by keeping the invariant passes on what it keeps. */
  lemma KeptTrans(key: string -> string, acc: Acc, acc': Acc, o: Outcome)
    requires MemoKept(key, acc.cache, acc'.cache) && acc.reviews <= acc'.reviews && Kept(key, acc', o)
    ensures Kept(key, acc, o)
  {
  }

  /** A page's effect on the invariant: an abort leaves the reviews as they were, still
      accepted by the grown memo; otherwise the new state keeps the invariant and the
      earlier reviews. */
  lemma PageKeeps(key: string -> string, region: string, acc: Acc, candidates: seq<RawEntry>)
    requires Inv(key, acc)
    ensures match AdmitAll(key, region, acc, candidates)
      case Raise(cache) => AllAccepted(cache, key, acc.reviews) && MemoKept(key, acc.cache, cache)
      case Go(acc') => Inv(key, acc') && MemoKept(key, acc.cache, acc'.cache) && acc.reviews <= acc'.reviews
  {
    AdmitAllKeeps(key, region, acc, candidates);
    match AdmitAll(key, region, acc, candidates)
    case Raise(cache) =>
      AcceptedUnderGrowth(acc.cache, cache, key, acc.reviews);
    case Go(_) =>
  }

  /** Reviews come out one block per region, in the order of the regions list. */
  lemma {:induction false} CrawlOrdered(c: Call, ri: nat, page: nat, acc: Acc, fetched: seq<(nat, nat)>)
    requires c.feed.Bounded() && ri <= |c.regions| && 1 <= page <= c.feed.lastPage + 1
    requires RegionOrdered(acc.reviews, c.regions[..if ri < |c.regions| then ri + 1 else ri])
    ensures RegionOrdered(Crawl(c, ri, page, acc, fetched).reviews, c.regions)
    decreases |c.regions| - ri, c.feed.lastPage + 1 - page, 3
  {
    if ri == |c.regions| {
      assert c.regions[..ri] == c.regions;
    } else if c.stop(|fetched|) {
      OrderedToEnd(c, ri, acc.reviews);
    } else {
      CrawlOrderedAfterFetch(c, ri, page, acc, fetched);
    }
  }

  /** The fetching step of `CrawlOrdered`. */
  lemma {:induction false} CrawlOrderedAfterFetch(c: Call, ri: nat, page: nat, acc: Acc, fetched: seq<(nat, nat)>)
    requires c.feed.Bounded() && ri < |c.regions| && 1 <= page <= c.feed.lastPage + 1
    requires !c.stop(|fetched|)
    requires RegionOrdered(acc.reviews, c.regions[..ri + 1])
    ensures RegionOrdered(Crawl(c, ri, page, acc, fetched).reviews, c.regions)
    decreases |c.regions| - ri, c.feed.lastPage + 1 - page, 2
  {
    var response := c.feed.fetch(c.appId, c.regions[ri], page);
    if response.BadStatus? || response.entries == [] {
      CrawlStep(c, ri, page, acc, fetched);
      OrderedNextRegion(c, ri, acc.reviews);
      CrawlOrdered(c, ri + 1, 1, acc, fetched + [(ri, page)]);
    } else {
      CrawlOrderedAfterPage(c, ri, page, acc, fetched, response.entries);
    }
  }

  /** The step of `CrawlOrdered` after a non-empty page. */
  lemma {:induction false} CrawlOrderedAfterPage(c: Call, ri: nat, page: nat, acc: Acc, fetched: seq<(nat, nat)>, entries: seq<RawEntry>)
    requires c.feed.Bounded() && ri < |c.regions| && 1 <= page <= c.feed.lastPage + 1
    requires !c.stop(|fetched|)
    requires c.feed.fetch(c.appId, c.regions[ri], page) == Entries(entries) && entries != []
    requires RegionOrdered(acc.reviews, c.regions[..ri + 1])
    ensures RegionOrdered(Crawl(c, ri, page, acc, fetched).reviews, c.regions)
    decreases |c.regions| - ri, c.feed.lastPage + 1 - page, 1
  {
    var flow := AdmitAll(c.key, c.regions[ri], acc, Candidates(entries, page));
    var o := Crawl(c, ri, page, acc, fetched);
    if flow.Go? {
      var next := Crawl(c, ri, page + 1, flow.acc, fetched + [(ri, page)]);
      assert page <= c.feed.lastPage && o == next by {
        CrawlStep(c, ri, page, acc, fetched);
      }
      assert RegionOrdered(next.reviews, c.regions) by {
        OrderedAfterPage(c, ri, acc, Candidates(entries, page));
        CrawlOrderedNextPage(c, ri, page + 1, flow.acc, fetched + [(ri, page)]);
      }
    } else {
      assert o.reviews == acc.reviews by {
        CrawlStep(c, ri, page, acc, fetched);
      }
      OrderedToEnd(c, ri, acc.reviews);
    }
  }

  /** `CrawlOrdered` carried on from the next page, `next`. */
  lemma {:induction false} CrawlOrderedNextPage(c: Call, ri: nat, next: nat, acc: Acc, fetched: seq<(nat, nat)>)
    requires c.feed.Bounded() && ri < |c.regions| && 2 <= next <= c.feed.lastPage + 1
    requires RegionOrdered(acc.reviews, c.regions[..ri + 1])
    ensures RegionOrdered(Crawl(c, ri, next, acc, fetched).reviews, c.regions)
    decreases |c.regions| - ri, c.feed.lastPage + 2 - next, 0
  {
    CrawlOrdered(c, ri, next, acc, fetched);
  }

  /** Moving on to the next region keeps the reviews ordered. */
  lemma OrderedNextRegion(c: Call, ri: nat, reviews: seq<Review>)
    requires ri < |c.regions| && RegionOrdered(reviews, c.regions[..ri + 1])
    ensures RegionOrdered(reviews, c.regions[..if ri + 1 < |c.regions| then ri + 2 else ri + 1])
  {
    if ri + 1 < |c.regions| {
      OrderedMoreRegions(reviews, c.regions[..ri + 1], [c.regions[ri + 1]]);
      assert c.regions[..ri + 1] + [c.regions[ri + 1]] == c.regions[..ri + 2];
    }
  }

  /** The reviews a page of the current region appends keep the order. */
  lemma OrderedAfterPage(c: Call, ri: nat, acc: Acc, candidates: seq<RawEntry>)
    requires ri < |c.regions| && RegionOrdered(acc.reviews, c.regions[..ri + 1])
    requires AdmitAll(c.key, c.regions[ri], acc, candidates).Go?
    ensures RegionOrdered(AdmitAll(c.key, c.regions[ri], acc, candidates).acc.reviews, c.regions[..ri + 1])
  {
    var idx := AdmitAllAppends(c.key, c.regions[ri], acc, candidates);
    ExtendInLastRegion(acc.reviews, AdmitAll(c.key, c.regions[ri], acc, candidates).acc.reviews, c.regions[..ri + 1]);
  }

  /** Reviews ordered up to the current region are ordered for the whole list. */
  lemma OrderedToEnd(c: Call, ri: nat, reviews: seq<Review>)
    requires ri < |c.regions| && RegionOrdered(reviews, c.regions[..ri + 1])
    ensures RegionOrdered(reviews, c.regions)
  {
    OrderedMoreRegions(reviews, c.regions[..ri + 1], c.regions[ri + 1..]);
    assert c.regions[..ri + 1] + c.regions[ri + 1..] == c.regions;
  }

  /** After a poll that read false, the traversal either aborts on the page just
      requested or goes on from the `Successor` of that request. */
  lemma CrawlAdvance(c: Call, ri: nat, page: nat, acc: Acc, fetched: seq<(nat, nat)>) returns (acc': Acc)
    requires c.feed.Bounded() && ri < |c.regions| && 1 <= page <= c.feed.lastPage + 1
    requires !c.stop(|fetched|)
    ensures var o := Crawl(c, ri, page, acc, fetched);
      var next := Successor(c, (ri, page));
      || (o.ending == Aborted && o.fetched == fetched + [(ri, page)])
      || (&& next.0 <= |c.regions| && 1 <= next.1 <= c.feed.lastPage + 1
          && o == Crawl(c, next.0, next.1, acc', fetched + [(ri, page)]))
  {
    CrawlStep(c, ri, page, acc, fetched);
    var response := c.feed.fetch(c.appId, c.regions[ri], page);
    if response.BadStatus? || response.entries == [] {
      acc' := acc;
    } else {
      var flow := AdmitAll(c.key, c.regions[ri], acc, Candidates(response.entries, page));
      acc' := if flow.Go? then flow.acc else acc;
    }
  }

  /** The requests made: each was preceded by a poll that read false and names a region of
      the list and a page from 1 on; the first is (ri, page). */
  lemma {:induction false} CrawlPolls(c: Call, ri: nat, page: nat, acc: Acc, fetched: seq<(nat, nat)>)
    requires c.feed.Bounded() && ri <= |c.regions| && 1 <= page <= c.feed.lastPage + 1
    ensures var o := Crawl(c, ri, page, acc, fetched);
      && fetched <= o.fetched
      && (|o.fetched| > |fetched| ==> o.fetched[|fetched|] == (ri, page))
      && (forall k :: |fetched| <= k < |o.fetched| ==>
            !c.stop(k) && o.fetched[k].0 < |c.regions| && 1 <= o.fetched[k].1)
      && (o.ending == Cancelled ==> c.stop(|o.fetched|))
    decreases |c.regions| - ri, c.feed.lastPage + 1 - page
  {
    var o := Crawl(c, ri, page, acc, fetched);
    if ri < |c.regions| && !c.stop(|fetched|) {
      var fetched' := fetched + [(ri, page)];
      var next := Successor(c, (ri, page));
      var acc' := CrawlAdvance(c, ri, page, acc, fetched);
      if !(o.ending == Aborted && o.fetched == fetched') {
        CrawlPolls(c, next.0, next.1, acc', fetched');
      }
    }
  }

  /** Each request after the first is the `Successor` of the one before it. */
  lemma {:induction false} CrawlFollows(c: Call, ri: nat, page: nat, acc: Acc, fetched: seq<(nat, nat)>)
    requires c.feed.Bounded() && ri <= |c.regions| && 1 <= page <= c.feed.lastPage + 1
    ensures var o := Crawl(c, ri, page, acc, fetched);
      forall k :: |fetched| <= k && k + 1 < |o.fetched| ==>
        o.fetched[k].0 < |c.regions| && o.fetched[k + 1] == Successor(c, o.fetched[k])
    decreases |c.regions| - ri, c.feed.lastPage + 1 - page
  {
    var o := Crawl(c, ri, page, acc, fetched);
    if ri < |c.regions| && !c.stop(|fetched|) {
      var fetched' := fetched + [(ri, page)];
      var next := Successor(c, (ri, page));
      var acc' := CrawlAdvance(c, ri, page, acc, fetched);
      if !(o.ending == Aborted && o.fetched == fetched') {
        CrawlPolls(c, next.0, next.1, acc', fetched');
        CrawlFollows(c, next.0, next.1, acc', fetched');
        forall k | |fetched| <= k && k + 1 < |o.fetched|
          ensures o.fetched[k].0 < |c.regions| && o.fetched[k + 1] == Successor(c, o.fetched[k])
        {
          if k == |fetched| {
            assert o.fetched[k] == (ri, page);
            assert o.fetched[k + 1] == next;
          }
        }
      }
    }
  }

  /** A walk that ran out of regions did so because its last request sent it past the
      last region (or it had no region left to start with). */
  lemma {:induction false} CrawlExhausts(c: Call, ri: nat, page: nat, acc: Acc, fetched: seq<(nat, nat)>)
    requires c.feed.Bounded() && ri <= |c.regions| && 1 <= page <= c.feed.lastPage + 1
    ensures var o := Crawl(c, ri, page, acc, fetched);
      && (o.ending == Exhausted && |o.fetched| == |fetched| ==> ri == |c.regions|)
      && (o.ending == Exhausted && |o.fetched| > |fetched| ==>
            o.fetched[|o.fetched| - 1].0 < |c.regions| && Successor(c, o.fetched[|o.fetched| - 1]).0 == |c.regions|)
    decreases |c.regions| - ri, c.feed.lastPage + 1 - page
  {
    var o := Crawl(c, ri, page, acc, fetched);
    if ri < |c.regions| && !c.stop(|fetched|) {
      var fetched' := fetched + [(ri, page)];
      var next := Successor(c, (ri, page));
      var acc' := CrawlAdvance(c, ri, page, acc, fetched);
      if !(o.ending == Aborted && o.fetched == fetched') {
        CrawlPolls(c, next.0, next.1, acc', fetched');
        CrawlExhausts(c, next.0, next.1, acc', fetched');
        if o.ending == Exhausted && |o.fetched| == |fetched'| {
          assert o.fetched[|o.fetched| - 1] == (ri, page);
        }
      }
    }
  }

  // ---------------------------------------------------------------------------
  // A whole call

  /** No two returned reviews share an id. */
  lemma CollectNoDuplicates(c: Call, cache: map<string, bool>)
    requires c.feed.Bounded()
    ensures UniqueIds(Collect(c, cache).reviews)
  {
    CrawlKeeps(c, 0, 1, Acc([], {}, cache), []);
  }

  /** Every returned text is non-empty and the memo ends up holding a positive verdict for
      it; with an injective digest and a sound starting memo, every text contains a
      character of `[а-яА-ЯёЁ]` and the memo stays sound. */
  lemma CollectOnlyCyrillic(c: Call, cache: map<string, bool>)
    requires c.feed.Bounded()
    ensures var o := Collect(c, cache);
      && AllAccepted(o.cache, c.key, o.reviews)
      && Extends(cache, o.cache)
      && (Injective(c.key) && Sound(cache, c.key) ==>
            Sound(o.cache, c.key) && forall i :: 0 <= i < |o.reviews| ==> ContainsCyrillic(o.reviews[i].reviewText))
  {
    CrawlKeeps(c, 0, 1, Acc([], {}, cache), []);
  }

  /** Output order is region order: one block per region, each review tagged with a
      region of the list. */
  lemma CollectInRegionOrder(c: Call, cache: map<string, bool>)
    requires c.feed.Bounded()
    ensures RegionOrdered(Collect(c, cache).reviews, c.regions)
    ensures forall i :: 0 <= i < |Collect(c, cache).reviews| ==> Collect(c, cache).reviews[i].region in c.regions
  {
    var start := Acc([], {}, cache);
    if c.regions != [] {
      EmptyOrdered(c.regions[..1]);
    }
    CrawlOrdered(c, 0, 1, start, []);
    OrderedRegionsListed(Collect(c, cache).reviews, c.regions);
  }

  /** The requests of a whole call start at page 1 of the first region and follow
      `Successor`, each after a poll that read false. */
  lemma CollectRequests(c: Call, cache: map<string, bool>)
    requires c.feed.Bounded()
    ensures var o := Collect(c, cache);
      && (o.fetched != [] ==> o.fetched[0] == (0, 1))
      && (forall k :: 0 <= k < |o.fetched| ==>
            && !c.stop(k)
            && o.fetched[k].0 < |c.regions|
            && (k + 1 < |o.fetched| ==> o.fetched[k + 1] == Successor(c, o.fetched[k])))
      && (o.ending == Cancelled ==> c.stop(|o.fetched|))
      && (o.ending == Exhausted && o.fetched != [] ==> Successor(c, o.fetched[|o.fetched| - 1]).0 == |c.regions|)
      && (o.ending == Exhausted && o.fetched == [] ==> c.regions == [])
  {
    CrawlPolls(c, 0, 1, Acc([], {}, cache), []);
    CrawlFollows(c, 0, 1, Acc([], {}, cache), []);
    CrawlExhausts(c, 0, 1, Acc([], {}, cache), []);
  }
}
