/**
 The crawler object: its configuration, the visited set and word-count table
 it updates in place, and the crawl task run as a recursive method. Child
 tasks run one after another in link order; every method is proved to leave
 the shared state exactly as `CrawlSpec.RunTask` says.
 */
module ParallelWebCrawler {
  import opened CrawlSpec

  /**
   The worker-pool size: the configured thread count, capped by the number of
   available processors, and never more than either.
   */
  function PoolParallelism(threadCount: int, availableProcessors: int): (p: int)
    ensures p <= threadCount && p <= availableProcessors
    ensures p == threadCount || p == availableProcessors
  {
    if threadCount <= availableProcessors then threadCount else availableProcessors
  }

  class ParallelWebCrawler {
    // configuration, fixed at construction
    const clock: nat -> int
    const parserFactory: Url -> Page
    const timeout: int
    const popularWordCount: int
    const maxDepth: int
    const ignoredUrls: seq<Pattern>
    const matches: (Pattern, Url) -> bool
    /** The top-N reduction of a word-count table; its ordering is not part of this model. */
    const sort: (map<Word, int>, int) -> map<Word, int>
    const parallelism: int

    // shared crawl state, updated in place and never reset between crawls
    var wordCountMap: map<Word, int>
    var visitedUrlSet: set<Url>
    var crawlDeadline: int
    /** How many times the clock has been read. */
    var clockReads: nat
    /** The URLs handed to the parser so far, in order. */
    ghost var parsed: seq<Url>

    /** The collaborators as the specification sees them. */
    function Collaborators(): Env {
      Env(parserFactory, clock, ignoredUrls, matches)
    }

    ghost function Shared(): State
      reads this
    {
      State(visitedUrlSet, wordCountMap, clockReads, parsed)
    }

    /**
     The depth limit is not negative and the shared state is consistent (see
     `CrawlSpec.Consistent`). A crawler with depth limit 0 never visits
     anything, so its visited set and table stay empty for good.
     */
    ghost predicate Valid()
      reads this
    {
      && maxDepth >= 0
      && Consistent(parserFactory, Shared())
      && (maxDepth == 0 ==> visitedUrlSet == {} && wordCountMap == map[])
    }

    constructor (clock: nat -> int, parserFactory: Url -> Page, timeout: int, popularWordCount: int,
                 maxDepth: int, ignoredUrls: seq<Pattern>, matches: (Pattern, Url) -> bool,
                 sort: (map<Word, int>, int) -> map<Word, int>, threadCount: int, availableProcessors: int)
      requires maxDepth >= 0
      requires threadCount >= 1 && availableProcessors >= 1
      ensures Valid() && Shared() == Origin
      ensures this.clock == clock && this.parserFactory == parserFactory && this.timeout == timeout
      ensures this.popularWordCount == popularWordCount && this.maxDepth == maxDepth
      ensures this.ignoredUrls == ignoredUrls && this.matches == matches && this.sort == sort
      ensures parallelism == PoolParallelism(threadCount, availableProcessors) && parallelism >= 1
    {
      this.clock := clock;
      this.parserFactory := parserFactory;
      this.timeout := timeout;
      this.popularWordCount := popularWordCount;
      this.maxDepth := maxDepth;
      this.ignoredUrls := ignoredUrls;
      this.matches := matches;
      this.sort := sort;
      this.parallelism := PoolParallelism(threadCount, availableProcessors);
      wordCountMap := map[];
      visitedUrlSet := {};
      crawlDeadline := 0;
      clockReads := 0;
      parsed := [];
    }

    /**
     Runs one root task per starting URL at `maxDepth` after fixing the
     deadline one timeout after the current instant. Returns the table as it
     is when it is empty and its top-N reduction otherwise, with the size of
     the visited set as the number of URLs visited.
     */
    method Crawl(startingUrls: seq<Url>) returns (wordCounts: map<Word, int>, urlsVisited: int)
      requires Valid()
      modifies this`wordCountMap, this`visitedUrlSet, this`clockReads, this`parsed, this`crawlDeadline
      ensures Valid()
      ensures crawlDeadline == clock(old(clockReads)) + timeout
      ensures Shared() ==
        RunTasks(Collaborators(), crawlDeadline, old(Shared()).(ticks := old(clockReads) + 1), startingUrls, maxDepth)
      ensures urlsVisited == |visitedUrlSet|
      ensures wordCounts == if wordCountMap == map[] then wordCountMap else sort(wordCountMap, popularWordCount)
      ensures maxDepth == 0 ==> visitedUrlSet == old(visitedUrlSet) && wordCountMap == old(wordCountMap)
      ensures maxDepth == 0 ==> urlsVisited == 0 && wordCounts == map[]
      ensures OnlyNearStarts(parserFactory, old(visitedUrlSet), visitedUrlSet, startingUrls, maxDepth - 1)
    {
      crawlDeadline := clock(clockReads) + timeout;
      clockReads := clockReads + 1;
      ghost var s0 := Shared();
      assert s0 == old(Shared()).(ticks := old(clockReads) + 1);
      for i := 0 to |startingUrls|
        invariant crawlDeadline == clock(old(clockReads)) + timeout
        invariant Shared() == RunTasks(Collaborators(), crawlDeadline, s0, startingUrls[..i], maxDepth)
      {
        Compute(startingUrls[i], maxDepth);
        assert startingUrls[..i + 1][..i] == startingUrls[..i];
      }
      assert startingUrls[..|startingUrls|] == startingUrls;
      ghost var r := Shared();
      assert r == RunTasks(Collaborators(), crawlDeadline, s0, startingUrls, maxDepth);
      RootTasks(Collaborators(), crawlDeadline, s0, startingUrls, maxDepth);
      if wordCountMap == map[] {
        wordCounts := wordCountMap;
      } else {
        wordCounts := sort(wordCountMap, popularWordCount);
      }
      urlsVisited := |visitedUrlSet|;
    }

    /**
     One crawl task (`WebCrawlTask.compute`): stop when no hops are left,
     when the clock reads strictly after the deadline, when the URL is
     ignored or already visited; otherwise visit it.
     */
    method Compute(url: Url, depth: int)
      requires depth >= 0
      modifies this`wordCountMap, this`visitedUrlSet, this`clockReads, this`parsed
      ensures Shared() == RunTask(Collaborators(), crawlDeadline, old(Shared()), url, depth)
      decreases depth, 1
    {
      if depth == 0 {
        return;
      }
      var now := clock(clockReads);
      clockReads := clockReads + 1;
      if now > crawlDeadline {
        return;
      }
      var ignored := IsIgnored(url);
      if ignored {
        return;
      }
      if url in visitedUrlSet {
        return;
      }
      Visit(url, depth);
    }

    /**
     The proceed path of a crawl task: mark `url` visited, parse its page,
     merge the page's word counts, then crawl every link with one hop less,
     in link order.
     */
    method Visit(url: Url, depth: int)
      requires depth >= 1
      modifies this`wordCountMap, this`visitedUrlSet, this`clockReads, this`parsed
      ensures Shared() ==
        RunTasks(Collaborators(), crawlDeadline, Claim(Collaborators(), old(Shared()), url), parserFactory(url).links, depth - 1)
      decreases depth, 0
    {
      visitedUrlSet := visitedUrlSet + {url};
      var page := parserFactory(url);
      parsed := parsed + [url];
      MergeWordCounts(page.wordCounts);
      ghost var s2 := Shared();
      var i := 0;
      while i < |page.links|
        invariant 0 <= i <= |page.links|
        invariant Shared() == RunTasks(Collaborators(), crawlDeadline, s2, page.links[..i], depth - 1)
      {
        Compute(page.links[i], depth - 1);
        assert page.links[..i + 1][..i] == page.links[..i];
        i := i + 1;
      }
      assert page.links[..i] == page.links;
    }

    /** Whether `url` fully matches one of the ignored patterns, tried in order. */
    method IsIgnored(url: Url) returns (ignored: bool)
      ensures ignored <==> Ignored(Collaborators(), url)
    {
      for i := 0 to |ignoredUrls|
        invariant forall k :: 0 <= k < i ==> !matches(ignoredUrls[k], url)
      {
        if matches(ignoredUrls[i], url) {
          return true;
        }
      }
      return false;
    }

    /**
     Adds every entry of a page's word counts to the shared table, one word
     at a time: an absent word gets the page's count, a present one the sum.
     */
    method MergeWordCounts(page: map<Word, int>)
      modifies this`wordCountMap
      ensures wordCountMap == Merge(old(wordCountMap), page)
    {
      var remaining := page.Keys;
      while remaining != {}
        invariant remaining <= page.Keys
        invariant wordCountMap == Merge(old(wordCountMap), page - remaining)
        decreases remaining
      {
        var w :| w in remaining;
        var count := page[w];
        ghost var before := wordCountMap;
        wordCountMap := wordCountMap[w := if w in wordCountMap then wordCountMap[w] + count else count];
        MergeOneMore(old(wordCountMap), page, remaining, w);
        remaining := remaining - {w};
      }
      assert page - {} == page;
    }
  }
}
