/**
 The meaning of one crawl task, as a pure function of the crawler's shared
 state. `RunTask` is one `WebCrawlTask.compute` for a `(url, depth)` pair and
 `RunTasks` runs a list of tasks one after another, which is both how a task
 spawns its children and how `crawl` runs its root tasks. The lemmas below
 say what a run does to the visited set, the word counts and the record of
 parsed pages.
 */
module CrawlSpec {

  type Url = string
  type Word = string
  /** The source text of an ignored-URL regular expression. */
  type Pattern = string

  /** What the page parser returns for a URL: its word counts and its outgoing links. */
  datatype Page = Page(wordCounts: map<Word, int>, links: seq<Url>)

  /**
   The collaborators a crawl task consults: the page parser, the clock (the
   instant returned by its n-th reading), the ignored-URL patterns and the
   full-string matcher for one pattern.
   */
  datatype Env = Env(
    parse: Url -> Page,
    clock: nat -> int,
    ignoredUrls: seq<Pattern>,
    matches: (Pattern, Url) -> bool)

  /**
   The shared state of a crawler: the visited set, the word-count table, the
   number of clock readings taken so far, and the URLs handed to the parser,
   in order.
   */
  datatype State = State(visited: set<Url>, counts: map<Word, int>, ticks: nat, parsed: seq<Url>)

  /** The state of a crawler that has not crawled anything yet. */
  const Origin := State({}, map[], 0, [])

  /** Occurrences of `w` recorded in `m`; an absent word counts as 0. */
  function CountOf(m: map<Word, int>, w: Word): int {
    if w in m then m[w] else 0
  }

  /** `url` fully matches at least one ignored pattern. */
  ghost predicate Ignored(env: Env, url: Url) {
    exists i :: 0 <= i < |env.ignoredUrls| && env.matches(env.ignoredUrls[i], url)
  }

  /** The table after adding the word counts of one page (see `MergeAddsPage`). */
  function Merge(counts: map<Word, int>, page: map<Word, int>): map<Word, int> {
    map w | w in counts.Keys + page.Keys :: CountOf(counts, w) + CountOf(page, w)
  }

  /**
   Merging a page: every word of the page gets its old count (0 when absent)
   plus the page's count; every other word keeps its count, and no word is
   removed or invented.
   */
  lemma MergeAddsPage(counts: map<Word, int>, page: map<Word, int>)
    ensures Merge(counts, page).Keys == counts.Keys + page.Keys
    ensures forall w :: w in page ==> Merge(counts, page)[w] == CountOf(counts, w) + page[w]
    ensures forall w :: w in counts && w !in page ==> Merge(counts, page)[w] == counts[w]
  {
  }

  /** Merging one more word of a page adds that word's count to the table built so far. */
  lemma MergeOneMore(counts: map<Word, int>, page: map<Word, int>, remaining: set<Word>, w: Word)
    requires w in remaining && remaining <= page.Keys
    ensures var m := Merge(counts, page - remaining);
      Merge(counts, page - (remaining - {w})) == m[w := CountOf(m, w) + page[w]]
  {
    var m := Merge(counts, page - remaining);
    var m' := Merge(counts, page - (remaining - {w}));
    assert m'.Keys == m[w := CountOf(m, w) + page[w]].Keys;
  }

  /** The table after merging the pages of `urls`, in order, into `counts`. */
  function Accumulate(parse: Url -> Page, counts: map<Word, int>, urls: seq<Url>): map<Word, int>
    decreases |urls|
  {
    if urls == [] then counts
    else Merge(Accumulate(parse, counts, urls[..|urls| - 1]), parse(urls[|urls| - 1]).wordCounts)
  }

  /** The total number of occurrences of `w` over the pages of `urls`. */
  function TotalCount(parse: Url -> Page, urls: seq<Url>, w: Word): int
    decreases |urls|
  {
    if urls == [] then 0
    else TotalCount(parse, urls[..|urls| - 1], w) + CountOf(parse(urls[|urls| - 1]).wordCounts, w)
  }

  /** `v` can be reached from `u` by following at most `k` links. */
  ghost predicate Within(parse: Url -> Page, u: Url, v: Url, k: nat)
    decreases k
  {
    u == v ||
    (k > 0 && exists j :: 0 <= j < |parse(u).links| && Within(parse, parse(u).links[j], v, k - 1))
  }

  /** `v` can be reached from one of `startingUrls` by following at most `k` links. */
  ghost predicate NearStart(parse: Url -> Page, startingUrls: seq<Url>, v: Url, k: int) {
    exists j :: 0 <= j < |startingUrls| && Within(parse, startingUrls[j], v, if k < 0 then 0 else k)
  }

  /** Every URL of `after` that is not in `before` is within `k` links of one of `startingUrls`. */
  ghost predicate OnlyNearStarts(parse: Url -> Page, before: set<Url>, after: set<Url>, startingUrls: seq<Url>, k: int) {
    forall v :: v in after && v !in before ==> NearStart(parse, startingUrls, v, k)
  }

  /**
   One crawl task for `url` with `depth` hops left, against `deadline`. The
   checks come in the source's order: depth exhausted (the clock is not even
   read), deadline strictly passed, URL ignored, URL already visited. On the
   proceed path the URL is claimed, its page parsed and merged, and one child
   task per link runs at `depth - 1`.
   */
  ghost function RunTask(env: Env, deadline: int, s: State, url: Url, depth: nat): State
    decreases depth, 0
  {
    if depth == 0 then s
    else
      var s1 := s.(ticks := s.ticks + 1);
      if env.clock(s.ticks) > deadline then s1
      else if Ignored(env, url) then s1
      else if url in s.visited then s1
      else
        RunTasks(env, deadline, Claim(env, s1, url), env.parse(url).links, depth - 1)
  }

  /**
   The state right after a task claims `url`, before any of its children
   run: `url` is visited and parsed, and its page's word counts are merged
   into the table.
   */
  function Claim(env: Env, s: State, url: Url): State {
    s.(visited := s.visited + {url},
       parsed := s.parsed + [url],
       counts := Merge(s.counts, env.parse(url).wordCounts))
  }

  /**
   The tasks `(links[0], depth)`, `(links[1], depth)`, ... run one after
   another.
   */
  ghost function RunTasks(env: Env, deadline: int, s: State, links: seq<Url>, depth: nat): State
    decreases depth, 1, |links|
  {
    if links == [] then s
    else RunTask(env, deadline, RunTasks(env, deadline, s, links[..|links| - 1], depth), links[|links| - 1], depth)
  }

  /** `s` and `r` are `added` apart: `r` claimed and parsed exactly the distinct, previously unvisited URLs of `added`. */
  ghost predicate Extends(parse: Url -> Page, s: State, added: seq<Url>, r: State) {
    && r.parsed == s.parsed + added
    && (forall i, j :: 0 <= i < j < |added| ==> added[i] != added[j])
    && (forall i :: 0 <= i < |added| ==> added[i] !in s.visited)
    && r.visited == s.visited + (set u | u in added)
    && r.counts == Accumulate(parse, s.counts, added)
    && s.ticks <= r.ticks
  }

  /** `r` is a later state of the same crawl as `s`. */
  ghost predicate Logged(parse: Url -> Page, s: State, r: State) {
    |s.parsed| <= |r.parsed| && Extends(parse, s, r.parsed[|s.parsed|..], r)
  }

  /**
   The crawler invariant: no URL was parsed twice, the visited set holds
   exactly the parsed URLs, and the table is the merge of their pages.
   */
  ghost predicate Consistent(parse: Url -> Page, s: State) {
    Extends(parse, Origin, s.parsed, s)
  }

  lemma {:induction false} AccumulateAppend(parse: Url -> Page, counts: map<Word, int>, a: seq<Url>, b: seq<Url>)
    ensures Accumulate(parse, counts, a + b) == Accumulate(parse, Accumulate(parse, counts, a), b)
    decreases |b|
  {
    if b == [] {
      assert a + b == a;
    } else {
      var b' := b[..|b| - 1];
      assert (a + b)[..|a + b| - 1] == a + b';
      AccumulateAppend(parse, counts, a, b');
    }
  }

  /** A state that only read the clock is a later state of the same crawl. */
  lemma LoggedStill(parse: Url -> Page, s: State, r: State)
    requires r.visited == s.visited && r.counts == s.counts && r.parsed == s.parsed && s.ticks <= r.ticks
    ensures Logged(parse, s, r)
  {
    assert r.parsed[|s.parsed|..] == [];
    assert s.parsed + [] == s.parsed;
  }

  lemma LoggedTrans(parse: Url -> Page, s: State, m: State, r: State)
    requires Logged(parse, s, m) && Logged(parse, m, r)
    ensures Logged(parse, s, r)
  {
    var f1 := m.parsed[|s.parsed|..];
    var f2 := r.parsed[|m.parsed|..];
    ExtendsTrans(parse, s, f1, m, f2, r);
    assert r.parsed[|s.parsed|..] == f1 + f2;
  }

  lemma ExtendsTrans(parse: Url -> Page, s: State, f1: seq<Url>, m: State, f2: seq<Url>, r: State)
    requires Extends(parse, s, f1, m) && Extends(parse, m, f2, r)
    ensures Extends(parse, s, f1 + f2, r)
  {
    var f := f1 + f2;
    assert r.parsed == s.parsed + f;
    assert (forall i, j :: 0 <= i < j < |f| ==> f[i] != f[j]) && (forall i :: 0 <= i < |f| ==> f[i] !in s.visited) by {
      DistinctAppend(f1, f2, s.visited, m.visited);
    }
    assert r.visited == s.visited + (set u | u in f) by {
      assert (set u | u in f) == (set u | u in f1) + (set u | u in f2);
    }
    assert r.counts == Accumulate(parse, s.counts, f) by {
      AccumulateAppend(parse, s.counts, f1, f2);
    }
  }

  /** Two runs of fresh claims, the second avoiding what the first claimed, are together a run of fresh claims. */
  lemma DistinctAppend(f1: seq<Url>, f2: seq<Url>, v1: set<Url>, v2: set<Url>)
    requires forall i, j :: 0 <= i < j < |f1| ==> f1[i] != f1[j]
    requires forall i, j :: 0 <= i < j < |f2| ==> f2[i] != f2[j]
    requires forall i :: 0 <= i < |f1| ==> f1[i] !in v1
    requires forall i :: 0 <= i < |f2| ==> f2[i] !in v2
    requires v2 == v1 + (set u | u in f1)
    ensures forall i, j :: 0 <= i < j < |f1 + f2| ==> (f1 + f2)[i] != (f1 + f2)[j]
    ensures forall i :: 0 <= i < |f1 + f2| ==> (f1 + f2)[i] !in v1
  {
    var f := f1 + f2;
    forall i, j | 0 <= i < j < |f| ensures f[i] != f[j] {
      if i < |f1| && j >= |f1| {
        assert f[i] in v2;
        assert f[j] == f2[j - |f1|];
      } else if i >= |f1| {
        assert f[i] == f2[i - |f1|] && f[j] == f2[j - |f1|];
      }
    }
    forall i | 0 <= i < |f| ensures f[i] !in v1 {
      if i >= |f1| {
        assert f[i] == f2[i - |f1|];
      }
    }
  }

  lemma ConsistentKept(parse: Url -> Page, s: State, r: State)
    requires Consistent(parse, s) && Logged(parse, s, r)
    ensures Consistent(parse, r)
  {
    assert Logged(parse, Origin, s) by {
      assert s.parsed[|Origin.parsed|..] == s.parsed;
    }
    LoggedTrans(parse, Origin, s, r);
    assert r.parsed[|Origin.parsed|..] == r.parsed;
  }

  /** Claiming an unvisited URL records exactly that URL and its page. */
  lemma ClaimLogged(env: Env, s: State, url: Url)
    requires url !in s.visited
    ensures Logged(env.parse, s, Claim(env, s.(ticks := s.ticks + 1), url))
  {
    var s2 := Claim(env, s.(ticks := s.ticks + 1), url);
    assert s2.parsed[|s.parsed|..] == [url];
    assert [url][..0] == [];
    assert s2.visited == s.visited + (set u | u in [url]);
    assert Accumulate(env.parse, s.counts, [url]) == Merge(Accumulate(env.parse, s.counts, []), env.parse(url).wordCounts);
    assert Extends(env.parse, s, [url], s2);
  }

  /**
   A task records every page it parses: afterwards the parse record has grown
   by distinct URLs that were not visited before, the visited set by exactly
   those URLs, and the table by exactly their pages.
   */
  lemma {:induction false} RunTaskLogged(env: Env, deadline: int, s: State, url: Url, depth: nat)
    ensures Logged(env.parse, s, RunTask(env, deadline, s, url, depth))
    decreases depth, 0
  {
    var r := RunTask(env, deadline, s, url, depth);
    if depth == 0 {
      LoggedStill(env.parse, s, r);
    } else if env.clock(s.ticks) > deadline || Ignored(env, url) || url in s.visited {
      LoggedStill(env.parse, s, r);
    } else {
      var s2 := Claim(env, s.(ticks := s.ticks + 1), url);
      ClaimLogged(env, s, url);
      RunTasksLogged(env, deadline, s2, env.parse(url).links, depth - 1);
      LoggedTrans(env.parse, s, s2, r);
    }
  }

  lemma {:induction false} RunTasksLogged(env: Env, deadline: int, s: State, links: seq<Url>, depth: nat)
    ensures Logged(env.parse, s, RunTasks(env, deadline, s, links, depth))
    decreases depth, 1, |links|
  {
    if links == [] {
      LoggedStill(env.parse, s, s);
    } else {
      var m := RunTasks(env, deadline, s, links[..|links| - 1], depth);
      RunTasksLogged(env, deadline, s, links[..|links| - 1], depth);
      RunTaskLogged(env, deadline, m, links[|links| - 1], depth);
      LoggedTrans(env.parse, s, m, RunTasks(env, deadline, s, links, depth));
    }
  }

  /** A task keeps the crawler invariant, so within one crawler each URL is parsed at most once. */
  lemma RunTaskConsistent(env: Env, deadline: int, s: State, url: Url, depth: nat)
    requires Consistent(env.parse, s)
    ensures Consistent(env.parse, RunTask(env, deadline, s, url, depth))
  {
    RunTaskLogged(env, deadline, s, url, depth);
    ConsistentKept(env.parse, s, RunTask(env, deadline, s, url, depth));
  }

  lemma RunTasksConsistent(env: Env, deadline: int, s: State, links: seq<Url>, depth: nat)
    requires Consistent(env.parse, s)
    ensures Consistent(env.parse, RunTasks(env, deadline, s, links, depth))
  {
    RunTasksLogged(env, deadline, s, links, depth);
    ConsistentKept(env.parse, s, RunTasks(env, deadline, s, links, depth));
  }

  /**
   The table after merging a list of pages holds, for every word, its old
   count plus its total over those pages, and it holds exactly the words
   that were there before or occur on one of those pages.
   */
  lemma {:induction false} AccumulateCounts(parse: Url -> Page, counts: map<Word, int>, urls: seq<Url>, w: Word)
    ensures CountOf(Accumulate(parse, counts, urls), w) == CountOf(counts, w) + TotalCount(parse, urls, w)
    ensures w in Accumulate(parse, counts, urls) <==>
      w in counts || exists i :: 0 <= i < |urls| && w in parse(urls[i]).wordCounts
    decreases |urls|
  {
    if urls != [] {
      var init := urls[..|urls| - 1];
      AccumulateCounts(parse, counts, init, w);
      assert forall i :: 0 <= i < |init| ==> init[i] == urls[i];
      if w in Accumulate(parse, counts, urls) && w !in counts && w !in parse(urls[|urls| - 1]).wordCounts {
        var i :| 0 <= i < |init| && w in parse(init[i]).wordCounts;
        assert w in parse(urls[i]).wordCounts;
      }
    }
  }

  /**
   In a consistent state the count of every word is exactly its total over
   the pages parsed so far, and a word is in the table exactly when one of
   those pages contains it. No update is lost and none is counted twice.
   */
  lemma CountsAreTotals(parse: Url -> Page, s: State, w: Word)
    requires Consistent(parse, s)
    ensures CountOf(s.counts, w) == TotalCount(parse, s.parsed, w)
    ensures w in s.counts <==> exists i :: 0 <= i < |s.parsed| && w in parse(s.parsed[i]).wordCounts
  {
    AccumulateCounts(parse, map[], s.parsed, w);
  }

  /**
   Every child task runs with exactly one hop less, so a task only adds to
   the visited set, and every URL it adds is within `depth - 1` links of
   `url` (none at all when `depth` is 0).
   */
  lemma {:induction false} RunTaskReach(env: Env, deadline: int, s: State, url: Url, depth: nat)
    ensures s.visited <= RunTask(env, deadline, s, url, depth).visited
    ensures forall v :: v in RunTask(env, deadline, s, url, depth).visited && v !in s.visited ==>
      depth >= 1 && Within(env.parse, url, v, depth - 1)
    decreases depth, 0
  {
    if depth > 0 && env.clock(s.ticks) <= deadline && !Ignored(env, url) && url !in s.visited {
      var links := env.parse(url).links;
      RunTasksReach(env, deadline, Claim(env, s.(ticks := s.ticks + 1), url), links, depth - 1);
      var r := RunTask(env, deadline, s, url, depth);
      forall v | v in r.visited && v !in s.visited ensures Within(env.parse, url, v, depth - 1) {
        if v != url {
          var j :| 0 <= j < |links| && Within(env.parse, links[j], v, depth - 2);
        }
      }
    }
  }

  /** Tasks run at `depth` only add URLs within `depth - 1` links of one of `links`. */
  lemma {:induction false} RunTasksReach(env: Env, deadline: int, s: State, links: seq<Url>, depth: nat)
    ensures s.visited <= RunTasks(env, deadline, s, links, depth).visited
    ensures forall v :: v in RunTasks(env, deadline, s, links, depth).visited && v !in s.visited ==>
      depth >= 1 && exists j :: 0 <= j < |links| && Within(env.parse, links[j], v, depth - 1)
    decreases depth, 1, |links|
  {
    if links != [] {
      var init := links[..|links| - 1];
      var m := RunTasks(env, deadline, s, init, depth);
      RunTasksReach(env, deadline, s, init, depth);
      RunTaskReach(env, deadline, m, links[|links| - 1], depth);
      forall v | v in RunTasks(env, deadline, s, links, depth).visited && v !in s.visited
        ensures exists j :: 0 <= j < |links| && Within(env.parse, links[j], v, depth - 1)
      {
        if v in m.visited {
          var j :| 0 <= j < |init| && Within(env.parse, init[j], v, depth - 1);
          assert init[j] == links[j];
        } else {
          assert Within(env.parse, links[|links| - 1], v, depth - 1);
        }
      }
    }
  }

  /**
   The guards of a task, in order. Depth 0 changes nothing, not even the
   clock; a strictly passed deadline, an ignored URL or an already visited
   URL only cost the clock reading. Otherwise, and in particular at an
   instant equal to the deadline, a crawl task claims the URL (parsing it before
   any other URL) and then runs one child per link with one hop less.
   */
  lemma RunTaskGuards(env: Env, deadline: int, s: State, url: Url, depth: nat)
    ensures depth == 0 ==> RunTask(env, deadline, s, url, depth) == s
    ensures depth > 0 && (env.clock(s.ticks) > deadline || Ignored(env, url) || url in s.visited) ==>
      RunTask(env, deadline, s, url, depth) == s.(ticks := s.ticks + 1)
    ensures depth > 0 && env.clock(s.ticks) <= deadline && !Ignored(env, url) && url !in s.visited ==>
      && RunTask(env, deadline, s, url, depth) ==
           RunTasks(env, deadline, Claim(env, s.(ticks := s.ticks + 1), url), env.parse(url).links, depth - 1)
      && var r := RunTask(env, deadline, s, url, depth);
         r.visited >= s.visited + {url} && |r.parsed| > |s.parsed| && r.parsed[|s.parsed|] == url
  {
    if depth > 0 && env.clock(s.ticks) <= deadline && !Ignored(env, url) && url !in s.visited {
      RunTasksLogged(env, deadline, Claim(env, s.(ticks := s.ticks + 1), url), env.parse(url).links, depth - 1);
    }
  }

  /**
   Tasks created with no hops left do nothing at all: in particular a crawl
   with `maxDepth` 0 visits no URL, parses nothing and counts no word.
   */
  lemma {:induction false} RunTasksAtDepthZero(env: Env, deadline: int, s: State, links: seq<Url>)
    ensures RunTasks(env, deadline, s, links, 0) == s
    decreases |links|
  {
    if links != [] {
      RunTasksAtDepthZero(env, deadline, s, links[..|links| - 1]);
    }
  }

  /**
   What the root tasks of one crawl leave behind: the crawler invariant still
   holds; with `maxDepth` 0 nothing changed at all; and every URL the crawl
   added is within `maxDepth - 1` links of a starting URL.
   */
  lemma RootTasks(env: Env, deadline: int, s: State, startingUrls: seq<Url>, maxDepth: nat)
    requires Consistent(env.parse, s)
    ensures Consistent(env.parse, RunTasks(env, deadline, s, startingUrls, maxDepth))
    ensures maxDepth == 0 ==> RunTasks(env, deadline, s, startingUrls, maxDepth) == s
    ensures OnlyNearStarts(env.parse, s.visited, RunTasks(env, deadline, s, startingUrls, maxDepth).visited, startingUrls, maxDepth - 1)
  {
    RunTasksConsistent(env, deadline, s, startingUrls, maxDepth);
    RunTasksAtDepthZero(env, deadline, s, startingUrls);
    RunTasksReach(env, deadline, s, startingUrls, maxDepth);
  }
}
