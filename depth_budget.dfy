/**
 A URL is claimed for good by the first task that reaches it, whatever the
 number of hops that task had left. When a URL is first reached late in a
 long branch, its own links are crawled with only the few hops that branch
 had left; a later task that reaches it with more hops left stops at the
 visited check. Pages within `maxDepth - 1` links of a starting URL can then
 be missed, and which ones depends on the order the tasks run in.

 `MissedWithinDepth` shows a page missed on the model as written, and
 `FoundInOtherOrder` shows the same page found when the links come in the
 other order. The corrected crawl below remembers, for every visited URL,
 the most hops it was crawled with, and crawls its links again when a task
 reaches it with more; when no deadline or pattern stops
 it, `FixedCrawlExact` proves that it visits exactly the pages within
 `maxDepth - 1` links of a starting URL, whatever the order.
 */
module DepthBudget {
  import opened CrawlSpec

  /** A four-page site: S links to A and B, A links to B, B links to C. */
  function ExampleSite(u: Url): Page {
    if u == "S" then Page(map[], ["A", "B"])
    else if u == "A" then Page(map[], ["B"])
    else if u == "B" then Page(map[], ["C"])
    else Page(map[], [])
  }

  /** The example site, a clock stuck at instant 0 and no ignored patterns. */
  function ExampleEnv(): Env {
    Env(ExampleSite, (t: nat) => 0, [], (p: Pattern, u: Url) => false)
  }

  /**
   A crawl of the example site from S with `maxDepth` 3 and deadline 0:
   nothing is ignored and the deadline never passes, and C is two links
   from S, yet C is never visited. A reaches B with one hop left, so B's
   link to C gets none; S's own link to B comes second and finds B visited.
   */
  lemma MissedWithinDepth()
    ensures forall t: nat :: ExampleEnv().clock(t) <= 0
    ensures forall u :: !Ignored(ExampleEnv(), u)
    ensures Within(ExampleEnv().parse, "S", "C", 2)
    ensures "C" !in RunTasks(ExampleEnv(), 0, Origin, ["S"], 3).visited
  {
    ExampleNear();
    ExampleFromS();
    forall u
      ensures !Ignored(ExampleEnv(), u)
    {
      assert |ExampleEnv().ignoredUrls| == 0;
    }
  }

  /** The whole example crawl: S, A and B are claimed, in that order, after four clock readings. */
  lemma ExampleFromS()
    ensures RunTasks(ExampleEnv(), 0, Origin, ["S"], 3) == ExampleAfterB().(ticks := 4)
  {
    var env := ExampleEnv();
    ExampleLinksOfS();
    assert !Ignored(env, "S");
    assert RunTask(env, 0, Origin, "S", 3) == ExampleAfterB().(ticks := 4);
    assert ["S"][..0] == [];
  }

  /** S's links A and B, both with two hops left: the crawl task for B finds B visited. */
  lemma ExampleLinksOfS()
    ensures RunTasks(ExampleEnv(), 0, Claim(ExampleEnv(), Origin.(ticks := 1), "S"), ["A", "B"], 2)
         == ExampleAfterB().(ticks := 4)
  {
    var env := ExampleEnv();
    ExampleAfterA();
    var s3 := ExampleAfterB();
    assert !Ignored(env, "B");
    assert RunTask(env, 0, s3, "B", 2) == s3.(ticks := 4);
    assert ["A", "B"][..1] == ["A"];
  }

  /** In the example site C is two links from S, through B. */
  lemma ExampleNear()
    ensures Within(ExampleEnv().parse, "S", "C", 2)
  {
    var parse := ExampleEnv().parse;
    assert parse("S").links[1] == "B";
    assert Within(parse, "B", "C", 1) by {
      assert parse("B").links[0] == "C";
    }
  }

  /** The example crawl once S, A and B have been claimed, in that order. */
  ghost function ExampleAfterB(): (s: State)
    ensures s.visited == {"S", "A", "B"}
  {
    var env := ExampleEnv();
    var s1 := Claim(env, Origin.(ticks := 1), "S");
    var s2 := Claim(env, s1.(ticks := 2), "A");
    Claim(env, s2.(ticks := 3), "B")
  }

  /**
   In the example crawl, S's first link A (two hops left) claims B with one
   hop left, and B's link to C then has none.
   */
  lemma ExampleAfterA()
    ensures RunTasks(ExampleEnv(), 0, Claim(ExampleEnv(), Origin.(ticks := 1), "S"), ["A"], 2) == ExampleAfterB()
  {
    var env := ExampleEnv();
    assert !Ignored(env, "A") && !Ignored(env, "B");
    var s1 := Claim(env, Origin.(ticks := 1), "S");
    var s2 := Claim(env, s1.(ticks := 2), "A");
    var s3 := ExampleAfterB();
    assert RunTask(env, 0, s3, "C", 0) == s3;
    assert RunTasks(env, 0, s3, ["C"], 0) == s3 by {
      assert ["C"][..0] == [];
    }
    assert RunTask(env, 0, s2, "B", 1) == s3;
    assert RunTasks(env, 0, s2, ["B"], 1) == s3 by {
      assert ["B"][..0] == [];
    }
    assert RunTask(env, 0, s1, "A", 2) == s3;
    assert RunTasks(env, 0, s1, ["A"], 2) == s3 by {
      assert ["A"][..0] == [];
    }
  }

  /**
   The shared state of the corrected crawler: for every visited URL the most
   hops it has been crawled with (its keys are the visited set), the word
   counts, the clock readings and the URLs parsed so far.
   */
  datatype BudgetState = BudgetState(budget: map<Url, nat>, counts: map<Word, int>, ticks: nat, parsed: seq<Url>)

  const Fresh := BudgetState(map[], map[], 0, [])

  /**
   The corrected crawl task: the same checks in the same order, except that
   a visited URL stops a crawl task only when it was crawled with at least as
   many hops as this task has. The parse log and the table are extended only
   on a URL's first visit; a later, longer visit takes the URL's links from
   the same parse function again (a program would keep each page's links
   from the first visit). Only the visited set of this variant is proved
   about, not its log or its table.
   */
  ghost function RunTaskFixed(env: Env, deadline: int, s: BudgetState, url: Url, depth: nat): BudgetState
    decreases depth, 0
  {
    if depth == 0 then s
    else
      var s1 := s.(ticks := s.ticks + 1);
      if env.clock(s.ticks) > deadline then s1
      else if Ignored(env, url) then s1
      else if url in s.budget && s.budget[url] >= depth then s1
      else
        var s2 :=
          if url in s.budget then s1.(budget := s1.budget[url := depth])
          else s1.(budget := s1.budget[url := depth],
                   parsed := s1.parsed + [url],
                   counts := Merge(s1.counts, env.parse(url).wordCounts));
        RunTasksFixed(env, deadline, s2, env.parse(url).links, depth - 1)
  }

  ghost function RunTasksFixed(env: Env, deadline: int, s: BudgetState, links: seq<Url>, depth: nat): BudgetState
    decreases depth, 1, |links|
  {
    if links == [] then s
    else RunTaskFixed(env, deadline, RunTasksFixed(env, deadline, s, links[..|links| - 1], depth), links[|links| - 1], depth)
  }

  /** Neither the deadline nor an ignored pattern ever stops a task. */
  ghost predicate Unhindered(env: Env, deadline: int) {
    (forall t: nat :: env.clock(t) <= deadline) && (forall u :: !Ignored(env, u))
  }

  /** `v` has been crawled with at least `d` hops (trivially so when `d` is not positive). */
  ghost predicate Covered(budget: map<Url, nat>, v: Url, d: int) {
    d <= 0 || (v in budget && budget[v] >= d)
  }

  /**
   Every visited URL outside `pending` has had all its links crawled with
   one hop less than it had itself. `pending` holds the tasks still running.
   */
  ghost predicate Closed(parse: Url -> Page, budget: map<Url, nat>, pending: set<Url>) {
    forall u, j :: u in budget && u !in pending && 0 <= j < |parse(u).links| ==>
      Covered(budget, parse(u).links[j], budget[u] as int - 1)
  }

  /** No URL is forgotten and none loses hops. */
  ghost predicate Grows(b0: map<Url, nat>, b1: map<Url, nat>) {
    forall u :: u in b0 ==> u in b1 && b1[u] >= b0[u]
  }

  /** Every entry that changed was set to at most `d` hops. */
  ghost predicate BoundedBy(b0: map<Url, nat>, b1: map<Url, nat>, d: int) {
    forall u :: u in b1 ==> (u in b0 && b1[u] == b0[u]) || b1[u] <= d
  }

  lemma CoveredGrows(b0: map<Url, nat>, b1: map<Url, nat>, v: Url, d: int)
    requires Grows(b0, b1) && Covered(b0, v, d)
    ensures Covered(b1, v, d)
  {
  }

  lemma ClosedGrows(parse: Url -> Page, b0: map<Url, nat>, b1: map<Url, nat>, pending: set<Url>, changed: set<Url>)
    requires Closed(parse, b0, pending) && Grows(b0, b1)
    requires forall u :: u in b1 && u !in changed ==> u in b0 && b1[u] == b0[u]
    ensures Closed(parse, b1, pending + changed)
  {
    forall u, j | u in b1 && u !in pending + changed && 0 <= j < |parse(u).links|
      ensures Covered(b1, parse(u).links[j], b1[u] as int - 1)
    {
      CoveredGrows(b0, b1, parse(u).links[j], b0[u] as int - 1);
    }
  }

  /**
   A corrected task, started while the tasks of `pending` (each with more
   hops than it) are still running, keeps every finished URL closed, only
   adds hops, changes no entry to more than `depth` hops, and leaves `url`
   crawled with at least `depth` hops.
   */
  lemma {:induction false} RunTaskFixedCovers(env: Env, deadline: int, s: BudgetState, url: Url, depth: nat, pending: set<Url>)
    requires Unhindered(env, deadline)
    requires Closed(env.parse, s.budget, pending)
    requires forall p :: p in pending ==> p in s.budget && s.budget[p] > depth
    ensures Closed(env.parse, RunTaskFixed(env, deadline, s, url, depth).budget, pending)
    ensures Grows(s.budget, RunTaskFixed(env, deadline, s, url, depth).budget)
    ensures BoundedBy(s.budget, RunTaskFixed(env, deadline, s, url, depth).budget, depth)
    ensures Covered(RunTaskFixed(env, deadline, s, url, depth).budget, url, depth)
    decreases depth, 0
  {
    if depth == 0 || (url in s.budget && s.budget[url] >= depth) {
      assert depth > 0 ==> env.clock(s.ticks) <= deadline && !Ignored(env, url);
    } else {
      assert env.clock(s.ticks) <= deadline && !Ignored(env, url);
      var s1 := s.(ticks := s.ticks + 1);
      var s2 :=
        if url in s.budget then s1.(budget := s1.budget[url := depth])
        else s1.(budget := s1.budget[url := depth],
                 parsed := s1.parsed + [url],
                 counts := Merge(s1.counts, env.parse(url).wordCounts));
      var links := env.parse(url).links;
      var r := RunTasksFixed(env, deadline, s2, links, depth - 1);
      assert r == RunTaskFixed(env, deadline, s, url, depth);
      assert url !in pending;
      ClosedGrows(env.parse, s.budget, s2.budget, pending, {url});
      RunTasksFixedCovers(env, deadline, s2, links, depth - 1, pending + {url});
      assert r.budget[url] == depth;
      ClosedAfterLinks(env.parse, r.budget, url, pending);
    }
  }

  /** Once all of `url`'s links are covered with one hop less than `url` has, `url` no longer needs to be pending. */
  lemma ClosedAfterLinks(parse: Url -> Page, budget: map<Url, nat>, url: Url, pending: set<Url>)
    requires Closed(parse, budget, pending + {url})
    requires url in budget
    requires forall j :: 0 <= j < |parse(url).links| ==> Covered(budget, parse(url).links[j], budget[url] as int - 1)
    ensures Closed(parse, budget, pending)
  {
  }

  /** The same for tasks run one after another at `depth`: afterwards every one of `links` is crawled with at least `depth` hops. */
  lemma {:induction false} RunTasksFixedCovers(env: Env, deadline: int, s: BudgetState, links: seq<Url>, depth: nat, pending: set<Url>)
    requires Unhindered(env, deadline)
    requires Closed(env.parse, s.budget, pending)
    requires forall p :: p in pending ==> p in s.budget && s.budget[p] > depth
    ensures Closed(env.parse, RunTasksFixed(env, deadline, s, links, depth).budget, pending)
    ensures Grows(s.budget, RunTasksFixed(env, deadline, s, links, depth).budget)
    ensures BoundedBy(s.budget, RunTasksFixed(env, deadline, s, links, depth).budget, depth)
    ensures forall j :: 0 <= j < |links| ==> Covered(RunTasksFixed(env, deadline, s, links, depth).budget, links[j], depth)
    decreases depth, 1, |links|
  {
    if links != [] {
      var init := links[..|links| - 1];
      var m := RunTasksFixed(env, deadline, s, init, depth);
      var r := RunTasksFixed(env, deadline, s, links, depth);
      RunTasksFixedCovers(env, deadline, s, init, depth, pending);
      RunTaskFixedCovers(env, deadline, m, links[|links| - 1], depth, pending);
      forall j | 0 <= j < |links| ensures Covered(r.budget, links[j], depth) {
        if j < |init| {
          assert init[j] == links[j];
          CoveredGrows(m.budget, r.budget, links[j], depth);
        }
      }
    }
  }

  /** Once every visited URL is closed, everything within reach of a URL crawled with more than `k` hops is visited. */
  lemma {:induction false} ClosedReaches(parse: Url -> Page, budget: map<Url, nat>, u: Url, v: Url, k: nat)
    requires Closed(parse, budget, {})
    requires u in budget && budget[u] > k
    requires Within(parse, u, v, k)
    ensures v in budget
    decreases k
  {
    if u != v {
      var j :| 0 <= j < |parse(u).links| && Within(parse, parse(u).links[j], v, k - 1);
      assert Covered(budget, parse(u).links[j], budget[u] as int - 1);
      ClosedReaches(parse, budget, parse(u).links[j], v, k - 1);
    }
  }

  /**
   The intended property, proved of the corrected crawl: when neither the
   deadline nor an ignored pattern stops a task, every page within
   `maxDepth - 1` links of a starting URL is visited.
   */
  lemma FixedCrawlComplete(env: Env, deadline: int, startingUrls: seq<Url>, maxDepth: nat, v: Url)
    requires Unhindered(env, deadline)
    requires maxDepth >= 1 && NearStart(env.parse, startingUrls, v, maxDepth - 1)
    ensures v in RunTasksFixed(env, deadline, Fresh, startingUrls, maxDepth).budget
  {
    var r := RunTasksFixed(env, deadline, Fresh, startingUrls, maxDepth);
    RunTasksFixedCovers(env, deadline, Fresh, startingUrls, maxDepth, {});
    var j :| 0 <= j < |startingUrls| && Within(env.parse, startingUrls[j], v, maxDepth - 1);
    assert Covered(r.budget, startingUrls[j], maxDepth);
    ClosedReaches(env.parse, r.budget, startingUrls[j], v, maxDepth - 1);
  }

  /** A corrected task forgets no URL, and every URL it adds is within `depth - 1` links of `url`. */
  lemma {:induction false} RunTaskFixedReach(env: Env, deadline: int, s: BudgetState, url: Url, depth: nat)
    ensures s.budget.Keys <= RunTaskFixed(env, deadline, s, url, depth).budget.Keys
    ensures forall v :: v in RunTaskFixed(env, deadline, s, url, depth).budget && v !in s.budget ==>
      depth >= 1 && Within(env.parse, url, v, depth - 1)
    decreases depth, 0
  {
    if depth > 0 && env.clock(s.ticks) <= deadline && !Ignored(env, url) && !(url in s.budget && s.budget[url] >= depth) {
      var s1 := s.(ticks := s.ticks + 1);
      var s2 :=
        if url in s.budget then s1.(budget := s1.budget[url := depth])
        else s1.(budget := s1.budget[url := depth],
                 parsed := s1.parsed + [url],
                 counts := Merge(s1.counts, env.parse(url).wordCounts));
      var links := env.parse(url).links;
      RunTasksFixedReach(env, deadline, s2, links, depth - 1);
      var r := RunTaskFixed(env, deadline, s, url, depth);
      assert r == RunTasksFixed(env, deadline, s2, links, depth - 1);
      forall v | v in r.budget && v !in s.budget ensures Within(env.parse, url, v, depth - 1) {
        if v != url {
          var j :| 0 <= j < |links| && Within(env.parse, links[j], v, depth - 2);
        }
      }
    }
  }

  /** Corrected tasks run at `depth` only add URLs within `depth - 1` links of one of `links`. */
  lemma {:induction false} RunTasksFixedReach(env: Env, deadline: int, s: BudgetState, links: seq<Url>, depth: nat)
    ensures s.budget.Keys <= RunTasksFixed(env, deadline, s, links, depth).budget.Keys
    ensures forall v :: v in RunTasksFixed(env, deadline, s, links, depth).budget && v !in s.budget ==>
      depth >= 1 && exists j :: 0 <= j < |links| && Within(env.parse, links[j], v, depth - 1)
    decreases depth, 1, |links|
  {
    if links != [] {
      var init := links[..|links| - 1];
      var m := RunTasksFixed(env, deadline, s, init, depth);
      RunTasksFixedReach(env, deadline, s, init, depth);
      RunTaskFixedReach(env, deadline, m, links[|links| - 1], depth);
      forall v | v in RunTasksFixed(env, deadline, s, links, depth).budget && v !in s.budget
        ensures exists j :: 0 <= j < |links| && Within(env.parse, links[j], v, depth - 1)
      {
        if v in m.budget {
          var j :| 0 <= j < |init| && Within(env.parse, init[j], v, depth - 1);
          assert init[j] == links[j];
        } else {
          assert Within(env.parse, links[|links| - 1], v, depth - 1);
        }
      }
    }
  }

  /**
   Completeness and soundness together: unhindered, the corrected crawl
   visits exactly the pages within `maxDepth - 1` links of a starting URL
   (none when `maxDepth` is 0). That set does not depend on the order of the
   starting URLs or of any page's links.
   */
  lemma FixedCrawlExact(env: Env, deadline: int, startingUrls: seq<Url>, maxDepth: nat, v: Url)
    requires Unhindered(env, deadline)
    ensures v in RunTasksFixed(env, deadline, Fresh, startingUrls, maxDepth).budget <==>
      maxDepth >= 1 && NearStart(env.parse, startingUrls, v, maxDepth - 1)
  {
    RunTasksFixedReach(env, deadline, Fresh, startingUrls, maxDepth);
    if maxDepth >= 1 && NearStart(env.parse, startingUrls, v, maxDepth - 1) {
      FixedCrawlComplete(env, deadline, startingUrls, maxDepth, v);
    }
  }

  /** The example site with S's links in the other order: S links to B, then A. */
  function ExampleSiteSwapped(u: Url): Page {
    if u == "S" then Page(map[], ["B", "A"]) else ExampleSite(u)
  }

  /** The swapped site, with the same clock and patterns as `ExampleEnv`. */
  function SwappedEnv(): Env {
    ExampleEnv().(parse := ExampleSiteSwapped)
  }

  /**
   The same crawl as `MissedWithinDepth` with S's links swapped: B is now
   reached first, with two hops left, and C is visited. Which pages the crawl
   as written visits therefore depends on the order of the links.
   */
  lemma FoundInOtherOrder()
    ensures "C" in RunTasks(SwappedEnv(), 0, Origin, ["S"], 3).visited
  {
    var env := SwappedEnv();
    var s1 := Claim(env, Origin.(ticks := 1), "S");
    var m := RunTasks(env, 0, s1, ["B"], 2);
    SwappedFromS();
    FoundViaB();
    RunTaskReach(env, 0, m, "A", 2);
  }

  /** The swapped crawl from S is S's claim followed by the tasks for B and then A. */
  lemma SwappedFromS()
    ensures var env := SwappedEnv();
      RunTasks(env, 0, Origin, ["S"], 3)
      == RunTask(env, 0, RunTasks(env, 0, Claim(env, Origin.(ticks := 1), "S"), ["B"], 2), "A", 2)
  {
    var env := SwappedEnv();
    var s1 := Claim(env, Origin.(ticks := 1), "S");
    assert !Ignored(env, "S");
    assert RunTask(env, 0, Origin, "S", 3) == RunTasks(env, 0, s1, ["B", "A"], 2);
    assert RunTasks(env, 0, Origin, ["S"], 3) == RunTask(env, 0, Origin, "S", 3) by {
      assert ["S"][..0] == [];
    }
    assert RunTasks(env, 0, s1, ["B", "A"], 2) == RunTask(env, 0, RunTasks(env, 0, s1, ["B"], 2), "A", 2) by {
      assert ["B", "A"][..1] == ["B"];
    }
  }

  /** In the swapped crawl, the task for B with two hops left claims B and then C. */
  lemma FoundViaB()
    ensures "C" in RunTasks(SwappedEnv(), 0, Claim(SwappedEnv(), Origin.(ticks := 1), "S"), ["B"], 2).visited
  {
    var env := SwappedEnv();
    var s1 := Claim(env, Origin.(ticks := 1), "S");
    assert !Ignored(env, "B") && !Ignored(env, "C");
    assert ["B"][..0] == [];
    var s2 := Claim(env, s1.(ticks := 2), "B");
    assert "B" !in s1.visited;
    assert RunTask(env, 0, s1, "B", 2) == RunTasks(env, 0, s2, ["C"], 1);
    assert ["C"][..0] == [];
    assert "C" !in s2.visited;
    assert RunTask(env, 0, s2, "C", 1) == RunTasks(env, 0, Claim(env, s2.(ticks := 3), "C"), [], 0);
  }
}
