# Parallel web crawler: crawl engine

This project models the crawl engine of the web crawler, `ParallelWebCrawler`,
and its recursive crawl task, `WebCrawlTask.compute`.

`crawl` fixes a deadline one timeout after the current instant. It then runs
one root task per starting URL at `maxDepth`. Each task stops, in this order:

- when no hops are left;
- when the clock reads strictly after the deadline;
- when the URL fully matches an ignored pattern;
- when the URL is already in the shared visited set.

Otherwise a crawl task:

- adds the URL to the visited set;
- parses the page;
- adds the page's word counts into the shared table (an absent word gets the page's count, a present one the sum);
- runs one child task per link with one hop less.

When every root task is done, `crawl` reports the table and the size of the visited set. The table is reported as it is when it is empty, and as its top-N reduction otherwise.

The Dafny files:

- `crawl_spec.dfy` (module `CrawlSpec`) is the reference semantics.
  - `RunTask` and `RunTasks` are functions from a crawl state to a crawl state. The state holds the visited set, the word-count table, the number of clock readings and the log of parsed URLs.
  - The lemmas prove properties of these functions:
    - the crawler invariant (`Consistent`): no URL is parsed twice, the visited set is exactly the parsed URLs, and every table entry is the sum of that word's counts over the parsed pages;
    - the order of a crawl task's guards;
    - which URLs a crawl can add to the visited set.
- `parallel_web_crawler.dfy` (module `ParallelWebCrawler`) is the crawler object.
  - The class keeps the visited set, the table and the deadline as fields that its methods update in place.
  - `Compute`, `Visit`, `IsIgnored`, `MergeWordCounts` and `Crawl` each carry loops or recursion in the shape of the Java code.
  - Each of them is proved to leave the state exactly as `CrawlSpec` prescribes. Through `CrawlSpec` it also keeps the crawler invariant.
- `depth_budget.dfy` (module `DepthBudget`) looks at the depth limit.
  - A URL is claimed for good by the first task that reaches it, however many hops that task had left. Pages within `maxDepth - 1` links of a starting URL can therefore be missed, and which pages are missed depends on the order of the tasks. On a four-page site, `MissedWithinDepth` proves that a page two links from the start is missed. `FoundInOtherOrder` proves that the same page is visited when the start page's two links are swapped.
  - A variant crawl remembers the most hops each URL was crawled with, and crawls it again when a task reaches it with more hops. `FixedCrawlComplete` proves that this variant visits every page within `maxDepth - 1` links when no deadline or pattern stops a task. `FixedCrawlExact` adds the converse: the variant visits no other page. Its visited set is therefore fixed by the link graph and does not depend on the order of the tasks.

Collaborators are parameters of the model:

- the clock is a function from the number of earlier readings to an instant;
- the page parser is a function from a URL to its word counts and links;
- regular-expression matching is a function from a pattern and a URL to a boolean;
- the top-N sort is a function from a table to a table;
- the number of available processors is an integer.

In several places the code behaves differently from what a reader might expect. The model follows the code:

- The deadline test is strict. One might expect a task to stop once the deadline instant is reached. The code stops a task only when the clock reads strictly after the deadline (`isAfter`, line 97), so a task at exactly the deadline still runs.
- One might expect a crawl that collected no words to report 0 URLs visited. The code still reports the size of the visited set (lines 62-66).
- The visited set and the table are fields of the crawler and are not reset between calls to `crawl`. A second crawl skips the URLs the first one visited and adds to its table. The depth limit is fixed at construction, so a crawler with `maxDepth == 0` never visits anything. Its visited set and table stay empty for its whole life (part of `Valid`), and every crawl on it reports 0 URLs and an empty table.
- The visited check and the insertion are two separate steps (lines 107 and 112), not one atomic insert-if-absent. Because this model runs the tasks one at a time, the two steps behave as one.
- One might expect the visited set to depend only on the link graph, not on how the tasks interleave. As written it depends on the order in which the tasks claim URLs (`DepthBudget.MissedWithinDepth` and `DepthBudget.FoundInOtherOrder`).

## Model

| member | source | states |
|---|---|---|
| ParallelWebCrawler.PoolParallelism | starter/webcrawler/src/main/java/com/udacity/webcrawler/ParallelWebCrawler.java:52 | the pool size is at most the configured thread count and at most the number of available processors, and it equals one of the two |
| ParallelWebCrawler.ParallelWebCrawler.constructor | starter/webcrawler/src/main/java/com/udacity/webcrawler/ParallelWebCrawler.java:37-53 | keeps every configuration value, sizes the pool by `PoolParallelism` (at least 1, given a positive thread count), starts with an empty visited set and table, and establishes the crawler invariant (which includes: with `maxDepth` 0 the visited set and table are empty) |
| ParallelWebCrawler.ParallelWebCrawler.Crawl | starter/webcrawler/src/main/java/com/udacity/webcrawler/ParallelWebCrawler.java:56-73 | the deadline is the first clock reading plus the timeout; the new state is the root tasks run in order at `maxDepth`; the invariant is kept; the URL count is the size of the visited set; the words are the raw table when it is empty and its sorted reduction otherwise; with `maxDepth` 0 nothing changes and the crawl reports 0 URLs and an empty table; every newly visited URL is within `maxDepth - 1` links of a starting URL |
| ParallelWebCrawler.ParallelWebCrawler.Compute | starter/webcrawler/src/main/java/com/udacity/webcrawler/ParallelWebCrawler.java:95-109 | the shared state after one task is exactly `CrawlSpec.RunTask`: the four guards in order, with the clock read only when hops remain |
| ParallelWebCrawler.ParallelWebCrawler.Visit | starter/webcrawler/src/main/java/com/udacity/webcrawler/ParallelWebCrawler.java:111-130 | marking, parsing, merging and then the child tasks at one hop less, in link order, leave exactly the state that `CrawlSpec.RunTasks` gives after the URL's claim |
| ParallelWebCrawler.ParallelWebCrawler.IsIgnored | starter/webcrawler/src/main/java/com/udacity/webcrawler/ParallelWebCrawler.java:101-105 | the URL is reported as ignored exactly when some pattern in the list matches it |
| ParallelWebCrawler.ParallelWebCrawler.MergeWordCounts | starter/webcrawler/src/main/java/com/udacity/webcrawler/ParallelWebCrawler.java:117-119 | adding a page's words one at a time leaves the table equal to `CrawlSpec.Merge` of the old table and the page |
| CrawlSpec.MergeAddsPage | starter/webcrawler/src/main/java/com/udacity/webcrawler/ParallelWebCrawler.java:118-119 | after a merge the words are those of the table and the page; a page word has its old count (0 when absent) plus the page's count; other words keep their counts |
| CrawlSpec.MergeOneMore | starter/webcrawler/src/main/java/com/udacity/webcrawler/ParallelWebCrawler.java:118-119 | merging one more word of the page is a single `compute` step on the table built so far |
| CrawlSpec.RunTaskGuards | starter/webcrawler/src/main/java/com/udacity/webcrawler/ParallelWebCrawler.java:97-112 | with no hops left a task changes nothing; when the deadline, a pattern or the visited set stops it, only the clock reading is recorded; otherwise it claims the URL (which becomes the next parsed URL and is visited afterwards) and runs the child tasks |
| CrawlSpec.RunTaskLogged | starter/webcrawler/src/main/java/com/udacity/webcrawler/ParallelWebCrawler.java:107-119 | a task only appends distinct, previously unvisited URLs to the parse log, adds exactly those to the visited set, and adds exactly their pages to the table |
| CrawlSpec.RunTasksLogged | starter/webcrawler/src/main/java/com/udacity/webcrawler/ParallelWebCrawler.java:125-130 | the same for a list of child tasks run in order |
| CrawlSpec.ClaimLogged | starter/webcrawler/src/main/java/com/udacity/webcrawler/ParallelWebCrawler.java:111-119 | claiming an unvisited URL appends it to the log, adds it to the visited set, and adds its page to the table |
| CrawlSpec.LoggedStill | starter/webcrawler/src/main/java/com/udacity/webcrawler/ParallelWebCrawler.java:97-109 | a task that stops at a guard and reads only the clock leaves a valid later state |
| CrawlSpec.ConsistentKept | starter/webcrawler/src/main/java/com/udacity/webcrawler/ParallelWebCrawler.java:107-119 | a later state of a consistent state is consistent |
| CrawlSpec.RunTaskConsistent | starter/webcrawler/src/main/java/com/udacity/webcrawler/ParallelWebCrawler.java:95-133 | a task keeps the crawler invariant: no URL parsed twice, visited set equal to the parsed URLs, table equal to the merge of their pages |
| CrawlSpec.RunTasksConsistent | starter/webcrawler/src/main/java/com/udacity/webcrawler/ParallelWebCrawler.java:125-130 | a list of child tasks keeps the crawler invariant |
| CrawlSpec.AccumulateAppend | starter/webcrawler/src/main/java/com/udacity/webcrawler/ParallelWebCrawler.java:118-119 | merging the pages of `a + b` is merging those of `a`, then those of `b` |
| CrawlSpec.AccumulateCounts | starter/webcrawler/src/main/java/com/udacity/webcrawler/ParallelWebCrawler.java:118-119 | after merging a list of pages, a word's count is its old count plus its total over the pages, and the word is present exactly when it was before or occurs on one of the pages |
| CrawlSpec.CountsAreTotals | starter/webcrawler/src/main/java/com/udacity/webcrawler/ParallelWebCrawler.java:118-119 | in a consistent state every word's count is its total over the parsed pages (no update lost or counted twice), and a word is present exactly when some parsed page has it |
| CrawlSpec.RunTaskReach | starter/webcrawler/src/main/java/com/udacity/webcrawler/ParallelWebCrawler.java:125-130 | a task never removes a visited URL, and every URL it adds is within `depth - 1` links of its own URL |
| CrawlSpec.RunTasksReach | starter/webcrawler/src/main/java/com/udacity/webcrawler/ParallelWebCrawler.java:125-130 | child tasks never remove a visited URL, and every URL they add is within `depth - 1` links of one of the links |
| CrawlSpec.RunTasksAtDepthZero | starter/webcrawler/src/main/java/com/udacity/webcrawler/ParallelWebCrawler.java:97 | tasks with no hops left change nothing |
| CrawlSpec.RootTasks | starter/webcrawler/src/main/java/com/udacity/webcrawler/ParallelWebCrawler.java:60 | the root tasks keep the invariant, change nothing at `maxDepth` 0, and add only URLs within `maxDepth - 1` links of a starting URL |
| DepthBudget.MissedWithinDepth | starter/webcrawler/src/main/java/com/udacity/webcrawler/ParallelWebCrawler.java:107-109 | on the site S→[A, B], A→[B], B→[C], with `maxDepth` 3, no deadline and no patterns, C is two links from S but is never visited: A claims B with one hop left, and S's own task for B stops at the visited check |
| DepthBudget.FoundInOtherOrder | starter/webcrawler/src/main/java/com/udacity/webcrawler/ParallelWebCrawler.java:107-109 | on the same site with S's links swapped to [B, A], B is claimed first with two hops left and C is visited, so which pages get visited depends on link order |
| DepthBudget.SwappedFromS | starter/webcrawler/src/main/java/com/udacity/webcrawler/ParallelWebCrawler.java:60 | the swapped crawl from S is S's claim followed by the task for B and then the task for A |
| DepthBudget.FoundViaB | starter/webcrawler/src/main/java/com/udacity/webcrawler/ParallelWebCrawler.java:107-130 | in the swapped crawl, the task for B with two hops left claims B and then C |
| DepthBudget.ExampleNear | starter/webcrawler/src/main/java/com/udacity/webcrawler/ParallelWebCrawler.java:125-127 | on the example site C is within two links of S |
| DepthBudget.ExampleAfterA | starter/webcrawler/src/main/java/com/udacity/webcrawler/ParallelWebCrawler.java:107-130 | in the example crawl, the crawl task for A claims A and then B, and B's link to C has no hops left |
| DepthBudget.ExampleLinksOfS | starter/webcrawler/src/main/java/com/udacity/webcrawler/ParallelWebCrawler.java:107-109 | in the example crawl, S's second link B finds B already visited |
| DepthBudget.ExampleFromS | starter/webcrawler/src/main/java/com/udacity/webcrawler/ParallelWebCrawler.java:60 | the whole example crawl ends with exactly S, A and B visited |
| DepthBudget.RunTaskFixedCovers | starter/webcrawler/src/main/java/com/udacity/webcrawler/ParallelWebCrawler.java:107-130 | in the variant that tracks hop budgets, a task leaves its URL crawled with at least its hops, never lowers a budget, raises none above its hops, and leaves every finished URL's links crawled with one hop less |
| DepthBudget.RunTasksFixedCovers | starter/webcrawler/src/main/java/com/udacity/webcrawler/ParallelWebCrawler.java:125-130 | the same for a list of tasks: every link ends up crawled with at least the tasks' hops |
| DepthBudget.ClosedReaches | starter/webcrawler/src/main/java/com/udacity/webcrawler/ParallelWebCrawler.java:125-127 | once every visited URL's links are covered, everything within `k` links of a URL crawled with more than `k` hops is visited |
| DepthBudget.FixedCrawlComplete | starter/webcrawler/src/main/java/com/udacity/webcrawler/ParallelWebCrawler.java:60 | the variant crawl, unhindered by deadline or patterns, visits every page within `maxDepth - 1` links of a starting URL |
| DepthBudget.RunTaskFixedReach | starter/webcrawler/src/main/java/com/udacity/webcrawler/ParallelWebCrawler.java:125-130 | a corrected task forgets no visited URL, and every URL it adds is within `depth - 1` links of its own URL |
| DepthBudget.RunTasksFixedReach | starter/webcrawler/src/main/java/com/udacity/webcrawler/ParallelWebCrawler.java:125-130 | the same for a list of corrected tasks, relative to one of the links |
| DepthBudget.FixedCrawlExact | starter/webcrawler/src/main/java/com/udacity/webcrawler/ParallelWebCrawler.java:60 | unhindered, the corrected crawl visits a page if and only if `maxDepth` is at least 1 and the page is within `maxDepth - 1` links of a starting URL; that set does not depend on task order |

## Left out

- Parallelism: the fork-join pool, `invoke` and `invokeAll` are not modelled. Root tasks and child tasks run one at a time, in list and link order. Interleavings of concurrent tasks are therefore not modelled, so neither is the window between the visited check (line 107) and the insertion (line 112), in which two tasks can both parse the same URL.
- Thread safety: the synchronized wrappers around the visited set and the table are not modelled. Each update is one atomic step.
- Page parsing: the parser factory and the parser are one function from URL to page. A parser that fails or throws is not modelled.
- Matching: regular expressions are a function from a pattern and a URL to a boolean. Only the full-match decision is modelled.
- Time: `Clock`, `Instant` and `Duration` are integers. The clock is a function of the number of earlier readings. Real time is not modelled.
- Sorting: `WordCounts.sort` (order by count, then by word, and truncation) is not part of this model. It is a function parameter of the crawler.
- Result objects: `CrawlResult` and its builder are the pair of values that `Crawl` returns.
- Processors: the number of available processors (`getMaxParallelism`, lines 76-78) is a constructor parameter.
- Profiling: the profiler and the dependency-injection annotations are not part of this model.
- MergeWordCounts: Java's 32-bit `int` overflow in `c + count` is not modelled. Counts are unbounded integers.
- ParallelWebCrawler.ParallelWebCrawler.constructor: it requires a thread count of at least 1 (and at least 1 available processor, which the JVM guarantees). For a thread count of 0 or less, the pool constructor at line 52 throws `IllegalArgumentException`. The model does not represent that exception; it excludes the input instead.
- ParallelWebCrawler.ParallelWebCrawler.constructor: it requires a non-negative `maxDepth`. The code accepts a negative value, and a negative depth never reaches 0, so tasks would recurse until the pages ran out. That case is excluded, not modelled.
