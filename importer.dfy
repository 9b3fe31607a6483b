/**
 * The import work loop (Importer.run).
 *
 * The loop queries the crawls in the IMPORTING state; an empty answer ends
 * the run; otherwise each crawl of the answer, in the order returned, gets
 * its ImportJob and then one completionHook call, and the loop queries again.
 *
 * The store is an oracle: the q-th query of a run answers snapshots[q].
 * ImportJob and the hook are abstract steps; the n-th ImportJob call of a
 * run throws when n is in jobFails, and the hook call that follows the n-th
 * ImportJob throws when n is in hookFails.  Nothing catches either exception,
 * so it ends the run.  A run is recorded as its trace of events.
 */
module Importer {
  type CrawlId = int

  datatype Event =
    | Query(crawls: seq<CrawlId>)  // findCrawlsByState(IMPORTING) answered crawls
    | Job(crawlId: CrawlId)        // ImportJob started for the crawl
    | Hook                         // completionHook started

  /** How run ends: normally (going idle), or by an exception escaping it. */
  datatype Outcome = Idle | JobThrew(crawlId: CrawlId) | HookThrew(crawlId: CrawlId)

  datatype RunResult = RunResult(trace: seq<Event>, outcome: Outcome)

  function Prepend(events: seq<Event>, r: RunResult): RunResult
  {
    RunResult(events + r.trace, r.outcome)
  }

  lemma PrependTwice(first: seq<Event>, second: seq<Event>, r: RunResult)
    ensures Prepend(first, Prepend(second, r)) == Prepend(first + second, r)
  {
    assert first + (second + r.trace) == (first + second) + r.trace;
  }

  /** Some query from the q-th on answers no crawls, so the run ends. */
  predicate IdleQueryAhead(snapshots: seq<seq<CrawlId>>, q: nat)
  {
    exists k :: q <= k < |snapshots| && snapshots[k] == []
  }

  // ---------------------------------------------------------------------
  // The run, as a function of the oracles

  /** The rest of a run that is about to make its q-th query, after `jobs` ImportJob calls. */
  function Drain(snapshots: seq<seq<CrawlId>>, q: nat, jobs: nat, jobFails: set<nat>, hookFails: set<nat>): RunResult
    requires IdleQueryAhead(snapshots, q)
    decreases |snapshots| - q + 1, 0
  {
    var crawls := snapshots[q];
    if crawls == [] then RunResult([Query(crawls)], Idle)
    else Prepend([Query(crawls)], ImportAll(snapshots, q + 1, crawls, jobs, jobFails, hookFails))
  }

  /** The rest of a run that still has `crawls` of the current answer to import, then makes its q-th query. */
  function ImportAll(snapshots: seq<seq<CrawlId>>, q: nat, crawls: seq<CrawlId>, jobs: nat,
                     jobFails: set<nat>, hookFails: set<nat>): RunResult
    requires IdleQueryAhead(snapshots, q)
    decreases |snapshots| - q + 1, |crawls| + 1
  {
    if crawls == [] then Drain(snapshots, q, jobs, jobFails, hookFails)
    else if jobs in jobFails then RunResult([Job(crawls[0])], JobThrew(crawls[0]))
    else if jobs in hookFails then RunResult([Job(crawls[0]), Hook], HookThrew(crawls[0]))
    else Prepend([Job(crawls[0]), Hook], ImportAll(snapshots, q, crawls[1..], jobs + 1, jobFails, hookFails))
  }

  /** Importer.run: drain the IMPORTING crawls until a query answers none. */
  method Run(snapshots: seq<seq<CrawlId>>, jobFails: set<nat>, hookFails: set<nat>)
    returns (trace: seq<Event>, outcome: Outcome)
    requires IdleQueryAhead(snapshots, 0)
    ensures RunResult(trace, outcome) == Drain(snapshots, 0, 0, jobFails, hookFails)
  {
    trace := [];
    var q, jobs := 0, 0;
    while true
      invariant IdleQueryAhead(snapshots, q)
      invariant Drain(snapshots, 0, 0, jobFails, hookFails)
             == Prepend(trace, Drain(snapshots, q, jobs, jobFails, hookFails))
      decreases |snapshots| - q
    {
      var crawls := snapshots[q];
      if crawls == [] {
        trace := trace + [Query(crawls)];
        break;
      }
      ghost var k :| q <= k < |snapshots| && snapshots[k] == [];
      assert k != q;
      PrependTwice(trace, [Query(crawls)], ImportAll(snapshots, q + 1, crawls, jobs, jobFails, hookFails));
      trace := trace + [Query(crawls)];
      q := q + 1;
      var i := 0;
      assert crawls[i..] == crawls;
      while i < |crawls|
        invariant 0 <= i <= |crawls|
        invariant IdleQueryAhead(snapshots, q)
        invariant Drain(snapshots, 0, 0, jobFails, hookFails)
               == Prepend(trace, ImportAll(snapshots, q, crawls[i..], jobs, jobFails, hookFails))
        decreases |crawls| - i
      {
        var crawl := crawls[i];
        assert crawls[i..][0] == crawl && crawls[i..][1..] == crawls[i + 1..];
        if jobs in jobFails {
          trace := trace + [Job(crawl)];
          outcome := JobThrew(crawl);
          return;
        }
        if jobs in hookFails {
          trace := trace + [Job(crawl), Hook];
          outcome := HookThrew(crawl);
          return;
        }
        PrependTwice(trace, [Job(crawl), Hook], ImportAll(snapshots, q, crawls[i + 1..], jobs + 1, jobFails, hookFails));
        trace := trace + [Job(crawl), Hook];
        jobs := jobs + 1;
        i := i + 1;
      }
      assert crawls[i..] == [];
    }
    outcome := Idle;
  }

  // ---------------------------------------------------------------------
  // Reference shapes of a run in which nothing throws

  /** ImportJob then completionHook for each crawl, in order. */
  function Pairs(crawls: seq<CrawlId>): seq<Event>
  {
    if crawls == [] then [] else [Job(crawls[0]), Hook] + Pairs(crawls[1..])
  }

  /** One query per answer, each followed by the pairs of that answer's crawls. */
  function Rounds(answers: seq<seq<CrawlId>>): seq<Event>
  {
    if answers == [] then [] else [Query(answers[0])] + Pairs(answers[0]) + Rounds(answers[1..])
  }

  /** The index of the first empty answer from the q-th query on. */
  function FirstIdle(snapshots: seq<seq<CrawlId>>, q: nat): (k: nat)
    requires IdleQueryAhead(snapshots, q)
    ensures q <= k < |snapshots| && snapshots[k] == []
    ensures forall j :: q <= j < k ==> snapshots[j] != []
    decreases |snapshots| - q
  {
    if snapshots[q] == [] then q
    else
      assert IdleQueryAhead(snapshots, q + 1) by {
        var k :| q <= k < |snapshots| && snapshots[k] == [];
        assert q + 1 <= k;
      }
      FirstIdle(snapshots, q + 1)
  }

  /** All crawls of all answers, in order. */
  function Flatten(answers: seq<seq<CrawlId>>): seq<CrawlId>
  {
    if answers == [] then [] else answers[0] + Flatten(answers[1..])
  }

  /** The crawls whose ImportJob was started, in order. */
  function Jobs(trace: seq<Event>): seq<CrawlId>
  {
    if trace == [] then []
    else (if trace[0].Job? then [trace[0].crawlId] else []) + Jobs(trace[1..])
  }

  /** The number of completionHook calls. */
  function HookCount(trace: seq<Event>): nat
  {
    if trace == [] then 0 else (if trace[0] == Hook then 1 else 0) + HookCount(trace[1..])
  }

  lemma {:induction false} ProjectionsAppend(a: seq<Event>, b: seq<Event>)
    ensures Jobs(a + b) == Jobs(a) + Jobs(b)
    ensures HookCount(a + b) == HookCount(a) + HookCount(b)
    decreases |a|
  {
    if a == [] {
      assert a + b == b;
    } else {
      assert (a + b)[0] == a[0] && (a + b)[1..] == a[1..] + b;
      var head := if a[0].Job? then [a[0].crawlId] else [];
      assert Jobs(a + b) == head + Jobs(a[1..] + b);
      assert Jobs(a) == head + Jobs(a[1..]);
      ProjectionsAppend(a[1..], b);
      assert head + (Jobs(a[1..]) + Jobs(b)) == (head + Jobs(a[1..])) + Jobs(b);
    }
  }

  // ---------------------------------------------------------------------
  // Properties of a run

  /** A run whose first query answers no crawls does no ImportJob and no hook call. */
  lemma EmptyFirstAnswerDoesNothing(snapshots: seq<seq<CrawlId>>, jobFails: set<nat>, hookFails: set<nat>)
    requires |snapshots| > 0 && snapshots[0] == []
    ensures Drain(snapshots, 0, 0, jobFails, hookFails) == RunResult([Query([])], Idle)
  {
  }

  /**
   * Without exceptions, a run is: one round per non-empty answer up to the
   * first empty one (its query, then ImportJob and hook for each crawl in the
   * order answered), then the empty query, and it goes idle.
   */
  lemma {:induction false} DrainWithoutExceptions(snapshots: seq<seq<CrawlId>>, q: nat, jobs: nat)
    requires IdleQueryAhead(snapshots, q)
    ensures Drain(snapshots, q, jobs, {}, {})
         == RunResult(Rounds(snapshots[q..FirstIdle(snapshots, q)]) + [Query([])], Idle)
    decreases |snapshots| - q
  {
    var k := FirstIdle(snapshots, q);
    var crawls := snapshots[q];
    if crawls == [] {
      assert snapshots[q..k] == [];
    } else {
      assert IdleQueryAhead(snapshots, q + 1) by { assert q + 1 <= k; }
      assert FirstIdle(snapshots, q + 1) == k;
      var later := Drain(snapshots, q + 1, jobs + |crawls|, {}, {});
      assert later == RunResult(Rounds(snapshots[q + 1..k]) + [Query([])], Idle) by {
        DrainWithoutExceptions(snapshots, q + 1, jobs + |crawls|);
      }
      assert ImportAll(snapshots, q + 1, crawls, jobs, {}, {}) == Prepend(Pairs(crawls), later) by {
        ImportAllWithoutExceptions(snapshots, q + 1, crawls, jobs);
      }
      var answers := snapshots[q..k];
      assert answers[0] == crawls && answers[1..] == snapshots[q + 1..k];
      assert Rounds(answers) == [Query(crawls)] + Pairs(crawls) + Rounds(snapshots[q + 1..k]);
    }
  }

  /** Without exceptions, each remaining crawl gets its ImportJob and hook, and then the run queries again. */
  lemma {:induction false} ImportAllWithoutExceptions(snapshots: seq<seq<CrawlId>>, q: nat, crawls: seq<CrawlId>, jobs: nat)
    requires IdleQueryAhead(snapshots, q)
    ensures ImportAll(snapshots, q, crawls, jobs, {}, {})
         == Prepend(Pairs(crawls), Drain(snapshots, q, jobs + |crawls|, {}, {}))
    decreases |crawls|
  {
    var later := Drain(snapshots, q, jobs + |crawls|, {}, {});
    if crawls == [] {
      ImportAllDone(snapshots, q, jobs);
      assert Pairs(crawls) + later.trace == later.trace;
    } else {
      var pair := [Job(crawls[0]), Hook];
      var rest := ImportAll(snapshots, q, crawls[1..], jobs + 1, {}, {});
      assert rest == Prepend(Pairs(crawls[1..]), later) by {
        ImportAllWithoutExceptions(snapshots, q, crawls[1..], jobs + 1);
      }
      assert ImportAll(snapshots, q, crawls, jobs, {}, {}) == Prepend(pair, rest) by {
        ImportAllStep(snapshots, q, crawls, jobs);
      }
      assert Pairs(crawls) == pair + Pairs(crawls[1..]) by {
        PairsStep(crawls);
      }
      PrependTwice(pair, Pairs(crawls[1..]), later);
    }
  }

  /** With no crawls left in the answer, the run queries again. */
  lemma ImportAllDone(snapshots: seq<seq<CrawlId>>, q: nat, jobs: nat)
    requires IdleQueryAhead(snapshots, q)
    ensures ImportAll(snapshots, q, [], jobs, {}, {}) == Drain(snapshots, q, jobs, {}, {})
  {
  }

  /** One crawl's ImportJob and hook, when neither throws. */
  lemma ImportAllStep(snapshots: seq<seq<CrawlId>>, q: nat, crawls: seq<CrawlId>, jobs: nat)
    requires IdleQueryAhead(snapshots, q) && crawls != []
    ensures ImportAll(snapshots, q, crawls, jobs, {}, {})
         == Prepend([Job(crawls[0]), Hook], ImportAll(snapshots, q, crawls[1..], jobs + 1, {}, {}))
  {
  }

  lemma PairsStep(crawls: seq<CrawlId>)
    requires crawls != []
    ensures Pairs(crawls) == [Job(crawls[0]), Hook] + Pairs(crawls[1..])
  {
  }

  /**
   * An exception cuts the exception-free run short: the trace is a prefix of
   * it, ending with the ImportJob that threw, or with the ImportJob and the
   * hook call that threw; a run that goes idle is the exception-free run.
   */
  predicate CutShort(r: RunResult, clean: RunResult)
  {
    && r.trace <= clean.trace
    && (r.outcome == Idle ==> r == clean)
    && (r.outcome.JobThrew? ==> |r.trace| >= 1 && r.trace[|r.trace| - 1] == Job(r.outcome.crawlId))
    && (r.outcome.HookThrew? ==>
          |r.trace| >= 2 && r.trace[|r.trace| - 2] == Job(r.outcome.crawlId) && r.trace[|r.trace| - 1] == Hook)
  }

  lemma PrependCutShort(events: seq<Event>, r: RunResult, clean: RunResult)
    requires CutShort(r, clean)
    ensures CutShort(Prepend(events, r), Prepend(events, clean))
  {
    var t := events + r.trace;
    if r.outcome.JobThrew? || r.outcome.HookThrew? {
      assert t[|t| - 1] == r.trace[|r.trace| - 1];
    }
    if r.outcome.HookThrew? {
      assert t[|t| - 2] == r.trace[|r.trace| - 2];
    }
  }

  lemma {:induction false} ExceptionsCutRunShort(snapshots: seq<seq<CrawlId>>, q: nat, jobs: nat,
                                                 jobFails: set<nat>, hookFails: set<nat>)
    requires IdleQueryAhead(snapshots, q)
    ensures CutShort(Drain(snapshots, q, jobs, jobFails, hookFails), Drain(snapshots, q, jobs, {}, {}))
    decreases |snapshots| - q + 1, 0
  {
    var crawls := snapshots[q];
    if crawls != [] {
      ImportAllCutShort(snapshots, q + 1, crawls, jobs, jobFails, hookFails);
      PrependCutShort([Query(crawls)], ImportAll(snapshots, q + 1, crawls, jobs, jobFails, hookFails),
                      ImportAll(snapshots, q + 1, crawls, jobs, {}, {}));
    }
  }

  lemma {:induction false} ImportAllCutShort(snapshots: seq<seq<CrawlId>>, q: nat, crawls: seq<CrawlId>, jobs: nat,
                                             jobFails: set<nat>, hookFails: set<nat>)
    requires IdleQueryAhead(snapshots, q)
    ensures CutShort(ImportAll(snapshots, q, crawls, jobs, jobFails, hookFails), ImportAll(snapshots, q, crawls, jobs, {}, {}))
    decreases |snapshots| - q + 1, |crawls| + 1
  {
    if crawls == [] {
      ExceptionsCutRunShort(snapshots, q, jobs, jobFails, hookFails);
    } else if jobs !in jobFails && jobs !in hookFails {
      ImportAllCutShort(snapshots, q, crawls[1..], jobs + 1, jobFails, hookFails);
      PrependCutShort([Job(crawls[0]), Hook], ImportAll(snapshots, q, crawls[1..], jobs + 1, jobFails, hookFails),
                      ImportAll(snapshots, q, crawls[1..], jobs + 1, {}, {}));
    } else {
      var clean := ImportAll(snapshots, q, crawls[1..], jobs + 1, {}, {});
      assert ImportAll(snapshots, q, crawls, jobs, {}, {}).trace == [Job(crawls[0]), Hook] + clean.trace;
    }
  }

  /** Every ImportJob that returned is followed by exactly one hook call; one that threw, by none. */
  lemma {:induction false} HooksMatchCompletedJobs(snapshots: seq<seq<CrawlId>>, q: nat, jobs: nat,
                                                   jobFails: set<nat>, hookFails: set<nat>)
    requires IdleQueryAhead(snapshots, q)
    ensures var r := Drain(snapshots, q, jobs, jobFails, hookFails);
            HookCount(r.trace) + (if r.outcome.JobThrew? then 1 else 0) == |Jobs(r.trace)|
    decreases |snapshots| - q + 1, 0
  {
    var crawls := snapshots[q];
    if crawls != [] {
      var rest := ImportAll(snapshots, q + 1, crawls, jobs, jobFails, hookFails);
      ImportAllHooksMatch(snapshots, q + 1, crawls, jobs, jobFails, hookFails);
      ProjectionsAppend([Query(crawls)], rest.trace);
    }
  }

  lemma {:induction false} ImportAllHooksMatch(snapshots: seq<seq<CrawlId>>, q: nat, crawls: seq<CrawlId>, jobs: nat,
                                               jobFails: set<nat>, hookFails: set<nat>)
    requires IdleQueryAhead(snapshots, q)
    ensures var r := ImportAll(snapshots, q, crawls, jobs, jobFails, hookFails);
            HookCount(r.trace) + (if r.outcome.JobThrew? then 1 else 0) == |Jobs(r.trace)|
    decreases |snapshots| - q + 1, |crawls| + 1
  {
    if crawls == [] {
      HooksMatchCompletedJobs(snapshots, q, jobs, jobFails, hookFails);
    } else if jobs in jobFails {
      ProjectionsAppend([Job(crawls[0])], []);
    } else if jobs in hookFails {
      ProjectionsAppend([Job(crawls[0]), Hook], []);
    } else {
      var rest := ImportAll(snapshots, q, crawls[1..], jobs + 1, jobFails, hookFails);
      ImportAllHooksMatch(snapshots, q, crawls[1..], jobs + 1, jobFails, hookFails);
      ProjectionsAppend([Job(crawls[0]), Hook], rest.trace);
      assert Jobs([Job(crawls[0]), Hook]) == [crawls[0]];
    }
  }

  /** run returns normally only right after a query that answered no crawls, and no earlier query did. */
  predicate IdleOnlyAfterEmptyAnswer(r: RunResult)
  {
    && (r.outcome == Idle ==> |r.trace| > 0 && r.trace[|r.trace| - 1] == Query([]))
    && forall i :: 0 <= i < |r.trace| && r.trace[i] == Query([]) ==> i == |r.trace| - 1 && r.outcome == Idle
  }

  lemma PrependIdleOnlyAfterEmptyAnswer(events: seq<Event>, r: RunResult)
    requires IdleOnlyAfterEmptyAnswer(r)
    requires forall i :: 0 <= i < |events| ==> events[i] != Query([])
    ensures IdleOnlyAfterEmptyAnswer(Prepend(events, r))
  {
    var t := events + r.trace;
    if r.outcome == Idle {
      assert t[|t| - 1] == r.trace[|r.trace| - 1];
    }
    forall i | 0 <= i < |t| && t[i] == Query([])
      ensures i == |t| - 1 && r.outcome == Idle
    {
      if i >= |events| {
        assert r.trace[i - |events|] == t[i];
      }
    }
  }

  lemma {:induction false} DrainIdleOnlyAfterEmptyAnswer(snapshots: seq<seq<CrawlId>>, q: nat, jobs: nat,
                                                         jobFails: set<nat>, hookFails: set<nat>)
    requires IdleQueryAhead(snapshots, q)
    ensures IdleOnlyAfterEmptyAnswer(Drain(snapshots, q, jobs, jobFails, hookFails))
    decreases |snapshots| - q + 1, 0
  {
    var crawls := snapshots[q];
    if crawls != [] {
      ImportAllIdleOnlyAfterEmptyAnswer(snapshots, q + 1, crawls, jobs, jobFails, hookFails);
      PrependIdleOnlyAfterEmptyAnswer([Query(crawls)], ImportAll(snapshots, q + 1, crawls, jobs, jobFails, hookFails));
    }
  }

  lemma {:induction false} ImportAllIdleOnlyAfterEmptyAnswer(snapshots: seq<seq<CrawlId>>, q: nat, crawls: seq<CrawlId>,
                                                             jobs: nat, jobFails: set<nat>, hookFails: set<nat>)
    requires IdleQueryAhead(snapshots, q)
    ensures IdleOnlyAfterEmptyAnswer(ImportAll(snapshots, q, crawls, jobs, jobFails, hookFails))
    decreases |snapshots| - q + 1, |crawls| + 1
  {
    if crawls == [] {
      DrainIdleOnlyAfterEmptyAnswer(snapshots, q, jobs, jobFails, hookFails);
    } else if jobs !in jobFails && jobs !in hookFails {
      ImportAllIdleOnlyAfterEmptyAnswer(snapshots, q, crawls[1..], jobs + 1, jobFails, hookFails);
      PrependIdleOnlyAfterEmptyAnswer([Job(crawls[0]), Hook], ImportAll(snapshots, q, crawls[1..], jobs + 1, jobFails, hookFails));
    }
  }

  /**
   * Each ImportJob is followed at once by a hook call, except one that threw,
   * which ends the run; each hook call follows an ImportJob.  So the hook runs
   * before the next crawl is started.
   */
  predicate HookRightAfterEachJob(r: RunResult)
  {
    && (forall i :: 0 <= i < |r.trace| - 1 && r.trace[i].Job? ==> r.trace[i + 1] == Hook)
    && (|r.trace| > 0 && r.trace[|r.trace| - 1].Job? ==> r.outcome == JobThrew(r.trace[|r.trace| - 1].crawlId))
    && (forall i :: 0 <= i < |r.trace| && r.trace[i] == Hook ==> 0 < i && r.trace[i - 1].Job?)
  }

  lemma PrependHookRightAfterEachJob(events: seq<Event>, r: RunResult)
    requires HookRightAfterEachJob(r)
    requires (|events| == 2 && events[0].Job? && events[1] == Hook) || (|events| == 1 && events[0].Query?)
    ensures HookRightAfterEachJob(Prepend(events, r))
  {
    var t := events + r.trace;
    forall i | 0 <= i < |t| - 1 && t[i].Job?
      ensures t[i + 1] == Hook
    {
      if i >= |events| {
        assert t[i] == r.trace[i - |events|];
        assert t[i + 1] == r.trace[i + 1 - |events|];
      } else {
        assert t[1] == events[1];
      }
    }
    if t[|t| - 1].Job? {
      assert |r.trace| > 0 && t[|t| - 1] == r.trace[|r.trace| - 1];
    }
    forall i | 0 <= i < |t| && t[i] == Hook
      ensures 0 < i && t[i - 1].Job?
    {
      if i >= |events| {
        assert t[i] == r.trace[i - |events|];
        if i > |events| {
          assert t[i - 1] == r.trace[i - 1 - |events|];
        }
      }
    }
  }

  lemma {:induction false} DrainHookRightAfterEachJob(snapshots: seq<seq<CrawlId>>, q: nat, jobs: nat,
                                                      jobFails: set<nat>, hookFails: set<nat>)
    requires IdleQueryAhead(snapshots, q)
    ensures HookRightAfterEachJob(Drain(snapshots, q, jobs, jobFails, hookFails))
    decreases |snapshots| - q + 1, 0
  {
    var crawls := snapshots[q];
    if crawls != [] {
      ImportAllHookRightAfterEachJob(snapshots, q + 1, crawls, jobs, jobFails, hookFails);
      PrependHookRightAfterEachJob([Query(crawls)], ImportAll(snapshots, q + 1, crawls, jobs, jobFails, hookFails));
    }
  }

  lemma {:induction false} ImportAllHookRightAfterEachJob(snapshots: seq<seq<CrawlId>>, q: nat, crawls: seq<CrawlId>,
                                                          jobs: nat, jobFails: set<nat>, hookFails: set<nat>)
    requires IdleQueryAhead(snapshots, q)
    ensures HookRightAfterEachJob(ImportAll(snapshots, q, crawls, jobs, jobFails, hookFails))
    decreases |snapshots| - q + 1, |crawls| + 1
  {
    if crawls == [] {
      DrainHookRightAfterEachJob(snapshots, q, jobs, jobFails, hookFails);
    } else if jobs !in jobFails && jobs !in hookFails {
      ImportAllHookRightAfterEachJob(snapshots, q, crawls[1..], jobs + 1, jobFails, hookFails);
      PrependHookRightAfterEachJob([Job(crawls[0]), Hook], ImportAll(snapshots, q, crawls[1..], jobs + 1, jobFails, hookFails));
    }
  }

  lemma {:induction false} PairsProjections(crawls: seq<CrawlId>)
    ensures Jobs(Pairs(crawls)) == crawls && HookCount(Pairs(crawls)) == |crawls|
    decreases |crawls|
  {
    if crawls != [] {
      PairsProjections(crawls[1..]);
      ProjectionsAppend([Job(crawls[0]), Hook], Pairs(crawls[1..]));
      assert Jobs([Job(crawls[0]), Hook]) == [crawls[0]];
    }
  }

  lemma {:induction false} RoundsProjections(answers: seq<seq<CrawlId>>)
    ensures Jobs(Rounds(answers)) == Flatten(answers) && HookCount(Rounds(answers)) == |Flatten(answers)|
    decreases |answers|
  {
    if answers != [] {
      var query := [Query(answers[0])];
      var round := query + Pairs(answers[0]);
      assert Rounds(answers) == round + Rounds(answers[1..]);
      assert Flatten(answers) == answers[0] + Flatten(answers[1..]);
      assert Jobs(query) == [] && HookCount(query) == 0;
      RoundsProjections(answers[1..]);
      PairsProjections(answers[0]);
      ProjectionsAppend(query, Pairs(answers[0]));
      assert Jobs(round) == answers[0] && HookCount(round) == |answers[0]|;
      ProjectionsAppend(round, Rounds(answers[1..]));
    }
  }

  /**
   * Without exceptions, the ImportJobs run on the crawls of the answers before
   * the first empty one, answer by answer and in each answer's order, each
   * crawl once per answer, with one hook call per ImportJob.
   */
  lemma JobsInAnswerOrder(snapshots: seq<seq<CrawlId>>)
    requires IdleQueryAhead(snapshots, 0)
    ensures var r := Drain(snapshots, 0, 0, {}, {});
            var answered := Flatten(snapshots[..FirstIdle(snapshots, 0)]);
            Jobs(r.trace) == answered && HookCount(r.trace) == |answered|
  {
    var k := FirstIdle(snapshots, 0);
    DrainWithoutExceptions(snapshots, 0, 0);
    assert snapshots[0..k] == snapshots[..k];
    RoundsProjections(snapshots[..k]);
    ProjectionsAppend(Rounds(snapshots[..k]), [Query([])]);
  }

  // ---------------------------------------------------------------------
  // Which call ends a run

  /** The crawls a run imports from its q-th query on when nothing throws, in order. */
  function Remaining(snapshots: seq<seq<CrawlId>>, q: nat): seq<CrawlId>
    requires IdleQueryAhead(snapshots, q)
  {
    Flatten(snapshots[q..FirstIdle(snapshots, q)])
  }

  lemma RemainingAfterEmpty(snapshots: seq<seq<CrawlId>>, q: nat)
    requires IdleQueryAhead(snapshots, q)
    ensures snapshots[q] == [] ==> Remaining(snapshots, q) == []
  {
    if snapshots[q] == [] {
      assert snapshots[q..FirstIdle(snapshots, q)] == [];
    }
  }

  lemma RemainingStep(snapshots: seq<seq<CrawlId>>, q: nat)
    requires IdleQueryAhead(snapshots, q) && snapshots[q] != []
    ensures IdleQueryAhead(snapshots, q + 1)
    ensures Remaining(snapshots, q) == snapshots[q] + Remaining(snapshots, q + 1)
  {
    var k := FirstIdle(snapshots, q);
    assert IdleQueryAhead(snapshots, q + 1) by { assert q + 1 <= k; }
    assert FirstIdle(snapshots, q + 1) == k;
    var answers := snapshots[q..k];
    assert answers[0] == snapshots[q] && answers[1..] == snapshots[q + 1..k];
  }

  /** The n-th ImportJob call, or the hook call after it, is the first to throw from call number `jobs` on. */
  predicate FirstFailure(n: nat, jobs: nat, jobFails: set<nat>, hookFails: set<nat>)
  {
    && jobs <= n && n in jobFails + hookFails
    && forall m :: m in jobFails + hookFails && jobs <= m ==> n <= m
  }

  /** A run goes idle exactly when no ImportJob call it reaches, and no hook call after one, throws. */
  lemma {:induction false} DrainIdleIffNothingThrows(snapshots: seq<seq<CrawlId>>, q: nat, jobs: nat,
                                                     jobFails: set<nat>, hookFails: set<nat>)
    requires IdleQueryAhead(snapshots, q)
    ensures Drain(snapshots, q, jobs, jobFails, hookFails).outcome == Idle
        <==> forall n :: n in jobFails + hookFails ==> !(jobs <= n < jobs + |Remaining(snapshots, q)|)
    decreases |snapshots| - q + 1, 0
  {
    var crawls := snapshots[q];
    RemainingAfterEmpty(snapshots, q);
    if crawls != [] {
      RemainingStep(snapshots, q);
      ImportAllIdleIffNothingThrows(snapshots, q + 1, crawls, jobs, jobFails, hookFails);
    }
  }

  lemma {:induction false} ImportAllIdleIffNothingThrows(snapshots: seq<seq<CrawlId>>, q: nat, crawls: seq<CrawlId>,
                                                         jobs: nat, jobFails: set<nat>, hookFails: set<nat>)
    requires IdleQueryAhead(snapshots, q)
    ensures ImportAll(snapshots, q, crawls, jobs, jobFails, hookFails).outcome == Idle
        <==> forall n :: n in jobFails + hookFails ==> !(jobs <= n < jobs + |crawls| + |Remaining(snapshots, q)|)
    decreases |snapshots| - q + 1, |crawls| + 1
  {
    if crawls == [] {
      DrainIdleIffNothingThrows(snapshots, q, jobs, jobFails, hookFails);
    } else if jobs !in jobFails && jobs !in hookFails {
      var end := jobs + |crawls| + |Remaining(snapshots, q)|;
      assert jobs + 1 + |crawls[1..]| + |Remaining(snapshots, q)| == end;
      assert ImportAll(snapshots, q, crawls, jobs, jobFails, hookFails).outcome
          == ImportAll(snapshots, q, crawls[1..], jobs + 1, jobFails, hookFails).outcome;
      ImportAllIdleIffNothingThrows(snapshots, q, crawls[1..], jobs + 1, jobFails, hookFails);
      assert (forall n :: n in jobFails + hookFails ==> !(jobs <= n < end))
         <==> (forall n :: n in jobFails + hookFails ==> !(jobs + 1 <= n < end));
    } else {
      assert jobs in jobFails + hookFails;
    }
  }

  /**
   * A run whose first throwing call is the n-th ends there: it started exactly
   * the ImportJobs up to and including the n-th, and the n-th crawl's ImportJob
   * or hook call is what threw.
   */
  lemma {:induction false} DrainEndsAtFirstFailure(snapshots: seq<seq<CrawlId>>, q: nat, jobs: nat,
                                                   jobFails: set<nat>, hookFails: set<nat>, n: nat)
    requires IdleQueryAhead(snapshots, q)
    requires FirstFailure(n, jobs, jobFails, hookFails) && n < jobs + |Remaining(snapshots, q)|
    ensures var r := Drain(snapshots, q, jobs, jobFails, hookFails);
            var crawl := Remaining(snapshots, q)[n - jobs];
            && |Jobs(r.trace)| == n - jobs + 1
            && r.outcome == (if n in jobFails then JobThrew(crawl) else HookThrew(crawl))
    decreases |snapshots| - q + 1, 0
  {
    var crawls := snapshots[q];
    RemainingAfterEmpty(snapshots, q);
    assert crawls != [];
    RemainingStep(snapshots, q);
    var rest := ImportAll(snapshots, q + 1, crawls, jobs, jobFails, hookFails);
    ImportAllEndsAtFirstFailure(snapshots, q + 1, crawls, jobs, jobFails, hookFails, n);
    ProjectionsAppend([Query(crawls)], rest.trace);
  }

  lemma {:induction false} ImportAllEndsAtFirstFailure(snapshots: seq<seq<CrawlId>>, q: nat, crawls: seq<CrawlId>,
                                                       jobs: nat, jobFails: set<nat>, hookFails: set<nat>, n: nat)
    requires IdleQueryAhead(snapshots, q)
    requires FirstFailure(n, jobs, jobFails, hookFails) && n < jobs + |crawls| + |Remaining(snapshots, q)|
    ensures var r := ImportAll(snapshots, q, crawls, jobs, jobFails, hookFails);
            var crawl := (crawls + Remaining(snapshots, q))[n - jobs];
            && |Jobs(r.trace)| == n - jobs + 1
            && r.outcome == (if n in jobFails then JobThrew(crawl) else HookThrew(crawl))
    decreases |snapshots| - q + 1, |crawls| + 1
  {
    var all := crawls + Remaining(snapshots, q);
    if crawls == [] {
      assert all == Remaining(snapshots, q);
      DrainEndsAtFirstFailure(snapshots, q, jobs, jobFails, hookFails, n);
    } else if jobs in jobFails {
      assert n == jobs && all[0] == crawls[0];
      ProjectionsAppend([Job(crawls[0])], []);
    } else if jobs in hookFails {
      assert n == jobs && all[0] == crawls[0];
      ProjectionsAppend([Job(crawls[0]), Hook], []);
      assert Jobs([Job(crawls[0]), Hook]) == [crawls[0]];
    } else {
      var rest := ImportAll(snapshots, q, crawls[1..], jobs + 1, jobFails, hookFails);
      assert FirstFailure(n, jobs + 1, jobFails, hookFails);
      ImportAllEndsAtFirstFailure(snapshots, q, crawls[1..], jobs + 1, jobFails, hookFails, n);
      ProjectionsAppend([Job(crawls[0]), Hook], rest.trace);
      assert Jobs([Job(crawls[0]), Hook]) == [crawls[0]];
      assert all[n - jobs] == (crawls[1..] + Remaining(snapshots, q))[n - jobs - 1];
    }
  }

  /**
   * Nothing in run catches an exception: the run goes idle exactly when no
   * ImportJob among the crawls it would import without exceptions, and no hook
   * call after one, throws.
   */
  lemma IdleIffNothingThrows(snapshots: seq<seq<CrawlId>>, jobFails: set<nat>, hookFails: set<nat>)
    requires IdleQueryAhead(snapshots, 0)
    ensures var all := Flatten(snapshots[..FirstIdle(snapshots, 0)]);
            (Drain(snapshots, 0, 0, jobFails, hookFails).outcome == Idle
             <==> forall n :: n in jobFails + hookFails ==> n >= |all|)
  {
    assert snapshots[0..FirstIdle(snapshots, 0)] == snapshots[..FirstIdle(snapshots, 0)];
    DrainIdleIffNothingThrows(snapshots, 0, 0, jobFails, hookFails);
  }

  /**
   * The first failing call ends the run: when the n-th ImportJob, or the hook
   * call after it, is the first to throw, run started exactly n + 1 ImportJobs
   * and the n-th crawl's ImportJob or hook is the exception that escapes.
   */
  lemma RunEndsAtFirstFailure(snapshots: seq<seq<CrawlId>>, jobFails: set<nat>, hookFails: set<nat>, n: nat)
    requires IdleQueryAhead(snapshots, 0)
    requires n < |Flatten(snapshots[..FirstIdle(snapshots, 0)])|
    requires n in jobFails + hookFails && forall m :: m in jobFails + hookFails ==> n <= m
    ensures var all := Flatten(snapshots[..FirstIdle(snapshots, 0)]);
            var r := Drain(snapshots, 0, 0, jobFails, hookFails);
            && |Jobs(r.trace)| == n + 1
            && r.outcome == (if n in jobFails then JobThrew(all[n]) else HookThrew(all[n]))
  {
    assert snapshots[0..FirstIdle(snapshots, 0)] == snapshots[..FirstIdle(snapshots, 0)];
    DrainEndsAtFirstFailure(snapshots, 0, 0, jobFails, hookFails, n);
  }
}
