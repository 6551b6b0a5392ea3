/** What a job finds and stores, told from the snapshots that were brought. */
module ContentionRules {
  import opened Basics
  import opened WaitGraphs
  import opened Cascade
  import opened CascadeRules
  import opened DeadlockReports
  import opened DeadlockDetector
  import opened DeadlockDetectorRules
  import opened Contention

  // ----- deadlocks -----

  predicate JobFinds(j: Job, f: Finding, sign: Signer) {
    exists r | r in j.reports :: TellsFinding(r, f, j.indexes, sign)
  }

  predicate JobRecords(j: Job, e: Event) { exists r | r in j.reports :: TellsEvent(r, e, j.indexes) }

  lemma {:induction false} InsertedAreBrought(table: EventTable, es: seq<Event>, k: ReportKey)
    requires k in InsertNew(table, es) && k !in table
    ensures InsertNew(table, es)[k] in es && InsertNew(table, es)[k].key == k
  {
    var before, e := InsertNew(table, es[..|es| - 1]), es[|es| - 1];
    if k in before {
      InsertedAreBrought(table, es[..|es| - 1], k);
    }
  }

  /** The deadlocks that a job finds, and the events that it adds to the table, are
      reports of its snapshot as the rules judge them. */
  lemma HandleTellsReports(w: World, j: Job, sign: Signer)
    ensures forall f | f in Handle(w, j, sign).1.deadlocks :: JobFinds(j, f, sign)
    ensures forall k | k in Handle(w, j, sign).0.events && k !in w.events ::
      JobRecords(j, Handle(w, j, sign).0.events[k])
    ensures forall k | k in w.events ::
      k in Handle(w, j, sign).0.events && Handle(w, j, sign).0.events[k] == w.events[k]
  {
    var m, sorted := Pruned(DeadlocksFor(w.state, j.at), j.at), SortByTime(j.reports);
    var p := Process(sorted, Start(m), j.indexes, sign);
    assert DetectFor(w.state, j, sign) == p;
    ProcessTellsReports(sorted, m, j.indexes, sign);
    SortKeepsReports(j.reports);
    InsertAgain(w.events, p.events);
    hide TellsFinding, TellsEvent, SortByTime, Process, IsNewAt, DetectFor, NextRoots, CascadeFindings;
    forall f | f in p.findings ensures JobFinds(j, f, sign) {
      assert FindsReport(sorted, m.seen, f, j.indexes, sign);
    }
    forall e | e in p.events ensures JobRecords(j, e) {
      assert RecordsReport(sorted, m.seen, e, j.indexes);
    }
    var table := InsertNew(w.events, p.events);
    forall k | k in table && k !in w.events ensures JobRecords(j, table[k]) {
      InsertedAreBrought(w.events, p.events, k);
    }
  }

  lemma SortKeepsReports(rs: seq<Report>)
    ensures forall r :: r in SortByTime(rs) <==> r in rs
  {
    SortPermutes(rs);
    assert forall r :: r in SortByTime(rs) <==> r in multiset(SortByTime(rs));
    assert forall r :: r in rs <==> r in multiset(rs);
  }

  // ----- cascades -----

  ghost predicate AreLongWaiters(rows: seq<Session>, t: Instant, root: int, waiters: set<int>) {
    forall p :: p in waiters <==> IsLongWaiter(rows, t, root, p)
  }

  lemma LongWaitersAre(rows: seq<Session>, t: Instant, root: int)
    ensures AreLongWaiters(rows, t, root, LongWaiters(rows, t, root))
  {
    forall p ensures p in LongWaiters(rows, t, root) <==> IsLongWaiter(rows, t, root, p) {
      LongWaiterExactlyWhen(rows, t, root, p);
    }
    hide IsLongWaiter, LongWaiters;
  }

  lemma {:induction false} RunIsHistoryAll(js: seq<Job>, sign: Signer)
    requires Increasing(js)
    ensures IsHistory(SamplesOf(js), RootsOf(js, sign))
  {
    forall k | 0 <= k < |js| ensures IsStep(SamplesOf(js), RootsOf(js, sign), k) {
      RunIsHistory(js, k, sign);
    }
    hide IsStep;
  }

  /** Which transactions job n of a run reports. */
  lemma {:induction false} RunReportsExactly(js: seq<Job>, n: nat, key: RootKey, sign: Signer)
    requires Increasing(js) && n < |js|
    ensures (exists f | f in OutcomeAt(js, n, sign).cascade :: f.key == key) <==>
      && IsLongAt(SamplesOf(js), n, key) && IsNext(SamplesOf(js), n) && IsLongAt(SamplesOf(js), n - 1, key)
      && !(IsNext(SamplesOf(js), n - 1) && IsLongAt(SamplesOf(js), n - 2, key))
  {
    RunIsHistoryAll(js, sign);
    RunIsHistory(js, n, sign);
    hide *;
    ReportedExactlyWhen(SamplesOf(js), RootsOf(js, sign), n, key) by {
      assert |SamplesOf(js)| == |js|;
    }
  }

  /** What a finding tells: the instant of the sample before, in which its
      transaction first met the rule, and how many sessions wait long now. */
  lemma {:induction false} CascadeFindingTells(js: seq<Job>, n: nat, f: CascadeFinding, sign: Signer)
      returns (waiters: set<int>)
    requires Increasing(js) && n < |js| && f in OutcomeAt(js, n, sign).cascade
    ensures n > 0 && f.firstSeen == js[n - 1].at
    ensures AreLongWaiters(js[n].rows, js[n].at, f.key.pid, waiters) && f.longWaiters == |waiters|
  {
    var samples, roots := SamplesOf(js), RootsOf(js, sign);
    assert |samples| == |roots| == |js|;
    assert samples[n] == Sample(js[n].at, js[n].rows) && (n > 0 ==> samples[n - 1].at == js[n - 1].at);
    RunIsHistoryAll(js, sign);
    RootsInRun(js, n, sign);
    waiters := LongWaiters(js[n].rows, js[n].at, f.key.pid);
    LongWaitersAre(js[n].rows, js[n].at, f.key.pid);
    hide *;
    FindingIsDue(js[n].rows, js[n].at, PreviousAt(samples, roots, n), f);
    assert ReportsAt(samples, roots, n, f.key) by {
      DueAtSample(samples, roots, n, f.key);
    }
    FirstSeenBefore(samples, roots, n, f.key);
  }

  lemma FindingIsDue(rows: seq<Session>, t: Instant, previous: Roots, f: CascadeFinding)
    requires f in CascadeFindings(rows, t, previous)
    ensures Cascade.Reports(rows, t, previous, f.key)
    ensures f.key in previous && f.firstSeen == previous[f.key].firstSeen
    ensures f.longWaiters == |LongWaiters(rows, t, f.key.pid)|
  {
    hide IsCascadeRoot, LongWaiters;
  }

  lemma DueAtSample(samples: seq<Sample>, roots: seq<Roots>, n: nat, key: RootKey)
    requires n < |samples| == |roots|
    ensures ReportsAt(samples, roots, n, key) <==>
      Cascade.Reports(samples[n].rows, samples[n].at, PreviousAt(samples, roots, n), key)
  {
    hide IsCascadeRoot;
  }
}
