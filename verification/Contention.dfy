/** The contention state machine: one step per job, with two generations of
    memory so that a job delivered again computes the same. */
module Contention {
  import opened Basics
  import opened WaitGraphs
  import opened Cascade
  import opened DeadlockReports
  import opened DeadlockDetector

  /** What is kept per database: what the last sample left, and what the one
      before it left. */
  datatype State = State(
    capturedAt: Option<Instant>, roots: Roots,
    prevCapturedAt: Option<Instant>, prevRoots: Roots,
    deadlocks: Memory, prevDeadlocks: Memory)

  const NEW_STATE := State(None, map[], None, map[], NOTHING_SEEN, NOTHING_SEEN)

  /** The roots of the sample before t, or None if a later one was processed. */
  function PreviousFor(s: State, t: Instant): Option<Roots> {
    if s.capturedAt.None? then Some(map[])
    else if t == s.capturedAt.value then Some(Consecutive(s.prevRoots, s.prevCapturedAt, t))
    else if t < s.capturedAt.value then None
    else Some(Consecutive(s.roots, s.capturedAt, t))
  }

  function DeadlocksFor(s: State, t: Instant): Memory {
    if s.capturedAt == Some(t) then s.prevDeadlocks else s.deadlocks
  }

  function Advance(s: State, t: Instant, roots: Roots, deadlocks: Memory): State {
    if s.capturedAt == Some(t) then State(Some(t), roots, s.prevCapturedAt, s.prevRoots, deadlocks, s.prevDeadlocks)
    else State(Some(t), roots, s.capturedAt, s.roots, deadlocks, s.deadlocks)
  }

  /** The stored row, which an older state never overwrites. */
  function SaveState(row: State, s: State): State {
    if row.capturedAt.Some? && s.capturedAt.Some? && row.capturedAt.value > s.capturedAt.value then row else s
  }

  type EventTable = map<ReportKey, Event>

  /** The first event of each key stays. */
  function InsertNew(table: EventTable, es: seq<Event>): EventTable {
    if es == [] then table
    else
      var before, e := InsertNew(table, es[..|es| - 1]), es[|es| - 1];
      if e.key in before then before else before[e.key := e]
  }

  // ----- one job -----

  datatype Job = Job(at: Instant, rows: seq<Session>, reports: seq<Report>, indexes: seq<IndexRow>)

  datatype World = World(state: State, events: EventTable)

  const NEW_WORLD := World(NEW_STATE, map[])

  datatype Outcome = Outcome(cascade: set<CascadeFinding>, deadlocks: seq<Finding>)

  const NO_FINDINGS := Outcome({}, [])

  function RootCandidates(rows: seq<Session>): set<RootKey> {
    set r | r in rows && r.transactionStart.Some? :: RootKey(r.pid, r.transactionStart.value)
  }

  ghost function NextRoots(rows: seq<Session>, t: Instant, previous: Roots): Roots {
    map key | key in RootCandidates(rows) && IsCascadeRoot(rows, t, key) :: NextRoot(previous, key, t)
  }

  ghost function CascadeFindings(rows: seq<Session>, t: Instant, previous: Roots): set<CascadeFinding> {
    set key | key in RootCandidates(rows) && Cascade.Reports(rows, t, previous, key) ::
      CascadeFinding(key, previous[key].firstSeen, |LongWaiters(rows, t, key.pid)|)
  }

  function DetectFor(s: State, j: Job, sign: Signer): Progress {
    Detect(j.reports, j.indexes, j.at, DeadlocksFor(s, j.at), sign)
  }

  /** A job: dropped if it is older than the last one processed. */
  ghost function Handle(w: World, j: Job, sign: Signer): (World, Outcome) {
    var previous := PreviousFor(w.state, j.at);
    if previous.None? then (w, NO_FINDINGS)
    else
      var d := DetectFor(w.state, j, sign);
      var after := Advance(w.state, j.at, NextRoots(j.rows, j.at, previous.value), d.memory);
      (World(SaveState(w.state, after), InsertNew(w.events, d.events)),
       Outcome(CascadeFindings(j.rows, j.at, previous.value), d.findings))
  }

  lemma {:induction false} RowOfIn(rows: seq<Session>, pid: int)
    ensures RowOf(rows, pid).Some? ==> RowOf(rows, pid).value in rows && RowOf(rows, pid).value.pid == pid
  {
    if rows != [] {
      RowOfIn(rows[..|rows| - 1], pid);
    }
  }

  lemma RootsAreCandidates(rows: seq<Session>, t: Instant, key: RootKey)
    requires IsCascadeRoot(rows, t, key)
    ensures key in RootCandidates(rows)
  {
    RowOfIn(rows, key.pid);
  }

  lemma NextRootsAre(rows: seq<Session>, t: Instant, previous: Roots)
    ensures AreNextRoots(rows, t, previous, NextRoots(rows, t, previous))
    ensures forall current :: AreNextRoots(rows, t, previous, current) ==> current == NextRoots(rows, t, previous)
    ensures forall key :: Cascade.Reports(rows, t, previous, key) <==>
      exists f | f in CascadeFindings(rows, t, previous) :: f.key == key
  {
    forall key | IsCascadeRoot(rows, t, key) ensures key in RootCandidates(rows) {
      RootsAreCandidates(rows, t, key);
    }
    hide IsCascadeRoot;
    forall key | Cascade.Reports(rows, t, previous, key)
      ensures exists f | f in CascadeFindings(rows, t, previous) :: f.key == key
    {
      assert CascadeFinding(key, previous[key].firstSeen, |LongWaiters(rows, t, key.pid)|)
        in CascadeFindings(rows, t, previous);
    }
  }

  // ----- redelivery -----

  lemma {:induction false} InsertAgain(table: EventTable, es: seq<Event>)
    ensures forall k | k in table :: k in InsertNew(table, es) && InsertNew(table, es)[k] == table[k]
    ensures forall k :: k in InsertNew(table, es) <==> k in table || Recorded(es, k)
  {
    if es != [] {
      InsertAgain(table, es[..|es| - 1]);
      assert es == es[..|es| - 1] + [es[|es| - 1]];
    }
  }

  lemma {:induction false} InsertKnown(table: EventTable, es: seq<Event>)
    requires forall k | 0 <= k < |es| :: es[k].key in table
    ensures InsertNew(table, es) == table
  {
    if es != [] {
      InsertKnown(table, es[..|es| - 1]);
    }
  }

  /** Handling a job again at once changes nothing more and finds the same. */
  lemma HandleTwice(w: World, j: Job, sign: Signer)
    ensures var first := Handle(w, j, sign); Handle(first.0, j, sign) == first
  {
    var first := Handle(w, j, sign);
    if PreviousFor(w.state, j.at).Some? {
      assert PreviousFor(first.0.state, j.at) == PreviousFor(w.state, j.at);
      assert DeadlocksFor(first.0.state, j.at) == DeadlocksFor(w.state, j.at);
      var es := DetectFor(w.state, j, sign).events;
      InsertAgain(w.events, es);
      forall k | 0 <= k < |es| ensures es[k].key in first.0.events {
        assert es[k] in es;
      }
      InsertKnown(first.0.events, es);
    }
  }

  /** A job older than the last one processed finds and changes nothing. */
  lemma OldJobIsDropped(w: World, j: Job, sign: Signer)
    requires w.state.capturedAt.Some? && j.at < w.state.capturedAt.value
    ensures Handle(w, j, sign) == (w, NO_FINDINGS)
  {
  }

  /** The last instant processed never goes back, and a job that is not old
      becomes the last one. */
  lemma InstantAdvances(w: World, j: Job, sign: Signer)
    ensures var at := Handle(w, j, sign).0.state.capturedAt;
      at == if w.state.capturedAt.Some? && w.state.capturedAt.value > j.at then w.state.capturedAt else Some(j.at)
  {
  }

  // ----- runs -----

  ghost function Deliver(w: World, js: seq<Job>, sign: Signer): World {
    if js == [] then w else Handle(Deliver(w, js[..|js| - 1], sign), js[|js| - 1], sign).0
  }

  /** What delivery n finds. */
  ghost function OutcomeAt(js: seq<Job>, n: nat, sign: Signer): Outcome
    requires n < |js|
  {
    Handle(Deliver(NEW_WORLD, js[..n], sign), js[n], sign).1
  }

  predicate Increasing(js: seq<Job>) { forall i, k | 0 <= i < k < |js| :: js[i].at < js[k].at }

  /** Two deliveries of one instant are the same job. */
  predicate SameTimeSameJob(js: seq<Job>) {
    forall i, k | 0 <= i < k < |js| && js[i].at == js[k].at :: js[i] == js[k]
  }

  /** The deliveries that were new when they came. */
  function Accepted(js: seq<Job>): (r: seq<Job>)
    ensures js != [] ==> r != []
  {
    if js == [] then []
    else
      var before, last := Accepted(js[..|js| - 1]), js[|js| - 1];
      if before == [] || before[|before| - 1].at < last.at then before + [last] else before
  }

  lemma IncreasingGrows(js: seq<Job>, j: Job)
    requires Increasing(js) && (js != [] ==> js[|js| - 1].at < j.at)
    ensures Increasing(js + [j])
  {
    forall i, k | 0 <= i < k < |js + [j]| ensures (js + [j])[i].at < (js + [j])[k].at {
      if k == |js| && i < |js| - 1 {
        assert js[i].at < js[|js| - 1].at;
      }
    }
  }

  lemma {:induction false} AcceptedIncreases(js: seq<Job>)
    ensures Increasing(Accepted(js))
    ensures js != [] ==> Accepted(js)[|Accepted(js)| - 1].at >= js[|js| - 1].at
  {
    if js != [] {
      var before, last := Accepted(js[..|js| - 1]), js[|js| - 1];
      AcceptedIncreases(js[..|js| - 1]);
      if before == [] || before[|before| - 1].at < last.at {
        IncreasingGrows(before, last);
      }
      hide Increasing;
    } else {
      assert Accepted(js) == [];
    }
  }

  lemma {:induction false} AcceptedAreDelivered(js: seq<Job>, j: Job)
    requires j in Accepted(js)
    ensures j in js
  {
    if js != [] {
      var before, last := Accepted(js[..|js| - 1]), js[|js| - 1];
      assert j in before || j == last;
      if j in before {
        AcceptedAreDelivered(js[..|js| - 1], j);
      }
    }
  }

  lemma {:induction false} LastInstant(js: seq<Job>, sign: Signer)
    requires Increasing(js)
    ensures Deliver(NEW_WORLD, js, sign).state.capturedAt == if js == [] then None else Some(js[|js| - 1].at)
  {
    if js != [] {
      LastInstant(js[..|js| - 1], sign);
      InstantAdvances(Deliver(NEW_WORLD, js[..|js| - 1], sign), js[|js| - 1], sign);
      hide Handle;
    }
  }

  /** After an increasing run, its last job changes nothing more and finds what
      it found; and a job older than the last is dropped. */
  lemma {:induction false} RunEndsSettled(js: seq<Job>, j: Job, sign: Signer)
    requires Increasing(js) && js != [] && j.at <= js[|js| - 1].at
    requires j.at == js[|js| - 1].at ==> j == js[|js| - 1]
    ensures Handle(Deliver(NEW_WORLD, js, sign), j, sign) ==
      (Deliver(NEW_WORLD, js, sign), if j == js[|js| - 1] then OutcomeAt(js, |js| - 1, sign) else NO_FINDINGS)
  {
    LastInstant(js, sign);
    if j == js[|js| - 1] {
      HandleTwice(Deliver(NEW_WORLD, js[..|js| - 1], sign), j, sign);
    } else {
      OldJobIsDropped(Deliver(NEW_WORLD, js, sign), j, sign);
    }
  }

  /** Deliveries that repeat, arrive late or out of order leave the world exactly
      as if each job that was new on arrival had come once, in order. */
  lemma {:induction false} DeliveriesCollapse(js: seq<Job>, sign: Signer)
    requires SameTimeSameJob(js)
    ensures Deliver(NEW_WORLD, js, sign) == Deliver(NEW_WORLD, Accepted(js), sign)
  {
    if js != [] {
      var front, last := js[..|js| - 1], js[|js| - 1];
      DeliveriesCollapse(front, sign);
      var kept := Accepted(front);
      hide Handle;
      if kept == [] || kept[|kept| - 1].at < last.at {
        assert Accepted(js)[..|kept|] == kept;
      } else {
        assert front + [last] == js;
        SettledAt(front, last);
        RunEndsSettled(kept, last, sign);
      }
    }
  }

  lemma SettledAt(front: seq<Job>, last: Job)
    requires SameTimeSameJob(front + [last]) && Accepted(front) != []
    ensures var kept := Accepted(front);
      Increasing(kept) && (kept[|kept| - 1].at == last.at ==> kept[|kept| - 1] == last)
  {
    AcceptedIncreases(front);
    var latest := Accepted(front)[|Accepted(front)| - 1];
    AcceptedAreDelivered(front, latest);
    var k :| 0 <= k < |front| && front[k] == latest;
    assert (front + [last])[k] == latest && (front + [last])[|front|] == last;
  }

  lemma AcceptedStep(front: seq<Job>, last: Job)
    ensures SameTimeSameJob(front + [last]) ==> SameTimeSameJob(front)
    ensures var before := Accepted(front);
      Accepted(front + [last]) == if before == [] || before[|before| - 1].at < last.at then before + [last] else before
  {
    var js := front + [last];
    assert js[..|front|] == front;
    assert forall i | 0 <= i < |front| :: js[i] == front[i];
  }

  /** What a delivery finds: what its job found when it was new, if that is still
      the last one processed; nothing, if a later job came in between. */
  lemma DeliveryFindsTheSame(front: seq<Job>, last: Job, sign: Signer)
    requires SameTimeSameJob(front + [last])
    ensures var kept := Accepted(front + [last]);
      Handle(Deliver(NEW_WORLD, front, sign), last, sign).1 ==
        if kept[|kept| - 1] == last then OutcomeAt(kept, |kept| - 1, sign) else NO_FINDINGS
  {
    AcceptedStep(front, last);
    DeliveriesCollapse(front, sign);
    var before, kept := Accepted(front), Accepted(front + [last]);
    hide Handle, Deliver, SameTimeSameJob, Accepted;
    if before == [] || before[|before| - 1].at < last.at {
      assert kept[..|before|] == before;
    } else {
      SettledAt(front, last);
      RunEndsSettled(before, last, sign);
    }
  }

  // ----- the memory mirrors the event table -----

  /** Everything remembered is in the table, and everything in the table that is
      recent enough is remembered. */
  predicate Mirrors(w: World) {
    && (forall k | k in w.state.deadlocks.seen :: k in w.events)
    && (forall k | k in w.events && IsRecent(w, k) :: k in w.state.deadlocks.seen)
  }

  predicate IsRecent(w: World, k: ReportKey) {
    w.state.capturedAt.Some? ==> k.at >= w.state.capturedAt.value - SEEN_RETENTION
  }

  /** A job newer than everything before it. */
  predicate IsNew(w: World, j: Job) { w.state.capturedAt.Some? ==> w.state.capturedAt.value < j.at }

  /** What a new job looks up is exactly the table's last ten minutes: deciding
      by memory is deciding by the table. */
  lemma PrunedIsTableWindow(w: World, j: Job, k: ReportKey)
    requires Mirrors(w) && IsNew(w, j)
    ensures k in Pruned(DeadlocksFor(w.state, j.at), j.at).seen <==> k in w.events && k.at >= j.at - SEEN_RETENTION
  {
  }

  /** What a new job does to the memory and the table. */
  lemma NewJobEffect(w: World, j: Job, sign: Signer)
    requires IsNew(w, j)
    ensures var (after, out), d := Handle(w, j, sign), DetectFor(w.state, j, sign);
      && after.state.capturedAt == Some(j.at) && after.state.deadlocks == d.memory
      && after.events == InsertNew(w.events, d.events) && out.deadlocks == d.findings
      && SeenConserved(Pruned(w.state.deadlocks, j.at), d) && FindingsRecorded(d)
      && FindingsAreNew(Pruned(w.state.deadlocks, j.at), d)
  {
    ProcessConserves(SortByTime(j.reports), Pruned(w.state.deadlocks, j.at), j.indexes, sign);
    ProcessFindsNew(SortByTime(j.reports), Pruned(w.state.deadlocks, j.at), j.indexes, sign);
    hide SeenConserved, FindingsRecorded, FindingsAreNew;
  }

  lemma HandleMirrors(w: World, j: Job, sign: Signer)
    requires Mirrors(w) && IsNew(w, j)
    ensures Mirrors(Handle(w, j, sign).0)
  {
    NewJobEffect(w, j, sign);
    var d, after := DetectFor(w.state, j, sign), Handle(w, j, sign).0;
    InsertAgain(w.events, d.events);
    hide Handle, InsertNew, Recorded, FindingsRecorded, FindingsAreNew, Detect;
    forall k ensures k in after.events && k.at >= j.at - SEEN_RETENTION ==> k in d.memory.seen {
      PrunedIsTableWindow(w, j, k);
    }
    forall k | k in d.memory.seen ensures k in after.events {
      PrunedIsTableWindow(w, j, k);
    }
  }

  /** The table and the memory hold the same reports. */
  ghost predicate RemembersTable(w: World) { forall k :: k in w.events <==> k in w.state.deadlocks.seen }

  /** No report is older than ten minutes when its job arrives. */
  predicate IsFresh(j: Job) { forall r | r in j.reports :: r.detectedAt >= j.at - SEEN_RETENTION }

  /** The reports that a job is compared with. */
  function WindowFor(w: World, j: Job): map<ReportKey, string> { Pruned(DeadlocksFor(w.state, j.at), j.at).seen }

  /** After a new job memory and table agree exactly when it recorded each event
      older than ten minutes again. */
  lemma RemembersTableIfRecorded(w: World, j: Job, sign: Signer)
    requires Mirrors(w) && IsNew(w, j)
    ensures RemembersTable(Handle(w, j, sign).0) <==>
      forall k | k in w.events && k.at < j.at - SEEN_RETENTION :: Recorded(DetectFor(w.state, j, sign).events, k)
  {
    var d, after := DetectFor(w.state, j, sign), Handle(w, j, sign).0;
    NewJobKeys(w, j, sign);
    hide Handle, Recorded, DetectFor;
    forall k ensures (k in after.events <==> k in after.state.deadlocks.seen) <==>
      (k in w.events && k.at < j.at - SEEN_RETENTION ==> Recorded(d.events, k))
    {
      PrunedIsTableWindow(w, j, k);
    }
  }

  /** The keys a new job leaves in memory and in the table. */
  lemma NewJobKeys(w: World, j: Job, sign: Signer)
    requires IsNew(w, j)
    ensures var after, d := Handle(w, j, sign).0, DetectFor(w.state, j, sign);
      && after.state.capturedAt == Some(j.at)
      && (forall k :: k in after.state.deadlocks.seen <==> k in WindowFor(w, j) || Recorded(d.events, k))
      && (forall k :: k in after.events <==> k in w.events || Recorded(d.events, k))
  {
    NewJobEffect(w, j, sign);
    InsertAgain(w.events, DetectFor(w.state, j, sign).events);
    hide Handle, DetectFor, InsertNew, Recorded, FindingsRecorded, FindingsAreNew, Pruned;
  }

  lemma RecordedAreNamed(s: State, j: Job, sign: Signer, k: ReportKey)
    requires Recorded(DetectFor(s, j, sign).events, k)
    ensures NamesReport(j.reports, k)
  {
    ProcessFindsNew(SortByTime(j.reports), Pruned(DeadlocksFor(s, j.at), j.at), j.indexes, sign);
    SortKeepsUnrelated(j.reports);
    hide Process, FindingsAreNew, SortByTime;
    var e :| e in DetectFor(s, j, sign).events && e.key == k;
    assert NamesReport(SortByTime(j.reports), k);
  }

  /** When the reports of a new job are recent, memory and table agree after it
      exactly when no event was older than ten minutes by then. */
  lemma MemoryIsTableExactlyWhen(w: World, j: Job, sign: Signer)
    requires Mirrors(w) && IsNew(w, j) && IsFresh(j)
    ensures RemembersTable(Handle(w, j, sign).0) <==> forall k | k in w.events :: k.at >= j.at - SEEN_RETENTION
  {
    RemembersTableIfRecorded(w, j, sign);
    forall k | Recorded(DetectFor(w.state, j, sign).events, k) ensures k.at >= j.at - SEEN_RETENTION {
      RecordedAreNamed(w.state, j, sign, k);
    }
    hide RemembersTable, Handle, Recorded, DetectFor;
  }

  /** Whatever its reports: exactly when each event older than ten minutes is of a
      report that the job brings back, as new to the recent events. */
  lemma MemoryIsTableAgainExactlyWhen(w: World, j: Job, sign: Signer)
    requires Mirrors(w) && IsNew(w, j)
    ensures RemembersTable(Handle(w, j, sign).0) <==>
      forall k | k in w.events && k.at < j.at - SEEN_RETENTION :: BringsNew(j.reports, WindowFor(w, j), k)
  {
    RemembersTableIfRecorded(w, j, sign);
    JobBringsNew(w.state, j, sign);
    hide RemembersTable, Handle, Recorded, BringsNew, DetectFor;
  }

  /** A job records and finds exactly the reports that are new to it. */
  lemma JobBringsNew(s: State, j: Job, sign: Signer)
    ensures var d, known := DetectFor(s, j, sign), Pruned(DeadlocksFor(s, j.at), j.at).seen;
      && (forall k :: Recorded(d.events, k) <==> BringsNew(j.reports, known, k))
      && (forall k :: HasFinding(d.findings, k) <==> FindsNew(j.reports, j.indexes, known, k))
  {
    JudgedInTurn(SortByTime(j.reports), Pruned(DeadlocksFor(s, j.at), j.at), j.indexes, sign);
    hide Recorded, HasFinding, SortByTime, Process, BringsInTurn, FindsInTurn, Pruned;
  }

  /** What a new job finds: the reports that a rule accepts and that are new to
      the events of the last ten minutes. */
  lemma ReportsFoundInTurn(w: World, j: Job, sign: Signer, k: ReportKey)
    requires IsNew(w, j)
    ensures HasFinding(Handle(w, j, sign).1.deadlocks, k) <==> FindsNew(j.reports, j.indexes, WindowFor(w, j), k)
    ensures Mirrors(w) ==>
      forall e :: e in WindowFor(w, j) <==> e in w.events && e.at >= j.at - SEEN_RETENTION
  {
    JobBringsNew(w.state, j, sign);
    NewJobEffect(w, j, sign);
    if Mirrors(w) {
      forall e ensures e in WindowFor(w, j) <==> e in w.events && e.at >= j.at - SEEN_RETENTION {
        PrunedIsTableWindow(w, j, e);
      }
    }
    hide Handle, DetectFor, HasFinding, FindsNew, BringsNew, InsertNew, Mirrors;
    hide SeenConserved, FindingsRecorded, FindingsAreNew, Pruned;
  }

  /** A report of a new job that repeats no other report of it is found exactly
      when a rule accepts it and it repeats no event of the last ten minutes. */
  lemma ReportFoundExactlyWhen(w: World, j: Job, r: Report, sign: Signer)
    requires Mirrors(w) && IsNew(w, j) && AreUnrelated(j.reports) && r in j.reports
    ensures HasFinding(Handle(w, j, sign).1.deadlocks, KeyOf(r)) <==>
      && r.complete && Classify(r, j.indexes).Some?
      && forall k | k in w.events && k.at >= j.at - SEEN_RETENTION :: !RepeatsKey(r, k)
  {
    ReportsFoundInTurn(w, j, sign, KeyOf(r));
    UnrelatedIsFoundAlone(j.reports, j.indexes, WindowFor(w, j), r);
    SeenIsRepeat(r, WindowFor(w, j));
    hide Handle, Classify, AlreadySeen, Mirrors, HasFinding, KeyOf, RepeatsKey, AreUnrelated, WindowFor, FindsNew;
  }

  lemma {:induction false} IncreasingRunMirrors(js: seq<Job>, sign: Signer)
    requires Increasing(js)
    ensures Mirrors(Deliver(NEW_WORLD, js, sign))
  {
    if js != [] {
      var front := js[..|js| - 1];
      IncreasingRunMirrors(front, sign);
      LastInstant(front, sign);
      HandleMirrors(Deliver(NEW_WORLD, front, sign), js[|js| - 1], sign);
      hide Mirrors, Handle;
    }
  }

  /** Whatever is delivered, and however often: a report is remembered only if
      it is in the event table, and forgotten only after ten minutes. */
  lemma MemoryMirrorsTable(js: seq<Job>, sign: Signer)
    requires SameTimeSameJob(js)
    ensures Mirrors(Deliver(NEW_WORLD, js, sign))
  {
    DeliveriesCollapse(js, sign);
    AcceptedIncreases(js);
    IncreasingRunMirrors(Accepted(js), sign);
  }

  /** After any deliveries, then, a new job finds a report exactly when a rule
      accepts it and the table holds no event of the last ten minutes that it
      repeats. */
  lemma ReportFoundAfterDeliveries(js: seq<Job>, j: Job, r: Report, sign: Signer)
    requires SameTimeSameJob(js) && IsNew(Deliver(NEW_WORLD, js, sign), j) && AreUnrelated(j.reports) && r in j.reports
    ensures var w := Deliver(NEW_WORLD, js, sign);
      HasFinding(Handle(w, j, sign).1.deadlocks, KeyOf(r)) <==>
        && r.complete && Classify(r, j.indexes).Some?
        && forall k | k in w.events && k.at >= j.at - SEEN_RETENTION :: !RepeatsKey(r, k)
  {
    MemoryMirrorsTable(js, sign);
    ReportFoundExactlyWhen(Deliver(NEW_WORLD, js, sign), j, r, sign);
  }

  predicate FreshReports(js: seq<Job>) { forall n | 0 <= n < |js| :: IsFresh(js[n]) }

  /** After any deliveries of recent reports memory and table agree exactly when
      no event is older than ten minutes. */
  lemma RunRemembersTableExactlyWhen(js: seq<Job>, sign: Signer)
    requires SameTimeSameJob(js) && FreshReports(js) && js != []
    ensures var w := Deliver(NEW_WORLD, js, sign); RemembersTable(w) <==> forall k | k in w.events :: IsRecent(w, k)
  {
    var kept := Accepted(js);
    var front, last := kept[..|kept| - 1], kept[|kept| - 1];
    DeliveriesCollapse(js, sign);
    AcceptedIncreases(js);
    AcceptedAreDelivered(js, last);
    IncreasingRunMirrors(front, sign);
    LastInstant(front, sign);
    FreshJobRemembersTableExactlyWhen(Deliver(NEW_WORLD, front, sign), last, sign);
    hide Mirrors, Handle, RemembersTable, IsRecent, Accepted;
  }

  lemma FreshJobRemembersTableExactlyWhen(w: World, j: Job, sign: Signer)
    requires Mirrors(w) && IsNew(w, j) && IsFresh(j)
    ensures var after := Handle(w, j, sign).0;
      RemembersTable(after) <==> forall k | k in after.events :: IsRecent(after, k)
  {
    MemoryIsTableExactlyWhen(w, j, sign);
    NewJobEffect(w, j, sign);
    var d := DetectFor(w.state, j, sign);
    InsertAgain(w.events, d.events);
    forall k | Recorded(d.events, k) ensures k.at >= j.at - SEEN_RETENTION {
      RecordedAreNamed(w.state, j, sign, k);
    }
    hide Handle, RemembersTable, Recorded, DetectFor, InsertNew, SeenConserved, FindingsRecorded, FindingsAreNew;
  }

  // ----- each report once -----

  lemma {:induction false} TableGrows(js: seq<Job>, n: nat, sign: Signer)
    requires n <= |js|
    ensures forall k | k in Deliver(NEW_WORLD, js[..n], sign).events :: k in Deliver(NEW_WORLD, js, sign).events
    decreases |js| - n
  {
    if n < |js| {
      var w := Deliver(NEW_WORLD, js[..n], sign);
      assert js[..n + 1][..n] == js[..n];
      InsertAgain(w.events, DetectFor(w.state, js[n], sign).events);
      TableGrows(js, n + 1, sign);
    } else {
      assert js[..n] == js;
    }
  }

  lemma FindingIsInTable(w: World, j: Job, sign: Signer, f: Finding)
    requires IsNew(w, j) && f in Handle(w, j, sign).1.deadlocks
    ensures f.key in Handle(w, j, sign).0.events
  {
    NewJobEffect(w, j, sign);
    var d := DetectFor(w.state, j, sign);
    InsertAgain(w.events, d.events);
    var k :| 0 <= k < |d.findings| && d.findings[k] == f;
    assert Keys(d.findings)[k] == f.key;
    FoundWasRecorded(d.events, f.key);
  }

  lemma {:induction false} FoundWasRecorded(es: seq<Event>, k: ReportKey)
    requires k in FoundKeys(es)
    ensures Recorded(es, k)
  {
    if es != [] && es[|es| - 1].key != k {
      FoundWasRecorded(es[..|es| - 1], k);
      var e :| e in es[..|es| - 1] && e.key == k;
      assert e in es;
    }
  }

  lemma FoundEarlierIsInTable(js: seq<Job>, i: nat, n: nat, sign: Signer, f: Finding)
    requires Increasing(js) && i < n <= |js| && f in OutcomeAt(js, i, sign).deadlocks
    ensures f.key in Deliver(NEW_WORLD, js[..n], sign).events
  {
    LastInstant(js[..i], sign);
    FindingIsInTable(Deliver(NEW_WORLD, js[..i], sign), js[i], sign, f);
    assert js[..i + 1][..i] == js[..i] && js[..n][..i + 1] == js[..i + 1];
    TableGrows(js[..n], i + 1, sign);
  }

  lemma NewFindings(m: Memory, p: Progress, f: Finding, g: Finding)
    requires FindingsAreNew(m, p) && f in p.findings && g in p.findings
    ensures f.key !in m.seen && (f.key == g.key ==> f == g)
  {
    var a :| 0 <= a < |p.findings| && p.findings[a] == f;
    var b :| 0 <= b < |p.findings| && p.findings[b] == g;
  }

  /** A finding of a new job is about a report that its memory, ten minutes of
      the table, does not hold; two findings are about different reports. */
  lemma FindingIsNotRecent(w: World, j: Job, sign: Signer, f: Finding, g: Finding)
    requires Mirrors(w) && IsNew(w, j) && f in Handle(w, j, sign).1.deadlocks && g in Handle(w, j, sign).1.deadlocks
    ensures f.key in w.events ==> f.key.at < j.at - SEEN_RETENTION
    ensures f.key == g.key ==> f == g
  {
    NewJobEffect(w, j, sign);
    PrunedIsTableWindow(w, j, f.key);
    hide Handle, Mirrors, Detect, SeenConserved, FindingsRecorded, FindingsAreNew, Pruned, InsertNew;
    NewFindings(Pruned(w.state.deadlocks, j.at), DetectFor(w.state, j, sign), f, g);
  }

  /** Two findings of one job are about different reports; and if a finding is
      about a report that an earlier job found, it came back too late: it was
      more than ten minutes old. */
  lemma RepeatedOnlyWhenOld(js: seq<Job>, i: nat, n: nat, sign: Signer, f: Finding, g: Finding)
    requires Increasing(js) && i <= n < |js|
    requires f in OutcomeAt(js, i, sign).deadlocks && g in OutcomeAt(js, n, sign).deadlocks && f.key == g.key
    ensures if i == n then f == g else g.key.at < js[n].at - SEEN_RETENTION
  {
    LastInstant(js[..n], sign);
    IncreasingRunMirrors(js[..n], sign);
    if i < n {
      FoundEarlierIsInTable(js, i, n, sign, f);
      FindingIsNotRecent(Deliver(NEW_WORLD, js[..n], sign), js[n], sign, g, g);
    } else {
      FindingIsNotRecent(Deliver(NEW_WORLD, js[..n], sign), js[n], sign, f, g);
    }
    hide Handle, Mirrors;
  }

  lemma FindingNamesReport(w: World, j: Job, sign: Signer, f: Finding)
    requires IsNew(w, j) && f in Handle(w, j, sign).1.deadlocks
    ensures NamesReport(j.reports, f.key)
  {
    var sorted := SortByTime(j.reports);
    ProcessFindsNew(sorted, Pruned(w.state.deadlocks, j.at), j.indexes, sign);
    SortPermutes(j.reports);
    var r :| r in sorted && KeyOf(r) == f.key;
    assert r in multiset(sorted) && r in j.reports;
  }

  /** Over any increasing run whose reports arrive within ten minutes, each
      report is found at most once. */
  lemma {:induction false} EachReportFoundOnce(js: seq<Job>, i: nat, n: nat, sign: Signer, f: Finding, g: Finding)
    requires Increasing(js) && FreshReports(js) && i < |js| && n < |js|
    requires f in OutcomeAt(js, i, sign).deadlocks && g in OutcomeAt(js, n, sign).deadlocks && f.key == g.key
    ensures i == n && f == g
  {
    if n < i {
      EachReportFoundOnce(js, n, i, sign, g, f);
    } else {
      RepeatedOnlyWhenOld(js, i, n, sign, f, g);
      LastInstant(js[..n], sign);
      FindingNamesReport(Deliver(NEW_WORLD, js[..n], sign), js[n], sign, g);
    }
  }

  // ----- each deadlock once -----

  /** A finding of a new job is about a report of it that repeats no event of the
      last ten minutes, under either precision. */
  lemma FindingRepeatsNothingRecent(w: World, j: Job, sign: Signer, k: ReportKey) returns (r: Report)
    requires Mirrors(w) && IsNew(w, j) && HasFinding(Handle(w, j, sign).1.deadlocks, k)
    ensures r in j.reports && KeyOf(r) == k && r.complete && Classify(r, j.indexes).Some?
    ensures forall e | e in w.events && e.at >= j.at - SEEN_RETENTION :: !RepeatsKey(r, e)
  {
    ReportsFoundInTurn(w, j, sign, k);
    hide Mirrors, Handle, HasFinding, RepeatsKey, KeyOf, Classify, WindowFor;
    var sorted := SortByTime(j.reports);
    var i :| 0 <= i < |sorted| && IsNewAt(sorted, WindowFor(w, j), i) && IsAcceptedAt(sorted, j.indexes, i)
      && KeyOf(sorted[i]) == k;
    r := sorted[i];
    SeenIsRepeat(r, WindowFor(w, j));
    SortKeepsUnrelated(j.reports);
    hide AlreadySeen, SortByTime;
  }

  predicate IsFromStatus(j: Job, k: ReportKey) {
    forall r | r in j.reports && KeyOf(r) == k :: r.source == "innodb_status"
  }

  /** When a run finds one deadlock under two precisions, the second time by
      INNODB STATUS, the first time was over ten minutes old by then; with recent
      reports, by no more than the tolerance of two seconds. */
  lemma TwinFoundOnlyWhenOld(js: seq<Job>, i: nat, n: nat, sign: Signer, f: Finding, g: Finding)
    requires Increasing(js) && i < n < |js|
    requires f in OutcomeAt(js, i, sign).deadlocks && g in OutcomeAt(js, n, sign).deadlocks
    requires AreTwins(g.key, f.key) && IsFromStatus(js[n], g.key)
    ensures f.key.at < js[n].at - SEEN_RETENTION
    ensures FreshReports(js) ==> f.key.at >= js[n].at - SEEN_RETENTION - PRECISION_TOLERANCE
  {
    var w := Deliver(NEW_WORLD, js[..n], sign);
    LastInstant(js[..n], sign);
    IncreasingRunMirrors(js[..n], sign);
    FoundEarlierIsInTable(js, i, n, sign, f);
    assert HasFinding(Handle(w, js[n], sign).1.deadlocks, g.key);
    hide Handle, Deliver, Mirrors, HasFinding, Classify;
    var r := FindingRepeatsNothingRecent(w, js[n], sign, g.key);
    assert KeyOf(r).at == r.detectedAt && RepeatsKey(r, f.key);
  }

  // ----- a report that comes back -----

  lemma DetectOne(r: Report, indexes: seq<IndexRow>, t: Instant, m: Memory, sign: Signer)
    ensures Detect([r], indexes, t, m, sign) == Step(Start(Pruned(m, t)), r, indexes, sign)
  {
    assert SortByTime([r][..0]) == [] && InsertByTime([], r) == [r];
    assert SortByTime([r]) == [r] && [r][..0] == [];
    assert Process([r][..0], Start(Pruned(m, t)), indexes, sign) == Start(Pruned(m, t));
  }

  function OneReport(t: Instant, r: Report, indexes: seq<IndexRow>): Job { Job(t, [], [r], indexes) }

  lemma FirstTimeFound(r: Report, indexes: seq<IndexRow>, t: Instant, sign: Signer)
    requires r.complete && Classify(r, indexes).Some?
    ensures var (w, out) := Handle(NEW_WORLD, OneReport(t, r, indexes), sign);
      && w.state.capturedAt == Some(t) && |out.deadlocks| == 1 && out.deadlocks[0].key == KeyOf(r)
      && forall k :: k in w.state.deadlocks.seen <==> k == KeyOf(r)
  {
    hide Classify, KeyOf, NextRoots, CascadeFindings, InsertNew, IsCascadeRoot, Detect;
    DetectOne(r, indexes, t, NOTHING_SEEN, sign);
    assert Pruned(NOTHING_SEEN, t) == NOTHING_SEEN;
    assert !AlreadySeen(r, map[]);
  }

  /** A classified report that comes in two jobs is found by the second one
      exactly when it is more than ten minutes old by then. */
  lemma FoundAgainExactlyWhenOld(r: Report, indexes: seq<IndexRow>, t: Instant, later: Instant, sign: Signer)
    requires r.complete && Classify(r, indexes).Some? && t < later
    ensures var js := [OneReport(t, r, indexes), OneReport(later, r, indexes)];
      && OutcomeAt(js, 0, sign).deadlocks != []
      && (OutcomeAt(js, 1, sign).deadlocks != [] <==> r.detectedAt < later - SEEN_RETENTION)
  {
    var js := [OneReport(t, r, indexes), OneReport(later, r, indexes)];
    FirstTimeFound(r, indexes, t, sign);
    assert js[..0] == [] && js[..1] == [js[0]] && js[..1][..0] == [];
    var w := Handle(NEW_WORLD, js[0], sign).0;
    assert Deliver(NEW_WORLD, js[..0], sign) == NEW_WORLD;
    assert Deliver(NEW_WORLD, js[..1], sign) == w;
    ComesBack(w, r, indexes, later, sign);
  }

  lemma ComesBack(w: World, r: Report, indexes: seq<IndexRow>, t: Instant, sign: Signer)
    requires r.complete && Classify(r, indexes).Some? && w.state.capturedAt.Some? && w.state.capturedAt.value < t
    requires forall k :: k in w.state.deadlocks.seen <==> k == KeyOf(r)
    ensures Handle(w, OneReport(t, r, indexes), sign).1.deadlocks != [] <==> r.detectedAt < t - SEEN_RETENTION
  {
    hide Classify;
    DetectOne(r, indexes, t, w.state.deadlocks, sign);
    assert KeyOf(r).at == r.detectedAt;
  }

  function NoReports(t: Instant): Job { Job(t, [], [], []) }

  /** A report stays in the table and, once it is over ten minutes old, the next
      job forgets it: memory and table differ after two jobs in order. */
  lemma MemoryForgets(r: Report, indexes: seq<IndexRow>, t: Instant, later: Instant, sign: Signer)
    requires t < later
    ensures var w := Deliver(NEW_WORLD, [OneReport(t, r, indexes), NoReports(later)], sign);
      && w.events.Keys == {KeyOf(r)}
      && (RemembersTable(w) <==> r.detectedAt >= later - SEEN_RETENTION)
      && (KeyOf(r) in w.state.deadlocks.seen <==> r.detectedAt >= later - SEEN_RETENTION)
  {
    var a, b := OneReport(t, r, indexes), NoReports(later);
    var w := Handle(NEW_WORLD, a, sign).0;
    DeliverTwo(a, b, sign);
    OneReportHandled(r, indexes, t, sign);
    HandleMirrors(NEW_WORLD, a, sign);
    MemoryIsTableExactlyWhen(w, b, sign);
    NothingHandled(w, later, sign);
    assert KeyOf(r).at == r.detectedAt;
    hide Deliver, Handle, KeyOf, OneReport, NoReports;
  }

  lemma DeliverTwo(a: Job, b: Job, sign: Signer)
    ensures Deliver(NEW_WORLD, [a, b], sign) == Handle(Handle(NEW_WORLD, a, sign).0, b, sign).0
  {
    assert [a, b][..1] == [a] && [a][..0] == [];
    hide Handle;
    assert Deliver(NEW_WORLD, [a], sign) == Handle(Deliver(NEW_WORLD, [], sign), a, sign).0;
  }

  lemma OneReportHandled(r: Report, indexes: seq<IndexRow>, t: Instant, sign: Signer)
    ensures var w := Handle(NEW_WORLD, OneReport(t, r, indexes), sign).0;
      && w.state.capturedAt == Some(t) && w.events.Keys == {KeyOf(r)}
      && w.state.deadlocks.seen.Keys == {KeyOf(r)}
  {
    var j := OneReport(t, r, indexes);
    var d := DetectFor(NEW_STATE, j, sign);
    OneReportRecorded(NEW_STATE, r, indexes, t, sign);
    NewJobKeys(NEW_WORLD, j, sign);
    assert WindowFor(NEW_WORLD, j) == map[];
    hide Handle, DetectFor, Recorded, KeyOf, WindowFor;
    var w := Handle(NEW_WORLD, j, sign).0;
    assert forall k :: k in w.events <==> k == KeyOf(r);
    assert forall k :: k in w.state.deadlocks.seen <==> k == KeyOf(r);
  }

  lemma NothingHandled(w: World, t: Instant, sign: Signer)
    requires IsNew(w, NoReports(t))
    ensures var after := Handle(w, NoReports(t), sign).0;
      && after.events == w.events && after.state.capturedAt == Some(t)
      && after.state.deadlocks.seen == Pruned(w.state.deadlocks, t).seen
  {
    hide NextRoots, CascadeFindings, Pruned;
  }

  lemma OneReportRecorded(s: State, r: Report, indexes: seq<IndexRow>, t: Instant, sign: Signer)
    requires s.capturedAt != Some(t) && s.deadlocks.seen == map[]
    ensures forall k :: Recorded(DetectFor(s, OneReport(t, r, indexes), sign).events, k) <==> k == KeyOf(r)
  {
    DetectOne(r, indexes, t, s.deadlocks, sign);
    assert Pruned(s.deadlocks, t).seen == map[] && !AlreadySeen(r, map[]);
    hide Classify, KeyOf, Detect;
  }

  // ----- twin reports over runs -----

  /** The last event recorded for each key over a run. */
  ghost function LatestOf(js: seq<Job>, sign: Signer): map<ReportKey, Event> {
    if js == [] then map[]
    else
      var front, last := js[..|js| - 1], js[|js| - 1];
      Latest(LatestOf(front, sign), DetectFor(Deliver(NEW_WORLD, front, sign).state, last, sign).events)
  }

  /** No reachable memory, after any deliveries, holds one deadlock of INNODB
      STATUS twice, under its exact time and under a time without fractions. */
  lemma NoTwinsInAnyRun(js: seq<Job>, sign: Signer)
    requires SameTimeSameJob(js)
    ensures NoTwins(Deliver(NEW_WORLD, js, sign).state.deadlocks.seen, LatestOf(Accepted(js), sign))
  {
    DeliveriesCollapse(js, sign);
    AcceptedIncreases(js);
    NoTwinsInOrder(Accepted(js), sign);
  }

  lemma {:induction false} NoTwinsInOrder(js: seq<Job>, sign: Signer)
    requires Increasing(js)
    ensures NoTwins(Deliver(NEW_WORLD, js, sign).state.deadlocks.seen, LatestOf(js, sign))
  {
    if js != [] {
      var front, last := js[..|js| - 1], js[|js| - 1];
      NoTwinsInOrder(front, sign);
      LastInstant(front, sign);
      var w := Deliver(NEW_WORLD, front, sign);
      NewJobEffect(w, last, sign);
      PruningKeepsNoTwins(w.state.deadlocks, last.at, LatestOf(front, sign));
      ProcessKeepsNoTwins(SortByTime(last.reports), Pruned(w.state.deadlocks, last.at), last.indexes, sign,
                          LatestOf(front, sign));
      hide Handle, NoTwins, Pruned, SeenConserved, FindingsRecorded, FindingsAreNew;
    }
  }

  lemma PruningKeepsNoTwins(m: Memory, t: Instant, known: map<ReportKey, Event>)
    requires NoTwins(m.seen, known)
    ensures NoTwins(Pruned(m, t).seen, known)
  {
    var seen := Pruned(m, t).seen;
    forall a, b | a in seen && b in seen && a != b && FromStatus(known, a) && FromStatus(known, b)
      ensures !AreTwins(a, b)
    {
      assert a in m.seen && b in m.seen;
    }
  }

  // ----- recurrence over runs -----

  /** The recurrence of a signature, from the findings of a run: a pause of more
      than seven days starts it again. */
  ghost function RunTally(js: seq<Job>, signature: string, sign: Signer): Option<Recurrence>
    decreases |js|, 1
  {
    if js == [] then None
    else Tally(TallyBefore(js, |js| - 1, signature, sign), OutcomeAt(js, |js| - 1, sign).deadlocks, signature)
  }

  ghost function TallyBefore(js: seq<Job>, n: nat, signature: string, sign: Signer): Option<Recurrence>
    requires n < |js|
    decreases n, 2
  {
    var tally := RunTally(js[..n], signature, sign);
    if tally.Some? && tally.value.lastSeen >= js[n].at - SIGNATURE_RETENTION then tally else None
  }

  lemma NewJobTallies(w: World, j: Job, sign: Signer)
    requires IsNew(w, j)
    ensures Handle(w, j, sign).0.state.deadlocks == DetectFor(w.state, j, sign).memory
    ensures Handle(w, j, sign).1.deadlocks == DetectFor(w.state, j, sign).findings
    ensures Tallied(Pruned(w.state.deadlocks, j.at), DetectFor(w.state, j, sign))
  {
    ProcessTallies(SortByTime(j.reports), Pruned(w.state.deadlocks, j.at), j.indexes, sign);
    hide Tallied, NextRoots, CascadeFindings, InsertNew;
  }

  /** What is remembered of a signature is what the findings of the run tell. */
  lemma {:induction false} RecurrenceIsTally(js: seq<Job>, signature: string, sign: Signer)
    requires Increasing(js)
    ensures Known(Deliver(NEW_WORLD, js, sign).state.deadlocks, signature) == RunTally(js, signature, sign)
  {
    if js != [] {
      var n := |js| - 1;
      RecurrenceIsTally(js[..n], signature, sign);
      LastInstant(js[..n], sign);
      NewJobTallies(Deliver(NEW_WORLD, js[..n], sign), js[n], sign);
      hide Handle, DetectFor;
    }
  }

  /** Every finding of a run carries its place in that recurrence. */
  lemma FindingTellsTally(js: seq<Job>, n: nat, k: nat, sign: Signer)
    requires Increasing(js) && n < |js| && k < |OutcomeAt(js, n, sign).deadlocks|
    ensures var fs := OutcomeAt(js, n, sign).deadlocks;
      var tally := Tally(TallyBefore(js, n, fs[k].signature, sign), fs[..k + 1], fs[k].signature);
      tally.Some? && tally.value.count == fs[k].occurrences && tally.value.firstSeen == fs[k].firstSeen
  {
    var w := Deliver(NEW_WORLD, js[..n], sign);
    var fs := OutcomeAt(js, n, sign).deadlocks;
    LastInstant(js[..n], sign);
    NewJobTallies(w, js[n], sign);
    RecurrenceIsTally(js[..n], fs[k].signature, sign);
    var known := Pruned(w.state.deadlocks, js[n].at);
    assert TellsTally(known, fs, k);
    assert Known(known, fs[k].signature) == TallyBefore(js, n, fs[k].signature, sign);
  }

  // ----- CT-05 over runs -----

  function SamplesOf(js: seq<Job>): seq<Sample> { seq(|js|, n requires 0 <= n < |js| => Sample(js[n].at, js[n].rows)) }

  ghost function RootsOf(js: seq<Job>, sign: Signer): seq<Roots> {
    seq(|js|, n requires 0 <= n < |js| => Deliver(NEW_WORLD, js[..n + 1], sign).state.roots)
  }

  lemma HandleRoots(w: World, j: Job, sign: Signer)
    requires IsNew(w, j)
    ensures var previous := Consecutive(w.state.roots, w.state.capturedAt, j.at);
      && PreviousFor(w.state, j.at) == Some(previous)
      && Handle(w, j, sign).0.state.roots == NextRoots(j.rows, j.at, previous)
      && Handle(w, j, sign).1.cascade == CascadeFindings(j.rows, j.at, previous)
  {
    hide CascadeFindings, NextRoots, DetectFor, InsertNew;
  }

  /** What job n of a run is compared with, and what it leaves behind. */
  lemma RootsInRun(js: seq<Job>, n: nat, sign: Signer)
    requires Increasing(js) && n < |js|
    ensures var previous := PreviousAt(SamplesOf(js), RootsOf(js, sign), n);
      && PreviousFor(Deliver(NEW_WORLD, js[..n], sign).state, js[n].at) == Some(previous)
      && RootsOf(js, sign)[n] == NextRoots(js[n].rows, js[n].at, previous)
      && OutcomeAt(js, n, sign).cascade == CascadeFindings(js[n].rows, js[n].at, previous)
  {
    var w := Deliver(NEW_WORLD, js[..n], sign);
    LastInstant(js[..n], sign);
    HandleRoots(w, js[n], sign);
    assert js[..n + 1][..n] == js[..n];
    assert Deliver(NEW_WORLD, js[..n + 1], sign) == Handle(w, js[n], sign).0;
    assert n > 0 ==> RootsOf(js, sign)[n - 1] == w.state.roots;
    assert n == 0 ==> w == NEW_WORLD;
    hide Handle, Deliver, CascadeFindings, NextRoots;
  }

  /** The roots a run keeps are a history of its samples, so that every fact
      about streaks holds of the run; and its findings are the reports due. */
  lemma RunIsHistory(js: seq<Job>, n: nat, sign: Signer)
    requires Increasing(js) && n < |js|
    ensures IsStep(SamplesOf(js), RootsOf(js, sign), n)
    ensures forall key :: ReportsAt(SamplesOf(js), RootsOf(js, sign), n, key) <==>
      exists f | f in OutcomeAt(js, n, sign).cascade :: f.key == key
  {
    var previous := PreviousAt(SamplesOf(js), RootsOf(js, sign), n);
    RootsInRun(js, n, sign);
    NextRootsAre(js[n].rows, js[n].at, previous);
    hide IsCascadeRoot, CascadeFindings, NextRoots, AreNextRoots, OutcomeAt, RootsOf, Deliver;
  }

  /** In any increasing run, a transaction is reported exactly on the second
      sample of each of its streaks. */
  lemma RunReportsStreaksOnce(js: seq<Job>, i: nat, n: nat, j: nat, key: RootKey, sign: Signer)
    requires Increasing(js) && IsStreak(SamplesOf(js), i, j, key) && i <= n <= j
    ensures (exists f | f in OutcomeAt(js, n, sign).cascade :: f.key == key) <==> n == i + 1
  {
    forall k | 0 <= k < |js| ensures IsStep(SamplesOf(js), RootsOf(js, sign), k) {
      RunIsHistory(js, k, sign);
    }
    RunIsHistory(js, n, sign);
    hide IsStep, IsCascadeRoot, Meets, OutcomeAt, ReportsAt;
    assert IsHistory(SamplesOf(js), RootsOf(js, sign));
    StreakReportedOnce(SamplesOf(js), RootsOf(js, sign), i, n, j, key);
  }
}
