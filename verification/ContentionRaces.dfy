/** Several workers on the jobs of one database. Each loads the state, works on
    its own and saves in one transaction, so loads and saves interleave. */
module ContentionRaces {
  import opened Basics
  import opened Cascade
  import opened DeadlockReports
  import opened DeadlockDetector
  import opened Contention

  /** A job under way and the state its worker loaded. */
  datatype Flight = Flight(job: Job, loaded: State)

  datatype Machine = Machine(world: World, flights: map<nat, Flight>)

  const IDLE := Machine(NEW_WORLD, map[])

  datatype Action = Begin(worker: nat, job: Job) | Finish(worker: nat)

  /** The transaction that ends a job, if its job was not dropped. */
  ghost function Commit(w: World, f: Flight, sign: Signer): World {
    var previous := PreviousFor(f.loaded, f.job.at);
    if previous.None? then w
    else
      var d := DetectFor(f.loaded, f.job, sign);
      var after := Advance(f.loaded, f.job.at, NextRoots(f.job.rows, f.job.at, previous.value), d.memory);
      World(SaveState(w.state, after), InsertNew(w.events, d.events))
  }

  ghost function Act(m: Machine, a: Action, sign: Signer): Machine {
    match a
    case Begin(worker, job) => Machine(m.world, m.flights[worker := Flight(job, m.world.state)])
    case Finish(worker) =>
      if worker in m.flights then Machine(Commit(m.world, m.flights[worker], sign), m.flights - {worker}) else m
  }

  ghost function RunFrom(m: Machine, acts: seq<Action>, sign: Signer): Machine {
    if acts == [] then m else Act(RunFrom(m, acts[..|acts| - 1], sign), acts[|acts| - 1], sign)
  }

  ghost function Run(acts: seq<Action>, sign: Signer): Machine { RunFrom(IDLE, acts, sign) }

  /** A worker that nobody interrupts takes the step of a whole job. */
  lemma UninterruptedIsHandle(m: Machine, worker: nat, j: Job, sign: Signer)
    ensures Act(Act(m, Begin(worker, j), sign), Finish(worker), sign).world == Handle(m.world, j, sign).0
  {
    hide NextRoots, DetectFor, Advance, InsertNew;
  }

  // ----- what every interleaving keeps -----

  predicate Backed(s: State, events: EventTable) {
    && (forall k | k in s.deadlocks.seen :: k in events)
    && (forall k | k in s.prevDeadlocks.seen :: k in events)
  }

  predicate NotAfter(a: Option<Instant>, b: Option<Instant>) { a.Some? ==> b.Some? && a.value <= b.value }

  /** Whatever the stored state or a worker remembers is in the event table, and
      no worker loaded a later state than the stored one. */
  predicate Sound(m: Machine) {
    && Backed(m.world.state, m.world.events)
    && forall n | n in m.flights ::
      Backed(m.flights[n].loaded, m.world.events)
      && NotAfter(m.flights[n].loaded.capturedAt, m.world.state.capturedAt)
  }

  /** Nothing that was stored is lost or goes back in time. */
  predicate Grows(before: World, after: World) {
    && NotAfter(before.state.capturedAt, after.state.capturedAt)
    && (forall k | k in before.events :: k in after.events && after.events[k] == before.events[k])
  }

  lemma CommitKeepsBacked(w: World, f: Flight, sign: Signer)
    requires Backed(w.state, w.events) && Backed(f.loaded, w.events)
    ensures Backed(Commit(w, f, sign).state, Commit(w, f, sign).events) && Grows(w, Commit(w, f, sign))
  {
    var known := Pruned(DeadlocksFor(f.loaded, f.job.at), f.job.at);
    var d := DetectFor(f.loaded, f.job, sign);
    NewKeysAreRecorded(SortByTime(f.job.reports), known, f.job.indexes, sign);
    InsertAgain(w.events, d.events);
    assert forall k | k in known.seen :: k in w.events;
    hide Pruned, Process, SortByTime, InsertNew, Recorded, NextRoots;
    assert forall k | k in d.memory.seen :: k in InsertNew(w.events, d.events);
    hide DetectFor;
  }

  lemma ActKeepsSound(m: Machine, a: Action, sign: Signer)
    requires Sound(m)
    ensures Sound(Act(m, a, sign)) && Grows(m.world, Act(m, a, sign).world)
  {
    if a.Finish? && a.worker in m.flights {
      CommitKeepsBacked(m.world, m.flights[a.worker], sign);
      hide Commit;
    }
  }

  /** However loads and saves interleave, jobs repeat or workers never finish:
      what is remembered was recorded, events are only added, and the stored
      instant never goes back. */
  lemma {:induction false} AnyInterleavingIsSound(acts: seq<Action>, n: nat, sign: Signer)
    requires n <= |acts|
    ensures Sound(Run(acts, sign)) && Grows(Run(acts[..n], sign).world, Run(acts, sign).world)
  {
    if n == |acts| {
      assert acts[..n] == acts;
    }
    if acts != [] {
      var front, last := acts[..|acts| - 1], acts[|acts| - 1];
      AnyInterleavingIsSound(front, if n == |acts| then 0 else n, sign);
      assert n < |acts| ==> front[..n] == acts[..n];
      ActKeepsSound(Run(front, sign), last, sign);
      hide Act, Sound;
    }
  }

  // ----- when a save keeps memory and table in step -----

  /** The reports that a worker compares its job with. */
  function Remembered(f: Flight): map<ReportKey, string> { DeadlocksFor(f.loaded, f.job.at).seen }

  function WindowOf(f: Flight): map<ReportKey, string> { Pruned(DeadlocksFor(f.loaded, f.job.at), f.job.at).seen }

  /** The job is not dropped. */
  predicate IsTaken(f: Flight) { PreviousFor(f.loaded, f.job.at).Some? }

  /** A later job has saved in the meantime. */
  predicate IsOvertaken(w: World, f: Flight) {
    w.state.capturedAt.Some? && w.state.capturedAt.value > f.job.at
  }

  /** The keys a save leaves in memory and in the table. */
  lemma CommitKeys(w: World, f: Flight, sign: Signer)
    requires IsTaken(f)
    ensures var after, es := Commit(w, f, sign), DetectFor(f.loaded, f.job, sign).events;
      && (forall k :: k in after.events <==> k in w.events || Recorded(es, k))
      && (IsOvertaken(w, f) ==> after.state == w.state)
      && (!IsOvertaken(w, f) ==>
        && after.state.capturedAt == Some(f.job.at)
        && forall k :: k in after.state.deadlocks.seen <==> k in WindowOf(f) || Recorded(es, k))
  {
    var d, m := DetectFor(f.loaded, f.job, sign), Pruned(DeadlocksFor(f.loaded, f.job.at), f.job.at);
    InsertAgain(w.events, d.events);
    NewKeysAreRecorded(SortByTime(f.job.reports), m, f.job.indexes, sign);
    hide NextRoots, Process, InsertNew, Recorded, SortByTime, Pruned, PreviousFor;
  }

  lemma SaveMirrorsIfRecorded(w: World, f: Flight, sign: Signer)
    requires IsTaken(f) && !IsOvertaken(w, f) && forall k | k in Remembered(f) :: k in w.events
    ensures Mirrors(Commit(w, f, sign)) <==>
      forall k | k in w.events && k.at >= f.job.at - SEEN_RETENTION ::
        k in Remembered(f) || Recorded(DetectFor(f.loaded, f.job, sign).events, k)
  {
    CommitKeys(w, f, sign);
    assert forall k :: k in WindowOf(f) <==> k in Remembered(f) && k.at >= f.job.at - SEEN_RETENTION;
    hide Commit, Recorded, DetectFor, Remembered, WindowOf, IsTaken;
  }

  /** A save that nothing overtook leaves memory and table in step exactly when
      each recent event was remembered when its worker loaded, or its job brings
      the report back as new. */
  lemma SaveMirrorsExactlyWhen(w: World, f: Flight, sign: Signer)
    requires IsTaken(f) && !IsOvertaken(w, f) && forall k | k in Remembered(f) :: k in w.events
    ensures Mirrors(Commit(w, f, sign)) <==>
      forall k | k in w.events && k.at >= f.job.at - SEEN_RETENTION ::
        k in Remembered(f) || BringsNew(f.job.reports, WindowOf(f), k)
  {
    SaveMirrorsIfRecorded(w, f, sign);
    JobBringsNew(f.loaded, f.job, sign);
    hide Mirrors, Commit, Recorded, DetectFor, Remembered, BringsNew;
  }

  lemma OvertakenMirrorsIfRemembered(w: World, f: Flight, sign: Signer)
    requires Mirrors(w) && IsTaken(f) && IsOvertaken(w, f)
    ensures Mirrors(Commit(w, f, sign)) <==>
      forall k | Recorded(DetectFor(f.loaded, f.job, sign).events, k) && IsRecent(w, k) :: k in w.state.deadlocks.seen
  {
    CommitKeys(w, f, sign);
    hide Commit, Recorded, DetectFor, IsTaken;
  }

  /** A save that a later job overtook keeps them in step exactly when the later
      memory holds every recent report that its job brought as new. */
  lemma OvertakenMirrorsExactlyWhen(w: World, f: Flight, sign: Signer)
    requires Mirrors(w) && IsTaken(f) && IsOvertaken(w, f)
    ensures Mirrors(Commit(w, f, sign)) <==>
      forall k | BringsNew(f.job.reports, WindowOf(f), k) && IsRecent(w, k) :: k in w.state.deadlocks.seen
  {
    OvertakenMirrorsIfRemembered(w, f, sign);
    JobBringsNew(f.loaded, f.job, sign);
    hide Mirrors, Commit, Recorded, DetectFor, BringsNew, IsRecent;
  }

  // ----- races -----

  /** Two workers load the same state; the second has the later job. */
  function Race(first: Job, second: Job, firstSavesLast: bool): seq<Action> {
    [Begin(1, first), Begin(2, second)] + if firstSavesLast then [Finish(2), Finish(1)] else [Finish(1), Finish(2)]
  }

  lemma RaceCommits(m: Machine, first: Job, second: Job, firstSavesLast: bool, sign: Signer)
    ensures var a, b := Flight(first, m.world.state), Flight(second, m.world.state);
      RunFrom(m, Race(first, second, firstSavesLast), sign).world ==
        if firstSavesLast then Commit(Commit(m.world, b, sign), a, sign) else Commit(Commit(m.world, a, sign), b, sign)
  {
    var acts := Race(first, second, firstSavesLast);
    hide Commit;
    assert acts[..4] == acts && acts[..3][..2] == acts[..2] && acts[..2][..1] == acts[..1] && acts[..1][..0] == [];
    assert RunFrom(m, acts[..1], sign) == Act(m, acts[0], sign);
    assert RunFrom(m, acts[..2], sign) == Act(RunFrom(m, acts[..1], sign), acts[1], sign);
    assert RunFrom(m, acts[..3], sign) == Act(RunFrom(m, acts[..2], sign), acts[2], sign);
  }

  /** Every recent report that is new in the first job is new in the second. */
  ghost predicate SecondBringsWhatFirstBrings(s: State, first: Job, second: Job) {
    forall k | BringsNew(first.reports, WindowOf(Flight(first, s)), k) && k.at >= second.at - SEEN_RETENTION ::
      BringsNew(second.reports, WindowOf(Flight(second, s)), k)
  }

  lemma NewIsNotRemembered(rs: seq<Report>, seen: map<ReportKey, string>, k: ReportKey)
    requires BringsNew(rs, seen, k)
    ensures k !in seen
  {
    var sorted := SortByTime(rs);
    var i :| 0 <= i < |sorted| && IsNewAt(sorted, seen, i) && KeyOf(sorted[i]) == k;
    NewKey(sorted[i], seen);
  }

  lemma FirstThenSecond(w: World, first: Job, second: Job, sign: Signer)
    requires Mirrors(w) && IsNew(w, first) && first.at < second.at
    ensures var a, b := Flight(first, w.state), Flight(second, w.state);
      Mirrors(Commit(Commit(w, a, sign), b, sign)) <==> SecondBringsWhatFirstBrings(w.state, first, second)
  {
    var a, b := Flight(first, w.state), Flight(second, w.state);
    var between := Commit(w, a, sign);
    CommitKeys(w, a, sign);
    JobBringsNew(w.state, first, sign);
    JobBringsNew(w.state, second, sign);
    assert Remembered(b) == w.state.deadlocks.seen && !IsOvertaken(w, a) && !IsOvertaken(between, b);
    SaveMirrorsIfRecorded(between, b, sign);
    forall k | BringsNew(first.reports, WindowOf(a), k) && k.at >= second.at - SEEN_RETENTION
      ensures k !in w.state.deadlocks.seen
    {
      NewIsNotRemembered(first.reports, WindowOf(a), k);
    }
    forall k | k in w.events && k.at >= second.at - SEEN_RETENTION ensures k in w.state.deadlocks.seen {
    }
    hide Mirrors, Commit, Recorded, DetectFor, BringsNew, WindowOf, Remembered, IsTaken, IsOvertaken;
  }

  lemma SecondThenFirst(w: World, first: Job, second: Job, sign: Signer)
    requires Mirrors(w) && IsNew(w, first) && first.at < second.at
    ensures var a, b := Flight(first, w.state), Flight(second, w.state);
      Mirrors(Commit(Commit(w, b, sign), a, sign)) <==> SecondBringsWhatFirstBrings(w.state, first, second)
  {
    var a, b := Flight(first, w.state), Flight(second, w.state);
    var between := Commit(w, b, sign);
    CommitKeys(w, b, sign);
    JobBringsNew(w.state, first, sign);
    JobBringsNew(w.state, second, sign);
    assert between == Handle(w, second, sign).0;
    HandleMirrors(w, second, sign);
    OvertakenMirrorsIfRemembered(between, a, sign);
    forall k | BringsNew(first.reports, WindowOf(a), k) && k.at >= second.at - SEEN_RETENTION
      ensures k !in WindowOf(b)
    {
      NewIsNotRemembered(first.reports, WindowOf(a), k);
    }
    hide Mirrors, Commit, Handle, Recorded, DetectFor, BringsNew, WindowOf, Remembered, IsTaken;
  }

  /** Whoever saves last, a race leaves memory and table in step exactly when the
      second job brings every recent report that was new in the first. */
  lemma RaceMirrorsExactlyWhen(m: Machine, first: Job, second: Job, firstSavesLast: bool, sign: Signer)
    requires Mirrors(m.world) && IsNew(m.world, first) && first.at < second.at
    ensures Mirrors(RunFrom(m, Race(first, second, firstSavesLast), sign).world) <==>
      SecondBringsWhatFirstBrings(m.world.state, first, second)
  {
    RaceCommits(m, first, second, firstSavesLast, sign);
    FirstThenSecond(m.world, first, second, sign);
    SecondThenFirst(m.world, first, second, sign);
    hide *;
  }

  lemma CommitReport(w: World, r: Report, indexes: seq<IndexRow>, t: Instant, sign: Signer)
    ensures var after := Commit(w, Flight(OneReport(t, r, indexes), NEW_STATE), sign);
      && after.events.Keys == w.events.Keys + {KeyOf(r)}
      && (w.state.capturedAt.Some? && w.state.capturedAt.value > t ==> after.state == w.state)
      && (w.state.capturedAt.None? ==> after.state.capturedAt == Some(t))
  {
    var f := Flight(OneReport(t, r, indexes), NEW_STATE);
    OneReportRecorded(NEW_STATE, r, indexes, t, sign);
    CommitKeys(w, f, sign);
    var after := Commit(w, f, sign);
    hide Commit, KeyOf, DetectFor, Recorded, WindowOf;
    assert forall k :: k in after.events.Keys <==> k in w.events.Keys + {KeyOf(r)};
  }

  lemma CommitNothing(w: World, t: Instant, sign: Signer)
    ensures var after := Commit(w, Flight(NoReports(t), NEW_STATE), sign);
      && after.events == w.events
      && (w.state.capturedAt.None? || w.state.capturedAt.value <= t ==>
        after.state.capturedAt == Some(t) && after.state.deadlocks.seen == map[])
  {
    assert Pruned(NOTHING_SEEN, t).seen == map[];
    hide NextRoots;
  }

  /** The smallest race: the job of one report and a later one without. The event
      is stored but the report is not remembered, whoever saves last, and memory
      and table are in step again exactly when the report is old by then; until
      that happens, a report that comes back is found again. */
  lemma RaceForgetsReport(r: Report, indexes: seq<IndexRow>, t: Instant, later: Instant, firstSavesLast: bool,
      sign: Signer)
    requires t < later
    ensures var w := Run(Race(OneReport(t, r, indexes), NoReports(later), firstSavesLast), sign).world;
      && w.events.Keys == {KeyOf(r)} && w.state.capturedAt == Some(later) && w.state.deadlocks.seen == map[]
      && (Mirrors(w) <==> r.detectedAt < later - SEEN_RETENTION)
      && (r.complete && Classify(r, indexes).Some? ==>
        forall next | next > later :: Handle(w, OneReport(next, r, indexes), sign).1.deadlocks != [])
  {
    var a, b := OneReport(t, r, indexes), NoReports(later);
    RaceCommits(IDLE, a, b, firstSavesLast, sign);
    var one, two := Flight(a, NEW_STATE), Flight(b, NEW_STATE);
    var between := if firstSavesLast then Commit(NEW_WORLD, two, sign) else Commit(NEW_WORLD, one, sign);
    if firstSavesLast {
      CommitNothing(NEW_WORLD, later, sign);
      CommitReport(between, r, indexes, t, sign);
    } else {
      CommitReport(NEW_WORLD, r, indexes, t, sign);
      CommitNothing(between, later, sign);
    }
    var w := Run(Race(a, b, firstSavesLast), sign).world;
    OneReportRaces(r, indexes, t, later);
    RaceMirrorsExactlyWhen(IDLE, a, b, firstSavesLast, sign);
    hide Mirrors, Commit, RunFrom, Race, Classify, SecondBringsWhatFirstBrings;
    if r.complete && Classify(r, indexes).Some? {
      forall next | next > later ensures Handle(w, OneReport(next, r, indexes), sign).1.deadlocks != [] {
        ForgottenIsFound(w, r, indexes, next, sign);
      }
    }
  }

  lemma OneReportRaces(r: Report, indexes: seq<IndexRow>, t: Instant, later: Instant)
    ensures SecondBringsWhatFirstBrings(NEW_STATE, OneReport(t, r, indexes), NoReports(later)) <==>
      r.detectedAt < later - SEEN_RETENTION
  {
    var known := WindowOf(Flight(OneReport(t, r, indexes), NEW_STATE));
    assert SortByTime([r][..0]) == [] && SortByTime([r]) == [r];
    assert known == map[] && !AlreadySeen(r, known) && IsNewAt([r], known, 0) && KeyOf(r).at == r.detectedAt;
    hide AlreadySeen, KeyOf, WindowOf, IsNewAt;
    assert BringsNew([r], known, KeyOf(r));
    assert forall k :: BringsNew([r], known, k) <==> k == KeyOf(r);
  }

  lemma ForgottenIsFound(w: World, r: Report, indexes: seq<IndexRow>, t: Instant, sign: Signer)
    requires r.complete && Classify(r, indexes).Some?
    requires w.state.capturedAt.Some? && w.state.capturedAt.value < t && w.state.deadlocks.seen == map[]
    ensures Handle(w, OneReport(t, r, indexes), sign).1.deadlocks != []
  {
    hide Classify;
    DetectOne(r, indexes, t, w.state.deadlocks, sign);
  }

  // ----- what racing workers find -----

  /** What the worker of a flight finds. */
  function FoundBy(f: Flight, sign: Signer): seq<Finding> {
    if IsTaken(f) then DetectFor(f.loaded, f.job, sign).findings else []
  }

  /** Two workers that load the same state find one report both, exactly when both
      jobs bring it as new and a rule accepts it in both. */
  lemma FoundTwiceExactlyWhen(s: State, first: Job, second: Job, k: ReportKey, sign: Signer)
    requires IsTaken(Flight(first, s)) && IsTaken(Flight(second, s))
    ensures var a, b := Flight(first, s), Flight(second, s);
      HasFinding(FoundBy(a, sign), k) && HasFinding(FoundBy(b, sign), k) <==>
        && FindsNew(first.reports, first.indexes, WindowOf(a), k)
        && FindsNew(second.reports, second.indexes, WindowOf(b), k)
  {
    JobBringsNew(s, first, sign);
    JobBringsNew(s, second, sign);
    hide HasFinding, FindsNew, DetectFor, BringsNew, Recorded;
  }

  /** So a report that comes in both jobs is found twice, however recent it is. */
  lemma RaceFindsTwice(r: Report, indexes: seq<IndexRow>, t: Instant, later: Instant, sign: Signer)
    requires r.complete && Classify(r, indexes).Some?
    ensures HasFinding(FoundBy(Flight(OneReport(t, r, indexes), NEW_STATE), sign), KeyOf(r))
    ensures HasFinding(FoundBy(Flight(OneReport(later, r, indexes), NEW_STATE), sign), KeyOf(r))
  {
    var a, b := OneReport(t, r, indexes), OneReport(later, r, indexes);
    assert SortByTime([r][..0]) == [] && SortByTime([r]) == [r];
    assert WindowOf(Flight(a, NEW_STATE)) == map[] && WindowOf(Flight(b, NEW_STATE)) == map[];
    assert IsNewAt([r], map[], 0) && IsAcceptedAt([r], indexes, 0);
    hide Classify, KeyOf, AlreadySeen, DetectFor, SortByTime, WindowOf, IsNewAt, IsAcceptedAt;
    FoundTwiceExactlyWhen(NEW_STATE, a, b, KeyOf(r), sign);
  }
}
