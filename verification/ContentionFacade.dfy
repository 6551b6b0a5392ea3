/** The stored contention state of every database, and the entry point that
    loads, detects and saves for one snapshot. */
module ContentionFacade {
  import opened Basics
  import opened WaitGraphs
  import opened Cascade
  import opened DeadlockReports
  import opened DeadlockDetector
  import opened Contention

  /** A snapshot; `capture` is the server's time, missing in old snapshots. */
  datatype Snapshot = Snapshot(
    dbId: string, capture: Option<Instant>, rows: seq<Session>, reports: seq<Report>, indexes: seq<IndexRow>)

  function JobOf(s: Snapshot, fallback: Instant): Job {
    Job(if s.capture.Some? then s.capture.value else fallback, s.rows, s.reports, s.indexes)
  }

  type EventRows = map<(string, ReportKey), Event>

  /** The event table of one database. */
  ghost function EventsOf(events: EventRows, db: string): EventTable {
    map p | p in events && p.0 == db :: p.1 := events[p]
  }

  lemma EventAddedTo(events: EventRows, db: string, other: string, e: Event)
    ensures var after := EventsOf(events[(db, e.key) := e], other);
      after == if other == db then EventsOf(events, other)[e.key := e] else EventsOf(events, other)
  {
    var after := EventsOf(events[(db, e.key) := e], other);
    forall k ensures k in after <==> k in EventsOf(events, other) || (other == db && k == e.key) {
      assert k in after <==> (other, k) in events[(db, e.key) := e];
      assert k in EventsOf(events, other) <==> (other, k) in events;
    }
  }

  class ContentionStore {
    var states: map<string, State>
    var events: EventRows

    constructor ()
      ensures forall db :: WorldOf(db) == NEW_WORLD
    {
      states, events := map[], map[];
    }

    function Load(db: string): State
      reads this
    {
      if db in states then states[db] else NEW_STATE
    }

    /** What is stored about one database. */
    ghost function WorldOf(db: string): World
      reads this
    {
      World(Load(db), EventsOf(events, db))
    }

    /** Inserts the events that are not there yet and replaces the state, unless
        a newer one is stored. Other databases keep theirs. */
    method Save(db: string, state: State, es: seq<Event>)
      modifies this
      ensures WorldOf(db) == World(SaveState(old(Load(db)), state), InsertNew(old(EventsOf(events, db)), es))
      ensures forall other | other != db :: WorldOf(other) == old(WorldOf(other))
    {
      for k := 0 to |es|
        invariant states == old(states)
        invariant EventsOf(events, db) == InsertNew(old(EventsOf(events, db)), es[..k])
        invariant forall other | other != db :: EventsOf(events, other) == old(EventsOf(events, other))
      {
        assert es[..k + 1][..k] == es[..k];
        assert es[k].key in EventsOf(events, db) <==> (db, es[k].key) in events;
        if (db, es[k].key) !in events {
          forall other ensures EventsOf(events[(db, es[k].key) := es[k]], other) ==
            if other == db then EventsOf(events, other)[es[k].key := es[k]] else EventsOf(events, other)
          {
            EventAddedTo(events, db, other, es[k]);
          }
          events := events[(db, es[k].key) := es[k]];
        }
      }
      assert es[..|es|] == es;
      states := states[db := SaveState(Load(db), state)];
    }

    /** Processes a snapshot: its database steps as Handle says, the others stay
        as they were. The findings of CT-05 come by pid. */
    method Run(s: Snapshot, fallback: Instant, sign: Signer)
        returns (cascade: seq<CascadeFinding>, deadlocks: seq<Finding>)
      modifies this
      ensures s.dbId == "" ==> cascade == [] && deadlocks == [] && states == old(states) && events == old(events)
      ensures s.dbId != "" ==>
        && WorldOf(s.dbId) == Handle(old(WorldOf(s.dbId)), JobOf(s, fallback), sign).0
        && deadlocks == Handle(old(WorldOf(s.dbId)), JobOf(s, fallback), sign).1.deadlocks
        && forall f :: f in cascade <==> f in Handle(old(WorldOf(s.dbId)), JobOf(s, fallback), sign).1.cascade
      ensures forall i, j | 0 <= i < j < |cascade| :: cascade[i].key.pid < cascade[j].key.pid
      ensures forall other | other != s.dbId :: WorldOf(other) == old(WorldOf(other))
    {
      cascade, deadlocks := [], [];
      if s.dbId == "" { return; }
      var job := JobOf(s, fallback);
      var state := Load(s.dbId);
      var previous := PreviousFor(state, job.at);
      if previous.None? { return; }
      var roots;
      cascade, roots := DetectCascade(s.rows, job.at, previous.value);
      FoundAre(s.rows, job.at, previous.value, cascade, roots);
      var memory, recorded;
      deadlocks, memory, recorded := DetectDeadlocks(s.reports, s.indexes, job.at, DeadlocksFor(state, job.at), sign);
      Save(s.dbId, Advance(state, job.at, roots, memory), recorded);
    }
  }

  /** The findings and roots of a sample are those of the specification. */
  lemma FoundAre(rows: seq<Session>, t: Instant, previous: Roots, findings: seq<CascadeFinding>, current: Roots)
    requires AreNextRoots(rows, t, previous, current)
    requires forall f | f in findings :: IsFinding(rows, t, previous, f)
    requires forall key :: Found(findings, key) <==> Cascade.Reports(rows, t, previous, key)
    ensures current == NextRoots(rows, t, previous)
    ensures forall f :: f in findings <==> f in CascadeFindings(rows, t, previous)
  {
    NextRootsAre(rows, t, previous);
    hide IsCascadeRoot;
    forall f | f in findings ensures f in CascadeFindings(rows, t, previous) {
      assert Cascade.Reports(rows, t, previous, f.key);
      var g :| g in CascadeFindings(rows, t, previous) && g.key == f.key;
      assert f == g;
    }
    forall f | f in CascadeFindings(rows, t, previous) ensures f in findings {
      assert Cascade.Reports(rows, t, previous, f.key);
      var g :| g in findings && g.key == f.key;
      assert f == g;
    }
  }
}
