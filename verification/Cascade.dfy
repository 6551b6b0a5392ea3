/** CT-05: a long transaction that blocks several sessions for a while, in two
    samples in a row. */
module Cascade {
  import opened Basics
  import opened WaitGraphs

  const MIN_ROOT_AGE := 30 * SECOND
  const MIN_WAIT := 5 * SECOND
  const MIN_BLOCKED := 2
  const MAX_SAMPLE_GAP := 60 * SECOND

  /** A transaction: the session and when it began, since pids are reused. */
  datatype RootKey = RootKey(pid: int, start: Instant)

  datatype CascadeRoot = CascadeRoot(firstSeen: Instant, reported: bool)

  type Roots = map<RootKey, CascadeRoot>

  datatype CascadeFinding = CascadeFinding(key: RootKey, firstSeen: Instant, longWaiters: nat)

  // ----- the rule on one sample -----

  function BlockingPids(rows: seq<Session>): set<int> {
    set r, x | r in rows && x in r.blockingPids && x != r.pid :: x
  }

  function WaitersOf(rows: seq<Session>): Edges {
    map b | b in BlockingPids(rows) :: set r | r in rows && b in r.blockingPids && b != r.pid :: r.pid
  }

  predicate WaitsLong(r: Session, t: Instant) { r.waitStart.Some? && t - r.waitStart.value >= MIN_WAIT }

  /** The sessions under root that have waited long enough. */
  ghost function LongWaiters(rows: seq<Session>, t: Instant, root: int): set<int> {
    set p | p in Nodes(WaitersOf(rows)) && p != root && Reaches(WaitersOf(rows), root, p)
         && RowOf(rows, p).Some? && WaitsLong(RowOf(rows, p).value, t)
  }

  ghost predicate IsCascadeRoot(rows: seq<Session>, t: Instant, key: RootKey) {
    && IsRoot(WaitersOf(rows), key.pid)
    && RowOf(rows, key.pid).Some? && RowOf(rows, key.pid).value.transactionStart == Some(key.start)
    && t - key.start >= MIN_ROOT_AGE
    && |LongWaiters(rows, t, key.pid)| >= MIN_BLOCKED
  }

  ghost predicate Reports(rows: seq<Session>, t: Instant, previous: Roots, key: RootKey) {
    IsCascadeRoot(rows, t, key) && key in previous && !previous[key].reported
  }

  /** What a finding says: when its root was first seen, and how many wait. */
  ghost predicate IsFinding(rows: seq<Session>, t: Instant, previous: Roots, f: CascadeFinding) {
    && Reports(rows, t, previous, f.key)
    && f.firstSeen == previous[f.key].firstSeen
    && f.longWaiters == |LongWaiters(rows, t, f.key.pid)|
  }

  /** A root seen in the previous sample keeps its first instant and is reported
      by now; a new one starts. */
  function NextRoot(previous: Roots, key: RootKey, t: Instant): CascadeRoot {
    if key in previous then CascadeRoot(previous[key].firstSeen, true) else CascadeRoot(t, false)
  }

  ghost predicate AreNextRoots(rows: seq<Session>, t: Instant, previous: Roots, current: Roots) {
    && (forall key :: key in current <==> IsCascadeRoot(rows, t, key))
    && (forall key | key in current :: current[key] == NextRoot(previous, key, t))
  }

  lemma SameEdges(g: Edges, h: Edges)
    requires forall a, b :: Edge(g, a, b) <==> Edge(h, a, b)
    requires (forall a | a in g :: g[a] != {}) && (forall a | a in h :: h[a] != {})
    ensures g == h
  {
    forall a ensures (a in g <==> a in h) && (a in g ==> g[a] == h[a]) {
      forall b ensures b in Successors(g, a) <==> b in Successors(h, a) {
        assert Edge(g, a, b) <==> Edge(h, a, b);
      }
      assert Successors(g, a) == Successors(h, a);
    }
  }

  lemma WaitersOfEdges(rows: seq<Session>)
    ensures forall b, p :: Edge(WaitersOf(rows), b, p) <==> Blocks(rows, b, p)
    ensures forall b | b in WaitersOf(rows) :: WaitersOf(rows)[b] != {}
  {
    forall b | b in WaitersOf(rows) ensures WaitersOf(rows)[b] != {} {
      var r :| r in rows && b in r.blockingPids && b != r.pid;
      assert r.pid in WaitersOf(rows)[b];
    }
  }

  /** The waiters of a graph that represents the rows are those of the rows. */
  lemma GraphWaiters(graph: WaitGraph, rows: seq<Session>)
    requires graph.Represents(rows)
    ensures graph.waiters == WaitersOf(rows)
  {
    WaitersOfEdges(rows);
    SameEdges(graph.waiters, WaitersOf(rows));
  }

  lemma GraphRoots(graph: WaitGraph, rows: seq<Session>, b: int)
    requires graph.Represents(rows)
    ensures b in graph.waiters && Successors(graph.blockers, b) == {} <==> IsRoot(WaitersOf(rows), b)
  {
    GraphWaiters(graph, rows);
    assert b in graph.waiters <==> exists p :: Edge(graph.waiters, b, p) by {
      if b in graph.waiters {
        SomeElement(graph.waiters[b]);
        var p :| p in graph.waiters[b];
        assert Edge(graph.waiters, b, p);
      }
    }
    assert forall a :: Edge(graph.blockers, b, a) <==> Edge(graph.waiters, a, b);
    SomeElement(Successors(graph.blockers, b));
    assert forall a :: a in Successors(graph.blockers, b) <==> Edge(graph.blockers, b, a);
  }

  /** Judges one root of the graph: the transaction and how many sessions wait
      long under it, if the rule holds. */
  method JudgeRoot(graph: WaitGraph, rows: seq<Session>, t: Instant, root: int) returns (found: Option<(RootKey, nat)>)
    requires graph.Represents(rows) && IsRoot(WaitersOf(rows), root)
    ensures found.Some? ==> found.value.0.pid == root && IsCascadeRoot(rows, t, found.value.0)
    ensures found.Some? ==> found.value.1 == |LongWaiters(rows, t, root)|
    ensures forall key: RootKey | key.pid == root && IsCascadeRoot(rows, t, key) :: found.Some? && found.value.0 == key
  {
    if root !in graph.sessions || graph.sessions[root].transactionStart.None? { return None; }
    var start := graph.sessions[root].transactionStart.value;
    if t - start < MIN_ROOT_AGE { return None; }
    var blocked := graph.BlockedUnder(root);
    GraphWaiters(graph, rows);
    var long := set p | p in blocked && p in graph.sessions && WaitsLong(graph.sessions[p], t);
    assert long == LongWaiters(rows, t, root) by {
      ReachedAreNodes(WaitersOf(rows), root);
    }
    if |long| < MIN_BLOCKED { return None; }
    found := Some((RootKey(root, start), |long|));
  }

  lemma ReachedAreNodes(g: Edges, root: int)
    ensures forall p | Reaches(g, root, p) :: p in Nodes(g)
  {
    forall p | Reaches(g, root, p) ensures p in Nodes(g) {
      var path :| PathFromTo(g, path, root, p);
      assert Edge(g, path[|path| - 2], path[|path| - 1]);
    }
  }

  /** The findings and roots after judging the sessions in `done`, given which
      transactions meet the rule and how many sessions wait long for each. */
  ghost predicate UpTo(meets: RootKey -> bool, waiting: int -> int, t: Instant, previous: Roots, done: seq<int>,
      findings: seq<CascadeFinding>, current: Roots)
  {
    && (forall key :: key in current <==> meets(key) && key.pid in done)
    && (forall key | key in current :: current[key] == NextRoot(previous, key, t))
    && (forall f | f in findings :: meets(f.key) && f.key.pid in done && IsDue(previous, f.key)
          && f.firstSeen == previous[f.key].firstSeen && f.longWaiters == waiting(f.key.pid))
    && (forall key | meets(key) && IsDue(previous, key) && key.pid in done :: Found(findings, key))
    && (forall i, j | 0 <= i < j < |findings| :: findings[i].key.pid < findings[j].key.pid)
  }

  predicate IsDue(previous: Roots, key: RootKey) { key in previous && !previous[key].reported }

  predicate Found(findings: seq<CascadeFinding>, key: RootKey) { exists f | f in findings :: f.key == key }

  /** One more session has been judged. */
  lemma UpToStep(meets: RootKey -> bool, waiting: int -> int, t: Instant, previous: Roots, done: seq<int>,
      findings: seq<CascadeFinding>, current: Roots, root: int, found: Option<RootKey>, more: seq<CascadeFinding>)
    requires UpTo(meets, waiting, t, previous, done, findings, current) && forall p | p in done :: p < root
    requires forall key: RootKey | key.pid == root :: meets(key) <==> found == Some(key)
    requires found.Some? ==> found.value.pid == root
    requires if found.Some? && IsDue(previous, found.value)
      then |more| == 1 && more[0].key == found.value && more[0].firstSeen == previous[found.value].firstSeen
        && more[0].longWaiters == waiting(root)
      else more == []
    ensures UpTo(meets, waiting, t, previous, done + [root], findings + more,
      if found.Some? then current[found.value := NextRoot(previous, found.value, t)] else current)
  {
    assert forall g :: g in findings + more <==> g in findings || g in more;
    forall k | meets(k) && IsDue(previous, k) && k.pid in done + [root] ensures Found(findings + more, k) {
      if k.pid == root {
        assert more[0] in findings + more;
      } else {
        var g :| g in findings && g.key == k;
        assert g in findings + more;
      }
    }
  }

  /** When every root has been judged, the sample has. */
  lemma UpToAll(rows: seq<Session>, t: Instant, previous: Roots, roots: seq<int>,
      findings: seq<CascadeFinding>, current: Roots)
    requires forall b :: b in roots <==> IsRoot(WaitersOf(rows), b)
    requires UpTo((key: RootKey) => IsCascadeRoot(rows, t, key), (p: int) => |LongWaiters(rows, t, p)|,
      t, previous, roots, findings, current)
    ensures AreNextRoots(rows, t, previous, current)
    ensures forall f | f in findings :: IsFinding(rows, t, previous, f)
    ensures forall key :: Found(findings, key) <==> Reports(rows, t, previous, key)
    ensures forall i, j | 0 <= i < j < |findings| :: findings[i].key.pid < findings[j].key.pid
  {
  }

  /** The findings of a sample, by pid, and the roots to remember. */
  method DetectCascade(rows: seq<Session>, t: Instant, previous: Roots)
      returns (findings: seq<CascadeFinding>, current: Roots)
    ensures AreNextRoots(rows, t, previous, current)
    ensures forall f | f in findings :: IsFinding(rows, t, previous, f)
    ensures forall key :: Found(findings, key) <==> Reports(rows, t, previous, key)
    ensures forall i, j | 0 <= i < j < |findings| :: findings[i].key.pid < findings[j].key.pid
  {
    var graph := BuildWaitGraph(rows);
    var roots := graph.Roots();
    forall b ensures b in roots <==> IsRoot(WaitersOf(rows), b) {
      GraphRoots(graph, rows, b);
    }
    ghost var meets, waiting := (key: RootKey) => IsCascadeRoot(rows, t, key), (p: int) => |LongWaiters(rows, t, p)|;
    findings, current := [], map[];
    assert UpTo(meets, waiting, t, previous, [], findings, current) && roots[..0] == [];
    hide IsCascadeRoot, UpTo, Blocks, RowOf;
    for k := 0 to |roots|
      invariant graph.Represents(rows)
      invariant UpTo(meets, waiting, t, previous, roots[..k], findings, current)
    {
      assert roots[k] in roots && roots[..k + 1] == roots[..k] + [roots[k]];
      var found := JudgeRoot(graph, rows, t, roots[k]);
      if found.None? {
        UpToStep(meets, waiting, t, previous, roots[..k], findings, current, roots[k], None, []);
        assert findings + [] == findings;
        continue;
      }
      var key := found.value.0;
      var seen := if key in previous then Some(previous[key]) else None;
      var state := CascadeRoot(if seen.Some? then seen.value.firstSeen else t, seen.Some? && seen.value.reported);
      var more := [];
      if seen.Some? && !seen.value.reported {
        more := [CascadeFinding(key, state.firstSeen, found.value.1)];
        state := state.(reported := true);
      }
      UpToStep(meets, waiting, t, previous, roots[..k], findings, current, roots[k], Some(key), more);
      findings, current := findings + more, current[key := state];
    }
    assert roots[..|roots|] == roots;
    UpToAll(rows, t, previous, roots, findings, current);
  }

  // ----- samples over time -----

  datatype Sample = Sample(at: Instant, rows: seq<Session>)

  /** What a sample is compared with: nothing after a pause. */
  function Consecutive(roots: Roots, at: Option<Instant>, t: Instant): Roots {
    if at.None? || t - at.value > MAX_SAMPLE_GAP then map[] else roots
  }

  /** A history of samples, each with the roots it left behind. */
  ghost predicate IsHistory(samples: seq<Sample>, roots: seq<Roots>) {
    && |roots| == |samples|
    && forall n | 0 <= n < |samples| :: IsStep(samples, roots, n)
  }

  ghost predicate IsStep(samples: seq<Sample>, roots: seq<Roots>, n: nat)
    requires n < |samples| == |roots|
  {
    AreNextRoots(samples[n].rows, samples[n].at, PreviousAt(samples, roots, n), roots[n])
  }

  ghost predicate Meets(samples: seq<Sample>, n: nat, key: RootKey)
    requires n < |samples|
  {
    IsCascadeRoot(samples[n].rows, samples[n].at, key)
  }

  function PreviousAt(samples: seq<Sample>, roots: seq<Roots>, n: nat): Roots
    requires n < |samples| == |roots|
  {
    if n == 0 then map[] else Consecutive(roots[n - 1], Some(samples[n - 1].at), samples[n].at)
  }

  ghost predicate ReportsAt(samples: seq<Sample>, roots: seq<Roots>, n: nat, key: RootKey)
    requires n < |samples| == |roots|
  {
    Reports(samples[n].rows, samples[n].at, PreviousAt(samples, roots, n), key)
  }

  predicate FollowsClosely(samples: seq<Sample>, n: nat)
    requires 0 < n < |samples|
  {
    samples[n].at - samples[n - 1].at <= MAX_SAMPLE_GAP
  }

  /** How many samples in a row, up to sample n, the transaction has met the
      rule without a pause between them. */
  ghost function Streak(samples: seq<Sample>, n: nat, key: RootKey): nat
    requires n < |samples|
  {
    if !Meets(samples, n, key) then 0
    else if n > 0 && FollowsClosely(samples, n) then 1 + Streak(samples, n - 1, key)
    else 1
  }

  /** What one sample does to one transaction. */
  lemma KeyStep(samples: seq<Sample>, roots: seq<Roots>, n: nat, key: RootKey)
    requires IsHistory(samples, roots) && n < |samples|
    ensures key in roots[n] <==> Meets(samples, n, key)
    ensures key in roots[n] ==> roots[n][key] == NextRoot(PreviousAt(samples, roots, n), key, samples[n].at)
    ensures var previous := PreviousAt(samples, roots, n);
      ReportsAt(samples, roots, n, key) <==> Meets(samples, n, key) && key in previous && !previous[key].reported
  {
    assert IsStep(samples, roots, n);
  }

  /** The remembered roots are exactly a summary of the streaks: who is in one,
      since when, and whether it is long enough to have been reported. A finding
      comes out exactly on the second sample of a streak. */
  lemma {:induction false} RootsSummarizeStreaks(samples: seq<Sample>, roots: seq<Roots>, n: nat, key: RootKey)
    requires IsHistory(samples, roots) && n < |samples|
    ensures key in roots[n] <==> Streak(samples, n, key) >= 1
    ensures Streak(samples, n, key) <= n + 1
    ensures key in roots[n] ==>
      && roots[n][key].firstSeen == samples[n + 1 - Streak(samples, n, key)].at
      && (roots[n][key].reported <==> Streak(samples, n, key) >= 2)
    ensures ReportsAt(samples, roots, n, key) <==> Streak(samples, n, key) == 2
  {
    KeyStep(samples, roots, n, key);
    if n > 0 {
      RootsSummarizeStreaks(samples, roots, n - 1, key);
    }
  }

  /** Samples i to j of a transaction that meets the rule in all of them, the
      first of which starts anew. */
  ghost predicate IsStreak(samples: seq<Sample>, i: nat, j: nat, key: RootKey) {
    && i <= j < |samples|
    && (forall n | i <= n <= j :: Meets(samples, n, key))
    && (forall n | i < n <= j :: FollowsClosely(samples, n))
    && (i == 0 || !FollowsClosely(samples, i) || !Meets(samples, i - 1, key))
  }

  lemma {:induction false} StreakLength(samples: seq<Sample>, i: nat, j: nat, key: RootKey)
    requires IsStreak(samples, i, j, key)
    ensures Streak(samples, j, key) == j - i + 1
  {
    if i < j {
      StreakLength(samples, i, j - 1, key);
    }
  }

  /** Along a streak the rule reports once, on the second sample; never if there
      is only one. The first instant never changes. */
  lemma StreakReportedOnce(samples: seq<Sample>, roots: seq<Roots>, i: nat, n: nat, j: nat, key: RootKey)
    requires IsHistory(samples, roots) && IsStreak(samples, i, j, key) && i <= n <= j
    ensures ReportsAt(samples, roots, n, key) <==> n == i + 1
    ensures key in roots[n] && roots[n][key].firstSeen == samples[i].at
  {
    StreakLength(samples, i, n, key);
    RootsSummarizeStreaks(samples, roots, n, key);
  }
}
