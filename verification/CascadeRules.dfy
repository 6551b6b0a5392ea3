/** Which transactions CT-05 reports, told from the sessions of the samples. */
module CascadeRules {
  import opened Basics
  import opened WaitGraphs
  import opened Cascade

  /** The row of a session: the last one with its pid. */
  predicate IsRowAt(rows: seq<Session>, k: nat, pid: int) {
    k < |rows| && rows[k].pid == pid && forall j | k < j < |rows| :: rows[j].pid != pid
  }

  lemma {:induction false} RowExactly(rows: seq<Session>, pid: int)
    ensures RowOf(rows, pid).Some? <==> exists k: nat :: IsRowAt(rows, k, pid)
    ensures forall k: nat | IsRowAt(rows, k, pid) :: RowOf(rows, pid) == Some(rows[k])
  {
    if rows != [] {
      var front, n := rows[..|rows| - 1], |rows| - 1;
      RowExactly(front, pid);
      if rows[n].pid == pid {
        assert IsRowAt(rows, n, pid);
      } else {
        assert forall k: nat :: IsRowAt(rows, k, pid) <==> IsRowAt(front, k, pid);
      }
    }
  }

  /** Some row of session b says that session a blocks it. */
  predicate IsHeldUp(rows: seq<Session>, a: int, b: int) {
    a != b && exists r | r in rows :: r.pid == b && a in r.blockingPids
  }

  lemma HeldUpExactlyWhen(rows: seq<Session>)
    ensures forall a, b :: Edge(WaitersOf(rows), a, b) <==> IsHeldUp(rows, a, b)
  {
    WaitersOfEdges(rows);
    hide WaitersOf;
  }

  /** Sessions each of which holds up the next. */
  predicate IsQueue(rows: seq<Session>, path: seq<int>) {
    |path| >= 2 && forall k | 0 <= k < |path| - 1 :: IsHeldUp(rows, path[k], path[k + 1])
  }

  ghost predicate IsUnder(rows: seq<Session>, root: int, p: int) {
    exists path :: IsQueue(rows, path) && path[0] == root && path[|path| - 1] == p
  }

  lemma UnderExactlyWhen(rows: seq<Session>, root: int, p: int)
    ensures Reaches(WaitersOf(rows), root, p) <==> IsUnder(rows, root, p)
  {
    HeldUpExactlyWhen(rows);
    forall path
      ensures PathFromTo(WaitersOf(rows), path, root, p) <==>
        IsQueue(rows, path) && path[0] == root && path[|path| - 1] == p
    {
    }
    hide Edge, IsHeldUp, PathFromTo, IsQueue;
  }

  /** Another session under the root that has waited for five seconds. */
  ghost predicate IsLongWaiter(rows: seq<Session>, t: Instant, root: int, p: int) {
    && p != root && IsUnder(rows, root, p)
    && exists k: nat :: IsRowAt(rows, k, p) && rows[k].waitStart != None && t >= rows[k].waitStart.value + 5_000_000
  }

  lemma LongWaiterExactlyWhen(rows: seq<Session>, t: Instant, root: int, p: int)
    ensures p in LongWaiters(rows, t, root) <==> IsLongWaiter(rows, t, root, p)
  {
    UnderExactlyWhen(rows, root, p);
    RowExactly(rows, p);
    ReachedAreNodes(WaitersOf(rows), root);
    hide WaitersOf, Reaches, IsUnder, Nodes, RowOf;
  }

  lemma TwoOrMore(s: set<int>)
    ensures |s| >= 2 <==> exists a, b :: a in s && b in s && a != b
  {
    if |s| >= 2 {
      SomeElement(s);
      var a :| a in s;
      SomeElement(s - {a});
      var b :| b in s - {a};
    }
    if a, b :| a in s && b in s && a != b {
      assert {a, b} <= s && |{a, b}| == 2;
      assert |s| == |{a, b}| + |s - {a, b}|;
    }
  }

  /** A transaction that began thirty seconds ago, of a session that waits for no
      other, with two sessions under it that have waited for five. */
  ghost predicate IsLongCascade(rows: seq<Session>, t: Instant, key: RootKey) {
    && (exists b :: IsHeldUp(rows, key.pid, b))
    && (forall a :: !IsHeldUp(rows, a, key.pid))
    && (exists k: nat :: IsRowAt(rows, k, key.pid) && rows[k].transactionStart == Some(key.start))
    && t >= key.start + 30_000_000
    && exists p, q :: p != q && IsLongWaiter(rows, t, key.pid, p) && IsLongWaiter(rows, t, key.pid, q)
  }

  /** The transactions that meet the rule in a sample. */
  lemma CascadeExactlyWhen(rows: seq<Session>, t: Instant, key: RootKey)
    ensures IsCascadeRoot(rows, t, key) <==> IsLongCascade(rows, t, key)
  {
    HeldUpExactlyWhen(rows);
    RowExactly(rows, key.pid);
    forall p ensures p in LongWaiters(rows, t, key.pid) <==> IsLongWaiter(rows, t, key.pid, p) {
      LongWaiterExactlyWhen(rows, t, key.pid, p);
    }
    TwoOrMore(LongWaiters(rows, t, key.pid));
    hide LongWaiters, IsLongWaiter, WaitersOf, RowOf, IsHeldUp, IsRowAt, Edge;
  }

  ghost predicate IsLongAt(samples: seq<Sample>, n: nat, key: RootKey) {
    n < |samples| && IsLongCascade(samples[n].rows, samples[n].at, key)
  }

  /** Sample n comes a minute at most after the one before. */
  predicate IsNext(samples: seq<Sample>, n: nat) {
    0 < n < |samples| && samples[n].at <= samples[n - 1].at + 60_000_000
  }

  /** A transaction is reported with the sample in which it meets the rule for the
      second time in a row; later ones of the row do not repeat it. */
  lemma ReportedExactlyWhen(samples: seq<Sample>, roots: seq<Roots>, n: nat, key: RootKey)
    requires IsHistory(samples, roots) && n < |samples|
    ensures ReportsAt(samples, roots, n, key) <==>
      && IsLongAt(samples, n, key) && IsNext(samples, n) && IsLongAt(samples, n - 1, key)
      && !(IsNext(samples, n - 1) && IsLongAt(samples, n - 2, key))
  {
    RootsSummarizeStreaks(samples, roots, n, key);
    forall k | 0 <= k < |samples| ensures Meets(samples, k, key) <==> IsLongAt(samples, k, key) {
      CascadeExactlyWhen(samples[k].rows, samples[k].at, key);
    }
    hide Meets, IsLongAt, ReportsAt, IsHistory;
    assert n > 0 ==> (Streak(samples, n - 1, key) == 1 <==>
      Meets(samples, n - 1, key) && !(n > 1 && FollowsClosely(samples, n - 1) && Meets(samples, n - 2, key)));
  }

  /** It was first seen with the sample before. */
  lemma FirstSeenBefore(samples: seq<Sample>, roots: seq<Roots>, n: nat, key: RootKey)
    requires IsHistory(samples, roots) && n < |samples| && ReportsAt(samples, roots, n, key)
    ensures n > 0 && key in PreviousAt(samples, roots, n)
    ensures PreviousAt(samples, roots, n)[key].firstSeen == samples[n - 1].at
  {
    RootsSummarizeStreaks(samples, roots, n, key);
    assert n > 0;
    RootsSummarizeStreaks(samples, roots, n - 1, key);
    hide IsHistory, Meets, IsCascadeRoot;
  }
}
