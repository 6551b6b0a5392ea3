/** The graph of who waits for whom, from the sessions of one snapshot. */
module WaitGraphs {
  import opened Basics

  /** A session, as far as contention looks at it. */
  datatype Session = Session(
    pid: int, blockingPids: seq<int>, transactionStart: Option<Instant>, waitStart: Option<Instant>)

  /** From a session to the sessions it is linked to. */
  type Edges = map<int, set<int>>

  predicate Edge(g: Edges, a: int, b: int) { a in g && b in g[a] }

  predicate IsPath(g: Edges, path: seq<int>) { forall k | 0 <= k < |path| - 1 :: Edge(g, path[k], path[k + 1]) }

  ghost predicate PathFromTo(g: Edges, path: seq<int>, a: int, b: int) {
    |path| >= 2 && path[0] == a && path[|path| - 1] == b && IsPath(g, path)
  }

  /** b is reached from a along at least one edge. */
  ghost predicate Reaches(g: Edges, a: int, b: int) { exists path :: PathFromTo(g, path, a, b) }

  lemma EdgeReaches(g: Edges, a: int, b: int)
    requires Edge(g, a, b)
    ensures Reaches(g, a, b)
  {
    assert PathFromTo(g, [a, b], a, b);
  }

  lemma ReachesTransitive(g: Edges, a: int, b: int, c: int)
    requires Reaches(g, a, b) && Reaches(g, b, c)
    ensures Reaches(g, a, c)
  {
    var p :| PathFromTo(g, p, a, b);
    var q :| PathFromTo(g, q, b, c);
    var path := p + q[1..];
    forall k | 0 <= k < |path| - 1 ensures Edge(g, path[k], path[k + 1]) {
      if k >= |p| - 1 {
        assert path[k] == q[k - |p| + 1];
      }
    }
    assert PathFromTo(g, path, a, c);
  }

  /** A set that holds the start of a path and everything one edge away from its
      elements holds the whole path. */
  lemma {:induction false} ClosedHoldsPath(g: Edges, closed: set<int>, path: seq<int>)
    requires path != [] && path[0] in closed && IsPath(g, path)
    requires forall a, b | a in closed && Edge(g, a, b) :: b in closed
    ensures forall p | p in path :: p in closed
  {
    if |path| > 1 {
      assert Edge(g, path[0], path[1]);
      forall k | 0 <= k < |path[1..]| - 1 ensures Edge(g, path[1..][k], path[1..][k + 1]) {
        assert Edge(g, path[k + 1], path[k + 2]);
      }
      ClosedHoldsPath(g, closed, path[1..]);
      assert path == [path[0]] + path[1..];
    }
  }

  lemma ClosedIsComplete(g: Edges, root: int, closed: set<int>)
    requires root in closed && forall a, b | a in closed && Edge(g, a, b) :: b in closed
    ensures forall p | Reaches(g, root, p) :: p in closed
  {
    forall p | Reaches(g, root, p) ensures p in closed {
      var path :| PathFromTo(g, path, root, p);
      ClosedHoldsPath(g, closed, path);
      assert path[|path| - 1] in path;
    }
  }

  lemma Reached(g: Edges, root: int) returns (reached: set<int>)
    ensures forall p :: p in reached <==> Reaches(g, root, p)
    ensures forall a | a == root || a in reached :: Successors(g, a) <= reached
  {
    reached := set p | p in Nodes(g) && Reaches(g, root, p);
    forall p | Reaches(g, root, p) ensures p in Nodes(g) {
      var path :| PathFromTo(g, path, root, p);
      assert Edge(g, path[|path| - 2], path[|path| - 1]);
    }
    forall a, b | (a == root || a in reached) && b in Successors(g, a) ensures b in reached {
      EdgeReaches(g, a, b);
      if a != root {
        ReachesTransitive(g, root, a, b);
      }
    }
  }

  function Successors(g: Edges, a: int): set<int> { if a in g then g[a] else {} }

  function Nodes(g: Edges): set<int> { g.Keys + set a, b | a in g && b in g[a] :: b }

  lemma SomeElement(s: set<int>)
    ensures s != {} <==> exists x :: x in s
  {
    if forall x :: x !in s {
      assert s == {};
    }
  }

  /** The elements of a set, in whatever order it yields them. */
  method Listing(s: set<int>) returns (r: seq<int>)
    ensures forall x :: x in r <==> x in s
  {
    r := [];
    var left := s;
    while left != {}
      invariant forall x :: x in s <==> x in r || x in left
      decreases left
    {
      SomeElement(left);
      var x :| x in left;
      r, left := r + [x], left - {x};
    }
  }

  lemma {:induction false} LeastExists(s: set<int>) returns (m: int)
    requires s != {}
    ensures m in s && forall x | x in s :: m <= x
    decreases s
  {
    SomeElement(s);
    var x :| x in s;
    if s == {x} {
      return x;
    }
    var n := LeastExists(s - {x});
    m := if x <= n then x else n;
    assert s == {x} + (s - {x});
  }

  predicate StrictlyIncreasing(r: seq<int>) { forall i, j | 0 <= i < j < |r| :: r[i] < r[j] }

  method Sorted(s: set<int>) returns (r: seq<int>)
    ensures StrictlyIncreasing(r) && forall x :: x in r <==> x in s
  {
    r := [];
    var left := s;
    while left != {}
      invariant forall x :: x in s <==> x in r || x in left
      invariant forall x, y | x in r && y in left :: x < y
      invariant StrictlyIncreasing(r)
      decreases left
    {
      ghost var least := LeastExists(left);
      var x :| x in left && forall y | y in left :: x <= y;
      forall k | 0 <= k < |r| ensures r[k] < x {
        assert r[k] in r;
      }
      r, left := r + [x], left - {x};
    }
  }

  /** Some session waits for b to let go, and says so. */
  predicate Blocks(rows: seq<Session>, b: int, p: int) {
    b != p && exists r | r in rows :: r.pid == p && b in r.blockingPids
  }

  /** The row kept for a pid: the last one. */
  function RowOf(rows: seq<Session>, pid: int): Option<Session> {
    if rows == [] then None
    else if rows[|rows| - 1].pid == pid then Some(rows[|rows| - 1])
    else RowOf(rows[..|rows| - 1], pid)
  }

  lemma RowAdded(rows: seq<Session>, row: Session)
    ensures forall b, p :: Blocks(rows + [row], b, p) <==>
      Blocks(rows, b, p) || (p == row.pid && b != p && b in row.blockingPids)
    ensures forall p :: RowOf(rows + [row], p) == if p == row.pid then Some(row) else RowOf(rows, p)
  {
    assert forall r :: r in rows + [row] <==> r in rows || r == row;
    assert (rows + [row])[..|rows|] == rows;
  }

  /** Among its first m blockers, the row names b as blocking q. */
  predicate Declares(row: Session, m: nat, b: int, q: int)
    requires m <= |row.blockingPids|
  {
    q == row.pid && b != q && b in row.blockingPids[..m]
  }

  lemma DeclaresStep(row: Session, m: nat)
    requires m < |row.blockingPids|
    ensures forall b, q :: Declares(row, m + 1, b, q) <==>
      Declares(row, m, b, q) || (q == row.pid && b != q && b == row.blockingPids[m])
  {
    var before, last := row.blockingPids[..m], row.blockingPids[m];
    assert row.blockingPids[..m + 1] == before + [last];
    forall b ensures b in row.blockingPids[..m + 1] <==> b in before || b == last {
      assert b in before + [last] <==> b in before || b == last;
    }
  }

  lemma DeclaresEnds(row: Session)
    ensures forall b, q :: !Declares(row, 0, b, q)
    ensures forall b, q :: Declares(row, |row.blockingPids|, b, q) <==>
      q == row.pid && b != q && b in row.blockingPids
  {
    assert row.blockingPids[..|row.blockingPids|] == row.blockingPids;
  }

  lemma EdgeAdded(g: Edges, a: int, b: int)
    ensures var after := g[a := (if a in g then g[a] else {}) + {b}];
      forall x, y :: Edge(after, x, y) <==> Edge(g, x, y) || (x == a && y == b)
  {
  }

  class WaitGraph {
    var sessions: map<int, Session>
    var blockers: Edges
    var waiters: Edges

    constructor ()
      ensures sessions == map[] && blockers == map[] && waiters == map[]
    {
      sessions, blockers, waiters := map[], map[], map[];
    }

    /** The graph of the rows: the two edge maps are inverse of each other and
        hold no empty entry. */
    ghost predicate Represents(rows: seq<Session>)
      reads this
    {
      && (forall p :: p in sessions <==> RowOf(rows, p).Some?)
      && (forall p | p in sessions :: RowOf(rows, p) == Some(sessions[p]))
      && (forall b, p :: Edge(waiters, b, p) <==> Blocks(rows, b, p))
      && (forall b, p :: Edge(blockers, p, b) <==> Blocks(rows, b, p))
      && (forall b | b in waiters :: waiters[b] != {})
      && (forall p | p in blockers :: blockers[p] != {})
    }

    /** Adds the row of one session and the edges it declares, but for one to
        itself. */
    method AddRow(ghost rows: seq<Session>, row: Session)
      requires Represents(rows)
      modifies this
      ensures Represents(rows + [row])
    {
      sessions := sessions[row.pid := row];
      var p := row.pid;
      hide Edge, Declares;
      DeclaresEnds(row);
      for m := 0 to |row.blockingPids|
        invariant sessions == old(sessions)[p := row]
        invariant forall b, q :: Edge(waiters, b, q) <==>
          Edge(old(waiters), b, q) || Declares(row, m, b, q)
        invariant forall b, q :: Edge(blockers, q, b) <==>
          Edge(old(blockers), q, b) || Declares(row, m, b, q)
        invariant forall b | b in waiters :: waiters[b] != {}
        invariant forall q | q in blockers :: blockers[q] != {}
      {
        var b := row.blockingPids[m];
        DeclaresStep(row, m);
        if b == p { continue; }
        ghost var oldBlockers, oldWaiters := blockers, waiters;
        blockers := blockers[p := (if p in blockers then blockers[p] else {}) + {b}];
        waiters := waiters[b := (if b in waiters then waiters[b] else {}) + {p}];
        EdgeAdded(oldBlockers, p, b);
        EdgeAdded(oldWaiters, b, p);
      }
      RowAdded(rows, row);
    }

    /** Sessions that block somebody and wait for nobody, in order. */
    method Roots() returns (roots: seq<int>)
      ensures StrictlyIncreasing(roots)
      ensures forall b :: b in roots <==> b in waiters && Successors(blockers, b) == {}
    {
      roots := Sorted(set b | b in waiters && Successors(blockers, b) == {});
    }

    /** Every session that waits for root, directly or not, whatever cycles the
        graph has. */
    method BlockedUnder(root: int) returns (seen: set<int>)
      ensures forall p :: p in seen <==> p != root && Reaches(waiters, root, p)
    {
      ghost var reached := Reached(waiters, root);
      seen := Search(root, reached);
      ClosedIsComplete(waiters, root, seen + {root});
    }

    /** The search loop. The visited sessions stay inside any set that is closed
        under waiting, and end up closed themselves, but for root. */
    method Search(root: int, ghost reached: set<int>) returns (seen: set<int>)
      requires forall a | a == root || a in reached :: Successors(waiters, a) <= reached
      ensures seen <= reached && root !in seen
      ensures forall a, b | a in seen + {root} && Edge(waiters, a, b) :: b in seen + {root}
    {
      seen := {};
      var queue := Listing(Successors(waiters, root));
      while queue != []
        invariant seen <= reached && root !in seen && forall p | p in queue :: p in reached
        invariant forall a, b | (a == root || a in seen) && Edge(waiters, a, b) :: b == root || b in seen || b in queue
        decreases |reached - seen|, |queue|
      {
        var pid := queue[0];
        ghost var before := queue;
        queue := queue[1..];
        assert forall p :: p in before <==> p == pid || p in queue;
        if pid in seen || pid == root { continue; }
        assert reached - (seen + {pid}) == (reached - seen) - {pid};
        seen := seen + {pid};
        var next := Listing(Successors(waiters, pid));
        ghost var rest := queue;
        queue := queue + next;
        assert forall p :: p in queue <==> p in rest || p in next;
      }
    }
  }

  method BuildWaitGraph(rows: seq<Session>) returns (graph: WaitGraph)
    ensures fresh(graph) && graph.Represents(rows)
  {
    graph := new WaitGraph();
    for k := 0 to |rows|
      invariant fresh(graph) && graph.Represents(rows[..k])
    {
      graph.AddRow(rows[..k], rows[k]);
      assert rows[..k + 1] == rows[..k] + [rows[k]];
    }
    assert rows[..|rows|] == rows;
  }

  // ----- roots and cycles -----

  ghost predicate Waits(g: Edges, p: int) { exists b :: Edge(g, b, p) }

  ghost predicate IsRoot(g: Edges, b: int) { (exists p :: Edge(g, b, p)) && !Waits(g, b) }

  ghost predicate Acyclic(g: Edges) { forall p :: !Reaches(g, p, p) }

  /** Without cycles every waiting session waits, in the end, for a root. */
  lemma WaitingLiesUnderRoot(g: Edges, p: int) returns (root: int)
    requires Acyclic(g) && Waits(g, p)
    ensures IsRoot(g, root) && root != p && Reaches(g, root, p)
  {
    forall a, b, c | Reaches(g, a, b) && Reaches(g, b, c) ensures Reaches(g, a, c) {
      ReachesTransitive(g, a, b, c);
    }
    forall a | Waits(g, a) ensures exists b :: b in Nodes(g) && Reaches(g, b, a) {
      var b :| Edge(g, b, a);
      EdgeReaches(g, b, a);
    }
    root := ClimbEnds<int>(p, Nodes(g), (a, b) => Reaches(g, a, b), a => !Waits(g, a));
    var path :| PathFromTo(g, path, root, p);
    assert Edge(g, path[0], path[1]);
  }

  /** A session on a cycle is never a root, and neither is one that a cycle
      blocks: such chains can hang from no root at all. */
  lemma CyclesHaveNoRoot(g: Edges, a: int, p: int)
    requires Reaches(g, a, a) && (p == a || Reaches(g, a, p))
    ensures !IsRoot(g, p)
  {
    var path :| PathFromTo(g, path, a, p);
    assert Edge(g, path[|path| - 2], path[|path| - 1]);
  }
}
