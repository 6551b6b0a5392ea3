/** What the classification rules guarantee: a real cycle behind every report,
    and which rules can accept the same report. */
module DeadlockClassification {
  import opened Basics
  import opened DeadlockReports

  // ----- the cycle -----

  /** Some transaction with pid p waits for pid q of the same report. */
  predicate WaitsOn(r: Report, p: int, q: int) {
    exists t | t in r.transactions :: t.pid == Some(p) && q in t.blockedBy && ByPid(r.transactions, q).Some?
  }

  predicate Chain(edge: (int, int) -> bool, path: seq<int>) {
    forall k | 0 <= k < |path| - 1 :: edge(path[k], path[k + 1])
  }

  /** A simple closed walk: an edge from each to the next and from the last to
      the first. */
  predicate IsClosedWalk(edge: (int, int) -> bool, cycle: seq<int>) {
    cycle != [] && NoRepeats(cycle) && Chain(edge, cycle) && edge(cycle[|cycle| - 1], cycle[0])
  }

  function PidsOf(r: Report): set<int> { set t | t in r.transactions && t.pid.Some? :: t.pid.value }

  lemma {:induction false} DistinctFit(path: seq<int>, pool: set<int>)
    requires NoRepeats(path) && forall p | p in path :: p in pool
    ensures |path| <= |pool|
  {
    if path != [] {
      var last := path[|path| - 1];
      assert last in path && last !in path[..|path| - 1];
      DistinctFit(path[..|path| - 1], pool - {last});
    }
  }

  lemma SuffixIsWalk(edge: (int, int) -> bool, path: seq<int>, k: nat)
    requires k < |path| && NoRepeats(path) && Chain(edge, path) && edge(path[|path| - 1], path[k])
    ensures IsClosedWalk(edge, path[k..])
  {
    assert forall i | 0 <= i < |path| - k :: path[k..][i] == path[k + i];
  }

  lemma PathGrows(edge: (int, int) -> bool, path: seq<int>, next: int)
    requires path != [] && NoRepeats(path) && Chain(edge, path)
    requires next !in path && edge(path[|path| - 1], next)
    ensures NoRepeats(path + [next]) && Chain(edge, path + [next])
  {
  }

  predicate HasNext(edge: (int, int) -> bool, pool: set<int>, p: int) { exists q | q in pool :: edge(p, q) }

  /** From a path without repetitions, keep following edges: there is always a
      next one in the pool, and the pool runs out. */
  lemma {:induction false} FollowEdges(edge: (int, int) -> bool, pool: set<int>, path: seq<int>)
      returns (cycle: seq<int>)
    requires path != [] && NoRepeats(path) && Chain(edge, path) && forall p | p in path :: p in pool
    requires forall p {:trigger HasNext(edge, pool, p)} | p in pool :: HasNext(edge, pool, p)
    ensures IsClosedWalk(edge, cycle) && forall p | p in cycle :: p in pool
    decreases |pool| - |path|
  {
    DistinctFit(path, pool);
    hide NoRepeats, Chain;
    var last := path[|path| - 1];
    assert last in path;
    assert HasNext(edge, pool, last);
    var next :| next in pool && edge(last, next);
    hide HasNext;
    if k :| 0 <= k < |path| && path[k] == next {
      SuffixIsWalk(edge, path, k);
      cycle := path[k..];
      hide IsClosedWalk;
    } else {
      PathGrows(edge, path, next);
      DistinctFit(path + [next], pool);
      cycle := FollowEdges(edge, pool, path + [next]);
      hide IsClosedWalk;
    }
  }

  /** A report accepted as a cycle holds a cycle of sessions that wait for each
      other; of at least two when nobody waits for itself. */
  lemma ReportHoldsCycle(r: Report) returns (cycle: seq<int>)
    requires IsCycle(r)
    ensures IsClosedWalk((p: int, q: int) => WaitsOn(r, p, q), cycle)
    ensures (forall p :: !WaitsOn(r, p, p)) ==> |cycle| >= 2
  {
    var edge := (p: int, q: int) => WaitsOn(r, p, q);
    forall p | p in PidsOf(r) ensures HasNext(edge, PidsOf(r), p) {
      var t :| t in r.transactions && t.pid == Some(p);
      var q :| q in t.blockedBy && ByPid(r.transactions, q).Some?;
      ByPidFinds(r.transactions, q);
      assert edge(p, q);
    }
    hide HasNext;
    var start := FirstBlocker(r);
    cycle := FollowEdges(edge, PidsOf(r), [start]);
  }

  // ----- who holds what the others wait for -----

  predicate Holds(r: Report, q: int, kind: Kind, x: string) {
    && ByPid(r.transactions, q).Some? && ByPid(r.transactions, q).value.holds.Some?
    && exists l | l in ByPid(r.transactions, q).value.holds.value :: IsKind(l, kind) && x in TargetSet(l)
  }

  /** p waits for resource x, which q holds and blocks p with. */
  predicate WaitsForHeld(r: Report, p: int, q: int, kind: Kind, x: string) {
    && Holds(r, q, kind, x)
    && exists t | t in r.transactions ::
      t.pid == Some(p) && q in t.blockedBy && t.waitsFor.Some? && x in TargetSet(t.waitsFor.value)
  }

  ghost predicate IsBlockedByHold(r: Report, p: int, q: int, kind: Kind) { exists x :: WaitsForHeld(r, p, q, kind, x) }

  lemma HolderIsBlocker(r: Report, t: Transaction, kind: Kind) returns (q: int)
    requires HoldsKnown(r) && t in r.transactions && t.pid.Some? && t.waitsFor.Some? && SomeHolderHas(r, t, kind)
    ensures q in PidsOf(r) && IsBlockedByHold(r, t.pid.value, q, kind)
  {
    q :| q in t.blockedBy && ByPid(r.transactions, q).Some? && (
      ByPidFinds(r.transactions, q);
      HoldsOn(ByPid(r.transactions, q).value, t.waitsFor.value, kind));
    ByPidFinds(r.transactions, q);
    var l :| l in ByPid(r.transactions, q).value.holds.value
      && IsKind(l, kind) && TargetSet(l) * TargetSet(t.waitsFor.value) != {};
    var x :| x in TargetSet(l) * TargetSet(t.waitsFor.value);
    assert WaitsForHeld(r, t.pid.value, q, kind, x);
  }

  /** p goes to the sessions that block it with a hold. */
  ghost function HoldEdge(r: Report, kind: Kind): (int, int) -> bool {
    (p: int, q: int) => IsBlockedByHold(r, p, q, kind)
  }

  lemma HoldsGoOn(r: Report, kind: Kind, p: int)
    requires IsCycle(r) && HoldsKnown(r) && forall t | t in r.transactions :: SomeHolderHas(r, t, kind)
    requires p in PidsOf(r)
    ensures HasNext(HoldEdge(r, kind), PidsOf(r), p)
  {
    var t :| t in r.transactions && t.pid == Some(p);
    var q := HolderIsBlocker(r, t, kind);
    assert HoldEdge(r, kind)(p, q);
  }

  /** When every wait is for something a blocker holds, sessions close a cycle in
      which each waits for a resource that the next one holds. */
  lemma HoldsCloseCycle(r: Report, kind: Kind) returns (cycle: seq<int>, resources: seq<string>)
    requires IsCycle(r) && HoldsKnown(r) && forall t | t in r.transactions :: SomeHolderHas(r, t, kind)
    ensures IsHoldCycle(r, kind, cycle, resources)
  {
    var start := FirstBlocker(r);
    forall p | p in PidsOf(r) ensures HasNext(HoldEdge(r, kind), PidsOf(r), p) {
      HoldsGoOn(r, kind, p);
    }
    hide *;
    cycle := FollowEdges(HoldEdge(r, kind), PidsOf(r), [start]) by { NothingRepeats(HoldEdge(r, kind), start); }
    resources := ResourcesOfWalk(r, kind, cycle);
  }

  lemma NothingRepeats(edge: (int, int) -> bool, start: int)
    ensures NoRepeats([start]) && Chain(edge, [start])
  {
  }

  lemma ResourcesOfWalk(r: Report, kind: Kind, cycle: seq<int>) returns (resources: seq<string>)
    requires IsClosedWalk(HoldEdge(r, kind), cycle)
    ensures IsHoldCycle(r, kind, cycle, resources)
  {
    resources := seq(|cycle|, k requires 0 <= k < |cycle| => WaitedResource(r, cycle[k], Next(cycle, k), kind));
    forall k | 0 <= k < |cycle| ensures WaitsForHeld(r, cycle[k], Next(cycle, k), kind, resources[k]) {
      assert HoldEdge(r, kind)(cycle[k], Next(cycle, k));
      ResourceIsWaitedFor(r, cycle[k], Next(cycle, k), kind);
    }
    hide WaitsForHeld;
  }

  lemma FirstBlocker(r: Report) returns (start: int)
    requires IsCycle(r)
    ensures start in PidsOf(r)
  {
    start :| start in r.transactions[0].blockedBy && ByPid(r.transactions, start).Some?;
    ByPidFinds(r.transactions, start);
  }

  lemma ResourceIsWaitedFor(r: Report, p: int, q: int, kind: Kind)
    requires IsBlockedByHold(r, p, q, kind)
    ensures WaitsForHeld(r, p, q, kind, WaitedResource(r, p, q, kind))
  {
    hide WaitsForHeld;
  }

  function Next(cycle: seq<int>, k: nat): int
    requires k < |cycle|
  {
    if k + 1 < |cycle| then cycle[k + 1] else cycle[0]
  }

  ghost function WaitedResource(r: Report, p: int, q: int, kind: Kind): string {
    if x :| WaitsForHeld(r, p, q, kind, x) then x else ""
  }

  /** Each of the cycle waits for a resource that the next one holds. */
  predicate IsHoldCycle(r: Report, kind: Kind, cycle: seq<int>, resources: seq<string>) {
    && cycle != [] && NoRepeats(cycle) && |resources| == |cycle|
    && forall k | 0 <= k < |cycle| :: WaitsForHeld(r, cycle[k], Next(cycle, k), kind, resources[k])
  }

  /** A report of CT-01 with known holds is an opposite order: a cycle in which
      each holds in X what the one before it wants, all of them different. */
  lemma OrderReportCrossesHolds(r: Report) returns (cycle: seq<int>, resources: seq<string>)
    requires IsInconsistentOrder(r) && HoldsKnown(r)
    ensures IsHoldCycle(r, Exclusive, cycle, resources) && NoRepeats(resources)
  {
    cycle, resources := HoldsCloseCycle(r, Exclusive);
    forall a, b | 0 <= a < b < |resources| ensures resources[a] != resources[b] {
      WantedByOne(r, cycle[a], cycle[b], Next(cycle, a), Next(cycle, b), resources[a], resources[b]);
    }
  }

  lemma WantedByOne(r: Report, p: int, q: int, p': int, q': int, x: string, y: string)
    requires IsCycle(r) && WaitsDisjoint(r) && p != q
    requires WaitsForHeld(r, p, p', Exclusive, x) && WaitsForHeld(r, q, q', Exclusive, y)
    ensures x != y
  {
    var i := Waiting(r, p, p', x);
    var j := Waiting(r, q, q', y);
    var a, b := TargetSet(r.transactions[i].waitsFor.value), TargetSet(r.transactions[j].waitsFor.value);
    assert a * b == {};
    assert x == y ==> x in a * b;
  }

  lemma Waiting(r: Report, p: int, q: int, x: string) returns (i: nat)
    requires IsCycle(r) && WaitsForHeld(r, p, q, Exclusive, x)
    ensures i < |r.transactions| && r.transactions[i].pid == Some(p) && x in TargetSet(r.transactions[i].waitsFor.value)
  {
    i :| 0 <= i < |r.transactions| && r.transactions[i].pid == Some(p) && r.transactions[i].waitsFor.Some?
      && x in TargetSet(r.transactions[i].waitsFor.value);
  }

  /** A report of CT-02 with known holds: a cycle in which each wants in X what
      the next one holds in S. */
  lemma ConversionReportCrossesHolds(r: Report) returns (cycle: seq<int>, resources: seq<string>)
    requires IsModeConversion(r) && HoldsKnown(r)
    ensures IsHoldCycle(r, Shared, cycle, resources)
  {
    cycle, resources := HoldsCloseCycle(r, Shared);
  }

  // ----- which rules exclude each other -----

  /** Facts about locks that an engine guarantees: two transactions never hold
      the same resource one in X and the other in S, and none waits for itself. */
  predicate CompatibleLocks(r: Report)
    requires IsCycle(r)
  {
    && (forall t, u | t in r.transactions && u in r.transactions && t.pid != u.pid :: CompatibleHolds(t, u))
    && (forall t | t in r.transactions && t.pid.Some? :: t.pid.value !in t.blockedBy)
  }

  /** Besides, each wait is for one resource. */
  predicate SoundLocks(r: Report)
    requires IsCycle(r)
  {
    CompatibleLocks(r) && forall t | t in r.transactions :: |TargetSet(t.waitsFor.value)| <= 1
  }

  predicate CompatibleHolds(t: Transaction, u: Transaction) {
    t.holds.Some? && u.holds.Some? ==>
      forall a, b | a in t.holds.value && b in u.holds.value && IsKind(a, Shared) && IsKind(b, Exclusive) ::
        TargetSet(a) * TargetSet(b) == {}
  }

  lemma RangeExcludesOrders(r: Report)
    requires IsRangeContention(r)
    ensures !IsInconsistentOrder(r) && !IsModeConversion(r) && !IsUnclassified(r)
  {
    var t :| t in r.transactions && BlockedInsert(r, t);
    assert !RequestsExclusive(t.waitsFor.value);
  }

  lemma AmplificationExcludesOthers(r: Report, indexes: seq<IndexRow>)
    requires IsLockAmplification(r, indexes)
    ensures !IsInconsistentOrder(r) && !IsModeConversion(r) && !IsRangeContention(r)
  {
    AmplifierIsHighest(r.transactions);
    assert IsAmplified(Amplifier(r.transactions).value);
  }

  lemma OrdersExcludeWithoutHolds(r: Report)
    requires IsInconsistentOrder(r) && !HoldsKnown(r)
    ensures !IsModeConversion(r)
  {
    var a, b := TargetSet(r.transactions[0].waitsFor.value), TargetSet(r.transactions[1].waitsFor.value);
    assert a * b == {};
    forall x | x in a ensures x !in b {
      assert x !in a * b;
    }
    assert r.transactions[1] in r.transactions;
  }

  lemma SharedTarget(x: set<string>, a: set<string>, b: set<string>)
    requires |x| <= 1 && a * x != {} && b * x != {}
    ensures a * b != {}
  {
    var p :| p in a * x;
    var q :| q in b * x;
    assert |x - {p}| == |x| - 1;
    assert q in {p} + (x - {p});
    assert p in a * b;
  }

  /** A report of CT-01 is also one of CT-02 exactly when its holds are known
      and, for every wait, the one who waits and one who blocks it both hold part
      of what is wanted in S. */
  lemma OrderIsConversionExactlyWhen(r: Report)
    requires IsInconsistentOrder(r)
    ensures IsModeConversion(r) <==>
      && HoldsKnown(r)
      && forall t | t in r.transactions :: HoldsOn(t, t.waitsFor.value, Shared) && SomeHolderHas(r, t, Shared)
  {
    if !HoldsKnown(r) {
      OrdersExcludeWithoutHolds(r);
    }
  }

  /** With compatible locks both can accept a report only if every wait is for
      two resources or more. */
  lemma BothNeedTwoTargets(r: Report, t: Transaction)
    requires IsInconsistentOrder(r) && IsModeConversion(r) && CompatibleLocks(r) && t in r.transactions
    ensures |TargetSet(t.waitsFor.value)| >= 2
  {
    OrderIsConversionExactlyWhen(r);
    assert SomeHolderHas(r, t, Exclusive);
    var p :| p in t.blockedBy && ByPid(r.transactions, p).Some? && (
      ByPidFinds(r.transactions, p);
      HoldsOn(ByPid(r.transactions, p).value, t.waitsFor.value, Exclusive));
    ByPidFinds(r.transactions, p);
    var u := ByPid(r.transactions, p).value;
    assert CompatibleHolds(t, u);
    var a :| a in t.holds.value && IsKind(a, Shared) && TargetSet(a) * TargetSet(t.waitsFor.value) != {};
    var b :| b in u.holds.value && IsKind(b, Exclusive) && TargetSet(b) * TargetSet(t.waitsFor.value) != {};
    if |TargetSet(t.waitsFor.value)| <= 1 {
      SharedTarget(TargetSet(t.waitsFor.value), TargetSet(a), TargetSet(b));
    }
  }

  /** The only pairs of rules that can accept one report: CT-04 with
      unclassified, exactly when targets are missing; and CT-01 with CT-02,
      only when holds are known and the reported locks break SoundLocks. */
  lemma OverlapsAre(r: Report, indexes: seq<IndexRow>, p: Pattern, q: Pattern)
    requires p != q && Matches(p, r, indexes) && Matches(q, r, indexes)
    ensures (p == LockAmplification && q == Unclassified) || (p == Unclassified && q == LockAmplification)
      ==> !TargetsKnown(r)
    ensures (p == LockAmplification && q == Unclassified) || (p == Unclassified && q == LockAmplification)
      || ({p, q} == {InconsistentOrder, ModeConversion} && HoldsKnown(r) && !SoundLocks(r))
  {
    if IsRangeContention(r) { RangeExcludesOrders(r); }
    if IsLockAmplification(r, indexes) { AmplificationExcludesOthers(r, indexes); }
    if IsInconsistentOrder(r) && IsModeConversion(r) {
      OrderIsConversionExactlyWhen(r);
      if SoundLocks(r) { BothNeedTwoTargets(r, r.transactions[0]); }
    }
  }

  /** An order that tries every rule. */
  predicate TriesAll(order: seq<Pattern>) { forall p: Pattern :: p in order }

  lemma {:induction false} FirstMatchMatches(order: seq<Pattern>, r: Report, indexes: seq<IndexRow>)
    ensures var c := FirstMatch(order, r, indexes);
      if c.Some? then c.value in order && Matches(c.value, r, indexes)
      else forall p | p in order :: !Matches(p, r, indexes)
  {
    if order != [] && !Matches(order[0], r, indexes) {
      FirstMatchMatches(order[1..], r, indexes);
    }
  }

  lemma FirstOfOrder(r: Report, indexes: seq<IndexRow>, p: Pattern)
    requires Matches(p, r, indexes)
    ensures TriesAll([p] + PATTERNS) && FirstMatch([p] + PATTERNS, r, indexes) == Some(p)
  {
    PatternsTryAll();
    assert forall q | q in PATTERNS :: q in [p] + PATTERNS;
    hide Matches;
  }

  lemma PatternsTryAll()
    ensures TriesAll(PATTERNS)
  {
    forall p: Pattern ensures p in PATTERNS {
      match p
      case InconsistentOrder => assert PATTERNS[0] == p;
      case ModeConversion => assert PATTERNS[1] == p;
      case RangeContention => assert PATTERNS[2] == p;
      case LockAmplification => assert PATTERNS[3] == p;
      case Unclassified => assert PATTERNS[4] == p;
    }
  }

  /** CT-04 and unclassified both accept the report, or CT-01 and CT-02 do. */
  predicate IsAmbiguous(r: Report, indexes: seq<IndexRow>) {
    || (IsLockAmplification(r, indexes) && !TargetsKnown(r))
    || (IsInconsistentOrder(r) && IsModeConversion(r))
  }

  lemma AmbiguousMatchesTwice(r: Report, indexes: seq<IndexRow>) returns (p: Pattern, q: Pattern)
    requires IsAmbiguous(r, indexes)
    ensures p != q && Matches(p, r, indexes) && Matches(q, r, indexes)
  {
    if IsInconsistentOrder(r) && IsModeConversion(r) {
      p, q := InconsistentOrder, ModeConversion;
    } else {
      p, q := LockAmplification, Unclassified;
    }
  }

  /** Every order that tries all the rules classifies a report alike, exactly
      when no two of the rules that can meet accept it. */
  lemma OrderDecidesNothing(r: Report, indexes: seq<IndexRow>)
    ensures (forall order | TriesAll(order) :: FirstMatch(order, r, indexes) == Classify(r, indexes)) <==>
      !IsAmbiguous(r, indexes)
  {
    if IsAmbiguous(r, indexes) {
      var p, q := AmbiguousMatchesTwice(r, indexes);
      FirstOfOrder(r, indexes, p);
      FirstOfOrder(r, indexes, q);
      hide *;
    } else {
      forall order | TriesAll(order) ensures FirstMatch(order, r, indexes) == Classify(r, indexes) {
        UnambiguousOrder(r, indexes, order);
      }
    }
  }

  lemma UnambiguousOrder(r: Report, indexes: seq<IndexRow>, order: seq<Pattern>)
    requires TriesAll(order) && !IsAmbiguous(r, indexes)
    ensures FirstMatch(order, r, indexes) == Classify(r, indexes)
  {
    FirstMatchMatches(order, r, indexes);
    FirstMatchMatches(PATTERNS, r, indexes);
    PatternsTryAll();
    var a, b := FirstMatch(order, r, indexes), Classify(r, indexes);
    if a.Some? && b.Some? && a != b {
      OverlapsAre(r, indexes, a.value, b.value);
    }
  }

  /** With sound locks that leaves an amplified cycle whose targets are missing. */
  lemma SoundLocksFixOrder(r: Report, indexes: seq<IndexRow>, order: seq<Pattern>)
    requires TriesAll(order)
    requires IsCycle(r) ==> SoundLocks(r) && (TargetsKnown(r) || !IsLockAmplification(r, indexes))
    ensures FirstMatch(order, r, indexes) == Classify(r, indexes)
  {
    if IsInconsistentOrder(r) && IsModeConversion(r) {
      BothNeedTwoTargets(r, r.transactions[0]);
    }
    UnambiguousOrder(r, indexes, order);
  }

  // ----- two rules on one report -----

  /** Two sessions wait for each other on locks without targets; the first locks
      ten rows to delete by a column of a table that has no index. */
  function AmplifiedWithoutTargets(): Report {
    var wanted := Lock(None, None, Some(X), Some(RowScope), None);
    Report(0, "innodb_status", None, true, [
      Transaction(Some(1), None, Some(wanted), [2], Some(10), None, true, Some(Statement(None, "t", ["c"]))),
      Transaction(Some(2), None, Some(wanted), [1], None, None, false, None)])
  }

  lemma AmplifiedIsCycle()
    ensures IsCycle(AmplifiedWithoutTargets()) && !TargetsKnown(AmplifiedWithoutTargets())
    ensures var ts := AmplifiedWithoutTargets().transactions; IsCandidate(ts[0]) && Amplifier(ts) == Some(ts[0])
  {
    var ts := AmplifiedWithoutTargets().transactions;
    assert ts[..1] == [ts[0]] && [ts[0]][..0] == [];
    assert 2 in ts[0].blockedBy && 1 in ts[1].blockedBy;
    assert ByPid(ts, 2).Some? && ByPid(ts, 1).Some?;
    assert ts[0] in ts;
    assert LockRatio(ts[0]) == Some(10.0);
    assert Amplifier(ts[..1][..0]) == None;
    assert Amplifier(ts[..1]) == Some(ts[0]);
  }

  /** CT-04 and unclassified can both accept a report, so the order of the two
      decides what it is called. */
  lemma AmplifiedWithoutTargetsMatchesTwice()
    ensures var r := AmplifiedWithoutTargets();
      && IsLockAmplification(r, []) && IsUnclassified(r)
      && FirstMatch([LockAmplification, Unclassified], r, []) == Some(LockAmplification)
      && FirstMatch([Unclassified, LockAmplification], r, []) == Some(Unclassified)
  {
    var r := AmplifiedWithoutTargets();
    AmplifiedIsCycle();
    assert Homonyms(LeadColumns([]), None, "t") == {};
    assert LacksIndex([], Amplifier(r.transactions).value.statement.value);
    hide LacksIndex, Amplifier, TargetsKnown, IsCycle;
  }

  function RowLock(mode: Mode, targets: seq<string>): Lock {
    Lock(None, None, Some(mode), Some(RowScope), Some(targets))
  }

  function Waiter(pid: int, blocker: int, holds: seq<Lock>, wants: seq<string>): Transaction {
    Transaction(Some(pid), Some(holds), Some(RowLock(X, wants)), [blocker], None, None, false, None)
  }

  /** Each of two sessions waits for two rows. It holds one of them in S; the
      other session holds the second in X and the first, again, in S. */
  function TwoRowWaits(): Report {
    Report(0, "innodb_status", None, true, [
      Waiter(1, 2, [RowLock(S, ["a", "c"]), RowLock(X, ["d"])], ["a", "b"]),
      Waiter(2, 1, [RowLock(S, ["c", "a"]), RowLock(X, ["b"])], ["c", "d"])])
  }

  lemma TwoRowWaitsIsCycle()
    ensures IsCycle(TwoRowWaits()) && TargetsKnown(TwoRowWaits()) && HoldsKnown(TwoRowWaits())
    ensures var ts := TwoRowWaits().transactions;
      && ts == [ts[0], ts[1]] && ts[0].pid == Some(1) && ts[1].pid == Some(2)
      && 1 !in ts[0].blockedBy && 2 !in ts[1].blockedBy
    ensures ByPid(TwoRowWaits().transactions, 1) == Some(TwoRowWaits().transactions[0])
    ensures ByPid(TwoRowWaits().transactions, 2) == Some(TwoRowWaits().transactions[1])
  {
    var ts := TwoRowWaits().transactions;
    assert ts[..1] == [ts[0]];
    assert 2 in ts[0].blockedBy && 1 in ts[1].blockedBy;
  }

  lemma HoldsInTwoRowWaits(i: nat)
    requires i < 2
    ensures var ts := TwoRowWaits().transactions;
      && HoldsOn(ts[i], ts[i].waitsFor.value, Shared)
      && HoldsOn(ts[1 - i], ts[i].waitsFor.value, Shared) && HoldsOn(ts[1 - i], ts[i].waitsFor.value, Exclusive)
  {
    var ts := TwoRowWaits().transactions;
    var wanted := TargetSet(ts[i].waitsFor.value);
    var shared, row := if i == 0 then "a" else "c", if i == 0 then "b" else "d";
    assert shared in wanted && row in wanted;
    assert shared in TargetSet(ts[i].holds.value[0]) * wanted;
    assert shared in TargetSet(ts[1 - i].holds.value[0]) * wanted;
    assert row in TargetSet(ts[1 - i].holds.value[1]) * wanted;
  }

  lemma HoldersInTwoRowWaits(i: nat)
    requires i < 2
    ensures HoldsKnown(TwoRowWaits()) && TwoRowWaits().transactions[i].waitsFor.Some?
    ensures SomeHolderHas(TwoRowWaits(), TwoRowWaits().transactions[i], Shared)
    ensures SomeHolderHas(TwoRowWaits(), TwoRowWaits().transactions[i], Exclusive)
  {
    TwoRowWaitsIsCycle();
    HoldsInTwoRowWaits(i);
    var ts := TwoRowWaits().transactions;
    assert (2 - i) in ts[i].blockedBy && ByPid(ts, 2 - i) == Some(ts[1 - i]);
  }

  lemma TargetsOf(l: Lock, a: string, b: string)
    requires l.targets == Some([a, b]) || (a == b && l.targets == Some([a]))
    ensures TargetSet(l) == {a, b}
  {
    assert l.targets.value[0] == a;
    assert l.targets == Some([a, b]) ==> l.targets.value[1] == b;
  }

  lemma TwoRowWaitsTargets()
    ensures var ts := TwoRowWaits().transactions;
      && TargetSet(ts[0].waitsFor.value) * TargetSet(ts[1].waitsFor.value) == {}
      && RequestsExclusive(ts[0].waitsFor.value) && RequestsExclusive(ts[1].waitsFor.value)
      && !IsAmplified(ts[0]) && !IsAmplified(ts[1])
      && CompatibleHolds(ts[0], ts[1]) && CompatibleHolds(ts[1], ts[0])
  {
    var ts := TwoRowWaits().transactions;
    TargetsOf(ts[0].waitsFor.value, "a", "b");
    TargetsOf(ts[1].waitsFor.value, "c", "d");
    TargetsOf(ts[0].holds.value[0], "a", "c");
    TargetsOf(ts[1].holds.value[0], "c", "a");
    TargetsOf(ts[0].holds.value[1], "d", "d");
    TargetsOf(ts[1].holds.value[1], "b", "b");
  }

  lemma PairMatchesTwice(r: Report, t: Transaction, u: Transaction)
    requires r.transactions == [t, u] && IsCycle(r) && TargetsKnown(r) && HoldsKnown(r)
    requires RequestsExclusive(t.waitsFor.value) && RequestsExclusive(u.waitsFor.value)
    requires TargetSet(t.waitsFor.value) * TargetSet(u.waitsFor.value) == {}
    requires !IsAmplified(t) && !IsAmplified(u)
    requires SomeHolderHas(r, t, Exclusive) && SomeHolderHas(r, u, Exclusive)
    requires SomeHolderHas(r, t, Shared) && SomeHolderHas(r, u, Shared)
    requires HoldsOn(t, t.waitsFor.value, Shared) && HoldsOn(u, u.waitsFor.value, Shared)
    ensures IsInconsistentOrder(r) && IsModeConversion(r)
  {
    assert forall v | v in r.transactions :: v == t || v == u;
  }

  lemma PairIsCompatible(r: Report, t: Transaction, u: Transaction)
    requires r.transactions == [t, u] && IsCycle(r) && CompatibleHolds(t, u) && CompatibleHolds(u, t)
    requires t.pid.Some? && u.pid.Some? && t.pid.value !in t.blockedBy && u.pid.value !in u.blockedBy
    ensures CompatibleLocks(r)
  {
    assert forall v | v in r.transactions :: v == t || v == u;
    hide CompatibleHolds;
  }

  /** Known holds, compatible modes and no self-blocking are not enough: when a
      wait covers two rows, CT-01 and CT-02 can both accept a report. */
  lemma TwoRowWaitsMatchTwice()
    ensures IsInconsistentOrder(TwoRowWaits()) && IsModeConversion(TwoRowWaits())
    ensures HoldsKnown(TwoRowWaits()) && CompatibleLocks(TwoRowWaits())
  {
    TwoRowWaitsIsCycle();
    TwoRowWaitsTargets();
    HoldsInTwoRowWaits(0);
    HoldsInTwoRowWaits(1);
    HoldersInTwoRowWaits(0);
    HoldersInTwoRowWaits(1);
    hide *;
    PairMatchesTwice(TwoRowWaits(), TwoRowWaits().transactions[0], TwoRowWaits().transactions[1]);
    PairIsCompatible(TwoRowWaits(), TwoRowWaits().transactions[0], TwoRowWaits().transactions[1]);
  }
}
