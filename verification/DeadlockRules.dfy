/** What the deadlock rules say of a report, told from its transactions, locks and
    indexes. */
module DeadlockRules {
  import opened Basics
  import opened DeadlockReports
  import opened DeadlockClassification

  // ----- transactions and locks -----

  /** The transaction that a pid stands for: the last of the report with it. */
  lemma {:induction false} ByPidIsLast(ts: seq<Transaction>, pid: int, k: nat)
    ensures k < |ts| && ts[k].pid == Some(pid) && (forall j | k < j < |ts| :: ts[j].pid != Some(pid)) ==>
      ByPid(ts, pid) == Some(ts[k])
    ensures ByPid(ts, pid).Some? <==> exists t | t in ts :: t.pid == Some(pid)
  {
    if ts != [] {
      ByPidIsLast(ts[..|ts| - 1], pid, k);
      assert forall t :: t in ts <==> t in ts[..|ts| - 1] || t == ts[|ts| - 1];
    }
  }

  predicate IsOnGap(l: Lock) { l.scope in {Some(Gap), Some(InsertIntention)} }

  /** Ten times as many rows locked as modified, or more. */
  predicate LocksTenfold(t: Transaction) {
    && t.rowsLocked.Some?
    && t.rowsLocked.value >= 10 * (if t.undoEntries.Some? && t.undoEntries.value >= 1 then t.undoEntries.value else 1)
  }

  lemma AmplifiedExactlyWhen(t: Transaction)
    ensures IsAmplified(t) <==> LocksTenfold(t)
  {
    if t.rowsLocked.Some? {
      var modified := if t.undoEntries.Some? && t.undoEntries.value > 1 then t.undoEntries.value else 1;
      DivisionAtLeast(t.rowsLocked.value as real, modified as real, 10.0);
    }
  }

  lemma DivisionAtLeast(a: real, b: real, c: real)
    requires b > 0.0
    ensures a / b >= c <==> a >= c * b
  {
    assert a / b * b == a;
    if a / b >= c {
      Scale(c, a / b, b);
    } else {
      ScaleStrictly(a / b, c, b);
    }
  }

  lemma Scale(x: real, y: real, b: real)
    requires x <= y && b > 0.0
    ensures x * b <= y * b
  {
  }

  lemma ScaleStrictly(x: real, y: real, b: real)
    requires x < y && b > 0.0
    ensures x * b < y * b
  {
  }

  /** t wants to lock resource x. */
  predicate Wants(t: Transaction, x: string) {
    t.waitsFor.Some? && t.waitsFor.value.targets.Some? && x in t.waitsFor.value.targets.value
  }

  predicate WantsSomething(t: Transaction) {
    t.waitsFor.Some? && t.waitsFor.value.targets.Some? && |t.waitsFor.value.targets.value| > 0
  }

  /** t wants its resource for itself, and not a gap; a mode that is not told may be
      that. */
  predicate WantsExclusively(t: Transaction) {
    t.waitsFor.Some? && t.waitsFor.value.mode in {Some(X), None} && !IsOnGap(t.waitsFor.value)
  }

  predicate IsOfKind(l: Lock, kind: Kind) {
    match kind
    case Exclusive => l.mode == Some(X) && !IsOnGap(l)
    case Shared => l.mode == Some(S) && !IsOnGap(l)
    case GapHold => l.scope in {Some(Gap), Some(RowAndGap)}
  }

  /** u holds, in a lock of that kind, a resource that t wants. */
  predicate HoldsWanted(u: Transaction, t: Transaction, kind: Kind) {
    u.holds.Some? && exists l | l in u.holds.value :: IsOfKind(l, kind) && LocksWanted(l, t)
  }

  predicate LocksWanted(l: Lock, t: Transaction) { l.targets.Some? && exists x | x in l.targets.value :: Wants(t, x) }

  /** A transaction of the report that blocks t holds what t wants. */
  predicate IsBlockedBy(r: Report, t: Transaction, kind: Kind) {
    exists p | p in t.blockedBy ::
      ByPid(r.transactions, p).Some? && HoldsWanted(ByPid(r.transactions, p).value, t, kind)
  }

  lemma LocksWantedExactlyWhen(l: Lock, t: Transaction)
    requires t.waitsFor.Some?
    ensures TargetSet(l) * TargetSet(t.waitsFor.value) != {} <==> LocksWanted(l, t)
  {
    var both := TargetSet(l) * TargetSet(t.waitsFor.value);
    if both != {} {
      var x :| x in both;
      assert Wants(t, x);
    }
    if LocksWanted(l, t) {
      var x :| x in l.targets.value && Wants(t, x);
      assert x in both;
    }
  }

  lemma HoldsExactlyWhen(u: Transaction, t: Transaction, kind: Kind)
    requires u.holds.Some? && t.waitsFor.Some?
    ensures HoldsOn(u, t.waitsFor.value, kind) <==> HoldsWanted(u, t, kind)
  {
    forall l ensures TargetSet(l) * TargetSet(t.waitsFor.value) != {} <==> LocksWanted(l, t) {
      LocksWantedExactlyWhen(l, t);
    }
    hide LocksWanted, TargetSet;
  }

  lemma BlockedExactlyWhen(r: Report, t: Transaction, kind: Kind)
    requires HoldsKnown(r) && t.waitsFor.Some?
    ensures SomeHolderHas(r, t, kind) <==> IsBlockedBy(r, t, kind)
  {
    forall p | ByPid(r.transactions, p).Some?
      ensures ByPid(r.transactions, p).value.holds.Some?
      ensures HoldsOn(ByPid(r.transactions, p).value, t.waitsFor.value, kind)
        <==> HoldsWanted(ByPid(r.transactions, p).value, t, kind)
    {
      ByPidFinds(r.transactions, p);
      HoldsExactlyWhen(ByPid(r.transactions, p).value, t, kind);
    }
    hide ByPid, HoldsOn, HoldsWanted;
  }

  // ----- the rules -----

  /** A complete report of two transactions or more in which each waits for a lock
      and is blocked by one of the report. */
  predicate IsWaitReport(r: Report) {
    && r.complete && |r.transactions| > 1
    && forall t | t in r.transactions :: t.waitsFor.Some? && exists p | p in t.blockedBy :: IsPidOf(r, p)
  }

  predicate IsPidOf(r: Report, p: int) { exists t | t in r.transactions :: t.pid == Some(p) }

  lemma CycleExactlyWhen(r: Report)
    ensures IsCycle(r) <==> IsWaitReport(r)
  {
    forall p ensures ByPid(r.transactions, p).Some? <==> IsPidOf(r, p) {
      ByPidIsLast(r.transactions, p, 0);
    }
    hide ByPid, IsPidOf;
  }

  lemma TargetsKnownExactlyWhen(r: Report)
    requires IsCycle(r)
    ensures TargetsKnown(r) <==> forall t | t in r.transactions :: WantsSomething(t)
  {
  }

  /** What CT-01 and CT-02 both ask for. */
  predicate IsExclusiveWait(r: Report) {
    && IsWaitReport(r)
    && forall t | t in r.transactions :: WantsSomething(t) && WantsExclusively(t) && !LocksTenfold(t)
  }

  predicate HoldsTold(r: Report) { forall t | t in r.transactions :: t.holds != None }

  /** No resource is wanted twice. */
  predicate WantsAreDisjoint(r: Report) {
    forall i, j | 0 <= i < j < |r.transactions| :: !WantTheSame(r.transactions[i], r.transactions[j])
  }

  predicate WantTheSame(t: Transaction, u: Transaction) { t.waitsFor.Some? && LocksWanted(t.waitsFor.value, u) }

  lemma DisjointExactlyWhen(r: Report)
    requires IsCycle(r)
    ensures WaitsDisjoint(r) <==> WantsAreDisjoint(r)
  {
    forall i, j | 0 <= i < j < |r.transactions|
      ensures TargetSet(r.transactions[i].waitsFor.value) * TargetSet(r.transactions[j].waitsFor.value) == {}
        <==> !WantTheSame(r.transactions[i], r.transactions[j])
    {
      assert r.transactions[i] in r.transactions && r.transactions[j] in r.transactions;
      LocksWantedExactlyWhen(r.transactions[i].waitsFor.value, r.transactions[j]);
    }
    hide TargetSet, LocksWanted, WantTheSame;
  }

  predicate SomeLocksTenfold(r: Report) { exists t | t in r.transactions :: LocksTenfold(t) }

  lemma SomeAmplifiedExactlyWhen(r: Report)
    ensures Amplified(r) <==> SomeLocksTenfold(r)
  {
    forall t ensures IsAmplified(t) <==> LocksTenfold(t) {
      AmplifiedExactlyWhen(t);
    }
    hide IsAmplified, LocksTenfold;
  }

  lemma RequestsExactlyWhen(r: Report)
    requires IsCycle(r)
    ensures AllRequestExclusive(r) <==> forall t | t in r.transactions :: WantsExclusively(t)
  {
    forall t | t in r.transactions ensures RequestsExclusive(t.waitsFor.value) <==> WantsExclusively(t) {
    }
    hide RequestsExclusive, WantsExclusively;
  }

  lemma ExclusiveWaitExactlyWhen(r: Report)
    ensures IsCycle(r) && TargetsKnown(r) && AllRequestExclusive(r) && !Amplified(r) <==> IsExclusiveWait(r)
    ensures HoldsKnown(r) <==> HoldsTold(r)
  {
    CycleExactlyWhen(r);
    SomeAmplifiedExactlyWhen(r);
    if IsCycle(r) {
      TargetsKnownExactlyWhen(r);
      RequestsExactlyWhen(r);
    }
    hide Amplified, IsCycle, IsWaitReport, TargetsKnown, AllRequestExclusive;
    hide WantsSomething, WantsExclusively, LocksTenfold;
  }

  /** CT-01: all want different resources for themselves and, when holds are told,
      each is blocked by one that holds what it wants in X. */
  lemma OrderExactlyWhen(r: Report)
    ensures IsInconsistentOrder(r) <==>
      && IsExclusiveWait(r) && WantsAreDisjoint(r)
      && (HoldsTold(r) ==> forall t | t in r.transactions :: IsBlockedBy(r, t, Exclusive))
  {
    ExclusiveWaitExactlyWhen(r);
    if IsCycle(r) {
      DisjointExactlyWhen(r);
      if HoldsKnown(r) {
        forall t | t in r.transactions ensures SomeHolderHas(r, t, Exclusive) <==> IsBlockedBy(r, t, Exclusive) {
          BlockedExactlyWhen(r, t, Exclusive);
        }
      }
    }
    hide IsExclusiveWait, WantsAreDisjoint, WaitsDisjoint, IsBlockedBy, SomeHolderHas, Amplified, AllRequestExclusive;
  }

  predicate AllWant(r: Report, x: string) { forall t | t in r.transactions :: Wants(t, x) }

  /** Each holds in S what it wants, and is blocked by another that does. */
  predicate AllConvert(r: Report) {
    forall t | t in r.transactions :: HoldsWanted(t, t, Shared) && IsBlockedBy(r, t, Shared)
  }

  /** CT-02: when holds are told, each holds in S what it wants for itself and is
      blocked by another that does; when they are not, all want one resource. */
  lemma ConversionExactlyWhen(r: Report)
    ensures IsModeConversion(r) <==>
      IsExclusiveWait(r) && if HoldsTold(r) then AllConvert(r) else exists x :: AllWant(r, x)
  {
    ExclusiveWaitExactlyWhen(r);
    if IsExclusiveWait(r) {
      if HoldsTold(r) {
        ConvertsExactlyWhen(r);
      } else {
        SharedTargetExactlyWhen(r);
      }
    }
    hide IsCycle, TargetsKnown, HoldsKnown, IsExclusiveWait, SomeHolderHas, Amplified;
    hide AllRequestExclusive, HoldsOn, AllConvert, WaitsShareTarget, AllWant, HoldsTold;
  }

  lemma ConvertsExactlyWhen(r: Report)
    requires IsCycle(r) && HoldsKnown(r)
    ensures (forall t | t in r.transactions :: HoldsOn(t, t.waitsFor.value, Shared) && SomeHolderHas(r, t, Shared))
      <==> AllConvert(r)
  {
    forall t | t in r.transactions
      ensures SomeHolderHas(r, t, Shared) <==> IsBlockedBy(r, t, Shared)
      ensures HoldsOn(t, t.waitsFor.value, Shared) <==> HoldsWanted(t, t, Shared)
    {
      BlockedExactlyWhen(r, t, Shared);
      HoldsExactlyWhen(t, t, Shared);
    }
    hide IsBlockedBy, SomeHolderHas, HoldsOn, HoldsWanted;
  }

  lemma SharedTargetExactlyWhen(r: Report)
    requires IsCycle(r)
    ensures WaitsShareTarget(r) <==> exists x :: AllWant(r, x)
  {
    var first := r.transactions[0];
    assert first in r.transactions;
    if x :| AllWant(r, x) {
      assert Wants(first, x);
      assert x in TargetSet(first.waitsFor.value);
    }
    if WaitsShareTarget(r) {
      var x :| x in TargetSet(first.waitsFor.value)
        && forall t | t in r.transactions :: x in TargetSet(t.waitsFor.value);
      assert AllWant(r, x);
    }
  }

  /** t waits to insert into a gap that one which blocks it holds. */
  predicate IsKeptOut(r: Report, t: Transaction) {
    t.waitsFor.Some? && t.waitsFor.value.scope == Some(InsertIntention) && IsBlockedBy(r, t, GapHold)
  }

  lemma KeptOutExactlyWhen(r: Report)
    requires IsCycle(r) && HoldsKnown(r)
    ensures forall t | t in r.transactions :: BlockedInsert(r, t) <==> IsKeptOut(r, t)
  {
    forall t | t in r.transactions ensures SomeHolderHas(r, t, GapHold) <==> IsBlockedBy(r, t, GapHold) {
      BlockedExactlyWhen(r, t, GapHold);
    }
    hide IsBlockedBy, SomeHolderHas;
  }

  /** CT-03: some transaction waits to insert into a gap that one which blocks it
      holds. */
  lemma RangeExactlyWhen(r: Report)
    ensures IsRangeContention(r) <==>
      && IsWaitReport(r) && HoldsTold(r)
      && (forall t | t in r.transactions :: WantsSomething(t) && !LocksTenfold(t))
      && exists t | t in r.transactions :: IsKeptOut(r, t)
  {
    CycleExactlyWhen(r);
    SomeAmplifiedExactlyWhen(r);
    if IsCycle(r) {
      TargetsKnownExactlyWhen(r);
      if HoldsKnown(r) {
        KeptOutExactlyWhen(r);
      }
    }
    hide Amplified, IsCycle, IsWaitReport, TargetsKnown, WantsSomething, LocksTenfold, BlockedInsert, IsKeptOut;
  }

  /** Unclassified: some wait of a cycle does not tell what it is for. */
  lemma UnclassifiedExactlyWhen(r: Report)
    ensures IsUnclassified(r) <==> IsWaitReport(r) && exists t | t in r.transactions :: !WantsSomething(t)
  {
    CycleExactlyWhen(r);
    if IsCycle(r) {
      TargetsKnownExactlyWhen(r);
    }
    hide IsWaitReport, WantsSomething, TargetsKnown;
  }

  // ----- CT-04 -----

  /** No index of that table of that schema starts with one of the columns. */
  predicate NoneStartsWith(indexes: seq<IndexRow>, schema: string, table: string, columns: seq<string>) {
    forall i, c | i in indexes && c in columns ::
      i.schema == schema && i.table == table ==> i.lead != Some(c)
  }

  predicate HasTable(indexes: seq<IndexRow>, schema: string, table: string) {
    exists i | i in indexes :: i.schema == schema && i.table == table
  }

  lemma NoLeadExactlyWhen(indexes: seq<IndexRow>, schema: string, table: string, columns: seq<string>)
    ensures var m, key := LeadColumns(indexes), (Some(schema), table);
      && (key in m <==> HasTable(indexes, schema, table))
      && (key in m ==> (NoLeadAmong(m[key], columns) <==> NoneStartsWith(indexes, schema, table, columns)))
  {
    var m, key := LeadColumns(indexes), (Some(schema), table);
    forall c ensures (key in m <==> HasIndexRow(indexes, schema, table, None))
      && (key in m ==> (c in m[key] <==> HasIndexRow(indexes, schema, table, Some(c))))
    {
      LeadColumnsExact(indexes, schema, table, c);
    }
    LeadColumnsExact(indexes, schema, table, "");
    hide LeadColumns;
  }

  /** A statement that names the schema of its table: no index of the table starts
      with one of its columns. */
  lemma LacksIndexWithSchema(indexes: seq<IndexRow>, s: Statement)
    requires s.schema.Some?
    ensures LacksIndex(indexes, s) <==> NoneStartsWith(indexes, s.schema.value, s.table, s.columns)
  {
    NoLeadExactlyWhen(indexes, s.schema.value, s.table, s.columns);
    var m := LeadColumns(indexes);
    if (s.schema, s.table) !in m {
      KeysHaveSchemas(indexes);
      assert Homonyms(m, s.schema, s.table) == {};
    }
    hide LeadColumns, NoLeadAmong;
  }

  lemma {:induction false} KeysHaveSchemas(indexes: seq<IndexRow>)
    ensures forall k | k in LeadColumns(indexes) :: k.0.Some?
  {
    if indexes != [] {
      KeysHaveSchemas(indexes[..|indexes| - 1]);
    }
  }

  /** The indexes on tables of that name are of one schema. */
  predicate HasNoHomonyms(indexes: seq<IndexRow>, table: string) {
    forall i, j | i in indexes && j in indexes && i.table == table && j.table == table :: i.schema == j.schema
  }

  /** One that does not: the indexed tables of that name are of one schema at most,
      and none of their indexes starts with one of its columns. */
  lemma LacksIndexWithoutSchema(indexes: seq<IndexRow>, s: Statement)
    requires s.schema.None?
    ensures LacksIndex(indexes, s) <==>
      && HasNoHomonyms(indexes, s.table)
      && (forall i, c | i in indexes && c in s.columns :: i.table == s.table ==> i.lead != Some(c))
  {
    var m := LeadColumns(indexes);
    var candidates := Homonyms(m, s.schema, s.table);
    KeysHaveSchemas(indexes);
    forall k ensures k in candidates <==> k.0.Some? && k.1 == s.table && HasTable(indexes, k.0.value, s.table) {
      if k.0.Some? {
        NoLeadExactlyWhen(indexes, k.0.value, s.table, s.columns);
      }
    }
    forall k | k in candidates
      ensures k.0.Some? && (NoLeadAmong(m[k], s.columns) <==> NoneStartsWith(indexes, k.0.value, s.table, s.columns))
    {
      NoLeadExactlyWhen(indexes, k.0.value, s.table, s.columns);
    }
    hide LeadColumns, NoLeadAmong, Homonyms;
    forall i | i in indexes && i.table == s.table ensures (Some(i.schema), s.table) in candidates {
      assert HasTable(indexes, i.schema, s.table);
    }
    AtMostOne(candidates);
  }

  lemma AtMostOne(s: set<(Option<string>, string)>)
    ensures |s| <= 1 <==> forall a, b | a in s && b in s :: a == b
  {
    if a :| a in s {
      var rest := s - {a};
      assert |rest| == |s| - 1;
      if b :| b in rest {
        assert |rest| > 0;
      } else {
        assert rest == {};
      }
    } else {
      assert s == {};
    }
  }

  /** No index that could be of the table of the statement starts with one of its
      columns; the table is that of its schema or, if it names none, must not be of
      several. */
  predicate NoIndexServes(indexes: seq<IndexRow>, s: Statement) {
    && (forall i, c | i in indexes && c in s.columns ::
          i.table == s.table && (s.schema.None? || s.schema == Some(i.schema)) ==> i.lead != Some(c))
    && (s.schema.None? ==> HasNoHomonyms(indexes, s.table))
  }

  lemma LacksIndexExactlyWhen(indexes: seq<IndexRow>, s: Statement)
    ensures LacksIndex(indexes, s) <==> NoIndexServes(indexes, s)
  {
    if s.schema.Some? {
      LacksIndexWithSchema(indexes, s);
    } else {
      LacksIndexWithoutSchema(indexes, s);
    }
    hide LacksIndex;
  }

  function Modified(t: Transaction): int {
    if t.undoEntries.Some? && t.undoEntries.value >= 1 then t.undoEntries.value else 1
  }

  /** t locks more rows than u for each row it modifies. */
  predicate LocksMore(t: Transaction, u: Transaction) {
    && t.rowsLocked.Some? && u.rowsLocked.Some?
    && t.rowsLocked.value * Modified(u) > u.rowsLocked.value * Modified(t)
  }

  predicate IsSuspect(t: Transaction) { LocksTenfold(t) && t.statement.Some? }

  lemma LocksMoreExactlyWhen(t: Transaction, u: Transaction)
    requires t.rowsLocked.Some? && u.rowsLocked.Some?
    ensures LockRatio(t).value > LockRatio(u).value <==> LocksMore(t, u)
  {
    var a, m := t.rowsLocked.value as real, Modified(t) as real;
    var b, n := u.rowsLocked.value as real, Modified(u) as real;
    FractionsCompare(a, m, b, n);
    assert (t.rowsLocked.value * Modified(u)) as real == a * n;
    assert (u.rowsLocked.value * Modified(t)) as real == b * m;
  }

  lemma FractionsCompare(a: real, m: real, b: real, n: real)
    requires m > 0.0 && n > 0.0
    ensures a / m > b / n <==> a * n > b * m
  {
    var x, y := a / m, b / n;
    assert x * m == a && y * n == b;
    assert a * n == x * (m * n) && b * m == y * (m * n);
    if x > y {
      ScaleStrictly(y, x, m * n);
    } else {
      Scale(x, y, m * n);
    }
  }

  /** The first of the suspects that no suspect exceeds. */
  predicate IsAmplifier(ts: seq<Transaction>, k: nat) {
    && k < |ts| && IsSuspect(ts[k])
    && (forall j | 0 <= j < |ts| && IsSuspect(ts[j]) :: !LocksMore(ts[j], ts[k]))
    && (forall j | 0 <= j < k && IsSuspect(ts[j]) :: LocksMore(ts[k], ts[j]))
  }

  predicate IsFirstHighest(ts: seq<Transaction>, k: nat) {
    && k < |ts| && IsCandidate(ts[k])
    && (forall j | 0 <= j < |ts| && IsCandidate(ts[j]) :: LockRatio(ts[j]).value <= LockRatio(ts[k]).value)
    && (forall j | 0 <= j < k && IsCandidate(ts[j]) :: LockRatio(ts[k]).value > LockRatio(ts[j]).value)
  }

  lemma HighestOfMore(ts: seq<Transaction>, t: Transaction, k: nat)
    requires IsFirstHighest(ts, k)
    ensures IsCandidate(t) && LockRatio(t).value > LockRatio(ts[k]).value ==> IsFirstHighest(ts + [t], |ts|)
    ensures !(IsCandidate(t) && LockRatio(t).value > LockRatio(ts[k]).value) ==> IsFirstHighest(ts + [t], k)
  {
    hide LockRatio, IsCandidate;
  }

  lemma {:induction false} AmplifierIsFirstHighest(ts: seq<Transaction>)
    ensures Amplifier(ts).None? ==> forall j | 0 <= j < |ts| :: !IsCandidate(ts[j])
    ensures Amplifier(ts).Some? ==> exists k: nat :: IsFirstHighest(ts, k) && Amplifier(ts).value == ts[k]
  {
    if ts != [] {
      var front, last := ts[..|ts| - 1], ts[|ts| - 1];
      AmplifierIsFirstHighest(front);
      AmplifierStep(front, last);
      assert front + [last] == ts;
      hide Amplifier, LockRatio, IsCandidate;
      if Amplifier(front).Some? {
        var k: nat :| IsFirstHighest(front, k) && Amplifier(front).value == front[k];
        HighestOfMore(front, last, k);
        hide IsFirstHighest;
      } else if IsCandidate(last) {
        assert IsFirstHighest(ts, |ts| - 1);
      }
    }
  }

  lemma HighestExactlyWhen(ts: seq<Transaction>, k: nat)
    ensures IsFirstHighest(ts, k) <==> IsAmplifier(ts, k)
  {
    forall j | 0 <= j < |ts| ensures IsCandidate(ts[j]) <==> IsSuspect(ts[j]) {
      AmplifiedExactlyWhen(ts[j]);
    }
    forall i, j | 0 <= i < |ts| && 0 <= j < |ts| && IsSuspect(ts[i]) && IsSuspect(ts[j])
      ensures LockRatio(ts[i]).value > LockRatio(ts[j]).value <==> LocksMore(ts[i], ts[j])
    {
      LocksMoreExactlyWhen(ts[i], ts[j]);
    }
    hide IsCandidate, IsSuspect, LockRatio, LocksMore;
  }

  lemma OneIsHighest(ts: seq<Transaction>, k: nat, n: nat)
    requires IsFirstHighest(ts, k) && IsFirstHighest(ts, n)
    ensures k == n
  {
    hide IsCandidate, LockRatio;
  }

  /** There is one when there is a suspect. */
  lemma AmplifierExactly(ts: seq<Transaction>)
    ensures Amplifier(ts).Some? <==> exists k: nat :: IsAmplifier(ts, k)
    ensures forall k: nat | IsAmplifier(ts, k) :: Amplifier(ts) == Some(ts[k])
  {
    AmplifierIsFirstHighest(ts);
    forall k: nat ensures IsFirstHighest(ts, k) <==> IsAmplifier(ts, k) {
      HighestExactlyWhen(ts, k);
    }
    forall k: nat, n: nat | IsFirstHighest(ts, k) && IsFirstHighest(ts, n) ensures k == n {
      OneIsHighest(ts, k, n);
    }
    forall k: nat | IsFirstHighest(ts, k) ensures Amplifier(ts).Some? {
      assert IsCandidate(ts[k]);
    }
    hide IsFirstHighest, IsAmplifier, Amplifier;
  }

  /** CT-04: no index serves the statement of the transaction that locks most rows
      for each row it modifies, ten or more. */
  lemma AmplificationExactlyWhen(r: Report, indexes: seq<IndexRow>)
    ensures IsLockAmplification(r, indexes) <==>
      && IsWaitReport(r)
      && exists k: nat :: IsAmplifier(r.transactions, k) && NoIndexServes(indexes, r.transactions[k].statement.value)
  {
    CycleExactlyWhen(r);
    AmplifierExactly(r.transactions);
    forall s ensures LacksIndex(indexes, s) <==> NoIndexServes(indexes, s) {
      LacksIndexExactlyWhen(indexes, s);
    }
    hide IsCycle, IsWaitReport, LacksIndex, NoIndexServes, Amplifier;
  }

  // ----- the pattern of a report -----

  /** Who wins when two rules accept a report: CT-01 over CT-02, and CT-04 over
      unclassified. No other two accept one. */
  lemma ClassifyExactly(r: Report, indexes: seq<IndexRow>)
    ensures Classify(r, indexes) == Some(InconsistentOrder) <==> IsInconsistentOrder(r)
    ensures Classify(r, indexes) == Some(ModeConversion) <==> IsModeConversion(r) && !IsInconsistentOrder(r)
    ensures Classify(r, indexes) == Some(RangeContention) <==> IsRangeContention(r)
    ensures Classify(r, indexes) == Some(LockAmplification) <==> IsLockAmplification(r, indexes)
    ensures Classify(r, indexes) == Some(Unclassified) <==> IsUnclassified(r) && !IsLockAmplification(r, indexes)
  {
    if IsRangeContention(r) { RangeExcludesOrders(r); }
    if IsLockAmplification(r, indexes) { AmplificationExcludesOthers(r, indexes); }
    TriedInTurn(r, indexes);
    assert IsUnclassified(r) ==> !IsInconsistentOrder(r) && !IsModeConversion(r);
    hide IsInconsistentOrder, IsModeConversion, IsRangeContention, IsLockAmplification, IsUnclassified, Classify;
  }

  lemma TriedInTurn(r: Report, indexes: seq<IndexRow>)
    ensures Classify(r, indexes) ==
      if IsInconsistentOrder(r) then Some(InconsistentOrder)
      else if IsModeConversion(r) then Some(ModeConversion)
      else if IsRangeContention(r) then Some(RangeContention)
      else if IsLockAmplification(r, indexes) then Some(LockAmplification)
      else if IsUnclassified(r) then Some(Unclassified)
      else None
  {
    TryFirst(InconsistentOrder, [ModeConversion, RangeContention, LockAmplification, Unclassified], r, indexes);
    TryFirst(ModeConversion, [RangeContention, LockAmplification, Unclassified], r, indexes);
    TryFirst(RangeContention, [LockAmplification, Unclassified], r, indexes);
    TryFirst(LockAmplification, [Unclassified], r, indexes);
    TryFirst(Unclassified, [], r, indexes);
    hide IsInconsistentOrder, IsModeConversion, IsRangeContention, IsLockAmplification, IsUnclassified;
    assert PATTERNS == [InconsistentOrder] + [ModeConversion, RangeContention, LockAmplification, Unclassified];
  }

  lemma TryFirst(p: Pattern, order: seq<Pattern>, r: Report, indexes: seq<IndexRow>)
    ensures FirstMatch([p] + order, r, indexes) ==
      if Matches(p, r, indexes) then Some(p) else FirstMatch(order, r, indexes)
  {
    assert ([p] + order)[1..] == order;
  }

  // ----- the gaps of CT-03 -----

  /** The gaps of a transaction that is kept out: one for each resource it wants, of
      its table and index, and whether it ends the index. */
  lemma GapsExactly(r: Report, t: Transaction, g: GapFound)
    requires IsCycle(r) && HoldsKnown(r) && t in r.transactions
    ensures g in InsertGaps(r, t) <==>
      && IsKeptOut(r, t) && Wants(t, g.record)
      && (g.table, g.index) == (t.waitsFor.value.table, t.waitsFor.value.index)
      && (g.endOfIndex <==> g.record == "1" || EndsWith(g.record, ":1"))
  {
    KeptOutExactlyWhen(r);
    EndsInOne(g.record);
    var l := t.waitsFor.value;
    assert Wants(t, g.record) <==> g.record in TargetSet(l);
    hide IsKeptOut, BlockedInsert, TargetSet, Wants, AfterLastColon, EndsWith;
    assert BlockedInsert(r, t) ==>
      (g in InsertGaps(r, t) <==> exists x | x in TargetSet(l) :: g == GapAt(l, x));
    if g in InsertGaps(r, t) {
      var x :| x in TargetSet(l) && g == GapAt(l, x);
      assert x == g.record;
    }
    assert g.endOfIndex == (AfterLastColon(g.record) == "1") ==> GapAt(l, g.record).endOfIndex == g.endOfIndex;
  }

  predicate EndsWith(s: string, end: string) { |s| >= |end| && s[|s| - |end|..] == end }

  lemma AfterThatColon(s: string, k: nat)
    requires k < |s| && s[k] == ':' && ':' !in s[k + 1..]
    ensures AfterLastColon(s) == s[k + 1..]
  {
    var r := AfterLastColon(s);
    hide AfterLastColon;
    var n :| 0 <= n < |s| && s[n] == ':' && r == s[n + 1..];
    assert forall i | n < i < |s| :: s[i] == r[i - n - 1];
    assert forall i | k < i < |s| :: s[i] == s[k + 1..][i - k - 1];
  }

  lemma EndsInOne(s: string)
    ensures AfterLastColon(s) == "1" <==> s == "1" || EndsWith(s, ":1")
  {
    var r, n := AfterLastColon(s), |s|;
    hide AfterLastColon;
    if EndsWith(s, ":1") {
      var end := s[n - 2..];
      assert end[0] == s[n - 2] && end[1..] == s[n - 1..] == "1";
      AfterThatColon(s, n - 2);
    }
    if r == "1" && ':' in s {
      var k :| 0 <= k < n && s[k] == ':' && r == s[k + 1..];
      assert s[n - 2..] == [s[k]] + r;
    }
  }
}
