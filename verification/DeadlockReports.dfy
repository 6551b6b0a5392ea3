/** Deadlock reports and the five rules that classify them (CT-01 to CT-04 and
    unclassified). None in a field means that the engine does not say. */
module DeadlockReports {
  import opened Basics

  datatype Mode = S | X | IS | IX

  datatype Scope = RowScope | Gap | RowAndGap | InsertIntention | TableScope | OtherScope

  datatype Lock = Lock(
    table: Option<string>, index: Option<string>,
    mode: Option<Mode>, scope: Option<Scope>, targets: Option<seq<string>>)

  /** An UPDATE or DELETE of one table, with the columns that AP-04 would index
      for its WHERE if the table had no index. */
  datatype Statement = Statement(schema: Option<string>, table: string, columns: seq<string>)

  datatype Transaction = Transaction(
    pid: Option<int>, holds: Option<seq<Lock>>, waitsFor: Option<Lock>, blockedBy: seq<int>,
    rowsLocked: Option<int>, undoEntries: Option<int>, victim: bool, statement: Option<Statement>)

  datatype Report = Report(
    detectedAt: Instant, source: string, database: Option<string>, complete: bool, transactions: seq<Transaction>)

  /** An index as CT-04 reads it: its table and its first column, if bare. */
  datatype IndexRow = IndexRow(schema: string, table: string, lead: Option<string>)

  // ----- what the rules share -----

  /** The transaction of a pid: the last one, when several share it. */
  function ByPid(ts: seq<Transaction>, pid: int): Option<Transaction> {
    if ts == [] then None
    else if ts[|ts| - 1].pid == Some(pid) then Some(ts[|ts| - 1])
    else ByPid(ts[..|ts| - 1], pid)
  }

  lemma {:induction false} ByPidFinds(ts: seq<Transaction>, pid: int)
    ensures ByPid(ts, pid).Some? ==> ByPid(ts, pid).value in ts && ByPid(ts, pid).value.pid == Some(pid)
    ensures ByPid(ts, pid).None? ==> forall t | t in ts :: t.pid != Some(pid)
  {
    if ts != [] {
      ByPidFinds(ts[..|ts| - 1], pid);
      assert forall t :: t in ts <==> t in ts[..|ts| - 1] || t == ts[|ts| - 1];
    }
  }

  /** A complete report of at least two transactions, each waiting for one of
      the report. */
  predicate IsCycle(r: Report) {
    && r.complete && |r.transactions| >= 2
    && (forall t | t in r.transactions :: t.waitsFor.Some?)
    && (forall t | t in r.transactions :: exists p | p in t.blockedBy :: ByPid(r.transactions, p).Some?)
  }

  predicate OnGap(l: Lock) { l.scope == Some(Gap) || l.scope == Some(InsertIntention) }

  predicate RequestsExclusive(l: Lock) { (l.mode == Some(X) || l.mode == None) && !OnGap(l) }

  datatype Kind = Exclusive | Shared | GapHold

  predicate IsKind(l: Lock, kind: Kind) {
    match kind
    case Exclusive => l.mode == Some(X) && !OnGap(l)
    case Shared => l.mode == Some(S) && !OnGap(l)
    case GapHold => l.scope == Some(Gap) || l.scope == Some(RowAndGap)
  }

  predicate TargetsKnown(r: Report)
    requires IsCycle(r)
  {
    forall t | t in r.transactions :: t.waitsFor.value.targets.Some? && t.waitsFor.value.targets.value != []
  }

  predicate HoldsKnown(r: Report) { forall t | t in r.transactions :: t.holds.Some? }

  function TargetSet(l: Lock): set<string> {
    if l.targets.Some? then set x | x in l.targets.value else {}
  }

  predicate HoldsOn(t: Transaction, wanted: Lock, kind: Kind)
    requires t.holds.Some?
  {
    exists l | l in t.holds.value :: IsKind(l, kind) && TargetSet(l) * TargetSet(wanted) != {}
  }

  /** Some transaction of the report that blocks t holds what t wants. */
  predicate SomeHolderHas(r: Report, t: Transaction, kind: Kind)
    requires HoldsKnown(r) && t.waitsFor.Some?
  {
    exists p | p in t.blockedBy && ByPid(r.transactions, p).Some? ::
      ByPidFinds(r.transactions, p);
      HoldsOn(ByPid(r.transactions, p).value, t.waitsFor.value, kind)
  }

  const AMPLIFICATION := 10.0

  function LockRatio(t: Transaction): Option<real> {
    if t.rowsLocked.None? then None
    else
      var modified := if t.undoEntries.Some? && t.undoEntries.value > 1 then t.undoEntries.value else 1;
      Some(t.rowsLocked.value as real / modified as real)
  }

  predicate IsAmplified(t: Transaction) { LockRatio(t).Some? && LockRatio(t).value >= AMPLIFICATION }

  predicate Amplified(r: Report) { exists t | t in r.transactions :: IsAmplified(t) }

  // ----- the rules -----

  predicate AllRequestExclusive(r: Report)
    requires IsCycle(r)
  {
    forall t | t in r.transactions :: RequestsExclusive(t.waitsFor.value)
  }

  predicate WaitsDisjoint(r: Report)
    requires IsCycle(r)
  {
    forall i, j | 0 <= i < j < |r.transactions| ::
      TargetSet(r.transactions[i].waitsFor.value) * TargetSet(r.transactions[j].waitsFor.value) == {}
  }

  /** A resource that every transaction waits for. */
  predicate WaitsShareTarget(r: Report)
    requires IsCycle(r)
  {
    exists x | x in TargetSet(r.transactions[0].waitsFor.value) ::
      forall t | t in r.transactions :: x in TargetSet(t.waitsFor.value)
  }

  predicate IsInconsistentOrder(r: Report) {
    && IsCycle(r) && TargetsKnown(r)
    && AllRequestExclusive(r)
    && WaitsDisjoint(r)
    && !Amplified(r)
    && (HoldsKnown(r) ==> forall t | t in r.transactions :: SomeHolderHas(r, t, Exclusive))
  }

  predicate IsModeConversion(r: Report) {
    && IsCycle(r) && TargetsKnown(r)
    && AllRequestExclusive(r)
    && !Amplified(r)
    && if !HoldsKnown(r) then WaitsShareTarget(r)
       else forall t | t in r.transactions :: HoldsOn(t, t.waitsFor.value, Shared) && SomeHolderHas(r, t, Shared)
  }

  predicate BlockedInsert(r: Report, t: Transaction)
    requires HoldsKnown(r) && t.waitsFor.Some?
  {
    t.waitsFor.value.scope == Some(InsertIntention) && SomeHolderHas(r, t, GapHold)
  }

  predicate IsRangeContention(r: Report) {
    && IsCycle(r) && TargetsKnown(r) && HoldsKnown(r)
    && !Amplified(r)
    && exists t | t in r.transactions :: BlockedInsert(r, t)
  }

  predicate IsCandidate(t: Transaction) { IsAmplified(t) && t.statement.Some? }

  /** The candidate that locks most rows per modified row, the first on a tie. */
  function Amplifier(ts: seq<Transaction>): (best: Option<Transaction>)
    ensures best.Some? ==> IsCandidate(best.value)
  {
    if ts == [] then None
    else
      var before, last := Amplifier(ts[..|ts| - 1]), ts[|ts| - 1];
      if !IsCandidate(last) then before
      else if before.Some? && LockRatio(last).value <= LockRatio(before.value).value then before
      else Some(last)
  }

  /** It is missing exactly when there is no candidate, and none exceeds it. */
  lemma {:induction false} AmplifierIsHighest(ts: seq<Transaction>)
    ensures var best := Amplifier(ts);
      && (best.None? <==> forall t | t in ts :: !IsCandidate(t))
      && (best.Some? ==> best.value in ts)
      && (best.Some? ==> forall t | t in ts && IsCandidate(t) :: LockRatio(t).value <= LockRatio(best.value).value)
  {
    if ts != [] {
      AmplifierIsHighest(ts[..|ts| - 1]);
      assert forall t :: t in ts <==> t in ts[..|ts| - 1] || t == ts[|ts| - 1];
      hide LockRatio, IsCandidate;
    }
  }

  function CandidatesOf(ts: seq<Transaction>): seq<Transaction> {
    if ts == [] then []
    else CandidatesOf(ts[..|ts| - 1]) + if IsCandidate(ts[|ts| - 1]) then [ts[|ts| - 1]] else []
  }

  lemma AmplifierStep(ts: seq<Transaction>, t: Transaction)
    ensures var before := Amplifier(ts);
      Amplifier(ts + [t]) ==
        if !IsCandidate(t) then before
        else if before.Some? && LockRatio(t).value <= LockRatio(before.value).value then before
        else Some(t)
  {
    assert (ts + [t])[..|ts|] == ts;
    hide LockRatio, IsCandidate;
  }

  lemma {:induction false} AmplifierAmongCandidates(ts: seq<Transaction>)
    ensures Amplifier(CandidatesOf(ts)) == Amplifier(ts)
    ensures forall t | t in CandidatesOf(ts) :: IsCandidate(t)
  {
    if ts != [] {
      var front, last := ts[..|ts| - 1], ts[|ts| - 1];
      AmplifierAmongCandidates(front);
      assert front + [last] == ts;
      hide Amplifier, LockRatio, IsCandidate;
      AmplifierStep(front, last);
      if IsCandidate(last) {
        AmplifierStep(CandidatesOf(front), last);
        assert CandidatesOf(ts) == CandidatesOf(front) + [last];
      } else {
        assert CandidatesOf(ts) == CandidatesOf(front);
      }
      hide CandidatesOf;
    }
  }

  /** Gathers the candidates, then takes their maximum. */
  method FindAmplifier(ts: seq<Transaction>) returns (best: Option<Transaction>)
    ensures best == Amplifier(ts)
  {
    var candidates := [];
    for k := 0 to |ts|
      invariant candidates == CandidatesOf(ts[..k])
    {
      assert ts[..k + 1][..k] == ts[..k];
      if !IsAmplified(ts[k]) { continue; }
      if ts[k].statement.Some? { candidates := candidates + [ts[k]]; }
    }
    assert ts[..|ts|] == ts;
    AmplifierAmongCandidates(ts);
    best := Highest(candidates);
  }

  method Highest(candidates: seq<Transaction>) returns (best: Option<Transaction>)
    requires forall t | t in candidates :: IsCandidate(t)
    ensures best == Amplifier(candidates)
  {
    best := None;
    assert Amplifier(candidates[..0]) == None;
    hide Amplifier, LockRatio;
    for k := 0 to |candidates|
      invariant best == Amplifier(candidates[..k])
    {
      assert candidates[..k + 1] == candidates[..k] + [candidates[k]] && candidates[k] in candidates;
      AmplifierStep(candidates[..k], candidates[k]);
      if best.None? || LockRatio(candidates[k]).value > LockRatio(best.value).value { best := Some(candidates[k]); }
    }
    assert candidates[..|candidates|] == candidates;
  }

  type LeadMap = map<(Option<string>, string), set<string>>

  /** The leading columns of each table. */
  function LeadColumns(indexes: seq<IndexRow>): LeadMap {
    if indexes == [] then map[]
    else
      var m, last := LeadColumns(indexes[..|indexes| - 1]), indexes[|indexes| - 1];
      var key := (Some(last.schema), last.table);
      var known := if key in m then m[key] else {};
      m[key := if last.lead.Some? then known + {last.lead.value} else known]
  }

  predicate HasIndexRow(indexes: seq<IndexRow>, schema: string, table: string, lead: Option<string>) {
    exists i | i in indexes :: i.schema == schema && i.table == table && (lead.Some? ==> i.lead == lead)
  }

  /** A table is listed exactly when it has an index, and with exactly the
      columns that lead one. */
  lemma {:induction false} LeadColumnsExact(indexes: seq<IndexRow>, schema: string, table: string, column: string)
    ensures var m, key := LeadColumns(indexes), (Some(schema), table);
      && (key in m <==> HasIndexRow(indexes, schema, table, None))
      && (key in m ==> (column in m[key] <==> HasIndexRow(indexes, schema, table, Some(column))))
  {
    if indexes != [] {
      var front, last := indexes[..|indexes| - 1], indexes[|indexes| - 1];
      LeadColumnsExact(front, schema, table, column);
      assert forall i :: i in indexes <==> i in front || i == last;
    }
  }

  method LeadColumnsByTable(indexes: seq<IndexRow>) returns (m: LeadMap)
    ensures m == LeadColumns(indexes)
  {
    m := map[];
    for k := 0 to |indexes|
      invariant m == LeadColumns(indexes[..k])
    {
      assert indexes[..k + 1][..k] == indexes[..k];
      var key := (Some(indexes[k].schema), indexes[k].table);
      if key !in m { m := m[key := {}]; }
      if indexes[k].lead.Some? { m := m[key := m[key] + {indexes[k].lead.value}]; }
    }
    assert indexes[..|indexes|] == indexes;
  }

  /** The entries that may be the table when it is not found with its schema. */
  function Homonyms(m: LeadMap, schema: Option<string>, table: string): set<(Option<string>, string)> {
    set k | k in m && k.1 == table && (k.0.None? || schema.None?)
  }

  predicate NoLeadAmong(leads: set<string>, columns: seq<string>) { forall c | c in columns :: c !in leads }

  /** No index of the table of the statement starts with one of its columns; it
      is not known when several tables could be meant. */
  predicate LacksIndex(indexes: seq<IndexRow>, s: Statement) {
    var m := LeadColumns(indexes);
    if (s.schema, s.table) in m then NoLeadAmong(m[(s.schema, s.table)], s.columns)
    else
      var candidates := Homonyms(m, s.schema, s.table);
      |candidates| <= 1 && forall k | k in candidates :: NoLeadAmong(m[k], s.columns)
  }

  predicate IsLockAmplification(r: Report, indexes: seq<IndexRow>) {
    && IsCycle(r)
    && Amplifier(r.transactions).Some?
    && LacksIndex(indexes, Amplifier(r.transactions).value.statement.value)
  }

  predicate IsUnclassified(r: Report) { IsCycle(r) && !TargetsKnown(r) }

  datatype Pattern = InconsistentOrder | ModeConversion | RangeContention | LockAmplification | Unclassified

  predicate Matches(p: Pattern, r: Report, indexes: seq<IndexRow>) {
    match p
    case InconsistentOrder => IsInconsistentOrder(r)
    case ModeConversion => IsModeConversion(r)
    case RangeContention => IsRangeContention(r)
    case LockAmplification => IsLockAmplification(r, indexes)
    case Unclassified => IsUnclassified(r)
  }

  const PATTERNS := [InconsistentOrder, ModeConversion, RangeContention, LockAmplification, Unclassified]

  /** The first pattern of the order whose rule accepts the report. */
  function FirstMatch(order: seq<Pattern>, r: Report, indexes: seq<IndexRow>): Option<Pattern> {
    if order == [] then None
    else if Matches(order[0], r, indexes) then Some(order[0])
    else FirstMatch(order[1..], r, indexes)
  }

  function Classify(r: Report, indexes: seq<IndexRow>): Option<Pattern> { FirstMatch(PATTERNS, r, indexes) }

  // ----- the gaps of CT-03 -----

  datatype GapFound = GapFound(table: Option<string>, index: Option<string>, endOfIndex: bool, record: string)

  /** What follows the last colon, or everything when there is none. */
  function AfterLastColon(s: string): (r: string)
    ensures ':' !in r
    ensures ':' !in s ==> r == s
    ensures ':' in s ==> exists k | 0 <= k < |s| :: s[k] == ':' && r == s[k + 1..]
    decreases |s|
  {
    if s == "" then s
    else if ':' in s[1..] then
      var r := AfterLastColon(s[1..]);
      var k :| 0 <= k < |s[1..]| && s[1..][k] == ':' && r == s[1..][k + 1..];
      assert s[k + 1] == ':' && r == s[k + 2..];
      r
    else if s[0] == ':' then s[1..]
    else s
  }

  function GapAt(l: Lock, record: string): GapFound {
    GapFound(l.table, l.index, AfterLastColon(record) == "1", record)
  }

  /** The gaps that t wanted to insert into. */
  function InsertGaps(r: Report, t: Transaction): set<GapFound>
    requires HoldsKnown(r) && t.waitsFor.Some?
  {
    if BlockedInsert(r, t) then set x | x in TargetSet(t.waitsFor.value) :: GapAt(t.waitsFor.value, x) else {}
  }

  lemma BlockedInsertHasGap(r: Report, t: Transaction)
    requires HoldsKnown(r) && t.waitsFor.Some? && BlockedInsert(r, t)
    requires t.waitsFor.value.targets.Some? && t.waitsFor.value.targets.value != []
    ensures GapAt(t.waitsFor.value, t.waitsFor.value.targets.value[0]) in InsertGaps(r, t)
  {
    assert t.waitsFor.value.targets.value[0] in TargetSet(t.waitsFor.value);
  }

  /** The gaps some transaction wanted to insert into, each once. */
  method Gaps(r: Report) returns (gaps: seq<GapFound>)
    requires IsRangeContention(r)
    ensures forall g :: g in gaps <==> exists t | t in r.transactions :: g in InsertGaps(r, t)
    ensures NoRepeats(gaps) && gaps != []
  {
    gaps := CollectGaps(r);
    ghost var t :| t in r.transactions && BlockedInsert(r, t);
    BlockedInsertHasGap(r, t);
    assert GapAt(t.waitsFor.value, t.waitsFor.value.targets.value[0]) in gaps;
  }

  method CollectGaps(r: Report) returns (gaps: seq<GapFound>)
    requires HoldsKnown(r)
    requires forall k | 0 <= k < |r.transactions| ::
      r.transactions[k].waitsFor.Some? && r.transactions[k].waitsFor.value.targets.Some?
    ensures forall g :: g in gaps <==> exists t | t in r.transactions :: g in InsertGaps(r, t)
    ensures NoRepeats(gaps)
  {
    gaps := [];
    for i := 0 to |r.transactions|
      invariant forall g :: g in gaps <==> exists a | 0 <= a < i :: g in InsertGaps(r, r.transactions[a])
      invariant NoRepeats(gaps)
    {
      var t := r.transactions[i];
      if !BlockedInsert(r, t) {
        assert InsertGaps(r, t) == {};
        continue;
      }
      ghost var before := gaps;
      gaps := AddGaps(gaps, t.waitsFor.value);
      assert forall g :: g in gaps <==> g in before || g in InsertGaps(r, t);
    }
  }

  method AddGaps(gaps: seq<GapFound>, l: Lock) returns (more: seq<GapFound>)
    requires l.targets.Some? && NoRepeats(gaps)
    ensures forall g :: g in more <==> g in gaps || g in set x | x in TargetSet(l) :: GapAt(l, x)
    ensures NoRepeats(more)
  {
    more := gaps;
    var targets := l.targets.value;
    for k := 0 to |targets|
      invariant forall g :: g in more <==> g in gaps || exists a | 0 <= a < k :: g == GapAt(l, targets[a])
      invariant NoRepeats(more)
    {
      if GapAt(l, targets[k]) !in more {
        more := more + [GapAt(l, targets[k])];
      }
    }
  }
}
