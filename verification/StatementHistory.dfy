/** The per-query counters kept between snapshots, and the windows measured
    from them. */
module StatementHistory {
  import opened Basics

  const WINDOW_MIN_CALLS := 5
  const HISTORY_WINDOWS := 90
  const STALE_AFTER := 24 * HOUR

  /** Cumulative counters of one query; the same query may come in several. */
  datatype Statement = Statement(
    queryId: Option<string>, calls: Option<int>, totalMs: Option<real>,
    spill: Option<int>, mergePasses: Option<int>, rows: Option<int>, epoch: Option<Instant>)

  /** The statements of a query added up, with the epoch of the first. */
  datatype Entry = Entry(
    calls: int, totalMs: real, spill: Option<int>, mergePasses: Option<int>, rows: Option<int>, epoch: Option<Instant>)

  /** The stored state of a query. */
  datatype Row = Row(
    capturedAt: Instant, calls: int, totalMs: real,
    spill: Option<int>, mergePasses: Option<int>, rows: Option<int>, epoch: Option<Instant>,
    means: seq<real>, ends: seq<Instant>)

  datatype Window = Window(calls: int, totalMs: real, meanMs: real)

  // ----- adding up the statements of a query -----

  predicate IsCounted(s: Statement, q: string) { s.queryId == Some(q) && s.calls.Some? && s.totalMs.Some? }

  function CallsOf(ss: seq<Statement>, q: string): int {
    if ss == [] then 0
    else CallsOf(ss[..|ss| - 1], q) + if IsCounted(ss[|ss| - 1], q) then ss[|ss| - 1].calls.value else 0
  }

  function TotalMsOf(ss: seq<Statement>, q: string): real {
    if ss == [] then 0.0
    else TotalMsOf(ss[..|ss| - 1], q) + if IsCounted(ss[|ss| - 1], q) then ss[|ss| - 1].totalMs.value else 0.0
  }

  datatype Counter = Spill | MergePasses | Rows

  function CounterOf(s: Statement, c: Counter): Option<int> {
    match c
    case Spill => s.spill
    case MergePasses => s.mergePasses
    case Rows => s.rows
  }

  function AddOptional(sum: Option<int>, x: Option<int>): Option<int> {
    if x.None? then sum else Some((if sum.Some? then sum.value else 0) + x.value)
  }

  /** The sum of an optional counter: None when no statement brings it. */
  function SumOf(ss: seq<Statement>, q: string, c: Counter): Option<int> {
    if ss == [] then None
    else
      var before, last := SumOf(ss[..|ss| - 1], q, c), ss[|ss| - 1];
      if IsCounted(last, q) then AddOptional(before, CounterOf(last, c)) else before
  }

  function FirstEpoch(ss: seq<Statement>, q: string): Option<Instant> {
    if ss == [] then None else if IsCounted(ss[0], q) then ss[0].epoch else FirstEpoch(ss[1..], q)
  }

  predicate Mentions(ss: seq<Statement>, q: string) { exists s | s in ss :: IsCounted(s, q) }

  function EntryOf(ss: seq<Statement>, q: string): Entry {
    Entry(CallsOf(ss, q), TotalMsOf(ss, q), SumOf(ss, q, Spill), SumOf(ss, q, MergePasses), SumOf(ss, q, Rows),
          FirstEpoch(ss, q))
  }

  type Entries = map<string, Entry>

  ghost predicate IsAggregate(ss: seq<Statement>, es: Entries) {
    && (forall q :: q in es <==> Mentions(ss, q))
    && (forall q | q in es :: es[q] == EntryOf(ss, q))
  }

  function AddTo(e: Entry, s: Statement): Entry
    requires s.calls.Some? && s.totalMs.Some?
  {
    Entry(e.calls + s.calls.value, e.totalMs + s.totalMs.value,
          AddOptional(e.spill, s.spill), AddOptional(e.mergePasses, s.mergePasses), AddOptional(e.rows, s.rows),
          e.epoch)
  }

  lemma {:induction false} FirstEpochStays(ss: seq<Statement>, s: Statement, q: string)
    ensures FirstEpoch(ss + [s], q) ==
      if Mentions(ss, q) then FirstEpoch(ss, q) else if IsCounted(s, q) then s.epoch else None
  {
    if ss == [] {
      assert [s][1..] == [];
      assert ss + [s] == [s];
    } else {
      FirstEpochStays(ss[1..], s, q);
      assert (ss + [s])[1..] == ss[1..] + [s];
      assert ss == [ss[0]] + ss[1..];
      assert Mentions(ss, q) <==> IsCounted(ss[0], q) || Mentions(ss[1..], q);
    }
  }

  lemma {:induction false} NothingCounted(ss: seq<Statement>, q: string)
    requires !Mentions(ss, q)
    ensures EntryOf(ss, q) == Entry(0, 0.0, None, None, None, None)
  {
    if ss != [] {
      var front, last := ss[..|ss| - 1], ss[|ss| - 1];
      assert last in ss && !IsCounted(last, q);
      assert forall s | s in front :: s in ss;
      NothingCounted(front, q);
      FirstEpochStays(front, last, q);
      assert front + [last] == ss;
    }
  }

  lemma OneMoreStatement(ss: seq<Statement>, s: Statement, q: string)
    ensures EntryOf(ss + [s], q) ==
      if !IsCounted(s, q) then EntryOf(ss, q)
      else AddTo(if Mentions(ss, q) then EntryOf(ss, q) else Entry(0, 0.0, None, None, None, s.epoch), s)
    ensures Mentions(ss + [s], q) <==> Mentions(ss, q) || IsCounted(s, q)
  {
    assert (ss + [s])[..|ss|] == ss;
    FirstEpochStays(ss, s, q);
    if !Mentions(ss, q) {
      NothingCounted(ss, q);
    }
    assert forall x :: x in ss + [s] <==> x in ss || x == s;
  }

  /** The queries of the counted statements, as often as they come. */
  function QueriesOf(ss: seq<Statement>): seq<string> {
    if ss == [] then []
    else
      var before, last := QueriesOf(ss[..|ss| - 1]), ss[|ss| - 1];
      if last.queryId.Some? && IsCounted(last, last.queryId.value) then before + [last.queryId.value] else before
  }

  lemma {:induction false} QueriesAreMentioned(ss: seq<Statement>, q: string)
    ensures q in QueriesOf(ss) <==> Mentions(ss, q)
  {
    if ss != [] {
      QueriesAreMentioned(ss[..|ss| - 1], q);
      assert forall s :: s in ss <==> s in ss[..|ss| - 1] || s == ss[|ss| - 1];
    }
  }

  lemma MoreQueries(ss: seq<Statement>, s: Statement)
    ensures var order := Distinct(QueriesOf(ss));
      Distinct(QueriesOf(ss + [s])) ==
        if s.queryId.Some? && IsCounted(s, s.queryId.value) && s.queryId.value !in order
        then order + [s.queryId.value] else order
  {
    assert (ss + [s])[..|ss|] == ss;
    var before := QueriesOf(ss);
    if s.queryId.Some? && IsCounted(s, s.queryId.value) {
      assert (before + [s.queryId.value])[..|before|] == before;
    }
  }

  lemma AggregateSkips(ss: seq<Statement>, s: Statement, es: Entries)
    requires IsAggregate(ss, es) && (s.queryId.None? || s.calls.None? || s.totalMs.None?)
    ensures IsAggregate(ss + [s], es)
  {
    forall q
      ensures Mentions(ss + [s], q) <==> Mentions(ss, q)
      ensures EntryOf(ss + [s], q) == EntryOf(ss, q)
    {
      OneMoreStatement(ss, s, q);
    }
    hide EntryOf, Mentions;
  }

  lemma AggregateGrows(ss: seq<Statement>, s: Statement, es: Entries)
    requires IsAggregate(ss, es) && s.queryId.Some? && s.calls.Some? && s.totalMs.Some?
    ensures var q := s.queryId.value;
      IsAggregate(ss + [s], es[q := AddTo(if q in es then es[q] else Entry(0, 0.0, None, None, None, s.epoch), s)])
  {
    forall q
      ensures Mentions(ss + [s], q) <==> Mentions(ss, q) || q == s.queryId.value
      ensures EntryOf(ss + [s], q) ==
        if q != s.queryId.value then EntryOf(ss, q)
        else AddTo(if Mentions(ss, q) then EntryOf(ss, q) else Entry(0, 0.0, None, None, None, s.epoch), s)
    {
      OneMoreStatement(ss, s, q);
    }
    hide EntryOf, Mentions;
  }

  /** Adds up the statements of each query; the queries in order of first
      appearance. */
  method AggregateStatements(ss: seq<Statement>) returns (order: seq<string>, es: Entries)
    ensures IsAggregate(ss, es)
    ensures order == Distinct(QueriesOf(ss)) && forall q :: q in order <==> q in es
  {
    order, es := [], map[];
    assert IsAggregate(ss[..0], es);
    hide IsAggregate, Distinct;
    for k := 0 to |ss|
      invariant IsAggregate(ss[..k], es)
      invariant order == Distinct(QueriesOf(ss[..k])) && forall q :: q in order <==> q in es
    {
      var s := ss[k];
      assert ss[..k + 1] == ss[..k] + [s];
      MoreQueries(ss[..k], s);
      if s.queryId.None? || s.calls.None? || s.totalMs.None? {
        AggregateSkips(ss[..k], s, es);
        continue;
      }
      AggregateGrows(ss[..k], s, es);
      var q := s.queryId.value;
      var entry := if q in es then es[q] else Entry(0, 0.0, None, None, None, s.epoch);
      order, es := if q in es then order else order + [q], es[q := AddTo(entry, s)];
    }
    assert ss[..|ss|] == ss;
  }

  // ----- windows -----

  /** The query did not run since the stored sample. */
  predicate IsIdle(previous: Row, e: Entry) {
    e.calls == previous.calls && (e.epoch.None? || e.epoch == previous.epoch)
  }

  function WindowSince(previous: Option<Row>, e: Entry): Option<Window> {
    if previous.None? then None
    else if e.epoch.Some? && previous.value.epoch.Some? && e.epoch != previous.value.epoch then None
    else
      var calls, totalMs := e.calls - previous.value.calls, e.totalMs - previous.value.totalMs;
      if calls <= 0 || totalMs < 0.0 then None else Some(Window(calls, totalMs, totalMs / calls as real))
  }

  function LastOf<T>(xs: seq<T>, n: nat): seq<T> { if |xs| <= n then xs else xs[|xs| - n..] }

  predicate IsValid(w: Option<Window>) { w.Some? && w.value.calls >= WINDOW_MIN_CALLS }

  /** The window of a query and the row to store; no row if it was idle. */
  function Evaluate(previous: Option<Row>, e: Entry, t: Instant): (Option<Window>, Option<Row>) {
    if previous.Some? && IsIdle(previous.value, e) then (None, None)
    else
      var w := WindowSince(previous, e);
      var means := if previous.Some? then previous.value.means else [];
      var ends := if previous.Some? then previous.value.ends else [];
      (w, Some(Row(t, e.calls, e.totalMs, e.spill, e.mergePasses, e.rows, e.epoch,
                   if IsValid(w) then LastOf(means + [w.value.meanMs], HISTORY_WINDOWS) else means,
                   if IsValid(w) then LastOf(ends + [t], HISTORY_WINDOWS) else ends)))
  }

  // ----- the stored table -----

  type Table = map<string, Row>

  function Get(table: Table, q: string): Option<Row> { if q in table then Some(table[q]) else None }

  /** The rows a snapshot asks to store. */
  function Updates(table: Table, es: Entries, t: Instant): Table {
    map q | q in es && Evaluate(Get(table, q), es[q], t).1.Some? :: Evaluate(Get(table, q), es[q], t).1.value
  }

  /** An update replaces a row only if it is newer. */
  function Upserted(before: Option<Row>, row: Row): Row {
    if before.Some? && before.value.capturedAt >= row.capturedAt then before.value else row
  }

  function UpsertAll(table: Table, updates: Table): Table {
    map q | q in table.Keys + updates.Keys ::
      if q in updates then Upserted(Get(table, q), updates[q]) else table[q]
  }

  function DropStale(table: Table, before: Instant): Table {
    map q | q in table && table[q].capturedAt >= before :: table[q]
  }

  /** What one job does to the rows of its database. */
  function RunJob(table: Table, es: Entries, t: Instant): Table {
    DropStale(UpsertAll(table, Updates(table, es, t)), t - STALE_AFTER)
  }

  /** The row of each query after a job. */
  lemma RowAfterJob(table: Table, es: Entries, t: Instant, q: string)
    ensures var before := Get(table, q);
      var row := if q !in es then before
        else
          var updated := Evaluate(before, es[q], t).1;
          if updated.None? || (before.Some? && before.value.capturedAt >= t) then before else updated;
      Get(RunJob(table, es, t), q) ==
        if row.Some? && row.value.capturedAt < t - STALE_AFTER then None else row
  {
  }

  /** No row of a query that this snapshot brings, idle, is about to be dropped. */
  predicate NoIdleStaleRow(table: Table, es: Entries, t: Instant) {
    forall q | q in es && q in table && IsIdle(table[q], es[q]) :: table[q].capturedAt >= t - STALE_AFTER
  }

  lemma RowAfterRerun(table: Table, es: Entries, t: Instant, q: string)
    ensures Get(RunJob(RunJob(table, es, t), es, t), q) == Get(RunJob(table, es, t), q) <==>
      !(q in es && q in table && IsIdle(table[q], es[q]) && table[q].capturedAt < t - STALE_AFTER)
  {
    var first := RunJob(table, es, t);
    RowAfterJob(table, es, t, q);
    RowAfterJob(first, es, t, q);
  }

  /** Running a job again right after it was saved leaves the table as it is,
      exactly when it dropped no idle row of a query it brings. */
  lemma RerunChangesNothing(table: Table, es: Entries, t: Instant)
    ensures RunJob(RunJob(table, es, t), es, t) == RunJob(table, es, t) <==> NoIdleStaleRow(table, es, t)
  {
    var first := RunJob(table, es, t);
    var second := RunJob(first, es, t);
    forall q ensures Get(second, q) == Get(first, q) <==>
      !(q in es && q in table && IsIdle(table[q], es[q]) && table[q].capturedAt < t - STALE_AFTER)
    {
      RowAfterRerun(table, es, t, q);
    }
    hide RunJob, IsIdle;
    SameRows(first, second);
  }

  lemma SameRows(a: Table, b: Table)
    ensures a == b <==> forall q :: Get(a, q) == Get(b, q)
  {
    if forall q :: Get(a, q) == Get(b, q) {
      assert forall q :: q in a <==> Get(a, q).Some?;
      assert forall q :: q in b <==> Get(b, q).Some?;
      assert forall q | q in a :: a[q] == Get(a, q).value && b[q] == Get(b, q).value;
    }
  }

  /** A row that stays never goes back in time, whatever the order of jobs. */
  lemma RowsNeverGoBack(table: Table, es: Entries, t: Instant, q: string)
    requires q in table && q in RunJob(table, es, t)
    ensures RunJob(table, es, t)[q].capturedAt >= table[q].capturedAt
    ensures table[q].capturedAt >= t ==> RunJob(table, es, t)[q] == table[q]
  {
    RowAfterJob(table, es, t, q);
  }

  // ----- one query over time -----

  datatype Sample = Sample(at: Instant, entry: Entry)

  predicate Increasing(ss: seq<Sample>) { forall i, k | 0 <= i < k < |ss| :: ss[i].at < ss[k].at }

  /** The row of a query after its samples. */
  function RowAfter(ss: seq<Sample>): Option<Row> {
    if ss == [] then None
    else
      var before, last := RowAfter(ss[..|ss| - 1]), ss[|ss| - 1];
      var updated := Evaluate(before, last.entry, last.at).1;
      if updated.Some? then updated else before
  }

  /** The window that sample n yields. */
  function WindowAt(ss: seq<Sample>, n: nat): Option<Window>
    requires n < |ss|
  {
    Evaluate(RowAfter(ss[..n]), ss[n].entry, ss[n].at).0
  }

  function WindowCalls(ss: seq<Sample>, n: nat): int
    requires n <= |ss|
  {
    if n == 0 then 0
    else WindowCalls(ss, n - 1) + CallsIn(WindowAt(ss, n - 1))
  }

  function WindowMs(ss: seq<Sample>, n: nat): real
    requires n <= |ss|
  {
    if n == 0 then 0.0
    else WindowMs(ss, n - 1) + MsIn(WindowAt(ss, n - 1))
  }

  /** The counters of one epoch only grow. */
  predicate OneEpoch(ss: seq<Sample>) {
    forall i, k | 0 <= i < k < |ss| ::
      && ss[i].entry.epoch == ss[k].entry.epoch
      && ss[i].entry.calls <= ss[k].entry.calls && ss[i].entry.totalMs <= ss[k].entry.totalMs
  }

  /** The row after n samples is that of the last one that was not idle. */
  lemma {:induction false} RowComesFromSample(ss: seq<Sample>, n: nat) returns (k: nat)
    requires 0 < n <= |ss|
    ensures k < n && RowAfter(ss[..n]).Some?
    ensures var row, e := RowAfter(ss[..n]).value, ss[k].entry;
      && row.capturedAt == ss[k].at && row.calls == e.calls && row.totalMs == e.totalMs && row.epoch == e.epoch
      && row.spill == e.spill && row.mergePasses == e.mergePasses && row.rows == e.rows
    ensures forall i | k < i < n :: ss[i].entry.calls == ss[k].entry.calls
    ensures forall i | k < i < n && ss[i].entry.epoch.Some? :: ss[i].entry.epoch == ss[k].entry.epoch
  {
    assert ss[..n][..n - 1] == ss[..n - 1];
    if n > 1 && Evaluate(RowAfter(ss[..n - 1]), ss[n - 1].entry, ss[n - 1].at).1.None? {
      k := RowComesFromSample(ss, n - 1);
    } else {
      k := n - 1;
    }
  }

  lemma WindowTells(previous: Option<Row>, e: Entry, t: Instant)
    requires Evaluate(previous, e, t).0.Some?
    ensures previous.Some?
    ensures var w, row := Evaluate(previous, e, t).0.value, previous.value;
      && w.calls == e.calls - row.calls > 0 && w.totalMs == e.totalMs - row.totalMs >= 0.0
      && HasItsMean(w)
      && (row.epoch.Some? && e.epoch.Some? ==> row.epoch == e.epoch)
  {
    hide LastOf;
    var w := Evaluate(previous, e, t).0.value;
    QuotientTimes(w.totalMs, w.calls as real);
  }

  /** The mean is that of the calls. */
  predicate HasItsMean(w: Window) { w.meanMs * w.calls as real == w.totalMs }

  lemma QuotientTimes(a: real, b: real)
    requires b > 0.0
    ensures a / b * b == a
  {
  }

  /** A window measures what happened between two samples that no reset
      separates, where the query ran and no sample in between saw it run. */
  lemma WindowSpansSamples(ss: seq<Sample>, n: nat) returns (k: nat)
    requires n < |ss| && WindowAt(ss, n).Some?
    ensures k < n && forall i | k < i < n :: ss[i].entry.calls == ss[k].entry.calls
    ensures forall i | k < i < n && ss[i].entry.epoch.Some? :: ss[i].entry.epoch == ss[k].entry.epoch
    ensures var w, a, b := WindowAt(ss, n).value, ss[k].entry, ss[n].entry;
      && w.calls == b.calls - a.calls > 0 && w.totalMs == b.totalMs - a.totalMs >= 0.0
      && HasItsMean(w)
      && (a.epoch.Some? && b.epoch.Some? ==> a.epoch == b.epoch)
  {
    assert ss[..0] == [];
    WindowTells(RowAfter(ss[..n]), ss[n].entry, ss[n].at);
    k := RowComesFromSample(ss, n);
    hide RowAfter, Evaluate, HasItsMean;
  }

  function CallsIn(w: Option<Window>): int { if w.Some? then w.value.calls else 0 }

  function MsIn(w: Option<Window>): real { if w.Some? then w.value.totalMs else 0.0 }

  /** With no reset in between, a window is the growth of the stored row. */
  lemma WindowIsGrowth(previous: Row, e: Entry, t: Instant)
    requires previous.epoch == e.epoch && previous.calls <= e.calls && previous.totalMs <= e.totalMs
    ensures var (w, updated) := Evaluate(Some(previous), e, t);
      var row := if updated.Some? then updated.value else previous;
      && CallsIn(w) == row.calls - previous.calls
      && MsIn(w) == row.totalMs - previous.totalMs
  {
    hide LastOf;
  }

  /** Within one epoch nothing falls between windows: whatever samples were
      skipped, the windows add up to the growth of the stored counters. */
  lemma {:induction false} WindowsAddUp(ss: seq<Sample>, n: nat)
    requires OneEpoch(ss) && 0 < n <= |ss|
    ensures RowAfter(ss[..n]).Some?
    ensures WindowCalls(ss, n) == RowAfter(ss[..n]).value.calls - ss[0].entry.calls
    ensures WindowMs(ss, n) == RowAfter(ss[..n]).value.totalMs - ss[0].entry.totalMs
  {
    assert ss[..n][..n - 1] == ss[..n - 1];
    if n > 1 {
      WindowsAddUp(ss, n - 1);
      var k := RowComesFromSample(ss, n - 1);
      var previous, last := RowAfter(ss[..n - 1]).value, ss[n - 1];
      assert ss[k].entry.epoch == last.entry.epoch;
      assert RowAfter(ss[..n]) ==
        var updated := Evaluate(Some(previous), last.entry, last.at).1;
        if updated.Some? then updated else Some(previous);
      WindowIsGrowth(previous, last.entry, last.at);
      hide Evaluate, RowAfter;
    } else {
      assert ss[..0] == [];
      hide LastOf;
    }
  }

  /** The means and ends of all the valid windows of the first n samples. */
  function ValidMeans(ss: seq<Sample>, n: nat): seq<real>
    requires n <= |ss|
  {
    if n == 0 then []
    else ValidMeans(ss, n - 1) + if IsValid(WindowAt(ss, n - 1)) then [WindowAt(ss, n - 1).value.meanMs] else []
  }

  function ValidEnds(ss: seq<Sample>, n: nat): seq<Instant>
    requires n <= |ss|
  {
    if n == 0 then [] else ValidEnds(ss, n - 1) + if IsValid(WindowAt(ss, n - 1)) then [ss[n - 1].at] else []
  }

  lemma LastOfLast<T>(xs: seq<T>, x: T, n: nat)
    requires n > 0
    ensures LastOf(LastOf(xs, n) + [x], n) == LastOf(xs + [x], n)
  {
  }

  function MeansOf(row: Option<Row>): seq<real> { if row.Some? then row.value.means else [] }

  function EndsOf(row: Option<Row>): seq<Instant> { if row.Some? then row.value.ends else [] }

  /** One more sample: the row stands, and its ring takes the window if valid. */
  lemma RingStep(ss: seq<Sample>, n: nat)
    requires n < |ss|
    ensures var before, after, w := RowAfter(ss[..n]), RowAfter(ss[..n + 1]), WindowAt(ss, n);
      && after.Some?
      && (IsValid(w) ==>
            && MeansOf(after) == LastOf(MeansOf(before) + [w.value.meanMs], HISTORY_WINDOWS)
            && EndsOf(after) == LastOf(EndsOf(before) + [ss[n].at], HISTORY_WINDOWS))
      && (!IsValid(w) ==> MeansOf(after) == MeansOf(before) && EndsOf(after) == EndsOf(before))
  {
    assert ss[..n + 1][..n] == ss[..n];
    hide WindowSince, LastOf;
  }

  /** The stored ring is exactly the last 90 valid windows since the row was
      created, across idle samples and counter resets. */
  lemma {:induction false} RingHoldsLastWindows(ss: seq<Sample>, n: nat)
    requires n <= |ss|
    ensures n > 0 ==> RowAfter(ss[..n]).Some?
    ensures MeansOf(RowAfter(ss[..n])) == LastOf(ValidMeans(ss, n), HISTORY_WINDOWS)
    ensures EndsOf(RowAfter(ss[..n])) == LastOf(ValidEnds(ss, n), HISTORY_WINDOWS)
  {
    if n > 0 {
      RingHoldsLastWindows(ss, n - 1);
      RingStep(ss, n - 1);
      var w := WindowAt(ss, n - 1);
      if IsValid(w) {
        LastOfLast(ValidMeans(ss, n - 1), w.value.meanMs, HISTORY_WINDOWS);
        LastOfLast(ValidEnds(ss, n - 1), ss[n - 1].at, HISTORY_WINDOWS);
      }
      assert ValidMeans(ss, n) == ValidMeans(ss, n - 1) + if IsValid(w) then [w.value.meanMs] else [];
      assert ValidEnds(ss, n) == ValidEnds(ss, n - 1) + if IsValid(w) then [ss[n - 1].at] else [];
      hide RowAfter, WindowAt, LastOf, ValidMeans, ValidEnds, MeansOf, EndsOf;
    }
  }

  // ----- runs -----

  datatype Job = Job(entries: Entries, at: Instant)

  predicate JobsIncrease(jobs: seq<Job>) { forall i, k | 0 <= i < k < |jobs| :: jobs[i].at < jobs[k].at }

  function TableAfter(jobs: seq<Job>): Table {
    if jobs == [] then map[]
    else RunJob(TableAfter(jobs[..|jobs| - 1]), jobs[|jobs| - 1].entries, jobs[|jobs| - 1].at)
  }

  function SampleOf(job: Job, q: string): seq<Sample> {
    if q in job.entries then [Sample(job.at, job.entries[q])] else []
  }

  /** The samples of a query in a run. */
  function SamplesOf(jobs: seq<Job>, q: string): seq<Sample> {
    if jobs == [] then [] else SamplesOf(jobs[..|jobs| - 1], q) + SampleOf(jobs[|jobs| - 1], q)
  }

  lemma {:induction false} SamplesIncrease(jobs: seq<Job>, q: string)
    requires JobsIncrease(jobs)
    ensures Increasing(SamplesOf(jobs, q))
    ensures forall s | s in SamplesOf(jobs, q) :: jobs != [] && s.at <= jobs[|jobs| - 1].at
  {
    if jobs != [] {
      SamplesIncrease(jobs[..|jobs| - 1], q);
    }
  }

  lemma RowTakesSample(ss: seq<Sample>, s: Sample)
    requires Increasing(ss + [s])
    ensures var before, after := RowAfter(ss), RowAfter(ss + [s]);
      var updated := Evaluate(before, s.entry, s.at).1;
      && after == (if updated.Some? then updated else before)
      && (before.Some? ==> before.value.capturedAt < s.at)
  {
    var longer := ss + [s];
    assert longer[..|ss|] == ss;
    if ss != [] {
      var k := RowComesFromSample(longer, |ss|);
      assert longer[k].at < longer[|ss|].at;
    }
    hide Evaluate;
  }

  /** A job that is newer than the samples of a query takes its row one sample
      further, if it brings one, unless it drops the row. */
  lemma RowTakesJob(table: Table, job: Job, q: string, ss: seq<Sample>)
    requires Get(table, q) == RowAfter(ss) && Increasing(ss + SampleOf(job, q))
    ensures var row := RowAfter(ss + SampleOf(job, q));
      Get(RunJob(table, job.entries, job.at), q) ==
        if row.Some? && row.value.capturedAt < job.at - STALE_AFTER then None else row
  {
    RowAfterJob(table, job.entries, job.at, q);
    if q in job.entries {
      RowTakesSample(ss, Sample(job.at, job.entries[q]));
    } else {
      assert ss + SampleOf(job, q) == ss;
    }
    hide RunJob, Evaluate, RowAfter, Increasing;
  }

  /** After any run in order, the row of a query is the history of its samples
      since the job that last dropped it, or since the start. */
  lemma {:induction false} RowIsHistory(jobs: seq<Job>, q: string) returns (since: nat)
    requires JobsIncrease(jobs)
    ensures since <= |jobs| && q !in TableAfter(jobs[..since])
    ensures Get(TableAfter(jobs), q) == RowAfter(SamplesOf(jobs[since..], q))
  {
    since := 0;
    if jobs != [] {
      var front, last := jobs[..|jobs| - 1], jobs[|jobs| - 1];
      since := RowIsHistory(front, q);
      var kept := jobs[since..];
      assert kept[..|kept| - 1] == front[since..] && jobs[..since] == front[..since];
      SamplesIncrease(kept, q);
      assert SamplesOf(kept, q) == SamplesOf(front[since..], q) + SampleOf(last, q);
      assert TableAfter(jobs) == RunJob(TableAfter(front), last.entries, last.at);
      RowTakesJob(TableAfter(front), last, q, SamplesOf(front[since..], q));
      if q !in TableAfter(jobs) {
        since := |jobs|;
        assert jobs[..since] == jobs && jobs[since..] == [];
        hide TableAfter, RunJob;
      } else {
        hide TableAfter, RunJob, RowAfter, SamplesOf;
      }
    }
  }

  /** The two lists of a row go together and tell at most 90 windows in order,
      none of them after the row. */
  predicate IsOrdered(row: Row) {
    && |row.means| == |row.ends| <= HISTORY_WINDOWS
    && (forall i, k | 0 <= i < k < |row.ends| :: row.ends[i] < row.ends[k])
    && forall i | 0 <= i < |row.ends| :: row.ends[i] <= row.capturedAt
  }

  lemma EvaluateKeepsOrder(previous: Option<Row>, e: Entry, t: Instant)
    requires previous.Some? ==> IsOrdered(previous.value) && previous.value.capturedAt < t
    ensures var updated := Evaluate(previous, e, t).1; updated.Some? ==> IsOrdered(updated.value)
  {
    hide WindowSince, IsIdle;
  }

  /** Every row is ordered after any run: jobs may come late, twice or in any
      order. */
  lemma {:induction false} RowsStayOrdered(jobs: seq<Job>, q: string)
    requires q in TableAfter(jobs)
    ensures IsOrdered(TableAfter(jobs)[q])
  {
    var front, last := jobs[..|jobs| - 1], jobs[|jobs| - 1];
    var table := TableAfter(front);
    RowAfterJob(table, last.entries, last.at, q);
    if q in table {
      RowsStayOrdered(front, q);
    }
    if q in last.entries && (q in table ==> table[q].capturedAt < last.at) {
      EvaluateKeepsOrder(Get(table, q), last.entries[q], last.at);
    }
    hide RunJob, Evaluate, IsOrdered;
  }

  // ----- storage -----

  type StoredRows = map<(string, string), Row>

  function At(rows: StoredRows, db: string, q: string): Option<Row> {
    if (db, q) in rows then Some(rows[(db, q)]) else None
  }

  /** The rows of one database. */
  ghost function RowsOf(rows: StoredRows, db: string): (table: Table)
    ensures forall q :: Get(table, q) == At(rows, db, q)
  {
    map p | p in rows && p.0 == db :: p.1 := rows[p]
  }

  lemma SameRowsOf(rows: StoredRows, db: string, table: Table)
    requires forall q :: At(rows, db, q) == Get(table, q)
    ensures RowsOf(rows, db) == table
  {
    SameRows(RowsOf(rows, db), table);
  }

  // ----- the rows to store, in order -----

  type Rows = seq<(string, Row)>

  function RowsToStore(order: seq<string>, es: Entries, history: Table, t: Instant): Rows
    requires forall q | q in order :: q in es
  {
    if order == [] then []
    else
      var front, q := order[..|order| - 1], order[|order| - 1];
      var updated := Evaluate(Get(history, q), es[q], t).1;
      RowsToStore(front, es, history, t) + if updated.Some? then [(q, updated.value)] else []
  }

  function UpsertEach(table: Table, updates: Rows): Table {
    if updates == [] then table
    else
      var before, last := UpsertEach(table, updates[..|updates| - 1]), updates[|updates| - 1];
      before[last.0 := Upserted(Get(before, last.0), last.1)]
  }

  /** Upserting one by one, each query changes by its own update alone. */
  lemma {:induction false} RowStored(order: seq<string>, es: Entries, table: Table, t: Instant, q: string)
    requires NoRepeats(order) && forall p | p in order :: p in es
    ensures Get(UpsertEach(table, RowsToStore(order, es, table, t)), q) ==
      if q in order && q in Updates(table, es, t) then Some(Upserted(Get(table, q), Updates(table, es, t)[q]))
      else Get(table, q)
  {
    if order != [] {
      var front, last := order[..|order| - 1], order[|order| - 1];
      assert order == front + [last] && last !in front;
      RowStored(front, es, table, t, q);
      var before := RowsToStore(front, es, table, t);
      if last in Updates(table, es, t) {
        var all := before + [(last, Updates(table, es, t)[last])];
        assert all[..|all| - 1] == before && RowsToStore(order, es, table, t) == all;
        if q == last {
          hide RowsToStore, Upserted, Evaluate;
        } else {
          hide RowsToStore, Upserted, Evaluate, Updates;
        }
      } else {
        assert RowsToStore(order, es, table, t) == before;
        hide RowsToStore, UpsertEach, Upserted, Evaluate;
      }
    }
  }

  lemma StoringIsUpsertAll(order: seq<string>, es: Entries, table: Table, t: Instant)
    requires NoRepeats(order) && forall q :: q in order <==> q in es
    ensures UpsertEach(table, RowsToStore(order, es, table, t)) == UpsertAll(table, Updates(table, es, t))
  {
    var stored, updates := UpsertEach(table, RowsToStore(order, es, table, t)), Updates(table, es, t);
    forall q ensures Get(stored, q) == Get(UpsertAll(table, updates), q) {
      RowStored(order, es, table, t, q);
    }
    hide UpsertEach, RowsToStore, UpsertAll, Updates;
    SameRows(stored, UpsertAll(table, updates));
  }

  /** Row by row, what is stored for the query or its update, if newer. */
  method UpsertRows(rows: StoredRows, db: string, updates: Rows) returns (stored: StoredRows)
    ensures forall q :: At(stored, db, q) == Get(UpsertEach(RowsOf(rows, db), updates), q)
    ensures forall other, q | other != db :: At(stored, other, q) == At(rows, other, q)
  {
    stored := rows;
    ghost var table := RowsOf(rows, db);
    hide RowsOf;
    for k := 0 to |updates|
      invariant forall other, q | other != db :: At(stored, other, q) == At(rows, other, q)
      invariant forall q :: At(stored, db, q) == Get(UpsertEach(table, updates[..k]), q)
    {
      assert updates[..k + 1][..k] == updates[..k];
      var (q, row) := updates[k];
      ghost var before, was := UpsertEach(table, updates[..k]), stored;
      assert At(stored, db, q) == Get(before, q);
      if (db, q) !in stored || stored[(db, q)].capturedAt < row.capturedAt {
        stored := stored[(db, q) := row];
      }
      assert At(stored, db, q) == Some(Upserted(Get(before, q), row));
      assert forall other, p | (other, p) != (db, q) :: At(stored, other, p) == At(was, other, p);
      assert UpsertEach(table, updates[..k + 1]) == before[q := Upserted(Get(before, q), row)];
      hide UpsertEach, Upserted, At;
    }
    assert updates[..|updates|] == updates;
  }

  class StatementStore {
    var rows: StoredRows

    constructor ()
      ensures rows == map[]
    {
      rows := map[];
    }

    method Load(db: string) returns (history: Table)
      ensures history == RowsOf(rows, db)
    {
      history := map p | p in rows && p.0 == db :: p.1 := rows[p];
    }

    /** Stores the updates that are newer than what is there, then drops the
        rows of the database that are stale. */
    method Save(db: string, updates: Rows, staleBefore: Instant)
      modifies this
      ensures RowsOf(rows, db) == DropStale(UpsertEach(old(RowsOf(rows, db)), updates), staleBefore)
      ensures forall other | other != db :: RowsOf(rows, other) == old(RowsOf(rows, other))
    {
      var stored := UpsertRows(rows, db, updates);
      ghost var was, upserted := rows, UpsertEach(RowsOf(rows, db), updates);
      var kept := map p | p in stored && !(p.0 == db && stored[p].capturedAt < staleBefore) :: stored[p];
      hide RowsOf, UpsertEach;
      SameRowsOf(kept, db, DropStale(upserted, staleBefore)) by {
        forall q ensures At(kept, db, q) == Get(DropStale(upserted, staleBefore), q) {
          assert At(stored, db, q) == Get(upserted, q);
        }
      }
      forall other | other != db ensures RowsOf(kept, other) == RowsOf(was, other) {
        SameRowsOf(kept, other, RowsOf(was, other));
      }
      rows := kept;
    }

    /** One job: load, evaluate, save; nothing for a snapshot of no database. */
    method Process(db: string, ss: seq<Statement>, t: Instant)
      modifies this
      ensures db == "" ==> rows == old(rows)
      ensures db != "" ==>
        exists es :: IsAggregate(ss, es) && RowsOf(rows, db) == RunJob(old(RowsOf(rows, db)), es, t)
      ensures forall other | other != db :: RowsOf(rows, other) == old(RowsOf(rows, other))
    {
      if db == "" { return; }
      var history := Load(db);
      var order, es := AggregateStatements(ss);
      var updates := NextStatementHistories(order, es, history, t);
      StoringIsUpsertAll(order, es, history, t);
      Save(db, updates, t - STALE_AFTER);
    }
  }

  /** The loop over the queries of a snapshot. */
  method NextStatementHistories(order: seq<string>, es: Entries, history: Table, t: Instant) returns (updates: Rows)
    requires forall q | q in order :: q in es
    ensures updates == RowsToStore(order, es, history, t)
  {
    updates := [];
    for k := 0 to |order|
      invariant updates == RowsToStore(order[..k], es, history, t)
    {
      assert order[k] in order && order[..k + 1][..k] == order[..k];
      var updated := Evaluate(Get(history, order[k]), es[order[k]], t).1;
      if updated.Some? {
        updates := updates + [(order[k], updated.value)];
      }
    }
    assert order[..|order|] == order;
  }
}
