/** What is kept of a query, told from its statements and its stored row. */
module StatementRules {
  import opened Basics
  import opened StatementHistory

  // ----- adding up -----

  /** What one statement brings to a query: nothing, if it is of another query or
      does not tell its calls and its time. */
  predicate Brings(s: Statement, q: string) { s.queryId == Some(q) && s.calls != None && s.totalMs != None }

  /** The entry of a query from one statement of it. */
  function Single(s: Statement): Entry
    requires s.calls.Some? && s.totalMs.Some?
  {
    Entry(s.calls.value, s.totalMs.value, s.spill, s.mergePasses, s.rows, s.epoch)
  }

  /** Two counters add up; one that is not told does not matter. */
  predicate IsSum(sum: Option<int>, a: Option<int>, b: Option<int>) {
    && (a == None ==> sum == b) && (b == None ==> sum == a)
    && (a.Some? && b.Some? ==> sum == Some(a.value + b.value))
  }

  predicate AddsUp(both: Entry, a: Entry, b: Entry) {
    && both.calls == a.calls + b.calls && both.totalMs == a.totalMs + b.totalMs
    && IsSum(both.spill, a.spill, b.spill)
    && IsSum(both.mergePasses, a.mergePasses, b.mergePasses)
    && IsSum(both.rows, a.rows, b.rows)
    && both.epoch == a.epoch
  }

  /** A query is mentioned when some statement brings it. With one statement its
      entry is that of the statement. */
  lemma EntryOfOne(s: Statement, q: string)
    ensures Mentions([s], q) <==> Brings(s, q)
    ensures Brings(s, q) ==> EntryOf([s], q) == Single(s)
  {
    OneMoreStatement([], s, q);
    assert [] + [s] == [s];
    hide EntryOf;
  }

  lemma {:induction false} SumsConcat(a: seq<Statement>, b: seq<Statement>, q: string, c: Counter)
    ensures CallsOf(a + b, q) == CallsOf(a, q) + CallsOf(b, q)
    ensures TotalMsOf(a + b, q) == TotalMsOf(a, q) + TotalMsOf(b, q)
    ensures IsSum(SumOf(a + b, q, c), SumOf(a, q, c), SumOf(b, q, c))
  {
    if b == [] {
      assert a + b == a;
    } else {
      var front := b[..|b| - 1];
      assert (a + b)[..|a + b| - 1] == a + front && (a + b)[|a + b| - 1] == b[|b| - 1];
      SumsConcat(a, front, q, c);
    }
  }

  lemma {:induction false} EpochOfConcat(a: seq<Statement>, b: seq<Statement>, q: string)
    ensures FirstEpoch(a + b, q) == if Mentions(a, q) then FirstEpoch(a, q) else FirstEpoch(b, q)
  {
    if a == [] {
      assert a + b == b;
    } else {
      assert (a + b)[1..] == a[1..] + b;
      EpochOfConcat(a[1..], b, q);
      assert Mentions(a, q) <==> IsCounted(a[0], q) || Mentions(a[1..], q) by {
        assert a == [a[0]] + a[1..];
      }
    }
  }

  /** The entries of two halves add up, in whatever way the statements are split; a
      half that does not mention the query changes nothing. */
  lemma EntriesAddUp(a: seq<Statement>, b: seq<Statement>, q: string)
    ensures Mentions(a + b, q) <==> Mentions(a, q) || Mentions(b, q)
    ensures Mentions(a, q) && Mentions(b, q) ==> AddsUp(EntryOf(a + b, q), EntryOf(a, q), EntryOf(b, q))
    ensures !Mentions(a, q) ==> EntryOf(a + b, q) == EntryOf(b, q)
    ensures !Mentions(b, q) && Mentions(a, q) ==> EntryOf(a + b, q) == EntryOf(a, q)
  {
    forall c ensures IsSum(SumOf(a + b, q, c), SumOf(a, q, c), SumOf(b, q, c)) {
      SumsConcat(a, b, q, c);
    }
    SumsConcat(a, b, q, Spill);
    EpochOfConcat(a, b, q);
    if !Mentions(a, q) { NothingCounted(a, q); }
    if !Mentions(b, q) { NothingCounted(b, q); }
    hide CallsOf, TotalMsOf, SumOf, FirstEpoch, IsCounted;
  }

  // ----- the window of a query -----

  /** The counters were reset in between, as far as both tell their epoch. */
  predicate WasReset(previous: Row, e: Entry) {
    previous.epoch != None && e.epoch != None && previous.epoch.value != e.epoch.value
  }

  /** There is a window when the query ran since its row, its time did not go back
      and no reset is known in between; it holds what was added. */
  lemma WindowExactly(previous: Row, e: Entry, w: Window)
    ensures WindowSince(None, e) == None
    ensures WindowSince(Some(previous), e) == Some(w) <==>
      && e.calls > previous.calls && e.totalMs >= previous.totalMs && !WasReset(previous, e)
      && w.calls == e.calls - previous.calls && w.totalMs == e.totalMs - previous.totalMs
      && w.meanMs == w.totalMs / w.calls as real
  {
  }

  /** The ring after a mean: at most ninety, the last of them new, and before it the
      latest of the others. */
  predicate Pushed<T(==)>(ring: seq<T>, x: T, after: seq<T>) {
    && after != [] && after[|after| - 1] == x && |after| == (if |ring| < 90 then |ring| + 1 else 90)
    && forall k | 0 <= k < |after| - 1 :: after[k] == ring[|ring| - (|after| - 1) + k]
  }

  predicate TakesCounters(row: Row, e: Entry, t: Instant) {
    && row.capturedAt == t && row.calls == e.calls && row.totalMs == e.totalMs && row.epoch == e.epoch
    && row.spill == e.spill && row.mergePasses == e.mergePasses && row.rows == e.rows
  }

  predicate SameCalls(previous: Row, e: Entry) {
    e.calls == previous.calls && (e.epoch != None ==> e.epoch == previous.epoch)
  }

  lemma LastOfPushed<T>(ring: seq<T>, x: T)
    requires |ring| <= 90
    ensures Pushed(ring, x, LastOf(ring + [x], HISTORY_WINDOWS))
  {
  }

  /** A query without a row gets one, with no windows. */
  lemma FirstRow(e: Entry, t: Instant)
    ensures var (w, updated) := Evaluate(None, e, t);
      w == None && updated.Some? && TakesCounters(updated.value, e, t)
      && updated.value.means == [] && updated.value.ends == []
  {
  }

  /** One with a row gets another unless it has the same calls of the same epoch; its
      window enters the ring when it holds five calls or more. */
  lemma NextRow(previous: Row, e: Entry, t: Instant)
    requires |previous.means| <= 90 && |previous.ends| <= 90
    ensures var (w, updated) := Evaluate(Some(previous), e, t);
      && (updated.None? <==> SameCalls(previous, e))
      && (w == if SameCalls(previous, e) then None else WindowSince(Some(previous), e))
      && (updated.Some? ==>
            && TakesCounters(updated.value, e, t)
            && if w.Some? && w.value.calls >= 5
               then
                 && Pushed(previous.means, w.value.meanMs, updated.value.means)
                 && Pushed(previous.ends, t, updated.value.ends)
               else updated.value.means == previous.means && updated.value.ends == previous.ends)
  {
    var w := WindowSince(Some(previous), e);
    if w.Some? {
      LastOfPushed(previous.means, w.value.meanMs);
      LastOfPushed(previous.ends, t);
    }
    hide WindowSince, LastOf, Pushed;
  }

  // ----- the stored rows -----

  /** The row of a query after a job: dropped if it is then over a day old; else a
      newer update, or what it was. */
  lemma StoredExactly(table: Table, es: Entries, t: Instant, q: string)
    ensures var before, after := Get(table, q), Get(RunJob(table, es, t), q);
      var updated := if q in es then Evaluate(before, es[q], t).1 else None;
      var row := if updated.Some? && (before == None || before.value.capturedAt < t) then updated else before;
      after == if row.Some? && t - row.value.capturedAt <= 86_400_000_000 then row else None
  {
    RowAfterJob(table, es, t, q);
    hide RunJob, Evaluate;
  }
}
