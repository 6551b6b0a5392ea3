/** Which deadlock reports of a snapshot are new, and what is remembered of
    them. */
module DeadlockDetector {
  import opened Basics
  import opened DeadlockReports

  const SEEN_RETENTION := 10 * MINUTE
  const SIGNATURE_RETENTION := 7 * 24 * HOUR
  const PRECISION_TOLERANCE := 2 * SECOND

  /** When the engine detected the deadlock, and its victim if it is known. */
  datatype ReportKey = ReportKey(at: Instant, victim: Option<int>)

  datatype Recurrence = Recurrence(count: nat, firstSeen: Instant, lastSeen: Instant)

  /** The reports already processed, each with its signature or "" if it has
      none, and how often each signature appeared. */
  datatype Memory = Memory(seen: map<ReportKey, string>, signatures: map<string, Recurrence>)

  const NOTHING_SEEN := Memory(map[], map[])

  datatype Event = Event(
    key: ReportKey, source: string, complete: bool, pattern: Option<Pattern>, database: Option<string>)

  datatype Finding = Finding(
    key: ReportKey, pattern: Pattern, signature: string, occurrences: nat, firstSeen: Instant, database: Option<string>)

  /** The signature of a report as one pattern. */
  type Signer = (Report, Pattern) -> string

  function Pruned(m: Memory, t: Instant): Memory {
    Memory(map k | k in m.seen && k.at >= t - SEEN_RETENTION :: m.seen[k],
           map s | s in m.signatures && m.signatures[s].lastSeen >= t - SIGNATURE_RETENTION :: m.signatures[s])
  }

  /** The first transaction marked as the victim. */
  function Victim(ts: seq<Transaction>): Option<Transaction> {
    if ts == [] then None else if ts[0].victim then Some(ts[0]) else Victim(ts[1..])
  }

  function KeyOf(r: Report): ReportKey {
    var v := Victim(r.transactions);
    ReportKey(r.detectedAt, if v.Some? then v.value.pid else None)
  }

  predicate WholeSecond(t: Instant) { t % SECOND == 0 }

  /** Two keys that may name one deadlock: same victim, at most two seconds
      apart, and one of the times without fractions. */
  predicate AreTwins(a: ReportKey, b: ReportKey) {
    && a.victim.Some? && a.victim == b.victim
    && (WholeSecond(a.at) || WholeSecond(b.at))
    && -PRECISION_TOLERANCE <= a.at - b.at <= PRECISION_TOLERANCE
  }

  predicate SeenWithOtherPrecision(r: Report, seen: map<ReportKey, string>) {
    r.source == "innodb_status" && exists k | k in seen :: AreTwins(KeyOf(r), k)
  }

  predicate AlreadySeen(r: Report, seen: map<ReportKey, string>) {
    if r.complete then KeyOf(r) in seen || SeenWithOtherPrecision(r, seen)
    else exists k | k in seen :: k.at == r.detectedAt
  }

  // ----- order of processing -----

  function InsertByTime(rs: seq<Report>, r: Report): seq<Report> {
    if rs == [] || rs[|rs| - 1].detectedAt <= r.detectedAt then rs + [r]
    else InsertByTime(rs[..|rs| - 1], r) + [rs[|rs| - 1]]
  }

  /** The reports by detection time, those of one instant in their order. */
  function SortByTime(rs: seq<Report>): seq<Report> {
    if rs == [] then [] else InsertByTime(SortByTime(rs[..|rs| - 1]), rs[|rs| - 1])
  }

  predicate ByTime(rs: seq<Report>) { forall i, j | 0 <= i < j < |rs| :: rs[i].detectedAt <= rs[j].detectedAt }

  /** The reports of one instant, in order. */
  function OfInstant(rs: seq<Report>, t: Instant): seq<Report> {
    if rs == [] then []
    else OfInstant(rs[..|rs| - 1], t) + if rs[|rs| - 1].detectedAt == t then [rs[|rs| - 1]] else []
  }

  lemma {:induction false} InsertPermutes(rs: seq<Report>, r: Report)
    ensures multiset(InsertByTime(rs, r)) == multiset(rs) + multiset{r}
  {
    if rs != [] && rs[|rs| - 1].detectedAt > r.detectedAt {
      InsertPermutes(rs[..|rs| - 1], r);
      assert rs == rs[..|rs| - 1] + [rs[|rs| - 1]];
    }
  }

  lemma {:induction false} InsertKeepsOrder(rs: seq<Report>, r: Report)
    requires ByTime(rs)
    ensures ByTime(InsertByTime(rs, r)) && |InsertByTime(rs, r)| == |rs| + 1
    ensures InsertByTime(rs, r)[|rs|] == if rs != [] && rs[|rs| - 1].detectedAt > r.detectedAt then rs[|rs| - 1] else r
  {
    if rs != [] && rs[|rs| - 1].detectedAt > r.detectedAt {
      InsertKeepsOrder(rs[..|rs| - 1], r);
    }
  }

  lemma {:induction false} InsertGoesLast(rs: seq<Report>, r: Report, t: Instant)
    requires ByTime(rs)
    ensures OfInstant(InsertByTime(rs, r), t) == OfInstant(rs, t) + if r.detectedAt == t then [r] else []
  {
    var after := InsertByTime(rs, r);
    assert after != [];
    var front := after[..|after| - 1];
    if rs == [] || rs[|rs| - 1].detectedAt <= r.detectedAt {
      assert front == rs;
    } else {
      InsertGoesLast(rs[..|rs| - 1], r, t);
      assert front == InsertByTime(rs[..|rs| - 1], r);
      assert r.detectedAt == t ==> rs[|rs| - 1].detectedAt != t;
    }
  }

  lemma {:induction false} SortOrders(rs: seq<Report>)
    ensures ByTime(SortByTime(rs))
  {
    hide ByTime;
    if rs != [] {
      SortOrders(rs[..|rs| - 1]);
      InsertKeepsOrder(SortByTime(rs[..|rs| - 1]), rs[|rs| - 1]);
    } else {
      NothingToOrder(rs);
    }
  }

  lemma NothingToOrder(rs: seq<Report>)
    requires rs == []
    ensures ByTime(SortByTime(rs))
  {
  }

  lemma {:induction false} SortPermutes(rs: seq<Report>)
    ensures multiset(SortByTime(rs)) == multiset(rs)
  {
    if rs != [] {
      SortPermutes(rs[..|rs| - 1]);
      InsertPermutes(SortByTime(rs[..|rs| - 1]), rs[|rs| - 1]);
      assert rs == rs[..|rs| - 1] + [rs[|rs| - 1]];
    }
  }

  /** Sorting is stable: it rearranges the reports by time and, for every
      instant, keeps its reports as they came. */
  lemma {:induction false} SortIsStable(rs: seq<Report>, t: Instant)
    ensures ByTime(SortByTime(rs)) && multiset(SortByTime(rs)) == multiset(rs)
    ensures OfInstant(SortByTime(rs), t) == OfInstant(rs, t)
  {
    SortOrders(rs);
    SortPermutes(rs);
    hide ByTime;
    if rs != [] {
      SortOrders(rs[..|rs| - 1]);
      SortIsStable(rs[..|rs| - 1], t);
      InsertGoesLast(SortByTime(rs[..|rs| - 1]), rs[|rs| - 1], t);
    }
  }

  // ----- processing -----

  datatype Progress = Progress(memory: Memory, findings: seq<Finding>, events: seq<Event>)

  /** What happens to a report that is new. */
  function Take(p: Progress, r: Report, indexes: seq<IndexRow>, sign: Signer): Progress {
    var key, pattern := KeyOf(r), if r.complete then Classify(r, indexes) else None;
    var event := Event(key, r.source, r.complete, pattern, r.database);
    if pattern.None? then
      Progress(p.memory.(seen := p.memory.seen[key := ""]), p.findings, p.events + [event])
    else
      var signature := sign(r, pattern.value);
      var known := if signature in p.memory.signatures then p.memory.signatures[signature]
                   else Recurrence(0, r.detectedAt, r.detectedAt);
      var info := Recurrence(known.count + 1, known.firstSeen, r.detectedAt);
      Progress(Memory(p.memory.seen[key := signature], p.memory.signatures[signature := info]),
               p.findings + [Finding(key, pattern.value, signature, info.count, info.firstSeen, r.database)],
               p.events + [event])
  }

  function Step(p: Progress, r: Report, indexes: seq<IndexRow>, sign: Signer): Progress {
    if AlreadySeen(r, p.memory.seen) then p else Take(p, r, indexes, sign)
  }

  function Process(rs: seq<Report>, p: Progress, indexes: seq<IndexRow>, sign: Signer): Progress {
    if rs == [] then p else Step(Process(rs[..|rs| - 1], p, indexes, sign), rs[|rs| - 1], indexes, sign)
  }

  function Start(m: Memory): Progress { Progress(m, [], []) }

  function Detect(rs: seq<Report>, indexes: seq<IndexRow>, t: Instant, m: Memory, sign: Signer): Progress {
    Process(SortByTime(rs), Start(Pruned(m, t)), indexes, sign)
  }

  /** The loop over the sorted reports. */
  method DetectDeadlocks(rs: seq<Report>, indexes: seq<IndexRow>, t: Instant, m: Memory, sign: Signer)
      returns (findings: seq<Finding>, after: Memory, events: seq<Event>)
    ensures Progress(after, findings, events) == Detect(rs, indexes, t, m, sign)
  {
    var pruned, sorted := Pruned(m, t), SortByTime(rs);
    var seen, signatures := pruned.seen, pruned.signatures;
    findings, events := [], [];
    hide Classify, AlreadySeen, KeyOf;
    for k := 0 to |sorted|
      invariant Progress(Memory(seen, signatures), findings, events)
        == Process(sorted[..k], Start(pruned), indexes, sign)
    {
      var r := sorted[k];
      assert sorted[..k + 1][..k] == sorted[..k];
      if AlreadySeen(r, seen) { continue; }
      var key := KeyOf(r);
      if !r.complete {
        seen := seen[key := ""];
        events := events + [Event(key, r.source, r.complete, None, r.database)];
        continue;
      }
      var pattern := Classify(r, indexes);
      events := events + [Event(key, r.source, r.complete, pattern, r.database)];
      if pattern.None? {
        seen := seen[key := ""];
        continue;
      }
      var signature := sign(r, pattern.value);
      seen := seen[key := signature];
      var info := if signature in signatures then signatures[signature] else Recurrence(0, r.detectedAt, r.detectedAt);
      info := info.(count := info.count + 1, lastSeen := r.detectedAt);
      signatures := signatures[signature := info];
      findings := findings + [Finding(key, pattern.value, signature, info.count, info.firstSeen, r.database)];
    }
    assert sorted[..|sorted|] == sorted;
    after := Memory(seen, signatures);
  }

  // ----- conservation -----

  function CountOf(m: Memory, signature: string): nat {
    if signature in m.signatures then m.signatures[signature].count else 0
  }

  /** How many findings carry a signature. */
  function Occurrences(fs: seq<Finding>, signature: string): nat {
    if fs == [] then 0
    else Occurrences(fs[..|fs| - 1], signature) + if fs[|fs| - 1].signature == signature then 1 else 0
  }

  /** The keys of the findings are those of the events that got a pattern. */
  function FoundKeys(es: seq<Event>): seq<ReportKey> {
    if es == [] then []
    else FoundKeys(es[..|es| - 1]) + if es[|es| - 1].pattern.Some? then [es[|es| - 1].key] else []
  }

  function Keys(fs: seq<Finding>): seq<ReportKey> { seq(|fs|, k requires 0 <= k < |fs| => fs[k].key) }

  predicate IsOrdinal(m: Memory, fs: seq<Finding>, k: nat)
    requires k < |fs|
  {
    fs[k].occurrences == CountOf(m, fs[k].signature) + Occurrences(fs[..k + 1], fs[k].signature)
  }

  predicate Recorded(es: seq<Event>, k: ReportKey) { exists e | e in es :: e.key == k }

  /** Counts grow by the findings, and each finding carries its ordinal. */
  ghost predicate CountsConserved(m: Memory, p: Progress) {
    && (forall s :: CountOf(p.memory, s) == CountOf(m, s) + Occurrences(p.findings, s))
    && (forall s | s in m.signatures ::
      s in p.memory.signatures && p.memory.signatures[s].firstSeen == m.signatures[s].firstSeen)
    && (forall k | 0 <= k < |p.findings| :: IsOrdinal(m, p.findings, k))
  }

  predicate IsRemembered(seen: map<ReportKey, string>, f: Finding) { f.key in seen && seen[f.key] == f.signature }

  /** What is newly remembered is what was recorded, each report once. */
  ghost predicate SeenConserved(m: Memory, p: Progress) {
    && (forall k :: k in p.memory.seen <==> k in m.seen || Recorded(p.events, k))
    && |p.memory.seen| == |m.seen| + |p.events|
    && (forall k | k in m.seen :: p.memory.seen[k] == m.seen[k])
  }

  /** The findings are the recorded reports that got a pattern, in order, and
      are remembered with their signature. */
  ghost predicate FindingsRecorded(p: Progress) {
    && Keys(p.findings) == FoundKeys(p.events)
    && (forall k | 0 <= k < |p.findings| :: IsRemembered(p.memory.seen, p.findings[k]))
  }

  lemma NewKey(r: Report, seen: map<ReportKey, string>)
    requires !AlreadySeen(r, seen)
    ensures KeyOf(r) !in seen
  {
  }

  lemma TakeConservesCounts(m: Memory, p: Progress, r: Report, indexes: seq<IndexRow>, sign: Signer)
    requires CountsConserved(m, p)
    ensures CountsConserved(m, Take(p, r, indexes, sign))
  {
    hide Classify, KeyOf;
    var q := Take(p, r, indexes, sign);
    if |q.findings| > |p.findings| {
      assert q.findings[..|p.findings|] == p.findings;
      forall k | 0 <= k < |q.findings| ensures IsOrdinal(m, q.findings, k) {
        if k < |p.findings| {
          assert IsOrdinal(m, p.findings, k);
          assert q.findings[..k + 1] == p.findings[..k + 1];
        } else {
          assert q.findings[..k + 1] == q.findings;
        }
      }
    }
  }

  lemma TakeConservesSeen(m: Memory, p: Progress, r: Report, indexes: seq<IndexRow>, sign: Signer)
    requires SeenConserved(m, p) && KeyOf(r) !in p.memory.seen
    ensures SeenConserved(m, Take(p, r, indexes, sign))
  {
    hide Classify, KeyOf, SeenConserved;
    var q := Take(p, r, indexes, sign);
    RecordConservesSeen(m, p, q, KeyOf(r), q.memory.seen[KeyOf(r)], q.events[|p.events|]);
  }

  lemma RecordConservesSeen(m: Memory, p: Progress, q: Progress, k: ReportKey, value: string, e: Event)
    requires SeenConserved(m, p) && k !in p.memory.seen && e.key == k
    requires q.memory.seen == p.memory.seen[k := value] && q.events == p.events + [e]
    ensures SeenConserved(m, q)
  {
    hide Recorded, FoundKeys;
    EventAdded(p.events, e);
    KeyAdded(p.memory.seen, k, value);
  }

  lemma KeyAdded(seen: map<ReportKey, string>, k: ReportKey, value: string)
    requires k !in seen
    ensures |seen[k := value]| == |seen| + 1
  {
  }

  lemma TakeRecordsFinding(p: Progress, r: Report, indexes: seq<IndexRow>, sign: Signer)
    requires FindingsRecorded(p) && KeyOf(r) !in p.memory.seen
    ensures FindingsRecorded(Take(p, r, indexes, sign))
  {
    hide Classify, KeyOf;
    var q, n := Take(p, r, indexes, sign), |p.findings|;
    var more := q.findings[n..];
    EventAdded(p.events, q.events[|p.events|]);
    assert q.findings == p.findings + more;
    KeysConcat(p.findings, more);
    assert Keys(more) == if q.events[|p.events|].pattern.Some? then [KeyOf(r)] else [];
    forall k | 0 <= k < n ensures IsRemembered(q.memory.seen, q.findings[k]) {
      assert IsRemembered(p.memory.seen, p.findings[k]);
    }
  }

  lemma KeysConcat(a: seq<Finding>, b: seq<Finding>)
    ensures Keys(a + b) == Keys(a) + Keys(b)
  {
  }

  lemma EventAdded(es: seq<Event>, e: Event)
    ensures forall k :: Recorded(es + [e], k) <==> Recorded(es, k) || k == e.key
    ensures FoundKeys(es + [e]) == FoundKeys(es) + if e.pattern.Some? then [e.key] else []
  {
    assert (es + [e])[..|es|] == es;
    assert forall x :: x in es + [e] <==> x in es || x == e;
  }

  lemma NothingYet(m: Memory)
    ensures CountsConserved(m, Start(m)) && SeenConserved(m, Start(m)) && FindingsRecorded(Start(m))
  {
  }

  /** Recurrence is conserved by a whole call, whatever the reports. */
  lemma {:induction false} ProcessConserves(rs: seq<Report>, m: Memory, indexes: seq<IndexRow>, sign: Signer)
    ensures CountsConserved(m, Process(rs, Start(m), indexes, sign))
    ensures SeenConserved(m, Process(rs, Start(m), indexes, sign))
    ensures FindingsRecorded(Process(rs, Start(m), indexes, sign))
  {
    hide CountsConserved, SeenConserved, FindingsRecorded, Take, AlreadySeen;
    if rs == [] {
      NothingYet(m);
    } else {
      var front := rs[..|rs| - 1];
      ProcessConserves(front, m, indexes, sign);
      var p := Process(front, Start(m), indexes, sign);
      if !AlreadySeen(rs[|rs| - 1], p.memory.seen) {
        NewKey(rs[|rs| - 1], p.memory.seen);
        TakeConservesCounts(m, p, rs[|rs| - 1], indexes, sign);
        TakeConservesSeen(m, p, rs[|rs| - 1], indexes, sign);
        TakeRecordsFinding(p, rs[|rs| - 1], indexes, sign);
      }
    }
  }

  // ----- recurrence -----

  function Known(m: Memory, signature: string): Option<Recurrence> {
    if signature in m.signatures then Some(m.signatures[signature]) else None
  }

  /** The recurrence of a signature after one more finding of it. */
  function Again(known: Option<Recurrence>, t: Instant): Recurrence {
    if known.None? then Recurrence(1, t, t) else Recurrence(known.value.count + 1, known.value.firstSeen, t)
  }

  /** The recurrence of a signature as its findings tell it. */
  function Tally(known: Option<Recurrence>, fs: seq<Finding>, signature: string): Option<Recurrence> {
    if fs == [] then known
    else
      var before, last := Tally(known, fs[..|fs| - 1], signature), fs[|fs| - 1];
      if last.signature == signature then Some(Again(before, last.key.at)) else before
  }

  /** What a finding says of its recurrence counts itself. */
  predicate TellsTally(m: Memory, fs: seq<Finding>, k: nat)
    requires k < |fs|
  {
    var tally := Tally(Known(m, fs[k].signature), fs[..k + 1], fs[k].signature);
    tally.Some? && tally.value.count == fs[k].occurrences && tally.value.firstSeen == fs[k].firstSeen
  }

  ghost predicate Tallied(m: Memory, p: Progress) {
    && (forall s :: Known(p.memory, s) == Tally(Known(m, s), p.findings, s))
    && (forall k | 0 <= k < |p.findings| :: TellsTally(m, p.findings, k))
  }

  lemma TakeTallies(m: Memory, p: Progress, r: Report, indexes: seq<IndexRow>, sign: Signer)
    requires Tallied(m, p)
    ensures Tallied(m, Take(p, r, indexes, sign))
  {
    hide Classify;
    var q := Take(p, r, indexes, sign);
    if |q.findings| > |p.findings| {
      assert q.findings[..|p.findings|] == p.findings;
      forall k | 0 <= k < |q.findings| ensures TellsTally(m, q.findings, k) {
        if k < |p.findings| {
          assert TellsTally(m, p.findings, k);
          assert q.findings[..k + 1] == p.findings[..k + 1];
        } else {
          assert q.findings[..k + 1] == q.findings;
        }
      }
    }
  }

  /** After a call each signature has the recurrence that the findings tell. */
  lemma {:induction false} ProcessTallies(rs: seq<Report>, m: Memory, indexes: seq<IndexRow>, sign: Signer)
    ensures Tallied(m, Process(rs, Start(m), indexes, sign))
  {
    if rs != [] {
      ProcessTallies(rs[..|rs| - 1], m, indexes, sign);
      TakeTallies(m, Process(rs[..|rs| - 1], Start(m), indexes, sign), rs[|rs| - 1], indexes, sign);
      hide Tallied, Take, AlreadySeen;
    }
  }

  // ----- repeated reports -----

  lemma SeenStaysSeen(r: Report, seen: map<ReportKey, string>, later: map<ReportKey, string>)
    requires AlreadySeen(r, seen) && forall k | k in seen :: k in later
    ensures AlreadySeen(r, later)
  {
  }

  lemma StepSees(p: Progress, r: Report, indexes: seq<IndexRow>, sign: Signer)
    ensures AlreadySeen(r, Step(p, r, indexes, sign).memory.seen)
    ensures forall k | k in p.memory.seen :: k in Step(p, r, indexes, sign).memory.seen
  {
    hide Classify;
    if !AlreadySeen(r, p.memory.seen) {
      assert KeyOf(r) in Take(p, r, indexes, sign).memory.seen;
    }
  }

  lemma {:induction false} ProcessSeesAll(rs: seq<Report>, p: Progress, indexes: seq<IndexRow>, sign: Signer)
    ensures forall k | 0 <= k < |rs| :: AlreadySeen(rs[k], Process(rs, p, indexes, sign).memory.seen)
    ensures forall k | k in p.memory.seen :: k in Process(rs, p, indexes, sign).memory.seen
  {
    if rs != [] {
      var front, last := rs[..|rs| - 1], rs[|rs| - 1];
      ProcessSeesAll(front, p, indexes, sign);
      var q := Process(front, p, indexes, sign);
      StepSees(q, last, indexes, sign);
      hide AlreadySeen, Step;
      forall k | 0 <= k < |front| ensures AlreadySeen(rs[k], Step(q, last, indexes, sign).memory.seen) {
        assert rs[k] == front[k];
        SeenStaysSeen(rs[k], q.memory.seen, Step(q, last, indexes, sign).memory.seen);
      }
    }
  }

  lemma {:induction false} SeenIsSkipped(rs: seq<Report>, p: Progress, indexes: seq<IndexRow>, sign: Signer)
    requires forall k | 0 <= k < |rs| :: AlreadySeen(rs[k], p.memory.seen)
    ensures Process(rs, p, indexes, sign) == p
  {
    if rs != [] {
      hide AlreadySeen, Take;
      SeenIsSkipped(rs[..|rs| - 1], p, indexes, sign);
    }
  }

  /** Reports that come again, while they are remembered, add nothing. */
  lemma SecondPassIsSilent(rs: seq<Report>, m: Memory, indexes: seq<IndexRow>, sign: Signer)
    ensures var after := Process(rs, Start(m), indexes, sign).memory;
      Process(rs, Start(after), indexes, sign) == Start(after)
  {
    ProcessSeesAll(rs, Start(m), indexes, sign);
    SeenIsSkipped(rs, Start(Process(rs, Start(m), indexes, sign).memory), indexes, sign);
  }

  // ----- twin reports -----

  /** The last event recorded for each key. */
  function Latest(known: map<ReportKey, Event>, es: seq<Event>): map<ReportKey, Event> {
    if es == [] then known else Latest(known, es[..|es| - 1])[es[|es| - 1].key := es[|es| - 1]]
  }

  predicate FromStatus(known: map<ReportKey, Event>, k: ReportKey) {
    k in known && known[k].complete && known[k].source == "innodb_status"
  }

  /** No two remembered reports of INNODB STATUS can be the same deadlock under
      two precisions. */
  predicate NoTwins(seen: map<ReportKey, string>, known: map<ReportKey, Event>) {
    forall a, b | a in seen && b in seen && a != b && FromStatus(known, a) && FromStatus(known, b) :: !AreTwins(a, b)
  }

  lemma TakeKeepsNoTwins(p: Progress, r: Report, indexes: seq<IndexRow>, sign: Signer, known: map<ReportKey, Event>)
    requires NoTwins(p.memory.seen, Latest(known, p.events)) && !AlreadySeen(r, p.memory.seen)
    ensures var q := Take(p, r, indexes, sign); NoTwins(q.memory.seen, Latest(known, q.events))
  {
    hide Classify;
    var q := Take(p, r, indexes, sign);
    assert q.events[..|p.events|] == p.events;
    assert forall a, b :: AreTwins(a, b) <==> AreTwins(b, a);
  }

  lemma {:induction false} ProcessKeepsNoTwins(rs: seq<Report>, m: Memory, indexes: seq<IndexRow>, sign: Signer,
      known: map<ReportKey, Event>)
    requires NoTwins(m.seen, known)
    ensures var p := Process(rs, Start(m), indexes, sign); NoTwins(p.memory.seen, Latest(known, p.events))
  {
    if rs != [] {
      ProcessKeepsNoTwins(rs[..|rs| - 1], m, indexes, sign, known);
      var p := Process(rs[..|rs| - 1], Start(m), indexes, sign);
      hide NoTwins, Take, AlreadySeen;
      if !AlreadySeen(rs[|rs| - 1], p.memory.seen) {
        TakeKeepsNoTwins(p, rs[|rs| - 1], indexes, sign, known);
      }
    }
  }

  // ----- where findings come from -----

  /** Findings are about reports that were not remembered, each about another
      one. */
  ghost predicate FindingsAreNew(m: Memory, p: Progress) {
    && (forall k | k in m.seen :: k in p.memory.seen)
    && (forall i | 0 <= i < |p.findings| :: p.findings[i].key !in m.seen && p.findings[i].key in p.memory.seen)
    && (forall i, j | 0 <= i < j < |p.findings| :: p.findings[i].key != p.findings[j].key)
  }

  lemma TakeFindsNew(m: Memory, p: Progress, r: Report, indexes: seq<IndexRow>, sign: Signer)
    requires FindingsAreNew(m, p) && KeyOf(r) !in p.memory.seen
    ensures FindingsAreNew(m, Take(p, r, indexes, sign))
  {
    hide Classify, KeyOf;
  }

  predicate NamesReport(rs: seq<Report>, k: ReportKey) { exists r | r in rs :: KeyOf(r) == k }

  lemma {:induction false} ProcessFindsNew(rs: seq<Report>, m: Memory, indexes: seq<IndexRow>, sign: Signer)
    ensures FindingsAreNew(m, Process(rs, Start(m), indexes, sign))
    ensures forall f | f in Process(rs, Start(m), indexes, sign).findings :: NamesReport(rs, f.key)
    ensures forall e | e in Process(rs, Start(m), indexes, sign).events :: NamesReport(rs, e.key)
  {
    if rs != [] {
      var front, last := rs[..|rs| - 1], rs[|rs| - 1];
      ProcessFindsNew(front, m, indexes, sign);
      var p := Process(front, Start(m), indexes, sign);
      hide Classify, KeyOf, AlreadySeen, FindingsAreNew;
      if !AlreadySeen(last, p.memory.seen) {
        NewKey(last, p.memory.seen);
        TakeFindsNew(m, p, last, indexes, sign);
      }
      assert forall r | r in front :: r in rs;
    }
  }

  // ----- which reports of a job are new -----

  /** A report repeats a key: it would not be new if the key were remembered. */
  predicate RepeatsKey(r: Report, k: ReportKey) {
    if r.complete then k == KeyOf(r) || (r.source == "innodb_status" && AreTwins(KeyOf(r), k))
    else k.at == r.detectedAt
  }

  lemma SeenIsRepeat(r: Report, seen: map<ReportKey, string>)
    ensures AlreadySeen(r, seen) <==> exists k | k in seen :: RepeatsKey(r, k)
  {
    if AlreadySeen(r, seen) && KeyOf(r) in seen && r.complete {
      assert RepeatsKey(r, KeyOf(r));
    }
  }

  /** Report i is new: it repeats nothing remembered and no earlier report that
      was new. */
  predicate IsNewAt(rs: seq<Report>, seen: map<ReportKey, string>, i: nat)
    requires i < |rs|
    decreases i
  {
    && !AlreadySeen(rs[i], seen)
    && forall j | 0 <= j < i :: IsNewAt(rs, seen, j) ==> !RepeatsKey(rs[i], KeyOf(rs[j]))
  }

  predicate BringsInTurn(rs: seq<Report>, seen: map<ReportKey, string>, k: ReportKey) {
    exists i | 0 <= i < |rs| :: IsNewAt(rs, seen, i) && KeyOf(rs[i]) == k
  }

  predicate IsAcceptedAt(rs: seq<Report>, indexes: seq<IndexRow>, i: nat)
    requires i < |rs|
  {
    rs[i].complete && Classify(rs[i], indexes).Some?
  }

  predicate FindsInTurn(rs: seq<Report>, indexes: seq<IndexRow>, seen: map<ReportKey, string>, k: ReportKey) {
    exists i | 0 <= i < |rs| :: IsNewAt(rs, seen, i) && IsAcceptedAt(rs, indexes, i) && KeyOf(rs[i]) == k
  }

  predicate HasFinding(fs: seq<Finding>, k: ReportKey) { exists f | f in fs :: f.key == k }

  lemma {:induction false} PrefixIsNewAt(rs: seq<Report>, n: nat, seen: map<ReportKey, string>, i: nat)
    requires i < n <= |rs|
    ensures IsNewAt(rs[..n], seen, i) <==> IsNewAt(rs, seen, i)
    decreases i
  {
    forall j | 0 <= j < i ensures IsNewAt(rs[..n], seen, j) <==> IsNewAt(rs, seen, j) {
      PrefixIsNewAt(rs, n, seen, j);
    }
    hide AlreadySeen, RepeatsKey;
  }

  /** What the last report brings besides the others. */
  lemma LastBrings(rs: seq<Report>, indexes: seq<IndexRow>, seen: map<ReportKey, string>, k: ReportKey)
    requires rs != []
    ensures var front, n := rs[..|rs| - 1], |rs| - 1;
      var isIt := IsNewAt(rs, seen, n) && KeyOf(rs[n]) == k;
      && (BringsInTurn(rs, seen, k) <==> BringsInTurn(front, seen, k) || isIt)
      && (FindsInTurn(rs, indexes, seen, k) <==>
            FindsInTurn(front, indexes, seen, k) || (isIt && IsAcceptedAt(rs, indexes, n)))
  {
    var front, n := rs[..|rs| - 1], |rs| - 1;
    forall i | 0 <= i < n
      ensures front[i] == rs[i] && (IsNewAt(front, seen, i) <==> IsNewAt(rs, seen, i))
      ensures IsAcceptedAt(front, indexes, i) <==> IsAcceptedAt(rs, indexes, i)
    {
      PrefixIsNewAt(rs, n, seen, i);
    }
    hide IsNewAt, IsAcceptedAt, KeyOf;
  }

  /** The last report is known to what its predecessors left exactly when it is
      not new. */
  lemma LastIsNew(rs: seq<Report>, seen: map<ReportKey, string>, later: map<ReportKey, string>)
    requires rs != []
    requires forall k :: k in later <==> k in seen || BringsInTurn(rs[..|rs| - 1], seen, k)
    ensures AlreadySeen(rs[|rs| - 1], later) <==> !IsNewAt(rs, seen, |rs| - 1)
  {
    var n := |rs| - 1;
    SeenIsRepeat(rs[n], seen);
    SeenIsRepeat(rs[n], later);
    forall k ensures BringsInTurn(rs[..n], seen, k) <==> BringsBefore(rs, seen, n, k) {
      FrontBrings(rs, seen, k);
    }
    assert IsNewAt(rs, seen, n) <==>
      !AlreadySeen(rs[n], seen) && forall j | 0 <= j < n :: IsNewAt(rs, seen, j) ==> !RepeatsKey(rs[n], KeyOf(rs[j]));
    hide AlreadySeen, RepeatsKey, IsNewAt, KeyOf, BringsInTurn;
  }

  predicate BringsBefore(rs: seq<Report>, seen: map<ReportKey, string>, n: nat, k: ReportKey)
    requires n <= |rs|
  {
    exists j | 0 <= j < n :: IsNewAt(rs, seen, j) && KeyOf(rs[j]) == k
  }

  lemma FrontBrings(rs: seq<Report>, seen: map<ReportKey, string>, k: ReportKey)
    requires rs != []
    ensures BringsInTurn(rs[..|rs| - 1], seen, k) <==> BringsBefore(rs, seen, |rs| - 1, k)
  {
    var front, n := rs[..|rs| - 1], |rs| - 1;
    forall j | 0 <= j < n ensures front[j] == rs[j] && (IsNewAt(front, seen, j) <==> IsNewAt(rs, seen, j)) {
      PrefixIsNewAt(rs, n, seen, j);
    }
    hide IsNewAt, KeyOf;
  }

  /** What taking a report adds. */
  lemma TakeAdds(p: Progress, r: Report, indexes: seq<IndexRow>, sign: Signer, k: ReportKey)
    ensures var q := Take(p, r, indexes, sign);
      && (Recorded(q.events, k) <==> Recorded(p.events, k) || KeyOf(r) == k)
      && (HasFinding(q.findings, k) <==>
            HasFinding(p.findings, k) || (KeyOf(r) == k && r.complete && Classify(r, indexes).Some?))
  {
    hide Classify, KeyOf;
    var q := Take(p, r, indexes, sign);
    EventAdded(p.events, q.events[|p.events|]);
    var more := q.findings[|p.findings|..];
    assert q.findings == p.findings + more;
    assert forall f :: f in q.findings <==> f in p.findings || f in more;
    assert more == [] || more == [more[0]];
  }

  lemma ProcessLast(rs: seq<Report>, p: Progress, indexes: seq<IndexRow>, sign: Signer)
    requires rs != []
    ensures var front, last := Process(rs[..|rs| - 1], p, indexes, sign), rs[|rs| - 1];
      Process(rs, p, indexes, sign) ==
        if AlreadySeen(last, front.memory.seen) then front else Take(front, last, indexes, sign)
  {
    hide AlreadySeen, Take;
  }

  lemma NewKeysAreRecorded(rs: seq<Report>, m: Memory, indexes: seq<IndexRow>, sign: Signer)
    ensures forall k :: k in Process(rs, Start(m), indexes, sign).memory.seen <==>
      k in m.seen || Recorded(Process(rs, Start(m), indexes, sign).events, k)
  {
    ProcessConserves(rs, m, indexes, sign);
    hide Process, Recorded, CountsConserved, FindingsRecorded;
  }

  /** Exactly the new reports are recorded, and exactly those of them that a rule
      accepts are found. */
  lemma {:induction false} JudgedInTurn(rs: seq<Report>, m: Memory, indexes: seq<IndexRow>, sign: Signer)
    ensures forall k :: Recorded(Process(rs, Start(m), indexes, sign).events, k) <==> BringsInTurn(rs, m.seen, k)
    ensures forall k ::
      HasFinding(Process(rs, Start(m), indexes, sign).findings, k) <==> FindsInTurn(rs, indexes, m.seen, k)
  {
    if rs != [] {
      var front, n := rs[..|rs| - 1], |rs| - 1;
      var p := Process(front, Start(m), indexes, sign);
      JudgedInTurn(front, m, indexes, sign);
      assert IsAcceptedAt(rs, indexes, n) <==> rs[n].complete && Classify(rs[n], indexes).Some?;
      hide *;
      LastIsNew(rs, m.seen, p.memory.seen) by { NewKeysAreRecorded(front, m, indexes, sign); }
      forall k
        ensures Recorded(Process(rs, Start(m), indexes, sign).events, k) <==> BringsInTurn(rs, m.seen, k)
        ensures HasFinding(Process(rs, Start(m), indexes, sign).findings, k) <==> FindsInTurn(rs, indexes, m.seen, k)
      {
        ProcessLast(rs, Start(m), indexes, sign);
        LastBrings(rs, indexes, m.seen, k);
        TakeAdds(p, rs[n], indexes, sign, k);
      }
    } else {
      hide Step, AlreadySeen, Classify;
    }
  }

  /** The same for the reports of a snapshot, which are taken by time. */
  predicate BringsNew(rs: seq<Report>, seen: map<ReportKey, string>, k: ReportKey) {
    BringsInTurn(SortByTime(rs), seen, k)
  }

  predicate FindsNew(rs: seq<Report>, indexes: seq<IndexRow>, seen: map<ReportKey, string>, k: ReportKey) {
    FindsInTurn(SortByTime(rs), indexes, seen, k)
  }

  // ----- reports that do not repeat each other -----

  /** No report is there twice or repeats another one. */
  ghost predicate AreUnrelated(rs: seq<Report>) {
    && (forall r :: multiset(rs)[r] <= 1)
    && forall a, b | a in rs && b in rs && a != b :: !RepeatsKey(a, KeyOf(b))
  }

  lemma SortKeepsUnrelated(rs: seq<Report>)
    ensures forall r :: r in SortByTime(rs) <==> r in rs
    ensures AreUnrelated(rs) ==> AreUnrelated(SortByTime(rs))
  {
    SortPermutes(rs);
    assert forall r :: r in SortByTime(rs) <==> r in multiset(SortByTime(rs));
    assert forall r :: r in rs <==> r in multiset(rs);
    hide SortByTime, RepeatsKey;
  }

  lemma OnlyOnce(rs: seq<Report>, i: nat, j: nat)
    requires j < i < |rs| && multiset(rs)[rs[i]] <= 1
    ensures rs[i] != rs[j]
  {
    assert rs == rs[..i] + rs[i..];
    assert rs[j] in multiset(rs[..i]) && rs[i] in multiset(rs[i..]);
  }

  /** Such reports are new whatever the others are. */
  lemma UnrelatedIsNewAt(rs: seq<Report>, seen: map<ReportKey, string>, i: nat)
    requires AreUnrelated(rs) && i < |rs|
    ensures IsNewAt(rs, seen, i) <==> !AlreadySeen(rs[i], seen)
  {
    forall j | 0 <= j < i ensures !RepeatsKey(rs[i], KeyOf(rs[j])) {
      OnlyOnce(rs, i, j);
      assert rs[i] in rs && rs[j] in rs;
    }
    hide AlreadySeen, RepeatsKey, AreUnrelated;
  }

  /** Such a report is found exactly when a rule accepts it and it repeats nothing
      remembered. */
  lemma UnrelatedIsFoundAlone(rs: seq<Report>, indexes: seq<IndexRow>, seen: map<ReportKey, string>, r: Report)
    requires AreUnrelated(rs) && r in rs
    ensures FindsNew(rs, indexes, seen, KeyOf(r)) <==>
      !AlreadySeen(r, seen) && r.complete && Classify(r, indexes).Some?
  {
    var sorted := SortByTime(rs);
    SortKeepsUnrelated(rs);
    var n :| 0 <= n < |sorted| && sorted[n] == r;
    forall i | 0 <= i < |sorted|
      ensures IsNewAt(sorted, seen, i) <==> !AlreadySeen(sorted[i], seen)
      ensures KeyOf(sorted[i]) == KeyOf(r) <==> sorted[i] == r
    {
      UnrelatedIsNewAt(sorted, seen, i);
      assert sorted[i] in rs && RepeatsKey(r, KeyOf(r));
    }
    hide AlreadySeen, RepeatsKey, AreUnrelated, KeyOf, IsNewAt, SortByTime, Classify;
  }
}
