/** What the detector records and finds of each report, told from the
    report. */
module DeadlockDetectorRules {
  import opened Basics
  import opened DeadlockReports
  import opened DeadlockDetector

  // ----- keys -----

  /** The victim of a report is its first transaction marked as one. */
  predicate IsVictimAt(ts: seq<Transaction>, k: nat) {
    k < |ts| && ts[k].victim && forall j | 0 <= j < k :: !ts[j].victim
  }

  lemma {:induction false} VictimExactly(ts: seq<Transaction>)
    ensures forall k: nat | IsVictimAt(ts, k) :: Victim(ts) == Some(ts[k])
    ensures (forall t | t in ts :: !t.victim) ==> Victim(ts) == None
  {
    if ts != [] {
      VictimExactly(ts[1..]);
      forall k: nat | IsVictimAt(ts, k) ensures Victim(ts) == Some(ts[k]) {
        if k > 0 {
          assert !ts[0].victim;
          assert IsVictimAt(ts[1..], k - 1);
        }
      }
    }
  }

  /** A report is known by its instant and the pid of its victim, if it has one. */
  lemma KeyExactly(r: Report)
    ensures KeyOf(r).at == r.detectedAt
    ensures forall k: nat | IsVictimAt(r.transactions, k) :: KeyOf(r).victim == r.transactions[k].pid
    ensures (forall t | t in r.transactions :: !t.victim) ==> KeyOf(r).victim == None
  {
    VictimExactly(r.transactions);
  }

  /** Two keys of one victim whose instants, one of them of whole seconds, are two
      seconds apart at most. */
  predicate MayBeOne(a: ReportKey, b: ReportKey) {
    && a.victim != None && b.victim == a.victim
    && a.at <= b.at + 2_000_000 && b.at <= a.at + 2_000_000
    && (a.at % 1_000_000 == 0 || b.at % 1_000_000 == 0)
  }

  /** Which reports are taken for one already remembered. */
  lemma SeenExactlyWhen(r: Report, seen: map<ReportKey, string>)
    ensures AlreadySeen(r, seen) <==>
      if r.complete
      then KeyOf(r) in seen || (r.source == "innodb_status" && exists k | k in seen :: MayBeOne(KeyOf(r), k))
      else exists k | k in seen :: k.at == r.detectedAt
  {
    assert forall k :: AreTwins(KeyOf(r), k) <==> MayBeOne(KeyOf(r), k);
    hide KeyOf;
  }

  // ----- memory -----

  /** What is still remembered at an instant: the reports of its last ten minutes,
      and the signatures seen in its last seven days. */
  lemma PrunedExactly(m: Memory, t: Instant)
    ensures forall k :: k in Pruned(m, t).seen <==> k in m.seen && t - k.at <= 600_000_000
    ensures forall k | k in Pruned(m, t).seen :: Pruned(m, t).seen[k] == m.seen[k]
    ensures forall s :: s in Pruned(m, t).signatures <==>
      s in m.signatures && t - m.signatures[s].lastSeen <= 604_800_000_000
    ensures forall s | s in Pruned(m, t).signatures :: Pruned(m, t).signatures[s] == m.signatures[s]
  {
  }

  // ----- what is told of a report -----

  predicate TellsFinding(r: Report, f: Finding, indexes: seq<IndexRow>, sign: Signer) {
    && r.complete && KeyOf(r) == f.key
    && Classify(r, indexes) == Some(f.pattern)
    && f.signature == sign(r, f.pattern)
    && f.database == r.database
  }

  predicate TellsEvent(r: Report, e: Event, indexes: seq<IndexRow>) {
    && KeyOf(r) == e.key
    && e.source == r.source && e.complete == r.complete && e.database == r.database
    && e.pattern == if r.complete then Classify(r, indexes) else None
  }

  /** The signature that is remembered of a report: none if no rule accepts it. */
  predicate TellsSignature(r: Report, k: ReportKey, signature: string, indexes: seq<IndexRow>, sign: Signer) {
    && KeyOf(r) == k
    && if r.complete && Classify(r, indexes).Some? then signature == sign(r, Classify(r, indexes).value)
       else signature == ""
  }

  predicate FindsReport(rs: seq<Report>, seen: map<ReportKey, string>, f: Finding, indexes: seq<IndexRow>,
      sign: Signer)
  {
    exists i | 0 <= i < |rs| :: IsNewAt(rs, seen, i) && TellsFinding(rs[i], f, indexes, sign)
  }

  predicate RecordsReport(rs: seq<Report>, seen: map<ReportKey, string>, e: Event, indexes: seq<IndexRow>) {
    exists i | 0 <= i < |rs| :: IsNewAt(rs, seen, i) && TellsEvent(rs[i], e, indexes)
  }

  predicate RemembersReport(rs: seq<Report>, seen: map<ReportKey, string>, k: ReportKey, signature: string,
      indexes: seq<IndexRow>, sign: Signer)
  {
    exists i | 0 <= i < |rs| :: IsNewAt(rs, seen, i) && TellsSignature(rs[i], k, signature, indexes, sign)
  }

  ghost predicate TellsReports(rs: seq<Report>, m: Memory, p: Progress, indexes: seq<IndexRow>, sign: Signer) {
    && (forall f | f in p.findings :: FindsReport(rs, m.seen, f, indexes, sign))
    && (forall e | e in p.events :: RecordsReport(rs, m.seen, e, indexes))
    && (forall k | k in p.memory.seen ::
          || (k in m.seen && p.memory.seen[k] == m.seen[k])
          || RemembersReport(rs, m.seen, k, p.memory.seen[k], indexes, sign))
  }

  /** What was told of the other reports is still told. */
  lemma MoreReports(rs: seq<Report>, m: Memory, p: Progress, indexes: seq<IndexRow>, sign: Signer)
    requires rs != [] && TellsReports(rs[..|rs| - 1], m, p, indexes, sign)
    ensures TellsReports(rs, m, p, indexes, sign)
  {
    var front := rs[..|rs| - 1];
    forall i | 0 <= i < |front| ensures front[i] == rs[i] && (IsNewAt(front, m.seen, i) <==> IsNewAt(rs, m.seen, i)) {
      PrefixIsNewAt(rs, |front|, m.seen, i);
    }
    hide IsNewAt, TellsFinding, TellsEvent, TellsSignature;
    forall f | f in p.findings ensures FindsReport(rs, m.seen, f, indexes, sign) {
      assert FindsReport(front, m.seen, f, indexes, sign);
    }
    forall e | e in p.events ensures RecordsReport(rs, m.seen, e, indexes) {
      assert RecordsReport(front, m.seen, e, indexes);
    }
  }

  lemma {:induction false} TakeTells(rs: seq<Report>, m: Memory, p: Progress, indexes: seq<IndexRow>, sign: Signer)
    requires rs != [] && IsNewAt(rs, m.seen, |rs| - 1) && TellsReports(rs, m, p, indexes, sign)
    ensures TellsReports(rs, m, Take(p, rs[|rs| - 1], indexes, sign), indexes, sign)
  {
    var r := rs[|rs| - 1];
    var q := Take(p, r, indexes, sign);
    var pattern := if r.complete then Classify(r, indexes) else None;
    hide Classify, KeyOf, IsNewAt;
    forall f | f in q.findings ensures FindsReport(rs, m.seen, f, indexes, sign) {
      if f !in p.findings {
        assert TellsFinding(r, f, indexes, sign);
      }
    }
    forall e | e in q.events ensures RecordsReport(rs, m.seen, e, indexes) {
      if e !in p.events {
        assert TellsEvent(r, e, indexes);
      }
    }
    assert TellsSignature(r, KeyOf(r), q.memory.seen[KeyOf(r)], indexes, sign);
  }

  /** Whatever is found, recorded or remembered tells the truth about a report that
      was new in its turn. */
  lemma {:induction false} ProcessTellsReports(rs: seq<Report>, m: Memory, indexes: seq<IndexRow>, sign: Signer)
    ensures TellsReports(rs, m, Process(rs, Start(m), indexes, sign), indexes, sign)
  {
    if rs != [] {
      var front, last := rs[..|rs| - 1], rs[|rs| - 1];
      var p := Process(front, Start(m), indexes, sign);
      ProcessTellsReports(front, m, indexes, sign);
      hide TellsReports, IsNewAt, Take, AlreadySeen;
      MoreReports(rs, m, p, indexes, sign);
      LastIsNew(rs, m.seen, p.memory.seen) by {
        JudgedInTurn(front, m, indexes, sign);
        NewKeysAreRecorded(front, m, indexes, sign);
      }
      ProcessLast(rs, Start(m), indexes, sign);
      if !AlreadySeen(last, p.memory.seen) {
        TakeTells(rs, m, p, indexes, sign);
      }
    }
  }
}
