/** What dropping every reported index costs: no search that a redundant index
    resolved, and no foreign key. */
module UnusedIndexSafety {
  import opened Basics
  import opened UnusedIndex

  /** Every search n resolves, m resolves too. */
  predicate StandsIn(s: Snapshot, m: nat, n: nat) {
    && m < |s.indexes| && n < |s.indexes| && SameTable(s, m, n)
    && s.indexes[m].Def().access == s.indexes[n].Def().access
    && s.indexes[n].Def().columns <= s.indexes[m].Def().columns
    && !s.indexes[m].Def().partial
    && (s.mature ==> HasReads(s, s.indexes[m]))
  }

  /** The strict order along which one index covers another. */
  predicate Outranks(s: Snapshot, m: nat, n: nat) {
    && StandsIn(s, m, n)
    && (|s.indexes[n].Def().columns| < |s.indexes[m].Def().columns|
        || KeepsOver(StandingOf(s, s.indexes[m]), StandingOf(s, s.indexes[n])))
  }

  lemma OutranksIsStrictOrder(s: Snapshot, a: nat, b: nat, c: nat)
    ensures !Outranks(s, a, a)
    ensures Outranks(s, a, b) && Outranks(s, b, c) ==> Outranks(s, a, c)
  {
    if a < |s.indexes| {
      KeepsOverIsStrictTotal(StandingOf(s, s.indexes[a]), StandingOf(s, s.indexes[a]));
    }
    if Outranks(s, a, b) && Outranks(s, b, c) {
      var x, y, z := StandingOf(s, s.indexes[a]), StandingOf(s, s.indexes[b]), StandingOf(s, s.indexes[c]);
      if KeepsOver(x, y) && KeepsOver(y, z) {
        KeepsOverTransitive(x, y, z);
      }
    }
  }

  /** No two indexes cover each other: the advice never says of a pair to drop
      each in favour of the other. */
  lemma CoversIsOneWay(s: Snapshot, m: nat, n: nat)
    requires m < |s.indexes| && n < |s.indexes| && Covers(s, m, n)
    ensures !Covers(s, n, m)
  {
    OutranksIsStrictOrder(s, m, n, m);
  }

  /** m and n are exact duplicates, and m is the one to keep. */
  predicate IsKeptDuplicate(s: Snapshot, m: nat, n: nat) {
    && Grouped(s, m) && Grouped(s, n) && SameTable(s, m, n)
    && s.indexes[m].Def().access == s.indexes[n].Def().access
    && !s.indexes[m].Def().partial
    && ExactDuplicate(s, m, n)
  }

  /** Of two exact duplicates both are reported as redundant exactly when both
      could be and a third index covers the one to keep. */
  lemma DuplicatesBothRedundantExactlyWhen(s: Snapshot, m: nat, n: nat)
    requires IsKeptDuplicate(s, m, n)
    ensures IsRedundant(s, m) && IsRedundant(s, n) <==>
      && Comparable(s, m) && Comparable(s, n)
      && exists w: nat | w < |s.indexes| && w != m && w != n :: Covers(s, w, m)
  {
    var a, b := StandingOf(s, s.indexes[m]), StandingOf(s, s.indexes[n]);
    KeepsOverIsStrictTotal(a, a);
    if w: nat :| w < |s.indexes| && Covers(s, w, m) {
      var c := StandingOf(s, s.indexes[w]);
      if w == n {
        KeepsOverTransitive(a, b, a);
      } else {
        if KeepsOver(c, a) {
          KeepsOverTransitive(c, a, b);
        }
        assert Covers(s, w, n);
      }
    }
  }

  function Btree(columns: seq<string>): Definition {
    Definition(Some("btree"), seq(|columns|, k requires 0 <= k < |columns| => Some(columns[k])), false, false)
  }

  /** Two exact duplicates and a wider index, all of them read. */
  function TwoDuplicates(fold: string -> string): Snapshot {
    Snapshot([Index("app", "t", "a", Some(1), None, Some(Btree(["x"]))),
              Index("app", "t", "b", Some(1), None, Some(Btree(["x"]))),
              Index("app", "t", "c", Some(1), None, Some(Btree(["x", "y"])))],
             [], [], map[(Some("app"), "t") := ["q"]], fold, true)
  }

  lemma BothDuplicatesReported(fold: string -> string)
    ensures var s := TwoDuplicates(fold); IsKeptDuplicate(s, 0, 1) && IsRedundant(s, 0) && IsRedundant(s, 1)
  {
    var s := TwoDuplicates(fold);
    assert Precedes("a", "b");
    assert s.indexes[0].Def().columns < s.indexes[2].Def().columns;
    assert Covers(s, 2, 0) && Covers(s, 2, 1);
  }

  predicate IsPosition(s: Snapshot, k: nat) { k < |s.indexes| }

  /** Every redundant index has a substitute that is reported neither as
      redundant nor as unused: following covers ends at an index that stays. */
  lemma RedundantHasKeptSubstitute(s: Snapshot, n: nat) returns (kept: nat)
    requires IsRedundant(s, n)
    ensures StandsIn(s, kept, n) && !IsReported(s, kept)
  {
    var pool := set k: nat | k < |s.indexes| && IsPosition(s, k);
    forall a: nat, b: nat, c: nat ensures !Outranks(s, a, a)
      && (Outranks(s, a, b) && Outranks(s, b, c) ==> Outranks(s, a, c))
    {
      OutranksIsStrictOrder(s, a, b, c);
    }
    forall k: nat | k in pool && IsRedundant(s, k) ensures exists w: nat :: w in pool && Outranks(s, w, k) {
      var w: nat :| w < |s.indexes| && Covers(s, w, k);
      assert w in pool && Outranks(s, w, k);
    }
    kept := ClimbEnds<nat>(n, pool, (a: nat, b: nat) => Outranks(s, a, b), (k: nat) => !IsRedundant(s, k));
  }

  /** The index a finding recommends to keep is never reported as unused. */
  lemma CoverIsNeverUnused(s: Snapshot, f: Redundancy)
    requires Explains(s, f)
    ensures !IsUnused(s, f.cover)
  {
  }

  /** An index name identifies one index of its table. */
  predicate UniqueNames(s: Snapshot) {
    forall m: nat, n: nat | m < n < |s.indexes| :: s.indexes[m].Key() != s.indexes[n].Key()
  }

  lemma SubstituteBacks(s: Snapshot, m: nat, n: nat, c: Constraint)
    requires StandsIn(s, m, n) && Backs(s, n, c)
    ensures Backs(s, m, c)
  {
    var k, narrow, wide := |Wanted(s, c)|, s.indexes[n].Def().columns, s.indexes[m].Def().columns;
    assert forall i | 0 <= i < k :: wide[i] == narrow[i];
    assert LeadSet(s, wide, k) == LeadSet(s, narrow, k);
  }

  /** Drop everything that is reported: each foreign key that some index backed
      is still backed by an index that was not reported. */
  lemma ForeignKeysStayBacked(s: Snapshot, r: ForeignKeyRow, n: nat) returns (kept: nat)
    requires UniqueNames(s) && r in s.foreignKeys && Backs(s, n, ConstraintOf(s, r))
    ensures Backs(s, kept, ConstraintOf(s, r)) && !IsReported(s, kept)
  {
    var c := ConstraintOf(s, r);
    if !IsReported(s, n) {
      return n;
    }
    if IsRedundant(s, n) {
      kept := RedundantHasKeptSubstitute(s, n);
      SubstituteBacks(s, kept, n, c);
      return;
    }
    // Not redundant but unused, so it was among the backers that were weighed.
    var dropped := RedundantKeys(s);
    assert IsBacker(s, dropped, n, c);
    var keeper := Weigh(s, dropped, c, n);
    kept := keeper;
    if NeedsKeeper(s, dropped, c) {
      assert ProtectsFor(s, dropped, c, s.indexes[kept].Key());
    }
  }

  /** Among the backers of c there is one that stays anyway, or a keeper. */
  lemma Weigh(s: Snapshot, dropped: set<IndexKey>, c: Constraint, n: nat) returns (k: nat)
    requires IsBacker(s, dropped, n, c)
    ensures IsBacker(s, dropped, k, c)
    ensures if NeedsKeeper(s, dropped, c) then IsKeeper(s, dropped, k, c) else StaysAnyway(s, s.indexes[k])
  {
    if !NeedsKeeper(s, dropped, c) {
      k :| k < |s.indexes| && IsBacker(s, dropped, k, c) && StaysAnyway(s, s.indexes[k]);
    } else {
      var pool := set m: nat | m < |s.indexes| && IsBacker(s, dropped, m, c);
      forall a: nat, b: nat, d: nat | a in pool && b in pool && d in pool
        ensures !Preferred(s, a, a)
        ensures Preferred(s, a, b) && Preferred(s, b, d) ==> Preferred(s, a, d)
        ensures a == b || Preferred(s, a, b) || Preferred(s, b, a)
      {
        PreferredIsStrictTotal(s, a, b, d);
      }
      k := ClimbEnds<nat>(n, pool, (a: nat, b: nat) => Preferred(s, a, b),
                          (a: nat) => forall b | b in pool :: !Preferred(s, b, a));
      forall m: nat | m < |s.indexes| && IsBacker(s, dropped, m, c) && m != k
        ensures if m < k then Narrower(s.indexes[k], s.indexes[m]) else !Narrower(s.indexes[m], s.indexes[k])
      {
        assert m in pool && !Preferred(s, m, k);
        PreferredIsStrictTotal(s, k, m, k);
      }
    }
  }

  /** `min` prefers the narrower backer and, on a tie, the one listed first. */
  predicate Preferred(s: Snapshot, m: nat, n: nat) {
    && m < |s.indexes| && n < |s.indexes|
    && (Narrower(s.indexes[m], s.indexes[n])
        || (m < n && !Narrower(s.indexes[n], s.indexes[m])))
  }

  lemma PreferredIsStrictTotal(s: Snapshot, a: nat, b: nat, c: nat)
    requires a < |s.indexes| && b < |s.indexes| && c < |s.indexes|
    ensures !Preferred(s, a, a)
    ensures Preferred(s, a, b) && Preferred(s, b, c) ==> Preferred(s, a, c)
    ensures a == b || Preferred(s, a, b) || Preferred(s, b, a)
    ensures Preferred(s, a, b) ==>
      if b < a then Narrower(s.indexes[a], s.indexes[b]) else !Narrower(s.indexes[b], s.indexes[a])
  {
    var x, y, z := s.indexes[a], s.indexes[b], s.indexes[c];
    PrecedesTrichotomy(x.name, x.name);
    PrecedesTrichotomy(x.name, y.name);
    PrecedesTrichotomy(y.name, z.name);
    PrecedesTrichotomy(x.name, z.name);
    if Narrower(x, y) { NarrowerIsWeakOrder(x, y, z); }
    if Narrower(y, z) { NarrowerIsWeakOrder(y, z, x); }
    if Narrower(z, x) { NarrowerIsWeakOrder(z, x, y); }
  }

  // ----- names that differ only by case -----

  // Foreign keys are matched to indexes by lower-cased names, while indexes are
  // dropped by exact name. The guarantee above therefore counts the indexes of
  // every table whose name has the same lower-case form.

  predicate NoCaseTwins(s: Snapshot) {
    forall m: nat, n: nat | m < n < |s.indexes| && FoldedTable(s, s.indexes[m]) == FoldedTable(s, s.indexes[n]) ::
      SameTable(s, m, n)
  }

  /** Each foreign key keeps an index of the very table that had one. */
  predicate OwnBackersSurvive(s: Snapshot) {
    forall r, n: nat | r in s.foreignKeys && n < |s.indexes| && Backs(s, n, ConstraintOf(s, r)) :: KeepsOwn(s, r, n)
  }

  predicate KeepsOwn(s: Snapshot, r: ForeignKeyRow, n: nat)
    requires n < |s.indexes|
  {
    exists k: nat | k < |s.indexes| && SameTable(s, k, n) && Backs(s, k, ConstraintOf(s, r)) :: !IsReported(s, k)
  }

  /** The detector has reason to report the index as unused, but for what other
      indexes and the foreign keys say. */
  predicate LooksUnused(s: Snapshot, k: nat)
    requires k < |s.indexes|
  {
    var i := s.indexes[k];
    && s.mature && i.scans == Some(0) && i.lastScan.None? && !SeenInPlans(s, i)
    && !i.Def().unique && i.table != "" && QueriesForTable(s, i.Table()) != []
  }

  /** Some foreign key of the snapshot has the index as its keeper. */
  predicate KeptForForeignKey(s: Snapshot, k: nat) {
    exists r | r in s.foreignKeys ::
      && NeedsKeeper(s, RedundantKeys(s), ConstraintOf(s, r))
      && IsKeeper(s, RedundantKeys(s), k, ConstraintOf(s, r))
  }

  /** Why a table keeps an index of its foreign key: one that backs it does not
      look unused or is a keeper, or is redundant, and then its substitute is
      an index of the table too. */
  predicate HasReasonToStay(s: Snapshot, r: ForeignKeyRow, n: nat)
    requires n < |s.indexes|
  {
    exists k: nat | k < |s.indexes| && SameTable(s, k, n) && Backs(s, k, ConstraintOf(s, r)) ::
      IsRedundant(s, k) || !LooksUnused(s, k) || KeptForForeignKey(s, k)
  }

  lemma KeyNamesPosition(s: Snapshot, m: nat, n: nat)
    requires UniqueNames(s) && m < |s.indexes| && n < |s.indexes| && s.indexes[m].Key() == s.indexes[n].Key()
    ensures m == n
  {
  }

  /** When names identify indexes, an index is reported as unused exactly when it
      looks unused, is not redundant and is the keeper of no foreign key. */
  lemma UnusedExactlyWhen(s: Snapshot, k: nat)
    requires UniqueNames(s) && k < |s.indexes|
    ensures s.indexes[k].Key() in RedundantKeys(s) <==> IsRedundant(s, k)
    ensures IsProtected(s, RedundantKeys(s), s.indexes[k].Key()) <==> KeptForForeignKey(s, k)
    ensures IsUnused(s, k) <==> LooksUnused(s, k) && !IsRedundant(s, k) && !KeptForForeignKey(s, k)
  {
    var dropped, key := RedundantKeys(s), s.indexes[k].Key();
    forall m: nat | m < |s.indexes| && s.indexes[m].Key() == key ensures m == k {
      KeyNamesPosition(s, m, k);
    }
    hide UniqueNames, IsRedundant, NeedsKeeper, IsKeeper;
    forall r | r in s.foreignKeys
      ensures ProtectsFor(s, dropped, ConstraintOf(s, r), key) <==>
        NeedsKeeper(s, dropped, ConstraintOf(s, r)) && IsKeeper(s, dropped, k, ConstraintOf(s, r))
    {
    }
  }

  /** Both duplicates are redundant: a third index covers the one to keep. */
  predicate ThirdCovers(s: Snapshot, m: nat, n: nat) {
    && Comparable(s, m) && Comparable(s, n)
    && exists w: nat | w < |s.indexes| && w != m && w != n :: Covers(s, w, m)
  }

  /** Two exact duplicates are never reported one as redundant and the other as
      unused. */
  lemma DuplicatesReportedAlike(s: Snapshot, m: nat, n: nat)
    requires UniqueNames(s) && IsKeptDuplicate(s, m, n)
    ensures !(IsRedundant(s, m) && IsUnused(s, n)) && !(IsUnused(s, m) && IsRedundant(s, n))
  {
    UnusedExactlyWhen(s, m);
    UnusedExactlyWhen(s, n);
    var a, b := StandingOf(s, s.indexes[m]), StandingOf(s, s.indexes[n]);
    if IsRedundant(s, m) && LooksUnused(s, n) {
      DuplicatesBothRedundantExactlyWhen(s, m, n);
      var w: nat :| w < |s.indexes| && Covers(s, w, m);
      assert w != n;
    } else if LooksUnused(s, m) && IsRedundant(s, n) {
      var w: nat :| w < |s.indexes| && Covers(s, w, n);
      assert w != m && Covers(s, w, m);
    }
  }

  /** Exactly when both of two exact duplicates are reported: a third index covers
      the one to keep, or both look unused and no foreign key keeps either. */
  lemma DuplicatesBothReportedExactlyWhen(s: Snapshot, m: nat, n: nat)
    requires UniqueNames(s) && IsKeptDuplicate(s, m, n)
    ensures IsReported(s, m) && IsReported(s, n) <==>
      || ThirdCovers(s, m, n)
      || (&& LooksUnused(s, m) && !KeptForForeignKey(s, m)
          && LooksUnused(s, n) && !KeptForForeignKey(s, n))
  {
    UnusedExactlyWhen(s, m);
    UnusedExactlyWhen(s, n);
    DuplicatesBothRedundantExactlyWhen(s, m, n);
    DuplicatesReportedAlike(s, m, n);
    hide IsRedundant, LooksUnused, KeptForForeignKey, UniqueNames, Comparable, Covers;
  }

  /** Two exact duplicates that nothing reads. */
  function UnreadDuplicates(fold: string -> string): Snapshot {
    Snapshot([Index("app", "t", "a", Some(0), None, Some(Btree(["x"]))),
              Index("app", "t", "b", Some(0), None, Some(Btree(["x"])))],
             [], [], map[(Some("app"), "t") := ["q"]], fold, true)
  }

  lemma BothUnreadDuplicatesReported(fold: string -> string)
    ensures var s := UnreadDuplicates(fold); IsKeptDuplicate(s, 0, 1) && IsUnused(s, 0) && IsUnused(s, 1)
  {
    var s := UnreadDuplicates(fold);
    assert Precedes("a", "b");
    forall n: nat, w: nat | n < 2 && w < 2 ensures !Covers(s, w, n) {
    }
    UnusedExactlyWhen(s, 0);
    UnusedExactlyWhen(s, 1);
  }

  /** Exactly which foreign keys keep an index of their own table. */
  lemma KeepsOwnExactlyWhen(s: Snapshot, r: ForeignKeyRow, n: nat)
    requires UniqueNames(s) && n < |s.indexes|
    ensures KeepsOwn(s, r, n) <==> HasReasonToStay(s, r, n)
  {
    var c := ConstraintOf(s, r);
    forall k: nat | k < |s.indexes|
      ensures IsReported(s, k) <==> IsRedundant(s, k) || (LooksUnused(s, k) && !KeptForForeignKey(s, k))
    {
      UnusedExactlyWhen(s, k);
    }
    hide IsReported, IsRedundant, LooksUnused, KeptForForeignKey, Backs;
    if k: nat :| k < |s.indexes| && SameTable(s, k, n) && Backs(s, k, c) && IsRedundant(s, k) {
      var kept := RedundantHasKeptSubstitute(s, k);
      SubstituteBacks(s, kept, k, c);
      assert SameTable(s, kept, n);
    }
  }

  /** On each snapshot, tables keep the indexes of their own foreign keys exactly
      when each that has one has one with a reason to stay. */
  lemma OwnBackersSurviveExactlyWhen(s: Snapshot)
    requires UniqueNames(s)
    ensures OwnBackersSurvive(s) <==>
      forall r, n: nat | r in s.foreignKeys && n < |s.indexes| && Backs(s, n, ConstraintOf(s, r)) ::
        HasReasonToStay(s, r, n)
  {
    forall r, n: nat | r in s.foreignKeys && n < |s.indexes| && Backs(s, n, ConstraintOf(s, r))
      ensures KeepsOwn(s, r, n) <==> HasReasonToStay(s, r, n)
    {
      KeepsOwnExactlyWhen(s, r, n);
    }
    hide KeepsOwn, HasReasonToStay, Backs;
  }

  /** A table that loses its index lost it to a table whose name differs only by
      case, which keeps one. */
  lemma LostToCaseTwin(s: Snapshot, r: ForeignKeyRow, n: nat) returns (twin: nat)
    requires UniqueNames(s) && r in s.foreignKeys && n < |s.indexes| && Backs(s, n, ConstraintOf(s, r))
    requires !HasReasonToStay(s, r, n)
    ensures Backs(s, twin, ConstraintOf(s, r)) && !IsReported(s, twin)
    ensures !SameTable(s, twin, n) && FoldedTable(s, s.indexes[twin]) == FoldedTable(s, s.indexes[n])
  {
    twin := ForeignKeysStayBacked(s, r, n);
    KeepsOwnExactlyWhen(s, r, n);
  }

  lemma OwnBackersSurviveWithoutTwins(s: Snapshot)
    requires UniqueNames(s) && NoCaseTwins(s)
    ensures OwnBackersSurvive(s)
  {
    forall r, n: nat | r in s.foreignKeys && n < |s.indexes| && Backs(s, n, ConstraintOf(s, r))
      ensures KeepsOwn(s, r, n)
    {
      var kept := ForeignKeysStayBacked(s, r, n);
      assert SameTable(s, kept, n);
    }
  }

  const TWIN_DEFINITION := Definition(Some("btree"), [Some("k")], false, false)

  /** Two tables with merged names, each with an index on the same column. Only
      the second index is read; the first table has the foreign key. */
  function TwinTables(fold: string -> string, t: string, u: string): Snapshot {
    Snapshot([Index("app", t, "own", Some(0), None, Some(TWIN_DEFINITION)),
              Index("app", u, "twin", Some(5), None, Some(TWIN_DEFINITION))],
             [ForeignKeyRow("app", t, "k", "fk")], [], map[(Some("app"), t) := ["q"]], fold, true)
  }

  lemma TwinsBothBack(fold: string -> string, t: string, u: string)
    requires fold(t) == fold(u)
    ensures var s := TwinTables(fold, t, u);
            var c := ConstraintOf(s, s.foreignKeys[0]); Backs(s, 0, c) && Backs(s, 1, c)
  {
    var s := TwinTables(fold, t, u);
    var c := ConstraintOf(s, s.foreignKeys[0]);
    assert Wanted(s, c) == {Some(fold("k"))};
    var columns := TWIN_DEFINITION.columns;
    assert LeadSet(s, columns, 1) == {FoldColumn(s, columns[0])};
  }

  lemma TwinNotRedundant(fold: string -> string, t: string, u: string)
    requires t != u
    ensures RedundantKeys(TwinTables(fold, t, u)) == {}
  {
    var s := TwinTables(fold, t, u);
    forall n: nat | n < 2 ensures !IsRedundant(s, n) {
      forall w: nat | w < 2 ensures !Covers(s, w, n) {
        assert w == n || !SameTable(s, w, n);
      }
    }
  }

  lemma TwinUnused(fold: string -> string, t: string, u: string)
    requires t != u && t != "" && fold(t) == fold(u)
    ensures IsUnused(TwinTables(fold, t, u), 0)
  {
    var s := TwinTables(fold, t, u);
    TwinNotRedundant(fold, t, u);
    TwinsBothBack(fold, t, u);
    forall r | r in s.foreignKeys ensures !ProtectsFor(s, {}, ConstraintOf(s, r), s.indexes[0].Key()) {
      assert r == s.foreignKeys[0];
      assert IsBacker(s, {}, 1, ConstraintOf(s, r)) && StaysAnyway(s, s.indexes[1]);
    }
  }

  lemma OnlyOwnBackerReported(s: Snapshot, r: ForeignKeyRow, n: nat)
    requires r in s.foreignKeys && n < |s.indexes| && Backs(s, n, ConstraintOf(s, r)) && IsReported(s, n)
    requires forall k: nat | k < |s.indexes| && SameTable(s, k, n) :: k == n
    ensures !OwnBackersSurvive(s)
  {
    assert !KeepsOwn(s, r, n);
  }

  /** Whenever the lower-casing merges two table names, some snapshot makes the
      advice drop the only index of the table that holds the foreign key. */
  lemma CaseTwinsLoseABacker(fold: string -> string, t: string, u: string) returns (s: Snapshot)
    requires t != u && t != "" && fold(t) == fold(u)
    ensures s.fold == fold && UniqueNames(s) && !OwnBackersSurvive(s)
  {
    s := TwinTables(fold, t, u);
    TwinsBothBack(fold, t, u);
    TwinUnused(fold, t, u);
    OnlyOwnBackerReported(s, s.foreignKeys[0], 0);
  }

  predicate MergesNames(fold: string -> string, t: string, u: string) { t != u && fold(t) == fold(u) }

  /** Tables keep the indexes of their own foreign keys, on every snapshot,
      exactly when lower-casing never merges two names. */
  lemma OwnBackersAlwaysSurviveExactlyWhen(fold: string -> string)
    ensures (forall s: Snapshot | s.fold == fold && UniqueNames(s) :: OwnBackersSurvive(s)) <==>
            (forall t, u :: !MergesNames(fold, t, u))
  {
    hide OwnBackersSurvive, UniqueNames;
    if t, u :| MergesNames(fold, t, u) {
      var s := CaseTwinsLoseABacker(fold, if t != "" then t else u, if t != "" then u else t);
    } else {
      forall s: Snapshot | s.fold == fold && UniqueNames(s) ensures OwnBackersSurvive(s) {
        forall m: nat, n: nat | m < n < |s.indexes| && FoldedTable(s, s.indexes[m]) == FoldedTable(s, s.indexes[n])
          ensures SameTable(s, m, n)
        {
          var i, j := s.indexes[m], s.indexes[n];
          assert !MergesNames(fold, i.schema, j.schema) && !MergesNames(fold, i.table, j.table);
        }
        OwnBackersSurviveWithoutTwins(s);
      }
    }
  }
}
