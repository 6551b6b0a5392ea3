/** Following the advice: what the rule reports on the snapshot without the
    reported indexes, and where it ends. */
module UnusedIndexStability {
  import opened Basics
  import opened UnusedIndex
  import opened UnusedIndexSafety

  /** The positions below k that are not reported, in order. */
  function Survivors(s: Snapshot, k: nat): (p: seq<nat>)
    requires k <= |s.indexes|
    ensures forall n: nat :: n in p <==> n < k && !IsReported(s, n)
    ensures Ascending(p)
  {
    if k == 0 then []
    else
      var before := Survivors(s, k - 1);
      if IsReported(s, k - 1) then before
      else
        AscendingGrows(before, k - 1);
        before + [k - 1]
  }

  function Positions(s: Snapshot): seq<nat> { Survivors(s, |s.indexes|) }

  /** The snapshot with every reported index dropped. */
  function Cleaned(s: Snapshot): Snapshot {
    var p := Positions(s);
    s.(indexes := seq(|p|, i requires 0 <= i < |p| => SurvivorAt(s, i)))
  }

  function SurvivorAt(s: Snapshot, i: nat): Index
    requires i < |Positions(s)|
  {
    assert Positions(s)[i] in Positions(s);
    s.indexes[Positions(s)[i]]
  }

  /** Where index i of the cleaned snapshot was. */
  function Origin(s: Snapshot, i: nat): (n: nat)
    requires i < |Cleaned(s).indexes|
    ensures n < |s.indexes| && !IsReported(s, n) && Cleaned(s).indexes[i] == s.indexes[n]
  {
    assert Positions(s)[i] in Positions(s);
    Positions(s)[i]
  }

  lemma OriginAscends(s: Snapshot, i: nat, j: nat)
    requires i < |Cleaned(s).indexes| && j < |Cleaned(s).indexes|
    ensures i < j <==> Origin(s, i) < Origin(s, j)
  {
  }

  lemma OriginFinds(s: Snapshot, n: nat) returns (i: nat)
    requires n < |s.indexes| && !IsReported(s, n)
    ensures i < |Cleaned(s).indexes| && Origin(s, i) == n
  {
    assert n in Positions(s);
    i :| 0 <= i < |Positions(s)| && Positions(s)[i] == n;
  }

  /** What was dropped is exactly what was reported. */
  lemma CleanedKeepsUnreported(s: Snapshot, n: nat)
    requires n < |s.indexes|
    ensures !IsReported(s, n) <==> exists i: nat | i < |Cleaned(s).indexes| :: Origin(s, i) == n
  {
    if !IsReported(s, n) {
      var i := OriginFinds(s, n);
    }
  }

  // ----- what plans cite -----

  // A citation of a dropped index loses its schema, and then counts for every
  // index of that table and name. Dropping an index can so make another one seen.

  /** Index i of the cleaned snapshot is seen in plans, and was not before. */
  predicate IsNewlySeen(s: Snapshot, i: nat) {
    && i < |Cleaned(s).indexes|
    && SeenInPlans(Cleaned(s), Cleaned(s).indexes[i]) && !SeenInPlans(s, Cleaned(s).indexes[i])
  }

  lemma KeptIsThere(s: Snapshot, i: nat)
    requires i < |Cleaned(s).indexes|
    ensures Cleaned(s).indexes[i] in s.indexes && HasIndex(Cleaned(s), Cleaned(s).indexes[i].Key())
  {
    assert s.indexes[Origin(s, i)] in s.indexes && Cleaned(s).indexes[i] in Cleaned(s).indexes;
  }

  lemma DroppedWasThere(s: Snapshot, k: IndexKey)
    requires HasIndex(Cleaned(s), k)
    ensures HasIndex(s, k)
  {
    var i :| 0 <= i < |Cleaned(s).indexes| && Cleaned(s).indexes[i].Key() == k;
    KeptIsThere(s, i);
  }

  /** Nothing stops being seen. */
  lemma StaysSeen(s: Snapshot, i: nat)
    requires i < |Cleaned(s).indexes| && SeenInPlans(s, Cleaned(s).indexes[i])
    ensures SeenInPlans(Cleaned(s), Cleaned(s).indexes[i])
  {
    var x := Cleaned(s).indexes[i];
    KeptIsThere(s, i);
    SeenExactlyWhen(s, x);
    SeenExactlyWhen(Cleaned(s), x);
    var c :| c in s.cited && Means(s, c, x);
    if c.schema.Some? && HasIndex(Cleaned(s), IndexKey(c.schema.value, x.table, x.name)) {
      DroppedWasThere(s, IndexKey(c.schema.value, x.table, x.name));
    }
    assert Means(Cleaned(s), c, x);
  }

  /** A plan cites a reported index of the same table and name in another schema. */
  predicate CitesDropped(s: Snapshot, c: Citation, x: Index) {
    && c.table == x.table && c.index == x.name && c.schema.Some?
    && HasIndex(s, IndexKey(c.schema.value, x.table, x.name))
    && !HasIndex(Cleaned(s), IndexKey(c.schema.value, x.table, x.name))
  }

  /** Exactly the indexes that become seen. */
  lemma NewlySeenExactlyWhen(s: Snapshot, i: nat)
    requires i < |Cleaned(s).indexes|
    ensures var x := Cleaned(s).indexes[i];
      IsNewlySeen(s, i) <==> !SeenInPlans(s, x) && exists c | c in s.cited :: CitesDropped(s, c, x)
  {
    var x := Cleaned(s).indexes[i];
    KeptIsThere(s, i);
    SeenExactlyWhen(s, x);
    SeenExactlyWhen(Cleaned(s), x);
    if IsNewlySeen(s, i) {
      var c :| c in s.cited && Means(Cleaned(s), c, x);
      assert !Means(s, c, x);
      assert CitesDropped(s, c, x);
    }
    if c :| c in s.cited && CitesDropped(s, c, x) {
      assert Means(Cleaned(s), c, x);
    }
  }

  lemma ReadsAfter(s: Snapshot, i: nat)
    requires i < |Cleaned(s).indexes|
    ensures HasReads(Cleaned(s), Cleaned(s).indexes[i]) <==>
      HasReads(s, Cleaned(s).indexes[i]) || IsNewlySeen(s, i)
  {
    if SeenInPlans(s, Cleaned(s).indexes[i]) {
      StaysSeen(s, i);
    }
    hide SeenInPlans;
  }

  // ----- redundancy on the cleaned snapshot -----

  /** A cover that was as much read before was a cover before. */
  lemma CoverWasCover(s: Snapshot, w: nat, j: nat)
    requires w < |Cleaned(s).indexes| && j < |Cleaned(s).indexes|
    requires Covers(Cleaned(s), w, j) && !IsNewlySeen(s, w)
    ensures Covers(s, Origin(s, w), Origin(s, j))
  {
    OriginAscends(s, w, j);
    OriginAscends(s, j, w);
    ReadsAfter(s, w);
    ReadsAfter(s, j);
    hide HasReads, IsNewlySeen, Cleaned, IsReported;
  }

  /** A kept index that a newly seen one covers. */
  predicate BecomesRedundant(s: Snapshot, j: nat) {
    && Comparable(Cleaned(s), j)
    && exists w: nat | w < |Cleaned(s).indexes| && IsNewlySeen(s, w) :: Covers(Cleaned(s), w, j)
  }

  /** Exactly what is redundant on the cleaned snapshot. */
  lemma RedundantAfterExactlyWhen(s: Snapshot, j: nat)
    ensures IsRedundant(Cleaned(s), j) <==> BecomesRedundant(s, j)
  {
    if IsRedundant(Cleaned(s), j) {
      var w: nat :| w < |Cleaned(s).indexes| && Covers(Cleaned(s), w, j);
      if !IsNewlySeen(s, w) {
        CoverWasCover(s, w, j);
        assert IsRedundant(s, Origin(s, j));
      }
    }
  }

  // ----- which foreign keys need a keeper -----

  predicate IsBacked(s: Snapshot, c: Constraint) { exists n: nat | n < |s.indexes| :: Backs(s, n, c) }

  predicate SomeBackerStays(s: Snapshot, c: Constraint) {
    exists n: nat | n < |s.indexes| && Backs(s, n, c) :: StaysAnyway(s, s.indexes[n])
  }

  /** A backer that is redundant has a substitute with reads. */
  lemma RedundantBackerHasReader(s: Snapshot, n: nat, c: Constraint) returns (kept: nat)
    requires s.mature && IsRedundant(s, n) && Backs(s, n, c)
    ensures Backs(s, kept, c) && StaysAnyway(s, s.indexes[kept]) && !IsReported(s, kept)
  {
    kept := RedundantHasKeptSubstitute(s, n);
    SubstituteBacks(s, kept, n, c);
  }

  lemma NotRedundantIsBacker(s: Snapshot, n: nat, c: Constraint)
    requires UniqueNames(s) && n < |s.indexes|
    ensures IsBacker(s, RedundantKeys(s), n, c) <==> Backs(s, n, c) && !IsRedundant(s, n)
  {
    UnusedExactlyWhen(s, n);
    hide IsRedundant, UniqueNames;
  }

  /** In a mature window redundant indexes do not matter: a foreign key needs a
      keeper exactly when it has backers and none of them stays anyway, and then
      none of them is redundant. */
  lemma NeedsKeeperExactlyWhen(s: Snapshot, c: Constraint)
    requires UniqueNames(s) && s.mature
    ensures NeedsKeeper(s, RedundantKeys(s), c) <==> IsBacked(s, c) && !SomeBackerStays(s, c)
    ensures NeedsKeeper(s, RedundantKeys(s), c) ==> forall n: nat | Backs(s, n, c) :: !IsRedundant(s, n)
  {
    var dropped := RedundantKeys(s);
    forall n: nat | n < |s.indexes|
      ensures IsBacker(s, dropped, n, c) <==> Backs(s, n, c) && !IsRedundant(s, n)
      ensures Backs(s, n, c) && IsRedundant(s, n) ==>
        exists k: nat | k < |s.indexes| && Backs(s, k, c) && !IsRedundant(s, k) :: StaysAnyway(s, s.indexes[k])
    {
      NotRedundantIsBacker(s, n, c);
      if Backs(s, n, c) && IsRedundant(s, n) {
        var k := RedundantBackerHasReader(s, n, c);
      }
    }
    hide IsRedundant, RedundantKeys, UniqueNames, StaysAnyway, Backs;
  }

  lemma CleanedKeepsNames(s: Snapshot)
    requires UniqueNames(s)
    ensures UniqueNames(Cleaned(s))
  {
    forall i: nat, j: nat | i < j < |Cleaned(s).indexes|
      ensures Cleaned(s).indexes[i].Key() != Cleaned(s).indexes[j].Key()
    {
      OriginAscends(s, i, j);
      assert s.indexes[Origin(s, i)].Key() != s.indexes[Origin(s, j)].Key();
    }
  }

  lemma KeptBacks(s: Snapshot, i: nat, c: Constraint)
    requires i < |Cleaned(s).indexes|
    ensures Backs(Cleaned(s), i, c) <==> Backs(s, Origin(s, i), c)
  {
    assert Wanted(Cleaned(s), c) == Wanted(s, c);
    var columns := s.indexes[Origin(s, i)].Def().columns;
    if |columns| >= |Wanted(s, c)| {
      assert LeadSet(Cleaned(s), columns, |Wanted(s, c)|) == LeadSet(s, columns, |Wanted(s, c)|);
    }
  }

  /** A kept backer of the foreign key becomes seen. */
  predicate BackerNewlySeen(s: Snapshot, c: Constraint) {
    exists i: nat | i < |Cleaned(s).indexes| :: Backs(s, Origin(s, i), c) && IsNewlySeen(s, i)
  }

  lemma BackersAfter(s: Snapshot, r: ForeignKeyRow)
    requires UniqueNames(s) && s.mature && r in s.foreignKeys
    ensures IsBacked(Cleaned(s), ConstraintOf(s, r)) <==> IsBacked(s, ConstraintOf(s, r))
    ensures SomeBackerStays(Cleaned(s), ConstraintOf(s, r)) <==>
      SomeBackerStays(s, ConstraintOf(s, r)) || BackerNewlySeen(s, ConstraintOf(s, r))
  {
    var c, after := ConstraintOf(s, r), Cleaned(s);
    forall i: nat | i < |after.indexes|
      ensures Backs(after, i, c) <==> Backs(s, Origin(s, i), c)
      ensures StaysAnyway(after, after.indexes[i]) <==> StaysAnyway(s, s.indexes[Origin(s, i)]) || IsNewlySeen(s, i)
    {
      KeptBacks(s, i, c);
      ReadsAfter(s, i);
    }
    forall n: nat | n < |s.indexes| && Backs(s, n, c)
      ensures exists i: nat | i < |after.indexes| ::
        Backs(s, Origin(s, i), c) && (StaysAnyway(s, s.indexes[n]) ==> StaysAnyway(s, s.indexes[Origin(s, i)]))
    {
      var kept := n;
      if IsRedundant(s, n) {
        kept := RedundantBackerHasReader(s, n, c);
      } else if !StaysAnyway(s, s.indexes[n]) {
        kept := ForeignKeysStayBacked(s, r, n);
      }
      var i := OriginFinds(s, kept);
    }
    hide Backs, StaysAnyway, IsNewlySeen, UniqueNames, IsReported;
  }

  /** Exactly the foreign keys that need a keeper on the cleaned snapshot. */
  lemma NeedsKeeperAfterExactlyWhen(s: Snapshot, r: ForeignKeyRow)
    requires UniqueNames(s) && s.mature && r in s.foreignKeys
    ensures var c := ConstraintOf(s, r);
      NeedsKeeper(Cleaned(s), RedundantKeys(Cleaned(s)), c) <==>
        NeedsKeeper(s, RedundantKeys(s), c) && !BackerNewlySeen(s, c)
  {
    var c := ConstraintOf(s, r);
    CleanedKeepsNames(s);
    NeedsKeeperExactlyWhen(s, c);
    NeedsKeeperExactlyWhen(Cleaned(s), c);
    BackersAfter(s, r);
    hide *;
  }

  /** Where a keeper is still needed, it is the same one. */
  lemma KeeperStaysKeeper(s: Snapshot, r: ForeignKeyRow, i: nat)
    requires UniqueNames(s) && s.mature && r in s.foreignKeys && i < |Cleaned(s).indexes|
    requires NeedsKeeper(Cleaned(s), RedundantKeys(Cleaned(s)), ConstraintOf(s, r))
    ensures IsKeeper(Cleaned(s), RedundantKeys(Cleaned(s)), i, ConstraintOf(s, r)) <==>
      IsKeeper(s, RedundantKeys(s), Origin(s, i), ConstraintOf(s, r))
  {
    if IsKeeper(s, RedundantKeys(s), Origin(s, i), ConstraintOf(s, r)) {
      KeeperIsKept(s, r, i);
    } else if IsKeeper(Cleaned(s), RedundantKeys(Cleaned(s)), i, ConstraintOf(s, r)) {
      var k := KeeperWas(s, r);
      hide *;
      SameKeeper(Cleaned(s), RedundantKeys(Cleaned(s)), ConstraintOf(s, r), k, i);
    }
  }

  lemma KeeperWas(s: Snapshot, r: ForeignKeyRow) returns (k: nat)
    requires UniqueNames(s) && s.mature && r in s.foreignKeys
    requires NeedsKeeper(Cleaned(s), RedundantKeys(Cleaned(s)), ConstraintOf(s, r))
    ensures k < |Cleaned(s).indexes|
    ensures IsKeeper(s, RedundantKeys(s), Origin(s, k), ConstraintOf(s, r))
    ensures IsKeeper(Cleaned(s), RedundantKeys(Cleaned(s)), k, ConstraintOf(s, r))
  {
    var c, dropped := ConstraintOf(s, r), RedundantKeys(s);
    NeedsKeeperAfterExactlyWhen(s, r);
    var some: nat :| some < |s.indexes| && IsBacker(s, dropped, some, c);
    var n := Weigh(s, dropped, c, some);
    UnusedExactlyWhen(s, n);
    assert KeptForForeignKey(s, n);
    hide NeedsKeeper, IsKeeper, UniqueNames, Positions, RedundantKeys;
    k := OriginFinds(s, n);
    KeeperIsKept(s, r, k);
  }

  lemma SameKeeper(s: Snapshot, dropped: set<IndexKey>, c: Constraint, m: nat, n: nat)
    requires m < |s.indexes| && n < |s.indexes| && IsKeeper(s, dropped, m, c) && IsKeeper(s, dropped, n, c)
    ensures m == n
  {
  }

  lemma KeeperIsKept(s: Snapshot, r: ForeignKeyRow, i: nat)
    requires UniqueNames(s) && s.mature && r in s.foreignKeys && i < |Cleaned(s).indexes|
    requires NeedsKeeper(Cleaned(s), RedundantKeys(Cleaned(s)), ConstraintOf(s, r))
    requires IsKeeper(s, RedundantKeys(s), Origin(s, i), ConstraintOf(s, r))
    ensures IsKeeper(Cleaned(s), RedundantKeys(Cleaned(s)), i, ConstraintOf(s, r))
  {
    var c, after := ConstraintOf(s, r), Cleaned(s);
    CleanedKeepsNames(s);
    NeedsKeeperAfterExactlyWhen(s, r);
    NeedsKeeperExactlyWhen(s, c);
    NeedsKeeperExactlyWhen(after, c);
    forall j: nat | j < |after.indexes|
      ensures IsBacker(after, RedundantKeys(after), j, c) <==> IsBacker(s, RedundantKeys(s), Origin(s, j), c)
      ensures i < j <==> Origin(s, i) < Origin(s, j)
      ensures j < i <==> Origin(s, j) < Origin(s, i)
    {
      KeptBacks(s, j, c);
      NotRedundantIsBacker(s, Origin(s, j), c);
      NotRedundantIsBacker(after, j, c);
      OriginAscends(s, i, j);
      OriginAscends(s, j, i);
    }
    hide IsBacker, Backs, IsRedundant, RedundantKeys, UniqueNames, Positions, Narrower, NeedsKeeper;
  }

  // ----- what is reported on the cleaned snapshot -----

  /** A kept index that looks unused, and every foreign key that kept it has now
      another backer that is seen. */
  predicate LosesKeeper(s: Snapshot, i: nat) {
    && i < |Cleaned(s).indexes| && LooksUnused(s, Origin(s, i)) && !IsNewlySeen(s, i)
    && forall r | r in s.foreignKeys && IsKeptFor(s, r, Origin(s, i)) :: BackerNewlySeen(s, ConstraintOf(s, r))
  }

  predicate IsKeptFor(s: Snapshot, r: ForeignKeyRow, n: nat) {
    && NeedsKeeper(s, RedundantKeys(s), ConstraintOf(s, r))
    && IsKeeper(s, RedundantKeys(s), n, ConstraintOf(s, r))
  }

  lemma KeptForAfterExactlyWhen(s: Snapshot, r: ForeignKeyRow, i: nat)
    requires UniqueNames(s) && s.mature && r in s.foreignKeys && i < |Cleaned(s).indexes|
    ensures IsKeptFor(Cleaned(s), r, i) <==>
      IsKeptFor(s, r, Origin(s, i)) && !BackerNewlySeen(s, ConstraintOf(s, r))
  {
    assert ConstraintOf(Cleaned(s), r) == ConstraintOf(s, r);
    NeedsKeeperAfterExactlyWhen(s, r);
    if NeedsKeeper(Cleaned(s), RedundantKeys(Cleaned(s)), ConstraintOf(s, r)) {
      KeeperStaysKeeper(s, r, i);
    }
    hide NeedsKeeper, IsKeeper, BackerNewlySeen, RedundantKeys;
  }

  lemma LooksUnusedAfterExactlyWhen(s: Snapshot, i: nat)
    requires i < |Cleaned(s).indexes|
    ensures LooksUnused(Cleaned(s), i) <==> LooksUnused(s, Origin(s, i)) && !IsNewlySeen(s, i)
  {
    if SeenInPlans(s, Cleaned(s).indexes[i]) {
      StaysSeen(s, i);
    }
    hide SeenInPlans;
  }

  /** Exactly what is unused on the cleaned snapshot. */
  lemma UnusedAfterExactlyWhen(s: Snapshot, i: nat)
    requires UniqueNames(s)
    ensures IsUnused(Cleaned(s), i) <==> LosesKeeper(s, i) && !BecomesRedundant(s, i)
  {
    if i < |Cleaned(s).indexes| {
      CleanedKeepsNames(s);
      UnusedExactlyWhen(Cleaned(s), i);
      LooksUnusedAfterExactlyWhen(s, i);
      RedundantAfterExactlyWhen(s, i);
      if s.mature {
        forall r | r in s.foreignKeys
          ensures IsKeptFor(Cleaned(s), r, i) <==>
            IsKeptFor(s, r, Origin(s, i)) && !BackerNewlySeen(s, ConstraintOf(s, r))
        {
          KeptForAfterExactlyWhen(s, r, i);
        }
      }
      assert KeptForForeignKey(Cleaned(s), i) <==> exists r | r in s.foreignKeys :: IsKeptFor(Cleaned(s), r, i);
      hide IsKeptFor, BackerNewlySeen, IsUnused, IsRedundant, UniqueNames, BecomesRedundant, KeptForForeignKey;
    }
  }

  /** Run again on the snapshot without the reported indexes, the rule reports
      exactly what a newly seen index covers or takes the keeping from. */
  lemma ReportedAfterExactlyWhen(s: Snapshot, i: nat)
    requires UniqueNames(s)
    ensures IsReported(Cleaned(s), i) <==> BecomesRedundant(s, i) || LosesKeeper(s, i)
  {
    RedundantAfterExactlyWhen(s, i);
    UnusedAfterExactlyWhen(s, i);
    hide IsRedundant, IsUnused, BecomesRedundant, LosesKeeper;
  }

  /** Where no plan cites a reported index whose table and name another one has in
      another schema, it reports nothing. */
  lemma AdviceSettles(s: Snapshot, i: nat)
    requires UniqueNames(s) && forall w: nat :: !IsNewlySeen(s, w)
    ensures !IsReported(Cleaned(s), i)
  {
    ReportedAfterExactlyWhen(s, i);
    if i < |Cleaned(s).indexes| {
      UnusedExactlyWhen(s, Origin(s, i));
      assert KeptForForeignKey(s, Origin(s, i)) <==> exists r | r in s.foreignKeys :: IsKeptFor(s, r, Origin(s, i));
    }
    hide IsKeptFor, IsNewlySeen, UniqueNames, Covers, LooksUnused, Backs;
  }

  // ----- advice that does not settle at once -----

  lemma ReportedIsGone(s: Snapshot, n: nat)
    requires UniqueNames(s) && IsReported(s, n) && n < |s.indexes|
    ensures !HasIndex(Cleaned(s), s.indexes[n].Key())
  {
    forall i | 0 <= i < |Cleaned(s).indexes| ensures Cleaned(s).indexes[i].Key() != s.indexes[n].Key() {
      if Cleaned(s).indexes[i].Key() == s.indexes[n].Key() {
        KeyNamesPosition(s, Origin(s, i), n);
      }
    }
  }

  /** A citation of a reported index makes a kept one of that table and name seen. */
  lemma BecomesSeen(s: Snapshot, w: nat, n: nat)
    requires UniqueNames(s) && n < |s.indexes| && IsReported(s, n) && w < |Cleaned(s).indexes|
    requires var i, x := s.indexes[n], Cleaned(s).indexes[w];
      && i.table == x.table && i.name == x.name && !SeenInPlans(s, x)
      && Citation(Some(i.schema), i.table, i.name) in s.cited
    ensures IsNewlySeen(s, w)
  {
    var i := s.indexes[n];
    ReportedIsGone(s, n);
    assert HasIndex(s, i.Key()) by { assert i in s.indexes; }
    assert CitesDropped(s, Citation(Some(i.schema), i.table, i.name), Cleaned(s).indexes[w]);
    hide Cleaned, IsReported, UniqueNames, SeenInPlans, CitesDropped, IsNewlySeen;
    NewlySeenExactlyWhen(s, w);
  }

  /** Two schemas with a table of the same name. A plan cites index k of the first,
      which w covers; k of the second, unique and never read, covers n but for its
      reads. */
  function SameNameInTwoSchemas(fold: string -> string): Snapshot {
    Snapshot([Index("a", "t", "k", Some(1), None, Some(Btree(["x"]))),
              Index("a", "t", "w", Some(1), None, Some(Btree(["x", "y"]))),
              Index("b", "t", "k", Some(0), None, Some(Btree(["x", "y"]).(unique := true))),
              Index("b", "t", "n", Some(1), None, Some(Btree(["x"])))],
             [], [Citation(Some("a"), "t", "k")], map[(Some("a"), "t") := ["q"], (Some("b"), "t") := ["q"]], fold, true)
  }

  lemma SameNameReportsFirst(fold: string -> string)
    ensures var s := SameNameInTwoSchemas(fold);
      && UniqueNames(s) && !SeenInPlans(s, s.indexes[2])
      && IsReported(s, 0) && !IsReported(s, 1) && !IsReported(s, 2) && !IsReported(s, 3)
  {
    var s := SameNameInTwoSchemas(fold);
    assert HasIndex(s, s.indexes[0].Key()) by { assert s.indexes[0] in s.indexes; }
    assert s.indexes[2] in s.indexes;
    SeenExactlyWhen(s, s.indexes[2]);
    assert s.indexes[0].Def().columns < s.indexes[1].Def().columns;
    assert Covers(s, 1, 0);
    assert s.indexes[1].Def().columns == [Some("x"), Some("y")] && s.indexes[3].Def().columns == [Some("x")];
    forall w: nat | w < 4 ensures !Covers(s, w, 1) && !Covers(s, w, 3) {
    }
  }

  /** Without the reported index the plan counts for k of the second schema. */
  lemma SameNameSeesSecond(fold: string -> string, w: nat)
    requires var s := SameNameInTwoSchemas(fold); w < |Cleaned(s).indexes| && Origin(s, w) == 2
    ensures IsNewlySeen(SameNameInTwoSchemas(fold), w)
  {
    SameNameReportsFirst(fold);
    BecomesSeen(SameNameInTwoSchemas(fold), w, 0);
  }

  /** The first run reports just k of the first schema, and the rerun reports n as
      redundant. */
  lemma AdviceNotSettled(fold: string -> string) returns (j: nat)
    ensures var s := SameNameInTwoSchemas(fold);
      && UniqueNames(s) && (forall n: nat | n < |s.indexes| :: IsReported(s, n) <==> n == 0)
      && j < |Cleaned(s).indexes| && Origin(s, j) == 3 && IsRedundant(Cleaned(s), j)
  {
    var s := SameNameInTwoSchemas(fold);
    SameNameFacts(fold);
    hide *;
    var w := OriginFinds(s, 2);
    j := OriginFinds(s, 3);
    SameNameSeesSecond(fold, w);
    ReadsAfter(s, w);
    NarrowIsCovered(Cleaned(s), w, j, s.indexes[2], s.indexes[3]) by { CleanedHasTraffic(s); }
    RedundantIfCovered(Cleaned(s), w, j);
  }

  lemma SameNameFacts(fold: string -> string)
    ensures var s := SameNameInTwoSchemas(fold);
      && |s.indexes| == 4 && UniqueNames(s) && (forall n: nat | n < 4 :: IsReported(s, n) <==> n == 0)
      && s.indexes[2] == Index("b", "t", "k", Some(0), None, Some(Btree(["x", "y"]).(unique := true)))
      && s.indexes[3] == Index("b", "t", "n", Some(1), None, Some(Btree(["x"])))
      && (Some("b"), "t") in s.traffic && s.traffic[(Some("b"), "t")] != []
  {
    SameNameReportsFirst(fold);
    hide UniqueNames, IsReported;
  }

  lemma CleanedHasTraffic(s: Snapshot)
    ensures Cleaned(s).traffic == s.traffic
  {
  }

  lemma RedundantIfCovered(s: Snapshot, w: nat, j: nat)
    requires w < |s.indexes| && j < |s.indexes| && Comparable(s, j) && Covers(s, w, j)
    ensures IsRedundant(s, j)
  {
  }

  lemma NarrowIsCovered(s: Snapshot, w: nat, j: nat, wide: Index, narrow: Index)
    requires w < |s.indexes| && j < |s.indexes| && s.indexes[w] == wide && s.indexes[j] == narrow
    requires wide == Index("b", "t", "k", Some(0), None, Some(Btree(["x", "y"]).(unique := true))) && HasReads(s, wide)
    requires narrow == Index("b", "t", "n", Some(1), None, Some(Btree(["x"])))
    requires (Some("b"), "t") in s.traffic && s.traffic[(Some("b"), "t")] != []
    ensures Comparable(s, j) && Covers(s, w, j)
  {
    assert wide.Def().columns == [Some("x"), Some("y")] && narrow.Def().columns == [Some("x")];
    hide HasReads;
  }

  /** Here k and l of the second schema back its foreign key, and neither is read:
      l is kept for it. The counter of k is unknown. */
  function KeeperAndSameName(): Snapshot {
    Snapshot([Index("a", "t", "k", Some(1), None, Some(Btree(["x"]))),
              Index("a", "t", "w", Some(1), None, Some(Btree(["x", "y"]))),
              Index("b", "t", "k", None, None, Some(Btree(["y", "x", "z"]))),
              Index("b", "t", "l", Some(0), None, Some(Btree(["x", "y"])))],
             [ForeignKeyRow("b", "t", "x", "fk"), ForeignKeyRow("b", "t", "y", "fk")], [Citation(Some("a"), "t", "k")],
             map[(Some("a"), "t") := ["q"], (Some("b"), "t") := ["q"]], (n: string) => n, true)
  }

  lemma BackersOfSecond()
    ensures var s := KeeperAndSameName();
      var c := ConstraintOf(s, s.foreignKeys[0]);
      forall n: nat | n < 4 :: Backs(s, n, c) <==> n == 2 || n == 3
  {
    var s := KeeperAndSameName();
    var c := ConstraintOf(s, s.foreignKeys[0]);
    assert s.foreignKeys[0] in s.foreignKeys && s.foreignKeys[1] in s.foreignKeys;
    assert Wanted(s, c) == {Some("x"), Some("y")};
    forall n: nat | n == 2 || n == 3 ensures LeadSet(s, s.indexes[n].Def().columns, 2) == {Some("x"), Some("y")} {
      var columns := s.indexes[n].Def().columns;
      assert LeadSet(s, columns, 2) == {FoldColumn(s, columns[0]), FoldColumn(s, columns[1])};
    }
  }

  lemma SecondIsUnread()
    ensures var s := KeeperAndSameName();
      && |s.indexes| == 4 && UniqueNames(s) && LooksUnused(s, 3) && !LooksUnused(s, 2)
      && !HasReads(s, s.indexes[2]) && !HasReads(s, s.indexes[3])
  {
    var s := KeeperAndSameName();
    assert HasIndex(s, s.indexes[0].Key()) by { assert s.indexes[0] in s.indexes; }
    assert s.indexes[2] in s.indexes && s.indexes[3] in s.indexes;
    SeenExactlyWhen(s, s.indexes[2]);
    SeenExactlyWhen(s, s.indexes[3]);
    hide SeenInPlans;
  }

  lemma FirstIsRedundant()
    ensures var s := KeeperAndSameName(); IsRedundant(s, 0) && !IsRedundant(s, 2) && !IsRedundant(s, 3)
  {
    var s := KeeperAndSameName();
    assert s.indexes[0].Def().columns < s.indexes[1].Def().columns;
    hide SeenInPlans;
    assert Covers(s, 1, 0);
    assert s.indexes[2].Def().columns == [Some("y"), Some("x"), Some("z")];
    assert s.indexes[3].Def().columns == [Some("x"), Some("y")];
    assert s.indexes[2].Def().columns[0] != s.indexes[3].Def().columns[0];
    forall w: nat | w < 4 ensures !Covers(s, w, 2) && !Covers(s, w, 3) {
    }
  }

  lemma KeeperOfSecond()
    ensures var s := KeeperAndSameName(); !IsReported(s, 2) && !IsReported(s, 3)
  {
    var s := KeeperAndSameName();
    var r := s.foreignKeys[0];
    var c := ConstraintOf(s, r);
    BackersOfSecond();
    SecondIsUnread();
    FirstIsRedundant();
    forall n: nat | n < 4 ensures IsBacker(s, RedundantKeys(s), n, c) <==> n == 2 || n == 3 {
      NotRedundantIsBacker(s, n, c);
    }
    hide HasReads, Backs, IsRedundant, RedundantKeys, UniqueNames;
    assert Narrower(s.indexes[3], s.indexes[2]) && !Narrower(s.indexes[2], s.indexes[3]);
    assert IsKeptFor(s, r, 3);
    assert KeptForForeignKey(s, 3);
    hide LooksUnused, KeptForForeignKey;
    UnusedExactlyWhen(s, 2);
    UnusedExactlyWhen(s, 3);
  }

  /** Without the reported index k of the second schema is seen, the foreign key
      needs no keeper any more, and the rerun reports l. */
  lemma KeeperNotSettled() returns (j: nat)
    ensures var s := KeeperAndSameName();
      UniqueNames(s) && j < |Cleaned(s).indexes| && Origin(s, j) == 3 && LosesKeeper(s, j) && IsReported(Cleaned(s), j)
  {
    var s := KeeperAndSameName();
    KeeperFacts();
    hide *;
    var w := OriginFinds(s, 2);
    j := OriginFinds(s, 3);
    BecomesSeen(s, w, 0);
    NotCited(s, j);
    KeeperIsLost(s, j, w, s.foreignKeys[0]);
    ReportedAfterExactlyWhen(s, j);
  }

  lemma KeeperFacts()
    ensures var s := KeeperAndSameName();
      && |s.indexes| == 4 && UniqueNames(s) && IsReported(s, 0) && !IsReported(s, 2) && !IsReported(s, 3)
      && LooksUnused(s, 3) && !SeenInPlans(s, s.indexes[2])
    ensures var s := KeeperAndSameName();
      && |s.foreignKeys| > 0 && Backs(s, 2, ConstraintOf(s, s.foreignKeys[0]))
      && forall r | r in s.foreignKeys :: ConstraintOf(s, r) == ConstraintOf(s, s.foreignKeys[0])
    ensures var s := KeeperAndSameName();
      && s.indexes[0].table == s.indexes[2].table && s.indexes[0].name == s.indexes[2].name
      && Citation(Some(s.indexes[0].schema), s.indexes[0].table, s.indexes[0].name) in s.cited
      && forall c | c in s.cited :: c.index != s.indexes[3].name
  {
    SecondIsUnread();
    FirstIsRedundant();
    KeeperOfSecond();
    BackersOfSecond();
    SecondIsCitedInFirst();
    hide LooksUnused, Backs, UniqueNames, IsRedundant, SeenInPlans;
  }

  lemma SecondIsCitedInFirst()
    ensures var s := KeeperAndSameName();
      && s.indexes[0].table == s.indexes[2].table && s.indexes[0].name == s.indexes[2].name
      && Citation(Some(s.indexes[0].schema), s.indexes[0].table, s.indexes[0].name) in s.cited
      && forall c | c in s.cited :: c.index != s.indexes[3].name
  {
    var s := KeeperAndSameName();
    assert s.cited[0] == Citation(Some(s.indexes[0].schema), s.indexes[0].table, s.indexes[0].name);
  }

  lemma KeeperIsLost(s: Snapshot, i: nat, w: nat, r: ForeignKeyRow)
    requires i < |Cleaned(s).indexes| && LooksUnused(s, Origin(s, i)) && !IsNewlySeen(s, i)
    requires w < |Cleaned(s).indexes| && Backs(s, Origin(s, w), ConstraintOf(s, r)) && IsNewlySeen(s, w)
    requires forall q | q in s.foreignKeys :: ConstraintOf(s, q) == ConstraintOf(s, r)
    ensures LosesKeeper(s, i)
  {
    hide Cleaned, LooksUnused, IsNewlySeen, Backs, ConstraintOf;
    assert BackerNewlySeen(s, ConstraintOf(s, r));
  }

  lemma NotCited(s: Snapshot, j: nat)
    requires j < |Cleaned(s).indexes| && forall c | c in s.cited :: c.index != Cleaned(s).indexes[j].name
    ensures !IsNewlySeen(s, j)
  {
    NewlySeenExactlyWhen(s, j);
  }

  // ----- following the advice again and again -----

  function CleanedTimes(s: Snapshot, n: nat): Snapshot
    decreases n
  {
    if n == 0 then s else CleanedTimes(Cleaned(s), n - 1)
  }

  lemma {:induction false} FewerSurvive(s: Snapshot, k: nat, n: nat)
    requires n < k <= |s.indexes| && IsReported(s, n)
    ensures |Survivors(s, k)| < k
  {
    hide IsReported;
    if n < k - 1 {
      FewerSurvive(s, k - 1, n);
    } else {
      AtMostSurvive(s, k - 1);
    }
  }

  lemma {:induction false} AtMostSurvive(s: Snapshot, k: nat)
    requires k <= |s.indexes|
    ensures |Survivors(s, k)| <= k
  {
    hide IsReported;
    if k > 0 {
      AtMostSurvive(s, k - 1);
    }
  }

  /** Followed again and again the advice ends, after no more rounds than there are
      indexes. */
  lemma {:induction false} AdviceEnds(s: Snapshot) returns (rounds: nat)
    ensures rounds <= |s.indexes| && forall i: nat :: !IsReported(CleanedTimes(s, rounds), i)
    decreases |s.indexes|
  {
    forall n: nat | IsReported(s, n) ensures n < |s.indexes| && |Cleaned(s).indexes| < |s.indexes| {
      FewerSurvive(s, |s.indexes|, n);
    }
    hide IsReported, Cleaned;
    if n: nat :| n < |s.indexes| && IsReported(s, n) {
      rounds := AdviceEnds(Cleaned(s));
      rounds := rounds + 1;
    } else {
      rounds := 0;
    }
  }

  /** And all along each foreign key that had an index still has one. */
  lemma {:induction false} ForeignKeysStayBackedAllAlong(s: Snapshot, r: ForeignKeyRow, rounds: nat)
    requires UniqueNames(s) && r in s.foreignKeys && IsBacked(s, ConstraintOf(s, r))
    ensures IsBacked(CleanedTimes(s, rounds), ConstraintOf(s, r))
    decreases rounds
  {
    if rounds > 0 {
      var n: nat :| n < |s.indexes| && Backs(s, n, ConstraintOf(s, r));
      var kept := ForeignKeysStayBacked(s, r, n);
      var i := OriginFinds(s, kept);
      KeptBacks(s, i, ConstraintOf(s, r));
      CleanedKeepsNames(s);
      assert ConstraintOf(Cleaned(s), r) == ConstraintOf(s, r);
      ForeignKeysStayBackedAllAlong(Cleaned(s), r, rounds - 1);
    }
  }
}
