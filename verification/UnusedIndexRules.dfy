/** What the advice says of an index, told from the indexes, foreign keys, plans
    and traffic themselves. */
module UnusedIndexRules {
  import opened Basics
  import opened UnusedIndex
  import opened UnusedIndexSafety
  import opened UnusedIndexStability

  // ----- unique indexes -----

  predicate IsUnique(i: Index) { i.ref.Some? && i.ref.value.unique }

  /** The advice never drops a uniqueness constraint. */
  lemma UniqueIsNeverReported(s: Snapshot, n: nat)
    requires IsReported(s, n)
    ensures n < |s.indexes| && !IsUnique(s.indexes[n])
  {
  }

  lemma UniqueStays(s: Snapshot, n: nat)
    requires n < |s.indexes| && IsUnique(s.indexes[n])
    ensures exists i: nat | i < |Cleaned(s).indexes| :: Origin(s, i) == n
  {
    if IsReported(s, n) {
      UniqueIsNeverReported(s, n);
    }
    CleanedKeepsUnreported(s, n);
  }

  // ----- reads and traffic -----

  /** The counter, the last scan or a plan tells that the index is read. */
  predicate IsRead(s: Snapshot, i: Index) {
    || (i.scans.Some? && i.scans != Some(0))
    || i.lastScan != None
    || exists c | c in s.cited :: Means(s, c, i)
  }

  lemma ReadExactlyWhen(s: Snapshot, i: Index)
    requires i in s.indexes
    ensures HasReads(s, i) <==> IsRead(s, i)
  {
    SeenExactlyWhen(s, i);
    hide SeenInPlans, Means;
  }

  /** Some query filtered the table: the queries of its schema count, and only
      when the schema is not listed those of an unknown one. */
  predicate IsFiltered(s: Snapshot, schema: string, table: string) {
    var key := if (Some(schema), table) in s.traffic then (Some(schema), table) else (None, table);
    key in s.traffic && |s.traffic[key]| > 0
  }

  // ----- redundant -----

  predicate LeadsWith(wide: seq<Option<string>>, narrow: seq<Option<string>>) {
    |narrow| < |wide| && forall k | 0 <= k < |narrow| :: wide[k] == narrow[k]
  }

  /** The worth of a duplicate: unique first, then read, then how often. */
  function Worth(s: Snapshot, i: Index): (int, int, int) {
    (if IsUnique(i) then 1 else 0, if IsRead(s, i) then 1 else 0, if i.scans.Some? then i.scans.value else 0)
  }

  predicate IsWorthMore(a: (int, int, int), b: (int, int, int)) {
    a.0 > b.0 || (a.0 == b.0 && (a.1 > b.1 || (a.1 == b.1 && a.2 > b.2)))
  }

  /** With w in place n is not needed. */
  predicate MakesNeedless(s: Snapshot, w: nat, n: nat)
    requires w < |s.indexes| && n < |s.indexes| && s.indexes[n].ref.Some?
  {
    var a, b := s.indexes[w], s.indexes[n];
    && w != n && a.schema == b.schema && a.table == b.table && a.ref.Some?
    && a.ref.value.access == b.ref.value.access && !a.ref.value.partial
    && (s.mature ==> IsRead(s, a))
    && (|| LeadsWith(a.ref.value.columns, b.ref.value.columns)
        || (&& a.ref.value.columns == b.ref.value.columns && !b.ref.value.partial
            && (|| IsWorthMore(Worth(s, a), Worth(s, b))
                || (Worth(s, a) == Worth(s, b) && Precedes(a.name, b.name)))))
  }

  lemma CoversExactlyWhen(s: Snapshot, w: nat, n: nat)
    requires w < |s.indexes| && n < |s.indexes| && s.indexes[n].ref.Some? && s.indexes[n].table != ""
    ensures Covers(s, w, n) <==> MakesNeedless(s, w, n)
    ensures ExactDuplicate(s, w, n) && Covers(s, w, n) ==>
      s.indexes[w].Def().columns == s.indexes[n].Def().columns
  {
    assert s.indexes[w] in s.indexes && s.indexes[n] in s.indexes;
    ReadExactlyWhen(s, s.indexes[w]);
    ReadExactlyWhen(s, s.indexes[n]);
    hide HasReads, IsRead;
  }

  /** Exactly the redundant indexes: readable, plain, not unique, of a filtered
      table, and needless next to another index of it. */
  lemma RedundantExactlyWhen(s: Snapshot, n: nat)
    requires n < |s.indexes|
    ensures var i := s.indexes[n];
      IsRedundant(s, n) <==>
        && i.table != "" && i.ref.Some? && IsFiltered(s, i.schema, i.table)
        && !i.ref.value.unique && |i.ref.value.columns| > 0
        && (forall k | 0 <= k < |i.ref.value.columns| :: i.ref.value.columns[k].Some?)
        && exists w: nat | w < |s.indexes| :: MakesNeedless(s, w, n)
  {
    if s.indexes[n].ref.Some? && s.indexes[n].table != "" {
      forall w: nat | w < |s.indexes| ensures Covers(s, w, n) <==> MakesNeedless(s, w, n) {
        CoversExactlyWhen(s, w, n);
      }
      hide Covers, MakesNeedless;
    }
  }

  /** What a finding of redundancy names: the first index that makes its own
      needless, and whether it is a duplicate. */
  lemma ExplanationHolds(s: Snapshot, f: Redundancy)
    requires Explains(s, f)
    ensures f.narrow < |s.indexes| && f.cover < |s.indexes| && s.indexes[f.narrow].ref.Some?
    ensures MakesNeedless(s, f.cover, f.narrow)
    ensures forall w: nat | w < f.cover :: !MakesNeedless(s, w, f.narrow)
    ensures f.exact <==> s.indexes[f.cover].Def().columns == s.indexes[f.narrow].Def().columns
  {
    forall w: nat | w < |s.indexes| ensures Covers(s, w, f.narrow) <==> MakesNeedless(s, w, f.narrow) {
      CoversExactlyWhen(s, w, f.narrow);
    }
  }

  /** An index reported as an exact duplicate is worth no more than its cover: not
      unique, not read when the cover is unread and, where both are alike unique
      and read, with no more scans. */
  lemma DuplicateIsWorthLess(s: Snapshot, f: Redundancy)
    requires Explains(s, f) && f.exact
    ensures f.narrow < |s.indexes| && f.cover < |s.indexes|
    ensures var a, b := s.indexes[f.cover], s.indexes[f.narrow];
      && !IsUnique(b)
      && (!IsUnique(a) && IsRead(s, b) ==> IsRead(s, a))
      && (!IsUnique(a) && b.scans.Some? && b.scans.value > 0 && (IsRead(s, a) <==> IsRead(s, b)) ==>
            a.scans.Some? && a.scans.value >= b.scans.value)
  {
    ExplanationHolds(s, f);
    hide IsRead;
  }

  // ----- foreign keys -----

  /** The columns of a foreign key, lower-cased. */
  function KeyColumns(s: Snapshot, r: ForeignKeyRow): set<string> {
    set q | q in s.foreignKeys && IsSameKey(s, q, r) :: s.fold(q.column)
  }

  predicate IsSameKey(s: Snapshot, q: ForeignKeyRow, r: ForeignKeyRow) {
    s.fold(q.schema) == s.fold(r.schema) && s.fold(q.table) == s.fold(r.table) && q.constraint == r.constraint
  }

  predicate IsKeyColumn(s: Snapshot, r: ForeignKeyRow, c: Option<string>) {
    c.Some? && c.value != "" && s.fold(c.value) in KeyColumns(s, r)
  }

  /** The index holds every row of the table, and its first columns, as many as
      the foreign key has, are those of the foreign key in any order. */
  predicate ServesKey(s: Snapshot, i: Index, r: ForeignKeyRow) {
    && i.ref.Some? && !i.ref.value.partial
    && s.fold(i.schema) == s.fold(r.schema) && s.fold(i.table) == s.fold(r.table)
    && var columns, m := i.ref.value.columns, |KeyColumns(s, r)|;
    && m <= |columns|
    && (forall k | 0 <= k < m :: IsKeyColumn(s, r, columns[k]))
    && forall x | x in KeyColumns(s, r) :: IsAmong(s, columns[..m], x)
  }

  predicate IsAmong(s: Snapshot, columns: seq<Option<string>>, x: string) {
    exists c | c in columns :: c.Some? && c.value != "" && s.fold(c.value) == x
  }

  lemma WantedAreKeyColumns(s: Snapshot, r: ForeignKeyRow)
    ensures forall x :: x in Wanted(s, ConstraintOf(s, r)) <==> x.Some? && x.value in KeyColumns(s, r)
    ensures |Wanted(s, ConstraintOf(s, r))| == |KeyColumns(s, r)|
  {
    SameSize(KeyColumns(s, r), Wanted(s, ConstraintOf(s, r)));
  }

  lemma {:induction false} SameSize(xs: set<string>, ys: set<Option<string>>)
    requires forall y :: y in ys <==> y.Some? && y.value in xs
    ensures |ys| == |xs|
    decreases xs
  {
    if x :| x in xs {
      assert Some(x) in ys;
      SameSize(xs - {x}, ys - {Some(x)});
    } else {
      assert xs == {} && forall y :: y !in ys;
      assert ys == {};
    }
  }

  /** Exactly the indexes that back a foreign key. */
  lemma BacksExactlyWhen(s: Snapshot, n: nat, r: ForeignKeyRow)
    requires n < |s.indexes| && r in s.foreignKeys
    ensures Backs(s, n, ConstraintOf(s, r)) <==> ServesKey(s, s.indexes[n], r)
  {
    var c, columns, m := ConstraintOf(s, r), s.indexes[n].Def().columns, |KeyColumns(s, r)|;
    WantedAreKeyColumns(s, r);
    assert s.fold(r.column) in KeyColumns(s, r);
    if m <= |columns| {
      LeadSetExactlyWhen(s, columns, r);
    }
    hide KeyColumns, Wanted, IsAmong, IsKeyColumn, LeadSet;
  }

  lemma LeadSetExactlyWhen(s: Snapshot, columns: seq<Option<string>>, r: ForeignKeyRow)
    requires |KeyColumns(s, r)| <= |columns| && s.fold(r.column) in KeyColumns(s, r)
    ensures var m := |KeyColumns(s, r)|;
      LeadSet(s, columns, m) == Wanted(s, ConstraintOf(s, r)) <==>
        && (forall k | 0 <= k < m :: IsKeyColumn(s, r, columns[k]))
        && (forall x | x in KeyColumns(s, r) :: IsAmong(s, columns[..m], x))
  {
    var m, wanted := |KeyColumns(s, r)|, Wanted(s, ConstraintOf(s, r));
    WantedAreKeyColumns(s, r);
    hide KeyColumns, Wanted;
    var lead := LeadSet(s, columns, m);
    forall k | 0 <= k < m ensures FoldColumn(s, columns[k]) in lead {
    }
    forall x ensures Some(x) in lead <==> IsAmong(s, columns[..m], x) {
      if Some(x) in lead {
        var k :| 0 <= k < m && FoldColumn(s, columns[k]) == Some(x);
        assert columns[k] in columns[..m];
      }
    }
    if (forall k | 0 <= k < m :: IsKeyColumn(s, r, columns[k]))
      && (forall x | x in KeyColumns(s, r) :: IsAmong(s, columns[..m], x))
    {
      assert lead == wanted;
    }
  }

  /** Exactly the foreign keys that need a keeper: some index left backs them, and
      none of those is unique or read. */
  lemma NeedsKeeperWhen(s: Snapshot, redundant: set<IndexKey>, r: ForeignKeyRow)
    requires r in s.foreignKeys
    ensures NeedsKeeper(s, redundant, ConstraintOf(s, r)) <==>
      && (exists i | i in s.indexes :: IsLeft(s, redundant, i, r))
      && (forall i | i in s.indexes && IsLeft(s, redundant, i, r) :: !IsUnique(i) && !IsRead(s, i))
  {
    var c := ConstraintOf(s, r);
    forall n: nat | n < |s.indexes|
      ensures s.indexes[n] in s.indexes
      ensures IsBacker(s, redundant, n, c) <==> IsLeft(s, redundant, s.indexes[n], r)
      ensures StaysAnyway(s, s.indexes[n]) <==> IsUnique(s.indexes[n]) || IsRead(s, s.indexes[n])
    {
      BacksExactlyWhen(s, n, r);
      ReadExactlyWhen(s, s.indexes[n]);
    }
    hide IsBacker, IsLeft, StaysAnyway, IsUnique, IsRead;
  }

  predicate IsLeft(s: Snapshot, redundant: set<IndexKey>, i: Index, r: ForeignKeyRow) {
    ServesKey(s, i, r) && IndexKey(i.schema, i.table, i.name) !in redundant
  }

  /** The keeper is the narrowest of them, then the first by name. */
  lemma KeeperIsNarrowest(s: Snapshot, redundant: set<IndexKey>, r: ForeignKeyRow, n: nat, m: nat)
    requires r in s.foreignKeys && IsKeeper(s, redundant, n, ConstraintOf(s, r))
    requires m < |s.indexes| && IsLeft(s, redundant, s.indexes[m], r)
    ensures n < |s.indexes| && IsLeft(s, redundant, s.indexes[n], r)
    ensures var a, b := s.indexes[n], s.indexes[m];
      && |a.ref.value.columns| <= |b.ref.value.columns|
      && (|a.ref.value.columns| == |b.ref.value.columns| && a.name != b.name ==> Precedes(a.name, b.name))
  {
    var a, b := s.indexes[n], s.indexes[m];
    BacksExactlyWhen(s, n, r);
    BacksExactlyWhen(s, m, r);
    PrecedesTrichotomy(a.name, b.name);
    hide ServesKey, Backs;
  }

  // ----- unused -----

  /** Exactly the unused indexes, when names identify indexes. */
  lemma UnusedIsIdle(s: Snapshot, n: nat)
    requires UniqueNames(s) && n < |s.indexes|
    ensures var i := s.indexes[n];
      IsUnused(s, n) <==>
        && s.mature && i.scans == Some(0) && !IsRead(s, i) && !IsUnique(i)
        && i.table != "" && IsFiltered(s, i.schema, i.table)
        && !IsRedundant(s, n) && !KeptForForeignKey(s, n)
  {
    var i := s.indexes[n];
    assert i in s.indexes;
    UnusedExactlyWhen(s, n);
    SeenExactlyWhen(s, i);
    hide SeenInPlans, Means, IsRedundant, KeptForForeignKey, UniqueNames;
  }
}
