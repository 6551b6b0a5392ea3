/** AP-05: which indexes of a snapshot are reported as redundant or unused.
    The model starts after index definitions have been read, so an index
    carries its access method, its columns and its flags. */
module UnusedIndex {
  import opened Basics

  // ----- data -----

  /** What the text of an index says. A column is None when it is an
      expression. */
  datatype Definition = Definition(
    access: Option<string>, columns: seq<Option<string>>, unique: bool, partial: bool)

  const UNREADABLE := Definition(None, [], false, false)

  datatype IndexKey = IndexKey(schema: string, table: string, name: string)

  datatype TableKey = TableKey(schema: string, table: string)

  datatype Index = Index(
    schema: string, table: string, name: string,
    scans: Option<int>, lastScan: Option<Instant>, ref: Option<Definition>)
  {
    function Def(): Definition { if ref.Some? then ref.value else UNREADABLE }
    function Key(): IndexKey { IndexKey(schema, table, name) }
    function Table(): TableKey { TableKey(schema, table) }
  }

  /** An index named by a captured plan; without a schema when it is not known
      which schema the plan reads. */
  datatype Citation = Citation(schema: Option<string>, table: string, index: string)

  /** One column of a foreign key. */
  datatype ForeignKeyRow = ForeignKeyRow(schema: string, table: string, column: string, constraint: string)

  datatype Constraint = Constraint(schema: string, table: string, name: string)

  /** What the detector reads. `cited` are the indexes that plans name, with the
      schema of the query, `fold` is the lower-casing of names, `traffic` the
      queries that filtered each table in the window, and `mature` says that the
      statistics window is long enough to trust a zero. */
  datatype Snapshot = Snapshot(
    indexes: seq<Index>, foreignKeys: seq<ForeignKeyRow>, cited: seq<Citation>,
    traffic: map<(Option<string>, string), seq<string>>, fold: string -> string, mature: bool)

  /** Index objects are told apart by their position in the snapshot. */
  datatype Redundancy = Redundancy(narrow: nat, cover: nat, exact: bool)

  datatype Finding = Redundant(r: Redundancy) | Unused(index: nat)

  // ----- reads and traffic -----

  predicate HasIndex(s: Snapshot, k: IndexKey) { exists i | i in s.indexes :: i.Key() == k }

  /** A citation keeps its schema only if that schema has the index: a query may
      read a table of another one. */
  function Resolve(s: Snapshot, c: Citation): Citation {
    if c.schema.Some? && HasIndex(s, IndexKey(c.schema.value, c.table, c.index)) then c else c.(schema := None)
  }

  function UsedKeys(s: Snapshot): set<Citation> { set c | c in s.cited :: Resolve(s, c) }

  /** The loop over the operations of the plans. */
  method UsedIndexKeys(s: Snapshot) returns (used: set<Citation>)
    ensures used == UsedKeys(s)
  {
    used := {};
    for k := 0 to |s.cited|
      invariant forall u :: u in used <==> exists a | 0 <= a < k :: Resolve(s, s.cited[a]) == u
    {
      var c := s.cited[k];
      var isThere := c.schema.Some? && HasIndex(s, IndexKey(c.schema.value, c.table, c.index));
      var key := if isThere then c else Citation(None, c.table, c.index);
      assert key == Resolve(s, c);
      hide Resolve;
      used := used + {key};
    }
  }

  predicate SeenInPlans(s: Snapshot, i: Index) {
    || Citation(Some(i.schema), i.table, i.name) in UsedKeys(s)
    || Citation(None, i.table, i.name) in UsedKeys(s)
  }

  /** The citation names the index in its schema, or names its table and name
      without a schema or in one that has no such index. */
  predicate Means(s: Snapshot, c: Citation, i: Index) {
    && c.table == i.table && c.index == i.name
    && (|| c.schema == Some(i.schema) || c.schema.None?
        || !HasIndex(s, IndexKey(c.schema.value, i.table, i.name)))
  }

  lemma SeenExactlyWhen(s: Snapshot, i: Index)
    requires i in s.indexes
    ensures SeenInPlans(s, i) <==> exists c | c in s.cited :: Means(s, c, i)
  {
    assert HasIndex(s, i.Key());
    if c :| c in s.cited && Means(s, c, i) {
      assert Resolve(s, c) in UsedKeys(s);
    }
  }

  predicate HasReads(s: Snapshot, i: Index) {
    (i.scans.Some? && i.scans.value != 0) || i.lastScan.Some? || SeenInPlans(s, i)
  }

  function QueriesForTable(s: Snapshot, t: TableKey): seq<string> {
    if (Some(t.schema), t.table) in s.traffic then s.traffic[(Some(t.schema), t.table)]
    else if (None, t.table) in s.traffic then s.traffic[(None, t.table)]
    else []
  }

  // ----- which of two exact duplicates stays -----

  datatype Standing = Standing(unique: bool, read: bool, scans: int, name: string)

  function StandingOf(s: Snapshot, i: Index): Standing {
    Standing(i.Def().unique, HasReads(s, i), if i.scans.Some? then i.scans.value else 0, i.name)
  }

  predicate KeepsOver(keeper: Standing, other: Standing) {
    if keeper.unique != other.unique then keeper.unique
    else if keeper.read != other.read then keeper.read
    else if keeper.scans != other.scans then keeper.scans > other.scans
    else Precedes(keeper.name, other.name)
  }

  lemma KeepsOverTransitive(a: Standing, b: Standing, c: Standing)
    requires KeepsOver(a, b) && KeepsOver(b, c)
    ensures KeepsOver(a, c)
  {
    if Precedes(a.name, b.name) && Precedes(b.name, c.name) {
      PrecedesTransitive(a.name, b.name, c.name);
    }
  }

  /** No index is kept over itself, and of two duplicates with different names
      exactly one is kept over the other. */
  lemma KeepsOverIsStrictTotal(a: Standing, b: Standing)
    ensures !KeepsOver(a, a)
    ensures a.name != b.name ==> (KeepsOver(a, b) <==> !KeepsOver(b, a))
  {
    PrecedesTrichotomy(a.name, a.name);
    PrecedesTrichotomy(a.name, b.name);
  }

  // ----- redundant indexes -----

  predicate Grouped(s: Snapshot, n: nat) {
    n < |s.indexes| && s.indexes[n].table != "" && s.indexes[n].ref.Some?
  }

  predicate SameTable(s: Snapshot, m: nat, n: nat)
    requires m < |s.indexes| && n < |s.indexes|
  {
    s.indexes[m].Table() == s.indexes[n].Table()
  }

  predicate ExactDuplicate(s: Snapshot, w: nat, n: nat)
    requires w < |s.indexes| && n < |s.indexes|
  {
    var wide, narrow := s.indexes[w], s.indexes[n];
    && wide.Def().columns == narrow.Def().columns
    && !narrow.Def().partial
    && KeepsOver(StandingOf(s, wide), StandingOf(s, narrow))
  }

  predicate WiderPrefix(s: Snapshot, w: nat, n: nat)
    requires w < |s.indexes| && n < |s.indexes|
  {
    s.indexes[n].Def().columns < s.indexes[w].Def().columns
  }

  /** w is an acceptable cover of n. With a mature window the cover must have
      reads. */
  predicate Covers(s: Snapshot, w: nat, n: nat)
    requires n < |s.indexes|
  {
    && Grouped(s, w) && w != n && SameTable(s, w, n)
    && s.indexes[w].Def().access == s.indexes[n].Def().access
    && !s.indexes[w].Def().partial
    && (s.mature ==> HasReads(s, s.indexes[w]))
    && (ExactDuplicate(s, w, n) || WiderPrefix(s, w, n))
  }

  predicate Comparable(s: Snapshot, n: nat) {
    && Grouped(s, n)
    && QueriesForTable(s, s.indexes[n].Table()) != []
    && s.indexes[n].Def().columns != []
    && None !in s.indexes[n].Def().columns
    && !s.indexes[n].Def().unique
  }

  predicate IsRedundant(s: Snapshot, n: nat) {
    Comparable(s, n) && exists w: nat | w < |s.indexes| :: Covers(s, w, n)
  }

  /** f names the first cover of its index, and says whether it is a duplicate. */
  predicate Explains(s: Snapshot, f: Redundancy) {
    && Comparable(s, f.narrow)
    && Covers(s, f.cover, f.narrow)
    && (forall w: nat | w < f.cover :: !Covers(s, w, f.narrow))
    && f.exact == ExactDuplicate(s, f.cover, f.narrow)
  }

  /** Findings come table by table, the table seen first in front, and in
      snapshot order within a table. */
  predicate InReportOrder(s: Snapshot, m: nat, n: nat) {
    && m < |s.indexes| && n < |s.indexes|
    && if SameTable(s, m, n) then m < n
       else exists h: nat | h < |s.indexes| :: Grouped(s, h) && SameTable(s, h, m) && Opens(s, h, n)
  }

  /** Position h comes before every index of the table of n. */
  predicate Opens(s: Snapshot, h: nat, n: nat)
    requires n < |s.indexes|
  {
    forall k: nat | k < |s.indexes| && Grouped(s, k) && SameTable(s, k, n) :: h < k
  }

  predicate Ascending(p: seq<nat>) { forall a, b | 0 <= a < b < |p| :: p[a] < p[b] }

  lemma AscendingGrows(p: seq<nat>, k: nat)
    requires Ascending(p) && forall n | n in p :: n < k
    ensures Ascending(p + [k]) && forall n :: n in p + [k] <==> n in p || n == k
  {
    assert forall a | 0 <= a < |p| :: p[a] in p;
  }

  predicate IsMember(s: Snapshot, n: nat, upTo: nat, t: TableKey) {
    n < upTo && Grouped(s, n) && s.indexes[n].Table() == t
  }

  /** p lists, in order, the indexes of table t among the first upTo. */
  ghost predicate IsGroup(s: Snapshot, upTo: nat, t: TableKey, p: seq<nat>) {
    p != [] && Ascending(p) && forall n: nat :: n in p <==> IsMember(s, n, upTo, t)
  }

  lemma GroupGrows(s: Snapshot, k: nat, t: TableKey, p: seq<nat>)
    requires IsMember(s, k, k + 1, t)
    requires if p == [] then forall n: nat :: !IsMember(s, n, k, t) else IsGroup(s, k, t, p)
    ensures IsGroup(s, k + 1, t, p + [k])
  {
    forall n: nat ensures n in p + [k] <==> IsMember(s, n, k + 1, t) {
      assert IsMember(s, n, k + 1, t) <==> IsMember(s, n, k, t) || n == k;
    }
    forall a | 0 <= a < |p| ensures p[a] < k {
      assert p[a] in p;
    }
  }

  predicate StartsBefore(groups: map<TableKey, seq<nat>>, t: TableKey, u: TableKey) {
    && t in groups && u in groups && groups[t] != [] && groups[u] != []
    && groups[t][0] < groups[u][0]
  }

  ghost predicate GroupsUpTo(s: Snapshot, k: nat, order: seq<TableKey>, groups: map<TableKey, seq<nat>>) {
    && (forall t :: t in groups <==> t in order)
    && (forall t | t in groups :: IsGroup(s, k, t, groups[t]))
    && (forall n: nat | n < k && Grouped(s, n) :: s.indexes[n].Table() in groups)
    && (forall a, b | 0 <= a < b < |order| :: StartsBefore(groups, order[a], order[b]))
  }

  lemma GroupsStep(s: Snapshot, k: nat, order: seq<TableKey>, groups: map<TableKey, seq<nat>>)
    requires GroupsUpTo(s, k, order, groups) && Grouped(s, k)
    ensures
      var t := s.indexes[k].Table();
      GroupsUpTo(s, k + 1, if t in groups then order else order + [t],
                 groups[t := (if t in groups then groups[t] else []) + [k]])
  {
    var t := s.indexes[k].Table();
    var group := if t in groups then groups[t] else [];
    var after := groups[t := group + [k]];
    GroupGrows(s, k, t, group);
    forall u | u in after ensures IsGroup(s, k + 1, u, after[u]) {
      assert u != t ==> forall n: nat :: IsMember(s, n, k + 1, u) <==> IsMember(s, n, k, u);
    }
    StartsKept(s, k, order, groups);
  }

  lemma GroupsSkip(s: Snapshot, k: nat, order: seq<TableKey>, groups: map<TableKey, seq<nat>>)
    requires GroupsUpTo(s, k, order, groups) && !Grouped(s, k)
    ensures GroupsUpTo(s, k + 1, order, groups)
  {
    assert forall n: nat, t :: IsMember(s, n, k + 1, t) <==> IsMember(s, n, k, t);
  }

  lemma StartsKept(s: Snapshot, k: nat, order: seq<TableKey>, groups: map<TableKey, seq<nat>>)
    requires GroupsUpTo(s, k, order, groups) && Grouped(s, k)
    ensures
      var t := s.indexes[k].Table();
      var group := if t in groups then groups[t] else [];
      var order' := if t in groups then order else order + [t];
      forall a, b | 0 <= a < b < |order'| :: StartsBefore(groups[t := group + [k]], order'[a], order'[b])
  {
    forall u | u in groups ensures groups[u] != [] && groups[u][0] < k {
      assert groups[u][0] in groups[u];
      assert IsMember(s, groups[u][0], k, u);
    }
    forall a | 0 <= a < |order| ensures order[a] in groups {}
    forall a, b | 0 <= a < b < |order| ensures StartsBefore(groups, order[a], order[b]) {}
  }

  /** The indexes of each table, tables in order of first appearance. */
  method GroupByTable(s: Snapshot) returns (order: seq<TableKey>, groups: map<TableKey, seq<nat>>)
    ensures GroupsUpTo(s, |s.indexes|, order, groups)
  {
    order, groups := [], map[];
    assert GroupsUpTo(s, 0, order, groups);
    hide GroupsUpTo;
    for k := 0 to |s.indexes|
      invariant GroupsUpTo(s, k, order, groups)
    {
      if Grouped(s, k) {
        GroupsStep(s, k, order, groups);
        var t := s.indexes[k].Table();
        order, groups := if t in groups then order else order + [t],
          groups[t := (if t in groups then groups[t] else []) + [k]];
      } else {
        GroupsSkip(s, k, order, groups);
      }
    }
  }

  /** The search loop over one table for a cover of n. */
  method FindCover(s: Snapshot, group: seq<nat>, n: nat) returns (wider: Option<nat>, exact: bool)
    requires n < |s.indexes| && IsGroup(s, |s.indexes|, s.indexes[n].Table(), group)
    ensures wider.None? ==> forall w: nat | w < |s.indexes| :: !Covers(s, w, n)
    ensures wider.Some? ==>
      && Covers(s, wider.value, n) && (forall w: nat | w < wider.value :: !Covers(s, w, n))
      && exact == ExactDuplicate(s, wider.value, n)
  {
    wider, exact := None, false;
    var t := s.indexes[n].Table();
    for k := 0 to |group|
      invariant forall a | 0 <= a < k :: !Covers(s, group[a], n)
      invariant wider.None? && !exact
    {
      var w := group[k];
      assert IsMember(s, w, |s.indexes|, t);
      if w == n { continue; }
      var wide, narrow := s.indexes[w], s.indexes[n];
      if wide.Def().access != narrow.Def().access || wide.Def().partial { continue; }
      if s.mature && !HasReads(s, wide) { continue; }
      if ExactDuplicate(s, w, n) {
        wider, exact := Some(w), true;
      } else if |wide.Def().columns| > |narrow.Def().columns|
             && wide.Def().columns[..|narrow.Def().columns|] == narrow.Def().columns {
        wider := Some(w);
      }
      if wider.Some? {
        forall v: nat | v < w ensures !Covers(s, v, n) {
          assert Covers(s, v, n) ==> IsMember(s, v, |s.indexes|, t);
        }
        return;
      }
    }
    forall w: nat | w < |s.indexes| ensures !Covers(s, w, n) {
      assert Covers(s, w, n) ==> IsMember(s, w, |s.indexes|, t);
    }
  }

  lemma EarlierTableFirst(s: Snapshot, groups: map<TableKey, seq<nat>>, order: seq<TableKey>, t: nat, m: nat, n: nat)
    requires t < |order| && m < |s.indexes| && n < |s.indexes|
    requires forall u | u in groups :: IsGroup(s, |s.indexes|, u, groups[u])
    requires forall a, b | 0 <= a < b < |order| :: StartsBefore(groups, order[a], order[b])
    requires s.indexes[m].Table() in order[..t] && s.indexes[n].Table() == order[t]
    ensures InReportOrder(s, m, n)
  {
    var a :| 0 <= a < t && order[a] == s.indexes[m].Table();
    assert StartsBefore(groups, order[a], order[t]);
    var h := groups[order[a]][0];
    assert h in groups[order[a]];
    assert IsMember(s, h, |s.indexes|, order[a]);
    forall k: nat | k < |s.indexes| && Grouped(s, k) && SameTable(s, k, n) ensures h < k {
      assert IsMember(s, k, |s.indexes|, order[t]);
    }
    assert Opens(s, h, n);
  }

  predicate Listed(findings: seq<Redundancy>, n: nat) {
    exists f | f in findings :: f.narrow == n
  }

  /** The verdict on one index of a table that some query filters. */
  method Judge(s: Snapshot, group: seq<nat>, n: nat) returns (r: Option<Redundancy>)
    requires Grouped(s, n) && IsGroup(s, |s.indexes|, s.indexes[n].Table(), group)
    requires QueriesForTable(s, s.indexes[n].Table()) != []
    ensures r.Some? <==> IsRedundant(s, n)
    ensures r.Some? ==> Explains(s, r.value) && r.value.narrow == n
  {
    var narrow := s.indexes[n].Def();
    if narrow.columns == [] || None in narrow.columns { return None; }
    if narrow.unique { return None; }
    var wider, exact := FindCover(s, group, n);
    r := if wider.Some? then Some(Redundancy(n, wider.value, exact)) else None;
  }

  lemma ListedGrows(before: seq<Redundancy>, more: seq<Redundancy>, n: nat)
    ensures Listed(before + more, n) <==> Listed(before, n) || Listed(more, n)
  {
    assert forall f :: f in before + more <==> f in before || f in more;
  }

  /** The redundant indexes of one table. */
  method ScanTable(s: Snapshot, t: TableKey, group: seq<nat>) returns (found: seq<Redundancy>)
    requires IsGroup(s, |s.indexes|, t, group) && QueriesForTable(s, t) != []
    ensures forall f | f in found :: Explains(s, f) && f.narrow in group
    ensures forall n | n in group :: Listed(found, n) <==> IsRedundant(s, n)
    ensures forall a, b | 0 <= a < b < |found| :: found[a].narrow < found[b].narrow
  {
    found := [];
    hide IsRedundant, Explains;
    for k := 0 to |group|
      invariant forall f | f in found :: Explains(s, f) && f.narrow in group[..k]
      invariant forall a | 0 <= a < k :: Listed(found, group[a]) <==> IsRedundant(s, group[a])
      invariant forall a, b | 0 <= a < b < |found| :: found[a].narrow < found[b].narrow
    {
      assert IsMember(s, group[k], |s.indexes|, t);
      var r := Judge(s, group, group[k]);
      if r.Some? {
        forall n: nat ensures Listed(found + [r.value], n) <==> Listed(found, n) || n == group[k] {
          ListedGrows(found, [r.value], n);
        }
        found := found + [r.value];
      }
    }
  }

  /** The redundant indexes of the first t tables have been reported. */
  ghost predicate Scanned(s: Snapshot, order: seq<TableKey>, t: nat, findings: seq<Redundancy>)
    requires t <= |order|
  {
    && (forall f | f in findings :: Explains(s, f) && s.indexes[f.narrow].Table() in order[..t])
    && (forall n: nat | IsRedundant(s, n) && s.indexes[n].Table() in order[..t] :: Listed(findings, n))
    && (forall a, b | 0 <= a < b < |findings| :: InReportOrder(s, findings[a].narrow, findings[b].narrow))
  }

  lemma ScannedStep(s: Snapshot, order: seq<TableKey>, groups: map<TableKey, seq<nat>>, t: nat,
      findings: seq<Redundancy>, found: seq<Redundancy>)
    requires t < |order| && GroupsUpTo(s, |s.indexes|, order, groups) && Scanned(s, order, t, findings)
    requires forall f | f in found :: Explains(s, f) && f.narrow in groups[order[t]]
    requires forall n | n in groups[order[t]] :: Listed(found, n) <==> IsRedundant(s, n)
    requires forall a, b | 0 <= a < b < |found| :: found[a].narrow < found[b].narrow
    ensures Scanned(s, order, t + 1, findings + found)
  {
    var group := groups[order[t]];
    assert forall n: nat :: n in group <==> IsMember(s, n, |s.indexes|, order[t]);
    assert order[..t + 1] == order[..t] + [order[t]];
    forall n: nat | IsRedundant(s, n) && s.indexes[n].Table() in order[..t + 1] ensures Listed(findings + found, n) {
      assert s.indexes[n].Table() == order[t] ==> n in group;
      ListedGrows(findings, found, n);
    }
    forall f, g | f in findings && g in found ensures InReportOrder(s, f.narrow, g.narrow) {
      assert g.narrow in group;
      EarlierTableFirst(s, groups, order, t, f.narrow, g.narrow);
    }
    forall a, b | 0 <= a < b < |found| ensures InReportOrder(s, found[a].narrow, found[b].narrow) {
      assert found[a] in found && found[b] in found;
      assert found[a].narrow in group && found[b].narrow in group;
    }
    assert forall f :: f in findings + found <==> f in findings || f in found;
    InOrderConcat(s, findings, found);
  }

  lemma InOrderConcat(s: Snapshot, x: seq<Redundancy>, y: seq<Redundancy>)
    requires forall a, b | 0 <= a < b < |x| :: InReportOrder(s, x[a].narrow, x[b].narrow)
    requires forall a, b | 0 <= a < b < |y| :: InReportOrder(s, y[a].narrow, y[b].narrow)
    requires forall f, g | f in x && g in y :: InReportOrder(s, f.narrow, g.narrow)
    ensures forall a, b | 0 <= a < b < |x + y| :: InReportOrder(s, (x + y)[a].narrow, (x + y)[b].narrow)
  {
    hide InReportOrder;
    forall a, b | 0 <= a < b < |x + y| ensures InReportOrder(s, (x + y)[a].narrow, (x + y)[b].narrow) {
      if a < |x| <= b {
        assert x[a] in x && y[b - |x|] in y;
      }
    }
  }

  method DetectRedundant(s: Snapshot) returns (findings: seq<Redundancy>)
    ensures forall f | f in findings :: Explains(s, f)
    ensures forall n: nat :: Listed(findings, n) <==> IsRedundant(s, n)
    ensures forall a, b | 0 <= a < b < |findings| :: InReportOrder(s, findings[a].narrow, findings[b].narrow)
  {
    var order, groups := GroupByTable(s);
    findings := [];
    for t := 0 to |order|
      invariant Scanned(s, order, t, findings)
    {
      var group, found := groups[order[t]], [];
      if QueriesForTable(s, order[t]) == [] {
        NothingReported(s, order[t], group);
      } else {
        found := ScanTable(s, order[t], group);
      }
      ScannedStep(s, order, groups, t, findings, found);
      findings := findings + found;
    }
    ScannedAll(s, order, groups, findings);
  }

  lemma NothingReported(s: Snapshot, t: TableKey, group: seq<nat>)
    requires IsGroup(s, |s.indexes|, t, group) && QueriesForTable(s, t) == []
    ensures forall n | n in group :: !IsRedundant(s, n)
  {
    assert forall n | n in group :: IsMember(s, n, |s.indexes|, t);
  }

  lemma ScannedAll(s: Snapshot, order: seq<TableKey>, groups: map<TableKey, seq<nat>>, findings: seq<Redundancy>)
    requires GroupsUpTo(s, |s.indexes|, order, groups) && Scanned(s, order, |order|, findings)
    ensures forall n: nat :: Listed(findings, n) <==> IsRedundant(s, n)
  {
    assert order[..|order|] == order;
  }

  // ----- foreign keys -----

  function ConstraintOf(s: Snapshot, r: ForeignKeyRow): Constraint {
    Constraint(s.fold(r.schema), s.fold(r.table), r.constraint)
  }

  function FoldColumn(s: Snapshot, c: Option<string>): Option<string> {
    if c.Some? && c.value != "" then Some(s.fold(c.value)) else None
  }

  /** The columns of a foreign key, lower-cased. */
  function Wanted(s: Snapshot, c: Constraint): set<Option<string>> {
    set r | r in s.foreignKeys && ConstraintOf(s, r) == c :: Some(s.fold(r.column))
  }

  function LeadSet(s: Snapshot, columns: seq<Option<string>>, m: nat): set<Option<string>>
    requires m <= |columns|
  {
    set k | 0 <= k < m :: FoldColumn(s, columns[k])
  }

  function FoldedTable(s: Snapshot, i: Index): TableKey { TableKey(s.fold(i.schema), s.fold(i.table)) }

  /** The first columns of the index are those of the foreign key, in any
      order, and the index holds every row of the table. */
  predicate Backs(s: Snapshot, n: nat, c: Constraint) {
    && n < |s.indexes|
    && var i := s.indexes[n];
    && !i.Def().partial
    && FoldedTable(s, i) == TableKey(c.schema, c.table)
    && |i.Def().columns| >= |Wanted(s, c)|
    && LeadSet(s, i.Def().columns, |Wanted(s, c)|) == Wanted(s, c)
  }

  predicate IsBacker(s: Snapshot, redundant: set<IndexKey>, n: nat, c: Constraint) {
    Backs(s, n, c) && s.indexes[n].Key() !in redundant
  }

  /** An index that stays whether or not a foreign key needs it. */
  predicate StaysAnyway(s: Snapshot, i: Index) { i.Def().unique || HasReads(s, i) }

  predicate NeedsKeeper(s: Snapshot, redundant: set<IndexKey>, c: Constraint) {
    && (exists n: nat | n < |s.indexes| :: IsBacker(s, redundant, n, c))
    && (forall n: nat | n < |s.indexes| && IsBacker(s, redundant, n, c) :: !StaysAnyway(s, s.indexes[n]))
  }

  predicate Narrower(a: Index, b: Index) {
    || |a.Def().columns| < |b.Def().columns|
    || (|a.Def().columns| == |b.Def().columns| && Precedes(a.name, b.name))
  }

  /** n is the narrowest backer of c, the first of them on a tie. */
  predicate IsKeeper(s: Snapshot, redundant: set<IndexKey>, n: nat, c: Constraint) {
    && IsBacker(s, redundant, n, c)
    && forall m: nat | m < |s.indexes| && IsBacker(s, redundant, m, c) && m != n ::
      if m < n then Narrower(s.indexes[n], s.indexes[m]) else !Narrower(s.indexes[m], s.indexes[n])
  }

  predicate IsProtected(s: Snapshot, redundant: set<IndexKey>, k: IndexKey) {
    exists r | r in s.foreignKeys :: ProtectsFor(s, redundant, ConstraintOf(s, r), k)
  }

  predicate ProtectsFor(s: Snapshot, redundant: set<IndexKey>, c: Constraint, k: IndexKey) {
    && NeedsKeeper(s, redundant, c)
    && exists n: nat | n < |s.indexes| :: IsKeeper(s, redundant, n, c) && s.indexes[n].Key() == k
  }

  lemma NarrowerIsWeakOrder(a: Index, b: Index, c: Index)
    requires Narrower(a, b)
    ensures !Narrower(b, a)
    ensures Narrower(b, c) ==> Narrower(a, c)
    ensures !Narrower(c, b) ==> Narrower(a, c)
  {
    PrecedesTrichotomy(a.name, b.name);
    PrecedesTrichotomy(b.name, c.name);
    if Precedes(a.name, b.name) && Precedes(b.name, c.name) {
      PrecedesTransitive(a.name, b.name, c.name);
    }
  }

  /** The narrowest of the backers, as `min` picks it. */
  method Narrowest(s: Snapshot, backers: seq<nat>) returns (best: nat)
    requires backers != [] && Ascending(backers) && forall k | 0 <= k < |backers| :: backers[k] < |s.indexes|
    ensures best in backers
    ensures forall m | m in backers && m != best ::
      if m < best then Narrower(s.indexes[best], s.indexes[m]) else !Narrower(s.indexes[m], s.indexes[best])
  {
    best := backers[0];
    for k := 1 to |backers|
      invariant best in backers[..k] && best < |s.indexes|
      invariant forall a | 0 <= a < k && backers[a] != best ::
        if backers[a] < best then Narrower(s.indexes[best], s.indexes[backers[a]])
        else !Narrower(s.indexes[backers[a]], s.indexes[best])
    {
      if Narrower(s.indexes[backers[k]], s.indexes[best]) {
        forall a | 0 <= a < k ensures Narrower(s.indexes[backers[k]], s.indexes[backers[a]]) {
          NarrowerIsWeakOrder(s.indexes[backers[k]], s.indexes[best], s.indexes[backers[a]]);
        }
        best := backers[k];
      }
    }
  }

  method KeeperOf(s: Snapshot, redundant: set<IndexKey>, c: Constraint) returns (keeper: Option<nat>)
    ensures keeper.Some? <==> NeedsKeeper(s, redundant, c)
    ensures keeper.Some? ==> keeper.value < |s.indexes| && IsKeeper(s, redundant, keeper.value, c)
  {
    var backers: seq<nat>, stays := [], false;
    for k := 0 to |s.indexes|
      invariant Ascending(backers) && forall n: nat :: n in backers <==> n < k && IsBacker(s, redundant, n, c)
      invariant stays <==> exists n | n in backers :: StaysAnyway(s, s.indexes[n])
    {
      if IsBacker(s, redundant, k, c) {
        AscendingGrows(backers, k);
        backers := backers + [k];
        stays := stays || StaysAnyway(s, s.indexes[k]);
      }
    }
    if backers == [] || stays {
      assert backers != [] ==>
        exists n: nat :: n < |s.indexes| && IsBacker(s, redundant, n, c) && StaysAnyway(s, s.indexes[n]);
      return None;
    }
    assert forall k | 0 <= k < |backers| :: backers[k] in backers;
    var best := Narrowest(s, backers);
    keeper := Some(best);
  }

  /** The indexes that are not reported as unused because a foreign key would
      lose its last index. */
  method FkProtectedIndexes(s: Snapshot, redundant: set<IndexKey>) returns (protected: set<IndexKey>)
    ensures forall k :: k in protected <==> IsProtected(s, redundant, k)
  {
    protected := {};
    hide NeedsKeeper, IsKeeper;
    for r := 0 to |s.foreignKeys|
      invariant forall k :: k in protected <==>
        exists q | 0 <= q < r :: ProtectsFor(s, redundant, ConstraintOf(s, s.foreignKeys[q]), k)
    {
      var c := ConstraintOf(s, s.foreignKeys[r]);
      var keeper := KeeperOf(s, redundant, c);
      if keeper.Some? {
        KeeperIsOne(s, redundant, c, keeper.value);
        protected := protected + {s.indexes[keeper.value].Key()};
      }
    }
  }

  lemma KeeperIsOne(s: Snapshot, redundant: set<IndexKey>, c: Constraint, n: nat)
    requires n < |s.indexes| && NeedsKeeper(s, redundant, c) && IsKeeper(s, redundant, n, c)
    ensures forall k :: ProtectsFor(s, redundant, c, k) <==> k == s.indexes[n].Key()
  {
    forall m: nat | m < |s.indexes| && IsKeeper(s, redundant, m, c) ensures m == n {
      assert IsBacker(s, redundant, m, c) && IsBacker(s, redundant, n, c);
    }
  }

  // ----- unused indexes -----

  function RedundantKeys(s: Snapshot): set<IndexKey> {
    set n: nat | n < |s.indexes| && IsRedundant(s, n) :: s.indexes[n].Key()
  }

  predicate IsUnusedGiven(s: Snapshot, redundant: set<IndexKey>, n: nat) {
    && n < |s.indexes|
    && var i := s.indexes[n];
    && i.scans == Some(0) && i.lastScan.None? && i.table != ""
    && !SeenInPlans(s, i)
    && i.Key() !in redundant
    && !i.Def().unique
    && QueriesForTable(s, i.Table()) != []
  }

  predicate IsUnused(s: Snapshot, n: nat) {
    && n < |s.indexes|
    && s.mature
    && IsUnusedGiven(s, RedundantKeys(s), n)
    && !IsProtected(s, RedundantKeys(s), s.indexes[n].Key())
  }

  method DetectUnused(s: Snapshot, redundant: set<IndexKey>) returns (findings: seq<nat>)
    requires s.mature && redundant == RedundantKeys(s)
    ensures forall n: nat :: n in findings <==> IsUnused(s, n)
    ensures Ascending(findings)
  {
    var protected := FkProtectedIndexes(s, redundant);
    findings := [];
    for k := 0 to |s.indexes|
      invariant Ascending(findings) && forall n: nat :: n in findings <==> n < k && IsUnused(s, n)
    {
      var i := s.indexes[k];
      if i.scans != Some(0) || i.lastScan.Some? { continue; }
      if i.table == "" { continue; }
      if SeenInPlans(s, i) { continue; }
      if i.Key() in redundant { continue; }
      if i.Def().unique { continue; }
      if i.Key() in protected { continue; }
      if QueriesForTable(s, i.Table()) == [] { continue; }
      AscendingGrows(findings, k);
      findings := findings + [k];
    }
  }

  predicate IsReported(s: Snapshot, n: nat) { IsRedundant(s, n) || IsUnused(s, n) }

  function Subject(f: Finding): nat { if f.Redundant? then f.r.narrow else f.index }

  /** The whole rule. Every reported index is named by exactly one finding. */
  method DetectUnusedIndexes(s: Snapshot) returns (findings: seq<Finding>)
    ensures forall f | f in findings && f.Redundant? :: Explains(s, f.r)
    ensures forall n: nat :: IsRedundant(s, n) <==> exists f | f in findings :: f.Redundant? && f.r.narrow == n
    ensures forall n: nat :: IsUnused(s, n) <==> Unused(n) in findings
    ensures forall a, b | 0 <= a < b < |findings| :: Subject(findings[a]) != Subject(findings[b])
  {
    var redundant := DetectRedundant(s);
    var unused: seq<nat> := [];
    if s.mature {
      var keys := set f | f in redundant :: s.indexes[f.narrow].Key();
      assert keys == RedundantKeys(s) by {
        forall n: nat | n < |s.indexes| && IsRedundant(s, n) ensures s.indexes[n].Key() in keys {
          assert Listed(redundant, n);
        }
        forall f | f in redundant ensures s.indexes[f.narrow].Key() in RedundantKeys(s) {
          assert IsRedundant(s, f.narrow);
        }
      }
      unused := DetectUnused(s, keys);
    }
    findings := seq(|redundant|, k requires 0 <= k < |redundant| => Redundant(redundant[k]))
      + seq(|unused|, k requires 0 <= k < |unused| => Unused(unused[k]));
    Combined(s, redundant, unused, findings);
  }

  lemma Combined(s: Snapshot, redundant: seq<Redundancy>, unused: seq<nat>, findings: seq<Finding>)
    requires |findings| == |redundant| + |unused| && Ascending(unused)
    requires forall k | 0 <= k < |redundant| :: findings[k] == Redundant(redundant[k])
    requires forall k | 0 <= k < |unused| :: findings[|redundant| + k] == Unused(unused[k])
    requires forall f | f in redundant :: Explains(s, f)
    requires forall n: nat :: Listed(redundant, n) <==> IsRedundant(s, n)
    requires forall a, b | 0 <= a < b < |redundant| :: InReportOrder(s, redundant[a].narrow, redundant[b].narrow)
    requires forall n: nat :: n in unused <==> IsUnused(s, n)
    ensures forall f | f in findings && f.Redundant? :: Explains(s, f.r)
    ensures forall n: nat :: IsRedundant(s, n) <==> exists f | f in findings :: f.Redundant? && f.r.narrow == n
    ensures forall n: nat :: IsUnused(s, n) <==> Unused(n) in findings
    ensures forall a, b | 0 <= a < b < |findings| :: Subject(findings[a]) != Subject(findings[b])
  {
    assert forall b | |redundant| <= b < |findings| :: findings[b] == Unused(unused[b - |redundant|]);
    forall n: nat | IsRedundant(s, n) ensures exists f | f in findings :: f.Redundant? && f.r.narrow == n {
      var k :| 0 <= k < |redundant| && redundant[k].narrow == n;
      assert findings[k] in findings;
    }
    forall n: nat | n in unused ensures Unused(n) in findings {
      var k :| 0 <= k < |unused| && unused[k] == n;
      assert findings[|redundant| + k] == Unused(n);
    }
    forall r | r in redundant ensures !IsUnused(s, r.narrow) {
      assert IsRedundant(s, r.narrow);
      assert s.indexes[r.narrow].Key() in RedundantKeys(s);
    }
    forall a, b | 0 <= a < b < |findings| ensures Subject(findings[a]) != Subject(findings[b]) {
      if b < |redundant| {
        assert InReportOrder(s, redundant[a].narrow, redundant[b].narrow);
      } else if a < |redundant| {
        assert redundant[a] in redundant && unused[b - |redundant|] in unused;
      }
    }
  }
}
