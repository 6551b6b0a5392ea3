/** AP-04: the columns whose indexing would let the engine use an index. */
module MissingIndex {
  import opened Basics
  import opened IndexTree

  datatype Kind = Equality | Range

  datatype Target = Target(column: string, kind: Kind, values: seq<Term>)

  type Info = Option<Target>

  function BareColumn(side: Term): Option<Term> {
    var t := Unwrap(side);
    if t.Column? && t.name != "" then Some(t) else None
  }

  /** The side of a condition that could be searched, with the kind of search
      and the values it is compared against. */
  function SearchedSide(c: Condition): Option<(Term, Kind, seq<Term>)> {
    match c
    case Compare(isEquality, left, right) =>
      var kind := if isEquality then Equality else Range;
      if BareColumn(left).Some? && IsValue(right) then Some((left, kind, [right]))
      else if BareColumn(right).Some? && IsValue(left) then Some((right, kind, [left]))
      else None
    case In(subject, items) =>
      if items != [] && AllValues(items) then Some((subject, Equality, items)) else None
    case Between(subject, low, high) =>
      if IsBoundValue(low) && IsBoundValue(high) then Some((subject, Range, [low.value, high.value])) else None
    case IsNull(subject, negated) =>
      if negated then None else Some((subject, Equality, []))
    case Unsearchable(_) => None
  }

  /** OK: a bare column of the table that leads an index. FIX: a bare column
      that leads none. */
  function Read(c: Condition, leads: set<string>): (State, Info) {
    var side := SearchedSide(c);
    if side.None? then (OTHER, None)
    else
      var column := BareColumn(side.value.0);
      if column.None? || !column.value.ours then (OTHER, None)
      else
        (if column.value.name in leads then OK else FIX,
         Some(Target(column.value.name, side.value.1, side.value.2)))
  }

  function Reader(leads: set<string>): Reading<Info> { (c: Condition) => Read(c, leads) }

  function TreeOf(e: Expr, leads: set<string>): Tree<Info> { ConditionTree(e, Reader(leads)) }

  // ----- the fix -----

  datatype Fix = Fix(equality: seq<string>, range: seq<string>, unverified: seq<string>, perBranch: bool)

  /** The three lists a column can go to. A column is unverified when its type
      is unknown and it is compared to values that might need a conversion. */
  datatype ListName = EqualityList | RangeList | UnverifiedList(typed: string -> bool)

  predicate GoesTo(t: Target, list: ListName) {
    match list
    case EqualityList => t.kind == Equality
    case RangeList => t.kind == Range
    case UnverifiedList(typed) => !typed(t.column) && t.values != []
  }

  /** The columns of the conditions to repair that belong in a list, in order. */
  function ColumnsFor(ps: seq<Pair<Info>>, list: ListName): seq<string> {
    if ps == [] then []
    else
      var rest, leaf := ColumnsFor(ps[..|ps| - 1], list), ps[|ps| - 1].leaf;
      if leaf.Leaf? && leaf.info.Some? && GoesTo(leaf.info.value, list) then rest + [leaf.info.value.column] else rest
  }

  function ListOf(ps: seq<Pair<Info>>, list: ListName): seq<string> { Distinct(ColumnsFor(ps, list)) }

  function Without(xs: seq<string>, ys: seq<string>): seq<string> { Filter(xs, x => x !in ys) }

  function FixOf(ps: seq<Pair<Info>>, typed: string -> bool): Fix {
    var equality := ListOf(ps, EqualityList);
    Fix(equality,
        Without(ListOf(ps, RangeList), equality),
        ListOf(ps, UnverifiedList(typed)),
        exists k | 0 <= k < |ps| :: ps[k].inOr)
  }

  /** What AP-04 suggests for a predicate: nothing if it can use an index today,
      or if no bare column is left to index. */
  function IndexFixOf(e: Expr, leads: set<string>, typed: string -> bool): Option<Fix> {
    if NeedsFix(TreeOf(e, leads)) then Some(FixOf(FixLeaves(TreeOf(e, leads), false), typed)) else None
  }

  /** One more condition to repair adds its column to the lists it goes to. */
  lemma ListStep(ps: seq<Pair<Info>>, k: nat, list: ListName)
    requires k < |ps| && ps[k].leaf.Leaf? && ps[k].leaf.info.Some?
    ensures
      var target := ps[k].leaf.info.value;
      var before := ListOf(ps[..k], list);
      ListOf(ps[..k + 1], list) ==
        if GoesTo(target, list) && target.column !in before then before + [target.column] else before
  {
    assert ps[..k + 1][..k] == ps[..k];
    var xs, x := ColumnsFor(ps[..k], list), ps[k].leaf.info.value.column;
    assert (xs + [x])[..|xs + [x]| - 1] == xs;
  }

  /** A condition picked for an index compares a column that leads none. */
  lemma FixLeavesHaveTargets(e: Expr, leads: set<string>)
    requires NeedsFix(TreeOf(e, leads))
    ensures FixLeaves(TreeOf(e, leads), false) != []
    ensures forall p | p in FixLeaves(TreeOf(e, leads), false) ::
      p.leaf.Leaf? && p.leaf.state == FIX && p.leaf.info.Some? && p.leaf.info.value.column !in leads
  {
    FixLeavesAreFixable(TreeOf(e, leads), false);
    var ok := (state: State, info: Info) => state == FIX ==> info.Some? && info.value.column !in leads;
    ReadingsFillLeaves(e, Reader(leads), ok);
    FixLeavesAreLeaves(TreeOf(e, leads), false, ok);
  }

  method IndexFix(e: Expr, leads: set<string>, typed: string -> bool) returns (fix: Option<Fix>)
    ensures fix == IndexFixOf(e, leads, typed)
  {
    var tree := BuildConditionTree(e, Reader(leads));
    if Usable(tree, false) || !Usable(tree, true) { return None; }
    FixLeavesHaveTargets(e, leads);
    var collected := CollectColumns(FixLeaves(tree, false), typed);
    fix := Some(collected);
  }

  /** The three lists after the first k conditions. */
  ghost predicate Collected(ps: seq<Pair<Info>>, k: nat, typed: string -> bool,
      equality: seq<string>, ranges: seq<string>, unverified: seq<string>)
    requires k <= |ps|
  {
    && equality == ListOf(ps[..k], EqualityList)
    && ranges == ListOf(ps[..k], RangeList)
    && unverified == ListOf(ps[..k], UnverifiedList(typed))
  }

  function AddNew(xs: seq<string>, t: Target, list: ListName): seq<string> {
    if GoesTo(t, list) && t.column !in xs then xs + [t.column] else xs
  }

  lemma CollectedStep(ps: seq<Pair<Info>>, k: nat, typed: string -> bool,
      equality: seq<string>, ranges: seq<string>, unverified: seq<string>)
    requires k < |ps| && ps[k].leaf.Leaf? && ps[k].leaf.info.Some?
    requires Collected(ps, k, typed, equality, ranges, unverified)
    ensures var t := ps[k].leaf.info.value;
      Collected(ps, k + 1, typed, AddNew(equality, t, EqualityList), AddNew(ranges, t, RangeList),
                AddNew(unverified, t, UnverifiedList(typed)))
  {
    ListStep(ps, k, EqualityList);
    ListStep(ps, k, RangeList);
    ListStep(ps, k, UnverifiedList(typed));
  }

  /** The loop that collects the columns of the fix. */
  method CollectColumns(ps: seq<Pair<Info>>, typed: string -> bool) returns (fix: Fix)
    requires forall k | 0 <= k < |ps| :: ps[k].leaf.Leaf? && ps[k].leaf.info.Some?
    ensures fix == FixOf(ps, typed)
  {
    var equality, ranges, unverified, perBranch := [], [], [], false;
    assert Collected(ps, 0, typed, [], [], []);
    hide Collected;
    for k := 0 to |ps|
      invariant Collected(ps, k, typed, equality, ranges, unverified)
      invariant perBranch <==> exists a | 0 <= a < k :: ps[a].inOr
    {
      var target := ps[k].leaf.info.value;
      CollectedStep(ps, k, typed, equality, ranges, unverified);
      perBranch := perBranch || ps[k].inOr;
      if target.kind == Equality {
        if target.column !in equality { equality := equality + [target.column]; }
      } else {
        if target.column !in ranges { ranges := ranges + [target.column]; }
      }
      if !typed(target.column) && target.values != [] && target.column !in unverified {
        unverified := unverified + [target.column];
      }
    }
    fix := Fix(equality, Without(ranges, equality), unverified, perBranch);
    CollectedIsFix(ps, typed, fix, ranges);
  }

  lemma CollectedIsFix(ps: seq<Pair<Info>>, typed: string -> bool, fix: Fix, ranges: seq<string>)
    requires Collected(ps, |ps|, typed, fix.equality, ranges, fix.unverified)
    requires fix.range == Without(ranges, fix.equality)
    requires fix.perBranch <==> exists a | 0 <= a < |ps| :: ps[a].inOr
    ensures fix == FixOf(ps, typed)
  {
    assert ps[..|ps|] == ps;
  }

  // ----- the suggestion -----

  /** The indexes to create, each as its list of columns: one per branch of an
      OR, or a single one with the equality columns in front. */
  function SuggestedIndexes(fix: Fix): seq<seq<string>> {
    var columns := fix.equality + fix.range;
    if fix.perBranch then seq(|columns|, k requires 0 <= k < |columns| => [columns[k]]) else [columns]
  }

  /** The columns that lead the indexes. */
  function LeadsOf(indexes: seq<seq<string>>): set<string> {
    set k | 0 <= k < |indexes| && indexes[k] != [] :: indexes[k][0]
  }

  lemma {:induction false} ColumnsForMembers(ps: seq<Pair<Info>>, list: ListName, c: string)
    ensures c in ColumnsFor(ps, list) <==> exists p | p in ps ::
      p.leaf.Leaf? && p.leaf.info.Some? && GoesTo(p.leaf.info.value, list) && p.leaf.info.value.column == c
  {
    if ps != [] {
      ColumnsForMembers(ps[..|ps| - 1], list, c);
      assert ps == ps[..|ps| - 1] + [ps[|ps| - 1]];
    }
  }

  /** The equality and range columns together are those of all the conditions
      to repair. */
  lemma FixNamesEveryColumn(ps: seq<Pair<Info>>, typed: string -> bool, c: string)
    ensures c in FixOf(ps, typed).equality + FixOf(ps, typed).range <==> exists p | p in ps ::
      p.leaf.Leaf? && p.leaf.info.Some? && p.leaf.info.value.column == c
  {
    ColumnsForMembers(ps, EqualityList, c);
    ColumnsForMembers(ps, RangeList, c);
  }

  predicate IsColumn(t: Term, name: string) { Unwrap(t) == Column(name, true) && name != "" }

  /** An index on the column would find the rows of the condition by one value. */
  predicate EqualitySearch(c: Condition, column: string) {
    match c
    case Compare(isEquality, l, r) =>
      isEquality && ((IsColumn(l, column) && IsValue(r)) || (IsColumn(r, column) && IsValue(l)))
    case In(subject, items) => IsColumn(subject, column) && items != [] && AllValues(items)
    case IsNull(subject, negated) => IsColumn(subject, column) && !negated
    case _ => false
  }

  /** It would find them between two values, or on one side of a value. */
  predicate RangeSearch(c: Condition, column: string) {
    match c
    case Compare(isEquality, l, r) =>
      !isEquality && ((IsColumn(l, column) && IsValue(r)) || (IsColumn(r, column) && IsValue(l)))
    case Between(subject, low, high) => IsColumn(subject, column) && IsBoundValue(low) && IsBoundValue(high)
    case _ => false
  }

  predicate SearchesAs(c: Condition, t: Target) {
    if t.kind == Equality then EqualitySearch(c, t.column) else RangeSearch(c, t.column)
  }

  /** A condition is read as a search exactly when it is one of the table. */
  lemma ReadIsSearch(c: Condition, leads: set<string>)
    ensures Read(c, leads).1.Some? ==> SearchesAs(c, Read(c, leads).1.value)
    ensures (exists column :: EqualitySearch(c, column) || RangeSearch(c, column)) ==> Read(c, leads).0 != OTHER
  {
    if column :| EqualitySearch(c, column) || RangeSearch(c, column) {
      match c
      case Compare(_, l, r) => ColumnIsNoValue(l); ColumnIsNoValue(r);
      case _ =>
    }
  }

  lemma {:induction false} ColumnIsNoValue(t: Term)
    ensures Unwrap(t).Column? ==> !IsValue(t)
  {
    if t.Paren? {
      ColumnIsNoValue(t.inner);
      assert [t][1..] + Children(t) == [t.inner];
    }
  }

  /** The equality columns of a fix are searched by equality and the others only
      by range, and none of them leads an index. */
  lemma FixSeparatesKinds(e: Expr, leads: set<string>, typed: string -> bool, column: string)
    requires IndexFixOf(e, leads, typed).Some?
    ensures column in IndexFixOf(e, leads, typed).value.equality ==>
      column !in leads && exists c | c in Conditions(e) :: EqualitySearch(c, column)
    ensures column in IndexFixOf(e, leads, typed).value.range ==>
      column !in leads && exists c | c in Conditions(e) :: RangeSearch(c, column)
    ensures !(column in IndexFixOf(e, leads, typed).value.equality && column in IndexFixOf(e, leads, typed).value.range)
  {
    var t, ps := TreeOf(e, leads), FixLeaves(TreeOf(e, leads), false);
    var ok := (state: State, info: Info) => info.Some? ==> exists c | c in Conditions(e) :: SearchesAs(c, info.value);
    forall c | c in Conditions(e) ensures ok(Read(c, leads).0, Read(c, leads).1) {
      ReadIsSearch(c, leads);
    }
    ReadingsFillLeaves(e, Reader(leads), ok);
    FixLeavesAreLeaves(t, false, ok);
    FixLeavesHaveTargets(e, leads);
    ColumnsForMembers(ps, EqualityList, column);
    ColumnsForMembers(ps, RangeList, column);
  }

  /** Creating the suggested indexes makes the same predicate usable, and AP-04
      then has nothing left to say about it. For a single composite index its
      first column alone is enough. */
  lemma SuggestionMakesUsable(e: Expr, leads: set<string>, typed: string -> bool)
    requires IndexFixOf(e, leads, typed).Some?
    ensures
      var after := leads + LeadsOf(SuggestedIndexes(IndexFixOf(e, leads, typed).value));
      Usable(TreeOf(e, after), false) && IndexFixOf(e, after, typed).None?
  {
    var t, fix := TreeOf(e, leads), IndexFixOf(e, leads, typed).value;
    var ps, columns := FixLeaves(t, false), fix.equality + fix.range;
    var created := LeadsOf(SuggestedIndexes(fix));
    var u := TreeOf(e, leads + created);
    var good := (info: Info) => info.Some? && info.value.column in created;
    BetterReadingRepairs(e, Reader(leads + created), Reader(leads), good);
    FixLeavesHaveTargets(e, leads);
    forall p | p in ps ensures p.leaf.info.value.column in columns {
      FixNamesEveryColumn(ps, typed, p.leaf.info.value.column);
    }
    if fix.perBranch {
      forall k | 0 <= k < |columns| ensures columns[k] in created {
        assert SuggestedIndexes(fix)[k] == [columns[k]];
      }
      FixingAllWorks(u, t, good, false);
    } else {
      CompositeLeadIsEnough(e, leads, typed, u);
    }
  }

  lemma CompositeLeadIsEnough(e: Expr, leads: set<string>, typed: string -> bool, u: Tree<Info>)
    requires IndexFixOf(e, leads, typed).Some? && !IndexFixOf(e, leads, typed).value.perBranch
    requires Repairs(u, TreeOf(e, leads), (info: Info) => info.Some? &&
      info.value.column in LeadsOf(SuggestedIndexes(IndexFixOf(e, leads, typed).value)))
    ensures Usable(u, false)
  {
    var t, fix := TreeOf(e, leads), IndexFixOf(e, leads, typed).value;
    var ps, columns := FixLeaves(t, false), fix.equality + fix.range;
    FixLeavesHaveTargets(e, leads);
    FixNamesEveryColumn(ps, typed, ps[0].leaf.info.value.column);
    FixNamesEveryColumn(ps, typed, columns[0]);
    var p :| p in ps && p.leaf.info.value.column == columns[0];
    assert SuggestedIndexes(fix)[0] == columns;
    ConditionTreeIsFlat(e, Reader(leads));
    forall q | q in ps ensures !q.inOr {
      var k :| 0 <= k < |ps| && ps[k] == q;
    }
    MarksNeverMix(t);
    if t.Node? {
      var good := (info: Info) => info.Some? && info.value.column in LeadsOf(SuggestedIndexes(fix));
      FixingOnePartWorks(u, t, good, p.leaf);
    }
  }

  /** AP-04 speaks exactly when no index serves the predicate today and some set
      of new indexes on plain columns would. */
  lemma FixExactlyWhenIndexesHelp(e: Expr, leads: set<string>, typed: string -> bool)
    ensures IndexFixOf(e, leads, typed).Some? <==>
      && !Usable(TreeOf(e, leads), false)
      && exists extra: set<string> :: Usable(TreeOf(e, leads + extra), false)
  {
    if IndexFixOf(e, leads, typed).Some? {
      SuggestionMakesUsable(e, leads, typed);
    } else if extra: set<string> :| Usable(TreeOf(e, leads + extra), false) {
      FlatteningKeepsUsable(e, Reader(leads + extra), false);
      FixesBound(e, Reader(leads + extra), Reader(leads));
      FlatteningKeepsUsable(e, Reader(leads), true);
    }
  }
}
