/** What AP-04 and AP-03 say of a predicate, told from its parts. */
module IndexFixRules {
  import opened Basics
  import opened IndexTree
  import opened IndexTreeRules
  import Missing = MissingIndex
  import Wrapped = NonSargable

  // ----- AP-04, one condition -----

  /** The column that an index would be searched by, and how. */
  ghost function SearchedBy(c: Condition): Option<(string, Missing.Kind)> {
    if column :| Missing.EqualitySearch(c, column) then Some((column, Missing.Equality))
    else if column :| Missing.RangeSearch(c, column) then Some((column, Missing.Range))
    else None
  }

  lemma SearchIsOne(c: Condition, a: string, b: string)
    requires Missing.EqualitySearch(c, a) || Missing.RangeSearch(c, a)
    requires Missing.EqualitySearch(c, b) || Missing.RangeSearch(c, b)
    ensures a == b && (Missing.EqualitySearch(c, a) <==> Missing.EqualitySearch(c, b))
    ensures !(Missing.EqualitySearch(c, a) && Missing.RangeSearch(c, a))
  {
    match c
    case Compare(_, l, r) =>
      Missing.ColumnIsNoValue(l);
      Missing.ColumnIsNoValue(r);
    case _ =>
  }

  /** What a condition is compared against: nothing for IS NULL. */
  predicate HasValues(c: Condition) { !c.IsNull? }

  /** A condition is read by the column it is searched by: it can use an index
      that the column leads, or needs one. */
  lemma ReadExactly(c: Condition, leads: set<string>)
    ensures var (state, info) := Missing.Read(c, leads);
      if SearchedBy(c).None? then state == OTHER && info.None?
      else
        && info.Some? && (info.value.column, info.value.kind) == SearchedBy(c).value
        && (info.value.values != [] <==> HasValues(c))
        && state == if SearchedBy(c).value.0 in leads then OK else FIX
  {
    var (state, info) := Missing.Read(c, leads);
    Missing.ReadIsSearch(c, leads);
    if SearchedBy(c).Some? && info.Some? {
      SearchIsOne(c, SearchedBy(c).value.0, info.value.column);
    }
    hide Missing.EqualitySearch, Missing.RangeSearch, IsValue, Unwrap;
  }

  /** Which terms are values. */
  lemma ValuesExactlyWhen(items: seq<Term>, bound: Option<Term>)
    ensures AllValues(items) <==> forall k | 0 <= k < |items| :: ColumnsIn(items[k]) == {}
    ensures IsBoundValue(bound) <==> bound != None && ColumnsIn(bound.value) == {}
  {
    forall k | 0 <= k < |items| ensures IsValue(items[k]) <==> ColumnsIn(items[k]) == {} {
      ValueExactlyWhen(items[k]);
    }
    if bound.Some? {
      ValueExactlyWhen(bound.value);
    }
    hide IsValue, ColumnsIn;
  }

  // ----- AP-04, the parts of a predicate -----

  ghost predicate IsSearched(part: Expr, leads: set<string>) {
    part.Cond? && SearchedBy(part.c).Some? && SearchedBy(part.c).value.0 !in leads
  }

  ghost predicate Belongs(c: Condition, list: Missing.ListName)
    requires SearchedBy(c).Some?
  {
    match list
    case EqualityList => SearchedBy(c).value.1 == Missing.Equality
    case RangeList => SearchedBy(c).value.1 == Missing.Range
    case UnverifiedList(typed) => HasValues(c) && !typed(SearchedBy(c).value.0)
  }

  /** The columns without an index that the conditions among the parts are searched
      by, of those that belong in a list, in the order written. */
  ghost function Columns(parts: seq<Expr>, list: Missing.ListName, leads: set<string>): seq<string> {
    if parts == [] then []
    else
      (if IsSearched(parts[0], leads) && Belongs(parts[0].c, list) then [SearchedBy(parts[0].c).value.0] else [])
      + Columns(parts[1..], list, leads)
  }

  ghost function FixFrom(parts: seq<Expr>, leads: set<string>, typed: string -> bool, perBranch: bool): Missing.Fix {
    var equality := Distinct(Columns(parts, Missing.EqualityList, leads));
    Missing.Fix(equality, Missing.Without(Distinct(Columns(parts, Missing.RangeList, leads)), equality),
                Distinct(Columns(parts, Missing.UnverifiedList(typed), leads)), perBranch)
  }

  lemma {:induction false} ColumnsForConcat(
      a: seq<Pair<Missing.Info>>, b: seq<Pair<Missing.Info>>, list: Missing.ListName)
    ensures Missing.ColumnsFor(a + b, list) == Missing.ColumnsFor(a, list) + Missing.ColumnsFor(b, list)
  {
    if b == [] {
      assert a + b == a;
    } else {
      assert (a + b)[..|a + b| - 1] == a + b[..|b| - 1];
      ColumnsForConcat(a, b[..|b| - 1], list);
    }
  }

  lemma ColumnsForOne(p: Pair<Missing.Info>, list: Missing.ListName)
    ensures Missing.ColumnsFor([p], list) ==
      if p.leaf.Leaf? && p.leaf.info.Some? && Missing.GoesTo(p.leaf.info.value, list)
      then [p.leaf.info.value.column] else []
  {
    assert [p][..0] == [];
  }

  lemma {:induction false} PartsAreBare(op: Connective, e: Expr)
    ensures Parts(op, e) != [] && forall p | p in Parts(op, e) :: !p.Group?
  {
    match e
    case Group(inner) => PartsAreBare(op, inner);
    case Cond(_) =>
    case And(l, r) =>
      PartsAreBare(op, l);
      PartsAreBare(op, r);
    case Or(l, r) =>
      PartsAreBare(op, l);
      PartsAreBare(op, r);
  }

  /** A part is a condition to repair exactly when it is searched by a column that
      leads no index. */
  lemma PartToFix(e: Expr, leads: set<string>)
    requires !e.Group?
    ensures var t := Missing.TreeOf(e, leads);
      && (t.Leaf? && t.state == FIX <==> IsSearched(e, leads))
      && (t.Leaf? && t.state == FIX ==>
            && t.info.Some? && t.info.value.column == SearchedBy(e.c).value.0
            && forall list :: Missing.GoesTo(t.info.value, list) <==> Belongs(e.c, list))
  {
    if e.Cond? {
      ReadExactly(e.c, leads);
      var info := Missing.Read(e.c, leads).1;
      hide SearchedBy, Missing.Read, HasValues;
      if info.Some? {
        forall list ensures Missing.GoesTo(info.value, list) <==> Belongs(e.c, list) {
          match list
          case EqualityList =>
          case RangeList =>
          case UnverifiedList(typed) =>
        }
      }
    } else {
      match e
      case And(l, r) => assert Missing.TreeOf(e, leads).Node?;
      case Or(l, r) => assert Missing.TreeOf(e, leads).Node?;
    }
  }

  lemma FixPartsMore<I>(t: Tree<I>, ts: seq<Tree<I>>, inOr: bool)
    ensures FixParts([t] + ts) == (if t.Leaf? && t.state == FIX then [t] else []) + FixParts(ts)
    ensures Marked([t] + ts, inOr) == [Pair(t, inOr)] + Marked(ts, inOr)
  {
    assert ([t] + ts)[1..] == ts;
  }

  lemma OnePartMore(t: Tree<Missing.Info>, ts: seq<Tree<Missing.Info>>, list: Missing.ListName, inOr: bool)
    ensures Missing.ColumnsFor(Marked(FixParts([t] + ts), inOr), list) ==
      (if t.Leaf? && t.state == FIX && t.info.Some? && Missing.GoesTo(t.info.value, list)
       then [t.info.value.column] else [])
      + Missing.ColumnsFor(Marked(FixParts(ts), inOr), list)
  {
    FixPartsMore(t, ts, inOr);
    if t.Leaf? && t.state == FIX {
      FixPartsMore(t, FixParts(ts), inOr);
      ColumnsForConcat([Pair(t, inOr)], Marked(FixParts(ts), inOr), list);
      ColumnsForOne(Pair(t, inOr), list);
    } else {
      assert [] + FixParts(ts) == FixParts(ts);
    }
  }

  /** The conditions to repair among the parts bring just those columns. */
  lemma {:induction false} FixPartsBringColumns(
      parts: seq<Expr>, leads: set<string>, list: Missing.ListName, inOr: bool)
    requires forall p | p in parts :: !p.Group?
    ensures Missing.ColumnsFor(Marked(FixParts(Trees(parts, Missing.Reader(leads))), inOr), list)
      == Columns(parts, list, leads)
  {
    if parts != [] {
      FixPartsBringColumns(parts[1..], leads, list, inOr);
      PartToFix(parts[0], leads);
      OnePartMore(Missing.TreeOf(parts[0], leads), Trees(parts[1..], Missing.Reader(leads)), list, inOr);
      hide IsSearched, Belongs, Missing.GoesTo, FixParts, Marked, Missing.ColumnsFor;
    }
  }

  lemma {:induction false} SomePartToFix(parts: seq<Expr>, leads: set<string>)
    requires forall p | p in parts :: !p.Group?
    ensures FixParts(Trees(parts, Missing.Reader(leads))) != [] <==> exists p | p in parts :: IsSearched(p, leads)
  {
    if parts != [] {
      SomePartToFix(parts[1..], leads);
      PartToFix(parts[0], leads);
      assert forall p :: p in parts <==> p == parts[0] || p in parts[1..];
      hide IsSearched;
    }
  }

  lemma {:induction false} MarkedMarks(ts: seq<Tree<Missing.Info>>, inOr: bool)
    ensures |Marked(ts, inOr)| == |ts|
    ensures forall k | 0 <= k < |ts| :: Marked(ts, inOr)[k].inOr == inOr
  {
    if ts != [] {
      MarkedMarks(ts[1..], inOr);
    }
  }

  lemma FixOfParts(parts: seq<Expr>, leads: set<string>, typed: string -> bool, inOr: bool)
    requires (forall p | p in parts :: !p.Group?) && exists p | p in parts :: IsSearched(p, leads)
    ensures Missing.FixOf(Marked(FixParts(Trees(parts, Missing.Reader(leads))), inOr), typed)
      == FixFrom(parts, leads, typed, inOr)
  {
    var ts := FixParts(Trees(parts, Missing.Reader(leads)));
    FixPartsBringColumns(parts, leads, Missing.EqualityList, inOr);
    FixPartsBringColumns(parts, leads, Missing.RangeList, inOr);
    FixPartsBringColumns(parts, leads, Missing.UnverifiedList(typed), inOr);
    SomePartToFix(parts, leads);
    MarkedMarks(ts, inOr);
    hide Columns, Missing.ColumnsFor, Marked, FixParts, Trees, IsSearched;
  }

  /** For an AND with conditions that an index would serve: the columns of all of
      them, in the order written, as one composite index. */
  lemma AndFixIsComposite(e: Expr, leads: set<string>, typed: string -> bool)
    requires Missing.IndexFixOf(e, leads, typed).Some? && Missing.TreeOf(e, leads).Node?
    requires Missing.TreeOf(e, leads).op == All && exists p | p in Parts(All, e) :: IsSearched(p, leads)
    ensures Missing.IndexFixOf(e, leads, typed).value == FixFrom(Parts(All, e), leads, typed, false)
  {
    var t, parts, read := Missing.TreeOf(e, leads), Parts(All, e), Missing.Reader(leads);
    ConditionTreeIsFlat(e, read);
    ChildrenAreParts(e, read);
    PartsAreBare(All, e);
    SomePartToFix(parts, leads);
    AndPicksItsConditions(t, false);
    FixOfParts(parts, leads, typed, false);
    hide FixFrom, Missing.FixOf, FixParts, Marked, Trees, Parts, IsSearched, FixLeaves;
  }

  /** For a single condition: its column. */
  lemma ConditionFixIsItsColumn(e: Expr, leads: set<string>, typed: string -> bool)
    requires e.Cond?
    ensures Missing.IndexFixOf(e, leads, typed).Some? <==> IsSearched(e, leads)
    ensures IsSearched(e, leads) ==> Missing.IndexFixOf(e, leads, typed).value == FixFrom([e], leads, typed, false)
  {
    PartToFix(e, leads);
    var t := Missing.TreeOf(e, leads);
    LeafPicks(t, e, leads);
    if IsSearched(e, leads) {
      hide FixFrom, Missing.FixOf, IsSearched, Belongs, Trees, FixParts, Marked, FixLeaves;
      FixOfParts([e], leads, typed, false);
    }
    hide FixFrom, Missing.FixOf, IsSearched, Belongs;
  }

  lemma LeafPicks(t: Tree<Missing.Info>, e: Expr, leads: set<string>)
    requires e.Cond? && t == Missing.TreeOf(e, leads)
    ensures t.Leaf? && (NeedsFix(t) <==> t.state == FIX)
    ensures t.state == FIX ==> FixLeaves(t, false) == Marked(FixParts(Trees([e], Missing.Reader(leads))), false)
  {
    assert [e][1..] == [] && [t][1..] == [];
    assert Trees([e], Missing.Reader(leads)) == [t];
    assert FixLeaves(t, false) == [Pair(t, false)];
    if t.state == FIX {
      assert FixParts([t]) == [t];
      assert Marked([t], false) == [Pair(t, false)];
    }
  }

  /** For an OR of conditions: the columns without an index, one index each. */
  lemma OrFixIsPerBranch(e: Expr, leads: set<string>, typed: string -> bool)
    requires Missing.IndexFixOf(e, leads, typed).Some? && Missing.TreeOf(e, leads).Node?
    requires Missing.TreeOf(e, leads).op == Any && forall p | p in Parts(Any, e) :: p.Cond?
    ensures Missing.IndexFixOf(e, leads, typed).value == FixFrom(Parts(Any, e), leads, typed, true)
  {
    var t, parts, read := Missing.TreeOf(e, leads), Parts(Any, e), Missing.Reader(leads);
    ChildrenAreParts(e, read);
    PartsAreBare(Any, e);
    OrPicksInEach(t, false);
    ConditionsPickThemselves(parts, leads, true);
    FixLeavesAreFixable(t, false);
    SomePartToFix(parts, leads);
    FixOfParts(parts, leads, typed, true);
    hide FixFrom, Missing.FixOf, FixParts, Trees, Parts, IsSearched, FixLeaves, PickedIn;
  }

  lemma {:induction false} ConditionsPickThemselves(parts: seq<Expr>, leads: set<string>, inOr: bool)
    requires forall p | p in parts :: p.Cond?
    ensures var ts := Trees(parts, Missing.Reader(leads)); PickedIn(ts, inOr) == Marked(FixParts(ts), inOr)
  {
    if parts != [] {
      var t, ts := Missing.TreeOf(parts[0], leads), Trees(parts[1..], Missing.Reader(leads));
      assert parts[0] in parts && t.Leaf?;
      ConditionsPickThemselves(parts[1..], leads, inOr);
      LeafPicksItself(t, ts, inOr);
    }
  }

  lemma LeafPicksItself(t: Tree<Missing.Info>, ts: seq<Tree<Missing.Info>>, inOr: bool)
    requires t.Leaf? && PickedIn(ts, inOr) == Marked(FixParts(ts), inOr)
    ensures PickedIn([t] + ts, inOr) == Marked(FixParts([t] + ts), inOr)
  {
    assert ([t] + ts)[1..] == ts;
    assert FixLeaves(t, inOr) == [Pair(t, inOr)] && (NeedsFix(t) <==> t.state == FIX);
    FixPartsMore(t, ts, inOr);
    FixPartsMore(t, FixParts(ts), inOr);
    assert [] + FixParts(ts) == FixParts(ts) && [] + PickedIn(ts, inOr) == PickedIn(ts, inOr);
  }

  /** The column is named by the fix, for a search of either kind. */
  predicate FixNames(e: Expr, leads: set<string>, typed: string -> bool, column: string) {
    && Missing.IndexFixOf(e, leads, typed).Some?
    && var fix := Missing.IndexFixOf(e, leads, typed).value; (column in fix.equality || column in fix.range)
  }

  ghost predicate PicksColumn(t: Tree<Missing.Info>, column: string) {
    NeedsFix(t) && exists leaf | IsColumnLeaf(leaf, column) :: IsPicked(t, false, leaf)
  }

  lemma FixNamesPicked(e: Expr, leads: set<string>, typed: string -> bool, column: string)
    ensures var t := Missing.TreeOf(e, leads);
      FixNames(e, leads, typed, column) <==> PicksColumn(t, column)
  {
    var t := Missing.TreeOf(e, leads);
    var ps := FixLeaves(t, false);
    Missing.FixNamesEveryColumn(ps, typed, column);
    if NeedsFix(t) {
      if p :| p in ps && p.leaf.Leaf? && p.leaf.info.Some? && p.leaf.info.value.column == column {
        assert IsColumnLeaf(p.leaf, column) && IsPicked(t, false, p.leaf);
      }
      if leaf :| IsColumnLeaf(leaf, column) && IsPicked(t, false, leaf) {
        var p :| p in ps && p.leaf == leaf;
      }
    }
    hide FixLeaves, NeedsFix;
  }

  predicate IsColumnLeaf(leaf: Tree<Missing.Info>, column: string) {
    leaf.Leaf? && leaf.info.Some? && leaf.info.value.column == column
  }

  /** A searched condition is read by its column, and needs an index unless it has
      one. */
  lemma SearchedLeaf(part: Expr, leads: set<string>, column: string)
    requires part.Cond? && (Missing.EqualitySearch(part.c, column) || Missing.RangeSearch(part.c, column))
    ensures var leaf := Missing.TreeOf(part, leads);
      IsColumnLeaf(leaf, column) && leaf.state == if column in leads then OK else FIX
  {
    ReadExactly(part.c, leads);
    SearchIsOne(part.c, SearchedBy(part.c).value.0, column);
    hide Missing.EqualitySearch, Missing.RangeSearch, Missing.Read, HasValues;
  }

  /** In an AND that no index serves, the column of each condition that one would
      serve is named. */
  lemma EachSearchedColumnIsNamed(
      e: Expr, leads: set<string>, typed: string -> bool, part: Expr, column: string)
    requires Missing.IndexFixOf(e, leads, typed).Some? && Missing.TreeOf(e, leads).Node?
    requires Missing.TreeOf(e, leads).op == All && part in Parts(All, e) && part.Cond?
    requires Missing.EqualitySearch(part.c, column) || Missing.RangeSearch(part.c, column)
    ensures var fix := Missing.IndexFixOf(e, leads, typed).value; column in fix.equality + fix.range
  {
    var t, read := Missing.TreeOf(e, leads), Missing.Reader(leads);
    var leaf := ConditionTree(part, read);
    ChildrenAreParts(e, read);
    TreesMembers(Parts(All, e), read, leaf);
    NoPartUsable(t);
    SearchedLeaf(part, leads, column);
    assert leaf.state == OK ==> Usable(leaf, false);
    EachConditionIsPicked(t, leaf, false);
    assert IsPicked(t, false, leaf);
    FixNamesPicked(e, leads, typed, column);
    hide Missing.EqualitySearch, Missing.RangeSearch, Parts, Trees, Missing.FixOf, FixLeaves, ConditionTree, Usable;
  }

  /** For an OR, and for an AND of nothing but ORs: exactly the columns that the fix
      of some part names by itself. */
  lemma NestedFixNamesExactly(e: Expr, leads: set<string>, typed: string -> bool, column: string)
    requires Missing.IndexFixOf(e, leads, typed).Some? && Missing.TreeOf(e, leads).Node?
    requires var op := Missing.TreeOf(e, leads).op;
      op == All ==> forall p | p in Parts(All, e) :: !IsSearched(p, leads)
    ensures FixNames(e, leads, typed, column) <==>
      exists p | p in Parts(Missing.TreeOf(e, leads).op, e) :: FixNames(p, leads, typed, column)
  {
    var t, read := Missing.TreeOf(e, leads), Missing.Reader(leads);
    var parts := Parts(t.op, e);
    ConditionTreeIsFlat(e, read);
    ChildrenAreParts(e, read);
    PartsAreBare(t.op, e);
    SomePartToFix(parts, leads);
    FixNamesPicked(e, leads, typed, column);
    forall p | p in parts
      ensures ConditionTree(p, read) in t.children
      ensures FixNames(p, leads, typed, column) <==> PicksColumn(ConditionTree(p, read), column)
    {
      TreesMembers(parts, read, ConditionTree(p, read));
      FixNamesPicked(p, leads, typed, column);
    }
    forall c | c in t.children ensures exists p | p in parts :: ConditionTree(p, read) == c {
      TreesMembers(parts, read, c);
    }
    forall leaf
      ensures IsPicked(t, false, leaf) <==> exists c | c in t.children :: NeedsFix(c) && IsPicked(c, false, leaf)
    {
      NestedPicks(t, leaf);
    }
    hide FixNames, IsPicked, NeedsFix, IsColumnLeaf, Parts, Trees, ConditionTree, Flat, FixParts, IsSearched;
  }

  /** A single composite index has the equality columns in front; in an OR there is
      one index for each column. */
  lemma SuggestionOrder(fix: Missing.Fix)
    ensures !fix.perBranch ==> Missing.SuggestedIndexes(fix) == [fix.equality + fix.range]
    ensures fix.perBranch ==>
      var indexes, n := Missing.SuggestedIndexes(fix), |fix.equality|;
      && |indexes| == n + |fix.range|
      && (forall k | 0 <= k < n :: indexes[k] == [fix.equality[k]])
      && (forall k | n <= k < |indexes| :: indexes[k] == [fix.range[k - n]])
  {
  }

  // ----- AP-03, one condition -----

  /** The side, without its parentheses, is an expression of the kind that the
      subtype says, and the first column in it is the one named. */
  predicate SideWraps(side: Term, w: Wrapped.Wrapped) {
    && FirstColumn([Unwrap(side)]) == Some(w.column)
    && match w.subtype
       case Some(FunctionOnColumn) => Unwrap(side).Function?
       case Some(ArithmeticOnColumn) => Unwrap(side).Arithmetic?
       case Some(ImplicitCast) => Unwrap(side).Cast?
       case None => false
  }

  predicate IsConstant(bound: Option<Term>) { bound.Some? && ColumnsIn(bound.value) == {} }

  /** The side that is compared against values; of two values the left one. */
  function ComparedSide(c: Condition): Option<Term> {
    match c
    case Compare(_, l, r) => if ColumnsIn(r) == {} then Some(l) else if ColumnsIn(l) == {} then Some(r) else None
    case In(subject, items) =>
      if |items| > 0 && (forall k | 0 <= k < |items| :: ColumnsIn(items[k]) == {}) then Some(subject) else None
    case Between(subject, low, high) => if IsConstant(low) && IsConstant(high) then Some(subject) else None
    case IsNull(subject, negated) => if negated then None else Some(subject)
    case Unsearchable(_) => None
  }

  predicate LeadsOne(column: string, leads: Option<set<string>>) { leads == None || column in leads.value }

  predicate IsBareLead(c: Condition, leads: Option<set<string>>) {
    && ComparedSide(c).Some? && Unwrap(ComparedSide(c).value).Column?
    && LeadsOne(Unwrap(ComparedSide(c).value).name, leads)
  }

  predicate WrapsLead(c: Condition, w: Wrapped.Wrapped, leads: Option<set<string>>) {
    ComparedSide(c).Some? && SideWraps(ComparedSide(c).value, w) && LeadsOne(w.column, leads)
  }

  lemma ComparedIsSearched(c: Condition)
    ensures Wrapped.SearchedSide(c).Some? <==> ComparedSide(c).Some?
    ensures ComparedSide(c).Some? ==> Wrapped.SearchedSide(c) == Some(Unwrap(ComparedSide(c).value))
  {
    match c
    case Compare(_, l, r) =>
      ValueExactlyWhen(l);
      ValueExactlyWhen(r);
    case In(_, items) => ValuesExactlyWhen(items, None);
    case Between(_, low, high) =>
      ValuesExactlyWhen([], low);
      ValuesExactlyWhen([], high);
    case _ =>
  }

  /** A condition can use an index when its side is a bare column that leads one, and
      needs rewriting when the side wraps such a column. */
  lemma WrappedReadExactly(c: Condition, leads: Option<set<string>>)
    ensures var (state, info) := Wrapped.Read(c, leads);
      && (state == OK <==> IsBareLead(c, leads))
      && (forall w: Wrapped.Wrapped :: (state, info) == (FIX, Some(w)) <==> WrapsLead(c, w, leads))
      && (state == FIX ==> info.Some?)
  {
    ComparedIsSearched(c);
    if ComparedSide(c).Some? {
      var side := Unwrap(ComparedSide(c).value);
      FirstColumnIsOne([side]);
      if side.Column? {
        Wrapped.ColumnIsItsFirst(side.name, side.ours);
      }
    }
    hide ComparedSide, Wrapped.SearchedSide, Unwrap, ColumnsInAll;
  }

  // ----- AP-03, the parts of a predicate -----

  ghost function WrappedColumn(c: Condition, leads: Option<set<string>>): Option<Wrapped.Wrapped> {
    if w: Wrapped.Wrapped :| WrapsLead(c, w, leads) then Some(w) else None
  }

  /** What is reported for the conditions among the parts, in the order written. */
  ghost function WrappedParts(parts: seq<Expr>, leads: Option<set<string>>, inOr: bool): seq<(Wrapped.Info, bool)> {
    if parts == [] then []
    else
      (if parts[0].Cond? && WrappedColumn(parts[0].c, leads).Some?
       then [(WrappedColumn(parts[0].c, leads), inOr)] else [])
      + WrappedParts(parts[1..], leads, inOr)
  }

  function Reports(ps: seq<Pair<Wrapped.Info>>): seq<(Wrapped.Info, bool)> {
    if ps == [] then []
    else [(if ps[0].leaf.Leaf? then ps[0].leaf.info else None, ps[0].inOr)] + Reports(ps[1..])
  }

  lemma {:induction false} ReportsAt(ps: seq<Pair<Wrapped.Info>>)
    ensures |Reports(ps)| == |ps|
    ensures forall k | 0 <= k < |ps| ::
      Reports(ps)[k] == (if ps[k].leaf.Leaf? then ps[k].leaf.info else None, ps[k].inOr)
  {
    if ps != [] {
      ReportsAt(ps[1..]);
    }
  }

  lemma FixesAreReports(e: Expr, leads: Option<set<string>>)
    ensures Wrapped.NonSargableFixes(e, leads) ==
      if NeedsFix(Wrapped.TreeOf(e, leads)) then Reports(FixLeaves(Wrapped.TreeOf(e, leads), false)) else []
  {
    ReportsAt(FixLeaves(Wrapped.TreeOf(e, leads), false));
    hide FixLeaves, NeedsFix;
  }

  lemma WrappedPartToFix(e: Expr, leads: Option<set<string>>)
    requires !e.Group?
    ensures var t := Wrapped.TreeOf(e, leads);
      && (t.Leaf? && t.state == FIX <==> e.Cond? && WrappedColumn(e.c, leads).Some?)
      && (t.Leaf? && t.state == FIX ==> t.info == WrappedColumn(e.c, leads))
  {
    match e
    case Cond(c) =>
      WrappedReadExactly(c, leads);
      hide Wrapped.Read, WrapsLead;
    case And(_, _) => assert Wrapped.TreeOf(e, leads).Node?;
    case Or(_, _) => assert Wrapped.TreeOf(e, leads).Node?;
  }

  lemma {:induction false} FixPartsAreReported(parts: seq<Expr>, leads: Option<set<string>>, inOr: bool)
    requires forall p | p in parts :: !p.Group?
    ensures Reports(Marked(FixParts(Trees(parts, Wrapped.Reader(leads))), inOr)) == WrappedParts(parts, leads, inOr)
  {
    if parts != [] {
      var t, ts := Wrapped.TreeOf(parts[0], leads), Trees(parts[1..], Wrapped.Reader(leads));
      FixPartsAreReported(parts[1..], leads, inOr);
      WrappedPartToFix(parts[0], leads);
      assert Trees(parts, Wrapped.Reader(leads)) == [t] + ts;
      OneReportMore(t, ts, inOr);
      hide WrappedColumn, Reports, Marked, FixParts, Trees;
    }
  }

  lemma OneReportMore(t: Tree<Wrapped.Info>, ts: seq<Tree<Wrapped.Info>>, inOr: bool)
    ensures Reports(Marked(FixParts([t] + ts), inOr)) ==
      (if t.Leaf? && t.state == FIX then [(t.info, inOr)] else []) + Reports(Marked(FixParts(ts), inOr))
  {
    FixPartsMore(t, ts, inOr);
    FixPartsMore(t, FixParts(ts), inOr);
    assert [] + FixParts(ts) == FixParts(ts);
    var rest := Marked(FixParts(ts), inOr);
    assert ([Pair(t, inOr)] + rest)[1..] == rest;
    assert [] + Reports(rest) == Reports(rest);
  }

  lemma {:induction false} SomePartWraps(parts: seq<Expr>, leads: Option<set<string>>)
    requires forall p | p in parts :: !p.Group?
    ensures FixParts(Trees(parts, Wrapped.Reader(leads))) != [] <==> WrappedParts(parts, leads, false) != []
  {
    FixPartsAreReported(parts, leads, false);
    var fix := FixParts(Trees(parts, Wrapped.Reader(leads)));
    ReportsAt(Marked(fix, false));
    hide WrappedParts, Trees, Reports;
  }

  /** For an AND with conditions to rewrite: all of them, in the order written. */
  lemma AndReportsItsConditions(e: Expr, leads: Option<set<string>>)
    requires Wrapped.NonSargableFixes(e, leads) != [] && Wrapped.TreeOf(e, leads).Node?
    requires Wrapped.TreeOf(e, leads).op == All && WrappedParts(Parts(All, e), leads, false) != []
    ensures Wrapped.NonSargableFixes(e, leads) == WrappedParts(Parts(All, e), leads, false)
  {
    var t, parts, read := Wrapped.TreeOf(e, leads), Parts(All, e), Wrapped.Reader(leads);
    ConditionTreeIsFlat(e, read);
    ChildrenAreParts(e, read);
    PartsAreBare(All, e);
    SomePartWraps(parts, leads);
    FixesAreReports(e, leads);
    AndPicksItsConditions(t, false);
    FixPartsAreReported(parts, leads, false);
    hide Wrapped.NonSargableFixes, WrappedParts, Trees, Parts, FixLeaves, FixParts, Marked, Reports, NeedsFix;
  }

  /** For an OR, and for an AND of nothing but ORs: what each part reports by itself
      is reported, and nothing else. */
  lemma NestedReportsExactly(e: Expr, leads: Option<set<string>>, w: Wrapped.Wrapped)
    requires Wrapped.NonSargableFixes(e, leads) != [] && Wrapped.TreeOf(e, leads).Node?
    requires var op := Wrapped.TreeOf(e, leads).op; op == All ==> WrappedParts(Parts(All, e), leads, false) == []
    ensures IsReportedWrap(e, leads, w) <==>
      exists p | p in Parts(Wrapped.TreeOf(e, leads).op, e) :: IsReportedWrap(p, leads, w)
  {
    var t, read := Wrapped.TreeOf(e, leads), Wrapped.Reader(leads);
    var parts := Parts(t.op, e);
    ConditionTreeIsFlat(e, read);
    ChildrenAreParts(e, read);
    PartsAreBare(t.op, e);
    SomePartWraps(parts, leads);
    FixesAreReports(e, leads);
    ReportedIsPicked(e, leads, w);
    forall p | p in parts
      ensures ConditionTree(p, read) in t.children
      ensures IsReportedWrap(p, leads, w) <==> PicksWrapped(ConditionTree(p, read), w)
    {
      TreesMembers(parts, read, ConditionTree(p, read));
      ReportedIsPicked(p, leads, w);
    }
    forall c | c in t.children ensures exists p | p in parts :: ConditionTree(p, read) == c {
      TreesMembers(parts, read, c);
    }
    forall leaf
      ensures IsPicked(t, false, leaf) <==> exists c | c in t.children :: NeedsFix(c) && IsPicked(c, false, leaf)
    {
      NestedPicks(t, leaf);
    }
    hide IsReportedWrap, IsPicked, NeedsFix, Parts, Trees, ConditionTree, Flat, FixParts, WrappedParts;
  }

  /** In an AND that cannot use an index, the column that each condition wraps is
      reported. */
  lemma EachWrappedColumnIsReported(e: Expr, leads: Option<set<string>>, part: Expr, w: Wrapped.Wrapped)
    requires Wrapped.NonSargableFixes(e, leads) != [] && Wrapped.TreeOf(e, leads).Node?
    requires Wrapped.TreeOf(e, leads).op == All && part in Parts(All, e) && part.Cond? && WrapsLead(part.c, w, leads)
    ensures IsReportedWrap(e, leads, w)
  {
    var t, read := Wrapped.TreeOf(e, leads), Wrapped.Reader(leads);
    var leaf := ConditionTree(part, read);
    ChildrenAreParts(e, read);
    TreesMembers(Parts(All, e), read, leaf);
    WrappedReadExactly(part.c, leads);
    hide WrapsLead, Wrapped.Read, Parts, Trees;
    assert (leaf.state, leaf.info) == (FIX, Some(w));
    EachConditionIsPicked(t, leaf, false);
    assert IsPicked(t, false, leaf);
    ReportedIsPicked(e, leads, w);
  }

  predicate IsReportedWrap(e: Expr, leads: Option<set<string>>, w: Wrapped.Wrapped) {
    exists f | f in Wrapped.NonSargableFixes(e, leads) :: f.0 == Some(w)
  }

  ghost predicate PicksWrapped(t: Tree<Wrapped.Info>, w: Wrapped.Wrapped) {
    NeedsFix(t) && exists leaf: Tree<Wrapped.Info> | leaf.Leaf? && leaf.info == Some(w) :: IsPicked(t, false, leaf)
  }

  lemma ReportedIsPicked(e: Expr, leads: Option<set<string>>, w: Wrapped.Wrapped)
    ensures IsReportedWrap(e, leads, w) <==> PicksWrapped(Wrapped.TreeOf(e, leads), w)
  {
    var t := Wrapped.TreeOf(e, leads);
    var ps := FixLeaves(t, false);
    FixesAreReports(e, leads);
    ReportsAt(ps);
    if NeedsFix(t) {
      FixLeavesAreFixable(t, false);
      if p :| p in ps && p.leaf.Leaf? && p.leaf.info == Some(w) {
        var k :| 0 <= k < |ps| && ps[k] == p;
        assert Reports(ps)[k] in Reports(ps) && IsPicked(t, false, p.leaf);
      }
      if f :| f in Reports(ps) && f.0 == Some(w) {
        var k :| 0 <= k < |ps| && Reports(ps)[k] == f;
        assert ps[k] in ps && IsPicked(t, false, ps[k].leaf);
      }
    }
    hide FixLeaves, NeedsFix, Reports, Wrapped.NonSargableFixes;
  }
}
