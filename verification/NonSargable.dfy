/** AP-03: wrapped columns whose rewriting would let the engine use an index
    that exists. */
module NonSargable {
  import opened Basics
  import opened IndexTree

  datatype Subtype = FunctionOnColumn | ArithmeticOnColumn | ImplicitCast

  datatype Wrapped = Wrapped(subtype: Option<Subtype>, column: string)

  type Info = Option<Wrapped>

  function WrappedSubtype(side: Term): Option<Subtype> {
    if IsValue(side) then None
    else match side
      case Function(_) => Some(FunctionOnColumn)
      case Arithmetic(_) => Some(ArithmeticOnColumn)
      case Cast(_) => Some(ImplicitCast)
      case _ => None
  }

  /** The side of a condition that an index could search once it is bare. */
  function SearchedSide(c: Condition): Option<Term> {
    match c
    case Compare(_, left, right) =>
      if IsValue(right) then Some(Unwrap(left)) else if IsValue(left) then Some(Unwrap(right)) else None
    case In(subject, items) => if items != [] && AllValues(items) then Some(Unwrap(subject)) else None
    case Between(subject, low, high) =>
      if IsBoundValue(low) && IsBoundValue(high) then Some(Unwrap(subject)) else None
    case IsNull(subject, negated) => if negated then None else Some(Unwrap(subject))
    case Unsearchable(_) => None
  }

  /** Without a set of leading columns, every column leads an index. */
  predicate Leads(column: string, leads: Option<set<string>>) { leads.Some? ==> column in leads.value }

  /** OK: a bare column that leads an index. FIX: a wrapped column that leads
      one. */
  function Read(c: Condition, leads: Option<set<string>>): (State, Info) {
    var side := SearchedSide(c);
    if side.None? then (OTHER, None)
    else
      var column := FirstColumn([side.value]);
      if column.None? || !Leads(column.value, leads) then (OTHER, None)
      else if side.value.Column? then (OK, Some(Wrapped(None, column.value)))
      else
        var subtype := WrappedSubtype(side.value);
        if subtype.Some? then (FIX, Some(Wrapped(subtype, column.value))) else (OTHER, None)
  }

  function Reader(leads: Option<set<string>>): Reading<Info> { (c: Condition) => Read(c, leads) }

  function TreeOf(e: Expr, leads: Option<set<string>>): Tree<Info> { ConditionTree(e, Reader(leads)) }

  /** The wrapped columns to rewrite, each marked if it is inside an OR. */
  function NonSargableFixes(e: Expr, leads: Option<set<string>>): seq<(Info, bool)> {
    var t := TreeOf(e, leads);
    if !NeedsFix(t) then []
    else
      var ps := FixLeaves(t, false);
      seq(|ps|, k requires 0 <= k < |ps| => (if ps[k].leaf.Leaf? then ps[k].leaf.info else None, ps[k].inOr))
  }

  function Reported(fixes: seq<(Info, bool)>): set<Info> { set f | f in fixes :: f.0 }

  /** A condition picked for rewriting wraps a column. */
  lemma FixesWrapColumns(e: Expr, leads: Option<set<string>>)
    ensures forall f | f in NonSargableFixes(e, leads) :: f.0.Some?
  {
    if NeedsFix(TreeOf(e, leads)) {
      FixLeavesAreFixable(TreeOf(e, leads), false);
      var ok := (state: State, info: Info) => state == FIX ==> info.Some?;
      ReadingsFillLeaves(e, Reader(leads), ok);
      FixLeavesAreLeaves(TreeOf(e, leads), false, ok);
    }
  }

  /** The wrapped columns of the fixes, as often as they come. */
  function WrappedIn(fixes: seq<(Info, bool)>): seq<Wrapped> {
    if fixes == [] then []
    else
      var before, last := WrappedIn(fixes[..|fixes| - 1]), fixes[|fixes| - 1];
      if last.0.Some? then before + [last.0.value] else before
  }

  lemma {:induction false} WrappedInMembers(fixes: seq<(Info, bool)>, w: Wrapped)
    ensures w in WrappedIn(fixes) <==> Some(w) in Reported(fixes)
  {
    if fixes != [] {
      WrappedInMembers(fixes[..|fixes| - 1], w);
      assert forall f :: f in fixes <==> f in fixes[..|fixes| - 1] || f == fixes[|fixes| - 1];
    }
  }

  /** The wrapped columns to report, each once, in order of first appearance. */
  method DetectPredicateSubtypes(e: Expr, leads: Option<set<string>>) returns (found: seq<Wrapped>)
    ensures found == Distinct(WrappedIn(NonSargableFixes(e, leads)))
    ensures forall w :: w in found <==> Some(w) in Reported(NonSargableFixes(e, leads))
  {
    var tree := BuildConditionTree(e, Reader(leads));
    found := [];
    if Usable(tree, false) || !Usable(tree, true) { return; }
    FixesWrapColumns(e, leads);
    var fixes := NonSargableFixes(e, leads);
    for k := 0 to |fixes|
      invariant found == Distinct(WrappedIn(fixes[..k]))
    {
      assert fixes[k] in fixes && fixes[..k + 1][..k] == fixes[..k];
      var before, w := WrappedIn(fixes[..k]), fixes[k].0.value;
      assert (before + [w])[..|before|] == before;
      if w !in found {
        found := found + [w];
      }
    }
    assert fixes[..|fixes|] == fixes;
    forall w ensures w in found <==> Some(w) in Reported(fixes) {
      WrappedInMembers(fixes, w);
    }
  }

  /** The searched side of a condition wraps its first column, which leads an
      index, in what the subtype says. */
  predicate Wraps(c: Condition, w: Wrapped, leads: Option<set<string>>) {
    && SearchedSide(c).Some? && Leads(w.column, leads)
    && var side := SearchedSide(c).value;
    && FirstColumn([side]) == Some(w.column)
    && match w.subtype
       case Some(FunctionOnColumn) => side.Function?
       case Some(ArithmeticOnColumn) => side.Arithmetic?
       case Some(ImplicitCast) => side.Cast?
       case None => false
  }

  /** Whatever AP-03 reports is a wrapped column of some condition. */
  lemma ReportedIsWrapped(e: Expr, leads: Option<set<string>>, w: Wrapped)
    requires Some(w) in Reported(NonSargableFixes(e, leads))
    ensures exists c | c in Conditions(e) :: Wraps(c, w, leads)
  {
    var ok := (state: State, info: Info) =>
      state == FIX ==> info.Some? && exists c | c in Conditions(e) :: Wraps(c, info.value, leads);
    FixLeavesAreFixable(TreeOf(e, leads), false);
    forall c | c in Conditions(e) ensures ok(Read(c, leads).0, Read(c, leads).1) {
      assert Read(c, leads).0 == FIX ==> Wraps(c, Read(c, leads).1.value, leads);
    }
    ReadingsFillLeaves(e, Reader(leads), ok);
    FixLeavesAreLeaves(TreeOf(e, leads), false, ok);
    var ps := FixLeaves(TreeOf(e, leads), false);
    var k :| 0 <= k < |ps| && NonSargableFixes(e, leads)[k].0 == Some(w);
    assert ps[k] in ps;
  }

  // ----- rewriting -----

  /** The condition with its searched side replaced by the bare column. */
  function Bare(c: Condition, column: string): Condition {
    match c
    case Compare(isEquality, left, right) =>
      if IsValue(right) then Compare(isEquality, Column(column, true), right)
      else Compare(isEquality, left, Column(column, true))
    case In(_, items) => In(Column(column, true), items)
    case Between(_, low, high) => Between(Column(column, true), low, high)
    case IsNull(_, negated) => IsNull(Column(column, true), negated)
    case Unsearchable(_) => c
  }

  /** Rewrites a condition if its wrapped column was reported. */
  function Rewrite(c: Condition, leads: Option<set<string>>, reported: set<Info>): Condition {
    var r := Read(c, leads);
    if r.0 == FIX && r.1 in reported && r.1.Some? then Bare(c, r.1.value.column) else c
  }

  function RewriteAll(e: Expr, leads: Option<set<string>>, reported: set<Info>): Expr {
    match e
    case Group(inner) => Group(RewriteAll(inner, leads, reported))
    case And(l, r) => And(RewriteAll(l, leads, reported), RewriteAll(r, leads, reported))
    case Or(l, r) => Or(RewriteAll(l, leads, reported), RewriteAll(r, leads, reported))
    case Cond(c) => Cond(Rewrite(c, leads, reported))
  }

  lemma ColumnIsItsFirst(name: string, ours: bool)
    ensures FirstColumn([Column(name, ours)]) == Some(name)
  {
  }

  /** A rewritten condition can use the index its column leads; the others read
      as before. */
  lemma RewriteReadsOk(c: Condition, leads: Option<set<string>>, reported: set<Info>)
    ensures
      var r, after := Read(c, leads), Read(Rewrite(c, leads, reported), leads);
      if r.0 == FIX && r.1 in reported then after.0 == OK else after == r
  {
    var r := Read(c, leads);
    if r.0 == FIX && r.1 in reported {
      ColumnIsItsFirst(r.1.value.column, true);
    }
  }

  lemma {:induction false} RewrittenTree(e: Expr, leads: Option<set<string>>, reported: set<Info>)
    ensures TreeOf(RewriteAll(e, leads, reported), leads)
      == ConditionTree(e, (c: Condition) => Read(Rewrite(c, leads, reported), leads))
  {
    match e
    case Group(inner) => RewrittenTree(inner, leads, reported);
    case And(l, r) =>
      RewrittenTree(l, leads, reported);
      RewrittenTree(r, leads, reported);
    case Or(l, r) =>
      RewrittenTree(l, leads, reported);
      RewrittenTree(r, leads, reported);
    case Cond(c) =>
  }

  /** Rewriting the reported columns makes the predicate usable, and AP-03 then
      reports nothing. */
  lemma RewritingMakesUsable(e: Expr, leads: Option<set<string>>)
    requires NonSargableFixes(e, leads) != []
    ensures
      var rewritten := RewriteAll(e, leads, Reported(NonSargableFixes(e, leads)));
      Usable(TreeOf(rewritten, leads), false) && NonSargableFixes(rewritten, leads) == []
  {
    var t, fixes := TreeOf(e, leads), NonSargableFixes(e, leads);
    var reported, ps := Reported(fixes), FixLeaves(t, false);
    var good := (info: Info) => info in reported;
    var better := (c: Condition) => Read(Rewrite(c, leads, reported), leads);
    forall c: Condition ensures var r := Read(c, leads);
      r.0 == OK || (r.0 == FIX && good(r.1)) ==> better(c).0 == OK
    {
      RewriteReadsOk(c, leads, reported);
    }
    BetterReadingRepairs(e, better, Reader(leads), good);
    FixLeavesAreFixable(t, false);
    forall p | p in ps ensures good(p.leaf.info) {
      var k :| 0 <= k < |ps| && ps[k] == p;
      assert fixes[k] in fixes && fixes[k].0 == p.leaf.info;
    }
    RewrittenTree(e, leads, reported);
    FixingAllWorks(TreeOf(RewriteAll(e, leads, reported), leads), t, good, false);
  }

  lemma FixesWhenNeeded(e: Expr, leads: Option<set<string>>)
    ensures NonSargableFixes(e, leads) != [] <==> NeedsFix(TreeOf(e, leads))
  {
    if NeedsFix(TreeOf(e, leads)) {
      FixLeavesAreFixable(TreeOf(e, leads), false);
    }
  }

  /** AP-03 speaks exactly when the predicate can use no index today and would
      use one after rewriting some of its wrapped columns. */
  lemma ReportsExactlyWhenRewritingHelps(e: Expr, leads: Option<set<string>>)
    ensures NonSargableFixes(e, leads) != [] <==>
      && !Usable(TreeOf(e, leads), false)
      && exists rewritten: set<Info> :: Usable(TreeOf(RewriteAll(e, leads, rewritten), leads), false)
  {
    FixesWhenNeeded(e, leads);
    if NeedsFix(TreeOf(e, leads)) {
      RewritingMakesUsable(e, leads);
    } else if rewritten: set<Info> :| Usable(TreeOf(RewriteAll(e, leads, rewritten), leads), false) {
      var after := (c: Condition) => Read(Rewrite(c, leads, rewritten), leads);
      forall c: Condition ensures after(c).0 == OK ==> Read(c, leads).0 != OTHER {
        RewriteReadsOk(c, leads, rewritten);
      }
      RewrittenTree(e, leads, rewritten);
      FlatteningKeepsUsable(e, after, false);
      FixesBound(e, after, Reader(leads));
      FlatteningKeepsUsable(e, Reader(leads), true);
    }
  }
}
