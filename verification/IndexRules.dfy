/** AP-03 and AP-04 on the same predicate of a single table. */
module IndexRules {
  import opened Basics
  import opened IndexTree
  import Missing = MissingIndex
  import Wrapped = NonSargable

  /** A column that stands alone on a side is a named column of the table. */
  predicate Ours(t: Term) { Unwrap(t).Column? ==> Unwrap(t).ours && Unwrap(t).name != "" }

  predicate ConditionOurs(c: Condition) {
    match c
    case Compare(_, left, right) => Ours(left) && Ours(right)
    case In(subject, _) => Ours(subject)
    case Between(subject, _, _) => Ours(subject)
    case IsNull(subject, _) => Ours(subject)
    case Unsearchable(_) => true
  }

  /** The predicate of a simple SELECT: every column belongs to its table. */
  predicate SingleTable(e: Expr) { forall c | c in Conditions(e) :: ConditionOurs(c) }

  predicate RewriteHelps(e: Expr, leads: set<string>) { Wrapped.NonSargableFixes(e, Some(leads)) != [] }

  predicate IndexHelps(e: Expr, leads: set<string>) { Missing.IndexFixOf(e, leads, _ => true).Some? }

  predicate UsableToday(e: Expr, leads: set<string>) { Usable(Missing.TreeOf(e, leads), false) }

  lemma {:induction false} UnwrapKeepsColumns(t: Term)
    ensures FirstColumn([Unwrap(t)]) == FirstColumn([t])
  {
    if t.Paren? {
      UnwrapKeepsColumns(t.inner);
      assert [t][1..] + Children(t) == [t.inner];
    }
  }

  lemma BareSide(t: Term)
    requires Ours(t)
    ensures Unwrap(t).Column? <==> Missing.BareColumn(t).Some?
    ensures Unwrap(t).Column? ==> FirstColumn([Unwrap(t)]) == Some(Unwrap(t).name) && !IsValue(t)
  {
    UnwrapKeepsColumns(t);
    if Unwrap(t).Column? {
      Wrapped.ColumnIsItsFirst(Unwrap(t).name, Unwrap(t).ours);
    }
  }

  /** On one table the two rules agree on what is usable today, and no condition
      can be repaired by both. */
  lemma RulesReadAlike(c: Condition, leads: set<string>)
    requires ConditionOurs(c)
    ensures Missing.Read(c, leads).0 == OK <==> Wrapped.Read(c, Some(leads)).0 == OK
    ensures !(Missing.Read(c, leads).0 == FIX && Wrapped.Read(c, Some(leads)).0 == FIX)
  {
    match c
    case Compare(_, left, right) => BareSide(left); BareSide(right);
    case In(subject, _) => BareSide(subject);
    case Between(subject, _, _) => BareSide(subject);
    case IsNull(subject, _) => BareSide(subject);
    case Unsearchable(_) =>
  }

  /** The three questions, read off the predicate as it was written. */
  lemma AsWritten(e: Expr, leads: set<string>)
    ensures UsableToday(e, leads) <==> UsableAsWritten(e, Missing.Reader(leads), false)
    ensures IndexHelps(e, leads) <==> !UsableToday(e, leads) && UsableAsWritten(e, Missing.Reader(leads), true)
    ensures RewriteHelps(e, leads) <==>
      !UsableAsWritten(e, Wrapped.Reader(Some(leads)), false) && UsableAsWritten(e, Wrapped.Reader(Some(leads)), true)
  {
    FlatteningKeepsUsable(e, Missing.Reader(leads), false);
    FlatteningKeepsUsable(e, Missing.Reader(leads), true);
    FlatteningKeepsUsable(e, Wrapped.Reader(Some(leads)), false);
    FlatteningKeepsUsable(e, Wrapped.Reader(Some(leads)), true);
    Wrapped.FixesWhenNeeded(e, Some(leads));
  }

  lemma {:induction false} UsableTodayAlike(e: Expr, leads: set<string>)
    requires SingleTable(e)
    ensures UsableAsWritten(e, Missing.Reader(leads), false) <==> UsableAsWritten(e, Wrapped.Reader(Some(leads)), false)
    ensures UsableAsWritten(e, Missing.Reader(leads), false) ==>
      UsableAsWritten(e, Missing.Reader(leads), true) && UsableAsWritten(e, Wrapped.Reader(Some(leads)), true)
  {
    match e
    case Group(inner) => UsableTodayAlike(inner, leads);
    case Cond(c) =>
      RulesReadAlike(c, leads);
    case And(l, r) =>
      UsableTodayAlike(l, leads);
      UsableTodayAlike(r, leads);
    case Or(l, r) =>
      UsableTodayAlike(l, leads);
      UsableTodayAlike(r, leads);
  }

  /** Some AND has one part that an index repairs and another that a rewriting
      repairs, and nothing around it needs anything else. */
  predicate HasSplitAnd(e: Expr, leads: set<string>) {
    match e
    case Cond(_) => false
    case Group(inner) => HasSplitAnd(inner, leads)
    case And(l, r) =>
      && !UsableToday(l, leads) && !UsableToday(r, leads)
      && (|| HasSplitAnd(l, leads) || HasSplitAnd(r, leads)
          || (IndexHelps(l, leads) && RewriteHelps(r, leads))
          || (RewriteHelps(l, leads) && IndexHelps(r, leads)))
    case Or(l, r) =>
      && (UsableToday(l, leads) || HasSplitAnd(l, leads))
      && (UsableToday(r, leads) || HasSplitAnd(r, leads))
      && !(UsableToday(l, leads) && UsableToday(r, leads))
  }

  /** Exactly the predicates on which both rules report something. */
  lemma {:induction false} BothReportExactlyOnSplitAnd(e: Expr, leads: set<string>)
    requires SingleTable(e)
    ensures IndexHelps(e, leads) && RewriteHelps(e, leads) <==> HasSplitAnd(e, leads)
  {
    AsWritten(e, leads);
    UsableTodayAlike(e, leads);
    match e
    case Cond(c) => RulesReadAlike(c, leads);
    case Group(inner) =>
      BothReportExactlyOnSplitAnd(inner, leads);
      AsWritten(inner, leads);
      UsableTodayAlike(inner, leads);
    case And(l, r) =>
      BothReportExactlyOnSplitAnd(l, leads);
      BothReportExactlyOnSplitAnd(r, leads);
      AsWritten(l, leads);
      AsWritten(r, leads);
      UsableTodayAlike(l, leads);
      UsableTodayAlike(r, leads);
    case Or(l, r) =>
      BothReportExactlyOnSplitAnd(l, leads);
      BothReportExactlyOnSplitAnd(r, leads);
      AsWritten(l, leads);
      AsWritten(r, leads);
      UsableTodayAlike(l, leads);
      UsableTodayAlike(r, leads);
  }

  predicate HasAnd(e: Expr) {
    match e
    case Cond(_) => false
    case Group(inner) => HasAnd(inner)
    case And(_, _) => true
    case Or(l, r) => HasAnd(l) || HasAnd(r)
  }

  /** Where an AND takes part that an index and a rewriting repair on
      different sides. */
  predicate IsSplit(e: Expr, leads: set<string>) {
    && e.And?
    && (|| (IndexHelps(e.l, leads) && RewriteHelps(e.r, leads))
        || (RewriteHelps(e.l, leads) && IndexHelps(e.r, leads)))
  }

  function Parts(e: Expr): set<Expr> {
    {e} + match e
      case Cond(_) => {}
      case Group(inner) => Parts(inner)
      case And(l, r) => Parts(l) + Parts(r)
      case Or(l, r) => Parts(l) + Parts(r)
  }

  lemma {:induction false} SplitAndContainsSplit(e: Expr, leads: set<string>) returns (part: Expr)
    requires HasSplitAnd(e, leads)
    ensures part in Parts(e) && IsSplit(part, leads) && HasAnd(e)
  {
    match e
    case Group(inner) => part := SplitAndContainsSplit(inner, leads);
    case And(l, r) =>
      if HasSplitAnd(l, leads) {
        part := SplitAndContainsSplit(l, leads);
      } else if HasSplitAnd(r, leads) {
        part := SplitAndContainsSplit(r, leads);
      } else {
        part := e;
      }
    case Or(l, r) =>
      if HasSplitAnd(l, leads) {
        part := SplitAndContainsSplit(l, leads);
      } else {
        part := SplitAndContainsSplit(r, leads);
      }
  }

  /** When both rules report, an AND inside the predicate has one part for each;
      so without an AND they never both report. */
  lemma BothReportNeedsAnd(e: Expr, leads: set<string>) returns (part: Expr)
    requires SingleTable(e) && IndexHelps(e, leads) && RewriteHelps(e, leads)
    ensures part in Parts(e) && IsSplit(part, leads) && HasAnd(e)
  {
    BothReportExactlyOnSplitAnd(e, leads);
    part := SplitAndContainsSplit(e, leads);
  }

  /** An AND of a bare column without an index and a wrapped column with one:
      both rules report, each with a repair that is enough on its own. */
  lemma BothReportOnMixedPair(a: Condition, b: Condition, leads: set<string>)
    requires Missing.Read(a, leads).0 == FIX && Missing.Read(b, leads).0 != OK
    requires Wrapped.Read(b, Some(leads)).0 == FIX && Wrapped.Read(a, Some(leads)).0 != OK
    ensures IndexHelps(And(Cond(a), Cond(b)), leads) && RewriteHelps(And(Cond(a), Cond(b)), leads)
  {
    var byIndex, byRewrite := Missing.Reader(leads), Wrapped.Reader(Some(leads));
    assert UsableAsWritten(Cond(a), byIndex, true) && !UsableAsWritten(Cond(a), byIndex, false);
    assert UsableAsWritten(Cond(b), byRewrite, true) && !UsableAsWritten(Cond(b), byRewrite, false);
    assert !UsableAsWritten(Cond(b), byIndex, false) && !UsableAsWritten(Cond(a), byRewrite, false);
    AsWritten(And(Cond(a), Cond(b)), leads);
  }

  const PARAMETER := Other([])
  const LOWER_NOTE := Function([Column("note", true)])
  const BY_CODE := Compare(true, Column("code", true), PARAMETER)
  const BY_LOWER_NOTE := Compare(true, LOWER_NOTE, PARAMETER)

  /** `code = $1 AND lower(note) = $2` with an index on note is such a pair. */
  lemma BothCanReport()
    ensures IndexHelps(And(Cond(BY_CODE), Cond(BY_LOWER_NOTE)), {"note"})
    ensures RewriteHelps(And(Cond(BY_CODE), Cond(BY_LOWER_NOTE)), {"note"})
  {
    assert [PARAMETER][1..] + Children(PARAMETER) == [];
    assert IsValue(PARAMETER);
    Wrapped.ColumnIsItsFirst("note", true);
    Wrapped.ColumnIsItsFirst("code", true);
    assert [LOWER_NOTE][1..] + Children(LOWER_NOTE) == [Column("note", true)];
    BothReportOnMixedPair(BY_CODE, BY_LOWER_NOTE, {"note"});
  }
}
