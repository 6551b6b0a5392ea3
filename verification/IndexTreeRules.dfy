/** Which conditions of a predicate a repair picks, and in which order, told from
    its AND and OR parts. */
module IndexTreeRules {
  import opened Basics
  import opened IndexTree

  // ----- terms -----

  /** Unwrapping takes off every parenthesis and nothing else. */
  lemma UnwrapPeels(t: Term)
    ensures !Unwrap(t).Paren?
    ensures Unwrap(Paren(t)) == Unwrap(t)
    ensures !t.Paren? ==> Unwrap(t) == t
  {
  }

  function ChildrenOfAll(ts: seq<Term>): seq<Term> {
    if ts == [] then [] else Children(ts[0]) + ChildrenOfAll(ts[1..])
  }

  function FirstIn(ts: seq<Term>): Option<string> {
    if ts == [] then None else if ts[0].Column? then Some(ts[0].name) else FirstIn(ts[1..])
  }

  lemma {:induction false} LevelThenRest(level: seq<Term>, rest: seq<Term>)
    ensures FirstColumn(level + rest) ==
      if FirstIn(level).Some? then FirstIn(level) else FirstColumn(rest + ChildrenOfAll(level))
  {
    if level == [] {
      assert level + rest == rest && rest + ChildrenOfAll(level) == rest;
    } else if !level[0].Column? {
      var more := rest + Children(level[0]);
      assert (level + rest)[1..] + Children(level[0]) == level[1..] + more;
      LevelThenRest(level[1..], more);
      assert rest + ChildrenOfAll(level) == more + ChildrenOfAll(level[1..]);
    }
  }

  /** The first column of a list of terms is the leftmost of its columns or, when
      none is one, the first column of their children: the search goes level by
      level. */
  lemma FirstColumnByLevels(level: seq<Term>)
    ensures FirstColumn(level) ==
      if FirstIn(level).Some? then FirstIn(level) else FirstColumn(ChildrenOfAll(level))
  {
    assert level + [] == level && [] + ChildrenOfAll(level) == ChildrenOfAll(level);
    LevelThenRest(level, []);
  }

  function ColumnsIn(t: Term): set<string>
    decreases Size(t), 0
  {
    if t.Column? then {t.name}
    else
      ChildrenAreSmaller(t);
      ColumnsInAll(Children(t))
  }

  function ColumnsInAll(ts: seq<Term>): set<string>
    decreases SizeOfAll(ts), 1
  {
    if ts == [] then {}
    else
      SizeOfConcat([ts[0]], ts[1..]);
      assert [ts[0]] + ts[1..] == ts && [ts[0]][1..] == [];
      AtLeastOne(ts[0]);
      ColumnsIn(ts[0]) + ColumnsInAll(ts[1..])
  }

  lemma AtLeastOne(t: Term)
    ensures Size(t) >= 1
  {
  }

  lemma {:induction false} ColumnsInConcat(a: seq<Term>, b: seq<Term>)
    ensures ColumnsInAll(a + b) == ColumnsInAll(a) + ColumnsInAll(b)
  {
    if a == [] {
      assert a + b == b;
    } else {
      assert (a + b)[1..] == a[1..] + b;
      ColumnsInConcat(a[1..], b);
    }
  }

  lemma {:induction false} FirstColumnIsOne(queue: seq<Term>)
    ensures FirstColumn(queue).None? <==> ColumnsInAll(queue) == {}
    ensures FirstColumn(queue).Some? ==> FirstColumn(queue).value in ColumnsInAll(queue)
    decreases SizeOfAll(queue)
  {
    if queue != [] && !queue[0].Column? {
      SizeOfConcat(queue[1..], Children(queue[0]));
      ChildrenAreSmaller(queue[0]);
      FirstColumnIsOne(queue[1..] + Children(queue[0]));
      ColumnsInConcat(queue[1..], Children(queue[0]));
    }
  }

  /** A value is a side without columns. */
  lemma ValueExactlyWhen(t: Term)
    ensures IsValue(t) <==> ColumnsIn(t) == {}
  {
    FirstColumnIsOne([t]);
    assert [t][1..] == [];
  }

  // ----- what a repair picks -----

  /** The conditions among the parts that can be repaired. */
  function FixParts<I(==)>(parts: seq<Tree<I>>): seq<Tree<I>> {
    if parts == [] then []
    else (if parts[0].Leaf? && parts[0].state == FIX then [parts[0]] else []) + FixParts(parts[1..])
  }

  function Marked<I>(leaves: seq<Tree<I>>, inOr: bool): seq<Pair<I>> {
    if leaves == [] then [] else [Pair(leaves[0], inOr)] + Marked(leaves[1..], inOr)
  }

  /** What the parts pick, part by part, of those that need a repair and have one. */
  function PickedIn<I(==,!new)>(parts: seq<Tree<I>>, inOr: bool): seq<Pair<I>> {
    if parts == [] then []
    else (if NeedsFix(parts[0]) then FixLeaves(parts[0], inOr) else []) + PickedIn(parts[1..], inOr)
  }

  lemma {:induction false} FilterFilters<T(!new)>(s: seq<T>, p: T -> bool, q: T -> bool, both: T -> bool)
    requires forall x | x in s :: both(x) <==> p(x) && q(x)
    ensures Filter(Filter(s, p), q) == Filter(s, both)
  {
    if s != [] {
      FilterFilters(s[1..], p, q, both);
      if p(s[0]) {
        assert ([s[0]] + Filter(s[1..], p))[1..] == Filter(s[1..], p);
      }
    }
  }

  lemma {:induction false} FixPartsAreFiltered<I(!new)>(parts: seq<Tree<I>>, p: Tree<I> -> bool)
    requires forall c | c in parts :: p(c) <==> c.Leaf? && c.state == FIX
    ensures FixParts(parts) == Filter(parts, p)
  {
    if parts != [] {
      FixPartsAreFiltered(parts[1..], p);
    }
  }

  lemma {:induction false} PlainPicksAreMarked<I(!new)>(parent: Tree<I>, ts: seq<Tree<I>>, inOr: bool)
    requires parent.Node? && forall t | t in ts :: t in parent.children && t.Leaf?
    ensures FixLeavesOfAll(parent, ts, inOr) == Marked(ts, inOr)
  {
    if ts != [] {
      PlainPicksAreMarked(parent, ts[1..], inOr);
      assert FixLeavesOfAll(parent, ts, inOr) == FixLeaves(ts[0], inOr) + FixLeavesOfAll(parent, ts[1..], inOr);
    }
  }

  lemma {:induction false} FilteredPicks<I(!new)>(parent: Tree<I>, ts: seq<Tree<I>>, p: Tree<I> -> bool, inOr: bool)
    requires parent.Node? && forall t | t in ts :: t in parent.children
    requires forall t | t in ts :: p(t) <==> NeedsFix(t)
    ensures FixLeavesOfAll(parent, Filter(ts, p), inOr) == PickedIn(ts, inOr)
  {
    if ts != [] {
      FilteredPicks(parent, ts[1..], p, inOr);
      var rest := Filter(ts[1..], p);
      if p(ts[0]) {
        assert Filter(ts, p) == [ts[0]] + rest && ([ts[0]] + rest)[1..] == rest;
        assert FixLeavesOfAll(parent, [ts[0]] + rest, inOr)
          == FixLeaves(ts[0], inOr) + FixLeavesOfAll(parent, rest, inOr);
      }
    }
  }

  lemma NoPartUsable<I(!new)>(t: Tree<I>)
    requires t.Node? && NeedsFix(t)
    ensures t.op == All ==> forall c | c in t.children :: !Usable(c, false)
    ensures t.op == Any ==> forall c | c in t.children :: Usable(c, true)
  {
  }

  /** An AND with conditions that can be repaired picks all of them, in order, and
      nothing else. */
  lemma AndPicksItsConditions<I(!new)>(t: Tree<I>, inOr: bool)
    requires Flat(t) && t.Node? && t.op == All && NeedsFix(t) && FixParts(t.children) != []
    ensures FixLeaves(t, inOr) == Marked(FixParts(t.children), inOr)
  {
    NoPartUsable(t);
    var fixable, noOr, both := (c: Tree<I>) => Usable(c, true), (c: Tree<I>) => !HasOr(c),
      (c: Tree<I>) => Usable(c, true) && !HasOr(c);
    forall c | c in t.children ensures both(c) <==> c.Leaf? && c.state == FIX {
      assert Flat(c) && !(c.Node? && c.op == All);
    }
    FilterFilters(t.children, fixable, noOr, both);
    FixPartsAreFiltered(t.children, both);
    assert Chosen(t.children) == FixParts(t.children) by {
      SameFilter(t.children, c => Usable(c, true), fixable);
      SameFilter(Filter(t.children, fixable), c => !HasOr(c), noOr);
    }
    PlainPicksAreMarked(t, FixParts(t.children), inOr);
  }

  /** Each condition of an AND that can be repaired is picked. */
  lemma EachConditionIsPicked<I(!new)>(t: Tree<I>, p: Tree<I>, inOr: bool)
    requires t.Node? && t.op == All && p in t.children && p.Leaf? && p.state == FIX
    ensures Pair(p, inOr) in FixLeaves(t, inOr)
  {
    assert p in Filter(t.children, c => Usable(c, true)) && p in Chosen(t.children);
    FixLeavesMembers(t, Chosen(t.children), inOr);
    assert FixLeaves(p, inOr) == [Pair(p, inOr)];
  }

  lemma {:induction false} SameFilter<T(!new)>(s: seq<T>, p: T -> bool, q: T -> bool)
    requires forall x | x in s :: p(x) <==> q(x)
    ensures Filter(s, p) == Filter(s, q)
  {
    if s != [] {
      SameFilter(s[1..], p, q);
    }
  }

  /** An AND of ORs picks what each OR picks that can be repaired. */
  lemma AndOfOrsPicksInEach<I(!new)>(t: Tree<I>, inOr: bool)
    requires Flat(t) && t.Node? && t.op == All && NeedsFix(t) && FixParts(t.children) == []
    ensures FixLeaves(t, inOr) == PickedIn(t.children, inOr)
  {
    NoPartUsable(t);
    var both := (c: Tree<I>) => Usable(c, true) && !HasOr(c);
    forall c | c in t.children ensures both(c) <==> c.Leaf? && c.state == FIX {
      assert Flat(c) && !(c.Node? && c.op == All);
    }
    FilterFilters(t.children, c => Usable(c, true), c => !HasOr(c), both);
    FixPartsAreFiltered(t.children, both);
    FilteredPicks(t, t.children, c => Usable(c, true), inOr);
  }

  /** An OR picks what each branch picks that needs a repair. */
  lemma OrPicksInEach<I(!new)>(t: Tree<I>, inOr: bool)
    requires t.Node? && t.op == Any && NeedsFix(t)
    ensures FixLeaves(t, inOr) == PickedIn(t.children, true)
  {
    NoPartUsable(t);
    FilteredPicks(t, t.children, c => !Usable(c, false), true);
  }

  // ----- the parts as they were written -----

  /** The parts of a predicate between its ANDs, or between its ORs. */
  function Parts(op: Connective, e: Expr): seq<Expr> {
    match e
    case Group(inner) => Parts(op, inner)
    case And(l, r) => if op == All then Parts(op, l) + Parts(op, r) else [e]
    case Or(l, r) => if op == Any then Parts(op, l) + Parts(op, r) else [e]
    case Cond(_) => [e]
  }

  function Trees<I>(es: seq<Expr>, read: Reading<I>): seq<Tree<I>> {
    if es == [] then [] else [ConditionTree(es[0], read)] + Trees(es[1..], read)
  }

  lemma {:induction false} TreesConcat<I>(a: seq<Expr>, b: seq<Expr>, read: Reading<I>)
    ensures Trees(a + b, read) == Trees(a, read) + Trees(b, read)
  {
    if a == [] {
      assert a + b == b;
    } else {
      assert (a + b)[1..] == a[1..] + b;
      TreesConcat(a[1..], b, read);
    }
  }

  lemma {:induction false} SpliceGivesParts<I>(op: Connective, e: Expr, read: Reading<I>)
    ensures Splice(op, ConditionTree(e, read)) == Trees(Parts(op, e), read)
  {
    match e
    case Group(inner) => SpliceGivesParts(op, inner, read);
    case Cond(_) => assert [e][1..] == [];
    case And(l, r) =>
      assert [e][1..] == [];
      if op == All {
        SpliceGivesParts(op, l, read);
        SpliceGivesParts(op, r, read);
        TreesConcat(Parts(op, l), Parts(op, r), read);
      }
    case Or(l, r) =>
      assert [e][1..] == [];
      if op == Any {
        SpliceGivesParts(op, l, read);
        SpliceGivesParts(op, r, read);
        TreesConcat(Parts(op, l), Parts(op, r), read);
      }
  }

  /** The children of the tree are the trees of the parts, in the order written. */
  lemma ChildrenAreParts<I>(e: Expr, read: Reading<I>)
    requires ConditionTree(e, read).Node?
    ensures ConditionTree(e, read).children == Trees(Parts(ConditionTree(e, read).op, e), read)
  {
    SpliceGivesParts(ConditionTree(e, read).op, e, read);
  }

  /** An OR occurs in the predicate, at any depth. */
  predicate ContainsOr(e: Expr) {
    match e
    case Group(inner) => ContainsOr(inner)
    case And(l, r) => ContainsOr(l) || ContainsOr(r)
    case Or(_, _) => true
    case Cond(_) => false
  }

  /** Which parts of an AND are passed over when there are plain ones. */
  lemma {:induction false} HasOrExactlyWhen<I>(e: Expr, read: Reading<I>)
    ensures HasOr(ConditionTree(e, read)) <==> ContainsOr(e)
  {
    match e
    case Group(inner) => HasOrExactlyWhen(inner, read);
    case And(l, r) =>
      HasOrExactlyWhen(l, read);
      HasOrExactlyWhen(r, read);
      SpliceKeepsOr(ConditionTree(l, read));
      SpliceKeepsOr(ConditionTree(r, read));
      var a, b := Splice(All, ConditionTree(l, read)), Splice(All, ConditionTree(r, read));
      assert forall c :: c in a + b <==> c in a || c in b;
      hide Splice;
    case _ =>
  }

  lemma SpliceKeepsOr<I>(t: Tree<I>)
    ensures HasOr(t) <==> exists c | c in Splice(All, t) :: HasOr(c)
  {
    if !(t.Node? && t.op == All) {
      assert t in Splice(All, t);
    }
  }

  // ----- the mark does not change what is picked -----

  lemma {:induction false} SameLeaves<I(!new)>(t: Tree<I>, a: bool, b: bool, p: Pair<I>)
    requires p in FixLeaves(t, a)
    ensures IsPicked(t, b, p.leaf)
  {
    if t.Leaf? {
      assert Pair(t, b) in FixLeaves(t, b);
    } else {
      var parts := if t.op == Any then Broken(t.children) else Chosen(t.children);
      var x, y := t.op == Any || a, t.op == Any || b;
      FixLeavesMembers(t, parts, x);
      FixLeavesMembers(t, parts, y);
      var c :| c in parts && p in FixLeaves(c, x);
      SameLeaves(c, x, y, p);
      var q :| q in FixLeaves(c, y) && q.leaf == p.leaf;
      assert q in FixLeaves(t, b);
    }
  }

  predicate IsPicked<I(==,!new)>(t: Tree<I>, inOr: bool, leaf: Tree<I>) {
    exists p | p in FixLeaves(t, inOr) :: p.leaf == leaf
  }

  lemma {:induction false} PickedInMembers<I(!new)>(parts: seq<Tree<I>>, inOr: bool, p: Pair<I>)
    ensures p in PickedIn(parts, inOr) <==> exists c | c in parts :: NeedsFix(c) && p in FixLeaves(c, inOr)
  {
    if parts != [] {
      PickedInMembers(parts[1..], inOr, p);
      assert forall c :: c in parts <==> c == parts[0] || c in parts[1..];
      hide NeedsFix, FixLeaves;
    }
  }

  /** An OR, or an AND of nothing but ORs, picks the conditions that its parts pick
      by themselves, of the parts that need a repair and have one. */
  lemma NestedPicks<I(!new)>(t: Tree<I>, leaf: Tree<I>)
    requires Flat(t) && t.Node? && NeedsFix(t) && (t.op == All ==> FixParts(t.children) == [])
    ensures IsPicked(t, false, leaf) <==> exists c | c in t.children :: NeedsFix(c) && IsPicked(c, false, leaf)
  {
    var mark := t.op == Any;
    if t.op == Any {
      OrPicksInEach(t, false);
    } else {
      AndOfOrsPicksInEach(t, false);
    }
    hide FixLeaves, NeedsFix;
    if p :| p in FixLeaves(t, false) && p.leaf == leaf {
      PickedInMembers(t.children, mark, p);
      var c :| c in t.children && NeedsFix(c) && p in FixLeaves(c, mark);
      SameLeaves(c, mark, false, p);
    }
    if c :| c in t.children && NeedsFix(c) && IsPicked(c, false, leaf) {
      var p :| p in FixLeaves(c, false) && p.leaf == leaf;
      SameLeaves(c, false, mark, p);
      var q :| q in FixLeaves(c, mark) && q.leaf == leaf;
      PickedInMembers(t.children, mark, q);
    }
  }

  lemma {:induction false} TreesMembers<I>(es: seq<Expr>, read: Reading<I>, t: Tree<I>)
    ensures t in Trees(es, read) <==> exists e | e in es :: ConditionTree(e, read) == t
  {
    if es != [] {
      TreesMembers(es[1..], read, t);
      assert t in Trees(es, read) <==> t == ConditionTree(es[0], read) || t in Trees(es[1..], read);
      assert es[0] in es && forall e :: e in es <==> e == es[0] || e in es[1..];
      hide Trees, ConditionTree;
    } else {
      assert Trees(es, read) == [];
    }
  }
}
