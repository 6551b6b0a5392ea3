/** The AND/OR algebra that AP-03 and AP-04 share: can the engine use an index
    for a predicate, now or after a repair, and which conditions to repair. */
module IndexTree {
  import opened Basics

  // ----- parsed predicates -----

  /** A side of a comparison, as far as the rules look into it. `ours` says that
      the column belongs to the scanned table. */
  datatype Term =
    | Column(name: string, ours: bool)
    | Paren(inner: Term)
    | Cast(operand: Term)
    | Function(args: seq<Term>)
    | Arithmetic(operands: seq<Term>)
    | Other(parts: seq<Term>)

  datatype Condition =
    | Compare(isEquality: bool, left: Term, right: Term)
    | In(subject: Term, items: seq<Term>)
    | Between(subject: Term, low: Option<Term>, high: Option<Term>)
    | IsNull(subject: Term, negated: bool)
    | Unsearchable(id: nat)  // LIKE, <>, NOT and whatever else an index cannot search

  datatype Expr = And(l: Expr, r: Expr) | Or(l: Expr, r: Expr) | Group(e: Expr) | Cond(c: Condition)

  function Children(t: Term): seq<Term> {
    match t
    case Column(_, _) => []
    case Paren(inner) => [inner]
    case Cast(operand) => [operand]
    case Function(args) => args
    case Arithmetic(operands) => operands
    case Other(parts) => parts
  }

  function Size(t: Term): nat {
    match t
    case Column(_, _) => 1
    case Paren(inner) => 1 + Size(inner)
    case Cast(operand) => 1 + Size(operand)
    case Function(args) => 1 + SizeOfAll(args)
    case Arithmetic(operands) => 1 + SizeOfAll(operands)
    case Other(parts) => 1 + SizeOfAll(parts)
  }

  function SizeOfAll(ts: seq<Term>): nat {
    if ts == [] then 0 else Size(ts[0]) + SizeOfAll(ts[1..])
  }

  lemma {:induction false} SizeOfConcat(a: seq<Term>, b: seq<Term>)
    ensures SizeOfAll(a + b) == SizeOfAll(a) + SizeOfAll(b)
  {
    if a == [] {
      assert a + b == b;
    } else {
      assert (a + b)[1..] == a[1..] + b;
      SizeOfConcat(a[1..], b);
    }
  }

  lemma ChildrenAreSmaller(t: Term)
    ensures SizeOfAll(Children(t)) < Size(t)
  {
  }

  /** The first column met when the queue is searched breadth first. */
  function FirstColumn(queue: seq<Term>): Option<string>
    decreases SizeOfAll(queue)
  {
    if queue == [] then None
    else if queue[0].Column? then Some(queue[0].name)
    else
      SizeOfConcat(queue[1..], Children(queue[0]));
      ChildrenAreSmaller(queue[0]);
      FirstColumn(queue[1..] + Children(queue[0]))
  }

  /** A side that compares no column: a literal, a parameter, a cast of one. */
  predicate IsValue(t: Term) { FirstColumn([t]).None? }

  predicate AllValues(ts: seq<Term>) { forall t | t in ts :: IsValue(t) }

  predicate IsBoundValue(t: Option<Term>) { t.Some? && IsValue(t.value) }

  function Unwrap(t: Term): Term { if t.Paren? then Unwrap(t.inner) else t }

  // ----- condition trees -----

  datatype State = OK | FIX | OTHER

  datatype Connective = All | Any  // AND, OR

  datatype Tree<I> = Leaf(state: State, info: I) | Node(op: Connective, children: seq<Tree<I>>)

  /** What a rule reads in one condition. */
  type Reading<!I> = Condition -> (State, I)

  function Splice<I>(op: Connective, t: Tree<I>): seq<Tree<I>> {
    if t.Node? && t.op == op then t.children else [t]
  }

  /** The tree of a predicate, with nested nodes of the same kind flattened. */
  function ConditionTree<I>(e: Expr, read: Reading<I>): Tree<I> {
    match e
    case Group(inner) => ConditionTree(inner, read)
    case And(l, r) => Node(All, Splice(All, ConditionTree(l, read)) + Splice(All, ConditionTree(r, read)))
    case Or(l, r) => Node(Any, Splice(Any, ConditionTree(l, read)) + Splice(Any, ConditionTree(r, read)))
    case Cond(c) => Leaf(read(c).0, read(c).1)
  }

  /** The loop that gathers the children of a node from its two sides. */
  method BuildConditionTree<I>(e: Expr, read: Reading<I>) returns (t: Tree<I>)
    ensures t == ConditionTree(e, read)
  {
    match e
    case Group(inner) => t := BuildConditionTree(inner, read);
    case Cond(c) => t := Leaf(read(c).0, read(c).1);
    case And(l, r) =>
      var children := GatherChildren(All, e, l, r, read);
      t := Node(All, children);
    case Or(l, r) =>
      var children := GatherChildren(Any, e, l, r, read);
      t := Node(Any, children);
  }

  method GatherChildren<I>(op: Connective, ghost e: Expr, l: Expr, r: Expr, read: Reading<I>)
      returns (children: seq<Tree<I>>)
    requires e == And(l, r) || e == Or(l, r)
    ensures children == Splice(op, ConditionTree(l, read)) + Splice(op, ConditionTree(r, read))
    decreases e, 0
  {
    children := [];
    hide ConditionTree;
    for k := 0 to 2
      invariant k == 0 ==> children == []
      invariant k == 1 ==> children == Splice(op, ConditionTree(l, read))
      invariant k == 2 ==> children == Splice(op, ConditionTree(l, read)) + Splice(op, ConditionTree(r, read))
    {
      var sub := BuildConditionTree(if k == 0 then l else r, read);
      var more := if sub.Node? && sub.op == op then sub.children else [sub];
      assert more == Splice(op, sub);
      hide Splice;
      children := children + more;
    }
  }

  /** An AND can use an index if some part can; an OR only if every branch can. */
  predicate Usable<I(==)>(t: Tree<I>, withFix: bool) {
    match t
    case Leaf(state, _) => state == OK || (withFix && state == FIX)
    case Node(All, children) => exists c | c in children :: Usable(c, withFix)
    case Node(Any, children) => forall c | c in children :: Usable(c, withFix)
  }

  predicate HasOr<I(==)>(t: Tree<I>) {
    match t
    case Leaf(_, _) => false
    case Node(Any, _) => true
    case Node(All, children) => exists c | c in children :: HasOr(c)
  }

  /** The parts of an AND to repair: the ones that can be, without an OR if
      possible. */
  function Chosen<I(==,!new)>(children: seq<Tree<I>>): seq<Tree<I>> {
    var fixable := Filter(children, c => Usable(c, true));
    var plain := Filter(fixable, c => !HasOr(c));
    if plain != [] then plain else fixable
  }

  function Broken<I(==,!new)>(children: seq<Tree<I>>): seq<Tree<I>> {
    Filter(children, c => !Usable(c, false))
  }

  datatype Pair<I> = Pair(leaf: Tree<I>, inOr: bool)

  function FixLeaves<I(==,!new)>(t: Tree<I>, inOr: bool): seq<Pair<I>>
    decreases t, 1, 0
  {
    match t
    case Leaf(_, _) => [Pair(t, inOr)]
    case Node(Any, children) => FixLeavesOfAll(t, Broken(children), true)
    case Node(All, children) => FixLeavesOfAll(t, Chosen(children), inOr)
  }

  function FixLeavesOfAll<I(==,!new)>(parent: Tree<I>, ts: seq<Tree<I>>, inOr: bool): seq<Pair<I>>
    requires parent.Node? && forall t | t in ts :: t in parent.children
    decreases parent, 0, |ts|
  {
    if ts == [] then []
    else
      assert ts[0] in ts;
      assert exists k | 0 <= k < |parent.children| :: parent.children[k] == ts[0];
      FixLeaves(ts[0], inOr) + FixLeavesOfAll(parent, ts[1..], inOr)
  }

  lemma {:induction false} FixLeavesMembers<I(!new)>(parent: Tree<I>, ts: seq<Tree<I>>, inOr: bool)
    requires parent.Node? && forall t | t in ts :: t in parent.children
    ensures forall p :: p in FixLeavesOfAll(parent, ts, inOr) <==> exists t | t in ts :: p in FixLeaves(t, inOr)
    decreases |ts|
  {
    if ts != [] {
      FixLeavesMembers(parent, ts[1..], inOr);
      assert forall t :: t in ts <==> t == ts[0] || t in ts[1..];
      assert FixLeavesOfAll(parent, ts, inOr) == FixLeaves(ts[0], inOr) + FixLeavesOfAll(parent, ts[1..], inOr);
    }
  }

  // ----- flattening -----

  /** What the engine can use, read off the predicate as it was written. */
  predicate UsableAsWritten<I>(e: Expr, read: Reading<I>, withFix: bool) {
    match e
    case Group(inner) => UsableAsWritten(inner, read, withFix)
    case And(l, r) => UsableAsWritten(l, read, withFix) || UsableAsWritten(r, read, withFix)
    case Or(l, r) => UsableAsWritten(l, read, withFix) && UsableAsWritten(r, read, withFix)
    case Cond(c) => read(c).0 == OK || (withFix && read(c).0 == FIX)
  }

  lemma SpliceKeepsUsable<I>(op: Connective, t: Tree<I>, withFix: bool)
    ensures Usable(Node(op, Splice(op, t)), withFix) <==> Usable(t, withFix)
  {
    assert Splice(op, t) == [t] || t == Node(op, Splice(op, t));
    assert t in [t];
  }

  /** Flattening changes nothing about what can be used. */
  lemma {:induction false} FlatteningKeepsUsable<I>(e: Expr, read: Reading<I>, withFix: bool)
    ensures Usable(ConditionTree(e, read), withFix) <==> UsableAsWritten(e, read, withFix)
  {
    match e
    case Group(inner) => FlatteningKeepsUsable(inner, read, withFix);
    case Cond(c) =>
    case And(l, r) =>
      FlatteningKeepsUsable(l, read, withFix);
      FlatteningKeepsUsable(r, read, withFix);
      var a, b := ConditionTree(l, read), ConditionTree(r, read);
      SpliceKeepsUsable(All, a, withFix);
      SpliceKeepsUsable(All, b, withFix);
      assert forall c :: c in Splice(All, a) + Splice(All, b) <==> c in Splice(All, a) || c in Splice(All, b);
    case Or(l, r) =>
      FlatteningKeepsUsable(l, read, withFix);
      FlatteningKeepsUsable(r, read, withFix);
      var a, b := ConditionTree(l, read), ConditionTree(r, read);
      SpliceKeepsUsable(Any, a, withFix);
      SpliceKeepsUsable(Any, b, withFix);
      assert forall c :: c in Splice(Any, a) + Splice(Any, b) <==> c in Splice(Any, a) || c in Splice(Any, b);
  }

  /** No node has a child of its own kind, and each has at least two children. */
  predicate Flat<I(==)>(t: Tree<I>) {
    match t
    case Leaf(_, _) => true
    case Node(op, children) =>
      |children| >= 2 && forall c | c in children :: Flat(c) && !(c.Node? && c.op == op)
  }

  lemma {:induction false} ConditionTreeIsFlat<I>(e: Expr, read: Reading<I>)
    ensures Flat(ConditionTree(e, read))
  {
    match e
    case Group(inner) => ConditionTreeIsFlat(inner, read);
    case Cond(c) =>
    case And(l, r) =>
      ConditionTreeIsFlat(l, read);
      ConditionTreeIsFlat(r, read);
    case Or(l, r) =>
      ConditionTreeIsFlat(l, read);
      ConditionTreeIsFlat(r, read);
  }

  // ----- what being usable means -----

  /** The predicate on a row, given the truth of each condition on that row. */
  predicate Holds(e: Expr, truth: Condition -> bool) {
    match e
    case Group(inner) => Holds(inner, truth)
    case And(l, r) => Holds(l, truth) && Holds(r, truth)
    case Or(l, r) => Holds(l, truth) || Holds(r, truth)
    case Cond(c) => truth(c)
  }

  function Conditions(e: Expr): set<Condition> {
    match e
    case Group(inner) => Conditions(inner)
    case And(l, r) => Conditions(l) + Conditions(r)
    case Or(l, r) => Conditions(l) + Conditions(r)
    case Cond(c) => {c}
  }

  /** Every row the predicate selects is found by a condition with an index. */
  ghost predicate IndexesCover<I>(e: Expr, read: Reading<I>) {
    forall truth: Condition -> bool :: Holds(e, truth) ==> IndexFinds(e, read, truth)
  }

  ghost predicate IndexFinds<I>(e: Expr, read: Reading<I>, truth: Condition -> bool) {
    exists c | c in Conditions(e) :: read(c).0 == OK && truth(c)
  }

  lemma {:induction false} UsableFindsRow<I>(e: Expr, read: Reading<I>, truth: Condition -> bool)
    requires UsableAsWritten(e, read, false) && Holds(e, truth)
    ensures IndexFinds(e, read, truth)
  {
    match e
    case Group(inner) => UsableFindsRow(inner, read, truth);
    case Cond(c) =>
    case And(l, r) =>
      if UsableAsWritten(l, read, false) { UsableFindsRow(l, read, truth); } else { UsableFindsRow(r, read, truth); }
    case Or(l, r) =>
      if Holds(l, truth) { UsableFindsRow(l, read, truth); } else { UsableFindsRow(r, read, truth); }
  }

  /** A row on which exactly the conditions without an index hold escapes every
      index, and an unusable predicate selects it. */
  lemma {:induction false} UnusableSelectsUnindexed<I>(e: Expr, read: Reading<I>, truth: Condition -> bool)
    requires forall c :: truth(c) <==> read(c).0 != OK
    ensures Holds(e, truth) <==> !UsableAsWritten(e, read, false)
  {
    match e
    case Group(inner) => UnusableSelectsUnindexed(inner, read, truth);
    case Cond(c) =>
    case And(l, r) =>
      UnusableSelectsUnindexed(l, read, truth);
      UnusableSelectsUnindexed(r, read, truth);
    case Or(l, r) =>
      UnusableSelectsUnindexed(l, read, truth);
      UnusableSelectsUnindexed(r, read, truth);
  }

  /** The flattened tree is usable exactly when the indexed conditions cover
      every row the predicate can select. */
  lemma UsableMeansCovered<I>(e: Expr, read: Reading<I>)
    ensures Usable(ConditionTree(e, read), false) <==> IndexesCover(e, read)
  {
    FlatteningKeepsUsable(e, read, false);
    if UsableAsWritten(e, read, false) {
      forall truth: Condition -> bool | Holds(e, truth) ensures IndexFinds(e, read, truth) {
        UsableFindsRow(e, read, truth);
      }
    } else {
      var truth := (c: Condition) => read(c).0 != OK;
      UnusableSelectsUnindexed(e, read, truth);
      assert Holds(e, truth) && !IndexFinds(e, read, truth);
    }
  }

  // ----- repairs -----

  predicate NeedsFix<I(==)>(t: Tree<I>) { !Usable(t, false) && Usable(t, true) }

  lemma {:induction false} UsableStaysUsable<I>(t: Tree<I>)
    requires Usable(t, false)
    ensures Usable(t, true)
  {
    if t.Node? {
      forall c | c in t.children && Usable(c, false) ensures Usable(c, true) {
        UsableStaysUsable(c);
      }
    }
  }

  /** The parts FixLeaves descends into are again in need of a repair, and there
      is at least one. */
  lemma PartsNeedFix<I(!new)>(t: Tree<I>)
    requires t.Node? && NeedsFix(t)
    ensures t.op == Any ==>
      Broken(t.children) != [] && forall c | c in Broken(t.children) :: c in t.children && NeedsFix(c)
    ensures t.op == All ==>
      Chosen(t.children) != [] && forall c | c in Chosen(t.children) :: c in t.children && NeedsFix(c)
  {
    if t.op == Any {
      var c :| c in t.children && !Usable(c, false);
      assert c in Broken(t.children);
    } else {
      var c :| c in t.children && Usable(c, true);
      assert c in Filter(t.children, c => Usable(c, true));
    }
  }

  /** Every condition picked for repair is one that can be repaired. */
  lemma {:induction false} FixLeavesAreFixable<I(!new)>(t: Tree<I>, inOr: bool)
    requires NeedsFix(t)
    ensures FixLeaves(t, inOr) != []
    ensures forall p | p in FixLeaves(t, inOr) :: p.leaf.Leaf? && p.leaf.state == FIX
  {
    if t.Node? {
      PartsNeedFix(t);
      var parts, flag := if t.op == Any then Broken(t.children) else Chosen(t.children), t.op == Any || inOr;
      FixLeavesMembers(t, parts, flag);
      forall c | c in parts ensures FixLeaves(c, flag) != []
        && forall p | p in FixLeaves(c, flag) :: p.leaf.Leaf? && p.leaf.state == FIX
      {
        FixLeavesAreFixable(c, flag);
      }
      assert FixLeaves(parts[0], flag)[0] in FixLeavesOfAll(t, parts, flag);
    }
  }

  predicate EveryLeaf<I(==)>(t: Tree<I>, ok: (State, I) -> bool) {
    match t
    case Leaf(state, info) => ok(state, info)
    case Node(_, children) => forall c | c in children :: EveryLeaf(c, ok)
  }

  lemma {:induction false} ReadingsFillLeaves<I>(e: Expr, read: Reading<I>, ok: (State, I) -> bool)
    requires forall c | c in Conditions(e) :: ok(read(c).0, read(c).1)
    ensures EveryLeaf(ConditionTree(e, read), ok)
  {
    match e
    case Group(inner) => ReadingsFillLeaves(inner, read, ok);
    case Cond(c) =>
    case And(l, r) =>
      ReadingsFillLeaves(l, read, ok);
      ReadingsFillLeaves(r, read, ok);
    case Or(l, r) =>
      ReadingsFillLeaves(l, read, ok);
      ReadingsFillLeaves(r, read, ok);
  }

  lemma {:induction false} FixLeavesAreLeaves<I(!new)>(t: Tree<I>, inOr: bool, ok: (State, I) -> bool)
    requires EveryLeaf(t, ok)
    ensures forall p | p in FixLeaves(t, inOr) :: p.leaf.Leaf? && ok(p.leaf.state, p.leaf.info)
  {
    if t.Node? {
      var parts, flag := if t.op == Any then Broken(t.children) else Chosen(t.children), t.op == Any || inOr;
      FixLeavesMembers(t, parts, flag);
      forall c | c in parts
        ensures forall p | p in FixLeaves(c, flag) :: p.leaf.Leaf? && ok(p.leaf.state, p.leaf.info)
      {
        FixLeavesAreLeaves(c, flag, ok);
      }
    }
  }

  /** Inside an OR, everything picked is marked as inside an OR. */
  lemma {:induction false} InsideOrStaysMarked<I(!new)>(t: Tree<I>)
    ensures forall p | p in FixLeaves(t, true) :: p.inOr
  {
    if t.Node? {
      var parts := if t.op == Any then Broken(t.children) else Chosen(t.children);
      FixLeavesMembers(t, parts, true);
      forall c | c in parts ensures forall p | p in FixLeaves(c, true) :: p.inOr {
        InsideOrStaysMarked(c);
      }
    }
  }

  /** On a flattened tree the marks never mix: either every condition to repair
      is a branch of an OR, or none is; and none is exactly when the tree is one
      condition, or an AND with a repairable plain condition. */
  lemma MarksNeverMix<I(!new)>(t: Tree<I>)
    requires Flat(t)
    ensures (forall p | p in FixLeaves(t, false) :: p.inOr) || (forall p | p in FixLeaves(t, false) :: !p.inOr)
    ensures NeedsFix(t) && (forall p | p in FixLeaves(t, false) :: !p.inOr) ==>
      t.Leaf? || (t.op == All && forall p | p in FixLeaves(t, false) :: p.leaf in t.children)
  {
    if t.Node? && t.op == Any {
      FixLeavesMembers(t, Broken(t.children), true);
      forall c | c in Broken(t.children) ensures forall p | p in FixLeaves(c, true) :: p.inOr {
        InsideOrStaysMarked(c);
      }
      if NeedsFix(t) {
        FixLeavesAreFixable(t, false);
        assert FixLeaves(t, false)[0] in FixLeaves(t, false);
      }
    } else if t.Node? {
      MarksOfAnd(t);
    }
  }

  lemma MarksOfAnd<I(!new)>(t: Tree<I>)
    requires Flat(t) && t.Node? && t.op == All
    ensures (forall p | p in FixLeaves(t, false) :: p.inOr)
         || (forall p | p in FixLeaves(t, false) :: !p.inOr && p.leaf in t.children)
    ensures NeedsFix(t) ==> FixLeaves(t, false) != []
  {
    var parts := Chosen(t.children);
    FixLeavesMembers(t, parts, false);
    if NeedsFix(t) {
      FixLeavesAreFixable(t, false);
    }
    if plain :| plain in parts && !HasOr(plain) {
      forall c | c in parts ensures c.Leaf? && FixLeaves(c, false) == [Pair(c, false)] {
        assert !HasOr(c);
        NoOrMeansLeaf(t, c);
      }
    } else {
      forall c | c in parts ensures forall p | p in FixLeaves(c, false) :: p.inOr {
        assert c.Node? && c.op == Any;
        FixLeavesMembers(c, Broken(c.children), true);
        forall d | d in Broken(c.children) ensures forall p | p in FixLeaves(d, true) :: p.inOr {
          InsideOrStaysMarked(d);
        }
      }
    }
  }

  lemma NoOrMeansLeaf<I>(t: Tree<I>, c: Tree<I>)
    requires Flat(t) && t.Node? && t.op == All && c in t.children && !HasOr(c)
    ensures c.Leaf?
  {
  }

  /** u is t after a repair: nothing usable is lost, and the conditions that
      `good` accepts can now use an index. */
  predicate Repairs<I, J>(u: Tree<J>, t: Tree<I>, good: I -> bool) {
    match t
    case Leaf(state, info) => u.Leaf? && (state == OK || (state == FIX && good(info)) ==> u.state == OK)
    case Node(op, children) =>
      && u.Node? && u.op == op && |u.children| == |children|
      && forall k | 0 <= k < |children| :: Repairs(u.children[k], children[k], good)
  }

  lemma {:induction false} RepairKeepsUsable<I, J>(u: Tree<J>, t: Tree<I>, good: I -> bool)
    requires Repairs(u, t, good) && Usable(t, false)
    ensures Usable(u, false)
  {
    if t.Node? {
      forall k | 0 <= k < |t.children| && Usable(t.children[k], false) ensures Usable(u.children[k], false) {
        RepairKeepsUsable(u.children[k], t.children[k], good);
      }
      if t.op == All {
        var k :| 0 <= k < |t.children| && Usable(t.children[k], false);
        assert u.children[k] in u.children;
      }
    }
  }

  /** Repairing every condition that FixLeaves picked makes the tree usable. */
  lemma {:induction false} FixingAllWorks<I(!new), J>(u: Tree<J>, t: Tree<I>, good: I -> bool, inOr: bool)
    requires Repairs(u, t, good) && NeedsFix(t)
    requires forall p | p in FixLeaves(t, inOr) :: p.leaf.Leaf? ==> good(p.leaf.info)
    ensures Usable(u, false)
  {
    if t.Leaf? {
      assert Pair(t, inOr) in FixLeaves(t, inOr);
      return;
    }
    PartsNeedFix(t);
    var parts, flag := if t.op == Any then Broken(t.children) else Chosen(t.children), t.op == Any || inOr;
    FixLeavesMembers(t, parts, flag);
    forall k | 0 <= k < |t.children| && t.children[k] in parts ensures Usable(u.children[k], false) {
      assert forall p | p in FixLeaves(t.children[k], flag) :: p in FixLeavesOfAll(t, parts, flag);
      FixingAllWorks(u.children[k], t.children[k], good, flag);
    }
    if t.op == All {
      assert parts[0] in parts;
      var k :| 0 <= k < |t.children| && t.children[k] == parts[0];
      assert u.children[k] in u.children;
    } else {
      forall k | 0 <= k < |t.children| && t.children[k] !in parts ensures Usable(u.children[k], false) {
        RepairKeepsUsable(u.children[k], t.children[k], good);
      }
    }
  }

  /** In an AND one repaired condition is enough. */
  lemma FixingOnePartWorks<I, J>(u: Tree<J>, t: Tree<I>, good: I -> bool, part: Tree<I>)
    requires Repairs(u, t, good) && t.Node? && t.op == All && part in t.children
    requires part.Leaf? && part.state == FIX && good(part.info)
    ensures Usable(u, false)
  {
    var k :| 0 <= k < |t.children| && t.children[k] == part;
    assert u.children[k] in u.children;
  }

  /** Reading the same predicate with better indexes repairs its tree. */
  lemma {:induction false} BetterReadingRepairs<I, J>(e: Expr, better: Reading<J>, read: Reading<I>, good: I -> bool)
    requires forall c | c in Conditions(e) ::
      read(c).0 == OK || (read(c).0 == FIX && good(read(c).1)) ==> better(c).0 == OK
    ensures Repairs(ConditionTree(e, better), ConditionTree(e, read), good)
  {
    match e
    case Group(inner) => BetterReadingRepairs(inner, better, read, good);
    case Cond(c) =>
    case And(l, r) =>
      BetterReadingRepairs(l, better, read, good);
      BetterReadingRepairs(r, better, read, good);
    case Or(l, r) =>
      BetterReadingRepairs(l, better, read, good);
      BetterReadingRepairs(r, better, read, good);
  }

  /** A reading that only uses conditions another reading could fix sees no more
      than the other sees after its fixes. */
  lemma {:induction false} FixesBound<I, J>(e: Expr, better: Reading<J>, read: Reading<I>)
    requires forall c | c in Conditions(e) :: better(c).0 == OK ==> read(c).0 != OTHER
    ensures UsableAsWritten(e, better, false) ==> UsableAsWritten(e, read, true)
  {
    match e
    case Group(inner) => FixesBound(inner, better, read);
    case Cond(c) =>
    case And(l, r) =>
      FixesBound(l, better, read);
      FixesBound(r, better, read);
    case Or(l, r) =>
      FixesBound(l, better, read);
      FixesBound(r, better, read);
  }
}
