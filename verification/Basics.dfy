/** Vocabulary shared by every component of the detection engine model. */
module Basics {

  datatype Option<+T> = None | Some(value: T)

  // Instants and spans are integers counting microseconds, the resolution of
  // the timestamps the engine handles.
  type Instant = int
  const SECOND := 1_000_000
  const MINUTE := 60 * SECOND
  const HOUR := 60 * MINUTE

  /** The elements of s that satisfy keep, in order. */
  function Filter<T(!new)>(s: seq<T>, keep: T -> bool): (r: seq<T>)
    ensures forall x :: x in r <==> x in s && keep(x)
  {
    if s == [] then []
    else if keep(s[0]) then [s[0]] + Filter(s[1..], keep)
    else Filter(s[1..], keep)
  }

  predicate NoRepeats<T(==)>(s: seq<T>) { forall i, j | 0 <= i < j < |s| :: s[i] != s[j] }

  /** The elements of s, each at its first occurrence. */
  function Distinct<T(==,!new)>(s: seq<T>): (r: seq<T>)
    ensures forall x :: x in r <==> x in s
    ensures NoRepeats(r)
  {
    if s == [] then []
    else
      var r, last := Distinct(s[..|s| - 1]), s[|s| - 1];
      assert forall x :: x in s <==> x in s[..|s| - 1] || x == last;
      if last in r then r else r + [last]
  }

  /** Of two distinct elements the one that occurs first comes first. */
  lemma {:induction false} DistinctKeepsOrder<T(!new)>(s: seq<T>, i: nat, j: nat)
    requires i < j < |Distinct(s)|
    ensures exists k | 0 <= k < |s| :: s[k] == Distinct(s)[i] && Distinct(s)[j] !in s[..k + 1]
  {
    var front, r := s[..|s| - 1], Distinct(s);
    if j < |Distinct(front)| {
      DistinctKeepsOrder(front, i, j);
      var k :| 0 <= k < |front| && front[k] == r[i] && r[j] !in front[..k + 1];
      assert front[..k + 1] == s[..k + 1];
    } else {
      assert r[i] in front;
      var k :| 0 <= k < |front| && front[k] == r[i];
      assert forall x | x in s[..k + 1] :: x in front;
    }
  }

  /** The order of names: by code points, character by character. Dafny's own
      `<` on strings is the prefix order. */
  predicate Precedes(a: string, b: string) {
    if b == "" then false
    else if a == "" then true
    else if a[0] != b[0] then a[0] < b[0]
    else Precedes(a[1..], b[1..])
  }

  lemma {:induction false} PrecedesTransitive(a: string, b: string, c: string)
    requires Precedes(a, b) && Precedes(b, c)
    ensures Precedes(a, c)
  {
    if a != "" && a[0] == b[0] == c[0] {
      PrecedesTransitive(a[1..], b[1..], c[1..]);
    }
  }

  /** Of two names exactly one comes first, unless they are the same name. */
  lemma {:induction false} PrecedesTrichotomy(a: string, b: string)
    ensures !(Precedes(a, b) && Precedes(b, a))
    ensures a == b <==> !Precedes(a, b) && !Precedes(b, a)
  {
    if a != "" && b != "" && a[0] == b[0] {
      PrecedesTrichotomy(a[1..], b[1..]);
      assert a == [a[0]] + a[1..] && b == [b[0]] + b[1..];
    }
  }

  /** In a finite pool, climbing a transitive and irreflexive relation from x
      must end at an element where it is allowed to stop. */
  lemma {:induction false} ClimbEnds<T(!new)>(
      x: T, pool: set<T>, above: (T, T) -> bool, stop: T -> bool) returns (top: T)
    requires x in pool
    requires forall a | a in pool :: !above(a, a)
    requires forall a, b, c | a in pool && b in pool && c in pool && above(a, b) && above(b, c) :: above(a, c)
    requires forall a | a in pool && !stop(a) :: exists b :: b in pool && above(b, a)
    ensures top in pool && stop(top) && (top == x || above(top, x))
    decreases set a | a in pool && above(a, x)
  {
    if stop(x) {
      return x;
    }
    var y :| y in pool && above(y, x);
    var fromY, fromX := set a | a in pool && above(a, y), set a | a in pool && above(a, x);
    assert fromY <= fromX && y in fromX && y !in fromY;
    top := ClimbEnds(y, pool, above, stop);
  }
}
