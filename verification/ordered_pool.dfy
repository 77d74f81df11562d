/** The ordered node sets (`std::set<Node>`) of the decision-tree
    construction: the condition pool, the head value pool and the per-head
    pools of equivalent values. A set is a duplicate-free sequence ordered
    by the node order `id`, so iteration goes by increasing id. (Node ids
    are unique in the solver, so the order is strict there; the model does
    not need that.) */
module OrderedPool {
  import opened Terms

  /** Ordered by node id, without repetitions. */
  ghost predicate Ordered(id: Term -> nat, s: seq<Term>) {
    && (forall i, j :: 0 <= i < j < |s| ==> id(s[i]) <= id(s[j]))
    && NoDuplicates(s)
  }

  /** `insert`: `x` goes before the first element of larger id, unless it is
      already there. */
  function Insert(id: Term -> nat, s: seq<Term>, x: Term): (r: seq<Term>)
    requires Ordered(id, s)
    ensures Ordered(id, r)
    ensures x in s ==> r == s
    ensures x !in s ==> |r| == |s| + 1
    ensures forall y :: y in r <==> y in s || y == x
    decreases |s|
  {
    if x in s then s
    else if |s| == 0 then [x]
    else if id(x) < id(s[0]) then
      FirstIsLeast(id, s);
      ConsOrdered(id, x, s);
      [x] + s
    else
      OrderedTail(id, s);
      var rest := Insert(id, s[1..], x);
      FirstIsLeast(id, s);
      assert s == [s[0]] + s[1..];
      ConsOrdered(id, s[0], rest);
      [s[0]] + rest
  }

  lemma OrderedTail(id: Term -> nat, s: seq<Term>)
    requires Ordered(id, s) && |s| > 0
    ensures Ordered(id, s[1..])
  {
  }

  /** Putting an element of least id in front of an ordered sequence that
      does not hold it. */
  lemma ConsOrdered(id: Term -> nat, h: Term, s: seq<Term>)
    requires Ordered(id, s)
    requires forall y :: y in s ==> id(h) <= id(y) && y != h
    ensures Ordered(id, [h] + s)
  {
    var r := [h] + s;
    forall i, j | 0 <= i < j < |r| ensures id(r[i]) <= id(r[j]) && r[i] != r[j] {
      assert r[j] == s[j - 1];
      assert r[j] in s;
      if i > 0 {
        assert r[i] == s[i - 1];
      }
    }
  }

  /** Inserting the elements of `xs` (`insert(first, last)`). */
  function InsertAll(id: Term -> nat, s: seq<Term>, xs: seq<Term>): (r: seq<Term>)
    requires Ordered(id, s)
    ensures Ordered(id, r)
    ensures forall y :: y in r <==> y in s || y in xs
    decreases |xs|
  {
    if |xs| == 0 then s
    else
      assert forall y :: y in xs <==> y == xs[0] || y in xs[1..];
      InsertAll(id, Insert(id, s, xs[0]), xs[1..])
  }

  /** `set_intersection`: the elements of `a`, in order, that are also in
      `b`. */
  function Intersect(a: seq<Term>, b: seq<Term>): (r: seq<Term>)
    ensures forall y :: y in r <==> y in a && y in b
    ensures |r| <= |a|
    decreases |a|
  {
    if |a| == 0 then []
    else
      assert forall y :: y in a <==> y == a[0] || y in a[1..];
      var rest := Intersect(a[1..], b);
      if a[0] in b then [a[0]] + rest else rest
  }

  /** The intersection keeps the order of its first operand. */
  lemma {:induction false} IntersectOrdered(id: Term -> nat, a: seq<Term>, b: seq<Term>)
    requires Ordered(id, a)
    ensures Ordered(id, Intersect(a, b))
    decreases |a|
  {
    if |a| > 0 {
      IntersectOrdered(id, a[1..], b);
      var rest := Intersect(a[1..], b);
      forall y | y in rest ensures id(a[0]) <= id(y) && y != a[0] {
        var k :| 0 <= k < |a[1..]| && a[1..][k] == y;
        assert a[k + 1] == y;
      }
    }
  }

  /** `*begin()`: the element of least id. */
  lemma FirstIsLeast(id: Term -> nat, s: seq<Term>)
    requires Ordered(id, s) && |s| > 0
    ensures forall y :: y in s ==> id(s[0]) <= id(y)
    ensures forall y :: y in s[1..] ==> id(s[0]) <= id(y) && y != s[0]
  {
    forall y | y in s ensures id(s[0]) <= id(y) {
      var k :| 0 <= k < |s| && s[k] == y;
      if k > 0 {
        assert id(s[0]) <= id(s[k]);
      }
    }
    forall y | y in s[1..] ensures id(s[0]) <= id(y) && y != s[0] {
      var k :| 0 <= k < |s[1..]| && s[1..][k] == y;
      assert s[k + 1] == y;
    }
  }
}
