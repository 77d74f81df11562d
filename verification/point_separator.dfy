/** The point separator of a decision tree: the trie that groups evaluation
    heads into separation classes by the values the conditions take at their
    points, the extraction of an if-then-else solution from it, and the
    information-gain reconstruction of the conditions.

    The lazy trie with classes (`LazyTrieMulti`) is modelled by its contract:
    the trie holds the inserted heads in insertion order and the installed
    conditions, a head's separation class is every head agreeing with it on
    all installed conditions, in insertion order, and the representative of
    a class is its first member. */
module PointSeparator {
  import opened Terms

  /** `computeCond(cond, hd)`: whether the (built-in form of the) condition
      holds at the evaluation point of the head. The result is cached per
      pair, so the model treats it as a fixed function. */
  type CondEval = (Term, Term) -> bool

  /** `hd_mv[h]`: a missing key reads as the null node. */
  function Lookup(m: map<Term, Term>, k: Term): Term {
    if k in m then m[k] else Null
  }

  /** Two heads take the same value on every condition of `conds`. */
  predicate Agree(eval: CondEval, conds: seq<Term>, p: Term, q: Term) {
    forall i :: 0 <= i < |conds| ==> eval(conds[i], p) == eval(conds[i], q)
  }

  lemma AgreeConcat(eval: CondEval, a: seq<Term>, b: seq<Term>, p: Term, q: Term)
    ensures Agree(eval, a + b, p, q) <==> Agree(eval, a, p, q) && Agree(eval, b, p, q)
  {
    if Agree(eval, a, p, q) && Agree(eval, b, p, q) {
      forall i | 0 <= i < |a + b| ensures eval((a + b)[i], p) == eval((a + b)[i], q) {
        if i >= |a| {
          assert (a + b)[i] == b[i - |a|];
        }
      }
    }
    if Agree(eval, a + b, p, q) {
      forall i | 0 <= i < |a| ensures eval(a[i], p) == eval(a[i], q) {
        assert (a + b)[i] == a[i];
      }
      forall i | 0 <= i < |b| ensures eval(b[i], p) == eval(b[i], q) {
        assert (a + b)[|a| + i] == b[i];
      }
    }
  }

  /** The conditions separate the heads: heads that agree on all of them
      have the same value. */
  ghost predicate Separated(eval: CondEval, conds: seq<Term>, pts: seq<Term>, hdMv: map<Term, Term>) {
    forall i, j :: 0 <= i < |pts| && 0 <= j < |pts| && Agree(eval, conds, pts[i], pts[j])
                   ==> Lookup(hdMv, pts[i]) == Lookup(hdMv, pts[j])
  }

  /** Adding conditions keeps heads separated. */
  lemma SeparatedGrows(eval: CondEval, a: seq<Term>, b: seq<Term>, pts: seq<Term>, hdMv: map<Term, Term>)
    requires Separated(eval, a, pts, hdMv)
    ensures Separated(eval, a + b, pts, hdMv)
    ensures Separated(eval, b + a, pts, hdMv)
  {
    forall i, j | 0 <= i < |pts| && 0 <= j < |pts|
      ensures Agree(eval, a + b, pts[i], pts[j]) ==> Lookup(hdMv, pts[i]) == Lookup(hdMv, pts[j])
      ensures Agree(eval, b + a, pts[i], pts[j]) ==> Lookup(hdMv, pts[i]) == Lookup(hdMv, pts[j])
    {
      AgreeConcat(eval, a, b, pts[i], pts[j]);
      AgreeConcat(eval, b, a, pts[i], pts[j]);
    }
  }

  // ---------------------------------------------------------------------
  // The trie of separation classes
  // ---------------------------------------------------------------------

  datatype Trie = Trie(conds: seq<Term>, pts: seq<Term>)

  /** The heads of `pts` agreeing with `h` on `conds`, in order. */
  function Members(eval: CondEval, conds: seq<Term>, pts: seq<Term>, h: Term): (r: seq<Term>)
    ensures forall x :: x in r <==> x in pts && Agree(eval, conds, x, h)
    ensures |r| <= |pts|
  {
    if |pts| == 0 then []
    else
      var rest := Members(eval, conds, pts[..|pts| - 1], h);
      assert forall x :: x in pts <==> x in pts[..|pts| - 1] || x == Last(pts);
      if Agree(eval, conds, Last(pts), h) then rest + [Last(pts)] else rest
  }

  /** `d_rep_to_class[rep]`: the separation class of `h`. */
  function ClassOf(eval: CondEval, t: Trie, h: Term): seq<Term> {
    Members(eval, t.conds, t.pts, h)
  }

  /** `d_rep_to_class.find(h) != end()`. */
  predicate IsRep(eval: CondEval, t: Trie, h: Term) {
    var c := ClassOf(eval, t, h);
    |c| > 0 && c[0] == h
  }

  datatype Added = Added(trie: Trie, rep: Term)

  /** `add(e, ncond)`: inserts the head and returns the representative of
      its class, which is `e` itself when no earlier head agrees with it. */
  function Add(eval: CondEval, t: Trie, e: Term): (r: Added)
    ensures r.trie == Trie(t.conds, t.pts + [e])
    ensures ClassOf(eval, r.trie, e) == ClassOf(eval, t, e) + [e]
    ensures r.rep == ClassOf(eval, r.trie, e)[0]
    ensures r.rep == e <==> |ClassOf(eval, t, e)| == 0 || ClassOf(eval, t, e)[0] == e
    ensures IsRep(eval, r.trie, r.rep)
  {
    var c := ClassOf(eval, t, e);
    var t' := Trie(t.conds, t.pts + [e]);
    assert (t.pts + [e])[..|t.pts|] == t.pts;
    var rep := if |c| > 0 then c[0] else e;
    assert rep in ClassOf(eval, t', e);
    ClassAgreeing(eval, t', e, rep);
    Added(t', rep)
  }

  /** Heads agreeing on the installed conditions have the same class. */
  lemma {:induction false} ClassAgreeing(eval: CondEval, t: Trie, p: Term, q: Term)
    requires Agree(eval, t.conds, p, q)
    ensures ClassOf(eval, t, p) == ClassOf(eval, t, q)
    decreases |t.pts|
  {
    if |t.pts| > 0 {
      ClassAgreeing(eval, Trie(t.conds, t.pts[..|t.pts| - 1]), p, q);
    }
  }

  /** `addClassifier(ncond)`: installs one more condition. */
  function AddClassifier(t: Trie, c: Term): (r: Trie)
    ensures r.pts == t.pts && |r.conds| == |t.conds| + 1 && r.conds[|t.conds|] == c
    ensures r.conds[..|t.conds|] == t.conds
  {
    Trie(t.conds + [c], t.pts)
  }

  /** The heads of `s` on which `c` takes the value `b`, in order. */
  function Filter(eval: CondEval, c: Term, s: seq<Term>, b: bool): (r: seq<Term>)
    ensures forall x :: x in r <==> x in s && eval(c, x) == b
    ensures |r| <= |s|
  {
    if |s| == 0 then []
    else
      var rest := Filter(eval, c, s[..|s| - 1], b);
      assert forall x :: x in s <==> x in s[..|s| - 1] || x == Last(s);
      if eval(c, Last(s)) == b then rest + [Last(s)] else rest
  }

  /** A new classifier splits every class in two, keeping the order of its
      members: the class of `h` keeps the members on which `c` takes the
      value it takes at `h`. */
  lemma {:induction false} ClassifierSplits(eval: CondEval, t: Trie, c: Term, h: Term)
    ensures ClassOf(eval, AddClassifier(t, c), h) == Filter(eval, c, ClassOf(eval, t, h), eval(c, h))
    decreases |t.pts|
  {
    if |t.pts| > 0 {
      var x := Last(t.pts);
      var init := Trie(t.conds, t.pts[..|t.pts| - 1]);
      ClassifierSplits(eval, init, c, h);
      AgreeConcat(eval, t.conds, [c], x, h);
      var prev := ClassOf(eval, init, h);
      if Agree(eval, t.conds, x, h) {
        assert ClassOf(eval, t, h) == prev + [x];
        assert (prev + [x])[..|prev|] == prev;
      }
    }
  }

  /** A representative stays one when a classifier is added: it is first in
      its class, and it stays in the part of the class it defines. */
  lemma RepSurvivesClassifier(eval: CondEval, t: Trie, c: Term, h: Term)
    requires IsRep(eval, t, h)
    ensures IsRep(eval, AddClassifier(t, c), h)
  {
    ClassifierSplits(eval, t, c, h);
    var s := ClassOf(eval, t, h);
    FilterKeepsFirst(eval, c, s, eval(c, h));
  }

  lemma {:induction false} FilterKeepsFirst(eval: CondEval, c: Term, s: seq<Term>, b: bool)
    requires |s| > 0 && eval(c, s[0]) == b
    ensures |Filter(eval, c, s, b)| > 0 && Filter(eval, c, s, b)[0] == s[0]
    decreases |s|
  {
    if |s| > 1 {
      FilterKeepsFirst(eval, c, s[..|s| - 1], b);
    }
  }

  // ---------------------------------------------------------------------
  // Splitting points on a condition
  // ---------------------------------------------------------------------

  datatype Split = Split(good: seq<Term>, bad: seq<Term>)

  /** `evaluateCond`: the points where the condition holds, and the others,
      each in the original order. */
  function EvaluateCond(eval: CondEval, pts: seq<Term>, cond: Term): (r: Split)
    ensures forall x :: x in r.good <==> x in pts && eval(cond, x)
    ensures forall x :: x in r.bad <==> x in pts && !eval(cond, x)
  {
    Split(Filter(eval, cond, pts, true), Filter(eval, cond, pts, false))
  }

  /** Every point lands in exactly one side. */
  lemma {:induction false} EvaluateCondPartition(eval: CondEval, pts: seq<Term>, cond: Term)
    ensures var r := EvaluateCond(eval, pts, cond);
            multiset(r.good) + multiset(r.bad) == multiset(pts)
    decreases |pts|
  {
    if |pts| > 0 {
      EvaluateCondPartition(eval, pts[..|pts| - 1], cond);
      assert pts == pts[..|pts| - 1] + [Last(pts)];
    }
  }

  // ---------------------------------------------------------------------
  // Extracting the solution
  // ---------------------------------------------------------------------

  /** `extractSol` on the subtrie of the points `pts` at depth `d`: a leaf
      (one point, or all conditions used) gives the value of its first
      point; a node whose points all go one way gives that child's result;
      otherwise an if-then-else on condition `d`, unless both branches
      agree. `cons` is the if-then-else constructor. */
  function Extract(eval: CondEval, cons: Term, conds: seq<Term>, hdMv: map<Term, Term>,
                   pts: seq<Term>, d: nat): Term
    requires d <= |conds|
    decreases |conds| - d
  {
    if |pts| == 0 then Null
    else if |pts| == 1 || d == |conds| then Lookup(hdMv, pts[0])
    else
      var sp := EvaluateCond(eval, pts, conds[d]);
      if |sp.good| == 0 then Extract(eval, cons, conds, hdMv, sp.bad, d + 1)
      else if |sp.bad| == 0 then Extract(eval, cons, conds, hdMv, sp.good, d + 1)
      else Ite(cons, conds[d], Extract(eval, cons, conds, hdMv, sp.good, d + 1),
               Extract(eval, cons, conds, hdMv, sp.bad, d + 1))
  }

  /** The if-then-else node of `extractSol`, or the common branch when both
      branches are the same term. */
  function Ite(cons: Term, c: Term, t: Term, f: Term): Term {
    if t == f then t else Construct(cons, [c, t, f])
  }

  /** The value a solution term takes at a head's point: if-then-else nodes
      built with `cons` choose a branch by their condition; every other
      term is its own value. */
  function Interp(eval: CondEval, cons: Term, t: Term, h: Term): Term {
    if t.Construct? && t.cons == cons && |t.args| == 3 then
      if eval(t.args[0], h) then Interp(eval, cons, t.args[1], h) else Interp(eval, cons, t.args[2], h)
    else t
  }

  /** The extracted solution is correct on every point: when the conditions
      separate the points, its value at each point is that point's value. */
  lemma {:induction false} ExtractSound(eval: CondEval, cons: Term, conds: seq<Term>, hdMv: map<Term, Term>,
                                        all: seq<Term>, pts: seq<Term>, d: nat, p: Term)
    requires d <= |conds|
    requires Separated(eval, conds, all, hdMv)
    requires forall x :: x in pts ==> x in all
    requires p in pts
    requires forall x :: x in pts ==> Agree(eval, conds[..d], x, p)
    ensures Interp(eval, cons, Extract(eval, cons, conds, hdMv, pts, d), p)
            == Interp(eval, cons, Lookup(hdMv, p), p)
    decreases |conds| - d
  {
    if |pts| == 1 {
      assert pts[0] == p;
    } else if d == |conds| {
      LeafSound(eval, conds, hdMv, all, pts, p);
    } else {
      var side := ExtractFollowsPoint(eval, cons, conds, hdMv, pts, d, p);
      SideAgrees(eval, conds, pts, side, d, p);
      ExtractSound(eval, cons, conds, hdMv, all, side, d + 1, p);
    }
  }

  /** At a full-depth leaf every point agrees with the first one, so both
      have the same value. */
  lemma LeafSound(eval: CondEval, conds: seq<Term>, hdMv: map<Term, Term>, all: seq<Term>, pts: seq<Term>, p: Term)
    requires Separated(eval, conds, all, hdMv)
    requires forall x :: x in pts ==> x in all
    requires p in pts
    requires forall x :: x in pts ==> Agree(eval, conds[..|conds|], x, p)
    ensures Lookup(hdMv, pts[0]) == Lookup(hdMv, p)
  {
    assert conds[..|conds|] == conds;
    assert pts[0] in pts;
    var i :| 0 <= i < |all| && all[i] == pts[0];
    var j :| 0 <= j < |all| && all[j] == p;
    assert Agree(eval, conds, all[i], all[j]);
  }

  /** The points of the side a point goes to agree with it on one more
      condition. */
  lemma SideAgrees(eval: CondEval, conds: seq<Term>, pts: seq<Term>, side: seq<Term>, d: nat, p: Term)
    requires d < |conds|
    requires forall x :: x in pts ==> Agree(eval, conds[..d], x, p)
    requires side == Filter(eval, conds[d], pts, eval(conds[d], p))
    ensures forall x :: x in side ==> Agree(eval, conds[..d + 1], x, p)
  {
    assert conds[..d + 1] == conds[..d] + [conds[d]];
    forall x | x in side ensures Agree(eval, conds[..d + 1], x, p) {
      AgreeConcat(eval, conds[..d], [conds[d]], x, p);
      assert [conds[d]][0] == conds[d];
    }
  }

  /** Below an inner node, the value at a point is the value of the subtrie
      the point's condition value leads to. */
  lemma ExtractFollowsPoint(eval: CondEval, cons: Term, conds: seq<Term>, hdMv: map<Term, Term>,
                            pts: seq<Term>, d: nat, p: Term) returns (side: seq<Term>)
    requires d < |conds| && |pts| > 1 && p in pts
    ensures side == Filter(eval, conds[d], pts, eval(conds[d], p))
    ensures Interp(eval, cons, Extract(eval, cons, conds, hdMv, pts, d), p)
            == Interp(eval, cons, Extract(eval, cons, conds, hdMv, side, d + 1), p)
  {
    var c := conds[d];
    var sp := EvaluateCond(eval, pts, c);
    side := if eval(c, p) then sp.good else sp.bad;
    assert p in side;
    if |sp.good| > 0 && |sp.bad| > 0 {
      InterpIte(eval, cons, c, Extract(eval, cons, conds, hdMv, sp.good, d + 1),
                Extract(eval, cons, conds, hdMv, sp.bad, d + 1), p);
    }
  }

  lemma InterpIte(eval: CondEval, cons: Term, c: Term, t: Term, f: Term, h: Term)
    ensures Interp(eval, cons, Ite(cons, c, t, f), h)
            == if eval(c, h) then Interp(eval, cons, t, h) else Interp(eval, cons, f, h)
  {
    if t != f {
      var n := Construct(cons, [c, t, f]);
      assert n.args[0] == c && n.args[1] == t && n.args[2] == f;
    }
  }

  /** The extraction from the whole trie. */
  lemma ExtractSolSound(eval: CondEval, cons: Term, conds: seq<Term>, hdMv: map<Term, Term>, pts: seq<Term>)
    requires Separated(eval, conds, pts, hdMv)
    ensures forall p :: p in pts ==>
              Interp(eval, cons, Extract(eval, cons, conds, hdMv, pts, 0), p) == Interp(eval, cons, Lookup(hdMv, p), p)
  {
    forall p | p in pts
      ensures Interp(eval, cons, Extract(eval, cons, conds, hdMv, pts, 0), p) == Interp(eval, cons, Lookup(hdMv, p), p)
    {
      ExtractSound(eval, cons, conds, hdMv, pts, pts, 0, p);
    }
  }

  // ---------------------------------------------------------------------
  // Rebuilding the conditions by information gain
  // ---------------------------------------------------------------------

  /** The information gain of splitting the points on a condition
      (`getEntropy` differences, floating point in the source). */
  type Gain = (seq<Term>, Term) -> real

  /** The scan that keeps the first index of strictly largest gain, starting
      from gain -1 at index 0. */
  function PickBest(gains: seq<real>, i: nat, best: real, bestIndex: nat): (k: nat)
    requires i <= |gains|
    ensures || (k == bestIndex && forall j :: i <= j < |gains| ==> gains[j] <= best)
            || (&& i <= k < |gains| && best < gains[k]
                && (forall j :: i <= j < k ==> gains[j] < gains[k])
                && (forall j :: k < j < |gains| ==> gains[j] <= gains[k]))
    decreases |gains| - i
  {
    if i == |gains| then bestIndex
    else if gains[i] > best then PickBest(gains, i + 1, gains[i], i)
    else PickBest(gains, i + 1, best, bestIndex)
  }

  /** The points all have the value of the first one. */
  predicate SameValue(hdMv: map<Term, Term>, pts: seq<Term>) {
    forall i :: 0 <= i < |pts| ==> Lookup(hdMv, pts[i]) == Lookup(hdMv, pts[0])
  }

  function RemoveAt(s: seq<Term>, k: nat): (r: seq<Term>)
    requires k < |s|
    ensures |r| == |s| - 1
    ensures forall x :: x in r ==> x in s
  {
    s[..k] + s[k + 1..]
  }

  /** `buildDt`: the conditions picked, in the order they are appended to
      the tree's conditions, or `None` where the source would pick from an
      empty list of conditions. */
  function BuildDt(eval: CondEval, gain: Gain, hdMv: map<Term, Term>, pts: seq<Term>, conds: seq<Term>)
    : (r: Option<seq<Term>>)
    decreases |conds|
  {
    if |pts| < 2 || SameValue(hdMv, pts) then Some([])
    else if |conds| == 0 then None
    else
      var gains := seq(|conds|, i requires 0 <= i < |conds| => gain(pts, conds[i]));
      var k := PickBest(gains, 0, -1 as real, 0);
      var sp := EvaluateCond(eval, pts, conds[k]);
      var rest := RemoveAt(conds, k);
      match BuildDt(eval, gain, hdMv, sp.good, rest)
      case None => None
      case Some(first) =>
        match BuildDt(eval, gain, hdMv, sp.bad, rest)
        case None => None
        case Some(second) => Some([conds[k]] + first + second)
  }

  /** The picked conditions come from the candidates and separate the
      points. */
  lemma {:induction false} BuildDtSeparates(eval: CondEval, gain: Gain, hdMv: map<Term, Term>,
                                            pts: seq<Term>, conds: seq<Term>)
    requires BuildDt(eval, gain, hdMv, pts, conds).Some?
    ensures Separated(eval, BuildDt(eval, gain, hdMv, pts, conds).value, pts, hdMv)
    ensures forall c :: c in BuildDt(eval, gain, hdMv, pts, conds).value ==> c in conds
    decreases |conds|
  {
    var r := BuildDt(eval, gain, hdMv, pts, conds).value;
    if |pts| < 2 || SameValue(hdMv, pts) {
      assert forall i, j :: 0 <= i < |pts| && 0 <= j < |pts| ==> Lookup(hdMv, pts[i]) == Lookup(hdMv, pts[j]);
    } else {
      var gains := seq(|conds|, i requires 0 <= i < |conds| => gain(pts, conds[i]));
      var k := PickBest(gains, 0, -1 as real, 0);
      var c := conds[k];
      var sp := EvaluateCond(eval, pts, c);
      var rest := RemoveAt(conds, k);
      var first := BuildDt(eval, gain, hdMv, sp.good, rest).value;
      var second := BuildDt(eval, gain, hdMv, sp.bad, rest).value;
      assert r == [c] + first + second;
      BuildDtSeparates(eval, gain, hdMv, sp.good, rest);
      BuildDtSeparates(eval, gain, hdMv, sp.bad, rest);
      forall i, j | 0 <= i < |pts| && 0 <= j < |pts| && Agree(eval, r, pts[i], pts[j])
        ensures Lookup(hdMv, pts[i]) == Lookup(hdMv, pts[j])
      {
        SplitAgree(eval, c, first, second, pts[i], pts[j]);
        var side := if eval(c, pts[i]) then sp.good else sp.bad;
        var sub := if eval(c, pts[i]) then first else second;
        assert Separated(eval, sub, side, hdMv);
        var i' :| 0 <= i' < |side| && side[i'] == pts[i];
        var j' :| 0 <= j' < |side| && side[j'] == pts[j];
        assert Agree(eval, sub, side[i'], side[j']);
      }
    }
  }

  lemma SplitAgree(eval: CondEval, c: Term, a: seq<Term>, b: seq<Term>, p: Term, q: Term)
    requires Agree(eval, [c] + a + b, p, q)
    ensures eval(c, p) == eval(c, q) && Agree(eval, a, p, q) && Agree(eval, b, p, q)
  {
    AgreeConcat(eval, [c] + a, b, p, q);
    AgreeConcat(eval, [c], a, p, q);
    assert [c][0] == c;
  }

  /** `recomputeSolHeuristically`: the new conditions of the tree, rebuilt
      from the pool; the last old condition when none is needed. `None`
      stands for reading the last element of an empty condition list, and
      for a failing `buildDt`. */
  function RecomputeSolHeuristically(eval: CondEval, gain: Gain, hdMv: map<Term, Term>,
                                     conds: seq<Term>, pool: seq<Term>, hds: seq<Term>)
    : (r: Option<seq<Term>>)
    ensures |conds| == 0 ==> r.None?
    ensures r.Some? ==> |r.value| > 0 && Separated(eval, r.value, hds, hdMv)
    ensures r.Some? ==> forall c :: c in r.value ==> c in pool || c == Last(conds)
  {
    if |conds| == 0 then None
    else
      match BuildDt(eval, gain, hdMv, hds, pool)
      case None => None
      case Some(picked) =>
        BuildDtSeparates(eval, gain, hdMv, hds, pool);
        if |picked| == 0 then
          SeparatedGrows(eval, picked, [Last(conds)], hds, hdMv);
          assert picked + [Last(conds)] == [Last(conds)];
          Some([Last(conds)])
        else Some(picked)
  }
}
