/** `DecisionTreeInfo::buildSol`: the construction of a decision-tree
    solution from the current condition values, or of a separation lemma
    that refutes them.

    The loop adds the evaluation heads one at a time to the trie. A head
    whose class representative has a different value is a separation
    conflict; the next condition (enumerated or from the pool) must
    separate the two, and every step is recorded in an explanation whose
    negation is the lemma sent when the conflict cannot be resolved. */
module SolutionBuilder {
  import opened Terms
  import opened OrderedPool
  import opened PointSeparator
  import opened DecisionTree

  // ---------------------------------------------------------------------
  // Facts about the heads, their values and the conditions
  // ---------------------------------------------------------------------

  /** A literal of the explanation that holds in the current model: an
      equality of heads with equal model values, a disequality of heads
      with different ones, the guard, or the explanation of an enumerated
      condition's value. */
  ghost predicate Fact(o: Oracles, guard: Term, enums: seq<Term>, x: Term) {
    || (x.Equal? && o.modelValue(x.lhs) == o.modelValue(x.rhs))
    || (x.Not? && x.arg.Equal? && o.modelValue(x.arg.lhs) != o.modelValue(x.arg.rhs))
    || x == guard
    || exists i, v :: 0 <= i < |enums| && x == o.explain(enums[i], v)
  }

  /** The value kept for a head is its model value; with the value pool, a
      value that gives the same result at the head's point, which is also
      the recorded current result. */
  ghost predicate HeadFaithful(o: Oracles, opts: Options, app: map<Term, Term>, hdMv: map<Term, Term>, h: Term) {
    if opts.retPool then
      && Lookup(app, h) == o.evalAt(o.modelValue(h), h)
      && o.evalAt(Lookup(hdMv, h), h) == o.evalAt(o.modelValue(h), h)
    else
      Lookup(hdMv, h) == o.modelValue(h)
  }

  ghost predicate FaithfulAt(o: Oracles, opts: Options, equiv: map<Term, map<Term, seq<Term>>>,
                             app: map<Term, Term>, hdMv: map<Term, Term>, heads: seq<Term>) {
    && (opts.retPool ==> PoolsSound(o.evalAt, equiv))
    && forall h :: h in heads ==> HeadFaithful(o, opts, app, hdMv, h)
  }

  /** A separation conflict: the earlier heads are separated, and the new
      head `e` is in the class of the earlier representative `er` but has a
      different value. */
  ghost predicate ConflictAt(eval: CondEval, conds: seq<Term>, earlier: seq<Term>, e: Term, er: Term,
                             hdMv: map<Term, Term>) {
    var t := Trie(conds, earlier + [e]);
    && Separated(eval, conds, earlier, hdMv)
    && e !in earlier && er in earlier
    && IsRep(eval, t, er) && er in ClassOf(eval, t, e)
    && Lookup(hdMv, e) != Lookup(hdMv, er)
  }

  /** Every value of `ks` set to `v`. */
  function SetAll(m: map<Term, Term>, ks: seq<Term>, v: Term): (r: map<Term, Term>)
    ensures forall k :: Lookup(r, k) == if k in ks then v else Lookup(m, k)
    decreases |ks|
  {
    if |ks| == 0 then m
    else
      assert forall k :: k in ks <==> k == ks[0] || k in ks[1..];
      SetAll(m[ks[0] := v], ks[1..], v)
  }

  /** A head agreeing with no earlier head of another value keeps the heads
      separated. */
  lemma SeparatedAppend(eval: CondEval, conds: seq<Term>, pts: seq<Term>, e: Term, hdMv: map<Term, Term>)
    requires Separated(eval, conds, pts, hdMv)
    requires forall p :: p in pts && Agree(eval, conds, p, e) ==> Lookup(hdMv, p) == Lookup(hdMv, e)
    ensures Separated(eval, conds, pts + [e], hdMv)
  {
    var s := pts + [e];
    forall i, j | 0 <= i < |s| && 0 <= j < |s| && Agree(eval, conds, s[i], s[j])
      ensures Lookup(hdMv, s[i]) == Lookup(hdMv, s[j])
    {
      if i < |pts| {
        assert s[i] == pts[i];
      }
      if j < |pts| {
        assert s[j] == pts[j];
      }
    }
  }

  /** Changing the value of a head outside the points does not matter. */
  lemma SeparatedUpdate(eval: CondEval, conds: seq<Term>, pts: seq<Term>, hdMv: map<Term, Term>, k: Term, v: Term)
    requires Separated(eval, conds, pts, hdMv) && k !in pts
    ensures Separated(eval, conds, pts, hdMv[k := v])
  {
    forall i, j | 0 <= i < |pts| && 0 <= j < |pts| && Agree(eval, conds, pts[i], pts[j])
      ensures Lookup(hdMv[k := v], pts[i]) == Lookup(hdMv[k := v], pts[j])
    {
      assert pts[i] != k && pts[j] != k;
    }
  }

  /** A head of a duplicate-free list is not among the heads before it. */
  lemma NotBefore(s: seq<Term>, k: nat)
    requires NoDuplicates(s) && k < |s|
    ensures s[k] !in s[..k]
  {
    forall j | 0 <= j < k ensures s[..k][j] != s[k] {
      assert s[..k][j] == s[j];
    }
  }

  /** Adding a head: it starts a class, joins one of its own value, or
      conflicts with the class's representative. */
  lemma AddHeadSeparation(eval: CondEval, conds: seq<Term>, earlier: seq<Term>, e: Term,
                          hdMv: map<Term, Term>, v: Term)
    requires Separated(eval, conds, earlier, hdMv) && e !in earlier
    ensures var m := hdMv[e := v];
            var er := Add(eval, Trie(conds, earlier), e).rep;
            && (er != e ==> er in earlier)
            && (er == e || Lookup(m, e) == Lookup(m, er) ==> Separated(eval, conds, earlier + [e], m))
            && (er != e && Lookup(m, e) != Lookup(m, er) ==> ConflictAt(eval, conds, earlier, e, er, m))
  {
    var m := hdMv[e := v];
    var t := Trie(conds, earlier);
    var er := Add(eval, t, e).rep;
    var cls := ClassOf(eval, t, e);
    SeparatedUpdate(eval, conds, earlier, hdMv, e, v);
    if |cls| > 0 {
      assert cls[0] in earlier;
    }
    if er != e && Lookup(m, e) == Lookup(m, er) {
      forall p | p in earlier && Agree(eval, conds, p, e)
        ensures Lookup(m, p) == Lookup(m, e)
      {
        assert p in cls && er in cls;
        var i :| 0 <= i < |earlier| && earlier[i] == p;
        var j :| 0 <= j < |earlier| && earlier[j] == er;
        assert Agree(eval, conds, earlier[i], earlier[j]);
      }
    }
    if er == e || Lookup(m, e) == Lookup(m, er) {
      SeparatedAppend(eval, conds, earlier, e, m);
    }
  }

  /** The value bookkeeping of an added head. */
  lemma AddHeadFaithful(o: Oracles, opts: Options, dt: Dt, hdMv: map<Term, Term>, earlier: seq<Term>, e: Term)
    requires Ordered(o.id, dt.hdMvs) && PoolsOrdered(o.id, dt.equiv)
    requires FaithfulAt(o, opts, dt.equiv, dt.appCurrEval, hdMv, earlier) && e !in earlier
    ensures var dt' := AddHeadValuePool(o, opts, dt, e, o.modelValue(e));
            FaithfulAt(o, opts, dt'.equiv, dt'.appCurrEval, hdMv[e := o.modelValue(e)], earlier + [e])
  {
    var dt' := AddHeadValuePool(o, opts, dt, e, o.modelValue(e));
    var m := hdMv[e := o.modelValue(e)];
    forall h | h in earlier + [e] ensures HeadFaithful(o, opts, dt'.appCurrEval, m, h) {
      if h != e {
        assert h in earlier;
        assert HeadFaithful(o, opts, dt.appCurrEval, hdMv, h);
      }
    }
  }

  /** With the heads' own model values, equal values give an equality fact
      and different values a disequality fact. */
  lemma ValueFacts(o: Oracles, opts: Options, equiv: map<Term, map<Term, seq<Term>>>, app: map<Term, Term>,
                   hdMv: map<Term, Term>, heads: seq<Term>, a: Term, b: Term, guard: Term, enums: seq<Term>)
    requires !opts.retPool && FaithfulAt(o, opts, equiv, app, hdMv, heads) && a in heads && b in heads
    ensures Lookup(hdMv, a) == Lookup(hdMv, b) ==> Fact(o, guard, enums, Equal(a, b))
    ensures Lookup(hdMv, a) != Lookup(hdMv, b) ==> Fact(o, guard, enums, Not(Equal(a, b)))
  {
    assert HeadFaithful(o, opts, app, hdMv, a) && HeadFaithful(o, opts, app, hdMv, b);
  }

  /** The class of the conflicting representative is the class of the
      conflicting head, and holds both. */
  lemma ConflictClass(eval: CondEval, conds: seq<Term>, earlier: seq<Term>, e: Term, er: Term, hdMv: map<Term, Term>)
    requires ConflictAt(eval, conds, earlier, e, er, hdMv)
    ensures var cls := ClassOf(eval, Trie(conds, earlier + [e]), er);
            && e in cls && er in cls
            && forall x :: x in cls <==> x in earlier + [e] && Agree(eval, conds, x, e)
  {
    ClassAgreeing(eval, Trie(conds, earlier + [e]), er, e);
  }

  /** Giving the whole class of the conflicting head one value separates
      all heads. */
  lemma MergedSeparated(eval: CondEval, conds: seq<Term>, earlier: seq<Term>, e: Term,
                        hdMv: map<Term, Term>, cls: seq<Term>, v: Term)
    requires Separated(eval, conds, earlier, hdMv)
    requires forall x :: x in cls <==> x in earlier + [e] && Agree(eval, conds, x, e)
    ensures Separated(eval, conds, earlier + [e], SetAll(hdMv, cls, v))
  {
    var m := SetAll(hdMv, cls, v);
    var s := earlier + [e];
    forall i, j | 0 <= i < |s| && 0 <= j < |s| && Agree(eval, conds, s[i], s[j])
      ensures Lookup(m, s[i]) == Lookup(m, s[j])
    {
      assert s[i] in s && s[j] in s;
      if !Agree(eval, conds, s[i], e) {
        assert s[i] != e && s[j] != e;
        assert s[i] == earlier[i] && s[j] == earlier[j];
      }
    }
  }

  /** A common pool value keeps the values faithful: it gives every head of
      the class its current result. */
  lemma MergedFaithful(o: Oracles, opts: Options, equiv: map<Term, map<Term, seq<Term>>>, app: map<Term, Term>,
                       hdMv: map<Term, Term>, heads: seq<Term>, cls: seq<Term>, v: Term)
    requires opts.retPool && FaithfulAt(o, opts, equiv, app, hdMv, heads)
    requires forall h :: h in cls ==> v in PoolOf(equiv, h, Lookup(app, h))
    ensures FaithfulAt(o, opts, equiv, app, SetAll(hdMv, cls, v), heads)
  {
    var m := SetAll(hdMv, cls, v);
    forall h | h in heads ensures HeadFaithful(o, opts, app, m, h) {
      assert HeadFaithful(o, opts, app, hdMv, h);
    }
  }

  /** When the conflicting head, last of its class, becomes a
      representative, it is alone in its class and all heads are
      separated. */
  lemma RepResolves(eval: CondEval, conds: seq<Term>, earlier: seq<Term>, e: Term, hdMv: map<Term, Term>)
    requires Separated(eval, conds, earlier, hdMv) && e !in earlier
    requires IsRep(eval, Trie(conds, earlier + [e]), e)
    ensures Separated(eval, conds, earlier + [e], hdMv)
  {
    var pts := earlier + [e];
    assert pts[..|earlier|] == earlier;
    var before := Members(eval, conds, earlier, e);
    assert Members(eval, conds, pts, e) == before + [e];
    SeparatedAppend(eval, conds, earlier, e, hdMv);
  }

  /** A filter that drops an element is shorter. */
  lemma {:induction false} FilterDrops(eval: CondEval, c: Term, s: seq<Term>, b: bool, x: Term)
    requires x in s && eval(c, x) != b
    ensures |Filter(eval, c, s, b)| < |s|
    decreases |s|
  {
    var init := s[..|s| - 1];
    if x in init {
      FilterDrops(eval, c, init, b, x);
    } else {
      assert Last(s) == x;
    }
  }

  // ---------------------------------------------------------------------
  // The representative of the class the conflicting head moves to
  // ---------------------------------------------------------------------

  /** The scan of the previous class for a representative, other than `er`
      and `e`, whose class now holds `e`. */
  function FindNewRep(eval: CondEval, t: Trie, prev: seq<Term>, er: Term, e: Term, i: nat): (r: Option<Term>)
    requires i <= |prev|
    ensures r.Some? ==> r.value in prev && r.value != er && r.value != e
                        && IsRep(eval, t, r.value) && e in ClassOf(eval, t, r.value)
    ensures (exists j :: i <= j < |prev| && prev[j] != er && prev[j] != e
                         && IsRep(eval, t, prev[j]) && e in ClassOf(eval, t, prev[j])) ==> r.Some?
    decreases |prev| - i
  {
    if i == |prev| then None
    else if prev[i] != er && prev[i] != e && IsRep(eval, t, prev[i]) && e in ClassOf(eval, t, prev[i]) then Some(prev[i])
    else FindNewRep(eval, t, prev, er, e, i + 1)
  }

  /** When the new condition separates the conflicting head from `er` but
      leaves it behind another earlier head, the scan finds that head, the
      conflict continues with it, and the conflicting head's class is
      smaller than before. */
  lemma NewRepConflict(eval: CondEval, conds: seq<Term>, c: Term, earlier: seq<Term>, e: Term, er: Term,
                       hdMv: map<Term, Term>)
    requires ConflictAt(eval, conds, earlier, e, er, hdMv)
    requires !IsRep(eval, Trie(conds + [c], earlier + [e]), e)
    requires e !in ClassOf(eval, Trie(conds + [c], earlier + [e]), er)
    ensures var t := Trie(conds, earlier + [e]);
            var t' := Trie(conds + [c], earlier + [e]);
            var found := FindNewRep(eval, t', ClassOf(eval, t, er), er, e, 0);
            && found.Some?
            && ConflictAt(eval, conds + [c], earlier, e, found.value, hdMv)
            && |ClassOf(eval, t', e)| < |ClassOf(eval, t, e)|
  {
    var t := Trie(conds, earlier + [e]);
    var t' := AddClassifier(t, c);
    var prev := ClassOf(eval, t, er);
    ClassAgreeing(eval, t, er, e);
    ClassifierSplits(eval, t, c, e);
    var now := ClassOf(eval, t', e);
    assert e in now;
    var x := now[0];
    assert x in now;
    ClassAgreeing(eval, t', x, e);
    var j :| 0 <= j < |prev| && prev[j] == x;
    assert prev[j] != er && prev[j] != e && IsRep(eval, t', prev[j]) && e in ClassOf(eval, t', prev[j]);
    assert er !in now by {
      if er in now {
        ClassAgreeing(eval, t', er, e);
      }
    }
    FilterDrops(eval, c, ClassOf(eval, t, e), eval(c, e), er);
    var found := FindNewRep(eval, t', prev, er, e, 0).value;
    NewRepKeepsConflict(eval, conds, c, earlier, e, er, found, hdMv);
  }

  lemma NewRepKeepsConflict(eval: CondEval, conds: seq<Term>, c: Term, earlier: seq<Term>, e: Term, er: Term,
                            x: Term, hdMv: map<Term, Term>)
    requires ConflictAt(eval, conds, earlier, e, er, hdMv)
    requires var t' := Trie(conds + [c], earlier + [e]);
             x in ClassOf(eval, Trie(conds, earlier + [e]), er) && x != e
             && IsRep(eval, t', x) && e in ClassOf(eval, t', x)
    ensures ConflictAt(eval, conds + [c], earlier, e, x, hdMv)
  {
    var t := Trie(conds, earlier + [e]);
    var t' := Trie(conds + [c], earlier + [e]);
    SeparatedGrows(eval, conds, [c], earlier, hdMv);
    ClassAgreeing(eval, t, er, e);
    ClassAgreeing(eval, t', x, e);
    assert x in earlier;
    var i :| 0 <= i < |earlier| && earlier[i] == x;
    var j :| 0 <= j < |earlier| && earlier[j] == er;
    assert Agree(eval, conds, earlier[i], earlier[j]);
  }

  /** When the conflicting head becomes a representative the conflict is
      resolved. */
  lemma RepConflictResolves(eval: CondEval, conds: seq<Term>, c: Term, earlier: seq<Term>, e: Term, er: Term,
                            hdMv: map<Term, Term>)
    requires ConflictAt(eval, conds, earlier, e, er, hdMv)
    requires IsRep(eval, Trie(conds + [c], earlier + [e]), e)
    ensures Separated(eval, conds + [c], earlier + [e], hdMv)
  {
    SeparatedGrows(eval, conds, [c], earlier, hdMv);
    RepResolves(eval, conds + [c], earlier, e, hdMv);
  }

  // ---------------------------------------------------------------------
  // The state of the loop
  // ---------------------------------------------------------------------

  /** The local state of `buildSol`: `hdMv` the value of each added head,
      `exp` the explanation, `hdCounter` and `cCounter` the heads added and
      the conditions installed, `needs` whether a separation conflict
      between `e` and `er` is pending, `conflict` `exp_conflict`. */
  datatype Run = Run(
    dt: Dt,
    hdMv: map<Term, Term>,
    exp: seq<Term>,
    lemmas: seq<Term>,
    hdCounter: nat,
    cCounter: nat,
    needs: bool,
    conflict: bool,
    e: Term,
    er: Term)

  predicate Bounded(r: Run) {
    r.cCounter <= |r.dt.conds| && r.hdCounter <= |r.dt.hds|
  }

  /** The conditions installed in the trie. */
  function Installed(r: Run): seq<Term>
    requires Bounded(r)
  {
    r.dt.conds[..r.cCounter]
  }

  /** The heads added to the trie. */
  function Heads(r: Run): seq<Term>
    requires Bounded(r)
  {
    r.dt.hds[..r.hdCounter]
  }

  /** What the run never changes, and the bounds it keeps. */
  ghost predicate Shape(o: Oracles, dt0: Dt, r: Run) {
    && r.dt.guard == dt0.guard && r.dt.enums == dt0.enums && r.dt.pool == dt0.pool
    && r.dt.hds == dt0.hds && r.dt.templated == dt0.templated
    && Bounded(r) && |r.dt.enums| <= |r.dt.conds|
    && (r.dt.backtrack == -1 || 1 <= r.dt.backtrack <= |r.exp|)
    && NoDuplicates(r.dt.hds)
    && Ordered(o.id, r.dt.hdMvs) && PoolsOrdered(o.id, r.dt.equiv)
  }

  /** A pending conflict between the last added head and `er`. */
  ghost predicate Conflicted(o: Oracles, r: Run)
    requires Bounded(r)
  {
    && r.hdCounter > 0 && r.e == r.dt.hds[r.hdCounter - 1]
    && ConflictAt(o.eval, Installed(r), r.dt.hds[..r.hdCounter - 1], r.e, r.er, r.hdMv)
  }

  /** Without a pending conflict the installed conditions separate the
      added heads. */
  ghost predicate Separation(o: Oracles, r: Run)
    requires Bounded(r)
  {
    if r.needs then Conflicted(o, r) else Separated(o.eval, Installed(r), Heads(r), r.hdMv)
  }

  ghost predicate Faithful(o: Oracles, opts: Options, r: Run)
    requires Bounded(r)
  {
    FaithfulAt(o, opts, r.dt.equiv, r.dt.appCurrEval, r.hdMv, Heads(r))
  }

  /** Without the value pool every literal of the explanation holds in the
      current model. */
  ghost predicate ExpFacts(o: Oracles, opts: Options, r: Run) {
    !opts.retPool ==> forall x :: x in r.exp ==> Fact(o, r.dt.guard, r.dt.enums, x)
  }

  ghost predicate Inv(o: Oracles, opts: Options, dt0: Dt, r: Run) {
    && Shape(o, dt0, r)
    && (!r.conflict ==> Separation(o, r))
    && Faithful(o, opts, r)
    && ExpFacts(o, opts, r)
  }

  /** The size of the class of a pending conflict's head. */
  function Measure(o: Oracles, r: Run): nat
    requires Bounded(r)
  {
    if r.needs && r.hdCounter > 0 then
      1 + |ClassOf(o.eval, Trie(Installed(r), r.dt.hds[..r.hdCounter - 1] + [r.e]), r.e)|
    else 0
  }

  lemma SplitLast(s: seq<Term>, k: nat)
    requires 0 < k <= |s|
    ensures s[..k] == s[..k - 1] + [s[k - 1]]
  {
  }

  // ---------------------------------------------------------------------
  // The steps of the loop
  // ---------------------------------------------------------------------

  /** Adds the next head: records its value (and pools it), and asks the
      trie for its representative. No conflict when it starts a class or
      matches its representative's value (then the equality is explained);
      otherwise the conflict is pending. */
  method AddHead(o: Oracles, opts: Options, ghost dt0: Dt, r: Run) returns (r': Run)
    requires Inv(o, opts, dt0, r) && !r.conflict && !r.needs && r.hdCounter < |r.dt.hds|
    ensures Inv(o, opts, dt0, r') && !r'.conflict && r'.hdCounter == r.hdCounter + 1
  {
    r' := HeadAdded(o, opts, r);
    HeadAddedInv(o, opts, dt0, r);
    if r'.er != r'.e && !r'.needs {
      r' := ExplainEqual(o, opts, dt0, r');
    }
  }

  /** The run after adding the next head, before any explanation. */
  function HeadAdded(o: Oracles, opts: Options, r: Run): Run
    requires Bounded(r) && r.hdCounter < |r.dt.hds|
    requires Ordered(o.id, r.dt.hdMvs) && PoolsOrdered(o.id, r.dt.equiv)
  {
    var e := r.dt.hds[r.hdCounter];
    var v := o.modelValue(e);
    var hdMv := r.hdMv[e := v];
    var er := Add(o.eval, Trie(r.dt.conds[..r.cCounter], r.dt.hds[..r.hdCounter]), e).rep;
    var resolve := er != e && Lookup(hdMv, e) != Lookup(hdMv, er);
    r.(dt := AddHeadValuePool(o, opts, r.dt, e, v), hdMv := hdMv, hdCounter := r.hdCounter + 1,
       needs := resolve, e := e, er := er)
  }

  /** Adding a head keeps the invariant; a head that joins a class of its
      own value is, with its representative, among the added heads. */
  lemma HeadAddedInv(o: Oracles, opts: Options, dt0: Dt, r: Run)
    requires Inv(o, opts, dt0, r) && !r.conflict && !r.needs && r.hdCounter < |r.dt.hds|
    ensures var r' := HeadAdded(o, opts, r);
            && Inv(o, opts, dt0, r') && !r'.conflict && r'.hdCounter == r.hdCounter + 1
            && (r'.er != r'.e && !r'.needs ==>
                  r'.er in Heads(r') && r'.e in Heads(r') && Lookup(r'.hdMv, r'.er) == Lookup(r'.hdMv, r'.e))
  {
    var r' := HeadAdded(o, opts, r);
    var e := r'.e;
    ghost var earlier := r.dt.hds[..r.hdCounter];
    assert Installed(r') == r.dt.conds[..r.cCounter];
    assert r'.dt.hds[..r'.hdCounter - 1] == earlier;
    assert Heads(r') == earlier + [e] by {
      SplitLast(r.dt.hds, r.hdCounter + 1);
    }
    NotBefore(r.dt.hds, r.hdCounter);
    AddHeadSeparation(o.eval, r.dt.conds[..r.cCounter], earlier, e, r.hdMv, o.modelValue(e));
    AddHeadFaithful(o, opts, r.dt, r.hdMv, earlier, e);
    assert Shape(o, dt0, r');
  }

  /** A head that joins a class of its own value: the equality with the
      representative goes into the explanation (with the value pool, the
      equality of their evaluations at the representative's point, with
      the unfolding lemmas). */
  method ExplainEqual(o: Oracles, opts: Options, ghost dt0: Dt, r: Run) returns (r': Run)
    requires Inv(o, opts, dt0, r) && !r.conflict && !r.needs
    requires r.er in Heads(r) && r.e in Heads(r) && Lookup(r.hdMv, r.er) == Lookup(r.hdMv, r.e)
    ensures Inv(o, opts, dt0, r') && !r'.conflict && r'.hdCounter == r.hdCounter
  {
    if !opts.retPool {
      r' := r.(exp := r.exp + [Equal(r.er, r.e)]);
      ValueFacts(o, opts, r.dt.equiv, r.dt.appCurrEval, r.hdMv, Heads(r), r.er, r.e, r.dt.guard, r.dt.enums);
    } else {
      var ee := MakeEvalExp(o, r.dt, r.er, r.e, o.point(r.er), true, r.lemmas);
      r' := r.(exp := r.exp + [ee.lit], dt := r.dt.(adhoc := ee.adhoc), lemmas := ee.lemmas);
    }
  }

  /** A step that only extends the explanation keeps the shape, the
      values, the conflict and its measure. */
  lemma ExpOnly(o: Oracles, opts: Options, dt0: Dt, r: Run, r': Run)
    requires Shape(o, dt0, r) && Faithful(o, opts, r) && |r'.exp| >= |r.exp|
    requires r' == r.(exp := r'.exp)
    ensures Shape(o, dt0, r') && Faithful(o, opts, r')
    ensures Conflicted(o, r') == Conflicted(o, r) && Measure(o, r') == Measure(o, r)
  {
    assert Installed(r') == Installed(r) && Heads(r') == Heads(r);
  }

  /** Explains the conflict: the disequality of the two heads, or, with
      the value pool, the attempt to give the whole class a common value,
      which resolves the conflict when it succeeds. */
  method ExplainConflict(o: Oracles, opts: Options, ghost dt0: Dt, r: Run) returns (r': Run, merged: bool)
    requires Shape(o, dt0, r) && Faithful(o, opts, r) && ExpFacts(o, opts, r)
    requires !r.conflict && r.needs && Conflicted(o, r)
    ensures Shape(o, dt0, r') && Faithful(o, opts, r') && ExpFacts(o, opts, r')
    ensures r'.hdCounter == r.hdCounter && |r'.exp| > 0
    ensures merged ==> !r'.conflict && !r'.needs && Separation(o, r')
    ensures !merged ==> !r'.conflict && r'.needs && Conflicted(o, r') && Measure(o, r') == Measure(o, r)
  {
    if !opts.retPool {
      r' := r.(exp := r.exp + [Not(Equal(r.e, r.er))]);
      SplitLast(r.dt.hds, r.hdCounter);
      ValueFacts(o, opts, r.dt.equiv, r.dt.appCurrEval, r.hdMv, Heads(r), r.e, r.er, r.dt.guard, r.dt.enums);
      ExpOnly(o, opts, dt0, r, r');
      return r', false;
    }
    r', merged := Merge(o, opts, dt0, r);
  }

  /** With the value pool: the value of least id common to the pools of the
      whole class, if any, becomes the value of every head of the class. */
  method Merge(o: Oracles, opts: Options, ghost dt0: Dt, r: Run) returns (r': Run, merged: bool)
    requires Shape(o, dt0, r) && Faithful(o, opts, r) && opts.retPool
    requires !r.conflict && r.needs && Conflicted(o, r)
    ensures Shape(o, dt0, r') && Faithful(o, opts, r')
    ensures r'.hdCounter == r.hdCounter && |r'.exp| > 0
    ensures merged ==> !r'.conflict && !r'.needs && Separation(o, r')
    ensures !merged ==> !r'.conflict && r'.needs && Conflicted(o, r') && Measure(o, r') == Measure(o, r)
  {
    var conds := r.dt.conds[..r.cCounter];
    var earlier := r.dt.hds[..r.hdCounter - 1];
    SplitLast(r.dt.hds, r.hdCounter);
    var cls := ClassOf(o.eval, Trie(conds, earlier + [r.e]), r.er);
    ConflictClass(o.eval, conds, earlier, r.e, r.er, r.hdMv);
    var m := MergeHeadValuePools(o, r.dt, r.e, cls, r.exp, r.lemmas);
    if m.value.None? {
      r' := r.(exp := m.exp);
      ExpOnly(o, opts, dt0, r, r');
      return r', false;
    }
    var v := m.value.value;
    r' := r.(dt := r.dt.(adhoc := m.dt.adhoc), hdMv := SetAll(r.hdMv, cls, v), exp := m.exp,
             lemmas := m.lemmas, needs := false);
    merged := true;
    MergedKeeps(o, opts, dt0, r, r', conds, earlier, cls, v);
  }

  /** Giving the class the common value resolves the conflict and keeps the
      values faithful. */
  lemma MergedKeeps(o: Oracles, opts: Options, dt0: Dt, r: Run, r': Run,
                    conds: seq<Term>, earlier: seq<Term>, cls: seq<Term>, v: Term)
    requires Shape(o, dt0, r) && Faithful(o, opts, r) && opts.retPool && Conflicted(o, r)
    requires conds == Installed(r) && earlier == r.dt.hds[..r.hdCounter - 1]
    requires cls == ClassOf(o.eval, Trie(conds, earlier + [r.e]), r.er)
    requires forall h :: h in cls ==> v in PoolOf(r.dt.equiv, h, Lookup(r.dt.appCurrEval, h))
    requires r' == r.(dt := r.dt.(adhoc := r'.dt.adhoc), hdMv := SetAll(r.hdMv, cls, v), exp := r'.exp,
                      lemmas := r'.lemmas, needs := false)
    requires |r'.exp| >= |r.exp|
    ensures Shape(o, dt0, r') && Faithful(o, opts, r') && Separation(o, r')
  {
    SplitLast(r.dt.hds, r.hdCounter);
    ConflictClass(o.eval, conds, earlier, r.e, r.er, r.hdMv);
    MergedSeparated(o.eval, conds, earlier, r.e, r.hdMv, cls, v);
    MergedFaithful(o, opts, r.dt.equiv, r.dt.appCurrEval, r.hdMv, earlier + [r.e], cls, v);
    assert Installed(r') == conds && Heads(r') == earlier + [r.e];
  }

  /** Picking a condition keeps the shape, the values, the facts and the
      installed conditions of the run. */
  lemma PickKeeps(o: Oracles, opts: Options, dt0: Dt, r: Run, pick: Pick, r1: Run)
    requires Shape(o, dt0, r) && Faithful(o, opts, r) && ExpFacts(o, opts, r)
    requires Conflicted(o, r) && |r.exp| > 0
    requires pick == PickCondition(o, opts, r.dt, r.cCounter, r.er, r.e, r.exp)
    requires r1 == r.(dt := pick.dt, exp := pick.exp)
    ensures Shape(o, dt0, r1) && Faithful(o, opts, r1) && ExpFacts(o, opts, r1)
    ensures Conflicted(o, r1) && Measure(o, r1) == Measure(o, r) && r1.hdCounter == r.hdCounter
    ensures pick.ok ==> r1.cCounter < |r1.dt.conds|
  {
    PickFacts(o, opts, dt0, r, pick, r1);
    assert r1.dt.hds == r.dt.hds && r1.e == r.e && r1.needs == r.needs && r1.hdCounter == r.hdCounter;
    assert Installed(r1) == Installed(r);
    assert Heads(r1) == Heads(r);
  }

  lemma PickFacts(o: Oracles, opts: Options, dt0: Dt, r: Run, pick: Pick, r1: Run)
    requires Shape(o, dt0, r) && ExpFacts(o, opts, r) && |r.exp| > 0
    requires pick == PickCondition(o, opts, r.dt, r.cCounter, r.er, r.e, r.exp)
    requires r1 == r.(dt := pick.dt, exp := pick.exp)
    ensures Shape(o, dt0, r1) && ExpFacts(o, opts, r1)
    ensures r1.dt == r.dt.(conds := r1.dt.conds, backtrack := r1.dt.backtrack)
  {
    if r.cCounter < |r.dt.enums| {
      var x := o.explain(r.dt.enums[r.cCounter], o.repair(r.dt.conds[r.cCounter], r.er, r.e));
      assert Fact(o, r1.dt.guard, r1.dt.enums, x);
    }
  }

  /** Installing the picked condition `c` keeps the invariant, given that
      the installed conditions separate the heads when no conflict is left,
      and given the conflict when one is pending. */
  lemma InstallKeeps(o: Oracles, opts: Options, dt0: Dt, r1: Run, r': Run,
                     conds: seq<Term>, c: Term, earlier: seq<Term>)
    requires Shape(o, dt0, r1) && Faithful(o, opts, r1) && ExpFacts(o, opts, r1)
    requires r1.cCounter < |r1.dt.conds| && 0 < r1.hdCounter
    requires conds == Installed(r1) && c == r1.dt.conds[r1.cCounter]
    requires earlier == r1.dt.hds[..r1.hdCounter - 1] && r1.e == r1.dt.hds[r1.hdCounter - 1]
    requires r' == r1.(cCounter := r1.cCounter + 1, needs := r'.needs, conflict := r'.conflict, er := r'.er)
    requires !r'.conflict && !r'.needs ==> Separated(o.eval, conds + [c], earlier + [r1.e], r1.hdMv)
    requires !r'.conflict && r'.needs ==> ConflictAt(o.eval, conds + [c], earlier, r1.e, r'.er, r1.hdMv)
    ensures Inv(o, opts, dt0, r')
    ensures r'.needs ==> Measure(o, r') == 1 + |ClassOf(o.eval, Trie(conds + [c], earlier + [r1.e]), r1.e)|
  {
    assert Installed(r') == conds + [c];
    SplitLast(r1.dt.hds, r1.hdCounter);
  }

  /** Picks the next condition and installs it; the conflict is final
      when no condition is left. */
  method Classify(o: Oracles, opts: Options, ghost dt0: Dt, r: Run) returns (r': Run)
    requires Shape(o, dt0, r) && Faithful(o, opts, r) && ExpFacts(o, opts, r)
    requires !r.conflict && r.needs && Conflicted(o, r) && |r.exp| > 0
    ensures Inv(o, opts, dt0, r') && r'.hdCounter == r.hdCounter && |r'.exp| > 0
    ensures r'.conflict || Measure(o, r') < Measure(o, r)
  {
    var pick := PickCondition(o, opts, r.dt, r.cCounter, r.er, r.e, r.exp);
    var r1 := r.(dt := pick.dt, exp := pick.exp);
    PickKeeps(o, opts, dt0, r, pick, r1);
    if !pick.ok {
      r' := r1.(exp := r1.exp + [r1.dt.guard], conflict := true);
      assert Fact(o, r'.dt.guard, r'.dt.enums, r1.dt.guard);
      return;
    }
    r' := Install(o, opts, dt0, r1);
  }

  /** Installs the picked condition. The conflict is resolved when the head
      becomes a representative; it stays pending, with the earlier head now
      first in the head's class, when the condition separates the head from
      `er` only; it is final when the condition does not separate them. */
  method Install(o: Oracles, opts: Options, ghost dt0: Dt, r: Run) returns (r': Run)
    requires Shape(o, dt0, r) && Faithful(o, opts, r) && ExpFacts(o, opts, r)
    requires !r.conflict && r.needs && Conflicted(o, r) && |r.exp| > 0 && r.cCounter < |r.dt.conds|
    ensures Inv(o, opts, dt0, r') && r'.hdCounter == r.hdCounter && |r'.exp| > 0
    ensures r'.conflict || Measure(o, r') < Measure(o, r)
  {
    var conds := Installed(r);
    var earlier := r.dt.hds[..r.hdCounter - 1];
    var c := r.dt.conds[r.cCounter];
    var t' := Trie(conds + [c], earlier + [r.e]);
    if IsRep(o.eval, t', r.e) {
      RepConflictResolves(o.eval, conds, c, earlier, r.e, r.er, r.hdMv);
      r' := r.(cCounter := r.cCounter + 1, needs := false);
      InstallKeeps(o, opts, dt0, r, r', conds, c, earlier);
      return;
    }
    if r.e in ClassOf(o.eval, t', r.er) {
      r' := r.(cCounter := r.cCounter + 1, conflict := true);
      InstallKeeps(o, opts, dt0, r, r', conds, c, earlier);
      return;
    }
    r' := InstallSplit(o, opts, dt0, r);
  }

  /** The condition separates the head from `er` only: the conflict stays
      pending with the first earlier head of the head's new class. */
  method InstallSplit(o: Oracles, opts: Options, ghost dt0: Dt, r: Run) returns (r': Run)
    requires Shape(o, dt0, r) && Faithful(o, opts, r) && ExpFacts(o, opts, r)
    requires !r.conflict && r.needs && Conflicted(o, r) && |r.exp| > 0 && r.cCounter < |r.dt.conds|
    requires var t' := Trie(Installed(r) + [r.dt.conds[r.cCounter]], r.dt.hds[..r.hdCounter - 1] + [r.e]);
             !IsRep(o.eval, t', r.e) && r.e !in ClassOf(o.eval, t', r.er)
    ensures Inv(o, opts, dt0, r') && r'.hdCounter == r.hdCounter && |r'.exp| > 0
    ensures Measure(o, r') < Measure(o, r)
  {
    var conds := Installed(r);
    var earlier := r.dt.hds[..r.hdCounter - 1];
    var c := r.dt.conds[r.cCounter];
    var t' := Trie(conds + [c], earlier + [r.e]);
    var prev := ClassOf(o.eval, Trie(conds, earlier + [r.e]), r.er);
    assert Measure(o, r) == 1 + |ClassOf(o.eval, Trie(conds, earlier + [r.e]), r.e)|;
    NewRepConflict(o.eval, conds, c, earlier, r.e, r.er, r.hdMv);
    var found := FindNewRep(o.eval, t', prev, r.er, r.e, 0);
    r' := r.(cCounter := r.cCounter + 1, er := found.value, needs := true);
    InstallKeeps(o, opts, dt0, r, r', conds, c, earlier);
  }

  /** Resolution of a pending conflict. */
  method Resolve(o: Oracles, opts: Options, ghost dt0: Dt, r: Run) returns (r': Run)
    requires Inv(o, opts, dt0, r) && !r.conflict && r.needs
    ensures Inv(o, opts, dt0, r') && r'.hdCounter == r.hdCounter && |r'.exp| > 0
    ensures r'.conflict || Measure(o, r') < Measure(o, r)
  {
    var r1, merged := ExplainConflict(o, opts, dt0, r);
    if merged {
      return r1;
    }
    r' := Classify(o, opts, dt0, r1);
  }

  // ---------------------------------------------------------------------
  // The loop
  // ---------------------------------------------------------------------

  /** What `buildSol` expects of the tree information it starts from. */
  ghost predicate Ready(o: Oracles, opts: Options, dt: Dt) {
    && |dt.enums| <= |dt.conds|
    && NoDuplicates(dt.hds)
    && Ordered(o.id, dt.hdMvs) && PoolsOrdered(o.id, dt.equiv)
    && (opts.retPool ==> PoolsSound(o.evalAt, dt.equiv))
  }

  /** The head-by-head loop of `buildSol`: it ends with every head added
      and separated by the installed conditions, or in conflict. */
  method Construct(o: Oracles, opts: Options, dt: Dt, lemmas: seq<Term>) returns (r: Run)
    requires Ready(o, opts, dt)
    ensures Inv(o, opts, dt.(backtrack := -1), r)
    ensures !r.conflict ==> !r.needs && r.hdCounter == |r.dt.hds|
    ensures !r.conflict ==> Separated(o.eval, r.dt.conds[..r.cCounter], r.dt.hds, r.hdMv)
    ensures r.conflict ==> |r.exp| > 0
    ensures !r.conflict ==> forall h :: h in dt.hds ==> HeadFaithful(o, opts, r.dt.appCurrEval, r.hdMv, h)
  {
    var dt0 := dt.(backtrack := -1);
    r := Run(dt0, map[], [], lemmas, 0, 0, false, false, Null, Null);
    while (r.hdCounter < |r.dt.hds| || r.needs) && !r.conflict
      invariant Inv(o, opts, dt0, r)
      invariant r.conflict ==> |r.exp| > 0
      decreases if r.conflict then 0 else 1, |r.dt.hds| - r.hdCounter, Measure(o, r)
    {
      if !r.needs {
        r := AddHead(o, opts, dt0, r);
      }
      if r.needs && !r.conflict {
        r := Resolve(o, opts, dt0, r);
      }
    }
    if !r.conflict {
      assert r.dt.hds[..r.hdCounter] == r.dt.hds;
    }
  }

  // ---------------------------------------------------------------------
  // The separation lemma
  // ---------------------------------------------------------------------

  /** The truth of a formula built from literals by conjunction and
      negation, given the truth of each literal. */
  predicate Holds(lit: Term -> bool, t: Term) {
    if t.And? then forall c :: c in t.conjuncts ==> Holds(lit, c)
    else if t.Not? then !Holds(lit, t.arg)
    else lit(t)
  }

  /** The explanation kept for the lemma: with the condition pool, the
      literals recorded before the first condition taken from the pool. */
  function Kept(opts: Options, exp: seq<Term>, backtrack: int): (r: seq<Term>)
    requires |exp| > 0 && (backtrack == -1 || 1 <= backtrack <= |exp|)
    ensures |r| > 0 && r <= exp
    ensures !opts.condPool || backtrack == -1 ==> r == exp
  {
    if opts.condPool && backtrack != -1 then exp[..backtrack] else exp
  }

  /** The separation lemma: the explanation, its single literal not
      wrapped in a conjunction, negated by `negate()`, which strips a
      leading negation instead of adding a second one. */
  function SeparationLemma(exp: seq<Term>): (l: Term)
    requires |exp| > 0
  {
    var x := if |exp| == 1 then exp[0] else And(exp);
    if x.Not? then x.arg else Not(x)
  }

  /** The lemma is false under exactly the valuations that make every
      literal of the explanation true. */
  lemma SeparationLemmaRefutes(lit: Term -> bool, exp: seq<Term>)
    requires |exp| > 0
    ensures Holds(lit, SeparationLemma(exp)) <==> !forall x :: x in exp ==> Holds(lit, x)
  {
    var x := if |exp| == 1 then exp[0] else And(exp);
    assert Holds(lit, x) <==> forall y :: y in exp ==> Holds(lit, y) by {
      if |exp| == 1 {
        assert forall y :: y in exp <==> y == exp[0];
      }
    }
    if x.Not? {
      assert Holds(lit, x) <==> !Holds(lit, x.arg);
    }
  }

  // ---------------------------------------------------------------------
  // Extracting the solution
  // ---------------------------------------------------------------------

  datatype Extracted = Extracted(sol: Term, conds: seq<Term>)

  /** `PointSeparator::extractSol`: the if-then-else over the installed
      conditions, or, with the information-gain heuristic, over conditions
      rebuilt from the pool (which replace the tree's conditions). `None`
      when the heuristic finds no condition list. */
  function ExtractSol(o: Oracles, opts: Options, dt: Dt, cons: Term, hdMv: map<Term, Term>,
                      installed: seq<Term>): (r: Option<Extracted>)
    requires Separated(o.eval, installed, dt.hds, hdMv)
    ensures !opts.heuristicDt ==> r.Some? && r.value.conds == dt.conds
    ensures opts.heuristicDt && |dt.conds| == 0 ==> r.None?
    ensures opts.heuristicDt && r.Some? ==>
              |r.value.conds| > 0 && forall c :: c in r.value.conds ==> c in dt.pool || c == Last(dt.conds)
    ensures r.Some? ==> forall h :: h in dt.hds ==>
              Interp(o.eval, cons, r.value.sol, h) == Interp(o.eval, cons, Lookup(hdMv, h), h)
  {
    if !opts.heuristicDt then
      ExtractSolSound(o.eval, cons, installed, hdMv, dt.hds);
      Some(Extracted(Extract(o.eval, cons, installed, hdMv, dt.hds, 0), dt.conds))
    else
      match RecomputeSolHeuristically(o.eval, o.gain, hdMv, dt.conds, dt.pool, dt.hds)
      case None => None
      case Some(conds) =>
        ExtractSolSound(o.eval, cons, conds, hdMv, dt.hds);
        Some(Extracted(Extract(o.eval, cons, conds, hdMv, dt.hds, 0), conds))
  }

  // ---------------------------------------------------------------------
  // Independent conditions
  // ---------------------------------------------------------------------

  /** The conditions separate the heads by their model values. */
  ghost predicate ModelSeparated(o: Oracles, conds: seq<Term>, pts: seq<Term>) {
    forall i, j :: 0 <= i < |pts| && 0 <= j < |pts| && Agree(o.eval, conds, pts[i], pts[j])
                   ==> o.modelValue(pts[i]) == o.modelValue(pts[j])
  }

  /** Adding a head to separated heads keeps them separated exactly when it
      starts its own class or has the model value of its representative. */
  lemma ModelSeparatedStep(o: Oracles, conds: seq<Term>, pts: seq<Term>, e: Term, er: Term)
    requires ModelSeparated(o, conds, pts)
    requires er == Add(o.eval, Trie(conds, pts), e).rep
    ensures er == e || er in pts
    ensures er != e && o.modelValue(e) != o.modelValue(er) <==> !ModelSeparated(o, conds, pts + [e])
  {
    var t := Trie(conds, pts);
    var cls := ClassOf(o.eval, t, e);
    var s := pts + [e];
    assert er in s && Agree(o.eval, conds, er, e) by {
      assert er in ClassOf(o.eval, Trie(conds, s), e);
    }
    if er == e || o.modelValue(e) == o.modelValue(er) {
      forall i, j | 0 <= i < |s| && 0 <= j < |s| && Agree(o.eval, conds, s[i], s[j])
        ensures o.modelValue(s[i]) == o.modelValue(s[j])
      {
        if i < |pts| && j < |pts| {
          assert s[i] == pts[i] && s[j] == pts[j];
        } else if i < |pts| || j < |pts| {
          var p := if i < |pts| then s[i] else s[j];
          assert p in pts && Agree(o.eval, conds, p, e);
          assert p in cls;
          SameClassValue(o, conds, pts, cls, p, e, er);
        }
      }
    } else {
      var k :| 0 <= k < |s| && s[k] == er;
      assert s[|pts|] == e;
      assert Agree(o.eval, conds, s[|pts|], s[k]);
    }
  }

  /** A member of the class of `e` among separated heads has the model value
      of the representative; when the representative is `e` itself, `e`
      is one of the heads. */
  lemma SameClassValue(o: Oracles, conds: seq<Term>, pts: seq<Term>, cls: seq<Term>, p: Term, e: Term, er: Term)
    requires ModelSeparated(o, conds, pts)
    requires cls == ClassOf(o.eval, Trie(conds, pts), e) && p in cls
    requires er == Add(o.eval, Trie(conds, pts), e).rep
    requires er == e || o.modelValue(e) == o.modelValue(er)
    ensures o.modelValue(p) == o.modelValue(e)
  {
    assert cls[0] == er;
    assert er in pts;
    var i :| 0 <= i < |pts| && pts[i] == p;
    var j :| 0 <= j < |pts| && pts[j] == er;
    assert Agree(o.eval, conds, pts[i], pts[j]);
  }

  /** Separation by model values of a prefix follows from that of the whole. */
  lemma ModelSeparatedPrefix(o: Oracles, conds: seq<Term>, pts: seq<Term>, k: nat)
    requires k <= |pts| && ModelSeparated(o, conds, pts)
    ensures ModelSeparated(o, conds, pts[..k])
  {
    var s := pts[..k];
    forall i, j | 0 <= i < |s| && 0 <= j < |s| && Agree(o.eval, conds, s[i], s[j])
      ensures o.modelValue(s[i]) == o.modelValue(s[j])
    {
      assert s[i] == pts[i] && s[j] == pts[j];
    }
  }

  /** Model values kept for the heads make model separation separation. */
  lemma ModelSeparatedValues(o: Oracles, conds: seq<Term>, pts: seq<Term>, hdMv: map<Term, Term>)
    requires ModelSeparated(o, conds, pts)
    requires forall h :: h in pts ==> Lookup(hdMv, h) == o.modelValue(h)
    ensures Separated(o.eval, conds, pts, hdMv)
  {
    forall i, j | 0 <= i < |pts| && 0 <= j < |pts| && Agree(o.eval, conds, pts[i], pts[j])
      ensures Lookup(hdMv, pts[i]) == Lookup(hdMv, pts[j])
    {
      assert pts[i] in pts && pts[j] in pts;
    }
  }

  /** The outcome of `buildSol`. */
  datatype Outcome =
    | Templated                                  // templated conditions are unsupported
    | Inseparable                                // independent conditions cannot separate two heads
    | Conflict(exp: seq<Term>, refutation: Term) // the separation lemma is sent
    | Unsolved                                   // the heuristic found no condition list
    | Solved(sol: Term, hdMv: map<Term, Term>)   // the solution and the value of each head

  /** Recording a head's model value keeps every recorded value a model
      value. */
  lemma ModelValuesKept(o: Oracles, prev: seq<Term>, e: Term, hdMv: map<Term, Term>, m: map<Term, Term>, er: Term)
    requires forall h :: h in prev ==> Lookup(hdMv, h) == o.modelValue(h)
    requires m == hdMv[e := o.modelValue(e)]
    requires er == e || er in prev
    ensures forall h :: h in prev + [e] ==> Lookup(m, h) == o.modelValue(h)
    ensures Lookup(m, e) == o.modelValue(e) && Lookup(m, er) == o.modelValue(er)
  {
    assert forall h :: h in prev + [e] ==> h in prev || h == e;
  }

  /** Adding one head with its model value: `conflict` when its class's
      representative has another value. */
  method AddHeadIndependent(o: Oracles, conds: seq<Term>, prev: seq<Term>, e: Term, hdMv: map<Term, Term>)
    returns (conflict: bool, m: map<Term, Term>)
    requires ModelSeparated(o, conds, prev)
    requires forall h :: h in prev ==> Lookup(hdMv, h) == o.modelValue(h)
    ensures forall h :: h in prev + [e] ==> Lookup(m, h) == o.modelValue(h)
    ensures conflict <==> !ModelSeparated(o, conds, prev + [e])
  {
    m := hdMv[e := o.modelValue(e)];
    var er := Add(o.eval, Trie(conds, prev), e).rep;
    ModelSeparatedStep(o, conds, prev, e, er);
    ModelValuesKept(o, prev, e, hdMv, m, er);
    conflict := er != e && Lookup(m, e) != Lookup(m, er);
  }

  /** Adding the heads with their model values to the trie of the pool
      conditions, until one conflicts with its class's representative. */
  method AddHeadsIndependent(o: Oracles, conds: seq<Term>, hds: seq<Term>)
    returns (ok: bool, hdMv: map<Term, Term>)
    ensures ok <==> ModelSeparated(o, conds, hds)
    ensures ok ==> forall h :: h in hds ==> Lookup(hdMv, h) == o.modelValue(h)
  {
    hdMv := map[];
    var i := 0;
    while i < |hds|
      invariant 0 <= i <= |hds|
      invariant ModelSeparated(o, conds, hds[..i])
      invariant forall h :: h in hds[..i] ==> Lookup(hdMv, h) == o.modelValue(h)
    {
      var prev := hds[..i];
      var conflict;
      conflict, hdMv := AddHeadIndependent(o, conds, prev, hds[i], hdMv);
      assert hds[..i + 1] == prev + [hds[i]];
      if conflict {
        if ModelSeparated(o, conds, hds) {
          ModelSeparatedPrefix(o, conds, hds, i + 1);
        }
        return false, hdMv;
      }
      i := i + 1;
    }
    assert hds[..i] == hds;
    return true, hdMv;
  }

  /** The independent-conditions path of `buildSol`: every pool value is a
      condition, and the heads are added with their model values. */
  method BuildSolIndependent(o: Oracles, opts: Options, dt: Dt, cons: Term) returns (out: Outcome, dt': Dt)
    ensures dt' == dt.(conds := dt'.conds, backtrack := -1)
    ensures out.Inseparable? <==> !ModelSeparated(o, dt.pool, dt.hds)
    ensures out.Inseparable? || out.Solved? || out.Unsolved?
    ensures out.Unsolved? ==> opts.heuristicDt
    ensures !opts.heuristicDt ==> dt'.conds == dt.pool
    ensures out.Solved? ==> forall h :: h in dt.hds ==> Lookup(out.hdMv, h) == o.modelValue(h)
    ensures out.Solved? ==> forall h :: h in dt.hds ==>
              Interp(o.eval, cons, out.sol, h) == Interp(o.eval, cons, Lookup(out.hdMv, h), h)
  {
    var conds := dt.pool;
    var dtc := dt.(conds := conds, backtrack := -1);
    var ok, hdMv := AddHeadsIndependent(o, conds, dt.hds);
    if !ok {
      return Inseparable, dtc;
    }
    ModelSeparatedValues(o, conds, dt.hds, hdMv);
    var x := ExtractSol(o, opts, dtc, cons, hdMv, conds);
    if x.None? {
      return Unsolved, dtc;
    }
    return Solved(x.value.sol, hdMv), dtc.(conds := x.value.conds);
  }

  /** The end of `buildSol` after the loop: the separation lemma of a
      conflict, or the extracted solution. */
  method Finish(o: Oracles, opts: Options, dt: Dt, cons: Term, r: Run) returns (out: Outcome, dt': Dt, lemmas': seq<Term>)
    requires Inv(o, opts, dt.(backtrack := -1), r)
    requires r.conflict ==> |r.exp| > 0
    requires !r.conflict ==> Separated(o.eval, r.dt.conds[..r.cCounter], r.dt.hds, r.hdMv)
    ensures dt'.hds == dt.hds && dt'.pool == dt.pool && dt'.guard == dt.guard && dt'.enums == dt.enums
    ensures out.Conflict? || out.Solved? || out.Unsolved?
    ensures out.Conflict? <==> r.conflict
    ensures out.Unsolved? ==> opts.heuristicDt
    ensures out.Solved? ==> out.hdMv == r.hdMv && forall h :: h in dt.hds ==>
              Interp(o.eval, cons, out.sol, h) == Interp(o.eval, cons, Lookup(out.hdMv, h), h)
    ensures out.Conflict? ==>
              && |out.exp| > 0 && out.refutation == SeparationLemma(out.exp)
              && lemmas' == r.lemmas + [out.refutation]
    ensures out.Conflict? && !opts.retPool ==> forall x :: x in out.exp ==> Fact(o, dt.guard, dt.enums, x)
  {
    ghost var dt0 := dt.(backtrack := -1);
    assert r.dt.hds == dt.hds && r.dt.pool == dt.pool && r.dt.guard == dt.guard && r.dt.enums == dt.enums;
    if r.conflict {
      var kept := Kept(opts, r.exp, r.dt.backtrack);
      var refutation := SeparationLemma(kept);
      return Conflict(kept, refutation), r.dt, r.lemmas + [refutation];
    }
    var x := ExtractSol(o, opts, r.dt, cons, r.hdMv, r.dt.conds[..r.cCounter]);
    if x.None? {
      return Unsolved, r.dt, r.lemmas;
    }
    return Solved(x.value.sol, r.hdMv), r.dt.(conds := x.value.conds), r.lemmas;
  }

  /** `DecisionTreeInfo::buildSol`: a solution whose value at every head's
      point is that of the head's kept value, or a separation lemma that
      refutes the current model. */
  method BuildSol(o: Oracles, opts: Options, dt: Dt, cons: Term, lemmas: seq<Term>)
    returns (out: Outcome, dt': Dt, lemmas': seq<Term>)
    requires Ready(o, opts, dt)
    ensures dt.templated <==> out.Templated?
    ensures out.Templated? ==> dt' == dt && lemmas' == lemmas
    ensures dt'.hds == dt.hds && dt'.pool == dt.pool && dt'.guard == dt.guard && dt'.enums == dt.enums
    ensures out.Inseparable? <==> !dt.templated && opts.condIndependent && !ModelSeparated(o, dt.pool, dt.hds)
    ensures out.Unsolved? ==> opts.heuristicDt
    ensures out.Solved? ==> forall h :: h in dt.hds ==>
              Interp(o.eval, cons, out.sol, h) == Interp(o.eval, cons, Lookup(out.hdMv, h), h)
    ensures out.Solved? && (opts.condIndependent || !opts.retPool) ==>
              forall h :: h in dt.hds ==> Lookup(out.hdMv, h) == o.modelValue(h)
    ensures out.Solved? && opts.retPool ==>
              forall h :: h in dt.hds ==> o.evalAt(Lookup(out.hdMv, h), h) == o.evalAt(o.modelValue(h), h)
    ensures out.Conflict? ==>
              && !opts.condIndependent && |out.exp| > 0
              && out.refutation == SeparationLemma(out.exp)
              && |lemmas'| > 0 && Last(lemmas') == out.refutation
    ensures out.Conflict? && !opts.retPool ==> forall x :: x in out.exp ==> Fact(o, dt.guard, dt.enums, x)
  {
    if dt.templated {
      return Templated, dt, lemmas;
    }
    if opts.condIndependent {
      out, dt' := BuildSolIndependent(o, opts, dt, cons);
      if out.Solved? {
        assert forall h :: h in dt.hds ==> Lookup(out.hdMv, h) == o.modelValue(h);
      }
      return out, dt', lemmas;
    }
    var r := Construct(o, opts, dt, lemmas);
    out, dt', lemmas' := Finish(o, opts, dt, cons, r);
  }
}
