/** The decision-tree information of one conditional strategy point: its
    current conditions, the condition pool, the head value pools, and the
    construction of a solution (`buildSol`) that either separates every
    evaluation head by the conditions or explains why they cannot be
    separated. */
module DecisionTree {
  import opened Terms
  import opened OrderedPool
  import opened PointSeparator

  /** The options the construction reads. */
  datatype Options = Options(
    condIndependent: bool,   // sygusUnifCondIndependent
    condPool: bool,          // sygusUnifCondPool
    retPool: bool,           // sygusUnifRetPool
    heuristicDt: bool)       // sygusUnifBooleanHeuristicDt

  /** The services of the rest of the solver that the construction calls. */
  datatype Oracles = Oracles(
    eval: CondEval,                       // computeCond
    id: Term -> nat,                      // the node order
    modelValue: Term -> Term,             // getModelValue of a head
    evalAt: (Term, Term) -> Term,         // evaluateBuiltin of a value at a head's point
    point: Term -> seq<Term>,             // d_hd_to_pt
    explain: (Term, Term) -> Term,        // getExplanationForEquality(enumerator, value)
    repair: (Term, Term, Term) -> Term,   // repairConditionToSeparate(cond, e1, e2)
    gain: Gain)                           // information gain of a condition

  /** `DecisionTreeInfo`. `pool` is `d_cond_mvs`, `hdMvs` the head value
      pool, `equiv` the equivalent values of each head by result at its
      point, `backtrack` `d_exp_backtrack_size` (-1 when unset). */
  datatype Dt = Dt(
    guard: Term,
    enums: seq<Term>,
    conds: seq<Term>,
    pool: seq<Term>,
    hds: seq<Term>,
    templated: bool,
    backtrack: int,
    hdMvs: seq<Term>,
    equiv: map<Term, map<Term, seq<Term>>>,
    appCurrEval: map<Term, Term>,
    adhoc: set<Term>)

  // ---------------------------------------------------------------------
  // Conditions
  // ---------------------------------------------------------------------

  /** `setConditions`: the guard, enumerators and condition values are
      replaced; the values join the pool when a pool is in use. */
  function SetConditions(o: Oracles, opts: Options, dt: Dt, guard: Term, enums: seq<Term>, conds: seq<Term>)
    : (r: Dt)
    requires |enums| == |conds|
    requires Ordered(o.id, dt.pool)
    ensures r == dt.(guard := guard, enums := enums, conds := conds, pool := r.pool)
    ensures Ordered(o.id, r.pool)
    ensures forall c :: c in dt.pool ==> c in r.pool
    ensures opts.condIndependent || opts.condPool ==> forall c :: c in r.pool <==> c in dt.pool || c in conds
    ensures !(opts.condIndependent || opts.condPool) ==> r.pool == dt.pool
  {
    var pool := if opts.condIndependent || opts.condPool then InsertAll(o.id, dt.pool, conds) else dt.pool;
    dt.(guard := guard, enums := enums, conds := conds, pool := pool)
  }

  /** The condition takes different values at the two heads' points. */
  predicate Separates(eval: CondEval, c: Term, e1: Term, e2: Term) {
    eval(c, e1) != eval(c, e2)
  }

  /** The first pool condition from `i` on that separates the heads. */
  function FirstSeparating(eval: CondEval, pool: seq<Term>, e1: Term, e2: Term, i: nat): (k: Option<nat>)
    requires i <= |pool|
    ensures k.Some? ==> i <= k.value < |pool| && Separates(eval, pool[k.value], e1, e2)
    ensures k.Some? ==> forall j :: i <= j < k.value ==> !Separates(eval, pool[j], e1, e2)
    ensures k.None? ==> forall j :: i <= j < |pool| ==> !Separates(eval, pool[j], e1, e2)
    decreases |pool| - i
  {
    if i == |pool| then None
    else if Separates(eval, pool[i], e1, e2) then Some(i)
    else FirstSeparating(eval, pool, e1, e2, i + 1)
  }

  datatype PoolPick = PoolPick(conds: seq<Term>, ok: bool)

  /** `pickConditionFromPool`: slot `c` (added if missing) receives each
      pool condition in turn until one separates the heads; on failure it
      keeps the last one tried. */
  function PickConditionFromPool(eval: CondEval, conds: seq<Term>, pool: seq<Term>, c: nat, e1: Term, e2: Term)
    : (r: PoolPick)
    requires c <= |conds|
    ensures |r.conds| == if c == |conds| then c + 1 else |conds|
    ensures forall i :: 0 <= i < |conds| && i != c ==> r.conds[i] == conds[i]
    ensures r.ok <==> exists x :: x in pool && Separates(eval, x, e1, e2)
    ensures r.ok ==> exists k :: 0 <= k < |pool| && pool[k] == r.conds[c] && Separates(eval, pool[k], e1, e2)
                                 && forall j :: 0 <= j < k ==> !Separates(eval, pool[j], e1, e2)
    ensures !r.ok && |pool| > 0 ==> r.conds[c] == Last(pool)
    ensures !r.ok && |pool| == 0 ==> r.conds == if c == |conds| then conds + [Null] else conds
  {
    var slots := if c == |conds| then conds + [Null] else conds;
    match FirstSeparating(eval, pool, e1, e2, 0)
    case Some(k) => PoolPick(slots[c := pool[k]], true)
    case None =>
      assert forall x :: x in pool ==> !Separates(eval, x, e1, e2);
      if |pool| > 0 then PoolPick(slots[c := Last(pool)], false) else PoolPick(slots, false)
  }

  datatype Pick = Pick(dt: Dt, exp: seq<Term>, ok: bool)

  /** `pickCondition`: the enumerated condition of slot `c`, if there is
      one, after repair, with its explanation; the pool when there is no
      enumerated condition or it does not separate the heads. The first use
      of the pool records the explanation length to backtrack to. */
  function PickCondition(o: Oracles, opts: Options, dt: Dt, c: nat, e1: Term, e2: Term, exp: seq<Term>)
    : (r: Pick)
    requires c <= |dt.conds| && |dt.enums| <= |dt.conds|
    ensures r.dt == dt.(conds := r.dt.conds, backtrack := r.dt.backtrack)
    ensures |dt.conds| <= |r.dt.conds| <= |dt.conds| + 1
    ensures |r.dt.conds| > |dt.conds| ==> c == |dt.conds|
    ensures r.dt.conds[..c] == dt.conds[..c]
    ensures r.ok <==> c < |dt.enums| || (opts.condPool && exists x :: x in dt.pool && Separates(o.eval, x, e1, e2))
    ensures r.ok ==> c < |r.dt.conds|
    ensures r.ok && !Separates(o.eval, r.dt.conds[c], e1, e2) ==> c < |dt.enums|
    ensures c < |dt.enums| ==> r.exp == exp + [o.explain(dt.enums[c], o.repair(dt.conds[c], e1, e2))]
    ensures c < |dt.enums| && Separates(o.eval, o.repair(dt.conds[c], e1, e2), e1, e2)
            ==> r.dt.conds[c] == o.repair(dt.conds[c], e1, e2)
    ensures c >= |dt.enums| ==> r.exp == exp
    ensures dt.backtrack != -1 ==> r.dt.backtrack == dt.backtrack
    ensures r.dt.backtrack != dt.backtrack ==> dt.backtrack == -1 && r.dt.backtrack == |r.exp|
  {
    var hasEnum := c < |dt.enums|;
    var cv := if hasEnum then o.repair(dt.conds[c], e1, e2) else Null;
    var dt1 := if hasEnum then dt.(conds := dt.conds[c := cv]) else dt;
    var exp1 := if hasEnum then exp + [o.explain(dt.enums[c], cv)] else exp;
    assert dt1.conds[..c] == dt.conds[..c];
    if opts.condPool && (!hasEnum || !Separates(o.eval, dt1.conds[c], e1, e2)) then
      var pp := PickConditionFromPool(o.eval, dt1.conds, dt1.pool, c, e1, e2);
      assert pp.conds[..c] == dt1.conds[..c];
      if pp.ok then
        var bt := if dt.backtrack == -1 then |exp1| else dt.backtrack;
        Pick(dt1.(conds := pp.conds, backtrack := bt), exp1, true)
      else
        Pick(dt1.(conds := pp.conds), exp1, hasEnum)
    else
      Pick(dt1, exp1, hasEnum)
  }

  // ---------------------------------------------------------------------
  // Head value pools
  // ---------------------------------------------------------------------

  /** `d_hd_equiv_mvs[h][k]`: a missing entry reads as the empty set. */
  function PoolOf(equiv: map<Term, map<Term, seq<Term>>>, h: Term, k: Term): seq<Term> {
    if h in equiv && k in equiv[h] then equiv[h][k] else []
  }

  ghost predicate PoolsOrdered(id: Term -> nat, equiv: map<Term, map<Term, seq<Term>>>) {
    forall h, k :: h in equiv && k in equiv[h] ==> Ordered(id, equiv[h][k])
  }

  /** Every value in a head's pool for result `k` evaluates to `k` at that
      head's point. */
  ghost predicate PoolsSound(evalAt: (Term, Term) -> Term, equiv: map<Term, map<Term, seq<Term>>>) {
    forall h, k, v :: v in PoolOf(equiv, h, k) ==> evalAt(v, h) == k
  }

  /** `d_hd_equiv_mvs[h][k].insert(v)`. */
  function AddToPool(id: Term -> nat, equiv: map<Term, map<Term, seq<Term>>>, h: Term, k: Term, v: Term)
    : (r: map<Term, map<Term, seq<Term>>>)
    requires PoolsOrdered(id, equiv)
    ensures PoolsOrdered(id, r)
    ensures forall h', k', x :: x in PoolOf(r, h', k') <==> x in PoolOf(equiv, h', k') || (x == v && h' == h && k' == k)
  {
    var inner := if h in equiv then equiv[h] else map[];
    var pool := Insert(id, PoolOf(equiv, h, k), v);
    var r := equiv[h := inner[k := pool]];
    AddToPoolFacts(id, equiv, h, k, v, pool, r);
    r
  }

  lemma AddToPoolFacts(id: Term -> nat, equiv: map<Term, map<Term, seq<Term>>>, h: Term, k: Term, v: Term,
                       pool: seq<Term>, r: map<Term, map<Term, seq<Term>>>)
    requires PoolsOrdered(id, equiv) && Ordered(id, pool)
    requires forall x :: x in pool <==> x in PoolOf(equiv, h, k) || x == v
    requires r == equiv[h := (if h in equiv then equiv[h] else map[])[k := pool]]
    ensures PoolsOrdered(id, r)
    ensures forall h', k', x :: x in PoolOf(r, h', k') <==> x in PoolOf(equiv, h', k') || (x == v && h' == h && k' == k)
  {
    forall h', k' ensures PoolOf(r, h', k') == if h' == h && k' == k then pool else PoolOf(equiv, h', k') {
    }
    forall h', k' | h' in r && k' in r[h'] ensures Ordered(id, r[h'][k']) {
      assert r[h'][k'] == PoolOf(r, h', k');
    }
  }

  /** Adds `v` to the pool of each head of `hds` under the result it has at
      that head's point. */
  function AddToPools(id: Term -> nat, evalAt: (Term, Term) -> Term, equiv: map<Term, map<Term, seq<Term>>>,
                      hds: seq<Term>, v: Term): (r: map<Term, map<Term, seq<Term>>>)
    requires PoolsOrdered(id, equiv)
    ensures PoolsOrdered(id, r)
    ensures forall h, k, x :: x in PoolOf(r, h, k) <==> x in PoolOf(equiv, h, k) || (x == v && h in hds && k == evalAt(v, h))
    decreases |hds|
  {
    if |hds| == 0 then equiv
    else
      assert forall x :: x in hds <==> x == hds[0] || x in hds[1..];
      AddToPools(id, evalAt, AddToPool(id, equiv, hds[0], evalAt(v, hds[0]), v), hds[1..], v)
  }

  /** `addHeadValuePool` (with the value pool enabled): records what the
      head's value gives at its point and, for a new value, adds it to the
      pools of all heads. */
  function AddHeadValuePool(o: Oracles, opts: Options, dt: Dt, hd: Term, hdv: Term): (r: Dt)
    requires Ordered(o.id, dt.hdMvs) && PoolsOrdered(o.id, dt.equiv)
    ensures r == dt.(hdMvs := r.hdMvs, equiv := r.equiv, appCurrEval := r.appCurrEval)
    ensures Ordered(o.id, r.hdMvs) && PoolsOrdered(o.id, r.equiv)
    ensures PoolsSound(o.evalAt, dt.equiv) ==> PoolsSound(o.evalAt, r.equiv)
    ensures !opts.retPool ==> r == dt
    ensures opts.retPool ==> r.appCurrEval == dt.appCurrEval[hd := o.evalAt(hdv, hd)]
    ensures opts.retPool ==> forall x :: x in r.hdMvs <==> x in dt.hdMvs || x == hdv
    ensures forall h, k, x :: x in PoolOf(dt.equiv, h, k) ==> x in PoolOf(r.equiv, h, k)
    ensures opts.retPool && hdv !in dt.hdMvs ==> forall h :: h in dt.hds ==> hdv in PoolOf(r.equiv, h, o.evalAt(hdv, h))
    ensures (!opts.retPool || hdv in dt.hdMvs) ==> r.equiv == dt.equiv
  {
    if !opts.retPool then dt
    else
      var app := dt.appCurrEval[hd := o.evalAt(hdv, hd)];
      if hdv in dt.hdMvs then dt.(appCurrEval := app)
      else dt.(appCurrEval := app, hdMvs := Insert(o.id, dt.hdMvs, hdv),
               equiv := AddToPools(o.id, o.evalAt, dt.equiv, dt.hds, hdv))
  }

  /** The ad-hoc unfolding lemma for one value of a head's pool. */
  function UnfoldLemma(o: Oracles, e2: Term, value: Term, evEq: Term): Term {
    Or([Not(o.explain(e2, value)), evEq])
  }

  datatype Emitted = Emitted(adhoc: set<Term>, lemmas: seq<Term>)

  /** Sends the unfolding lemma of each value of `vs` not sent before. */
  function EmitUnfoldLemmas(o: Oracles, e2: Term, evEq: Term, vs: seq<Term>, adhoc: set<Term>, lemmas: seq<Term>)
    : (r: Emitted)
    ensures r.adhoc == adhoc + set v | v in vs :: UnfoldLemma(o, e2, v, evEq)
    ensures |r.lemmas| >= |lemmas| && r.lemmas[..|lemmas|] == lemmas
    ensures forall x :: x in r.lemmas[|lemmas|..] <==> x in r.adhoc && x !in adhoc
    ensures NoDuplicates(r.lemmas[|lemmas|..])
    decreases |vs|
  {
    if |vs| == 0 then Emitted(adhoc, lemmas)
    else
      var l := UnfoldLemma(o, e2, vs[0], evEq);
      var adhoc1 := if l in adhoc then adhoc else adhoc + {l};
      var lemmas1 := if l in adhoc then lemmas else lemmas + [l];
      var rest := EmitUnfoldLemmas(o, e2, evEq, vs[1..], adhoc1, lemmas1);
      assert forall v :: v in vs <==> v == vs[0] || v in vs[1..];
      PrefixSplit(lemmas, lemmas1, rest.lemmas);
      rest
  }

  /** The suffixes of a chain of extensions. */
  lemma PrefixSplit(a: seq<Term>, b: seq<Term>, c: seq<Term>)
    requires |a| <= |b| <= |c| && b[..|a|] == a && c[..|b|] == b
    ensures c[..|a|] == a
    ensures c[|a|..] == b[|a|..] + c[|b|..]
  {
    assert c[..|b|][..|a|] == c[..|a|];
  }

  datatype EvalExp = EvalExp(lit: Term, adhoc: set<Term>, lemmas: seq<Term>)

  /** `makeEvalExp(e1, e2, pt, equal)`: the (dis)equality of the two heads'
      evaluations at `pt`; an equality also sends, for each value of the
      pool of `e2` at its current result, the lemma that `e2` having that
      value makes its evaluation at `pt` the current result of `e1`. */
  function MakeEvalExp(o: Oracles, dt: Dt, e1: Term, e2: Term, pt: seq<Term>, equal: bool, lemmas: seq<Term>)
    : (r: EvalExp)
    ensures equal ==> r.lit == Equal(SygusEval(e1, pt), SygusEval(e2, pt))
    ensures !equal ==> r.lit == Not(Equal(SygusEval(e1, pt), SygusEval(e2, pt)))
    ensures !equal ==> r.adhoc == dt.adhoc && r.lemmas == lemmas
    ensures equal ==> r.adhoc == dt.adhoc + set v | v in PoolOf(dt.equiv, e2, Lookup(dt.appCurrEval, e2)) ::
                                    UnfoldLemma(o, e2, v, Equal(SygusEval(e2, pt), Lookup(dt.appCurrEval, e1)))
    ensures |r.lemmas| >= |lemmas| && r.lemmas[..|lemmas|] == lemmas
    ensures forall x :: x in r.lemmas[|lemmas|..] <==> x in r.adhoc && x !in dt.adhoc
  {
    var ev1 := SygusEval(e1, pt);
    var ev2 := SygusEval(e2, pt);
    var eq := Equal(ev1, ev2);
    if equal then
      var evEq := Equal(ev2, Lookup(dt.appCurrEval, e1));
      var em := EmitUnfoldLemmas(o, e2, evEq, PoolOf(dt.equiv, e2, Lookup(dt.appCurrEval, e2)), dt.adhoc, lemmas);
      EvalExp(eq, em.adhoc, em.lemmas)
    else
      assert lemmas[|lemmas|..] == [];
      EvalExp(Not(eq), dt.adhoc, lemmas)
  }

  /** A value in the pool of every head of `cls`, and of `hd`, at their
      current results. */
  ghost predicate IsCommon(dt: Dt, hd: Term, cls: seq<Term>, v: Term) {
    && v in PoolOf(dt.equiv, hd, Lookup(dt.appCurrEval, hd))
    && forall h :: h in cls ==> v in PoolOf(dt.equiv, h, Lookup(dt.appCurrEval, h))
  }

  datatype Scan = Stuck(at: nat) | Common(values: seq<Term>)

  /** The intersection of the pools, head by head, stopping at the first
      head that empties it. */
  function MergeScan(dt: Dt, cls: seq<Term>, i: nat, merged: seq<Term>): (r: Scan)
    requires i <= |cls|
    ensures r.Stuck? ==> i <= r.at < |cls|
    ensures r.Common? ==> |r.values| > 0 || (i == |cls| && |merged| == 0)
    ensures r.Common? ==> forall v :: v in r.values <==>
                            v in merged && forall j :: i <= j < |cls| ==> v in PoolOf(dt.equiv, cls[j], Lookup(dt.appCurrEval, cls[j]))
    ensures r.Stuck? ==> forall v :: v in merged ==>
                            exists j :: i <= j <= r.at && v !in PoolOf(dt.equiv, cls[j], Lookup(dt.appCurrEval, cls[j]))
    decreases |cls| - i
  {
    if i == |cls| then Common(merged)
    else
      var next := Intersect(merged, PoolOf(dt.equiv, cls[i], Lookup(dt.appCurrEval, cls[i])));
      if |next| == 0 then Stuck(i) else MergeScan(dt, cls, i + 1, next)
  }

  datatype Merge = Merge(value: Option<Term>, exp: seq<Term>, dt: Dt, lemmas: seq<Term>)

  /** `mergeHeadValuePools(hd, cls)`: the value of least id common to the
      pools of `hd` and of every head of the class, with the equality of
      evaluations of the class's first head and `hd` as explanation; or no
      value, with the disequality for the head that emptied the
      intersection. */
  function MergeHeadValuePools(o: Oracles, dt: Dt, hd: Term, cls: seq<Term>, exp: seq<Term>, lemmas: seq<Term>)
    : (r: Merge)
    requires |cls| > 0
    requires PoolsOrdered(o.id, dt.equiv)
    ensures r.dt == dt.(adhoc := r.dt.adhoc)
    ensures |r.exp| == |exp| + 1 && r.exp[..|exp|] == exp
    ensures r.value.Some? <==> exists v :: IsCommon(dt, hd, cls, v)
    ensures r.value.Some? ==> IsCommon(dt, hd, cls, r.value.value)
    ensures r.value.Some? ==> forall v :: IsCommon(dt, hd, cls, v) ==> o.id(r.value.value) <= o.id(v)
    ensures r.value.Some? ==> Last(r.exp) == Equal(SygusEval(cls[0], o.point(cls[0])), SygusEval(hd, o.point(cls[0])))
    ensures r.value.None? ==> (exists j :: 0 <= j < |cls| &&
                                 Last(r.exp) == Not(Equal(SygusEval(cls[j], o.point(cls[j])), SygusEval(hd, o.point(cls[j])))))
    ensures r.value.None? ==> r.dt == dt && r.lemmas == lemmas
  {
    var start := PoolOf(dt.equiv, hd, Lookup(dt.appCurrEval, hd));
    var scan := MergeScan(dt, cls, 0, start);
    MergeScanOrdered(o.id, dt, cls, 0, start);
    match scan
    case Stuck(j) =>
      var ee := MakeEvalExp(o, dt, cls[j], hd, o.point(cls[j]), false, lemmas);
      StuckNoCommon(dt, hd, cls, start, j);
      Merge(None, exp + [ee.lit], dt, lemmas)
    case Common(values) =>
      var ee := MakeEvalExp(o, dt, cls[0], hd, o.point(cls[0]), true, lemmas);
      CommonValues(dt, hd, cls, start, values);
      assert values[0] in values;
      FirstIsLeast(o.id, values);
      Merge(Some(values[0]), exp + [ee.lit], dt.(adhoc := ee.adhoc), ee.lemmas)
  }

  lemma StuckNoCommon(dt: Dt, hd: Term, cls: seq<Term>, start: seq<Term>, j: nat)
    requires start == PoolOf(dt.equiv, hd, Lookup(dt.appCurrEval, hd))
    requires MergeScan(dt, cls, 0, start) == Stuck(j)
    ensures forall v :: !IsCommon(dt, hd, cls, v)
  {
    forall v | v in start
      ensures !IsCommon(dt, hd, cls, v)
    {
      var k :| 0 <= k <= j && v !in PoolOf(dt.equiv, cls[k], Lookup(dt.appCurrEval, cls[k]));
      assert cls[k] in cls;
    }
  }

  lemma CommonValues(dt: Dt, hd: Term, cls: seq<Term>, start: seq<Term>, values: seq<Term>)
    requires start == PoolOf(dt.equiv, hd, Lookup(dt.appCurrEval, hd))
    requires MergeScan(dt, cls, 0, start) == Common(values)
    ensures forall v :: IsCommon(dt, hd, cls, v) <==> v in values
  {
    forall v ensures IsCommon(dt, hd, cls, v) <==> v in values {
      if v in values {
        forall h | h in cls ensures v in PoolOf(dt.equiv, h, Lookup(dt.appCurrEval, h)) {
          var j :| 0 <= j < |cls| && cls[j] == h;
        }
      }
    }
  }

  lemma {:induction false} MergeScanOrdered(id: Term -> nat, dt: Dt, cls: seq<Term>, i: nat, merged: seq<Term>)
    requires i <= |cls|
    requires PoolsOrdered(id, dt.equiv) && Ordered(id, merged)
    ensures var r := MergeScan(dt, cls, i, merged); r.Common? ==> Ordered(id, r.values)
    decreases |cls| - i
  {
    if i < |cls| {
      var next := Intersect(merged, PoolOf(dt.equiv, cls[i], Lookup(dt.appCurrEval, cls[i])));
      IntersectOrdered(id, merged, PoolOf(dt.equiv, cls[i], Lookup(dt.appCurrEval, cls[i])));
      MergeScanOrdered(id, dt, cls, i + 1, next);
    }
  }
}
