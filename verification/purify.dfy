/** `SygusUnifRl::purifyLemma`: a refinement lemma is rewritten so that
    every application of a function-to-synthesize that uses unification
    gets a fresh evaluation-point head, whose point (its argument tuple) is
    recorded, and every application below such an application is replaced
    by its current value, guarded by a disequality that the lemma is
    weakened with. */
module Purify {
  import opened Terms
  import opened OrderedPool

  /** What purification reads of the rest of the solver. */
  datatype Env = Env(
    unif: set<Term>,              // d_unif_candidates
    sols: map<Term, Term>,        // d_cand_to_sol: the built solutions
    evalUnfold: Term -> Term,     // evaluateWithUnfolding
    modelValue: Term -> Term,     // getModelValue
    rewrite: Term -> Term,        // Rewriter::rewrite
    id: Term -> nat)              // the node order, for iterating the candidates

  /** The evaluation heads of the solver object, kept across lemmas:
      `app` is `d_app_to_purified`, `count` `d_cand_to_hd_count`, `evalHds`
      `d_cand_to_eval_hds` (whose keys, in node order, are `keys`), and
      `hdToPt` `d_hd_to_pt`. */
  datatype Heads = Heads(
    app: map<Term, Term>,
    count: map<Term, nat>,
    evalHds: map<Term, seq<Term>>,
    keys: seq<Term>,
    hdToPt: map<Term, seq<Term>>)

  /** The state of one purification: the heads, the cache of results by
      (ensureConst, term), and the model guards collected so far. */
  datatype PState = PState(heads: Heads, cache: map<(bool, Term), Term>, guards: seq<Term>)

  /** `d_cand_to_hd_count[c]`: a missing entry reads as 0. */
  function Count(h: Heads, c: Term): nat {
    if c in h.count then h.count[c] else 0
  }

  /** `d_cand_to_eval_hds[c]`: a missing entry reads as empty. */
  function HeadsOf(h: Heads, c: Term): seq<Term> {
    if c in h.evalHds then h.evalHds[c] else []
  }

  /** `p` is the purified form of the application `a`: the same arguments
      under a head of `a`'s candidate whose recorded point is exactly those
      arguments. */
  ghost predicate PurifiedAs(h: Heads, a: Term, p: Term) {
    && a.SygusEval? && p.SygusEval? && p.args == a.args
    && p.fn.EvalHead? && p.fn.cand == a.fn && p.fn in HeadsOf(h, a.fn)
    && p.fn in h.hdToPt && h.hdToPt[p.fn] == a.args
  }

  /** The heads of a candidate are numbered by the counter, in order; every
      recorded point belongs to a head; every purified application is
      purified as above; the keys are those of `evalHds`, in node order. */
  ghost predicate WellFormed(id: Term -> nat, h: Heads) {
    && (forall c :: Count(h, c) == |HeadsOf(h, c)|)
    && (forall c, i :: 0 <= i < |HeadsOf(h, c)| ==> HeadsOf(h, c)[i] == EvalHead(c, i))
    && (forall x :: x in h.hdToPt ==> x.EvalHead? && x in HeadsOf(h, x.cand))
    && (forall a :: a in h.app ==> PurifiedAs(h, a, h.app[a]))
    && (forall c :: c in h.keys <==> c in h.evalHds)
    && Ordered(id, h.keys)
  }

  /** Heads, points and purified applications are only ever added. */
  ghost predicate Grows(h: Heads, h': Heads) {
    && (forall a :: a in h.app ==> a in h'.app && h'.app[a] == h.app[a])
    && (forall c :: HeadsOf(h, c) <= HeadsOf(h', c))
    && (forall x :: x in h.hdToPt ==> x in h'.hdToPt && h'.hdToPt[x] == h.hdToPt[x])
    && (forall c :: c in h.keys ==> c in h'.keys)
  }

  lemma GrowsTrans(h: Heads, h': Heads, h'': Heads)
    requires Grows(h, h') && Grows(h', h'')
    ensures Grows(h, h'')
  {
    forall c ensures HeadsOf(h, c) <= HeadsOf(h'', c) {
      assert HeadsOf(h, c) <= HeadsOf(h', c) <= HeadsOf(h'', c);
    }
  }

  /** A fresh head of candidate `c` is none of its existing heads. */
  lemma FreshHead(id: Term -> nat, h: Heads, c: Term)
    requires WellFormed(id, h)
    ensures EvalHead(c, Count(h, c)) !in HeadsOf(h, c)
    ensures EvalHead(c, Count(h, c)) !in h.hdToPt
  {
    assert forall i :: 0 <= i < |HeadsOf(h, c)| ==> HeadsOf(h, c)[i] != EvalHead(c, Count(h, c));
  }

  datatype Registered = Registered(purified: Term, heads: Heads)

  /** The head of a rebuilt application of a unification candidate: the one
      it was purified with before, or a fresh head `c_k` for the candidate's
      counter `k`, appended to the candidate's heads with the application's
      arguments as its point. */
  function Register(id: Term -> nat, h: Heads, nb: Term): (r: Registered)
    requires WellFormed(id, h) && nb.SygusEval?
    ensures WellFormed(id, r.heads) && Grows(h, r.heads)
    ensures nb in r.heads.app && r.heads.app[nb] == r.purified
    ensures PurifiedAs(r.heads, nb, r.purified)
    ensures nb in h.app ==> r == Registered(h.app[nb], h)
    ensures nb !in h.app ==>
              && Count(r.heads, nb.fn) == Count(h, nb.fn) + 1
              && HeadsOf(r.heads, nb.fn) == HeadsOf(h, nb.fn) + [r.purified.fn]
              && r.purified.fn !in HeadsOf(h, nb.fn)
    ensures nb !in h.app ==> forall c :: c != nb.fn ==> HeadsOf(r.heads, c) == HeadsOf(h, c)
  {
    if nb in h.app then Registered(h.app[nb], h)
    else
      var c := nb.fn;
      var k := Count(h, c);
      var hd := EvalHead(c, k);
      FreshHead(id, h, c);
      var np := SygusEval(hd, nb.args);
      var keys := Insert(id, h.keys, c);
      var h' := Heads(h.app[nb := np], h.count[c := k + 1], h.evalHds[c := HeadsOf(h, c) + [hd]],
                      keys, h.hdToPt[hd := nb.args]);
      RegisterKeeps(id, h, h', nb, np);
      Registered(np, h')
  }

  lemma RegisterKeeps(id: Term -> nat, h: Heads, h': Heads, nb: Term, np: Term)
    requires WellFormed(id, h) && nb.SygusEval? && nb !in h.app
    requires np == SygusEval(EvalHead(nb.fn, Count(h, nb.fn)), nb.args)
    requires EvalHead(nb.fn, Count(h, nb.fn)) !in HeadsOf(h, nb.fn)
    requires EvalHead(nb.fn, Count(h, nb.fn)) !in h.hdToPt
    requires Ordered(id, h'.keys) && forall c :: c in h'.keys <==> c in h.keys || c == nb.fn
    requires h'.app == h.app[nb := np]
    requires h'.count == h.count[nb.fn := Count(h, nb.fn) + 1]
    requires h'.evalHds == h.evalHds[nb.fn := HeadsOf(h, nb.fn) + [np.fn]]
    requires h'.hdToPt == h.hdToPt[np.fn := nb.args]
    ensures WellFormed(id, h') && Grows(h, h')
    ensures HeadsOf(h', nb.fn) == HeadsOf(h, nb.fn) + [np.fn]
    ensures forall c :: c != nb.fn ==> HeadsOf(h', c) == HeadsOf(h, c)
  {
    var c := nb.fn;
    assert forall c' :: HeadsOf(h', c') == if c' == c then HeadsOf(h, c) + [np.fn] else HeadsOf(h, c');
    assert forall c' :: Count(h', c') == if c' == c then Count(h, c) + 1 else Count(h, c');
    NumberedAppend(h, h', c);
    PurifiedKept(h, h', nb, np);
  }

  /** Appending head number `Count(h, c)` keeps the heads numbered. */
  lemma NumberedAppend(h: Heads, h': Heads, c: Term)
    requires forall c' :: Count(h, c') == |HeadsOf(h, c')|
    requires forall c', i :: 0 <= i < |HeadsOf(h, c')| ==> HeadsOf(h, c')[i] == EvalHead(c', i)
    requires forall c' :: HeadsOf(h', c') == if c' == c then HeadsOf(h, c) + [EvalHead(c, Count(h, c))] else HeadsOf(h, c')
    requires forall c' :: Count(h', c') == if c' == c then Count(h, c) + 1 else Count(h, c')
    ensures forall c' :: Count(h', c') == |HeadsOf(h', c')|
    ensures forall c', i :: 0 <= i < |HeadsOf(h', c')| ==> HeadsOf(h', c')[i] == EvalHead(c', i)
  {
    forall c', i | 0 <= i < |HeadsOf(h', c')| ensures HeadsOf(h', c')[i] == EvalHead(c', i) {
      if c' == c && i < |HeadsOf(h, c)| {
        assert HeadsOf(h', c')[i] == HeadsOf(h, c')[i];
      }
    }
  }

  /** The new purified application and the old ones are purified in the
      new heads. */
  lemma PurifiedKept(h: Heads, h': Heads, nb: Term, np: Term)
    requires forall a :: a in h.app ==> PurifiedAs(h, a, h.app[a])
    requires forall x :: x in h.hdToPt ==> x.EvalHead? && x in HeadsOf(h, x.cand)
    requires nb.SygusEval? && nb !in h.app && np == SygusEval(EvalHead(nb.fn, Count(h, nb.fn)), nb.args)
    requires np.fn !in h.hdToPt
    requires forall c' :: HeadsOf(h', c') == if c' == nb.fn then HeadsOf(h, nb.fn) + [np.fn] else HeadsOf(h, c')
    requires h'.app == h.app[nb := np]
    requires h'.hdToPt == h.hdToPt[np.fn := nb.args]
    ensures forall a :: a in h'.app ==> PurifiedAs(h', a, h'.app[a])
    ensures forall x :: x in h'.hdToPt ==> x.EvalHead? && x in HeadsOf(h', x.cand)
    ensures forall a :: a in h.app ==> a in h'.app && h'.app[a] == h.app[a]
    ensures forall x :: x in h.hdToPt ==> x in h'.hdToPt && h'.hdToPt[x] == h.hdToPt[x]
  {
    forall a | a in h'.app ensures PurifiedAs(h', a, h'.app[a]) {
      if a != nb {
        assert PurifiedAs(h, a, h.app[a]);
        assert HeadsOf(h, a.fn) <= HeadsOf(h', a.fn);
      }
    }
  }

  /** The value of an application under `ensureConst`: the built solution
      substituted in and evaluated, or else its model value. */
  function ValueOf(env: Env, n: Term): Term
    requires n.SygusEval?
  {
    if n.fn in env.sols then env.evalUnfold(Substitute(n, n.fn, env.sols[n.fn])) else env.modelValue(n)
  }

  /** The heads grow and the guards are only ever appended to. */
  ghost predicate Extends(st: PState, st': PState) {
    && Grows(st.heads, st'.heads)
    && st.guards <= st'.guards
  }

  datatype Purified = Purified(t: Term, st: PState)

  /** `purifyLemma(n, ensureConst)`. `None` is the failed hard assertion of
      an application of a unification candidate, below another application,
      whose solution has not been built. */
  function PurifyLemma(env: Env, n: Term, ensureConst: bool, st: PState): (r: Option<Purified>)
    requires WellFormed(env.id, st.heads)
    ensures r.Some? ==> WellFormed(env.id, r.value.st.heads) && Extends(st, r.value.st)
    ensures r.Some? ==> (ensureConst, n) in r.value.st.cache && r.value.st.cache[(ensureConst, n)] == r.value.t
    ensures (ensureConst, n) in st.cache ==> r == Some(Purified(st.cache[(ensureConst, n)], st))
    ensures (ensureConst, n) !in st.cache && ensureConst && n.SygusEval? && n.fn in env.unif && n.fn !in env.sols
            ==> r.None?
    ensures r.Some? && (ensureConst, n) !in st.cache && ensureConst && n.SygusEval? ==>
              && r.value.t == env.rewrite(ValueOf(env, n))
              && |r.value.st.guards| > |st.guards|
              && Last(r.value.st.guards).Not? && Last(r.value.st.guards).arg.Equal?
              && Last(r.value.st.guards).arg.lhs == ValueOf(env, n)
              && (n.fn in env.unif ==> exists a :: PurifiedAs(r.value.st.heads, a, Last(r.value.st.guards).arg.rhs)
                                                   && a.fn == n.fn)
    decreases n, 1, 0
  {
    var key := (ensureConst, n);
    if key in st.cache then Some(Purified(st.cache[key], st))
    else
      var fapp := n.SygusEval?;
      var uFapp := fapp && n.fn in env.unif;
      if ensureConst && uFapp && n.fn !in env.sols then None
      else
        match PurifyArgs(env, n, 0, fapp, !(fapp && !uFapp) && (ensureConst || uFapp), st)
        case None => None
        case Some(args) => Some(Rebuild(env, n, ensureConst, st, args))
  }

  /** The rest of `purifyLemma` once the children are purified: the node
      rebuilt over them, then for an application the head and the guard,
      and the cache entry. */
  function Rebuild(env: Env, n: Term, ensureConst: bool, st: PState, args: PurifiedArgs): (r: Purified)
    requires WellFormed(env.id, args.st.heads) && Extends(st, args.st)
    requires |args.ts| == |Children(n)|
    requires n.SygusEval? ==> args.ts[0] == n.fn
    ensures WellFormed(env.id, r.st.heads) && Extends(st, r.st)
    ensures (ensureConst, n) in r.st.cache && r.st.cache[(ensureConst, n)] == r.t
    ensures ensureConst && n.SygusEval? ==>
              && r.t == env.rewrite(ValueOf(env, n))
              && |r.st.guards| > |st.guards|
              && Last(r.st.guards).Not? && Last(r.st.guards).arg.Equal?
              && Last(r.st.guards).arg.lhs == ValueOf(env, n)
              && (n.fn in env.unif ==> exists a :: PurifiedAs(r.st.heads, a, Last(r.st.guards).arg.rhs) && a.fn == n.fn)
  {
    var cs := args.ts;
    var nb := if cs == Children(n) then n else WithChildren(n, cs);
    if n.SygusEval? then
      assert nb.SygusEval? && nb.fn == n.fn;
      RebuildApp(env, n, nb, ensureConst, st, args.st)
    else
      var res := env.rewrite(nb);
      Purified(res, args.st.(cache := args.st.cache[(ensureConst, n) := res]))
  }

  /** `Rebuild` for an application `n` rebuilt as `nb`. */
  function RebuildApp(env: Env, n: Term, nb: Term, ensureConst: bool, st: PState, st1: PState): (r: Purified)
    requires WellFormed(env.id, st1.heads) && Extends(st, st1)
    requires n.SygusEval? && nb.SygusEval? && nb.fn == n.fn
    ensures WellFormed(env.id, r.st.heads) && Extends(st, r.st)
    ensures (ensureConst, n) in r.st.cache && r.st.cache[(ensureConst, n)] == r.t
    ensures ensureConst ==>
              && r.t == env.rewrite(ValueOf(env, n))
              && |r.st.guards| > |st.guards|
              && Last(r.st.guards).Not? && Last(r.st.guards).arg.Equal?
              && Last(r.st.guards).arg.lhs == ValueOf(env, n)
              && (n.fn in env.unif ==> exists a :: PurifiedAs(r.st.heads, a, Last(r.st.guards).arg.rhs) && a.fn == n.fn)
  {
    var reg := if n.fn in env.unif then Register(env.id, st1.heads, nb) else Registered(nb, st1.heads);
    GrowsTrans(st.heads, st1.heads, reg.heads);
    if ensureConst then
      var nv := ValueOf(env, n);
      var res := env.rewrite(nv);
      Purified(res, PState(reg.heads, st1.cache[(ensureConst, n) := res], st1.guards + [Not(Equal(nv, reg.purified))]))
    else
      var res := env.rewrite(reg.purified);
      Purified(res, PState(reg.heads, st1.cache[(ensureConst, n) := res], st1.guards))
  }

  datatype PurifiedArgs = PurifiedArgs(ts: seq<Term>, st: PState)

  /** The children of `n` from position `i` on, purified in order; the
      function of an application (`fapp`) is kept. */
  function PurifyArgs(env: Env, n: Term, i: nat, fapp: bool, ensureConst: bool, st: PState): (r: Option<PurifiedArgs>)
    requires WellFormed(env.id, st.heads) && i <= |Children(n)|
    ensures r.Some? ==> WellFormed(env.id, r.value.st.heads) && Extends(st, r.value.st)
    ensures r.Some? ==> |r.value.ts| == |Children(n)| - i
    ensures r.Some? && fapp && i == 0 && |Children(n)| > 0 ==> r.value.ts[0] == Children(n)[0]
    decreases n, 0, |Children(n)| - i
  {
    if i == |Children(n)| then Some(PurifiedArgs([], st))
    else
      var c := Children(n)[i];
      var first := if i == 0 && fapp then Some(Purified(c, st)) else PurifyLemma(env, c, ensureConst, st);
      match first
      case None => None
      case Some(p) =>
        match PurifyArgs(env, n, i + 1, fapp, ensureConst, p.st)
        case None => None
        case Some(rest) =>
          assert Extends(st, rest.st) by {
            GrowsTrans(st.heads, p.st.heads, rest.st.heads);
          }
          Some(PurifiedArgs([p.t] + rest.ts, rest.st))
  }
}
