/** Terms of the solver: one immutable tree type standing for the solver's
    hash-consed nodes. The constructors are the node kinds the modelled code
    inspects; every other kind is an `Apply` with an operator number. */
module Terms {

  datatype Option<+T> = None | Some(value: T)

  /** The kinds of variables the code distinguishes (`isVar()` holds of all
      of them; only `BoundVar` is excluded as an APPLY_UF operator). */
  datatype VarKind = FreeVar | BoundVar | InstConstant | SkolemVar

  datatype Term =
    | Null                                   // the null node
    | Var(name: nat, vkind: VarKind)
    | EvalHead(cand: Term, index: nat)       // fresh head of an evaluation point
    | Const(value: nat)                      // an (uninterpreted) constant value
    | BoolConst(b: bool)
    | Equal(lhs: Term, rhs: Term)
    | Not(arg: Term)
    | And(conjuncts: seq<Term>)
    | Or(disjuncts: seq<Term>)
    | ApplyUf(op: Term, args: seq<Term>)     // APPLY_UF, operator kept apart
    | HoApply(fn: Term, arg: Term)           // curried application
    | Lambda(params: seq<Term>, body: Term)
    | SygusEval(fn: Term, args: seq<Term>)   // DT_SYGUS_EVAL: function then arguments
    | Construct(cons: Term, args: seq<Term>) // APPLY_CONSTRUCTOR, constructor kept apart
    | Apply(kind: nat, children: seq<Term>)  // any other kind

  /** `isVar()`: variables of every kind, and skolem heads. */
  predicate IsVar(t: Term) {
    t.Var? || t.EvalHead?
  }

  /** `isConst()`. */
  predicate IsConst(t: Term) {
    t.Const? || t.BoolConst?
  }

  /** The children `n[0..n.getNumChildren())` as the code iterates them:
      the operator of APPLY_UF and APPLY_CONSTRUCTOR is not a child, the
      function of DT_SYGUS_EVAL is child 0, a lambda's bound variables come
      before its body. */
  function Children(t: Term): (cs: seq<Term>)
    ensures forall i :: 0 <= i < |cs| ==> cs[i] < t
  {
    match t
    case Null => []
    case Var(_, _) => []
    case EvalHead(_, _) => []
    case Const(_) => []
    case BoolConst(_) => []
    case Equal(a, b) => [a, b]
    case Not(a) => [a]
    case And(xs) => xs
    case Or(xs) => xs
    case ApplyUf(_, xs) => xs
    case HoApply(f, a) => [f, a]
    case Lambda(ps, b) => ps + [b]
    case SygusEval(f, xs) => [f] + xs
    case Construct(_, xs) => xs
    case Apply(_, xs) => xs
  }

  /** Rebuilds a node of the same kind (and operator) as `t` over new children. */
  function WithChildren(t: Term, cs: seq<Term>): (r: Term)
    requires |cs| == |Children(t)|
    ensures Children(r) == cs
  {
    match t
    case Null => t
    case Var(_, _) => t
    case EvalHead(_, _) => t
    case Const(_) => t
    case BoolConst(_) => t
    case Equal(_, _) => Equal(cs[0], cs[1])
    case Not(_) => Not(cs[0])
    case And(_) => And(cs)
    case Or(_) => Or(cs)
    case ApplyUf(op, _) => ApplyUf(op, cs)
    case HoApply(_, _) => HoApply(cs[0], cs[1])
    case Lambda(ps, _) => Lambda(cs[..|ps|], cs[|ps|])
    case SygusEval(_, _) => SygusEval(cs[0], cs[1..])
    case Construct(c, _) => Construct(c, cs)
    case Apply(op, _) => Apply(op, cs)
  }

  lemma WithOwnChildren(t: Term)
    ensures WithChildren(t, Children(t)) == t
  {
    match t
    case Lambda(ps, b) =>
      assert (ps + [b])[..|ps|] == ps;
    case SygusEval(f, xs) =>
      assert ([f] + xs)[1..] == xs;
    case _ =>
  }

  /** `t.substitute(x, a)`: replaces every occurrence of the node `x` by `a`,
      descending everywhere (no capture avoidance, like the node-level
      substitution it models). */
  function Substitute(t: Term, x: Term, a: Term): (r: Term)
    decreases t
  {
    if t == x then a
    else
      match t
      case Null => t
      case Var(_, _) => t
      case EvalHead(_, _) => t
      case Const(_) => t
      case BoolConst(_) => t
      case Equal(l, r) => Equal(Substitute(l, x, a), Substitute(r, x, a))
      case Not(b) => Not(Substitute(b, x, a))
      case And(xs) => And(SubstituteAll(xs, x, a))
      case Or(xs) => Or(SubstituteAll(xs, x, a))
      case ApplyUf(op, xs) => ApplyUf(Substitute(op, x, a), SubstituteAll(xs, x, a))
      case HoApply(f, b) => HoApply(Substitute(f, x, a), Substitute(b, x, a))
      case Lambda(ps, b) => Lambda(SubstituteAll(ps, x, a), Substitute(b, x, a))
      case SygusEval(f, xs) => SygusEval(Substitute(f, x, a), SubstituteAll(xs, x, a))
      case Construct(c, xs) => Construct(Substitute(c, x, a), SubstituteAll(xs, x, a))
      case Apply(op, xs) => Apply(op, SubstituteAll(xs, x, a))
  }

  function SubstituteAll(ts: seq<Term>, x: Term, a: Term): (rs: seq<Term>)
    decreases ts
    ensures |rs| == |ts|
  {
    if |ts| == 0 then [] else [Substitute(ts[0], x, a)] + SubstituteAll(ts[1..], x, a)
  }

  /** Every immediate subterm, operators included (unlike `Children`). */
  function Parts(t: Term): (ps: seq<Term>)
    ensures forall i :: 0 <= i < |ps| ==> ps[i] < t
  {
    match t
    case ApplyUf(op, xs) => [op] + xs
    case Construct(c, xs) => [c] + xs
    case _ => Children(t)
  }

  /** No subterm of `t` is one of the nodes `xs`. */
  predicate FreeOf(t: Term, xs: seq<Term>)
    decreases t
  {
    t !in xs && forall i :: 0 <= i < |Parts(t)| ==> FreeOf(Parts(t)[i], xs)
  }

  /** Simultaneous substitution of `vals[k]` for `xs[k]` (the first matching
      `k` wins), as a substitution map built from distinct formals applies. */
  function SubstituteEach(t: Term, xs: seq<Term>, vals: seq<Term>): (r: Term)
    requires |xs| <= |vals|
    decreases t
  {
    match IndexOf(xs, t)
    case Some(k) => vals[k]
    case None =>
      match t
      case Null => t
      case Var(_, _) => t
      case EvalHead(_, _) => t
      case Const(_) => t
      case BoolConst(_) => t
      case Equal(l, r) => Equal(SubstituteEach(l, xs, vals), SubstituteEach(r, xs, vals))
      case Not(b) => Not(SubstituteEach(b, xs, vals))
      case And(ys) => And(SubstituteEachAll(ys, xs, vals))
      case Or(ys) => Or(SubstituteEachAll(ys, xs, vals))
      case ApplyUf(op, ys) => ApplyUf(SubstituteEach(op, xs, vals), SubstituteEachAll(ys, xs, vals))
      case HoApply(f, b) => HoApply(SubstituteEach(f, xs, vals), SubstituteEach(b, xs, vals))
      case Lambda(ps, b) => Lambda(SubstituteEachAll(ps, xs, vals), SubstituteEach(b, xs, vals))
      case SygusEval(f, ys) => SygusEval(SubstituteEach(f, xs, vals), SubstituteEachAll(ys, xs, vals))
      case Construct(c, ys) => Construct(SubstituteEach(c, xs, vals), SubstituteEachAll(ys, xs, vals))
      case Apply(op, ys) => Apply(op, SubstituteEachAll(ys, xs, vals))
  }

  function SubstituteEachAll(ts: seq<Term>, xs: seq<Term>, vals: seq<Term>): (rs: seq<Term>)
    requires |xs| <= |vals|
    decreases ts
    ensures |rs| == |ts|
  {
    if |ts| == 0 then [] else [SubstituteEach(ts[0], xs, vals)] + SubstituteEachAll(ts[1..], xs, vals)
  }

  /** Substituting for nodes that do not occur changes nothing. */
  lemma {:induction false} SubstituteEachFreeOf(t: Term, xs: seq<Term>, vals: seq<Term>)
    requires |xs| <= |vals| && FreeOf(t, xs)
    ensures SubstituteEach(t, xs, vals) == t
    decreases t, 2
  {
    if t.Equal? || t.Not? || t.HoApply? {
      SubstituteFreeOfFixed(t, xs, vals);
    } else if t.And? || t.Or? || t.Apply? || t.Lambda? {
      SubstituteFreeOfList(t, xs, vals);
    } else if t.ApplyUf? || t.SygusEval? || t.Construct? {
      SubstituteFreeOfHeaded(t, xs, vals);
    } else {
      assert IndexOf(xs, t).None?;
    }
  }

  lemma {:induction false} SubstituteFreeOfFixed(t: Term, xs: seq<Term>, vals: seq<Term>)
    requires |xs| <= |vals| && FreeOf(t, xs)
    requires t.Equal? || t.Not? || t.HoApply?
    ensures SubstituteEach(t, xs, vals) == t
    decreases t, 1
  {
    assert IndexOf(xs, t).None?;
    var ps := Parts(t);
    assert forall i :: 0 <= i < |ps| ==> FreeOf(ps[i], xs);
    if t.Not? {
      SubstituteEachFreeOf(ps[0], xs, vals);
    } else {
      SubstituteEachFreeOf(ps[0], xs, vals);
      SubstituteEachFreeOf(ps[1], xs, vals);
    }
  }

  lemma {:induction false} SubstituteFreeOfList(t: Term, xs: seq<Term>, vals: seq<Term>)
    requires |xs| <= |vals| && FreeOf(t, xs)
    requires t.And? || t.Or? || t.Apply? || t.Lambda?
    ensures SubstituteEach(t, xs, vals) == t
    decreases t, 1
  {
    assert IndexOf(xs, t).None?;
    var ps := Parts(t);
    assert forall i :: 0 <= i < |ps| ==> FreeOf(ps[i], xs);
    match t
    case And(ys) => SubstituteEachAllFreeOf(t, ys, xs, vals);
    case Or(ys) => SubstituteEachAllFreeOf(t, ys, xs, vals);
    case Apply(_, ys) => SubstituteEachAllFreeOf(t, ys, xs, vals);
    case Lambda(qs, b) =>
      assert ps == qs + [b];
      assert forall i :: 0 <= i < |qs| ==> qs[i] == ps[i];
      SubstituteEachAllFreeOf(t, qs, xs, vals);
      assert b == ps[|qs|];
      SubstituteEachFreeOf(b, xs, vals);
  }

  lemma {:induction false} SubstituteFreeOfHeaded(t: Term, xs: seq<Term>, vals: seq<Term>)
    requires |xs| <= |vals| && FreeOf(t, xs)
    requires t.ApplyUf? || t.SygusEval? || t.Construct?
    ensures SubstituteEach(t, xs, vals) == t
    decreases t, 1
  {
    assert IndexOf(xs, t).None?;
    var ps := Parts(t);
    assert forall i :: 0 <= i < |ps| ==> FreeOf(ps[i], xs);
    var ys := ps[1..];
    assert forall i :: 0 <= i < |ys| ==> ys[i] == ps[i + 1];
    SubstituteEachFreeOf(ps[0], xs, vals);
    SubstituteEachAllFreeOf(t, ys, xs, vals);
    match t
    case ApplyUf(op, zs) => assert ys == zs;
    case SygusEval(f, zs) => assert ys == zs;
    case Construct(c, zs) => assert ys == zs;
  }

  lemma {:induction false} SubstituteEachAllFreeOf(parent: Term, ts: seq<Term>, xs: seq<Term>, vals: seq<Term>)
    requires |xs| <= |vals|
    requires forall i :: 0 <= i < |ts| ==> ts[i] < parent && FreeOf(ts[i], xs)
    ensures SubstituteEachAll(ts, xs, vals) == ts
    decreases parent, 0, |ts|
  {
    if |ts| > 0 {
      SubstituteEachFreeOf(ts[0], xs, vals);
      SubstituteEachAllFreeOf(parent, ts[1..], xs, vals);
    }
  }

  /** The first position of `x` in `s`, if any. */
  function IndexOf<T(==)>(s: seq<T>, x: T): (r: Option<nat>)
    ensures r.Some? ==> r.value < |s| && s[r.value] == x
    ensures r.Some? ==> forall j :: 0 <= j < r.value ==> s[j] != x
    ensures r.None? ==> x !in s
  {
    if |s| == 0 then None
    else if s[0] == x then Some(0)
    else match IndexOf(s[1..], x)
      case Some(k) => Some(k + 1)
      case None => None
  }

  function Last<T>(s: seq<T>): T
    requires |s| > 0
  {
    s[|s| - 1]
  }

  predicate NoDuplicates<T(==)>(s: seq<T>) {
    forall i, j :: 0 <= i < j < |s| ==> s[i] != s[j]
  }
}
