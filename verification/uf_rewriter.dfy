/** The rewriter of the theory of uninterpreted functions: equality
    simplification and orientation, beta reduction of applied lambdas, and
    the conversions between uncurried (APPLY_UF) and curried (HO_APPLY)
    applications. */
module UfRewriter {
  import opened Terms

  /** How the rewriter driver must continue with the returned node. */
  datatype Status = Done | AgainFull

  datatype Response = Response(status: Status, node: Term)

  /** An interpretation of terms as values, under which an equality holds
      when both sides denote the same value and a boolean constant denotes
      itself. */
  predicate Holds(val: Term -> nat, t: Term) {
    match t
    case BoolConst(b) => b
    case Equal(a, b) => val(a) == val(b)
    case _ => false
  }

  /** Uninterpreted constants are pairwise distinct: an interpretation
      respecting this gives distinct constants distinct values. */
  ghost predicate DistinctConstants(val: Term -> nat) {
    forall c, d :: IsConst(c) && IsConst(d) && c != d ==> val(c) != val(d)
  }

  /** The EQUAL case shared by both rewrite passes: syntactically equal
      sides give `true`, two distinct constants give `false`. */
  function SimplifyEqual(lhs: Term, rhs: Term): (r: Option<Term>)
    ensures r.Some? <==> lhs == rhs || (IsConst(lhs) && IsConst(rhs))
    ensures r.Some? ==> r.value == BoolConst(lhs == rhs)
  {
    if lhs == rhs then Some(BoolConst(true))
    else if IsConst(lhs) && IsConst(rhs) then Some(BoolConst(false))
    else None
  }

  /** The formals of an applied lambda are bound to the rewritten arguments. */
  predicate LambdaArityOk(node: Term) {
    node.ApplyUf? && node.op.Lambda? ==> |node.op.params| <= |node.args|
  }

  /** Rewritten arguments bound to the lambda's formals, in order. */
  function RewrittenArgs(rewrite: Term -> Term, params: seq<Term>, args: seq<Term>): (r: seq<Term>)
    requires |params| <= |args|
    ensures |r| == |params|
    ensures forall i :: 0 <= i < |params| ==> r[i] == rewrite(args[i])
  {
    seq(|params|, i requires 0 <= i < |params| => rewrite(args[i]))
  }

  /** One step of HO_APPLY(LAMBDA(x1..xn, body), a): body[x1 := a], still
      abstracted over x2..xn when n > 1. */
  function BetaStep(lam: Term, arg: Term): (r: Term)
    requires lam.Lambda? && |lam.params| > 0
    ensures |lam.params| > 1 ==> r.Lambda? && r.params == lam.params[1..]
    ensures |lam.params| > 1 ==> r.body == Substitute(lam.body, lam.params[0], arg)
    ensures |lam.params| == 1 ==> r == Substitute(lam.body, lam.params[0], arg)
  {
    var newBody := Substitute(lam.body, lam.params[0], arg);
    if |lam.params| > 1 then Lambda(lam.params[1..], newBody) else newBody
  }

  /** `postRewrite`. `id` is the node identifier order used to orient
      equalities, `rewrite` the full rewriter applied to arguments, `ufHo`
      the higher-order option. */
  function PostRewrite(node: Term, id: Term -> nat, rewrite: Term -> Term, ufHo: bool): (r: Response)
    requires LambdaArityOk(node)
    requires node.HoApply? && node.fn.Lambda? ==> |node.fn.params| > 0
    ensures node.Equal? && node.lhs == node.rhs ==> r == Response(Done, BoolConst(true))
    ensures (node.Equal? && node.lhs != node.rhs && IsConst(node.lhs) && IsConst(node.rhs))
            ==> r == Response(Done, BoolConst(false))
    ensures node.Equal? && r.node.Equal? ==> id(r.node.lhs) <= id(r.node.rhs)
    ensures node.Equal? && r.node.Equal? ==> {r.node.lhs, r.node.rhs} == {node.lhs, node.rhs}
    ensures node.HoApply? && node.fn.Lambda? ==> r == Response(AgainFull, BetaStep(node.fn, rewrite(node.arg)))
    ensures node.ApplyUf? && !node.op.Lambda? && ufHo && !node.op.HoApply? ==>
              r.status == AgainFull && DecomposeHoApply(r.node, false) == Decomposed(node.op, node.args)
    ensures node.ApplyUf? && !node.op.Lambda? && !ufHo ==> r == Response(Done, node)
    ensures !node.Equal? && !node.ApplyUf? && !(node.HoApply? && node.fn.Lambda?) ==> r == Response(Done, node)
  {
    match node
    case Equal(lhs, rhs) =>
      (match SimplifyEqual(lhs, rhs)
       case Some(b) => Response(Done, b)
       case None =>
         if id(lhs) > id(rhs) then Response(Done, Equal(rhs, lhs)) else Response(Done, node))
    case ApplyUf(op, args) =>
      if op.Lambda? then
        Response(AgainFull, SubstituteEach(op.body, op.params, RewrittenArgs(rewrite, op.params, args)))
      else if ufHo then
        (if !op.HoApply? then CurryDecomposeRoundTrip(node); Response(AgainFull, GetHoApplyForApplyUf(node))
         else Response(AgainFull, GetHoApplyForApplyUf(node)))
      else
        Response(Done, node)
    case HoApply(fn, arg) =>
      if fn.Lambda? then Response(AgainFull, BetaStep(fn, rewrite(arg))) else Response(Done, node)
    case _ => Response(Done, node)
  }

  /** `preRewrite`: the same EQUAL simplification without orientation, and
      full beta reduction of an applied lambda. */
  function PreRewrite(node: Term, rewrite: Term -> Term): (r: Response)
    requires LambdaArityOk(node)
    ensures r.status == Done
    ensures node.Equal? && node.lhs == node.rhs ==> r.node == BoolConst(true)
    ensures (node.Equal? && node.lhs != node.rhs && IsConst(node.lhs) && IsConst(node.rhs))
            ==> r.node == BoolConst(false)
    ensures (node.Equal? && !(node.lhs == node.rhs || (IsConst(node.lhs) && IsConst(node.rhs))))
            ==> r.node == node
    ensures node.ApplyUf? && node.op.Lambda? && node.op.body in node.op.params ==>
              r.node == rewrite(node.args[IndexOf(node.op.params, node.op.body).value])
    ensures !node.Equal? && !(node.ApplyUf? && node.op.Lambda?) ==> r.node == node
  {
    match node
    case Equal(lhs, rhs) =>
      (match SimplifyEqual(lhs, rhs)
       case Some(b) => Response(Done, b)
       case None => Response(Done, node))
    case ApplyUf(op, args) =>
      if op.Lambda? then
        Response(Done, SubstituteEach(op.body, op.params, RewrittenArgs(rewrite, op.params, args)))
      else Response(Done, node)
    case _ => Response(Done, node)
  }

  /** Both passes reduce an applied lambda to the same node: the
      post-rewrite asks for a full rewrite of it, the pre-rewrite does not.
      A body that mentions no formal is the result unchanged. */
  lemma PreRewriteBeta(node: Term, id: Term -> nat, rewrite: Term -> Term, ufHo: bool)
    requires node.ApplyUf? && node.op.Lambda? && LambdaArityOk(node)
    ensures PreRewrite(node, rewrite).node == PostRewrite(node, id, rewrite, ufHo).node
    ensures PostRewrite(node, id, rewrite, ufHo).status == AgainFull
    ensures FreeOf(node.op.body, node.op.params) ==> PreRewrite(node, rewrite).node == node.op.body
  {
    if FreeOf(node.op.body, node.op.params) {
      SubstituteEachFreeOf(node.op.body, node.op.params,
                           RewrittenArgs(rewrite, node.op.params, node.args));
    }
  }

  /** Rewriting an equality never changes whether it holds, for every
      interpretation that keeps distinct constants distinct. */
  lemma EqualRewriteSound(lhs: Term, rhs: Term, id: Term -> nat, rewrite: Term -> Term,
                          ufHo: bool, val: Term -> nat)
    requires DistinctConstants(val)
    ensures Holds(val, PostRewrite(Equal(lhs, rhs), id, rewrite, ufHo).node) == Holds(val, Equal(lhs, rhs))
    ensures Holds(val, PreRewrite(Equal(lhs, rhs), rewrite).node) == Holds(val, Equal(lhs, rhs))
  {
  }

  /** Rewriting an equality reaches a fixed point after one post-rewrite:
      an already oriented equality is left unchanged. */
  lemma PostRewriteEqualIdempotent(lhs: Term, rhs: Term, id: Term -> nat, rewrite: Term -> Term, ufHo: bool)
    ensures var once := PostRewrite(Equal(lhs, rhs), id, rewrite, ufHo).node;
            PostRewrite(once, id, rewrite, ufHo) == Response(Done, once)
  {
  }

  /** `getHoApplyForApplyUf` on operator and arguments: the left-nested
      chain HO_APPLY(... HO_APPLY(op, a1) ..., an). */
  function HoApplyChain(op: Term, args: seq<Term>): (r: Term)
    decreases |args|
    ensures |args| > 0 ==> r.HoApply? && r.arg == Last(args)
  {
    if |args| == 0 then op else HoApply(HoApplyChain(op, args[..|args| - 1]), Last(args))
  }

  function GetHoApplyForApplyUf(n: Term): Term
    requires n.ApplyUf?
  {
    HoApplyChain(n.op, n.args)
  }

  datatype Decomposed = Decomposed(op: Term, args: seq<Term>)

  /** `decomposeHoApply`: strips the HO_APPLY spine, returning the innermost
      operator and the arguments in application order; with `opInArgs` the
      operator is also element 0 of the argument list. */
  function DecomposeHoApply(n: Term, opInArgs: bool): (d: Decomposed)
    ensures !d.op.HoApply?
    ensures opInArgs ==> |d.args| > 0 && d.args[0] == d.op
    ensures opInArgs ==> d.args[1..] == DecomposeHoApply(n, false).args
    ensures !n.HoApply? && !opInArgs ==> d == Decomposed(n, [])
  {
    if opInArgs then
      var d := DecomposeHoApply(n, false);
      Decomposed(d.op, [d.op] + d.args)
    else if n.HoApply? then
      var d := DecomposeHoApply(n.fn, false);
      Decomposed(d.op, d.args + [n.arg])
    else
      Decomposed(n, [])
  }

  /** `isStdApplyUfOperator`: a variable that is not a bound variable. */
  predicate IsStdApplyUfOperator(n: Term) {
    IsVar(n) && !(n.Var? && n.vkind == BoundVar)
  }

  /** `getApplyUfForHoApply`: the uncurried application, or nothing (the
      null node) when the head is not a standard operator. */
  function GetApplyUfForHoApply(n: Term): (r: Option<Term>)
    ensures r.Some? <==> IsStdApplyUfOperator(DecomposeHoApply(n, false).op)
    ensures r.Some? ==> r.value == ApplyUf(DecomposeHoApply(n, false).op, DecomposeHoApply(n, false).args)
  {
    var d := DecomposeHoApply(n, true);
    if IsStdApplyUfOperator(d.op) then Some(ApplyUf(d.args[0], d.args[1..])) else None
  }

  /** Decomposing a curried chain returns the operator and the arguments it
      was built from. */
  lemma {:induction false} DecomposeChain(op: Term, args: seq<Term>)
    requires !op.HoApply?
    ensures DecomposeHoApply(HoApplyChain(op, args), false) == Decomposed(op, args)
    decreases |args|
  {
    if |args| > 0 {
      DecomposeChain(op, args[..|args| - 1]);
      assert args[..|args| - 1] + [Last(args)] == args;
    }
  }

  /** Rebuilding the chain from a decomposition gives back the term. */
  lemma {:induction false} ChainOfDecompose(n: Term)
    ensures var d := DecomposeHoApply(n, false); HoApplyChain(d.op, d.args) == n
  {
    if n.HoApply? {
      ChainOfDecompose(n.fn);
      var d := DecomposeHoApply(n.fn, false);
      assert (d.args + [n.arg])[..|d.args|] == d.args;
    }
  }

  /** Round trip: currying an application of a non-curried operator and
      decomposing it yields the operator and the original arguments. */
  lemma CurryDecomposeRoundTrip(n: Term)
    requires n.ApplyUf? && !n.op.HoApply?
    ensures DecomposeHoApply(GetHoApplyForApplyUf(n), false) == Decomposed(n.op, n.args)
    ensures DecomposeHoApply(GetHoApplyForApplyUf(n), true) == Decomposed(n.op, [n.op] + n.args)
  {
    DecomposeChain(n.op, n.args);
  }

  /** Round trip: an application of a standard operator survives currying
      and uncurrying; any other operator has no uncurried form. */
  lemma CurryUncurryRoundTrip(n: Term)
    requires n.ApplyUf? && !n.op.HoApply?
    ensures IsStdApplyUfOperator(n.op) ==> GetApplyUfForHoApply(GetHoApplyForApplyUf(n)) == Some(n)
    ensures !IsStdApplyUfOperator(n.op) ==> GetApplyUfForHoApply(GetHoApplyForApplyUf(n)) == None
  {
    DecomposeChain(n.op, n.args);
  }

  /** Round trip in the other direction: uncurrying then currying a chain
      gives the chain back. */
  lemma UncurryCurryRoundTrip(n: Term)
    requires GetApplyUfForHoApply(n).Some?
    ensures GetHoApplyForApplyUf(GetApplyUfForHoApply(n).value) == n
  {
    ChainOfDecompose(n);
  }
}
