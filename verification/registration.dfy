/** The state of `SygusUnifRl`, the unification utility of the solver, and
    its registration of the decision trees: a strategy point whose strategy
    is the recursive if-then-else `ITE(cond, e, e)` gets a decision tree
    over the values of the condition enumerator `cond`. */
module UnifRegistry {
  import opened Terms
  import opened DecisionTree
  import opened Purify

  // ---------------------------------------------------------------------
  // Strategies
  // ---------------------------------------------------------------------

  datatype Role = RoleEqual | RoleIteCondition | OtherRole(k: nat)

  /** A child enumerator of a strategy with the role it plays. */
  datatype Child = Child(e: Term, role: Role)

  /** An `EnumTypeInfoStrat`: an if-then-else strategy has a condition, a
      then and an else child; `cons` is the constructor it builds with. */
  datatype StrategyKind = IteKind(cond: Child, thenChild: Child, elseChild: Child) | OtherKind
  datatype Strategy = Strategy(cons: Term, kind: StrategyKind)

  /** The strategy the rest of the solver inferred for each candidate. */
  datatype Strategies = Strategies(
    root: Term -> Term,                          // getRootEnumerator
    strats: (Term, Term, Role) -> seq<Strategy>, // d_strats of the node of (candidate, enumerator, role)
    templated: Term -> bool)                     // the condition enumerator has a template

  /** A decision tree (`DecisionTreeInfo`) with its condition enumerator
      and the constructor of its strategy. */
  datatype Tree = Tree(condEnum: Term, strategyIndex: nat, cons: Term, dt: Dt)

  /** The state of the utility: `cands` is `d_candidates`, `unif`
      `d_unif_candidates`, `condEnums` `d_cond_enums`, `candCenums`
      `d_cand_cenums`, `cenumToStratpt` `d_cenum_to_stratpt`, `trees`
      `d_stratpt_to_dt`, `sols` `d_cand_to_sol`. */
  datatype Unif = Unif(
    cands: seq<Term>,
    unif: set<Term>,
    condEnums: seq<Term>,
    candCenums: map<Term, seq<Term>>,
    cenumToStratpt: map<Term, seq<Term>>,
    trees: map<Term, Tree>,
    heads: Heads,
    sols: map<Term, Term>)

  /** `usingUnif(f)`. */
  predicate UsingUnif(u: Unif, f: Term) {
    f in u.unif
  }

  /** `d_cand_cenums[f]`, empty when missing. */
  function CenumsOf(u: Unif, f: Term): seq<Term> {
    if f in u.candCenums then u.candCenums[f] else []
  }

  /** `d_cenum_to_stratpt[c]`, empty when missing. */
  function StratptsOf(m: map<Term, seq<Term>>, c: Term): seq<Term> {
    if c in m then m[c] else []
  }

  /** The registry is consistent: the condition enumerators are distinct and
      each belongs to at most one candidate, and a strategy point is listed
      under a condition enumerator exactly when its tree uses it. */
  ghost predicate Registry(u: Unif) {
    CenumsRegistry(u) && StratptRegistry(u.condEnums, u.cenumToStratpt, u.trees)
  }

  ghost predicate CenumsRegistry(u: Unif) {
    && NoDuplicates(u.condEnums)
    && (forall f, c :: c in CenumsOf(u, f) ==> c in u.condEnums && f in u.unif)
    && (forall f, g, c :: c in CenumsOf(u, f) && c in CenumsOf(u, g) ==> f == g)
    && (forall f :: NoDuplicates(CenumsOf(u, f)))
  }

  ghost predicate StratptRegistry(condEnums: seq<Term>, c2s: map<Term, seq<Term>>, trees: map<Term, Tree>) {
    CondEnumsKnown(condEnums, trees) && Listed(c2s, trees)
  }

  /** Every tree's condition enumerator is a known one. */
  ghost predicate CondEnumsKnown(condEnums: seq<Term>, trees: map<Term, Tree>) {
    forall e :: e in trees ==> trees[e].condEnum in condEnums
  }

  /** The strategy points listed under each condition enumerator are the
      trees that use it, each listed once. */
  ghost predicate Listed(c2s: map<Term, seq<Term>>, trees: map<Term, Tree>) {
    TreesListed(c2s, trees) && ListedTrees(c2s, trees) && StratptsDistinct(c2s)
  }

  ghost predicate TreesListed(c2s: map<Term, seq<Term>>, trees: map<Term, Tree>) {
    forall e :: e in trees ==> e in StratptsOf(c2s, trees[e].condEnum)
  }

  ghost predicate ListedTrees(c2s: map<Term, seq<Term>>, trees: map<Term, Tree>) {
    forall c, e :: e in StratptsOf(c2s, c) ==> e in trees && trees[e].condEnum == c
  }

  ghost predicate StratptsDistinct(c2s: map<Term, seq<Term>>) {
    forall c :: NoDuplicates(StratptsOf(c2s, c))
  }

  /** Registration only adds: the existing trees, the evaluation heads,
      the candidates and their solutions stay as they were. */
  ghost predicate KeepsTrees(u: Unif, u': Unif) {
    && (forall p :: p in u.trees ==> p in u'.trees && u'.trees[p] == u.trees[p])
    && u'.heads == u.heads && u'.sols == u.sols && u'.cands == u.cands
  }

  /** A freshly initialised decision tree. */
  function NewDt(templated: bool): Dt {
    Dt(Null, [], [], [], [], templated, -1, [], map[], map[], {})
  }

  /** `registerConditionalEnumerator(f, e, cond, j)`: at most one decision
      tree per strategy point; the condition enumerator is recorded for the
      candidate the first time it is seen. */
  function RegisterConditionalEnumerator(s: Strategies, u: Unif, f: Term, e: Term, cond: Term, j: nat, cons: Term)
    : (r: Unif)
    requires Registry(u)
    ensures Registry(r)
    ensures e in r.trees
    ensures e in u.trees ==> r == u
    ensures KeepsTrees(u, r)
    ensures e !in u.trees ==> r.trees[e] == Tree(cond, j, cons, NewDt(s.templated(cond))) && UsingUnif(r, f)
    ensures e !in u.trees ==> forall p :: p in r.trees <==> p in u.trees || p == e
    ensures e !in u.trees ==> r.unif == u.unif + {f}
    ensures e !in u.trees && cond !in u.condEnums ==>
              && r.condEnums == u.condEnums + [cond]
              && CenumsOf(r, f) == CenumsOf(u, f) + [cond]
              && forall g :: g != f ==> CenumsOf(r, g) == CenumsOf(u, g)
    ensures e !in u.trees && cond in u.condEnums ==> r.condEnums == u.condEnums && r.candCenums == u.candCenums
    ensures e !in u.trees ==>
              && StratptsOf(r.cenumToStratpt, cond)
                 == (if cond in u.condEnums then StratptsOf(u.cenumToStratpt, cond) else []) + [e]
              && forall c :: c != cond ==> StratptsOf(r.cenumToStratpt, c) == StratptsOf(u.cenumToStratpt, c)
  {
    if e in u.trees then u
    else
      var isNew := cond !in u.condEnums;
      var condEnums := if isNew then u.condEnums + [cond] else u.condEnums;
      var candCenums := if isNew then u.candCenums[f := CenumsOf(u, f) + [cond]] else u.candCenums;
      var c2s := if isNew then u.cenumToStratpt[cond := []] else u.cenumToStratpt;
      var r := u.(unif := u.unif + {f}, condEnums := condEnums, candCenums := candCenums,
                  trees := u.trees[e := Tree(cond, j, cons, NewDt(s.templated(cond)))],
                  cenumToStratpt := c2s[cond := StratptsOf(c2s, cond) + [e]]);
      RegisterKeepsRegistry(u, r, f, e, cond, isNew);
      r
  }

  lemma RegisterKeepsRegistry(u: Unif, r: Unif, f: Term, e: Term, cond: Term, isNew: bool)
    requires Registry(u) && e !in u.trees
    requires isNew <==> cond !in u.condEnums
    requires r.unif == u.unif + {f}
    requires r.condEnums == if isNew then u.condEnums + [cond] else u.condEnums
    requires r.candCenums == if isNew then u.candCenums[f := CenumsOf(u, f) + [cond]] else u.candCenums
    requires e in r.trees && r.trees[e].condEnum == cond
    requires forall p :: p in r.trees <==> p in u.trees || p == e
    requires forall p :: p in u.trees ==> r.trees[p] == u.trees[p]
    requires var c2s := if isNew then u.cenumToStratpt[cond := []] else u.cenumToStratpt;
             r.cenumToStratpt == c2s[cond := StratptsOf(c2s, cond) + [e]]
    ensures Registry(r)
  {
    CenumsKept(u, r, f, cond, isNew);
    StratptsKept(u.condEnums, u.cenumToStratpt, u.trees, r.condEnums, r.cenumToStratpt, r.trees, e, cond, isNew);
  }

  lemma CenumsKept(u: Unif, r: Unif, f: Term, cond: Term, isNew: bool)
    requires CenumsRegistry(u)
    requires isNew <==> cond !in u.condEnums
    requires r.unif == u.unif + {f}
    requires r.condEnums == if isNew then u.condEnums + [cond] else u.condEnums
    requires r.candCenums == if isNew then u.candCenums[f := CenumsOf(u, f) + [cond]] else u.candCenums
    ensures CenumsRegistry(r)
  {
    assert forall g :: CenumsOf(r, g) == if isNew && g == f then CenumsOf(u, f) + [cond] else CenumsOf(u, g);
    if isNew {
      assert forall g :: cond !in CenumsOf(u, g);
      AppendFresh(u.condEnums, cond);
      AppendFresh(CenumsOf(u, f), cond);
    }
  }

  lemma StratptsKept(ce: seq<Term>, c2s: map<Term, seq<Term>>, trees: map<Term, Tree>,
                     ce': seq<Term>, c2s': map<Term, seq<Term>>, trees': map<Term, Tree>,
                     e: Term, cond: Term, isNew: bool)
    requires StratptRegistry(ce, c2s, trees) && e !in trees
    requires isNew <==> cond !in ce
    requires ce' == if isNew then ce + [cond] else ce
    requires e in trees' && trees'[e].condEnum == cond
    requires forall p :: p in trees' <==> p in trees || p == e
    requires forall p :: p in trees ==> trees'[p] == trees[p]
    requires var m := if isNew then c2s[cond := []] else c2s;
             c2s' == m[cond := StratptsOf(m, cond) + [e]]
    ensures StratptRegistry(ce', c2s', trees')
  {
    forall c ensures StratptsOf(c2s', c) ==
                     if c == cond then (if isNew then [] else StratptsOf(c2s, c)) + [e]
                     else StratptsOf(c2s, c) {
    }
    forall p | p in trees ensures trees'[p].condEnum == trees[p].condEnum {
    }
    KnownKept(ce, trees, ce', trees', e, cond);
    TreesListedKept(ce, c2s, trees, c2s', trees', e, cond, isNew);
    ListedTreesKept(c2s, trees, c2s', trees', e, cond, isNew);
    StratptsDistinctKept(c2s, trees, c2s', e, cond, isNew);
  }

  lemma KnownKept(ce: seq<Term>, trees: map<Term, Tree>, ce': seq<Term>, trees': map<Term, Tree>, e: Term, cond: Term)
    requires CondEnumsKnown(ce, trees)
    requires forall c :: c in ce ==> c in ce'
    requires cond in ce'
    requires e in trees' && trees'[e].condEnum == cond
    requires forall p :: p in trees' <==> p in trees || p == e
    requires forall p :: p in trees ==> trees'[p].condEnum == trees[p].condEnum
    ensures CondEnumsKnown(ce', trees')
  {
  }

  lemma TreesListedKept(ce: seq<Term>, c2s: map<Term, seq<Term>>, trees: map<Term, Tree>,
                        c2s': map<Term, seq<Term>>, trees': map<Term, Tree>,
                        e: Term, cond: Term, isNew: bool)
    requires TreesListed(c2s, trees) && CondEnumsKnown(ce, trees)
    requires isNew ==> cond !in ce
    requires e in trees' && trees'[e].condEnum == cond
    requires forall p :: p in trees' <==> p in trees || p == e
    requires forall p :: p in trees ==> trees'[p].condEnum == trees[p].condEnum
    requires forall c :: StratptsOf(c2s', c) ==
                         if c == cond then (if isNew then [] else StratptsOf(c2s, c)) + [e]
                         else StratptsOf(c2s, c)
    ensures TreesListed(c2s', trees')
  {
    forall p | p in trees' ensures p in StratptsOf(c2s', trees'[p].condEnum) {
      if p != e {
        assert p in trees;
        if isNew {
          assert trees[p].condEnum != cond;
        }
      }
    }
  }

  lemma ListedTreesKept(c2s: map<Term, seq<Term>>, trees: map<Term, Tree>,
                        c2s': map<Term, seq<Term>>, trees': map<Term, Tree>,
                        e: Term, cond: Term, isNew: bool)
    requires ListedTrees(c2s, trees)
    requires e in trees' && trees'[e].condEnum == cond
    requires forall p :: p in trees ==> p in trees' && trees'[p].condEnum == trees[p].condEnum
    requires forall c :: StratptsOf(c2s', c) ==
                         if c == cond then (if isNew then [] else StratptsOf(c2s, c)) + [e]
                         else StratptsOf(c2s, c)
    ensures ListedTrees(c2s', trees')
  {
    forall c, p | p in StratptsOf(c2s', c) ensures p in trees' && trees'[p].condEnum == c {
      if p != e {
        assert p in StratptsOf(c2s, c);
      }
    }
  }

  lemma StratptsDistinctKept(c2s: map<Term, seq<Term>>, trees: map<Term, Tree>,
                             c2s': map<Term, seq<Term>>, e: Term, cond: Term, isNew: bool)
    requires StratptsDistinct(c2s) && ListedTrees(c2s, trees) && e !in trees
    requires forall c :: StratptsOf(c2s', c) ==
                         if c == cond then (if isNew then [] else StratptsOf(c2s, c)) + [e]
                         else StratptsOf(c2s, c)
    ensures StratptsDistinct(c2s')
  {
    forall c ensures NoDuplicates(StratptsOf(c2s', c)) {
      if c == cond {
        if isNew {
          assert StratptsOf(c2s', c) == [e];
        } else {
          assert e !in StratptsOf(c2s, cond);
          AppendFresh(StratptsOf(c2s, cond), e);
        }
      }
    }
  }

  /** Appending an element that is not there keeps a sequence free of
      repetitions. */
  lemma AppendFresh<T>(s: seq<T>, x: T)
    requires NoDuplicates(s) && x !in s
    ensures NoDuplicates(s + [x])
  {
    var t := s + [x];
    forall i, j | 0 <= i < j < |t| ensures t[i] != t[j] {
      if j == |s| {
        assert t[i] == s[i];
      }
    }
  }

  /** The strategy is the recursive if-then-else `ITE(cond, e, e)` of the
      node of `e` in role `role_equal`. */
  predicate Accepted(st: Strategy, e: Term, role: Role) {
    && role == RoleEqual && st.kind.IteKind?
    && st.kind.thenChild == Child(e, role) && st.kind.elseChild == Child(e, role)
  }

  /** The unused strategies of each enumerator (`unused_strats`). */
  function UnusedOf(m: map<Term, set<nat>>, e: Term): set<nat> {
    if e in m then m[e] else {}
  }

  /** Some strategy from index `j` on is accepted. */
  ghost predicate AnyAccepted(strats: seq<Strategy>, e: Term, role: Role, j: nat) {
    exists k :: j <= k < |strats| && Accepted(strats[k], e, role)
  }

  /** The indices from `j` on of the strategies that are not accepted. */
  ghost function Rejected(strats: seq<Strategy>, e: Term, role: Role, j: nat): set<nat> {
    set k: nat | j <= k < |strats| && !Accepted(strats[k], e, role)
  }

  lemma AcceptedFrom(strats: seq<Strategy>, e: Term, role: Role, j: nat)
    requires j < |strats|
    ensures AnyAccepted(strats, e, role, j) <==> Accepted(strats[j], e, role) || AnyAccepted(strats, e, role, j + 1)
    ensures Rejected(strats, e, role, j) ==
            Rejected(strats, e, role, j + 1) + (if Accepted(strats[j], e, role) then {} else {j})
  {
    if AnyAccepted(strats, e, role, j) && !Accepted(strats[j], e, role) {
      var k :| j <= k < |strats| && Accepted(strats[k], e, role);
      assert j + 1 <= k;
    }
  }

  datatype Registration = Registration(u: Unif, visited: set<(Term, Role)>, enums: seq<Term>, unused: map<Term, set<nat>>)

  /** The loop of `registerStrategyNode` over the strategies `strats` of
      the node of `e`, from index `j` on. */
  function RegisterStrategies(s: Strategies, g: Registration, f: Term, e: Term, role: Role,
                              strats: seq<Strategy>, j: nat): (r: Registration)
    requires Registry(g.u) && j <= |strats|
    ensures Registry(r.u) && r.visited == g.visited
    ensures KeepsTrees(g.u, r.u)
    ensures g.enums <= r.enums && forall x :: x in r.enums[|g.enums|..] ==> x == e
    ensures AnyAccepted(strats, e, role, j) <==> |r.enums| > |g.enums|
    ensures AnyAccepted(strats, e, role, j) ==> e in r.u.trees
    ensures UnusedOf(r.unused, e) == UnusedOf(g.unused, e) + Rejected(strats, e, role, j)
    ensures forall p :: p != e ==> UnusedOf(r.unused, p) == UnusedOf(g.unused, p)
    decreases |strats| - j, 1
  {
    if j == |strats| then
      assert Rejected(strats, e, role, j) == {};
      g
    else if Accepted(strats[j], e, role) then RegisterAccepted(s, g, f, e, role, strats, j)
    else RegisterRejected(s, g, f, e, role, strats, j)
  }

  /** An accepted strategy: its condition enumerator gets the decision tree
      of `e`, and `e` is pushed on the enumerators. */
  function RegisterAccepted(s: Strategies, g: Registration, f: Term, e: Term, role: Role,
                            strats: seq<Strategy>, j: nat): (r: Registration)
    requires Registry(g.u) && j < |strats| && Accepted(strats[j], e, role)
    ensures Registry(r.u) && r.visited == g.visited
    ensures KeepsTrees(g.u, r.u)
    ensures g.enums <= r.enums && forall x :: x in r.enums[|g.enums|..] ==> x == e
    ensures AnyAccepted(strats, e, role, j) <==> |r.enums| > |g.enums|
    ensures AnyAccepted(strats, e, role, j) ==> e in r.u.trees
    ensures UnusedOf(r.unused, e) == UnusedOf(g.unused, e) + Rejected(strats, e, role, j)
    ensures forall p :: p != e ==> UnusedOf(r.unused, p) == UnusedOf(g.unused, p)
    decreases |strats| - j, 0
  {
    AcceptedFrom(strats, e, role, j);
    var st := strats[j];
    var g1 := g.(u := RegisterConditionalEnumerator(s, g.u, f, e, st.kind.cond.e, j, st.cons),
                 enums := g.enums + [e]);
    var r := RegisterStrategies(s, g1, f, e, role, strats, j + 1);
    EnumsGrow(g.enums, g1.enums, r.enums, e);
    r
  }

  /** Any other strategy becomes an unused strategy of `e`. */
  function RegisterRejected(s: Strategies, g: Registration, f: Term, e: Term, role: Role,
                            strats: seq<Strategy>, j: nat): (r: Registration)
    requires Registry(g.u) && j < |strats| && !Accepted(strats[j], e, role)
    ensures Registry(r.u) && r.visited == g.visited
    ensures KeepsTrees(g.u, r.u)
    ensures g.enums <= r.enums && forall x :: x in r.enums[|g.enums|..] ==> x == e
    ensures AnyAccepted(strats, e, role, j) <==> |r.enums| > |g.enums|
    ensures AnyAccepted(strats, e, role, j) ==> e in r.u.trees
    ensures UnusedOf(r.unused, e) == UnusedOf(g.unused, e) + Rejected(strats, e, role, j)
    ensures forall p :: p != e ==> UnusedOf(r.unused, p) == UnusedOf(g.unused, p)
    decreases |strats| - j, 0
  {
    AcceptedFrom(strats, e, role, j);
    RegisterStrategies(s, g.(unused := g.unused[e := UnusedOf(g.unused, e) + {j}]), f, e, role, strats, j + 1)
  }

  lemma EnumsGrow(a: seq<Term>, b: seq<Term>, c: seq<Term>, e: Term)
    requires b == a + [e] && b <= c && forall x :: x in c[|b|..] ==> x == e
    ensures a <= c && |c| > |a| && forall x :: x in c[|a|..] ==> x == e
  {
    assert c[|a|..] == [e] + c[|b|..];
  }

  /** `registerStrategyNode(f, e, role)`: each (enumerator, role) pair is
      processed once; an accepted strategy gets a decision tree and puts `e`
      among the enumerators, any other goes to the unused strategies. */
  function RegisterStrategyNode(s: Strategies, g: Registration, f: Term, e: Term, role: Role): (r: Registration)
    requires Registry(g.u)
    ensures Registry(r.u)
    ensures (e, role) in g.visited ==> r == g
    ensures (e, role) !in g.visited ==> r.visited == g.visited + {(e, role)}
    ensures KeepsTrees(g.u, r.u)
    ensures g.enums <= r.enums && forall x :: x in r.enums[|g.enums|..] ==> x == e
    ensures (e, role) !in g.visited ==>
              var strats := s.strats(f, e, role);
              && UnusedOf(r.unused, e) == UnusedOf(g.unused, e) + Rejected(strats, e, role, 0)
              && (AnyAccepted(strats, e, role, 0) <==> e in r.enums[|g.enums|..])
              && (AnyAccepted(strats, e, role, 0) ==> e in r.u.trees)
  {
    if (e, role) in g.visited then g
    else
      var strats := s.strats(f, e, role);
      var r := RegisterStrategies(s, g.(visited := g.visited + {(e, role)}), f, e, role, strats, 0);
      assert |r.enums| > |g.enums| ==> r.enums[|g.enums|] in r.enums[|g.enums|..];
      r
  }

  /** `registerStrategy(f)`: registers the root enumerator of the candidate
      in role `role_equal`, with nothing visited yet. */
  function RegisterStrategy(s: Strategies, u: Unif, f: Term, enums: seq<Term>, unused: map<Term, set<nat>>)
    : (r: Registration)
    requires Registry(u)
    ensures Registry(r.u)
    ensures r.visited == {(s.root(f), RoleEqual)}
    ensures KeepsTrees(u, r.u)
    ensures enums <= r.enums
    ensures var strats := s.strats(f, s.root(f), RoleEqual);
            && UnusedOf(r.unused, s.root(f)) == UnusedOf(unused, s.root(f)) + Rejected(strats, s.root(f), RoleEqual, 0)
            && (AnyAccepted(strats, s.root(f), RoleEqual, 0) <==> s.root(f) in r.enums[|enums|..])
            && (AnyAccepted(strats, s.root(f), RoleEqual, 0) ==> s.root(f) in r.u.trees)
  {
    RegisterStrategyNode(s, Registration(u, {}, enums, unused), f, s.root(f), RoleEqual)
  }
}
