/** `SygusUnifRl` at work: a refinement lemma is purified and its new
    evaluation heads are handed to the decision trees of their candidate,
    the conditions of a tree are set, and the candidates' solutions are
    built from the trees. */
module SygusUnif {
  import opened Terms
  import opened OrderedPool
  import opened PointSeparator
  import opened DecisionTree
  import opened SolutionBuilder
  import opened Purify
  import opened UnifRegistry

  /** What the utility reads of the rest of the solver. */
  datatype Services = Services(
    evalUnfold: Term -> Term,   // evaluateWithUnfolding
    modelValue: Term -> Term,   // getModelValue
    rewrite: Term -> Term,      // Rewriter::rewrite
    id: Term -> nat)            // the node order

  function EnvOf(svc: Services, u: Unif): Env {
    Env(u.unif, u.sols, svc.evalUnfold, svc.modelValue, svc.rewrite, svc.id)
  }

  /** `m[c]` of a map of vectors, empty when missing. */
  function EntryOf(m: map<Term, seq<Term>>, c: Term): seq<Term> {
    if c in m then m[c] else []
  }

  // ---------------------------------------------------------------------
  // The purified lemma
  // ---------------------------------------------------------------------

  /** The disjunction holds: some disjunct does, or `t` itself when it is
      not a disjunction. */
  predicate OrHolds(lit: Term -> bool, t: Term) {
    if t.Or? then exists d :: d in t.disjuncts && lit(d) else lit(t)
  }

  /** The purified lemma under its model guards: `OR(guards ++ [plem])`, or
      `plem` alone when there is no guard. */
  function GuardedLemma(guards: seq<Term>, plem: Term): (r: Term)
    ensures |guards| > 0 ==> r.Or? && plem in r.disjuncts
  {
    if |guards| == 0 then plem else Or(guards + [plem])
  }

  /** The guards only weaken the lemma where some guard holds, that is in
      a model where an application differs from its current value: where
      no guard holds, the guarded lemma holds exactly when the purified
      one does (and `plem` is not itself a disjunction). */
  lemma GuardedLemmaMeaning(lit: Term -> bool, guards: seq<Term>, plem: Term)
    requires !plem.Or?
    requires forall g :: g in guards ==> !lit(g)
    ensures OrHolds(lit, GuardedLemma(guards, plem)) <==> lit(plem)
  {
    if |guards| > 0 {
      var r := GuardedLemma(guards, plem);
      assert r.disjuncts[|guards|] == plem;
      if OrHolds(lit, r) {
        var d :| d in r.disjuncts && lit(d);
        assert d !in guards;
      }
    }
  }

  /** Any guard makes the guarded lemma hold. */
  lemma GuardSuffices(lit: Term -> bool, guards: seq<Term>, plem: Term, g: Term)
    requires g in guards && lit(g)
    ensures OrHolds(lit, GuardedLemma(guards, plem))
  {
    assert g in GuardedLemma(guards, plem).disjuncts;
  }

  // ---------------------------------------------------------------------
  // Handing the new heads to the trees
  // ---------------------------------------------------------------------

  /** The heads of `c` created since `prev`: `prevn` up to the current
      size, where `prevn` is the previous size. */
  function NewHeads(prev: Heads, hs: Heads, c: Term): (r: seq<Term>)
    ensures HeadsOf(prev, c) <= HeadsOf(hs, c) ==> HeadsOf(hs, c) == HeadsOf(prev, c) + r
  {
    var n := |HeadsOf(prev, c)|;
    if n <= |HeadsOf(hs, c)| then HeadsOf(hs, c)[n..] else []
  }

  /** A tree with `extra` pushed on its points. */
  function WithHds(t: Tree, extra: seq<Term>): (r: Tree)
    ensures extra == [] ==> r == t
    ensures r.condEnum == t.condEnum && r.strategyIndex == t.strategyIndex && r.cons == t.cons
  {
    assert t.dt.hds + [] == t.dt.hds;
    t.(dt := t.dt.(hds := t.dt.hds + extra))
  }

  lemma WithHdsTwice(t: Tree, a: seq<Term>, b: seq<Term>)
    ensures WithHds(WithHds(t, a), b) == WithHds(t, a + b)
  {
    assert t.dt.hds + a + b == t.dt.hds + (a + b);
  }

  /** The trees keep their strategy points and condition enumerators. */
  ghost predicate SameTrees(trees: map<Term, Tree>, r: map<Term, Tree>) {
    && (forall p :: p in r <==> p in trees)
    && (forall p :: p in trees ==> r[p].condEnum == trees[p].condEnum)
  }

  lemma ListedKept(c2s: map<Term, seq<Term>>, trees: map<Term, Tree>, r: map<Term, Tree>)
    requires Listed(c2s, trees) && SameTrees(trees, r)
    ensures Listed(c2s, r)
  {
    TreesListedSame(c2s, trees, r);
    ListedTreesSame(c2s, trees, r);
  }

  lemma TreesListedSame(c2s: map<Term, seq<Term>>, trees: map<Term, Tree>, r: map<Term, Tree>)
    requires TreesListed(c2s, trees) && SameTrees(trees, r)
    ensures TreesListed(c2s, r)
  {
    forall e | e in r ensures e in StratptsOf(c2s, r[e].condEnum) {
      assert e in trees;
    }
  }

  lemma ListedTreesSame(c2s: map<Term, seq<Term>>, trees: map<Term, Tree>, r: map<Term, Tree>)
    requires ListedTrees(c2s, trees) && SameTrees(trees, r)
    ensures ListedTrees(c2s, r)
  {
    forall c, e | e in StratptsOf(c2s, c) ensures e in r && r[e].condEnum == c {
      assert e in trees;
    }
  }

  lemma NoDuplicatesTail<T>(s: seq<T>)
    requires NoDuplicates(s) && |s| > 0
    ensures NoDuplicates(s[1..]) && s[0] !in s[1..]
  {
    forall k | 0 <= k < |s| - 1 ensures s[1..][k] != s[0] {
      assert s[1..][k] == s[k + 1];
    }
  }

  /** The innermost loop: `h` is pushed on the tree of each strategy point
      of `sps`. */
  function PushPoint(trees: map<Term, Tree>, sps: seq<Term>, h: Term): (r: map<Term, Tree>)
    requires NoDuplicates(sps)
    ensures SameTrees(trees, r)
    ensures forall p :: p in trees ==> r[p] == WithHds(trees[p], if p in sps then [h] else [])
    decreases |sps|
  {
    if |sps| == 0 then trees
    else
      NoDuplicatesTail(sps);
      var t1 := if sps[0] in trees then trees[sps[0] := WithHds(trees[sps[0]], [h])] else trees;
      assert forall p :: p in sps <==> p == sps[0] || p in sps[1..];
      PushPoint(t1, sps[1..], h)
  }

  /** The loop over the condition enumerators `cenums`: the trees of the
      strategy points listed under them receive `h`. */
  function PushToCenums(c2s: map<Term, seq<Term>>, trees: map<Term, Tree>, cenums: seq<Term>, h: Term)
    : (r: map<Term, Tree>)
    requires Listed(c2s, trees) && NoDuplicates(cenums)
    ensures SameTrees(trees, r)
    ensures forall p :: p in trees ==> r[p] == WithHds(trees[p], if trees[p].condEnum in cenums then [h] else [])
    decreases |cenums|
  {
    if |cenums| == 0 then trees
    else
      NoDuplicatesTail(cenums);
      var t1 := PushPoint(trees, StratptsOf(c2s, cenums[0]), h);
      ListedKept(c2s, trees, t1);
      var r := PushToCenums(c2s, t1, cenums[1..], h);
      CenumsStep(c2s, trees, t1, r, cenums, h);
      r
  }

  lemma CenumsStep(c2s: map<Term, seq<Term>>, trees: map<Term, Tree>, t1: map<Term, Tree>, r: map<Term, Tree>,
                   cenums: seq<Term>, h: Term)
    requires Listed(c2s, trees) && |cenums| > 0 && cenums[0] !in cenums[1..]
    requires SameTrees(trees, t1)
    requires forall p :: p in trees ==> t1[p] == WithHds(trees[p], if p in StratptsOf(c2s, cenums[0]) then [h] else [])
    requires SameTrees(t1, r)
    requires forall p :: p in t1 ==> r[p] == WithHds(t1[p], if t1[p].condEnum in cenums[1..] then [h] else [])
    ensures SameTrees(trees, r)
    ensures forall p :: p in trees ==> r[p] == WithHds(trees[p], if trees[p].condEnum in cenums then [h] else [])
  {
    forall p | p in trees
      ensures r[p] == WithHds(trees[p], if trees[p].condEnum in cenums then [h] else [])
    {
      assert p in StratptsOf(c2s, cenums[0]) <==> trees[p].condEnum == cenums[0];
      assert trees[p].condEnum in cenums <==> trees[p].condEnum == cenums[0] || trees[p].condEnum in cenums[1..];
    }
  }

  /** The loop over the new heads `hs` of a candidate, in order. */
  function PushHeads(c2s: map<Term, seq<Term>>, trees: map<Term, Tree>, cenums: seq<Term>, hs: seq<Term>)
    : (r: map<Term, Tree>)
    requires Listed(c2s, trees) && NoDuplicates(cenums)
    ensures SameTrees(trees, r)
    ensures forall p :: p in trees ==> r[p] == WithHds(trees[p], if trees[p].condEnum in cenums then hs else [])
    decreases |hs|
  {
    if |hs| == 0 then trees
    else
      var t1 := PushToCenums(c2s, trees, cenums, hs[0]);
      ListedKept(c2s, trees, t1);
      var r := PushHeads(c2s, t1, cenums, hs[1..]);
      assert [hs[0]] + hs[1..] == hs;
      forall p | p in trees && trees[p].condEnum in cenums ensures r[p] == WithHds(trees[p], hs) {
        WithHdsTwice(trees[p], [hs[0]], hs[1..]);
      }
      r
  }

  /** Each condition enumerator belongs to at most one candidate, and each
      candidate lists its own once. */
  ghost predicate Owned(u: Unif) {
    && (forall f, g, c :: c in CenumsOf(u, f) && c in CenumsOf(u, g) ==> f == g)
    && (forall f :: NoDuplicates(CenumsOf(u, f)))
  }

  /** No candidate owns the condition enumerator `c`. */
  ghost predicate Unowned(u: Unif, c: Term) {
    forall f :: c !in CenumsOf(u, f)
  }

  /** The loop of `addRefLemma` over the candidates with heads, in node
      order: the new heads of each go to the trees of its condition
      enumerators. A tree receives the new heads of the candidate owning its
      condition enumerator, and nothing when no candidate owns it. */
  function PushNewHeads(u: Unif, prev: Heads, hs: Heads, trees: map<Term, Tree>, keys: seq<Term>)
    : (r: map<Term, Tree>)
    requires Listed(u.cenumToStratpt, trees) && Owned(u) && NoDuplicates(keys)
    ensures SameTrees(trees, r)
    decreases |keys|
  {
    if |keys| == 0 then trees
    else
      NoDuplicatesTail(keys);
      var c := keys[0];
      var t1 := PushHeads(u.cenumToStratpt, trees, CenumsOf(u, c), NewHeads(prev, hs, c));
      ListedKept(u.cenumToStratpt, trees, t1);
      PushNewHeads(u, prev, hs, t1, keys[1..])
  }

  /** `r` is `trees` after handing out the new heads of the candidates in
      `keys`: a tree receives the new heads of the candidate owning its
      condition enumerator, if that candidate is among `keys`, and nothing
      when no candidate owns it. */
  ghost predicate HeadsPushed(u: Unif, prev: Heads, hs: Heads, trees: map<Term, Tree>, r: map<Term, Tree>, keys: seq<Term>) {
    && SameTrees(trees, r)
    && (forall p, f :: p in trees && trees[p].condEnum in CenumsOf(u, f) ==>
                         r[p] == WithHds(trees[p], if f in keys then NewHeads(prev, hs, f) else []))
    && (forall p :: p in trees && Unowned(u, trees[p].condEnum) ==> r[p] == trees[p])
  }

  lemma {:induction false} NewHeadsPushed(u: Unif, prev: Heads, hs: Heads, trees: map<Term, Tree>, keys: seq<Term>)
    requires Listed(u.cenumToStratpt, trees) && Owned(u) && NoDuplicates(keys)
    ensures HeadsPushed(u, prev, hs, trees, PushNewHeads(u, prev, hs, trees, keys), keys)
    decreases |keys|
  {
    if |keys| == 0 {
      NothingPushed(u, prev, hs, trees);
    } else {
      NoDuplicatesTail(keys);
      var c := keys[0];
      var t1 := PushHeads(u.cenumToStratpt, trees, CenumsOf(u, c), NewHeads(prev, hs, c));
      ListedKept(u.cenumToStratpt, trees, t1);
      NewHeadsPushed(u, prev, hs, t1, keys[1..]);
      NewHeadsStep(u, prev, hs, trees, t1, PushNewHeads(u, prev, hs, t1, keys[1..]), keys);
    }
  }

  lemma NothingPushed(u: Unif, prev: Heads, hs: Heads, trees: map<Term, Tree>)
    ensures HeadsPushed(u, prev, hs, trees, trees, [])
  {
  }

  lemma NewHeadsStep(u: Unif, prev: Heads, hs: Heads, trees: map<Term, Tree>, t1: map<Term, Tree>, r: map<Term, Tree>,
                     keys: seq<Term>)
    requires Owned(u) && |keys| > 0 && keys[0] !in keys[1..]
    requires SameTrees(trees, t1)
    requires forall p :: p in trees ==>
               t1[p] == WithHds(trees[p], if trees[p].condEnum in CenumsOf(u, keys[0]) then NewHeads(prev, hs, keys[0]) else [])
    requires HeadsPushed(u, prev, hs, t1, r, keys[1..])
    ensures HeadsPushed(u, prev, hs, trees, r, keys)
  {
    forall p, f | p in trees && trees[p].condEnum in CenumsOf(u, f)
      ensures r[p] == WithHds(trees[p], if f in keys then NewHeads(prev, hs, f) else [])
    {
      assert f in keys <==> f == keys[0] || f in keys[1..];
      if f != keys[0] {
        assert trees[p].condEnum !in CenumsOf(u, keys[0]);
      }
    }
  }

  /** The loop of `addRefLemma` that hands the new heads of each candidate
      to the caller's `eval_hds`: an entry is created only for a candidate
      with new heads. */
  function AppendNewHeads(m: map<Term, seq<Term>>, prev: Heads, hs: Heads, keys: seq<Term>)
    : (r: map<Term, seq<Term>>)
    requires NoDuplicates(keys)
    ensures forall c :: c in r <==> c in m || (c in keys && |NewHeads(prev, hs, c)| > 0)
    ensures forall c :: EntryOf(r, c) == EntryOf(m, c) + (if c in keys then NewHeads(prev, hs, c) else [])
    decreases |keys|
  {
    if |keys| == 0 then m
    else
      NoDuplicatesTail(keys);
      var c := keys[0];
      var nh := NewHeads(prev, hs, c);
      assert EntryOf(m, c) + [] == EntryOf(m, c);
      var m1 := if |nh| > 0 then m[c := EntryOf(m, c) + nh] else m;
      assert forall f :: f in keys <==> f == c || f in keys[1..];
      AppendNewHeads(m1, prev, hs, keys[1..])
  }

  /** The result of `addRefLemma`: the lemma to send, the purified lemma
      and model guards it is made of, the caller's `eval_hds`, and the new
      state. */
  datatype RefLemma = RefLemma(sent: Term, plem: Term, guards: seq<Term>, evalHds: map<Term, seq<Term>>, u: Unif)

  /** `addRefLemma(lemma, eval_hds)`. `None` is the failed hard assertion
      of purification. */
  function AddRefLemma(svc: Services, u: Unif, lem: Term, evalHds: map<Term, seq<Term>>): (r: Option<RefLemma>)
    requires WellFormed(svc.id, u.heads) && Registry(u)
    ensures r.None? <==> PurifyLemma(EnvOf(svc, u), lem, false, PState(u.heads, map[], [])).None?
    ensures r.Some? ==>
              && WellFormed(svc.id, r.value.u.heads) && Grows(u.heads, r.value.u.heads)
              && Registry(r.value.u) && SameTrees(u.trees, r.value.u.trees)
              && r.value.u == u.(heads := r.value.u.heads, trees := r.value.u.trees)
              && r.value.sent == svc.rewrite(GuardedLemma(r.value.guards, r.value.plem))
    ensures r.Some? ==>
              var p := PurifyLemma(EnvOf(svc, u), lem, false, PState(u.heads, map[], [])).value;
              && r.value.plem == p.t && r.value.guards == p.st.guards && r.value.u.heads == p.st.heads
  {
    match PurifyLemma(EnvOf(svc, u), lem, false, PState(u.heads, map[], []))
    case None => None
    case Some(p) =>
      var hs := p.st.heads;
      NoNewHeadsWithoutKey(svc.id, u.heads, hs);
      var trees := PushNewHeads(u, u.heads, hs, u.trees, hs.keys);
      var u' := u.(heads := hs, trees := trees);
      RegistryKept(u, u');
      Some(RefLemma(svc.rewrite(GuardedLemma(p.st.guards, p.t)), p.t, p.st.guards,
                    AppendNewHeads(evalHds, u.heads, hs, hs.keys), u'))
  }

  /** `addRefLemma` hands out exactly the heads created by purification:
      each candidate's new heads are appended to its entry of `eval_hds`
      and to the points of every tree whose condition enumerator it owns;
      a tree whose condition enumerator no candidate owns is unchanged. */
  lemma AddRefLemmaHandsOut(svc: Services, u: Unif, lem: Term, evalHds: map<Term, seq<Term>>)
    requires WellFormed(svc.id, u.heads) && Registry(u)
    ensures var r := AddRefLemma(svc, u, lem, evalHds);
            r.Some? ==>
              && (forall c :: EntryOf(r.value.evalHds, c) == EntryOf(evalHds, c) + NewHeads(u.heads, r.value.u.heads, c))
              && HeadsPushed(u, u.heads, r.value.u.heads, u.trees, r.value.u.trees, r.value.u.heads.keys)
  {
    AddRefLemmaEntries(svc, u, lem, evalHds);
    AddRefLemmaPushes(svc, u, lem, evalHds);
  }

  lemma AddRefLemmaEntries(svc: Services, u: Unif, lem: Term, evalHds: map<Term, seq<Term>>)
    requires WellFormed(svc.id, u.heads) && Registry(u)
    ensures var r := AddRefLemma(svc, u, lem, evalHds);
            r.Some? ==>
              forall c :: EntryOf(r.value.evalHds, c) == EntryOf(evalHds, c) + NewHeads(u.heads, r.value.u.heads, c)
  {
    var r := AddRefLemma(svc, u, lem, evalHds);
    if r.Some? {
      NoNewHeadsWithoutKey(svc.id, u.heads, r.value.u.heads);
    }
  }

  lemma AddRefLemmaPushes(svc: Services, u: Unif, lem: Term, evalHds: map<Term, seq<Term>>)
    requires WellFormed(svc.id, u.heads) && Registry(u)
    ensures var r := AddRefLemma(svc, u, lem, evalHds);
            r.Some? ==> HeadsPushed(u, u.heads, r.value.u.heads, u.trees, r.value.u.trees, r.value.u.heads.keys)
  {
    var r := AddRefLemma(svc, u, lem, evalHds);
    if r.Some? {
      var hs := r.value.u.heads;
      NoNewHeadsWithoutKey(svc.id, u.heads, hs);
      NewHeadsPushed(u, u.heads, hs, u.trees, hs.keys);
    }
  }

  /** A candidate outside the keys has no heads, hence no new ones. */
  lemma NoNewHeadsWithoutKey(id: Term -> nat, prev: Heads, hs: Heads)
    requires WellFormed(id, hs)
    ensures NoDuplicates(hs.keys)
    ensures forall c :: c !in hs.keys ==> NewHeads(prev, hs, c) == []
  {
  }

  lemma RegistryKept(u: Unif, u': Unif)
    requires Registry(u) && u' == u.(heads := u'.heads, trees := u'.trees)
    requires SameTrees(u.trees, u'.trees)
    ensures Registry(u')
  {
    CenumsSame(u, u');
    ListedKept(u.cenumToStratpt, u.trees, u'.trees);
    KnownSame(u.condEnums, u.trees, u'.trees);
    assert u'.cenumToStratpt == u.cenumToStratpt && u'.condEnums == u.condEnums;
    assert StratptRegistry(u'.condEnums, u'.cenumToStratpt, u'.trees);
  }

  lemma CenumsSame(u: Unif, u': Unif)
    requires CenumsRegistry(u)
    requires u'.condEnums == u.condEnums && u'.candCenums == u.candCenums && u'.unif == u.unif
    ensures CenumsRegistry(u')
  {
    forall f ensures CenumsOf(u', f) == CenumsOf(u, f) {
    }
    forall f, c | c in CenumsOf(u', f) ensures c in u'.condEnums && f in u'.unif {
      assert c in CenumsOf(u, f);
    }
    forall f, g, c | c in CenumsOf(u', f) && c in CenumsOf(u', g) ensures f == g {
      assert c in CenumsOf(u, f) && c in CenumsOf(u, g);
    }
  }

  lemma KnownSame(ce: seq<Term>, trees: map<Term, Tree>, r: map<Term, Tree>)
    requires CondEnumsKnown(ce, trees) && SameTrees(trees, r)
    ensures CondEnumsKnown(ce, r)
  {
    forall e | e in r ensures r[e].condEnum in ce {
      assert e in trees;
    }
  }

  /** The points of each tree are heads of the candidate owning its
      condition enumerator, without repetitions. */
  ghost predicate HdsOwned(u: Unif) {
    HdsOwnedBy(u, u.heads, u.trees)
  }

  ghost predicate HdsOwnedBy(u: Unif, heads: Heads, trees: map<Term, Tree>) {
    && (forall p, f :: p in trees && trees[p].condEnum in CenumsOf(u, f) ==>
                         forall h :: h in trees[p].dt.hds ==> h in HeadsOf(heads, f))
    && (forall p :: p in trees ==> NoDuplicates(trees[p].dt.hds))
  }

  /** The new heads are fresh, so handing them to the trees keeps every
      tree's points distinct (which building a solution relies on). */
  lemma AddRefLemmaKeepsOwned(svc: Services, u: Unif, lem: Term, evalHds: map<Term, seq<Term>>)
    requires WellFormed(svc.id, u.heads) && Registry(u) && HdsOwned(u)
    ensures var r := AddRefLemma(svc, u, lem, evalHds);
            r.Some? ==> HdsOwned(r.value.u)
  {
    var r := AddRefLemma(svc, u, lem, evalHds);
    if r.Some? {
      var u' := r.value.u;
      AddRefLemmaHandsOut(svc, u, lem, evalHds);
      assert Numbered(u'.heads) && HeadsPrefix(u.heads, u'.heads);
      OwnedAfterPush(u, u.heads, u'.heads, u.trees, u'.trees, u'.heads.keys);
      OwnedRelabel(u, u', u'.heads, u'.trees);
    }
  }

  /** Heads are numbered from zero per candidate. */
  ghost predicate Numbered(hs: Heads) {
    forall c, i :: 0 <= i < |HeadsOf(hs, c)| ==> HeadsOf(hs, c)[i] == EvalHead(c, i)
  }

  ghost predicate HeadsPrefix(prev: Heads, hs: Heads) {
    forall c :: HeadsOf(prev, c) <= HeadsOf(hs, c)
  }

  lemma OwnedAfterPush(u: Unif, prev: Heads, hs: Heads, trees: map<Term, Tree>, r: map<Term, Tree>, keys: seq<Term>)
    requires HdsOwnedBy(u, prev, trees) && HeadsPushed(u, prev, hs, trees, r, keys)
    requires Numbered(hs) && HeadsPrefix(prev, hs)
    ensures HdsOwnedBy(u, hs, r)
  {
    forall p, f | p in r && r[p].condEnum in CenumsOf(u, f)
      ensures forall h :: h in r[p].dt.hds ==> h in HeadsOf(hs, f)
      ensures NoDuplicates(r[p].dt.hds)
    {
      assert p in trees;
      FreshHeadsAppended(prev, hs, f, trees[p].dt.hds, f in keys);
    }
    forall p | p in r ensures NoDuplicates(r[p].dt.hds) {
      assert p in trees;
      if !Unowned(u, trees[p].condEnum) {
        var f :| trees[p].condEnum in CenumsOf(u, f);
        FreshHeadsAppended(prev, hs, f, trees[p].dt.hds, f in keys);
      }
    }
  }

  lemma OwnedRelabel(u: Unif, u': Unif, hs: Heads, r: map<Term, Tree>)
    requires HdsOwnedBy(u, hs, r) && u'.candCenums == u.candCenums
    ensures HdsOwnedBy(u', hs, r)
  {
    assert forall f :: CenumsOf(u', f) == CenumsOf(u, f);
  }

  /** Points drawn from a candidate's heads, followed by its new heads (if
      it has any to hand out), are all heads of it, and distinct. */
  lemma FreshHeadsAppended(prev: Heads, hs: Heads, f: Term, hds: seq<Term>, handed: bool)
    requires Numbered(hs) && HeadsPrefix(prev, hs)
    requires NoDuplicates(hds) && forall h :: h in hds ==> h in HeadsOf(prev, f)
    ensures var s := hds + (if handed then NewHeads(prev, hs, f) else []);
            (forall h :: h in s ==> h in HeadsOf(hs, f)) && NoDuplicates(s)
  {
    var all := HeadsOf(hs, f);
    var n := |HeadsOf(prev, f)|;
    assert HeadsOf(prev, f) <= all;
    assert HeadsOf(prev, f) == all[..n];
    assert NewHeads(prev, hs, f) == all[n..];
    assert forall i :: 0 <= i < |all| ==> all[i] == EvalHead(f, i);
    NumberedSuffix(all, n, f, hds);
    if !handed {
      assert hds + [] == hds;
      assert forall h :: h in hds ==> h in hds + all[n..];
    }
  }

  lemma NumberedSuffix(all: seq<Term>, n: nat, f: Term, hds: seq<Term>)
    requires n <= |all| && forall i :: 0 <= i < |all| ==> all[i] == EvalHead(f, i)
    requires NoDuplicates(hds) && forall h :: h in hds ==> h in all[..n]
    ensures forall h :: h in hds + all[n..] ==> h in all
    ensures NoDuplicates(hds + all[n..])
  {
    var s := hds + all[n..];
    forall i, j | 0 <= i < j < |s| ensures s[i] != s[j] {
      if j >= |hds| {
        assert s[j] == all[n + (j - |hds|)];
        if i >= |hds| {
          assert s[i] == all[n + (i - |hds|)];
        } else {
          assert s[i] == hds[i] && hds[i] in hds;
          var k :| 0 <= k < n && all[..n][k] == s[i];
          assert all[k] == s[i];
        }
      }
    }
    forall h | h in s ensures h in all {
      if h in hds {
        var k :| 0 <= k < n && all[..n][k] == h;
        assert all[k] == h;
      }
    }
  }

  // ---------------------------------------------------------------------
  // Setting the conditions of a tree
  // ---------------------------------------------------------------------

  /** `setConditions(e, guard, enums, conds)`: the conditions of the tree
      of `e` are set; every other tree, and the rest of the state, is
      unchanged. The tree of `e` must exist (the source asserts it). */
  function SetTreeConditions(o: Oracles, opts: Options, u: Unif, e: Term, guard: Term,
                             enums: seq<Term>, conds: seq<Term>): (r: Unif)
    requires e in u.trees && |enums| == |conds| && Ordered(o.id, u.trees[e].dt.pool)
    ensures r == u.(trees := r.trees)
    ensures SameTrees(u.trees, r.trees)
    ensures forall p :: p in u.trees && p != e ==> r.trees[p] == u.trees[p]
    ensures var t := u.trees[e]; var t' := r.trees[e];
            && t' == t.(dt := t'.dt)
            && t'.dt.guard == guard && t'.dt.enums == enums && t'.dt.conds == conds
            && t'.dt.hds == t.dt.hds
            && (forall c :: c in t.dt.pool ==> c in t'.dt.pool)
            && (forall c :: c in t'.dt.pool ==> c in t.dt.pool || c in conds)
  {
    var t := u.trees[e];
    u.(trees := u.trees[e := t.(dt := SetConditions(o, opts, t.dt, guard, enums, conds))])
  }

  // ---------------------------------------------------------------------
  // Building the solutions
  // ---------------------------------------------------------------------

  /** `v` is a value of the root enumerator `e` of candidate `f` that fits
      the heads of the tree of `e`: with no heads at all, the model value of
      `e`; otherwise a term that, at every point, evaluates as some value
      that is equivalent at that point to the model value of the head. */
  ghost predicate SolFor(orc: Term -> Oracles, svc: Services, heads: Heads, trees: map<Term, Tree>,
                         f: Term, e: Term, v: Term) {
    && e in trees
    && (HeadsOf(heads, f) == [] ==> v == svc.modelValue(e))
    && (HeadsOf(heads, f) != [] ==>
          forall h :: h in trees[e].dt.hds ==> Fits(orc(e), trees[e].cons, v, h))
  }

  ghost predicate Fits(o: Oracles, cons: Term, v: Term, h: Term) {
    exists m :: o.evalAt(m, h) == o.evalAt(o.modelValue(h), h) && Interp(o.eval, cons, v, h) == Interp(o.eval, cons, m, h)
  }

  /** The tree of every root enumerator is ready to build a solution. */
  ghost predicate TreesReady(orc: Term -> Oracles, opts: Options, trees: map<Term, Tree>) {
    forall e :: e in trees ==> Ready(orc(e), opts, trees[e].dt)
  }

  /** The trees keep their points and constructors; only the conditions and
      the pools of values they build with change. */
  ghost predicate KeepsHds(trees: map<Term, Tree>, r: map<Term, Tree>) {
    forall p :: p in trees ==> p in r && r[p].dt.hds == trees[p].dt.hds && r[p].cons == trees[p].cons
  }

  /** `constructSol(f, e, role_equal, 0, lemmas)`: no solution when `e` has
      no decision tree; the model value of `e` when `f` has no heads;
      otherwise the solution the tree builds, if any. Only the tree of `e`
      changes. When the conditions are not independent and the heuristic is
      off, a tree that fails to build a solution has sent a separation lemma
      (the source asserts this). */
  method ConstructSol(orc: Term -> Oracles, opts: Options, svc: Services, u: Unif, f: Term, e: Term, lemmas: seq<Term>)
    returns (v: Option<Term>, u': Unif, lemmas': seq<Term>)
    requires e in u.trees ==> Ready(orc(e), opts, u.trees[e].dt)
    ensures u' == u.(trees := u'.trees)
    ensures SameTrees(u.trees, u'.trees) && KeepsHds(u.trees, u'.trees)
    ensures forall p :: p in u.trees && p != e ==> u'.trees[p] == u.trees[p]
    ensures e !in u.trees ==> v.None? && u' == u && lemmas' == lemmas
    ensures v.Some? ==> SolFor(orc, svc, u.heads, u.trees, f, e, v.value)
    ensures v.Some? && e in u.trees && HeadsOf(u.heads, f) != [] && (opts.condIndependent || !opts.retPool) ==>
              var o := orc(e); var t := u.trees[e];
              forall h :: h in t.dt.hds ==> Interp(o.eval, t.cons, v.value, h) == Interp(o.eval, t.cons, o.modelValue(h), h)
    ensures e in u.trees && HeadsOf(u.heads, f) != [] && v.None? && !u.trees[e].dt.templated
            && !opts.condIndependent && !opts.heuristicDt ==>
              |lemmas'| > 0 && exists exp :: |exp| > 0 && Last(lemmas') == SeparationLemma(exp)
  {
    if e !in u.trees {
      return None, u, lemmas;
    }
    var t := u.trees[e];
    if HeadsOf(u.heads, f) == [] {
      return Some(svc.modelValue(e)), u, lemmas;
    }
    var out, dt';
    out, dt', lemmas' := BuildSol(orc(e), opts, t.dt, t.cons, lemmas);
    u' := u.(trees := u.trees[e := t.(dt := dt')]);
    if out.Solved? {
      v := Some(out.sol);
      SolvedFits(orc(e), opts, t, out);
    } else {
      v := None;
      if out.Conflict? {
        assert Last(lemmas') == SeparationLemma(out.exp);
      }
    }
  }

  /** A solved tree's solution fits each of its heads. */
  lemma SolvedFits(o: Oracles, opts: Options, t: Tree, out: Outcome)
    requires out.Solved?
    requires forall h :: h in t.dt.hds ==>
               Interp(o.eval, t.cons, out.sol, h) == Interp(o.eval, t.cons, Lookup(out.hdMv, h), h)
    requires (opts.condIndependent || !opts.retPool) ==>
               forall h :: h in t.dt.hds ==> Lookup(out.hdMv, h) == o.modelValue(h)
    requires opts.retPool ==>
               forall h :: h in t.dt.hds ==> o.evalAt(Lookup(out.hdMv, h), h) == o.evalAt(o.modelValue(h), h)
    ensures forall h :: h in t.dt.hds ==> Fits(o, t.cons, out.sol, h)
  {
    forall h | h in t.dt.hds ensures Fits(o, t.cons, out.sol, h) {
      var m := Lookup(out.hdMv, h);
      assert o.evalAt(m, h) == o.evalAt(o.modelValue(h), h);
      assert Interp(o.eval, t.cons, out.sol, h) == Interp(o.eval, t.cons, m, h);
    }
  }

  /** Every candidate has its own root enumerator. */
  ghost predicate DistinctRoots(root: Term -> Term, cands: seq<Term>) {
    forall i, j :: 0 <= i < j < |cands| ==> root(cands[i]) != root(cands[j])
  }

  /** One candidate of `constructSolution`: its model value when it does
      not use unification; otherwise the solution of the tree of its root
      enumerator, which is recorded as its solution. */
  method ConstructOne(orc: Term -> Oracles, opts: Options, svc: Services, root: Term -> Term, u: Unif,
                      c: Term, lemmas: seq<Term>)
    returns (v: Option<Term>, u': Unif, lemmas': seq<Term>)
    requires c in u.unif && root(c) in u.trees ==> Ready(orc(root(c)), opts, u.trees[root(c)].dt)
    ensures u' == u.(trees := u'.trees, sols := u'.sols)
    ensures SameTrees(u.trees, u'.trees) && KeepsHds(u.trees, u'.trees)
    ensures forall p :: p in u.trees && p != root(c) ==> u'.trees[p] == u.trees[p]
    ensures c !in u.unif ==> v == Some(svc.modelValue(c)) && u' == u
    ensures c in u.unif && v.Some? ==>
              u'.sols == u.sols[c := v.value] && SolFor(orc, svc, u.heads, u.trees, c, root(c), v.value)
    ensures c in u.unif && v.None? ==> u'.sols == u.sols
  {
    if c !in u.unif {
      return Some(svc.modelValue(c)), u, lemmas;
    }
    v, u', lemmas' := ConstructSol(orc, opts, svc, u, c, root(c), lemmas);
    if v.Some? {
      u' := u'.(sols := u.sols[c := v.value]);
    }
  }

  /** The recorded solutions after the first `i` candidates: no entry is
      removed, and an entry is either the old one or a fitting solution of
      a visited candidate using unification. */
  ghost predicate SolsRecorded(orc: Term -> Oracles, svc: Services, root: Term -> Term, u: Unif,
                               sols: map<Term, Term>, i: nat)
    requires i <= |u.cands|
  {
    && (forall c :: c in u.sols ==> c in sols)
    && (forall c :: c in sols ==>
          || (c in u.sols && sols[c] == u.sols[c])
          || (c in u.cands[..i] && c in u.unif && SolFor(orc, svc, u.heads, u.trees, c, root(c), sols[c])))
  }

  /** After the first `i` candidates all have values: the values pushed, in
      order, and the recorded solutions, each fitting its tree. */
  ghost predicate AllSolved(orc: Term -> Oracles, svc: Services, root: Term -> Term, u: Unif,
                            sols: map<Term, Term>, pushed: seq<Term>, i: nat)
    requires i <= |u.cands| && |pushed| == i
  {
    forall k :: 0 <= k < i ==>
      if u.cands[k] in u.unif then
        u.cands[k] in sols && pushed[k] == sols[u.cands[k]]
        && SolFor(orc, svc, u.heads, u.trees, u.cands[k], root(u.cands[k]), sols[u.cands[k]])
      else pushed[k] == svc.modelValue(u.cands[k])
  }

  /** `constructSolution(sols, lemmas)`: for each candidate in order, its
      model value when it does not use unification, otherwise the solution
      built from the tree of its root enumerator, which is also recorded as
      the candidate's solution. A candidate without a solution is skipped
      (so that the other trees still send their separation lemmas) and the
      result is a failure; it succeeds exactly when every candidate has a
      value. */
  method ConstructSolution(orc: Term -> Oracles, opts: Options, svc: Services, root: Term -> Term, u: Unif,
                           sols: seq<Term>, lemmas: seq<Term>)
    returns (ok: bool, sols': seq<Term>, u': Unif, lemmas': seq<Term>)
    requires TreesReady(orc, opts, u.trees)
    requires NoDuplicates(u.cands) && DistinctRoots(root, u.cands)
    ensures u' == u.(trees := u'.trees, sols := u'.sols)
    ensures SameTrees(u.trees, u'.trees) && KeepsHds(u.trees, u'.trees)
    ensures |sols| <= |sols'| && sols'[..|sols|] == sols
    ensures ok <==> |sols'| == |sols| + |u.cands|
    ensures ok ==> AllSolved(orc, svc, root, u, u'.sols, sols'[|sols|..], |u.cands|)
    ensures SolsRecorded(orc, svc, root, u, u'.sols, |u.cands|)
  {
    ok := true;
    sols' := sols;
    u' := u;
    lemmas' := lemmas;
    var i := 0;
    while i < |u.cands|
      invariant 0 <= i <= |u.cands|
      invariant u' == u.(trees := u'.trees, sols := u'.sols)
      invariant SameTrees(u.trees, u'.trees) && KeepsHds(u.trees, u'.trees)
      invariant forall k :: i <= k < |u.cands| && root(u.cands[k]) in u.trees ==>
                  u'.trees[root(u.cands[k])] == u.trees[root(u.cands[k])]
      invariant |sols| <= |sols'| && sols'[..|sols|] == sols
      invariant |sols'| <= |sols| + i && (ok <==> |sols'| == |sols| + i)
      invariant ok ==> AllSolved(orc, svc, root, u, u'.sols, sols'[|sols|..], i)
      invariant SolsRecorded(orc, svc, root, u, u'.sols, i)
    {
      var c := u.cands[i];
      var v, u1, lemmas1 := ConstructOne(orc, opts, svc, root, u', c, lemmas');
      var sols1 := if v.Some? then sols' + [v.value] else sols';
      RecordedStep(orc, svc, root, u, u'.sols, u1.sols, i, v);
      if ok && v.Some? {
        SliceAppend(sols', |sols|, v.value);
        SolvedStep(orc, svc, root, u, u'.sols, u1.sols, sols'[|sols|..], i, v.value);
      }
      UnvisitedKept(root, u, u'.trees, u1.trees, i);
      ok := ok && v.Some?;
      sols' := sols1;
      u' := u1;
      lemmas' := lemmas1;
      i := i + 1;
    }
  }

  lemma SliceAppend<T>(s: seq<T>, n: nat, x: T)
    requires n <= |s|
    ensures (s + [x])[n..] == s[n..] + [x]
  {
  }

  /** Roots of the candidates after `i` are not the root of candidate `i`,
      so their trees are still untouched after it. */
  lemma UnvisitedKept(root: Term -> Term, u: Unif, trees: map<Term, Tree>, r: map<Term, Tree>, i: nat)
    requires i < |u.cands| && DistinctRoots(root, u.cands) && SameTrees(u.trees, trees)
    requires forall k :: i <= k < |u.cands| && root(u.cands[k]) in u.trees ==>
               trees[root(u.cands[k])] == u.trees[root(u.cands[k])]
    requires SameTrees(trees, r) && forall p :: p in trees && p != root(u.cands[i]) ==> r[p] == trees[p]
    ensures forall k :: i + 1 <= k < |u.cands| && root(u.cands[k]) in u.trees ==>
              r[root(u.cands[k])] == u.trees[root(u.cands[k])]
  {
  }

  lemma RecordedStep(orc: Term -> Oracles, svc: Services, root: Term -> Term, u: Unif,
                     sols: map<Term, Term>, sols1: map<Term, Term>, i: nat, v: Option<Term>)
    requires i < |u.cands| && NoDuplicates(u.cands)
    requires SolsRecorded(orc, svc, root, u, sols, i)
    requires var c := u.cands[i];
             sols1 == if c in u.unif && v.Some? then sols[c := v.value] else sols
    requires var c := u.cands[i];
             c in u.unif && v.Some? ==> SolFor(orc, svc, u.heads, u.trees, c, root(c), v.value)
    ensures SolsRecorded(orc, svc, root, u, sols1, i + 1)
  {
    var c := u.cands[i];
    assert u.cands[..i + 1] == u.cands[..i] + [c];
  }

  lemma SolvedStep(orc: Term -> Oracles, svc: Services, root: Term -> Term, u: Unif,
                   sols: map<Term, Term>, sols1: map<Term, Term>, pushed: seq<Term>, i: nat, x: Term)
    requires i < |u.cands| && NoDuplicates(u.cands) && |pushed| == i
    requires AllSolved(orc, svc, root, u, sols, pushed, i)
    requires var c := u.cands[i];
             sols1 == if c in u.unif then sols[c := x] else sols
    requires var c := u.cands[i];
             if c in u.unif then SolFor(orc, svc, u.heads, u.trees, c, root(c), x) else x == svc.modelValue(c)
    ensures AllSolved(orc, svc, root, u, sols1, pushed + [x], i + 1)
  {
    var c := u.cands[i];
    forall k | 0 <= k < i ensures u.cands[k] != c {
    }
  }
}
