/** Higher-order triggers: collecting the applications of higher-order
    pattern variables, computing for each argument position the values it
    may be abstracted over, and enumerating the lambda instantiations. */
module HoTrigger {
  import opened Terms
  import opened UfRewriter

  // ---------------------------------------------------------------------
  // Variable types (constructor)
  // ---------------------------------------------------------------------

  /** `d_ho_var_types`: the type of each higher-order variable, each
      distinct type recorded once, in order of first occurrence. */
  function HoVarTypes(vars: seq<Term>, typeOf: Term -> nat): (types: seq<nat>)
    ensures NoDuplicates(types)
    ensures forall v :: v in vars ==> typeOf(v) in types
    ensures forall t :: t in types ==> exists v :: v in vars && typeOf(v) == t
  {
    if |vars| == 0 then []
    else
      var prev := HoVarTypes(vars[..|vars| - 1], typeOf);
      assert forall v :: v in vars ==> v in vars[..|vars| - 1] || v == Last(vars);
      if typeOf(Last(vars)) in prev then prev else prev + [typeOf(Last(vars))]
  }

  // ---------------------------------------------------------------------
  // collectHoVarApplyTerms
  // ---------------------------------------------------------------------

  /** The innermost operator of a curried application. */
  function HeadOf(n: Term): Term {
    DecomposeHoApply(n, false).op
  }

  /** A curried application whose head is a quantified (instantiation)
      variable. */
  predicate IsHoVarApply(n: Term) {
    n.HoApply? && HeadOf(n).Var? && HeadOf(n).vkind == InstConstant
  }

  function Get(apps: map<Term, seq<Term>>, h: Term): seq<Term> {
    if h in apps then apps[h] else []
  }

  datatype Collected = Collected(apps: map<Term, seq<Term>>, visited: set<Term>)

  /** Every recorded term is a variable application filed under its head. */
  ghost predicate AppsWf(apps: map<Term, seq<Term>>) {
    forall h, t :: h in apps && t in apps[h] ==> IsHoVarApply(t) && HeadOf(t) == h
  }

  /** The applications recorded for head `h` since state `c`. */
  function NewSince(c: Collected, r: Collected, h: Term): seq<Term>
    requires h in r.apps && |Get(c.apps, h)| <= |r.apps[h]|
  {
    r.apps[h][|Get(c.apps, h)|..]
  }

  /** The list of head `h` only grew at its end, with distinct terms that
      were visited in between. */
  ghost predicate GrowsAt(c: Collected, r: Collected, h: Term)
    requires h in r.apps
  {
    && Get(c.apps, h) <= r.apps[h]
    && NoDuplicates(NewSince(c, r, h))
    && (forall t :: t in NewSince(c, r, h) ==> t !in c.visited && t in r.visited)
  }

  /** `r` extends `c`: more visited nodes, and every list of applications
      only grew. */
  ghost predicate Grows(c: Collected, r: Collected) {
    && c.visited <= r.visited
    && c.apps.Keys <= r.apps.Keys
    && (forall h :: h in r.apps ==> GrowsAt(c, r, h))
  }

  lemma GrowsAtTrans(a: Collected, b: Collected, c: Collected, h: Term)
    requires Grows(a, b) && b.visited <= c.visited && h in c.apps && GrowsAt(b, c, h)
    ensures GrowsAt(a, c, h)
  {
    if h in b.apps {
      assert GrowsAt(a, b, h);
      var A, B, C := Get(a.apps, h), Get(b.apps, h), c.apps[h];
      var nb, nc := NewSince(a, b, h), NewSince(b, c, h);
      assert A <= B && B <= C;
      assert A <= C;
      assert C[|A|..] == B[|A|..] + C[|B|..];
      assert NewSince(a, c, h) == nb + nc;
      forall t | t in nb + nc
        ensures t !in a.visited && t in c.visited
      {
        if t in nb {
          assert t in b.visited;
        } else {
          assert t in nc;
        }
      }
      forall x, y | 0 <= x < y < |nb + nc|
        ensures (nb + nc)[x] != (nb + nc)[y]
      {
        if y < |nb| {
          assert (nb + nc)[x] == nb[x] && (nb + nc)[y] == nb[y];
        } else if x >= |nb| {
          assert (nb + nc)[x] == nc[x - |nb|] && (nb + nc)[y] == nc[y - |nb|];
        } else {
          assert (nb + nc)[x] == nb[x];
          assert nb[x] in nb;
          assert (nb + nc)[y] == nc[y - |nb|];
          assert nc[y - |nb|] in nc;
        }
      }
    } else {
      assert Get(b.apps, h) == [] && Get(a.apps, h) == [];
      assert NewSince(a, c, h) == NewSince(b, c, h);
    }
  }

  lemma GrowsTrans(a: Collected, b: Collected, c: Collected)
    requires Grows(a, b) && Grows(b, c)
    ensures Grows(a, c)
  {
    forall h | h in c.apps
      ensures GrowsAt(a, c, h)
    {
      GrowsAtTrans(a, b, c, h);
    }
  }

  lemma GrowsRefl(c: Collected)
    ensures Grows(c, c)
  {
    forall h | h in c.apps
      ensures GrowsAt(c, c, h)
    {
      assert NewSince(c, c, h) == [];
    }
  }

  /** Marking `n` visited, then recording it when `record` holds. */
  function Visit(c: Collected, n: Term, record: bool): (r: Collected)
    requires record ==> IsHoVarApply(n)
    ensures AppsWf(c.apps) ==> AppsWf(r.apps)
    ensures r.visited == c.visited + {n}
  {
    var c1 := Collected(c.apps, c.visited + {n});
    if record then Collected(c1.apps[HeadOf(n) := Get(c.apps, HeadOf(n)) + [n]], c1.visited) else c1
  }

  lemma VisitGrows(c: Collected, n: Term, record: bool)
    requires record ==> IsHoVarApply(n)
    requires n !in c.visited
    ensures Grows(c, Visit(c, n, record))
    ensures record ==> NewSince(c, Visit(c, n, record), HeadOf(n)) == [n]
    ensures !record ==> Visit(c, n, record).apps == c.apps
  {
    var r := Visit(c, n, record);
    forall h | h in r.apps
      ensures GrowsAt(c, r, h)
    {
      if record && h == HeadOf(n) {
        assert NewSince(c, r, h) == [n];
      } else {
        assert NewSince(c, r, h) == [];
      }
    }
  }

  /** What one visit of an unvisited node contributes to the final state `r`
      of its walk: the node itself when recorded, and nothing under its head
      otherwise. */
  lemma VisitedThenWalked(c: Collected, n: Term, record: bool, r: Collected)
    requires record ==> IsHoVarApply(n)
    requires n !in c.visited
    requires Grows(Visit(c, n, record), r)
    ensures record ==> HeadOf(n) in r.apps && n in NewSince(c, r, HeadOf(n))
    ensures !record ==> forall h :: h in r.apps ==> n !in NewSince(c, r, h)
  {
    var c1 := Visit(c, n, record);
    VisitGrows(c, n, record);
    if record {
      var h := HeadOf(n);
      assert GrowsAt(c1, r, h);
      assert r.apps[h][|Get(c.apps, h)|] == n;
    } else {
      forall h | h in r.apps
        ensures n !in NewSince(c, r, h)
      {
        assert GrowsAt(c1, r, h);
        assert Get(c1.apps, h) == Get(c.apps, h);
      }
    }
  }

  /** The memoized walk of `collectHoVarApplyTerms`: a node already visited
      is skipped; otherwise it is recorded when it is a variable application
      reached outside an application's operator position, and its children
      are walked, child `i` with `withinApply' = !withinApply || i != 0`. */
  function Collect(n: Term, withinApply: bool, c: Collected): (r: Collected)
    requires AppsWf(c.apps)
    ensures AppsWf(r.apps)
    ensures Grows(c, r)
    ensures n in r.visited
    ensures n in c.visited ==> r == c
    ensures (n !in c.visited && !withinApply && IsHoVarApply(n))
              ==> HeadOf(n) in r.apps && n in NewSince(c, r, HeadOf(n))
    ensures (n !in c.visited && withinApply)
              ==> forall h :: h in r.apps ==> n !in NewSince(c, r, h)
    decreases n, |Children(n)| + 1
  {
    if n in c.visited then
      GrowsRefl(c);
      c
    else
      var record := !withinApply && IsHoVarApply(n);
      var c1 := Visit(c, n, record);
      VisitGrows(c, n, record);
      var r := CollectChildren(n, 0, withinApply, c1);
      GrowsTrans(c, c1, r);
      VisitedThenWalked(c, n, record, r);
      r
  }

  function CollectChildren(parent: Term, i: nat, withinApply: bool, c: Collected): (r: Collected)
    requires i <= |Children(parent)|
    requires AppsWf(c.apps)
    ensures AppsWf(r.apps)
    ensures Grows(c, r)
    decreases parent, |Children(parent)| - i
  {
    if i == |Children(parent)| then
      GrowsRefl(c);
      c
    else
      var c1 := Collect(Children(parent)[i], !withinApply || i != 0, c);
      var r := CollectChildren(parent, i + 1, withinApply, c1);
      GrowsTrans(c, c1, r);
      r
  }

  /** Reference for the walk: the (node, withinApply) pairs reachable from
      `n` reached with flag `w`, without memoization; child `i` is reached
      with `!w || i != 0`. */
  function Reach(n: Term, w: bool): set<(Term, bool)>
    decreases n, 1
  {
    {(n, w)} + ReachKids(n, w, 0)
  }

  function ReachKids(n: Term, w: bool, i: nat): set<(Term, bool)>
    requires i <= |Children(n)|
    decreases n, 0, |Children(n)| - i
  {
    if i == |Children(n)| then {} else Reach(Children(n)[i], !w || i != 0) + ReachKids(n, w, i + 1)
  }

  /** The subterms of `n`, itself included. */
  function Sub(n: Term): set<Term>
    decreases n, 1
  {
    {n} + SubKids(n, 0)
  }

  function SubKids(n: Term, i: nat): set<Term>
    requires i <= |Children(n)|
    decreases n, 0, |Children(n)| - i
  {
    if i == |Children(n)| then {} else Sub(Children(n)[i]) + SubKids(n, i + 1)
  }

  /** The number of nodes of `n`. */
  function Size(n: Term): nat
    decreases n, 1
  {
    1 + SizeKids(n, 0)
  }

  function SizeKids(n: Term, i: nat): nat
    requires i <= |Children(n)|
    decreases n, 0, |Children(n)| - i
  {
    if i == |Children(n)| then 0 else Size(Children(n)[i]) + SizeKids(n, i + 1)
  }

  lemma {:induction false} KidSizeBound(n: Term, i: nat, j: nat)
    requires i <= j < |Children(n)|
    ensures Size(Children(n)[j]) <= SizeKids(n, i)
    decreases j - i
  {
    if i < j {
      KidSizeBound(n, i + 1, j);
    }
  }

  /** A child is smaller than its parent. */
  lemma ChildSmaller(n: Term, j: nat)
    requires j < |Children(n)|
    ensures Size(Children(n)[j]) < Size(n)
  {
    KidSizeBound(n, 0, j);
  }

  /** Every visited node outside the pending ancestors `anc` has all its
      subterms visited. */
  ghost predicate Closed(visited: set<Term>, anc: set<Term>) {
    forall m :: m in visited && m !in anc ==> Sub(m) <= visited
  }

  /** The walk from `n` visits every subterm of `n`, provided every visited
      node other than `n`'s pending ancestors was walked completely. */
  lemma {:induction false} CollectCovers(n: Term, w: bool, c: Collected, anc: set<Term>)
    requires AppsWf(c.apps)
    requires Closed(c.visited, anc) && forall x :: x in anc ==> Size(x) > Size(n)
    ensures Sub(n) <= Collect(n, w, c).visited
    ensures Closed(Collect(n, w, c).visited, anc)
    decreases n, |Children(n)| + 1
  {
    if n in c.visited {
      assert n !in anc;
    } else {
      var record := !w && IsHoVarApply(n);
      var c1 := Visit(c, n, record);
      assert c1.visited == c.visited + {n};
      assert Closed(c1.visited, anc + {n}) by {
        forall m | m in c1.visited && m !in anc + {n}
          ensures Sub(m) <= c1.visited
        {
          assert m in c.visited && m !in anc;
        }
      }
      CollectChildrenCovers(n, 0, w, c1, anc + {n});
      var r := CollectChildren(n, 0, w, c1);
      assert n in r.visited;
      assert Sub(n) <= r.visited;
      forall m | m in r.visited && m !in anc
        ensures Sub(m) <= r.visited
      {
        if m != n {
          assert m !in anc + {n};
        }
      }
    }
  }

  lemma {:induction false} CollectChildrenCovers(parent: Term, i: nat, w: bool, c: Collected, anc: set<Term>)
    requires i <= |Children(parent)| && AppsWf(c.apps)
    requires Closed(c.visited, anc) && forall x :: x in anc ==> Size(x) >= Size(parent)
    ensures SubKids(parent, i) <= CollectChildren(parent, i, w, c).visited
    ensures Closed(CollectChildren(parent, i, w, c).visited, anc)
    decreases parent, |Children(parent)| - i
  {
    if i < |Children(parent)| {
      var child := Children(parent)[i];
      ChildSmaller(parent, i);
      CollectCovers(child, !w || i != 0, c, anc);
      var c1 := Collect(child, !w || i != 0, c);
      CollectChildrenCovers(parent, i + 1, w, c1, anc);
    }
  }

  /** An entry new in `r` since `c` is new since `c1` or already new in
      `c1`; an entry new since a later state is new since an earlier one. */
  lemma NewSinceSplit(c: Collected, c1: Collected, r: Collected, h: Term, t: Term)
    requires Grows(c, c1) && Grows(c1, r) && h in r.apps
    ensures Grows(c, r)
    ensures t in NewSince(c1, r, h) ==> t in NewSince(c, r, h)
    ensures t in NewSince(c, r, h) ==> t in NewSince(c1, r, h) || (h in c1.apps && t in NewSince(c, c1, h))
  {
    GrowsTrans(c, c1, r);
    assert GrowsAt(c, r, h) && GrowsAt(c1, r, h);
    if h in c1.apps {
      assert GrowsAt(c, c1, h);
      var A, B, C := Get(c.apps, h), c1.apps[h], r.apps[h];
      assert C[|A|..] == B[|A|..] + C[|B|..];
    }
  }

  /** An entry new in `c1` since `c` stays new in a later state `r`. */
  lemma CollectedStays(c: Collected, c1: Collected, r: Collected, h: Term, t: Term)
    requires Grows(c, c1) && Grows(c1, r) && h in c1.apps && t in NewSince(c, c1, h)
    ensures h in r.apps && Grows(c, r) && t in NewSince(c, r, h)
  {
    GrowsTrans(c, c1, r);
    assert GrowsAt(c, c1, h) && GrowsAt(c1, r, h) && GrowsAt(c, r, h);
    var A, B, C := Get(c.apps, h), c1.apps[h], r.apps[h];
    assert C[|A|..] == B[|A|..] + C[|B|..];
  }

  /** Every entry new in `r` since `c` is reachable with withinApply = false
      according to `reach`. */
  ghost predicate RecordsSound(c: Collected, r: Collected, reach: set<(Term, bool)>)
    requires Grows(c, r)
  {
    forall h, t :: h in r.apps && t in NewSince(c, r, h) ==> (t, false) in reach
  }

  /** Every variable application visited between `c` and `r` that `reach`
      does not reach with withinApply = true was recorded. */
  ghost predicate RecordsComplete(c: Collected, r: Collected, reach: set<(Term, bool)>)
    requires Grows(c, r)
  {
    forall t :: t in r.visited && t !in c.visited && IsHoVarApply(t) && (t, true) !in reach
      ==> HeadOf(t) in r.apps && t in NewSince(c, r, HeadOf(t))
  }

  /** One visit records exactly `n`, and only when reached with
      withinApply = false. */
  lemma VisitRecords(c: Collected, n: Term, w: bool)
    requires n !in c.visited
    ensures var c1 := Visit(c, n, !w && IsHoVarApply(n));
            && Grows(c, c1) && RecordsSound(c, c1, {(n, w)}) && RecordsComplete(c, c1, {(n, w)})
  {
    var record := !w && IsHoVarApply(n);
    var c1 := Visit(c, n, record);
    VisitGrows(c, n, record);
    forall h | h in c1.apps && !(record && h == HeadOf(n))
      ensures NewSince(c, c1, h) == []
    {
    }
  }

  /** A walk that changes nothing records nothing. */
  lemma RecordsNothing(c: Collected, reach: set<(Term, bool)>)
    ensures Grows(c, c) && RecordsSound(c, c, reach) && RecordsComplete(c, c, reach)
  {
    GrowsRefl(c);
    forall h | h in c.apps
      ensures NewSince(c, c, h) == []
    {
    }
  }

  /** Walking `c` to `c1` and then `c1` to `r` records what either step
      records. */
  lemma RecordsCompose(c: Collected, c1: Collected, r: Collected, A: set<(Term, bool)>, B: set<(Term, bool)>)
    requires Grows(c, c1) && Grows(c1, r)
    requires RecordsSound(c, c1, A) && RecordsSound(c1, r, B)
    requires RecordsComplete(c, c1, A) && RecordsComplete(c1, r, B)
    ensures Grows(c, r) && RecordsSound(c, r, A + B) && RecordsComplete(c, r, A + B)
  {
    GrowsTrans(c, c1, r);
    forall h, t | h in r.apps && t in NewSince(c, r, h)
      ensures (t, false) in A + B
    {
      NewSinceSplit(c, c1, r, h, t);
    }
    forall t | t in r.visited && t !in c.visited && IsHoVarApply(t) && (t, true) !in A + B
      ensures HeadOf(t) in r.apps && t in NewSince(c, r, HeadOf(t))
    {
      if t in c1.visited {
        CollectedStays(c, c1, r, HeadOf(t), t);
      } else {
        NewSinceSplit(c, c1, r, HeadOf(t), t);
      }
    }
  }

  /** What the walk records: every new entry is a node reachable with
      withinApply = false, and every newly visited variable application
      that is not reachable with withinApply = true is recorded. */
  lemma {:induction false} CollectReached(n: Term, w: bool, c: Collected)
    requires AppsWf(c.apps)
    ensures RecordsSound(c, Collect(n, w, c), Reach(n, w))
    ensures RecordsComplete(c, Collect(n, w, c), Reach(n, w))
    decreases n, |Children(n)| + 1
  {
    if n in c.visited {
      RecordsNothing(c, Reach(n, w));
    } else {
      var c1 := Visit(c, n, !w && IsHoVarApply(n));
      VisitRecords(c, n, w);
      CollectChildrenReached(n, 0, w, c1);
      var r := CollectChildren(n, 0, w, c1);
      assert Collect(n, w, c) == r;
      RecordsCompose(c, c1, r, {(n, w)}, ReachKids(n, w, 0));
      assert Reach(n, w) == {(n, w)} + ReachKids(n, w, 0);
    }
  }

  lemma {:induction false} CollectChildrenReached(parent: Term, i: nat, w: bool, c: Collected)
    requires i <= |Children(parent)| && AppsWf(c.apps)
    ensures RecordsSound(c, CollectChildren(parent, i, w, c), ReachKids(parent, w, i))
    ensures RecordsComplete(c, CollectChildren(parent, i, w, c), ReachKids(parent, w, i))
    decreases parent, |Children(parent)| - i
  {
    if i == |Children(parent)| {
      RecordsNothing(c, ReachKids(parent, w, i));
    } else {
      var child, wi := Children(parent)[i], !w || i != 0;
      CollectReached(child, wi, c);
      var c1 := Collect(child, wi, c);
      CollectChildrenReached(parent, i + 1, w, c1);
      RecordsCompose(c, c1, CollectChildren(parent, i + 1, w, c1), Reach(child, wi), ReachKids(parent, w, i + 1));
    }
  }

  /** `collectHoVarApplyTerms(q, n, apps)`: a fresh visited set per call.
      The terms one call adds for a head are distinct variable applications
      of that head that the walk reaches with withinApply = false; every
      variable application among the subterms of `n` that the walk cannot
      reach with withinApply = true is added. (A subterm reachable both
      ways is added only when it is first visited with withinApply = false,
      since the visited set ignores the flag.) */
  function CollectHoVarApplyTerms(n: Term, apps: map<Term, seq<Term>>): (r: map<Term, seq<Term>>)
    requires AppsWf(apps)
    ensures AppsWf(r)
    ensures forall h :: h in apps ==> h in r && apps[h] <= r[h]
    ensures forall h :: h in r ==> |Get(apps, h)| <= |r[h]| && NoDuplicates(r[h][|Get(apps, h)|..])
    ensures forall h, t :: h in r && t in r[h][|Get(apps, h)|..] ==>
              IsHoVarApply(t) && HeadOf(t) == h && (t, false) in Reach(n, false)
    ensures forall t :: t in Sub(n) && IsHoVarApply(t) && (t, true) !in Reach(n, false) ==>
              HeadOf(t) in r && t in r[HeadOf(t)][|Get(apps, HeadOf(t))|..]
  {
    var r := Collect(n, false, Collected(apps, {})).apps;
    CollectWholeGrows(n, apps, r);
    CollectWholeSound(n, apps, r);
    CollectWholeComplete(n, apps, r);
    r
  }

  /** The walk of a whole term only appends distinct terms to each list. */
  lemma CollectWholeGrows(n: Term, apps: map<Term, seq<Term>>, r: map<Term, seq<Term>>)
    requires AppsWf(apps) && r == Collect(n, false, Collected(apps, {})).apps
    ensures AppsWf(r)
    ensures forall h :: h in apps ==> h in r && apps[h] <= r[h]
    ensures forall h :: h in r ==> |Get(apps, h)| <= |r[h]| && NoDuplicates(r[h][|Get(apps, h)|..])
  {
    var c0 := Collected(apps, {});
    var c := Collect(n, false, c0);
    assert forall h :: h in c.apps ==> GrowsAt(c0, c, h);
  }

  /** One entry added between `c0` and `c`. */
  lemma NewEntrySound(c0: Collected, c: Collected, reach: set<(Term, bool)>, h: Term, t: Term)
    requires Grows(c0, c) && AppsWf(c.apps) && RecordsSound(c0, c, reach)
    requires h in c.apps && |Get(c0.apps, h)| <= |c.apps[h]| && t in c.apps[h][|Get(c0.apps, h)|..]
    ensures IsHoVarApply(t) && HeadOf(t) == h && (t, false) in reach
  {
    assert t in NewSince(c0, c, h);
    var k :| |Get(c0.apps, h)| <= k < |c.apps[h]| && c.apps[h][k] == t;
    assert t in c.apps[h];
  }

  /** Every term the walk of a whole term adds is a variable application
      filed under its head and reachable with withinApply = false. */
  lemma CollectWholeSound(n: Term, apps: map<Term, seq<Term>>, r: map<Term, seq<Term>>)
    requires AppsWf(apps) && r == Collect(n, false, Collected(apps, {})).apps
    ensures forall h, t :: h in r && t in r[h][|Get(apps, h)|..] ==>
              IsHoVarApply(t) && HeadOf(t) == h && (t, false) in Reach(n, false)
  {
    var c0 := Collected(apps, {});
    CollectReached(n, false, c0);
    var c := Collect(n, false, c0);
    var reach := Reach(n, false);
    forall h, t | h in r && t in r[h][|Get(apps, h)|..]
      ensures IsHoVarApply(t) && HeadOf(t) == h && (t, false) in reach
    {
      NewEntrySound(c0, c, reach, h, t);
    }
  }

  /** The walk of a whole term adds every variable application among its
      subterms that it cannot reach with withinApply = true. */
  lemma CollectWholeComplete(n: Term, apps: map<Term, seq<Term>>, r: map<Term, seq<Term>>)
    requires AppsWf(apps) && r == Collect(n, false, Collected(apps, {})).apps
    ensures forall t :: t in Sub(n) && IsHoVarApply(t) && (t, true) !in Reach(n, false) ==>
              HeadOf(t) in r && t in r[HeadOf(t)][|Get(apps, HeadOf(t))|..]
  {
    var c0 := Collected(apps, {});
    CollectCovers(n, false, c0, {});
    CollectReached(n, false, c0);
  }

  // ---------------------------------------------------------------------
  // Fixed argument values
  // ---------------------------------------------------------------------

  /** The arguments of a curried application, in application order. */
  function ArgsOf(app: Term): seq<Term> {
    DecomposeHoApply(app, false).args
  }

  /** The positions `0..n`. */
  function Below(n: nat): (r: set<nat>)
    ensures forall k: nat :: k in r <==> k < n
  {
    if n == 0 then {} else Below(n - 1) + {n - 1}
  }

  /** One application's contribution to `fixed_vals`: a new position takes
      this argument; a position whose fixed value this argument is not equal
      to (under the equality oracle) becomes null, shown as `None`. */
  function FixedStep(fixed: map<nat, Option<Term>>, args: seq<Term>,
                     areEqual: (Term, Term) -> bool): map<nat, Option<Term>>
  {
    map k | k in fixed.Keys + Below(|args|) ::
      if k !in fixed then Some(args[k])
      else if k < |args| && fixed[k].Some? && !areEqual(fixed[k].value, args[k]) then None
      else fixed[k]
  }

  /** `fixed_vals` after scanning the applications in order. */
  function FixedVals(apps: seq<Term>, areEqual: (Term, Term) -> bool): map<nat, Option<Term>>
  {
    if |apps| == 0 then map[]
    else FixedStep(FixedVals(apps[..|apps| - 1], areEqual), ArgsOf(Last(apps)), areEqual)
  }

  /** The first application that has an argument at position `k`. */
  function FirstWithArg(apps: seq<Term>, k: nat): (r: Option<nat>)
    ensures r.Some? ==> r.value < |apps| && k < |ArgsOf(apps[r.value])|
    ensures r.Some? ==> forall j :: 0 <= j < r.value ==> k >= |ArgsOf(apps[j])|
    ensures r.None? ==> forall j :: 0 <= j < |apps| ==> k >= |ArgsOf(apps[j])|
  {
    if |apps| == 0 then None
    else
      match FirstWithArg(apps[..|apps| - 1], k)
      case Some(i) => Some(i)
      case None => if k < |ArgsOf(Last(apps))| then Some(|apps| - 1) else None
  }

  /** Every later argument at position `k` is equal to the first one. */
  ghost predicate StaysEqual(apps: seq<Term>, k: nat, f: nat, areEqual: (Term, Term) -> bool)
    requires f < |apps| && k < |ArgsOf(apps[f])|
  {
    forall j :: f < j < |apps| && k < |ArgsOf(apps[j])| ==> areEqual(ArgsOf(apps[f])[k], ArgsOf(apps[j])[k])
  }

  /** Reference definition of `fixed_vals`: position `k` is present exactly
      when some application has a `k`-th argument; its value is the first
      such argument when every later one is equal to it, and null otherwise. */
  lemma {:induction false} FixedValsSpec(apps: seq<Term>, areEqual: (Term, Term) -> bool, k: nat)
    ensures (k in FixedVals(apps, areEqual)) <==> FirstWithArg(apps, k).Some?
    ensures FirstWithArg(apps, k).Some? ==>
              var f := FirstWithArg(apps, k).value;
              FixedVals(apps, areEqual)[k] ==
                (if StaysEqual(apps, k, f, areEqual) then Some(ArgsOf(apps[f])[k]) else None)
  {
    if |apps| > 0 {
      var prefix, a := apps[..|apps| - 1], Last(apps);
      FixedValsSpec(prefix, areEqual, k);
      var F := FixedVals(prefix, areEqual);
      assert FixedVals(apps, areEqual) == FixedStep(F, ArgsOf(a), areEqual);
      match FirstWithArg(prefix, k)
      case Some(f) =>
        assert FirstWithArg(apps, k) == Some(f);
        StaysEqualSnoc(apps, k, f, areEqual);
      case None =>
        if k < |ArgsOf(a)| {
          assert FirstWithArg(apps, k) == Some(|apps| - 1);
        }
    }
  }

  lemma StaysEqualSnoc(apps: seq<Term>, k: nat, f: nat, areEqual: (Term, Term) -> bool)
    requires f < |apps| - 1 && k < |ArgsOf(apps[f])|
    ensures StaysEqual(apps, k, f, areEqual) <==>
              StaysEqual(apps[..|apps| - 1], k, f, areEqual)
              && (k < |ArgsOf(Last(apps))| ==> areEqual(ArgsOf(apps[f])[k], ArgsOf(Last(apps))[k]))
  {
    var prefix := apps[..|apps| - 1];
    assert forall j :: 0 <= j < |prefix| ==> prefix[j] == apps[j];
  }

  /** Once a position's fixed value is null it stays null. */
  lemma {:induction false} FixedNullStaysNull(apps: seq<Term>, more: seq<Term>,
                                             areEqual: (Term, Term) -> bool, k: nat)
    requires k in FixedVals(apps, areEqual) && FixedVals(apps, areEqual)[k].None?
    ensures k in FixedVals(apps + more, areEqual) && FixedVals(apps + more, areEqual)[k].None?
    decreases |more|
  {
    if |more| > 0 {
      var init := more[..|more| - 1];
      FixedNullStaysNull(apps, init, areEqual, k);
      assert (apps + more)[..|apps + more| - 1] == apps + init;
      assert FixedVals(apps + more, areEqual)
          == FixedStep(FixedVals(apps + init, areEqual), ArgsOf(Last(apps + more)), areEqual);
    } else {
      assert apps + more == apps;
    }
  }

  // ---------------------------------------------------------------------
  // Argument vectors
  // ---------------------------------------------------------------------

  predicate FixedAt(fixed: map<nat, Option<Term>>, i: nat) {
    i in fixed && fixed[i].Some?
  }

  /** The first position below `n` whose fixed value has representative `r`. */
  function FirstWithRep(fixed: map<nat, Option<Term>>, rep: Term -> Term, r: Term, n: nat): (o: Option<nat>)
    ensures o.Some? ==> o.value < n && FixedAt(fixed, o.value) && rep(fixed[o.value].value) == r
    ensures o.Some? ==> forall j :: 0 <= j < o.value && FixedAt(fixed, j) ==> rep(fixed[j].value) != r
    ensures o.None? ==> forall j :: 0 <= j < n && FixedAt(fixed, j) ==> rep(fixed[j].value) != r
  {
    if n == 0 then None
    else
      match FirstWithRep(fixed, rep, r, n - 1)
      case Some(j) => Some(j)
      case None =>
        if FixedAt(fixed, n - 1) && rep(fixed[n - 1].value) == r then Some(n - 1) else None
  }

  /** The position that owns the choices of fixed position `i`: the first
      position whose fixed value has the same representative. */
  function Owner(fixed: map<nat, Option<Term>>, rep: Term -> Term, i: nat): (o: nat)
    requires FixedAt(fixed, i)
    ensures o <= i
  {
    FirstWithRep(fixed, rep, rep(fixed[i].value), i + 1).value
  }

  /** A fixed position sharing its representative with an earlier one. */
  predicate Aliased(fixed: map<nat, Option<Term>>, rep: Term -> Term, i: nat) {
    FixedAt(fixed, i) && Owner(fixed, rep, i) < i
  }

  /** The bound variables of the positions in (i, n) aliased to `i`. */
  function AliasedBvs(fixed: map<nat, Option<Term>>, rep: Term -> Term, bvs: seq<Term>, i: nat, n: nat): seq<Term>
    requires n <= |bvs|
  {
    if n <= i + 1 then []
    else AliasedBvs(fixed, rep, bvs, i, n - 1)
         + (if Aliased(fixed, rep, n - 1) && Owner(fixed, rep, n - 1) == i then [bvs[n - 1]] else [])
  }

  /** The choice vector of an owning position once positions below `n` are done. */
  function ExpectedVector(fixed: map<nat, Option<Term>>, rep: Term -> Term, bvs: seq<Term>, i: nat, n: nat): seq<Term>
    requires i < n <= |bvs|
  {
    if FixedAt(fixed, i) then [fixed[i].value, bvs[i]] + AliasedBvs(fixed, rep, bvs, i, n)
    else [bvs[i]]
  }

  datatype ArgVectors = ArgVectors(vectors: map<nat, seq<Term>>, aliasOf: map<nat, nat>)

  /** `d_arg_vector` and `d_arg_to_arg_rep` of one variable after the
      positions below `n` were processed. */
  ghost predicate VectorsUpTo(fixed: map<nat, Option<Term>>, rep: Term -> Term, bvs: seq<Term>,
                              av: ArgVectors, n: nat)
    requires n <= |bvs|
  {
    && (forall i: nat :: i in av.aliasOf <==> i < n && Aliased(fixed, rep, i))
    && (forall i: nat :: i in av.aliasOf ==> av.aliasOf[i] == Owner(fixed, rep, i))
    && (forall i: nat :: i in av.vectors <==> i < n && !Aliased(fixed, rep, i))
    && (forall i: nat :: i in av.vectors ==> i < n && av.vectors[i] == ExpectedVector(fixed, rep, bvs, i, n))
  }

  /** The argument-vector block of `sendInstantiation` for one variable with
      bound variables `bvs`: a position with a fixed value whose
      representative is new may take that value or its bound variable; a
      later position with the same representative is aliased to the first
      and adds its bound variable to that position's choices; any other
      position can only keep its bound variable. */
  method ComputeArgVectors(fixed: map<nat, Option<Term>>, bvs: seq<Term>, rep: Term -> Term)
    returns (av: ArgVectors)
    ensures VectorsUpTo(fixed, rep, bvs, av, |bvs|)
  {
    var argToRep: map<Term, nat> := map[];
    av := ArgVectors(map[], map[]);
    var index := 0;
    while index < |bvs|
      invariant 0 <= index <= |bvs|
      invariant argToRep == RepTable(fixed, rep, index)
      invariant av == VectorsAfter(fixed, rep, bvs, index)
    {
      argToRep, av := ArgVectorsStep(fixed, bvs, rep, index, argToRep, av);
      index := index + 1;
    }
    VectorsAfterSpec(fixed, rep, bvs, |bvs|);
  }

  /** One iteration of the loop over the bound variables: position `index`
      joins its owner's choices, owns new choices, or keeps its bound
      variable. */
  method ArgVectorsStep(fixed: map<nat, Option<Term>>, bvs: seq<Term>, rep: Term -> Term, index: nat,
                        argToRep: map<Term, nat>, av: ArgVectors)
    returns (argToRep': map<Term, nat>, av': ArgVectors)
    requires index < |bvs|
    requires argToRep == RepTable(fixed, rep, index) && av == VectorsAfter(fixed, rep, bvs, index)
    ensures argToRep' == RepTable(fixed, rep, index + 1) && av' == VectorsAfter(fixed, rep, bvs, index + 1)
  {
    argToRep' := argToRep;
    var bv := bvs[index];
    if FixedAt(fixed, index) {
      var r := rep(fixed[index].value);
      if r in argToRep {
        var owner := argToRep[r];
        av' := ArgVectors(av.vectors[owner := Lookup(av.vectors, owner) + [bv]], av.aliasOf[index := owner]);
      } else {
        argToRep' := argToRep[r := index];
        av' := ArgVectors(av.vectors[index := [fixed[index].value, bv]], av.aliasOf);
      }
    } else {
      av' := ArgVectors(av.vectors[index := [bv]], av.aliasOf);
    }
  }

  function Lookup(vectors: map<nat, seq<Term>>, i: nat): seq<Term> {
    if i in vectors then vectors[i] else []
  }

  /** `arg_to_rep` after the positions below `n`, step by step. */
  function RepTable(fixed: map<nat, Option<Term>>, rep: Term -> Term, n: nat): map<Term, nat> {
    if n == 0 then map[]
    else
      var t := RepTable(fixed, rep, n - 1);
      if FixedAt(fixed, n - 1) && rep(fixed[n - 1].value) !in t then t[rep(fixed[n - 1].value) := n - 1] else t
  }

  /** The vectors after the positions below `n`, step by step. */
  function VectorsAfter(fixed: map<nat, Option<Term>>, rep: Term -> Term, bvs: seq<Term>, n: nat): ArgVectors
    requires n <= |bvs|
  {
    if n == 0 then ArgVectors(map[], map[])
    else
      var av, t, i := VectorsAfter(fixed, rep, bvs, n - 1), RepTable(fixed, rep, n - 1), n - 1;
      if FixedAt(fixed, i) then
        var r := rep(fixed[i].value);
        if r in t then ArgVectors(av.vectors[t[r] := Lookup(av.vectors, t[r]) + [bvs[i]]], av.aliasOf[i := t[r]])
        else ArgVectors(av.vectors[i := [fixed[i].value, bvs[i]]], av.aliasOf)
      else ArgVectors(av.vectors[i := [bvs[i]]], av.aliasOf)
  }

  lemma {:induction false} VectorsAfterSpec(fixed: map<nat, Option<Term>>, rep: Term -> Term, bvs: seq<Term>, n: nat)
    requires n <= |bvs|
    ensures RepTableUpTo(fixed, rep, RepTable(fixed, rep, n), n)
    ensures VectorsUpTo(fixed, rep, bvs, VectorsAfter(fixed, rep, bvs, n), n)
  {
    if n > 0 {
      var i := n - 1;
      VectorsAfterSpec(fixed, rep, bvs, i);
      var av, t := VectorsAfter(fixed, rep, bvs, i), RepTable(fixed, rep, i);
      RepTableStep(fixed, rep, t, i);
      if FixedAt(fixed, i) {
        if rep(fixed[i].value) in t {
          VectorsAlias(fixed, rep, bvs, av, i);
        } else {
          VectorsOwn(fixed, rep, bvs, av, i);
        }
      } else {
        VectorsPlain(fixed, rep, bvs, av, i);
      }
    }
  }

  /** `arg_to_rep` after the positions below `n`: each representative seen
      maps to the first position having it. */
  ghost predicate RepTableUpTo(fixed: map<nat, Option<Term>>, rep: Term -> Term, table: map<Term, nat>, n: nat) {
    && (forall r :: r in table <==> FirstWithRep(fixed, rep, r, n).Some?)
    && (forall r :: r in table ==> table[r] == FirstWithRep(fixed, rep, r, n).value)
  }

  lemma RepTableStep(fixed: map<nat, Option<Term>>, rep: Term -> Term, table: map<Term, nat>, n: nat)
    requires RepTableUpTo(fixed, rep, table, n)
    ensures FixedAt(fixed, n) ==>
              var r := rep(fixed[n].value);
              && (r in table <==> Aliased(fixed, rep, n))
              && (r in table ==> table[r] == Owner(fixed, rep, n))
              && (r in table ==> RepTableUpTo(fixed, rep, table, n + 1))
              && (r !in table ==> RepTableUpTo(fixed, rep, table[r := n], n + 1))
    ensures !FixedAt(fixed, n) ==> RepTableUpTo(fixed, rep, table, n + 1)
  {
    if FixedAt(fixed, n) {
      var r := rep(fixed[n].value);
      if r in table {
        FirstWithRepSettled(fixed, rep, r, n, n + 1);
      }
    }
  }

  /** Once some position below `m` has representative `r`, raising the
      bound does not change the first one. */
  lemma {:induction false} FirstWithRepSettled(fixed: map<nat, Option<Term>>, rep: Term -> Term, r: Term, m: nat, m': nat)
    requires m <= m' && FirstWithRep(fixed, rep, r, m).Some?
    ensures FirstWithRep(fixed, rep, r, m') == FirstWithRep(fixed, rep, r, m)
    decreases m' - m
  {
    if m < m' {
      FirstWithRepSettled(fixed, rep, r, m, m' - 1);
    }
  }

  /** The owner of a fixed position owns itself. */
  lemma OwnerNotAliased(fixed: map<nat, Option<Term>>, rep: Term -> Term, i: nat)
    requires FixedAt(fixed, i)
    ensures FixedAt(fixed, Owner(fixed, rep, i)) && !Aliased(fixed, rep, Owner(fixed, rep, i))
  {
    var o := Owner(fixed, rep, i);
    FirstWithRepSettled(fixed, rep, rep(fixed[i].value), o + 1, i + 1);
  }

  /** Position `n` aliased to an earlier owner. */
  lemma VectorsAlias(fixed: map<nat, Option<Term>>, rep: Term -> Term, bvs: seq<Term>, av: ArgVectors, n: nat)
    requires n < |bvs| && VectorsUpTo(fixed, rep, bvs, av, n)
    requires Aliased(fixed, rep, n)
    ensures Owner(fixed, rep, n) in av.vectors
    ensures var o := Owner(fixed, rep, n);
            VectorsUpTo(fixed, rep, bvs, ArgVectors(av.vectors[o := av.vectors[o] + [bvs[n]]], av.aliasOf[n := o]), n + 1)
  {
    var o := Owner(fixed, rep, n);
    OwnerNotAliased(fixed, rep, n);
    assert o in av.vectors;
    var aliasOf := av.aliasOf[n := o];
    var vectors := av.vectors[o := av.vectors[o] + [bvs[n]]];
    AliasedBvsStep(fixed, rep, bvs, n);
    forall i: nat
      ensures i in aliasOf <==> i < n + 1 && Aliased(fixed, rep, i)
    {
    }
    forall i: nat | i in aliasOf
      ensures aliasOf[i] == Owner(fixed, rep, i)
    {
    }
    forall i: nat
      ensures i in vectors <==> i < n + 1 && !Aliased(fixed, rep, i)
    {
    }
    forall i: nat | i in vectors
      ensures i < n + 1 && vectors[i] == ExpectedVector(fixed, rep, bvs, i, n + 1)
    {
      assert i in av.vectors && i < n;
      if i == o {
        var own := [fixed[i].value, bvs[i]];
        assert own + AliasedBvs(fixed, rep, bvs, i, n + 1) == own + AliasedBvs(fixed, rep, bvs, i, n) + [bvs[n]];
      } else if FixedAt(fixed, i) {
        assert AliasedBvs(fixed, rep, bvs, i, n + 1) == AliasedBvs(fixed, rep, bvs, i, n);
      }
    }
  }

  lemma VectorsOwn(fixed: map<nat, Option<Term>>, rep: Term -> Term, bvs: seq<Term>, av: ArgVectors, n: nat)
    requires n < |bvs| && VectorsUpTo(fixed, rep, bvs, av, n)
    requires FixedAt(fixed, n) && !Aliased(fixed, rep, n)
    ensures VectorsUpTo(fixed, rep, bvs, ArgVectors(av.vectors[n := [fixed[n].value, bvs[n]]], av.aliasOf), n + 1)
  {
    AliasedBvsStep(fixed, rep, bvs, n);
  }

  /** Position `n` has no fixed value. */
  lemma VectorsPlain(fixed: map<nat, Option<Term>>, rep: Term -> Term, bvs: seq<Term>, av: ArgVectors, n: nat)
    requires n < |bvs| && VectorsUpTo(fixed, rep, bvs, av, n)
    requires !FixedAt(fixed, n)
    ensures VectorsUpTo(fixed, rep, bvs, ArgVectors(av.vectors[n := [bvs[n]]], av.aliasOf), n + 1)
  {
    AliasedBvsStep(fixed, rep, bvs, n);
  }

  /** Extending the processed range by position `n` adds `bvs[n]` only to the
      vector of its owner. */
  lemma AliasedBvsStep(fixed: map<nat, Option<Term>>, rep: Term -> Term, bvs: seq<Term>, n: nat)
    requires n < |bvs|
    ensures forall i: nat :: i < n ==>
              AliasedBvs(fixed, rep, bvs, i, n + 1)
                == AliasedBvs(fixed, rep, bvs, i, n)
                   + (if Aliased(fixed, rep, n) && Owner(fixed, rep, n) == i then [bvs[n]] else [])
    ensures AliasedBvs(fixed, rep, bvs, n, n + 1) == []
  {
  }

  // ---------------------------------------------------------------------
  // Enumerating lambda instantiations
  // ---------------------------------------------------------------------

  /** The matching context: for the `vi`-th higher-order variable, its
      variable number `varList[vi]` (an index into the match), its bound
      variable list `bvls[vi]` and its argument vectors. `addInst` is the
      instantiation attempt on the match's values. With `resetUnchanged`
      a combination that keeps every bound variable restores the original
      value; without it the previous attempt's value is kept, as written. */
  datatype HoMatch = HoMatch(
    varList: seq<nat>,
    bvls: seq<seq<Term>>,
    vectors: map<nat, ArgVectors>,
    addInst: seq<Term> -> bool,
    resetUnchanged: bool)

  /** The mutable part: the match values `m.d_vals` and `d_lchildren`. */
  datatype HoState = HoState(vals: seq<Term>, lchildren: map<nat, seq<Term>>)

  /** Outcome of an enumeration: whether an instantiation succeeded, the
      state afterwards and the match values of every attempt, in order. */
  datatype Attempts = Attempts(ok: bool, st: HoState, tried: seq<seq<Term>>)

  /** The choices at argument position `a` of the `vi`-th variable: the
      vector of the position it is aliased to, if any. */
  function RepIndex(av: ArgVectors, a: nat): nat {
    if a in av.aliasOf then av.aliasOf[a] else a
  }

  /** The well-formedness the enumeration relies on for variable `vi`,
      with its lambda children possibly changed in positions `1..a`. */
  ghost predicate VarShape(ctx: HoMatch, st: HoState, vi: nat) {
    && vi < |ctx.varList| && vi < |ctx.bvls|
    && var vnum := ctx.varList[vi];
    && vnum < |st.vals|
    && vnum in st.lchildren && |st.lchildren[vnum]| == |ctx.bvls[vi]| + 1
    && vnum in ctx.vectors
    && (forall a :: 0 <= a < |ctx.bvls[vi]| ==> RepIndex(ctx.vectors[vnum], a) in ctx.vectors[vnum].vectors)
  }

  ghost predicate VarReady(ctx: HoMatch, st: HoState, vi: nat) {
    VarShape(ctx, st, vi) && st.lchildren[ctx.varList[vi]][1..] == ctx.bvls[vi]
  }

  ghost predicate ReadyFrom(ctx: HoMatch, st: HoState, vi: nat) {
    && NoDuplicates(ctx.varList)
    && |ctx.bvls| == |ctx.varList|
    && forall j :: vi <= j < |ctx.varList| ==> VarReady(ctx, st, j)
  }

  /** Readiness of the later variables survives any change of the values
      and of the lambda children of one variable number `vnum` of an
      earlier variable. */
  lemma ReadyAfterUpdate(ctx: HoMatch, st: HoState, st1: HoState, vi: nat, vnum: nat, lch: seq<Term>)
    requires ReadyFrom(ctx, st, vi)
    requires 0 < vi <= |ctx.varList| && vnum == ctx.varList[vi - 1]
    requires |st1.vals| == |st.vals| && st1.lchildren == st.lchildren[vnum := lch]
    ensures ReadyFrom(ctx, st1, vi)
  {
    forall j | vi <= j < |ctx.varList|
      ensures VarReady(ctx, st1, j)
    {
      assert VarReady(ctx, st, j);
      assert ctx.varList[j] != vnum;
    }
  }

  /** Only the value of variable number `vnum` may differ. */
  ghost predicate SameExceptAt(s: seq<Term>, t: seq<Term>, vnum: nat) {
    |s| == |t| && forall x :: 0 <= x < |s| && x != vnum ==> s[x] == t[x]
  }

  lemma SameExceptTrans(s: seq<Term>, t: seq<Term>, u: seq<Term>, vnum: nat)
    requires SameExceptAt(s, t, vnum) && SameExceptAt(t, u, vnum)
    ensures SameExceptAt(s, u, vnum)
  {
  }

  /** First-success cut-off: every attempt but the last failed, and the
      enumeration succeeded exactly when the last attempt did. */
  ghost predicate CutOff(tried: seq<seq<Term>>, ok: bool, addInst: seq<Term> -> bool) {
    && (forall i :: 0 <= i < |tried| - 1 ==> !addInst(tried[i]))
    && (ok <==> |tried| > 0 && addInst(Last(tried)))
  }

  lemma CutOffConcat(xs: seq<seq<Term>>, ys: seq<seq<Term>>, ok: bool, addInst: seq<Term> -> bool)
    requires CutOff(xs, false, addInst) && CutOff(ys, ok, addInst)
    ensures CutOff(xs + ys, ok, addInst)
  {
    if |ys| == 0 {
      assert xs + ys == xs;
    }
  }

  /** The lambda built from the current lambda children. */
  function LambdaOf(lbvl: seq<Term>, lch: seq<Term>): Term
    requires |lch| > 0
  {
    Lambda(lbvl, ApplyUf(lch[0], lch[1..]))
  }

  /** `sendInstantiation(m, var_index)`: enumerate the lambdas of variable
      `vi` and of all later ones; at the end of the list make exactly one
      attempt. The variable's value is restored afterwards. */
  function SendInstantiation(ctx: HoMatch, vi: nat, st: HoState): (r: Attempts)
    requires vi <= |ctx.varList|
    requires ReadyFrom(ctx, st, vi)
    ensures r.st == st
    ensures CutOff(r.tried, r.ok, ctx.addInst)
    ensures vi == |ctx.varList| ==> r.tried == [st.vals] && r.ok == ctx.addInst(st.vals)
    decreases |ctx.varList| - vi, if vi < |ctx.bvls| then |ctx.bvls[vi]| + 2 else 0, 0
  {
    if vi == |ctx.varList| then
      Attempts(ctx.addInst(st.vals), st, [st.vals])
    else
      var vnum := ctx.varList[vi];
      assert VarReady(ctx, st, vi);
      var value := st.vals[vnum];
      ReadyAfterUpdate(ctx, st, st, vi + 1, vnum, st.lchildren[vnum]);
      var res := SendInstantiationArg(ctx, vi, 0, false, value, st);
      Attempts(res.ok, HoState(res.st.vals[vnum := value], res.st.lchildren), res.tried)
  }

  /** `sendInstantiationArg`: choose the argument at position `a` (and all
      later ones) of variable `vi`; once all are chosen, install the lambda
      when some argument differs from its bound variable and recurse to the
      next variable. */
  function SendInstantiationArg(ctx: HoMatch, vi: nat, a: nat, changed: bool, value: Term, st: HoState): (r: Attempts)
    requires ReadyFrom(ctx, st, vi + 1) && VarShape(ctx, st, vi)
    requires a <= |ctx.bvls[vi]|
    requires st.lchildren[ctx.varList[vi]][a + 1..] == ctx.bvls[vi][a..]
    ensures r.st.lchildren == st.lchildren
    ensures SameExceptAt(r.st.vals, st.vals, ctx.varList[vi])
    ensures CutOff(r.tried, r.ok, ctx.addInst)
    decreases |ctx.varList| - vi, |ctx.bvls[vi]| - a + 1, 0
  {
    var vnum := ctx.varList[vi];
    var lbvl := ctx.bvls[vi];
    if a == |lbvl| then
      var vals :=
        if changed then st.vals[vnum := LambdaOf(lbvl, st.lchildren[vnum])]
        else if ctx.resetUnchanged then st.vals[vnum := value]
        else st.vals;
      var st1 := HoState(vals, st.lchildren);
      ReadyAfterUpdate(ctx, st, st1, vi + 1, vnum, st.lchildren[vnum]);
      SendInstantiation(ctx, vi + 1, st1)
    else
      var choices := ctx.vectors[vnum].vectors[RepIndex(ctx.vectors[vnum], a)];
      var lch := st.lchildren[vnum];
      assert lch[a + 1] == lbvl[a] && lch[a + 2..] == lbvl[a + 1..];
      assert lch[a + 1 := lbvl[a]] == lch;
      assert st.lchildren[vnum := lch] == st.lchildren;
      TryChoices(ctx, vi, a, changed, value, choices, 0, st)
  }

  /** The loop over the choices at position `a`: set the lambda child,
      recurse, stop at the first success; finally restore the child to the
      bound variable. */
  function TryChoices(ctx: HoMatch, vi: nat, a: nat, changed: bool, value: Term,
                      choices: seq<Term>, i: nat, st: HoState): (r: Attempts)
    requires ReadyFrom(ctx, st, vi + 1) && VarShape(ctx, st, vi)
    requires a < |ctx.bvls[vi]| && i <= |choices|
    requires st.lchildren[ctx.varList[vi]][a + 2..] == ctx.bvls[vi][a + 1..]
    ensures var vnum := ctx.varList[vi];
            r.st.lchildren == st.lchildren[vnum := st.lchildren[vnum][a + 1 := ctx.bvls[vi][a]]]
    ensures SameExceptAt(r.st.vals, st.vals, ctx.varList[vi])
    ensures CutOff(r.tried, r.ok, ctx.addInst)
    decreases |ctx.varList| - vi, |ctx.bvls[vi]| - a, |choices| - i
  {
    var vnum := ctx.varList[vi];
    var prev := ctx.bvls[vi][a];
    var lch := st.lchildren[vnum];
    if i == |choices| then
      Attempts(false, HoState(st.vals, st.lchildren[vnum := lch[a + 1 := prev]]), [])
    else
      var st1 := HoState(st.vals, st.lchildren[vnum := lch[a + 1 := choices[i]]]);
      assert st1.lchildren[vnum][a + 2..] == ctx.bvls[vi][a + 1..];
      ReadyAfterUpdate(ctx, st, st1, vi + 1, vnum, lch[a + 1 := choices[i]]);
      var res := SendInstantiationArg(ctx, vi, a + 1, changed || prev != choices[i], value, st1);
      if res.ok then
        var lch' := res.st.lchildren[vnum];
        assert lch'[a + 1 := prev] == lch[a + 1 := prev];
        assert res.st.lchildren[vnum := lch[a + 1 := prev]] == st.lchildren[vnum := lch[a + 1 := prev]];
        Attempts(true, HoState(res.st.vals, res.st.lchildren[vnum := lch'[a + 1 := prev]]), res.tried)
      else
        ReadyAfterUpdate(ctx, st, res.st, vi + 1, vnum, lch[a + 1 := choices[i]]);
        var rest := TryChoices(ctx, vi, a, changed, value, choices, i + 1, res.st);
        assert res.st.lchildren[vnum][a + 1 := prev] == lch[a + 1 := prev];
        assert res.st.lchildren[vnum := lch[a + 1 := prev]] == st.lchildren[vnum := lch[a + 1 := prev]];
        CutOffConcat(res.tried, rest.tried, rest.ok, ctx.addInst);
        Attempts(rest.ok, rest.st, res.tried + rest.tried)
  }

  // ---------------------------------------------------------------------
  // The reference enumeration
  // ---------------------------------------------------------------------

  /** What the reference needs of the `vi`-th variable: a bound variable
      list and an argument-vector table with choices at every position. */
  ghost predicate VarCtx(ctx: HoMatch, vi: nat) {
    && vi < |ctx.varList| && vi < |ctx.bvls|
    && ctx.varList[vi] in ctx.vectors
    && forall p :: 0 <= p < |ctx.bvls[vi]| ==> RepIndex(ctx.vectors[ctx.varList[vi]], p) in ctx.vectors[ctx.varList[vi]].vectors
  }

  /** The same for every variable from `vi` on, over `n` match values. */
  ghost predicate CtxFrom(ctx: HoMatch, n: nat, vi: nat) {
    && |ctx.bvls| == |ctx.varList|
    && forall j :: vi <= j < |ctx.varList| ==> VarCtx(ctx, j) && ctx.varList[j] < n
  }

  lemma ReadyCtx(ctx: HoMatch, st: HoState, vi: nat)
    requires ReadyFrom(ctx, st, vi)
    ensures CtxFrom(ctx, |st.vals|, vi)
  {
    forall j | vi <= j < |ctx.varList|
      ensures VarCtx(ctx, j) && ctx.varList[j] < |st.vals|
    {
      assert VarReady(ctx, st, j);
    }
  }

  /** The choices at argument position `p` of the `vi`-th variable. */
  function ChoicesAt(ctx: HoMatch, vi: nat, p: nat): seq<Term>
    requires VarCtx(ctx, vi) && p < |ctx.bvls[vi]|
  {
    var av := ctx.vectors[ctx.varList[vi]];
    av.vectors[RepIndex(av, p)]
  }

  /** The lambda children of every combination of choices at the positions
      from `a` on, the slots before kept from `lch`, in lexicographic order
      (earlier positions vary slowest). */
  function Combos(ctx: HoMatch, vi: nat, a: nat, lch: seq<Term>): (r: seq<seq<Term>>)
    requires VarCtx(ctx, vi) && a <= |ctx.bvls[vi]| && |lch| == |ctx.bvls[vi]| + 1
    ensures forall k :: 0 <= k < |r| ==> |r[k]| == |lch|
    decreases |ctx.bvls[vi]| - a, 1, 0
  {
    if a == |ctx.bvls[vi]| then [lch]
    else CombosFrom(ctx, vi, a, lch, ChoicesAt(ctx, vi, a), 0)
  }

  /** The combinations taking `choices[i..]` at position `a`. */
  function CombosFrom(ctx: HoMatch, vi: nat, a: nat, lch: seq<Term>, choices: seq<Term>, i: nat): (r: seq<seq<Term>>)
    requires VarCtx(ctx, vi) && a < |ctx.bvls[vi]| && |lch| == |ctx.bvls[vi]| + 1 && i <= |choices|
    ensures forall k :: 0 <= k < |r| ==> |r[k]| == |lch|
    decreases |ctx.bvls[vi]| - a, 0, |choices| - i
  {
    if i == |choices| then []
    else Combos(ctx, vi, a + 1, lch[a + 1 := choices[i]]) + CombosFrom(ctx, vi, a, lch, choices, i + 1)
  }

  /** The combinations are exactly the child lists that keep `lch` up to
      slot `a` and take one of position `p`'s choices at every later slot
      `p + 1`: the Cartesian product of the choices. */
  lemma {:induction false} CombosAreProduct(ctx: HoMatch, vi: nat, a: nat, lch: seq<Term>, c: seq<Term>)
    requires VarCtx(ctx, vi) && a <= |ctx.bvls[vi]| && |lch| == |ctx.bvls[vi]| + 1
    ensures c in Combos(ctx, vi, a, lch) <==>
              && |c| == |lch| && c[..a + 1] == lch[..a + 1]
              && forall p :: a <= p < |ctx.bvls[vi]| ==> c[p + 1] in ChoicesAt(ctx, vi, p)
    decreases |ctx.bvls[vi]| - a, 1, 0
  {
    if a == |ctx.bvls[vi]| {
      if |c| == |lch| && c[..a + 1] == lch[..a + 1] {
        assert c == c[..a + 1] && lch == lch[..a + 1];
      }
    } else {
      CombosFromAreProduct(ctx, vi, a, lch, ChoicesAt(ctx, vi, a), 0, c);
      assert ChoicesAt(ctx, vi, a)[0..] == ChoicesAt(ctx, vi, a);
      if |c| == |lch| && c[..a + 1] == lch[..a + 1] {
        assert (forall p :: a <= p < |ctx.bvls[vi]| ==> c[p + 1] in ChoicesAt(ctx, vi, p))
               <==> c[a + 1] in ChoicesAt(ctx, vi, a)
                    && forall p :: a < p < |ctx.bvls[vi]| ==> c[p + 1] in ChoicesAt(ctx, vi, p);
      }
    }
  }

  lemma {:induction false} CombosFromAreProduct(ctx: HoMatch, vi: nat, a: nat, lch: seq<Term>, choices: seq<Term>,
                                                i: nat, c: seq<Term>)
    requires VarCtx(ctx, vi) && a < |ctx.bvls[vi]| && |lch| == |ctx.bvls[vi]| + 1 && i <= |choices|
    ensures c in CombosFrom(ctx, vi, a, lch, choices, i) <==>
              && |c| == |lch| && c[..a + 1] == lch[..a + 1] && c[a + 1] in choices[i..]
              && forall p :: a < p < |ctx.bvls[vi]| ==> c[p + 1] in ChoicesAt(ctx, vi, p)
    decreases |ctx.bvls[vi]| - a, 0, |choices| - i
  {
    if i < |choices| {
      var lch1 := lch[a + 1 := choices[i]];
      CombosAreProduct(ctx, vi, a + 1, lch1, c);
      CombosFromAreProduct(ctx, vi, a, lch, choices, i + 1, c);
      assert choices[i..] == [choices[i]] + choices[i + 1..];
      if |c| == |lch| {
        SnocEq(c[..a + 1], lch[..a + 1], c[a + 1], choices[i]);
        assert c[..a + 2] == c[..a + 1] + [c[a + 1]];
        assert lch1[..a + 2] == lch[..a + 1] + [choices[i]];
      }
    }
  }

  lemma SnocEq(s: seq<Term>, t: seq<Term>, x: Term, y: Term)
    requires |s| == |t|
    ensures s + [x] == t + [y] <==> s == t && x == y
  {
    if s + [x] == t + [y] {
      assert s == (s + [x])[..|s|] && t == (t + [y])[..|t|];
      assert x == (s + [x])[|s|] && y == (t + [y])[|t|];
    }
  }

  /** The value the match gets for one combination: its lambda when some
      child differs from its bound variable; otherwise the original value
      when unchanged combinations are reset, and the current one, as
      written. */
  function Installed(ctx: HoMatch, vi: nat, lch: seq<Term>, value: Term, cur: Term): Term
    requires vi < |ctx.bvls| && |lch| == |ctx.bvls[vi]| + 1
  {
    if lch[1..] != ctx.bvls[vi] then LambdaOf(ctx.bvls[vi], lch)
    else if ctx.resetUnchanged then value
    else cur
  }

  /** The value left after installing the combinations `cs` in turn. */
  function LastValue(ctx: HoMatch, vi: nat, cs: seq<seq<Term>>, value: Term, cur: Term): Term
    requires vi < |ctx.bvls| && forall k :: 0 <= k < |cs| ==> |cs[k]| == |ctx.bvls[vi]| + 1
    decreases |cs|
  {
    if |cs| == 0 then cur else LastValue(ctx, vi, cs[1..], value, Installed(ctx, vi, cs[0], value, cur))
  }

  /** Reference enumeration of `sendInstantiation(m, vi)`: the Cartesian
      product of the combinations of every variable from `vi` on, earlier
      variables varying slowest; each attempt is the match values with the
      installed value of every variable. A variable's combinations start
      from its current value followed by its bound variables. */
  function Product(ctx: HoMatch, vi: nat, vals: seq<Term>): seq<seq<Term>>
    requires vi <= |ctx.varList| && CtxFrom(ctx, |vals|, vi)
    decreases |ctx.varList| - vi, 1, 0
  {
    if vi == |ctx.varList| then [vals]
    else
      var vnum := ctx.varList[vi];
      ProductOver(ctx, vi, Combos(ctx, vi, 0, [vals[vnum]] + ctx.bvls[vi]), vals[vnum], vals)
  }

  /** The attempts for the combinations `cs` of the `vi`-th variable, each
      followed by those of the later variables. */
  function ProductOver(ctx: HoMatch, vi: nat, cs: seq<seq<Term>>, value: Term, vals: seq<Term>): seq<seq<Term>>
    requires vi < |ctx.varList| && CtxFrom(ctx, |vals|, vi)
    requires forall k :: 0 <= k < |cs| ==> |cs[k]| == |ctx.bvls[vi]| + 1
    decreases |ctx.varList| - vi, 0, |cs|
  {
    if |cs| == 0 then []
    else
      var vnum := ctx.varList[vi];
      var vals1 := vals[vnum := Installed(ctx, vi, cs[0], value, vals[vnum])];
      Product(ctx, vi + 1, vals1) + ProductOver(ctx, vi, cs[1..], value, vals1)
  }

  /** The attempts for two runs of combinations: the second starts from
      the value the first leaves. */
  lemma {:induction false} ProductOverConcat(ctx: HoMatch, vi: nat, xs: seq<seq<Term>>, ys: seq<seq<Term>>,
                                             value: Term, vals: seq<Term>)
    requires vi < |ctx.varList| && CtxFrom(ctx, |vals|, vi)
    requires forall k :: 0 <= k < |xs| ==> |xs[k]| == |ctx.bvls[vi]| + 1
    requires forall k :: 0 <= k < |ys| ==> |ys[k]| == |ctx.bvls[vi]| + 1
    ensures var vnum := ctx.varList[vi];
            var last := LastValue(ctx, vi, xs, value, vals[vnum]);
            && ProductOver(ctx, vi, xs + ys, value, vals)
               == ProductOver(ctx, vi, xs, value, vals) + ProductOver(ctx, vi, ys, value, vals[vnum := last])
            && LastValue(ctx, vi, xs + ys, value, vals[vnum]) == LastValue(ctx, vi, ys, value, last)
    decreases |xs|
  {
    var vnum := ctx.varList[vi];
    if |xs| == 0 {
      assert xs + ys == ys;
      assert vals[vnum := vals[vnum]] == vals;
    } else {
      var v := Installed(ctx, vi, xs[0], value, vals[vnum]);
      var vals1 := vals[vnum := v];
      assert (xs + ys)[0] == xs[0] && (xs + ys)[1..] == xs[1..] + ys;
      ProductOverConcat(ctx, vi, xs[1..], ys, value, vals1);
      var last := LastValue(ctx, vi, xs[1..], value, v);
      assert vals1[vnum := last] == vals[vnum := last];
    }
  }

  /** The combinations from position `a` on do not depend on the child at
      slot `a + 1`, which they set themselves. */
  lemma {:induction false} CombosFromIgnoresSlot(ctx: HoMatch, vi: nat, a: nat, lch: seq<Term>, lch': seq<Term>,
                                                 choices: seq<Term>, i: nat)
    requires VarCtx(ctx, vi) && a < |ctx.bvls[vi]| && |lch| == |ctx.bvls[vi]| + 1 && i <= |choices|
    requires |lch'| == |lch| && forall p :: 0 <= p < |lch| && p != a + 1 ==> lch[p] == lch'[p]
    ensures CombosFrom(ctx, vi, a, lch, choices, i) == CombosFrom(ctx, vi, a, lch', choices, i)
    decreases |choices| - i
  {
    if i < |choices| {
      assert lch[a + 1 := choices[i]] == lch'[a + 1 := choices[i]];
      CombosFromIgnoresSlot(ctx, vi, a, lch, lch', choices, i + 1);
    }
  }

  // ---------------------------------------------------------------------
  // The enumeration follows the reference
  // ---------------------------------------------------------------------

  /** The attempts made are the reference sequence, cut off after the
      first success. */
  ghost predicate FollowsReference(r: Attempts, e: seq<seq<Term>>) {
    (r.ok ==> r.tried <= e) && (!r.ok ==> r.tried == e)
  }

  /** Readiness from `vi` on, and the first lambda child of each of these
      variables is its current value (asserted by `sendInstantiation`). */
  ghost predicate HeadsFrom(ctx: HoMatch, st: HoState, vi: nat) {
    && ReadyFrom(ctx, st, vi)
    && forall j :: vi <= j < |ctx.varList| ==>
         VarReady(ctx, st, j) && st.lchildren[ctx.varList[j]][0] == st.vals[ctx.varList[j]]
  }

  /** The later variables are unaffected by a change to the value and the
      lambda children of the `vi`-th. */
  lemma HeadsAfterUpdate(ctx: HoMatch, st: HoState, st1: HoState, vi: nat, lch: seq<Term>)
    requires HeadsFrom(ctx, st, vi + 1) && vi < |ctx.varList|
    requires SameExceptAt(st1.vals, st.vals, ctx.varList[vi])
    requires st1.lchildren == st.lchildren[ctx.varList[vi] := lch]
    ensures HeadsFrom(ctx, st1, vi + 1)
  {
    ReadyAfterUpdate(ctx, st, st1, vi + 1, ctx.varList[vi], lch);
    forall j | vi + 1 <= j < |ctx.varList|
      ensures VarReady(ctx, st1, j) && st1.lchildren[ctx.varList[j]][0] == st1.vals[ctx.varList[j]]
    {
      assert VarReady(ctx, st, j);
      assert ctx.varList[j] != ctx.varList[vi];
    }
  }

  /** Whether a combination has changed a child, position by position. */
  lemma ChangedStep(lch: seq<Term>, bvl: seq<Term>, a: nat, c: Term, changed: bool)
    requires a < |bvl| && |lch| == |bvl| + 1
    requires changed <==> lch[1..a + 1] != bvl[..a]
    ensures (changed || bvl[a] != c) <==> lch[a + 1 := c][1..a + 2] != bvl[..a + 1]
  {
    var lch1 := lch[a + 1 := c];
    assert lch1[1..a + 2] == lch[1..a + 1] + [c];
    assert bvl[..a + 1] == bvl[..a] + [bvl[a]];
    SnocEq(lch[1..a + 1], bvl[..a], c, bvl[a]);
  }

  /** `sendInstantiation(m, vi)` makes the attempts of the reference
      enumeration, in order, up to and including the first success, for any
      number of higher-order variables and either treatment of unchanged
      combinations. */
  lemma {:induction false} SendInstantiationEnumerates(ctx: HoMatch, vi: nat, st: HoState)
    requires vi <= |ctx.varList| && HeadsFrom(ctx, st, vi)
    ensures CtxFrom(ctx, |st.vals|, vi)
    ensures FollowsReference(SendInstantiation(ctx, vi, st), Product(ctx, vi, st.vals))
    decreases |ctx.varList| - vi, if vi < |ctx.bvls| then |ctx.bvls[vi]| + 2 else 0, 0, 0, 0
  {
    ReadyCtx(ctx, st, vi);
    if vi < |ctx.varList| {
      var vnum := ctx.varList[vi];
      assert VarReady(ctx, st, vi);
      var lch := st.lchildren[vnum];
      assert lch == [lch[0]] + lch[1..];
      ArgEnumerates(ctx, vi, 0, false, st.vals[vnum], st);
    }
  }

  /** `sendInstantiationArg` from position `a`: the attempts of the
      combinations from `a` on, each followed by the later variables; after
      a failure the variable holds the value of the last combination. */
  lemma {:induction false} ArgEnumerates(ctx: HoMatch, vi: nat, a: nat, changed: bool, value: Term, st: HoState)
    requires HeadsFrom(ctx, st, vi + 1) && VarShape(ctx, st, vi)
    requires a <= |ctx.bvls[vi]|
    requires st.lchildren[ctx.varList[vi]][a + 1..] == ctx.bvls[vi][a..]
    requires changed <==> st.lchildren[ctx.varList[vi]][1..a + 1] != ctx.bvls[vi][..a]
    ensures VarCtx(ctx, vi) && CtxFrom(ctx, |st.vals|, vi)
    ensures var vnum := ctx.varList[vi];
            var cs := Combos(ctx, vi, a, st.lchildren[vnum]);
            var r := SendInstantiationArg(ctx, vi, a, changed, value, st);
            && FollowsReference(r, ProductOver(ctx, vi, cs, value, st.vals))
            && (!r.ok ==> r.st.vals[vnum] == LastValue(ctx, vi, cs, value, st.vals[vnum]))
    decreases |ctx.varList| - vi, |ctx.bvls[vi]| - a + 1, 0, 0, 0
  {
    ReadyCtx(ctx, st, vi + 1);
    var vnum := ctx.varList[vi];
    var lch := st.lchildren[vnum];
    if a == |ctx.bvls[vi]| {
      var v := Installed(ctx, vi, lch, value, st.vals[vnum]);
      assert lch[1..a + 1] == lch[1..] && ctx.bvls[vi][..a] == ctx.bvls[vi];
      assert st.vals[vnum := st.vals[vnum]] == st.vals;
      var st1 := HoState(st.vals[vnum := v], st.lchildren);
      assert st.lchildren[vnum := lch] == st.lchildren;
      HeadsAfterUpdate(ctx, st, st1, vi, lch);
      SendInstantiationEnumerates(ctx, vi + 1, st1);
      assert [lch][1..] == [];
    } else {
      assert lch[a + 1] == ctx.bvls[vi][a] && lch[a + 2..] == ctx.bvls[vi][a + 1..];
      assert lch[a + 1 := ctx.bvls[vi][a]] == lch;
      assert st.lchildren[vnum := lch] == st.lchildren;
      ChoicesEnumerate(ctx, vi, a, changed, value, ChoicesAt(ctx, vi, a), 0, st);
    }
  }

  lemma {:induction false} ChoicesEnumerate(ctx: HoMatch, vi: nat, a: nat, changed: bool, value: Term,
                                            choices: seq<Term>, i: nat, st: HoState)
    requires HeadsFrom(ctx, st, vi + 1) && VarShape(ctx, st, vi)
    requires a < |ctx.bvls[vi]| && i <= |choices|
    requires st.lchildren[ctx.varList[vi]][a + 2..] == ctx.bvls[vi][a + 1..]
    requires changed <==> st.lchildren[ctx.varList[vi]][1..a + 1] != ctx.bvls[vi][..a]
    ensures VarCtx(ctx, vi) && CtxFrom(ctx, |st.vals|, vi)
    ensures var vnum := ctx.varList[vi];
            var cs := CombosFrom(ctx, vi, a, st.lchildren[vnum], choices, i);
            var r := TryChoices(ctx, vi, a, changed, value, choices, i, st);
            && FollowsReference(r, ProductOver(ctx, vi, cs, value, st.vals))
            && (!r.ok ==> r.st.vals[vnum] == LastValue(ctx, vi, cs, value, st.vals[vnum]))
    decreases |ctx.varList| - vi, |ctx.bvls[vi]| - a, 1, |choices| - i, 2
  {
    ReadyCtx(ctx, st, vi + 1);
    if i < |choices| {
      ChoiceEnumerates(ctx, vi, a, changed, value, choices, i, st);
    }
  }

  /** One choice at position `a`: its attempts are those of its
      combinations, followed after a failure by the remaining choices,
      which start from the value the failed ones left. */
  lemma {:induction false} ChoiceEnumerates(ctx: HoMatch, vi: nat, a: nat, changed: bool, value: Term,
                                            choices: seq<Term>, i: nat, st: HoState)
    requires HeadsFrom(ctx, st, vi + 1) && VarShape(ctx, st, vi)
    requires a < |ctx.bvls[vi]| && i < |choices|
    requires st.lchildren[ctx.varList[vi]][a + 2..] == ctx.bvls[vi][a + 1..]
    requires changed <==> st.lchildren[ctx.varList[vi]][1..a + 1] != ctx.bvls[vi][..a]
    ensures VarCtx(ctx, vi) && CtxFrom(ctx, |st.vals|, vi)
    ensures var vnum := ctx.varList[vi];
            var cs := CombosFrom(ctx, vi, a, st.lchildren[vnum], choices, i);
            var r := TryChoices(ctx, vi, a, changed, value, choices, i, st);
            && FollowsReference(r, ProductOver(ctx, vi, cs, value, st.vals))
            && (!r.ok ==> r.st.vals[vnum] == LastValue(ctx, vi, cs, value, st.vals[vnum]))
    decreases |ctx.varList| - vi, |ctx.bvls[vi]| - a, 1, |choices| - i, 1
  {
    ReadyCtx(ctx, st, vi + 1);
    var vnum := ctx.varList[vi];
    var lch := st.lchildren[vnum];
    var lch1 := lch[a + 1 := choices[i]];
    var res, rest := TryChoicesUnfold(ctx, vi, a, changed, value, choices, i, st);
    ChoiceFirst(ctx, vi, a, changed, value, choices, i, st);
    var xs := Combos(ctx, vi, a + 1, lch1);
    var ys := CombosFrom(ctx, vi, a, lch, choices, i + 1);
    assert CombosFrom(ctx, vi, a, lch, choices, i) == xs + ys;
    ProductOverConcat(ctx, vi, xs, ys, value, st.vals);
    var last := LastValue(ctx, vi, xs, value, st.vals[vnum]);
    if !res.ok {
      assert lch1[1..a + 1] == lch[1..a + 1];
      RestEnumerates(ctx, vi, a, changed, value, choices, i + 1, res.st, lch);
    }
    FollowsConcat(TryChoices(ctx, vi, a, changed, value, choices, i, st), res, rest,
                  ProductOver(ctx, vi, xs, value, st.vals), ProductOver(ctx, vi, ys, value, st.vals[vnum := last]));
  }

  /** The attempts of choice `i` alone: those of its combinations; after a
      failure the variable holds the last combination's value and the later
      variables are still ready. */
  lemma {:induction false} ChoiceFirst(ctx: HoMatch, vi: nat, a: nat, changed: bool, value: Term,
                                       choices: seq<Term>, i: nat, st: HoState)
    requires HeadsFrom(ctx, st, vi + 1) && VarShape(ctx, st, vi)
    requires a < |ctx.bvls[vi]| && i < |choices|
    requires st.lchildren[ctx.varList[vi]][a + 2..] == ctx.bvls[vi][a + 1..]
    requires changed <==> st.lchildren[ctx.varList[vi]][1..a + 1] != ctx.bvls[vi][..a]
    ensures VarCtx(ctx, vi) && CtxFrom(ctx, |st.vals|, vi)
    ensures var vnum := ctx.varList[vi];
            var lch1 := st.lchildren[vnum][a + 1 := choices[i]];
            var st1 := HoState(st.vals, st.lchildren[vnum := lch1]);
            && ReadyFrom(ctx, st1, vi + 1) && VarShape(ctx, st1, vi)
            && st1.lchildren[vnum][a + 2..] == ctx.bvls[vi][a + 1..]
            && var xs := Combos(ctx, vi, a + 1, lch1);
               var res := SendInstantiationArg(ctx, vi, a + 1, changed || ctx.bvls[vi][a] != choices[i], value, st1);
               && FollowsReference(res, ProductOver(ctx, vi, xs, value, st.vals))
               && (!res.ok ==> res.st.vals == st.vals[vnum := LastValue(ctx, vi, xs, value, st.vals[vnum])])
               && (!res.ok ==> HeadsFrom(ctx, res.st, vi + 1))
    decreases |ctx.varList| - vi, |ctx.bvls[vi]| - a, 1, |choices| - i, 0
  {
    ReadyCtx(ctx, st, vi + 1);
    var vnum := ctx.varList[vi];
    var lch := st.lchildren[vnum];
    var lch1 := lch[a + 1 := choices[i]];
    var st1 := HoState(st.vals, st.lchildren[vnum := lch1]);
    assert st1.lchildren[vnum][a + 2..] == ctx.bvls[vi][a + 1..];
    HeadsAfterUpdate(ctx, st, st1, vi, lch1);
    ChangedStep(lch, ctx.bvls[vi], a, choices[i], changed);
    ArgEnumerates(ctx, vi, a + 1, changed || ctx.bvls[vi][a] != choices[i], value, st1);
    var res := SendInstantiationArg(ctx, vi, a + 1, changed || ctx.bvls[vi][a] != choices[i], value, st1);
    if !res.ok {
      HeadsAfterUpdate(ctx, st, res.st, vi, lch1);
    }
  }

  /** The remaining choices enumerate the same combinations whatever the
      child at slot `a + 1` was left at by the previous choice. */
  lemma {:induction false} RestEnumerates(ctx: HoMatch, vi: nat, a: nat, changed: bool, value: Term,
                                          choices: seq<Term>, i: nat, st: HoState, lch: seq<Term>)
    requires HeadsFrom(ctx, st, vi + 1) && VarShape(ctx, st, vi)
    requires a < |ctx.bvls[vi]| && i <= |choices|
    requires st.lchildren[ctx.varList[vi]][a + 2..] == ctx.bvls[vi][a + 1..]
    requires changed <==> st.lchildren[ctx.varList[vi]][1..a + 1] != ctx.bvls[vi][..a]
    requires |lch| == |st.lchildren[ctx.varList[vi]]|
    requires forall p :: 0 <= p < |lch| && p != a + 1 ==> lch[p] == st.lchildren[ctx.varList[vi]][p]
    ensures VarCtx(ctx, vi) && CtxFrom(ctx, |st.vals|, vi)
    ensures var vnum := ctx.varList[vi];
            var cs := CombosFrom(ctx, vi, a, lch, choices, i);
            var r := TryChoices(ctx, vi, a, changed, value, choices, i, st);
            && FollowsReference(r, ProductOver(ctx, vi, cs, value, st.vals))
            && (!r.ok ==> r.st.vals[vnum] == LastValue(ctx, vi, cs, value, st.vals[vnum]))
    decreases |ctx.varList| - vi, |ctx.bvls[vi]| - a, 1, |choices| - i, 3
  {
    ChoicesEnumerate(ctx, vi, a, changed, value, choices, i, st);
    CombosFromIgnoresSlot(ctx, vi, a, st.lchildren[ctx.varList[vi]], lch, choices, i);
  }

  /** Attempts of a first part followed, after its failure, by those of a
      second part follow the concatenation of the two references. */
  lemma FollowsConcat(r: Attempts, x: Attempts, y: Attempts, refA: seq<seq<Term>>, refB: seq<seq<Term>>)
    requires x.ok ==> r.ok && r.tried == x.tried
    requires !x.ok ==> r.ok == y.ok && r.tried == x.tried + y.tried
    requires FollowsReference(x, refA) && (!x.ok ==> FollowsReference(y, refB))
    ensures FollowsReference(r, refA + refB)
  {
    if x.ok {
      assert (refA + refB)[..|x.tried|] == refA[..|x.tried|];
    } else if y.ok {
      assert (refA + refB)[..|x.tried + y.tried|] == refA + refB[..|y.tried|];
    }
  }

  /** One step of the loop over the choices: the attempts of choice `i`
      followed, after a failure, by those of the remaining choices. */
  lemma TryChoicesUnfold(ctx: HoMatch, vi: nat, a: nat, changed: bool, value: Term,
                         choices: seq<Term>, i: nat, st: HoState)
    returns (res: Attempts, rest: Attempts)
    requires ReadyFrom(ctx, st, vi + 1) && VarShape(ctx, st, vi)
    requires a < |ctx.bvls[vi]| && i < |choices|
    requires st.lchildren[ctx.varList[vi]][a + 2..] == ctx.bvls[vi][a + 1..]
    ensures var vnum := ctx.varList[vi];
            var lch1 := st.lchildren[vnum][a + 1 := choices[i]];
            var st1 := HoState(st.vals, st.lchildren[vnum := lch1]);
            && ReadyFrom(ctx, st1, vi + 1) && VarShape(ctx, st1, vi)
            && st1.lchildren[vnum][a + 2..] == ctx.bvls[vi][a + 1..]
            && res == SendInstantiationArg(ctx, vi, a + 1, changed || ctx.bvls[vi][a] != choices[i], value, st1)
            && res.st.lchildren == st1.lchildren
    ensures !res.ok ==> ReadyFrom(ctx, res.st, vi + 1) && VarShape(ctx, res.st, vi)
    ensures !res.ok ==> res.st.lchildren[ctx.varList[vi]][a + 2..] == ctx.bvls[vi][a + 1..]
    ensures !res.ok ==> rest == TryChoices(ctx, vi, a, changed, value, choices, i + 1, res.st)
    ensures res.ok ==> TryChoices(ctx, vi, a, changed, value, choices, i, st).ok
    ensures res.ok ==> TryChoices(ctx, vi, a, changed, value, choices, i, st).tried == res.tried
    ensures !res.ok ==> TryChoices(ctx, vi, a, changed, value, choices, i, st).ok == rest.ok
    ensures !res.ok ==> TryChoices(ctx, vi, a, changed, value, choices, i, st).tried == res.tried + rest.tried
    ensures !res.ok ==> TryChoices(ctx, vi, a, changed, value, choices, i, st).st.vals == rest.st.vals
  {
    var vnum := ctx.varList[vi];
    var lch1 := st.lchildren[vnum][a + 1 := choices[i]];
    var st1 := HoState(st.vals, st.lchildren[vnum := lch1]);
    assert st1.lchildren[vnum][a + 2..] == ctx.bvls[vi][a + 1..];
    ReadyAfterUpdate(ctx, st, st1, vi + 1, vnum, lch1);
    res := SendInstantiationArg(ctx, vi, a + 1, changed || ctx.bvls[vi][a] != choices[i], value, st1);
    rest := res;
    if !res.ok {
      ReadyAfterUpdate(ctx, st, res.st, vi + 1, vnum, lch1);
      rest := TryChoices(ctx, vi, a, changed, value, choices, i + 1, res.st);
    }
  }

  /** A variable of `d_ho_var_list` with its variable number, the
      applications recorded for it (`d_ho_var_apps`) and its bound
      variables (`d_ho_var_bvs`). */
  datatype HoVar = HoVar(v: Term, vnum: nat, apps: seq<Term>, bvs: seq<Term>)

  /** Every argument position of a completed vector table has choices. */
  lemma ChoicesDefined(fixed: map<nat, Option<Term>>, rep: Term -> Term, bvs: seq<Term>, av: ArgVectors)
    requires VectorsUpTo(fixed, rep, bvs, av, |bvs|)
    ensures forall a :: 0 <= a < |bvs| ==> RepIndex(av, a) in av.vectors
  {
    forall a | 0 <= a < |bvs|
      ensures RepIndex(av, a) in av.vectors
    {
      if a in av.aliasOf {
        OwnerNotAliased(fixed, rep, a);
      }
    }
  }

  function VarNums(hoVars: seq<HoVar>): (r: seq<nat>)
    ensures |r| == |hoVars| && forall i :: 0 <= i < |hoVars| ==> r[i] == hoVars[i].vnum
  {
    seq(|hoVars|, i requires 0 <= i < |hoVars| => hoVars[i].vnum)
  }

  function BoundVarLists(hoVars: seq<HoVar>): (r: seq<seq<Term>>)
    ensures |r| == |hoVars| && forall i :: 0 <= i < |hoVars| ==> r[i] == hoVars[i].bvs
  {
    seq(|hoVars|, i requires 0 <= i < |hoVars| => hoVars[i].bvs)
  }

  /** `sendInstantiation(m)`. Without higher-order matching the match is
      sent once as it is. Otherwise each recorded application is
      instantiated by the match (`vars` are the instantiation constants,
      `m.d_vals` their values), its fixed arguments and argument vectors are
      computed, the lambda children start as the value followed by the
      bound variables, and the lambdas are enumerated; the match values are
      unchanged at the end. `ctx` is the matching context so built
      (`d_arg_vector`, `d_arg_to_arg_rep`); `resetUnchanged` chooses between
      the program as written (`false`) and the corrected restoration of
      unchanged combinations (`true`, see `OriginalValueCorrected`). */
  method SendInstantiationForMatch(hoMatching: bool, hoVars: seq<HoVar>, vars: seq<Term>, vals: seq<Term>,
                                   areEqual: (Term, Term) -> bool, rep: Term -> Term,
                                   addInst: seq<Term> -> bool, resetUnchanged: bool)
    returns (r: Attempts, ctx: HoMatch)
    requires |vars| == |vals|
    requires forall j :: 0 <= j < |hoVars| ==> hoVars[j].vnum < |vals|
    requires NoDuplicates(VarNums(hoVars))
    ensures !hoMatching ==> r.tried == [vals] && r.ok == addInst(vals)
    ensures hoMatching ==> r.st.vals == vals && CutOff(r.tried, r.ok, addInst)
    ensures hoMatching ==>
              && ctx.varList == VarNums(hoVars) && ctx.bvls == BoundVarLists(hoVars)
              && ctx.addInst == addInst && ctx.resetUnchanged == resetUnchanged
    ensures hoMatching ==> forall j :: 0 <= j < |hoVars| ==>
              && hoVars[j].vnum in ctx.vectors
              && VectorsUpTo(FixedVals(SubstituteEachAll(hoVars[j].apps, vars, vals), areEqual), rep,
                             hoVars[j].bvs, ctx.vectors[hoVars[j].vnum], |hoVars[j].bvs|)
    ensures CtxFrom(ctx, |vals|, 0)
    ensures FollowsReference(r, Product(ctx, 0, vals))
  {
    if !hoMatching {
      ctx := HoMatch([], [], map[], addInst, resetUnchanged);
      return Attempts(addInst(vals), HoState(vals, map[]), [vals]), ctx;
    }
    var lchildren, vectors := InitialChildren(hoVars, vars, vals, areEqual, rep);
    ctx := HoMatch(VarNums(hoVars), BoundVarLists(hoVars), vectors, addInst, resetUnchanged);
    var st := HoState(vals, lchildren);
    InitialHeads(hoVars, ctx, st);
    r := SendInstantiation(ctx, 0, st);
    SendInstantiationEnumerates(ctx, 0, st);
  }

  /** The set-up of variable `hv` in the lambda children and the argument
      vectors. */
  ghost predicate SetUp(hv: HoVar, vars: seq<Term>, vals: seq<Term>, areEqual: (Term, Term) -> bool,
                        rep: Term -> Term, lchildren: map<nat, seq<Term>>, vectors: map<nat, ArgVectors>)
    requires |vars| == |vals| && hv.vnum < |vals|
  {
    && hv.vnum in lchildren && lchildren[hv.vnum] == [vals[hv.vnum]] + hv.bvs
    && hv.vnum in vectors
    && VectorsUpTo(FixedVals(SubstituteEachAll(hv.apps, vars, vals), areEqual), rep,
                   hv.bvs, vectors[hv.vnum], |hv.bvs|)
    && forall a :: 0 <= a < |hv.bvs| ==> RepIndex(vectors[hv.vnum], a) in vectors[hv.vnum].vectors
  }

  /** Setting up another variable number leaves a set-up variable alone. */
  lemma SetUpKept(hv: HoVar, vars: seq<Term>, vals: seq<Term>, areEqual: (Term, Term) -> bool,
                  rep: Term -> Term, lchildren: map<nat, seq<Term>>, vectors: map<nat, ArgVectors>,
                  vnum: nat, lch: seq<Term>, av: ArgVectors)
    requires |vars| == |vals| && hv.vnum < |vals| && hv.vnum != vnum
    requires SetUp(hv, vars, vals, areEqual, rep, lchildren, vectors)
    ensures SetUp(hv, vars, vals, areEqual, rep, lchildren[vnum := lch], vectors[vnum := av])
  {
    assert lchildren[vnum := lch][hv.vnum] == lchildren[hv.vnum];
    assert vectors[vnum := av][hv.vnum] == vectors[hv.vnum];
  }

  /** The per-variable set-up of `sendInstantiation`: each recorded
      application instantiated by the match, its fixed arguments and
      argument vectors, and the lambda children (value, then bound
      variables). */
  method InitialChildren(hoVars: seq<HoVar>, vars: seq<Term>, vals: seq<Term>,
                         areEqual: (Term, Term) -> bool, rep: Term -> Term)
    returns (lchildren: map<nat, seq<Term>>, vectors: map<nat, ArgVectors>)
    requires |vars| == |vals|
    requires forall j :: 0 <= j < |hoVars| ==> hoVars[j].vnum < |vals|
    requires NoDuplicates(VarNums(hoVars))
    ensures forall k :: 0 <= k < |hoVars| ==> SetUp(hoVars[k], vars, vals, areEqual, rep, lchildren, vectors)
  {
    lchildren := map[];
    vectors := map[];
    var j := 0;
    while j < |hoVars|
      invariant 0 <= j <= |hoVars|
      invariant forall k :: 0 <= k < j ==> SetUp(hoVars[k], vars, vals, areEqual, rep, lchildren, vectors)
    {
      var hv := hoVars[j];
      var sapps := SubstituteEachAll(hv.apps, vars, vals);
      var fixed := FixedVals(sapps, areEqual);
      var av := ComputeArgVectors(fixed, hv.bvs, rep);
      ChoicesDefined(fixed, rep, hv.bvs, av);
      forall k | 0 <= k < j
        ensures SetUp(hoVars[k], vars, vals, areEqual, rep, lchildren[hv.vnum := [vals[hv.vnum]] + hv.bvs],
                      vectors[hv.vnum := av])
      {
        assert VarNums(hoVars)[k] != VarNums(hoVars)[j];
        SetUpKept(hoVars[k], vars, vals, areEqual, rep, lchildren, vectors, hv.vnum, [vals[hv.vnum]] + hv.bvs, av);
      }
      lchildren := lchildren[hv.vnum := [vals[hv.vnum]] + hv.bvs];
      vectors := vectors[hv.vnum := av];
      j := j + 1;
    }
  }

  /** After the set-up every variable's lambda children start with its
      value, followed by its bound variables. */
  lemma InitialHeads(hoVars: seq<HoVar>, ctx: HoMatch, st: HoState)
    requires ctx.varList == VarNums(hoVars) && ctx.bvls == BoundVarLists(hoVars)
    requires NoDuplicates(VarNums(hoVars))
    requires forall k :: 0 <= k < |hoVars| ==>
               hoVars[k].vnum < |st.vals| && hoVars[k].vnum in ctx.vectors
               && (forall a :: 0 <= a < |hoVars[k].bvs| ==> RepIndex(ctx.vectors[hoVars[k].vnum], a) in ctx.vectors[hoVars[k].vnum].vectors)
               && hoVars[k].vnum in st.lchildren && st.lchildren[hoVars[k].vnum] == [st.vals[hoVars[k].vnum]] + hoVars[k].bvs
    ensures HeadsFrom(ctx, st, 0)
  {
    forall k | 0 <= k < |hoVars|
      ensures VarReady(ctx, st, k) && st.lchildren[ctx.varList[k]][0] == st.vals[ctx.varList[k]]
    {
      assert ([st.vals[hoVars[k].vnum]] + hoVars[k].bvs)[1..] == hoVars[k].bvs;
    }
  }

  // ---------------------------------------------------------------------
  // The restoration defect, on one variable with one argument position
  // ---------------------------------------------------------------------

  /** One variable `f` (variable number 0) of one argument, applied only to
      the constant `c`: its choices are `c`, then the bound variable `x`,
      and no instantiation succeeds. */
  function OneArgMatch(resetUnchanged: bool): HoMatch {
    HoMatch([0], [[Var(1, BoundVar)]],
            map[0 := ArgVectors(map[0 := [Const(7), Var(1, BoundVar)]], map[])],
            (vals: seq<Term>) => false, resetUnchanged)
  }

  function OneArgState(): HoState {
    HoState([Var(0, InstConstant)], map[0 := [Var(0, InstConstant), Var(1, BoundVar)]])
  }

  /** Choosing the constant sends the lambda abstracting it. */
  lemma OneArgFirst(reset: bool)
    ensures var f, x, c := Var(0, InstConstant), Var(1, BoundVar), Const(7);
            var lam := Lambda([x], ApplyUf(f, [c]));
            var st1 := HoState([f], map[0 := [f, c]]);
            && ReadyFrom(OneArgMatch(reset), st1, 1) && VarShape(OneArgMatch(reset), st1, 0)
            && var r := SendInstantiationArg(OneArgMatch(reset), 0, 1, true, f, st1);
               r == Attempts(false, HoState([lam], st1.lchildren), [[lam]])
  {
    var f, x, c := Var(0, InstConstant), Var(1, BoundVar), Const(7);
    var st1 := HoState([f], map[0 := [f, c]]);
    assert st1.lchildren[0][1..] == [c];
    assert [f][0 := LambdaOf([x], [f, c])] == [Lambda([x], ApplyUf(f, [c]))];
  }

  /** Keeping the bound variable sends the original value when unchanged
      combinations are reset, and the stale lambda otherwise. */
  lemma OneArgSecond(reset: bool)
    ensures var f, x, c := Var(0, InstConstant), Var(1, BoundVar), Const(7);
            var lam := Lambda([x], ApplyUf(f, [c]));
            var st2 := HoState([lam], map[0 := [f, x]]);
            && ReadyFrom(OneArgMatch(reset), st2, 1) && VarShape(OneArgMatch(reset), st2, 0)
            && var r := SendInstantiationArg(OneArgMatch(reset), 0, 1, false, f, st2);
               !r.ok && r.tried == [if reset then [f] else [lam]]
  {
    var f, x, c := Var(0, InstConstant), Var(1, BoundVar), Const(7);
    var lam := Lambda([x], ApplyUf(f, [c]));
    assert [lam][0 := f] == [f];
  }

  /** The two attempts made on this match: first the lambda abstracting
      the argument `c`, then the combination keeping the bound variable. */
  lemma {:induction false} OneArgTrace(reset: bool)
    ensures var f := Var(0, InstConstant);
            var lam := Lambda([Var(1, BoundVar)], ApplyUf(f, [Const(7)]));
            SendInstantiation(OneArgMatch(reset), 0, OneArgState()).tried == [[lam], [if reset then f else lam]]
  {
    var ctx, st := OneArgMatch(reset), OneArgState();
    var f, x, c := Var(0, InstConstant), Var(1, BoundVar), Const(7);
    var choices := [c, x];
    assert VarReady(ctx, st, 0);
    assert ctx.vectors[0].vectors[RepIndex(ctx.vectors[0], 0)] == choices;
    assert st.lchildren[0][1 := c] == [f, c];
    var res1, rest1 := TryChoicesUnfold(ctx, 0, 0, false, f, choices, 0, st);
    OneArgFirst(reset);
    assert res1.st.lchildren[0][1 := x] == [f, x];
    var res2, rest2 := TryChoicesUnfold(ctx, 0, 0, false, f, choices, 1, res1.st);
    OneArgSecond(reset);
  }

  /** As written, the combination keeping the bound variable re-sends the
      lambda of the previous attempt instead of the original value. */
  lemma StaleLambdaAsWritten()
    ensures var lam := Lambda([Var(1, BoundVar)], ApplyUf(Var(0, InstConstant), [Const(7)]));
            SendInstantiation(OneArgMatch(false), 0, OneArgState()).tried == [[lam], [lam]]
  {
    OneArgTrace(false);
  }

  /** Corrected, the second attempt is the original match. */
  lemma OriginalValueCorrected()
    ensures var lam := Lambda([Var(1, BoundVar)], ApplyUf(Var(0, InstConstant), [Const(7)]));
            SendInstantiation(OneArgMatch(true), 0, OneArgState()).tried == [[lam], [Var(0, InstConstant)]]
  {
    OneArgTrace(true);
  }
}
