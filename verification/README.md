# Decision-tree unification, higher-order triggers and the UF rewriter of CVC4

This project is a Dafny model of three parts of the CVC4 SMT solver.

- **`SygusUnifRl`**, the refinement-lemma unification utility of the SyGuS
  solver. It does the following:
  - It purifies each refinement lemma. Every application of a
    function-to-synthesize that uses unification gets a fresh evaluation
    head, and the model-value guards record the current values.
  - It registers the if-then-else strategy points.
  - It records the evaluation heads of every strategy point's decision tree.
  - For each tree it builds a solution: an if-then-else over the condition
    values, which separate the heads by their model values. When no such
    solution exists it emits a separation lemma.
  - Inside a tree, `DecisionTreeInfo` does the work: the condition pool, the
    head value pools, the repair of a separation conflict by a common pool
    value, and the information-gain heuristic of the point separator.
- **`HigherOrderTrigger`**, the higher-order matching of E-matching
  triggers. It collects the applications of higher-order variables. For
  each match it computes the argument vectors. It then enumerates the lambda
  expressions that are equal to the matched value modulo the equalities of
  the current context, and sends each as an instantiation.
- **`TheoryUfRewriter`**, the rewriter of the theory of uninterpreted
  functions. It does the following:
  - it rewrites `EQUAL` to true or false, or to a normal orientation;
  - it applies beta-reduction to `HO_APPLY` of a lambda and to `APPLY_UF`
    of a lambda;
  - it converts between curried (`HO_APPLY` chains) and uncurried
    (`APPLY_UF`) applications.

Modules:

| module | file | models |
|---|---|---|
| `Terms` | terms.dfy | the solver's node type: the kinds the core inspects, substitution, children |
| `UfRewriter` | uf_rewriter.dfy | `TheoryUfRewriter` |
| `HoTrigger` | ho_trigger.dfy | `HigherOrderTrigger` |
| `OrderedPool` | ordered_pool.dfy | the `std::set<Node>` pools, ordered by node id |
| `PointSeparator` | point_separator.dfy | the lazy trie of a point separator, `extractSol`, `buildDt`, `evaluateCond` |
| `DecisionTree` | decision_tree.dfy | `DecisionTreeInfo`: `setConditions`, `pickCondition`, the head value pools |
| `SolutionBuilder` | build_sol.dfy | `DecisionTreeInfo::buildSol` |
| `Purify` | purify.dfy | `purifyLemma` |
| `UnifRegistry` | registration.dfy | the state of `SygusUnifRl` and the strategy registration |
| `SygusUnif` | sygus_unif.dfy | `addRefLemma`, `setConditions`, `constructSol`, `constructSolution` |

Each service of the rest of the solver becomes a function parameter. This
covers model values, the evaluation of conditions and of built-in terms,
the rewriter, the node order, the equality query, the repair of a
condition, and the explanation of an enumerator's value. The options become
the boolean fields of a record. A node's `std::set` is a duplicate-free
sequence ordered by the node-id oracle. Each `LazyTrieMulti` is modelled by
its contract:
- the class of a head is the list of inserted heads that agree with it on
  every installed condition, in insertion order;
- the representative of a class is its first member.

## Model

| member | source | states |
|---|---|---|
| UfRewriter.SimplifyEqual | src/theory/uf/theory_uf_rewriter.h:36-42 | An equality is decided exactly when its sides are identical or both are constants. It is true iff the sides are the same node. |
| UfRewriter.RewrittenArgs | src/theory/uf/theory_uf_rewriter.h:56-73 | One argument per lambda parameter, each the rewritten actual argument at the same position. |
| UfRewriter.BetaStep | src/theory/uf/theory_uf_rewriter.h:80-96 | Applying a lambda to one argument substitutes the argument for the first parameter. The result is a lambda over the remaining parameters, or the bare body when only one parameter remains. |
| UfRewriter.PostRewrite | src/theory/uf/theory_uf_rewriter.h:35-112 | Post-rewriting an equality gives true for identical sides and false for distinct constants. Otherwise it gives the same two sides with the smaller id on the left. `HO_APPLY` of a lambda is beta-reduced and rewritten again fully. With higher-order support, `APPLY_UF` of a non-lambda is curried into a chain that decomposes back to its operator and arguments. Any other node is left alone. |
| UfRewriter.PreRewrite | src/theory/uf/theory_uf_rewriter.h:114-138 | Pre-rewriting is always final. It decides the same equalities as post-rewriting and leaves every other equality unchanged. An `APPLY_UF` of a lambda whose body is one of its parameters becomes the rewritten argument at that parameter. Any other node is unchanged. |
| UfRewriter.PreRewriteBeta | src/theory/uf/theory_uf_rewriter.h:47-135 | Pre- and post-rewriting reduce an `APPLY_UF` of a lambda to the same node, and post-rewriting asks for a full rewrite of it. When the body mentions no parameter the result is the body itself. |
| Terms.SubstituteEachFreeOf | src/theory/uf/theory_uf_rewriter.h:124-134 | Substituting into a term that contains none of the replaced terms changes nothing. |
| UfRewriter.EqualRewriteSound | src/theory/uf/theory_uf_rewriter.h:36-121 | Under any valuation that keeps distinct constants distinct, both rewrites preserve the truth of an equality. |
| UfRewriter.PostRewriteEqualIdempotent | src/theory/uf/theory_uf_rewriter.h:36-46 | Post-rewriting an equality twice gives the same node as once. |
| UfRewriter.HoApplyChain | src/theory/uf/theory_uf_rewriter.h:144-151 | Currying an application gives a chain of `HO_APPLY` nodes whose outermost argument is the last argument. |
| UfRewriter.DecomposeHoApply | src/theory/uf/theory_uf_rewriter.h:164-175 | Decomposing never yields an `HO_APPLY` head. With `opInArgs` the head is prepended to the arguments. A non-`HO_APPLY` node decomposes to itself with no arguments. |
| UfRewriter.GetApplyUfForHoApply | src/theory/uf/theory_uf_rewriter.h:152-162 | Uncurrying succeeds exactly when the decomposed head is a standard `APPLY_UF` operator. It then gives the `APPLY_UF` of that head on the decomposed arguments. |
| UfRewriter.DecomposeChain | src/theory/uf/theory_uf_rewriter.h:144-175 | Decomposing a curried chain gives back its head and arguments. |
| UfRewriter.ChainOfDecompose | src/theory/uf/theory_uf_rewriter.h:144-175 | Re-currying the decomposition of any node gives the node back. |
| UfRewriter.CurryDecomposeRoundTrip | src/theory/uf/theory_uf_rewriter.h:144-175 | The decomposition of a curried `APPLY_UF` is its operator and arguments, with or without the operator in front. |
| UfRewriter.CurryUncurryRoundTrip | src/theory/uf/theory_uf_rewriter.h:144-178 | Currying then uncurrying an `APPLY_UF` gives it back exactly when its operator is a standard one. Otherwise uncurrying fails. |
| UfRewriter.UncurryCurryRoundTrip | src/theory/uf/theory_uf_rewriter.h:144-162 | Whenever uncurrying succeeds, currying the result gives the original chain. |
| HoTrigger.HoVarTypes | src/theory/quantifiers/ho_trigger.cpp:65-74 | The recorded higher-order types are exactly the types of the variables, each once. |
| HoTrigger.VisitGrows | src/theory/quantifiers/ho_trigger.cpp:86-107 | Visiting a node only adds. A recorded variable application is appended once under its head. A node that is not recorded leaves the applications unchanged. |
| HoTrigger.VisitedThenWalked | src/theory/quantifiers/ho_trigger.cpp:86-107 | After the walk, a recorded node is among the new applications of its head, and a node that is not recorded is among no head's new applications. |
| HoTrigger.Collect | src/theory/quantifiers/ho_trigger.cpp:86-107 | The walk visits the node and keeps the visited set and the applications only growing. A node already visited changes nothing. A variable application outside an `HO_APPLY` operator position is recorded. |
| HoTrigger.CollectHoVarApplyTerms | src/theory/quantifiers/ho_trigger.cpp:86-112 | Each list only grows, by distinct terms. Every added term is a variable application of that head, and the reference reachability (child `i` reached with `!withinApply \|\| i != 0`, no memo) reaches it with withinApply false. Every variable-application subterm that this reachability cannot reach with withinApply true is added. |
| HoTrigger.CollectCovers | src/theory/quantifiers/ho_trigger.cpp:86-107 | The memoized walk visits every subterm of the node, given that each previously visited node outside the pending ancestors was walked completely. |
| HoTrigger.CollectReached | src/theory/quantifiers/ho_trigger.cpp:86-107 | Against the reference reachability: every entry the walk adds is reached with withinApply false, and every newly visited variable application not reached with withinApply true is added. |
| HoTrigger.CollectWholeSound | src/theory/quantifiers/ho_trigger.cpp:109-112 | The entries added by one call are variable applications of their head, reached with withinApply false. |
| HoTrigger.CollectWholeComplete | src/theory/quantifiers/ho_trigger.cpp:109-112 | One call adds every variable-application subterm that cannot be reached with withinApply true. |
| HoTrigger.FirstWithArg | src/theory/quantifiers/ho_trigger.cpp:169-185 | The first application that has an argument at position `k`, or none when no application has one. |
| HoTrigger.FixedValsSpec | src/theory/quantifiers/ho_trigger.cpp:169-185 | Position `k` has a fixed value iff some application has an argument there. The value is that first argument when every later argument at `k` is equal to it, and null otherwise. |
| HoTrigger.FixedNullStaysNull | src/theory/quantifiers/ho_trigger.cpp:176-183 | Once a position is null it stays null, whatever applications follow. |
| HoTrigger.FirstWithRep | src/theory/quantifiers/ho_trigger.cpp:194-214 | The first fixed position below `n` whose value has representative `r`, or none. |
| HoTrigger.ComputeArgVectors | src/theory/quantifiers/ho_trigger.cpp:194-225 | Loop of the argument vectors, at every position:<br>- an irrelevant or null position gets just its bound variable;<br>- the first position of a representative gets the fixed value and then its variable;<br>- a later position of the same representative is aliased to the first, whose vector gets its variable. |
| HoTrigger.ArgVectorsStep | src/theory/quantifiers/ho_trigger.cpp:195-225 | One step of that loop: the representative table and the vectors after one more position. |
| HoTrigger.VectorsAfterSpec | src/theory/quantifiers/ho_trigger.cpp:194-225 | The representative table and vectors built up to position `n` meet the per-position description above. |
| HoTrigger.SendInstantiation | src/theory/quantifiers/ho_trigger.cpp:237-257 | The matched values are restored afterwards. Attempts stop at the first accepted instantiation. Past the last variable there is exactly one attempt, the current values. |
| HoTrigger.SendInstantiationEnumerates | src/theory/quantifiers/ho_trigger.cpp:237-291 | For any number of higher-order variables, from variable `vi` on, the attempts are exactly the reference `Product`, in order, cut off at the first success. `Product` enumerates each variable's argument combinations in the order of its argument vectors, nested with the later variables. It applies to the as-written and the corrected reset alike. |
| HoTrigger.CombosAreProduct | src/theory/quantifiers/ho_trigger.cpp:259-291 | The argument combinations from position `a` on are exactly the children that keep the first `a + 1` entries and take, at every later position `p`, one of the choices of `p`: the Cartesian product of the argument vectors. |
| HoTrigger.SendInstantiationArg | src/theory/quantifiers/ho_trigger.cpp:259-291 | The lambda children are restored, and only the current variable's value may change. Attempts stop at the first accepted one. |
| HoTrigger.TryChoices | src/theory/quantifiers/ho_trigger.cpp:278-289 | Trying the choices of an argument restores its slot and stops at the first choice that leads to an accepted instantiation. |
| HoTrigger.ArgEnumerates | src/theory/quantifiers/ho_trigger.cpp:259-291 | From argument position `a`, the attempts are the reference enumeration over the combinations from `a`, each followed by the later variables, cut off at the first success. After a failure the variable holds the value the last combination installed. |
| HoTrigger.ChoicesEnumerate | src/theory/quantifiers/ho_trigger.cpp:278-289 | The same for the choices from index `i` on of one argument. |
| HoTrigger.ChoiceEnumerates | src/theory/quantifiers/ho_trigger.cpp:278-289 | One choice contributes its combinations, and after a failure the remaining choices continue from the value they left. |
| HoTrigger.ChoiceFirst | src/theory/quantifiers/ho_trigger.cpp:280-287 | Choosing choice `i` at position `a` gives the attempts of the combinations with that choice, and keeps the later variables ready. |
| HoTrigger.ProductOverConcat | src/theory/quantifiers/ho_trigger.cpp:259-291 | The reference over two runs of combinations is the first run followed by the second, started from the value the first one left. |
| HoTrigger.TryChoicesUnfold | src/theory/quantifiers/ho_trigger.cpp:278-289 | Trying choice `i` and then the rest is the same as trying the choices from `i`. |
| HoTrigger.SendInstantiationForMatch | src/theory/quantifiers/ho_trigger.cpp:120-234 | Without higher-order matching the match is sent once as it is. With it, the context holds the variables, their bound variables and, per variable, the argument vectors of the match-instantiated applications. The values are restored, and the attempts are exactly the reference `Product` over the match, cut off at the first success. The reset choice is a parameter. |
| HoTrigger.InitialChildren | src/theory/quantifiers/ho_trigger.cpp:130-228 | Per variable, the lambda children start as the matched value followed by the bound variables, and the argument vectors are those of the fixed values of the applications with the match substituted. |
| HoTrigger.OneArgTrace | src/theory/quantifiers/ho_trigger.cpp:259-291 | On one variable applied to one constant, the first attempt is the lambda abstracting the constant. The second is that lambda as written, or the original value when corrected. |
| HoTrigger.StaleLambdaAsWritten | src/theory/quantifiers/ho_trigger.cpp:259-291 | As written, the attempts on that match are the same lambda twice. |
| HoTrigger.OriginalValueCorrected | src/theory/quantifiers/ho_trigger.cpp:259-291 | Corrected, the attempts are the lambda and then the original value. |
| OrderedPool.Insert | src/theory/quantifiers/sygus/sygus_unif_rl.cpp:1319 | Insertion keeps the set ordered and duplicate-free, adds exactly the element, and changes nothing when the element is already there. |
| OrderedPool.InsertAll | src/theory/quantifiers/sygus/sygus_unif_rl.cpp:542 | The set afterwards holds exactly the old elements and the inserted ones, still ordered. |
| OrderedPool.Intersect | src/theory/quantifiers/sygus/sygus_unif_rl.cpp:1333-1337 | The intersection holds exactly the elements in both sets. |
| OrderedPool.IntersectOrdered | src/theory/quantifiers/sygus/sygus_unif_rl.cpp:1333-1337 | The intersection of an ordered set with any set is ordered. |
| OrderedPool.FirstIsLeast | src/theory/quantifiers/sygus/sygus_unif_rl.cpp:1363 | The first element of an ordered set has the least id and is not repeated. |
| PointSeparator.Members | src/theory/quantifiers/sygus/sygus_unif_rl.cpp:694-703 | The class of a head holds exactly the inserted heads that agree with it on every installed condition. |
| PointSeparator.Add | src/theory/quantifiers/sygus/sygus_unif_rl.cpp:694 | Adding a head appends it to its class. The returned representative is the first of that class. It is the head itself exactly when no earlier head is in its class. |
| PointSeparator.ClassAgreeing | src/theory/quantifiers/sygus/sygus_unif_rl.cpp:694 | Heads that agree on the installed conditions have the same class. |
| PointSeparator.AddClassifier | src/theory/quantifiers/sygus/sygus_unif_rl.cpp:773 | A classifier appends one condition and keeps the heads. |
| PointSeparator.ClassifierSplits | src/theory/quantifiers/sygus/sygus_unif_rl.cpp:771-790 | After a new classifier, the class of a head is its old class filtered by the head's value on the new condition, in order. |
| PointSeparator.RepSurvivesClassifier | src/theory/quantifiers/sygus/sygus_unif_rl.cpp:785-787 | A representative stays a representative when a classifier is added. |
| PointSeparator.EvaluateCond | src/theory/quantifiers/sygus/sygus_unif_rl.cpp:1044-1059 | The good side holds exactly the points where the condition holds, and the bad side the others. |
| PointSeparator.EvaluateCondPartition | src/theory/quantifiers/sygus/sygus_unif_rl.cpp:1044-1059 | Together the two sides are a permutation of the points. |
| PointSeparator.ExtractSound | src/theory/quantifiers/sygus/sygus_unif_rl.cpp:849-933 | Extraction from a subtrie gives, at each point, the value of that point, provided the conditions separate the heads. |
| PointSeparator.ExtractSolSound | src/theory/quantifiers/sygus/sygus_unif_rl.cpp:849-933 | The extracted if-then-else takes, at every head's point, the value kept for that head, provided the conditions separate the heads. |
| PointSeparator.PickBest | src/theory/quantifiers/sygus/sygus_unif_rl.cpp:1002-1027 | The picked index has the largest gain and is the first with it. The incoming best is kept when nothing beats it. |
| PointSeparator.BuildDtSeparates | src/theory/quantifiers/sygus/sygus_unif_rl.cpp:967-1041 | The conditions that `buildDt` picks come from the candidates and separate the points by their values. |
| PointSeparator.RecomputeSolHeuristically | src/theory/quantifiers/sygus/sygus_unif_rl.cpp:935-965 | With no previous condition nothing is recomputed. Otherwise the new conditions are non-empty, separate the heads, and come from the pool or are the previous last condition. |
| DecisionTree.SetConditions | src/theory/quantifiers/sygus/sygus_unif_rl.cpp:515-543 | Installs the guard, the enumerators and the conditions. The condition pool gains exactly the new conditions and stays ordered, or is untouched when neither pool option is on. |
| DecisionTree.FirstSeparating | src/theory/quantifiers/sygus/sygus_unif_rl.cpp:1242-1281 | The first pool condition from `i` on that separates the two heads, or none when no such condition exists. |
| DecisionTree.PickConditionFromPool | src/theory/quantifiers/sygus/sygus_unif_rl.cpp:1242-1281 | Succeeds iff some pool condition separates the heads, and installs the first such one in slot `c`. On failure the slot keeps the last pool value tried. Other slots are unchanged. |
| DecisionTree.PickCondition | src/theory/quantifiers/sygus/sygus_unif_rl.cpp:1194-1240 | Succeeds iff there is an enumerator for slot `c` or, with the pool, some pool condition separates the heads. An enumerated condition is explained and replaced by its repair when the repair separates. The backtrack point is set once, at the first use of the pool. |
| DecisionTree.AddToPool | src/theory/quantifiers/sygus/sygus_unif_rl.cpp:1319 | The pool of head `h` for result `k` gains exactly `v`, and every pool stays ordered. |
| DecisionTree.AddToPools | src/theory/quantifiers/sygus/sygus_unif_rl.cpp:1303-1320 | Each head's pool, for the result the value has at that head's point, gains the value, and nothing else changes. |
| DecisionTree.AddHeadValuePool | src/theory/quantifiers/sygus/sygus_unif_rl.cpp:1283-1321 | Without the value pool nothing changes. With it:<br>- the head's current evaluation is recorded;<br>- a new value joins the value set and the pool of every head under its result there;<br>- a known value leaves the pools unchanged;<br>- pools only grow and stay sound. |
| DecisionTree.EmitUnfoldLemmas | src/theory/quantifiers/sygus/sygus_unif_rl.cpp:1392-1416 | Each unfolding lemma not sent before is sent exactly once, and recorded as sent. |
| DecisionTree.MakeEvalExp | src/theory/quantifiers/sygus/sygus_unif_rl.cpp:1366-1418 | The literal is the (dis)equality of the two heads' evaluations at the point. For an equality, the unfolding lemmas of the second head's pool are sent once. |
| DecisionTree.MergeScan | src/theory/quantifiers/sygus/sygus_unif_rl.cpp:1329-1354 | The scan either keeps exactly the values common to the remaining heads' pools, or stops at a head where no value survives. |
| DecisionTree.MergeHeadValuePools | src/theory/quantifiers/sygus/sygus_unif_rl.cpp:1323-1364 | A value is returned iff some value is in the pool of the head and of every class member. It is the common value of least id, and the explanation is the equality with the first member. Otherwise the explanation is the disequality with the member where the intersection emptied. |
| DecisionTree.MergeScanOrdered | src/theory/quantifiers/sygus/sygus_unif_rl.cpp:1329-1343 | The common values come out ordered. |
| SolutionBuilder.AddHead | src/theory/quantifiers/sygus/sygus_unif_rl.cpp:676-725 | Adding the next head keeps the invariant of the loop:<br>- values are model values or pool-equivalent to them;<br>- without the value pool, every explanation literal is an equality of heads with equal model values, a disequality of heads with different ones, the guard, or the explanation of an enumerated condition value;<br>- the installed conditions separate the heads unless a conflict is pending. |
| SolutionBuilder.ExplainEqual | src/theory/quantifiers/sygus/sygus_unif_rl.cpp:703-723 | A head joining a class of its own value adds its equality explanation and keeps the invariant. |
| SolutionBuilder.ExplainConflict | src/theory/quantifiers/sygus/sygus_unif_rl.cpp:726-754 | Explaining a conflict either merges the class onto a common value, which resolves the conflict, or leaves the conflict pending with the same measure. |
| SolutionBuilder.Merge | src/theory/quantifiers/sygus/sygus_unif_rl.cpp:732-754 | Giving the class the common pool value resolves the conflict and keeps the values faithful. |
| SolutionBuilder.Classify | src/theory/quantifiers/sygus/sygus_unif_rl.cpp:755-828 | Picking and installing a condition either ends in a final conflict or strictly shrinks the conflicting class. |
| SolutionBuilder.Install | src/theory/quantifiers/sygus/sygus_unif_rl.cpp:770-828 | Installing the picked condition has three outcomes:<br>- the head becomes a representative and the conflict is resolved;<br>- the head is not separated from the representative and the conflict is final;<br>- otherwise a new representative takes over a smaller class. |
| SolutionBuilder.InstallSplit | src/theory/quantifiers/sygus/sygus_unif_rl.cpp:800-828 | When the condition splits the head from the representative but not from the whole class, the new representative from the previous class keeps the invariant, with a smaller class. |
| SolutionBuilder.Resolve | src/theory/quantifiers/sygus/sygus_unif_rl.cpp:726-828 | One round of conflict resolution keeps the invariant and ends in a final conflict or a smaller measure. |
| SolutionBuilder.Construct | src/theory/quantifiers/sygus/sygus_unif_rl.cpp:672-829 | The loop of `buildSol` terminates. Without a conflict, every head is added, the installed conditions separate the heads by their values, and each value is faithful. With a conflict, the explanation is non-empty. |
| SolutionBuilder.Kept | src/theory/quantifiers/sygus/sygus_unif_rl.cpp:830-838 | The kept explanation is a non-empty prefix. It is the whole explanation unless the condition pool was used. |
| SolutionBuilder.SeparationLemmaRefutes | src/theory/quantifiers/sygus/sygus_unif_rl.cpp:839-842 | Like `negate()`, the separation lemma strips a leading negation instead of adding a second one. It holds exactly when some literal of the explanation is false. |
| SolutionBuilder.ExtractSol | src/theory/quantifiers/sygus/sygus_unif_rl.cpp:849-933 | The solution takes at each head's point the value kept for the head. With the heuristic it uses non-empty conditions from the pool or the last condition. Without it, the conditions are kept. |
| SolutionBuilder.ModelSeparatedStep | src/theory/quantifiers/sygus/sygus_unif_rl.cpp:594-611 | Adding a head breaks separation by model values exactly when its representative is another head with a different model value. |
| SolutionBuilder.AddHeadIndependent | src/theory/quantifiers/sygus/sygus_unif_rl.cpp:590-611 | One head of the independent path reports a conflict iff separation by model values breaks. |
| SolutionBuilder.AddHeadsIndependent | src/theory/quantifiers/sygus/sygus_unif_rl.cpp:590-611 | The head loop of the independent path succeeds iff the pool conditions separate all heads by model value. |
| SolutionBuilder.BuildSolIndependent | src/theory/quantifiers/sygus/sygus_unif_rl.cpp:579-614 | With independent conditions, the pool becomes the conditions. The outcome is inseparable exactly when the pool does not separate the heads by model value. A solution matches each head's model value at its point. |
| SolutionBuilder.Finish | src/theory/quantifiers/sygus/sygus_unif_rl.cpp:830-846 | A conflict emits the separation lemma of the kept explanation. Without the value pool, each kept literal is a head (dis)equality that agrees with the model values, the guard, or an enumerator explanation. Otherwise the extracted solution matches the kept values. |
| SolutionBuilder.BuildSol | src/theory/quantifiers/sygus/sygus_unif_rl.cpp:551-847 | A templated tree gives no solution. Inseparability occurs only on the independent path. A solution matches, at every head's point, a value that evaluates like the head's model value there, and that is its model value without the value pool. A conflict appends the separation lemma of a non-empty explanation. Without the value pool, each literal is a head (dis)equality that agrees with the model values, the guard, or an enumerator explanation. |
| Purify.Register | src/theory/quantifiers/sygus/sygus_unif_rl.cpp:164-210 | An application already purified keeps its purified form. A new one gets the next numbered head of its candidate, mapped to its arguments. Other candidates' heads are unchanged, and the state stays well formed. |
| Purify.RegisterKeeps | src/theory/quantifiers/sygus/sygus_unif_rl.cpp:171-200 | Registering a fresh head keeps the head numbering, the purification map and the point map consistent. |
| Purify.PurifiedKept | src/theory/quantifiers/sygus/sygus_unif_rl.cpp:181-200 | Existing purifications and points are kept, and every new one names a head of its candidate. |
| Purify.FreshHead | src/theory/quantifiers/sygus/sygus_unif_rl.cpp:173-177 | The next numbered head of a candidate is new. |
| Purify.PurifyLemma | src/theory/quantifiers/sygus/sygus_unif_rl.cpp:68-228 | Purification is memoized per (ensureConst, node). A nested unification application whose solution is not built is the failed hard assertion. Under ensureConst an application becomes its rewritten model value, and a guard "value differs from the purified application" is pushed. |
| Purify.PurifyArgs | src/theory/quantifiers/sygus/sygus_unif_rl.cpp:121-137 | One purified child per child, except that the function of an application is kept. |
| Purify.Rebuild | src/theory/quantifiers/sygus/sygus_unif_rl.cpp:138-227 | The rebuilt node is cached. Under ensureConst an application yields its model value with a new guard. |
| Purify.RebuildApp | src/theory/quantifiers/sygus/sygus_unif_rl.cpp:164-227 | An application is purified through its head. Under ensureConst it is replaced by its rewritten model value, and the guard is appended. |
| UnifRegistry.RegisterConditionalEnumerator | src/theory/quantifiers/sygus/sygus_unif_rl.cpp:473-498 | A strategy point gets at most one decision tree, fresh with the given condition enumerator. The candidate becomes a unification candidate. A condition enumerator seen for the first time is appended to the list of all condition enumerators and to the candidate's list, and starts an empty point list. A known one leaves both lists unchanged. Either way the point is appended to the enumerator's point list, and no other candidate or enumerator list changes. The registry stays consistent: condition enumerators are distinct with one owner, and a point is listed under an enumerator iff its tree uses it. |
| UnifRegistry.RegisterKeepsRegistry | src/theory/quantifiers/sygus/sygus_unif_rl.cpp:473-498 | Adding one tree, and possibly one new condition enumerator, keeps the registry consistent. |
| UnifRegistry.StratptsKept | src/theory/quantifiers/sygus/sygus_unif_rl.cpp:480-496 | Listing the new point under its enumerator keeps each point listed exactly under its tree's enumerator, once. |
| UnifRegistry.AcceptedFrom | src/theory/quantifiers/sygus/sygus_unif_rl.cpp:430-468 | Acceptance from index `j` splits into index `j` and the rest, and so does the set of rejected indices. |
| UnifRegistry.RegisterStrategies | src/theory/quantifiers/sygus/sygus_unif_rl.cpp:430-468 | Over the strategies from `j`, the enumerator is pushed iff some strategy is accepted, and then it has a tree. Exactly the rejected indices become unused strategies of this enumerator, and no other enumerator changes. |
| UnifRegistry.RegisterStrategyNode | src/theory/quantifiers/sygus/sygus_unif_rl.cpp:417-471 | Each (enumerator, role) pair is processed once. The enumerator is pushed iff one of its strategies is an if-then-else over itself. The other strategies become unused. |
| UnifRegistry.RegisterStrategy | src/theory/quantifiers/sygus/sygus_unif_rl.cpp:400-415 | Registering a candidate processes its root enumerator in the equal role, keeping the registry consistent and every earlier tree. |
| SygusUnif.GuardedLemma | src/theory/quantifiers/sygus/sygus_unif_rl.cpp:246-250 | With guards, the lemma is a disjunction containing the purified lemma. |
| SygusUnif.GuardedLemmaMeaning | src/theory/quantifiers/sygus/sygus_unif_rl.cpp:244-251 | When every model guard is false, the guarded lemma holds iff the purified lemma holds. |
| SygusUnif.GuardSuffices | src/theory/quantifiers/sygus/sygus_unif_rl.cpp:244-251 | Any true guard makes the guarded lemma hold. |
| SygusUnif.NewHeads | src/theory/quantifiers/sygus/sygus_unif_rl.cpp:255-266 | The new heads of a candidate are those after its previous count. |
| SygusUnif.NewHeadsPushed | src/theory/quantifiers/sygus/sygus_unif_rl.cpp:255-283 | Every new head is pushed into the tree of every strategy point of every condition enumerator of its candidate, and no other tree changes. |
| SygusUnif.AddRefLemma | src/theory/quantifiers/sygus/sygus_unif_rl.cpp:230-286 | Fails exactly when purification fails. Otherwise the purified lemma, its guards and the new heads are those of `PurifyLemma`. The heads only grow, the registry stays consistent, and the sent lemma is the rewritten guarded purified lemma. |
| SygusUnif.AddRefLemmaHandsOut | src/theory/quantifiers/sygus/sygus_unif_rl.cpp:254-283 | The caller's map gains exactly the new heads of each candidate, and the trees receive them as above. |
| SygusUnif.AddRefLemmaKeepsOwned | src/theory/quantifiers/sygus/sygus_unif_rl.cpp:254-283 | The heads of each tree remain distinct heads of the candidate owning its condition enumerator. |
| SygusUnif.RegistryKept | src/theory/quantifiers/sygus/sygus_unif_rl.cpp:230-286 | Changing only heads and tree contents keeps the registry consistent. |
| SygusUnif.SetTreeConditions | src/theory/quantifiers/sygus/sygus_unif_rl.cpp:367-376 | Only the tree of `e` changes. It gets the guard, enumerators and conditions, keeps its heads, and its pool gains only the new conditions. |
| SygusUnif.ConstructSol | src/theory/quantifiers/sygus/sygus_unif_rl.cpp:319-353 | Builds a solution as follows:<br>- a missing tree gives none;<br>- with no heads the solution is the model value;<br>- otherwise the solution matches each head's point;<br>- a failure without the relaxations sends a separation lemma of a non-empty explanation;<br>- only the tree of `e` changes. |
| SygusUnif.ConstructOne | src/theory/quantifiers/sygus/sygus_unif_rl.cpp:296-311 | A non-unification candidate takes its model value. A unification candidate's solution is recorded and fits its tree. |
| SygusUnif.ConstructSolution | src/theory/quantifiers/sygus/sygus_unif_rl.cpp:290-317 | Succeeds iff one solution is pushed per candidate, and each fits its candidate. Recorded solutions are old or fit. Only trees and solutions change. |

## Left out

- `LazyTrieMulti` is not part of this model. The trie is modelled by its contract: classes are the inserted heads that agree on the installed conditions, in insertion order, with the first one as representative.
- `getEntropy` and the information gain of `buildDt` are floating point. They are an oracle `gain`; the model keeps the choice of the first index of strictly largest gain.
- These services of the rest of the solver are function parameters:
  - model values, the evaluation of conditions and of built-in terms, and unfolding;
  - the rewriter and the node-id order;
  - the equality query's `areEqual` and `getRepresentative`;
  - `repairConditionToSeparate`, the explanation of an enumerator's value, and the strategy of an enumerator's type;
  - `addInstantiation`.
- Tracing, printing and the debug `Assert`s are left out. An `Assert` becomes a requires only where it guards a lookup or an index.
- Templated conditions (`d_template`) are not supported by the source's `buildSol`. They are modelled as the `Templated` outcome only.
- `d_conds.back()` of an empty condition vector in `recomputeSolHeuristically` is modelled as no result.
- `initializeCandidate` and `notifyEnumeration` are left out: the first is the caller's setup, and the second is an unreachable assertion. So are the accessors `getEvalPointHeads`, `getConditionForEvaluationPoint`, `setEntailed` and `getStrategyIndex`.
- In `HigherOrderTrigger`, `addHoTypeMatchPredicateLemmas` and `addInstantiations` are left out. They hand terms to the quantifier engine.
- PointSeparator.BuildDt: with no conditions and points not yet classified, the model returns no tree. The source would read `conds[0]` of an empty vector (sygus_unif_rl.cpp lines 1003 and 1034).
- HoTrigger.CollectHoVarApplyTerms: the visited set ignores `withinApply`. So a variable application that the walk can reach with `withinApply` both true and false is added only if it is first met with false. The contract promises addition only for applications that cannot be reached with true.
- SolutionBuilder.AddHead: the explanation literals are described only without the value pool. The guard and the enumerator explanations are described by their shape, not shown to hold: the source explains the repaired condition value, and the model has no valuation of those literals.
- SolutionBuilder.Finish: the same limit applies to the literals of the emitted separation lemma.
- SolutionBuilder.BuildSol: the same limit applies to the literals of the separation lemma it appends.
- SygusUnif.ConstructSol: the enumerator-role check of `constructSol` is left out, and its default-inserted empty head list is not modelled.
- SygusUnif.ConstructSol: with the return-value pool, the solution is stated to fit each head only up to the evaluation at the head's point (`Fits`). The value actually kept is a pool value, not the model value.
- SygusUnif.AddRefLemma: a candidate without a decision tree is excluded by the registry invariant rather than modelled. The source would create an empty entry with its `operator[]`.
- SygusUnif.ConstructSolution: the root enumerator of each candidate is a function `root`, assumed distinct per candidate. Every tree is assumed ready for `buildSol`, because `buildSol` is not proved to keep that property across candidates.
- UfRewriter.PostRewrite: the contract does not characterise the `APPLY_UF`-of-a-lambda case beyond the arguments it binds (`RewrittenArgs`). Its body uses a one-pass simultaneous substitution of the rewritten arguments. Re-applying the `SubstitutionMap` to the substituted values is left out, and the recursive rewriter is a parameter.

## Findings

| source | as written | input that shows it | evidently intended | confidence | as-written member | corrected member |
|---|---|---|---|---|---|---|
| src/theory/quantifiers/ho_trigger.cpp:259-291 | The value is set to the new lambda only when some argument changed. A later combination in which every argument is its own bound variable does not reset it, so it re-sends the lambda of the previous combination. The reset happens only after the whole enumeration, at line 253. | One higher-order variable `f` applied to one constant `c`, with argument choices `[c, x]`: both attempts are the lambda that abstracts `c`. | The unchanged combination sends the original matched value of `f`. The model keeps both behaviours behind the flag `resetUnchanged`: `false` is the code as written, `true` the correction. | not executed | HoTrigger.StaleLambdaAsWritten | HoTrigger.OriginalValueCorrected |
