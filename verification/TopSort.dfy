/** Topological sorting of (parent, child) pairs: bindings/python/topsort.py. */
module TopSort {
  import opened Sequences
  import opened Digraph

  datatype SortResult<T> =
    | Sorted(answer: seq<T>)
    | CycleError(answer: seq<T>, numParents: map<T, int>, children: Graph<T>)

  function PairEdges<T(==)>(pairs: seq<(T, T)>): Edges<T> {
    set e | e in pairs
  }

  function Elements<T(==)>(pairs: seq<(T, T)>): set<T> {
    Parents(pairs) + set e | e in pairs :: e.1
  }

  /** The children of p in pair order, repeats kept. */
  function ChildrenOf<T(==)>(pairs: seq<(T, T)>, p: T): seq<T> {
    if pairs == [] then []
    else
      var e := pairs[|pairs| - 1];
      ChildrenOf(pairs[..|pairs| - 1], p) + if e.0 == p then [e.1] else []
  }

  function Parents<T(==)>(pairs: seq<(T, T)>): set<T> {
    set e | e in pairs :: e.0
  }

  function ChildrenMap<T(==)>(pairs: seq<(T, T)>): Graph<T> {
    map p | p in Parents(pairs) :: ChildrenOf(pairs, p)
  }

  // ---- parent counts ----

  /** The edges into x, one for each position at which x is listed. */
  ghost function InEdges<T(!new)>(children: Graph<T>, x: T): set<(T, int)> {
    set p, j | p in children && 0 <= j < |children[p]| && children[p][j] == x :: (p, j)
  }

  /** Every count is the number of edges in from the parents still listed. */
  ghost predicate Counted<T(!new)>(numParents: map<T, int>, children: Graph<T>) {
    && children.Keys <= numParents.Keys
    && (forall p, c :: p in children && c in children[p] ==> c in numParents)
    && forall x {:trigger numParents[x]} :: x in numParents ==> numParents[x] == |InEdges(children, x)|
  }

  /** The positions of x in s, each tagged with p. */
  ghost function Tagged<T>(p: T, s: seq<T>, x: T): set<(T, int)> {
    set j | 0 <= j < |s| && s[j] == x :: (p, j)
  }

  lemma {:induction false} TaggedCount<T>(p: T, s: seq<T>, x: T)
    ensures |Tagged(p, s, x)| == multiset(s)[x]
  {
    if s == [] {
      assert Tagged(p, s, x) == {};
    } else {
      var n := |s| - 1;
      TaggedCount(p, s[..n], x);
      assert s == s[..n] + [s[n]];
      if s[n] == x {
        assert Tagged(p, s, x) == Tagged(p, s[..n], x) + {(p, n)};
      } else {
        assert Tagged(p, s, x) == Tagged(p, s[..n], x);
      }
    }
  }

  /** Deleting parent p takes away one in-edge of x for each time p lists x. */
  lemma DropParent<T(!new)>(children: Graph<T>, p: T, x: T)
    requires p in children
    ensures |InEdges(children, x)| == |InEdges(children - {p}, x)| + multiset(children[p])[x]
  {
    var tagged := Tagged(p, children[p], x);
    TaggedCount(p, children[p], x);
    assert InEdges(children, x) == InEdges(children - {p}, x) + tagged;
    assert InEdges(children - {p}, x) !! tagged;
  }

  lemma ZeroMeansNoParent<T(!new)>(children: Graph<T>, x: T)
    ensures |InEdges(children, x)| == 0 <==> forall p :: (p, x) !in EdgesOf(children)
  {
    forall p | (p, x) in EdgesOf(children) ensures InEdges(children, x) != {} {
      var j :| 0 <= j < |children[p]| && children[p][j] == x;
      assert (p, j) in InEdges(children, x);
    }
    if InEdges(children, x) != {} {
      var e :| e in InEdges(children, x);
      assert (e.0, x) in EdgesOf(children);
    }
  }

  lemma InEdgesAt<T(!new)>(g: Graph<T>, x: T, p: T, j: int)
    ensures (p, j) in InEdges(g, x) <==> p in g && 0 <= j < |g[p]| && g[p][j] == x
  {
  }

  lemma AddEdgeCounts<T(!new)>(g: Graph<T>, was: seq<T>, p: T, c: T, g': Graph<T>, x: T)
    requires was == (if p in g then g[p] else []) && g' == g[p := was + [c]]
    ensures |InEdges(g', x)| == |InEdges(g, x)| + if x == c then 1 else 0
  {
    hide InEdges;
    var extra := if x == c then {(p, |was|)} else {};
    forall e ensures e in InEdges(g', x) <==> e in InEdges(g, x) || e in extra {
      assert e == (e.0, e.1);
      InEdgesAt(g, x, e.0, e.1);
      InEdgesAt(g', x, e.0, e.1);
    }
    InEdgesAt(g, x, p, |was|);
    assert InEdges(g', x) == InEdges(g, x) + extra && InEdges(g, x) !! extra;
  }

  /** Counting one more pair keeps every count exact. */
  lemma AddPairCounted<T(!new)>(numParents: map<T, int>, g: Graph<T>, p: T, c: T,
                                numParents': map<T, int>, g': Graph<T>)
    requires Counted(numParents, g)
    requires g' == g[p := (if p in g then g[p] else []) + [c]]
    requires numParents'.Keys == numParents.Keys + {p, c}
    requires forall x :: x in numParents' ==>
      numParents'[x] == (if x in numParents then numParents[x] else 0) + if x == c then 1 else 0
    ensures Counted(numParents', g')
  {
    forall x | x in numParents' ensures numParents'[x] == |InEdges(g', x)| {
      AddEdgeCounts(g, if p in g then g[p] else [], p, c, g', x);
    }
  }

  lemma NoPairs<T(!new)>()
    ensures Elements<T>([]) == {} && ChildrenMap<T>([]) == map[] && Counted<T>(map[], map[])
  {
  }

  /** The shared first half of topsort and topsort_levels. */
  method CountParents<T(==, !new)>(pairs: seq<(T, T)>) returns (numParents: map<T, int>, children: Graph<T>)
    ensures numParents.Keys == Elements(pairs)
    ensures children == ChildrenMap(pairs)
    ensures EdgesOf(children) == PairEdges(pairs)
    ensures Counted(numParents, children)
  {
    hide Counted, ChildrenMap, Elements, EdgesOf, PairEdges;
    numParents, children := map[], map[];
    NoPairs<T>();
    for k := 0 to |pairs|
      invariant numParents.Keys == Elements(pairs[..k])
      invariant children == ChildrenMap(pairs[..k])
      invariant Counted(numParents, children)
    {
      var (parent, child) := pairs[k];
      ghost var was, wasChildren := numParents, children;
      if parent !in numParents {
        numParents := numParents[parent := 0];
      }
      if child !in numParents {
        numParents := numParents[child := 0];
      }
      numParents := numParents[child := numParents[child] + 1];
      children := children[parent := (if parent in children then children[parent] else []) + [child]];
      AddPairCounted(was, wasChildren, parent, child, numParents, children);
      ChildrenMapStep(pairs, k);
    }
    assert pairs[..|pairs|] == pairs;
    ChildrenMapEdges(pairs);
  }

  lemma {:induction false} ChildrenOfStep<T>(s: seq<(T, T)>, e: (T, T), q: T)
    ensures ChildrenOf(s + [e], q) == ChildrenOf(s, q) + if q == e.0 then [e.1] else []
  {
    assert (s + [e])[..|s|] == s;
  }

  lemma NoChildren<T>(s: seq<(T, T)>, p: T)
    ensures p !in Parents(s) ==> ChildrenOf(s, p) == []
  {
    hide ChildrenOf;
    ChildrenOfMembers(s, p);
  }

  lemma ChildrenMapStep<T>(pairs: seq<(T, T)>, k: nat)
    requires k < |pairs|
    ensures
      var g, p := ChildrenMap(pairs[..k]), pairs[k].0;
      ChildrenMap(pairs[..k + 1]) == g[p := (if p in g then g[p] else []) + [pairs[k].1]]
    ensures Elements(pairs[..k + 1]) == Elements(pairs[..k]) + {pairs[k].0, pairs[k].1}
  {
    hide ChildrenOf;
    var s, t, p := pairs[..k], pairs[..k + 1], pairs[k].0;
    assert t == s + [pairs[k]];
    NoChildren(s, p);
    forall q ensures ChildrenOf(t, q) == ChildrenOf(s, q) + if q == p then [pairs[k].1] else [] {
      ChildrenOfStep(s, pairs[k], q);
    }
    hide Parents;
    assert forall q :: q != p ==> ChildrenOf(t, q) == ChildrenOf(s, q);
  }

  lemma {:induction false} ChildrenOfMembers<T>(pairs: seq<(T, T)>, p: T)
    ensures forall c :: c in ChildrenOf(pairs, p) <==> (p, c) in pairs
    ensures (forall e :: e in pairs ==> e.0 != p) ==> ChildrenOf(pairs, p) == []
  {
    if pairs != [] {
      var n := |pairs| - 1;
      ChildrenOfMembers(pairs[..n], p);
      assert pairs == pairs[..n] + [pairs[n]];
    }
  }

  lemma ChildrenMapEdges<T(!new)>(pairs: seq<(T, T)>)
    ensures EdgesOf(ChildrenMap(pairs)) == PairEdges(pairs)
  {
    var g := ChildrenMap(pairs);
    forall p, c ensures (p, c) in EdgesOf(g) <==> (p, c) in pairs {
      ChildrenOfMembers(pairs, p);
      if (p, c) in pairs {
        assert (p, c).0 in Parents(pairs);
      }
    }
    forall e ensures e in EdgesOf(g) <==> e in PairEdges(pairs) {
      assert e == (e.0, e.1);
    }
  }

  // ---- dictionary order ----

  /** The keys in some order: callers are verified for every order a dictionary may use. */
  method KeyOrder<T(==)>(keys: set<T>) returns (order: seq<T>)
    ensures NoDup(order) && Elems(order) == keys
  {
    var rest := keys;
    order := [];
    while rest != {}
      invariant NoDup(order) && Elems(order) !! rest && Elems(order) + rest == keys
    {
      var x :| x in rest;
      order, rest := order + [x], rest - {x};
    }
  }

  /** The keys whose count is zero, in some dictionary order. */
  method Parentless<T(==)>(numParents: map<T, int>) returns (zeros: seq<T>)
    ensures NoDup(zeros)
    ensures forall x :: x in zeros <==> x in numParents && numParents[x] == 0
  {
    var keys := KeyOrder(numParents.Keys);
    zeros := [];
    for k := 0 to |keys|
      invariant NoDup(zeros)
      invariant forall x :: x in zeros <==> x in keys[..k] && numParents[x] == 0
    {
      if numParents[keys[k]] == 0 {
        zeros := zeros + [keys[k]];
      }
    }
    assert forall x :: x in numParents ==> x in Elems(keys);
  }

  // ---- topsort ----

  lemma PrefixCount<T>(s: seq<T>, k: nat)
    requires k < |s|
    ensures multiset(s[..k])[s[k]] + 1 <= multiset(s)[s[k]]
  {
    assert s == s[..k] + [s[k]] + s[k + 1..];
  }

  /** Lowers the count of every child and appends to the answer those that reach zero. */
  method KnockDown<T(==, !new)>(numParents: map<T, int>, kids: seq<T>, answer: seq<T>)
    returns (numParents': map<T, int>, ready: seq<T>, answer': seq<T>)
    requires forall x :: x in kids ==> x in numParents && numParents[x] >= multiset(kids)[x]
    ensures numParents'.Keys == numParents.Keys
    ensures forall x {:trigger numParents'[x]} :: x in numParents ==> numParents'[x] == numParents[x] - multiset(kids)[x]
    ensures answer' == answer + ready && NoDup(ready)
    ensures forall x :: x in ready <==> x in kids && numParents'[x] == 0
  {
    numParents', ready := numParents, [];
    for k := 0 to |kids|
      invariant numParents'.Keys == numParents.Keys
      invariant forall x {:trigger numParents'[x]} :: x in numParents ==> numParents'[x] == numParents[x] - multiset(kids[..k])[x]
      invariant NoDup(ready)
      invariant forall x :: x in ready <==> x in kids[..k] && numParents'[x] == 0
    {
      var child := kids[k];
      assert kids[..k + 1] == kids[..k] + [child];
      PrefixCount(kids, k);
      numParents' := numParents'[child := numParents'[child] - 1];
      if numParents'[child] == 0 {
        ready := ready + [child];
      }
    }
    assert kids[..|kids|] == kids;
    answer' := answer + ready;
  }

  /** What holds whenever the loop over the growing answer is about to take answer[i]. */
  ghost predicate SortInv<T(!new)>(G: Graph<T>, V: set<T>, answer: seq<T>, i: nat,
                                   numParents: map<T, int>, children: Graph<T>)
  {
    && i <= |answer| && NoDup(answer) && Elems(answer) <= V
    && numParents.Keys == V - Elems(answer[..i])
    && children == G - Elems(answer[..i])
    && Counted(numParents, children)
    && (forall x {:trigger numParents[x]} :: x in numParents ==> (numParents[x] == 0 <==> x in answer[i..]))
    && ParentsFirst(EdgesOf(G), answer)
    && (forall p, x :: x in answer && (p, x) in EdgesOf(G) ==> p in answer[..i])
  }

  /** One turn of the loop over the growing answer. */
  method TakeParent<T(==, !new)>(answer: seq<T>, i: nat, numParents: map<T, int>, children: Graph<T>,
                                 ghost G: Graph<T>, ghost V: set<T>)
    returns (numParents': map<T, int>, children': Graph<T>, answer': seq<T>)
    requires i < |answer| && SortInv(G, V, answer, i, numParents, children)
    ensures SortInv(G, V, answer', i + 1, numParents', children')
    ensures i < |answer'| && |numParents'| < |numParents|
  {
    hide SortInv;
    var parent := answer[i];
    ReadyToTake(G, V, answer, i, numParents, children);
    numParents', children', answer' := numParents - {parent}, children, answer;
    var ready, kids := [], [];
    if parent in children {
      kids := children[parent];
      numParents', ready, answer' := KnockDown(numParents', kids, answer);
      children' := children - {parent};
    }
    assert answer' == answer + ready && children' == children - {parent};
    StepInv(G, V, answer, i, numParents, children, kids, ready, numParents');
    assert numParents.Keys == numParents'.Keys + {parent};
  }

  method TopSort<T(==, !new)>(pairs: seq<(T, T)>) returns (r: SortResult<T>)
    ensures NoDup(r.answer) && ParentsFirst(PairEdges(pairs), r.answer)
    ensures Elems(r.answer) == Elements(pairs) - Stuck(PairEdges(pairs), Elements(pairs))
    ensures r.CycleError? <==> Cyclic(PairEdges(pairs))
    ensures r.CycleError? ==>
      && r.numParents.Keys == Stuck(PairEdges(pairs), Elements(pairs))
      && Trapped(PairEdges(pairs), r.numParents.Keys)
      && r.children == ChildrenMap(pairs) - Elems(r.answer)
      && Counted(r.numParents, r.children)
  {
    hide *;
    var numParents, children := CountParents(pairs);
    ghost var G, V := children, numParents.Keys;
    var answer := Parentless(numParents);
    InitialInv(G, V, answer, numParents);
    var i := 0;
    while i < |answer|
      invariant i <= |answer| && SortInv(G, V, answer, i, numParents, children)
      decreases |numParents|
    {
      numParents, children, answer := TakeParent(answer, i, numParents, children, G, V);
      i := i + 1;
    }
    SortedInv(G, V, answer, numParents, children);
    ExactLeftovers(pairs, answer, numParents.Keys);
    if numParents != map[] {
      assert numParents.Keys != {};
      r := CycleError(answer, numParents, children);
    } else {
      r := Sorted(answer);
    }
  }

  lemma InitialInv<T(!new)>(G: Graph<T>, V: set<T>, answer: seq<T>, numParents: map<T, int>)
    requires Counted(numParents, G) && numParents.Keys == V && NoDup(answer)
    requires forall x :: x in answer <==> x in numParents && numParents[x] == 0
    ensures SortInv(G, V, answer, 0, numParents, G)
  {
    assert Elems(answer[..0]) == {};
    assert G - {} == G;
    assert answer[0..] == answer;
    forall j | 0 <= j < |answer| ensures forall p :: (p, answer[j]) !in EdgesOf(G) {
      assert answer[j] in answer;
      ZeroMeansNoParent(G, answer[j]);
    }
  }

  /** The element taken has no parent left, so neither it nor any taken before is a child of a remaining parent. */
  lemma ReadyToTake<T(!new)>(G: Graph<T>, V: set<T>, answer: seq<T>, i: nat, numParents: map<T, int>, children: Graph<T>)
    requires SortInv(G, V, answer, i, numParents, children) && i < |answer|
    ensures answer[i] in numParents && numParents[answer[i]] == 0
    ensures forall p :: (p, answer[i]) !in EdgesOf(children)
    ensures answer[i] in children ==>
      forall x :: x in children[answer[i]] ==> x in numParents && x != answer[i] && numParents[x] >= multiset(children[answer[i]])[x]
  {
    var parent := answer[i];
    assert parent in answer[i..] && parent !in answer[..i];
    ZeroMeansNoParent(children, parent);
    if parent in children {
      forall x | x in children[parent] ensures x in numParents && x != parent && numParents[x] >= multiset(children[parent])[x] {
        assert (parent, x) in EdgesOf(children);
        DropParent(children, parent, x);
      }
    }
  }

  /** Taking `parent` out keeps the counts exact. */
  lemma StepCounts<T(!new)>(numParents: map<T, int>, children: Graph<T>, parent: T, kids: seq<T>, numParents': map<T, int>)
    requires Counted(numParents, children) && kids == if parent in children then children[parent] else []
    requires forall p :: (p, parent) !in EdgesOf(children)
    requires numParents'.Keys == numParents.Keys - {parent}
    requires forall x {:trigger numParents'[x]} :: x in numParents' ==> numParents'[x] == numParents[x] - multiset(kids)[x]
    ensures Counted(numParents', children - {parent})
  {
    var children' := children - {parent};
    forall x | x in numParents' ensures numParents'[x] == |InEdges(children', x)| {
      if parent in children {
        DropParent(children, parent, x);
      } else {
        assert children' == children;
      }
    }
    forall p, c | p in children' && c in children'[p] ensures c in numParents' {
      assert (p, c) in EdgesOf(children);
    }
  }

  /** Whatever drops to zero on taking `parent` out has all its parents taken. */
  lemma ParentsTaken<T(!new)>(G: Graph<T>, done: set<T>, numParents: map<T, int>, x: T, p: T)
    requires Counted(numParents, G - done) && x in numParents && numParents[x] == 0
    requires (p, x) in EdgesOf(G)
    ensures p in done
  {
    ZeroMeansNoParent(G - done, x);
  }

  lemma StepOrder<T(!new)>(E: Edges<T>, answer: seq<T>, i: nat, ready: seq<T>)
    requires i < |answer| && ParentsFirst(E, answer)
    requires forall p, x :: x in answer && (p, x) in E ==> p in answer[..i]
    requires forall p, x :: x in ready && (p, x) in E ==> p in answer[..i + 1]
    ensures ParentsFirst(E, answer + ready)
    ensures forall p, x :: x in answer + ready && (p, x) in E ==> p in (answer + ready)[..i + 1]
  {
    var all := answer + ready;
    assert all[..i + 1] == answer[..i + 1] == answer[..i] + [answer[i]];
    forall j, p | 0 <= j < |all| && (p, all[j]) in E ensures p in all[..j] {
      if j < |answer| {
        assert all[..j] == answer[..j];
      } else {
        assert all[j] == ready[j - |answer|] && all[j] in ready;
        assert all[..i + 1] <= all[..j];
      }
    }
  }

  lemma StepInv<T(!new)>(G: Graph<T>, V: set<T>, answer: seq<T>, i: nat, numParents: map<T, int>, children: Graph<T>,
                         kids: seq<T>, ready: seq<T>, numParents': map<T, int>)
    requires i < |answer| && SortInv(G, V, answer, i, numParents, children)
    requires kids == if answer[i] in children then children[answer[i]] else []
    requires numParents'.Keys == numParents.Keys - {answer[i]}
    requires NoDup(ready)
    requires forall x {:trigger numParents'[x]} :: x in numParents' ==> numParents'[x] == numParents[x] - multiset(kids)[x]
    requires forall x :: x in ready <==> x in kids && x in numParents' && numParents'[x] == 0
    ensures SortInv(G, V, answer + ready, i + 1, numParents', children - {answer[i]})
  {
    hide Counted, ParentsFirst, NoDup, EdgesOf, Elems;
    var parent, all, done := answer[i], answer + ready, Elems(answer[..i]) + {answer[i]};
    StepShape(answer, i, ready);
    ReadyToTake(G, V, answer, i, numParents, children);
    StepCounts(numParents, children, parent, kids, numParents');
    assert children - {parent} == G - done;
    StepDistinct(answer, i, ready);
    forall p, x | x in ready && (p, x) in EdgesOf(G) ensures p in answer[..i + 1] {
      ParentsTaken(G, done, numParents', x, p);
    }
    StepOrder(EdgesOf(G), answer, i, ready);
    StepElems(answer, ready, V);
  }

  lemma StepShape<T>(answer: seq<T>, i: nat, ready: seq<T>)
    requires i < |answer|
    ensures
      var all := answer + ready;
      && all[..i + 1] == answer[..i + 1] == answer[..i] + [answer[i]]
      && Elems(answer[..i + 1]) == Elems(answer[..i]) + {answer[i]}
      && all[i + 1..] == answer[i + 1..] + ready
      && answer[i..] == [answer[i]] + answer[i + 1..]
      && (forall p :: p in answer[..i + 1] <==> p in Elems(answer[..i]) || p == answer[i])
  {
  }

  /** What has just become ready had a parent before, so it was not in the answer. */
  lemma StepDistinct<T>(answer: seq<T>, i: nat, ready: seq<T>)
    requires NoDup(answer) && NoDup(ready) && i < |answer|
    requires forall x :: x in answer <==> x in answer[..i] || x in answer[i..]
    requires forall x :: x in ready ==> x !in answer[..i] && x !in answer[i..]
    ensures NoDup(answer + ready)
  {
    NoDupConcat(answer, ready);
  }

  lemma StepElems<T>(answer: seq<T>, ready: seq<T>, V: set<T>)
    requires Elems(answer) <= V && forall x :: x in ready ==> x in V
    ensures Elems(answer + ready) <= V
  {
  }

  lemma LeftoverHasParent<T(!new)>(G: Graph<T>, done: set<T>, numParents: map<T, int>, x: T)
    requires Counted(numParents, G - done) && x in numParents && numParents[x] != 0
    ensures HasParentIn(EdgesOf(G), numParents.Keys, x)
  {
    ZeroMeansNoParent(G - done, x);
    var p :| (p, x) in EdgesOf(G - done);
    assert p in numParents.Keys;
  }

  lemma SortedInv<T(!new)>(G: Graph<T>, V: set<T>, answer: seq<T>, numParents: map<T, int>, children: Graph<T>)
    requires SortInv(G, V, answer, |answer|, numParents, children)
    ensures NoDup(answer) && ParentsFirst(EdgesOf(G), answer) && Counted(numParents, children)
    ensures Trapped(EdgesOf(G), numParents.Keys)
    ensures numParents.Keys == V - Elems(answer) && Elems(answer) <= V
    ensures children == G - Elems(answer)
  {
    assert answer[..|answer|] == answer && answer[|answer|..] == [];
    forall x | x in numParents.Keys ensures HasParentIn(EdgesOf(G), numParents.Keys, x) {
      LeftoverHasParent(G, Elems(answer), numParents, x);
    }
  }

  lemma ExactLeftovers<T(!new)>(pairs: seq<(T, T)>, answer: seq<T>, rest: set<T>)
    requires ParentsFirst(PairEdges(pairs), answer) && Trapped(PairEdges(pairs), rest)
    requires Elems(answer) <= Elements(pairs) && rest == Elements(pairs) - Elems(answer)
    ensures rest == Stuck(PairEdges(pairs), Elements(pairs))
    ensures Elems(answer) == Elements(pairs) - rest
    ensures rest != {} <==> Cyclic(PairEdges(pairs))
  {
    hide ParentsFirst, Trapped;
    PeelingIsExact(PairEdges(pairs), Elements(pairs), answer, rest);
    StuckIffCyclic(PairEdges(pairs), Elements(pairs));
  }

  /** In a complete answer the parent of every pair comes before its child. */
  lemma AnswerRespectsPairs<T(!new)>(pairs: seq<(T, T)>, answer: seq<T>, p: T, c: T) returns (i: nat, j: nat)
    requires ParentsFirst(PairEdges(pairs), answer) && Elems(answer) == Elements(pairs)
    requires (p, c) in pairs
    ensures i < j < |answer| && answer[i] == p && answer[j] == c
  {
    assert (p, c) in PairEdges(pairs) && c in Elems(answer);
    j :| j < |answer| && answer[j] == c;
    i :| i < j && answer[i] == p;
  }

  /** The comment in the source says every leftover has a child; 2 is left over here and has none. */
  lemma LeftoverWithoutChild()
    ensures
      var pairs := [(1, 1), (1, 2)];
      && 2 in Stuck(PairEdges(pairs), Elements(pairs))
      && forall c :: (2, c) !in pairs
  {
    var pairs := [(1, 1), (1, 2)];
    var E := PairEdges(pairs);
    assert pairs[0] in pairs && pairs[1] in pairs;
    assert (1, 1) in E && (1, 2) in E;
    assert pairs[1].1 in Elements(pairs);
    assert LeadsTo(E, [1], [1, 2], 2);
  }

  ghost predicate HasChild<T(!new)>(E: Edges<T>, x: T) {
    exists c :: (x, c) in E
  }

  /** Every leftover has a child exactly when no element that is nobody's parent is on or below a cycle. */
  lemma LeftoversHaveChildrenIff<T(!new)>(pairs: seq<(T, T)>)
    ensures
      var E, V := PairEdges(pairs), Elements(pairs);
      (forall x :: x in Stuck(E, V) ==> HasChild(E, x)) <==>
      forall x :: x in V && x !in Parents(pairs) ==> !OnOrBelowCycle(E, x)
  {
    hide OnOrBelowCycle;
    var E, V := PairEdges(pairs), Elements(pairs);
    forall x ensures x in Parents(pairs) <==> HasChild(E, x) {
      if x in Parents(pairs) {
        var e :| e in pairs && e.0 == x;
        assert (x, e.1) in E;
      }
    }
    if forall x :: x in Stuck(E, V) ==> HasChild(E, x) {
      forall x | x in V && x !in Parents(pairs) ensures !OnOrBelowCycle(E, x) {
        assert x !in Stuck(E, V);
      }
    }
  }
}
