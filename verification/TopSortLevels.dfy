/** Level-by-level topological sorting: topsort_levels and topsort_levels_core in bindings/python/topsort.py. */
module TopSortLevels {
  import opened Sequences
  import opened Digraph
  import opened TopSort

  /** What the generator yields, and what is left in the dictionaries when it stops.
      It ends in a CycleError when numParents is not empty. */
  datatype LevelsResult<T> = LevelsResult(levels: seq<seq<T>>, numParents: map<T, int>, children: Graph<T>)

  /** x is the end of a chain of parents with exactly k edges, and of none with more. */
  ghost predicate LongestChain<T(!new)>(E: Edges<T>, x: T, k: nat) {
    && (exists w :: Walk(E, w) && w[|w| - 1] == x && |w| == k + 1)
    && (forall w :: Walk(E, w) && w[|w| - 1] == x ==> |w| <= k + 1)
  }

  /** Every item of every level. */
  function Flat<T(==)>(levels: seq<seq<T>>): set<T> {
    set k, x | 0 <= k < |levels| && x in levels[k] :: x
  }

  /** x, in level k, has its parents in earlier levels and (for k > 0) one of them in the level just before. */
  ghost predicate LevelOk<T(!new)>(E: Edges<T>, levels: seq<seq<T>>, k: nat, x: T)
    requires k < |levels|
  {
    && (forall p :: (p, x) in E ==> p in Flat(levels[..k]))
    && (k > 0 ==> HasParentIn(E, Elems(levels[k - 1]), x))
  }

  ghost predicate WellLevelled<T(!new)>(E: Edges<T>, levels: seq<seq<T>>) {
    forall k: nat, x {:trigger LevelOk(E, levels, k, x)} :: k < |levels| && x in levels[k] ==> LevelOk(E, levels, k, x)
  }

  /** No item is yielded twice. */
  predicate Disjoint<T(==)>(levels: seq<seq<T>>) {
    && (forall k :: 0 <= k < |levels| ==> NoDup(levels[k]))
    && (forall k, x :: 0 <= k < |levels| && x in levels[k] ==> x !in Flat(levels[..k]))
  }

  // ---- levels are longest chains ----

  lemma {:induction false} ChainBound<T(!new)>(E: Edges<T>, levels: seq<seq<T>>, k: nat, w: seq<T>)
    requires WellLevelled(E, levels) && k < |levels| && Walk(E, w) && w[|w| - 1] in levels[k]
    ensures |w| <= k + 1
  {
    var n := |w| - 1;
    assert LevelOk(E, levels, k, w[n]);
    if n > 0 {
      assert (w[n - 1], w[n]) in E;
      var m :| 0 <= m < |levels[..k]| && w[n - 1] in levels[..k][m];
      ChainBound(E, levels, m, w[..n]);
    }
  }

  lemma {:induction false} ChainExists<T(!new)>(E: Edges<T>, levels: seq<seq<T>>, k: nat, x: T) returns (w: seq<T>)
    requires WellLevelled(E, levels) && k < |levels| && x in levels[k]
    ensures Walk(E, w) && w[|w| - 1] == x && |w| == k + 1
  {
    assert LevelOk(E, levels, k, x);
    if k == 0 {
      w := [x];
    } else {
      var p :| p in Elems(levels[k - 1]) && (p, x) in E;
      var v := ChainExists(E, levels, k - 1, p);
      w := v + [x];
    }
  }

  /** Membership of level k is exactly having a longest parent chain of k edges. */
  lemma LevelIsLongestChain<T(!new)>(E: Edges<T>, V: set<T>, levels: seq<seq<T>>, rest: set<T>, x: T, k: nat)
    requires WellLevelled(E, levels) && Trapped(E, rest) && V == Flat(levels) + rest && x in V
    ensures (k < |levels| && x in levels[k]) <==> LongestChain(E, x, k)
  {
    if k < |levels| && x in levels[k] {
      var w := ChainExists(E, levels, k, x);
      forall v | Walk(E, v) && v[|v| - 1] == x ensures |v| <= k + 1 {
        ChainBound(E, levels, k, v);
      }
    }
    if LongestChain(E, x, k) {
      if x in rest {
        var v := BackwardsWalk(E, rest, x, k + 1);
        assert false;
      } else {
        var m :| 0 <= m < |levels| && x in levels[m];
        var w := ChainExists(E, levels, m, x);
        var v :| Walk(E, v) && v[|v| - 1] == x && |v| == k + 1;
        ChainBound(E, levels, m, v);
      }
    }
  }

  /** Nothing that is put in a level is on or below a cycle. */
  lemma {:induction false} LevelsFree<T(!new)>(E: Edges<T>, levels: seq<seq<T>>, k: nat, x: T)
    requires WellLevelled(E, levels) && k < |levels| && x in levels[k]
    ensures !OnOrBelowCycle(E, x)
  {
    forall c: seq<T>, w: seq<T> | LeadsTo(E, c, w, x) ensures false {
      var v := Laps(E, c, w, k + 1);
      ChainBound(E, levels, k, v);
    }
  }

  /** Going round a cycle often enough before walking on gives a chain longer than any bound. */
  lemma {:induction false} Laps<T>(E: Edges<T>, c: seq<T>, w: seq<T>, n: nat) returns (v: seq<T>)
    requires Elementary(E, c) && Walk(E, w) && w[0] == c[0]
    ensures Walk(E, v) && v[0] == c[0] && v[|v| - 1] == w[|w| - 1] && |v| > n
  {
    if n == 0 {
      v := w;
    } else {
      var u := Laps(E, c, w, n - 1);
      v := c + u;
      forall i | 0 <= i < |v| - 1 ensures (v[i], v[i + 1]) in E {
        if i < |c| - 1 {
          assert (c[i], c[i + 1]) in E;
        } else if i >= |c| {
          assert (u[i - |c|], u[i + 1 - |c|]) in E;
        }
      }
    }
  }

  lemma LevelsAreExact<T(!new)>(E: Edges<T>, V: set<T>, levels: seq<seq<T>>, rest: set<T>)
    requires WellLevelled(E, levels) && Trapped(E, rest) && V == Flat(levels) + rest
    ensures rest == Stuck(E, V)
  {
    forall x | x in V ensures x in rest <==> OnOrBelowCycle(E, x) {
      if x in rest {
        TrappedIsBelowCycle(E, rest, x);
      } else {
        var k :| 0 <= k < |levels| && x in levels[k];
        LevelsFree(E, levels, k, x);
      }
    }
  }

  // ---- the generator ----

  /** Lowers the count of every child of the item just deleted. */
  method LowerCounts<T(==, !new)>(numParents: map<T, int>, kids: seq<T>) returns (numParents': map<T, int>)
    requires forall x :: x in kids ==> x in numParents
    ensures numParents'.Keys == numParents.Keys
    ensures forall x {:trigger numParents'[x]} :: x in numParents ==> numParents'[x] == numParents[x] - multiset(kids)[x]
  {
    numParents' := numParents;
    for k := 0 to |kids|
      invariant numParents'.Keys == numParents.Keys
      invariant forall x {:trigger numParents'[x]} :: x in numParents ==> numParents'[x] == numParents[x] - multiset(kids[..k])[x]
    {
      assert kids[..k + 1] == kids[..k] + [kids[k]];
      numParents' := numParents'[kids[k] := numParents'[kids[k]] - 1];
    }
    assert kids[..|kids|] == kids;
  }

  /** Mid-level: `done` has been deleted, and what is pending of this level still has no parent left. */
  ghost predicate Taking<T(!new)>(G: Graph<T>, V: set<T>, done: set<T>, pending: seq<T>,
                                  numParents: map<T, int>, children: Graph<T>)
  {
    && numParents.Keys == V - done && children == G - done && Counted(numParents, children)
    && NoDup(pending)
    && forall x :: x in pending ==> x in numParents && numParents[x] == 0
  }

  /** Deletes one item of the level and accounts for it with its children. */
  method TakeItem<T(==, !new)>(item: T, numParents: map<T, int>, children: Graph<T>,
                               ghost G: Graph<T>, ghost V: set<T>, ghost done: set<T>, ghost pending: seq<T>)
    returns (numParents': map<T, int>, children': Graph<T>)
    requires pending != [] && item == pending[0] && Taking(G, V, done, pending, numParents, children)
    ensures Taking(G, V, done + {item}, pending[1..], numParents', children')
    ensures |numParents'| < |numParents|
  {
    hide Counted, NoDup, EdgesOf;
    assert item in pending;
    ghost var kids0 := if item in children then children[item] else [];
    ItemHasNoParent(numParents, children, item, kids0);
    numParents', children' := numParents - {item}, children;
    if item in children {
      numParents' := LowerCounts(numParents', children[item]);
      children' := children - {item};
    }
    assert numParents.Keys == numParents'.Keys + {item};
    assert children' == children - {item} == G - (done + {item});
    StepCounts(numParents, children, item, kids0, numParents');
    StillPending(G, V, done, pending, numParents, children, kids0, numParents', children');
  }

  lemma ItemHasNoParent<T(!new)>(numParents: map<T, int>, children: Graph<T>, item: T, kids: seq<T>)
    requires Counted(numParents, children) && item in numParents && numParents[item] == 0
    requires kids == if item in children then children[item] else []
    ensures forall p :: (p, item) !in EdgesOf(children)
    ensures forall x :: x in kids ==> x in numParents && x != item && numParents[x] != 0
  {
    ZeroMeansNoParent(children, item);
    forall x | x in kids ensures x in numParents && x != item && numParents[x] != 0 {
      assert (item, x) in EdgesOf(children);
      ZeroMeansNoParent(children, x);
    }
  }

  lemma StillPending<T(!new)>(G: Graph<T>, V: set<T>, done: set<T>, pending: seq<T>,
                              numParents: map<T, int>, children: Graph<T>, kids: seq<T>,
                              numParents': map<T, int>, children': Graph<T>)
    requires pending != [] && Taking(G, V, done, pending, numParents, children)
    requires numParents'.Keys == numParents.Keys - {pending[0]} && children' == G - (done + {pending[0]})
    requires Counted(numParents', children')
    requires forall x {:trigger numParents'[x]} :: x in numParents' ==> numParents'[x] == numParents[x] - multiset(kids)[x]
    requires forall x :: x in kids ==> x in numParents && numParents[x] != 0
    ensures Taking(G, V, done + {pending[0]}, pending[1..], numParents', children')
  {
    hide Counted;
    forall x | x in pending[1..] ensures x in numParents' && numParents'[x] == 0 {
      assert x in pending && numParents[x] == 0;
      assert x !in kids;
    }
  }

  /** Deletes a whole level. */
  method TakeLevel<T(==, !new)>(level: seq<T>, numParents: map<T, int>, children: Graph<T>,
                                ghost G: Graph<T>, ghost V: set<T>, ghost done: set<T>)
    returns (numParents': map<T, int>, children': Graph<T>)
    requires Taking(G, V, done, level, numParents, children)
    ensures Taking(G, V, done + Elems(level), [], numParents', children')
    ensures level != [] ==> |numParents'| < |numParents|
  {
    hide *;
    numParents', children' := numParents, children;
    ghost var gone := done;
    assert level[0..] == level;
    assert gone == done + Elems(level[..0]) by { ElemsOfPrefix(level, 0); }
    for k := 0 to |level|
      invariant gone == done + Elems(level[..k])
      invariant Taking(G, V, gone, level[k..], numParents', children')
      invariant |numParents'| <= |numParents| && (k > 0 ==> |numParents'| < |numParents|)
    {
      numParents', children' := TakeItem(level[k], numParents', children', G, V, gone, level[k..]);
      assert level[k..][1..] == level[k + 1..];
      ElemsOfPrefix(level, k + 1);
      gone := gone + {level[k]};
    }
    assert level[..|level|] == level && level[|level|..] == [];
  }

  lemma ElemsOfPrefix<T>(s: seq<T>, k: nat)
    requires k <= |s|
    ensures k == 0 ==> Elems(s[..k]) == {}
    ensures k > 0 ==> Elems(s[..k]) == Elems(s[..k - 1]) + {s[k - 1]}
  {
    if k > 0 {
      assert s[..k] == s[..k - 1] + [s[k - 1]];
    }
  }

  /** Between levels. */
  ghost predicate LevelsInv<T(!new)>(G: Graph<T>, V: set<T>, levels: seq<seq<T>>, numParents: map<T, int>, children: Graph<T>) {
    && Taking(G, V, Flat(levels), [], numParents, children)
    && WellLevelled(EdgesOf(G), levels) && Disjoint(levels) && Flat(levels) <= V
    && (levels != [] ==> forall x :: x in numParents ==> HasLateParent(EdgesOf(G), levels, x))
  }

  /** x was passed over by the last level, so one of its parents was still there. */
  ghost predicate HasLateParent<T(!new)>(E: Edges<T>, levels: seq<seq<T>>, x: T)
    requires levels != []
  {
    exists p :: (p, x) in E && p !in Flat(levels[..|levels| - 1])
  }

  lemma FlatStep<T>(levels: seq<seq<T>>, level: seq<T>)
    ensures Flat(levels + [level]) == Flat(levels) + Elems(level)
  {
    var all := levels + [level];
    forall x | x in Flat(levels) ensures x in Flat(all) {
      var k :| 0 <= k < |levels| && x in levels[k];
      assert all[k] == levels[k];
    }
    forall x | x in level ensures x in Flat(all) {
      assert all[|levels|] == level;
    }
    forall x | x in Flat(all) ensures x in Flat(levels) || x in level {
      var k :| 0 <= k < |all| && x in all[k];
      assert k < |levels| ==> all[k] == levels[k];
    }
  }

  lemma LevelItemOk<T(!new)>(G: Graph<T>, V: set<T>, levels: seq<seq<T>>, level: seq<T>, numParents: map<T, int>, children: Graph<T>, x: T)
    requires LevelsInv(G, V, levels, numParents, children) && x in level && x in numParents && numParents[x] == 0
    ensures LevelOk(EdgesOf(G), levels + [level], |levels|, x)
  {
    hide WellLevelled, Disjoint;
    var all, E := levels + [level], EdgesOf(G);
    assert all[..|levels|] == levels;
    forall p | (p, x) in E ensures p in Flat(levels) {
      ParentsTaken(G, Flat(levels), numParents, x, p);
    }
    if |levels| > 0 {
      var last := |levels| - 1;
      assert HasLateParent(E, levels, x);
      var p :| (p, x) in E && p !in Flat(levels[..last]);
      assert levels == levels[..last] + [levels[last]];
      FlatStep(levels[..last], levels[last]);
      assert all[last] == levels[last];
      assert p in Elems(levels[last]);
    }
  }

  /** What the level just picked adds to the levels before it. */
  lemma NewLevel<T(!new)>(G: Graph<T>, V: set<T>, levels: seq<seq<T>>, level: seq<T>, numParents: map<T, int>, children: Graph<T>)
    requires LevelsInv(G, V, levels, numParents, children) && NoDup(level)
    requires forall x :: x in level <==> x in numParents && numParents[x] == 0
    ensures WellLevelled(EdgesOf(G), levels + [level]) && Disjoint(levels + [level])
  {
    var all := levels + [level];
    var E := EdgesOf(G);
    forall k: nat, x | k < |all| && x in all[k] ensures LevelOk(E, all, k, x) {
      if k < |levels| {
        assert all[..k] == levels[..k] && all[k] == levels[k];
        assert k > 0 ==> all[k - 1] == levels[k - 1];
        assert LevelOk(E, levels, k, x);
      } else {
        LevelItemOk(G, V, levels, level, numParents, children, x);
      }
    }
    forall k, x | 0 <= k < |all| && x in all[k] ensures x !in Flat(all[..k]) {
      assert all[..k] == levels[..k];
      assert levels[..|levels|] == levels;
    }
  }

  lemma LateParents<T(!new)>(G: Graph<T>, V: set<T>, levels: seq<seq<T>>, level: seq<T>, numParents: map<T, int>, children: Graph<T>, x: T)
    requires LevelsInv(G, V, levels, numParents, children) && x in numParents && numParents[x] != 0
    ensures HasLateParent(EdgesOf(G), levels + [level], x)
  {
    hide WellLevelled, Disjoint;
    var all := levels + [level];
    assert all[..|all| - 1] == levels;
    LeftoverHasParent(G, Flat(levels), numParents, x);
    var p :| p in numParents.Keys && (p, x) in EdgesOf(G);
  }

  lemma NextLevel<T(!new)>(G: Graph<T>, V: set<T>, levels: seq<seq<T>>, level: seq<T>,
                           numParents: map<T, int>, children: Graph<T>, numParents': map<T, int>, children': Graph<T>)
    requires LevelsInv(G, V, levels, numParents, children) && NoDup(level)
    requires forall x :: x in level <==> x in numParents && numParents[x] == 0
    requires Taking(G, V, Flat(levels) + Elems(level), [], numParents', children')
    ensures LevelsInv(G, V, levels + [level], numParents', children')
  {
    hide WellLevelled, Disjoint, Counted;
    var all := levels + [level];
    FlatStep(levels, level);
    NewLevel(G, V, levels, level, numParents, children);
    forall x | x in numParents' ensures HasLateParent(EdgesOf(G), all, x) {
      LateParents(G, V, levels, level, numParents, children, x);
    }
  }

  lemma NoLevels<T(!new)>(G: Graph<T>, V: set<T>, numParents: map<T, int>)
    requires Counted(numParents, G) && numParents.Keys == V
    ensures LevelsInv(G, V, [], numParents, G)
  {
    var none: seq<seq<T>> := [];
    assert Flat(none) == {};
    assert G - {} == G;
  }

  lemma LastLevel<T(!new)>(G: Graph<T>, V: set<T>, levels: seq<seq<T>>, numParents: map<T, int>, children: Graph<T>)
    requires LevelsInv(G, V, levels, numParents, children)
    requires forall x :: x in numParents ==> numParents[x] != 0
    ensures WellLevelled(EdgesOf(G), levels) && Disjoint(levels)
    ensures numParents.Keys == Stuck(EdgesOf(G), V) == V - Flat(levels) && Flat(levels) <= V
    ensures Trapped(EdgesOf(G), numParents.Keys)
    ensures children == G - Flat(levels) && Counted(numParents, children)
  {
    hide WellLevelled, Disjoint, Counted, Stuck;
    forall x | x in numParents.Keys ensures HasParentIn(EdgesOf(G), numParents.Keys, x) {
      LeftoverHasParent(G, Flat(levels), numParents, x);
    }
    LevelsAreExact(EdgesOf(G), V, levels, numParents.Keys);
  }

  method TopSortLevelsCore<T(==, !new)>(numParents: map<T, int>, children: Graph<T>) returns (r: LevelsResult<T>)
    requires Counted(numParents, children)
    ensures Disjoint(r.levels) && [] !in r.levels
    ensures WellLevelled(EdgesOf(children), r.levels)
    ensures forall x, k: nat :: x in numParents ==>
      ((k < |r.levels| && x in r.levels[k]) <==> LongestChain(EdgesOf(children), x, k))
    ensures Flat(r.levels) == numParents.Keys - Stuck(EdgesOf(children), numParents.Keys)
    ensures r.numParents.Keys == Stuck(EdgesOf(children), numParents.Keys)
    ensures r.numParents != map[] <==> Cyclic(EdgesOf(children))
    ensures r.children == children - Flat(r.levels) && Counted(r.numParents, r.children)
  {
    hide *;
    ghost var V, E := numParents.Keys, EdgesOf(children);
    var counts, kids := numParents, children;
    var levels: seq<seq<T>> := [];
    NoLevels(children, V, numParents);
    while true
      invariant LevelsInv(children, V, levels, counts, kids) && [] !in levels
      decreases |counts|
    {
      var level := Parentless(counts);
      if level == [] {
        break;
      }
      StartLevel(children, V, levels, level, counts, kids);
      ghost var was, wasKids := counts, kids;
      counts, kids := TakeLevel(level, counts, kids, children, V, Flat(levels));
      NextLevel(children, V, levels, level, was, wasKids, counts, kids);
      levels := levels + [level];
    }
    LastLevel(children, V, levels, counts, kids);
    LevelsConclusion(numParents, children, levels, counts.Keys);
    r := LevelsResult(levels, counts, kids);
    assert r.numParents == map[] <==> r.numParents.Keys == {};
  }

  lemma StartLevel<T(!new)>(G: Graph<T>, V: set<T>, levels: seq<seq<T>>, level: seq<T>, numParents: map<T, int>, children: Graph<T>)
    requires LevelsInv(G, V, levels, numParents, children) && NoDup(level)
    requires forall x :: x in level <==> x in numParents && numParents[x] == 0
    ensures Taking(G, V, Flat(levels), level, numParents, children)
  {
    hide Counted, WellLevelled, Disjoint;
  }

  lemma LevelsConclusion<T(!new)>(numParents: map<T, int>, children: Graph<T>, levels: seq<seq<T>>, rest: set<T>)
    requires Counted(numParents, children) && WellLevelled(EdgesOf(children), levels) && Trapped(EdgesOf(children), rest)
    requires rest == Stuck(EdgesOf(children), numParents.Keys) == numParents.Keys - Flat(levels) && Flat(levels) <= numParents.Keys
    ensures forall x, k: nat :: x in numParents ==>
      ((k < |levels| && x in levels[k]) <==> LongestChain(EdgesOf(children), x, k))
    ensures Flat(levels) == numParents.Keys - rest
    ensures rest != {} <==> Cyclic(EdgesOf(children))
  {
    hide WellLevelled, Trapped, Stuck, Cyclic, LongestChain;
    forall x, k: nat | x in numParents
      ensures (k < |levels| && x in levels[k]) <==> LongestChain(EdgesOf(children), x, k)
    {
      LevelIsLongestChain(EdgesOf(children), numParents.Keys, levels, rest, x, k);
    }
    StuckIffCyclic(EdgesOf(children), numParents.Keys);
  }

  method TopSortLevels<T(==, !new)>(pairs: seq<(T, T)>) returns (r: LevelsResult<T>)
    ensures Disjoint(r.levels) && [] !in r.levels
    ensures WellLevelled(PairEdges(pairs), r.levels)
    ensures forall x, k: nat :: x in Elements(pairs) ==>
      ((k < |r.levels| && x in r.levels[k]) <==> LongestChain(PairEdges(pairs), x, k))
    ensures Flat(r.levels) == Elements(pairs) - Stuck(PairEdges(pairs), Elements(pairs))
    ensures r.numParents.Keys == Stuck(PairEdges(pairs), Elements(pairs))
    ensures r.numParents != map[] <==> Cyclic(PairEdges(pairs))
    ensures r.children == ChildrenMap(pairs) - Flat(r.levels) && Counted(r.numParents, r.children)
  {
    hide *;
    var numParents, children := CountParents(pairs);
    r := TopSortLevelsCore(numParents, children);
  }
}
