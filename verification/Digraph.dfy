/** Finite directed graphs, as the dependency tools see them: a set of (parent, child) edges.
    Walks, elementary cycles, and the two facts every peeling algorithm rests on. */
module Digraph {
  import opened Sequences

  type Edges<T(==)> = set<(T, T)>

  /** Adjacency lists: parent -> children, repeats allowed. */
  type Graph<T(==)> = map<T, seq<T>>

  function EdgesOf<T(!new)>(g: Graph<T>): Edges<T> {
    set p, c | p in g && c in g[p] :: (p, c)
  }

  predicate Walk<T(==)>(E: Edges<T>, w: seq<T>) {
    |w| > 0 && forall i :: 0 <= i < |w| - 1 ==> (w[i], w[i + 1]) in E
  }

  /** A cycle listed once around: distinct nodes, and the last is a parent of the first. */
  predicate Elementary<T(==)>(E: Edges<T>, c: seq<T>) {
    Walk(E, c) && NoDup(c) && (c[|c| - 1], c[0]) in E
  }

  ghost predicate Cyclic<T(!new)>(E: Edges<T>) {
    exists c: seq<T> :: Elementary(E, c)
  }

  /** w leads from the first node of cycle c to x. */
  ghost predicate LeadsTo<T>(E: Edges<T>, c: seq<T>, w: seq<T>, x: T) {
    Elementary(E, c) && Walk(E, w) && w[0] == c[0] && w[|w| - 1] == x
  }

  /** x lies on a cycle or downstream of one. */
  ghost predicate OnOrBelowCycle<T(!new)>(E: Edges<T>, x: T) {
    exists c: seq<T>, w: seq<T> :: LeadsTo(E, c, w, x)
  }

  /** Every parent of an element of `order` occurs strictly before it. */
  ghost predicate ParentsFirst<T(!new)>(E: Edges<T>, order: seq<T>) {
    forall j, p :: 0 <= j < |order| && (p, order[j]) in E ==> p in order[..j]
  }

  ghost predicate HasParentIn<T>(E: Edges<T>, rest: set<T>, x: T) {
    exists p :: p in rest && (p, x) in E
  }

  /** Every element of `rest` has a parent in `rest`. */
  ghost predicate Trapped<T(!new)>(E: Edges<T>, rest: set<T>) {
    forall x {:trigger HasParentIn(E, rest, x)} :: x in rest ==> HasParentIn(E, rest, x)
  }

  /** A walk that repeats a node contains an elementary cycle. */
  lemma {:induction false} RepeatGivesCycle<T>(E: Edges<T>, w: seq<T>) returns (i: nat, j: nat)
    requires Walk(E, w) && !NoDup(w)
    ensures i < j < |w| && w[i] == w[j] && Elementary(E, w[i..j])
  {
    var n := |w| - 1;
    if !NoDup(w[..n]) {
      assert w[..n] != [];
      i, j := RepeatGivesCycle(E, w[..n]);
      assert w[..n][i..j] == w[i..j];
    } else {
      var k, l :| 0 <= k < l < |w| && w[k] == w[l];
      assert l == n;
      i, j := k, n;
      var c := w[i..j];
      forall a, b | 0 <= a < b < |c| ensures c[a] != c[b] {
        assert c[a] == w[..n][i + a] && c[b] == w[..n][i + b];
      }
    }
  }

  lemma {:induction false} BackwardsWalk<T(!new)>(E: Edges<T>, rest: set<T>, x: T, n: nat) returns (w: seq<T>)
    requires Trapped(E, rest) && x in rest
    ensures Walk(E, w) && |w| == n + 1 && w[n] == x && Elems(w) <= rest
  {
    if n == 0 {
      w := [x];
    } else {
      assert HasParentIn(E, rest, x);
      var p :| p in rest && (p, x) in E;
      var v := BackwardsWalk(E, rest, p, n - 1);
      w := v + [x];
    }
  }

  /** A node that can always step back to a parent in the same finite set sits on or below a cycle. */
  lemma TrappedIsBelowCycle<T(!new)>(E: Edges<T>, rest: set<T>, x: T)
    requires Trapped(E, rest) && x in rest
    ensures OnOrBelowCycle(E, x)
  {
    var w := BackwardsWalk(E, rest, x, |rest|);
    Pigeonhole(w, rest);
    var i, j := RepeatGivesCycle(E, w);
    assert LeadsTo(E, w[i..j], w[i..], x);
  }

  lemma {:induction false} WalkStaysBefore<T(!new)>(E: Edges<T>, order: seq<T>, w: seq<T>, j: nat)
    requires ParentsFirst(E, order) && Walk(E, w) && j < |order| && w[|w| - 1] == order[j]
    ensures forall k :: 0 <= k < |w| - 1 ==> w[k] in order[..j]
  {
    var n := |w| - 1;
    if n > 0 {
      assert (w[n - 1], order[j]) in E;
      var m :| 0 <= m < j && order[m] == w[n - 1];
      WalkStaysBefore(E, order, w[..n], m);
      forall k | 0 <= k < n ensures w[k] in order[..j] {
        if k < n - 1 {
          assert w[..n][k] in order[..m];
        }
      }
    }
  }

  lemma {:induction false} NoCycleInOrder<T(!new)>(E: Edges<T>, order: seq<T>, c: seq<T>, m: nat)
    requires ParentsFirst(E, order) && Elementary(E, c) && m < |order| && order[m] == c[0]
    ensures false
  {
    var w := c + [c[0]];
    WalkStaysBefore(E, order, w, m);
    assert w[0] in order[..m];
    var k :| 0 <= k < m && order[k] == c[0];
    NoCycleInOrder(E, order, c, k);
  }

  /** Nothing in a parents-first order is on or below a cycle. */
  lemma OrderedIsFree<T(!new)>(E: Edges<T>, order: seq<T>, x: T)
    requires ParentsFirst(E, order) && x in order
    ensures !OnOrBelowCycle(E, x)
  {
    forall c: seq<T>, w: seq<T> | LeadsTo(E, c, w, x) ensures false {
      var j :| 0 <= j < |order| && order[j] == x;
      WalkStaysBefore(E, order, w, j);
      assert c[0] in order by {
        if |w| > 1 {
          assert w[0] in order[..j];
        }
      }
      var m :| 0 <= m < |order| && order[m] == c[0];
      NoCycleInOrder(E, order, c, m);
    }
  }

  ghost function Stuck<T(!new)>(E: Edges<T>, V: set<T>): set<T> {
    set x | x in V && OnOrBelowCycle(E, x)
  }

  /** However the peeling went, what is left is exactly what sits on or below a cycle. */
  lemma PeelingIsExact<T(!new)>(E: Edges<T>, V: set<T>, order: seq<T>, rest: set<T>)
    requires ParentsFirst(E, order) && Trapped(E, rest)
    requires V == Elems(order) + rest
    ensures rest == Stuck(E, V)
    ensures Elems(order) !! rest
  {
    forall x | x in V ensures x in rest <==> OnOrBelowCycle(E, x) {
      if x in rest {
        TrappedIsBelowCycle(E, rest, x);
      } else {
        OrderedIsFree(E, order, x);
      }
    }
    forall x | x in rest ensures x !in order {
      TrappedIsBelowCycle(E, rest, x);
      if x in order {
        OrderedIsFree(E, order, x);
      }
    }
  }

  /** Nothing is stuck exactly when the graph has no cycle. */
  lemma StuckIffCyclic<T(!new)>(E: Edges<T>, V: set<T>)
    requires forall e :: e in E ==> e.0 in V && e.1 in V
    ensures Stuck(E, V) != {} <==> Cyclic(E)
  {
    if Cyclic(E) {
      var c: seq<T> :| Elementary(E, c);
      assert LeadsTo(E, c, [c[0]], c[0]);
      assert (c[|c| - 1], c[0]) in E;
      assert c[0] in Stuck(E, V);
    }
    if Stuck(E, V) != {} {
      var x :| x in Stuck(E, V);
      assert OnOrBelowCycle(E, x);
    }
  }
}
