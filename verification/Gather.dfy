/** Configuration paths of the registered types: StaticInformation in utils/print-introspected-doxygen.cc. */
module Gather {

  /** A registered TypeId, by its position in the registry. */
  type TypeId = nat

  datatype Attribute =
    | Pointer(name: string, pointee: TypeId)
    | Container(name: string, item: TypeId)
    | Plain(name: string)

  datatype TypeInfo = TypeInfo(name: string, attributes: seq<Attribute>, ancestors: set<TypeId>)

  /** The registry, the recorded aggregations, and the TypeId of Object itself. */
  datatype Net = Net(types: seq<TypeInfo>, aggregates: seq<(TypeId, TypeId)>, objectType: TypeId)

  datatype Edge = Edge(name: string, target: TypeId)

  datatype Record = Record(tid: TypeId, path: string)

  predicate WellFormed(net: Net) {
    && (forall t :: 0 <= t < |net.types| ==> AttributesKnown(net, net.types[t].attributes))
    && (forall i :: 0 <= i < |net.aggregates| ==> net.aggregates[i].0 < |net.types| && net.aggregates[i].1 < |net.types|)
  }

  predicate AttributesKnown(net: Net, attributes: seq<Attribute>) {
    forall i :: 0 <= i < |attributes| ==>
      match attributes[i]
      case Pointer(_, p) => p < |net.types|
      case Container(_, t) => t < |net.types|
      case Plain(_) => true
  }

  // ---- the labelled multigraph that DoGather walks ----

  function AttributeEdge(net: Net, a: Attribute): seq<Edge> {
    match a
    case Pointer(name, pointee) => if pointee == net.objectType then [] else [Edge(name, pointee)]
    case Container(name, item) => [Edge(name + "/[i]", item)]
    case Plain(_) => []
  }

  function AttributeEdges(net: Net, attributes: seq<Attribute>): seq<Edge> {
    if attributes == [] then []
    else AttributeEdges(net, attributes[..|attributes| - 1]) + AttributeEdge(net, attributes[|attributes| - 1])
  }

  function ChildEdge(net: Net, tid: TypeId, j: TypeId): seq<Edge>
    requires j < |net.types|
  {
    if tid in net.types[j].ancestors then [Edge("$" + net.types[j].name, j)] else []
  }

  /** Edges to those of the first n registered types that derive from tid. */
  function ChildEdges(net: Net, tid: TypeId, n: nat): seq<Edge>
    requires n <= |net.types|
  {
    if n == 0 then [] else ChildEdges(net, tid, n - 1) + ChildEdge(net, tid, n - 1)
  }

  function AggregateEdge(net: Net, tid: TypeId, item: (TypeId, TypeId)): seq<Edge>
    requires item.0 < |net.types| && item.1 < |net.types|
  {
    if item.1 == tid then [Edge("$" + net.types[item.0].name, item.0)]
    else if item.0 == tid then [Edge("$" + net.types[item.1].name, item.1)]
    else []
  }

  function AggregateEdges(net: Net, tid: TypeId, n: nat): seq<Edge>
    requires WellFormed(net) && n <= |net.aggregates|
  {
    if n == 0 then [] else AggregateEdges(net, tid, n - 1) + AggregateEdge(net, tid, net.aggregates[n - 1])
  }

  /** All edges out of tid, in the order they are followed. */
  function Edges(net: Net, tid: TypeId): seq<Edge>
    requires WellFormed(net) && tid < |net.types|
  {
    AttributeEdges(net, net.types[tid].attributes) + ChildEdges(net, tid, |net.types|)
    + AggregateEdges(net, tid, |net.aggregates|)
  }

  predicate TargetsKnown(net: Net, es: seq<Edge>) {
    forall i :: 0 <= i < |es| ==> es[i].target < |net.types|
  }

  lemma {:induction false} AttributeTargets(net: Net, attributes: seq<Attribute>)
    requires AttributesKnown(net, attributes)
    ensures TargetsKnown(net, AttributeEdges(net, attributes))
  {
    if attributes != [] {
      AttributeTargets(net, attributes[..|attributes| - 1]);
    }
  }

  lemma {:induction false} ChildTargets(net: Net, tid: TypeId, n: nat)
    requires n <= |net.types|
    ensures TargetsKnown(net, ChildEdges(net, tid, n))
  {
    if n > 0 {
      ChildTargets(net, tid, n - 1);
    }
  }

  lemma {:induction false} AggregateTargets(net: Net, tid: TypeId, n: nat)
    requires WellFormed(net) && n <= |net.aggregates|
    ensures TargetsKnown(net, AggregateEdges(net, tid, n))
  {
    if n > 0 {
      AggregateTargets(net, tid, n - 1);
    }
  }

  lemma EdgeTargets(net: Net, tid: TypeId)
    requires WellFormed(net) && tid < |net.types|
    ensures TargetsKnown(net, Edges(net, tid))
  {
    AttributeTargets(net, net.types[tid].attributes);
    ChildTargets(net, tid, |net.types|);
    AggregateTargets(net, tid, |net.aggregates|);
  }

  // ---- simple edge-paths and their preorder ----

  /** A path as the positions of the edges taken. */
  type Path = seq<nat>

  function Target(net: Net, tid: TypeId, i: nat): TypeId
    requires WellFormed(net) && tid < |net.types|
    ensures Target(net, tid, i) < |net.types|
  {
    EdgeTargets(net, tid);
    if i < |Edges(net, tid)| then Edges(net, tid)[i].target else tid
  }

  /** The type a path leads to. */
  function End(net: Net, start: TypeId, p: Path): TypeId
    requires WellFormed(net) && start < |net.types|
    ensures End(net, start, p) < |net.types|
    decreases |p|
  {
    if p == [] then start else End(net, Target(net, start, p[0]), p[1..])
  }

  function Labels(net: Net, start: TypeId, p: Path): seq<string>
    requires WellFormed(net) && start < |net.types|
    decreases |p|
  {
    if p == [] || p[0] >= |Edges(net, start)| then []
    else [Edges(net, start)[p[0]].name] + Labels(net, Target(net, start, p[0]), p[1..])
  }

  /** p follows existing edges from start, visits no type twice, and avoids the types in `seen`. */
  ghost predicate SimplePath(net: Net, start: TypeId, seen: seq<TypeId>, p: Path)
    requires WellFormed(net) && start < |net.types|
  {
    && (forall k :: 0 <= k < |p| ==> p[k] < |Edges(net, End(net, start, p[..k]))|)
    && (forall k :: 0 <= k <= |p| ==> End(net, start, p[..k]) !in seen)
    && (forall j, k :: 0 <= j < k <= |p| ==> End(net, start, p[..j]) != End(net, start, p[..k]))
  }

  /** Preorder: a path comes before its extensions, and before what lies behind a later edge. */
  predicate Before(p: Path, q: Path) {
    exists i :: 0 <= i <= |p| && i < |q| && p[..i] == q[..i] && (i == |p| || p[i] < q[i])
  }

  ghost predicate Preorder(ps: seq<Path>) {
    forall i, j :: 0 <= i < j < |ps| ==> Before(ps[i], ps[j])
  }

  function Joined(labels: seq<string>): string {
    if labels == [] then "" else Joined(labels[..|labels| - 1]) + "/" + labels[|labels| - 1]
  }

  function RecordOf(net: Net, labels: seq<string>, start: TypeId, p: Path): Record
    requires WellFormed(net) && start < |net.types|
  {
    Record(End(net, start, p), Joined(labels + Labels(net, start, p)))
  }

  /** The records of a list of paths, below the path the labels spell. */
  function Render(net: Net, labels: seq<string>, start: TypeId, ps: seq<Path>): seq<Record>
    requires WellFormed(net) && start < |net.types|
  {
    seq(|ps|, i requires 0 <= i < |ps| => RecordOf(net, labels, start, ps[i]))
  }

  // ---- the search order ----

  ghost function Unseen(net: Net, seen: seq<TypeId>): set<TypeId> {
    set t: TypeId | t < |net.types| && t !in seen
  }

  lemma SeenShrinks(net: Net, seen: seq<TypeId>, tid: TypeId)
    requires tid < |net.types| && tid !in seen
    ensures |Unseen(net, seen + [tid])| < |Unseen(net, seen)|
  {
    assert Unseen(net, seen) == Unseen(net, seen + [tid]) + {tid};
  }

  ghost function Prefixed(i: nat, ps: seq<Path>): seq<Path> {
    seq(|ps|, k requires 0 <= k < |ps| => [i] + ps[k])
  }

  /** The paths found from tid, in order. */
  ghost function Found(net: Net, tid: TypeId, seen: seq<TypeId>): seq<Path>
    requires WellFormed(net) && tid < |net.types|
    decreases |Unseen(net, seen)|, 1, 0
  {
    if tid in seen then []
    else
      SeenShrinks(net, seen, tid);
      EdgeTargets(net, tid);
      [[]] + Below(net, Edges(net, tid), seen + [tid])
  }

  /** The paths found through a list of edges. */
  ghost function Below(net: Net, es: seq<Edge>, seen: seq<TypeId>): seq<Path>
    requires WellFormed(net) && TargetsKnown(net, es)
    decreases |Unseen(net, seen)|, 2, |es|
  {
    if es == [] then []
    else
      var n := |es| - 1;
      Below(net, es[..n], seen) + Prefixed(n, Found(net, es[n].target, seen))
  }

  lemma BelowStep(net: Net, es: seq<Edge>, e: Edge, seen: seq<TypeId>)
    requires WellFormed(net) && TargetsKnown(net, es) && e.target < |net.types|
    ensures TargetsKnown(net, es + [e])
    ensures Below(net, es + [e], seen) == Below(net, es, seen) + Prefixed(|es|, Found(net, e.target, seen))
  {
    assert (es + [e])[..|es|] == es;
  }

  // -- in preorder --

  lemma BeforeCons(i: nat, p: Path, q: Path)
    requires Before(p, q)
    ensures Before([i] + p, [i] + q)
  {
    var k :| 0 <= k <= |p| && k < |q| && p[..k] == q[..k] && (k == |p| || p[k] < q[k]);
    assert ([i] + p)[..k + 1] == [i] + p[..k] && ([i] + q)[..k + 1] == [i] + q[..k];
  }

  lemma BeforeSibling(i: nat, j: nat, p: Path, q: Path)
    requires i < j
    ensures Before([i] + p, [j] + q) && Before([], [j] + q)
  {
    assert ([i] + p)[..0] == ([j] + q)[..0] == [];
    assert ([])[..0] == ([j] + q)[..0];
  }

  lemma EmptyPreorder()
    ensures Preorder([])
  {
  }

  lemma PrefixedPreorder(i: nat, ps: seq<Path>)
    requires Preorder(ps)
    ensures Preorder(Prefixed(i, ps))
  {
    hide Before;
    forall j, k | 0 <= j < k < |ps| ensures Before([i] + ps[j], [i] + ps[k]) {
      BeforeCons(i, ps[j], ps[k]);
    }
  }

  lemma PreorderConcat(a: seq<Path>, b: seq<Path>)
    requires Preorder(a) && Preorder(b) && forall i, j :: 0 <= i < |a| && 0 <= j < |b| ==> Before(a[i], b[j])
    ensures Preorder(a + b)
  {
    hide Before;
  }

  lemma {:induction false} FoundPreorder(net: Net, tid: TypeId, seen: seq<TypeId>)
    requires WellFormed(net) && tid < |net.types|
    ensures Preorder(Found(net, tid, seen))
    decreases |Unseen(net, seen)|, 1, 0
  {
    if tid !in seen {
      SeenShrinks(net, seen, tid);
      EdgeTargets(net, tid);
      var below := Below(net, Edges(net, tid), seen + [tid]);
      BelowPreorder(net, Edges(net, tid), seen + [tid]);
      forall j | 0 <= j < |below| ensures Before([], below[j]) {
        BeforeSibling(0, below[j][0] + 1, [], []);
        assert ([])[..0] == below[j][..0];
      }
    }
  }

  lemma {:induction false} BelowPreorder(net: Net, es: seq<Edge>, seen: seq<TypeId>)
    requires WellFormed(net) && TargetsKnown(net, es)
    ensures Preorder(Below(net, es, seen))
    ensures forall i :: 0 <= i < |Below(net, es, seen)| ==> Below(net, es, seen)[i] != [] && Below(net, es, seen)[i][0] < |es|
    decreases |Unseen(net, seen)|, 2, |es|
  {
    hide Preorder, Before, Unseen;
    if es == [] {
      EmptyPreorder();
    } else {
      var n := |es| - 1;
      BelowPreorder(net, es[..n], seen);
      FoundPreorder(net, es[n].target, seen);
      var a, f := Below(net, es[..n], seen), Found(net, es[n].target, seen);
      var b := Prefixed(n, f);
      PrefixedPreorder(n, f);
      forall i, j | 0 <= i < |a| && 0 <= j < |b| ensures Before(a[i], b[j]) {
        BeforeSibling(a[i][0], n, a[i][1..], f[j]);
        assert a[i] == [a[i][0]] + a[i][1..];
      }
      PreorderConcat(a, b);
    }
  }

  // -- exactly the simple paths --

  lemma EndCons(net: Net, start: TypeId, i: nat, q: Path, k: nat)
    requires WellFormed(net) && start < |net.types| && k <= |q|
    ensures End(net, start, ([i] + q)[..k + 1]) == End(net, Target(net, start, i), q[..k])
  {
    assert ([i] + q)[..k + 1] == [i] + q[..k];
    assert ([i] + q[..k])[1..] == q[..k];
  }

  lemma SimpleNil(net: Net, start: TypeId, seen: seq<TypeId>)
    requires WellFormed(net) && start < |net.types|
    ensures SimplePath(net, start, seen, []) <==> start !in seen
  {
    var p: Path := [];
    assert p[..0] == p;
  }

  lemma SimpleConsForward(net: Net, start: TypeId, seen: seq<TypeId>, i: nat, q: Path)
    requires WellFormed(net) && start < |net.types| && SimplePath(net, start, seen, [i] + q)
    ensures start !in seen && i < |Edges(net, start)| && SimplePath(net, Target(net, start, i), seen + [start], q)
  {
    hide Edges, Target, WellFormed;
    var p, t := [i] + q, Target(net, start, i);
    assert p[..0] == [] && p[0] == i;
    assert End(net, start, p[..0]) == start;
    forall k | 0 <= k <= |q| ensures End(net, start, p[..k + 1]) == End(net, t, q[..k]) {
      EndCons(net, start, i, q, k);
    }
    forall k | 0 <= k <= |q| ensures End(net, t, q[..k]) !in seen + [start] {
      assert End(net, start, p[..k + 1]) != End(net, start, p[..0]);
    }
    forall k | 0 <= k < |q| ensures q[k] < |Edges(net, End(net, t, q[..k]))| {
      assert p[k + 1] == q[k];
    }
    forall j, k | 0 <= j < k <= |q| ensures End(net, t, q[..j]) != End(net, t, q[..k]) {
      assert End(net, start, p[..j + 1]) != End(net, start, p[..k + 1]);
    }
  }

  lemma SimpleConsBack(net: Net, start: TypeId, seen: seq<TypeId>, i: nat, q: Path)
    requires WellFormed(net) && start < |net.types|
    requires start !in seen && i < |Edges(net, start)| && SimplePath(net, Target(net, start, i), seen + [start], q)
    ensures SimplePath(net, start, seen, [i] + q)
  {
    hide Edges, Target, WellFormed;
    var p, t := [i] + q, Target(net, start, i);
    assert p[..0] == [] && End(net, start, p[..0]) == start;
    forall k | 0 < k <= |p| ensures End(net, start, p[..k]) == End(net, t, q[..k - 1]) {
      EndCons(net, start, i, q, k - 1);
    }
    forall k | 0 <= k < |p| ensures p[k] < |Edges(net, End(net, start, p[..k]))| {
      if k > 0 {
        assert p[k] == q[k - 1];
      }
    }
    forall k | 0 < k <= |p| ensures End(net, start, p[..k]) !in seen + [start] {
      assert End(net, t, q[..k - 1]) !in seen + [start];
    }
    forall j, k | 0 <= j < k <= |p| ensures End(net, start, p[..j]) != End(net, start, p[..k]) {
      if j > 0 {
        assert End(net, t, q[..j - 1]) != End(net, t, q[..k - 1]);
      }
    }
  }

  lemma SeenIsNotSimple(net: Net, start: TypeId, seen: seq<TypeId>, p: Path)
    requires WellFormed(net) && start < |net.types| && start in seen
    ensures !SimplePath(net, start, seen, p)
  {
    assert p[..0] == [];
    assert End(net, start, p[..0]) == start;
  }

  /** One path for each simple edge-path, and nothing else. */
  lemma {:induction false} FoundExactly(net: Net, tid: TypeId, seen: seq<TypeId>, p: Path)
    requires WellFormed(net) && tid < |net.types|
    ensures p in Found(net, tid, seen) <==> SimplePath(net, tid, seen, p)
    decreases |p|
  {
    hide SimplePath, Edges, End, Below, WellFormed;
    if tid in seen {
      SeenIsNotSimple(net, tid, seen, p);
    } else {
      EdgeTargets(net, tid);
      var es := Edges(net, tid);
      if p == [] {
        SimpleNil(net, tid, seen);
      } else {
        var i, q := p[0], p[1..];
        assert p == [i] + q;
        BelowMember(net, es, seen + [tid], p);
        if i < |es| {
          FoundExactly(net, es[i].target, seen + [tid], q);
        }
        if SimplePath(net, tid, seen, p) {
          SimpleConsForward(net, tid, seen, i, q);
        }
        if i < |es| && SimplePath(net, es[i].target, seen + [tid], q) {
          SimpleConsBack(net, tid, seen, i, q);
        }
      }
    }
  }

  lemma {:induction false} BelowMember(net: Net, es: seq<Edge>, seen: seq<TypeId>, p: Path)
    requires WellFormed(net) && TargetsKnown(net, es) && p != []
    ensures p in Below(net, es, seen) <==> p[0] < |es| && p[1..] in Found(net, es[p[0]].target, seen)
    decreases |es|
  {
    if es != [] {
      var n := |es| - 1;
      BelowMember(net, es[..n], seen, p);
      PrefixedMember(n, Found(net, es[n].target, seen), p);
    }
  }

  lemma PrefixedMember(i: nat, ps: seq<Path>, p: Path)
    requires p != []
    ensures p in Prefixed(i, ps) <==> p[0] == i && p[1..] in ps
  {
    var out := Prefixed(i, ps);
    if p in out {
      var k :| 0 <= k < |out| && out[k] == p;
      assert p[1..] == ps[k];
    }
    if p[0] == i && p[1..] in ps {
      var k :| 0 <= k < |ps| && ps[k] == p[1..];
      assert out[k] == [i] + p[1..] == p;
    }
  }

  lemma BeforeIrreflexive(p: Path)
    ensures !Before(p, p)
  {
  }

  /** The search yields each simple edge-path exactly once, and in preorder. */
  lemma FoundOnce(net: Net, tid: TypeId, seen: seq<TypeId>)
    requires WellFormed(net) && tid < |net.types|
    ensures Preorder(Found(net, tid, seen))
    ensures forall i, j :: 0 <= i < j < |Found(net, tid, seen)| ==> Found(net, tid, seen)[i] != Found(net, tid, seen)[j]
    ensures forall p :: p in Found(net, tid, seen) <==> SimplePath(net, tid, seen, p)
  {
    hide Found, SimplePath, Before;
    FoundPreorder(net, tid, seen);
    var f := Found(net, tid, seen);
    forall i, j | 0 <= i < j < |f| ensures f[i] != f[j] {
      BeforeIrreflexive(f[i]);
    }
    forall p ensures p in f <==> SimplePath(net, tid, seen, p) {
      FoundExactly(net, tid, seen, p);
    }
  }

  /** Reporting what lies behind the next edge adds exactly its paths, spelled from the longer prefix. */
  lemma RenderStep(net: Net, labels: seq<string>, tid: TypeId, ps: seq<Path>, i: nat, f: seq<Path>)
    requires WellFormed(net) && tid < |net.types| && i < |Edges(net, tid)|
    ensures Render(net, labels, tid, ps + Prefixed(i, f)) ==
      Render(net, labels, tid, ps) + Render(net, labels + [Edges(net, tid)[i].name], Target(net, tid, i), f)
  {
    hide Edges, Joined, WellFormed, Target;
    var name := Edges(net, tid)[i].name;
    forall k | 0 <= k < |f| ensures RecordOf(net, labels, tid, [i] + f[k]) == RecordOf(net, labels + [name], Target(net, tid, i), f[k]) {
      assert ([i] + f[k])[1..] == f[k];
      assert labels + Labels(net, tid, [i] + f[k]) == labels + [name] + Labels(net, Target(net, tid, i), f[k]);
    }
  }

  class StaticInformation {
    const net: Net
    var output: seq<Record>
    var currentPath: seq<string>
    var alreadyProcessed: seq<TypeId>

    constructor (net: Net)
      ensures this.net == net && output == [] && currentPath == [] && alreadyProcessed == []
    {
      this.net := net;
      output, currentPath, alreadyProcessed := [], [], [];
    }

    method GetCurrentPath() returns (path: string)
      ensures path == Joined(currentPath)
    {
      path := "";
      for i := 0 to |currentPath|
        invariant path == Joined(currentPath[..i])
      {
        assert currentPath[..i + 1][..i] == currentPath[..i];
        path := path + "/" + currentPath[i];
      }
      assert currentPath[..|currentPath|] == currentPath;
    }

    method HasAlreadyBeenProcessed(tid: TypeId) returns (processed: bool)
      ensures processed <==> tid in alreadyProcessed
    {
      for i := 0 to |alreadyProcessed|
        invariant tid !in alreadyProcessed[..i]
      {
        if alreadyProcessed[i] == tid {
          return true;
        }
      }
      return false;
    }

    method RecordOutput(tid: TypeId)
      modifies this`output
      ensures output == old(output) + [Record(tid, Joined(currentPath))]
    {
      var path := GetCurrentPath();
      output := output + [Record(tid, path)];
    }

    /** Both stacks are as at entry, and everything behind the edges es of tid has been reported. */
    ghost predicate Explored(out: seq<Record>, labels: seq<string>, seen: seq<TypeId>, tid: TypeId, es: seq<Edge>)
      reads this
    {
      && WellFormed(net) && tid < |net.types| && TargetsKnown(net, es) && tid !in seen
      && es <= Edges(net, tid)
      && currentPath == labels && alreadyProcessed == seen
      && output == out + Render(net, labels, tid, [[]] + Below(net, es, seen + [tid]))
    }

    /** Appends one record for each simple path from tid, in preorder, and leaves both stacks as they were. */
    method DoGather(tid: TypeId)
      requires WellFormed(net) && tid < |net.types|
      modifies this`output, this`currentPath, this`alreadyProcessed
      ensures currentPath == old(currentPath) && alreadyProcessed == old(alreadyProcessed)
      ensures output == old(output) + Render(net, old(currentPath), tid, Found(net, tid, old(alreadyProcessed)))
      decreases |Unseen(net, alreadyProcessed)|, 2
    {
      hide WellFormed, Edges, Render, Found, Below, AttributeEdges, ChildEdges, AggregateEdges, Unseen;
      var processed := HasAlreadyBeenProcessed(tid);
      if processed {
        NothingFound(net, currentPath, tid, alreadyProcessed);
        return;
      }
      ghost var out, labels, seen := output, currentPath, alreadyProcessed;
      RecordOutput(tid);
      FirstRecord(net, labels, tid, seen);
      LoopStarts(net, tid);
      GatherAttributes(tid, out);
      GatherChildren(tid, out);
      GatherAggregates(tid, out);
      AllExplored(net, labels, tid, seen);
    }

    method GatherAttributes(tid: TypeId, ghost out: seq<Record>)
      requires Explored(out, currentPath, alreadyProcessed, tid, [])
      modifies this`output, this`currentPath, this`alreadyProcessed
      ensures Explored(out, old(currentPath), old(alreadyProcessed), tid, AttributeEdges(net, net.types[tid].attributes))
      decreases |Unseen(net, alreadyProcessed)|, 1
    {
      hide WellFormed, Edges, Render, Below, AttributeEdges, Unseen;
      ghost var labels, seen := currentPath, alreadyProcessed;
      var attributes := net.types[tid].attributes;
      LoopStarts(net, tid);
      for i := 0 to |attributes|
        invariant Explored(out, labels, seen, tid, AttributeEdges(net, attributes[..i]))
      {
        AttributeStep(net, tid, i);
        ghost var es := AttributeEdges(net, attributes[..i]);
        assert es + [] == es;
        assert forall e :: AttributeEdge(net, attributes[i]) == [e] ==> [e][0].target < |net.types|;
        match attributes[i]
        case Pointer(name, pointee) =>
          if pointee != net.objectType {
            Follow(tid, Edge(name, pointee), out, es);
          }
        case Container(name, item) =>
          Follow(tid, Edge(name + "/[i]", item), out, es);
        case Plain(_) =>
      }
      assert attributes[..|attributes|] == attributes;
    }

    method GatherChildren(tid: TypeId, ghost out: seq<Record>)
      requires tid < |net.types|
      requires Explored(out, currentPath, alreadyProcessed, tid, AttributeEdges(net, net.types[tid].attributes))
      modifies this`output, this`currentPath, this`alreadyProcessed
      ensures Explored(out, old(currentPath), old(alreadyProcessed), tid,
                       AttributeEdges(net, net.types[tid].attributes) + ChildEdges(net, tid, |net.types|))
      decreases |Unseen(net, alreadyProcessed)|, 1
    {
      hide WellFormed, Edges, Render, Below, AttributeEdges, ChildEdges, Unseen;
      ghost var labels, seen := currentPath, alreadyProcessed;
      ghost var es := AttributeEdges(net, net.types[tid].attributes);
      LoopStarts(net, tid);
      for j := 0 to |net.types|
        invariant Explored(out, labels, seen, tid, es + ChildEdges(net, tid, j))
      {
        ChildStep(net, tid, j);
        assert (es + ChildEdges(net, tid, j)) + [] == es + ChildEdges(net, tid, j);
        if tid in net.types[j].ancestors {
          Follow(tid, Edge("$" + net.types[j].name, j), out, es + ChildEdges(net, tid, j));
        }
      }
    }

    method GatherAggregates(tid: TypeId, ghost out: seq<Record>)
      requires WellFormed(net) && tid < |net.types|
      requires Explored(out, currentPath, alreadyProcessed, tid,
                        AttributeEdges(net, net.types[tid].attributes) + ChildEdges(net, tid, |net.types|))
      modifies this`output, this`currentPath, this`alreadyProcessed
      ensures Explored(out, old(currentPath), old(alreadyProcessed), tid,
                       AttributeEdges(net, net.types[tid].attributes) + ChildEdges(net, tid, |net.types|)
                       + AggregateEdges(net, tid, |net.aggregates|))
      decreases |Unseen(net, alreadyProcessed)|, 1
    {
      hide WellFormed, Edges, Render, Below, AttributeEdges, ChildEdges, AggregateEdges, Unseen;
      ghost var labels, seen := currentPath, alreadyProcessed;
      ghost var es := AttributeEdges(net, net.types[tid].attributes) + ChildEdges(net, tid, |net.types|);
      LoopStarts(net, tid);
      for k := 0 to |net.aggregates|
        invariant Explored(out, labels, seen, tid, es + AggregateEdges(net, tid, k))
      {
        AggregateStep(net, tid, k);
        assert (es + AggregateEdges(net, tid, k)) + [] == es + AggregateEdges(net, tid, k);
        var item := net.aggregates[k];
        if item.0 == tid || item.1 == tid {
          var other: TypeId := item.1;
          if item.1 == tid {
            other := item.0;
          }
          Follow(tid, Edge("$" + net.types[other].name, other), out, es + AggregateEdges(net, tid, k));
        }
      }
    }

    /** Pushes the step and the type, gathers the target, and pops both again. */
    method Follow(tid: TypeId, e: Edge, ghost out: seq<Record>, ghost es: seq<Edge>)
      requires Explored(out, currentPath, alreadyProcessed, tid, es) && e.target < |net.types|
      requires es + [e] <= Edges(net, tid)
      modifies this`output, this`currentPath, this`alreadyProcessed
      ensures Explored(out, old(currentPath), old(alreadyProcessed), tid, es + [e])
      decreases |Unseen(net, alreadyProcessed)|, 0
    {
      hide WellFormed, Edges, Render, Found, Below, Unseen;
      ghost var labels, seen := currentPath, alreadyProcessed;
      SeenShrinks(net, alreadyProcessed, tid);
      currentPath := currentPath + [e.name];
      alreadyProcessed := alreadyProcessed + [tid];
      DoGather(e.target);
      alreadyProcessed := alreadyProcessed[..|alreadyProcessed| - 1];
      currentPath := currentPath[..|currentPath| - 1];
      FollowedEdge(net, labels, tid, seen, es, e);
    }

    /** `paths` are the simple edge-paths from tid, each once and in preorder; there is one new record for each. */
    method Gather(tid: TypeId) returns (ghost paths: seq<Path>)
      requires WellFormed(net) && tid < |net.types|
      modifies this`output, this`currentPath, this`alreadyProcessed
      ensures currentPath == old(currentPath) && alreadyProcessed == old(alreadyProcessed)
      ensures Preorder(paths) && forall p :: p in paths <==> SimplePath(net, tid, old(alreadyProcessed), p)
      ensures output == old(output) + Render(net, old(currentPath), tid, paths)
    {
      hide Found, SimplePath, Preorder, Render, WellFormed;
      paths := Found(net, tid, alreadyProcessed);
      FoundOnce(net, tid, alreadyProcessed);
      DoGather(tid);
    }

    /** The recorded paths of one type, in the order recorded. */
    method Get(tid: TypeId) returns (paths: seq<string>)
      ensures paths == PathsOf(output, tid)
    {
      paths := [];
      for i := 0 to |output|
        invariant paths == PathsOf(output[..i], tid)
      {
        assert output[..i + 1][..i] == output[..i];
        if output[i].tid == tid {
          paths := paths + [output[i].path];
        }
      }
      assert output[..|output|] == output;
    }
  }

  function PathsOf(records: seq<Record>, tid: TypeId): seq<string> {
    if records == [] then []
    else
      var r := records[|records| - 1];
      PathsOf(records[..|records| - 1], tid) + if r.tid == tid then [r.path] else []
  }

  lemma {:induction false} PathsOfMember(records: seq<Record>, tid: TypeId, path: string)
    ensures path in PathsOf(records, tid) <==> Record(tid, path) in records
  {
    if records != [] {
      var n := |records| - 1;
      PathsOfMember(records[..n], tid, path);
      assert records == records[..n] + [records[n]];
    }
  }

  /** After gathering from `start` alone, the paths of a type are the spellings of the simple paths that end in it. */
  lemma GatheredPaths(net: Net, start: TypeId, tid: TypeId, path: string)
    requires WellFormed(net) && start < |net.types|
    ensures path in PathsOf(Render(net, [], start, Found(net, start, [])), tid) <==>
      exists p :: SimplePath(net, start, [], p) && End(net, start, p) == tid && Joined(Labels(net, start, p)) == path
  {
    hide Found, SimplePath, Joined, Labels, End, PathsOf, WellFormed;
    var f := Found(net, start, []);
    var out := Render(net, [], start, f);
    PathsOfMember(out, tid, path);
    FoundOnce(net, start, []);
    assert forall p :: [] + Labels(net, start, p) == Labels(net, start, p);
    if Record(tid, path) in out {
      var k :| 0 <= k < |out| && out[k] == Record(tid, path);
      assert f[k] in f;
    }
    if p :| SimplePath(net, start, [], p) && End(net, start, p) == tid && Joined(Labels(net, start, p)) == path {
      var k :| 0 <= k < |f| && f[k] == p;
      assert out[k] == Record(tid, path);
    }
  }

  // ---- steps of DoGather ----

  lemma NothingFound(net: Net, labels: seq<string>, tid: TypeId, seen: seq<TypeId>)
    requires WellFormed(net) && tid < |net.types| && tid in seen
    ensures Render(net, labels, tid, Found(net, tid, seen)) == []
  {
  }

  lemma FirstRecord(net: Net, labels: seq<string>, tid: TypeId, seen: seq<TypeId>)
    requires WellFormed(net) && tid < |net.types|
    ensures Render(net, labels, tid, [[]] + Below(net, [], seen + [tid])) == [Record(tid, Joined(labels))]
  {
    assert labels + Labels(net, tid, []) == labels;
    assert [[]] + Below(net, [], seen + [tid]) == [[]];
  }

  lemma AllExplored(net: Net, labels: seq<string>, tid: TypeId, seen: seq<TypeId>)
    requires WellFormed(net) && tid < |net.types| && tid !in seen
    ensures
      var es := AttributeEdges(net, net.types[tid].attributes) + ChildEdges(net, tid, |net.types|)
                + AggregateEdges(net, tid, |net.aggregates|);
      TargetsKnown(net, es) && [[]] + Below(net, es, seen + [tid]) == Found(net, tid, seen)
  {
    EdgeTargets(net, tid);
  }

  lemma FollowedEdge(net: Net, labels: seq<string>, tid: TypeId, seen: seq<TypeId>, es: seq<Edge>, e: Edge)
    requires WellFormed(net) && tid < |net.types| && TargetsKnown(net, es) && e.target < |net.types|
    requires es + [e] <= Edges(net, tid)
    ensures TargetsKnown(net, es + [e])
    ensures Render(net, labels, tid, [[]] + Below(net, es + [e], seen + [tid])) ==
      Render(net, labels, tid, [[]] + Below(net, es, seen + [tid]))
      + Render(net, labels + [e.name], e.target, Found(net, e.target, seen + [tid]))
  {
    hide Render, Found, Below;
    var f, b := Found(net, e.target, seen + [tid]), Below(net, es, seen + [tid]);
    BelowStep(net, es, e, seen + [tid]);
    assert Edges(net, tid)[|es|] == (es + [e])[|es|] == e;
    assert [[]] + (b + Prefixed(|es|, f)) == ([[]] + b) + Prefixed(|es|, f);
    RenderStep(net, labels, tid, [[]] + b, |es|, f);
  }

  // Where the three loops are in the list of edges.

  lemma {:induction false} AttributePrefix(net: Net, attributes: seq<Attribute>, i: nat)
    requires i <= |attributes|
    ensures AttributeEdges(net, attributes[..i]) <= AttributeEdges(net, attributes)
    decreases |attributes|
  {
    if i == |attributes| {
      assert attributes[..i] == attributes;
    } else {
      var n := |attributes| - 1;
      AttributePrefix(net, attributes[..n], i);
      assert attributes[..n][..i] == attributes[..i];
    }
  }

  lemma {:induction false} ChildPrefix(net: Net, tid: TypeId, j: nat, n: nat)
    requires j <= n <= |net.types|
    ensures ChildEdges(net, tid, j) <= ChildEdges(net, tid, n)
  {
    if j < n {
      ChildPrefix(net, tid, j, n - 1);
    }
  }

  lemma {:induction false} AggregatePrefix(net: Net, tid: TypeId, k: nat, n: nat)
    requires WellFormed(net) && k <= n <= |net.aggregates|
    ensures AggregateEdges(net, tid, k) <= AggregateEdges(net, tid, n)
  {
    if k < n {
      AggregatePrefix(net, tid, k, n - 1);
    }
  }

  lemma AttributeStep(net: Net, tid: TypeId, i: nat)
    requires WellFormed(net) && tid < |net.types| && i < |net.types[tid].attributes|
    ensures
      var attributes := net.types[tid].attributes;
      && AttributeEdges(net, attributes[..i + 1]) == AttributeEdges(net, attributes[..i]) + AttributeEdge(net, attributes[i])
      && AttributeEdges(net, attributes[..i + 1]) <= Edges(net, tid)
      && TargetsKnown(net, AttributeEdge(net, attributes[i]))
  {
    hide ChildEdges, AggregateEdges;
    var attributes := net.types[tid].attributes;
    assert attributes[..i + 1][..i] == attributes[..i];
    AttributePrefix(net, attributes, i + 1);
  }

  lemma ChildStep(net: Net, tid: TypeId, j: nat)
    requires WellFormed(net) && tid < |net.types| && j < |net.types|
    ensures
      var es := AttributeEdges(net, net.types[tid].attributes);
      && es + ChildEdges(net, tid, j + 1) == (es + ChildEdges(net, tid, j)) + ChildEdge(net, tid, j)
      && es + ChildEdges(net, tid, j + 1) <= Edges(net, tid)
  {
    hide AttributeEdges, AggregateEdges, WellFormed;
    ChildPrefix(net, tid, j + 1, |net.types|);
  }

  lemma AggregateStep(net: Net, tid: TypeId, k: nat)
    requires WellFormed(net) && tid < |net.types| && k < |net.aggregates|
    ensures net.aggregates[k].0 < |net.types| && net.aggregates[k].1 < |net.types|
    ensures
      var es := AttributeEdges(net, net.types[tid].attributes) + ChildEdges(net, tid, |net.types|);
      && es + AggregateEdges(net, tid, k + 1) == (es + AggregateEdges(net, tid, k)) + AggregateEdge(net, tid, net.aggregates[k])
      && es + AggregateEdges(net, tid, k + 1) <= Edges(net, tid)
  {
    hide AttributeEdges, ChildEdges;
    AggregatePrefix(net, tid, k + 1, |net.aggregates|);
  }

  /** The loops start where the one before stopped. */
  lemma LoopStarts(net: Net, tid: TypeId)
    requires WellFormed(net) && tid < |net.types|
    ensures
      var attributes := net.types[tid].attributes;
      && AttributeEdges(net, attributes[..0]) == []
      && AttributeEdges(net, attributes) + ChildEdges(net, tid, 0) == AttributeEdges(net, attributes)
      && AttributeEdges(net, attributes) + ChildEdges(net, tid, |net.types|) + AggregateEdges(net, tid, 0) ==
         AttributeEdges(net, attributes) + ChildEdges(net, tid, |net.types|)
  {
  }
}
