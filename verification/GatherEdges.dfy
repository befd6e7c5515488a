/** Which edges the search of utils/print-introspected-doxygen.cc follows out of a type, and in which order. */
module GatherEdges {
  import opened Sequences
  import opened Gather

  /** A pointer to anything but Object, or a container, is followed. */
  function Followed(net: Net): Attribute -> bool {
    (a: Attribute) => a.Container? || (a.Pointer? && a.pointee != net.objectType)
  }

  function DerivedFrom(tid: TypeId): TypeInfo -> bool {
    (t: TypeInfo) => tid in t.ancestors
  }

  function Involves(tid: TypeId): ((TypeId, TypeId)) -> bool {
    (item: (TypeId, TypeId)) => item.0 == tid || item.1 == tid
  }

  /** The edge of an attribute that is followed. */
  predicate AttributeGives(attributes: seq<Attribute>, i: nat, e: Edge) {
    i < |attributes| &&
    match attributes[i]
    case Pointer(name, pointee) => e == Edge(name, pointee)
    case Container(name, item) => e == Edge(name + "/[i]", item)
    case Plain(_) => false
  }

  predicate ChildGives(net: Net, i: nat, e: Edge) {
    i < |net.types| && e == Edge("$" + net.types[i].name, i)
  }

  /** The edge of an aggregation leads to the other side. */
  predicate AggregateGives(net: Net, tid: TypeId, i: nat, e: Edge) {
    && i < |net.aggregates|
    && var other := if net.aggregates[i].1 == tid then net.aggregates[i].0 else net.aggregates[i].1;
       other < |net.types| && e == Edge("$" + net.types[other].name, other)
  }

  lemma {:induction false} AttributesExactly(net: Net, attributes: seq<Attribute>) returns (at: seq<nat>)
    ensures Exactly(attributes, at, Followed(net))
    ensures |AttributeEdges(net, attributes)| == |at|
    ensures forall n :: 0 <= n < |at| ==> AttributeGives(attributes, at[n], AttributeEdges(net, attributes)[n])
  {
    hide Exactly;
    if attributes == [] {
      at := [];
      ExactlyNone(Followed(net));
    } else {
      var n := |attributes| - 1;
      var before := AttributesExactly(net, attributes[..n]);
      ExactlyStep(attributes[..n], attributes[n], before, Followed(net));
      assert attributes == attributes[..n] + [attributes[n]];
      at := if Followed(net)(attributes[n]) then before + [n] else before;
    }
  }

  lemma {:induction false} ChildrenExactly(net: Net, tid: TypeId, n: nat) returns (at: seq<nat>)
    requires n <= |net.types|
    ensures Exactly(net.types[..n], at, DerivedFrom(tid))
    ensures |ChildEdges(net, tid, n)| == |at|
    ensures forall k :: 0 <= k < |at| ==> ChildGives(net, at[k], ChildEdges(net, tid, n)[k])
  {
    hide Exactly;
    if n == 0 {
      at := [];
      ExactlyNone(DerivedFrom(tid));
    } else {
      hide ChildEdges, ChildGives, DerivedFrom;
      var before := ChildrenExactly(net, tid, n - 1);
      ExactlyNext(net.types, n - 1, before, DerivedFrom(tid));
      at := if DerivedFrom(tid)(net.types[n - 1]) then before + [n - 1] else before;
    }
  }

  lemma AggregateEdgesStep(net: Net, tid: TypeId, n: nat) returns (more: seq<Edge>)
    requires WellFormed(net) && n < |net.aggregates|
    ensures AggregateEdges(net, tid, n + 1) == AggregateEdges(net, tid, n) + more
    ensures |more| == if Involves(tid)(net.aggregates[n]) then 1 else 0
    ensures more != [] ==> AggregateGives(net, tid, n, more[0])
  {
    more := AggregateEdge(net, tid, net.aggregates[n]);
  }

  lemma NoAggregates(net: Net, tid: TypeId)
    requires WellFormed(net)
    ensures Exactly(net.aggregates[..0], [], Involves(tid)) && AggregateEdges(net, tid, 0) == []
  {
    assert net.aggregates[..0] == [];
  }

  lemma {:induction false} AggregatesExactly(net: Net, tid: TypeId, n: nat) returns (at: seq<nat>)
    requires WellFormed(net) && n <= |net.aggregates|
    ensures Exactly(net.aggregates[..n], at, Involves(tid))
    ensures |AggregateEdges(net, tid, n)| == |at|
    ensures forall k :: 0 <= k < |at| ==> AggregateGives(net, tid, at[k], AggregateEdges(net, tid, n)[k])
  {
    hide Exactly, WellFormed, AggregateEdges, AggregateGives, Involves;
    if n == 0 {
      at := [];
      NoAggregates(net, tid);
    } else {
      var before := AggregatesExactly(net, tid, n - 1);
      ExactlyNext(net.aggregates, n - 1, before, Involves(tid));
      var more := AggregateEdgesStep(net, tid, n - 1);
      at := if Involves(tid)(net.aggregates[n - 1]) then before + [n - 1] else before;
    }
  }

  /** Every edge out of a type, in order and as often as it is followed: one for each attribute that points to anything
      but Object or is a container, in attribute order; then one for each registered type with tid among its ancestors, by
      registration; then one for each recorded aggregation with tid on one side, as recorded. */
  lemma EdgesExactly(net: Net, tid: TypeId) returns (attributes: seq<nat>, children: seq<nat>, aggregates: seq<nat>)
    requires WellFormed(net) && tid < |net.types|
    ensures Exactly(net.types[tid].attributes, attributes,
                    (a: Attribute) => a.Container? || (a.Pointer? && a.pointee != net.objectType))
    ensures Exactly(net.types, children, (t: TypeInfo) => tid in t.ancestors)
    ensures Exactly(net.aggregates, aggregates, (item: (TypeId, TypeId)) => item.0 == tid || item.1 == tid)
    ensures |Edges(net, tid)| == |attributes| + |children| + |aggregates|
    ensures forall n :: 0 <= n < |attributes| ==> AttributeGives(net.types[tid].attributes, attributes[n], Edges(net, tid)[n])
    ensures forall n :: 0 <= n < |children| ==> ChildGives(net, children[n], Edges(net, tid)[|attributes| + n])
    ensures forall n :: 0 <= n < |aggregates| ==>
      AggregateGives(net, tid, aggregates[n], Edges(net, tid)[|attributes| + |children| + n])
  {
    hide AttributeEdges, ChildEdges, AggregateEdges, AttributeGives, ChildGives, AggregateGives;
    attributes := AttributesExactly(net, net.types[tid].attributes);
    children := ChildrenExactly(net, tid, |net.types|);
    aggregates := AggregatesExactly(net, tid, |net.aggregates|);
    assert net.types[..|net.types|] == net.types && net.aggregates[..|net.aggregates|] == net.aggregates;
  }

  lemma AttributeEdgeIff(net: Net, attributes: seq<Attribute>, l: string, t: TypeId)
    ensures Edge(l, t) in AttributeEdges(net, attributes) <==>
      || (t != net.objectType && Pointer(l, t) in attributes)
      || (exists name :: Container(name, t) in attributes && l == name + "/[i]")
  {
    hide AttributeEdges;
    var at := AttributesExactly(net, attributes);
    var es := AttributeEdges(net, attributes);
    if Edge(l, t) in es {
      var n :| 0 <= n < |es| && es[n] == Edge(l, t);
      assert at[n] in at && attributes[at[n]] in attributes;
    }
    if t != net.objectType && Pointer(l, t) in attributes {
      var i :| 0 <= i < |attributes| && attributes[i] == Pointer(l, t);
      var n :| 0 <= n < |at| && at[n] == i;
      assert es[n] == Edge(l, t);
    }
    if name :| Container(name, t) in attributes && l == name + "/[i]" {
      var i :| 0 <= i < |attributes| && attributes[i] == Container(name, t);
      var n :| 0 <= n < |at| && at[n] == i;
      assert es[n] == Edge(l, t);
    }
  }

  lemma ChildEdgeIff(net: Net, tid: TypeId, l: string, t: TypeId)
    ensures Edge(l, t) in ChildEdges(net, tid, |net.types|) <==>
      t < |net.types| && tid in net.types[t].ancestors && l == "$" + net.types[t].name
  {
    hide ChildEdges;
    var at := ChildrenExactly(net, tid, |net.types|);
    var es := ChildEdges(net, tid, |net.types|);
    if Edge(l, t) in es {
      var n :| 0 <= n < |es| && es[n] == Edge(l, t);
      assert at[n] in at;
    }
    if t < |net.types| && tid in net.types[t].ancestors && l == "$" + net.types[t].name {
      assert net.types[..|net.types|][t] == net.types[t];
      var n :| 0 <= n < |at| && at[n] == t;
      assert es[n] == Edge(l, t);
    }
  }

  lemma AggregateEdgeIff(net: Net, tid: TypeId, l: string, t: TypeId)
    requires WellFormed(net)
    ensures Edge(l, t) in AggregateEdges(net, tid, |net.aggregates|) <==>
      t < |net.types| && ((tid, t) in net.aggregates || (t, tid) in net.aggregates) && l == "$" + net.types[t].name
  {
    hide AggregateEdges;
    var at := AggregatesExactly(net, tid, |net.aggregates|);
    var es := AggregateEdges(net, tid, |net.aggregates|);
    assert net.aggregates[..|net.aggregates|] == net.aggregates;
    if Edge(l, t) in es {
      var n :| 0 <= n < |es| && es[n] == Edge(l, t);
      assert at[n] in at && net.aggregates[at[n]] in net.aggregates;
    }
    if t < |net.types| && ((tid, t) in net.aggregates || (t, tid) in net.aggregates) && l == "$" + net.types[t].name {
      var k :| 0 <= k < |net.aggregates| && (net.aggregates[k] == (tid, t) || net.aggregates[k] == (t, tid));
      var n :| 0 <= n < |at| && at[n] == k;
      assert es[n] == Edge(l, t);
    }
  }

  /** An edge with this label and target exists exactly when the net says so. */
  lemma EdgeIff(net: Net, tid: TypeId, l: string, t: TypeId)
    requires WellFormed(net) && tid < |net.types|
    ensures Edge(l, t) in Edges(net, tid) <==>
      || (t != net.objectType && Pointer(l, t) in net.types[tid].attributes)
      || (exists name :: Container(name, t) in net.types[tid].attributes && l == name + "/[i]")
      || (t < |net.types| && tid in net.types[t].ancestors && l == "$" + net.types[t].name)
      || (t < |net.types| && ((tid, t) in net.aggregates || (t, tid) in net.aggregates) && l == "$" + net.types[t].name)
  {
    hide AttributeEdges, ChildEdges, AggregateEdges;
    AttributeEdgeIff(net, net.types[tid].attributes, l, t);
    ChildEdgeIff(net, tid, l, t);
    AggregateEdgeIff(net, tid, l, t);
  }
}
