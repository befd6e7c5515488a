/** When the records of a gathering repeat themselves: utils/print-introspected-doxygen.cc, where the function meant to
    make them unique changes nothing. */
module GatherRecords {
  import opened Sequences
  import opened Gather

  // ---- reading a spelled path back ----

  lemma {:induction false} JoinedConcat(a: seq<string>, b: seq<string>)
    ensures Joined(a + b) == Joined(a) + Joined(b)
    decreases |b|
  {
    if b == [] {
      assert a + b == a;
    } else {
      hide Joined;
      var n := |b| - 1;
      JoinedConcat(a, b[..n]);
      assert (a + b)[..|a| + n] == a + b[..n];
      assert (a + b)[|a| + n] == b[n];
    }
  }

  lemma JoinedCons(l: string, ls: seq<string>)
    ensures Joined([l] + ls) == "/" + (l + Joined(ls))
  {
    JoinedConcat([l], ls);
    assert [l][..0] == [];
    assert Joined([l]) == Joined([]) + "/" + l == "/" + l;
  }

  lemma CancelLeft(x: string, a: string, b: string)
    requires x + a == x + b
    ensures a == b
  {
    assert (x + a)[|x|..] == a && (x + b)[|x|..] == b;
  }

  lemma JoinedStart(ls: seq<string>)
    ensures if ls == [] then Joined(ls) == "" else Joined(ls) != "" && Joined(ls)[0] == '/'
  {
    if ls != [] {
      assert ls == [ls[0]] + ls[1..];
      JoinedCons(ls[0], ls[1..]);
    }
  }

  /** b goes on with a slash where a ends. */
  predicate Continues(a: string, b: string) {
    a + "/" <= b
  }

  /** Two spellings that agree have the same first label, unless one label continues the other. */
  lemma FirstLabel(a: string, x: seq<string>, b: string, y: seq<string>)
    requires Joined([a] + x) == Joined([b] + y) && !Continues(a, b) && !Continues(b, a)
    ensures a == b && Joined(x) == Joined(y)
  {
    hide Joined;
    var s, t := Joined(x), Joined(y);
    JoinedCons(a, x);
    JoinedCons(b, y);
    JoinedStart(x);
    JoinedStart(y);
    CancelLeft("/", a + s, b + t);
    SameSplit(a, s, b, t);
    SameSplit(b, t, a, s);
  }

  lemma SameSplit(a: string, s: string, b: string, t: string)
    requires a + s == b + t && (s == "" || s[0] == '/')
    ensures |a| < |b| ==> Continues(a, b)
    ensures |a| == |b| ==> a == b && s == t
  {
    assert (a + s)[..|a|] == a && (b + t)[..|b|] == b;
    if |a| < |b| {
      assert b[|a|] == (a + s)[|a|] == s[0];
      assert b[..|a| + 1] == a + "/";
    } else if |a| == |b| {
      CancelLeft(a, s, t);
    }
  }

  // ---- the paths of one type ----

  function OfType(tid: TypeId): Record -> bool {
    (r: Record) => r.tid == tid
  }

  /** The paths reported for a type are those of its records, all of them and in recording order. */
  lemma {:induction false} PathsInOrder(records: seq<Record>, tid: TypeId) returns (at: seq<nat>)
    ensures Exactly(records, at, OfType(tid)) && |PathsOf(records, tid)| == |at|
    ensures forall n :: 0 <= n < |at| ==> at[n] < |records| && PathsOf(records, tid)[n] == records[at[n]].path
  {
    hide Exactly;
    if records == [] {
      at := [];
      ExactlyNone(OfType(tid));
    } else {
      var n := |records| - 1;
      var before := PathsInOrder(records[..n], tid);
      ExactlyStep(records[..n], records[n], before, OfType(tid));
      assert records == records[..n] + [records[n]];
      at := if OfType(tid)(records[n]) then before + [n] else before;
    }
  }

  // ---- ambiguous nets ----

  function NameAt(net: Net, tid: TypeId, i: nat): string
    requires WellFormed(net) && tid < |net.types| && i < |Edges(net, tid)|
  {
    Edges(net, tid)[i].name
  }

  /** No label out of a type continues another one out of the same type. */
  ghost predicate Readable(net: Net)
    requires WellFormed(net)
  {
    forall t: nat, i: nat, j: nat :: t < |net.types| && i < |Edges(net, t)| && j < |Edges(net, t)| ==>
      !Continues(NameAt(net, t, i), NameAt(net, t, j))
  }

  /** Edges out of one type with the same label lead to the same type. */
  ghost predicate LabelsFixTargets(net: Net)
    requires WellFormed(net)
  {
    forall t: nat, i: nat, j: nat :: t < |net.types| && i < |Edges(net, t)| && j < |Edges(net, t)| ==>
      NameAt(net, t, i) == NameAt(net, t, j) ==> Target(net, t, i) == Target(net, t, j)
  }

  /** The search follows p and then either of two edges with the same label. */
  ghost predicate Fork(net: Net, start: TypeId, seen: seq<TypeId>, p: Path, i: nat, j: nat)
    requires WellFormed(net) && start < |net.types|
  {
    && i != j && SimplePath(net, start, seen, p + [i]) && SimplePath(net, start, seen, p + [j])
    && var es := Edges(net, End(net, start, p)); i < |es| && j < |es| && es[i].name == es[j].name
  }

  ghost predicate Ambiguous(net: Net, start: TypeId, seen: seq<TypeId>)
    requires WellFormed(net) && start < |net.types|
  {
    exists p: Path, i: nat, j: nat :: Fork(net, start, seen, p, i, j)
  }

  lemma SimpleFirst(net: Net, start: TypeId, seen: seq<TypeId>, i: nat, q: Path)
    requires WellFormed(net) && start < |net.types| && SimplePath(net, start, seen, [i] + q)
    ensures SimplePath(net, start, seen, [i])
  {
    var p := [i] + q;
    assert [i][..0] == p[..0] && [i][..1] == p[..1];
    assert p[0] == i;
  }

  /** A fork behind an edge is a fork. */
  lemma ForkCons(net: Net, start: TypeId, seen: seq<TypeId>, e: nat, p: Path, i: nat, j: nat)
    requires WellFormed(net) && start < |net.types| && start !in seen && e < |Edges(net, start)|
    requires Fork(net, Target(net, start, e), seen + [start], p, i, j)
    ensures Fork(net, start, seen, [e] + p, i, j)
  {
    hide SimplePath, Edges, Target, WellFormed;
    SimpleConsBack(net, start, seen, e, p + [i]);
    SimpleConsBack(net, start, seen, e, p + [j]);
    assert [e] + (p + [i]) == ([e] + p) + [i] && [e] + (p + [j]) == ([e] + p) + [j];
    EndCons(net, start, e, p, |p|);
    assert ([e] + p)[..|p| + 1] == [e] + p && p[..|p|] == p;
  }

  lemma LabelsCons(net: Net, start: TypeId, i: nat, q: Path)
    requires WellFormed(net) && start < |net.types| && i < |Edges(net, start)|
    ensures Labels(net, start, [i] + q) == [Edges(net, start)[i].name] + Labels(net, Target(net, start, i), q)
  {
    assert ([i] + q)[1..] == q;
  }

  /** Two different simple paths with the same spelling part at a fork. */
  lemma {:induction false} SameSpellingForks(net: Net, start: TypeId, seen: seq<TypeId>, p: Path, q: Path)
    requires WellFormed(net) && start < |net.types| && Readable(net) && p != q
    requires SimplePath(net, start, seen, p) && SimplePath(net, start, seen, q)
    ensures Joined(Labels(net, start, p)) == Joined(Labels(net, start, q)) ==> Ambiguous(net, start, seen)
    decreases |p| + |q|
  {
    hide SimplePath, Edges, Joined, WellFormed, Target, Labels, Readable, Fork, Continues;
    if Joined(Labels(net, start, p)) != Joined(Labels(net, start, q)) {
      return;
    }
    if p == [] || q == [] {
      OnlyEmptyIsUnlabelled(net, start, seen, p);
      OnlyEmptyIsUnlabelled(net, start, seen, q);
    } else {
      var i, p', j, q' := p[0], p[1..], q[0], q[1..];
      assert p == [i] + p' && q == [j] + q';
      SimpleConsForward(net, start, seen, i, p');
      SimpleConsForward(net, start, seen, j, q');
      LabelsCons(net, start, i, p');
      LabelsCons(net, start, j, q');
      ReadableAt(net, start, i, j);
      FirstLabel(NameAt(net, start, i), Labels(net, Target(net, start, i), p'), NameAt(net, start, j), Labels(net, Target(net, start, j), q'));
      if i == j {
        SameSpellingForks(net, Target(net, start, i), seen + [start], p', q');
        var r: Path, a: nat, b: nat :| Fork(net, Target(net, start, i), seen + [start], r, a, b);
        ForkCons(net, start, seen, i, r, a, b);
      } else {
        FirstFork(net, start, seen, i, p', j, q');
      }
    }
  }

  lemma ReadableAt(net: Net, tid: TypeId, i: nat, j: nat)
    requires WellFormed(net) && tid < |net.types| && Readable(net) && i < |Edges(net, tid)| && j < |Edges(net, tid)|
    ensures !Continues(NameAt(net, tid, i), NameAt(net, tid, j)) && !Continues(NameAt(net, tid, j), NameAt(net, tid, i))
  {
    hide Edges, NameAt, Continues;
  }

  /** Only the empty path has the empty spelling. */
  lemma OnlyEmptyIsUnlabelled(net: Net, start: TypeId, seen: seq<TypeId>, p: Path)
    requires WellFormed(net) && start < |net.types| && SimplePath(net, start, seen, p)
    ensures Joined(Labels(net, start, p)) == "" <==> p == []
  {
    hide SimplePath, Edges, Joined, WellFormed, Target;
    JoinedStart(Labels(net, start, p));
    if p != [] {
      assert p == [p[0]] + p[1..];
      SimpleConsForward(net, start, seen, p[0], p[1..]);
    }
  }

  lemma FirstFork(net: Net, start: TypeId, seen: seq<TypeId>, i: nat, p: Path, j: nat, q: Path)
    requires WellFormed(net) && start < |net.types| && i != j && i < |Edges(net, start)| && j < |Edges(net, start)|
    requires SimplePath(net, start, seen, [i] + p) && SimplePath(net, start, seen, [j] + q)
    requires NameAt(net, start, i) == NameAt(net, start, j)
    ensures Fork(net, start, seen, [], i, j)
  {
    hide SimplePath, Edges, WellFormed;
    SimpleFirst(net, start, seen, i, p);
    SimpleFirst(net, start, seen, j, q);
    assert [] + [i] == [i] && [] + [j] == [j];
  }

  lemma {:induction false} LastEdge(net: Net, start: TypeId, seen: seq<TypeId>, p: Path, i: nat)
    requires WellFormed(net) && start < |net.types| && SimplePath(net, start, seen, p + [i])
    ensures i < |Edges(net, End(net, start, p))|
    ensures End(net, start, p + [i]) == Target(net, End(net, start, p), i)
    ensures Labels(net, start, p + [i]) == Labels(net, start, p) + [NameAt(net, End(net, start, p), i)]
    decreases |p|
  {
    hide SimplePath, Edges, WellFormed, Target;
    if p == [] {
      assert p + [i] == [i] + [];
      SimpleConsForward(net, start, seen, i, []);
      LabelsCons(net, start, i, []);
      assert [i][1..] == [];
    } else {
      var e, q := p[0], p[1..];
      assert p == [e] + q && p + [i] == [e] + (q + [i]);
      SimpleConsForward(net, start, seen, e, q + [i]);
      LastEdge(net, Target(net, start, e), seen + [start], q, i);
      LabelsCons(net, start, e, q);
      LabelsCons(net, start, e, q + [i]);
      assert ([e] + (q + [i]))[1..] == q + [i];
    }
  }

  // ---- repeated records ----

  /** Two edges with the same label and target behind the same path give the same record twice. */
  lemma TwinsRepeat(net: Net, labels: seq<string>, start: TypeId, seen: seq<TypeId>, p: Path, i: nat, j: nat)
    requires WellFormed(net) && start < |net.types| && Fork(net, start, seen, p, i, j)
    requires Target(net, End(net, start, p), i) == Target(net, End(net, start, p), j)
    ensures !NoDup(Render(net, labels, start, Found(net, start, seen)))
  {
    hide SimplePath, Edges, WellFormed, Target, Found, Joined;
    var f := Found(net, start, seen);
    FoundExactly(net, start, seen, p + [i]);
    FoundExactly(net, start, seen, p + [j]);
    LastEdge(net, start, seen, p, i);
    LastEdge(net, start, seen, p, j);
    var a :| 0 <= a < |f| && f[a] == p + [i];
    var b :| 0 <= b < |f| && f[b] == p + [j];
    assert (p + [i])[|p|] != (p + [j])[|p|];
    var records := Render(net, labels, start, f);
    assert records[a] == records[b];
  }

  /** The path strings, and so the records, are pairwise different when the labels are readable and the search meets
      no fork. */
  lemma UnambiguousRecords(net: Net, labels: seq<string>, start: TypeId, seen: seq<TypeId>)
    requires WellFormed(net) && start < |net.types| && Readable(net) && !Ambiguous(net, start, seen)
    ensures var records := Render(net, labels, start, Found(net, start, seen));
      forall a, b :: 0 <= a < b < |records| ==> records[a].path != records[b].path
  {
    hide SimplePath, Edges, WellFormed, Target, Found, Joined, Ambiguous, Readable;
    var f := Found(net, start, seen);
    FoundOnce(net, start, seen);
    forall a, b | 0 <= a < b < |f|
      ensures Joined(labels + Labels(net, start, f[a])) != Joined(labels + Labels(net, start, f[b]))
    {
      JoinedConcat(labels, Labels(net, start, f[a]));
      JoinedConcat(labels, Labels(net, start, f[b]));
      if Joined(Labels(net, start, f[a])) == Joined(Labels(net, start, f[b])) {
        SameSpellingForks(net, start, seen, f[a], f[b]);
      } else if Joined(labels + Labels(net, start, f[a])) == Joined(labels + Labels(net, start, f[b])) {
        CancelLeft(Joined(labels), Joined(Labels(net, start, f[a])), Joined(Labels(net, start, f[b])));
      }
    }
  }

  /** With readable labels that fix their targets, the records are pairwise different if and only if the search meets
      no fork. */
  lemma RecordsDistinctIff(net: Net, labels: seq<string>, start: TypeId, seen: seq<TypeId>)
    requires WellFormed(net) && start < |net.types| && Readable(net) && LabelsFixTargets(net)
    ensures NoDup(Render(net, labels, start, Found(net, start, seen))) <==> !Ambiguous(net, start, seen)
  {
    hide SimplePath, Edges, WellFormed, Target, Found, Joined, Readable;
    if Ambiguous(net, start, seen) {
      var p: Path, i: nat, j: nat :| Fork(net, start, seen, p, i, j);
      var t := End(net, start, p);
      assert NameAt(net, t, i) == NameAt(net, t, j);
      TwinsRepeat(net, labels, start, seen, p, i, j);
    } else {
      UnambiguousRecords(net, labels, start, seen);
    }
  }

  /** The edge of an aggregation recorded for tid, and where it is among the edges of tid. */
  lemma AggregationEdge(net: Net, tid: TypeId, k: nat) returns (i: nat)
    requires WellFormed(net) && tid < |net.types| && k < |net.aggregates| && net.aggregates[k].0 == tid
    ensures i < |Edges(net, tid)| && [Edges(net, tid)[i]] == AggregateEdge(net, tid, net.aggregates[k])
    ensures i == |AttributeEdges(net, net.types[tid].attributes)| + |ChildEdges(net, tid, |net.types|)| + |AggregateEdges(net, tid, k)|
  {
    AggregateStep(net, tid, k);
    var es := AttributeEdges(net, net.types[tid].attributes) + ChildEdges(net, tid, |net.types|);
    i := |es + AggregateEdges(net, tid, k)|;
    var upTo := es + AggregateEdges(net, tid, k + 1);
    assert upTo[i] == AggregateEdge(net, tid, net.aggregates[k])[0];
    assert upTo <= Edges(net, tid);
  }

  /** An aggregation recorded twice gives a record twice, whenever the search starts at its first type. */
  lemma AggregatedTwice(net: Net, labels: seq<string>, start: TypeId, seen: seq<TypeId>, a: nat, b: nat)
    requires WellFormed(net) && a < b < |net.aggregates| && net.aggregates[a] == net.aggregates[b]
    requires start == net.aggregates[a].0 != net.aggregates[a].1 && start !in seen && net.aggregates[a].1 !in seen
    ensures !NoDup(Render(net, labels, start, Found(net, start, seen)))
  {
    hide SimplePath, Edges, Found, Joined, AttributeEdges, ChildEdges, AggregateEdges;
    var i := AggregationEdge(net, start, a);
    var j := AggregationEdge(net, start, b);
    LaterEdge(net, start, a, b);
    var other := net.aggregates[a].1;
    assert Target(net, start, i) == other == Target(net, start, j);
    SimpleNil(net, other, seen + [start]);
    SimpleConsBack(net, start, seen, i, []);
    SimpleConsBack(net, start, seen, j, []);
    assert [i] + [] == [i] && [j] + [] == [j];
    FirstFork(net, start, seen, i, [], j, []);
    TwinsRepeat(net, labels, start, seen, [], i, j);
  }

  lemma LaterEdge(net: Net, tid: TypeId, a: nat, b: nat)
    requires WellFormed(net) && tid < |net.types| && a < b < |net.aggregates| && net.aggregates[a].0 == tid
    ensures |AggregateEdges(net, tid, a)| < |AggregateEdges(net, tid, b)|
  {
    assert AggregateEdges(net, tid, a + 1) == AggregateEdges(net, tid, a) + AggregateEdge(net, tid, net.aggregates[a]);
    assert |AggregateEdge(net, tid, net.aggregates[a])| == 1;
    hide AggregateEdges, AggregateEdge;
    AggregatePrefix(net, tid, a + 1, b);
  }

  /** As the source does for Icmpv4L4Protocol on Node. */
  lemma RepeatedRecord()
    ensures
      var net := Net([TypeInfo("ns3::Node", [], {}), TypeInfo("ns3::Icmpv4L4Protocol", [], {})], [(0, 1), (0, 1)], 2);
      WellFormed(net) && !NoDup(Render(net, [], 0, Found(net, 0, [])))
  {
    var net := Net([TypeInfo("ns3::Node", [], {}), TypeInfo("ns3::Icmpv4L4Protocol", [], {})], [(0, 1), (0, 1)], 2);
    AggregatedTwice(net, [], 0, [], 0, 1);
  }
}
