/** Section precedences from the module graph: the start of ns3_module_scan in bindings/python/ns3modulescan.py. */
module ModuleScan {
  import opened Sequences
  import opened Digraph
  import opened TopSort

  datatype Module = Module(deps: seq<string>)

  datatype Scan =
    | Sections(order: seq<string>, precedences: map<string, nat>)
    | Cycle                      // topsort raised CycleError
    | UnknownModule              // a sorted name is not a key of the modules dictionary

  function Underscored(s: string): (r: string)
    ensures |r| == |s|
  {
    if s == "" then "" else Underscored(s[..|s| - 1]) + [if s[|s| - 1] == '-' then '_' else s[|s| - 1]]
  }

  function SectionName(m: string): string {
    "ns3_module_" + Underscored(m)
  }

  /** The section name: the fixed start, then the module's name with '_' wherever it has '-'. */
  lemma SectionNameIs(m: string)
    ensures
      var name := SectionName(m);
      && |name| == 11 + |m| && name[..11] == "ns3_module_"
      && forall i :: 0 <= i < |m| ==> name[11 + i] == if m[i] == '-' then '_' else m[i]
  {
    hide Underscored;
    forall i: nat | i < |m| ensures Underscored(m)[i] == if m[i] == '-' then '_' else m[i] {
      UnderscoredAt(m, i);
    }
  }

  /** (dependency, module) for every dependency of every module. */
  function Dependencies(modules: map<string, Module>): Edges<string> {
    set m, d | m in modules && d in modules[m].deps :: (d, m)
  }

  /** The modules that have a dependency or are one. */
  function Involved(modules: map<string, Module>): set<string> {
    (set m | m in modules && modules[m].deps != []) + set m, d | m in modules && d in modules[m].deps :: d
  }

  /** Sorting the names only fixes one order, and every order is covered here. */
  method BuildGraph(modules: map<string, Module>) returns (graph: seq<(string, string)>)
    ensures PairEdges(graph) == Dependencies(modules) && Elements(graph) == Involved(modules)
  {
    graph := [];
    var names := KeyOrder(modules.Keys);
    for i := 0 to |names|
      invariant forall d, m :: (d, m) in graph <==> m in names[..i] && m in modules && d in modules[m].deps
    {
      assert names[i] in Elems(names);
      var deps := modules[names[i]].deps;
      assert names[..i + 1] == names[..i] + [names[i]];
      for k := 0 to |deps|
        invariant forall d, m :: (d, m) in graph <==>
          (m in names[..i] && m in modules && d in modules[m].deps) || (m == names[i] && d in deps[..k])
      {
        graph := graph + [(deps[k], names[i])];
      }
    }
    assert forall m :: m in modules ==> m in Elems(names);
    GraphOfModules(modules, graph);
  }

  lemma GraphOfModules(modules: map<string, Module>, graph: seq<(string, string)>)
    requires forall d, m :: (d, m) in graph <==> m in modules && d in modules[m].deps
    ensures PairEdges(graph) == Dependencies(modules) && Elements(graph) == Involved(modules)
  {
    forall e ensures e in graph <==> e in Dependencies(modules) {
      assert e == (e.0, e.1);
    }
    forall x | x in Involved(modules) ensures x in Elements(graph) {
      if m :| m in modules && x in modules[m].deps {
        assert (x, m) in graph;
      } else {
        assert (modules[x].deps[0], x) in graph;
      }
    }
    forall x | x in Elements(graph) ensures x in Involved(modules) {
      var e :| e in graph && (x == e.0 || x == e.1);
      assert (e.0, e.1) in graph;
    }
  }

  /** The position of the last module in the order that has this section name. */
  predicate LastAt(order: seq<string>, section: string, k: int) {
    && 0 <= k < |order| && SectionName(order[k]) == section
    && forall j :: k < j < |order| ==> SectionName(order[j]) != section
  }

  ghost predicate PrecedencesOf(order: seq<string>, precedences: map<string, nat>) {
    && (forall s :: s in precedences ==> LastAt(order, s, precedences[s]))
    && (forall k :: 0 <= k < |order| ==> SectionName(order[k]) in precedences)
  }

  method AssignPrecedences(order: seq<string>) returns (precedences: map<string, nat>)
    ensures PrecedencesOf(order, precedences)
  {
    hide SectionName;
    precedences := map[];
    for prec := 0 to |order|
      invariant PrecedencesOf(order[..prec], precedences)
    {
      var before := order[..prec];
      assert order[..prec + 1] == before + [order[prec]];
      precedences := precedences[SectionName(order[prec]) := prec];
      forall s | s in precedences ensures LastAt(order[..prec + 1], s, precedences[s]) {
        assert s != SectionName(order[prec]) ==> LastAt(before, s, precedences[s]);
      }
    }
    assert order[..|order|] == order;
  }

  predicate DistinctSections(order: seq<string>) {
    forall i, j :: 0 <= i < j < |order| ==> SectionName(order[i]) != SectionName(order[j])
  }

  /** A module's precedence is its own place in the order exactly when no two section names collide. */
  lemma PrecedenceIsPlaceIff(order: seq<string>, precedences: map<string, nat>)
    requires PrecedencesOf(order, precedences)
    ensures (forall i :: 0 <= i < |order| ==> precedences[SectionName(order[i])] == i) <==> DistinctSections(order)
  {
    hide SectionName;
    forall i | 0 <= i < |order| ensures LastAt(order, SectionName(order[i]), precedences[SectionName(order[i])]) {
    }
  }

  predicate Dash(c: char) { c == '-' || c == '_' }

  /** The same name up to '-' and '_'. */
  predicate SameUpToDashes(a: string, b: string) {
    |a| == |b| && forall i :: 0 <= i < |a| ==> a[i] == b[i] || (Dash(a[i]) && Dash(b[i]))
  }

  lemma {:induction false} UnderscoredAt(s: string, i: nat)
    requires i < |s|
    ensures Underscored(s)[i] == if s[i] == '-' then '_' else s[i]
  {
    if i < |s| - 1 {
      UnderscoredAt(s[..|s| - 1], i);
    }
  }

  /** Two modules get the same section name exactly when their names differ at most in '-' and '_'. */
  lemma SectionsCollideIff(a: string, b: string)
    ensures SectionName(a) == SectionName(b) <==> SameUpToDashes(a, b)
  {
    hide Underscored;
    var prefix := "ns3_module_";
    assert SectionName(a)[|prefix|..] == Underscored(a) && SectionName(b)[|prefix|..] == Underscored(b);
    forall i: nat | i < |a| && i < |b|
      ensures Underscored(a)[i] == Underscored(b)[i] <==> a[i] == b[i] || (Dash(a[i]) && Dash(b[i]))
    {
      UnderscoredAt(a, i);
      UnderscoredAt(b, i);
    }
    if SameUpToDashes(a, b) {
      assert Underscored(a) == Underscored(b);
    }
  }

  /** Distinct section names, as seen on the module names. */
  lemma DistinctSectionsIff(order: seq<string>)
    ensures DistinctSections(order) <==> forall i, j :: 0 <= i < j < |order| ==> !SameUpToDashes(order[i], order[j])
  {
    hide SectionName, SameUpToDashes;
    forall i, j | 0 <= i < j < |order|
      ensures SectionName(order[i]) == SectionName(order[j]) <==> SameUpToDashes(order[i], order[j])
    {
      SectionsCollideIff(order[i], order[j]);
    }
  }

  /** A scan that gets through orders the modules involved, each once and dependencies first. It fails with Cycle
      exactly when the dependencies are cyclic. */
  method ScanModules(modules: map<string, Module>) returns (r: Scan)
    ensures r.Cycle? <==> Cyclic(Dependencies(modules))
    ensures r.UnknownModule? <==> !Cyclic(Dependencies(modules)) && !(Involved(modules) <= modules.Keys)
    ensures r.Sections? ==>
      && NoDup(r.order) && Elems(r.order) == Involved(modules) && ParentsFirst(Dependencies(modules), r.order)
      && PrecedencesOf(r.order, r.precedences)
  {
    hide PrecedencesOf, Cyclic, ParentsFirst, PairEdges, Elements, Stuck, Dependencies, Involved;
    var pairs := BuildGraph(modules);
    var sorted := TopSort.TopSort(pairs);
    if sorted.CycleError? {
      return Cycle;
    }
    var order := sorted.answer;
    CompleteAnswer(pairs, order);
    if i :| 0 <= i < |order| && order[i] !in modules {
      assert order[i] in Elems(order);
      return UnknownModule;
    }
    assert Elems(order) <= modules.Keys;
    var precedences := AssignPrecedences(order);
    r := Sections(order, precedences);
  }

  lemma CompleteAnswer(pairs: seq<(string, string)>, order: seq<string>)
    requires !Cyclic(PairEdges(pairs))
    requires Elems(order) == Elements(pairs) - Stuck(PairEdges(pairs), Elements(pairs))
    ensures Elems(order) == Elements(pairs)
  {
    StuckIffCyclic(PairEdges(pairs), Elements(pairs));
  }

  /** With distinct section names every module's section has a greater precedence than each of its dependencies'. */
  lemma DependenciesPrecede(modules: map<string, Module>, order: seq<string>, precedences: map<string, nat>, m: string, d: string)
    requires ParentsFirst(Dependencies(modules), order) && Elems(order) == Involved(modules)
    requires PrecedencesOf(order, precedences) && DistinctSections(order)
    requires m in modules && d in modules[m].deps
    ensures SectionName(d) in precedences && SectionName(m) in precedences
    ensures precedences[SectionName(d)] < precedences[SectionName(m)]
  {
    hide SectionName, DistinctSections;
    assert (d, m) in Dependencies(modules) && m in Involved(modules);
    assert m in Elems(order);
    var j :| 0 <= j < |order| && order[j] == m;
    var i :| 0 <= i < j && order[i] == d;
    PrecedenceIsPlaceIff(order, precedences);
  }

  /** Some module with m's section name follows every module with d's. */
  predicate LastSectionFollows(order: seq<string>, d: string, m: string) {
    exists j :: 0 <= j < |order| && SameUpToDashes(order[j], m) && forall i :: j <= i < |order| ==> !SameUpToDashes(order[i], d)
  }

  /** A dependency's section has the smaller precedence exactly when some module with the section name of the
      dependent follows every module with the section name of the dependency. */
  lemma PrecedesIff(order: seq<string>, precedences: map<string, nat>, d: string, m: string)
    requires PrecedencesOf(order, precedences) && d in order && m in order
    ensures SectionName(d) in precedences && SectionName(m) in precedences
    ensures precedences[SectionName(d)] < precedences[SectionName(m)] <==> LastSectionFollows(order, d, m)
  {
    hide SectionName, SameUpToDashes;
    forall i | 0 <= i < |order|
      ensures SectionName(order[i]) == SectionName(d) <==> SameUpToDashes(order[i], d)
      ensures SectionName(order[i]) == SectionName(m) <==> SameUpToDashes(order[i], m)
    {
      SectionsCollideIff(order[i], d);
      SectionsCollideIff(order[i], m);
    }
    var pd, pm := precedences[SectionName(d)], precedences[SectionName(m)];
    assert LastAt(order, SectionName(d), pd) && LastAt(order, SectionName(m), pm);
    if pd < pm {
      assert SameUpToDashes(order[pm], m) && forall i :: pm <= i < |order| ==> !SameUpToDashes(order[i], d);
    }
  }

  /** Where a dependency does not precede: a_b depends on a-b, and both get the precedence of the one section. */
  lemma CollisionLosesOrder()
    ensures
      var modules, order := map["a-b" := Module([]), "a_b" := Module(["a-b"])], ["a-b", "a_b"];
      && ParentsFirst(Dependencies(modules), order) && NoDup(order) && Elems(order) == Involved(modules)
      && SectionName("a-b") == SectionName("a_b") && !LastSectionFollows(order, "a-b", "a_b")
  {
    var modules, order := map["a-b" := Module([]), "a_b" := Module(["a-b"])], ["a-b", "a_b"];
    SectionsCollideIff("a-b", "a_b");
    assert "a-b"[1] != "a_b"[1];
    assert modules["a_b"].deps[0] == "a-b";
    assert Dependencies(modules) == {("a-b", "a_b")};
    assert order[..1] == ["a-b"];
    assert Involved(modules) == {"a-b", "a_b"};
    assert Elems(order) == {"a-b", "a_b"};
    assert SameUpToDashes(order[1], "a-b");
  }
}
