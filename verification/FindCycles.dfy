/** Enumerating the cycles of a dependency graph: find_cycles in bindings/python/topsort.py. */
module FindCycles {
  import opened Sequences
  import opened Digraph
  import opened Rotation
  import TopSort
  import TopSortLevels

  /** The cycle, or a rotation of it, is in the list. */
  predicate Listed<T(==)>(cycles: seq<seq<T>>, cycle: seq<T>) {
    exists i :: 0 <= i < |cycles| && Rotated(cycles[i], cycle)
  }

  /** Elementary cycles only, and no two of them rotations of each other. */
  ghost predicate GoodList<T(!new)>(E: Edges<T>, cycles: seq<seq<T>>) {
    && (forall i :: 0 <= i < |cycles| ==> Elementary(E, cycles[i]))
    && (forall i, j :: 0 <= i < j < |cycles| ==> !Rotated(cycles[i], cycles[j]))
  }

  predicate SimpleWalk<T(==)>(E: Edges<T>, w: seq<T>) {
    Walk(E, w) && NoDup(w)
  }

  /** Every edge that closes the simple walk w at one of its own nodes has its cycle in the list. */
  ghost predicate Settled<T>(E: Edges<T>, cycles: seq<seq<T>>, w: seq<T>) {
    forall i {:trigger w[i..]} :: 0 <= i < |w| && (w[|w| - 1], w[i]) in E ==> Listed(cycles, w[i..])
  }

  predicate Pending<T(==)>(paths: seq<seq<T>>, w: seq<T>) {
    exists k :: 0 <= k < |paths| && paths[k] <= w
  }

  /** Each simple walk from the root is settled, or grows out of a path still on the stack. */
  ghost predicate Covered<T(!new)>(E: Edges<T>, root: T, paths: seq<seq<T>>, cycles: seq<seq<T>>) {
    forall w :: SimpleWalk(E, w) && w[0] == root ==> Pending(paths, w) || Settled(E, cycles, w)
  }

  ghost predicate Reaches<T(!new)>(E: Edges<T>, a: T, b: T) {
    exists w :: Walk(E, w) && w[0] == a && w[|w| - 1] == b
  }

  /** Every cycle that can be reached from v is in the list. */
  ghost predicate Exhausted<T(!new)>(E: Edges<T>, cycles: seq<seq<T>>, v: T) {
    forall c, i :: Elementary(E, c) && 0 <= i < |c| && Reaches(E, v, c[i]) ==> Listed(cycles, c)
  }

  lemma ListedMono<T>(cycles: seq<seq<T>>, cycles': seq<seq<T>>, c: seq<T>)
    requires cycles <= cycles' && Listed(cycles, c)
    ensures Listed(cycles', c)
  {
    var i :| 0 <= i < |cycles| && Rotated(cycles[i], c);
    assert cycles'[i] == cycles[i];
  }

  // ---- why searching from one root finds every cycle it reaches ----

  /** A walk into the cycle can be made simple and to touch the cycle only at its end. */
  lemma {:induction false} Approach<T>(E: Edges<T>, c: seq<T>, w: seq<T>) returns (s: seq<T>)
    requires Walk(E, w) && w[|w| - 1] in c
    ensures SimpleWalk(E, s) && s[0] == w[0] && s[|s| - 1] in c
    ensures forall i :: 0 <= i < |s| - 1 ==> s[i] !in c
    decreases |w|
  {
    if i :| 0 <= i < |w| - 1 && w[i] in c {
      s := Approach(E, c, w[..i + 1]);
    } else if i, j :| 0 <= i < j < |w| && w[i] == w[j] {
      var v := w[..i] + w[j..];
      forall k | 0 <= k < |v| - 1 ensures (v[k], v[k + 1]) in E {
        if k < i - 1 {
          assert (w[k], w[k + 1]) in E;
        } else if k == i - 1 {
          assert (w[k], w[k + 1]) in E && v[k + 1] == w[j];
        } else {
          assert v[k] == w[k - i + j] && v[k + 1] == w[k - i + j + 1];
        }
      }
      s := Approach(E, c, v);
    } else {
      s := w;
    }
  }

  lemma RotateElementary<T>(E: Edges<T>, c: seq<T>, k: nat)
    requires Elementary(E, c) && k < |c|
    ensures Elementary(E, Rotate(c, k)) && Rotate(c, k)[0] == c[k] && Rotated(c, Rotate(c, k))
    ensures forall x :: x in Rotate(c, k) ==> x in c
  {
    var r := Rotate(c, k);
    forall i | 0 <= i < |r| - 1 ensures (r[i], r[i + 1]) in E {
      if i == |c| - k - 1 {
        assert r[i] == c[|c| - 1] && r[i + 1] == c[0];
      } else if i < |c| - k - 1 {
        assert r[i] == c[i + k] && r[i + 1] == c[i + k + 1];
      } else {
        assert r[i] == c[i + k - |c|] && r[i + 1] == c[i + k - |c| + 1];
      }
    }
    assert k > 0 ==> r[|r| - 1] == c[k - 1] && (c[k - 1], c[k - 1 + 1]) in E;
  }

  lemma SearchedRootIsExhausted<T(!new)>(E: Edges<T>, root: T, cycles: seq<seq<T>>)
    requires Covered(E, root, [], cycles)
    ensures Exhausted(E, cycles, root)
  {
    forall c, i | Elementary(E, c) && 0 <= i < |c| && Reaches(E, root, c[i]) ensures Listed(cycles, c) {
      var w :| Walk(E, w) && w[0] == root && w[|w| - 1] == c[i];
      CycleIsListed(E, root, cycles, c, w);
    }
  }

  lemma UseCovered<T(!new)>(E: Edges<T>, root: T, cycles: seq<seq<T>>, p: seq<T>, n: nat)
    requires Covered(E, root, [], cycles) && SimpleWalk(E, p) && p[0] == root
    requires n < |p| && (p[|p| - 1], p[n]) in E
    ensures Listed(cycles, p[n..])
  {
    hide Listed;
    assert !Pending([], p);
    assert Settled(E, cycles, p);
  }

  lemma CycleIsListed<T(!new)>(E: Edges<T>, root: T, cycles: seq<seq<T>>, c: seq<T>, w: seq<T>)
    requires Covered(E, root, [], cycles) && Elementary(E, c)
    requires Walk(E, w) && w[0] == root && w[|w| - 1] in c
    ensures Listed(cycles, c)
  {
    hide Covered, Listed, Rotate, Rotated;
    var s := Approach(E, c, w);
    var n := |s| - 1;
    var k :| 0 <= k < |c| && c[k] == s[n];
    RotateElementary(E, c, k);
    var r := Rotate(c, k);
    var p := s[..n] + r;
    assert p[n..] == r && p[n] == r[0] && p[|p| - 1] == r[|r| - 1];
    assert p[0] == s[0];
    UseCovered(E, root, cycles, p, n);
    ListedRotation(cycles, c, r);
  }

  lemma ListedRotation<T>(cycles: seq<seq<T>>, c: seq<T>, r: seq<T>)
    requires Rotated(c, r) && Listed(cycles, r)
    ensures Listed(cycles, c)
  {
    hide Rotated;
    var i :| 0 <= i < |cycles| && Rotated(cycles[i], r);
    RotatedSym(c, r);
    RotatedTrans(cycles[i], r, c);
  }

  lemma ExhaustedBelow<T(!new)>(E: Edges<T>, cycles: seq<seq<T>>, a: T, b: T)
    requires Exhausted(E, cycles, a) && Reaches(E, a, b)
    ensures Exhausted(E, cycles, b)
  {
    forall c, i | Elementary(E, c) && 0 <= i < |c| && Reaches(E, b, c[i]) ensures Listed(cycles, c) {
      ReachesTrans(E, a, b, c[i]);
    }
  }

  lemma ReachesTrans<T(!new)>(E: Edges<T>, a: T, b: T, c: T)
    requires Reaches(E, a, b) && Reaches(E, b, c)
    ensures Reaches(E, a, c)
  {
    var v :| Walk(E, v) && v[0] == a && v[|v| - 1] == b;
    var w :| Walk(E, w) && w[0] == b && w[|w| - 1] == c;
    var u := v + w[1..];
    forall i | 0 <= i < |u| - 1 ensures (u[i], u[i + 1]) in E {
      if i < |v| - 1 {
        assert (v[i], v[i + 1]) in E;
      } else {
        var j := i - |v| + 1;
        assert u[i] == w[j] && u[i + 1] == w[j + 1];
      }
    }
    assert Walk(E, u) && u[0] == a && u[|u| - 1] == c;
  }

  lemma ExhaustedMono<T(!new)>(E: Edges<T>, cycles: seq<seq<T>>, cycles': seq<seq<T>>, v: T)
    requires cycles <= cycles' && Exhausted(E, cycles, v)
    ensures Exhausted(E, cycles', v)
  {
    forall c, i | Elementary(E, c) && 0 <= i < |c| && Reaches(E, v, c[i]) ensures Listed(cycles', c) {
      ListedMono(cycles, cycles', c);
    }
  }

  // ---- termination ----

  ghost function Power(b: nat, n: nat): nat {
    if n == 0 then 1 else b * Power(b, n - 1)
  }

  /** One path of length l weighs (d+1)^(n-l). */
  ghost function Weight(n: nat, d: nat, length: nat): nat {
    if length > n then 0 else Power(d + 1, n - length)
  }

  ghost function Load<T>(n: nat, d: nat, paths: seq<seq<T>>): nat {
    if paths == [] then 0 else Load(n, d, paths[..|paths| - 1]) + Weight(n, d, |paths[|paths| - 1]|)
  }

  lemma PowerPositive(b: nat, n: nat)
    requires b > 0
    ensures Power(b, n) > 0
  {
  }

  lemma {:induction false} LoadConcat<T>(n: nat, d: nat, a: seq<seq<T>>, b: seq<seq<T>>)
    ensures Load(n, d, a + b) == Load(n, d, a) + Load(n, d, b)
  {
    if b == [] {
      assert a + b == a;
    } else {
      var k := |b| - 1;
      LoadConcat(n, d, a, b[..k]);
      assert (a + b)[..|a + b| - 1] == a + b[..k];
    }
  }

  lemma {:induction false} LoadOfExtensions<T>(n: nat, d: nat, length: nat, more: seq<seq<T>>)
    requires forall p :: p in more ==> |p| == length
    ensures Load(n, d, more) == |more| * Weight(n, d, length)
  {
    hide Weight;
    if more != [] {
      var k := |more| - 1;
      LoadOfExtensions(n, d, length, more[..k]);
      assert more[k] in more;
      Distribute(k, 1, Weight(n, d, length));
    }
  }

  lemma Distribute(a: int, b: int, w: int)
    ensures (a + b) * w == a * w + b * w
  {
  }

  lemma FewerTimes(m: nat, d: nat, w: nat)
    requires m <= d && w > 0
    ensures m * w < (d + 1) * w
  {
    Distribute(m, d + 1 - m, w);
  }

  /** Popping a path and pushing at most d extensions of it, none longer than n, lowers the load. */
  lemma PopLowersLoad<T>(n: nat, d: nat, rest: seq<seq<T>>, path: seq<T>, more: seq<seq<T>>)
    requires |path| <= n && |more| <= d && (forall p :: p in more ==> |p| == |path| + 1 <= n)
    ensures Load(n, d, rest + more) < Load(n, d, rest + [path])
  {
    hide Load, Power;
    LoadConcat(n, d, rest, more);
    LoadConcat(n, d, rest, [path]);
    LoadOfExtensions(n, d, |path|, [path]);
    LoadOfExtensions(n, d, |path| + 1, more);
    PowerPositive(d + 1, n - |path|);
    if more != [] {
      assert more[0] in more;
      var w := Power(d + 1, n - |path| - 1);
      PowerPositive(d + 1, n - |path| - 1);
      PowerStep(d + 1, n - |path|);
      FewerTimes(|more|, d, w);
    }
  }

  lemma PowerStep(b: nat, n: nat)
    requires n > 0
    ensures Power(b, n) == b * Power(b, n - 1)
  {
  }

  ghost function Nodes<T(!new)>(g: Graph<T>): set<T> {
    g.Keys + set e | e in EdgesOf(g) :: e.1
  }

  lemma {:induction false} KidsBound<T>(g: Graph<T>, keys: set<T>) returns (d: nat)
    requires keys <= g.Keys
    ensures forall p :: p in keys ==> |g[p]| <= d
    decreases |keys|
  {
    if keys == {} {
      d := 0;
    } else {
      var p :| p in keys;
      var e := KidsBound(g, keys - {p});
      d := if |g[p]| > e then |g[p]| else e;
    }
  }

  lemma SimpleIsShort<T(!new)>(g: Graph<T>, w: seq<T>)
    requires SimpleWalk(EdgesOf(g), w) && w[0] in Nodes(g)
    ensures |w| <= |Nodes(g)|
  {
    forall i | 0 <= i < |w| ensures w[i] in Nodes(g) {
      if i > 0 {
        assert (w[i - 1], w[i - 1 + 1]) in EdgesOf(g);
        assert (w[i - 1], w[i]).1 in Nodes(g);
      }
    }
    NoDupSize(w);
    SubsetSize(Elems(w), Nodes(g));
  }

  // ---- the search ----

  method IsDuplicate<T(==)>(cycles: seq<seq<T>>, cycle: seq<T>) returns (dup: bool)
    requires cycle != []
    ensures dup <==> Listed(cycles, cycle)
  {
    hide Rotated;
    for i := 0 to |cycles|
      invariant forall j :: 0 <= j < i ==> !Rotated(cycles[j], cycle)
    {
      var answer := IsRotated(cycles[i], cycle);
      if answer.rotated {
        return true;
      }
    }
    return false;
  }

  /** path.index(child) */
  method IndexOf<T(==)>(path: seq<T>, child: T) returns (k: nat)
    requires child in path
    ensures k < |path| && path[k] == child && child !in path[..k]
  {
    k := 0;
    while path[k] != child
      invariant k < |path| && child !in path[..k] && child in path[k..]
      decreases |path| - k
    {
      k := k + 1;
    }
  }

  /** The extensions of path by those children that are not already on it, in order. */
  function Extensions<T(==)>(path: seq<T>, kids: seq<T>): seq<seq<T>> {
    if kids == [] then []
    else
      var k := |kids| - 1;
      Extensions(path, kids[..k]) + if kids[k] in path then [] else [path + [kids[k]]]
  }

  lemma {:induction false} ExtensionsMembers<T>(path: seq<T>, kids: seq<T>)
    ensures |Extensions(path, kids)| <= |kids|
    ensures forall q :: q in Extensions(path, kids) ==>
      |q| == |path| + 1 && q[..|path|] == path && q[|path|] in kids && q[|path|] !in path
    ensures forall c :: c in kids && c !in path ==> path + [c] in Extensions(path, kids)
  {
    if kids != [] {
      var k := |kids| - 1;
      ExtensionsMembers(path, kids[..k]);
      assert kids == kids[..k] + [kids[k]];
    }
  }

  lemma CloseCycle<T(!new)>(E: Edges<T>, cycles: seq<seq<T>>, path: seq<T>, k: nat)
    requires GoodList(E, cycles) && SimpleWalk(E, path) && k < |path| && (path[|path| - 1], path[k]) in E
    ensures Elementary(E, path[k..])
    ensures !Listed(cycles, path[k..]) ==> GoodList(E, cycles + [path[k..]])
    ensures Listed(cycles + [path[k..]], path[k..])
  {
    var c := path[k..];
    assert Rotate(c, 0) == c;
    assert (cycles + [c])[|cycles|] == c;
  }

  /** The body of the `for child in children` loop over all children of the popped path. */
  method Expand<T(==, !new)>(path: seq<T>, kids: seq<T>, paths: seq<seq<T>>, cycles: seq<seq<T>>, visited: set<T>,
                             ghost E: Edges<T>)
    returns (paths': seq<seq<T>>, cycles': seq<seq<T>>, visited': set<T>)
    requires SimpleWalk(E, path) && GoodList(E, cycles)
    requires forall c :: c in kids ==> (path[|path| - 1], c) in E
    ensures paths' == paths + Extensions(path, kids)
    ensures cycles <= cycles' && GoodList(E, cycles')
    ensures visited' == visited + (Elems(kids) - Elems(path))
    ensures forall i {:trigger path[i..]} :: 0 <= i < |path| && path[i] in kids ==> Listed(cycles', path[i..])
  {
    hide GoodList, Listed, SimpleWalk;
    paths', cycles', visited' := paths, cycles, visited;
    for n := 0 to |kids|
      invariant paths' == paths + Extensions(path, kids[..n])
      invariant cycles <= cycles' && GoodList(E, cycles')
      invariant visited' == visited + (Elems(kids[..n]) - Elems(path))
      invariant forall i {:trigger path[i..]} :: 0 <= i < |path| && path[i] in kids[..n] ==> Listed(cycles', path[i..])
    {
      var child := kids[n];
      assert child in kids;
      assert kids[..n + 1] == kids[..n] + [child];
      assert kids[..n + 1][..n] == kids[..n];
      ghost var before := cycles';
      if child in path {
        var k := IndexOf(path, child);
        var cycle := path[k..];
        CloseCycle(E, cycles', path, k);
        var dup := IsDuplicate(cycles', cycle);
        if !dup {
          cycles' := cycles' + [cycle];
        }
        forall i {:trigger path[i..]} | 0 <= i < |path| && path[i] in kids[..n + 1] ensures Listed(cycles', path[i..]) {
          if path[i] != child {
            ListedMono(before, cycles', path[i..]);
          }
        }
      } else {
        paths' := paths' + [path + [child]];
        visited' := visited' + {child};
      }
    }
    assert kids[..|kids|] == kids;
  }

  /** The state between pops: the stack holds simple walks from the root and covers what is unsettled. */
  ghost predicate SearchInv<T(!new)>(E: Edges<T>, root: T, paths: seq<seq<T>>, cycles: seq<seq<T>>) {
    && (forall k :: 0 <= k < |paths| ==> SimpleWalk(E, paths[k]) && paths[k][0] == root)
    && GoodList(E, cycles)
    && Covered(E, root, paths, cycles)
  }

  /** What was visited before this root is exhausted; the rest the root reaches. */
  ghost predicate VisitedInv<T(!new)>(E: Edges<T>, root: T, before: seq<seq<T>>, visited: set<T>) {
    forall v :: v in visited ==> Exhausted(E, before, v) || Reaches(E, root, v)
  }

  lemma ExtendCovered<T(!new)>(g: Graph<T>, root: T, rest: seq<seq<T>>, path: seq<T>, kids: seq<T>,
                               cycles: seq<seq<T>>, cycles': seq<seq<T>>)
    requires path != [] && SearchInv(EdgesOf(g), root, rest + [path], cycles)
    requires kids == if path[|path| - 1] in g then g[path[|path| - 1]] else []
    requires cycles <= cycles'
    requires forall i {:trigger path[i..]} :: 0 <= i < |path| && path[i] in kids ==> Listed(cycles', path[i..])
    ensures Covered(EdgesOf(g), root, rest + Extensions(path, kids), cycles')
  {
    hide GoodList, Listed;
    var E, more := EdgesOf(g), Extensions(path, kids);
    forall w | SimpleWalk(E, w) && w[0] == root ensures Pending(rest + more, w) || Settled(E, cycles', w) {
      if Settled(E, cycles, w) {
        forall i {:trigger w[i..]} | 0 <= i < |w| && (w[|w| - 1], w[i]) in E ensures Listed(cycles', w[i..]) {
          ListedMono(cycles, cycles', w[i..]);
        }
      } else {
        var k :| 0 <= k < |rest + [path]| && (rest + [path])[k] <= w;
        if k < |rest| {
          assert (rest + more)[k] == rest[k];
        } else if w == path {
          assert Settled(E, cycles', w);
        } else {
          PushedPrefix(g, path, kids, w);
          var j :| 0 <= j < |more| && more[j] == path + [w[|path|]];
          assert (rest + more)[|rest| + j] == more[j];
        }
      }
    }
  }

  /** A longer simple walk that starts with the popped path starts with one of the paths pushed. */
  lemma PushedPrefix<T(!new)>(g: Graph<T>, path: seq<T>, kids: seq<T>, w: seq<T>)
    requires path != [] && SimpleWalk(EdgesOf(g), w) && path < w
    requires kids == if path[|path| - 1] in g then g[path[|path| - 1]] else []
    ensures path + [w[|path|]] in Extensions(path, kids) && path + [w[|path|]] <= w
  {
    hide Extensions;
    var l := |path|;
    assert w[l - 1] == path[l - 1] && (w[l - 1], w[l - 1 + 1]) in EdgesOf(g);
    assert w[l] in kids;
    forall i | 0 <= i < l ensures path[i] != w[l] {
      assert path[i] == w[i];
    }
    ExtensionsMembers(path, kids);
  }

  lemma ExtendSimple<T(!new)>(g: Graph<T>, root: T, rest: seq<seq<T>>, path: seq<T>, kids: seq<T>)
    requires SimpleWalk(EdgesOf(g), path) && path[0] == root
    requires kids == if path[|path| - 1] in g then g[path[|path| - 1]] else []
    requires forall k :: 0 <= k < |rest| ==> SimpleWalk(EdgesOf(g), rest[k]) && rest[k][0] == root
    ensures
      var paths := rest + Extensions(path, kids);
      forall k :: 0 <= k < |paths| ==> SimpleWalk(EdgesOf(g), paths[k]) && paths[k][0] == root
  {
    hide Extensions;
    var more := Extensions(path, kids);
    ExtensionsMembers(path, kids);
    forall q | q in more ensures SimpleWalk(EdgesOf(g), q) && q[0] == root {
      assert q == path + [q[|path|]];
    }
    hide SimpleWalk, Walk;
    forall k | 0 <= k < |rest + more| ensures SimpleWalk(EdgesOf(g), (rest + more)[k]) && (rest + more)[k][0] == root {
      assert k >= |rest| ==> (rest + more)[k] in more;
    }
  }

  lemma ChildReached<T(!new)>(g: Graph<T>, root: T, path: seq<T>, kids: seq<T>, v: T)
    requires Walk(EdgesOf(g), path) && path[0] == root
    requires kids == (if path[|path| - 1] in g then g[path[|path| - 1]] else []) && v in kids
    ensures Reaches(EdgesOf(g), root, v)
  {
    var w := path + [v];
    assert Walk(EdgesOf(g), w) && w[0] == root && w[|w| - 1] == v;
  }

  /** Popping one path and pushing its extensions keeps the search invariant and lowers the load. */
  lemma PopStep<T(!new)>(g: Graph<T>, root: T, rest: seq<seq<T>>, path: seq<T>, kids: seq<T>,
                         cycles: seq<seq<T>>, cycles': seq<seq<T>>, d: nat)
    requires path != [] && root in Nodes(g) && SearchInv(EdgesOf(g), root, rest + [path], cycles)
    requires kids == if path[|path| - 1] in g then g[path[|path| - 1]] else []
    requires cycles <= cycles' && GoodList(EdgesOf(g), cycles')
    requires forall i {:trigger path[i..]} :: 0 <= i < |path| && path[i] in kids ==> Listed(cycles', path[i..])
    requires |kids| <= d
    ensures SearchInv(EdgesOf(g), root, rest + Extensions(path, kids), cycles')
    ensures Load(|Nodes(g)|, d, rest + Extensions(path, kids)) < Load(|Nodes(g)|, d, rest + [path])
  {
    hide GoodList, Listed, Covered, NoDup, Nodes, EdgesOf;
    var paths, more := rest + [path], Extensions(path, kids);
    assert paths[|rest|] == path;
    forall k | 0 <= k < |rest| ensures SimpleWalk(EdgesOf(g), rest[k]) && rest[k][0] == root {
      assert paths[k] == rest[k];
    }
    ExtendSimple(g, root, rest, path, kids);
    ExtendCovered(g, root, rest, path, kids, cycles, cycles');
    ExtensionsMembers(path, kids);
    SimpleIsShort(g, path);
    forall q | q in more ensures |q| <= |Nodes(g)| {
      var j :| 0 <= j < |more| && more[j] == q;
      assert (rest + more)[|rest| + j] == q;
      SimpleIsShort(g, q);
    }
    PopLowersLoad(|Nodes(g)|, d, rest, path, more);
  }

  /** Searches everything the root reaches. */
  method SearchFrom<T(==, !new)>(g: Graph<T>, root: T, cycles: seq<seq<T>>, visited: set<T>)
    returns (cycles': seq<seq<T>>, visited': set<T>)
    requires root in g && GoodList(EdgesOf(g), cycles)
    requires forall v :: v in visited ==> Exhausted(EdgesOf(g), cycles, v)
    ensures cycles <= cycles' && GoodList(EdgesOf(g), cycles')
    ensures visited <= visited'
    ensures Exhausted(EdgesOf(g), cycles', root)
    ensures forall v :: v in visited' ==> Exhausted(EdgesOf(g), cycles', v)
  {
    hide *;
    ghost var E := EdgesOf(g);
    ghost var d := KidsBound(g, g.Keys);
    cycles', visited' := cycles, visited;
    var paths := [[root]];
    StartSearch(g, root, cycles, visited);
    while paths != []
      invariant cycles <= cycles' && visited <= visited'
      invariant SearchInv(E, root, paths, cycles') && VisitedInv(E, root, cycles, visited')
      decreases Load(|Nodes(g)|, d, paths)
    {
      PopFacts(g, root, paths, cycles');
      var path, rest := paths[|paths| - 1], paths[..|paths| - 1];
      var parent := path[|path| - 1];
      ghost var kids := if parent in g then g[parent] else [];
      ghost var cycles0, visited0, paths0 := cycles', visited', paths;
      paths := rest;
      if parent in g {
        paths, cycles', visited' := Expand(path, g[parent], paths, cycles', visited', E);
      } else {
        NoExtensions(path);
      }
      assert paths0 == rest + [path] && paths == rest + Extensions(path, kids);
      PopStep(g, root, rest, path, kids, cycles0, cycles', d);
      VisitStep(g, root, cycles, path, kids, visited0, visited');
    }
    SearchDone(E, root, cycles, cycles', visited');
  }

  lemma StartSearch<T(!new)>(g: Graph<T>, root: T, cycles: seq<seq<T>>, visited: set<T>)
    requires root in g && GoodList(EdgesOf(g), cycles)
    requires forall v :: v in visited ==> Exhausted(EdgesOf(g), cycles, v)
    ensures SearchInv(EdgesOf(g), root, [[root]], cycles) && VisitedInv(EdgesOf(g), root, cycles, visited)
    ensures root in Nodes(g)
  {
    hide GoodList, Exhausted, Settled;
    forall w | SimpleWalk(EdgesOf(g), w) && w[0] == root ensures Pending([[root]], w) {
      assert [[root]][0] <= w;
    }
  }

  lemma PopFacts<T(!new)>(g: Graph<T>, root: T, paths: seq<seq<T>>, cycles: seq<seq<T>>)
    requires paths != [] && SearchInv(EdgesOf(g), root, paths, cycles)
    ensures
      var path := paths[|paths| - 1];
      && path != [] && path[0] == root && SimpleWalk(EdgesOf(g), path) && GoodList(EdgesOf(g), cycles)
      && var last := path[|path| - 1];
         (last in g ==> forall c :: c in g[last] ==> (last, c) in EdgesOf(g))
  {
    hide GoodList, Covered;
  }

  lemma NoExtensions<T>(path: seq<T>)
    ensures Extensions(path, []) == []
  {
  }

  lemma VisitStep<T(!new)>(g: Graph<T>, root: T, before: seq<seq<T>>, path: seq<T>, kids: seq<T>, visited: set<T>, visited': set<T>)
    requires SimpleWalk(EdgesOf(g), path) && path[0] == root
    requires kids == if path[|path| - 1] in g then g[path[|path| - 1]] else []
    requires VisitedInv(EdgesOf(g), root, before, visited)
    requires visited' <= visited + (Elems(kids) - Elems(path))
    ensures VisitedInv(EdgesOf(g), root, before, visited')
  {
    hide Exhausted, Reaches, NoDup;
    forall v | v in visited' && v !in visited ensures Reaches(EdgesOf(g), root, v) {
      ChildReached(g, root, path, kids, v);
    }
  }

  lemma SearchDone<T(!new)>(E: Edges<T>, root: T, before: seq<seq<T>>, cycles: seq<seq<T>>, visited: set<T>)
    requires SearchInv(E, root, [], cycles) && VisitedInv(E, root, before, visited) && before <= cycles
    ensures GoodList(E, cycles) && Exhausted(E, cycles, root)
    ensures forall v :: v in visited ==> Exhausted(E, cycles, v)
  {
    hide GoodList, Covered, Exhausted, Reaches;
    SearchedRootIsExhausted(E, root, cycles);
    forall v | v in visited ensures Exhausted(E, cycles, v) {
      if Exhausted(E, before, v) {
        ExhaustedMono(E, before, cycles, v);
      } else {
        ExhaustedBelow(E, cycles, root, v);
      }
    }
  }

  /** Every elementary cycle, exactly once up to rotation, for every order in which a dictionary may list its keys. */
  method FindCycles<T(==, !new)>(parentChildren: Graph<T>) returns (cycles: seq<seq<T>>)
    ensures forall i :: 0 <= i < |cycles| ==> Elementary(EdgesOf(parentChildren), cycles[i])
    ensures forall i, j :: 0 <= i < j < |cycles| ==> !Rotated(cycles[i], cycles[j])
    ensures forall c :: Elementary(EdgesOf(parentChildren), c) ==> Listed(cycles, c)
  {
    hide Exhausted, Elementary, EdgesOf, Rotated, Listed;
    ghost var E := EdgesOf(parentChildren);
    var order := TopSort.KeyOrder(parentChildren.Keys);
    cycles := [];
    var visited: set<T> := {};
    for n := 0 to |order|
      invariant GoodList(E, cycles)
      invariant forall v :: v in visited ==> Exhausted(E, cycles, v)
      invariant forall i :: 0 <= i < n ==> Exhausted(E, cycles, order[i])
    {
      var parent := order[n];
      if parent !in visited {
        ghost var before := cycles;
        assert parent in Elems(order);
        cycles, visited := SearchFrom(parentChildren, parent, cycles, visited);
        forall i | 0 <= i < n ensures Exhausted(E, cycles, order[i]) {
          ExhaustedMono(E, before, cycles, order[i]);
        }
      }
    }
    forall c | Elementary(E, c) ensures Listed(cycles, c) {
      StartIsKey(parentChildren, c);
      assert c[0] in Elems(order);
      UseExhausted(E, cycles, c);
    }
  }

  lemma StartIsKey<T(!new)>(g: Graph<T>, c: seq<T>)
    requires Elementary(EdgesOf(g), c)
    ensures c != [] && c[0] in g
  {
    if |c| > 1 {
      assert (c[0], c[0 + 1]) in EdgesOf(g);
    }
  }

  lemma UseExhausted<T(!new)>(E: Edges<T>, cycles: seq<seq<T>>, c: seq<T>)
    requires Elementary(E, c) && Exhausted(E, cycles, c[0])
    ensures Listed(cycles, c)
  {
    hide Listed;
    assert Walk(E, [c[0]]);
    assert Reaches(E, c[0], c[0]);
  }

  lemma CyclicIffListed<T(!new)>(E: Edges<T>, cycles: seq<seq<T>>)
    requires forall i :: 0 <= i < |cycles| ==> Elementary(E, cycles[i])
    requires forall c :: Elementary(E, c) ==> Listed(cycles, c)
    ensures Cyclic(E) <==> cycles != []
  {
    if cycles != [] {
      assert Elementary(E, cycles[0]);
    }
  }

  /** A walk leads from one of the listed cycles to x. */
  ghost predicate BelowListed<T(!new)>(E: Edges<T>, cycles: seq<seq<T>>, x: T) {
    exists i, w :: 0 <= i < |cycles| && LeadsTo(E, cycles[i], w, x)
  }

  /** What is on or below some cycle is on or below a listed one: go round to where the walk leaves. */
  lemma BelowListedIff<T(!new)>(E: Edges<T>, cycles: seq<seq<T>>, x: T)
    requires forall i :: 0 <= i < |cycles| ==> Elementary(E, cycles[i])
    requires forall c :: Elementary(E, c) ==> Listed(cycles, c)
    ensures OnOrBelowCycle(E, x) <==> BelowListed(E, cycles, x)
  {
    if OnOrBelowCycle(E, x) {
      var c: seq<T>, w: seq<T> :| LeadsTo(E, c, w, x);
      assert Listed(cycles, c);
      var i :| 0 <= i < |cycles| && Rotated(cycles[i], c);
      var v := FromRotation(E, cycles[i], c, w, x);
      assert LeadsTo(E, cycles[i], v, x);
    }
  }

  lemma FromRotation<T>(E: Edges<T>, a: seq<T>, c: seq<T>, w: seq<T>, x: T) returns (v: seq<T>)
    requires Elementary(E, a) && Rotated(a, c) && LeadsTo(E, c, w, x)
    ensures LeadsTo(E, a, v, x)
  {
    var k :| 0 <= k <= |a| && c == Rotate(a, k);
    if k == |a| {
      assert c == a;
      v := w;
    } else {
      assert c[0] == a[k];
      v := a[..k] + w;
      forall i | 0 <= i < |v| - 1 ensures (v[i], v[i + 1]) in E {
        if i < k {
          assert (a[i], a[i + 1]) in E;
        } else {
          assert (w[i - k], w[i - k + 1]) in E;
        }
      }
    }
  }

  /** On the same pairs both sorters fail exactly when the enumerator lists a cycle, and both leave over exactly what
      lies on or below a listed cycle. */
  method SortAndEnumerate<T(==, !new)>(pairs: seq<(T, T)>)
    returns (sorted: TopSort.SortResult<T>, levels: TopSortLevels.LevelsResult<T>, cycles: seq<seq<T>>)
    ensures sorted.CycleError? <==> cycles != []
    ensures levels.numParents != map[] <==> cycles != []
    ensures forall x {:trigger x in levels.numParents} :: x in levels.numParents <==>
      x in TopSort.Elements(pairs) && BelowListed(TopSort.PairEdges(pairs), cycles, x)
    ensures sorted.CycleError? ==> sorted.numParents.Keys == levels.numParents.Keys
  {
    hide BelowListed, OnOrBelowCycle, Cyclic, Elementary, Listed, Rotated;
    sorted := TopSort.TopSort(pairs);
    levels := TopSortLevels.TopSortLevels(pairs);
    TopSort.ChildrenMapEdges(pairs);
    cycles := FindCycles(TopSort.ChildrenMap(pairs));
    ghost var E := TopSort.PairEdges(pairs);
    CyclicIffListed(E, cycles);
    forall x ensures OnOrBelowCycle(E, x) <==> BelowListed(E, cycles, x) {
      BelowListedIff(E, cycles, x);
    }
  }
}
