/** All rearrangements of a list: permutations in bindings/python/rad_util.py. */
module Permutations {
  import opened Sequences

  function Insert<T>(s: seq<T>, i: nat, x: T): seq<T>
    requires i <= |s|
  {
    s[..i] + [x] + s[i..]
  }

  /** x put in at each of the first n positions of s. */
  function Insertions<T>(s: seq<T>, x: T, n: nat): seq<seq<T>>
    requires n <= |s| + 1
  {
    if n == 0 then [] else Insertions(s, x, n - 1) + [Insert(s, n - 1, x)]
  }

  function Spread<T>(subs: seq<seq<T>>, x: T): seq<seq<T>> {
    if subs == [] then []
    else
      var last := subs[|subs| - 1];
      Spread(subs[..|subs| - 1], x) + Insertions(last, x, |last| + 1)
  }

  function AllOrders<T>(s: seq<T>): seq<seq<T>> {
    if |s| <= 1 then [s] else Spread(AllOrders(s[1..]), s[0])
  }

  function Factorial(n: nat): nat {
    if n == 0 then 1 else n * Factorial(n - 1)
  }

  predicate Rearranged<T(==)>(s: seq<T>, p: seq<T>) {
    multiset(p) == multiset(s)
  }

  // ---- members ----

  lemma {:induction false} InsertionsMember<T>(s: seq<T>, x: T, n: nat, p: seq<T>)
    requires n <= |s| + 1
    ensures |Insertions(s, x, n)| == n
    ensures p in Insertions(s, x, n) <==> exists i :: 0 <= i < n && p == Insert(s, i, x)
  {
    if n > 0 {
      InsertionsMember(s, x, n - 1, p);
    }
  }

  lemma {:induction false} SpreadMember<T>(subs: seq<seq<T>>, x: T, p: seq<T>)
    ensures p in Spread(subs, x) <==> exists q, i :: q in subs && 0 <= i <= |q| && p == Insert(q, i, x)
  {
    if subs != [] {
      var n := |subs| - 1;
      SpreadMember(subs[..n], x, p);
      InsertionsMember(subs[n], x, |subs[n]| + 1, p);
      assert subs == subs[..n] + [subs[n]];
      if q, i :| q in subs[..n] && 0 <= i <= |q| && p == Insert(q, i, x) {
        assert q in subs;
      }
      if i :| 0 <= i < |subs[n]| + 1 && p == Insert(subs[n], i, x) {
        assert subs[n] in subs;
      }
    }
  }

  lemma InsertMultiset<T>(s: seq<T>, i: nat, x: T)
    requires i <= |s|
    ensures multiset(Insert(s, i, x)) == multiset(s) + multiset{x}
  {
    assert s == s[..i] + s[i..];
  }

  /** Exactly the rearrangements are listed. */
  lemma {:induction false} OrdersAreRearrangements<T>(s: seq<T>, p: seq<T>)
    ensures p in AllOrders(s) <==> Rearranged(s, p)
    decreases |s|
  {
    hide Spread, Insert;
    if |s| <= 1 {
      SmallRearrangement(s, p);
    } else {
      var x, t := s[0], s[1..];
      assert s == [x] + t;
      SpreadMember(AllOrders(t), x, p);
      if q, i :| q in AllOrders(t) && 0 <= i <= |q| && p == Insert(q, i, x) {
        OrdersAreRearrangements(t, q);
        InsertMultiset(q, i, x);
      }
      if Rearranged(s, p) {
        var q, i := TakeOut(p, x);
        InsertMultiset(q, i, x);
        SameRest(multiset(q), multiset(t), x);
        OrdersAreRearrangements(t, q);
      }
    }
  }

  lemma SameRest<T>(a: multiset<T>, b: multiset<T>, x: T)
    requires a + multiset{x} == b + multiset{x}
    ensures a == b
  {
    assert a == (a + multiset{x}) - multiset{x};
    assert b == (b + multiset{x}) - multiset{x};
  }

  lemma TakeOut<T>(p: seq<T>, x: T) returns (q: seq<T>, i: nat)
    requires x in multiset(p)
    ensures i <= |q| && p == Insert(q, i, x)
  {
    i :| i < |p| && p[i] == x;
    q := p[..i] + p[i + 1..];
    assert q[..i] == p[..i] && q[i..] == p[i + 1..];
  }

  lemma SmallRearrangement<T>(s: seq<T>, p: seq<T>)
    requires |s| <= 1
    ensures Rearranged(s, p) <==> p == s
  {
    if Rearranged(s, p) {
      assert |p| == |multiset(p)| == |multiset(s)| == |s|;
      if |s| == 1 {
        assert p[0] in multiset(p);
        assert s == [s[0]] && p == [p[0]];
      }
    }
  }

  // ---- how many ----

  lemma OneMoreTime(a: nat, k: nat)
    ensures a * (k + 1) == a * k + a
  {
  }

  lemma {:induction false} SpreadSize<T>(subs: seq<seq<T>>, x: T, n: nat)
    requires forall q :: q in subs ==> |q| == n
    ensures |Spread(subs, x)| == (n + 1) * |subs|
  {
    hide Insertions;
    if subs != [] {
      var k := |subs| - 1;
      SpreadSize(subs[..k], x, n);
      assert subs[k] in subs;
      InsertionsMember(subs[k], x, n + 1, []);
      OneMoreTime(n + 1, k);
    }
  }

  lemma OrdersLength<T>(s: seq<T>, q: seq<T>)
    requires q in AllOrders(s)
    ensures |q| == |s|
  {
    OrdersAreRearrangements(s, q);
    assert |multiset(q)| == |q| && |multiset(s)| == |s|;
  }

  /** A list of n items has n! orders. */
  lemma {:induction false} OrdersCount<T>(s: seq<T>)
    ensures |AllOrders(s)| == Factorial(|s|)
    decreases |s|
  {
    hide Spread;
    if |s| <= 1 {
      assert Factorial(0) == 1 && Factorial(1) == 1;
    } else {
      var t := s[1..];
      OrdersCount(t);
      forall q | q in AllOrders(t) ensures |q| == |t| {
        OrdersLength(t, q);
      }
      SpreadSize(AllOrders(t), s[0], |t|);
    }
  }

  // ---- when they are pairwise different ----

  lemma InsertInjective<T>(q: seq<T>, i: nat, r: seq<T>, j: nat, x: T)
    requires i <= |q| && j <= |r| && x !in q && x !in r && Insert(q, i, x) == Insert(r, j, x)
    ensures i == j && q == r
  {
    var p := Insert(q, i, x);
    assert p[i] == x && p[j] == x;
    assert forall k :: 0 <= k < |p| && k != i ==> p[k] in q;
    assert q == p[..i] + p[i + 1..] && r == p[..j] + p[j + 1..];
  }

  lemma {:induction false} InsertionsDistinct<T>(s: seq<T>, x: T, n: nat)
    requires n <= |s| + 1 && x !in s
    ensures NoDup(Insertions(s, x, n))
  {
    if n > 0 {
      InsertionsDistinct(s, x, n - 1);
      var p := Insert(s, n - 1, x);
      InsertionsMember(s, x, n - 1, p);
      if i :| 0 <= i < n - 1 && p == Insert(s, i, x) {
        InsertInjective(s, i, s, n - 1, x);
      }
      NoDupConcat(Insertions(s, x, n - 1), [p]);
    }
  }

  lemma {:induction false} SpreadDistinct<T>(subs: seq<seq<T>>, x: T)
    requires NoDup(subs) && forall q :: q in subs ==> x !in q
    ensures NoDup(Spread(subs, x))
  {
    if subs != [] {
      var n := |subs| - 1;
      var last, init := subs[n], subs[..n];
      assert last in subs && last !in init;
      SpreadDistinct(init, x);
      InsertionsDistinct(last, x, |last| + 1);
      forall p | p in Insertions(last, x, |last| + 1) ensures p !in Spread(init, x) {
        InsertionsMember(last, x, |last| + 1, p);
        SpreadMember(init, x, p);
        var j :| 0 <= j <= |last| && p == Insert(last, j, x);
        forall q, i | q in init && 0 <= i <= |q| && p == Insert(q, i, x) ensures q == last {
          assert q in subs;
          InsertInjective(q, i, last, j, x);
        }
      }
      NoDupConcat(Spread(init, x), Insertions(last, x, |last| + 1));
    }
  }

  lemma SameTwice<T>(s: seq<T>, k: nat, m: nat)
    requires k < m < |s| && s[k] == s[m]
    ensures !NoDup(s)
  {
  }

  lemma {:induction false} InsertionsRepeat<T>(s: seq<T>, x: T, k: nat, n: nat)
    requires k < |s| && s[k] == x && k + 2 <= n <= |s| + 1
    ensures |Insertions(s, x, n)| == n && Insertions(s, x, n)[k] == Insertions(s, x, n)[k + 1]
  {
    InsertionsAt(s, x, n, k);
    InsertionsAt(s, x, n, k + 1);
    assert Insert(s, k, x) == Insert(s, k + 1, x);
  }

  lemma {:induction false} InsertionsAt<T>(s: seq<T>, x: T, n: nat, k: nat)
    requires k < n <= |s| + 1
    ensures |Insertions(s, x, n)| == n && Insertions(s, x, n)[k] == Insert(s, k, x)
  {
    InsertionsMember(s, x, n - 1, []);
    if k < n - 1 {
      InsertionsAt(s, x, n - 1, k);
    }
  }

  lemma {:induction false} SpreadKeepsRepeat<T>(subs: seq<seq<T>>, x: T)
    requires !NoDup(subs) || exists q :: q in subs && x in q
    ensures !NoDup(Spread(subs, x))
  {
    hide Insert, Insertions;
    var n := |subs| - 1;
    var init, last := subs[..n], subs[n];
    var a, b := Spread(init, x), Insertions(last, x, |last| + 1);
    assert subs == init + [last] && Spread(subs, x) == a + b;
    if !NoDup(init) || (exists q :: q in init && x in q) {
      SpreadKeepsRepeat(init, x);
      var i, j :| 0 <= i < j < |a| && a[i] == a[j];
      SameTwice(a + b, i, j);
    } else if x in last {
      var k :| 0 <= k < |last| && last[k] == x;
      InsertionsRepeat(last, x, k, |last| + 1);
      SameTwice(a + b, |a| + k, |a| + k + 1);
    } else {
      assert last in init by {
        if last !in init {
          NoDupConcat(init, [last]);
        }
      }
      InsertionsAt(last, x, |last| + 1, 0);
      assert b[0] == Insert(last, 0, x);
      SpreadMember(init, x, b[0]);
      var i :| 0 <= i < |a| && a[i] == b[0];
      SameTwice(a + b, i, |a|);
    }
  }

  /** The listed orders are pairwise different exactly when the items are. */
  lemma {:induction false} DistinctIff<T>(s: seq<T>)
    ensures NoDup(AllOrders(s)) <==> NoDup(s)
    decreases |s|
  {
    if |s| > 1 {
      var x, t := s[0], s[1..];
      var subs := AllOrders(t);
      DistinctIff(t);
      OrdersAreRearrangements(t, t);
      forall q | q in subs ensures x in q <==> x in t {
        OrdersAreRearrangements(t, q);
        assert x in q <==> x in multiset(q);
        assert x in t <==> x in multiset(t);
      }
      assert s == [x] + t;
      if NoDup(s) {
        assert x !in t && NoDup(t);
        SpreadDistinct(subs, x);
      } else {
        assert !NoDup(t) || x in t by {
          if NoDup(t) && x !in t {
            NoDupConcat([x], t);
          }
        }
        SpreadKeepsRepeat(subs, x);
      }
    }
  }

  // ---- the program ----

  /** n! lists, exactly the rearrangements of the input, pairwise different exactly when the items are. */
  method AllPermutations<T(==, !new)>(input: seq<T>) returns (out: seq<seq<T>>)
    ensures |out| == Factorial(|input|)
    ensures forall p :: p in out <==> Rearranged(input, p)
    ensures NoDup(out) <==> NoDup(input)
  {
    hide AllOrders;
    out := ListOrders(input);
    OrdersCount(input);
    DistinctIff(input);
    forall p ensures p in out <==> Rearranged(input, p) {
      OrdersAreRearrangements(input, p);
    }
  }

  lemma SpreadStep<T>(subs: seq<seq<T>>, k: nat, x: T)
    requires k < |subs|
    ensures Spread(subs[..k + 1], x) == Spread(subs[..k], x) + Insertions(subs[k], x, |subs[k]| + 1)
  {
    hide Insertions;
    assert subs[..k + 1][..k] == subs[..k];
  }

  // ---- the order of the list ----

  lemma {:induction false} SpreadPrefix<T>(subs: seq<seq<T>>, x: T, r: nat)
    requires r <= |subs|
    ensures Spread(subs[..r], x) <= Spread(subs, x)
    decreases |subs|
  {
    var m := |subs| - 1;
    if r == |subs| {
      assert subs[..r] == subs;
    } else {
      SpreadPrefix(subs[..m], x, r);
      assert subs[..m][..r] == subs[..r];
    }
  }

  lemma {:induction false} SpreadAt<T>(subs: seq<seq<T>>, x: T, r: nat, i: nat)
    requires r < |subs| && i <= |subs[r]|
    ensures |Spread(subs[..r], x)| + i < |Spread(subs, x)|
    ensures Spread(subs, x)[|Spread(subs[..r], x)| + i] == Insert(subs[r], i, x)
  {
    hide Spread, Insertions;
    SpreadStep(subs, r, x);
    SpreadPrefix(subs, x, r + 1);
    InsertionsAt(subs[r], x, |subs[r]| + 1, i);
    var done, upTo := Spread(subs[..r], x), Spread(subs[..r + 1], x);
    assert upTo[|done| + i] == Insertions(subs[r], x, |subs[r]| + 1)[i];
  }

  /** Where the r-th run of n lists starts. */
  function RunStart(n: nat, r: nat): nat {
    n * r
  }

  lemma {:induction false} SpreadStart<T>(subs: seq<seq<T>>, x: T, n: nat, r: nat)
    requires n > 0 && r <= |subs| && forall q :: q in subs ==> |q| == n - 1
    ensures |Spread(subs[..r], x)| == RunStart(n, r)
  {
    hide Spread;
    SpreadSize(subs[..r], x, n - 1);
  }

  /** The orders of a longer list: each order of the rest, in turn, with the first item put in at each position in turn. */
  lemma {:induction false} OrdersAt<T>(s: seq<T>, r: nat, i: nat)
    requires |s| > 1 && r < |AllOrders(s[1..])| && i < |s|
    ensures
      var sub, at := AllOrders(s[1..])[r], RunStart(|s|, r) + i;
      |sub| == |s| - 1 && at < |AllOrders(s)| && AllOrders(s)[at] == Insert(sub, i, s[0])
  {
    var subs, x := AllOrders(s[1..]), s[0];
    assert AllOrders(s) == Spread(subs, x);
    hide *;
    forall q | q in subs ensures |q| == |s| - 1 {
      OrdersLength(s[1..], q);
    }
    SpreadStart(subs, x, |s|, r);
    SpreadAt(subs, x, r, i);
  }

  /** Appends a copy of the list for each position the item can take in it. */
  method InsertEverywhere<T>(sub: seq<T>, item: T, n: nat, before: seq<seq<T>>) returns (out: seq<seq<T>>)
    requires n == |sub| + 1
    ensures out == before + Insertions(sub, item, n)
  {
    hide Insert;
    out := before;
    for i := 0 to n
      invariant out == before + Insertions(sub, item, i)
    {
      out := out + [Insert(sub, i, item)];
    }
  }

  /** Takes out the first item, recurs, and puts it in at every position of every list. */
  method ListOrders<T>(input: seq<T>) returns (out: seq<seq<T>>)
    ensures out == AllOrders(input)
    decreases |input|
  {
    if |input| > 1 {
      out := [];
      var item := input[0];
      var subs := ListOrders(input[1..]);
      for k := 0 to |subs|
        invariant out == Spread(subs[..k], item)
      {
        hide *;
        assert subs[k] in subs;
        OrdersLength(input[1..], subs[k]);
        out := InsertEverywhere(subs[k], item, |input|, out);
        SpreadStep(subs, k, item);
      }
      assert subs[..|subs|] == subs;
    } else {
      out := [input];
    }
  }
}
