/** Sequences as lists of distinct items. */
module Sequences {

  function Elems<T>(s: seq<T>): set<T> {
    set x | x in s
  }

  predicate NoDup<T(==)>(s: seq<T>) {
    forall i, j :: 0 <= i < j < |s| ==> s[i] != s[j]
  }

  lemma {:induction false} NoDupSize<T>(s: seq<T>)
    ensures NoDup(s) ==> |Elems(s)| == |s|
    ensures |Elems(s)| <= |s|
  {
    if s == [] {
      assert Elems(s) == {};
    } else {
      var t := s[..|s| - 1];
      NoDupSize(t);
      assert s == t + [s[|s| - 1]];
      assert Elems(s) == Elems(t) + {s[|s| - 1]};
      if NoDup(s) {
        assert s[|s| - 1] !in t;
      }
    }
  }

  lemma NoDupConcat<T>(a: seq<T>, b: seq<T>)
    requires NoDup(a) && NoDup(b) && forall x :: x in b ==> x !in a
    ensures NoDup(a + b)
  {
    forall i, j | 0 <= i < j < |a + b| ensures (a + b)[i] != (a + b)[j] {
      if i < |a| <= j {
        assert b[j - |a|] in b;
      }
    }
  }

  lemma SubsetSize<T>(a: set<T>, b: set<T>)
    requires a <= b
    ensures |a| <= |b|
  {
    assert b == a + (b - a);
  }

  lemma Pigeonhole<T>(w: seq<T>, S: set<T>)
    requires Elems(w) <= S && |w| > |S|
    ensures !NoDup(w)
  {
    NoDupSize(w);
    SubsetSize(Elems(w), S);
  }

  predicate Increasing(at: seq<nat>) {
    forall m, n :: 0 <= m < n < |at| ==> at[m] < at[n]
  }

  /** The positions, in order, of exactly the items to keep. */
  ghost predicate Exactly<T(!new)>(s: seq<T>, at: seq<nat>, keep: T -> bool) {
    && Increasing(at)
    && (forall i :: i in at <==> 0 <= i < |s| && keep(s[i]))
  }

  lemma ExactlyNone<T(!new)>(keep: T -> bool)
    ensures Exactly([], [], keep)
  {
  }

  lemma ExactlyStep<T(!new)>(s: seq<T>, x: T, at: seq<nat>, keep: T -> bool)
    requires Exactly(s, at, keep)
    ensures Exactly(s + [x], if keep(x) then at + [|s|] else at, keep)
  {
    forall n | 0 <= n < |at| ensures at[n] < |s| {
      assert at[n] in at;
    }
  }

  lemma ExactlyNext<T(!new)>(s: seq<T>, n: nat, at: seq<nat>, keep: T -> bool)
    requires n < |s| && Exactly(s[..n], at, keep)
    ensures Exactly(s[..n + 1], if keep(s[n]) then at + [n] else at, keep)
  {
    hide Exactly;
    ExactlyStep(s[..n], s[n], at, keep);
    assert s[..n + 1] == s[..n] + [s[n]];
  }

  lemma {:induction false} IncreasingSize(at: seq<nat>, s: set<int>)
    requires Increasing(at) && forall i: int :: i in s <==> i in at
    ensures |s| == |at|
  {
    if at == [] {
      assert forall i: int {:trigger i in s} :: i in s ==> i in at;
      assert s == {};
    } else {
      var n := |at| - 1;
      var last := at[n];
      assert at == at[..n] + [last];
      assert last in at;
      assert forall i: int :: i in s - {last} <==> i in at[..n];
      IncreasingSize(at[..n], s - {last});
    }
  }
}
