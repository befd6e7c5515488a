/** Sequences up to rotation: is_rotated in bindings/python/rad_util.py. */
module Rotation {

  function Rotate<T>(a: seq<T>, k: int): seq<T>
    requires 0 <= k <= |a|
  {
    a[k..] + a[..k]
  }

  predicate Rotated<T(==)>(a: seq<T>, b: seq<T>) {
    exists k :: 0 <= k <= |a| && b == Rotate(a, k)
  }

  lemma RotatedSym<T>(a: seq<T>, b: seq<T>)
    requires Rotated(a, b)
    ensures Rotated(b, a)
  {
    var k :| 0 <= k <= |a| && b == Rotate(a, k);
    assert Rotate(b, |a| - k) == a;
  }

  lemma RotateTwice<T>(a: seq<T>, k: nat, l: nat)
    requires k <= |a| && l <= |a|
    ensures Rotate(Rotate(a, k), l) == Rotate(a, if k + l <= |a| then k + l else k + l - |a|)
  {
    if k + l <= |a| {
      assert a == a[..k] + a[k..k + l] + a[k + l..];
    } else {
      var m := k + l - |a|;
      assert a == a[..m] + a[m..k] + a[k..];
    }
  }

  lemma RotatedTrans<T>(a: seq<T>, b: seq<T>, c: seq<T>)
    requires Rotated(a, b) && Rotated(b, c)
    ensures Rotated(a, c)
  {
    var k :| 0 <= k <= |a| && b == Rotate(a, k);
    var l :| 0 <= l <= |b| && c == Rotate(b, l);
    RotateTwice(a, k, l);
  }

  /** Laid out twice, the first sequence shows the second at index j. */
  predicate ShowsAt<T(==)>(seq1: seq<T>, seq2: seq<T>, j: int)
    requires |seq1| == |seq2|
  {
    0 <= j < |seq1| && (seq1 + seq1)[j..j + |seq1|] == seq2
  }

  lemma ShowsRotation<T>(seq1: seq<T>, seq2: seq<T>, j: int)
    requires |seq1| == |seq2| && 0 <= j < |seq1|
    ensures ShowsAt(seq1, seq2, j) <==> seq2 == Rotate(seq1, j)
    ensures seq2 == Rotate(seq1, j) ==> seq1[j] == seq2[0]
  {
    assert (seq1 + seq1)[j..j + |seq1|] == Rotate(seq1, j);
  }

  lemma RotatedShows<T>(seq1: seq<T>, seq2: seq<T>)
    requires |seq1| == |seq2| > 0
    ensures Rotated(seq1, seq2) <==> exists j :: ShowsAt(seq1, seq2, j)
    ensures forall j :: ShowsAt(seq1, seq2, j) ==> 0 <= j < |seq1| && seq1[j] == seq2[0]
  {
    forall j | ShowsAt(seq1, seq2, j) ensures seq2 == Rotate(seq1, j) && seq1[j] == seq2[0] {
      ShowsRotation(seq1, seq2, j);
    }
    if Rotated(seq1, seq2) {
      var k :| 0 <= k <= |seq1| && seq2 == Rotate(seq1, k);
      assert Rotate(seq1, 0) == Rotate(seq1, |seq1|);
      ShowsRotation(seq1, seq2, if k == |seq1| then 0 else k);
    }
  }

  datatype Answer = IndexError | Answer(rotated: bool)

  /** Follows the source: find the places the head of the second occurs in the first, then compare there.
      Two empty sequences have no head: the look-up fails on them, and only on them. */
  method IsRotated<T(==)>(seq1: seq<T>, seq2: seq<T>) returns (r: Answer)
    ensures r.IndexError? <==> seq1 == [] && seq2 == []
    ensures r.Answer? ==> (r.rotated <==> Rotated(seq1, seq2))
  {
    if |seq1| != |seq2| {
      return Answer(false);
    }
    if seq2 == [] {
      return IndexError;
    }
    hide *;
    var starts := Occurrences(seq1, seq2[0]);
    RotatedShows(seq1, seq2);
    for s := 0 to |starts|
      invariant forall t :: 0 <= t < s ==> !ShowsAt(seq1, seq2, starts[t])
    {
      if ShowsAt(seq1, seq2, starts[s]) {
        return Answer(true);
      }
    }
    assert forall j :: ShowsAt(seq1, seq2, j) ==> j in starts;
    return Answer(false);
  }

  method Occurrences<T(==)>(s: seq<T>, item: T) returns (indexes: seq<int>)
    ensures forall j :: j in indexes <==> 0 <= j < |s| && s[j] == item
  {
    indexes := [];
    for i := 0 to |s|
      invariant forall j :: j in indexes <==> 0 <= j < i && s[j] == item
    {
      if s[i] == item {
        indexes := indexes + [i];
      }
    }
  }
}
