/** `is_rotated` of bindings/python/rad_util.py, and the algebra of rotations find_cycles relies on. */
module Rotations {

  ghost predicate IsRotation<T>(a: seq<T>, b: seq<T>) {
    |a| == |b| && exists k :: 0 <= k < |a| && b == Rotate(a, k)
  }

  function Rotate<T>(a: seq<T>, k: nat): seq<T>
    requires k <= |a|
  {
    a[k..] + a[..k]
  }

  /** seq2[0] raises when both sequences are empty. */
  datatype Check = IndexError | Answer(value: bool)

  method IsRotated<T(==)>(seq1: seq<T>, seq2: seq<T>) returns (r: Check)
    ensures r.IndexError? <==> seq1 == [] && seq2 == []
    ensures r.Answer? ==> (r.value <==> IsRotation(seq1, seq2))
  {
    if |seq1| != |seq2| {
      return Answer(false);
    }
    if seq2 == [] {
      return IndexError;
    }
    var startIndexes: seq<nat> := [];
    var headItem := seq2[0];
    for index1 := 0 to |seq1|
      invariant forall j :: 0 <= j < |startIndexes| ==> startIndexes[j] < |seq1|
      invariant forall k :: 0 <= k < index1 && seq1[k] == headItem ==> k in startIndexes
    {
      if seq1[index1] == headItem {
        startIndexes := startIndexes + [index1];
      }
    }
    var doubleSeq1 := seq1 + seq1;
    for i := 0 to |startIndexes|
      invariant forall j :: 0 <= j < i ==> Rotate(seq1, startIndexes[j]) != seq2
    {
      var index1 := startIndexes[i];
      assert doubleSeq1[index1..index1+|seq1|] == Rotate(seq1, index1);
      if doubleSeq1[index1..index1+|seq1|] == seq2 {
        return Answer(true);
      }
    }
    forall k | 0 <= k < |seq1| ensures Rotate(seq1, k) != seq2 {
      if seq1[k] == headItem {
        assert k in startIndexes;
      }
    }
    return Answer(false);
  }

  lemma Reflexive<T>(a: seq<T>)
    requires a != []
    ensures IsRotation(a, a)
  {
    assert Rotate(a, 0) == a;
  }

  lemma Symmetric<T>(a: seq<T>, b: seq<T>)
    requires IsRotation(a, b)
    ensures IsRotation(b, a)
  {
    var k :| 0 <= k < |a| && b == Rotate(a, k);
    if k == 0 {
      assert a == b;
      Reflexive(a);
    } else {
      assert a == Rotate(b, |a| - k);
    }
  }

  lemma RotateAt<T>(a: seq<T>, k: nat, i: nat)
    requires k < |a| && i < |a|
    ensures Rotate(a, k)[i] == a[if i + k < |a| then i + k else i + k - |a|]
  {
  }

  lemma RotateTwice<T>(a: seq<T>, j: nat, k: nat)
    requires j < |a| && k < |a|
    ensures Rotate(Rotate(a, j), k) == Rotate(a, if j + k < |a| then j + k else j + k - |a|)
  {
    var n, b := |a|, Rotate(a, j);
    var c, m := Rotate(b, k), if j + k < n then j + k else j + k - n;
    forall i | 0 <= i < n ensures c[i] == Rotate(a, m)[i] {
      RotateAt(b, k, i);
      RotateAt(a, j, if i + k < n then i + k else i + k - n);
      RotateAt(a, m, i);
    }
  }

  lemma Transitive<T>(a: seq<T>, b: seq<T>, c: seq<T>)
    requires IsRotation(a, b) && IsRotation(b, c)
    ensures IsRotation(a, c)
  {
    var j :| 0 <= j < |a| && b == Rotate(a, j);
    var k :| 0 <= k < |a| && c == Rotate(b, k);
    RotateTwice(a, j, k);
  }
}
