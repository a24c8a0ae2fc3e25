/** bindings/python/rad_util.py: the recursive `permutations`. */
module Permutations {
  import opened Sequences

  function InsertAt<T>(s: seq<T>, i: nat, x: T): seq<T>
    requires i <= |s|
  {
    s[..i] + [x] + s[i..]
  }

  /** x inserted at each of the first n positions of s. */
  ghost function Inserted<T>(s: seq<T>, x: T, n: nat): (r: seq<seq<T>>)
    requires n <= |s| + 1
    ensures |r| == n && forall i :: 0 <= i < n ==> r[i] == InsertAt(s, i, x)
  {
    seq(n, i requires 0 <= i < n => InsertAt(s, i, x))
  }

  ghost predicate OfLength<T>(ss: seq<seq<T>>, n: nat) {
    forall k :: 0 <= k < |ss| ==> |ss[k]| == n
  }

  ghost function InsertedInAll<T>(ss: seq<seq<T>>, x: T, n: nat): seq<seq<T>>
    requires OfLength(ss, n)
  {
    if ss == [] then []
    else InsertedInAll(ss[..|ss|-1], x, n) + Inserted(ss[|ss|-1], x, n + 1)
  }

  function Factorial(n: nat): nat {
    if n == 0 then 1 else n * Factorial(n - 1)
  }

  ghost predicate Rearrangement<T>(p: seq<T>, l: seq<T>) {
    multiset(p) == multiset(l)
  }

  lemma {:induction false} InsertedCount<T>(ss: seq<seq<T>>, x: T, n: nat)
    requires OfLength(ss, n)
    ensures |InsertedInAll(ss, x, n)| == |ss| * (n + 1)
  {
    if ss != [] {
      InsertedCount(ss[..|ss|-1], x, n);
      assert |ss| * (n + 1) == (|ss| - 1) * (n + 1) + (n + 1);
    }
  }

  lemma {:induction false} InsertedMember<T>(ss: seq<seq<T>>, x: T, n: nat, p: seq<T>)
    requires OfLength(ss, n)
    ensures p in InsertedInAll(ss, x, n) <==> exists s, i :: s in ss && 0 <= i <= n == |s| && p == InsertAt(s, i, x)
  {
    if ss != [] {
      var front, last := ss[..|ss|-1], ss[|ss|-1];
      InsertedMember(front, x, n, p);
      assert ss == front + [last];
      if p in Inserted(last, x, n + 1) {
        var i :| 0 <= i < n + 1 && Inserted(last, x, n + 1)[i] == p;
        assert last in ss && p == InsertAt(last, i, x);
      }
      if s, i :| s in ss && 0 <= i <= n == |s| && p == InsertAt(s, i, x) {
        if s == last {
          assert Inserted(last, x, n + 1)[i] == p;
        } else {
          assert s in front;
        }
      }
    }
  }

  lemma InsertBag<T>(s: seq<T>, i: nat, x: T)
    requires i <= |s|
    ensures multiset(InsertAt(s, i, x)) == multiset(s) + multiset{x}
  {
    assert s == s[..i] + s[i..];
  }

  /** Where an item does not occur yet, the result of inserting it tells both the list and the position. */
  lemma InsertInjective<T>(s: seq<T>, i: nat, t: seq<T>, j: nat, x: T)
    requires i <= |s| && j <= |t| && x !in s && x !in t && InsertAt(s, i, x) == InsertAt(t, j, x)
    ensures i == j && s == t
  {
    var p, q := InsertAt(s, i, x), InsertAt(t, j, x);
    assert p[i] == x && q[j] == x;
    assert s == p[..i] + p[i+1..] && t == q[..j] + q[j+1..];
  }

  lemma {:induction false} InsertedDistinct<T>(ss: seq<seq<T>>, x: T, n: nat)
    requires OfLength(ss, n) && NoDup(ss) && forall s :: s in ss ==> x !in s
    ensures NoDup(InsertedInAll(ss, x, n))
  {
    if ss != [] {
      var front, last := ss[..|ss|-1], ss[|ss|-1];
      assert last in ss && last !in front && forall s :: s in front ==> s in ss;
      InsertedDistinct(front, x, n);
      var a, b := InsertedInAll(front, x, n), Inserted(last, x, n + 1);
      forall j, k | 0 <= j < k < |b| ensures b[j] != b[k] {
        if b[j] == b[k] { InsertInjective(last, j, last, k, x); }
      }
      forall p | p in a ensures p !in b {
        InsertedMember(front, x, n, p);
        if p in b {
          var s, i :| s in front && 0 <= i <= n == |s| && p == InsertAt(s, i, x);
          var j :| 0 <= j < |b| && b[j] == p;
          InsertInjective(s, i, last, j, x);
        }
      }
      NoDupConcat(a, b);
    }
  }

  /** What permutations promises: n! lists, each a rearrangement, all of them, and no repetition without
      repetition in the input. */
  ghost predicate AllPermutations<T(!new)>(l: seq<T>, perms: seq<seq<T>>) {
    && |perms| == Factorial(|l|)
    && (forall p :: p in perms <==> Rearrangement(p, l))
    && (NoDup(l) ==> NoDup(perms))
  }

  lemma SameSize<T>(p: seq<T>, l: seq<T>)
    requires multiset(p) == multiset(l)
    ensures |p| == |l|
  {
    assert |multiset(p)| == |p| && |multiset(l)| == |l|;
  }

  /** Any rearrangement is some rearrangement of the rest with the first item put in somewhere. */
  lemma TakeOut<T>(p: seq<T>, l: seq<T>) returns (s: seq<T>, i: nat)
    requires l != [] && Rearrangement(p, l)
    ensures Rearrangement(s, l[1..]) && i <= |s| && p == InsertAt(s, i, l[0])
  {
    assert l == [l[0]] + l[1..];
    assert l[0] in multiset(p);
    i :| 0 <= i < |p| && p[i] == l[0];
    s := p[..i] + p[i+1..];
    assert p == InsertAt(s, i, l[0]);
    InsertBag(s, i, l[0]);
    assert multiset(s) == multiset(p) - multiset{l[0]};
    assert multiset(l[1..]) == multiset(l) - multiset{l[0]};
  }

  lemma PermutationsStep<T(!new)>(l: seq<T>, subs: seq<seq<T>>)
    requires l != [] && AllPermutations(l[1..], subs) && OfLength(subs, |l| - 1)
    ensures AllPermutations(l, InsertedInAll(subs, l[0], |l| - 1))
  {
    InsertedCount(subs, l[0], |l| - 1);
    assert |subs| * |l| == Factorial(|l|);
    forall p ensures p in InsertedInAll(subs, l[0], |l| - 1) <==> Rearrangement(p, l) {
      StepMember(l, subs, p);
    }
    if NoDup(l) {
      StepDistinct(l, subs);
    }
  }

  lemma StepDistinct<T(!new)>(l: seq<T>, subs: seq<seq<T>>)
    requires l != [] && NoDup(l) && AllPermutations(l[1..], subs) && OfLength(subs, |l| - 1)
    ensures NoDup(InsertedInAll(subs, l[0], |l| - 1))
  {
    NoDupTail(l);
    forall s | s in subs ensures l[0] !in s {
      assert Rearrangement(s, l[1..]);
      assert l[0] !in multiset(l[1..]);
    }
    InsertedDistinct(subs, l[0], |l| - 1);
  }

  lemma NoDupTail<T>(l: seq<T>)
    requires l != [] && NoDup(l)
    ensures NoDup(l[1..]) && l[0] !in l[1..]
  {
  }

  lemma StepMember<T(!new)>(l: seq<T>, subs: seq<seq<T>>, p: seq<T>)
    requires l != [] && OfLength(subs, |l| - 1) && forall s :: s in subs <==> Rearrangement(s, l[1..])
    ensures p in InsertedInAll(subs, l[0], |l| - 1) <==> Rearrangement(p, l)
  {
    InsertedMember(subs, l[0], |l| - 1, p);
    if s, i :| s in subs && 0 <= i <= |l| - 1 == |s| && p == InsertAt(s, i, l[0]) {
      PutIn(s, i, l);
    }
    if Rearrangement(p, l) {
      var s, i := TakeOut(p, l);
      SameSize(s, l[1..]);
      assert s in subs && 0 <= i <= |l| - 1 == |s| && p == InsertAt(s, i, l[0]);
    }
  }

  lemma PutIn<T>(s: seq<T>, i: nat, l: seq<T>)
    requires l != [] && i <= |s| && Rearrangement(s, l[1..])
    ensures Rearrangement(InsertAt(s, i, l[0]), l)
  {
    InsertBag(s, i, l[0]);
    assert l == [l[0]] + l[1..];
  }

  lemma ShortList<T(!new)>(l: seq<T>)
    requires |l| <= 1
    ensures AllPermutations(l, [l])
  {
    assert Factorial(1) == 1;
    forall p ensures p in [l] <==> Rearrangement(p, l) {
      if Rearrangement(p, l) {
        SameSize(p, l);
        if |l| == 1 {
          assert p == [p[0]] && l == [l[0]];
          assert p[0] in multiset(l);
        }
      }
    }
  }

  method Permute<T(!new)>(inputList: seq<T>) returns (outLists: seq<seq<T>>)
    ensures AllPermutations(inputList, outLists)
    decreases |inputList|
  {
    if |inputList| > 1 {
      var item := inputList[0];
      ghost var n := |inputList| - 1;
      var subLists := Permute(inputList[1..]);
      forall k | 0 <= k < |subLists| ensures |subLists[k]| == n {
        assert subLists[k] in subLists;
        SameSize(subLists[k], inputList[1..]);
      }
      outLists := [];
      for k := 0 to |subLists|
        invariant outLists == InsertedInAll(subLists[..k], item, n)
      {
        var subList := subLists[k];
        ghost var before := outLists;
        for i := 0 to |inputList|
          invariant outLists == before + Inserted(subList, item, i)
        {
          outLists := outLists + [InsertAt(subList, i, item)];
        }
        assert subLists[..k+1][..k] == subLists[..k];
      }
      assert subLists[..|subLists|] == subLists;
      PermutationsStep(inputList, subLists);
    } else {
      ShortList(inputList);
      outLists := [inputList];
    }
  }
}
