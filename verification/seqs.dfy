/** Order facts about sequences: distinctness, subsequences, first-occurrence deduplication. */
module Seqs {

  /** No element occurs twice. */
  predicate Distinct<T(==)>(s: seq<T>) {
    forall i, j :: 0 <= i < j < |s| ==> s[i] != s[j]
  }

  /** `a` can be obtained from `b` by deleting elements, so it keeps `b`'s relative order.
      Matching greedily from the back is complete for this relation. */
  ghost predicate Subsequence<T>(a: seq<T>, b: seq<T>)
    decreases |b|
  {
    if |a| == 0 then true
    else if |b| == 0 then false
    else if a[|a| - 1] == b[|b| - 1] then Subsequence(a[..|a| - 1], b[..|b| - 1])
    else Subsequence(a, b[..|b| - 1])
  }

  /** The elements of `s` in order of their first occurrence, each once. */
  function Dedup<T(==)>(s: seq<T>): (r: seq<T>)
    ensures forall i :: 0 <= i < |s| ==> s[i] in r
    ensures forall i :: 0 <= i < |r| ==> r[i] in s
    ensures Distinct(r)
    ensures Subsequence(r, s)
  {
    if |s| == 0 then []
    else
      var p := s[..|s| - 1];
      var x := s[|s| - 1];
      var q := Dedup(p);
      assert s == p + [x];
      if x in p then
        assert Subsequence(q, s) by {
          SubsequenceExtend(q, p, x);
        }
        assert forall i :: 0 <= i < |s| ==> s[i] in q by {
          assert forall i :: 0 <= i < |p| ==> s[i] == p[i];
        }
        q
      else
        assert Subsequence(q + [x], s) by {
          SubsequenceSnoc(q, p, x);
        }
        assert forall i :: 0 <= i < |s| ==> s[i] in q + [x] by {
          assert forall i :: 0 <= i < |p| ==> s[i] == p[i];
        }
        assert Distinct(q + [x]) by {
          assert forall i :: 0 <= i < |q| ==> q[i] in p;
        }
        q + [x]
  }

  /** The position of the first occurrence of `x` in `s`. */
  function FirstIndex<T(==)>(s: seq<T>, x: T): (r: nat)
    requires x in s
    ensures r < |s| && s[r] == x
    ensures forall k :: 0 <= k < r ==> s[k] != x
  {
    if s[0] == x then 0 else 1 + FirstIndex(s[1..], x)
  }

  /** Appending an element moves no first occurrence, and a new element first occurs at
      the end. */
  lemma FirstIndexSnoc<T>(p: seq<T>, x: T)
    ensures forall y :: y in p ==> FirstIndex(p + [x], y) == FirstIndex(p, y)
    ensures x !in p ==> FirstIndex(p + [x], x) == |p|
  {
    forall y | y in p
      ensures FirstIndex(p + [x], y) == FirstIndex(p, y)
    {
      var b := FirstIndex(p, y);
      assert (p + [x])[b] == y;
    }
    if x !in p {
      assert (p + [x])[|p|] == x;
    }
  }

  /** Deduplication lists the elements in the order in which they first occur. */
  lemma {:induction false} DedupFirstOrder<T>(s: seq<T>)
    ensures forall i, j :: 0 <= i < j < |Dedup(s)| ==> FirstIndex(s, Dedup(s)[i]) < FirstIndex(s, Dedup(s)[j])
  {
    if |s| > 0 {
      var p := s[..|s| - 1];
      var x := s[|s| - 1];
      var q := Dedup(p);
      assert s == p + [x];
      DedupFirstOrder(p);
      FirstIndexSnoc(p, x);
      var r := Dedup(s);
      assert r == if x in p then q else q + [x];
      forall i, j | 0 <= i < j < |r|
        ensures FirstIndex(s, r[i]) < FirstIndex(s, r[j])
      {
        assert r[i] == q[i] && q[i] in p;
        if j < |q| {
          assert r[j] == q[j] && q[j] in p;
        } else {
          assert r[j] == x && x !in p;
        }
      }
    }
  }

  /** `[x for x in s if keep(x)]`: the elements of `s` that pass the test, in order. */
  function Filter<T(==)>(s: seq<T>, keep: T -> bool): (r: seq<T>)
    ensures forall i :: 0 <= i < |s| && keep(s[i]) ==> s[i] in r
    ensures forall i :: 0 <= i < |r| ==> r[i] in s && keep(r[i])
    ensures Subsequence(r, s)
  {
    if |s| == 0 then []
    else
      var p := s[..|s| - 1];
      var x := s[|s| - 1];
      var q := Filter(p, keep);
      assert s == p + [x];
      FilterStep(p, x, q, keep);
      if keep(x) then q + [x] else q
  }

  /** One step of the filter: what holds of `q` for the prefix `p` holds of its extension
      for `p + [x]`. */
  lemma FilterStep<T>(p: seq<T>, x: T, q: seq<T>, keep: T -> bool)
    requires forall i :: 0 <= i < |p| && keep(p[i]) ==> p[i] in q
    requires forall i :: 0 <= i < |q| ==> q[i] in p && keep(q[i])
    requires Subsequence(q, p)
    ensures var r := if keep(x) then q + [x] else q;
      && (forall i :: 0 <= i < |p + [x]| && keep((p + [x])[i]) ==> (p + [x])[i] in r)
      && (forall i :: 0 <= i < |r| ==> r[i] in p + [x] && keep(r[i]))
      && Subsequence(r, p + [x])
  {
    assert forall i :: 0 <= i < |p| ==> (p + [x])[i] == p[i];
    if keep(x) {
      SubsequenceSnoc(q, p, x);
    } else {
      SubsequenceExtend(q, p, x);
    }
  }

  /** Deduplicating keeps exactly the elements of the sequence. */
  lemma DedupMembers<T>(s: seq<T>)
    ensures forall x :: x in Dedup(s) <==> x in s
  {
    forall x
      ensures x in Dedup(s) <==> x in s
    {
      if x in s {
        var i :| 0 <= i < |s| && s[i] == x;
      }
      if x in Dedup(s) {
        var i :| 0 <= i < |Dedup(s)| && Dedup(s)[i] == x;
      }
    }
  }

  /** Elements of a subsequence are elements of the whole. */
  lemma {:induction false} SubsequenceMembers<T>(a: seq<T>, b: seq<T>)
    requires Subsequence(a, b)
    ensures forall i :: 0 <= i < |a| ==> a[i] in b
    decreases |b|
  {
    if |a| == 0 {
    } else if a[|a| - 1] == b[|b| - 1] {
      SubsequenceMembers(a[..|a| - 1], b[..|b| - 1]);
      assert a == a[..|a| - 1] + [a[|a| - 1]];
      assert b == b[..|b| - 1] + [b[|b| - 1]];
    } else {
      SubsequenceMembers(a, b[..|b| - 1]);
      assert b == b[..|b| - 1] + [b[|b| - 1]];
    }
  }

  /** Dropping the last element of a subsequence keeps it a subsequence. */
  lemma {:induction false} SubsequenceDropLast<T>(a: seq<T>, b: seq<T>)
    requires |a| > 0 && Subsequence(a, b)
    ensures Subsequence(a[..|a| - 1], b)
    decreases |b|
  {
    var a' := a[..|a| - 1];
    if |a'| == 0 {
    } else if a[|a| - 1] == b[|b| - 1] {
      if a'[|a'| - 1] == b[|b| - 1] {
        SubsequenceDropLast(a', b[..|b| - 1]);
        assert a'[..|a'| - 1] == a[..|a| - 2];
        SubsequenceDropLast(a[..|a| - 1], b[..|b| - 1]);
      } else {
      }
    } else {
      SubsequenceDropLast(a, b[..|b| - 1]);
      if a'[|a'| - 1] == b[|b| - 1] {
        SubsequenceDropLast(a', b[..|b| - 1]);
      }
    }
  }

  /** Appending to the larger sequence keeps the relation. */
  lemma SubsequenceExtend<T>(a: seq<T>, b: seq<T>, x: T)
    requires Subsequence(a, b)
    ensures Subsequence(a, b + [x])
  {
    assert (b + [x])[..|b|] == b;
    if |a| > 0 && a[|a| - 1] == x {
      SubsequenceDropLast(a, b);
    }
  }

  /** Appending the same element to both keeps the relation. */
  lemma SubsequenceSnoc<T>(a: seq<T>, b: seq<T>, x: T)
    requires Subsequence(a, b)
    ensures Subsequence(a + [x], b + [x])
  {
    assert (a + [x])[..|a|] == a;
    assert (b + [x])[..|b|] == b;
  }

  /** Deduplicating a sequence without repetitions changes nothing. */
  lemma {:induction false} DedupDistinct<T>(s: seq<T>)
    requires Distinct(s)
    ensures Dedup(s) == s
  {
    if |s| > 0 {
      var p := s[..|s| - 1];
      assert Distinct(p);
      DedupDistinct(p);
      assert s[|s| - 1] !in p;
      assert s == p + [s[|s| - 1]];
    }
  }
}
