/** Python dictionaries: a finite map together with the insertion order of its keys,
    which is the order in which a Python dict iterates. */
module Dicts {
  import opened Seqs

  /** `entries` holds the key/value pairs; `order` lists each key once, oldest first. */
  datatype Dict<K, V> = Dict(order: seq<K>, entries: map<K, V>)

  /** The representation invariant every Python dict satisfies. */
  ghost predicate Valid<K, V>(d: Dict<K, V>) {
    && Distinct(d.order)
    && (forall i :: 0 <= i < |d.order| ==> d.order[i] in d.entries)
    && (forall k :: k in d.entries ==> k in d.order)
  }

  /** `{}` */
  function Empty<K, V>(): (r: Dict<K, V>)
    ensures Valid(r)
  {
    Dict([], map[])
  }

  /** `d[k] = v`: a new key goes to the end of the order, an existing key keeps its
      place and only its value changes. */
  function Put<K, V>(d: Dict<K, V>, k: K, v: V): (r: Dict<K, V>)
    requires Valid(d)
    ensures Valid(r)
  {
    if k in d.entries then Dict(d.order, d.entries[k := v])
    else Dict(d.order + [k], d.entries[k := v])
  }

  /** Python `==` on dicts: the same key/value pairs, whatever the insertion order. */
  predicate SameItems<K, V(==)>(a: Dict<K, V>, b: Dict<K, V>) {
    a.entries == b.entries
  }

  /** The first components of a sequence of pairs. */
  function Firsts<K, V>(ps: seq<(K, V)>): (r: seq<K>)
    ensures |r| == |ps|
    ensures forall i :: 0 <= i < |ps| ==> r[i] == ps[i].0
  {
    if |ps| == 0 then [] else Firsts(ps[..|ps| - 1]) + [ps[|ps| - 1].0]
  }

  /** Pair `i` is the last pair in `ps` with its key. */
  ghost predicate LastWrite<K, V>(ps: seq<(K, V)>, i: int)
    requires 0 <= i < |ps|
  {
    forall j :: i < j < |ps| ==> ps[j].0 != ps[i].0
  }

  /** A dict built by assigning the pairs of `ps` one after the other, as a dict
      comprehension or `dict(zip(...))` does. Its keys are the keys of `ps` in order of
      first occurrence, and each key holds the value of the last pair that has it. */
  function FromPairs<K, V>(ps: seq<(K, V)>): (r: Dict<K, V>)
    ensures Valid(r)
    ensures forall i :: 0 <= i < |ps| ==> ps[i].0 in r.entries
  {
    if |ps| == 0 then Empty()
    else
      var p := ps[..|ps| - 1];
      var last := ps[|ps| - 1];
      var d := FromPairs(p);
      Put(d, last.0, last.1)
  }

  /** The keys of a dict built from pairs iterate in order of first occurrence. */
  lemma {:induction false} FromPairsOrder<K, V>(ps: seq<(K, V)>)
    ensures FromPairs(ps).order == Dedup(Firsts(ps))
  {
    if |ps| > 0 {
      var p := ps[..|ps| - 1];
      var last := ps[|ps| - 1];
      var d := FromPairs(p);
      FromPairsOrder(p);
      assert Firsts(ps) == Firsts(p) + [last.0];
      assert Firsts(ps)[..|ps| - 1] == Firsts(p);
      assert last.0 in d.entries <==> last.0 in Firsts(p);
    }
  }

  /** Assigning one more pair updates the dict built so far. */
  lemma FromPairsSnoc<K, V>(ps: seq<(K, V)>)
    requires |ps| > 0
    ensures FromPairs(ps).entries == FromPairs(ps[..|ps| - 1]).entries[ps[|ps| - 1].0 := ps[|ps| - 1].1]
  {
    var d := FromPairs(ps[..|ps| - 1]);
    var last := ps[|ps| - 1];
    assert FromPairs(ps) == Put(d, last.0, last.1);
  }

  /** Last write wins: when a key is assigned several times, the dict keeps the value of
      the last assignment. */
  lemma {:induction false} FromPairsLastWins<K, V>(ps: seq<(K, V)>, i: int)
    requires 0 <= i < |ps| && LastWrite(ps, i)
    ensures FromPairs(ps).entries[ps[i].0] == ps[i].1
  {
    var p := ps[..|ps| - 1];
    var last := ps[|ps| - 1];
    var m := FromPairs(p).entries;
    FromPairsSnoc(ps);
    if i < |p| {
      LastWriteDropLast(ps, i);
      FromPairsLastWins(p, i);
    }
  }

  /** A last write before the final pair stays a last write once that pair is dropped,
      and its key differs from the final pair's. */
  lemma LastWriteDropLast<K, V>(ps: seq<(K, V)>, i: int)
    requires 0 <= i < |ps| - 1 && LastWrite(ps, i)
    ensures ps[..|ps| - 1][i] == ps[i] && ps[i].0 != ps[|ps| - 1].0
    ensures LastWrite(ps[..|ps| - 1], i)
  {
    var p := ps[..|ps| - 1];
    forall j | i < j < |p|
      ensures p[j].0 != p[i].0
    {
      assert p[j] == ps[j];
    }
  }

  /** Every key of a dict built from pairs comes from some pair, and holds that pair's
      value. */
  lemma {:induction false} FromPairsSource<K, V>(ps: seq<(K, V)>, k: K)
    requires k in FromPairs(ps).entries
    ensures exists i :: 0 <= i < |ps| && ps[i].0 == k && FromPairs(ps).entries[k] == ps[i].1
  {
    var p := ps[..|ps| - 1];
    var last := ps[|ps| - 1];
    var m := FromPairs(p).entries;
    FromPairsSnoc(ps);
    if last.0 != k {
      FromPairsSource(p, k);
      var i :| 0 <= i < |p| && p[i].0 == k && m[k] == p[i].1;
      assert ps[i] == p[i];
    }
  }

  /** `d.items()`: the pairs of `d` in insertion order. */
  function Items<K, V>(d: Dict<K, V>): (r: seq<(K, V)>)
    requires Valid(d)
    ensures |r| == |d.order|
    ensures forall i :: 0 <= i < |r| ==> r[i] == (d.order[i], d.entries[d.order[i]])
  {
    seq(|d.order|, i requires 0 <= i < |d.order| && Valid(d) => (d.order[i], d.entries[d.order[i]]))
  }

  /** Rebuilding a dict from its own items keeps each key's value. */
  lemma FromItemsValue<K, V>(d: Dict<K, V>, i: int)
    requires Valid(d) && 0 <= i < |d.order|
    ensures FromPairs(Items(d)).entries[d.order[i]] == d.entries[d.order[i]]
  {
    var ps := Items(d);
    assert ps[i] == (d.order[i], d.entries[d.order[i]]);
    assert LastWrite(ps, i) by {
      forall j | i < j < |ps|
        ensures ps[j].0 != ps[i].0
      {
        assert ps[j].0 == d.order[j];
      }
    }
    FromPairsLastWins(ps, i);
  }

  /** Rebuilding a dict from its own items gives the same dict back: `dict(d.items()) == d`. */
  lemma FromItems<K, V>(d: Dict<K, V>)
    requires Valid(d)
    ensures FromPairs(Items(d)) == d
  {
    var ps := Items(d);
    var r := FromPairs(ps);
    assert r.order == d.order by {
      assert Firsts(ps) == d.order;
      FromPairsOrder(ps);
      DedupDistinct(d.order);
    }
    assert r.entries == d.entries by {
      forall k | k in d.entries
        ensures k in r.entries && r.entries[k] == d.entries[k]
      {
        var i :| 0 <= i < |d.order| && d.order[i] == k;
        FromItemsValue(d, i);
      }
      assert r.entries.Keys == d.entries.Keys;
    }
  }
}
