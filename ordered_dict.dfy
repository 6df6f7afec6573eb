/**
  An insertion-ordered dictionary, as Python's `collections.OrderedDict` (and
  every `dict` since Python 3.7) behaves, represented by the sequence of its
  entries in insertion order.

  `FromPairs(ps)` is the constructor call `OrderedDict(ps)` on a list of pairs:
  the pairs are stored one after the other; storing a key that is already
  present overwrites its value where it stands, a new key goes to the end.
  So on repeated keys the entry keeps the position of the FIRST pair with that
  key and holds the value of the LAST one.
 */
module OrderedDict {
  import opened Wrappers

  /** Position of the first entry whose key is `k`, or `|d|` when there is none. */
  function Find<V>(d: seq<(string, V)>, k: string): (r: nat)
    ensures r <= |d|
    ensures r < |d| ==> d[r].0 == k
    ensures forall i :: 0 <= i < r ==> d[i].0 != k
  {
    if d == [] then 0
    else if d[0].0 == k then 0
    else 1 + Find(d[1..], k)
  }

  /** Position of the last entry whose key is `k`, or -1 when there is none. */
  function FindLast<V>(d: seq<(string, V)>, k: string): (r: int)
    ensures -1 <= r < |d|
    ensures 0 <= r ==> d[r].0 == k
    ensures forall i :: r < i < |d| ==> d[i].0 != k
  {
    if d == [] then -1
    else if d[|d| - 1].0 == k then |d| - 1
    else FindLast(d[..|d| - 1], k)
  }

  /** Python's `k in d`. */
  predicate ContainsKey<V>(d: seq<(string, V)>, k: string) {
    Find(d, k) < |d|
  }

  /** Every key occurs at most once: what makes a sequence of entries a dictionary. */
  predicate DistinctKeys<V>(d: seq<(string, V)>) {
    forall i, j :: 0 <= i < j < |d| ==> d[i].0 != d[j].0
  }

  /** Python's `d.get(k)`. */
  function Get<V>(d: seq<(string, V)>, k: string): Option<V> {
    var p := Find(d, k);
    if p < |d| then Some(d[p].1) else None
  }

  /** Python's `d[k] = v`: overwrite in place when `k` is present, append otherwise. */
  function Insert<V>(d: seq<(string, V)>, k: string, v: V): seq<(string, V)> {
    var p := Find(d, k);
    if p < |d| then d[p := (k, v)] else d + [(k, v)]
  }

  /** `OrderedDict(ps)`: insert the pairs of `ps` in order into an empty dictionary. */
  function FromPairs<V>(ps: seq<(string, V)>): (r: seq<(string, V)>)
    ensures DistinctKeys(r)
    ensures forall k :: ContainsKey(r, k) <==> ContainsKey(ps, k)
  {
    if ps == [] then []
    else
      var init, last := ps[..|ps| - 1], ps[|ps| - 1];
      InsertKeys(FromPairs(init), last.0, last.1);
      FindAppend(init, last, last.0);
      forall k ensures ContainsKey(ps, k) <==> ContainsKey(init, k) || k == last.0 {
        FindAppend(init, last, k);
      }
      Insert(FromPairs(init), last.0, last.1)
  }

  /** `Find` is the only position satisfying its contract. */
  lemma FindUnique<V>(d: seq<(string, V)>, k: string, p: nat)
    requires p <= |d|
    requires p < |d| ==> d[p].0 == k
    requires forall i :: 0 <= i < p ==> d[i].0 != k
    ensures Find(d, k) == p
  {
  }

  /** Appending one entry leaves the first positions of the keys already present unchanged. */
  lemma FindAppend<V>(d: seq<(string, V)>, e: (string, V), k: string)
    ensures Find(d + [e], k) == if Find(d, k) < |d| then Find(d, k)
                                 else if e.0 == k then |d| else |d| + 1
  {
    var p := Find(d, k);
    var d' := d + [e];
    if p < |d| {
      FindUnique(d', k, p);
    } else if e.0 == k {
      FindUnique(d', k, |d|);
    } else {
      FindUnique(d', k, |d| + 1);
    }
  }

  /** Two entry sequences with the same keys in the same order have the same `Find`. */
  lemma FindSameKeys<V>(d: seq<(string, V)>, e: seq<(string, V)>, k: string)
    requires |d| == |e|
    requires forall i :: 0 <= i < |d| ==> d[i].0 == e[i].0
    ensures Find(d, k) == Find(e, k)
  {
  }

  /** The keys `Insert` leaves behind: those of `d` plus `k`, each once. */
  lemma InsertKeys<V>(d: seq<(string, V)>, k: string, v: V)
    requires DistinctKeys(d)
    ensures DistinctKeys(Insert(d, k, v))
    ensures forall k' :: ContainsKey(Insert(d, k, v), k') <==> ContainsKey(d, k') || k' == k
  {
    var p := Find(d, k);
    var r := Insert(d, k, v);
    if p < |d| {
      forall k' ensures Find(r, k') == Find(d, k') {
        FindSameKeys(r, d, k');
      }
    } else {
      forall k' ensures ContainsKey(r, k') <==> ContainsKey(d, k') || k' == k {
        FindAppend(d, (k, v), k');
      }
    }
  }

  /** Each entry of `OrderedDict(ps)` is the LAST pair of `ps` with that key (last writer wins). */
  lemma {:induction false} FromPairsLastWins<V>(ps: seq<(string, V)>)
    ensures forall j :: 0 <= j < |FromPairs(ps)| ==>
      0 <= FindLast(ps, FromPairs(ps)[j].0) && FromPairs(ps)[j] == ps[FindLast(ps, FromPairs(ps)[j].0)]
  {
    if ps != [] {
      var init, last := ps[..|ps| - 1], ps[|ps| - 1];
      FromPairsLastWins(init);
      assert ps == init + [last];
      var d := FromPairs(init);
      var r := FromPairs(ps);
      var p := Find(d, last.0);
      forall j | 0 <= j < |r| ensures 0 <= FindLast(ps, r[j].0) && r[j] == ps[FindLast(ps, r[j].0)] {
        if r[j].0 == last.0 {
          assert FindLast(ps, last.0) == |ps| - 1;
          if p < |d| {
            assert r == d[p := last];
          } else {
            assert r == d + [last];
          }
        } else {
          assert j < |d| && r[j] == d[j] by {
            if p < |d| {
              assert r == d[p := last];
            } else {
              assert r == d + [last];
            }
          }
          assert FindLast(ps, r[j].0) == FindLast(init, r[j].0);
        }
      }
    }
  }

  /**
    The keys of `OrderedDict(ps)` come in the order of their FIRST occurrence in `ps`:
    a repeated key does not move the entry it updates.
   */
  lemma {:induction false} FromPairsFirstOrder<V>(ps: seq<(string, V)>)
    ensures forall j1, j2 :: 0 <= j1 < j2 < |FromPairs(ps)| ==>
      Find(ps, FromPairs(ps)[j1].0) < Find(ps, FromPairs(ps)[j2].0)
  {
    if ps != [] {
      var init, last := ps[..|ps| - 1], ps[|ps| - 1];
      FromPairsFirstOrder(init);
      var d := FromPairs(init);
      var r := FromPairs(ps);
      assert ps == init + [last];
      forall j | 0 <= j < |d| ensures Find(ps, d[j].0) == Find(init, d[j].0) < |init| {
        assert ContainsKey(d, d[j].0);
        FindAppend(init, last, d[j].0);
      }
      if Find(d, last.0) < |d| {
        assert r == d[Find(d, last.0) := last];
        forall j1, j2 | 0 <= j1 < j2 < |r| ensures Find(ps, r[j1].0) < Find(ps, r[j2].0) {
          assert r[j1].0 == d[j1].0 && r[j2].0 == d[j2].0;
        }
      } else {
        assert r == d + [last];
        assert !ContainsKey(init, last.0);
        FindAppend(init, last, last.0);
        forall j1, j2 | 0 <= j1 < j2 < |r| ensures Find(ps, r[j1].0) < Find(ps, r[j2].0) {
          assert r[j1] == d[j1];
          if j2 == |d| {
            assert Find(ps, r[j2].0) == |init|;
          } else {
            assert r[j2] == d[j2];
          }
        }
      }
    }
  }

  /** A list of pairs whose keys are already distinct becomes a dictionary unchanged. */
  lemma {:induction false} FromPairsOfDistinct<V>(ps: seq<(string, V)>)
    requires DistinctKeys(ps)
    ensures FromPairs(ps) == ps
  {
    if ps != [] {
      var init, last := ps[..|ps| - 1], ps[|ps| - 1];
      FromPairsOfDistinct(init);
      FindUnique(init, last.0, |init|);
      assert ps == init + [last];
    }
  }

  /** Looking a key up in `OrderedDict(ps)` gives the value of the last pair with that key. */
  lemma FromPairsGet<V>(ps: seq<(string, V)>, k: string)
    ensures Get(FromPairs(ps), k) == if 0 <= FindLast(ps, k) then Some(ps[FindLast(ps, k)].1) else None
  {
    var r := FromPairs(ps);
    FromPairsLastWins(ps);
    var i := FindLast(ps, k);
    if 0 <= i {
      assert ContainsKey(ps, k);
    }
  }
}
