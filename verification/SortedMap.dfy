/** std::map: pairs in the order of their keys, with the comparison of the key type. */
module SortedMap {
  import opened Wrappers

  datatype Pair<+K, +V> = Pair(key: K, value: V)

  predicate Sorted<K, V>(less: (K, K) -> bool, es: seq<Pair<K, V>>) {
    forall i, j :: 0 <= i < j < |es| ==> less(es[i].key, es[j].key)
  }

  predicate Within<K, V>(dom: K -> bool, es: seq<Pair<K, V>>) {
    forall i :: 0 <= i < |es| ==> dom(es[i].key)
  }

  /** `less` is a strict total order on the keys in `dom`. */
  ghost predicate Orders<K(!new)>(less: (K, K) -> bool, dom: K -> bool) {
    && (forall x, y :: dom(x) && dom(y) ==> less(x, y) || x == y || less(y, x))
    && (forall x, y :: dom(x) && dom(y) && less(x, y) ==> x != y && !less(y, x))
    && (forall x, y, z :: dom(x) && dom(y) && dom(z) && less(x, y) && less(y, z) ==> less(x, z))
  }

  /** find */
  function Lookup<K(==), V>(es: seq<Pair<K, V>>, k: K): Option<V> {
    if es == [] then None else if es[0].key == k then Some(es[0].value) else Lookup(es[1..], k)
  }

  /** insert: an existing key keeps its value. */
  function Insert<K(==), V>(less: (K, K) -> bool, es: seq<Pair<K, V>>, k: K, v: V): seq<Pair<K, V>> {
    if es == [] then [Pair(k, v)]
    else if es[0].key == k then es
    else if less(k, es[0].key) then [Pair(k, v)] + es
    else [es[0]] + Insert(less, es[1..], k, v)
  }

  /** Inserting one pair after the other. */
  function InsertAll<K(==), V>(less: (K, K) -> bool, es: seq<Pair<K, V>>, ps: seq<Pair<K, V>>): seq<Pair<K, V>>
    decreases |ps|
  {
    if ps == [] then es else InsertAll(less, Insert(less, es, ps[0].key, ps[0].value), ps[1..])
  }

  lemma {:induction false} LookupAbsent<K, V>(es: seq<Pair<K, V>>, k: K)
    ensures Lookup(es, k) == None <==> forall i :: 0 <= i < |es| ==> es[i].key != k
  {
    if es != [] {
      LookupAbsent(es[1..], k);
      assert forall i :: 1 <= i < |es| ==> es[i] == es[1..][i - 1];
    }
  }

  lemma {:induction false} InsertMembers<K, V>(less: (K, K) -> bool, es: seq<Pair<K, V>>, k: K, v: V)
    ensures forall e :: e in Insert(less, es, k, v) ==> e in es || e == Pair(k, v)
  {
    if es != [] { InsertMembers(less, es[1..], k, v); }
  }

  /** A key below the first one is below all, and not in the map. */
  lemma BelowFirst<K(!new), V>(less: (K, K) -> bool, dom: K -> bool, es: seq<Pair<K, V>>, k: K)
    requires Orders(less, dom) && Sorted(less, es) && Within(dom, es) && dom(k)
    requires es != [] && less(k, es[0].key)
    ensures forall j :: 0 <= j < |es| ==> less(k, es[j].key) && es[j].key != k
    ensures Lookup(es, k) == None
  {
    forall j | 0 <= j < |es| ensures less(k, es[j].key) && es[j].key != k {
      assert j > 0 ==> less(es[0].key, es[j].key);
    }
    LookupAbsent(es, k);
  }

  lemma {:induction false} InsertSorted<K(!new), V>(
    less: (K, K) -> bool, dom: K -> bool, es: seq<Pair<K, V>>, k: K, v: V)
    requires Orders(less, dom) && Sorted(less, es) && Within(dom, es) && dom(k)
    ensures Sorted(less, Insert(less, es, k, v)) && Within(dom, Insert(less, es, k, v))
  {
    if es != [] && es[0].key != k {
      if less(k, es[0].key) {
        BelowFirst(less, dom, es, k);
      } else {
        var tail := Insert(less, es[1..], k, v);
        InsertSorted(less, dom, es[1..], k, v);
        InsertMembers(less, es[1..], k, v);
        forall j | 0 <= j < |tail| ensures less(es[0].key, tail[j].key) {
          assert tail[j] in es[1..] || tail[j] == Pair(k, v);
        }
      }
    }
  }

  /** insert adds the key if it is new, and otherwise changes nothing. */
  lemma {:induction false} InsertLookup<K(!new), V>(
    less: (K, K) -> bool, dom: K -> bool, es: seq<Pair<K, V>>, k: K, v: V, q: K)
    requires Orders(less, dom) && Sorted(less, es) && Within(dom, es) && dom(k)
    ensures Lookup(Insert(less, es, k, v), q) ==
      if q == k && Lookup(es, k) == None then Some(v) else Lookup(es, q)
    ensures Lookup(es, k).Some? ==> Insert(less, es, k, v) == es
  {
    if es == [] {
      assert [Pair(k, v)][1..] == [];
    } else if es[0].key != k {
      if less(k, es[0].key) {
        BelowFirst(less, dom, es, k);
        assert ([Pair(k, v)] + es)[1..] == es;
      } else {
        InsertLookup(less, dom, es[1..], k, v, q);
        assert ([es[0]] + Insert(less, es[1..], k, v))[1..] == Insert(less, es[1..], k, v);
      }
    }
  }

  lemma {:induction false} InsertAboveAll<K(!new), V>(
    less: (K, K) -> bool, dom: K -> bool, es: seq<Pair<K, V>>, k: K, v: V)
    requires Orders(less, dom) && Within(dom, es) && dom(k)
    requires forall i :: 0 <= i < |es| ==> less(es[i].key, k)
    ensures Insert(less, es, k, v) == es + [Pair(k, v)]
  {
    if es != [] {
      assert less(es[0].key, k);
      InsertAboveAll(less, dom, es[1..], k, v);
    }
  }

  // ---------- inserting many ----------

  /** After inserting them all, a key has the value it had before, or else that of the
      first pair with this key. */
  lemma {:induction false} InsertAllLookup<K(!new), V>(
    less: (K, K) -> bool, dom: K -> bool, es: seq<Pair<K, V>>, ps: seq<Pair<K, V>>, q: K)
    requires Orders(less, dom) && Sorted(less, es) && Within(dom, es) && Within(dom, ps)
    ensures var r := InsertAll(less, es, ps);
      && Sorted(less, r) && Within(dom, r)
      && Lookup(r, q) == if Lookup(es, q).Some? then Lookup(es, q) else Lookup(ps, q)
    decreases |ps|
  {
    hide Orders, Sorted, Insert;
    if ps != [] {
      InsertSorted(less, dom, es, ps[0].key, ps[0].value);
      InsertLookup(less, dom, es, ps[0].key, ps[0].value, q);
      InsertAllLookup(less, dom, Insert(less, es, ps[0].key, ps[0].value), ps[1..], q);
    }
  }

  /** The pair at position `i` is the first one with its key. */
  predicate Arrives<K(==), V>(ps: seq<Pair<K, V>>, i: nat)
    requires i < |ps|
  {
    forall j :: 0 <= j < i ==> ps[j].key != ps[i].key
  }

  lemma {:induction false} LookupArrives<K, V>(ps: seq<Pair<K, V>>, i: nat)
    requires i < |ps| && Arrives(ps, i)
    ensures Lookup(ps, ps[i].key) == Some(ps[i].value)
  {
    if i > 0 {
      assert ps[0].key != ps[i].key;
      assert forall j :: 0 <= j < i - 1 ==> ps[1..][j].key == ps[j + 1].key;
      LookupArrives(ps[1..], i - 1);
    }
  }

  /** Pairs in ascending order are appended as they are. */
  lemma {:induction false} InsertAscending<K(!new), V>(
    less: (K, K) -> bool, dom: K -> bool, es: seq<Pair<K, V>>, ps: seq<Pair<K, V>>)
    requires Orders(less, dom) && Within(dom, es) && Within(dom, ps) && Sorted(less, es + ps)
    ensures InsertAll(less, es, ps) == es + ps
    decreases |ps|
  {
    hide Orders, Insert;
    if ps == [] {
      assert es + ps == es;
    } else {
      assert forall i :: 0 <= i < |es| ==> (es + ps)[i] == es[i];
      assert (es + ps)[|es|] == ps[0];
      InsertAboveAll(less, dom, es, ps[0].key, ps[0].value);
      assert es + ps == (es + [ps[0]]) + ps[1..];
      assert Pair(ps[0].key, ps[0].value) == ps[0];
      InsertAscending(less, dom, es + [ps[0]], ps[1..]);
    }
  }

  predicate SameKeys<K(==), V>(ps: seq<Pair<K, V>>, qs: seq<Pair<K, V>>) {
    |ps| == |qs| && forall i :: 0 <= i < |ps| ==> ps[i].key == qs[i].key
  }

  /** Two lists with the same keys make the same map exactly if they agree on the pairs
      that arrive. */
  lemma InsertAllEqual<K(!new), V>(
    less: (K, K) -> bool, dom: K -> bool, ps: seq<Pair<K, V>>, qs: seq<Pair<K, V>>)
    requires Orders(less, dom) && Within(dom, ps) && SameKeys(ps, qs)
    ensures InsertAll(less, [], ps) == InsertAll(less, [], qs) <==>
      forall i :: 0 <= i < |ps| && Arrives(ps, i) ==> ps[i] == qs[i]
  {
    hide Orders, InsertAll, Lookup;
    LookupAbsentEmpty<K, V>();
    if InsertAll(less, [], ps) == InsertAll(less, [], qs) {
      forall i | 0 <= i < |ps| && Arrives(ps, i) ensures ps[i] == qs[i] {
        InsertAllLookup(less, dom, [], ps, ps[i].key);
        InsertAllLookup(less, dom, [], qs, ps[i].key);
        LookupArrives(ps, i);
        assert Arrives(qs, i);
        LookupArrives(qs, i);
      }
    }
    if forall i :: 0 <= i < |ps| && Arrives(ps, i) ==> ps[i] == qs[i] {
      AgreeingPairs(less, dom, [], ps, qs);
    }
  }

  lemma LookupAbsentEmpty<K, V>()
    ensures forall q: K :: Lookup<K, V>([], q) == None
  {
  }

  /** The pair at position `i` has a key that is neither in the map nor before it. */
  predicate New<K(==), V>(es: seq<Pair<K, V>>, ps: seq<Pair<K, V>>, i: nat)
    requires i < |ps|
  {
    Arrives(ps, i) && Lookup(es, ps[i].key) == None
  }

  lemma {:induction false} AgreeingPairs<K(!new), V>(
    less: (K, K) -> bool, dom: K -> bool, es: seq<Pair<K, V>>, ps: seq<Pair<K, V>>, qs: seq<Pair<K, V>>)
    requires Orders(less, dom) && Sorted(less, es) && Within(dom, es) && Within(dom, ps) && SameKeys(ps, qs)
    requires forall i :: 0 <= i < |ps| && New(es, ps, i) ==> ps[i] == qs[i]
    ensures InsertAll(less, es, ps) == InsertAll(less, es, qs)
    decreases |ps|
  {
    hide Orders, Insert, Sorted, Lookup;
    if ps != [] {
      var k := ps[0].key;
      assert New(es, ps, 0) <==> Lookup(es, k) == None;
      InsertLookup(less, dom, es, k, ps[0].value, k);
      InsertLookup(less, dom, es, k, qs[0].value, k);
      var es' := Insert(less, es, k, ps[0].value);
      InsertSorted(less, dom, es, k, ps[0].value);
      forall i | 0 <= i < |ps[1..]| && New(es', ps[1..], i) ensures ps[1..][i] == qs[1..][i] {
        InsertLookup(less, dom, es, k, ps[0].value, ps[i + 1].key);
        assert forall j :: 1 <= j < i + 1 ==> ps[j] == ps[1..][j - 1];
        assert New(es, ps, i + 1);
      }
      AgreeingPairs(less, dom, es', ps[1..], qs[1..]);
    }
  }
}
