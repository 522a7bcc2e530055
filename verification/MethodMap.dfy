/** MethodHandler::m_methodMap, the sorted map from "path~method" to functions that all
    D-Bus objects of a process share, and the scan with which a DBusObjectHelper takes
    its own entries out. */
module MethodMap {
  import opened Wrappers
  import opened Strings
  import opened Sequences
  import opened SortedMap
  import Wire

  const SEPARATOR := '~'

  function MakePrefix(path: string): string {
    path + [SEPARATOR]
  }

  function MakeMethodKey(path: string, method_: string): string {
    MakePrefix(path) + method_
  }

  /** The part of a key before the first separator. */
  function PathOf(key: string): (path: string)
    ensures SEPARATOR !in path
  {
    if key == "" || key[0] == SEPARATOR then "" else [key[0]] + PathOf(key[1..])
  }

  predicate HasPrefix(key: string, prefix: string) {
    |prefix| <= |key| && key[..|prefix|] == prefix
  }

  // ---------- keys ----------

  lemma {:induction false} PathOfKey(path: string, method_: string)
    requires SEPARATOR !in path
    ensures PathOf(MakeMethodKey(path, method_)) == path
  {
    if path == "" {
    } else {
      assert MakeMethodKey(path, method_)[1..] == MakeMethodKey(path[1..], method_);
      PathOfKey(path[1..], method_);
    }
  }

  /** No valid object path contains the separator, so path and method can be recovered. */
  lemma KeyInjective(p: string, m: string, q: string, n: string)
    requires Wire.IsObjectPath(p) && Wire.IsObjectPath(q)
    ensures MakeMethodKey(p, m) == MakeMethodKey(q, n) <==> p == q && m == n
  {
    NoSeparator(p);
    NoSeparator(q);
    PathOfKey(p, m);
    PathOfKey(q, n);
    if MakeMethodKey(p, m) == MakeMethodKey(q, n) {
      assert m == MakeMethodKey(p, m)[|p| + 1..] && n == MakeMethodKey(q, n)[|q| + 1..];
    }
  }

  lemma NoSeparator(p: string)
    requires Wire.IsObjectPath(p)
    ensures SEPARATOR !in p
  {
    assert forall i :: 0 <= i < |p| ==> p[i] != SEPARATOR;
  }

  /** A key starts with the prefix of a path exactly if it was made for that path. */
  lemma PrefixMeansPath(path: string, q: string, m: string)
    requires SEPARATOR !in path && SEPARATOR !in q
    ensures HasPrefix(MakeMethodKey(q, m), MakePrefix(path)) <==> q == path
  {
    var key := MakeMethodKey(q, m);
    PathOfKey(q, m);
    if HasPrefix(key, MakePrefix(path)) {
      assert key == MakeMethodKey(path, key[|path| + 1..]);
      PathOfKey(path, key[|path| + 1..]);
    }
  }

  /** In the order of std::string, the strings with a given prefix are neighbours. */
  lemma {:induction false} PrefixConvex(a: string, b: string, c: string, prefix: string)
    requires Less(a, b) && Less(b, c) && HasPrefix(a, prefix) && HasPrefix(c, prefix)
    ensures HasPrefix(b, prefix)
  {
    if prefix != "" {
      var rest := prefix[1..];
      assert a[0] == prefix[0] == c[0] == b[0];
      assert a[1..][..|rest|] == a[..|prefix|][1..] && c[1..][..|rest|] == c[..|prefix|][1..];
      PrefixConvex(a[1..], b[1..], c[1..], rest);
      assert b == [b[0]] + b[1..];
    }
  }

  // ---------- the map ----------

  type Entry<F> = Pair<string, F>

  predicate Ascending<F>(es: seq<Entry<F>>) {
    Sorted(Less, es)
  }

  /** Every key was made from a path without separator. */
  predicate FromPaths<F>(es: seq<Entry<F>>) {
    forall i :: 0 <= i < |es| ==> HasPrefix(es[i].key, MakePrefix(PathOf(es[i].key)))
  }

  /** Strings in the order of their octets. */
  lemma StringOrder()
    ensures Orders(Less, AnyString())
  {
    forall x: string, y: string
      ensures Less(x, y) || x == y || Less(y, x)
      ensures Less(x, y) ==> x != y && !Less(y, x)
    {
      LessTotal(x, y);
      if Less(x, y) { LessAsymmetric(x, y); }
    }
    forall x: string, y: string, z: string | Less(x, y) && Less(y, z) ensures Less(x, z) {
      LessTransitive(x, y, z);
    }
  }

  function AnyString(): string -> bool {
    (s: string) => true
  }

  function OfOther<F>(path: string): Entry<F> -> bool {
    (e: Entry<F>) => PathOf(e.key) != path
  }

  /** The entries of all other paths, in the same order. */
  function Without<F>(es: seq<Entry<F>>, path: string): seq<Entry<F>> {
    Filter(OfOther(path), es)
  }

  /** Exactly the keys of `path` are gone. */
  lemma {:induction false} WithoutLookup<F>(es: seq<Entry<F>>, path: string, key: string)
    ensures Lookup(Without(es, path), key) == if PathOf(key) == path then None else Lookup(es, key)
  {
    if es != [] {
      WithoutLookup(es[1..], path, key);
      var tail := Without(es[1..], path);
      assert Without(es, path) == if PathOf(es[0].key) != path then [es[0]] + tail else tail;
      assert ([es[0]] + tail)[1..] == tail;
    }
  }

  lemma PrefixIsPathOf(key: string, path: string)
    requires SEPARATOR !in path && HasPrefix(key, MakePrefix(PathOf(key)))
    ensures HasPrefix(key, MakePrefix(path)) <==> PathOf(key) == path
  {
    if HasPrefix(key, MakePrefix(path)) {
      assert key == MakeMethodKey(path, key[|path| + 1..]);
      PathOfKey(path, key[|path| + 1..]);
    }
  }

  /** The first run of keys with the prefix is the only one. */
  lemma OneRun<F>(es: seq<Entry<F>>, first: nat, last: nat, prefix: string)
    requires Ascending(es) && first < last < |es|
    requires HasPrefix(es[first].key, prefix) && !HasPrefix(es[last].key, prefix)
    ensures forall j :: last <= j < |es| ==> !HasPrefix(es[j].key, prefix)
  {
    forall j | last < j < |es| ensures !HasPrefix(es[j].key, prefix) {
      if HasPrefix(es[j].key, prefix) {
        PrefixConvex(es[first].key, es[last].key, es[j].key, prefix);
      }
    }
  }

  lemma CutIsWithout<F>(es: seq<Entry<F>>, first: nat, last: nat, path: string)
    requires FromPaths(es) && SEPARATOR !in path && first <= last <= |es|
    requires forall j :: 0 <= j < |es| ==> (HasPrefix(es[j].key, MakePrefix(path)) <==> first <= j < last)
    ensures es[..first] + es[last..] == Without(es, path)
  {
    hide HasPrefix;
    forall j | 0 <= j < |es| ensures PathOf(es[j].key) == path <==> first <= j < last {
      PrefixIsPathOf(es[j].key, path);
    }
    ThreeParts(es, first, last, path);
  }

  lemma ThreeParts<F>(es: seq<Entry<F>>, first: nat, last: nat, path: string)
    requires first <= last <= |es|
    requires forall j :: 0 <= j < |es| ==> (PathOf(es[j].key) == path <==> first <= j < last)
    ensures es[..first] + es[last..] == Without(es, path)
  {
    hide PathOf, Filter;
    var keep := OfOther<F>(path);
    FilterAll(keep, es[..first]);
    FilterNone(keep, es[first..last]);
    FilterAll(keep, es[last..]);
    FilterConcat(keep, es[first..last], es[last..]);
    assert es[first..last] + es[last..] == es[first..];
    FilterConcat(keep, es[..first], es[first..]);
    assert es[..first] + es[first..] == es;
    assert [] + es[last..] == es[last..];
  }

  lemma {:induction false} WithoutKeepsOrder<F>(es: seq<Entry<F>>, path: string)
    requires Ascending(es) && FromPaths(es)
    ensures Ascending(Without(es, path)) && FromPaths(Without(es, path))
  {
    if es != [] {
      var e, rest := es[0], es[1..];
      Tail(es);
      WithoutKeepsOrder(rest, path);
      FilterMembers(OfOther(path), rest);
      InFront(e, rest, Without(rest, path));
      assert [] + Without(rest, path) == Without(rest, path);
    }
  }

  lemma Tail<F>(es: seq<Entry<F>>)
    requires es != [] && Ascending(es) && FromPaths(es)
    ensures Ascending(es[1..]) && FromPaths(es[1..])
    ensures forall x :: x in es[1..] ==> Less(es[0].key, x.key)
  {
  }

  lemma InFront<F>(e: Entry<F>, rest: seq<Entry<F>>, tail: seq<Entry<F>>)
    requires Ascending(tail) && FromPaths(tail) && FromPaths([e])
    requires forall x :: x in rest ==> Less(e.key, x.key)
    requires forall x :: x in tail ==> x in rest
    ensures Ascending([e] + tail) && FromPaths([e] + tail)
  {
    hide Less, HasPrefix;
    var r := [e] + tail;
    forall i, j | 0 <= i < j < |r| ensures Less(r[i].key, r[j].key) {
      assert r[j] == tail[j - 1] && tail[j - 1] in tail;
      assert i > 0 ==> r[i] == tail[i - 1];
    }
    assert [e][0] == e;
    assert forall i :: 1 <= i < |r| ==> r[i] == tail[i - 1];
  }

  /** The scan: `first` is the first key with the prefix, `last` the one after its run. */
  method FindRange<F>(es: seq<Entry<F>>, prefix: string) returns (first: nat, last: nat)
    requires Ascending(es)
    ensures first <= last <= |es|
    ensures forall j :: 0 <= j < |es| ==> (HasPrefix(es[j].key, prefix) <==> first <= j < last)
  {
    hide HasPrefix, Less;
    var end: nat := |es|;
    var iter: nat := 0;
    first, last := end, end;
    while iter != end
      invariant iter <= end && last == end && first <= end
      invariant first == end ==> forall j :: 0 <= j < iter ==> !HasPrefix(es[j].key, prefix)
      invariant first < end ==> first < iter
      invariant first < end ==>
        forall j :: 0 <= j < iter ==> (HasPrefix(es[j].key, prefix) <==> first <= j)
      decreases end - iter
    {
      var prefixEqual := HasPrefix(es[iter].key, prefix);
      if prefixEqual && first == end {
        first := iter;
      } else if !prefixEqual && first != end {
        last := iter;
        OneRun(es, first, last, prefix);
        break;
      }
      iter := iter + 1;
    }
  }

  class Methods<F> {
    var entries: seq<Entry<F>>

    ghost predicate Valid()
      reads this
    {
      Ascending(entries) && FromPaths(entries)
    }

    constructor ()
      ensures Valid() && entries == []
    {
      entries := [];
    }

    /** DBusObjectHelper::add: a method that is there already is not replaced. */
    method Add(path: string, method_: string, func: F)
      requires Valid() && SEPARATOR !in path
      modifies this
      ensures Valid()
      ensures var key := MakeMethodKey(path, method_);
        forall k :: Lookup(entries, k) ==
          (if k == key && Lookup(old(entries), k) == None then Some(func) else Lookup(old(entries), k))
    {
      hide Orders, Less;
      var key := MakeMethodKey(path, method_);
      StringOrder();
      InsertSorted(Less, AnyString(), entries, key, func);
      InsertMembers(Less, entries, key, func);
      forall k {
        InsertLookup(Less, AnyString(), entries, key, func, k);
      }
      PathOfKey(path, method_);
      ghost var before := entries;
      entries := Insert(Less, entries, key, func);
      forall i | 0 <= i < |entries| ensures HasPrefix(entries[i].key, MakePrefix(PathOf(entries[i].key))) {
        assert entries[i] in before || entries[i] == Pair(key, func);
      }
    }

    /** The search in MethodHandler::handler. */
    method Find(path: string, method_: string) returns (r: Option<F>)
      requires Valid()
      ensures var key := MakeMethodKey(path, method_);
        && r == Lookup(entries, key)
        && (r.Some? ==> exists i :: 0 <= i < |entries| && entries[i] == Pair(key, r.value))
        && (r.None? ==> forall i :: 0 <= i < |entries| ==> entries[i].key != key)
    {
      var key := MakeMethodKey(path, method_);
      for i := 0 to |entries|
        invariant forall j :: 0 <= j < i ==> entries[j].key != key
      {
        if entries[i].key == key {
          LookupArrives(entries, i);
          return Some(entries[i].value);
        }
      }
      LookupAbsent(entries, key);
      r := None;
    }

    /** ~DBusObjectHelper: one pass over the sorted map, then one range erase. */
    method EraseHelper(path: string)
      requires Valid() && SEPARATOR !in path
      modifies this
      ensures Valid() && entries == Without(old(entries), path)
    {
      var first, last := FindRange(entries, MakePrefix(path));
      CutIsWithout(entries, first, last, path);
      WithoutKeepsOrder(entries, path);
      if first != |entries| {
        entries := entries[..first] + entries[last..];
      } else {
        assert entries[..first] + entries[last..] == entries;
      }
    }
  }

  /** After the erase, no method of the helper's path is found any more, and every method
      of every other path is found as before. */
  lemma EraseIsExact<F>(es: seq<Entry<F>>, path: string, q: string, method_: string)
    requires SEPARATOR !in q
    ensures Lookup(Without(es, path), MakeMethodKey(q, method_)) ==
      if q == path then None else Lookup(es, MakeMethodKey(q, method_))
  {
    WithoutLookup(es, path, MakeMethodKey(q, method_));
    PathOfKey(q, method_);
  }
}
