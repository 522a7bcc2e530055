/** Properties of the marshaller: framing, round trip, and when they are exact. */
module RoundTrip {
  import opened Wrappers
  import opened Utf8
  import opened Wire
  import opened Marshal
  import opened SortedMap
  import Strings

  // ---------- framing ----------

  /** Whatever is read, exactly one element of the iterator is consumed. */
  lemma GetTakesOne(h: Host, it: seq<Value>)
    requires Get(h, it).Some?
    ensures it != [] && Get(h, it).value.1 == it[1..]
  {
  }

  // ---------- append fails exactly on an invalid object path ----------

  predicate PathsValid(v: HostVal) {
    match v
    case Plain(x) => PathValid(x)
    case Fields(vs) => forall i :: 0 <= i < |vs| ==> PathsValid(vs[i])
    case Map(es) => forall i :: 0 <= i < |es| ==> PathValid(es[i].key) && PathsValid(es[i].value)
    case List(vs) => forall i :: 0 <= i < |vs| ==> PathsValid(vs[i])
    case Choice(_, x) => PathsValid(x)
  }

  predicate PathValid(x: BasicVal) {
    x.PathText? ==> IsObjectPath(Strings.CStr(x.path))
  }

  lemma {:induction false} AppendDefined(h: Host, v: HostVal)
    requires HasType(h, v)
    ensures Append(h, v).Some? <==> PathsValid(v)
    decreases h, 0
  {
    match (h, v) {
      case (Leaf(b), Plain(x)) =>
      case (Record(hs), Fields(vs)) => AppendFieldsDefined(hs, vs);
      case (Dict(k, e), Map(es)) => AppendEntriesDefined(k, e, es);
      case (Sequence(e), List(vs)) => AppendItemsDefined(e, vs);
      case (OneOf(hs), Choice(i, x)) => AppendDefined(hs[i], x);
    }
  }

  lemma {:induction false} AppendFieldsDefined(hs: seq<Host>, vs: seq<HostVal>)
    requires HaveTypes(hs, vs)
    ensures AppendFields(hs, vs).Some? <==> forall i :: 0 <= i < |vs| ==> PathsValid(vs[i])
    decreases hs, 0
  {
    if hs != [] {
      AppendDefined(hs[0], vs[0]);
      AppendFieldsDefined(hs[1..], vs[1..]);
      assert forall i :: 1 <= i < |vs| ==> vs[i] == vs[1..][i - 1];
    }
  }

  lemma {:induction false} AppendItemsDefined(h: Host, vs: seq<HostVal>)
    requires forall i :: 0 <= i < |vs| ==> HasType(h, vs[i])
    ensures AppendItems(h, vs).Some? <==> forall i :: 0 <= i < |vs| ==> PathsValid(vs[i])
    decreases h, |vs|
  {
    if vs != [] {
      AppendDefined(h, vs[0]);
      AppendItemsDefined(h, vs[1..]);
      assert forall i :: 1 <= i < |vs| ==> vs[i] == vs[1..][i - 1];
    }
  }

  lemma {:induction false} AppendEntriesDefined(k: BasicHost, h: Host, es: Entries)
    requires forall i :: 0 <= i < |es| ==> HasBasic(k, es[i].key) && HasType(h, es[i].value)
    ensures AppendEntries(k, h, es).Some? <==>
      forall i :: 0 <= i < |es| ==> PathValid(es[i].key) && PathsValid(es[i].value)
    decreases h, |es|
  {
    if es != [] {
      AppendDefined(h, es[0].value);
      AppendEntriesDefined(k, h, es[1..]);
      assert forall i :: 1 <= i < |es| ==> es[i] == es[1..][i - 1];
    }
  }

  // ---------- get after append ----------

  lemma GetBasicAfterAppend(c: BasicHost, b: BasicHost, v: BasicVal, rest: seq<Value>)
    requires GoodBasic(c) && GoodBasic(b) && PrimOf(c) == PrimOf(b)
    requires HasBasic(b, v) && AppendBasic(b, v).Some?
    ensures GetBasic(c, [AppendBasic(b, v).value] + rest) == Some((ReceivedBasic(c, b, v), rest))
  {
    var it := [AppendBasic(b, v).value] + rest;
    assert it[1..] == rest;
  }

  /** What was written as a value of one type is read as any type with the same signature:
      the reader gets the value that Received says, and the rest of the iterator is
      untouched. */
  lemma {:induction false} GetAfterAppend(g: Host, h: Host, v: HostVal, rest: seq<Value>)
    requires Good(g) && Good(h) && WireOf(g) == WireOf(h)
    requires HasType(h, v) && Append(h, v).Some?
    ensures Get(g, [Append(h, v).value] + rest) == Some((Received(g, h, v), rest))
    decreases h, 0
  {
    var w := Append(h, v).value;
    assert ([w] + rest)[1..] == rest;
    SameShape(g, h);
    match (g, h, v) {
      case (Leaf(c), Leaf(b), Plain(x)) => GetBasicAfterAppend(c, b, x, rest);
      case (Record(gs), Record(hs), Fields(vs)) =>
        GetAfterAppendFields(gs, hs, vs, []);
        assert w.items + [] == w.items;
      case (Dict(c, f), Dict(b, e), Map(es)) => GetAfterAppendEntries(c, f, b, e, es, []);
      case (Sequence(f), Sequence(e), List(vs)) => GetAfterAppendItems(f, e, vs);
      case (OneOf(gs), OneOf(hs), Choice(i, x)) =>
        AllGoodAt(hs, i);
        AppendTyped(hs[i], x);
        GetTypeIsSignature(hs[i]);
        var j := Select(gs, GetType(hs[i]));
        if j < |gs| {
          AllGoodAt(gs, j);
          GetTypeDecides(gs[j], hs[i]);
          GetAfterAppend(gs[j], hs[i], x, []);
          assert [w.inner] + [] == [w.inner];
        }
    }
  }

  lemma SameShape(g: Host, h: Host)
    requires WireOf(g) == WireOf(h)
    ensures g.Leaf? <==> h.Leaf?
    ensures g.Record? <==> h.Record?
    ensures g.Dict? <==> h.Dict?
    ensures g.Sequence? <==> h.Sequence?
  {
  }

  lemma {:induction false} GetAfterAppendFields(gs: seq<Host>, hs: seq<Host>, vs: seq<HostVal>, rest: seq<Value>)
    requires AllGood(gs) && AllGood(hs) && WiresOf(gs) == WiresOf(hs)
    requires HaveTypes(hs, vs) && AppendFields(hs, vs).Some?
    ensures GetFields(gs, AppendFields(hs, vs).value + rest) == Some((ReceivedFields(gs, hs, vs), rest))
    decreases hs, 0
  {
    if hs == [] {
      assert [] + rest == rest;
    } else {
      var w := Append(hs[0], vs[0]).value;
      var tail := AppendFields(hs[1..], vs[1..]).value + rest;
      assert AppendFields(hs, vs).value + rest == [w] + tail;
      assert WiresOf(gs)[0] == WiresOf(hs)[0];
      GetAfterAppend(gs[0], hs[0], vs[0], tail);
      assert WiresOf(gs)[1..] == WiresOf(gs[1..]) && WiresOf(hs)[1..] == WiresOf(hs[1..]);
      GetAfterAppendFields(gs[1..], hs[1..], vs[1..], rest);
    }
  }

  lemma {:induction false} GetAfterAppendItems(g: Host, h: Host, vs: seq<HostVal>)
    requires Good(g) && Good(h) && WireOf(g) == WireOf(h) && AppendItems(h, vs).Some?
    requires forall i :: 0 <= i < |vs| ==> HasType(h, vs[i])
    ensures GetTimes(g, |vs|, AppendItems(h, vs).value) == Some(ReceivedItems(g, h, vs))
    decreases h, |vs|
  {
    hide Append, Get, Received, HasType, WireOf;
    if vs != [] {
      GetAfterAppend(g, h, vs[0], AppendItems(h, vs[1..]).value);
      GetAfterAppendItems(g, h, vs[1..]);
    }
  }

  /** Reading one more entry of a map. */
  lemma GetEntriesStep(k: BasicHost, e: Host, child: Value, rest: seq<Value>, dict: Entries)
    ensures var key := GetBasic(k, Children(child));
      key.None? ==> GetEntries(k, e, [child] + rest, dict) == None
    ensures var key := GetBasic(k, Children(child));
      key.Some? && Get(e, key.value.1).None? ==> GetEntries(k, e, [child] + rest, dict) == None
    ensures var key := GetBasic(k, Children(child));
      key.Some? && Get(e, key.value.1).Some? ==>
        GetEntries(k, e, [child] + rest, dict) ==
          GetEntries(k, e, rest, Insert(KeyLess, dict, key.value.0, Get(e, key.value.1).value.0))
  {
    assert ([child] + rest)[1..] == rest;
  }

  lemma OneEntryArrives(c: BasicHost, g: Host, b: BasicHost, h: Host, e: Pair<BasicVal, HostVal>)
    requires GoodBasic(c) && GoodBasic(b) && PrimOf(c) == PrimOf(b)
    requires Good(g) && Good(h) && WireOf(g) == WireOf(h)
    requires HasBasic(b, e.key) && HasType(h, e.value) && AppendBasic(b, e.key).Some? && Append(h, e.value).Some?
    ensures var key := GetBasic(c, Children(Entry(AppendBasic(b, e.key).value, Append(h, e.value).value)));
      && key.Some? && key.value.0 == ReceivedBasic(c, b, e.key)
      && Get(g, key.value.1) == Some((Received(g, h, e.value), []))
    decreases h, 1, 0
  {
    var wk, wv := AppendBasic(b, e.key).value, Append(h, e.value).value;
    GetBasicAfterAppend(c, b, e.key, [wv]);
    assert [wk] + [wv] == [wk, wv];
    GetAfterAppend(g, h, e.value, []);
    assert [wv] + [] == [wv];
  }

  lemma {:induction false} GetAfterAppendEntries(
    c: BasicHost, g: Host, b: BasicHost, h: Host, es: Entries, acc: Entries)
    requires GoodBasic(c) && GoodBasic(b) && PrimOf(c) == PrimOf(b)
    requires Good(g) && Good(h) && WireOf(g) == WireOf(h) && AppendEntries(b, h, es).Some?
    requires forall i :: 0 <= i < |es| ==> HasBasic(b, es[i].key) && HasType(h, es[i].value)
    ensures GetEntries(c, g, AppendEntries(b, h, es).value, acc)
      == Some(InsertAll(KeyLess, acc, ReceivedPairs(c, g, b, h, es)))
    decreases h, |es|, 2
  {
    hide Append, Get, GetBasic, AppendBasic, Received, ReceivedBasic, KeyLess, Insert, HasType, HasBasic, WireOf,
      Good, GoodBasic, Children;
    if es != [] {
      var w := Entry(AppendBasic(b, es[0].key).value, Append(h, es[0].value).value);
      var ws := AppendEntries(b, h, es[1..]).value;
      assert AppendEntries(b, h, es).value == [w] + ws;
      OneEntryArrives(c, g, b, h, es[0]);
      GetEntriesStep(c, g, w, ws, acc);
      var key, value := ReceivedBasic(c, b, es[0].key), Received(g, h, es[0].value);
      GetAfterAppendEntries(c, g, b, h, es[1..], Insert(KeyLess, acc, key, value));
      var ps := ReceivedPairs(c, g, b, h, es);
      assert ps[1..] == ReceivedPairs(c, g, b, h, es[1..]);
    }
  }

  // ---------- std::map ----------

  lemma CharsInjective(s: seq<Byte>, t: seq<Byte>)
    ensures Chars(s) == Chars(t) <==> s == t
  {
    if Chars(s) == Chars(t) {
      assert |s| == |t|;
      forall i | 0 <= i < |s| ensures s[i] == t[i] {
        assert Chars(s)[i] == Chars(t)[i];
      }
    }
  }

  function KeysOf(b: BasicHost): BasicVal -> bool {
    (x: BasicVal) => HasBasic(b, x)
  }

  /** On the keys of one map, KeyLess is a strict total order. */
  lemma KeyOrder(b: BasicHost)
    ensures Orders(KeyLess, KeysOf(b))
  {
    forall x, y | HasBasic(b, x) && HasBasic(b, y)
      ensures KeyLess(x, y) || x == y || KeyLess(y, x)
      ensures KeyLess(x, y) ==> x != y && !KeyLess(y, x)
    {
      KeysCompare(b, x, y);
    }
    forall x, y, z | KeyLess(x, y) && KeyLess(y, z) ensures KeyLess(x, z) {
      KeyTransitive(x, y, z);
    }
  }

  lemma KeysCompare(b: BasicHost, x: BasicVal, y: BasicVal)
    requires HasBasic(b, x) && HasBasic(b, y)
    ensures KeyLess(x, y) || x == y || KeyLess(y, x)
    ensures KeyLess(x, y) ==> x != y && !KeyLess(y, x)
  {
    match (x, y) {
      case (Int(_), Int(_)) =>
      case (Bytes(s), Bytes(t)) =>
        Strings.LessTotal(Chars(s), Chars(t));
        CharsInjective(s, t);
        if KeyLess(x, y) { Strings.LessAsymmetric(Chars(s), Chars(t)); }
      case (PathText(s), PathText(t)) =>
        Strings.LessTotal(s, t);
        if KeyLess(x, y) { Strings.LessAsymmetric(s, t); }
    }
  }

  lemma KeyTransitive(x: BasicVal, y: BasicVal, z: BasicVal)
    requires KeyLess(x, y) && KeyLess(y, z)
    ensures KeyLess(x, z)
  {
    match (x, y, z) {
      case (Int(_), Int(_), Int(_)) =>
      case (Bytes(s), Bytes(t), Bytes(u)) => Strings.LessTransitive(Chars(s), Chars(t), Chars(u));
      case (PathText(s), PathText(t), PathText(u)) => Strings.LessTransitive(s, t, u);
    }
  }

  lemma NormKeepsKeyType(b: BasicHost, x: BasicVal)
    requires HasBasic(b, x)
    ensures HasBasic(b, NormBasic(x))
  {
  }

  lemma NormedKeys(b: BasicHost, es: Entries, ps: Entries)
    requires Within(KeysOf(b), es) && KeysNormed(es, ps)
    ensures Within(KeysOf(b), ps)
  {
    forall i | 0 <= i < |ps| ensures HasBasic(b, ps[i].key) {
      assert KeysOf(b)(es[i].key);
      NormKeepsKeyType(b, es[i].key);
    }
  }

  predicate KeysNormed(es: Entries, ps: Entries) {
    |ps| == |es| && forall i :: 0 <= i < |es| ==> ps[i].key == NormBasic(es[i].key)
  }

  /** The map that arrives is sorted, has exactly the repaired keys, and where several
      keys are repaired to the same one it holds the value of the smallest of them. */
  lemma ArrivedMap(b: BasicHost, h: Host, es: Entries, q: BasicVal)
    requires Within(KeysOf(b), es)
    ensures var r := InsertAll(KeyLess, [], NormPairs(h, es));
      && Sorted(KeyLess, r) && Within(KeysOf(b), r)
      && Lookup(r, q) == Lookup(NormPairs(h, es), q)
  {
    KeyOrder(b);
    NormedKeys(b, es, NormPairs(h, es));
    InsertAllLookup(KeyLess, KeysOf(b), [], NormPairs(h, es), q);
  }

  /** Two keys that differ only in octets that are not UTF-8 become one, so a map of
      two entries arrives with one: the round trip is not the identity on such maps. */
  lemma CollidingKeys(x: HostVal, y: HostVal, h: Host)
    ensures var es := [Pair(Bytes([0xFE]), x), Pair(Bytes([0xFF]), y)];
      && Sorted(KeyLess, es)
      && InsertAll(KeyLess, [], NormPairs(h, es)) == [Pair(Bytes([QUESTION_MARK]), Norm(h, x))]
  {
    var a, b: seq<Byte> := [0xFE], [0xFF];
    var es := [Pair(Bytes(a), x), Pair(Bytes(b), y)];
    assert Chars(a)[0] < Chars(b)[0];
    assert a[1..] == [] && b[1..] == [];
    assert Repair(a) == [QUESTION_MARK] && Repair(b) == [QUESTION_MARK];
    var k := Bytes([QUESTION_MARK]);
    var ps := NormPairs(h, es);
    assert ps == [Pair(k, Norm(h, x)), Pair(k, Norm(h, y))];
    FirstOfTwo(k, Norm(h, x), Norm(h, y));
  }

  lemma FirstOfTwo(k: BasicVal, x: HostVal, y: HostVal)
    ensures InsertAll(KeyLess, [], [Pair(k, x), Pair(k, y)]) == [Pair(k, x)]
  {
    hide KeyLess;
    var ps := [Pair(k, x), Pair(k, y)];
    assert ps[1..] == [Pair(k, y)] && ps[1..][1..] == [];
    var one := [Pair(k, x)];
    assert Insert(KeyLess, [], k, x) == one && Insert(KeyLess, one, k, y) == one;
    assert InsertAll(KeyLess, one, ps[1..]) == InsertAll(KeyLess, one, []);
  }

  // ---------- when the round trip is the identity ----------

  predicate CleanBasic(x: BasicVal) {
    match x
    case Int(_) => true
    case Bytes(s) => Valid(s)
    case PathText(s) => '\0' !in s
  }

  /** Every text in the value is valid UTF-8 without NUL, and no path contains a NUL. */
  predicate Clean(v: HostVal) {
    match v
    case Plain(x) => CleanBasic(x)
    case Fields(vs) => forall i :: 0 <= i < |vs| ==> Clean(vs[i])
    case Map(es) => forall i :: 0 <= i < |es| ==> CleanBasic(es[i].key) && Clean(es[i].value)
    case List(vs) => forall i :: 0 <= i < |vs| ==> Clean(vs[i])
    case Choice(_, x) => Clean(x)
  }

  lemma NormBasicIdentity(x: BasicVal)
    ensures NormBasic(x) == x <==> CleanBasic(x)
    ensures CleanBasic(NormBasic(x))
  {
    if x.Bytes? {
      RepairIdentity(x.s);
      RepairIsValid(x.s);
    }
  }

  /** A value survives the transport unchanged exactly if it is clean. */
  lemma {:induction false} NormIdentity(h: Host, v: HostVal)
    requires HasType(h, v)
    ensures Norm(h, v) == v <==> Clean(v)
    decreases h, 0
  {
    match (h, v) {
      case (Leaf(_), Plain(x)) => NormBasicIdentity(x);
      case (Record(hs), Fields(vs)) => NormFieldsIdentity(hs, vs);
      case (Dict(k, e), Map(es)) => NormEntriesIdentity(k, e, es);
      case (Sequence(e), List(vs)) => NormItemsIdentity(e, vs);
      case (OneOf(hs), Choice(i, x)) => NormIdentity(hs[i], x);
    }
  }

  lemma {:induction false} NormFieldsIdentity(hs: seq<Host>, vs: seq<HostVal>)
    requires HaveTypes(hs, vs)
    ensures NormFields(hs, vs) == vs <==> forall i :: 0 <= i < |vs| ==> Clean(vs[i])
    decreases hs, 0
  {
    if hs != [] {
      NormIdentity(hs[0], vs[0]);
      NormFieldsIdentity(hs[1..], vs[1..]);
      assert vs == [vs[0]] + vs[1..];
      assert NormFields(hs, vs)[1..] == NormFields(hs[1..], vs[1..]);
      assert forall i :: 1 <= i < |vs| ==> vs[i] == vs[1..][i - 1];
    }
  }

  lemma {:induction false} NormItemsIdentity(h: Host, vs: seq<HostVal>)
    requires forall i :: 0 <= i < |vs| ==> HasType(h, vs[i])
    ensures NormItems(h, vs) == vs <==> forall i :: 0 <= i < |vs| ==> Clean(vs[i])
    decreases h, |vs|
  {
    hide Norm, Clean, HasType;
    if vs != [] {
      NormIdentity(h, vs[0]);
      NormItemsIdentity(h, vs[1..]);
      assert vs == [vs[0]] + vs[1..];
      assert NormItems(h, vs)[1..] == NormItems(h, vs[1..]);
      assert forall i :: 1 <= i < |vs| ==> vs[i] == vs[1..][i - 1];
    }
  }

  /** What arrives of a map is the map itself exactly if every pair arrived as it was. */
  lemma MapUnchanged(b: BasicHost, es: Entries, ps: Entries)
    requires Sorted(KeyLess, es) && Within(KeysOf(b), es) && KeysNormed(es, ps)
    ensures InsertAll(KeyLess, [], ps) == es <==> ps == es
  {
    hide KeyLess, Insert, InsertAll, Orders;
    KeyOrder(b);
    NormedKeys(b, es, ps);
    if ps == es || InsertAll(KeyLess, [], ps) == es {
      forall i | 0 <= i < |es| ensures ps[i].key == es[i].key {
        if ps != es { ArrivedKeyIsClean(b, es, ps, i); }
      }
      assert Sorted(KeyLess, ps);
      assert [] + ps == ps;
      InsertAscending(KeyLess, KeysOf(b), [], ps);
    }
  }

  lemma ArrivedKeyIsClean(b: BasicHost, es: Entries, ps: Entries, i: nat)
    requires Sorted(KeyLess, es) && Within(KeysOf(b), es) && KeysNormed(es, ps)
    requires InsertAll(KeyLess, [], ps) == es && i < |es|
    ensures CleanBasic(es[i].key) && NormBasic(es[i].key) == es[i].key
  {
    hide KeyLess, InsertAll, Orders;
    var k := es[i].key;
    KeyOrder(b);
    NormedKeys(b, es, ps);
    InsertAllLookup(KeyLess, KeysOf(b), [], ps, k);
    LookupAbsent(es, k);
    LookupAbsent(ps, k);
    var j :| 0 <= j < |ps| && ps[j].key == k;
    NormBasicIdentity(es[j].key);
    NormBasicIdentity(k);
  }

  lemma NormEntriesIdentity(k: BasicHost, h: Host, es: Entries)
    requires HasType(Dict(k, h), Map(es))
    ensures InsertAll(KeyLess, [], NormPairs(h, es)) == es <==>
      forall i :: 0 <= i < |es| ==> CleanBasic(es[i].key) && Clean(es[i].value)
    decreases h, |es| + 1
  {
    hide InsertAll, Norm, Clean, CleanBasic, HasType;
    EntriesTyped(k, h, es);
    MapUnchanged(k, es, NormPairs(h, es));
    forall i | 0 <= i < |es|
      ensures NormPairs(h, es)[i] == es[i] <==> CleanBasic(es[i].key) && Clean(es[i].value)
    {
      NormBasicIdentity(es[i].key);
      NormIdentity(h, es[i].value);
    }
  }

  lemma EntriesTyped(k: BasicHost, h: Host, es: Entries)
    requires HasType(Dict(k, h), Map(es))
    ensures Sorted(KeyLess, es) && Within(KeysOf(k), es)
    ensures forall i :: 0 <= i < |es| ==> HasBasic(k, es[i].key) && HasType(h, es[i].value)
  {
  }

  // ---------- variants: when the alternative is recognised ----------

  /** The entry at position `i` is not shadowed by an earlier one with the same key. */
  predicate KeyArrives(es: Entries, i: nat)
    requires i < |es|
  {
    forall j :: 0 <= j < i ==> NormBasic(es[j].key) != NormBasic(es[i].key)
  }

  /** In every variant in the value, no alternative before the one that is used has the
      same D-Bus type. Entries that get lost in a map do not matter. */
  predicate Distinguished(h: Host, v: HostVal)
    decreases h, 0
  {
    match (h, v)
    case (Record(hs), Fields(vs)) => AllDistinguished(hs, vs)
    case (Dict(_, e), Map(es)) => forall i :: 0 <= i < |es| && KeyArrives(es, i) ==> Distinguished(e, es[i].value)
    case (Sequence(e), List(vs)) => forall i :: 0 <= i < |vs| ==> Distinguished(e, vs[i])
    case (OneOf(hs), Choice(i, x)) =>
      i < |hs| ==> (forall j :: 0 <= j < i ==> WireOf(hs[j]) != WireOf(hs[i])) && Distinguished(hs[i], x)
    case _ => true
  }

  predicate AllDistinguished(hs: seq<Host>, vs: seq<HostVal>)
    decreases hs, 0
  {
    hs == [] || vs == [] || (Distinguished(hs[0], vs[0]) && AllDistinguished(hs[1..], vs[1..]))
  }

  lemma ReceivedOwnBasic(b: BasicHost, v: BasicVal)
    requires HasBasic(b, v)
    ensures ReceivedBasic(b, b, v) == NormBasic(v)
  {
  }

  lemma SelectOwn(hs: seq<Host>, i: nat)
    requires i < |hs|
    ensures var j := Select(hs, GetType(hs[i]));
      && j <= i && WireOf(hs[j]) == WireOf(hs[i])
      && (forall k :: 0 <= k < j ==> WireOf(hs[k]) != WireOf(hs[i]))
      && (j == i <==> forall k :: 0 <= k < i ==> WireOf(hs[k]) != WireOf(hs[i]))
  {
    forall k | 0 <= k < |hs| ensures GetType(hs[k]) == GetType(hs[i]) <==> WireOf(hs[k]) == WireOf(hs[i]) {
      GetTypeDecides(hs[k], hs[i]);
    }
  }

  /** The reader gets the repaired value exactly if every alternative is recognised. */
  lemma {:induction false} ReceivedIsNorm(h: Host, v: HostVal)
    requires HasType(h, v)
    ensures Received(h, h, v) == Norm(h, v) <==> Distinguished(h, v)
    decreases h, 0
  {
    match (h, v) {
      case (Leaf(b), Plain(x)) => ReceivedOwnBasic(b, x);
      case (Record(hs), Fields(vs)) => ReceivedFieldsAreNorm(hs, vs);
      case (Dict(k, e), Map(es)) => ReceivedEntriesAreNorm(k, e, es);
      case (Sequence(e), List(vs)) => ReceivedItemsAreNorm(e, vs);
      case (OneOf(hs), Choice(i, x)) =>
        SelectOwn(hs, i);
        ReceivedIsNorm(hs[i], x);
    }
  }

  lemma {:induction false} ReceivedFieldsAreNorm(hs: seq<Host>, vs: seq<HostVal>)
    requires HaveTypes(hs, vs)
    ensures ReceivedFields(hs, hs, vs) == NormFields(hs, vs) <==> AllDistinguished(hs, vs)
    decreases hs, 0
  {
    if hs != [] {
      ReceivedIsNorm(hs[0], vs[0]);
      ReceivedFieldsAreNorm(hs[1..], vs[1..]);
      var rs, ns := ReceivedFields(hs, hs, vs), NormFields(hs, vs);
      assert rs[1..] == ReceivedFields(hs[1..], hs[1..], vs[1..]) && ns[1..] == NormFields(hs[1..], vs[1..]);
    }
  }

  lemma {:induction false} NormItemsAt(h: Host, vs: seq<HostVal>, i: nat)
    requires i < |vs|
    ensures NormItems(h, vs)[i] == Norm(h, vs[i])
  {
    if i > 0 { NormItemsAt(h, vs[1..], i - 1); }
  }

  lemma ReceivedItemsAreNorm(e: Host, vs: seq<HostVal>)
    requires HasType(Sequence(e), List(vs))
    ensures ReceivedItems(e, e, vs) == NormItems(e, vs) <==> forall i :: 0 <= i < |vs| ==> Distinguished(e, vs[i])
    decreases e, 1
  {
    hide Distinguished, Received, Norm;
    var rs, ns := ReceivedItems(e, e, vs), NormItems(e, vs);
    forall i | 0 <= i < |vs| ensures rs[i] == ns[i] <==> Distinguished(e, vs[i]) {
      ReceivedIsNorm(e, vs[i]);
      NormItemsAt(e, vs, i);
    }
  }

  lemma ReceivedEntriesAreNorm(k: BasicHost, e: Host, es: Entries)
    requires HasType(Dict(k, e), Map(es))
    ensures InsertAll(KeyLess, [], ReceivedPairs(k, e, k, e, es)) == InsertAll(KeyLess, [], NormPairs(e, es)) <==>
      forall i :: 0 <= i < |es| && KeyArrives(es, i) ==> Distinguished(e, es[i].value)
    decreases e, 1
  {
    hide Distinguished, Received, Norm, InsertAll, Orders, KeyLess, HasType;
    var ps, qs := ReceivedPairs(k, e, k, e, es), NormPairs(e, es);
    EntriesTyped(k, e, es);
    forall i | 0 <= i < |es|
      ensures ps[i].key == NormBasic(es[i].key)
      ensures ps[i] == qs[i] <==> Distinguished(e, es[i].value)
    {
      ReceivedOwnBasic(k, es[i].key);
      ReceivedIsNorm(e, es[i].value);
    }
    KeyOrder(k);
    NormedKeys(k, es, ps);
    InsertAllEqual(KeyLess, KeysOf(k), ps, qs);
    assert forall i :: 0 <= i < |es| ==> (KeyArrives(es, i) <==> Arrives(ps, i));
  }

  /** The round trip, exactly: the reader gets the repaired value, and nothing of the rest
      is touched, if and only if every alternative that arrives is recognised. */
  lemma RoundTripExact(h: Host, v: HostVal, rest: seq<Value>)
    requires Good(h) && HasType(h, v) && Append(h, v).Some?
    ensures Get(h, [Append(h, v).value] + rest) == Some((Norm(h, v), rest)) <==> Distinguished(h, v)
  {
    hide Get, Append, Norm, Received, Distinguished;
    GetAfterAppend(h, h, v, rest);
    ReceivedIsNorm(h, v);
  }

  /** In particular for all values of types whose alternatives have different signatures. */
  predicate DistinctAlternatives(h: Host)
    decreases h, 1
  {
    match h
    case Leaf(_) => true
    case Record(hs) => AllDistinctAlternatives(hs)
    case Dict(_, e) => DistinctAlternatives(e)
    case Sequence(e) => DistinctAlternatives(e)
    case OneOf(hs) =>
      AllDistinctAlternatives(hs) && forall i, j :: 0 <= i < j < |hs| ==> GetType(hs[i]) != GetType(hs[j])
  }

  predicate AllDistinctAlternatives(hs: seq<Host>)
    decreases hs, 0
  {
    hs == [] || (DistinctAlternatives(hs[0]) && AllDistinctAlternatives(hs[1..]))
  }

  lemma {:induction false} DistinctAt(hs: seq<Host>, i: nat)
    requires AllDistinctAlternatives(hs) && i < |hs|
    ensures DistinctAlternatives(hs[i])
  {
    if i > 0 { DistinctAt(hs[1..], i - 1); }
  }

  lemma {:induction false} DistinctTypesSuffice(h: Host, v: HostVal)
    requires DistinctAlternatives(h) && HasType(h, v)
    ensures Distinguished(h, v)
    decreases h, 0
  {
    match (h, v) {
      case (Leaf(_), _) =>
      case (Record(hs), Fields(vs)) => DistinctFieldsSuffice(hs, vs);
      case (Dict(k, e), Map(es)) =>
        forall i | 0 <= i < |es| ensures Distinguished(e, es[i].value) {
          DistinctTypesSuffice(e, es[i].value);
        }
      case (Sequence(e), List(vs)) =>
        forall i | 0 <= i < |vs| ensures Distinguished(e, vs[i]) {
          DistinctTypesSuffice(e, vs[i]);
        }
      case (OneOf(hs), Choice(i, x)) =>
        forall j | 0 <= j < i ensures WireOf(hs[j]) != WireOf(hs[i]) {
          GetTypeDecides(hs[j], hs[i]);
        }
        DistinctAt(hs, i);
        DistinctTypesSuffice(hs[i], x);
    }
  }

  lemma {:induction false} DistinctFieldsSuffice(hs: seq<Host>, vs: seq<HostVal>)
    requires AllDistinctAlternatives(hs) && HaveTypes(hs, vs)
    ensures AllDistinguished(hs, vs)
    decreases hs, 0
  {
    if hs != [] {
      DistinctTypesSuffice(hs[0], vs[0]);
      DistinctFieldsSuffice(hs[1..], vs[1..]);
    }
  }

  // ---------- when nothing at all changes ----------

  /** A value arrives unchanged exactly if it is clean and its alternatives are
      recognised. */
  lemma {:induction false} ReceivedUnchanged(h: Host, v: HostVal)
    requires HasType(h, v)
    ensures Received(h, h, v) == v <==> Clean(v) && Distinguished(h, v)
  {
    hide Received, Norm, Clean, Distinguished;
    ReceivedIsNorm(h, v);
    NormIdentity(h, v);
    if Received(h, h, v) == v {
      UnchangedIsDistinguished(h, v);
    }
  }

  lemma {:induction false} UnchangedIsDistinguished(h: Host, v: HostVal)
    requires HasType(h, v) && Received(h, h, v) == v
    ensures Distinguished(h, v)
    decreases h, 0
  {
    match (h, v) {
      case (Leaf(_), _) =>
      case (Record(hs), Fields(vs)) => UnchangedFields(hs, vs);
      case (Dict(k, e), Map(es)) => UnchangedEntries(k, e, es);
      case (Sequence(e), List(vs)) =>
        forall i | 0 <= i < |vs| ensures Distinguished(e, vs[i]) {
          assert ReceivedItems(e, e, vs)[i] == vs[i];
          UnchangedIsDistinguished(e, vs[i]);
        }
      case (OneOf(hs), Choice(i, x)) =>
        SelectOwn(hs, i);
        UnchangedIsDistinguished(hs[i], x);
    }
  }

  lemma {:induction false} UnchangedFields(hs: seq<Host>, vs: seq<HostVal>)
    requires HaveTypes(hs, vs) && ReceivedFields(hs, hs, vs) == vs
    ensures AllDistinguished(hs, vs)
    decreases hs, 0
  {
    if hs != [] {
      var rs := ReceivedFields(hs, hs, vs);
      assert rs[0] == Received(hs[0], hs[0], vs[0]) && rs[1..] == ReceivedFields(hs[1..], hs[1..], vs[1..]);
      UnchangedIsDistinguished(hs[0], vs[0]);
      UnchangedFields(hs[1..], vs[1..]);
    }
  }

  lemma UnchangedEntries(k: BasicHost, e: Host, es: Entries)
    requires HasType(Dict(k, e), Map(es))
    requires InsertAll(KeyLess, [], ReceivedPairs(k, e, k, e, es)) == es
    ensures forall i :: 0 <= i < |es| ==> Distinguished(e, es[i].value)
    decreases e, 1
  {
    hide Distinguished, Received, InsertAll, KeyLess, HasType;
    var ps := ReceivedPairs(k, e, k, e, es);
    EntriesTyped(k, e, es);
    forall i | 0 <= i < |es| ensures ps[i].key == NormBasic(es[i].key) {
      ReceivedOwnBasic(k, es[i].key);
    }
    MapUnchanged(k, es, ps);
    forall i | 0 <= i < |es| ensures Distinguished(e, es[i].value) {
      assert ps[i] == es[i];
      UnchangedIsDistinguished(e, es[i].value);
    }
  }

  // ---------- values that do not come back ----------

  /** A signed char in a variant<uint8_t, int8_t> is read back as the unsigned one. */
  lemma SignedCharBecomesUnsigned()
    ensures var h := OneOf([Leaf(Num(Y)), Leaf(SignedByte)]);
      var v := Choice(1, Plain(Int(-1)));
      && HasType(h, v)
      && Get(h, [Append(h, v).value]) == Some((Choice(0, Plain(Int(255))), []))
  {
    var hs := [Leaf(Num(Y)), Leaf(SignedByte)];
    var v := Choice(1, Plain(Int(-1)));
    assert hs[1..] == [Leaf(SignedByte)] && hs[1..][1..] == [];
    GetAfterAppend(OneOf(hs), OneOf(hs), v, []);
    SelectOwn(hs, 1);
    assert [Append(OneOf(hs), v).value] + [] == [Append(OneOf(hs), v).value];
  }

  /** It is enough that an inner variant is confused. */
  lemma NestedSignedCharBecomesUnsigned()
    ensures var h := OneOf([OneOf([Leaf(Num(Y)), Leaf(SignedByte)])]);
      var v := Choice(0, Choice(1, Plain(Int(-1))));
      && HasType(h, v) && Append(h, v).Some?
      && Get(h, [Append(h, v).value]) == Some((Choice(0, Choice(0, Plain(Int(255)))), []))
  {
    var hs := [Leaf(Num(Y)), Leaf(SignedByte)];
    var v := Choice(0, Choice(1, Plain(Int(-1))));
    var h := OneOf([OneOf(hs)]);
    assert hs[1..] == [Leaf(SignedByte)] && hs[1..][1..] == [] && [OneOf(hs)][1..] == [];
    GetAfterAppend(h, h, v, []);
    SelectOwn(hs, 1);
    SelectOwn([OneOf(hs)], 0);
    assert [Append(h, v).value] + [] == [Append(h, v).value];
  }

  // ---------- a message of the declared type is always read without exception ----------

  lemma {:induction false} DefaultTyped(h: Host)
    requires Good(h)
    ensures HasType(h, Default(h))
    decreases h, 1
  {
    match h {
      case Leaf(_) =>
      case Record(hs) => DefaultsTyped(hs);
      case Dict(_, _) =>
      case Sequence(_) =>
      case OneOf(hs) => DefaultTyped(hs[0]);
    }
  }

  lemma {:induction false} DefaultsTyped(hs: seq<Host>)
    requires AllGood(hs)
    ensures HaveTypes(hs, Defaults(hs))
    decreases hs, 0
  {
    if hs != [] {
      DefaultTyped(hs[0]);
      DefaultsTyped(hs[1..]);
      assert Defaults(hs)[1..] == Defaults(hs[1..]);
    }
  }

  lemma GetBasicTotal(b: BasicHost, it: seq<Value>)
    requires GoodBasic(b) && it != [] && WellFormed(it[0]) && TypeOf(it[0]) == Basic(PrimOf(b))
    ensures GetBasic(b, it).Some? && HasBasic(b, GetBasic(b, it).value.0)
    ensures GetBasic(b, it).value.1 == it[1..]
  {
  }

  /** If the type of the message is the declared one, nothing is thrown and the result
      is a value of the C++ type. */
  lemma {:induction false} GetTotal(h: Host, w: Value, rest: seq<Value>)
    requires Good(h) && WellFormed(w) && TypeOf(w) == WireOf(h)
    ensures Get(h, [w] + rest).Some?
    ensures HasType(h, Get(h, [w] + rest).value.0)
    ensures Get(h, [w] + rest).value.1 == rest
    decreases h, 0
  {
    var it := [w] + rest;
    assert it[1..] == rest;
    match h {
      case Leaf(b) => GetBasicTotal(b, it);
      case Record(hs) => GetFieldsTotal(hs, w.items);
      case Dict(k, e) => GetEntriesTotal(k, e, w.items, []);
      case Sequence(e) => GetTimesTotal(e, w.items);
      case OneOf(hs) =>
        var i := Select(hs, Signature(TypeOf(w.inner)));
        if i == |hs| {
          DefaultTyped(h);
        } else {
          AllGoodAt(hs, i);
          GetTypeIsSignature(hs[i]);
          SignatureEquality(WireOf(hs[i]), TypeOf(w.inner));
          GetTotal(hs[i], w.inner, []);
          assert [w.inner] + [] == [w.inner];
        }
    }
  }

  lemma {:induction false} GetFieldsTotal(hs: seq<Host>, it: seq<Value>)
    requires AllGood(hs) && AllWellFormed(it) && TypesOf(it) == WiresOf(hs)
    ensures GetFields(hs, it).Some? && HaveTypes(hs, GetFields(hs, it).value.0)
    ensures GetFields(hs, it).value.1 == []
    decreases hs, 0
  {
    if hs != [] {
      assert TypesOf(it)[0] == WiresOf(hs)[0];
      GetTotal(hs[0], it[0], it[1..]);
      assert [it[0]] + it[1..] == it;
      assert TypesOf(it)[1..] == TypesOf(it[1..]) && WiresOf(hs)[1..] == WiresOf(hs[1..]);
      GetFieldsTotal(hs[1..], it[1..]);
      var vs := GetFields(hs, it).value.0;
      assert vs[1..] == GetFields(hs[1..], it[1..]).value.0;
    }
  }

  lemma {:induction false} GetTimesTotal(h: Host, it: seq<Value>)
    requires Good(h) && AllWellFormed(it)
    requires forall i :: 0 <= i < |it| ==> TypeOf(it[i]) == WireOf(h)
    ensures GetTimes(h, |it|, it).Some?
    ensures forall i :: 0 <= i < |GetTimes(h, |it|, it).value| ==> HasType(h, GetTimes(h, |it|, it).value[i])
    decreases h, |it|
  {
    if it != [] {
      GetTotal(h, it[0], it[1..]);
      assert [it[0]] + it[1..] == it;
      GetTimesTotal(h, it[1..]);
    }
  }

  lemma {:induction false} GetEntriesTotal(k: BasicHost, h: Host, it: seq<Value>, acc: Entries)
    requires GoodBasic(k) && Good(h) && AllWellFormed(it)
    requires forall i :: 0 <= i < |it| ==> TypeOf(it[i]) == DictEntry(PrimOf(k), WireOf(h))
    requires HasType(Dict(k, h), Map(acc))
    ensures GetEntries(k, h, it, acc).Some?
    ensures HasType(Dict(k, h), Map(GetEntries(k, h, it, acc).value))
    decreases h, |it|
  {
    if it != [] {
      var e := it[0];
      GetBasicTotal(k, [e.k, e.v]);
      assert [e.k, e.v][1..] == [e.v];
      GetTotal(h, e.v, []);
      assert [e.v] + [] == [e.v];
      var key, value := GetBasic(k, [e.k, e.v]).value.0, Get(h, [e.v]).value.0;
      EntriesTyped(k, h, acc);
      KeyOrder(k);
      InsertSorted(KeyLess, KeysOf(k), acc, key, value);
      InsertMembers(KeyLess, acc, key, value);
      var acc' := Insert(KeyLess, acc, key, value);
      forall i | 0 <= i < |acc'| ensures HasBasic(k, acc'[i].key) && HasType(h, acc'[i].value) {
        assert acc'[i] in acc';
      }
      GetEntriesTotal(k, h, it[1..], acc');
    }
  }

  // ---------- default values ----------

  /** Zero, empty, and in a variant the first alternative. */
  predicate Blank(v: HostVal) {
    match v
    case Plain(Int(n)) => n == 0
    case Plain(Bytes(s)) => s == []
    case Plain(PathText(s)) => s == ""
    case Fields(vs) => forall i :: 0 <= i < |vs| ==> Blank(vs[i])
    case Map(es) => es == []
    case List(vs) => vs == []
    case Choice(i, x) => i == 0 && Blank(x)
  }

  /** A default-constructed variable holds the one blank value of its type. */
  lemma {:induction false} DefaultExact(h: Host, v: HostVal)
    requires Good(h)
    ensures v == Default(h) <==> HasType(h, v) && Blank(v)
    decreases h, 1
  {
    match h {
      case Leaf(b) => DefaultBasicExact(b, v);
      case Record(hs) => if v.Fields? { DefaultsExact(hs, v.vs); }
      case Dict(_, _) =>
      case Sequence(_) =>
      case OneOf(hs) => if v.Choice? && v.which == 0 { DefaultExact(hs[0], v.v); }
    }
  }

  lemma DefaultBasicExact(b: BasicHost, v: HostVal)
    requires GoodBasic(b)
    ensures v == Default(Leaf(b)) <==> HasType(Leaf(b), v) && Blank(v)
  {
  }

  lemma {:induction false} DefaultsExact(hs: seq<Host>, vs: seq<HostVal>)
    requires AllGood(hs)
    ensures vs == Defaults(hs) <==> HaveTypes(hs, vs) && forall i :: 0 <= i < |vs| ==> Blank(vs[i])
    decreases hs, 0
  {
    hide Default, HasType, Blank;
    if hs != [] {
      if vs != [] {
        DefaultExact(hs[0], vs[0]);
        DefaultsExact(hs[1..], vs[1..]);
        assert vs == [vs[0]] + vs[1..];
        assert forall i :: 1 <= i < |vs| ==> vs[i] == vs[1..][i - 1];
        assert forall i :: 0 <= i < |vs[1..]| ==> vs[1..][i] == vs[i + 1];
      }
      var ds := Defaults(hs);
      assert ds[0] == Default(hs[0]) && ds[1..] == Defaults(hs[1..]);
    }
  }

  /** A variant whose content has none of the expected types is read without exception and
      leaves the variable as it was constructed. */
  lemma UnrecognisedLeavesDefault(hs: seq<Host>, w: Value, rest: seq<Value>)
    requires Good(OneOf(hs)) && forall i :: 0 <= i < |hs| ==> WireOf(hs[i]) != TypeOf(w)
    ensures var r := Get(OneOf(hs), [Boxed(w)] + rest);
      r.Some? && r.value.1 == rest && HasType(OneOf(hs), r.value.0) && Blank(r.value.0)
  {
    assert ([Boxed(w)] + rest)[1..] == rest;
    forall i | 0 <= i < |hs| ensures GetType(hs[i]) != Signature(TypeOf(w)) {
      GetTypeIsSignature(hs[i]);
      SignatureEquality(WireOf(hs[i]), TypeOf(w));
    }
    DefaultExact(OneOf(hs), Default(OneOf(hs)));
  }

  // ---------- which messages can be read at all ----------

  /** The structure that a reader of type `h` insists on: basic values of its own type, in
      a tuple at least the fields it asks for, in an array children that it can read, and
      in a variant anything. */
  predicate Readable(h: Host, w: Value)
    decreases h, 1
  {
    match h
    case Leaf(b) => TypeOf(w) == Basic(PrimOf(b))
    case Record(hs) => w.Tuple? && AllReadable(hs, w.items)
    case Dict(k, e) => w.Items? && forall i :: 0 <= i < |w.items| ==>
        var c := Children(w.items[i]);
        |c| >= 2 && TypeOf(c[0]) == Basic(PrimOf(k)) && Readable(e, c[1])
    case Sequence(e) => w.Items? && forall i :: 0 <= i < |w.items| ==> Readable(e, w.items[i])
    case OneOf(_) => w.Boxed?
  }

  predicate AllReadable(hs: seq<Host>, ws: seq<Value>)
    decreases hs, 0
  {
    hs == [] || (ws != [] && Readable(hs[0], ws[0]) && AllReadable(hs[1..], ws[1..]))
  }

  /** Reading throws exactly if there is no next value or it does not have this structure. */
  lemma {:induction false} GetFails(h: Host, it: seq<Value>)
    requires Good(h) && AllWellFormed(it)
    ensures Get(h, it) == None <==> it == [] || !Readable(h, it[0])
    decreases h, 0
  {
    if it != [] {
      var w := it[0];
      match h {
        case Leaf(b) => BasicFails(b, it);
        case Record(hs) => if w.Tuple? { GetFieldsFails(hs, w.items); }
        case Dict(k, e) => if w.Items? { GetEntriesFails(k, e, w.items, []); }
        case Sequence(e) => if w.Items? { GetTimesFails(e, w.items); }
        case OneOf(hs) => if w.Boxed? { BoxIsRead(hs, w.inner, it[1..]); assert [w] + it[1..] == it; }
      }
    }
  }

  lemma BasicFails(b: BasicHost, it: seq<Value>)
    requires GoodBasic(b) && it != []
    ensures GetBasic(b, it) == None <==> TypeOf(it[0]) != Basic(PrimOf(b))
    ensures GetBasic(b, it).Some? ==> GetBasic(b, it).value.1 == it[1..]
  {
  }

  lemma BoxIsRead(hs: seq<Host>, w: Value, rest: seq<Value>)
    requires Good(OneOf(hs)) && WellFormed(w)
    ensures Get(OneOf(hs), [Boxed(w)] + rest).Some?
  {
    GetTotal(OneOf(hs), Boxed(w), rest);
  }

  lemma {:induction false} GetFieldsFails(hs: seq<Host>, it: seq<Value>)
    requires AllGood(hs) && AllWellFormed(it)
    ensures GetFields(hs, it) == None <==> !AllReadable(hs, it)
    decreases hs, 0
  {
    if hs != [] {
      GetFails(hs[0], it);
      if it != [] { GetFieldsFails(hs[1..], it[1..]); }
      GetConsumes(hs[0], it);
    }
  }

  lemma GetConsumes(h: Host, it: seq<Value>)
    ensures Get(h, it).Some? ==> it != [] && Get(h, it).value.1 == it[1..]
  {
    if Get(h, it).Some? { GetTakesOne(h, it); }
  }

  lemma {:induction false} GetTimesFails(h: Host, it: seq<Value>)
    requires Good(h) && AllWellFormed(it)
    ensures GetTimes(h, |it|, it) == None <==> exists i :: 0 <= i < |it| && !Readable(h, it[i])
    decreases h, |it|
  {
    hide Readable, Get;
    if it != [] {
      GetFails(h, it);
      GetConsumes(h, it);
      GetTimesFails(h, it[1..]);
      assert forall i :: 1 <= i < |it| ==> it[i] == it[1..][i - 1];
      if i :| 0 <= i < |it[1..]| && !Readable(h, it[1..][i]) {
        assert !Readable(h, it[i + 1]);
      }
    }
  }

  predicate EntryReadable(k: BasicHost, h: Host, w: Value) {
    var c := Children(w);
    |c| >= 2 && TypeOf(c[0]) == Basic(PrimOf(k)) && Readable(h, c[1])
  }

  lemma {:induction false} GetEntriesFails(k: BasicHost, h: Host, it: seq<Value>, acc: Entries)
    requires GoodBasic(k) && Good(h) && AllWellFormed(it)
    ensures GetEntries(k, h, it, acc) == None <==> exists i :: 0 <= i < |it| && !EntryReadable(k, h, it[i])
    decreases h, |it|
  {
    hide Readable, Get, GetBasic, Insert, EntryReadable;
    if it != [] {
      OneEntryFails(k, h, it[0]);
      var key := GetBasic(k, Children(it[0]));
      if key.Some? && Get(h, key.value.1).Some? {
        var value := Get(h, key.value.1).value.0;
        GetEntriesFails(k, h, it[1..], Insert(KeyLess, acc, key.value.0, value));
        assert forall i :: 1 <= i < |it| ==> it[i] == it[1..][i - 1];
        if i :| 0 <= i < |it[1..]| && !EntryReadable(k, h, it[1..][i]) {
          assert !EntryReadable(k, h, it[i + 1]);
        }
      }
    }
  }

  lemma OneEntryFails(k: BasicHost, h: Host, w: Value)
    requires GoodBasic(k) && Good(h) && WellFormed(w)
    ensures var key := GetBasic(k, Children(w));
      EntryReadable(k, h, w) <==> key.Some? && Get(h, key.value.1).Some?
    decreases h, 1, 0
  {
    var c := Children(w);
    if c != [] {
      BasicFails(k, c);
      ChildrenWellFormed(w);
      GetFails(h, c[1..]);
    }
  }

  lemma ChildrenWellFormed(w: Value)
    requires WellFormed(w)
    ensures AllWellFormed(Children(w))
    ensures Children(w) != [] ==> AllWellFormed(Children(w)[1..])
  {
    if w.Entry? {
      assert [w.k, w.v][1..] == [w.v] && [w.v][1..] == [];
    } else if w.Boxed? {
      assert [w.inner][1..] == [];
    }
  }

  // ---------- one message in full ----------

  /** The wire form of a map with numbers and a struct in a variant, octet for octet as the
      D-Bus Specification, section "Type System", writes its type: keys in ascending order,
      a variant around its content, a signed char as a byte. */
  lemma ExampleMessage()
    ensures var inner := Record([Leaf(Str), Leaf(SignedByte)]);
      var h := Dict(Num(I), OneOf([Leaf(Num(B)), inner]));
      var es := [
        Pair(Int(-7), Choice(1, Fields([Plain(Bytes([0x41])), Plain(Int(-2))]))),
        Pair(Int(5), Choice(0, Plain(Int(1))))];
      && HasType(h, Map(es))
      && GetType(h) == "a{iv}" && GetType(inner) == "(sy)"
      && Append(h, Map(es)) == Some(Items(DictEntry(I, Variant), [
           Entry(Number(I, -7), Boxed(Tuple([Text([0x41]), Number(Y, 254)]))),
           Entry(Number(I, 5), Boxed(Number(B, 1)))]))
  {
    hide Append, HasType, GetType, KeyLess;
    var inner := Record([Leaf(Str), Leaf(SignedByte)]);
    var alts := [Leaf(Num(B)), inner];
    var x := Fields([Plain(Bytes([0x41])), Plain(Int(-2))]);
    ExampleStruct();
    ExampleNumber();
    OneOfTwo(alts, 1, x);
    OneOfTwo(alts, 0, Plain(Int(1)));
    var p, q := Pair(Int(-7), Choice(1, x)), Pair(Int(5), Choice(0, Plain(Int(1))));
    TwoEntries(Num(I), OneOf(alts), p, q, Append(OneOf(alts), p.value).value, Append(OneOf(alts), q.value).value);
  }

  lemma OneOfTwo(alts: seq<Host>, i: nat, x: HostVal)
    requires i < |alts| && HasType(alts[i], x) && Append(alts[i], x).Some?
    ensures HasType(OneOf(alts), Choice(i, x))
    ensures Append(OneOf(alts), Choice(i, x)) == Some(Boxed(Append(alts[i], x).value))
    ensures GetType(OneOf(alts)) == "v" && WireOf(OneOf(alts)) == Variant
  {
  }

  lemma TwoEntries(k: BasicHost, e: Host, p: Pair<BasicVal, HostVal>, q: Pair<BasicVal, HostVal>, wp: Value, wq: Value)
    requires HasBasic(k, p.key) && HasBasic(k, q.key) && k.Num? && p.key.n < q.key.n
    requires HasType(e, p.value) && HasType(e, q.value)
    requires Append(e, p.value) == Some(wp) && Append(e, q.value) == Some(wq)
    ensures HasType(Dict(k, e), Map([p, q]))
    ensures GetType(Dict(k, e)) == "a" + ("{" + [Code(PrimOf(k))] + GetType(e) + "}")
    ensures Append(Dict(k, e), Map([p, q])) == Some(Items(DictEntry(PrimOf(k), WireOf(e)),
      [Entry(Number(k.p, p.key.n), wp), Entry(Number(k.p, q.key.n), wq)]))
  {
    var es: Entries := [p, q];
    var none: Entries := es[1..][1..];
    assert es[1..] == [q] && none == [];
    var ws: seq<Value> := [];
    assert AppendEntries(k, e, none) == Some(ws);
    var w := Entry(Number(k.p, q.key.n), wq);
    assert AppendEntries(k, e, es[1..]) == Some([w] + ws);
    assert [w] + ws == [w];
    var v := Entry(Number(k.p, p.key.n), wp);
    assert AppendEntries(k, e, es) == Some([v] + [w]);
    assert [v] + [w] == [v, w];
    assert Append(Dict(k, e), Map(es)) == Some(Items(DictEntry(PrimOf(k), WireOf(e)), [v, w]));
  }

  lemma ExampleNumber()
    ensures var h := Leaf(Num(B));
      GetType(h) == "b" && HasType(h, Plain(Int(1))) && Append(h, Plain(Int(1))) == Some(Number(B, 1))
  {
  }

  lemma TwoFields(g: Host, h: Host, v: HostVal, u: HostVal, wv: Value, wu: Value)
    requires HasType(g, v) && HasType(h, u) && Append(g, v) == Some(wv) && Append(h, u) == Some(wu)
    ensures var r := Record([g, h]);
      && HasType(r, Fields([v, u]))
      && GetType(r) == "(" + (GetType(g) + GetType(h)) + ")"
      && Append(r, Fields([v, u])) == Some(Tuple([wv, wu]))
  {
    var hs, vs := [g, h], [v, u];
    assert hs[1..] == [h] && hs[1..][1..] == [] && vs[1..] == [u] && vs[1..][1..] == [];
    assert GetContainedType(hs[1..][1..]) == "";
    assert GetContainedType(hs[1..]) == GetType(h) + "";
    assert GetType(h) + "" == GetType(h);
    var ws: seq<Value> := [];
    assert AppendFields(hs[1..][1..], vs[1..][1..]) == Some(ws);
    assert AppendFields(hs[1..], vs[1..]) == Some([wu] + ws);
    assert AppendFields(hs, vs) == Some([wv] + ([wu] + ws));
    assert [wv] + ([wu] + ws) == [wv, wu];
    assert HaveTypes(hs[1..][1..], vs[1..][1..]);
    assert HaveTypes(hs[1..], vs[1..]);
  }

  lemma ExampleStruct()
    ensures var inner := Record([Leaf(Str), Leaf(SignedByte)]);
      var x := Fields([Plain(Bytes([0x41])), Plain(Int(-2))]);
      && HasType(inner, x) && GetType(inner) == "(sy)"
      && Append(inner, x) == Some(Tuple([Text([0x41]), Number(Y, 254)]))
  {
    LetterIsValid();
    TwoFields(Leaf(Str), Leaf(SignedByte), Plain(Bytes([0x41])), Plain(Int(-2)), Text([0x41]), Number(Y, 254));
  }

  lemma LetterIsValid()
    ensures Repair([0x41]) == [0x41]
  {
    var a: seq<Byte> := [0x41];
    assert CharLen(a) == 1 && a[1..] == [];
    RepairIdentity(a);
  }
}
