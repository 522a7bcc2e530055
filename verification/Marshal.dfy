/** The dbus_traits family: how a C++ type is printed as a signature, written into a
    message and read back from an iterator over the remaining values. */
module Marshal {
  import opened Wrappers
  import opened Utf8
  import opened Wire
  import opened SortedMap
  import Strings

  // ---------- C++ types and values ----------

  /** Types without components. A signed char travels as a byte. */
  datatype BasicHost = Num(p: Prim) | SignedByte | Str | ObjPath

  datatype Host =
    | Leaf(b: BasicHost)
    | Record(fields: seq<Host>)            // std::pair, boost::tuple, dbus_struct_traits
    | Dict(key: BasicHost, val: Host)      // std::map
    | Sequence(elem: Host)                 // std::vector, std::list, std::deque
    | OneOf(alts: seq<Host>)               // boost::variant with one to three alternatives

  datatype BasicVal = Int(n: int) | Bytes(s: seq<Byte>) | PathText(path: string)

  type Entries = seq<Pair<BasicVal, HostVal>>

  datatype HostVal =
    | Plain(b: BasicVal)
    | Fields(vs: seq<HostVal>)
    | Map(entries: Entries)
    | List(items: seq<HostVal>)
    | Choice(which: nat, v: HostVal)

  // ---------- types as strings and as wire types ----------

  function PrimOf(b: BasicHost): Prim {
    match b
    case Num(p) => p
    case SignedByte => Y
    case Str => S
    case ObjPath => O
  }

  /** dbus_traits<h>::getType() */
  function GetType(h: Host): string
    decreases h, 1
  {
    match h
    case Leaf(b) => [Code(PrimOf(b))]
    case Record(hs) => "(" + GetContainedType(hs) + ")"
    case Dict(k, v) => "a" + ("{" + [Code(PrimOf(k))] + GetType(v) + "}")
    case Sequence(e) => "a" + GetType(e)
    case OneOf(_) => "v"
  }

  function GetContainedType(hs: seq<Host>): string
    decreases hs, 0
  {
    if hs == [] then "" else GetType(hs[0]) + GetContainedType(hs[1..])
  }

  function WireOf(h: Host): Ty
    decreases h, 1
  {
    match h
    case Leaf(b) => Basic(PrimOf(b))
    case Record(hs) => Struct(WiresOf(hs))
    case Dict(k, v) => Array(DictEntry(PrimOf(k), WireOf(v)))
    case Sequence(e) => Array(WireOf(e))
    case OneOf(_) => Variant
  }

  function WiresOf(hs: seq<Host>): (ts: seq<Ty>)
    ensures |ts| == |hs|
    ensures forall i :: 0 <= i < |hs| ==> ts[i] == WireOf(hs[i])
    decreases hs, 0
  {
    if hs == [] then [] else [WireOf(hs[0])] + WiresOf(hs[1..])
  }

  lemma {:induction false} GetTypeIsSignature(h: Host)
    ensures GetType(h) == Signature(WireOf(h))
    decreases h, 1
  {
    match h {
      case Leaf(b) =>
      case Record(hs) => GetContainedTypeIsSignature(hs);
      case Dict(k, v) => GetTypeIsSignature(v);
      case Sequence(e) => GetTypeIsSignature(e);
      case OneOf(_) =>
    }
  }

  lemma {:induction false} GetContainedTypeIsSignature(hs: seq<Host>)
    ensures GetContainedType(hs) == Signatures(WiresOf(hs))
    decreases hs, 0
  {
    if hs != [] {
      GetTypeIsSignature(hs[0]);
      GetContainedTypeIsSignature(hs[1..]);
      assert WiresOf(hs)[1..] == WiresOf(hs[1..]);
    }
  }

  /** Two C++ types are told apart by their type strings exactly if they have
      different D-Bus types. */
  lemma GetTypeDecides(g: Host, h: Host)
    ensures GetType(g) == GetType(h) <==> WireOf(g) == WireOf(h)
  {
    GetTypeIsSignature(g);
    GetTypeIsSignature(h);
    SignatureEquality(WireOf(g), WireOf(h));
  }

  // ---------- which types and values there are ----------

  predicate GoodBasic(b: BasicHost) {
    b.Num? ==> b.p != S && b.p != O
  }

  /** A usable type. */
  predicate Good(h: Host)
    decreases h, 1
  {
    match h
    case Leaf(b) => GoodBasic(b)
    case Record(hs) => AllGood(hs)
    case Dict(k, v) => GoodBasic(k) && Good(v)
    case Sequence(e) => Good(e)
    case OneOf(hs) => 1 <= |hs| <= 3 && AllGood(hs)
  }

  predicate AllGood(hs: seq<Host>)
    decreases hs, 0
  {
    hs == [] || (Good(hs[0]) && AllGood(hs[1..]))
  }

  lemma {:induction false} AllGoodAt(hs: seq<Host>, i: nat)
    requires AllGood(hs) && i < |hs|
    ensures Good(hs[i])
  {
    if i > 0 {
      AllGoodAt(hs[1..], i - 1);
    }
  }

  predicate HasBasic(b: BasicHost, v: BasicVal) {
    match b
    case Num(p) => v.Int? && Holds(p, v.n)
    case SignedByte => v.Int? && -128 <= v.n < 128
    case Str => v.Bytes?
    case ObjPath => v.PathText?
  }

  function Chars(s: seq<Byte>): (t: string)
    ensures |t| == |s|
    ensures forall i :: 0 <= i < |s| ==> t[i] as int == s[i]
  {
    seq(|s|, i requires 0 <= i < |s| => s[i] as char)
  }

  /** The order of std::map keys. */
  predicate KeyLess(a: BasicVal, b: BasicVal) {
    match (a, b)
    case (Int(m), Int(n)) => m < n
    case (Bytes(s), Bytes(t)) => Strings.Less(Chars(s), Chars(t))
    case (PathText(s), PathText(t)) => Strings.Less(s, t)
    case _ => false
  }

  predicate HasType(h: Host, v: HostVal)
    decreases h, 1
  {
    match (h, v)
    case (Leaf(b), Plain(x)) => HasBasic(b, x)
    case (Record(hs), Fields(vs)) => HaveTypes(hs, vs)
    case (Dict(k, e), Map(es)) =>
      Sorted(KeyLess, es) && forall i :: 0 <= i < |es| ==> HasBasic(k, es[i].key) && HasType(e, es[i].value)
    case (Sequence(e), List(vs)) => forall i :: 0 <= i < |vs| ==> HasType(e, vs[i])
    case (OneOf(hs), Choice(i, x)) => i < |hs| && HasType(hs[i], x)
    case _ => false
  }

  predicate HaveTypes(hs: seq<Host>, vs: seq<HostVal>)
    decreases hs, 0
  {
    |hs| == |vs| && (hs == [] || (HasType(hs[0], vs[0]) && HaveTypes(hs[1..], vs[1..])))
  }

  // ---------- append ----------

  /** None stands for the exception that an invalid object path causes. */
  function AppendBasic(b: BasicHost, v: BasicVal): (w: Option<Value>)
  {
    match (b, v)
    case (Num(p), Int(n)) => Some(Number(p, n))
    case (SignedByte, Int(n)) => Some(Number(Y, if n < 0 then n + 256 else n))
    case (Str, Bytes(s)) => Some(Text(Repair(s)))
    case (ObjPath, PathText(s)) =>
      if IsObjectPath(Strings.CStr(s)) then Some(Path(Strings.CStr(s))) else None
    case _ => None
  }

  function Append(h: Host, v: HostVal): (w: Option<Value>)
    decreases h, 0
  {
    match (h, v)
    case (Leaf(b), Plain(x)) => AppendBasic(b, x)
    case (Record(hs), Fields(vs)) =>
      var ws :- AppendFields(hs, vs);
      Some(Tuple(ws))
    case (Dict(k, e), Map(es)) =>
      var ws :- AppendEntries(k, e, es);
      Some(Items(DictEntry(PrimOf(k), WireOf(e)), ws))
    case (Sequence(e), List(vs)) =>
      var ws :- AppendItems(e, vs);
      Some(Items(WireOf(e), ws))
    case (OneOf(hs), Choice(i, x)) =>
      if i < |hs| then
        var w :- Append(hs[i], x);
        Some(Boxed(w))
      else None
    case _ => None
  }

  function AppendFields(hs: seq<Host>, vs: seq<HostVal>): (ws: Option<seq<Value>>)
    decreases hs, 0
  {
    if hs == [] || vs == [] then Some([])
    else
      var w :- Append(hs[0], vs[0]);
      var ws :- AppendFields(hs[1..], vs[1..]);
      Some([w] + ws)
  }

  function AppendItems(h: Host, vs: seq<HostVal>): (ws: Option<seq<Value>>)
    ensures ws.Some? ==> |ws.value| == |vs|
    decreases h, |vs|
  {
    if vs == [] then Some([])
    else
      var w :- Append(h, vs[0]);
      var ws :- AppendItems(h, vs[1..]);
      Some([w] + ws)
  }

  function AppendEntries(k: BasicHost, h: Host, es: Entries): (ws: Option<seq<Value>>)
    decreases h, |es|
  {
    if es == [] then Some([])
    else
      var wk :- AppendBasic(k, es[0].key);
      var wv :- Append(h, es[0].value);
      var ws :- AppendEntries(k, h, es[1..]);
      Some([Entry(wk, wv)] + ws)
  }

  // ---------- get ----------

  function GetBasic(b: BasicHost, it: seq<Value>): (r: Option<(BasicVal, seq<Value>)>)
  {
    if it == [] || TypeOf(it[0]) != Basic(PrimOf(b)) then None
    else
      match it[0]
      case Number(p, n) => Some((Int(if b == SignedByte && n >= 128 then n - 256 else n), it[1..]))
      case Text(s) => Some((Bytes(s), it[1..]))
      case Path(s) => Some((PathText(s), it[1..]))
  }

  /** Reads one value of type `h` from an iterator; None stands for an exception. */
  function Get(h: Host, it: seq<Value>): (r: Option<(HostVal, seq<Value>)>)
    decreases h, 0
  {
    match h
    case Leaf(b) =>
      var (x, rest) :- GetBasic(b, it);
      Some((Plain(x), rest))
    case Record(hs) =>
      if it == [] || !it[0].Tuple? then None else
      var (vs, _) :- GetFields(hs, it[0].items);
      Some((Fields(vs), it[1..]))
    case Dict(k, e) =>
      if it == [] || !it[0].Items? then None else
      var es :- GetEntries(k, e, it[0].items, []);
      Some((Map(es), it[1..]))
    case Sequence(e) =>
      if it == [] || !it[0].Items? then None else
      var vs :- GetTimes(e, |it[0].items|, it[0].items);
      Some((List(vs), it[1..]))
    case OneOf(hs) =>
      if it == [] || !it[0].Boxed? then None else
      var i := Select(hs, Signature(TypeOf(it[0].inner)));
      if i == |hs| then Some((Default(h), it[1..])) else
      var (x, _) :- Get(hs[i], [it[0].inner]);
      Some((Choice(i, x), it[1..]))
  }

  /** The first alternative whose type string equals `type`; |hs| if there is none. */
  function Select(hs: seq<Host>, type_: string): (i: nat)
    ensures i <= |hs|
    ensures i < |hs| ==> GetType(hs[i]) == type_
    ensures forall j :: 0 <= j < i ==> GetType(hs[j]) != type_
  {
    if hs == [] then 0
    else if GetType(hs[0]) == type_ then 0
    else 1 + Select(hs[1..], type_)
  }

  function GetFields(hs: seq<Host>, it: seq<Value>): (r: Option<(seq<HostVal>, seq<Value>)>)
    decreases hs, 0
  {
    if hs == [] then Some(([], it))
    else
      var (v, rest) :- Get(hs[0], it);
      var (vs, rest') :- GetFields(hs[1..], rest);
      Some(([v] + vs, rest'))
  }

  /** `n` values of the same type, one after the other. */
  function GetTimes(h: Host, n: nat, it: seq<Value>): (r: Option<seq<HostVal>>)
    decreases h, n
  {
    if n == 0 then Some([])
    else
      var (v, rest) :- Get(h, it);
      var vs :- GetTimes(h, n - 1, rest);
      Some([v] + vs)
  }

  /** Key and value of each child, inserted into the map `acc`. */
  function GetEntries(k: BasicHost, h: Host, it: seq<Value>, acc: Entries): (r: Option<Entries>)
    decreases h, |it|
  {
    if it == [] then Some(acc)
    else
      var (key, rest) :- GetBasic(k, Children(it[0]));
      var (value, _) :- Get(h, rest);
      GetEntries(k, h, it[1..], Insert(KeyLess, acc, key, value))
  }

  /** A default-constructed variable; a variant starts with its first alternative. */
  function Default(h: Host): HostVal
    decreases h, 1
  {
    match h
    case Leaf(Num(_)) => Plain(Int(0))
    case Leaf(SignedByte) => Plain(Int(0))
    case Leaf(Str) => Plain(Bytes([]))
    case Leaf(ObjPath) => Plain(PathText(""))
    case Record(hs) => Fields(Defaults(hs))
    case Dict(_, _) => Map([])
    case Sequence(_) => List([])
    case OneOf(hs) => if hs == [] then Choice(0, Fields([])) else Choice(0, Default(hs[0]))
  }

  function Defaults(hs: seq<Host>): seq<HostVal>
    decreases hs, 0
  {
    if hs == [] then [] else [Default(hs[0])] + Defaults(hs[1..])
  }

  // ---------- what a value becomes on its way ----------

  function NormBasic(v: BasicVal): BasicVal {
    match v
    case Int(n) => v
    case Bytes(s) => Bytes(Repair(s))
    case PathText(s) => PathText(Strings.CStr(s))
  }

  /** The value with every text repaired and every path cut at a NUL. Repairing may
      make two map keys equal; the first one wins. */
  function Norm(h: Host, v: HostVal): HostVal
    decreases h, 0
  {
    match (h, v)
    case (Leaf(_), Plain(x)) => Plain(NormBasic(x))
    case (Record(hs), Fields(vs)) => Fields(NormFields(hs, vs))
    case (Dict(_, e), Map(es)) => Map(InsertAll(KeyLess, [], NormPairs(e, es)))
    case (Sequence(e), List(vs)) => List(NormItems(e, vs))
    case (OneOf(hs), Choice(i, x)) => if i < |hs| then Choice(i, Norm(hs[i], x)) else v
    case _ => v
  }

  function NormFields(hs: seq<Host>, vs: seq<HostVal>): seq<HostVal>
    decreases hs, 0
  {
    if hs == [] || vs == [] then [] else [Norm(hs[0], vs[0])] + NormFields(hs[1..], vs[1..])
  }

  function NormItems(h: Host, vs: seq<HostVal>): (r: seq<HostVal>)
    ensures |r| == |vs|
    decreases h, |vs|
  {
    if vs == [] then [] else [Norm(h, vs[0])] + NormItems(h, vs[1..])
  }

  function NormPairs(h: Host, es: Entries): (r: Entries)
    ensures |r| == |es|
    ensures forall i :: 0 <= i < |es| ==> r[i] == Pair(NormBasic(es[i].key), Norm(h, es[i].value))
    decreases h, |es|
  {
    if es == [] then [] else [Pair(NormBasic(es[0].key), Norm(h, es[0].value))] + NormPairs(h, es[1..])
  }

  // ---------- what a reader with another C++ type makes of it ----------

  /** A value of type `b`, read as type `c` with the same type string. */
  function ReceivedBasic(c: BasicHost, b: BasicHost, v: BasicVal): BasicVal {
    match v
    case Int(n) =>
      var byte := if b == SignedByte && n < 0 then n + 256 else n;
      Int(if c == SignedByte && byte >= 128 then byte - 256 else byte)
    case _ => NormBasic(v)
  }

  /** A value of type `h`, read as type `g` with the same type string: variants choose
      the first alternative that fits. */
  function Received(g: Host, h: Host, v: HostVal): HostVal
    decreases h, 0
  {
    match (g, h, v)
    case (Leaf(c), Leaf(b), Plain(x)) => Plain(ReceivedBasic(c, b, x))
    case (Record(gs), Record(hs), Fields(vs)) => Fields(ReceivedFields(gs, hs, vs))
    case (Dict(c, f), Dict(b, e), Map(es)) => Map(InsertAll(KeyLess, [], ReceivedPairs(c, f, b, e, es)))
    case (Sequence(f), Sequence(e), List(vs)) => List(ReceivedItems(f, e, vs))
    case (OneOf(gs), OneOf(hs), Choice(i, x)) =>
      if i >= |hs| then v else
      var j := Select(gs, GetType(hs[i]));
      if j == |gs| then Default(g) else Choice(j, Received(gs[j], hs[i], x))
    case _ => v
  }

  function ReceivedFields(gs: seq<Host>, hs: seq<Host>, vs: seq<HostVal>): seq<HostVal>
    decreases hs, 0
  {
    if gs == [] || hs == [] || vs == [] then []
    else [Received(gs[0], hs[0], vs[0])] + ReceivedFields(gs[1..], hs[1..], vs[1..])
  }

  function ReceivedItems(g: Host, h: Host, vs: seq<HostVal>): (r: seq<HostVal>)
    ensures |r| == |vs|
    ensures forall i :: 0 <= i < |vs| ==> r[i] == Received(g, h, vs[i])
    decreases h, |vs|
  {
    if vs == [] then [] else [Received(g, h, vs[0])] + ReceivedItems(g, h, vs[1..])
  }

  function ReceivedPairs(c: BasicHost, g: Host, b: BasicHost, h: Host, es: Entries): (r: Entries)
    ensures |r| == |es|
    ensures forall i :: 0 <= i < |es| ==>
      r[i] == Pair(ReceivedBasic(c, b, es[i].key), Received(g, h, es[i].value))
    decreases h, |es|
  {
    if es == [] then []
    else [Pair(ReceivedBasic(c, b, es[0].key), Received(g, h, es[0].value))] + ReceivedPairs(c, g, b, h, es[1..])
  }

  // ---------- the message is well formed and has the declared type ----------

  lemma AppendBasicTyped(b: BasicHost, v: BasicVal)
    requires GoodBasic(b) && HasBasic(b, v) && AppendBasic(b, v).Some?
    ensures var w := AppendBasic(b, v).value;
      TypeOf(w) == Basic(PrimOf(b)) && WellFormed(w) && (w.Number? || w.Text? || w.Path?)
  {
    if b.Str? {
      RepairIsValid(v.s);
    }
  }

  lemma {:induction false} AppendTyped(h: Host, v: HostVal)
    requires Good(h) && HasType(h, v) && Append(h, v).Some?
    ensures TypeOf(Append(h, v).value) == WireOf(h)
    ensures WellFormed(Append(h, v).value)
    decreases h, 0
  {
    match (h, v) {
      case (Leaf(b), Plain(x)) => AppendBasicTyped(b, x);
      case (Record(hs), Fields(vs)) => AppendFieldsTyped(hs, vs);
      case (Dict(k, e), Map(es)) => AppendEntriesTyped(k, e, es);
      case (Sequence(e), List(vs)) => AppendItemsTyped(e, vs);
      case (OneOf(hs), Choice(i, x)) =>
        AllGoodAt(hs, i);
        AppendTyped(hs[i], x);
    }
  }

  lemma {:induction false} AppendFieldsTyped(hs: seq<Host>, vs: seq<HostVal>)
    requires AllGood(hs) && HaveTypes(hs, vs) && AppendFields(hs, vs).Some?
    ensures TypesOf(AppendFields(hs, vs).value) == WiresOf(hs)
    ensures AllWellFormed(AppendFields(hs, vs).value)
    decreases hs, 0
  {
    if hs != [] {
      AppendTyped(hs[0], vs[0]);
      AppendFieldsTyped(hs[1..], vs[1..]);
      var ws := AppendFields(hs, vs).value;
      assert ws[1..] == AppendFields(hs[1..], vs[1..]).value;
    }
  }

  lemma {:induction false} AppendItemsTyped(h: Host, vs: seq<HostVal>)
    requires Good(h) && AppendItems(h, vs).Some?
    requires forall i :: 0 <= i < |vs| ==> HasType(h, vs[i])
    ensures var ws := AppendItems(h, vs).value;
      AllWellFormed(ws) && forall i :: 0 <= i < |ws| ==> TypeOf(ws[i]) == WireOf(h)
    decreases h, |vs|
  {
    if vs != [] {
      AppendTyped(h, vs[0]);
      AppendItemsTyped(h, vs[1..]);
      var ws := AppendItems(h, vs).value;
      assert ws[1..] == AppendItems(h, vs[1..]).value;
    }
  }

  lemma {:induction false} AppendEntriesTyped(k: BasicHost, h: Host, es: Entries)
    requires GoodBasic(k) && Good(h) && AppendEntries(k, h, es).Some?
    requires forall i :: 0 <= i < |es| ==> HasBasic(k, es[i].key) && HasType(h, es[i].value)
    ensures var ws := AppendEntries(k, h, es).value;
      AllWellFormed(ws) && forall i :: 0 <= i < |ws| ==> TypeOf(ws[i]) == DictEntry(PrimOf(k), WireOf(h))
    decreases h, |es|
  {
    if es != [] {
      AppendBasicTyped(k, es[0].key);
      AppendTyped(h, es[0].value);
      AppendEntriesTyped(k, h, es[1..]);
      var ws := AppendEntries(k, h, es).value;
      assert ws[1..] == AppendEntries(k, h, es[1..]).value;
    }
  }
}
