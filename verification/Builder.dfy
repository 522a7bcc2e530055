/** The step-by-step form of the marshaller: a GVariantBuilder with its stack of open
    containers and a GVariantIter that is advanced, driven by recursive methods and
    loops, and proved against the functions of module Marshal. */
module Builder {
  import opened Wrappers
  import opened Utf8
  import opened Wire
  import opened Marshal
  import opened RoundTrip
  import opened SortedMap
  import Strings

  /** A container that has been opened and not closed yet. */
  datatype Frame = Frame(ty: Ty, items: seq<Value>)

  /** The container that g_variant_builder_close creates. */
  function Closed(f: Frame): (w: Value)
    requires f.ty.DictEntry? ==> |f.items| == 2
    requires f.ty.Variant? ==> |f.items| == 1
    requires !f.ty.Basic?
  {
    match f.ty
    case Array(e) => Items(e, f.items)
    case Struct(_) => Tuple(f.items)
    case DictEntry(_, _) => Entry(f.items[0], f.items[1])
    case Variant => Boxed(f.items[0])
  }

  /** The stack after more values were added to the innermost open container. */
  function With(fs: seq<Frame>, ws: seq<Value>): (r: seq<Frame>)
    requires fs != []
    ensures |r| == |fs|
  {
    var top := fs[|fs| - 1];
    fs[..|fs| - 1] + [Frame(top.ty, top.items + ws)]
  }

  class VariantBuilder {
    var frames: seq<Frame>

    /** g_variant_builder_init with G_VARIANT_TYPE_TUPLE */
    constructor ()
      ensures frames == [Frame(Struct([]), [])]
    {
      frames := [Frame(Struct([]), [])];
    }

    method AddValue(w: Value)
      requires frames != []
      modifies this
      ensures frames == With(old(frames), [w])
    {
      var n := |frames| - 1;
      frames := frames[..n] + [Frame(frames[n].ty, frames[n].items + [w])];
    }

    /** g_variant_builder_open, with the type given as a string. */
    method Open(type_: string, ghost ty: Ty)
      requires type_ == Signature(ty)
      modifies this
      ensures frames == old(frames) + [Frame(ty, [])]
    {
      ParseOfSignature(ty, "");
      assert Signature(ty) + "" == type_;
      frames := frames + [Frame(Parse(type_).value.0, [])];
    }

    method Close()
      requires |frames| >= 2 && !frames[|frames| - 1].ty.Basic?
      requires var f := frames[|frames| - 1];
        (f.ty.DictEntry? ==> |f.items| == 2) && (f.ty.Variant? ==> |f.items| == 1)
      modifies this
      ensures var fs := old(frames);
        frames == With(fs[..|fs| - 1], [Closed(fs[|fs| - 1])])
    {
      var n := |frames| - 1;
      var w := Closed(frames[n]);
      frames := frames[..n];
      AddValue(w);
    }
  }

  class VariantIter {
    var rest: seq<Value>

    /** g_variant_iter_init */
    constructor (w: Value)
      ensures rest == Children(w)
    {
      rest := Children(w);
    }

    constructor Over(ws: seq<Value>)
      ensures rest == ws
    {
      rest := ws;
    }

    /** g_variant_iter_next_value */
    method Next() returns (w: Option<Value>)
      modifies this
      ensures w == if old(rest) == [] then None else Some(old(rest)[0])
      ensures rest == if old(rest) == [] then [] else old(rest)[1..]
    {
      if rest == [] {
        w := None;
      } else {
        w := Some(rest[0]);
        rest := rest[1..];
      }
    }
  }

  // ---------- reading ----------

  /** What a partial result followed by the remaining one amounts to. */
  function Joined<T>(done: seq<T>, more: Option<seq<T>>): Option<seq<T>> {
    match more
    case None => None
    case Some(xs) => Some(done + xs)
  }

  lemma JoinedNothing<T>(more: Option<seq<T>>)
    ensures Joined([], more) == more
  {
    assert forall xs: seq<T> :: [] + xs == xs;
  }

  lemma JoinedOneMore<T>(done: seq<T>, x: T, more: Option<seq<T>>)
    ensures Joined(done, Joined([x], more)) == Joined(done + [x], more)
  {
    assert forall xs: seq<T> :: done + ([x] + xs) == (done + [x]) + xs;
  }

  method ReadBasic(b: BasicHost, iter: VariantIter) returns (r: Option<BasicVal>)
    modifies iter
    ensures r.Some? <==> GetBasic(b, old(iter.rest)).Some?
    ensures r.Some? ==> GetBasic(b, old(iter.rest)).value == (r.value, iter.rest)
  {
    var w := iter.Next();
    if w == None || TypeOf(w.value) != Basic(PrimOf(b)) {
      return None;
    }
    match w.value {
      case Number(p, n) => r := Some(Int(if b == SignedByte && n >= 128 then n - 256 else n));
      case Text(s) => r := Some(Bytes(s));
      case Path(s) => r := Some(PathText(s));
    }
  }

  method ReadValue(h: Host, iter: VariantIter) returns (r: Option<HostVal>)
    modifies iter
    ensures r.Some? <==> Get(h, old(iter.rest)).Some?
    ensures r.Some? ==> Get(h, old(iter.rest)).value == (r.value, iter.rest)
    decreases h, 0
  {
    match h {
      case Leaf(b) =>
        var x := ReadBasic(b, iter);
        r := if x.Some? then Some(Plain(x.value)) else None;
      case Record(hs) =>
        var w := iter.Next();
        if w == None || !w.value.Tuple? { return None; }
        var tupIter := new VariantIter(w.value);
        var vs := ReadMembers(hs, tupIter);
        r := if vs.Some? then Some(Fields(vs.value)) else None;
      case Dict(k, e) =>
        var w := iter.Next();
        if w == None || !w.value.Items? { return None; }
        var es := ReadDict(k, e, w.value.items);
        r := if es.Some? then Some(Map(es.value)) else None;
      case Sequence(e) =>
        var w := iter.Next();
        if w == None || !w.value.Items? { return None; }
        var vs := ReadItems(e, w.value.items);
        r := if vs.Some? then Some(List(vs.value)) else None;
      case OneOf(hs) =>
        var w := iter.Next();
        if w == None || !w.value.Boxed? { return None; }
        var i := Select(hs, Signature(TypeOf(w.value.inner)));
        if i == |hs| { return Some(Default(h)); }
        var varIter := new VariantIter(w.value);
        var x := ReadValue(hs[i], varIter);
        r := if x.Some? then Some(Choice(i, x.value)) else None;
    }
  }

  method ReadMembers(hs: seq<Host>, iter: VariantIter) returns (r: Option<seq<HostVal>>)
    modifies iter
    ensures r.Some? <==> GetFields(hs, old(iter.rest)).Some?
    ensures r.Some? ==> GetFields(hs, old(iter.rest)).value == (r.value, iter.rest)
    decreases hs, 0
  {
    if hs == [] { return Some([]); }
    var v := ReadValue(hs[0], iter);
    if v == None { return None; }
    var vs := ReadMembers(hs[1..], iter);
    r := if vs.Some? then Some([v.value] + vs.value) else None;
  }

  method ReadItems(e: Host, items: seq<Value>) returns (r: Option<seq<HostVal>>)
    ensures r == GetTimes(e, |items|, items)
    decreases e, |items| + 1
  {
    var childIter := new VariantIter.Over(items);
    var values := [];
    JoinedNothing(GetTimes(e, |items|, items));
    for i := 0 to |items|
      invariant GetTimes(e, |items|, items) == Joined(values, GetTimes(e, |items| - i, childIter.rest))
    {
      var value := ReadValue(e, childIter);
      if value == None { return None; }
      JoinedOneMore(values, value.value, GetTimes(e, |items| - i - 1, childIter.rest));
      values := values + [value.value];
    }
    r := Some(values);
    assert values + [] == values;
  }

  method ReadDict(k: BasicHost, e: Host, items: seq<Value>) returns (r: Option<Entries>)
    ensures r == GetEntries(k, e, items, [])
    decreases e, |items| + 1
  {
    hide GetEntries, GetBasic, Get, Insert, Children;
    var contIter := new VariantIter.Over(items);
    var dict: Entries := [];
    NoMoreEntries(k, e, dict);
    var child := contIter.Next();
    assert items != [] ==> items == [child.value] + contIter.rest;
    while child.Some?
      invariant child.None? ==> GetEntries(k, e, items, []) == Some(dict)
      invariant child.Some? ==>
        GetEntries(k, e, items, []) == GetEntries(k, e, [child.value] + contIter.rest, dict)
      decreases |contIter.rest| + (if child.Some? then 1 else 0)
    {
      GetEntriesStep(k, e, child.value, contIter.rest, dict);
      var childIter := new VariantIter(child.value);
      var key := ReadBasic(k, childIter);
      if key == None { return None; }
      var value := ReadValue(e, childIter);
      if value == None { return None; }
      dict := Insert(KeyLess, dict, key.value, value.value);
      NoMoreEntries(k, e, dict);
      ghost var left := contIter.rest;
      child := contIter.Next();
      assert child.Some? ==> left == [child.value] + contIter.rest;
    }
    r := Some(dict);
  }

  lemma NoMoreEntries(k: BasicHost, e: Host, dict: Entries)
    ensures GetEntries(k, e, [], dict) == Some(dict)
  {
  }

  // ---------- writing ----------

  lemma WithWith(fs: seq<Frame>, a: seq<Value>, b: seq<Value>)
    requires fs != []
    ensures With(With(fs, a), b) == With(fs, a + b)
  {
    var n := |fs| - 1;
    assert With(fs, a)[..n] == fs[..n];
    assert fs[n].items + a + b == fs[n].items + (a + b);
  }

  lemma WithNothing(fs: seq<Frame>)
    requires fs != []
    ensures With(fs, []) == fs
  {
    var n := |fs| - 1;
    assert fs[n].items + [] == fs[n].items;
    assert fs == fs[..n] + [fs[n]];
  }

  lemma WithOpened(fs: seq<Frame>, ty: Ty, ws: seq<Value>)
    ensures With(fs + [Frame(ty, [])], ws) == fs + [Frame(ty, ws)]
  {
    var gs := fs + [Frame(ty, [])];
    assert gs[..|gs| - 1] == fs;
    assert [] + ws == ws;
  }

  /** Returns false for the exception. */
  method WriteBasic(b: BasicHost, v: BasicVal, builder: VariantBuilder) returns (ok: bool)
    requires builder.frames != [] && HasBasic(b, v)
    modifies builder
    ensures ok <==> AppendBasic(b, v).Some?
    ensures ok ==> builder.frames == With(old(builder.frames), [AppendBasic(b, v).value])
  {
    match (b, v) {
      case (Num(p), Int(n)) => builder.AddValue(Number(p, n));
      case (SignedByte, Int(n)) => builder.AddValue(Number(Y, if n < 0 then n + 256 else n));
      case (Str, Bytes(s)) =>
        var buffer := Sanitize(s);
        builder.AddValue(Text(buffer));
      case (ObjPath, PathText(s)) =>
        if !IsObjectPath(Strings.CStr(s)) { return false; }
        builder.AddValue(Path(Strings.CStr(s)));
    }
    ok := true;
  }

  method WriteValue(h: Host, v: HostVal, builder: VariantBuilder) returns (ok: bool)
    requires builder.frames != [] && HasType(h, v)
    modifies builder
    ensures ok <==> Append(h, v).Some?
    ensures ok ==> builder.frames == With(old(builder.frames), [Append(h, v).value])
    decreases h, 0
  {
    if h.Leaf? {
      ok := WriteBasic(h.b, v.b, builder);
      return;
    }
    ghost var fs := builder.frames;
    GetTypeIsSignature(h);
    builder.Open(GetType(h), WireOf(h));
    ghost var ws: seq<Value>;
    match (h, v) {
      case (Record(hs), Fields(vs)) =>
        ok := WriteMembers(hs, vs, builder);
        ws := if ok then AppendFields(hs, vs).value else [];
      case (Dict(k, e), Map(es)) =>
        ok := WriteEntries(k, e, es, builder);
        ws := if ok then AppendEntries(k, e, es).value else [];
      case (Sequence(e), List(vs)) =>
        ok := WriteItems(e, vs, builder);
        ws := if ok then AppendItems(e, vs).value else [];
      case (OneOf(hs), Choice(i, x)) =>
        ok := WriteValue(hs[i], x, builder);
        ws := if ok then [Append(hs[i], x).value] else [];
    }
    if !ok { return; }
    WithOpened(fs, WireOf(h), ws);
    assert builder.frames[..|builder.frames| - 1] == fs;
    builder.Close();
  }

  method WriteMembers(hs: seq<Host>, vs: seq<HostVal>, builder: VariantBuilder) returns (ok: bool)
    requires builder.frames != [] && HaveTypes(hs, vs)
    modifies builder
    ensures ok <==> AppendFields(hs, vs).Some?
    ensures ok ==> builder.frames == With(old(builder.frames), AppendFields(hs, vs).value)
    decreases hs, 0
  {
    if hs == [] {
      WithNothing(builder.frames);
      return true;
    }
    ok := WriteValue(hs[0], vs[0], builder);
    if !ok { return; }
    ok := WriteMembers(hs[1..], vs[1..], builder);
    if ok {
      WithWith(old(builder.frames), [Append(hs[0], vs[0]).value], AppendFields(hs[1..], vs[1..]).value);
    }
  }

  method WriteItems(e: Host, vs: seq<HostVal>, builder: VariantBuilder) returns (ok: bool)
    requires builder.frames != [] && forall i :: 0 <= i < |vs| ==> HasType(e, vs[i])
    modifies builder
    ensures ok <==> AppendItems(e, vs).Some?
    ensures ok ==> builder.frames == With(old(builder.frames), AppendItems(e, vs).value)
    decreases e, |vs| + 1
  {
    WithNothing(builder.frames);
    ghost var done := [];
    assert vs[0..] == vs;
    JoinedNothing(AppendItems(e, vs));
    for i := 0 to |vs|
      invariant builder.frames == With(old(builder.frames), done)
      invariant AppendItems(e, vs) == Joined(done, AppendItems(e, vs[i..]))
    {
      ok := WriteValue(e, vs[i], builder);
      assert vs[i..][1..] == vs[i + 1..];
      if !ok { return; }
      ghost var w := Append(e, vs[i]).value;
      WithWith(old(builder.frames), done, [w]);
      JoinedOneMore(done, w, AppendItems(e, vs[i + 1..]));
      done := done + [w];
    }
    assert done + [] == done;
    ok := true;
  }

  method WriteEntries(k: BasicHost, e: Host, es: Entries, builder: VariantBuilder) returns (ok: bool)
    requires builder.frames != []
    requires forall i :: 0 <= i < |es| ==> HasBasic(k, es[i].key) && HasType(e, es[i].value)
    modifies builder
    ensures ok <==> AppendEntries(k, e, es).Some?
    ensures ok ==> builder.frames == With(old(builder.frames), AppendEntries(k, e, es).value)
    decreases e, |es| + 1
  {
    ghost var fs := builder.frames;
    WithNothing(fs);
    ghost var done := [];
    assert es[0..] == es;
    JoinedNothing(AppendEntries(k, e, es));
    for i := 0 to |es|
      invariant builder.frames == With(fs, done)
      invariant AppendEntries(k, e, es) == Joined(done, AppendEntries(k, e, es[i..]))
    {
      assert es[i..][1..] == es[i + 1..];
      ok := WriteEntry(k, e, es[i], builder);
      if !ok { return; }
      ghost var w := Entry(AppendBasic(k, es[i].key).value, Append(e, es[i].value).value);
      WithWith(fs, done, [w]);
      JoinedOneMore(done, w, AppendEntries(k, e, es[i + 1..]));
      done := done + [w];
    }
    assert done + [] == done;
    ok := true;
  }

  method WriteEntry(k: BasicHost, e: Host, p: Pair<BasicVal, HostVal>, builder: VariantBuilder) returns (ok: bool)
    requires builder.frames != [] && HasBasic(k, p.key) && HasType(e, p.value)
    modifies builder
    ensures ok <==> AppendBasic(k, p.key).Some? && Append(e, p.value).Some?
    ensures ok ==> var w := Entry(AppendBasic(k, p.key).value, Append(e, p.value).value);
      builder.frames == With(old(builder.frames), [w])
    decreases e, 1
  {
    ghost var fs := builder.frames;
    ghost var ty := DictEntry(PrimOf(k), WireOf(e));
    GetTypeIsSignature(e);
    builder.Open("{" + [Code(PrimOf(k))] + GetType(e) + "}", ty);
    ok := WriteBasic(k, p.key, builder);
    if !ok { return; }
    ghost var wk := AppendBasic(k, p.key).value;
    ok := WriteValue(e, p.value, builder);
    if !ok { return; }
    ghost var wv := Append(e, p.value).value;
    WithWith(fs + [Frame(ty, [])], [wk], [wv]);
    assert [wk] + [wv] == [wk, wv];
    WithOpened(fs, ty, [wk, wv]);
    assert builder.frames[..|builder.frames| - 1] == fs;
    builder.Close();
  }

  /** A value that is written by the builder and read by an iterator of any type with the
      same signature comes back as Received says. */
  method Transport(g: Host, h: Host, v: HostVal) returns (r: Option<HostVal>)
    requires Good(g) && Good(h) && WireOf(g) == WireOf(h) && HasType(h, v)
    ensures r.Some? <==> PathsValid(v)
    ensures r.Some? ==> r.value == Received(g, h, v)
    ensures r.Some? && g == h ==> (r.value == v <==> Clean(v) && Distinguished(h, v))
  {
    AppendDefined(h, v);
    var builder := new VariantBuilder();
    var ok := WriteValue(h, v, builder);
    if !ok { return None; }
    var w := Append(h, v).value;
    WithOpened([], Struct([]), [w]);
    assert [] + [Frame(Struct([]), [])] == [Frame(Struct([]), [])];
    assert [] + [Frame(Struct([]), [w])] == [Frame(Struct([]), [w])];
    var iter := new VariantIter(Closed(builder.frames[0]));
    GetAfterAppend(g, h, v, []);
    assert [w] + [] == [w];
    r := ReadValue(g, iter);
    ReceivedUnchanged(h, v);
  }
}
