/** A method call from the client's call operator to the client's return value:
    append, server-side Get for each parameter, the function, `+ r << Set` for the
    reply, demarshalling. The per-arity templates are modelled once, over a list of
    parameters. */
module RemoteCall {
  import opened Wrappers
  import opened Wire
  import opened Marshal
  import opened RoundTrip

  /** Parameters that are filled from the message itself. */
  datatype Pseudo = Caller | ObjectPath | InterfaceName | MemberName | PeerWatch

  datatype Param =
    | In(h: Host)        // plain type or const reference
    | Out(h: Host)       // writable reference
    | Meta(kind: Pseudo)
    | Result(hs: seq<Host>)   // shared_ptr<Result*>, through which the function replies later

  datatype Method = Method(ret: Option<Host>, params: seq<Param>)

  /** The C++ types that the caller uses for arguments and results. */
  datatype Stub = Stub(args: seq<Host>, results: seq<Host>)

  datatype Attributes = Attributes(
    sender: Option<string>, path: Option<string>, iface: Option<string>, member: Option<string>)

  /** What the function sees for a parameter that is not an output. */
  datatype Arg = Given(v: HostVal) | Attribute(s: string)

  /** Return value first if there is one, then the outputs in order. */
  datatype Outcome = Returned(vs: seq<HostVal>) | Thrown(error: string)

  const MARSHAL_ERROR := "g_variant failure"
  const ARGUMENT_ERROR := "org.freedesktop.DBus.Error.InvalidArgs"

  // ---------- the declared interface ----------

  /** dbus_traits<A>::getSignature() */
  function ParamSignature(p: Param): string {
    match p
    case In(h) => GetType(h)
    case Out(_) => ""
    case Meta(_) => ""
    case Result(_) => ""
  }

  /** dbus_traits<A>::getReply() */
  function ParamReply(p: Param): string {
    match p
    case In(_) => ""
    case Out(h) => GetType(h)
    case Meta(_) => ""
    case Result(hs) => GetContainedType(hs)
  }

  /** appendArgInfo: an empty signature adds no argument. */
  function InArgs(ps: seq<Param>): seq<string> {
    if ps == [] then []
    else if ParamSignature(ps[0]) == "" then InArgs(ps[1..])
    else [ParamSignature(ps[0])] + InArgs(ps[1..])
  }

  function OutArgsOf(ps: seq<Param>): seq<string> {
    if ps == [] then []
    else if ParamReply(ps[0]) == "" then OutArgsOf(ps[1..])
    else [ParamReply(ps[0])] + OutArgsOf(ps[1..])
  }

  function OutArgs(m: Method): seq<string> {
    (if m.ret.Some? then [GetType(m.ret.value)] else []) + OutArgsOf(m.params)
  }

  function Concat(ss: seq<string>): string {
    if ss == [] then "" else ss[0] + Concat(ss[1..])
  }

  function InTypes(ps: seq<Param>): seq<Host> {
    if ps == [] then []
    else if ps[0].In? then [ps[0].h] + InTypes(ps[1..])
    else InTypes(ps[1..])
  }

  function OutTypes(ps: seq<Param>): seq<Host> {
    if ps == [] then []
    else if ps[0].Out? then [ps[0].h] + OutTypes(ps[1..])
    else OutTypes(ps[1..])
  }

  function ResultTypes(m: Method): seq<Host> {
    (if m.ret.Some? then [m.ret.value] else []) + OutTypes(m.params)
  }

  /** All types that are declared as replies, those of Result objects included. */
  function ReplyTypes(ps: seq<Param>): seq<Host> {
    if ps == [] then []
    else if ps[0].Out? then [ps[0].h] + ReplyTypes(ps[1..])
    else if ps[0].Result? then ps[0].hs + ReplyTypes(ps[1..])
    else ReplyTypes(ps[1..])
  }

  function DeclaredTypes(m: Method): seq<Host> {
    (if m.ret.Some? then [m.ret.value] else []) + ReplyTypes(m.params)
  }

  predicate Synchronous(ps: seq<Param>) {
    forall i :: 0 <= i < |ps| ==> !ps[i].Result?
  }

  predicate GoodMethod(m: Method) {
    AllGood(InTypes(m.params)) && AllGood(ResultTypes(m))
  }

  /** The caller's types need not be those of the method, but they have the same
      signatures. */
  predicate Agrees(c: Stub, m: Method) {
    && AllGood(c.args) && AllGood(c.results)
    && WiresOf(c.args) == WiresOf(InTypes(m.params))
    && WiresOf(c.results) == WiresOf(ResultTypes(m))
  }

  // ---------- the server ----------

  function GetMeta(kind: Pseudo, a: Attributes): Option<string> {
    match kind
    case Caller => a.sender
    case PeerWatch => a.sender
    case ObjectPath => a.path
    case InterfaceName => a.iface
    case MemberName => a.member
  }

  /** ExtractArgs(conn, msg) >> Get<A1>(a1) >> Get<A2>(a2) >> ... */
  function Extract(ps: seq<Param>, it: seq<Value>, a: Attributes): (r: Option<seq<Arg>>)
  {
    if ps == [] then Some([])
    else
      match ps[0]
      case In(h) =>
        var (v, rest) :- Get(h, it);
        var args :- Extract(ps[1..], rest, a);
        Some([Given(v)] + args)
      case Out(_) => Extract(ps[1..], it, a)
      case Result(_) => Extract(ps[1..], it, a)
      case Meta(kind) =>
        var s :- GetMeta(kind, a);
        var args :- Extract(ps[1..], it, a);
        Some([Attribute(s)] + args)
  }

  /** `<< Set<A1>(a1) << Set<A2>(a2) << ...`: only the outputs are appended. */
  function SetAll(ps: seq<Param>, outs: seq<HostVal>): (ws: Option<seq<Value>>)
  {
    if ps == [] then Some([])
    else if ps[0].Out? && outs != [] then
      var w :- Append(ps[0].h, outs[0]);
      var ws :- SetAll(ps[1..], outs[1..]);
      Some([w] + ws)
    else SetAll(ps[1..], outs)
  }

  /** AppendArgs(reply) + r << ... */
  function AppendReply(m: Method, vs: seq<HostVal>): (ws: Option<seq<Value>>)
  {
    if m.ret.Some? && vs != [] then
      var w :- Append(m.ret.value, vs[0]);
      var ws :- SetAll(m.params, vs[1..]);
      Some([w] + ws)
    else SetAll(m.params, vs)
  }

  datatype Reply = Values(body: Value) | Error(error: string)

  /** GIO compares the body with the declared arguments before it calls the handler. */
  predicate Accepted(m: Method, body: Value) {
    Signature(TypeOf(body)) == "(" + Concat(InArgs(m.params)) + ")" && body.Tuple?
  }

  /** A method without Result parameters. */
  function Serve(m: Method, body: Value, a: Attributes, f: seq<Arg> -> Outcome): (r: Reply)
  {
    if !Accepted(m, body) then Error(ARGUMENT_ERROR)
    else
      match Extract(m.params, body.items, a)
      case None => Error(MARSHAL_ERROR)
      case Some(args) =>
        match f(args)
        case Thrown(e) => Error(e)
        case Returned(vs) =>
          match AppendReply(m, vs)
          case None => Error(MARSHAL_ERROR)
          case Some(ws) => Values(Tuple(ws))
  }

  // ---------- the client ----------

  function Demarshal(hs: seq<Host>, r: Reply): Outcome {
    match r
    case Error(e) => Thrown(e)
    case Values(body) =>
      match GetFields(hs, Children(body))
      case None => Thrown(MARSHAL_ERROR)
      case Some((vs, _)) => Returned(vs)
  }

  function Call(c: Stub, m: Method, args: seq<HostVal>, a: Attributes, f: seq<Arg> -> Outcome): Outcome {
    match AppendFields(c.args, args)
    case None => Thrown(MARSHAL_ERROR)
    case Some(ws) => Demarshal(c.results, Serve(m, Tuple(ws), a, f))
  }

  // ---------- calling the function directly ----------

  /** The argument list of the direct call: inputs from the caller, pseudo-parameters
      from the message. */
  function Arguments(ps: seq<Param>, args: seq<HostVal>, a: Attributes): Option<seq<Arg>> {
    if ps == [] then Some([])
    else
      match ps[0]
      case In(_) =>
        if args == [] then None else
        var rest :- Arguments(ps[1..], args[1..], a);
        Some([Given(args[0])] + rest)
      case Out(_) => Arguments(ps[1..], args, a)
      case Result(_) => Arguments(ps[1..], args, a)
      case Meta(kind) =>
        var s :- GetMeta(kind, a);
        var rest :- Arguments(ps[1..], args, a);
        Some([Attribute(s)] + rest)
  }

  /** The parameter is filled from a field that the message does not have. */
  predicate FieldMissing(p: Param, a: Attributes) {
    || ((p == Meta(Caller) || p == Meta(PeerWatch)) && a.sender == None)
    || (p == Meta(ObjectPath) && a.path == None)
    || (p == Meta(InterfaceName) && a.iface == None)
    || (p == Meta(MemberName) && a.member == None)
  }

  predicate AttributesPresent(ps: seq<Param>, a: Attributes) {
    forall i :: 0 <= i < |ps| ==> !FieldMissing(ps[i], a)
  }

  /** Every value the function returns for these arguments has its declared type. */
  predicate ResultsTyped(m: Method, o: Outcome) {
    o.Returned? ==> HaveTypes(ResultTypes(m), o.vs)
  }

  predicate AllPathsValid(vs: seq<HostVal>) {
    forall i :: 0 <= i < |vs| ==> PathsValid(vs[i])
  }

  predicate AllClean(vs: seq<HostVal>) {
    forall i :: 0 <= i < |vs| ==> Clean(vs[i])
  }

  // ---------- the transmitted types are the declared ones ----------

  lemma {:induction false} InArgsAreTypes(ps: seq<Param>)
    ensures Concat(InArgs(ps)) == Signatures(WiresOf(InTypes(ps)))
  {
    if ps != [] {
      InArgsAreTypes(ps[1..]);
      if ps[0].In? {
        GetTypeIsSignature(ps[0].h);
        FirstCharacter(WireOf(ps[0].h));
        assert WiresOf(InTypes(ps))[1..] == WiresOf(InTypes(ps[1..]));
        assert InArgs(ps)[1..] == InArgs(ps[1..]);
        assert InTypes(ps)[1..] == InTypes(ps[1..]);
      }
    }
  }

  lemma {:induction false} OutArgsAreTypes(ps: seq<Param>)
    ensures Concat(OutArgsOf(ps)) == Signatures(WiresOf(ReplyTypes(ps)))
  {
    if ps != [] {
      OutArgsAreTypes(ps[1..]);
      if ps[0].Out? {
        GetTypeIsSignature(ps[0].h);
        FirstCharacter(WireOf(ps[0].h));
        assert WiresOf(ReplyTypes(ps))[1..] == WiresOf(ReplyTypes(ps[1..]));
        assert OutArgsOf(ps)[1..] == OutArgsOf(ps[1..]);
        assert ReplyTypes(ps)[1..] == ReplyTypes(ps[1..]);
      } else if ps[0].Result? {
        var hs := ps[0].hs;
        GetContainedTypeIsSignature(hs);
        WiresConcat(hs, ReplyTypes(ps[1..]));
        if GetContainedType(hs) != "" {
          assert OutArgsOf(ps)[1..] == OutArgsOf(ps[1..]);
        } else {
          assert "" + Concat(OutArgsOf(ps[1..])) == Concat(OutArgsOf(ps[1..]));
        }
      }
    }
  }

  lemma WiresConcat(hs: seq<Host>, gs: seq<Host>)
    ensures WiresOf(hs + gs) == WiresOf(hs) + WiresOf(gs)
    ensures Signatures(WiresOf(hs + gs)) == Signatures(WiresOf(hs)) + Signatures(WiresOf(gs))
  {
    assert WiresOf(hs + gs) == WiresOf(hs) + WiresOf(gs);
    SignaturesConcat(WiresOf(hs), WiresOf(gs));
  }

  /** The declared out-arguments: the return value, the writable references, and what
      Result objects deliver. */
  lemma DeclaredArgsAreTypes(m: Method)
    ensures Concat(OutArgs(m)) == Signatures(WiresOf(DeclaredTypes(m)))
  {
    OutArgsAreTypes(m.params);
    if m.ret.Some? {
      GetTypeIsSignature(m.ret.value);
      assert OutArgs(m)[1..] == OutArgsOf(m.params);
      assert DeclaredTypes(m)[1..] == ReplyTypes(m.params);
      assert WiresOf(DeclaredTypes(m))[1..] == WiresOf(ReplyTypes(m.params));
    } else {
      assert OutArgs(m) == OutArgsOf(m.params);
      assert DeclaredTypes(m) == ReplyTypes(m.params);
    }
  }

  lemma {:induction false} SynchronousTypes(ps: seq<Param>)
    requires Synchronous(ps)
    ensures ReplyTypes(ps) == OutTypes(ps)
  {
    if ps != [] {
      assert forall i :: 1 <= i < |ps| ==> ps[i] == ps[1..][i - 1];
      SynchronousTypes(ps[1..]);
    }
  }

  /** The request carries exactly the declared input types and passes the check. */
  lemma RequestType(c: Stub, m: Method, args: seq<HostVal>)
    requires Agrees(c, m) && HaveTypes(c.args, args) && AppendFields(c.args, args).Some?
    ensures Accepted(m, Tuple(AppendFields(c.args, args).value))
  {
    AppendFieldsTyped(c.args, args);
    InArgsAreTypes(m.params);
  }

  /** A request with other types is refused before any code of the method runs. */
  lemma OtherTypesAreRefused(c: Stub, m: Method, args: seq<HostVal>, a: Attributes, f: seq<Arg> -> Outcome)
    requires AllGood(c.args) && HaveTypes(c.args, args) && AppendFields(c.args, args).Some?
    requires WiresOf(c.args) != WiresOf(InTypes(m.params))
    ensures Call(c, m, args, a, f) == Thrown(ARGUMENT_ERROR)
  {
    var body := Tuple(AppendFields(c.args, args).value);
    AppendFieldsTyped(c.args, args);
    if Accepted(m, body) {
      CheckedBody(m, body);
    }
  }

  /** The reply to a synchronous call carries exactly the declared output types. */
  lemma ReplyType(m: Method, vs: seq<HostVal>)
    requires GoodMethod(m) && Synchronous(m.params)
    requires HaveTypes(ResultTypes(m), vs) && AppendReply(m, vs).Some?
    ensures Signature(TypeOf(Tuple(AppendReply(m, vs).value))) == "(" + Concat(OutArgs(m)) + ")"
  {
    HaveTypesLength(ResultTypes(m), vs);
    ReplyAppends(m, vs);
    AppendFieldsTyped(ResultTypes(m), vs);
    SynchronousTypes(m.params);
    DeclaredArgsAreTypes(m);
  }

  lemma HaveTypesLength(hs: seq<Host>, vs: seq<HostVal>)
    requires HaveTypes(hs, vs)
    ensures |hs| == |vs|
  {
  }

  /** A body that passes the check of its signature has exactly the declared types. */
  lemma CheckedBody(m: Method, body: Value)
    requires Signature(TypeOf(body)) == "(" + Concat(InArgs(m.params)) + ")"
    ensures body.Tuple? && TypesOf(body.items) == WiresOf(InTypes(m.params))
  {
    InArgsAreTypes(m.params);
    var want := Struct(WiresOf(InTypes(m.params)));
    SignatureEquality(TypeOf(body), want);
  }

  /** Extraction from a body that passed the check throws only if a message attribute
      is missing, whoever sent the message. */
  lemma ExtractTotal(m: Method, body: Value, a: Attributes)
    requires GoodMethod(m) && WellFormed(body)
    requires Signature(TypeOf(body)) == "(" + Concat(InArgs(m.params)) + ")"
    ensures Extract(m.params, Children(body), a).Some? <==> AttributesPresent(m.params, a)
  {
    CheckedBody(m, body);
    ExtractAllTotal(m.params, body.items, a);
  }

  lemma {:induction false} ExtractAllTotal(ps: seq<Param>, it: seq<Value>, a: Attributes)
    requires AllGood(InTypes(ps)) && AllWellFormed(it)
    requires TypesOf(it) == WiresOf(InTypes(ps))
    ensures Extract(ps, it, a).Some? <==> AttributesPresent(ps, a)
    decreases |ps|
  {
    if ps != [] {
      assert forall i :: 1 <= i < |ps| ==> ps[i] == ps[1..][i - 1];
      if ps[0].In? {
        var hs := InTypes(ps);
        assert TypesOf(it)[0] == WiresOf(hs)[0] && hs[1..] == InTypes(ps[1..]);
        assert TypesOf(it[1..]) == TypesOf(it)[1..] && WiresOf(hs[1..]) == WiresOf(hs)[1..];
        GetTotal(hs[0], it[0], it[1..]);
        assert [it[0]] + it[1..] == it;
        ExtractAllTotal(ps[1..], it[1..], a);
      } else {
        ExtractAllTotal(ps[1..], it, a);
      }
    }
  }

  // ---------- a remote call means the local call ----------

  /** The function sees what the caller's arguments become, and the message attributes. */
  lemma {:induction false} ExtractAfterAppend(
    ps: seq<Param>, hs: seq<Host>, args: seq<HostVal>, a: Attributes)
    requires AllGood(InTypes(ps)) && AllGood(hs) && WiresOf(hs) == WiresOf(InTypes(ps))
    requires HaveTypes(hs, args) && AppendFields(hs, args).Some?
    ensures Extract(ps, AppendFields(hs, args).value, a)
      == Arguments(ps, ReceivedFields(InTypes(ps), hs, args), a)
    decreases |ps|
  {
    hide Append, Get, Received, Good, HasType, WireOf;
    if ps != [] {
      if ps[0].In? {
        var gs := InTypes(ps);
        assert gs[1..] == InTypes(ps[1..]);
        assert WiresOf(gs)[0] == WiresOf(hs)[0];
        assert WiresOf(gs)[1..] == WiresOf(gs[1..]) && WiresOf(hs)[1..] == WiresOf(hs[1..]);
        var w, ws := Append(hs[0], args[0]).value, AppendFields(hs[1..], args[1..]).value;
        GetAfterAppend(gs[0], hs[0], args[0], ws);
        var rs := ReceivedFields(gs, hs, args);
        assert rs[1..] == ReceivedFields(gs[1..], hs[1..], args[1..]);
        ExtractAfterAppend(ps[1..], hs[1..], args[1..], a);
      } else {
        ExtractAfterAppend(ps[1..], hs, args, a);
      }
    }
  }

  // ---------- which argument stands where ----------

  /** The function has an argument for each input and each pseudo-parameter. */
  function ArgumentsBefore(ps: seq<Param>, i: nat): nat
    requires i <= |ps|
  {
    if i == 0 then 0 else ArgumentsBefore(ps, i - 1) + (if ps[i - 1].In? || ps[i - 1].Meta? then 1 else 0)
  }

  function InputsBefore(ps: seq<Param>, i: nat): nat
    requires i <= |ps|
  {
    if i == 0 then 0 else InputsBefore(ps, i - 1) + (if ps[i - 1].In? then 1 else 0)
  }

  lemma {:induction false} CountsShift(ps: seq<Param>, i: nat)
    requires 0 < i <= |ps|
    ensures ArgumentsBefore(ps, i) == (if ps[0].In? || ps[0].Meta? then 1 else 0) + ArgumentsBefore(ps[1..], i - 1)
    ensures InputsBefore(ps, i) == (if ps[0].In? then 1 else 0) + InputsBefore(ps[1..], i - 1)
  {
    if i > 1 { CountsShift(ps, i - 1); }
  }

  lemma {:induction false} InputTypeAt(ps: seq<Param>, i: nat)
    requires i < |ps| && ps[i].In?
    ensures InputsBefore(ps, i) < |InTypes(ps)| && InTypes(ps)[InputsBefore(ps, i)] == ps[i].h
  {
    if i > 0 {
      CountsShift(ps, i);
      InputTypeAt(ps[1..], i - 1);
    }
  }

  /** The argument that stands for parameter `i`, if `ins` are the input values. */
  predicate StandsFor(p: Param, ins: seq<HostVal>, k: nat, a: Attributes, x: Arg) {
    match p
    case In(_) => k < |ins| && x == Given(ins[k])
    case Meta(Caller) => x.Attribute? && a.sender == Some(x.s)
    case Meta(PeerWatch) => x.Attribute? && a.sender == Some(x.s)
    case Meta(ObjectPath) => x.Attribute? && a.path == Some(x.s)
    case Meta(InterfaceName) => x.Attribute? && a.iface == Some(x.s)
    case Meta(MemberName) => x.Attribute? && a.member == Some(x.s)
    case Out(_) => false
    case Result(_) => false
  }

  lemma {:induction false} ArgumentAt(ps: seq<Param>, ins: seq<HostVal>, a: Attributes, i: nat)
    requires Arguments(ps, ins, a).Some? && |ins| == |InTypes(ps)| && i < |ps| && (ps[i].In? || ps[i].Meta?)
    ensures var xs := Arguments(ps, ins, a).value;
      && ArgumentsBefore(ps, i) < |xs|
      && StandsFor(ps[i], ins, InputsBefore(ps, i), a, xs[ArgumentsBefore(ps, i)])
    decreases |ps|
  {
    if i > 0 {
      CountsShift(ps, i);
      ArgumentAt(ps[1..], if ps[0].In? then ins[1..] else ins, a, i - 1);
    }
  }

  lemma {:induction false} ArgumentCount(ps: seq<Param>, ins: seq<HostVal>, a: Attributes)
    requires Arguments(ps, ins, a).Some?
    ensures |Arguments(ps, ins, a).value| == ArgumentsBefore(ps, |ps|)
    decreases |ps|
  {
    if ps != [] {
      CountsShift(ps, |ps|);
      ArgumentCount(ps[1..], if ps[0].In? then ins[1..] else ins, a);
    }
  }

  lemma {:induction false} ArgumentsMissing(ps: seq<Param>, ins: seq<HostVal>, a: Attributes)
    requires |ins| == |InTypes(ps)|
    ensures Arguments(ps, ins, a) == None <==> exists i :: 0 <= i < |ps| && FieldMissing(ps[i], a)
    decreases |ps|
  {
    if ps != [] {
      ArgumentsMissing(ps[1..], if ps[0].In? then ins[1..] else ins, a);
      if i :| 0 <= i < |ps[1..]| && FieldMissing(ps[1..][i], a) {
        assert FieldMissing(ps[i + 1], a);
      }
      assert forall i :: 1 <= i < |ps| ==> ps[i] == ps[1..][i - 1];
    }
  }

  lemma {:induction false} ReceivedFieldAt(gs: seq<Host>, hs: seq<Host>, vs: seq<HostVal>, k: nat)
    requires |gs| == |hs| == |vs| && k < |vs|
    ensures |ReceivedFields(gs, hs, vs)| == |vs|
    ensures ReceivedFields(gs, hs, vs)[k] == Received(gs[k], hs[k], vs[k])
  {
    if |vs| > 1 {
      ReceivedFieldAt(gs[1..], hs[1..], vs[1..], if k > 0 then k - 1 else 0);
    }
  }

  lemma {:induction false} ReceivedLength(gs: seq<Host>, hs: seq<Host>, vs: seq<HostVal>)
    requires |gs| == |hs| == |vs|
    ensures |ReceivedFields(gs, hs, vs)| == |vs|
  {
    if vs != [] { ReceivedLength(gs[1..], hs[1..], vs[1..]); }
  }

  /** What the handler extracts from a request, parameter by parameter: the k-th input is
      what the k-th value of the caller becomes, the caller and its watch are the sender of
      the message, and the others its path, interface and member. Extraction throws
      exactly if a field that is asked for is missing. */
  lemma ExtractedAt(ps: seq<Param>, hs: seq<Host>, args: seq<HostVal>, a: Attributes, i: nat)
    requires AllGood(InTypes(ps)) && AllGood(hs) && WiresOf(hs) == WiresOf(InTypes(ps))
    requires HaveTypes(hs, args) && AppendFields(hs, args).Some?
    ensures var r := Extract(ps, AppendFields(hs, args).value, a);
      && (r == None <==> exists j :: 0 <= j < |ps| && FieldMissing(ps[j], a))
      && (r.Some? ==> |r.value| == ArgumentsBefore(ps, |ps|))
      && (r.Some? && i < |ps| && (ps[i].In? || ps[i].Meta?) ==>
        var n, k := ArgumentsBefore(ps, i), InputsBefore(ps, i);
        && n < |r.value|
        && match ps[i]
           case In(h) => k < |hs| == |args| && r.value[n] == Given(Received(h, hs[k], args[k]))
           case Meta(Caller) => a.sender.Some? && r.value[n] == Attribute(a.sender.value)
           case Meta(PeerWatch) => a.sender.Some? && r.value[n] == Attribute(a.sender.value)
           case Meta(ObjectPath) => a.path.Some? && r.value[n] == Attribute(a.path.value)
           case Meta(InterfaceName) => a.iface.Some? && r.value[n] == Attribute(a.iface.value)
           case Meta(MemberName) => a.member.Some? && r.value[n] == Attribute(a.member.value)
           case _ => true)
  {
    hide Arguments, Extract, GetMeta, Received, ReceivedFields, AppendFields, HaveTypes, InTypes,
      ArgumentsBefore, InputsBefore, FieldMissing, AllGood;
    var gs := InTypes(ps);
    var ins := ReceivedFields(gs, hs, args);
    HaveTypesLength(hs, args);
    assert |WiresOf(gs)| == |gs| && |WiresOf(hs)| == |hs|;
    ReceivedLength(gs, hs, args);
    ExtractAfterAppend(ps, hs, args, a);
    ArgumentsMissing(ps, ins, a);
    if Arguments(ps, ins, a).Some? {
      ArgumentCount(ps, ins, a);
      if i < |ps| && (ps[i].In? || ps[i].Meta?) {
        ArgumentAt(ps, ins, a, i);
        if ps[i].In? {
          InputTypeAt(ps, i);
          ReceivedFieldAt(gs, hs, args, InputsBefore(ps, i));
        }
      }
    }
  }

  function OutputsBefore(ps: seq<Param>, i: nat): nat
    requires i <= |ps|
  {
    if i == 0 then 0 else OutputsBefore(ps, i - 1) + (if ps[i - 1].Out? then 1 else 0)
  }

  lemma {:induction false} OutputsShift(ps: seq<Param>, i: nat)
    requires 0 < i <= |ps|
    ensures OutputsBefore(ps, i) == (if ps[0].Out? then 1 else 0) + OutputsBefore(ps[1..], i - 1)
  {
    if i > 1 { OutputsShift(ps, i - 1); }
  }

  lemma {:induction false} OutputTypeAt(ps: seq<Param>, i: nat)
    requires i < |ps| && ps[i].Out?
    ensures OutputsBefore(ps, i) < |OutTypes(ps)| && OutTypes(ps)[OutputsBefore(ps, i)] == ps[i].h
  {
    if i > 0 {
      OutputsShift(ps, i);
      OutputTypeAt(ps[1..], i - 1);
    }
  }

  /** The reply has the return value first, and then each writable reference in its
      place. */
  lemma ResultTypeAt(m: Method, i: nat)
    ensures var first := if m.ret.Some? then 1 else 0;
      && (m.ret.Some? ==> |ResultTypes(m)| > 0 && ResultTypes(m)[0] == m.ret.value)
      && (i < |m.params| && m.params[i].Out? ==>
        var k := first + OutputsBefore(m.params, i);
        k < |ResultTypes(m)| && ResultTypes(m)[k] == m.params[i].h)
  {
    if i < |m.params| && m.params[i].Out? {
      OutputTypeAt(m.params, i);
    }
  }

  lemma {:induction false} SetAllAppends(ps: seq<Param>, outs: seq<HostVal>)
    requires |OutTypes(ps)| == |outs|
    ensures SetAll(ps, outs) == AppendFields(OutTypes(ps), outs)
    decreases |ps|
  {
    if ps != [] {
      if ps[0].Out? {
        assert OutTypes(ps)[1..] == OutTypes(ps[1..]);
        SetAllAppends(ps[1..], outs[1..]);
      } else {
        SetAllAppends(ps[1..], outs);
      }
    }
  }

  lemma ReplyAppends(m: Method, vs: seq<HostVal>)
    requires |ResultTypes(m)| == |vs|
    ensures AppendReply(m, vs) == AppendFields(ResultTypes(m), vs)
  {
    if m.ret.Some? {
      assert ResultTypes(m)[1..] == OutTypes(m.params);
      SetAllAppends(m.params, vs[1..]);
    } else {
      assert ResultTypes(m) == OutTypes(m.params);
      SetAllAppends(m.params, vs);
    }
  }

  /** What the caller gets when the results `vs` of types `hs` were sent to it. */
  function Delivered(gs: seq<Host>, hs: seq<Host>, vs: seq<HostVal>): Outcome {
    if AllPathsValid(vs) then Returned(ReceivedFields(gs, hs, vs)) else Thrown(MARSHAL_ERROR)
  }

  function ReplyWith(ws: Option<seq<Value>>): Reply {
    match ws
    case None => Error(MARSHAL_ERROR)
    case Some(values) => Values(Tuple(values))
  }

  lemma DemarshalAfterReply(gs: seq<Host>, hs: seq<Host>, vs: seq<HostVal>)
    requires AllGood(gs) && AllGood(hs) && WiresOf(gs) == WiresOf(hs) && HaveTypes(hs, vs)
    ensures Demarshal(gs, ReplyWith(AppendFields(hs, vs))) == Delivered(gs, hs, vs)
  {
    AppendFieldsDefined(hs, vs);
    if AppendFields(hs, vs).Some? {
      GetAfterAppendFields(gs, hs, vs, []);
      var ws := AppendFields(hs, vs).value;
      assert ws + [] == ws;
    }
  }

  /** The arguments that reach the function, if none of them is missing. */
  function Reaching(c: Stub, m: Method, args: seq<HostVal>, a: Attributes): Option<seq<Arg>> {
    Arguments(m.params, ReceivedFields(InTypes(m.params), c.args, args), a)
  }

  /** For every synchronous method, caller, argument list and function: the remote call is
      the direct call on what the arguments become, with what the results become. */
  lemma RemoteCallIsLocalCall(c: Stub, m: Method, args: seq<HostVal>, a: Attributes, f: seq<Arg> -> Outcome)
    requires GoodMethod(m) && Synchronous(m.params) && Agrees(c, m) && HaveTypes(c.args, args)
    requires var xs := Reaching(c, m, args, a); xs.Some? ==> ResultsTyped(m, f(xs.value))
    ensures Call(c, m, args, a, f) ==
      if !AllPathsValid(args) then Thrown(MARSHAL_ERROR)
      else
        match Reaching(c, m, args, a)
        case None => Thrown(MARSHAL_ERROR)
        case Some(xs) =>
          match f(xs)
          case Thrown(e) => Thrown(e)
          case Returned(vs) => Delivered(c.results, ResultTypes(m), vs)
  {
    hide Append, Get, Received, Good, HasType, Delivered, AppendReply, Accepted, WireOf;
    AppendFieldsDefined(c.args, args);
    if AllPathsValid(args) {
      RequestType(c, m, args);
      ExtractAfterAppend(m.params, c.args, args, a);
      var xs := Reaching(c, m, args, a);
      if xs.Some? && f(xs.value).Returned? {
        var vs := f(xs.value).vs;
        HaveTypesLength(ResultTypes(m), vs);
        ReplyAppends(m, vs);
        DemarshalAfterReply(c.results, ResultTypes(m), vs);
      }
    }
  }

  lemma {:induction false} FieldsUnchanged(hs: seq<Host>, vs: seq<HostVal>)
    requires HaveTypes(hs, vs) && AllClean(vs) && AllDistinguished(hs, vs)
    ensures ReceivedFields(hs, hs, vs) == vs
  {
    ReceivedFieldsAreNorm(hs, vs);
    NormFieldsIdentity(hs, vs);
  }

  /** If the caller uses the types of the method, and arguments and results are clean and
      their variant alternatives are recognised, nothing distinguishes the two. */
  lemma CleanCallIsLocalCall(m: Method, args: seq<HostVal>, a: Attributes, f: seq<Arg> -> Outcome)
    requires GoodMethod(m) && Synchronous(m.params) && HaveTypes(InTypes(m.params), args)
    requires AllPathsValid(args) && AllClean(args) && AllDistinguished(InTypes(m.params), args)
    requires Arguments(m.params, args, a).Some?
    requires var o := f(Arguments(m.params, args, a).value);
      ResultsTyped(m, o) &&
      (o.Returned? ==> AllPathsValid(o.vs) && AllClean(o.vs) && AllDistinguished(ResultTypes(m), o.vs))
    ensures Call(Stub(InTypes(m.params), ResultTypes(m)), m, args, a, f) == f(Arguments(m.params, args, a).value)
  {
    hide Received, HasType, Good, Distinguished, Clean, Call;
    FieldsUnchanged(InTypes(m.params), args);
    var o := f(Arguments(m.params, args, a).value);
    if o.Returned? {
      FieldsUnchanged(ResultTypes(m), o.vs);
    }
    RemoteCallIsLocalCall(Stub(InTypes(m.params), ResultTypes(m)), m, args, a, f);
  }
}
