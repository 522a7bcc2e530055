/** A call of a method that replies through a Result object, now or later: the messages
    that MethodReply counts, with their contents, and what the caller makes of the first
    of them. */
module AsyncCall {
  import opened Wrappers
  import opened Wire
  import opened Marshal
  import opened RoundTrip
  import opened RemoteCall
  import Protocol = MethodReply

  /** The error that the destructor of DBusResult sends. */
  const DROPPED := "org.syncevolution.gdbus"

  datatype Act =
    | Copy(i: nat)
    | Drop(i: nat)
    | Done(i: nat, vs: seq<HostVal>)
    | Failed(i: nat, error: string)

  /** What the function does with its Result objects, whether it throws, and what happens
      to kept copies after it has returned. */
  datatype Behaviour = Behaviour(body: seq<Act>, throws: Option<string>, later: seq<Act>)

  // ---------- as a run of the reply protocol ----------

  /** The types that each Result object of the function delivers. */
  function ResultsOf(ps: seq<Param>): seq<seq<Host>> {
    if ps == [] then [] else (if ps[0].Result? then [ps[0].hs] else []) + ResultsOf(ps[1..])
  }

  /** Results that cannot be marshalled cause an exception in done. */
  function StepOf(rs: seq<seq<Host>>, act: Act): Protocol.Step {
    match act
    case Copy(i) => Protocol.Copy(i)
    case Drop(i) => Protocol.Drop(i)
    case Done(i, vs) => Protocol.Done(i, i < |rs| && AppendFields(rs[i], vs).Some?)
    case Failed(i, _) => Protocol.Failed(i)
  }

  function StepsOf(rs: seq<seq<Host>>, acts: seq<Act>): (steps: seq<Protocol.Step>)
    ensures |steps| == |acts|
  {
    if acts == [] then [] else [StepOf(rs, acts[0])] + StepsOf(rs, acts[1..])
  }

  /** For a body with the declared signature, only pseudo-parameters can be missing. */
  function ParamsOf(ps: seq<Param>, a: Attributes): seq<Protocol.Param> {
    if ps == [] then []
    else
      [match ps[0]
       case In(_) => Protocol.Plain(true)
       case Out(_) => Protocol.Plain(true)
       case Meta(_) => Protocol.Plain(!FieldMissing(ps[0], a))
       case Result(_) => Protocol.ResultParam]
      + ParamsOf(ps[1..], a)
  }

  function CallOf(ps: seq<Param>, a: Attributes, b: Behaviour): Protocol.Call {
    var rs := ResultsOf(ps);
    Protocol.Call(true, true, ParamsOf(ps, a), StepsOf(rs, b.body), b.throws.Some?, true, StepsOf(rs, b.later))
  }

  // ---------- the messages ----------

  /** The message an act sends, if it sends one: giving up the last reference makes the
      destructor send an error. */
  function MessageOf(rs: seq<seq<Host>>, act: Act): Reply {
    match act
    case Done(i, vs) => if i < |rs| then ReplyWith(AppendFields(rs[i], vs)) else Error(DROPPED)
    case Failed(_, e) => Error(e)
    case _ => Error(DROPPED)
  }

  function Messages(w: Protocol.World, rs: seq<seq<Host>>, acts: seq<Act>): seq<Reply>
    requires Protocol.AllPossible(w, StepsOf(rs, acts))
    decreases |acts|
  {
    if acts == [] then []
    else
      var steps := StepsOf(rs, acts);
      assert steps[0] == StepOf(rs, acts[0]) && steps[1..] == StepsOf(rs, acts[1..]);
      var w' := Protocol.Apply(w, StepOf(rs, acts[0]));
      (if |w'.sent| > |w.sent| then [MessageOf(rs, acts[0])] else []) + Messages(w', rs, acts[1..])
  }

  function Repeated(n: int, r: Reply): seq<Reply> {
    if n <= 0 then [] else [r] + Repeated(n - 1, r)
  }

  /** All messages of a call of an asynchronous method, in the order in which they are
      sent: by the function, by the guards when its scope is left, by the handler after an
      exception, and by what happens later. */
  function Transmitted(ps: seq<Param>, a: Attributes, b: Behaviour): seq<Reply>
    requires Protocol.Legal(CallOf(ps, a, b)) && AttributesPresent(ps, a)
  {
    var c, rs := CallOf(ps, a, b), ResultsOf(ps);
    var w1 := Protocol.Extract(Protocol.START, c.params).0;
    var w2 := Protocol.ApplyAll(w1, c.body);
    var w3 := Protocol.DropGuards(w2.(msg := !c.throws), |w2.results|);
    Messages(w1, rs, b.body)
    + Repeated(|w3.sent| - |w2.sent|, Error(DROPPED))
    + (if b.throws.Some? then [Error(b.throws.value)] else [])
    + Messages(Protocol.Handled(c), rs, b.later)
  }

  // ---------- the caller ----------

  /** None if no answer ever comes. The caller takes the first one. */
  function CallAsync(
    c: Stub, m: Method, args: seq<HostVal>, a: Attributes, f: seq<Arg> -> Behaviour): Option<Outcome>
  {
    match AppendFields(c.args, args)
    case None => Some(Thrown(MARSHAL_ERROR))
    case Some(ws) =>
      if !Accepted(m, Tuple(ws)) then Some(Thrown(ARGUMENT_ERROR))
      else
        match Extract(m.params, ws, a)
        case None => Some(Thrown(MARSHAL_ERROR))
        case Some(xs) =>
          if !AttributesPresent(m.params, a) || !Protocol.Legal(CallOf(m.params, a, f(xs))) then None
          else
            var sent := Transmitted(m.params, a, f(xs));
            if sent == [] then None else Some(Demarshal(c.results, sent[0]))
  }

  // ---------- what the function means ----------

  predicate Answers(rs: seq<seq<Host>>, act: Act) {
    Protocol.Replies(StepOf(rs, act))
  }

  predicate AnyAnswers(rs: seq<seq<Host>>, acts: seq<Act>) {
    acts != [] && (Answers(rs, acts[0]) || AnyAnswers(rs, acts[1..]))
  }

  /** The first answer, or the destructor's error if there is none. */
  function Answer(rs: seq<seq<Host>>, acts: seq<Act>): Reply {
    if acts == [] then Error(DROPPED)
    else if Answers(rs, acts[0]) then MessageOf(rs, acts[0])
    else Answer(rs, acts[1..])
  }

  /** What the caller is meant to get from a function with one Result object of types
      `hs`, if it reads the results as `gs`. */
  function Meaning(gs: seq<Host>, hs: seq<Host>, b: Behaviour): Outcome {
    if AnyAnswers([hs], b.body) then FirstOutcome(gs, hs, b.body)
    else if b.throws.Some? then Thrown(b.throws.value)
    else FirstOutcome(gs, hs, b.later)
  }

  function FirstOutcome(gs: seq<Host>, hs: seq<Host>, acts: seq<Act>): Outcome {
    if acts == [] then Thrown(DROPPED)
    else
      match acts[0]
      case Done(_, vs) =>
        if AllPathsValid(vs) then Returned(ReceivedFields(gs, hs, vs)) else FirstOutcome(gs, hs, acts[1..])
      case Failed(_, e) => Thrown(e)
      case _ => FirstOutcome(gs, hs, acts[1..])
  }

  predicate TypedActs(hs: seq<Host>, acts: seq<Act>) {
    forall n :: 0 <= n < |acts| ==> acts[n].i == 0 && (acts[n].Done? ==> HaveTypes(hs, acts[n].vs))
  }

  // ---------- the two descriptions agree on the number of messages ----------

  lemma {:induction false} MessagesCount(w: Protocol.World, rs: seq<seq<Host>>, acts: seq<Act>)
    requires Protocol.AllPossible(w, StepsOf(rs, acts))
    ensures |Messages(w, rs, acts)| == |Protocol.ApplyAll(w, StepsOf(rs, acts)).sent| - |w.sent|
    decreases |acts|
  {
    hide StepOf, MessageOf;
    if acts != [] {
      var steps := StepsOf(rs, acts);
      assert steps[0] == StepOf(rs, acts[0]) && steps[1..] == StepsOf(rs, acts[1..]);
      MessagesCount(Protocol.Apply(w, steps[0]), rs, acts[1..]);
    }
  }

  lemma {:induction false} GuardsOnlySend(w: Protocol.World, n: nat)
    requires n <= |w.results|
    ensures |Protocol.DropGuards(w, n).sent| >= |w.sent|
    decreases n
  {
    if n > 0 { GuardsOnlySend(Protocol.DropGuard(w, n - 1), n - 1); }
  }

  lemma {:induction false} RepeatedLength(n: int, r: Reply)
    ensures |Repeated(n, r)| == if n <= 0 then 0 else n
  {
    if n > 0 { RepeatedLength(n - 1, r); }
  }

  lemma {:induction false} ParamsAgree(ps: seq<Param>, a: Attributes)
    ensures Protocol.Extracts(ParamsOf(ps, a)) <==> AttributesPresent(ps, a)
    ensures Protocol.NumResults(ParamsOf(ps, a)) == |ResultsOf(ps)|
  {
    if ps != [] {
      var qs := ParamsOf(ps, a);
      ParamsAgree(ps[1..], a);
      assert qs[1..] == ParamsOf(ps[1..], a);
      assert forall n :: 1 <= n < |qs| ==> qs[n] == qs[1..][n - 1];
      assert forall n :: 0 <= n < |qs[1..]| ==> qs[1..][n] == qs[n + 1];
      assert forall i :: 1 <= i < |ps| ==> ps[i] == ps[1..][i - 1];
      assert forall i :: 0 <= i < |ps[1..]| ==> ps[1..][i] == ps[i + 1];
    }
  }

  /** The state in which the function starts. */
  lemma FreshObjects(ps: seq<Param>, a: Attributes)
    requires AttributesPresent(ps, a)
    ensures var (w, ok) := Protocol.Extract(Protocol.START, ParamsOf(ps, a));
      && ok && Protocol.Fresh(w) && |w.results| == |ResultsOf(ps)|
    ensures Protocol.Asynchronous(ParamsOf(ps, a)) <==> ResultsOf(ps) != []
  {
    ParamsAgree(ps, a);
    Protocol.ExtractGivesFresh(Protocol.START, ParamsOf(ps, a));
    Protocol.AsynchronousHasResult(ParamsOf(ps, a));
  }

  /** The messages are those that the reply protocol counts. */
  lemma TransmittedCount(ps: seq<Param>, a: Attributes, b: Behaviour)
    requires Protocol.Legal(CallOf(ps, a, b)) && AttributesPresent(ps, a) && ResultsOf(ps) != []
    ensures |Transmitted(ps, a, b)| == |Protocol.Run(CallOf(ps, a, b)).sent|
  {
    hide StepsOf, Messages, Protocol.ApplyAll, Protocol.AllPossible, Protocol.DropGuards, Repeated;
    var c, rs := CallOf(ps, a, b), ResultsOf(ps);
    FreshObjects(ps, a);
    var w1 := Protocol.Extract(Protocol.START, c.params).0;
    var w2 := Protocol.ApplyAll(w1, c.body);
    var w3 := w2.(msg := !c.throws);
    MessagesCount(w1, rs, b.body);
    GuardsOnlySend(w3, |w2.results|);
    RepeatedLength(|Protocol.DropGuards(w3, |w2.results|).sent| - |w2.sent|, Error(DROPPED));
    Protocol.FreshInv(w1);
    Protocol.ApplyAllKeepsDuty(w1, c.body, true, false);
    assert w1.msg;
    assert w2.(msg := true) == w2;
    MessagesCount(Protocol.Handled(c), rs, b.later);
  }

  // ---------- the first message ----------

  /** While the function runs, only answers are sent. */
  lemma {:induction false} FirstOfBody(w: Protocol.World, rs: seq<seq<Host>>, acts: seq<Act>)
    requires Protocol.AllPossible(w, StepsOf(rs, acts)) && Protocol.Duty(w, 0, true, false)
    ensures var ms := Messages(w, rs, acts);
      && (ms != [] <==> AnyAnswers(rs, acts))
      && (ms != [] ==> ms[0] == Answer(rs, acts))
    decreases |acts|
  {
    hide MessageOf;
    if acts != [] {
      var steps := StepsOf(rs, acts);
      assert steps[0] == StepOf(rs, acts[0]) && steps[1..] == StepsOf(rs, acts[1..]);
      Protocol.ApplyKeepsDuty(w, steps[0], true, false);
      FirstOfBody(Protocol.Apply(w, steps[0]), rs, acts[1..]);
    }
  }

  /** A single object with the duty to reply, which was not fulfilled yet. */
  predicate Waiting(w: Protocol.World) {
    |w.results| == 1 && w.results[0].held > 0 && w.results[0].haveOwnership
    && !w.results[0].guard && !w.results[0].replied
  }

  /** Later, the first message is the first answer, or the destructor's error. */
  lemma {:induction false} FirstOfLater(w: Protocol.World, rs: seq<seq<Host>>, acts: seq<Act>)
    requires Protocol.AllPossible(w, StepsOf(rs, acts)) && Waiting(w)
    requires Protocol.Complete(Protocol.ApplyAll(w, StepsOf(rs, acts)))
    ensures var ms := Messages(w, rs, acts); ms != [] && ms[0] == Answer(rs, acts)
    decreases |acts|
  {
    hide MessageOf;
    if acts != [] {
      var steps := StepsOf(rs, acts);
      assert steps[0] == StepOf(rs, acts[0]) && steps[1..] == StepsOf(rs, acts[1..]);
      var w' := Protocol.Apply(w, steps[0]);
      if Waiting(w') && !Answers(rs, acts[0]) {
        FirstOfLater(w', rs, acts[1..]);
      } else if acts[0].Drop? {
        NothingPossible(w', rs, acts[1..]);
        DroppedMessage(rs, acts[0]);
      }
    }
  }

  lemma DroppedMessage(rs: seq<seq<Host>>, act: Act)
    requires act.Drop?
    ensures MessageOf(rs, act) == Error(DROPPED)
  {
  }

  lemma NothingPossible(w: Protocol.World, rs: seq<seq<Host>>, acts: seq<Act>)
    requires Protocol.AllPossible(w, StepsOf(rs, acts))
    requires forall i :: 0 <= i < |w.results| ==> !w.results[i].Alive()
    ensures acts == []
  {
  }

  function Answered(rs: seq<seq<Host>>, b: Behaviour): Reply {
    if AnyAnswers(rs, b.body) then Answer(rs, b.body)
    else if b.throws.Some? then Error(b.throws.value)
    else Answer(rs, b.later)
  }

  lemma {:induction false} UnrepliedBody(w: Protocol.World, rs: seq<seq<Host>>, acts: seq<Act>)
    requires Protocol.AllPossible(w, StepsOf(rs, acts)) && !AnyAnswers(rs, acts)
    requires |w.results| == 1 && !w.results[0].replied && Protocol.Duty(w, 0, true, false)
    ensures var w' := Protocol.ApplyAll(w, StepsOf(rs, acts));
      |w'.results| == 1 && !w'.results[0].replied
    decreases |acts|
  {
    if acts != [] {
      var steps := StepsOf(rs, acts);
      assert steps[0] == StepOf(rs, acts[0]) && steps[1..] == StepsOf(rs, acts[1..]);
      Protocol.ApplyKeepsDuty(w, steps[0], true, false);
      UnrepliedBody(Protocol.Apply(w, steps[0]), rs, acts[1..]);
    }
  }

  lemma OneGuard(w: Protocol.World)
    requires |w.results| == 1 && w.msg && Protocol.Duty(w, 0, true, false) && !w.results[0].replied
    ensures var w' := Protocol.DropGuards(w, 1);
      if w.results[0].held > 0 then Waiting(w') && w'.sent == w.sent
      else |w'.sent| == |w.sent| + 1 && |w'.results| == 1 && !w'.results[0].Alive()
  {
    assert Protocol.DropGuards(w, 1) == Protocol.DropGuards(Protocol.DropGuard(w, 0), 0);
  }

  /** A function that returned without an answer and without an exception: the guard
      sends the error, or what happens later decides. */
  lemma FirstAfterBody(w: Protocol.World, rs: seq<seq<Host>>, later: seq<Act>)
    requires |w.results| == 1 && w.msg && Protocol.Duty(w, 0, true, false) && !w.results[0].replied
    requires var w' := Protocol.DropGuards(w, 1);
      && Protocol.AllPossible(w', StepsOf(rs, later))
      && Protocol.Complete(Protocol.ApplyAll(w', StepsOf(rs, later)))
    ensures var w' := Protocol.DropGuards(w, 1);
      var ms := Repeated(|w'.sent| - |w.sent|, Error(DROPPED)) + Messages(w', rs, later);
      ms != [] && ms[0] == Answer(rs, later)
  {
    hide Messages, StepsOf, Protocol.ApplyAll, Protocol.AllPossible, Protocol.DropGuards;
    OneGuard(w);
    if w.results[0].held > 0 {
      FirstOfLater(Protocol.DropGuards(w, 1), rs, later);
    } else {
      NothingPossible(Protocol.DropGuards(w, 1), rs, later);
    }
  }

  lemma FirstTransmitted(ps: seq<Param>, a: Attributes, b: Behaviour)
    requires AttributesPresent(ps, a) && |ResultsOf(ps)| == 1
    requires Protocol.Legal(CallOf(ps, a, b)) && Protocol.Complete(Protocol.Run(CallOf(ps, a, b)))
    ensures var ms := Transmitted(ps, a, b); ms != [] && ms[0] == Answered(ResultsOf(ps), b)
  {
    hide Messages, Answer, AnyAnswers, StepsOf, Repeated, Protocol.ApplyAll, Protocol.AllPossible,
      Protocol.DropGuards, Protocol.Duty, Protocol.Fresh;
    var c, rs := CallOf(ps, a, b), ResultsOf(ps);
    FreshObjects(ps, a);
    var w1 := Protocol.Extract(Protocol.START, c.params).0;
    var w2 := Protocol.ApplyAll(w1, c.body);
    FreshFacts(w1);
    Protocol.ApplyAllKeepsDuty(w1, c.body, true, false);
    FirstOfBody(w1, rs, b.body);
    assert w2.(msg := true) == w2;
    if !AnyAnswers(rs, b.body) {
      UnrepliedBody(w1, rs, b.body);
      if b.throws == None {
        FirstAfterBody(w2, rs, b.later);
      } else {
        OwnsNothing(w2);
        GuardsWithoutDuty(w2.(msg := false), 1);
        NotRepeated(Error(DROPPED));
      }
    }
  }

  lemma FreshFacts(w: Protocol.World)
    requires Protocol.Fresh(w)
    ensures w.msg && Protocol.Duty(w, 0, true, false)
    ensures |w.results| > 0 ==> !w.results[0].replied
  {
  }

  lemma OwnsNothing(w: Protocol.World)
    requires Protocol.Duty(w, 0, true, false)
    ensures forall i :: 0 <= i < |w.results| ==> !w.results[i].haveOwnership
  {
  }

  lemma NotRepeated(r: Reply)
    ensures Repeated(0, r) == []
  {
  }

  lemma {:induction false} GuardsWithoutDuty(w: Protocol.World, n: nat)
    requires n <= |w.results| && !w.msg && forall i :: 0 <= i < n ==> !w.results[i].haveOwnership
    ensures Protocol.DropGuards(w, n).sent == w.sent
    decreases n
  {
    if n > 0 { GuardsWithoutDuty(Protocol.DropGuard(w, n - 1), n - 1); }
  }

  // ---------- what the caller makes of it ----------

  lemma {:induction false} AnswerMeans(gs: seq<Host>, hs: seq<Host>, acts: seq<Act>)
    requires AllGood(gs) && AllGood(hs) && WiresOf(gs) == WiresOf(hs) && TypedActs(hs, acts)
    ensures Demarshal(gs, Answer([hs], acts)) == FirstOutcome(gs, hs, acts)
  {
    hide AppendFields, ReceivedFields, WiresOf, HaveTypes, PathsValid, Demarshal;
    if acts == [] {
      ErrorsAreThrown(gs, DROPPED);
    } else {
      assert forall n :: 1 <= n < |acts| ==> acts[n] == acts[1..][n - 1];
      AnswerMeans(gs, hs, acts[1..]);
      match acts[0] {
        case Done(i, vs) =>
          AppendFieldsDefined(hs, vs);
          DemarshalAfterReply(gs, hs, vs);
        case Failed(i, e) => ErrorsAreThrown(gs, e);
        case Copy(i) =>
        case Drop(i) =>
      }
    }
  }

  lemma ErrorsAreThrown(gs: seq<Host>, e: string)
    ensures Demarshal(gs, Error(e)) == Thrown(e)
  {
  }

  /** For every method with one Result parameter, caller, argument list and function, if
      all copies of the Result object are given up in the end: the caller always gets an
      answer, and it is the first one that the function gave, now or later; an exception
      counts if nothing was answered before, and an object that was dropped unanswered is
      an error. */
  lemma AsyncCallIsLocalCall(
    c: Stub, m: Method, hs: seq<Host>, args: seq<HostVal>, a: Attributes, f: seq<Arg> -> Behaviour)
    requires ResultsOf(m.params) == [hs] && AllGood(InTypes(m.params)) && AllGood(hs)
    requires AllGood(c.args) && WiresOf(c.args) == WiresOf(InTypes(m.params)) && HaveTypes(c.args, args)
    requires AllGood(c.results) && WiresOf(c.results) == WiresOf(hs)
    requires var xs := Reaching(c, m, args, a); xs.Some? ==>
      var b := f(xs.value);
      && TypedActs(hs, b.body) && TypedActs(hs, b.later)
      && Protocol.Legal(CallOf(m.params, a, b)) && Protocol.Complete(Protocol.Run(CallOf(m.params, a, b)))
    ensures CallAsync(c, m, args, a, f) == Some(
      if !AllPathsValid(args) then Thrown(MARSHAL_ERROR)
      else
        match Reaching(c, m, args, a)
        case None => Thrown(MARSHAL_ERROR)
        case Some(xs) => Meaning(c.results, hs, f(xs)))
  {
    hide Append, Get, Received, Good, HasType, WireOf, Transmitted, Answer, AnyAnswers, FirstOutcome,
      Protocol.Legal, Protocol.Complete, Protocol.Run, CallOf, TypedActs;
    AppendFieldsDefined(c.args, args);
    if AllPathsValid(args) {
      var body := Tuple(AppendFields(c.args, args).value);
      AppendFieldsTyped(c.args, args);
      InArgsAreTypes(m.params);
      ExtractAllTotal(m.params, body.items, a);
      ExtractAfterAppend(m.params, c.args, args, a);
      var xs := Reaching(c, m, args, a);
      if xs.Some? {
        var b := f(xs.value);
        FirstTransmitted(m.params, a, b);
        AnswerMeans(c.results, hs, b.body);
        AnswerMeans(c.results, hs, b.later);
      }
    }
  }

  function Times(n: nat, act: Act): (acts: seq<Act>)
    ensures |acts| == n && forall k :: 0 <= k < n ==> acts[k] == act
  {
    if n == 0 then [] else [act] + Times(n - 1, act)
  }

  lemma {:induction false} StepsOfTimes(rs: seq<seq<Host>>, n: nat, act: Act)
    ensures StepsOf(rs, Times(n, act)) == Protocol.Times(n, StepOf(rs, act))
    ensures !Answers(rs, act) ==> !AnyAnswers(rs, Times(n, act))
  {
    hide StepOf;
    if n > 0 {
      StepsOfTimes(rs, n - 1, act);
      assert Times(n, act)[1..] == Times(n - 1, act);
    }
  }

  function KeepAndAnswer(n: nat, vs: seq<HostVal>): Behaviour {
    Behaviour(Times(n, Copy(0)), None, [Done(0, vs)] + Times(n, Drop(0)))
  }

  /** For example, the function keeps copies, returns, and calls done on one later: the
      caller gets the results, as its own types read them. */
  lemma AnsweredLater(ps: seq<Param>, a: Attributes, gs: seq<Host>, hs: seq<Host>, n: nat, vs: seq<HostVal>)
    requires AttributesPresent(ps, a) && ResultsOf(ps) == [hs] && n > 0
    requires HaveTypes(hs, vs) && AllPathsValid(vs)
    ensures var b := KeepAndAnswer(n, vs);
      && TypedActs(hs, b.body) && TypedActs(hs, b.later)
      && Protocol.Legal(CallOf(ps, a, b)) && Protocol.Complete(Protocol.Run(CallOf(ps, a, b)))
      && Meaning(gs, hs, b) == Returned(ReceivedFields(gs, hs, vs))
  {
    hide AppendFields, ReceivedFields, HaveTypes, AllPathsValid, PathsValid, Protocol.Legal,
      Protocol.Complete, Protocol.Run, Protocol.Times, Times, AttributesPresent;
    Sendable(hs, vs);
    ParamsAgree(ps, a);
    var b := KeepAndAnswer(n, vs);
    var c := CallOf(ps, a, b);
    StepsOfTimes([hs], n, Copy(0));
    StepsOfTimes([hs], n, Drop(0));
    assert b.later[1..] == Times(n, Drop(0));
    assert StepsOf([hs], b.later) == [Protocol.Done(0, true)] + StepsOf([hs], b.later[1..]);
    Protocol.KeptAndAnswered(c, n);
    assert Meaning(gs, hs, b) == FirstOutcome(gs, hs, b.later);
  }

  lemma Sendable(hs: seq<Host>, vs: seq<HostVal>)
    requires HaveTypes(hs, vs)
    ensures AllPathsValid(vs) <==> AppendFields(hs, vs).Some?
  {
    AppendFieldsDefined(hs, vs);
  }

  // ---------- the declared type of the reply ----------

  lemma {:induction false} ReplyTypesLength(ps: seq<Param>, hs: seq<Host>)
    requires ResultsOf(ps) == [hs] || ResultsOf(ps) == []
    ensures |ReplyTypes(ps)| == |OutTypes(ps)| + (if ResultsOf(ps) == [] then 0 else |hs|)
    ensures OutTypes(ps) == [] ==> ReplyTypes(ps) == if ResultsOf(ps) == [] then [] else hs
  {
    if ps != [] {
      if ps[0].Result? {
        assert ResultsOf(ps)[1..] == ResultsOf(ps[1..]);
      }
      ReplyTypesLength(ps[1..], hs);
    }
  }

  /** What done sends has the declared reply type exactly if the method has neither a
      return value nor writable references: these are declared, but never sent. */
  lemma AsyncReplyType(m: Method, hs: seq<Host>, vs: seq<HostVal>)
    requires ResultsOf(m.params) == [hs] && AllGood(hs) && HaveTypes(hs, vs) && AppendFields(hs, vs).Some?
    ensures Signature(TypeOf(Tuple(AppendFields(hs, vs).value))) == "(" + Concat(OutArgs(m)) + ")" <==>
      m.ret == None && OutTypes(m.params) == []
  {
    AppendFieldsTyped(hs, vs);
    DeclaredArgsAreTypes(m);
    ReplyTypesLength(m.params, hs);
    SignatureEquality(Struct(WiresOf(hs)), Struct(WiresOf(DeclaredTypes(m))));
  }
}
