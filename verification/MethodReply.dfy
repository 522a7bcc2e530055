/** Who answers a method call. The duty to reply moves between the exception handler of
    methodFunction, the destructors of DBusResultGuard, and the reference-counted
    DBusResult objects that a function may keep; a shared pointer `msg` to the call
    decides. */
module MethodReply {

  /** Which piece of code put a reply for this call on the connection. */
  datatype Source = Handler | User(i: nat) | Destructor(i: nat)

  /** One DBusResult: `held` copies are kept by the application, `guard` tells whether
      the local variable of methodFunction still refers to it. */
  datatype Res = Res(held: nat, guard: bool, haveOwnership: bool, replied: bool) {
    predicate Alive() {
      held > 0 || guard
    }
  }

  /** What the application does with the Result objects. `marshals` is false if
      appending the results throws before anything is sent. */
  datatype Step =
    | Copy(i: nat)
    | Drop(i: nat)
    | Done(i: nat, marshals: bool)
    | Failed(i: nat)

  datatype Param = Plain(extracts: bool) | ResultParam

  /** One incoming call, with everything the outside world decides about it. */
  datatype Call = Call(
    known: bool,          // a method with this name is registered for the path
    constructs: bool,     // the local variables can be constructed
    params: seq<Param>,
    body: seq<Step>,      // what the function does with its Result objects ...
    throws: bool,         // ... and whether it ends with an exception
    marshals: bool,       // the results of a synchronous function can be marshalled
    later: seq<Step>)     // what happens to kept copies after the call has returned

  datatype World = World(msg: bool, results: seq<Res>, sent: seq<Source>)

  // ---------- the specification, as functions on the state ----------

  function Put(w: World, i: nat, r: Res): World
    requires i < |w.results|
  {
    w.(results := w.results[i := r])
  }

  function SendFor(w: World, i: nat, s: Source): World
    requires i < |w.results|
  {
    Put(w, i, w.results[i].(replied := true)).(sent := w.sent + [s])
  }

  /** After a reference is gone: the destructor of DBusResult, if it was the last. */
  function Released(w: World, i: nat): (w': World)
    requires i < |w.results|
    ensures |w'.results| == |w.results|
  {
    var r := w.results[i];
    if !r.Alive() && r.haveOwnership && !r.replied then SendFor(w, i, Destructor(i)) else w
  }

  /** A step is possible if the object it uses is still there. */
  predicate Possible(w: World, s: Step) {
    && s.i < |w.results|
    && w.results[s.i].Alive()
    && (s.Drop? ==> w.results[s.i].held > 0)
  }

  function Apply(w: World, s: Step): (w': World)
    requires Possible(w, s)
    ensures |w'.results| == |w.results|
  {
    var r := w.results[s.i];
    match s
    case Copy(i) => Put(w, i, r.(held := r.held + 1))
    case Drop(i) => Released(Put(w, i, r.(held := r.held - 1)), i)
    case Done(i, marshals) => if marshals then SendFor(w, i, User(i)) else w
    case Failed(i) => SendFor(w, i, User(i))
  }

  predicate AllPossible(w: World, steps: seq<Step>)
    decreases |steps|
  {
    steps == [] || (Possible(w, steps[0]) && AllPossible(Apply(w, steps[0]), steps[1..]))
  }

  function ApplyAll(w: World, steps: seq<Step>): World
    requires AllPossible(w, steps)
    decreases |steps|
  {
    if steps == [] then w else ApplyAll(Apply(w, steps[0]), steps[1..])
  }

  /** Parameters are extracted from left to right until one throws. */
  function Extract(w: World, params: seq<Param>): (r: (World, bool))
    decreases |params|
  {
    if params == [] then (w, true)
    else
      match params[0]
      case Plain(extracts) => if extracts then Extract(w, params[1..]) else (w, false)
      case ResultParam => Extract(w.(results := w.results + [Res(0, true, false, false)]), params[1..])
  }

  /** ~DBusResultGuard: transfers the duty to reply if `msg` was not cleared. */
  function DropGuard(w: World, i: nat): World
    requires i < |w.results|
  {
    var r := w.results[i];
    Released(Put(w, i, r.(guard := false, haveOwnership := r.haveOwnership || w.msg)), i)
  }

  /** Local variables are destroyed in the reverse order of their construction. */
  function DropGuards(w: World, n: nat): (w': World)
    requires n <= |w.results|
    ensures |w'.results| == |w.results|
    decreases n
  {
    if n == 0 then w else DropGuards(DropGuard(w, n - 1), n - 1)
  }

  predicate Asynchronous(params: seq<Param>) {
    ResultParam in params
  }

  /** The state after methodFunction, and whether it returned a reply. */
  function MethodFunction(w: World, c: Call): (World, bool)
    requires AllPossible(Extract(w, c.params).0, c.body)
  {
    if !c.constructs then (w.(msg := false), true)
    else
      var (w1, ok) := Extract(w, c.params);
      if !ok then (DropGuards(w1.(msg := false), |w1.results|), true)
      else
        var w2 := ApplyAll(w1, c.body);
        if c.throws then (DropGuards(w2.(msg := false), |w2.results|), true)
        else if Asynchronous(c.params) then (DropGuards(w2, |w2.results|), false)
        else if c.marshals then (DropGuards(w2, |w2.results|), true)
        else (DropGuards(w2.(msg := false), |w2.results|), true)
  }

  const START := World(true, [], [])

  function Handled(c: Call): World
    requires AllPossible(Extract(START, c.params).0, c.body)
  {
    if !c.known then START.(sent := [Handler])
    else
      var (w, reply) := MethodFunction(START, c);
      if reply then w.(sent := w.sent + [Handler]) else w
  }

  /** Applications use only Result objects that exist, and only the function that was
      called gets hold of them. */
  predicate Legal(c: Call) {
    && AllPossible(Extract(START, c.params).0, c.body)
    && AllPossible(Handled(c), c.later)
  }

  function Run(c: Call): World
    requires Legal(c)
  {
    ApplyAll(Handled(c), c.later)
  }

  /** All copies have been given up. */
  predicate Complete(w: World) {
    forall i :: 0 <= i < |w.results| ==> w.results[i].held == 0
  }

  // ---------- the code, updating the shared state in place ----------

  class Invocation {
    var msg: bool            // GDBusMessage *msg of methodFunction is not NULL
    var results: seq<Res>
    var sent: seq<Source>

    ghost function View(): World
      reads this
    {
      World(msg, results, sent)
    }

    constructor ()
      ensures View() == START
    {
      msg, results, sent := true, [], [];
    }

    /** DBusResult::sendMsg */
    method SendMsg(i: nat, s: Source)
      requires i < |results|
      modifies this
      ensures View() == SendFor(old(View()), i, s)
    {
      results := results[i := results[i].(replied := true)];
      sent := sent + [s];
    }

    /** The shared_ptr gave up one reference. */
    method Release(i: nat)
      requires i < |results|
      modifies this
      ensures View() == Released(old(View()), i)
    {
      if !results[i].Alive() {
        if results[i].haveOwnership && !results[i].replied {
          SendMsg(i, Destructor(i));
        }
      }
    }

    method PerformSteps(steps: seq<Step>)
      requires AllPossible(View(), steps)
      modifies this
      ensures View() == ApplyAll(old(View()), steps)
    {
      for n := 0 to |steps|
        invariant AllPossible(View(), steps[n..])
        invariant ApplyAll(View(), steps[n..]) == ApplyAll(old(View()), steps)
      {
        var s := steps[n];
        assert steps[n..][0] == s && steps[n..][1..] == steps[n + 1..];
        match s {
          case Copy(i) => results := results[i := results[i].(held := results[i].held + 1)];
          case Drop(i) =>
            results := results[i := results[i].(held := results[i].held - 1)];
            Release(i);
          case Done(i, marshals) => if marshals { SendMsg(i, User(i)); }
          case Failed(i) => SendMsg(i, User(i));
        }
      }
    }

    /** ExtractArgs(conn, msg) >> Get<A1>(a1) >> ... */
    method ExtractAll(params: seq<Param>) returns (ok: bool)
      modifies this
      ensures (View(), ok) == Extract(old(View()), params)
    {
      for n := 0 to |params|
        invariant Extract(View(), params[n..]) == Extract(old(View()), params)
      {
        assert params[n..][1..] == params[n + 1..];
        match params[n] {
          case Plain(extracts) => if !extracts { return false; }
          case ResultParam => results := results + [Res(0, true, false, false)];
        }
      }
      ok := true;
    }

    /** Clears the caller's `msg` before it creates the error reply. */
    method HandleException() returns (reply: bool)
      modifies this
      ensures reply && View() == old(View()).(msg := false)
    {
      msg := false;
      reply := true;
    }

    method LeaveScope()
      modifies this
      ensures View() == DropGuards(old(View()), |old(results)|)
    {
      var n: nat := |results|;
      while n > 0
        invariant n <= |results|
        invariant DropGuards(View(), n) == DropGuards(old(View()), |old(results)|)
      {
        n := n - 1;
        var r := results[n];
        results := results[n := r.(guard := false, haveOwnership := r.haveOwnership || msg)];
        Release(n);
      }
    }

    method CallMethodFunction(c: Call) returns (reply: bool)
      requires AllPossible(Extract(View(), c.params).0, c.body)
      modifies this
      ensures (View(), reply) == MethodFunction(old(View()), c)
    {
      if !c.constructs {
        reply := HandleException();
        return;
      }
      var ok := ExtractAll(c.params);
      if ok {
        PerformSteps(c.body);
        if c.throws {
          reply := HandleException();
        } else if Asynchronous(c.params) {
          reply := false;
        } else if c.marshals {
          reply := true;
        } else {
          reply := HandleException();
        }
      } else {
        reply := HandleException();
      }
      LeaveScope();
    }

    /** MethodHandler::handler */
    method Handle(c: Call)
      requires View() == START && AllPossible(Extract(START, c.params).0, c.body)
      modifies this
      ensures View() == Handled(c)
    {
      if !c.known {
        sent := sent + [Handler];
        return;
      }
      var reply := CallMethodFunction(c);
      if reply {
        sent := sent + [Handler];
      }
    }
  }

  // ---------- how many replies there are ----------

  function Count(sent: seq<Source>, s: Source): nat {
    multiset(sent)[s]
  }

  /** Replies sent by the first `k` Result objects, by the application or on their own. */
  function FromResults(sent: seq<Source>, k: nat): nat {
    if k == 0 then 0
    else Count(sent, User(k - 1)) + Count(sent, Destructor(k - 1)) + FromResults(sent, k - 1)
  }

  /** What is known about each Result object in every reachable state. */
  predicate ResInv(w: World, i: nat)
    requires i < |w.results|
  {
    var r := w.results[i];
    var u, d := Count(w.sent, User(i)), Count(w.sent, Destructor(i));
    && (r.replied <==> u + d > 0)
    && d <= 1
    && (d > 0 ==> u == 0 && r.haveOwnership && !r.Alive())
    && (r.haveOwnership && !r.Alive() ==> r.replied)
  }

  predicate Inv(w: World) {
    && (forall i :: 0 <= i < |w.results| ==> ResInv(w, i))
    && (forall s :: s in w.sent && !s.Handler? ==> s.i < |w.results|)
  }

  lemma CountOneMore(sent: seq<Source>, x: Source, s: Source)
    ensures Count(sent + [x], s) == Count(sent, s) + (if x == s then 1 else 0)
  {
  }

  lemma SendKeepsInv(w: World, i: nat, s: Source)
    requires Inv(w) && i < |w.results| && (s == User(i) || s == Destructor(i))
    requires s == User(i) ==> w.results[i].Alive()
    requires s == Destructor(i) ==>
      !w.results[i].replied && w.results[i].haveOwnership && !w.results[i].Alive()
    ensures Inv(SendFor(w, i, s))
  {
    var w' := SendFor(w, i, s);
    forall j | 0 <= j < |w'.results| ensures ResInv(w', j) {
      CountOneMore(w.sent, s, User(j));
      CountOneMore(w.sent, s, Destructor(j));
      assert ResInv(w, j);
    }
  }

  /** Everything is in order except that object `i` may just have become unreachable. */
  predicate InvBut(w: World, i: nat)
    requires i < |w.results|
  {
    var r := w.results[i];
    var u, d := Count(w.sent, User(i)), Count(w.sent, Destructor(i));
    && (forall j :: 0 <= j < |w.results| && j != i ==> ResInv(w, j))
    && (forall s :: s in w.sent && !s.Handler? ==> s.i < |w.results|)
    && d == 0 && (r.replied <==> u > 0)
  }

  lemma ReleaseRestoresInv(w: World, i: nat)
    requires i < |w.results| && InvBut(w, i)
    ensures Inv(Released(w, i))
    ensures !w.results[i].haveOwnership ==> Released(w, i) == w
  {
    var w' := Released(w, i);
    forall j | 0 <= j < |w'.results| ensures ResInv(w', j) {
      CountOneMore(w.sent, Destructor(i), User(j));
      CountOneMore(w.sent, Destructor(i), Destructor(j));
      assert j != i ==> ResInv(w, j);
    }
  }

  lemma ApplyKeepsInv(w: World, s: Step)
    requires Inv(w) && Possible(w, s)
    ensures Inv(Apply(w, s))
  {
    hide Count;
    var r := w.results[s.i];
    assert ResInv(w, s.i);
    match s {
      case Copy(i) =>
        var w' := Put(w, i, r.(held := r.held + 1));
        assert forall j :: 0 <= j < |w'.results| ==> ResInv(w, j) ==> ResInv(w', j);
      case Drop(i) =>
        var w' := Put(w, i, r.(held := r.held - 1));
        assert forall j :: 0 <= j < |w'.results| && j != i ==> ResInv(w, j) ==> ResInv(w', j);
        ReleaseRestoresInv(w', i);
      case Done(i, marshals) => if marshals { SendKeepsInv(w, i, User(i)); }
      case Failed(i) => SendKeepsInv(w, i, User(i));
    }
  }

  lemma {:induction false} ApplyAllKeepsInv(w: World, steps: seq<Step>)
    requires Inv(w) && AllPossible(w, steps)
    ensures Inv(ApplyAll(w, steps)) && |ApplyAll(w, steps).results| == |w.results|
    decreases |steps|
  {
    hide Inv, Possible;
    if steps != [] {
      ApplyKeepsInv(w, steps[0]);
      ApplyAllKeepsInv(Apply(w, steps[0]), steps[1..]);
    }
  }

  /** While the function runs, no object has the duty to reply and every guard refers to
      its object; afterwards `owned` tells for all of them alike who has the duty. */
  predicate Duty(w: World, from: nat, guarded: bool, owned: bool) {
    forall i :: from <= i < |w.results| ==>
      w.results[i].guard == guarded && w.results[i].haveOwnership == owned
  }

  lemma ApplyKeepsDuty(w: World, s: Step, guarded: bool, owned: bool)
    requires Possible(w, s) && Duty(w, 0, guarded, owned)
    ensures Duty(Apply(w, s), 0, guarded, owned) && Apply(w, s).msg == w.msg
  {
  }

  lemma {:induction false} ApplyAllKeepsDuty(w: World, steps: seq<Step>, guarded: bool, owned: bool)
    requires AllPossible(w, steps) && Duty(w, 0, guarded, owned)
    ensures Duty(ApplyAll(w, steps), 0, guarded, owned) && ApplyAll(w, steps).msg == w.msg
    decreases |steps|
  {
    hide Apply, Possible, Duty;
    if steps != [] {
      ApplyKeepsDuty(w, steps[0], guarded, owned);
      ApplyAllKeepsDuty(Apply(w, steps[0]), steps[1..], guarded, owned);
    }
  }

  lemma DropGuardKeepsInv(w: World, i: nat)
    requires Inv(w) && i < |w.results| && w.results[i].guard && !w.results[i].haveOwnership
    ensures var w' := DropGuard(w, i);
      && Inv(w') && w'.msg == w.msg && |w'.results| == |w.results|
      && (forall j :: 0 <= j < |w.results| && j != i ==> w'.results[j] == w.results[j])
      && !w'.results[i].guard && w'.results[i].haveOwnership == w.msg
      && w'.results[i].held == w.results[i].held
      && Count(w'.sent, Handler) == Count(w.sent, Handler)
      && forall j: nat :: Count(w'.sent, User(j)) == Count(w.sent, User(j))
  {
    var r := w.results[i];
    var w1 := Put(w, i, r.(guard := false, haveOwnership := r.haveOwnership || w.msg));
    assert ResInv(w, i);
    assert forall j :: 0 <= j < |w1.results| && j != i ==> ResInv(w, j) ==> ResInv(w1, j);
    ReleaseRestoresInv(w1, i);
    CountOneMore(w.sent, Destructor(i), Handler);
    forall j: nat ensures Count(w.sent + [Destructor(i)], User(j)) == Count(w.sent, User(j)) {
      CountOneMore(w.sent, Destructor(i), User(j));
    }
  }

  lemma {:induction false} DropGuardsKeepsInv(w: World, n: nat)
    requires Inv(w) && n <= |w.results| && Duty(w, n, false, w.msg)
    requires forall i :: 0 <= i < n ==> w.results[i].guard && !w.results[i].haveOwnership
    ensures var w' := DropGuards(w, n);
      && Inv(w') && Duty(w', 0, false, w.msg)
      && (forall i :: 0 <= i < |w.results| ==> w'.results[i].held == w.results[i].held)
      && Count(w'.sent, Handler) == Count(w.sent, Handler)
      && forall j: nat :: Count(w'.sent, User(j)) == Count(w.sent, User(j))
    decreases n
  {
    hide Inv, Count;
    if n > 0 {
      DropGuardKeepsInv(w, n - 1);
      DropGuardsKeepsInv(DropGuard(w, n - 1), n - 1);
    }
  }

  // ---------- what the application sent ----------

  predicate Replies(s: Step) {
    s.Failed? || (s.Done? && s.marshals)
  }

  function NumReplies(steps: seq<Step>): nat {
    if steps == [] then 0 else (if Replies(steps[0]) then 1 else 0) + NumReplies(steps[1..])
  }

  function RepliesTo(steps: seq<Step>, i: nat): nat {
    if steps == [] then 0
    else (if Replies(steps[0]) && steps[0].i == i then 1 else 0) + RepliesTo(steps[1..], i)
  }

  lemma ApplyCounts(w: World, s: Step, i: nat)
    requires Possible(w, s)
    ensures var w' := Apply(w, s);
      && Count(w'.sent, Handler) == Count(w.sent, Handler)
      && Count(w'.sent, User(i)) == Count(w.sent, User(i)) + (if Replies(s) && s.i == i then 1 else 0)
  {
    CountOneMore(w.sent, User(s.i), Handler);
    CountOneMore(w.sent, User(s.i), User(i));
    CountOneMore(w.sent, Destructor(s.i), Handler);
    CountOneMore(w.sent, Destructor(s.i), User(i));
  }

  lemma {:induction false} ApplyAllCounts(w: World, steps: seq<Step>, i: nat)
    requires AllPossible(w, steps)
    ensures var w' := ApplyAll(w, steps);
      && Count(w'.sent, Handler) == Count(w.sent, Handler)
      && Count(w'.sent, User(i)) == Count(w.sent, User(i)) + RepliesTo(steps, i)
    decreases |steps|
  {
    hide Apply, Possible, Count;
    if steps != [] {
      ApplyCounts(w, steps[0], i);
      ApplyAllCounts(Apply(w, steps[0]), steps[1..], i);
    }
  }

  lemma {:induction false} RepliesToConcat(a: seq<Step>, b: seq<Step>, i: nat)
    ensures RepliesTo(a + b, i) == RepliesTo(a, i) + RepliesTo(b, i)
  {
    if a == [] {
      assert a + b == b;
    } else {
      assert (a + b)[1..] == a[1..] + b;
      RepliesToConcat(a[1..], b, i);
    }
  }

  /** Steps on objects below `k` only. */
  predicate StepsBelow(steps: seq<Step>, k: nat) {
    forall n :: 0 <= n < |steps| ==> steps[n].i < k
  }

  lemma {:induction false} PossibleStepsBelow(w: World, steps: seq<Step>)
    requires AllPossible(w, steps)
    ensures StepsBelow(steps, |w.results|)
    decreases |steps|
  {
    if steps != [] {
      PossibleStepsBelow(Apply(w, steps[0]), steps[1..]);
      assert forall n :: 1 <= n < |steps| ==> steps[n] == steps[1..][n - 1];
    }
  }

  // ---------- the outcome of a call ----------

  predicate Extracts(params: seq<Param>) {
    forall n :: 0 <= n < |params| ==> params[n] != Plain(false)
  }

  function NumResults(params: seq<Param>): nat {
    if params == [] then 0 else (if params[0].ResultParam? then 1 else 0) + NumResults(params[1..])
  }

  predicate BodyRuns(c: Call) {
    c.known && c.constructs && Extracts(c.params)
  }

  /** The Result objects, not methodFunction, have to answer. */
  predicate ResultsAnswer(c: Call) {
    BodyRuns(c) && !c.throws && Asynchronous(c.params)
  }

  /** The steps that are really performed. */
  function Performed(c: Call): seq<Step> {
    (if BodyRuns(c) then c.body else []) + c.later
  }

  predicate Fresh(w: World) {
    w.msg && w.sent == [] && forall i :: 0 <= i < |w.results| ==> w.results[i] == Res(0, true, false, false)
  }

  lemma {:induction false} ExtractGivesFresh(w: World, params: seq<Param>)
    requires Fresh(w)
    ensures var (w', ok) := Extract(w, params);
      Fresh(w') && (ok <==> Extracts(params))
      && (ok ==> |w'.results| == |w.results| + NumResults(params))
    decreases |params|
  {
    if params != [] {
      assert forall n :: 1 <= n < |params| ==> params[n] == params[1..][n - 1];
      match params[0] {
        case Plain(extracts) => if extracts { ExtractGivesFresh(w, params[1..]); }
        case ResultParam =>
          ExtractGivesFresh(w.(results := w.results + [Res(0, true, false, false)]), params[1..]);
      }
    }
  }

  lemma FreshInv(w: World)
    requires Fresh(w)
    ensures Inv(w) && Duty(w, 0, true, false)
    ensures forall s :: Count(w.sent, s) == 0
  {
  }

  lemma {:induction false} AsynchronousHasResult(params: seq<Param>)
    ensures Asynchronous(params) <==> NumResults(params) > 0
  {
    if params != [] {
      AsynchronousHasResult(params[1..]);
      assert params == [params[0]] + params[1..];
    }
  }

  /** Leaving the scope of methodFunction, after an exception (`threw`) or without one. */
  lemma ScopeLeft(w: World, threw: bool)
    requires Inv(w) && Duty(w, 0, true, false) && w.msg
    ensures var w' := DropGuards(w.(msg := !threw), |w.results|);
      && Inv(w') && Duty(w', 0, false, !threw)
      && (forall i :: 0 <= i < |w.results| ==> w'.results[i].held == w.results[i].held)
      && Count(w'.sent, Handler) == Count(w.sent, Handler)
      && forall j: nat :: Count(w'.sent, User(j)) == Count(w.sent, User(j))
  {
    hide Count;
    var w1 := w.(msg := !threw);
    assert forall i :: 0 <= i < |w.results| ==> ResInv(w, i) ==> ResInv(w1, i);
    DropGuardsKeepsInv(w1, |w1.results|);
  }

  lemma HandlerSends(w: World)
    requires Inv(w)
    ensures var w' := w.(sent := w.sent + [Handler]);
      && Inv(w') && Count(w'.sent, Handler) == Count(w.sent, Handler) + 1
      && forall j: nat :: Count(w'.sent, User(j)) == Count(w.sent, User(j))
  {
    var w' := w.(sent := w.sent + [Handler]);
    CountOneMore(w.sent, Handler, Handler);
    forall j: nat
      ensures Count(w'.sent, User(j)) == Count(w.sent, User(j))
      ensures Count(w'.sent, Destructor(j)) == Count(w.sent, Destructor(j))
    {
      CountOneMore(w.sent, Handler, User(j));
      CountOneMore(w.sent, Handler, Destructor(j));
    }
    forall i | 0 <= i < |w.results| ensures ResInv(w', i) {
      assert ResInv(w, i);
    }
  }

  /** The state when methodFunction has returned and its reply, if any, is sent. */
  lemma AfterHandler(c: Call)
    requires AllPossible(Extract(START, c.params).0, c.body)
    ensures var w := Handled(c);
      && Inv(w) && Duty(w, 0, false, ResultsAnswer(c))
      && Count(w.sent, Handler) == (if ResultsAnswer(c) then 0 else 1)
      && (forall i: nat :: Count(w.sent, User(i)) == RepliesTo(if BodyRuns(c) then c.body else [], i))
      && (BodyRuns(c) ==> |w.results| == NumResults(c.params))
      && (!BodyRuns(c) ==> forall i :: 0 <= i < |w.results| ==> w.results[i].held == 0)
  {
    hide Inv, Count, DropGuards, ApplyAll;
    FreshInv(START);
    if !c.known {
      HandlerSends(START);
      assert START.sent + [Handler] == [Handler];
    } else if !c.constructs {
      ScopeLeft(START, true);
      assert DropGuards(START.(msg := false), 0) == START.(msg := false) by { NoGuards(START.(msg := false)); }
      HandlerSends(START.(msg := false));
    } else {
      ExtractGivesFresh(START, c.params);
      AsynchronousHasResult(c.params);
      var (w1, ok) := Extract(START, c.params);
      FreshInv(w1);
      if !ok {
        ScopeLeft(w1, true);
        var w2 := DropGuards(w1.(msg := false), |w1.results|);
        HandlerSends(w2);
        assert forall i :: 0 <= i < |w1.results| ==> w2.results[i].held == w1.results[i].held == 0;
      } else {
        ApplyAllKeepsInv(w1, c.body);
        ApplyAllKeepsDuty(w1, c.body, true, false);
        var w2 := ApplyAll(w1, c.body);
        forall i: nat ensures Count(w2.sent, User(i)) == RepliesTo(c.body, i) {
          ApplyAllCounts(w1, c.body, i);
        }
        ApplyAllCounts(w1, c.body, 0);
        var threw := c.throws || (!Asynchronous(c.params) && !c.marshals);
        ScopeLeft(w2, threw);
        assert w2.(msg := true) == w2;
        var w3 := DropGuards(w2.(msg := !threw), |w2.results|);
        if !ResultsAnswer(c) {
          HandlerSends(w3);
        }
      }
    }
  }

  lemma NoGuards(w: World)
    ensures DropGuards(w, 0) == w
  {
  }

  // ---------- every call is answered, and when it is answered once ----------

  /** Replies of `k` objects that all had to answer. */
  function Answers(steps: seq<Step>, k: nat): nat {
    if k == 0 then 0
    else Max(1, RepliesTo(steps, k - 1)) + Answers(steps, k - 1)
  }

  function Max(a: nat, b: nat): nat {
    if a > b then a else b
  }

  /** Replies of `k` objects that did not have to answer. */
  function Extra(steps: seq<Step>, k: nat): nat {
    if k == 0 then 0 else RepliesTo(steps, k - 1) + Extra(steps, k - 1)
  }

  lemma {:induction false} SentBySource(sent: seq<Source>, k: nat)
    requires forall s :: s in sent && !s.Handler? ==> s.i < k
    ensures |sent| == Count(sent, Handler) + FromResults(sent, k)
    decreases |sent|
  {
    if sent == [] {
      NothingFromResults(k);
    } else {
      var n := |sent| - 1;
      var rest, x := sent[..n], sent[n];
      assert sent == rest + [x];
      SentBySource(rest, k);
      CountOneMore(rest, x, Handler);
      OneMoreFromResults(rest, x, k);
    }
  }

  lemma {:induction false} NothingFromResults(k: nat)
    ensures FromResults([], k) == 0
  {
    if k > 0 { NothingFromResults(k - 1); }
  }

  lemma {:induction false} OneMoreFromResults(sent: seq<Source>, x: Source, k: nat)
    ensures FromResults(sent + [x], k) == FromResults(sent, k) + (if !x.Handler? && x.i < k then 1 else 0)
  {
    if k > 0 {
      OneMoreFromResults(sent, x, k - 1);
      CountOneMore(sent, x, User(k - 1));
      CountOneMore(sent, x, Destructor(k - 1));
    }
  }

  lemma {:induction false} SumOverResults(w: World, steps: seq<Step>, owned: bool, k: nat)
    requires Inv(w) && Duty(w, 0, false, owned) && Complete(w) && k <= |w.results|
    requires forall i: nat :: Count(w.sent, User(i)) == RepliesTo(steps, i)
    ensures FromResults(w.sent, k) == if owned then Answers(steps, k) else Extra(steps, k)
  {
    if k > 0 {
      SumOverResults(w, steps, owned, k - 1);
      assert ResInv(w, k - 1) && Count(w.sent, User(k - 1)) == RepliesTo(steps, k - 1);
    }
  }

  lemma RunIsComplete(c: Call)
    requires Legal(c) && Complete(Run(c))
    ensures var w := Run(c);
      && Inv(w) && Duty(w, 0, false, ResultsAnswer(c))
      && Count(w.sent, Handler) == (if ResultsAnswer(c) then 0 else 1)
      && (forall i: nat :: Count(w.sent, User(i)) == RepliesTo(Performed(c), i))
      && StepsBelow(Performed(c), |w.results|)
      && (ResultsAnswer(c) ==> |w.results| == NumResults(c.params) > 0)
  {
    hide Inv, Count, Apply, Possible;
    var w := Handled(c);
    AfterHandler(c);
    AsynchronousHasResult(c.params);
    ApplyAllKeepsInv(w, c.later);
    ApplyAllKeepsDuty(w, c.later, false, ResultsAnswer(c));
    ApplyAllCounts(w, c.later, 0);
    PossibleStepsBelow(w, c.later);
    var before := if BodyRuns(c) then c.body else [];
    if BodyRuns(c) {
      PossibleStepsBelow(Extract(START, c.params).0, c.body);
      ExtractGivesFresh(START, c.params);
    }
    forall i: nat ensures Count(Run(c).sent, User(i)) == RepliesTo(Performed(c), i) {
      ApplyAllCounts(w, c.later, i);
      RepliesToConcat(before, c.later, i);
    }
  }

  /** The number of replies for a call, when all Result objects are gone: there is
      always at least one. */
  lemma ReplyCount(c: Call)
    requires Legal(c) && Complete(Run(c))
    ensures |Run(c).sent| ==
      if ResultsAnswer(c) then Answers(Performed(c), NumResults(c.params))
      else 1 + NumReplies(Performed(c))
    ensures |Run(c).sent| >= 1
  {
    hide Inv, Count, Run;
    var w := Run(c);
    RunIsComplete(c);
    assert forall s :: s in w.sent && !s.Handler? ==> s.i < |w.results| by { InvSources(w); }
    SentBySource(w.sent, |w.results|);
    SumOverResults(w, Performed(c), ResultsAnswer(c), |w.results|);
    ExtraIsAll(Performed(c), |w.results|);
  }

  lemma InvSources(w: World)
    requires Inv(w)
    ensures forall s :: s in w.sent && !s.Handler? ==> s.i < |w.results|
  {
  }

  lemma {:induction false} ExtraIsAll(steps: seq<Step>, k: nat)
    requires StepsBelow(steps, k)
    ensures Extra(steps, k) == NumReplies(steps)
    decreases |steps|
  {
    if steps == [] {
      ExtraOfNothing(k);
    } else {
      ExtraIsAll(steps[1..], k);
      ExtraStep(steps, k);
    }
  }

  lemma {:induction false} ExtraOfNothing(k: nat)
    ensures Extra([], k) == 0
  {
    if k > 0 { ExtraOfNothing(k - 1); }
  }

  lemma {:induction false} ExtraStep(steps: seq<Step>, k: nat)
    requires steps != []
    ensures Extra(steps, k) == Extra(steps[1..], k) + (if Replies(steps[0]) && steps[0].i < k then 1 else 0)
  {
    if k > 0 { ExtraStep(steps, k - 1); }
  }

  /** Exactly one reply is sent exactly if the application plays by the rules: at most
      one Result parameter, answered at most once, and not at all if the function throws
      or some other argument could not be extracted. */
  lemma ExactlyOneReply(c: Call)
    requires Legal(c) && Complete(Run(c))
    ensures |Run(c).sent| == 1 <==>
      if ResultsAnswer(c) then NumResults(c.params) == 1 && NumReplies(Performed(c)) <= 1
      else NumReplies(Performed(c)) == 0
  {
    hide Run;
    ReplyCount(c);
    var k := NumResults(c.params);
    if ResultsAnswer(c) {
      RunIsComplete(c);
      if k == 1 {
        ExtraIsAll(Performed(c), 1);
        assert Extra(Performed(c), 1) == RepliesTo(Performed(c), 0) + Extra(Performed(c), 0);
        assert Answers(Performed(c), 1) == Max(1, RepliesTo(Performed(c), 0)) + Answers(Performed(c), 0);
      } else {
        ManyAnswers(Performed(c), k);
      }
    }
  }

  lemma {:induction false} ManyAnswers(steps: seq<Step>, k: nat)
    ensures Answers(steps, k) >= k
  {
    if k > 0 { ManyAnswers(steps, k - 1); }
  }

  // ---------- references, by counting ----------

  function Copies(steps: seq<Step>, i: nat): nat {
    if steps == [] then 0 else (if steps[0] == Copy(i) then 1 else 0) + Copies(steps[1..], i)
  }

  function Drops(steps: seq<Step>, i: nat): nat {
    if steps == [] then 0 else (if steps[0] == Drop(i) then 1 else 0) + Drops(steps[1..], i)
  }

  /** The copies of object `i` that the application still has after `steps`. */
  function Balance(steps: seq<Step>, i: nat): int {
    Copies(steps, i) - Drops(steps, i)
  }

  lemma ApplyHeld(w: World, s: Step, i: nat)
    requires Possible(w, s) && i < |w.results|
    ensures var r := Apply(w, s).results[i];
      && r.guard == w.results[i].guard
      && r.held == w.results[i].held + Balance([s], i)
  {
    BalanceOfOne(s, i);
  }

  lemma BalanceOfOne(s: Step, i: nat)
    ensures Balance([s], i) == if s == Copy(i) then 1 else if s == Drop(i) then -1 else 0
  {
    var none: seq<Step> := [s][1..];
    assert none == [] && Copies(none, i) == 0 && Drops(none, i) == 0;
  }

  lemma {:induction false} BalanceConcat(a: seq<Step>, b: seq<Step>, i: nat)
    ensures Balance(a + b, i) == Balance(a, i) + Balance(b, i)
  {
    if a == [] {
      assert a + b == b;
    } else {
      assert (a + b)[1..] == a[1..] + b;
      BalanceConcat(a[1..], b, i);
    }
  }

  lemma BalanceHead(steps: seq<Step>, i: nat)
    requires steps != []
    ensures Balance(steps, i) == Balance([steps[0]], i) + Balance(steps[1..], i)
  {
    assert steps == [steps[0]] + steps[1..];
    BalanceConcat([steps[0]], steps[1..], i);
  }

  /** Over any possible steps, the references to an object grow by the copies that were
      made and shrink by those that were given up. */
  lemma {:induction false} HeldByCounting(w: World, steps: seq<Step>, i: nat)
    requires AllPossible(w, steps) && i < |w.results|
    ensures var w' := ApplyAll(w, steps);
      && |w'.results| == |w.results|
      && w'.results[i].held == w.results[i].held + Balance(steps, i)
      && w'.results[i].guard == w.results[i].guard
    decreases |steps|
  {
    hide Apply, Possible, Balance;
    if steps == [] {
      BalanceOfNothing(i);
    } else {
      ApplyHeld(w, steps[0], i);
      BalanceHead(steps, i);
      HeldByCounting(Apply(w, steps[0]), steps[1..], i);
    }
  }

  lemma BalanceOfNothing(i: nat)
    ensures Balance([], i) == 0
  {
  }

  /** A step is possible after others if its object exists and something still refers to
      it; a copy can only be given up if there is one. */
  predicate Allowed(w: World, before: seq<Step>, s: Step) {
    && s.i < |w.results|
    && (w.results[s.i].guard || w.results[s.i].held + Balance(before, s.i) > 0)
    && (s.Drop? ==> w.results[s.i].held + Balance(before, s.i) > 0)
  }

  lemma AllowedAfterHead(w: World, s: Step, before: seq<Step>, t: Step)
    requires Possible(w, s)
    ensures Allowed(w, [s] + before, t) <==> Allowed(Apply(w, s), before, t)
  {
    hide Balance;
    if t.i < |w.results| {
      ApplyHeld(w, s, t.i);
      BalanceConcat([s], before, t.i);
    }
  }

  /** Which sequences of steps are possible, by counting copies alone. */
  lemma {:induction false} PossibleByCounting(w: World, steps: seq<Step>)
    ensures AllPossible(w, steps) <==> forall n :: 0 <= n < |steps| ==> Allowed(w, steps[..n], steps[n])
    decreases |steps|
  {
    hide Apply, Possible, Allowed;
    if steps != [] {
      var s, rest := steps[0], steps[1..];
      assert steps[..0] == [];
      AllowedFirst(w, s);
      if Possible(w, s) {
        PossibleByCounting(Apply(w, s), rest);
        forall n | 0 <= n < |rest|
          ensures Allowed(w, steps[..n + 1], steps[n + 1]) <==> Allowed(Apply(w, s), rest[..n], rest[n])
        {
          assert steps[..n + 1] == [s] + rest[..n];
          AllowedAfterHead(w, s, rest[..n], rest[n]);
        }
        assert forall n :: 1 <= n < |steps| ==>
          (Allowed(w, steps[..n], steps[n]) <==> Allowed(Apply(w, s), rest[..n - 1], rest[n - 1]));
      }
    }
  }

  lemma AllowedFirst(w: World, s: Step)
    ensures Allowed(w, [], s) <==> Possible(w, s)
  {
    if s.i < |w.results| { BalanceOfNothing(s.i); }
  }

  /** The objects after the function has returned. */
  lemma AfterReturn(c: Call)
    requires BodyRuns(c) && AllPossible(Extract(START, c.params).0, c.body)
    ensures var w := Handled(c);
      && |w.results| == NumResults(c.params)
      && forall i :: 0 <= i < |w.results| ==> !w.results[i].guard && w.results[i].held == Balance(c.body, i)
  {
    hide Inv, Count, Balance, ApplyAll, DropGuards;
    ExtractGivesFresh(START, c.params);
    var w1 := Extract(START, c.params).0;
    FreshInv(w1);
    ApplyAllKeepsInv(w1, c.body);
    ApplyAllKeepsDuty(w1, c.body, true, false);
    var w2 := ApplyAll(w1, c.body);
    ScopeLeft(w2, c.throws || (!Asynchronous(c.params) && !c.marshals));
    AfterHandler(c);
    assert w2.(msg := true) == w2;
    forall i | 0 <= i < |w2.results| ensures w2.results[i].held == Balance(c.body, i) {
      HeldByCounting(w1, c.body, i);
    }
  }

  /** Which runs there are of a call whose function is executed: in the function a Result
      object can be used freely, and copies given up as often as they were made; afterwards
      only objects of which there are copies can be used. */
  lemma LegalByCounting(c: Call)
    requires BodyRuns(c)
    ensures Legal(c) <==>
      && (forall n :: 0 <= n < |c.body| ==>
            var s := c.body[n];
            s.i < NumResults(c.params) && (s.Drop? ==> Balance(c.body[..n], s.i) > 0))
      && (forall n :: 0 <= n < |c.later| ==>
            var s := c.later[n];
            s.i < NumResults(c.params) && Balance(c.body, s.i) + Balance(c.later[..n], s.i) > 0)
  {
    hide Balance, AllPossible, Handled;
    ExtractGivesFresh(START, c.params);
    var w1 := Extract(START, c.params).0;
    PossibleByCounting(w1, c.body);
    if AllPossible(w1, c.body) {
      AfterReturn(c);
      PossibleByCounting(Handled(c), c.later);
    }
  }

  /** At the end of any run, finished or not: the references to each object are the copies
      made minus those given up, and the destructor has answered exactly if the object had
      the duty, nothing refers to it any more, and nobody else answered. */
  lemma DestructorExact(c: Call, i: nat)
    requires Legal(c) && BodyRuns(c) && i < NumResults(c.params)
    ensures var w := Run(c);
      && |w.results| == NumResults(c.params)
      && w.results[i].held == Balance(Performed(c), i)
      && (Destructor(i) in w.sent <==>
            ResultsAnswer(c) && Balance(Performed(c), i) == 0 && RepliesTo(Performed(c), i) == 0)
  {
    hide Balance, Apply, Possible, AllPossible, Handled;
    var w := Handled(c);
    AfterHandler(c);
    AfterReturn(c);
    HeldByCounting(w, c.later, i);
    BalanceConcat(c.body, c.later, i);
    ApplyAllKeepsInv(w, c.later);
    ApplyAllKeepsDuty(w, c.later, false, ResultsAnswer(c));
    ApplyAllCounts(w, c.later, i);
    RepliesToConcat(c.body, c.later, i);
    assert ResInv(Run(c), i);
  }

  function Times(n: nat, s: Step): seq<Step> {
    if n == 0 then [] else [s] + Times(n - 1, s)
  }

  lemma {:induction false} TimesAt(n: nat, s: Step)
    ensures |Times(n, s)| == n && forall k :: 0 <= k < n ==> Times(n, s)[k] == s
    ensures forall k :: 0 <= k <= n ==> Times(n, s)[..k] == Times(k, s)
  {
    if n > 0 {
      TimesAt(n - 1, s);
      var r, rest := Times(n, s), Times(n - 1, s);
      forall k | 0 <= k <= n ensures r[..k] == Times(k, s) {
        if k > 0 { assert r[..k] == [s] + rest[..k - 1]; }
      }
    }
  }

  lemma {:induction false} BalanceOfTimes(n: nat, s: Step)
    ensures s.Copy? ==> Balance(Times(n, s), s.i) == n
    ensures s.Drop? ==> Balance(Times(n, s), s.i) == 0 - n
    ensures s.Done? || s.Failed? ==> Balance(Times(n, s), s.i) == 0
    decreases n
  {
    if n > 0 {
      BalanceOfTimes(n - 1, s);
      assert Times(n, s)[1..] == Times(n - 1, s);
    }
  }

  /** A function that keeps any number of copies of its Result object, through which it is
      answered later, before they are all given up. */
  lemma KeptAndAnswered(c: Call, n: nat)
    requires BodyRuns(c) && !c.throws && NumResults(c.params) == 1 && n > 0
    requires c.body == Times(n, Copy(0)) && c.later == [Done(0, true)] + Times(n, Drop(0))
    ensures Legal(c) && Complete(Run(c))
  {
    hide Balance, Legal, Run, Times;
    TimesAt(n, Copy(0));
    TimesAt(n, Drop(0));
    BalanceOfTimes(n, Copy(0));
    BalanceOfTimes(n, Drop(0));
    BalanceOfTimes(1, Done(0, true));
    OneTime(Done(0, true));
    forall k | 0 < k < |c.later| ensures Balance(c.later[..k], 0) == 1 - k {
      assert c.later[..k] == [Done(0, true)] + Times(n, Drop(0))[..k - 1];
      BalanceConcat([Done(0, true)], Times(k - 1, Drop(0)), 0);
      BalanceOfTimes(k - 1, Drop(0));
    }
    assert c.later[..0] == [];
    BalanceOfNothing(0);
    LegalByCounting(c);
    BalanceConcat([Done(0, true)], Times(n, Drop(0)), 0);
    BalanceConcat(c.body, c.later, 0);
    DestructorExact(c, 0);
  }

  lemma OneTime(s: Step)
    ensures Times(1, s) == [s]
  {
    assert Times(0, s) == [];
  }

  /** Two Result parameters, both dropped unanswered: two replies to one call. */
  lemma TwoResultsReplyTwice()
    ensures var c := Call(true, true, [ResultParam, ResultParam], [], false, true, []);
      Legal(c) && Complete(Run(c)) && |Run(c).sent| == 2
  {
    var c := Call(true, true, [ResultParam, ResultParam], [], false, true, []);
    var r := Res(0, true, false, false);
    assert c.params[1..] == [ResultParam] && c.params[1..][1..] == [];
    assert [] + [r] == [r] && [r] + [r] == [r, r];
    assert Extract(START, c.params) == (World(true, [r, r], []), true);
    DropTwo();
  }

  lemma DropTwo()
    ensures var r := Res(0, true, false, false);
      var w := DropGuards(World(true, [r, r], []), 2);
      Complete(w) && |w.sent| == 2
  {
    var r, gone := Res(0, true, false, false), Res(0, false, true, true);
    var w1 := DropGuard(World(true, [r, r], []), 1);
    assert w1.results == [r, gone] && w1.sent == [Destructor(1)];
    var w2 := DropGuard(w1, 0);
    assert w2.results == [gone, gone] && |w2.sent| == 2;
    assert DropGuards(w1, 1) == DropGuards(w2, 0) == w2;
  }
}
