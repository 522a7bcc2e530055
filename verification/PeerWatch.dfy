/** Watching one peer on the bus: the watch subscribes to NameOwnerChanged first and asks
    whether the peer exists afterwards, while the peer may exit, signals arrive and the
    callback is replaced at any time. */
module PeerWatch {
  import opened Wrappers

  // ---------- the watch ----------

  /** `installed` counts the callbacks so far, and a callback is named by its number;
      `ran` is the sequence of callback invocations. */
  datatype Watch = Watch(called: bool, callback: Option<nat>, installed: nat, ran: seq<nat>)

  function Invoked(w: Watch): Watch {
    if w.callback.Some? then w.(ran := w.ran + [w.callback.value]) else w
  }

  function Disconnected(w: Watch): Watch {
    if w.called then w else Invoked(w.(called := true))
  }

  /** A new callback, or none (`empty`); a watch that has fired calls it at once. */
  function SetCallback(w: Watch, empty: bool): Watch {
    var w' := if empty then w.(callback := None)
              else w.(callback := Some(w.installed), installed := w.installed + 1);
    if w.called then Invoked(w') else w'
  }

  /** NameOwnerChanged, as far as the handler looks at it. */
  datatype Signal = Signal(name: string, newOwner: string)

  function NameOwnerChanged(w: Watch, peer: string, s: Signal): Watch {
    if !w.called && s.name == peer && s.newOwner == "" then Disconnected(w) else w
  }

  /** The same, as an object whose methods update it. */
  class PeerWatch {
    const peer: string
    var called: bool
    var callback: Option<nat>
    var installed: nat
    var ran: seq<nat>

    ghost function View(): Watch
      reads this
    {
      Watch(called, callback, installed, ran)
    }

    constructor (peer: string, empty: bool)
      ensures this.peer == peer && View() == Initial(empty)
    {
      this.peer := peer;
      called, callback, installed, ran := false, (if empty then None else Some(0)), (if empty then 0 else 1), [];
    }

    method HandleDisconnected()
      modifies this
      ensures View() == Disconnected(old(View()))
    {
      if !called {
        called := true;
        if callback.Some? {
          ran := ran + [callback.value];
        }
      }
    }

    method HandleSetCallback(empty: bool)
      modifies this
      ensures View() == SetCallback(old(View()), empty)
    {
      if empty {
        callback := None;
      } else {
        callback := Some(installed);
        installed := installed + 1;
      }
      if called && callback.Some? {
        ran := ran + [callback.value];
      }
    }

    method HandleNameOwnerChanged(s: Signal)
      modifies this
      ensures View() == NameOwnerChanged(old(View()), peer, s)
    {
      if !called {
        var matches := s.name == peer && s.newOwner == "";
        if matches {
          HandleDisconnected();
        }
      }
    }
  }

  function Initial(empty: bool): Watch {
    Watch(false, if empty then None else Some(0), if empty then 0 else 1, [])
  }

  // ---------- the watch, the bus and the peer ----------

  /** Steps of activate: the match rule and the question are sent, the bus installs the
      rule, the bus answers, the answer arrives. */
  datatype Phase = Created | Sent | RuleInstalled | Answered(hasOwner: bool) | Active | Failed

  datatype World = World(w: Watch, phase: Phase, gone: bool, queue: seq<Signal>)

  datatype Event =
    | Activate
    | BusInstallsRule
    | BusAnswers
    | AnswerArrives(error: bool)
    | PeerExits
    | OtherSignal(s: Signal)   // any change of another name, or of this one to an owner
    | Deliver
    | NewCallback(empty: bool)

  predicate Listening(p: Phase) {
    p.RuleInstalled? || p.Answered? || p.Active? || p.Failed?
  }

  function Queued(x: World, s: Signal): World {
    if Listening(x.phase) then x.(queue := x.queue + [s]) else x
  }

  /** Events that cannot happen in a state change nothing. The name of the peer is a
      unique one: once gone, it never comes back. */
  function Step(peer: string, x: World, e: Event): World {
    match e
    case Activate => if x.phase.Created? then x.(phase := Sent) else x
    case BusInstallsRule => if x.phase.Sent? then x.(phase := RuleInstalled) else x
    case BusAnswers => if x.phase.RuleInstalled? then x.(phase := Answered(!x.gone)) else x
    case AnswerArrives(error) =>
      if !x.phase.Answered? then x
      else if error then x.(phase := Failed)
      else if x.phase.hasOwner then x.(phase := Active)
      else x.(phase := Active, w := Disconnected(x.w))
    case PeerExits => if x.gone then x else Queued(x.(gone := true), Signal(peer, ""))
    case OtherSignal(s) => if s == Signal(peer, "") then x else Queued(x, s)
    case Deliver =>
      if x.queue == [] then x
      else x.(queue := x.queue[1..], w := NameOwnerChanged(x.w, peer, x.queue[0]))
    case NewCallback(empty) => x.(w := SetCallback(x.w, empty))
  }

  function Run(peer: string, x: World, es: seq<Event>): World
    decreases |es|
  {
    if es == [] then x else Run(peer, Step(peer, x, es[0]), es[1..])
  }

  function Start(empty: bool): World {
    World(Initial(empty), Created, false, [])
  }

  // ---------- invariants ----------

  function Runs(ran: seq<nat>, k: nat): nat {
    multiset(ran)[k]
  }

  /** A callback has run once if the watch had fired while it was installed or when it
      was installed; no callback runs twice. */
  ghost predicate CallbacksInv(w: Watch) {
    && (forall k: nat :: Runs(w.ran, k) <= 1)
    && (forall k :: k in w.ran ==> k < w.installed && w.called)
    && (w.callback.Some? ==>
          && w.callback.value == w.installed - 1
          && (w.callback.value in w.ran <==> w.called))
  }

  /** The disconnect is known, or on its way. */
  predicate DisconnectInv(peer: string, x: World) {
    && (x.w.called ==> x.gone)
    && (Signal(peer, "") in x.queue ==> x.gone)
    && (x.phase.Answered? && !x.phase.hasOwner ==> x.gone)
    && (x.gone ==>
          || x.w.called
          || Signal(peer, "") in x.queue
          || x.phase.Created? || x.phase.Sent? || x.phase.RuleInstalled? || x.phase.Failed?
          || (x.phase.Answered? && !x.phase.hasOwner))
  }

  lemma InvokedKeepsInv(w: Watch)
    requires forall k: nat :: Runs(w.ran, k) <= 1
    requires forall k :: k in w.ran ==> k < w.installed
    requires w.called
    requires w.callback.Some? ==> w.callback.value == w.installed - 1 && w.callback.value !in w.ran
    ensures CallbacksInv(Invoked(w))
  {
    if w.callback.Some? {
      var r: seq<nat> := w.ran + [w.callback.value];
      forall k: nat ensures Runs(r, k) <= 1 {
        assert Runs(r, k) == Runs(w.ran, k) + (if k == w.callback.value then 1 else 0);
      }
    }
  }

  lemma StepKeepsCallbacks(peer: string, x: World, e: Event)
    requires CallbacksInv(x.w)
    ensures CallbacksInv(Step(peer, x, e).w)
  {
    if !x.w.called {
      InvokedKeepsInv(x.w.(called := true));
    }
    match e {
      case NewCallback(empty) =>
        var w' := if empty then x.w.(callback := None)
                  else x.w.(callback := Some(x.w.installed), installed := x.w.installed + 1);
        if x.w.called { InvokedKeepsInv(w'); }
      case _ =>
    }
  }

  lemma StepKeepsDisconnect(peer: string, x: World, e: Event)
    requires DisconnectInv(peer, x)
    ensures DisconnectInv(peer, Step(peer, x, e))
  {
    var y := Step(peer, x, e);
    var s := Signal(peer, "");
    match e {
      case Deliver =>
        if x.queue != [] {
          assert x.queue == [x.queue[0]] + y.queue;
          assert s in x.queue <==> s == x.queue[0] || s in y.queue;
        }
      case PeerExits =>
        assert !x.gone && Listening(x.phase) ==> y.queue[|x.queue|] == s;
      case OtherSignal(t) =>
        assert s in y.queue <==> s in x.queue;
      case _ =>
    }
  }

  lemma {:induction false} RunKeepsInv(peer: string, x: World, es: seq<Event>)
    requires DisconnectInv(peer, x) && CallbacksInv(x.w)
    ensures DisconnectInv(peer, Run(peer, x, es)) && CallbacksInv(Run(peer, x, es).w)
    decreases |es|
  {
    hide Step, DisconnectInv, CallbacksInv;
    if es != [] {
      StepKeepsDisconnect(peer, x, es[0]);
      StepKeepsCallbacks(peer, x, es[0]);
      RunKeepsInv(peer, Step(peer, x, es[0]), es[1..]);
    }
  }

  /** For every interleaving: once activation has returned and the signals are drained,
      the watch has fired exactly if the peer is gone. */
  lemma NoLostDisconnect(peer: string, empty: bool, es: seq<Event>)
    ensures var x := Run(peer, Start(empty), es);
      x.phase.Active? && x.queue == [] ==> (x.w.called <==> x.gone)
  {
    RunKeepsInv(peer, Start(empty), es);
  }

  /** For every interleaving, finished or not: nothing fires for a peer that is still
      there, every installed callback runs at most once, and the current one has run
      exactly if the watch has fired. */
  lemma NoDoubledDisconnect(peer: string, empty: bool, es: seq<Event>, k: nat)
    ensures var w := Run(peer, Start(empty), es).w;
      && Runs(w.ran, k) <= 1
      && (w.called ==> Run(peer, Start(empty), es).gone)
      && (w.callback == Some(k) ==> Runs(w.ran, k) == if w.called then 1 else 0)
  {
    RunKeepsInv(peer, Start(empty), es);
  }

  // ---------- which callback is installed ----------

  /** The number of callbacks that were installed: callbacks are named in this order. */
  function NumCallbacks(empty: bool, es: seq<Event>): nat {
    (if empty then 0 else 1) + Settings(es)
  }

  function Settings(es: seq<Event>): nat {
    if es == [] then 0 else (if es[0] == NewCallback(false) then 1 else 0) + Settings(es[1..])
  }

  /** The last setCallback gave a callback, or there was none and the watch was created
      with one. */
  predicate EndsSet(empty: bool, es: seq<Event>) {
    || (exists n :: 0 <= n < |es| && LastSettingAt(es, n) && es[n] == NewCallback(false))
    || (!empty && forall k :: 0 <= k < |es| ==> !es[k].NewCallback?)
  }

  predicate LastSettingAt(es: seq<Event>, n: nat)
    requires n < |es|
  {
    es[n].NewCallback? && forall k :: n < k < |es| ==> !es[k].NewCallback?
  }

  lemma EndsSetHead(empty: bool, es: seq<Event>)
    requires es != []
    ensures EndsSet(empty, es) <==> EndsSet(if es[0].NewCallback? then es[0].empty else empty, es[1..])
  {
    var tail := es[1..];
    assert forall k :: 1 <= k < |es| ==> es[k] == tail[k - 1];
    forall n | 0 <= n < |tail| ensures LastSettingAt(tail, n) <==> LastSettingAt(es, n + 1) {
      assert forall k :: n < k < |tail| ==> tail[k] == es[k + 1];
    }
    if n :| 0 <= n < |es| && LastSettingAt(es, n) && es[n] == NewCallback(false) {
      assert n > 0 ==> LastSettingAt(tail, n - 1) && tail[n - 1] == NewCallback(false);
      assert n == 0 ==> forall k :: 0 <= k < |tail| ==> !tail[k].NewCallback?;
    }
    if n :| 0 <= n < |tail| && LastSettingAt(tail, n) && tail[n] == NewCallback(false) {
      assert LastSettingAt(es, n + 1) && es[n + 1] == NewCallback(false);
    }
    if (forall k :: 0 <= k < |tail| ==> !tail[k].NewCallback?) && es[0] == NewCallback(false) {
      assert LastSettingAt(es, 0);
    }
  }

  /** What one event does to the installed callback. */
  lemma StepInstalls(peer: string, x: World, e: Event)
    ensures var w := Step(peer, x, e).w;
      && w.installed == x.w.installed + (if e == NewCallback(false) then 1 else 0)
      && w.callback ==
           if e == NewCallback(false) then Some(x.w.installed)
           else if e == NewCallback(true) then None
           else x.w.callback
  {
  }

  lemma {:induction false} RunInstalls(peer: string, x: World, empty: bool, es: seq<Event>)
    requires x.w.callback == if empty then None else Some(x.w.installed - 1)
    requires !empty ==> x.w.installed > 0
    ensures var w := Run(peer, x, es).w;
      && w.installed == x.w.installed + Settings(es)
      && (if EndsSet(empty, es) then w.installed > 0 && w.callback == Some(w.installed - 1) else w.callback == None)
    decreases |es|
  {
    hide Step;
    if es != [] {
      StepInstalls(peer, x, es[0]);
      EndsSetHead(empty, es);
      RunInstalls(peer, Step(peer, x, es[0]), if es[0].NewCallback? then es[0].empty else empty, es[1..]);
    }
  }

  /** For every interleaving: the callback that was installed last is there, unless the
      last setCallback took it away. Once activation has returned and the signals are
      drained, it has run exactly once if the peer is gone, and not at all otherwise. */
  lemma LastCallbackRunsOnce(peer: string, empty: bool, es: seq<Event>)
    ensures var x := Run(peer, Start(empty), es);
      var n := NumCallbacks(empty, es);
      && (!EndsSet(empty, es) ==> x.w.callback == None)
      && (EndsSet(empty, es) ==> n > 0 && x.w.callback == Some(n - 1))
      && (EndsSet(empty, es) && x.phase.Active? && x.queue == [] ==>
            Runs(x.w.ran, n - 1) == if x.gone then 1 else 0)
  {
    hide EndsSet, Runs;
    RunInstalls(peer, Start(empty), empty, es);
    NoLostDisconnect(peer, empty, es);
    if EndsSet(empty, es) {
      NoDoubledDisconnect(peer, empty, es, NumCallbacks(empty, es) - 1);
    }
  }

  // ---------- everything can become quiet ----------

  const ACTIVATION := [Activate, BusInstallsRule, BusAnswers, AnswerArrives(false)]

  lemma RunFour(peer: string, x: World)
    ensures Run(peer, x, ACTIVATION) ==
      Step(peer, Step(peer, Step(peer, Step(peer, x, Activate), BusInstallsRule), BusAnswers), AnswerArrives(false))
  {
    hide Step;
    var es := ACTIVATION;
    assert es[1..] == [BusInstallsRule, BusAnswers, AnswerArrives(false)];
    assert es[1..][1..] == [BusAnswers, AnswerArrives(false)];
    assert es[1..][1..][1..] == [AnswerArrives(false)];
    assert es[1..][1..][1..][1..] == [];
  }

  /** A watch that was not activated yet is active after the steps of activation; if the
      peer was gone before, it has fired by then. */
  lemma ActivationCompletes(peer: string, x: World)
    requires x.phase.Created?
    ensures var y := Run(peer, x, ACTIVATION);
      y.phase.Active? && y.gone == x.gone && (x.gone ==> y.w.called) && y.queue == x.queue
  {
    RunFour(peer, x);
  }

  function Deliveries(n: nat): seq<Event> {
    if n == 0 then [] else [Deliver] + Deliveries(n - 1)
  }

  /** Delivering the signals that are on their way leaves none. */
  lemma {:induction false} QueueDrains(peer: string, x: World)
    ensures var y := Run(peer, x, Deliveries(|x.queue|));
      y.queue == [] && y.phase == x.phase && y.gone == x.gone
    decreases |x.queue|
  {
    if x.queue != [] {
      var n := |x.queue|;
      assert Deliveries(n)[0] == Deliver && Deliveries(n)[1..] == Deliveries(n - 1);
      QueueDrains(peer, Step(peer, x, Deliver));
    }
  }

  // ---------- the same run on the object ----------

  /** Watch::activate and the signal handlers on a real object, with the bus, the peer and
      the signals on their way as local state: any interleaving has the effect of the run
      on values, so the lemmas above speak about the object. */
  method RunOn(watch: PeerWatch, phase0: Phase, gone0: bool, queue0: seq<Signal>, es: seq<Event>)
    returns (phase: Phase, gone: bool, queue: seq<Signal>)
    modifies watch
    ensures World(watch.View(), phase, gone, queue) ==
      Run(watch.peer, World(old(watch.View()), phase0, gone0, queue0), es)
  {
    phase, gone, queue := phase0, gone0, queue0;
    ghost var x := World(watch.View(), phase, gone, queue);
    for n := 0 to |es|
      invariant Run(watch.peer, World(watch.View(), phase, gone, queue), es[n..]) == Run(watch.peer, x, es)
    {
      assert es[n..][0] == es[n] && es[n..][1..] == es[n + 1..];
      phase, gone, queue := StepOn(watch, phase, gone, queue, es[n]);
    }
  }

  method StepOn(watch: PeerWatch, phase0: Phase, gone0: bool, queue0: seq<Signal>, e: Event)
    returns (phase: Phase, gone: bool, queue: seq<Signal>)
    modifies watch
    ensures World(watch.View(), phase, gone, queue) ==
      Step(watch.peer, World(old(watch.View()), phase0, gone0, queue0), e)
  {
    phase, gone, queue := phase0, gone0, queue0;
    match e {
      case Activate => if phase.Created? { phase := Sent; }
      case BusInstallsRule => if phase.Sent? { phase := RuleInstalled; }
      case BusAnswers => if phase.RuleInstalled? { phase := Answered(!gone); }
      case AnswerArrives(error) =>
        if phase.Answered? {
          if error {
            phase := Failed;
          } else {
            if !phase.hasOwner { watch.HandleDisconnected(); }
            phase := Active;
          }
        }
      case PeerExits =>
        if !gone {
          gone := true;
          if Listening(phase) { queue := queue + [Signal(watch.peer, "")]; }
        }
      case OtherSignal(s) =>
        if s != Signal(watch.peer, "") && Listening(phase) { queue := queue + [s]; }
      case Deliver =>
        if queue != [] {
          watch.HandleNameOwnerChanged(queue[0]);
          queue := queue[1..];
        }
      case NewCallback(empty) => watch.HandleSetCallback(empty);
    }
  }

  /** A new watch, watched until everything is quiet. */
  method WatchPeer(peer: string, empty: bool, es: seq<Event>) returns (watch: PeerWatch, gone: bool, quiet: bool)
    ensures fresh(watch)
    ensures quiet ==> (watch.called <==> gone)
    ensures EndsSet(empty, es) ==> NumCallbacks(empty, es) > 0
    ensures watch.callback == if EndsSet(empty, es) then Some(NumCallbacks(empty, es) - 1) else None
    ensures quiet && EndsSet(empty, es) ==>
      Runs(watch.ran, NumCallbacks(empty, es) - 1) == if gone then 1 else 0
  {
    watch := new PeerWatch(peer, empty);
    var phase, queue;
    phase, gone, queue := RunOn(watch, Created, false, [], es);
    quiet := phase.Active? && queue == [];
    NoLostDisconnect(peer, empty, es);
    LastCallbackRunsOnce(peer, empty, es);
  }
}
