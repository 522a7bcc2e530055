/** The linked list of watches of one connection, and the walk with which a change of a
    bus name is reported to them while their callbacks unlink nodes. */
module WatchList {
  import opened Sequences

  /** What a callback of a watch does to the watch itself. A one-shot callback is the
      disconnect_function: it runs the application's function, which may remove the
      watch, and then removes the watch by its identifier. */
  datatype Callback = Nothing | Keeps | RemovesItself | OneShot(functionRemoves: bool) {
    predicate EndsWatch() {
      RemovesItself? || OneShot?
    }
  }

  datatype Watch = Watch(id: nat, name: string, connect: Callback, disconn: Callback)

  datatype Event = Appears | Vanishes | Moves

  /** The three arguments of NameOwnerChanged are a name, its old and its new owner. */
  function EventOf(old_: string, new_: string): Event {
    if old_ == "" && new_ != "" then Appears
    else if old_ != "" && new_ == "" then Vanishes
    else Moves
  }

  // ---------- the effect of one notification ----------

  /** The callback that a watch gets for an event of `name`. */
  function Called(w: Watch, name: string, e: Event): Callback {
    if w.name != name then Nothing
    else match e
      case Appears => w.connect
      case Vanishes => w.disconn
      case Moves => Nothing
  }

  /** The watches that are told, in the order of registration. */
  function Notified(ws: seq<Watch>, name: string, e: Event): seq<nat> {
    if ws == [] then []
    else (if Called(ws[0], name, e).Nothing? then [] else [ws[0].id]) + Notified(ws[1..], name, e)
  }

  /** The watches that are still there afterwards. */
  function Kept(ws: seq<Watch>, name: string, e: Event): seq<Watch> {
    if ws == [] then []
    else (if Called(ws[0], name, e).EndsWatch() then [] else [ws[0]]) + Kept(ws[1..], name, e)
  }

  lemma {:induction false} NotifiedOneMore(ws: seq<Watch>, w: Watch, name: string, e: Event)
    ensures Notified(ws + [w], name, e) ==
      Notified(ws, name, e) + (if Called(w, name, e).Nothing? then [] else [w.id])
  {
    if ws == [] {
      assert [w][1..] == [];
    } else {
      assert (ws + [w])[1..] == ws[1..] + [w];
      NotifiedOneMore(ws[1..], w, name, e);
      Associative(if Called(ws[0], name, e).Nothing? then [] else [ws[0].id], Notified(ws[1..], name, e),
        if Called(w, name, e).Nothing? then [] else [w.id]);
    }
  }

  lemma {:induction false} KeptOneMore(ws: seq<Watch>, w: Watch, name: string, e: Event)
    ensures Kept(ws + [w], name, e) ==
      Kept(ws, name, e) + (if Called(w, name, e).EndsWatch() then [] else [w])
  {
    if ws == [] {
      assert [w][1..] == [];
    } else {
      assert (ws + [w])[1..] == ws[1..] + [w];
      KeptOneMore(ws[1..], w, name, e);
      Associative(if Called(ws[0], name, e).EndsWatch() then [] else [ws[0]], Kept(ws[1..], name, e),
        if Called(w, name, e).EndsWatch() then [] else [w]);
    }
  }

  function FaultOf(cb: Callback, e: Event): nat {
    if e.Appears? && cb.EndsWatch() then 1 else 0
  }

  /** The watches that are read after they were freed: owner_function looks for the
      disconnect callback of a watch after it called the connect callback. */
  function Faults(ws: seq<Watch>, name: string, e: Event): nat {
    if ws == [] then 0
    else FaultOf(Called(ws[0], name, e), e) + Faults(ws[1..], name, e)
  }

  lemma {:induction false} FaultsOneMore(ws: seq<Watch>, w: Watch, name: string, e: Event)
    ensures Faults(ws + [w], name, e) ==
      Faults(ws, name, e) + FaultOf(Called(w, name, e), e)
  {
    if ws == [] {
      assert [w][1..] == [];
    } else {
      assert (ws + [w])[1..] == ws[1..] + [w];
      FaultsOneMore(ws[1..], w, name, e);
    }
  }

  // ---------- the list in memory ----------

  class Node {
    const watch: Watch
    var next: Node?
    ghost var freed: bool

    constructor (watch: Watch)
      ensures this.watch == watch && next == null && !freed
    {
      this.watch, next, freed := watch, null, false;
    }
  }

  function Watches(nodes: seq<Node>): (ws: seq<Watch>)
    ensures |ws| == |nodes|
    ensures forall i :: 0 <= i < |nodes| ==> ws[i] == nodes[i].watch
  {
    if nodes == [] then [] else [nodes[0].watch] + Watches(nodes[1..])
  }

  lemma StepOneMore(nodes: seq<Node>, node: Node, name: string, e: Event)
    ensures var ws, w := Watches(nodes), node.watch;
      && Kept(Watches(nodes + [node]), name, e) == Kept(ws, name, e) + (if Called(w, name, e).EndsWatch() then [] else [w])
      && Notified(Watches(nodes + [node]), name, e) == Notified(ws, name, e) + (if Called(w, name, e).Nothing? then [] else [w.id])
      && Faults(Watches(nodes + [node]), name, e) == Faults(ws, name, e) + FaultOf(Called(w, name, e), e)
  {
    WatchesConcat(nodes, [node]);
    assert Watches([node]) == [node.watch];
    KeptOneMore(Watches(nodes), node.watch, name, e);
    NotifiedOneMore(Watches(nodes), node.watch, name, e);
    FaultsOneMore(Watches(nodes), node.watch, name, e);
  }

  lemma {:induction false} WatchesConcat(a: seq<Node>, b: seq<Node>)
    ensures Watches(a + b) == Watches(a) + Watches(b)
  {
    if a == [] {
      assert a + b == b;
    } else {
      assert (a + b)[1..] == a[1..] + b;
      WatchesConcat(a[1..], b);
    }
  }

  predicate DistinctIds(nodes: seq<Node>) {
    forall i, j :: 0 <= i < j < |nodes| ==> nodes[i].watch.id != nodes[j].watch.id
  }

  ghost function NextOf(nodes: seq<Node>, i: nat): Node? {
    if i + 1 < |nodes| then nodes[i + 1] else null
  }

  /** The node at position `i` is in use and leads to the next one. */
  ghost predicate Linked(nodes: seq<Node>, i: nat)
    requires i < |nodes|
    reads nodes
  {
    !nodes[i].freed && nodes[i].next == NextOf(nodes, i)
  }

  class ConnectionWatches {
    var head: Node?
    var fired: seq<nat>            // identifiers of the watches whose callback was called
    ghost var spine: seq<Node>
    ghost var repr: set<Node>
    ghost var faults: nat          // reads of memory that was freed before

    ghost predicate Valid()
      reads this, repr
    {
      && DistinctIds(spine)
      && (forall n :: n in spine ==> n in repr)
      && head == (if spine == [] then null else spine[0])
      && forall i :: 0 <= i < |spine| ==> Linked(spine, i)
    }

    constructor ()
      ensures Valid() && spine == [] && fired == [] && faults == 0 && repr == {}
    {
      head, fired, spine, faults, repr := null, [], [], 0, {};
    }

    /** b_dbus_add_service_watch, when nothing fails. */
    method Add(watch: Watch)
      requires Valid() && forall j :: 0 <= j < |spine| ==> spine[j].watch.id != watch.id
      modifies this`head, this`spine, this`repr, repr
      ensures Valid() && fresh(repr - old(repr))
      ensures Watches(spine) == Watches(old(spine)) + [watch]
    {
      var node := new Node(watch);
      repr := repr + {node};
      WatchesConcat(spine, [node]);
      assert Watches([node]) == [watch];
      Append(node);
    }

    /** g_slist_append */
    method Append(node: Node)
      requires Valid() && node in repr && node !in spine && node.next == null && !node.freed
      requires forall j :: 0 <= j < |spine| ==> spine[j].watch.id != node.watch.id
      modifies this`head, this`spine, repr
      ensures Valid() && spine == old(spine) + [node]
    {
      ghost var s := spine;
      assert forall i, j :: 0 <= i < j < |s| ==> s[i] != s[j];
      if head == null {
        head := node;
      } else {
        var last := LastNode();
        last.next := node;
      }
      spine := s + [node];
      forall j | 0 <= j < |spine| ensures Linked(spine, j) {
        if j < |s| {
          assert spine[j] == s[j] && old(Linked(s, j));
        }
      }
    }

    method LastNode() returns (last: Node)
      requires Valid() && head != null
      ensures spine != [] && last == spine[|spine| - 1]
    {
      last := head;
      ghost var k := 0;
      assert Linked(spine, 0);
      while last.next != null
        invariant k < |spine| && last == spine[k]
        invariant Linked(spine, k)
        decreases |spine| - k
      {
        last := last.next;
        k := k + 1;
        assert Linked(spine, k);
      }
    }

    /** Walks to the node with this identifier. */
    method Search(tag: nat) returns (list: Node?, prev: Node?, ghost k: nat)
      requires Valid()
      ensures k <= |spine| && list == (if k < |spine| then spine[k] else null)
      ensures prev == (if k == 0 then null else spine[k - 1])
      ensures forall j :: 0 <= j < |spine| ==> (spine[j].watch.id == tag <==> j == k)
    {
      prev := null;
      list := head;
      k := 0;
      while list != null && list.watch.id != tag
        invariant k <= |spine|
        invariant k < |spine| ==> list == spine[k]
        invariant k == |spine| ==> list == null
        invariant if k == 0 then prev == null else prev == spine[k - 1]
        invariant forall j :: 0 <= j < k ==> spine[j].watch.id != tag
        decreases |spine| - k
      {
        assert Linked(spine, k);
        prev := list;
        list := list.next;
        k := k + 1;
      }
    }

    /** g_slist_remove and g_free for the node at position `k`. */
    method Unlink(list: Node, prev: Node?, ghost k: nat)
      requires Valid() && k < |spine| && list == spine[k]
      requires prev == (if k == 0 then null else spine[k - 1])
      modifies this`head, this`spine, repr
      ensures Valid() && spine == old(spine)[..k] + old(spine)[k + 1..] && list.freed
    {
      ghost var s := spine;
      assert forall i, j :: 0 <= i < j < |s| ==> s[i] != s[j];
      assert Linked(s, k);
      if prev == null {
        head := list.next;
      } else {
        prev.next := list.next;
      }
      list.freed := true;
      spine := s[..k] + s[k + 1..];
      forall j | 0 <= j < |spine| ensures Linked(spine, j) {
        if j < k {
          assert spine[j] == s[j] && old(Linked(s, j));
        } else {
          assert spine[j] == s[j + 1] && old(Linked(s, j + 1));
        }
      }
    }

    /** The part of b_dbus_remove_watch that removes a watch from its list; `k` is the
        position of the node, the length of the list if there is none. */
    method Remove(tag: nat) returns (ok: bool, ghost k: nat)
      requires Valid()
      modifies this`head, this`spine, repr
      ensures Valid()
      ensures k <= |old(spine)| && (ok <==> k < |old(spine)|)
      ensures forall j :: 0 <= j < |old(spine)| ==> (old(spine)[j].watch.id == tag <==> j == k)
      ensures spine == if ok then old(spine)[..k] + old(spine)[k + 1..] else old(spine)
      ensures ok ==> old(spine)[k].freed
      ensures !ok ==> forall n :: n in repr ==> n.freed == old(n.freed)
    {
      var list, prev;
      list, prev, k := Search(tag);
      ok := list != null;
      if ok {
        Unlink(list, prev, k);
      }
    }

    /** The watch at position `k` is removed by its identifier. */
    method RemoveSelf(id: nat, ghost k: nat)
      requires Valid() && k < |spine| && spine[k].watch.id == id
      modifies this`head, this`spine, repr
      ensures Valid() && spine == old(spine)[..k] + old(spine)[k + 1..] && old(spine)[k].freed
      ensures forall j :: 0 <= j < |spine| ==> spine[j].watch.id != id
    {
      var ok; ghost var at;
      ok, at := Remove(id);
      ghost var s := old(spine);
      assert forall j :: 0 <= j < |spine| ==> spine[j] == (if j < k then s[j] else s[j + 1]);
    }

    /** disconnect_function: it remembers the identifier, because the function may have
        removed the watch already when it is removed here. */
    method DisconnectFunction(functionRemoves: bool, id: nat, ghost k: nat)
      requires Valid() && k < |spine| && spine[k].watch.id == id
      modifies this`head, this`spine, repr
      ensures Valid() && spine == old(spine)[..k] + old(spine)[k + 1..] && old(spine)[k].freed
    {
      if functionRemoves {
        RemoveSelf(id, k);
        var ok; ghost var at;
        ok, at := Remove(id);
      } else {
        RemoveSelf(id, k);
      }
    }

    /** Calls a callback of the watch at position `k`. */
    method Invoke(cb: Callback, id: nat, ghost k: nat)
      requires Valid() && k < |spine| && spine[k].watch.id == id && !cb.Nothing?
      modifies this`head, this`spine, this`fired, repr
      ensures Valid() && fired == old(fired) + [id]
      ensures spine == if cb.EndsWatch() then old(spine)[..k] + old(spine)[k + 1..] else old(spine)
      ensures old(spine)[k].freed == cb.EndsWatch()
    {
      fired := fired + [id];
      match cb {
        case Nothing =>
        case Keeps => assert Linked(spine, k);
        case RemovesItself => RemoveSelf(id, k);
        case OneShot(functionRemoves) => DisconnectFunction(functionRemoves, id, k);
      }
    }

    ghost method Read(node: Node)
      modifies this`faults
      ensures faults == old(faults) + (if node.freed then 1 else 0)
    {
      faults := faults + (if node.freed then 1 else 0);
    }

    /** One round of the loop in owner_function, for the watch at position `k`. */
    method Step(node: Node, name: string, old_: string, new_: string, ghost k: nat)
      requires Valid() && k < |spine| && node == spine[k]
      modifies this`head, this`spine, this`fired, this`faults, repr
      ensures Valid()
      ensures var cb := Called(node.watch, name, EventOf(old_, new_));
        && fired == old(fired) + (if cb.Nothing? then [] else [node.watch.id])
        && spine == (if cb.EndsWatch() then old(spine)[..k] + old(spine)[k + 1..] else old(spine))
        && faults == old(faults) + FaultOf(cb, EventOf(old_, new_))
    {
      assert Linked(spine, k);
      Read(node);
      if node.watch.name != name { return; }
      Read(node);
      if node.watch.connect != Nothing && old_ == "" && new_ != "" {
        Invoke(node.watch.connect, node.watch.id, k);
      }
      Read(node);
      if node.watch.disconn != Nothing && old_ != "" && new_ == "" {
        Invoke(node.watch.disconn, node.watch.id, k);
      }
    }

    /** One round of the loop in owner_function; the pointer to the next node is read
        before the callbacks. */
    method Round(list: Node, name: string, old_: string, new_: string,
                 ghost s: seq<Node>, ghost i: nat, ghost kept: seq<Node>) returns (next: Node?)
      requires Valid() && i < |s| && list == s[i] && spine == kept + s[i..]
      modifies this`head, this`spine, this`fired, this`faults, repr
      ensures Valid()
      ensures next == NextOf(s, i)
      ensures var cb := Called(list.watch, name, EventOf(old_, new_));
        && spine == (if cb.EndsWatch() then kept else kept + [s[i]]) + s[i + 1..]
        && fired == old(fired) + (if cb.Nothing? then [] else [s[i].watch.id])
        && faults == old(faults) + FaultOf(cb, EventOf(old_, new_))
    {
      hide Called, EventOf;
      AtPosition(kept, s, i);
      assert Linked(spine, |kept|);
      Read(list);
      next := list.next;
      Step(list, name, old_, new_, |kept|);
    }

    /** owner_function */
    method OwnerFunction(name: string, old_: string, new_: string)
      requires Valid()
      modifies this, repr
      ensures Valid() && repr == old(repr)
      ensures Watches(spine) == Kept(Watches(old(spine)), name, EventOf(old_, new_))
      ensures fired == old(fired) + Notified(Watches(old(spine)), name, EventOf(old_, new_))
      ensures faults == old(faults) + Faults(Watches(old(spine)), name, EventOf(old_, new_))
    {
      hide Reported, Called, EventOf, FaultOf, NextOf, Linked, DistinctIds;
      ghost var e := EventOf(old_, new_);
      ghost var s := spine;
      ghost var kept: seq<Node> := [];
      ghost var told: seq<nat> := [];
      ghost var bad, i := 0, 0;
      NothingReported(s, name, e);
      var list: Node? := head;
      assert [] + s == s && fired + [] == fired;
      while list != null
        invariant Valid() && repr == old(repr) && i <= |s| && Reported(s, i, kept, told, bad, name, e)
        invariant spine == kept + s[i..]
        invariant fired == old(fired) + told && faults == old(faults) + bad
        invariant i < |s| ==> list == s[i]
        invariant i == |s| ==> list == null
        decreases |s| - i
      {
        ghost var node, cb := s[i], Called(s[i].watch, name, e);
        NextInside(s, i);
        list := Round(list, name, old_, new_, s, i, kept);
        ReportedStep(s, i, kept, told, bad, name, e);
        Associative(old(fired), told, if cb.Nothing? then [] else [node.watch.id]);
        bad := bad + FaultOf(cb, e);
        told := told + (if cb.Nothing? then [] else [node.watch.id]);
        kept := if cb.EndsWatch() then kept else kept + [node];
        i := i + 1;
      }
      AllReported(s, kept, told, bad, name, e);
    }
  }

  lemma NextInside(s: seq<Node>, i: nat)
    requires i < |s|
    ensures i + 1 < |s| ==> NextOf(s, i) == s[i + 1]
    ensures i + 1 == |s| ==> NextOf(s, i) == null
  {
  }

  /** The first `i` watches have been dealt with. */
  ghost predicate Reported(
    s: seq<Node>, i: nat, kept: seq<Node>, told: seq<nat>, faults: int, name: string, e: Event)
  {
    && i <= |s|
    && Watches(kept) == Kept(Watches(s[..i]), name, e)
    && told == Notified(Watches(s[..i]), name, e)
    && faults == Faults(Watches(s[..i]), name, e)
  }

  lemma NothingReported(s: seq<Node>, name: string, e: Event)
    ensures Reported(s, 0, [], [], 0, name, e)
  {
    assert s[..0] == [];
  }

  lemma ReportedStep(
    s: seq<Node>, i: nat, kept: seq<Node>, told: seq<nat>, faults: int, name: string, e: Event)
    requires i < |s| && Reported(s, i, kept, told, faults, name, e)
    ensures var cb := Called(s[i].watch, name, e);
      Reported(s, i + 1, if cb.EndsWatch() then kept else kept + [s[i]],
        told + (if cb.Nothing? then [] else [s[i].watch.id]), faults + FaultOf(cb, e), name, e)
  {
    hide Kept, Notified, Faults;
    StepOneMore(s[..i], s[i], name, e);
    assert s[..i + 1] == s[..i] + [s[i]];
    WatchesConcat(kept, [s[i]]);
    assert Watches([s[i]]) == [s[i].watch];
  }

  lemma AllReported(s: seq<Node>, kept: seq<Node>, told: seq<nat>, faults: int, name: string, e: Event)
    requires Reported(s, |s|, kept, told, faults, name, e)
    ensures Watches(kept + s[|s|..]) == Kept(Watches(s), name, e)
    ensures told == Notified(Watches(s), name, e) && faults == Faults(Watches(s), name, e)
  {
    assert s[..|s|] == s && kept + s[|s|..] == kept;
  }

  lemma AtPosition(kept: seq<Node>, s: seq<Node>, i: nat)
    requires i < |s|
    ensures var t := kept + s[i..];
      && t[|kept|] == s[i]
      && NextOf(t, |kept|) == NextOf(s, i)
      && t[..|kept|] + t[|kept| + 1..] == kept + s[i + 1..]
      && t == (kept + [s[i]]) + s[i + 1..]
  {
  }

  // ---------- what a notification means ----------

  predicate UniqueIds(ws: seq<Watch>) {
    forall i, j :: 0 <= i < j < |ws| ==> ws[i].id != ws[j].id
  }

  function TimesTold(ws: seq<Watch>, name: string, e: Event, id: nat): nat {
    multiset(Notified(ws, name, e))[id]
  }

  lemma TimesToldHead(ws: seq<Watch>, name: string, e: Event, id: nat)
    requires ws != []
    ensures TimesTold(ws, name, e, id) == TimesTold(ws[1..], name, e, id)
      + (if ws[0].id == id && !Called(ws[0], name, e).Nothing? then 1 else 0)
  {
  }

  /** Exactly the watches that ask for the event are told, and each of them once; all
      watches stay except those that end with it. */
  lemma {:induction false} NotificationExact(ws: seq<Watch>, name: string, e: Event, i: nat)
    requires UniqueIds(ws) && i < |ws|
    ensures TimesTold(ws, name, e, ws[i].id) == if Called(ws[i], name, e).Nothing? then 0 else 1
    ensures ws[i] in Kept(ws, name, e) <==> !Called(ws[i], name, e).EndsWatch()
    decreases |ws|
  {
    hide TimesTold, Called;
    TimesToldHead(ws, name, e, ws[i].id);
    if i == 0 {
      OnlyOwnIds(ws[1..], name, e, ws[0]);
    } else {
      NotificationExact(ws[1..], name, e, i - 1);
    }
  }

  lemma {:induction false} OnlyOwnIds(ws: seq<Watch>, name: string, e: Event, w: Watch)
    requires forall i :: 0 <= i < |ws| ==> ws[i].id != w.id
    ensures TimesTold(ws, name, e, w.id) == 0
    ensures w !in Kept(ws, name, e)
  {
    if ws != [] {
      TimesToldHead(ws, name, e, w.id);
      OnlyOwnIds(ws[1..], name, e, w);
    }
  }

  /** The walk reads no freed memory exactly if the name does not appear, or no connect
      callback that is called ends its own watch. */
  lemma {:induction false} FaultFree(ws: seq<Watch>, name: string, old_: string, new_: string)
    ensures Faults(ws, name, EventOf(old_, new_)) == 0 <==>
      old_ != "" || new_ == "" || forall i :: 0 <= i < |ws| && ws[i].name == name ==> !ws[i].connect.EndsWatch()
  {
    if ws != [] {
      FaultFree(ws[1..], name, old_, new_);
      assert forall i :: 1 <= i < |ws| ==> ws[i] == ws[1..][i - 1];
    }
  }

  // ---------- runs ----------

  datatype Action =
    | Change(name: string, old_: string, new_: string)
    | AddWatch(name: string, connect: Callback, disconn: Callback)
    | RemoveWatch(id: nat)

  datatype State = State(ws: seq<Watch>, nextId: nat, log: seq<nat>)

  function HasOtherId(id: nat): Watch -> bool {
    (w: Watch) => w.id != id
  }

  function Without(ws: seq<Watch>, id: nat): seq<Watch> {
    Filter(HasOtherId(id), ws)
  }

  /** A connection without watches. */
  const START := State([], 1, [])

  function Perform(s: State, a: Action): State {
    match a
    case Change(name, old_, new_) =>
      var e := EventOf(old_, new_);
      State(Kept(s.ws, name, e), s.nextId, s.log + Notified(s.ws, name, e))
    case AddWatch(name, connect, disconn) =>
      State(s.ws + [Watch(s.nextId, name, connect, disconn)], s.nextId + 1, s.log)
    case RemoveWatch(id) => s.(ws := Without(s.ws, id))
  }

  function RunActions(s: State, actions: seq<Action>): State
    decreases |actions|
  {
    if actions == [] then s else RunActions(Perform(s, actions[0]), actions[1..])
  }

  predicate Ascending(ids: seq<nat>) {
    forall i, j :: 0 <= i < j < |ids| ==> ids[i] < ids[j]
  }

  /** Watches stand in the order in which their identifiers were issued; no identifier that
      was not issued yet is in use or was ever told. */
  predicate Ordered(ws: seq<Watch>) {
    forall i, j :: 0 <= i < j < |ws| ==> ws[i].id < ws[j].id
  }

  predicate Inv(s: State) {
    && Ordered(s.ws)
    && (forall w :: w in s.ws ==> w.id < s.nextId)
    && (forall x :: x in s.log ==> x < s.nextId)
  }

  lemma {:induction false} KeptSubset(ws: seq<Watch>, name: string, e: Event)
    ensures forall w :: w in Kept(ws, name, e) ==> w in ws && !Called(w, name, e).EndsWatch()
    ensures forall w :: w in ws && !Called(w, name, e).EndsWatch() ==> w in Kept(ws, name, e)
    ensures Ordered(ws) ==> Ordered(Kept(ws, name, e))
  {
    hide Called;
    if ws != [] {
      KeptSubset(ws[1..], name, e);
      if Ordered(ws) { OrderedInFront(ws, Kept(ws[1..], name, e)); }
    }
  }

  lemma {:induction false} WithoutSubset(ws: seq<Watch>, id: nat)
    ensures forall w :: w in Without(ws, id) <==> w in ws && w.id != id
    ensures Ordered(ws) ==> Ordered(Without(ws, id))
  {
    if ws != [] {
      WithoutSubset(ws[1..], id);
      if Ordered(ws) { OrderedInFront(ws, Without(ws[1..], id)); }
    }
  }

  lemma OrderedInFront(ws: seq<Watch>, tail: seq<Watch>)
    requires ws != [] && Ordered(ws)
    requires Ordered(tail) && forall w :: w in tail ==> w in ws[1..]
    ensures Ordered([ws[0]] + tail)
  {
    forall j | 0 <= j < |tail| ensures ws[0].id < tail[j].id {
      assert tail[j] in tail;
    }
  }

  lemma {:induction false} NotifiedIds(ws: seq<Watch>, name: string, e: Event)
    ensures forall x :: x in Notified(ws, name, e) ==> exists w :: w in ws && w.id == x
  {
    if ws != [] {
      NotifiedIds(ws[1..], name, e);
      assert forall w :: w in ws[1..] ==> w in ws;
      assert ws[0] in ws;
    }
  }

  lemma PerformKeepsInv(s: State, a: Action)
    requires Inv(s)
    ensures Inv(Perform(s, a))
  {
    match a {
      case Change(name, old_, new_) =>
        KeptSubset(s.ws, name, EventOf(old_, new_));
        NotifiedIds(s.ws, name, EventOf(old_, new_));
      case AddWatch(name, connect, disconn) =>
        assert forall i :: 0 <= i < |s.ws| ==> s.ws[i] in s.ws;
      case RemoveWatch(id) => WithoutSubset(s.ws, id);
    }
  }

  lemma {:induction false} RunKeepsInv(s: State, actions: seq<Action>)
    requires Inv(s)
    ensures Inv(RunActions(s, actions))
    decreases |actions|
  {
    hide Inv, Perform;
    if actions != [] {
      PerformKeepsInv(s, actions[0]);
      RunKeepsInv(Perform(s, actions[0]), actions[1..]);
    }
  }

  // ---------- the order of notifications ----------

  lemma {:induction false} OrderedNotified(ws: seq<Watch>, name: string, e: Event)
    requires Ordered(ws)
    ensures Ascending(Notified(ws, name, e))
  {
    if ws != [] {
      OrderedNotified(ws[1..], name, e);
      NotifiedIds(ws[1..], name, e);
      var head, u := ws[0].id, Notified(ws[1..], name, e);
      forall x | x in u ensures head < x {
        var w :| w in ws[1..] && w.id == x;
      }
      assert [] + u == u;
      AscendingCons(head, u);
    }
  }

  lemma AscendingCons(head: nat, u: seq<nat>)
    requires Ascending(u) && forall x :: x in u ==> head < x
    ensures Ascending([head] + u)
  {
    var v := [head] + u;
    forall i, j | 0 <= i < j < |v| ensures v[i] < v[j] {
      assert v[j] == u[j - 1] && u[j - 1] in u;
      assert i > 0 ==> v[i] == u[i - 1];
    }
  }

  /** After any run, watches are told in the order in which they were added: identifiers
      are issued in ascending order. */
  lemma NotifiedInOrder(actions: seq<Action>, name: string, e: Event)
    ensures Ascending(Notified(RunActions(START, actions).ws, name, e))
  {
    RunKeepsInv(START, actions);
    OrderedNotified(RunActions(START, actions).ws, name, e);
  }

  /** A watch whose connect callback removes it is read after it was freed. */
  lemma ConnectRemovesItself(name: string, owner: string)
    requires owner != ""
    ensures var s := RunActions(START, [AddWatch(name, RemovesItself, Nothing)]);
      Faults(s.ws, name, EventOf("", owner)) == 1
  {
    var a := AddWatch(name, RemovesItself, Nothing);
    assert [a][1..] == [];
    assert RunActions(START, [a]) == RunActions(Perform(START, a), []);
    var ws := Perform(START, a).ws;
    assert ws == [Watch(1, name, RemovesItself, Nothing)] && ws[1..] == [];
    assert Faults(ws[1..], name, EventOf("", owner)) == 0;
  }

  // ---------- disconnect watches ----------

  function Told(s: State, id: nat): nat {
    multiset(s.log)[id]
  }

  predicate Present(ws: seq<Watch>, id: nat) {
    exists w :: w in ws && w.id == id
  }

  /** `name` vanishes before the watch `id` is removed. */
  predicate Vanished(actions: seq<Action>, name: string, id: nat) {
    actions != [] &&
      match actions[0]
      case Change(n, old_, new_) => (n == name && old_ != "" && new_ == "") || Vanished(actions[1..], name, id)
      case AddWatch(_, _, _) => Vanished(actions[1..], name, id)
      case RemoveWatch(x) => x != id && Vanished(actions[1..], name, id)
  }

  lemma ToldAfterChange(s: State, name: string, old_: string, new_: string, id: nat)
    ensures Told(Perform(s, Change(name, old_, new_)), id) ==
      Told(s, id) + TimesTold(s.ws, name, EventOf(old_, new_), id)
  {
  }

  /** The callback that a watch gets for the three strings of NameOwnerChanged: for its own
      name, the connect callback if there was no owner and now there is one, the disconnect
      callback if there was one and now there is none, and nothing otherwise. */
  function CallbackFor(w: Watch, name: string, old_: string, new_: string): Callback {
    if w.name == name && old_ == "" && new_ != "" then w.connect
    else if w.name == name && old_ != "" && new_ == "" then w.disconn
    else Nothing
  }

  /** One signal, exactly: the watch is told once if it has a callback for it and not at
      all otherwise, and it stays unless this callback ends it. */
  lemma SignalExact(s: State, name: string, old_: string, new_: string, w: Watch)
    requires Inv(s) && w in s.ws
    ensures var t := Perform(s, Change(name, old_, new_));
      var cb := CallbackFor(w, name, old_, new_);
      && Told(t, w.id) == Told(s, w.id) + (if cb.Nothing? then 0 else 1)
      && (w in t.ws <==> !cb.EndsWatch())
      && (forall x :: x in t.ws ==> x in s.ws)
  {
    var e := EventOf(old_, new_);
    var i :| 0 <= i < |s.ws| && s.ws[i] == w;
    OneWatchOnly(s.ws, w);
    NotificationExact(s.ws, name, e, i);
    KeptSubset(s.ws, name, e);
    ToldAfterChange(s, name, old_, new_, w.id);
  }

  /** An identifier is told exactly if it belongs to a watch that is told. */
  lemma OnlyWatchesAreTold(s: State, name: string, old_: string, new_: string, id: nat)
    requires Inv(s) && !Present(s.ws, id)
    ensures Told(Perform(s, Change(name, old_, new_)), id) == Told(s, id)
  {
    NotifiedIds(s.ws, name, EventOf(old_, new_));
    assert id !in Notified(s.ws, name, EventOf(old_, new_));
    ToldAfterChange(s, name, old_, new_, id);
  }

  /** An identifier whose watch is gone is not issued again and never told again. */
  lemma StaysGone(s: State, a: Action, id: nat)
    requires Inv(s) && id < s.nextId && !Present(s.ws, id)
    ensures var t := Perform(s, a);
      id < t.nextId && !Present(t.ws, id) && Told(t, id) == Told(s, id)
  {
    match a {
      case Change(name, old_, new_) =>
        var e := EventOf(old_, new_);
        KeptSubset(s.ws, name, e);
        NotifiedIds(s.ws, name, e);
        assert id !in Notified(s.ws, name, e);
        ToldAfterChange(s, name, old_, new_, id);
      case AddWatch(name, connect, disconn) =>
      case RemoveWatch(x) => WithoutSubset(s.ws, x);
    }
  }

  lemma {:induction false} GoneForGood(s: State, actions: seq<Action>, id: nat)
    requires Inv(s) && id < s.nextId && !Present(s.ws, id)
    ensures Told(RunActions(s, actions), id) == Told(s, id)
    decreases |actions|
  {
    hide Inv, Perform, Told, Present;
    if actions != [] {
      PerformKeepsInv(s, actions[0]);
      StaysGone(s, actions[0], id);
      GoneForGood(Perform(s, actions[0]), actions[1..], id);
    }
  }

  /** The action is what a disconnect watch waits for, or removes it. */
  predicate Ends(a: Action, w: Watch) {
    match a
    case Change(n, old_, new_) => n == w.name && old_ != "" && new_ == ""
    case AddWatch(_, _, _) => false
    case RemoveWatch(x) => x == w.id
  }

  lemma DisconnectWatchStep(s: State, a: Action, w: Watch)
    requires Inv(s) && w in s.ws && w.connect.Nothing? && w.disconn.OneShot?
    ensures var t := Perform(s, a);
      && (w in t.ws <==> !Ends(a, w))
      && (Ends(a, w) ==> !Present(t.ws, w.id))
      && Told(t, w.id) == Told(s, w.id) + (if a.Change? && Ends(a, w) then 1 else 0)
  {
    var i :| 0 <= i < |s.ws| && s.ws[i] == w;
    OneWatchOnly(s.ws, w);
    match a {
      case Change(name, old_, new_) =>
        var e := EventOf(old_, new_);
        NotificationExact(s.ws, name, e, i);
        KeptSubset(s.ws, name, e);
        ToldAfterChange(s, name, old_, new_, w.id);
      case AddWatch(name, connect, disconn) =>
      case RemoveWatch(x) => WithoutSubset(s.ws, x);
    }
  }

  lemma OneWatchOnly(ws: seq<Watch>, w: Watch)
    requires Ordered(ws) && w in ws
    ensures UniqueIds(ws) && forall x :: x in ws && x.id == w.id ==> x == w
  {
  }

  lemma {:induction false} WaitingWatch(s: State, actions: seq<Action>, w: Watch)
    requires Inv(s) && w in s.ws && w.connect.Nothing? && w.disconn.OneShot?
    ensures Told(RunActions(s, actions), w.id) ==
      Told(s, w.id) + (if Vanished(actions, w.name, w.id) then 1 else 0)
    decreases |actions|
  {
    hide Perform, Told, Present;
    if actions != [] {
      var t := Perform(s, actions[0]);
      PerformKeepsInv(s, actions[0]);
      DisconnectWatchStep(s, actions[0], w);
      if Ends(actions[0], w) {
        IssuedStays(s, actions[0]);
        GoneForGood(t, actions[1..], w.id);
      } else {
        WaitingWatch(t, actions[1..], w);
      }
    }
  }

  lemma IssuedStays(s: State, a: Action)
    ensures s.nextId <= Perform(s, a).nextId
  {
  }

  /** A disconnect watch that is added at any time fires exactly once if its name vanishes
      before it is removed, and not at all otherwise, whatever else happens before and
      after. */
  lemma DisconnectFiresOnce(before: seq<Action>, name: string, functionRemoves: bool, after: seq<Action>)
    ensures var s := RunActions(START, before);
      var added := Perform(s, AddWatch(name, Nothing, OneShot(functionRemoves)));
      Told(RunActions(added, after), s.nextId) == if Vanished(after, name, s.nextId) then 1 else 0
  {
    hide Perform, Vanished, RunActions;
    var s := RunActions(START, before);
    var a := AddWatch(name, Nothing, OneShot(functionRemoves));
    RunKeepsInv(START, before);
    PerformKeepsInv(s, a);
    var w := Watch(s.nextId, name, Nothing, OneShot(functionRemoves));
    JustAdded(s, w);
    WaitingWatch(Perform(s, a), after, w);
  }

  lemma JustAdded(s: State, w: Watch)
    requires Inv(s) && w.id == s.nextId
    ensures var t := Perform(s, AddWatch(w.name, w.connect, w.disconn));
      w in t.ws && Told(t, w.id) == 0
  {
    assert w.id !in s.log;
    assert (s.ws + [w])[|s.ws|] == w;
  }

  // ---------- the same run on the list ----------

  lemma {:induction false} WithoutAt(ws: seq<Watch>, k: nat, id: nat)
    requires k < |ws| && forall j :: 0 <= j < |ws| ==> (ws[j].id == id <==> j == k)
    ensures Without(ws, id) == ws[..k] + ws[k + 1..]
  {
    hide Filter;
    var keep := HasOtherId(id);
    var a, w, b := ws[..k], [ws[k]], ws[k + 1..];
    assert ws == a + (w + b);
    FilterConcat(keep, a, w + b);
    FilterConcat(keep, w, b);
    FilterAll(keep, a);
    FilterNone(keep, w);
    FilterAll(keep, b);
    assert [] + b == b;
  }

  /** Cutting out the node at position `k` is removing the watch with this identifier. */
  lemma CutIsWithout(s: seq<Node>, k: nat, id: nat)
    requires k < |s| && forall j :: 0 <= j < |s| ==> (s[j].watch.id == id <==> j == k)
    ensures Watches(s[..k] + s[k + 1..]) == Without(Watches(s), id)
  {
    hide Without;
    WithoutAt(Watches(s), k, id);
    var ws, cut := Watches(s), Watches(s[..k] + s[k + 1..]);
    forall j | 0 <= j < |cut| ensures cut[j] == (ws[..k] + ws[k + 1..])[j] {
    }
  }

  /** One action on the real list is the action on values. */
  method PerformOn(list: ConnectionWatches, nextId: nat, a: Action) returns (next: nat)
    requires list.Valid() && Inv(State(Watches(list.spine), nextId, list.fired))
    modifies list, list.repr
    ensures list.Valid() && fresh(list.repr - old(list.repr))
    ensures State(Watches(list.spine), next, list.fired) ==
      Perform(State(Watches(old(list.spine)), nextId, old(list.fired)), a)
  {
    next := nextId;
    match a {
      case Change(name, old_, new_) => list.OwnerFunction(name, old_, new_);
      case AddWatch(name, connect, disconn) =>
        list.Add(Watch(nextId, name, connect, disconn));
        next := nextId + 1;
      case RemoveWatch(id) =>
        ghost var s := list.spine;
        var ok; ghost var k;
        ok, k := list.Remove(id);
        if ok {
          CutIsWithout(s, k, id);
        } else {
          FilterAll(HasOtherId(id), Watches(s));
        }
    }
  }

  /** Any run on the real list, so that the lemmas about runs speak about it. */
  method PerformAllOn(list: ConnectionWatches, nextId: nat, actions: seq<Action>) returns (next: nat)
    requires list.Valid() && Inv(State(Watches(list.spine), nextId, list.fired))
    modifies list, list.repr
    ensures list.Valid()
    ensures State(Watches(list.spine), next, list.fired) ==
      RunActions(State(Watches(old(list.spine)), nextId, old(list.fired)), actions)
  {
    hide Perform, Inv;
    next := nextId;
    ghost var s0 := State(Watches(list.spine), next, list.fired);
    ghost var s := s0;
    for n := 0 to |actions|
      invariant list.Valid() && fresh(list.repr - old(list.repr))
      invariant s == State(Watches(list.spine), next, list.fired) && Inv(s)
      invariant RunActions(s, actions[n..]) == RunActions(s0, actions)
    {
      assert actions[n..][1..] == actions[n + 1..];
      PerformKeepsInv(s, actions[n]);
      next := PerformOn(list, next, actions[n]);
      s := Perform(s, actions[n]);
    }
  }
}
