/** Identifiers and reference counts of the watch registry: every watch and every signal
    handler of every connection holds one reference to the shared data slot. */
module WatchRegistry {

  /** The ConnectionData that is stored in a connection: none, one with its lists of
      identifiers, or a pointer to one that was freed. */
  datatype Data =
    | Null
    | Live(watches: seq<nat>, handlers: seq<nat>, nextId: nat)
    | Dangling

  /** `slot` is the reference count of connection_slot; a count of zero means that the
      slot is not allocated. */
  datatype World = World(slot: nat, conns: seq<Data>)

  /** Where adding a watch can fail. */
  datatype Fault = NoFault | NoSlot | NoConnectionData | NoWatchData | NoMatchRule

  datatype Kind = ServiceWatch | SignalWatch

  // ---------- the specification ----------

  /** get_connection_data: takes a reference, and creates the data if there is none. */
  function Connected(w: World, c: nat, fault: Fault): (r: (World, bool))
    requires c < |w.conns|
  {
    if fault == NoSlot then (w, false)
    else if w.conns[c].Null? then
      if fault == NoConnectionData then (w, false)
      else (World(w.slot + 1, w.conns[c := Live([], [], 1)]), true)
    else (w.(slot := w.slot + 1), true)
  }

  function Add(w: World, c: nat, kind: Kind, fault: Fault): (r: (World, nat))
    requires c < |w.conns| && !w.conns[c].Dangling?
  {
    var (w1, ok) := Connected(w, c, fault);
    if !ok then (w, 0)
    else if fault == NoWatchData || fault == NoMatchRule then (w1.(slot := w1.slot - 1), 0)
    else
      var d := w1.conns[c];
      var d' := if kind.ServiceWatch? then d.(watches := d.watches + [d.nextId], nextId := d.nextId + 1)
                else d.(handlers := d.handlers + [d.nextId], nextId := d.nextId + 1);
      (w1.(conns := w1.conns[c := d']), d.nextId)
  }

  function Without(ids: seq<nat>, tag: nat): (r: seq<nat>)
    ensures tag in ids ==> |r| == |ids| - 1
    ensures tag !in ids ==> r == ids
  {
    if ids == [] then []
    else if ids[0] == tag then ids[1..]
    else [ids[0]] + Without(ids[1..], tag)
  }

  function Remove(w: World, c: nat, tag: nat): (r: (World, bool))
    requires c < |w.conns| && !w.conns[c].Dangling?
  {
    var d := w.conns[c];
    if w.slot == 0 || d.Null? || (tag !in d.watches && tag !in d.handlers) then (w, false)
    else
      var d' := if tag in d.watches then d.(watches := Without(d.watches, tag))
                else d.(handlers := Without(d.handlers, tag));
      var d'' := if d'.watches == [] && d'.handlers == [] then Null else d';
      (World(w.slot - 1, w.conns[c := d'']), true)
  }

  function Share(d: Data): nat {
    if d.Live? then |d.watches| + |d.handlers| else 0
  }

  /** The connection is left with a pointer to the data that was freed. */
  function RemoveAll(w: World, c: nat): World
    requires c < |w.conns| && !w.conns[c].Dangling? && Inv(w)
  {
    if w.slot == 0 || w.conns[c].Null? then w
    else
      ShareBelowTotal(w.conns, c);
      World(w.slot - Share(w.conns[c]), w.conns[c := Dangling])
  }

  // ---------- the invariant ----------

  function Total(conns: seq<Data>): nat {
    if conns == [] then 0 else Share(conns[0]) + Total(conns[1..])
  }

  predicate Distinct(ids: seq<nat>) {
    forall i, j :: 0 <= i < j < |ids| ==> ids[i] != ids[j]
  }

  predicate GoodIds(d: Data) {
    d.Live? ==>
      && Distinct(d.watches + d.handlers)
      && d.nextId > 0
      && forall id :: id in d.watches + d.handlers ==> 0 < id < d.nextId
  }

  predicate Inv(w: World) {
    w.slot == Total(w.conns) && forall c :: 0 <= c < |w.conns| ==> GoodIds(w.conns[c])
  }

  lemma {:induction false} ShareBelowTotal(conns: seq<Data>, c: nat)
    requires c < |conns|
    ensures Share(conns[c]) <= Total(conns)
  {
    if c > 0 { ShareBelowTotal(conns[1..], c - 1); }
  }

  lemma {:induction false} TotalUpdate(conns: seq<Data>, c: nat, d: Data)
    requires c < |conns|
    ensures Total(conns[c := d]) + Share(conns[c]) == Total(conns) + Share(d)
  {
    if c == 0 {
      assert conns[0 := d][1..] == conns[1..];
    } else {
      assert conns[c := d][1..] == conns[1..][c - 1 := d];
      TotalUpdate(conns[1..], c - 1, d);
    }
  }

  lemma {:induction false} WithoutMembers(ids: seq<nat>, tag: nat)
    requires Distinct(ids)
    ensures Distinct(Without(ids, tag))
    ensures forall x :: x in Without(ids, tag) <==> x in ids && x != tag
  {
    hide Distinct;
    if ids == [] {
      assert Without(ids, tag) == ids;
    } else {
      var head, tail := ids[0], ids[1..];
      assert ids == [head] + tail;
      DistinctParts([head], tail);
      assert head in [head];
      if head != tag {
        WithoutMembers(tail, tag);
        DistinctParts([head], Without(tail, tag));
      }
    }
  }

  lemma DistinctParts(a: seq<nat>, b: seq<nat>)
    ensures Distinct(a + b) <==> Distinct(a) && Distinct(b) && forall x :: x in a ==> x !in b
  {
    var s := a + b;
    if Distinct(s) {
      assert forall i :: 0 <= i < |a| ==> a[i] == s[i];
      assert forall j :: 0 <= j < |b| ==> b[j] == s[|a| + j];
    }
    if Distinct(a) && Distinct(b) && forall x :: x in a ==> x !in b {
      forall i, j | 0 <= i < j < |s| ensures s[i] != s[j] {
        assert i < |a| ==> s[i] in a;
        assert j >= |a| ==> s[j] in b;
      }
    }
  }

  /** Adding, whether it fails or not, keeps the count exact and identifiers unique; a
      success returns an identifier that was not in use, a failure returns 0 and changes
      no list. */
  lemma AddKeepsInv(w: World, c: nat, kind: Kind, fault: Fault)
    requires Inv(w) && c < |w.conns| && !w.conns[c].Dangling?
    ensures var (w', id) := Add(w, c, kind, fault);
      && Inv(w') && |w'.conns| == |w.conns| && !w'.conns[c].Dangling?
      && (id == 0 ==> w'.slot == w.slot && Share(w'.conns[c]) == Share(w.conns[c]))
      && (id > 0 ==> w'.slot == w.slot + 1 && Share(w'.conns[c]) == Share(w.conns[c]) + 1)
      && (id > 0 && w.conns[c].Live? ==> id !in w.conns[c].watches && id !in w.conns[c].handlers)
      && forall k :: 0 <= k < |w.conns| && k != c ==> w'.conns[k] == w.conns[k]
  {
    hide GoodIds, Total;
    var (w', id) := Add(w, c, kind, fault);
    var d := if w.conns[c].Null? then Live([], [], 1) else w.conns[c];
    FreshData();
    NextIdIsNew(d);
    TotalUpdate(w.conns, c, w'.conns[c]);
    assert w'.conns == w.conns[c := w'.conns[c]];
  }

  lemma FreshData()
    ensures GoodIds(Live([], [], 1))
  {
  }

  lemma NextIdIsNew(d: Data)
    requires GoodIds(d) && d.Live?
    ensures d.nextId > 0 && d.nextId !in d.watches && d.nextId !in d.handlers
    ensures GoodIds(d.(watches := d.watches + [d.nextId], nextId := d.nextId + 1))
    ensures GoodIds(d.(handlers := d.handlers + [d.nextId], nextId := d.nextId + 1))
  {
    var id := d.nextId;
    assert id in d.watches + d.handlers <==> id in d.watches || id in d.handlers;
    DistinctParts(d.watches, d.handlers);
    DistinctParts(d.watches, [id]);
    DistinctParts(d.handlers, [id]);
    DistinctParts(d.watches + [id], d.handlers);
    DistinctParts(d.watches, d.handlers + [id]);
    assert forall x :: x in (d.watches + [id]) + d.handlers ==> x in d.watches + d.handlers || x == id;
    assert forall x :: x in d.watches + (d.handlers + [id]) ==> x in d.watches + d.handlers || x == id;
  }

  lemma RemovalKeepsIds(d: Data, tag: nat)
    requires GoodIds(d) && d.Live?
    ensures GoodIds(d.(watches := Without(d.watches, tag)))
    ensures GoodIds(d.(handlers := Without(d.handlers, tag)))
    ensures tag in d.watches ==> tag !in d.handlers
    ensures tag !in Without(d.watches, tag) && tag !in Without(d.handlers, tag)
  {
    DistinctParts(d.watches, d.handlers);
    WithoutMembers(d.watches, tag);
    WithoutMembers(d.handlers, tag);
    DistinctParts(Without(d.watches, tag), d.handlers);
    DistinctParts(d.watches, Without(d.handlers, tag));
    assert forall x :: x in d.watches + d.handlers <==> x in d.watches || x in d.handlers;
  }

  lemma RemoveKeepsInv(w: World, c: nat, tag: nat)
    requires Inv(w) && c < |w.conns| && !w.conns[c].Dangling?
    ensures var (w', ok) := Remove(w, c, tag);
      && Inv(w') && |w'.conns| == |w.conns| && !w'.conns[c].Dangling?
      && (ok <==> w.conns[c].Live? && (tag in w.conns[c].watches || tag in w.conns[c].handlers))
      && (!ok ==> w' == w)
      && (ok ==> w'.slot == w.slot - 1 && Share(w'.conns[c]) == Share(w.conns[c]) - 1)
      && (ok && w'.conns[c].Live? ==> tag !in w'.conns[c].watches && tag !in w'.conns[c].handlers)
      && forall k :: 0 <= k < |w.conns| && k != c ==> w'.conns[k] == w.conns[k]
  {
    hide GoodIds, Total;
    var d := w.conns[c];
    ShareBelowTotal(w.conns, c);
    var (w', ok) := Remove(w, c, tag);
    if d.Live? { RemovalKeepsIds(d, tag); }
    if ok {
      NullIsGood();
      TotalUpdate(w.conns, c, w'.conns[c]);
      assert w'.conns == w.conns[c := w'.conns[c]];
    }
  }

  predicate InUse(d: Data, id: nat) {
    d.Live? && (id in d.watches || id in d.handlers)
  }

  /** Adding succeeds unless something fails that it needs. Exactly the identifier that it
      returns is new, as a watch or as a handler as was asked for. */
  lemma OnlyAdded(w: World, c: nat, kind: Kind, fault: Fault, x: nat)
    requires Inv(w) && c < |w.conns| && !w.conns[c].Dangling?
    ensures var (w', id) := Add(w, c, kind, fault);
      && (id > 0 <==> fault == NoFault || (fault == NoConnectionData && w.conns[c].Live?))
      && (id > 0 && w.conns[c].Live? ==> id == w.conns[c].nextId && w'.conns[c].nextId == id + 1)
      && (id > 0 ==> var d := w'.conns[c]; d.Live? && id in (if kind.ServiceWatch? then d.watches else d.handlers))
      && (InUse(w'.conns[c], x) <==> InUse(w.conns[c], x) || (id > 0 && x == id))
  {
    hide Total, Distinct;
    var d := if w.conns[c].Null? then Live([], [], 1) else w.conns[c];
    var id := d.nextId;
    assert GoodIds(w.conns[c]);
    assert x in d.watches + [id] <==> x in d.watches || x == id;
    assert x in d.handlers + [id] <==> x in d.handlers || x == id;
  }

  /** Exactly the identifier that is removed is gone. */
  lemma OnlyRemoved(w: World, c: nat, tag: nat, x: nat)
    requires Inv(w) && c < |w.conns| && !w.conns[c].Dangling?
    ensures InUse(Remove(w, c, tag).0.conns[c], x) <==> InUse(w.conns[c], x) && x != tag
  {
    hide Distinct, Total;
    var d := w.conns[c];
    ShareBelowTotal(w.conns, c);
    if d.Live? {
      RemovalKeepsIds(d, tag);
      DistinctParts(d.watches, d.handlers);
      WithoutMembers(d.watches, tag);
      WithoutMembers(d.handlers, tag);
    }
  }

  /** What add returned can be removed, which takes everything back but next_id and the
      data of the connection. */
  lemma AddedCanBeRemoved(w: World, c: nat, kind: Kind, fault: Fault)
    requires Inv(w) && c < |w.conns| && !w.conns[c].Dangling?
    ensures var (w1, id) := Add(w, c, kind, fault);
      id > 0 ==>
        var (w2, ok) := Remove(w1, c, id);
        && ok && w2.slot == w.slot
        && forall x :: InUse(w2.conns[c], x) <==> InUse(w.conns[c], x)
  {
    hide Add, Remove;
    AddKeepsInv(w, c, kind, fault);
    var (w1, id) := Add(w, c, kind, fault);
    if id > 0 {
      OnlyAdded(w, c, kind, fault, id);
      RemoveKeepsInv(w1, c, id);
      forall x ensures InUse(Remove(w1, c, id).0.conns[c], x) <==> InUse(w.conns[c], x) {
        OnlyAdded(w, c, kind, fault, x);
        OnlyRemoved(w1, c, id, x);
      }
    }
  }

  lemma NullIsGood()
    ensures GoodIds(Null)
  {
  }

  /** Removing everything lowers the count by exactly this connection's share, and leaves
      a pointer to freed data behind exactly if there was data. */
  lemma RemoveAllKeepsInv(w: World, c: nat)
    requires Inv(w) && c < |w.conns| && !w.conns[c].Dangling?
    ensures var w' := RemoveAll(w, c);
      && Inv(w') && |w'.conns| == |w.conns|
      && w'.slot + Share(w.conns[c]) == w.slot
      && (w'.conns[c].Dangling? <==> w.conns[c].Live? && w.slot > 0)
      && forall k :: 0 <= k < |w.conns| && k != c ==> w'.conns[k] == w.conns[k]
  {
    ShareBelowTotal(w.conns, c);
    TotalUpdate(w.conns, c, Dangling);
  }

  // ---------- runs ----------

  datatype Op =
    | AddOp(c: nat, kind: Kind, fault: Fault)
    | RemoveOp(c: nat, tag: nat)
    | RemoveAllOp(c: nat)

  /** No operation uses a connection after b_dbus_remove_all_watches. */
  predicate Possible(w: World, op: Op) {
    op.c < |w.conns| && !w.conns[op.c].Dangling?
  }

  function Perform(w: World, op: Op): World
    requires Inv(w) && Possible(w, op)
  {
    match op
    case AddOp(c, kind, fault) => Add(w, c, kind, fault).0
    case RemoveOp(c, tag) => Remove(w, c, tag).0
    case RemoveAllOp(c) => RemoveAll(w, c)
  }

  lemma PerformKeepsInv(w: World, op: Op)
    requires Inv(w) && Possible(w, op)
    ensures Inv(Perform(w, op))
  {
    match op {
      case AddOp(c, kind, fault) => AddKeepsInv(w, c, kind, fault);
      case RemoveOp(c, tag) => RemoveKeepsInv(w, c, tag);
      case RemoveAllOp(c) => RemoveAllKeepsInv(w, c);
    }
  }

  /** The worlds that a run goes through, as far as it is possible. */
  function Run(w: World, ops: seq<Op>): (r: World)
    requires Inv(w)
    ensures Inv(r)
    decreases |ops|
  {
    if ops == [] || !Possible(w, ops[0]) then w
    else
      PerformKeepsInv(w, ops[0]);
      Run(Perform(w, ops[0]), ops[1..])
  }

  /** From the beginning of the process: after any run, the slot's reference count is the
      number of live watches and handlers over all connections, so the slot is released
      exactly when none is left. */
  lemma Conservation(n: nat, ops: seq<Op>)
    ensures var w0 := World(0, seq(n, _ => Null));
      && Inv(w0)
      && var w := Run(w0, ops);
      && w.slot == Total(w.conns)
      && (w.slot == 0 <==> forall c :: 0 <= c < |w.conns| ==> Share(w.conns[c]) == 0)
      && forall c :: 0 <= c < |w.conns| ==> GoodIds(w.conns[c])
  {
    EmptyTotal(n);
    var w := Run(World(0, seq(n, _ => Null)), ops);
    ZeroTotal(w.conns);
  }

  lemma {:induction false} EmptyTotal(n: nat)
    ensures Total(seq(n, _ => Null)) == 0
  {
    if n > 0 {
      EmptyTotal(n - 1);
      assert seq(n, _ => Null)[1..] == seq(n - 1, _ => Null);
    }
  }

  lemma {:induction false} ZeroTotal(conns: seq<Data>)
    ensures Total(conns) == 0 <==> forall c :: 0 <= c < |conns| ==> Share(conns[c]) == 0
  {
    if conns != [] {
      ZeroTotal(conns[1..]);
      assert forall c :: 1 <= c < |conns| ==> conns[c] == conns[1..][c - 1];
    }
  }

  // ---------- the code ----------

  class Registry {
    var slot: nat
    var conns: seq<Data>

    ghost function View(): World
      reads this
    {
      World(slot, conns)
    }

    constructor (n: nat)
      ensures Inv(View()) && slot == 0 && conns == seq(n, _ => Null)
    {
      slot, conns := 0, seq(n, _ => Null);
      EmptyTotal(n);
    }

    method GetConnectionData(c: nat, fault: Fault) returns (ok: bool)
      requires c < |conns|
      modifies this
      ensures (View(), ok) == Connected(old(View()), c, fault)
    {
      if fault == NoSlot { return false; }
      slot := slot + 1;
      if conns[c].Null? {
        if fault == NoConnectionData {
          slot := slot - 1;
          return false;
        }
        conns := conns[c := Live([], [], 1)];
      }
      ok := true;
    }

    /** b_dbus_add_service_watch and b_dbus_add_signal_watch */
    method AddWatch(c: nat, kind: Kind, fault: Fault) returns (id: nat)
      requires Inv(View()) && c < |conns| && !conns[c].Dangling?
      modifies this
      ensures Inv(View()) && (View(), id) == Add(old(View()), c, kind, fault)
    {
      AddKeepsInv(View(), c, kind, fault);
      var ok := GetConnectionData(c, fault);
      if !ok { return 0; }
      if fault == NoWatchData || fault == NoMatchRule {
        slot := slot - 1;
        return 0;
      }
      var data := conns[c];
      id := data.nextId;
      if kind.ServiceWatch? {
        data := data.(watches := data.watches + [id], nextId := id + 1);
      } else {
        data := data.(handlers := data.handlers + [id], nextId := id + 1);
      }
      conns := conns[c := data];
    }

    /** b_dbus_remove_watch */
    method RemoveWatch(c: nat, tag: nat) returns (ok: bool)
      requires Inv(View()) && c < |conns| && !conns[c].Dangling?
      modifies this
      ensures Inv(View()) && (View(), ok) == Remove(old(View()), c, tag)
    {
      RemoveKeepsInv(View(), c, tag);
      if slot == 0 || conns[c].Null? { return false; }
      var data := conns[c];
      var i := Search(data.watches, tag);
      if i < |data.watches| {
        data := data.(watches := data.watches[..i] + data.watches[i + 1..]);
      } else {
        i := Search(data.handlers, tag);
        if i == |data.handlers| { return false; }
        data := data.(handlers := data.handlers[..i] + data.handlers[i + 1..]);
      }
      conns := conns[c := if data.watches == [] && data.handlers == [] then Null else data];
      slot := slot - 1;
      ok := true;
    }

    /** b_dbus_remove_all_watches */
    method RemoveAllWatches(c: nat)
      requires Inv(View()) && c < |conns| && !conns[c].Dangling?
      modifies this
      ensures Inv(View()) && View() == RemoveAll(old(View()), c)
    {
      RemoveAllKeepsInv(View(), c);
      if slot == 0 || conns[c].Null? { return; }
      ShareBelowTotal(conns, c);
      var data := conns[c];
      for i := 0 to |data.watches|
        invariant conns == old(conns) && slot == old(slot) - i
      {
        slot := slot - 1;
      }
      for i := 0 to |data.handlers|
        invariant conns == old(conns) && slot == old(slot) - |data.watches| - i
      {
        slot := slot - 1;
      }
      conns := conns[c := Dangling];
    }
  }

  method Search(ids: seq<nat>, tag: nat) returns (i: nat)
    ensures i <= |ids| && (i < |ids| <==> tag in ids)
    ensures i < |ids| ==> Without(ids, tag) == ids[..i] + ids[i + 1..]
  {
    i := 0;
    while i < |ids| && ids[i] != tag
      invariant i <= |ids| && tag !in ids[..i]
    {
      i := i + 1;
    }
    if i < |ids| { CutOut(ids, tag, i); }
  }

  lemma {:induction false} CutOut(ids: seq<nat>, tag: nat, i: nat)
    requires i < |ids| && ids[i] == tag && tag !in ids[..i]
    ensures Without(ids, tag) == ids[..i] + ids[i + 1..]
  {
    if i > 0 {
      assert ids[..i][0] == ids[0];
      assert ids[1..][..i - 1] == ids[..i][1..];
      CutOut(ids[1..], tag, i - 1);
    }
  }
}
