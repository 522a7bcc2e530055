/** The object registry of a connection: objects with reference counts and interface
    lists, and for each object a cached introspection document. */
module ObjectRegistry {
  import opened Wrappers
  import opened ObjectPath

  /** The elements of an object path; none for "/". */
  datatype Path = Path(elements: seq<string>) {
    predicate Above(other: Path) {
      IsPrefix(elements, other.elements) && |elements| < |other.elements|
    }

    /** g_path_get_dirname */
    function Parent(): (r: Path)
      requires elements != []
    {
      Path(elements[..|elements| - 1])
    }
  }

  /** An interface with its method, signal and property tables as they are printed. */
  datatype Interface = Interface(name: string, tables: string)

  /** The document that generate_introspect prints: the object's interfaces in order,
      and one node for each child (D-Bus Specification, section "Introspection Data
      Format"). */
  datatype Document = Document(node: Path, interfaces: seq<Interface>, children: set<string>)

  /** dbus_connection_list_registered: the next path elements of the registered
      descendants of `p`. */
  function ListRegistered(paths: set<Path>, p: Path): set<string> {
    set q | q in paths && p.Above(q) :: q.elements[|p.elements|]
  }

  function GenerateIntrospect(paths: set<Path>, p: Path, interfaces: seq<Interface>): Document {
    Document(p, interfaces, ListRegistered(paths, p))
  }

  /** The registered path that update_parent reaches from `p`. */
  function NearestAncestor(paths: set<Path>, p: Path): (r: Option<Path>)
    ensures r.Some? ==> r.value in paths && r.value.Above(p)
    ensures forall q :: q in paths && q.Above(p) ==> r.Some? && |q.elements| <= |r.value.elements|
    decreases |p.elements|
  {
    if p.elements == [] then None
    else
      AboveParent(p);
      if p.Parent() in paths then Some(p.Parent()) else NearestAncestor(paths, p.Parent())
  }

  lemma AboveParent(p: Path)
    requires p.elements != []
    ensures p.Parent().Above(p)
    ensures forall q: Path :: q.Above(p) <==> q == p.Parent() || q.Above(p.Parent())
  {
    forall q: Path ensures q.Above(p) <==> q == p.Parent() || q.Above(p.Parent()) {
      var parent := p.Parent();
      if |q.elements| <= |parent.elements| {
        assert parent.elements[..|q.elements|] == p.elements[..|q.elements|];
      }
    }
  }

  // ---------- why refreshing one ancestor is enough ----------

  lemma AncestorsOfOnePath(q: Path, n: Path, p: Path)
    requires q.Above(p) && n.Above(p) && |q.elements| <= |n.elements|
    ensures q != n ==> q.Above(n) && n.elements[|q.elements|] == p.elements[|q.elements|]
  {
    assert n.elements[..|q.elements|] == p.elements[..|q.elements|];
  }

  /** An ancestor beyond the nearest registered one lists the nearest one's branch
      already, whether or not `p` itself is registered. */
  lemma OnlyNearestChanges(paths: set<Path>, p: Path, q: Path)
    requires p !in paths && q in paths && NearestAncestor(paths, p) != Some(q)
    ensures ListRegistered(paths + {p}, q) == ListRegistered(paths, q)
  {
    if q.Above(p) {
      var n := NearestAncestor(paths, p).value;
      AncestorsOfOnePath(q, n, p);
      assert n.elements[|q.elements|] in ListRegistered(paths, q);
    }
  }

  lemma OwnChildrenUnchanged(paths: set<Path>, p: Path)
    ensures ListRegistered(paths + {p}, p) == ListRegistered(paths, p)
  {
  }

  lemma {:induction false} NearestIgnoresLonger(paths: set<Path>, p: Path, q: Path)
    requires |p.elements| <= |q.elements|
    ensures NearestAncestor(paths + {q}, p) == NearestAncestor(paths, p)
    decreases |p.elements|
  {
    if p.elements != [] {
      NearestIgnoresLonger(paths, p.Parent(), q);
    }
  }

  // ---------- the abstract registry ----------

  /** `rejected` counts the registrations that were refused because of a duplicate
      interface name, or that are not completed yet. */
  datatype Entry = Entry(interfaces: seq<Interface>, rejected: nat)

  type Registered = map<Path, Entry>

  predicate HasInterface(interfaces: seq<Interface>, name: string) {
    exists i :: 0 <= i < |interfaces| && interfaces[i].name == name
  }

  function Remove(interfaces: seq<Interface>, name: string): seq<Interface> {
    if interfaces == [] then []
    else if interfaces[0].name == name then interfaces[1..]
    else [interfaces[0]] + Remove(interfaces[1..], name)
  }

  function RegisterSpec(v: Registered, p: Path, i: Interface): (Registered, bool) {
    if p !in v then (v[p := Entry([i], 0)], true)
    else if HasInterface(v[p].interfaces, i.name) then
      (v[p := v[p].(rejected := v[p].rejected + 1)], false)
    else (v[p := v[p].(interfaces := v[p].interfaces + [i])], true)
  }

  function UnregisterSpec(v: Registered, p: Path, name: string): (Registered, bool) {
    if p !in v || !HasInterface(v[p].interfaces, name) then (v, false)
    else
      var left := Remove(v[p].interfaces, name);
      if left == [] && v[p].rejected == 0 then (v - {p}, true)
      else (v[p := v[p].(interfaces := left)], true)
  }

  lemma {:induction false} RemoveOne(interfaces: seq<Interface>, name: string)
    ensures |Remove(interfaces, name)| == |interfaces| - (if HasInterface(interfaces, name) then 1 else 0)
    ensures forall n :: HasInterface(Remove(interfaces, name), n) ==> HasInterface(interfaces, n)
  {
    if interfaces != [] && interfaces[0].name != name {
      var tail := interfaces[1..];
      RemoveOne(tail, name);
      forall n ensures HasInterface(interfaces, n) <==> interfaces[0].name == n || HasInterface(tail, n) {
        HasInterfaceCons(interfaces, n);
      }
      var r := Remove(interfaces, name);
      assert r[1..] == Remove(tail, name);
      forall n ensures HasInterface(r, n) <==> r[0].name == n || HasInterface(r[1..], n) {
        HasInterfaceCons(r, n);
      }
    } else if interfaces != [] {
      forall n ensures HasInterface(interfaces, n) <==> interfaces[0].name == n || HasInterface(interfaces[1..], n) {
        HasInterfaceCons(interfaces, n);
      }
    }
  }

  lemma HasInterfaceCons(interfaces: seq<Interface>, name: string)
    requires interfaces != []
    ensures HasInterface(interfaces, name) <==>
      interfaces[0].name == name || HasInterface(interfaces[1..], name)
  {
    if i :| 0 <= i < |interfaces| && interfaces[i].name == name {
      if i > 0 { assert interfaces[1..][i - 1].name == name; }
    }
    if i :| 0 <= i < |interfaces[1..]| && interfaces[1..][i].name == name {
      assert interfaces[i + 1].name == name;
    }
  }

  // ---------- the heap ----------

  class ObjectData {
    const path: Path
    var refcount: nat
    var interfaces: seq<Interface>
    var introspect: Document

    constructor (path: Path, introspect: Document)
      ensures this.path == path && this.introspect == introspect
      ensures refcount == 0 && interfaces == []
    {
      this.path, this.introspect := path, introspect;
      refcount, interfaces := 0, [];
    }
  }

  /** The list of objects holds each registered object once. */
  ghost predicate Listed(tree: map<Path, ObjectData>, objects: seq<ObjectData>) {
    && (forall p :: p in tree ==> tree[p].path == p && tree[p] in objects)
    && (forall i :: 0 <= i < |objects| ==>
          objects[i].path in tree && tree[objects[i].path] == objects[i])
    && (forall i, j :: 0 <= i < j < |objects| ==> objects[i] != objects[j])
  }

  lemma ListedAppend(tree: map<Path, ObjectData>, objects: seq<ObjectData>, o: ObjectData)
    requires Listed(tree, objects) && o.path !in tree
    ensures Listed(tree[o.path := o], objects + [o])
  {
  }

  /** g_slist_remove */
  function RemoveFirst(objects: seq<ObjectData>, o: ObjectData): seq<ObjectData> {
    if objects == [] then []
    else if objects[0] == o then objects[1..]
    else [objects[0]] + RemoveFirst(objects[1..], o)
  }

  lemma {:induction false} RemoveFirstAt(objects: seq<ObjectData>, o: ObjectData) returns (i: nat)
    requires o in objects
    ensures i < |objects| && objects[i] == o
    ensures RemoveFirst(objects, o) == objects[..i] + objects[i + 1..]
  {
    if objects[0] == o {
      i := 0;
    } else {
      var k := RemoveFirstAt(objects[1..], o);
      i := k + 1;
    }
  }

  lemma ListedRemove(tree: map<Path, ObjectData>, objects: seq<ObjectData>, p: Path)
    requires Listed(tree, objects) && p in tree
    ensures Listed(tree - {p}, RemoveFirst(objects, tree[p]))
  {
    hide RemoveFirst;
    var i := RemoveFirstAt(objects, tree[p]);
    CutKeepsOthers(objects, i);
  }

  lemma CutKeepsOthers(objects: seq<ObjectData>, i: nat)
    requires i < |objects|
    requires forall j, k :: 0 <= j < k < |objects| ==> objects[j] != objects[k]
    ensures var left := objects[..i] + objects[i + 1..];
      && (forall j, k :: 0 <= j < k < |left| ==> left[j] != left[k])
      && (forall o :: o in left <==> o in objects && o != objects[i])
  {
    var left := objects[..i] + objects[i + 1..];
    forall o | o in objects && o != objects[i] ensures o in left {
      var j :| 0 <= j < |objects| && objects[j] == o;
      assert if j < i then left[j] == o else left[j - 1] == o;
    }
    forall o | o in left ensures o in objects && o != objects[i] {
      var j :| 0 <= j < |left| && left[j] == o;
      assert if j < i then objects[j] == o else objects[j + 1] == o;
    }
  }

  /** Every registered object has at least one reference. */
  predicate InUse(v: Registered) {
    forall p :: p in v ==> |v[p].interfaces| + v[p].rejected > 0
  }

  class Registry {
    var tree: map<Path, ObjectData>   // the object paths libdbus knows
    var objects: seq<ObjectData>      // ConnectionData
    ghost var view: Registered        // the same, as values
    ghost var repr: set<ObjectData>

    /** Everything but the cached documents. */
    ghost predicate Structure()
      reads this, repr
    {
      && Listed(tree, objects)
      && view.Keys == tree.Keys
      && forall p :: p in tree ==> tree[p] in repr && Shows(p)
    }

    ghost predicate Shows(p: Path)
      requires p in tree && p in view && tree[p] in repr
      reads this, repr
    {
      && tree[p].interfaces == view[p].interfaces
      && tree[p].refcount == |view[p].interfaces| + view[p].rejected
    }

    /** The cache of one object says what would be generated now. */
    ghost predicate CoherentAt(p: Path)
      requires p in tree && tree[p] in repr
      reads this, repr
    {
      tree[p].introspect == GenerateIntrospect(tree.Keys, p, tree[p].interfaces)
    }

    /** Every cache is up to date, except perhaps the one of `stale`. */
    ghost predicate CoherentBeside(stale: Option<Path>)
      requires Structure()
      reads this, repr
    {
      forall p :: p in tree && stale != Some(p) ==> CoherentAt(p)
    }

    ghost predicate Valid()
      reads this, repr
    {
      Structure() && CoherentBeside(None) && InUse(view)
    }

    constructor ()
      ensures Valid() && view == map[] && repr == {}
    {
      tree, objects, view, repr := map[], [], map[], {};
    }

    /** find_object */
    method FindObject(path: Path) returns (i: nat)
      requires Structure()
      ensures i <= |objects| && (i < |objects| <==> path in tree)
      ensures path in tree ==> objects[i] == tree[path]
    {
      i := 0;
      assert path in tree ==> tree[path] in objects;
      while i < |objects|
        invariant i <= |objects|
        invariant forall j :: 0 <= j < i ==> objects[j].path != path
      {
        if objects[i].path == path { return; }
        i := i + 1;
      }
    }

    /** Prints the document of one object anew. */
    method Refresh(path: Path)
      requires Structure() && CoherentBeside(Some(path)) && path in tree
      modifies repr`introspect
      ensures Structure() && CoherentBeside(None)
    {
      hide Listed, ListRegistered;
      var data := tree[path];
      ObjectsDiffer(tree, objects);
      data.introspect := GenerateIntrospect(tree.Keys, path, data.interfaces);
    }

    /** update_parent */
    method UpdateParent(path: Path)
      requires Structure() && CoherentBeside(NearestAncestor(tree.Keys, path))
      modifies repr`introspect
      ensures Structure() && CoherentBeside(None)
      decreases |path.elements|
    {
      hide Listed, GenerateIntrospect;
      if path.elements == [] { return; }
      AboveParent(path);
      var parent := path.Parent();
      if parent !in tree {
        UpdateParent(parent);
        return;
      }
      Refresh(parent);
    }

    /** The branch of b_dbus_register_object for a path without object. */
    method CreateObject(path: Path)
      requires Structure() && CoherentBeside(None) && path !in tree
      modifies this
      ensures Structure() && CoherentBeside(NearestAncestor(tree.Keys, path)) && fresh(repr - old(repr))
      ensures path in tree
      ensures view == old(view)[path := Entry([], 0)]
    {
      hide Listed, ListRegistered, NearestAncestor;
      var object_ := new ObjectData(path, GenerateIntrospect(tree.Keys, path, []));
      ListedAppend(tree, objects, object_);
      InsertKeepsOthers(tree.Keys, path);
      ghost var keys := tree.Keys;
      tree := tree[path := object_];
      objects := objects + [object_];
      view := view[path := Entry([], 0)];
      repr := repr + {object_};
      assert tree.Keys == keys + {path};
    }

    method AddReference(path: Path)
      requires Structure() && CoherentBeside(NearestAncestor(tree.Keys, path)) && path in tree
      modifies this`view, repr`refcount
      ensures Structure() && CoherentBeside(NearestAncestor(tree.Keys, path))
      ensures view == WithRejected(old(view), path)
    {
      hide Listed, NearestAncestor, GenerateIntrospect;
      ObjectsDiffer(tree, objects);
      var object_ := tree[path];
      object_.refcount := object_.refcount + 1;
      view := WithRejected(view, path);
    }

    /** b_dbus_register_object. Until an interface follows, the new reference counts as a
        registration without interface. */
    method RegisterObject(path: Path)
      requires Valid()
      modifies this, repr
      ensures Valid() && fresh(repr - old(repr)) && path in tree
      ensures view == WithRejected(if path in old(view) then old(view) else old(view)[path := Entry([], 0)], path)
    {
      hide NearestAncestor, GenerateIntrospect, Listed, InUse;
      RegisteredInUse(view, path);
      var i := FindObject(path);
      if i == |objects| {
        CreateObject(path);
      }
      AddReference(path);
      UpdateParent(path);
    }

    method SetInterfaces(path: Path, interfaces: seq<Interface>, ghost rejected: nat)
      requires Structure() && CoherentBeside(None) && path in tree
      requires |interfaces| + rejected == |view[path].interfaces| + view[path].rejected
      modifies this`view, repr`interfaces
      ensures Structure() && CoherentBeside(Some(path))
      ensures view == old(view)[path := Entry(interfaces, rejected)]
    {
      hide Listed, GenerateIntrospect;
      ObjectsDiffer(tree, objects);
      var object_ := tree[path];
      object_.interfaces := interfaces;
      view := view[path := Entry(interfaces, rejected)];
    }

    /** b_dbus_register_interface_with_callback */
    method RegisterInterface(path: Path, iface: Interface) returns (ok: bool)
      requires Valid()
      modifies this, repr
      ensures Valid() && fresh(repr - old(repr))
      ensures (view, ok) == RegisterSpec(old(view), path, iface)
    {
      hide Listed, GenerateIntrospect, NearestAncestor, RegisterSpec, WithRejected, InUse, HasInterface;
      ghost var after := RegisterSpec(view, path, iface).0;
      RegisterSpecInUse(view, path, iface);
      RegisterSteps(view, path, iface);
      RegisterObject(path);
      assert Shows(path);
      var interfaces := tree[path].interfaces;
      if HasInterface(interfaces, iface.name) {
        assert view == after;
        return false;
      }
      SetInterfaces(path, interfaces + [iface], view[path].rejected - 1);
      assert view == after;
      Refresh(path);
      ok := true;
    }

    /** The branch of b_dbus_unregister_object for the last reference. */
    method DeleteObject(path: Path)
      requires Structure() && CoherentBeside(None) && path in tree
      modifies this
      ensures Structure() && CoherentBeside(NearestAncestor(tree.Keys, path)) && repr == old(repr)
      ensures view == old(view) - {path}
    {
      hide Listed, ListRegistered, NearestAncestor, RemoveFirst;
      ListedRemove(tree, objects, path);
      ghost var keys := tree.Keys - {path};
      assert keys + {path} == tree.Keys;
      InsertKeepsOthers(keys, path);
      NearestIgnoresLonger(keys, path, path);
      var object_ := tree[path];
      tree := tree - {path};
      objects := RemoveFirst(objects, object_);
      view := view - {path};
      assert tree.Keys == keys;
    }

    method DropReference(path: Path)
      requires Structure() && CoherentBeside(None) && path in tree && view[path].rejected > 0
      modifies this`view, repr`refcount
      ensures Structure() && CoherentBeside(None)
      ensures view == old(view)[path := old(view)[path].(rejected := old(view)[path].rejected - 1)]
    {
      hide Listed, GenerateIntrospect;
      ObjectsDiffer(tree, objects);
      assert Shows(path);
      var object_ := tree[path];
      object_.refcount := object_.refcount - 1;
      view := view[path := view[path].(rejected := view[path].rejected - 1)];
    }

    /** b_dbus_unregister_object, after the interface was taken out. */
    method UnregisterObject(path: Path)
      requires Valid() && path in tree && view[path].rejected > 0
      modifies this, repr
      ensures Valid() && repr == old(repr) && view == Dropped(old(view), path)
    {
      hide Listed, GenerateIntrospect, NearestAncestor, InUse;
      ghost var left := Dropped(view, path);
      DropReference(path);
      assert Shows(path);
      if tree[path].refcount == 0 {
        assert view[path] == Entry([], 0);
        Overwrite(old(view), path, view[path], view[path]);
        DeleteObject(path);
      }
      assert view == left;
      UpdateParent(path);
    }

    /** b_dbus_unregister_interface */
    method UnregisterInterface(path: Path, name: string) returns (ok: bool)
      requires Valid()
      modifies this, repr
      ensures Valid() && repr == old(repr)
      ensures (view, ok) == UnregisterSpec(old(view), path, name)
    {
      hide Listed, GenerateIntrospect, NearestAncestor, UnregisterSpec, Dropped;
      UnregisterSteps(view, path, name);
      if path !in tree { return false; }
      assert Shows(path);
      var interfaces := tree[path].interfaces;
      if !HasInterface(interfaces, name) { return false; }
      RemoveOne(interfaces, name);
      SetInterfaces(path, Remove(interfaces, name), view[path].rejected + 1);
      Refresh(path);
      UnregisterObject(path);
      ok := true;
    }
  }

  lemma RegisterSpecInUse(v: Registered, p: Path, i: Interface)
    requires InUse(v)
    ensures InUse(RegisterSpec(v, p, i).0)
  {
    var r := RegisterSpec(v, p, i).0;
    assert forall q :: q in r && q != p ==> q in v && r[q] == v[q];
  }

  lemma RegisterSteps(v: Registered, p: Path, i: Interface)
    ensures var w := WithRejected(if p in v then v else v[p := Entry([], 0)], p);
      RegisterSpec(v, p, i) ==
        if HasInterface(w[p].interfaces, i.name) then (w, false)
        else (w[p := Entry(w[p].interfaces + [i], w[p].rejected - 1)], true)
  {
    assert [] + [i] == [i];
    var v1 := if p in v then v else v[p := Entry([], 0)];
    var w := WithRejected(v1, p);
    Overwrite(v, p, Entry([], 0), w[p]);
    Overwrite(v, p, w[p], Entry(w[p].interfaces + [i], w[p].rejected - 1));
  }

  lemma RegisteredInUse(v: Registered, p: Path)
    requires InUse(v)
    ensures InUse(WithRejected(if p in v then v else v[p := Entry([], 0)], p))
  {
    var r := WithRejected(if p in v then v else v[p := Entry([], 0)], p);
    assert forall q :: q in r && q != p ==> q in v && r[q] == v[q];
  }

  lemma Overwrite(v: Registered, p: Path, a: Entry, b: Entry)
    ensures v[p := a][p := b] == v[p := b] && v[p := a] - {p} == v - {p}
    ensures p in v && v[p] == b ==> v[p := a][p := b] == v
  {
  }

  /** The view after a registration without interface was given back. */
  function Dropped(v: Registered, p: Path): (r: Registered)
    requires p in v && v[p].rejected > 0
    ensures InUse(v) ==> InUse(r)
  {
    var e := v[p].(rejected := v[p].rejected - 1);
    if e == Entry([], 0) then v - {p} else v[p := e]
  }

  lemma UnregisterSteps(v: Registered, p: Path, name: string)
    ensures p !in v || !HasInterface(v[p].interfaces, name) ==> UnregisterSpec(v, p, name) == (v, false)
    ensures p in v && HasInterface(v[p].interfaces, name) ==>
      var w := v[p := Entry(Remove(v[p].interfaces, name), v[p].rejected + 1)];
      UnregisterSpec(v, p, name) == (Dropped(w, p), true)
  {
    if p in v && HasInterface(v[p].interfaces, name) {
      var e := Entry(Remove(v[p].interfaces, name), v[p].rejected);
      Overwrite(v, p, e.(rejected := e.rejected + 1), e);
    }
  }

  function WithRejected(v: Registered, p: Path): (r: Registered)
    requires p in v
    ensures p in r && r[p].rejected > 0
  {
    v[p := v[p].(rejected := v[p].rejected + 1)]
  }

  lemma ObjectsDiffer(tree: map<Path, ObjectData>, objects: seq<ObjectData>)
    requires Listed(tree, objects)
    ensures forall p, q :: p in tree && q in tree && p != q ==> tree[p] != tree[q]
  {
  }

  lemma InsertKeepsOthers(keys: set<Path>, path: Path)
    requires path !in keys
    ensures ListRegistered(keys + {path}, path) == ListRegistered(keys, path)
    ensures forall p :: p in keys && NearestAncestor(keys + {path}, path) != Some(p) ==>
      ListRegistered(keys + {path}, p) == ListRegistered(keys, p)
  {
    NearestIgnoresLonger(keys, path, path);
    OwnChildrenUnchanged(keys, path);
    forall p | p in keys && NearestAncestor(keys, path) != Some(p)
      ensures ListRegistered(keys + {path}, p) == ListRegistered(keys, p)
    {
      OnlyNearestChanges(keys, path, p);
    }
  }

  /** update_parent computes the parent's text with g_path_get_dirname. */
  lemma ParentIsDirname(p: Path)
    requires IsPath(p.elements) && p.elements != []
    ensures Dirname(Render(p.elements)) == Render(p.Parent().elements)
  {
    DirnameDropsLast(p.elements);
  }

  // ---------- whole runs ----------

  datatype Op = Register(path: Path, iface: Interface) | Unregister(path: Path, name: string)

  function Step(v: Registered, op: Op): (Registered, bool) {
    match op
    case Register(p, i) => RegisterSpec(v, p, i)
    case Unregister(p, name) => UnregisterSpec(v, p, name)
  }

  function Run(v: Registered, ops: seq<Op>): Registered
    decreases |ops|
  {
    if ops == [] then v else Run(Step(v, ops[0]).0, ops[1..])
  }

  /** Over a run: interfaces added to `p` minus interfaces removed from it. */
  function NetInterfaces(v: Registered, ops: seq<Op>, p: Path): int
    decreases |ops|
  {
    if ops == [] then 0
    else
      (if ops[0].path != p || !Step(v, ops[0]).1 then 0 else if ops[0].Register? then 1 else -1)
      + NetInterfaces(Step(v, ops[0]).0, ops[1..], p)
  }

  /** Over a run: registrations for `p` that were refused. */
  function Refusals(v: Registered, ops: seq<Op>, p: Path): nat
    decreases |ops|
  {
    if ops == [] then 0
    else
      (if ops[0].path == p && ops[0].Register? && !Step(v, ops[0]).1 then 1 else 0)
      + Refusals(Step(v, ops[0]).0, ops[1..], p)
  }

  function InterfacesAt(v: Registered, p: Path): nat {
    if p in v then |v[p].interfaces| else 0
  }

  function RefusedAt(v: Registered, p: Path): nat {
    if p in v then v[p].rejected else 0
  }

  lemma StepTally(v: Registered, op: Op, p: Path)
    requires InUse(v)
    ensures var (w, ok) := Step(v, op);
      && InUse(w)
      && InterfacesAt(w, p) == InterfacesAt(v, p)
           + (if op.path != p || !ok then 0 else if op.Register? then 1 else -1)
      && RefusedAt(w, p) == RefusedAt(v, p) + (if op.path == p && op.Register? && !ok then 1 else 0)
  {
    match op {
      case Register(q, i) => RegisterSpecInUse(v, q, i);
      case Unregister(q, name) =>
        if q in v {
          RemoveOne(v[q].interfaces, name);
          UnregisterSteps(v, q, name);
          var w := UnregisterSpec(v, q, name).0;
          assert forall r :: r in w && r != q ==> r in v && w[r] == v[r];
        }
    }
  }

  /** Conservation over every run from the empty registry: the reference count of a path
      is its number of interfaces plus the number of its refused registrations, and the
      path is registered exactly while that is not zero. */
  lemma {:induction false} Conservation(v: Registered, ops: seq<Op>, p: Path)
    requires InUse(v)
    ensures var w := Run(v, ops);
      && InUse(w)
      && InterfacesAt(w, p) == InterfacesAt(v, p) + NetInterfaces(v, ops, p)
      && RefusedAt(w, p) == RefusedAt(v, p) + Refusals(v, ops, p)
      && (p in w <==> InterfacesAt(w, p) + RefusedAt(w, p) > 0)
    decreases |ops|
  {
    hide Step;
    if ops != [] {
      StepTally(v, ops[0], p);
      Conservation(Step(v, ops[0]).0, ops[1..], p);
    }
  }

  /** Without refused registrations a path disappears exactly with its last interface;
      after a refused one it never disappears again. */
  lemma RefusalKeepsPath(ops: seq<Op>, p: Path)
    ensures var w := Run(map[], ops);
      p in w <==> NetInterfaces(map[], ops, p) > 0 || Refusals(map[], ops, p) > 0
  {
    Conservation(map[], ops, p);
  }

  // ---------- what one registration or removal changes ----------

  predicate DistinctNames(interfaces: seq<Interface>) {
    forall i, j :: 0 <= i < j < |interfaces| ==> interfaces[i].name != interfaces[j].name
  }

  predicate NamesDistinct(v: Registered) {
    forall p :: p in v ==> DistinctNames(v[p].interfaces)
  }

  function InterfacesOf(v: Registered, p: Path): seq<Interface> {
    if p in v then v[p].interfaces else []
  }

  /** A registration succeeds exactly if the name is free at the path. Then the interface
      is the last one, behind the old ones; otherwise the interfaces stay. No other path is
      touched. */
  lemma RegisterExact(v: Registered, p: Path, i: Interface)
    ensures var (w, ok) := Step(v, Register(p, i));
      var before, after := InterfacesOf(v, p), InterfacesOf(w, p);
      && p in w
      && (ok <==> forall k :: 0 <= k < |before| ==> before[k].name != i.name)
      && (ok ==> |after| == |before| + 1 && after[|before|] == i)
      && (ok ==> forall k :: 0 <= k < |before| ==> after[k] == before[k])
      && (!ok ==> after == before)
      && forall q :: q != p ==> (q in w <==> q in v) && (q in v ==> w[q] == v[q])
  {
    var before := InterfacesOf(v, p);
    NameThere(before, i.name);
    var w := Step(v, Register(p, i)).0;
    assert !HasInterface(before, i.name) ==> InterfacesOf(w, p) == before + [i];
    assert HasInterface(before, i.name) ==> InterfacesOf(w, p) == before;
  }

  lemma {:induction false} RemoveExact(interfaces: seq<Interface>, name: string, k: nat)
    requires k < |interfaces| && interfaces[k].name == name
    requires forall j :: 0 <= j < k ==> interfaces[j].name != name
    ensures Remove(interfaces, name) == interfaces[..k] + interfaces[k + 1..]
  {
    if k > 0 {
      var tail := interfaces[1..];
      RemoveExact(tail, name, k - 1);
      assert interfaces[..k] == [interfaces[0]] + tail[..k - 1] && interfaces[k + 1..] == tail[k..];
    }
  }

  /** A removal succeeds exactly if there is an interface with this name. Then exactly this
      one is gone, and all others are there with their tables and in their order; otherwise
      nothing happens. No other path is touched. */
  lemma UnregisterExact(v: Registered, p: Path, name: string)
    requires NamesDistinct(v)
    ensures var (w, ok) := Step(v, Unregister(p, name));
      var before, after := InterfacesOf(v, p), InterfacesOf(w, p);
      && (ok <==> exists k :: 0 <= k < |before| && before[k].name == name)
      && (!ok ==> w == v)
      && (ok ==> exists k: nat :: CutAt(before, after, k) && before[k].name == name)
      && (ok ==> forall x :: x in after <==> x in before && x.name != name)
      && forall q :: q != p ==> (q in w <==> q in v) && (q in v ==> w[q] == v[q])
  {
    hide Remove, DistinctNames, HasInterface, CutAt;
    var before, w := InterfacesOf(v, p), Step(v, Unregister(p, name)).0;
    NameThere(before, name);
    if HasInterface(before, name) {
      RemoveMeans(before, name);
      assert InterfacesOf(w, p) == Remove(before, name);
      assert forall q :: q != p ==> (q in w <==> q in v) && (q in v ==> w[q] == v[q]);
    } else {
      assert w == v;
    }
  }

  lemma NameThere(interfaces: seq<Interface>, name: string)
    ensures HasInterface(interfaces, name) <==> exists k :: 0 <= k < |interfaces| && interfaces[k].name == name
  {
  }

  /** `after` is `before` without the element at position `k`. */
  predicate CutAt(before: seq<Interface>, after: seq<Interface>, k: nat) {
    && k < |before| && |after| == |before| - 1
    && (forall j :: 0 <= j < k ==> after[j] == before[j])
    && (forall j :: k <= j < |after| ==> after[j] == before[j + 1])
  }

  lemma RemoveMeans(before: seq<Interface>, name: string)
    requires DistinctNames(before) && HasInterface(before, name)
    ensures var after := Remove(before, name);
      && (exists k: nat :: CutAt(before, after, k) && before[k].name == name)
      && forall x :: x in after <==> x in before && x.name != name
  {
    var k := FirstWithName(before, name);
    RemoveExact(before, name, k);
    forall x ensures x in Remove(before, name) <==> x in before && x.name != name {
      CutMembers(before, k, x);
    }
    assert CutAt(before, Remove(before, name), k);
  }

  lemma FirstWithName(interfaces: seq<Interface>, name: string) returns (k: nat)
    requires HasInterface(interfaces, name)
    ensures k < |interfaces| && interfaces[k].name == name
    ensures forall j :: 0 <= j < k ==> interfaces[j].name != name
  {
    k := 0;
    while interfaces[k].name != name
      invariant k < |interfaces| && forall j :: 0 <= j < k ==> interfaces[j].name != name
      invariant exists j :: k <= j < |interfaces| && interfaces[j].name == name
      decreases |interfaces| - k
    {
      k := k + 1;
    }
  }

  lemma CutMembers(interfaces: seq<Interface>, k: nat, x: Interface)
    requires k < |interfaces| && DistinctNames(interfaces)
    ensures x in interfaces[..k] + interfaces[k + 1..] <==> x in interfaces && x.name != interfaces[k].name
  {
    var left := interfaces[..k] + interfaces[k + 1..];
    if x in left {
      var j :| 0 <= j < |left| && left[j] == x;
      assert if j < k then interfaces[j] == x else interfaces[j + 1] == x;
    }
    if x in interfaces && x.name != interfaces[k].name {
      var j :| 0 <= j < |interfaces| && interfaces[j] == x;
      assert if j < k then left[j] == x else left[j - 1] == x;
    }
  }

  lemma StepKeepsNames(v: Registered, op: Op)
    requires NamesDistinct(v)
    ensures NamesDistinct(Step(v, op).0)
  {
    var (w, ok) := Step(v, op);
    match op {
      case Register(p, i) => RegisterExact(v, p, i);
      case Unregister(p, name) => UnregisterExact(v, p, name);
    }
    forall q | q in w ensures DistinctNames(w[q].interfaces) {
      assert q != op.path ==> q in v && w[q] == v[q];
    }
  }

  lemma {:induction false} NamesStayDistinct(v: Registered, ops: seq<Op>)
    requires NamesDistinct(v)
    ensures NamesDistinct(Run(v, ops))
    decreases |ops|
  {
    hide Step, NamesDistinct;
    if ops != [] {
      StepKeepsNames(v, ops[0]);
      NamesStayDistinct(Step(v, ops[0]).0, ops[1..]);
    }
  }

  /** In every state that is reached from the empty registry, the names of the interfaces
      at a path are pairwise distinct, so that RegisterExact and UnregisterExact say what
      the next step does. */
  lemma ReachedNamesDistinct(ops: seq<Op>)
    ensures NamesDistinct(Run(map[], ops))
  {
    NamesStayDistinct(map[], ops);
  }

  // ---------- what a document says ----------

  /** The children that are listed are the next elements of the paths below. */
  lemma ListRegisteredMeans(paths: set<Path>, p: Path, c: string)
    ensures c in ListRegistered(paths, p) <==>
      exists q: Path :: q in paths && IsPrefix(p.elements + [c], q.elements)
  {
    var n := |p.elements|;
    if c in ListRegistered(paths, p) {
      var q :| q in paths && p.Above(q) && q.elements[n] == c;
      assert q.elements[..n + 1] == p.elements + [c];
    }
    if q: Path :| q in paths && IsPrefix(p.elements + [c], q.elements) {
      assert q.elements[..n + 1] == p.elements + [c];
      assert q.elements[..n] == q.elements[..n + 1][..n] == p.elements;
      assert q.elements[n] == q.elements[..n + 1][n] == c;
      assert p.Above(q);
    }
  }

  /** The document shows the object's interfaces, in order, and each child exactly if it
      leads to a registered path. */
  ghost predicate Truthful(d: Document, v: Registered, p: Path) {
    && d.node == p
    && d.interfaces == InterfacesOf(v, p)
    && forall c :: c in d.children <==> exists q: Path :: q in v && IsPrefix(p.elements + [c], q.elements)
  }

  lemma GeneratedIsTruthful(v: Registered, p: Path)
    ensures Truthful(GenerateIntrospect(v.Keys, p, InterfacesOf(v, p)), v, p)
  {
    forall c ensures c in ListRegistered(v.Keys, p) <==> exists q: Path :: q in v && IsPrefix(p.elements + [c], q.elements) {
      ListRegisteredMeans(v.Keys, p, c);
      assert forall q: Path :: q in v.Keys <==> q in v;
    }
  }

  /** Registering an interface twice and unregistering it once leaves the path registered
      without any interface. */
  lemma RefusedTwice(p: Path, i: Interface)
    ensures var w := Run(map[], [Register(p, i), Register(p, i), Unregister(p, i.name)]);
      p in w && w[p] == Entry([], 1)
  {
    var ops := [Register(p, i), Register(p, i), Unregister(p, i.name)];
    var v1 := Step(map[], ops[0]).0;
    assert v1[p].interfaces[0].name == i.name;
    var v2 := Step(v1, ops[1]).0;
    assert v2[p] == Entry([i], 1) && v2[p].interfaces[0].name == i.name;
    var v3 := Step(v2, ops[2]).0;
    assert ops[1..] == [ops[1], ops[2]] && ops[1..][1..] == [ops[2]] && ops[1..][1..][1..] == [];
    assert Run(map[], ops) == Run(v1, ops[1..]) == Run(v2, ops[1..][1..]) == Run(v3, []);
  }

  /** Any run on a real registry: at the end every cached document shows the interfaces and
      the children that there are, and the registry holds what the run on values says. */
  method Perform(registry: Registry, ops: seq<Op>)
    requires registry.Valid()
    modifies registry, registry.repr
    ensures registry.Valid()
    ensures registry.view == Run(old(registry.view), ops)
    ensures forall p :: p in registry.view ==>
      p in registry.tree && Truthful(registry.tree[p].introspect, registry.view, p)
  {
    for n := 0 to |ops|
      invariant registry.Valid() && fresh(registry.repr - old(registry.repr))
      invariant Run(registry.view, ops[n..]) == Run(old(registry.view), ops)
    {
      assert ops[n..][1..] == ops[n + 1..];
      match ops[n] {
        case Register(p, i) => var _ := registry.RegisterInterface(p, i);
        case Unregister(p, name) => var _ := registry.UnregisterInterface(p, name);
      }
    }
    forall p | p in registry.view ensures Truthful(registry.tree[p].introspect, registry.view, p) {
      GeneratedIsTruthful(registry.view, p);
      assert registry.Shows(p) && registry.CoherentAt(p);
    }
  }
}
