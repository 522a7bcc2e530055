/** The recursive variant: a value of one basic type V, or a vector of such values and
    vectors. Peers send it as variants, typed arrays or tuples, in any mixture. */
module RecursiveVariant {
  import opened Wrappers
  import opened Wire
  import opened Marshal
  import opened Builder

  datatype Nested = One(b: BasicVal) | Many(items: seq<Nested>)

  // ---------- decoding, as the code does it ----------

  function Head(it: seq<Value>): Value {
    if it == [] then Tuple([]) else it[0]
  }

  /** Peeks at the type string of the next element and decides by it. */
  function Decode(b: BasicHost, it: seq<Value>): (r: Option<(Nested, seq<Value>)>)
    ensures r.Some? ==> it != [] && r.value.1 == it[1..]
    decreases Head(it), 0
  {
    if it == [] then None else
    TypeString(b, it[0]);
    var type_ := Signature(TypeOf(it[0]));
    if type_ == "v" then
      var (t, _) :- Decode(b, Children(it[0]));
      Some((t, it[1..]))
    else if type_ == [Code(PrimOf(b))] then
      var (x, rest) :- GetBasic(b, it);
      Some((One(x), rest))
    else if type_[0] == 'a' || type_[0] == '(' then
      var ts :- DecodeAll(b, Children(it[0]));
      Some((Many(ts), it[1..]))
    else None
  }

  function DecodeAll(b: BasicHost, it: seq<Value>): (r: Option<seq<Nested>>)
    decreases it, 1
  {
    if it == [] then Some([])
    else
      var (t, rest) :- Decode(b, it);
      var ts :- DecodeAll(b, rest);
      Some([t] + ts)
  }

  // ---------- what a message element shows, independent of any decoding order ----------

  predicate IsLeaf(b: BasicHost, w: Value) {
    TypeOf(w) == Basic(PrimOf(b))
  }

  predicate IsVector(w: Value) {
    w.Items? || w.Tuple?
  }

  /** `w` is one of the ways to send `t`. */
  predicate Shows(b: BasicHost, w: Value, t: Nested)
    decreases w
  {
    if w.Boxed? then Shows(b, w.inner, t)
    else if IsLeaf(b, w) then GetBasic(b, [w]).Some? && t == One(GetBasic(b, [w]).value.0)
    else
      IsVector(w) && t.Many? && |w.items| == |t.items|
      && forall i :: 0 <= i < |w.items| ==> Shows(b, w.items[i], t.items[i])
  }

  /** Somewhere in `w` there is a node that is neither V nor a variant, array or tuple. */
  predicate Offends(b: BasicHost, w: Value)
    decreases w
  {
    if w.Boxed? then Offends(b, w.inner)
    else if IsLeaf(b, w) then false
    else !IsVector(w) || exists i :: 0 <= i < |w.items| && Offends(b, w.items[i])
  }

  lemma TypeString(b: BasicHost, w: Value)
    ensures var s := Signature(TypeOf(w));
      && s != ""
      && (s == "v" <==> w.Boxed?)
      && (s == [Code(PrimOf(b))] <==> IsLeaf(b, w))
      && (!w.Boxed? && !IsLeaf(b, w) ==> (s[0] == 'a' || s[0] == '(' <==> IsVector(w)))
  {
    SignatureEquality(TypeOf(w), Basic(PrimOf(b)));
    SignatureEquality(TypeOf(w), Variant);
    assert Signature(Variant) == "v";
  }

  /** The decoder finds `t` exactly if the next element shows `t`, and then it consumes
      that one element. */
  lemma {:induction false} DecodeExact(b: BasicHost, it: seq<Value>, t: Nested)
    requires GoodBasic(b) && it != []
    ensures Decode(b, it) == Some((t, it[1..])) <==> Shows(b, it[0], t)
    decreases Head(it), 0
  {
    hide Signature, GetBasic;
    var w := it[0];
    TypeString(b, w);
    if w.Boxed? {
      DecodeExact(b, [w.inner], t);
      assert Children(w) == [w.inner];
    } else if IsLeaf(b, w) {
      BasicLooksAtHead(b, it);
    } else if IsVector(w) {
      if t.Many? {
        DecodeAllExact(b, w.items, t.items);
      }
    }
  }

  lemma BasicLooksAtHead(b: BasicHost, it: seq<Value>)
    requires it != []
    ensures GetBasic(b, it).Some? <==> GetBasic(b, [it[0]]).Some?
    ensures GetBasic(b, it).Some? ==> GetBasic(b, it).value == (GetBasic(b, [it[0]]).value.0, it[1..])
  {
  }

  lemma {:induction false} DecodeAllExact(b: BasicHost, it: seq<Value>, ts: seq<Nested>)
    requires GoodBasic(b)
    ensures DecodeAll(b, it) == Some(ts) <==>
      |it| == |ts| && forall i :: 0 <= i < |it| ==> Shows(b, it[i], ts[i])
    decreases it, 1
  {
    hide Decode, Shows;
    if it != [] {
      if ts != [] {
        DecodeExact(b, it, ts[0]);
        DecodeAllExact(b, it[1..], ts[1..]);
        assert ts == [ts[0]] + ts[1..];
        assert forall i :: 1 <= i < |it| ==> it[i] == it[1..][i - 1];
        assert forall i :: 1 <= i < |ts| ==> ts[i] == ts[1..][i - 1];
      }
      if DecodeAll(b, it).Some? {
        var d := Decode(b, it).value.0;
        DecodeExact(b, it, d);
        assert DecodeAll(b, it).value[1..] == DecodeAll(b, it[1..]).value;
      }
    }
  }

  /** Two ways of sending the same nested list are decoded to the same value. */
  lemma RepresentationIndependent(b: BasicHost, w1: Value, w2: Value, t: Nested, rest: seq<Value>)
    requires GoodBasic(b) && Shows(b, w1, t) && Shows(b, w2, t)
    ensures Decode(b, [w1] + rest) == Decode(b, [w2] + rest) == Some((t, rest))
  {
    DecodeExact(b, [w1] + rest, t);
    DecodeExact(b, [w2] + rest, t);
    assert ([w1] + rest)[1..] == rest && ([w2] + rest)[1..] == rest;
  }

  /** Decoding throws exactly if some node that is present offends. */
  lemma {:induction false} DecodeFails(b: BasicHost, it: seq<Value>)
    requires GoodBasic(b) && it != []
    ensures Decode(b, it) == None <==> Offends(b, it[0])
    decreases Head(it), 0
  {
    hide Signature;
    var w := it[0];
    TypeString(b, w);
    if w.Boxed? {
      DecodeFails(b, [w.inner]);
      assert Children(w) == [w.inner];
    } else if IsVector(w) && !IsLeaf(b, w) {
      DecodeAllFails(b, w.items);
    }
  }

  lemma {:induction false} DecodeAllFails(b: BasicHost, it: seq<Value>)
    requires GoodBasic(b)
    ensures DecodeAll(b, it) == None <==> exists i :: 0 <= i < |it| && Offends(b, it[i])
    decreases it, 1
  {
    hide Decode, Offends;
    if it != [] {
      DecodeFails(b, it);
      DecodeAllFails(b, it[1..]);
      assert forall i :: 1 <= i < |it| ==> it[i] == it[1..][i - 1];
      if i :| 0 <= i < |it[1..]| && Offends(b, it[1..][i]) {
        assert Offends(b, it[i + 1]);
      }
    }
  }

  // ---------- two extreme ways of sending ----------

  /** Everything in tuples, as an untyped client without variants would send it. */
  function AsTuples(b: BasicHost, t: Nested): (w: Value)
  {
    match t
    case One(x) => (match AppendBasic(b, x) case Some(w) => w case None => Tuple([]))
    case Many(ts) => Tuple(seq(|ts|, i requires 0 <= i < |ts| => AsTuples(b, ts[i])))
  }

  /** Every element in its own variant box, in arrays of variants. */
  function AsVariants(b: BasicHost, t: Nested): (w: Value)
  {
    match t
    case One(x) => (match AppendBasic(b, x) case Some(w) => Boxed(w) case None => Boxed(Tuple([])))
    case Many(ts) => Boxed(Items(Variant, seq(|ts|, i requires 0 <= i < |ts| => AsVariants(b, ts[i]))))
  }

  predicate Sendable(b: BasicHost, t: Nested) {
    match t
    case One(x) => HasBasic(b, x) && AppendBasic(b, x).Some? && NormBasic(x) == x
    case Many(ts) => forall i :: 0 <= i < |ts| ==> Sendable(b, ts[i])
  }

  lemma {:induction false} BothShow(b: BasicHost, t: Nested)
    requires GoodBasic(b) && Sendable(b, t)
    ensures Shows(b, AsTuples(b, t), t) && Shows(b, AsVariants(b, t), t)
  {
    match t {
      case One(x) =>
      case Many(ts) =>
        forall i | 0 <= i < |ts|
          ensures Shows(b, AsTuples(b, ts[i]), ts[i]) && Shows(b, AsVariants(b, ts[i]), ts[i])
        {
          BothShow(b, ts[i]);
        }
    }
  }

  /** What a client wrote as tuples and what it wrote as boxed variants means the same. */
  lemma TuplesMeanVariants(b: BasicHost, t: Nested, rest: seq<Value>)
    requires GoodBasic(b) && Sendable(b, t)
    ensures Decode(b, [AsTuples(b, t)] + rest) == Decode(b, [AsVariants(b, t)] + rest) == Some((t, rest))
  {
    BothShow(b, t);
    RepresentationIndependent(b, AsTuples(b, t), AsVariants(b, t), t, rest);
  }

  // ---------- the iterator form ----------

  method ReadNested(b: BasicHost, iter: VariantIter) returns (r: Option<Nested>)
    modifies iter
    ensures r.Some? <==> Decode(b, old(iter.rest)).Some?
    ensures r.Some? ==> Decode(b, old(iter.rest)).value == (r.value, iter.rest)
    decreases Head(iter.rest), 0
  {
    var itercopy := new VariantIter.Over(iter.rest);
    var w := iter.Next();
    if w == None { return None; }
    TypeString(b, w.value);
    var type_ := Signature(TypeOf(w.value));
    if type_ == "v" {
      var varIter := new VariantIter(w.value);
      r := ReadNested(b, varIter);
    } else if type_ == [Code(PrimOf(b))] {
      var x := ReadBasic(b, itercopy);
      r := if x.Some? then Some(One(x.value)) else None;
    } else if type_[0] == 'a' {
      var ts := ReadCounted(b, Children(w.value));
      r := if ts.Some? then Some(Many(ts.value)) else None;
    } else if type_[0] == '(' {
      var ts := ReadLockstep(b, Children(w.value));
      r := if ts.Some? then Some(Many(ts.value)) else None;
    } else {
      r := None;
    }
  }

  /** The array branch: as many reads as there are children. */
  method ReadCounted(b: BasicHost, items: seq<Value>) returns (r: Option<seq<Nested>>)
    ensures r == DecodeAll(b, items)
    decreases items, 1
  {
    var childIter := new VariantIter.Over(items);
    var val := [];
    JoinedNothing(DecodeAll(b, items));
    for i := 0 to |items|
      invariant childIter.rest == items[i..]
      invariant DecodeAll(b, items) == Joined(val, DecodeAll(b, items[i..]))
    {
      var tmp := ReadNested(b, childIter);
      if tmp == None { return None; }
      assert items[i..][1..] == items[i + 1..];
      JoinedOneMore(val, tmp.value, DecodeAll(b, items[i + 1..]));
      val := val + [tmp.value];
    }
    r := Some(val);
    assert val + [] == val;
  }

  lemma DecodeAllStep(b: BasicHost, items: seq<Value>, i: nat)
    requires i < |items| && Decode(b, items[i..]).Some?
    ensures Decode(b, items[i..]).value.1 == items[i + 1..]
    ensures DecodeAll(b, items[i..]) ==
      Joined([Decode(b, items[i..]).value.0], DecodeAll(b, items[i + 1..]))
  {
    hide Decode;
    assert items[i..][1..] == items[i + 1..];
  }

  /** The tuple branch: a copy of the iterator runs ahead and says when to stop. */
  method ReadLockstep(b: BasicHost, items: seq<Value>) returns (r: Option<seq<Nested>>)
    ensures r == DecodeAll(b, items)
    decreases items, 1
  {
    hide Decode;
    var tupIter := new VariantIter.Over(items);
    var copy := new VariantIter.Over(items);
    var val := [];
    JoinedNothing(DecodeAll(b, items));
    ghost var i := 0;
    var ahead := copy.Next();
    while ahead.Some?
      invariant i <= |items| && tupIter.rest == items[i..]
      invariant ahead.Some? <==> i < |items|
      invariant copy.rest == if i < |items| then items[i + 1..] else []
      invariant DecodeAll(b, items) == Joined(val, DecodeAll(b, items[i..]))
      decreases |items| - i
    {
      var tmp := ReadNested(b, tupIter);
      if tmp == None { return None; }
      DecodeAllStep(b, items, i);
      JoinedOneMore(val, tmp.value, DecodeAll(b, items[i + 1..]));
      val := val + [tmp.value];
      i := i + 1;
      ahead := copy.Next();
    }
    r := Some(val);
    assert val + [] == val;
  }
}
