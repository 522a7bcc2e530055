/** DBusVector, the growing table of methods that always ends with a zeroed element, and
    the dispatch loop of handle_message that relies on this end marker. */
module GrowingTable {
  import opened Wrappers

  /** BDBusMethodTable: all fields of the end marker are NULL. */
  datatype Method = Method(name: Option<string>, signature: string, function_: Option<nat>)

  const ZERO := Method(None, "", None)

  class DBusVector {
    var entries: nat
    var size: nat
    var elements: array?<Method>
    ghost var copied: nat   // elements that realloc had to move so far

    ghost predicate Valid()
      reads this, elements
    {
      if elements == null then entries == size == copied == 0
      else
        && 0 < entries < size == elements.Length
        && elements[entries] == ZERO
        && size >= 16
        && copied + 16 == size
        && (size == 16 || size <= 2 * entries)
    }

    ghost function Contents(): seq<Method>
      requires Valid()
      reads this, elements
    {
      if elements == null then [] else elements[..entries]
    }

    constructor ()
      ensures Valid() && Contents() == [] && elements == null
    {
      entries, size, elements, copied := 0, 0, null, 0;
    }

    /** realloc: the old elements are kept, the new ones are not initialised. */
    method Grow(newSize: nat)
      requires elements == null || elements.Length <= newSize
      requires if elements == null then size == 0 else size == elements.Length
      modifies this
      ensures fresh(elements) && elements != null && elements.Length == size == newSize
      ensures old(elements) != null ==>
        elements[..old(elements).Length] == old(elements[..]) && copied == old(copied) + old(size)
      ensures old(elements) == null ==> copied == old(copied)
      ensures entries == old(entries)
    {
      var moved := new Method[newSize];
      if elements != null {
        var i := 0;
        while i < elements.Length
          modifies moved
          invariant i <= elements.Length && moved[..i] == elements[..i]
        {
          moved[i] := elements[i];
          i := i + 1;
        }
        copied := copied + size;
      }
      elements := moved;
      size := newSize;
    }

    method PushBack(element: Method)
      requires Valid()
      modifies this, elements
      ensures Valid() && elements != null
      ensures Contents() == old(Contents()) + [element]
      ensures elements == old(elements) || fresh(elements)
    {
      ghost var before := Contents();
      if entries + 1 >= size {
        Grow(if size > 0 then size * 2 else 16);
      }
      assert elements[..entries] == before;
      elements[entries] := element;
      entries := entries + 1;
      elements[entries] := ZERO;
      assert elements[..entries] == before + [element];
    }
  }

  /** After any number of pushes: exactly the pushed elements, the end marker behind them
      and inside the memory, and the work of doubling bounded by twice their number. */
  method PushAll(items: seq<Method>) returns (v: DBusVector)
    ensures fresh(v) && v.Valid() && v.Contents() == items
    ensures v.copied <= 2 * |items|
    ensures items != [] ==> v.elements != null && |items| < v.elements.Length && v.elements[|items|] == ZERO
  {
    v := new DBusVector();
    assert items[..0] == [];
    for i := 0 to |items|
      invariant fresh(v) && v.Valid() && v.Contents() == items[..i]
      invariant v.elements != null ==> fresh(v.elements)
      invariant i > 0 ==> v.elements != null
    {
      v.PushBack(items[i]);
      assert items[..i] + [items[i]] == items[..i + 1];
    }
    assert items[..|items|] == items;
  }

  // ---------- dispatch ----------

  predicate Usable(m: Method) {
    m.name.Some? && m.function_.Some?
  }

  predicate Answers(m: Method, name: string, signature: string) {
    m.name == Some(name) && m.signature == signature
  }

  /** The entries before the first one that looks like the end marker. */
  function Served(ms: seq<Method>): seq<Method> {
    if ms == [] || !Usable(ms[0]) then [] else [ms[0]] + Served(ms[1..])
  }

  /** `i` is the first of the entries that answers; |ms| if there is none. */
  predicate FirstMatch(ms: seq<Method>, name: string, signature: string, i: nat) {
    && i <= |ms|
    && (i < |ms| ==> ms[i].name == Some(name) && ms[i].signature == signature)
    && forall j :: 0 <= j < i ==> ms[j].name != Some(name) || ms[j].signature != signature
  }

  lemma {:induction false} ServedPrefix(ms: seq<Method>, n: nat)
    requires n <= |ms| && (forall j :: 0 <= j < n ==> Usable(ms[j]))
    requires n == |ms| || !Usable(ms[n])
    ensures Served(ms) == ms[..n]
  {
    if n > 0 {
      ServedPrefix(ms[1..], n - 1);
      assert ms[..n] == [ms[0]] + ms[1..][..n - 1];
    }
  }

  /** `NullRead` is what happens without a table: the loop looks at its first entry before
      it knows that there is one. */
  datatype Dispatched = NullRead | NoMatch | Match(m: Method)

  /** The loop of handle_message: on a table with entries it needs no length, stays inside
      and finds the first entry with this name and signature among those that are served. */
  method Dispatch(v: DBusVector, name: string, signature: string) returns (r: Dispatched)
    requires v.Valid()
    ensures r == NullRead <==> v.Contents() == []
    ensures v.Contents() != [] ==> exists i: nat :: (
      && FirstMatch(Served(v.Contents()), name, signature, i)
      && r == if i < |Served(v.Contents())| then Match(Served(v.Contents())[i]) else NoMatch)
  {
    if v.elements == null { return NullRead; }
    var method_ := 0;
    ghost var ms := v.Contents();
    while Usable(v.elements[method_])
      invariant method_ <= v.entries
      invariant forall j :: 0 <= j < method_ ==> Usable(ms[j]) && !Answers(ms[j], name, signature)
      decreases v.entries - method_
    {
      assert method_ < v.entries;
      if Answers(v.elements[method_], name, signature) {
        PrefixServed(ms, method_);
        assert FirstMatch(Served(ms), name, signature, method_);
        return Match(v.elements[method_]);
      }
      method_ := method_ + 1;
    }
    ServedPrefix(ms, method_);
    assert FirstMatch(Served(ms), name, signature, method_);
    return NoMatch;
  }

  lemma {:induction false} PrefixServed(ms: seq<Method>, n: nat)
    requires n < |ms| && forall j :: 0 <= j <= n ==> Usable(ms[j])
    ensures |Served(ms)| > n && forall j :: 0 <= j <= n ==> Served(ms)[j] == ms[j]
  {
    if n > 0 {
      PrefixServed(ms[1..], n - 1);
      assert forall j :: 1 <= j <= n ==> Served(ms)[j] == Served(ms[1..])[j - 1] == ms[1..][j - 1];
    }
  }

  /** Every pushed entry is served exactly if all have a name and a function. */
  lemma {:induction false} AllServed(ms: seq<Method>)
    ensures Served(ms) == ms <==> forall j :: 0 <= j < |ms| ==> ms[j].name != None && ms[j].function_ != None
  {
    if ms != [] {
      AllServed(ms[1..]);
      assert ms == [ms[0]] + ms[1..];
      assert forall j :: 1 <= j < |ms| ==> ms[j] == ms[1..][j - 1];
      assert forall j :: 0 <= j < |ms[1..]| ==> ms[1..][j] == ms[j + 1];
      if Served(ms) == ms {
        assert Served(ms)[1..] == ms[1..];
      }
    }
  }
}
