/** What travels in a D-Bus message: types, their signature strings, and values
    as GVariant trees (D-Bus Specification, section "Type System"). */
module Wire {
  import opened Wrappers
  import opened Utf8
  import opened Powers

  /** The basic types, in the order byte, boolean, int16, uint16, int32, uint32,
      int64, uint64, double, string, object path. */
  datatype Prim = Y | B | N | Q | I | U | X | T | D | S | O

  datatype Ty =
    | Basic(p: Prim)
    | Array(elem: Ty)
    | Struct(fields: seq<Ty>)
    | DictEntry(key: Prim, val: Ty)
    | Variant

  // ---------- signature strings ----------

  function Code(p: Prim): (c: char) {
    match p
    case Y => 'y' case B => 'b' case N => 'n' case Q => 'q' case I => 'i' case U => 'u'
    case X => 'x' case T => 't' case D => 'd' case S => 's' case O => 'o'
  }

  function FromCode(c: char): (p: Option<Prim>)
    ensures p.Some? ==> Code(p.value) == c
    ensures c in {'v', 'a', '(', ')', '{', '}'} ==> p == None
  {
    match c
    case 'y' => Some(Y) case 'b' => Some(B) case 'n' => Some(N) case 'q' => Some(Q)
    case 'i' => Some(I) case 'u' => Some(U) case 'x' => Some(X) case 't' => Some(T)
    case 'd' => Some(D) case 's' => Some(S) case 'o' => Some(O)
    case _ => None
  }

  function Signature(t: Ty): string
    decreases t, 1
  {
    match t
    case Basic(p) => [Code(p)]
    case Array(e) => "a" + Signature(e)
    case Struct(ts) => "(" + Signatures(ts) + ")"
    case DictEntry(k, v) => "{" + [Code(k)] + Signature(v) + "}"
    case Variant => "v"
  }

  /** The signatures of several values, one after the other. */
  function Signatures(ts: seq<Ty>): string
    decreases ts, 0
  {
    if ts == [] then "" else Signature(ts[0]) + Signatures(ts[1..])
  }

  /** Reads one complete type off the front of a signature. */
  function Parse(s: string): (r: Option<(Ty, string)>)
    ensures r.Some? ==> |r.value.1| < |s|
    decreases |s|, 0
  {
    if s == "" then None
    else if s[0] == 'v' then Some((Variant, s[1..]))
    else if s[0] == 'a' then
      var (e, rest) :- Parse(s[1..]);
      Some((Array(e), rest))
    else if s[0] == '(' then
      var (ts, rest) :- ParseFields(s[1..]);
      Some((Struct(ts), rest))
    else if s[0] == '{' then
      if |s| < 2 then None else
      var k :- FromCode(s[1]);
      var (v, rest) :- Parse(s[2..]);
      if rest != "" && rest[0] == '}' then Some((DictEntry(k, v), rest[1..])) else None
    else
      var p :- FromCode(s[0]);
      Some((Basic(p), s[1..]))
  }

  /** Reads complete types up to the closing parenthesis. */
  function ParseFields(s: string): (r: Option<(seq<Ty>, string)>)
    ensures r.Some? ==> |r.value.1| < |s|
    decreases |s|, 1
  {
    if s == "" then None
    else if s[0] == ')' then Some(([], s[1..]))
    else
      var (t, rest) :- Parse(s);
      var (ts, rest') :- ParseFields(rest);
      Some(([t] + ts, rest'))
  }

  lemma CodeRoundTrip(p: Prim)
    ensures FromCode(Code(p)) == Some(p)
    ensures Code(p) !in {'v', 'a', '(', ')', '{', '}'}
  {
  }

  lemma {:induction false} ParseOfSignature(t: Ty, rest: string)
    ensures Parse(Signature(t) + rest) == Some((t, rest))
    decreases t, 1
  {
    hide Code, FromCode, Signatures, ParseFields;
    var s := Signature(t) + rest;
    match t {
      case Basic(p) =>
        CodeRoundTrip(p);
        assert s[0] == Code(p) && s[1..] == rest;
      case Array(e) =>
        assert s[1..] == Signature(e) + rest;
        ParseOfSignature(e, rest);
      case Struct(ts) =>
        assert s[1..] == Signatures(ts) + (")" + rest);
        ParseOfSignatures(ts, rest);
      case DictEntry(k, v) =>
        CodeRoundTrip(k);
        assert s[0] == '{' && s[1] == Code(k);
        assert s[2..] == Signature(v) + ("}" + rest);
        ParseOfSignature(v, "}" + rest);
        assert ("}" + rest)[1..] == rest;
      case Variant =>
        assert s[1..] == rest;
    }
  }

  lemma {:induction false} ParseOfSignatures(ts: seq<Ty>, rest: string)
    ensures ParseFields(Signatures(ts) + (")" + rest)) == Some((ts, rest))
    decreases ts, 0
  {
    hide Code, FromCode, Signature, Parse;
    var s := Signatures(ts) + (")" + rest);
    if ts == [] {
      assert s == ")" + rest;
      assert s[1..] == rest;
    } else {
      var tail := Signatures(ts[1..]) + (")" + rest);
      assert s == Signature(ts[0]) + tail;
      ParseOfSignature(ts[0], tail);
      ParseOfSignatures(ts[1..], rest);
      FirstCharacter(ts[0]);
      assert s[0] == Signature(ts[0])[0];
      assert [ts[0]] + ts[1..] == ts;
    }
  }

  lemma FirstCharacter(t: Ty)
    ensures Signature(t) != "" && Signature(t)[0] != ')'
  {
  }

  /** Parsing accepts nothing but signatures. */
  lemma {:induction false} SignatureOfParse(s: string)
    ensures Parse(s).Some? ==> s == Signature(Parse(s).value.0) + Parse(s).value.1
    decreases |s|, 0
  {
    hide Code, FromCode, Signatures, ParseFields;
    if Parse(s).Some? {
      var c := s[0];
      assert s == [c] + s[1..];
      if c == 'v' {
      } else if c == 'a' {
        SignatureOfParse(s[1..]);
      } else if c == '(' {
        SignaturesOfParse(s[1..]);
      } else if c == '{' {
        SignatureOfParse(s[2..]);
        assert s == "{" + [s[1]] + s[2..];
        assert Parse(s[2..]).value.1 == "}" + Parse(s).value.1;
      } else {
      }
    }
  }

  lemma {:induction false} SignaturesOfParse(s: string)
    ensures ParseFields(s).Some? ==>
      s == Signatures(ParseFields(s).value.0) + (")" + ParseFields(s).value.1)
    decreases |s|, 1
  {
    hide Code, FromCode, Signature, Parse;
    if ParseFields(s).Some? {
      if s[0] == ')' {
        assert s == ")" + s[1..];
      } else {
        SignatureOfParse(s);
        var (t, rest) := Parse(s).value;
        SignaturesOfParse(rest);
        var (ts, rest') := ParseFields(rest).value;
        assert ([t] + ts)[1..] == ts;
      }
    }
  }

  /** Signatures are a prefix-free code: equal texts that start with a signature
      start with the same type. */
  lemma PrefixFree(t: Ty, u: Ty, a: string, b: string)
    requires Signature(t) + a == Signature(u) + b
    ensures t == u && a == b
  {
    ParseOfSignature(t, a);
    ParseOfSignature(u, b);
  }

  /** The string comparison that selects a variant alternative decides type equality. */
  lemma SignatureEquality(t: Ty, u: Ty)
    ensures Signature(t) == Signature(u) <==> t == u
  {
    if Signature(t) == Signature(u) {
      PrefixFree(t, u, "", "");
    }
  }

  /** The concatenated signature of an argument list determines the list. */
  lemma {:induction false} ArgumentListEquality(ts: seq<Ty>, us: seq<Ty>)
    ensures Signatures(ts) == Signatures(us) <==> ts == us
  {
    if Signatures(ts) == Signatures(us) {
      ParseOfSignatures(ts, "");
      ParseOfSignatures(us, "");
    }
  }

  lemma {:induction false} SignaturesConcat(ts: seq<Ty>, us: seq<Ty>)
    ensures Signatures(ts + us) == Signatures(ts) + Signatures(us)
    decreases |ts|
  {
    if ts == [] {
      assert ts + us == us;
    } else {
      assert (ts + us)[1..] == ts[1..] + us;
      SignaturesConcat(ts[1..], us);
    }
  }

  /** The type codes of the D-Bus Specification, section "Type System": byte, boolean,
      int16, uint16, int32, uint32, int64, uint64, double, string, object path; array,
      struct, dict entry and variant. */
  lemma TypeCodes()
    ensures Code(Y) == 'y' && Code(B) == 'b' && Code(N) == 'n' && Code(Q) == 'q' && Code(I) == 'i' && Code(U) == 'u'
    ensures Code(X) == 'x' && Code(T) == 't' && Code(D) == 'd' && Code(S) == 's' && Code(O) == 'o'
    ensures Signature(Array(DictEntry(S, Struct([Basic(N), Variant])))) == "a{s(nv)}"
  {
    var fs := [Basic(N), Variant];
    assert fs[1..] == [Variant] && fs[1..][1..] == [];
    assert Signatures(fs[1..][1..]) == "";
    assert Signatures(fs[1..]) == "v" + "";
    assert Signatures(fs) == "n" + ("v" + "");
    assert Signature(Struct(fs)) == "(nv)";
  }

  // ---------- values ----------

  /** A GVariant. Numbers carry their value (a boolean 0 or 1, a double its 64 bits). */
  datatype Value =
    | Number(p: Prim, n: int)
    | Text(bytes: seq<Byte>)
    | Path(path: string)
    | Items(elem: Ty, items: seq<Value>)
    | Tuple(items: seq<Value>)
    | Entry(k: Value, v: Value)
    | Boxed(inner: Value)

  /** g_variant_get_type */
  function TypeOf(w: Value): Ty
    decreases w, 1
  {
    match w
    case Number(p, _) => Basic(p)
    case Text(_) => Basic(S)
    case Path(_) => Basic(O)
    case Items(e, _) => Array(e)
    case Tuple(ws) => Struct(TypesOf(ws))
    case Entry(k, v) => DictEntry(KeyPrim(k), TypeOf(v))
    case Boxed(_) => Variant
  }

  function TypesOf(ws: seq<Value>): (ts: seq<Ty>)
    ensures |ts| == |ws|
    ensures forall i :: 0 <= i < |ws| ==> ts[i] == TypeOf(ws[i])
    decreases ws, 0
  {
    if ws == [] then [] else [TypeOf(ws[0])] + TypesOf(ws[1..])
  }

  function KeyPrim(k: Value): Prim {
    match k
    case Number(p, _) => p
    case Text(_) => S
    case Path(_) => O
    case _ => Y
  }

  predicate Holds(p: Prim, n: int) {
    match p
    case Y => 0 <= n < 0x100
    case B => 0 <= n < 2
    case N => -0x8000 <= n < 0x8000
    case Q => 0 <= n < 0x1_0000
    case I => -0x8000_0000 <= n < 0x8000_0000
    case U => 0 <= n < 0x1_0000_0000
    case X => -0x8000_0000_0000_0000 <= n < 0x8000_0000_0000_0000
    case T => 0 <= n < 0x1_0000_0000_0000_0000
    case D => 0 <= n < 0x1_0000_0000_0000_0000
    case S => false
    case O => false
  }

  function Width(p: Prim): nat {
    match p
    case Y => 8 case N => 16 case Q => 16 case I => 32 case U => 32
    case X => 64 case T => 64 case D => 64 case B => 1
    case _ => 0
  }

  /** Integers have the range of their width, the signed ones in two's complement. */
  lemma HoldsByWidth(p: Prim, n: int)
    requires p != S && p != O
    ensures Holds(p, n) <==>
      if p == N || p == I || p == X then 0 <= n + Pow2(Width(p) - 1) < Pow2(Width(p))
      else 0 <= n < Pow2(Width(p))
  {
    PowersOfTwo();
  }

  lemma PowersOfTwo()
    ensures Pow2(1) == 2 && Pow2(8) == 0x100
    ensures Pow2(15) == 0x8000 && Pow2(16) == 0x1_0000
    ensures Pow2(31) == 0x8000_0000 && Pow2(32) == 0x1_0000_0000
    ensures Pow2(63) == 0x8000_0000_0000_0000 && Pow2(64) == 0x1_0000_0000_0000_0000
  {
    Doubling(8, 7);
    Doubling(8, 8);
    Doubling(16, 15);
    Doubling(16, 16);
    Doubling(32, 31);
    Doubling(32, 32);
    assert Pow2(0) == 1 && Pow2(7) == 0x80;
  }

  /** Values that a GVariant can hold: numbers in range, texts valid, arrays uniform,
      keys basic. */
  predicate WellFormed(w: Value)
    decreases w, 1
  {
    match w
    case Number(p, n) => Holds(p, n)
    case Text(s) => Valid(s)
    case Path(s) => IsObjectPath(s)
    case Items(e, ws) => AllWellFormed(ws) && forall i :: 0 <= i < |ws| ==> TypeOf(ws[i]) == e
    case Tuple(ws) => AllWellFormed(ws)
    case Entry(k, v) => (k.Number? || k.Text? || k.Path?) && WellFormed(k) && WellFormed(v)
    case Boxed(inner) => WellFormed(inner)
  }

  predicate AllWellFormed(ws: seq<Value>)
    decreases ws, 0
  {
    ws == [] || (WellFormed(ws[0]) && AllWellFormed(ws[1..]))
  }

  /** What an iterator over `w` steps through (g_variant_iter_init): nothing at all
      for a value that is not a container. */
  function Children(w: Value): (ws: seq<Value>)
  {
    match w
    case Items(_, ws) => ws
    case Tuple(ws) => ws
    case Entry(k, v) => [k, v]
    case Boxed(inner) => [inner]
    case _ => []
  }

  // ---------- object paths ----------

  predicate PathChar(c: char) {
    'a' <= c <= 'z' || 'A' <= c <= 'Z' || '0' <= c <= '9' || c == '_'
  }

  /** g_variant_is_object_path: "/" or a sequence of non-empty elements, each with a
      slash before it. */
  predicate IsObjectPath(s: string) {
    && s != "" && s[0] == '/'
    && (forall i :: 0 <= i < |s| ==> s[i] == '/' || PathChar(s[i]))
    && (forall i :: 0 <= i < |s| - 1 ==> !(s[i] == '/' && s[i + 1] == '/'))
    && (|s| > 1 ==> s[|s| - 1] != '/')
  }
}
