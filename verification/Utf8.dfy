/** UTF-8 as section 4 of RFC 3629 defines it, and the string sanitiser that
    runs before a std::string is handed to GVariant. */
module Utf8 {

  /** One C++ char of a std::string, read as an unsigned octet. */
  type Byte = b: int | 0 <= b < 256

  const QUESTION_MARK: Byte := 0x3F

  predicate Tail(b: Byte) {
    0x80 <= b <= 0xBF
  }

  /** The second octet of a three-octet character depends on the first one. */
  predicate Second3(first: Byte, second: Byte) {
    || (first == 0xE0 && 0xA0 <= second <= 0xBF)
    || (0xE1 <= first <= 0xEC && Tail(second))
    || (first == 0xED && 0x80 <= second <= 0x9F)
    || (0xEE <= first <= 0xEF && Tail(second))
  }

  predicate Second4(first: Byte, second: Byte) {
    || (first == 0xF0 && 0x90 <= second <= 0xBF)
    || (0xF1 <= first <= 0xF3 && Tail(second))
    || (first == 0xF4 && 0x80 <= second <= 0x8F)
  }

  /** The number of octets of the character at the start of `s`, 0 if no character
      that g_utf8_validate accepts starts there. NUL is not accepted, because the
      length is passed explicitly. */
  function CharLen(s: seq<Byte>): (n: nat)
    ensures n <= 4 && n <= |s|
    ensures n > 0 ==> s[0] != 0 && !Tail(s[0])
    ensures forall k :: 0 < k < n ==> Tail(s[k])
  {
    if |s| >= 1 && 0x01 <= s[0] <= 0x7F then 1
    else if |s| >= 2 && 0xC2 <= s[0] <= 0xDF && Tail(s[1]) then 2
    else if |s| >= 3 && Second3(s[0], s[1]) && Tail(s[2]) then 3
    else if |s| >= 4 && Second4(s[0], s[1]) && Tail(s[2]) && Tail(s[3]) then 4
    else 0
  }

  /** Valid UTF-8 without NUL. */
  predicate Valid(s: seq<Byte>) {
    s == [] || (CharLen(s) > 0 && Valid(s[CharLen(s)..]))
  }

  /** g_utf8_validate: the offset of the first octet which is not accepted; the
      whole text is valid exactly if that is the end. */
  function ValidPrefix(s: seq<Byte>): (n: nat)
    ensures n <= |s|
  {
    if s == [] || CharLen(s) == 0 then 0
    else CharLen(s) + ValidPrefix(s[CharLen(s)..])
  }

  /** Character by character: keep what is accepted, replace one octet otherwise. */
  function Repair(s: seq<Byte>): (t: seq<Byte>)
    ensures |t| == |s|
  {
    if s == [] then []
    else if CharLen(s) > 0 then s[..CharLen(s)] + Repair(s[CharLen(s)..])
    else [QUESTION_MARK] + Repair(s[1..])
  }

  // ---------- encoding of code points (section 3 of RFC 3629) ----------

  predicate ScalarValue(c: int) {
    0 <= c < 0x110000 && !(0xD800 <= c <= 0xDFFF)
  }

  function EncodePoint(c: int): (s: seq<Byte>)
    requires ScalarValue(c)
  {
    if c < 0x80 then [c]
    else if c < 0x800 then [0xC0 + c / 64, 0x80 + c % 64]
    else if c < 0x10000 then [0xE0 + c / 4096, 0x80 + c / 64 % 64, 0x80 + c % 64]
    else [0xF0 + c / 262144, 0x80 + c / 4096 % 64, 0x80 + c / 64 % 64, 0x80 + c % 64]
  }

  /** The payload of an octet, after taking off its marker bits. */
  function Bits(b: Byte, marker: int): int {
    (b as int) - marker
  }

  function DecodePoint(s: seq<Byte>): (c: int)
    requires 1 <= |s| <= 4
  {
    if |s| == 1 then s[0] as int
    else if |s| == 2 then Bits(s[0], 0xC0) * 64 + Bits(s[1], 0x80)
    else if |s| == 3 then Bits(s[0], 0xE0) * 4096 + Bits(s[1], 0x80) * 64 + Bits(s[2], 0x80)
    else Bits(s[0], 0xF0) * 262144 + Bits(s[1], 0x80) * 4096 + Bits(s[2], 0x80) * 64 + Bits(s[3], 0x80)
  }

  /** Validation accepts exactly the encodings of the scalar values other than NUL:
      no overlong form, no surrogate, nothing above U+10FFFF. */
  lemma CharLenAcceptsEncodings(c: int, rest: seq<Byte>)
    requires ScalarValue(c) && c != 0
    ensures CharLen(EncodePoint(c) + rest) == |EncodePoint(c)|
  {
    var s := EncodePoint(c) + rest;
    if 0x800 <= c < 0x10000 {
      assert Second3(s[0], s[1]);
    } else if 0x10000 <= c {
      assert Second4(s[0], s[1]);
    }
  }

  lemma CharLenOnlyEncodings(s: seq<Byte>)
    requires CharLen(s) > 0
    ensures var c := DecodePoint(s[..CharLen(s)]);
      ScalarValue(c) && c != 0 && EncodePoint(c) == s[..CharLen(s)]
  {
    var p := s[..CharLen(s)];
    match |p| {
      case 1 =>
      case 2 => assert DecodePoint(p) / 64 == Bits(p[0], 0xC0) && DecodePoint(p) % 64 == Bits(p[1], 0x80);
      case 3 => Split3(Bits(p[0], 0xE0), Bits(p[1], 0x80), Bits(p[2], 0x80));
      case 4 => Split4(Bits(p[0], 0xF0), Bits(p[1], 0x80), Bits(p[2], 0x80), Bits(p[3], 0x80));
    }
  }

  lemma Split3(x: int, y: int, z: int)
    requires 0 <= y < 64 && 0 <= z < 64
    ensures var c := x * 4096 + y * 64 + z;
      c / 4096 == x && c / 64 % 64 == y && c % 64 == z
  {
    assert (x * 4096 + y * 64 + z) / 64 == x * 64 + y;
  }

  lemma Split4(w: int, x: int, y: int, z: int)
    requires 0 <= x < 64 && 0 <= y < 64 && 0 <= z < 64
    ensures var c := w * 262144 + x * 4096 + y * 64 + z;
      c / 262144 == w && c / 4096 % 64 == x && c / 64 % 64 == y && c % 64 == z
  {
    var c := w * 262144 + x * 4096 + y * 64 + z;
    assert c / 64 == w * 4096 + x * 64 + y;
    assert c / 4096 == w * 64 + x;
  }

  // ---------- g_utf8_validate finds the longest valid prefix ----------

  lemma CharLenStable(a: seq<Byte>, b: seq<Byte>)
    requires CharLen(a) > 0
    ensures CharLen(a + b) == CharLen(a)
    ensures (a + b)[..CharLen(a)] == a[..CharLen(a)]
    ensures (a + b)[CharLen(a)..] == a[CharLen(a)..] + b
  {
  }

  lemma {:induction false} ValidConcat(a: seq<Byte>, b: seq<Byte>)
    requires Valid(a)
    ensures Valid(a + b) <==> Valid(b)
    decreases |a|
  {
    hide CharLen;
    if a == [] {
      assert a + b == b;
    } else {
      CharLenStable(a, b);
      ValidConcat(a[CharLen(a)..], b);
    }
  }

  lemma NoCharacter(s: seq<Byte>, n: nat)
    requires 0 < n <= |s| && CharLen(s) == 0
    ensures !Valid(s[..n])
  {
    assert CharLen(s[..n]) == 0;
  }

  lemma {:induction false} ValidPrefixIsValid(s: seq<Byte>)
    ensures Valid(s[..ValidPrefix(s)])
    decreases |s|
  {
    hide CharLen;
    if s != [] && CharLen(s) > 0 {
      var k, p := CharLen(s), ValidPrefix(s);
      ValidPrefixIsValid(s[k..]);
      OneChar(s);
      ValidConcat(s[..k], s[k..][..p - k]);
      assert s[..p] == s[..k] + s[k..][..p - k];
    }
  }

  lemma {:induction false} ValidPrefixIsLongest(s: seq<Byte>, n: nat)
    requires ValidPrefix(s) < n <= |s|
    ensures !Valid(s[..n])
    decreases |s|
  {
    hide CharLen;
    if CharLen(s) == 0 {
      NoCharacter(s, n);
    } else {
      var k := CharLen(s);
      ValidPrefixIsLongest(s[k..], n - k);
      OneChar(s);
      ValidConcat(s[..k], s[k..][..n - k]);
      assert s[..n] == s[..k] + s[k..][..n - k];
    }
  }

  /** The return value of g_utf8_validate. */
  lemma ValidIffWholePrefix(s: seq<Byte>)
    ensures Valid(s) <==> ValidPrefix(s) == |s|
  {
    hide CharLen, ValidPrefix, Valid;
    ValidPrefixIsValid(s);
    assert s[..|s|] == s;
    if ValidPrefix(s) < |s| {
      ValidPrefixIsLongest(s, |s|);
    }
  }

  lemma OneChar(s: seq<Byte>)
    requires CharLen(s) > 0
    ensures Valid(s[..CharLen(s)])
  {
    var n := CharLen(s);
    assert CharLen(s[..n]) == n;
    assert s[..n][n..] == [];
  }

  lemma RepairCharacter(s: seq<Byte>)
    requires CharLen(s) > 0
    ensures Repair(s) == s[..CharLen(s)] + Repair(s[CharLen(s)..])
  {
  }

  /** A valid prefix passes through the repair untouched. */
  lemma {:induction false} RepairKeepsValidPrefix(a: seq<Byte>, b: seq<Byte>)
    requires Valid(a)
    ensures Repair(a + b) == a + Repair(b)
    decreases |a|
  {
    hide CharLen, Repair;
    if a == [] {
      assert a + b == b;
    } else {
      var n := CharLen(a);
      CharLenStable(a, b);
      RepairCharacter(a + b);
      RepairKeepsValidPrefix(a[n..], b);
      assert a[..n] + (a[n..] + Repair(b)) == a + Repair(b);
    }
  }

  lemma {:induction false} StopsAtInvalid(s: seq<Byte>)
    ensures ValidPrefix(s) < |s| ==> CharLen(s[ValidPrefix(s)..]) == 0
    decreases |s|
  {
    hide CharLen;
    if s != [] && CharLen(s) > 0 {
      var n := CharLen(s);
      StopsAtInvalid(s[n..]);
      assert s[n..][ValidPrefix(s[n..])..] == s[ValidPrefix(s)..];
    }
  }

  lemma RepairReplaces(s: seq<Byte>)
    requires s != [] && CharLen(s) == 0
    ensures Repair(s) == [QUESTION_MARK] + Repair(s[1..])
  {
  }

  /** What one round of the loop does: everything up to the offset that
      validation reports is kept, and the octet there is replaced. */
  lemma RepairStep(s: seq<Byte>)
    ensures var p := ValidPrefix(s);
      Repair(s) == if p == |s| then s else s[..p] + ([QUESTION_MARK] + Repair(s[p + 1..]))
  {
    hide CharLen, ValidPrefix, Repair, Valid;
    var p := ValidPrefix(s);
    ValidPrefixIsValid(s);
    RepairKeepsValidPrefix(s[..p], s[p..]);
    assert s == s[..p] + s[p..];
    if p < |s| {
      StopsAtInvalid(s);
      RepairReplaces(s[p..]);
      assert s[p..][1..] == s[p + 1..];
    } else {
      RepairEmpty();
    }
  }

  lemma RepairEmpty()
    ensures Repair([]) == []
  {
  }

  // ---------- the sanitiser loop ----------

  /** The text that is handed to g_variant_new_string. */
  method Sanitize(value: seq<Byte>) returns (buffer: seq<Byte>)
    ensures buffer == Repair(value)
  {
    hide CharLen, ValidPrefix, Repair;
    var start := 0;
    var invalid := ValidPrefix(value);
    var valid := invalid == |value|;
    RepairStep(value);
    if valid {
      buffer := value;
    } else {
      buffer := [];
      while true
        invariant start <= invalid <= |value|
        invariant invalid == start + ValidPrefix(value[start..])
        invariant valid <==> invalid == |value|
        invariant buffer + Repair(value[start..]) == Repair(value)
        decreases |value| - start, !valid
      {
        RepairStep(value[start..]);
        if valid {
          buffer := buffer + value[start..];
          break;
        } else {
          assert value[start..][..invalid - start] == value[start..invalid];
          assert value[start..][invalid - start + 1..] == value[invalid + 1..];
          buffer := buffer + value[start..invalid];
          buffer := buffer + [QUESTION_MARK];
          start := invalid + 1;
        }
        invalid := start + ValidPrefix(value[start..]);
        valid := invalid == |value|;
      }
    }
  }

  // ---------- what the repair means ----------

  lemma {:induction false} RepairIsValid(s: seq<Byte>)
    ensures Valid(Repair(s))
    ensures 0 !in Repair(s)
    decreases |s|
  {
    if s != [] {
      var n := CharLen(s);
      if n > 0 {
        RepairIsValid(s[n..]);
        OneChar(s);
        ValidConcat(s[..n], Repair(s[n..]));
      } else {
        RepairIsValid(s[1..]);
        assert CharLen([QUESTION_MARK] + Repair(s[1..])) == 1;
        assert ([QUESTION_MARK] + Repair(s[1..]))[1..] == Repair(s[1..]);
      }
    }
  }

  /** The repair changes nothing exactly if the text was valid. */
  lemma RepairIdentity(s: seq<Byte>)
    ensures Repair(s) == s <==> Valid(s)
  {
    RepairIsValid(s);
    if Valid(s) {
      RepairKeepsValidPrefix(s, []);
      assert s + [] == s;
    }
  }

  lemma RepairIdempotent(s: seq<Byte>)
    ensures Repair(Repair(s)) == Repair(s)
  {
    RepairIsValid(s);
    RepairIdentity(Repair(s));
  }

  /** `j` lies inside some well-formed character of `s`, wherever that character
      starts: this does not mention the left-to-right scan. */
  ghost predicate InCharacter(s: seq<Byte>, j: nat) {
    exists i: nat :: i <= j < |s| && j < i + CharLen(s[i..])
  }

  /** A character that starts after the beginning of `s` starts after the first
      character, because a tail octet starts none. */
  lemma StartsOutside(s: seq<Byte>, i: nat)
    requires 0 < i < |s| && CharLen(s[i..]) > 0
    ensures CharLen(s) <= i
  {
    hide CharLen;
    assert s[i..][0] == s[i];
  }

  /** The length of the piece the scan consumes at the start of `s`. */
  function Advance(s: seq<Byte>): (m: nat)
    requires s != []
  {
    if CharLen(s) > 0 then CharLen(s) else 1
  }

  lemma InFirstCharacter(s: seq<Byte>, j: nat)
    requires s != [] && j < Advance(s)
    ensures InCharacter(s, j) <==> CharLen(s) > 0
  {
    hide CharLen;
    assert s[0..] == s;
    if CharLen(s) > 0 {
      assert j < 0 + CharLen(s[0..]);
    }
  }

  lemma InLaterCharacter(s: seq<Byte>, j: nat)
    requires s != [] && Advance(s) <= j < |s|
    ensures InCharacter(s, j) <==> InCharacter(s[Advance(s)..], j - Advance(s))
  {
    hide CharLen;
    var m := Advance(s);
    var t := s[m..];
    forall i: nat | m <= i <= j ensures s[i..] == t[i - m..] {
    }
    if InCharacter(s, j) {
      var i: nat :| i <= j < |s| && j < i + CharLen(s[i..]);
      assert s[0..] == s;
      if i > 0 {
        StartsOutside(s, i);
      }
      assert i - m <= j - m < |t| && j - m < i - m + CharLen(t[i - m..]);
    }
    if InCharacter(t, j - m) {
      var i: nat :| i <= j - m < |t| && j - m < i + CharLen(t[i..]);
      assert m + i <= j < |s| && j < m + i + CharLen(s[m + i..]);
    }
  }

  /** UTF-8 synchronises itself: the scan can never step over the start of a
      well-formed character, so exactly the octets inside well-formed characters
      survive, and every other octet becomes a question mark. */
  lemma {:induction false} RepairPointwise(s: seq<Byte>, j: nat)
    requires j < |s|
    ensures Repair(s)[j] == if InCharacter(s, j) then s[j] else QUESTION_MARK
    decreases |s|
  {
    hide CharLen, InCharacter;
    var m := Advance(s);
    if j < m {
      InFirstCharacter(s, j);
    } else {
      RepairPointwise(s[m..], j - m);
      InLaterCharacter(s, j);
    }
  }
}
