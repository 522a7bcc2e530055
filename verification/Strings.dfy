/** std::string as far as containers and C functions look into it. */
module Strings {

  /** operator< of std::string: octet by octet, a proper prefix comes first. */
  predicate Less(a: string, b: string) {
    b != "" && (a == "" || a[0] < b[0] || (a[0] == b[0] && Less(a[1..], b[1..])))
  }

  /** Two texts agree up to position `n`, where the first one ends or has the smaller
      octet. */
  predicate SmallerAt(a: string, b: string, n: nat) {
    n <= |a| && n < |b| && a[..n] == b[..n] && (n == |a| || a[n] < b[n])
  }

  lemma {:induction false} LessMeans(a: string, b: string)
    ensures Less(a, b) <==> exists n: nat :: SmallerAt(a, b, n)
  {
    if b != "" && (a == "" || a[0] < b[0]) {
      assert SmallerAt(a, b, 0);
    } else if a != "" && b != "" && a[0] == b[0] {
      LessMeans(a[1..], b[1..]);
      if n: nat :| SmallerAt(a[1..], b[1..], n) {
        assert a[..n + 1] == [a[0]] + a[1..][..n] && b[..n + 1] == [b[0]] + b[1..][..n];
        assert SmallerAt(a, b, n + 1);
      }
      if n: nat :| SmallerAt(a, b, n) {
        assert n > 0;
        assert a[1..][..n - 1] == a[..n][1..] && b[1..][..n - 1] == b[..n][1..];
        assert SmallerAt(a[1..], b[1..], n - 1);
      }
    } else if a != "" && b != "" {
      forall n: nat ensures !SmallerAt(a, b, n) {
        assert 0 < n <= |a| && n <= |b| ==> a[..n][0] == a[0] && b[..n][0] == b[0];
      }
    }
  }

  lemma {:induction false} LessAsymmetric(a: string, b: string)
    requires Less(a, b)
    ensures a != b && !Less(b, a)
  {
    if a != "" && a[0] == b[0] {
      LessAsymmetric(a[1..], b[1..]);
    }
  }

  lemma {:induction false} LessTotal(a: string, b: string)
    ensures Less(a, b) || a == b || Less(b, a)
  {
    if a != "" && b != "" && a[0] == b[0] {
      LessTotal(a[1..], b[1..]);
      assert a == [a[0]] + a[1..] && b == [b[0]] + b[1..];
    }
  }

  lemma {:induction false} LessTransitive(a: string, b: string, c: string)
    requires Less(a, b) && Less(b, c)
    ensures Less(a, c)
  {
    if a != "" && a[0] == b[0] == c[0] {
      LessTransitive(a[1..], b[1..], c[1..]);
    }
  }

  /** What c_str() shows to a C function: everything up to the first NUL. */
  function CStr(s: string): (t: string)
    ensures t == s <==> '\0' !in s
    ensures '\0' !in t
    ensures t <= s && (|t| < |s| ==> s[|t|] == '\0')
  {
    if s == "" then ""
    else if s[0] == '\0' then ""
    else [s[0]] + CStr(s[1..])
  }
}
