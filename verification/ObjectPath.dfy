/** Object paths as texts and as lists of elements. */
module ObjectPath {
  import Wire

  predicate IsElement(c: string) {
    c != "" && forall i :: 0 <= i < |c| ==> Wire.PathChar(c[i])
  }

  predicate IsPath(cs: seq<string>) {
    forall i :: 0 <= i < |cs| ==> IsElement(cs[i])
  }

  function Body(cs: seq<string>): string {
    if cs == [] then "" else "/" + cs[0] + Body(cs[1..])
  }

  function Render(cs: seq<string>): string {
    if cs == [] then "/" else Body(cs)
  }

  predicate IsPrefix<T(==)>(a: seq<T>, b: seq<T>) {
    |a| <= |b| && b[..|a|] == a
  }

  lemma {:induction false} BodyConcat(a: seq<string>, b: seq<string>)
    ensures Body(a + b) == Body(a) + Body(b)
  {
    if a == [] {
      assert a + b == b;
    } else {
      assert (a + b)[1..] == a[1..] + b;
      BodyConcat(a[1..], b);
    }
  }

  /** The texts of paths are object paths in the sense of the D-Bus Specification. */
  lemma {:induction false} BodyIsValid(cs: seq<string>)
    requires IsPath(cs) && cs != []
    ensures Wire.IsObjectPath(Body(cs)) && |Body(cs)| > 1
  {
    var c, s := cs[0], Body(cs);
    if |cs| == 1 {
      assert Body(cs[1..]) == "";
      assert s == "/" + c;
    } else {
      BodyIsValid(cs[1..]);
      var t := Body(cs[1..]);
      assert s == "/" + c + t;
      forall i | 0 <= i < |s| ensures s[i] == '/' || Wire.PathChar(s[i]) {
        if i > |c| { assert s[i] == t[i - |c| - 1]; }
      }
      forall i | 0 <= i < |s| - 1 ensures !(s[i] == '/' && s[i + 1] == '/') {
        if i > |c| {
          assert s[i] == t[i - |c| - 1] && s[i + 1] == t[i - |c|];
        } else if i > 0 {
          assert s[i] == c[i - 1];
        }
      }
      assert s[|s| - 1] == t[|t| - 1];
    }
  }

  /** Where the last element of an object path starts. */
  lemma LastElement(s: string) returns (n: nat)
    requires Wire.IsObjectPath(s) && |s| > 1
    ensures 0 < n < |s| && s[n - 1] == '/' && IsElement(s[n..])
    ensures n == 1 || (n > 2 && s[n - 2] != '/')
  {
    n := |s|;
    while s[n - 1] != '/'
      invariant 0 < n <= |s| && forall i :: n <= i < |s| ==> s[i] != '/'
      decreases n
    {
      n := n - 1;
    }
    assert forall i :: 0 <= i < |s[n..]| ==> s[n..][i] == s[n + i];
  }

  lemma HeadIsPath(s: string, k: nat)
    requires Wire.IsObjectPath(s) && 1 < k <= |s| && s[k - 1] != '/'
    ensures Wire.IsObjectPath(s[..k])
  {
  }

  lemma OneElement(c: string)
    ensures Body([c]) == "/" + c
  {
    assert [c][1..] == [];
    assert "/" + c + "" == "/" + c;
  }

  /** Every object path in the sense of the D-Bus Specification is the text of some list
      of elements. */
  lemma {:induction false} ElementsOf(s: string) returns (cs: seq<string>)
    requires Wire.IsObjectPath(s)
    ensures IsPath(cs) && Render(cs) == s
    decreases |s|
  {
    hide Wire.IsObjectPath, IsElement, Body;
    if |s| <= 1 {
      cs := [];
      RootIsOnly(s);
    } else {
      var n := LastElement(s);
      var c := s[n..];
      if n == 1 {
        cs := [c];
        OneElement(c);
        assert s == "/" + c;
      } else {
        HeadIsPath(s, n - 1);
        var init := ElementsOf(s[..n - 1]);
        cs := init + [c];
        BodyLast(init, c);
        assert s == s[..n - 1] + "/" + c;
      }
    }
  }

  lemma RootIsOnly(s: string)
    requires Wire.IsObjectPath(s) && |s| <= 1
    ensures s == "/"
  {
  }

  /** Some texts that are object paths, and some that are not. */
  lemma ExamplePaths()
    ensures Wire.IsObjectPath("/") && Wire.IsObjectPath("/org/x_1/Y")
    ensures !Wire.IsObjectPath("") && !Wire.IsObjectPath("org") && !Wire.IsObjectPath("/a/")
    ensures !Wire.IsObjectPath("/a//b") && !Wire.IsObjectPath("/a-b") && !Wire.IsObjectPath("/a.b")
  {
    assert "/a//b"[2] == '/' && "/a//b"[3] == '/';
    assert "/a-b"[2] == '-' && "/a.b"[2] == '.';
  }

  lemma NotShorter(c: string, x: string, d: string, y: string)
    requires IsElement(d) && c + x == d + y
    requires x == "" || x[0] == '/'
    ensures |d| <= |c|
  {
    assert x != "" ==> (c + x)[|c|] == '/';
    assert forall i :: 0 <= i < |d| ==> (d + y)[i] == d[i] && d[i] != '/';
  }

  /** Two elements that both end at a slash or at the end of the text are the same. */
  lemma SameElement(c: string, x: string, d: string, y: string)
    requires IsElement(c) && IsElement(d) && c + x == d + y
    requires (x == "" || x[0] == '/') && (y == "" || y[0] == '/')
    ensures c == d && x == y
  {
    NotShorter(c, x, d, y);
    NotShorter(d, y, c, x);
    assert c == (c + x)[..|c|] && d == (d + y)[..|d|];
    assert x == (c + x)[|c|..] && y == (d + y)[|d|..];
  }

  lemma BodyStart(cs: seq<string>)
    ensures Body(cs) == "" || Body(cs)[0] == '/'
    ensures Body(cs) == "" <==> cs == []
  {
  }

  lemma {:induction false} BodyInjective(a: seq<string>, b: seq<string>)
    requires IsPath(a) && IsPath(b)
    ensures Body(a) == Body(b) <==> a == b
  {
    BodyStart(a);
    BodyStart(b);
    if Body(a) == Body(b) && a != [] {
      BodyStart(a[1..]);
      BodyStart(b[1..]);
      assert Body(a)[1..] == a[0] + Body(a[1..]) && Body(b)[1..] == b[0] + Body(b[1..]);
      SameElement(a[0], Body(a[1..]), b[0], Body(b[1..]));
      BodyInjective(a[1..], b[1..]);
      assert a == [a[0]] + a[1..] && b == [b[0]] + b[1..];
    }
  }

  /** A path text names one list of elements only. */
  lemma RenderInjective(a: seq<string>, b: seq<string>)
    requires IsPath(a) && IsPath(b)
    ensures Render(a) == Render(b) <==> a == b
  {
    BodyInjective(a, b);
    if a != [] { BodyIsValid(a); }
    if b != [] { BodyIsValid(b); }
  }

  lemma DescendantStarts(f: seq<string>, p: seq<string>)
    requires IsPrefix(f, p) && |f| < |p|
    ensures IsPrefix(Body(f) + "/", Body(p))
  {
    var rest := p[|f|..];
    BodyConcat(f, rest);
    BodyStart(rest);
    assert p == f + rest;
    assert Body(rest)[..1] == "/";
    assert Body(p)[..|Body(f)| + 1] == Body(f) + Body(rest)[..1];
  }

  lemma FirstElementMatches(c: string, x: string, d: string, y: string)
    requires IsElement(c) && IsElement(d) && (x == "" || x[0] == '/') && (y == "" || y[0] == '/')
    requires IsPrefix(c + (x + "/"), d + y)
    ensures c == d && IsPrefix(x + "/", y)
  {
    var z := (d + y)[|c| + |x| + 1..];
    assert d + y == c + (x + "/" + z);
    SameElement(c, x + "/" + z, d, y);
    assert y[..|x| + 1] == x + "/";
  }

  lemma {:induction false} StartIsDescendant(f: seq<string>, p: seq<string>)
    requires IsPath(f) && IsPath(p) && IsPrefix(Body(f) + "/", Body(p))
    ensures IsPrefix(f, p) && |f| < |p|
  {
    hide IsElement;
    BodyStart(p);
    if f != [] {
      BodyStart(f[1..]);
      BodyStart(p[1..]);
      var c, d, x, y := f[0], p[0], Body(f[1..]), Body(p[1..]);
      assert Body(p)[1..] == d + y && (Body(f) + "/")[1..] == c + (x + "/");
      assert Body(p)[1..][..|c| + |x| + 1] == Body(p)[..|Body(f)| + 1][1..];
      FirstElementMatches(c, x, d, y);
      StartIsDescendant(f[1..], p[1..]);
      assert p[..|f|] == [d] + p[1..][..|f| - 1];
      assert f == [c] + f[1..];
    }
  }

  /** The text of one path, followed by a slash, starts the text of another one exactly
      if the elements do. */
  lemma BodyPrefix(f: seq<string>, p: seq<string>)
    requires IsPath(f) && IsPath(p)
    ensures IsPrefix(Body(f) + "/", Body(p)) <==> IsPrefix(f, p) && |f| < |p|
  {
    if IsPrefix(Body(f) + "/", Body(p)) { StartIsDescendant(f, p); }
    if IsPrefix(f, p) && |f| < |p| { DescendantStarts(f, p); }
  }

  /** g_path_get_dirname, for a text without doubled slashes. */
  function Dirname(s: string): string {
    if s == "" then "."
    else if s[|s| - 1] != '/' then Dirname(s[..|s| - 1])
    else if |s| == 1 then "/"
    else s[..|s| - 1]
  }

  lemma {:induction false} DirnameCuts(head: string, c: string)
    requires '/' !in c
    ensures Dirname(head + "/" + c) == if head == "" then "/" else head
    decreases |c|
  {
    var s := head + "/" + c;
    if c == "" {
      assert s[..|s| - 1] == head;
    } else {
      var n := |c| - 1;
      assert s[..|s| - 1] == head + "/" + c[..n];
      assert s[|s| - 1] == c[n];
      DirnameCuts(head, c[..n]);
    }
  }

  lemma {:induction false} BodyLast(cs: seq<string>, c: string)
    ensures Body(cs + [c]) == Body(cs) + "/" + c
  {
    if cs == [] {
      assert cs + [c] == [c] && [c][1..] == [];
    } else {
      assert (cs + [c])[1..] == cs[1..] + [c];
      BodyLast(cs[1..], c);
    }
  }

  /** The directory name of a path is the path without its last element. */
  lemma DirnameDropsLast(cs: seq<string>)
    requires IsPath(cs) && cs != []
    ensures Dirname(Render(cs)) == Render(cs[..|cs| - 1])
  {
    var n := |cs| - 1;
    var init := cs[..n];
    BodyLast(init, cs[n]);
    assert cs == init + [cs[n]];
    assert forall i :: 0 <= i < |cs[n]| ==> cs[n][i] != '/';
    DirnameCuts(Body(init), cs[n]);
    BodyStart(init);
  }
}
