/** Filtering signals: the local test SignalFilter::matches and the match rule that is
    generated for the bus (D-Bus Specification, section "Match Rules"). */
module SignalFilter {
  import opened Wrappers
  import opened ObjectPath

  datatype Filter = Filter(path: string, iface: string, signal: string, prefix: bool)

  datatype Signal = Signal(path: string, iface: string, member: string)

  // ---------- the local test ----------

  predicate Matches(f: Filter, s: Signal) {
    && (f.iface == "" || f.iface == s.iface)
    && (f.signal == "" || f.signal == s.member)
    && (f.path == "" || if f.prefix then PathMatches(f.path, s.path) else f.path == s.path)
  }

  predicate PathMatches(filter: string, path: string) {
    |path| > |filter| && path[..|filter|] == filter && path[|filter|] == '/'
  }

  /** For a filter other than "/", exactly the strict descendants match, element by
      element. */
  lemma PrefixMatchIsDescendant(filter: seq<string>, path: seq<string>)
    requires IsPath(filter) && IsPath(path) && filter != []
    ensures PathMatches(Render(filter), Render(path)) <==> IsPrefix(filter, path) && |filter| < |path|
  {
    BodyPrefix(filter, path);
    BodyIsValid(filter);
    var f, p := Body(filter), Render(path);
    if PathMatches(f, p) {
      assert p[..|f| + 1] == f + "/";
    }
    if IsPrefix(f + "/", p) {
      assert p[..|f|] == p[..|f| + 1][..|f|] && p[|f|] == p[..|f| + 1][|f|];
    }
  }

  /** The filter "/" ends in a slash and matches no object path at all. */
  lemma RootMatchesNothing(path: seq<string>)
    requires IsPath(path)
    ensures !PathMatches(Render([]), Render(path))
  {
    if path != [] {
      assert Render(path)[1] == path[0][0];
    }
  }

  // ---------- the match rule ----------

  datatype Criterion = Criterion(key: string, value: string)

  /** keyword='value' */
  function Item(c: Criterion): string {
    c.key + "='" + c.value + "'"
  }

  class Criteria {
    var items: seq<Criterion>

    constructor ()
      ensures items == []
    {
      items := [];
    }

    method PushBack(c: Criterion)
      modifies this
      ensures items == old(items) + [c]
    {
      items := items + [c];
    }

    /** An empty value adds nothing. */
    method Add(key: string, value: string)
      modifies this
      ensures items == old(items) + Optional(key, value)
    {
      if value != "" {
        items := items + [Criterion(key, value)];
      }
    }

    /** The loop of boost::join. */
    method CreateMatchRule() returns (rule: string)
      ensures rule == RuleText(items)
    {
      rule := "";
      for i := 0 to |items|
        invariant rule == RuleText(items[..i])
      {
        RuleTextOneMore(items[..i], items[i]);
        assert items[..i + 1] == items[..i] + [items[i]];
        rule := rule + (if i > 0 then "," else "") + Item(items[i]);
      }
      assert items[..|items|] == items;
    }
  }

  lemma {:induction false} RuleTextOneMore(cs: seq<Criterion>, c: Criterion)
    ensures RuleText(cs + [c]) == RuleText(cs) + (if cs == [] then "" else ",") + Item(c)
  {
    hide Item;
    if |cs| == 1 {
      assert (cs + [c])[1..] == [c];
    } else if |cs| > 1 {
      RuleTextOneMore(cs[1..], c);
      assert (cs + [c])[1..] == cs[1..] + [c];
    }
  }

  function Optional(key: string, value: string): seq<Criterion> {
    if value == "" then [] else [Criterion(key, value)]
  }

  /** boost::join with a comma. */
  function RuleText(cs: seq<Criterion>): string {
    if cs == [] then ""
    else if |cs| == 1 then Item(cs[0])
    else Item(cs[0]) + "," + RuleText(cs[1..])
  }

  function RuleOf(f: Filter): seq<Criterion> {
    [Criterion("type", "signal")] + Optional("interface", f.iface) + Optional("member", f.signal)
      + Optional("path_namespace", f.path)
  }

  /** activateInternal, for a filter with the prefix flag. */
  method BuildRule(f: Filter) returns (rule: string)
    ensures rule == RuleText(RuleOf(f))
  {
    var criteria := new Criteria();
    criteria.PushBack(Criterion("type", "signal"));
    criteria.Add("interface", f.iface);
    criteria.Add("member", f.signal);
    criteria.Add("path_namespace", f.path);
    assert criteria.items == RuleOf(f);
    rule := criteria.CreateMatchRule();
  }

  // ---------- what the bus makes of the rule ----------

  /** The text before the first `c`, if there is one, and what follows it. */
  function SplitAt(s: string, c: char): (r: Option<(string, string)>)
    ensures r.Some? ==> |r.value.1| < |s|
  {
    if s == "" then None
    else if s[0] == c then Some(("", s[1..]))
    else
      var (a, b) :- SplitAt(s[1..], c);
      Some(([s[0]] + a, b))
  }

  /** The bus reads key='value' pairs separated by commas. */
  function ParseRule(s: string): Option<seq<Criterion>>
    decreases |s|
  {
    var (key, rest) :- SplitAt(s, '=');
    if rest == "" || rest[0] != '\'' then None else
    var (value, tail) :- SplitAt(rest[1..], '\'');
    if tail == "" then Some([Criterion(key, value)])
    else if tail[0] != ',' then None
    else
      var more :- ParseRule(tail[1..]);
      Some([Criterion(key, value)] + more)
  }

  /** path_namespace: the path itself or anything below it; "/" stands for all paths. */
  predicate InNamespace(ns: string, path: string) {
    ns == "/" || path == ns || PathMatches(ns, path)
  }

  predicate Satisfies(c: Criterion, s: Signal) {
    if c.key == "type" then c.value == "signal"
    else if c.key == "interface" then c.value == s.iface
    else if c.key == "member" then c.value == s.member
    else if c.key == "path_namespace" then InNamespace(c.value, s.path)
    else false
  }

  predicate BusAccepts(rule: string, s: Signal) {
    var cs := ParseRule(rule);
    cs.Some? && AllSatisfied(cs.value, s)
  }

  predicate AllSatisfied(cs: seq<Criterion>, s: Signal) {
    forall i :: 0 <= i < |cs| ==> Satisfies(cs[i], s)
  }

  lemma AllSatisfiedConcat(a: seq<Criterion>, b: seq<Criterion>, s: Signal)
    ensures AllSatisfied(a + b, s) <==> AllSatisfied(a, s) && AllSatisfied(b, s)
  {
    if AllSatisfied(a + b, s) {
      assert forall i :: 0 <= i < |a| ==> a[i] == (a + b)[i];
      assert forall i :: 0 <= i < |b| ==> b[i] == (a + b)[|a| + i];
    }
  }

  lemma {:induction false} SplitAtConcat(a: string, c: char, b: string)
    requires c !in a
    ensures SplitAt(a + [c] + b, c) == Some((a, b))
  {
    var s := a + [c] + b;
    if a == "" {
      assert s[1..] == b;
    } else {
      assert s[1..] == a[1..] + [c] + b;
      SplitAtConcat(a[1..], c, b);
      assert [a[0]] + a[1..] == a;
    }
  }

  predicate Quotable(cs: seq<Criterion>) {
    forall i :: 0 <= i < |cs| ==> '=' !in cs[i].key && '\'' !in cs[i].value
  }

  lemma ItemText(c: Criterion, after: string)
    ensures var quoted := c.value + ['\''] + after;
      Item(c) + after == c.key + ['='] + (['\''] + quoted) && (['\''] + quoted)[1..] == quoted
  {
  }

  lemma ParseItem(c: Criterion, after: string)
    requires '=' !in c.key && '\'' !in c.value
    ensures ParseRule(Item(c) + after) ==
      if after == "" then Some([c])
      else if after[0] != ',' then None
      else match ParseRule(after[1..]) case None => None case Some(more) => Some([c] + more)
  {
    hide SplitAt, Item;
    var quoted := c.value + ['\''] + after;
    ItemText(c, after);
    SplitAtConcat(c.key, '=', ['\''] + quoted);
    SplitAtConcat(c.value, '\'', after);
  }

  /** The bus gets the criteria that were added, nothing more and nothing less. */
  lemma {:induction false} RuleRoundTrip(cs: seq<Criterion>)
    requires cs != [] && Quotable(cs)
    ensures ParseRule(RuleText(cs)) == Some(cs)
  {
    hide ParseRule, Item;
    if |cs| == 1 {
      ParseItem(cs[0], "");
      assert Item(cs[0]) + "" == Item(cs[0]);
      assert cs == [cs[0]];
    } else {
      var after := "," + RuleText(cs[1..]);
      ParseItem(cs[0], after);
      assert RuleText(cs) == Item(cs[0]) + after;
      assert after[1..] == RuleText(cs[1..]);
      RuleRoundTrip(cs[1..]);
      assert cs == [cs[0]] + cs[1..];
    }
  }

  predicate NoQuotes(f: Filter) {
    '\'' !in f.path && '\'' !in f.iface && '\'' !in f.signal
  }

  lemma QuotableRule(f: Filter)
    requires NoQuotes(f)
    ensures Quotable(RuleOf(f))
  {
  }

  lemma SatisfiesByKey(f: Filter, s: Signal)
    ensures Satisfies(Criterion("type", "signal"), s)
    ensures Satisfies(Criterion("interface", f.iface), s) <==> f.iface == s.iface
    ensures Satisfies(Criterion("member", f.signal), s) <==> f.signal == s.member
    ensures Satisfies(Criterion("path_namespace", f.path), s) <==> InNamespace(f.path, s.path)
  {
  }

  lemma RuleMeaning(f: Filter, s: Signal)
    requires NoQuotes(f)
    ensures BusAccepts(RuleText(RuleOf(f)), s) <==>
      && (f.iface == "" || f.iface == s.iface)
      && (f.signal == "" || f.signal == s.member)
      && (f.path == "" || InNamespace(f.path, s.path))
  {
    hide Satisfies, RuleText, ParseRule;
    SatisfiesByKey(f, s);
    var t, a, b, c := [Criterion("type", "signal")],
      Optional("interface", f.iface), Optional("member", f.signal), Optional("path_namespace", f.path);
    assert t[0] == Criterion("type", "signal");
    QuotableRule(f);
    RuleRoundTrip(t + a + b + c);
    AllSatisfiedConcat(t, a, s);
    AllSatisfiedConcat(t + a, b, s);
    AllSatisfiedConcat(t + a + b, c, s);
    OptionalMeaning("interface", f.iface, s);
    OptionalMeaning("member", f.signal, s);
    OptionalMeaning("path_namespace", f.path, s);
  }

  lemma OptionalMeaning(key: string, value: string, s: Signal)
    ensures AllSatisfied(Optional(key, value), s) <==> value == "" || Satisfies(Criterion(key, value), s)
  {
    hide Satisfies;
    if value != "" {
      assert Optional(key, value)[0] == Criterion(key, value);
    }
  }

  /** Every signal that is accepted locally is one the bus delivers. The bus only sends
      signals with valid names, which contain no quotes. */
  lemma LocalWithinBusRule(f: Filter, s: Signal)
    requires '\'' !in s.path && '\'' !in s.iface && '\'' !in s.member
    requires f.prefix && Matches(f, s)
    ensures BusAccepts(RuleText(RuleOf(f)), s)
  {
    assert f.path != "" ==> forall i :: 0 <= i < |f.path| ==> f.path[i] == s.path[i];
    RuleMeaning(f, s);
  }

  predicate NamesAgree(f: Filter, s: Signal) {
    (f.iface == "" || f.iface == s.iface) && (f.signal == "" || f.signal == s.member)
  }

  /** In terms of path elements: the bus delivers the signals of the path itself and of
      everything below it; the local test then keeps those strictly below, and nothing
      for the filter "/". */
  lemma BothTestsOnPaths(f: Filter, s: Signal, filter: seq<string>, path: seq<string>)
    requires NoQuotes(f) && f.prefix && IsPath(filter) && IsPath(path)
    requires f.path == Render(filter) && s.path == Render(path)
    ensures BusAccepts(RuleText(RuleOf(f)), s) <==> NamesAgree(f, s) && IsPrefix(filter, path)
    ensures Matches(f, s) <==>
      NamesAgree(f, s) && filter != [] && IsPrefix(filter, path) && |filter| < |path|
  {
    hide PathMatches, RuleText, BusAccepts;
    RuleMeaning(f, s);
    if filter == [] {
      RootMatchesNothing(path);
      assert path[..0] == filter;
    } else {
      PrefixMatchIsDescendant(filter, path);
      BodyIsValid(filter);
      RenderInjective(filter, path);
      assert |filter| == |path| ==> path[..|filter|] == path;
    }
  }

  /** The bus delivers a signal of the filter's path itself, and the local test drops it. */
  lemma OwnPathIsDropped(path: seq<string>, iface: string, member: string)
    requires IsPath(path)
    ensures var f := Filter(Render(path), "", "", true);
      var s := Signal(Render(path), iface, member);
      BusAccepts(RuleText(RuleOf(f)), s) && !Matches(f, s)
  {
    hide BusAccepts, Matches, RuleText, Render;
    PathHasNoQuote(path);
    BothTestsOnPaths(Filter(Render(path), "", "", true), Signal(Render(path), iface, member), path, path);
  }

  lemma PathHasNoQuote(path: seq<string>)
    requires IsPath(path)
    ensures '\'' !in Render(path)
  {
    if path != [] {
      BodyIsValid(path);
      assert forall i :: 0 <= i < |Render(path)| ==> Render(path)[i] != '\'';
    }
  }

  /** Without the prefix flag exactly the signals of the path itself are accepted, or those
      of all paths if the filter has none. */
  lemma WithoutPrefixOnPaths(f: Filter, s: Signal, filter: Option<seq<string>>, path: seq<string>)
    requires !f.prefix && IsPath(path) && s.path == Render(path)
    requires match filter case None => f.path == "" case Some(cs) => IsPath(cs) && f.path == Render(cs)
    ensures Matches(f, s) <==> NamesAgree(f, s) && (filter == None || filter == Some(path))
  {
    if filter.Some? {
      RenderInjective(filter.value, path);
      if filter.value != [] { BodyIsValid(filter.value); }
    }
  }

  /** Whatever the filter is, the rule asks for signals only. */
  lemma RuleIsForSignals(f: Filter)
    ensures IsPrefix("type='signal'", RuleText(RuleOf(f)))
  {
    hide Item;
    assert RuleOf(f)[0] == Criterion("type", "signal");
    StartsWithFirst(RuleOf(f));
    TypeItem();
  }

  lemma StartsWithFirst(cs: seq<Criterion>)
    requires cs != []
    ensures IsPrefix(Item(cs[0]), RuleText(cs))
  {
    hide Item;
  }

  lemma TypeItem()
    ensures Item(Criterion("type", "signal")) == "type='signal'"
  {
  }
}
