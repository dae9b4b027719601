/** response_headers: what one plugin makes of a header map, in any order of map iteration. */
module ResponseHeaders {

  /** Canonical names to their values. */
  type Headers = map<string, seq<string>>

  datatype Rule = Rule(contentType: string, headers: map<string, string>)

  datatype Config = Config(headers: map<string, string>, rules: seq<Rule>)

  /** The canonical form of a header name, and lower-casing. */
  datatype Text = Text(canon: string -> string, lower: string -> string)

  const CONTENT_TYPE := "Content-Type"

  function Set(t: Text, h: Headers, name: string, value: string): Headers {
    h[t.canon(name) := [value]]
  }

  function Get(t: Text, h: Headers, name: string): string {
    var key := t.canon(name);
    if key in h && h[key] != [] then h[key][0] else ""
  }

  // ---- map iteration order ----------------------------------------------------

  /** Names that are one header agree on its value. */
  ghost predicate Coherent(t: Text, m: map<string, string>) {
    forall k, k' | k in m && k' in m && t.canon(k) == t.canon(k') :: m[k] == m[k']
  }

  /** All of `m` set at once. */
  ghost function Overlay(t: Text, h: Headers, m: map<string, string>): Headers
    requires Coherent(t, m)
  {
    h + map k | k in m :: t.canon(k) := [m[k]]
  }

  /** `order` is one of the orders in which ranging over `m` may visit its keys. */
  ghost predicate IsOrder(order: seq<string>, m: map<string, string>) {
    && (forall k :: k in order <==> k in m)
    && (forall i, j | 0 <= i < j < |order| :: order[i] != order[j])
  }

  function SetAll(t: Text, h: Headers, m: map<string, string>, order: seq<string>): Headers
    requires forall k | k in order :: k in m
  {
    if order == [] then h
    else
      var last := order[|order| - 1];
      Set(t, SetAll(t, h, m, order[..|order| - 1]), last, m[last])
  }

  ghost predicate Named(t: Text, keys: set<string>, c: string) {
    exists k :: k in keys && t.canon(k) == c
  }

  /** `r` is `h` with the headers named by `keys` set to their values in `m`, and nothing else. */
  ghost predicate IsOverlay(t: Text, h: Headers, m: map<string, string>, keys: set<string>, r: Headers)
    requires keys <= m.Keys
  {
    && (forall k | k in keys :: t.canon(k) in r && r[t.canon(k)] == [m[k]])
    && (forall c | !Named(t, keys, c) :: (c in r <==> c in h) && (c in h ==> r[c] == h[c]))
  }

  lemma OverlayUnique(t: Text, h: Headers, m: map<string, string>, keys: set<string>, r: Headers, r': Headers)
    requires keys <= m.Keys && IsOverlay(t, h, m, keys, r) && IsOverlay(t, h, m, keys, r')
    ensures r == r'
  {
    forall c ensures (c in r <==> c in r') && (c in r && c in r' ==> r[c] == r'[c]) {
      if Named(t, keys, c) {
        var k :| k in keys && t.canon(k) == c;
      }
    }
    assert r.Keys == r'.Keys;
  }

  lemma OverlayIsOverlay(t: Text, h: Headers, m: map<string, string>)
    requires Coherent(t, m)
    ensures IsOverlay(t, h, m, m.Keys, Overlay(t, h, m))
  {
    var r := Overlay(t, h, m);
    forall c | !Named(t, m.Keys, c) ensures (c in r <==> c in h) && (c in h ==> r[c] == h[c]) {
      assert forall k | k in m :: k in m.Keys && t.canon(k) != c;
    }
  }

  lemma SetOne(t: Text, h: Headers, m: map<string, string>, keys: set<string>, r: Headers, k: string)
    requires Coherent(t, m) && keys <= m.Keys && k in m && IsOverlay(t, h, m, keys, r)
    ensures IsOverlay(t, h, m, keys + {k}, Set(t, r, k, m[k]))
  {
    forall c | !Named(t, keys + {k}, c) ensures !Named(t, keys, c) && t.canon(k) != c {
      assert k in keys + {k};
      assert forall x | x in keys :: x in keys + {k};
    }
  }

  function Elements(order: seq<string>): set<string> {
    set k | k in order
  }

  lemma {:induction false} SetAllIsOverlay(t: Text, h: Headers, m: map<string, string>, order: seq<string>)
    requires Coherent(t, m) && forall k | k in order :: k in m
    ensures Elements(order) <= m.Keys && IsOverlay(t, h, m, Elements(order), SetAll(t, h, m, order))
  {
    if order != [] {
      var front, last := order[..|order| - 1], order[|order| - 1];
      assert order == front + [last] && last in order;
      assert Elements(order) == Elements(front) + {last};
      assert forall k | k in front :: k in order;
      SetAllIsOverlay(t, h, m, front);
      SetOne(t, h, m, Elements(front), SetAll(t, h, m, front), last);
      hide IsOverlay, Coherent, Elements;
    }
  }

  lemma OrderElements(order: seq<string>, m: map<string, string>)
    requires IsOrder(order, m)
    ensures Elements(order) == m.Keys && forall k | k in order :: k in m
  {}

  lemma OrderedIsOverlay(t: Text, h: Headers, m: map<string, string>, order: seq<string>)
    requires Coherent(t, m) && IsOrder(order, m)
    ensures SetAll(t, h, m, order) == Overlay(t, h, m)
  {
    OrderElements(order, m);
    hide IsOrder, IsOverlay, SetAll, Overlay;
    SetAllIsOverlay(t, h, m, order);
    OverlayIsOverlay(t, h, m);
    OverlayUnique(t, h, m, m.Keys, SetAll(t, h, m, order), Overlay(t, h, m));
  }

  lemma OneLast(rest: seq<string>, m: map<string, string>, k: string)
    requires k in m && IsOrder(rest, m - {k})
    ensures IsOrder(rest + [k], m)
  {
    var order := rest + [k];
    forall x ensures x in order <==> x in m {
      assert x in order <==> x in rest || x == k;
      assert x in m - {k} <==> x in m && x != k;
    }
    forall i, j | 0 <= i < j < |order| ensures order[i] != order[j] {
      assert order[i] == rest[i] && rest[i] in rest && rest[i] in m - {k};
    }
  }

  lemma {:induction false} SomeOrder(m: map<string, string>) returns (order: seq<string>)
    ensures IsOrder(order, m)
    decreases |m|
  {
    if m == map[] {
      order := [];
    } else {
      var k :| k in m;
      var rest := SomeOrder(m - {k});
      OneLast(rest, m, k);
      order := rest + [k];
    }
  }

  /** The outcome does not depend on the order the keys are visited in if and only if names that
      are one header agree on its value. */
  lemma OrderIrrelevantIff(t: Text, m: map<string, string>)
    ensures Coherent(t, m) <==>
            forall h, a, b | IsOrder(a, m) && IsOrder(b, m) :: SetAll(t, h, m, a) == SetAll(t, h, m, b)
  {
    if Coherent(t, m) {
      forall h, a, b | IsOrder(a, m) && IsOrder(b, m) ensures SetAll(t, h, m, a) == SetAll(t, h, m, b) {
        OrderedIsOverlay(t, h, m, a);
        OrderedIsOverlay(t, h, m, b);
      }
    } else {
      var k, k' :| k in m && k' in m && t.canon(k) == t.canon(k') && m[k] != m[k'];
      var a, b := OrderMatters(t, m, k, k');
    }
  }

  lemma OrderMatters(t: Text, m: map<string, string>, k: string, k': string) returns (a: seq<string>, b: seq<string>)
    requires k in m && k' in m && t.canon(k) == t.canon(k') && m[k] != m[k']
    ensures IsOrder(a, m) && IsOrder(b, m)
    ensures (forall x | x in a :: x in m) && (forall x | x in b :: x in m)
    ensures SetAll(t, map[], m, a) != SetAll(t, map[], m, b)
  {
    hide IsOrder, SetAll;
    var rest := SomeOrder(m - {k, k'});
    TwoLast(rest, m, k, k');
    TwoLast(rest, m, k', k);
    a, b := rest + [k, k'], rest + [k', k];
    LastOnesDiffer(t, m, a, b);
  }

  lemma LastOnesDiffer(t: Text, m: map<string, string>, a: seq<string>, b: seq<string>)
    requires a != [] && b != [] && (forall x | x in a :: x in m) && (forall x | x in b :: x in m)
    requires t.canon(a[|a| - 1]) == t.canon(b[|b| - 1]) && m[a[|a| - 1]] != m[b[|b| - 1]]
    ensures SetAll(t, map[], m, a) != SetAll(t, map[], m, b)
  {
    LastOneWins(t, map[], m, a);
    LastOneWins(t, map[], m, b);
    hide SetAll;
    var c := t.canon(a[|a| - 1]);
    assert SetAll(t, map[], m, a)[c] != SetAll(t, map[], m, b)[c];
  }

  lemma TwoLast(rest: seq<string>, m: map<string, string>, k: string, k': string)
    requires k in m && k' in m && k != k' && IsOrder(rest, m - {k, k'})
    ensures IsOrder(rest + [k, k'], m) && forall x | x in rest + [k, k'] :: x in m
  {
    assert m - {k, k'} == m - {k'} - {k} && k in m - {k'};
    assert rest + [k, k'] == rest + [k] + [k'];
    OneLast(rest, m - {k'}, k);
    OneLast(rest + [k], m, k');
  }

  lemma LastOneWins(t: Text, h: Headers, m: map<string, string>, order: seq<string>)
    requires order != [] && forall k | k in order :: k in m
    ensures var last := order[|order| - 1];
      t.canon(last) in SetAll(t, h, m, order) && SetAll(t, h, m, order)[t.canon(last)] == [m[last]]
  {}

  // ---- one plugin, whatever the order of its maps ---------------------------------

  ghost predicate SetInSomeOrder(t: Text, m: map<string, string>, h: Headers, h': Headers) {
    exists order :: IsOrder(order, m) && h' == SetAll(t, h, m, order)
  }

  ghost predicate RulesInSomeOrder(t: Text, rules: seq<Rule>, contentType: string, h: Headers, h': Headers) {
    if rules == [] then h' == h
    else
      var last := rules[|rules| - 1];
      exists mid ::
        && RulesInSomeOrder(t, rules[..|rules| - 1], contentType, h, mid)
        && if last.contentType <= contentType then SetInSomeOrder(t, last.headers, mid, h') else h' == mid
  }

  lemma OneRuleMore(t: Text, rules: seq<Rule>, i: nat, contentType: string, h: Headers, mid: Headers, h': Headers)
    requires i < |rules| && RulesInSomeOrder(t, rules[..i], contentType, h, mid)
    requires if rules[i].contentType <= contentType then SetInSomeOrder(t, rules[i].headers, mid, h') else h' == mid
    ensures RulesInSomeOrder(t, rules[..i + 1], contentType, h, h')
  {
    hide SetInSomeOrder;
    var more := rules[..i + 1];
    assert more[|more| - 1] == rules[i] && more[..|more| - 1] == rules[..i];
    assert RulesInSomeOrder(t, more[..|more| - 1], contentType, h, mid);
  }

  /** What a plugin may make of the headers: each of its maps is ranged over in some order. */
  ghost predicate AppliedInSomeOrder(t: Text, c: Config, h: Headers, h': Headers) {
    exists plain ::
      && SetInSomeOrder(t, c.headers, h, plain)
      && RulesInSomeOrder(t, c.rules, t.lower(Get(t, plain, CONTENT_TYPE)), plain, h')
  }

  // ---- one plugin, and a stack of them --------------------------------------------

  ghost predicate Settled(t: Text, c: Config) {
    Coherent(t, c.headers) && forall i | 0 <= i < |c.rules| :: Coherent(t, c.rules[i].headers)
  }

  ghost function RulesApplied(t: Text, rules: seq<Rule>, contentType: string, h: Headers): Headers
    requires forall i | 0 <= i < |rules| :: Coherent(t, rules[i].headers)
  {
    if rules == [] then h
    else
      var h' := if rules[0].contentType <= contentType then Overlay(t, h, rules[0].headers) else h;
      RulesApplied(t, rules[1..], contentType, h')
  }

  /** The plain headers first, then every rule whose content type the response then has. */
  ghost function Rewritten(t: Text, c: Config, h: Headers): Headers
    requires Settled(t, c)
  {
    var plain := Overlay(t, h, c.headers);
    RulesApplied(t, c.rules, t.lower(Get(t, plain, CONTENT_TYPE)), plain)
  }

  ghost predicate AllSettled(t: Text, stack: seq<Config>) {
    forall i | 0 <= i < |stack| :: Settled(t, stack[i])
  }

  /** A stack, outermost first: the innermost rewrites first. */
  ghost function StackRewritten(t: Text, stack: seq<Config>, h: Headers): Headers
    requires AllSettled(t, stack)
  {
    if stack == [] then h
    else StackRewritten(t, stack[..|stack| - 1], Rewritten(t, stack[|stack| - 1], h))
  }

  lemma InnermostIsFirst(t: Text, stack: seq<Config>, h: Headers)
    requires stack != [] && AllSettled(t, stack)
    ensures StackRewritten(t, stack, h) ==
            StackRewritten(t, stack[..|stack| - 1], Rewritten(t, stack[|stack| - 1], h))
  {}

  lemma {:induction false} OutermostIsLast(t: Text, stack: seq<Config>, h: Headers)
    requires stack != [] && AllSettled(t, stack)
    ensures AllSettled(t, stack[1..])
    ensures StackRewritten(t, stack, h) == Rewritten(t, stack[0], StackRewritten(t, stack[1..], h))
    decreases |stack|
  {
    var n := |stack|;
    hide Settled, Rewritten;
    if n > 1 {
      var h' := Rewritten(t, stack[n - 1], h);
      OutermostIsLast(t, stack[..n - 1], h');
      assert stack[..n - 1][1..] == stack[1..][..n - 2];
      assert stack[1..][n - 2] == stack[n - 1];
    } else {
      assert stack[..0] == [] && stack[1..] == [];
    }
  }

  lemma {:induction false} RulesLeave(t: Text, rules: seq<Rule>, contentType: string, h: Headers, name: string)
    requires forall i | 0 <= i < |rules| :: Coherent(t, rules[i].headers)
    requires forall i, k | 0 <= i < |rules| && k in rules[i].headers :: t.canon(k) != name
    ensures var r := RulesApplied(t, rules, contentType, h);
      (name in r <==> name in h) && (name in h ==> r[name] == h[name])
    decreases |rules|
  {
    if rules != [] {
      var h' := if rules[0].contentType <= contentType then Overlay(t, h, rules[0].headers) else h;
      RulesLeave(t, rules[1..], contentType, h', name);
    }
  }

  // ---- header by header ------------------------------------------------------------

  /** `v` is the content type a plugin's rules look at: the first value the response has under
      Content-Type once the plugin's plain headers are set, or nothing. */
  ghost predicate SeesType(t: Text, c: Config, h: Headers, v: string) {
    var key := t.canon("Content-Type");
    && (forall k | k in c.headers && t.canon(k) == key :: v == c.headers[k])
    && (!Named(t, c.headers.Keys, key) ==> v == if key in h && |h[key]| > 0 then h[key][0] else "")
  }

  /** A rule from the i-th on that matches `v` sets the header `name`. */
  ghost predicate SetFrom(t: Text, rules: seq<Rule>, i: nat, v: string, name: string) {
    exists j :: i <= j < |rules| && rules[j].contentType <= t.lower(v) && Named(t, rules[j].headers.Keys, name)
  }

  /** What rules do, header by header: the last one that matches the content type and sets the
      header decides; failing that, nothing does. */
  ghost predicate RulesTake(t: Text, rules: seq<Rule>, v: string, h: Headers, h': Headers) {
    && (forall i, k | 0 <= i < |rules| && k in rules[i].headers && rules[i].contentType <= t.lower(v)
                      && !SetFrom(t, rules, i + 1, v, t.canon(k)) ::
          t.canon(k) in h' && h'[t.canon(k)] == [rules[i].headers[k]])
    && (forall name | !SetFrom(t, rules, 0, v, name) ::
          (name in h' <==> name in h) && (name in h ==> h'[name] == h[name]))
  }

  /** And a plugin: where no rule decides its plain headers do, and failing that nothing does. */
  ghost predicate Takes(t: Text, c: Config, h: Headers, v: string, h': Headers) {
    && (forall i, k | 0 <= i < |c.rules| && k in c.rules[i].headers && c.rules[i].contentType <= t.lower(v)
                      && !SetFrom(t, c.rules, i + 1, v, t.canon(k)) ::
          t.canon(k) in h' && h'[t.canon(k)] == [c.rules[i].headers[k]])
    && (forall k | k in c.headers && !SetFrom(t, c.rules, 0, v, t.canon(k)) ::
          t.canon(k) in h' && h'[t.canon(k)] == [c.headers[k]])
    && (forall name | !SetFrom(t, c.rules, 0, v, name) && !Named(t, c.headers.Keys, name) ::
          (name in h' <==> name in h) && (name in h ==> h'[name] == h[name]))
  }

  lemma TypeSeen(t: Text, c: Config, h: Headers, v: string, plain: Headers)
    requires SeesType(t, c, h, v) && IsOverlay(t, h, c.headers, c.headers.Keys, plain)
    ensures Get(t, plain, CONTENT_TYPE) == v
  {
    var key := t.canon("Content-Type");
    if Named(t, c.headers.Keys, key) {
      var k :| k in c.headers.Keys && t.canon(k) == key;
      assert plain[key] == [c.headers[k]];
    }
  }

  lemma SetFromNext(t: Text, rules: seq<Rule>, i: nat, v: string, name: string)
    requires rules != []
    ensures SetFrom(t, rules, i + 1, v, name) <==> SetFrom(t, rules[1..], i, v, name)
    ensures SetFrom(t, rules, 0, v, name) <==>
            (rules[0].contentType <= t.lower(v) && Named(t, rules[0].headers.Keys, name))
            || SetFrom(t, rules[1..], 0, v, name)
  {
    hide Named;
    assert forall j | 0 < j < |rules| :: rules[j] == rules[1..][j - 1];
    if SetFrom(t, rules, i + 1, v, name) {
      var j :| i + 1 <= j < |rules| && rules[j].contentType <= t.lower(v) && Named(t, rules[j].headers.Keys, name);
      assert i <= j - 1 < |rules[1..]| && Named(t, rules[1..][j - 1].headers.Keys, name);
    }
    if SetFrom(t, rules[1..], i, v, name) {
      var j :| i <= j < |rules[1..]| && rules[1..][j].contentType <= t.lower(v)
               && Named(t, rules[1..][j].headers.Keys, name);
      assert Named(t, rules[j + 1].headers.Keys, name);
    }
    if SetFrom(t, rules, 0, v, name) {
      var j :| 0 <= j < |rules| && rules[j].contentType <= t.lower(v) && Named(t, rules[j].headers.Keys, name);
      if j > 0 {
        assert Named(t, rules[1..][j - 1].headers.Keys, name);
      }
    }
    if SetFrom(t, rules[1..], 0, v, name) {
      var j :| 0 <= j < |rules[1..]| && rules[1..][j].contentType <= t.lower(v)
               && Named(t, rules[1..][j].headers.Keys, name);
      assert Named(t, rules[j + 1].headers.Keys, name);
    }
  }

  lemma OneRuleTakes(t: Text, rules: seq<Rule>, v: string, h: Headers, h': Headers, r: Headers)
    requires rules != [] && RulesTake(t, rules[1..], v, h', r)
    requires if rules[0].contentType <= t.lower(v) then IsOverlay(t, h, rules[0].headers, rules[0].headers.Keys, h')
             else h' == h
    ensures RulesTake(t, rules, v, h, r)
  {
    hide SetFrom, Named;
    forall i, k | 0 <= i < |rules| && k in rules[i].headers && rules[i].contentType <= t.lower(v)
                  && !SetFrom(t, rules, i + 1, v, t.canon(k))
      ensures t.canon(k) in r && r[t.canon(k)] == [rules[i].headers[k]]
    {
      SetFromNext(t, rules, i, v, t.canon(k));
      if i > 0 {
        assert rules[i] == rules[1..][i - 1];
      }
    }
    forall name | !SetFrom(t, rules, 0, v, name)
      ensures (name in r <==> name in h) && (name in h ==> r[name] == h[name])
    {
      SetFromNext(t, rules, 0, v, name);
    }
  }

  lemma {:induction false} RulesAppliedTake(t: Text, rules: seq<Rule>, v: string, h: Headers)
    requires forall i | 0 <= i < |rules| :: Coherent(t, rules[i].headers)
    ensures RulesTake(t, rules, v, h, RulesApplied(t, rules, t.lower(v), h))
    decreases |rules|
  {
    if rules == [] {
      return;
    }
    var h' := if rules[0].contentType <= t.lower(v) then Overlay(t, h, rules[0].headers) else h;
    OverlayIsOverlay(t, h, rules[0].headers);
    hide Overlay, IsOverlay, RulesTake;
    RulesAppliedTake(t, rules[1..], v, h');
    OneRuleTakes(t, rules, v, h, h', RulesApplied(t, rules, t.lower(v), h));
  }

  /** What the plugin makes of the headers takes hold header by header, and nothing else does. */
  lemma RewrittenIffTakes(t: Text, c: Config, h: Headers, v: string, h': Headers)
    requires Settled(t, c) && SeesType(t, c, h, v)
    ensures h' == Rewritten(t, c, h) <==> Takes(t, c, h, v, h')
  {
    hide Takes, Rewritten, SeesType;
    RewrittenTakes(t, c, h, v);
    if Takes(t, c, h, v, h') {
      TakesOneWay(t, c, h, v, h', Rewritten(t, c, h));
    }
  }

  lemma PlainThenRules(t: Text, c: Config, h: Headers, v: string, plain: Headers, r: Headers)
    requires IsOverlay(t, h, c.headers, c.headers.Keys, plain) && RulesTake(t, c.rules, v, plain, r)
    ensures Takes(t, c, h, v, r)
  {
    hide SetFrom, Named;
    assert forall k | k in c.headers :: k in c.headers.Keys;
  }

  lemma RewrittenTakes(t: Text, c: Config, h: Headers, v: string)
    requires Settled(t, c) && SeesType(t, c, h, v)
    ensures Takes(t, c, h, v, Rewritten(t, c, h))
  {
    var plain := Overlay(t, h, c.headers);
    OverlayIsOverlay(t, h, c.headers);
    hide Overlay, IsOverlay, SeesType, Takes, RulesTake, RulesApplied, Get;
    TypeSeen(t, c, h, v, plain);
    RulesAppliedTake(t, c.rules, v, plain);
    PlainThenRules(t, c, h, v, plain, RulesApplied(t, c.rules, t.lower(v), plain));
  }

  lemma RewrittenTakesAny(t: Text, c: Config, h: Headers)
    requires Settled(t, c)
    ensures forall v | SeesType(t, c, h, v) :: Takes(t, c, h, v, Rewritten(t, c, h))
  {
    hide SeesType, Takes, Rewritten, Settled;
    forall v | SeesType(t, c, h, v) ensures Takes(t, c, h, v, Rewritten(t, c, h)) {
      RewrittenTakes(t, c, h, v);
    }
  }

  lemma TakesOneWay(t: Text, c: Config, h: Headers, v: string, a: Headers, b: Headers)
    requires Takes(t, c, h, v, a) && Takes(t, c, h, v, b)
    ensures a == b
  {
    forall name ensures (name in a <==> name in b) && (name in a && name in b ==> a[name] == b[name]) {
      if SetFrom(t, c.rules, 0, v, name) {
        var i, k := LastThatSets(t, c.rules, 0, v, name);
      } else if Named(t, c.headers.Keys, name) {
        var k :| k in c.headers && t.canon(k) == name;
      }
    }
    assert a.Keys == b.Keys;
  }

  lemma {:induction false} LastThatSets(t: Text, rules: seq<Rule>, from: nat, v: string, name: string)
    returns (i: nat, k: string)
    requires SetFrom(t, rules, from, v, name)
    ensures from <= i < |rules| && k in rules[i].headers && t.canon(k) == name && rules[i].contentType <= t.lower(v)
    ensures !SetFrom(t, rules, i + 1, v, name)
    decreases |rules| - from
  {
    i :| from <= i < |rules| && rules[i].contentType <= t.lower(v) && Named(t, rules[i].headers.Keys, name);
    if SetFrom(t, rules, i + 1, v, name) {
      i, k := LastThatSets(t, rules, i + 1, v, name);
    } else {
      k :| k in rules[i].headers && t.canon(k) == name;
    }
  }

  lemma SomeType(t: Text, c: Config, h: Headers) returns (v: string)
    requires Settled(t, c)
    ensures SeesType(t, c, h, v)
  {
    var key := t.canon("Content-Type");
    if Named(t, c.headers.Keys, key) {
      var k :| k in c.headers && t.canon(k) == key;
      v := c.headers[k];
    } else {
      v := if key in h && |h[key]| > 0 then h[key][0] else "";
    }
  }

  /** A header a plugin always sets, and no rule of its own sets, leaves it with that value. */
  lemma RewrittenSets(t: Text, c: Config, h: Headers, k: string)
    requires Settled(t, c) && k in c.headers
    requires forall i, k' | 0 <= i < |c.rules| && k' in c.rules[i].headers :: t.canon(k') != t.canon(k)
    ensures t.canon(k) in Rewritten(t, c, h) && Rewritten(t, c, h)[t.canon(k)] == [c.headers[k]]
  {
    var plain := Overlay(t, h, c.headers);
    RulesLeave(t, c.rules, t.lower(Get(t, plain, CONTENT_TYPE)), plain, t.canon(k));
  }
}
