/** The keys of the shared counters in distributed mode: "service:index:client". Isolation between
    the rate_limiting declarations of a config is injectivity of this encoding. A service is known by
    its place in the config, since nothing keeps two services from having one name. */
module CounterKeys {

  function Itoa(n: nat): (digits: string)
    ensures digits != [] && forall k | 0 <= k < |digits| :: '0' <= digits[k] <= '9'
  {
    var last := [('0' as int + n % 10) as char];
    if n < 10 then last else Itoa(n / 10) + last
  }

  /** The number that decimal digits stand for. */
  function Value(digits: string): int {
    if digits == "" then 0 else 10 * Value(digits[..|digits| - 1]) + (digits[|digits| - 1] as int - '0' as int)
  }

  /** The decimal number n, without leading zeros. */
  lemma {:induction false} ItoaIsDecimal(n: nat)
    ensures Value(Itoa(n)) == n && (n > 0 ==> Itoa(n)[0] != '0') && (n == 0 ==> Itoa(n) == "0")
  {
    var digits := Itoa(n);
    if n >= 10 {
      ItoaIsDecimal(n / 10);
      assert digits[..|digits| - 1] == Itoa(n / 10);
    } else {
      assert digits[..0] == "";
    }
  }

  /** Identifies the plugin at `index` of service `name`. */
  function InstanceId(name: string, index: nat): string {
    name + ":" + Itoa(index)
  }

  /** What namespacedStore hands to the shared store. */
  function CounterKey(name: string, index: nat, client: string): string {
    InstanceId(name, index) + ":" + client
  }

  lemma {:induction false} ItoaInjective(i: nat, j: nat)
    requires Itoa(i) == Itoa(j)
    ensures i == j
  {
    assert Itoa(i)[|Itoa(i)| - 1] as int - '0' as int == i % 10;
    assert Itoa(j)[|Itoa(j)| - 1] as int - '0' as int == j % 10;
    if i >= 10 && j >= 10 {
      assert Itoa(i)[..|Itoa(i)| - 1] == Itoa(i / 10);
      assert Itoa(j)[..|Itoa(j)| - 1] == Itoa(j / 10);
      ItoaInjective(i / 10, j / 10);
    }
  }

  lemma SameNameSeparates(name: string, i: nat, j: nat, c: string, d: string)
    requires CounterKey(name, i, c) == CounterKey(name, j, d)
    ensures i == j && c == d
  {
    var key, n := CounterKey(name, i, c), |name| + 1;
    assert key[n..][..|Itoa(i)|] == Itoa(i) && key[n..][..|Itoa(j)|] == Itoa(j);
    assert key[n..][|Itoa(i)|] == ':' && key[n..][|Itoa(j)|] == ':';
    assert |Itoa(i)| == |Itoa(j)|;
    ItoaInjective(i, j);
    assert key[n + |Itoa(i)| + 1..] == c && key[n + |Itoa(i)| + 1..] == d;
  }

  /** `longer` starts with `shorter`, a colon and an index, and then ends or goes on with a colon. */
  ghost predicate Shadows(shorter: string, longer: string) {
    exists i: nat :: InstanceId(shorter, i) + ":" <= longer + ":"
  }

  lemma CollisionShadows(a: string, b: string, i: nat, j: nat, c: string, d: string)
    requires a != b && |a| <= |b| && CounterKey(a, i, c) == CounterKey(b, j, d)
    ensures Shadows(a, b)
  {
    var key := CounterKey(a, i, c);
    assert key[..|a|] == a && key[..|b|] == b && key[|b|] == ':';
    assert b[..|a|] == a;
    var start := |a| + 1;
    assert key[start..][..|Itoa(i)|] == Itoa(i);
    assert forall k | 0 <= k < |Itoa(i)| :: key[start + k] == Itoa(i)[k] != ':';
    assert |b| != |a| && |b| >= start + |Itoa(i)|;
    assert InstanceId(a, i) + ":" == key[..start + |Itoa(i)| + 1];
    assert b + ":" == key[..|b| + 1];
    assert InstanceId(a, i) + ":" <= b + ":";
  }

  lemma ShadowCollides(a: string, b: string) returns (i: nat, c: string)
    requires Shadows(a, b)
    ensures CounterKey(a, i, c) == CounterKey(b, 0, "")
  {
    i :| InstanceId(a, i) + ":" <= b + ":";
    var key, n := CounterKey(b, 0, ""), |InstanceId(a, i)| + 1;
    assert key[..|b| + 1] == b + ":";
    assert key[..n] == (b + ":")[..n] == InstanceId(a, i) + ":";
    c := key[n..];
    assert key == key[..n] + key[n..];
  }

  /** No two declarations, each the plugin at some index of some service, ever share a counter. */
  ghost predicate NeverShared(names: seq<string>) {
    forall s, t, i: nat, j: nat, c, d | 0 <= s < |names| && 0 <= t < |names| && (s, i) != (t, j) ::
      CounterKey(names[s], i, c) != CounterKey(names[t], j, d)
  }

  ghost predicate NamesApart(names: seq<string>) {
    forall s, t | 0 <= s < |names| && 0 <= t < |names| && s != t ::
      names[s] != names[t] && !Shadows(names[s], names[t])
  }

  /** The declarations of a config are isolated, for clients of any form and plugins at any index,
      if and only if its service names are distinct and none shadows another. */
  lemma IsolatedIff(names: seq<string>)
    ensures NeverShared(names) <==> NamesApart(names)
  {
    if NamesApart(names) {
      forall s, t, i: nat, j: nat, c, d | 0 <= s < |names| && 0 <= t < |names| && (s, i) != (t, j)
        ensures CounterKey(names[s], i, c) != CounterKey(names[t], j, d)
      {
        if CounterKey(names[s], i, c) == CounterKey(names[t], j, d) {
          if s == t {
            SameNameSeparates(names[s], i, j, c, d);
          } else if |names[s]| <= |names[t]| {
            CollisionShadows(names[s], names[t], i, j, c, d);
          } else {
            CollisionShadows(names[t], names[s], j, i, d, c);
          }
        }
      }
    } else {
      var s, t :| 0 <= s < |names| && 0 <= t < |names| && s != t &&
                  (names[s] == names[t] || Shadows(names[s], names[t]));
      if names[s] == names[t] {
        assert CounterKey(names[s], 0, "") == CounterKey(names[t], 0, "") && (s, 0) != (t, 0);
      } else {
        var i, c := ShadowCollides(names[s], names[t]);
        assert CounterKey(names[s], i, c) == CounterKey(names[t], 0, "") && (s, i) != (t, 0);
      }
    }
  }

  function Prefix(name: string, index: nat): string {
    InstanceId(name, index) + ":"
  }

  /** The part of `longer` past `shorter` turns one possible client into another. */
  ghost predicate Extends(shorter: string, longer: string, possible: string -> bool) {
    shorter <= longer && exists d :: possible(d) && possible(longer[|shorter|..] + d)
  }

  lemma KeyExtends(x: string, c: string, y: string, d: string)
    requires |x| <= |y| && x + c == y + d
    ensures x <= y && c == y[|x|..] + d
  {
    assert (x + c)[..|x|] == x && (y + d)[..|y|] == y;
    assert (x + c)[|x|..] == c && (y + d)[|x|..] == y[|x|..] + d;
  }

  ghost predicate Shared(a: string, i: nat, b: string, j: nat, possible: string -> bool) {
    exists c, d :: possible(c) && possible(d) && CounterKey(a, i, c) == CounterKey(b, j, d)
  }

  lemma SharedExtends(a: string, i: nat, b: string, j: nat, possible: string -> bool)
    requires Shared(a, i, b, j, possible)
    ensures Extends(Prefix(a, i), Prefix(b, j), possible) || Extends(Prefix(b, j), Prefix(a, i), possible)
  {
    var c, d :| possible(c) && possible(d) && CounterKey(a, i, c) == CounterKey(b, j, d);
    var x, y := Prefix(a, i), Prefix(b, j);
    assert x + c == y + d;
    hide Prefix, CounterKey;
    if |x| <= |y| {
      KeyExtends(x, c, y, d);
    } else {
      KeyExtends(y, d, x, c);
    }
  }

  lemma ExtendsShared(a: string, i: nat, b: string, j: nat, possible: string -> bool)
    requires Extends(Prefix(a, i), Prefix(b, j), possible)
    ensures Shared(a, i, b, j, possible)
  {
    var x, y := Prefix(a, i), Prefix(b, j);
    var d :| possible(d) && possible(y[|x|..] + d);
    var c := y[|x|..] + d;
    assert x + c == y + d;
    assert CounterKey(a, i, c) == CounterKey(b, j, d);
  }

  lemma SharedSymmetric(a: string, i: nat, b: string, j: nat, possible: string -> bool)
    requires Shared(a, i, b, j, possible)
    ensures Shared(b, j, a, i, possible)
  {
    var c, d :| possible(c) && possible(d) && CounterKey(a, i, c) == CounterKey(b, j, d);
    assert possible(d) && possible(c) && CounterKey(b, j, d) == CounterKey(a, i, c);
  }

  /** Two declarations share a counter if and only if one's prefix goes on from the other's by a
      string that some possible client can follow to make a possible client: "2:" does, before the
      address 1::7; "zzz:" before no address. */
  lemma SharedIffExtends(a: string, i: nat, b: string, j: nat, possible: string -> bool)
    ensures Shared(a, i, b, j, possible) <==>
            Extends(Prefix(a, i), Prefix(b, j), possible) || Extends(Prefix(b, j), Prefix(a, i), possible)
  {
    hide Shared, Extends, Prefix;
    if Shared(a, i, b, j, possible) {
      SharedExtends(a, i, b, j, possible);
    } else if Extends(Prefix(a, i), Prefix(b, j), possible) {
      ExtendsShared(a, i, b, j, possible);
    } else if Extends(Prefix(b, j), Prefix(a, i), possible) {
      ExtendsShared(b, j, a, i, possible);
      SharedSymmetric(b, j, a, i, possible);
    }
  }

  lemma NoColonNoShadow(shorter: string, longer: string)
    requires ':' !in longer
    ensures !Shadows(shorter, longer)
  {
    forall i: nat
      ensures !(InstanceId(shorter, i) + ":" <= longer + ":")
    {
      var start, all := InstanceId(shorter, i) + ":", longer + ":";
      assert start[|shorter|] == ':' && |start| > |shorter| + 1;
      assert |all| >= |start| ==> all[|shorter|] == longer[|shorter|];
    }
  }

  /** Names without colons keep name, index and client apart, whatever colons the client holds. */
  lemma ColonFreeNamesAreIsolated(a: string, b: string, i: nat, j: nat, c: string, d: string)
    requires ':' !in a && ':' !in b
    requires CounterKey(a, i, c) == CounterKey(b, j, d)
    ensures a == b && i == j && c == d
  {
    if a == b {
      SameNameSeparates(a, i, j, c, d);
    } else if |a| <= |b| {
      CollisionShadows(a, b, i, j, c, d);
      NoColonNoShadow(a, b);
    } else {
      CollisionShadows(b, a, j, i, d, c);
      NoColonNoShadow(b, a);
    }
  }

  /** So a config with such names is isolated if and only if they are distinct. */
  lemma ColonFreeIsolatedIff(names: seq<string>)
    requires forall name | name in names :: ':' !in name
    ensures NeverShared(names) <==> forall s, t | 0 <= s < t < |names| :: names[s] != names[t]
  {
    IsolatedIff(names);
    forall s, t | 0 <= s < |names| && 0 <= t < |names| ensures !Shadows(names[s], names[t]) {
      NoColonNoShadow(names[s], names[t]);
    }
  }

  /** Service names are only checked for being nonempty: these two declarations share the counter
      of two different IPv6 clients. */
  lemma ColonInNameCollides()
    ensures CounterKey("a", 1, "2:1::7") == CounterKey("a:1", 2, "1::7")
  {
    assert Itoa(1) == "1" && Itoa(2) == "2";
  }
}
