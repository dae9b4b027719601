/** Who the client is, behind trusted proxies. Address parsing, rendering and prefix matching are
    parameters; the walk over X-Forwarded-For and its splitting are not. */
module ClientIp {
  import opened Wrappers

  /** `parse` reads an address, `render` prints it unmapped, each prefix says what it contains. */
  datatype Resolver<!A> = Resolver(parse: string -> Option<A>, render: A -> string, trusted: seq<A -> bool>) {

    predicate IsTrusted(addr: A) {
      exists i :: 0 <= i < |trusted| && trusted[i](addr)
    }

    /** The walk from the right goes on past this hop. */
    predicate Passes(hop: string) {
      parse(hop).Some? && IsTrusted(parse(hop).value)
    }
  }

  // ---- the walk -----------------------------------------------------------------

  /** The rest of the walk over `hops`, from the right, with `client` as the answer so far. */
  function Walk<A>(res: Resolver<A>, hops: seq<string>, client: string): string {
    if hops == [] then client
    else
      var last := hops[|hops| - 1];
      match res.parse(last)
      case None => client
      case Some(addr) =>
        if res.IsTrusted(addr) then Walk(res, hops[..|hops| - 1], res.render(addr)) else res.render(addr)
  }

  /** The client for a direct peer and the hops it forwarded. */
  function Resolved<A>(res: Option<Resolver<A>>, peer: string, hops: seq<string>): string {
    if res.None? || res.value.trusted == [] || !res.value.Passes(peer) then peer
    else Walk(res.value, hops, peer)
  }

  /** What the hop at `i` makes of the answer when everything right of it is trusted. */
  function AnswerAt<A>(res: Resolver<A>, hops: seq<string>, i: nat, peer: string): string
    requires i < |hops|
  {
    match res.parse(hops[i])
    case Some(addr) => res.render(addr)
    case None =>
      if i + 1 == |hops| then peer
      else if res.parse(hops[i + 1]).Some? then res.render(res.parse(hops[i + 1]).value) else peer
  }

  ghost predicate AllPass<A>(res: Resolver<A>, hops: seq<string>) {
    forall i | 0 <= i < |hops| :: res.Passes(hops[i])
  }

  /** Hop `i` is malformed or untrusted, and every hop right of it is trusted. */
  ghost predicate StopsAt<A>(res: Resolver<A>, hops: seq<string>, i: nat) {
    i < |hops| && !res.Passes(hops[i]) && AllPass(res, hops[i + 1..])
  }

  /** The rightmost hop that is malformed or untrusted decides: an untrusted hop is the answer, a
      malformed one leaves the hop right of it, or the peer. */
  lemma {:induction false} WalkStops<A>(res: Resolver<A>, hops: seq<string>, i: nat, peer: string)
    requires StopsAt(res, hops, i)
    ensures Walk(res, hops, peer) == AnswerAt(res, hops, i, peer)
    decreases |hops|
  {
    var init, last := hops[..|hops| - 1], hops[|hops| - 1];
    if i < |init| {
      assert last == hops[i + 1..][|hops| - i - 2];
      assert init[i + 1..] == hops[i + 1..][..|init| - i - 1];
      WalkStops(res, init, i, res.render(res.parse(last).value));
    }
  }

  /** If every hop is trusted the leftmost is the answer, and without hops the peer is. */
  lemma {:induction false} WalkGoesThrough<A>(res: Resolver<A>, hops: seq<string>, peer: string)
    requires AllPass(res, hops)
    ensures Walk(res, hops, peer) == if hops == [] then peer else AnswerAt(res, hops, 0, peer)
    decreases |hops|
  {
    if hops != [] {
      var init, last := hops[..|hops| - 1], hops[|hops| - 1];
      WalkGoesThrough(res, init, res.render(res.parse(last).value));
    }
  }

  /** One of the two always applies. */
  lemma {:induction false} SomeHopStops<A>(res: Resolver<A>, hops: seq<string>)
    ensures AllPass(res, hops) || exists i :: StopsAt(res, hops, i)
    decreases |hops|
  {
    if hops != [] {
      var init, last := hops[..|hops| - 1], hops[|hops| - 1];
      if !res.Passes(last) {
        assert StopsAt(res, hops, |hops| - 1);
      } else {
        SomeHopStops(res, init);
        if i :| StopsAt(res, init, i) {
          assert hops[i + 1..] == init[i + 1..] + [last];
          assert StopsAt(res, hops, i);
        }
      }
    }
  }

  /** Only a trusted proxy is asked whom it forwards for: without a resolver, or with a peer that is
      no address or in no trusted prefix, the peer is the client, whatever hops it sends. */
  lemma UntrustedPeerStands<A>(res: Option<Resolver<A>>, peer: string, hops: seq<string>)
    requires res.Some? && res.value.parse(peer).Some? ==>
      forall i | 0 <= i < |res.value.trusted| :: !res.value.trusted[i](res.value.parse(peer).value)
    ensures Resolved(res, peer, hops) == peer
  {}

  /** Behind a peer in one of the prefixes the hops decide, as WalkStops and WalkGoesThrough say. */
  lemma TrustedPeerForwards<A>(res: Resolver<A>, peer: string, hops: seq<string>)
    requires res.parse(peer).Some?
    requires exists i :: 0 <= i < |res.trusted| && res.trusted[i](res.parse(peer).value)
    ensures hops == [] ==> Resolved(Some(res), peer, hops) == peer
    ensures hops != [] && AllPass(res, hops) ==> Resolved(Some(res), peer, hops) == AnswerAt(res, hops, 0, peer)
    ensures forall i | StopsAt(res, hops, i) :: Resolved(Some(res), peer, hops) == AnswerAt(res, hops, i, peer)
  {
    if AllPass(res, hops) {
      WalkGoesThrough(res, hops, peer);
    }
    forall i | StopsAt(res, hops, i) ensures Walk(res, hops, peer) == AnswerAt(res, hops, i, peer) {
      WalkStops(res, hops, i, peer);
    }
  }

  /** What a request's client is, by the peer and by the hops it forwarded. */
  ghost predicate Answers<A>(res: Option<Resolver<A>>, peer: string, hops: seq<string>, client: string) {
    if res.Some? && res.value.parse(peer).Some?
       && exists i :: 0 <= i < |res.value.trusted| && res.value.trusted[i](res.value.parse(peer).value)
    then
      && (hops == [] ==> client == peer)
      && (hops != [] && AllPass(res.value, hops) ==> client == AnswerAt(res.value, hops, 0, peer))
      && (forall i | StopsAt(res.value, hops, i) :: client == AnswerAt(res.value, hops, i, peer))
    else client == peer
  }

  lemma ResolvedAnswers<A>(res: Option<Resolver<A>>, peer: string, hops: seq<string>)
    ensures Answers(res, peer, hops, Resolved(res, peer, hops))
  {
    if res.Some? && res.value.Passes(peer) {
      TrustedPeerForwards(res.value, peer, hops);
    }
  }

  // ---- what the client claims is never believed -------------------------------------

  lemma {:induction false} WalkThrough<A>(res: Resolver<A>, claimed: seq<string>, hops: seq<string>, client: string)
    ensures Walk(res, claimed + hops, client) ==
            if AllPass(res, hops) then Walk(res, claimed, Walk(res, hops, client)) else Walk(res, hops, client)
    decreases |hops|
  {
    if hops == [] {
      assert claimed + hops == claimed;
    } else {
      var init, last := hops[..|hops| - 1], hops[|hops| - 1];
      assert (claimed + hops)[..|claimed + hops| - 1] == claimed + init;
      if res.Passes(last) {
        WalkThrough(res, claimed, init, res.render(res.parse(last).value));
        assert AllPass(res, init) ==> AllPass(res, hops);
        assert AllPass(res, hops) ==> AllPass(res, init) by {
          assert forall i | 0 <= i < |init| :: init[i] == hops[i];
        }
      }
    }
  }

  /** There are two addresses to choose between. */
  ghost predicate CanClaim<A>(res: Resolver<A>) {
    exists hop, hop' :: res.parse(hop).Some? && res.parse(hop').Some? && Rendered(res, hop) != Rendered(res, hop')
  }

  function Rendered<A>(res: Resolver<A>, hop: string): string
    requires res.parse(hop).Some?
  {
    res.render(res.parse(hop).value)
  }

  lemma ClaimAnswers<A>(res: Resolver<A>, hop: string, client: string)
    requires res.parse(hop).Some?
    ensures Walk(res, [hop], client) == Rendered(res, hop)
  {
    assert [hop][..0] == [];
  }

  /** Behind a trusted peer, what stands left of `hops` in the header never changes the answer if
      and only if one of `hops` is malformed or untrusted. */
  lemma ClaimsIgnoredIff<A>(res: Resolver<A>, peer: string, hops: seq<string>)
    requires res.Passes(peer) && CanClaim(res)
    ensures (forall claimed :: Resolved(Some(res), peer, claimed + hops) == Resolved(Some(res), peer, hops)) <==>
            !AllPass(res, hops)
  {
    if AllPass(res, hops) {
      var answer := Walk(res, hops, peer);
      var hop, hop' :| res.parse(hop).Some? && res.parse(hop').Some? && Rendered(res, hop) != Rendered(res, hop');
      var claim := if Rendered(res, hop) != answer then hop else hop';
      WalkThrough(res, [claim], hops, peer);
      ClaimAnswers(res, claim, answer);
      assert Resolved(Some(res), peer, [claim] + hops) != Resolved(Some(res), peer, hops);
    } else {
      forall claimed ensures Resolved(Some(res), peer, claimed + hops) == Resolved(Some(res), peer, hops) {
        WalkThrough(res, claimed, hops, peer);
      }
    }
  }

  // ---- splitting the header --------------------------------------------------------------

  /** strings.Split(s, ","). */
  function Split(s: string): (parts: seq<string>)
    ensures parts != []
  {
    if s == "" then [""]
    else
      var rest := Split(s[1..]);
      if s[0] == ',' then [""] + rest else [[s[0]] + rest[0]] + rest[1..]
  }

  function Join(parts: seq<string>, sep: string): string {
    if parts == [] then "" else if |parts| == 1 then parts[0] else parts[0] + sep + Join(parts[1..], sep)
  }

  /** unicode.IsSpace. */
  predicate IsSpace(c: char) {
    c in {' ', '\t', '\n', '\r', '\U{B}', '\U{C}', '\U{85}', '\U{A0}', '\U{1680}',
          '\U{2028}', '\U{2029}', '\U{202F}', '\U{205F}', '\U{3000}'}
    || '\U{2000}' <= c <= '\U{200A}'
  }

  function TrimLeft(s: string): string {
    if s != "" && IsSpace(s[0]) then TrimLeft(s[1..]) else s
  }

  function TrimRight(s: string): string {
    if s != "" && IsSpace(s[|s| - 1]) then TrimRight(s[..|s| - 1]) else s
  }

  function TrimSpace(s: string): string {
    TrimRight(TrimLeft(s))
  }

  /** The trimmed, nonempty ones of some comma-separated parts. */
  function Hops(parts: seq<string>): seq<string> {
    if parts == [] then []
    else (if TrimSpace(parts[0]) == "" then [] else [TrimSpace(parts[0])]) + Hops(parts[1..])
  }

  function ForwardedFor(lines: seq<string>): seq<string> {
    if lines == [] then [] else Hops(Split(lines[0])) + ForwardedFor(lines[1..])
  }

  /** Splitting loses nothing and leaves no comma. */
  lemma {:induction false} SplitJoins(s: string)
    ensures Join(Split(s), ",") == s && forall p | p in Split(s) :: ',' !in p
  {
    if s != "" {
      SplitJoins(s[1..]);
      var rest := Split(s[1..]);
      assert s == [s[0]] + s[1..];
      if s[0] == ',' {
        assert Split(s)[1..] == rest;
      } else {
        JoinPrefixed([s[0]], rest);
        assert rest[0] in rest;
      }
    }
  }

  lemma JoinPrefixed(c: string, parts: seq<string>)
    requires parts != []
    ensures Join([c + parts[0]] + parts[1..], ",") == c + Join(parts, ",")
  {
    var all := [c + parts[0]] + parts[1..];
    assert all[1..] == parts[1..];
    if |parts| > 1 {
      assert (c + parts[0]) + "," + Join(parts[1..], ",") == c + (parts[0] + "," + Join(parts[1..], ","));
    }
  }

  lemma {:induction false} SplitConcat(a: string, b: string)
    ensures Split(a + "," + b) == Split(a) + Split(b)
    decreases |a|
  {
    var s := a + "," + b;
    if a == "" {
      assert s[1..] == b;
    } else {
      assert s[1..] == a[1..] + "," + b;
      SplitConcat(a[1..], b);
    }
  }

  lemma {:induction false} HopsConcat(a: seq<string>, b: seq<string>)
    ensures Hops(a + b) == Hops(a) + Hops(b)
  {
    if a == [] {
      assert a + b == b;
    } else {
      assert (a + b)[1..] == a[1..] + b;
      HopsConcat(a[1..], b);
    }
  }

  lemma {:induction false} PaddingTrimmed(pad: string, s: string)
    requires forall c | c in pad :: IsSpace(c)
    ensures Hops(Split(pad + s)) == Hops(Split(s))
  {
    if pad == "" {
      assert pad + s == s;
    } else {
      assert pad[0] in pad;
      assert (pad + s)[1..] == pad[1..] + s;
      PaddingTrimmed(pad[1..], s);
      var rest := Split(pad[1..] + s);
      var first := [pad[0]] + rest[0];
      assert first[1..] == rest[0];
      assert TrimLeft(first) == TrimLeft(rest[0]);
      assert Split(pad + s)[1..] == rest[1..];
    }
  }

  /** Repeated header lines give the same hops as one line that joins them with commas, with any
      white space after each comma (section 5.3 of RFC 9110). */
  lemma {:induction false} LinesJoin(lines: seq<string>, pad: string)
    requires forall c | c in pad :: IsSpace(c)
    ensures ForwardedFor(lines) == ForwardedFor([Join(lines, "," + pad)])
    decreases |lines|
  {
    var joined := Join(lines, "," + pad);
    assert ForwardedFor([joined]) == Hops(Split(joined)) + ForwardedFor([]) by { assert [joined][1..] == []; }
    if lines == [] {
      assert Split(joined) == [""] && Hops([""]) == Hops([]);
    } else if |lines| == 1 {
      assert lines == [joined];
    } else {
      var rest := Join(lines[1..], "," + pad);
      LinesJoin(lines[1..], pad);
      assert ForwardedFor([rest]) == Hops(Split(rest)) + ForwardedFor([]) by { assert [rest][1..] == []; }
      assert joined == lines[0] + "," + (pad + rest);
      SplitConcat(lines[0], pad + rest);
      HopsConcat(Split(lines[0]), Split(pad + rest));
      PaddingTrimmed(pad, rest);
    }
  }

  predicate Blank(c: char) {
    c == ' ' || c == '\t'
  }

  /** A hop as it stands in a header: no comma, and a visible ASCII character at either end. */
  predicate Entry(hop: string) {
    hop != "" && ',' !in hop && '!' <= hop[0] <= '~' && '!' <= hop[|hop| - 1] <= '~'
  }

  lemma {:induction false} NoCommaOnePart(s: string)
    requires ',' !in s
    ensures Split(s) == [s]
  {
    if s != "" {
      assert s[0] in s && forall c | c in s[1..] :: c in s;
      NoCommaOnePart(s[1..]);
      assert [s[1..]][1..] == [] && [s[0]] + s[1..] == s;
    }
  }

  lemma {:induction false} BlanksTrimmed(hop: string, pad: string)
    requires Entry(hop) && forall c | c in pad :: Blank(c)
    ensures TrimRight(hop + pad) == hop
  {
    if pad == "" {
      assert hop + pad == hop;
    } else {
      var front, last := pad[..|pad| - 1], pad[|pad| - 1];
      assert last in pad && (hop + pad)[..|hop + pad| - 1] == hop + front;
      BlanksTrimmed(hop, front);
    }
  }

  lemma EntryTrimmed(hop: string, pad: string)
    requires Entry(hop) && forall c | c in pad :: Blank(c)
    ensures TrimSpace(hop + pad) == hop
  {
    assert (hop + pad)[0] == hop[0] && !IsSpace(hop[0]);
    BlanksTrimmed(hop, pad);
    hide IsSpace, TrimRight;
  }

  lemma EntryAlone(hop: string, pad: string)
    requires Entry(hop) && forall c | c in pad :: Blank(c)
    ensures Hops(Split(hop + pad)) == [hop]
  {
    EntryTrimmed(hop, pad);
    assert hop != "" && forall c | c in hop + pad :: c in hop || c in pad;
    hide TrimSpace, Split;
    NoCommaOnePart(hop + pad);
    assert [hop + pad][1..] == [] && Hops([]) == [];
  }

  lemma OneLine(line: string)
    ensures ForwardedFor([line]) == Hops(Split(line))
  {
    assert [line][1..] == [];
  }

  lemma Regroup(hop: string, before: string, after: string, rest: string)
    ensures hop + (before + "," + after) + rest == (hop + before) + "," + (after + rest)
  {}

  lemma EntryFirst(hop: string, before: string, after: string, rest: string)
    requires Entry(hop) && (forall c | c in before :: Blank(c)) && forall c | c in after :: Blank(c)
    ensures ForwardedFor([hop + (before + "," + after) + rest]) == [hop] + ForwardedFor([rest])
  {
    EntryAlone(hop, before);
    PaddingTrimmed(after, rest);
    hide *;
    Regroup(hop, before, after, rest);
    OneLine(hop + (before + "," + after) + rest);
    OneLine(rest);
    SplitConcat(hop + before, after + rest);
    HopsConcat(Split(hop + before), Split(after + rest));
  }

  /** A list of hops written out with commas, and any blanks around them, is read back as it was. */
  lemma {:induction false} HopsReadBack(hops: seq<string>, before: string, after: string)
    requires (forall hop | hop in hops :: Entry(hop)) && forall c | c in before + after :: Blank(c)
    ensures ForwardedFor([Join(hops, before + "," + after)]) == hops
    decreases |hops|
  {
    if hops == [] {
      OneLine("");
      assert Split("") == [""] && Hops([""]) == [];
      return;
    }
    assert hops[0] in hops && forall c | c in before || c in after :: c in before + after;
    hide Split, Hops, ForwardedFor, TrimSpace;
    if |hops| == 1 {
      OneLine(hops[0]);
      EntryAlone(hops[0], "");
      assert hops[0] + "" == hops[0] && hops == [hops[0]];
    } else {
      HopsReadBack(hops[1..], before, after);
      EntryFirst(hops[0], before, after, Join(hops[1..], before + "," + after));
      assert hops == [hops[0]] + hops[1..];
    }
  }

  // ---- as the source writes it ---------------------------------------------------------------

  method IsTrusted<A>(res: Resolver<A>, addr: A) returns (yes: bool)
    ensures yes <==> exists i :: 0 <= i < |res.trusted| && res.trusted[i](addr)
  {
    for i := 0 to |res.trusted|
      invariant forall k | 0 <= k < i :: !res.trusted[k](addr)
    {
      if res.trusted[i](addr) {
        return true;
      }
    }
    return false;
  }

  method AppendHops(hops: seq<string>, value: string) returns (all: seq<string>)
    ensures all == hops + Hops(Split(value))
  {
    all := hops;
    var parts := Split(value);
    for j := 0 to |parts|
      invariant all + Hops(parts[j..]) == hops + Hops(parts)
    {
      assert parts[j..][1..] == parts[j + 1..];
      var hop := TrimSpace(parts[j]);
      if hop != "" {
        all := all + [hop];
      }
    }
  }

  lemma MoreHops(hops: seq<string>, lines: seq<string>)
    requires lines != []
    ensures hops + ForwardedFor(lines) == hops + Hops(Split(lines[0])) + ForwardedFor(lines[1..])
  {
    hide Split, Hops;
  }

  method CollectForwardedFor(lines: seq<string>) returns (hops: seq<string>)
    ensures hops == ForwardedFor(lines)
  {
    hops := [];
    ghost var rest := lines;
    assert ForwardedFor([]) == [];
    hide *;
    for i := 0 to |lines|
      invariant rest == lines[i..]
      invariant hops + ForwardedFor(rest) == ForwardedFor(lines)
    {
      MoreHops(hops, rest);
      hops := AppendHops(hops, lines[i]);
      rest := rest[1..];
    }
  }

  method Resolve<A>(res: Option<Resolver<A>>, peer: string, lines: seq<string>) returns (client: string)
    ensures client == Resolved(res, peer, ForwardedFor(lines))
    ensures Answers(res, peer, ForwardedFor(lines), client)
  {
    ResolvedAnswers(res, peer, ForwardedFor(lines));
    hide Answers, ForwardedFor;
    if res.None? || |res.value.trusted| == 0 {
      return peer;
    }
    var r := res.value;
    var addr := r.parse(peer);
    if addr.None? {
      return peer;
    }
    var yes := IsTrusted(r, addr.value);
    if !yes {
      return peer;
    }

    var hops := CollectForwardedFor(lines);
    client := peer;
    assert hops[..|hops|] == hops;
    var i := |hops| - 1;
    while i >= 0
      invariant -1 <= i < |hops|
      invariant Walk(r, hops, peer) == Walk(r, hops[..i + 1], client)
    {
      var hop := r.parse(hops[i]);
      assert hops[..i + 1][..i] == hops[..i];
      if hop.None? {
        return client;
      }
      client := r.render(hop.value);
      yes := IsTrusted(r, hop.value);
      if !yes {
        return client;
      }
      i := i - 1;
    }
    assert hops[..0] == [];
  }
}
