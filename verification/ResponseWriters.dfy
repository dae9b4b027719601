/** The stack of response writers the response_headers plugins build, the chain that builds it, and
    the headers that finally go out. */
module ResponseWriters {
  import opened ResponseHeaders
  import opened Wrappers

  /** What a handler does with the writer it was given. A protocol upgrade hijacks the connection
      through Unwrap, past every layer, and sends the headers it finds. */
  datatype Op = Edit(change: Headers -> Headers) | WriteHeader(code: int) | Write | Flush | Hijack

  /** The enclosing plugins, outermost first, above a server that commits the headers with the
      first of: a status in `commits`, a write, a flush. Every final status is in `commits`. */
  datatype Layers = Layers(t: Text, stack: seq<Config>, commits: int -> bool)

  ghost predicate Sound(l: Layers) {
    AllSettled(l.t, l.stack) && forall code :: code >= 200 ==> l.commits(code)
  }

  /** All writers share one header map; each layer remembers whether it has rewritten it. */
  datatype Wire = Wire(header: Headers, applied: seq<bool>, committed: Option<Headers>)

  ghost function ApplyOnce(l: Layers, s: Wire, i: nat): (s': Wire)
    requires Sound(l) && i < |l.stack| == |s.applied|
    ensures |s'.applied| == |s.applied|
  {
    if s.applied[i] then s
    else s.(applied := s.applied[i := true], header := Rewritten(l.t, l.stack[i], s.header))
  }

  /** A call on the writer inside `d` layers works its way out, each layer rewriting first. */
  ghost function Outward(l: Layers, s: Wire, d: nat): (s': Wire)
    requires Sound(l) && d <= |l.stack| == |s.applied|
    ensures |s'.applied| == |s.applied| && s'.committed == s.committed
    decreases d
  {
    if d == 0 then s else Outward(l, ApplyOnce(l, s, d - 1), d - 1)
  }

  function Commit(s: Wire): Wire {
    if s.committed.None? then s.(committed := Some(s.header)) else s
  }

  ghost function Do(l: Layers, s: Wire, d: nat, op: Op): (s': Wire)
    requires Sound(l) && d <= |l.stack| == |s.applied|
    ensures |s'.applied| == |s.applied|
  {
    match op
    case Edit(change) => s.(header := change(s.header))
    case WriteHeader(code) =>
      var s' := if code >= 200 then Outward(l, s, d) else s;
      if l.commits(code) then Commit(s') else s'
    case Write => Commit(Outward(l, s, d))
    case Flush => Commit(Outward(l, s, d))
    case Hijack => Commit(s)
  }

  /** Operations, each with the number of layers around the writer it was done on. */
  ghost predicate Within(l: Layers, ops: seq<(nat, Op)>) {
    forall k | 0 <= k < |ops| :: ops[k].0 <= |l.stack|
  }

  ghost function Run(l: Layers, s: Wire, ops: seq<(nat, Op)>): Wire
    requires Sound(l) && |l.stack| == |s.applied| && Within(l, ops)
    decreases |ops|
  {
    if ops == [] then s else Run(l, Do(l, s, ops[0].0, ops[0].1), ops[1..])
  }

  function Opened(l: Layers, h: Headers): Wire {
    Wire(h, seq(|l.stack|, _ => false), None)
  }

  // ---- what goes out ----------------------------------------------------------------

  /** The headers the client gets: those in place at the first operation that ends the head of the
      response, rewritten by exactly the plugins around the writer it was done on; untouched if the
      connection is hijacked or the server commits on an informational status first, or if nothing
      is ever written. */
  ghost function Outcome(l: Layers, ops: seq<(nat, Op)>, h: Headers): Headers
    requires Sound(l) && Within(l, ops)
    decreases |ops|
  {
    if ops == [] then h
    else
      var (d, op) := ops[0];
      match op
      case Edit(change) => Outcome(l, ops[1..], change(h))
      case WriteHeader(code) =>
        if code >= 200 then StackRewritten(l.t, l.stack[..d], h)
        else if l.commits(code) then h
        else Outcome(l, ops[1..], h)
      case Write => StackRewritten(l.t, l.stack[..d], h)
      case Flush => StackRewritten(l.t, l.stack[..d], h)
      case Hijack => h
  }

  lemma {:induction false} OutwardRewritesAll(l: Layers, s: Wire, d: nat)
    requires Sound(l) && d <= |l.stack| == |s.applied| && forall i | 0 <= i < d :: !s.applied[i]
    ensures AllSettled(l.t, l.stack[..d])
    ensures Outward(l, s, d).header == StackRewritten(l.t, l.stack[..d], s.header)
    decreases d
  {
    hide Settled, Rewritten;
    if d > 0 {
      assert l.stack[..d][..d - 1] == l.stack[..d - 1];
      OutwardRewritesAll(l, ApplyOnce(l, s, d - 1), d - 1);
    }
  }

  lemma {:induction false} CommittedStays(l: Layers, s: Wire, ops: seq<(nat, Op)>)
    requires Sound(l) && |l.stack| == |s.applied| && Within(l, ops) && s.committed.Some?
    ensures Run(l, s, ops).committed == s.committed
    decreases |ops|
  {
    if ops != [] {
      CommittedStays(l, Do(l, s, ops[0].0, ops[0].1), ops[1..]);
    }
  }

  lemma {:induction false} RunCommits(l: Layers, s: Wire, ops: seq<(nat, Op)>)
    requires Sound(l) && |l.stack| == |s.applied| && Within(l, ops)
    requires s.committed.None? && forall i | 0 <= i < |s.applied| :: !s.applied[i]
    ensures Commit(Run(l, s, ops)).committed == Some(Outcome(l, ops, s.header))
    decreases |ops|
  {
    hide AllSettled, Settled, Rewritten, StackRewritten, Outward;
    if ops != [] {
      var (d, op) := ops[0];
      assert ops[0].0 <= |l.stack|;
      var s' := Do(l, s, d, op);
      OutwardRewritesAll(l, s, d);
      if s'.committed.Some? {
        CommittedStays(l, s', ops[1..]);
      } else {
        RunCommits(l, s', ops[1..]);
      }
    }
  }

  /** Every response, whatever is written, flushed, edited and repeated on whichever writers, goes
      out with `Outcome`. The server commits whatever is there when the handler returns. */
  lemma ResponseGoesOut(l: Layers, ops: seq<(nat, Op)>, h: Headers)
    requires Sound(l) && Within(l, ops)
    ensures Commit(Run(l, Opened(l, h), ops)).committed == Some(Outcome(l, ops, h))
  {
    RunCommits(l, Opened(l, h), ops);
  }

  // ---- the chain -------------------------------------------------------------------------

  /** A plugin either wraps the writer, or works on the one it is given before and after passing
      the request on; it blocks by not passing it on. */
  datatype Plugin = Rewriter(config: Config) | Other(before: seq<Op>, passes: bool, after: seq<Op>)

  datatype Handler = Origin(ops: seq<Op>) | Wrapped(plugin: Plugin, next: Handler)

  function ChainOf(plugins: seq<Plugin>, final: Handler): Handler {
    if plugins == [] then final else Wrapped(plugins[0], ChainOf(plugins[1..], final))
  }

  /** Wraps from the last plugin to the first. */
  method Chain(plugins: seq<Plugin>, final: Handler) returns (h: Handler)
    ensures h == ChainOf(plugins, final)
  {
    h := final;
    var i := |plugins| - 1;
    while i >= 0
      invariant -1 <= i < |plugins|
      invariant h == ChainOf(plugins[i + 1..], final)
    {
      h := Wrapped(plugins[i], h);
      assert plugins[i..][1..] == plugins[i + 1..];
      i := i - 1;
    }
    assert plugins[0..] == plugins;
  }

  function At(d: nat, ops: seq<Op>): seq<(nat, Op)> {
    seq(|ops|, k requires 0 <= k < |ops| => (d, ops[k]))
  }

  /** What the handlers do, in order, when the outermost is given the writer inside `d` layers. */
  function Trace(h: Handler, d: nat): seq<(nat, Op)> {
    match h
    case Origin(ops) => At(d, ops)
    case Wrapped(Rewriter(_), next) => Trace(next, d + 1)
    case Wrapped(Other(before, passes, after), next) =>
      At(d, before) + (if passes then Trace(next, d) else []) + At(d, after)
  }

  function Rewriters(plugins: seq<Plugin>): seq<Config> {
    if plugins == [] then []
    else (if plugins[0].Rewriter? then [plugins[0].config] else []) + Rewriters(plugins[1..])
  }

  // ---- what a chain replies ----------------------------------------------------------------

  /** Headers not yet sent; sent by an answer; or sent past the writers around it. */
  datatype Head = Open(header: Headers) | Ended(header: Headers) | Bare(header: Headers)

  function HeadOf(commits: int -> bool, ops: seq<Op>, h: Headers): Head {
    if ops == [] then Open(h)
    else
      match ops[0]
      case Edit(change) => HeadOf(commits, ops[1..], change(h))
      case WriteHeader(code) =>
        if code >= 200 then Ended(h) else if commits(code) then Bare(h) else HeadOf(commits, ops[1..], h)
      case Hijack => Bare(h)
      case _ => Ended(h)
  }

  function RewritersIn(handler: Handler): seq<Config> {
    match handler
    case Origin(_) => []
    case Wrapped(Rewriter(c), next) => [c] + RewritersIn(next)
    case Wrapped(_, next) => RewritersIn(next)
  }

  /** What a handler replies, one plugin at a time, with no writers: a response_headers plugin
      rewrites what is answered inside it and nothing else; any other plugin edits or answers
      before it passes the request on, and gets another go afterwards. */
  ghost function Reply(t: Text, commits: int -> bool, handler: Handler, h: Headers): Head
    requires AllSettled(t, RewritersIn(handler))
  {
    match handler
    case Origin(ops) => HeadOf(commits, ops, h)
    case Wrapped(Rewriter(c), next) =>
      assert RewritersIn(handler)[0] == c && RewritersIn(handler)[1..] == RewritersIn(next);
      var inner := Reply(t, commits, next, h);
      if inner.Ended? then Ended(Rewritten(t, c, inner.header)) else inner
    case Wrapped(Other(before, passes, after), next) =>
      var first := HeadOf(commits, before, h);
      var inner := if first.Open? && passes then Reply(t, commits, next, first.header) else first;
      if inner.Open? then HeadOf(commits, after, inner.header) else inner
  }

  /** What goes out when `head` is what the writer inside `d` layers has seen, and `rest` follows. */
  ghost function Sent(l: Layers, d: nat, head: Head, rest: seq<(nat, Op)>): Headers
    requires Sound(l) && d <= |l.stack| && Within(l, rest)
  {
    match head
    case Open(h) => Outcome(l, rest, h)
    case Ended(h) => StackRewritten(l.t, l.stack[..d], h)
    case Bare(h) => h
  }

  lemma {:induction false} OpsSent(l: Layers, d: nat, ops: seq<Op>, rest: seq<(nat, Op)>, h: Headers)
    requires Sound(l) && d <= |l.stack| && Within(l, rest)
    ensures Within(l, At(d, ops) + rest)
    ensures Outcome(l, At(d, ops) + rest, h) == Sent(l, d, HeadOf(l.commits, ops, h), rest)
    decreases |ops|
  {
    var all := At(d, ops) + rest;
    if ops == [] {
      assert all == rest;
    } else {
      assert all[0] == (d, ops[0]);
      assert all[1..] == At(d, ops[1..]) + rest;
      match ops[0]
      case Edit(change) => OpsSent(l, d, ops[1..], rest, change(h));
      case _ => OpsSent(l, d, ops[1..], rest, h);
    }
  }

  lemma LayerSent(l: Layers, d: nat, inner: Head, rest: seq<(nat, Op)>)
    requires Sound(l) && d < |l.stack| && Within(l, rest)
    ensures Sent(l, d + 1, inner, rest) ==
            Sent(l, d, if inner.Ended? then Ended(Rewritten(l.t, l.stack[d], inner.header)) else inner, rest)
  {
    assert AllSettled(l.t, l.stack[..d + 1]);
    if inner.Ended? {
      InnermostIsFirst(l.t, l.stack[..d + 1], inner.header);
      assert l.stack[..d + 1][..d] == l.stack[..d];
    }
    hide StackRewritten, Rewritten, Settled, AllSettled, Outcome;
  }

  /** The writers send what the handler replies, through the layers around it. */
  lemma {:induction false} TraceSent(l: Layers, d: nat, handler: Handler, rest: seq<(nat, Op)>, h: Headers)
    requires Sound(l) && d <= |l.stack| && Within(l, rest) && l.stack[d..] == RewritersIn(handler)
    ensures Within(l, Trace(handler, d) + rest) && AllSettled(l.t, RewritersIn(handler))
    ensures Outcome(l, Trace(handler, d) + rest, h) == Sent(l, d, Reply(l.t, l.commits, handler, h), rest)
    decreases handler
  {
    hide Outcome, HeadOf, StackRewritten, Rewritten, Settled, At;
    match handler
    case Origin(ops) => OpsSent(l, d, ops, rest, h);
    case Wrapped(Rewriter(c), next) =>
      assert l.stack[d + 1..] == RewritersIn(handler)[1..] == RewritersIn(next);
      assert l.stack[d] == RewritersIn(handler)[0] == c;
      TraceSent(l, d + 1, next, rest, h);
      LayerSent(l, d, Reply(l.t, l.commits, next, h), rest);
    case Wrapped(Other(before, passes, after), next) =>
      var first := HeadOf(l.commits, before, h);
      var last := At(d, after) + rest;
      OpsSent(l, d, after, rest, first.header);
      if passes {
        TraceSent(l, d, next, last, first.header);
        OpsSent(l, d, before, Trace(next, d) + last, h);
        OpsSent(l, d, after, rest, Reply(l.t, l.commits, next, first.header).header);
        assert Trace(handler, d) + rest == At(d, before) + (Trace(next, d) + last);
      } else {
        OpsSent(l, d, before, last, h);
        assert Trace(handler, d) + rest == At(d, before) + last;
      }
  }

  lemma {:induction false} RewritersOfChain(plugins: seq<Plugin>, ops: seq<Op>)
    ensures RewritersIn(ChainOf(plugins, Origin(ops))) == Rewriters(plugins)
  {
    if plugins != [] {
      RewritersOfChain(plugins[1..], ops);
    }
  }

  /** Any chain of plugins around any origin, whatever they write, flush, edit, hijack and repeat:
      what goes out is what the chain replies. */
  lemma ChainReplies(l: Layers, plugins: seq<Plugin>, ops: seq<Op>, h: Headers)
    requires l.stack == Rewriters(plugins) && Sound(l)
    ensures var chain := ChainOf(plugins, Origin(ops));
      && AllSettled(l.t, RewritersIn(chain)) && Within(l, Trace(chain, 0))
      && Commit(Run(l, Opened(l, h), Trace(chain, 0))).committed == Some(Reply(l.t, l.commits, chain, h).header)
  {
    var chain := ChainOf(plugins, Origin(ops));
    RewritersOfChain(plugins, ops);
    assert l.stack[0..] == l.stack && l.stack[..0] == [];
    TraceSent(l, 0, chain, [], h);
    assert Trace(chain, 0) + [] == Trace(chain, 0);
    ResponseGoesOut(l, Trace(chain, 0), h);
  }

  // ---- answers, with and without the plugins' headers -------------------------------------------

  predicate StaysOpen(commits: int -> bool, op: Op) {
    op.Edit? || (op.WriteHeader? && op.code < 200 && !commits(op.code))
  }

  /** Operations that leave the head of the response open. */
  predicate LeavesOpen(commits: int -> bool, ops: seq<Op>) {
    forall i | 0 <= i < |ops| :: StaysOpen(commits, ops[i])
  }

  lemma {:induction false} OpenIff(commits: int -> bool, ops: seq<Op>, h: Headers)
    ensures HeadOf(commits, ops, h).Open? <==> LeavesOpen(commits, ops)
    decreases |ops|
  {
    if ops != [] {
      OpenIff(commits, ops[1..], if ops[0].Edit? then ops[0].change(h) else h);
      assert LeavesOpen(commits, ops) <==> StaysOpen(commits, ops[0]) && LeavesOpen(commits, ops[1..]) by {
        assert forall i | 0 < i < |ops| :: ops[i] == ops[1..][i - 1];
      }
    }
  }

  /** Plugins that pass the request on without having answered it. */
  ghost predicate PassOn(commits: int -> bool, plugins: seq<Plugin>) {
    forall i | 0 <= i < |plugins| && plugins[i].Other? :: plugins[i].passes && LeavesOpen(commits, plugins[i].before)
  }

  /** Plugins that answer nothing when the request comes back. */
  ghost predicate QuietAfter(commits: int -> bool, plugins: seq<Plugin>) {
    forall i | 0 <= i < |plugins| && plugins[i].Other? :: LeavesOpen(commits, plugins[i].after)
  }

  /** The headers after the plugins' edits on the way in, outermost first. */
  function EditedBy(commits: int -> bool, plugins: seq<Plugin>, h: Headers): Headers {
    if plugins == [] then h
    else
      EditedBy(commits, plugins[1..], if plugins[0].Rewriter? then h else HeadOf(commits, plugins[0].before, h).header)
  }

  /** The headers after their edits on the way out, innermost first. */
  function EditedAfter(commits: int -> bool, plugins: seq<Plugin>, h: Headers): Headers {
    if plugins == [] then h
    else
      var inner := EditedAfter(commits, plugins[1..], h);
      if plugins[0].Rewriter? then inner else HeadOf(commits, plugins[0].after, inner).header
  }

  lemma {:induction false} PassedReply(t: Text, commits: int -> bool, outer: seq<Plugin>, inner: Handler, h: Headers)
    requires PassOn(commits, outer) && AllSettled(t, RewritersIn(ChainOf(outer, inner)))
    ensures AllSettled(t, RewritersIn(inner)) && AllSettled(t, Rewriters(outer))
    ensures var reply := Reply(t, commits, inner, EditedBy(commits, outer, h));
      var whole := Reply(t, commits, ChainOf(outer, inner), h);
      && (reply.Bare? ==> whole == reply)
      && (reply.Ended? ==> whole == Ended(StackRewritten(t, Rewriters(outer), reply.header)))
      && (reply.Open? && QuietAfter(commits, outer) ==> whole == Open(EditedAfter(commits, outer, reply.header)))
    decreases |outer|
  {
    hide HeadOf, StackRewritten, Rewritten, Settled;
    if outer == [] {
      StackOfNone(t, Reply(t, commits, inner, h).header);
    } else {
      var next := ChainOf(outer[1..], inner);
      if outer[0].Rewriter? {
        var c := outer[0].config;
        var all := RewritersIn(ChainOf(outer, inner));
        assert all[0] == c && all[1..] == RewritersIn(next);
        assert Rewriters(outer)[0] == c && Rewriters(outer)[1..] == Rewriters(outer[1..]);
        PassedReply(t, commits, outer[1..], inner, h);
        OutermostIsLast(t, Rewriters(outer), Reply(t, commits, inner, EditedBy(commits, outer, h)).header);
      } else {
        var h' := HeadOf(commits, outer[0].before, h).header;
        assert Rewriters(outer) == Rewriters(outer[1..]);
        OpenIff(commits, outer[0].before, h);
        PassedReply(t, commits, outer[1..], inner, h');
        OpenIff(commits, outer[0].after, Reply(t, commits, next, h').header);
      }
    }
  }

  lemma StackOfNone(t: Text, h: Headers)
    ensures AllSettled(t, []) && StackRewritten(t, [], h) == h
  {}

  lemma {:induction false} ChainConcat(outer: seq<Plugin>, inner: seq<Plugin>, final: Handler)
    ensures ChainOf(outer + inner, final) == ChainOf(outer, ChainOf(inner, final))
  {
    if outer == [] {
      assert outer + inner == inner;
    } else {
      assert (outer + inner)[1..] == outer[1..] + inner;
      ChainConcat(outer[1..], inner, final);
    }
  }

  /** The origin's answer, behind plugins that edit headers and pass on: rewritten exactly once by
      every response_headers plugin, innermost first, whatever plugins do when it comes back. */
  lemma OriginResponseRewritten(l: Layers, plugins: seq<Plugin>, ops: seq<Op>, h: Headers)
    requires l.stack == Rewriters(plugins) && Sound(l) && PassOn(l.commits, plugins)
    requires HeadOf(l.commits, ops, EditedBy(l.commits, plugins, h)).Ended?
    ensures var trace := Trace(ChainOf(plugins, Origin(ops)), 0);
      var head := HeadOf(l.commits, ops, EditedBy(l.commits, plugins, h));
      && Within(l, trace)
      && Commit(Run(l, Opened(l, h), trace)).committed == Some(StackRewritten(l.t, l.stack, head.header))
  {
    ChainReplies(l, plugins, ops, h);
    PassedReply(l.t, l.commits, plugins, Origin(ops), h);
  }

  /** And if the origin does not answer it, because it writes nothing, upgrades the connection or
      lets the server commit on an informational status, then it goes out with the edits made on the
      way in and back, and with no response_headers plugin's rewriting at all. */
  lemma UnansweredResponseBare(l: Layers, plugins: seq<Plugin>, ops: seq<Op>, h: Headers)
    requires l.stack == Rewriters(plugins) && Sound(l)
    requires PassOn(l.commits, plugins) && QuietAfter(l.commits, plugins)
    requires !HeadOf(l.commits, ops, EditedBy(l.commits, plugins, h)).Ended?
    ensures var trace := Trace(ChainOf(plugins, Origin(ops)), 0);
      var head := HeadOf(l.commits, ops, EditedBy(l.commits, plugins, h));
      && Within(l, trace)
      && Commit(Run(l, Opened(l, h), trace)).committed ==
         Some(if head.Bare? then head.header else EditedAfter(l.commits, plugins, head.header))
  {
    ChainReplies(l, plugins, ops, h);
    PassedReply(l.t, l.commits, plugins, Origin(ops), h);
  }

  /** The answer of a plugin that blocks: rewritten exactly once by each response_headers plugin
      declared before it, innermost first, and by none declared after. */
  lemma BlockedResponseRewritten(l: Layers, outer: seq<Plugin>, answer: seq<Op>, inner: seq<Plugin>,
                                 ops: seq<Op>, h: Headers)
    requires l.stack == Rewriters(outer + [Other(answer, false, [])] + inner) && Sound(l)
    requires PassOn(l.commits, outer)
    ensures var trace := Trace(ChainOf(outer + [Other(answer, false, [])] + inner, Origin(ops)), 0);
      var head := HeadOf(l.commits, answer, EditedBy(l.commits, outer, h));
      && AllSettled(l.t, Rewriters(outer)) && Within(l, trace)
      && (head.Ended? ==>
            Commit(Run(l, Opened(l, h), trace)).committed == Some(StackRewritten(l.t, Rewriters(outer), head.header)))
      && (head.Bare? ==> Commit(Run(l, Opened(l, h), trace)).committed == Some(head.header))
  {
    var blocker := Other(answer, false, []);
    assert outer + [blocker] + inner == outer + ([blocker] + inner);
    ChainConcat(outer, [blocker] + inner, Origin(ops));
    ChainReplies(l, outer + [blocker] + inner, ops, h);
    assert ([blocker] + inner)[0] == blocker && ([blocker] + inner)[1..] == inner;
    PassedReply(l.t, l.commits, outer, Wrapped(blocker, ChainOf(inner, Origin(ops))), h);
  }

  /** The first declared plugin wins: whatever is answered inside it, by any plugin or the origin,
      goes out with the header it always sets, unless a rule of its own sets it too. */
  lemma FirstDeclaredWins(l: Layers, c: Config, rest: seq<Plugin>, ops: seq<Op>, h: Headers, k: string)
    requires l.stack == Rewriters([Rewriter(c)] + rest) && Sound(l) && k in c.headers
    requires forall i, k' | 0 <= i < |c.rules| && k' in c.rules[i].headers :: l.t.canon(k') != l.t.canon(k)
    ensures AllSettled(l.t, RewritersIn(ChainOf(rest, Origin(ops))))
    ensures var trace := Trace(ChainOf([Rewriter(c)] + rest, Origin(ops)), 0);
      && Within(l, trace)
      && (Reply(l.t, l.commits, ChainOf(rest, Origin(ops)), h).Ended? ==>
            var sent := Commit(Run(l, Opened(l, h), trace)).committed.value;
            l.t.canon(k) in sent && sent[l.t.canon(k)] == [c.headers[k]])
  {
    var plugins := [Rewriter(c)] + rest;
    assert plugins[0] == Rewriter(c) && plugins[1..] == rest;
    ChainReplies(l, plugins, ops, h);
    var chain, inner := ChainOf(plugins, Origin(ops)), ChainOf(rest, Origin(ops));
    assert chain == Wrapped(Rewriter(c), inner);
    assert RewritersIn(chain)[0] == c && RewritersIn(chain)[1..] == RewritersIn(inner);
    var reply := Reply(l.t, l.commits, inner, h);
    RewrittenSets(l.t, c, reply.header, k);
  }

  // ---- as the source writes it -----------------------------------------------------------------

  /** One response and the writers around it; the writer inside `d` layers is named by `d`. */
  class Response {
    const t: Text
    const stack: seq<Config>
    const commits: int -> bool
    var header: Headers
    var applied: seq<bool>
    var committed: Option<Headers>

    ghost function Value(): Wire
      reads this
    {
      Wire(header, applied, committed)
    }

    ghost function Around(): Layers {
      Layers(t, stack, commits)
    }

    ghost predicate Valid()
      reads this
    {
      Sound(Around()) && |applied| == |stack|
    }

    constructor (t: Text, stack: seq<Config>, commits: int -> bool, header: Headers)
      requires Sound(Layers(t, stack, commits))
      ensures Valid() && Around() == Layers(t, stack, commits) && Value() == Opened(Around(), header)
    {
      this.t, this.stack, this.commits := t, stack, commits;
      this.header, this.applied, this.committed := header, seq(|stack|, _ => false), None;
    }

    /** Ranges over the map in whatever order it comes. */
    method SetEach(m: map<string, string>)
      modifies this`header
      ensures SetInSomeOrder(t, m, old(header), header)
      ensures Coherent(t, m) ==> header == Overlay(t, old(header), m)
    {
      var pending := m.Keys;
      ghost var order: seq<string> := [];
      while pending != {}
        invariant pending <= m.Keys
        invariant forall k :: k in order <==> k in m && k !in pending
        invariant forall i, j | 0 <= i < j < |order| :: order[i] != order[j]
        invariant header == SetAll(t, old(header), m, order)
        decreases |pending|
      {
        var k :| k in pending;
        header := header[t.canon(k) := [m[k]]];
        assert (order + [k])[..|order|] == order;
        order := order + [k];
        pending := pending - {k};
      }
      assert IsOrder(order, m);
      if Coherent(t, m) {
        OrderedIsOverlay(t, old(header), m, order);
      }
    }

    method Apply(c: Config)
      modifies this`header
      ensures AppliedInSomeOrder(t, c, old(header), header)
      ensures Settled(t, c) ==> header == Rewritten(t, c, old(header))
      ensures Settled(t, c) ==> forall v | SeesType(t, c, old(header), v) :: Takes(t, c, old(header), v, header)
    {
      hide Overlay, SetAll, IsOrder, Coherent, SeesType, Takes, SetInSomeOrder;
      SetEach(c.headers);
      ghost var plain := header;
      assert SetInSomeOrder(t, c.headers, old(header), plain);
      if |c.rules| == 0 {
        if Settled(t, c) {
          RewrittenTakesAny(t, c, old(header));
        }
        return;
      }
      var contentType := t.lower(Get(t, header, CONTENT_TYPE));
      for i := 0 to |c.rules|
        invariant RulesInSomeOrder(t, c.rules[..i], contentType, plain, header)
        invariant Settled(t, c) ==>
          RulesApplied(t, c.rules[i..], contentType, header) == RulesApplied(t, c.rules, contentType, plain)
      {
        assert c.rules[i..][1..] == c.rules[i + 1..];
        ghost var before := header;
        if c.rules[i].contentType <= contentType {
          SetEach(c.rules[i].headers);
        }
        OneRuleMore(t, c.rules, i, contentType, plain, before, header);
      }
      assert c.rules[..|c.rules|] == c.rules;
      if Settled(t, c) {
        RewrittenTakesAny(t, c, old(header));
      }
    }

    method ApplyOnceAt(i: nat)
      requires Valid() && i < |stack|
      modifies this`header, this`applied
      ensures Valid() && Value() == ApplyOnce(Around(), old(Value()), i)
      ensures applied == old(applied)[i := true] && (old(applied[i]) ==> header == old(header))
    {
      hide Rewritten, Settled, SeesType, Takes, AppliedInSomeOrder;
      if applied[i] {
        return;
      }
      applied := applied[i := true];
      Apply(stack[i]);
    }

    method WriteHeaderAt(d: nat, code: int)
      requires Valid() && d <= |stack|
      modifies this
      ensures Valid() && Value() == Do(Around(), old(Value()), d, WriteHeader(code))
      ensures code < 200 ==> header == old(header) && applied == old(applied)
      ensures code >= 200 ==> committed.Some? && forall i | 0 <= i < |stack| :: applied[i] == (i < d || old(applied[i]))
      decreases d
    {
      hide Rewritten, Settled;
      if d == 0 {
        if commits(code) && committed.None? {
          committed := Some(header);
        }
        return;
      }
      if code >= 200 {
        ApplyOnceAt(d - 1);
      }
      WriteHeaderAt(d - 1, code);
    }

    method WriteAt(d: nat)
      requires Valid() && d <= |stack|
      modifies this
      ensures Valid() && Value() == Do(Around(), old(Value()), d, Write)
      ensures committed.Some? && forall i | 0 <= i < |stack| :: applied[i] == (i < d || old(applied[i]))
      decreases d
    {
      hide Rewritten, Settled;
      if d == 0 {
        if committed.None? {
          committed := Some(header);
        }
        return;
      }
      ApplyOnceAt(d - 1);
      WriteAt(d - 1);
    }

    method FlushAt(d: nat)
      requires Valid() && d <= |stack|
      modifies this
      ensures Valid() && Value() == Do(Around(), old(Value()), d, Flush)
      ensures committed.Some? && forall i | 0 <= i < |stack| :: applied[i] == (i < d || old(applied[i]))
      decreases d
    {
      hide Rewritten, Settled;
      if d == 0 {
        if committed.None? {
          committed := Some(header);
        }
        return;
      }
      ApplyOnceAt(d - 1);
      FlushAt(d - 1);
    }

    /** Unwrap hands out the writer inside the layer; none of them rewrites. */
    method HijackAt(d: nat)
      requires Valid() && d <= |stack|
      modifies this
      ensures Valid() && Value() == Do(Around(), old(Value()), d, Hijack)
      ensures committed.Some? && header == old(header) && applied == old(applied)
      decreases d
    {
      if d > 0 {
        HijackAt(d - 1);
      } else if committed.None? {
        committed := Some(header);
      }
    }
  }
}
