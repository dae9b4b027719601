/** The hot-reload protocol shared by the config watcher (one file) and the certificate reloader
    (two): stat every file, load every file, apply, record the stamps. Files are rewritten between
    any two of these steps. A stamp is what the poller compares: modification time and size for the
    config file, modification time alone for certificate files. */
module Reload {

  datatype File<S, C> = Missing | Present(stamp: S, content: C)

  datatype Poll<S, C> = Idle | Statting(seen: seq<S>) | Loading(seen: seq<S>, read: seq<C>) | Applied(seen: seq<S>)

  /** `used` are the stamps each file has carried so far, and the zero stamp. */
  datatype Machine<S, C> = Machine(
    files: seq<File<S, C>>, used: seq<set<S>>, recorded: seq<S>, active: seq<C>, poll: Poll<S, C>)

  datatype Event<S, C> = Write(i: nat, file: File<S, C>) | Begin | Stat | Compare | Read | Apply(valid: bool) | Record

  /** Events that cannot happen in `m` change nothing. Failures go back to Idle. */
  function Next<S(==), C>(m: Machine<S, C>, e: Event<S, C>): Machine<S, C> {
    match (e, m.poll)
    case (Write(i, f), _) =>
      if i >= |m.files| || i >= |m.used| then m
      else m.(files := m.files[i := f],
              used := if f.Present? then m.used[i := m.used[i] + {f.stamp}] else m.used)
    case (Begin, Idle) => m.(poll := Statting([]))
    case (Stat, Statting(seen)) =>
      if |seen| >= |m.files| then m
      else if m.files[|seen|].Missing? then m.(poll := Idle)
      else m.(poll := Statting(seen + [m.files[|seen|].stamp]))
    case (Compare, Statting(seen)) =>
      if |seen| < |m.files| then m
      else if seen == m.recorded then m.(poll := Idle)
      else m.(poll := Loading(seen, []))
    case (Read, Loading(seen, read)) =>
      if |read| >= |m.files| then m
      else if m.files[|read|].Missing? then m.(poll := Idle)
      else m.(poll := Loading(seen, read + [m.files[|read|].content]))
    case (Apply(valid), Loading(seen, read)) =>
      if |read| < |m.files| then m
      else if valid then m.(active := read, poll := Applied(seen))
      else m.(poll := Idle)
    case (Record, Applied(seen)) => m.(recorded := seen, poll := Idle)
    case _ => m
  }

  function Run<S(==), C>(m: Machine<S, C>, events: seq<Event<S, C>>): Machine<S, C>
    decreases |events|
  {
    if events == [] then m else Run(Next(m, events[0]), events[1..])
  }

  /** Every write gives the file a stamp it never had. */
  ghost predicate FreshRun<S, C>(m: Machine<S, C>, events: seq<Event<S, C>>)
    decreases |events|
  {
    events == [] ||
    ((events[0].Write? && events[0].i < |m.used| && events[0].file.Present? ==>
        events[0].file.stamp !in m.used[events[0].i])
     && FreshRun(Next(m, events[0]), events[1..]))
  }

  // ---- agreement ---------------------------------------------------------------

  predicate Matches<S(==), C>(f: File<S, C>, stamp: S) {
    f.Present? && f.stamp == stamp
  }

  /** If the recorded stamps are the files' stamps, what is active is what the files hold. */
  ghost predicate Agreement<S, C>(m: Machine<S, C>) {
    && |m.recorded| == |m.active| == |m.files|
    && ((forall i | 0 <= i < |m.files| :: Matches(m.files[i], m.recorded[i])) ==>
        forall i | 0 <= i < |m.files| :: m.files[i].content == m.active[i])
  }

  /** While a poll is under way, some file is known not to be the recorded one. */
  ghost predicate KnownStale<S, C>(m: Machine<S, C>)
    requires |m.recorded| == |m.files|
  {
    exists i :: 0 <= i < |m.files| && !Matches(m.files[i], m.recorded[i])
  }

  ghost predicate SeenOf<S, C>(m: Machine<S, C>, seen: seq<S>)
    requires |m.used| == |m.recorded| == |m.files|
  {
    && |seen| <= |m.files|
    && (forall i | 0 <= i < |seen| :: seen[i] in m.used[i])
    && (forall i | 0 <= i < |seen| && seen[i] != m.recorded[i] :: !Matches(m.files[i], m.recorded[i]))
  }

  /** What was read of a file is current as long as the file still has the stamp it was seen with. */
  ghost predicate ReadOf<S, C>(m: Machine<S, C>, seen: seq<S>, read: seq<C>) {
    && |read| <= |seen| <= |m.files|
    && forall i | 0 <= i < |read| && Matches(m.files[i], seen[i]) :: m.files[i].content == read[i]
  }

  ghost predicate Shaped<S, C>(m: Machine<S, C>) {
    && |m.used| == |m.recorded| == |m.active| == |m.files|
    && (forall i | 0 <= i < |m.files| :: m.recorded[i] in m.used[i])
    && (forall i | 0 <= i < |m.files| && m.files[i].Present? :: m.files[i].stamp in m.used[i])
  }

  ghost predicate Inv<S, C>(m: Machine<S, C>) {
    && Shaped(m)
    && match m.poll
       case Idle => Agreement(m)
       case Statting(seen) => Agreement(m) && SeenOf(m, seen)
       case Loading(seen, read) =>
         && Agreement(m) && SeenOf(m, seen) && |seen| == |m.files| && KnownStale(m) && ReadOf(m, seen, read)
       case Applied(seen) =>
         && SeenOf(m, seen) && |seen| == |m.files| && KnownStale(m) && ReadOf(m, seen, m.active)
  }

  lemma WriteKeepsInv<S, C>(m: Machine<S, C>, e: Event<S, C>)
    requires Inv(m) && e.Write?
    requires e.i < |m.used| && e.file.Present? ==> e.file.stamp !in m.used[e.i]
    ensures Inv(Next(m, e))
  {
    var m' := Next(m, e);
    if e.i < |m.files| {
      if KnownStale(m) {
        var i :| 0 <= i < |m.files| && !Matches(m.files[i], m.recorded[i]);
        assert !Matches(m'.files[i], m'.recorded[i]);
      }
      assert !Matches(m'.files[e.i], m'.recorded[e.i]);
    }
  }

  lemma CompareKeepsInv<S, C>(m: Machine<S, C>)
    requires Inv(m)
    ensures Inv(Next(m, Compare))
  {
    if m.poll.Statting? && |m.poll.seen| == |m.files| && m.poll.seen != m.recorded {
      var i :| 0 <= i < |m.files| && m.poll.seen[i] != m.recorded[i];
      assert !Matches(m.files[i], m.recorded[i]);
    }
  }

  lemma StatKeepsInv<S, C>(m: Machine<S, C>)
    requires Inv(m)
    ensures Inv(Next(m, Stat))
  {}

  lemma ReadKeepsInv<S, C>(m: Machine<S, C>)
    requires Inv(m)
    ensures Inv(Next(m, Read))
  {}

  lemma ApplyKeepsInv<S, C>(m: Machine<S, C>, valid: bool)
    requires Inv(m)
    ensures Inv(Next(m, Apply(valid)))
  {}

  lemma RecordKeepsInv<S, C>(m: Machine<S, C>)
    requires Inv(m)
    ensures Inv(Next(m, Record))
  {}

  lemma NextKeepsInv<S, C>(m: Machine<S, C>, e: Event<S, C>)
    requires Inv(m)
    requires e.Write? && e.i < |m.used| && e.file.Present? ==> e.file.stamp !in m.used[e.i]
    ensures Inv(Next(m, e))
  {
    match e
    case Write(_, _) => WriteKeepsInv(m, e);
    case Begin =>
    case Stat => StatKeepsInv(m);
    case Compare => CompareKeepsInv(m);
    case Read => ReadKeepsInv(m);
    case Apply(valid) => ApplyKeepsInv(m, valid);
    case Record => RecordKeepsInv(m);
  }

  lemma {:induction false} RunKeepsInv<S, C>(m: Machine<S, C>, events: seq<Event<S, C>>)
    requires Inv(m) && FreshRun(m, events)
    ensures Inv(Run(m, events))
    decreases |events|
  {
    if events != [] {
      NextKeepsInv(m, events[0]);
      RunKeepsInv(Next(m, events[0]), events[1..]);
    }
  }

  lemma InvAgrees<S, C>(m: Machine<S, C>)
    requires Inv(m)
    ensures Agreement(m)
  {}

  // ---- from the start ------------------------------------------------------------

  function Stamps<S, C>(files: seq<File<S, C>>): (stamps: seq<S>)
    requires forall f | f in files :: f.Present?
    ensures |stamps| == |files| && forall i | 0 <= i < |files| :: stamps[i] == files[i].stamp
  {
    seq(|files|, i requires 0 <= i < |files| => files[i].stamp)
  }

  function Contents<S, C>(files: seq<File<S, C>>): (contents: seq<C>)
    requires forall f | f in files :: f.Present?
    ensures |contents| == |files| && forall i | 0 <= i < |files| :: contents[i] == files[i].content
  {
    seq(|files|, i requires 0 <= i < |files| => files[i].content)
  }

  /** The constructors load first and stat afterwards: `loaded` is active, `files` are there at the
      stat. A stat that fails records the zero stamp. */
  function Boot<S(==), C>(loaded: seq<C>, files: seq<File<S, C>>, used: seq<set<S>>, zero: S): Machine<S, C> {
    Machine(files, used,
            seq(|files|, i requires 0 <= i < |files| => if files[i].Present? then files[i].stamp else zero),
            loaded, Idle)
  }

  ghost predicate Bootable<S, C>(loaded: seq<C>, files: seq<File<S, C>>, used: seq<set<S>>, zero: S) {
    && |loaded| == |files| == |used|
    && forall i | 0 <= i < |files| :: zero in used[i] && (files[i].Present? ==> files[i].stamp in used[i])
  }

  /** Hot reload agrees in every run from a start with all files in place if and only if the files
      were not changed between the constructor's load and its stat. */
  lemma AgreesFromStartIff<S(!new), C(!new)>(loaded: seq<C>, files: seq<File<S, C>>, used: seq<set<S>>, zero: S)
    requires Bootable(loaded, files, used, zero) && forall f | f in files :: f.Present?
    ensures loaded == Contents(files) <==>
            forall events | FreshRun(Boot(loaded, files, used, zero), events) ::
              Agreement(Run(Boot(loaded, files, used, zero), events))
  {
    var m := Boot(loaded, files, used, zero);
    if loaded == Contents(files) {
      forall events | FreshRun(m, events) ensures Agreement(Run(m, events)) {
        RunKeepsInv(m, events);
        InvAgrees(Run(m, events));
      }
    } else {
      var none: seq<Event<S, C>> := [];
      assert FreshRun(m, none) && Run(m, none) == m;
      assert forall i | 0 <= i < |files| :: Matches(m.files[i], m.recorded[i]);
      var i :| 0 <= i < |files| && loaded[i] != Contents(files)[i];
      assert !Agreement(Run(m, none));
    }
  }

  /** A file missing at the constructor's stat does no harm: agreement still holds in every run. */
  lemma AgreesFromMissing<S, C>(loaded: seq<C>, files: seq<File<S, C>>, used: seq<set<S>>, zero: S,
                                events: seq<Event<S, C>>)
    requires Bootable(loaded, files, used, zero) && exists f :: f in files && f.Missing?
    requires FreshRun(Boot(loaded, files, used, zero), events)
    ensures Agreement(Run(Boot(loaded, files, used, zero), events))
  {
    var m := Boot(loaded, files, used, zero);
    var i :| 0 <= i < |files| && files[i].Missing?;
    assert !Matches(m.files[i], m.recorded[i]);
    RunKeepsInv(m, events);
    InvAgrees(Run(m, events));
  }

  ghost predicate Unmoved<S(!new), C(!new)>(m: Machine<S, C>, loaded: seq<C>, files: seq<File<S, C>>) {
    && m.files == files && m.active == loaded && |m.recorded| == |files|
    && (forall i | 0 <= i < |files| :: Matches(files[i], m.recorded[i]))
    && (m.poll.Idle? || (m.poll.Statting? && |m.poll.seen| <= |files|
          && forall i | 0 <= i < |m.poll.seen| :: m.poll.seen[i] == m.recorded[i]))
  }

  lemma {:induction false} StaysUnmoved<S(!new), C(!new)>(m: Machine<S, C>, loaded: seq<C>,
                                                          files: seq<File<S, C>>, events: seq<Event<S, C>>)
    requires Unmoved(m, loaded, files) && forall e | e in events :: !e.Write?
    ensures Unmoved(Run(m, events), loaded, files) && Run(m, events).used == m.used
    decreases |events|
  {
    if events != [] {
      assert events[0] in events;
      var m' := Next(m, events[0]);
      if m.poll.Statting? && events[0] == Compare && |m.poll.seen| == |files| {
        assert m.poll.seen == m.recorded;
      }
      StaysUnmoved(m', loaded, files, events[1..]);
    }
  }

  /** A write that falls between the load and the stat is never noticed: however often the files
      are polled, what was loaded stays active until somebody writes again. */
  lemma MissedWriteStaysMissed<S(!new), C(!new)>(loaded: seq<C>, files: seq<File<S, C>>, used: seq<set<S>>, zero: S,
                                                 events: seq<Event<S, C>>)
    requires Bootable(loaded, files, used, zero)
    requires (forall f | f in files :: f.Present?) && loaded != Contents(files)
    requires forall e | e in events :: !e.Write?
    ensures Run(Boot(loaded, files, used, zero), events).active == loaded != Contents(files)
  {
    StaysUnmoved(Boot(loaded, files, used, zero), loaded, files, events);
  }

  /** Until the next write, that is: once a file gets a fresh stamp, agreement holds in every run. */
  lemma NextWriteHeals<S(!new), C(!new)>(loaded: seq<C>, files: seq<File<S, C>>, used: seq<set<S>>, zero: S,
                                         before: seq<Event<S, C>>, i: nat, file: File<S, C>, after: seq<Event<S, C>>)
    requires Bootable(loaded, files, used, zero) && (forall f | f in files :: f.Present?) && i < |files|
    requires (forall e | e in before :: !e.Write?) && (file.Present? ==> file.stamp !in used[i])
    requires FreshRun(Next(Run(Boot(loaded, files, used, zero), before), Write(i, file)), after)
    ensures Agreement(Run(Next(Run(Boot(loaded, files, used, zero), before), Write(i, file)), after))
  {
    var m := Run(Boot(loaded, files, used, zero), before);
    StaysUnmoved(Boot(loaded, files, used, zero), loaded, files, before);
    var m' := Next(m, Write(i, file));
    assert m'.files[i] == file && !Matches(m'.files[i], m'.recorded[i]);
    RunKeepsInv(m', after);
    InvAgrees(Run(m', after));
  }

  // ---- one poll ----------------------------------------------------------------------

  function Repeat<S, C>(e: Event<S, C>, k: nat): seq<Event<S, C>> {
    if k == 0 then [] else [e] + Repeat(e, k - 1)
  }

  ghost predicate AllPresent<S, C>(files: seq<File<S, C>>) {
    forall f | f in files :: f.Present?
  }

  /** What pollOnce leaves recorded and active, for the files it finds when it stats and when it loads. */
  ghost function Polled<S, C>(recorded: seq<S>, active: seq<C>,
                              atStat: seq<File<S, C>>, atLoad: seq<File<S, C>>, valid: bool): (seq<S>, seq<C>)
  {
    if AllPresent(atStat) && Stamps(atStat) != recorded && AllPresent(atLoad) && valid
    then (Stamps(atStat), Contents(atLoad))
    else (recorded, active)
  }

  lemma RunRepeat<S, C>(m: Machine<S, C>, e: Event<S, C>, k: nat)
    requires k > 0
    ensures Run(m, Repeat(e, k)) == Run(Next(m, e), Repeat(e, k - 1))
  {
    assert Repeat(e, k)[1..] == Repeat(e, k - 1);
  }

  lemma {:induction false} StatsThrough<S, C>(m: Machine<S, C>, k: nat)
    requires m.poll.Statting? && |m.poll.seen| + k == |m.files| && AllPresent(m.files)
    requires m.poll.seen == Stamps(m.files[..|m.poll.seen|])
    ensures Run(m, Repeat(Stat, k)) == m.(poll := Statting(Stamps(m.files)))
    decreases k
  {
    var from := |m.poll.seen|;
    if k == 0 {
      assert m.files[..from] == m.files;
    } else {
      RunRepeat(m, Stat, k);
      assert Stamps(m.files[..from + 1]) == Stamps(m.files[..from]) + [m.files[from].stamp];
      StatsThrough(Next(m, Stat), k - 1);
    }
  }

  lemma {:induction false} StatsStop<S, C>(m: Machine<S, C>, k: nat)
    requires m.poll.Statting? && |m.poll.seen| + k == |m.files| && !AllPresent(m.files[|m.poll.seen|..])
    ensures Run(m, Repeat(Stat, k)) == m.(poll := Idle)
    decreases k
  {
    var rest := m.files[|m.poll.seen|..];
    RunRepeat(m, Stat, k);
    if rest[0].Missing? {
      IdleRuns(m.(poll := Idle), Stat, k - 1);
    } else {
      assert rest == [rest[0]] + m.files[|m.poll.seen| + 1..];
      StatsStop(Next(m, Stat), k - 1);
    }
  }

  lemma {:induction false} ReadsThrough<S, C>(m: Machine<S, C>, k: nat)
    requires m.poll.Loading? && |m.poll.read| + k == |m.files| && AllPresent(m.files)
    requires m.poll.read == Contents(m.files[..|m.poll.read|])
    ensures Run(m, Repeat(Read, k)) == m.(poll := Loading(m.poll.seen, Contents(m.files)))
    decreases k
  {
    var from := |m.poll.read|;
    if k == 0 {
      assert m.files[..from] == m.files;
    } else {
      RunRepeat(m, Read, k);
      assert Contents(m.files[..from + 1]) == Contents(m.files[..from]) + [m.files[from].content];
      ReadsThrough(Next(m, Read), k - 1);
    }
  }

  lemma {:induction false} ReadsStop<S, C>(m: Machine<S, C>, k: nat)
    requires m.poll.Loading? && |m.poll.read| + k == |m.files| && !AllPresent(m.files[|m.poll.read|..])
    ensures Run(m, Repeat(Read, k)) == m.(poll := Idle)
    decreases k
  {
    var rest := m.files[|m.poll.read|..];
    RunRepeat(m, Read, k);
    if rest[0].Missing? {
      IdleRuns(m.(poll := Idle), Read, k - 1);
    } else {
      assert rest == [rest[0]] + m.files[|m.poll.read| + 1..];
      ReadsStop(Next(m, Read), k - 1);
    }
  }

  lemma {:induction false} IdleRuns<S, C>(m: Machine<S, C>, e: Event<S, C>, k: nat)
    requires m.poll.Idle? && !e.Write? && !e.Begin?
    ensures Run(m, Repeat(e, k)) == m
  {
    if k > 0 {
      RunRepeat(m, e, k);
      IdleRuns(m, e, k - 1);
    }
  }

  /** The machine's steps for the two halves of pollOnce. */
  function Statted<S(==), C>(m: Machine<S, C>): Machine<S, C> {
    Next(Run(Next(m, Begin), Repeat(Stat, |m.files|)), Compare)
  }

  function Reloaded<S(==), C>(m: Machine<S, C>, valid: bool): Machine<S, C> {
    Next(Next(Run(m, Repeat(Read, |m.files|)), Apply(valid)), Record)
  }

  lemma StattedIs<S, C>(m: Machine<S, C>)
    requires m.poll.Idle?
    ensures Statted(m) ==
      m.(poll := if AllPresent(m.files) && Stamps(m.files) != m.recorded then Loading(Stamps(m.files), []) else Idle)
  {
    assert m.files[0..] == m.files;
    if AllPresent(m.files) {
      StatsThrough(Next(m, Begin), |m.files|);
    } else {
      StatsStop(Next(m, Begin), |m.files|);
    }
  }

  lemma ReloadedIs<S, C>(m: Machine<S, C>, valid: bool)
    requires m.poll.Idle? || (m.poll.Loading? && m.poll.read == [])
    ensures Reloaded(m, valid) ==
      if m.poll.Loading? && AllPresent(m.files) && valid
      then m.(recorded := m.poll.seen, active := Contents(m.files), poll := Idle) else m.(poll := Idle)
  {
    if m.poll.Idle? {
      IdleRuns(m, Read, |m.files|);
    } else {
      assert m.files[0..] == m.files;
      if AllPresent(m.files) {
        ReadsThrough(m, |m.files|);
      } else {
        ReadsStop(m, |m.files|);
      }
    }
  }

  /** A whole poll, with the files rewritten to `atLoad` between its stats and its loads, leaves
      exactly what `Polled` says; a poll that fails anywhere leaves everything as it was. */
  lemma PollOutcome<S, C>(m: Machine<S, C>, atLoad: seq<File<S, C>>, valid: bool)
    requires m.poll.Idle? && |atLoad| == |m.files| == |m.recorded|
    ensures var m' := Reloaded(Statted(m).(files := atLoad), valid);
      m'.poll.Idle? && (m'.recorded, m'.active) == Polled(m.recorded, m.active, m.files, atLoad, valid)
  {
    StattedIs(m);
    ReloadedIs(Statted(m).(files := atLoad), valid);
  }

  /** Once the files hold still and are good, one undisturbed poll from any state between polls,
      however it came about, records their stamps; it leaves their contents active if and only if
      the recorded stamps did not already match files that are not the active ones. */
  lemma PollConvergesIff<S, C>(m: Machine<S, C>)
    requires m.poll.Idle? && |m.recorded| == |m.active| == |m.files| && AllPresent(m.files)
    ensures var m' := Reloaded(Statted(m), true);
      && m'.poll.Idle? && m'.recorded == Stamps(m.files)
      && (m'.active == Contents(m.files) <==> Agreement(m))
  {
    StattedIs(m);
    ReloadedIs(Statted(m), true);
    if forall i | 0 <= i < |m.files| :: Matches(m.files[i], m.recorded[i]) {
      assert Stamps(m.files) == m.recorded;
    }
  }

  // ---- a poll, whatever is written during it -----------------------------------------------

  /** The poll under way gets as far as recording. */
  predicate Records<S(==), C>(m: Machine<S, C>, events: seq<Event<S, C>>)
    decreases |events|
  {
    events != [] && ((events[0].Record? && m.poll.Applied?) || Records(Next(m, events[0]), events[1..]))
  }

  function StampNow<S(==), C>(m: Machine<S, C>, e: Event<S, C>): seq<S> {
    if e.Stat? && m.poll.Statting? && |m.poll.seen| < |m.files| && m.files[|m.poll.seen|].Present?
    then [m.files[|m.poll.seen|].stamp] else []
  }

  /** The stamps a poll's stats find, each at its own moment. */
  function StampsSeen<S(==), C>(m: Machine<S, C>, events: seq<Event<S, C>>): seq<S>
    decreases |events|
  {
    if events == [] then [] else StampNow(m, events[0]) + StampsSeen(Next(m, events[0]), events[1..])
  }

  function ContentNow<S(==), C>(m: Machine<S, C>, e: Event<S, C>): seq<C> {
    if e.Read? && m.poll.Loading? && |m.poll.read| < |m.files| && m.files[|m.poll.read|].Present?
    then [m.files[|m.poll.read|].content] else []
  }

  /** The contents its loads read, each at its own moment. */
  function ContentsRead<S(==), C>(m: Machine<S, C>, events: seq<Event<S, C>>): seq<C>
    decreases |events|
  {
    if events == [] then [] else ContentNow(m, events[0]) + ContentsRead(Next(m, events[0]), events[1..])
  }

  function SeenSoFar<S, C>(m: Machine<S, C>): seq<S> {
    if m.poll.Idle? then [] else m.poll.seen
  }

  function ReadSoFar<S, C>(m: Machine<S, C>): seq<C> {
    match m.poll
    case Loading(_, read) => read
    case Applied(_) => m.active
    case _ => []
  }

  lemma {:induction false} NothingAfterPoll<S, C>(m: Machine<S, C>, events: seq<Event<S, C>>)
    requires m.poll.Idle? && forall e | e in events :: !e.Begin?
    ensures var m' := Run(m, events); m'.poll.Idle? && m'.recorded == m.recorded && m'.active == m.active
    ensures !Records(m, events) && StampsSeen(m, events) == [] && ContentsRead(m, events) == []
    decreases |events|
  {
    if events != [] {
      assert events[0] in events;
      NothingAfterPoll(Next(m, events[0]), events[1..]);
    }
  }

  lemma StepOfPoll<S, C>(m: Machine<S, C>, e: Event<S, C>)
    requires !m.poll.Idle? && !e.Begin?
    ensures var m' := Next(m, e);
      && (m'.poll.Idle? && !(e.Record? && m.poll.Applied?) ==>
            m'.recorded == m.recorded && m'.active == m.active && !m.poll.Applied?)
      && (!m'.poll.Idle? ==>
            && !(e.Record? && m.poll.Applied?) && m'.recorded == m.recorded && (m.poll.Applied? ==> m'.poll.Applied?)
            && (!m'.poll.Applied? ==> m'.active == m.active)
            && SeenSoFar(m') == SeenSoFar(m) + StampNow(m, e) && ReadSoFar(m') == ReadSoFar(m) + ContentNow(m, e))
  {}

  lemma EndOfPoll<S, C>(m: Machine<S, C>, e: Event<S, C>)
    requires !m.poll.Idle? && !e.Begin? && Next(m, e).poll.Idle?
    ensures e.Record? && m.poll.Applied? ==>
      && Next(m, e).recorded == SeenSoFar(m) && Next(m, e).active == ReadSoFar(m)
    ensures !(e.Record? && m.poll.Applied?) ==> Next(m, e).recorded == m.recorded && Next(m, e).active == m.active
    ensures StampNow(m, e) == [] && ContentNow(m, e) == []
  {}

  lemma {:induction false} RestOfPoll<S, C>(m: Machine<S, C>, events: seq<Event<S, C>>)
    requires !m.poll.Idle? && forall e | e in events :: !e.Begin?
    ensures Records(m, events) ==>
      && Run(m, events).recorded == SeenSoFar(m) + StampsSeen(m, events)
      && Run(m, events).active == ReadSoFar(m) + ContentsRead(m, events)
    ensures !Records(m, events) && Run(m, events).poll.Idle? ==>
      Run(m, events).recorded == m.recorded && Run(m, events).active == m.active && !m.poll.Applied?
    decreases |events|
  {
    hide Next, SeenSoFar, ReadSoFar, StampNow, ContentNow;
    if events != [] {
      var e := events[0];
      assert e in events;
      var m' := Next(m, e);
      StepOfPoll(m, e);
      if m'.poll.Idle? {
        EndOfPoll(m, e);
        NothingAfterPoll(m', events[1..]);
        assert Run(m, events) == Run(m', events[1..]);
      } else {
        RestOfPoll(m', events[1..]);
        var stamps, contents := StampsSeen(m', events[1..]), ContentsRead(m', events[1..]);
        assert SeenSoFar(m) + (StampNow(m, e) + stamps) == SeenSoFar(m) + StampNow(m, e) + stamps;
        assert ReadSoFar(m) + (ContentNow(m, e) + contents) == ReadSoFar(m) + ContentNow(m, e) + contents;
      }
    }
  }

  /** One poll with any files rewritten at any moments of it: if it gets as far as recording, it
      leaves the stamps its stats found, each when it was taken, and the contents its loads read,
      each when it was read; if it ends before that, for a failed stat, load or apply or because
      nothing changed, it leaves both as they were. */
  lemma PollAllOrNothing<S, C>(m: Machine<S, C>, events: seq<Event<S, C>>)
    requires m.poll.Idle? && (forall e | e in events :: !e.Begin?) && Run(Next(m, Begin), events).poll.Idle?
    ensures var begun := Next(m, Begin);
      var m' := Run(begun, events);
      (m'.recorded, m'.active) ==
      if Records(begun, events) then (StampsSeen(begun, events), ContentsRead(begun, events))
      else (m.recorded, m.active)
  {
    var begun := Next(m, Begin);
    assert [] + StampsSeen(begun, events) == StampsSeen(begun, events);
    assert [] + ContentsRead(begun, events) == ContentsRead(begun, events);
    RestOfPoll(begun, events);
  }

  // ---- why stamps must not come back ----------------------------------------------------

  /** The stamp premise is needed: if a file is put back with an earlier stamp while it is being
      loaded, the poller records that stamp over the other content and never looks again. */
  lemma ReusedStampDisagrees(m: Machine<int, int>, a: int, b: int)
    requires |m.used| == |m.recorded| == |m.active| == |m.files| == 1 && m.poll.Idle?
    requires a != m.recorded[0] && b != a
    ensures var loading := Statted(Next(m, Write(0, Present(a, 1))));
      var applied := Next(Run(Next(loading, Write(0, Present(b, 2))), Repeat(Read, 1)), Apply(true));
      !Agreement(Next(Next(applied, Write(0, Present(a, 1))), Record))
  {
    var written := Next(m, Write(0, Present(a, 1)));
    StattedIs(written);
    assert written.files == [Present(a, 1)];
    assert Stamps(written.files) == [a];
    var replaced := Next(Statted(written), Write(0, Present(b, 2)));
    assert replaced.files == [Present(b, 2)] && replaced.poll == Loading([a], []);
    ReadsThrough(replaced, 1);
    assert replaced.files[0..] == replaced.files && Contents(replaced.files) == [2];
    var applied := Next(Run(replaced, Repeat(Read, 1)), Apply(true));
    assert applied.active == [2] && applied.poll == Applied([a]);
    var m' := Next(Next(applied, Write(0, Present(a, 1))), Record);
    assert Matches(m'.files[0], m'.recorded[0]) && m'.active[0] == 2;
  }
}
