/**
 `lib/oracle-freshness.ts` as a protocol: any number of `er()` calls and
 background `warm()` reads run interleaved, sharing the variable `lastRead`,
 while the clock advances and the rollup publishes new prices. Each `await`
 ends a step, so another call may run in between.
 */
module OracleFreshness {
  import opened Wrappers

  const FAST_PATH_MAX_AGE_MS := 7_000
  const FALLBACK_MAX_AGE_MS := 8_000
  const PUBLISH_READ_REUSE_MS := 1_500

  /** The options of `createOracleFreshness` that steer `er()`. */
  datatype Config = Config(refreshable: bool, erTimeoutMs: nat) {
    /** Rounded up. */
    function Attempts(): nat {
      (erTimeoutMs + 199) / 200
    }
  }

  datatype LastRead = LastRead(published: Option<int>, at: int)

  /** How an `er()` call came to return. */
  datatype Route =
    | Fast                              // the price read was recent enough
    | Reporter                          // not refreshable, but recent enough for the program's own check
    | Refreshed(sequence: int)          // the rollup serves the refreshed snapshot
    | Fallback(refreshStartedAt: int)   // the refresh failed, the price read before it was recent enough

  /** Where an `er()` call stands. */
  datatype Call =
    | Reading(sentAtPublish: int)
    | Deciding(published: Option<int>)
    | Refreshing(age: Option<int>, startedAt: int)
    | Polling(sequence: int, attempt: nat)
    | Returned(route: Route, at: int, trueAge: int, served: int)
    | Threw

  /** Clock in milliseconds; the rollup's publish time in seconds and its snapshot sequence;
      the shared variable; the `er()` calls; the `warm()` reads with the publish time they were sent at. */
  datatype State = State(
    now: int,
    publishTime: int,
    sequence: int,
    lastRead: Option<LastRead>,
    calls: map<nat, Call>,
    warms: map<nat, int>)

  datatype Step =
    | Tick(ms: nat)
    | Publish(publishTime: int, sequence: int)
    | Warm(w: nat)
    | WarmRead(w: nat, value: Option<int>)
    | Start(c: nat)
    | Receive(c: nat, value: Option<int>)
    | Decide(c: nat)
    | RefreshOk(c: nat, refreshed: int)
    | RefreshFails(c: nat)
    | Poll(c: nat, seen: Option<int>)

  // ----- the environment: clock, publish times and sequences do not go back -----

  /** A read answers with a publish time that held between its sending and now, or fails. */
  predicate PossibleRead(sentAt: int, value: Option<int>, s: State) {
    value.None? || sentAt <= value.value <= s.publishTime
  }

  predicate Enabled(s: State, step: Step) {
    match step
    case Tick(_) => true
    case Publish(p, q) => s.publishTime <= p && s.sequence <= q
    case Warm(w) => w !in s.warms
    case WarmRead(w, value) => w in s.warms && PossibleRead(s.warms[w], value, s)
    case Start(c) => c !in s.calls
    case Receive(c, value) => c in s.calls && s.calls[c].Reading? && PossibleRead(s.calls[c].sentAtPublish, value, s)
    case Decide(c) => c in s.calls && s.calls[c].Deciding?
    case RefreshOk(c, _) => c in s.calls && s.calls[c].Refreshing?
    case RefreshFails(c) => c in s.calls && s.calls[c].Refreshing?
    case Poll(c, seen) => c in s.calls && s.calls[c].Polling? && (seen.None? || seen.value <= s.sequence)
  }

  // ----- the code -----

  predicate Reusable(s: State) {
    s.lastRead.Some? && s.now - s.lastRead.value.at < PUBLISH_READ_REUSE_MS
  }

  function Return(s: State, c: nat, route: Route): State {
    s.(calls := s.calls[c := Returned(route, s.now, s.now - 1000 * s.publishTime, s.sequence)])
  }

  predicate AtMost(age: Option<int>, limit: int) {
    age.Some? && age.value <= limit
  }

  function Decided(cfg: Config, s: State, c: nat, published: Option<int>): State {
    var age := if published.None? then None else Some(s.now - 1000 * published.value);
    if AtMost(age, FAST_PATH_MAX_AGE_MS) then Return(s, c, Fast)
    else if !cfg.refreshable then
      if AtMost(age, FALLBACK_MAX_AGE_MS) then Return(s, c, Reporter) else s.(calls := s.calls[c := Threw])
    else s.(lastRead := None, calls := s.calls[c := Refreshing(age, s.now)])
  }

  function Polled(cfg: Config, s: State, c: nat, sequence: int, attempt: nat, seen: Option<int>): State {
    if attempt >= cfg.Attempts() then s.(calls := s.calls[c := Threw])
    else if seen.Some? && seen.value >= sequence then Return(s, c, Refreshed(sequence))
    else s.(calls := s.calls[c := Polling(sequence, attempt + 1)])
  }

  function Next(cfg: Config, s: State, step: Step): State
    requires Enabled(s, step)
  {
    match step
    case Tick(ms) => s.(now := s.now + ms)
    case Publish(p, q) => s.(publishTime := p, sequence := q)
    case Warm(w) =>
      if s.lastRead.None? || 2 * (s.now - s.lastRead.value.at) >= PUBLISH_READ_REUSE_MS
      then s.(lastRead := None, warms := s.warms[w := s.publishTime]) else s
    case WarmRead(w, value) => s.(lastRead := Some(LastRead(value, s.now)), warms := s.warms - {w})
    case Start(c) =>
      s.(calls := s.calls[c := if Reusable(s) then Deciding(s.lastRead.value.published) else Reading(s.publishTime)])
    case Receive(c, value) => s.(lastRead := Some(LastRead(value, s.now)), calls := s.calls[c := Deciding(value)])
    case Decide(c) => Decided(cfg, s, c, s.calls[c].published)
    case RefreshOk(c, refreshed) => s.(calls := s.calls[c := Polling(refreshed, 0)])
    case RefreshFails(c) =>
      if AtMost(s.calls[c].age, FALLBACK_MAX_AGE_MS) then Return(s, c, Fallback(s.calls[c].startedAt))
      else s.(calls := s.calls[c := Threw])
    case Poll(c, seen) => Polled(cfg, s, c, s.calls[c].sequence, s.calls[c].attempt, seen)
  }

  // ----- runs -----

  function Initial(now: int, publishTime: int, sequence: int): State {
    State(now, publishTime, sequence, None, map[], map[])
  }

  predicate IsRun(cfg: Config, s: State, steps: seq<Step>)
    decreases steps
  {
    steps == [] || (Enabled(s, steps[0]) && IsRun(cfg, Next(cfg, s, steps[0]), steps[1..]))
  }

  function After(cfg: Config, s: State, steps: seq<Step>): State
    requires IsRun(cfg, s, steps)
    decreases steps
  {
    if steps == [] then s else After(cfg, Next(cfg, s, steps[0]), steps[1..])
  }

  // ----- what every state keeps -----

  predicate NotNewer(published: Option<int>, s: State) {
    published.Some? ==> published.value <= s.publishTime
  }

  predicate CallInv(cfg: Config, s: State, call: Call) {
    match call
    case Deciding(published) => NotNewer(published, s)
    case Refreshing(age, startedAt) =>
      cfg.refreshable && startedAt <= s.now && (age.Some? ==> startedAt - age.value <= 1000 * s.publishTime)
    case Polling(_, attempt) => cfg.refreshable && attempt <= cfg.Attempts()
    case Returned(route, at, trueAge, served) => Promise(cfg, route, at, trueAge, served)
    case _ => true
  }

  /** What a returned call guarantees about the moment it returned. */
  predicate Promise(cfg: Config, route: Route, at: int, trueAge: int, served: int) {
    match route
    case Fast => trueAge <= FAST_PATH_MAX_AGE_MS
    case Reporter => !cfg.refreshable && trueAge <= FALLBACK_MAX_AGE_MS
    case Refreshed(sequence) => cfg.refreshable && served >= sequence
    case Fallback(refreshStartedAt) =>
      cfg.refreshable && refreshStartedAt <= at && trueAge <= FALLBACK_MAX_AGE_MS + (at - refreshStartedAt)
  }

  predicate Inv(cfg: Config, s: State) {
    && (s.lastRead.Some? ==> NotNewer(s.lastRead.value.published, s) && s.lastRead.value.at <= s.now)
    && (forall c :: c in s.calls ==> CallInv(cfg, s, s.calls[c]))
  }

  lemma StepKeepsInv(cfg: Config, s: State, step: Step)
    requires Inv(cfg, s) && Enabled(s, step)
    ensures Inv(cfg, Next(cfg, s, step))
  {
    var t := Next(cfg, s, step);
    assert t.publishTime >= s.publishTime && t.now >= s.now;
    forall c | c in t.calls
      ensures CallInv(cfg, t, t.calls[c])
    {
      if c in s.calls { assert CallInv(cfg, s, s.calls[c]); }
    }
  }

  /** In every interleaving the cached publish time is never newer than the real one, and every
      call that returned kept its promise. */
  lemma {:induction false} EveryRunIsSafe(cfg: Config, s: State, steps: seq<Step>)
    requires Inv(cfg, s) && IsRun(cfg, s, steps)
    ensures Inv(cfg, After(cfg, s, steps))
    decreases steps
  {
    if steps != [] {
      StepKeepsInv(cfg, s, steps[0]);
      EveryRunIsSafe(cfg, Next(cfg, s, steps[0]), steps[1..]);
    }
  }

  /** A returned `er()` met its bound: 7 s on the fast path, 8 s for a reporter's market, the
      refreshed sequence served, or 8 s plus the time the failed refresh took. */
  lemma ReturnedCallsKeepPromise(cfg: Config, now: int, publishTime: int, sequence: int, steps: seq<Step>, c: nat)
    requires IsRun(cfg, Initial(now, publishTime, sequence), steps)
    requires var s := After(cfg, Initial(now, publishTime, sequence), steps); c in s.calls && s.calls[c].Returned?
    ensures var r := After(cfg, Initial(now, publishTime, sequence), steps).calls[c];
            match r.route
            case Fast => r.trueAge <= 7_000
            case Reporter => !cfg.refreshable && r.trueAge <= 8_000
            case Refreshed(wanted) => r.served >= wanted
            case Fallback(startedAt) => r.trueAge <= 8_000 + (r.at - startedAt)
  {
    EveryRunIsSafe(cfg, Initial(now, publishTime, sequence), steps);
    var s := After(cfg, Initial(now, publishTime, sequence), steps);
    assert CallInv(cfg, s, s.calls[c]);
  }

  /** The last bound is exact: for every refresh duration some run returns at age 8 s plus that duration. */
  lemma FallbackAgeIsReached(cfg: Config, duration: nat) returns (steps: seq<Step>)
    requires cfg.refreshable
    ensures IsRun(cfg, Initial(8_000, 0, 0), steps)
    ensures var s := After(cfg, Initial(8_000, 0, 0), steps);
            0 in s.calls && s.calls[0] == Returned(Fallback(8_000), 8_000 + duration, 8_000 + duration, 0)
  {
    var s0 := Initial(8_000, 0, 0);
    var s1 := Next(cfg, s0, Start(0));
    var s2 := Next(cfg, s1, Receive(0, Some(0)));
    var s3 := Next(cfg, s2, Decide(0));
    var s4 := Next(cfg, s3, Tick(duration));
    steps := [];
    RunCons(cfg, s4, RefreshFails(0), steps);
    steps := [RefreshFails(0)] + steps;
    RunCons(cfg, s3, Tick(duration), steps);
    steps := [Tick(duration)] + steps;
    RunCons(cfg, s2, Decide(0), steps);
    steps := [Decide(0)] + steps;
    RunCons(cfg, s1, Receive(0, Some(0)), steps);
    steps := [Receive(0, Some(0))] + steps;
    RunCons(cfg, s0, Start(0), steps);
    steps := [Start(0)] + steps;
  }

  lemma RunCons(cfg: Config, s: State, a: Step, rest: seq<Step>)
    requires Enabled(s, a) && IsRun(cfg, Next(cfg, s, a), rest)
    ensures IsRun(cfg, s, [a] + rest) && After(cfg, s, [a] + rest) == After(cfg, Next(cfg, s, a), rest)
  {
    assert ([a] + rest)[1..] == rest;
  }

  // ----- when a call returns, waits or gives up -----

  predicate ReadWithin(published: Option<int>, at: int, ms: int) {
    published.Some? && at - 1000 * published.value <= ms
  }

  /** A decision returns on a price at most 7 s old, or 8 s where it cannot be refreshed; a call gives up at once only
      where it cannot, and otherwise refreshes and forgets the shared read. */
  lemma DecideIff(cfg: Config, s: State, c: nat)
    requires Enabled(s, Decide(c))
    ensures var p, t := s.calls[c].published, Next(cfg, s, Decide(c));
            && (t.calls[c].Returned? <==>
                ReadWithin(p, s.now, 7_000) || (!cfg.refreshable && ReadWithin(p, s.now, 8_000)))
            && (t.calls[c].Threw? <==> !cfg.refreshable && !ReadWithin(p, s.now, 8_000))
            && (t.calls[c].Refreshing? ==> t.lastRead == None && t.calls[c].startedAt == s.now)
            && (t.calls[c].Returned? || t.calls[c].Threw? || t.calls[c].Refreshing?)
  {}

  /** A failed refresh returns exactly if the price was at most 8 s old when it was started. */
  lemma RefreshFailsIff(cfg: Config, s: State, c: nat)
    requires Enabled(s, RefreshFails(c))
    ensures var call, t := s.calls[c], Next(cfg, s, RefreshFails(c));
            && (t.calls[c].Returned? <==> call.age.Some? && call.age.value <= 8_000)
            && (t.calls[c].Threw? <==> !(call.age.Some? && call.age.value <= 8_000))
  {}

  /** A poll in time returns exactly if it sees the refreshed sequence or a later one; a call gives up exactly when its
      polls, 200 ms apart, have used up the time allowed. */
  lemma PollIff(cfg: Config, s: State, c: nat, seen: Option<int>)
    requires Enabled(s, Poll(c, seen))
    ensures var call, t := s.calls[c], Next(cfg, s, Poll(c, seen)).calls[c];
            var inTime := 200 * call.attempt < cfg.erTimeoutMs;
            && (t.Threw? <==> !inTime)
            && (t.Returned? <==> inTime && seen.Some? && call.sequence <= seen.value)
            && (inTime && !t.Returned? ==> t == Polling(call.sequence, call.attempt + 1))
  {}

  /** A call uses the shared read exactly if it is younger than 1.5 s; a background read is sent exactly if there is
      none or it is at least 750 ms old. */
  lemma ReadsSharedIff(cfg: Config, s: State, c: nat, w: nat)
    ensures Enabled(s, Start(c)) ==>
              (Next(cfg, s, Start(c)).calls[c].Deciding? <==> s.lastRead.Some? && s.now < s.lastRead.value.at + 1_500)
    ensures Enabled(s, Start(c)) && Next(cfg, s, Start(c)).calls[c].Deciding? ==>
              Next(cfg, s, Start(c)).calls[c] == Deciding(s.lastRead.value.published)
    ensures Enabled(s, Warm(w)) ==>
              (w in Next(cfg, s, Warm(w)).warms <==> s.lastRead.None? || s.now >= s.lastRead.value.at + 750)
    ensures Enabled(s, Receive(c, None)) ==> Next(cfg, s, Receive(c, None)).lastRead == Some(LastRead(None, s.now))
  {}
}
