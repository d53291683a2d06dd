/**
 `workers/src/chain-transports.ts` and `workers/src/backoff.ts`: polling a
 transaction to confirmation against a chain that moves on meanwhile, and the
 bounded retry of idempotent calls.
 */
module ChainTransport {
  import opened Wrappers
  import opened Numerals

  datatype Commitment = Processed | Confirmed | Finalized

  function Rank(c: Commitment): nat {
    match c case Processed => 0 case Confirmed => 1 case Finalized => 2
  }

  // ----- the chain -----

  /** When and at which block height the transaction lands, and whether it fails. */
  datatype Landing = Landing(time: int, height: int, failed: bool)

  /** The chain over time: the landing, if any; the commitment reported for it; the block height. */
  datatype World = World(landing: Option<Landing>, commitment: int -> Option<Commitment>, height: int -> int)

  datatype Status = Status(err: bool, confirmation: Option<Commitment>)

  function StatusAt(w: World, t: int): Option<Status> {
    if w.landing.Some? && w.landing.value.time <= t
    then Some(Status(w.landing.value.failed, w.commitment(t)))
    else None
  }

  /** The rule of block hashes: a transaction lands no higher than its last valid height, and
      above every height reported before it landed. */
  ghost predicate Lawful(w: World, lastValidBlockHeight: int) {
    w.landing.Some? ==>
      && w.landing.value.height <= lastValidBlockHeight
      && forall t: int :: t < w.landing.value.time ==> w.height(t) <= w.landing.value.height
  }

  function RankOf(c: Option<Commitment>): int {
    if c.None? then -1 else Rank(c.value)
  }

  ghost predicate CommitmentGrows(w: World) {
    forall t: int, u: int :: t <= u ==> RankOf(w.commitment(t)) <= RankOf(w.commitment(u))
  }

  // ----- confirmTransaction -----

  datatype Options = Options(target: Commitment, lastValidBlockHeight: int, pollIntervalMs: nat, timeoutMs: nat)

  datatype Outcome = Landed(commitment: Commitment) | Failed | BlockhashExpired | TimedOut | RpcError

  /** The chain and the network. `delay(i)` is how long the i-th wait takes: two waits for a call (to the
      moment the node reads, and back), one for what a sleep takes beyond the time asked; `fails(i)`
      makes the call that starts with wait `i` throw. */
  datatype Env = Env(w: World, delay: nat -> nat, fails: nat -> bool)

  /** One turn of the loop, begun at `now` before wait `i`: the moments of its reads, the calls it makes, and whether
      it decides. */
  datatype Turn = Turn(read: int, heightRead: int, calls: seq<nat>, now: int, i: nat, verdict: Option<Outcome>)

  function TurnAt(e: Env, options: Options, now: int, i: nat): (t: Turn)
    ensures t.now >= now + options.pollIntervalMs
  {
    var read := now + e.delay(i);
    var back := read + e.delay(i + 1);
    var pause := options.pollIntervalMs;
    if e.fails(i) then Turn(read, read, [i], now + pause, i, Some(RpcError))
    else
      match StatusAt(e.w, read)
      case Some(status) =>
        Turn(read, read, [i], back + pause + e.delay(i + 2), i + 3,
             if status.err then Some(Failed)
             else if RankOf(status.confirmation) >= Rank(options.target) then
               Some(Landed(if status.confirmation == Some(Finalized) then Finalized else Confirmed))
             else None)
      case None =>
        var high := back + e.delay(i + 2);
        Turn(read, high, [i, i + 2], high + e.delay(i + 3) + pause + e.delay(i + 4), i + 5,
             if e.fails(i + 2) then Some(RpcError)
             else if e.w.height(high) > options.lastValidBlockHeight then Some(BlockhashExpired)
             else None)
  }

  /** What the loop reports, with the moments of its status reads and of its last height read, the calls it made, and
      the moment it came to its end. */
  datatype Report = Report(outcome: Outcome, polls: seq<int>, heightRead: int, calls: seq<nat>, ended: int) {
    function LastPoll(): int
      requires polls != []
    {
      polls[|polls| - 1]
    }
  }

  function Poll(e: Env, options: Options, deadline: int, now: int, i: nat): Report
    requires options.pollIntervalMs > 0
    decreases deadline - now
  {
    if now >= deadline then Report(TimedOut, [], now, [], now)
    else
      var t := TurnAt(e, options, now, i);
      if t.verdict.Some? then Report(t.verdict.value, [t.read], t.heightRead, t.calls, t.heightRead)
      else
        var r := Poll(e, options, deadline, t.now, t.i);
        r.(polls := [t.read] + r.polls, calls := t.calls + r.calls)
  }

  method PollLoop(e: Env, options: Options, start: int, deadline: int) returns (outcome: Outcome)
    requires options.pollIntervalMs > 0 && !options.target.Processed?
    ensures outcome == Poll(e, options, deadline, start, 0).outcome
  {
    var now, i := start, 0;
    while now < deadline
      invariant Poll(e, options, deadline, start, 0).outcome == Poll(e, options, deadline, now, i).outcome
      decreases deadline - now
    {
      ghost var turn := TurnAt(e, options, now, i);
      if e.fails(i) { return RpcError; }
      now := now + e.delay(i);
      var status := StatusAt(e.w, now);
      now, i := now + e.delay(i + 1), i + 2;
      if status.Some? {
        if status.value.err { return Failed; }
        var c := status.value.confirmation;
        if c.Some? && Rank(c.value) >= Rank(options.target) {
          return Landed(if c.value.Finalized? then Finalized else Confirmed);
        }
      } else {
        if e.fails(i) { return RpcError; }
        now := now + e.delay(i);
        var currentHeight := e.w.height(now);
        now, i := now + e.delay(i + 1), i + 2;
        if currentHeight > options.lastValidBlockHeight { return BlockhashExpired; }
      }
      now, i := now + options.pollIntervalMs + e.delay(i), i + 1;
      assert turn.verdict.None? && turn.now == now && turn.i == i;
    }
    outcome := TimedOut;
  }

  method ConfirmTransaction(e: Env, options: Options, start: int) returns (outcome: Outcome)
    requires options.pollIntervalMs > 0 && !options.target.Processed?
    ensures outcome == Confirmation(e, options, start).outcome
    ensures Justified(e, options, Confirmation(e, options, start))
  {
    var deadline := start + options.timeoutMs;
    outcome := PollLoop(e, options, start, deadline);
    VerdictIsJustified(e, options, deadline, start, 0);
  }

  /** Below the goal: no error and not yet the target commitment. */
  predicate Unfinished(status: Option<Status>, target: Commitment) {
    status.Some? ==> !status.value.err && RankOf(status.value.confirmation) < Rank(target)
  }

  /** A call threw exactly if the loop reports so, and then it was the last one. */
  predicate ErrorIsThrown(e: Env, r: Report) {
    && (forall k :: 0 <= k < |r.calls| - 1 ==> !e.fails(r.calls[k]))
    && (r.outcome.RpcError? ==> r.calls != [])
    && (r.calls != [] ==> (e.fails(r.calls[|r.calls| - 1]) <==> r.outcome.RpcError?))
  }

  /** Success comes only from an error-free status at or above the target, failure only from an error,
      expiry only from an unseen transaction whose height has passed, and a timeout only after the last
      poll was unfinished. */
  predicate LastDecides(e: Env, options: Options, r: Report) {
    match r.outcome
    case Landed(c) =>
      r.polls != [] && StatusAt(e.w, r.LastPoll()) == Some(Status(false, Some(c))) && Rank(c) >= Rank(options.target)
    case Failed => r.polls != [] && StatusAt(e.w, r.LastPoll()).Some? && StatusAt(e.w, r.LastPoll()).value.err
    case BlockhashExpired =>
      && r.polls != []
      && StatusAt(e.w, r.LastPoll()).None?
      && r.LastPoll() <= r.heightRead
      && e.w.height(r.heightRead) > options.lastValidBlockHeight
    case TimedOut => r.polls != [] ==> Unfinished(StatusAt(e.w, r.LastPoll()), options.target)
    case RpcError => true
  }

  /** No poll before the last found the transaction finished. */
  predicate Justified(e: Env, options: Options, r: Report) {
    && (forall k :: 0 <= k < |r.polls| - 1 ==> Unfinished(StatusAt(e.w, r.polls[k]), options.target))
    && LastDecides(e, options, r) && ErrorIsThrown(e, r)
  }

  lemma TurnIsJustified(e: Env, options: Options, now: int, i: nat)
    requires !options.target.Processed?
    ensures var t := TurnAt(e, options, now, i);
            && (t.verdict.None? ==>
                  && Unfinished(StatusAt(e.w, t.read), options.target)
                  && forall k :: 0 <= k < |t.calls| ==> !e.fails(t.calls[k]))
            && (t.verdict.Some? ==>
                  && !t.verdict.value.TimedOut?
                  && Justified(e, options, Report(t.verdict.value, [t.read], t.heightRead, t.calls, t.heightRead)))
  {}

  /** An unfinished poll in front changes no justification. */
  lemma JustifiedCons(e: Env, options: Options, t: Turn, r: Report)
    requires Justified(e, options, r) && Unfinished(StatusAt(e.w, t.read), options.target)
    requires forall k :: 0 <= k < |t.calls| ==> !e.fails(t.calls[k])
    ensures Justified(e, options, r.(polls := [t.read] + r.polls, calls := t.calls + r.calls))
  {
    var polls, calls := [t.read] + r.polls, t.calls + r.calls;
    assert r.polls != [] ==> polls[|r.polls|] == r.LastPoll();
    assert r.calls != [] ==> calls[|calls| - 1] == r.calls[|r.calls| - 1];
    forall k | 0 <= k < |polls| - 1
      ensures Unfinished(StatusAt(e.w, polls[k]), options.target)
    {
      assert k > 0 ==> polls[k] == r.polls[k - 1];
    }
  }

  /** Every verdict of the loop is justified; a loop that may run at all polls before it times out, and does not time
      out before its deadline. */
  lemma {:induction false} VerdictIsJustified(e: Env, options: Options, deadline: int, now: int, i: nat)
    requires options.pollIntervalMs > 0 && !options.target.Processed?
    ensures var r := Poll(e, options, deadline, now, i);
            && Justified(e, options, r) && (r.outcome.TimedOut? && now < deadline ==> r.polls != [])
            && (r.outcome.TimedOut? ==> r.ended >= deadline)
    decreases deadline - now
  {
    if now < deadline {
      var t := TurnAt(e, options, now, i);
      TurnIsJustified(e, options, now, i);
      if t.verdict.None? {
        VerdictIsJustified(e, options, deadline, t.now, t.i);
        JustifiedCons(e, options, t, Poll(e, options, deadline, t.now, t.i));
      }
    }
  }

  /** The whole call from its start. */
  function Confirmation(e: Env, options: Options, start: int): Report
    requires options.pollIntervalMs > 0
  {
    Poll(e, options, start + options.timeoutMs, start, 0)
  }

  lemma JustifiedDecides(e: Env, options: Options, r: Report, k: nat)
    requires Justified(e, options, r) && k < |r.polls| && forall c :: c in r.calls ==> !e.fails(c)
    ensures var status := StatusAt(e.w, r.polls[k]);
            && !r.outcome.RpcError?
            && (status.Some? && status.value.err ==> k == |r.polls| - 1 && r.outcome == Failed)
            && (status.Some? && !status.value.err && RankOf(status.value.confirmation) >= Rank(options.target) ==>
                  k == |r.polls| - 1 && r.outcome == Landed(status.value.confirmation.value))
  {
    assert k < |r.polls| - 1 ==> Unfinished(StatusAt(e.w, r.polls[k]), options.target);
    assert r.calls != [] ==> r.calls[|r.calls| - 1] in r.calls;
  }

  /** The loop reports an error only if a call it made threw. When none did, a status that has failed or has reached the
      target at any poll ends the loop there, with exactly that verdict. */
  lemma PollDecides(e: Env, options: Options, start: int, k: nat)
    requires options.pollIntervalMs > 0 && !options.target.Processed?
    requires var r := Confirmation(e, options, start); k < |r.polls| && forall c :: c in r.calls ==> !e.fails(c)
    ensures var r := Confirmation(e, options, start);
            var status := StatusAt(e.w, r.polls[k]);
            && !r.outcome.RpcError?
            && (status.Some? && status.value.err ==> k == |r.polls| - 1 && r.outcome == Failed)
            && (status.Some? && !status.value.err && RankOf(status.value.confirmation) >= Rank(options.target) ==>
                  k == |r.polls| - 1 && r.outcome == Landed(status.value.confirmation.value))
  {
    VerdictIsJustified(e, options, start + options.timeoutMs, start, 0);
    JustifiedDecides(e, options, Confirmation(e, options, start), k);
  }

  /** Nothing is decided at this moment. */
  predicate Quiet(w: World, options: Options, t: int) {
    && Unfinished(StatusAt(w, t), options.target)
    && (StatusAt(w, t).None? ==> w.height(t) <= options.lastValidBlockHeight)
  }

  /** What is decided at this moment, if it is not quiet. */
  predicate Decides(w: World, options: Options, t: int, outcome: Outcome) {
    match StatusAt(w, t)
    case None => outcome == BlockhashExpired
    case Some(status) =>
      if status.err then outcome == Failed
      else status.confirmation.Some? && outcome == Landed(status.confirmation.value)
  }

  /** The moment of the `k`-th poll when nothing takes time but the pauses. */
  function PollTime(options: Options, start: int, k: nat): int {
    start + k * options.pollIntervalMs
  }

  ghost predicate Prompt(e: Env) {
    forall i: nat :: e.delay(i) == 0 && !e.fails(i)
  }

  lemma {:induction false} PromptFrom(e: Env, options: Options, deadline: int, now: int, i: nat, k: nat)
    requires options.pollIntervalMs > 0 && !options.target.Processed? && Prompt(e)
    requires forall j: nat :: j < k ==>
               Quiet(e.w, options, PollTime(options, now, j)) && PollTime(options, now, j) < deadline
    ensures PollTime(options, now, k) < deadline && !Quiet(e.w, options, PollTime(options, now, k)) ==>
              Decides(e.w, options, PollTime(options, now, k), Poll(e, options, deadline, now, i).outcome)
    ensures PollTime(options, now, k) >= deadline ==> Poll(e, options, deadline, now, i).outcome == TimedOut
    decreases k
  {
    assert PollTime(options, now, 0) == now;
    if k > 0 {
      assert Quiet(e.w, options, PollTime(options, now, 0));
      var t := TurnAt(e, options, now, i);
      assert t.verdict.None? && t.now == now + options.pollIntervalMs;
      forall j: nat | j < k
        ensures PollTime(options, t.now, j) == PollTime(options, now, j + 1)
      {
        LaterPoll(options, now, j);
      }
      PromptFrom(e, options, deadline, t.now, t.i, k - 1);
    }
  }

  lemma LaterPoll(options: Options, now: int, j: nat)
    ensures PollTime(options, now + options.pollIntervalMs, j) == PollTime(options, now, j + 1)
  {}

  /** With answers at once, the polls come an interval apart: the first one that is not quiet decides if it comes before
      the deadline, and otherwise the loop times out. */
  lemma FirstDecisionCounts(e: Env, options: Options, start: int, k: nat)
    requires options.pollIntervalMs > 0 && !options.target.Processed? && Prompt(e)
    requires forall j: nat :: j < k ==>
               && Quiet(e.w, options, start + j * options.pollIntervalMs)
               && j * options.pollIntervalMs < options.timeoutMs
    ensures var t, outcome := start + k * options.pollIntervalMs, Confirmation(e, options, start).outcome;
            && (t < start + options.timeoutMs && !Quiet(e.w, options, t) ==> Decides(e.w, options, t, outcome))
            && (t >= start + options.timeoutMs ==> outcome == TimedOut)
  {
    forall j: nat | j < k
      ensures Quiet(e.w, options, PollTime(options, start, j))
      ensures PollTime(options, start, j) < start + options.timeoutMs
    {
      assert Quiet(e.w, options, start + j * options.pollIntervalMs);
    }
    PromptFrom(e, options, start + options.timeoutMs, start, 0, k);
  }

  /** An expiry verdict of the loop is right exactly when nothing landed between the two reads of its last poll. */
  lemma ExpiryVerdict(e: Env, options: Options, start: int)
    requires options.pollIntervalMs > 0 && !options.target.Processed? && Lawful(e.w, options.lastValidBlockHeight)
    requires Confirmation(e, options, start).outcome.BlockhashExpired?
    ensures var r := Confirmation(e, options, start);
            && r.polls != []
            && (e.w.landing.None? <==>
                !(e.w.landing.Some? && r.LastPoll() < e.w.landing.value.time <= r.heightRead))
  {
    VerdictIsJustified(e, options, start + options.timeoutMs, start, 0);
  }

  /** The race is real: on a lawful chain a transaction that landed at 5 ms, between the status
      read at 4 ms and the height read at 6 ms, is reported expired. */
  lemma ExpiryRace() returns (e: Env)
    ensures Lawful(e.w, 100) && e.w.landing == Some(Landing(5, 100, false))
    ensures Poll(e, Options(Confirmed, 100, 1_000, 60_000), 60_000, 0, 0) == Report(BlockhashExpired, [4], 6, [0, 2], 6)
  {
    var w := World(Some(Landing(5, 100, false)), t => Some(Confirmed), t => if t < 6 then 100 else 101);
    e := Env(w, i => if i == 0 then 4 else 1, i => false);
  }

  /** A success verdict of the loop stays true: from its last read on there is no error and the commitment never
      falls below the target. */
  lemma SuccessLasts(e: Env, options: Options, start: int, t: int)
    requires options.pollIntervalMs > 0 && !options.target.Processed? && CommitmentGrows(e.w)
    requires var r := Confirmation(e, options, start); r.outcome.Landed? && (r.polls != [] ==> r.LastPoll() <= t)
    ensures var status := StatusAt(e.w, t);
            status.Some? && !status.value.err && RankOf(status.value.confirmation) >= Rank(options.target)
  {
    VerdictIsJustified(e, options, start + options.timeoutMs, start, 0);
    assert RankOf(e.w.commitment(Confirmation(e, options, start).LastPoll())) <= RankOf(e.w.commitment(t));
  }

  /** No false timeout: a loop that times out has polled, and up to its last poll the transaction had neither failed
      nor reached the target. */
  lemma TimeoutMeansUnfinished(e: Env, options: Options, start: int, t: int)
    requires options.pollIntervalMs > 0 && options.timeoutMs > 0 && !options.target.Processed? && CommitmentGrows(e.w)
    requires Confirmation(e, options, start).outcome.TimedOut?
    ensures var r := Confirmation(e, options, start);
            r.polls != [] && (t <= r.LastPoll() ==> Unfinished(StatusAt(e.w, t), options.target))
  {
    VerdictIsJustified(e, options, start + options.timeoutMs, start, 0);
    var r := Confirmation(e, options, start);
    assert Unfinished(StatusAt(e.w, r.polls[|r.polls| - 1]), options.target);
    assert t <= r.LastPoll() ==> RankOf(e.w.commitment(t)) <= RankOf(e.w.commitment(r.LastPoll()));
  }

  // ----- withRetry -----

  const BASE_MS: nat := 250
  const MAX_MS: nat := 30_000

  /** 250 ms doubled for each attempt after the first, at most 30 s. */
  function RetryDelay(attempt: int): nat {
    var d := BASE_MS * Pow(2, if attempt - 1 > 0 then attempt - 1 else 0);
    if MAX_MS <= d then MAX_MS else d
  }

  lemma DelayGrowsToCap(a: int, b: int)
    requires a <= b
    ensures RetryDelay(a) <= RetryDelay(b) <= MAX_MS
  {
    PowMonotone(2, if a - 1 > 0 then a - 1 else 0, if b - 1 > 0 then b - 1 else 0);
  }

  /** The waits after `k` failed attempts. */
  function TotalDelay(k: nat): nat {
    if k == 0 then 0 else TotalDelay(k - 1) + RetryDelay(k)
  }

  /** Doubling for seven waits, then the cap. */
  lemma {:induction false} TotalDelayClosedForm(k: nat)
    ensures k <= 7 ==> TotalDelay(k) == 250 * (Pow(2, k) - 1)
    ensures k > 7 ==> TotalDelay(k) == 31_750 + 30_000 * (k - 7)
  {
    if k > 0 {
      TotalDelayClosedForm(k - 1);
      if k <= 7 {
        PowMonotone(2, k - 1, 6);
        assert Pow(2, 6) == 64;
      } else {
        PowMonotone(2, 7, k - 1);
        assert Pow(2, 7) == 128;
      }
    }
  }

  datatype Attempt<+T, +E> = Value(value: T) | Error(error: E)

  /** The last error is absent only when no attempt was allowed at all. */
  datatype Retried<+T, +E> = Ok(value: T) | Thrown(error: Option<E>)

  method WithRetry<T, E>(operation: nat -> Attempt<T, E>, retryable: E -> bool, maxAttempts: int)
    returns (r: Retried<T, E>, calls: nat, waited: nat)
    ensures calls <= if maxAttempts > 0 then maxAttempts else 0
    ensures forall i :: 1 <= i < calls ==> operation(i).Error? && retryable(operation(i).error)
    ensures r.Ok? ==> calls > 0 && operation(calls) == Value(r.value)
    ensures r.Thrown? && calls > 0 ==>
              && operation(calls).Error? && r.error == Some(operation(calls).error)
              && (calls == maxAttempts || !retryable(operation(calls).error))
    ensures calls == 0 <==> maxAttempts <= 0
    ensures calls == 0 ==> r == Thrown(None)
    ensures waited == TotalDelay(if calls > 0 then calls - 1 else 0)
  {
    waited := 0;
    var attempt := 1;
    while attempt <= maxAttempts
      invariant 1 <= attempt && (attempt == 1 || attempt <= maxAttempts)
      invariant forall i :: 1 <= i < attempt ==> operation(i).Error? && retryable(operation(i).error)
      invariant waited == TotalDelay(attempt - 1)
      decreases maxAttempts - attempt
    {
      match operation(attempt)
      case Value(v) =>
        return Ok(v), attempt, waited;
      case Error(e) =>
        if attempt == maxAttempts || !retryable(e) {
          return Thrown(Some(e)), attempt, waited;
        }
        waited := waited + RetryDelay(attempt);
        attempt := attempt + 1;
    }
    return Thrown(None), 0, 0;
  }
}
