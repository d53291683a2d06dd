/**
 `lib/lifecycle.ts`: the phases of one deposit, trading session and
 withdrawal, with a sequence counter for each chain.
 */
module Lifecycle {
  import opened Wrappers

  datatype Phase =
    | ReadOnly | DepositPending | FundedL1 | SessionPending | Delegated
    | CommitPending | Undelegating | WithdrawReady | Error

  datatype Event =
    | RequestDeposit | ConfirmDeposit | RequestSession | ConfirmDelegation(now: int) | RequestCommit
    | CommitConfirmed | RequestUndelegate | Undelegated | Withdraw | Fail | Reset

  datatype State = State(phase: Phase, l1Sequence: int, erSequence: int, sessionExpiresAt: Option<int>, error: bool)

  const INITIAL := State(ReadOnly, 0, 0, None, false)

  function Transition(s: State, e: Event): State {
    match e
    case RequestDeposit => if s.phase == ReadOnly then s.(phase := DepositPending) else s
    case ConfirmDeposit =>
      if s.phase == DepositPending then s.(phase := FundedL1, l1Sequence := s.l1Sequence + 1) else s
    case RequestSession => if s.phase == FundedL1 then s.(phase := SessionPending) else s
    case ConfirmDelegation(now) =>
      if s.phase == SessionPending
      then s.(phase := Delegated, erSequence := s.erSequence + 1, sessionExpiresAt := Some(now + 15 * 60_000))
      else s
    case RequestCommit => if s.phase == Delegated then s.(phase := CommitPending) else s
    case CommitConfirmed =>
      if s.phase == CommitPending then s.(phase := Delegated, l1Sequence := s.erSequence) else s
    case RequestUndelegate => if s.phase == Delegated then s.(phase := Undelegating) else s
    case Undelegated =>
      if s.phase == Undelegating
      then s.(phase := WithdrawReady, l1Sequence := s.erSequence, sessionExpiresAt := None) else s
    case Withdraw =>
      if s.phase == WithdrawReady
      then INITIAL.(l1Sequence := s.l1Sequence + 1, erSequence := s.erSequence + 1) else s
    case Fail => s.(phase := Error, error := true)
    case Reset => INITIAL
  }

  function Run(events: seq<Event>): State {
    if events == [] then INITIAL else Transition(Run(events[..|events| - 1]), events[|events| - 1])
  }

  /** The phase, or for an error the phase it was entered from. */
  function WorkingPhase(events: seq<Event>): Phase {
    if events == [] then ReadOnly
    else
      var front := events[..|events| - 1];
      var now := Run(events).phase;
      if now == Error then WorkingPhase(front) else now
  }

  /** Withdrawals made since the last reset. */
  function Withdrawals(events: seq<Event>): nat {
    if events == [] then 0
    else
      var front, last := events[..|events| - 1], events[|events| - 1];
      if last.Reset? then 0
      else if last.Withdraw? && Run(front).phase == WithdrawReady then Withdrawals(front) + 1
      else Withdrawals(front)
  }

  /** When the session was delegated that is open or was the last one open. */
  function DelegatedAt(events: seq<Event>): Option<int> {
    if events == [] then None
    else
      var front, last := events[..|events| - 1], events[|events| - 1];
      if last.ConfirmDelegation? && Run(front).phase == SessionPending then Some(last.now) else DelegatedAt(front)
  }

  /** Every reachable state, in closed form: a round trip adds two to both counters, L1 leads by one
      between the deposit and the delegation, and a session expires 15 minutes after it was delegated, exactly while
      it is open. */
  lemma {:induction false} ReachableStates(events: seq<Event>)
    ensures var s, p, w := Run(events), WorkingPhase(events), Withdrawals(events);
            && p != Error
            && (s.phase == Error <==> s.error)
            && s.l1Sequence == 2 * w + (if p in {ReadOnly, DepositPending} then 0 else 1)
            && s.erSequence == 2 * w + (if p in {ReadOnly, DepositPending, FundedL1, SessionPending} then 0 else 1)
            && (if p in {Delegated, CommitPending, Undelegating}
                then DelegatedAt(events).Some? && s.sessionExpiresAt == Some(DelegatedAt(events).value + 900_000)
                else s.sessionExpiresAt == None)
  {
    if events != [] { ReachableStates(events[..|events| - 1]); }
  }

  /** The lead of L1 is zero or one, and one exactly between deposit and delegation. */
  lemma LeadIsOneWhileFunded(events: seq<Event>)
    ensures var s := Run(events);
            && 0 <= s.l1Sequence - s.erSequence <= 1
            && (s.l1Sequence - s.erSequence == 1 <==> WorkingPhase(events) in {FundedL1, SessionPending})
  {
    ReachableStates(events);
  }

  /** No event but a reset lowers a counter, so a commit never takes back a number of L1. */
  lemma CountersOnlyResetLowers(events: seq<Event>, e: Event)
    requires !e.Reset?
    ensures Run(events).l1Sequence <= Run(events + [e]).l1Sequence
    ensures Run(events).erSequence <= Run(events + [e]).erSequence
  {
    assert (events + [e])[..|events|] == events;
    ReachableStates(events);
  }

  const ROUND_TRIP := {(ReadOnly, DepositPending), (DepositPending, FundedL1), (FundedL1, SessionPending),
                       (SessionPending, Delegated), (Delegated, CommitPending), (CommitPending, Delegated),
                       (Delegated, Undelegating), (Undelegating, WithdrawReady), (WithdrawReady, ReadOnly)}

  /** An event moves along the round trip, fails, resets, or changes nothing at all. */
  lemma MovesAlongRoundTrip(s: State, e: Event)
    ensures var t := Transition(s, e);
            if e.Fail? then t.phase == Error && t.error
            else if e.Reset? then t == State(ReadOnly, 0, 0, None, false)
            else t == s || (s.phase, t.phase) in ROUND_TRIP
  {}

  /** From rest a session opens; an open one closes again, committed before or not, and brings back a market at rest. */
  lemma RoundTripGoesThrough(s: State, now: int)
    ensures s.phase == ReadOnly ==>
              && var t := After4(s, RequestDeposit, ConfirmDeposit, RequestSession, ConfirmDelegation(now));
                 t == State(Delegated, s.l1Sequence + 1, s.erSequence + 1, Some(now + 900_000), s.error)
    ensures s.phase == Delegated ==>
              && Transition(Transition(s, RequestCommit), CommitConfirmed) == s.(l1Sequence := s.erSequence)
              && Transition(Transition(Transition(s, RequestUndelegate), Undelegated), Withdraw)
              == State(ReadOnly, s.erSequence + 1, s.erSequence + 1, None, false)
  {}

  function After4(s: State, a: Event, b: Event, c: Event, d: Event): State {
    Transition(Transition(Transition(Transition(s, a), b), c), d)
  }
}
