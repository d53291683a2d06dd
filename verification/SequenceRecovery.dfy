/**
 `lib/sequence-recovery.ts` and its use in `features/activity/use-market-events.ts`:
 two independently numbered streams share one socket, and the client tracks
 one cursor for each.
 */
module SequenceRecovery {
  import opened Wrappers
  import opened Types
  import Indexer

  datatype DomainCursor = DomainCursor(sequence: int, slot: int)

  datatype Tracker = Tracker(l1: Option<DomainCursor>, er: Option<DomainCursor>) {
    function Get(d: Domain): Option<DomainCursor> {
      match d case L1 => l1 case Er => er
    }

    function Set(d: Domain, c: DomainCursor): Tracker {
      match d case L1 => this.(l1 := Some(c)) case Er => this.(er := Some(c))
    }
  }

  const INITIAL := Tracker(None, None)

  datatype SequencedEvent = SequencedEvent(domain: Domain, sequence: int, slot: Option<int>)

  datatype Verdict = First | InOrder | Duplicate | Gap | SlotRegression

  datatype Advance = Advance(state: Tracker, outcome: Verdict, missed: int)

  // ----- the code -----

  function SlotOr(slot: Option<int>, fallback: int): int {
    if slot.Some? then slot.value else fallback
  }

  function AdvanceSequence(state: Tracker, event: SequencedEvent): Advance {
    var prior := state.Get(event.domain);
    var slot := SlotOr(event.slot, if prior.Some? then prior.value.slot else 0);
    if prior.None? then
      Advance(state.Set(event.domain, DomainCursor(event.sequence, slot)), First, 0)
    else if event.sequence <= prior.value.sequence then
      Advance(state, Duplicate, 0)
    else if event.slot.Some? && event.slot.value < prior.value.slot then
      Advance(state.Set(event.domain, DomainCursor(event.sequence, prior.value.slot)), SlotRegression, 0)
    else if event.sequence > prior.value.sequence + 1 then
      Advance(state.Set(event.domain, DomainCursor(event.sequence, slot)), Gap,
              event.sequence - prior.value.sequence - 1)
    else
      Advance(state.Set(event.domain, DomainCursor(event.sequence, slot)), InOrder, 0)
  }

  /** The first of the highest-numbered events of one domain. */
  function Highest(events: seq<SequencedEvent>, d: Domain): Option<DomainCursor> {
    if events == [] then None
    else
      var best, e := Highest(events[..|events| - 1], d), events[|events| - 1];
      if e.domain == d && (best.None? || e.sequence > best.value.sequence)
      then Some(DomainCursor(e.sequence, SlotOr(e.slot, 0)))
      else best
  }

  /** A seed is an event of the domain, no event of it has a higher number, and those before it have lower ones. */
  lemma {:induction false} HighestIsFirstHighest(events: seq<SequencedEvent>, d: Domain) returns (at: nat)
    ensures Highest(events, d).None? <==> forall i :: 0 <= i < |events| ==> events[i].domain != d
    ensures Highest(events, d).Some? ==>
              && at < |events| && events[at].domain == d
              && Highest(events, d).value
              == DomainCursor(events[at].sequence, if events[at].slot.Some? then events[at].slot.value else 0)
              && (forall i :: 0 <= i < |events| && events[i].domain == d ==> events[i].sequence <= events[at].sequence)
              && (forall i :: 0 <= i < at && events[i].domain == d ==> events[i].sequence < events[at].sequence)
  {
    at := 0;
    if events != [] {
      var front, e := events[..|events| - 1], events[|events| - 1];
      var k := HighestIsFirstHighest(front, d);
      var best := Highest(front, d);
      at := if e.domain == d && (best.None? || e.sequence > best.value.sequence) then |events| - 1 else k;
      assert events == front + [e];
    }
  }

  function SeedDomain(state: Tracker, events: seq<SequencedEvent>, d: Domain): Tracker {
    var highest := Highest(events, d);
    if highest.Some? && (state.Get(d).None? || highest.value.sequence > state.Get(d).value.sequence)
    then state.Set(d, highest.value)
    else state
  }

  function Seeded(state: Tracker, events: seq<SequencedEvent>): Tracker {
    SeedDomain(SeedDomain(state, events, L1), events, Er)
  }

  method SeedFromSnapshot(state: Tracker, events: seq<SequencedEvent>) returns (next: Tracker)
    ensures next == Seeded(state, events)
  {
    next := state;
    var domains := [L1, Er];
    for k := 0 to 2
      invariant next == if k == 0 then state else if k == 1 then SeedDomain(state, events, L1)
                else Seeded(state, events)
    {
      var best: Option<DomainCursor> := None;
      for i := 0 to |events|
        invariant best == Highest(events[..i], domains[k])
      {
        var e := events[i];
        assert events[..i + 1][..i] == events[..i];
        if e.domain == domains[k] && (best.None? || e.sequence > best.value.sequence) {
          best := Some(DomainCursor(e.sequence, SlotOr(e.slot, 0)));
        }
      }
      assert events[..|events|] == events;
      if best.Some? && (next.Get(domains[k]).None? || best.value.sequence > next.Get(domains[k]).value.sequence) {
        next := next.Set(domains[k], best.value);
      }
    }
  }

  // ----- runs of messages and snapshot seeds -----

  datatype Step = Message(event: SequencedEvent) | Seed(events: seq<SequencedEvent>)

  function Apply(t: Tracker, step: Step): Tracker {
    match step
    case Message(e) => AdvanceSequence(t, e).state
    case Seed(events) => Seeded(t, events)
  }

  function Run(t: Tracker, steps: seq<Step>): Tracker {
    if steps == [] then t else Apply(Run(t, steps[..|steps| - 1]), steps[|steps| - 1])
  }

  predicate NotBehind(c: Option<DomainCursor>, c': Option<DomainCursor>) {
    c.Some? ==> c'.Some? && c.value.sequence <= c'.value.sequence
  }

  /** No run, seeds included, moves a cursor backwards. */
  lemma {:induction false} CursorNeverDecreases(t: Tracker, steps: seq<Step>, k: nat, d: Domain)
    requires k <= |steps|
    ensures NotBehind(Run(t, steps[..k]).Get(d), Run(t, steps).Get(d))
  {
    if k == |steps| {
      assert steps[..k] == steps;
    } else {
      var front := steps[..|steps| - 1];
      CursorNeverDecreases(t, front, k, d);
      assert front[..k] == steps[..k];
    }
  }

  /** The numbers of domain `d` that the run accepts, in order. */
  function Accepted(t: Tracker, steps: seq<Step>, d: Domain): seq<int> {
    if steps == [] then []
    else
      var front, last := steps[..|steps| - 1], steps[|steps| - 1];
      if last.Message? && last.event.domain == d && !AdvanceSequence(Run(t, front), last.event).outcome.Duplicate?
      then Accepted(t, front, d) + [last.event.sequence]
      else Accepted(t, front, d)
  }

  predicate Increasing(s: seq<int>) {
    forall i, j :: 0 <= i < j < |s| ==> s[i] < s[j]
  }

  /** Nothing is accepted twice or out of order, whatever snapshots come between. */
  lemma {:induction false} AcceptedIncrease(t: Tracker, steps: seq<Step>, d: Domain)
    ensures var a, c := Accepted(t, steps, d), Run(t, steps).Get(d);
            && Increasing(a)
            && (a != [] ==> c.Some? && a[|a| - 1] <= c.value.sequence)
            && (a != [] && t.Get(d).Some? ==> t.Get(d).value.sequence < a[0])
  {
    if steps != [] {
      var front, last := steps[..|steps| - 1], steps[|steps| - 1];
      AcceptedIncrease(t, front, d);
      CursorNeverDecreases(t, steps, |front|, d);
      CursorNeverDecreases(t, front, 0, d);
      assert front[..0] == [];
    }
  }

  // ----- the two domains do not meet -----

  function Project(steps: seq<Step>, d: Domain): seq<Step> {
    if steps == [] then []
    else
      var front, last := Project(steps[..|steps| - 1], d), steps[|steps| - 1];
      match last
      case Message(e) => if e.domain == d then front + [last] else front
      case Seed(events) => front + [Seed(OfDomain(events, d))]
  }

  function OfDomain(events: seq<SequencedEvent>, d: Domain): seq<SequencedEvent> {
    if events == [] then []
    else
      var front, last := OfDomain(events[..|events| - 1], d), events[|events| - 1];
      if last.domain == d then front + [last] else front
  }

  lemma {:induction false} HighestOfDomain(events: seq<SequencedEvent>, d: Domain)
    ensures Highest(OfDomain(events, d), d) == Highest(events, d)
  {
    if events != [] {
      var front := events[..|events| - 1];
      HighestOfDomain(front, d);
      var kept := OfDomain(events, d);
      if events[|events| - 1].domain == d { assert kept[..|kept| - 1] == OfDomain(front, d); }
    }
  }

  lemma SeedIsLocal(a: Tracker, b: Tracker, events: seq<SequencedEvent>, d: Domain)
    requires a.Get(d) == b.Get(d)
    ensures Seeded(a, events).Get(d) == Seeded(b, OfDomain(events, d)).Get(d)
  {
    HighestOfDomain(events, d);
  }

  lemma MessageIsLocal(a: Tracker, b: Tracker, e: SequencedEvent, d: Domain)
    requires a.Get(d) == b.Get(d)
    ensures e.domain == d ==>
              && AdvanceSequence(a, e).state.Get(d) == AdvanceSequence(b, e).state.Get(d)
              && AdvanceSequence(a, e).outcome == AdvanceSequence(b, e).outcome
    ensures e.domain != d ==> AdvanceSequence(a, e).state.Get(d) == a.Get(d)
  {}

  lemma RunSnoc(t: Tracker, steps: seq<Step>, last: Step)
    ensures Run(t, steps + [last]) == Apply(Run(t, steps), last)
  {
    assert (steps + [last])[..|steps|] == steps;
  }

  /** What one step adds to the accepted numbers. */
  function Gives(t: Tracker, step: Step, d: Domain): seq<int> {
    if step.Message? && step.event.domain == d && !AdvanceSequence(t, step.event).outcome.Duplicate?
    then [step.event.sequence] else []
  }

  lemma AcceptedStep(t: Tracker, steps: seq<Step>, last: Step, d: Domain)
    ensures Accepted(t, steps + [last], d) == Accepted(t, steps, d) + Gives(Run(t, steps), last, d)
  {
    assert (steps + [last])[..|steps|] == steps;
  }

  /** The part of one step that concerns a domain. */
  function ProjectStep(step: Step, d: Domain): Option<Step> {
    match step
    case Message(e) => if e.domain == d then Some(step) else None
    case Seed(events) => Some(Seed(OfDomain(events, d)))
  }

  lemma ProjectSnoc(steps: seq<Step>, last: Step, d: Domain)
    ensures var part := ProjectStep(last, d);
            Project(steps + [last], d) == if part.Some? then Project(steps, d) + [part.value] else Project(steps, d)
  {
    assert (steps + [last])[..|steps|] == steps;
  }

  lemma StepIsLocal(a: Tracker, b: Tracker, step: Step, d: Domain)
    requires a.Get(d) == b.Get(d)
    ensures var part := ProjectStep(step, d);
            if part.None? then Apply(a, step).Get(d) == b.Get(d) && Gives(a, step, d) == []
            else Apply(a, step).Get(d) == Apply(b, part.value).Get(d) && Gives(a, step, d) == Gives(b, part.value, d)
  {
    match step
    case Message(e) => MessageIsLocal(a, b, e, d);
    case Seed(events) => SeedIsLocal(a, b, events, d);
  }

  lemma IndependentSnoc(t: Tracker, front: seq<Step>, last: Step, d: Domain)
    requires Run(t, front).Get(d) == Run(t, Project(front, d)).Get(d)
    requires Accepted(t, front, d) == Accepted(t, Project(front, d), d)
    ensures Run(t, front + [last]).Get(d) == Run(t, Project(front + [last], d)).Get(d)
    ensures Accepted(t, front + [last], d) == Accepted(t, Project(front + [last], d), d)
  {
    var p, part := Project(front, d), ProjectStep(last, d);
    StepIsLocal(Run(t, front), Run(t, p), last, d);
    RunSnoc(t, front, last);
    AcceptedStep(t, front, last, d);
    ProjectSnoc(front, last, d);
    if part.Some? {
      RunSnoc(t, p, part.value);
      AcceptedStep(t, p, part.value, d);
    }
  }

  /** The interleaved run is the two single-domain runs side by side: same cursor, same acceptances. */
  lemma {:induction false} DomainsAreIndependent(t: Tracker, steps: seq<Step>, d: Domain)
    ensures Run(t, steps).Get(d) == Run(t, Project(steps, d)).Get(d)
    ensures Accepted(t, steps, d) == Accepted(t, Project(steps, d), d)
  {
    if steps != [] {
      var front, last := steps[..|steps| - 1], steps[|steps| - 1];
      DomainsAreIndependent(t, front, d);
      assert steps == front + [last];
      IndependentSnoc(t, front, last, d);
    }
  }

  // ----- counting -----

  /** What the client counts over a run of one domain's messages. */
  datatype Tally = Tally(inOrder: nat, gaps: nat, missed: int, regressionJumps: int)

  function Count(t: Tracker, events: seq<SequencedEvent>): Tally {
    if events == [] then Tally(0, 0, 0, 0)
    else
      var front, e := events[..|events| - 1], events[|events| - 1];
      var before := Run(t, Messages(front));
      var c, r := Count(t, front), AdvanceSequence(before, e);
      match r.outcome
      case InOrder => c.(inOrder := c.inOrder + 1)
      case Gap => c.(gaps := c.gaps + 1, missed := c.missed + r.missed)
      case SlotRegression =>
        c.(regressionJumps := c.regressionJumps + e.sequence - before.Get(e.domain).value.sequence)
      case _ => c
  }

  function Messages(events: seq<SequencedEvent>): (s: seq<Step>)
    ensures |s| == |events|
  {
    if events == [] then [] else Messages(events[..|events| - 1]) + [Message(events[|events| - 1])]
  }

  /** Every number between the first and the last is in order, a reported gap's end,
      reported missed, or jumped by a slot regression (which reports no number missed). */
  lemma {:induction false} NumbersAccountedFor(t: Tracker, events: seq<SequencedEvent>, d: Domain)
    requires t.Get(d).Some? && forall i :: 0 <= i < |events| ==> events[i].domain == d
    ensures Run(t, Messages(events)).Get(d).Some?
    ensures var c := Count(t, events);
            Run(t, Messages(events)).Get(d).value.sequence - t.Get(d).value.sequence
              == c.inOrder + c.gaps + c.missed + c.regressionJumps
  {
    if events != [] {
      var front := events[..|events| - 1];
      NumbersAccountedFor(t, front, d);
      assert Messages(events)[..|front|] == Messages(front);
    }
  }

  /** The highest number met, from a starting one. */
  function HighNumber(start: int, events: seq<SequencedEvent>): int {
    if events == [] then start
    else
      var high, e := HighNumber(start, events[..|events| - 1]), events[|events| - 1];
      if e.sequence > high then e.sequence else high
  }

  /** The highest slot of an event that raised the number. */
  function HighSlot(c: DomainCursor, events: seq<SequencedEvent>): int {
    if events == [] then c.slot
    else
      var front, e := events[..|events| - 1], events[|events| - 1];
      var high := HighSlot(c, front);
      if e.sequence > HighNumber(c.sequence, front) && e.slot.Some? && e.slot.value > high then e.slot.value else high
  }

  /** No event with a new highest number carries a slot below the highest before it. */
  predicate SlotsRise(c: DomainCursor, events: seq<SequencedEvent>) {
    events == [] ||
    var front, e := events[..|events| - 1], events[|events| - 1];
    && SlotsRise(c, front)
    && (e.sequence > HighNumber(c.sequence, front) && e.slot.Some? ==> e.slot.value >= HighSlot(c, front))
  }

  /** A run of one domain's messages leaves the highest number, and the highest slot that came with a new one. */
  lemma {:induction false} CursorIsHighest(t: Tracker, events: seq<SequencedEvent>, d: Domain)
    requires t.Get(d).Some? && forall i :: 0 <= i < |events| ==> events[i].domain == d
    ensures Run(t, Messages(events)).Get(d).Some?
    ensures var c := Run(t, Messages(events)).Get(d).value;
            && c.sequence == HighNumber(t.Get(d).value.sequence, events)
            && c.slot == HighSlot(t.Get(d).value, events)
  {
    if events != [] {
      var front := events[..|events| - 1];
      CursorIsHighest(t, front, d);
      assert Messages(events)[..|front|] == Messages(front);
    }
  }

  /** A number that was not the next, or came with a slot below the cursor's. */
  predicate Alarming(c: Option<DomainCursor>, e: SequencedEvent) {
    && c.Some? && c.value.sequence < e.sequence
    && (e.sequence != c.value.sequence + 1 || (e.slot.Some? && e.slot.value < c.value.slot))
  }

  /** How many of a run of messages are such. */
  function AlarmsIn(t: Tracker, events: seq<SequencedEvent>): nat {
    if events == [] then 0
    else
      var front, e := events[..|events| - 1], events[|events| - 1];
      AlarmsIn(t, front) + if Alarming(Run(t, Messages(front)).Get(e.domain), e) then 1 else 0
  }

  /** What each message is taken for, by its domain's cursor, and how many numbers are reported missed. */
  lemma VerdictIff(t: Tracker, e: SequencedEvent)
    ensures var c, r := t.Get(e.domain), AdvanceSequence(t, e);
            && (r.outcome == First <==> c.None?)
            && (r.outcome == Duplicate <==> c.Some? && e.sequence <= c.value.sequence)
            && (r.outcome in {Gap, SlotRegression} <==> Alarming(c, e))
            && (r.outcome == SlotRegression <==> Alarming(c, e) && e.slot.Some? && e.slot.value < c.value.slot)
            && r.missed == (if r.outcome == Gap then e.sequence - c.value.sequence - 1 else 0)
            && (r.outcome == First ==>
                  r.state.Get(e.domain) == Some(DomainCursor(e.sequence, if e.slot.Some? then e.slot.value else 0)))
  {}

  /** The report is complete if and only if slots rise with numbers. */
  lemma {:induction false} ReportIsComplete(t: Tracker, events: seq<SequencedEvent>, d: Domain)
    requires t.Get(d).Some? && forall i :: 0 <= i < |events| ==> events[i].domain == d
    ensures Count(t, events).regressionJumps >= 0
    ensures Count(t, events).regressionJumps == 0 <==> SlotsRise(t.Get(d).value, events)
    ensures Run(t, Messages(events)).Get(d).Some?
    ensures var c := Count(t, events);
            Run(t, Messages(events)).Get(d).value.sequence - t.Get(d).value.sequence == c.inOrder + c.gaps + c.missed
            <==> SlotsRise(t.Get(d).value, events)
  {
    NumbersAccountedFor(t, events, d);
    if events != [] {
      var front := events[..|events| - 1];
      ReportIsComplete(t, front, d);
      CursorIsHighest(t, front, d);
      assert Messages(events)[..|front|] == Messages(front);
    }
  }

  /** A jump from 4 to 9 under a lower slot is reported with nothing missed. */
  lemma RegressionHidesMissed()
    ensures var t := Tracker(Some(DomainCursor(4, 10)), None);
            var r := AdvanceSequence(t, SequencedEvent(L1, 9, Some(9)));
            r.outcome == SlotRegression && r.missed == 0 && r.state.Get(L1) == Some(DomainCursor(9, 10))
  {}

  /** From nothing, the first message sets the baseline. */
  lemma FirstMessageIsBaseline(events: seq<SequencedEvent>, d: Domain)
    requires events != [] && forall i :: 0 <= i < |events| ==> events[i].domain == d
    ensures var t := AdvanceSequence(INITIAL, events[0]).state;
            var c := Count(t, events[1..]);
            && AdvanceSequence(INITIAL, events[0]).outcome == First
            && Run(t, Messages(events[1..])).Get(d).Some?
            && Run(t, Messages(events[1..])).Get(d).value.sequence - events[0].sequence
               == c.inOrder + c.gaps + c.missed + c.regressionJumps
  {
    NumbersAccountedFor(AdvanceSequence(INITIAL, events[0]).state, events[1..], d);
  }

  // ----- agreement with the indexer -----

  /** An event as both sides see it. */
  function Sequenced<P>(d: Domain, e: MarketEvent<P>): SequencedEvent
    requires e.sequence.Some?
  {
    SequencedEvent(d, e.sequence.value, e.slot)
  }

  /** From the same number, the client meets a hole exactly where the indexer does,
      and otherwise both move to the same number. */
  lemma AgreesWithIndexer<P>(t: Tracker, s: Indexer.Snapshot<P>, e: MarketEvent<P>)
    requires t.Get(s.domain).Some? && t.Get(s.domain).value.sequence == s.sequence
    requires e.sequence.Some? && (e.domain.None? || e.domain.value == s.domain)
    ensures var r, next := AdvanceSequence(t, Sequenced(s.domain, e)), Indexer.Step(s, e);
            && (next.Some? ==> r.state.Get(s.domain).value.sequence == next.value.sequence && !r.outcome.Gap?)
            && (next.None? ==> r.outcome.Gap? || r.outcome.SlotRegression?)
            && (r.outcome.Gap? ==> next.None?)
            && (r.outcome.Duplicate? <==> next == Some(s) && e.sequence.value <= s.sequence)
  {}

  function SequencedAll<P>(d: Domain, events: seq<MarketEvent<P>>): (r: seq<SequencedEvent>)
    requires forall i :: 0 <= i < |events| ==> events[i].sequence.Some?
    ensures |r| == |events|
  {
    seq(|events|, i requires 0 <= i < |events| => Sequenced(d, events[i]))
  }

  /** Fed one event at a time, the client's cursor is the indexer's number, and it reports no gap where the indexer
      finds none. A message of several events is another matter: see `BatchAgreesWithIndexer`. */
  lemma {:induction false} TracksIndexer<P>(t: Tracker, s: Indexer.Snapshot<P>, events: seq<MarketEvent<P>>)
    requires t.Get(s.domain).Some? && t.Get(s.domain).value.sequence == s.sequence
    requires forall i :: 0 <= i < |events| ==> events[i].sequence.Some?
    requires Indexer.Reconcile(s, events).Applied?
    ensures var steps := SequencedAll(s.domain, events);
            && Count(t, steps).gaps == 0
            && Run(t, Messages(steps)).Get(s.domain).Some?
            && Run(t, Messages(steps)).Get(s.domain).value.sequence == Indexer.Reconcile(s, events).snapshot.sequence
  {
    if events != [] {
      var front, e := events[..|events| - 1], events[|events| - 1];
      assert events == front + [e];
      Indexer.ReconcileConcat(s, front, [e]);
      TracksIndexer(t, s, front);
      Indexer.IdentityKept(s, front);
      var steps := SequencedAll(s.domain, events);
      assert steps[..|front|] == SequencedAll(s.domain, front);
      assert Messages(steps)[..|front|] == Messages(steps[..|front|]);
      var mid := Indexer.Reconcile(s, front).snapshot;
      assert Indexer.Reconcile(mid, [e]).Applied? ==> Indexer.Step(mid, e).Some?;
      assert e == events[|events| - 1];
      Indexer.AppliedExactlyWithoutHoles(s, events);
      assert Indexer.Fits(s.domain, Indexer.High(s.sequence, events[..|front|]), e);
      AgreesWithIndexer(Run(t, Messages(steps[..|front|])), mid, e);
    }
  }

  // ----- the hook's state -----

  const MAX_EVENTS := 100

  predicate HasSequenceAndDomain<P>(e: MarketEvent<P>) {
    e.sequence.Some? && e.domain.Some?
  }

  /** What one message of several events does to tracker, list and counters. */
  datatype Ingested<P> = Ingested(tracker: Tracker, accepted: seq<MarketEvent<P>>, gaps: nat, duplicates: nat)

  /** One event of a message: shown as it is, a duplicate, or accepted. */
  function Added<P>(r: Ingested<P>, e: MarketEvent<P>): Ingested<P> {
    if !HasSequenceAndDomain(e) then r.(accepted := r.accepted + [e])
    else
      var a := AdvanceSequence(r.tracker, Sequenced(e.domain.value, e));
      match a.outcome
      case Duplicate => r.(tracker := a.state, duplicates := r.duplicates + 1)
      case Gap => r.(tracker := a.state, accepted := r.accepted + [e], gaps := r.gaps + 1)
      case SlotRegression => r.(tracker := a.state, accepted := r.accepted + [e], gaps := r.gaps + 1)
      case _ => r.(tracker := a.state, accepted := r.accepted + [e])
  }

  function Ingest<P>(t: Tracker, incoming: seq<MarketEvent<P>>): Ingested<P> {
    if incoming == [] then Ingested(t, [], 0, 0)
    else Added(Ingest(t, incoming[..|incoming| - 1]), incoming[|incoming| - 1])
  }

  function Tracked<P>(events: seq<MarketEvent<P>>): seq<SequencedEvent> {
    if events == [] then []
    else
      var front, e := Tracked(events[..|events| - 1]), events[|events| - 1];
      if HasSequenceAndDomain(e) then front + [Sequenced(e.domain.value, e)] else front
  }

  function Take<T>(s: seq<T>, k: nat): seq<T> {
    if |s| <= k then s else s[..k]
  }

  function Reversed<T>(s: seq<T>): seq<T> {
    if s == [] then [] else [s[|s| - 1]] + Reversed(s[..|s| - 1])
  }

  /** A message is ingested in reverse. */
  function OfMessage<P>(t: Tracker, received: seq<MarketEvent<P>>): Ingested<P> {
    Ingest(t, Reversed(received))
  }

  class MarketEvents<P> {
    var tracker: Tracker
    var events: seq<MarketEvent<P>>
    var gapCount: nat
    var duplicateCount: nat

    constructor ()
      ensures tracker == INITIAL && events == [] && gapCount == 0 && duplicateCount == 0
    {
      tracker, events, gapCount, duplicateCount := INITIAL, [], 0, 0;
    }

    /** The loop over events in the order it is given them. */
    method IngestEvents(incoming: seq<MarketEvent<P>>)
      modifies this
      ensures var r := Ingest(old(tracker), incoming);
              && tracker == r.tracker
              && gapCount == old(gapCount) + r.gaps
              && duplicateCount == old(duplicateCount) + r.duplicates
              && events == if r.accepted == [] then old(events) else Take(r.accepted + old(events), 100)
    {
      var accepted := [];
      for i := 0 to |incoming|
        invariant events == old(events)
        invariant var r := Ingest(old(tracker), incoming[..i]);
                  && tracker == r.tracker && accepted == r.accepted
                  && gapCount == old(gapCount) + r.gaps
                  && duplicateCount == old(duplicateCount) + r.duplicates
      {
        var event := incoming[i];
        assert incoming[..i + 1][..i] == incoming[..i];
        if !HasSequenceAndDomain(event) {
          accepted := accepted + [event];
          continue;
        }
        var result := AdvanceSequence(tracker, Sequenced(event.domain.value, event));
        tracker := result.state;
        if result.outcome == Duplicate {
          duplicateCount := duplicateCount + 1;
          continue;
        }
        if result.outcome == Gap || result.outcome == SlotRegression {
          gapCount := gapCount + 1;
          accepted := accepted + [event];
          continue;
        }
        accepted := accepted + [event];
      }
      assert incoming[..|incoming|] == incoming;
      if |accepted| > 0 {
        events := Take(accepted + events, MAX_EVENTS);
      }
    }

    /** A socket message: its events are ingested last first, so it loses none exactly when its numbers
        fall in each domain and stay above the cursor. */
    method OnMessage(received: seq<MarketEvent<P>>)
      modifies this
      ensures var r := OfMessage(old(tracker), received);
              && tracker == r.tracker
              && gapCount == old(gapCount) + r.gaps
              && duplicateCount == old(duplicateCount) + r.duplicates
              && events == if r.accepted == [] then old(events) else Take(r.accepted + old(events), 100)
      ensures gapCount == old(gapCount) + AlarmsIn(old(tracker), Tracked(Reversed(received)))
      ensures duplicateCount == old(duplicateCount) <==>
              forall d: Domain :: FallsAbove(NumberOf(old(tracker).Get(d)), Numbers(received, d))
    {
      MessageLosesNothing(tracker, received);
      GapsAreAlarms(tracker, Reversed(received));
      IngestEvents(Reversed(received));
    }

    method LoadSnapshot(fetched: seq<MarketEvent<P>>)
      modifies this
      ensures tracker == Seeded(old(tracker), Tracked(fetched))
      ensures events == Take(Reversed(fetched), 100)
      ensures gapCount == old(gapCount) && duplicateCount == old(duplicateCount)
    {
      tracker := SeedFromSnapshot(tracker, Tracked(fetched));
      events := Take(Reversed(fetched), MAX_EVENTS);
    }
  }

  /** The hook counts a gap for each alarming message. */
  lemma {:induction false} GapsAreAlarms<P>(t: Tracker, incoming: seq<MarketEvent<P>>)
    ensures Ingest(t, incoming).gaps == AlarmsIn(t, Tracked(incoming))
  {
    if incoming != [] {
      var front, e := incoming[..|incoming| - 1], incoming[|incoming| - 1];
      GapsAreAlarms(t, front);
      IngestIsRun(t, front);
      if HasSequenceAndDomain(e) {
        var q := Sequenced(e.domain.value, e);
        assert (Tracked(front) + [q])[..|Tracked(front)|] == Tracked(front);
        VerdictIff(Ingest(t, front).tracker, q);
      }
    }
  }

  /** The sequence numbers of one domain in a list of events. */
  function Numbers<P>(events: seq<MarketEvent<P>>, d: Domain): seq<int> {
    if events == [] then []
    else
      var front, e := Numbers(events[..|events| - 1], d), events[|events| - 1];
      if HasSequenceAndDomain(e) && e.domain.value == d then front + [e.sequence.value] else front
  }

  lemma NumbersSnoc<P>(events: seq<MarketEvent<P>>, e: MarketEvent<P>, d: Domain)
    ensures Numbers(events + [e], d)
         == Numbers(events, d) + if HasSequenceAndDomain(e) && e.domain.value == d then [e.sequence.value] else []
  {
    assert (events + [e])[..|events|] == events;
  }

  lemma TrackedSnoc<P>(front: seq<MarketEvent<P>>, e: MarketEvent<P>)
    requires HasSequenceAndDomain(e)
    ensures Messages(Tracked(front + [e])) == Messages(Tracked(front)) + [Message(Sequenced(e.domain.value, e))]
  {
    assert (front + [e])[..|front|] == front;
    var s := Tracked(front);
    var x := Sequenced(e.domain.value, e);
    assert (s + [x])[..|s|] == s;
  }

  /** Ingesting is a run of the state machine above over the events in the order given. */
  lemma {:induction false} IngestIsRun<P>(t: Tracker, incoming: seq<MarketEvent<P>>)
    ensures Ingest(t, incoming).tracker == Run(t, Messages(Tracked(incoming)))
  {
    if incoming != [] {
      var front, e := incoming[..|incoming| - 1], incoming[|incoming| - 1];
      IngestIsRun(t, front);
      if HasSequenceAndDomain(e) {
        assert incoming == front + [e];
        TrackedSnoc(front, e);
        RunSnoc(t, Messages(Tracked(front)), Message(Sequenced(e.domain.value, e)));
      }
    }
  }

  /** What one event adds to the list, by number. */
  lemma AddedShows<P>(r: Ingested<P>, e: MarketEvent<P>, d: Domain)
    ensures Numbers(Added(r, e).accepted, d)
         == Numbers(r.accepted, d)
            + (if HasSequenceAndDomain(e) && e.domain.value == d
                  && !AdvanceSequence(r.tracker, Sequenced(d, e)).outcome.Duplicate? then [e.sequence.value] else [])
    ensures |Added(r, e).accepted| + Added(r, e).duplicates == |r.accepted| + r.duplicates + 1
  {
    NumbersSnoc(r.accepted, e, d);
  }

  lemma AcceptedOfTracked<P>(t: Tracker, front: seq<MarketEvent<P>>, e: MarketEvent<P>, d: Domain)
    ensures Accepted(t, Messages(Tracked(front + [e])), d)
         == Accepted(t, Messages(Tracked(front)), d)
            + (if HasSequenceAndDomain(e) && e.domain.value == d
                  && !AdvanceSequence(Ingest(t, front).tracker, Sequenced(d, e)).outcome.Duplicate?
                     then [e.sequence.value] else [])
  {
    if HasSequenceAndDomain(e) {
      IngestIsRun(t, front);
      TrackedSnoc(front, e);
      AcceptedStep(t, Messages(Tracked(front)), Message(Sequenced(e.domain.value, e)), d);
    } else {
      assert (front + [e])[..|front|] == front;
    }
  }

  lemma IngestSnoc<P>(t: Tracker, front: seq<MarketEvent<P>>, e: MarketEvent<P>)
    ensures Ingest(t, front + [e]) == Added(Ingest(t, front), e)
  {
    assert (front + [e])[..|front|] == front;
  }

  lemma IngestShowsSnoc<P>(t: Tracker, front: seq<MarketEvent<P>>, e: MarketEvent<P>, d: Domain)
    requires Numbers(Ingest(t, front).accepted, d) == Accepted(t, Messages(Tracked(front)), d)
    requires |Ingest(t, front).accepted| + Ingest(t, front).duplicates == |front|
    ensures Numbers(Ingest(t, front + [e]).accepted, d) == Accepted(t, Messages(Tracked(front + [e])), d)
    ensures |Ingest(t, front + [e]).accepted| + Ingest(t, front + [e]).duplicates == |front| + 1
  {
    IngestSnoc(t, front, e);
    AddedShows(Ingest(t, front), e, d);
    AcceptedOfTracked(t, front, e, d);
  }

  /** What the hook shows of a domain is what the run accepts, and every event is shown or counted a duplicate. */
  lemma {:induction false} IngestShowsAccepted<P>(t: Tracker, incoming: seq<MarketEvent<P>>, d: Domain)
    ensures Numbers(Ingest(t, incoming).accepted, d) == Accepted(t, Messages(Tracked(incoming)), d)
    ensures |Ingest(t, incoming).accepted| + Ingest(t, incoming).duplicates == |incoming|
  {
    if incoming != [] {
      var front, e := incoming[..|incoming| - 1], incoming[|incoming| - 1];
      IngestShowsAccepted(t, front, d);
      assert incoming == front + [e];
      IngestShowsSnoc(t, front, e, d);
    }
  }

  // ----- a message of several events -----

  function NumberOf(c: Option<DomainCursor>): Option<int> {
    if c.None? then None else Some(c.value.sequence)
  }

  predicate Above(n: int, c: Option<int>) {
    c.None? || c.value < n
  }

  /** Numbers that rise from above a cursor: what a stream in order looks like. */
  predicate RisesAbove(c: Option<int>, ns: seq<int>) {
    Increasing(ns) && (ns != [] ==> Above(ns[0], c))
  }

  predicate Decreasing(s: seq<int>) {
    forall i, j :: 0 <= i < j < |s| ==> s[i] > s[j]
  }

  /** Numbers that fall and stay above a cursor. */
  predicate FallsAbove(c: Option<int>, ns: seq<int>) {
    Decreasing(ns) && (ns != [] ==> Above(ns[|ns| - 1], c))
  }

  lemma AddedCovers<P>(r: Ingested<P>, e: MarketEvent<P>, d: Domain)
    ensures var c, c' := NumberOf(r.tracker.Get(d)), NumberOf(Added(r, e).tracker.Get(d));
            if HasSequenceAndDomain(e) && e.domain.value == d && Above(e.sequence.value, c)
                then c' == Some(e.sequence.value)
            else c' == c
  {}

  /** The cursor is at or above every number ingested. */
  lemma {:induction false} CursorCovers<P>(t: Tracker, incoming: seq<MarketEvent<P>>, d: Domain)
    ensures var c, ns := NumberOf(Ingest(t, incoming).tracker.Get(d)), Numbers(incoming, d);
            && (ns != [] || t.Get(d).Some? ==> c.Some?)
            && (forall n :: n in ns ==> !Above(n, c))
            && (forall n :: Above(n, c) ==> Above(n, NumberOf(t.Get(d))))
            && (c.Some? ==> c.value in ns || Some(c.value) == NumberOf(t.Get(d)))
  {
    if incoming != [] {
      var front, e := incoming[..|incoming| - 1], incoming[|incoming| - 1];
      CursorCovers(t, front, d);
      assert incoming == front + [e];
      NumbersSnoc(front, e, d);
      AddedCovers(Ingest(t, front), e, d);
    }
  }

  lemma IncreasingSnoc(ns: seq<int>, n: int)
    ensures Increasing(ns + [n]) <==> Increasing(ns) && (ns != [] ==> ns[|ns| - 1] < n)
  {
    if Increasing(ns + [n]) {
      assert forall i :: 0 <= i < |ns| ==> ns[i] == (ns + [n])[i];
      if ns != [] { assert (ns + [n])[|ns| - 1] < (ns + [n])[|ns|]; }
    }
  }

  /** While nothing was dropped, the cursor is the last number ingested. */
  lemma {:induction false} RisingCursor<P>(t: Tracker, incoming: seq<MarketEvent<P>>, d: Domain)
    requires RisesAbove(NumberOf(t.Get(d)), Numbers(incoming, d))
    ensures var ns := Numbers(incoming, d);
            NumberOf(Ingest(t, incoming).tracker.Get(d)) == if ns == [] then NumberOf(t.Get(d)) else Some(ns[|ns| - 1])
  {
    CursorCovers(t, incoming, d);
    var ns := Numbers(incoming, d);
    if ns != [] {
      assert ns[|ns| - 1] in ns;
      assert forall n :: n in ns ==> n <= ns[|ns| - 1];
      assert Above(ns[|ns| - 1], NumberOf(t.Get(d)));
    }
  }

  /** Events are ingested without a duplicate if and only if the numbers of each domain rise above its cursor. */
  lemma {:induction false} NoDuplicateIffRising<P>(t: Tracker, incoming: seq<MarketEvent<P>>)
    ensures Ingest(t, incoming).duplicates == 0
       <==> forall d: Domain :: RisesAbove(NumberOf(t.Get(d)), Numbers(incoming, d))
  {
    if incoming != [] {
      var front, e := incoming[..|incoming| - 1], incoming[|incoming| - 1];
      NoDuplicateIffRising(t, front);
      assert incoming == front + [e];
      forall d: Domain
        ensures RisesAbove(NumberOf(t.Get(d)), Numbers(incoming, d)) <==>
                RisesAbove(NumberOf(t.Get(d)), Numbers(front, d))
                && (HasSequenceAndDomain(e) && e.domain.value == d ==>
                    Above(e.sequence.value, NumberOf(Ingest(t, front).tracker.Get(d))))
      {
        RisingSnoc(t, front, e, d);
      }
    }
  }

  lemma RisingSnoc<P>(t: Tracker, front: seq<MarketEvent<P>>, e: MarketEvent<P>, d: Domain)
    ensures RisesAbove(NumberOf(t.Get(d)), Numbers(front + [e], d)) <==>
            RisesAbove(NumberOf(t.Get(d)), Numbers(front, d))
            && (HasSequenceAndDomain(e) && e.domain.value == d ==>
                Above(e.sequence.value, NumberOf(Ingest(t, front).tracker.Get(d))))
  {
    NumbersSnoc(front, e, d);
    var ns := Numbers(front, d);
    if HasSequenceAndDomain(e) && e.domain.value == d {
      IncreasingSnoc(ns, e.sequence.value);
      if RisesAbove(NumberOf(t.Get(d)), ns) { RisingCursor(t, front, d); }
    } else {
      assert ns + [] == ns;
    }
  }

  lemma {:induction false} NumbersConcat<P>(a: seq<MarketEvent<P>>, b: seq<MarketEvent<P>>, d: Domain)
    ensures Numbers(a + b, d) == Numbers(a, d) + Numbers(b, d)
  {
    if b == [] {
      assert a + b == a;
    } else {
      var front, e := b[..|b| - 1], b[|b| - 1];
      NumbersConcat(a, front, d);
      assert a + b == (a + front) + [e] && b == front + [e];
      NumbersSnoc(a + front, e, d);
      NumbersSnoc(front, e, d);
    }
  }

  lemma {:induction false} ReversedAt<T>(s: seq<T>, i: nat)
    requires i < |s|
    ensures |Reversed(s)| == |s| && Reversed(s)[i] == s[|s| - 1 - i]
  {
    if i > 0 {
      ReversedAt(s[..|s| - 1], i - 1);
    } else if |s| > 1 {
      ReversedAt(s[..|s| - 1], 0);
    }
  }

  lemma {:induction false} NumbersOfReversed<P>(events: seq<MarketEvent<P>>, d: Domain)
    ensures Numbers(Reversed(events), d) == Reversed(Numbers(events, d))
  {
    if events != [] {
      var front, e := events[..|events| - 1], events[|events| - 1];
      NumbersOfReversed(front, d);
      NumbersConcat([e], Reversed(front), d);
      assert [] + [e] == [e];
      NumbersSnoc([], e, d);
      var ns := Numbers(front, d);
      if HasSequenceAndDomain(e) && e.domain.value == d { assert (ns + [e.sequence.value])[..|ns|] == ns; }
    }
  }

  lemma ReversedOrder(ns: seq<int>)
    ensures Increasing(Reversed(ns)) <==> Decreasing(ns)
    ensures Decreasing(Reversed(ns)) <==> Increasing(ns)
    ensures |Reversed(ns)| == |ns|
  {
    var n := |ns|;
    if ns != [] { ReversedAt(ns, 0); }
    if Increasing(Reversed(ns)) {
      forall i, j | 0 <= i < j < n ensures ns[i] > ns[j] { ReversedAt(ns, n - 1 - i); ReversedAt(ns, n - 1 - j); }
    }
    if Decreasing(Reversed(ns)) {
      forall i, j | 0 <= i < j < n ensures ns[i] < ns[j] { ReversedAt(ns, n - 1 - i); ReversedAt(ns, n - 1 - j); }
    }
    if Decreasing(ns) {
      forall i, j | 0 <= i < j < n ensures Reversed(ns)[i] < Reversed(ns)[j] { ReversedAt(ns, i); ReversedAt(ns, j); }
    }
    if Increasing(ns) {
      forall i, j | 0 <= i < j < n ensures Reversed(ns)[i] > Reversed(ns)[j] { ReversedAt(ns, i); ReversedAt(ns, j); }
    }
  }

  lemma RisesReversed(c: Option<int>, ns: seq<int>)
    ensures RisesAbove(c, Reversed(ns)) <==> FallsAbove(c, ns)
  {
    ReversedOrder(ns);
    if ns != [] { ReversedAt(ns, 0); }
  }

  /** A message loses no event if and only if, for each domain, its numbers fall and stay above the cursor. */
  lemma MessageLosesNothing<P>(t: Tracker, received: seq<MarketEvent<P>>)
    ensures OfMessage(t, received).duplicates == 0 <==>
            forall d: Domain :: FallsAbove(NumberOf(t.Get(d)), Numbers(received, d))
  {
    NoDuplicateIffRising(t, Reversed(received));
    forall d: Domain
      ensures RisesAbove(NumberOf(t.Get(d)), Numbers(Reversed(received), d))
         <==> FallsAbove(NumberOf(t.Get(d)), Numbers(received, d))
    {
      NumbersOfReversed(received, d);
      RisesReversed(NumberOf(t.Get(d)), Numbers(received, d));
    }
  }

  lemma {:induction false} CursorUntouched<P>(t: Tracker, incoming: seq<MarketEvent<P>>, d: Domain)
    requires Numbers(incoming, d) == []
    ensures Ingest(t, incoming).tracker.Get(d) == t.Get(d)
  {
    if incoming != [] { CursorUntouched(t, incoming[..|incoming| - 1], d); }
  }

  /** The first number of a domain is judged by the cursor, a later and lower one is dropped. */
  lemma NextIsShown<P>(t: Tracker, front: seq<MarketEvent<P>>, e: MarketEvent<P>, d: Domain)
    requires HasSequenceAndDomain(e) && e.domain.value == d
    requires var ns := Numbers(front, d); ns != [] ==> e.sequence.value < ns[0]
    ensures Numbers(Ingest(t, front + [e]).accepted, d)
         == Numbers(Ingest(t, front).accepted, d)
            + if Numbers(front, d) == [] && Above(e.sequence.value, NumberOf(t.Get(d))) then [e.sequence.value] else []
  {
    IngestSnoc(t, front, e);
    AddedShows(Ingest(t, front), e, d);
    var ns := Numbers(front, d);
    if ns == [] {
      CursorUntouched(t, front, d);
    } else {
      CursorCovers(t, front, d);
      assert ns[0] in ns;
    }
  }

  lemma DecreasingFront(ns: seq<int>, n: int)
    requires Decreasing(ns + [n])
    ensures Decreasing(ns) && (ns != [] ==> n < ns[0])
  {
    assert forall i :: 0 <= i < |ns| ==> ns[i] == (ns + [n])[i];
    assert ns != [] ==> (ns + [n])[0] > (ns + [n])[|ns|];
  }

  lemma OtherIsNotShown<P>(t: Tracker, front: seq<MarketEvent<P>>, e: MarketEvent<P>, d: Domain)
    requires !(HasSequenceAndDomain(e) && e.domain.value == d)
    ensures Numbers(front + [e], d) == Numbers(front, d)
    ensures Numbers(Ingest(t, front + [e]).accepted, d) == Numbers(Ingest(t, front).accepted, d)
  {
    NumbersSnoc(front, e, d);
    IngestSnoc(t, front, e);
    AddedShows(Ingest(t, front), e, d);
  }

  lemma {:induction false} FallingShowsFirst<P>(t: Tracker, incoming: seq<MarketEvent<P>>, d: Domain)
    requires Decreasing(Numbers(incoming, d))
    ensures var ns := Numbers(incoming, d);
            Numbers(Ingest(t, incoming).accepted, d)
            == if ns != [] && Above(ns[0], NumberOf(t.Get(d))) then [ns[0]] else []
  {
    if incoming != [] {
      var front, e := incoming[..|incoming| - 1], incoming[|incoming| - 1];
      assert incoming == front + [e];
      if HasSequenceAndDomain(e) && e.domain.value == d {
        NumbersSnoc(front, e, d);
        DecreasingFront(Numbers(front, d), e.sequence.value);
        FallingShowsFirst(t, front, d);
        NextIsShown(t, front, e, d);
      } else {
        OtherIsNotShown(t, front, e, d);
        FallingShowsFirst(t, front, d);
      }
    }
  }

  /** Of a message that rises in a domain, as the worker's snapshots do, the hook shows the last number of that
      domain and drops all others, fresh or not. */
  lemma RisingMessageShowsLast<P>(t: Tracker, received: seq<MarketEvent<P>>, d: Domain)
    requires Increasing(Numbers(received, d))
    ensures var ns := Numbers(received, d);
            Numbers(OfMessage(t, received).accepted, d)
            == if ns != [] && Above(ns[|ns| - 1], NumberOf(t.Get(d))) then [ns[|ns| - 1]] else []
  {
    var ns := Numbers(received, d);
    NumbersOfReversed(received, d);
    ReversedOrder(ns);
    if ns != [] { ReversedAt(ns, 0); }
    FallingShowsFirst(t, Reversed(received), d);
  }

  /** The numbers of a domain above its cursor. */
  function Fresh(c: Option<int>, ns: seq<int>): seq<int> {
    if ns == [] then []
    else
      var front, n := Fresh(c, ns[..|ns| - 1]), ns[|ns| - 1];
      if Above(n, c) then front + [n] else front
  }

  lemma {:induction false} FreshOfRising(c: Option<int>, ns: seq<int>)
    requires Increasing(ns)
    ensures Fresh(c, ns) == [] <==> ns == [] || !Above(ns[|ns| - 1], c)
    ensures Fresh(c, ns) != [] ==> Fresh(c, ns)[|Fresh(c, ns)| - 1] == ns[|ns| - 1]
  {
    if ns != [] { FreshOfRising(c, ns[..|ns| - 1]); }
  }

  /** So a rising message keeps its fresh numbers if and only if there is at most one. */
  lemma RisingMessageKeepsFreshIff<P>(t: Tracker, received: seq<MarketEvent<P>>, d: Domain)
    requires Increasing(Numbers(received, d))
    ensures var news := Fresh(NumberOf(t.Get(d)), Numbers(received, d));
            Numbers(OfMessage(t, received).accepted, d) == news <==> |news| <= 1
  {
    RisingMessageShowsLast(t, received, d);
    FreshOfRising(NumberOf(t.Get(d)), Numbers(received, d));
  }

  function EventOf<P>(n: int, payload: P): MarketEvent<P> {
    MarketEvent("", "", Fill, None, Some(L1), Some(n), payload, 0)
  }

  /** From any number, a message with the next two is one gap and one duplicate, and the first of them is not
      shown; in the order received both would be shown and no gap reported. */
  lemma NewestFirstLosesOne<P>(n: int, payload: P)
    ensures var t := Tracker(Some(DomainCursor(n, 0)), None);
            var m := [EventOf(n + 1, payload), EventOf(n + 2, payload)];
            var r, inOrder := OfMessage(t, m), Ingest(t, m);
            && r.gaps == 1 && r.duplicates == 1 && r.accepted == [m[1]]
            && inOrder.gaps == 0 && inOrder.duplicates == 0 && inOrder.accepted == m
  {
    var t := Tracker(Some(DomainCursor(n, 0)), None);
    var a, b := EventOf(n + 1, payload), EventOf(n + 2, payload);
    ReversedTwo(a, b);
    IngestTwo(t, b, a);
    IngestTwo(t, a, b);
    AddedToFront(t, [], 0, 0, n, n + 2, payload);
    AddedToFront(Tracker(Some(DomainCursor(n + 2, 0)), None), [b], 1, 0, n + 2, n + 1, payload);
    AddedToFront(t, [], 0, 0, n, n + 1, payload);
    AddedToFront(Tracker(Some(DomainCursor(n + 1, 0)), None), [a], 0, 0, n + 1, n + 2, payload);
  }

  lemma AddedToFront<P>(t: Tracker, shown: seq<MarketEvent<P>>, gaps: nat, duplicates: nat, cursor: int, n: int,
                        payload: P)
    requires t == Tracker(Some(DomainCursor(cursor, 0)), None)
    ensures Added(Ingested(t, shown, gaps, duplicates), EventOf(n, payload))
         == if n <= cursor then Ingested(t, shown, gaps, duplicates + 1)
            else Ingested(Tracker(Some(DomainCursor(n, 0)), None), shown + [EventOf(n, payload)],
                          if n > cursor + 1 then gaps + 1 else gaps, duplicates)
  {}

  lemma ReversedTwo<T>(a: T, b: T)
    ensures Reversed([a, b]) == [b, a]
  {
    assert [a, b] == [a] + [b] && [a] == [] + [a];
    ReversedSnoc([a], b);
    ReversedSnoc([], a);
  }

  lemma IngestTwo<P>(t: Tracker, a: MarketEvent<P>, b: MarketEvent<P>)
    ensures Ingest(t, [a, b]) == Added(Added(Ingested(t, [], 0, 0), a), b)
  {
    assert [a, b] == [a] + [b] && [a] == [] + [a];
    IngestSnoc(t, [a], b);
    IngestSnoc(t, [], a);
  }

  lemma ReversedSnoc<T>(s: seq<T>, x: T)
    ensures Reversed(s + [x]) == [x] + Reversed(s)
  {
    assert (s + [x])[..|s|] == s;
  }

  /** Events numbered on from a snapshot without a hole. */
  predicate NumberedOn<P>(s: Indexer.Snapshot<P>, received: seq<MarketEvent<P>>) {
    forall i :: 0 <= i < |received| ==>
      received[i].domain == Some(s.domain) && received[i].sequence == Some(s.sequence + 1 + i)
  }

  /** A batch of new events that the indexer applies raises a gap or a duplicate at the hook, unless it is a single
      event of a slot not below the cursor's. */
  lemma BatchAgreesWithIndexer<P>(t: Tracker, s: Indexer.Snapshot<P>, received: seq<MarketEvent<P>>)
    requires t.Get(s.domain).Some? && t.Get(s.domain).value.sequence == s.sequence && NumberedOn(s, received)
    ensures Indexer.Reconcile(s, received).Applied?
    ensures var r := OfMessage(t, received);
            r.gaps == 0 && r.duplicates == 0 <==>
            received == [] || (|received| == 1
                               && (received[0].slot.Some? ==> received[0].slot.value >= t.Get(s.domain).value.slot))
  {
    BatchIsApplied(s, received);
    if |received| == 1 {
      var e := received[0];
      assert received == [e];
      SingleMessage(t, e);
    } else if received != [] {
      BatchNumbers(s, received);
      MessageLosesNothing(t, received);
      var ns := Numbers(received, s.domain);
      assert ns[0] < ns[1];
    }
  }

  lemma SingleMessage<P>(t: Tracker, e: MarketEvent<P>)
    ensures OfMessage(t, [e]) == Added(Ingested(t, [], 0, 0), e)
  {
    assert [e] == [] + [e];
    ReversedSnoc([], e);
    IngestSnoc(t, [], e);
  }

  /** The cursor ends at the indexer's number all the same. */
  lemma BatchReachesNumber<P>(t: Tracker, s: Indexer.Snapshot<P>, received: seq<MarketEvent<P>>)
    requires t.Get(s.domain).Some? && t.Get(s.domain).value.sequence == s.sequence && NumberedOn(s, received)
    ensures Indexer.Reconcile(s, received).Applied?
    ensures NumberOf(OfMessage(t, received).tracker.Get(s.domain))
         == Some(Indexer.Reconcile(s, received).snapshot.sequence)
  {
    var d, ns := s.domain, Numbers(received, s.domain);
    BatchIsApplied(s, received);
    BatchNumbers(s, received);
    NumbersOfReversed(received, d);
    CursorCovers(t, Reversed(received), d);
    if received != [] {
      ReversedAt(ns, 0);
      assert Reversed(ns)[0] in Reversed(ns);
      forall n | n in Reversed(ns)
        ensures s.sequence < n <= s.sequence + |received|
      {
        var i :| 0 <= i < |Reversed(ns)| && Reversed(ns)[i] == n;
        ReversedAt(ns, i);
      }
    }
  }

  lemma {:induction false} BatchNumbers<P>(s: Indexer.Snapshot<P>, received: seq<MarketEvent<P>>)
    requires NumberedOn(s, received)
    ensures var ns := Numbers(received, s.domain); |ns| == |received| && forall i :: 0 <= i < |ns| ==>
              ns[i] == s.sequence + 1 + i
  {
    if received != [] { BatchNumbers(s, received[..|received| - 1]); }
  }

  lemma {:induction false} BatchIsApplied<P>(s: Indexer.Snapshot<P>, received: seq<MarketEvent<P>>)
    requires NumberedOn(s, received)
    ensures Indexer.Reconcile(s, received).Applied?
            && Indexer.Reconcile(s, received).snapshot.sequence == s.sequence + |received|
  {
    if received != [] {
      var front, e := received[..|received| - 1], received[|received| - 1];
      BatchIsApplied(s, front);
      assert received == front + [e];
      Indexer.ReconcileConcat(s, front, [e]);
      Indexer.IdentityKept(s, front);
      var mid := Indexer.Reconcile(s, front).snapshot;
      assert [e][1..] == [];
    }
  }

  // ----- a snapshot -----

  /** Seeding moves a cursor to the highest number of the snapshot where that is ahead. */
  lemma {:induction false} HighestIsMaximum(events: seq<SequencedEvent>, d: Domain)
    ensures var h := Highest(events, d);
            && (h.None? <==> forall e :: e in events ==> e.domain != d)
            && (h.Some? ==> (exists e :: e in events && e.domain == d && e.sequence == h.value.sequence)
                            && forall e :: e in events && e.domain == d ==> e.sequence <= h.value.sequence)
  {
    if events != [] {
      var front, e := events[..|events| - 1], events[|events| - 1];
      HighestIsMaximum(front, d);
      assert events == front + [e];
    }
  }

  /** After a snapshot every event it holds, in whatever message it comes again, is a duplicate: cursors stay and no
      gap is reported. */
  lemma {:induction false} SnapshotReplayIsIdle<P>(t: Tracker, fetched: seq<MarketEvent<P>>,
                                                   incoming: seq<MarketEvent<P>>)
    requires forall e :: e in incoming ==> e in fetched
    ensures var t' := Seeded(t, Tracked(fetched));
            var r := Ingest(t', incoming);
            r.tracker == t' && r.gaps == 0 && r.duplicates == |Tracked(incoming)|
  {
    if incoming != [] {
      var front, e := incoming[..|incoming| - 1], incoming[|incoming| - 1];
      SnapshotReplayIsIdle(t, fetched, front);
      if HasSequenceAndDomain(e) {
        assert e in fetched;
        TrackedHas(fetched, e);
        SeedCovers(t, Tracked(fetched), Sequenced(e.domain.value, e));
      }
    }
  }

  lemma {:induction false} ReversedHas<T>(s: seq<T>, x: T)
    ensures x in Reversed(s) <==> x in s
  {
    if s != [] {
      ReversedHas(s[..|s| - 1], x);
      assert s == s[..|s| - 1] + [s[|s| - 1]];
    }
  }

  /** A hook that loads a snapshot and then gets messages with events of it alone counts them all as duplicates. */
  method LoadThenReceive<P>(fetched: seq<MarketEvent<P>>, messages: seq<seq<MarketEvent<P>>>)
    returns (hook: MarketEvents<P>)
    requires forall k, e :: 0 <= k < |messages| && e in messages[k] ==> e in fetched
    ensures hook.tracker == Seeded(INITIAL, Tracked(fetched)) && hook.gapCount == 0
  {
    hook := new MarketEvents();
    hook.LoadSnapshot(fetched);
    for k := 0 to |messages|
      invariant fresh(hook) && hook.tracker == Seeded(INITIAL, Tracked(fetched)) && hook.gapCount == 0
    {
      forall e | e in Reversed(messages[k])
        ensures e in fetched
      {
        ReversedHas(messages[k], e);
      }
      SnapshotReplayIsIdle(INITIAL, fetched, Reversed(messages[k]));
      hook.OnMessage(messages[k]);
    }
  }

  lemma {:induction false} TrackedHas<P>(events: seq<MarketEvent<P>>, e: MarketEvent<P>)
    requires e in events && HasSequenceAndDomain(e)
    ensures Sequenced(e.domain.value, e) in Tracked(events)
  {
    if events[|events| - 1] != e { TrackedHas(events[..|events| - 1], e); }
  }

  lemma SeedCovers(t: Tracker, events: seq<SequencedEvent>, e: SequencedEvent)
    requires e in events
    ensures var c := Seeded(t, events).Get(e.domain); c.Some? && e.sequence <= c.value.sequence
  {
    HighestIsMaximum(events, e.domain);
  }
}
