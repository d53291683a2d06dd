/**
 `workers/src/indexer.ts`: applying an ordered event stream, with duplicates
 and holes, to a market snapshot that keeps only the last 256 events.
 */
module Indexer {
  import opened Wrappers
  import opened Types

  const WINDOW := 256

  datatype Cursor = Cursor(market: string, domain: Domain, sequence: int, slot: int)

  datatype Snapshot<+P> = Snapshot(
    symbol: string,
    market: string,
    sequence: int,
    domain: Domain,
    events: seq<MarketEvent<P>>,
    capturedAt: int)

  datatype Outcome<+P> =
    | Applied(snapshot: Snapshot<P>)
    | Gap(snapshot: Snapshot<P>, event: MarketEvent<P>)

  // ----- the code -----

  function NextCursor<P>(cursor: Cursor, event: MarketEvent<P>): Option<Cursor> {
    if event.domain.Some? && event.domain.value != cursor.domain then None
    else if event.sequence.None? then None
    else if event.sequence.value <= cursor.sequence then Some(cursor)
    else if event.sequence.value != cursor.sequence + 1 then None
    else Some(cursor.(sequence := event.sequence.value,
                      slot := if event.slot.Some? then event.slot.value else cursor.slot))
  }

  /** The events whose id differs, in order. */
  function Without<P>(events: seq<MarketEvent<P>>, id: string): (r: seq<MarketEvent<P>>)
    ensures forall i :: 0 <= i < |r| ==> r[i] in events && r[i].id != id
  {
    if events == [] then []
    else (if events[0].id != id then [events[0]] else []) + Without(events[1..], id)
  }

  /** `slice(-k)`. */
  function Last<T>(s: seq<T>, k: nat): seq<T> {
    if |s| <= k then s else s[|s| - k..]
  }

  function ApplyEvent<P>(snapshot: Snapshot<P>, event: MarketEvent<P>): Snapshot<P> {
    snapshot.(sequence := if event.sequence.Some? then event.sequence.value else snapshot.sequence + 1,
              domain := if event.domain.Some? then event.domain.value else snapshot.domain,
              events := Last(Without(snapshot.events, event.id) + [event], WINDOW),
              capturedAt := event.observedAt)
  }

  /** One turn of the batch loop; nothing when the event does not fit. */
  function Step<P>(snapshot: Snapshot<P>, event: MarketEvent<P>): Option<Snapshot<P>> {
    var cursor := Cursor(snapshot.market, snapshot.domain, snapshot.sequence, 0);
    match NextCursor(cursor, event)
    case None => None
    case Some(next) =>
      if next.sequence == cursor.sequence then Some(snapshot) else Some(ApplyEvent(snapshot, event))
  }

  function Reconcile<P>(snapshot: Snapshot<P>, events: seq<MarketEvent<P>>): Outcome<P>
    decreases events
  {
    if events == [] then Applied(snapshot)
    else
      match Step(snapshot, events[0])
      case None => Gap(snapshot, events[0])
      case Some(next) => Reconcile(next, events[1..])
  }

  method ReconcileBatch<P>(snapshot: Snapshot<P>, events: seq<MarketEvent<P>>) returns (r: Outcome<P>)
    ensures r == Reconcile(snapshot, events)
  {
    var current := snapshot;
    for i := 0 to |events|
      invariant current.market == snapshot.market
      invariant Reconcile(snapshot, events) == Reconcile(current, events[i..])
    {
      var cursor := Cursor(snapshot.market, current.domain, current.sequence, 0);
      var next := NextCursor(cursor, events[i]);
      if next.None? {
        return Gap(current, events[i]);
      }
      if next.value.sequence != cursor.sequence {
        current := ApplyEvent(current, events[i]);
      }
    }
    r := Applied(current);
  }

  // ----- batches compose -----

  /** One batch or two: the split does not show, and a gap ends both. */
  lemma {:induction false} ReconcileConcat<P>(s: Snapshot<P>, a: seq<MarketEvent<P>>, b: seq<MarketEvent<P>>)
    ensures Reconcile(s, a + b) == match Reconcile(s, a)
                                   case Applied(t) => Reconcile(t, b)
                                   case Gap(t, e) => Gap(t, e)
    decreases a
  {
    if a == [] {
      assert a + b == b;
    } else {
      assert (a + b)[0] == a[0] && (a + b)[1..] == a[1..] + b;
      if Step(s, a[0]).Some? { ReconcileConcat(Step(s, a[0]).value, a[1..], b); }
    }
  }

  /** The market, its symbol and its domain never change, gap or no gap. */
  lemma {:induction false} IdentityKept<P>(s: Snapshot<P>, events: seq<MarketEvent<P>>)
    ensures var t := Reconcile(s, events).snapshot;
            t.market == s.market && t.symbol == s.symbol && t.domain == s.domain
    decreases events
  {
    if events != [] && Step(s, events[0]).Some? { IdentityKept(Step(s, events[0]).value, events[1..]); }
  }

  /** A gap hands back exactly what the events before it gave. */
  lemma {:induction false} GapIsPrefixResult<P>(s: Snapshot<P>, events: seq<MarketEvent<P>>) returns (k: nat)
    requires Reconcile(s, events).Gap?
    ensures k < |events|
    ensures Reconcile(s, events) == Gap(Reconcile(s, events[..k]).snapshot, events[k])
    ensures Reconcile(s, events[..k]).Applied?
    ensures Step(Reconcile(s, events[..k]).snapshot, events[k]).None?
    decreases events
  {
    var next := Step(s, events[0]);
    if next.None? {
      k := 0;
    } else {
      var k' := GapIsPrefixResult(next.value, events[1..]);
      k := k' + 1;
      assert events[..k][1..] == events[1..][..k'];
    }
  }

  // ----- which streams have no gap -----

  /** The highest sequence number known after `events`. */
  function High<P>(start: int, events: seq<MarketEvent<P>>): int {
    if events == [] then start
    else
      var h, e := High(start, events[..|events| - 1]), events[|events| - 1].sequence;
      if e.Some? && e.value > h then e.value else h
  }

  predicate Fits<P>(domain: Domain, high: int, event: MarketEvent<P>) {
    && (event.domain.None? || event.domain.value == domain)
    && event.sequence.Some?
    && event.sequence.value <= high + 1
  }

  predicate NoHoles<P>(domain: Domain, start: int, events: seq<MarketEvent<P>>) {
    forall i :: 0 <= i < |events| ==> Fits(domain, High(start, events[..i]), events[i])
  }

  /** A batch is applied to the end exactly when no event jumps past the highest
      number seen by more than one; the snapshot then stands at that number. */
  lemma {:induction false} AppliedExactlyWithoutHoles<P>(s: Snapshot<P>, events: seq<MarketEvent<P>>)
    ensures Reconcile(s, events).Applied? <==> NoHoles(s.domain, s.sequence, events)
    ensures Reconcile(s, events).Applied? ==> Reconcile(s, events).snapshot.sequence == High(s.sequence, events)
  {
    if events != [] {
      var front, e := events[..|events| - 1], events[|events| - 1];
      assert events == front + [e];
      AppliedExactlyWithoutHoles(s, front);
      IdentityKept(s, front);
      ReconcileConcat(s, front, [e]);
      assert forall i :: 0 <= i < |front| ==> events[..i] == front[..i];
      var r := Reconcile(s, front);
      assert NoHoles(s.domain, s.sequence, events)
        <==> NoHoles(s.domain, s.sequence, front) && Fits(s.domain, High(s.sequence, front), e);
      if r.Applied? {
        assert Step(r.snapshot, e).Some? <==> Fits(s.domain, High(s.sequence, front), e);
        assert Reconcile(r.snapshot, [e]).Applied? <==> Step(r.snapshot, e).Some?;
      }
    }
  }

  // ----- duplicates and replays -----

  predicate Seen<P>(s: Snapshot<P>, event: MarketEvent<P>) {
    Fits(s.domain, s.sequence - 1, event)
  }

  /** A late duplicate anywhere in a stream leaves no trace. */
  lemma LateDuplicateDrops<P>(s: Snapshot<P>, a: seq<MarketEvent<P>>, d: MarketEvent<P>, b: seq<MarketEvent<P>>)
    requires Reconcile(s, a).Applied? && Seen(Reconcile(s, a).snapshot, d)
    ensures Reconcile(s, a + [d] + b) == Reconcile(s, a + b)
  {
    ReconcileConcat(s, a, [d] + b);
    ReconcileConcat(s, a, b);
    assert a + [d] + b == a + ([d] + b);
    assert ([d] + b)[1..] == b;
  }

  /** The events of a batch that change the snapshot. */
  function Fresh<P>(s: Snapshot<P>, events: seq<MarketEvent<P>>): seq<MarketEvent<P>>
    decreases events
  {
    if events == [] || Step(s, events[0]).None? then []
    else
      var rest := Fresh(Step(s, events[0]).value, events[1..]);
      if Seen(s, events[0]) then rest else [events[0]] + rest
  }

  lemma SeenIsIdle<P>(s: Snapshot<P>, e: MarketEvent<P>)
    requires Seen(s, e)
    ensures Step(s, e) == Some(s)
  {}

  lemma FreshIsNext<P>(s: Snapshot<P>, e: MarketEvent<P>, rest: seq<MarketEvent<P>>)
    requires Step(s, e).Some? && !Seen(s, e)
    ensures e.sequence == Some(s.sequence + 1) && Step(s, e).value.sequence == s.sequence + 1
    ensures Reconcile(s, [e] + rest) == Reconcile(Step(s, e).value, rest)
  {
    assert ([e] + rest)[1..] == rest;
  }

  predicate NumberedFrom<P>(n: int, events: seq<MarketEvent<P>>) {
    forall i :: 0 <= i < |events| ==> events[i].sequence == Some(n + i)
  }

  lemma NumberedCons<P>(n: int, e: MarketEvent<P>, rest: seq<MarketEvent<P>>)
    requires e.sequence == Some(n) && NumberedFrom(n + 1, rest)
    ensures NumberedFrom(n, [e] + rest)
  {
    var all := [e] + rest;
    assert forall i :: 0 < i < |all| ==> all[i] == rest[i - 1];
  }

  /** Any stream ends where its clean form does: the fresh events alone, numbered
      consecutively, give the same snapshot. */
  lemma {:induction false} SameAsCleanStream<P>(s: Snapshot<P>, events: seq<MarketEvent<P>>)
    ensures var clean := Fresh(s, events);
            Reconcile(s, clean) == Applied(Reconcile(s, events).snapshot) && NumberedFrom(s.sequence + 1, clean)
    decreases events
  {
    if events != [] && Step(s, events[0]).Some? {
      var e := events[0];
      var t := Step(s, e).value;
      var rest := Fresh(t, events[1..]);
      SameAsCleanStream(t, events[1..]);
      if Seen(s, e) {
        SeenIsIdle(s, e);
      } else {
        FreshIsNext(s, e, rest);
        NumberedCons(s.sequence + 1, e, rest);
      }
    }
  }

  /** A snapshot stands at its number and carries the time at which the last fresh event was observed. */
  lemma {:induction false} StandsAtLastFresh<P>(s: Snapshot<P>, events: seq<MarketEvent<P>>)
    ensures var clean, t := Fresh(s, events), Reconcile(s, events).snapshot;
            && t.sequence == s.sequence + |clean|
            && t.capturedAt == if clean == [] then s.capturedAt else clean[|clean| - 1].observedAt
    decreases events
  {
    if events != [] && Step(s, events[0]).Some? {
      StandsAtLastFresh(Step(s, events[0]).value, events[1..]);
      if Seen(s, events[0]) { SeenIsIdle(s, events[0]); } else { FreshIsNext(s, events[0], []); }
    }
  }

  lemma {:induction false} HighCovers<P>(start: int, events: seq<MarketEvent<P>>, i: nat)
    requires i < |events| && events[i].sequence.Some?
    ensures events[i].sequence.value <= High(start, events)
  {
    if i < |events| - 1 { HighCovers(start, events[..|events| - 1], i); }
  }

  /** Replaying applied events, in any order and any number of times, changes nothing. */
  lemma {:induction false} ReplayIsIdle<P>(s: Snapshot<P>, events: seq<MarketEvent<P>>, replay: seq<MarketEvent<P>>)
    requires Reconcile(s, events).Applied?
    requires forall i :: 0 <= i < |replay| ==> replay[i] in events
    ensures Reconcile(Reconcile(s, events).snapshot, replay) == Reconcile(s, events)
  {
    if replay != [] {
      var i :| 0 <= i < |events| && events[i] == replay[0];
      AppliedExactlyWithoutHoles(s, events);
      IdentityKept(s, events);
      assert Fits(s.domain, High(s.sequence, events[..i]), events[i]);
      HighCovers(s.sequence, events, i);
      ReplayIsIdle(s, events, replay[1..]);
    }
  }

  // ----- the window -----

  predicate DistinctIds<P>(events: seq<MarketEvent<P>>) {
    forall i, j :: 0 <= i < j < |events| ==> events[i].id != events[j].id
  }

  /** The unbounded log: an older event of the same id goes, the new one comes last. */
  function Log<P>(log: seq<MarketEvent<P>>, events: seq<MarketEvent<P>>): seq<MarketEvent<P>>
    decreases events
  {
    if events == [] then log else Log(Without(log, events[0].id) + [events[0]], events[1..])
  }

  lemma {:induction false} WithoutConcat<P>(a: seq<MarketEvent<P>>, b: seq<MarketEvent<P>>, id: string)
    ensures Without(a + b, id) == Without(a, id) + Without(b, id)
  {
    if a == [] {
      assert a + b == b;
    } else {
      assert (a + b)[1..] == a[1..] + b;
      WithoutConcat(a[1..], b, id);
    }
  }

  /** What is left keeps its distinct ids. */
  lemma {:induction false} WithoutDistinct<P>(events: seq<MarketEvent<P>>, id: string)
    requires DistinctIds(events)
    ensures DistinctIds(Without(events, id))
  {
    if events != [] {
      WithoutDistinct(events[1..], id);
      assert forall e :: e in events[1..] ==> e.id != events[0].id;
    }
  }

  lemma {:induction false} WithoutAbsent<P>(events: seq<MarketEvent<P>>, id: string)
    requires forall i :: 0 <= i < |events| ==> events[i].id != id
    ensures Without(events, id) == events
  {
    if events != [] { WithoutAbsent(events[1..], id); }
  }

  /** With distinct ids at most one event goes. */
  lemma {:induction false} WithoutLosesOne<P>(events: seq<MarketEvent<P>>, id: string)
    requires DistinctIds(events)
    ensures |events| - 1 <= |Without(events, id)| <= |events|
  {
    if events != [] {
      if events[0].id == id {
        WithoutAbsent(events[1..], id);
      } else {
        WithoutLosesOne(events[1..], id);
      }
    }
  }

  lemma LastOfTail<T>(a: seq<T>, b: seq<T>, k: nat)
    requires |b| >= k
    ensures Last(a + b, k) == Last(b, k)
  {}

  lemma LogStaysDistinct<P>(log: seq<MarketEvent<P>>, e: MarketEvent<P>)
    requires DistinctIds(log)
    ensures DistinctIds(Without(log, e.id) + [e])
  {
    WithoutDistinct(log, e.id);
  }

  /** Filtering the window and filtering the whole log give the same last 256. */
  lemma LogStep<P>(log: seq<MarketEvent<P>>, e: MarketEvent<P>)
    requires DistinctIds(log)
    ensures Last(Without(Last(log, WINDOW), e.id) + [e], WINDOW) == Last(Without(log, e.id) + [e], WINDOW)
  {
    if |log| > WINDOW {
      var head, kept := log[..|log| - WINDOW], Last(log, WINDOW);
      assert log == head + kept;
      WithoutConcat(head, kept, e.id);
      WithoutLosesOne(kept, e.id);
      var tail := Without(kept, e.id) + [e];
      assert Without(log, e.id) + [e] == Without(head, e.id) + tail;
      LastOfTail(Without(head, e.id), tail, WINDOW);
    }
  }

  /** The snapshot's list is always the last 256 entries of the log that forgets nothing. */
  lemma {:induction false} WindowOfLog<P>(s: Snapshot<P>, log: seq<MarketEvent<P>>, events: seq<MarketEvent<P>>)
    requires DistinctIds(log) && s.events == Last(log, WINDOW)
    ensures var full := Log(log, Fresh(s, events));
            && DistinctIds(full)
            && Reconcile(s, events).snapshot.events == Last(full, WINDOW)
    decreases events
  {
    if events != [] && Step(s, events[0]).Some? {
      var t := Step(s, events[0]).value;
      if Seen(s, events[0]) {
        WindowOfLog(s, log, events[1..]);
      } else {
        LogStep(log, events[0]);
        LogStaysDistinct(log, events[0]);
        WindowOfLog(t, Without(log, events[0].id) + [events[0]], events[1..]);
        assert ([events[0]] + Fresh(t, events[1..]))[1..] == Fresh(t, events[1..]);
      }
    }
  }

  /** Started in bounds with distinct ids, every run stays so and keeps exactly the last 256. */
  lemma WindowInvariant<P>(s: Snapshot<P>, events: seq<MarketEvent<P>>)
    requires |s.events| <= 256 && DistinctIds(s.events)
    ensures var t := Reconcile(s, events).snapshot;
            && |t.events| <= 256
            && DistinctIds(t.events)
            && t.events == Last(Log(s.events, Fresh(s, events)), 256)
  {
    WindowOfLog(s, s.events, events);
  }
}
