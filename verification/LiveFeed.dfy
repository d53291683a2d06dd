/**
 The account slots behind the live book of `features/trading/use-v3-book.ts`, on
 values: pushes are coalesced per account, an unchanged payload is not decoded
 again, and a snapshot may land in between. The reference keeps every push in
 a queue and decodes them all, in order, when it publishes.
 */
module LiveFeed {
  import opened Wrappers

  /** An account's payload: its text and the name of its encoding. */
  datatype Raw = Raw(text: string, encoding: string)

  /** A push; nothing for an account that is gone. */
  datatype Update = Update(index: nat, raw: Option<Raw>)

  type Slots = seq<Option<seq<nat>>>

  /** `decodeAccount`; absent where it throws. */
  type Decode = (string, string) -> Option<seq<nat>>

  datatype Feed = Feed(slots: Slots, lastRaw: seq<Option<string>>, pending: seq<Update>)

  predicate Valid(f: Feed) {
    && |f.lastRaw| == |f.slots|
    && forall k :: 0 <= k < |f.pending| ==> f.pending[k].index < |f.slots|
  }

  // ----- the code -----

  /** `pending.set`: in place when the account has an entry, else at the end. */
  function Pend(pending: seq<Update>, u: Update): seq<Update> {
    if pending == [] then [u]
    else if pending[0].index == u.index then [u] + pending[1..]
    else [pending[0]] + Pend(pending[1..], u)
  }

  predicate Skips(f: Feed, u: Update)
    requires Valid(f) && u.index < |f.slots|
  {
    u.raw.Some? && f.lastRaw[u.index] == Some(u.raw.value.text)
  }

  /** `lastRaw` is written before the decode, which may throw. */
  function ApplyOne(dec: Decode, f: Feed, u: Update): (r: (Feed, bool))
    requires Valid(f) && u.index < |f.slots|
    ensures Valid(r.0) && r.0.pending == f.pending && |r.0.slots| == |f.slots|
  {
    if Skips(f, u) then (f, true)
    else if u.raw.None? then (f.(lastRaw := f.lastRaw[u.index := None], slots := f.slots[u.index := None]), true)
    else
      var g := f.(lastRaw := f.lastRaw[u.index := Some(u.raw.value.text)]);
      match dec(u.raw.value.text, u.raw.value.encoding)
      case None => (g, false)
      case Some(bytes) => (g.(slots := f.slots[u.index := Some(bytes)]), true)
  }

  /** The loop over the pending entries, from the `k`-th on. */
  function ApplyFrom(dec: Decode, f: Feed, k: nat): (r: (Feed, bool))
    requires Valid(f) && k <= |f.pending|
    ensures Valid(r.0) && r.0.pending == f.pending && |r.0.slots| == |f.slots|
    decreases |f.pending| - k
  {
    if k == |f.pending| then (f, true)
    else
      var (g, ok) := ApplyOne(dec, f, f.pending[k]);
      if !ok then (g, false) else ApplyFrom(dec, g, k + 1)
  }

  /** A decode that throws leaves the entries pending. */
  function Publish(dec: Decode, f: Feed): (r: (Feed, bool))
    requires Valid(f)
    ensures Valid(r.0) && |r.0.slots| == |f.slots|
  {
    var (g, ok) := ApplyFrom(dec, f, 0);
    if ok then (g.(pending := []), true) else (g, false)
  }

  /** The snapshot's assignments, from slot `i` on. */
  function Overwrite(dec: Decode, f: Feed, values: seq<Option<Raw>>, i: nat): (r: (Feed, bool))
    requires Valid(f) && |values| == |f.slots| && i <= |values|
    ensures Valid(r.0) && r.0.pending == f.pending && |r.0.slots| == |f.slots|
    decreases |values| - i
  {
    if i == |values| then (f, true)
    else
      var bytes := if values[i].None? then None else dec(values[i].value.text, values[i].value.encoding);
      if values[i].Some? && bytes.None? then (f, false)
      else Overwrite(dec, f.(slots := f.slots[i := bytes], lastRaw := f.lastRaw[i := None]), values, i + 1)
  }

  /** A response of the wrong length changes nothing. */
  function Snapshot(dec: Decode, f: Feed, values: seq<Option<Raw>>): (r: (Feed, bool))
    requires Valid(f)
    ensures Valid(r.0) && |r.0.slots| == |f.slots|
  {
    if |values| != |f.slots| then (f, false)
    else
      var (g, ok) := Overwrite(dec, f, values, 0);
      if !ok then (g, false) else Publish(dec, g)
  }

  // ----- what the skip relies on -----

  /** A remembered text is the text of what the slot holds. */
  predicate Remembered(dec: Decode, encoding: string, f: Feed)
    requires Valid(f)
  {
    forall i :: 0 <= i < |f.slots| && f.lastRaw[i].Some? ==>
      f.slots[i].Some? && dec(f.lastRaw[i].value, encoding) == f.slots[i]
  }

  predicate OneEncoding(encoding: string, updates: seq<Update>) {
    forall k :: 0 <= k < |updates| && updates[k].raw.Some? ==> updates[k].raw.value.encoding == encoding
  }

  predicate Decodable(dec: Decode, updates: seq<Update>) {
    forall k :: 0 <= k < |updates| && updates[k].raw.Some? ==> dec(updates[k].raw.value.text, updates[k].raw.value.encoding).Some?
  }

  lemma {:induction false} ApplyRemembers(dec: Decode, encoding: string, f: Feed, k: nat)
    requires Valid(f) && k <= |f.pending| && OneEncoding(encoding, f.pending) && Remembered(dec, encoding, f)
    ensures var (g, ok) := ApplyFrom(dec, f, k); Remembered(dec, encoding, g) <==> ok
    decreases |f.pending| - k
  {
    if k < |f.pending| {
      var u := f.pending[k];
      var (g, ok) := ApplyOne(dec, f, u);
      if ok {
        ApplyRemembers(dec, encoding, g, k + 1);
      } else {
        assert g.lastRaw[u.index] == Some(u.raw.value.text);
      }
    }
  }

  /** With one encoding, a publish keeps the memory true exactly when no decode throws; and none throws
      when every pending payload decodes. */
  lemma PublishRemembersIffNoThrow(dec: Decode, encoding: string, f: Feed)
    requires Valid(f) && OneEncoding(encoding, f.pending) && Remembered(dec, encoding, f)
    ensures Remembered(dec, encoding, Publish(dec, f).0) <==> Publish(dec, f).1
    ensures Decodable(dec, f.pending) ==> Publish(dec, f).1
  {
    ApplyRemembers(dec, encoding, f, 0);
    if Decodable(dec, f.pending) { ApplySucceeds(dec, f, 0); }
  }

  lemma {:induction false} ApplySucceeds(dec: Decode, f: Feed, k: nat)
    requires Valid(f) && k <= |f.pending| && Decodable(dec, f.pending)
    ensures ApplyFrom(dec, f, k).1
    decreases |f.pending| - k
  {
    if k < |f.pending| { ApplySucceeds(dec, ApplyOne(dec, f, f.pending[k]).0, k + 1); }
  }

  /** A snapshot keeps the memory true even when it throws half way. */
  lemma {:induction false} OverwriteRemembers(dec: Decode, encoding: string, f: Feed, values: seq<Option<Raw>>, i: nat)
    requires Valid(f) && |values| == |f.slots| && i <= |values| && Remembered(dec, encoding, f)
    ensures Remembered(dec, encoding, Overwrite(dec, f, values, i).0)
    decreases |values| - i
  {
    if i < |values| {
      var bytes := if values[i].None? then None else dec(values[i].value.text, values[i].value.encoding);
      if values[i].None? || bytes.Some? {
        OverwriteRemembers(dec, encoding, f.(slots := f.slots[i := bytes], lastRaw := f.lastRaw[i := None]), values, i + 1);
      }
    }
  }

  // ----- the reference -----

  function RefOne(dec: Decode, slots: Slots, u: Update): (r: Slots)
    requires u.index < |slots|
    ensures |r| == |slots|
  {
    slots[u.index := if u.raw.None? then None else dec(u.raw.value.text, u.raw.value.encoding)]
  }

  predicate InRange(updates: seq<Update>, n: nat) {
    forall k :: 0 <= k < |updates| ==> updates[k].index < n
  }

  function RefAll(dec: Decode, slots: Slots, queue: seq<Update>): (r: Slots)
    requires InRange(queue, |slots|)
    ensures |r| == |slots|
    decreases queue
  {
    if queue == [] then slots else RefAll(dec, RefOne(dec, slots, queue[0]), queue[1..])
  }

  /** The loop with its skip does what decoding every pending entry does. */
  lemma {:induction false} SkippingIsHarmless(dec: Decode, encoding: string, f: Feed, k: nat)
    requires Valid(f) && k <= |f.pending| && Remembered(dec, encoding, f)
    requires OneEncoding(encoding, f.pending) && Decodable(dec, f.pending)
    ensures ApplyFrom(dec, f, k).1 && ApplyFrom(dec, f, k).0.slots == RefAll(dec, f.slots, f.pending[k..])
    decreases |f.pending| - k
  {
    if k < |f.pending| {
      var u := f.pending[k];
      var (g, ok) := ApplyOne(dec, f, u);
      assert g.slots == RefOne(dec, f.slots, u);
      assert Remembered(dec, encoding, g);
      SkippingIsHarmless(dec, encoding, g, k + 1);
      assert f.pending[k..][1..] == f.pending[k + 1..];
    }
  }

  // ----- coalescing -----

  /** The last push to an account, if any. */
  function LastFor(updates: seq<Update>, i: nat): Option<Update> {
    if updates == [] then None
    else
      var rest := LastFor(updates[1..], i);
      if rest.Some? then rest else if updates[0].index == i then Some(updates[0]) else None
  }

  predicate OncePerAccount(updates: seq<Update>) {
    forall j, k :: 0 <= j < k < |updates| ==> updates[j].index != updates[k].index
  }

  lemma {:induction false} AbsentHasNoLast(updates: seq<Update>, i: nat)
    requires forall k :: 0 <= k < |updates| ==> updates[k].index != i
    ensures LastFor(updates, i).None?
  {
    if updates != [] { AbsentHasNoLast(updates[1..], i); }
  }

  lemma {:induction false} PendKeepsLast(pending: seq<Update>, u: Update, i: nat)
    requires OncePerAccount(pending)
    ensures LastFor(Pend(pending, u), i) == if i == u.index then Some(u) else LastFor(pending, i)
  {
    if pending == [] {
      assert [u][1..] == [];
    } else if pending[0].index == u.index {
      assert ([u] + pending[1..])[1..] == pending[1..];
      AbsentHasNoLast(pending[1..], u.index);
    } else {
      PendKeepsLast(pending[1..], u, i);
      assert ([pending[0]] + Pend(pending[1..], u))[1..] == Pend(pending[1..], u);
    }
  }

  lemma {:induction false} PendIndices(pending: seq<Update>, u: Update, i: nat)
    requires i != u.index && forall k :: 0 <= k < |pending| ==> pending[k].index != i
    ensures forall k :: 0 <= k < |Pend(pending, u)| ==> Pend(pending, u)[k].index != i
  {
    if pending != [] { PendIndices(pending[1..], u, i); }
  }

  lemma {:induction false} PendStaysOnce(pending: seq<Update>, u: Update)
    requires OncePerAccount(pending)
    ensures OncePerAccount(Pend(pending, u))
  {
    if pending != [] && pending[0].index != u.index {
      PendStaysOnce(pending[1..], u);
      PendIndices(pending[1..], u, pending[0].index);
    }
  }

  lemma {:induction false} LastOfSnoc(queue: seq<Update>, u: Update, i: nat)
    ensures LastFor(queue + [u], i) == if i == u.index then Some(u) else LastFor(queue, i)
  {
    if queue == [] {
      assert queue + [u] == [u] && [u][1..] == [];
    } else {
      assert (queue + [u])[1..] == queue[1..] + [u];
      LastOfSnoc(queue[1..], u, i);
    }
  }

  /** What a slot holds after the queue depends only on the last push to it. */
  lemma {:induction false} SlotAfter(dec: Decode, slots: Slots, queue: seq<Update>, i: nat)
    requires InRange(queue, |slots|) && i < |slots|
    ensures RefAll(dec, slots, queue)[i]
         == match LastFor(queue, i)
            case None => slots[i]
            case Some(u) => if u.raw.None? then None else dec(u.raw.value.text, u.raw.value.encoding)
    decreases queue
  {
    if queue != [] { SlotAfter(dec, RefOne(dec, slots, queue[0]), queue[1..], i); }
  }

  lemma SameLastSameSlots(dec: Decode, slots: Slots, a: seq<Update>, b: seq<Update>)
    requires InRange(a, |slots|) && InRange(b, |slots|)
    requires forall i: nat :: LastFor(a, i) == LastFor(b, i)
    ensures RefAll(dec, slots, a) == RefAll(dec, slots, b)
  {
    forall i | 0 <= i < |slots|
      ensures RefAll(dec, slots, a)[i] == RefAll(dec, slots, b)[i]
    {
      SlotAfter(dec, slots, a, i);
      SlotAfter(dec, slots, b, i);
    }
  }

  // ----- every run -----

  datatype Step = Push(update: Update) | PublishNow | TakeSnapshot(values: seq<Option<Raw>>)

  predicate Accepts(n: nat, step: Step) {
    step.Push? ==> step.update.index < n
  }

  lemma {:induction false} PendInRange(pending: seq<Update>, u: Update, n: nat)
    requires InRange(pending, n) && u.index < n
    ensures InRange(Pend(pending, u), n)
  {
    if pending != [] { PendInRange(pending[1..], u, n); }
  }

  function Do(dec: Decode, f: Feed, step: Step): (g: Feed)
    requires Valid(f) && Accepts(|f.slots|, step)
    ensures Valid(g) && |g.slots| == |f.slots|
  {
    match step
    case Push(u) => PendInRange(f.pending, u, |f.slots|); f.(pending := Pend(f.pending, u))
    case PublishNow => Publish(dec, f).0
    case TakeSnapshot(values) => Snapshot(dec, f, values).0
  }

  /** The reference: slots, and every push since the last publish. */
  datatype Reference = Reference(slots: Slots, queue: seq<Update>)

  function Fetched(dec: Decode, values: seq<Option<Raw>>): (r: Slots)
    ensures |r| == |values|
  {
    seq(|values|, i requires 0 <= i < |values| =>
      if values[i].None? then None else dec(values[i].value.text, values[i].value.encoding))
  }

  function RefDo(dec: Decode, r: Reference, step: Step): (q: Reference)
    requires InRange(r.queue, |r.slots|) && Accepts(|r.slots|, step)
    ensures InRange(q.queue, |q.slots|) && |q.slots| == |r.slots|
  {
    match step
    case Push(u) => r.(queue := r.queue + [u])
    case PublishNow => Reference(RefAll(dec, r.slots, r.queue), [])
    case TakeSnapshot(values) =>
      if |values| != |r.slots| then r else Reference(RefAll(dec, Fetched(dec, values), r.queue), [])
  }

  /** One encoding on the socket, and payloads that decode. */
  predicate Sound(dec: Decode, encoding: string, step: Step) {
    match step
    case Push(u) => OneEncoding(encoding, [u]) && Decodable(dec, [u])
    case PublishNow => true
    case TakeSnapshot(values) =>
      forall i :: 0 <= i < |values| && values[i].Some? ==> dec(values[i].value.text, values[i].value.encoding).Some?
  }

  ghost predicate Related(dec: Decode, encoding: string, f: Feed, r: Reference) {
    && Valid(f) && InRange(r.queue, |r.slots|)
    && f.slots == r.slots
    && Remembered(dec, encoding, f)
    && OneEncoding(encoding, f.pending) && Decodable(dec, f.pending) && OncePerAccount(f.pending)
    && forall i: nat :: LastFor(f.pending, i) == LastFor(r.queue, i)
  }

  lemma PublishRelates(dec: Decode, encoding: string, f: Feed, r: Reference)
    requires Related(dec, encoding, f, r)
    ensures Publish(dec, f).1
    ensures Related(dec, encoding, Publish(dec, f).0, Reference(RefAll(dec, r.slots, r.queue), []))
  {
    SkippingIsHarmless(dec, encoding, f, 0);
    assert f.pending[0..] == f.pending;
    SameLastSameSlots(dec, f.slots, f.pending, r.queue);
    PublishRemembersIffNoThrow(dec, encoding, f);
  }

  lemma {:induction false} OverwriteFetches(dec: Decode, f: Feed, values: seq<Option<Raw>>, i: nat)
    requires Valid(f) && |values| == |f.slots| && i <= |values| && Sound(dec, "", TakeSnapshot(values))
    ensures var (g, ok) := Overwrite(dec, f, values, i); ok && g.slots == f.slots[..i] + Fetched(dec, values)[i..]
    decreases |values| - i
  {
    if i < |values| {
      var bytes := if values[i].None? then None else dec(values[i].value.text, values[i].value.encoding);
      OverwriteFetches(dec, f.(slots := f.slots[i := bytes], lastRaw := f.lastRaw[i := None]), values, i + 1);
      assert f.slots[i := bytes][..i + 1] == f.slots[..i] + [bytes];
      assert Fetched(dec, values)[i..] == [bytes] + Fetched(dec, values)[i + 1..];
    }
  }

  lemma {:induction false} PendKeepsSound(dec: Decode, encoding: string, pending: seq<Update>, u: Update)
    requires OneEncoding(encoding, pending) && Decodable(dec, pending) && Sound(dec, encoding, Push(u))
    ensures OneEncoding(encoding, Pend(pending, u)) && Decodable(dec, Pend(pending, u))
  {
    assert [u][0] == u;
    if pending != [] { PendKeepsSound(dec, encoding, pending[1..], u); }
  }

  lemma PushRelates(dec: Decode, encoding: string, f: Feed, r: Reference, u: Update)
    requires Related(dec, encoding, f, r) && u.index < |f.slots| && Sound(dec, encoding, Push(u))
    ensures Related(dec, encoding, Do(dec, f, Push(u)), RefDo(dec, r, Push(u)))
  {
    PendInRange(f.pending, u, |f.slots|);
    PendKeepsSound(dec, encoding, f.pending, u);
    PendStaysOnce(f.pending, u);
    forall i: nat
      ensures LastFor(Pend(f.pending, u), i) == LastFor(r.queue + [u], i)
    {
      PendKeepsLast(f.pending, u, i);
      LastOfSnoc(r.queue, u, i);
    }
  }

  lemma SnapshotRelates(dec: Decode, encoding: string, f: Feed, r: Reference, values: seq<Option<Raw>>)
    requires Related(dec, encoding, f, r) && Sound(dec, encoding, TakeSnapshot(values))
    ensures Related(dec, encoding, Do(dec, f, TakeSnapshot(values)), RefDo(dec, r, TakeSnapshot(values)))
  {
    if |values| == |f.slots| {
      OverwriteRemembers(dec, encoding, f, values, 0);
      OverwriteFetches(dec, f, values, 0);
      PublishRelates(dec, encoding, Overwrite(dec, f, values, 0).0, r.(slots := Fetched(dec, values)));
    }
  }

  predicate SoundRun(dec: Decode, encoding: string, n: nat, steps: seq<Step>) {
    forall k :: 0 <= k < |steps| ==> Accepts(n, steps[k]) && Sound(dec, encoding, steps[k])
  }

  function Run(dec: Decode, f: Feed, steps: seq<Step>): (g: Feed)
    requires Valid(f) && forall k :: 0 <= k < |steps| ==> Accepts(|f.slots|, steps[k])
    ensures Valid(g) && |g.slots| == |f.slots|
    decreases steps
  {
    if steps == [] then f else Run(dec, Do(dec, f, steps[0]), steps[1..])
  }

  function RefRun(dec: Decode, r: Reference, steps: seq<Step>): (q: Reference)
    requires InRange(r.queue, |r.slots|) && forall k :: 0 <= k < |steps| ==> Accepts(|r.slots|, steps[k])
    ensures InRange(q.queue, |q.slots|) && |q.slots| == |r.slots|
    decreases steps
  {
    if steps == [] then r else RefRun(dec, RefDo(dec, r, steps[0]), steps[1..])
  }

  /** In every run of pushes, publishes and snapshots the slots are those of the reference that decodes
      every push in order, and a remembered text is always that of its slot. */
  lemma {:induction false} FeedMatchesReference(dec: Decode, encoding: string, f: Feed, r: Reference, steps: seq<Step>)
    requires Related(dec, encoding, f, r) && SoundRun(dec, encoding, |f.slots|, steps)
    ensures Related(dec, encoding, Run(dec, f, steps), RefRun(dec, r, steps))
    decreases steps
  {
    if steps != [] {
      var step := steps[0];
      assert Accepts(|f.slots|, step) && Sound(dec, encoding, step);
      match step {
        case Push(u) => PushRelates(dec, encoding, f, r, u);
        case PublishNow => PublishRelates(dec, encoding, f, r);
        case TakeSnapshot(values) => SnapshotRelates(dec, encoding, f, r, values);
      }
      FeedMatchesReference(dec, encoding, Do(dec, f, step), RefDo(dec, r, step), steps[1..]);
    }
  }

  // ----- why both assumptions are needed -----

  /** A payload that does not decode is remembered all the same: the publish throws, and the next one skips
      the payload, reports success and shows the account as it was before. */
  lemma BadPayloadSticks(dec: Decode, before: seq<nat>, bad: Raw)
    requires dec(bad.text, bad.encoding).None?
    ensures var f := Feed([Some(before)], [None], [Update(0, Some(bad))]);
            && Valid(f) && !Publish(dec, f).1
            && Publish(dec, Publish(dec, f).0) == (Feed([Some(before)], [Some(bad.text)], []), true)
  {
    var f := Feed([Some(before)], [None], [Update(0, Some(bad))]);
    var g := f.(lastRaw := [Some(bad.text)]);
    assert f.lastRaw[0 := Some(bad.text)] == g.lastRaw;
    assert ApplyFrom(dec, f, 0) == (g, false);
    assert ApplyFrom(dec, g, 0) == ApplyFrom(dec, g, 1) == (g, true);
  }

  /** The skip compares texts only: the same text in another encoding is not decoded again. */
  lemma OtherEncodingIsMissed(dec: Decode, text: string, e1: string, e2: string)
    requires dec(text, e1).Some? && dec(text, e2).Some? && dec(text, e1) != dec(text, e2)
    ensures var f := Feed([dec(text, e1)], [Some(text)], [Update(0, Some(Raw(text, e2)))]);
            && Valid(f) && Remembered(dec, e1, f)
            && Publish(dec, f).0.slots == [dec(text, e1)] != RefAll(dec, f.slots, f.pending)
  {
    var f := Feed([dec(text, e1)], [Some(text)], [Update(0, Some(Raw(text, e2)))]);
    assert ApplyFrom(dec, f, 0) == ApplyFrom(dec, f, 1) == (f, true);
    assert f.pending[1..] == [];
    assert RefAll(dec, f.slots, f.pending) == RefOne(dec, f.slots, f.pending[0]);
    assert RefOne(dec, f.slots, f.pending[0])[0] == dec(text, e2);
  }

  function Decoded(dec: Decode, u: Update): Option<seq<nat>> {
    if u.raw.None? then None else dec(u.raw.value.text, u.raw.value.encoding)
  }

  /** What a slot holds after the loop: the decode of its entry, unless the entry is skipped. */
  lemma {:induction false} SlotAfterApply(dec: Decode, f: Feed, k: nat, i: nat)
    requires Valid(f) && k <= |f.pending| && i < |f.slots| && Decodable(dec, f.pending) && OncePerAccount(f.pending)
    ensures var u := LastFor(f.pending[k..], i);
            && (u.Some? ==> u.value.index == i)
            && ApplyFrom(dec, f, k).0.slots[i]
            == if u.None? || Skips(f, u.value) then f.slots[i] else Decoded(dec, u.value)
    decreases |f.pending| - k
  {
    if k < |f.pending| {
      var u := f.pending[k];
      var g := ApplyOne(dec, f, u).0;
      SlotAfterApply(dec, g, k + 1, i);
      assert f.pending[k..][1..] == f.pending[k + 1..];
      if u.index == i { AbsentHasNoLast(f.pending[k + 1..], i); }
    }
  }

  lemma {:induction false} OnceIsLast(updates: seq<Update>, k: nat)
    requires OncePerAccount(updates) && k < |updates|
    ensures LastFor(updates, updates[k].index) == Some(updates[k])
  {
    if k == 0 {
      AbsentHasNoLast(updates[1..], updates[0].index);
    } else {
      OnceIsLast(updates[1..], k - 1);
    }
  }

  lemma {:induction false} LastIsListed(updates: seq<Update>, i: nat)
    ensures LastFor(updates, i).Some? ==> LastFor(updates, i).value in updates && LastFor(updates, i).value.index == i
  {
    if updates != [] { LastIsListed(updates[1..], i); }
  }

  predicate SkipIsRight(dec: Decode, f: Feed, u: Update)
    requires Valid(f) && u.index < |f.slots|
  {
    Skips(f, u) ==> f.slots[u.index] == Decoded(dec, u)
  }

  /** Whatever the encodings and whatever is remembered, a publish of payloads that decode gives what decoding
      every entry gives, exactly when each skipped entry's slot already holds its decode. */
  lemma MixedPublishIff(dec: Decode, f: Feed)
    requires Valid(f) && Decodable(dec, f.pending) && OncePerAccount(f.pending)
    ensures Publish(dec, f).0.slots == RefAll(dec, f.slots, f.pending)
       <==> forall k :: 0 <= k < |f.pending| ==> SkipIsRight(dec, f, f.pending[k])
  {
    ApplySucceeds(dec, f, 0);
    var a, b := ApplyFrom(dec, f, 0).0.slots, RefAll(dec, f.slots, f.pending);
    assert f.pending[0..] == f.pending;
    forall k | 0 <= k < |f.pending|
      ensures a[f.pending[k].index] == b[f.pending[k].index] <==> SkipIsRight(dec, f, f.pending[k])
    {
      var i := f.pending[k].index;
      OnceIsLast(f.pending, k);
      SlotAfterApply(dec, f, 0, i);
      SlotAfter(dec, f.slots, f.pending, i);
    }
    forall i | 0 <= i < |a| && LastFor(f.pending, i).None?
      ensures a[i] == b[i]
    {
      SlotAfterApply(dec, f, 0, i);
      SlotAfter(dec, f.slots, f.pending, i);
    }
    forall i | 0 <= i < |a|
      ensures LastFor(f.pending, i).Some? ==> exists k :: 0 <= k < |f.pending| && f.pending[k].index == i
    {
      LastIsListed(f.pending, i);
    }
  }
}
