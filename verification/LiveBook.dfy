/**
 The live book's effect in `features/trading/use-v3-book.ts` on the heap: byte
 arrays per account, the decode caches keyed by those arrays, and the book last
 shown. It joins `LiveFeed` (which account bytes) and `BookDecoder` (what they
 decode to): what is shown is the fresh decode of the reference's accounts.
 */
module LiveBook {
  import opened Wrappers
  import opened BookView
  import opened BookDecoder
  import opened LiveFeed

  const BOOK_PAGES := 18
  const SEAT_END := 22
  const KEYS := 26
  const REQUOTE_GAP_MS := 2_500

  datatype Shown<+T, +P> = Shown(view: View<T, P>, updatedAt: int)

  /** What a publish came to. */
  datatype Result = Threw | Undecodable | Held | Rendered

  predicate Quoted<T, P>(view: View<T, P>) {
    view.bids != [] || view.asks != []
  }

  /** An empty book is held back while a requote may still be on its way. */
  function Rendering<T, P>(book: Option<View<T, P>>, nowMs: nat, lastQuotedAt: int): Result {
    if book.None? then Undecodable
    else if !Quoted(book.value) && nowMs - lastQuotedAt < REQUOTE_GAP_MS then Held
    else Rendered
  }

  /** A book with a level on either side is always shown; an empty one is held back for 2.5 s after the last that had
      one. */
  predicate ShownUnlessEmpty<T, P>(book: Option<View<T, P>>, result: Result, sinceQuotedMs: int) {
    match book
    case None => result == Undecodable
    case Some(v) => result == if v.bids == [] && v.asks == [] && sinceQuotedMs < 2_500 then Held else Rendered
  }

  lemma RenderedUnlessEmpty<T, P>(book: Option<View<T, P>>, nowMs: nat, lastQuotedAt: int)
    ensures ShownUnlessEmpty(book, Rendering(book, nowMs, lastQuotedAt), nowMs - lastQuotedAt)
  {}

  function Absent<A>(n: nat): (s: seq<Option<A>>)
    ensures |s| == n && forall i :: 0 <= i < n ==> s[i] == None
  {
    if n == 0 then [] else Absent(n - 1) + [None]
  }

  /** No account read, nothing pending. */
  const EMPTY_FEED := Feed(Absent(KEYS), Absent(KEYS), [])

  /** The book of a set of account bytes, decoded with no cache and no history. */
  ghost function FreshBook<P, R, T>(d: Decoders<P, R, T>, slots: Slots, nowMs: nat): Option<View<T, P>>
    requires LeavesComplete(d) && |slots| == KEYS
  {
    Afresh(d, slots[..BOOK_PAGES], slots[BOOK_PAGES..SEAT_END], slots[SEAT_END..KEYS], nowMs / 1000)
  }

  lemma PartsOf(data: seq<Bytes?>)
    requires |data| == KEYS && DistinctArrays(data)
    ensures Contents(data[..BOOK_PAGES]) == Contents(data)[..BOOK_PAGES] && DistinctArrays(data[..BOOK_PAGES])
    ensures Contents(data[BOOK_PAGES..SEAT_END]) == Contents(data)[BOOK_PAGES..SEAT_END]
    ensures Contents(data[SEAT_END..KEYS]) == Contents(data)[SEAT_END..KEYS]
  {}

  class LiveBook<!P, !R, !T> {
    const cache: DecodeCache<P, R, T>
    const dec: Decode
    var data: seq<Bytes?>
    var lastRaw: seq<Option<string>>
    var pending: seq<Update>
    var lastGood: int
    var lastQuotedAt: int
    var shown: Option<Shown<T, P>>

    constructor (d: Decoders<P, R, T>, dec: Decode)
      requires LeavesComplete(d)
      ensures Valid() && fresh(cache) && cache.d == d && this.dec == dec && cache.CachedNodes() == {}
      ensures Value() == EMPTY_FEED
      ensures shown.None? && lastGood == 0 && lastQuotedAt == 0
    {
      cache := new DecodeCache(d);
      this.dec := dec;
      data := seq(KEYS, i => null);
      lastRaw := Absent(KEYS);
      pending, lastGood, lastQuotedAt, shown := [], 0, 0, None;
      new;
      assert Contents(data) == Absent(KEYS);
    }

    ghost function Value(): Feed
      reads this
    {
      Feed(Contents(data), lastRaw, pending)
    }

    /** No two accounts share an array: every decode makes its own. */
    ghost predicate Valid()
      reads this, cache
    {
      |data| == KEYS && LiveFeed.Valid(Value()) && DistinctArrays(data) && cache.Valid()
    }

    method OnPush(u: Update)
      requires Valid() && u.index < KEYS
      modifies this`pending
      ensures Valid() && Value() == Do(dec, old(Value()), Push(u))
    {
      PendInRange(pending, u, KEYS);
      pending := Pend(pending, u);
    }

    /** Replaces one account's bytes by a new array. */
    method Assign(i: nat, content: Option<seq<nat>>)
      requires Valid() && i < KEYS
      modifies this`data
      ensures Valid() && Contents(data) == Contents(old(data))[i := content]
    {
      if content.None? {
        data := data[i := null];
      } else {
        var bytes := new Bytes(content.value);
        data := data[i := bytes];
      }
    }

    /** The loop over the pending entries, which skips an unchanged payload. */
    method ApplyPending() returns (ok: bool)
      requires Valid()
      modifies this`data, this`lastRaw
      ensures Valid() && (Value(), ok) == ApplyFrom(dec, old(Value()), 0)
    {
      for k := 0 to |pending|
        invariant Valid() && pending == old(pending)
        invariant ApplyFrom(dec, old(Value()), 0) == ApplyFrom(dec, Value(), k)
      {
        var index, raw := pending[k].index, pending[k].raw;
        if raw.Some? && Some(raw.value.text) == lastRaw[index] {
          continue;
        }
        lastRaw := lastRaw[index := if raw.Some? then Some(raw.value.text) else None];
        if raw.None? {
          Assign(index, None);
        } else {
          var content := dec(raw.value.text, raw.value.encoding);
          if content.None? {
            return false;
          }
          Assign(index, content);
        }
      }
      ok := true;
    }

    /** Decodes the bundle of the current accounts as if everything were decoded anew. */
    method DecodeCurrent(nowMs: nat) returns (view: Option<View<T, P>>)
      requires Valid()
      modifies cache, cache.CachedNodes()
      ensures Valid() && fresh(cache.CachedNodes() - old(cache.CachedNodes()))
      ensures view == FreshBook(cache.d, Contents(data), nowMs)
    {
      var pages, seats, events := data[..BOOK_PAGES], data[BOOK_PAGES..SEAT_END], data[SEAT_END..KEYS];
      PartsOf(data);
      view := cache.DecodeBundle(pages, seats, events, nowMs / 1000);
      if DecodePages(cache.d, Contents(pages)).Some? { DistinctIsAfresh(cache.d, pages, seats, events, nowMs / 1000); }
    }

    method Render(decoded: Option<View<T, P>>, nowMs: nat) returns (result: Result)
      modifies this`lastGood, this`lastQuotedAt, this`shown
      ensures result == Rendering(decoded, nowMs, old(lastQuotedAt))
      ensures lastGood == (if decoded.Some? then nowMs else old(lastGood))
      ensures shown == (if result.Rendered? then Some(Shown(decoded.value, nowMs)) else old(shown))
      ensures lastQuotedAt == (if result.Rendered? && Quoted(decoded.value) then nowMs else old(lastQuotedAt))
    {
      if decoded.None? {
        return Undecodable;
      }
      lastGood := nowMs;
      if !Quoted(decoded.value) && lastGood - lastQuotedAt < REQUOTE_GAP_MS {
        return Held;
      }
      if Quoted(decoded.value) {
        lastQuotedAt := lastGood;
      }
      shown := Some(Shown(decoded.value, lastGood));
      return Rendered;
    }

    method PublishNow(nowMs: nat) returns (result: Result)
      requires Valid()
      modifies this, cache, cache.CachedNodes()
      ensures Valid() && fresh(cache.CachedNodes() - old(cache.CachedNodes()))
      ensures Value() == Publish(dec, old(Value())).0
      ensures var book := FreshBook(cache.d, Value().slots, nowMs);
              && result == (if Publish(dec, old(Value())).1 then Rendering(book, nowMs, old(lastQuotedAt)) else Threw)
              && shown == (if result.Rendered? then Some(Shown(book.value, nowMs)) else old(shown))
              && lastQuotedAt == (if result.Rendered? && Quoted(book.value) then nowMs else old(lastQuotedAt))
              && lastGood == (if result.Held? || result.Rendered? then nowMs else old(lastGood))
      ensures Publish(dec, old(Value())).1 ==>
                ShownUnlessEmpty(FreshBook(cache.d, Value().slots, nowMs), result, nowMs - old(lastQuotedAt))
    {
      var ok := ApplyPending();
      if !ok {
        return Threw;
      }
      pending := [];
      var decoded := DecodeCurrent(nowMs);
      RenderedUnlessEmpty(decoded, nowMs, lastQuotedAt);
      result := Render(decoded, nowMs);
    }

    /** The assignments of a snapshot; they stop at the first payload that does not decode. */
    method OverwriteAll(values: seq<Option<Raw>>) returns (ok: bool)
      requires Valid() && |values| == KEYS
      modifies this`data, this`lastRaw
      ensures Valid() && (Value(), ok) == Overwrite(dec, old(Value()), values, 0)
    {
      for i := 0 to KEYS
        invariant Valid() && pending == old(pending)
        invariant Overwrite(dec, old(Value()), values, 0) == Overwrite(dec, Value(), values, i)
      {
        var content := if values[i].None? then None else dec(values[i].value.text, values[i].value.encoding);
        if values[i].Some? && content.None? {
          return false;
        }
        Assign(i, content);
        lastRaw := lastRaw[i := None];
      }
      ok := true;
    }

    method OnSnapshot(values: seq<Option<Raw>>, nowMs: nat) returns (result: Result)
      requires Valid()
      modifies this, cache, cache.CachedNodes()
      ensures Valid() && fresh(cache.CachedNodes() - old(cache.CachedNodes()))
      ensures Value() == Do(dec, old(Value()), TakeSnapshot(values))
      ensures result.Rendered? ==>
                var book := FreshBook(cache.d, Value().slots, nowMs);
                book.Some? && shown == Some(Shown(book.value, nowMs))
      ensures !result.Rendered? ==> shown == old(shown)
    {
      if |values| != KEYS {
        return Threw;
      }
      var ok := OverwriteAll(values);
      if !ok {
        return Threw;
      }
      result := PublishNow(nowMs);
    }
  }

  /** Takes a run of pushes, publishes and snapshots, each at its time. */
  method Follow<P, R, T>(book: LiveBook<P, R, T>, steps: seq<Step>, times: seq<nat>)
    requires book.Valid() && |times| == |steps| && forall k :: 0 <= k < |steps| ==> Accepts(KEYS, steps[k])
    modifies book, book.cache, book.cache.CachedNodes()
    ensures book.Valid() && fresh(book.cache.CachedNodes() - old(book.cache.CachedNodes()))
    ensures book.Value() == Run(book.dec, old(book.Value()), steps)
  {
    ghost var start := book.Value();
    for i := 0 to |steps|
      invariant book.Valid() && fresh(book.cache.CachedNodes() - old(book.cache.CachedNodes()))
      invariant Run(book.dec, start, steps) == Run(book.dec, book.Value(), steps[i..])
    {
      assert steps[i..][1..] == steps[i + 1..];
      match steps[i]
      case Push(u) =>
        book.OnPush(u);
      case PublishNow =>
        var result := book.PublishNow(times[i]);
      case TakeSnapshot(values) =>
        var result := book.OnSnapshot(values, times[i]);
    }
  }

  /** A new live book that has followed a sound run decodes to the reference's book. */
  method BookAfter<P, R, T>(d: Decoders<P, R, T>, dec: Decode, encoding: string, steps: seq<Step>, times: seq<nat>,
                            nowMs: nat) returns (view: Option<View<T, P>>)
    requires LeavesComplete(d) && SoundRun(dec, encoding, KEYS, steps) && |times| == |steps|
    ensures |RefRun(dec, Reference(EMPTY_FEED.slots, []), steps).slots| == 26
    ensures var slots := RefRun(dec, Reference(EMPTY_FEED.slots, []), steps).slots;
            view == Afresh(d, slots[..18], slots[18..22], slots[22..26], nowMs / 1000)
  {
    var book := new LiveBook(d, dec);
    Follow(book, steps, times);
    BookIsReferenceBook(d, dec, encoding, steps, nowMs);
    view := book.DecodeCurrent(nowMs);
  }

  /** After every sound run the book decodes, through skips, coalescing, caches and in-place marks, to what a
      reader would get who decodes every push in order and every account afresh. */
  lemma BookIsReferenceBook<P, R, T>(d: Decoders<P, R, T>, dec: Decode, encoding: string, steps: seq<Step>, nowMs: nat)
    requires LeavesComplete(d) && SoundRun(dec, encoding, KEYS, steps)
    ensures FreshBook(d, Run(dec, EMPTY_FEED, steps).slots, nowMs)
         == FreshBook(d, RefRun(dec, Reference(EMPTY_FEED.slots, []), steps).slots, nowMs)
  {
    FeedMatchesReference(dec, encoding, EMPTY_FEED, Reference(EMPTY_FEED.slots, []), steps);
  }
}
