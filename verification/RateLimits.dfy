/**
 The two login limiters: the sliding window of `lib/auth/application-service.ts`,
 which forgets old attempts as it goes, and the fixed window of
 `lib/auth/d1-rate-limit.ts` (one SQL upsert) with its in-memory stand-in in
 `lib/auth/route-session-store.ts`.
 */
module RateLimits {
  import opened Wrappers

  /** How many of `s` lie in the half-open interval from `lo` to `hi`. */
  function CountIn(s: seq<int>, lo: int, hi: int): nat {
    if s == [] then 0
    else CountIn(s[..|s| - 1], lo, hi) + if lo <= s[|s| - 1] < hi then 1 else 0
  }

  predicate NonDecreasing(times: seq<int>) {
    forall i, j :: 0 <= i < j < |times| ==> times[i] <= times[j]
  }

  lemma CountSnoc(s: seq<int>, t: int, lo: int, hi: int)
    ensures CountIn(s + [t], lo, hi) == CountIn(s, lo, hi) + if lo <= t < hi then 1 else 0
  {
    assert (s + [t])[..|s|] == s;
  }

  // ----- the sliding window -----

  /** The attempts that still count at `now`. */
  function Recent(s: seq<int>, now: int, windowMs: int): (r: seq<int>)
    ensures |r| <= |s|
  {
    if s == [] then []
    else
      var front, last := Recent(s[..|s| - 1], now, windowMs), s[|s| - 1];
      if now - last < windowMs then front + [last] else front
  }

  class SlidingLimiter {
    const limit: int
    const windowMs: int
    var attempts: map<string, seq<int>>

    constructor (limit: int, windowMs: int)
      ensures this.limit == limit && this.windowMs == windowMs && attempts == map[]
    {
      this.limit, this.windowMs, attempts := limit, windowMs, map[];
    }

    method Allow(key: string, now: int) returns (ok: bool)
      modifies this
      ensures ok == Admits(limit, windowMs, AttemptsOf(old(attempts), key), now)
      ensures AttemptsOf(attempts, key) == AfterAttempt(limit, windowMs, AttemptsOf(old(attempts), key), now)
      ensures forall k :: k != key ==> AttemptsOf(attempts, k) == AttemptsOf(old(attempts), k)
      ensures attempts == if ok then old(attempts)[key := AttemptsOf(attempts, key)] else old(attempts)
    {
      var recent := Recent(AttemptsOf(attempts, key), now, windowMs);
      if |recent| >= limit {
        return false;
      }
      attempts := attempts[key := recent + [now]];
      return true;
    }
  }

  function AttemptsOf(attempts: map<string, seq<int>>, key: string): seq<int> {
    if key in attempts then attempts[key] else []
  }

  predicate Admits(limit: int, windowMs: int, stored: seq<int>, now: int) {
    |Recent(stored, now, windowMs)| < limit
  }

  function AfterAttempt(limit: int, windowMs: int, stored: seq<int>, now: int): seq<int> {
    if Admits(limit, windowMs, stored, now) then Recent(stored, now, windowMs) + [now] else stored
  }

  /** What is stored for one key after requests at `times`. */
  function Stored(limit: int, windowMs: int, times: seq<int>): seq<int> {
    if times == [] then []
    else AfterAttempt(limit, windowMs, Stored(limit, windowMs, times[..|times| - 1]), times[|times| - 1])
  }

  /** Every admission there ever was: the log that forgets nothing. */
  function Admissions(limit: int, windowMs: int, times: seq<int>): seq<int> {
    if times == [] then []
    else
      var front, now := times[..|times| - 1], times[|times| - 1];
      var log := Admissions(limit, windowMs, front);
      if Admits(limit, windowMs, Stored(limit, windowMs, front), now) then log + [now] else log
  }

  lemma RecentSnoc(s: seq<int>, t: int, now: int, windowMs: int)
    ensures Recent(s + [t], now, windowMs) == Recent(s, now, windowMs) + if now - t < windowMs then [t] else []
  {
    assert (s + [t])[..|s|] == s;
  }

  /** What an earlier pass dropped, a later pass would drop too. */
  lemma {:induction false} RecentTwice(s: seq<int>, t: int, now: int, windowMs: int)
    requires t <= now
    ensures Recent(Recent(s, t, windowMs), now, windowMs) == Recent(s, now, windowMs)
  {
    if s != [] {
      var front, last := s[..|s| - 1], s[|s| - 1];
      RecentTwice(front, t, now, windowMs);
      RecentSnoc(Recent(front, t, windowMs), last, now, windowMs);
    }
  }

  /** Forgetting is harmless: the stored attempts and the full log agree on what still counts. */
  lemma {:induction false} ForgettingIsHarmless(limit: int, windowMs: int, times: seq<int>, now: int)
    requires NonDecreasing(times + [now])
    ensures Recent(Stored(limit, windowMs, times), now, windowMs)
         == Recent(Admissions(limit, windowMs, times), now, windowMs)
  {
    if times != [] {
      var front, t := times[..|times| - 1], times[|times| - 1];
      var stored, log := Stored(limit, windowMs, front), Admissions(limit, windowMs, front);
      assert forall i :: 0 <= i < |front| ==> (times + [now])[i] == front[i];
      assert (times + [now])[|front|] == t && (times + [now])[|times|] == now;
      assert front + [now] == (times + [now])[..|front|] + [now];
      ForgettingIsHarmless(limit, windowMs, front, now);
      if Admits(limit, windowMs, stored, t) {
        RecentTwice(stored, t, now, windowMs);
        RecentSnoc(Recent(stored, t, windowMs), t, now, windowMs);
        RecentSnoc(log, t, now, windowMs);
      }
    }
  }

  /** A request passes exactly when fewer than `limit` admissions happened less than `windowMs` ago. */
  lemma SlidingDecision(limit: int, windowMs: int, times: seq<int>, now: int)
    requires NonDecreasing(times + [now])
    ensures Admits(limit, windowMs, Stored(limit, windowMs, times), now)
       <==> |Recent(Admissions(limit, windowMs, times), now, windowMs)| < limit
  {
    ForgettingIsHarmless(limit, windowMs, times, now);
  }

  lemma {:induction false} WindowCountIsRecent(s: seq<int>, lo: int, now: int, windowMs: int)
    requires now < lo + windowMs
    requires forall i :: 0 <= i < |s| ==> s[i] <= now
    ensures CountIn(s, lo, lo + windowMs) <= |Recent(s, now, windowMs)|
  {
    if s != [] { WindowCountIsRecent(s[..|s| - 1], lo, now, windowMs); }
  }

  lemma {:induction false} AdmissionsAreRequests(limit: int, windowMs: int, times: seq<int>)
    ensures forall x :: x in Admissions(limit, windowMs, times) ==> x in times
  {
    if times != [] {
      AdmissionsAreRequests(limit, windowMs, times[..|times| - 1]);
      assert forall x :: x in times[..|times| - 1] ==> x in times;
    }
  }

  lemma AdmissionsArePast(limit: int, windowMs: int, times: seq<int>, now: int)
    requires NonDecreasing(times + [now])
    ensures var log := Admissions(limit, windowMs, times); forall i :: 0 <= i < |log| ==> log[i] <= now
  {
    var log := Admissions(limit, windowMs, times);
    AdmissionsAreRequests(limit, windowMs, times);
    forall i | 0 <= i < |log|
      ensures log[i] <= now
    {
      assert log[i] in log;
      var k :| 0 <= k < |times| && times[k] == log[i];
      assert (times + [now])[k] <= (times + [now])[|times|];
    }
  }

  /** No interval of the window's length ever holds more than `limit` admissions. */
  lemma {:induction false} SlidingBound(limit: int, windowMs: int, times: seq<int>, lo: int)
    requires NonDecreasing(times) && limit >= 0
    ensures CountIn(Admissions(limit, windowMs, times), lo, lo + windowMs) <= limit
  {
    if times != [] {
      var front, now := times[..|times| - 1], times[|times| - 1];
      var log := Admissions(limit, windowMs, front);
      SlidingBound(limit, windowMs, front, lo);
      CountSnoc(log, now, lo, lo + windowMs);
      assert times == front + [now];
      SlidingDecision(limit, windowMs, front, now);
      AdmissionsArePast(limit, windowMs, front, now);
      if lo <= now < lo + windowMs { WindowCountIsRecent(log, lo, now, windowMs); }
    }
  }

  datatype Request = Request(key: string, now: int)

  function After(limit: int, windowMs: int, requests: seq<Request>): map<string, seq<int>> {
    if requests == [] then map[]
    else
      var attempts, r := After(limit, windowMs, requests[..|requests| - 1]), requests[|requests| - 1];
      var stored := AttemptsOf(attempts, r.key);
      if Admits(limit, windowMs, stored, r.now)
      then attempts[r.key := AfterAttempt(limit, windowMs, stored, r.now)] else attempts
  }

  function TimesOf(requests: seq<Request>, key: string): seq<int> {
    if requests == [] then []
    else
      var front, r := TimesOf(requests[..|requests| - 1], key), requests[|requests| - 1];
      if r.key == key then front + [r.now] else front
  }

  /** Each key lives alone: its attempts are those of the run with every other key left out. */
  lemma {:induction false} KeysAreIndependent(limit: int, windowMs: int, requests: seq<Request>, key: string)
    ensures AttemptsOf(After(limit, windowMs, requests), key) == Stored(limit, windowMs, TimesOf(requests, key))
  {
    if requests != [] {
      var front, r := requests[..|requests| - 1], requests[|requests| - 1];
      KeysAreIndependent(limit, windowMs, front, key);
      var times := TimesOf(front, key);
      if r.key == key { assert (times + [r.now])[..|times|] == times; }
    }
  }

  /** The times at which `key` was let in. */
  function Granted(requests: seq<Request>, ok: seq<bool>, key: string): seq<int>
    requires |ok| == |requests|
  {
    if requests == [] then []
    else
      var n := |requests| - 1;
      var front := Granted(requests[..n], ok[..n], key);
      if requests[n].key == key && ok[n] then front + [requests[n].now] else front
  }

  /** No interval of this length holds more than `bound` of `log`. */
  ghost predicate NeverMoreThan(log: seq<int>, length: int, bound: int) {
    forall lo, hi :: hi - lo == length ==> CountIn(log, lo, hi) <= bound
  }

  function SlidingAnswers(limit: int, windowMs: int, requests: seq<Request>): (ok: seq<bool>)
    ensures |ok| == |requests|
  {
    if requests == [] then []
    else
      var front, r := requests[..|requests| - 1], requests[|requests| - 1];
      SlidingAnswers(limit, windowMs, front)
      + [Admits(limit, windowMs, AttemptsOf(After(limit, windowMs, front), r.key), r.now)]
  }

  lemma {:induction false} SlidingGrants(limit: int, windowMs: int, requests: seq<Request>, key: string)
    ensures Granted(requests, SlidingAnswers(limit, windowMs, requests), key)
         == Admissions(limit, windowMs, TimesOf(requests, key))
  {
    if requests != [] {
      var front, r := requests[..|requests| - 1], requests[|requests| - 1];
      SlidingGrants(limit, windowMs, front, key);
      KeysAreIndependent(limit, windowMs, front, key);
      assert SlidingAnswers(limit, windowMs, requests)[..|front|] == SlidingAnswers(limit, windowMs, front);
      var times := TimesOf(front, key);
      if r.key == key { assert (times + [r.now])[..|times|] == times; }
    }
  }

  lemma SlidingStep(limit: int, windowMs: int, requests: seq<Request>, r: Request)
    ensures var attempts := After(limit, windowMs, requests);
            var stored := AttemptsOf(attempts, r.key);
            var allowed := Admits(limit, windowMs, stored, r.now);
            && SlidingAnswers(limit, windowMs, requests + [r]) == SlidingAnswers(limit, windowMs, requests) + [allowed]
            && After(limit, windowMs, requests + [r])
            == if allowed then attempts[r.key := AfterAttempt(limit, windowMs, stored, r.now)] else attempts
  {
    assert (requests + [r])[..|requests|] == requests;
  }

  /** A new limiter lets each key in as its own requests alone decide, and with
      time not going back never more than `limit` times within a window. */
  method ServeSliding(limit: nat, windowMs: int, requests: seq<Request>) returns (ok: seq<bool>)
    ensures |ok| == |requests|
    ensures forall key :: Granted(requests, ok, key) == Admissions(limit, windowMs, TimesOf(requests, key))
    ensures forall key :: NonDecreasing(TimesOf(requests, key)) ==>
              NeverMoreThan(Granted(requests, ok, key), windowMs, limit)
  {
    var limiter := new SlidingLimiter(limit, windowMs);
    ok := [];
    for i := 0 to |requests|
      invariant limiter.limit == limit && limiter.windowMs == windowMs && fresh(limiter)
      invariant limiter.attempts == After(limit, windowMs, requests[..i])
      invariant ok == SlidingAnswers(limit, windowMs, requests[..i])
    {
      SlidingStep(limit, windowMs, requests[..i], requests[i]);
      assert requests[..i + 1] == requests[..i] + [requests[i]];
      var allowed := limiter.Allow(requests[i].key, requests[i].now);
      ok := ok + [allowed];
    }
    assert requests[..|requests|] == requests;
    forall key
      ensures Granted(requests, ok, key) == Admissions(limit, windowMs, TimesOf(requests, key))
    {
      SlidingGrants(limit, windowMs, requests, key);
    }
    forall key | NonDecreasing(TimesOf(requests, key))
      ensures NeverMoreThan(Granted(requests, ok, key), windowMs, limit)
    {
      SlidingNeverMore(limit, windowMs, TimesOf(requests, key));
    }
  }

  lemma SlidingNeverMore(limit: int, windowMs: int, times: seq<int>)
    requires NonDecreasing(times) && limit >= 0
    ensures NeverMoreThan(Admissions(limit, windowMs, times), windowMs, limit)
  {
    forall lo, hi | hi - lo == windowMs
      ensures CountIn(Admissions(limit, windowMs, times), lo, hi) <= limit
    {
      SlidingBound(limit, windowMs, times, lo);
    }
  }

  // ----- the fixed window -----

  const FIXED_LIMIT := 10
  const FIXED_WINDOW_MS := 60_000
  const MAX_SAFE_INTEGER := 9_007_199_254_740_991

  datatype Window = Window(start: int, count: nat, expiresAt: int)

  /** The upsert: insert, restart an expired window, count, or match no row. */
  function Upsert(row: Option<Window>, now: int): Option<Window> {
    if row.None? then Some(Window(now, 1, now + FIXED_WINDOW_MS))
    else if row.value.expiresAt <= now || row.value.count < FIXED_LIMIT then
      Some(Window(
             if row.value.expiresAt <= now then now else row.value.start,
             if row.value.expiresAt <= now then 1 else row.value.count + 1,
             if row.value.expiresAt <= now then now + FIXED_WINDOW_MS else row.value.expiresAt))
    else None
  }

  function RowOf(rows: map<string, Window>, key: string): Option<Window> {
    if key in rows then Some(rows[key]) else None
  }

  class SqlRateLimits {
    var rows: map<string, Window>

    constructor ()
      ensures rows == map[]
    {
      rows := map[];
    }

    /** Absent where the source throws on an invalid timestamp. */
    method AllowSessionExchange(key: string, now: int) returns (ok: Option<bool>)
      modifies this
      ensures ok.None? <==> now < 0 || now > MAX_SAFE_INTEGER
      ensures ok.None? ==> rows == old(rows)
      ensures ok.Some? ==>
                var next := Upsert(RowOf(old(rows), key), now);
                ok.value == next.Some? && rows == if next.Some? then old(rows)[key := next.value] else old(rows)
    {
      if now < 0 || now > MAX_SAFE_INTEGER {
        return None;
      }
      var next := Upsert(RowOf(rows, key), now);
      if next.Some? {
        rows := rows[key := next.value];
      }
      return Some(next.Some?);
    }
  }

  /** The stand-in keeps no window start. */
  datatype Entry = Entry(count: nat, expiresAt: int)

  function EntryOf(entries: map<string, Entry>, key: string): Option<Entry> {
    if key in entries then Some(entries[key]) else None
  }

  function Counted(entry: Option<Entry>, now: int): Option<Entry> {
    if entry.None? || entry.value.expiresAt <= now then Some(Entry(1, now + FIXED_WINDOW_MS))
    else if entry.value.count >= FIXED_LIMIT then None
    else Some(entry.value.(count := entry.value.count + 1))
  }

  class MemoryRateLimits {
    var entries: map<string, Entry>

    constructor ()
      ensures entries == map[]
    {
      entries := map[];
    }

    /** The returned row's count, if a row is returned. */
    method Allow(key: string, now: int) returns (count: Option<nat>)
      modifies this
      ensures var next := Counted(EntryOf(old(entries), key), now);
              && entries == (if next.Some? then old(entries)[key := next.value] else old(entries))
              && count == if next.Some? then Some(next.value.count) else None
    {
      if key !in entries || entries[key].expiresAt <= now {
        entries := entries[key := Entry(1, now + FIXED_WINDOW_MS)];
        return Some(1);
      }
      if entries[key].count >= FIXED_LIMIT {
        return None;
      }
      entries := entries[key := entries[key].(count := entries[key].count + 1)];
      return Some(entries[key].count);
    }
  }

  function RowsAfter(requests: seq<Request>): map<string, Window> {
    if requests == [] then map[]
    else
      var rows, r := RowsAfter(requests[..|requests| - 1]), requests[|requests| - 1];
      var next := Upsert(RowOf(rows, r.key), r.now);
      if next.Some? then rows[r.key := next.value] else rows
  }

  function EntriesAfter(requests: seq<Request>): map<string, Entry> {
    if requests == [] then map[]
    else
      var entries, r := EntriesAfter(requests[..|requests| - 1]), requests[|requests| - 1];
      var next := Counted(EntryOf(entries, r.key), r.now);
      if next.Some? then entries[r.key := next.value] else entries
  }

  predicate SameLimit(row: Option<Window>, entry: Option<Entry>) {
    if row.None? then entry.None? else entry == Some(Entry(row.value.count, row.value.expiresAt))
  }

  lemma {:induction false} EntriesMatchRows(requests: seq<Request>, key: string)
    ensures SameLimit(RowOf(RowsAfter(requests), key), EntryOf(EntriesAfter(requests), key))
  {
    if requests != [] {
      var front, r := requests[..|requests| - 1], requests[|requests| - 1];
      EntriesMatchRows(front, key);
      EntriesMatchRows(front, r.key);
    }
  }

  /** After any run over any keys the stand-in and the database answer the next request alike, count included. */
  lemma LimitersAgree(requests: seq<Request>, next: Request)
    ensures SameLimit(Upsert(RowOf(RowsAfter(requests), next.key), next.now),
                      Counted(EntryOf(EntriesAfter(requests), next.key), next.now))
  {
    EntriesMatchRows(requests, next.key);
  }

  /** Each key's row is the one its own requests alone give. */
  lemma {:induction false} RowsAreIndependent(requests: seq<Request>, key: string)
    ensures RowOf(RowsAfter(requests), key) == RowAfter(TimesOf(requests, key))
  {
    if requests != [] {
      var front, r := requests[..|requests| - 1], requests[|requests| - 1];
      RowsAreIndependent(front, key);
      var times := TimesOf(front, key);
      if r.key == key { assert (times + [r.now])[..|times|] == times; }
    }
  }

  /** One key's row after requests at `times`. */
  function RowAfter(times: seq<int>): Option<Window> {
    if times == [] then None
    else
      var row := RowAfter(times[..|times| - 1]);
      var next := Upsert(row, times[|times| - 1]);
      if next.Some? then next else row
  }

  function Admitted(times: seq<int>): seq<int> {
    if times == [] then []
    else
      var front, now := times[..|times| - 1], times[|times| - 1];
      if Upsert(RowAfter(front), now).Some? then Admitted(front) + [now] else Admitted(front)
  }

  /** The windows opened so far, by their starts. */
  function Starts(times: seq<int>): seq<int> {
    if times == [] then []
    else
      var front, now := times[..|times| - 1], times[|times| - 1];
      var row := RowAfter(front);
      if row.None? || row.value.expiresAt <= now then Starts(front) + [now] else Starts(front)
  }

  /** Windows never overlap, and the row holds the last one with at most ten admissions. */
  lemma {:induction false} WindowsNeverOverlap(times: seq<int>)
    ensures var starts, row := Starts(times), RowAfter(times);
            && (forall i :: 0 <= i < |starts| - 1 ==> starts[i] + 60_000 <= starts[i + 1])
            && (row.Some? <==> starts != [])
            && (row.Some? ==>
                  && row.value.start == starts[|starts| - 1]
                  && row.value.expiresAt == row.value.start + FIXED_WINDOW_MS
                  && 1 <= row.value.count <= FIXED_LIMIT)
  {
    if times != [] { WindowsNeverOverlap(times[..|times| - 1]); }
  }

  predicate AllBefore(s: seq<int>, hi: int) {
    forall i :: 0 <= i < |s| ==> s[i] < hi
  }

  /** The row's count is the number of admissions since its window opened, and none came after it ends. */
  predicate RowTells(row: Option<Window>, log: seq<int>, last: int) {
    row.Some? ==>
      && CountIn(log, row.value.start, row.value.expiresAt) == row.value.count
      && row.value.start <= last
      && AllBefore(log, row.value.expiresAt)
  }

  lemma RowTellsNext(row: Option<Window>, log: seq<int>, last: int, now: int)
    requires row.Some? && RowTells(row, log, last) && last <= now
    requires row.value.expiresAt == row.value.start + FIXED_WINDOW_MS && row.value.count <= FIXED_LIMIT
    ensures var next := Upsert(row, now);
            if next.Some? then RowTells(next, log + [now], now) else RowTells(row, log, now)
  {
    var next := Upsert(row, now);
    if next.Some? {
      CountSnoc(log, now, next.value.start, next.value.expiresAt);
      if row.value.expiresAt <= now { NoneInLater(log, now, now + FIXED_WINDOW_MS); }
    }
  }

  lemma {:induction false} CountIsAdmissions(times: seq<int>)
    requires NonDecreasing(times) && times != []
    ensures RowAfter(times).Some? && RowTells(RowAfter(times), Admitted(times), times[|times| - 1])
  {
    var front, now := times[..|times| - 1], times[|times| - 1];
    if front == [] {
      CountSnoc([], now, now, now + FIXED_WINDOW_MS);
      assert [] + [now] == [now];
    } else {
      CountIsAdmissions(front);
      WindowsNeverOverlap(front);
      RowTellsNext(RowAfter(front), Admitted(front), front[|front| - 1], now);
    }
  }

  lemma {:induction false} NoneInLater(s: seq<int>, lo: int, hi: int)
    requires AllBefore(s, lo)
    ensures CountIn(s, lo, hi) == 0
  {
    if s != [] { NoneInLater(s[..|s| - 1], lo, hi); }
  }

  /** How many admissions from `a` on the current window allows for, given what an earlier one may have left. */
  function Allowance(row: Option<Window>, a: int, length: int): int {
    var carry := if length == FIXED_WINDOW_MS then FIXED_LIMIT - 1 else FIXED_LIMIT;
    if row.None? || row.value.expiresAt <= a then 0
    else if row.value.start < a then row.value.count - 1
    else if row.value.start == a then row.value.count
    else if row.value.start < a + length then carry + row.value.count
    else carry + FIXED_LIMIT
  }

  /** An admission raises the allowance whenever it falls into the interval. */
  lemma AllowanceStep(row: Option<Window>, count: nat, a: int, length: int, now: int)
    requires FIXED_WINDOW_MS <= length <= FIXED_WINDOW_MS + 1 && count <= Allowance(row, a, length)
    requires row.Some? ==>
               && row.value.expiresAt == row.value.start + FIXED_WINDOW_MS && row.value.start <= now
               && 1 <= row.value.count <= FIXED_LIMIT
    requires Upsert(row, now).Some?
    ensures count + (if a <= now < a + length then 1 else 0) <= Allowance(Upsert(row, now), a, length)
  {}

  lemma {:induction false} WithinAllowance(times: seq<int>, a: int, length: int)
    requires NonDecreasing(times) && FIXED_WINDOW_MS <= length <= FIXED_WINDOW_MS + 1
    ensures CountIn(Admitted(times), a, a + length) <= Allowance(RowAfter(times), a, length)
  {
    if times != [] {
      var front, now := times[..|times| - 1], times[|times| - 1];
      WithinAllowance(front, a, length);
      WindowsNeverOverlap(front);
      if front != [] { CountIsAdmissions(front); }
      CountSnoc(Admitted(front), now, a, a + length);
      if Upsert(RowAfter(front), now).Some? {
        AllowanceStep(RowAfter(front), CountIn(Admitted(front), a, a + length), a, length, now);
      }
    }
  }

  /** Any minute holds at most nineteen admissions, and at most twenty with both ends counted. */
  lemma FixedBound(times: seq<int>, a: int)
    requires NonDecreasing(times)
    ensures CountIn(Admitted(times), a, a + 60_000) <= 19
    ensures CountIn(Admitted(times), a, a + 60_001) <= 20
  {
    WindowsNeverOverlap(times);
    WithinAllowance(times, a, FIXED_WINDOW_MS);
    WithinAllowance(times, a, FIXED_WINDOW_MS + 1);
  }

  function Burst(t: int, k: nat): seq<int> {
    if k == 0 then [] else Burst(t, k - 1) + [t]
  }

  lemma AdmittedSnoc(times: seq<int>, t: int)
    ensures var next := Upsert(RowAfter(times), t);
            && RowAfter(times + [t]) == (if next.Some? then next else RowAfter(times))
            && Admitted(times + [t]) == Admitted(times) + if next.Some? then [t] else []
  {
    assert (times + [t])[..|times|] == times;
  }

  /** An open window admits a burst up to ten in all. */
  lemma {:induction false} BurstFits(times: seq<int>, w: Window, log: seq<int>, t: int, k: nat)
    requires RowAfter(times) == Some(w) && Admitted(times) == log
    requires t < w.expiresAt && w.count + k <= FIXED_LIMIT
    ensures RowAfter(times + Burst(t, k)) == Some(w.(count := w.count + k))
    ensures Admitted(times + Burst(t, k)) == log + Burst(t, k)
    decreases k
  {
    if k == 0 {
      assert times + [] == times && log + [] == log;
    } else {
      AdmittedSnoc(times, t);
      BurstFits(times + [t], w.(count := w.count + 1), log + [t], t, k - 1);
      BurstHead(t, k);
      assert times + Burst(t, k) == times + [t] + Burst(t, k - 1);
      assert log + Burst(t, k) == log + [t] + Burst(t, k - 1);
    }
  }

  lemma {:induction false} BurstHead(t: int, k: nat)
    requires k > 0
    ensures Burst(t, k) == [t] + Burst(t, k - 1)
  {
    if k > 1 { BurstHead(t, k - 1); }
  }

  lemma {:induction false} CountBurst(s: seq<int>, t: int, k: nat, lo: int, hi: int)
    ensures CountIn(s + Burst(t, k), lo, hi) == CountIn(s, lo, hi) + if lo <= t < hi then k else 0
  {
    if k == 0 {
      assert s + [] == s;
    } else {
      CountBurst(s, t, k - 1, lo, hi);
      CountSnoc(s + Burst(t, k - 1), t, lo, hi);
      assert s + Burst(t, k) == s + Burst(t, k - 1) + [t];
    }
  }

  /** Both bounds are reached, by a full window followed at once by the next: nine of the first ten just
      before the end of the first window for a half-open minute, all ten at its start for a closed one. */
  lemma BoundsAreReached(t: int)
    requires t == 0 || t == FIXED_WINDOW_MS - 1
    ensures var times := [0] + Burst(t, 9) + [FIXED_WINDOW_MS] + Burst(FIXED_WINDOW_MS, 9);
            && (t > 0 ==> CountIn(Admitted(times), t, t + 60_000) == 19)
            && (t == 0 ==> CountIn(Admitted(times), t, t + 60_001) == 20)
  {
    var k, w := 9, FIXED_WINDOW_MS;
    AllAdmitted(t, k);
    var hi := if t == 0 then w + 1 else t + w;
    CountSnoc([], 0, t, hi);
    assert [] + [0] == [0];
    CountBurst([0], t, k, t, hi);
    var first := [0] + Burst(t, k);
    CountSnoc(first, w, t, hi);
    CountBurst(first + [w], w, k, t, hi);
  }

  lemma AllAdmitted(t: int, k: nat)
    requires 0 <= t < FIXED_WINDOW_MS && k == 9
    ensures var times := [0] + Burst(t, k) + [FIXED_WINDOW_MS] + Burst(FIXED_WINDOW_MS, k); Admitted(times) == times
  {
    var w := FIXED_WINDOW_MS;
    AdmittedSnoc([], 0);
    assert [] + [0] == [0];
    BurstFits([0], Window(0, 1, w), [0], t, k);
    var first := [0] + Burst(t, k);
    AdmittedSnoc(first, w);
    BurstFits(first + [w], Window(w, 1, w + w), first + [w], w, k);
  }

  // ----- both fixed limiters at work -----

  predicate Timely(r: Request) {
    0 <= r.now <= MAX_SAFE_INTEGER
  }

  /** The requests that do not throw. */
  function OnlyTimely(requests: seq<Request>): seq<Request> {
    if requests == [] then []
    else
      var front, r := OnlyTimely(requests[..|requests| - 1]), requests[|requests| - 1];
      if Timely(r) then front + [r] else front
  }

  predicate Passes(rows: map<string, Window>, r: Request) {
    Timely(r) && Upsert(RowOf(rows, r.key), r.now).Some?
  }

  function FixedAnswers(requests: seq<Request>): (ok: seq<bool>)
    ensures |ok| == |requests|
  {
    if requests == [] then []
    else
      var front, r := requests[..|requests| - 1], requests[|requests| - 1];
      FixedAnswers(front) + [Passes(RowsAfter(OnlyTimely(front)), r)]
  }

  lemma {:induction false} FixedGrants(requests: seq<Request>, key: string)
    ensures Granted(requests, FixedAnswers(requests), key) == Admitted(TimesOf(OnlyTimely(requests), key))
  {
    if requests != [] {
      var front, r := requests[..|requests| - 1], requests[|requests| - 1];
      FixedGrants(front, key);
      assert FixedAnswers(requests)[..|front|] == FixedAnswers(front);
      var timely := OnlyTimely(front);
      if Timely(r) {
        assert (timely + [r])[..|timely|] == timely;
        RowsAreIndependent(timely, key);
        AdmittedSnoc(TimesOf(timely, key), r.now);
      }
    }
  }

  lemma FixedStep(requests: seq<Request>, r: Request)
    ensures FixedAnswers(requests + [r]) == FixedAnswers(requests) + [Passes(RowsAfter(OnlyTimely(requests)), r)]
    ensures OnlyTimely(requests + [r]) == if Timely(r) then OnlyTimely(requests) + [r] else OnlyTimely(requests)
  {
    assert (requests + [r])[..|requests|] == requests;
  }

  lemma TablesStep(timely: seq<Request>, r: Request)
    ensures var rows, next := RowsAfter(timely), Upsert(RowOf(RowsAfter(timely), r.key), r.now);
            RowsAfter(timely + [r]) == if next.Some? then rows[r.key := next.value] else rows
    ensures var entries, next := EntriesAfter(timely), Counted(EntryOf(EntriesAfter(timely), r.key), r.now);
            EntriesAfter(timely + [r]) == if next.Some? then entries[r.key := next.value] else entries
  {
    assert (timely + [r])[..|timely|] == timely;
  }

  lemma DatabaseStep(requests: seq<Request>, i: nat)
    requires i < |requests|
    ensures var rows, r := RowsAfter(OnlyTimely(requests[..i])), requests[i];
            && FixedAnswers(requests[..i + 1]) == FixedAnswers(requests[..i]) + [Passes(rows, r)]
            && RowsAfter(OnlyTimely(requests[..i + 1]))
            == if Passes(rows, r) then rows[r.key := Upsert(RowOf(rows, r.key), r.now).value] else rows
  {
    assert requests[..i + 1] == requests[..i] + [requests[i]];
    FixedStep(requests[..i], requests[i]);
    TablesStep(OnlyTimely(requests[..i]), requests[i]);
  }

  lemma StandInStep(requests: seq<Request>, i: nat)
    requires i < |requests|
    ensures var entries, r := EntriesAfter(OnlyTimely(requests[..i])), requests[i];
            var next := if Timely(r) then Counted(EntryOf(entries, r.key), r.now) else None;
            && FixedAnswers(requests[..i + 1]) == FixedAnswers(requests[..i]) + [next.Some?]
            && EntriesAfter(OnlyTimely(requests[..i + 1])) == if next.Some? then entries[r.key := next.value]
               else entries
  {
    assert requests[..i + 1] == requests[..i] + [requests[i]];
    FixedStep(requests[..i], requests[i]);
    TablesStep(OnlyTimely(requests[..i]), requests[i]);
    LimitersAgree(OnlyTimely(requests[..i]), requests[i]);
  }

  /** A new database, one request after another; a thrown error lets nobody in. */
  method ServeDatabase(requests: seq<Request>) returns (ok: seq<bool>)
    ensures ok == FixedAnswers(requests)
  {
    var database := new SqlRateLimits();
    ok := [];
    for i := 0 to |requests|
      invariant fresh(database)
      invariant ok == FixedAnswers(requests[..i])
      invariant database.rows == RowsAfter(OnlyTimely(requests[..i]))
    {
      var r := requests[i];
      DatabaseStep(requests, i);
      var answer := database.AllowSessionExchange(r.key, r.now);
      ok := ok + [answer == Some(true)];
    }
    assert requests[..|requests|] == requests;
  }

  /** The same with the stand-in behind the timestamp check. */
  method ServeStandIn(requests: seq<Request>) returns (ok: seq<bool>)
    ensures ok == FixedAnswers(requests)
  {
    var memory := new MemoryRateLimits();
    ok := [];
    for i := 0 to |requests|
      invariant fresh(memory)
      invariant ok == FixedAnswers(requests[..i])
      invariant memory.entries == EntriesAfter(OnlyTimely(requests[..i]))
    {
      var r := requests[i];
      StandInStep(requests, i);
      var count: Option<nat> := None;
      if Timely(r) { count := memory.Allow(r.key, r.now); }
      ok := ok + [count.Some?];
    }
    assert requests[..|requests|] == requests;
  }

  /** Database and stand-in answer every request alike; each key is let in as its own timely
      requests alone decide, with time not going back at most nineteen times in any minute. */
  method ServeBoth(requests: seq<Request>) returns (ok: seq<bool>, standIn: seq<bool>)
    ensures |ok| == |requests| && standIn == ok
    ensures forall key :: Granted(requests, ok, key) == Admitted(TimesOf(OnlyTimely(requests), key))
    ensures forall key :: NonDecreasing(TimesOf(OnlyTimely(requests), key)) ==>
                            NeverMoreThan(Granted(requests, ok, key), 60_000, 19)
  {
    ok := ServeDatabase(requests);
    standIn := ServeStandIn(requests);
    forall key
      ensures Granted(requests, ok, key) == Admitted(TimesOf(OnlyTimely(requests), key))
    {
      FixedGrants(requests, key);
    }
    forall key | NonDecreasing(TimesOf(OnlyTimely(requests), key))
      ensures NeverMoreThan(Granted(requests, ok, key), 60_000, 19)
    {
      FixedNeverMore(TimesOf(OnlyTimely(requests), key));
    }
  }

  lemma FixedNeverMore(times: seq<int>)
    requires NonDecreasing(times)
    ensures NeverMoreThan(Admitted(times), FIXED_WINDOW_MS, 19)
  {
    forall lo, hi | hi - lo == FIXED_WINDOW_MS
      ensures CountIn(Admitted(times), lo, hi) <= 19
    {
      FixedBound(times, lo);
    }
  }
}
