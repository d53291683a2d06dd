/**
 `features/activity/use-recent-fills.ts`: each poll brings only the latest
 fills of each market, and the feed merges, sorts and cuts to 100. The feed is
 shown to equal the offline answer over everything ever read.
 */
module RecentFills {
  const FEED_SIZE := 100

  datatype Fill = Fill(
    market: string, sequence: nat, time: int, price: int, size: nat, makerSeat: nat, takerSeat: nat)

  /** The sort order: newest first, the higher sequence first at equal times. */
  predicate Before(x: Fill, y: Fill) {
    x.time > y.time || (x.time == y.time && x.sequence > y.sequence)
  }

  predicate Sorted(s: seq<Fill>) {
    forall i, j :: 0 <= i < j < |s| ==> Before(s[i], s[j])
  }

  function Elements(s: seq<Fill>): set<Fill> {
    set f | f in s
  }

  predicate Distinct(s: seq<Fill>) {
    forall i, j :: 0 <= i < j < |s| ==> s[i] != s[j]
  }

  /** A fill's record never changes, and no two fills share time and sequence. */
  predicate Consistent(fills: set<Fill>) {
    && (forall x, y :: x in fills && y in fills && x.market == y.market && x.sequence == y.sequence ==> x == y)
    && (forall x, y :: x in fills && y in fills && x.time == y.time && x.sequence == y.sequence ==> x == y)
  }

  // ----- the code -----

  function Insert(f: Fill, s: seq<Fill>): (r: seq<Fill>)
    ensures multiset(r) == multiset{f} + multiset(s)
  {
    if s == [] || Before(f, s[0]) then [f] + s
    else
      assert s == [s[0]] + s[1..];
      [s[0]] + Insert(f, s[1..])
  }

  function Sort(s: seq<Fill>): (r: seq<Fill>)
    ensures multiset(r) == multiset(s)
  {
    if s == [] then []
    else
      assert s == [s[0]] + s[1..];
      Insert(s[0], Sort(s[1..]))
  }

  /** The fills of `previous` whose key was not just read again. */
  function Unseen(previous: seq<Fill>, seen: set<(string, nat)>): seq<Fill> {
    if previous == [] then []
    else
      (if (previous[0].market, previous[0].sequence) !in seen then [previous[0]] else [])
      + Unseen(previous[1..], seen)
  }

  function Keys(fills: seq<Fill>): set<(string, nat)> {
    set f | f in fills :: (f.market, f.sequence)
  }

  function Merge(previous: seq<Fill>, fills: seq<Fill>): seq<Fill> {
    var merged := Sort(fills + Unseen(previous, Keys(fills)));
    if |merged| <= FEED_SIZE then merged else merged[..FEED_SIZE]
  }

  datatype Status = Loading | Live | Unavailable

  /** One poll: an unusable response, or the fills decoded from it. */
  datatype Poll = Failed | Read(fills: seq<Fill>)

  datatype State = State(fills: seq<Fill>, status: Status)

  function Step(s: State, poll: Poll): State {
    match poll
    case Failed => s.(status := Unavailable)
    case Read(fills) => State(Merge(s.fills, fills), Live)
  }

  function Feed(polls: seq<Poll>): State {
    if polls == [] then State([], Loading) else Step(Feed(polls[..|polls| - 1]), polls[|polls| - 1])
  }

  // ----- the offline answer -----

  /** Everything any poll has read. */
  function EverRead(polls: seq<Poll>): set<Fill> {
    if polls == [] then {}
    else
      EverRead(polls[..|polls| - 1])
      + match polls[|polls| - 1] case Failed => {} case Read(fills) => Elements(fills)
  }

  /** `s` lists the newest hundred of `all`, each once and in order. */
  predicate IsNewest(s: seq<Fill>, all: set<Fill>) {
    && Sorted(s)
    && Elements(s) <= all
    && |s| == (if |all| <= 100 then |all| else 100)
    && forall x, y :: x in s && y in all && y !in s ==> Before(x, y)
  }

  predicate PollsDistinct(polls: seq<Poll>) {
    forall i :: 0 <= i < |polls| ==> polls[i].Read? ==> Distinct(polls[i].fills)
  }

  // ----- sorting -----

  lemma {:induction false} InsertSorted(f: Fill, s: seq<Fill>)
    requires Sorted(s) && forall x :: x in s ==> Before(f, x) || Before(x, f)
    ensures Sorted(Insert(f, s))
  {
    if s != [] && !Before(f, s[0]) {
      InsertSorted(f, s[1..]);
      var rest := Insert(f, s[1..]);
      forall i | 0 <= i < |rest|
        ensures Before(s[0], rest[i])
      {
        assert rest[i] in multiset(rest);
        assert rest[i] == f || rest[i] in s[1..];
      }
    }
  }

  lemma {:induction false} SortSorts(s: seq<Fill>)
    requires Distinct(s) && Consistent(Elements(s))
    ensures Sorted(Sort(s)) && Elements(Sort(s)) == Elements(s)
  {
    SameElements(Sort(s), s);
    if s != [] {
      var tail := s[1..];
      assert Elements(tail) <= Elements(s);
      SortSorts(tail);
      forall x | x in Sort(tail)
        ensures Before(s[0], x) || Before(x, s[0])
      {
        assert x in Elements(Sort(tail));
        HeadIsComparable(s, x);
      }
      InsertSorted(s[0], Sort(tail));
    }
  }

  lemma HeadIsComparable(s: seq<Fill>, x: Fill)
    requires s != [] && Distinct(s) && Consistent(Elements(s)) && x in Elements(s[1..])
    ensures Before(s[0], x) || Before(x, s[0])
  {
    assert x in Elements(s) && s[0] in Elements(s) && x != s[0];
  }

  lemma SameElements(a: seq<Fill>, b: seq<Fill>)
    requires multiset(a) == multiset(b)
    ensures Elements(a) == Elements(b) && |a| == |b|
  {
    assert forall x :: x in a <==> x in multiset(a);
    assert forall x :: x in b <==> x in multiset(b);
    assert |multiset(a)| == |a| && |multiset(b)| == |b|;
  }

  lemma {:induction false} DistinctCount(s: seq<Fill>)
    requires Distinct(s)
    ensures |Elements(s)| == |s|
  {
    if s != [] {
      DistinctCount(s[1..]);
      assert Elements(s) == Elements(s[1..]) + {s[0]};
    }
  }

  lemma SubsetCount(a: set<Fill>, b: set<Fill>)
    requires a <= b
    ensures |a| <= |b|
    ensures |a| == |b| ==> a == b
  {
    assert b == a + (b - a);
    assert |b| == |a| + |b - a|;
  }

  // ----- one merge -----

  lemma {:induction false} UnseenElements(previous: seq<Fill>, seen: set<(string, nat)>)
    ensures forall f :: f in Unseen(previous, seen) <==> f in previous && (f.market, f.sequence) !in seen
  {
    if previous != [] {
      UnseenElements(previous[1..], seen);
      assert previous == [previous[0]] + previous[1..];
    }
  }

  lemma {:induction false} UnseenDistinct(previous: seq<Fill>, seen: set<(string, nat)>)
    requires Distinct(previous)
    ensures Distinct(Unseen(previous, seen))
  {
    if previous != [] {
      UnseenDistinct(previous[1..], seen);
      UnseenElements(previous[1..], seen);
    }
  }

  lemma MergedList(previous: seq<Fill>, fills: seq<Fill>)
    requires Distinct(previous) && Distinct(fills) && Consistent(Elements(previous) + Elements(fills))
    ensures var m := fills + Unseen(previous, Keys(fills));
            Distinct(m) && Elements(m) == Elements(previous) + Elements(fills)
  {
    var u := Unseen(previous, Keys(fills));
    UnseenElements(previous, Keys(fills));
    UnseenDistinct(previous, Keys(fills));
    forall f | f in fills
      ensures (f.market, f.sequence) in Keys(fills)
    {}
    forall f | f in previous && f !in u
      ensures f in fills
    {
      var g :| g in fills && (g.market, g.sequence) == (f.market, f.sequence);
      assert f in Elements(previous) && g in Elements(fills);
    }
  }

  lemma SortedIsDistinct(s: seq<Fill>)
    requires Sorted(s)
    ensures Distinct(s)
  {}

  /** A fill that all of a full `previous` precede follows everything in the first hundred of `m`. */
  lemma DroppedStaysBehind(m: seq<Fill>, previous: seq<Fill>, y: Fill, k: nat)
    requires Sorted(m) && Sorted(previous) && |previous| == FEED_SIZE && Elements(previous) <= Elements(m)
    requires forall x :: x in previous ==> Before(x, y)
    requires k < FEED_SIZE && k < |m| && (Before(m[k], y) || Before(y, m[k]))
    ensures Before(m[k], y)
  {
    if Before(y, m[k]) {
      assert forall x :: x in previous ==> Before(x, m[k]);
      forall x | x in previous
        ensures x in m[..k]
      {
        assert x in Elements(previous);
        assert x in Elements(m);
        var i :| 0 <= i < |m| && m[i] == x;
        assert Before(m[i], m[k]);
        assert i < k;
      }
      SortedIsDistinct(previous);
      DistinctCount(previous);
      SortedIsDistinct(m[..k]);
      DistinctCount(m[..k]);
      SubsetCount(Elements(previous), Elements(m[..k]));
      assert false;
    }
  }

  /** What the merge sorts: everything read now or shown before, each once. */
  lemma MergedIsSorted(previous: seq<Fill>, fills: seq<Fill>) returns (m: seq<Fill>)
    requires Sorted(previous) && Distinct(fills) && Consistent(Elements(previous) + Elements(fills))
    ensures Sorted(m) && Elements(m) == Elements(previous) + Elements(fills)
    ensures |m| == |Elements(m)|
    ensures Merge(previous, fills) == if |m| <= FEED_SIZE then m else m[..FEED_SIZE]
  {
    SortedIsDistinct(previous);
    MergedList(previous, fills);
    var list := fills + Unseen(previous, Keys(fills));
    SortSorts(list);
    m := Sort(list);
    SortedIsDistinct(m);
    DistinctCount(m);
  }

  lemma MergeSize(previous: seq<Fill>, all: set<Fill>, fills: seq<Fill>)
    requires IsNewest(previous, all)
    ensures var m, all' := |Elements(previous) + Elements(fills)|, |all + Elements(fills)|;
            (if m <= FEED_SIZE then m else FEED_SIZE) == (if all' <= FEED_SIZE then all' else FEED_SIZE)
    ensures |all| <= FEED_SIZE ==> Elements(previous) == all
  {
    SortedIsDistinct(previous);
    DistinctCount(previous);
    SubsetCount(Elements(previous), all);
    SubsetCount(Elements(previous), Elements(previous) + Elements(fills));
    SubsetCount(Elements(previous) + Elements(fills), all + Elements(fills));
  }

  /** Whatever is not among the first hundred of the merged list comes after each of them. */
  lemma RestComesAfter(m: seq<Fill>, previous: seq<Fill>, all: set<Fill>, fills: seq<Fill>, y: Fill, k: nat)
    requires IsNewest(previous, all) && Consistent(all + Elements(fills))
    requires Sorted(m) && Elements(m) == Elements(previous) + Elements(fills)
    requires |all| <= FEED_SIZE ==> Elements(previous) == all
    requires k < |m| && k < FEED_SIZE && y in all + Elements(fills)
    requires y !in (if |m| <= FEED_SIZE then m else m[..FEED_SIZE])
    ensures Before(m[k], y)
  {
    if y in m {
      var i :| 0 <= i < |m| && m[i] == y;
    } else {
      assert y !in Elements(m) && m[k] in Elements(m);
      DroppedStaysBehind(m, previous, y, k);
    }
  }

  lemma MergeKeepsNewest(previous: seq<Fill>, all: set<Fill>, fills: seq<Fill>)
    requires IsNewest(previous, all) && Distinct(fills) && Consistent(all + Elements(fills))
    ensures IsNewest(Merge(previous, fills), all + Elements(fills))
  {
    var m := MergedIsSorted(previous, fills);
    MergeSize(previous, all, fills);
    var next, all' := Merge(previous, fills), all + Elements(fills);
    forall x | x in next
      ensures x in Elements(m)
    {}
    forall x, y | x in next && y in all' && y !in next
      ensures Before(x, y)
    {
      var k :| 0 <= k < |next| && next[k] == x;
      RestComesAfter(m, previous, all, fills, y, k);
    }
  }

  // ----- every run -----

  /** After any number of polls, failed ones included, the feed is the newest hundred of all
      fills ever read, each once and in order. */
  lemma {:induction false} FeedIsNewest(polls: seq<Poll>)
    requires Consistent(EverRead(polls)) && PollsDistinct(polls)
    ensures IsNewest(Feed(polls).fills, EverRead(polls))
  {
    if polls != [] {
      var front, last := polls[..|polls| - 1], polls[|polls| - 1];
      assert EverRead(front) <= EverRead(polls);
      FeedIsNewest(front);
      if last.Read? {
        MergeKeepsNewest(Feed(front).fills, EverRead(front), last.fills);
      }
    }
  }

  /** "The newest hundred" is one list, so the feed does not depend on how the fills were spread over polls. */
  lemma NewestIsUnique(a: seq<Fill>, b: seq<Fill>, all: set<Fill>)
    requires IsNewest(a, all) && IsNewest(b, all) && Consistent(all)
    ensures a == b
  {
    SortedIsDistinct(a);
    SortedIsDistinct(b);
    DistinctCount(a);
    DistinctCount(b);
    if Elements(b) <= Elements(a) {
      SubsetCount(Elements(b), Elements(a));
    } else {
      var y :| y in Elements(b) && y !in Elements(a);
      forall x | x in a
        ensures x in b
      {
        assert Before(x, y);
      }
      SubsetCount(Elements(a), Elements(b));
    }
    SortedUnique(a, b);
  }

  lemma {:induction false} SortedUnique(a: seq<Fill>, b: seq<Fill>)
    requires Sorted(a) && Sorted(b) && Elements(a) == Elements(b)
    ensures a == b
  {
    if a == [] {
      SortedIsDistinct(b);
      DistinctCount(b);
    } else {
      assert a[0] in Elements(b) && b != [];
      assert b[0] in Elements(a);
      assert a[0] == b[0];
      assert Elements(a[1..]) == Elements(a) - {a[0]};
      assert Elements(b[1..]) == Elements(b) - {b[0]};
      SortedUnique(a[1..], b[1..]);
    }
  }
}
