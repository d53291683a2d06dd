/**
 `match_limit_arenas` of `programs/equinox/src/book.rs`: a taker matched in place
 against the heads of the opposing arena's two trees, which are cleared of dead
 orders on the way. It is proved to take from the one queue of `Matching`.
 */
module MatchEngine {
  import opened Wrappers
  import opened OrderKeys
  import opened Patricia
  import opened ArenaLayout
  import opened ArenaQuantity
  import opened ArenaScan
  import opened BookArena
  import opened Matching
  import opened MakersMet
  import opened HeadClearing

  const MAX_MATCH_FILLS := 4

  datatype Limits = Limits(maxFills: nat, maxInvalid: nat, maxExpired: nat)

  datatype OrderInput = OrderInput(
    side: Side, tree: Bit, owner: nat, priceOrOffset: i64, sequence: u64, quantity: u64, expiresAt: u64, pegLimit: i64,
    clientOrderId: u64, immediate: bool, postOnly: bool, selfTrade: SelfTrade)

  datatype MatchResult = MatchResult(
    fills: seq<Fill>, remaining: u64, invalidRemoved: nat, expiredRemoved: nat, selfCancelled: nat,
        postOnlyRejected: bool)

  function Opposite(side: Side): Side {
    if side.Bid? then Ask else Bid
  }

  /** A pegged taker's price is the oracle's plus its offset, if there is an oracle and no overflow. */
  function TakerPrice(order: OrderInput, oracle: Option<i64>): Option<i64> {
    if order.tree == 0 then Some(order.priceOrOffset)
    else if oracle.None? then None
    else
      var price := oracle.value + order.priceOrOffset;
      if I64_MIN <= price <= I64_MAX then Some(price) else None
  }

  /** A fixed order's price is its own; a pegged one's is the oracle plus its offset, if that is a 64-bit number. */
  lemma TakerPriceIff(order: OrderInput, oracle: Option<i64>, price: i64)
    ensures TakerPrice(order, oracle) == Some(price) <==>
            if order.tree == 0 then price == order.priceOrOffset
            else oracle.Some? && price == oracle.value + order.priceOrOffset
  {}

  predicate BooksFiled(books: Two<seq<Entry>>, side: Side) {
    AllFiled(books.fixed, 0, side) && AllFiled(books.pegged, 1, side)
  }

  /** There is room to clear every dead order. */
  predicate ClearingFits(books: Two<seq<Entry>>, terms: Terms, limits: Limits) {
    && CountExpired(books.fixed, terms.now) + CountExpired(books.pegged, terms.now) <= limits.maxExpired
    && CountStale(books.fixed, 0, terms) + CountStale(books.pegged, 1, terms) <= limits.maxInvalid
  }

  method Head(arena: Arena, tree: Bit) returns (e: Option<Entry>)
    requires arena.Valid()
    ensures e == if arena.Book(tree) == [] then None else Some(arena.Book(tree)[0])
  {
    var handle := arena.Best(tree);
    if handle.None? {
      return None;
    }
    EntryIsLeaf(arena.Value(), arena.trees, arena.free, tree, arena.Book(tree)[0]);
    return Some(Entry(handle.value, arena.nodes[handle.value].order));
  }

  method RemoveHead(arena: Arena, tree: Bit, key: Key)
    requires arena.Valid() && arena.Book(tree) != [] && arena.Book(tree)[0].order.key == key
    modifies arena, arena.nodes
    ensures arena.Valid() && arena.Books() == old(arena.Books()).With(tree, old(arena.Book(tree))[1..])
  {
    EntryIsLeaf(arena.Value(), arena.trees, arena.free, tree, arena.Book(tree)[0]);
    var removed := arena.Remove(tree, key);
  }

  /** Removes the next dead head, if removing is still allowed. */
  method ClearInvalid(arena: Arena, terms: Terms, allowed: bool) returns (cleared: Option<Bit>)
    requires arena.Valid()
    modifies arena, arena.nodes
    ensures arena.Valid() && cleared == if allowed then NextDead(old(arena.Books()), terms) else None
    ensures arena.Books()
         == if cleared.Some? then Beheaded(old(arena.Books()), cleared.value) else old(arena.Books())
  {
    var fixed := Head(arena, 0);
    if allowed && fixed.Some? && Dead(0, fixed.value.order, terms) {
      RemoveHead(arena, 0, fixed.value.order.key);
      return Some(0);
    }
    var pegged := Head(arena, 1);
    if allowed && pegged.Some? && Dead(1, pegged.value.order, terms) {
      RemoveHead(arena, 1, pegged.value.order.key);
      return Some(1);
    }
    return None;
  }

  lemma QuoteIsPositive(tree: Bit, e: Entry, terms: Terms)
    requires Filed(tree, e.order, terms.side)
    ensures var q := QuoteOf(tree, e, terms); q.Some? ==> q.value.price > 0
  {}

  /** The better of two quotes by the key of price and sequence, the first among equals. */
  method Pick(a: Option<Quote>, b: Option<Quote>, side: Side) returns (q: Option<Quote>)
    requires (a.Some? ==> a.value.price > 0) && (b.Some? ==> b.value.price > 0)
    ensures q == if a.None? || (b.Some? && Ahead(side, b.value, a.value)) then b else a
  {
    if a.None? || b.None? {
      return if a.None? then b else a;
    }
    PriceTimePriority(side, b.value.price, b.value.order.sequence, a.value.price, a.value.order.sequence);
    var keyA := PriceTimeKey(side, a.value.price, a.value.order.sequence);
    var keyB := PriceTimeKey(side, b.value.price, b.value.order.sequence);
    return if Less(keyB.value, keyA.value) then b else a;
  }

  method BestCandidate(arena: Arena, terms: Terms) returns (q: Option<Quote>)
    requires arena.Valid() && BooksFiled(arena.Books(), terms.side)
    ensures q == Candidate(arena.Books(), terms)
  {
    var fixed := Head(arena, 0);
    var pegged := Head(arena, 1);
    if fixed.Some? { QuoteIsPositive(0, fixed.value, terms); }
    if pegged.Some? { QuoteIsPositive(1, pegged.value, terms); }
    q := Pick(if fixed.Some? then QuoteOf(0, fixed.value, terms) else None,
              if pegged.Some? then QuoteOf(1, pegged.value, terms) else None, terms.side);
  }

  lemma {:induction false} OtherSlotsKept(es: seq<Entry>, slot: nat, quantity: u64)
    requires forall e :: e in es ==> e.slot != slot
    ensures WithQuantity(es, slot, quantity) == es
  {
    if es != [] { OtherSlotsKept(es[1..], slot, quantity); }
  }

  method ReduceHead(arena: Arena, tree: Bit, head: Entry, quantity: u64)
    requires arena.Valid() && arena.Book(tree) != [] && arena.Book(tree)[0] == head
    modifies arena, arena.nodes
    ensures arena.Valid()
    ensures arena.Books()
         == old(arena.Books()).With(tree, [Entry(head.slot, head.order.(quantity := quantity))]
                                    + old(arena.Book(tree))[1..])
  {
    ghost var es := arena.Book(tree);
    SlotsAreDistinct(arena.Value(), arena.trees, arena.free, tree);
    AscendingTail(es);
    assert forall e :: e in es[1..] ==> e in es;
    OtherSlotsKept(es[1..], head.slot, quantity);
    arena.SetQuantity(tree, head.slot, quantity, head);
  }

  lemma FiledWith(books: Two<seq<Entry>>, side: Side, tree: Bit, es: seq<Entry>)
    requires BooksFiled(books, side) && AllFiled(es, tree, side)
    ensures BooksFiled(books.With(tree, es), side)
  {}

  lemma FiledTail(books: Two<seq<Entry>>, side: Side, tree: Bit)
    requires BooksFiled(books, side) && books.At(tree) != []
    ensures BooksFiled(books.With(tree, books.At(tree)[1..]), side)
  {
    var es := books.At(tree);
    assert forall i :: 0 <= i < |es| - 1 ==> es[1..][i] == es[i + 1];
    FiledWith(books, side, tree, es[1..]);
  }

  lemma FiledReduced(books: Two<seq<Entry>>, side: Side, tree: Bit, quantity: u64)
    requires BooksFiled(books, side) && books.At(tree) != []
    ensures var es := books.At(tree);
            BooksFiled(books.With(tree, [Entry(es[0].slot, es[0].order.(quantity := quantity))] + es[1..]), side)
  {
    var es := books.At(tree);
    assert Filed(tree, es[0].order, side);
    assert forall i :: 0 <= i < |es| - 1 ==> es[1..][i] == es[i + 1];
    FiledWith(books, side, tree, [Entry(es[0].slot, es[0].order.(quantity := quantity))] + es[1..]);
  }

  /** What is left of a list when `amount` is taken from its head. */
  function AfterTake(es: seq<Entry>, q: Quote, amount: u64): seq<Entry>
    requires es != [] && amount <= q.order.quantity
  {
    (if amount == q.order.quantity then [] else [Entry(q.slot, q.order.(quantity := q.order.quantity - amount))])
        + es[1..]
  }

  lemma FiledTaken(books: Two<seq<Entry>>, side: Side, q: Quote, amount: u64)
    requires BooksFiled(books, side) && books.At(q.tree) != [] && books.At(q.tree)[0] == Entry(q.slot, q.order)
    requires amount <= q.order.quantity
    ensures BooksFiled(books.With(q.tree, AfterTake(books.At(q.tree), q, amount)), side)
    ensures amount == q.order.quantity ==> AfterTake(books.At(q.tree), q, amount) == books.At(q.tree)[1..]
  {
    FiledTail(books, side, q.tree);
    FiledReduced(books, side, q.tree, q.order.quantity - amount);
    assert [] + books.At(q.tree)[1..] == books.At(q.tree)[1..];
  }

  /** Takes `amount` from the head of a tree. */
  method TakeHead(arena: Arena, q: Quote, amount: u64, ghost terms: Terms)
    requires arena.Valid() && BooksFiled(arena.Books(), terms.side) && amount <= q.order.quantity
    requires arena.Book(q.tree) != [] && arena.Book(q.tree)[0] == Entry(q.slot, q.order)
    modifies arena, arena.nodes
    ensures arena.Valid() && BooksFiled(arena.Books(), terms.side)
    ensures arena.Books() == old(arena.Books()).With(q.tree, AfterTake(old(arena.Book(q.tree)), q, amount))
  {
    FiledTaken(arena.Books(), terms.side, q, amount);
    if amount == q.order.quantity {
      RemoveHead(arena, q.tree, q.order.key);
    } else {
      ReduceHead(arena, q.tree, Entry(q.slot, q.order), q.order.quantity - amount);
    }
  }

  function Bound(limits: Limits): nat {
    limits.maxFills + limits.maxInvalid + limits.maxExpired + 2
  }

  /** What is taken from a maker: an own order is cancelled whole. */
  function AmountOf(taker: Taker, r: MatchResult, q: Quote): u64 {
    if q.order.owner == taker.owner then q.order.quantity else Amount(q.order, r.remaining)
  }

  /** The counters after a maker is met. */
  function AfterMaker(r: MatchResult, q: Quote, amount: u64, own: bool): MatchResult
    requires amount <= q.order.quantity && (!own ==> amount <= r.remaining)
  {
    if own then r.(selfCancelled := r.selfCancelled + 1)
    else r.(fills := r.fills + [FillOf(q, amount)], remaining := r.remaining - amount)
  }

  /** The better head as the front of what is reached: taken whole it leaves the rest, and taken in part it stays in
      front with less on it. */
  lemma ReachAfterTake(books: Two<seq<Entry>>, terms: Terms, budget: nat, q: Quote, amount: u64)
    requires Candidate(books, terms) == Some(q) && (budget > 0 ==> NextDead(books, terms).None?)
    requires 0 < amount <= q.order.quantity
    ensures var rest := Reach(Beheaded(books, q.tree), terms, budget);
            && Reach(books, terms, budget) == [q] + rest
            && Reach(books.With(q.tree, AfterTake(books.At(q.tree), q, amount)), terms, budget)
            == (if amount == q.order.quantity then [] else [Reduced(q, q.order.quantity - amount)]) + rest
  {
    var es := books.At(q.tree);
    var es' := AfterTake(es, q, amount);
    var rest := Reach(Beheaded(books, q.tree), terms, budget);
    if amount == q.order.quantity {
      assert es' == es[1..] && [] + rest == rest;
    } else {
      var books', q' := books.With(q.tree, es'), Reduced(q, q.order.quantity - amount);
      assert es'[1..] == es[1..] && QuoteOf(q.tree, es'[0], terms) == Some(q');
      assert Candidate(books', terms) == Some(q') && Beheaded(books', q.tree) == Beheaded(books, q.tree);
    }
  }

  /** The trading that books and counters amount to, with the makers that are still reached. */
  function NowOf(books: Two<seq<Entry>>, terms: Terms, limits: Limits, r: MatchResult): Trading
    requires r.invalidRemoved <= limits.maxInvalid
  {
    Trading(Reach(books, terms, limits.maxInvalid - r.invalidRemoved), r.remaining, r.fills, r.selfCancelled,
            r.postOnlyRejected, false)
  }

  /** A taker that comes to the makers that the removals allowed let it reach. */
  function Reaching(books: Two<seq<Entry>>, terms: Terms, limits: Limits, quantity: u64): Trading {
    Trading(Reach(books, terms, limits.maxInvalid), quantity, [], 0, false, false)
  }

  /** Nothing is in the way that may be cleared, and there is no maker to meet, or none but to be refused by. */
  predicate Stuck(books: Two<seq<Entry>>, terms: Terms, taker: Taker, budget: nat) {
    && (budget > 0 ==> NextDead(books, terms).None?)
    && var q := Candidate(books, terms); q.None? || !Crosses(taker, q.value.price) || taker.postOnly
  }

  /** Books and counters are where `start` comes to in so many steps; while the taker goes on, what it reaches in all
      is what it has met and what it reaches in the turns that are left. */
  ghost predicate Along(start: Trading, taker: Taker, terms: Terms, limits: Limits, books: Two<seq<Entry>>,
                        r: MatchResult, steps: nat, turns: nat, all: nat) {
    && r.invalidRemoved <= limits.maxInvalid && steps <= all
    && Comes(start, NowOf(books, terms, limits, r), taker, limits.maxFills, steps)
    && (r.remaining > 0 && !r.postOnlyRejected ==>
          all == steps + MakersIn(books, terms, limits.maxInvalid - r.invalidRemoved, turns))
  }

  lemma AlongCleared(start: Trading, taker: Taker, terms: Terms, limits: Limits, books: Two<seq<Entry>>,
                     r: MatchResult, steps: nat, turns: nat, all: nat)
    requires Along(start, taker, terms, limits, books, r, steps, turns, all) && turns > 0
    requires r.invalidRemoved < limits.maxInvalid && NextDead(books, terms).Some?
    ensures Along(start, taker, terms, limits, Beheaded(books, NextDead(books, terms).value),
                  r.(invalidRemoved := r.invalidRemoved + 1), steps, turns - 1, all)
  {}

  predicate MayMeet(taker: Taker, limits: Limits, r: MatchResult, q: Quote) {
    Crosses(taker, q.price) && !r.postOnlyRejected && r.remaining > 0 && |r.fills| < limits.maxFills
        && q.order.quantity > 0
  }

  /** A maker met, on the counters. */
  lemma MeetOnCounters(taker: Taker, r: MatchResult, q: Quote, rest: seq<Quote>)
    requires q.order.quantity > 0 && r.remaining > 0 && !taker.postOnly && taker.selfTrade == CancelProvide
    ensures var amount := AmountOf(taker, r, q);
            var r' := AfterMaker(r, q, amount, q.order.owner == taker.owner);
            Meet(Trading([q] + rest, r.remaining, r.fills, r.selfCancelled, r.postOnlyRejected, false), taker)
            == Trading((if amount == q.order.quantity then [] else [Reduced(q, q.order.quantity - amount)]) + rest,
                       r'.remaining, r'.fills, r'.selfCancelled, r'.postOnlyRejected, false)
  {
    assert ([q] + rest)[1..] == rest && [] + rest == rest;
  }

  /** Meeting a maker on the books is a step of the trading. */
  lemma MeetOnBooks(books: Two<seq<Entry>>, terms: Terms, taker: Taker, limits: Limits, r: MatchResult, q: Quote)
    requires Candidate(books, terms) == Some(q) && r.invalidRemoved <= limits.maxInvalid
    requires limits.maxInvalid > r.invalidRemoved ==> NextDead(books, terms).None?
    requires MayMeet(taker, limits, r, q) && !taker.postOnly && taker.selfTrade == CancelProvide
    ensures var amount := AmountOf(taker, r, q);
            Meet(NowOf(books, terms, limits, r), taker)
            == NowOf(books.With(q.tree, AfterTake(books.At(q.tree), q, amount)), terms, limits,
                     AfterMaker(r, q, amount, q.order.owner == taker.owner))
  {
    var amount, rest := AmountOf(taker, r, q),
        Reach(Beheaded(books, q.tree), terms, limits.maxInvalid - r.invalidRemoved);
    ReachAfterTake(books, terms, limits.maxInvalid - r.invalidRemoved, q, amount);
    MeetOnCounters(taker, r, q, rest);
  }

  lemma AlongMet(start: Trading, taker: Taker, terms: Terms, limits: Limits, books: Two<seq<Entry>>, r: MatchResult,
                 steps: nat, turns: nat, all: nat, q: Quote)
    requires Along(start, taker, terms, limits, books, r, steps, turns, all) && turns > 0
    requires limits.maxInvalid > r.invalidRemoved ==> NextDead(books, terms).None?
    requires Candidate(books, terms) == Some(q)
    requires MayMeet(taker, limits, r, q) && !taker.postOnly && taker.selfTrade == CancelProvide
    ensures var es, amount := books.At(q.tree), AmountOf(taker, r, q);
            Along(start, taker, terms, limits, books.With(q.tree, AfterTake(es, q, amount)),
                  AfterMaker(r, q, amount, q.order.owner == taker.owner), steps + 1, turns - 1, all)
  {
    var amount := AmountOf(taker, r, q);
    MeetOnBooks(books, terms, taker, limits, r, q);
    ComesFurther(start, NowOf(books, terms, limits, r), taker, limits.maxFills, steps);
    if amount == q.order.quantity {
      assert books.With(q.tree, AfterTake(books.At(q.tree), q, amount)) == Beheaded(books, q.tree) by {
        assert [] + books.At(q.tree)[1..] == books.At(q.tree)[1..];
      }
    }
  }

  lemma AlongRejected(start: Trading, taker: Taker, terms: Terms, limits: Limits, books: Two<seq<Entry>>,
                      r: MatchResult, steps: nat, turns: nat, all: nat, q: Quote)
    requires Along(start, taker, terms, limits, books, r, steps, turns, all) && turns > 0
    requires limits.maxInvalid > r.invalidRemoved ==> NextDead(books, terms).None?
    requires Candidate(books, terms) == Some(q)
    requires MayMeet(taker, limits, r, q) && taker.postOnly
    ensures Along(start, taker, terms, limits, books, r.(postOnlyRejected := true), steps + 1, turns, all)
  {
    ReachAfterTake(books, terms, limits.maxInvalid - r.invalidRemoved, q, q.order.quantity);
    ComesFurther(start, NowOf(books, terms, limits, r), taker, limits.maxFills, steps);
  }

  /** Nothing more can happen. */
  predicate Over(books: Two<seq<Entry>>, terms: Terms, taker: Taker, limits: Limits, r: MatchResult)
    requires r.invalidRemoved <= limits.maxInvalid
  {
    || r.postOnlyRejected || r.remaining == 0 || |r.fills| >= limits.maxFills
    || (&& (limits.maxInvalid > r.invalidRemoved ==> NextDead(books, terms).None?)
        && var q := Candidate(books, terms); q.None? || !Crosses(taker, q.value.price))
  }

  lemma AlongEnds(start: Trading, taker: Taker, terms: Terms, limits: Limits, books: Two<seq<Entry>>, r: MatchResult,
                  steps: nat, turns: nat, all: nat)
    requires Along(start, taker, terms, limits, books, r, steps, turns, all)
    requires Over(books, terms, taker, limits, r) || turns == 0
    ensures Trade(start, taker, limits.maxFills, all) == NowOf(books, terms, limits, r)
  {
    ComesToEnd(start, NowOf(books, terms, limits, r), taker, limits.maxFills, steps, all);
  }

  /** What rests in the books: orders and the quantity on them. */
  function Volume(es: seq<Entry>): nat {
    if es == [] then 0 else 1 + es[0].order.quantity + Volume(es[1..])
  }

  function VolumeIn(books: Two<seq<Entry>>): nat {
    Volume(books.fixed) + Volume(books.pegged)
  }

  lemma VolumeTaken(es: seq<Entry>, q: Quote, amount: u64)
    requires es != [] && es[0] == Entry(q.slot, q.order) && 0 < amount <= q.order.quantity
    ensures Volume(AfterTake(es, q, amount)) < Volume(es)
  {
    var es' := AfterTake(es, q, amount);
    if amount == q.order.quantity {
      assert es' == es[1..];
    } else {
      assert es'[1..] == es[1..];
    }
  }

  /** A front is gone and what follows is as it was. */
  predicate FrontGone(es: seq<Entry>, es': seq<Entry>) {
    |es'| <= |es| && es' == es[|es| - |es'|..]
  }

  /** A front is gone and at most the next has lost quantity. */
  predicate FrontTaken(es: seq<Entry>, es': seq<Entry>) {
    || FrontGone(es, es')
    || (&& 0 < |es'| <= |es|
        && var e := es[|es| - |es'|];
           && 0 < es'[0].order.quantity < e.order.quantity
           && es' == [Entry(e.slot, e.order.(quantity := es'[0].order.quantity))] + es[|es| - |es'| + 1..])
  }

  /** Orders gone: cleared, cancelled or filled, of which only the last may stay with less on it. */
  function Gone(r: MatchResult): int {
    r.invalidRemoved + r.selfCancelled + |r.fills|
    - if r.fills != [] && r.fills[|r.fills| - 1].makerRemaining > 0 then 1 else 0
  }

  /** What the counters say is what is gone from the fronts of both trees, and the cleared ones were dead. */
  predicate Accounts(start: Two<seq<Entry>>, books: Two<seq<Entry>>, terms: Terms, r: MatchResult) {
    && FrontTaken(start.fixed, books.fixed) && FrontTaken(start.pegged, books.pegged)
    && OrdersIn(books) + Gone(r) == OrdersIn(start) && DeadIn(books, terms) + r.invalidRemoved == DeadIn(start, terms)
  }

  /** The same while something remains of the taker: no maker stays with less on it. */
  predicate Tallies(start: Two<seq<Entry>>, books: Two<seq<Entry>>, terms: Terms, r: MatchResult) {
    && Accounts(start, books, terms, r)
    && (r.remaining > 0 ==>
          && FrontGone(start.fixed, books.fixed) && FrontGone(start.pegged, books.pegged)
          && Gone(r) == r.invalidRemoved + r.selfCancelled + |r.fills|)
  }

  lemma FrontFurther(es: seq<Entry>, es': seq<Entry>)
    requires FrontGone(es, es') && es' != []
    ensures FrontGone(es, es'[1..]) && es'[0] == es[|es| - |es'|]
    ensures es'[1..] == es[|es| - |es'| + 1..]
  {}

  lemma TalliesCleared(start: Two<seq<Entry>>, books: Two<seq<Entry>>, terms: Terms, r: MatchResult)
    requires Tallies(start, books, terms, r) && r.remaining > 0 && NextDead(books, terms).Some?
    ensures Tallies(start, Beheaded(books, NextDead(books, terms).value), terms,
                    r.(invalidRemoved := r.invalidRemoved + 1))
  {
    var tree := NextDead(books, terms).value;
    FrontFurther(start.At(tree), books.At(tree));
    ClearedQueue(books, terms, tree);
  }

  lemma TakenFront(es: seq<Entry>, es': seq<Entry>, q: Quote, amount: u64)
    requires FrontGone(es, es') && es' != [] && es'[0] == Entry(q.slot, q.order) && 0 < amount <= q.order.quantity
    ensures var taken := AfterTake(es', q, amount);
            if amount == q.order.quantity then FrontGone(es, taken) && |taken| + 1 == |es'|
            else FrontTaken(es, taken) && |taken| == |es'|
  {
    FrontFurther(es, es');
    assert [] + es'[1..] == es'[1..];
  }

  /** Taking from a maker leaves the dead orders. */
  lemma TakeKeepsDead(books: Two<seq<Entry>>, terms: Terms, q: Quote, amount: u64)
    requires Candidate(books, terms) == Some(q) && 0 < amount <= q.order.quantity
    ensures DeadIn(books.With(q.tree, AfterTake(books.At(q.tree), q, amount)), terms) == DeadIn(books, terms)
  {
    var es := books.At(q.tree);
    var es' := AfterTake(es, q, amount);
    if amount == q.order.quantity {
      assert es' == es[1..];
    } else {
      assert es'[1..] == es[1..];
    }
  }

  lemma TalliesMet(start: Two<seq<Entry>>, books: Two<seq<Entry>>, terms: Terms, taker: Taker, r: MatchResult, q: Quote)
    requires Tallies(start, books, terms, r) && r.remaining > 0 && Candidate(books, terms) == Some(q)
    ensures var amount := AmountOf(taker, r, q);
            Tallies(start, books.With(q.tree, AfterTake(books.At(q.tree), q, amount)), terms,
                    AfterMaker(r, q, amount, q.order.owner == taker.owner))
  {
    var amount := AmountOf(taker, r, q);
    TakenFront(start.At(q.tree), books.At(q.tree), q, amount);
    TakeKeepsDead(books, terms, q, amount);
    GoneAfter(r, q, amount, q.order.owner == taker.owner);
  }

  lemma GoneAfter(r: MatchResult, q: Quote, amount: u64, own: bool)
    requires Gone(r) == r.invalidRemoved + r.selfCancelled + |r.fills|
    requires amount <= q.order.quantity && (own ==> amount == q.order.quantity) && (!own ==> amount <= r.remaining)
    ensures Gone(AfterMaker(r, q, amount, own)) == Gone(r) + if amount == q.order.quantity then 1 else 0
  {}

  /** Takes what the taker takes from the better head. */
  method MeetMaker(arena: Arena, q: Quote, taker: Taker, terms: Terms, limits: Limits, r: MatchResult,
                   ghost start: Trading, ghost steps: nat, ghost turns: nat, ghost all: nat,
                   ghost first: Two<seq<Entry>>)
    returns (r': MatchResult)
    requires arena.Valid() && BooksFiled(arena.Books(), terms.side) && Candidate(arena.Books(), terms) == Some(q)
    requires MayMeet(taker, limits, r, q) && !taker.postOnly && taker.selfTrade == CancelProvide
    requires turns > 0 && Along(start, taker, terms, limits, arena.Books(), r, steps, turns, all)
    requires Tallies(first, arena.Books(), terms, r)
    requires limits.maxInvalid > r.invalidRemoved ==> NextDead(arena.Books(), terms).None?
    modifies arena, arena.nodes
    ensures arena.Valid() && BooksFiled(arena.Books(), terms.side)
    ensures !r'.postOnlyRejected && VolumeIn(arena.Books()) < VolumeIn(old(arena.Books()))
    ensures Along(start, taker, terms, limits, arena.Books(), r', steps + 1, turns - 1, all)
    ensures Tallies(first, arena.Books(), terms, r')
  {
    var own, amount := q.order.owner == taker.owner, AmountOf(taker, r, q);
    AlongMet(start, taker, terms, limits, arena.Books(), r, steps, turns, all, q);
    VolumeTaken(arena.Book(q.tree), q, amount);
    TalliesMet(first, arena.Books(), terms, taker, r, q);
    TakeHead(arena, q, amount, terms);
    r' := AfterMaker(r, q, amount, own);
  }

  /** Meets the better head, or ends. */
  method MeetBest(arena: Arena, taker: Taker, terms: Terms, limits: Limits, r: MatchResult, ghost start: Trading,
                  ghost steps: nat, ghost turns: nat, ghost all: nat, ghost first: Two<seq<Entry>>)
    returns (r': MatchResult, done: bool, ghost steps': nat)
    requires arena.Valid() && BooksFiled(arena.Books(), terms.side)
    requires taker.selfTrade == CancelProvide && !r.postOnlyRejected && r.remaining > 0 && |r.fills| < limits.maxFills
    requires turns > 0 && Along(start, taker, terms, limits, arena.Books(), r, steps, turns, all)
    requires Tallies(first, arena.Books(), terms, r)
    requires limits.maxInvalid > r.invalidRemoved ==> NextDead(arena.Books(), terms).None?
    modifies arena, arena.nodes
    ensures arena.Valid() && BooksFiled(arena.Books(), terms.side)
    ensures Along(start, taker, terms, limits, arena.Books(), r', steps', if done then turns else turns - 1, all)
    ensures done ==> Over(arena.Books(), terms, taker, limits, r') && arena.Books() == old(arena.Books())
    ensures !done ==> !r'.postOnlyRejected && VolumeIn(arena.Books()) < VolumeIn(old(arena.Books()))
    ensures done <==> Stuck(old(arena.Books()), terms, taker, limits.maxInvalid - r.invalidRemoved)
    ensures Tallies(first, arena.Books(), terms, r')
  {
    var q := BestCandidate(arena, terms);
    if q.None? || !Crosses(taker, q.value.price) {
      return r, true, steps;
    }
    if taker.postOnly {
      AlongRejected(start, taker, terms, limits, arena.Books(), r, steps, turns, all, q.value);
      return r.(postOnlyRejected := true), true, steps + 1;
    }
    r' := MeetMaker(arena, q.value, taker, terms, limits, r, start, steps, turns, all, first);
    return r', false, steps + 1;
  }

  /** One turn of the loop: a dead head cleared, a maker met, or the end. */
  method MatchOnce(arena: Arena, taker: Taker, terms: Terms, limits: Limits, r: MatchResult, ghost start: Trading,
                   ghost steps: nat, ghost turns: nat, ghost all: nat, ghost first: Two<seq<Entry>>)
    returns (r': MatchResult, done: bool, ghost steps': nat)
    requires arena.Valid() && BooksFiled(arena.Books(), terms.side)
    requires taker.selfTrade == CancelProvide && !r.postOnlyRejected && r.remaining > 0 && |r.fills| < limits.maxFills
    requires turns > 0 && Along(start, taker, terms, limits, arena.Books(), r, steps, turns, all)
    requires Tallies(first, arena.Books(), terms, r)
    modifies arena, arena.nodes
    ensures arena.Valid() && BooksFiled(arena.Books(), terms.side)
    ensures Along(start, taker, terms, limits, arena.Books(), r', steps', if done then turns else turns - 1, all)
    ensures done ==> Over(arena.Books(), terms, taker, limits, r') && arena.Books() == old(arena.Books())
    ensures !done ==> !r'.postOnlyRejected && VolumeIn(arena.Books()) < VolumeIn(old(arena.Books()))
    ensures done <==> Stuck(old(arena.Books()), terms, taker, limits.maxInvalid - r.invalidRemoved)
    ensures Tallies(first, arena.Books(), terms, r')
  {
    ghost var books := arena.Books();
    var cleared := ClearInvalid(arena, terms, r.invalidRemoved < limits.maxInvalid);
    if cleared.Some? {
      AlongCleared(start, taker, terms, limits, books, r, steps, turns, all);
      FiledTail(books, terms.side, cleared.value);
      TalliesCleared(first, books, terms, r);
      return r.(invalidRemoved := r.invalidRemoved + 1), false, steps;
    }
    r', done, steps' := MeetBest(arena, taker, terms, limits, r, start, steps, turns, all, first);
  }

  /** Where the loop over the heads brings a taker. */
  function EndOf(books: Two<seq<Entry>>, taker: Taker, terms: Terms, quantity: u64, limits: Limits): Trading {
    Trade(Reaching(books, terms, limits, quantity), taker, limits.maxFills,
          MakersIn(books, terms, limits.maxInvalid, Bound(limits)))
  }

  /** What trading with the makers reached, in the turns there are, comes to. */
  predicate TradedIn(books: Two<seq<Entry>>, taker: Taker, terms: Terms, quantity: u64, limits: Limits, end: Trading) {
    Traded(Reach(books, terms, limits.maxInvalid), quantity, taker, limits.maxFills,
           MakersIn(books, terms, limits.maxInvalid, Bound(limits)), end)
  }

  lemma EndIsTraded(books: Two<seq<Entry>>, taker: Taker, terms: Terms, quantity: u64, limits: Limits)
    ensures TradedIn(books, taker, terms, quantity, limits, EndOf(books, taker, terms, quantity, limits))
  {
    TradeComesTo(Reach(books, terms, limits.maxInvalid), quantity, taker, limits.maxFills,
                 MakersIn(books, terms, limits.maxInvalid, Bound(limits)));
  }

  /** The loop over the heads. */
  method MatchHeads(arena: Arena, taker: Taker, terms: Terms, quantity: u64, limits: Limits) returns (r: MatchResult)
    requires arena.Valid() && BooksFiled(arena.Books(), terms.side) && taker.selfTrade == CancelProvide && quantity > 0
    modifies arena, arena.nodes
    ensures arena.Valid() && BooksFiled(arena.Books(), terms.side) && r.invalidRemoved <= limits.maxInvalid
    ensures NowOf(arena.Books(), terms, limits, r) == EndOf(old(arena.Books()), taker, terms, quantity, limits)
    ensures Accounts(old(arena.Books()), arena.Books(), terms, r)
    ensures VolumeIn(arena.Books()) <= VolumeIn(old(arena.Books()))
    ensures if limits.maxFills == 0 || Stuck(old(arena.Books()), terms, taker, limits.maxInvalid)
            then arena.Books() == old(arena.Books()) else VolumeIn(arena.Books()) < VolumeIn(old(arena.Books()))
  {
    r := MatchResult([], quantity, 0, 0, 0, false);
    var iterations, done := 0, false;
    ghost var books := arena.Books();
    ghost var start, all := NowOf(books, terms, limits, r), MakersIn(books, terms, limits.maxInvalid, Bound(limits));
    ghost var stuck := Stuck(books, terms, taker, limits.maxInvalid);
    ghost var steps: nat, turns: nat := 0, Bound(limits);
    while !done && r.remaining > 0 && |r.fills| < limits.maxFills && iterations < Bound(limits)
      invariant arena.Valid() && BooksFiled(arena.Books(), terms.side) && iterations <= Bound(limits)
      invariant Along(start, taker, terms, limits, arena.Books(), r, steps, turns, all)
      invariant !done ==> turns == Bound(limits) - iterations && !r.postOnlyRejected
      invariant done ==> Over(arena.Books(), terms, taker, limits, r)
      invariant Tallies(books, arena.Books(), terms, r)
      invariant iterations == 0 ==> arena.Books() == books && !done && r == MatchResult([], quantity, 0, 0, 0, false)
      invariant iterations > 0 ==>
                  && limits.maxFills > 0
                  && if stuck then done && arena.Books() == books else VolumeIn(arena.Books()) < VolumeIn(books)
      decreases Bound(limits) - iterations
    {
      iterations := iterations + 1;
      r, done, steps := MatchOnce(arena, taker, terms, limits, r, start, steps, turns, all, books);
      turns := if done then turns else turns - 1;
    }
    AlongEnds(start, taker, terms, limits, arena.Books(), r, steps, turns, all);
  }

  lemma {:induction false} SweptFiled(es: seq<Entry>, tree: Bit, side: Side, now: u64, n: nat)
    requires AllFiled(es, tree, side)
    ensures AllFiled(Swept(es, now, n), tree, side)
  {
    if es != [] && n > 0 {
      assert Filed(tree, es[0].order, side);
      SweptFiled(es[1..], tree, side, now, if Expired(es[0], now) then n - 1 else n);
    }
  }

  lemma SweptTree(es: seq<Entry>, tree: Bit, terms: Terms, n: nat)
    requires CountExpired(es, terms.now) <= n
    ensures var swept := Swept(es, terms.now, n);
            Quotes(swept, tree, terms) == Quotes(es, tree, terms)
                && CountDead(swept, tree, terms) == CountStale(es, tree, terms)
  {
    FullSweep(es, terms.now, n);
    SweptDead(es, tree, terms);
  }

  /** The books after both trees are swept; the removals allowed are shared, the fixed tree first. */
  function AfterSweep(books: Two<seq<Entry>>, terms: Terms, limits: Limits): Two<seq<Entry>> {
    var expired := CountExpired(books.fixed, terms.now);
    Two(Swept(books.fixed, terms.now, limits.maxExpired),
        Swept(books.pegged, terms.now, if expired <= limits.maxExpired then limits.maxExpired - expired else 0))
  }

  /** There is nothing to sweep, or nothing may be swept. */
  predicate Unswept(books: Two<seq<Entry>>, terms: Terms, limits: Limits) {
    limits.maxExpired == 0 || CountExpired(books.fixed, terms.now) + CountExpired(books.pegged, terms.now) == 0
  }

  method SweepBoth(arena: Arena, terms: Terms, limits: Limits) returns (removed: nat)
    requires arena.Valid() && BooksFiled(arena.Books(), terms.side)
    modifies arena, arena.nodes
    ensures arena.Valid() && BooksFiled(arena.Books(), terms.side)
    ensures arena.Books() == AfterSweep(old(arena.Books()), terms, limits)
    ensures removed == SweptCount(old(arena.Books()), terms, limits)
  {
    ghost var books := arena.Books();
    var fixed := arena.SweepExpired(0, terms.now, limits.maxExpired);
    var pegged := arena.SweepExpired(1, terms.now, limits.maxExpired - fixed);
    removed := fixed + pegged;
    AfterSweepFiled(books, terms, limits);
  }

  function SweptCount(books: Two<seq<Entry>>, terms: Terms, limits: Limits): nat {
    var expired := CountExpired(books.fixed, terms.now) + CountExpired(books.pegged, terms.now);
    if expired <= limits.maxExpired then expired else limits.maxExpired
  }

  lemma AfterSweepFiled(books: Two<seq<Entry>>, terms: Terms, limits: Limits)
    requires BooksFiled(books, terms.side)
    ensures BooksFiled(AfterSweep(books, terms, limits), terms.side)
  {
    var expired := CountExpired(books.fixed, terms.now);
    SweptFiled(books.fixed, 0, terms.side, terms.now, limits.maxExpired);
    SweptFiled(books.pegged, 1, terms.side, terms.now,
               if expired <= limits.maxExpired then limits.maxExpired - expired else 0);
  }

  lemma SweepFits(books: Two<seq<Entry>>, terms: Terms, limits: Limits)
    requires ClearingFits(books, terms, limits)
    ensures var swept := AfterSweep(books, terms, limits);
            Queue(swept, terms) == Queue(books, terms) && DeadIn(swept, terms) <= limits.maxInvalid
  {
    SweptTree(books.fixed, 0, terms, limits.maxExpired);
    SweptTree(books.pegged, 1, terms, limits.maxExpired - CountExpired(books.fixed, terms.now));
  }

  lemma {:induction false} SweptVolume(es: seq<Entry>, now: u64, n: nat)
    ensures if n == 0 || CountExpired(es, now) == 0 then Swept(es, now, n) == es
            else Volume(Swept(es, now, n)) < Volume(es)
  {
    if es != [] && n > 0 {
      SweptVolume(es[1..], now, if Expired(es[0], now) then n - 1 else n);
      var rest := Swept(es[1..], now, n);
      assert ([es[0]] + rest)[1..] == rest && es == [es[0]] + es[1..];
    }
  }

  lemma SweepVolume(books: Two<seq<Entry>>, terms: Terms, limits: Limits)
    ensures var swept := AfterSweep(books, terms, limits);
            if Unswept(books, terms, limits) then swept == books else VolumeIn(swept) < VolumeIn(books)
  {
    var expired := CountExpired(books.fixed, terms.now);
    SweptVolume(books.fixed, terms.now, limits.maxExpired);
    SweptVolume(books.pegged, terms.now, if expired <= limits.maxExpired then limits.maxExpired - expired else 0);
  }

  function TermsOf(order: OrderInput, oracle: Option<i64>, now: u64): Terms {
    Terms(Opposite(order.side), oracle, now)
  }

  function TakerOf(order: OrderInput, price: i64, selfTrade: SelfTrade): Taker {
    Taker(order.side, order.owner, price, order.postOnly, selfTrade)
  }

  /** A taker that comes to the whole queue. */
  function Arriving(books: Two<seq<Entry>>, terms: Terms, quantity: u64): Trading {
    Trading(Queue(books, terms), quantity, [], 0, false, false)
  }

  /** The errors found before anything is touched. */
  function EarlyError(order: OrderInput, oracle: Option<i64>, limits: Limits): Option<BookError> {
    var price := TakerPrice(order, oracle);
    if order.quantity == 0 || limits.maxFills > MAX_MATCH_FILLS then Some(BadLimit)
    else if order.tree == 1 && (price.None? || price.value <= 0) then Some(BadPrice)
    else None
  }

  /** Where matching in place brings an order: what it takes from the makers that it reaches. */
  function EngineEnd(books: Two<seq<Entry>>, order: OrderInput, oracle: Option<i64>, now: u64, limits: Limits): Trading
    requires EarlyError(order, oracle, limits).None?
  {
    var terms, taker := TermsOf(order, oracle, now), TakerOf(order, TakerPrice(order, oracle).value, CancelProvide);
    EndOf(AfterSweep(books, terms, limits), taker, terms, order.quantity, limits)
  }

  /** With room to clear every dead order, what is reached is the queue: before and, with what room is left, after. */
  lemma FittingReach(books: Two<seq<Entry>>, books': Two<seq<Entry>>, terms: Terms, limits: Limits, removed: nat)
    requires ClearingFits(books, terms, limits)
    requires removed + DeadIn(books', terms) <= DeadIn(AfterSweep(books, terms, limits), terms)
    ensures removed <= limits.maxInvalid
            && Reach(AfterSweep(books, terms, limits), terms, limits.maxInvalid) == Queue(books, terms)
    ensures Reach(books', terms, limits.maxInvalid - removed) == Queue(books', terms)
  {
    SweepFits(books, terms, limits);
    ReachIsQueue(AfterSweep(books, terms, limits), terms, limits.maxInvalid);
    ReachIsQueue(books', terms, limits.maxInvalid - removed);
  }

  /** Nothing is swept, cleared or met. */
  predicate Idles(books: Two<seq<Entry>>, taker: Taker, terms: Terms, limits: Limits) {
    Unswept(books, terms, limits) && (limits.maxFills == 0 || Stuck(books, terms, taker, limits.maxInvalid))
  }

  predicate Idle(books: Two<seq<Entry>>, order: OrderInput, oracle: Option<i64>, now: u64, limits: Limits)
    requires EarlyError(order, oracle, limits).None?
  {
    Idles(books, TakerOf(order, TakerPrice(order, oracle).value, CancelProvide), TermsOf(order, oracle, now), limits)
  }

  /** When the limits leave room to clear every dead order, the makers reached are the queue, and its rest stays. */
  predicate WholeQueue(books: Two<seq<Entry>>, books': Two<seq<Entry>>, terms: Terms, limits: Limits, end: Trading) {
    ClearingFits(books, terms, limits) ==>
      && Reach(AfterSweep(books, terms, limits), terms, limits.maxInvalid) == Queue(books, terms)
      && Queue(books', terms) == end.queue
  }

  /** Fills, remainder and cancels are what the makers reached give, the counters account for what is gone, and nothing
      changes exactly if there is nothing to do. */
  predicate Matched(books: Two<seq<Entry>>, books': Two<seq<Entry>>, taker: Taker, terms: Terms, quantity: u64,
                    limits: Limits, r: MatchResult) {
    var swept := AfterSweep(books, terms, limits);
    && r.expiredRemoved == SweptCount(books, terms, limits) && r.invalidRemoved <= limits.maxInvalid
    && NowOf(books', terms, limits, r) == EndOf(swept, taker, terms, quantity, limits)
    && TradedIn(swept, taker, terms, quantity, limits, NowOf(books', terms, limits, r))
    && WholeQueue(books, books', terms, limits, NowOf(books', terms, limits, r))
    && Accounts(swept, books', terms, r) && (books' == books <==> Idles(books, taker, terms, limits))
  }

  lemma MatchedAfterSweep(books: Two<seq<Entry>>, books': Two<seq<Entry>>, taker: Taker, terms: Terms, quantity: u64,
                          limits: Limits, r: MatchResult)
    requires r.expiredRemoved == SweptCount(books, terms, limits) && r.invalidRemoved <= limits.maxInvalid
    requires Accounts(AfterSweep(books, terms, limits), books', terms, r)
    requires NowOf(books', terms, limits, r) == EndOf(AfterSweep(books, terms, limits), taker, terms, quantity, limits)
    requires books' == books <==> Idles(books, taker, terms, limits)
    ensures Matched(books, books', taker, terms, quantity, limits, r)
  {
    EndIsTraded(AfterSweep(books, terms, limits), taker, terms, quantity, limits);
    FittingMatch(books, books', terms, limits, r);
  }

  lemma SweptAside(start: Two<seq<Entry>>, books: Two<seq<Entry>>, terms: Terms, limits: Limits, r: MatchResult,
                   swept: nat)
    requires r.invalidRemoved <= limits.maxInvalid
    ensures var r' := r.(expiredRemoved := swept);
            && (Accounts(start, books, terms, r) ==> Accounts(start, books, terms, r'))
            && NowOf(books, terms, limits, r') == NowOf(books, terms, limits, r)
  {}

  method SweepAndMatch(arena: Arena, taker: Taker, terms: Terms, quantity: u64, limits: Limits) returns (r: MatchResult)
    requires arena.Valid() && BooksFiled(arena.Books(), terms.side) && taker.selfTrade == CancelProvide && quantity > 0
    modifies arena, arena.nodes
    ensures arena.Valid() && BooksFiled(arena.Books(), terms.side)
    ensures Matched(old(arena.Books()), arena.Books(), taker, terms, quantity, limits, r)
  {
    ghost var books := arena.Books();
    var swept := SweepBoth(arena, terms, limits);
    r := MatchHeads(arena, taker, terms, quantity, limits);
    IdlesIff(books, arena.Books(), taker, terms, limits);
    SweptAside(AfterSweep(books, terms, limits), arena.Books(), terms, limits, r, swept);
    r := r.(expiredRemoved := swept);
    MatchedAfterSweep(books, arena.Books(), taker, terms, quantity, limits, r);
  }

  lemma IdlesIff(books: Two<seq<Entry>>, books': Two<seq<Entry>>, taker: Taker, terms: Terms, limits: Limits)
    requires var swept := AfterSweep(books, terms, limits);
             if limits.maxFills == 0 || Stuck(swept, terms, taker, limits.maxInvalid)
             then books' == swept else VolumeIn(books') < VolumeIn(swept)
    ensures books' == books <==> Idles(books, taker, terms, limits)
  {
    SweepVolume(books, terms, limits);
  }

  lemma FittingMatch(books: Two<seq<Entry>>, books': Two<seq<Entry>>, terms: Terms, limits: Limits, r: MatchResult)
    requires r.invalidRemoved <= limits.maxInvalid
    requires DeadIn(books', terms) + r.invalidRemoved <= DeadIn(AfterSweep(books, terms, limits), terms)
    ensures WholeQueue(books, books', terms, limits, NowOf(books', terms, limits, r))
  {
    if ClearingFits(books, terms, limits) { FittingReach(books, books', terms, limits, r.invalidRemoved); }
  }

  predicate IsMatched(books: Two<seq<Entry>>, books': Two<seq<Entry>>, order: OrderInput, oracle: Option<i64>, now: u64,
                      limits: Limits, r: MatchResult)
    requires EarlyError(order, oracle, limits).None?
  {
    Matched(books, books', TakerOf(order, TakerPrice(order, oracle).value, CancelProvide), TermsOf(order, oracle, now),
            order.quantity, limits, r)
  }

  /** Matches in place, up to filing the rest. Fills, remainder and cancels are what the makers reached give; when the
      limits leave room to clear every dead order, those are the one queue, and its rest stays. */
  method MatchOpposing(arena: Arena, order: OrderInput, oracle: Option<i64>, now: u64,
                       limits: Limits) returns (r: Result<MatchResult>)
    requires arena.Valid() && BooksFiled(arena.Books(), Opposite(order.side))
    modifies arena, arena.nodes
    ensures arena.Valid() && BooksFiled(arena.Books(), Opposite(order.side))
    ensures r.Err? <==> EarlyError(order, oracle, limits).Some?
    ensures r.Err? ==> Some(r.error) == EarlyError(order, oracle, limits) && arena.Books() == old(arena.Books())
    ensures r.Ok? ==> IsMatched(old(arena.Books()), arena.Books(), order, oracle, now, limits, r.value)
  {
    if order.quantity == 0 || limits.maxFills > MAX_MATCH_FILLS {
      return Err(BadLimit);
    }
    var price := TakerPrice(order, oracle);
    if order.tree == 1 && (price.None? || price.value <= 0) {
      return Err(BadPrice);
    }
    var matched := SweepAndMatch(arena, TakerOf(order, price.value, CancelProvide), TermsOf(order, oracle, now),
                                 order.quantity, limits);
    r := Ok(matched);
  }

  lemma {:induction false} SweptQuotes(es: seq<Entry>, tree: Bit, terms: Terms, n: nat)
    ensures Quotes(Swept(es, terms.now, n), tree, terms) == Quotes(es, tree, terms)
  {
    if es != [] && n > 0 {
      SweptQuotes(es[1..], tree, terms, if Expired(es[0], terms.now) then n - 1 else n);
      var rest, quotes := Swept(es[1..], terms.now, n), Quotes(es[1..], tree, terms);
      assert ([es[0]] + rest)[1..] == rest && [] + quotes == quotes;
    }
  }

  lemma SweepKeepsQueue(books: Two<seq<Entry>>, terms: Terms, limits: Limits)
    ensures Queue(AfterSweep(books, terms, limits), terms) == Queue(books, terms)
  {
    var expired := CountExpired(books.fixed, terms.now);
    SweptQuotes(books.fixed, 0, terms, limits.maxExpired);
    SweptQuotes(books.pegged, 1, terms, if expired <= limits.maxExpired then limits.maxExpired - expired else 0);
  }

  /** The makers that a taker meets are the first of those it reaches; they are the first of the queue, and so in
      price-time order, if and only if as many dead heads may be cleared as hide one of them. */
  lemma MeetsInOrderIff(books: Two<seq<Entry>>, taker: Taker, terms: Terms, quantity: u64, limits: Limits)
    ensures var end := EndOf(books, taker, terms, quantity, limits);
            var n, reach, queue := Met(end), Reach(books, terms, limits.maxInvalid), Queue(books, terms);
            && FrontMet(reach, end, taker, n) && n <= |queue|
            && (reach[..n] == queue[..n] <==> Needed(books, terms, n) <= limits.maxInvalid)
  {
    TradeTakesFront(Reaching(books, terms, limits, quantity), taker, limits.maxFills,
                    MakersIn(books, terms, limits.maxInvalid, Bound(limits)));
    ReachWithin(books, terms, limits.maxInvalid);
    PriorityKeptIff(books, terms, limits.maxInvalid, Met(EndOf(books, taker, terms, quantity, limits)));
  }

  /** The same of matching in place, after its sweep, which leaves the queue as it is. */
  lemma EngineKeepsPriorityIff(books: Two<seq<Entry>>, order: OrderInput, oracle: Option<i64>, now: u64, limits: Limits)
    requires EarlyError(order, oracle, limits).None?
    ensures var terms, end := TermsOf(order, oracle, now), EngineEnd(books, order, oracle, now, limits);
            var swept, n := AfterSweep(books, terms, limits), Met(end);
            var reach, queue := Reach(swept, terms, limits.maxInvalid), Queue(books, terms);
            && FrontMet(reach, end, TakerOf(order, TakerPrice(order, oracle).value, CancelProvide), n) && n <= |queue|
            && (reach[..n] == queue[..n] <==> Needed(swept, terms, n) <= limits.maxInvalid)
  {
    var terms, taker := TermsOf(order, oracle, now), TakerOf(order, TakerPrice(order, oracle).value, CancelProvide);
    SweepKeepsQueue(books, terms, limits);
    MeetsInOrderIff(AfterSweep(books, terms, limits), taker, terms, order.quantity, limits);
  }

  // ----- filing the rest -----

  /** The leaf that an order makes; only a fixed price of zero or less has no key. */
  function LeafOf(order: OrderInput): Option<Order> {
    var key := if order.tree == 0 then PriceTimeKey(order.side, order.priceOrOffset, order.sequence)
               else Some(OffsetTimeKey(order.side, order.priceOrOffset, order.sequence));
    if key.None? then None
    else
      Some(Order(if order.side.Bid? then 0 else 1, if order.immediate then 1 else 0, order.owner, key.value,
                 order.quantity, order.expiresAt, order.pegLimit, order.clientOrderId, order.priceOrOffset,
                 order.sequence, if order.postOnly then 1 else 0))
  }

  /** What stands against filing an order in books with so many slots left. */
  function FilingError(books: Two<seq<Entry>>, available: int, order: OrderInput): Option<BookError> {
    var leaf := LeafOf(order);
    if leaf.None? then Some(BadPrice)
    else if Resting(books.At(order.tree), leaf.value.key) then Some(DuplicateKey)
    else if available < (if books.At(order.tree) == [] then 1 else 2) then Some(Full)
    else None
  }

  lemma LeafIsFiled(order: OrderInput)
    ensures LeafOf(order).None? <==> order.tree == 0 && order.priceOrOffset <= 0
    ensures var leaf := LeafOf(order); leaf.Some? ==> IsKey(leaf.value.key) && Filed(order.tree, leaf.value, order.side)
  {
    if order.tree == 0 {
      if order.priceOrOffset > 0 {
        PriceTimePriority(order.side, order.priceOrOffset, order.sequence, order.priceOrOffset, order.sequence);
      }
    } else {
      OffsetTimePriority(order.side, order.priceOrOffset, order.sequence, order.priceOrOffset, order.sequence);
    }
  }

  /** Files what remains of an order. */
  method FileRest(own: Arena, order: OrderInput, remaining: u64) returns (r: Result<nat>)
    requires own.Valid()
    modifies own, own.nodes
    ensures own.Valid()
    ensures r.Err? <==> FilingError(old(own.Books()), old(own.Available()), order).Some?
    ensures r.Err? ==>
              && Some(r.error) == FilingError(old(own.Books()), old(own.Available()), order)
              && own.Books() == old(own.Books())
    ensures r.Ok? ==> own.Books() == WithRest(old(own.Books()), order, remaining, r.value)
  {
    var leaf := LeafOf(order.(quantity := remaining));
    LeafIsFiled(order.(quantity := remaining));
    if leaf.None? {
      return Err(BadPrice);
    }
    r := own.Insert(order.tree, leaf.value);
  }

  /** The books with what remains of an order among them. */
  function WithRest(books: Two<seq<Entry>>, order: OrderInput, remaining: u64, slot: nat): Two<seq<Entry>>
    requires LeafOf(order).Some?
  {
    books.With(order.tree, InsertSorted(books.At(order.tree), Entry(slot, LeafOf(order.(quantity := remaining)).value)))
  }

  /** The resting order that the rest of an order makes. */
  predicate RestsAs(o: Order, order: OrderInput, remaining: u64) {
    && o.owner == order.owner && o.quantity == remaining && o.expiresAt == order.expiresAt
       && o.pegLimit == order.pegLimit
    && o.clientOrderId == order.clientOrderId && o.priceOrOffset == order.priceOrOffset && o.sequence == order.sequence
    && o.side == (if order.side.Bid? then 0 else 1) && o.timeInForce == 0
       && o.flags == (if order.postOnly then 1 else 0)
    && (order.tree == 0 ==> PriceTimeKey(order.side, order.priceOrOffset, order.sequence) == Some(o.key))
    && (order.tree == 1 ==> OffsetTimeKey(order.side, order.priceOrOffset, order.sequence) == o.key)
  }

  /** One entry more, and the others as they were. */
  predicate Joined(es: seq<Entry>, es': seq<Entry>, e: Entry) {
    exists i {:trigger es[..i]} :: 0 <= i <= |es| && es' == es[..i] + [e] + es[i..]
  }

  /** The rest has joined its tree, and nothing else has changed. */
  ghost predicate RestJoined(own: Two<seq<Entry>>, own': Two<seq<Entry>>, order: OrderInput, remaining: u64) {
    && own'.At(1 - order.tree) == own.At(1 - order.tree)
    && exists e :: Joined(own.At(order.tree), own'.At(order.tree), e) && RestsAs(e.order, order, remaining)
  }

  lemma {:induction false} InsertJoins(es: seq<Entry>, e: Entry) returns (i: nat)
    ensures i <= |es| && InsertSorted(es, e) == es[..i] + [e] + es[i..]
  {
    i := 0;
    if es != [] && !Less(e.order.key, es[0].order.key) {
      var k := InsertJoins(es[1..], e);
      i := k + 1;
      assert es[..i] == [es[0]] + es[1..][..k] && es[i..] == es[1..][k..];
    }
  }

  lemma RestJoins(own: Two<seq<Entry>>, order: OrderInput, remaining: u64, slot: nat)
    requires LeafOf(order).Some? && !order.immediate
    ensures RestJoined(own, WithRest(own, order, remaining, slot), order, remaining)
  {
    var e := Entry(slot, LeafOf(order.(quantity := remaining)).value);
    var i := InsertJoins(own.At(order.tree), e);
    assert Joined(own.At(order.tree), InsertSorted(own.At(order.tree), e), e);
  }

  lemma {:induction false} InsertFiled(es: seq<Entry>, e: Entry, tree: Bit, side: Side)
    requires AllFiled(es, tree, side) && Filed(tree, e.order, side)
    ensures AllFiled(InsertSorted(es, e), tree, side)
  {
    if es != [] {
      assert Filed(tree, es[0].order, side);
      assert forall i :: 0 <= i < |es| - 1 ==> es[1..][i] == es[i + 1];
      InsertFiled(es[1..], e, tree, side);
    }
  }

  lemma RestIsFiled(books: Two<seq<Entry>>, order: OrderInput, remaining: u64, slot: nat)
    requires LeafOf(order).Some? && BooksFiled(books, order.side)
    ensures BooksFiled(WithRest(books, order, remaining, slot), order.side)
  {
    LeafIsFiled(order.(quantity := remaining));
    InsertFiled(books.At(order.tree), Entry(slot, LeafOf(order.(quantity := remaining)).value), order.tree, order.side);
  }

  /** What remains is to be filed. */
  predicate Files(end: Trading, order: OrderInput) {
    end.remaining > 0 && !order.immediate && !end.rejected
  }

  /** The order's own side afterwards: with the rest filed, or as it was. */
  predicate RestFiled(own: Two<seq<Entry>>, own': Two<seq<Entry>>, order: OrderInput, end: Trading, slot: nat) {
    if Files(end, order) then LeafOf(order).Some? && own' == WithRest(own, order, end.remaining, slot) else own' == own
  }

  /** The error of matching in place, if any: before anything is touched, or from filing the rest at the end. */
  function MatchError(own: Two<seq<Entry>>, available: int, opposing: Two<seq<Entry>>, order: OrderInput,
                      oracle: Option<i64>, now: u64, limits: Limits): Option<BookError> {
    var early := EarlyError(order, oracle, limits);
    if early.Some? then early
    else if Files(EngineEnd(opposing, order, oracle, now, limits), order) then FilingError(own, available, order)
    else None
  }

  /** Matches in place and files the rest on the order's own side. An error leaves the order's own side as it was; it
      leaves the makers as they were if and only if it comes before matching or matching has nothing to do. */
  method MatchLimit(own: Arena, opposing: Arena, order: OrderInput, oracle: Option<i64>, now: u64,
                    limits: Limits) returns (r: Result<MatchResult>)
    requires own.Valid() && opposing.Valid() && own != opposing && own.nodes != opposing.nodes
    requires BooksFiled(own.Books(), order.side) && BooksFiled(opposing.Books(), Opposite(order.side))
    modifies own, own.nodes, opposing, opposing.nodes
    ensures own.Valid() && opposing.Valid()
    ensures BooksFiled(own.Books(), order.side) && BooksFiled(opposing.Books(), Opposite(order.side))
    ensures var error := MatchError(old(own.Books()), old(own.Available()), old(opposing.Books()), order, oracle, now,
                                    limits);
            (r.Err? <==> error.Some?) && (r.Err? ==> Some(r.error) == error)
    ensures EarlyError(order, oracle, limits).None? ==>
              (opposing.Books() == old(opposing.Books()) <==> Idle(old(opposing.Books()), order, oracle, now, limits))
    ensures EarlyError(order, oracle, limits).Some? ==> opposing.Books() == old(opposing.Books())
    ensures r.Err? ==> own.Books() == old(own.Books())
    ensures EarlyError(order, oracle, limits).None? ==>
              exists m :: (r.Ok? ==> m == r.value)
                  && IsMatched(old(opposing.Books()), opposing.Books(), order, oracle, now, limits, m)
    ensures r.Ok? ==>
              if r.value.remaining > 0 && !order.immediate && !r.value.postOnlyRejected
              then RestJoined(old(own.Books()), own.Books(), order, r.value.remaining)
              else own.Books() == old(own.Books())
    ensures r.Ok? ==> exists slot :: RestFiled(old(own.Books()), own.Books(), order,
                                               EngineEnd(old(opposing.Books()), order, oracle, now, limits), slot)
  {
    ghost var books, theirs, slot: nat := own.Books(), opposing.Books(), 0;
    r := MatchOpposing(opposing, order, oracle, now, limits);
    if r.Ok? { assert IsMatched(theirs, opposing.Books(), order, oracle, now, limits, r.value); }
    if r.Ok? && r.value.remaining > 0 && !order.immediate && !r.value.postOnlyRejected {
      var filed := FileRest(own, order, r.value.remaining);
      if filed.Err? {
        return Err(filed.error);
      }
      RestIsFiled(books, order, r.value.remaining, filed.value);
      RestJoins(books, order, r.value.remaining, filed.value);
      slot := filed.value;
    }
    if r.Ok? { assert RestFiled(books, own.Books(), order, EngineEnd(theirs, order, oracle, now, limits), slot); }
  }
}
