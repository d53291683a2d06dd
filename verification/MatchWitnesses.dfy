/**
 Runs over real arenas in which a property fails that one might expect of the
 engines of `programs/equinox/src/book.rs` and `programs/equinox/src/handlers.rs`.
 When exactly each fails is stated beside the engines.
 */
module MatchWitnesses {
  import opened Wrappers
  import opened OrderKeys
  import opened Patricia
  import opened ArenaLayout
  import opened BookArena
  import opened Matching
  import opened HeadClearing
  import opened MatchEngine
  import opened MatchPlan
  import opened Settlement
  import opened Placement

  // ----- an arena with given asks -----

  function AskOf(price: i64, sequence: u64, owner: nat, expiresAt: u64): Order
    requires price > 0
  {
    Order(1, 0, owner, PriceTimeKey(Ask, price, sequence).value, 1, expiresAt, 0, 0, price, sequence, 0)
  }

  /** Asks at a price of their own, in the order of price and sequence. */
  predicate Listable(orders: seq<Order>) {
    && (forall i :: 0 <= i < |orders| ==> Filed(0, orders[i], Ask))
    && (forall i, j :: 0 <= i < j < |orders| ==>
          orders[i].priceOrOffset < orders[j].priceOrOffset
          || (orders[i].priceOrOffset == orders[j].priceOrOffset && orders[i].sequence < orders[j].sequence))
  }

  /** The slots that they get in an empty arena. */
  function Slotted(orders: seq<Order>): (es: seq<Entry>)
    ensures |es| == |orders| && forall i :: 0 <= i < |orders| ==> es[i].order == orders[i]
  {
    if orders == [] then []
    else Slotted(orders[..|orders| - 1]) + [Entry(SlotsFor(|orders| - 1), orders[|orders| - 1])]
  }

  lemma {:induction false} InsertLast(es: seq<Entry>, e: Entry)
    requires forall i :: 0 <= i < |es| ==> !Less(e.order.key, es[i].order.key)
    ensures InsertSorted(es, e) == es + [e]
  {
    if es != [] {
      assert forall i :: 0 <= i < |es| - 1 ==> es[1..][i] == es[i + 1];
      InsertLast(es[1..], e);
    }
  }

  lemma LaterKey(a: Order, b: Order)
    requires Filed(0, a, Ask) && Filed(0, b, Ask)
    requires a.priceOrOffset < b.priceOrOffset || (a.priceOrOffset == b.priceOrOffset && a.sequence < b.sequence)
    ensures IsKey(b.key) && a.key != b.key && !Less(b.key, a.key)
  {
    PriceTimePriority(Ask, b.priceOrOffset, b.sequence, a.priceOrOffset, a.sequence);
  }

  lemma NextIsLast(orders: seq<Order>, n: nat)
    requires Listable(orders) && n < |orders|
    ensures var es, o := Slotted(orders[..n]), orders[n];
            && IsKey(o.key) && Lookup(es, o.key).None?
            && (forall i :: 0 <= i < n ==> !Less(o.key, es[i].order.key))
  {
    var es, o := Slotted(orders[..n]), orders[n];
    PriceTimePriority(Ask, o.priceOrOffset, o.sequence, o.priceOrOffset, o.sequence);
    forall i | 0 <= i < n
      ensures es[i].order.key != o.key && !Less(o.key, es[i].order.key)
    {
      assert es[i].order == orders[i];
      LaterKey(orders[i], o);
    }
  }

  lemma SlottedSnoc(orders: seq<Order>, n: nat)
    requires n < |orders|
    ensures Slotted(orders[..n + 1]) == Slotted(orders[..n]) + [Entry(SlotsFor(n), orders[n])]
  {
    assert orders[..n + 1][..n] == orders[..n];
  }

  method Append(arena: Arena, o: Order, ghost es: seq<Entry>)
    requires arena.Valid() && arena.freeLen == 0 && arena.Books() == Two(es, []) && |es| < 16
    requires IsKey(o.key) && Lookup(es, o.key).None? && forall i :: 0 <= i < |es| ==> !Less(o.key, es[i].order.key)
    modifies arena, arena.nodes
    ensures arena.Valid() && arena.freeLen == 0
    ensures arena.Books() == Two(es + [Entry(SlotsFor(|es|), o)], [])
  {
    arena.AvailableInOrders();
    InsertLast(es, Entry(SlotsFor(|es|), o));
    var placed := arena.Insert(0, o);
  }

  method ArenaOf(orders: seq<Order>) returns (arena: Arena)
    requires Listable(orders) && |orders| <= 16
    ensures fresh(arena) && fresh(arena.nodes) && arena.Valid()
    ensures arena.Books() == Two(Slotted(orders), [])
  {
    arena := new Arena();
    assert orders[..0] == [];
    for i := 0 to |orders|
      invariant fresh(arena) && fresh(arena.nodes) && arena.Valid() && arena.freeLen == 0
      invariant arena.Books() == Two(Slotted(orders[..i]), [])
    {
      NextIsLast(orders, i);
      SlottedSnoc(orders, i);
      Append(arena, orders[i], Slotted(orders[..i]));
    }
    assert orders[..|orders|] == orders;
  }

  // ----- books with nothing dead -----

  /** Fixed orders that can all trade are all quoted, and nothing is to be cleared. */
  lemma {:induction false} AllQuoted(es: seq<Entry>, terms: Terms)
    requires forall i :: 0 <= i < |es| ==> !Dead(0, es[i].order, terms)
    ensures CountExpired(es, terms.now) == CountStale(es, 0, terms) == 0 && |Quotes(es, 0, terms)| == |es|
    ensures forall i :: 0 <= i < |es| ==>
                Quotes(es, 0, terms)[i] == Quote(0, es[i].slot, es[i].order, es[i].order.priceOrOffset)
  {
    if es != [] {
      assert forall i :: 0 <= i < |es| - 1 ==> es[1..][i] == es[i + 1];
      AllQuoted(es[1..], terms);
    }
  }

  // ----- the two engines part -----

  /** A cancelling taker passes through its own orders at the front. */
  lemma {:induction false} OwnGoFirst(t: Trading, taker: Taker, maxFills: nat, steps: nat, own: seq<Quote>,
                                      rest: seq<Quote>)
    requires t.queue == own + rest && |own| <= steps && t.remaining > 0 && |t.fills| < maxFills
    requires !t.rejected && !t.aborted && !taker.postOnly && taker.selfTrade == CancelProvide
    requires forall q :: q in own ==> q.order.owner == taker.owner && Crosses(taker, q.price)
    ensures Trade(t, taker, maxFills, steps)
         == Trade(t.(queue := rest, selfCancelled := t.selfCancelled + |own|), taker, maxFills, steps - |own|)
    decreases |own|
  {
    if own == [] {
      assert t.queue == rest;
    } else {
      assert t.queue[0] == own[0] && own[0] in own && t.queue[1..] == own[1..] + rest;
      OwnMet(t, taker, maxFills, steps);
      OwnGoFirst(t.(queue := t.queue[1..], selfCancelled := t.selfCancelled + 1), taker, maxFills, steps - 1,
                 own[1..], rest);
    }
  }

  lemma OwnMet(t: Trading, taker: Taker, maxFills: nat, steps: nat)
    requires t.queue != [] && steps > 0 && t.remaining > 0 && |t.fills| < maxFills
    requires !t.rejected && !t.aborted && !taker.postOnly && taker.selfTrade == CancelProvide
    requires t.queue[0].order.owner == taker.owner && Crosses(taker, t.queue[0].price)
    ensures Trade(t, taker, maxFills, steps)
         == Trade(t.(queue := t.queue[1..], selfCancelled := t.selfCancelled + 1), taker, maxFills, steps - 1)
  {}

  /** Three own orders before another's: all four are met. */
  lemma FourMet(t: Trading, taker: Taker, steps: nat)
    requires |t.queue| == 4 && t.remaining > 0 && t.fills == [] && t.selfCancelled == 0 && !t.rejected && !t.aborted
    requires !taker.postOnly && taker.selfTrade == CancelProvide && steps >= 4
    requires forall i :: 0 <= i < 4 ==>
               Crosses(taker, t.queue[i].price) && (t.queue[i].order.owner == taker.owner <==> i < 3)
    ensures Met(Trade(t, taker, 1, steps)) == 4
  {
    assert t.queue == t.queue[..3] + t.queue[3..];
    OwnGoFirst(t, taker, 1, steps, t.queue[..3], t.queue[3..]);
    var after := t.(queue := t.queue[3..], selfCancelled := 3);
    var met := Meet(after, taker);
    assert Trade(after, taker, 1, steps - 3) == Trade(met, taker, 1, steps - 4) == met;
  }

  const ONE_FILL := Limits(1, 0, 0)

  /** Three asks of one owner, then another's, at one price. */
  function OwnFirst(price: i64, sequence: u64, owner: nat, other: nat): seq<Order>
    requires 0 < price && sequence + 3 <= U64_MAX
  {
    [AskOf(price, sequence, owner, 0), AskOf(price, sequence + 1, owner, 0), AskOf(price, sequence + 2, owner, 0),
     AskOf(price, sequence + 3, other, 0)]
  }

  function Buying(owner: nat, price: i64): OrderInput {
    OrderInput(Bid, 0, owner, price, 0, 1, 0, 0, 0, false, false, CancelProvide)
  }

  lemma {:induction false} OwnFirstBook(orders: seq<Order>, price: i64, owner: nat)
    requires Listable(orders) && |orders| == 4 && price > 0
    requires forall i :: 0 <= i < 4 ==>
               && orders[i].priceOrOffset == price && orders[i].quantity == 1 && orders[i].expiresAt == 0
               && (orders[i].owner == owner <==> i < 3)
    ensures var books := Two(Slotted(orders), []);
            && BooksFiled(books, Ask) && Unrepeated(books)
            && PlanError(books, Buying(owner, price), None, 0, ONE_FILL).None?
            && !TurnsSuffice(books, Buying(owner, price), None, 0, ONE_FILL)
  {
    var books, terms := Two(Slotted(orders), []), TermsOf(Buying(owner, price), None, 0);
    AllQuoted(books.fixed, terms);
    var queue := Queue(books, terms);
    assert queue == Quotes(books.fixed, 0, terms);
    FourMet(Arriving(books, terms, 1), TakerOf(Buying(owner, price), price, CancelProvide), MAX_PLAN_ACTIONS);
  }

  /** Three of the taker's own asks before another's, one fill allowed and nothing to clear: the plan has turns for all
      four, matching in place for three, and they do not agree. */
  method TurnsRunOut(price: i64, sequence: u64, owner: nat, other: nat)
    returns (planned: Arena, matched: Arena, plan: Result<Plan>, result: Result<MatchResult>)
    requires 0 < price && sequence + 3 <= U64_MAX && owner != other
    ensures plan.Ok? && result.Ok?
    ensures !Agree(plan.value, planned.Books(), result.value, matched.Books(), TermsOf(Buying(owner, price), None, 0))
  {
    var orders := OwnFirst(price, sequence, owner, other);
    OwnFirstBook(orders, price, owner);
    planned := ArenaOf(orders);
    matched := ArenaOf(orders);
    plan, result := CompareEngines(planned, matched, Buying(owner, price), None, 0, ONE_FILL);
  }

  // ----- a dead head hides its tree -----

  /** Two fixed asks, the first dead, and a pegged one that trades at `price`; each has one unit. */
  predicate Hides(books: Two<seq<Entry>>, terms: Terms, price: i64) {
    && |books.fixed| == 2 && Dead(0, books.fixed[0].order, terms) && !Dead(0, books.fixed[1].order, terms)
    && books.fixed[0].order.quantity == books.fixed[1].order.quantity == 1
    && |books.pegged| == 1 && PriceOf(1, books.pegged[0].order, terms) == Some(price)
       && books.pegged[0].order.quantity == 1
  }

  lemma HiddenReach(books: Two<seq<Entry>>, terms: Terms, price: i64)
    requires Hides(books, terms, price)
    ensures var q := Quote(1, books.pegged[0].slot, books.pegged[0].order, price);
            Reach(books, terms, 0) == [q] && MakersIn(books, terms, 0, 3) == 1
                && AfterSweep(books, terms, ONE_FILL) == books
  {
    var q, rest := Quote(1, books.pegged[0].slot, books.pegged[0].order, price), Beheaded(books, 1);
    assert Candidate(books, terms) == Some(q) && rest.pegged == [] && Candidate(rest, terms).None?;
    assert Reach(rest, terms, 0) == [] && MakersIn(rest, terms, 0, 2) == 0;
  }

  lemma HiddenEnd(books: Two<seq<Entry>>, terms: Terms, taker: Taker, price: i64)
    requires Hides(books, terms, price) && Crosses(taker, price) && !taker.postOnly
    requires taker.owner != books.pegged[0].order.owner
    ensures var q := Quote(1, books.pegged[0].slot, books.pegged[0].order, price);
            EndOf(AfterSweep(books, terms, ONE_FILL), taker, terms, 1, ONE_FILL)
            == Trading([], 0, [FillOf(q, 1)], 0, false, false)
  {
    HiddenReach(books, terms, price);
    var start := Reaching(books, terms, ONE_FILL, 1);
    assert Trade(start, taker, 1, 1) == Trade(Meet(start, taker), taker, 1, 0) == Meet(start, taker);
  }

  lemma NothingReached(books: Two<seq<Entry>>, terms: Terms)
    requires Reach(books, terms, 0) == []
    ensures books.pegged == [] || PriceOf(1, books.pegged[0].order, terms).None?
  {
    if books.pegged != [] && PriceOf(1, books.pegged[0].order, terms).Some? { assert Candidate(books, terms).Some?; }
  }

  /** The pegged order is filled, and both fixed ones stay. */
  lemma HiddenStays(books: Two<seq<Entry>>, books': Two<seq<Entry>>, terms: Terms, taker: Taker, price: i64,
                    r: MatchResult)
    requires Hides(books, terms, price) && Crosses(taker, price) && !taker.postOnly
    requires taker.owner != books.pegged[0].order.owner
    requires Matched(books, books', taker, terms, 1, ONE_FILL, r)
    ensures |r.fills| == 1 && r.fills[0].price == price && books'.fixed == books.fixed
  {
    HiddenEnd(books, terms, taker, price);
    HiddenReach(books, terms, price);
    NothingReached(books', terms);
    assert Gone(r) == 1;
  }

  lemma StaysQuoted(books: Two<seq<Entry>>, terms: Terms, e: Entry)
    requires e in books.fixed && !Dead(0, e.order, terms)
    ensures exists q :: q in Queue(books, terms) && q.price == e.order.priceOrOffset
  {
    var q := Quote(0, e.slot, e.order, e.order.priceOrOffset);
    assert e in books.At(0) && QuoteOf(0, e, terms) == Some(q);
    QueueHas(books, terms, q);
  }

  function PeggedAsk(sequence: u64, owner: nat): Order {
    Order(1, 0, owner, OffsetTimeKey(Ask, 0, sequence), 1, 0, 1, 0, 0, sequence, 0)
  }

  /** An ask that has expired and one behind it. */
  function ExpiredFirst(price: i64, sequence: u64, owner: nat): seq<Order>
    requires 0 < price && price + 1 <= I64_MAX && sequence + 1 <= U64_MAX
  {
    [AskOf(price, sequence, owner, 1), AskOf(price + 1, sequence + 1, owner, 0)]
  }

  lemma HidingBook(price: i64, sequence: u64, owner: nat, slot: nat)
    requires 0 < price && price + 2 <= I64_MAX && sequence + 2 <= U64_MAX
    ensures var pegged := [Entry(slot, PeggedAsk(sequence + 2, owner))];
            var books := Two(Slotted(ExpiredFirst(price, sequence, owner)), pegged);
            && BooksFiled(books, Ask) && Hides(books, Terms(Ask, Some(price + 2), 2), price + 2)
            && books.fixed[1].order.priceOrOffset == price + 1 && books.pegged[0].order.owner == owner
  {
    var orders := ExpiredFirst(price, sequence, owner);
    var fixed := Slotted(orders);
    assert fixed[0].order == orders[0] && fixed[1].order == orders[1];
  }

  method InsertPegged(arena: Arena, o: Order) returns (slot: nat)
    requires arena.Valid() && arena.Book(1) == [] && |arena.Book(0)| <= 16 && IsKey(o.key)
    modifies arena, arena.nodes
    ensures arena.Valid() && arena.Books() == Two(old(arena.Book(0)), [Entry(slot, o)])
  {
    arena.AvailableInOrders();
    var placed := arena.Insert(1, o);
    slot := placed.value;
    assert arena.Book(0) == old(arena.Book(0)) && arena.Book(1) == [Entry(slot, o)];
  }

  method HidingArena(price: i64, sequence: u64, owner: nat) returns (arena: Arena)
    requires 0 < price && price + 2 <= I64_MAX && sequence + 2 <= U64_MAX
    ensures fresh(arena) && fresh(arena.nodes) && arena.Valid() && BooksFiled(arena.Books(), Ask)
    ensures Hides(arena.Books(), Terms(Ask, Some(price + 2), 2), price + 2)
    ensures arena.Books().fixed[1].order.priceOrOffset == price + 1 && arena.Books().pegged[0].order.owner == owner
  {
    arena := ArenaOf(ExpiredFirst(price, sequence, owner));
    OffsetTimePriority(Ask, 0, sequence + 2, 0, sequence + 2);
    var slot := InsertPegged(arena, PeggedAsk(sequence + 2, owner));
    HidingBook(price, sequence, owner, slot);
  }

  /** An expired ask that may not be removed stands before one at `price + 1`: the taker buys at `price + 2` from the
      other tree, and the better ask stays. */
  method LosePriority(price: i64, sequence: u64, owner: nat, buyer: nat)
    returns (opposing: Arena, r: Result<MatchResult>)
    requires 0 < price && price + 2 <= I64_MAX && sequence + 2 <= U64_MAX && owner != buyer
    ensures r.Ok? && |r.value.fills| == 1 && r.value.fills[0].price == price + 2
    ensures exists q :: q in Queue(opposing.Books(), Terms(Ask, Some(price + 2), 2)) && q.price == price + 1
  {
    opposing := HidingArena(price, sequence, owner);
    ghost var books, terms := opposing.Books(), Terms(Ask, Some(price + 2), 2);
    var order := Buying(buyer, price + 2);
    r := MatchOpposing(opposing, order, Some(price + 2), 2, ONE_FILL);
    HiddenStays(books, opposing.Books(), terms, TakerOf(order, price + 2, CancelProvide), price + 2, r.value);
    StaysQuoted(opposing.Books(), terms, books.fixed[1]);
  }

  // ----- an error after a change -----

  const SWEEP_ONE := Limits(1, 0, 1)

  lemma LateBook(own: Two<seq<Entry>>, available: int, books: Two<seq<Entry>>, owner: nat)
    requires |books.fixed| == 1 && books.pegged == [] && Expired(books.fixed[0], 2)
    ensures EarlyError(Buying(owner, 0), None, SWEEP_ONE).None?
    ensures AfterSweep(books, TermsOf(Buying(owner, 0), None, 2), SWEEP_ONE) == Two([], [])
    ensures MatchError(own, available, books, Buying(owner, 0), None, 2, SWEEP_ONE) == Some(BadPrice)
  {
    var order := Buying(owner, 0);
    var terms := TermsOf(order, None, 2);
    assert books.fixed[1..] == [];
    assert Swept(books.fixed, 2, 1) == Swept(books.fixed[1..], 2, 0) == [];
    assert Candidate(Two([], []), terms).None?;
    assert Reach(Two([], []), terms, 0) == [];
    assert EngineEnd(books, order, None, 2, SWEEP_ONE) == Reaching(Two([], []), terms, SWEEP_ONE, 1);
    LeafIsFiled(order);
  }

  /** A bid at price zero is refused, but only when its rest is filed: an expired ask is gone by then. */
  method LateError(price: i64, sequence: u64, owner: nat) returns (before: nat, after: nat, r: Result<MatchResult>)
    requires price > 0
    ensures r == Err(BadPrice) && before == 1 && after == 0
  {
    var own := new Arena();
    var opposing := ArenaOf([AskOf(price, sequence, owner, 1)]);
    opposing.AvailableInOrders();
    before := opposing.counts.fixed;
    ghost var books := opposing.Books();
    LateBook(own.Books(), own.Available(), books, owner);
    r := MatchLimit(own, opposing, Buying(owner, 0), None, 2, SWEEP_ONE);
    opposing.AvailableInOrders();
    after := opposing.counts.fixed;
    ghost var m :| IsMatched(books, opposing.Books(), Buying(owner, 0), None, 2, SWEEP_ONE, m);
    assert OrdersIn(opposing.Books()) + Gone(m) == 0;
  }

  // ----- a crossed market -----

  function Selling(owner: nat, price: i64): OrderInput {
    OrderInput(Ask, 0, owner, price, 0, 1, 0, 0, 0, false, false, CancelProvide)
  }

  const NO_ORDERS: Two<seq<Entry>> := Two([], [])

  predicate PlainAsk(o: Order, owner: nat, price: i64) {
    o.owner == owner && o.quantity == 1 && o.expiresAt == 0 && o.priceOrOffset == price
  }

  /** So many asks of one owner at one price, one unit each. */
  predicate PlainAsks(books: Two<seq<Entry>>, owner: nat, price: i64, n: nat) {
    |books.fixed| == n && books.pegged == [] && forall e :: e in books.fixed ==> PlainAsk(e.order, owner, price)
  }

  /** Nobody to meet: nothing happens but that the order is filed. */
  lemma MeetsNobody(order: OrderInput, price: i64, now: u64)
    requires EarlyRefusal(order, price).None?
    ensures Outcome(NO_ORDERS, order, Some(price), now, PLACE_LIMITS)
         == Arriving(NO_ORDERS, TermsOf(order, Some(price), now), order.quantity)
    ensures PlanError(NO_ORDERS, order, Some(price), now, PLACE_LIMITS).None?
    ensures Queue(NO_ORDERS, TermsOf(order, Some(price), now)) == []
  {
    assert Queue(NO_ORDERS, TermsOf(order, Some(price), now)) == [];
  }

  lemma AskIsFiled(own: Two<seq<Entry>>, room: int, order: OrderInput, seller: nat, price: i64, sequence: u64, n: nat)
    requires Kept(own, Ask, sequence) && PlainAsks(own, seller, price, n) && n < 5 && price > 0
    requires room == CAPACITY - SlotsFor(n) && sequence < order.sequence
    requires order == Selling(seller, price).(sequence := order.sequence)
    ensures LateRefusal(own, room, NO_ORDERS, order, price, 1).None?
    ensures Files(Outcome(NO_ORDERS, order, Some(price), 1, PLACE_LIMITS), order)
  {
    MeetsNobody(order, price, 1);
    LeafIsFiled(order);
    NewKey(own, order, sequence);
  }

  lemma OneMoreAsk(own: Two<seq<Entry>>, own': Two<seq<Entry>>, order: OrderInput, seller: nat, price: i64, n: nat,
                   slot: nat)
    requires PlainAsks(own, seller, price, n) && price > 0
             && order == Selling(seller, price).(sequence := order.sequence)
    requires RestFiled(own, own', order, Arriving(NO_ORDERS, TermsOf(order, Some(price), 1), 1), slot)
    ensures PlainAsks(own', seller, price, n + 1)
  {
    LeafIsFiled(order);
    InsertedElements(own.fixed, Entry(slot, LeafOf(order).value));
  }

  lemma NothingStems(books': Two<seq<Entry>>)
    requires Stems(NO_ORDERS, books')
    ensures books' == NO_ORDERS
  {
    assert books'.fixed != [] ==> books'.At(0)[0] in books'.At(0) && WasThere(NO_ORDERS.At(0), books'.At(0)[0]);
    assert books'.pegged != [] ==> books'.At(1)[0] in books'.At(1) && WasThere(NO_ORDERS.At(1), books'.At(1)[0]);
    assert forall b: Bit, x :: !WasThere(NO_ORDERS.At(b), x);
  }

  method PlaceAsk(market: Market, seller: nat, price: i64, ghost n: nat)
    requires market.Valid() && market.Orders(Bid) == NO_ORDERS && PlainAsks(market.Orders(Ask), seller, price, n)
             && n < 5
    requires price > 0 && market.sequence == n
    modifies market, market.bids, market.asks, market.bids.nodes, market.asks.nodes
    ensures market.Valid() && market.Orders(Bid) == NO_ORDERS && PlainAsks(market.Orders(Ask), seller, price, n + 1)
    ensures market.sequence == n + 1
  {
    ghost var own, order := market.Orders(Ask), Selling(seller, price).(sequence := market.sequence + 1);
    market.asks.AvailableInOrders();
    AskIsFiled(own, market.Room(Ask), order, seller, price, market.sequence, n);
    MeetsNobody(order, price, 1);
    var r := market.Place(Selling(seller, price), price, 1);
    ghost var slot :| RestFiled(own, market.Orders(Ask), order,
                                Outcome(NO_ORDERS, order, Some(price), 1, PLACE_LIMITS), slot);
    OneMoreAsk(own, market.Orders(Ask), order, seller, price, n, slot);
    NothingStems(market.Orders(Bid));
  }

  lemma {:induction false} PlainQueue(qs: seq<Quote>, taker: Taker, owner: nat, price: i64)
    requires forall i :: 0 <= i < |qs| ==> PlainAsk(qs[i].order, owner, price) && qs[i].price == price
    requires taker.side == Bid && taker.price == price && taker.owner != owner
    ensures Crossing(qs, taker) == |qs| == Quantity(qs) && OwnCrossing(qs, taker) == 0
  {
    if qs != [] {
      assert forall i :: 0 <= i < |qs| - 1 ==> qs[1..][i] == qs[i + 1];
      PlainQueue(qs[1..], taker, owner, price);
    }
  }

  lemma PlainBook(asks: Two<seq<Entry>>, order: OrderInput, seller: nat, price: i64)
    requires PlainAsks(asks, seller, price, 5) && price > 0 && order.owner != seller
    requires order == Buying(order.owner, price).(quantity := 5, sequence := order.sequence)
    ensures var terms, taker := TermsOf(order, Some(price), 1), TakerOf(order, price, CancelProvide);
            var queue := Queue(asks, terms);
            && |queue| == Crossing(queue, taker) == 5 && Quantity(queue[..4]) == 4 && OwnCrossing(queue, taker) == 0
            && ClearingFits(asks, terms, PLACE_LIMITS) && ToClear(asks, terms) == 0
  {
    var terms, taker := TermsOf(order, Some(price), 1), TakerOf(order, price, CancelProvide);
    assert forall i :: 0 <= i < |asks.fixed| ==> asks.fixed[i] in asks.fixed;
    AllQuoted(asks.fixed, terms);
    var queue := Queue(asks, terms);
    assert queue == Quotes(asks.fixed, 0, terms);
    PlainQueue(queue, taker, seller, price);
    PlainQueue(queue[..4], taker, seller, price);
  }

  /** Five asks against an order for five: four fills, and the rest is filed where the fifth ask is. */
  lemma FifthCrosses(asks: Two<seq<Entry>>, room: int, order: OrderInput, seller: nat, price: i64)
    requires PlainAsks(asks, seller, price, 5) && price > 0 && order.owner != seller && room == CAPACITY
    requires order == Buying(order.owner, price).(quantity := 5, sequence := order.sequence)
    ensures LateRefusal(NO_ORDERS, room, asks, order, price, 1).None?
    ensures RestCrosses(asks, order, Some(price), 1, PLACE_LIMITS)
  {
    var terms, taker := TermsOf(order, Some(price), 1), TakerOf(order, price, CancelProvide);
    PlainBook(asks, order, seller, price);
    LeafIsFiled(order);
    RestCrossesWhen(asks, order, Some(price), 1, PLACE_LIMITS);
    MetWithin(Arriving(asks, terms, 5), taker, MAX_MATCH_FILLS, MAX_PLAN_ACTIONS);
    RefusedMeetsNobody(Arriving(asks, terms, 5), taker, MAX_MATCH_FILLS, MAX_PLAN_ACTIONS);
  }

  /** Five asks and a bid for five at one price, placed one after the other: the market is left crossed. */
  method LeaveCrossed(price: i64, seller: nat, buyer: nat) returns (market: Market, r: Placing)
    requires price > 0 && seller != buyer
    ensures market.Valid() && r.Placed? && !market.Uncrossed(price, 1)
  {
    market := new Market();
    for i := 0 to 5
      invariant fresh(market) && fresh(market.bids) && fresh(market.asks) && fresh(market.bids.nodes)
                && fresh(market.asks.nodes)
      invariant market.Valid() && market.Orders(Bid) == NO_ORDERS && market.sequence == i
      invariant PlainAsks(market.Orders(Ask), seller, price, i)
    {
      PlaceAsk(market, seller, price, i);
    }
    var request := Buying(buyer, price).(quantity := 5);
    market.bids.AvailableInOrders();
    FifthCrosses(market.Orders(Ask), market.Room(Bid), request.(sequence := market.sequence + 1), seller, price);
    assert Queue(NO_ORDERS, Terms(Bid, Some(price), 1)) == [];
    r := market.Place(request, price, 1);
  }
}
