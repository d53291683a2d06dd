/**
 Price-time matching as `programs/equinox/src/book.rs` means it, on values: the
 makers that can trade form one queue, best price first and earliest sequence
 first among equals, and a taker takes from its front.
 */
module Matching {
  import opened Wrappers
  import opened OrderKeys
  import opened Patricia
  import opened ArenaLayout

  // ----- who can trade -----

  /** On what terms the makers of one side are matched. */
  datatype Terms = Terms(side: Side, oracle: Option<i64>, now: u64)

  datatype PegState = Invalid | Skipped | Valid(price: i64)

  function MakerSide(order: Order): Side {
    if order.side == 0 then Bid else Ask
  }

  function PeggedState(order: Order, oracle: Option<i64>, now: u64): PegState {
    if order.quantity == 0 || ExpiryOf(order) <= now then Invalid
    else if oracle.None? then Skipped
    else
      var price := oracle.value + order.priceOrOffset;
      if price > I64_MAX || price <= 0 then Invalid
      else if order.pegLimit <= 0 || (if order.side == 0 then price > order.pegLimit else price < order.pegLimit)
          then Invalid
      else Valid(price)
  }

  /** Orders that matching may clear away. */
  predicate Dead(tree: Bit, order: Order, terms: Terms) {
    if tree == 0 then order.quantity == 0 || ExpiryOf(order) <= terms.now
    else PeggedState(order, terms.oracle, terms.now).Invalid?
  }

  function PriceOf(tree: Bit, order: Order, terms: Terms): Option<i64> {
    if tree == 0 then if Dead(0, order, terms) then None else Some(order.priceOrOffset)
    else
      match PeggedState(order, terms.oracle, terms.now)
      case Valid(price) => Some(price)
      case _ => None
  }

  /** Resting orders carry the key of their price and sequence, as they are made, and rest on their side. */
  predicate Filed(tree: Bit, order: Order, side: Side) {
    && MakerSide(order) == side
    && if tree == 0 then PriceTimeKey(side, order.priceOrOffset, order.sequence) == Some(order.key)
       else OffsetTimeKey(side, order.priceOrOffset, order.sequence) == order.key
  }

  predicate AllFiled(es: seq<Entry>, tree: Bit, side: Side) {
    forall i :: 0 <= i < |es| ==> Filed(tree, es[i].order, side)
  }

  // ----- the queue -----

  datatype Quote = Quote(tree: Bit, slot: nat, order: Order, price: i64)

  function QuoteOf(tree: Bit, e: Entry, terms: Terms): Option<Quote> {
    var price := PriceOf(tree, e.order, terms);
    if price.Some? then Some(Quote(tree, e.slot, e.order, price.value)) else None
  }

  /** Better price, or the same and earlier. */
  predicate Ahead(side: Side, a: Quote, b: Quote) {
    (if side.Ask? then a.price < b.price else a.price > b.price)
    || (a.price == b.price && a.order.sequence < b.order.sequence)
  }

  predicate Sorted(side: Side, qs: seq<Quote>) {
    forall i, j :: 0 <= i < j < |qs| ==> Ahead(side, qs[i], qs[j])
  }

  function Quotes(es: seq<Entry>, tree: Bit, terms: Terms): seq<Quote> {
    if es == [] then []
    else
      var q := QuoteOf(tree, es[0], terms);
      (if q.Some? then [q.value] else []) + Quotes(es[1..], tree, terms)
  }

  /** Takes the better front; the first list's among equals. */
  function Merge(side: Side, a: seq<Quote>, b: seq<Quote>): seq<Quote> {
    if a == [] then b
    else if b == [] then a
    else if Ahead(side, b[0], a[0]) then [b[0]] + Merge(side, a, b[1..])
    else [a[0]] + Merge(side, a[1..], b)
  }

  function Queue(books: Two<seq<Entry>>, terms: Terms): seq<Quote> {
    Merge(terms.side, Quotes(books.fixed, 0, terms), Quotes(books.pegged, 1, terms))
  }

  lemma {:induction false} QuotesHave(es: seq<Entry>, tree: Bit, terms: Terms, q: Quote)
    ensures q in Quotes(es, tree, terms) <==> exists e :: e in es && QuoteOf(tree, e, terms) == Some(q)
  {
    if es != [] {
      QuotesHave(es[1..], tree, terms, q);
      assert es == [es[0]] + es[1..];
    }
  }

  /** Key order among the quotes of one tree is queue order. */
  lemma KeysQueue(tree: Bit, a: Entry, b: Entry, terms: Terms)
    requires Filed(tree, a.order, terms.side) && Filed(tree, b.order, terms.side) && Less(a.order.key, b.order.key)
    requires QuoteOf(tree, a, terms).Some? && QuoteOf(tree, b, terms).Some?
    ensures Ahead(terms.side, QuoteOf(tree, a, terms).value, QuoteOf(tree, b, terms).value)
  {
    var x, y := a.order, b.order;
    if tree == 0 {
      PriceTimePriority(terms.side, x.priceOrOffset, x.sequence, y.priceOrOffset, y.sequence);
    } else {
      OffsetTimePriority(terms.side, x.priceOrOffset, x.sequence, y.priceOrOffset, y.sequence);
    }
  }

  /** The first of a list is ahead of all quotes behind it. */
  lemma HeadIsAhead(es: seq<Entry>, tree: Bit, terms: Terms, r: Quote)
    requires Ascending(es) && AllFiled(es, tree, terms.side) && es != [] && r in Quotes(es[1..], tree, terms)
    ensures var q := QuoteOf(tree, es[0], terms); q.Some? ==> Ahead(terms.side, q.value, r)
  {
    QuotesHave(es[1..], tree, terms, r);
    var e :| e in es[1..] && QuoteOf(tree, e, terms) == Some(r);
    var k :| 1 <= k < |es| && es[k] == e;
    assert InOrder(es, 0, k) && Filed(tree, es[0].order, terms.side) && Filed(tree, es[k].order, terms.side);
    if QuoteOf(tree, es[0], terms).Some? { KeysQueue(tree, es[0], e, terms); }
  }

  lemma {:induction false} QuotesSorted(es: seq<Entry>, tree: Bit, terms: Terms)
    requires Ascending(es) && AllFiled(es, tree, terms.side)
    ensures Sorted(terms.side, Quotes(es, tree, terms))
  {
    if es != [] {
      AscendingTail(es);
      assert forall i :: 0 <= i < |es| - 1 ==> es[1..][i] == es[i + 1];
      QuotesSorted(es[1..], tree, terms);
      var q, rest := QuoteOf(tree, es[0], terms), Quotes(es[1..], tree, terms);
      if q.Some? {
        forall r | r in rest
          ensures Ahead(terms.side, q.value, r)
        {
          HeadIsAhead(es, tree, terms, r);
        }
        SortedCons(terms.side, q.value, rest);
      } else {
        assert [] + rest == rest;
      }
    }
  }

  /** No two of them stand at one price and sequence. */
  predicate NoTies(a: seq<Quote>, b: seq<Quote>) {
    forall x, y :: x in a && y in b ==> x.price != y.price || x.order.sequence != y.order.sequence
  }

  lemma {:induction false} MergeHas(side: Side, a: seq<Quote>, b: seq<Quote>, q: Quote)
    ensures q in Merge(side, a, b) <==> q in a || q in b
  {
    if a != [] && b != [] {
      if Ahead(side, b[0], a[0]) {
        MergeHas(side, a, b[1..], q);
        assert b == [b[0]] + b[1..];
      } else {
        MergeHas(side, a[1..], b, q);
        assert a == [a[0]] + a[1..];
      }
    }
  }

  lemma SortedCons(side: Side, q: Quote, rest: seq<Quote>)
    requires Sorted(side, rest) && forall r :: r in rest ==> Ahead(side, q, r)
    ensures Sorted(side, [q] + rest)
  {
    var qs := [q] + rest;
    forall i, j | 0 <= i < j < |qs|
      ensures Ahead(side, qs[i], qs[j])
    {
      assert qs[j] == rest[j - 1] && rest[j - 1] in rest;
    }
  }

  lemma AheadOfRest(side: Side, x: Quote, qs: seq<Quote>)
    requires Sorted(side, qs) && qs != [] && (x == qs[0] || Ahead(side, x, qs[0]))
    ensures forall r :: r in qs[1..] ==> Ahead(side, x, r)
  {
    forall r | r in qs[1..]
      ensures Ahead(side, x, r)
    {
      var j :| 1 <= j < |qs| && qs[j] == r;
      assert Ahead(side, qs[0], qs[j]);
    }
  }

  lemma {:induction false} MergeSorted(side: Side, a: seq<Quote>, b: seq<Quote>)
    requires Sorted(side, a) && Sorted(side, b) && NoTies(a, b)
    ensures Sorted(side, Merge(side, a, b))
  {
    if a != [] && b != [] {
      var x, y := a[0], b[0];
      assert x in a && y in b;
      if Ahead(side, y, x) {
        MergeSorted(side, a, b[1..]);
        AheadOfRest(side, y, b);
        AheadOfRest(side, y, a);
        forall r | r in Merge(side, a, b[1..])
          ensures Ahead(side, y, r)
        {
          MergeHas(side, a, b[1..], r);
        }
        SortedCons(side, y, Merge(side, a, b[1..]));
      } else {
        MergeSorted(side, a[1..], b);
        AheadOfRest(side, x, a);
        AheadOfRest(side, x, b);
        forall r | r in Merge(side, a[1..], b)
          ensures Ahead(side, x, r)
        {
          MergeHas(side, a[1..], b, r);
        }
        SortedCons(side, x, Merge(side, a[1..], b));
      }
    }
  }

  /** A sorted queue is determined by its members. */
  lemma {:induction false} SortedIsUnique(side: Side, a: seq<Quote>, b: seq<Quote>)
    requires Sorted(side, a) && Sorted(side, b) && forall q :: q in a <==> q in b
    ensures a == b
  {
    assert a != [] ==> a[0] in a;
    assert b != [] ==> b[0] in b;
    if a != [] {
      FirstsMeet(side, a, b);
      forall q
        ensures q in a[1..] <==> q in b[1..]
      {
        TailHas(side, a, q);
        TailHas(side, b, q);
      }
      SortedIsUnique(side, a[1..], b[1..]);
    }
  }

  lemma FirstsMeet(side: Side, a: seq<Quote>, b: seq<Quote>)
    requires Sorted(side, a) && Sorted(side, b) && a != [] && b != [] && a[0] in b && b[0] in a
    ensures a[0] == b[0]
  {
    var i :| 0 <= i < |b| && b[i] == a[0];
    var j :| 0 <= j < |a| && a[j] == b[0];
    assert i > 0 ==> Ahead(side, b[0], b[i]);
    assert j > 0 ==> Ahead(side, a[0], a[j]);
  }

  lemma TailHas(side: Side, a: seq<Quote>, q: Quote)
    requires Sorted(side, a) && a != []
    ensures q in a[1..] <==> q in a && q != a[0]
  {
    assert a == [a[0]] + a[1..];
    if q in a[1..] {
      var j :| 1 <= j < |a| && a[j] == q;
      assert Ahead(side, a[0], a[j]);
    }
  }

  // ----- taking from the queue -----

  datatype SelfTrade = AbortTransaction | CancelProvide | DecrementTake

  datatype Taker = Taker(side: Side, owner: nat, price: i64, postOnly: bool, selfTrade: SelfTrade)

  datatype Fill = Fill(maker: nat, price: i64, quantity: u64, clientOrderId: u64, makerRemaining: u64, slot: nat,
                       tree: Bit)

  /** What is left of the queue and of the taker, and what happened. */
  datatype Trading = Trading(
    queue: seq<Quote>, remaining: u64, fills: seq<Fill>, selfCancelled: nat, rejected: bool, aborted: bool)

  predicate Crosses(taker: Taker, price: i64) {
    if taker.side.Bid? then price <= taker.price else price >= taker.price
  }

  predicate Goes(t: Trading, taker: Taker, maxFills: nat) {
    && !t.rejected && !t.aborted && t.remaining > 0 && |t.fills| < maxFills
    && t.queue != [] && Crosses(taker, t.queue[0].price)
  }

  function Amount(order: Order, remaining: u64): u64 {
    if order.quantity <= remaining then order.quantity else remaining
  }

  /** A quote with less on it. */
  function Reduced(q: Quote, quantity: u64): Quote {
    q.(order := q.order.(quantity := quantity))
  }

  function FillOf(q: Quote, amount: u64): Fill
    requires amount <= q.order.quantity
  {
    Fill(q.order.owner, q.price, amount, q.order.clientOrderId, q.order.quantity - amount, q.slot, q.tree)
  }

  /** One maker met. */
  function Meet(t: Trading, taker: Taker): Trading
    requires t.queue != []
  {
    var q, rest := t.queue[0], t.queue[1..];
    var amount := Amount(q.order, t.remaining);
    if taker.postOnly then t.(rejected := true)
    else if q.order.owner == taker.owner then
      match taker.selfTrade
      case AbortTransaction => t.(aborted := true)
      case CancelProvide => t.(queue := rest, selfCancelled := t.selfCancelled + 1)
      case DecrementTake => t.(queue := rest, remaining := t.remaining - amount, selfCancelled := t.selfCancelled + 1)
    else
      t.(queue := if amount == q.order.quantity then rest else [Reduced(q, q.order.quantity - amount)] + rest,
         remaining := t.remaining - amount, fills := t.fills + [FillOf(q, amount)])
  }

  /** At most `steps` makers met. */
  function Trade(t: Trading, taker: Taker, maxFills: nat, steps: nat): Trading
    decreases steps
  {
    if steps == 0 || !Goes(t, taker, maxFills) then t else Trade(Meet(t, taker), taker, maxFills, steps - 1)
  }

  /** `now` is where `start` comes to in `steps` steps. */
  ghost predicate Comes(start: Trading, now: Trading, taker: Taker, maxFills: nat, steps: nat) {
    forall k: nat :: Trade(start, taker, maxFills, steps + k) == Trade(now, taker, maxFills, k)
  }

  lemma ComesFurther(start: Trading, now: Trading, taker: Taker, maxFills: nat, steps: nat)
    requires Comes(start, now, taker, maxFills, steps) && Goes(now, taker, maxFills)
    ensures Comes(start, Meet(now, taker), taker, maxFills, steps + 1)
  {
    forall k: nat
      ensures Trade(start, taker, maxFills, steps + 1 + k) == Trade(Meet(now, taker), taker, maxFills, k)
    {
      assert Trade(start, taker, maxFills, steps + (k + 1)) == Trade(now, taker, maxFills, k + 1);
    }
  }

  /** Where nothing goes on, any number of steps ends. */
  lemma ComesToEnd(start: Trading, now: Trading, taker: Taker, maxFills: nat, steps: nat, all: nat)
    requires Comes(start, now, taker, maxFills, steps) && steps <= all && (Goes(now, taker, maxFills) ==> steps == all)
    ensures Trade(start, taker, maxFills, all) == now
  {
    assert Trade(start, taker, maxFills, steps + (all - steps)) == Trade(now, taker, maxFills, all - steps);
  }

  lemma SortedTail(side: Side, qs: seq<Quote>)
    requires Sorted(side, qs) && qs != []
    ensures Sorted(side, qs[1..])
  {}

  /** Meeting a maker keeps the queue in order. */
  lemma MeetKeepsOrder(side: Side, t: Trading, taker: Taker)
    requires Sorted(side, t.queue) && t.queue != []
    ensures Sorted(side, Meet(t, taker).queue)
  {
    SortedTail(side, t.queue);
    AheadOfRest(side, t.queue[0], t.queue);
    SortedCons(side, Reduced(t.queue[0], t.queue[0].order.quantity - Amount(t.queue[0].order, t.remaining)),
               t.queue[1..]);
  }

  function Filled(fills: seq<Fill>): nat {
    if fills == [] then 0 else Filled(fills[..|fills| - 1]) + fills[|fills| - 1].quantity
  }

  /** Makers that a trading has acted on. */
  function Met(t: Trading): nat {
    |t.fills| + t.selfCancelled
  }

  /** The taker gives up at this maker. */
  predicate Abstains(taker: Taker, q: Quote) {
    taker.postOnly || (q.order.owner == taker.owner && taker.selfTrade == AbortTransaction)
  }

  /** The taker's own orders among the first `n`, which a decrementing taker leaves where they are. */
  function PassedOver(queue: seq<Quote>, taker: Taker, n: nat): seq<Quote>
    requires n <= |queue|
  {
    if n == 0 || taker.selfTrade != DecrementTake then []
    else (if queue[0].order.owner == taker.owner then [queue[0]] else []) + PassedOver(queue[1..], taker, n - 1)
  }

  lemma {:induction false} PassedOverSnoc(queue: seq<Quote>, taker: Taker, n: nat)
    requires n < |queue|
    ensures PassedOver(queue, taker, n + 1)
         == PassedOver(queue, taker, n)
            + if queue[n].order.owner == taker.owner && taker.selfTrade == DecrementTake then [queue[n]] else []
  {
    if n > 0 && taker.selfTrade == DecrementTake { PassedOverSnoc(queue[1..], taker, n - 1); }
  }

  function Quantity(qs: seq<Quote>): nat {
    if qs == [] then 0 else qs[0].order.quantity + Quantity(qs[1..])
  }

  /** What the taker brings is filled, remains, or is given up against own orders passed over: all that is on
      them, unless the taker ends there. */
  predicate Balanced(t: Trading, end: Trading, taker: Taker) {
    var n, left, brought := Met(end) - Met(t), end.remaining + Filled(end.fills), t.remaining + Filled(t.fills);
    && 0 <= n <= |t.queue|
    && left <= brought <= left + Quantity(PassedOver(t.queue, taker, n))
    && (end.remaining > 0 ==> brought == left + Quantity(PassedOver(t.queue, taker, n)))
  }

  /** A maker met is gone, or it ends the taker; an own order costs the taker at most what is on it. */
  predicate MetOne(t: Trading, next: Trading, taker: Taker)
    requires t.queue != []
  {
    var own, on := t.queue[0].order.owner == taker.owner, t.queue[0].order.quantity;
    && Met(next) == Met(t) + 1
    && (next.queue == t.queue[1..] || (next.remaining == 0 && !own))
    && (if own && taker.selfTrade == DecrementTake then
          && next.fills == t.fills && next.remaining <= t.remaining <= next.remaining + on
          && (next.remaining > 0 ==> t.remaining == next.remaining + on)
        else next.remaining + Filled(next.fills) == t.remaining + Filled(t.fills))
  }

  lemma MeetOne(t: Trading, taker: Taker)
    requires t.queue != [] && !Abstains(taker, t.queue[0])
    ensures MetOne(t, Meet(t, taker), taker)
  {
    var q := t.queue[0];
    assert (t.fills + [FillOf(q, Amount(q.order, t.remaining))])[..|t.fills|] == t.fills;
  }

  lemma PassedOverCons(queue: seq<Quote>, taker: Taker, n: nat)
    requires n < |queue|
    ensures Quantity(PassedOver(queue, taker, n + 1))
         == (if queue[0].order.owner == taker.owner && taker.selfTrade == DecrementTake then queue[0].order.quantity
             else 0)
            + Quantity(PassedOver(queue[1..], taker, n))
  {
    var rest := PassedOver(queue[1..], taker, n);
    assert ([queue[0]] + rest)[1..] == rest && [] + rest == rest;
  }

  lemma {:induction false} TradeConserves(t: Trading, taker: Taker, maxFills: nat, steps: nat)
    ensures Balanced(t, Trade(t, taker, maxFills, steps), taker)
    decreases steps
  {
    if steps > 0 && Goes(t, taker, maxFills) {
      var next, end := Meet(t, taker), Trade(t, taker, maxFills, steps);
      if Abstains(taker, t.queue[0]) {
        assert end == next;
      } else {
        MeetOne(t, taker);
        TradeConserves(next, taker, maxFills, steps - 1);
        if next.remaining == 0 { assert end == next; }
        BalancedOn(t, next, end, taker);
      }
    }
  }

  lemma BalancedOn(t: Trading, next: Trading, end: Trading, taker: Taker)
    requires t.queue != [] && MetOne(t, next, taker) && Balanced(next, end, taker)
             && (next.remaining == 0 ==> end == next)
    ensures Balanced(t, end, taker)
  {
    PassedOverCons(t.queue, taker, Met(end) - Met(next));
  }

  /** The first `n` makers cross and are gone; the last of them may stay with less on it when that ends the taker. */
  predicate FrontMet(before: seq<Quote>, end: Trading, taker: Taker, n: nat) {
    && n <= |before| && (forall i :: 0 <= i < n ==> Crosses(taker, before[i].price))
    && (end.queue == before[n..]
        || (n > 0 && end.remaining == 0 && before[n - 1].order.owner != taker.owner && end.queue != []
            && end.queue == [Reduced(before[n - 1], end.queue[0].order.quantity)] + before[n..]
            && end.queue[0].order.quantity < before[n - 1].order.quantity))
  }

  /** Priority: the makers met are the first ones, and nobody behind them is touched. */
  lemma {:induction false} TradeTakesFront(t: Trading, taker: Taker, maxFills: nat, steps: nat)
    ensures var end := Trade(t, taker, maxFills, steps);
            Met(end) >= Met(t) && FrontMet(t.queue, end, taker, Met(end) - Met(t))
    decreases steps
  {
    if steps > 0 && Goes(t, taker, maxFills) {
      var next, end := Meet(t, taker), Trade(t, taker, maxFills, steps);
      if Abstains(taker, t.queue[0]) {
        assert end == next;
      } else {
        MeetOne(t, taker);
        if next.queue == t.queue[1..] {
          TradeTakesFront(next, taker, maxFills, steps - 1);
          FrontMetCons(t.queue, end, taker, Met(end) - Met(next));
        } else {
          FrontMetLast(t, taker);
          assert end == next;
        }
      }
    }
  }

  lemma FrontMetLast(t: Trading, taker: Taker)
    requires t.queue != [] && !Abstains(taker, t.queue[0]) && Crosses(taker, t.queue[0].price) && t.remaining > 0
    requires Meet(t, taker).queue != t.queue[1..]
    ensures FrontMet(t.queue, Meet(t, taker), taker, 1)
  {}

  lemma FrontMetCons(before: seq<Quote>, end: Trading, taker: Taker, n: nat)
    requires before != [] && Crosses(taker, before[0].price) && FrontMet(before[1..], end, taker, n)
    ensures FrontMet(before, end, taker, n + 1)
  {
    assert before[1..][n..] == before[n + 1..];
    forall i | 0 <= i < n + 1
      ensures Crosses(taker, before[i].price)
    {
      if i > 0 { assert before[1..][i - 1] == before[i]; }
    }
  }

  /** How many makers at the front cross. */
  function Crossing(queue: seq<Quote>, taker: Taker): nat {
    if queue == [] || !Crosses(taker, queue[0].price) then 0 else 1 + Crossing(queue[1..], taker)
  }

  lemma {:induction false} CrossingSplit(queue: seq<Quote>, taker: Taker, n: nat)
    requires n <= |queue| && forall i :: 0 <= i < n ==> Crosses(taker, queue[i].price)
    ensures Crossing(queue, taker) == n + Crossing(queue[n..], taker)
  {
    if n > 0 {
      assert queue[1..][n - 1..] == queue[n..];
      assert forall i :: 0 <= i < n - 1 ==> queue[1..][i] == queue[i + 1];
      CrossingSplit(queue[1..], taker, n - 1);
    }
  }

  /** What remains of a taker still crosses exactly when more makers crossed than were met. */
  lemma RestCrossesIff(t: Trading, taker: Taker, maxFills: nat, steps: nat)
    ensures var end := Trade(t, taker, maxFills, steps);
            end.remaining > 0 ==> (Crossing(end.queue, taker) > 0 <==> Crossing(t.queue, taker) > Met(end) - Met(t))
  {
    TradeTakesFront(t, taker, maxFills, steps);
    CrossingSplit(t.queue, taker, Met(Trade(t, taker, maxFills, steps)) - Met(t));
  }

  /** The taker's own orders that cross. */
  function OwnCrossing(queue: seq<Quote>, taker: Taker): nat {
    if queue == [] then 0
    else
      (if queue[0].order.owner == taker.owner && Crosses(taker, queue[0].price) then 1 else 0)
      + OwnCrossing(queue[1..], taker)
  }

  lemma {:induction false} CancelsAreOwn(t: Trading, taker: Taker, maxFills: nat, steps: nat)
    ensures Trade(t, taker, maxFills, steps).selfCancelled <= t.selfCancelled + OwnCrossing(t.queue, taker)
    decreases steps
  {
    if steps > 0 && Goes(t, taker, maxFills) {
      var next := Meet(t, taker);
      CancelsAreOwn(next, taker, maxFills, steps - 1);
      if next.queue != t.queue[1..] { assert Trade(next, taker, maxFills, steps - 1) == next; }
    }
  }

  // ----- the heads of the two books -----

  /** Orders that cannot trade and have not expired. */
  function CountStale(es: seq<Entry>, tree: Bit, terms: Terms): nat {
    if es == [] then 0
    else
      (if Dead(tree, es[0].order, terms) && !Expired(es[0], terms.now) then 1 else 0)
      + CountStale(es[1..], tree, terms)
  }

  function CountDead(es: seq<Entry>, tree: Bit, terms: Terms): nat {
    if es == [] then 0 else (if Dead(tree, es[0].order, terms) then 1 else 0) + CountDead(es[1..], tree, terms)
  }

  /** Once the expired are gone, the stale are all that is dead. */
  lemma {:induction false} SweptDead(es: seq<Entry>, tree: Bit, terms: Terms)
    ensures CountDead(Unexpired(es, terms.now), tree, terms) == CountStale(es, tree, terms)
    ensures Quotes(Unexpired(es, terms.now), tree, terms) == Quotes(es, tree, terms)
  {
    if es != [] {
      SweptDead(es[1..], tree, terms);
      var rest := Unexpired(es[1..], terms.now);
      if Expired(es[0], terms.now) {
        assert [] + rest == rest;
      } else {
        assert ([es[0]] + rest)[1..] == rest;
      }
    }
  }

  predicate DeadHead(es: seq<Entry>, tree: Bit, terms: Terms) {
    es != [] && Dead(tree, es[0].order, terms)
  }

  lemma DropDead(es: seq<Entry>, tree: Bit, terms: Terms)
    requires DeadHead(es, tree, terms)
    ensures Quotes(es[1..], tree, terms) == Quotes(es, tree, terms)
    ensures CountDead(es, tree, terms) == 1 + CountDead(es[1..], tree, terms)
  {
    assert QuoteOf(tree, es[0], terms).None?;
    assert [] + Quotes(es[1..], tree, terms) == Quotes(es[1..], tree, terms);
  }

  function HeadQuote(es: seq<Entry>, tree: Bit, terms: Terms): Option<Quote> {
    if es == [] then None else QuoteOf(tree, es[0], terms)
  }

  lemma {:induction false} NoOracleNoQuotes(es: seq<Entry>, terms: Terms)
    requires terms.oracle.None?
    ensures Quotes(es, 1, terms) == []
  {
    if es != [] { NoOracleNoQuotes(es[1..], terms); }
  }

  /** Of a list whose head is not dead, the head is the first quote, if there is one at all. */
  lemma HeadIsFirst(es: seq<Entry>, tree: Bit, terms: Terms)
    requires !DeadHead(es, tree, terms)
    ensures var qs, q := Quotes(es, tree, terms), HeadQuote(es, tree, terms);
            && (q.None? <==> qs == [])
            && (q.Some? ==> qs == [q.value] + Quotes(es[1..], tree, terms))
  {
    if tree == 1 && terms.oracle.None? { NoOracleNoQuotes(es, terms); }
  }

  /** The better of the two heads; the fixed one among equals. */
  function Candidate(books: Two<seq<Entry>>, terms: Terms): (q: Option<Quote>)
    ensures q.Some? ==>
              && q.value.order.quantity > 0
              && books.At(q.value.tree) != [] && books.At(q.value.tree)[0] == Entry(q.value.slot, q.value.order)
  {
    var a, b := HeadQuote(books.fixed, 0, terms), HeadQuote(books.pegged, 1, terms);
    if a.None? || (b.Some? && Ahead(terms.side, b.value, a.value)) then b else a
  }

  /** With no dead head, the better head is the front of the queue. */
  lemma CandidateIsFront(books: Two<seq<Entry>>, terms: Terms)
    requires !DeadHead(books.fixed, 0, terms) && !DeadHead(books.pegged, 1, terms)
    ensures var q, queue := Candidate(books, terms), Queue(books, terms);
            && (q.None? <==> queue == [])
            && (q.Some? ==>
                  && queue != [] && queue[0] == q.value
                  && HeadQuote(books.At(q.value.tree), q.value.tree, terms) == q)
            && (q.Some? ==> queue[1..] == Queue(books.With(q.value.tree, books.At(q.value.tree)[1..]), terms))
  {
    HeadIsFirst(books.fixed, 0, terms);
    HeadIsFirst(books.pegged, 1, terms);
    var q := Candidate(books, terms);
    if q.Some? {
      var a, b := Quotes(books.fixed, 0, terms), Quotes(books.pegged, 1, terms);
      if q.value.tree == 0 {
        assert a[1..] == Quotes(books.fixed[1..], 0, terms);
      } else {
        assert b[1..] == Quotes(books.pegged[1..], 1, terms);
      }
    }
  }
}
