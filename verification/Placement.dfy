/**
 `place_order_core` of `programs/equinox/src/handlers.rs` over the two arenas of a
 market: an order is planned against the opposing arena, the plan is checked, and
 only then is it applied and the rest filed. Seats, margins, fees and events are
 not part of it.
 */
module Placement {
  import opened Wrappers
  import opened OrderKeys
  import opened Patricia
  import opened ArenaLayout
  import opened ArenaScan
  import opened BookArena
  import opened Matching
  import opened MatchEngine
  import opened MatchPlan
  import opened Settlement

  const PLACE_LIMITS := Limits(MAX_MATCH_FILLS, 4, 2)

  datatype Refusal =
    InvalidInstruction | OracleUnavailable | ArithmeticOverflow | SelfTradeAborted | OfBook(error: BookError)

  datatype Placing = Placed(plan: Plan) | Refused(why: Refusal)

  // ----- the check before a plan is applied -----

  function Removals(actions: seq<Action>): nat {
    if actions == [] then 0
    else Removals(actions[..|actions| - 1]) + if actions[|actions| - 1].remove then 1 else 0
  }

  lemma RemovalsSnoc(actions: seq<Action>, i: nat)
    requires i < |actions|
    ensures Removals(actions[..i + 1]) == Removals(actions[..i]) + if actions[i].remove then 1 else 0
  {
    assert actions[..i + 1][..i] == actions[..i];
  }

  lemma FiledEntry(books: Two<seq<Entry>>, side: Side, tree: Bit, e: Entry)
    requires BooksFiled(books, side) && e in books.At(tree)
    ensures Filed(tree, e.order, side)
  {
    var i :| 0 <= i < |books.At(tree)| && books.At(tree)[i] == e;
    assert Filed(tree, books.At(tree)[i].order, side);
  }

  /** Looks an action's order up; None stands for one that is not as the plan expects it. */
  method OrderOf(arena: Arena, a: Action) returns (order: Option<Order>)
    requires arena.Valid() && BooksFiled(arena.Books(), a.side) && Rests(arena.Books(), a)
    ensures order.Some? && MakerSide(order.value) == a.side
  {
    ghost var e :| Names(arena.Books(), a, e);
    EntryIsLeaf(arena.Value(), arena.trees, arena.free, a.tree, e);
    FiledEntry(arena.Books(), a.side, a.tree, e);
    var handle := arena.Find(a.tree, a.key);
    if handle != Ok(a.slot) {
      return None;
    }
    order := Some(arena.nodes[a.slot].order);
    if order.value.owner != a.owner || order.value.quantity != a.expectedQuantity {
      return None;
    }
  }

  /** Goes through the actions and counts the orders removed on each side. Of a plan just made each is found as
      expected, and none is removed on the taker's own side. */
  method CountRemoved(own: Arena, opposing: Arena, side: Side, actions: seq<Action>)
    returns (removed: Option<(nat, nat)>)
    requires own.Valid() && opposing.Valid() && BooksFiled(opposing.Books(), Opposite(side))
    requires Grounded(opposing.Books(), actions) && OnSide(actions, Opposite(side))
    ensures removed == Some(if side.Bid? then (0, Removals(actions)) else (Removals(actions), 0))
  {
    var bids, asks := 0, 0;
    for i := 0 to |actions|
      invariant if side.Bid? then bids == 0 && asks == Removals(actions[..i])
                else asks == 0 && bids == Removals(actions[..i])
    {
      var a := actions[i];
      RemovalsSnoc(actions, i);
      assert Rests(opposing.Books(), actions[i]) && a.side == Opposite(side);
      var order := OrderOf(if a.side == side then own else opposing, a);
      if order.None? {
        return None;
      }
      if a.remove {
        if MakerSide(order.value).Bid? {
          bids := bids + 1;
        } else {
          asks := asks + 1;
        }
      }
    }
    assert actions[..|actions|] == actions;
    return Some((bids, asks));
  }

  /** The check of a plan: its answer is the one that filing the rest gives afterwards. */
  method CheckPlan(own: Arena, opposing: Arena, order: OrderInput, plan: Plan) returns (error: Option<Refusal>)
    requires own.Valid() && opposing.Valid() && BooksFiled(opposing.Books(), Opposite(order.side))
    requires Grounded(opposing.Books(), plan.actions) && OnSide(plan.actions, Opposite(order.side))
    ensures var filing := FilingError(own.Books(), own.Available(), order);
            error == if plan.remaining > 0 && !order.immediate && filing.Some? then Some(OfBook(filing.value)) else None
  {
    var removed := CountRemoved(own, opposing, order.side, plan.actions);
    if removed.None? {
      return Some(InvalidInstruction);
    }
    if plan.remaining == 0 || order.immediate {
      return None;
    }
    LeafIsFiled(order);
    var leaf := LeafOf(order);
    if leaf.None? {
      return Some(OfBook(BadPrice));
    }
    var room := own.CanInsert(order.tree, leaf.value.key, if order.side.Bid? then removed.value.0 else removed.value.1);
    return if room.Err? then Some(OfBook(room.error)) else None;
  }

  // ----- numbers and keys -----

  /** The orders were given numbers up to this one. */
  ghost predicate Numbered(books: Two<seq<Entry>>, sequence: u64) {
    forall b: Bit, e :: e in books.At(b) ==> e.order.sequence <= sequence
  }

  /** What every run keeps of the orders of one side. */
  ghost predicate Kept(books: Two<seq<Entry>>, side: Side, sequence: u64) {
    BooksFiled(books, side) && Unrepeated(books) && Numbered(books, sequence)
  }

  /** An order with a new number has a new key. */
  lemma NewKey(books: Two<seq<Entry>>, order: OrderInput, sequence: u64)
    requires Kept(books, order.side, sequence) && sequence < order.sequence && LeafOf(order).Some?
    ensures !Resting(books.At(order.tree), LeafOf(order).value.key)
  {
    LeafIsFiled(order);
    forall e | e in books.At(order.tree)
      ensures e.order.key != LeafOf(order).value.key
    {
      FiledEntry(books, order.side, order.tree, e);
      if order.tree == 0 {
        if e.order.priceOrOffset > 0 {
          PriceTimePriority(order.side, e.order.priceOrOffset, e.order.sequence, order.priceOrOffset, order.sequence);
        }
      } else {
        OffsetTimePriority(order.side, e.order.priceOrOffset, e.order.sequence, order.priceOrOffset, order.sequence);
      }
    }
  }

  lemma KeptLonger(books: Two<seq<Entry>>, side: Side, sequence: u64, later: u64)
    requires Kept(books, side, sequence) && sequence <= later
    ensures Kept(books, side, later)
  {}

  lemma RestHas(books: Two<seq<Entry>>, order: OrderInput, remaining: u64, slot: nat, b: Bit, e: Entry)
    requires LeafOf(order).Some? && e in WithRest(books, order, remaining, slot).At(b)
    ensures e in books.At(b) || (b == order.tree && e.order.sequence == order.sequence)
  {
    InsertedElements(books.At(order.tree), Entry(slot, LeafOf(order.(quantity := remaining)).value));
  }

  lemma KeptWithRest(books: Two<seq<Entry>>, order: OrderInput, remaining: u64, slot: nat, sequence: u64)
    requires Kept(books, order.side, sequence) && sequence < order.sequence && LeafOf(order).Some?
    ensures Kept(WithRest(books, order, remaining, slot), order.side, order.sequence)
  {
    RestIsFiled(books, order, remaining, slot);
    var books' := WithRest(books, order, remaining, slot);
    forall b: Bit, e | e in books'.At(b)
      ensures e.order.sequence <= order.sequence
    {
      RestHas(books, order, remaining, slot, b, e);
    }
    forall d, e | d in books'.fixed && e in books'.pegged
      ensures d.order.sequence != e.order.sequence
    {
      RestHas(books, order, remaining, slot, 0, d);
      RestHas(books, order, remaining, slot, 1, e);
      assert d in books.At(0) ==> d.order.sequence <= sequence;
      assert e in books.At(1) ==> e.order.sequence <= sequence;
    }
  }

  lemma StemsNumbered(books: Two<seq<Entry>>, books': Two<seq<Entry>>, sequence: u64)
    requires Stems(books, books') && Numbered(books, sequence)
    ensures Numbered(books', sequence)
  {
    forall b: Bit, x | x in books'.At(b)
      ensures x.order.sequence <= sequence
    {
      assert WasThere(books.At(b), x);
    }
  }

  // ----- crossed books -----

  /** A price of this side reaches one of the other. */
  predicate Faces(side: Side, price: i64, other: i64) {
    if side.Bid? then other <= price else other >= price
  }

  ghost predicate NoneFaces(side: Side, own: seq<Quote>, opposing: seq<Quote>) {
    forall x, y :: x in own && y in opposing ==> !Faces(side, x.price, y.price)
  }

  lemma ApartEitherWay(own: seq<Quote>, opposing: seq<Quote>)
    ensures NoneFaces(Bid, own, opposing) <==> NoneFaces(Ask, opposing, own)
  {}

  function OwnTerms(order: OrderInput, oracle: Option<i64>, now: u64): Terms {
    Terms(order.side, oracle, now)
  }

  /** The rest of an order, once filed, can trade, and a maker stays that it crosses: more makers cross than are met, or
      own orders are passed over. */
  predicate RestCrosses(books: Two<seq<Entry>>, order: OrderInput, oracle: Option<i64>, now: u64, limits: Limits)
    requires TakerPrice(order, oracle).Some?
  {
    var queue, end := Queue(books, TermsOf(order, oracle, now)), Outcome(books, order, oracle, now, limits);
    var taker := TakerOf(order, TakerPrice(order, oracle).value, order.selfTrade);
    && Files(end, order) && LeafOf(order).Some?
       && PriceOf(order.tree, LeafOf(order).value, OwnTerms(order, oracle, now)).Some?
    && (Crossing(queue, taker) > Met(end) || (Met(end) <= |queue| && PassedOver(queue, taker, Met(end)) != []))
  }

  /** Prices in the queue after are prices in the queue before. */
  lemma OldPrice(queue: seq<Quote>, end: Trading, taker: Taker, n: nat, y: Quote)
    requires FrontMet(queue, end, taker, n) && y in PassedOver(queue, taker, n) + end.queue
    ensures exists x :: x in queue && x.price == y.price
  {
    if y in end.queue {
      var j :| 0 <= j < |end.queue| && end.queue[j] == y;
      var x := if end.queue == queue[n..] then queue[n + j] else if j == 0 then queue[n - 1] else queue[n + j - 1];
      assert x in queue && x.price == y.price;
    } else {
      var i := PassedOverIn(queue, taker, n, y);
      assert queue[i] in queue;
    }
  }

  /** In a queue in order none crosses if the front does not. */
  lemma FrontCrossesFirst(side: Side, queue: seq<Quote>, taker: Taker, y: Quote)
    requires Sorted(side, queue) && side == Opposite(taker.side) && y in queue && Crosses(taker, y.price)
    ensures Crossing(queue, taker) > 0
  {
    FrontLeads(side, queue, y);
  }

  /** A maker that crosses stays exactly if more cross than are met, or own orders are passed over. */
  lemma StaysCrossingIff(books: Two<seq<Entry>>, order: OrderInput, oracle: Option<i64>, now: u64, limits: Limits)
    requires TakerPrice(order, oracle).Some?
    requires var terms, end := TermsOf(order, oracle, now), Outcome(books, order, oracle, now, limits);
             Sorted(terms.side, Queue(books, terms)) && Sorted(terms.side, end.queue) && end.remaining > 0
             && Met(end) <= |Queue(books, terms)|
    ensures var terms, end := TermsOf(order, oracle, now), Outcome(books, order, oracle, now, limits);
            var taker := TakerOf(order, TakerPrice(order, oracle).value, order.selfTrade);
            (exists y :: y in QueueAfter(books, terms, taker, end) && Crosses(taker, y.price))
            <==>
              Crossing(Queue(books, terms), taker) > Met(end) || PassedOver(Queue(books, terms), taker, Met(end)) != []
  {
    var terms, end := TermsOf(order, oracle, now), Outcome(books, order, oracle, now, limits);
    var taker, queue := TakerOf(order, TakerPrice(order, oracle).value, order.selfTrade), Queue(books, terms);
    OutcomeTakesFront(books, order, oracle, now, limits);
    RestCrossesIff(Arriving(books, terms, order.quantity), taker, limits.maxFills, MAX_PLAN_ACTIONS);
    PassedCross(queue, end, taker, Met(end));
    AnyCrossesIff(terms.side, PassedOver(queue, taker, Met(end)), end.queue, taker);
  }

  lemma PassedCross(queue: seq<Quote>, end: Trading, taker: Taker, n: nat)
    requires FrontMet(queue, end, taker, n)
    ensures forall q :: q in PassedOver(queue, taker, n) ==> Crosses(taker, q.price)
  {
    forall q | q in PassedOver(queue, taker, n)
      ensures Crosses(taker, q.price)
    {
      var i := PassedOverIn(queue, taker, n, q);
    }
  }

  lemma AnyCrossesIff(side: Side, passed: seq<Quote>, queue: seq<Quote>, taker: Taker)
    requires Sorted(side, queue) && side == Opposite(taker.side) && forall q :: q in passed ==> Crosses(taker, q.price)
    ensures (exists y :: y in passed + queue && Crosses(taker, y.price)) <==> passed != [] || Crossing(queue, taker) > 0
  {
    if passed != [] {
      assert passed[0] in passed && passed[0] in passed + queue;
    } else {
      assert passed + queue == queue;
      if Crossing(queue, taker) > 0 { assert queue[0] in queue; }
      forall y | y in queue && Crosses(taker, y.price)
        ensures Crossing(queue, taker) > 0
      {
        FrontCrossesFirst(side, queue, taker, y);
      }
    }
  }

  /** Filing adds the rest to its side's queue, if it can trade, and nothing else. */
  lemma WithRestHas(own: Two<seq<Entry>>, order: OrderInput, remaining: u64, slot: nat, terms: Terms, q: Quote)
    requires LeafOf(order).Some?
    ensures q in Queue(WithRest(own, order, remaining, slot), terms) <==>
            || q in Queue(own, terms)
            || QuoteOf(order.tree, Entry(slot, LeafOf(order.(quantity := remaining)).value), terms) == Some(q)
  {
    var e := Entry(slot, LeafOf(order.(quantity := remaining)).value);
    var own' := WithRest(own, order, remaining, slot);
    InsertedElements(own.At(order.tree), e);
    QueueHas(own, terms, q);
    QueueHas(own', terms, q);
    if q in Queue(own', terms) {
      var x :| x in own'.At(q.tree) && QuoteOf(q.tree, x, terms) == Some(q);
    }
    if q in Queue(own, terms) {
      var x :| x in own.At(q.tree) && QuoteOf(q.tree, x, terms) == Some(q);
      assert x in own'.At(q.tree);
    }
    if QuoteOf(order.tree, e, terms) == Some(q) { assert e in own'.At(q.tree); }
  }

  /** The rest trades at the taker's price, if it can trade. */
  lemma RestQuote(order: OrderInput, remaining: u64, slot: nat, oracle: Option<i64>, now: u64)
    requires LeafOf(order).Some? && remaining > 0 && order.quantity > 0 && TakerPrice(order, oracle).Some?
    ensures var q := QuoteOf(order.tree, Entry(slot, LeafOf(order.(quantity := remaining)).value),
                             OwnTerms(order, oracle, now));
            && (q.Some? <==> PriceOf(order.tree, LeafOf(order).value, OwnTerms(order, oracle, now)).Some?)
            && (q.Some? ==> q.value.price == TakerPrice(order, oracle).value)
  {}

  /** What the filed rest faces on the other side. */
  lemma RestFaces(books: Two<seq<Entry>>, order: OrderInput, oracle: Option<i64>, now: u64, limits: Limits, slot: nat)
    requires TakerPrice(order, oracle).Some? && order.quantity > 0 && LeafOf(order).Some?
    requires var terms, end := TermsOf(order, oracle, now), Outcome(books, order, oracle, now, limits);
             Sorted(terms.side, Queue(books, terms)) && Sorted(terms.side, end.queue) && Files(end, order)
             && Met(end) <= |Queue(books, terms)|
    ensures var terms, end := TermsOf(order, oracle, now), Outcome(books, order, oracle, now, limits);
            var taker := TakerOf(order, TakerPrice(order, oracle).value, order.selfTrade);
            var x := QuoteOf(order.tree, Entry(slot, LeafOf(order.(quantity := end.remaining)).value),
                             OwnTerms(order, oracle, now));
            (x.Some? && exists y ::
               y in QueueAfter(books, terms, taker, end) && Faces(order.side, x.value.price, y.price))
            <==> RestCrosses(books, order, oracle, now, limits)
  {
    var terms, end := TermsOf(order, oracle, now), Outcome(books, order, oracle, now, limits);
    var taker := TakerOf(order, TakerPrice(order, oracle).value, order.selfTrade);
    StaysCrossingIff(books, order, oracle, now, limits);
    RestQuote(order, end.remaining, slot, oracle, now);
    assert forall p: i64 :: Faces(order.side, taker.price, p) <==> Crosses(taker, p);
  }

  /** Sides that were apart stay apart if and only if no rest is filed that crosses. */
  lemma StaysApartIff(own: Two<seq<Entry>>, own': Two<seq<Entry>>, books: Two<seq<Entry>>, order: OrderInput,
                      oracle: Option<i64>, now: u64, limits: Limits, slot: nat)
    requires TakerPrice(order, oracle).Some? && order.quantity > 0
    requires var terms, end := TermsOf(order, oracle, now), Outcome(books, order, oracle, now, limits);
             && Sorted(terms.side, Queue(books, terms)) && Sorted(terms.side, end.queue)
             && Met(end) <= |Queue(books, terms)| && RestFiled(own, own', order, end, slot)
             && NoneFaces(order.side, Queue(own, OwnTerms(order, oracle, now)), Queue(books, terms))
    ensures var terms, end := TermsOf(order, oracle, now), Outcome(books, order, oracle, now, limits);
            var taker := TakerOf(order, TakerPrice(order, oracle).value, order.selfTrade);
            NoneFaces(order.side, Queue(own', OwnTerms(order, oracle, now)), QueueAfter(books, terms, taker, end))
            <==> !RestCrosses(books, order, oracle, now, limits)
  {
    var terms, end := TermsOf(order, oracle, now), Outcome(books, order, oracle, now, limits);
    var taker := TakerOf(order, TakerPrice(order, oracle).value, order.selfTrade);
    var before, after := Queue(own, OwnTerms(order, oracle, now)), QueueAfter(books, terms, taker, end);
    OldApart(before, books, order, oracle, now, limits);
    if Files(end, order) {
      RestFaces(books, order, oracle, now, limits, slot);
      var x := QuoteOf(order.tree, Entry(slot, LeafOf(order.(quantity := end.remaining)).value),
                       OwnTerms(order, oracle, now));
      var queue' := Queue(own', OwnTerms(order, oracle, now));
      forall q
        ensures q in queue' <==> q in before || x == Some(q)
      {
        WithRestHas(own, order, end.remaining, slot, OwnTerms(order, oracle, now), q);
      }
      JoinsApart(order.side, before, queue', after, x);
    }
  }

  lemma JoinsApart(side: Side, before: seq<Quote>, queue': seq<Quote>, after: seq<Quote>, x: Option<Quote>)
    requires NoneFaces(side, before, after) && forall q :: q in queue' <==> q in before || x == Some(q)
    ensures NoneFaces(side, queue', after)
       <==> !(x.Some? && exists y :: y in after && Faces(side, x.value.price, y.price))
  {
    if x.Some? { assert x.value in queue'; }
  }

  /** The orders that rested stay apart from what is left. */
  lemma OldApart(own: seq<Quote>, books: Two<seq<Entry>>, order: OrderInput, oracle: Option<i64>, now: u64,
                 limits: Limits)
    requires TakerPrice(order, oracle).Some?
    requires NoneFaces(order.side, own, Queue(books, TermsOf(order, oracle, now)))
    requires Met(Outcome(books, order, oracle, now, limits)) <= |Queue(books, TermsOf(order, oracle, now))|
    ensures NoneFaces(order.side, own, QueueAfter(books, TermsOf(order, oracle, now),
                                              TakerOf(order, TakerPrice(order, oracle).value, order.selfTrade),
                                              Outcome(books, order, oracle, now, limits)))
  {
    var terms, end := TermsOf(order, oracle, now), Outcome(books, order, oracle, now, limits);
    var taker := TakerOf(order, TakerPrice(order, oracle).value, order.selfTrade);
    OutcomeTakesFront(books, order, oracle, now, limits);
    forall x, y | x in own && y in QueueAfter(books, terms, taker, end)
      ensures !Faces(order.side, x.price, y.price)
    {
      OldPrice(Queue(books, terms), end, taker, Met(end), y);
      var z :| z in Queue(books, terms) && z.price == y.price;
    }
  }

  function Fewer(a: nat, b: nat): nat {
    if a <= b then a else b
  }

  /** Without own orders in the way, a taker meets the makers that cross up to its last fill, and something remains of
      it exactly if it brings more than is on them. */
  lemma {:induction false} MeetsOthers(t: Trading, taker: Taker, maxFills: nat, steps: nat)
    requires OwnCrossing(t.queue, taker) == 0 && !taker.postOnly && !t.rejected && !t.aborted && t.remaining > 0
    requires |t.fills| <= maxFills <= |t.fills| + steps
    ensures var end, k := Trade(t, taker, maxFills, steps), Fewer(Crossing(t.queue, taker), maxFills - |t.fills|);
            && k <= |t.queue| && (end.remaining > 0 <==> t.remaining > Quantity(t.queue[..k]))
            && (end.remaining > 0 ==> Met(end) == Met(t) + k && !end.rejected && !end.aborted)
    decreases steps
  {
    var k := Fewer(Crossing(t.queue, taker), maxFills - |t.fills|);
    CrossingWithin(t.queue, taker);
    if k > 0 {
      var next, q := Meet(t, taker), t.queue[0];
      assert t.queue[..k] == [q] + t.queue[1..][..k - 1];
      assert ([q] + t.queue[1..][..k - 1])[1..] == t.queue[1..][..k - 1];
      if t.remaining > q.order.quantity {
        MeetsOthers(next, taker, maxFills, steps - 1);
      } else {
        assert Trade(next, taker, maxFills, steps - 1) == next;
      }
    } else {
      assert t.queue[..k] == [];
    }
  }

  lemma {:induction false} CrossingWithin(queue: seq<Quote>, taker: Taker)
    ensures Crossing(queue, taker) <= |queue|
  {
    if queue != [] { CrossingWithin(queue[1..], taker); }
  }

  /** An order that may rest and trade, with none of its owner's orders in the way, leaves a crossed market if and only
      if more makers cross than may be filled and it asks for more than is on the first ones. */
  lemma RestCrossesWhen(books: Two<seq<Entry>>, order: OrderInput, oracle: Option<i64>, now: u64, limits: Limits)
    requires TakerPrice(order, oracle).Some? && order.quantity > 0 && !order.immediate && !order.postOnly
    requires LeafOf(order).Some? && PriceOf(order.tree, LeafOf(order).value, OwnTerms(order, oracle, now)).Some?
    requires OwnInTheWay(books, order, oracle, now) == 0 && limits.maxFills <= MAX_PLAN_ACTIONS
    ensures var queue := Queue(books, TermsOf(order, oracle, now));
            var taker := TakerOf(order, TakerPrice(order, oracle).value, order.selfTrade);
            RestCrosses(books, order, oracle, now, limits)
            <==>
              limits.maxFills < Crossing(queue, taker) <= |queue| && Quantity(queue[..limits.maxFills]) < order.quantity
  {
    var terms, taker := TermsOf(order, oracle, now), TakerOf(order, TakerPrice(order, oracle).value, order.selfTrade);
    OthersLeft(Arriving(books, terms, order.quantity), taker, limits.maxFills, MAX_PLAN_ACTIONS);
  }

  lemma OthersLeft(t: Trading, taker: Taker, maxFills: nat, steps: nat)
    requires OwnCrossing(t.queue, taker) == 0 && !taker.postOnly && !t.rejected && !t.aborted && t.remaining > 0
    requires t.fills == [] && t.selfCancelled == 0 && maxFills <= steps
    ensures var end := Trade(t, taker, maxFills, steps);
            && Met(end) <= |t.queue| && Crossing(t.queue, taker) <= |t.queue|
               && PassedOver(t.queue, taker, Met(end)) == []
            && (end.remaining > 0 && !end.rejected && Crossing(t.queue, taker) > Met(end)
                <==> maxFills < Crossing(t.queue, taker) && Quantity(t.queue[..maxFills]) < t.remaining)
  {
    CrossingWithin(t.queue, taker);
    MeetsOthers(t, taker, maxFills, steps);
    TradeTakesFront(t, taker, maxFills, steps);
    NonePassed(t.queue, Trade(t, taker, maxFills, steps), taker, Met(Trade(t, taker, maxFills, steps)));
  }

  lemma NonePassed(queue: seq<Quote>, end: Trading, taker: Taker, n: nat)
    requires FrontMet(queue, end, taker, n) && OwnCrossing(queue, taker) == 0
    ensures PassedOver(queue, taker, n) == []
  {
    if PassedOver(queue, taker, n) != [] {
      var i := PassedOverIn(queue, taker, n, PassedOver(queue, taker, n)[0]);
      OwnCounted(queue, taker, i);
    }
  }

  lemma {:induction false} OwnCounted(queue: seq<Quote>, taker: Taker, i: nat)
    requires i < |queue| && queue[i].order.owner == taker.owner && Crosses(taker, queue[i].price)
    ensures OwnCrossing(queue, taker) > 0
  {
    if i > 0 { OwnCounted(queue[1..], taker, i - 1); }
  }

  /** With the production limits the planner refuses exactly more than two expired makers, more than four that are
      dead otherwise, or more than sixteen removals and fills in all. */
  lemma PlannerRefusesIff(books: Two<seq<Entry>>, order: OrderInput, index: i64, now: u64)
    requires EarlyRefusal(order, index).None?
    ensures var terms := TermsOf(order, Some(index), now);
            var expired := CountExpired(books.fixed, now) + CountExpired(books.pegged, now);
            var stale := CountStale(books.fixed, 0, terms) + CountStale(books.pegged, 1, terms);
            PlanError(books, order, Some(index), now, PLACE_LIMITS)
            == if expired > 2 || stale > 4
                  || expired + stale + Met(Outcome(books, order, Some(index), now, PLACE_LIMITS)) > 16
               then Some(BadLimit) else None
  {}

  // ----- placing -----

  /** Refused on the order alone. */
  function EarlyRefusal(order: OrderInput, index: i64): Option<Refusal> {
    var price := TakerPrice(order, Some(index));
    if order.quantity == 0 then Some(InvalidInstruction)
    else if index <= 0 then Some(OracleUnavailable)
    else if price.None? then Some(ArithmeticOverflow)
    else if price.value <= 0 then Some(InvalidInstruction)
    else None
  }

  /** Refused for what rests: by the planner, for want of room, or because the taker gives up. */
  function LateRefusal(own: Two<seq<Entry>>, available: int, opposing: Two<seq<Entry>>, order: OrderInput, index: i64,
                       now: u64): Option<Refusal>
    requires EarlyRefusal(order, index).None?
  {
    var planning, end := PlanError(opposing, order, Some(index), now, PLACE_LIMITS),
        Outcome(opposing, order, Some(index), now, PLACE_LIMITS);
    var filing := FilingError(own, available, order);
    if planning.Some? then Some(OfBook(planning.value))
    else if end.remaining > 0 && !order.immediate && filing.Some? then Some(OfBook(filing.value))
    else if end.rejected then Some(InvalidInstruction)
    else if end.aborted then Some(SelfTradeAborted)
    else None
  }

  /** What a placed order makes of both sides. */
  ghost predicate IsPlaced(own: Two<seq<Entry>>, own': Two<seq<Entry>>, opposing: Two<seq<Entry>>,
                           opposing': Two<seq<Entry>>, order: OrderInput, index: i64, now: u64, plan: Plan)
    requires EarlyRefusal(order, index).None?
  {
    && Settled(opposing, opposing', order, Some(index), now, PLACE_LIMITS, plan)
    && exists slot :: RestFiled(own, own', order, Outcome(opposing, order, Some(index), now, PLACE_LIMITS), slot)
  }

  ghost predicate SidesApart(own: Two<seq<Entry>>, opposing: Two<seq<Entry>>, order: OrderInput, index: i64, now: u64) {
    NoneFaces(order.side, Queue(own, OwnTerms(order, Some(index), now)),
              Queue(opposing, TermsOf(order, Some(index), now)))
  }

  /** What placing answers and makes of both sides. A refusal changes nothing; sides that were apart stay apart if and
      only if no rest is filed that crosses. */
  ghost predicate Answers(own: Two<seq<Entry>>, room: int, own': Two<seq<Entry>>, opposing: Two<seq<Entry>>,
                         opposing': Two<seq<Entry>>, order: OrderInput, index: i64, now: u64, r: Placing)
    requires EarlyRefusal(order, index).None?
  {
    var refusal := LateRefusal(own, room, opposing, order, index, now);
    match r
    case Refused(why) => refusal == Some(why) && own' == own && opposing' == opposing
    case Placed(plan) =>
      && refusal.None? && IsPlaced(own, own', opposing, opposing', order, index, now, plan)
      && (if plan.remaining > 0 && !order.immediate then RestJoined(own, own', order, plan.remaining) else own' == own)
      && (SidesApart(own, opposing, order, index, now) ==>
            (SidesApart(own', opposing', order, index, now)
             <==> !RestCrosses(opposing, order, Some(index), now, PLACE_LIMITS)))
  }

  /** Places an order with a number of its own. In particular filing the rest cannot fail once the plan is applied. */
  method PlaceOn(own: Arena, opposing: Arena, order: OrderInput, index: i64, now: u64) returns (r: Placing)
    requires own.Valid() && opposing.Valid() && own != opposing && own.nodes != opposing.nodes
    requires BooksFiled(opposing.Books(), Opposite(order.side)) && Unrepeated(opposing.Books())
    requires EarlyRefusal(order, index).None?
    modifies own, own.nodes, opposing, opposing.nodes
    ensures own.Valid() && opposing.Valid()
    ensures BooksFiled(opposing.Books(), Opposite(order.side)) && Unrepeated(opposing.Books())
    ensures Answers(old(own.Books()), old(own.Available()), own.Books(), old(opposing.Books()), opposing.Books(),
                    order, index,
                   now, r)
  {
    ghost var mine, theirs := own.Books(), opposing.Books();
    var planned := PlanLimit(opposing, order, Some(index), now, PLACE_LIMITS);
    if planned.Err? {
      return Refused(OfBook(planned.error));
    }
    var plan := planned.value;
    var error := CheckPlan(own, opposing, order, plan);
    if error.Some? {
      return Refused(error.value);
    }
    if plan.postOnlyRejected {
      return Refused(InvalidInstruction);
    }
    if plan.selfTradeAborted {
      return Refused(SelfTradeAborted);
    }
    ApplyPlanned(opposing, order, Some(index), now, PLACE_LIMITS, plan);
    ghost var slot: nat := 0;
    if plan.remaining > 0 && !order.immediate {
      var filed := FileRest(own, order, plan.remaining);
      slot := filed.value;
      RestJoins(mine, order, plan.remaining, slot);
    }
    r := Placed(plan);
    assert RestFiled(mine, own.Books(), order, Outcome(theirs, order, Some(index), now, PLACE_LIMITS), slot);
    if SidesApart(mine, theirs, order, index, now) {
      StaysApartIff(mine, own.Books(), theirs, order, Some(index), now, PLACE_LIMITS, slot);
    }
  }

  /** The same, with the numbers given out. */
  method PlaceNumbered(own: Arena, opposing: Arena, order: OrderInput, index: i64, now: u64, ghost sequence: u64)
    returns (r: Placing)
    requires own.Valid() && opposing.Valid() && own != opposing && own.nodes != opposing.nodes
    requires Kept(own.Books(), order.side, sequence) && Kept(opposing.Books(), Opposite(order.side), sequence)
    requires EarlyRefusal(order, index).None? && sequence < order.sequence
    modifies own, own.nodes, opposing, opposing.nodes
    ensures own.Valid() && opposing.Valid()
    ensures var last := if r.Placed? then order.sequence else sequence;
            Kept(own.Books(), order.side, last) && Kept(opposing.Books(), Opposite(order.side), last)
    ensures r != Refused(OfBook(DuplicateKey))
    ensures Answers(old(own.Books()), old(own.Available()), own.Books(), old(opposing.Books()), opposing.Books(),
                    order, index,
                   now, r)
  {
    ghost var mine, theirs := own.Books(), opposing.Books();
    NeverTaken(mine, own.Available(), theirs, order, index, now, sequence);
    r := PlaceOn(own, opposing, order, index, now);
    if r.Placed? {
      KeptPlaced(mine, own.Books(), theirs, opposing.Books(), order, index, now, r.plan, sequence);
    }
  }

  method CancelFixed(arena: Arena, owner: nat, key: Key, ghost side: Side,
                     ghost sequence: u64) returns (r: Option<Order>)
    requires arena.Valid() && Kept(arena.Books(), side, sequence) && IsKey(key)
    modifies arena, arena.nodes
    ensures arena.Valid() && Kept(arena.Books(), side, sequence)
    ensures r == OwnedBy(old(arena.Book(0)), key, owner)
    ensures arena.Books() == if r.Some? then WithoutKey(old(arena.Books()), key) else old(arena.Books())
  {
    TidyArena(arena);
    KeptWithout(arena.Books(), side, sequence, key);
    var removed := arena.RemoveOwned(0, key, owner);
    return if removed.Ok? then Some(removed.value) else None;
  }

  /** No bid that can trade reaches an ask that can. */
  ghost predicate BooksApart(bids: Two<seq<Entry>>, asks: Two<seq<Entry>>, index: i64, now: u64) {
    NoneFaces(Bid, Queue(bids, Terms(Bid, Some(index), now)), Queue(asks, Terms(Ask, Some(index), now)))
  }

  /** A market's two arenas and the number of the last order. */
  class Market {
    const bids: Arena
    const asks: Arena
    var sequence: u64

    constructor ()
      ensures Valid() && sequence == 0 && Orders(Bid) == Orders(Ask) == Two([], [])
      ensures fresh(bids) && fresh(bids.nodes) && fresh(asks) && fresh(asks.nodes)
    {
      bids := new Arena();
      asks := new Arena();
      sequence := 0;
    }

    ghost function Orders(side: Side): Two<seq<Entry>>
      reads this, bids, asks
    {
      if side.Bid? then bids.Books() else asks.Books()
    }

    ghost function Room(side: Side): int
      reads this, bids, asks
    {
      if side.Bid? then bids.Available() else asks.Available()
    }

    /** Orders rest on their side under their keys, and no number is given out twice. */
    ghost predicate Valid()
      reads this, bids, asks, bids.nodes, asks.nodes
    {
      && bids != asks && bids.nodes != asks.nodes && bids.Valid() && asks.Valid()
      && Kept(Orders(Bid), Bid, sequence) && Kept(Orders(Ask), Ask, sequence)
    }

    ghost predicate Uncrossed(index: i64, now: u64)
      reads this, bids, asks
    {
      BooksApart(Orders(Bid), Orders(Ask), index, now)
    }

    lemma UncrossedEitherWay(order: OrderInput, index: i64, now: u64)
      ensures Uncrossed(index, now) <==> SidesApart(Orders(order.side), Orders(Opposite(order.side)), order, index, now)
    {
      ApartEitherWay(Queue(Orders(Bid), Terms(Bid, Some(index), now)),
                     Queue(Orders(Ask), Terms(Ask, Some(index), now)));
    }

    /** Cancels an owner's fixed order: the bid with this key, or else the ask. The market stays uncrossed. */
    method Cancel(owner: nat, key: Key) returns (r: Option<Order>)
      requires Valid() && IsKey(key)
      modifies bids, asks, bids.nodes, asks.nodes
      ensures Valid()
      ensures var bid, ask := OwnedBy(old(Orders(Bid)).fixed, key, owner), OwnedBy(old(Orders(Ask)).fixed, key, owner);
              && r == (if bid.Some? then bid else ask)
              && Orders(Bid) == (if bid.Some? then WithoutKey(old(Orders(Bid)), key) else old(Orders(Bid)))
              && Orders(Ask) == (if bid.None? && ask.Some? then WithoutKey(old(Orders(Ask)), key) else old(Orders(Ask)))
      ensures forall index: i64, now :: old(Uncrossed(index, now)) ==> Uncrossed(index, now)
    {
      TidyArena(bids);
      TidyArena(asks);
      FewerAreApart(Orders(Bid), Orders(Ask), key);
      r := CancelFixed(bids, owner, key, Bid, sequence);
      if r.None? {
        r := CancelFixed(asks, owner, key, Ask, sequence);
      }
    }

    method PlaceBid(order: OrderInput, index: i64, now: u64) returns (r: Placing)
      requires Valid() && order.side.Bid? && order.sequence == sequence + 1 && EarlyRefusal(order, index).None?
      modifies this, bids, asks, bids.nodes, asks.nodes
      ensures Valid() && r != Refused(OfBook(DuplicateKey)) && sequence == old(sequence) + if r.Placed? then 1 else 0
      ensures Answers(old(Orders(Bid)), old(Room(Bid)), Orders(Bid), old(Orders(Ask)), Orders(Ask), order, index, now,
                      r)
    {
      r := PlaceNumbered(bids, asks, order, index, now, sequence);
      sequence := if r.Placed? then order.sequence else sequence;
    }

    method PlaceAsk(order: OrderInput, index: i64, now: u64) returns (r: Placing)
      requires Valid() && order.side.Ask? && order.sequence == sequence + 1 && EarlyRefusal(order, index).None?
      modifies this, bids, asks, bids.nodes, asks.nodes
      ensures Valid() && r != Refused(OfBook(DuplicateKey)) && sequence == old(sequence) + if r.Placed? then 1 else 0
      ensures Answers(old(Orders(Ask)), old(Room(Ask)), Orders(Ask), old(Orders(Bid)), Orders(Bid), order, index, now,
                      r)
    {
      r := PlaceNumbered(asks, bids, order, index, now, sequence);
      sequence := if r.Placed? then order.sequence else sequence;
    }

    method PlaceNext(request: OrderInput, index: i64, now: u64) returns (r: Placing)
      requires Valid()
      modifies this, bids, asks, bids.nodes, asks.nodes
      ensures Valid() && r != Refused(OfBook(DuplicateKey))
      ensures sequence == old(sequence) + if r.Placed? then 1 else 0
      ensures EarlyRefusal(request, index).Some? ==> r == Refused(EarlyRefusal(request, index).value)
      ensures EarlyRefusal(request, index).None? && old(sequence) == U64_MAX ==> r == Refused(ArithmeticOverflow)
      ensures r.Refused? ==> Orders(Bid) == old(Orders(Bid)) && Orders(Ask) == old(Orders(Ask))
      ensures EarlyRefusal(request, index).None? && old(sequence) < U64_MAX ==>
                Answers(old(Orders(request.side)), old(Room(request.side)), Orders(request.side),
                        old(Orders(Opposite(request.side))), Orders(Opposite(request.side)),
                        request.(sequence := old(sequence) + 1), index, now, r)
    {
      var early := EarlyRefusal(request, index);
      if early.Some? {
        return Refused(early.value);
      }
      if sequence == U64_MAX {
        return Refused(ArithmeticOverflow);
      }
      var order := request.(sequence := sequence + 1);
      if order.side.Bid? {
        r := PlaceBid(order, index, now);
      } else {
        r := PlaceAsk(order, index, now);
      }
    }

    /** Gives the order the next number and places it. The key is never taken. A market that was not crossed is crossed
        afterwards if and only if a rest is filed that crosses. */
    method Place(request: OrderInput, index: i64, now: u64) returns (r: Placing)
      requires Valid()
      modifies this, bids, asks, bids.nodes, asks.nodes
      ensures Valid() && r != Refused(OfBook(DuplicateKey))
      ensures sequence == old(sequence) + if r.Placed? then 1 else 0
      ensures EarlyRefusal(request, index).Some? ==> r == Refused(EarlyRefusal(request, index).value)
      ensures EarlyRefusal(request, index).None? && old(sequence) == U64_MAX ==> r == Refused(ArithmeticOverflow)
      ensures r.Refused? ==> Orders(Bid) == old(Orders(Bid)) && Orders(Ask) == old(Orders(Ask))
      ensures EarlyRefusal(request, index).None? && old(sequence) < U64_MAX ==>
                Answers(old(Orders(request.side)), old(Room(request.side)), Orders(request.side),
                        old(Orders(Opposite(request.side))), Orders(Opposite(request.side)),
                        request.(sequence := old(sequence) + 1), index, now, r)
      ensures r.Placed? && old(Uncrossed(index, now)) ==>
                (Uncrossed(index, now)
                 <==> !RestCrosses(old(Orders(Opposite(request.side))), request.(sequence := old(sequence) + 1),
                                   Some(index), now, PLACE_LIMITS))
    {
      UncrossedEitherWay(request, index, now);
      r := PlaceNext(request, index, now);
      UncrossedEitherWay(request, index, now);
    }
  }

  function OwnedBy(es: seq<Entry>, key: Key, owner: nat): Option<Order> {
    var found := Lookup(es, key);
    if found.Some? && found.value.order.owner == owner then Some(found.value.order) else None
  }

  function WithoutKey(books: Two<seq<Entry>>, key: Key): Two<seq<Entry>> {
    books.With(0, Without(books.fixed, key))
  }

  lemma KeptWithout(books: Two<seq<Entry>>, side: Side, sequence: u64, key: Key)
    requires Kept(books, side, sequence) && Tidy(books)
    ensures Kept(WithoutKey(books, key), side, sequence)
  {
    var es := Without(books.fixed, key);
    forall b: Bit, e | e in WithoutKey(books, key).At(b)
      ensures e in books.At(b)
    {
      WithoutHas(books.fixed, key, e);
    }
    assert forall e :: e in es ==> e in WithoutKey(books, key).At(0);
    forall i | 0 <= i < |es|
      ensures Filed(0, es[i].order, side)
    {
      assert es[i] in es;
      FiledEntry(books, side, 0, es[i]);
    }
  }

  lemma FewerQuotes(books: Two<seq<Entry>>, key: Key, terms: Terms)
    requires Tidy(books)
    ensures forall q :: q in Queue(WithoutKey(books, key), terms) ==> q in Queue(books, terms)
  {
    forall q | q in Queue(WithoutKey(books, key), terms)
      ensures q in Queue(books, terms)
    {
      QueueHas(books, terms, q);
      QueueHas(WithoutKey(books, key), terms, q);
      var e :| e in WithoutKey(books, key).At(q.tree) && QuoteOf(q.tree, e, terms) == Some(q);
      WithoutHas(books.fixed, key, e);
    }
  }

  lemma FewerAreApart(bids: Two<seq<Entry>>, asks: Two<seq<Entry>>, key: Key)
    requires Tidy(bids) && Tidy(asks)
    ensures forall index: i64, now :: BooksApart(bids, asks, index, now) ==>
                BooksApart(WithoutKey(bids, key), asks, index, now)
                    && BooksApart(bids, WithoutKey(asks, key), index, now)
  {
    forall index: i64, now | BooksApart(bids, asks, index, now)
      ensures BooksApart(WithoutKey(bids, key), asks, index, now) && BooksApart(bids, WithoutKey(asks, key), index, now)
    {
      FewerQuotes(bids, key, Terms(Bid, Some(index), now));
      FewerQuotes(asks, key, Terms(Ask, Some(index), now));
    }
  }

  lemma NeverTaken(own: Two<seq<Entry>>, available: int, opposing: Two<seq<Entry>>, order: OrderInput, index: i64,
                   now: u64, sequence: u64)
    requires Kept(own, order.side, sequence) && sequence < order.sequence && EarlyRefusal(order, index).None?
    ensures LateRefusal(own, available, opposing, order, index, now) != Some(OfBook(DuplicateKey))
  {
    if LeafOf(order).Some? { NewKey(own, order, sequence); }
  }

  lemma KeptPlaced(own: Two<seq<Entry>>, own': Two<seq<Entry>>, opposing: Two<seq<Entry>>, opposing': Two<seq<Entry>>,
                   order: OrderInput, index: i64, now: u64, plan: Plan, sequence: u64)
    requires EarlyRefusal(order, index).None? && IsPlaced(own, own', opposing, opposing', order, index, now, plan)
    requires Kept(own, order.side, sequence) && Kept(opposing, Opposite(order.side), sequence)
             && sequence < order.sequence
    requires BooksFiled(opposing', Opposite(order.side)) && Unrepeated(opposing')
    ensures Kept(own', order.side, order.sequence) && Kept(opposing', Opposite(order.side), order.sequence)
  {
    var end := Outcome(opposing, order, Some(index), now, PLACE_LIMITS);
    var slot :| RestFiled(own, own', order, end, slot);
    if Files(end, order) {
      KeptWithRest(own, order, end.remaining, slot, sequence);
    } else {
      KeptLonger(own, order.side, sequence, order.sequence);
    }
    if !end.rejected && !end.aborted { StemsNumbered(opposing, opposing', sequence); }
  }
}
