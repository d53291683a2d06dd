/**
 What trading from the front of a queue comes to, said of the queue as it was and
 not step by step: which makers are met, what each fill says, what is left, and
 why it ended.
 */
module MakersMet {
  import opened Wrappers
  import opened OrderKeys
  import opened Patricia
  import opened ArenaLayout
  import opened Matching

  /** What makers take from a taker that goes on behind them: all that is on them. An own order costs nothing, unless
      the taker gives up its quantity. */
  function Absorbed(queue: seq<Quote>, taker: Taker): nat {
    if queue == [] then 0
    else
      var q := queue[|queue| - 1];
      Absorbed(queue[..|queue| - 1], taker)
      + if q.order.owner == taker.owner && taker.selfTrade != DecrementTake then 0 else q.order.quantity
  }

  /** Where the makers stand that are not the taker's own. */
  function OthersAt(queue: seq<Quote>, taker: Taker): (at: seq<nat>)
    ensures |at| <= |queue| && forall k :: 0 <= k < |at| ==> at[k] < |queue| && queue[at[k]].order.owner != taker.owner
  {
    if queue == [] then []
    else
      var at := OthersAt(queue[..|queue| - 1], taker);
      if queue[|queue| - 1].order.owner != taker.owner then at + [|queue| - 1] else at
  }

  /** A fill with a maker, of a taker with so much left. */
  predicate FillWith(f: Fill, q: Quote, left: int) {
    && f.maker == q.order.owner && f.price == q.price && f.clientOrderId == q.order.clientOrderId
    && f.slot == q.slot && f.tree == q.tree
    && f.quantity == (if q.order.quantity <= left then q.order.quantity else left)
    && f.makerRemaining == q.order.quantity - f.quantity
  }

  /** The fills are with the others among the first `n`, one after the other. */
  predicate FillsAre(queue: seq<Quote>, taker: Taker, quantity: nat, fills: seq<Fill>, n: nat)
    requires n <= |queue|
  {
    var at := OthersAt(queue[..n], taker);
    && |fills| == |at|
    && forall k :: 0 <= k < |at| ==> FillWith(fills[k], queue[at[k]], quantity - Absorbed(queue[..at[k]], taker))
  }

  /** There is a next maker, it crosses, and the taker still has quantity and fills to give. */
  predicate Open(queue: seq<Quote>, taker: Taker, quantity: nat, maxFills: nat, i: nat) {
    && i < |queue| && Crosses(taker, queue[i].price)
    && Absorbed(queue[..i], taker) < quantity && |OthersAt(queue[..i], taker)| < maxFills
  }

  /** What is left of the queue: only the last maker met may stay, with what the taker could not take. */
  predicate LeftOver(queue: seq<Quote>, taker: Taker, quantity: nat, n: nat, left: seq<Quote>)
    requires n <= |queue|
  {
    var over := Absorbed(queue[..n], taker) - quantity;
    if n > 0 && over > 0 && queue[n - 1].order.owner != taker.owner then
      && left != [] && left[1..] == queue[n..]
      && left[0] == queue[n - 1].(order := queue[n - 1].order.(quantity := left[0].order.quantity))
      && left[0].order.quantity == over
    else left == queue[n..]
  }

  /** The first `n` makers are met. */
  predicate MetFirst(queue: seq<Quote>, quantity: nat, taker: Taker, maxFills: nat, n: nat, t: Trading) {
    && n <= |queue|
    && (forall i :: 0 <= i < n ==> Open(queue, taker, quantity, maxFills, i) && !Abstains(taker, queue[i]))
    && FillsAre(queue, taker, quantity, t.fills, n) && t.selfCancelled == n - |t.fills|
    && t.remaining == (var took := Absorbed(queue[..n], taker); if took <= quantity then quantity - took else 0)
    && LeftOver(queue, taker, quantity, n, t.queue)
  }

  /** It ends with its steps, with nobody open to be met, or where the taker gives up. */
  predicate EndsRight(queue: seq<Quote>, quantity: nat, taker: Taker, maxFills: nat, steps: nat, n: nat, t: Trading) {
    var next := n < steps && Open(queue, taker, quantity, maxFills, n);
    && n <= steps && (next ==> Abstains(taker, queue[n]))
    && (t.rejected <==> next && taker.postOnly)
    && (t.aborted <==> next && !taker.postOnly)
  }

  predicate Traded(queue: seq<Quote>, quantity: nat, taker: Taker, maxFills: nat, steps: nat, end: Trading) {
    && MetFirst(queue, quantity, taker, maxFills, Met(end), end)
    && EndsRight(queue, quantity, taker, maxFills, steps, Met(end), end)
  }

  lemma AbsorbedSnoc(queue: seq<Quote>, taker: Taker, n: nat)
    requires n < |queue|
    ensures Absorbed(queue[..n + 1], taker)
         == Absorbed(queue[..n], taker)
            + if queue[n].order.owner == taker.owner && taker.selfTrade != DecrementTake then 0
              else queue[n].order.quantity
    ensures OthersAt(queue[..n + 1], taker)
         == OthersAt(queue[..n], taker) + if queue[n].order.owner != taker.owner then [n] else []
  {
    assert queue[..n + 1][..n] == queue[..n];
  }

  lemma FillsSnoc(queue: seq<Quote>, taker: Taker, quantity: nat, fills: seq<Fill>, n: nat, f: Fill)
    requires n < |queue| && FillsAre(queue, taker, quantity, fills, n) && queue[n].order.owner != taker.owner
    requires FillWith(f, queue[n], quantity - Absorbed(queue[..n], taker))
    ensures FillsAre(queue, taker, quantity, fills + [f], n + 1)
  {
    AbsorbedSnoc(queue, taker, n);
  }

  /** Where something remains of the taker, the next of the queue is met next. */
  lemma OneMoreMet(queue: seq<Quote>, quantity: nat, taker: Taker, maxFills: nat, n: nat, t: Trading)
    requires MetFirst(queue, quantity, taker, maxFills, n, t) && Goes(t, taker, maxFills)
    requires !Abstains(taker, t.queue[0])
    ensures MetFirst(queue, quantity, taker, maxFills, n + 1, Meet(t, taker))
    ensures Met(Meet(t, taker)) == Met(t) + 1 && !Meet(t, taker).rejected && !Meet(t, taker).aborted
  {
    assert t.queue == queue[n..] && t.queue[0] == queue[n] && t.queue[1..] == queue[n + 1..];
    AbsorbedSnoc(queue, taker, n);
    var q, next := queue[n], Meet(t, taker);
    if q.order.owner != taker.owner {
      var amount := Amount(q.order, t.remaining);
      FillsSnoc(queue, taker, quantity, t.fills, n, FillOf(q, amount));
    }
    forall i | 0 <= i < n + 1
      ensures Open(queue, taker, quantity, maxFills, i) && !Abstains(taker, queue[i])
    {
    }
  }

  lemma GoesIsOpen(queue: seq<Quote>, quantity: nat, taker: Taker, maxFills: nat, n: nat, t: Trading)
    requires MetFirst(queue, quantity, taker, maxFills, n, t) && !t.rejected && !t.aborted
    ensures Goes(t, taker, maxFills) <==> Open(queue, taker, quantity, maxFills, n)
    ensures Goes(t, taker, maxFills) ==> t.queue[0] == queue[n]
  {
    if t.remaining > 0 { assert t.queue == queue[n..]; }
  }

  /** Where it stops, it has ended right. */
  lemma StopsRight(queue: seq<Quote>, quantity: nat, taker: Taker, maxFills: nat, t: Trading, steps: nat)
    requires MetFirst(queue, quantity, taker, maxFills, Met(t), t) && !t.rejected && !t.aborted && Met(t) <= steps
    requires Goes(t, taker, maxFills) ==> Met(t) == steps
    ensures Traded(queue, quantity, taker, maxFills, steps, t)
  {
    GoesIsOpen(queue, quantity, taker, maxFills, Met(t), t);
  }

  lemma GivesUpRight(queue: seq<Quote>, quantity: nat, taker: Taker, maxFills: nat, t: Trading, steps: nat)
    requires MetFirst(queue, quantity, taker, maxFills, Met(t), t) && !t.rejected && !t.aborted && Met(t) < steps
    requires Goes(t, taker, maxFills) && Abstains(taker, t.queue[0])
    ensures Traded(queue, quantity, taker, maxFills, steps, Meet(t, taker))
    ensures Meet(t, taker).rejected || Meet(t, taker).aborted
  {
    GoesIsOpen(queue, quantity, taker, maxFills, Met(t), t);
    var next := Meet(t, taker);
    assert next == t.(rejected := next.rejected, aborted := next.aborted);
  }

  lemma {:induction false} TradesOn(queue: seq<Quote>, quantity: nat, taker: Taker, maxFills: nat, t: Trading,
                                    next: Trading, steps: nat)
    requires MetFirst(queue, quantity, taker, maxFills, Met(t), t) && !t.rejected && !t.aborted
    requires Goes(t, taker, maxFills) ==> next == Meet(t, taker)
    ensures Traded(queue, quantity, taker, maxFills, Met(t) + steps, Trade(t, taker, maxFills, steps))
    decreases steps
  {
    if steps == 0 || !Goes(t, taker, maxFills) {
      StopsRight(queue, quantity, taker, maxFills, t, Met(t) + steps);
    } else if Abstains(taker, t.queue[0]) {
      GivesUpRight(queue, quantity, taker, maxFills, t, Met(t) + steps);
      assert Trade(next, taker, maxFills, steps - 1) == next;
    } else {
      OneMoreMet(queue, quantity, taker, maxFills, Met(t), t);
      TradesOn(queue, quantity, taker, maxFills, next, AfterNext(next, taker, maxFills), steps - 1);
    }
  }

  function AfterNext(t: Trading, taker: Taker, maxFills: nat): Trading {
    if Goes(t, taker, maxFills) then Meet(t, taker) else t
  }

  /** Trading comes to this, for every queue, taker and number of steps. */
  lemma TradeComesTo(queue: seq<Quote>, quantity: u64, taker: Taker, maxFills: nat, steps: nat)
    ensures Traded(queue, quantity, taker, maxFills, steps,
                   Trade(Trading(queue, quantity, [], 0, false, false), taker, maxFills, steps))
  {
    assert queue[..0] == [] && queue[0..] == queue;
    var start := Trading(queue, quantity, [], 0, false, false);
    TradesOn(queue, quantity, taker, maxFills, start, AfterNext(start, taker, maxFills), steps);
  }

  lemma NoFewerMet(queue: seq<Quote>, quantity: nat, taker: Taker, maxFills: nat, steps: nat, a: Trading, b: Trading)
    requires Traded(queue, quantity, taker, maxFills, steps, a) && Traded(queue, quantity, taker, maxFills, steps, b)
    ensures Met(b) <= Met(a)
  {
    assert Met(a) < Met(b) ==> Open(queue, taker, quantity, maxFills, Met(a));
  }

  lemma SameFills(queue: seq<Quote>, taker: Taker, quantity: nat, n: nat, a: seq<Fill>, b: seq<Fill>)
    requires n <= |queue| && FillsAre(queue, taker, quantity, a, n) && FillsAre(queue, taker, quantity, b, n)
    ensures a == b
  {
    forall k | 0 <= k < |a|
      ensures a[k] == b[k]
    {
      var at := OthersAt(queue[..n], taker);
      var q, left := queue[at[k]], quantity - Absorbed(queue[..at[k]], taker);
      assert FillWith(a[k], q, left) && FillWith(b[k], q, left);
    }
  }

  lemma SameLeft(queue: seq<Quote>, taker: Taker, quantity: nat, n: nat, a: seq<Quote>, b: seq<Quote>)
    requires n <= |queue| && LeftOver(queue, taker, quantity, n, a) && LeftOver(queue, taker, quantity, n, b)
    ensures a == b
  {
    assert a != [] ==> a == [a[0]] + a[1..];
    assert b != [] ==> b == [b[0]] + b[1..];
  }

  /** And this leaves nothing open. */
  lemma TradedIsUnique(queue: seq<Quote>, quantity: nat, taker: Taker, maxFills: nat, steps: nat, a: Trading,
                       b: Trading)
    requires Traded(queue, quantity, taker, maxFills, steps, a) && Traded(queue, quantity, taker, maxFills, steps, b)
    ensures a == b
  {
    NoFewerMet(queue, quantity, taker, maxFills, steps, a, b);
    NoFewerMet(queue, quantity, taker, maxFills, steps, b, a);
    SameFills(queue, taker, quantity, Met(a), a.fills, b.fills);
    SameLeft(queue, taker, quantity, Met(a), a.queue, b.queue);
  }

  // ----- who can trade, by the fields of an order -----

  predicate HasTime(o: Order, now: u64) {
    if o.expiresAt == 0 then now < U64_MAX else now < o.expiresAt
  }

  /** A pegged order at this price: it is positive and on the permitted side of the order's own limit. */
  predicate WithinPeg(o: Order, price: int) {
    0 < price <= I64_MAX && 0 < o.pegLimit && (if o.side == 0 then price <= o.pegLimit else price >= o.pegLimit)
  }

  /** An order that can trade at this price. */
  predicate Tradable(tree: Bit, o: Order, terms: Terms, price: i64) {
    && o.quantity > 0 && HasTime(o, terms.now)
    && if tree == 0 then price == o.priceOrOffset
       else terms.oracle.Some? && price == terms.oracle.value + o.priceOrOffset && WithinPeg(o, price)
  }

  /** The queue holds exactly the orders that can trade, each at its price. */
  lemma QueueIsTradable(books: Two<seq<Entry>>, terms: Terms, q: Quote)
    ensures q in Queue(books, terms)
       <==> Entry(q.slot, q.order) in books.At(q.tree) && Tradable(q.tree, q.order, terms, q.price)
  {
    MergeHas(terms.side, Quotes(books.fixed, 0, terms), Quotes(books.pegged, 1, terms), q);
    QuotesHave(books.fixed, 0, terms, q);
    QuotesHave(books.pegged, 1, terms, q);
    var e := Entry(q.slot, q.order);
    if e in books.At(q.tree) && Tradable(q.tree, q.order, terms, q.price) {
      assert QuoteOf(q.tree, e, terms) == Some(q);
    }
  }

  /** An order is dead if it has no quantity or no time left, or is pegged beyond what its limit permits; a pegged
      order without an oracle waits. */
  lemma DeadIff(tree: Bit, o: Order, terms: Terms)
    ensures Dead(tree, o, terms) <==>
            || o.quantity == 0 || !HasTime(o, terms.now)
            || (tree == 1 && terms.oracle.Some? && !WithinPeg(o, terms.oracle.value + o.priceOrOffset))
  {}
}
