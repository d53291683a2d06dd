/**
 The book that both read paths of `features/trading/use-v3-book.ts` hand to the
 page, and the fallback path: the market API's aggregate.
 */
module BookView {
  import opened Wrappers
  import opened Types
  import opened PriceLevels

  /** Trades and positions are decoded elsewhere and carried along. */
  datatype View<+T, +P> = View(
    bids: seq<Level>, asks: seq<Level>, trades: T, positions: seq<P>, orders: seq<RestingOrder>)

  /** The leaves outside the oracle-pegged tree. */
  function FixedOnly(nodes: seq<Node>): (r: seq<Node>)
    ensures forall i :: 0 <= i < |r| ==> r[i] in nodes && r[i].tag == 2 && r[i].tree != OraclePegged
  {
    if nodes == [] then []
    else
      var front, n := FixedOnly(nodes[..|nodes| - 1]), nodes[|nodes| - 1];
      if n.tag == 2 && n.tree != OraclePegged then front + [n] else front
  }

  function ViewOf<T, P>(fixed: seq<Node>, trades: T, positions: seq<P>, nowSec: int): View<T, P>
    requires FixedLeaves(fixed)
  {
    View(Levels(OfSide(fixed, 0), true, 0, nowSec), Levels(OfSide(fixed, 1), false, 0, nowSec),
         trades, positions, Orders(fixed, nowSec))
  }

  // ----- what a view shows -----

  /** The quantity of the leaves of one side at a price, if they have not expired; an expiry of zero as a `bigint` never
      comes. */
  function QuantityAt(nodes: seq<Node>, side: nat, nowSec: int, p: int): nat
    requires FixedLeaves(nodes)
  {
    if nodes == [] then 0
    else
      var n := nodes[|nodes| - 1];
      var expiry, quantity := n.expiresAt.value, n.quantity.value.value;
      QuantityAt(nodes[..|nodes| - 1], side, nowSec, p)
      + if n.side.value == side && n.priceOrOffset.value.value == p && p > 0 && quantity > 0
           && (expiry == Big(0) || expiry.value > nowSec) then quantity else 0
  }

  /** Where the leaves are that have time and quantity left. */
  function ListedAt(nodes: seq<Node>, nowSec: int): (at: seq<nat>)
    requires FixedLeaves(nodes)
    ensures forall k :: 0 <= k < |at| ==> at[k] < |nodes|
  {
    if nodes == [] then []
    else
      var front, n := ListedAt(nodes[..|nodes| - 1], nowSec), nodes[|nodes| - 1];
      if n.expiresAt.value.value > nowSec && n.quantity.value.value > 0 then front + [|nodes| - 1] else front
  }

  /** An order as its leaf has it; any side other than 0 is an ask. */
  predicate ShowsLeaf(o: RestingOrder, n: Node)
    requires FixedLeaf(n)
  {
    && o.owner == n.owner.value && o.orderKey == n.key.value.value && (o.side.Bid? <==> n.side.value == 0)
    && o.price == n.priceOrOffset.value.value && o.quantity == n.quantity.value.value
    && o.expiresAt == n.expiresAt.value.value && o.postOnly == n.postOnly && o.reduceOnly == n.reduceOnly
  }

  predicate ListsLeaves(orders: seq<RestingOrder>, nodes: seq<Node>, nowSec: int)
    requires FixedLeaves(nodes)
  {
    var at := ListedAt(nodes, nowSec);
    |orders| == |at| && forall k :: 0 <= k < |at| ==> ShowsLeaf(orders[k], nodes[at[k]])
  }

  /** Each level is what the leaves have at its price, and no price is left out. */
  ghost predicate LevelsHold(levels: seq<Level>, nodes: seq<Node>, side: nat, nowSec: int)
    requires FixedLeaves(nodes)
  {
    && (forall i :: 0 <= i < |levels| ==> levels[i].size == QuantityAt(nodes, side, nowSec, levels[i].price) > 0)
    && (forall p :: QuantityAt(nodes, side, nowSec, p) > 0 ==> exists i :: 0 <= i < |levels| && levels[i].price == p)
  }

  /** Bids from the highest price down, asks from the lowest up, and the orders one by one. */
  ghost predicate ViewShows<T, P>(v: View<T, P>, nodes: seq<Node>, nowSec: int)
    requires FixedLeaves(nodes)
  {
    && (forall i, j :: 0 <= i < j < |v.bids| ==> v.bids[i].price > v.bids[j].price)
    && (forall i, j :: 0 <= i < j < |v.asks| ==> v.asks[i].price < v.asks[j].price)
    && LevelsHold(v.bids, nodes, 0, nowSec) && LevelsHold(v.asks, nodes, 1, nowSec)
    && ListsLeaves(v.orders, nodes, nowSec)
  }

  lemma {:induction false} SideQuantity(nodes: seq<Node>, side: nat, bid: bool, nowSec: int, p: int)
    requires FixedLeaves(nodes)
    ensures SizeAt(OfSide(nodes, side), bid, 0, nowSec, p) == QuantityAt(nodes, side, nowSec, p)
  {
    if nodes != [] {
      var front, n := nodes[..|nodes| - 1], nodes[|nodes| - 1];
      SideQuantity(front, side, bid, nowSec, p);
      var sided := OfSide(front, side);
      assert (sided + [n])[..|sided|] == sided;
    }
  }

  lemma SideLevelsHold(nodes: seq<Node>, side: nat, bid: bool, nowSec: int)
    requires FixedLeaves(nodes)
    ensures LevelsHold(Levels(OfSide(nodes, side), bid, 0, nowSec), nodes, side, nowSec)
    ensures Ordered(Levels(OfSide(nodes, side), bid, 0, nowSec), bid)
  {
    LevelsAreSums(OfSide(nodes, side), bid, 0, nowSec);
    forall p
      ensures SizeAt(OfSide(nodes, side), bid, 0, nowSec, p) == QuantityAt(nodes, side, nowSec, p)
    {
      SideQuantity(nodes, side, bid, nowSec, p);
    }
  }

  lemma {:induction false} OrdersListLeaves(nodes: seq<Node>, nowSec: int)
    requires FixedLeaves(nodes)
    ensures ListsLeaves(Orders(nodes, nowSec), nodes, nowSec)
  {
    if nodes != [] { OrdersListLeaves(nodes[..|nodes| - 1], nowSec); }
  }

  lemma ViewIsRight<T, P>(fixed: seq<Node>, trades: T, positions: seq<P>, nowSec: int)
    requires FixedLeaves(fixed)
    ensures var v := ViewOf(fixed, trades, positions, nowSec);
            ViewShows(v, fixed, nowSec) && v.trades == trades && v.positions == positions
  {
    SideLevelsHold(fixed, 0, true, nowSec);
    SideLevelsHold(fixed, 1, false, nowSec);
    OrdersListLeaves(fixed, nowSec);
  }

  /** A leaf outside the pegged tree is kept as often as it is there. */
  lemma {:induction false} FixedOnlyKeeps(nodes: seq<Node>, n: Node)
    ensures multiset(FixedOnly(nodes))[n] == if n.tag == 2 && n.tree != OraclePegged then multiset(nodes)[n] else 0
  {
    if nodes != [] {
      FixedOnlyKeeps(nodes[..|nodes| - 1], n);
      assert nodes == nodes[..|nodes| - 1] + [nodes[|nodes| - 1]];
    }
  }

  // ----- the aggregate path -----

  /** The API's answer; anything may be missing. */
  datatype Aggregate<+E, +P> = Aggregate(
    completeExecutionState: bool,
    delegationStatus: Option<nat>,
    bids: Option<seq<Node>>,
    asks: Option<seq<Node>>,
    positions: Option<seq<P>>,
    eventShards: Option<E>)

  predicate CorrectDomain(status: Option<nat>, domain: Domain) {
    match domain
    case Er => status == Some(1) || status == Some(2)
    case L1 => status == Some(0) || status == Some(3)
  }

  predicate Complete<E, P>(value: Aggregate<E, P>, domain: Domain) {
    && value.completeExecutionState && CorrectDomain(value.delegationStatus, domain)
    && value.bids.Some? && value.asks.Some? && value.positions.Some? && value.eventShards.Some?
  }

  /** A view exactly when the answer is complete, of the right domain, and no leaf lacks a field. */
  function AggregateView<E, T, P>(value: Aggregate<E, P>, domain: Domain, tradesFrom: E -> T,
                                  nowSec: int): Option<View<T, P>> {
    if !Complete(value, domain) then None
    else
      var fixed := FixedOnly(value.bids.value + value.asks.value);
      if FixedLeaves(fixed)
      then Some(ViewOf(fixed, tradesFrom(value.eventShards.value), value.positions.value, nowSec))
      else None
  }

  /** The orders of the leaves, unless one lacks a field. */
  method OrdersFrom(fixed: seq<Node>, nowSec: int) returns (orders: Option<seq<RestingOrder>>)
    requires forall i :: 0 <= i < |fixed| ==> fixed[i].tag == 2 && fixed[i].tree != OraclePegged
    ensures orders.Some? <==> FixedLeaves(fixed)
    ensures orders.Some? ==> orders.value == Orders(fixed, nowSec)
  {
    var listed: seq<RestingOrder> := [];
    for i := 0 to |fixed|
      invariant FixedLeaves(fixed[..i]) && listed == Orders(fixed[..i], nowSec)
    {
      var n := fixed[i];
      if n.owner.None? || n.key.None? || n.expiresAt.None? || n.quantity.None? || n.priceOrOffset.None?
         || n.side.None? {
        assert !FixedLeaf(fixed[i]);
        return None;
      }
      assert fixed[..i + 1][..i] == fixed[..i];
      if n.expiresAt.value.value <= nowSec || n.quantity.value.value <= 0 {
        continue;
      }
      listed := listed + [OrderOf(n)];
    }
    assert fixed[..|fixed|] == fixed;
    return Some(listed);
  }

  method BookFromAggregate<E, T, P>(value: Aggregate<E, P>, domain: Domain, tradesFrom: E -> T, nowSec: int)
    returns (view: Option<View<T, P>>)
    ensures view == AggregateView(value, domain, tradesFrom, nowSec)
    ensures view.Some? <==>
              && value.completeExecutionState && value.delegationStatus.Some?
              && value.delegationStatus.value in (if domain.Er? then {1, 2} else {0, 3})
              && value.bids.Some? && value.asks.Some? && value.positions.Some? && value.eventShards.Some?
              && FixedLeaves(FixedOnly(value.bids.value + value.asks.value))
    ensures view.Some? ==>
              && Some(view.value.positions) == value.positions
                 && view.value.trades == tradesFrom(value.eventShards.value)
              && ViewShows(view.value, FixedOnly(value.bids.value + value.asks.value), nowSec)
  {
    if !Complete(value, domain) {
      return None;
    }
    var fixed := FixedOnly(value.bids.value + value.asks.value);
    var orders := OrdersFrom(fixed, nowSec);
    if orders.None? {
      return None;
    }
    var bids := LevelsFrom(OfSide(fixed, 0), true, 0, nowSec);
    var asks := LevelsFrom(OfSide(fixed, 1), false, 0, nowSec);
    view := Some(View(bids, asks, tradesFrom(value.eventShards.value), value.positions.value, orders.value));
    ViewIsRight(fixed, tradesFrom(value.eventShards.value), value.positions.value, nowSec);
  }

  /** In a view built from JSON, where numbers are text, a bid level is the sum of the listed bids at its
      price; an ask level is the listed asks less those of an odd side byte. */
  lemma AggregateLevelsAreOrders<T, P>(fixed: seq<Node>, trades: T, positions: seq<P>, nowSec: int, p: int)
    requires FixedLeaves(fixed) && p > 0 && nowSec >= 0
    requires forall i :: 0 <= i < |fixed| ==> fixed[i].expiresAt.value.Text?
    ensures var v := ViewOf(fixed, trades, positions, nowSec);
            && SizeIn(v.bids, p) == OrderSum(v.orders, Bid, p)
            && SizeIn(v.asks, p) + OddSide(fixed, Ask, nowSec, p) == OrderSum(v.orders, Ask, p)
  {
    LevelIsOrderSum(fixed, Bid, nowSec, p);
    LevelIsOrderSum(fixed, Ask, nowSec, p);
    NoZeroExpiry(fixed, Bid, p);
    NoZeroExpiry(fixed, Ask, p);
    NoOddBids(fixed, nowSec, p);
  }

  lemma {:induction false} NoZeroExpiry(nodes: seq<Node>, side: Side, p: int)
    requires FixedLeaves(nodes) && forall i :: 0 <= i < |nodes| ==> nodes[i].expiresAt.value.Text?
    ensures ZeroExpiry(nodes, side, p) == 0
  {
    if nodes != [] { NoZeroExpiry(nodes[..|nodes| - 1], side, p); }
  }

  lemma {:induction false} NoOddBids(nodes: seq<Node>, nowSec: int, p: int)
    ensures OddSide(nodes, Bid, nowSec, p) == 0
  {
    if nodes != [] { NoOddBids(nodes[..|nodes| - 1], nowSec, p); }
  }
}
