/**
 Price levels and resting orders from book leaves, as
 `features/trading/use-v3-book.ts` computes both. Prices and quantities are
 exact integers here; the source divides prices by a fixed scale for display.
 */
module PriceLevels {
  import opened Wrappers

  /** A number in the source is a `bigint` or, out of JSON, its decimal text. */
  datatype Int = Big(value: int) | Text(value: int) {
    /** Zero is falsy as a `bigint` and truthy as text. */
    predicate Truthy() {
      Text? || value != 0
    }
  }

  datatype Tree = Unmarked | Fixed | OraclePegged

  datatype Node = Node(
    tag: nat,
    side: Option<nat>,
    owner: Option<nat>,
    key: Option<Int>,
    quantity: Option<Int>,
    expiresAt: Option<Int>,
    pegLimit: Option<Int>,
    priceOrOffset: Option<Int>,
    postOnly: bool,
    reduceOnly: bool,
    tree: Tree)

  datatype Level = Level(price: int, size: int)

  predicate Present(i: Option<Int>) {
    i.Some? && i.value.Truthy()
  }

  /** The price at which a node counts on one side, if it counts. */
  function LivePrice(n: Node, bid: bool, oracleRaw: int, nowSec: int): (p: Option<int>)
    ensures p.Some? ==> p.value > 0 && n.quantity.Some? && n.quantity.value.value > 0
  {
    if n.tag != 2 || !Present(n.quantity) || !Present(n.priceOrOffset) then None
    else if Present(n.expiresAt) && n.expiresAt.value.value <= nowSec then None
    else
      var pegged := n.tree == OraclePegged;
      var price := n.priceOrOffset.value.value + if pegged then oracleRaw else 0;
      var limit := if Present(n.pegLimit) then n.pegLimit.value.value else 0;
      if pegged && (limit <= 0 || (if bid then price > limit else price < limit)) then None
      else if price <= 0 || n.quantity.value.value <= 0 then None
      else Some(price)
  }

  /** At which price a node counts, by its fields: a leaf with quantity, a price and time left; a pegged one at the
      oracle plus its offset,
          on the permitted side of its limit. A field that is zero as a `bigint` counts as missing. */
  lemma LivePriceIff(n: Node, bid: bool, oracleRaw: int, nowSec: int, p: int)
    ensures LivePrice(n, bid, oracleRaw, nowSec) == Some(p) <==>
            && n.tag == 2 && n.quantity.Some? && n.quantity.value.value > 0
            && n.priceOrOffset.Some? && n.priceOrOffset.value != Big(0) && p > 0
            && (n.expiresAt.None? || n.expiresAt.value == Big(0) || nowSec < n.expiresAt.value.value)
            && if n.tree != OraclePegged then p == n.priceOrOffset.value.value
               else
                 && p == oracleRaw + n.priceOrOffset.value.value && n.pegLimit.Some? && n.pegLimit.value.value > 0
                 && (if bid then p <= n.pegLimit.value.value else p >= n.pegLimit.value.value)
  {}

  // ----- ordered levels -----

  predicate Better(bid: bool, p: int, q: int) {
    if bid then p > q else p < q
  }

  predicate Ordered(levels: seq<Level>, bid: bool) {
    forall i, j :: 0 <= i < j < |levels| ==> Better(bid, levels[i].price, levels[j].price)
  }

  predicate Positive(levels: seq<Level>) {
    forall i :: 0 <= i < |levels| ==> levels[i].size > 0
  }

  /** What a list of entries holds at one price. */
  function SizeIn(levels: seq<Level>, p: int): int {
    if levels == [] then 0
    else (if levels[0].price == p then levels[0].size else 0) + SizeIn(levels[1..], p)
  }

  /** Adds a quantity at a price, keeping the order. */
  function Add(levels: seq<Level>, price: int, quantity: int, bid: bool): seq<Level> {
    if levels == [] || Better(bid, price, levels[0].price) then [Level(price, quantity)] + levels
    else if levels[0].price == price then [Level(price, levels[0].size + quantity)] + levels[1..]
    else [levels[0]] + Add(levels[1..], price, quantity, bid)
  }

  /** Every listed price is behind `p`. */
  predicate Behind(levels: seq<Level>, bid: bool, p: int) {
    forall i :: 0 <= i < |levels| ==> Better(bid, p, levels[i].price)
  }

  lemma {:induction false} AddStaysBehind(levels: seq<Level>, price: int, quantity: int, bid: bool, p: int)
    requires Behind(levels, bid, p) && Better(bid, p, price)
    ensures Behind(Add(levels, price, quantity, bid), bid, p)
  {
    if levels != [] { AddStaysBehind(levels[1..], price, quantity, bid, p); }
  }

  lemma {:induction false} AddKeepsOrder(levels: seq<Level>, price: int, quantity: int, bid: bool)
    requires Ordered(levels, bid) && Positive(levels) && quantity > 0
    ensures Ordered(Add(levels, price, quantity, bid), bid) && Positive(Add(levels, price, quantity, bid))
  {
    if levels != [] && !Better(bid, price, levels[0].price) && levels[0].price != price {
      AddKeepsOrder(levels[1..], price, quantity, bid);
      AddStaysBehind(levels[1..], price, quantity, bid, levels[0].price);
    }
  }

  lemma SizeCons(head: Level, tail: seq<Level>, p: int)
    ensures SizeIn([head] + tail, p) == (if head.price == p then head.size else 0) + SizeIn(tail, p)
  {
    assert ([head] + tail)[1..] == tail;
  }

  lemma {:induction false} AddAdds(levels: seq<Level>, price: int, quantity: int, bid: bool, p: int)
    ensures SizeIn(Add(levels, price, quantity, bid), p) == SizeIn(levels, p) + if price == p then quantity else 0
  {
    if levels == [] || Better(bid, price, levels[0].price) {
      SizeCons(Level(price, quantity), levels, p);
    } else if levels[0].price == price {
      SizeCons(Level(price, levels[0].size + quantity), levels[1..], p);
    } else {
      AddAdds(levels[1..], price, quantity, bid, p);
      SizeCons(levels[0], Add(levels[1..], price, quantity, bid), p);
    }
  }

  lemma {:induction false} NothingAhead(levels: seq<Level>, bid: bool, p: int)
    requires Behind(levels, bid, p)
    ensures SizeIn(levels, p) == 0
  {
    if levels != [] { NothingAhead(levels[1..], bid, p); }
  }

  /** In an ordered list each level is the whole size at its price. */
  lemma {:induction false} LevelIsSize(levels: seq<Level>, bid: bool, i: nat)
    requires Ordered(levels, bid) && i < |levels|
    ensures SizeIn(levels, levels[i].price) == levels[i].size
  {
    if i == 0 {
      NothingAhead(levels[1..], bid, levels[0].price);
    } else {
      LevelIsSize(levels[1..], bid, i - 1);
    }
  }

  lemma {:induction false} SizeIsListed(levels: seq<Level>, p: int)
    requires SizeIn(levels, p) != 0
    ensures exists i :: 0 <= i < |levels| && levels[i].price == p
  {
    if levels[0].price != p {
      SizeIsListed(levels[1..], p);
      var i :| 0 <= i < |levels[1..]| && levels[1..][i].price == p;
      assert levels[i + 1].price == p;
    }
  }

  /** The first level of `a` is listed in `b`, not ahead of the first of `b`. */
  lemma HeadsMeet(a: seq<Level>, b: seq<Level>, bid: bool)
    requires Ordered(a, bid) && Positive(a) && Ordered(b, bid) && a != []
    requires SizeIn(a, a[0].price) == SizeIn(b, a[0].price)
    ensures b != [] && !Better(bid, a[0].price, b[0].price)
  {
    LevelIsSize(a, bid, 0);
    SizeIsListed(b, a[0].price);
  }

  /** An ordered list of positive levels is determined by its sizes. */
  lemma {:induction false} OrderedIsUnique(a: seq<Level>, b: seq<Level>, bid: bool)
    requires Ordered(a, bid) && Positive(a) && Ordered(b, bid) && Positive(b)
    requires forall p :: SizeIn(a, p) == SizeIn(b, p)
    ensures a == b
  {
    if a != [] { HeadsMeet(a, b, bid); }
    if b != [] { HeadsMeet(b, a, bid); }
    if a != [] {
      LevelIsSize(a, bid, 0);
      LevelIsSize(b, bid, 0);
      forall p
        ensures SizeIn(a[1..], p) == SizeIn(b[1..], p)
      {
        assert SizeIn(a, p) == SizeIn(b, p);
      }
      OrderedIsUnique(a[1..], b[1..], bid);
    }
  }

  // ----- levels of a node list -----

  /** The levels, adding one node after another to an ordered list. */
  function Levels(nodes: seq<Node>, bid: bool, oracleRaw: int, nowSec: int): seq<Level> {
    if nodes == [] then []
    else
      var levels, n := Levels(nodes[..|nodes| - 1], bid, oracleRaw, nowSec), nodes[|nodes| - 1];
      match LivePrice(n, bid, oracleRaw, nowSec)
      case None => levels
      case Some(p) => Add(levels, p, n.quantity.value.value, bid)
  }

  /** `Map.set` of a price: in place when present, else at the end. */
  function Bump(entries: seq<Level>, price: int, quantity: int): seq<Level> {
    if entries == [] then [Level(price, quantity)]
    else if entries[0].price == price then [Level(price, entries[0].size + quantity)] + entries[1..]
    else [entries[0]] + Bump(entries[1..], price, quantity)
  }

  lemma {:induction false} BumpBumps(entries: seq<Level>, price: int, quantity: int, p: int)
    ensures SizeIn(Bump(entries, price, quantity), p) == SizeIn(entries, p) + if price == p then quantity else 0
  {
    if entries != [] {
      if entries[0].price == price {
        SizeCons(Level(price, entries[0].size + quantity), entries[1..], p);
      } else {
        BumpBumps(entries[1..], price, quantity, p);
        SizeCons(entries[0], Bump(entries[1..], price, quantity), p);
      }
    } else {
      SizeCons(Level(price, quantity), [], p);
      assert [Level(price, quantity)] + [] == [Level(price, quantity)];
    }
  }

  lemma {:induction false} BumpStaysPositive(entries: seq<Level>, price: int, quantity: int)
    requires Positive(entries) && quantity > 0
    ensures Positive(Bump(entries, price, quantity))
  {
    if entries != [] { BumpStaysPositive(entries[1..], price, quantity); }
  }

  /** The source fills a map in the order the nodes come and sorts its entries at the end. */
  method LevelsFrom(nodes: seq<Node>, bid: bool, oracleRaw: int, nowSec: int) returns (levels: seq<Level>)
    ensures levels == Levels(nodes, bid, oracleRaw, nowSec)
  {
    var bySide := FillMap(nodes, bid, oracleRaw, nowSec);
    levels := SortEntries(bySide, bid);
    LevelsAreOrdered(nodes, bid, oracleRaw, nowSec);
    forall p
      ensures SizeIn(levels, p) == SizeIn(Levels(nodes, bid, oracleRaw, nowSec), p)
    {
      SizeOfLevels(nodes, bid, oracleRaw, nowSec, p);
      assert SizeIn(levels, p) == SizeIn(bySide, p);
    }
    OrderedIsUnique(levels, Levels(nodes, bid, oracleRaw, nowSec), bid);
  }

  method FillMap(nodes: seq<Node>, bid: bool, oracleRaw: int, nowSec: int) returns (bySide: seq<Level>)
    ensures Positive(bySide)
    ensures forall p :: SizeIn(bySide, p) == SizeAt(nodes, bid, oracleRaw, nowSec, p)
  {
    bySide := [];
    for i := 0 to |nodes|
      invariant Positive(bySide)
      invariant forall p :: SizeIn(bySide, p) == SizeAt(nodes[..i], bid, oracleRaw, nowSec, p)
    {
      var n := nodes[i];
      assert nodes[..i + 1][..i] == nodes[..i];
      var price := LivePrice(n, bid, oracleRaw, nowSec);
      if price.Some? {
        forall p
          ensures SizeIn(Bump(bySide, price.value, n.quantity.value.value), p)
               == SizeAt(nodes[..i + 1], bid, oracleRaw, nowSec, p)
        {
          BumpBumps(bySide, price.value, n.quantity.value.value, p);
        }
        BumpStaysPositive(bySide, price.value, n.quantity.value.value);
        bySide := Bump(bySide, price.value, n.quantity.value.value);
      }
    }
    assert nodes[..|nodes|] == nodes;
  }

  method SortEntries(entries: seq<Level>, bid: bool) returns (levels: seq<Level>)
    requires Positive(entries)
    ensures Ordered(levels, bid) && Positive(levels)
    ensures forall p :: SizeIn(levels, p) == SizeIn(entries, p)
  {
    levels := [];
    for i := 0 to |entries|
      invariant Ordered(levels, bid) && Positive(levels)
      invariant forall p :: SizeIn(levels, p) + SizeIn(entries[i..], p) == SizeIn(entries, p)
    {
      var e := entries[i];
      forall p
        ensures SizeIn(Add(levels, e.price, e.size, bid), p) + SizeIn(entries[i + 1..], p) == SizeIn(entries, p)
      {
        AddAdds(levels, e.price, e.size, bid, p);
        assert entries[i..][1..] == entries[i + 1..];
        assert SizeIn(levels, p) + SizeIn(entries[i..], p) == SizeIn(entries, p);
      }
      AddKeepsOrder(levels, e.price, e.size, bid);
      levels := Add(levels, e.price, e.size, bid);
    }
  }

  lemma {:induction false} LevelsAreOrdered(nodes: seq<Node>, bid: bool, oracleRaw: int, nowSec: int)
    ensures Ordered(Levels(nodes, bid, oracleRaw, nowSec), bid) && Positive(Levels(nodes, bid, oracleRaw, nowSec))
  {
    if nodes != [] {
      var front, n := nodes[..|nodes| - 1], nodes[|nodes| - 1];
      LevelsAreOrdered(front, bid, oracleRaw, nowSec);
      var p := LivePrice(n, bid, oracleRaw, nowSec);
      if p.Some? { AddKeepsOrder(Levels(front, bid, oracleRaw, nowSec), p.value, n.quantity.value.value, bid); }
    }
  }

  /** The quantity that live nodes bring to one price. */
  function SizeAt(nodes: seq<Node>, bid: bool, oracleRaw: int, nowSec: int, p: int): nat {
    if nodes == [] then 0
    else
      var n := nodes[|nodes| - 1];
      SizeAt(nodes[..|nodes| - 1], bid, oracleRaw, nowSec, p)
      + if LivePrice(n, bid, oracleRaw, nowSec) == Some(p) then n.quantity.value.value else 0
  }

  lemma {:induction false} SizeOfLevels(nodes: seq<Node>, bid: bool, oracleRaw: int, nowSec: int, p: int)
    ensures SizeIn(Levels(nodes, bid, oracleRaw, nowSec), p) == SizeAt(nodes, bid, oracleRaw, nowSec, p)
  {
    if nodes != [] {
      var front, n := nodes[..|nodes| - 1], nodes[|nodes| - 1];
      SizeOfLevels(front, bid, oracleRaw, nowSec, p);
      var q := LivePrice(n, bid, oracleRaw, nowSec);
      if q.Some? { AddAdds(Levels(front, bid, oracleRaw, nowSec), q.value, n.quantity.value.value, bid, p); }
    }
  }

  /** The levels are in strict price order, best first; each holds exactly the live quantity at its
      price, which is positive, and every price with live quantity has its level. */
  lemma LevelsAreSums(nodes: seq<Node>, bid: bool, oracleRaw: int, nowSec: int)
    ensures var levels := Levels(nodes, bid, oracleRaw, nowSec);
            && Ordered(levels, bid)
            && (forall i :: 0 <= i < |levels| ==>
                  levels[i].size == SizeAt(nodes, bid, oracleRaw, nowSec, levels[i].price) > 0)
            && (forall p :: SizeAt(nodes, bid, oracleRaw, nowSec, p) > 0 ==>
                 exists i :: 0 <= i < |levels| && levels[i].price == p)
  {
    var levels := Levels(nodes, bid, oracleRaw, nowSec);
    LevelsAreOrdered(nodes, bid, oracleRaw, nowSec);
    forall i | 0 <= i < |levels|
      ensures levels[i].size == SizeAt(nodes, bid, oracleRaw, nowSec, levels[i].price) > 0
    {
      LevelIsSize(levels, bid, i);
      SizeOfLevels(nodes, bid, oracleRaw, nowSec, levels[i].price);
    }
    forall p | SizeAt(nodes, bid, oracleRaw, nowSec, p) > 0
      ensures exists i :: 0 <= i < |levels| && levels[i].price == p
    {
      SizeOfLevels(nodes, bid, oracleRaw, nowSec, p);
      SizeIsListed(levels, p);
    }
  }

  function Total(levels: seq<Level>): int {
    if levels == [] then 0 else levels[0].size + Total(levels[1..])
  }

  function LiveQuantity(nodes: seq<Node>, bid: bool, oracleRaw: int, nowSec: int): nat {
    if nodes == [] then 0
    else
      var n := nodes[|nodes| - 1];
      LiveQuantity(nodes[..|nodes| - 1], bid, oracleRaw, nowSec)
      + if LivePrice(n, bid, oracleRaw, nowSec).Some? then n.quantity.value.value else 0
  }

  lemma {:induction false} AddAddsToTotal(levels: seq<Level>, price: int, quantity: int, bid: bool)
    ensures Total(Add(levels, price, quantity, bid)) == Total(levels) + quantity
  {
    if levels == [] || Better(bid, price, levels[0].price) {
      assert ([Level(price, quantity)] + levels)[1..] == levels;
    } else if levels[0].price == price {
      assert ([Level(price, levels[0].size + quantity)] + levels[1..])[1..] == levels[1..];
    } else {
      AddAddsToTotal(levels[1..], price, quantity, bid);
      var rest := Add(levels[1..], price, quantity, bid);
      assert ([levels[0]] + rest)[1..] == rest;
    }
  }

  /** No live quantity is lost or counted twice. */
  lemma {:induction false} QuantityIsConserved(nodes: seq<Node>, bid: bool, oracleRaw: int, nowSec: int)
    ensures Total(Levels(nodes, bid, oracleRaw, nowSec)) == LiveQuantity(nodes, bid, oracleRaw, nowSec)
  {
    if nodes != [] {
      var front, n := nodes[..|nodes| - 1], nodes[|nodes| - 1];
      QuantityIsConserved(front, bid, oracleRaw, nowSec);
      var p := LivePrice(n, bid, oracleRaw, nowSec);
      if p.Some? { AddAddsToTotal(Levels(front, bid, oracleRaw, nowSec), p.value, n.quantity.value.value, bid); }
    }
  }

  // ----- the order of the nodes does not matter -----

  lemma {:induction false} SizeConcat(a: seq<Node>, b: seq<Node>, bid: bool, oracleRaw: int, nowSec: int, p: int)
    ensures SizeAt(a + b, bid, oracleRaw, nowSec, p)
         == SizeAt(a, bid, oracleRaw, nowSec, p) + SizeAt(b, bid, oracleRaw, nowSec, p)
  {
    if b == [] {
      assert a + b == a;
    } else {
      assert (a + b)[..|a + b| - 1] == a + b[..|b| - 1];
      SizeConcat(a, b[..|b| - 1], bid, oracleRaw, nowSec, p);
    }
  }

  lemma {:induction false} SizeOfPermutation(a: seq<Node>, b: seq<Node>, bid: bool, oracleRaw: int, nowSec: int, p: int)
    requires multiset(a) == multiset(b)
    ensures SizeAt(a, bid, oracleRaw, nowSec, p) == SizeAt(b, bid, oracleRaw, nowSec, p)
  {
    if a == [] {
      assert |multiset(b)| == 0;
    } else {
      var front, n := a[..|a| - 1], a[|a| - 1];
      assert a == front + [n];
      assert n in multiset(b);
      var i :| 0 <= i < |b| && b[i] == n;
      var x, y := b[..i], b[i + 1..];
      assert b == x + [n] + y;
      WithoutOne(front, n, x, y);
      SizeOfPermutation(front, x + y, bid, oracleRaw, nowSec, p);
      SizeConcat(x, y, bid, oracleRaw, nowSec, p);
      SizeConcat(x + [n], y, bid, oracleRaw, nowSec, p);
      SizeConcat(x, [n], bid, oracleRaw, nowSec, p);
      SizeConcat(front, [n], bid, oracleRaw, nowSec, p);
    }
  }

  lemma WithoutOne(front: seq<Node>, n: Node, x: seq<Node>, y: seq<Node>)
    requires multiset(front + [n]) == multiset(x + [n] + y)
    ensures multiset(front) == multiset(x + y)
  {
    assert multiset(x + [n] + y) == multiset(x + y) + multiset{n};
    assert multiset(front + [n]) - multiset{n} == multiset(front);
    assert multiset(x + y) + multiset{n} - multiset{n} == multiset(x + y);
  }

  /** Any order of the same nodes gives the same levels. */
  lemma LevelsOfPermutation(a: seq<Node>, b: seq<Node>, bid: bool, oracleRaw: int, nowSec: int)
    requires multiset(a) == multiset(b)
    ensures Levels(a, bid, oracleRaw, nowSec) == Levels(b, bid, oracleRaw, nowSec)
  {
    var la, lb := Levels(a, bid, oracleRaw, nowSec), Levels(b, bid, oracleRaw, nowSec);
    LevelsAreOrdered(a, bid, oracleRaw, nowSec);
    LevelsAreOrdered(b, bid, oracleRaw, nowSec);
    forall p
      ensures SizeIn(la, p) == SizeIn(lb, p)
    {
      SizeOfLevels(a, bid, oracleRaw, nowSec, p);
      SizeOfLevels(b, bid, oracleRaw, nowSec, p);
      SizeOfPermutation(a, b, bid, oracleRaw, nowSec, p);
    }
    OrderedIsUnique(la, lb, bid);
  }

  // ----- levels and listed orders -----

  datatype Side = Bid | Ask

  datatype RestingOrder = RestingOrder(
    owner: nat, orderKey: int, side: Side, price: int, quantity: int, expiresAt: int, postOnly: bool, reduceOnly: bool)

  /** A leaf of the fixed-price book with every field read from the chain. */
  predicate FixedLeaf(n: Node) {
    && n.tag == 2 && n.tree != OraclePegged
    && n.side.Some? && n.owner.Some? && n.key.Some? && n.quantity.Some? && n.expiresAt.Some? && n.priceOrOffset.Some?
  }

  predicate FixedLeaves(nodes: seq<Node>) {
    forall i :: 0 <= i < |nodes| ==> FixedLeaf(nodes[i])
  }

  predicate Listed(n: Node, nowSec: int)
    requires FixedLeaf(n)
  {
    n.expiresAt.value.value > nowSec && n.quantity.value.value > 0
  }

  /** Any side other than 0 is listed as an ask. */
  function OrderOf(n: Node): RestingOrder
    requires FixedLeaf(n)
  {
    RestingOrder(n.owner.value, n.key.value.value, if n.side.value == 0 then Bid else Ask, n.priceOrOffset.value.value,
                 n.quantity.value.value, n.expiresAt.value.value, n.postOnly, n.reduceOnly)
  }

  function Orders(nodes: seq<Node>, nowSec: int): seq<RestingOrder>
    requires FixedLeaves(nodes)
  {
    if nodes == [] then []
    else
      var front, n := Orders(nodes[..|nodes| - 1], nowSec), nodes[|nodes| - 1];
      if Listed(n, nowSec) then front + [OrderOf(n)] else front
  }

  function OfSide(nodes: seq<Node>, side: nat): seq<Node> {
    if nodes == [] then []
    else
      var front, n := OfSide(nodes[..|nodes| - 1], side), nodes[|nodes| - 1];
      if n.side == Some(side) then front + [n] else front
  }

  function OrderSum(orders: seq<RestingOrder>, side: Side, p: int): int {
    if orders == [] then 0
    else
      var o := orders[|orders| - 1];
      OrderSum(orders[..|orders| - 1], side, p) + if o.side == side && o.price == p then o.quantity else 0
  }

  function SideCode(side: Side): nat {
    match side case Bid => 0 case Ask => 1
  }

  /** Live only for the levels: an expiry of zero as a `bigint` reads there as no expiry. */
  function ZeroPart(n: Node, side: Side, p: int): nat {
    if FixedLeaf(n) && n.side.value == SideCode(side) && n.expiresAt.value == Big(0) && n.quantity.value.value > 0
       && n.priceOrOffset.value.value == p then n.quantity.value.value else 0
  }

  function ZeroExpiry(nodes: seq<Node>, side: Side, p: int): nat {
    if nodes == [] then 0 else ZeroExpiry(nodes[..|nodes| - 1], side, p) + ZeroPart(nodes[|nodes| - 1], side, p)
  }

  /** Live only for the orders: a side byte above 1 is listed as an ask but builds no level. */
  function OddPart(n: Node, side: Side, nowSec: int, p: int): nat {
    if side == Ask && FixedLeaf(n) && n.side.value > 1 && Listed(n, nowSec) && n.priceOrOffset.value.value == p
    then n.quantity.value.value else 0
  }

  function OddSide(nodes: seq<Node>, side: Side, nowSec: int, p: int): nat {
    if nodes == [] then 0
        else OddSide(nodes[..|nodes| - 1], side, nowSec, p) + OddPart(nodes[|nodes| - 1], side, nowSec, p)
  }

  /** What one leaf brings to its side's level. */
  function LevelPart(n: Node, side: Side, nowSec: int, p: int): nat {
    if n.side == Some(SideCode(side)) && LivePrice(n, side == Bid, 0, nowSec) == Some(p) then n.quantity.value.value
        else 0
  }

  /** What one leaf brings to the listed orders. */
  function OrderPart(n: Node, side: Side, nowSec: int, p: int): int
    requires FixedLeaf(n)
  {
    if Listed(n, nowSec) && OrderOf(n).side == side && OrderOf(n).price == p then n.quantity.value.value else 0
  }

  lemma PartsBalance(n: Node, side: Side, nowSec: int, p: int)
    requires FixedLeaf(n) && p > 0 && nowSec >= 0
    ensures LevelPart(n, side, nowSec, p) + OddPart(n, side, nowSec, p)
         == OrderPart(n, side, nowSec, p) + ZeroPart(n, side, p)
  {}

  lemma SizeOfSideSnoc(front: seq<Node>, n: Node, side: Side, nowSec: int, p: int)
    ensures SizeAt(OfSide(front + [n], SideCode(side)), side == Bid, 0, nowSec, p)
         == SizeAt(OfSide(front, SideCode(side)), side == Bid, 0, nowSec, p) + LevelPart(n, side, nowSec, p)
  {
    assert (front + [n])[..|front|] == front;
    var sided := OfSide(front, SideCode(side));
    assert (sided + [n])[..|sided|] == sided;
  }

  lemma OrderSumSnoc(front: seq<Node>, n: Node, side: Side, nowSec: int, p: int)
    requires FixedLeaves(front + [n])
    ensures FixedLeaves(front) && FixedLeaf(n)
    ensures OrderSum(Orders(front + [n], nowSec), side, p)
         == OrderSum(Orders(front, nowSec), side, p) + OrderPart(n, side, nowSec, p)
  {
    assert (front + [n])[..|front|] == front && (front + [n])[|front|] == n;
    assert forall i :: 0 <= i < |front| ==> front[i] == (front + [n])[i];
    var orders := Orders(front, nowSec);
    assert (orders + [OrderOf(n)])[..|orders|] == orders;
  }

  function LevelSize(nodes: seq<Node>, side: Side, nowSec: int, p: int): int {
    SizeIn(Levels(OfSide(nodes, SideCode(side)), side == Bid, 0, nowSec), p)
  }

  lemma {:induction false} LevelsAgainstOrders(nodes: seq<Node>, side: Side, nowSec: int, p: int)
    requires FixedLeaves(nodes) && p > 0 && nowSec >= 0
    ensures SizeAt(OfSide(nodes, SideCode(side)), side == Bid, 0, nowSec, p) + OddSide(nodes, side, nowSec, p)
         == OrderSum(Orders(nodes, nowSec), side, p) + ZeroExpiry(nodes, side, p)
  {
    if nodes != [] {
      var front, n := nodes[..|nodes| - 1], nodes[|nodes| - 1];
      LevelsAgainstOrders(front, side, nowSec, p);
      assert nodes == front + [n];
      SizeOfSideSnoc(front, n, side, nowSec, p);
      OrderSumSnoc(front, n, side, nowSec, p);
      PartsBalance(n, side, nowSec, p);
    }
  }

  lemma {:induction false} NoSizeAtNonPositive(nodes: seq<Node>, bid: bool, oracleRaw: int, nowSec: int, p: int)
    requires p <= 0
    ensures SizeAt(nodes, bid, oracleRaw, nowSec, p) == 0
  {
    if nodes != [] { NoSizeAtNonPositive(nodes[..|nodes| - 1], bid, oracleRaw, nowSec, p); }
  }

  /** The exact difference, for every leaf list, side and price: at a positive price a level exceeds the
      listed orders by the leaves with a zero `bigint` expiry and lacks the orders of an odd side byte;
      at any other price the orders are listed and there is no level. */
  lemma LevelIsOrderSum(nodes: seq<Node>, side: Side, nowSec: int, p: int)
    requires FixedLeaves(nodes) && nowSec >= 0
    ensures p > 0 ==>
              LevelSize(nodes, side, nowSec, p) + OddSide(nodes, side, nowSec, p)
              == OrderSum(Orders(nodes, nowSec), side, p) + ZeroExpiry(nodes, side, p)
    ensures p <= 0 ==> LevelSize(nodes, side, nowSec, p) == 0
  {
    SizeOfLevels(OfSide(nodes, SideCode(side)), side == Bid, 0, nowSec, p);
    if p > 0 {
      LevelsAgainstOrders(nodes, side, nowSec, p);
    } else {
      NoSizeAtNonPositive(OfSide(nodes, SideCode(side)), side == Bid, 0, nowSec, p);
    }
  }

  /** A leaf whose expiry is zero, which on the chain means that it never expires, makes a level
      while no order is listed. */
  lemma NeverExpiringIsUnlisted(n: Node, side: Side, nowSec: int)
    requires FixedLeaf(n) && n.side.value == SideCode(side) && n.expiresAt.value == Big(0) && nowSec >= 0
    requires n.quantity.value.value > 0 && n.priceOrOffset.value.value > 0
    ensures Orders([n], nowSec) == []
    ensures LevelSize([n], side, nowSec, n.priceOrOffset.value.value) == n.quantity.value.value
  {
    var p := n.priceOrOffset.value.value;
    SizeOfLevels(OfSide([n], SideCode(side)), side == Bid, 0, nowSec, p);
    SizeOfSideSnoc([], n, side, nowSec, p);
    OrderSumSnoc([], n, side, nowSec, p);
    assert [] + [n] == [n] && [n][..0] == [];
  }

  /** The levels show exactly the listed orders when every side byte is 0 or 1 and no expiry is a zero `bigint`. */
  lemma LevelIsOrderSumWhenWellFormed(nodes: seq<Node>, side: Side, nowSec: int, p: int)
    requires FixedLeaves(nodes) && p > 0 && nowSec >= 0
    requires forall i :: 0 <= i < |nodes| ==> nodes[i].side.value <= 1 && nodes[i].expiresAt.value != Big(0)
    ensures LevelSize(nodes, side, nowSec, p) == OrderSum(Orders(nodes, nowSec), side, p)
  {
    LevelIsOrderSum(nodes, side, nowSec, p);
    NoOddities(nodes, side, nowSec, p);
  }

  lemma {:induction false} NoOddities(nodes: seq<Node>, side: Side, nowSec: int, p: int)
    requires FixedLeaves(nodes)
    requires forall i :: 0 <= i < |nodes| ==> nodes[i].side.value <= 1 && nodes[i].expiresAt.value != Big(0)
    ensures OddSide(nodes, side, nowSec, p) == 0 && ZeroExpiry(nodes, side, p) == 0
  {
    if nodes != [] { NoOddities(nodes[..|nodes| - 1], side, nowSec, p); }
  }

  // ----- the same leaves read directly and out of JSON -----

  function TextOf(i: Option<Int>): Option<Int> {
    if i.None? then None else Some(Text(i.value.value))
  }

  /** The market API sends every `bigint` as its decimal text. */
  function Jsoned(n: Node): Node {
    n.(key := TextOf(n.key), quantity := TextOf(n.quantity), expiresAt := TextOf(n.expiresAt),
       pegLimit := TextOf(n.pegLimit), priceOrOffset := TextOf(n.priceOrOffset))
  }

  function JsonedAll(nodes: seq<Node>): (r: seq<Node>)
    ensures |r| == |nodes|
  {
    if nodes == [] then [] else JsonedAll(nodes[..|nodes| - 1]) + [Jsoned(nodes[|nodes| - 1])]
  }

  lemma {:induction false} JsonKeepsOrders(nodes: seq<Node>, side: Side, nowSec: int, p: int)
    requires FixedLeaves(nodes)
    ensures FixedLeaves(JsonedAll(nodes))
    ensures Orders(JsonedAll(nodes), nowSec) == Orders(nodes, nowSec)
    ensures OddSide(JsonedAll(nodes), side, nowSec, p) == OddSide(nodes, side, nowSec, p)
    ensures ZeroExpiry(JsonedAll(nodes), side, p) == 0
  {
    if nodes != [] {
      var front := nodes[..|nodes| - 1];
      JsonKeepsOrders(front, side, nowSec, p);
      var j := JsonedAll(nodes);
      assert j[..|j| - 1] == JsonedAll(front);
    }
  }

  /** Both paths list the same orders; their levels differ by exactly the zero-expiry leaves, which
      only the direct path shows. */
  lemma PathsCompared(nodes: seq<Node>, side: Side, nowSec: int, p: int)
    requires FixedLeaves(nodes) && p > 0 && nowSec >= 0
    ensures FixedLeaves(JsonedAll(nodes)) && Orders(JsonedAll(nodes), nowSec) == Orders(nodes, nowSec)
    ensures LevelSize(nodes, side, nowSec, p)
         == LevelSize(JsonedAll(nodes), side, nowSec, p) + ZeroExpiry(nodes, side, p)
  {
    JsonKeepsOrders(nodes, side, nowSec, p);
    LevelIsOrderSum(nodes, side, nowSec, p);
    LevelIsOrderSum(JsonedAll(nodes), side, nowSec, p);
  }
}
