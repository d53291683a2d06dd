/**
 The sums of `cancel_owner_summary` in `programs/equinox/src/book.rs`, checked
 for overflow order by order, against the totals of the books.
 */
module CancelSums {
  import opened Wrappers
  import opened OrderKeys
  import opened Patricia

  const U128_MAX := 0xFFFF_FFFF_FFFF_FFFF_FFFF_FFFF_FFFF_FFFF

  datatype CancelSummary = CancelSummary(count: nat, bidQuantity: nat, askQuantity: nat, reservedNotional: nat)

  const NO_CANCELS := CancelSummary(0, 0, 0, 0)

  datatype Column = Count | BidQuantity | AskQuantity | ReservedNotional

  function Cell(s: CancelSummary, c: Column): nat {
    match c
    case Count => s.count
    case BidQuantity => s.bidQuantity
    case AskQuantity => s.askQuantity
    case ReservedNotional => s.reservedNotional
  }

  /** What one cancelled order adds to a column. */
  function Part(order: Order, c: Column): nat {
    match c
    case Count => 1
    case BidQuantity => if order.side == 0 then order.quantity else 0
    case AskQuantity => if order.side == 0 then 0 else order.quantity
    case ReservedNotional => if order.priceOrOffset <= 0 then 0 else order.quantity * order.priceOrOffset
  }

  /** Counts are kept below the caller's limit; the other columns are checked. */
  predicate Exceeds(n: nat, c: Column) {
    match c
    case Count => false
    case ReservedNotional => n > U128_MAX
    case _ => n > U64_MAX
  }

  /** Adds a cancelled order; None stands for an overflow. */
  function Add(s: CancelSummary, order: Order): Option<CancelSummary> {
    var bids, asks := s.bidQuantity + Part(order, BidQuantity), s.askQuantity + Part(order, AskQuantity);
    var notional := s.reservedNotional + Part(order, ReservedNotional);
    if Exceeds(bids, BidQuantity) || Exceeds(asks, AskQuantity) || Exceeds(notional, ReservedNotional) then None
    else Some(CancelSummary(s.count + 1, bids, asks, notional))
  }

  function Total(es: seq<Entry>, c: Column): nat {
    if es == [] then 0 else Part(es[0].order, c) + Total(es[1..], c)
  }

  lemma AddedCell(s: CancelSummary, order: Order, c: Column)
    requires Add(s, order).Some?
    ensures Cell(Add(s, order).value, c) == Cell(s, c) + Part(order, c)
  {}

  /** The sum over a log; None stands for an overflow on the way. */
  function Summed<S>(add: (S, Order) -> Option<S>, s: S, log: seq<Option<Order>>): Option<S> {
    if log == [] then Some(s)
    else
      var front, last := Summed(add, s, log[..|log| - 1]), log[|log| - 1];
      if front.None? || last.None? then front else add(front.value, last.value)
  }

  lemma SummedSnoc<S>(add: (S, Order) -> Option<S>, s: S, log: seq<Option<Order>>, last: Option<Order>)
    ensures var front := Summed(add, s, log);
            Summed(add, s, log + [last]) == if front.None? || last.None? then front else add(front.value, last.value)
  {
    assert (log + [last])[..|log|] == log;
  }

  function PartOf(order: Option<Order>, c: Column): nat {
    if order.None? then 0 else Part(order.value, c)
  }

  function LogSum(log: seq<Option<Order>>, c: Column): nat {
    if log == [] then 0 else LogSum(log[..|log| - 1], c) + PartOf(log[|log| - 1], c)
  }

  lemma LogSumSnoc(log: seq<Option<Order>>, last: Option<Order>, c: Column)
    ensures LogSum(log + [last], c) == LogSum(log, c) + PartOf(last, c)
  {
    assert (log + [last])[..|log|] == log;
  }

  /** The summary holds the sums, or one of them is too large. */
  lemma {:induction false} SummedCells(s: CancelSummary, log: seq<Option<Order>>)
    ensures var r := Summed(Add, s, log);
            if r.Some? then forall c :: Cell(r.value, c) == Cell(s, c) + LogSum(log, c)
            else exists c :: Exceeds(Cell(s, c) + LogSum(log, c), c)
  {
    if log != [] {
      var front, last := log[..|log| - 1], log[|log| - 1];
      SummedCells(s, front);
      var r := Summed(Add, s, front);
      if r.None? {
        var c :| Exceeds(Cell(s, c) + LogSum(front, c), c);
        assert Exceeds(Cell(s, c) + LogSum(log, c), c);
      } else if last.Some? {
        AddedCells(s, r.value, front, last.value);
        assert log == front + [last];
      }
    }
  }

  lemma AddedCells(s: CancelSummary, s': CancelSummary, log: seq<Option<Order>>, order: Order)
    requires forall c :: Cell(s', c) == Cell(s, c) + LogSum(log, c)
    ensures var r := Add(s', order);
            if r.Some? then forall c :: Cell(r.value, c) == Cell(s, c) + LogSum(log + [Some(order)], c)
            else exists c :: Exceeds(Cell(s, c) + LogSum(log + [Some(order)], c), c)
  {
    forall c
      ensures LogSum(log + [Some(order)], c) == LogSum(log, c) + Part(order, c)
    {
      LogSumSnoc(log, Some(order), c);
    }
    if Add(s', order).Some? {
      forall c
        ensures Cell(Add(s', order).value, c) == Cell(s', c) + Part(order, c)
      {
        AddedCell(s', order, c);
      }
    } else {
      var c := if Exceeds(s'.bidQuantity + Part(order, BidQuantity), BidQuantity) then BidQuantity
               else if Exceeds(s'.askQuantity + Part(order, AskQuantity), AskQuantity) then AskQuantity else ReservedNotional;
      assert Cell(s', c) == Cell(s, c) + LogSum(log, c);
      assert Exceeds(Cell(s, c) + LogSum(log + [Some(order)], c), c);
    }
  }

  /** What one slot of a scan takes out of a book. */
  lemma {:induction false} ScanTakes(es: seq<Entry>, owner: nat, slot: nat, c: Column)
    requires Ascending(es) && OneSlotEach(es)
    ensures Total(Unscanned(es, owner, slot), c)
            == Total(Unscanned(es, owner, slot + 1), c) + PartOf(OrderIn(es, owner, slot), c)
  {
    if es != [] {
      var x, tail := es[0], es[1..];
      AscendingTail(es);
      TotalCons(x, Unscanned(tail, owner, slot), c);
      TotalCons(x, Unscanned(tail, owner, slot + 1), c);
      assert x in es && forall y :: y in tail ==> y in es;
      if x.order.owner == owner && x.slot == slot {
        ScanMisses(tail, owner, slot);
      } else {
        ScanTakes(tail, owner, slot, c);
      }
    }
  }

  lemma TotalCons(x: Entry, es: seq<Entry>, c: Column)
    ensures Total([x] + es, c) == Part(x.order, c) + Total(es, c)
  {
    assert ([x] + es)[1..] == es;
  }

  /** What is cancelled and what is left is what was there. */
  lemma {:induction false} ScanConserves(es: seq<Entry>, owner: nat, log: seq<Option<Order>>, c: Column)
    requires Ascending(es) && OneSlotEach(es) && LogOf(es, owner, log)
    ensures Total(es, c) == Total(Unscanned(es, owner, |log|), c) + LogSum(log, c)
  {
    if log == [] {
      NothingScanned(es, owner);
    } else {
      var front := log[..|log| - 1];
      forall k | 0 <= k < |front|
        ensures LoggedAt(es, owner, front, k)
      {
        assert LoggedAt(es, owner, log, k);
      }
      assert LoggedAt(es, owner, log, |log| - 1);
      ScanConserves(es, owner, front, c);
      ScanTakes(es, owner, |log| - 1, c);
    }
  }

  /** The owner's part of a column. */
  function OwnTotal(es: seq<Entry>, owner: nat, c: Column): nat {
    if es == [] then 0
    else (if es[0].order.owner == owner then Part(es[0].order, c) else 0) + OwnTotal(es[1..], owner, c)
  }

  lemma {:induction false} OwnAndOthers(es: seq<Entry>, owner: nat, c: Column)
    ensures Total(es, c) == OwnTotal(es, owner, c) + Total(OthersOf(es, owner), c)
  {
    if es != [] {
      OwnAndOthers(es[1..], owner, c);
      var others := OthersOf(es[1..], owner);
      TotalCons(es[0], others, c);
      assert [] + others == others;
    }
  }

  lemma {:induction false} OthersAreLeft(es: seq<Entry>, owner: nat, bound: nat, c: Column)
    ensures Total(OthersOf(es, owner), c) <= Total(Unscanned(es, owner, bound), c)
  {
    if es != [] {
      OthersAreLeft(es[1..], owner, bound, c);
      var others := OthersOf(es[1..], owner);
      TotalCons(es[0], others, c);
      TotalCons(es[0], Unscanned(es[1..], owner, bound), c);
      assert [] + others == others;
    }
  }

  /** A scan sums nothing but orders of the owner. */
  lemma LogSumIsOwn(es: seq<Entry>, owner: nat, log: seq<Option<Order>>, c: Column)
    requires Ascending(es) && OneSlotEach(es) && LogOf(es, owner, log)
    ensures LogSum(log, c) <= OwnTotal(es, owner, c)
  {
    ScanConserves(es, owner, log, c);
    OwnAndOthers(es, owner, c);
    OthersAreLeft(es, owner, |log|, c);
  }

  /** Both trees together. */
  ghost predicate BothBalanced(es: seq<Entry>, fs: seq<Entry>, s: CancelSummary, es': seq<Entry>, fs': seq<Entry>) {
    forall c :: Cell(s, c) + Total(es', c) + Total(fs', c) == Total(es, c) + Total(fs, c)
  }

  /** Some column of the owner's orders alone does not fit. */
  ghost predicate BothOverflow(es: seq<Entry>, fs: seq<Entry>, owner: nat) {
    exists c :: Exceeds(OwnTotal(es, owner, c) + OwnTotal(fs, owner, c), c)
  }

  predicate Fits(s: CancelSummary) {
    !Exceeds(s.bidQuantity, BidQuantity) && !Exceeds(s.askQuantity, AskQuantity)
    && !Exceeds(s.reservedNotional, ReservedNotional)
  }

  lemma {:induction false} SummedFits(s: CancelSummary, log: seq<Option<Order>>)
    requires Fits(s)
    ensures var r := Summed(Add, s, log); r.Some? ==> Fits(r.value)
  {
    if log != [] { SummedFits(s, log[..|log| - 1]); }
  }

  /** When nothing of the owner is left, a sum that fits is the owner's total. */
  lemma WholeSumFits(es: seq<Entry>, fs: seq<Entry>, owner: nat, s: CancelSummary)
    requires BothBalanced(es, fs, s, OthersOf(es, owner), OthersOf(fs, owner)) && Fits(s)
    ensures !BothOverflow(es, fs, owner)
  {
    forall c
      ensures !Exceeds(OwnTotal(es, owner, c) + OwnTotal(fs, owner, c), c)
    {
      OwnAndOthers(es, owner, c);
      OwnAndOthers(fs, owner, c);
      assert Cell(s, c) == OwnTotal(es, owner, c) + OwnTotal(fs, owner, c);
    }
  }

  ghost predicate Counts(add: (CancelSummary, Order) -> Option<CancelSummary>) {
    forall s, order :: add(s, order).Some? ==> add(s, order).value.count == s.count + 1
  }

  /** The second scan goes on from the sum of the first; nothing is lost between books and summary. */
  lemma BothGone(es: seq<Entry>, log: seq<Option<Order>>, fs: seq<Entry>, log': seq<Option<Order>>, owner: nat)
    requires Ascending(es) && OneSlotEach(es) && Ascending(fs) && OneSlotEach(fs)
    requires LogOf(es, owner, log) && LogOf(fs, owner, log')
    ensures var s := Summed(Add, NO_CANCELS, log);
            if s.None? then BothOverflow(es, fs, owner)
            else
              var s' := Summed(Add, s.value, log');
              if s'.None? then BothOverflow(es, fs, owner)
              else BothBalanced(es, fs, s'.value, Unscanned(es, owner, |log|), Unscanned(fs, owner, |log'|)) && Fits(s'.value)
  {
    SummedCells(NO_CANCELS, log);
    SummedFits(NO_CANCELS, log);
    var s := Summed(Add, NO_CANCELS, log);
    if s.None? {
      var c :| Exceeds(Cell(NO_CANCELS, c) + LogSum(log, c), c);
      FirstOverflows(es, log, fs, owner, c);
    } else {
      SecondGone(es, log, fs, log', owner, s.value);
    }
  }

  lemma SecondGone(es: seq<Entry>, log: seq<Option<Order>>, fs: seq<Entry>, log': seq<Option<Order>>, owner: nat,
                   s: CancelSummary)
    requires Ascending(es) && OneSlotEach(es) && LogOf(es, owner, log) && Ascending(fs) && OneSlotEach(fs)
             && LogOf(fs, owner, log')
    requires Fits(s) && forall c :: Cell(s, c) == Cell(NO_CANCELS, c) + LogSum(log, c)
    ensures var s' := Summed(Add, s, log');
            if s'.None? then BothOverflow(es, fs, owner)
            else BothBalanced(es, fs, s'.value, Unscanned(es, owner, |log|), Unscanned(fs, owner, |log'|)) && Fits(s'.value)
  {
    SummedCells(s, log');
    SummedFits(s, log');
    var s' := Summed(Add, s, log');
    if s'.None? {
      var c :| Exceeds(Cell(s, c) + LogSum(log', c), c);
      SecondOverflows(es, log, fs, log', owner, s, c);
    } else {
      forall c
        ensures Cell(s'.value, c) + Total(Unscanned(es, owner, |log|), c) + Total(Unscanned(fs, owner, |log'|), c)
             == Total(es, c) + Total(fs, c)
      {
        BothConserve(es, log, fs, log', owner, s, s'.value, c);
      }
    }
  }

  lemma FirstOverflows(es: seq<Entry>, log: seq<Option<Order>>, fs: seq<Entry>, owner: nat, c: Column)
    requires Ascending(es) && OneSlotEach(es) && LogOf(es, owner, log) && Exceeds(Cell(NO_CANCELS, c) + LogSum(log, c), c)
    ensures BothOverflow(es, fs, owner)
  {
    LogSumIsOwn(es, owner, log, c);
    assert Exceeds(OwnTotal(es, owner, c) + OwnTotal(fs, owner, c), c);
  }

  lemma SecondOverflows(es: seq<Entry>, log: seq<Option<Order>>, fs: seq<Entry>, log': seq<Option<Order>>,
                        owner: nat, s: CancelSummary, c: Column)
    requires Ascending(es) && OneSlotEach(es) && LogOf(es, owner, log) && Ascending(fs) && OneSlotEach(fs)
             && LogOf(fs, owner, log')
    requires Cell(s, c) == Cell(NO_CANCELS, c) + LogSum(log, c) && Exceeds(Cell(s, c) + LogSum(log', c), c)
    ensures BothOverflow(es, fs, owner)
  {
    LogSumIsOwn(es, owner, log, c);
    LogSumIsOwn(fs, owner, log', c);
    assert Exceeds(OwnTotal(es, owner, c) + OwnTotal(fs, owner, c), c);
  }

  lemma BothConserve(es: seq<Entry>, log: seq<Option<Order>>, fs: seq<Entry>, log': seq<Option<Order>>, owner: nat,
                     s: CancelSummary, s': CancelSummary, c: Column)
    requires Ascending(es) && OneSlotEach(es) && LogOf(es, owner, log) && Ascending(fs) && OneSlotEach(fs)
             && LogOf(fs, owner, log')
    requires Cell(s, c) == Cell(NO_CANCELS, c) + LogSum(log, c) && Cell(s', c) == Cell(s, c) + LogSum(log', c)
    ensures Cell(s', c) + Total(Unscanned(es, owner, |log|), c) + Total(Unscanned(fs, owner, |log'|), c)
            == Total(es, c) + Total(fs, c)
  {
    ScanConserves(es, owner, log, c);
    ScanConserves(fs, owner, log', c);
  }

  // ----- the columns, summed over the owner's orders -----

  function OwnOrders(es: seq<Entry>, owner: nat): nat {
    if es == [] then 0 else (if es[0].order.owner == owner then 1 else 0) + OwnOrders(es[1..], owner)
  }

  function OwnBids(es: seq<Entry>, owner: nat): nat {
    if es == [] then 0
    else
      var o := es[0].order;
      (if o.owner == owner && o.side == 0 then o.quantity else 0) + OwnBids(es[1..], owner)
  }

  function OwnAsks(es: seq<Entry>, owner: nat): nat {
    if es == [] then 0
    else
      var o := es[0].order;
      (if o.owner == owner && o.side != 0 then o.quantity else 0) + OwnAsks(es[1..], owner)
  }

  /** Quantity times price; a price or offset of zero or less reserves nothing. */
  function OwnNotional(es: seq<Entry>, owner: nat): nat {
    if es == [] then 0
    else
      var o := es[0].order;
      (if o.owner == owner && o.priceOrOffset > 0 then o.quantity * o.priceOrOffset else 0)
      + OwnNotional(es[1..], owner)
  }

  lemma {:induction false} OwnColumns(es: seq<Entry>, owner: nat)
    ensures OwnTotal(es, owner, Count) == OwnOrders(es, owner)
    ensures OwnTotal(es, owner, BidQuantity) == OwnBids(es, owner)
    ensures OwnTotal(es, owner, AskQuantity) == OwnAsks(es, owner)
    ensures OwnTotal(es, owner, ReservedNotional) == OwnNotional(es, owner)
  {
    if es != [] { OwnColumns(es[1..], owner); }
  }

  /** What an owner has in both trees. */
  function OwnSummary(es: seq<Entry>, fs: seq<Entry>, owner: nat): CancelSummary {
    CancelSummary(count := OwnOrders(es, owner) + OwnOrders(fs, owner),
                  bidQuantity := OwnBids(es, owner) + OwnBids(fs, owner),
                  askQuantity := OwnAsks(es, owner) + OwnAsks(fs, owner),
                  reservedNotional := OwnNotional(es, owner) + OwnNotional(fs, owner))
  }

  /** A summary and what the owner has left are what the owner had. */
  predicate SumsUp(before: CancelSummary, s: CancelSummary, after: CancelSummary) {
    && before.count == s.count + after.count
    && before.bidQuantity == s.bidQuantity + after.bidQuantity
    && before.askQuantity == s.askQuantity + after.askQuantity
    && before.reservedNotional == s.reservedNotional + after.reservedNotional
  }

  /** Some sum does not fit its number of bits. */
  predicate TooLarge(s: CancelSummary) {
    s.bidQuantity >= 0x1_0000_0000_0000_0000 || s.askQuantity >= 0x1_0000_0000_0000_0000
    || s.reservedNotional >= 0x1_0000_0000_0000_0000_0000_0000_0000_0000
  }

  lemma {:induction false} OthersAreUnscanned(es: seq<Entry>, owner: nat, bound: nat)
    ensures OthersOf(Unscanned(es, owner, bound), owner) == OthersOf(es, owner)
  {
    if es != [] {
      OthersAreUnscanned(es[1..], owner, bound);
      var rest := Unscanned(es[1..], owner, bound);
      assert ([es[0]] + rest)[1..] == rest && [] + rest == rest;
    }
  }

  lemma OwnBalance(es: seq<Entry>, fs: seq<Entry>, owner: nat, s: CancelSummary, n: nat, m: nat, c: Column)
    requires BothBalanced(es, fs, s, Unscanned(es, owner, n), Unscanned(fs, owner, m))
    ensures Cell(s, c) + OwnTotal(Unscanned(es, owner, n), owner, c) + OwnTotal(Unscanned(fs, owner, m), owner, c)
         == OwnTotal(es, owner, c) + OwnTotal(fs, owner, c)
  {
    OthersAreUnscanned(es, owner, n);
    OthersAreUnscanned(fs, owner, m);
    OwnAndOthers(es, owner, c);
    OwnAndOthers(fs, owner, c);
    OwnAndOthers(Unscanned(es, owner, n), owner, c);
    OwnAndOthers(Unscanned(fs, owner, m), owner, c);
  }

  /** The summary of a scan, column by column. */
  lemma ScanSumsUp(es: seq<Entry>, fs: seq<Entry>, owner: nat, s: CancelSummary, n: nat, m: nat)
    requires BothBalanced(es, fs, s, Unscanned(es, owner, n), Unscanned(fs, owner, m))
    ensures SumsUp(OwnSummary(es, fs, owner), s, OwnSummary(Unscanned(es, owner, n), Unscanned(fs, owner, m), owner))
  {
    OwnColumns(es, owner);
    OwnColumns(fs, owner);
    OwnColumns(Unscanned(es, owner, n), owner);
    OwnColumns(Unscanned(fs, owner, m), owner);
    OwnBalance(es, fs, owner, s, n, m, Count);
    OwnBalance(es, fs, owner, s, n, m, BidQuantity);
    OwnBalance(es, fs, owner, s, n, m, AskQuantity);
    OwnBalance(es, fs, owner, s, n, m, ReservedNotional);
  }

  lemma {:induction false} NothingOwned(es: seq<Entry>, owner: nat)
    ensures OwnSummary(OthersOf(es, owner), [], owner) == NO_CANCELS
  {
    if es != [] {
      NothingOwned(es[1..], owner);
      var rest := OthersOf(es[1..], owner);
      assert ([es[0]] + rest)[1..] == rest && [] + rest == rest;
    }
  }

  /** When nothing of the owner is left, the summary is what the owner had. */
  lemma WholeSummary(es: seq<Entry>, fs: seq<Entry>, owner: nat, s: CancelSummary)
    requires SumsUp(OwnSummary(es, fs, owner), s, OwnSummary(OthersOf(es, owner), OthersOf(fs, owner), owner))
    ensures s == OwnSummary(es, fs, owner)
  {
    NothingOwned(es, owner);
    NothingOwned(fs, owner);
  }

  lemma OverflowIff(es: seq<Entry>, fs: seq<Entry>, owner: nat)
    ensures BothOverflow(es, fs, owner) <==> TooLarge(OwnSummary(es, fs, owner))
  {
    OwnColumns(es, owner);
    OwnColumns(fs, owner);
    if TooLarge(OwnSummary(es, fs, owner)) {
      var c := if OwnBids(es, owner) + OwnBids(fs, owner) > U64_MAX then BidQuantity
               else if OwnAsks(es, owner) + OwnAsks(fs, owner) > U64_MAX then AskQuantity else ReservedNotional;
      assert Exceeds(OwnTotal(es, owner, c) + OwnTotal(fs, owner, c), c);
    }
    if BothOverflow(es, fs, owner) {
      var c :| Exceeds(OwnTotal(es, owner, c) + OwnTotal(fs, owner, c), c);
    }
  }
}
