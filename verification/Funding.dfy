/**
 `workers/src/funding-source.ts`: the capped funding delta in exact integers.
 `BigInt` division rounds toward zero (section 6.1.6.2.5 of ECMA-262), which
 Dafny's `/` does not, so it is written out.
 */
module Funding {
  import opened Wrappers

  datatype Policy = Policy(intervalMs: int, capBps: int, scale: int)

  /** Division rounding toward zero. */
  function TruncDiv(a: int, b: int): int
    requires b > 0
  {
    if a >= 0 then a / b else -((-a) / b)
  }

  function Clamp(x: int, cap: int): int {
    if x > cap then cap else if x < -cap then -cap else x
  }

  function PremiumBps(indexPrice: int, markPrice: int): int
    requires indexPrice > 0
  {
    TruncDiv((markPrice - indexPrice) * 10_000, indexPrice)
  }

  function CappedDelta(indexPrice: int, markPrice: int, policy: Policy): int {
    if indexPrice <= 0 then 0
    else TruncDiv(Clamp(PremiumBps(indexPrice, markPrice), policy.capBps) * policy.scale, 10_000)
  }

  /** The largest move of one tick. */
  function MaxDelta(policy: Policy): int {
    policy.capBps * policy.scale / 10_000
  }

  lemma BelowOneMultiple(x: int, d: int)
    requires d > 0 && x * d < d
    ensures x <= 0
  {
    if x >= 1 { MulMonotone(1, x, d); }
  }

  lemma DivMonotone(a: nat, b: nat, d: nat)
    requires a <= b && d > 0
    ensures 0 <= a / d <= b / d
  {
    var qa, ra, qb, rb := a / d, a % d, b / d, b % d;
    assert a == qa * d + ra && b == qb * d + rb;
    assert (qa - qb) * d == qa * d - qb * d;
    BelowOneMultiple(qa - qb, d);
  }

  lemma MulMonotone(a: int, b: int, d: int)
    requires a <= b && d >= 0
    ensures a * d <= b * d
  {}

  lemma TruncDivMonotone(a: int, b: int, d: int)
    requires a <= b && d > 0
    ensures TruncDiv(a, d) <= TruncDiv(b, d)
  {
    if a >= 0 {
      DivMonotone(a, b, d);
    } else if b < 0 {
      DivMonotone(-b, -a, d);
    } else {
      DivMonotone(0, -a, d);
      DivMonotone(0, b, d);
    }
  }

  /** A dearer mark never lowers the delta. */
  lemma DeltaIsMonotone(indexPrice: int, mark1: int, mark2: int, policy: Policy)
    requires mark1 <= mark2 && policy.capBps >= 0 && policy.scale >= 0
    ensures CappedDelta(indexPrice, mark1, policy) <= CappedDelta(indexPrice, mark2, policy)
  {
    if indexPrice > 0 {
      TruncDivMonotone((mark1 - indexPrice) * 10_000, (mark2 - indexPrice) * 10_000, indexPrice);
      var c1 := Clamp(PremiumBps(indexPrice, mark1), policy.capBps);
      var c2 := Clamp(PremiumBps(indexPrice, mark2), policy.capBps);
      MulMonotone(c1, c2, policy.scale);
      TruncDivMonotone(c1 * policy.scale, c2 * policy.scale, 10_000);
    }
  }

  /** Marks equally far above and below the index give opposite deltas. */
  lemma DeltaIsOdd(indexPrice: int, distance: int, policy: Policy)
    requires policy.capBps >= 0 && policy.scale >= 0
    ensures CappedDelta(indexPrice, indexPrice + distance, policy)
         == -CappedDelta(indexPrice, indexPrice - distance, policy)
  {
    if indexPrice > 0 {
      var up, down := PremiumBps(indexPrice, indexPrice + distance), PremiumBps(indexPrice, indexPrice - distance);
      assert up == -down;
      var c := Clamp(up, policy.capBps);
      assert Clamp(down, policy.capBps) == -c;
      assert (-c) * policy.scale == -(c * policy.scale);
    }
  }

  /** The delta never exceeds the cap, and reaches it when the premium is at or past the cap. */
  lemma DeltaIsCapped(indexPrice: int, markPrice: int, policy: Policy)
    requires policy.capBps >= 0 && policy.scale >= 0
    ensures -MaxDelta(policy) <= CappedDelta(indexPrice, markPrice, policy) <= MaxDelta(policy)
    ensures indexPrice <= 0 ==> CappedDelta(indexPrice, markPrice, policy) == 0
    ensures indexPrice > 0 && PremiumBps(indexPrice, markPrice) >= policy.capBps ==>
              CappedDelta(indexPrice, markPrice, policy) == MaxDelta(policy)
    ensures indexPrice > 0 && PremiumBps(indexPrice, markPrice) <= -policy.capBps ==>
              CappedDelta(indexPrice, markPrice, policy) == -MaxDelta(policy)
  {
    var cap, s := policy.capBps, policy.scale;
    MulMonotone(0, cap, s);
    DivMonotone(0, cap * s, 10_000);
    if indexPrice > 0 {
      var c := Clamp(PremiumBps(indexPrice, markPrice), cap);
      MulMonotone(c, cap, s);
      MulMonotone(-cap, c, s);
      TruncDivMonotone(c * s, cap * s, 10_000);
      TruncDivMonotone((-cap) * s, c * s, 10_000);
      assert (-cap) * s == -(cap * s);
    }
  }

  lemma OneLessIsLess(c: int, cap: int, s: int)
    requires c < cap && cap > 0 && s >= 10_000
    ensures cap * s > 0 && TruncDiv(c * s, 10_000) < cap * s / 10_000
  {
    MulMonotone(c, cap - 1, s);
    MulMonotone(1, cap, s);
    var p := cap * s;
    assert (cap - 1) * s == p - s;
    TruncDivMonotone(c * s, p - 10_000, 10_000);
  }

  /** Rounding toward zero does not bring a positive quotient below a whole number it has reached. */
  lemma TruncAtLeast(a: int, c: int, d: int)
    requires c > 0 && d > 0
    ensures TruncDiv(a, d) >= c <==> a >= c * d
  {
    if a >= 0 {
      assert a == a / d * d + a % d;
      if a / d >= c { MulMonotone(c, a / d, d); } else { MulMonotone(a / d, c - 1, d); }
    } else {
      MulMonotone(1, c, d);
      DivMonotone(0, -a, d);
    }
  }

  /** With a scale of at least 10000 a basis point always counts: the cap is reached exactly when the mark is above the
      index by at least `capBps` ten-thousandths of it. A smaller scale can round a smaller premium to the capped
      delta. */
  lemma CapReachedIff(indexPrice: int, markPrice: int, policy: Policy)
    requires policy.capBps > 0 && policy.scale >= 10_000 && indexPrice > 0
    ensures CappedDelta(indexPrice, markPrice, policy) == policy.capBps * policy.scale / 10_000
       <==> (markPrice - indexPrice) * 10_000 >= policy.capBps * indexPrice
  {
    var premium := PremiumBps(indexPrice, markPrice);
    TruncAtLeast((markPrice - indexPrice) * 10_000, policy.capBps, indexPrice);
    if premium >= policy.capBps {
      DeltaIsCapped(indexPrice, markPrice, policy);
    } else {
      OneLessIsLess(Clamp(premium, policy.capBps), policy.capBps, policy.scale);
    }
  }

  /** The delta for a mark at or above the index, by its two roundings: whole basis points of the index, capped, and
      then whole units of the scale. */
  lemma DeltaRoundsDown(indexPrice: int, markPrice: int, policy: Policy) returns (bps: nat, delta: nat)
    requires 0 < indexPrice <= markPrice && policy.capBps >= 0 && policy.scale >= 0
    ensures bps * indexPrice <= (markPrice - indexPrice) * 10_000 < (bps + 1) * indexPrice
    ensures var counted := if bps <= policy.capBps then bps else policy.capBps;
            delta * 10_000 <= counted * policy.scale < (delta + 1) * 10_000
    ensures CappedDelta(indexPrice, markPrice, policy) == delta
  {
    var x := (markPrice - indexPrice) * 10_000;
    MulMonotone(0, markPrice - indexPrice, 10_000);
    RoundsDown(x, indexPrice);
    bps := x / indexPrice;
    var counted := if bps <= policy.capBps then bps else policy.capBps;
    MulMonotone(0, counted, policy.scale);
    RoundsDown(counted * policy.scale, 10_000);
    delta := counted * policy.scale / 10_000;
  }

  lemma RoundsDown(x: nat, d: int)
    requires d > 0
    ensures x / d >= 0 && x / d * d <= x < (x / d + 1) * d
  {
    DivMonotone(0, x, d);
    assert x == x / d * d + x % d;
  }

  // ----- ticks -----

  datatype Mode = Open | CloseOnly | Paused

  datatype Market = Market(
    oracleValid: bool, lastVerifiedOraclePrice: int, lastFundingTimestamp: int, fundingAccumulator: int)

  /** The next accumulator, when the tick may settle. The mark defaults to the index. */
  function TickDecision(market: Market, mode: Mode, policy: Policy, now: int, markPrice: Option<int>): Option<int> {
    var mark := if markPrice.Some? then markPrice.value else market.lastVerifiedOraclePrice;
    if mode.Paused? then None
    else if !market.oracleValid then None
    else if now - market.lastFundingTimestamp * 1000 < policy.intervalMs then None
    else Some(market.fundingAccumulator + CappedDelta(market.lastVerifiedOraclePrice, mark, policy))
  }

  /** One keeper tick as it finds the market; the accumulator is the one the run carries. */
  datatype Tick = Tick(market: Market, mode: Mode, now: int, markPrice: Option<int>)

  function Accumulator(start: int, policy: Policy, ticks: seq<Tick>): int {
    if ticks == [] then start
    else
      var acc, t := Accumulator(start, policy, ticks[..|ticks| - 1]), ticks[|ticks| - 1];
      var next := TickDecision(t.market.(fundingAccumulator := acc), t.mode, policy, t.now, t.markPrice);
      if next.Some? then next.value else acc
  }

  function Settled(policy: Policy, ticks: seq<Tick>): nat {
    if ticks == [] then 0
    else
      var t := ticks[|ticks| - 1];
      Settled(policy, ticks[..|ticks| - 1])
      + if TickDecision(t.market, t.mode, policy, t.now, t.markPrice).Some? then 1 else 0
  }

  lemma OneMoreSettled(n: nat, m: int)
    ensures (n + 1) * m == n * m + m
  {}

  /** Over any run the accumulator moves by at most the cap for each settled tick, and the ticks
      without a mark of their own do not move it at all. */
  lemma {:induction false} AccumulatorBound(start: int, policy: Policy, ticks: seq<Tick>)
    requires policy.capBps >= 0 && policy.scale >= 0
    ensures var moved, bound := Accumulator(start, policy, ticks) - start, Settled(policy, ticks) * MaxDelta(policy);
            -bound <= moved <= bound
    ensures (forall i :: 0 <= i < |ticks| ==> ticks[i].markPrice.None?) ==> Accumulator(start, policy, ticks) == start
  {
    if ticks != [] {
      var front, t := ticks[..|ticks| - 1], ticks[|ticks| - 1];
      AccumulatorBound(start, policy, front);
      var index := t.market.lastVerifiedOraclePrice;
      var mark := if t.markPrice.Some? then t.markPrice.value else index;
      DeltaIsCapped(index, mark, policy);
      DeltaIsOdd(index, 0, policy);
      OneMoreSettled(Settled(policy, front), MaxDelta(policy));
    }
  }

  /** A tick settles exactly in a market that is not paused, on a verified oracle, once the interval is over since the
      last settlement; two settlements of a market are an interval apart, up to the second that the chain keeps. */
  lemma SettlesIff(t: Tick, policy: Policy, earlier: int)
    ensures TickDecision(t.market, t.mode, policy, t.now, t.markPrice).Some? <==>
            && !t.mode.Paused? && t.market.oracleValid
            && t.now >= t.market.lastFundingTimestamp * 1000 + policy.intervalMs
    ensures TickDecision(t.market, t.mode, policy, t.now, t.markPrice).Some?
            && t.market.lastFundingTimestamp * 1000 > earlier - 1000 ==>
              t.now > earlier + policy.intervalMs - 1000
    ensures TickDecision(t.market, t.mode, policy, t.now, t.markPrice).Some? ==>
              TickDecision(t.market, t.mode, policy, t.now, t.markPrice).value - t.market.fundingAccumulator
              == CappedDelta(t.market.lastVerifiedOraclePrice,
                             if t.markPrice.Some? then t.markPrice.value else t.market.lastVerifiedOraclePrice, policy)
  {}
}
