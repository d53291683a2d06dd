/**
 Price-time keys of the on-chain order book, `programs/equinox/src/book.rs`.
 A 128-bit key is its bits, most significant first; shifts and masks become
 slices, and the leading zeros of an exclusive or the common prefix.
 */
module OrderKeys {
  import opened Wrappers
  import opened Numerals

  const KEY_BITS := 128

  type Key = seq<nat>

  predicate IsKey(k: Key) {
    |k| == KEY_BITS && InBase(k, 2)
  }

  /** Index of the first bit in which two keys differ. */
  function CommonPrefix(a: Key, b: Key): (c: nat)
    ensures c <= |a| && c <= |b| && a[..c] == b[..c]
    ensures c < |a| && c < |b| ==> a[c] != b[c]
  {
    if a == [] || b == [] || a[0] != b[0] then 0
    else
      var c := 1 + CommonPrefix(a[1..], b[1..]);
      assert a[..c] == [a[0]] + a[1..][..c - 1] && b[..c] == [b[0]] + b[1..][..c - 1];
      c
  }

  predicate Less(a: Key, b: Key) {
    var c := CommonPrefix(a, b);
    c < |a| && c < |b| && a[c] < b[c]
  }

  lemma AgreeBelow(a: Key, b: Key, p: nat)
    requires p <= |a| && p <= |b|
    ensures a[..p] == b[..p] <==> forall i :: 0 <= i < p ==> a[i] == b[i]
  {
    assert forall i :: 0 <= i < p ==> a[..p][i] == a[i] && b[..p][i] == b[i];
  }

  /** Two keys that agree on `p` bits and differ in the next compare by it. */
  lemma FirstDifference(a: Key, b: Key, p: nat)
    requires p < |a| && p < |b| && a[..p] == b[..p] && a[p] != b[p]
    ensures CommonPrefix(a, b) == p
    ensures Less(a, b) <==> a[p] < b[p]
  {
    AgreeBelow(a, b, p);
    AgreeBelow(a, b, CommonPrefix(a, b));
  }

  /** Agreement on `p` bits is a common prefix of at least `p`. */
  lemma AgreeIffCommon(a: Key, b: Key, p: nat)
    requires p <= |a| && p <= |b|
    ensures a[..p] == b[..p] <==> p <= CommonPrefix(a, b)
  {
    AgreeBelow(a, b, p);
    AgreeBelow(a, b, CommonPrefix(a, b));
  }

  /** The last bit decides only between equals. */
  lemma LessSnoc(a: Key, b: Key, x: nat, y: nat)
    requires |a| == |b|
    ensures Less(a + [x], b + [y]) <==> Less(a, b) || (a == b && x < y)
  {
    var n, u, v := |a|, a + [x], b + [y];
    assert u[..n] == a && v[..n] == b;
    if a == b {
      if x == y {
        AgreeIffCommon(u, v, n + 1);
        assert u[..n + 1] == u && v[..n + 1] == v;
      } else {
        FirstDifference(u, v, n);
      }
    } else {
      var c := CommonPrefix(a, b);
      AgreeIffCommon(a, b, n);
      assert a[..n] == a && b[..n] == b;
      assert u[..c] == a[..c] && v[..c] == b[..c] && u[c] == a[c] && v[c] == b[c];
      FirstDifference(u, v, c);
    }
  }

  lemma ValueSnoc(a: Key, x: nat)
    ensures Value(a + [x], 2) == 2 * Value(a, 2) + x
  {
    assert (a + [x])[..|a|] == a;
  }

  /** Comparing bit by bit is comparing the numbers. */
  lemma {:induction false} LessIsNumeric(a: Key, b: Key)
    requires |a| == |b| && InBase(a, 2) && InBase(b, 2)
    ensures Less(a, b) <==> Value(a, 2) < Value(b, 2)
    ensures a == b <==> Value(a, 2) == Value(b, 2)
  {
    if a != [] {
      var n := |a| - 1;
      var u, v, x, y := a[..n], b[..n], a[n], b[n];
      LessIsNumeric(u, v);
      assert a == u + [x] && b == v + [y];
      LessSnoc(u, v, x, y);
      ValueSnoc(u, x);
      ValueSnoc(v, y);
    }
  }

  // ----- price and time -----

  datatype Side = Bid | Ask

  const HALF_BITS := 64
  const U64_MAX := 0xFFFF_FFFF_FFFF_FFFF
  const I64_MIN := -0x8000_0000_0000_0000
  const I64_MAX := 0x7FFF_FFFF_FFFF_FFFF

  type u64 = n: nat | n <= U64_MAX
  type i64 = n: int | I64_MIN <= n <= I64_MAX

  /** Two 64-bit words as one key, the first on top. */
  function Join(high: nat, low: nat, width: nat): (k: Key)
    ensures |k| == 2 * width && InBase(k, 2)
  {
    FixedWidth(high, 2, width) + FixedWidth(low, 2, width)
  }

  /** None stands for `BadPrice`. */
  function PriceTimeKey(side: Side, price: i64, sequence: u64): Option<Key> {
    if price <= 0 then None
    else Some(Join(if side.Ask? then price else U64_MAX - price, sequence, HALF_BITS))
  }

  /** Flipping the sign bit of a 64-bit offset adds 2^63 to it. */
  function OffsetTimeKey(side: Side, offset: i64, sequence: u64): Key {
    Join(if side.Ask? then offset - I64_MIN else U64_MAX - (offset - I64_MIN), sequence, HALF_BITS)
  }

  lemma JoinOrder(high: nat, low: nat, high': nat, low': nat, width: nat)
    requires high < Pow(2, width) && low < Pow(2, width) && high' < Pow(2, width) && low' < Pow(2, width)
    ensures Less(Join(high, low, width), Join(high', low', width)) <==> high < high' || (high == high' && low < low')
    ensures Join(high, low, width) == Join(high', low', width) <==> high == high' && low == low'
  {
    ValueOfJoin(high, low, width);
    ValueOfJoin(high', low', width);
    LessIsNumeric(Join(high, low, width), Join(high', low', width));
    MixedRadix(high, low, high', low', Pow(2, width));
  }

  lemma ValueOfJoin(high: nat, low: nat, width: nat)
    requires high < Pow(2, width) && low < Pow(2, width)
    ensures Value(Join(high, low, width), 2) == high * Pow(2, width) + low
  {
    ValueOfFixedWidth(high, 2, width);
    ValueOfFixedWidth(low, 2, width);
    ValueConcat(FixedWidth(high, 2, width), FixedWidth(low, 2, width), 2);
  }

  lemma MixedRadix(high: nat, low: nat, high': nat, low': nat, base: nat)
    requires low < base && low' < base
    ensures high * base + low < high' * base + low' <==> high < high' || (high == high' && low < low')
    ensures high * base + low == high' * base + low' <==> high == high' && low == low'
  {
    if high < high' { MulLe(high + 1, high', base); }
    if high' < high { MulLe(high' + 1, high, base); }
  }

  lemma HalfRange(n: nat)
    requires n <= U64_MAX
    ensures n < Pow(2, HALF_BITS) == 0x1_0000_0000_0000_0000
  {
    assert Pow(2, 2) == 4;
    PowAdd(2, 2, 2); PowAdd(2, 4, 4); PowAdd(2, 8, 8); PowAdd(2, 16, 16); PowAdd(2, 32, 32);
  }

  /** Keys of a side ascend from the best price, and among equals from the earliest sequence. */
  lemma PriceTimePriority(side: Side, price: i64, sequence: u64, price': i64, sequence': u64)
    requires price > 0 && price' > 0
    ensures var k, k' := PriceTimeKey(side, price, sequence), PriceTimeKey(side, price', sequence');
            && k.Some? && k'.Some? && IsKey(k.value) && IsKey(k'.value)
            && (Less(k.value, k'.value) <==>
                (if side.Ask? then price < price' else price > price') || (price == price' && sequence < sequence'))
            && (k == k' <==> price == price' && sequence == sequence')
  {
    var high, high' := if side.Ask? then price else U64_MAX - price, if side.Ask? then price' else U64_MAX - price';
    HalfRange(high); HalfRange(high'); HalfRange(sequence); HalfRange(sequence');
    JoinOrder(high, sequence, high', sequence', HALF_BITS);
  }

  lemma OffsetTimePriority(side: Side, offset: i64, sequence: u64, offset': i64, sequence': u64)
    ensures var k, k' := OffsetTimeKey(side, offset, sequence), OffsetTimeKey(side, offset', sequence');
            && IsKey(k) && IsKey(k')
            && (Less(k, k') <==>
                (if side.Ask? then offset < offset' else offset > offset')
                    || (offset == offset' && sequence < sequence'))
            && (k == k' <==> offset == offset' && sequence == sequence')
  {
    var high := if side.Ask? then offset - I64_MIN else U64_MAX - (offset - I64_MIN);
    var high' := if side.Ask? then offset' - I64_MIN else U64_MAX - (offset' - I64_MIN);
    HalfRange(high); HalfRange(high'); HalfRange(sequence); HalfRange(sequence');
    JoinOrder(high, sequence, high', sequence', HALF_BITS);
  }

  /** The number that a key is: the price, or for bids its complement, over the sequence; an offset with its sign bit
      flipped. */
  lemma KeyIsNumber(side: Side, price: i64, sequence: u64)
    ensures PriceTimeKey(side, price, sequence).Some? <==> price > 0
    ensures price > 0 ==>
              Value(PriceTimeKey(side, price, sequence).value, 2)
              == (if side.Ask? then price else 0xFFFF_FFFF_FFFF_FFFF - price) * 0x1_0000_0000_0000_0000 + sequence
    ensures Value(OffsetTimeKey(side, price, sequence), 2)
         == (if side.Ask? then price + 0x8000_0000_0000_0000 else 0x7FFF_FFFF_FFFF_FFFF - price)
            * 0x1_0000_0000_0000_0000 + sequence
  {
    HalfRange(sequence);
    var offset := if side.Ask? then price - I64_MIN else U64_MAX - (price - I64_MIN);
    HalfRange(offset);
    ValueOfJoin(offset, sequence, HALF_BITS);
    if price > 0 {
      var high := if side.Ask? then price else U64_MAX - price;
      HalfRange(high);
      ValueOfJoin(high, sequence, HALF_BITS);
    }
  }
}
