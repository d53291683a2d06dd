/**
 Positional numerals, most significant digit first. The Base58 codec, the
 event record codec and the decimal text of ids and timestamps all rest on
 the two facts proved here: digits determine the value, and the value
 determines the digits once leading zeros are excluded.
 */
module Numerals {
  type byte = b: nat | b < 256

  predicate InBase(s: seq<nat>, base: nat) {
    forall i :: 0 <= i < |s| ==> s[i] < base
  }

  /** The number that the digits `s` write in `base`. */
  function Value(s: seq<nat>, base: nat): nat {
    if s == [] then 0 else Value(s[..|s| - 1], base) * base + s[|s| - 1]
  }

  /** The shortest digit string for `n`; empty for zero. */
  function Digits(n: nat, base: nat): seq<nat>
    requires base >= 2
    decreases n
  {
    if n == 0 then [] else (DivisionShrinks(n, base); Digits(n / base, base) + [n % base])
  }

  function Zeros(k: nat): (z: seq<nat>)
    ensures |z| == k && forall i :: 0 <= i < k ==> z[i] == 0
  {
    if k == 0 then [] else Zeros(k - 1) + [0]
  }

  /** How many zeros stand in front of the first non-zero digit. */
  function LeadingZeros(s: seq<nat>): (k: nat)
    ensures k <= |s| && s[..k] == Zeros(k)
    ensures k < |s| ==> s[k] != 0
  {
    if s == [] || s[0] != 0 then 0
    else
      var k := 1 + LeadingZeros(s[1..]);
      assert forall i :: 0 < i < k ==> s[i] == s[1..][..k - 1][i - 1];
      k
  }

  function Pow(base: nat, k: nat): nat {
    if k == 0 then 1 else base * Pow(base, k - 1)
  }

  lemma DivisionShrinks(n: nat, base: nat)
    requires base >= 2 && n > 0
    ensures 0 <= n / base < n
  {
    assert n == base * (n / base) + n % base;
    MulLe(2, base, n / base);
  }

  lemma MulLe(a: nat, b: nat, c: nat)
    requires a <= b
    ensures a * c <= b * c
  {}

  lemma QuotientRemainder(q: nat, r: nat, base: nat)
    requires r < base
    ensures (q * base + r) / base == q && (q * base + r) % base == r
  {
    var n := q * base + r;
    assert n == (n / base) * base + n % base;
    QuotientUnique(q, r, n / base, n % base, base);
  }

  lemma QuotientUnique(q: nat, r: nat, q': nat, r': nat, base: nat)
    requires r < base && r' < base && q * base + r == q' * base + r'
    ensures q == q' && r == r'
  {
    var d: int := q - q';
    assert d * base == r' - r;
    assert d >= 1 ==> d * base >= base;
    assert d <= -1 ==> d * base + base <= 0;
  }

  lemma Recompose(n: nat, base: nat)
    requires base >= 2
    ensures n / base * base + n % base == n
  {}

  lemma {:induction false} ValueOfDigits(n: nat, base: nat)
    requires base >= 2
    ensures Value(Digits(n, base), base) == n
    decreases n
  {
    if n > 0 {
      DivisionShrinks(n, base);
      ValueOfDigits(n / base, base);
      ValueOfSnoc(Digits(n / base, base), n % base, base);
      Recompose(n, base);
    }
  }

  /** The digits are below the base and do not start with zero. */
  lemma {:induction false} DigitsAreCanonical(n: nat, base: nat)
    requires base >= 2
    ensures InBase(Digits(n, base), base)
    ensures n > 0 ==> Digits(n, base) != [] && Digits(n, base)[0] != 0
    decreases n
  {
    if n > 0 {
      DivisionShrinks(n, base);
      DigitsAreCanonical(n / base, base);
    }
  }

  lemma ValueOfSnoc(front: seq<nat>, last: nat, base: nat)
    ensures Value(front + [last], base) == Value(front, base) * base + last
  {
    assert (front + [last])[..|front|] == front;
  }

  lemma {:induction false} DigitsOfValue(s: seq<nat>, base: nat)
    requires base >= 2 && InBase(s, base)
    requires s == [] || s[0] != 0
    ensures Digits(Value(s, base), base) == s
  {
    if s != [] {
      var front, last := s[..|s| - 1], s[|s| - 1];
      DigitsOfValue(front, base);
      QuotientRemainder(Value(front, base), last, base);
      assert s == front + [last];
      if front != [] { ValueIsPositive(front, base); }
      assert Value(s, base) > 0;
    }
  }

  lemma {:induction false} ValueIsPositive(s: seq<nat>, base: nat)
    requires base >= 2 && s != [] && s[0] != 0
    ensures Value(s, base) > 0
  {
    if |s| > 1 {
      ValueIsPositive(s[..|s| - 1], base);
      MulLe(1, Value(s[..|s| - 1], base), base);
    }
  }

  /** Zeros in front change nothing. */
  lemma {:induction false} ValueIgnoresLeadingZeros(k: nat, s: seq<nat>, base: nat)
    ensures Value(Zeros(k) + s, base) == Value(s, base)
    decreases |s|, k
  {
    var t := Zeros(k) + s;
    if s != [] {
      assert t[..|t| - 1] == Zeros(k) + s[..|s| - 1];
      ValueIgnoresLeadingZeros(k, s[..|s| - 1], base);
    } else if k > 0 {
      assert t == Zeros(k);
      assert t[..|t| - 1] == Zeros(k - 1) == Zeros(k - 1) + [];
      ValueIgnoresLeadingZeros(k - 1, s, base);
    }
  }

  /** A digit string splits into its leading zeros and the digits of its value. */
  lemma SplitLeadingZeros(s: seq<nat>, base: nat)
    requires base >= 2 && InBase(s, base)
    ensures s == Zeros(LeadingZeros(s)) + Digits(Value(s, base), base)
  {
    var k := LeadingZeros(s);
    assert s == s[..k] + s[k..];
    ValueIgnoresLeadingZeros(k, s[k..], base);
    DigitsOfValue(s[k..], base);
  }

  lemma {:induction false} LeadingZerosOfPadded(k: nat, s: seq<nat>)
    requires s == [] || s[0] != 0
    ensures LeadingZeros(Zeros(k) + s) == k
  {
    if k == 0 {
      assert Zeros(0) + s == s;
    } else {
      assert (Zeros(k) + s)[1..] == Zeros(k - 1) + s;
      LeadingZerosOfPadded(k - 1, s);
    }
  }

  lemma QuotientBelow(n: nat, base: nat, p: nat)
    requires base >= 2
    ensures n / base < p <==> n < base * p
  {
    var q, r := n / base, n % base;
    assert n == base * q + r;
    if q < p {
      MulLe(q + 1, p, base);
    } else {
      MulLe(p, q, base);
    }
  }

  /** A number has at most `k` digits exactly when it is below `base^k`. */
  lemma {:induction false} DigitCount(n: nat, base: nat, k: nat)
    requires base >= 2
    ensures |Digits(n, base)| <= k <==> n < Pow(base, k)
    decreases k
  {
    if n == 0 {
      PowPositive(base, k);
    } else if k > 0 {
      DigitCount(n / base, base, k - 1);
      QuotientBelow(n, base, Pow(base, k - 1));
    }
  }

  lemma {:induction false} PowPositive(base: nat, k: nat)
    requires base >= 1
    ensures Pow(base, k) >= 1
  {
    if k > 0 { PowPositive(base, k - 1); MulLe(1, Pow(base, k - 1), base); }
  }

  lemma {:induction false} PowAdd(base: nat, a: nat, b: nat)
    ensures Pow(base, a + b) == Pow(base, a) * Pow(base, b)
  {
    if a > 0 {
      PowAdd(base, a - 1, b);
      MulAssoc(base, Pow(base, a - 1), Pow(base, b));
    }
  }

  lemma MulAssoc(a: nat, b: nat, c: nat)
    ensures a * (b * c) == (a * b) * c
  {}

  lemma {:induction false} PowMonotone(base: nat, a: nat, b: nat)
    requires base >= 1 && a <= b
    ensures Pow(base, a) <= Pow(base, b)
    decreases b
  {
    if a < b {
      PowMonotone(base, a, b - 1);
      MulLe(1, base, Pow(base, b - 1));
    }
  }

  /** The low `len` digits of `n`: what a fixed-width store of `n` writes. */
  function FixedWidth(n: nat, base: nat, len: nat): (s: seq<nat>)
    requires base >= 2
    ensures |s| == len && InBase(s, base)
  {
    if len == 0 then [] else FixedWidth(n / base, base, len - 1) + [n % base]
  }

  /** A store wide enough for `n` pads the shortest form with zeros. */
  lemma {:induction false} FixedWidthPads(n: nat, base: nat, len: nat)
    requires base >= 2 && |Digits(n, base)| <= len
    ensures FixedWidth(n, base, len) == Zeros(len - |Digits(n, base)|) + Digits(n, base)
    decreases len
  {
    if len > 0 {
      if n == 0 {
        FixedWidthPads(0, base, len - 1);
        assert Zeros(len) == Zeros(len - 1) + [0];
      } else {
        FixedWidthPads(n / base, base, len - 1);
      }
    }
  }

  lemma ValueOfFixedWidth(n: nat, base: nat, len: nat)
    requires base >= 2 && n < Pow(base, len)
    ensures Value(FixedWidth(n, base, len), base) == n
  {
    DigitCount(n, base, len);
    FixedWidthPads(n, base, len);
    ValueIgnoresLeadingZeros(len - |Digits(n, base)|, Digits(n, base), base);
    ValueOfDigits(n, base);
  }

  /** Decimal text, as string interpolation prints a natural number. */
  function Decimal(n: nat): string {
    DigitChars(DecimalDigits(n))
  }

  function DigitChars(s: seq<nat>): (t: string)
    ensures |t| == |s|
  {
    seq(|s|, i requires 0 <= i < |s| => (48 + s[i] % 10) as char)
  }

  lemma DigitCharsInjective(a: seq<nat>, b: seq<nat>)
    requires InBase(a, 10) && InBase(b, 10) && DigitChars(a) == DigitChars(b)
    ensures a == b
  {
    forall i | 0 <= i < |a|
      ensures a[i] == b[i]
    {
      assert DigitChars(a)[i] == DigitChars(b)[i];
    }
  }

  lemma DecimalInjective(a: nat, b: nat)
    requires Decimal(a) == Decimal(b)
    ensures a == b
  {
    DecimalDigitsProperties(a);
    DecimalDigitsProperties(b);
    DigitCharsInjective(DecimalDigits(a), DecimalDigits(b));
  }

  function DecimalDigits(n: nat): seq<nat> {
    if n == 0 then [0] else Digits(n, 10)
  }

  lemma DecimalDigitsProperties(n: nat)
    ensures InBase(DecimalDigits(n), 10) && Value(DecimalDigits(n), 10) == n
  {
    ValueOfDigits(n, 10);
    DigitsAreCanonical(n, 10);
    ValueOfSnoc([], 0, 10);
    assert [] + [0] == [0];
  }

  lemma DecimalHasOnlyDigits(n: nat)
    ensures forall i :: 0 <= i < |Decimal(n)| ==> '0' <= Decimal(n)[i] <= '9'
  {}

  /** A safe integer prints in at most sixteen characters. */
  lemma DecimalOfSafeInteger(n: nat)
    requires n < 9_007_199_254_740_992
    ensures |Decimal(n)| <= 16
  {
    DigitCount(n, 10, 16);
    PowAdd(10, 8, 8);
    assert Pow(10, 8) == 100_000_000 by {
      PowAdd(10, 4, 4);
    }
  }

  /** The text spells the digits of the number, with no zero in front. */
  lemma DecimalSpells(n: nat) returns (digits: seq<nat>)
    ensures InBase(digits, 10) && Value(digits, 10) == n && (n > 0 ==> digits != [] && digits[0] != 0)
    ensures |Decimal(n)| == |digits| > 0 && forall i :: 0 <= i < |digits| ==> Decimal(n)[i] == "0123456789"[digits[i]]
  {
    digits := DecimalDigits(n);
    DecimalDigitsProperties(n);
    DigitsAreCanonical(n, 10);
  }

  lemma {:induction false} ValueConcat(s: seq<nat>, t: seq<nat>, base: nat)
    ensures Value(s + t, base) == Value(s, base) * Pow(base, |t|) + Value(t, base)
  {
    if t == [] {
      assert s + t == s;
    } else {
      var front, last := t[..|t| - 1], t[|t| - 1];
      assert s + t == s + front + [last] && t == front + [last];
      ValueConcat(s, front, base);
      ValueOfSnoc(s + front, last, base);
      ValueOfSnoc(front, last, base);
      Regroup(Value(s, base), Pow(base, |front|), Value(front, base), base);
    }
  }

  lemma Regroup(a: nat, p: nat, b: nat, base: nat)
    ensures (a * p + b) * base == a * (base * p) + b * base
  {}
}
