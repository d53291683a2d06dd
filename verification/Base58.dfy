/**
 The Base58 printer of `lib/positions.ts` and the Base58 reader of
 `scripts/verify-sbf-artifact.py`, two programs in two languages that must
 undo each other for a program id to survive the trip.
 */
module Base58 {
  import opened Wrappers
  import opened Numerals

  const ALPHABET: string := "123456789ABCDEFGHJKLMNPQRSTUVWXYZabcdefghijkmnopqrstuvwxyz"

  // ----- the alphabet -----

  /** The alphabet by character code: the digits from '1' and the letters without I, O and l. */
  function Symbol(d: nat): char
    requires d < 58
  {
    if d < 9 then (49 + d) as char
    else if d < 17 then (56 + d) as char
    else if d < 22 then (57 + d) as char
    else if d < 33 then (58 + d) as char
    else if d < 44 then (64 + d) as char
    else (65 + d) as char
  }

  /** `Symbol` lists the alphabet string that both programs spell out. */
  lemma SymbolsSpellAlphabet()
    ensures ALPHABET == [
      Symbol(0), Symbol(1), Symbol(2), Symbol(3), Symbol(4), Symbol(5), Symbol(6), Symbol(7), Symbol(8), Symbol(9),
      Symbol(10), Symbol(11), Symbol(12), Symbol(13), Symbol(14), Symbol(15), Symbol(16), Symbol(17), Symbol(18), Symbol(19),
      Symbol(20), Symbol(21), Symbol(22), Symbol(23), Symbol(24), Symbol(25), Symbol(26), Symbol(27), Symbol(28), Symbol(29),
      Symbol(30), Symbol(31), Symbol(32), Symbol(33), Symbol(34), Symbol(35), Symbol(36), Symbol(37), Symbol(38), Symbol(39),
      Symbol(40), Symbol(41), Symbol(42), Symbol(43), Symbol(44), Symbol(45), Symbol(46), Symbol(47), Symbol(48), Symbol(49),
      Symbol(50), Symbol(51), Symbol(52), Symbol(53), Symbol(54), Symbol(55), Symbol(56), Symbol(57)
    ]
  {}

  predicate InAlphabet(c: char) {
    exists d :: 0 <= d < 58 && Symbol(d) == c
  }

  predicate AlphabetText(t: string) {
    forall i :: 0 <= i < |t| ==> InAlphabet(t[i])
  }

  /** `str.index`: the first position holding `c`; absent where Python raises. */
  function IndexFrom(c: char, k: nat): (r: Option<nat>)
    requires k <= 58
    ensures r.Some? ==> k <= r.value < 58 && Symbol(r.value) == c
    ensures r.None? ==> forall d :: k <= d < 58 ==> Symbol(d) != c
    decreases 58 - k
  {
    if k == 58 then None else if Symbol(k) == c then Some(k) else IndexFrom(c, k + 1)
  }

  lemma IndexOfDigit(d: nat)
    requires d < 58
    ensures IndexFrom(Symbol(d), 0) == Some(d)
  {
  }

  // ----- specifications -----

  function Chars(s: seq<nat>): (t: string)
    requires InBase(s, 58)
    ensures |t| == |s|
  {
    seq(|s|, i requires 0 <= i < |s| => Symbol(s[i]))
  }

  /** The text of a byte string: a '1' for each leading zero byte, then the value in base 58. */
  function Encode(bytes: seq<byte>): string {
    DigitsAreCanonical(Value(bytes, 256), 58);
    Chars(Zeros(LeadingZeros(bytes))) + Chars(Digits(Value(bytes, 256), 58))
  }

  /** The alphabet positions of a text, or nothing when a character is foreign. */
  function Indices(t: string): (r: Option<seq<nat>>)
    ensures r.Some? ==> |r.value| == |t| && InBase(r.value, 58)
  {
    if t == [] then Some([])
    else
      var front, last := Indices(t[..|t| - 1]), IndexFrom(t[|t| - 1], 0);
      if front.None? || last.None? then None else Some(front.value + [last.value])
  }

  function Decode(t: string): Option<seq<byte>> {
    match Indices(t)
    case None => None
    case Some(s) =>
      DigitsAreCanonical(Value(s, 58), 256);
      Some(Zeros(LeadingZeros(s)) + Digits(Value(s, 58), 256))
  }

  // ----- the printer -----

  method Base58Encode(bytes: seq<byte>) returns (out: string)
    ensures out == Encode(bytes)
  {
    var leadingZeros := 0;
    while leadingZeros < |bytes| && bytes[leadingZeros] == 0
      invariant leadingZeros <= |bytes|
      invariant bytes == Zeros(leadingZeros) + bytes[leadingZeros..]
    {
      leadingZeros := leadingZeros + 1;
    }
    LeadingZerosOfPadded(leadingZeros, bytes[leadingZeros..]);
    assert Chars(Zeros(leadingZeros)) == Repeat('1', leadingZeros);
    var value := BigEndian(bytes);
    var digits := PrintDigits(value);
    out := Repeat('1', leadingZeros) + digits;
  }

  /** The accumulator loop over the bytes. */
  method BigEndian(bytes: seq<byte>) returns (value: nat)
    ensures value == Value(bytes, 256)
  {
    value := 0;
    for i := 0 to |bytes|
      invariant value == Value(bytes[..i], 256)
    {
      assert bytes[..i + 1] == bytes[..i] + [bytes[i]];
      ValueOfSnoc(bytes[..i], bytes[i], 256);
      value := value * 256 + bytes[i];
    }
    assert bytes[..|bytes|] == bytes;
  }

  /** The division loop, which puts each new digit in front. */
  method PrintDigits(number: nat) returns (out: string)
    ensures InBase(Digits(number, 58), 58) && out == Chars(Digits(number, 58))
  {
    var value := number;
    out := "";
    DigitsAreCanonical(number, 58);
    while value > 0
      invariant InBase(Digits(value, 58), 58)
      invariant Chars(Digits(number, 58)) == Chars(Digits(value, 58)) + out
    {
      DigitsAreCanonical(value / 58, 58);
      out := [Symbol(value % 58)] + out;
      value := value / 58;
    }
  }

  function Repeat(c: char, k: nat): (t: string)
    ensures |t| == k && forall i :: 0 <= i < k ==> t[i] == c
  {
    if k == 0 then [] else Repeat(c, k - 1) + [c]
  }

  // ----- the reader -----

  /** `int.bit_length`. */
  function BitLength(n: nat): nat {
    |Digits(n, 2)|
  }

  /** `int.to_bytes` at the width the reader asks for: the shortest big-endian form. */
  method ToBytes(number: nat) returns (raw: seq<byte>)
    ensures raw == Digits(number, 256)
  {
    ShortestBytes(number);
    FixedWidthPads(number, 256, (BitLength(number) + 7) / 8);
    raw := if number > 0 then FixedWidth(number, 256, (BitLength(number) + 7) / 8) else [];
  }

  method B58Decode(text: string) returns (r: Option<seq<byte>>)
    ensures r == Decode(text)
  {
    var number := ReadNumber(text);
    if number.None? {
      return None;
    }
    var raw := ToBytes(number.value);
    var ones := 0;
    while ones < |text| && text[ones] == '1'
      invariant ones <= |text|
      invariant text == Repeat('1', ones) + text[ones..]
    {
      ones := ones + 1;
    }
    LeadingOnes(text, ones);
    r := Some(Zeros(ones) + raw);
  }

  /** The accumulator loop over the characters. */
  method ReadNumber(text: string) returns (r: Option<nat>)
    ensures r == if Indices(text).None? then None else Some(Value(Indices(text).value, 58))
  {
    var number: nat := 0;
    for i := 0 to |text|
      invariant Indices(text[..i]).Some? && number == Value(Indices(text[..i]).value, 58)
    {
      assert text[..i + 1][..i] == text[..i];
      var d := IndexFrom(text[i], 0);
      if d.None? {
        ForeignCharacterSpoils(text, i);
        return None;
      }
      ValueOfSnoc(Indices(text[..i]).value, d.value, 58);
      number := number * 58 + d.value;
    }
    assert text[..|text|] == text;
    r := Some(number);
  }

  lemma {:induction false} ForeignCharacterSpoils(t: string, i: nat)
    requires i < |t| && IndexFrom(t[i], 0).None?
    ensures Indices(t).None?
  {
    if i < |t| - 1 { ForeignCharacterSpoils(t[..|t| - 1], i); }
  }

  lemma {:induction false} IndicesPointwise(t: string, i: nat)
    requires i < |t| && Indices(t).Some?
    ensures IndexFrom(t[i], 0) == Some(Indices(t).value[i])
  {
    if i < |t| - 1 { IndicesPointwise(t[..|t| - 1], i); }
  }

  /** Leading '1' characters are the leading zero positions. */
  lemma LeadingOnes(t: string, ones: nat)
    requires Indices(t).Some? && ones <= |t|
    requires t == Repeat('1', ones) + t[ones..]
    requires ones == |t| || t[ones] != '1'
    ensures LeadingZeros(Indices(t).value) == ones
  {
    var s := Indices(t).value;
    IndexOfDigit(0);
    forall i | 0 <= i < ones
      ensures s[i] == 0
    {
      IndicesPointwise(t, i);
    }
    if ones < |t| {
      IndicesPointwise(t, ones);
    }
    assert s == Zeros(ones) + s[ones..];
    LeadingZerosOfPadded(ones, s[ones..]);
  }

  /** The byte count `(bit_length + 7) // 8` is the length of the shortest byte string. */
  lemma ShortestBytes(n: nat)
    ensures |Digits(n, 256)| == (BitLength(n) + 7) / 8
  {
    var b, k := BitLength(n), (BitLength(n) + 7) / 8;
    DigitCount(n, 256, k);
    BytesAreBits(k);
    DigitCount(n, 2, 8 * k);
    if k > 0 {
      DigitCount(n, 256, k - 1);
      BytesAreBits(k - 1);
      DigitCount(n, 2, 8 * (k - 1));
    }
  }

  lemma {:induction false} BytesAreBits(k: nat)
    ensures Pow(256, k) == Pow(2, 8 * k)
  {
    if k > 0 {
      BytesAreBits(k - 1);
      PowAdd(2, 8, 8 * (k - 1));
      assert Pow(2, 8) == 256 by { PowAdd(2, 4, 4); }
    }
  }

  // ----- the two undo each other -----

  lemma {:induction false} IndicesOfChars(s: seq<nat>)
    requires InBase(s, 58)
    ensures Indices(Chars(s)) == Some(s)
  {
    if s != [] {
      var front, last := s[..|s| - 1], s[|s| - 1];
      assert Chars(s)[..|s| - 1] == Chars(front);
      IndicesOfChars(front);
      IndexOfDigit(last);
      assert s == front + [last];
    }
  }

  lemma CharsOfIndices(t: string)
    requires Indices(t).Some?
    ensures Chars(Indices(t).value) == t
  {
    forall i | 0 <= i < |t|
      ensures Chars(Indices(t).value)[i] == t[i]
    {
      IndicesPointwise(t, i);
    }
  }

  /** A text whose positions are `z` zeros and the digits of `n` reads as `z` zero bytes and the bytes of `n`. */
  lemma DecodeOfParts(t: string, z: nat, n: nat)
    requires Indices(t) == Some(Zeros(z) + Digits(n, 58))
    ensures Decode(t) == Some(Zeros(z) + Digits(n, 256))
  {
    var d := Digits(n, 58);
    DigitsAreCanonical(n, 58);
    LeadingZerosOfPadded(z, d);
    ValueIgnoresLeadingZeros(z, d, 58);
    ValueOfDigits(n, 58);
  }

  /** `z` zero bytes and the bytes of `n` print as `z` ones and the digits of `n`. */
  lemma EncodeOfParts(bytes: seq<byte>, z: nat, n: nat)
    requires bytes == Zeros(z) + Digits(n, 256)
    ensures InBase(Digits(n, 58), 58) && Encode(bytes) == Chars(Zeros(z)) + Chars(Digits(n, 58))
  {
    var d := Digits(n, 256);
    DigitsAreCanonical(n, 256);
    DigitsAreCanonical(n, 58);
    LeadingZerosOfPadded(z, d);
    ValueIgnoresLeadingZeros(z, d, 256);
    ValueOfDigits(n, 256);
  }

  lemma CharsConcat(a: seq<nat>, b: seq<nat>)
    requires InBase(a, 58) && InBase(b, 58)
    ensures Chars(a) + Chars(b) == Chars(a + b)
  {}

  /** Reading a printed byte string gives it back, leading zero bytes included. */
  lemma DecodeEncode(bytes: seq<byte>)
    ensures Decode(Encode(bytes)) == Some(bytes)
  {
    var z, n := LeadingZeros(bytes), Value(bytes, 256);
    SplitLeadingZeros(bytes, 256);
    EncodeOfParts(bytes, z, n);
    CharsConcat(Zeros(z), Digits(n, 58));
    IndicesOfChars(Zeros(z) + Digits(n, 58));
    DecodeOfParts(Encode(bytes), z, n);
  }

  /** Printing what was read gives the text back, for every text over the alphabet. */
  lemma EncodeDecode(t: string)
    requires Decode(t).Some?
    ensures Encode(Decode(t).value) == t
  {
    var s := Indices(t).value;
    var z, n := LeadingZeros(s), Value(s, 58);
    SplitLeadingZeros(s, 58);
    DecodeOfParts(t, z, n);
    EncodeOfParts(Decode(t).value, z, n);
    CharsConcat(Zeros(z), Digits(n, 58));
    CharsOfIndices(t);
  }

  /** The reader accepts exactly the texts over the alphabet. */
  lemma {:induction false} DecodeAccepts(t: string)
    ensures Decode(t).Some? <==> AlphabetText(t)
  {
    if AlphabetText(t) {
      AlphabetTextHasIndices(t);
    } else {
      var i :| 0 <= i < |t| && !InAlphabet(t[i]);
      ForeignCharacterSpoils(t, i);
    }
  }

  lemma {:induction false} AlphabetTextHasIndices(t: string)
    requires AlphabetText(t)
    ensures Indices(t).Some?
  {
    if t != [] {
      AlphabetTextHasIndices(t[..|t| - 1]);
      var d :| 0 <= d < 58 && Symbol(d) == t[|t| - 1];
    }
  }

  // ----- addresses -----

  /** Every 32-byte key prints to 32 to 44 alphabet characters: the address pattern accepts it. */
  lemma AddressLength(key: seq<byte>)
    requires |key| == 32
    ensures 32 <= |Encode(key)| <= 44
    ensures AlphabetText(Encode(key))
  {
    DecodeEncode(key);
    DecodeAccepts(Encode(key));
    var z, n := LeadingZeros(key), Value(key, 256);
    SplitLeadingZeros(key, 256);
    EncodeOfParts(key, z, n);
    AddressDigits(n, z);
  }

  lemma AddressDigits(n: nat, z: nat)
    requires z + |Digits(n, 256)| == 32
    ensures 32 <= z + |Digits(n, 58)| <= 44
  {
    DigitCount(n, 256, 32 - z);
    AddressPowers(z);
    DigitCount(n, 58, 44 - z);
    if z < 32 {
      DigitCount(n, 256, 31 - z);
      SmallerBase(31 - z);
      DigitCount(n, 58, 31 - z);
    }
  }

  lemma {:induction false} SmallerBase(k: nat)
    ensures Pow(58, k) <= Pow(256, k)
  {
    if k > 0 {
      SmallerBase(k - 1);
    }
  }

  /** 44 base-58 digits hold 32 bytes, and the slack survives leading zeros. */
  lemma AddressPowers(z: nat)
    requires z <= 32
    ensures Pow(256, 32 - z) <= Pow(58, 44 - z)
  {
    if z == 0 {
      var a, b := Pow(256, 8), Pow(58, 11);
      assert a == 18446744073709551616 by { PowAdd(256, 4, 4); PowAdd(256, 2, 2); }
      assert b == 24986644000165537792 by { PowAdd(58, 8, 3); PowAdd(58, 4, 4); PowAdd(58, 2, 2); }
      PowAdd(256, 8, 8); PowAdd(256, 16, 16);
      PowAdd(58, 11, 11); PowAdd(58, 22, 22);
    } else {
      AddressPowers(z - 1);
      var p, q := Pow(256, 32 - z), Pow(58, 44 - z);
      assert 256 * p <= 58 * q;
    }
  }
}
