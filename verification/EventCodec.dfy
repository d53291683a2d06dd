/**
 The 100-byte event record: the log line writer of
 `workers/src/test-event-fixtures.ts` and the reader of
 `workers/src/event-decoder.ts`. The record holds the discriminator (u16), the
 ABI version, a reserved byte, the sequence (u64), the market (32 bytes), the
 timestamp (u64) and a 48-byte payload, all integers little-endian.
 */
module EventCodec {
  import opened Wrappers
  import opened Numerals
  import opened Base64
  import opened Types

  const EVENT_SIZE := 100
  const EVENT_HEADER_SIZE := 52
  const EVENT_DATA_PREFIX: string := "Program data: "
  const MAX_SAFE_INTEGER: nat := 9_007_199_254_740_991

  // ----- little-endian integers -----

  /** The `width` bytes a `DataView` setter stores, least significant first. */
  function LittleEndian(n: nat, width: nat): (s: seq<byte>)
    ensures |s| == width
  {
    if width == 0 then [] else [n % 256] + LittleEndian(n / 256, width - 1)
  }

  function LeValue(s: seq<byte>): nat {
    if s == [] then 0 else s[0] + 256 * LeValue(s[1..])
  }

  /** A store and a load of the same width agree on every number that fits. */
  lemma {:induction false} LoadAfterStore(n: nat, width: nat)
    requires n < Pow(256, width)
    ensures LeValue(LittleEndian(n, width)) == n
    decreases width
  {
    if width > 0 {
      LoadAfterStore(n / 256, width - 1);
      assert LittleEndian(n, width)[1..] == LittleEndian(n / 256, width - 1);
    }
  }

  /** Byte `i` of a number, byte 0 being the least significant. */
  function ByteOf(n: nat, i: nat): byte {
    if i == 0 then n % 256 else ByteOf(n / 256, i - 1)
  }

  lemma {:induction false} BytesOfNumber(n: nat, width: nat, i: nat)
    requires i < width
    ensures LittleEndian(n, width)[i] == ByteOf(n, i)
    decreases width
  {
    if i > 0 { BytesOfNumber(n / 256, width - 1, i - 1); }
  }

  lemma SafeIntegerFits(n: nat)
    requires n <= MAX_SAFE_INTEGER
    ensures n < Pow(256, 8)
  {
    PowAdd(256, 4, 4);
    assert Pow(256, 4) == 4294967296 by { PowAdd(256, 2, 2); }
  }

  // ----- hexadecimal -----

  predicate IsHex(c: char) {
    '0' <= c <= '9' || 'a' <= c <= 'f' || 'A' <= c <= 'F'
  }

  predicate IsMarketHex(t: string) {
    |t| == 64 && forall i :: 0 <= i < |t| ==> IsHex(t[i])
  }

  function HexValue(c: char): (v: nat)
    requires IsHex(c)
    ensures v < 16
  {
    var n := c as nat;
    if n <= 57 then n - 48 else if n <= 70 then n - 55 else n - 87
  }

  function HexDigit(v: nat): char
    requires v < 16
  {
    if v < 10 then (48 + v) as char else (87 + v) as char
  }

  function LowerChar(c: char): char {
    if 'A' <= c <= 'F' then (c as nat + 32) as char else c
  }

  function Lower(t: string): (r: string)
    ensures |r| == |t|
  {
    seq(|t|, i requires 0 <= i < |t| => LowerChar(t[i]))
  }

  /** White space and line terminators, as `String.prototype.trim` removes them. */
  predicate IsTrimmed(c: char) {
    var n := c as nat;
    9 <= n <= 13 || n == 32 || n == 0xA0 || n == 0x1680 || 0x2000 <= n <= 0x200A
    || n == 0x2028 || n == 0x2029 || n == 0x202F || n == 0x205F || n == 0x3000 || n == 0xFEFF
  }

  /** The value of the longest prefix of digits, after those read so far. */
  function HexPrefix(t: string, read: nat): nat {
    if t == "" || !IsHex(t[0]) then read else HexPrefix(t[1..], 16 * read + HexValue(t[0]))
  }

  function TrimStart(t: string): string {
    if t != "" && IsTrimmed(t[0]) then TrimStart(t[1..]) else t
  }

  /** `parseInt(t, 16)` as a byte array stores it: modulo 256, and 0 for no number.
      A prefix `0x` reads as zero either way when at most two characters are left. */
  function ParsedByte(t: string): byte
    requires |t| <= 2
  {
    var u := TrimStart(t);
    var signed := u != "" && (u[0] == '-' || u[0] == '+');
    var v := HexPrefix(if signed then u[1..] else u, 0) % 256;
    if signed && u[0] == '-' then (256 - v) % 256 else v
  }

  /** `slice`, which stops at the end of the text. */
  function Slice(t: string, start: nat, end: nat): string
    requires start <= end
  {
    t[Min(start, |t|)..Min(end, |t|)]
  }

  function Min(a: nat, b: nat): nat {
    if a < b then a else b
  }

  /** The market field of any text, a pair of characters a byte. */
  function HexBytes(t: string): (s: seq<byte>)
    ensures |s| == 32
  {
    seq(32, i requires 0 <= i < 32 => ParsedByte(Slice(t, 2 * i, 2 * i + 2)))
  }

  /** Two digits a byte, padded with '0'. */
  function BytesToHex(s: seq<byte>): (t: string)
    ensures |t| == 2 * |s|
  {
    seq(2 * |s|, i requires 0 <= i < 2 * |s| => if i % 2 == 0 then HexDigit(s[i / 2] / 16) else HexDigit(s[i / 2] % 16))
  }

  lemma HexPrefixOfPair(t: string, read: nat)
    requires |t| == 2 && IsHex(t[0]) && IsHex(t[1])
    ensures HexPrefix(t, read) == 16 * (16 * read + HexValue(t[0])) + HexValue(t[1])
  {
    var tail, next := t[1..], 16 * read + HexValue(t[0]);
    assert HexPrefix(t, read) == HexPrefix(tail, next);
    assert tail[0] == t[1] && tail[1..] == "";
    assert HexPrefix(tail, next) == 16 * next + HexValue(tail[0]);
  }

  lemma ParsedPair(t: string)
    requires |t| == 2 && IsHex(t[0]) && IsHex(t[1])
    ensures ParsedByte(t) == 16 * HexValue(t[0]) + HexValue(t[1])
  {
    var none := 0;
    HexPrefixOfPair(t, none);
    assert TrimStart(t) == t;
  }

  const HEX_DIGITS: string := "0123456789abcdef"

  /** A sign in front of a digit. */
  lemma ParsedSigned(t: string)
    requires |t| == 2 && IsHex(t[1]) && (t[0] == '-' || t[0] == '+')
    ensures var v := HexValue(t[1]); ParsedByte(t) == if t[0] == '+' || v == 0 then v else 256 - v
  {
    assert TrimStart(t) == t && t[1..][0] == t[1] && t[1..][1..] == "";
    assert HexPrefix(t[1..], 0) == HexPrefix(t[1..][1..], HexValue(t[1])) == HexValue(t[1]);
  }

  /** What counts as white space at the ends of a line and before a number. */
  lemma TrimmedIff(c: char)
    ensures IsTrimmed(c) <==>
            c as nat in {9, 10, 11, 12, 13, 32, 160, 5760, 8192, 8193, 8194, 8195, 8196, 8197, 8198, 8199, 8200, 8201,
                         8202, 8232, 8233, 8239, 8287, 12288, 65279}
  {}

  lemma DigitIsLower(c: char)
    requires IsHex(c)
    ensures HexDigit(HexValue(c)) == LowerChar(c) == HEX_DIGITS[HexValue(c)]
  {}

  lemma Nibbles(high: nat, low: nat)
    requires high < 16 && low < 16
    ensures (16 * high + low) / 16 == high && (16 * high + low) % 16 == low
  {}

  lemma HexPair(t: string)
    requires |t| == 2 && IsHex(t[0]) && IsHex(t[1])
    ensures var v := ParsedByte(t);
            && HexDigit(v / 16) == LowerChar(t[0]) == HEX_DIGITS[v / 16]
            && HexDigit(v % 16) == LowerChar(t[1]) == HEX_DIGITS[v % 16]
  {
    ParsedPair(t);
    Nibbles(HexValue(t[0]), HexValue(t[1]));
    DigitIsLower(t[0]);
    DigitIsLower(t[1]);
  }

  lemma HexRoundTrip(t: string)
    requires IsMarketHex(t)
    ensures BytesToHex(HexBytes(t)) == Lower(t)
  {
    var s := HexBytes(t);
    forall i | 0 <= i < 64
      ensures BytesToHex(s)[i] == Lower(t)[i]
    {
      var k := i / 2;
      var pair := Slice(t, 2 * k, 2 * k + 2);
      assert |pair| == 2 && pair[0] == t[2 * k] && pair[1] == t[2 * k + 1];
      HexPair(pair);
      assert s[k] == ParsedByte(pair);
      assert i == 2 * k || i == 2 * k + 1;
    }
  }

  /** Whatever text is written, the market read back is the text's lower case
      exactly when the text is 64 hexadecimal digits. */
  lemma MarketRoundTripIff(t: string)
    ensures BytesToHex(HexBytes(t)) == Lower(t) <==> IsMarketHex(t)
  {
    var u := BytesToHex(HexBytes(t));
    if IsMarketHex(t) {
      HexRoundTrip(t);
    } else if |t| == 64 {
      var i :| 0 <= i < |t| && !IsHex(t[i]);
      assert IsHex(u[i]) && !IsHex(Lower(t)[i]);
    }
  }

  // ----- the writer -----

  /** The bytes of one record; a short payload is followed by zeros. */
  function Record(discriminator: nat, sequence: nat, marketHex: string, payload: seq<byte>,
                  timestamp: nat): (s: seq<byte>)
    requires |payload| <= 48
    ensures |s| == EVENT_SIZE
  {
    LittleEndian(discriminator, 2) + [1, 0] + LittleEndian(sequence, 8) + HexBytes(marketHex)
    + LittleEndian(timestamp, 8) + payload + Zeros(48 - |payload|)
  }

  function LogLine(discriminator: nat, sequence: nat, marketHex: string, payload: seq<byte>, timestamp: nat): string
    requires |payload| <= 48
  {
    EVENT_DATA_PREFIX + Btoa(Record(discriminator, sequence, marketHex, payload, timestamp))
  }

  /** A buffer with `data` stored at an offset. */
  function Stored(buffer: seq<byte>, offset: nat, data: seq<byte>): seq<byte>
    requires offset + |data| <= |buffer|
  {
    buffer[..offset] + data + buffer[offset + |data|..]
  }

  method SetLittleEndian(bytes: array<byte>, offset: nat, n: nat, width: nat)
    requires offset + width <= bytes.Length
    modifies bytes
    ensures bytes[..] == Stored(old(bytes[..]), offset, LittleEndian(n, width))
  {
    var rest := n;
    for i := 0 to width
      invariant LittleEndian(n, width) == bytes[offset..offset + i] + LittleEndian(rest, width - i)
      invariant bytes[..offset] == old(bytes[..offset])
      invariant bytes[offset + width..] == old(bytes[offset + width..])
    {
      ghost var done := bytes[offset..offset + i];
      bytes[offset + i] := rest % 256;
      assert bytes[offset..offset + i + 1] == done + [rest % 256];
      rest := rest / 256;
    }
    assert bytes[..] == bytes[..offset] + bytes[offset..offset + width] + bytes[offset + width..];
  }

  /** Copies `data` into the buffer, as `Uint8Array.set` does. */
  method SetBytes(bytes: array<byte>, offset: nat, data: seq<byte>)
    requires offset + |data| <= bytes.Length
    modifies bytes
    ensures bytes[..] == Stored(old(bytes[..]), offset, data)
  {
    for i := 0 to |data|
      invariant bytes[..offset] == old(bytes[..offset])
      invariant bytes[offset..offset + i] == data[..i]
      invariant bytes[offset + |data|..] == old(bytes[offset + |data|..])
    {
      bytes[offset + i] := data[i];
    }
    assert bytes[..] == bytes[..offset] + bytes[offset..offset + |data|] + bytes[offset + |data|..];
  }

  /** Storing right after what is written so far overwrites the zeros there. */
  lemma StoredOverZeros(head: seq<byte>, n: nat, data: seq<byte>)
    requires |data| <= n
    ensures Stored(head + Zeros(n), |head|, data) == head + data + Zeros(n - |data|)
  {
    var buffer := head + Zeros(n);
    assert buffer[..|head|] == head;
    assert buffer[|head| + |data|..] == Zeros(n - |data|);
  }

  /** The buffer holds `head`, then zeros. */
  ghost predicate Holds(bytes: array<byte>, head: seq<byte>)
    reads bytes
  {
    |head| <= bytes.Length && bytes[..] == head + Zeros(bytes.Length - |head|)
  }

  method PutLittleEndian(bytes: array<byte>, offset: nat, n: nat, width: nat, ghost head: seq<byte>)
    requires Holds(bytes, head) && offset == |head| && offset + width <= bytes.Length
    modifies bytes
    ensures Holds(bytes, head + LittleEndian(n, width))
  {
    StoredOverZeros(head, bytes.Length - |head|, LittleEndian(n, width));
    SetLittleEndian(bytes, offset, n, width);
  }

  method PutBytes(bytes: array<byte>, offset: nat, data: seq<byte>, ghost head: seq<byte>)
    requires Holds(bytes, head) && offset == |head| && offset + |data| <= bytes.Length
    modifies bytes
    ensures Holds(bytes, head + data)
  {
    StoredOverZeros(head, bytes.Length - |head|, data);
    SetBytes(bytes, offset, data);
  }

  lemma ZeroIsHeld(bytes: array<byte>, head: seq<byte>)
    requires Holds(bytes, head) && |head| < bytes.Length
    ensures Holds(bytes, head + [0])
  {
    assert head + Zeros(bytes.Length - |head|) == head + [0] + Zeros(bytes.Length - |head| - 1);
  }

  /** Absent where the source throws: the payload does not fit behind the header. */
  method EventLogLine(discriminator: nat, sequence: nat, marketHex: string, payload: seq<byte>, timestamp: nat)
    returns (line: Option<string>)
    ensures line.None? <==> |payload| > 48
    ensures line.Some? ==> line.value == LogLine(discriminator, sequence, marketHex, payload, timestamp)
  {
    if EVENT_HEADER_SIZE + |payload| > EVENT_SIZE {
      return None;
    }
    var bytes := new byte[EVENT_SIZE](i => 0);
    assert bytes[..] == [] + Zeros(bytes.Length);
    PutLittleEndian(bytes, 0, discriminator, 2, []);
    ghost var head := [] + LittleEndian(discriminator, 2);
    PutBytes(bytes, 2, [1], head);
    head := head + [1];
    ZeroIsHeld(bytes, head);
    head := head + [0];
    PutLittleEndian(bytes, 4, sequence, 8, head);
    head := head + LittleEndian(sequence, 8);
    PutBytes(bytes, 12, HexBytes(marketHex), head);
    head := head + HexBytes(marketHex);
    PutLittleEndian(bytes, 44, timestamp, 8, head);
    head := head + LittleEndian(timestamp, 8);
    PutBytes(bytes, EVENT_HEADER_SIZE, payload, head);
    head := head + payload;
    RecordIsHeld(discriminator, sequence, marketHex, payload, timestamp, head, bytes.Length);
    line := Some(EVENT_DATA_PREFIX + Btoa(bytes[..]));
  }

  lemma RecordIsHeld(discriminator: nat, sequence: nat, marketHex: string, payload: seq<byte>, timestamp: nat,
                     head: seq<byte>, length: nat)
    requires |payload| <= 48 && length == EVENT_SIZE
    requires head == [] + LittleEndian(discriminator, 2) + [1] + [0] + LittleEndian(sequence, 8) + HexBytes(marketHex)
                     + LittleEndian(timestamp, 8) + payload
    ensures head + Zeros(length - |head|) == Record(discriminator, sequence, marketHex, payload, timestamp)
  {}

  // ----- the reader -----

  datatype DecodedEvent = DecodedEvent(
    discriminator: nat,
    abiVersion: nat,
    sequence: nat,
    market: string,
    timestamp: nat,
    payload: string)

  function Trim(t: string): string {
    if t == "" then ""
    else if IsTrimmed(t[0]) then Trim(t[1..])
    else if IsTrimmed(t[|t| - 1]) then Trim(t[..|t| - 1])
    else t
  }

  function DecodeRecord(b: seq<byte>): (r: Option<DecodedEvent>)
    requires |b| == EVENT_SIZE
    ensures r.Some? <==> LeValue(b[4..12]) <= MAX_SAFE_INTEGER
  {
    var sequence := LeValue(b[4..12]);
    if sequence > MAX_SAFE_INTEGER then None
    else Some(DecodedEvent(
                LeValue(b[0..2]), b[2], sequence, BytesToHex(b[12..44]), LeValue(b[44..52]),
                Btoa(b[EVENT_HEADER_SIZE..EVENT_SIZE])))
  }

  function DecodeEventLogLine(line: string): Option<DecodedEvent> {
    if !(EVENT_DATA_PREFIX <= line) then None
    else
      match Atob(Trim(line[|EVENT_DATA_PREFIX|..]))
      case None => None
      case Some(bytes) => if |bytes| != EVENT_SIZE then None else DecodeRecord(bytes)
  }

  // ----- one line: the reader gives every written field back -----

  lemma TrimKeepsBtoa(b: seq<byte>)
    ensures Trim(Btoa(b)) == Btoa(b)
  {
    BtoaHasNoSpaces(b);
  }

  /** Where each byte of a record comes from. */
  function SourceOfByte(discriminator: nat, sequence: nat, marketHex: string, payload: seq<byte>, timestamp: nat,
                        i: nat): byte
    requires i < 100
  {
    if i < 2 then ByteOf(discriminator, i)
    else if i == 2 then 1
    else if i == 3 then 0
    else if i < 12 then ByteOf(sequence, i - 4)
    else if i < 44 then ParsedByte(Slice(marketHex, 2 * (i - 12), 2 * (i - 12) + 2))
    else if i < 52 then ByteOf(timestamp, i - 44)
    else if i < 52 + |payload| then payload[i - 52] else 0
  }

  lemma InSlice(b: seq<byte>, low: nat, high: nat, s: seq<byte>, i: nat)
    requires low <= i < high <= |b| && b[low..high] == s
    ensures b[i] == s[i - low]
  {}

  lemma RecordBytes(discriminator: nat, sequence: nat, marketHex: string, payload: seq<byte>, timestamp: nat, i: nat)
    requires |payload| <= 48 && i < 100
    ensures Record(discriminator, sequence, marketHex, payload, timestamp)[i]
         == SourceOfByte(discriminator, sequence, marketHex, payload, timestamp, i)
  {
    RecordLayout(discriminator, sequence, marketHex, payload, timestamp);
    var b := Record(discriminator, sequence, marketHex, payload, timestamp);
    if i < 2 {
      NumberInSlice(b, 0, 2, discriminator, i);
    } else if 4 <= i < 12 {
      NumberInSlice(b, 4, 8, sequence, i);
    } else if 12 <= i < 44 {
      InSlice(b, 12, 44, HexBytes(marketHex), i);
    } else if 44 <= i < 52 {
      NumberInSlice(b, 44, 8, timestamp, i);
    } else if 52 <= i {
      InSlice(b, 52, 100, payload + Zeros(48 - |payload|), i);
    }
  }

  lemma NumberInSlice(b: seq<byte>, low: nat, width: nat, n: nat, i: nat)
    requires low <= i < low + width <= |b| && b[low..low + width] == LittleEndian(n, width)
    ensures b[i] == ByteOf(n, i - low)
  {
    BytesOfNumber(n, width, i - low);
  }

  lemma RecordLayout(discriminator: nat, sequence: nat, marketHex: string, payload: seq<byte>, timestamp: nat)
    requires |payload| <= 48
    ensures var b := Record(discriminator, sequence, marketHex, payload, timestamp);
            && b[0..2] == LittleEndian(discriminator, 2)
            && b[2] == 1 && b[3] == 0
            && b[4..12] == LittleEndian(sequence, 8)
            && b[12..44] == HexBytes(marketHex)
            && b[44..52] == LittleEndian(timestamp, 8)
            && b[52..100] == payload + Zeros(48 - |payload|)
  {
    var d, s := LittleEndian(discriminator, 2), LittleEndian(sequence, 8);
    var m, t := HexBytes(marketHex), LittleEndian(timestamp, 8);
    var z := Zeros(48 - |payload|);
    SliceRecord(d, s, m, t, payload, z);
  }

  lemma SliceRecord(d: seq<byte>, s: seq<byte>, m: seq<byte>, t: seq<byte>, p: seq<byte>, z: seq<byte>)
    requires |d| == 2 && |s| == 8 && |m| == 32 && |t| == 8 && |p| + |z| == 48
    ensures var b := d + [1, 0] + s + m + t + p + z;
            && b[0..2] == d && b[2] == 1 && b[3] == 0 && b[4..12] == s && b[12..44] == m && b[44..52] == t
            && b[52..100] == p + z
  {}

  lemma LoadSafeInteger(n: nat)
    requires n <= MAX_SAFE_INTEGER
    ensures LeValue(LittleEndian(n, 8)) == n
  {
    SafeIntegerFits(n);
    LoadAfterStore(n, 8);
  }

  lemma RecordRoundTrip(discriminator: nat, sequence: nat, marketHex: string, payload: seq<byte>, timestamp: nat)
    requires discriminator < 65536 && sequence < Pow(256, 8) && timestamp <= MAX_SAFE_INTEGER && |payload| <= 48
    ensures DecodeRecord(Record(discriminator, sequence, marketHex, payload, timestamp))
         == if sequence > MAX_SAFE_INTEGER then None
            else Some(DecodedEvent(discriminator, 1, sequence, BytesToHex(HexBytes(marketHex)), timestamp,
                                   Btoa(payload + Zeros(48 - |payload|))))
  {
    RecordLayout(discriminator, sequence, marketHex, payload, timestamp);
    assert LeValue(LittleEndian(discriminator, 2)) == discriminator by {
      assert Pow(256, 2) == 65536;
      LoadAfterStore(discriminator, 2);
    }
    LoadAfterStore(sequence, 8);
    LoadSafeInteger(timestamp);
  }

  lemma LineCarriesRecord(b: seq<byte>)
    requires |b| == EVENT_SIZE
    ensures DecodeEventLogLine("Program data: " + Btoa(b)) == DecodeRecord(b)
  {
    var line := EVENT_DATA_PREFIX + Btoa(b);
    assert line[|EVENT_DATA_PREFIX|..] == Btoa(b);
    TrimKeepsBtoa(b);
    AtobOfBtoa(b);
  }

  /** A written line with any market text and any 64-bit sequence is refused exactly when
      the sequence is unsafe, and otherwise read back with the market's bytes. */
  lemma LineDecodes(discriminator: nat, sequence: nat, marketHex: string, payload: seq<byte>, timestamp: nat)
    requires discriminator < 65536 && sequence < Pow(256, 8) && timestamp <= MAX_SAFE_INTEGER && |payload| <= 48
    ensures DecodeEventLogLine(LogLine(discriminator, sequence, marketHex, payload, timestamp))
         == if sequence >= 0x20_0000_0000_0000 then None
            else Some(DecodedEvent(discriminator, 1, sequence, BytesToHex(HexBytes(marketHex)), timestamp,
                                   Btoa(payload + Zeros(48 - |payload|))))
  {
    LineCarriesRecord(Record(discriminator, sequence, marketHex, payload, timestamp));
    RecordRoundTrip(discriminator, sequence, marketHex, payload, timestamp);
  }

  /** Decoding a written log line gives back every field that went in; the payload
      comes as Base64 text, which `AtobOfBtoa` reads back to the bytes. */
  lemma LineRoundTrip(discriminator: nat, sequence: nat, marketHex: string, payload: seq<byte>, timestamp: nat)
    requires discriminator < 65536 && sequence <= MAX_SAFE_INTEGER && timestamp <= MAX_SAFE_INTEGER
    requires IsMarketHex(marketHex) && |payload| <= 48
    ensures DecodeEventLogLine(LogLine(discriminator, sequence, marketHex, payload, timestamp))
         == Some(DecodedEvent(discriminator, 1, sequence, Lower(marketHex), timestamp,
                              Btoa(payload + Zeros(48 - |payload|))))
  {
    SafeIntegerFits(sequence);
    LineDecodes(discriminator, sequence, marketHex, payload, timestamp);
    HexRoundTrip(marketHex);
  }

  // ----- a batch of lines -----

  datatype EventPayload = EventPayload(decoded: DecodedEvent, signature: Option<string>)

  type LoggedEvent = MarketEvent<EventPayload>

  function BucketKind(discriminator: nat): EventKind {
    if discriminator == 204 || discriminator == 203 then Fill
    else if 200 <= discriminator <= 210 then Book
    else if discriminator == 302 || discriminator == 303 then Funding
    else if 400 <= discriminator <= 409 then Custody
    else if 500 <= discriminator <= 505 then Oracle
    else Health
  }

  function DomainText(domain: Domain): (t: string)
    ensures |t| == 2
  {
    match domain case L1 => "l1" case Er => "er"
  }

  /** An empty signature counts as a missing one. */
  function EventId(signature: Option<string>, domain: Domain, market: string, sequence: nat): string {
    if signature.Some? && signature.value != "" then signature.value + ":" + Decimal(sequence)
    else DomainText(domain) + ":" + market + ":" + Decimal(sequence)
  }

  /** What the transaction supplies to each of its lines. */
  datatype Context = Context(domain: Domain, slot: Option<int>, signature: Option<string>, observedAt: int)

  function ToMarketEvent(e: DecodedEvent, c: Context): LoggedEvent {
    MarketEvent(EventId(c.signature, c.domain, e.market, e.sequence), e.market, BucketKind(e.discriminator),
                c.slot, Some(c.domain), Some(e.sequence), EventPayload(e, c.signature), c.observedAt)
  }

  function EventsOfLine(line: string, c: Context): seq<LoggedEvent> {
    match DecodeEventLogLine(line)
    case None => []
    case Some(e) => [ToMarketEvent(e, c)]
  }

  function EventsOf(lines: seq<string>, c: Context): seq<LoggedEvent> {
    if lines == [] then [] else EventsOfLine(lines[0], c) + EventsOf(lines[1..], c)
  }

  method DecodeCustodyLogMessages(lines: seq<string>, c: Context) returns (events: seq<LoggedEvent>)
    ensures events == EventsOf(lines, c)
  {
    events := [];
    for i := 0 to |lines|
      invariant events == EventsOf(lines[..i], c)
    {
      EventsSnoc(lines, i, c);
      var decoded := DecodeEventLogLine(lines[i]);
      if decoded.Some? {
        events := events + [ToMarketEvent(decoded.value, c)];
      }
    }
    assert lines[..|lines|] == lines;
  }

  lemma EventsSnoc(lines: seq<string>, i: nat, c: Context)
    requires i < |lines|
    ensures EventsOf(lines[..i + 1], c) == EventsOf(lines[..i], c) + EventsOfLine(lines[i], c)
  {
    var one := [lines[i]];
    assert lines[..i + 1] == lines[..i] + one;
    EventsDistribute(lines[..i], one, c);
    assert one[1..] == [];
    assert EventsOf(one, c) == EventsOfLine(one[0], c) + EventsOf(one[1..], c);
  }

  /** A batch decodes piece by piece, in order. */
  lemma {:induction false} EventsDistribute(a: seq<string>, b: seq<string>, c: Context)
    ensures EventsOf(a + b, c) == EventsOf(a, c) + EventsOf(b, c)
  {
    if a == [] {
      assert a + b == b;
    } else {
      assert (a + b)[1..] == a[1..] + b;
      EventsDistribute(a[1..], b, c);
    }
  }

  /** One line of a log: a record of ours, or text that is not one. */
  datatype Entry =
    | Written(discriminator: nat, sequence: nat, marketHex: string, payload: seq<byte>, timestamp: nat)
    | Foreign(text: string)
  {
    predicate Valid() {
      match this
      case Written(d, s, m, p, t) =>
        d < 65536 && s <= MAX_SAFE_INTEGER && t <= MAX_SAFE_INTEGER && IsMarketHex(m) && |p| <= 48
      case Foreign(text) =>
        // no prefix, unreadable Base64, or a record of another length
        || !(EVENT_DATA_PREFIX <= text)
        || var bytes := Atob(Trim(text[|EVENT_DATA_PREFIX|..])); bytes.None? || |bytes.value| != EVENT_SIZE
    }

    function Line(): string
      requires Valid()
    {
      match this
      case Written(d, s, m, p, t) => LogLine(d, s, m, p, t)
      case Foreign(text) => text
    }

    /** The event this entry stands for, said without the codec. */
    function Meaning(c: Context): seq<LoggedEvent>
      requires Valid()
    {
      match this
      case Written(d, s, m, p, t) =>
        var decoded := DecodedEvent(discriminator := d, abiVersion := 1, sequence := s, market := Lower(m),
                                    timestamp := t, payload := Btoa(p + Zeros(48 - |p|)));
        var unsigned := (if c.domain.L1? then "l1:" else "er:") + Lower(m);
        var source := if c.signature.Some? && c.signature.value != "" then c.signature.value else unsigned;
        [MarketEvent(id := source + ":" + Decimal(s), symbol := Lower(m), kind := KindOf(d), slot := c.slot,
                     domain := Some(c.domain), sequence := Some(s), observedAt := c.observedAt,
                     payload := EventPayload(decoded := decoded, signature := c.signature))]
      case Foreign(_) => []
    }
  }

  /** The kinds by their numbers. */
  function KindOf(discriminator: nat): EventKind {
    if discriminator in {203, 204} then Fill
    else if discriminator in {200, 201, 202, 205, 206, 207, 208, 209, 210} then Book
    else if discriminator in {302, 303} then Funding
    else if discriminator in {400, 401, 402, 403, 404, 405, 406, 407, 408, 409} then Custody
    else if discriminator in {500, 501, 502, 503, 504, 505} then Oracle
    else Health
  }

  predicate ValidLog(log: seq<Entry>) {
    forall i :: 0 <= i < |log| ==> log[i].Valid()
  }

  function Lines(log: seq<Entry>): seq<string>
    requires ValidLog(log)
  {
    if log == [] then [] else [log[0].Line()] + Lines(log[1..])
  }

  function Meanings(log: seq<Entry>, c: Context): seq<LoggedEvent>
    requires ValidLog(log)
  {
    if log == [] then [] else log[0].Meaning(c) + Meanings(log[1..], c)
  }

  /** For any mixture of written records and foreign lines, exactly the records come out, in order. */
  lemma {:induction false} BatchRoundTrip(log: seq<Entry>, c: Context)
    requires ValidLog(log)
    ensures EventsOf(Lines(log), c) == Meanings(log, c)
  {
    if log != [] {
      var e := log[0];
      assert e.Valid();
      assert EventsOfLine(e.Line(), c) == e.Meaning(c) by {
        if e.Written? {
          WrittenLineMeaning(e, c);
        }
      }
      assert Lines(log)[1..] == Lines(log[1..]);
      BatchRoundTrip(log[1..], c);
    }
  }

  lemma IdSpelled(c: Context, market: string, sequence: nat)
    ensures var unsigned := (if c.domain.L1? then "l1:" else "er:") + market;
            var source := if c.signature.Some? && c.signature.value != "" then c.signature.value else unsigned;
            EventId(c.signature, c.domain, market, sequence) == source + ":" + Decimal(sequence)
  {
    assert DomainText(c.domain) + ":" == if c.domain.L1? then "l1:" else "er:";
  }

  lemma KindByNumber(discriminator: nat)
    ensures BucketKind(discriminator) == KindOf(discriminator)
  {}

  lemma WrittenLineMeaning(e: Entry, c: Context)
    requires e.Written? && e.Valid()
    ensures EventsOfLine(e.Line(), c) == e.Meaning(c)
  {
    IdSpelled(c, Lower(e.marketHex), e.sequence);
    KindByNumber(e.discriminator);
    LineRoundTrip(e.discriminator, e.sequence, e.marketHex, e.payload, e.timestamp);
  }

  // ----- event ids -----

  lemma TailAfterSameLengthHead(a: string, b: string, x: string, y: string)
    requires |a| == |b| && a + x == b + y
    ensures a == b && x == y
  {
    assert (a + x)[..|a|] == a && (b + y)[..|b|] == b;
    assert (a + x)[|a|..] == x && (b + y)[|b|..] == y;
  }

  /** Without a signature an id names domain, market and sequence. */
  lemma UnsignedIdsIdentify(d1: Domain, m1: string, s1: nat, d2: Domain, m2: string, s2: nat)
    requires |m1| == |m2|
    ensures EventId(None, d1, m1, s1) == EventId(None, d2, m2, s2) <==> d1 == d2 && m1 == m2 && s1 == s2
  {
    var a, b := DomainText(d1) + ":" + m1 + ":", DomainText(d2) + ":" + m2 + ":";
    if a + Decimal(s1) == b + Decimal(s2) {
      TailAfterSameLengthHead(a, b, Decimal(s1), Decimal(s2));
      DecimalInjective(s1, s2);
      assert a[..2] == DomainText(d1) && b[..2] == DomainText(d2);
      assert DomainText(L1)[0] == 'l' && DomainText(Er)[0] == 'e';
      assert a[3..3 + |m1|] == m1 && b[3..3 + |m1|] == m2;
    }
  }

  /** The first colon stands behind a head without one. */
  lemma FirstColon(head: string, tail: string)
    requires ':' !in head
    ensures var t := head + ":" + tail; t[|head|] == ':' && forall i :: 0 <= i < |head| ==> t[i] != ':'
  {
    var t := head + ":" + tail;
    forall i | 0 <= i < |head|
      ensures t[i] != ':'
    {
      assert t[i] == head[i];
    }
  }

  lemma SameHeadBeforeColon(a: string, b: string, x: string, y: string)
    requires ':' !in a && ':' !in b && a + ":" + x == b + ":" + y
    ensures a == b
  {
    FirstColon(a, x);
    FirstColon(b, y);
    assert |a| == |b|;
    assert (a + ":" + x)[..|a|] == a && (b + ":" + y)[..|b|] == b;
  }

  /** With signatures, which hold no colon, an id names signature and sequence only. */
  lemma SignedIdsIdentify(g1: string, d1: Domain, m1: string, s1: nat, g2: string, d2: Domain, m2: string, s2: nat)
    requires g1 != "" && g2 != ""
    ensures var same := EventId(Some(g1), d1, m1, s1) == EventId(Some(g2), d2, m2, s2);
            && (g1 == g2 ==> (same <==> s1 == s2))
            && (':' !in g1 && ':' !in g2 ==> (same <==> g1 == g2 && s1 == s2))
  {
    if EventId(Some(g1), d1, m1, s1) == EventId(Some(g2), d2, m2, s2) {
      if ':' !in g1 && ':' !in g2 { SameHeadBeforeColon(g1, g2, Decimal(s1), Decimal(s2)); }
      if g1 == g2 {
        TailAfterSameLengthHead(g1 + ":", g2 + ":", Decimal(s1), Decimal(s2));
        DecimalInjective(s1, s2);
      }
    }
  }

  /** Two markets that one transaction logs at the same sequence share an id, in either domain. */
  lemma MarketsShareId(g: string, d: Domain, s: nat)
    requires g != ""
    ensures var a, b := Repeated('a', 64), Repeated('b', 64);
            a != b && IsMarketHex(a) && IsMarketHex(b) && EventId(Some(g), d, a, s) == EventId(Some(g), d, b, s)
  {
    assert Repeated('a', 64)[0] == 'a' && Repeated('b', 64)[0] == 'b';
  }

  function Repeated(c: char, n: nat): (t: string)
    ensures |t| == n
  {
    seq(n, _ => c)
  }

  /** A signed id is never an unsigned one. */
  lemma SignedIsNotUnsigned(g: string, d1: Domain, m1: string, s1: nat, d2: Domain, m2: string, s2: nat)
    requires g != "" && ':' !in g
    ensures EventId(Some(g), d1, m1, s1) != EventId(None, d2, m2, s2)
  {
    var signed, unsigned := EventId(Some(g), d1, m1, s1), EventId(None, d2, m2, s2);
    FirstColon(g, Decimal(s1));
    DecimalHasOnlyDigits(s1);
    assert forall i :: |g| < i < |signed| ==> signed[i] == Decimal(s1)[i - |g| - 1];
    assert unsigned[2] == ':' && unsigned[3 + |m2|] == ':';
  }
}
