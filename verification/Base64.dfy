/**
 Base64 as the browser functions `btoa` and `atob` define it (section 4 of
 RFC 4648 for the writer; the reader is the forgiving one: it drops ASCII
 white space, accepts missing padding and ignores the unused low bits).
 */
module Base64 {
  import opened Wrappers
  import opened Numerals

  predicate IsAsciiSpace(c: char) {
    c == '\t' || c == '\n' || c == 12 as char || c == '\r' || c == ' '
  }

  function Symbol(d: nat): (c: char)
    requires d < 64
    ensures !IsAsciiSpace(c) && c != '='
  {
    if d < 26 then (65 + d) as char
    else if d < 52 then (71 + d) as char
    else if d < 62 then (d - 4) as char
    else if d == 62 then '+'
    else '/'
  }

  function Sextet(c: char): (r: Option<nat>)
    ensures r.Some? ==> r.value < 64 && Symbol(r.value) == c
  {
    var n := c as nat;
    if 65 <= n <= 90 then Some(n - 65)
    else if 97 <= n <= 122 then Some(n - 71)
    else if 48 <= n <= 57 then Some(n + 4)
    else if c == '+' then Some(62)
    else if c == '/' then Some(63)
    else None
  }

  lemma SextetOfSymbol(d: nat)
    requires d < 64
    ensures Sextet(Symbol(d)) == Some(d)
  {}

  // ----- writer -----

  /** Six-bit groups of a byte string; the last group is filled with zero bits. */
  function Sextets(b: seq<byte>): (s: seq<nat>)
    ensures InBase(s, 64)
    ensures |s| % 4 == (if |b| % 3 == 0 then 0 else |b| % 3 + 1)
  {
    if |b| == 0 then []
    else if |b| == 1 then [b[0] / 4, b[0] % 4 * 16]
    else if |b| == 2 then [b[0] / 4, b[0] % 4 * 16 + b[1] / 16, b[1] % 16 * 4]
    else [b[0] / 4, b[0] % 4 * 16 + b[1] / 16, b[1] % 16 * 4 + b[2] / 64, b[2] % 64] + Sextets(b[3..])
  }

  function Symbols(s: seq<nat>): (t: string)
    requires InBase(s, 64)
    ensures |t| == |s|
  {
    seq(|s|, i requires 0 <= i < |s| => Symbol(s[i]))
  }

  function Padding(n: nat): string {
    if n % 3 == 0 then "" else if n % 3 == 1 then "==" else "="
  }

  function Btoa(b: seq<byte>): string {
    Symbols(Sextets(b)) + Padding(|b|)
  }

  // ----- reader -----

  function WithoutSpaces(t: string): string {
    if t == "" then ""
    else if IsAsciiSpace(t[0]) then WithoutSpaces(t[1..])
    else [t[0]] + WithoutSpaces(t[1..])
  }

  /** Padding is taken off only when it completes a group of four. */
  function WithoutPadding(t: string): string {
    var n := |t|;
    if n == 0 || n % 4 != 0 || t[n - 1] != '=' then t
    else if t[n - 2] == '=' then t[..n - 2]
    else t[..n - 1]
  }

  function ReadSextets(t: string): (r: Option<seq<nat>>)
    ensures r.Some? ==> |r.value| == |t| && InBase(r.value, 64)
  {
    if t == "" then Some([])
    else
      var first, rest := Sextet(t[0]), ReadSextets(t[1..]);
      if first.None? || rest.None? then None else Some([first.value] + rest.value)
  }

  function Bytes(s: seq<nat>): seq<byte>
    requires InBase(s, 64) && |s| % 4 != 1
  {
    if |s| == 0 then []
    else if |s| == 2 then [s[0] * 4 + s[1] / 16]
    else if |s| == 3 then [s[0] * 4 + s[1] / 16, s[1] % 16 * 16 + s[2] / 4]
    else [s[0] * 4 + s[1] / 16, s[1] % 16 * 16 + s[2] / 4, s[2] % 4 * 64 + s[3]] + Bytes(s[4..])
  }

  function Atob(t: string): Option<seq<byte>> {
    var core := WithoutPadding(WithoutSpaces(t));
    if |core| % 4 == 1 then None
    else
      match ReadSextets(core)
      case None => None
      case Some(s) => Some(Bytes(s))
  }

  // ----- the reader undoes the writer -----

  lemma {:induction false} BytesOfSextets(b: seq<byte>)
    ensures Bytes(Sextets(b)) == b
  {
    if |b| >= 3 {
      var s := Sextets(b);
      assert s[4..] == Sextets(b[3..]);
      BytesOfSextets(b[3..]);
      assert b == [b[0], b[1], b[2]] + b[3..];
    }
  }

  lemma {:induction false} ReadSymbols(s: seq<nat>)
    requires InBase(s, 64)
    ensures ReadSextets(Symbols(s)) == Some(s)
  {
    if s != [] {
      assert Symbols(s)[1..] == Symbols(s[1..]);
      ReadSymbols(s[1..]);
      SextetOfSymbol(s[0]);
      assert s == [s[0]] + s[1..];
    }
  }

  lemma {:induction false} NoSpacesToDrop(t: string)
    requires forall i :: 0 <= i < |t| ==> !IsAsciiSpace(t[i])
    ensures WithoutSpaces(t) == t
  {
    if t != "" {
      NoSpacesToDrop(t[1..]);
    }
  }

  lemma BtoaHasNoSpaces(b: seq<byte>)
    ensures forall i :: 0 <= i < |Btoa(b)| ==> !IsAsciiSpace(Btoa(b)[i])
    ensures forall i :: 0 <= i < |Btoa(b)| ==> 33 <= Btoa(b)[i] as nat <= 122
  {}

  lemma PadsComeOff(t: string, n: nat)
    requires t == "" || t[|t| - 1] != '='
    requires |t| % 4 == (if n % 3 == 0 then 0 else n % 3 + 1)
    ensures WithoutPadding(t + Padding(n)) == t
  {
    var u := t + Padding(n);
    assert u[..|t|] == t;
    assert t != "" ==> u[|t| - 1] == t[|t| - 1];
  }

  lemma PaddingComesOff(b: seq<byte>)
    ensures WithoutPadding(Btoa(b)) == Symbols(Sextets(b))
  {
    var t := Symbols(Sextets(b));
    assert Btoa(b) == t + Padding(|b|);
    if t != "" { assert t[|t| - 1] != '='; }
    PadsComeOff(t, |b|);
  }

  lemma AtobReads(t: string, s: seq<nat>)
    requires InBase(s, 64) && |s| % 4 != 1
    requires WithoutPadding(WithoutSpaces(t)) == Symbols(s)
    ensures Atob(t) == Some(Bytes(s))
  {
    ReadSymbols(s);
  }

  /** Every byte string survives `atob(btoa(b))`. */
  lemma AtobOfBtoa(b: seq<byte>)
    ensures Atob(Btoa(b)) == Some(b)
  {
    BtoaHasNoSpaces(b);
    NoSpacesToDrop(Btoa(b));
    PaddingComesOff(b);
    AtobReads(Btoa(b), Sextets(b));
    BytesOfSextets(b);
  }

  const ALPHABET: string := "ABCDEFGHIJKLMNOPQRSTUVWXYZabcdefghijklmnopqrstuvwxyz0123456789+/"

  /** The symbols are those of the standard alphabet. */
  lemma SymbolsSpellAlphabet()
    ensures [
      Symbol(0), Symbol(1), Symbol(2), Symbol(3), Symbol(4), Symbol(5), Symbol(6), Symbol(7),
      Symbol(8), Symbol(9), Symbol(10), Symbol(11), Symbol(12), Symbol(13), Symbol(14), Symbol(15),
      Symbol(16), Symbol(17), Symbol(18), Symbol(19), Symbol(20), Symbol(21), Symbol(22), Symbol(23),
      Symbol(24), Symbol(25), Symbol(26), Symbol(27), Symbol(28), Symbol(29), Symbol(30), Symbol(31),
      Symbol(32), Symbol(33), Symbol(34), Symbol(35), Symbol(36), Symbol(37), Symbol(38), Symbol(39),
      Symbol(40), Symbol(41), Symbol(42), Symbol(43), Symbol(44), Symbol(45), Symbol(46), Symbol(47),
      Symbol(48), Symbol(49), Symbol(50), Symbol(51), Symbol(52), Symbol(53), Symbol(54), Symbol(55),
      Symbol(56), Symbol(57), Symbol(58), Symbol(59), Symbol(60), Symbol(61), Symbol(62), Symbol(63)
    ] == ALPHABET
  {}

  /** Three bytes and their four sextets are one number of 24 bits; a last byte or two are filled up with zeros. */
  lemma {:induction false} SextetsAreBits(b: seq<byte>, k: nat)
    requires 3 * k < |b|
    ensures var s, b0 := Sextets(b), b[3 * k];
            && 4 * k + 1 < |s|
            && (3 * k + 1 == |b| ==> |s| == 4 * k + 2 && 64 * s[4 * k] + s[4 * k + 1] == 16 * (b0 as int))
            && (3 * k + 2 == |b| ==>
                  && |s| == 4 * k + 3
                  && 4096 * s[4 * k] + 64 * s[4 * k + 1] + s[4 * k + 2] == 4 * (256 * (b0 as int) + b[3 * k + 1]))
            && (3 * k + 2 < |b| ==>
                  && 4 * k + 3 < |s|
                  && 262144 * s[4 * k] + 4096 * s[4 * k + 1] + 64 * s[4 * k + 2] + s[4 * k + 3]
                  == 65536 * (b0 as int) + 256 * (b[3 * k + 1] as int) + b[3 * k + 2])
  {
    if k > 0 {
      SextetsAreBits(b[3..], k - 1);
    }
  }

  lemma {:induction false} WithoutSpacesConcat(a: string, b: string)
    ensures WithoutSpaces(a + b) == WithoutSpaces(a) + WithoutSpaces(b)
  {
    if a == "" {
      assert a + b == b;
    } else {
      assert (a + b)[1..] == a[1..] + b;
      WithoutSpacesConcat(a[1..], b);
    }
  }

  /** The five ASCII spaces are read over anywhere. */
  lemma SpacesDoNotCount(a: string, c: char, b: string)
    requires c as nat in {9, 10, 12, 13, 32}
    ensures Atob(a + [c] + b) == Atob(a + b)
  {
    WithoutSpacesConcat(a + [c], b);
    WithoutSpacesConcat(a, [c]);
    WithoutSpacesConcat(a, b);
    assert [c][1..] == "" && WithoutSpaces([c]) == "";
    assert WithoutSpaces(a + [c] + b) == WithoutSpaces(a + b);
  }
}
