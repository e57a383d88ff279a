/**
 * The browser's `atob`: the forgiving base64 decode of the WHATWG Infra
 * standard, which decodes the alphabet of section 4 of RFC 4648 and yields a
 * "binary string" (one char per byte, every code below 256).  `Btoa`, the
 * standard encoder (section 4 of RFC 4648 with `=` padding), is its partner:
 * a camera snapshot's payload is produced by it, and `AtobBtoa` proves that
 * decoding undoes it.
 */
module Base64 {
  import opened Wrappers

  /** ASCII whitespace: TAB, LF, FF, CR and SPACE; `atob` drops all of it. */
  predicate IsAsciiWhitespace(c: char) {
    var n := c as int;
    n == 9 || n == 10 || n == 12 || n == 13 || n == 32
  }

  /** A character of the base64 alphabet (`=` is not one). */
  predicate IsBase64Char(c: char) {
    ('A' <= c <= 'Z') || ('a' <= c <= 'z') || ('0' <= c <= '9') || c == '+' || c == '/'
  }

  predicate AllBase64(d: string) {
    forall i :: 0 <= i < |d| ==> IsBase64Char(d[i])
  }

  /** A binary string: every char is a byte value. */
  predicate IsBinary(s: string) {
    forall i :: 0 <= i < |s| ==> s[i] as int < 256
  }

  /** The 6-bit value of an alphabet character. */
  function Sextet(c: char): (v: int)
    requires IsBase64Char(c)
    ensures 0 <= v < 64
  {
    if 'A' <= c <= 'Z' then c as int - 'A' as int
    else if 'a' <= c <= 'z' then c as int - 'a' as int + 26
    else if '0' <= c <= '9' then c as int - '0' as int + 52
    else if c == '+' then 62
    else 63
  }

  /** The alphabet character of a 6-bit value. */
  function Digit(v: int): (c: char)
    requires 0 <= v < 64
    ensures IsBase64Char(c) && Sextet(c) == v
  {
    if v < 26 then (v + 'A' as int) as char
    else if v < 52 then (v - 26 + 'a' as int) as char
    else if v < 62 then (v - 52 + '0' as int) as char
    else if v == 62 then '+'
    else '/'
  }

  function StripWhitespace(s: string): (r: string)
    ensures |r| <= |s|
    ensures forall i :: 0 <= i < |r| ==> !IsAsciiWhitespace(r[i])
    ensures (forall i :: 0 <= i < |s| ==> !IsAsciiWhitespace(s[i])) ==> r == s
  {
    if s == [] then []
    else if IsAsciiWhitespace(s[0]) then StripWhitespace(s[1..])
    else [s[0]] + StripWhitespace(s[1..])
  }

  /** When the length is a multiple of four, one or two trailing `=` are removed. */
  function DropPadding(d: string): (r: string)
    ensures r <= d && |d| - 2 <= |r|
    ensures |d| >= 1 && d[|d| - 1] != '=' ==> r == d
  {
    if |d| >= 2 && d[|d| - 2] == '=' && d[|d| - 1] == '=' then d[..|d| - 2]
    else if |d| >= 1 && d[|d| - 1] == '=' then d[..|d| - 1]
    else d
  }

  function ByteChar(b: int): (c: char)
    requires 0 <= b < 256
    ensures c as int == b
  {
    b as char
  }

  /** First byte of a quantum: all six bits of `a` and the top two of `b`. */
  function Byte0(a: char, b: char): int
    requires IsBase64Char(a) && IsBase64Char(b)
  {
    Sextet(a) * 4 + Sextet(b) / 16
  }

  /** Second byte: the low four bits of `b` and the top four of `c`. */
  function Byte1(b: char, c: char): int
    requires IsBase64Char(b) && IsBase64Char(c)
  {
    (Sextet(b) % 16) * 16 + Sextet(c) / 4
  }

  /** Third byte: the low two bits of `c` and all six of `d`. */
  function Byte2(c: char, d: char): int
    requires IsBase64Char(c) && IsBase64Char(d)
  {
    (Sextet(c) % 4) * 64 + Sextet(d)
  }

  /**
   * Decodes unpadded base64 four characters at a time; a final group of two
   * or three characters yields one or two bytes, its leftover bits dropped.
   */
  function DecodeBody(d: string): (r: string)
    requires AllBase64(d) && |d| % 4 != 1
    ensures IsBinary(r)
    decreases |d|
  {
    if |d| >= 4 then
      [ByteChar(Byte0(d[0], d[1])), ByteChar(Byte1(d[1], d[2])), ByteChar(Byte2(d[2], d[3]))]
        + DecodeBody(d[4..])
    else if |d| == 3 then
      [ByteChar(Byte0(d[0], d[1])), ByteChar(Byte1(d[1], d[2]))]
    else if |d| == 2 then
      [ByteChar(Byte0(d[0], d[1]))]
    else
      []
  }

  /**
   * `atob`: strip whitespace, drop padding when the length is a multiple of
   * four, then fail on a length of 1 mod 4 or on any character outside the
   * alphabet (a `=` left in the middle included).
   */
  function Atob(s: string): (r: Option<string>)
    ensures r.Some? ==> IsBinary(r.value)
    ensures |StripWhitespace(s)| % 4 == 1 ==> r.None?
  {
    var stripped := StripWhitespace(s);
    var d := if |stripped| % 4 == 0 then DropPadding(stripped) else stripped;
    if |d| % 4 == 1 || !AllBase64(d) then None
    else Some(DecodeBody(d))
  }

  /** The four characters that encode the bytes `b0`, `b1`, `b2`. */
  function Quantum(b0: int, b1: int, b2: int): (q: string)
    requires 0 <= b0 < 256 && 0 <= b1 < 256 && 0 <= b2 < 256
    ensures |q| == 4 && AllBase64(q)
  {
    [Digit(b0 / 4), Digit(b0 % 4 * 16 + b1 / 16), Digit(b1 % 16 * 4 + b2 / 64), Digit(b2 % 64)]
  }

  /** Encodes a binary string three bytes at a time, without padding. */
  function EncodeBody(s: string): (r: string)
    requires IsBinary(s)
    ensures AllBase64(r)
    ensures |r| == |s| / 3 * 4 + (if |s| % 3 == 0 then 0 else |s| % 3 + 1)
    decreases |s|
  {
    if |s| >= 3 then
      Quantum(s[0] as int, s[1] as int, s[2] as int) + EncodeBody(s[3..])
    else if |s| == 2 then
      var b0, b1 := s[0] as int, s[1] as int;
      [Digit(b0 / 4), Digit(b0 % 4 * 16 + b1 / 16), Digit(b1 % 16 * 4)]
    else if |s| == 1 then
      var b0 := s[0] as int;
      [Digit(b0 / 4), Digit(b0 % 4 * 16)]
    else
      []
  }

  /** `btoa`: the encoded body padded with `=` to a multiple of four. */
  function Btoa(s: string): (r: string)
    requires IsBinary(s)
    ensures |r| % 4 == 0
    ensures forall i :: 0 <= i < |r| ==> IsBase64Char(r[i]) || r[i] == '='
  {
    var pad := if |s| % 3 == 1 then "==" else if |s| % 3 == 2 then "=" else "";
    PaddedLength(|s|);
    assert |pad| == (if |s| % 3 == 1 then 2 else if |s| % 3 == 2 then 1 else 0);
    EncodeBody(s) + pad
  }

  /** An unpadded encoding of `n` bytes, plus its padding, fills whole quanta. */
  lemma PaddedLength(n: nat)
    ensures (n / 3 * 4 + (if n % 3 == 0 then 0 else n % 3 + 1)
             + (if n % 3 == 1 then 2 else if n % 3 == 2 then 1 else 0)) % 4 == 0
  {
    var k := n / 3;
    assert n / 3 * 4 + (if n % 3 == 0 then 0 else n % 3 + 1)
           + (if n % 3 == 1 then 2 else if n % 3 == 2 then 1 else 0) == 4 * k + (if n % 3 == 0 then 0 else 4);
  }

  lemma QuantumRoundTrip(b0: int, b1: int, b2: int)
    requires 0 <= b0 < 256 && 0 <= b1 < 256 && 0 <= b2 < 256
    ensures Byte0(Digit(b0 / 4), Digit(b0 % 4 * 16 + b1 / 16)) == b0
    ensures Byte1(Digit(b0 % 4 * 16 + b1 / 16), Digit(b1 % 16 * 4 + b2 / 64)) == b1
    ensures Byte2(Digit(b1 % 16 * 4 + b2 / 64), Digit(b2 % 64)) == b2
  {
    var x, y := b0 % 4 * 16 + b1 / 16, b1 % 16 * 4 + b2 / 64;
    assert x / 16 == b0 % 4 && x % 16 == b1 / 16;
    assert y / 4 == b1 % 16 && y % 4 == b2 / 64;
  }

  lemma DecodeQuantum(a: char, b: char, c: char, d: char)
    requires IsBase64Char(a) && IsBase64Char(b) && IsBase64Char(c) && IsBase64Char(d)
    ensures AllBase64([a, b, c, d])
    ensures DecodeBody([a, b, c, d]) == [ByteChar(Byte0(a, b)), ByteChar(Byte1(b, c)), ByteChar(Byte2(c, d))]
  {
    var q := [a, b, c, d];
    assert q[4..] == [];
  }

  /** A quantum decodes to the three bytes it encodes. */
  lemma DecodeQuantumOf(b0: int, b1: int, b2: int)
    requires 0 <= b0 < 256 && 0 <= b1 < 256 && 0 <= b2 < 256
    ensures DecodeBody(Quantum(b0, b1, b2)) == [b0 as char, b1 as char, b2 as char]
  {
    var q := Quantum(b0, b1, b2);
    QuantumRoundTrip(b0, b1, b2);
    DecodeQuantum(q[0], q[1], q[2], q[3]);
    assert [q[0], q[1], q[2], q[3]] == q;
  }

  lemma DecodeEncodeTwo(s: string)
    requires IsBinary(s) && |s| == 2
    ensures DecodeBody(EncodeBody(s)) == s
  {
    var b0, b1 := s[0] as int, s[1] as int;
    var x, y, z := Digit(b0 / 4), Digit(b0 % 4 * 16 + b1 / 16), Digit(b1 % 16 * 4);
    assert EncodeBody(s) == [x, y, z];
    QuantumRoundTrip(b0, b1, 0);
    assert b1 % 16 * 4 + 0 / 64 == b1 % 16 * 4;
    assert Byte0(x, y) == b0 && Byte1(y, z) == b1;
    DecodeTriple(x, y, z);
    assert ByteChar(b0) == s[0] && ByteChar(b1) == s[1];
    assert s == [s[0], s[1]];
  }

  /** A final group of three characters decodes to two bytes. */
  lemma DecodeTriple(a: char, b: char, c: char)
    requires IsBase64Char(a) && IsBase64Char(b) && IsBase64Char(c)
    ensures AllBase64([a, b, c])
    ensures DecodeBody([a, b, c]) == [ByteChar(Byte0(a, b)), ByteChar(Byte1(b, c))]
  {
  }

  lemma DecodeEncodeOne(s: string)
    requires IsBinary(s) && |s| == 1
    ensures DecodeBody(EncodeBody(s)) == s
  {
    var b0 := s[0] as int;
    var e := [Digit(b0 / 4), Digit(b0 % 4 * 16)];
    assert EncodeBody(s) == e;
    QuantumRoundTrip(b0, 0, 0);
    var d := DecodeBody(e);
    assert d[0] as int == b0;
  }

  /** A binary string of at most two chars survives encoding and decoding. */
  lemma DecodeEncodeShort(s: string)
    requires IsBinary(s) && |s| <= 2
    ensures |EncodeBody(s)| % 4 != 1
    ensures DecodeBody(EncodeBody(s)) == s
  {
    if |s| == 2 {
      DecodeEncodeTwo(s);
    } else if |s| == 1 {
      DecodeEncodeOne(s);
    }
  }

  lemma DecodeSplits(q: string, rest: string)
    requires |q| == 4 && AllBase64(q) && AllBase64(rest) && |rest| % 4 != 1
    ensures AllBase64(q + rest) && |q + rest| % 4 != 1
    ensures DecodeBody(q + rest) == DecodeBody(q) + DecodeBody(rest)
  {
    var d := q + rest;
    assert d[..4] == q && d[4..] == rest;
    assert q[4..] == [];
  }

  /** Decoding the unpadded encoding gives back the binary string. */
  lemma {:induction false} DecodeEncodeBody(s: string)
    requires IsBinary(s)
    ensures |EncodeBody(s)| % 4 != 1
    ensures DecodeBody(EncodeBody(s)) == s
    decreases |s|
  {
    if |s| <= 2 {
      DecodeEncodeShort(s);
    } else {
      DecodeEncodeBody(s[3..]);
      DecodeEncodeQuantum(s);
    }
  }

  lemma FirstThree(s: string)
    requires |s| >= 3
    ensures [s[0], s[1], s[2]] + s[3..] == s
  {
  }

  /** One quantum in front of a tail that already round-trips. */
  lemma DecodeEncodeQuantum(s: string)
    requires IsBinary(s) && |s| > 2
    requires |EncodeBody(s[3..])| % 4 != 1 && DecodeBody(EncodeBody(s[3..])) == s[3..]
    ensures |EncodeBody(s)| % 4 != 1
    ensures DecodeBody(EncodeBody(s)) == s
  {
    var b0, b1, b2 := s[0] as int, s[1] as int, s[2] as int;
    var rest := s[3..];
    var q := Quantum(b0, b1, b2);
    assert EncodeBody(s) == q + EncodeBody(rest);
    DecodeSplits(q, EncodeBody(rest));
    DecodeQuantumOf(b0, b1, b2);
    calc {
      DecodeBody(EncodeBody(s));
      DecodeBody(q) + DecodeBody(EncodeBody(rest));
      [b0 as char, b1 as char, b2 as char] + rest;
      { assert b0 as char == s[0] && b1 as char == s[1] && b2 as char == s[2]; }
      [s[0], s[1], s[2]] + rest;
      { FirstThree(s); }
      s;
    }
  }

  lemma BtoaHasNoWhitespace(s: string)
    requires IsBinary(s)
    ensures StripWhitespace(Btoa(s)) == Btoa(s)
  {
    var r := Btoa(s);
    assert forall i :: 0 <= i < |r| ==> !IsAsciiWhitespace(r[i]);
  }

  /** Removing the padding of an encoding leaves exactly the encoded body. */
  lemma BtoaDropPadding(s: string)
    requires IsBinary(s)
    ensures DropPadding(Btoa(s)) == EncodeBody(s)
  {
    var body, r := EncodeBody(s), Btoa(s);
    if |s| % 3 == 0 {
      assert r == body;
      if |body| > 0 {
        assert IsBase64Char(body[|body| - 1]);
      }
    } else {
      assert |body| >= 2 && IsBase64Char(body[|body| - 1]);
      assert r[..|body|] == body;
    }
  }

  /** `atob(btoa(s)) == s` for every binary string. */
  lemma AtobBtoa(s: string)
    requires IsBinary(s)
    ensures Atob(Btoa(s)) == Some(s)
  {
    BtoaHasNoWhitespace(s);
    BtoaDropPadding(s);
    DecodeEncodeBody(s);
  }

  /**
   * A string without whitespace whose length is 1 mod 4 is always rejected;
   * `atob(undefined)` decodes the nine letters "undefined" and so throws.
   */
  lemma AtobRejectsLength(s: string)
    requires forall i :: 0 <= i < |s| ==> !IsAsciiWhitespace(s[i])
    requires |s| % 4 == 1
    ensures Atob(s) == None
  {
    assert StripWhitespace(s) == s;
  }
}
