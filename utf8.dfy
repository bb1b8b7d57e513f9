/**
 * UTF-8, as Rust's `str::from_utf8` accepts it (the well-formed byte sequences of table 3-7 of the
 * Unicode Standard: no overlong forms, no surrogates, nothing above U+10FFFF) and as `str::as_bytes`
 * produces it.
 */
module Utf8 {
  import opened Wrappers
  import opened Bytes

  predicate IsContinuation(b: Byte)
  {
    0x80 <= b <= 0xBF
  }

  /** The bounds on the second byte of a three- and a four-byte sequence, by lead byte. */
  function Low3(lead: Byte): Byte { if lead == 0xE0 then 0xA0 else 0x80 }
  function High3(lead: Byte): Byte { if lead == 0xED then 0x9F else 0xBF }
  function Low4(lead: Byte): Byte { if lead == 0xF0 then 0x90 else 0x80 }
  function High4(lead: Byte): Byte { if lead == 0xF4 then 0x8F else 0xBF }

  /** The length of the well-formed sequence at the head of `s`, or 0 when there is none. */
  function HeadLength(s: seq<Byte>): (n: nat)
    ensures n <= |s| && n <= 4
  {
    if |s| == 0 then 0
    else if s[0] < 0x80 then 1
    else if 0xC2 <= s[0] <= 0xDF then
      if 2 <= |s| && IsContinuation(s[1]) then 2 else 0
    else if 0xE0 <= s[0] <= 0xEF then
      if 3 <= |s| && Low3(s[0]) <= s[1] <= High3(s[0]) && IsContinuation(s[2]) then 3 else 0
    else if 0xF0 <= s[0] <= 0xF4 then
      if 4 <= |s| && Low4(s[0]) <= s[1] <= High4(s[0]) && IsContinuation(s[2]) && IsContinuation(s[3]) then 4 else 0
    else 0
  }

  /** The scalar value the head sequence of `s` encodes. */
  function HeadScalar(s: seq<Byte>): (c: char)
    requires 0 < HeadLength(s)
  {
    var n := HeadLength(s);
    var b0: int := s[0];
    var v: int :=
      if n == 1 then b0
      else if n == 2 then (b0 - 0xC0) * 64 + (s[1] as int - 0x80)
      else if n == 3 then (b0 - 0xE0) * 4096 + (s[1] as int - 0x80) * 64 + (s[2] as int - 0x80)
      else (b0 - 0xF0) * 262144 + (s[1] as int - 0x80) * 4096 + (s[2] as int - 0x80) * 64 + (s[3] as int - 0x80);
    v as char
  }

  /** `str::from_utf8`: the text the bytes spell, or `None` when they are not well-formed. */
  function Decode(s: seq<Byte>): Option<string>
    decreases |s|
  {
    if |s| == 0 then Some([])
    else
      var n := HeadLength(s);
      if n == 0 then None
      else
        match Decode(s[n..])
        case None => None
        case Some(rest) => Some([HeadScalar(s)] + rest)
  }

  predicate Valid(s: seq<Byte>)
  {
    Decode(s).Some?
  }

  /** The bytes of one scalar value. */
  function EncodeChar(c: char): (r: seq<Byte>)
    ensures 1 <= |r| <= 4
    ensures (c as int < 0x80) == (|r| == 1)
  {
    var v := c as int;
    if v < 0x80 then [v]
    else if v < 0x800 then [0xC0 + v / 64, 0x80 + v % 64]
    else if v < 0x10000 then [0xE0 + v / 4096, 0x80 + (v / 64) % 64, 0x80 + v % 64]
    else [0xF0 + v / 262144, 0x80 + (v / 4096) % 64, 0x80 + (v / 64) % 64, 0x80 + v % 64]
  }

  /** `String::as_bytes`. */
  function Encode(s: string): seq<Byte>
  {
    if |s| == 0 then [] else EncodeChar(s[0]) + Encode(s[1..])
  }

  /** The head of a well-formed sequence depends on that sequence alone, not on what follows it. */
  lemma HeadOfAppend(a: seq<Byte>, b: seq<Byte>)
    requires 0 < HeadLength(a)
    ensures HeadLength(a + b) == HeadLength(a)
    ensures HeadScalar(a + b) == HeadScalar(a)
    ensures (a + b)[HeadLength(a)..] == a[HeadLength(a)..] + b
  {
  }

  lemma HeadOfEncodeChar(c: char, rest: seq<Byte>)
    ensures HeadLength(EncodeChar(c) + rest) == |EncodeChar(c)|
    ensures HeadScalar(EncodeChar(c) + rest) == c
  {
    EncodeCharHead(c);
    HeadOfAppend(EncodeChar(c), rest);
  }

  /** The bytes of a scalar value are one well-formed sequence that decodes to it. */
  lemma EncodeCharHead(c: char)
    ensures HeadLength(EncodeChar(c)) == |EncodeChar(c)|
    ensures HeadScalar(EncodeChar(c)) == c
  {
    var v := c as int;
    if v < 0x80 {
    } else if v < 0x800 {
      EncodeTwo(c);
    } else if v < 0x10000 {
      EncodeThree(c);
    } else {
      EncodeFour(c);
    }
  }

  lemma EncodeTwo(c: char)
    requires 0x80 <= c as int < 0x800
    ensures HeadLength(EncodeChar(c)) == 2 && HeadScalar(EncodeChar(c)) == c
  {
    var v := c as int;
    assert EncodeChar(c) == [0xC0 + v / 64, 0x80 + v % 64];
    assert v == (v / 64) * 64 + v % 64;
  }

  lemma EncodeThree(c: char)
    requires 0x800 <= c as int < 0x10000
    ensures HeadLength(EncodeChar(c)) == 3 && HeadScalar(EncodeChar(c)) == c
  {
    var v := c as int;
    assert EncodeChar(c) == [0xE0 + v / 4096, 0x80 + (v / 64) % 64, 0x80 + v % 64];
    assert v / 64 == (v / 4096) * 64 + (v / 64) % 64;
    assert v == (v / 64) * 64 + v % 64;
  }

  lemma EncodeFour(c: char)
    requires 0x10000 <= c as int
    ensures HeadLength(EncodeChar(c)) == 4 && HeadScalar(EncodeChar(c)) == c
  {
    var v := c as int;
    FourDigits(v);
    var q, d1, d2, d3 := v / 262144, (v / 4096) % 64, (v / 64) % 64, v % 64;
    assert EncodeChar(c) == [0xF0 + q, 0x80 + d1, 0x80 + d2, 0x80 + d3];
  }

  /** The base-64 digits of a scalar value above U+FFFF, which lie in the ranges a four-byte
      sequence allows. */
  lemma FourDigits(v: int)
    requires 0x10000 <= v < 0x110000
    ensures 0 <= v / 262144 <= 4 && 0 <= (v / 4096) % 64 < 64
    ensures v == (v / 262144) * 262144 + ((v / 4096) % 64) * 4096 + ((v / 64) % 64) * 64 + v % 64
    ensures v / 262144 == 0 ==> 16 <= (v / 4096) % 64
    ensures v / 262144 == 4 ==> (v / 4096) % 64 < 16
  {
    assert v / 64 == (v / 4096) * 64 + (v / 64) % 64;
    assert v / 4096 == (v / 262144) * 64 + (v / 4096) % 64;
    assert v == (v / 64) * 64 + v % 64;
  }

  lemma {:induction false} DecodeEncode(s: string)
    ensures Decode(Encode(s)) == Some(s)
  {
    if |s| > 0 {
      var e := EncodeChar(s[0]);
      assert Encode(s) == e + Encode(s[1..]);
      HeadOfEncodeChar(s[0], Encode(s[1..]));
      assert Encode(s)[|e|..] == Encode(s[1..]);
      DecodeEncode(s[1..]);
      assert s == [s[0]] + s[1..];
    }
  }

  lemma {:induction false} EncodeAppend(a: string, b: string)
    ensures Encode(a + b) == Encode(a) + Encode(b)
  {
    if |a| > 0 {
      assert (a + b)[0] == a[0];
      assert (a + b)[1..] == a[1..] + b;
      EncodeAppend(a[1..], b);
    } else {
      assert a + b == b;
    }
  }

  /** Well-formed text stays well-formed when more is appended, and decodes piecewise. */
  lemma {:induction false} DecodeAppend(a: seq<Byte>, b: seq<Byte>)
    requires Valid(a) && Valid(b)
    ensures Decode(a + b) == Some(Decode(a).value + Decode(b).value)
    decreases |a|
  {
    if |a| == 0 {
      assert a + b == b;
      assert Decode(a).value == [];
      assert Decode(a).value + Decode(b).value == Decode(b).value;
    } else {
      var n := HeadLength(a);
      HeadOfAppend(a, b);
      assert Decode(a) == Some([HeadScalar(a)] + Decode(a[n..]).value);
      DecodeAppend(a[n..], b);
      assert HeadLength(a + b) == n;
      assert (a + b)[n..] == a[n..] + b;
      var tail := Decode(a[n..]).value + Decode(b).value;
      assert Decode(a[n..] + b) == Some(tail);
      assert Decode(a + b) == Some([HeadScalar(a)] + tail);
      assert [HeadScalar(a)] + tail == ([HeadScalar(a)] + Decode(a[n..]).value) + Decode(b).value;
    }
  }

  /** ASCII bytes are well-formed and decode one character per byte. */
  lemma {:induction false} DecodeAscii(s: seq<Byte>)
    requires IsAscii(s)
    ensures Valid(s)
    ensures |Decode(s).value| == |s|
    ensures forall i :: 0 <= i < |s| ==> Decode(s).value[i] as int == s[i]
  {
    if |s| > 0 {
      DecodeAscii(s[1..]);
    }
  }

  /** The encoding of a character other than U+000A never contains the newline byte. */
  lemma {:induction false} EncodeWithoutNewline(s: string)
    requires '\n' !in s
    ensures NEWLINE !in Encode(s)
  {
    if |s| > 0 {
      assert s[0] != '\n';
      EncodeWithoutNewline(s[1..]);
    }
  }

  lemma {:induction false} EncodeLength(s: string)
    ensures |Encode(s)| >= |s|
  {
    if |s| > 0 { EncodeLength(s[1..]); }
  }
}
