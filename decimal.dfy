/**
 * Decimal text of unsigned integers as Rust writes and reads it: `to_string()` / `{}` (no leading zero),
 * `{:03}` (zero-padded to three digits), and `str::parse::<uN>()` (an optional `+`, then one or more ASCII
 * digits whose value fits the type). Also `str::parse::<bool>()`.
 */
module Decimal {
  import opened Wrappers
  import opened Bytes

  const ZERO: Byte := 0x30
  const PLUS: Byte := 0x2B

  predicate IsDigit(b: Byte)
  {
    0x30 <= b <= 0x39
  }

  predicate AllDigits(s: seq<Byte>)
  {
    forall i :: 0 <= i < |s| ==> IsDigit(s[i])
  }

  /** The value of a run of decimal digits, most significant first. */
  function Value(s: seq<Byte>): nat
    requires AllDigits(s)
  {
    if |s| == 0 then 0 else Value(s[..|s| - 1]) * 10 + (s[|s| - 1] - ZERO)
  }

  /** `n.to_string()`: the shortest decimal text of `n`. */
  function Digits(n: nat): (r: seq<Byte>)
    ensures 0 < |r| && AllDigits(r) && Value(r) == n
    ensures r[0] == ZERO ==> n == 0
  {
    if n < 10 then [ZERO + n]
    else
      var r := Digits(n / 10) + [ZERO + n % 10];
      assert r[..|r| - 1] == Digits(n / 10);
      r
  }

  /** Decimal text is ASCII and holds neither the field delimiter nor `=`. */
  lemma DigitsAscii(n: nat)
    ensures IsAscii(Digits(n)) && SOH !in Digits(n) && EQUALS !in Digits(n)
  {
    var d := Digits(n);
    assert forall i :: 0 <= i < |d| ==> IsDigit(d[i]);
  }

  function Pow10(k: nat): (r: nat)
    ensures 0 < r
  {
    if k == 0 then 1 else 10 * Pow10(k - 1)
  }

  lemma Pow10Twenty()
    ensures Pow10(19) == 10_000_000_000_000_000_000 && Pow10(20) == 100_000_000_000_000_000_000
  {
    assert Pow10(10) == 10_000_000_000;
  }

  /** A number with `k` digits is written in `k` bytes. */
  lemma {:induction false} DigitsLength(n: nat, k: nat)
    requires 0 < k && Pow10(k - 1) <= n < Pow10(k)
    ensures |Digits(n)| == k
  {
    if k > 1 {
      DigitsLength(n / 10, k - 1);
    }
  }

  /** `s.parse::<uN>()` for the type whose largest value is `max`. */
  function ParseUnsigned(s: seq<Byte>, max: nat): (r: Option<nat>)
    ensures r.Some? ==> r.value <= max
  {
    var d := if 0 < |s| && s[0] == PLUS then s[1..] else s;
    if 0 < |d| && AllDigits(d) && Value(d) <= max then Some(Value(d)) else None
  }

  /** Text that parses as a number holds only ASCII digits and at most a leading `+`. */
  lemma ParsedIsAscii(s: seq<Byte>, max: nat)
    requires ParseUnsigned(s, max).Some?
    ensures IsAscii(s)
    ensures forall i :: 0 <= i < |s| ==> s[i] != SOH && s[i] != EQUALS && s[i] != NEWLINE && s[i] != SPACE
  {
    var d := if 0 < |s| && s[0] == PLUS then s[1..] else s;
    assert forall i :: 0 <= i < |s| ==> s[i] == PLUS || IsDigit(s[i]) by {
      forall i | 0 <= i < |s| ensures s[i] == PLUS || IsDigit(s[i]) {
        if 0 < |s| && s[0] == PLUS && i > 0 { assert s[i] == d[i - 1]; }
      }
    }
  }

  /** Parsing inverts printing, for every value the type can hold, and rejects every larger one. */
  lemma ParseDigits(n: nat, max: nat)
    ensures ParseUnsigned(Digits(n), max) == if n <= max then Some(n) else None
  {
    var d := Digits(n);
    assert d[0] != PLUS;
  }

  /** `format!("{:03}", c)` for a `u8`. */
  function Pad3(c: nat): (r: seq<Byte>)
    requires c < 1000
    ensures |r| == 3 && AllDigits(r) && Value(r) == c
  {
    var r := [ZERO + c / 100, ZERO + (c / 10) % 10, ZERO + c % 10];
    assert r[..2][..1] == [ZERO + c / 100];
    assert r[..2] == [ZERO + c / 100, ZERO + (c / 10) % 10];
    assert Value(r[..2][..1]) == c / 100;
    assert Value(r[..2]) == (c / 100) * 10 + (c / 10) % 10;
    assert c / 10 == (c / 100) * 10 + (c / 10) % 10;
    r
  }

  lemma ParsePad3(c: nat)
    requires c <= U8_MAX
    ensures ParseUnsigned(Pad3(c), U8_MAX) == Some(c)
  {
  }

  const TRUE_TEXT: seq<Byte> := [0x74, 0x72, 0x75, 0x65]           // "true"
  const FALSE_TEXT: seq<Byte> := [0x66, 0x61, 0x6C, 0x73, 0x65]    // "false"

  /** `s.parse::<bool>()`: exactly `true` or `false`, nothing else. */
  function ParseBool(s: seq<Byte>): (r: Option<bool>)
    ensures r == Some(true) <==> s == TRUE_TEXT
    ensures r == Some(false) <==> s == FALSE_TEXT
    ensures r.None? <==> s != TRUE_TEXT && s != FALSE_TEXT
  {
    if s == TRUE_TEXT then Some(true)
    else if s == FALSE_TEXT then Some(false)
    else None
  }
}
