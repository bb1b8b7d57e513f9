/**
 * The Rust string operations the journal index is read with: `str::lines` (lines end at `\n`, a
 * `\r` just before it is dropped too, and a final line ending is optional), `str::split_whitespace`
 * and `str::trim().is_empty()` (both on the Unicode White_Space property), plus the ASCII text of a
 * decimal number as `format!("{}")` writes it.
 */
module TextLines {
  import opened Wrappers
  import opened Bytes
  import Decimal
  import Utf8

  /** The Unicode White_Space property. */
  predicate IsWhitespace(c: char)
  {
    var v := c as int;
    (0x09 <= v <= 0x0D) || v == 0x20 || v == 0x85 || v == 0xA0 || v == 0x1680 || (0x2000 <= v <= 0x200A)
    || v == 0x2028 || v == 0x2029 || v == 0x202F || v == 0x205F || v == 0x3000
  }

  /** The position of the first `\n`. */
  function NewlineIndex(s: string): (r: Option<nat>)
    ensures r.Some? ==> r.value < |s| && s[r.value] == '\n' && '\n' !in s[..r.value]
    ensures r.None? ==> '\n' !in s
  {
    if s == [] then None
    else if s[0] == '\n' then Some(0)
    else match NewlineIndex(s[1..])
      case None => None
      case Some(i) =>
        assert s[..i + 1] == [s[0]] + s[1..][..i];
        Some(i + 1)
  }

  /** A line without its `\r`, if it ended in `\r\n`. */
  function StripCr(l: string): (r: string)
    ensures r == l || (l == r + "\r")
  {
    if l != [] && l[|l| - 1] == '\r' then l[..|l| - 1] else l
  }

  /** `str::lines`. */
  function Lines(s: string): seq<string>
    decreases |s|
  {
    if s == [] then []
    else match NewlineIndex(s)
      case None => [s]
      case Some(i) => [StripCr(s[..i])] + Lines(s[i + 1..])
  }

  /** A line as written: no `\n` inside, and no `\r` that would be taken for part of a line ending. */
  predicate PlainLine(l: string)
  {
    '\n' !in l && (l == [] || l[|l| - 1] != '\r')
  }

  /** Lines each followed by `\n`. */
  function JoinLines(ls: seq<string>): (s: string)
    ensures s == [] || s[|s| - 1] == '\n'
  {
    if ls == [] then [] else ls[0] + "\n" + JoinLines(ls[1..])
  }

  /** A first line and its `\n`, then the rest. */
  lemma {:induction false} LinesCons(l: string, rest: string)
    requires '\n' !in l
    ensures Lines(l + "\n" + rest) == [StripCr(l)] + Lines(rest)
  {
    var s := l + "\n" + rest;
    NewlineFirst(s, |l|);
    assert s[..|l|] == l && s[|l| + 1..] == rest;
  }

  lemma {:induction false} NewlineFirst(s: string, i: nat)
    requires i < |s| && s[i] == '\n' && '\n' !in s[..i]
    ensures NewlineIndex(s) == Some(i)
  {
    if i > 0 {
      assert s[1..][..i - 1] == s[1..i];
      assert s[1..][i - 1] == s[i];
      NewlineFirst(s[1..], i - 1);
    }
  }

  /** `str::lines` undoes `JoinLines` for plain lines. */
  lemma {:induction false} LinesOfJoinLines(ls: seq<string>)
    requires forall i :: 0 <= i < |ls| ==> PlainLine(ls[i])
    ensures Lines(JoinLines(ls)) == ls
  {
    if ls != [] {
      LinesCons(ls[0], JoinLines(ls[1..]));
      LinesOfJoinLines(ls[1..]);
    }
  }

  /** The length of the run of non-whitespace characters `s` starts with. */
  function WordLength(s: string): (n: nat)
    ensures n <= |s|
    ensures forall i :: 0 <= i < n ==> !IsWhitespace(s[i])
    ensures n < |s| ==> IsWhitespace(s[n])
  {
    if s == [] || IsWhitespace(s[0]) then 0 else 1 + WordLength(s[1..])
  }

  /** `str::split_whitespace`: the maximal runs of non-whitespace characters, in order. */
  function Tokens(s: string): (r: seq<string>)
    ensures forall i :: 0 <= i < |r| ==> r[i] != [] && forall j :: 0 <= j < |r[i]| ==> !IsWhitespace(r[i][j])
    decreases |s|
  {
    if s == [] then []
    else if IsWhitespace(s[0]) then Tokens(s[1..])
    else
      var n := WordLength(s);
      [s[..n]] + Tokens(s[n..])
  }

  /** `s.trim().is_empty()`: nothing but whitespace. */
  predicate Blank(s: string)
  {
    forall i :: 0 <= i < |s| ==> IsWhitespace(s[i])
  }

  /** Text is blank exactly when it has no token. */
  lemma {:induction false} BlankHasNoTokens(s: string)
    ensures Blank(s) <==> Tokens(s) == []
    decreases |s|
  {
    if s != [] {
      BlankHasNoTokens(s[1..]);
      if IsWhitespace(s[0]) {
        assert Blank(s) <==> Blank(s[1..]);
      }
    }
  }

  /** Two words separated by a space are its two tokens. */
  lemma TokensOfTwoWords(a: string, b: string)
    requires a != [] && b != []
    requires forall i :: 0 <= i < |a| ==> !IsWhitespace(a[i])
    requires forall i :: 0 <= i < |b| ==> !IsWhitespace(b[i])
    ensures Tokens(a + " " + b) == [a, b]
  {
    assert a + " " + b == a + (" " + b);
    WordOf(a, " " + b);
    assert Tokens(" " + b) == Tokens(b) by {
      assert IsWhitespace((" " + b)[0]);
      assert (" " + b)[1..] == b;
    }
    WordOf(b, []);
    assert b + [] == b;
  }

  lemma {:induction false} WordOf(w: string, rest: string)
    requires w != [] && forall i :: 0 <= i < |w| ==> !IsWhitespace(w[i])
    requires rest == [] || IsWhitespace(rest[0])
    ensures WordLength(w + rest) == |w|
    ensures Tokens(w + rest) == [w] + Tokens(rest)
  {
    WordLengthOf(w, rest);
    assert (w + rest)[..|w|] == w && (w + rest)[|w|..] == rest;
  }

  lemma {:induction false} WordLengthOf(w: string, rest: string)
    requires forall i :: 0 <= i < |w| ==> !IsWhitespace(w[i])
    requires rest == [] || IsWhitespace(rest[0])
    ensures WordLength(w + rest) == |w|
  {
    if w != [] {
      assert (w + rest)[1..] == w[1..] + rest;
      WordLengthOf(w[1..], rest);
    }
  }

  /** ASCII bytes read as characters. */
  function AsciiText(b: seq<Byte>): (s: string)
    ensures |s| == |b| && forall i :: 0 <= i < |b| ==> s[i] as int == b[i]
  {
    if b == [] then [] else [b[0] as char] + AsciiText(b[1..])
  }

  lemma {:induction false} EncodeAsciiText(b: seq<Byte>)
    requires IsAscii(b)
    ensures Utf8.Encode(AsciiText(b)) == b
  {
    if b != [] {
      assert AsciiText(b)[1..] == AsciiText(b[1..]);
      EncodeAsciiText(b[1..]);
    }
  }

  /** `n.to_string()` as characters. */
  function DecimalText(n: nat): (s: string)
    ensures s != [] && forall i :: 0 <= i < |s| ==> '0' <= s[i] <= '9'
  {
    AsciiText(Decimal.Digits(n))
  }

  /** `str::parse::<uN>()` of a token: the parser reads the token's UTF-8 bytes. */
  function ParseToken(t: string, max: nat): (r: Option<nat>)
    ensures r.Some? ==> r.value <= max
  {
    Decimal.ParseUnsigned(Utf8.Encode(t), max)
  }

  /** Parsing the decimal text of a number gives it back when it fits. */
  lemma ParseDecimalText(n: nat, max: nat)
    ensures ParseToken(DecimalText(n), max) == if n <= max then Some(n) else None
  {
    EncodeAsciiText(Decimal.Digits(n));
    Decimal.ParseDigits(n, max);
  }

  /** Text made of ASCII characters is valid UTF-8 in its encoded form and decodes back. */
  lemma DecodeEncoded(s: string)
    ensures Utf8.Valid(Utf8.Encode(s)) && Utf8.Decode(Utf8.Encode(s)) == Some(s)
  {
    Utf8.DecodeEncode(s);
  }
}
