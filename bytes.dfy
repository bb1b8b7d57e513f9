/** Bytes, the fixed integer widths of Rust, and the slice searches the codec relies on. */
module Bytes {
  import opened Wrappers

  type Byte = b: int | 0 <= b < 256

  const U8_MAX: nat := 0xFF
  const U16_MAX: nat := 0xFFFF
  const U32_MAX: nat := 0xFFFF_FFFF
  const U64_MAX: nat := 0xFFFF_FFFF_FFFF_FFFF
  /** `i64::MAX`: the largest file offset a seek accepts. */
  const I64_MAX: nat := 0x7FFF_FFFF_FFFF_FFFF
  /** `usize` on the 64-bit targets the engine is built for. */
  const USIZE_MAX: nat := U64_MAX

  type U16 = x: nat | x <= U16_MAX
  type U32 = x: nat | x <= U32_MAX
  type U64 = x: nat | x <= U64_MAX

  /** The field delimiter of the FIX wire format, ASCII control-A. */
  const SOH: Byte := 0x01
  const EQUALS: Byte := 0x3D
  const NEWLINE: Byte := 0x0A
  const SPACE: Byte := 0x20

  predicate StartsWith(s: seq<Byte>, prefix: seq<Byte>)
  {
    |prefix| <= |s| && s[..|prefix|] == prefix
  }

  /** `pat` occurs in `s` at position `i`. */
  predicate OccursAt(s: seq<Byte>, pat: seq<Byte>, i: nat)
  {
    i + |pat| <= |s| && s[i..i + |pat|] == pat
  }

  /** The first position at or after `i` where `pat` occurs in `s`. `FindFirst` says what it finds. */
  function FindFrom(s: seq<Byte>, pat: seq<Byte>, i: nat): (r: Option<nat>)
    ensures r.Some? ==> i <= r.value && r.value + |pat| <= |s|
    decreases |s| - i
  {
    if i + |pat| > |s| then None
    else if s[i..i + |pat|] == pat then Some(i)
    else FindFrom(s, pat, i + 1)
  }

  /** The first position of `pat` in `s` (`memchr::memmem::find`). */
  function Find(s: seq<Byte>, pat: seq<Byte>): (r: Option<nat>)
    ensures r.Some? ==> r.value + |pat| <= |s|
  {
    FindFrom(s, pat, 0)
  }

  /** `FindFrom` reports an occurrence, the first one at or after `i`, and `None` only when there is none. */
  lemma {:induction false} FindFromFirst(s: seq<Byte>, pat: seq<Byte>, i: nat)
    ensures FindFrom(s, pat, i).Some? ==> OccursAt(s, pat, FindFrom(s, pat, i).value)
    ensures FindFrom(s, pat, i).Some? ==> forall j :: i <= j < FindFrom(s, pat, i).value ==> !OccursAt(s, pat, j)
    ensures FindFrom(s, pat, i).None? ==> forall j :: i <= j <= |s| ==> !OccursAt(s, pat, j)
    decreases |s| - i
  {
    if i + |pat| <= |s| && s[i..i + |pat|] != pat {
      FindFromFirst(s, pat, i + 1);
    }
  }

  /** The first position of byte `b` in `s` (`memchr::memchr`). */
  function IndexOf(s: seq<Byte>, b: Byte): (r: Option<nat>)
    ensures r.Some? ==> r.value < |s| && s[r.value] == b && b !in s[..r.value]
    ensures r.None? ==> b !in s
  {
    if |s| == 0 then None
    else if s[0] == b then Some(0)
    else
      match IndexOf(s[1..], b)
      case None => None
      case Some(i) =>
        assert s[..i + 1] == [s[0]] + s[1..][..i];
        Some(i + 1)
  }

  /** The plain sum of all bytes, as `bytes.iter().map(|b| *b as u32).sum()` computes it. */
  function Sum(s: seq<Byte>): nat
  {
    if |s| == 0 then 0 else Sum(s[..|s| - 1]) + s[|s| - 1]
  }

  lemma {:induction false} SumAppend(a: seq<Byte>, b: seq<Byte>)
    ensures Sum(a + b) == Sum(a) + Sum(b)
    decreases |b|
  {
    if |b| == 0 {
      assert a + b == a;
    } else {
      assert (a + b)[..|a + b| - 1] == a + b[..|b| - 1];
      SumAppend(a, b[..|b| - 1]);
    }
  }

  predicate IsAscii(s: seq<Byte>)
  {
    forall i :: 0 <= i < |s| ==> s[i] < 0x80
  }
}
