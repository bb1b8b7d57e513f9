/**
 * `try_extract_one` of src/protocol.rs: cuts the next complete FIX frame out of a stream buffer, using
 * BodyLength(9) to know where the frame ends. `FrameBounds` states where the frame lies; the method
 * `TryExtractOne` does the cut on a buffer object.
 */
module Framer {
  import opened Wrappers
  import opened Bytes
  import Decimal
  import Utf8
  import opened Protocol
  import opened Encoder
  import opened Decoder

  /** The trailer "10=ddd␁" is always seven bytes. */
  const TRAILER_LENGTH: nat := 7

  /** What the scan finds before parsing anything: the first "8=", the first "9=" after it, and the
      SOH that ends that field. */
  datatype LengthField = LengthField(start: nat, ninePos: nat, nineEnd: nat)

  predicate InBounds(data: seq<Byte>, f: LengthField)
  {
    f.start <= f.ninePos && f.ninePos + 2 <= f.nineEnd < |data|
  }

  /** `find_field_start(data, b"8=")`, then `find_field_start(&data[start..], b"9=") + start` (the
      first "9=" at or after `start`), then `memchr(SOH, &data[nine_pos..]) + nine_pos`. */
  function ScanLengthField(data: seq<Byte>): (r: Option<LengthField>)
    ensures r.Some? ==> InBounds(data, r.value) && data[r.value.nineEnd] == SOH
  {
    match Find(data, BEGIN_PREFIX)
    case None => None
    case Some(start) =>
      match FindFrom(data, BODY_LENGTH_PREFIX, start)
      case None => None
      case Some(ninePos) =>
        FindFromFirst(data, BODY_LENGTH_PREFIX, start);
        FieldEnd(data, start, ninePos)
  }

  /** The field whose "9=" starts at `ninePos` runs up to the next SOH. */
  function FieldEnd(data: seq<Byte>, start: nat, ninePos: nat): (r: Option<LengthField>)
    requires start <= ninePos && OccursAt(data, BODY_LENGTH_PREFIX, ninePos)
    ensures r.Some? ==> r.value.start == start && r.value.ninePos == ninePos
    ensures r.Some? ==> InBounds(data, r.value) && data[r.value.nineEnd] == SOH
  {
    match IndexOf(data[ninePos..], SOH)
    case None => None
    case Some(j) =>
      assert j >= 2 by {
        assert data[ninePos..][..2] == BODY_LENGTH_PREFIX;
      }
      Some(LengthField(start, ninePos, ninePos + j))
  }

  /** The text of the length field, between "9=" and its SOH. */
  function LengthText(data: seq<Byte>, f: LengthField): seq<Byte>
    requires InBounds(data, f)
  {
    data[f.ninePos + 2..f.nineEnd]
  }

  /** `from_utf8` and then `parse::<usize>` of the length text. */
  function ParseLength(text: seq<Byte>): (r: Option<nat>)
    ensures r.Some? ==> r.value <= USIZE_MAX
  {
    if !Utf8.Valid(text) then None else Decimal.ParseUnsigned(text, USIZE_MAX)
  }

  /** The end of the frame: the byte after the length field's SOH, plus the body, plus the trailer. */
  function FrameEnd(f: LengthField, bodyLength: nat): nat
  {
    f.nineEnd + 1 + bodyLength + TRAILER_LENGTH
  }

  /** Where the next frame lies, `[start, end)`, with the end computed without overflow. `None` while
      the buffer holds no complete frame. */
  function FrameBounds(data: seq<Byte>): (r: Option<(nat, nat)>)
    ensures r.Some? ==> r.value.0 < r.value.1 <= |data|
  {
    match ScanLengthField(data)
    case None => None
    case Some(f) =>
      match ParseLength(LengthText(data, f))
      case None => None
      case Some(len) => if FrameEnd(f, len) > |data| then None else Some((f.start, FrameEnd(f, len)))
  }

  /** The receive buffer (`BytesMut`) the reader task fills from the socket. */
  class StreamBuffer {
    var data: seq<Byte>

    constructor (initial: seq<Byte>)
      ensures data == initial
    {
      data := initial;
    }

    /** Bytes arriving from the socket are appended. */
    method Extend(bytes: seq<Byte>)
      modifies this
      ensures data == old(data) + bytes
    {
      data := data + bytes;
    }
  }

  /** `try_extract_one`: when a complete frame is buffered, returns it and drops it, and everything
      before it, from the buffer; otherwise returns `None` and leaves the buffer as it was. */
  method TryExtractOne(buffer: StreamBuffer) returns (frame: Option<seq<Byte>>)
    modifies buffer
    ensures FrameBounds(old(buffer.data)).None? ==> frame.None? && buffer.data == old(buffer.data)
    ensures FrameBounds(old(buffer.data)).Some? ==>
      var (start, end) := FrameBounds(old(buffer.data)).value;
      frame == Some(old(buffer.data)[start..end]) && buffer.data == old(buffer.data)[end..]
  {
    var data := buffer.data;
    var start := Find(data, BEGIN_PREFIX);
    if start.None? {
      return None;
    }
    var ninePos := FindFrom(data, BODY_LENGTH_PREFIX, start.value);
    if ninePos.None? {
      return None;
    }
    FindFromFirst(data, BODY_LENGTH_PREFIX, start.value);
    var field := FieldEnd(data, start.value, ninePos.value);
    assert field == ScanLengthField(data);
    if field.None? {
      return None;
    }
    var f := field.value;
    var bodyLen := ParseLength(LengthText(data, f));
    if bodyLen.None? {
      return None;
    }
    var bodyStart := f.nineEnd + 1;
    var totalLength := bodyStart + bodyLen.value + TRAILER_LENGTH - f.start;
    if f.start + totalLength > |data| {
      return None;
    }
    frame := Some(data[f.start..f.start + totalLength]);
    buffer.data := data[f.start + totalLength..];
  }

  /** `pat` occurs at `k` and nowhere in `[i, k)`: `FindFrom` returns `k`. */
  lemma FindFromIs(s: seq<Byte>, pat: seq<Byte>, i: nat, k: nat)
    requires i <= k && OccursAt(s, pat, k)
    requires forall j :: i <= j < k ==> !OccursAt(s, pat, j)
    ensures FindFrom(s, pat, i) == Some(k)
  {
    FindFromFirst(s, pat, i);
  }

  /** Occurrences that fit inside `p` are the same in `p` and in `p + x`. */
  lemma OccursInPrefix(p: seq<Byte>, x: seq<Byte>, pat: seq<Byte>, j: nat)
    requires j + |pat| <= |p|
    ensures OccursAt(p + x, pat, j) == OccursAt(p, pat, j)
  {
    assert (p + x)[j..j + |pat|] == p[j..j + |pat|];
  }

  /** What `FindFrom` sees in `p + x` against what it sees in `p`. */
  lemma FindFromInPrefix(p: seq<Byte>, x: seq<Byte>, pat: seq<Byte>, i: nat)
    ensures FindFrom(p, pat, i).Some? ==> FindFrom(p + x, pat, i) == FindFrom(p, pat, i)
    ensures FindFrom(p + x, pat, i).Some? && FindFrom(p + x, pat, i).value + |pat| <= |p| ==>
      FindFrom(p, pat, i) == FindFrom(p + x, pat, i)
    ensures FindFrom(p + x, pat, i).Some? && FindFrom(p + x, pat, i).value + |pat| > |p| ==>
      FindFrom(p, pat, i).None?
  {
    forall j: nat | j + |pat| <= |p|
      ensures OccursAt(p + x, pat, j) == OccursAt(p, pat, j)
    {
      OccursInPrefix(p, x, pat, j);
    }
    FindFromFirst(p, pat, i);
    FindFromFirst(p + x, pat, i);
    if FindFrom(p, pat, i).Some? {
      FindFromIs(p + x, pat, i, FindFrom(p, pat, i).value);
    }
    var r := FindFrom(p + x, pat, i);
    if r.Some? && r.value + |pat| <= |p| {
      FindFromIs(p, pat, i, r.value);
    }
  }

  /** What `IndexOf` sees in `p + x` against what it sees in `p`. */
  lemma IndexOfInPrefix(p: seq<Byte>, x: seq<Byte>, b: Byte)
    ensures IndexOf(p, b).Some? ==> IndexOf(p + x, b) == IndexOf(p, b)
    ensures IndexOf(p + x, b).Some? && IndexOf(p + x, b).value < |p| ==> IndexOf(p, b) == IndexOf(p + x, b)
    ensures IndexOf(p + x, b).Some? && IndexOf(p + x, b).value >= |p| ==> IndexOf(p, b).None?
  {
    var r := IndexOf(p + x, b);
    var q := IndexOf(p, b);
    if q.Some? {
      assert (p + x)[q.value] == b;
      assert (p + x)[..q.value] == p[..q.value];
    }
    if r.Some? && r.value < |p| {
      assert p[r.value] == b && p[..r.value] == (p + x)[..r.value];
    }
  }

  /** The field found from a given "9=" is the same in a buffer and in the buffer with more bytes
      appended whenever it ends inside the shorter one; otherwise the shorter one has none. */
  lemma FieldEndInPrefix(p: seq<Byte>, x: seq<Byte>, start: nat, ninePos: nat)
    requires start <= ninePos && OccursAt(p, BODY_LENGTH_PREFIX, ninePos)
    ensures OccursAt(p + x, BODY_LENGTH_PREFIX, ninePos)
    ensures FieldEnd(p, start, ninePos).Some? ==> FieldEnd(p + x, start, ninePos) == FieldEnd(p, start, ninePos)
    ensures FieldEnd(p + x, start, ninePos).Some? && FieldEnd(p + x, start, ninePos).value.nineEnd < |p| ==>
      FieldEnd(p, start, ninePos) == FieldEnd(p + x, start, ninePos)
    ensures FieldEnd(p + x, start, ninePos).Some? && FieldEnd(p + x, start, ninePos).value.nineEnd >= |p| ==>
      FieldEnd(p, start, ninePos).None?
  {
    OccursInPrefix(p, x, BODY_LENGTH_PREFIX, ninePos);
    assert (p + x)[ninePos..] == p[ninePos..] + x;
    IndexOfInPrefix(p[ninePos..], x, SOH);
  }

  /** A successful scan in terms of the two searches it makes. */
  lemma ScanUnfold(data: seq<Byte>, start: nat, ninePos: nat)
    requires Find(data, BEGIN_PREFIX) == Some(start)
    requires FindFrom(data, BODY_LENGTH_PREFIX, start) == Some(ninePos)
    ensures start <= ninePos && OccursAt(data, BODY_LENGTH_PREFIX, ninePos)
    ensures ScanLengthField(data) == FieldEnd(data, start, ninePos)
  {
    FindFromFirst(data, BODY_LENGTH_PREFIX, start);
  }

  /** A scan that succeeds starts at the first "8=" and reads the first "9=" after it. */
  lemma ScanStart(data: seq<Byte>)
    requires ScanLengthField(data).Some?
    ensures var f := ScanLengthField(data).value;
      Find(data, BEGIN_PREFIX) == Some(f.start) && FindFrom(data, BODY_LENGTH_PREFIX, f.start) == Some(f.ninePos)
  {
    var s := Find(data, BEGIN_PREFIX);
    assert s.Some?;
    var k := FindFrom(data, BODY_LENGTH_PREFIX, s.value);
    assert k.Some?;
    ScanUnfold(data, s.value, k.value);
  }

  /** A frame starts with "8=". */
  lemma FrameStartsWithBegin(data: seq<Byte>)
    requires FrameBounds(data).Some?
    ensures OccursAt(data, BEGIN_PREFIX, FrameBounds(data).value.0)
  {
    ScanStart(data);
    FindFromFirst(data, BEGIN_PREFIX, 0);
  }

  /** No "8=" in the shorter buffer: it has no length field, and one in the longer buffer ends past its end. */
  lemma ScanInPrefixNoBegin(p: seq<Byte>, x: seq<Byte>)
    requires Find(p, BEGIN_PREFIX).None?
    ensures ScanLengthField(p).None?
    ensures ScanLengthField(p + x).Some? ==> ScanLengthField(p + x).value.nineEnd >= |p|
  {
    if ScanLengthField(p + x).Some? {
      ScanStart(p + x);
      FindFromInPrefix(p, x, BEGIN_PREFIX, 0);
    }
  }

  /** An "8=" but no "9=" after it in the shorter buffer: the same conclusion. */
  lemma ScanInPrefixNoLength(p: seq<Byte>, x: seq<Byte>, start: nat)
    requires Find(p, BEGIN_PREFIX) == Some(start)
    requires FindFrom(p, BODY_LENGTH_PREFIX, start).None?
    ensures ScanLengthField(p).None?
    ensures ScanLengthField(p + x).Some? ==> ScanLengthField(p + x).value.nineEnd >= |p|
  {
    if ScanLengthField(p + x).Some? {
      ScanStart(p + x);
      FindFromInPrefix(p, x, BEGIN_PREFIX, 0);
      FindFromInPrefix(p, x, BODY_LENGTH_PREFIX, start);
    }
  }

  /** Both "8=" and "9=" in the shorter buffer: the longer one finds the same two, and the field
      after them is the same whenever it ends inside the shorter buffer. */
  lemma ScanInPrefixFound(p: seq<Byte>, x: seq<Byte>, start: nat, ninePos: nat)
    requires Find(p, BEGIN_PREFIX) == Some(start)
    requires FindFrom(p, BODY_LENGTH_PREFIX, start) == Some(ninePos)
    ensures ScanLengthField(p).Some? ==> ScanLengthField(p + x) == ScanLengthField(p)
    ensures ScanLengthField(p + x).Some? && ScanLengthField(p + x).value.nineEnd < |p| ==>
      ScanLengthField(p) == ScanLengthField(p + x)
    ensures ScanLengthField(p + x).Some? && ScanLengthField(p + x).value.nineEnd >= |p| ==>
      ScanLengthField(p).None?
  {
    FindFromInPrefix(p, x, BEGIN_PREFIX, 0);
    FindFromInPrefix(p, x, BODY_LENGTH_PREFIX, start);
    ScanUnfold(p, start, ninePos);
    ScanUnfold(p + x, start, ninePos);
    FieldEndInPrefix(p, x, start, ninePos);
  }

  /** The scan of a buffer and of the same buffer with more bytes appended agree whenever the length
      field lies inside the shorter one; otherwise the shorter one has none. */
  lemma ScanInPrefix(p: seq<Byte>, x: seq<Byte>)
    ensures ScanLengthField(p).Some? ==> ScanLengthField(p + x) == ScanLengthField(p)
    ensures ScanLengthField(p + x).Some? && ScanLengthField(p + x).value.nineEnd < |p| ==>
      ScanLengthField(p) == ScanLengthField(p + x)
    ensures ScanLengthField(p + x).Some? && ScanLengthField(p + x).value.nineEnd >= |p| ==>
      ScanLengthField(p).None?
  {
    match Find(p, BEGIN_PREFIX)
    case None => ScanInPrefixNoBegin(p, x);
    case Some(start) =>
      match FindFrom(p, BODY_LENGTH_PREFIX, start)
      case None => ScanInPrefixNoLength(p, x, start);
      case Some(ninePos) => ScanInPrefixFound(p, x, start, ninePos);
  }

  /** A length field inside `p` reads the same text in `p + x`. */
  lemma LengthTextInPrefix(p: seq<Byte>, x: seq<Byte>, f: LengthField)
    requires InBounds(p, f)
    ensures InBounds(p + x, f) && LengthText(p + x, f) == LengthText(p, f)
  {
  }

  /** A frame found in the buffer stays the frame found when more bytes arrive. */
  lemma FrameExtend(p: seq<Byte>, x: seq<Byte>)
    requires FrameBounds(p).Some?
    ensures FrameBounds(p + x) == FrameBounds(p)
  {
    ScanInPrefix(p, x);
    LengthTextInPrefix(p, x, ScanLengthField(p).value);
  }

  /** Before the bytes of a frame have all arrived, no frame is found: a buffer holding only part of
      the frame that a longer buffer yields yields nothing, and one holding all of it yields it. */
  lemma FramePrefix(p: seq<Byte>, x: seq<Byte>)
    requires FrameBounds(p + x).Some?
    ensures FrameBounds(p) == if FrameBounds(p + x).value.1 <= |p| then FrameBounds(p + x) else None
  {
    ScanInPrefix(p, x);
    var f := ScanLengthField(p + x).value;
    if f.nineEnd < |p| {
      LengthTextInPrefix(p, x, f);
    }
  }

  /** The length text of a number `encode` writes parses back to it. */
  lemma ParseLengthOfDigits(n: nat)
    requires n <= USIZE_MAX
    ensures ParseLength(Decimal.Digits(n)) == Some(n)
  {
    Decimal.DigitsAscii(n);
    Utf8.DecodeAscii(Decimal.Digits(n));
    Decimal.ParseDigits(n, USIZE_MAX);
  }

  /** `b` occurs at `i` and nowhere before: `IndexOf` returns `i`. */
  lemma IndexOfIs(s: seq<Byte>, b: Byte, i: nat)
    requires i < |s| && s[i] == b && b !in s[..i]
    ensures IndexOf(s, b) == Some(i)
  {
  }

  /** The field "9=<digits>␁" whose "9=" is at `ninePos`. */
  lemma FieldEndOfDigits(data: seq<Byte>, start: nat, ninePos: nat, d: seq<Byte>)
    requires start <= ninePos && SOH !in d
    requires ninePos + 3 + |d| <= |data|
    requires data[ninePos..ninePos + 3 + |d|] == BODY_LENGTH_PREFIX + d + [SOH]
    ensures OccursAt(data, BODY_LENGTH_PREFIX, ninePos)
    ensures FieldEnd(data, start, ninePos) == Some(LengthField(start, ninePos, ninePos + 2 + |d|))
    ensures LengthText(data, LengthField(start, ninePos, ninePos + 2 + |d|)) == d
  {
    var field := BODY_LENGTH_PREFIX + d + [SOH];
    assert data[ninePos..ninePos + 2] == field[..2];
    var rest := data[ninePos..];
    assert rest[..|field|] == field;
    assert rest[..2 + |d|] == BODY_LENGTH_PREFIX + d;
    assert SOH !in BODY_LENGTH_PREFIX + d;
    IndexOfIs(rest, SOH, 2 + |d|);
    assert data[ninePos + 2..ninePos + 2 + |d|] == field[2..2 + |d|];
  }

  /** "8=FIX.4.4␁9=", the twelve bytes every encoding starts with. */
  const LEAD: seq<Byte> := [0x38, EQUALS, 0x46, 0x49, 0x58, 0x2E, 0x34, 0x2E, 0x34, SOH, 0x39, EQUALS]

  lemma NoLengthPrefixInLead(data: seq<Byte>)
    requires StartsWith(data, LEAD)
    ensures forall j :: 0 <= j < 10 ==> !OccursAt(data, BODY_LENGTH_PREFIX, j)
  {
    forall j | 0 <= j < 10
      ensures !OccursAt(data, BODY_LENGTH_PREFIX, j)
    {
      assert data[j] == LEAD[j];
    }
  }

  /** A buffer that starts with "8=" and holds its first "9=" at `ninePos`, followed by the text `d`
      and SOH, has that length field. */
  lemma ScanFirstField(data: seq<Byte>, ninePos: nat, d: seq<Byte>)
    requires 2 <= ninePos && SOH !in d
    requires OccursAt(data, BEGIN_PREFIX, 0)
    requires forall j :: 0 <= j < ninePos ==> !OccursAt(data, BODY_LENGTH_PREFIX, j)
    requires ninePos + 3 + |d| <= |data| && data[ninePos..ninePos + 3 + |d|] == BODY_LENGTH_PREFIX + d + [SOH]
    ensures ScanLengthField(data) == Some(LengthField(0, ninePos, ninePos + 2 + |d|))
    ensures LengthText(data, LengthField(0, ninePos, ninePos + 2 + |d|)) == d
  {
    FindFromIs(data, BEGIN_PREFIX, 0, 0);
    FieldEndOfDigits(data, 0, ninePos, d);
    FindFromIs(data, BODY_LENGTH_PREFIX, 0, ninePos);
    ScanUnfold(data, 0, ninePos);
  }

  /** A buffer starting with an encoding's header has that header's length field. */
  lemma ScanHeader(data: seq<Byte>, len: nat)
    requires StartsWith(data, Header(len))
    ensures ScanLengthField(data) == Some(LengthField(0, 10, |Header(len)| - 1))
    ensures LengthText(data, LengthField(0, 10, |Header(len)| - 1)) == Decimal.Digits(len)
  {
    var d := Decimal.Digits(len);
    HeaderOfLead(len);
    StartsWithLead(data, d);
    NoLengthPrefixInLead(data);
    Decimal.DigitsAscii(len);
    ScanFirstField(data, 10, d);
  }

  /** The header is the lead, the digits of the body length, and SOH. */
  lemma HeaderOfLead(len: nat)
    ensures Header(len) == LEAD + Decimal.Digits(len) + [SOH]
    ensures |Header(len)| == 13 + |Decimal.Digits(len)|
  {
  }

  /** A buffer starting with the lead, the text `d` and SOH starts with "8=" and holds "9=", `d` and SOH
      from its tenth byte. */
  lemma StartsWithLead(data: seq<Byte>, d: seq<Byte>)
    requires StartsWith(data, LEAD + d + [SOH])
    ensures StartsWith(data, LEAD) && OccursAt(data, BEGIN_PREFIX, 0)
    ensures 13 + |d| <= |data| && data[10..13 + |d|] == BODY_LENGTH_PREFIX + d + [SOH]
  {
    var h := LEAD + d + [SOH];
    assert data[..12] == h[..12];
    assert data[0..2] == h[0..2];
    assert data[10..13 + |d|] == h[10..];
  }

  /** A buffer holding an encoded message followed by anything yields exactly that message, leaving
      what follows it. */
  lemma FrameOfEncoding(msg: FixMessage, rest: seq<Byte>)
    requires BodyLength(BodyFields(msg)) <= USIZE_MAX
    ensures FrameBounds(Encoding(msg) + rest) == Some((0, |Encoding(msg)|))
    ensures (Encoding(msg) + rest)[0..|Encoding(msg)|] == Encoding(msg)
    ensures (Encoding(msg) + rest)[|Encoding(msg)|..] == rest
  {
    var e := Encoding(msg);
    var len := BodyLength(BodyFields(msg));
    assert StartsWith(e + rest, Header(len)) && |e| == |Header(len)| + len + TRAILER_LENGTH by {
      EncodingLayout(msg);
      assert (e + rest)[..|Header(len)|] == Header(len);
    }
    FrameOfHeader(e + rest, len, |e|);
  }

  /** A buffer that starts with the header of a body of `len` bytes, and holds at least the whole
      frame, yields that frame. */
  lemma FrameOfHeader(data: seq<Byte>, len: nat, total: nat)
    requires len <= USIZE_MAX && StartsWith(data, Header(len))
    requires total == |Header(len)| + len + TRAILER_LENGTH <= |data|
    ensures FrameBounds(data) == Some((0, total))
  {
    var field := LengthField(0, 10, |Header(len)| - 1);
    ScanHeader(data, len);
    ParseLengthOfDigits(len);
    assert ParseLength(LengthText(data, field)) == Some(len);
    BoundsOfField(data, field, len);
    assert FrameEnd(field, len) == total;
  }

  /** A buffer that is exactly one frame yields nothing from any shorter prefix of it. */
  lemma NoFrameInPrefix(e: seq<Byte>)
    requires FrameBounds(e) == Some((0, |e|))
    ensures forall n :: 0 <= n < |e| ==> FrameBounds(e[..n]).None?
  {
    forall n | 0 <= n < |e|
      ensures FrameBounds(e[..n]).None?
    {
      NoFrameBefore(e, n);
    }
  }

  lemma NoFrameBefore(e: seq<Byte>, n: nat)
    requires FrameBounds(e) == Some((0, |e|)) && n < |e|
    ensures FrameBounds(e[..n]).None?
  {
    var p, x := e[..n], e[n..];
    assert p + x == e;
    FramePrefix(p, x);
  }

  /** A buffer holding only part of an encoded message yields nothing. */
  lemma NoFrameInPartialEncoding(msg: FixMessage)
    requires BodyLength(BodyFields(msg)) <= USIZE_MAX
    ensures forall n :: 0 <= n < |Encoding(msg)| ==> FrameBounds(Encoding(msg)[..n]).None?
  {
    FrameOfEncoding(msg, []);
    assert Encoding(msg) + [] == Encoding(msg);
    NoFrameInPrefix(Encoding(msg));
  }

  /** usize arithmetic of a release build: results wrap modulo 2^64. */
  const USIZE_MODULUS: nat := USIZE_MAX + 1

  function WrappingAdd(a: nat, b: nat): nat
  {
    (a + b) % USIZE_MODULUS
  }

  function WrappingSub(a: nat, b: nat): nat
  {
    (a - b) % USIZE_MODULUS
  }

  /** What the source's arithmetic can lead to: no frame yet, a frame `[start, end)`, or a panic when
      the slice's end falls before its start. */
  datatype Extraction = Incomplete | Extracted(start: nat, end: nat) | SlicePanic

  /** The frame bounds of `try_extract_one` as written, in a release build: `body_start + body_len + 7
      - start` and `start + total_len` are computed in wrapping usize arithmetic. */
  function BoundsAsWritten(f: LengthField, bodyLength: nat, available: nat): Extraction
  {
    var bodyStart := WrappingAdd(f.nineEnd, 1);
    var totalLength := WrappingSub(WrappingAdd(WrappingAdd(bodyStart, bodyLength), TRAILER_LENGTH), f.start);
    var end := WrappingAdd(f.start, totalLength);
    if end > available then Incomplete
    else if end < f.start then SlicePanic
    else Extracted(f.start, end)
  }

  /** `try_extract_one` as written, in a release build. */
  function FrameBoundsAsWritten(data: seq<Byte>): Extraction
  {
    match ScanLengthField(data)
    case None => Incomplete
    case Some(f) =>
      match ParseLength(LengthText(data, f))
      case None => Incomplete
      case Some(len) => BoundsAsWritten(f, len, |data|)
  }

  lemma WrappingSmall(x: nat)
    requires x <= USIZE_MAX
    ensures x % USIZE_MODULUS == x
  {
  }

  /** While the frame's end fits a usize, the wrapping arithmetic gives the intended end. */
  lemma BoundsWithoutOverflow(f: LengthField, bodyLength: nat, available: nat)
    requires f.start <= f.nineEnd && FrameEnd(f, bodyLength) <= USIZE_MAX
    ensures BoundsAsWritten(f, bodyLength, available) ==
      if FrameEnd(f, bodyLength) > available then Incomplete else Extracted(f.start, FrameEnd(f, bodyLength))
  {
    var bodyStart := f.nineEnd + 1;
    var end := FrameEnd(f, bodyLength);
    WrappingSmall(bodyStart);
    WrappingSmall(bodyStart + bodyLength);
    WrappingSmall(end);
    WrappingSmall(end - f.start);
    assert WrappingSub(end, f.start) == end - f.start;
  }

  /** While the frame's end fits a usize, the source's arithmetic gives the intended bounds. */
  lemma AsWrittenAgreesWithoutOverflow(data: seq<Byte>)
    requires ScanLengthField(data).Some? && ParseLength(LengthText(data, ScanLengthField(data).value)).Some? ==>
      FrameEnd(ScanLengthField(data).value, ParseLength(LengthText(data, ScanLengthField(data).value)).value) <= USIZE_MAX
    ensures FrameBoundsAsWritten(data) ==
      if FrameBounds(data).None? then Incomplete else Extracted(FrameBounds(data).value.0, FrameBounds(data).value.1)
  {
    match ScanLengthField(data)
    case None =>
    case Some(f) =>
      match ParseLength(LengthText(data, f))
      case None =>
      case Some(len) => BoundsWithoutOverflow(f, len, |data|);
  }

  /** Both readings of a buffer once its length field and declared length are known. */
  lemma BoundsOfField(data: seq<Byte>, f: LengthField, len: nat)
    requires ScanLengthField(data) == Some(f) && ParseLength(LengthText(data, f)) == Some(len)
    ensures FrameBoundsAsWritten(data) == BoundsAsWritten(f, len, |data|)
    ensures FrameBounds(data) == if FrameEnd(f, len) > |data| then None else Some((f.start, FrameEnd(f, len)))
  {
  }

  /** The arithmetic of the buffer below: the end wraps to 0, the start of the buffer. */
  lemma WrappedBounds(n: nat)
    requires n == USIZE_MODULUS - 32
    ensures BoundsAsWritten(LengthField(0, 2, 24), n, 25) == Extracted(0, 0)
  {
    assert WrappingAdd(24, 1) == 25;
    assert WrappingAdd(25, n) == USIZE_MODULUS - 7;
    assert WrappingAdd(USIZE_MODULUS - 7, TRAILER_LENGTH) == 0;
  }

  /** The buffer "8=9=18446744073709551584␁", where `n` is 2^64 - 32: the declared body length is so
      large that the end `25 + n + 7` wraps to 0. The source returns an empty frame and leaves the
      buffer as it was, so a caller that loops while frames come out never stops; the intended answer
      is that no complete frame is buffered yet. */
  lemma WrapAroundYieldsEmptyFrame(n: nat)
    requires n == USIZE_MODULUS - 32
    ensures var data := [0x38, EQUALS, 0x39, EQUALS] + Decimal.Digits(n) + [SOH];
      FrameBoundsAsWritten(data) == Extracted(0, 0) && FrameBounds(data).None?
  {
    var d := Decimal.Digits(n);
    var data := [0x38, EQUALS, 0x39, EQUALS] + d + [SOH];
    Decimal.Pow10Twenty();
    Decimal.DigitsLength(n, 20);
    assert OccursAt(data, BEGIN_PREFIX, 0) by {
      assert data[0..2] == BEGIN_PREFIX;
    }
    assert !OccursAt(data, BODY_LENGTH_PREFIX, 0) && !OccursAt(data, BODY_LENGTH_PREFIX, 1) by {
      assert data[0] == 0x38 && data[1] == EQUALS;
    }
    assert data[2..25] == BODY_LENGTH_PREFIX + d + [SOH] by {
      assert data[2..4] == BODY_LENGTH_PREFIX && data[4..24] == d && data[24] == SOH;
    }
    Decimal.DigitsAscii(n);
    ScanFirstField(data, 2, d);
    ParseLengthOfDigits(n);
    BoundsOfField(data, LengthField(0, 2, 24), n);
    WrappedBounds(n);
  }
}
