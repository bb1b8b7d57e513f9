/**
 * `decode` of src/protocol.rs: framing, CheckSum (10) and BodyLength (9) validation, and the rebuilt
 * message. `Decoding` states the result; the method `Decode` computes it with the source's two loops.
 */
module Decoder {
  import opened Wrappers
  import opened Bytes
  import opened Protocol
  import Decimal
  import Utf8
  import Encoder

  /** One variant per error message of the source, in the order the source checks them. */
  datatype DecodeError =
    | MissingTrailingSoh                         // "message must end with SOH"
    | NonUtf8Trailer                             // "non-utf8 trailer"
    | MissingChecksumField                       // "missing 10= trailer"
    | BadChecksumValue                           // "bad checksum value"
    | ChecksumMismatch(expected: nat, actual: nat)
    | NonUtf8Field                               // "non-utf8 field"
    | MissingValue                               // "missing value"
    | NonNumericTag                              // "non-numeric tag"
    | MissingBeginString                         // "missing 8=BeginString"
    | MissingBodyLength                          // "missing 9=BodyLength"
    | MissingMsgType                             // "missing 35=MsgType"
    | InvalidBodyLength                          // "invalid 9 value"
    | BodyLengthMismatch(header: nat, computed: nat)

  const BEGIN_PREFIX: seq<Byte> := [0x38, EQUALS]   // "8="

  /** `split(|b| *b == SOH)`: the pieces between delimiters, always at least one. */
  function Split(s: seq<Byte>): (r: seq<seq<Byte>>)
    ensures 1 <= |r|
    ensures forall i :: 0 <= i < |r| ==> SOH !in r[i] && |r[i]| <= |s|
    ensures Join(r) == s
  {
    if |s| == 0 then [[]]
    else if s[0] == SOH then
      var rest := Split(s[1..]);
      assert s == [] + [SOH] + Join(rest);
      [[]] + rest
    else
      var rest := Split(s[1..]);
      var r := [[s[0]] + rest[0]] + rest[1..];
      assert Join(r) == [s[0]] + Join(rest) by { JoinCons(s[0], rest); }
      r
  }

  /** The pieces put back together with one SOH between neighbours. */
  function Join(pieces: seq<seq<Byte>>): seq<Byte>
    requires 1 <= |pieces|
  {
    if |pieces| == 1 then pieces[0] else pieces[0] + [SOH] + Join(pieces[1..])
  }

  lemma JoinCons(b: Byte, pieces: seq<seq<Byte>>)
    requires 1 <= |pieces|
    ensures Join([[b] + pieces[0]] + pieces[1..]) == [b] + Join(pieces)
  {
    var r := [[b] + pieces[0]] + pieces[1..];
    if |pieces| > 1 {
      assert r[1..] == pieces[1..];
    }
  }

  /** One body field: the tag before the first '=', the value after it. */
  function ParseField(f: seq<Byte>): Result<(U32, Text), DecodeError>
  {
    if !Utf8.Valid(f) then Err(NonUtf8Field)
    else
      match IndexOf(f, EQUALS)
      case None => Err(MissingValue)
      case Some(i) =>
        match Decimal.ParseUnsigned(f[..i], U32_MAX)
        case None => Err(NonNumericTag)
        case Some(tag) => Ok((tag, f[i + 1..]))
  }

  /** The field map the first loop builds: each field inserted in turn, a later tag overriding an
      earlier one, and the first malformed field ending the loop with its error. */
  function InsertFields(fields: seq<seq<Byte>>, acc: map<U32, Text>): Result<map<U32, Text>, DecodeError>
  {
    if |fields| == 0 then Ok(acc)
    else
      match ParseField(fields[0])
      case Err(e) => Err(e)
      case Ok(entry) => InsertFields(fields[1..], acc[entry.0 := entry.1])
  }

  /** The bytes the second loop counts: nothing up to and including the first field starting "9="
      (and the first field starting "8=" wherever it is), then each further field and its SOH. */
  function CountBody(fields: seq<seq<Byte>>, seen8: bool, seen9: bool): nat
  {
    if |fields| == 0 then 0
    else
      var f := fields[0];
      if !seen8 && StartsWith(f, BEGIN_PREFIX) then CountBody(fields[1..], true, seen9)
      else if !seen9 then CountBody(fields[1..], seen8, StartsWith(f, Encoder.BODY_LENGTH_PREFIX))
      else |f| + 1 + CountBody(fields[1..], seen8, seen9)
  }

  /** The header checks, the body-length check and the rebuilt message, given the fields before the trailer. */
  function DecodeBody(body: seq<seq<Byte>>): Result<FixMessage, DecodeError>
  {
    match InsertFields(body, map[])
    case Err(e) => Err(e)
    case Ok(m) =>
      if TAG_BEGIN_STRING !in m then Err(MissingBeginString)
      else if TAG_BODY_LENGTH !in m then Err(MissingBodyLength)
      else if TAG_MSG_TYPE !in m then Err(MissingMsgType)
      else
        var counted := CountBody(body, false, false);
        match Decimal.ParseUnsigned(m[TAG_BODY_LENGTH], USIZE_MAX)
        case None => Err(InvalidBodyLength)
        case Some(len) =>
          if counted != len then Err(BodyLengthMismatch(len, counted))
          else Ok(FixMessage(m[TAG_BEGIN_STRING], len, ParseMsgType(m[TAG_MSG_TYPE]),
                             m - {TAG_BEGIN_STRING, TAG_BODY_LENGTH, TAG_MSG_TYPE}))
  }

  /** The last SOH-separated field of `buf` without its final SOH: where CheckSum(10) must be. */
  function TrailerField(buf: seq<Byte>): (r: seq<Byte>)
    requires 0 < |buf|
    ensures |r| < |buf| && SOH !in r
  {
    var pieces := Split(buf[..|buf| - 1]);
    pieces[|pieces| - 1]
  }

  /** The fields before the trailer. */
  function BodyPieces(buf: seq<Byte>): seq<seq<Byte>>
    requires 0 < |buf|
  {
    var pieces := Split(buf[..|buf| - 1]);
    pieces[..|pieces| - 1]
  }

  /** What `decode` returns for `buf`. */
  function Decoding(buf: seq<Byte>): Result<FixMessage, DecodeError>
  {
    if |buf| == 0 || buf[|buf| - 1] != SOH then Err(MissingTrailingSoh)
    else
      var trailer := TrailerField(buf);
      if !Utf8.Valid(trailer) then Err(NonUtf8Trailer)
      else if !StartsWith(trailer, Encoder.CHECKSUM_PREFIX) then Err(MissingChecksumField)
      else
        match Decimal.ParseUnsigned(trailer[3..], U8_MAX)
        case None => Err(BadChecksumValue)
        case Some(expected) =>
          var actual := Checksum(buf[..|buf| - (|trailer| + 1)]);
          if actual != expected then Err(ChecksumMismatch(expected, actual))
          else DecodeBody(BodyPieces(buf))
  }

  /** `decode`. */
  method Decode(buf: seq<Byte>) returns (r: Result<FixMessage, DecodeError>)
    ensures r == Decoding(buf)
  {
    if |buf| == 0 || buf[|buf| - 1] != SOH {
      return Err(MissingTrailingSoh);
    }
    var withoutTrailer := buf[..|buf| - 1];
    var fields := Split(withoutTrailer);
    var trailer := fields[|fields| - 1];
    assert trailer == TrailerField(buf);
    if !Utf8.Valid(trailer) {
      return Err(NonUtf8Trailer);
    }
    if !StartsWith(trailer, Encoder.CHECKSUM_PREFIX) {
      return Err(MissingChecksumField);
    }
    var expected := Decimal.ParseUnsigned(trailer[3..], U8_MAX);
    if expected.None? {
      return Err(BadChecksumValue);
    }
    var checksumRegionEnd := |buf| - (|trailer| + 1);
    var actual := Checksum(buf[..checksumRegionEnd]);
    if actual != expected.value {
      return Err(ChecksumMismatch(expected.value, actual));
    }
    fields := fields[..|fields| - 1];
    assert fields == BodyPieces(buf);
    r := DecodeFields(fields);
  }

  /** The part of `decode` after the trailer is popped. */
  method DecodeFields(fields: seq<seq<Byte>>) returns (r: Result<FixMessage, DecodeError>)
    ensures r == DecodeBody(fields)
  {
    var inserted := CollectFields(fields);
    if inserted.Err? {
      return Err(inserted.error);
    }
    var m := inserted.value;
    if TAG_BEGIN_STRING !in m {
      return Err(MissingBeginString);
    }
    if TAG_BODY_LENGTH !in m {
      return Err(MissingBodyLength);
    }
    if TAG_MSG_TYPE !in m {
      return Err(MissingMsgType);
    }
    var beginString := m[TAG_BEGIN_STRING];
    var bodyLenStr := m[TAG_BODY_LENGTH];
    var msgTypeStr := m[TAG_MSG_TYPE];
    var bodyCounted := CountBodyBytes(fields);
    var bodyLenVal := Decimal.ParseUnsigned(bodyLenStr, USIZE_MAX);
    if bodyLenVal.None? {
      return Err(InvalidBodyLength);
    }
    if bodyCounted != bodyLenVal.value {
      return Err(BodyLengthMismatch(bodyLenVal.value, bodyCounted));
    }
    var msgType := ParseMsgType(msgTypeStr);
    m := m - {TAG_BEGIN_STRING};
    m := m - {TAG_BODY_LENGTH};
    m := m - {TAG_MSG_TYPE};
    assert m == inserted.value - {TAG_BEGIN_STRING, TAG_BODY_LENGTH, TAG_MSG_TYPE};
    r := Ok(FixMessage(beginString, bodyLenVal.value, msgType, m));
  }

  /** The first loop of `decode`: every field parsed and inserted into the map. */
  method CollectFields(fields: seq<seq<Byte>>) returns (r: Result<map<U32, Text>, DecodeError>)
    ensures r == InsertFields(fields, map[])
  {
    var m: map<U32, Text> := map[];
    for i := 0 to |fields|
      invariant InsertFields(fields, map[]) == InsertFields(fields[i..], m)
    {
      var f := fields[i];
      assert fields[i..][1..] == fields[i + 1..];
      if !Utf8.Valid(f) {
        return Err(NonUtf8Field);
      }
      var eq := IndexOf(f, EQUALS);
      if eq.None? {
        return Err(MissingValue);
      }
      var tag := Decimal.ParseUnsigned(f[..eq.value], U32_MAX);
      if tag.None? {
        return Err(NonNumericTag);
      }
      m := m[tag.value := f[eq.value + 1..]];
    }
    assert fields[|fields|..] == [];
    r := Ok(m);
  }

  /** The second loop of `decode`: the bytes after BodyLength(9), each field with its SOH. */
  method CountBodyBytes(fields: seq<seq<Byte>>) returns (bodyCounted: nat)
    ensures bodyCounted == CountBody(fields, false, false)
  {
    var seen8 := false;
    var seen9 := false;
    bodyCounted := 0;
    for i := 0 to |fields|
      invariant bodyCounted + CountBody(fields[i..], seen8, seen9) == CountBody(fields, false, false)
    {
      var f := fields[i];
      assert fields[i..][1..] == fields[i + 1..];
      if !seen8 && StartsWith(f, BEGIN_PREFIX) {
        seen8 := true;
        continue;
      }
      if !seen9 {
        if StartsWith(f, Encoder.BODY_LENGTH_PREFIX) {
          seen9 := true;
        }
        continue;
      }
      bodyCounted := bodyCounted + |f| + 1;
    }
    assert fields[|fields|..] == [];
  }

  /** The tag `ParseField` reads from `f`, when `f` is well formed. */
  function TagOf(f: seq<Byte>): Option<U32>
  {
    if ParseField(f).Ok? then Some(ParseField(f).value.0) else None
  }

  /** No field after position `i` carries the tag of field `i`. */
  predicate LastWithItsTag(fs: seq<seq<Byte>>, i: nat)
    requires i < |fs|
  {
    forall j :: i < j < |fs| ==> TagOf(fs[j]) != TagOf(fs[i])
  }

  /** When the first loop of `decode` finishes, every field it read was well formed. */
  lemma {:induction false} InsertFieldsWellFormed(fs: seq<seq<Byte>>, acc: map<U32, Text>)
    requires InsertFields(fs, acc).Ok?
    ensures forall i :: 0 <= i < |fs| ==> ParseField(fs[i]).Ok?
  {
    if |fs| > 0 {
      var e := ParseField(fs[0]).value;
      InsertFieldsWellFormed(fs[1..], acc[e.0 := e.1]);
      assert forall i :: 1 <= i < |fs| ==> fs[i] == fs[1..][i - 1];
    }
  }

  /** The map the first loop of `decode` builds: every tag read ends up in it with the value of its
      LAST occurrence (later duplicates override earlier ones), and entries whose tag no field
      carries are the ones the map started with. */
  lemma {:induction false} InsertFieldsFacts(fs: seq<seq<Byte>>, acc: map<U32, Text>)
    requires InsertFields(fs, acc).Ok?
    requires forall i :: 0 <= i < |fs| ==> ParseField(fs[i]).Ok?
    ensures acc.Keys <= InsertFields(fs, acc).value.Keys
    ensures forall i :: 0 <= i < |fs| ==> ParseField(fs[i]).value.0 in InsertFields(fs, acc).value
    ensures forall i :: 0 <= i < |fs| && LastWithItsTag(fs, i) ==>
      InsertFields(fs, acc).value[ParseField(fs[i]).value.0] == ParseField(fs[i]).value.1
    ensures forall t :: t in InsertFields(fs, acc).value && (forall i :: 0 <= i < |fs| ==> TagOf(fs[i]) != Some(t)) ==>
      t in acc && InsertFields(fs, acc).value[t] == acc[t]
  {
    if |fs| > 0 {
      var e := ParseField(fs[0]).value;
      var acc' := acc[e.0 := e.1];
      var rest := fs[1..];
      var m := InsertFields(fs, acc).value;
      assert InsertFields(rest, acc') == InsertFields(fs, acc);
      InsertFieldsFacts(rest, acc');
      assert forall i :: 1 <= i < |fs| ==> fs[i] == rest[i - 1];
      forall i | 0 <= i < |fs| && LastWithItsTag(fs, i)
        ensures m[ParseField(fs[i]).value.0] == ParseField(fs[i]).value.1
      {
        if i == 0 {
          forall k | 0 <= k < |rest| ensures TagOf(rest[k]) != Some(e.0) {
            assert TagOf(fs[k + 1]) != TagOf(fs[0]);
          }
        } else {
          assert LastWithItsTag(rest, i - 1) by {
            forall j | i - 1 < j < |rest| ensures TagOf(rest[j]) != TagOf(rest[i - 1]) {
              assert TagOf(fs[j + 1]) != TagOf(fs[i]);
            }
          }
        }
      }
      forall t | t in m && (forall i :: 0 <= i < |fs| ==> TagOf(fs[i]) != Some(t))
        ensures t in acc && m[t] == acc[t]
      {
        assert TagOf(fs[0]) != Some(t);
        forall k | 0 <= k < |rest| ensures TagOf(rest[k]) != Some(t) {
          assert TagOf(fs[k + 1]) != Some(t);
        }
      }
    }
  }

  /** What an accepted list of body fields yields: BodyLength(9), BeginString(8) and MsgType(35)
      were all read; the message keeps the last value of 8 and 35 and none of the three tags, and
      every other tag with its last value; its body length is the last value of 9, which equals the
      bytes counted after the first "9=" field. */
  lemma DecodeBodyAccepted(body: seq<seq<Byte>>)
    requires DecodeBody(body).Ok?
    ensures InsertFields(body, map[]).Ok?
    ensures var m := InsertFields(body, map[]).value;
      var msg := DecodeBody(body).value;
      TAG_BEGIN_STRING in m && TAG_BODY_LENGTH in m && TAG_MSG_TYPE in m &&
      msg.beginString == m[TAG_BEGIN_STRING] &&
      msg.msgType == ParseMsgType(m[TAG_MSG_TYPE]) &&
      Decimal.ParseUnsigned(m[TAG_BODY_LENGTH], USIZE_MAX) == Some(msg.bodyLength) &&
      msg.bodyLength == CountBody(body, false, false)
    ensures var m := InsertFields(body, map[]).value;
      var msg := DecodeBody(body).value;
      TAG_BEGIN_STRING !in msg.fields && TAG_BODY_LENGTH !in msg.fields && TAG_MSG_TYPE !in msg.fields &&
      (forall t :: t in m && t !in {TAG_BEGIN_STRING, TAG_BODY_LENGTH, TAG_MSG_TYPE} ==> t in msg.fields && msg.fields[t] == m[t]) &&
      (forall t :: t in msg.fields ==> t in m)
  {
  }

  /** An accepted list of body fields holds only well-formed `tag=value` fields with u32 tags. */
  lemma DecodeBodyWellFormed(body: seq<seq<Byte>>)
    requires DecodeBody(body).Ok?
    ensures forall i :: 0 <= i < |body| ==> ParseField(body[i]).Ok?
  {
    InsertFieldsWellFormed(body, map[]);
  }

  /** The trailer and checksum half of acceptance: an accepted buffer ends with SOH, its last field
      is a CheckSum(10) whose value is the byte sum modulo 256 of everything before that field, and
      the message is what the fields before the trailer decode to. */
  lemma DecodeAccepted(buf: seq<Byte>)
    requires Decoding(buf).Ok?
    ensures |buf| > 0 && buf[|buf| - 1] == SOH
    ensures var trailer := TrailerField(buf);
      StartsWith(trailer, Encoder.CHECKSUM_PREFIX) &&
      Decimal.ParseUnsigned(trailer[3..], U8_MAX) == Some(Checksum(buf[..|buf| - (|trailer| + 1)])) &&
      Decoding(buf) == DecodeBody(BodyPieces(buf))
  {
  }
}
