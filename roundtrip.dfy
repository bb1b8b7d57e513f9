/**
 * `decode` inverts `encode`: the bytes `encode` writes for a message decode to the same message,
 * with BeginString FIX.4.4 and the body length `encode` computed.
 */
module RoundTrip {
  import opened Wrappers
  import opened Bytes
  import opened Protocol
  import Decimal
  import Utf8
  import opened Encoder
  import opened Decoder

  /** The texts of a run of fields, one piece per field, without delimiters. */
  function FieldPieces(es: seq<(U32, Text)>): (r: seq<seq<Byte>>)
    ensures |r| == |es| && forall i :: 0 <= i < |r| ==> r[i] == FieldText(es[i].0, es[i].1)
  {
    seq(|es|, i requires 0 <= i < |es| => FieldText(es[i].0, es[i].1))
  }

  /** The fields `encode` writes before the trailer: BeginString, BodyLength, then the body. */
  function WrittenFields(msg: FixMessage): seq<(U32, Text)>
  {
    [(TAG_BEGIN_STRING, BEGIN_STRING), (TAG_BODY_LENGTH, Decimal.Digits(BodyLength(BodyFields(msg))))] + BodyFields(msg)
  }

  /** BeginString and BodyLength, then the body fields one position further on. */
  lemma WrittenFieldsLayout(msg: FixMessage)
    ensures var w := WrittenFields(msg);
      var body := BodyFields(msg);
      && |w| == |body| + 2
      && w[0] == (TAG_BEGIN_STRING, BEGIN_STRING)
      && w[1] == (TAG_BODY_LENGTH, Decimal.Digits(BodyLength(body)))
      && forall i :: 2 <= i < |w| ==> w[i] == body[i - 2]
  {
  }

  /** The pieces `decode` splits an encoding into: the written fields, then "10=ddd". */
  function EncodedPieces(msg: FixMessage): seq<seq<Byte>>
  {
    FieldPieces(WrittenFields(msg)) + [CHECKSUM_PREFIX + Decimal.Pad3(WrappingSum(Prelude(msg)))]
  }

  lemma {:induction false} JoinSnoc(ps: seq<seq<Byte>>, x: seq<Byte>)
    requires 1 <= |ps|
    ensures Join(ps + [x]) == Join(ps) + [SOH] + x
  {
    if |ps| > 1 {
      assert (ps + [x])[1..] == ps[1..] + [x];
      JoinSnoc(ps[1..], x);
    }
  }

  lemma {:induction false} FieldsTextAppend(a: seq<(U32, Text)>, b: seq<(U32, Text)>)
    ensures FieldsText(a + b) == FieldsText(a) + FieldsText(b)
  {
    if |b| == 0 {
      assert a + b == a;
    } else {
      var init := b[..|b| - 1];
      var last := b[|b| - 1];
      var ab := a + b;
      assert ab[..|ab| - 1] == a + init;
      assert ab[|ab| - 1] == last;
      assert FieldsText(ab) == FieldsText(a + init) + FieldText(last.0, last.1) + [SOH];
      FieldsTextAppend(a, init);
      assert FieldsText(b) == FieldsText(init) + FieldText(last.0, last.1) + [SOH];
    }
  }

  /** A run of SOH-terminated fields is the join of its pieces, followed by SOH. */
  lemma {:induction false} FieldsTextIsJoin(es: seq<(U32, Text)>)
    requires 1 <= |es|
    ensures FieldsText(es) == Join(FieldPieces(es)) + [SOH]
  {
    if |es| == 1 {
      assert FieldsText(es) == FieldsText(es[..0]) + FieldText(es[0].0, es[0].1) + [SOH];
    } else {
      var init := es[..|es| - 1];
      FieldsTextIsJoin(init);
      assert FieldPieces(es) == FieldPieces(init) + [FieldText(es[|es| - 1].0, es[|es| - 1].1)];
      JoinSnoc(FieldPieces(init), FieldText(es[|es| - 1].0, es[|es| - 1].1));
    }
  }

  lemma {:induction false} SplitPrefix(p: seq<Byte>, rest: seq<Byte>)
    requires SOH !in p
    ensures Split(p + [SOH] + rest) == [p] + Split(rest)
  {
    var s := p + [SOH] + rest;
    if |p| == 0 {
      assert s[1..] == rest;
    } else {
      assert s[1..] == p[1..] + [SOH] + rest;
      SplitPrefix(p[1..], rest);
      assert [p[0]] + p[1..] == p;
    }
  }

  lemma {:induction false} SplitWithoutSoh(p: seq<Byte>)
    requires SOH !in p
    ensures Split(p) == [p]
  {
    if |p| > 0 {
      SplitWithoutSoh(p[1..]);
      assert [p[0]] + p[1..] == p;
    }
  }

  /** `split` on SOH undoes `Join` when no piece holds SOH. */
  lemma {:induction false} SplitJoin(ps: seq<seq<Byte>>)
    requires 1 <= |ps|
    requires forall i :: 0 <= i < |ps| ==> SOH !in ps[i]
    ensures Split(Join(ps)) == ps
  {
    if |ps| == 1 {
      SplitWithoutSoh(ps[0]);
    } else {
      SplitPrefix(ps[0], Join(ps[1..]));
      SplitJoin(ps[1..]);
    }
  }

  lemma DigitsOfSmall()
    ensures Decimal.Digits(TAG_BEGIN_STRING) == [0x38]
    ensures Decimal.Digits(TAG_BODY_LENGTH) == [0x39]
  {
  }

  /** What the values of a message must satisfy for its encoding to decode back: no SOH inside
      (the framing byte) and valid UTF-8 (the source keeps values as Rust strings). */
  predicate WellFormedValues(fields: map<U32, Text>)
  {
    forall t :: t in fields ==> SOH !in fields[t] && Utf8.Valid(fields[t])
  }

  /** A written field reads back as its tag and value. */
  lemma ParseFieldText(tag: U32, value: Text)
    requires Utf8.Valid(value)
    ensures ParseField(FieldText(tag, value)) == Ok((tag, value))
  {
    var d := Decimal.Digits(tag);
    var f := FieldText(tag, value);
    Decimal.DigitsAscii(tag);
    assert IsAscii(d + [EQUALS]);
    Utf8.DecodeAscii(d + [EQUALS]);
    Utf8.DecodeAppend(d + [EQUALS], value);
    assert f == (d + [EQUALS]) + value;
    assert f[|d|] == EQUALS;
    var eq := IndexOf(f, EQUALS);
    assert eq.Some?;
    assert EQUALS !in f[..|d|];
    assert f[..|d|] == d;
    assert f[|d| + 1..] == value;
    Decimal.ParseDigits(tag, U32_MAX);
  }

  /** The tags `encode` writes before the trailer are pairwise distinct. */
  lemma WrittenTagsDistinct(msg: FixMessage)
    requires TAG_BEGIN_STRING !in msg.fields && TAG_BODY_LENGTH !in msg.fields && TAG_MSG_TYPE !in msg.fields
    ensures var w := WrittenFields(msg);
      forall i, j :: 0 <= i < j < |w| ==> w[i].0 != w[j].0
  {
    var w := WrittenFields(msg);
    var b := BodyFields(msg);
    BodyFieldsSorted(msg);
    WrittenFieldsLayout(msg);
  }

  /** An encoding is the join of its pieces followed by SOH. */
  lemma EncodingIsJoin(msg: FixMessage)
    ensures Encoding(msg) == Join(EncodedPieces(msg)) + [SOH]
  {
    var body := BodyFields(msg);
    var len := BodyLength(body);
    var w := WrittenFields(msg);
    var c := WrappingSum(Prelude(msg));
    var trailer := CHECKSUM_PREFIX + Decimal.Pad3(c);
    assert Header(len) == FieldsText(w[..2]) by {
      DigitsOfSmall();
      assert w[..2][..1] == [w[0]];
      assert FieldsText([w[0]]) == FieldsText([w[0]][..0]) + FieldText(w[0].0, w[0].1) + [SOH];
    }
    assert w == w[..2] + body;
    FieldsTextAppend(w[..2], body);
    assert Prelude(msg) == FieldsText(w);
    FieldsTextIsJoin(w);
    JoinSnoc(FieldPieces(w), trailer);
  }

  /** No piece of an encoding holds SOH. */
  lemma PiecesWithoutSoh(msg: FixMessage)
    requires WellFormedValues(msg.fields)
    ensures forall i :: 0 <= i < |EncodedPieces(msg)| ==> SOH !in EncodedPieces(msg)[i]
  {
    forall i | 0 <= i < |EncodedPieces(msg)|
      ensures SOH !in EncodedPieces(msg)[i]
    {
      if i < |WrittenFields(msg)| {
        WrittenPieceWithoutSoh(msg, i);
      } else {
        var c := WrappingSum(Prelude(msg));
        assert Decimal.AllDigits(Decimal.Pad3(c));
        assert EncodedPieces(msg)[i] == CHECKSUM_PREFIX + Decimal.Pad3(c);
      }
    }
  }

  /** The written fields, one at a time: digits, `=` and a value without SOH. */
  lemma WrittenPieceWithoutSoh(msg: FixMessage, i: nat)
    requires WellFormedValues(msg.fields) && i < |WrittenFields(msg)|
    ensures SOH !in EncodedPieces(msg)[i]
  {
    var body := BodyFields(msg);
    var w := WrittenFields(msg);
    Decimal.DigitsAscii(w[i].0);
    if i == 1 {
      Decimal.DigitsAscii(BodyLength(body));
    } else if i >= 3 {
      assert w[i] == body[i - 2];
    }
    assert EncodedPieces(msg)[i] == Decimal.Digits(w[i].0) + [EQUALS] + w[i].1;
  }

  /** `split` of an encoding, its last SOH removed, gives the pieces. */
  lemma EncodingSplits(msg: FixMessage)
    requires WellFormedValues(msg.fields)
    ensures var e := Encoding(msg);
      |e| > 0 && e[|e| - 1] == SOH && Split(e[..|e| - 1]) == EncodedPieces(msg)
  {
    var e := Encoding(msg);
    EncodingIsJoin(msg);
    assert e[..|e| - 1] == Join(EncodedPieces(msg));
    PiecesWithoutSoh(msg);
    SplitJoin(EncodedPieces(msg));
  }

  /** Every written field reads back as its tag and value. */
  lemma WrittenFieldsParse(msg: FixMessage)
    requires WellFormedValues(msg.fields)
    ensures var w := WrittenFields(msg);
      forall i :: 0 <= i < |w| ==> ParseField(FieldPieces(w)[i]) == Ok(w[i])
  {
    var w := WrittenFields(msg);
    var body := BodyFields(msg);
    forall i | 0 <= i < |w|
      ensures ParseField(FieldPieces(w)[i]) == Ok(w[i])
    {
      if i == 0 {
        assert IsAscii(BEGIN_STRING);
        Utf8.DecodeAscii(BEGIN_STRING);
      } else if i == 1 {
        Decimal.DigitsAscii(BodyLength(body));
        Utf8.DecodeAscii(Decimal.Digits(BodyLength(body)));
      } else if i == 2 {
        Utf8.DecodeAscii(MsgTypeAsStr(msg.msgType));
      } else {
        assert w[i] == body[i - 2];
      }
      ParseFieldText(w[i].0, w[i].1);
    }
  }

  /** The second loop of `decode` counts every field after the first two with its SOH. */
  lemma {:induction false} CountFieldPieces(es: seq<(U32, Text)>)
    ensures CountBody(FieldPieces(es), true, true) == |FieldsText(es)|
  {
    if |es| > 0 {
      CountFieldPieces(es[1..]);
      assert FieldPieces(es)[1..] == FieldPieces(es[1..]);
      assert es == [es[0]] + es[1..];
      FieldsTextAppend([es[0]], es[1..]);
      assert FieldsText([es[0]]) == FieldsText([es[0]][..0]) + FieldText(es[0].0, es[0].1) + [SOH];
    }
  }

  /** `acc` with the entries of `es` inserted in order. */
  function Overlay(acc: map<U32, Text>, es: seq<(U32, Text)>): map<U32, Text>
    decreases |es|
  {
    if |es| == 0 then acc else Overlay(acc[es[0].0 := es[0].1], es[1..])
  }

  /** The first loop of `decode` inserts, in order, the entries its fields parse to. */
  lemma {:induction false} InsertParsed(fs: seq<seq<Byte>>, es: seq<(U32, Text)>, acc: map<U32, Text>)
    requires |fs| == |es|
    requires forall i :: 0 <= i < |fs| ==> ParseField(fs[i]) == Ok(es[i])
    ensures InsertFields(fs, acc) == Ok(Overlay(acc, es))
  {
    if |fs| > 0 {
      assert ParseField(fs[0]) == Ok(es[0]);
      assert forall i :: 0 <= i < |fs| - 1 ==> fs[1..][i] == fs[i + 1] && es[1..][i] == es[i + 1];
      InsertParsed(fs[1..], es[1..], acc[es[0].0 := es[0].1]);
    }
  }

  /** Inserting entries with pairwise distinct tags: each entry is in the result, every key of the
      result is an old key or an entry's tag, and an old key no entry carries keeps its value. */
  lemma {:induction false} OverlayFacts(acc: map<U32, Text>, es: seq<(U32, Text)>)
    requires forall i, j :: 0 <= i < j < |es| ==> es[i].0 != es[j].0
    ensures forall i :: 0 <= i < |es| ==> es[i].0 in Overlay(acc, es) && Overlay(acc, es)[es[i].0] == es[i].1
    ensures forall t :: t in Overlay(acc, es) ==> t in acc || exists i :: 0 <= i < |es| && es[i].0 == t
    ensures forall t :: t in acc && (forall i :: 0 <= i < |es| ==> es[i].0 != t) ==>
      t in Overlay(acc, es) && Overlay(acc, es)[t] == acc[t]
    decreases |es|
  {
    if |es| > 0 {
      var acc' := acc[es[0].0 := es[0].1];
      var rest := es[1..];
      OverlayFacts(acc', rest);
      assert forall i :: 1 <= i < |es| ==> es[i] == rest[i - 1];
      assert forall i :: 0 <= i < |rest| ==> rest[i].0 != es[0].0;
      var m := Overlay(acc, es);
      forall t | t in m
        ensures t in acc || exists i :: 0 <= i < |es| && es[i].0 == t
      {
        if t !in acc' {
          var k :| 0 <= k < |rest| && rest[k].0 == t;
          assert es[k + 1].0 == t;
        } else if t == es[0].0 {
          assert es[0].0 == t;
        }
      }
    }
  }

  /** Fields with pairwise distinct tags, each of which reads back as itself, are collected into the
      map holding exactly those entries. */
  lemma InsertDistinct(es: seq<(U32, Text)>)
    requires forall i :: 0 <= i < |es| ==> ParseField(FieldPieces(es)[i]) == Ok(es[i])
    requires forall i, j :: 0 <= i < j < |es| ==> es[i].0 != es[j].0
    ensures InsertFields(FieldPieces(es), map[]).Ok?
    ensures var m := InsertFields(FieldPieces(es), map[]).value;
      forall i :: 0 <= i < |es| ==> es[i].0 in m && m[es[i].0] == es[i].1
    ensures var m := InsertFields(FieldPieces(es), map[]).value;
      forall t :: t in m ==> exists i :: 0 <= i < |es| && es[i].0 == t
  {
    InsertParsed(FieldPieces(es), es, map[]);
    OverlayFacts(map[], es);
  }

  /** Removing 8, 9 and 35 from a map holding exactly the written fields leaves the message's fields. */
  lemma WrittenMapRest(msg: FixMessage, m: map<U32, Text>)
    requires TAG_BEGIN_STRING !in msg.fields && TAG_BODY_LENGTH !in msg.fields && TAG_MSG_TYPE !in msg.fields
    requires forall i :: 0 <= i < |WrittenFields(msg)| ==>
      WrittenFields(msg)[i].0 in m && m[WrittenFields(msg)[i].0] == WrittenFields(msg)[i].1
    requires forall t :: t in m ==> exists i :: 0 <= i < |WrittenFields(msg)| && WrittenFields(msg)[i].0 == t
    ensures m - {TAG_BEGIN_STRING, TAG_BODY_LENGTH, TAG_MSG_TYPE} == msg.fields
  {
    var w := WrittenFields(msg);
    var body := BodyFields(msg);
    BodyFieldsSorted(msg);
    WrittenFieldsLayout(msg);
    forall t | t in msg.fields
      ensures exists i :: 3 <= i < |w| && w[i].0 == t
    {
      BodyFieldsCover(msg, t);
      var i :| 1 <= i < |body| && body[i].0 == t;
      assert w[i + 2] == body[i];
    }
    MapRest(w, msg.fields, m);
  }

  /** A map holding exactly the entries `w` lists, where `w` lists 8, 9 and 35 first and then exactly
      the entries of `fields`, is `fields` once 8, 9 and 35 are removed. */
  lemma MapRest(w: seq<(U32, Text)>, fields: map<U32, Text>, m: map<U32, Text>)
    requires 3 <= |w| && w[0].0 == TAG_BEGIN_STRING && w[1].0 == TAG_BODY_LENGTH && w[2].0 == TAG_MSG_TYPE
    requires TAG_BEGIN_STRING !in fields && TAG_BODY_LENGTH !in fields && TAG_MSG_TYPE !in fields
    requires forall i :: 3 <= i < |w| ==> w[i].0 in fields && w[i].1 == fields[w[i].0]
    requires forall t :: t in fields ==> exists i :: 3 <= i < |w| && w[i].0 == t
    requires forall i :: 0 <= i < |w| ==> w[i].0 in m && m[w[i].0] == w[i].1
    requires forall t :: t in m ==> exists i :: 0 <= i < |w| && w[i].0 == t
    ensures m - {TAG_BEGIN_STRING, TAG_BODY_LENGTH, TAG_MSG_TYPE} == fields
  {
    var rest := m - {TAG_BEGIN_STRING, TAG_BODY_LENGTH, TAG_MSG_TYPE};
    forall t | t in fields
      ensures t in rest && rest[t] == fields[t]
    {
      var i :| 3 <= i < |w| && w[i].0 == t;
    }
    forall t | t in rest
      ensures t in fields
    {
      var i :| 0 <= i < |w| && w[i].0 == t;
    }
  }

  /** The map the first loop of `decode` builds from an encoding: 8, 9 and 35 as written, and
      the message's own fields. */
  lemma DecodedMap(msg: FixMessage)
    requires TAG_BEGIN_STRING !in msg.fields && TAG_BODY_LENGTH !in msg.fields && TAG_MSG_TYPE !in msg.fields
    requires WellFormedValues(msg.fields)
    ensures InsertFields(FieldPieces(WrittenFields(msg)), map[]).Ok?
    ensures var m := InsertFields(FieldPieces(WrittenFields(msg)), map[]).value;
      && TAG_BEGIN_STRING in m && m[TAG_BEGIN_STRING] == BEGIN_STRING
      && TAG_BODY_LENGTH in m && m[TAG_BODY_LENGTH] == Decimal.Digits(BodyLength(BodyFields(msg)))
      && TAG_MSG_TYPE in m && m[TAG_MSG_TYPE] == MsgTypeAsStr(msg.msgType)
      && m - {TAG_BEGIN_STRING, TAG_BODY_LENGTH, TAG_MSG_TYPE} == msg.fields
  {
    var w := WrittenFields(msg);
    WrittenFieldsParse(msg);
    WrittenTagsDistinct(msg);
    InsertDistinct(w);
    var m := InsertFields(FieldPieces(w), map[]).value;
    assert w[0].0 == TAG_BEGIN_STRING && w[1].0 == TAG_BODY_LENGTH && w[2].0 == TAG_MSG_TYPE;
    WrittenMapRest(msg, m);
  }

  /** An encoding passes the SOH, trailer and checksum checks, leaving the written fields. */
  lemma EncodingPassesChecksum(msg: FixMessage)
    requires WellFormedValues(msg.fields)
    ensures Decoding(Encoding(msg)) == DecodeBody(FieldPieces(WrittenFields(msg)))
  {
    EncodingParts(msg);
    ChecksumTrailer(WrappingSum(Prelude(msg)));
    WrittenSumIsChecksum(msg);
  }

  /** An encoding ends in SOH; its last field is the checksum field, the fields before it are the written
      fields, and the bytes before the checksum field are the prelude. */
  lemma EncodingParts(msg: FixMessage)
    requires WellFormedValues(msg.fields)
    ensures var e := Encoding(msg); var t := CHECKSUM_PREFIX + Decimal.Pad3(WrappingSum(Prelude(msg)));
      |e| > 0 && e[|e| - 1] == SOH && TrailerField(e) == t && BodyPieces(e) == FieldPieces(WrittenFields(msg))
      && e[..|e| - (|t| + 1)] == Prelude(msg)
  {
    var e := Encoding(msg);
    var ps := EncodedPieces(msg);
    EncodingSplits(msg);
    var trailer := ps[|ps| - 1];
    assert TrailerField(e) == trailer && BodyPieces(e) == ps[..|ps| - 1];
    assert e[..|e| - (|trailer| + 1)] == Prelude(msg);
    assert ps[..|ps| - 1] == FieldPieces(WrittenFields(msg));
  }

  /** The checksum field of a checksum is valid UTF-8, starts with `10=` and parses back to it. */
  lemma ChecksumTrailer(c: nat)
    requires c <= U8_MAX
    ensures var t := CHECKSUM_PREFIX + Decimal.Pad3(c);
      Utf8.Valid(t) && StartsWith(t, CHECKSUM_PREFIX) && Decimal.ParseUnsigned(t[3..], U8_MAX) == Some(c)
  {
    var t := CHECKSUM_PREFIX + Decimal.Pad3(c);
    assert IsAscii(t);
    Utf8.DecodeAscii(t);
    assert t[3..] == Decimal.Pad3(c);
    Decimal.ParsePad3(c);
  }

  lemma WrittenSumIsChecksum(msg: FixMessage)
    ensures WrappingSum(Prelude(msg)) == Checksum(Prelude(msg))
  {
    WrappingSumIsChecksum(Prelude(msg));
  }

  /** The second loop of `decode` over the written fields counts exactly the body length `encode` wrote. */
  lemma WrittenBodyCount(msg: FixMessage)
    ensures CountBody(FieldPieces(WrittenFields(msg)), false, false) == BodyLength(BodyFields(msg))
  {
    var fs := FieldPieces(WrittenFields(msg));
    assert fs[1..][1..] == FieldPieces(BodyFields(msg));
    CountFieldPieces(BodyFields(msg));
    BodyLengthIsByteCount(BodyFields(msg));
    DigitsOfSmall();
  }

  /** `decode(encode(msg))` succeeds whenever the message's own fields leave out 8, 9 and 35, its values
      hold no SOH and are valid UTF-8, and the body length fits a usize. It returns BeginString
      FIX.4.4, the body length `encode` computed, the message type as written (an unknown type comes
      back as code "?") and exactly the message's fields. */
  lemma DecodeEncode(msg: FixMessage)
    requires TAG_BEGIN_STRING !in msg.fields && TAG_BODY_LENGTH !in msg.fields && TAG_MSG_TYPE !in msg.fields
    requires WellFormedValues(msg.fields)
    requires BodyLength(BodyFields(msg)) <= USIZE_MAX
    ensures Decoding(Encoding(msg)) ==
      Ok(FixMessage(BEGIN_STRING, BodyLength(BodyFields(msg)), ParseMsgType(MsgTypeAsStr(msg.msgType)), msg.fields))
  {
    EncodingPassesChecksum(msg);
    DecodedMap(msg);
    WrittenBodyCount(msg);
    Decimal.ParseDigits(BodyLength(BodyFields(msg)), USIZE_MAX);
  }

  /** For a known message type, with the BeginString and body length `encode` writes, the round
      trip returns the message itself. */
  lemma DecodeEncodeIdentity(msg: FixMessage)
    requires !msg.msgType.Unknown?
    requires msg.beginString == BEGIN_STRING && msg.bodyLength == BodyLength(BodyFields(msg))
    requires TAG_BEGIN_STRING !in msg.fields && TAG_BODY_LENGTH !in msg.fields && TAG_MSG_TYPE !in msg.fields
    requires WellFormedValues(msg.fields)
    requires BodyLength(BodyFields(msg)) <= USIZE_MAX
    ensures Decoding(Encoding(msg)) == Ok(msg)
  {
    DecodeEncode(msg);
  }

  /** Re-encoding what `decode` returns for an encoding gives the same bytes, for every message type. */
  lemma EncodeDecodeEncode(msg: FixMessage)
    requires TAG_BEGIN_STRING !in msg.fields && TAG_BODY_LENGTH !in msg.fields && TAG_MSG_TYPE !in msg.fields
    requires WellFormedValues(msg.fields)
    requires BodyLength(BodyFields(msg)) <= USIZE_MAX
    ensures Decoding(Encoding(msg)).Ok?
    ensures Encoding(Decoding(Encoding(msg)).value) == Encoding(msg)
  {
    DecodeEncode(msg);
    var d := Decoding(Encoding(msg)).value;
    assert MsgTypeAsStr(d.msgType) == MsgTypeAsStr(msg.msgType);
    assert BodyFields(d) == BodyFields(msg);
  }
}
