/**
 * `encode` and `encode_to_writer` of src/protocol.rs. The byte layout is given once, as the function
 * `Encoding`; the methods write it field by field into an accumulating writer, as the source does.
 */
module Encoder {
  import opened Wrappers
  import opened Bytes
  import opened Protocol
  import Decimal

  const BEGIN_FIELD: seq<Byte> := [0x38, EQUALS] + BEGIN_STRING    // "8=FIX.4.4"
  const BODY_LENGTH_PREFIX: seq<Byte> := [0x39, EQUALS]             // "9="
  const CHECKSUM_PREFIX: seq<Byte> := [0x31, 0x30, EQUALS]          // "10="

  /** "tag=value", without its delimiter. */
  function FieldText(tag: nat, value: Text): seq<Byte>
  {
    Decimal.Digits(tag) + [EQUALS] + value
  }

  /** The bytes of a run of fields, each followed by SOH. */
  function FieldsText(fields: seq<(U32, Text)>): seq<Byte>
  {
    if |fields| == 0 then []
    else FieldsText(fields[..|fields| - 1]) + FieldText(fields[|fields| - 1].0, fields[|fields| - 1].1) + [SOH]
  }

  /** The body length as the source computes it: the sum over the fields of
      `tag.to_string().len() + 1 + value.len() + 1`. */
  function BodyLength(fields: seq<(U32, Text)>): nat
  {
    if |fields| == 0 then 0
    else BodyLength(fields[..|fields| - 1]) + |Decimal.Digits(fields[|fields| - 1].0)| + 1 + |fields[|fields| - 1].1| + 1
  }

  /** The computed body length is exactly the number of bytes the body fields occupy. */
  lemma {:induction false} BodyLengthIsByteCount(fields: seq<(U32, Text)>)
    ensures BodyLength(fields) == |FieldsText(fields)|
  {
    if |fields| > 0 {
      BodyLengthIsByteCount(fields[..|fields| - 1]);
    }
  }

  lemma {:induction false} LeastOf(keys: set<U32>) returns (least: U32)
    requires keys != {}
    ensures least in keys && forall k :: k in keys ==> least <= k
  {
    var x :| x in keys;
    if keys == {x} {
      least := x;
    } else {
      var m := LeastOf(keys - {x});
      least := if x < m then x else m;
      forall k | k in keys
        ensures least <= k
      {
        if k != x {
          assert k in keys - {x};
        }
      }
    }
  }

  lemma LeastExists(keys: set<U32>)
    requires keys != {}
    ensures exists m :: m in keys && forall k :: k in keys ==> m <= k
  {
    var m := LeastOf(keys);
  }

  /** The least tag of a non-empty set. */
  function Least(keys: set<U32>): (m: U32)
    requires keys != {}
    ensures m in keys && forall k :: k in keys ==> m <= k
  {
    LeastExists(keys);
    var m :| m in keys && forall k :: k in keys ==> m <= k;
    m
  }

  predicate Ascending(s: seq<U32>)
  {
    forall i, j :: 0 <= i < j < |s| ==> s[i] < s[j]
  }

  /** A tag below every tag of an ascending sequence keeps it ascending when put in front. */
  lemma AscendingCons(m: U32, s: seq<U32>)
    requires Ascending(s) && forall i :: 0 <= i < |s| ==> m < s[i]
    ensures Ascending([m] + s)
  {
    var r := [m] + s;
    forall i, j | 0 <= i < j < |r|
      ensures r[i] < r[j]
    {
      assert r[j] == s[j - 1];
      if i > 0 {
        assert r[i] == s[i - 1];
      }
    }
  }

  /** The tags of a map in ascending order, as `sort_by_key` on the collected entries leaves them. */
  function SortedTags(keys: set<U32>): (r: seq<U32>)
    ensures forall i :: 0 <= i < |r| ==> r[i] in keys
    ensures forall k :: k in keys ==> k in r
    ensures Ascending(r)
    decreases |keys|
  {
    if keys == {} then []
    else
      var m := Least(keys);
      var rest := SortedTags(keys - {m});
      assert forall k :: k in keys && k != m ==> k in keys - {m};
      assert forall i :: 0 <= i < |rest| ==> m < rest[i];
      AscendingCons(m, rest);
      [m] + rest
  }

  /** The entries of `fields` for the given tags, in that order. */
  function Entries(fields: map<U32, Text>, tags: seq<U32>): (r: seq<(U32, Text)>)
    requires forall i :: 0 <= i < |tags| ==> tags[i] in fields
    ensures |r| == |tags|
    ensures forall i :: 0 <= i < |r| ==> r[i] == (tags[i], fields[tags[i]])
  {
    seq(|tags|, i requires 0 <= i < |tags| => (tags[i], fields[tags[i]]))
  }

  /** The fields the source writes after tag 9: MsgType first, then the fields of the map in strictly
      ascending tag order. */
  function BodyFields(msg: FixMessage): (r: seq<(U32, Text)>)
    ensures 0 < |r| && r[0] == (TAG_MSG_TYPE, MsgTypeAsStr(msg.msgType))
  {
    var tags := SortedTags(msg.fields.Keys);
    [(TAG_MSG_TYPE, MsgTypeAsStr(msg.msgType))] + Entries(msg.fields, tags)
  }

  /** After MsgType come entries of the map, in strictly ascending tag order. */
  lemma BodyFieldsSorted(msg: FixMessage)
    ensures var r := BodyFields(msg);
      && (forall i :: 1 <= i < |r| ==> r[i].0 in msg.fields && r[i].1 == msg.fields[r[i].0])
      && (forall i, j :: 1 <= i < j < |r| ==> r[i].0 < r[j].0)
  {
    var tags := SortedTags(msg.fields.Keys);
    assert forall i :: 1 <= i < |BodyFields(msg)| ==> BodyFields(msg)[i] == Entries(msg.fields, tags)[i - 1];
  }

  /** Every field of the map is written: each tag appears after MsgType. */
  lemma BodyFieldsCover(msg: FixMessage, k: U32)
    requires k in msg.fields
    ensures exists i :: 1 <= i < |BodyFields(msg)| && BodyFields(msg)[i].0 == k
  {
    var tags := SortedTags(msg.fields.Keys);
    var i := IndexIn(tags, k);
    assert BodyFields(msg)[i + 1].0 == k;
  }

  function IndexIn(s: seq<U32>, k: U32): (i: nat)
    requires k in s
    ensures i < |s| && s[i] == k
  {
    if s[0] == k then 0 else 1 + IndexIn(s[1..], k)
  }

  /** "8=FIX.4.4␁9=<len>␁". */
  function Header(bodyLength: nat): seq<Byte>
  {
    BEGIN_FIELD + [SOH] + BODY_LENGTH_PREFIX + Decimal.Digits(bodyLength) + [SOH]
  }

  /** The sum the source folds with `u8::wrapping_add`. */
  function WrappingSum(s: seq<Byte>): (r: nat)
    ensures r <= U8_MAX
  {
    if |s| == 0 then 0 else (WrappingSum(s[..|s| - 1]) + s[|s| - 1]) % 256
  }

  /** The wrapping fold computes `compute_checksum`. */
  lemma {:induction false} WrappingSumIsChecksum(s: seq<Byte>)
    ensures WrappingSum(s) == Checksum(s)
  {
    if |s| > 0 {
      WrappingSumIsChecksum(s[..|s| - 1]);
    }
  }

  /** "10=ddd␁". */
  function Trailer(checksum: nat): seq<Byte>
    requires checksum <= U8_MAX
  {
    CHECKSUM_PREFIX + Decimal.Pad3(checksum) + [SOH]
  }

  /** Everything the source writes before the trailer. */
  function Prelude(msg: FixMessage): seq<Byte>
  {
    var body := BodyFields(msg);
    Header(BodyLength(body)) + FieldsText(body)
  }

  /** The bytes `encode` produces. */
  function Encoding(msg: FixMessage): seq<Byte>
  {
    var prelude := Prelude(msg);
    prelude + Trailer(WrappingSum(prelude))
  }

  /** The value of tag 9 counts exactly the bytes between the SOH that ends tag 9 and the "10=" of the
      trailer, and the trailer is "10=" followed by three digits and SOH. */
  lemma EncodingLayout(msg: FixMessage)
    ensures var e := Encoding(msg);
            var len := BodyLength(BodyFields(msg));
            var h := |Header(len)|;
            && |e| == h + len + 7
            && e[..h] == Header(len)
            && e[h..h + len] == FieldsText(BodyFields(msg))
            && e[h + len..] == CHECKSUM_PREFIX + Decimal.Pad3(Checksum(e[..h + len])) + [SOH]
  {
    var e := Encoding(msg);
    var body := BodyFields(msg);
    var len := BodyLength(body);
    BodyLengthIsByteCount(body);
    WrappingSumIsChecksum(Prelude(msg));
    assert e[..|Header(len)| + len] == Prelude(msg);
  }

  /** `encode` ignores the message's own BeginString and BodyLength: it always writes FIX.4.4 and the
      length it computes. */
  lemma EncodingIgnoresHeaderFields(msg: FixMessage, beginString: Text, bodyLength: nat)
    ensures Encoding(msg.(beginString := beginString, bodyLength := bodyLength)) == Encoding(msg)
  {
    assert BodyFields(msg.(beginString := beginString, bodyLength := bodyLength)) == BodyFields(msg);
  }

  /** An output sink that accumulates what is written to it (a `Vec<u8>` behind `std::io::Write`). */
  class Writer {
    var buffer: seq<Byte>

    constructor ()
      ensures buffer == []
    {
      buffer := [];
    }

    method WriteAll(bytes: seq<Byte>)
      modifies this
      ensures buffer == old(buffer) + bytes
    {
      buffer := buffer + bytes;
    }
  }

  /** Writes the header and then each body field, as both the output pass and the checksum pass do. */
  method WritePrelude(w: Writer, bodyLength: nat, bodyFields: seq<(U32, Text)>)
    modifies w
    ensures w.buffer == old(w.buffer) + Header(bodyLength) + FieldsText(bodyFields)
  {
    w.WriteAll(BEGIN_FIELD + [SOH]);
    w.WriteAll(BODY_LENGTH_PREFIX + Decimal.Digits(bodyLength) + [SOH]);
    for i := 0 to |bodyFields|
      invariant w.buffer == old(w.buffer) + Header(bodyLength) + FieldsText(bodyFields[..i])
    {
      assert bodyFields[..i + 1][..i] == bodyFields[..i];
      w.WriteAll(FieldText(bodyFields[i].0, bodyFields[i].1) + [SOH]);
    }
    assert bodyFields[..|bodyFields|] == bodyFields;
  }

  /** The `body_fields` vector: MsgType, then the collected and sorted map entries. */
  method CollectBodyFields(msg: FixMessage) returns (bodyFields: seq<(U32, Text)>)
    ensures bodyFields == BodyFields(msg)
  {
    bodyFields := [(TAG_MSG_TYPE, MsgTypeAsStr(msg.msgType))];
    var tags := SortedTags(msg.fields.Keys);
    for i := 0 to |tags|
      invariant |bodyFields| == i + 1
      invariant bodyFields[0] == (TAG_MSG_TYPE, MsgTypeAsStr(msg.msgType))
      invariant forall j :: 0 <= j < i ==> bodyFields[j + 1] == (tags[j], msg.fields[tags[j]])
    {
      bodyFields := bodyFields + [(tags[i], msg.fields[tags[i]])];
    }
  }

  /** The encoding spelled out from the body fields. */
  lemma EncodingOfFields(msg: FixMessage, bodyFields: seq<(U32, Text)>)
    requires bodyFields == BodyFields(msg)
    ensures var prelude := Header(BodyLength(bodyFields)) + FieldsText(bodyFields);
      Encoding(msg) == prelude + Trailer(WrappingSum(prelude))
  {
  }

  /** The checksum pass: the header and body fields written again into a scratch buffer and folded
      with `u8::wrapping_add`. */
  method PreludeChecksum(bodyLength: nat, bodyFields: seq<(U32, Text)>) returns (checksum: nat)
    ensures checksum == WrappingSum(Header(bodyLength) + FieldsText(bodyFields))
  {
    var temp := new Writer();
    WritePrelude(temp, bodyLength, bodyFields);
    assert temp.buffer == Header(bodyLength) + FieldsText(bodyFields);
    checksum := WrappingSum(temp.buffer);
  }

  /** `encode_to_writer`: appends the encoding of `msg` to what the writer already holds. */
  method EncodeToWriter(msg: FixMessage, writer: Writer)
    modifies writer
    ensures writer.buffer == old(writer.buffer) + Encoding(msg)
  {
    ghost var start := writer.buffer;
    var bodyFields := CollectBodyFields(msg);
    var bodyLength := BodyLength(bodyFields);
    WritePrelude(writer, bodyLength, bodyFields);
    var checksum := PreludeChecksum(bodyLength, bodyFields);
    writer.WriteAll(Trailer(checksum));
    EncodingOfFields(msg, bodyFields);
    AppendThree(start, Header(bodyLength), FieldsText(bodyFields), Trailer(checksum));
  }

  /** Appending is associative. */
  lemma AppendThree(s: seq<Byte>, a: seq<Byte>, b: seq<Byte>, c: seq<Byte>)
    ensures s + a + b + c == s + (a + b + c)
  {
  }

  /** `encode`: the encoding of `msg` in a fresh buffer. */
  method Encode(msg: FixMessage) returns (bytes: seq<Byte>)
    ensures bytes == Encoding(msg)
  {
    var w := new Writer();
    EncodeToWriter(msg, w);
    bytes := w.buffer;
  }
}
