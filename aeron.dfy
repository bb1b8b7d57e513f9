/**
 * The index frames of `AeronMessageStore` in src/storage.rs. An outbound message with a sequence
 * number is offered twice: its payload on the data stream, and on the index stream a frame made of
 * the sequence number as four big-endian bytes followed by the payload. `load_outbound_range` reads
 * index frames back: frames shorter than four bytes are skipped, the rest are split into sequence
 * number and payload, kept when in range, and sorted by sequence number. The publications and the
 * subscription are outside this model; what was offered is kept as two logs, and what a poll
 * returns is a parameter.
 */
module AeronIndex {
  import opened Wrappers
  import opened Bytes
  import opened Sorting
  import opened JournalNames
  import opened Journal

  /** `u32::to_be_bytes`. */
  function BigEndian32(n: U32): (b: seq<Byte>)
    ensures |b| == 4
  {
    var n1 := n / 0x100;
    var n2 := n1 / 0x100;
    [n2 / 0x100, n2 % 0x100, n1 % 0x100, n % 0x100]
  }

  /** `u32::from_be_bytes`. */
  function FromBigEndian32(b: seq<Byte>): U32
    requires |b| == 4
  {
    ((b[0] as int * 0x100 + b[1]) * 0x100 + b[2]) * 0x100 + b[3]
  }

  /** One byte in the lowest place of a number. */
  lemma ByteStep(q: nat, r: Byte)
    ensures (q * 0x100 + r) / 0x100 == q && (q * 0x100 + r) % 0x100 == r
  {
  }

  /** Reading four big-endian bytes back gives the number, and writing a read number gives the bytes. */
  lemma BigEndian32RoundTrip(n: U32, b: seq<Byte>)
    requires |b| == 4
    ensures FromBigEndian32(BigEndian32(n)) == n
    ensures BigEndian32(FromBigEndian32(b)) == b
  {
    var n1 := n / 0x100;
    var n2 := n1 / 0x100;
    assert n2 == (n2 / 0x100) * 0x100 + n2 % 0x100;
    assert n1 == n2 * 0x100 + n1 % 0x100;
    assert n == n1 * 0x100 + n % 0x100;
    var u := b[0] as int * 0x100 + b[1];
    var w := u * 0x100 + b[2];
    ByteStep(w, b[3]);
    ByteStep(u, b[2]);
    ByteStep(b[0], b[1]);
  }

  /** `encode_index_frame`. */
  function EncodeIndexFrame(seqNo: U32, payload: seq<Byte>): (f: seq<Byte>)
    ensures |f| == 4 + |payload| && f[4..] == payload
  {
    BigEndian32(seqNo) + payload
  }

  /** The frame parsing of `load_outbound_range`: nothing for a frame shorter than four bytes. */
  function DecodeIndexFrame(f: seq<Byte>): (r: Option<(U32, seq<Byte>)>)
    ensures r.None? <==> |f| < 4
  {
    if |f| < 4 then None else Some((FromBigEndian32(f[..4]), f[4..]))
  }

  /** Frames round-trip in both directions. */
  lemma IndexFrameRoundTrip(seqNo: U32, payload: seq<Byte>, f: seq<Byte>)
    ensures DecodeIndexFrame(EncodeIndexFrame(seqNo, payload)) == Some((seqNo, payload))
    ensures |f| >= 4 ==> EncodeIndexFrame(DecodeIndexFrame(f).value.0, DecodeIndexFrame(f).value.1) == f
  {
    var e := EncodeIndexFrame(seqNo, payload);
    assert e[..4] == BigEndian32(seqNo);
    BigEndian32RoundTrip(seqNo, BigEndian32(seqNo));
    if |f| >= 4 {
      BigEndian32RoundTrip(seqNo, f[..4]);
      assert f == f[..4] + f[4..];
    }
  }

  /** The frames that parse and are in `[begin, end]`, as (sequence number, payload), in arrival order. */
  function FramesInRange(frags: seq<seq<Byte>>, begin: U32, end: U32): (r: seq<(U32, seq<Byte>)>)
    ensures forall i :: 0 <= i < |r| ==> begin <= r[i].0 <= end
  {
    if frags == [] then []
    else
      var d := DecodeIndexFrame(frags[|frags| - 1]);
      FramesInRange(frags[..|frags| - 1], begin, end) + (if d.Some? && begin <= d.value.0 <= end then [d.value] else [])
  }

  /** The result of `load_outbound_range` for the polled fragments `frags`. */
  function PayloadsInRange(frags: seq<seq<Byte>>, begin: U32, end: U32): seq<seq<Byte>>
  {
    Values(SortByKey(FramesInRange(frags, begin, end)))
  }

  /** The index frames offered for `sent`, in order. */
  function Frames(sent: seq<(U32, seq<Byte>)>): (r: seq<seq<Byte>>)
    ensures |r| == |sent|
  {
    if sent == [] then [] else Frames(sent[..|sent| - 1]) + [EncodeIndexFrame(sent[|sent| - 1].0, sent[|sent| - 1].1)]
  }

  /** Parsing the frames offered and keeping those in range gives back what was sent in range. */
  lemma {:induction false} FramesInRangeOfSent(sent: seq<(U32, seq<Byte>)>, begin: U32, end: U32)
    ensures FramesInRange(Frames(sent), begin, end) == InRange(sent, begin, end)
  {
    if sent != [] {
      var init := sent[..|sent| - 1];
      var last := sent[|sent| - 1];
      FramesInRangeOfSent(init, begin, end);
      IndexFrameRoundTrip(last.0, last.1, []);
      var frames := Frames(sent);
      assert frames[..|frames| - 1] == Frames(init);
    }
  }

  /** What the index stream carried comes back: the payloads sent with a sequence number in range,
      ordered by sequence number, those with equal numbers in the order they were sent. */
  lemma LoadSentFrames(sent: seq<(U32, seq<Byte>)>, begin: U32, end: U32)
    ensures PayloadsInRange(Frames(sent), begin, end) == Values(SortByKey(InRange(sent, begin, end)))
    ensures forall k: U32 :: WithKey(SortByKey(InRange(sent, begin, end)), k) == WithKey(InRange(sent, begin, end), k)
  {
    FramesInRangeOfSent(sent, begin, end);
    forall k: U32 {
      SortByKeyStable(InRange(sent, begin, end), k);
    }
  }

  /** The store: what has been offered on the data and the index publication. */
  class AeronMessageStore {
    var dataLog: seq<seq<Byte>>
    var indexLog: seq<seq<Byte>>
    const codec: RecordCodec

    constructor(codec: RecordCodec)
      ensures dataLog == [] && indexLog == [] && this.codec == codec
    {
      dataLog := [];
      indexLog := [];
      this.codec := codec;
    }

    /** `append_bytes`: only an outbound message with a sequence number is published. */
    method AppendBytes(session: SessionKey, direction: Direction, seqNo: Option<U32>, tsMillis: U64, payload: seq<Byte>)
      modifies this
      ensures direction == Outbound && seqNo.Some? ==>
        dataLog == old(dataLog) + [payload] && indexLog == old(indexLog) + [EncodeIndexFrame(seqNo.value, payload)]
      ensures !(direction == Outbound && seqNo.Some?) ==> dataLog == old(dataLog) && indexLog == old(indexLog)
    {
      if direction == Outbound {
        if seqNo.Some? {
          dataLog := dataLog + [payload];
          var idx := EncodeIndexFrame(seqNo.value, payload);
          indexLog := indexLog + [idx];
        }
      }
    }

    /** `append`: the record's payload is base64-decoded and appended; one that does not decode is
        dropped without error. */
    method Append(record: StoredMessageRecord)
      modifies this
      ensures codec.decodeBase64(record.payloadB64).None? ==> dataLog == old(dataLog) && indexLog == old(indexLog)
      ensures codec.decodeBase64(record.payloadB64).Some? && Indexed(record) ==>
        var payload := codec.decodeBase64(record.payloadB64).value;
        dataLog == old(dataLog) + [payload] && indexLog == old(indexLog) + [EncodeIndexFrame(record.seqNo.value, payload)]
      ensures !Indexed(record) ==> dataLog == old(dataLog) && indexLog == old(indexLog)
    {
      var bytes := codec.decodeBase64(record.payloadB64);
      if bytes.Some? {
        AppendBytes(record.session, record.direction, record.seqNo, record.tsMillis, bytes.value);
      }
    }

    /** `load_outbound_range` over the fragments `frags` a poll of the index subscription returned. */
    static method LoadOutboundRange(frags: seq<seq<Byte>>, begin: U32, end: U32) returns (r: seq<seq<Byte>>)
      ensures r == PayloadsInRange(frags, begin, end)
    {
      var out: seq<(U32, seq<Byte>)> := [];
      var i := 0;
      while i < |frags|
        invariant i <= |frags|
        invariant out == FramesInRange(frags[..i], begin, end)
      {
        var f := frags[i];
        assert frags[..i + 1][..i] == frags[..i];
        if |f| >= 4 {
          var seqNo := FromBigEndian32(f[..4]);
          if seqNo >= begin && seqNo <= end {
            out := out + [(seqNo, f[4..])];
          }
        }
        i := i + 1;
      }
      assert frags[..i] == frags;
      out := SortByKey(out);
      r := Values(out);
    }

    /** `last_outbound_seq`: this store does not track it. */
    static method LastOutboundSeq() returns (r: Option<U32>)
      ensures r.None?
    {
      r := None;
    }
  }
}
