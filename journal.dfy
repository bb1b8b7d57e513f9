/**
 * The file journal of src/storage.rs (`FileMessageStore`), with the file system held in memory as a
 * map from file name to contents. `flush_batch` drains the worker's queue: for every record it appends
 * the record's JSON line to `<stem>.jsonl` and, for an outbound record with a sequence number, the line
 * `"<seq> <offset>"` to `<stem>.idx`, where the offset is the data file's length before the append; it
 * then syncs according to the durability policy. `load_outbound_range` reads the index back, keeps the
 * entries in range, sorts them by sequence number and reads each record line at its offset;
 * `last_outbound_seq` is the largest sequence number in the index.
 *
 * serde_json and base64 are libraries outside this model: a `RecordCodec` carries them as functions.
 */
module Journal {
  import opened Wrappers
  import opened Bytes
  import Utf8
  import opened TextLines
  import opened JournalNames
  import opened Sorting

  datatype Direction = Inbound | Outbound

  datatype StoredMessageRecord = StoredMessageRecord(
    session: SessionKey,
    direction: Direction,
    seqNo: Option<U32>,
    tsMillis: U64,
    payloadB64: string)

  datatype DurabilityPolicy = Always | IntervalMs(ms: U64) | Disabled

  /** `serde_json::to_string`/`from_str` of a record and the standard base64 engine. */
  datatype RecordCodec = RecordCodec(
    toJson: StoredMessageRecord -> string,
    fromJson: string -> Option<StoredMessageRecord>,
    encodeBase64: seq<Byte> -> string,
    decodeBase64: string -> Option<seq<Byte>>)

  /** The `std::io::ErrorKind`s the reads can fail with. */
  datatype IoError = NotFound | InvalidData | InvalidInput

  /** Which records get an index line. */
  predicate Indexed(rec: StoredMessageRecord)
  {
    rec.direction == Outbound && rec.seqNo.Some?
  }

  /** The contents of a file, empty when it does not exist (`metadata(..).len()` falling back to 0). */
  function FileOr(files: map<string, seq<Byte>>, path: string): (r: seq<Byte>)
    ensures path !in files ==> r == []
    ensures path in files ==> r == files[path]
  {
    if path in files then files[path] else []
  }

  /** The bytes `flush_batch` appends to the data file for a record: its JSON and a newline. */
  function RecordLine(codec: RecordCodec, rec: StoredMessageRecord): seq<Byte>
  {
    Utf8.Encode(codec.toJson(rec) + "\n")
  }

  /** `format!("{} {}", seq, offset)`, without the newline that follows it. */
  function IndexLine(seqNo: U32, offset: nat): (l: string)
    ensures PlainLine(l)
  {
    DecimalText(seqNo) + " " + DecimalText(offset)
  }

  const NANOS_PER_MILLI: nat := 1_000_000

  /** `Instant::elapsed`, in nanoseconds; it is zero when the clock reads earlier than `since`. */
  function Elapsed(since: nat, now: nat): (e: nat)
    ensures now >= since ==> since + e == now
    ensures now < since ==> e == 0
  {
    if now >= since then now - since else 0
  }

  datatype SyncStep = SyncStep(sync: bool, lastSync: nat)

  /** The durability decision after a record is written: `Always` syncs; `IntervalMs(ms)` syncs when at
      least `ms` milliseconds have passed since the last sync and then restarts the interval;
      `Disabled` never syncs. */
  function SyncDecision(policy: DurabilityPolicy, lastSync: nat, now: nat): (d: SyncStep)
    ensures policy.Always? ==> d == SyncStep(true, lastSync)
    ensures policy.Disabled? ==> d == SyncStep(false, lastSync)
    ensures policy.IntervalMs? ==>
      (d.sync <==> Elapsed(lastSync, now) >= policy.ms * NANOS_PER_MILLI)
      && d.lastSync == (if d.sync then now else lastSync)
  {
    match policy
    case Always => SyncStep(true, lastSync)
    case IntervalMs(ms) =>
      if Elapsed(lastSync, now) >= ms * NANOS_PER_MILLI then SyncStep(true, now) else SyncStep(false, lastSync)
    case Disabled => SyncStep(false, lastSync)
  }

  /** The files, the time of the last sync, and the syncs made so far (file and time), in order. */
  datatype JournalState = JournalState(files: map<string, seq<Byte>>, lastSync: nat, syncs: seq<(string, nat)>)

  /** One turn of the `flush_batch` loop, the clock reading `now`. */
  function FlushOne(st: JournalState, rec: StoredMessageRecord, now: nat, policy: DurabilityPolicy,
                    codec: RecordCodec): JournalState
  {
    var data := DataPath(rec.session);
    var index := IndexPath(rec.session);
    var offset := |FileOr(st.files, data)|;
    var files := st.files[data := FileOr(st.files, data) + RecordLine(codec, rec)];
    var files' := if Indexed(rec) then files[index := FileOr(files, index) + Utf8.Encode(IndexLine(rec.seqNo.value, offset) + "\n")]
                  else files;
    var step := SyncDecision(policy, st.lastSync, now);
    JournalState(files', step.lastSync, if step.sync then st.syncs + [(data, now)] else st.syncs)
  }

  /** One record changes its data file, by its line, and its index file, by an index line holding the
      data file's previous length exactly when it is an outbound record with a sequence number; no
      other file changes. */
  lemma FlushOneFiles(st: JournalState, rec: StoredMessageRecord, now: nat, policy: DurabilityPolicy, codec: RecordCodec)
    ensures var r := FlushOne(st, rec, now, policy, codec); var data := DataPath(rec.session);
      data in r.files && r.files[data] == FileOr(st.files, data) + RecordLine(codec, rec)
    ensures var r := FlushOne(st, rec, now, policy, codec); var index := IndexPath(rec.session);
      if Indexed(rec) then
        index in r.files && r.files[index] == FileOr(st.files, index) +
          Utf8.Encode(IndexLine(rec.seqNo.value, |FileOr(st.files, DataPath(rec.session))|) + "\n")
      else (index in r.files <==> index in st.files) && FileOr(r.files, index) == FileOr(st.files, index)
    ensures var r := FlushOne(st, rec, now, policy, codec);
      forall p :: p != DataPath(rec.session) && p != IndexPath(rec.session) ==>
        (p in r.files <==> p in st.files) && FileOr(r.files, p) == FileOr(st.files, p)
  {
    PathsOfStems(rec.session, rec.session);
  }

  /** `flush_batch` over the whole queue, the `i`-th record flushed at clock reading `clock[i]`. */
  function FlushAll(st: JournalState, recs: seq<StoredMessageRecord>, clock: seq<nat>, policy: DurabilityPolicy,
                    codec: RecordCodec): JournalState
    requires |clock| == |recs|
    decreases |recs|
  {
    if recs == [] then st
    else FlushAll(FlushOne(st, recs[0], clock[0], policy, codec), recs[1..], clock[1..], policy, codec)
  }

  lemma FlushAllStep(st: JournalState, recs: seq<StoredMessageRecord>, clock: seq<nat>, policy: DurabilityPolicy,
                     codec: RecordCodec)
    requires |clock| == |recs| && recs != []
    ensures FlushAll(st, recs, clock, policy, codec) ==
      FlushAll(FlushOne(st, recs[0], clock[0], policy, codec), recs[1..], clock[1..], policy, codec)
  {
  }

  /** Flushing two batches one after the other is flushing their concatenation: the worker's
      successive `flush_batch` calls compose into one flush of everything queued. */
  lemma {:induction false} FlushAllConcat(st: JournalState, a: seq<StoredMessageRecord>, b: seq<StoredMessageRecord>,
                                          ca: seq<nat>, cb: seq<nat>, policy: DurabilityPolicy, codec: RecordCodec)
    requires |ca| == |a| && |cb| == |b|
    ensures FlushAll(FlushAll(st, a, ca, policy, codec), b, cb, policy, codec)
      == FlushAll(st, a + b, ca + cb, policy, codec)
    decreases |a|
  {
    if a != [] {
      assert (a + b)[0] == a[0] && (ca + cb)[0] == ca[0];
      assert (a + b)[1..] == a[1..] + b && (ca + cb)[1..] == ca[1..] + cb;
      FlushAllConcat(FlushOne(st, a[0], ca[0], policy, codec), a[1..], b, ca[1..], cb, policy, codec);
    } else {
      assert a + b == b && ca + cb == cb;
    }
  }

  /** `fs::read_to_string`. */
  function ReadText(files: map<string, seq<Byte>>, path: string): (r: Result<string, IoError>)
    ensures r == Err(NotFound) <==> path !in files
    ensures r == Err(InvalidData) <==> path in files && !Utf8.Valid(files[path])
    ensures r.Ok? ==> Utf8.Decode(files[path]) == Some(r.value)
  {
    if path !in files then Err(NotFound)
    else match Utf8.Decode(files[path])
      case None => Err(InvalidData)
      case Some(s) => Ok(s)
  }

  /** The first two whitespace-separated tokens of an index line, read as a `u32` and a `u64`. */
  function IndexEntry(line: string): (r: Option<(U32, U64)>)
    ensures r.Some? <==> |Tokens(line)| >= 2 && ParseToken(Tokens(line)[0], U32_MAX).Some?
                                            && ParseToken(Tokens(line)[1], U64_MAX).Some?
    ensures r.Some? ==>
      Some(r.value.0 as nat) == ParseToken(Tokens(line)[0], U32_MAX) && Some(r.value.1 as nat) == ParseToken(Tokens(line)[1], U64_MAX)
  {
    var t := Tokens(line);
    var seqNo := if |t| >= 1 then ParseToken(t[0], U32_MAX) else None;
    var off := if |t| >= 2 then ParseToken(t[1], U64_MAX) else None;
    if seqNo.Some? && off.Some? then Some((seqNo.value as U32, off.value as U64)) else None
  }

  /** The index entries of `lines` that parse and whose sequence number lies in `[begin, end]`, in
      file order. */
  function RangeEntries(lines: seq<string>, begin: U32, end: U32): (r: seq<(U32, U64)>)
    ensures forall i :: 0 <= i < |r| ==> begin <= r[i].0 <= end
  {
    if lines == [] then []
    else
      var e := IndexEntry(lines[|lines| - 1]);
      RangeEntries(lines[..|lines| - 1], begin, end)
        + (if e.Some? && begin <= e.value.0 <= end then [e.value] else [])
  }

  /** One more line of the index. */
  lemma RangeEntriesSnoc(lines: seq<string>, i: nat, begin: U32, end: U32)
    requires i < |lines|
    ensures var e := IndexEntry(lines[i]);
      RangeEntries(lines[..i + 1], begin, end)
        == RangeEntries(lines[..i], begin, end) + (if e.Some? && begin <= e.value.0 <= end then [e.value] else [])
  {
    assert lines[..i + 1][..i] == lines[..i];
  }

  /** The bytes `read_line` returns after a seek to `offset < |data|`: up to and including the next
      newline, or to the end. */
  function LineBytes(rest: seq<Byte>): (r: seq<Byte>)
    ensures r <= rest
    ensures NEWLINE in rest ==> 0 < |r| && r[|r| - 1] == NEWLINE && NEWLINE !in r[..|r| - 1]
    ensures NEWLINE !in rest ==> r == rest
  {
    match IndexOf(rest, NEWLINE)
    case None => rest
    case Some(i) =>
      assert rest[..i + 1][..i] == rest[..i];
      rest[..i + 1]
  }

  /** Seek to `offset` and `read_line`. The seek takes the offset as an `i64`, so an offset past
      `i64::MAX` is refused with `InvalidInput`; any other offset at or past the end reads nothing; a
      line that is not UTF-8 is `InvalidData`. */
  function ReadLineAt(data: seq<Byte>, offset: nat): (r: Result<string, IoError>)
    ensures r == Err(InvalidInput) <==> offset > I64_MAX
    ensures offset <= I64_MAX && offset >= |data| ==> r == Ok([])
    ensures r == Err(InvalidData) <==> offset <= I64_MAX && offset < |data| && Utf8.Decode(LineBytes(data[offset..])).None?
    ensures r.Ok? && offset < |data| ==> Utf8.Decode(LineBytes(data[offset..])) == Some(r.value)
  {
    if offset > I64_MAX then Err(InvalidInput)
    else if offset >= |data| then Ok([])
    else match Utf8.Decode(LineBytes(data[offset..]))
      case None => Err(InvalidData)
      case Some(l) => Ok(l)
  }

  /** What one record line contributes: nothing for a blank line, a line that is not a record or a
      payload that is not base64, and the decoded payload otherwise. */
  function PayloadOf(codec: RecordCodec, line: string): (r: seq<seq<Byte>>)
    ensures |r| <= 1
    ensures Blank(line) ==> r == []
  {
    if Blank(line) then []
    else match codec.fromJson(line)
      case None => []
      case Some(rec) =>
        match codec.decodeBase64(rec.payloadB64)
        case None => []
        case Some(bytes) => [bytes]
  }

  /** The payloads read at the entries' offsets, in order; the first failed read is the result. */
  function ReadPayloads(data: seq<Byte>, entries: seq<(U32, U64)>, codec: RecordCodec): Result<seq<seq<Byte>>, IoError>
  {
    if entries == [] then Ok([])
    else match ReadPayloads(data, entries[..|entries| - 1], codec)
      case Err(e) => Err(e)
      case Ok(out) =>
        match ReadLineAt(data, entries[|entries| - 1].1)
        case Err(e) => Err(e)
        case Ok(line) => Ok(out + PayloadOf(codec, line))
  }

  /** Once a read has failed, reading further entries does not change the result. */
  lemma {:induction false} ReadPayloadsFails(data: seq<Byte>, entries: seq<(U32, U64)>, i: nat, codec: RecordCodec)
    requires i <= |entries| && ReadPayloads(data, entries[..i], codec).Err?
    ensures ReadPayloads(data, entries, codec) == ReadPayloads(data, entries[..i], codec)
    decreases |entries| - i
  {
    if i < |entries| {
      var next := entries[..i + 1];
      assert next[..i] == entries[..i];
      ReadPayloadsFails(data, entries, i + 1, codec);
    } else {
      assert entries[..i] == entries;
    }
  }

  /** The reads succeed exactly when every entry's seek and line read succeed. */
  lemma {:induction false} ReadPayloadsOk(data: seq<Byte>, entries: seq<(U32, U64)>, codec: RecordCodec)
    ensures ReadPayloads(data, entries, codec).Ok? <==> forall i :: 0 <= i < |entries| ==> ReadsAt(data, entries, i)
  {
    if entries != [] {
      var n := |entries| - 1;
      var init := entries[..n];
      ReadPayloadsOk(data, init, codec);
      ReadPayloadsSnocOk(data, entries, codec);
      AllReadsSnoc(data, entries, init);
    }
  }

  /** The read of entry `i` succeeds. */
  predicate ReadsAt(data: seq<Byte>, entries: seq<(U32, U64)>, i: nat)
    requires i < |entries|
  {
    ReadLineAt(data, entries[i].1).Ok?
  }

  lemma AllReadsSnoc(data: seq<Byte>, entries: seq<(U32, U64)>, init: seq<(U32, U64)>)
    requires entries != [] && init == entries[..|entries| - 1]
    ensures (forall i :: 0 <= i < |entries| ==> ReadsAt(data, entries, i)) <==>
      (forall i :: 0 <= i < |init| ==> ReadsAt(data, init, i)) && ReadsAt(data, entries, |entries| - 1)
  {
    forall i | 0 <= i < |init|
      ensures ReadsAt(data, init, i) == ReadsAt(data, entries, i)
    {
      assert init[i] == entries[i];
    }
  }

  lemma ReadPayloadsSnocOk(data: seq<Byte>, entries: seq<(U32, U64)>, codec: RecordCodec)
    requires entries != []
    ensures ReadPayloads(data, entries, codec).Ok? <==>
      ReadPayloads(data, entries[..|entries| - 1], codec).Ok? && ReadsAt(data, entries, |entries| - 1)
  {
  }

  /** `load_outbound_range`: a missing index gives no payloads; otherwise the data file must exist. */
  function OutboundRangeOf(files: map<string, seq<Byte>>, codec: RecordCodec, session: SessionKey,
                             begin: U32, end: U32): (r: Result<seq<seq<Byte>>, IoError>)
    ensures IndexPath(session) !in files ==> r == Ok([])
    ensures IndexPath(session) in files && !Utf8.Valid(files[IndexPath(session)]) ==> r == Err(InvalidData)
    ensures IndexPath(session) in files && Utf8.Valid(files[IndexPath(session)]) && DataPath(session) !in files ==>
      r == Err(NotFound)
  {
    match ReadText(files, IndexPath(session))
    case Err(NotFound) => Ok([])
    case Err(e) => Err(e)
    case Ok(content) =>
      var entries := SortByKey(RangeEntries(Lines(content), begin, end));
      if DataPath(session) !in files then Err(NotFound)
      else ReadPayloads(files[DataPath(session)], entries, codec)
  }

  /** An index entry in range whose offset is past `i64::MAX` makes the whole load fail: its seek is
      refused, whatever the other entries hold. */
  lemma OutboundRangeSeekFails(files: map<string, seq<Byte>>, codec: RecordCodec, session: SessionKey,
                               begin: U32, end: U32, e: (U32, U64))
    requires IndexPath(session) in files && DataPath(session) in files
    requires Utf8.Decode(files[IndexPath(session)]).Some?
    requires e in RangeEntries(Lines(Utf8.Decode(files[IndexPath(session)]).value), begin, end) && e.1 > I64_MAX
    ensures OutboundRangeOf(files, codec, session, begin, end).Err?
  {
    var content := Utf8.Decode(files[IndexPath(session)]).value;
    var entries := SortByKey(RangeEntries(Lines(content), begin, end));
    assert e in multiset(entries);
    var i :| 0 <= i < |entries| && entries[i] == e;
    assert !ReadsAt(files[DataPath(session)], entries, i);
    ReadPayloadsOk(files[DataPath(session)], entries, codec);
  }

  /** The first token of a line, read as a `u32`. */
  function FirstSeq(line: string): (r: Option<U32>)
    ensures r.Some? <==> |Tokens(line)| >= 1 && ParseToken(Tokens(line)[0], U32_MAX).Some?
    ensures r.Some? ==> ParseToken(Tokens(line)[0], U32_MAX) == Some(r.value as nat)
  {
    var t := Tokens(line);
    if |t| >= 1 then match ParseToken(t[0], U32_MAX) case None => None case Some(v) => Some(v as U32) else None
  }

  /** The fold of `last_outbound_seq`: `last.map_or(sq, |m| m.max(sq))` over the lines in order. */
  function MaxSeq(lines: seq<string>): Option<U32>
  {
    if lines == [] then None
    else
      MaxStep(MaxSeq(lines[..|lines| - 1]), FirstSeq(lines[|lines| - 1]))
  }

  /** One turn of the fold: a line without a sequence number changes nothing. */
  function MaxStep(last: Option<U32>, seqNo: Option<U32>): Option<U32>
  {
    match seqNo
    case None => last
    case Some(sq) => Some(if last.Some? && last.value > sq then last.value else sq)
  }

  lemma MaxSeqPrefixStep(lines: seq<string>, i: nat)
    requires i < |lines|
    ensures MaxSeq(lines[..i + 1]) == MaxStep(MaxSeq(lines[..i]), FirstSeq(lines[i]))
  {
    assert lines[..i + 1][..i] == lines[..i];
  }

  /** The fold computes the maximum: `None` exactly when no line starts with a sequence number, and
      otherwise one that some line starts with and no line exceeds. */
  lemma {:induction false} MaxSeqIsMaximum(lines: seq<string>)
    ensures MaxSeq(lines).None? <==> forall i :: 0 <= i < |lines| ==> FirstSeq(lines[i]).None?
    ensures MaxSeq(lines).Some? ==>
      (exists i :: 0 <= i < |lines| && FirstSeq(lines[i]) == MaxSeq(lines))
      && forall i :: 0 <= i < |lines| && FirstSeq(lines[i]).Some? ==> FirstSeq(lines[i]).value <= MaxSeq(lines).value
  {
    if lines != [] {
      var init := lines[..|lines| - 1];
      var m, mi, k := MaxSeq(lines), MaxSeq(init), FirstSeq(lines[|lines| - 1]);
      MaxSeqIsMaximum(init);
      MaxSeqSnoc(lines, init, m, mi, k);
      NoKeyStep(lines, init, m, mi, k);
      AttainedStep(lines, init, m, mi, k);
      BoundStep(lines, init, m, mi, k);
    }
  }

  /** The three parts of the induction step of `MaxSeqIsMaximum`, from one step of the fold. */
  lemma NoKeyStep(lines: seq<string>, init: seq<string>, m: Option<U32>, mi: Option<U32>, k: Option<U32>)
    requires lines != [] && init == lines[..|lines| - 1] && k == FirstSeq(lines[|lines| - 1])
    requires k.None? ==> m == mi
    requires k.Some? ==> m.Some? && k.value <= m.value && (m == k || m == mi)
    requires mi.Some? ==> m.Some? && mi.value <= m.value
    requires mi.None? <==> forall i :: 0 <= i < |init| ==> FirstSeq(init[i]).None?
    ensures m.None? <==> forall i :: 0 <= i < |lines| ==> FirstSeq(lines[i]).None?
  {
    forall i | 0 <= i < |lines| {
      KeyAt(lines, init, i);
    }
  }

  lemma AttainedStep(lines: seq<string>, init: seq<string>, m: Option<U32>, mi: Option<U32>, k: Option<U32>)
    requires lines != [] && init == lines[..|lines| - 1] && k == FirstSeq(lines[|lines| - 1])
    requires k.None? ==> m == mi
    requires k.Some? ==> m.Some? && k.value <= m.value && (m == k || m == mi)
    requires mi.Some? ==> exists i :: 0 <= i < |init| && FirstSeq(init[i]) == mi
    ensures m.Some? ==> exists i :: 0 <= i < |lines| && FirstSeq(lines[i]) == m
  {
    if m.Some? {
      if k.Some? && m == k {
        assert FirstSeq(lines[|lines| - 1]) == m;
      } else {
        var j :| 0 <= j < |init| && FirstSeq(init[j]) == mi;
        KeyAt(lines, init, j);
      }
    }
  }

  lemma BoundStep(lines: seq<string>, init: seq<string>, m: Option<U32>, mi: Option<U32>, k: Option<U32>)
    requires lines != [] && init == lines[..|lines| - 1] && k == FirstSeq(lines[|lines| - 1])
    requires k.Some? ==> m.Some? && k.value <= m.value && (m == k || m == mi)
    requires mi.Some? ==> m.Some? && mi.value <= m.value
    requires mi.None? <==> forall i :: 0 <= i < |init| ==> FirstSeq(init[i]).None?
    requires mi.Some? ==> forall i :: 0 <= i < |init| && FirstSeq(init[i]).Some? ==> FirstSeq(init[i]).value <= mi.value
    ensures m.Some? ==> forall i :: 0 <= i < |lines| && FirstSeq(lines[i]).Some? ==> FirstSeq(lines[i]).value <= m.value
  {
    forall i | 0 <= i < |lines| {
      KeyAt(lines, init, i);
    }
  }

  /** The line at `i` is a line of `init` or the last one. */
  lemma KeyAt(lines: seq<string>, init: seq<string>, i: nat)
    requires lines != [] && init == lines[..|lines| - 1] && i < |lines|
    ensures FirstSeq(lines[i]) == if i < |init| then FirstSeq(init[i]) else FirstSeq(lines[|lines| - 1])
  {
    if i < |init| {
      assert lines[i] == init[i];
    }
  }

  /** One step of the fold. */
  lemma MaxSeqSnoc(lines: seq<string>, init: seq<string>, m: Option<U32>, mi: Option<U32>, k: Option<U32>)
    requires lines != [] && init == lines[..|lines| - 1]
    requires m == MaxSeq(lines) && mi == MaxSeq(init) && k == FirstSeq(lines[|lines| - 1])
    ensures k.None? ==> m == mi
    ensures k.Some? ==> m.Some? && k.value <= m.value && (m == k || m == mi)
    ensures mi.Some? ==> m.Some? && mi.value <= m.value
  {
  }

  /** A maximum over lines that all occur in `b` is at most the maximum over `b`. */
  lemma MaxSeqBound(a: seq<string>, b: seq<string>)
    requires forall l :: l in a ==> l in b
    ensures MaxSeq(a).Some? ==> MaxSeq(b).Some? && MaxSeq(a).value <= MaxSeq(b).value
  {
    if MaxSeq(a).Some? {
      MaxSeqIsMaximum(a);
      MaxSeqIsMaximum(b);
      var i :| 0 <= i < |a| && FirstSeq(a[i]) == MaxSeq(a);
      assert a[i] in b;
      var j :| 0 <= j < |b| && b[j] == a[i];
      assert FirstSeq(b[j]).Some?;
    }
  }

  /** Hence the result depends on which lines the index holds, not on their order. */
  lemma MaxSeqOrderFree(a: seq<string>, b: seq<string>)
    requires forall l :: l in a <==> l in b
    ensures MaxSeq(a) == MaxSeq(b)
  {
    MaxSeqBound(a, b);
    MaxSeqBound(b, a);
  }

  /** `last_outbound_seq`: `None` for a missing index, an error for one that is not UTF-8. */
  function LastOutboundSeqOf(files: map<string, seq<Byte>>, session: SessionKey): (r: Result<Option<U32>, IoError>)
    ensures IndexPath(session) !in files ==> r == Ok(None)
    ensures r.Err? <==> IndexPath(session) in files && !Utf8.Valid(files[IndexPath(session)])
  {
    match ReadText(files, IndexPath(session))
    case Err(NotFound) => Ok(None)
    case Err(e) => Err(e)
    case Ok(content) => Ok(MaxSeq(Lines(content)))
  }

  /**
   * The store together with its background worker: the files, the queue the worker drains, and the
   * time of its last sync. The channel from `append` to the worker delivers in order, so sending a
   * record is appending it to the queue.
   */
  class FileMessageStore {
    var files: map<string, seq<Byte>>
    var queue: seq<StoredMessageRecord>
    var lastSync: nat
    var syncs: seq<(string, nat)>
    const durability: DurabilityPolicy
    const codec: RecordCodec

    /** A store over the given files; the worker starts with an empty queue and `last_sync` now. */
    constructor(files: map<string, seq<Byte>>, durability: DurabilityPolicy, codec: RecordCodec, now: nat)
      ensures this.files == files && queue == [] && lastSync == now && syncs == []
      ensures this.durability == durability && this.codec == codec
    {
      this.files := files;
      queue := [];
      lastSync := now;
      syncs := [];
      this.durability := durability;
      this.codec := codec;
    }

    function State(): JournalState
      reads this
    {
      JournalState(files, lastSync, syncs)
    }

    /** `append`: the record goes to the back of the worker's queue. */
    method Append(record: StoredMessageRecord)
      modifies this
      ensures queue == old(queue) + [record]
      ensures files == old(files) && lastSync == old(lastSync) && syncs == old(syncs)
    {
      queue := queue + [record];
    }

    /** `append_bytes`: the payload is base64-encoded into a record, which is then appended. */
    method AppendBytes(session: SessionKey, direction: Direction, seqNo: Option<U32>, tsMillis: U64, payload: seq<Byte>)
      modifies this
      ensures queue == old(queue) + [StoredMessageRecord(session, direction, seqNo, tsMillis, codec.encodeBase64(payload))]
      ensures files == old(files) && lastSync == old(lastSync) && syncs == old(syncs)
    {
      var rec := StoredMessageRecord(session, direction, seqNo, tsMillis, codec.encodeBase64(payload));
      Append(rec);
    }

    /** `flush_batch`: pops every queued record, front first, the `i`-th at clock reading `clock[i]`. */
    method FlushBatch(clock: seq<nat>)
      requires |clock| == |queue|
      modifies this
      ensures queue == []
      ensures State() == FlushAll(old(State()), old(queue), clock, durability, codec)
    {
      ghost var target := FlushAll(State(), queue, clock, durability, codec);
      var i := 0;
      while queue != []
        invariant i <= |clock| && |queue| == |clock| - i
        invariant FlushAll(State(), queue, clock[i..], durability, codec) == target
        decreases |queue|
      {
        FlushAllStep(State(), queue, clock[i..], durability, codec);
        var rec := queue[0];
        queue := queue[1..];
        FlushRecord(rec, clock[i]);
        assert clock[i..][1..] == clock[i + 1..];
        i := i + 1;
      }
    }

    /** The body of the `flush_batch` loop for one popped record, the clock reading `now`. */
    method FlushRecord(rec: StoredMessageRecord, now: nat)
      modifies this
      ensures queue == old(queue)
      ensures State() == FlushOne(old(State()), rec, now, durability, codec)
    {
      var dataPath := DataPath(rec.session);
      var indexPath := IndexPath(rec.session);
      var offset := |FileOr(files, dataPath)|;
      var written := files[dataPath := FileOr(files, dataPath) + RecordLine(codec, rec)];
      if rec.direction == Outbound && rec.seqNo.Some? {
        written := written[indexPath := FileOr(written, indexPath) + Utf8.Encode(IndexLine(rec.seqNo.value, offset) + "\n")];
      }
      var step := SyncDecision(durability, lastSync, now);
      if step.sync {
        syncs := syncs + [(dataPath, now)];
      }
      files, lastSync := written, step.lastSync;
    }

    /** `load_outbound_range` of `FileMessageStore`. */
    method LoadOutboundRange(session: SessionKey, begin: U32, end: U32) returns (r: Result<seq<seq<Byte>>, IoError>)
      ensures r == OutboundRangeOf(files, codec, session, begin, end)
    {
      var dataPath := DataPath(session);
      var content := ReadText(files, IndexPath(session));
      if content.Err? {
        if content.error == NotFound {
          return Ok([]);
        }
        return Err(content.error);
      }
      var offsets := CollectOffsets(Lines(content.value), begin, end);
      offsets := SortByKey(offsets);
      if dataPath !in files {
        return Err(NotFound);
      }
      r := ReadRecords(files[dataPath], offsets);
    }

    /** The loop over the index lines that collects the entries in range. */
    static method CollectOffsets(lines: seq<string>, begin: U32, end: U32) returns (offsets: seq<(U32, U64)>)
      ensures offsets == RangeEntries(lines, begin, end)
    {
      offsets := [];
      var i := 0;
      while i < |lines|
        invariant i <= |lines|
        invariant offsets == RangeEntries(lines[..i], begin, end)
      {
        var entry := IndexEntry(lines[i]);
        RangeEntriesSnoc(lines, i, begin, end);
        if entry.Some? && begin <= entry.value.0 <= end {
          offsets := offsets + [entry.value];
        }
        i := i + 1;
      }
      assert lines[..i] == lines;
    }

    /** The loop that seeks to each offset, reads the line there and keeps its payload. */
    method ReadRecords(data: seq<Byte>, offsets: seq<(U32, U64)>) returns (r: Result<seq<seq<Byte>>, IoError>)
      ensures r == ReadPayloads(data, offsets, codec)
    {
      var out: seq<seq<Byte>> := [];
      var j := 0;
      while j < |offsets|
        invariant j <= |offsets|
        invariant ReadPayloads(data, offsets[..j], codec) == Ok(out)
      {
        assert offsets[..j + 1][..j] == offsets[..j];
        var line := ReadLineAt(data, offsets[j].1);
        if line.Err? {
          ReadPayloadsFails(data, offsets, j + 1, codec);
          return Err(line.error);
        }
        out := out + PayloadOf(codec, line.value);
        j := j + 1;
      }
      assert offsets[..j] == offsets;
      return Ok(out);
    }

    /** `last_outbound_seq` of `FileMessageStore`. */
    method LastOutboundSeq(session: SessionKey) returns (r: Result<Option<U32>, IoError>)
      ensures r == LastOutboundSeqOf(files, session)
    {
      var content := ReadText(files, IndexPath(session));
      if content.Err? {
        if content.error == NotFound {
          return Ok(None);
        }
        return Err(content.error);
      }
      var last := LargestSeq(Lines(content.value));
      return Ok(last);
    }

    /** The loop of `last_outbound_seq` over the lines of the index file. */
    static method LargestSeq(lines: seq<string>) returns (last: Option<U32>)
      ensures last == MaxSeq(lines)
    {
      last := None;
      var i := 0;
      while i < |lines|
        invariant i <= |lines|
        invariant last == MaxSeq(lines[..i])
      {
        var seqNo := FirstSeq(lines[i]);
        MaxSeqPrefixStep(lines, i);
        ghost var next := MaxStep(last, seqNo);
        if seqNo.Some? {
          var m: U32 := seqNo.value;
          if last.Some? && last.value > m {
            m := last.value;
          }
          last := Some(m);
        }
        assert last == next;
        i := i + 1;
      }
      assert lines[..i] == lines;
    }
  }
}
