/**
 * What `flush_batch` leaves on disk and what `load_outbound_range` and `last_outbound_seq` then read
 * back. A batch of records changes only the two files of each stem it touches: the data file gains the
 * records' JSON lines, and the index file gains one `"<seq> <offset>"` line per outbound record with a
 * sequence number. Reading a freshly written index gives back exactly the payloads of those records in
 * range, ordered by sequence number and, for equal numbers, in the order they were queued; records of
 * every session sharing the stem are in the same files. The durability policy decides when the data
 * file is synced.
 */
module JournalRecovery {
  import opened Wrappers
  import opened Bytes
  import Utf8
  import opened TextLines
  import opened JournalNames
  import opened Sorting
  import opened Journal

  /** The records of `recs` that go to the files of stem `stem`, in order. */
  function ForStem(recs: seq<StoredMessageRecord>, stem: string): (r: seq<StoredMessageRecord>)
    ensures forall i :: 0 <= i < |r| ==> r[i] in recs
  {
    if recs == [] then []
    else (if FileStem(recs[0].session) == stem then [recs[0]] else []) + ForStem(recs[1..], stem)
  }

  /** The bytes a data file gains from `rs`: each record's line. */
  function DataBytes(codec: RecordCodec, rs: seq<StoredMessageRecord>): seq<Byte>
  {
    if rs == [] then [] else RecordLine(codec, rs[0]) + DataBytes(codec, rs[1..])
  }

  /** The bytes an index file gains from `rs` when the data file held `base` bytes before them. */
  function IndexBytes(codec: RecordCodec, rs: seq<StoredMessageRecord>, base: nat): seq<Byte>
  {
    if rs == [] then []
    else (if Indexed(rs[0]) then Utf8.Encode(IndexLine(rs[0].seqNo.value, base) + "\n") else [])
         + IndexBytes(codec, rs[1..], base + |RecordLine(codec, rs[0])|)
  }

  lemma ForStemCons(recs: seq<StoredMessageRecord>, stem: string)
    requires recs != []
    ensures ForStem(recs, stem) == (if FileStem(recs[0].session) == stem then [recs[0]] else []) + ForStem(recs[1..], stem)
  {
  }

  /** One record changes the data file of `k` exactly when it has the stem of `k`. */
  lemma FlushOneData(st: JournalState, rec: StoredMessageRecord, now: nat, policy: DurabilityPolicy,
                     codec: RecordCodec, k: SessionKey)
    ensures var r := FlushOne(st, rec, now, policy, codec);
      if FileStem(rec.session) == FileStem(k) then
        DataPath(k) in r.files && FileOr(r.files, DataPath(k)) == FileOr(st.files, DataPath(k)) + RecordLine(codec, rec)
      else (DataPath(k) in r.files <==> DataPath(k) in st.files) && FileOr(r.files, DataPath(k)) == FileOr(st.files, DataPath(k))
  {
    PathsOfStems(k, rec.session);
    PathsOfStems(rec.session, k);
    if FileStem(rec.session) == FileStem(k) {
      assert DataPath(k) == DataPath(rec.session);
    } else {
      assert DataPath(k) != DataPath(rec.session);
    }
  }

  /** One record changes the index file of `k` exactly when it is indexed and has the stem of `k`. */
  lemma FlushOneIndex(st: JournalState, rec: StoredMessageRecord, now: nat, policy: DurabilityPolicy,
                      codec: RecordCodec, k: SessionKey)
    ensures var r := FlushOne(st, rec, now, policy, codec);
      if FileStem(rec.session) == FileStem(k) && Indexed(rec) then
        IndexPath(k) in r.files && FileOr(r.files, IndexPath(k)) == FileOr(st.files, IndexPath(k))
          + Utf8.Encode(IndexLine(rec.seqNo.value, |FileOr(st.files, DataPath(k))|) + "\n")
      else (IndexPath(k) in r.files <==> IndexPath(k) in st.files) && FileOr(r.files, IndexPath(k)) == FileOr(st.files, IndexPath(k))
  {
    PathsOfStems(k, rec.session);
    PathsOfStems(rec.session, k);
    if FileStem(rec.session) == FileStem(k) {
      assert IndexPath(k) == IndexPath(rec.session) && DataPath(k) == DataPath(rec.session);
    } else {
      assert IndexPath(k) != IndexPath(rec.session);
    }
  }

  /** A flushed batch appends to the data file of `k` the lines of the records with its stem, and
      creates it exactly when one of them exists. */
  lemma {:induction false} FlushAllData(st: JournalState, recs: seq<StoredMessageRecord>, clock: seq<nat>,
                                        policy: DurabilityPolicy, codec: RecordCodec, k: SessionKey)
    requires |clock| == |recs|
    ensures var r := FlushAll(st, recs, clock, policy, codec); var rs := ForStem(recs, FileStem(k));
      (DataPath(k) in r.files <==> DataPath(k) in st.files || rs != [])
      && FileOr(r.files, DataPath(k)) == FileOr(st.files, DataPath(k)) + DataBytes(codec, rs)
    decreases |recs|
  {
    if recs != [] {
      var rec := recs[0];
      var st1 := FlushOne(st, rec, clock[0], policy, codec);
      FlushAllStep(st, recs, clock, policy, codec);
      FlushOneData(st, rec, clock[0], policy, codec, k);
      FlushAllData(st1, recs[1..], clock[1..], policy, codec, k);
      ForStemCons(recs, FileStem(k));
      var rest := ForStem(recs[1..], FileStem(k));
      var same := FileStem(rec.session) == FileStem(k);
      DataAppendStep(codec, rec, rest, same, FileOr(st.files, DataPath(k)), FileOr(st1.files, DataPath(k)));
    }
  }

  /** One step of `FlushAllData`, on the file contents alone: `f0` before the record, `f1` after it. */
  lemma DataAppendStep(codec: RecordCodec, rec: StoredMessageRecord, rest: seq<StoredMessageRecord>, same: bool,
                       f0: seq<Byte>, f1: seq<Byte>)
    requires f1 == if same then f0 + RecordLine(codec, rec) else f0
    ensures var sel := (if same then [rec] else []) + rest;
      f1 + DataBytes(codec, rest) == f0 + DataBytes(codec, sel) && (sel != [] <==> same || rest != [])
  {
    if same {
      assert ([rec] + rest)[1..] == rest;
      assert f0 + RecordLine(codec, rec) + DataBytes(codec, rest) == f0 + (RecordLine(codec, rec) + DataBytes(codec, rest));
    } else {
      assert [] + rest == rest;
    }
  }

  /** A flushed batch appends to the index file of `k` an index line for each outbound record with a
      sequence number and its stem, holding the data file's length just before that record; the file
      is created exactly when there is such a line. */
  lemma {:induction false} FlushAllIndex(st: JournalState, recs: seq<StoredMessageRecord>, clock: seq<nat>,
                                         policy: DurabilityPolicy, codec: RecordCodec, k: SessionKey)
    requires |clock| == |recs|
    ensures var r := FlushAll(st, recs, clock, policy, codec);
      var ib := IndexBytes(codec, ForStem(recs, FileStem(k)), |FileOr(st.files, DataPath(k))|);
      (IndexPath(k) in r.files <==> IndexPath(k) in st.files || ib != [])
      && FileOr(r.files, IndexPath(k)) == FileOr(st.files, IndexPath(k)) + ib
    decreases |recs|
  {
    if recs != [] {
      var rec := recs[0];
      var st1 := FlushOne(st, rec, clock[0], policy, codec);
      FlushAllStep(st, recs, clock, policy, codec);
      FlushOneData(st, rec, clock[0], policy, codec, k);
      FlushOneIndex(st, rec, clock[0], policy, codec, k);
      FlushAllIndex(st1, recs[1..], clock[1..], policy, codec, k);
      ForStemCons(recs, FileStem(k));
      var rest := ForStem(recs[1..], FileStem(k));
      var same := FileStem(rec.session) == FileStem(k);
      IndexAppendStep(codec, rec, rest, same, |FileOr(st.files, DataPath(k))|, |FileOr(st1.files, DataPath(k))|,
                      FileOr(st.files, IndexPath(k)), FileOr(st1.files, IndexPath(k)));
    }
  }

  /** One step of `FlushAllIndex`, on the file contents alone: `f0` before the record, `f1` after it. */
  lemma IndexAppendStep(codec: RecordCodec, rec: StoredMessageRecord, rest: seq<StoredMessageRecord>, same: bool,
                        base: nat, base1: nat, f0: seq<Byte>, f1: seq<Byte>)
    requires base1 == if same then base + |RecordLine(codec, rec)| else base
    requires f1 == if same && Indexed(rec) then f0 + Utf8.Encode(IndexLine(rec.seqNo.value, base) + "\n") else f0
    ensures var sel := (if same then [rec] else []) + rest;
      f1 + IndexBytes(codec, rest, base1) == f0 + IndexBytes(codec, sel, base)
      && (IndexBytes(codec, sel, base) != [] <==> (same && Indexed(rec)) || IndexBytes(codec, rest, base1) != [])
  {
    var tail := IndexBytes(codec, rest, base1);
    if same {
      IndexBytesCons(codec, rec, rest, base);
      if Indexed(rec) {
        IndexLineBytes(codec, rec, base, f0, tail);
      } else {
        assert [] + tail == tail;
      }
    } else {
      assert [] + rest == rest;
    }
  }

  lemma IndexLineBytes(codec: RecordCodec, rec: StoredMessageRecord, base: nat, f0: seq<Byte>, tail: seq<Byte>)
    requires Indexed(rec)
    ensures var bytes := Utf8.Encode(IndexLine(rec.seqNo.value, base) + "\n");
      bytes != [] && f0 + bytes + tail == f0 + (bytes + tail)
  {
    Utf8.EncodeLength(IndexLine(rec.seqNo.value, base) + "\n");
  }

  lemma IndexBytesCons(codec: RecordCodec, rec: StoredMessageRecord, rest: seq<StoredMessageRecord>, base: nat)
    ensures IndexBytes(codec, [rec] + rest, base) ==
      (if Indexed(rec) then Utf8.Encode(IndexLine(rec.seqNo.value, base) + "\n") else [])
      + IndexBytes(codec, rest, base + |RecordLine(codec, rec)|)
  {
    assert ([rec] + rest)[1..] == rest;
  }

  /** The syncs `Always` makes: the record's data file at the record's clock reading, for every record. */
  function EverySync(recs: seq<StoredMessageRecord>, clock: seq<nat>): (r: seq<(string, nat)>)
    requires |clock| == |recs|
    ensures |r| == |recs|
  {
    if recs == [] then [] else [(DataPath(recs[0].session), clock[0])] + EverySync(recs[1..], clock[1..])
  }

  /** `Always` syncs after every record and `Disabled` never; neither touches the time of the last sync. */
  lemma FlushAllSyncs(st: JournalState, recs: seq<StoredMessageRecord>, clock: seq<nat>,
                      policy: DurabilityPolicy, codec: RecordCodec)
    requires |clock| == |recs|
    ensures policy.Always? ==>
      FlushAll(st, recs, clock, policy, codec).syncs == st.syncs + EverySync(recs, clock)
      && FlushAll(st, recs, clock, policy, codec).lastSync == st.lastSync
    ensures policy.Disabled? ==>
      FlushAll(st, recs, clock, policy, codec).syncs == st.syncs
      && FlushAll(st, recs, clock, policy, codec).lastSync == st.lastSync
    decreases |recs|, 1
  {
    if recs == [] {
      assert st.syncs + [] == st.syncs;
    } else {
      FlushAllSyncsStep(st, recs, clock, policy, codec);
    }
  }

  lemma FlushAllSyncsStep(st: JournalState, recs: seq<StoredMessageRecord>, clock: seq<nat>,
                          policy: DurabilityPolicy, codec: RecordCodec)
    requires |clock| == |recs| && recs != []
    ensures policy.Always? ==>
      FlushAll(st, recs, clock, policy, codec).syncs == st.syncs + EverySync(recs, clock)
      && FlushAll(st, recs, clock, policy, codec).lastSync == st.lastSync
    ensures policy.Disabled? ==>
      FlushAll(st, recs, clock, policy, codec).syncs == st.syncs
      && FlushAll(st, recs, clock, policy, codec).lastSync == st.lastSync
    decreases |recs|, 0
  {
    var st1 := FlushOne(st, recs[0], clock[0], policy, codec);
    FlushAllStep(st, recs, clock, policy, codec);
    FlushOneSyncs(st, recs[0], clock[0], policy, codec);
    FlushAllSyncs(st1, recs[1..], clock[1..], policy, codec);
    if policy.Always? {
      EverySyncStep(st.syncs, st1.syncs, recs, clock);
    }
  }

  lemma EverySyncStep(s0: seq<(string, nat)>, s1: seq<(string, nat)>, recs: seq<StoredMessageRecord>, clock: seq<nat>)
    requires |clock| == |recs| && recs != [] && s1 == s0 + [(DataPath(recs[0].session), clock[0])]
    ensures s1 + EverySync(recs[1..], clock[1..]) == s0 + EverySync(recs, clock)
  {
    EverySyncHead(recs, clock);
    AppendAssoc(s0, [(DataPath(recs[0].session), clock[0])], EverySync(recs[1..], clock[1..]));
  }

  lemma EverySyncHead(recs: seq<StoredMessageRecord>, clock: seq<nat>)
    requires |clock| == |recs| && recs != []
    ensures EverySync(recs, clock) == [(DataPath(recs[0].session), clock[0])] + EverySync(recs[1..], clock[1..])
  {
  }

  /** Sync times that each lie at least `gap` after the one before, the first at least `gap` after `start`. */
  predicate Spaced(start: nat, syncs: seq<(string, nat)>, gap: nat)
    decreases |syncs|
  {
    syncs == [] || (Elapsed(start, syncs[0].1) >= gap && Spaced(syncs[0].1, syncs[1..], gap))
  }

  /** One record's sync: its data file at `now` when the policy decides so. */
  lemma FlushOneSyncs(st: JournalState, rec: StoredMessageRecord, now: nat, policy: DurabilityPolicy, codec: RecordCodec)
    ensures var r := FlushOne(st, rec, now, policy, codec); var d := SyncDecision(policy, st.lastSync, now);
      r.syncs == (if d.sync then st.syncs + [(DataPath(rec.session), now)] else st.syncs) && r.lastSync == d.lastSync
  {
  }

  lemma PrefixCons<T>(s0: seq<T>, x: T, s2: seq<T>)
    requires |s0| + 1 <= |s2| && s2[..|s0| + 1] == s0 + [x]
    ensures s2[..|s0|] == s0 && s2[|s0|..] == [x] + s2[|s0| + 1..]
  {
    assert s2[..|s0|] == s2[..|s0| + 1][..|s0|];
  }

  /** The sync history `r` extends `st`'s by at most `n` syncs, spaced by `gap`, the last of them being
      the time of the last sync. */
  predicate IntervalHistory(st: JournalState, r: JournalState, n: nat, gap: nat)
  {
    |st.syncs| <= |r.syncs| <= |st.syncs| + n && r.syncs[..|st.syncs|] == st.syncs
    && Spaced(st.lastSync, r.syncs[|st.syncs|..], gap)
    && r.lastSync == if |r.syncs| == |st.syncs| then st.lastSync else r.syncs[|r.syncs| - 1].1
  }

  /** A sync at `x`, or none, before a history from `st1` makes a history from `st`. */
  lemma IntervalHistoryCons(st: JournalState, st1: JournalState, r: JournalState, x: (string, nat), synced: bool,
                            n: nat, gap: nat)
    requires synced ==> st1.syncs == st.syncs + [x] && st1.lastSync == x.1 && Elapsed(st.lastSync, x.1) >= gap
    requires !synced ==> st1.syncs == st.syncs && st1.lastSync == st.lastSync
    requires IntervalHistory(st1, r, n, gap)
    ensures IntervalHistory(st, r, n + 1, gap)
  {
    if synced {
      PrefixCons(st.syncs, x, r.syncs);
      assert r.syncs[|st.syncs|..] == [x] + r.syncs[|st1.syncs|..];
      assert ([x] + r.syncs[|st1.syncs|..])[1..] == r.syncs[|st1.syncs|..];
      if |r.syncs| == |st1.syncs| {
        assert r.syncs[|r.syncs| - 1] == (st.syncs + [x])[|st.syncs|];
      }
    }
  }

  /** Under `IntervalMs(ms)` the syncs of a batch are added after the earlier ones, each at least `ms`
      milliseconds after the sync before it, and the last of them becomes the time of the last sync. */
  lemma FlushAllIntervalSyncs(st: JournalState, recs: seq<StoredMessageRecord>, clock: seq<nat>,
                              policy: DurabilityPolicy, codec: RecordCodec)
    requires |clock| == |recs| && policy.IntervalMs?
    ensures IntervalHistory(st, FlushAll(st, recs, clock, policy, codec), |recs|, policy.ms * NANOS_PER_MILLI)
    decreases |recs|, 1
  {
    if recs == [] {
      assert st.syncs[|st.syncs|..] == [];
    } else {
      FlushAllIntervalSyncsStep(st, recs, clock, policy, codec);
    }
  }

  lemma FlushAllIntervalSyncsStep(st: JournalState, recs: seq<StoredMessageRecord>, clock: seq<nat>,
                                  policy: DurabilityPolicy, codec: RecordCodec)
    requires |clock| == |recs| && policy.IntervalMs? && recs != []
    ensures IntervalHistory(st, FlushAll(st, recs, clock, policy, codec), |recs|, policy.ms * NANOS_PER_MILLI)
    decreases |recs|, 0
  {
    var st1 := FlushOne(st, recs[0], clock[0], policy, codec);
    FlushAllStep(st, recs, clock, policy, codec);
    FlushOneSyncs(st, recs[0], clock[0], policy, codec);
    FlushAllIntervalSyncs(st1, recs[1..], clock[1..], policy, codec);
    IntervalHistoryCons(st, st1, FlushAll(st1, recs[1..], clock[1..], policy, codec), (DataPath(recs[0].session), clock[0]),
                        SyncDecision(policy, st.lastSync, clock[0]).sync, |recs[1..]|, policy.ms * NANOS_PER_MILLI);
  }

  /** Where an indexed record's line starts in the data file, and the record. */
  datatype Slot = Slot(offset: U64, rec: StoredMessageRecord)

  function SlotOffset(s: Slot): U64 { s.offset }

  function SlotRecord(s: Slot): StoredMessageRecord { s.rec }

  /** A record keyed by its sequence number, if it gets an index line. */
  function HeadSequenced(rec: StoredMessageRecord): seq<(U32, StoredMessageRecord)>
  {
    if Indexed(rec) then [(rec.seqNo.value, rec)] else []
  }

  /** The outbound records with a sequence number, keyed by it. */
  function Sequenced(rs: seq<StoredMessageRecord>): (r: seq<(U32, StoredMessageRecord)>)
    ensures |r| <= |rs|
  {
    if rs == [] then [] else HeadSequenced(rs[0]) + Sequenced(rs[1..])
  }

  lemma SequencedHead(rs: seq<StoredMessageRecord>)
    requires rs != []
    ensures Sequenced(rs) == HeadSequenced(rs[0]) + Sequenced(rs[1..])
  {
  }

  /** The slot of a record whose line starts `base` bytes into the data file, if it has one. */
  function HeadSlot(rec: StoredMessageRecord, base: U64): seq<(U32, Slot)>
  {
    if Indexed(rec) then [(rec.seqNo.value, Slot(base, rec))] else []
  }

  /** The records of `Sequenced(rs)` with the offsets their lines get after `base` bytes. */
  function Slots(codec: RecordCodec, rs: seq<StoredMessageRecord>, base: nat): seq<(U32, Slot)>
    requires base + |DataBytes(codec, rs)| <= I64_MAX
  {
    if rs == [] then [] else HeadSlot(rs[0], base as U64) + Slots(codec, rs[1..], base + |RecordLine(codec, rs[0])|)
  }

  lemma SlotsCons(codec: RecordCodec, rs: seq<StoredMessageRecord>, base: nat)
    requires rs != [] && base + |DataBytes(codec, rs)| <= I64_MAX
    ensures base + |RecordLine(codec, rs[0])| + |DataBytes(codec, rs[1..])| <= I64_MAX
    ensures Slots(codec, rs, base) == HeadSlot(rs[0], base as U64) + Slots(codec, rs[1..], base + |RecordLine(codec, rs[0])|)
  {
  }

  lemma SlotRecordsCons(codec: RecordCodec, rs: seq<StoredMessageRecord>, base: nat)
    requires rs != [] && base + |DataBytes(codec, rs)| <= I64_MAX
    ensures base + |RecordLine(codec, rs[0])| + |DataBytes(codec, rs[1..])| <= I64_MAX
    ensures MapValues(Slots(codec, rs, base), SlotRecord)
         == HeadSequenced(rs[0]) + MapValues(Slots(codec, rs[1..], base + |RecordLine(codec, rs[0])|), SlotRecord)
  {
    SlotsCons(codec, rs, base);
    MapValuesAppend(HeadSlot(rs[0], base as U64), Slots(codec, rs[1..], base + |RecordLine(codec, rs[0])|), SlotRecord);
    assert MapValues(HeadSlot(rs[0], base as U64), SlotRecord) == HeadSequenced(rs[0]);
  }

  /** The slots hold exactly the sequenced records, in order. */
  lemma SlotRecords(codec: RecordCodec, rs: seq<StoredMessageRecord>, base: nat)
    requires base + |DataBytes(codec, rs)| <= I64_MAX
    ensures MapValues(Slots(codec, rs, base), SlotRecord) == Sequenced(rs)
    decreases |rs|, 1
  {
    if rs != [] {
      SlotRecordsStep(codec, rs, base);
    }
  }

  lemma SlotRecordsStep(codec: RecordCodec, rs: seq<StoredMessageRecord>, base: nat)
    requires rs != [] && base + |DataBytes(codec, rs)| <= I64_MAX
    ensures MapValues(Slots(codec, rs, base), SlotRecord) == Sequenced(rs)
    decreases |rs|, 0
  {
    SlotRecordsCons(codec, rs, base);
    SlotRecords(codec, rs[1..], base + |RecordLine(codec, rs[0])|);
    SequencedHead(rs);
    var head, tail := HeadSequenced(rs[0]), Sequenced(rs[1..]);
    assert MapValues(Slots(codec, rs, base), SlotRecord) == head + tail;
    assert Sequenced(rs) == head + tail;
  }

  /** The index lines of the slots. */
  function SlotLines(slots: seq<(U32, Slot)>): (r: seq<string>)
    ensures |r| == |slots|
  {
    if slots == [] then [] else [IndexLine(slots[0].0, slots[0].1.offset)] + SlotLines(slots[1..])
  }

  lemma {:induction false} SlotLineAt(slots: seq<(U32, Slot)>, i: nat)
    requires i < |slots|
    ensures SlotLines(slots)[i] == IndexLine(slots[i].0, slots[i].1.offset)
  {
    if i > 0 {
      SlotLineAt(slots[1..], i - 1);
    }
  }

  /** Each slot's index line is a plain line that starts with the slot's sequence number. */
  lemma SlotLinesRead(slots: seq<(U32, Slot)>)
    ensures forall i :: 0 <= i < |slots| ==> PlainLine(SlotLines(slots)[i]) && FirstSeq(SlotLines(slots)[i]) == Some(slots[i].0)
  {
    forall i | 0 <= i < |slots|
      ensures PlainLine(SlotLines(slots)[i]) && FirstSeq(SlotLines(slots)[i]) == Some(slots[i].0)
    {
      SlotLineAt(slots, i);
      IndexEntryOfLine(slots[i].0, slots[i].1.offset);
    }
  }

  lemma {:induction false} SlotLinesAppend(a: seq<(U32, Slot)>, b: seq<(U32, Slot)>)
    ensures SlotLines(a + b) == SlotLines(a) + SlotLines(b)
  {
    if a == [] {
      assert a + b == b;
    } else {
      assert (a + b)[1..] == a[1..] + b;
      SlotLinesAppend(a[1..], b);
    }
  }

  lemma JoinLinesCons(l: string, ls: seq<string>)
    ensures JoinLines([l] + ls) == l + "\n" + JoinLines(ls)
  {
    assert ([l] + ls)[1..] == ls;
  }

  /** The index bytes of one record, `base` bytes into its data file. */
  function HeadIndexBytes(rec: StoredMessageRecord, base: nat): seq<Byte>
  {
    if Indexed(rec) then Utf8.Encode(IndexLine(rec.seqNo.value, base) + "\n") else []
  }

  lemma IndexBytesHead(codec: RecordCodec, rs: seq<StoredMessageRecord>, base: nat)
    requires rs != []
    ensures IndexBytes(codec, rs, base) == HeadIndexBytes(rs[0], base) + IndexBytes(codec, rs[1..], base + |RecordLine(codec, rs[0])|)
  {
  }

  /** The bytes of the slots' index lines, each followed by a newline. */
  function SlotIndexBytes(slots: seq<(U32, Slot)>): seq<Byte>
  {
    if slots == [] then [] else Utf8.Encode(IndexLine(slots[0].0, slots[0].1.offset) + "\n") + SlotIndexBytes(slots[1..])
  }

  lemma SlotIndexBytesHead(rec: StoredMessageRecord, base: U64, rest: seq<(U32, Slot)>)
    ensures SlotIndexBytes(HeadSlot(rec, base) + rest) == HeadIndexBytes(rec, base) + SlotIndexBytes(rest)
  {
    if Indexed(rec) {
      assert (HeadSlot(rec, base) + rest)[1..] == rest;
    } else {
      assert HeadSlot(rec, base) + rest == rest;
    }
  }

  lemma SlotIndexBytesCons(codec: RecordCodec, rs: seq<StoredMessageRecord>, base: nat)
    requires rs != [] && base + |DataBytes(codec, rs)| <= I64_MAX
    ensures base + |RecordLine(codec, rs[0])| + |DataBytes(codec, rs[1..])| <= I64_MAX
    ensures SlotIndexBytes(Slots(codec, rs, base))
         == HeadIndexBytes(rs[0], base) + SlotIndexBytes(Slots(codec, rs[1..], base + |RecordLine(codec, rs[0])|))
  {
    SlotsCons(codec, rs, base);
    SlotIndexBytesHead(rs[0], base as U64, Slots(codec, rs[1..], base + |RecordLine(codec, rs[0])|));
  }

  /** The index bytes written are the index lines of the slots. */
  lemma IndexBytesOfSlots(codec: RecordCodec, rs: seq<StoredMessageRecord>, base: nat)
    requires base + |DataBytes(codec, rs)| <= I64_MAX
    ensures IndexBytes(codec, rs, base) == SlotIndexBytes(Slots(codec, rs, base))
    decreases |rs|, 1
  {
    if rs != [] {
      IndexBytesOfSlotsStep(codec, rs, base);
    }
  }

  lemma IndexBytesOfSlotsStep(codec: RecordCodec, rs: seq<StoredMessageRecord>, base: nat)
    requires rs != [] && base + |DataBytes(codec, rs)| <= I64_MAX
    ensures IndexBytes(codec, rs, base) == SlotIndexBytes(Slots(codec, rs, base))
    decreases |rs|, 0
  {
    SlotIndexBytesCons(codec, rs, base);
    IndexBytesOfSlots(codec, rs[1..], base + |RecordLine(codec, rs[0])|);
    IndexBytesHead(codec, rs, base);
    var head, tail := HeadIndexBytes(rs[0], base), IndexBytes(codec, rs[1..], base + |RecordLine(codec, rs[0])|);
    assert IndexBytes(codec, rs, base) == head + tail;
    assert SlotIndexBytes(Slots(codec, rs, base)) == head + tail;
  }

  /** They are the text of the index lines, each followed by a newline. */
  lemma {:induction false} SlotIndexText(slots: seq<(U32, Slot)>)
    ensures SlotIndexBytes(slots) == Utf8.Encode(JoinLines(SlotLines(slots)))
  {
    if slots != [] {
      var l := IndexLine(slots[0].0, slots[0].1.offset);
      SlotIndexText(slots[1..]);
      assert SlotLines(slots) == [l] + SlotLines(slots[1..]);
      JoinLinesCons(l, SlotLines(slots[1..]));
      Utf8.EncodeAppend(l + "\n", JoinLines(SlotLines(slots[1..])));
    }
  }

  /** An index line parses back to its sequence number and offset. */
  lemma IndexEntryOfLine(seqNo: U32, offset: U64)
    ensures IndexEntry(IndexLine(seqNo, offset)) == Some((seqNo, offset))
    ensures FirstSeq(IndexLine(seqNo, offset)) == Some(seqNo)
  {
    var a, b := DecimalText(seqNo), DecimalText(offset);
    assert forall i :: 0 <= i < |a| ==> !IsWhitespace(a[i]);
    assert forall i :: 0 <= i < |b| ==> !IsWhitespace(b[i]);
    TokensOfTwoWords(a, b);
    ParseDecimalText(seqNo, U32_MAX);
    ParseDecimalText(offset, U64_MAX);
  }

  /** The entry a slot gives when read back, if it is in range. */
  function SlotEntry(s: (U32, Slot), begin: U32, end: U32): seq<(U32, U64)>
  {
    if begin <= s.0 <= end then [(s.0, s.1.offset)] else []
  }

  lemma RangeEntriesOfLastSlot(slots: seq<(U32, Slot)>, begin: U32, end: U32)
    requires slots != []
    ensures RangeEntries(SlotLines(slots), begin, end)
         == RangeEntries(SlotLines(slots[..|slots| - 1]), begin, end) + SlotEntry(slots[|slots| - 1], begin, end)
  {
    var init, last := slots[..|slots| - 1], slots[|slots| - 1];
    var l := IndexLine(last.0, last.1.offset);
    SnocSplit(slots);
    SlotLinesAppend(init, [last]);
    assert SlotLines([last]) == [l];
    IndexEntryOfLine(last.0, last.1.offset);
    assert (SlotLines(init) + [l])[..|SlotLines(init)|] == SlotLines(init);
  }

  lemma OffsetsOfLastSlot(slots: seq<(U32, Slot)>, begin: U32, end: U32)
    requires slots != []
    ensures MapValues(InRange(slots, begin, end), SlotOffset)
         == MapValues(InRange(slots[..|slots| - 1], begin, end), SlotOffset) + SlotEntry(slots[|slots| - 1], begin, end)
  {
    var init, last := slots[..|slots| - 1], slots[|slots| - 1];
    SnocSplit(slots);
    InRangeSnoc(init, last, begin, end);
    MapValuesAppend(InRange(init, begin, end), if begin <= last.0 <= end then [last] else [], SlotOffset);
  }

  /** The entries read from the slots' index lines are the slots in range, with their offsets. */
  lemma RangeEntriesOfSlots(slots: seq<(U32, Slot)>, begin: U32, end: U32)
    ensures RangeEntries(SlotLines(slots), begin, end) == MapValues(InRange(slots, begin, end), SlotOffset)
    decreases |slots|, 1
  {
    if slots != [] {
      RangeEntriesOfSlotsStep(slots, begin, end);
    }
  }

  lemma RangeEntriesOfSlotsStep(slots: seq<(U32, Slot)>, begin: U32, end: U32)
    requires slots != []
    ensures RangeEntries(SlotLines(slots), begin, end) == MapValues(InRange(slots, begin, end), SlotOffset)
    decreases |slots|, 0
  {
    RangeEntriesOfLastSlot(slots, begin, end);
    OffsetsOfLastSlot(slots, begin, end);
    RangeEntriesOfSlots(slots[..|slots| - 1], begin, end);
    var init, last := RangeEntries(SlotLines(slots[..|slots| - 1]), begin, end), SlotEntry(slots[|slots| - 1], begin, end);
    assert RangeEntries(SlotLines(slots), begin, end) == init + last;
    assert MapValues(InRange(slots, begin, end), SlotOffset) == init + last;
  }

  /** What the read-back gives for a record: its base64 payload decoded, or nothing when that fails. */
  function RecordPayload(codec: RecordCodec, rec: StoredMessageRecord): seq<seq<Byte>>
  {
    match codec.decodeBase64(rec.payloadB64)
    case None => []
    case Some(bytes) => [bytes]
  }

  /** The payloads read back for records, in order. */
  function RecordPayloads(codec: RecordCodec, recs: seq<StoredMessageRecord>): seq<seq<Byte>>
  {
    if recs == [] then []
    else RecordPayloads(codec, recs[..|recs| - 1]) + RecordPayload(codec, recs[|recs| - 1])
  }

  /** What serde_json promises about a record: its JSON is one line that is not blank, and reading that
      line back, newline included, gives the record. */
  predicate JsonLaws(codec: RecordCodec, rec: StoredMessageRecord)
  {
    PlainLine(codec.toJson(rec)) && !Blank(codec.toJson(rec)) && codec.fromJson(codec.toJson(rec) + "\n") == Some(rec)
  }

  /** `read_line` at the start of a record line returns that line, newline included. */
  lemma ReadRecordLine(codec: RecordCodec, prefix: seq<Byte>, rec: StoredMessageRecord, rest: seq<Byte>)
    requires '\n' !in codec.toJson(rec) && |prefix| <= I64_MAX
    ensures ReadLineAt(prefix + RecordLine(codec, rec) + rest, |prefix|) == Ok(codec.toJson(rec) + "\n")
  {
    var j := codec.toJson(rec);
    var e := Utf8.Encode(j);
    var data := prefix + RecordLine(codec, rec) + rest;
    Utf8.EncodeAppend(j, "\n");
    Utf8.EncodeWithoutNewline(j);
    assert Utf8.Encode("\n") == [NEWLINE];
    var tail := e + [NEWLINE] + rest;
    assert data[|prefix|..] == tail;
    assert tail[|e|] == NEWLINE && tail[..|e|] == e;
    assert LineBytes(tail) == e + [NEWLINE];
    Utf8.DecodeEncode(j + "\n");
    assert Utf8.Decode(LineBytes(data[|prefix|..])) == Some(j + "\n");
  }

  /** A record line can be read back at the slot's offset. */
  predicate ReadableSlot(data: seq<Byte>, codec: RecordCodec, s: Slot)
  {
    ReadLineAt(data, s.offset) == Ok(codec.toJson(s.rec) + "\n")
  }

  /** Every slot can be read back, and serde_json keeps its promises about its record. */
  predicate AllReadable(data: seq<Byte>, codec: RecordCodec, slots: seq<(U32, Slot)>)
  {
    forall i :: 0 <= i < |slots| ==> ReadableSlot(data, codec, slots[i].1) && JsonLaws(codec, slots[i].1.rec)
  }

  lemma AllReadableAppend(data: seq<Byte>, codec: RecordCodec, a: seq<(U32, Slot)>, b: seq<(U32, Slot)>)
    requires AllReadable(data, codec, a) && AllReadable(data, codec, b)
    ensures AllReadable(data, codec, a + b)
  {
    forall i | 0 <= i < |a + b|
      ensures ReadableSlot(data, codec, (a + b)[i].1) && JsonLaws(codec, (a + b)[i].1.rec)
    {
      if i >= |a| {
        assert (a + b)[i] == b[i - |a|];
      }
    }
  }

  /** serde_json keeps its promises about every record of `rs`. */
  predicate AllJson(codec: RecordCodec, rs: seq<StoredMessageRecord>)
    decreases |rs|
  {
    rs == [] || (JsonLaws(codec, rs[0]) && AllJson(codec, rs[1..]))
  }

  lemma {:induction false} AllJsonOf(codec: RecordCodec, rs: seq<StoredMessageRecord>)
    requires forall i :: 0 <= i < |rs| ==> JsonLaws(codec, rs[i])
    ensures AllJson(codec, rs)
  {
    if rs != [] {
      assert forall i :: 0 <= i < |rs[1..]| ==> rs[1..][i] == rs[i + 1];
      AllJsonOf(codec, rs[1..]);
    }
  }

  lemma AllJsonCons(codec: RecordCodec, rs: seq<StoredMessageRecord>)
    requires rs != [] && AllJson(codec, rs)
    ensures JsonLaws(codec, rs[0]) && AllJson(codec, rs[1..])
  {
  }

  lemma AllReadableOfLast(data: seq<Byte>, codec: RecordCodec, s: seq<(U32, Slot)>)
    requires s != [] && AllReadable(data, codec, s)
    ensures AllReadable(data, codec, s[..|s| - 1])
    ensures ReadableSlot(data, codec, s[|s| - 1].1) && JsonLaws(codec, s[|s| - 1].1.rec)
  {
  }

  lemma HeadSlotReadable(codec: RecordCodec, data: seq<Byte>, prefix: seq<Byte>, rs: seq<StoredMessageRecord>, rest: seq<Byte>)
    requires rs != [] && AllJson(codec, rs) && |prefix| <= I64_MAX
    requires data == prefix + DataBytes(codec, rs) + rest
    ensures AllReadable(data, codec, HeadSlot(rs[0], |prefix| as U64))
  {
    if Indexed(rs[0]) {
      DataBytesShift(codec, prefix, rs, rest);
      ReadRecordLine(codec, prefix, rs[0], DataBytes(codec, rs[1..]) + rest);
    }
  }

  lemma DataBytesShift(codec: RecordCodec, prefix: seq<Byte>, rs: seq<StoredMessageRecord>, rest: seq<Byte>)
    requires rs != []
    ensures prefix + DataBytes(codec, rs) + rest == prefix + RecordLine(codec, rs[0]) + (DataBytes(codec, rs[1..]) + rest)
    ensures prefix + DataBytes(codec, rs) + rest == prefix + RecordLine(codec, rs[0]) + DataBytes(codec, rs[1..]) + rest
  {
    var line, tail := RecordLine(codec, rs[0]), DataBytes(codec, rs[1..]);
    assert DataBytes(codec, rs) == line + tail;
    Regroup(prefix, line, tail, rest);
  }

  /** Appending is associative; stated on plain variables, which keeps `DataBytesShift` cheap. */
  lemma Regroup(p: seq<Byte>, a: seq<Byte>, b: seq<Byte>, r: seq<Byte>)
    ensures p + (a + b) + r == p + a + (b + r)
    ensures p + (a + b) + r == p + a + b + r
  {
  }

  lemma DataBytesLength(codec: RecordCodec, prefix: seq<Byte>, rs: seq<StoredMessageRecord>)
    requires rs != []
    ensures |prefix + RecordLine(codec, rs[0])| == |prefix| + |RecordLine(codec, rs[0])|
    ensures |DataBytes(codec, rs)| == |RecordLine(codec, rs[0])| + |DataBytes(codec, rs[1..])|
  {
  }

  /** Every slot of records whose lines follow `prefix`, `base` bytes long, in `data`, can be read back. */
  lemma SlotsReadable(codec: RecordCodec, data: seq<Byte>, prefix: seq<Byte>, base: nat, rs: seq<StoredMessageRecord>, rest: seq<Byte>)
    requires data == prefix + DataBytes(codec, rs) + rest
    requires base == |prefix| && base + |DataBytes(codec, rs)| <= I64_MAX
    requires AllJson(codec, rs)
    ensures AllReadable(data, codec, Slots(codec, rs, base))
    decreases |rs|, 2
  {
    if rs != [] {
      SlotsReadableStep(codec, data, prefix, base, rs, rest);
    }
  }

  lemma SlotsReadableStep(codec: RecordCodec, data: seq<Byte>, prefix: seq<Byte>, base: nat, rs: seq<StoredMessageRecord>, rest: seq<Byte>)
    requires data == prefix + DataBytes(codec, rs) + rest
    requires rs != [] && base == |prefix| && base + |DataBytes(codec, rs)| <= I64_MAX
    requires AllJson(codec, rs)
    ensures AllReadable(data, codec, Slots(codec, rs, base))
    decreases |rs|, 1
  {
    SlotsCons(codec, rs, base);
    SlotsReadableTail(codec, data, prefix, base, rs, rest);
    HeadSlotReadable(codec, data, prefix, rs, rest);
    AllReadableAppend(data, codec, HeadSlot(rs[0], base as U64), Slots(codec, rs[1..], base + |RecordLine(codec, rs[0])|));
    assert HeadSlot(rs[0], base as U64) + Slots(codec, rs[1..], base + |RecordLine(codec, rs[0])|) == Slots(codec, rs, base);
  }

  /** The slots of the records after the first. */
  lemma SlotsReadableTail(codec: RecordCodec, data: seq<Byte>, prefix: seq<Byte>, base: nat, rs: seq<StoredMessageRecord>, rest: seq<Byte>)
    requires data == prefix + DataBytes(codec, rs) + rest
    requires rs != [] && base == |prefix| && base + |DataBytes(codec, rs)| <= I64_MAX
    requires AllJson(codec, rs)
    ensures base + |RecordLine(codec, rs[0])| + |DataBytes(codec, rs[1..])| <= I64_MAX
    ensures AllReadable(data, codec, Slots(codec, rs[1..], base + |RecordLine(codec, rs[0])|))
    decreases |rs|, 0
  {
    DataBytesShift(codec, prefix, rs, rest);
    DataBytesLength(codec, prefix, rs);
    AllJsonCons(codec, rs);
    SlotsReadable(codec, data, prefix + RecordLine(codec, rs[0]), base + |RecordLine(codec, rs[0])|, rs[1..], rest);
  }

  lemma ReadPayloadsSnoc(data: seq<Byte>, es: seq<(U32, U64)>, e: (U32, U64), codec: RecordCodec)
    requires ReadPayloads(data, es, codec).Ok? && ReadLineAt(data, e.1).Ok?
    ensures ReadPayloads(data, es + [e], codec)
         == Ok(ReadPayloads(data, es, codec).value + PayloadOf(codec, ReadLineAt(data, e.1).value))
  {
    assert (es + [e])[..|es|] == es;
  }

  lemma RecordPayloadsSnoc(codec: RecordCodec, recs: seq<StoredMessageRecord>, rec: StoredMessageRecord)
    ensures RecordPayloads(codec, recs + [rec]) == RecordPayloads(codec, recs) + RecordPayload(codec, rec)
  {
    assert (recs + [rec])[..|recs|] == recs;
  }

  /** A record line read back gives the record's payload. */
  lemma PayloadOfRecordLine(codec: RecordCodec, rec: StoredMessageRecord)
    requires JsonLaws(codec, rec)
    ensures PayloadOf(codec, codec.toJson(rec) + "\n") == RecordPayload(codec, rec)
  {
    var j := codec.toJson(rec);
    var i :| 0 <= i < |j| && !IsWhitespace(j[i]);
    assert (j + "\n")[i] == j[i];
  }

  lemma ReadLastSlot(data: seq<Byte>, codec: RecordCodec, s: seq<(U32, Slot)>)
    requires s != [] && AllReadable(data, codec, s)
    requires ReadPayloads(data, MapValues(s[..|s| - 1], SlotOffset), codec).Ok?
    ensures ReadPayloads(data, MapValues(s, SlotOffset), codec)
         == Ok(ReadPayloads(data, MapValues(s[..|s| - 1], SlotOffset), codec).value + RecordPayload(codec, s[|s| - 1].1.rec))
  {
    var init, last := s[..|s| - 1], s[|s| - 1];
    AllReadableOfLast(data, codec, s);
    SnocSplit(s);
    MapValuesSnoc(init, last, SlotOffset);
    ReadPayloadsSnoc(data, MapValues(init, SlotOffset), (last.0, last.1.offset), codec);
    PayloadOfRecordLine(codec, last.1.rec);
  }

  lemma RecordPayloadsOfLastSlot(codec: RecordCodec, s: seq<(U32, Slot)>)
    requires s != []
    ensures RecordPayloads(codec, Values(MapValues(s, SlotRecord)))
         == RecordPayloads(codec, Values(MapValues(s[..|s| - 1], SlotRecord))) + RecordPayload(codec, s[|s| - 1].1.rec)
  {
    var init, last := s[..|s| - 1], s[|s| - 1];
    SnocSplit(s);
    MapValuesSnoc(init, last, SlotRecord);
    ValuesSnoc(MapValues(init, SlotRecord), (last.0, last.1.rec));
    RecordPayloadsSnoc(codec, Values(MapValues(init, SlotRecord)), last.1.rec);
  }

  /** Reading records at readable slots, in any order, gives their payloads in that order. */
  lemma ReadSlots(data: seq<Byte>, codec: RecordCodec, s: seq<(U32, Slot)>)
    requires AllReadable(data, codec, s)
    ensures ReadPayloads(data, MapValues(s, SlotOffset), codec) == Ok(RecordPayloads(codec, Values(MapValues(s, SlotRecord))))
    decreases |s|, 1
  {
    if s != [] {
      ReadSlotsStep(data, codec, s);
    }
  }

  lemma ReadSlotsStep(data: seq<Byte>, codec: RecordCodec, s: seq<(U32, Slot)>)
    requires s != [] && AllReadable(data, codec, s)
    ensures ReadPayloads(data, MapValues(s, SlotOffset), codec) == Ok(RecordPayloads(codec, Values(MapValues(s, SlotRecord))))
    decreases |s|, 0
  {
    AllReadableOfLast(data, codec, s);
    ReadSlots(data, codec, s[..|s| - 1]);
    ReadLastSlot(data, codec, s);
    RecordPayloadsOfLastSlot(codec, s);
  }

  /** Reading back the index lines of the slots gives, sorted, the offsets of the slots in range. */
  lemma EntriesOfSlots(slots: seq<(U32, Slot)>, begin: U32, end: U32)
    ensures SortByKey(RangeEntries(Lines(JoinLines(SlotLines(slots))), begin, end))
         == MapValues(SortByKey(InRange(slots, begin, end)), SlotOffset)
  {
    SlotLinesRead(slots);
    LinesOfJoinLines(SlotLines(slots));
    RangeEntriesOfSlots(slots, begin, end);
    SortByKeyMapValues(InRange(slots, begin, end), SlotOffset);
  }

  /** The records behind the sorted slots in range are the sequenced records in range, sorted. */
  lemma RecordsOfSlots(codec: RecordCodec, rs: seq<StoredMessageRecord>, base: nat, begin: U32, end: U32)
    requires base + |DataBytes(codec, rs)| <= I64_MAX
    ensures MapValues(SortByKey(InRange(Slots(codec, rs, base), begin, end)), SlotRecord)
         == SortByKey(InRange(Sequenced(rs), begin, end))
  {
    SlotRecords(codec, rs, base);
    InRangeMapValues(Slots(codec, rs, base), SlotRecord, begin, end);
    SortByKeyMapValues(InRange(Slots(codec, rs, base), begin, end), SlotRecord);
  }

  /** Slots taken from readable slots are readable. */
  lemma AllReadableSubset(data: seq<Byte>, codec: RecordCodec, a: seq<(U32, Slot)>, b: seq<(U32, Slot)>)
    requires AllReadable(data, codec, b) && forall x :: x in a ==> x in b
    ensures AllReadable(data, codec, a)
  {
    forall i | 0 <= i < |a|
      ensures ReadableSlot(data, codec, a[i].1) && JsonLaws(codec, a[i].1.rec)
    {
      assert a[i] in b;
      var k :| 0 <= k < |b| && b[k] == a[i];
    }
  }

  /** Choosing slots in range and sorting them keeps them readable. */
  lemma AllReadableOfSorted(data: seq<Byte>, codec: RecordCodec, slots: seq<(U32, Slot)>, begin: U32, end: U32)
    requires AllReadable(data, codec, slots)
    ensures AllReadable(data, codec, SortByKey(InRange(slots, begin, end)))
  {
    SortedInRangeFrom(slots, begin, end);
    AllReadableSubset(data, codec, SortByKey(InRange(slots, begin, end)), slots);
  }

  /** Reading the records at the sorted slots in range gives their payloads. */
  lemma ReadSortedSlots(codec: RecordCodec, prefix: seq<Byte>, rs: seq<StoredMessageRecord>, begin: U32, end: U32)
    requires |prefix| + |DataBytes(codec, rs)| <= I64_MAX
    requires AllJson(codec, rs)
    ensures ReadPayloads(prefix + DataBytes(codec, rs), MapValues(SortByKey(InRange(Slots(codec, rs, |prefix|), begin, end)), SlotOffset), codec)
         == Ok(RecordPayloads(codec, Values(MapValues(SortByKey(InRange(Slots(codec, rs, |prefix|), begin, end)), SlotRecord))))
  {
    assert prefix + DataBytes(codec, rs) == prefix + DataBytes(codec, rs) + [];
    SlotsReadable(codec, prefix + DataBytes(codec, rs), prefix, |prefix|, rs, []);
    AllReadableOfSorted(prefix + DataBytes(codec, rs), codec, Slots(codec, rs, |prefix|), begin, end);
    ReadSlots(prefix + DataBytes(codec, rs), codec, SortByKey(InRange(Slots(codec, rs, |prefix|), begin, end)));
  }

  /** The index file of `k` after a flush into a store without one for its stem. */
  lemma IndexAfterFlush(st: JournalState, recs: seq<StoredMessageRecord>, clock: seq<nat>,
                        policy: DurabilityPolicy, codec: RecordCodec, k: SessionKey)
    requires |clock| == |recs|
    requires IndexPath(k) !in st.files
    requires |FileOr(st.files, DataPath(k))| + |DataBytes(codec, ForStem(recs, FileStem(k)))| <= I64_MAX
    ensures var files := FlushAll(st, recs, clock, policy, codec).files;
      var slots := Slots(codec, ForStem(recs, FileStem(k)), |FileOr(st.files, DataPath(k))|);
      (slots == [] ==> IndexPath(k) !in files)
      && (slots != [] ==> ReadText(files, IndexPath(k)) == Ok(JoinLines(SlotLines(slots))))
  {
    var files := FlushAll(st, recs, clock, policy, codec).files;
    var rs := ForStem(recs, FileStem(k));
    var prefix := FileOr(st.files, DataPath(k));
    var content := JoinLines(SlotLines(Slots(codec, rs, |prefix|)));
    FlushAllIndex(st, recs, clock, policy, codec, k);
    IndexBytesOfSlots(codec, rs, |prefix|);
    SlotIndexText(Slots(codec, rs, |prefix|));
    Utf8.EncodeLength(content);
    assert FileOr(st.files, IndexPath(k)) == [];
    if content != [] {
      DecodeEncoded(content);
      assert files[IndexPath(k)] == Utf8.Encode(content);
    }
  }

  /** The data file of `k` after a flush that wrote a record of its stem. */
  lemma DataAfterFlush(st: JournalState, recs: seq<StoredMessageRecord>, clock: seq<nat>,
                       policy: DurabilityPolicy, codec: RecordCodec, k: SessionKey)
    requires |clock| == |recs|
    requires |FileOr(st.files, DataPath(k))| + |DataBytes(codec, ForStem(recs, FileStem(k)))| <= I64_MAX
    requires Slots(codec, ForStem(recs, FileStem(k)), |FileOr(st.files, DataPath(k))|) != []
    ensures var files := FlushAll(st, recs, clock, policy, codec).files;
      DataPath(k) in files
      && files[DataPath(k)] == FileOr(st.files, DataPath(k)) + DataBytes(codec, ForStem(recs, FileStem(k)))
  {
    FlushAllData(st, recs, clock, policy, codec, k);
  }

  /** `load_outbound_range` over an index file that reads as `content` and an existing data file. */
  lemma OutboundRangeOfIndex(files: map<string, seq<Byte>>, codec: RecordCodec, k: SessionKey, begin: U32, end: U32, content: string)
    requires ReadText(files, IndexPath(k)) == Ok(content) && DataPath(k) in files
    ensures OutboundRangeOf(files, codec, k, begin, end)
         == ReadPayloads(files[DataPath(k)], SortByKey(RangeEntries(Lines(content), begin, end)), codec)
  {
  }

  /** Reading back files that hold the slots of `rs`, after `prefix` in the data file. */
  lemma RangeOfSlotFiles(files: map<string, seq<Byte>>, codec: RecordCodec, k: SessionKey, begin: U32, end: U32,
                         prefix: seq<Byte>, rs: seq<StoredMessageRecord>)
    requires |prefix| + |DataBytes(codec, rs)| <= I64_MAX
    requires AllJson(codec, rs)
    requires ReadText(files, IndexPath(k)) == Ok(JoinLines(SlotLines(Slots(codec, rs, |prefix|))))
    requires DataPath(k) in files && files[DataPath(k)] == prefix + DataBytes(codec, rs)
    ensures OutboundRangeOf(files, codec, k, begin, end)
         == Ok(RecordPayloads(codec, Values(SortByKey(InRange(Sequenced(rs), begin, end)))))
  {
    OutboundRangeOfIndex(files, codec, k, begin, end, JoinLines(SlotLines(Slots(codec, rs, |prefix|))));
    EntriesOfSlots(Slots(codec, rs, |prefix|), begin, end);
    ReadSortedSlots(codec, prefix, rs, begin, end);
    RecordsOfSlots(codec, rs, |prefix|, begin, end);
  }

  lemma AllJsonOfForStem(codec: RecordCodec, recs: seq<StoredMessageRecord>, stem: string)
    requires forall i :: 0 <= i < |recs| ==> JsonLaws(codec, recs[i])
    ensures AllJson(codec, ForStem(recs, stem))
  {
    var rs := ForStem(recs, stem);
    forall i | 0 <= i < |rs|
      ensures JsonLaws(codec, rs[i])
    {
      var j :| 0 <= j < |recs| && recs[j] == rs[i];
    }
    AllJsonOf(codec, rs);
  }

  /**
   * The round trip of the file journal: after a batch is flushed into a store with no index file yet
   * for the stem of `k`, `load_outbound_range` for `k` returns the payloads of the batch's outbound
   * records with a sequence number in `[begin, end]` and the stem of `k`, sorted stably by sequence
   * number. It needs serde_json's promises about the records and a data file of at most `i64::MAX` bytes.
   */
  lemma RecoverOutboundRange(st: JournalState, recs: seq<StoredMessageRecord>, clock: seq<nat>,
                             policy: DurabilityPolicy, codec: RecordCodec, k: SessionKey, begin: U32, end: U32)
    requires |clock| == |recs|
    requires IndexPath(k) !in st.files
    requires forall i :: 0 <= i < |recs| ==> JsonLaws(codec, recs[i])
    requires |FileOr(st.files, DataPath(k))| + |DataBytes(codec, ForStem(recs, FileStem(k)))| <= I64_MAX
    ensures OutboundRangeOf(FlushAll(st, recs, clock, policy, codec).files, codec, k, begin, end)
      == Ok(RecordPayloads(codec, Values(SortByKey(InRange(Sequenced(ForStem(recs, FileStem(k))), begin, end)))))
  {
    var rs := ForStem(recs, FileStem(k));
    var prefix := FileOr(st.files, DataPath(k));
    IndexAfterFlush(st, recs, clock, policy, codec, k);
    SlotRecords(codec, rs, |prefix|);
    if Slots(codec, rs, |prefix|) != [] {
      DataAfterFlush(st, recs, clock, policy, codec, k);
      AllJsonOfForStem(codec, recs, FileStem(k));
      RangeOfSlotFiles(FlushAll(st, recs, clock, policy, codec).files, codec, k, begin, end, prefix, rs);
    } else {
      assert Sequenced(rs) == [];
    }
  }

  /** `m` is the largest key of `s`, and some entry has it. */
  predicate IsMaxKey<T>(s: seq<(U32, T)>, m: U32)
  {
    (exists i :: 0 <= i < |s| && s[i].0 == m) && forall i :: 0 <= i < |s| ==> s[i].0 <= m
  }

  lemma IsMaxKeyMapValues<T, U>(s: seq<(U32, T)>, f: T -> U, m: U32)
    requires IsMaxKey(s, m)
    ensures IsMaxKey(MapValues(s, f), m)
  {
    var i :| 0 <= i < |s| && s[i].0 == m;
    assert MapValues(s, f)[i].0 == m;
  }

  /** The fold over lines that start with the keys of `s` gives the largest key. */
  lemma MaxSeqOfKeys<T>(lines: seq<string>, s: seq<(U32, T)>)
    requires |lines| == |s| && s != []
    requires forall i :: 0 <= i < |s| ==> FirstSeq(lines[i]) == Some(s[i].0)
    ensures MaxSeq(lines).Some? && IsMaxKey(s, MaxSeq(lines).value)
  {
    MaxSeqIsMaximum(lines);
    assert FirstSeq(lines[0]).Some?;
    var j :| 0 <= j < |lines| && FirstSeq(lines[j]) == MaxSeq(lines);
    assert s[j].0 == MaxSeq(lines).value;
  }

  /** The largest sequence number in the slots' index lines is the largest key of the slots. */
  lemma MaxOfSlots(slots: seq<(U32, Slot)>)
    requires slots != []
    ensures MaxSeq(Lines(JoinLines(SlotLines(slots)))).Some?
    ensures IsMaxKey(slots, MaxSeq(Lines(JoinLines(SlotLines(slots)))).value)
  {
    SlotLinesRead(slots);
    LinesOfJoinLines(SlotLines(slots));
    MaxSeqOfKeys(SlotLines(slots), slots);
  }

  /** And `last_outbound_seq` for `k` then gives the largest sequence number among those records, or
      nothing when there is none. */
  lemma RecoverLastOutboundSeq(st: JournalState, recs: seq<StoredMessageRecord>, clock: seq<nat>,
                               policy: DurabilityPolicy, codec: RecordCodec, k: SessionKey)
    requires |clock| == |recs|
    requires IndexPath(k) !in st.files
    requires |FileOr(st.files, DataPath(k))| + |DataBytes(codec, ForStem(recs, FileStem(k)))| <= I64_MAX
    ensures var r := LastOutboundSeqOf(FlushAll(st, recs, clock, policy, codec).files, k);
      var sent := Sequenced(ForStem(recs, FileStem(k)));
      r.Ok? && (r.value.None? <==> sent == []) && (r.value.Some? ==> IsMaxKey(sent, r.value.value))
  {
    var rs := ForStem(recs, FileStem(k));
    var prefix := FileOr(st.files, DataPath(k));
    var slots := Slots(codec, rs, |prefix|);
    IndexAfterFlush(st, recs, clock, policy, codec, k);
    SlotRecords(codec, rs, |prefix|);
    if slots != [] {
      MaxOfSlots(slots);
      IsMaxKeyMapValues(slots, SlotRecord, MaxSeq(Lines(JoinLines(SlotLines(slots)))).value);
    } else {
      assert Sequenced(rs) == [];
    }
  }
}
