/**
 From the log back to a memtable: the replay loop of `DBImpl::RecoverLogFile` (src/db/db.cpp), up to the
 point where the source discards what it rebuilt.
 */
module Recovery {
  import opened Common
  import opened Coding
  import opened Keys
  import opened Lookup
  import opened Wal
  import opened Memtable
  import opened WriteBatch
  import opened History

  /** A batch as it was written: the sequence it was given and its operations. */
  datatype Logged = Logged(sequence: nat, ops: seq<Op>)

  predicate Loggable(b: Logged) {
    && 1 <= b.sequence && b.sequence + |b.ops| <= MAX_SEQUENCE && |b.ops| < UINT32_LIMIT
    && forall op :: op in b.ops ==> OpFits(op)
  }

  /** The record of a batch, `WriteBatch::Contents`. */
  function LogRecord(b: Logged): (r: seq<byte>)
    requires Loggable(b)
    ensures |r| >= HEADSIZE
  {
    BatchBytes(b.sequence, b.ops)
  }

  function Records(bs: seq<Logged>): seq<seq<byte>>
    requires forall b :: b in bs ==> Loggable(b)
  {
    if bs == [] then [] else Records(DropLast(bs)) + [LogRecord(Last(bs))]
  }

  lemma {:induction false} RecordsConcat(a: seq<Logged>, b: seq<Logged>)
    requires (forall x :: x in a ==> Loggable(x)) && forall x :: x in b ==> Loggable(x)
    ensures (forall x :: x in a + b ==> Loggable(x)) && Records(a + b) == Records(a) + Records(b)
    decreases b
  {
    if b == [] {
      assert a + b == a;
    } else {
      assert DropLast(a + b) == a + DropLast(b) && Last(a + b) == Last(b);
      RecordsConcat(a, DropLast(b));
    }
  }

  function AllWrites(bs: seq<Logged>): seq<Write> {
    if bs == [] then [] else AllWrites(DropLast(bs)) + Writes(Last(bs).sequence, Last(bs).ops)
  }

  lemma {:induction false} AllWritesFit(bs: seq<Logged>)
    requires forall b :: b in bs ==> Loggable(b)
    ensures forall w :: w in AllWrites(bs) ==> Fits(w)
  {
    if bs != [] {
      AllWritesFit(DropLast(bs));
      assert Last(bs) in bs;
    }
  }

  /** The greatest sequence that `Sequence() + Count() - 1` of some batch names, or m. */
  function Highest(m: nat, bs: seq<Logged>): nat {
    if bs == [] then m
    else
      var h, last := Highest(m, DropLast(bs)), Last(bs).sequence + |Last(bs).ops| - 1;
      if last > h then last else h
  }

  /** Each batch is numbered behind the end of the one before it; the last one ends at or below the given sequence. */
  ghost predicate Rising(bs: seq<Logged>, last: int) {
    bs != [] ==>
      && Last(bs).sequence + |Last(bs).ops| - 1 <= last
      && Rising(DropLast(bs), Last(bs).sequence - 1)
  }

  lemma RisingSnoc(bs: seq<Logged>, last: int, b: Logged)
    requires Rising(bs, last) && b.sequence == last + 1
    ensures Rising(bs + [b], last + |b.ops|)
  {
    assert DropLast(bs + [b]) == bs && Last(bs + [b]) == b;
  }

  lemma RisingLater(bs: seq<Logged>, last: int, later: int)
    requires Rising(bs, last) && last <= later
    ensures Rising(bs, later)
  {
  }

  /** For batches numbered one behind the other, the greatest sequence found is where the last one ends. */
  lemma {:induction false} HighestOfRising(m: nat, bs: seq<Logged>, last: int)
    requires Rising(bs, last)
    ensures bs != [] ==> Last(bs).sequence + |Last(bs).ops| - 1 <= last
    ensures Highest(m, bs) ==
            if bs == [] then m
            else if Last(bs).sequence + |Last(bs).ops| - 1 > m then Last(bs).sequence + |Last(bs).ops| - 1
            else m
  {
    if bs != [] {
      HighestOfRising(m, DropLast(bs), Last(bs).sequence - 1);
    }
  }

  // ---------------------------------------------------------------- replay

  /** What a replay has made of the records read so far: the contents of the memtable, none before the first batch. */
  datatype Replayed = Replayed(mem: Option<seq<Entry>>, max_sequence: uint64, state: State)

  /** One record of at least a header's length: its operations are added, then its count is checked. */
  function ReplayOne(r: Replayed, record: seq<byte>): Replayed
    requires |record| >= HEADSIZE
  {
    var (ops, ok) := ScanOps(record[HEADSIZE..]);
    var sequence, count := DecodeFixed64(record), DecodeFixed32(record[8..]);
    var contents := AddOps(if r.mem.Some? then r.mem.value else [], sequence, ops);
    var last := (sequence + count - 1) % UINT64_LIMIT;
    if ok && |ops| == count then Replayed(Some(contents), if last > r.max_sequence then last else r.max_sequence, Ok)
    else Replayed(Some(contents), r.max_sequence, Corruption)
  }

  /** All records: short ones are passed over, the first malformed one ends the replay. */
  function Replay(r: Replayed, records: seq<seq<byte>>): Replayed
    decreases records
  {
    if records == [] || r.state != Ok then r
    else Replay(if |records[0]| < HEADSIZE then r else ReplayOne(r, records[0]), records[1..])
  }

  lemma {:induction false} ReplayConcat(r: Replayed, a: seq<seq<byte>>, b: seq<seq<byte>>)
    ensures Replay(r, a + b) == Replay(Replay(r, a), b)
    decreases a
  {
    if a == [] {
      assert a + b == b;
    } else if r.state == Ok {
      assert (a + b)[0] == a[0] && (a + b)[1..] == a[1..] + b;
      ReplayConcat(if |a[0]| < HEADSIZE then r else ReplayOne(r, a[0]), a[1..], b);
    }
  }

  /** What replaying these batches should give. */
  function Rebuilt(max_in: uint64, bs: seq<Logged>): Replayed
    requires forall b :: b in bs ==> Loggable(b)
  {
    AllWritesFit(bs);
    HighestFits(max_in, bs);
    Replayed(if bs == [] then None else Some(Apply(AllWrites(bs))), Highest(max_in, bs), Ok)
  }

  lemma {:induction false} HighestFits(m: uint64, bs: seq<Logged>)
    requires forall b :: b in bs ==> Loggable(b)
    ensures Highest(m, bs) < UINT64_LIMIT
  {
    if bs != [] {
      HighestFits(m, DropLast(bs));
      assert Last(bs) in bs;
    }
  }

  lemma HeaderOfRecord(b: Logged)
    requires Loggable(b)
    ensures var record := LogRecord(b);
            && DecodeFixed64(record) == b.sequence && DecodeFixed32(record[8..]) == |b.ops|
            && record[HEADSIZE..] == OpsBytes(b.ops)
  {
    HeadFields(b.sequence, |b.ops|, OpsBytes(b.ops));
  }

  /** The record of a batch makes the `Add` calls of the live run. */
  lemma RecordReplays(max_in: uint64, bs: seq<Logged>)
    requires bs != [] && (forall b :: b in bs ==> Loggable(b)) && Loggable(Last(bs))
    ensures ReplayOne(Rebuilt(max_in, DropLast(bs)), LogRecord(Last(bs))) == Rebuilt(max_in, bs)
  {
    hide ScanOps, OpsBytes, AddOps, Apply, BatchBytes, Fits;
    var b := Last(bs);
    HeaderOfRecord(b);
    OpsRoundTrip(b.ops);
    AllWritesFit(DropLast(bs));
    BatchApplies(AllWrites(DropLast(bs)), b.sequence, b.ops);
    NothingApplied(DropLast(bs));
  }

  lemma NothingApplied(bs: seq<Logged>)
    ensures bs == [] ==> AllWrites(bs) == [] && Apply([]) == []
  {
  }

  /** Replaying the records of batches rebuilds the memtable of the live run and finds the greatest sequence. */
  lemma {:induction false} BatchesReplay(max_in: uint64, bs: seq<Logged>)
    requires forall b :: b in bs ==> Loggable(b)
    ensures Replay(Rebuilt(max_in, []), Records(bs)) == Rebuilt(max_in, bs)
  {
    if bs != [] {
      hide Rebuilt, Replay, ReplayOne, Loggable, LogRecord;
      var front, record := DropLast(bs), LogRecord(Last(bs));
      BatchesReplay(max_in, front);
      RecordReplays(max_in, bs);
      ReplayConcat(Rebuilt(max_in, []), Records(front), [record]);
      RebuiltOk(max_in, front);
      OneReplayed(Rebuilt(max_in, front), record);
    }
  }

  lemma OneReplayed(r: Replayed, record: seq<byte>)
    requires r.state == Ok && |record| >= HEADSIZE
    ensures Replay(r, [record]) == ReplayOne(r, record)
  {
  }

  /**
   A front of a record that ends behind its header is malformed: the leading operations are added, then
   Corruption.
   */
  lemma FrontReplays(r: Replayed, b: Logged, n: nat) returns (j: nat)
    requires Loggable(b) && HEADSIZE <= n < |LogRecord(b)|
    ensures j < |b.ops|
    ensures ReplayOne(r, LogRecord(b)[..n])
            == Replayed(Some(AddOps(if r.mem.Some? then r.mem.value else [], b.sequence, b.ops[..j])), r.max_sequence,
                        Corruption)
  {
    hide ScanOps, OpsBytes, AddOps, Head;
    var head, body := Head(b.sequence, |b.ops|), OpsBytes(b.ops);
    var a, rest := body[..n - HEADSIZE], body[n - HEADSIZE..];
    assert LogRecord(b)[..n] == head + a;
    HeadFields(b.sequence, |b.ops|, a);
    assert body == a + rest;
    FrontOps(b.ops, a, rest);
    assert rest != [];
    j := |ScanOps(a).0|;
  }

  lemma RecordsAround(front: seq<Logged>, b: Logged, more: seq<Logged>)
    requires (forall x :: x in front ==> Loggable(x)) && Loggable(b) && forall x :: x in more ==> Loggable(x)
    ensures forall x :: x in front + ([b] + more) ==> Loggable(x)
    ensures Records(front + ([b] + more)) == Records(front) + ([LogRecord(b)] + Records(more))
  {
    hide Loggable, LogRecord;
    assert DropLast([b]) == [] && Records([b]) == [LogRecord(b)];
    RecordsConcat([b], more);
    RecordsConcat(front, [b] + more);
  }

  /**
   The first batch that does not fit its block, whatever is logged behind it. With room for more than its header
   it is found malformed, after its leading operations were added, and ends the recovery. With no room at all
   it and everything behind it are dropped without notice. With less room than a header the replay goes on as
   if the rest of the batch had been logged as a record of its own, at the next block.
   */
  lemma CutBatch(max_in: uint64, front: seq<Logged>, b: Logged, more: seq<Logged>) returns (j: nat)
    requires (forall x :: x in front ==> Loggable(x)) && Loggable(b) && forall x :: x in more ==> Loggable(x)
    requires AllFit(0, Records(front)) && |LogRecord(b)| > Avail(EndOf(0, SplitAll(0, Records(front))))
    ensures j <= |b.ops| && forall x :: x in front + ([b] + more) ==> Loggable(x)
    ensures var p := EndOf(0, SplitAll(0, Records(front)));
            var room, before := Avail(p), Rebuilt(max_in, front);
            var r := Replay(Rebuilt(max_in, []), Delivered(SplitAll(0, Records(front + ([b] + more)))).0);
            && (room == 0 ==> r == before)
            && (0 < room < HEADSIZE ==>
                  r == Replay(before, Delivered(SplitAll(NextBlock(p), [LogRecord(b)[room..]] + Records(more))).0))
            && (room >= HEADSIZE ==>
                  j < |b.ops| && r.state == Corruption && r.max_sequence == before.max_sequence
                  && r.mem == Some(AddOps(if before.mem.Some? then before.mem.value else [], b.sequence, b.ops[..j])))
  {
    hide Split, SplitAll, Avail, Pad, Delivered, AllFit, EndOf, LogRecord, Loggable, Rebuilt, Replay, ReplayOne,
         AddOps, Records;
    var p := EndOf(0, SplitAll(0, Records(front)));
    var record, room := LogRecord(b), Avail(p);
    var start, before := Rebuilt(max_in, []), Rebuilt(max_in, front);
    RecordsAround(front, b, more);
    BehindFitting(Records(front), record, Records(more));
    BatchesReplay(max_in, front);
    RebuiltOk(max_in, front);
    j := 0;
    if room > 0 {
      var rest := Delivered(SplitAll(NextBlock(p), [record[room..]] + Records(more))).0;
      ReplayConcat(start, Records(front), [record[..room]] + rest);
      if room >= HEADSIZE {
        j := FrontReplays(before, b, room);
        MalformedEnds(before, record[..room], rest);
      } else {
        PassedOver(before, record[..room], rest);
      }
    }
  }

  lemma PassedOver(r: Replayed, first: seq<byte>, rest: seq<seq<byte>>)
    requires r.state == Ok && |first| < HEADSIZE
    ensures Replay(r, [first] + rest) == Replay(r, rest)
  {
    assert ([first] + rest)[1..] == rest;
  }

  lemma MalformedEnds(r: Replayed, first: seq<byte>, rest: seq<seq<byte>>)
    requires r.state == Ok && |first| >= HEADSIZE && ReplayOne(r, first).state != Ok
    ensures Replay(r, [first] + rest) == ReplayOne(r, first)
  {
    assert ([first] + rest)[1..] == rest;
  }

  lemma RebuiltOk(max_in: uint64, bs: seq<Logged>)
    requires forall b :: b in bs ==> Loggable(b)
    ensures Rebuilt(max_in, bs).state == Ok
  {
  }

  // the loop

  /** The memtable of the replay, null before the first batch. */
  ghost predicate Is(mem: Memtable?, contents: Option<seq<Entry>>)
    reads mem
  {
    && (mem == null <==> contents == None)
    && (mem != null ==> mem.Valid() && Some(mem.contents) == contents)
  }

  /** The body of the replay loop for a record that is not too short. */
  method ReplayRecord(record: seq<byte>, batch: Batch, before: Memtable?, max_sequence: uint64, ghost r: Replayed)
    returns (mem: Memtable, state: State, newMax: uint64)
    requires HEADSIZE <= |record| < 0x1_0000 && Is(before, r.mem) && r.max_sequence == max_sequence
    modifies batch, before
    ensures mem == before || fresh(mem)
    ensures Is(mem, ReplayOne(r, record).mem) && newMax == ReplayOne(r, record).max_sequence
            && state == ReplayOne(r, record).state
  {
    hide ScanOps, AddOps, DecodeFixed64, DecodeFixed32;
    newMax := max_sequence;
    batch.SetContents(record);
    if before == null {
      mem := new Memtable();
    } else {
      mem := before;
    }
    ScannedFit(record[HEADSIZE..]);
    state := batch.InsertInto(mem);
    if state == Ok {
      var last_seq := (batch.Sequence() + batch.Count() - 1) % UINT64_LIMIT;
      if last_seq > max_sequence {
        newMax := last_seq;
      }
    }
  }

  /** `while (readers.ReadRecord(&record))` */
  method ReplayLoop(reader: Reader, max_in: uint64, ghost records: seq<seq<byte>>, ghost ending: Ending)
    returns (mem: Memtable?, max_sequence: uint64, state: State, last: PhysicalResult)
    requires InFront(reader, records, ending) && forall r :: r in records ==> |r| < 0x1_0000
    modifies reader
    ensures mem != null ==> fresh(mem)
    ensures var r := Replay(Replayed(None, max_in, Ok), records);
            Is(mem, r.mem) && max_sequence == r.max_sequence && state == r.state
    ensures state == Ok ==> Got(false, [], last, [], ending)
  {
    hide InFront, Got, ReplayOne;
    mem, max_sequence, state := null, max_in, Ok;
    var batch := new Batch();
    ghost var r, rest := Replayed(None, max_in, Ok), records;
    ghost var all := Replay(r, records);
    var ok, record;
    ok, record, last := NextRecord(reader, records, ending);
    while ok
      invariant fresh(batch) && (mem != null ==> fresh(mem))
      invariant state == Ok && Read(reader, ok, record, last, rest, ending) && forall x :: x in rest ==> |x| < 0x1_0000
      invariant Is(mem, r.mem) && max_sequence == r.max_sequence && state == r.state && Replay(r, rest) == all
      decreases |rest|
    {
      GotOne(ok, record, last, rest, ending);
      if |record| >= HEADSIZE {
        assert record in rest;
        ghost var was := r;
        r := ReplayOne(r, record);
        mem, state, max_sequence := ReplayRecord(record, batch, mem, max_sequence, was);
        if state != Ok {
          break;
        }
      }
      rest := rest[1..];
      ok, record, last := NextRecord(reader, rest, ending);
    }
    if state == Ok {
      GotNone(ok, record, last, rest, ending);
    }
  }

  /** A record that the reader returns has a 16-bit length. */
  lemma {:induction false} RecordsShort(crc: Crc, file: seq<byte>, p: nat)
    requires p <= |file|
    ensures forall r :: r in ReadAll(crc, true, file, p).0 ==> |r| < 0x1_0000
    decreases |file| - p
  {
    var (r, q) := ReadPhysical(crc, true, file, p);
    if r.Record? {
      ShortRecord(crc, file, p);
      if r.kind == FULL_TYPE {
        RecordsShort(crc, file, q);
      }
    }
  }

  lemma ShortRecord(crc: Crc, file: seq<byte>, p: nat)
    requires p <= |file|
    ensures var (r, q) := ReadPhysical(crc, true, file, p);
            r.Record? ==> |r.payload| < 0x1_0000
  {
  }

  /**
   Recovery of a log file of any bytes: the memtable and the greatest sequence are what replaying the records
   that the reader gets gives. `last` is how the reading ended; a log of block-multiple length has no defined end.
   */
  method RecoverLogFile(file: seq<byte>, crc: Crc, max_in: uint64)
    returns (mem: Memtable?, max_sequence: uint64, state: State, last: PhysicalResult)
    ensures mem != null ==> fresh(mem)
    ensures var (records, ending) := ReadAll(crc, true, file, 0);
            var r := Replay(Replayed(None, max_in, Ok), records);
            && Is(mem, r.mem) && max_sequence == r.max_sequence && state == r.state
            && (state == Ok ==> Got(false, [], last, [], ending))
  {
    RecordsShort(crc, file, 0);
    hide InFront, ReadAll, Replay, Got;
    var reader := OpenLog(crc, file);
    ghost var (records, ending) := ReadAll(crc, true, file, 0);
    mem, max_sequence, state, last := ReplayLoop(reader, max_in, records, ending);
  }

  /** Every batch in a log whose batches fit their blocks is replayed, and the reader comes to its end. */
  lemma FittingLogReplays(crc: Crc, max_in: uint64, bs: seq<Logged>)
    requires (forall b :: b in bs ==> Loggable(b)) && AllFit(0, Records(bs))
    ensures Placed(0, SplitAll(0, Records(bs)))
    ensures var file := Emit(crc, 0, SplitAll(0, Records(bs)));
            var (records, ending) := ReadAll(crc, true, file, 0);
            && Replay(Replayed(None, max_in, Ok), records) == Rebuilt(max_in, bs)
            && ending == if |file| % BLOCK == 0 then Undef else AtEof
  {
    hide Emit, SplitAll, Placed, AllFit, ReadAll, Replay;
    LogReadBack(crc, true, Records(bs));
    BatchesReplay(max_in, bs);
  }

  /**
   Log round trip. Records appended to a new log and read until the reader gives up come back exactly if and
   only if each is nonempty and fits the block it was put in.
   */
  method WriteThenRead(crc: Crc, records: seq<seq<byte>>) returns (got: seq<seq<byte>>)
    ensures got == Delivered(SplitAll(0, records)).0
    ensures got == records <==> AllFit(0, records)
  {
    hide SplitAll, Delivered, Placed, Emit, ReadAll, AllFit;
    var file := WriteLog(crc, records);
    LogReadBack(crc, true, records);
    got := ReadLog(crc, file);
  }

  method WriteLog(crc: Crc, records: seq<seq<byte>>) returns (file: seq<byte>)
    ensures Placed(0, SplitAll(0, records)) && file == Emit(crc, 0, SplitAll(0, records))
  {
    var writer := new WalWriter(crc);
    assert records[..0] == [];
    for i := 0 to |records|
      invariant fresh(writer) && writer.Valid() && writer.crc == crc
      invariant Placed(0, SplitAll(0, records[..i])) && writer.file == Emit(crc, 0, SplitAll(0, records[..i]))
    {
      hide Placed, Emit, SplitAll, Split;
      LogGrows(crc, records[..i], records[i]);
      assert records[..i + 1] == records[..i] + [records[i]];
      writer.Appendrecord(records[i]);
    }
    assert records[..|records|] == records;
    file := writer.file;
  }

  method ReadLog(crc: Crc, file: seq<byte>) returns (got: seq<seq<byte>>)
    ensures got == ReadAll(crc, true, file, 0).0
  {
    hide ReadAll, InFront;
    got := [];
    var reader := OpenLog(crc, file);
    ghost var (rest, ending) := ReadAll(crc, true, file, 0);
    var ok, record, last := NextRecord(reader, rest, ending);
    while ok
      invariant fresh(reader) && Read(reader, ok, record, last, rest, ending)
      invariant got + rest == ReadAll(crc, true, file, 0).0
      decreases |rest|
    {
      got := got + [record];
      rest := rest[1..];
      ok, record, last := NextRecord(reader, rest, ending);
    }
  }
}
