/**
 The write-ahead log: framing (src/db/walog.cpp) and read-back (src/db/reader.cpp).

 A log file is a byte sequence; crc32c is an arbitrary function from bytes to 32 bits.
 `Split` says which physical records the writer produces, `Emit` lays physical records out in
 32 KiB blocks, and `ReadPhysical` is one call of the reader at an absolute file position.
 */
module Wal {
  import opened Common
  import opened Coding

  const BLOCK: int := 32768
  const HEADER: int := 7

  const ZERO_TYPE: byte := 0
  const FULL_TYPE: byte := 1
  const FIRST_TYPE: byte := 2
  const MIDDLE_TYPE: byte := 3
  const LAST_TYPE: byte := 4

  type Crc = seq<byte> -> uint32

  datatype Piece = Piece(kind: byte, payload: seq<byte>)

  // ---------------------------------------------------------------- layout

  /** Trailer bytes the writer puts at p before the next header. */
  function Pad(p: nat): (n: nat)
    ensures n < HEADER
  {
    var left := BLOCK - p % BLOCK;
    if left < HEADER then left else 0
  }

  /** Payload room behind the header that follows position p. */
  function Avail(p: nat): (n: nat)
    ensures n <= BLOCK - HEADER
  {
    BLOCK - (p + Pad(p)) % BLOCK - HEADER
  }

  function Zeros(n: nat): (z: seq<byte>)
    ensures |z| == n
  {
    seq(n, _ => 0)
  }

  /** One physical record: checksum, 16-bit length, type, payload. */
  function Physical(crc: Crc, piece: Piece): (r: seq<byte>)
    requires |piece.payload| < 0x1_0000
    ensures |r| == HEADER + |piece.payload|
  {
    Fixed32(crc([piece.kind] + piece.payload))
    + [|piece.payload| % 256, |piece.payload| / 256, piece.kind] + piece.payload
  }

  function After(p: nat, piece: Piece): nat {
    p + Pad(p) + HEADER + |piece.payload|
  }

  /** Every payload fits the room left in its block. */
  ghost predicate Placed(p: nat, pieces: seq<Piece>)
    decreases pieces
  {
    pieces != [] ==> |pieces[0].payload| <= Avail(p) && Placed(After(p, pieces[0]), pieces[1..])
  }

  function Emit(crc: Crc, p: nat, pieces: seq<Piece>): seq<byte>
    requires Placed(p, pieces)
    decreases pieces
  {
    if pieces == [] then []
    else Zeros(Pad(p)) + Physical(crc, pieces[0]) + Emit(crc, After(p, pieces[0]), pieces[1..])
  }

  function EndOf(p: nat, pieces: seq<Piece>): nat
    decreases pieces
  {
    if pieces == [] then p else EndOf(After(p, pieces[0]), pieces[1..])
  }

  lemma {:induction false} EmitLength(crc: Crc, p: nat, pieces: seq<Piece>)
    requires Placed(p, pieces)
    ensures p + |Emit(crc, p, pieces)| == EndOf(p, pieces)
    decreases pieces
  {
    if pieces != [] {
      EmitLength(crc, After(p, pieces[0]), pieces[1..]);
    }
  }

  lemma EmitFirst(crc: Crc, p: nat, pieces: seq<Piece>)
    requires pieces != []
    ensures Placed(p, pieces) <==> |pieces[0].payload| <= Avail(p) && Placed(After(p, pieces[0]), pieces[1..])
    ensures Placed(p, pieces) ==>
              Emit(crc, p, pieces)
                == Zeros(Pad(p)) + Physical(crc, pieces[0]) + Emit(crc, After(p, pieces[0]), pieces[1..])
    ensures EndOf(p, pieces) == EndOf(After(p, pieces[0]), pieces[1..])
  {
  }

  lemma {:induction false} EmitConcat(crc: Crc, p: nat, a: seq<Piece>, b: seq<Piece>)
    requires Placed(p, a) && Placed(EndOf(p, a), b)
    ensures Placed(p, a + b)
    ensures Emit(crc, p, a + b) == Emit(crc, p, a) + Emit(crc, EndOf(p, a), b)
    ensures EndOf(p, a + b) == EndOf(EndOf(p, a), b)
    decreases a
  {
    if a == [] {
      assert a + b == b;
    } else {
      hide Avail, Pad, Physical, Zeros, After, Emit, Placed, EndOf;
      var q := After(p, a[0]);
      assert (a + b)[0] == a[0] && (a + b)[1..] == a[1..] + b;
      EmitFirst(crc, p, a);
      EmitFirst(crc, p, a + b);
      EmitConcat(crc, q, a[1..], b);
      Concat3(Zeros(Pad(p)) + Physical(crc, a[0]), Emit(crc, q, a[1..]), Emit(crc, EndOf(p, a), b));
    }
  }

  // ---------------------------------------------------------------- what the writer writes

  /**
   The physical records of one `Appendrecord` call at position p. `begin` is never cleared and
   `end` is only false when the room is zero, so a fragment is `Full` unless it is empty.
   */
  function Split(p: nat, data: seq<byte>): seq<Piece>
    decreases |data|, if Avail(p) == 0 then 1 else 0
  {
    if data == [] then []
    else
      var n := Min(|data|, Avail(p));
      var piece := Piece(if Avail(p) == 0 then FIRST_TYPE else FULL_TYPE, data[..n]);
      [piece] + Split(After(p, piece), data[n..])
  }

  function SplitAll(p: nat, records: seq<seq<byte>>): seq<Piece>
    decreases records
  {
    if records == [] then []
    else Split(p, records[0]) + SplitAll(EndOf(p, Split(p, records[0])), records[1..])
  }

  function Payloads(pieces: seq<Piece>): seq<byte> {
    if pieces == [] then [] else pieces[0].payload + Payloads(pieces[1..])
  }

  /** For records of any size: every fragment is placed inside its block and none of the data is lost. */
  lemma {:induction false} SplitLayout(p: nat, data: seq<byte>)
    ensures Placed(p, Split(p, data))
    ensures Payloads(Split(p, data)) == data
    decreases |data|, if Avail(p) == 0 then 1 else 0
  {
    if data != [] {
      var n := Min(|data|, Avail(p));
      var pieces := Split(p, data);
      assert pieces[1..] == Split(After(p, pieces[0]), data[n..]);
      SplitLayout(After(p, pieces[0]), data[n..]);
      assert data == data[..n] + data[n..];
    }
  }

  /** The first fragment of a nonempty record and the bytes it takes. */
  lemma SplitStep(crc: Crc, p: nat, data: seq<byte>)
    requires data != []
    ensures var n := Min(|data|, Avail(p));
            var piece := Piece(if Avail(p) == 0 then FIRST_TYPE else FULL_TYPE, data[..n]);
            var q := After(p, piece);
            && (n == 0 ==> Avail(q) > 0)
            && Placed(p, Split(p, data)) && Placed(q, Split(q, data[n..]))
            && Emit(crc, p, Split(p, data))
               == Zeros(Pad(p)) + Physical(crc, piece) + Emit(crc, q, Split(q, data[n..]))
  {
    SplitLayout(p, data);
    var pieces := Split(p, data);
    var n := Min(|data|, Avail(p));
    assert pieces[1..] == Split(After(p, pieces[0]), data[n..]);
  }

  lemma {:induction false} SplitAllPlaced(p: nat, records: seq<seq<byte>>)
    ensures Placed(p, SplitAll(p, records))
    decreases records
  {
    if records != [] {
      SplitLayout(p, records[0]);
      var head := Split(p, records[0]);
      SplitAllPlaced(EndOf(p, head), records[1..]);
      EmitConcat(_ => 0, p, head, SplitAll(EndOf(p, head), records[1..]));
    }
  }

  // ---------------------------------------------------------------- a growing log

  lemma {:induction false} SplitAllConcat(p: nat, a: seq<seq<byte>>, b: seq<seq<byte>>)
    ensures SplitAll(p, a + b) == SplitAll(p, a) + SplitAll(EndOf(p, SplitAll(p, a)), b)
    decreases a
  {
    if a == [] {
      assert a + b == b;
    } else {
      var head := Split(p, a[0]);
      var q := EndOf(p, head);
      assert (a + b)[0] == a[0] && (a + b)[1..] == a[1..] + b;
      SplitAllConcat(q, a[1..], b);
      EndOfConcat(p, head, SplitAll(q, a[1..]));
      Concat3(head, SplitAll(q, a[1..]), SplitAll(EndOf(q, SplitAll(q, a[1..])), b));
    }
  }

  lemma SplitAllSnoc(p: nat, records: seq<seq<byte>>, r: seq<byte>)
    ensures SplitAll(p, records + [r]) == SplitAll(p, records) + Split(EndOf(p, SplitAll(p, records)), r)
    ensures Placed(p, SplitAll(p, records))
  {
    SplitAllPlaced(p, records);
    SplitAllConcat(p, records, [r]);
    SplitSingle(EndOf(p, SplitAll(p, records)), r);
  }

  lemma SplitSingle(p: nat, r: seq<byte>)
    ensures SplitAll(p, [r]) == Split(p, r)
  {
    assert SplitAll(p, [r]) == Split(p, r) + [];
  }

  lemma {:induction false} EndOfConcat(p: nat, a: seq<Piece>, b: seq<Piece>)
    ensures EndOf(p, a + b) == EndOf(EndOf(p, a), b)
    decreases a
  {
    if a == [] {
      assert a + b == b;
    } else {
      assert (a + b)[0] == a[0] && (a + b)[1..] == a[1..] + b;
      EndOfConcat(After(p, a[0]), a[1..], b);
    }
  }

  /** Appending a record to the log of a list of records gives the log of the longer list. */
  lemma LogGrows(crc: Crc, records: seq<seq<byte>>, r: seq<byte>)
    ensures Placed(0, SplitAll(0, records)) && Placed(0, SplitAll(0, records + [r]))
    ensures var file := Emit(crc, 0, SplitAll(0, records));
            && Placed(|file|, Split(|file|, r))
            && file + Emit(crc, |file|, Split(|file|, r)) == Emit(crc, 0, SplitAll(0, records + [r]))
  {
    hide Placed, Emit, SplitAll, Split, EndOf;
    SplitAllPlaced(0, records);
    SplitAllPlaced(0, records + [r]);
    SplitAllSnoc(0, records, r);
    EmitLength(crc, 0, SplitAll(0, records));
    var n := EndOf(0, SplitAll(0, records));
    SplitLayout(n, r);
    EmitConcat(crc, 0, SplitAll(0, records), Split(n, r));
  }

  /** Where piece i of the list has its header. */
  function HeaderOf(p: nat, pieces: seq<Piece>, i: nat): nat
    requires i < |pieces|
    decreases i
  {
    if i == 0 then p + Pad(p) else HeaderOf(After(p, pieces[0]), pieces[1..], i - 1)
  }

  /**
   No physical record crosses a block boundary and no header starts in the last six bytes of a
   block; the file holds the record's bytes at its header.
   */
  lemma {:induction false} NoPieceCrossesABlock(crc: Crc, file: seq<byte>, pieces: seq<Piece>, i: nat)
    requires Placed(|file|, pieces) && i < |pieces|
    ensures |pieces[i].payload| < 0x1_0000
    ensures var h, image, total := HeaderOf(|file|, pieces, i), Physical(crc, pieces[i]), file
            + Emit(crc, |file|, pieces);
            && h % BLOCK <= BLOCK - HEADER
            && h / BLOCK == (h + |image| - 1) / BLOCK
            && h + |image| <= |total| && total[h..h + |image|] == image
    decreases i
  {
    var p := |file|;
    var rest := Emit(crc, After(p, pieces[0]), pieces[1..]);
    var start := file + Zeros(Pad(p));
    var more := start + Physical(crc, pieces[0]);
    HeaderPlace(p, |pieces[0].payload|);
    hide Physical, Pad, Avail, Zeros;
    assert file + Emit(crc, p, pieces) == more + rest;
    if i == 0 {
      assert (more + rest)[|start|..|more|] == Physical(crc, pieces[0]);
    } else {
      NoPieceCrossesABlock(crc, more, pieces[1..], i - 1);
    }
  }

  lemma HeaderPlace(p: nat, n: nat)
    requires n <= Avail(p)
    ensures var h := p + Pad(p);
            h % BLOCK <= BLOCK - HEADER && h / BLOCK == (h + HEADER + n - 1) / BLOCK
  {
  }

  class WalWriter {
    var file: seq<byte>
    var block_offset: nat
    const crc: Crc

    constructor (crc: Crc)
      ensures Valid() && file == [] && this.crc == crc
    {
      this.crc := crc;
      file, block_offset := [], 0;
    }

    ghost predicate Valid()
      reads this
    {
      block_offset <= BLOCK && block_offset % BLOCK == |file| % BLOCK
    }

    method Appendrecord(data: seq<byte>)
      requires Valid()
      modifies this
      ensures Valid() && Placed(old(|file|), Split(old(|file|), data))
      ensures file == old(file) + Emit(crc, old(|file|), Split(old(|file|), data))
    {
      SplitLayout(|file|, data);
      var rest := data;
      var begin := true;
      ghost var image := Emit(crc, |file|, Split(|file|, data));
      while rest != []
        invariant Valid() && begin
        invariant Placed(|file|, Split(|file|, rest))
        invariant file + Emit(crc, |file|, Split(|file|, rest)) == old(file) + image
        decreases |rest|, if Avail(|file|) == 0 then 1 else 0
      {
        ghost var p, was := |file|, file;
        SplitStep(crc, p, rest);
        FillTrailer();
        var avail := BLOCK - block_offset - HEADER;
        // `bool end = avail > size ? size : avail`
        var end := if avail > |rest| then |rest| != 0 else avail != 0;
        var kind := if begin && end then FULL_TYPE
                    else if begin then FIRST_TYPE
                    else if end then LAST_TYPE
                    else MIDDLE_TYPE;
        var n := Min(|rest|, avail);
        ghost var piece, padded := Piece(kind, rest[..n]), file;
        Flushphyrecord(kind, rest[..n]);
        assert |file| == After(p, piece);
        Concat4(was, Zeros(Pad(p)), Physical(crc, piece), Emit(crc, |file|, Split(|file|, rest[n..])));
        rest := rest[n..];
      }
    }

    /** The start of the loop body: a room too small for a header is filled with zeros. */
    method FillTrailer()
      requires Valid()
      modifies this
      ensures Valid()
      ensures file == old(file) + Zeros(Pad(old(|file|)))
      ensures BLOCK - block_offset - HEADER == Avail(old(|file|))
    {
      var blockleft := BLOCK - block_offset;
      if blockleft < HEADER {
        if blockleft > 0 {
          file := file + Zeros(blockleft);
        }
        block_offset := 0;
      }
      assert file == old(file) + Zeros(Pad(old(|file|)));
    }

    method Flushphyrecord(kind: byte, payload: seq<byte>)
      requires Valid() && block_offset + HEADER + |payload| <= BLOCK
      modifies this
      ensures Valid() && block_offset == old(block_offset) + HEADER + |payload|
      ensures file == old(file) + Physical(crc, Piece(kind, payload))
    {
      var header := Fixed32(crc([kind] + payload)) + [|payload| % 256, |payload| / 256, kind];
      file := file + header;
      file := file + payload;
      block_offset := block_offset + HEADER + |payload|;
    }
  }

  // ---------------------------------------------------------------- reading back

  /** The outcome of `ReadPhysicalRecord`; `Undefined` is the path that runs off the function's end. */
  datatype PhysicalResult = Record(kind: byte, payload: seq<byte>) | Eof | Bad | Undefined

  /** End of the block of the file that holds position h. */
  function BlockEnd(file: seq<byte>, h: nat): nat {
    Min(h - h % BLOCK + BLOCK, |file|)
  }

  /** Where the reader at position p looks for a header: past the rest of a full block shorter than a header. */
  function SkipTrailer(file: seq<byte>, p: nat): nat {
    var boundary := p - p % BLOCK + BLOCK;
    if boundary - p < HEADER && boundary <= |file| then boundary else p
  }

  /** The header and payload at the front of the unread part of a block, with the bytes consumed. */
  function Parse(crc: Crc, checksum: bool, short: bool, unread: seq<byte>): (r: (PhysicalResult, nat))
    requires |unread| >= HEADER
    ensures r.1 <= |unread|
    ensures r.0.Record? ==> r.1 > 0
  {
    var size := HEADER + unread[4] + 256 * (unread[5] as int);
    if size > |unread| then (if short then Eof else Bad, |unread|)
    else if unread[6] == ZERO_TYPE && size == HEADER then (Bad, |unread|)
    else if checksum && crc(unread[6..size]) != DecodeFixed32(unread[..4]) then (Bad, |unread|)
    else (Record(unread[6], unread[HEADER..size]), size)
  }

  /** One `ReadPhysicalRecord` at position p, with the position after it. */
  function ReadPhysical(crc: Crc, checksum: bool, file: seq<byte>, p: nat): (r: (PhysicalResult, nat))
    requires p <= |file|
    ensures r.1 <= |file|
    ensures r.0.Record? ==> r.1 > p
  {
    var h := SkipTrailer(file, p);
    var end := BlockEnd(file, h);
    if h == |file| && h % BLOCK == 0 then (Undefined, h)
    else if end - h < HEADER then (Eof, end)
    else
      var (result, used) := Parse(crc, checksum, end % BLOCK != 0, file[h..end]);
      (result, h + used)
  }

  /** How a replay loop over `ReadRecord` ends. */
  datatype Ending = AtEof | Stopped | Undef

  /** All records a loop over `ReadRecord` sees: only `Full` ones come through, anything else ends it. */
  function ReadAll(crc: Crc, checksum: bool, file: seq<byte>, p: nat): (seq<seq<byte>>, Ending)
    requires p <= |file|
    decreases |file| - p
  {
    var (r, q) := ReadPhysical(crc, checksum, file, p);
    if r.Record? && r.kind == FULL_TYPE then
      var (rest, ending) := ReadAll(crc, checksum, file, q);
      ([r.payload] + rest, ending)
    else
      ([], if r.Eof? then AtEof else if r.Undefined? then Undef else Stopped)
  }

  lemma SameBlock(file: seq<byte>, h: nat, k: nat)
    requires h + k < BlockEnd(file, h)
    ensures BlockEnd(file, h + k) == BlockEnd(file, h)
  {
    assert (h + k) % BLOCK == h % BLOCK + k;
  }

  class Reader {
    const file: seq<byte>
    const checksum: bool
    const crc: Crc
    var backing_store: seq<byte>
    var eof: bool
    var end_of_buffer_offset: nat

    constructor (file: seq<byte>, checksum: bool, crc: Crc)
      ensures Valid() && Position() == 0
      ensures this.file == file && this.checksum == checksum && this.crc == crc
    {
      this.file, this.checksum, this.crc := file, checksum, crc;
      backing_store, eof, end_of_buffer_offset := [], false, 0;
    }

    /** The buffer is the unread end of the last block read, and `eof` says that block was short. */
    ghost predicate Valid()
      reads this
    {
      && |backing_store| <= end_of_buffer_offset <= |file|
      && backing_store == file[end_of_buffer_offset - |backing_store|..end_of_buffer_offset]
      && (end_of_buffer_offset % BLOCK == 0 <==> !eof)
      && (eof ==> end_of_buffer_offset == |file|)
      && (backing_store != [] ==> BlockEnd(file, Position()) == end_of_buffer_offset)
    }

    ghost function Position(): nat
      reads this
      requires |backing_store| <= end_of_buffer_offset
    {
      end_of_buffer_offset - |backing_store|
    }

    /** Dropping the trailer of a full block does not change what is read. */
    lemma TrailerDropped()
      requires Valid() && !eof && |backing_store| < HEADER
      ensures ReadPhysical(crc, checksum, file, Position())
              == ReadPhysical(crc, checksum, file, end_of_buffer_offset)
    {
    }

    method ReadPhysicalRecord() returns (r: PhysicalResult)
      requires Valid()
      modifies this
      ensures Valid()
      ensures (r, Position()) == ReadPhysical(crc, checksum, file, old(Position()))
    {
      ghost var p := Position();
      while |backing_store| < HEADER
        invariant Valid()
        invariant ReadPhysical(crc, checksum, file, Position()) == ReadPhysical(crc, checksum, file, p)
        decreases |file| - end_of_buffer_offset, !eof
      {
        if eof {
          Consume(|backing_store|);
          return Eof;
        }
        TrailerDropped();
        var readsize := ReadBlock();
        if readsize <= 0 {
          return Undefined;
        }
      }
      r := ParseHeader();
    }

    /** `backing_store_.clear()` and the read of the next block. */
    method ReadBlock() returns (readsize: nat)
      requires Valid() && !eof && |backing_store| < HEADER
      modifies this
      ensures Valid() && readsize == Min(BLOCK, |file| - old(end_of_buffer_offset))
      ensures Position() == old(end_of_buffer_offset) && |backing_store| == readsize
      ensures end_of_buffer_offset == old(end_of_buffer_offset) + readsize
    {
      readsize := Min(BLOCK, |file| - end_of_buffer_offset);
      backing_store := file[end_of_buffer_offset..end_of_buffer_offset + readsize];
      end_of_buffer_offset := end_of_buffer_offset + readsize;
      if 0 < readsize < BLOCK {
        eof := true;
      }
    }

    /** The rest of `ReadPhysicalRecord`, once a whole header is in the buffer. */
    method ParseHeader() returns (r: PhysicalResult)
      requires Valid() && |backing_store| >= HEADER
      modifies this
      ensures Valid()
      ensures (r, Position()) == ReadPhysical(crc, checksum, file, old(Position()))
    {
      ghost var h := Position();
      assert SkipTrailer(file, h) == h && BlockEnd(file, h) == end_of_buffer_offset;
      var length := backing_store[4] + 256 * (backing_store[5] as int);
      var kind := backing_store[6];
      if HEADER + length > |backing_store| {
        Consume(|backing_store|);
        return if !eof then Bad else Eof;
      }
      if kind == ZERO_TYPE && length == 0 {
        Consume(|backing_store|);
        return Bad;
      }
      if checksum {
        if crc(backing_store[6..HEADER + length]) != DecodeFixed32(backing_store[..4]) {
          Consume(|backing_store|);
          return Bad;
        }
      }
      r := Record(kind, backing_store[HEADER..HEADER + length]);
      Consume(HEADER + length);
    }

    /** Drops the first n bytes of the buffer; dropping all of them is `backing_store_.clear()`. */
    method Consume(n: nat)
      requires Valid() && n <= |backing_store|
      modifies this`backing_store
      ensures Valid() && Position() == old(Position()) + n
    {
      ghost var h := Position();
      if n < |backing_store| {
        SameBlock(file, h, n);
      }
      backing_store := backing_store[n..];
      assert backing_store == file[h + n..end_of_buffer_offset];
    }

    /**
     `ReadRecord`. The fragment flag is local and starts false, and the statement after the switch
     returns false, so each call looks at one physical record and only a `Full` one succeeds.
     */
    method ReadRecord() returns (ok: bool, record: seq<byte>, result: PhysicalResult)
      requires Valid()
      modifies this
      ensures Valid()
      ensures (result, Position()) == ReadPhysical(crc, checksum, file, old(Position()))
      ensures ok <==> result.Record? && result.kind == FULL_TYPE
      ensures ok ==> record == result.payload
    {
      record := [];
      result := ReadPhysicalRecord();
      match result
      case Record(kind, frame) =>
        if kind == FULL_TYPE {
          return true, frame, result;
        } else if kind == FIRST_TYPE {
          record := frame;
        }
        ok := false;
      case _ =>
        ok := false;
    }
  }

  // ---------------------------------------------------------------- one record at a time

  /** One `ReadRecord` of a log that reads as these records. */
  lemma ReadNext(crc: Crc, file: seq<byte>, p: nat, records: seq<seq<byte>>, ending: Ending)
    requires p <= |file| && ReadAll(crc, true, file, p) == (records, ending)
    ensures var (r, q) := ReadPhysical(crc, true, file, p);
            if r.Record? && r.kind == FULL_TYPE then
              records != [] && r.payload == records[0] && ReadAll(crc, true, file, q) == (records[1..], ending)
            else
              records == [] && ending == (if r.Eof? then AtEof else if r.Undefined? then Undef else Stopped)
  {
  }

  /** What the last `ReadRecord` returned, in a log of which these records were still to come. */
  ghost predicate Got(ok: bool, record: seq<byte>, last: PhysicalResult, records: seq<seq<byte>>, ending: Ending) {
    if ok then records != [] && record == records[0]
    else records == [] && ending == (if last.Eof? then AtEof else if last.Undefined? then Undef else Stopped)
  }

  lemma GotOne(ok: bool, record: seq<byte>, last: PhysicalResult, records: seq<seq<byte>>, ending: Ending)
    requires ok && Got(ok, record, last, records, ending)
    ensures records != [] && record == records[0]
  {
  }

  lemma GotNone(ok: bool, record: seq<byte>, last: PhysicalResult, records: seq<seq<byte>>, ending: Ending)
    requires !ok && Got(ok, record, last, records, ending)
    ensures Got(false, [], last, [], ending) && records == []
  {
  }

  /** The reader is in front of these records. */
  ghost predicate InFront(reader: Reader, records: seq<seq<byte>>, ending: Ending)
    reads reader
  {
    reader.Valid() && reader.checksum && ReadAll(reader.crc, true, reader.file, reader.Position()) == (records, ending)
  }

  /** A `ReadRecord` of a reader in front of these records returned this. */
  ghost predicate Read(reader: Reader, ok: bool, record: seq<byte>, last: PhysicalResult, records: seq<seq<byte>>,
                       ending: Ending)
    reads reader
  {
    Got(ok, record, last, records, ending) && (ok ==> InFront(reader, records[1..], ending))
  }

  /** A reader, with checksums, in front of a whole file. */
  method OpenLog(crc: Crc, file: seq<byte>) returns (reader: Reader)
    ensures fresh(reader) && InFront(reader, ReadAll(crc, true, file, 0).0, ReadAll(crc, true, file, 0).1)
  {
    hide ReadAll;
    reader := new Reader(file, true, crc);
  }

  method NextRecord(reader: Reader, ghost records: seq<seq<byte>>, ghost ending: Ending)
    returns (ok: bool, record: seq<byte>, last: PhysicalResult)
    requires InFront(reader, records, ending)
    modifies reader
    ensures Read(reader, ok, record, last, records, ending)
  {
    ReadNext(reader.crc, reader.file, reader.Position(), records, ending);
    ok, record, last := reader.ReadRecord();
  }

  // ---------------------------------------------------------------- what comes back

  /** The payloads of the leading `Full` pieces, and whether every piece was `Full`. */
  function Delivered(pieces: seq<Piece>): (seq<seq<byte>>, bool) {
    if pieces == [] then ([], true)
    else if pieces[0].kind != FULL_TYPE then ([], false)
    else
      var (rest, all) := Delivered(pieces[1..]);
      ([pieces[0].payload] + rest, all)
  }

  /** Pieces as the writer makes them: `Full` with data, or an empty `First`. */
  ghost predicate Written(pieces: seq<Piece>) {
    forall i :: 0 <= i < |pieces| ==>
      pieces[i].kind == (if pieces[i].payload == [] then FIRST_TYPE else FULL_TYPE)
  }

  /** Behind an empty fragment the next block begins. */
  lemma NextHasRoom(p: nat)
    ensures Avail(p) == 0 ==> Avail(p + Pad(p) + HEADER) > 0
  {
  }

  lemma SplitOne(p: nat, data: seq<byte>)
    requires data != []
    ensures var n := Min(|data|, Avail(p));
            var piece := Piece(if Avail(p) == 0 then FIRST_TYPE else FULL_TYPE, data[..n]);
            Split(p, data) == [piece] + Split(After(p, piece), data[n..])
  {
  }

  /** The rest of a record is shorter, or at least its next fragment has room. */
  lemma RestIsSmaller(p: nat, data: seq<byte>)
    requires data != []
    ensures var n := Min(|data|, Avail(p));
            |data[n..]| < |data| || (|data[n..]| == |data| && Avail(p) == 0 && Avail(p + Pad(p) + HEADER + n) > 0)
  {
    NextHasRoom(p);
  }

  lemma {:induction false} SplitWritten(p: nat, data: seq<byte>)
    ensures Written(Split(p, data))
    decreases |data|, if Avail(p) == 0 then 1 else 0
  {
    if data != [] {
      RestIsSmaller(p, data);
      SplitOne(p, data);
      hide Split, Avail, Pad, Written;
      var n := Min(|data|, Avail(p));
      var piece := Piece(if Avail(p) == 0 then FIRST_TYPE else FULL_TYPE, data[..n]);
      SplitWritten(After(p, piece), data[n..]);
      WrittenFront(piece, Split(After(p, piece), data[n..]));
    } else {
      assert Split(p, data) == [];
    }
  }

  lemma WrittenFront(piece: Piece, rest: seq<Piece>)
    requires Written(rest) && piece.kind == (if piece.payload == [] then FIRST_TYPE else FULL_TYPE)
    ensures Written([piece] + rest)
  {
  }

  lemma {:induction false} SplitAllWritten(p: nat, records: seq<seq<byte>>)
    ensures Written(SplitAll(p, records))
    decreases records
  {
    if records != [] {
      SplitWritten(p, records[0]);
      SplitAllWritten(EndOf(p, Split(p, records[0])), records[1..]);
    }
  }

  /** The parts of a physical record, at the offsets where the reader looks for them. */
  lemma PhysicalFields(crc: Crc, piece: Piece)
    requires |piece.payload| < 0x1_0000
    ensures var image, n := Physical(crc, piece), |piece.payload|;
            && image[4] + 256 * (image[5] as int) == n && image[6] == piece.kind
            && image[HEADER..] == piece.payload
            && image[6..] == [piece.kind] + piece.payload
            && DecodeFixed32(image[..4]) == crc(image[6..])
  {
    var image := Physical(crc, piece);
    var sum := crc([piece.kind] + piece.payload);
    assert image[6..] == [piece.kind] + piece.payload;
    assert image[..4] == Fixed32(sum) + [];
    Fixed32RoundTrip(sum, []);
  }

  /** The reader at a writer position finds the header behind the pad, with the record inside the block. */
  lemma HeaderFound(file: seq<byte>, p: nat, n: nat)
    requires n <= Avail(p) && p + Pad(p) + HEADER + n <= |file|
    ensures var h := p + Pad(p);
            && SkipTrailer(file, p) == h
            && h + HEADER + n <= BlockEnd(file, h)
  {
  }

  /** The reader, standing where the writer stood, sees the piece the writer put there. */
  lemma ReadPiece(crc: Crc, checksum: bool, file: seq<byte>, p: nat, piece: Piece)
    requires |piece.payload| <= Avail(p) && (piece.kind != ZERO_TYPE || piece.payload != [])
    requires After(p, piece) <= |file|
    requires file[p + Pad(p)..After(p, piece)] == Physical(crc, piece)
    ensures ReadPhysical(crc, checksum, file, p) == (Record(piece.kind, piece.payload), After(p, piece))
  {
    var h, n, image := p + Pad(p), |piece.payload|, Physical(crc, piece);
    HeaderFound(file, p, n);
    PhysicalFields(crc, piece);
    var unread := file[h..BlockEnd(file, h)];
    assert unread[..|image|] == image;
    assert unread[4] == image[4] && unread[5] == image[5] && unread[6] == image[6];
    assert unread[HEADER..|image|] == image[HEADER..];
    assert unread[6..|image|] == image[6..];
    assert unread[..4] == image[..4];
  }

  /** The image of this record is at h, inside the block. */
  ghost predicate OnFile(crc: Crc, file: seq<byte>, h: nat, piece: Piece)
    requires |piece.payload| < 0x1_0000
  {
    && h + HEADER + |piece.payload| <= BlockEnd(file, h)
    && file[h..h + HEADER + |piece.payload|] == Physical(crc, piece)
  }

  lemma ImageOfParsed(crc: Crc, short: bool, unread: seq<byte>)
    requires |unread| >= HEADER && Parse(crc, true, short, unread).0.Record?
    ensures var Record(kind, payload) := Parse(crc, true, short, unread).0;
            && |payload| < 0x1_0000 && HEADER + |payload| <= |unread| && (kind != ZERO_TYPE || payload != [])
            && unread[..HEADER + |payload|] == Physical(crc, Piece(kind, payload))
  {
    var Record(kind, payload) := Parse(crc, true, short, unread).0;
    var size := HEADER + |payload|;
    Fixed32Decoded(unread[..4]);
    assert unread[6..size] == [kind] + payload;
    assert unread[..size] == unread[..4] + [unread[4], unread[5], unread[6]] + unread[HEADER..size];
    assert unread[4] == |payload| % 256 && unread[5] == |payload| / 256;
  }

  /**
   Whatever the bytes of a file are, the checking reader at p gets a record if and only if the image of exactly
   this record, with its checksum, is where it looks.
   */
  lemma RecordIsOnFile(crc: Crc, file: seq<byte>, p: nat, piece: Piece)
    requires p <= |file| && |piece.payload| < 0x1_0000
    ensures ReadPhysical(crc, true, file, p).0 == Record(piece.kind, piece.payload)
            <==> (piece.kind != ZERO_TYPE || piece.payload != []) && OnFile(crc, file, SkipTrailer(file, p), piece)
  {
    var h := SkipTrailer(file, p);
    var end, image := BlockEnd(file, h), Physical(crc, piece);
    if ReadPhysical(crc, true, file, p).0 == Record(piece.kind, piece.payload) {
      ImageOfParsed(crc, end % BLOCK != 0, file[h..end]);
      assert file[h..end][..|image|] == file[h..h + |image|];
    }
    if (piece.kind != ZERO_TYPE || piece.payload != []) && OnFile(crc, file, h, piece) {
      PhysicalFields(crc, piece);
      var unread := file[h..end];
      assert unread[..|image|] == image;
      assert unread[4] == image[4] && unread[5] == image[5] && unread[6] == image[6];
      assert unread[HEADER..|image|] == image[HEADER..] && unread[6..|image|] == image[6..];
      assert unread[..4] == image[..4];
    }
  }

  /** No record is invented: each one that a replay of any bytes delivers has its image on the file. */
  lemma {:induction false} DeliveredAreOnFile(crc: Crc, file: seq<byte>, p: nat)
    requires p <= |file|
    ensures forall r :: r in ReadAll(crc, true, file, p).0 ==>
              |r| < 0x1_0000 && exists h :: p <= h && OnFile(crc, file, h, Piece(FULL_TYPE, r))
    decreases |file| - p
  {
    var (r, q) := ReadPhysical(crc, true, file, p);
    if r.Record? && r.kind == FULL_TYPE {
      var h := SkipTrailer(file, p);
      ImageOfParsed(crc, BlockEnd(file, h) % BLOCK != 0, file[h..BlockEnd(file, h)]);
      RecordIsOnFile(crc, file, p, Piece(r.kind, r.payload));
      assert p <= h && OnFile(crc, file, h, Piece(FULL_TYPE, r.payload));
      DeliveredAreOnFile(crc, file, q);
    }
  }

  /** Reading back any written pieces delivers exactly the leading `Full` ones. */
  lemma {:induction false} ReadBack(crc: Crc, checksum: bool, file: seq<byte>, pieces: seq<Piece>)
    requires Placed(|file|, pieces) && Written(pieces)
    ensures var total := file + Emit(crc, |file|, pieces);
            ReadAll(crc, checksum, total, |file|)
            == (Delivered(pieces).0,
                if !Delivered(pieces).1 then Stopped
                else if |total| % BLOCK == 0 then Undef
                else AtEof)
    decreases pieces
  {
    var p := |file|;
    var total := file + Emit(crc, p, pieces);
    if pieces == [] {
      assert total == file;
    } else {
      var next := file + Zeros(Pad(p)) + Physical(crc, pieces[0]);
      var rest := Emit(crc, After(p, pieces[0]), pieces[1..]);
      assert total == next + rest;
      assert |next| == After(p, pieces[0]);
      assert total[p + Pad(p)..|next|] == Physical(crc, pieces[0]);
      ReadPiece(crc, checksum, total, p, pieces[0]);
      ReadBack(crc, checksum, next, pieces[1..]);
    }
  }

  /** The fragments of one record as the reader gets them: all of its bytes, unless the first one is empty. */
  lemma DeliveredStep(p: nat, data: seq<byte>)
    requires data != []
    ensures var n := Min(|data|, Avail(p));
            var rest := Delivered(Split(p + Pad(p) + HEADER + n, data[n..]));
            Delivered(Split(p, data)) == if Avail(p) == 0 then ([], false) else ([data[..n]] + rest.0, rest.1)
  {
    hide Split, Avail, Pad;
    SplitOne(p, data);
    var n := Min(|data|, Avail(p));
    var piece := Piece(if Avail(p) == 0 then FIRST_TYPE else FULL_TYPE, data[..n]);
    assert ([piece] + Split(After(p, piece), data[n..]))[1..] == Split(After(p, piece), data[n..]);
  }

  /** Where the block after the header that follows p begins. */
  function NextBlock(p: nat): (q: nat)
    ensures Avail(q) == BLOCK - HEADER
  {
    p + Pad(p) + HEADER + Avail(p)
  }

  /** Record i fits behind the one header the writer gives it. */
  ghost predicate AllFit(p: nat, records: seq<seq<byte>>)
    decreases records
  {
    records != [] ==>
      && 0 < |records[0]| <= Avail(p)
      && AllFit(p + Pad(p) + HEADER + |records[0]|, records[1..])
  }

  lemma {:induction false} DeliveredConcat(a: seq<Piece>, b: seq<Piece>)
    ensures Delivered(a + b) ==
            if Delivered(a).1 then (Delivered(a).0 + Delivered(b).0, Delivered(b).1) else Delivered(a)
  {
    if a == [] {
      assert a + b == b && [] + Delivered(b).0 == Delivered(b).0;
    } else {
      assert (a + b)[1..] == a[1..] + b;
      DeliveredConcat(a[1..], b);
      assert [a[0].payload] + Delivered(a[1..]).0 + Delivered(b).0
        == [a[0].payload] + (Delivered(a[1..]).0 + Delivered(b).0);
    }
  }

  /** The records come back exactly when each is nonempty and fits; then no fragment stops the reader. */
  lemma {:induction false} DeliveredIffAllFit(p: nat, records: seq<seq<byte>>)
    ensures Delivered(SplitAll(p, records)).0 == records <==> AllFit(p, records)
    ensures AllFit(p, records) ==> Delivered(SplitAll(p, records)).1
    decreases records
  {
    if records != [] {
      var r := records[0];
      var head := Split(p, r);
      var tail := SplitAll(EndOf(p, head), records[1..]);
      DeliveredConcat(head, tail);
      if r == [] {
        assert head == [];
        EmptyNeverDelivered(EndOf(p, head), records[1..]);
        assert r in records;
      } else if |r| <= Avail(p) {
        assert r[..|r|] == r && r[|r|..] == [];
        assert Split(After(p, Piece(FULL_TYPE, r)), []) == [];
        assert head == [Piece(FULL_TYPE, r)];
        assert head[1..] == [];
        assert EndOf(After(p, head[0]), head[1..]) == After(p, head[0]);
        assert records == [r] + records[1..];
        DeliveredIffAllFit(EndOf(p, head), records[1..]);
      } else {
        assert head[0].payload == r[..Avail(p)];
        var d := Delivered(head + tail).0;
        assert d == [] || |d[0]| < |r|;
      }
    }
  }

  lemma EmptyNeverDelivered(p: nat, records: seq<seq<byte>>)
    ensures [] !in Delivered(SplitAll(p, records)).0
  {
    SplitAllWritten(p, records);
    EmptyNotIn(SplitAll(p, records));
  }

  lemma {:induction false} EmptyNotIn(pieces: seq<Piece>)
    requires Written(pieces)
    ensures [] !in Delivered(pieces).0
  {
    if pieces != [] {
      EmptyNotIn(pieces[1..]);
    }
  }

  /** Where a record's first fragment at p ends. */
  function FragmentEnd(p: nat, r: seq<byte>): nat {
    p + Pad(p) + HEADER + Min(|r|, Avail(p))
  }

  /**
   Of records behind others that fit, the reader first gets the first fragment of the first one, and then what it
   would get if the rest were a record of its own.
   */
  lemma BehindFitting(records: seq<seq<byte>>, r: seq<byte>, more: seq<seq<byte>>)
    requires AllFit(0, records) && r != []
    ensures var p := EndOf(0, SplitAll(0, records));
            var n := Min(|r|, Avail(p));
            Delivered(SplitAll(0, records + ([r] + more))).0
            == if n == 0 then records
              else records + ([r[..n]] + Delivered(SplitAll(FragmentEnd(p, r), [r[n..]] + more)).0)
  {
    var p := EndOf(0, SplitAll(0, records));
    hide Split, SplitAll, Avail, Delivered, AllFit, EndOf, FragmentEnd;
    SplitAllConcat(0, records, [r] + more);
    DeliveredIffAllFit(0, records);
    DeliveredConcat(SplitAll(0, records), SplitAll(p, [r] + more));
    FirstThenMore(p, r, more);
    assert records + [] == records;
  }

  lemma FirstThenMore(p: nat, r: seq<byte>, more: seq<seq<byte>>)
    requires r != []
    ensures var n := Min(|r|, Avail(p));
            Delivered(SplitAll(p, [r] + more)).0
            == if n == 0 then [] else [r[..n]] + Delivered(SplitAll(FragmentEnd(p, r), [r[n..]] + more)).0
  {
    var n, q := Min(|r|, Avail(p)), FragmentEnd(p, r);
    var tail := SplitAll(EndOf(p, Split(p, r)), more);
    SplitFirst(p, r, more);
    SplitFirst(q, r[n..], more);
    DeliveredStep(p, r);
    EndOfFragment(p, r);
    hide Split, SplitAll, Avail, Delivered, EndOf, FragmentEnd;
    DeliveredConcat(Split(p, r), tail);
    if n > 0 {
      DeliveredConcat(Split(q, r[n..]), tail);
      Concat3([r[..n]], Delivered(Split(q, r[n..])).0, Delivered(tail).0);
    }
  }

  lemma SplitFirst(p: nat, r: seq<byte>, more: seq<seq<byte>>)
    ensures SplitAll(p, [r] + more) == Split(p, r) + SplitAll(EndOf(p, Split(p, r)), more)
  {
    assert ([r] + more)[1..] == more;
  }

  /** The record ends where its rest, written as a record of its own, would. */
  lemma EndOfFragment(p: nat, r: seq<byte>)
    requires r != []
    ensures Avail(p) > 0 ==>
              EndOf(p, Split(p, r)) == EndOf(FragmentEnd(p, r), Split(FragmentEnd(p, r), r[Min(|r|, Avail(p))..]))
  {
    hide Avail, Pad;
    SplitOne(p, r);
    var n := Min(|r|, Avail(p));
    var piece := Piece(if Avail(p) == 0 then FIRST_TYPE else FULL_TYPE, r[..n]);
    assert ([piece] + Split(After(p, piece), r[n..]))[1..] == Split(After(p, piece), r[n..]);
  }

  /** The log of one record that is one byte longer than a block holds comes back as two records. */
  lemma LongRecordExample(crc: Crc, checksum: bool)
    ensures var record := Zeros(BLOCK - HEADER + 1);
            && Placed(0, SplitAll(0, [record]))
            && ReadAll(crc, checksum, Emit(crc, 0, SplitAll(0, [record])), 0).0 == [Zeros(BLOCK - HEADER), [0]]
  {
    var record := Zeros(BLOCK - HEADER + 1);
    var pieces := SplitAll(0, [record]);
    SplitAllPlaced(0, [record]);
    SplitAllWritten(0, [record]);
    ReadBack(crc, checksum, [], pieces);
    assert [] + Emit(crc, 0, pieces) == Emit(crc, 0, pieces);
    hide Split;
    var none: seq<seq<byte>> := [];
    assert [record][1..] == none && Split(0, record) + [] == Split(0, record);
    assert Avail(0) == BLOCK - HEADER && Avail(BLOCK) == BLOCK - HEADER && Pad(0) == 0;
    assert record[..BLOCK - HEADER] == Zeros(BLOCK - HEADER) && record[BLOCK - HEADER..] == [0];
    DeliveredStep(0, record);
    DeliveredStep(BLOCK, [0]);
    assert [0][..1] == [0] && [0][1..] == [];
    NothingSplit(BLOCK + Pad(BLOCK) + HEADER + 1);
  }

  /** Nothing is written for an empty record. */
  lemma NothingSplit(p: nat)
    ensures Split(p, []) == [] && Delivered(Split(p, [])) == ([], true)
  {
  }

  /**
   Log read-back. For every list of records appended to an empty file, a `ReadRecord` loop returns
   exactly those records if and only if each is nonempty and fits the room left in its block; it
   then ends with end-of-file if and only if the file does not end on a block boundary.
   */
  lemma LogReadBack(crc: Crc, checksum: bool, records: seq<seq<byte>>)
    ensures Placed(0, SplitAll(0, records))
    ensures var file := Emit(crc, 0, SplitAll(0, records));
            var (got, ending) := ReadAll(crc, checksum, file, 0);
            && got == Delivered(SplitAll(0, records)).0
            && (got == records <==> AllFit(0, records))
            && (AllFit(0, records) ==> ending == if |file| % BLOCK == 0 then Undef else AtEof)
  {
    var pieces := SplitAll(0, records);
    SplitAllPlaced(0, records);
    SplitAllWritten(0, records);
    ReadBack(crc, checksum, [], pieces);
    assert [] + Emit(crc, 0, pieces) == Emit(crc, 0, pieces);
    DeliveredIffAllFit(0, records);
  }
}
