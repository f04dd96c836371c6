/**
 Write batches (src/db/writebatch.cpp): a 12-byte header with sequence and count, then the operations.
 */
module WriteBatch {
  import opened Common
  import opened Coding
  import opened Keys
  import opened Memtable

  datatype Op = Put(key: seq<byte>, value: seq<byte>) | Delete(key: seq<byte>)

  const HEADSIZE := 12

  function OpBytes(op: Op): seq<byte> {
    match op
    case Put(k, v) => [TYPE_VALUE] + LengthPrefixed(k) + LengthPrefixed(v)
    case Delete(k) => [TYPE_DELETION] + LengthPrefixed(k)
  }

  function OpsBytes(ops: seq<Op>): seq<byte> {
    if ops == [] then [] else OpBytes(ops[0]) + OpsBytes(ops[1..])
  }

  /** The contents of a batch. */
  function BatchBytes(sequence: uint64, ops: seq<Op>): seq<byte>
    requires |ops| < UINT32_LIMIT
  {
    Head(sequence, |ops|) + OpsBytes(ops)
  }

  function Head(sequence: uint64, count: uint32): (r: seq<byte>)
    ensures |r| == HEADSIZE
  {
    Fixed64(sequence) + Fixed32(count)
  }

  lemma HeadFields(sequence: uint64, count: uint32, rest: seq<byte>)
    ensures var mate := Head(sequence, count) + rest;
            && DecodeFixed64(mate) == sequence && DecodeFixed32(mate[8..]) == count
            && mate[..8] == Fixed64(sequence) && mate[8..] == Fixed32(count) + rest && mate[HEADSIZE..] == rest
  {
    var a, b := Fixed64(sequence), Fixed32(count);
    HeadCut(a, b, rest);
    Fixed64RoundTrip(sequence, b + rest);
    Fixed32RoundTrip(count, rest);
  }

  lemma HeadCut(a: seq<byte>, b: seq<byte>, c: seq<byte>)
    ensures a + b + c == a + (b + c)
    ensures (a + b + c)[..|a|] == a && (a + b + c)[|a|..] == b + c && (a + b + c)[|a| + |b|..] == c
  {
  }

  predicate OpFits(op: Op) {
    |op.key| + 8 < UINT32_LIMIT && (op.Put? ==> |op.value| < UINT32_LIMIT)
  }

  // ---------------------------------------------------------------- reading operations

  function GetOp(s: seq<byte>): (r: Option<(Op, seq<byte>)>)
    requires s != []
    ensures r.Some? ==> |r.value.1| < |s|
  {
    if s[0] == TYPE_VALUE then
      match GetLengthPrefixed(s[1..])
      case None => None
      case Some((k, rest)) =>
        match GetLengthPrefixed(rest)
        case None => None
        case Some((v, end)) => Some((Put(k, v), end))
    else if s[0] == TYPE_DELETION then
      match GetLengthPrefixed(s[1..])
      case None => None
      case Some((k, end)) => Some((Delete(k), end))
    else None
  }

  /** The operations read up to the end of the bytes or up to the first malformed one. */
  function ScanOps(s: seq<byte>): (seq<Op>, bool)
    decreases |s|
  {
    if s == [] then ([], true)
    else
      match GetOp(s)
      case None => ([], false)
      case Some((op, rest)) =>
        var (ops, ok) := ScanOps(rest);
        ([op] + ops, ok)
  }

  lemma OpRoundTrip(op: Op, rest: seq<byte>)
    requires OpFits(op)
    ensures GetOp(OpBytes(op) + rest) == Some((op, rest))
  {
    match op
    case Put(k, v) => PutRoundTrip(k, v, rest);
    case Delete(k) => DeleteRoundTrip(k, rest);
  }

  lemma AfterType(kind: byte, a: seq<byte>, b: seq<byte>, rest: seq<byte>)
    ensures ([kind] + a + b + rest)[0] == kind && ([kind] + a + b + rest)[1..] == a + (b + rest)
  {
  }

  lemma PutRoundTrip(k: seq<byte>, v: seq<byte>, rest: seq<byte>)
    requires OpFits(Put(k, v))
    ensures GetOp([TYPE_VALUE] + LengthPrefixed(k) + LengthPrefixed(v) + rest) == Some((Put(k, v), rest))
  {
    AfterType(TYPE_VALUE, LengthPrefixed(k), LengthPrefixed(v), rest);
    LengthPrefixedRoundTrip(k, LengthPrefixed(v) + rest);
    LengthPrefixedRoundTrip(v, rest);
  }

  lemma DeleteRoundTrip(k: seq<byte>, rest: seq<byte>)
    requires OpFits(Delete(k))
    ensures GetOp([TYPE_DELETION] + LengthPrefixed(k) + rest) == Some((Delete(k), rest))
  {
    var s := [TYPE_DELETION] + LengthPrefixed(k) + rest;
    assert s[0] == TYPE_DELETION && s[1..] == LengthPrefixed(k) + rest;
    LengthPrefixedRoundTrip(k, rest);
  }

  lemma ScanNext(s: seq<byte>, op: Op, rest: seq<byte>)
    requires s != [] && GetOp(s) == Some((op, rest))
    ensures ScanOps(s) == ([op] + ScanOps(rest).0, ScanOps(rest).1)
  {
  }

  /** Reading has come from `all` to `rest` and got the operations `done`. */
  ghost predicate Progress(all: seq<byte>, done: seq<Op>, rest: seq<byte>) {
    ScanOps(all) == (done + ScanOps(rest).0, ScanOps(rest).1)
  }

  lemma ProgressStart(all: seq<byte>)
    ensures Progress(all, [], all)
  {
    var (ops, ok) := ScanOps(all);
    assert [] + ops == ops;
  }

  lemma ProgressNext(all: seq<byte>, done: seq<Op>, rest: seq<byte>)
    requires Progress(all, done, rest) && rest != []
    ensures match GetOp(rest)
            case None => ScanOps(all) == (done, false)
            case Some((op, next)) => op in ScanOps(all).0 && Progress(all, done + [op], next)
  {
    match GetOp(rest)
    case None =>
      assert done + [] == done;
    case Some((op, next)) =>
      ScanNext(rest, op, next);
      Moved(done, op, ScanOps(next).0);
  }

  lemma Moved(done: seq<Op>, op: Op, rest: seq<Op>)
    ensures done + ([op] + rest) == done + [op] + rest
    ensures op in done + ([op] + rest)
  {
    assert (done + ([op] + rest))[|done|] == op;
  }

  lemma ProgressEnd(all: seq<byte>, done: seq<Op>)
    requires Progress(all, done, [])
    ensures ScanOps(all) == (done, true)
  {
    assert done + [] == done;
  }

  lemma OpBytesNotEmpty(op: Op, rest: seq<byte>)
    ensures OpBytes(op) + rest != []
  {
    assert |OpBytes(op)| > 0;
  }

  /** Every batch of operations is read back exactly. */
  lemma {:induction false} OpsRoundTrip(ops: seq<Op>)
    requires forall op :: op in ops ==> OpFits(op)
    ensures ScanOps(OpsBytes(ops)) == (ops, true)
  {
    if ops != [] {
      var rest := OpsBytes(ops[1..]);
      OpRoundTrip(ops[0], rest);
      OpsRoundTrip(ops[1..]);
      OpBytesNotEmpty(ops[0], rest);
      ScanNext(OpBytes(ops[0]) + rest, ops[0], rest);
      assert ops == [ops[0]] + ops[1..];
    }
  }

  /** An operation in front of more bytes is read all the same. */
  lemma GetOpExtends(s: seq<byte>, more: seq<byte>)
    requires s != [] && GetOp(s).Some?
    ensures GetOp(s + more) == Some((GetOp(s).value.0, GetOp(s).value.1 + more))
  {
    assert (s + more)[1..] == s[1..] + more;
    LengthPrefixedExtends(s[1..], more);
    if s[0] == TYPE_VALUE {
      LengthPrefixedExtends(GetLengthPrefixed(s[1..]).value.1, more);
    }
  }

  /**
   From a front of encoded operations a front of the operations is read, and all of them only from all of the
   bytes.
   */
  lemma {:induction false} FrontOps(ops: seq<Op>, a: seq<byte>, b: seq<byte>)
    requires (forall op :: op in ops ==> OpFits(op)) && OpsBytes(ops) == a + b
    ensures IsPrefix(ScanOps(a).0, ops)
    ensures |ScanOps(a).0| == |ops| ==> b == []
    decreases ops
  {
    if a != [] && GetOp(a).Some? {
      var rest, tail := GetOp(a).value.1, OpsBytes(ops[1..]);
      GetOpExtends(a, b);
      OpRoundTrip(ops[0], tail);
      assert tail == rest + b;
      FrontOps(ops[1..], rest, b);
      ScanNext(a, ops[0], rest);
      assert ops == [ops[0]] + ops[1..];
      FrontOne(ops[0], ScanOps(rest).0, ops[1..]);
    } else {
      assert ops != [] || a + b == [];
    }
  }

  lemma FrontOne(op: Op, a: seq<Op>, b: seq<Op>)
    requires IsPrefix(a, b)
    ensures IsPrefix([op] + a, [op] + b)
  {
    assert ([op] + b)[..|a| + 1] == [op] + b[..|a|];
  }

  /** Operations read from a short string fit the length prefixes. */
  lemma {:induction false} ScannedFit(s: seq<byte>)
    requires |s| + 8 < UINT32_LIMIT
    ensures forall op :: op in ScanOps(s).0 ==> OpFits(op)
    decreases |s|
  {
    if s != [] && GetOp(s).Some? {
      var (op, rest) := GetOp(s).value;
      ScannedFit(rest);
      ScanNext(s, op, rest);
    }
  }

  lemma {:induction false} OpsBytesSnoc(ops: seq<Op>, op: Op)
    ensures OpsBytes(ops + [op]) == OpsBytes(ops) + OpBytes(op)
  {
    if ops == [] {
      assert ops + [op] == [op] && [op][1..] == [];
      assert OpsBytes([op]) == OpBytes(op) + [];
    } else {
      assert (ops + [op])[0] == ops[0] && (ops + [op])[1..] == ops[1..] + [op];
      OpsBytesSnoc(ops[1..], op);
      Concat3(OpBytes(ops[0]), OpsBytes(ops[1..]), OpBytes(op));
    }
  }

  // ---------------------------------------------------------------- what a batch does to a memtable

  function EntryOf(sequence: nat, op: Op): Entry
  {
    match op
    case Put(k, v) => Entry(InternalKey(k, PackSequenceAndType(sequence, TYPE_VALUE)), v)
    case Delete(k) => Entry(InternalKey(k, PackSequenceAndType(sequence, TYPE_DELETION)), [])
  }

  /** The `Add` calls of one batch: as coded, every operation carries the sequence of the batch. */
  function AddOps(contents: seq<Entry>, sequence: nat, ops: seq<Op>): seq<Entry>
    decreases ops
  {
    if ops == [] then contents else AddOps(Upsert(contents, EntryOf(sequence, ops[0])), sequence, ops[1..])
  }

  lemma {:induction false} AddOpsSnoc(contents: seq<Entry>, sequence: nat, ops: seq<Op>, op: Op)
    ensures AddOps(contents, sequence, ops + [op]) == Upsert(AddOps(contents, sequence, ops), EntryOf(sequence, op))
    decreases ops
  {
    if ops == [] {
      assert ops + [op] == [op] && [op][1..] == [];
    } else {
      assert (ops + [op])[0] == ops[0] && (ops + [op])[1..] == ops[1..] + [op];
      AddOpsSnoc(Upsert(contents, EntryOf(sequence, ops[0])), sequence, ops[1..], op);
    }
  }

  /** Bytes appended behind the operations, with the count raised, are one more operation. */
  lemma OpAppended(s: uint64, ops: seq<Op>, op: Op, a: seq<byte>, b: seq<byte>, c: seq<byte>)
    requires |ops| + 1 < UINT32_LIMIT && OpBytes(op) == a + b + c
    ensures Head(s, |ops| + 1) + OpsBytes(ops) + a + b + c == BatchBytes(s, ops + [op])
    ensures c == [] ==> Head(s, |ops| + 1) + OpsBytes(ops) + a + b == BatchBytes(s, ops + [op])
  {
    OpsBytesSnoc(ops, op);
    Behind(Head(s, |ops| + 1), OpsBytes(ops), a, b, c);
  }

  lemma Behind(head: seq<byte>, ops: seq<byte>, a: seq<byte>, b: seq<byte>, c: seq<byte>)
    ensures head + (ops + (a + b + c)) == head + ops + a + b + c
    ensures c == [] ==> head + ops + a + b + c == head + ops + a + b
  {
  }

  class Batch {
    var mate: seq<byte>

    constructor ()
      ensures Holds(0, [])
    {
      mate := seq(HEADSIZE, _ => 0);
      new;
      assert Fixed64(0) == [0, 0, 0, 0, 0, 0, 0, 0] && Fixed32(0) == [0, 0, 0, 0];
    }

    /** The buffer encodes this sequence and these operations. */
    ghost predicate Holds(sequence: uint64, ops: seq<Op>)
      reads this
    {
      |ops| < UINT32_LIMIT && mate == BatchBytes(sequence, ops)
    }

    function Sequence(): uint64
      requires |mate| >= HEADSIZE
      reads this
    {
      DecodeFixed64(mate)
    }

    function Count(): uint32
      requires |mate| >= HEADSIZE
      reads this
    {
      DecodeFixed32(mate[8..])
    }

    lemma HeaderOf(sequence: uint64, ops: seq<Op>)
      requires Holds(sequence, ops)
      ensures |mate| >= HEADSIZE && Sequence() == sequence && Count() == |ops| && mate[HEADSIZE..] == OpsBytes(ops)
    {
      HeadFields(sequence, |ops|, OpsBytes(ops));
    }

    /** `EncodeFixed32(&mate[8], n)`. */
    method SetCount(n: uint32, ghost s: uint64, ghost was: uint32, ghost rest: seq<byte>)
      requires mate == Head(s, was) + rest
      modifies this
      ensures mate == Head(s, n) + rest
    {
      HeadFields(s, was, rest);
      mate := mate[..8] + Fixed32(n) + mate[12..];
    }

    /** `EncodeFixed64(mate.data(), seq)`. */
    method SetSequence(s: uint64, ghost was: uint64, ghost ops: seq<Op>)
      requires Holds(was, ops)
      modifies this
      ensures Holds(s, ops)
    {
      HeadFields(was, |ops|, OpsBytes(ops));
      mate := Fixed64(s) + mate[8..];
      HeadCut(Fixed64(s), Fixed32(|ops|), OpsBytes(ops));
    }

    method AddPut(key: seq<byte>, value: seq<byte>, ghost s: uint64, ghost ops: seq<Op>)
      requires Holds(s, ops) && |ops| + 1 < UINT32_LIMIT
      modifies this
      ensures Holds(s, ops + [Put(key, value)])
    {
      HeaderOf(s, ops);
      SetCount(Count() + 1, s, |ops|, OpsBytes(ops));
      mate := mate + [TYPE_VALUE];
      mate := mate + LengthPrefixed(key);
      mate := mate + LengthPrefixed(value);
      OpAppended(s, ops, Put(key, value), [TYPE_VALUE], LengthPrefixed(key), LengthPrefixed(value));
    }

    method AddDelete(key: seq<byte>, ghost s: uint64, ghost ops: seq<Op>)
      requires Holds(s, ops) && |ops| + 1 < UINT32_LIMIT
      modifies this
      ensures Holds(s, ops + [Delete(key)])
    {
      HeaderOf(s, ops);
      SetCount(Count() + 1, s, |ops|, OpsBytes(ops));
      mate := mate + [TYPE_DELETION];
      mate := mate + LengthPrefixed(key);
      OpAppended(s, ops, Delete(key), [TYPE_DELETION], LengthPrefixed(key), []);
    }

    method SetContents(contents: seq<byte>)
      modifies this
      ensures mate == contents
    {
      mate := contents;
    }

    /** Adds every operation that can be read; Ok if all could and their number is the count of the header. */
    method InsertInto(mem: Memtable) returns (state: State)
      requires |mate| >= HEADSIZE && mem.Valid()
      requires forall op :: op in ScanOps(mate[HEADSIZE..]).0 ==> OpFits(op)
      modifies mem
      ensures mem.Valid()
      ensures var (ops, ok) := ScanOps(mate[HEADSIZE..]);
              && mem.contents == AddOps(old(mem.contents), Sequence(), ops)
              && state == if ok && |ops| == Count() then Ok else Corruption
    {
      var rest, now_seq, now_cnt := mate[HEADSIZE..], Sequence(), 0;
      ghost var all, done: seq<Op> := rest, [];
      ProgressStart(rest);
      while rest != []
        invariant mem.Valid() && now_cnt == |done| && Progress(all, done, rest)
        invariant mem.contents == AddOps(old(mem.contents), now_seq, done)
        decreases |rest|
      {
        now_cnt := now_cnt + 1;
        var got := GetOp(rest);
        ProgressNext(all, done, rest);
        if got.None? {
          return Corruption;
        }
        var (op, next) := got.value;
        AddOpsSnoc(old(mem.contents), now_seq, done, op);
        AddOne(mem, now_seq, op);
        done, rest := done + [op], next;
      }
      ProgressEnd(all, done);
      state := if now_cnt != Count() then Corruption else Ok;
    }

    static method AddOne(mem: Memtable, sequence: nat, op: Op)
      requires mem.Valid() && OpFits(op)
      modifies mem
      ensures mem.Valid() && mem.contents == Upsert(old(mem.contents), EntryOf(sequence, op))
    {
      match op {
        case Put(k, v) => mem.Add(sequence, TYPE_VALUE, k, v);
        case Delete(k) => mem.Add(sequence, TYPE_DELETION, k, []);
      }
    }
  }

  /** A batch built by `Put` and `Delete` inserts exactly its operations, in order, and reports Ok. */
  method InsertBuilt(batch: Batch, mem: Memtable, ghost s: uint64, ghost ops: seq<Op>) returns (state: State)
    requires batch.Holds(s, ops) && (forall op :: op in ops ==> OpFits(op)) && mem.Valid()
    modifies mem
    ensures mem.Valid() && state == Ok && mem.contents == AddOps(old(mem.contents), s, ops)
  {
    batch.HeaderOf(s, ops);
    OpsRoundTrip(ops);
    state := batch.InsertInto(mem);
  }
}
