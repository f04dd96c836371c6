/**
 The filter block of a table (src/db/filterblock.cpp): one Bloom filter per 2 KiB of file offset.
 */
module FilterBlock {
  import opened Common
  import opened Coding
  import opened Bloom

  const FILTER_BASE_LG: byte := 11
  const FILTER_BASE := 2048

  function Flatten(keys: seq<seq<byte>>): seq<byte> {
    if keys == [] then [] else Flatten(DropLast(keys)) + Last(keys)
  }

  /** The contents of a finished block: filters, their offsets, where the offsets start, and the base. */
  function Contents(filters: seq<byte>, offsets: seq<uint32>): seq<byte>
    requires |filters| < UINT32_LIMIT
  {
    filters + Fixed32s(offsets) + Fixed32(|filters|) + [FILTER_BASE_LG]
  }

  /** Where filter i ends: at the next filter's offset, or at the end of the filters. */
  function EndOf(filters: seq<byte>, offsets: seq<uint32>, i: nat): nat
    requires i < |offsets|
  {
    if i + 1 < |offsets| then offsets[i + 1] else |filters|
  }

  /** Nothing without keys, and otherwise a Bloom filter for them. */
  ghost predicate FilterOf(bloom: BloomFilter, keys: seq<seq<byte>>, filter: seq<byte>) {
    if keys == [] then filter == []
    else FilterFor(bloom.hash, keys, bloom.hash_size, BytesFor(bloom.bits_key, |keys|), filter)
  }

  /** Filter i is the one of its keys. */
  ghost predicate Segment(bloom: BloomFilter, filters: seq<byte>, offsets: seq<uint32>, keys: seq<seq<seq<byte>>>,
                          i: nat)
    requires i < |offsets| == |keys|
  {
    var start, end := offsets[i], EndOf(filters, offsets, i);
    start <= end <= |filters| && FilterOf(bloom, keys[i], filters[start..end])
  }

  /** The keys of filter i: those added under its offsets, in order. */
  function KeysOf(log: seq<(nat, seq<byte>)>, i: nat): seq<seq<byte>> {
    if log == [] then []
    else KeysOf(DropLast(log), i) + if Last(log).0 / FILTER_BASE == i then [Last(log).1] else []
  }

  lemma {:induction false} NoKeysOf(log: seq<(nat, seq<byte>)>, i: nat)
    requires forall e :: e in log ==> e.0 / FILTER_BASE < i
    ensures KeysOf(log, i) == []
  {
    if log != [] {
      NoKeysOf(DropLast(log), i);
    }
  }

  lemma KeysOfSnoc(log: seq<(nat, seq<byte>)>, e: (nat, seq<byte>), i: nat)
    ensures KeysOf(log + [e], i) == KeysOf(log, i) + if e.0 / FILTER_BASE == i then [e.1] else []
  {
    assert DropLast(log + [e]) == log && Last(log + [e]) == e;
  }

  /** A key of the log is one of the filter of its offset. */
  lemma {:induction false} KeysOfHas(log: seq<(nat, seq<byte>)>, e: (nat, seq<byte>))
    requires e in log
    ensures e.1 in KeysOf(log, e.0 / FILTER_BASE)
  {
    if e != Last(log) {
      assert log == DropLast(log) + [Last(log)];
      KeysOfHas(DropLast(log), e);
    }
  }

  /** The filters after the last key: one for each 2 KiB up to the last offset, and for the rest if it has keys. */
  function Filters(log: seq<(nat, seq<byte>)>, started: nat): nat {
    var n := started / FILTER_BASE;
    if KeysOf(log, n) == [] then n else n + 1
  }

  /**
   What a reader of n filters should answer: behind them always yes, for a filter without keys no, and for one
   with keys whether they cover the probes of the wanted key.
   */
  ghost predicate Answer(bloom: BloomFilter, log: seq<(nat, seq<byte>)>, n: nat, block_offset: nat, key: seq<byte>) {
    var i := block_offset / FILTER_BASE;
    var keys := KeysOf(log, i);
    i < n ==>
      && keys != []
      && Covered(bloom.hash, keys, bloom.hash_size, BytesFor(bloom.bits_key, |keys|) * 8, key)
  }

  /** Appending a filter for more keys keeps the segments there are and adds one. */
  lemma SegmentsGrow(bloom: BloomFilter, was: seq<byte>, offsets: seq<uint32>, made: seq<seq<seq<byte>>>,
                     now: seq<byte>, keys: seq<seq<byte>>)
    requires |offsets| == |made| && |was| < UINT32_LIMIT
    requires forall i :: 0 <= i < |made| ==> Segment(bloom, was, offsets, made, i)
    requires |was| <= |now| && now[..|was|] == was
    requires FilterOf(bloom, keys, now[|was|..])
    ensures forall i :: 0 <= i <= |made| ==> Segment(bloom, now, offsets + [|was|], made + [keys], i)
  {
    forall i | 0 <= i <= |made| ensures Segment(bloom, now, offsets + [|was|], made + [keys], i) {
      if i < |made| {
        SegmentStays(bloom, was, offsets, made, now, keys, i);
      } else {
        assert now[|was|..] == now[|was|..|now|];
      }
    }
  }

  lemma SamePart(was: seq<byte>, now: seq<byte>, start: nat, end: nat)
    requires |was| <= |now| && now[..|was|] == was && start <= end <= |was|
    ensures now[start..end] == was[start..end]
  {
    forall k | 0 <= k < |was| ensures now[k] == was[k] {
      assert now[..|was|][k] == now[k];
    }
  }

  lemma SegmentStays(bloom: BloomFilter, was: seq<byte>, offsets: seq<uint32>, made: seq<seq<seq<byte>>>,
                     now: seq<byte>, keys: seq<seq<byte>>, i: nat)
    requires i < |offsets| == |made| && |was| < UINT32_LIMIT && Segment(bloom, was, offsets, made, i)
    requires |was| <= |now| && now[..|was|] == was
    ensures Segment(bloom, now, offsets + [|was|], made + [keys], i)
  {
    var more, end := offsets + [|was|], EndOf(was, offsets, i);
    assert more[i] == offsets[i] && (made + [keys])[i] == made[i];
    assert EndOf(now, more, i) == end by {
      assert i + 1 < |offsets| ==> more[i + 1] == offsets[i + 1];
    }
    SamePart(was, now, offsets[i], end);
  }

  class FilterBlockbuilder {
    const bloom: BloomFilter
    var keys_: seq<byte>
    var start_: seq<nat>
    var result_: seq<byte>
    var filter_offsets_: seq<uint32>
    /** Keys of the filter that is being collected, and of each filter already made. */
    ghost var pending: seq<seq<byte>>
    ghost var made: seq<seq<seq<byte>>>
    /** Latest started block offset, and every key with the offset it was added under. */
    ghost var started: nat
    ghost var log: seq<(nat, seq<byte>)>

    constructor (bloom: BloomFilter)
      requires 1 <= bloom.hash_size <= 30
      ensures Valid() && started == 0 && log == [] && this.bloom == bloom
    {
      this.bloom := bloom;
      keys_, start_, result_, filter_offsets_ := [], [], [], [];
      pending, made, started, log := [], [], 0, [];
    }

    ghost predicate Valid()
      reads this
    {
      && 1 <= bloom.hash_size <= 30
      && Collected()
      && |filter_offsets_| == |made| == started / FILTER_BASE
      && (|result_| < UINT32_LIMIT ==> Segments())
      && Tracked()
    }

    /** The key buffer and its lengths hold the pending keys. */
    ghost predicate Collected()
      reads this
    {
      && keys_ == Flatten(pending)
      && |start_| == |pending|
      && forall i :: 0 <= i < |pending| ==> start_[i] == |pending[i]|
    }

    ghost predicate Segments()
      reads this
    {
      && |filter_offsets_| == |made|
      && forall i :: 0 <= i < |made| ==> Segment(bloom, result_, filter_offsets_, made, i)
    }

    /** The keys of each filter are those added under its offsets; the last ones are pending. */
    ghost predicate Tracked()
      reads `log, `made, `pending
    {
      && (forall i :: 0 <= i < |made| ==> made[i] == KeysOf(log, i)) && pending == KeysOf(log, |made|)
      && forall e :: e in log ==> e.0 / FILTER_BASE <= |made|
    }

    method StartBlock(block_offset: nat)
      requires Valid() && started <= block_offset
      requires |pending| * bloom.bits_key + 7 < UINT64_LIMIT
      modifies this
      ensures Valid() && started == block_offset && log == old(log)
    {
      var filter_index := block_offset / FILTER_BASE;
      while filter_index > |filter_offsets_|
        invariant |filter_offsets_| <= filter_index
        invariant Collected() && |filter_offsets_| == |made|
        invariant |result_| < UINT32_LIMIT ==> Segments()
        invariant Tracked()
        invariant log == old(log)
        invariant |pending| <= old(|pending|)
        decreases filter_index - |filter_offsets_|
      {
        KeepsSmall(|pending|, old(|pending|));
        CreateNewfilter();
      }
      started := block_offset;
    }

    lemma KeepsSmall(a: nat, b: nat)
      requires a <= b && b * bloom.bits_key + 7 < UINT64_LIMIT
      ensures a * bloom.bits_key + 7 < UINT64_LIMIT
    {
      assert a * bloom.bits_key <= b * bloom.bits_key;
    }

    method AddKey(key: seq<byte>)
      requires Valid()
      modifies this
      ensures Valid() && started == old(started)
      ensures log == old(log) + [(started, key)]
      ensures pending == old(pending) + [key]
    {
      hide Segment, KeysOf;
      start_ := start_ + [|key|];
      keys_ := keys_ + key;
      pending := pending + [key];
      log := log + [(started, key)];
      assert DropLast(pending) == old(pending);
      forall i ensures KeysOf(log, i) == KeysOf(old(log), i) + if started / FILTER_BASE == i then [key] else [] {
        KeysOfSnoc(old(log), (started, key), i);
      }
    }

    method CreateNewfilter()
      requires 1 <= bloom.hash_size <= 30
      requires Collected() && |filter_offsets_| == |made|
      requires |result_| < UINT32_LIMIT ==> Segments()
      requires Tracked()
      requires |pending| * bloom.bits_key + 7 < UINT64_LIMIT
      modifies this
      ensures Collected() && pending == []
      ensures made == old(made) + [old(pending)]
      ensures |filter_offsets_| == |made|
      ensures |result_| < UINT32_LIMIT ==> Segments()
      ensures Tracked() && log == old(log) && started == old(started)
    {
      hide Segment, FilterFor, KeysOf;
      NoKeysOf(log, |made| + 1);
      ghost var was, offsets := result_, filter_offsets_;
      if |start_| == 0 {
        filter_offsets_ := filter_offsets_ + [|result_| % UINT32_LIMIT];
      } else {
        var tmp_keys := SplitKeys();
        filter_offsets_ := filter_offsets_ + [|result_| % UINT32_LIMIT];
        result_ := bloom.CreateFiler(tmp_keys, result_);
        keys_ := [];
        start_ := [];
      }
      ghost var keys := pending;
      made := made + [pending];
      pending := [];
      if |result_| < UINT32_LIMIT {
        SegmentsGrow(bloom, was, offsets, old(made), result_, keys);
      }
    }

    /** The loop that cuts the key buffer back into keys. */
    method SplitKeys() returns (keys: seq<seq<byte>>)
      requires Collected()
      ensures keys == pending
    {
      keys := [];
      var p := 0;
      for i := 0 to |start_|
        invariant keys == pending[..i]
        invariant p == |Flatten(pending[..i])|
      {
        FlattenAt(pending, i);
        keys := keys + [keys_[p..p + start_[i]]];
        p := p + start_[i];
      }
    }

    /**
     Writes the offsets behind the filters. A reader of the contents then gives the answers for the keys of the
     log; in particular it matches every key under its block offset.
     */
    method Finish() returns (contents: seq<byte>)
      requires Valid()
      requires |pending| * bloom.bits_key + 7 < UINT64_LIMIT
      modifies this
      ensures contents == result_ && log == old(log)
      ensures |contents| < UINT32_LIMIT ==> ReaderAnswers(bloom, contents, log, old(Filters(log, started)))
      ensures |contents| < UINT32_LIMIT ==> forall e :: e in log ==> ReaderMatches(bloom.hash, contents, e.0, e.1)
    {
      hide Answer, ReaderMatches, ReaderAnswers, FilterOf, KeysOf, Segment;
      if |start_| != 0 {
        CreateNewfilter();
      }
      if |result_| + 4 * |filter_offsets_| + 5 < UINT32_LIMIT {
        AllAnswered();
        AllMatched(Contents(result_, filter_offsets_), |made|);
      }
      ghost var filters, offsets := result_, filter_offsets_;
      var begin: uint32 := |result_| % UINT32_LIMIT;
      AppendOffsets();
      result_ := result_ + Fixed32(begin);
      result_ := result_ + [FILTER_BASE_LG];
      contents := result_;
      Fixed32sLength(offsets);
      FinishedContents(filters, offsets, begin, contents);
    }

    lemma FinishedContents(filters: seq<byte>, offsets: seq<uint32>, begin: uint32, contents: seq<byte>)
      requires begin == |filters| % UINT32_LIMIT
      requires contents == filters + Fixed32s(offsets) + Fixed32(begin) + [FILTER_BASE_LG]
      ensures |contents| == |filters| + |Fixed32s(offsets)| + 5
      ensures |filters| < UINT32_LIMIT ==> contents == Contents(filters, offsets)
    {
    }

    lemma AllAnswered()
      requires |filter_offsets_| == |made| && |result_| + 4 * |made| + 5 < UINT32_LIMIT
      requires Segments() && Tracked()
      ensures ReaderAnswers(bloom, Contents(result_, filter_offsets_), log, |made|)
    {
      hide Answer, ReaderMatches, KeysOf;
      Fixed32sLength(filter_offsets_);
      forall b, key
        ensures ReaderMatches(bloom.hash, Contents(result_, filter_offsets_), b, key)
                <==> Answer(bloom, log, |made|, b, key)
      {
        FinishedAnswer(bloom, result_, filter_offsets_, made, b, key);
        SameAnswer(bloom, made, log, b, key);
      }
    }

    /** The answer for an added key under its own offset is yes. */
    lemma AllMatched(contents: seq<byte>, n: nat)
      requires ReaderAnswers(bloom, contents, log, n)
      ensures forall e :: e in log ==> ReaderMatches(bloom.hash, contents, e.0, e.1)
    {
      forall e | e in log ensures ReaderMatches(bloom.hash, contents, e.0, e.1) {
        KeysOfHas(log, e);
        CoveredByOwn(bloom.hash, KeysOf(log, e.0 / FILTER_BASE), bloom.hash_size,
                     BytesFor(bloom.bits_key, |KeysOf(log, e.0 / FILTER_BASE)|) * 8, e.1);
        assert Answer(bloom, log, n, e.0, e.1);
      }
    }

    method AppendOffsets()
      modifies `result_
      ensures result_ == old(result_) + Fixed32s(filter_offsets_)
    {
      for i := 0 to |filter_offsets_|
        invariant result_ == old(result_) + Fixed32s(filter_offsets_[..i])
      {
        assert DropLast(filter_offsets_[..i + 1]) == filter_offsets_[..i];
        result_ := result_ + Fixed32(filter_offsets_[i]);
      }
      assert filter_offsets_[..|filter_offsets_|] == filter_offsets_;
    }
  }

  // ---------------------------------------------------------------- the reader

  /** `x >> k` */
  function ShiftRight(x: nat, k: nat): nat {
    if k == 0 then x else ShiftRight(x, k - 1) / 2
  }

  /** What `FilterBlockReader::KeyMayMatch` answers on any block contents. */
  ghost predicate ReaderMatches(hash: Hash, contents: seq<byte>, block_offset: nat, key: seq<byte>) {
    var n := |contents|;
    if n < 5 then true
    else
      var begin := DecodeFixed32(contents[n - 5..]);
      var index := ShiftRight(block_offset, contents[n - 1]);
      if begin > n - 5 || index >= (n - 5 - begin) / 4 then true
      else
        var start := DecodeFixed32(contents[begin + 4 * index..]);
        var limit := DecodeFixed32(contents[begin + 4 * index + 4..]);
        if start <= limit <= begin then MayMatch(hash, key, contents[start..limit]) else start != limit
  }

  /** The reader of these contents answers as it should, for every offset and key. */
  ghost predicate ReaderAnswers(bloom: BloomFilter, contents: seq<byte>, log: seq<(nat, seq<byte>)>, n: nat) {
    forall b, key :: ReaderMatches(bloom.hash, contents, b, key) <==> Answer(bloom, log, n, b, key)
  }

  class FilterBlockReader {
    const bloom: BloomFilter
    const data: seq<byte>
    var offset: nat
    var num: nat
    var base_lg: nat

    constructor (contents: seq<byte>, bloom: BloomFilter)
      ensures Valid() && data == contents && this.bloom == bloom
    {
      this.bloom := bloom;
      data := contents;
      offset, num, base_lg := 0, 0, 0;
      new;
      var n := |data|;
      if n < 5 {
        return;
      }
      base_lg := data[n - 1];
      var index_offset := DecodeFixed32(data[n - 5..]);
      if index_offset > n - 5 {
        return;
      }
      offset := index_offset;
      num := (n - 5 - index_offset) / 4;
    }

    ghost predicate Valid()
      reads this
    {
      var n := |data|;
      if n < 5 || DecodeFixed32(data[n - 5..]) > n - 5 then num == 0
      else base_lg == data[n - 1] && offset == DecodeFixed32(data[n - 5..]) && num == (n - 5 - offset) / 4
    }

    method KeyMayMatch(block_offset: nat, key: seq<byte>) returns (r: bool)
      requires Valid()
      ensures r <==> ReaderMatches(bloom.hash, data, block_offset, key)
    {
      var index := ShiftRight(block_offset, base_lg);
      if index < num {
        var start := DecodeFixed32(data[offset + 4 * index..]);
        var limit := DecodeFixed32(data[offset + 4 * index + 4..]);
        if start <= limit && limit <= offset {
          r := bloom.KeyMayMatch(key, data[start..limit]);
          return;
        } else if start == limit {
          return false;
        }
      }
      return true;
    }
  }

  /**
   On finished contents the reader answers, for every offset and key: yes behind the last filter, no for a filter
   without keys, and else whether its keys cover the probes of the wanted one.
   */
  lemma FinishedAnswer(bloom: BloomFilter, filters: seq<byte>, offsets: seq<uint32>, keys: seq<seq<seq<byte>>>,
                       block_offset: nat, key: seq<byte>)
    requires |filters| < UINT32_LIMIT && |offsets| == |keys| && |Contents(filters, offsets)| < UINT32_LIMIT
    requires forall k :: 0 <= k < |keys| ==> Segment(bloom, filters, offsets, keys, k)
    ensures var i := block_offset / FILTER_BASE;
            ReaderMatches(bloom.hash, Contents(filters, offsets), block_offset, key) <==>
              (i < |keys| ==>
                 && keys[i] != []
                 && Covered(bloom.hash, keys[i], bloom.hash_size, BytesFor(bloom.bits_key, |keys[i]|) * 8, key))
  {
    hide Contents, FilterFor, Fixed32s, DecodeFixed32, Covered;
    var contents, i := Contents(filters, offsets), block_offset / FILTER_BASE;
    FiltersFirst(filters, offsets);
    ReadTrailer(filters, offsets);
    ShiftEleven(block_offset);
    if i < |keys| {
      OffsetRead(filters, offsets, i);
      assert Segment(bloom, filters, offsets, keys, i);
      var start, end := offsets[i], EndOf(filters, offsets, i);
      SamePart(filters, contents, start, end);
      if keys[i] != [] {
        NoFalseNegatives(bloom.hash, keys[i], bloom.hash_size, BytesFor(bloom.bits_key, |keys[i]|), filters[start..end],
                         key);
      }
    }
  }

  lemma SameAnswer(bloom: BloomFilter, keys: seq<seq<seq<byte>>>, log: seq<(nat, seq<byte>)>, block_offset: nat,
                   key: seq<byte>)
    requires forall k :: 0 <= k < |keys| ==> keys[k] == KeysOf(log, k)
    ensures var i := block_offset / FILTER_BASE;
            Answer(bloom, log, |keys|, block_offset, key) <==>
              (i < |keys| ==>
                 && keys[i] != []
                 && Covered(bloom.hash, keys[i], bloom.hash_size, BytesFor(bloom.bits_key, |keys[i]|) * 8, key))
  {
  }

  lemma FiltersFirst(filters: seq<byte>, offsets: seq<uint32>)
    requires |filters| < UINT32_LIMIT
    ensures |filters| <= |Contents(filters, offsets)| && Contents(filters, offsets)[..|filters|] == filters
  {
  }

  lemma ShiftEleven(x: nat)
    ensures ShiftRight(x, FILTER_BASE_LG) == x / FILTER_BASE
  {
    ShiftFive(x);
    ShiftFive(x / 32);
    ShiftSplit(x, 5, 6);
    ShiftSplit(x / 32, 5, 1);
    assert x / 32 / 32 / 2 == x / 2048;
  }

  lemma ShiftFive(x: nat)
    ensures ShiftRight(x, 5) == x / 32
  {
    assert ShiftRight(x, 1) == x / 2;
    assert ShiftRight(x, 2) == x / 4;
    assert ShiftRight(x, 3) == x / 8;
    assert ShiftRight(x, 4) == x / 16;
  }

  lemma {:induction false} ShiftSplit(x: nat, a: nat, b: nat)
    ensures ShiftRight(x, a + b) == ShiftRight(ShiftRight(x, a), b)
  {
    if b > 0 {
      ShiftSplit(x, a, b - 1);
    }
  }

  /** The last five bytes say where the offsets start and what the base is. */
  lemma ReadTrailer(filters: seq<byte>, offsets: seq<uint32>)
    requires |filters| < UINT32_LIMIT
    ensures var contents := Contents(filters, offsets);
            var n := |contents|;
            && n == |filters| + 4 * |offsets| + 5
            && DecodeFixed32(contents[n - 5..]) == |filters|
            && contents[n - 1] == FILTER_BASE_LG
  {
    var contents := Contents(filters, offsets);
    Fixed32sLength(offsets);
    assert contents[|contents| - 5..] == Fixed32(|filters|) + [FILTER_BASE_LG];
    Fixed32RoundTrip(|filters|, [FILTER_BASE_LG]);
  }

  /** Reading entry i of the offset array gives where filter i starts and where it ends. */
  lemma OffsetRead(filters: seq<byte>, offsets: seq<uint32>, i: nat)
    requires |filters| < UINT32_LIMIT && i < |offsets|
    ensures var contents, at := Contents(filters, offsets), |filters| + 4 * i;
            && at + 8 <= |contents|
            && DecodeFixed32(contents[at..]) == offsets[i]
            && DecodeFixed32(contents[at + 4..]) == EndOf(filters, offsets, i)
  {
    hide Fixed32s, Fixed32, DecodeFixed32;
    var contents, at := Contents(filters, offsets), |filters| + 4 * i;
    var trailer := Fixed32(|filters|) + [FILTER_BASE_LG];
    Fixed32sLength(offsets);
    assert contents == filters + Fixed32s(offsets) + trailer;
    Fixed32sAt(offsets, i);
    InTheMiddle(filters, Fixed32s(offsets), trailer, 4 * i);
    ReadAt(contents, at, offsets[i]);
    if i + 1 < |offsets| {
      Fixed32sAt(offsets, i + 1);
      InTheMiddle(filters, Fixed32s(offsets), trailer, 4 * i + 4);
    } else {
      InTheMiddle(filters + Fixed32s(offsets), Fixed32(|filters|), [FILTER_BASE_LG], 0);
      assert contents == filters + Fixed32s(offsets) + Fixed32(|filters|) + [FILTER_BASE_LG];
      assert Fixed32(|filters|)[0..4] == Fixed32(|filters|);
    }
    ReadAt(contents, at + 4, EndOf(filters, offsets, i));
  }

  lemma InTheMiddle(a: seq<byte>, b: seq<byte>, c: seq<byte>, i: nat)
    requires i + 4 <= |b|
    ensures |a| + i + 4 <= |a + b + c| && (a + b + c)[|a| + i..|a| + i + 4] == b[i..i + 4]
  {
  }

  lemma ReadAt(s: seq<byte>, at: nat, v: uint32)
    requires at + 4 <= |s| && s[at..at + 4] == Fixed32(v)
    ensures DecodeFixed32(s[at..]) == v
  {
    assert s[at..] == s[at..at + 4] + s[at + 4..];
    Fixed32RoundTrip(v, s[at + 4..]);
  }

  lemma {:induction false} FlattenAt(keys: seq<seq<byte>>, i: nat)
    requires i < |keys|
    ensures var p := |Flatten(keys[..i])|;
            && p + |keys[i]| <= |Flatten(keys)|
            && Flatten(keys)[p..p + |keys[i]|] == keys[i]
            && |Flatten(keys[..i + 1])| == p + |keys[i]|
  {
    assert DropLast(keys[..i + 1]) == keys[..i];
    if i < |keys| - 1 {
      FlattenAt(DropLast(keys), i);
      assert DropLast(keys)[..i] == keys[..i] && DropLast(keys)[i] == keys[i];
    } else {
      assert keys[..i] == DropLast(keys) && keys[..i + 1] == keys;
    }
  }
}
