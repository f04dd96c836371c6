/**
 Reading a data block: `Block` and `Block::Iter` (src/db/block.h).

 The iterator over the bytes of a block is an integer cursor over the list the block was built from.
 */
module BlockIter {
  import opened Common
  import opened Coding
  import opened Keys
  import opened Block

  // ---------------------------------------------------------------- decoding one entry

  /** `DecodeEntry` on the bytes up to the limit: shared, non-shared and value lengths, and bytes used. */
  function DecodeEntry(s: seq<byte>): (r: Option<(uint32, uint32, uint32, nat)>)
    ensures r.Some? ==> r.value.3 <= |s|
  {
    if |s| < 3 then None
    else if s[0] < 128 && s[1] < 128 && s[2] < 128 then Checked(s, s[0], s[1], s[2], 3)
    else ThreeVarints(s)
  }

  function ThreeVarints(s: seq<byte>): (r: Option<(uint32, uint32, uint32, nat)>)
    ensures r.Some? ==> r.value.3 <= |s|
  {
    match GetVarint32(s)
    case None => None
    case Some((shared, r1)) =>
      match GetVarint32(r1)
      case None => None
      case Some((non_shared, r2)) =>
        match GetVarint32(r2)
        case None => None
        case Some((value_length, r3)) => Checked(s, shared, non_shared, value_length, |s| - |r3|)
  }

  /** The final length check, in 32-bit arithmetic. */
  function Checked(s: seq<byte>, shared: uint32, non_shared: uint32, value_length: uint32,
                   used: nat): (r: Option<(uint32, uint32, uint32, nat)>)
    requires used <= |s|
    ensures r.Some? ==> r.value.3 == used
  {
    if (|s| - used) % UINT32_LIMIT < (non_shared + value_length as int) % UINT32_LIMIT then None
    else Some((shared, non_shared, value_length, used))
  }

  lemma SomeByte(v: nat)
    ensures |Varint(v)| >= 1
  {
  }

  lemma SlowHeader(shared: uint32, non_shared: uint32, value_length: uint32, rest: seq<byte>)
    ensures var s := Varint(shared) + (Varint(non_shared) + (Varint(value_length) + rest));
            ThreeVarints(s) == Checked(s, shared, non_shared, value_length, |Header(shared, non_shared, value_length)|)
  {
    hide Varint, GetVarint32, ThreeVarints, Checked;
    var r2 := Varint(value_length) + rest;
    var r1 := Varint(non_shared) + r2;
    Varint32RoundTrip(shared, r1);
    Varint32RoundTrip(non_shared, r2);
    Varint32RoundTrip(value_length, rest);
    HeaderLength(Varint(shared), Varint(non_shared), Varint(value_length), rest);
    ThreeSteps(Varint(shared) + r1, shared, r1, non_shared, r2, value_length, rest);
  }

  lemma HeaderLength(a: seq<byte>, b: seq<byte>, c: seq<byte>, rest: seq<byte>)
    ensures |a + (b + (c + rest))| - |rest| == |a + b + c|
  {
  }

  lemma ThreeSteps(s: seq<byte>, shared: uint32, r1: seq<byte>, non_shared: uint32, r2: seq<byte>, value_length: uint32,
                   r3: seq<byte>)
    requires GetVarint32(s) == Some((shared, r1)) && GetVarint32(r1) == Some((non_shared, r2))
    requires GetVarint32(r2) == Some((value_length, r3))
    ensures |r3| <= |s| && ThreeVarints(s) == Checked(s, shared, non_shared, value_length, |s| - |r3|)
  {
  }

  /** The fast path gives what three varints give, on any bytes. */
  lemma FastIsSlow(s: seq<byte>)
    ensures DecodeEntry(s) == if |s| < 3 then None else ThreeVarints(s)
  {
    hide GetVarint32, Checked;
    if |s| >= 3 && s[0] < 128 && s[1] < 128 && s[2] < 128 {
      OneByte(s);
      OneByte(s[1..]);
      OneByte(s[2..]);
      assert s[1..][1..] == s[2..] && s[2..][1..] == s[3..];
    }
  }

  lemma OneByte(s: seq<byte>)
    requires s != [] && s[0] < 128
    ensures GetVarint32(s) == Some((s[0], s[1..]))
  {
  }

  /** The three lengths in front of anything are read back, whichever path reads them. */
  lemma DecodeHeader(shared: uint32, non_shared: uint32, value_length: uint32, rest: seq<byte>)
    ensures var h := Header(shared, non_shared, value_length);
            DecodeEntry(h + rest) == Checked(h + rest, shared, non_shared, value_length, |h|)
  {
    Concat4(Varint(shared), Varint(non_shared), Varint(value_length), rest);
    SlowHeader(shared, non_shared, value_length, rest);
    SomeByte(shared);
    SomeByte(non_shared);
    SomeByte(value_length);
    FastIsSlow(Header(shared, non_shared, value_length) + rest);
  }

  lemma DecodeEncoded(shared: nat, e: KV, rest: seq<byte>)
    requires shared <= |e.key| < UINT32_LIMIT && |Encoded(shared, e)| + |rest| < UINT32_LIMIT
    ensures DecodeEntry(Encoded(shared, e) + rest) ==
            Some((shared, |e.key| - shared, |e.value|, |Header(shared, |e.key| - shared, |e.value|)|))
  {
    hide Header, DecodeEntry;
    var h, k := Header(shared, |e.key| - shared, |e.value|), e.key[shared..];
    var tail := k + e.value + rest;
    assert |Encoded(shared, e)| == |h| + |k| + |e.value|;
    Concat4(h, k, e.value, rest);
    DecodeHeader(shared, |e.key| - shared, |e.value|, tail);
  }

  /** Where the parts of an encoded entry are. */
  lemma EncodedParts(shared: nat, e: KV)
    requires shared <= |e.key|
    ensures var s, h := Encoded(shared, e), |Header(shared, |e.key| - shared, |e.value|)|;
            var k := h + |e.key| - shared;
            |s| == k + |e.value| && s[h..k] == e.key[shared..] && s[k..] == e.value
  {
  }

  // ---------------------------------------------------------------- opening a block

  /** The `Block` constructor and `NewIterator`: where the restart array is and how many entries it has. */
  function OpenBlock(data: seq<byte>): (r: Option<(nat, nat)>)
    ensures r.Some? ==> r.value.1 > 0 && r.value.0 + 4 * r.value.1 + 4 == |data|
  {
    if |data| < 4 then None
    else
      var num := DecodeFixed32(data[|data| - 4..]);
      if num > (|data| - 4) / 4 then None
      else if num == 0 then None
      else Some((|data| - (1 + num) * 4, num))
  }

  lemma OpenImage(list: seq<KV>, interval: nat)
    requires Small(list, interval)
    ensures OpenBlock(Image(list, interval)) == Some((Off(list, interval, |list|), |RestartEntries(interval, |list|)|))
  {
    SmallOffsets(list, interval);
    var offsets := RestartOffsets(list, interval);
    var data := Image(list, interval);
    Fixed32sLength(offsets);
    Fixed32RoundTrip(|offsets|, []);
    OpenTrailer(Body(list, interval, |list|), Fixed32s(offsets), Fixed32(|offsets|), |offsets|);
  }

  lemma OpenTrailer(body: seq<byte>, offsets: seq<byte>, count: seq<byte>, n: uint32)
    requires n > 0 && |offsets| == 4 * n && |count| == 4 && DecodeFixed32(count + []) == n
    ensures OpenBlock(body + (offsets + count)) == Some((|body|, n))
  {
    var data := body + (offsets + count);
    assert data[|data| - 4..] == count + [];
  }

  /** Reading entry j of the restart array. */
  lemma RestartPoint(list: seq<KV>, interval: nat, j: nat)
    requires Small(list, interval) && j < |RestartEntries(interval, |list|)|
    ensures var data, at := Image(list, interval), Off(list, interval, |list|) + 4 * j;
            && at + 4 <= |data|
            && RestartEntries(interval, |list|)[j] <= |list|
            && DecodeFixed32(data[at..]) == Off(list, interval, RestartEntries(interval, |list|)[j])
  {
    hide Body, Fixed32s, Fixed32, DecodeFixed32, RestartEntries;
    SmallOffsets(list, interval);
    var offsets := RestartOffsets(list, interval);
    ReadFixed32s(Body(list, interval, |list|), offsets, Fixed32(|offsets|), j);
    Concat3(Body(list, interval, |list|), Fixed32s(offsets), Fixed32(|offsets|));
  }

  /** Four bytes in the middle of three parts. */
  lemma FourInside(front: seq<byte>, mid: seq<byte>, back: seq<byte>, i: nat)
    requires i + 4 <= |mid|
    ensures var data, at := front + mid + back, |front| + i;
            at + 4 <= |data| && data[at..] == mid[i..i + 4] + data[at + 4..]
  {
  }

  lemma ReadFixed32s(front: seq<byte>, values: seq<uint32>, back: seq<byte>, j: nat)
    requires j < |values|
    ensures var data, at := front + Fixed32s(values) + back, |front| + 4 * j;
            at + 4 <= |data| && DecodeFixed32(data[at..]) == values[j]
  {
    var data, at := front + Fixed32s(values) + back, |front| + 4 * j;
    hide Fixed32s, Fixed32, DecodeFixed32;
    Fixed32sAt(values, j);
    FourInside(front, Fixed32s(values), back, 4 * j);
    Fixed32RoundTrip(values[j], data[at + 4..]);
  }

  // ---------------------------------------------------------------- readable blocks

  /** A block as a reader meets it: its bytes, its list, entry offsets, shared lengths and restart entries. */
  datatype View = View(data: seq<byte>, end: nat, num: nat, list: seq<KV>, offs: seq<nat>, shares: seq<nat>,
                       starts: seq<nat>)
  {
    ghost predicate Shaped() {
      && |offs| == |list| + 1 && |shares| == |list| && |starts| == num > 0
      && offs[|list|] == end && starts[0] == 0 && end + 4 * num + 4 == |data|
    }

    ghost predicate OffLess(i: nat, j: nat)
      requires i < |offs| && j < |offs|
    {
      offs[i] < offs[j]
    }

    ghost predicate StartLess(j: nat, k: nat)
      requires j < |starts| && k < |starts|
    {
      starts[j] < starts[k]
    }

    ghost predicate Entry(i: nat)
      requires Shaped() && i < |list|
    {
      EntryOk(data, end, list[i], offs[i], offs[i + 1], shares[i]) && SharingOk(i)
    }

    /** Entry i takes over the first bytes of the key before it. */
    ghost predicate SharingOk(i: nat)
      requires Shaped() && i < |list|
    {
      && (i == 0 ==> shares[i] == 0)
      && shares[i] <= |list[i].key|
      && (i > 0 ==> shares[i] <= |list[i - 1].key| && list[i].key[..shares[i]] == list[i - 1].key[..shares[i]])
    }

    /** Restart point j: listed in the restart array, and stored with its whole key. */
    ghost predicate Start(j: nat)
      requires Shaped() && j < num
    {
      && starts[j] <= |list| && (j > 0 ==> starts[j] < |list|)
      && DecodeFixed32(data[end + 4 * j..]) == offs[starts[j]]
      && (starts[j] < |list| ==> shares[starts[j]] == 0)
    }

    ghost predicate Readable() {
      && Shaped()
      && (forall i :: 0 <= i < |list| ==> Entry(i))
      && (forall j :: 0 <= j < num ==> Start(j))
      && (forall i, j :: 0 <= i < j <= |list| ==> OffLess(i, j))
      && (forall j, k :: 0 <= j < k < num ==> StartLess(j, k))
    }
  }

  /** The entry between p and q decodes to the value and to the key from its first s bytes on. */
  ghost predicate EntryOk(data: seq<byte>, end: nat, e: KV, p: nat, q: nat, s: nat) {
    && p < q <= end <= |data|
    && s <= |e.key|
    && DecodeEntry(data[p..end]).Some?
    && var (shared, non_shared, value_length, used) := DecodeEntry(data[p..end]).value;
       && shared == s && non_shared == |e.key| - s && value_length == |e.value|
       && p + used + non_shared + value_length == q
       && data[p + used..p + used + non_shared] == e.key[s..]
       && data[p + used + non_shared..q] == e.value
  }

  function ViewOf(list: seq<KV>, interval: nat): View
    requires Small(list, interval)
  {
    View(Image(list, interval), Off(list, interval, |list|), |RestartEntries(interval, |list|)|, list,
         seq(|list| + 1, i requires 0 <= i <= |list| => Off(list, interval, i)),
         seq(|list|, i requires 0 <= i < |list| => Shared(list, interval, i)),
         RestartEntries(interval, |list|))
  }

  lemma ImageEntryOk(list: seq<KV>, interval: nat, i: nat)
    requires Small(list, interval) && i < |list|
    ensures EntryOk(Image(list, interval), Off(list, interval, |list|), list[i],
                    Off(list, interval, i), Off(list, interval, i + 1), Shared(list, interval, i))
  {
    hide Image, Off, Body, Small, EntryOk, Encoded, RestartEntries;
    var data, p, q, end := Image(list, interval), Off(list, interval, i), Off(list, interval, i + 1),
      Off(list, interval, |list|);
    EntryInImage(list, interval, i);
    OffStep(list, interval, i);
    SmallEntry(list, interval, i);
    EncodedIsEntry(data, p, q, end, Shared(list, interval, i), list[i]);
  }

  lemma SmallEntry(list: seq<KV>, interval: nat, i: nat)
    requires Small(list, interval) && i < |list|
    ensures |list[i].key| < UINT32_LIMIT && |Image(list, interval)| < UINT32_LIMIT
  {
    SmallOffsets(list, interval);
    Fixed32sLength(RestartOffsets(list, interval));
  }

  /** An encoded entry in the data is an entry that reads back. */
  lemma EncodedIsEntry(data: seq<byte>, p: nat, q: nat, end: nat, s: nat, e: KV)
    requires p < q <= end <= |data| < UINT32_LIMIT && s <= |e.key| < UINT32_LIMIT
    requires data[p..end] == Encoded(s, e) + data[q..end] && |Encoded(s, e)| == q - p
    ensures EntryOk(data, end, e, p, q, s)
  {
    hide Header, DecodeEntry;
    DecodeEncoded(s, e, data[q..end]);
    EncodedParts(s, e);
    var used := |Header(s, |e.key| - s, |e.value|)|;
    SubWindow(data, p, end, Encoded(s, e), used, used + |e.key| - s);
  }

  /** Slices of the data at p are slices of the bytes that start there. */
  lemma SubWindow(data: seq<byte>, p: nat, end: nat, entry: seq<byte>, i: nat, k: nat)
    requires p <= end <= |data| && |entry| <= end - p && data[p..end][..|entry|] == entry && i <= k <= |entry|
    ensures data[p + i..p + k] == entry[i..k]
    ensures data[p + k..p + |entry|] == entry[k..]
  {
    forall m | 0 <= m < |entry| ensures data[p + m] == entry[m] {
      assert data[p..end][m] == data[p..end][..|entry|][m];
    }
  }

  /** The bytes between an entry's offset and the restart array start with that entry. */
  lemma EntryInImage(list: seq<KV>, interval: nat, i: nat)
    requires Small(list, interval) && i < |list|
    ensures var data, p, q, end := Image(list, interval), Off(list, interval, i), Off(list, interval, i + 1),
            Off(list, interval, |list|);
            && p < q <= end <= |data|
            && data[p..end] == EntryBytes(list, interval, i) + data[q..end]
  {
    var data, p, q, end := Image(list, interval), Off(list, interval, i), Off(list, interval, i + 1),
      Off(list, interval, |list|);
    OffMonotone(list, interval, i, i + 1);
    OffMonotone(list, interval, i + 1, |list|);
    EntryAt(list, interval, i);
    var b := Body(list, interval, |list|);
    assert data[..end] == b;
    assert data[p..end] == b[p..] && data[q..end] == b[q..];
  }

  /** The bytes of a built block are readable as the list they were built from. */
  lemma ImageReadable(list: seq<KV>, interval: nat)
    requires Small(list, interval)
    ensures ViewOf(list, interval).Readable()
    ensures OpenBlock(Image(list, interval)) == Some((ViewOf(list, interval).end, ViewOf(list, interval).num))
  {
    OpenImage(list, interval);
    var v := ViewOf(list, interval);
    ViewShaped(list, interval);
    forall i, j | 0 <= i < j <= |list| ensures v.OffLess(i, j) {
      OffMonotone(list, interval, i, j);
    }
    forall i | 0 <= i < |list| ensures v.Entry(i) {
      ViewEntry(list, interval, i);
    }
    forall j | 0 <= j < v.num ensures v.Start(j) {
      ViewStart(list, interval, j);
    }
    forall j, k | 0 <= j < k < v.num ensures v.StartLess(j, k) {
    }
  }

  lemma ViewShaped(list: seq<KV>, interval: nat)
    requires Small(list, interval)
    ensures ViewOf(list, interval).Shaped()
  {
    OpenImage(list, interval);
  }

  lemma ViewEntry(list: seq<KV>, interval: nat, i: nat)
    requires Small(list, interval) && i < |list| && ViewOf(list, interval).Shaped()
    ensures ViewOf(list, interval).Entry(i)
  {
    hide Image, Body, Small, EntryOk, RestartEntries;
    ImageEntryOk(list, interval, i);
  }

  lemma ViewStart(list: seq<KV>, interval: nat, j: nat)
    requires Small(list, interval) && ViewOf(list, interval).Shaped() && j < ViewOf(list, interval).num
    ensures ViewOf(list, interval).Start(j)
  {
    hide Image, Small, EntryOk;
    RestartPoint(list, interval, j);
  }

  // ---------------------------------------------------------------- the iterator

  lemma JoinKey(buffer: seq<byte>, s: nat, rest: seq<byte>, key: seq<byte>)
    requires s <= |buffer| && s <= |key| && buffer[..s] == key[..s] && rest == key[s..]
    ensures buffer[..s] + rest == key
  {
  }

  class Iter {
    const data: seq<byte>
    const restarts_: nat
    const num_restarts_: nat
    var current_: nat
    var restart_index_: nat
    var key_: seq<byte>
    /** `value_` is a view: where it starts and how long it is. */
    var value_at: nat
    var value_len: nat

    ghost const v: View
    /** Index of the current entry; the length of the list means invalid. */
    ghost var cursor: nat

    ghost predicate Static() {
      v.Readable() && v.data == data && v.end == restarts_ && v.num == num_restarts_
    }

    /** The restart index is at or before entry i. */
    ghost predicate Reached(i: nat)
      requires Static()
      reads `restart_index_
    {
      restart_index_ < num_restarts_ && v.starts[restart_index_] <= i
    }

    /** The iterator stands on entry c. Its restart index may lag one behind, but no more. */
    ghost predicate At(c: nat)
      requires Static()
      reads this
    {
      && c < |v.list|
      && current_ == v.offs[c] < restarts_
      && key_ == v.list[c].key
      && value_at + value_len == v.offs[c + 1]
      && value_at + value_len <= |data| && data[value_at..value_at + value_len] == v.list[c].value
      && Reached(c)
      && (restart_index_ + 1 < num_restarts_ ==> c <= v.starts[restart_index_ + 1])
    }

    ghost predicate Inv()
      reads this
    {
      && Static() && cursor <= |v.list|
      && (cursor < |v.list| ==> At(cursor))
      && (cursor == |v.list| ==> current_ == restarts_)
    }

    /** The next entry to be parsed is i, and the key buffer holds the bytes it shares. */
    ghost predicate Ready(i: nat)
      requires Static()
      reads this
    {
      && i <= |v.list|
      && value_at + value_len == v.offs[i]
      && Reached(i)
      && (i < |v.list| ==>
            && v.shares[i] <= |key_| && v.shares[i] <= |v.list[i].key|
            && key_[..v.shares[i]] == v.list[i].key[..v.shares[i]])
    }

    constructor (data: seq<byte>, restarts: nat, num_restarts: nat, ghost v: View)
      requires v.Readable() && v.data == data && v.end == restarts && v.num == num_restarts
      ensures Inv() && !Valid() && this.v == v && this.data == data
    {
      this.data, this.restarts_, this.num_restarts_ := data, restarts, num_restarts;
      this.v := v;
      current_, restart_index_ := restarts, num_restarts;
      key_, value_at, value_len := [], 0, 0;
      cursor := |v.list|;
    }

    /** Being valid means standing on an entry of the list. */
    predicate Valid()
      requires Inv()
      reads this
      ensures Valid() <==> cursor < |v.list|
    {
      current_ < restarts_
    }

    function Key(): (k: seq<byte>)
      requires Inv() && Valid()
      reads this
      ensures k == v.list[cursor].key
    {
      key_
    }

    function Value(): (r: seq<byte>)
      requires Inv() && Valid()
      reads this
      ensures r == v.list[cursor].value
    {
      data[value_at..value_at + value_len]
    }

    function NextEntryOffset(): nat
      reads this
    {
      value_at + value_len
    }

    function GetRestartPoint(index: nat): (offset: nat)
      requires Static() && index < num_restarts_
      ensures v.starts[index] <= |v.list| && offset == v.offs[v.starts[index]]
    {
      assert v.Start(index);
      DecodeFixed32(data[restarts_ + 4 * index..])
    }

    /** Offsets order entries as their numbers do. */
    lemma OffsetOrder(i: nat, j: nat)
      requires Static() && i <= |v.list| && j <= |v.list|
      ensures v.offs[i] < v.offs[j] <==> i < j
    {
      if i < j {
        assert v.OffLess(i, j);
      } else if j < i {
        assert v.OffLess(j, i);
      }
    }

    method SeekToRestartPoint(index: nat)
      requires Static() && index < num_restarts_
      modifies this
      ensures v.starts[index] <= |v.list| && Ready(v.starts[index])
      ensures restart_index_ == index && cursor == old(cursor)
    {
      key_ := [];
      restart_index_ := index;
      var offset := GetRestartPoint(index);
      value_at, value_len := offset, 0;
      assert v.Start(index);
    }

    /** Parses the next entry, number i; at the end of the entries the iterator becomes invalid. */
    method ParseNextKey(ghost i: nat) returns (ok: bool)
      requires Static() && Ready(i)
      modifies this
      ensures Inv() && cursor == i && (ok <==> i < |v.list|)
    {
      current_ := NextEntryOffset();
      cursor := i;
      OffsetOrder(i, |v.list|);
      if current_ >= restarts_ {
        current_ := restarts_;
        restart_index_ := num_restarts_;
        return false;
      }
      ok := TakeEntry(i);
      AdvanceRestartIndex(i);
    }

    /** The middle of `ParseNextKey`: decode at `current_`, rebuild the key, point the value view. */
    method TakeEntry(ghost i: nat) returns (ok: bool)
      requires Static() && i < |v.list| && current_ == v.offs[i]
      requires v.shares[i] <= |key_| && v.shares[i] <= |v.list[i].key|
      requires key_[..v.shares[i]] == v.list[i].key[..v.shares[i]]
      modifies `key_, `value_at, `value_len
      ensures ok && key_ == v.list[i].key
      ensures value_at + value_len == v.offs[i + 1] <= |data|
      ensures data[value_at..value_at + value_len] == v.list[i].value
    {
      hide DecodeEntry;
      assert v.Entry(i);
      var entry := DecodeEntry(data[current_..restarts_]);
      if entry.None? || |key_| < entry.value.0 {
        // "bad entry in block": not reachable on readable bytes
        assert false;
      }
      var (shared, non_shared, value_length, used) := entry.value;
      var p := current_ + used;
      var rest := data[p..p + non_shared];
      JoinKey(key_, shared, rest, v.list[i].key);
      key_ := key_[..shared] + rest;
      value_at, value_len := p + non_shared, value_length;
      ok := true;
    }

    /** `while (restart_index_ + 1 < num_restarts_ && GetRestartPoint(restart_index_ + 1) < current_)` */
    method AdvanceRestartIndex(ghost i: nat)
      requires Static() && Reached(i) && i <= |v.list| && current_ == v.offs[i]
      modifies `restart_index_
      ensures Reached(i)
      ensures restart_index_ + 1 < num_restarts_ ==> i <= v.starts[restart_index_ + 1]
    {
      while restart_index_ + 1 < num_restarts_ && GetRestartPoint(restart_index_ + 1) < current_
        invariant Reached(i)
        decreases num_restarts_ - restart_index_
      {
        restart_index_ := restart_index_ + 1;
        OffsetOrder(v.starts[restart_index_], i);
      }
      if restart_index_ + 1 < num_restarts_ {
        assert v.Start(restart_index_ + 1);
        OffsetOrder(v.starts[restart_index_ + 1], i);
      }
    }

    /** From entry c the next one is ready to be parsed. */
    lemma NextReady(c: nat)
      requires Static() && At(c)
      ensures Ready(c + 1)
    {
      if c + 1 < |v.list| {
        assert v.Entry(c + 1);
      }
    }

    /** `while (ParseNextKey() && NextEntryOffset() < end)`: stops on the entry just before entry c. */
    method ScanTo(ghost from: nat, ghost c: nat, end: nat)
      requires Static() && Ready(from) && c <= |v.list| && end == v.offs[c]
      requires from < c || from == c == |v.list|
      modifies this
      ensures Inv() && cursor == if from == c then c else c - 1
    {
      ghost var i := from;
      var ok := ParseNextKey(i);
      while ok && NextEntryOffset() < end
        invariant Inv() && cursor == i
        invariant ok <==> i < |v.list|
        invariant i < c || i == from == c == |v.list|
        decreases |v.list| - i
      {
        NextReady(i);
        OffsetOrder(i + 1, c);
        i := i + 1;
        ok := ParseNextKey(i);
      }
      if ok {
        OffsetOrder(i + 1, c);
      }
    }

    method SeekToFirst()
      requires Static()
      modifies this
      ensures Inv() && cursor == 0
    {
      SeekToRestartPoint(0);
      var _ := ParseNextKey(0);
    }

    method SeekToLast()
      requires Static()
      modifies this
      ensures Inv() && cursor == if |v.list| == 0 then 0 else |v.list| - 1
    {
      SeekToRestartPoint(num_restarts_ - 1);
      assert v.Start(num_restarts_ - 1);
      ScanTo(v.starts[num_restarts_ - 1], |v.list|, restarts_);
    }

    method Next()
      requires Inv() && Valid()
      modifies this
      ensures Inv() && cursor == old(cursor) + 1
    {
      NextReady(cursor);
      var _ := ParseNextKey(cursor + 1);
    }

    /** `Prev` undoes `Next`; in front of the first entry it makes the iterator invalid. */
    method Prev()
      requires Inv() && Valid()
      modifies this
      ensures Inv() && cursor == if old(cursor) == 0 then |v.list| else old(cursor) - 1
    {
      var now_offset := current_;
      while GetRestartPoint(restart_index_) >= now_offset
        invariant Static() && cursor == old(cursor) && restart_index_ < num_restarts_
        decreases restart_index_
      {
        OffsetOrder(v.starts[restart_index_], cursor);
        if restart_index_ == 0 {
          current_ := restarts_;
          restart_index_ := num_restarts_;
          cursor := |v.list|;
          return;
        }
        restart_index_ := restart_index_ - 1;
      }
      OffsetOrder(v.starts[restart_index_], cursor);
      SeekToRestartPoint(restart_index_);
      ScanTo(v.starts[restart_index_], cursor, now_offset);
    }

    ghost predicate Increasing() {
      && (forall i :: 0 <= i < |v.list| ==> |v.list[i].key| >= 8)
      && forall i, j :: 0 <= i < j < |v.list| ==> CmpView(v.list[i].key, v.list[j].key) < 0
    }

    ghost predicate Below(i: nat, target: seq<byte>)
      requires i < |v.list| && |v.list[i].key| >= 8 && |target| >= 8
    {
      CmpView(v.list[i].key, target) < 0
    }

    /** Decodes the whole key stored at a restart point, as the binary search does. */
    method RestartKey(index: nat) returns (key: seq<byte>)
      requires Static() && 0 < index < num_restarts_
      ensures v.starts[index] < |v.list| && key == v.list[v.starts[index]].key
    {
      hide DecodeEntry;
      var region_offset := GetRestartPoint(index);
      assert v.Start(index) && v.Entry(v.starts[index]);
      var entry := DecodeEntry(data[region_offset..restarts_]);
      if entry.None? || entry.value.0 != 0 {
        // not reachable on readable bytes
        assert false;
      }
      var (shared, non_shared, value_length, used) := entry.value;
      key := data[region_offset + used..region_offset + used + non_shared];
    }

    /** The binary search of `Seek`: the last restart point below the target, or the first if there is none. */
    method FindRestart(target: seq<byte>) returns (left: nat)
      requires Static() && Increasing() && |target| >= 8
      ensures left < num_restarts_
      ensures left > 0 ==> v.starts[left] < |v.list| && Below(v.starts[left], target)
      ensures left + 1 < num_restarts_ ==> v.starts[left + 1] < |v.list| && !Below(v.starts[left + 1], target)
    {
      hide View.Entry, View.Start, View.OffLess, View.StartLess, CmpView;
      left := 0;
      var right := num_restarts_ - 1;
      while left < right
        invariant 0 <= left <= right < num_restarts_
        invariant left > 0 ==> v.starts[left] < |v.list| && Below(v.starts[left], target)
        invariant right + 1 < num_restarts_ ==> v.starts[right + 1] < |v.list| && !Below(v.starts[right + 1], target)
      {
        var mid := (left + right + 1) / 2;
        var mid_key := RestartKey(mid);
        if CmpView(mid_key, target) < 0 {
          left := mid;
        } else {
          right := mid - 1;
        }
      }
    }

    /** Stops at the first entry not below the target, or is invalid if there is none. */
    method Seek(target: seq<byte>)
      requires Static() && Increasing() && |target| >= 8
      modifies this
      ensures Inv()
      ensures forall i :: 0 <= i < cursor ==> Below(i, target)
      ensures cursor < |v.list| ==> !Below(cursor, target)
    {
      hide View.Entry, View.Start, View.OffLess, View.StartLess, CmpView;
      var left := FindRestart(target);
      BelowRestart(left, target);
      SeekToRestartPoint(left);
      ghost var i := v.starts[left];
      var ok := ParseNextKey(i);
      while ok && CmpView(key_, target) < 0
        invariant Inv() && cursor == i && (ok <==> i < |v.list|)
        invariant forall k :: 0 <= k < i ==> Below(k, target)
        decreases |v.list| - i
      {
        assert Below(i, target);
        NextReady(i);
        i := i + 1;
        ok := ParseNextKey(i);
      }
    }

    /** Entries in front of a restart point below the target are below it too. */
    lemma BelowRestart(left: nat, target: seq<byte>)
      requires Static() && Increasing() && |target| >= 8 && left < num_restarts_
      requires left > 0 ==> v.starts[left] < |v.list| && Below(v.starts[left], target)
      ensures v.starts[left] <= |v.list|
      ensures forall k :: 0 <= k < v.starts[left] ==> Below(k, target)
    {
      KeyOrder();
      forall k | 0 <= k < v.starts[left] ensures Below(k, target) {
        var a, b := v.list[k].key, v.list[v.starts[left]].key;
        assert CmpView(a, b) == Cmp(Decode(a), Decode(b));
        assert Lt(Decode(a), Decode(b)) && Lt(Decode(b), Decode(target));
      }
    }
  }

  /** Opens the contents of a finished builder: the iterator is a cursor over the entries that were added. */
  method NewIterator(data: seq<byte>, ghost list: seq<KV>, ghost interval: nat) returns (iter: Iter)
    requires Small(list, interval) && data == Image(list, interval)
    ensures fresh(iter) && iter.Inv() && iter.v.list == list && iter.data == data && iter.cursor == |list|
  {
    ImageReadable(list, interval);
    var (restarts, num) := OpenBlock(data).value;
    iter := new Iter(data, restarts, num, ViewOf(list, interval));
  }

  // ---------------------------------------------------------------- there and back

  /** An upper bound for the bytes of a block with these entries. */
  function Budget(list: seq<KV>): nat {
    if list == [] then 8 else Budget(DropLast(list)) + |Last(list).key| + |Last(list).value| + 19
  }

  lemma {:induction false} BudgetPrefix(list: seq<KV>, i: nat)
    requires i <= |list|
    ensures Budget(list[..i]) <= Budget(list)
  {
    if i < |list| {
      BudgetPrefix(DropLast(list), i);
      assert DropLast(list)[..i] == list[..i];
    } else {
      assert list[..i] == list;
    }
  }

  lemma {:induction false} RestartCount(interval: nat, n: nat)
    ensures |RestartEntries(interval, n)| <= n + 1
  {
    if n > 1 {
      RestartCount(interval, n - 1);
    }
  }

  method BuildBlock(list: seq<KV>, interval: nat) returns (contents: seq<byte>)
    requires interval >= 1 && Budget(list) < UINT32_LIMIT
    ensures Small(list, interval) && contents == Image(list, interval)
  {
    var builder := new Blockbuilder(interval);
    assert list[..0] == [];
    for i := 0 to |list|
      invariant fresh(builder) && builder.Valid() && !builder.finished && builder.interval == interval
      invariant builder.list == list[..i] && |builder.buffer| + 4 * i + 8 <= Budget(list[..i])
    {
      BudgetPrefix(list, i + 1);
      assert DropLast(list[..i + 1]) == list[..i] && Last(list[..i + 1]) == list[i];
      assert list[..i + 1] == list[..i] + [KV(list[i].key, list[i].value)];
      builder.Add(list[i].key, list[i].value);
    }
    assert list[..|list|] == list;
    RestartCount(interval, |list|);
    builder.RestartsListed();
    contents := builder.Finish();
  }

  /**
   Block round trip. Any list of entries, built with any restart interval and read through the iterator,
   comes back entry by entry, forwards by `Next` and backwards by `Prev`.
   */
  method BuildThenRead(list: seq<KV>, interval: nat) returns (forward: seq<KV>, backward: seq<KV>)
    requires interval >= 1 && Budget(list) < UINT32_LIMIT
    ensures forward == list
    ensures |backward| == |list| && forall i :: 0 <= i < |list| ==> backward[i] == list[|list| - 1 - i]
  {
    hide View.Readable, Small, Image, Budget;
    var contents := BuildBlock(list, interval);
    var iter := NewIterator(contents, list, interval);
    forward := ReadForward(iter);
    backward := ReadBackward(iter);
  }

  method ReadForward(iter: Iter) returns (got: seq<KV>)
    requires iter.Inv()
    modifies iter
    ensures iter.Inv() && got == iter.v.list
  {
    iter.SeekToFirst();
    got := [];
    while iter.Valid()
      invariant iter.Inv() && got == iter.v.list[..iter.cursor]
      decreases |iter.v.list| - iter.cursor
    {
      ghost var c := iter.cursor;
      got := got + [KV(iter.Key(), iter.Value())];
      iter.Next();
      assert iter.v.list[..c + 1] == iter.v.list[..c] + [iter.v.list[c]];
    }
    assert iter.v.list[..|iter.v.list|] == iter.v.list;
  }

  method ReadBackward(iter: Iter) returns (got: seq<KV>)
    requires iter.Inv()
    modifies iter
    ensures iter.Inv() && |got| == |iter.v.list|
    ensures forall i :: 0 <= i < |got| ==> got[i] == iter.v.list[|got| - 1 - i]
  {
    iter.SeekToLast();
    got := [];
    ghost var n := |iter.v.list|;
    while iter.Valid()
      invariant iter.Inv() && |got| <= n
      invariant if |got| < n then iter.cursor == n - 1 - |got| else iter.cursor == n
      invariant forall i :: 0 <= i < |got| ==> got[i] == iter.v.list[n - 1 - i]
      decreases n - |got|
    {
      got := got + [KV(iter.Key(), iter.Value())];
      iter.Prev();
    }
  }
}
