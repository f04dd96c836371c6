/**
 The memtable (src/db/memtable.cpp) over a sorted map in place of the skip list, with the node layout of
 src/util/key.h and src/util/skiplistpg.cpp.
 */
module Memtable {
  import opened Common
  import opened Coding
  import opened Keys
  import opened Lookup

  // ---------------------------------------------------------------- a sorted map of entries

  /** Inserts an entry in key order; an entry with the same key is replaced. */
  function Upsert(s: seq<Entry>, e: Entry): seq<Entry> {
    if s == [] || Lt(e.key, s[0].key) then [e] + s
    else if e.key == s[0].key then [e] + s[1..]
    else [s[0]] + Upsert(s[1..], e)
  }

  lemma {:induction false} UpsertCorrect(s: seq<Entry>, e: Entry)
    requires Sorted(s)
    ensures Sorted(Upsert(s, e))
    ensures forall x :: x in Upsert(s, e) <==> x == e || (x in s && x.key != e.key)
  {
    KeyOrder();
    hide Lt;
    if s != [] {
      FirstIsLeast(s);
      if Lt(s[0].key, e.key) {
        UpsertCorrect(s[1..], e);
        var r := Upsert(s[1..], e);
        forall i | 0 <= i < |r| ensures Lt(s[0].key, r[i].key) {
          assert r[i] in r;
        }
      }
    }
  }

  lemma FirstIsLeast(s: seq<Entry>)
    requires Sorted(s) && s != []
    ensures s == [s[0]] + s[1..] && forall x :: x in s[1..] ==> Lt(s[0].key, x.key)
  {
  }

  // ---------------------------------------------------------------- node layout

  /** What `Memtable::Add` writes into the arena. */
  function ArenaEntry(key: InternalKey, value: seq<byte>): seq<byte> {
    LengthPrefixed(Encode(key)) + LengthPrefixed(value)
  }

  /** `SkiplistKey::Key`: the length-prefixed internal key at the front. */
  function NodeKey(buf: seq<byte>): Option<seq<byte>> {
    match GetVarint32(buf)
    case None => None
    case Some((size, rest)) => if size <= |rest| then Some(rest[..size]) else None
  }

  /**
   `SkiplistKey::Val`: copies the value's length prefix and the value. The string they are copied into is
   given the length of the value alone; the bytes behind that length are still read back by `Memtable::Get`.
   */
  function NodeVal(buf: seq<byte>): Option<seq<byte>> {
    match GetVarint32(buf)
    case None => None
    case Some((key_size, rest)) =>
      if key_size > |rest| then None
      else
        match GetVarint32(rest[key_size..])
        case None => None
        case Some((val_size, _)) =>
          var copied := val_size + |Varint(val_size)|;
          if key_size + copied <= |rest| then Some(rest[key_size..key_size + copied]) else None
  }

  lemma NodeOfArenaEntry(key: InternalKey, value: seq<byte>)
    requires |key.user| + 8 < UINT32_LIMIT && |value| < UINT32_LIMIT
    ensures NodeKey(ArenaEntry(key, value)) == Some(Encode(key))
    ensures NodeVal(ArenaEntry(key, value)) == Some(LengthPrefixed(value))
  {
    var k, v := Encode(key), LengthPrefixed(value);
    assert ArenaEntry(key, value) == Varint(|k|) + (k + v);
    Varint32RoundTrip(|k|, k + v);
    assert (k + v)[..|k|] == k && (k + v)[|k|..] == v;
    Varint32RoundTrip(|value|, value);
    assert (k + v)[|k|..|k| + |v|] == v;
  }

  /** The value string of a node as a table builder sees it: cut to the length of the value. */
  function FlushedValue(value: seq<byte>): (r: seq<byte>)
    ensures |r| == |value|
  {
    LengthPrefixed(value)[..|value|]
  }

  predicate Repeats(prefix: seq<byte>, value: seq<byte>) {
    prefix != [] && forall i :: 0 <= i < |value| ==> value[i] == prefix[i % |prefix|]
  }

  /** The value is its own length prefix, repeated. */
  predicate RepeatsItsLength(value: seq<byte>) {
    Repeats(Varint(|value|), value)
  }

  /** Flushing keeps a value if and only if the value is its own length prefix, repeated. */
  lemma FlushedValueKept(value: seq<byte>)
    ensures FlushedValue(value) == value <==> RepeatsItsLength(value)
  {
    VarintNotEmpty(|value|);
    KeptRepeats(Varint(|value|), value);
    RepeatsKept(Varint(|value|), value);
  }

  lemma KeptRepeats(prefix: seq<byte>, value: seq<byte>)
    requires prefix != []
    ensures (prefix + value)[..|value|] == value ==> Repeats(prefix, value)
  {
    if (prefix + value)[..|value|] == value {
      assert forall i :: 0 <= i < |value| ==> value[i] == (prefix + value)[..|value|][i];
      forall i | 0 <= i < |value| ensures value[i] == prefix[i % |prefix|] {
        Periodic(prefix, value, i);
      }
    }
  }

  lemma RepeatsKept(prefix: seq<byte>, value: seq<byte>)
    requires prefix != []
    ensures Repeats(prefix, value) ==> (prefix + value)[..|value|] == value
  {
    if Repeats(prefix, value) {
      forall i | 0 <= i < |value| ensures (prefix + value)[i] == value[i] {
        RepeatsAt(prefix, value, i);
      }
    }
  }

  lemma RepeatsAt(prefix: seq<byte>, value: seq<byte>, i: nat)
    requires Repeats(prefix, value) && i < |value|
    ensures (prefix + value)[i] == value[i]
  {
    var n := |prefix|;
    if i >= n {
      ModMinus(i, n);
      assert (prefix + value)[i] == value[i - n];
    } else {
      ModUnique(i, 0, i, n);
    }
  }

  lemma VarintNotEmpty(v: nat)
    ensures Varint(v) != []
  {
  }

  lemma ModMinus(i: nat, n: nat)
    requires i >= n > 0
    ensures i % n == (i - n) % n
  {
    var q := (i - n) / n;
    assert i == (q + 1) * n + (i - n) % n;
    ModUnique(i, q + 1, (i - n) % n, n);
  }

  lemma {:induction false} Periodic(prefix: seq<byte>, value: seq<byte>, i: nat)
    requires prefix != [] && i < |value|
    requires forall k :: 0 <= k < |value| ==> value[k] == (prefix + value)[k]
    ensures value[i] == prefix[i % |prefix|]
  {
    assert value[i] == (prefix + value)[i];
    if i >= |prefix| {
      Periodic(prefix, value, i - |prefix|);
      ModMinus(i, |prefix|);
    }
  }

  /** A read after a flush loses, for instance, the one-byte value 7. */
  lemma FlushLosesAValue()
    ensures FlushedValue([7]) == [1]
  {
    assert LengthPrefixed([7]) == [1, 7];
  }

  // ---------------------------------------------------------------- the memtable

  /** The nodes of the skip list: each value as `NodeVal` leaves it. */
  function Nodes(contents: seq<Entry>): (r: seq<Entry>)
    ensures |r| == |contents|
    ensures forall i :: 0 <= i < |r| ==> r[i] == Entry(contents[i].key, LengthPrefixed(contents[i].value))
  {
    seq(|contents|, i requires 0 <= i < |contents| => Entry(contents[i].key, LengthPrefixed(contents[i].value)))
  }

  /** The entries that a flush hands to the table builder. */
  function Flushed(contents: seq<Entry>): (r: seq<Entry>)
    ensures |r| == |contents|
    ensures forall i :: 0 <= i < |r| ==> r[i] == Entry(contents[i].key, FlushedValue(contents[i].value))
  {
    seq(|contents|, i requires 0 <= i < |contents| => Entry(contents[i].key, FlushedValue(contents[i].value)))
  }

  lemma {:induction false} UpsertNodes(contents: seq<Entry>, e: Entry)
    ensures Nodes(Upsert(contents, e)) == Upsert(Nodes(contents), Entry(e.key, LengthPrefixed(e.value)))
  {
    var n := Entry(e.key, LengthPrefixed(e.value));
    if contents == [] || Lt(e.key, contents[0].key) {
      assert Nodes([e] + contents) == [n] + Nodes(contents);
    } else if e.key == contents[0].key {
      assert Nodes([e] + contents[1..]) == [n] + Nodes(contents)[1..];
    } else {
      UpsertNodes(contents[1..], e);
      assert Nodes(contents)[1..] == Nodes(contents[1..]);
      assert Nodes([contents[0]] + Upsert(contents[1..], e)) == [Nodes(contents)[0]] + Nodes(Upsert(contents[1..], e));
    }
  }

  lemma {:induction false} NodesBound(contents: seq<Entry>, target: InternalKey)
    ensures LowerBound(Nodes(contents), target) == LowerBound(contents, target)
  {
    LowerBoundUnique(Nodes(contents), target, LowerBound(contents, target));
  }

  /** Entries as `Add` makes them. */
  predicate SoundEntry(e: Entry) {
    Kind(e.key.tag) <= TYPE_VALUE && |e.key.user| + 8 < UINT32_LIMIT && |e.value| < UINT32_LIMIT
  }

  lemma UpsertSound(contents: seq<Entry>, e: Entry)
    requires Sorted(contents) && SoundEntry(e) && forall x :: x in contents ==> SoundEntry(x)
    ensures forall x :: x in Upsert(contents, e) ==> SoundEntry(x)
  {
    UpsertCorrect(contents, e);
  }

  lemma SplitByte(q: nat, r: nat)
    requires r < 256
    ensures (q * 256 + r) % 256 == r && (q * 256 + r) / 256 == q
  {
  }

  lemma TagParts(sequence: nat, kind: nat)
    requires kind <= TYPE_VALUE
    ensures Kind(PackSequenceAndType(sequence, kind)) == kind
    ensures sequence <= MAX_SEQUENCE ==> Sequence(PackSequenceAndType(sequence, kind)) == sequence
  {
    hide LowBits56;
    SplitByte(LowBits56(sequence), kind);
    SmallSequence(sequence);
  }

  lemma SmallSequence(sequence: nat)
    ensures sequence <= MAX_SEQUENCE ==> LowBits56(sequence) == sequence
  {
  }

  /** The four low bits that `Memtable::Get` looks at. */
  lemma LowBits(tag: uint64)
    requires Kind(tag) <= TYPE_VALUE
    ensures tag % 16 == Kind(tag)
  {
    var q := tag / 256;
    assert tag == 256 * q + Kind(tag);
  }

  lemma ValueOfNode(value: seq<byte>)
    requires |value| < UINT32_LIMIT
    ensures GetLengthPrefixed(LengthPrefixed(value)) == Some((value, []))
  {
    LengthPrefixedRoundTrip(value, []);
    assert LengthPrefixed(value) + [] == LengthPrefixed(value);
  }

  lemma NodeParts(a: seq<byte>, b: seq<byte>, c: seq<byte>, d: seq<byte>, e: seq<byte>)
    ensures a + b + c + d + e == a + (b + c) + (d + e)
  {
  }

  class Memtable {
    /** The skip list, as a run of nodes in key order. */
    var table: seq<Entry>
    /** The entries that were added. */
    ghost var contents: seq<Entry>

    constructor ()
      ensures Valid() && contents == []
    {
      table := [];
      contents := [];
    }

    ghost predicate Valid()
      reads this
    {
      && Sorted(contents)
      && table == Nodes(contents)
      && forall e :: e in contents ==> SoundEntry(e)
    }

    method Add(sequence: nat, kind: nat, key: UserKey, value: seq<byte>)
      requires Valid() && kind <= TYPE_VALUE
      requires |key| + 8 < UINT32_LIMIT && |value| < UINT32_LIMIT
      modifies this
      ensures Valid()
      ensures contents == Upsert(old(contents), Entry(InternalKey(key, PackSequenceAndType(sequence, kind)), value))
    {
      var ikey := InternalKey(key, PackSequenceAndType(sequence, kind));
      var buf := WriteNode(ikey, value);
      var node := ReadNode(buf, ikey, value);
      ghost var e := Entry(ikey, value);
      UpsertNodes(contents, e);
      UpsertCorrect(contents, e);
      TagParts(sequence, kind);
      UpsertSound(contents, e);
      table := Upsert(table, node);
      contents := Upsert(contents, e);
    }

    /** The arena buffer of `Memtable::Add`. */
    static method WriteNode(ikey: InternalKey, value: seq<byte>) returns (buf: seq<byte>)
      requires |ikey.user| + 8 < UINT32_LIMIT && |value| < UINT32_LIMIT
      ensures buf == ArenaEntry(ikey, value)
    {
      buf := EncodeVarint32(|ikey.user| + 8);
      buf := buf + ikey.user;
      buf := buf + Fixed64(ikey.tag);
      var size := EncodeVarint32(|value|);
      buf := buf + size;
      buf := buf + value;
      NodeParts(Varint(|ikey.user| + 8), ikey.user, Fixed64(ikey.tag), size, value);
    }

    /** `Skiplist::Insert`: the node gets its key and value from the buffer. */
    static method ReadNode(buf: seq<byte>, ghost ikey: InternalKey, ghost value: seq<byte>) returns (node: Entry)
      requires |ikey.user| + 8 < UINT32_LIMIT && |value| < UINT32_LIMIT && buf == ArenaEntry(ikey, value)
      ensures node == Entry(ikey, LengthPrefixed(value))
    {
      NodeOfArenaEntry(ikey, value);
      DecodeEncode(ikey);
      node := Entry(Decode(NodeKey(buf).value), NodeVal(buf).value);
    }

    /** The first node not below (user, bound), if it is for this user key, answers the read. */
    method Get(user: UserKey, bound: uint64) returns (found: bool, r: ReadResult)
      requires Valid()
      ensures found == Find(contents, InternalKey(user, bound)).Some?
      ensures found ==> r == Resolve(Find(contents, InternalKey(user, bound)))
    {
      var ikey := InternalKey(user, bound);
      NodesBound(contents, ikey);
      var i := LowerBound(table, ikey);
      if i < |table| && table[i].key.user == user {
        var tag := table[i].key.tag;
        assert contents[i] in contents;
        LowBits(tag);
        if tag % 16 == TYPE_VALUE {
          ValueOfNode(contents[i].value);
          return true, Found(GetLengthPrefixed(table[i].value).value.0);
        }
        return true, Missing;
      }
      return false, Missing;
    }

    /** `Flushlevel0fromskip`: the entries of the new table with the smallest and the largest key. */
    method Flush() returns (entries: seq<Entry>, smallest: InternalKey, largest: InternalKey)
      requires Valid() && contents != []
      ensures entries == Flushed(contents)
      ensures smallest == entries[0].key && largest == entries[|entries| - 1].key
    {
      smallest := table[0].key;
      entries := [];
      for i := 0 to |table|
        invariant entries == Flushed(contents)[..i]
      {
        assert contents[i] in contents;
        Varint32RoundTrip(|contents[i].value|, contents[i].value);
        var size := GetVarint32(table[i].value).value.0;
        entries := entries + [Entry(table[i].key, table[i].value[..size])];
      }
      largest := table[|table| - 1].key;
    }
  }
}
