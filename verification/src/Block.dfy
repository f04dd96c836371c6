/**
 Data blocks: the prefix-compressing builder (src/db/block.cpp) and the iterator over its bytes (src/db/block.h).
 */
module Block {
  import opened Common
  import opened Coding
  import opened Keys

  datatype KV = KV(key: seq<byte>, value: seq<byte>)

  // ---------------------------------------------------------------- which entries are restart points

  /** Value of the builder's entry counter after i entries. */
  function Counter(interval: nat, i: nat): nat {
    if i == 0 then 0 else if Counter(interval, i - 1) < interval then Counter(interval, i - 1) + 1 else 1
  }

  /** Entry i is stored whole and listed in the restart array. */
  predicate IsRestart(interval: nat, i: nat) {
    i == 0 || Counter(interval, i) >= interval
  }

  /** The restart points among the first n entries; entry 0 is always listed. */
  function RestartEntries(interval: nat, n: nat): (r: seq<nat>)
    ensures r != [] && r[0] == 0
    ensures forall j :: 0 <= j < |r| ==> IsRestart(interval, r[j]) && (r[j] < n || r[j] == 0)
    ensures forall j, k :: 0 <= j < k < |r| ==> r[j] < r[k]
  {
    if n <= 1 then [0]
    else if IsRestart(interval, n - 1) then RestartEntries(interval, n - 1) + [n - 1]
    else RestartEntries(interval, n - 1)
  }

  lemma {:induction false} CounterBounds(interval: nat, i: nat)
    requires interval >= 1
    ensures Counter(interval, i) <= interval
    ensures Counter(interval, i) == if i == 0 then 0 else (i - 1) % interval + 1
  {
    if i > 0 {
      CounterBounds(interval, i - 1);
      CounterNext(interval, i);
    }
  }

  lemma CounterNext(interval: nat, i: nat)
    requires interval >= 1 && i > 0
    requires Counter(interval, i - 1) == if i == 1 then 0 else (i - 2) % interval + 1
    ensures Counter(interval, i) == (i - 1) % interval + 1 <= interval
  {
    if i == 1 {
      ModUnique(0, 0, 0, interval);
    } else {
      ModStep(i - 2, interval);
    }
  }

  lemma ModStep(a: nat, m: nat)
    requires m >= 1
    ensures (a + 1) % m == if a % m + 1 == m then 0 else a % m + 1
  {
    var q, r := a / m, a % m;
    if r + 1 == m {
      assert a + 1 == (q + 1) * m;
      ModUnique(a + 1, q + 1, 0, m);
    } else {
      assert a + 1 == q * m + (r + 1);
      ModUnique(a + 1, q, r + 1, m);
    }
  }

  /** Restart points are exactly every interval-th entry. */
  lemma RestartsAtMultiples(interval: nat, i: nat)
    requires interval >= 1
    ensures IsRestart(interval, i) <==> i % interval == 0
  {
    if i > 0 {
      CounterBounds(interval, i);
      ModStep(i - 1, interval);
      var m := (i - 1) % interval;
      assert m < interval;
      assert Counter(interval, i) == m + 1;
    }
  }

  // ---------------------------------------------------------------- the bytes of a block

  function CommonPrefix(a: seq<byte>, b: seq<byte>): (n: nat)
    ensures n <= |a| && n <= |b| && a[..n] == b[..n]
    ensures n < |a| && n < |b| ==> a[n] != b[n]
  {
    if a == [] || b == [] || a[0] != b[0] then 0
    else
      var n := CommonPrefix(a[1..], b[1..]);
      assert a[..n + 1] == [a[0]] + a[1..][..n] && b[..n + 1] == [b[0]] + b[1..][..n];
      n + 1
  }

  /** Key bytes that entry i takes over from the entry before it. */
  function Shared(list: seq<KV>, interval: nat, i: nat): (n: nat)
    requires i < |list|
    ensures n <= |list[i].key|
  {
    if IsRestart(interval, i) then 0 else CommonPrefix(list[i - 1].key, list[i].key)
  }

  function Header(shared: nat, non_shared: nat, value_length: nat): seq<byte> {
    Varint(shared) + Varint(non_shared) + Varint(value_length)
  }

  function EntryBytes(list: seq<KV>, interval: nat, i: nat): seq<byte>
    requires i < |list|
  {
    Encoded(Shared(list, interval, i), list[i])
  }

  /** An entry that takes over `shared` bytes of its key. */
  function Encoded(shared: nat, e: KV): seq<byte>
    requires shared <= |e.key|
  {
    Header(shared, |e.key| - shared, |e.value|) + e.key[shared..] + e.value
  }

  /** The first n entries. */
  function Body(list: seq<KV>, interval: nat, n: nat): seq<byte>
    requires n <= |list|
  {
    if n == 0 then [] else Body(list, interval, n - 1) + EntryBytes(list, interval, n - 1)
  }

  /** Offset of entry i; of the restart array for i == |list|. */
  function Off(list: seq<KV>, interval: nat, i: nat): nat
    requires i <= |list|
  {
    |Body(list, interval, i)|
  }

  function RestartOffsets(list: seq<KV>, interval: nat): (r: seq<nat>)
    ensures |r| == |RestartEntries(interval, |list|)|
    ensures forall j :: 0 <= j < |r| ==>
              RestartEntries(interval, |list|)[j] <= |list|
                && r[j] == Off(list, interval, RestartEntries(interval, |list|)[j])
  {
    var entries := RestartEntries(interval, |list|);
    seq(|entries|, j requires 0 <= j < |entries| => Off(list, interval, entries[j]))
  }

  function Trailer(offsets: seq<uint32>): seq<byte>
    requires |offsets| < UINT32_LIMIT
  {
    Fixed32s(offsets) + Fixed32(|offsets|)
  }

  ghost predicate Small(list: seq<KV>, interval: nat) {
    && Off(list, interval, |list|) + 4 * |RestartEntries(interval, |list|)| + 4 < UINT32_LIMIT
    && forall e :: e in list ==> |e.key| < UINT32_LIMIT
  }

  /** The contents of the block that holds this list. */
  function Image(list: seq<KV>, interval: nat): seq<byte>
    requires Small(list, interval)
  {
    SmallOffsets(list, interval);
    Body(list, interval, |list|) + Trailer(RestartOffsets(list, interval))
  }

  lemma {:induction false} OffStep(list: seq<KV>, interval: nat, i: nat)
    requires i < |list|
    ensures Off(list, interval, i + 1) == Off(list, interval, i) + |EntryBytes(list, interval, i)|
    ensures |EntryBytes(list, interval, i)| >= 3 + |list[i].value|
  {
    EncodedLength(Shared(list, interval, i), list[i]);
  }

  lemma EncodedLength(shared: nat, e: KV)
    requires shared <= |e.key|
    ensures |Encoded(shared, e)| >= 3 + |e.value|
    ensures |e.key| < UINT32_LIMIT && |e.value| < UINT32_LIMIT ==> |Encoded(shared, e)| <= |e.key| + |e.value| + 15
  {
    if |e.key| < UINT32_LIMIT && |e.value| < UINT32_LIMIT {
      Uint32VarintLength(shared);
      Uint32VarintLength(|e.key| - shared);
      Uint32VarintLength(|e.value|);
    }
  }

  /** Later entries are at greater offsets. */
  lemma {:induction false} OffMonotone(list: seq<KV>, interval: nat, i: nat, j: nat)
    requires i <= j <= |list|
    ensures Off(list, interval, i) + 3 * (j - i) <= Off(list, interval, j)
  {
    if i < j {
      OffMonotone(list, interval, i, j - 1);
      OffStep(list, interval, j - 1);
    }
  }

  /** The bytes of the first i entries start the bytes of the first j. */
  lemma {:induction false} BodyStarts(list: seq<KV>, interval: nat, i: nat, j: nat)
    requires i <= j <= |list|
    ensures IsPrefix(Body(list, interval, i), Body(list, interval, j))
  {
    if i < j {
      BodyStarts(list, interval, i, j - 1);
      StartsExtend(Body(list, interval, i), Body(list, interval, j - 1), EntryBytes(list, interval, j - 1));
    }
  }

  lemma StartsExtend(a: seq<byte>, b: seq<byte>, more: seq<byte>)
    requires IsPrefix(a, b)
    ensures IsPrefix(a, b + more)
  {
    assert (b + more)[..|a|] == b[..|a|];
  }

  lemma SmallOffsets(list: seq<KV>, interval: nat)
    requires Small(list, interval)
    ensures forall j :: 0 <= j < |RestartOffsets(list, interval)| ==> RestartOffsets(list, interval)[j] < UINT32_LIMIT
  {
    var r := RestartOffsets(list, interval);
    forall j | 0 <= j < |r| ensures r[j] < UINT32_LIMIT {
      OffMonotone(list, interval, RestartEntries(interval, |list|)[j], |list|);
    }
  }

  /** The bytes of entry i, as seen from its offset. */
  lemma EntryAt(list: seq<KV>, interval: nat, i: nat)
    requires i < |list|
    ensures var b, p, q := Body(list, interval, |list|), Off(list, interval, i), Off(list, interval, i + 1);
            p <= q <= |b| && b[p..] == EntryBytes(list, interval, i) + b[q..]
  {
    var b, p, q := Body(list, interval, |list|), Off(list, interval, i), Off(list, interval, i + 1);
    BodyStarts(list, interval, i + 1, |list|);
    SplitAt(b, Body(list, interval, i), EntryBytes(list, interval, i));
  }

  lemma SplitAt(b: seq<byte>, front: seq<byte>, mid: seq<byte>)
    requires |front + mid| <= |b| && b[..|front + mid|] == front + mid
    ensures b[|front|..] == mid + b[|front + mid|..]
  {
    assert b == front + mid + b[|front + mid|..];
  }

  // ---------------------------------------------------------------- the builder

  lemma {:induction false} BodyPrefix(list: seq<KV>, e: KV, interval: nat, n: nat)
    requires n <= |list|
    ensures Body(list + [e], interval, n) == Body(list, interval, n)
  {
    if n > 0 {
      BodyPrefix(list, e, interval, n - 1);
    }
  }

  /** The builder's buffers hold the list. */
  ghost predicate Built(list: seq<KV>, interval: nat, buffer: seq<byte>, restarts: seq<nat>, entrynum: nat) {
    && buffer == Body(list, interval, |list|)
    && restarts == RestartOffsets(list, interval)
    && entrynum == Counter(interval, |list|)
  }

  lemma BuiltStep(list: seq<KV>, e: KV, interval: nat, buffer: seq<byte>, restarts: seq<nat>, entrynum: nat,
                  shared: nat)
    requires interval >= 1 && Built(list, interval, buffer, restarts, entrynum)
    requires shared == if IsRestart(interval, |list|) then 0 else CommonPrefix(Last(list).key, e.key)
    ensures Built(list + [e], interval, buffer + Encoded(shared, e),
                  restarts + (if list != [] && IsRestart(interval, |list|) then [|buffer|] else []),
                  Counter(interval, |list| + 1))
  {
    AddedBody(list, e, interval, shared);
    NewRestarts(list, e, interval);
  }

  class Blockbuilder {
    const interval: nat
    var buffer: seq<byte>
    var restarts: seq<uint32>
    var entrynum: nat
    var finished: bool
    var last_key: seq<byte>
    /** The entries added since the last reset. */
    ghost var list: seq<KV>

    constructor (interval: nat)
      requires interval >= 1
      ensures Valid() && !finished && list == [] && this.interval == interval
    {
      this.interval := interval;
      buffer, restarts, entrynum, finished, last_key := [], [0], 0, false, [];
      list := [];
    }

    ghost predicate Valid()
      reads this
    {
      && interval >= 1
      && (list != [] ==> last_key == Last(list).key)
      && (list == [] ==> last_key == [])
      && (forall e :: e in list ==> |e.key| < UINT32_LIMIT)
      && (!finished ==> Built(list, interval, buffer, restarts, entrynum))
    }

    method Reset()
      requires Valid()
      modifies this
      ensures Valid() && !finished && list == []
    {
      buffer := [];
      restarts := [0];
      entrynum := 0;
      finished := false;
      last_key := [];
      list := [];
    }

    lemma RestartsListed()
      requires Valid() && !finished
      ensures |restarts| == |RestartEntries(interval, |list|)|
    {
    }

    function CurrentSizeEstimate(): nat
      reads this
    {
      |buffer| + 4 * |restarts| + 4
    }

    method Add(key: seq<byte>, value: seq<byte>)
      requires Valid() && !finished
      requires |buffer| + |key| + |value| + 15 < UINT32_LIMIT
      modifies this
      ensures Valid() && !finished && list == old(list) + [KV(key, value)]
      ensures |buffer| <= old(|buffer|) + |key| + |value| + 15
    {
      ghost var e := KV(key, value);
      var shared := BeginEntry(key);
      var non_shared := |key| - shared;
      BuiltStep(list, e, interval, old(buffer), old(restarts), old(entrynum), shared);
      EncodedLength(shared, e);
      AppendEntry(key, value, shared, non_shared);
      entrynum := entrynum + 1;
      list := list + [e];
    }

    /** The three lengths and the two strings, then the new last key. */
    method AppendEntry(key: seq<byte>, value: seq<byte>, shared: nat, non_shared: nat)
      requires shared <= |key| && shared <= |last_key| && last_key[..shared] == key[..shared]
      requires non_shared == |key| - shared
      modifies `buffer, `last_key
      ensures buffer == old(buffer) + Encoded(shared, KV(key, value))
      ensures last_key == key
    {
      var header := Header(shared, non_shared, |value|);
      buffer := buffer + (header + key[shared..] + value);
      last_key := last_key[..shared] + key[shared..];
    }

    /** The choice between sharing a prefix and starting over at a restart point. */
    method BeginEntry(key: seq<byte>) returns (shared: nat)
      requires Valid() && !finished && |buffer| < UINT32_LIMIT
      modifies `restarts, `entrynum
      ensures shared == if IsRestart(interval, |list|) then 0 else CommonPrefix(Last(list).key, key)
      ensures shared <= |key| && shared <= |last_key| && last_key[..shared] == key[..shared]
      ensures restarts == old(restarts) + (if list != [] && IsRestart(interval, |list|) then [|buffer|] else [])
      ensures entrynum + 1 == Counter(interval, |list| + 1)
    {
      CounterBounds(interval, |list|);
      shared := 0;
      if entrynum < interval {
        shared := MatchPrefix(key);
      } else {
        restarts := restarts + [|buffer|];
        entrynum := 0;
      }
    }

    /** The loop that finds how much of the key repeats the last one. */
    method MatchPrefix(key: seq<byte>) returns (shared: nat)
      ensures shared == CommonPrefix(last_key, key)
    {
      var minlen := Min(|last_key|, |key|);
      shared := 0;
      while shared < minlen && last_key[shared] == key[shared]
        invariant shared <= minlen && last_key[..shared] == key[..shared]
      {
        shared := shared + 1;
      }
      PrefixUnique(last_key, key, shared);
    }

    method Finish() returns (contents: seq<byte>)
      requires Valid() && !finished
      requires CurrentSizeEstimate() < UINT32_LIMIT
      modifies this
      ensures finished && contents == buffer && list == old(list)
      ensures Small(list, interval) && contents == Image(list, interval)
    {
      AppendRestarts();
      buffer := buffer + Fixed32(|restarts|);
      finished := true;
      contents := buffer;
    }

    method AppendRestarts()
      modifies `buffer
      ensures buffer == old(buffer) + Fixed32s(restarts)
    {
      for i := 0 to |restarts|
        invariant buffer == old(buffer) + Fixed32s(restarts[..i])
      {
        assert DropLast(restarts[..i + 1]) == restarts[..i];
        buffer := buffer + Fixed32(restarts[i]);
      }
      assert restarts[..|restarts|] == restarts;
    }
  }

  /** The bytes that one more entry adds. */
  lemma AddedBody(list: seq<KV>, e: KV, interval: nat, shared: nat)
    requires shared == if IsRestart(interval, |list|) then 0 else CommonPrefix(Last(list).key, e.key)
    ensures Body(list + [e], interval, |list| + 1) == Body(list, interval, |list|) + Encoded(shared, e)
  {
    var all, n := list + [e], |list|;
    BodyPrefix(list, e, interval, n);
    assert all[n] == e && (n > 0 ==> all[n - 1] == Last(list));
    assert Shared(all, interval, n) == shared;
  }

  lemma {:induction false} PrefixUnique(a: seq<byte>, b: seq<byte>, n: nat)
    requires n <= |a| && n <= |b| && a[..n] == b[..n]
    requires n < |a| && n < |b| ==> a[n] != b[n]
    ensures n == CommonPrefix(a, b)
  {
    if n > 0 {
      assert a[0] == a[..n][0] && b[0] == b[..n][0];
      assert a[1..][..n - 1] == a[..n][1..] && b[1..][..n - 1] == b[..n][1..];
      PrefixUnique(a[1..], b[1..], n - 1);
    }
  }

  /** One more entry adds a restart offset exactly when it is a restart point other than the first. */
  lemma NewRestarts(list: seq<KV>, e: KV, interval: nat)
    requires interval >= 1
    ensures RestartOffsets(list + [e], interval) ==
            if list != [] && IsRestart(interval, |list|)
              then RestartOffsets(list, interval) + [Off(list, interval, |list|)]
            else RestartOffsets(list, interval)
  {
    var entries := RestartEntries(interval, |list|);
    forall j | 0 <= j < |entries| ensures Off(list + [e], interval, entries[j]) == Off(list, interval, entries[j]) {
      BodyPrefix(list, e, interval, entries[j]);
    }
    BodyPrefix(list, e, interval, |list|);
  }
}
