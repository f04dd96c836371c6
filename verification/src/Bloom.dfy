/**
 The Bloom filter (src/util/bloom.cpp). `std::hash` is an arbitrary function from bytes to 32 bits.
 */
module Bloom {
  import opened Common

  type Hash = seq<byte> -> uint32

  // ---------------------------------------------------------------- bits of a byte

  /** `(b & (1 << i)) != 0` */
  predicate BitSet(b: nat, i: nat) {
    if i == 0 then b % 2 == 1 else BitSet(b / 2, i - 1)
  }

  /** `b | (1 << i)` */
  function SetBit(b: nat, i: nat): nat {
    if i == 0 then b / 2 * 2 + 1 else 2 * SetBit(b / 2, i - 1) + b % 2
  }

  lemma {:induction false} SetBitSets(b: nat, i: nat, j: nat)
    ensures BitSet(SetBit(b, i), j) <==> j == i || BitSet(b, j)
  {
    if i > 0 && j > 0 {
      SetBitSets(b / 2, i - 1, j - 1);
    }
  }

  lemma {:induction false} ZeroHasNoBits(i: nat)
    ensures !BitSet(0, i)
  {
    if i > 0 {
      ZeroHasNoBits(i - 1);
    }
  }

  function Power2(k: nat): nat {
    if k == 0 then 1 else 2 * Power2(k - 1)
  }

  lemma {:induction false} SetBitFits(b: nat, i: nat, width: nat)
    requires i < width && b < Power2(width)
    ensures SetBit(b, i) < Power2(width)
  {
    var half := Power2(width - 1);
    assert Power2(width) == 2 * half;
    if i > 0 {
      assert b / 2 < half;
      SetBitFits(b / 2, i - 1, width - 1);
      var r := SetBit(b / 2, i - 1);
      assert SetBit(b, i) == 2 * r + b % 2 && r + 1 <= half;
    }
  }

  function SetBitOfByte(b: byte, i: nat): byte
    requires i < 8
  {
    assert Power2(8) == 256;
    SetBitFits(b, i, 8);
    SetBit(b, i)
  }

  /** Bit `pos` of a byte array. */
  predicate TestBit(a: seq<byte>, pos: nat)
    requires pos / 8 < |a|
  {
    BitSet(a[pos / 8], pos % 8)
  }

  /** The array with bit `pos` set. */
  function WithBit(a: seq<byte>, pos: nat): (r: seq<byte>)
    requires pos / 8 < |a|
    ensures |r| == |a|
  {
    a[pos / 8 := SetBitOfByte(a[pos / 8], pos % 8)]
  }

  lemma WithBitTests(a: seq<byte>, at: nat, pos: nat)
    requires at / 8 < |a| && pos / 8 < |a|
    ensures TestBit(WithBit(a, at), pos) <==> TestBit(a, pos) || pos == at
  {
    SetBitSets(a[at / 8], at % 8, pos % 8);
    assert pos == at <==> pos / 8 == at / 8 && pos % 8 == at % 8;
  }

  // ---------------------------------------------------------------- probes

  /** `(h >> 17) | (h << 15)` on 32 bits. */
  function Delta(h: uint32): uint32 {
    h / 0x2_0000 + h % 0x2_0000 * 0x8000
  }

  /** The j-th value of h in the probe loop, with 32-bit wrap-around. */
  function Probe(h: uint32, j: nat): uint32 {
    if j == 0 then h else (Probe(h, j - 1) + Delta(h)) % UINT32_LIMIT
  }

  function Position(h: uint32, j: nat, bits: nat): (pos: nat)
    requires bits > 0
    ensures pos < bits
  {
    Probe(h, j) % bits
  }

  ghost predicate MarkedBy(h: uint32, probes: nat, bits: nat, pos: nat)
    requires bits > 0
  {
    exists j :: 0 <= j < probes && pos == Position(h, j, bits)
  }

  /** Some key of the list has a probe at `pos`. */
  ghost predicate Marked(hash: Hash, keys: seq<seq<byte>>, probes: nat, bits: nat, pos: nat)
    requires bits > 0
  {
    exists i :: 0 <= i < |keys| && MarkedBy(hash(keys[i]), probes, bits, pos)
  }

  /** The bytes of a filter for n keys, at least eight. */
  function BytesFor(bits_key: nat, n: nat): (bytes: nat)
    ensures bytes >= 8
  {
    if bits_key * n < 64 then 8 else (bits_key * n + 7) / 8
  }

  /** A filter for exactly these keys: a bit of its `bytes` is set if and only if some key probes it. */
  ghost predicate FilterFor(hash: Hash, keys: seq<seq<byte>>, probes: nat, bytes: nat, filter: seq<byte>) {
    && 0 < bytes && |filter| == bytes + 1 && probes <= 30 && filter[bytes] == probes
    && forall pos :: 0 <= pos < bytes * 8 ==> (TestBit(filter, pos) <==> Marked(hash, keys, probes, bytes * 8, pos))
  }

  ghost predicate Hits(filter: seq<byte>, h: uint32, probes: nat, bits: nat)
    requires 0 < bits <= |filter| * 8
  {
    forall j :: 0 <= j < probes ==> TestBit(filter, Position(h, j, bits))
  }

  /** What `KeyMayMatch` answers. */
  ghost predicate MayMatch(hash: Hash, key: seq<byte>, filter: seq<byte>) {
    && |filter| >= 2
    && (filter[|filter| - 1] > 30 || Hits(filter, hash(key), filter[|filter| - 1], (|filter| - 1) * 8))
  }

  /** Every probe of the key is a probe of some key of the list. */
  ghost predicate Covered(hash: Hash, keys: seq<seq<byte>>, probes: nat, bits: nat, key: seq<byte>)
    requires bits > 0
  {
    forall j :: 0 <= j < probes ==> Marked(hash, keys, probes, bits, Position(hash(key), j, bits))
  }

  /** Keys cover their own probes. */
  lemma CoveredByOwn(hash: Hash, keys: seq<seq<byte>>, probes: nat, bits: nat, key: seq<byte>)
    requires bits > 0 && key in keys
    ensures Covered(hash, keys, probes, bits, key)
  {
    var i :| 0 <= i < |keys| && keys[i] == key;
    forall j | 0 <= j < probes ensures Marked(hash, keys, probes, bits, Position(hash(key), j, bits)) {
      assert MarkedBy(hash(keys[i]), probes, bits, Position(hash(key), j, bits));
    }
  }

  /** No false negatives; and a key matches only if all of its probes hit bits of inserted keys. */
  lemma NoFalseNegatives(hash: Hash, keys: seq<seq<byte>>, probes: nat, bytes: nat, filter: seq<byte>, key: seq<byte>)
    requires FilterFor(hash, keys, probes, bytes, filter)
    ensures key in keys ==> MayMatch(hash, key, filter)
    ensures MayMatch(hash, key, filter) <==> Covered(hash, keys, probes, bytes * 8, key)
  {
    if key in keys {
      CoveredByOwn(hash, keys, probes, bytes * 8, key);
    }
  }

  class BloomFilter {
    const hash: Hash
    const bits_key: nat
    const hash_size: nat

    constructor (bits: nat, hash: Hash)
      ensures bits_key == bits && this.hash == hash && 1 <= hash_size <= 30
      ensures var k := (bits as real * 0.69).Floor; hash_size == if k < 1 then 1 else if k > 30 then 30 else k
    {
      this.hash := hash;
      bits_key := bits;
      var k := (bits as real * 0.69).Floor;
      hash_size := if k < 1 then 1 else if k > 30 then 30 else k;
    }

    /** Appends a filter for the keys to `filter`. */
    method CreateFiler(keys: seq<seq<byte>>, filter: seq<byte>) returns (out: seq<byte>)
      requires 1 <= hash_size <= 30
      requires bits_key * |keys| + 7 < UINT64_LIMIT
      ensures |out| >= |filter| && out[..|filter|] == filter
      ensures FilterFor(hash, keys, hash_size, BytesFor(bits_key, |keys|), out[|filter|..])
    {
      var bits := bits_key * |keys|;
      if bits < 64 {
        bits := 64;
      }
      var bytes := (bits + 7) / 8;
      bits := bytes * 8;
      var bitmap := new byte[bytes](_ => 0);
      forall pos | 0 <= pos < bits ensures !TestBit(bitmap[..], pos) {
        ZeroHasNoBits(pos % 8);
      }
      for i := 0 to |keys|
        invariant forall pos :: 0 <= pos < bits ==>
                    (TestBit(bitmap[..], pos) <==> Marked(hash, keys[..i], hash_size, bits, pos))
      {
        MarkKey(bitmap, bits, hash(keys[i]));
        assert keys[..i + 1] == keys[..i] + [keys[i]];
        forall pos | 0 <= pos < bits
          ensures Marked(hash, keys[..i + 1], hash_size, bits, pos) <==>
                  Marked(hash, keys[..i], hash_size, bits, pos) || MarkedBy(hash(keys[i]), hash_size, bits, pos)
        {
          MarkedSnoc(hash, keys[..i], keys[i], hash_size, bits, pos);
        }
      }
      assert keys[..|keys|] == keys;
      out := filter + bitmap[..] + [hash_size];
      assert out[|filter|..] == bitmap[..] + [hash_size];
    }

    /** The inner loop of `CreateFiler`, in place on the bit bitmap. */
    method MarkKey(bitmap: array<byte>, bits: nat, hashed: uint32)
      requires bits == bitmap.Length * 8 && bits > 0
      modifies bitmap
      ensures forall pos :: 0 <= pos < bits ==>
                (TestBit(bitmap[..], pos) <==> old(TestBit(bitmap[..], pos)) || MarkedBy(hashed, hash_size, bits, pos))
    {
      hide TestBit, SetBitOfByte;
      var h := hashed;
      var delta := Delta(h);
      for j := 0 to hash_size
        invariant h == Probe(hashed, j)
        invariant forall pos :: 0 <= pos < bits ==>
                    (TestBit(bitmap[..], pos) <==> old(TestBit(bitmap[..], pos)) || MarkedBy(hashed, j, bits, pos))
      {
        var bitpos := h % bits;
        ghost var was := bitmap[..];
        bitmap[bitpos / 8] := SetBitOfByte(bitmap[bitpos / 8], bitpos % 8);
        h := (h + delta) % UINT32_LIMIT;
        assert bitmap[..] == WithBit(was, bitpos);
        forall pos | 0 <= pos < bits
          ensures TestBit(bitmap[..], pos) <==> TestBit(was, pos) || pos == bitpos
          ensures MarkedBy(hashed, j + 1, bits, pos) <==> MarkedBy(hashed, j, bits, pos) || pos == bitpos
        {
          WithBitTests(was, bitpos, pos);
          MarkedNext(hashed, j, bits, pos);
        }
      }
    }

    method KeyMayMatch(key: seq<byte>, filter: seq<byte>) returns (r: bool)
      ensures r <==> MayMatch(hash, key, filter)
    {
      var len := |filter|;
      if len < 2 {
        return false;
      }
      var bits := (len - 1) * 8;
      var probes := filter[len - 1];
      if probes > 30 {
        return true;
      }
      var h := hash(key);
      var delta := Delta(h);
      for j := 0 to probes
        invariant h == Probe(hash(key), j)
        invariant forall i :: 0 <= i < j ==> TestBit(filter, Position(hash(key), i, bits))
      {
        var bitpos := h % bits;
        assert bitpos == Position(hash(key), j, bits);
        if !BitSet(filter[bitpos / 8], bitpos % 8) {
          return false;
        }
        h := (h + delta) % UINT32_LIMIT;
      }
      return true;
    }
  }

  lemma MarkedNext(h: uint32, j: nat, bits: nat, pos: nat)
    requires bits > 0
    ensures MarkedBy(h, j + 1, bits, pos) <==> MarkedBy(h, j, bits, pos) || pos == Probe(h, j) % bits
  {
    assert Position(h, j, bits) == Probe(h, j) % bits;
  }

  lemma MarkedSnoc(hash: Hash, keys: seq<seq<byte>>, key: seq<byte>, probes: nat, bits: nat, pos: nat)
    requires bits > 0
    ensures Marked(hash, keys + [key], probes, bits, pos) <==>
            Marked(hash, keys, probes, bits, pos) || MarkedBy(hash(key), probes, bits, pos)
  {
    var all := keys + [key];
    if Marked(hash, keys, probes, bits, pos) {
      var i :| 0 <= i < |keys| && MarkedBy(hash(keys[i]), probes, bits, pos);
      assert all[i] == keys[i];
    }
    if MarkedBy(hash(key), probes, bits, pos) {
      assert all[|keys|] == key;
    }
  }

  /**
   Whatever bytes the filter is appended to, a key matches exactly if the inserted keys cover its probes, and so
   each inserted key does.
   */
  method CreateThenMatch(bloom: BloomFilter, keys: seq<seq<byte>>, before: seq<byte>, key: seq<byte>) returns (r: bool)
    requires 1 <= bloom.hash_size <= 30 && bloom.bits_key * |keys| + 7 < UINT64_LIMIT
    ensures r <==> Covered(bloom.hash, keys, bloom.hash_size, BytesFor(bloom.bits_key, |keys|) * 8, key)
    ensures key in keys ==> r
  {
    var out := bloom.CreateFiler(keys, before);
    r := bloom.KeyMayMatch(key, out[|before|..]);
    NoFalseNegatives(bloom.hash, keys, bloom.hash_size, BytesFor(bloom.bits_key, |keys|), out[|before|..], key);
  }
}
