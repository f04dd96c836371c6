/**
 Fixed-width and variable-length integer codecs (src/util/common.h, src/util/common.cpp).

 Functions named after a format (`Varint`, `Fixed32`) give the bytes; the methods are the
 loops and branches of the source, proved to produce or to read exactly those bytes.
 Bit operations are written in arithmetic: `v | 128` on a low byte is `v % 128 + 128`,
 `byte << shift` in a w-bit register is `byte * 2^shift % 2^w`, and `|=` of disjoint bits is `+`.
 */
module Coding {
  import opened Common

  // ---------------------------------------------------------------- fixed width

  function Fixed32(v: uint32): (r: seq<byte>)
    ensures |r| == 4
  {
    [v % 256, v / 0x100 % 256, v / 0x1_0000 % 256, v / 0x100_0000]
  }

  function DecodeFixed32(s: seq<byte>): uint32
    requires |s| >= 4
  {
    s[0] as int + 0x100 * s[1] as int + 0x1_0000 * s[2] as int + 0x100_0000 * s[3] as int
  }

  function Fixed64(v: uint64): (r: seq<byte>)
    ensures |r| == 8
  {
    Fixed32(v % UINT32_LIMIT) + Fixed32(v / UINT32_LIMIT)
  }

  function DecodeFixed64(s: seq<byte>): uint64
    requires |s| >= 8
  {
    DecodeFixed32(s[..4]) + UINT32_LIMIT * DecodeFixed32(s[4..])
  }

  lemma Fixed32RoundTrip(v: uint32, rest: seq<byte>)
    ensures DecodeFixed32(Fixed32(v) + rest) == v
  {
    var s := Fixed32(v) + rest;
    assert s[0] == v % 256 && s[1] == v / 0x100 % 256;
    assert s[2] == v / 0x1_0000 % 256 && s[3] == v / 0x100_0000;
    Recombine(v);
  }

  /** Four bytes are the encoding of the number they decode to. */
  lemma Fixed32Decoded(s: seq<byte>)
    requires |s| == 4
    ensures Fixed32(DecodeFixed32(s)) == s
  {
    var v: int := DecodeFixed32(s);
    assert v / 0x100 == s[1] as int + 0x100 * s[2] as int + 0x1_0000 * s[3] as int;
    assert v / 0x1_0000 == s[2] as int + 0x100 * s[3] as int;
  }

  lemma Recombine(v: nat)
    ensures v % 256 + 0x100 * (v / 0x100 % 256) + 0x1_0000 * (v / 0x1_0000 % 256) + 0x100_0000 * (v / 0x100_0000) == v
  {
    assert v / 0x1_0000 == v / 0x100 / 256 && v / 0x100_0000 == v / 0x100 / 256 / 256;
  }

  lemma Fixed64RoundTrip(v: uint64, rest: seq<byte>)
    ensures DecodeFixed64(Fixed64(v) + rest) == v
  {
    var s := Fixed64(v) + rest;
    Fixed32RoundTrip(v % UINT32_LIMIT, []);
    Fixed32RoundTrip(v / UINT32_LIMIT, rest);
    assert s[..4] == Fixed32(v % UINT32_LIMIT) + [];
    assert s[4..] == Fixed32(v / UINT32_LIMIT) + rest;
  }

  lemma Fixed64OfDecode(s: seq<byte>)
    requires |s| == 8
    ensures Fixed64(DecodeFixed64(s)) == s
  {
    var lo, hi := DecodeFixed32(s[..4]), DecodeFixed32(s[4..]);
    var v := DecodeFixed64(s);
    assert v % UINT32_LIMIT == lo && v / UINT32_LIMIT == hi;
    assert Fixed32(lo) == s[..4] by { Fixed32OfDecode(s[..4]); }
    assert Fixed32(hi) == s[4..] by { Fixed32OfDecode(s[4..]); }
  }

  lemma Fixed32OfDecode(s: seq<byte>)
    requires |s| == 4
    ensures Fixed32(DecodeFixed32(s)) == s
  {
    BytesOf(s[0], s[1], s[2], s[3]);
  }

  lemma BytesOf(a: byte, b: byte, c: byte, d: byte)
    ensures var v := a as int + 0x100 * b as int + 0x1_0000 * c as int + 0x100_0000 * d as int;
            v % 256 == a && v / 0x100 % 256 == b && v / 0x1_0000 % 256 == c && v / 0x100_0000 == d
  {
    var lo, hi: int := a as int + 0x100 * b as int, c as int + 0x100 * d as int;
    var v: int := lo + 0x1_0000 * hi;
    assert v / 0x1_0000 == hi && v % 0x100 == a;
    assert v / 0x100 == b as int + 0x100 * hi;
  }

  /** Assigning a 64-bit little-endian read to a 32-bit variable keeps its first four bytes. */
  lemma TruncatedRead(s: seq<byte>)
    requires |s| >= 8
    ensures DecodeFixed64(s) % UINT32_LIMIT == DecodeFixed32(s)
  {
    assert DecodeFixed32(s[..4]) == DecodeFixed32(s);
  }

  /** A run of fixed-width numbers, as the restart array of a block or the offset array of a filter block. */
  function Fixed32s(values: seq<uint32>): seq<byte> {
    if values == [] then [] else Fixed32s(DropLast(values)) + Fixed32(Last(values))
  }

  lemma {:induction false} Fixed32sLength(values: seq<uint32>)
    ensures |Fixed32s(values)| == 4 * |values|
  {
    if values != [] {
      Fixed32sLength(DropLast(values));
    }
  }

  lemma {:induction false} Fixed32sAt(values: seq<uint32>, i: nat)
    requires i < |values|
    ensures |Fixed32s(values)| == 4 * |values|
    ensures Fixed32s(values)[4 * i..4 * i + 4] == Fixed32(values[i])
  {
    Fixed32sLength(DropLast(values));
    if i < |values| - 1 {
      Fixed32sAt(DropLast(values), i);
      assert Fixed32s(values)[4 * i..4 * i + 4] == Fixed32s(DropLast(values))[4 * i..4 * i + 4];
    }
  }

  // ---------------------------------------------------------------- varints

  /** The base-128 encoding of v, least significant group first. */
  function Varint(v: nat): (r: seq<byte>)
    decreases v
  {
    if v < 128 then [v] else [v % 128 + 128] + Varint(v / 128)
  }

  function Power128(k: nat): (r: nat)
    ensures r > 0
  {
    if k == 0 then 1 else 128 * Power128(k - 1)
  }

  lemma {:induction false} VarintLengthBound(v: nat, k: nat)
    requires k > 0 && v < Power128(k)
    ensures 1 <= |Varint(v)| <= k
  {
    if v >= 128 {
      assert k > 1;
      assert v / 128 < Power128(k - 1);
      VarintLengthBound(v / 128, k - 1);
    }
  }

  lemma Uint32VarintLength(v: uint32)
    ensures 1 <= |Varint(v)| <= 5
  {
    assert Power128(5) == 128 * 128 * 128 * 128 * 128;
    VarintLengthBound(v, 5);
  }

  lemma Uint64VarintLength(v: uint64)
    ensures 1 <= |Varint(v)| <= 10
  {
    assert Power128(5) == 128 * 128 * 128 * 128 * 128;
    assert Power128(10) == 128 * 128 * 128 * 128 * 128 * Power128(5);
    VarintLengthBound(v, 10);
  }

  /** Reads one varint of at most k bytes as an unbounded number. */
  function Scan(s: seq<byte>, k: nat): (r: Option<(nat, seq<byte>)>)
    ensures r.Some? ==> |r.value.1| < |s| && s[|s| - |r.value.1|..] == r.value.1
  {
    if k == 0 || s == [] then None
    else if s[0] < 128 then Some((s[0], s[1..]))
    else
      match Scan(s[1..], k - 1)
      case None => None
      case Some((v, rest)) => Some((s[0] - 128 + 128 * v, rest))
  }

  lemma {:induction false} ScanVarint(v: nat, k: nat, rest: seq<byte>)
    requires |Varint(v)| <= k
    ensures Scan(Varint(v) + rest, k) == Some((v, rest))
  {
    var s := Varint(v) + rest;
    if v < 128 {
      assert s[1..] == rest;
    } else {
      assert s[1..] == Varint(v / 128) + rest;
      ScanVarint(v / 128, k - 1, rest);
    }
  }

  /** Scanning looks only at the bytes it consumes. */
  lemma {:induction false} ScanExtends(s: seq<byte>, k: nat, more: seq<byte>)
    requires Scan(s, k).Some?
    ensures Scan(s + more, k) == Some((Scan(s, k).value.0, Scan(s, k).value.1 + more))
  {
    if s[0] < 128 {
      assert (s + more)[1..] == s[1..] + more;
    } else {
      assert (s + more)[1..] == s[1..] + more;
      ScanExtends(s[1..], k - 1, more);
    }
  }

  function GetVarint32(s: seq<byte>): (r: Option<(uint32, seq<byte>)>)
    ensures r.Some? ==> |r.value.1| < |s|
  {
    match Scan(s, 5)
    case None => None
    case Some((v, rest)) => Some((v % UINT32_LIMIT, rest))
  }

  function GetVarint64(s: seq<byte>): (r: Option<(uint64, seq<byte>)>)
    ensures r.Some? ==> |r.value.1| < |s|
  {
    match Scan(s, 10)
    case None => None
    case Some((v, rest)) => Some((v % UINT64_LIMIT, rest))
  }

  lemma Scanned32(s: seq<byte>, v: nat, rest: seq<byte>)
    requires Scan(s, 5) == Some((v, rest))
    ensures GetVarint32(s) == Some((v % UINT32_LIMIT, rest))
    ensures v < UINT32_LIMIT ==> GetVarint32(s) == Some((v, rest))
  {
  }

  lemma Scanned64(s: seq<byte>, v: nat, rest: seq<byte>)
    requires Scan(s, 10) == Some((v, rest))
    ensures GetVarint64(s) == Some((v % UINT64_LIMIT, rest))
    ensures v < UINT64_LIMIT ==> GetVarint64(s) == Some((v, rest))
  {
  }

  lemma Varint32RoundTrip(v: uint32, rest: seq<byte>)
    ensures GetVarint32(Varint(v) + rest) == Some((v, rest))
  {
    Uint32VarintLength(v);
    ScanVarint(v, 5, rest);
    Scanned32(Varint(v) + rest, v, rest);
  }

  lemma Varint64RoundTrip(v: uint64, rest: seq<byte>)
    ensures GetVarint64(Varint(v) + rest) == Some((v, rest))
  {
    Uint64VarintLength(v);
    ScanVarint(v, 10, rest);
    Scanned64(Varint(v) + rest, v, rest);
  }

  // ---------------------------------------------------------------- the loops of common.cpp

  method EncodeVarint32(v: uint32) returns (out: seq<byte>)
    ensures out == Varint(v)
  {
    if v < 0x80 {
      out := [v];
    } else if v < 0x4000 {
      out := [v % 128 + 128, v / 0x80];
    } else if v < 0x20_0000 {
      out := [v % 128 + 128, v / 0x80 % 128 + 128, v / 0x4000];
      assert Varint(v / 0x80) == [v / 0x80 % 128 + 128] + Varint(v / 0x4000);
    } else if v < 0x1000_0000 {
      out := [v % 128 + 128, v / 0x80 % 128 + 128, v / 0x4000 % 128 + 128, v / 0x20_0000];
      assert Varint(v / 0x4000) == [v / 0x4000 % 128 + 128] + Varint(v / 0x20_0000);
      assert Varint(v / 0x80) == [v / 0x80 % 128 + 128] + Varint(v / 0x4000);
    } else {
      out := [v % 128 + 128, v / 0x80 % 128 + 128, v / 0x4000 % 128 + 128,
              v / 0x20_0000 % 128 + 128, v / 0x1000_0000];
      assert Varint(v / 0x20_0000) == [v / 0x20_0000 % 128 + 128] + Varint(v / 0x1000_0000);
      assert Varint(v / 0x4000) == [v / 0x4000 % 128 + 128] + Varint(v / 0x20_0000);
      assert Varint(v / 0x80) == [v / 0x80 % 128 + 128] + Varint(v / 0x4000);
    }
  }

  lemma VarintStep(v: nat)
    requires v >= 128
    ensures Varint(v) == [v % 128 + 128] + Varint(v / 128)
  {
  }

  method EncodeVarint64(value: uint64) returns (out: seq<byte>)
    ensures out == Varint(value)
  {
    out := [];
    var v := value;
    while v >= 128
      invariant 0 <= v < UINT64_LIMIT
      invariant out + Varint(v) == Varint(value)
    {
      VarintStep(v);
      Concat3(out, [v % 128 + 128], Varint(v / 128));
      hide Varint;
      out := out + [v % 128 + 128];
      v := v / 128;
    }
    out := out + [v];
  }

  method VarintLength(value: uint64) returns (len: nat)
    ensures len == |Varint(value)|
  {
    len := 1;
    var v := value;
    while v >= 128
      invariant 0 <= v
      invariant len - 1 + |Varint(v)| == |Varint(value)|
    {
      v := v / 128;
      len := len + 1;
    }
  }

  /** What a decoding loop knows after i continuation bytes summed to `sum`. */
  ghost predicate Partial(s: seq<byte>, i: nat, k: nat, sum: int) {
    && i <= k && i <= |s|
    && 0 <= sum < Power128(i)
    && Scan(s, k) == Shifted(sum, Power128(i), Scan(s[i..], k - i))
  }

  ghost function Shifted(sum: nat, unit: nat, r: Option<(nat, seq<byte>)>): Option<(nat, seq<byte>)> {
    match r
    case None => None
    case Some((v, rest)) => Some((sum + Times(unit, v), rest))
  }

  function Times(a: nat, b: nat): nat {
    a * b
  }

  lemma PartialStep(s: seq<byte>, i: nat, k: nat, sum: int)
    requires Partial(s, i, k, sum) && i < k && i < |s| && s[i] >= 128
    ensures Partial(s, i + 1, k, sum + Times(Power128(i), s[i] - 128))
  {
    var p, b := Power128(i), s[i] - 128;
    var next := Scan(s[i + 1..], k - (i + 1));
    ScanHead(s, i, k - i);
    ShiftedTwice(sum, p, b, next);
    StepBound(sum, p, b);
    NextPower(i);
  }

  lemma NextPower(i: nat)
    ensures Power128(i + 1) == 128 * Power128(i)
  {
  }

  lemma ScanHead(s: seq<byte>, i: nat, k: nat)
    requires i < |s| && k > 0 && s[i] >= 128
    ensures Scan(s[i..], k) == Shifted(s[i] - 128, 128, Scan(s[i + 1..], k - 1))
  {
    assert s[i..][1..] == s[i + 1..];
  }

  lemma ShiftedTwice(sum: nat, p: nat, b: nat, r: Option<(nat, seq<byte>)>)
    ensures Shifted(sum, p, Shifted(b, 128, r)) == Shifted(sum + Times(p, b), 128 * p, r)
  {
    match r
    case None =>
    case Some((v, rest)) => Distribute(p, b, v);
  }

  lemma StepBound(sum: int, p: nat, b: nat)
    requires 0 <= sum < p && b <= 127
    ensures 0 <= Times(p, b) && sum + Times(p, b) < 128 * p
  {
  }

  lemma Distribute(p: nat, b: nat, v: nat)
    ensures Times(p, b + Times(128, v)) == Times(p, b) + Times(128 * p, v)
  {
  }

  lemma {:induction false} PowerSplit(i: nat, k: nat)
    requires i <= k
    ensures Times(Power128(i), Power128(k - i)) == Power128(k)
  {
    if i < k {
      PowerSplit(i, k - 1);
      Times128(Power128(i), Power128(k - i - 1));
      hide Times;
    }
  }

  lemma Times128(a: nat, b: nat)
    ensures Times(a, 128 * b) == 128 * Times(a, b)
  {
    assert a * (128 * b) == 128 * (a * b);
  }

  /**
   In a register of w = 128^top * m values, a byte shifted by 128^i with i <= top is added to a
   sum below 128^i without a carry; a 7-bit group shifted by i < top is not truncated at all.
   */
  lemma RegisterShift(sum: int, i: nat, top: nat, m: nat, b: nat, w: nat)
    requires i <= top && m > 0 && w == Times(Power128(top), m)
    requires 0 <= sum < Power128(i)
    ensures w > 0 && sum + Times(Power128(i), b) % w == (sum + Times(Power128(i), b)) % w
    ensures i < top && b < 128 ==> Times(Power128(i), b) % w == Times(Power128(i), b)
  {
    var p, rest := Power128(i), Power128(top - i);
    PowerSplit(i, top);
    var f := Times(rest, m);
    Regroup3(p, rest, m);
    TimesPositive(rest, m);
    LastByte(sum, p, b, f);
    if i < top && b < 128 {
      assert rest == 128 * Power128(top - i - 1);
      WideEnough(rest, m);
      NoTruncation(p, b, f);
    }
  }

  lemma TimesPositive(rest: nat, m: nat)
    requires rest > 0 && m > 0
    ensures Times(rest, m) > 0
  {
  }

  lemma WideEnough(rest: nat, m: nat)
    requires rest >= 128 && m > 0
    ensures Times(rest, m) >= 128
  {
  }

  lemma NoTruncation(p: nat, b: nat, f: nat)
    requires p > 0 && b < f
    ensures Times(p, f) > 0 && Times(p, b) % Times(p, f) == Times(p, b)
  {
    assert p * b < p * f;
  }

  lemma Regroup3(p: nat, q: nat, m: nat)
    ensures Times(Times(p, q), m) == Times(p, Times(q, m))
  {
  }

  lemma LastByte(sum: int, p: nat, b: nat, f: nat)
    requires 0 <= sum < p && f > 0
    ensures Times(p, f) > 0 && sum + Times(p, b) % Times(p, f) == (sum + Times(p, b)) % Times(p, f)
  {
    var q, r, w := b / f, b % f, Times(p, f);
    assert b == q * f + r;
    assert p * (q * f + r) == q * (p * f) + p * r;
    assert p * r <= p * (f - 1) == w - p;
    ModUnique(p * b, q, p * r, w);
    ModUnique(sum + p * b, q, sum + p * r, w);
  }

  lemma ModUnique(x: int, q: int, r: int, w: int)
    requires 0 <= r < w && x == q * w + r
    ensures x % w == r
  {
    var d := x / w - q;
    assert d * w == r - x % w;
    assert d != 0 ==> d * w >= w || d * w <= -w;
  }

  lemma RegisterSizes()
    ensures Times(Power128(4), 16) == UINT32_LIMIT && Times(Power128(9), 2) == UINT64_LIMIT
  {
    assert Power128(4) == 0x1000_0000;
    assert Power128(9) == 128 * 128 * 128 * 128 * 128 * Power128(4);
  }

  /** The loop invariant: i bytes of k read, all of them continuation bytes. */
  ghost predicate Going(s: seq<byte>, i: nat, k: nat, sum: int) {
    && i <= k
    && (i < k ==> Partial(s, i, k, sum))
    && (i == k ==> Scan(s, k) == None)
  }

  lemma GoingStart(s: seq<byte>, k: nat)
    requires k > 0
    ensures Going(s, 0, k, 0)
  {
    assert s[0..] == s;
    assert Times(Power128(0), 1) == 1;
    assert Shifted(0, 1, Scan(s, k)) == Scan(s, k);
  }

  /** One byte, in a register of w values: a continuation byte moves the loop on, any other ends the number. */
  lemma GoingByte(s: seq<byte>, i: nat, k: nat, sum: int, m: nat, w: nat)
    requires i < k && i < |s| && Going(s, i, k, sum) && m > 0 && w == Times(Power128(k - 1), m)
    ensures w > 0
    ensures s[i] >= 128 ==> Going(s, i + 1, k, sum + Times(Power128(i), s[i] - 128) % w)
    ensures s[i] < 128 ==>
              && Scan(s, k) == Some((sum + Times(Power128(i), s[i]), s[i + 1..]))
              && sum + Times(Power128(i), s[i]) % w == (sum + Times(Power128(i), s[i])) % w
  {
    assert s[i..][1..] == s[i + 1..];
    RegisterShift(sum, i, k - 1, m, if s[i] >= 128 then s[i] - 128 else s[i], w);
    if s[i] >= 128 {
      PartialStep(s, i, k, sum);
    }
  }

  lemma GoingEnd(s: seq<byte>, i: nat, k: nat, sum: int)
    requires Going(s, i, k, sum) && (i == k || i >= |s|)
    ensures Scan(s, k) == None && (k == 5 ==> GetVarint32(s) == None) && (k == 10 ==> GetVarint64(s) == None)
  {
    if i < k {
      assert s[i..] == [];
    }
  }

  lemma FastByte(s: seq<byte>)
    requires 0 < |s| && s[0] < 128
    ensures GetVarint32(s) == Some((s[0], s[1..]))
  {
  }

  method GetVarint32Ptr(s: seq<byte>) returns (r: Option<(uint32, seq<byte>)>)
    ensures r == GetVarint32(s)
  {
    hide Scan, Going, GetVarint32, Power128;
    // The inline fast path: a single byte below 128.
    if 0 < |s| && s[0] < 128 {
      FastByte(s);
      return Some((s[0], s[1..]));
    }
    RegisterSizes();
    var result: int, i := 0, 0;
    GoingStart(s, 5);
    while i <= 4 && i < |s|
      invariant 0 <= i <= 5 && Going(s, i, 5, result)
      decreases 5 - i
    {
      var b: nat := s[i];
      GoingByte(s, i, 5, result, 16, UINT32_LIMIT);
      if b >= 128 {
        result := result + Times(Power128(i), b - 128) % UINT32_LIMIT;
        i := i + 1;
      } else {
        Scanned32(s, result + Times(Power128(i), b), s[i + 1..]);
        return Some((result + Times(Power128(i), b) % UINT32_LIMIT, s[i + 1..]));
      }
    }
    GoingEnd(s, i, 5, result);
    r := None;
  }

  method GetVarint64Ptr(s: seq<byte>) returns (r: Option<(uint64, seq<byte>)>)
    ensures r == GetVarint64(s)
  {
    hide Scan, Going, GetVarint64, Power128;
    RegisterSizes();
    var result: int, i := 0, 0;
    GoingStart(s, 10);
    while i <= 9 && i < |s|
      invariant 0 <= i <= 10 && Going(s, i, 10, result)
      decreases 10 - i
    {
      var b: nat := s[i];
      GoingByte(s, i, 10, result, 2, UINT64_LIMIT);
      if b >= 128 {
        result := result + Times(Power128(i), b - 128) % UINT64_LIMIT;
        i := i + 1;
      } else {
        Scanned64(s, result + Times(Power128(i), b), s[i + 1..]);
        return Some((result + Times(Power128(i), b) % UINT64_LIMIT, s[i + 1..]));
      }
    }
    GoingEnd(s, i, 10, result);
    r := None;
  }

  // ---------------------------------------------------------------- length-prefixed strings

  function LengthPrefixed(s: seq<byte>): seq<byte> {
    Varint(|s|) + s
  }

  function GetLengthPrefixed(s: seq<byte>): (r: Option<(seq<byte>, seq<byte>)>)
    ensures r.Some? ==> |r.value.1| < |s|
  {
    match GetVarint32(s)
    case None => None
    case Some((len, rest)) => if |rest| >= len then Some((rest[..len], rest[len..])) else None
  }

  lemma LengthPrefixedExtends(s: seq<byte>, more: seq<byte>)
    requires GetLengthPrefixed(s).Some?
    ensures GetLengthPrefixed(s + more) == Some((GetLengthPrefixed(s).value.0, GetLengthPrefixed(s).value.1 + more))
  {
    ScanExtends(s, 5, more);
    var (len, rest) := GetVarint32(s).value;
    assert (rest + more)[..len] == rest[..len] && (rest + more)[len..] == rest[len..] + more;
  }

  lemma LengthPrefixedRoundTrip(s: seq<byte>, rest: seq<byte>)
    requires |s| < UINT32_LIMIT
    ensures GetLengthPrefixed(LengthPrefixed(s) + rest) == Some((s, rest))
  {
    assert LengthPrefixed(s) + rest == Varint(|s|) + (s + rest);
    Varint32RoundTrip(|s|, s + rest);
    assert (s + rest)[..|s|] == s && (s + rest)[|s|..] == rest;
  }
}
