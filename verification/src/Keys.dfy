/**
 Internal keys and their order (src/util/key.h, src/util/options.h).

 An internal key is a user key followed by eight tag bytes; the tag packs the sequence number
 (upper 56 bits) and the value type (lowest byte). Keys are ordered by user key ascending and,
 for one user key, by tag descending, so that a newer entry comes first.
 */
module Keys {
  import opened Common
  import opened Coding

  type UserKey = seq<byte>

  datatype InternalKey = InternalKey(user: UserKey, tag: uint64)

  datatype Entry = Entry(key: InternalKey, value: seq<byte>)

  const TYPE_DELETION := 0
  const TYPE_VALUE := 1
  const MAX_SEQUENCE: int := 0x100_0000_0000_0000 - 1

  /** The bits of a sequence that are left of its shift by a byte. */
  function LowBits56(sequence: nat): (r: nat)
    ensures r <= MAX_SEQUENCE
  {
    if sequence <= MAX_SEQUENCE then sequence else sequence % (MAX_SEQUENCE + 1)
  }

  function PackSequenceAndType(sequence: nat, kind: nat): (tag: uint64)
    requires kind < 256
  {
    LowBits56(sequence) * 256 + kind
  }

  function Sequence(tag: uint64): nat { tag / 256 }

  function Kind(tag: uint64): nat { tag % 256 }

  // ---------------------------------------------------------------- bytewise order of user keys

  /** `std::string_view::compare`: negative, zero or positive. */
  function Compare(a: UserKey, b: UserKey): (r: int)
    ensures -1 <= r <= 1
  {
    if a == [] then (if b == [] then 0 else -1)
    else if b == [] then 1
    else if a[0] < b[0] then -1
    else if a[0] > b[0] then 1
    else Compare(a[1..], b[1..])
  }

  lemma {:induction false} CompareEqual(a: UserKey, b: UserKey)
    ensures Compare(a, b) == 0 <==> a == b
  {
    if a != [] && b != [] && a[0] == b[0] {
      CompareEqual(a[1..], b[1..]);
      assert a == [a[0]] + a[1..] && b == [b[0]] + b[1..];
    }
  }

  lemma {:induction false} CompareSwap(a: UserKey, b: UserKey)
    ensures Compare(a, b) == -Compare(b, a)
  {
    if a != [] && b != [] && a[0] == b[0] {
      CompareSwap(a[1..], b[1..]);
    }
  }

  lemma {:induction false} CompareTransitive(a: UserKey, b: UserKey, c: UserKey)
    requires Compare(a, b) < 0 && Compare(b, c) < 0
    ensures Compare(a, c) < 0
  {
    if a != [] && a[0] == b[0] && b[0] == c[0] {
      CompareTransitive(a[1..], b[1..], c[1..]);
    }
  }

  predicate UserLt(a: UserKey, b: UserKey) { Compare(a, b) < 0 }

  predicate UserLe(a: UserKey, b: UserKey) { Compare(a, b) <= 0 }

  /** The order of user keys is a strict total order, with `UserLe` its reflexive form. */
  lemma UserOrder()
    ensures forall a: UserKey :: !UserLt(a, a)
    ensures forall a: UserKey, b: UserKey :: UserLt(a, b) || a == b || UserLt(b, a)
    ensures forall a: UserKey, b: UserKey :: UserLe(a, b) <==> UserLt(a, b) || a == b
    ensures forall a: UserKey, b: UserKey, c: UserKey :: UserLt(a, b) && UserLt(b, c) ==> UserLt(a, c)
  {
    forall a: UserKey, b: UserKey
      ensures Compare(a, b) == -Compare(b, a) && (Compare(a, b) == 0 <==> a == b)
    {
      CompareEqual(a, b);
      CompareSwap(a, b);
    }
    forall a: UserKey, b: UserKey, c: UserKey | UserLt(a, b) && UserLt(b, c)
      ensures UserLt(a, c)
    {
      CompareTransitive(a, b, c);
    }
  }

  // ---------------------------------------------------------------- order of internal keys

  /** `cmp(const InternalKey&, const InternalKey&)`. */
  function Cmp(a: InternalKey, b: InternalKey): int {
    var r := Compare(a.user, b.user);
    if r != 0 then r
    else if a.tag > b.tag then -1
    else if a.tag < b.tag then 1
    else 0
  }

  predicate Lt(a: InternalKey, b: InternalKey) { Cmp(a, b) < 0 }

  lemma CmpFacts(a: InternalKey, b: InternalKey)
    ensures Cmp(a, b) == 0 <==> a == b
    ensures Cmp(a, b) < 0 <==> Cmp(b, a) > 0
    ensures Lt(a, b) <==> UserLt(a.user, b.user) || (a.user == b.user && a.tag > b.tag)
  {
    CompareEqual(a.user, b.user);
    CompareSwap(a.user, b.user);
  }

  /** Internal keys are strictly and totally ordered. */
  lemma KeyOrder()
    ensures forall a: InternalKey :: !Lt(a, a)
    ensures forall a: InternalKey, b: InternalKey :: Lt(a, b) || a == b || Lt(b, a)
    ensures forall a: InternalKey, b: InternalKey, c: InternalKey :: Lt(a, b) && Lt(b, c) ==> Lt(a, c)
  {
    forall a: InternalKey, b: InternalKey
      ensures Cmp(a, b) == 0 <==> a == b
      ensures Cmp(a, b) < 0 <==> Cmp(b, a) > 0
      ensures Lt(a, b) <==> UserLt(a.user, b.user) || (a.user == b.user && a.tag > b.tag)
    {
      CmpFacts(a, b);
    }
    UserOrder();
  }

  /** What `Lt` says about user keys and tags, for every pair at once. */
  lemma KeyOrderByParts()
    ensures forall a: InternalKey, b: InternalKey ::
              Lt(a, b) <==> UserLt(a.user, b.user) || (a.user == b.user && a.tag > b.tag)
  {
    forall a: InternalKey, b: InternalKey
      ensures Lt(a, b) <==> UserLt(a.user, b.user) || (a.user == b.user && a.tag > b.tag)
    {
      CmpFacts(a, b);
    }
  }

  // ---------------------------------------------------------------- the byte form

  function Encode(k: InternalKey): (s: seq<byte>)
    ensures |s| == |k.user| + 8
  {
    k.user + Fixed64(k.tag)
  }

  function Decode(s: seq<byte>): InternalKey
    requires |s| >= 8
  {
    InternalKey(s[..|s| - 8], DecodeFixed64(s[|s| - 8..]))
  }

  lemma DecodeEncode(k: InternalKey)
    ensures Decode(Encode(k)) == k
  {
    var s := Encode(k);
    assert s[..|s| - 8] == k.user && s[|s| - 8..] == Fixed64(k.tag);
    Fixed64RoundTrip(k.tag, []);
    assert Fixed64(k.tag) + [] == Fixed64(k.tag);
  }

  lemma EncodeDecode(s: seq<byte>)
    requires |s| >= 8
    ensures Encode(Decode(s)) == s
  {
    Fixed64OfDecode(s[|s| - 8..]);
  }

  /** `cmp(const std::string_view&, const std::string_view&)`: strips eight tag bytes from both sides. */
  function CmpView(a: seq<byte>, b: seq<byte>): int
    requires |a| >= 8 && |b| >= 8
  {
    var r := Compare(a[..|a| - 8], b[..|b| - 8]);
    if r != 0 then r
    else
      var x, y := DecodeFixed64(a[|a| - 8..]), DecodeFixed64(b[|b| - 8..]);
      if x > y then -1 else if x < y then 1 else 0
  }

  /** On tagged keys the byte comparison is the order of the keys they encode. */
  lemma CmpViewIsCmp(a: InternalKey, b: InternalKey)
    ensures CmpView(Encode(a), Encode(b)) == Cmp(a, b)
  {
    DecodeEncode(a);
    DecodeEncode(b);
    assert Decode(Encode(a)).user == a.user && Decode(Encode(b)).user == b.user;
  }

  /** On untagged strings of at least eight bytes it still decides equality. */
  lemma CmpViewEquality(a: seq<byte>, b: seq<byte>)
    requires |a| >= 8 && |b| >= 8
    ensures CmpView(a, b) == 0 <==> a == b
  {
    EncodeDecode(a);
    EncodeDecode(b);
    CmpFacts(Decode(a), Decode(b));
  }

  // ---------------------------------------------------------------- untagged keys under the tagged comparison

  /**
   `cmp` of two string views where the source passes user keys. On a string of less than eight bytes the
   length underflows and the call is undefined.
   */
  function Untagged(a: UserKey, b: UserKey): Option<int> {
    if |a| < 8 || |b| < 8 then None else Some(CmpView(a, b))
  }

  /** Without its last eight bytes. */
  function Front(a: UserKey): UserKey
    requires |a| >= 8
  {
    a[..|a| - 8]
  }

  function FirstDifference(x: seq<byte>, y: seq<byte>): (i: nat)
    requires |x| == |y| && x != y
    ensures i < |x| && x[i] != y[i] && forall k :: 0 <= k < i ==> x[k] == y[k]
  {
    if x[0] != y[0] then 0
    else
      assert x == [x[0]] + x[1..] && y == [y[0]] + y[1..];
      1 + FirstDifference(x[1..], y[1..])
  }

  function LastDifference(x: seq<byte>, y: seq<byte>): (i: nat)
    requires |x| == |y| && x != y
    ensures i < |x| && x[i] != y[i] && forall k :: i < k < |x| ==> x[k] == y[k]
  {
    var n := |x| - 1;
    if x[n] != y[n] then n
    else
      assert x == x[..n] + [x[n]] && y == y[..n] + [y[n]];
      LastDifference(x[..n], y[..n])
  }

  /**
   When the tagged comparison orders two untagged keys as their bytes do. Fronts that differ within both
   decide rightly. If one front starts the other, the shorter one counts as smaller: then the bytes behind it
   must agree. Of equal fronts the last eight bytes count as a number, backwards and with the sign turned:
   then the first and the last difference must point in opposite directions.
   */
  predicate OrderAgrees(a: UserKey, b: UserKey)
    requires |a| >= 8 && |b| >= 8
  {
    var p, q := |a| - 8, |b| - 8;
    if Front(a) == Front(b) then
      a != b ==>
        var i, j := FirstDifference(a[p..], b[q..]), LastDifference(a[p..], b[q..]);
        a[p + i] < b[q + i] <==> a[p + j] > b[q + j]
    else if IsPrefix(Front(a), Front(b)) then UserLt(a[p..], b[p..])
    else if IsPrefix(Front(b), Front(a)) then UserLt(b[q..], a[q..])
    else true
  }

  /** A common front does not matter for the bytewise order. */
  lemma {:induction false} CompareBehind(p: seq<byte>, x: seq<byte>, y: seq<byte>)
    ensures Compare(p + x, p + y) == Compare(x, y)
  {
    if p == [] {
      assert p + x == x && p + y == y;
    } else {
      assert (p + x)[1..] == p[1..] + x && (p + y)[1..] == p[1..] + y;
      CompareBehind(p[1..], x, y);
    }
  }

  lemma PrefixTails(p: seq<byte>, q: seq<byte>)
    requires p != [] && q != [] && p[0] == q[0]
    ensures IsPrefix(p[1..], q[1..]) ==> IsPrefix(p, q)
  {
    if IsPrefix(p[1..], q[1..]) {
      assert q[..|p|] == [q[0]] + q[1..][..|p| - 1] && p == [p[0]] + p[1..];
    }
  }

  /** Strings of which neither starts the other are ordered whatever follows them. */
  lemma {:induction false} CompareFronts(p: seq<byte>, q: seq<byte>, x: seq<byte>, y: seq<byte>)
    requires !IsPrefix(p, q) && !IsPrefix(q, p)
    ensures Compare(p + x, q + y) == Compare(p, q) != 0
  {
    assert p != [] && q != [];
    if p[0] == q[0] {
      assert (p + x)[1..] == p[1..] + x && (q + y)[1..] == q[1..] + y;
      PrefixTails(p, q);
      PrefixTails(q, p);
      CompareFronts(p[1..], q[1..], x, y);
    }
  }

  /** A proper start of a string is below it. */
  lemma {:induction false} ComparePrefix(p: seq<byte>, q: seq<byte>)
    requires IsPrefix(p, q) && p != q
    ensures Compare(p, q) == -1
  {
    if p != [] {
      assert q[..|p|][0] == q[0] && q[..|p|][1..] == q[1..][..|p| - 1];
      assert p == [p[0]] + p[1..] && q == [q[0]] + q[1..];
      ComparePrefix(p[1..], q[1..]);
    }
  }

  /** The first difference decides the bytewise order of strings of one length. */
  lemma {:induction false} CompareFirst(x: seq<byte>, y: seq<byte>)
    requires |x| == |y| && x != y
    ensures var i := FirstDifference(x, y); Compare(x, y) == if x[i] < y[i] then -1 else 1
  {
    if x[0] == y[0] {
      assert x == [x[0]] + x[1..] && y == [y[0]] + y[1..];
      CompareFirst(x[1..], y[1..]);
    }
  }

  /** The last difference decides the order of eight bytes read as a number. */
  lemma NumberLast(x: seq<byte>, y: seq<byte>)
    requires |x| == |y| == 8 && x != y
    ensures var j := LastDifference(x, y); DecodeFixed64(x) > DecodeFixed64(y) <==> x[j] > y[j]
    ensures DecodeFixed64(x) != DecodeFixed64(y)
  {
    hide LastDifference;
    NumberOf(x);
    NumberOf(y);
    var j := LastDifference(x, y);
    assert j == 0 || j == 1 || j == 2 || j == 3 || j == 4 || j == 5 || j == 6 || j == 7;
  }

  /** Four bytes as a number, the least significant one first. */
  function Number(a: int, b: int, c: int, d: int): int {
    a + 0x100 * b + 0x1_0000 * c + 0x100_0000 * d
  }

  lemma NumberOf(x: seq<byte>)
    requires |x| == 8
    ensures DecodeFixed64(x) == Number(x[0], x[1], x[2], x[3]) + UINT32_LIMIT * Number(x[4], x[5], x[6], x[7])
  {
  }

  /**
   For all keys of at least eight bytes: the tagged comparison gives their bytewise order if and only if
   `OrderAgrees`.
   */
  lemma UntaggedOrder(a: UserKey, b: UserKey)
    requires |a| >= 8 && |b| >= 8
    ensures CmpView(a, b) == Compare(a, b) <==> OrderAgrees(a, b)
    ensures (CmpView(a, b) < 0 <==> UserLt(a, b)) <==> OrderAgrees(a, b)
    ensures (CmpView(a, b) <= 0 <==> UserLe(a, b)) <==> OrderAgrees(a, b)
  {
    hide CmpView, Compare, DecodeFixed64, FirstDifference, LastDifference;
    CmpViewEquality(a, b);
    CompareEqual(a, b);
    CmpViewRange(a, b);
    var p, q := Front(a), Front(b);
    if p == q {
      SameFronts(a, b);
    } else if IsPrefix(p, q) {
      FrontStarts(a, b);
    } else if IsPrefix(q, p) {
      FrontStarts(b, a);
      CmpViewSwap(a, b);
      CompareSwap(a, b);
    } else {
      assert a == p + a[|p|..] && b == q + b[|q|..];
      CompareFronts(p, q, a[|p|..], b[|q|..]);
    }
  }

  /** If the front of a starts the front of b, a counts as smaller, and the bytes behind decide the bytewise order. */
  lemma FrontStarts(a: UserKey, b: UserKey)
    requires |a| >= 8 && |b| >= 8 && Front(a) != Front(b) && IsPrefix(Front(a), Front(b))
    ensures CmpView(a, b) == -1
    ensures Compare(a, b) == Compare(a[|a| - 8..], b[|a| - 8..])
  {
    hide CmpView, Compare;
    var p := Front(a);
    CmpViewRange(a, b);
    ComparePrefix(p, Front(b));
    assert b[..|p|] == Front(b)[..|p|];
    assert a == p + a[|p|..] && b == p + b[|p|..];
    CompareBehind(p, a[|p|..], b[|p|..]);
  }

  lemma CmpViewSwap(a: UserKey, b: UserKey)
    requires |a| >= 8 && |b| >= 8
    ensures CmpView(a, b) == -CmpView(b, a)
  {
    CompareSwap(Front(a), Front(b));
  }

  lemma CmpViewRange(a: seq<byte>, b: seq<byte>)
    requires |a| >= 8 && |b| >= 8
    ensures -1 <= CmpView(a, b) <= 1
    ensures Front(a) != Front(b) ==> CmpView(a, b) == Compare(Front(a), Front(b))
    ensures Front(a) == Front(b) ==>
              var x, y := DecodeFixed64(a[|a| - 8..]), DecodeFixed64(b[|b| - 8..]);
              CmpView(a, b) == if x > y then -1 else if x < y then 1 else 0
  {
    CompareEqual(Front(a), Front(b));
  }

  lemma SameFronts(a: UserKey, b: UserKey)
    requires |a| >= 8 && |b| >= 8 && Front(a) == Front(b)
    ensures CmpView(a, b) == Compare(a, b) <==> OrderAgrees(a, b)
  {
    hide CmpView, Compare, DecodeFixed64, FirstDifference, LastDifference;
    var p := Front(a);
    var x, y := a[|p|..], b[|p|..];
    assert a == p + x && b == p + y;
    CmpViewRange(a, b);
    CompareBehind(p, x, y);
    if a == b {
      CompareEqual(a, b);
    } else {
      CompareFirst(x, y);
      NumberLast(x, y);
    }
  }

  /** An input of each kind: equal fronts, and a front that starts the other. */
  lemma UntaggedOrderFails()
    ensures var a, b := [0, 0, 0, 0, 0, 0, 0, 1], [0, 0, 0, 0, 0, 0, 0, 2];
            UserLt(a, b) && CmpView(a, b) > 0
    ensures var a, b := [9, 0, 0, 0, 0, 0, 0, 0], [1, 0, 0, 0, 0, 0, 0, 0, 0];
            UserLt(b, a) && CmpView(a, b) < 0
  {
  }

  // ---------------------------------------------------------------- sorted runs of entries

  ghost predicate Sorted(s: seq<Entry>) {
    forall i, j :: 0 <= i < j < |s| ==> Lt(s[i].key, s[j].key)
  }

  /** Index of the first entry whose key is not below the target. */
  function LowerBound(s: seq<Entry>, target: InternalKey): (r: nat)
    ensures r <= |s|
    ensures forall i :: 0 <= i < r ==> Lt(s[i].key, target)
    ensures r < |s| ==> !Lt(s[r].key, target)
  {
    if s == [] || !Lt(s[0].key, target) then 0
    else 1 + LowerBound(s[1..], target)
  }

  lemma LowerBoundUnique(s: seq<Entry>, target: InternalKey, r: nat)
    requires r <= |s|
    requires forall i :: 0 <= i < r ==> Lt(s[i].key, target)
    requires r < |s| ==> !Lt(s[r].key, target)
    ensures LowerBound(s, target) == r
  {
  }

  lemma AboveLowerBound(s: seq<Entry>, target: InternalKey)
    requires Sorted(s)
    ensures forall i :: LowerBound(s, target) <= i < |s| ==> !Lt(s[i].key, target)
  {
    KeyOrder();
  }
}
