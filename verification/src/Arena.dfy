/**
 The bump allocator (src/util/arena.h, src/util/arena.cpp).

 Memory is a line of addresses. `new char[n]` is an arbitrary 8-aligned address whose n bytes are disjoint
 from the blocks there are.
 */
module Arena {
  import opened Common

  const BLOCK_SIZE := 4096
  const ALIGN := 8
  /** `sizeof(char*)` */
  const ADDRESS_SIZE := 8

  /** The bytes from `at` on. */
  datatype Range = Range(at: nat, len: nat)

  predicate Apart(a: Range, b: Range) {
    a.at + a.len <= b.at || b.at + b.len <= a.at
  }

  predicate Inside(a: Range, b: Range) {
    b.at <= a.at && a.at + a.len <= b.at + b.len
  }

  ghost predicate AllApart(s: seq<Range>) {
    forall i, j :: 0 <= i < j < |s| ==> Apart(s[i], s[j])
  }

  ghost predicate AllInside(s: seq<Range>, blocks: seq<Range>) {
    forall r :: r in s ==> exists b :: b in blocks && Inside(r, b)
  }

  predicate ApartFrom(r: Range, s: seq<Range>) {
    forall x :: x in s ==> Apart(r, x)
  }

  function Usage(blocks: seq<Range>): nat {
    if blocks == [] then 0 else Usage(DropLast(blocks)) + Last(blocks).len + ADDRESS_SIZE
  }

  /** An address that the system allocator may return. */
  predicate Fresh(at: nat, len: nat, blocks: seq<Range>) {
    at > 0 && at % ALIGN == 0 && ApartFrom(Range(at, len), blocks)
  }

  function EndOf(blocks: seq<Range>): (e: nat)
    ensures forall b :: b in blocks ==> b.at + b.len <= e
  {
    if blocks == [] then 0
    else
      var e, last := EndOf(DropLast(blocks)), Last(blocks).at + Last(blocks).len;
      assert blocks == DropLast(blocks) + [Last(blocks)];
      if last > e then last else e
  }

  /** There always is such an address. */
  lemma FreshExists(len: nat, blocks: seq<Range>)
    ensures exists at: nat :: Fresh(at, len, blocks)
  {
    var at := ALIGN * (EndOf(blocks) + 1);
    assert Fresh(at, len, blocks);
  }

  lemma AddApart(s: seq<Range>, r: Range)
    requires AllApart(s) && ApartFrom(r, s)
    ensures AllApart(s + [r])
  {
    forall i, j | 0 <= i < j < |s + [r]| ensures Apart((s + [r])[i], (s + [r])[j]) {
      assert j == |s| ==> s[i] in s;
    }
  }

  lemma AddInside(s: seq<Range>, r: Range, blocks: seq<Range>, b: Range)
    requires AllInside(s, blocks) && b in blocks && Inside(r, b)
    ensures AllInside(s + [r], blocks)
  {
  }

  /** A new block is apart from every range inside the other blocks. */
  lemma NewBlockApart(s: seq<Range>, blocks: seq<Range>, b: Range)
    requires AllInside(s, blocks) && ApartFrom(b, blocks)
    ensures ApartFrom(b, s)
  {
  }

  lemma UsageSnoc(blocks: seq<Range>, b: Range)
    ensures Usage(blocks + [b]) == Usage(blocks) + b.len + ADDRESS_SIZE
  {
    assert DropLast(blocks + [b]) == blocks;
  }

  /** No range handed out from the block reaches into its last n bytes. */
  ghost predicate Unused(given: seq<Range>, b: Range, n: nat) {
    forall g :: g in given && Inside(g, b) ==> g.at + g.len + n <= b.at + b.len
  }

  /** Some range handed out from the block ends right before its last n bytes. */
  ghost predicate UsedUpTo(given: seq<Range>, b: Range, n: nat) {
    exists g :: g in given && Inside(g, b) && g.at + g.len + n == b.at + b.len
  }

  /** A block that is left behind: exactly its last n bytes are wasted, and they are few. */
  ghost predicate Retired(given: seq<Range>, b: Range, n: nat) {
    Unused(given, b, n) && UsedUpTo(given, b, n) && n < BLOCK_SIZE / 4 + ALIGN
  }

  /** A range handed out elsewhere leaves a retired block as it is. */
  lemma StaysRetired(given: seq<Range>, b: Range, n: nat, r: Range)
    requires Retired(given, b, n) && r.len > 0 && Apart(r, b)
    ensures Retired(given + [r], b, n)
  {
    assert forall g :: g in given + [r] <==> g in given || g == r;
  }

  ghost predicate AllRetired(given: seq<Range>, small: seq<Range>, left: seq<nat>) {
    && (small == [] ==> left == [])
    && (small != [] ==> |left| == |small| - 1)
    && forall i :: 0 <= i < |left| ==> Retired(given, small[i], left[i])
  }

  lemma FirstSmall(given: seq<Range>, b: Range)
    ensures AllRetired(given, [b], [])
  {
  }

  lemma OneMoreRetired(given: seq<Range>, small: seq<Range>, left: seq<nat>, b: Range, n: nat)
    requires small != [] && AllRetired(given, small, left) && Retired(given, Last(small), n)
    ensures AllRetired(given, small + [b], left + [n])
  {
  }

  lemma ApartFromSome(r: Range, s: seq<Range>, some: seq<Range>)
    requires ApartFrom(r, s) && forall x :: x in some ==> x in s
    ensures ApartFrom(r, some)
  {
  }

  lemma AllStayRetired(given: seq<Range>, small: seq<Range>, left: seq<nat>, r: Range)
    requires AllRetired(given, small, left) && r.len > 0
    requires forall i :: 0 <= i < |left| ==> Apart(r, small[i])
    ensures AllRetired(given + [r], small, left)
  {
    forall i | 0 <= i < |left| ensures Retired(given + [r], small[i], left[i]) {
      StaysRetired(given, small[i], left[i], r);
    }
  }

  lemma MembersApart(s: seq<Range>, a: Range, b: Range)
    requires AllApart(s) && a in s && b in s && a != b
    ensures Apart(a, b)
  {
    var i :| 0 <= i < |s| && s[i] == a;
    var j :| 0 <= j < |s| && s[j] == b;
    assert Apart(s[if i < j then i else j], s[if i < j then j else i]);
  }

  /** Bytes of a block's unused end are apart from everything handed out. */
  lemma TailApart(given: seq<Range>, blocks: seq<Range>, b: Range, n: nat, r: Range)
    requires AllInside(given, blocks) && AllApart(blocks) && b in blocks && Unused(given, b, n)
    requires Inside(r, b) && r.at + n >= b.at + b.len
    ensures ApartFrom(r, given)
  {
    forall g | g in given ensures Apart(r, g) {
      var c :| c in blocks && Inside(g, c);
      if c != b {
        MembersApart(blocks, b, c);
      }
    }
  }

  lemma OthersApart(small: seq<Range>, r: Range)
    requires small != [] && AllApart(small) && Inside(r, Last(small))
    ensures forall i :: 0 <= i < |small| - 1 ==> Apart(r, small[i])
  {
  }

  /** A range in a block of its own does not touch what is unused elsewhere. */
  lemma StaysUnused(given: seq<Range>, b: Range, n: nat, r: Range)
    requires Unused(given, b, n) && r.len > 0 && Apart(r, b)
    ensures Unused(given + [r], b, n)
    ensures UsedUpTo(given, b, n) ==> UsedUpTo(given + [r], b, n)
  {
    assert forall g :: g in given + [r] <==> g in given || g == r;
  }

  /** Nothing was handed out from a new block. */
  lemma NewUnused(given: seq<Range>, blocks: seq<Range>, b: Range)
    requires AllInside(given, blocks) && ApartFrom(b, blocks) && forall g :: g in given ==> g.len > 0
    ensures Unused(given, b, b.len)
  {
    NewBlockApart(given, blocks, b);
  }

  /** Where an arena stands: the free bytes of the current block, and the blocks. */
  datatype Spot = Spot(at: nat, remaining: nat, blocks: seq<Range>, small: seq<Range>)

  /** The first n free bytes are taken. */
  function Carved(s: Spot, n: nat): Spot
    requires n <= s.remaining
  {
    s.(at := s.at + n, remaining := s.remaining - n)
  }

  /** The size of the block that a request opens. */
  function SizeFor(bytes: nat): nat {
    if bytes > BLOCK_SIZE / 4 then bytes else BLOCK_SIZE
  }

  /** A block at this address is opened for the request; that of a small one becomes current. */
  function Opened(s: Spot, at: nat, bytes: nat): Spot {
    var b := Range(at, SizeFor(bytes));
    if bytes > BLOCK_SIZE / 4 then s.(blocks := s.blocks + [b])
    else Carved(Spot(at, BLOCK_SIZE, s.blocks + [b], s.small + [b]), bytes)
  }

  /** Bytes to skip for an aligned address. */
  function Slop(at: nat): nat {
    (ALIGN - at % ALIGN) % ALIGN
  }

  class Arena {
    var alloc_ptr_: nat
    var alloc_bytes_remaining_: nat
    /** Address and size of each block; the source keeps the addresses. */
    var blocks_: seq<Range>
    var memory_usage_: nat
    /** The ranges handed out so far. */
    ghost var given: seq<Range>
    /** The 4096-byte blocks for small requests, the last one being current, and what the others have left. */
    ghost var small: seq<Range>
    ghost var left: seq<nat>

    constructor ()
      ensures Valid() && given == [] && Now() == Spot(0, 0, [], []) && memory_usage_ == 0
    {
      alloc_ptr_, alloc_bytes_remaining_, blocks_, memory_usage_ := 0, 0, [], 0;
      given, small, left := [], [], [];
    }

    ghost predicate Valid()
      reads this
    {
      && Owned() && Current()
      && AllRetired(given, small, left)
      && (small != [] ==> UsedUpTo(given, Last(small), alloc_bytes_remaining_))
    }

    /** Handed-out ranges are disjoint and inside the blocks; the usage is that of the blocks. */
    ghost predicate Owned()
      reads `blocks_, `given, `memory_usage_
    {
      && AllApart(blocks_) && AllApart(given) && AllInside(given, blocks_)
      && memory_usage_ == Usage(blocks_)
      && forall g :: g in given ==> g.len > 0
    }

    /** The free bytes are the unused end of the last small block. */
    ghost predicate Current()
      reads `alloc_ptr_, `alloc_bytes_remaining_, `blocks_, `given, `small
    {
      && AllApart(small) && (forall b :: b in small ==> b in blocks_ && b.len == BLOCK_SIZE)
      && (small == [] ==> alloc_bytes_remaining_ == 0)
      && (small != [] ==>
            && Last(small).at <= alloc_ptr_ && alloc_ptr_ + alloc_bytes_remaining_ == Last(small).at + Last(small).len
            && Unused(given, Last(small), alloc_bytes_remaining_))
    }

    ghost function Now(): Spot
      reads `alloc_ptr_, `alloc_bytes_remaining_, `blocks_, `small
    {
      Spot(alloc_ptr_, alloc_bytes_remaining_, blocks_, small)
    }

    /** A request that fits is taken from the current block, and only one that does not opens a block. */
    method Allocate(bytes: nat) returns (result: nat)
      requires Valid() && bytes > 0
      modifies this
      ensures Valid() && given == old(given) + [Range(result, bytes)]
      ensures bytes <= old(alloc_bytes_remaining_) ==>
                result == old(alloc_ptr_) && Now() == Carved(old(Now()), bytes) && memory_usage_ == old(memory_usage_)
      ensures bytes > old(alloc_bytes_remaining_) ==>
                && Now() == Opened(old(Now()), result, bytes)
                && memory_usage_ == old(memory_usage_) + SizeFor(bytes) + ADDRESS_SIZE
    {
      if bytes <= alloc_bytes_remaining_ {
        result := Bump(0, bytes);
        return;
      }
      result := AllocateFallback(bytes, 0);
    }

    method AllocateAligned(bytes: nat) returns (result: nat)
      requires Valid() && bytes > 0
      modifies this
      ensures Valid() && given == old(given) + [Range(result, bytes)]
      ensures result % ALIGN == 0
      ensures var slop := Slop(old(alloc_ptr_));
              if bytes + slop <= old(alloc_bytes_remaining_) then
                && result == old(alloc_ptr_) + slop && Now() == Carved(old(Now()), bytes + slop)
                && memory_usage_ == old(memory_usage_)
              else
                && Now() == Opened(old(Now()), result, bytes)
                && memory_usage_ == old(memory_usage_) + SizeFor(bytes) + ADDRESS_SIZE
    {
      hide Usage, AllApart, AllInside, AllRetired, Unused, UsedUpTo, Opened;
      var current_mod := alloc_ptr_ % ALIGN;
      var slop := if current_mod == 0 then 0 else ALIGN - current_mod;
      var needed := bytes + slop;
      if needed <= alloc_bytes_remaining_ {
        result := Bump(slop, bytes);
      } else {
        result := AllocateFallback(bytes, slop);
      }
    }

    /** Takes bytes off the free end of the current block, behind `slop` skipped ones. */
    method Bump(slop: nat, bytes: nat) returns (result: nat)
      requires Owned() && Current() && AllRetired(given, small, left)
      requires bytes > 0 && slop + bytes <= alloc_bytes_remaining_
      modifies `alloc_ptr_, `alloc_bytes_remaining_, `given
      ensures Valid() && given == old(given) + [Range(result, bytes)] && result == old(alloc_ptr_) + slop
      ensures Now() == Carved(old(Now()), slop + bytes)
    {
      hide Usage;
      result := alloc_ptr_ + slop;
      ghost var b, r := Last(small), Range(result, bytes);
      assert b in small && Inside(r, b);
      TailApart(given, blocks_, b, alloc_bytes_remaining_, r);
      AddApart(given, r);
      AddInside(given, r, blocks_, b);
      OthersApart(small, r);
      AllStayRetired(given, small, left, r);
      alloc_ptr_ := alloc_ptr_ + slop + bytes;
      alloc_bytes_remaining_ := alloc_bytes_remaining_ - (slop + bytes);
      given := given + [r];
      assert r in given;
    }

    /** A big request gets a block of its own; any other starts a new block and leaves the current one behind. */
    method AllocateFallback(bytes: nat, ghost slop: nat) returns (result: nat)
      requires Valid() && bytes > 0 && slop < ALIGN && alloc_bytes_remaining_ < bytes + slop
      modifies this
      ensures Valid() && given == old(given) + [Range(result, bytes)]
      ensures result % ALIGN == 0 && Now() == Opened(old(Now()), result, bytes)
      ensures memory_usage_ == old(memory_usage_) + SizeFor(bytes) + ADDRESS_SIZE
    {
      hide Usage, AllApart, AllInside, ApartFrom, AllRetired;
      ghost var before := blocks_;
      if bytes > BLOCK_SIZE / 4 {
        result := AllocateNewBlock(bytes);
        GiveBlock(before, Range(result, bytes));
        return;
      }
      ghost var unused := alloc_bytes_remaining_;
      alloc_ptr_ := AllocateNewBlock(BLOCK_SIZE);
      alloc_bytes_remaining_ := BLOCK_SIZE;
      StartSmall(before, Range(alloc_ptr_, BLOCK_SIZE), unused);
      result := Bump(0, bytes);
    }

    /** A whole new block is handed out. */
    ghost method GiveBlock(before: seq<Range>, r: Range)
      requires Owned() && blocks_ == before + [r] && ApartFrom(r, before) && r.len > 0 && AllInside(given, before)
      requires AllApart(small) && forall b :: b in small ==> b in before && b.len == BLOCK_SIZE
      requires small == [] ==> alloc_bytes_remaining_ == 0
      requires small != [] ==>
                 && Last(small).at <= alloc_ptr_
                 && alloc_ptr_ + alloc_bytes_remaining_ == Last(small).at + Last(small).len
                 && Unused(given, Last(small), alloc_bytes_remaining_)
                 && UsedUpTo(given, Last(small), alloc_bytes_remaining_)
      requires AllRetired(given, small, left)
      modifies `given
      ensures Valid() && given == old(given) + [r]
    {
      hide Usage;
      NewBlockApart(given, before, r);
      AddApart(given, r);
      AddInside(given, r, blocks_, r);
      if small != [] {
        assert Last(small) in small;
        StaysUnused(given, Last(small), alloc_bytes_remaining_, r);
      }
      AllStayRetired(given, small, left, r);
      given := given + [r];
    }

    /** A new block becomes the current one. */
    ghost method StartSmall(before: seq<Range>, b: Range, unused: nat)
      requires Owned() && blocks_ == before + [b] && ApartFrom(b, before) && b.len == BLOCK_SIZE
               && AllInside(given, before)
      requires AllApart(small) && (forall x :: x in small ==> x in before && x.len == BLOCK_SIZE)
               && AllRetired(given, small, left)
      requires small != [] ==> Retired(given, Last(small), unused)
      requires alloc_ptr_ == b.at && alloc_bytes_remaining_ == BLOCK_SIZE
      modifies `small, `left
      ensures Owned() && Current() && AllRetired(given, small, left) && small == old(small) + [b]
    {
      hide Usage, AllApart, AllInside, ApartFrom, Unused, Retired, AllRetired;
      NewUnused(given, before, b);
      ApartFromSome(b, before, small);
      AddApart(small, b);
      if small == [] {
        assert small + [b] == [b];
        FirstSmall(given, b);
      } else {
        OneMoreRetired(given, small, left, b, unused);
      }
      left := if small == [] then [] else left + [unused];
      small := small + [b];
    }

    method AllocateNewBlock(block_bytes: nat) returns (result: nat)
      requires Owned()
      modifies `blocks_, `memory_usage_
      ensures Owned() && Fresh(result, block_bytes, old(blocks_))
      ensures blocks_ == old(blocks_) + [Range(result, block_bytes)]
      ensures memory_usage_ == old(memory_usage_) + block_bytes + ADDRESS_SIZE
    {
      FreshExists(block_bytes, blocks_);
      result :| Fresh(result, block_bytes, blocks_);
      UsageSnoc(blocks_, Range(result, block_bytes));
      AddApart(blocks_, Range(result, block_bytes));
      blocks_ := blocks_ + [Range(result, block_bytes)];
      memory_usage_ := memory_usage_ + block_bytes + ADDRESS_SIZE;
    }
  }
}
