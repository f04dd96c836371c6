/**
 The merging iterator (src/db/iterator.h, src/db/iterator.cpp).

 A `Merageitor` over children that are cursors on sorted lists is itself an integer cursor on
 the sorted merge of those lists, whatever mix of moves it is given.
 */
module Merger {
  import opened Common
  import opened Keys

  // ---------------------------------------------------------------- the sorted merge of some lists

  function Merge2(a: seq<Entry>, b: seq<Entry>): seq<Entry>
    decreases |a| + |b|
  {
    if a == [] then b
    else if b == [] then a
    else if Lt(a[0].key, b[0].key) then [a[0]] + Merge2(a[1..], b)
    else [b[0]] + Merge2(a, b[1..])
  }

  function MergeAll(lists: seq<seq<Entry>>): seq<Entry> {
    if lists == [] then [] else Merge2(lists[0], MergeAll(lists[1..]))
  }

  ghost predicate DistinctKeys(a: seq<Entry>, b: seq<Entry>) {
    forall i, j :: 0 <= i < |a| && 0 <= j < |b| ==> a[i].key != b[j].key
  }

  /** Every list is sorted and no key occurs in two of them. */
  ghost predicate Mergeable(lists: seq<seq<Entry>>) {
    && (forall i :: 0 <= i < |lists| ==> Sorted(lists[i]))
    && (forall i, j :: 0 <= i < j < |lists| ==> DistinctKeys(lists[i], lists[j]))
  }

  ghost predicate InSome(lists: seq<seq<Entry>>, e: Entry) {
    exists i :: 0 <= i < |lists| && e in lists[i]
  }

  lemma {:induction false} Merge2Members(a: seq<Entry>, b: seq<Entry>)
    ensures forall e :: e in Merge2(a, b) <==> e in a || e in b
    decreases |a| + |b|
  {
    if a != [] && b != [] {
      assert a == [a[0]] + a[1..] && b == [b[0]] + b[1..];
      if Lt(a[0].key, b[0].key) {
        Merge2Members(a[1..], b);
      } else {
        Merge2Members(a, b[1..]);
      }
    }
  }

  lemma {:induction false} Merge2Sorted(a: seq<Entry>, b: seq<Entry>)
    requires Sorted(a) && Sorted(b) && DistinctKeys(a, b)
    ensures Sorted(Merge2(a, b))
    decreases |a| + |b|
  {
    if a != [] && b != [] {
      KeyOrder();
      var (head, x, y) := if Lt(a[0].key, b[0].key) then (a[0], a[1..], b) else (b[0], a, b[1..]);
      Merge2Sorted(x, y);
      Merge2Members(x, y);
      var m := Merge2(x, y);
      assert Merge2(a, b) == [head] + m;
      forall i | 0 <= i < |m| ensures Lt(head.key, m[i].key) {
        assert m[i] in m;
      }
    }
  }

  /** The merge is sorted and holds exactly the entries of the lists. */
  lemma {:induction false} MergeAllCorrect(lists: seq<seq<Entry>>)
    requires Mergeable(lists)
    ensures Sorted(MergeAll(lists))
    ensures forall e :: e in MergeAll(lists) <==> InSome(lists, e)
  {
    if lists != [] {
      var rest := lists[1..];
      assert forall i :: 0 <= i < |rest| ==> rest[i] == lists[i + 1];
      MergeAllCorrect(rest);
      Merge2Members(lists[0], MergeAll(rest));
      forall e ensures InSome(lists, e) <==> e in lists[0] || InSome(rest, e) {
        if InSome(rest, e) {
          var i :| 0 <= i < |rest| && e in rest[i];
          assert e in lists[i + 1];
        }
        if InSome(lists, e) {
          var i :| 0 <= i < |lists| && e in lists[i];
          assert i > 0 ==> e in rest[i - 1];
        }
      }
      var m := MergeAll(rest);
      forall i, j | 0 <= i < |lists[0]| && 0 <= j < |m| ensures lists[0][i].key != m[j].key {
        assert m[j] in m;
        var l :| 0 <= l < |rest| && m[j] in rest[l];
        assert DistinctKeys(lists[0], lists[l + 1]);
      }
      Merge2Sorted(lists[0], m);
    }
  }

  /** How many entries of the list come before position c of the merge. */
  ghost function Before(list: seq<Entry>, merged: seq<Entry>, c: nat): nat
    requires c <= |merged|
  {
    if c < |merged| then LowerBound(list, merged[c].key) else |list|
  }

  /** The index of a child cursor just left of n, where the length of the list means "invalid". */
  function Left(list: seq<Entry>, n: nat): nat {
    if n == 0 then |list| else n - 1
  }

  /** Passing position c moves past one entry in the list that holds it and past none elsewhere. */
  lemma BeforeStep(list: seq<Entry>, merged: seq<Entry>, c: nat)
    requires Sorted(list) && Sorted(merged) && c < |merged|
    requires forall e :: e in list ==> e in merged
    ensures var n := Before(list, merged, c);
            if n < |list| && list[n] == merged[c]
            then Before(list, merged, c + 1) == n + 1
            else merged[c] !in list && Before(list, merged, c + 1) == n
  {
    KeyOrder();
    AboveLowerBound(list, merged[c].key);
    var n := Before(list, merged, c);
    var hit := n < |list| && list[n] == merged[c];
    var r := if hit then n + 1 else n;
    if c + 1 < |merged| {
      assert Lt(merged[c].key, merged[c + 1].key);
      if r < |list| {
        Placed(merged, list[r], c);
      }
      LowerBoundUnique(list, merged[c + 1].key, r);
    } else if r < |list| {
      Placed(merged, list[r], c);
    }
  }

  /** An entry of the merge is at position c, before it, or not before position c + 1. */
  lemma Placed(merged: seq<Entry>, e: Entry, c: nat)
    requires Sorted(merged) && e in merged && c < |merged|
    ensures || e == merged[c]
            || Lt(e.key, merged[c].key)
            || (c + 1 < |merged| && Lt(merged[c].key, e.key) && !Lt(e.key, merged[c + 1].key))
  {
    KeyOrder();
    var m :| 0 <= m < |merged| && merged[m] == e;
  }

  // ---------------------------------------------------------------- children

  /** Any `Iterator` over a sorted list: an index, with the length of the list meaning invalid. */
  class ListIterator {
    const list: seq<Entry>
    var index: nat

    constructor (list: seq<Entry>)
      ensures this.list == list && index == |list|
    {
      this.list := list;
      index := |list|;
    }

    predicate Valid()
      reads this
    {
      index < |list|
    }

    method SeekToFirst()
      modifies this
      ensures index == 0
    {
      index := 0;
    }

    method SeekToLast()
      modifies this
      ensures index == Left(list, |list|)
    {
      index := if list == [] then 0 else |list| - 1;
    }

    method Seek(target: InternalKey)
      modifies this
      ensures index == LowerBound(list, target)
    {
      index := LowerBound(list, target);
    }

    method Next()
      requires Valid()
      modifies this
      ensures index == old(index) + 1
    {
      index := index + 1;
    }

    method Prev()
      requires Valid()
      modifies this
      ensures index == Left(list, old(index))
    {
      index := if index == 0 then |list| else index - 1;
    }
  }

  /** A child together with its cached validity and key. */
  class IteratorWrapper {
    const iter: ListIterator
    var valid: bool
    var key: InternalKey

    constructor (iter: ListIterator)
      ensures this.iter == iter && Synced()
    {
      this.iter := iter;
      valid := iter.index < |iter.list|;
      key := if iter.index < |iter.list| then iter.list[iter.index].key else InternalKey([], 0);
    }

    ghost predicate Synced()
      reads this, iter
    {
      valid == iter.Valid() && (valid ==> key == iter.list[iter.index].key)
    }

    method Update()
      modifies this
      ensures Synced()
    {
      valid := iter.Valid();
      if valid {
        key := iter.list[iter.index].key;
      }
    }

    method SeekToFirst()
      modifies this, iter
      ensures Synced() && iter.index == 0
    {
      iter.SeekToFirst();
      Update();
    }

    method SeekToLast()
      modifies this, iter
      ensures Synced() && iter.index == Left(iter.list, |iter.list|)
    {
      iter.SeekToLast();
      Update();
    }

    method Seek(target: InternalKey)
      modifies this, iter
      ensures Synced() && iter.index == LowerBound(iter.list, target)
    {
      iter.Seek(target);
      Update();
    }

    method Next()
      requires iter.Valid()
      modifies this, iter
      ensures Synced() && iter.index == old(iter.index) + 1
    {
      iter.Next();
      Update();
    }

    method Prev()
      requires iter.Valid()
      modifies this, iter
      ensures Synced() && iter.index == Left(iter.list, old(iter.index))
    {
      iter.Prev();
      Update();
    }
  }

  // ---------------------------------------------------------------- the merging iterator

  datatype Direction = Forward | Reverse

  class Merageitor {
    const children: seq<IteratorWrapper>
    var current: IteratorWrapper?
    var direction: Direction
    ghost const merged: seq<Entry>
    /** Position in the merge; the length of the merge means invalid. */
    ghost var cursor: nat

    // -------------------------------------------------------------- the invariant

    ghost function Kids(): set<object> {
      (set i | 0 <= i < |children| :: children[i] as object)
      + (set i | 0 <= i < |children| :: children[i].iter as object)
    }

    ghost function Lists(): seq<seq<Entry>> {
      seq(|children|, i requires 0 <= i < |children| => children[i].iter.list)
    }

    /** What never changes: the children are separate objects and `merged` is their merge. */
    ghost predicate Static() {
      && (forall i, j :: 0 <= i < j < |children| ==>
            children[i] != children[j] && children[i].iter != children[j].iter)
      && Mergeable(Lists())
      && merged == MergeAll(Lists())
    }

    /** Where child i stands when it is at its first entry not before position c of the merge. */
    ghost function AtOf(i: nat, c: nat): nat
      requires i < |children| && c <= |merged|
    {
      Before(children[i].iter.list, merged, c)
    }

    /** Where child i stands when it is at its last entry before position c. */
    ghost function LeftOf(i: nat, c: nat): nat
      requires i < |children| && c <= |merged|
    {
      Left(children[i].iter.list, AtOf(i, c))
    }

    /** Child i is in sync and stands at index n of its list. */
    ghost predicate Stands(i: nat, n: nat)
      requires i < |children|
      reads children[i], children[i].iter
    {
      children[i].Synced() && children[i].iter.index == n
    }

    ghost predicate AllAt(c: nat)
      requires c <= |merged|
      reads Kids()
    {
      forall i :: 0 <= i < |children| ==> Stands(i, AtOf(i, c))
    }

    ghost predicate AllLeft(c: nat)
      requires c <= |merged|
      reads Kids()
    {
      forall i :: 0 <= i < |children| ==> Stands(i, LeftOf(i, c))
    }

    /** The current child is number o, and it holds the merge entry at the cursor. */
    ghost predicate Holds(o: nat)
      reads `current, `cursor, Kids()
    {
      && cursor < |merged| && o < |children| && children[o] == current
      && Stands(o, AtOf(o, cursor))
      && AtOf(o, cursor) < |children[o].iter.list|
      && children[o].iter.list[AtOf(o, cursor)] == merged[cursor]
    }

    /**
     Child o is current. Moving forward, every other child is at its first entry after the
     cursor; moving in reverse, every other child is at its last entry before it.
     */
    ghost predicate Settled(o: nat)
      reads this, Kids()
    {
      && Holds(o)
      && forall i :: 0 <= i < |children| && i != o ==>
           Stands(i, if direction == Forward then AtOf(i, cursor) else LeftOf(i, cursor))
    }

    ghost predicate Inv()
      reads this, Kids()
    {
      && Static()
      && cursor <= |merged|
      && (current == null <==> cursor == |merged|)
      && (current != null ==> exists o: nat :: Settled(o))
    }

    constructor (iters: seq<ListIterator>)
      requires forall i, j :: 0 <= i < j < |iters| ==> iters[i] != iters[j]
      requires Mergeable(seq(|iters|, i requires 0 <= i < |iters| => iters[i].list))
      ensures Inv() && !Valid()
      ensures merged == MergeAll(seq(|iters|, i requires 0 <= i < |iters| => iters[i].list))
      ensures |children| == |iters|
      ensures forall i :: 0 <= i < |iters| ==> children[i].iter == iters[i] && fresh(children[i])
    {
      var wrappers: seq<IteratorWrapper> := [];
      for i := 0 to |iters|
        invariant |wrappers| == i
        invariant forall j :: 0 <= j < i ==> wrappers[j].iter == iters[j] && fresh(wrappers[j])
        invariant forall j, k :: 0 <= j < k < i ==> wrappers[j] != wrappers[k]
      {
        var w := new IteratorWrapper(iters[i]);
        wrappers := wrappers + [w];
      }
      children := wrappers;
      current := null;
      direction := Forward;
      var lists := seq(|iters|, i requires 0 <= i < |iters| => iters[i].list);
      merged := MergeAll(lists);
      cursor := |MergeAll(lists)|;
      new;
      assert Lists() == lists;
    }

    // -------------------------------------------------------------- facts about the merge

    lemma Facts()
      requires Static()
      ensures Sorted(merged)
      ensures forall e :: e in merged <==> InSome(Lists(), e)
      ensures forall i :: 0 <= i < |children| ==>
                Sorted(children[i].iter.list) && forall e :: e in children[i].iter.list ==> e in merged
    {
      MergeAllCorrect(Lists());
      forall i | 0 <= i < |children|
        ensures Sorted(children[i].iter.list) && forall e :: e in children[i].iter.list ==> e in merged
      {
        assert Lists()[i] == children[i].iter.list;
        assert forall e :: e in Lists()[i] ==> InSome(Lists(), e);
      }
    }

    /** Exactly one child holds position c; passing c moves that child by one and no other. */
    lemma Owner(c: nat) returns (o: nat)
      requires Static() && c < |merged|
      ensures o < |children|
      ensures AtOf(o, c) < |children[o].iter.list| && children[o].iter.list[AtOf(o, c)] == merged[c]
      ensures AtOf(o, c + 1) == AtOf(o, c) + 1
      ensures forall i :: 0 <= i < |children| && i != o ==> AtOf(i, c + 1) == AtOf(i, c)
      ensures forall i, k :: 0 <= i < |children| && i != o && 0 <= k < |children[i].iter.list| ==>
                children[i].iter.list[k].key != merged[c].key
    {
      Facts();
      assert InSome(Lists(), merged[c]);
      o :| 0 <= o < |Lists()| && merged[c] in Lists()[o];
      BeforeStep(children[o].iter.list, merged, c);
      forall i | 0 <= i < |children| && i != o
        ensures AtOf(i, c + 1) == AtOf(i, c)
        ensures forall k :: 0 <= k < |children[i].iter.list| ==> children[i].iter.list[k].key != merged[c].key
      {
        BeforeStep(children[i].iter.list, merged, c);
        assert DistinctKeys(Lists()[if i < o then i else o], Lists()[if i < o then o else i]);
      }
    }

    /** No list has anything before position 0. */
    lemma NothingBeforeFirst()
      requires Static()
      ensures forall i :: 0 <= i < |children| ==> AtOf(i, 0) == 0
    {
      Facts();
      KeyOrder();
      forall i | 0 <= i < |children| ensures AtOf(i, 0) == 0 {
        var list := children[i].iter.list;
        if list != [] {
          assert list[0] in merged;
          var m :| 0 <= m < |merged| && merged[m] == list[0];
        }
      }
    }

    /** Seeking every list to a target and seeking it to the merge's answer is the same. */
    lemma SeekSplits(target: InternalKey)
      requires Static()
      ensures forall i :: 0 <= i < |children| ==>
                AtOf(i, LowerBound(merged, target)) == LowerBound(children[i].iter.list, target)
    {
      Facts();
      KeyOrder();
      var c := LowerBound(merged, target);
      AboveLowerBound(merged, target);
      forall i | 0 <= i < |children|
        ensures AtOf(i, c) == LowerBound(children[i].iter.list, target)
      {
        var list := children[i].iter.list;
        forall k | 0 <= k < |list|
          ensures Lt(list[k].key, target) <==> c == |merged| || Lt(list[k].key, merged[c].key)
        {
          assert list[k] in merged;
          var m :| 0 <= m < |merged| && merged[m] == list[k];
        }
        if c < |merged| {
          LowerBoundUnique(list, merged[c].key, LowerBound(list, target));
        }
      }
    }

    /** With every child at position c, a least key belongs to the owner of c. */
    lemma LeastOwns(c: nat, s: nat)
      requires Static() && c <= |merged| && AllAt(c)
      requires s < |children| && children[s].valid
      requires forall j :: 0 <= j < |children| && children[j].valid ==> !Lt(children[j].key, children[s].key)
      ensures c < |merged| && AtOf(s, c) < |children[s].iter.list|
      ensures children[s].iter.list[AtOf(s, c)] == merged[c]
    {
      Facts();
      KeyOrder();
      assert Stands(s, AtOf(s, c));
      var o := Owner(c);
      assert Stands(o, AtOf(o, c));
      Placed(merged, children[s].iter.list[AtOf(s, c)], c);
    }

    /** With every child left of position c, a greatest key belongs to the owner of c - 1. */
    lemma GreatestOwns(c: nat, s: nat)
      requires Static() && c <= |merged| && AllLeft(c)
      requires s < |children| && children[s].valid
      requires forall j :: 0 <= j < |children| && children[j].valid ==> !Lt(children[s].key, children[j].key)
      ensures c > 0 && AtOf(s, c - 1) == AtOf(s, c) - 1 == children[s].iter.index
      ensures children[s].iter.list[AtOf(s, c - 1)] == merged[c - 1]
      ensures forall i :: 0 <= i < |children| && i != s ==> AtOf(i, c - 1) == AtOf(i, c)
    {
      LeftOfFirst(c, s);
      var o := Owner(c - 1);
      GreatestIsLast(c, s, o);
    }

    /** A valid child left of position c has something before c. */
    lemma LeftOfFirst(c: nat, s: nat)
      requires Static() && c <= |merged| && AllLeft(c)
      requires s < |children| && children[s].valid
      ensures c > 0
    {
      assert Stands(s, LeftOf(s, c));
      if c == 0 {
        NothingBeforeFirst();
        assert false;
      }
    }

    lemma GreatestIsLast(c: nat, s: nat, o: nat)
      requires Static() && 0 < c <= |merged| && AllLeft(c)
      requires s < |children| && children[s].valid
      requires forall j :: 0 <= j < |children| && children[j].valid ==> !Lt(children[s].key, children[j].key)
      requires o < |children| && AtOf(o, c - 1) < |children[o].iter.list|
               && children[o].iter.list[AtOf(o, c - 1)] == merged[c - 1]
      requires AtOf(o, c) == AtOf(o, c - 1) + 1
      requires forall i, k :: 0 <= i < |children| && i != o && 0 <= k < |children[i].iter.list| ==>
                 children[i].iter.list[k].key != merged[c - 1].key
      ensures s == o && AtOf(s, c) - 1 == children[s].iter.index
    {
      Facts();
      KeyOrder();
      assert Stands(s, LeftOf(s, c));
      assert Stands(o, LeftOf(o, c));
      var e := children[s].iter.list[LeftOf(s, c)];
      assert c < |merged| ==> Lt(e.key, merged[c].key);
      Placed(merged, e, c - 1);
    }

    // -------------------------------------------------------------- the operations

    predicate Valid()
      reads this
    {
      current != null
    }

    function Key(): (k: InternalKey)
      requires Inv() && Valid()
      reads this, Kids()
      ensures k == merged[cursor].key
    {
      current.key
    }

    function Value(): (v: seq<byte>)
      requires Inv() && Valid()
      reads this, Kids()
      ensures v == merged[cursor].value
    {
      current.iter.list[current.iter.index].value
    }

    method FindSmallest(ghost c: nat) returns (ghost o: nat)
      requires Static() && c <= |merged| && AllAt(c)
      modifies this`current, this`cursor
      ensures AllAt(c) && cursor == c
      ensures current == null <==> c == |merged|
      ensures current != null ==> Holds(o)
    {
      if c < |merged| {
        ghost var owner := Owner(c);
        assert Stands(owner, AtOf(owner, c));
      }
      var smallest: IteratorWrapper? := null;
      o := 0;
      KeyOrder();
      for i := 0 to |children|
        invariant smallest == null ==> forall j :: 0 <= j < i ==> !children[j].valid
        invariant smallest != null ==> o < |children| && children[o] == smallest && smallest.valid
        invariant smallest != null ==>
                    forall j :: 0 <= j < i && children[j].valid ==> !Lt(children[j].key, smallest.key)
      {
        var child := children[i];
        if child.valid {
          if smallest == null {
            smallest, o := child, i;
          } else if Cmp(child.key, smallest.key) < 0 {
            assert Lt(child.key, smallest.key);
            smallest, o := child, i;
          }
        }
      }
      if smallest != null {
        LeastOwns(c, o);
        assert Stands(o, AtOf(o, c));
      }
      current := smallest;
      cursor := c;
      assert current != null ==> Holds(o);
    }

    method FindLargest(ghost c: nat) returns (ghost o: nat)
      requires Static() && c <= |merged| && AllLeft(c)
      modifies this`current, this`cursor
      ensures cursor == Left(merged, c)
      ensures current == null <==> c == 0
      ensures current != null ==>
                Holds(o) && forall i :: 0 <= i < |children| && i != o ==> Stands(i, LeftOf(i, cursor))
    {
      if c > 0 {
        ghost var owner := Owner(c - 1);
        assert Stands(owner, LeftOf(owner, c));
      }
      var largest: IteratorWrapper? := null;
      o := 0;
      var i := |children|;
      KeyOrder();
      while i > 0
        invariant 0 <= i <= |children|
        invariant largest == null ==> forall j :: i <= j < |children| ==> !children[j].valid
        invariant largest != null ==> o < |children| && children[o] == largest && largest.valid
        invariant largest != null ==>
                    forall j :: i <= j < |children| && children[j].valid ==> !Lt(largest.key, children[j].key)
      {
        i := i - 1;
        var child := children[i];
        if child.valid {
          if largest == null {
            largest, o := child, i;
          } else {
            CmpFacts(largest.key, child.key);
            if Cmp(child.key, largest.key) > 0 {
              assert Lt(largest.key, child.key);
              largest, o := child, i;
            }
          }
        }
      }
      if largest != null {
        GreatestOwns(c, o);
        assert Stands(o, LeftOf(o, c));
        assert Stands(o, AtOf(o, c - 1));
      }
      current := largest;
      cursor := Left(merged, c);
      assert current != null ==> Holds(o);
      forall i | 0 <= i < |children| && i != o && current != null ensures Stands(i, LeftOf(i, cursor)) {
        assert Stands(i, LeftOf(i, c));
        assert AtOf(i, c - 1) == AtOf(i, c);
      }
    }

    method SeekToFirst()
      requires Inv()
      modifies this, Kids()
      ensures Inv() && cursor == 0
    {
      for i := 0 to |children|
        invariant forall j :: 0 <= j < i ==> Stands(j, 0)
      {
        assert children[i] in Kids() && children[i].iter in Kids();
        children[i].SeekToFirst();
        assert Stands(i, 0);
      }
      NothingBeforeFirst();
      ghost var o := FindSmallest(0);
      direction := Forward;
      assert current != null ==> Settled(o);
    }

    method SeekToLast()
      requires Inv()
      modifies this, Kids()
      ensures Inv() && cursor == Left(merged, |merged|)
    {
      for i := 0 to |children|
        invariant forall j :: 0 <= j < i ==> Stands(j, LeftOf(j, |merged|))
      {
        assert children[i] in Kids() && children[i].iter in Kids();
        children[i].SeekToLast();
        assert Stands(i, LeftOf(i, |merged|));
      }
      ghost var o := FindLargest(|merged|);
      direction := Reverse;
      assert current != null ==> Settled(o);
    }

    method Seek(target: InternalKey)
      requires Inv()
      modifies this, Kids()
      ensures Inv() && cursor == LowerBound(merged, target)
    {
      for i := 0 to |children|
        invariant forall j :: 0 <= j < i ==> Stands(j, LowerBound(children[j].iter.list, target))
      {
        assert children[i] in Kids() && children[i].iter in Kids();
        children[i].Seek(target);
        assert Stands(i, LowerBound(children[i].iter.list, target));
      }
      SeekSplits(target);
      ghost var o := FindSmallest(LowerBound(merged, target));
      direction := Forward;
      assert current != null ==> Settled(o);
    }

    /** `if (child->Valid() && cmp(key(), child->key()) == 0) child->Next();` */
    static method SkipEqual(child: IteratorWrapper, key: InternalKey)
      requires child.Synced()
      modifies child, child.iter
      ensures child.Synced()
      ensures child.iter.index == old(child.iter.index) + (if old(child.iter.Valid() && child.key == key) then 1 else 0)
    {
      CmpFacts(key, child.key);
      if child.valid && Cmp(key, child.key) == 0 {
        child.Next();
      }
    }

    /** The direction switch of `Next`: every other child goes to its first key after the current one. */
    method TurnForward(ghost o: nat)
      requires Static() && Holds(o)
      modifies this`direction, Kids()
      ensures Holds(o) && AllAt(cursor) && direction == Forward
    {
      hide Mergeable, MergeAll, DistinctKeys;
      ghost var owner := Owner(cursor);
      for i := 0 to |children|
        invariant Holds(o)
        invariant forall j :: 0 <= j < i ==> Stands(j, AtOf(j, cursor))
      {
        var child := children[i];
        assert child in Kids() && child.iter in Kids();
        if child != current {
          child.Seek(current.key);
          SkipEqual(child, current.key);
          assert Stands(i, AtOf(i, cursor));
        }
      }
      direction := Forward;
    }

    /** Once the owner of position c has stepped over it, every child is at position c + 1. */
    lemma Advanced(o: nat, c: nat)
      requires Static() && c < |merged| && o < |children|
      requires AtOf(o, c) < |children[o].iter.list| && children[o].iter.list[AtOf(o, c)] == merged[c]
      requires Stands(o, AtOf(o, c) + 1)
      requires forall i :: 0 <= i < |children| && i != o ==> Stands(i, AtOf(i, c))
      ensures AllAt(c + 1)
    {
      var owner := Owner(c);
      assert children[o].iter.list[AtOf(o, c)].key == merged[c].key;
      var next := c + 1;
      forall i | 0 <= i < |children| ensures Stands(i, AtOf(i, next)) {
        assert i != o ==> Stands(i, AtOf(i, c));
      }
    }

    /** The end of `Next`: move the current child and look for the smallest key. */
    method StepForward(ghost o: nat)
      requires Static() && Holds(o) && AllAt(cursor) && direction == Forward
      modifies this`current, this`cursor, Kids()
      ensures Inv() && cursor == old(cursor) + 1
    {
      hide Mergeable, MergeAll, DistinctKeys;
      assert children[o] in Kids() && children[o].iter in Kids();
      current.Next();
      assert Stands(o, AtOf(o, cursor) + 1);
      assert forall i :: 0 <= i < |children| && i != o ==> Stands(i, AtOf(i, cursor));
      Advanced(o, cursor);
      ghost var s := FindSmallest(cursor + 1);
      assert current != null ==> Settled(s);
    }

    method Next()
      requires Inv() && Valid()
      modifies this, Kids()
      ensures Inv() && cursor == old(cursor) + 1
    {
      ghost var o: nat :| Settled(o);
      if direction != Forward {
        TurnForward(o);
      }
      StepForward(o);
    }

    /** The direction switch of `Prev`: every other child goes to its last key before the current one. */
    method TurnReverse(ghost o: nat)
      requires Static() && Holds(o)
      modifies this`direction, Kids()
      ensures Holds(o) && direction == Reverse
      ensures forall i :: 0 <= i < |children| && i != o ==> Stands(i, LeftOf(i, cursor))
    {
      hide Mergeable, MergeAll, DistinctKeys;
      for i := 0 to |children|
        invariant Holds(o)
        invariant forall j :: 0 <= j < i && j != o ==> Stands(j, LeftOf(j, cursor))
      {
        var child := children[i];
        assert child in Kids() && child.iter in Kids();
        if child != current {
          child.Seek(current.key);
          if child.valid {
            child.Prev();
          } else {
            child.SeekToLast();
          }
          assert Stands(i, LeftOf(i, cursor));
        }
      }
      direction := Reverse;
    }

    method Prev()
      requires Inv() && Valid()
      modifies this, Kids()
      ensures Inv() && cursor == Left(merged, old(cursor))
    {
      hide Mergeable, MergeAll, DistinctKeys;
      ghost var o: nat :| Settled(o);
      if direction != Reverse {
        TurnReverse(o);
      }
      assert children[o] in Kids() && children[o].iter in Kids();
      current.Prev();
      assert AllLeft(cursor);
      o := FindLargest(cursor);
      assert current != null ==> Settled(o);
    }
  }
}
