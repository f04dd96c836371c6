/**
 What was written, and what a read of it should give: a versioned map as the last write in a list, and
 the state of memtables and tables as a function of the same list.
 */
module History {
  import opened Common
  import opened Coding
  import opened Keys
  import opened Lookup
  import opened Memtable
  import opened WriteBatch

  /** One operation with the sequence number it is stored under. */
  datatype Write = Write(sequence: nat, op: Op)

  predicate Fits(w: Write) {
    w.sequence <= MAX_SEQUENCE && OpFits(w.op)
  }

  /** Writes in the order they were made; the operations of one batch share a sequence number. */
  ghost predicate Ordered(h: seq<Write>) {
    && (forall w :: w in h ==> Fits(w))
    && forall i, j :: 0 <= i < j < |h| ==> h[i].sequence <= h[j].sequence
  }

  /** Every write of a is older than every write of b. */
  ghost predicate Older(a: seq<Write>, b: seq<Write>) {
    forall v, w :: v in a && w in b ==> v.sequence < w.sequence
  }

  /** What a batch adds to the history. */
  function Writes(sequence: nat, ops: seq<Op>): (r: seq<Write>)
    ensures |r| == |ops| && forall i :: 0 <= i < |r| ==> r[i] == Write(sequence, ops[i])
  {
    seq(|ops|, i requires 0 <= i < |ops| => Write(sequence, ops[i]))
  }

  function EntryFor(w: Write): Entry
    requires Fits(w)
  {
    EntryOf(w.sequence, w.op)
  }

  /** The sorted map that these writes leave in an empty memtable. */
  function Apply(h: seq<Write>): seq<Entry>
    requires forall w :: w in h ==> Fits(w)
  {
    if h == [] then [] else Upsert(Apply(DropLast(h)), EntryFor(Last(h)))
  }

  lemma {:induction false} ApplySorted(h: seq<Write>)
    requires forall w :: w in h ==> Fits(w)
    ensures Sorted(Apply(h))
    ensures h != [] ==> Apply(h) != []
    ensures forall e :: e in Apply(h) ==> exists w :: w in h && EntryFor(w) == e
  {
    if h != [] {
      ApplySorted(DropLast(h));
      UpsertCorrect(Apply(DropLast(h)), EntryFor(Last(h)));
      assert EntryFor(Last(h)) in Apply(h);
      assert Last(h) in h;
    }
  }

  /** Running a batch on the state after h is the state after h and the writes of the batch. */
  lemma {:induction false} BatchApplies(h: seq<Write>, sequence: nat, ops: seq<Op>)
    requires sequence <= MAX_SEQUENCE && (forall w :: w in h ==> Fits(w)) && forall op :: op in ops ==> OpFits(op)
    ensures forall w :: w in h + Writes(sequence, ops) ==> Fits(w)
    ensures AddOps(Apply(h), sequence, ops) == Apply(h + Writes(sequence, ops))
    decreases ops
  {
    hide Upsert;
    if ops == [] {
      assert h + Writes(sequence, ops) == h;
    } else {
      var w := Write(sequence, ops[0]);
      assert DropLast(h + [w]) == h && Last(h + [w]) == w;
      BatchApplies(h + [w], sequence, ops[1..]);
      assert h + Writes(sequence, ops) == h + [w] + Writes(sequence, ops[1..]);
    }
  }

  // ---------------------------------------------------------------- what a read should give

  /** The last write to the user key at or below the snapshot. */
  function LastWrite(h: seq<Write>, user: UserKey, s: nat): Option<Write> {
    if h == [] then None
    else if Last(h).op.key == user && Last(h).sequence <= s then Some(Last(h))
    else LastWrite(DropLast(h), user, s)
  }

  /** A plain versioned map: what the last write left. */
  function Promised(h: seq<Write>, user: UserKey, s: nat): ReadResult {
    match LastWrite(h, user, s)
    case None => Missing
    case Some(Write(_, Put(_, v))) => Found(v)
    case Some(Write(_, Delete(_))) => Missing
  }

  // ---------------------------------------------------------------- what the stored entries give

  /** Of the writes to a key in one batch, a `Put` hides every `Delete`: its tag is the greater one. */
  predicate Hides(v: Write, w: Write) {
    v.sequence == w.sequence && v.op.Put? && w.op.Delete?
  }

  /** The write whose entry a read at the snapshot finds. */
  function Effective(h: seq<Write>, user: UserKey, s: nat): Option<Write> {
    if h == [] then None
    else
      var w, r := Last(h), Effective(DropLast(h), user, s);
      if w.op.key != user || w.sequence > s then r
      else if r.Some? && Hides(r.value, w) then r
      else Some(w)
  }

  /** The effective write is visible and, where writes are in order, at the greatest visible sequence. */
  lemma {:induction false} EffectiveFacts(h: seq<Write>, user: UserKey, s: nat)
    requires Ordered(h)
    ensures match Effective(h, user, s)
            case None => forall w :: w in h ==> w.op.key != user || w.sequence > s
            case Some(v) => v in h && v.op.key == user && v.sequence <= s
  {
    if h != [] {
      EffectiveFacts(DropLast(h), user, s);
      assert h == DropLast(h) + [Last(h)];
    }
  }

  lemma TagsCompare(v: Write, w: Write)
    requires Fits(v) && Fits(w) && v.sequence <= w.sequence
    ensures EntryFor(v).key.tag > EntryFor(w).key.tag <==> Hides(v, w)
    ensures EntryFor(v).key.tag == EntryFor(w).key.tag <==> v.sequence == w.sequence && (v.op.Put? <==> w.op.Put?)
    ensures EntryFor(v).key.user == v.op.key
  {
  }

  lemma TagVisible(w: Write, user: UserKey, s: nat)
    requires Fits(w) && s <= MAX_SEQUENCE
    ensures Visible(EntryFor(w), user, SeekTag(s)) <==> w.op.key == user && w.sequence <= s
  {
  }

  /** The entry of the effective write is the newest visible one in the sorted map. */
  lemma {:induction false} ApplyNewest(h: seq<Write>, user: UserKey, s: nat)
    requires Ordered(h) && s <= MAX_SEQUENCE
    ensures match Effective(h, user, s)
            case None => NothingVisible(Entries(Apply(h)), user, SeekTag(s))
            case Some(v) => v in h && IsNewest(Entries(Apply(h)), user, SeekTag(s), EntryFor(v))
  {
    if h != [] {
      var w, was := Last(h), Apply(DropLast(h));
      ApplyNewest(DropLast(h), user, s);
      EffectiveFacts(DropLast(h), user, s);
      ApplySorted(DropLast(h));
      UpsertCorrect(was, EntryFor(w));
      TagVisible(w, user, s);
      var r := Effective(DropLast(h), user, s);
      if r.Some? {
        assert r.value in h;
        TagsCompare(r.value, w);
      }
    }
  }

  // ---------------------------------------------------------------- layers

  /** The newer of two layers answers if it can. */
  lemma {:induction false} EffectiveSplit(a: seq<Write>, b: seq<Write>, user: UserKey, s: nat)
    requires Ordered(a + b) && Older(a, b)
    ensures Effective(a + b, user, s)
            == if Effective(b, user, s).Some? then Effective(b, user, s) else Effective(a, user, s)
    decreases b
  {
    if b == [] {
      assert a + b == a;
    } else {
      assert DropLast(a + b) == a + DropLast(b) && Last(a + b) == Last(b);
      assert Ordered(a + DropLast(b));
      assert forall w :: w in DropLast(b) ==> w in b;
      EffectiveSplit(a, DropLast(b), user, s);
      assert forall i :: 0 <= i < |a| ==> (a + b)[i] == a[i];
      assert Ordered(a);
      EffectiveFacts(a, user, s);
      assert Last(b) in b;
    }
  }

  lemma {:induction false} LastWriteSplit(a: seq<Write>, b: seq<Write>, user: UserKey, s: nat)
    ensures LastWrite(a + b, user, s)
            == if LastWrite(b, user, s).Some? then LastWrite(b, user, s) else LastWrite(a, user, s)
    decreases b
  {
    if b == [] {
      assert a + b == a;
    } else {
      assert DropLast(a + b) == a + DropLast(b) && Last(a + b) == Last(b);
      LastWriteSplit(a, DropLast(b), user, s);
    }
  }

  /** What a read gives when the first `flushed` writes are in tables and the rest in memtables. */
  function Observed(h: seq<Write>, flushed: nat, user: UserKey, s: nat): ReadResult
    requires flushed <= |h|
  {
    match Effective(h[flushed..], user, s)
    case Some(w) => if w.op.Put? then Found(w.op.value) else Missing
    case None =>
      match Effective(h[..flushed], user, s)
      case Some(w) => if w.op.Put? then Found(FlushedValue(w.op.value)) else Missing
      case None => Missing
  }

  /** Reads in tables compare user keys as if they carried a tag of eight bytes; these do not all have as many. */
  predicate ShortKeys(h: seq<Write>, flushed: nat, user: UserKey)
    requires flushed <= |h|
  {
    |user| < 8 || exists w :: w in h[..flushed] && |w.op.key| < 8
  }

  /** No memtable has an effective write to the key, but the tables do. */
  predicate OnlyInTables(h: seq<Write>, flushed: nat, user: UserKey, s: nat)
    requires flushed <= |h|
  {
    Effective(h[flushed..], user, s).None? && Effective(h[..flushed], user, s).Some?
  }

  /** The last write is a `Delete` in a batch that also puts the key. */
  ghost predicate Shadowed(h: seq<Write>, user: UserKey, s: nat) {
    var last := LastWrite(h, user, s);
    last.Some? && last.value.op.Delete? && exists v :: v in h && v.op.key == user && Hides(v, last.value)
  }

  /** The last write is a `Put` that was flushed, of a value that does not survive that. */
  predicate Mangled(h: seq<Write>, flushed: nat, user: UserKey, s: nat)
    requires flushed <= |h|
  {
    LastWrite(h[flushed..], user, s).None?
    && match LastWrite(h[..flushed], user, s)
       case Some(Write(_, Put(_, v))) => !RepeatsItsLength(v)
       case _ => false
  }

  lemma {:induction false} LastWriteFacts(h: seq<Write>, user: UserKey, s: nat)
    requires Ordered(h)
    ensures match LastWrite(h, user, s)
            case None => forall w :: w in h ==> w.op.key != user || w.sequence > s
            case Some(v) =>
              && v in h && v.op.key == user && v.sequence <= s
              && forall w :: w in h && w.op.key == user && w.sequence <= s ==> w.sequence <= v.sequence
  {
    if h != [] {
      assert h == DropLast(h) + [Last(h)];
      if !(Last(h).op.key == user && Last(h).sequence <= s) {
        LastWriteFacts(DropLast(h), user, s);
      }
    }
  }

  /** The effective write is the last write, unless the last write is a shadowed `Delete`. */
  lemma {:induction false} EffectiveIsLast(h: seq<Write>, user: UserKey, s: nat)
    requires Ordered(h)
    ensures if Shadowed(h, user, s)
            then Effective(h, user, s).Some? && Hides(Effective(h, user, s).value, LastWrite(h, user, s).value)
            else Effective(h, user, s) == LastWrite(h, user, s)
  {
    if h != [] {
      var w, before := Last(h), DropLast(h);
      assert h == before + [w];
      EffectiveIsLast(before, user, s);
      if w.op.key == user && w.sequence <= s {
        LastVisible(before, w, user, s);
      } else {
        LastInvisible(before, w, user, s);
      }
    }
  }

  lemma LastInvisible(before: seq<Write>, w: Write, user: UserKey, s: nat)
    requires Ordered(before) && !(w.op.key == user && w.sequence <= s)
    ensures Shadowed(before + [w], user, s) <==> Shadowed(before, user, s)
    ensures LastWrite(before + [w], user, s) == LastWrite(before, user, s)
  {
    var h := before + [w];
    assert DropLast(h) == before && Last(h) == w;
    LastWriteFacts(before, user, s);
  }

  /** The step for a visible last write: it is shadowed exactly when the effective write before it hides it. */
  lemma LastVisible(before: seq<Write>, w: Write, user: UserKey, s: nat)
    requires Ordered(before + [w]) && w.op.key == user && w.sequence <= s
    requires if Shadowed(before, user, s)
             then Effective(before, user, s).Some?
               && Hides(Effective(before, user, s).value, LastWrite(before, user, s).value)
             else Effective(before, user, s) == LastWrite(before, user, s)
    ensures var r := Effective(before, user, s);
            Shadowed(before + [w], user, s) <==> r.Some? && Hides(r.value, w)
  {
    var h, r := before + [w], Effective(before, user, s);
    assert DropLast(h) == before && Last(h) == w;
    assert LastWrite(h, user, s) == Some(w);
    EarlierOrdered(before, w);
    EffectiveFacts(before, user, s);
    hide Effective, LastWrite, Ordered;
    if v :| v in before && v.op.key == user && Hides(v, w) {
      HiderIsEffective(before, v, w, user, s);
    }
  }

  lemma EarlierOrdered(before: seq<Write>, w: Write)
    requires Ordered(before + [w])
    ensures Ordered(before) && forall v :: v in before ==> v.sequence <= w.sequence
  {
    var h := before + [w];
    assert forall i :: 0 <= i < |before| ==> h[i] == before[i];
    assert h[|before|] == w;
  }

  /** A write that hides the next one is at the greatest sequence so far, so the effective write hides it too. */
  lemma HiderIsEffective(before: seq<Write>, v: Write, w: Write, user: UserKey, s: nat)
    requires Ordered(before) && v in before && v.op.key == user && Hides(v, w) && w.sequence <= s
    requires forall x :: x in before ==> x.sequence <= w.sequence
    requires if Shadowed(before, user, s)
             then Effective(before, user, s).Some?
               && Hides(Effective(before, user, s).value, LastWrite(before, user, s).value)
             else Effective(before, user, s) == LastWrite(before, user, s)
    ensures Effective(before, user, s).Some? && Hides(Effective(before, user, s).value, w)
  {
    hide Effective, LastWrite, Ordered;
    LastWriteFacts(before, user, s);
    var last := LastWrite(before, user, s).value;
    assert last.sequence == w.sequence;
    if last.op.Delete? {
      assert Hides(v, last);
    }
  }

  /**
   When a read is right. With some of the writes flushed, a read at a snapshot gives what the last write
   left if and only if that write is neither a shadowed `Delete` nor a flushed `Put` of a value that
   flushing changes.
   */
  lemma ReadIsPromised(h: seq<Write>, flushed: nat, user: UserKey, s: nat)
    requires Ordered(h) && flushed <= |h| && Older(h[..flushed], h[flushed..])
    ensures Observed(h, flushed, user, s) == Promised(h, user, s)
            <==> !Shadowed(h, user, s) && !Mangled(h, flushed, user, s)
  {
    SplitFacts(h, flushed, user, s);
    EffectiveIsLast(h, user, s);
    var e := Effective(h[..flushed], user, s);
    if e.Some? && e.value.op.Put? {
      FlushedValueKept(e.value.op.value);
    }
  }

  lemma SplitFacts(h: seq<Write>, flushed: nat, user: UserKey, s: nat)
    requires Ordered(h) && flushed <= |h| && Older(h[..flushed], h[flushed..])
    ensures var a, b := h[..flushed], h[flushed..];
            && (Effective(b, user, s).Some? <==> LastWrite(b, user, s).Some?)
            && Effective(h, user, s)
              == (if Effective(b, user, s).Some? then Effective(b, user, s) else Effective(a, user, s))
            && LastWrite(h, user, s)
              == (if LastWrite(b, user, s).Some? then LastWrite(b, user, s) else LastWrite(a, user, s))
  {
    var a, b := h[..flushed], h[flushed..];
    assert h == a + b;
    EffectiveSplit(a, b, user, s);
    LastWriteSplit(a, b, user, s);
    assert Ordered(b);
    EffectiveFacts(b, user, s);
    LastWriteFacts(b, user, s);
  }

  /** With one operation per batch, sequences are distinct and no `Delete` is shadowed. */
  lemma SingleNotShadowed(h: seq<Write>, user: UserKey, s: nat)
    requires Ordered(h) && forall i, j :: 0 <= i < j < |h| ==> h[i].sequence < h[j].sequence
    ensures !Shadowed(h, user, s)
  {
    LastWriteFacts(h, user, s);
  }

  /** A `Delete` behind a `Put` of the same batch has no effect. */
  lemma ShadowedExample(k: seq<byte>, v: seq<byte>)
    ensures var h := Writes(1, [Put(k, v), Delete(k)]);
            Promised(h, k, 1) == Missing && Observed(h, 0, k, 1) == Found(v)
  {
    var h := Writes(1, [Put(k, v), Delete(k)]);
    assert h == [Write(1, Put(k, v)), Write(1, Delete(k))];
    var one := [Write(1, Put(k, v))];
    assert DropLast(h) == one && DropLast(one) == [];
    assert Effective(one, k, 1) == Some(one[0]);
    assert Effective(h, k, 1) == Some(one[0]);
    assert h[0..] == h;
  }

  /** After a flush the one-byte value 7 reads as 1. */
  lemma MangledExample(k: seq<byte>)
    ensures var h := Writes(1, [Put(k, [7])]);
            Promised(h, k, 1) == Found([7]) && Observed(h, 0, k, 1) == Found([7]) && Observed(h, 1, k, 1) == Found([1])
  {
    var h := Writes(1, [Put(k, [7])]);
    assert h == [Write(1, Put(k, [7]))] && DropLast(h) == [];
    assert h[0..] == h && h[..0] == [] && h[1..] == [] && h[..1] == h;
    FlushLosesAValue();
  }

  // ---------------------------------------------------------------- flushed layers

  function FlushedEntry(e: Entry): Entry {
    Entry(e.key, FlushedValue(e.value))
  }

  lemma FlushedSorted(contents: seq<Entry>)
    requires Sorted(contents)
    ensures Sorted(Flushed(contents))
  {
    var f := Flushed(contents);
    assert forall i :: 0 <= i < |f| ==> f[i].key == contents[i].key;
  }

  lemma FlushedMembers(contents: seq<Entry>)
    ensures forall e :: e in contents ==> FlushedEntry(e) in Flushed(contents)
    ensures forall x :: x in Flushed(contents) ==> exists e :: e in contents && FlushedEntry(e) == x
  {
    var f := Flushed(contents);
    forall e | e in contents ensures FlushedEntry(e) in f {
      var i :| 0 <= i < |contents| && contents[i] == e;
      assert f[i] == FlushedEntry(e);
    }
    forall x | x in f ensures exists e :: e in contents && FlushedEntry(e) == x {
      var i :| 0 <= i < |f| && f[i] == x;
      assert contents[i] in contents && FlushedEntry(contents[i]) == x;
    }
  }

  /** Flushing keeps keys and so keeps which entry is the newest. */
  lemma FlushedNewest(contents: seq<Entry>, user: UserKey, bound: uint64)
    ensures NothingVisible(Entries(contents), user, bound) ==> NothingVisible(Entries(Flushed(contents)), user, bound)
    ensures forall e :: IsNewest(Entries(contents), user, bound, e) ==>
              IsNewest(Entries(Flushed(contents)), user, bound, FlushedEntry(e))
  {
    FlushedMembers(contents);
    forall x | x in Flushed(contents) ensures exists e :: e in Entries(contents) && FlushedEntry(e) == x {
      var e :| e in contents && FlushedEntry(e) == x;
      assert e in Entries(contents);
    }
  }

  /** Applying two runs of writes, the second newer, gives the entries of both. */
  lemma {:induction false} ApplyConcat(a: seq<Write>, b: seq<Write>)
    requires Ordered(a + b) && Older(a, b)
    requires (forall w :: w in a ==> Fits(w)) && forall w :: w in b ==> Fits(w)
    ensures Entries(Apply(a + b)) == Entries(Apply(a)) + Entries(Apply(b))
    decreases b
  {
    if b == [] {
      assert a + b == a;
    } else {
      var w, rest := Last(b), DropLast(b);
      assert DropLast(a + b) == a + rest && Last(a + b) == w;
      assert forall v :: v in rest ==> v in b;
      ApplyConcat(a, rest);
      ApplySorted(a + rest);
      ApplySorted(rest);
      assert w in b;
      NotYetThere(a, w);
      UpsertBoth(Apply(a + rest), Apply(a), Apply(rest), EntryFor(w));
    }
  }

  lemma NotYetThere(a: seq<Write>, w: Write)
    requires (forall v :: v in a ==> Fits(v) && v.sequence < w.sequence) && Fits(w)
    ensures forall e :: e in Apply(a) ==> e.key != EntryFor(w).key
  {
    ApplySorted(a);
    forall e | e in Apply(a) ensures e.key != EntryFor(w).key {
      var v :| v in a && EntryFor(v) == e;
      TagsCompare(v, w);
    }
  }

  lemma UpsertBoth(all: seq<Entry>, a: seq<Entry>, b: seq<Entry>, e: Entry)
    requires Sorted(all) && Sorted(b) && Entries(all) == Entries(a) + Entries(b)
    requires forall x :: x in a ==> x.key != e.key
    ensures Entries(Upsert(all, e)) == Entries(a) + Entries(Upsert(b, e))
  {
    UpsertCorrect(all, e);
    UpsertCorrect(b, e);
    assert forall x :: x in all <==> x in Entries(all);
  }
}
