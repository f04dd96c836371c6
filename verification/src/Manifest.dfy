/**
 What a manifest says: version edits level by level, snapshots, and what is read back of the edits that the
 log framing carries (src/db/version_set.cpp, src/db/version_edit.cpp, src/db/walog.cpp).
 */
module Manifest {
  import opened Common
  import opened Coding
  import opened Keys
  import opened EditCodec
  import opened Builder
  import opened Wal

  const LEVELS := Builder.NUM_LEVELS

  type Version = v: seq<Files> | |v| == LEVELS witness seq(LEVELS, _ => [])

  const EMPTY_VERSION: Version := seq(LEVELS, _ => [])

  // ---------------------------------------------------------------- edits, level by level

  predicate Tagged(f: NewFile) {
    |f.smallest| >= 8 && |f.largest| >= 8
  }

  /** Edits whose levels index the level array and whose keys carry their tags. */
  predicate Usable(e: VersionEdit) {
    && (forall d :: d in e.deleted ==> d.0 < LEVELS)
    && (forall f :: f in e.added ==> f.level < LEVELS && Tagged(f))
    && (forall p :: p in e.pointers ==> p.0 < LEVELS)
  }

  function MetaOf(f: NewFile): FileMeta
    requires Tagged(f)
  {
    FileMeta(f.num, f.size, Decode(f.smallest), Decode(f.largest))
  }

  function WireOf(level: uint32, f: FileMeta): NewFile {
    NewFile(level, f.num, f.size, Encode(f.smallest), Encode(f.largest))
  }

  lemma MetaOfWire(level: uint32, f: FileMeta)
    ensures Tagged(WireOf(level, f)) && MetaOf(WireOf(level, f)) == f && WireOf(level, f).level == level
  {
    DecodeEncode(f.smallest);
    DecodeEncode(f.largest);
  }

  function DelsOf(deleted: seq<(uint32, uint64)>, level: nat): set<uint64> {
    set d | d in deleted && d.0 == level :: d.1
  }

  function NewsOf(added: seq<NewFile>, level: nat): Files
    requires forall f :: f in added ==> Tagged(f)
  {
    if added == [] then []
    else (if added[0].level == level then [MetaOf(added[0])] else []) + NewsOf(added[1..], level)
  }

  lemma {:induction false} NewsOfConcat(a: seq<NewFile>, b: seq<NewFile>, level: nat)
    requires forall f :: f in a + b ==> Tagged(f)
    requires forall f :: f in a || f in b ==> Tagged(f)
    ensures NewsOf(a + b, level) == NewsOf(a, level) + NewsOf(b, level)
  {
    hide MetaOf, Tagged;
    if a == [] {
      assert a + b == b;
    } else {
      assert (a + b)[0] == a[0] && (a + b)[1..] == a[1..] + b;
      NewsOfConcat(a[1..], b, level);
      hide NewsOf;
      NewsOfFirst(a, level);
      NewsOfFirst(a + b, level);
      Concat3(if a[0].level == level then [MetaOf(a[0])] else [], NewsOf(a[1..], level), NewsOf(b, level));
    }
  }

  lemma NewsOfFirst(added: seq<NewFile>, level: nat)
    requires added != [] && Tagged(added[0]) && (forall f :: f in added ==> Tagged(f))
             && forall f :: f in added[1..] ==> Tagged(f)
    ensures NewsOf(added, level)
            == (if added[0].level == level then [MetaOf(added[0])] else []) + NewsOf(added[1..], level)
  {
  }

  lemma NewsOfSnoc(added: seq<NewFile>, i: nat, level: nat)
    requires i < |added| && forall f :: f in added ==> Tagged(f)
    ensures NewsOf(added[..i + 1], level) ==
            if added[i].level == level then NewsOf(added[..i], level) + [MetaOf(added[i])]
              else NewsOf(added[..i], level)
  {
    assert added[..i + 1] == added[..i] + [added[i]];
    NewsOfConcat(added[..i], [added[i]], level);
    assert NewsOf([added[i]], level) == if added[i].level == level then [MetaOf(added[i])] else [];
    assert NewsOf(added[..i], level) + [] == NewsOf(added[..i], level);
  }

  lemma {:induction false} AddFilesSnoc(st: LevelState, news: Files, f: FileMeta)
    ensures AddFiles(st, news + [f]) == AddOne(AddFiles(st, news), f)
    decreases news
  {
    if news == [] {
      assert news + [f] == [f] && [f][1..] == [];
    } else {
      assert (news + [f])[0] == news[0] && (news + [f])[1..] == news[1..] + [f];
      AddFilesSnoc(AddOne(st, news[0]), news[1..], f);
    }
  }

  function ApplyEditAt(st: LevelState, e: VersionEdit, level: nat): LevelState
    requires Usable(e)
  {
    ApplyLevel(st, DelsOf(e.deleted, level), NewsOf(e.added, level))
  }

  ghost predicate SmallPointers(pointers: seq<seq<byte>>) {
    forall p :: p in pointers ==> |p| < UINT32_LIMIT
  }

  /** What is set for a level: by the last of these pairs that is for it, or else before. */
  function PointerAt(pairs: seq<(uint32, seq<byte>)>, l: nat, before: seq<byte>): seq<byte> {
    if pairs == [] then before
    else if Last(pairs).0 == l then Last(pairs).1
    else PointerAt(DropLast(pairs), l, before)
  }

  /** The compact pointers after those of an edit. */
  function NextPointers(pointers: seq<seq<byte>>, pairs: seq<(uint32, seq<byte>)>): (r: seq<seq<byte>>)
    requires |pointers| == LEVELS
    ensures |r| == LEVELS && (pairs == [] ==> r == pointers)
  {
    seq(LEVELS, l requires 0 <= l < LEVELS => PointerAt(pairs, l, pointers[l]))
  }

  /** The last pair for a level wins. */
  lemma {:induction false} LastPointerWins(pairs: seq<(uint32, seq<byte>)>, i: nat, before: seq<byte>)
    requires i < |pairs| && forall j :: i < j < |pairs| ==> pairs[j].0 != pairs[i].0
    ensures PointerAt(pairs, pairs[i].0, before) == pairs[i].1
  {
    if i < |pairs| - 1 {
      var front := DropLast(pairs);
      assert forall j :: 0 <= j < |front| ==> front[j] == pairs[j];
      LastPointerWins(front, i, before);
    }
  }

  /** A level without one keeps its pointer. */
  lemma {:induction false} PointerStays(pairs: seq<(uint32, seq<byte>)>, l: nat, before: seq<byte>)
    requires forall i :: 0 <= i < |pairs| ==> pairs[i].0 != l
    ensures PointerAt(pairs, l, before) == before
  {
    if pairs != [] {
      var front := DropLast(pairs);
      assert forall i :: 0 <= i < |front| ==> front[i] == pairs[i];
      PointerStays(front, l, before);
    }
  }

  lemma PointersNext(pointers: seq<seq<byte>>, pairs: seq<(uint32, seq<byte>)>, i: nat)
    requires |pointers| == LEVELS && i < |pairs| && pairs[i].0 < LEVELS
    ensures NextPointers(pointers, pairs[..i + 1]) == NextPointers(pointers, pairs[..i])[pairs[i].0 := pairs[i].1]
  {
    assert DropLast(pairs[..i + 1]) == pairs[..i] && Last(pairs[..i + 1]) == pairs[i];
  }

  ghost predicate SmallKeys(v: Version) {
    forall l, f :: 0 <= l < LEVELS && f in v[l] ==>
      |f.smallest.user| + 8 < UINT32_LIMIT && |f.largest.user| + 8 < UINT32_LIMIT
  }

  /** One level of the version an edit leads to. */
  function NextLevel(v: Version, e: VersionEdit, l: nat): Files
    requires Usable(e) && l < LEVELS
  {
    SaveLevel(v[l], ApplyEditAt(NO_CHANGE, e, l))
  }

  // ---------------------------------------------------------------- what a manifest says

  datatype ManifestState = ManifestState(levels: seq<LevelState>, log: Option<uint64>, next: Option<uint64>,
                                         sequence: Option<uint64>)

  /** The three scalars that recovery asks for. */
  predicate Complete(ms: ManifestState) {
    ms.log.Some? && ms.next.Some? && ms.sequence.Some?
  }

  const START := ManifestState(seq(LEVELS, _ => NO_CHANGE), None, None, None)

  function Newest(x: Option<uint64>, before: Option<uint64>): Option<uint64> {
    if x.Some? then x else before
  }

  /** One edit on top of what was read so far: levels accumulate, the last value of a scalar wins. */
  function ApplyEdit(ms: ManifestState, e: VersionEdit): (r: ManifestState)
    requires Usable(e) && |ms.levels| == LEVELS
    ensures |r.levels| == LEVELS
  {
    ManifestState(
      seq(LEVELS, l requires 0 <= l < LEVELS => ApplyEditAt(ms.levels[l], e, l)),
      Newest(e.log, ms.log), Newest(e.next, ms.next), Newest(e.sequence, ms.sequence))
  }

  /** The state after all records, or nothing if one of them cannot be used. */
  function Replay(ms: ManifestState, records: seq<seq<byte>>): (r: Option<ManifestState>)
    requires |ms.levels| == LEVELS
    ensures r.Some? ==> |r.value.levels| == LEVELS
    decreases records
  {
    if records == [] then Some(ms)
    else
      match Decoded(EMPTY_EDIT, records[0])
      case None => None
      case Some(e) => if Usable(e) then Replay(ApplyEdit(ms, e), records[1..]) else None
  }

  // ---------------------------------------------------------------- snapshots of a version

  function SnapshotLevel(files: Files, level: uint32): (r: seq<NewFile>)
    ensures |r| == |files| && forall i :: 0 <= i < |files| ==> r[i] == WireOf(level, files[i])
  {
    if files == [] then [] else [WireOf(level, files[0])] + SnapshotLevel(files[1..], level)
  }

  /** The new-file list of `WriteSnapshot`, from the given level on. */
  function SnapshotFrom(v: Version, level: nat): seq<NewFile>
    requires level <= LEVELS
    decreases LEVELS - level
  {
    if level == LEVELS then [] else SnapshotLevel(v[level], level) + SnapshotFrom(v, level + 1)
  }

  lemma {:induction false} NewsOfLevel(files: Files, level: uint32, at: nat)
    ensures forall f :: f in SnapshotLevel(files, level) ==> Tagged(f)
    ensures NewsOf(SnapshotLevel(files, level), at) == if at == level then files else []
  {
    hide MetaOf, Tagged, WireOf;
    if files != [] {
      MetaOfWire(level, files[0]);
      NewsOfLevel(files[1..], level, at);
      var s, rest := SnapshotLevel(files, level), SnapshotLevel(files[1..], level);
      assert s == [WireOf(level, files[0])] + rest;
      NewsOfFront(WireOf(level, files[0]), rest, at);
      assert files == [files[0]] + files[1..];
    }
  }

  lemma NewsOfFront(f: NewFile, rest: seq<NewFile>, at: nat)
    requires Tagged(f) && forall g :: g in rest ==> Tagged(g)
    ensures forall g :: g in [f] + rest ==> Tagged(g)
    ensures NewsOf([f] + rest, at) == (if f.level == at then [MetaOf(f)] else []) + NewsOf(rest, at)
  {
    assert ([f] + rest)[0] == f && ([f] + rest)[1..] == rest;
  }

  lemma {:induction false} NewsOfSnapshot(v: Version, from: nat, at: nat)
    requires from <= LEVELS && at < LEVELS
    ensures forall f :: f in SnapshotFrom(v, from) ==> Tagged(f) && f.level < LEVELS
    ensures NewsOf(SnapshotFrom(v, from), at) == if from <= at then v[at] else []
    decreases LEVELS - from
  {
    if from < LEVELS {
      NewsOfLevel(v[from], from, at);
      NewsOfSnapshot(v, from + 1, at);
      NewsOfConcat(SnapshotLevel(v[from], from), SnapshotFrom(v, from + 1), at);
    }
  }

  /** A strictly sorted list of files is added to nothing as it stands. */
  lemma AddStrict(files: Files)
    requires StrictFiles(files)
    ensures AddFiles(NO_CHANGE, files) == LevelState({}, files)
  {
    AddFilesCorrect(NO_CHANGE, files);
    assert forall g :: NoKey(NO_CHANGE.added, g);
    forall g ensures FirstIn(files, g) <==> g in files {
      if FirstIn(files, g) {
        FirstInMember(files, g);
      }
      if g in files {
        FirstOfKey(files, g);
        var h :| h in files && SameKey(h, g) && FirstIn(files, h);
        FileOrder();
      }
    }
    StrictUnique(AddFiles(NO_CHANGE, files).added, files);
    assert {} - Nums(files) == {};
  }

  function PointersFrom(pointers: seq<seq<byte>>, level: nat): seq<(uint32, seq<byte>)>
    requires |pointers| == LEVELS && level <= LEVELS
    decreases LEVELS - level
  {
    if level == LEVELS then []
    else (if pointers[level] != [] then [(level, pointers[level])] else []) + PointersFrom(pointers, level + 1)
  }

  /** The edit that `WriteSnapshot` encodes. */
  function SnapshotEdit(v: Version, pointers: seq<seq<byte>>): VersionEdit
    requires |pointers| == LEVELS
  {
    VersionEdit(None, None, None, PointersFrom(pointers, 0), [], SnapshotFrom(v, 0))
  }

  ghost predicate IsSnapshot(ms: ManifestState, v: Version) {
    && |ms.levels| == LEVELS && ms.log == None && ms.next == None && ms.sequence == None
    && forall l :: 0 <= l < LEVELS ==> ms.levels[l] == LevelState({}, v[l])
  }

  lemma SnapshotState(start: ManifestState, v: Version, pointers: seq<seq<byte>>)
    requires |start.levels| == LEVELS && start.log == start.next == start.sequence == None
    requires forall l :: 0 <= l < LEVELS ==> start.levels[l] == NO_CHANGE
    requires |pointers| == LEVELS && forall l :: 0 <= l < LEVELS ==> StrictFiles(v[l])
    ensures Usable(SnapshotEdit(v, pointers).(pointers := []))
    ensures IsSnapshot(ApplyEdit(start, SnapshotEdit(v, pointers).(pointers := [])), v)
  {
    hide SnapshotFrom, NewsOf, StrictFiles, ApplyLevel, PointersFrom, Tagged;
    NewsOfSnapshot(v, 0, 0);
    var e := VersionEdit(None, None, None, [], [], SnapshotFrom(v, 0));
    assert SnapshotEdit(v, pointers).(pointers := []) == e;
    var r := ApplyEdit(start, e);
    forall l | 0 <= l < LEVELS ensures r.levels[l] == LevelState({}, v[l]) {
      SnapshotStateAt(v, l);
      assert r.levels[l] == ApplyEditAt(start.levels[l], e, l);
    }
  }

  lemma SnapshotStateAt(v: Version, l: nat)
    requires l < LEVELS && StrictFiles(v[l])
    requires forall f :: f in SnapshotFrom(v, 0) ==> Tagged(f)
    ensures ApplyLevel(NO_CHANGE, DelsOf([], l), NewsOf(SnapshotFrom(v, 0), l)) == LevelState({}, v[l])
  {
    hide SnapshotFrom, NewsOf, StrictFiles;
    NewsOfSnapshot(v, 0, l);
    assert DelsOf([], l) == {};
    assert {} + DelsOf([], l) == {};
    AddStrict(v[l]);
  }

  lemma {:induction false} PointersFromFacts(pointers: seq<seq<byte>>, level: nat)
    requires |pointers| == LEVELS && level <= LEVELS
    ensures PointersFrom(pointers, level) == [] <==> forall l :: level <= l < LEVELS ==> pointers[l] == []
    ensures forall p :: p in PointersFrom(pointers, level) ==> p.0 < LEVELS && p.1 in pointers
    decreases LEVELS - level
  {
    if level < LEVELS {
      PointersFromFacts(pointers, level + 1);
    }
  }

  lemma {:induction false} SnapshotSizes(v: Version, level: nat)
    requires SmallKeys(v) && level <= LEVELS
    ensures forall f :: f in SnapshotFrom(v, level) ==> |f.smallest| < UINT32_LIMIT && |f.largest| < UINT32_LIMIT
    decreases LEVELS - level
  {
    if level < LEVELS {
      SnapshotSizes(v, level + 1);
      var s := SnapshotLevel(v[level], level);
      forall f | f in s ensures |f.smallest| < UINT32_LIMIT && |f.largest| < UINT32_LIMIT {
        var i :| 0 <= i < |s| && s[i] == f;
        assert v[level][i] in v[level];
      }
    }
  }

  lemma SavedSnapshot(files: Files)
    requires StrictFiles(files)
    ensures Saved(LevelState({}, files)) == files
  {
    SavedMembers(LevelState({}, files));
    StrictUnique(Saved(LevelState({}, files)), files);
  }

  // ---------------------------------------------------------------- edits field by field

  predicate TaggedField(f: Field) {
    FieldShape(f) && f.tag == NEW_FILE ==> Tagged(NewFileOf(f.data))
  }

  /** Fields that can be decoded and used. */
  predicate Plain(fields: seq<Field>) {
    Shaped(fields) && forall f :: f in fields ==> TaggedField(f)
  }

  /** No deletion comes behind an addition. */
  predicate DeletionsFirst(fields: seq<Field>) {
    forall i, j :: 0 <= i < j < |fields| && fields[i].tag == NEW_FILE ==> fields[j].tag != DELETED_FILE
  }

  /** Applying the fields one edit each. */
  function FieldByField(ms: ManifestState, fields: seq<Field>): (r: ManifestState)
    requires |ms.levels| == LEVELS && Plain(fields)
    ensures |r.levels| == LEVELS
    decreases fields
  {
    if fields == [] then ms
    else
      UsableField(EMPTY_EDIT, fields[0]);
      FieldByField(ApplyEdit(ms, ApplyField(EMPTY_EDIT, fields[0])), fields[1..])
  }

  lemma InsertedPairs(s: seq<(uint32, uint64)>, x: (uint32, uint64), y: (uint32, uint64))
    ensures y in InsertPair(s, x) <==> y in s || y == x
  {
    if s != [] && !PairLt(x, s[0]) && x != s[0] {
      InsertedPairs(s[1..], x, y);
      assert s == [s[0]] + s[1..];
    }
  }

  lemma UsableField(e: VersionEdit, f: Field)
    requires Usable(e) && FieldShape(f) && TaggedField(f)
    ensures Usable(ApplyField(e, f))
  {
    if f.tag == DELETED_FILE {
      assert f.data[0].n < LEVELS;
      forall d | d in ApplyField(e, f).deleted ensures d.0 < LEVELS {
        InsertedPairs(e.deleted, (f.data[0].n, f.data[1].n), d);
      }
    }
  }

  lemma DelsOfInserted(s: seq<(uint32, uint64)>, x: (uint32, uint64), l: nat)
    ensures DelsOf(InsertPair(s, x), l) == DelsOf(s, l) + DelsOf([x], l)
  {
    forall n ensures n in DelsOf(InsertPair(s, x), l) <==> n in DelsOf(s, l) + DelsOf([x], l) {
      forall d: (uint32, uint64) | d.1 == n ensures d in InsertPair(s, x) <==> d in s || d == x {
        InsertedPairs(s, x, d);
      }
      assert n in DelsOf(InsertPair(s, x), l) <==> exists d :: d in InsertPair(s, x) && d.0 == l && d.1 == n;
    }
  }

  lemma NoChangeAt(st: LevelState)
    ensures ApplyLevel(st, {}, []) == st
  {
    assert st.deleted + {} == st.deleted;
  }

  /** One more field in an edit is one more edit. */
  lemma FieldStepAt(st: LevelState, e: VersionEdit, f: Field, l: nat)
    requires Usable(e) && FieldShape(f) && TaggedField(f) && (f.tag == DELETED_FILE ==> e.added == [])
    ensures Usable(ApplyField(e, f)) && Usable(ApplyField(EMPTY_EDIT, f))
    ensures ApplyEditAt(st, ApplyField(e, f), l) == ApplyEditAt(ApplyEditAt(st, e, l), ApplyField(EMPTY_EDIT, f), l)
  {
    hide InsertPair, AddFiles, NewsOf, Tagged, MetaOf, DelsOf;
    UsableField(e, f);
    UsableField(EMPTY_EDIT, f);
    if f.tag == DELETED_FILE {
      DeletionStep(st, e.deleted, (f.data[0].n, f.data[1].n), l);
    } else if f.tag == NEW_FILE {
      AdditionStep(st, DelsOf(e.deleted, l), e.added, NewFileOf(f.data), l);
    } else {
      NoFiles(l);
      NoChangeAt(ApplyEditAt(st, e, l));
    }
  }

  lemma NoFiles(l: nat)
    ensures DelsOf([], l) == {} && NewsOf([], l) == []
  {
  }

  lemma DeletionStep(st: LevelState, deleted: seq<(uint32, uint64)>, x: (uint32, uint64), l: nat)
    ensures ApplyLevel(st, DelsOf(InsertPair(deleted, x), l), NewsOf([], l))
            == ApplyLevel(ApplyLevel(st, DelsOf(deleted, l), NewsOf([], l)), DelsOf(InsertPair([], x), l),
                          NewsOf([], l))
  {
    DelsOfInserted(deleted, x, l);
    DelsOfInserted([], x, l);
    NoFiles(l);
    assert {} + DelsOf([x], l) == DelsOf([x], l);
    assert st.deleted + (DelsOf(deleted, l) + DelsOf([x], l)) == st.deleted + DelsOf(deleted, l) + DelsOf([x], l);
  }

  lemma AdditionStep(st: LevelState, dels: set<uint64>, added: seq<NewFile>, n: NewFile, l: nat)
    requires Tagged(n) && forall g :: g in added ==> Tagged(g)
    ensures forall g :: g in added + [n] || g in [] + [n] ==> Tagged(g)
    ensures ApplyLevel(st, dels, NewsOf(added + [n], l))
            == ApplyLevel(ApplyLevel(st, dels, NewsOf(added, l)), DelsOf([], l), NewsOf([] + [n], l))
  {
    hide MetaOf;
    NewsOfConcat(added, [n], l);
    assert [] + [n] == [n] && [n][1..] == [];
    var start := LevelState(st.deleted + dels, st.added);
    var mid := AddFiles(start, NewsOf(added, l));
    NoFiles(l);
    assert mid.deleted + {} == mid.deleted;
    if n.level == l {
      assert NewsOf([n], l) == [MetaOf(n)] && [MetaOf(n)][1..] == [];
      AddFilesSnoc(start, NewsOf(added, l), MetaOf(n));
      assert AddFiles(mid, [MetaOf(n)]) == AddFiles(AddOne(mid, MetaOf(n)), []);
      assert NewsOf(added + [n], l) == NewsOf(added, l) + [MetaOf(n)];
      assert LevelState(mid.deleted + {}, mid.added) == mid;
    } else {
      assert NewsOf(added, l) + [] == NewsOf(added, l);
    }
  }

  lemma FieldStep(ms: ManifestState, e: VersionEdit, f: Field)
    requires |ms.levels| == LEVELS && Usable(e)
    requires FieldShape(f) && TaggedField(f) && (f.tag == DELETED_FILE ==> e.added == [])
    ensures Usable(ApplyField(e, f)) && Usable(ApplyField(EMPTY_EDIT, f))
    ensures ApplyEdit(ms, ApplyField(e, f)) == ApplyEdit(ApplyEdit(ms, e), ApplyField(EMPTY_EDIT, f))
  {
    hide ApplyEditAt, Tagged;
    UsableField(e, f);
    UsableField(EMPTY_EDIT, f);
    var a, b := ApplyEdit(ms, ApplyField(e, f)), ApplyEdit(ApplyEdit(ms, e), ApplyField(EMPTY_EDIT, f));
    forall l | 0 <= l < LEVELS ensures a.levels[l] == b.levels[l] {
      FieldStepAt(ms.levels[l], e, f, l);
    }
  }

  lemma {:induction false} FieldsOnEdit(ms: ManifestState, e: VersionEdit, fields: seq<Field>)
    requires |ms.levels| == LEVELS && Usable(e) && Plain(fields) && DeletionsFirst(fields)
    requires e.added != [] ==> forall f :: f in fields ==> f.tag != DELETED_FILE
    ensures Usable(ApplyAll(e, fields))
    ensures ApplyEdit(ms, ApplyAll(e, fields)) == FieldByField(ApplyEdit(ms, e), fields)
    decreases fields
  {
    hide ApplyEdit, Usable, InsertPair, NewFileOf, Tagged;
    if fields != [] {
      var f := fields[0];
      FieldStep(ms, e, f);
      FieldsOnEdit(ms, ApplyField(e, f), fields[1..]);
    }
  }

  /** An edit with the deletions first does what its fields do one by one. */
  lemma OneEdit(ms: ManifestState, fields: seq<Field>)
    requires |ms.levels| == LEVELS && Plain(fields) && DeletionsFirst(fields)
    ensures Usable(ApplyAll(EMPTY_EDIT, fields))
    ensures ApplyEdit(ms, ApplyAll(EMPTY_EDIT, fields)) == FieldByField(ms, fields)
  {
    FieldsOnEdit(ms, EMPTY_EDIT, fields);
    var r := ApplyEdit(ms, EMPTY_EDIT);
    forall l | 0 <= l < LEVELS ensures r.levels[l] == ms.levels[l] {
      NoFiles(l);
      NoChangeAt(ms.levels[l]);
    }
    assert r == ms;
  }

  lemma {:induction false} FieldByFieldConcat(ms: ManifestState, a: seq<Field>, b: seq<Field>)
    requires |ms.levels| == LEVELS && Plain(a) && Plain(b)
    ensures Plain(a + b)
    ensures FieldByField(ms, a + b) == FieldByField(FieldByField(ms, a), b)
    decreases a
  {
    if a == [] {
      assert a + b == b;
    } else {
      assert (a + b)[0] == a[0] && (a + b)[1..] == a[1..] + b;
      UsableField(EMPTY_EDIT, a[0]);
      FieldByFieldConcat(ApplyEdit(ms, ApplyField(EMPTY_EDIT, a[0])), a[1..], b);
    }
  }

  // ---------------------------------------------------------------- one record through the log

  /** Fields in the order and form in which `EncodeTo` writes a usable edit. */
  ghost predicate EditFields(fields: seq<Field>) {
    && Writable(fields) && FieldsFit32(fields) && DeletionsFirst(fields)
    && forall f :: f in fields ==> TaggedField(f)
  }

  /**
   The fields fit the room behind the next header, or some of them fill it exactly and the others go on in
   the next block: no field is cut.
   */
  ghost predicate CutBetweenFields(p: nat, fields: seq<Field>)
    decreases |fields|
  {
    || |FieldsBytes(fields)| <= Avail(p)
    || exists k :: 0 < k <= |fields| && |FieldsBytes(fields[..k])| == Avail(p)
        && CutBetweenFields(NextBlock(p), fields[k..])
  }

  /** Every record that decodes, up to the first that does not, is usable. */
  ghost predicate UsableUntilBad(records: seq<seq<byte>>)
    decreases records
  {
    records != [] && Decoded(EMPTY_EDIT, records[0]).Some? ==>
      Usable(Decoded(EMPTY_EDIT, records[0]).value) && UsableUntilBad(records[1..])
  }

  /** Fields that can be decoded, as one record. */
  lemma RunDecodes(ms: ManifestState, run: seq<Field>)
    requires |ms.levels| == LEVELS && EditFields(run) && Shaped(run)
    ensures Plain(run) && Decoded(EMPTY_EDIT, FieldsBytes(run)) == Some(ApplyAll(EMPTY_EDIT, run))
    ensures Usable(ApplyAll(EMPTY_EDIT, run)) && ApplyEdit(ms, ApplyAll(EMPTY_EDIT, run)) == FieldByField(ms, run)
  {
    DecodeFields(EMPTY_EDIT, run, []);
    assert FieldsBytes(run) + [] == FieldsBytes(run);
    OneEdit(ms, run);
  }

  lemma EditFieldsParts(fields: seq<Field>, k: nat)
    requires EditFields(fields) && k <= |fields|
    ensures EditFields(fields[..k]) && EditFields(fields[k..])
    ensures Shaped(fields) ==> Shaped(fields[..k]) && Shaped(fields[k..])
    ensures Shaped(fields[..k]) && Shaped(fields[k..]) ==> Shaped(fields)
    ensures FieldsBytes(fields) == FieldsBytes(fields[..k]) + FieldsBytes(fields[k..])
  {
    hide EditFields, Shaped, FieldsBytes;
    EditFieldsSlice(fields, 0, k);
    EditFieldsSlice(fields, k, |fields|);
    WholeAndParts(fields, k);
    ShapedConcat(fields[..k], fields[k..]);
    FieldsBytesConcat(fields[..k], fields[k..]);
  }

  lemma WholeAndParts(fields: seq<Field>, k: nat)
    requires k <= |fields|
    ensures fields == fields[..k] + fields[k..] && fields[0..k] == fields[..k] && fields[k..|fields|] == fields[k..]
  {
  }

  lemma ShapedConcat(a: seq<Field>, b: seq<Field>)
    ensures Shaped(a + b) <==> Shaped(a) && Shaped(b)
  {
    if Shaped(a + b) {
      forall f | f in a || f in b ensures f in a + b {
      }
    }
  }

  lemma EditFieldsSlice(fields: seq<Field>, i: nat, j: nat)
    requires EditFields(fields) && i <= j <= |fields|
    ensures EditFields(fields[i..j])
  {
    var part := fields[i..j];
    assert forall k :: 0 <= k < |part| ==> part[k] == fields[i + k];
    assert forall f :: f in part ==> f in fields;
  }

  lemma {:induction false} FieldsTakeSpace(fields: seq<Field>)
    ensures fields != [] <==> FieldsBytes(fields) != []
    ensures |fields| <= |FieldsBytes(fields)|
  {
    if fields != [] {
      assert |Varint(fields[0].tag)| > 0;
      FieldsTakeSpace(fields[1..]);
    }
  }

  /** Two fronts of the fields with encodings of one length are the same. */
  lemma SameCut(fields: seq<Field>, j: nat, k: nat)
    requires j <= k <= |fields| && |FieldsBytes(fields[..j])| == |FieldsBytes(fields[..k])|
    ensures j == k
  {
    assert fields[..k] == fields[..j] + fields[j..k];
    FieldsBytesConcat(fields[..j], fields[j..k]);
    FieldsTakeSpace(fields[j..k]);
  }

  /**
   A record's front decodes only if it ends between two fields, and then it is the run of fields before that
   place.
   */
  lemma FrontDecodes(fields: seq<Field>, n: nat) returns (k: nat)
    requires EditFields(fields) && n <= |FieldsBytes(fields)|
    ensures k <= |fields|
    ensures Decoded(EMPTY_EDIT, FieldsBytes(fields)[..n]).Some? ==>
              && Shaped(fields[..k])
              && FieldsBytes(fields)[..n] == FieldsBytes(fields[..k])
              && FieldsBytes(fields)[n..] == FieldsBytes(fields[k..])
    ensures Decoded(EMPTY_EDIT, FieldsBytes(fields)[..n]).None? ==>
              forall j :: 0 <= j <= |fields| && |FieldsBytes(fields[..j])| == n ==> !Shaped(fields[..j])
  {
    var data := FieldsBytes(fields);
    k := 0;
    if Decoded(EMPTY_EDIT, data[..n]).Some? {
      assert data == data[..n] + data[n..];
      k := DecodableFront(EMPTY_EDIT, fields, data[..n], data[n..]);
    } else {
      forall j | 0 <= j <= |fields| && |FieldsBytes(fields[..j])| == n ensures !Shaped(fields[..j]) {
        EditFieldsParts(fields, j);
        assert data[..n] == FieldsBytes(fields[..j]);
        if Shaped(fields[..j]) {
          RunDecodes(START, fields[..j]);
        }
      }
    }
  }

  /** The records that the reader gets for the fields of one edit written at p, and whether it goes on behind them. */
  function Fragments(p: nat, fields: seq<Field>): (seq<seq<byte>>, bool) {
    Delivered(Split(p, FieldsBytes(fields)))
  }

  /** What replaying the fragments of one edit does, as its fields and its place in the log decide it. */
  ghost predicate Framed(ms: ManifestState, p: nat, fields: seq<Field>, got: (seq<seq<byte>>, bool))
    requires |ms.levels| == LEVELS && EditFields(fields)
  {
    && UsableUntilBad(got.0)
    && if CutBetweenFields(p, fields) && Shaped(fields)
        then got.1 && Replay(ms, got.0) == Some(FieldByField(ms, fields))
       else if Avail(p) == 0 then got == ([], false)
       else Replay(ms, got.0) == None
  }

  lemma ReplayFront(ms: ManifestState, first: seq<byte>, rest: seq<seq<byte>>)
    requires |ms.levels| == LEVELS
    ensures match Decoded(EMPTY_EDIT, first)
            case None => Replay(ms, [first] + rest) == None && UsableUntilBad([first] + rest)
            case Some(e) =>
              && (Usable(e) ==> Replay(ms, [first] + rest) == Replay(ApplyEdit(ms, e), rest))
              && (Usable(e) && UsableUntilBad(rest) ==> UsableUntilBad([first] + rest))
  {
    assert ([first] + rest)[1..] == rest;
  }

  /** The fields fit: one fragment, the whole record. */
  lemma FittingFramed(ms: ManifestState, p: nat, fields: seq<Field>)
    requires |ms.levels| == LEVELS && EditFields(fields) && fields != [] && |FieldsBytes(fields)| <= Avail(p)
    ensures Framed(ms, p, fields, Fragments(p, fields))
  {
    hide EditFields, Replay, Usable, Split, UsableUntilBad, FieldByField, Decoded, Shaped, ApplyAll;
    var data := FieldsBytes(fields);
    FieldsTakeSpace(fields);
    DeliveredStep(p, data);
    assert data[..|data|] == data && data[|data|..] == [];
    NothingSplit(p + Pad(p) + HEADER + |data|);
    assert Fragments(p, fields) == ([data] + [], true);
    var k := FrontDecodes(fields, |data|);
    ReplayFront(ms, data, []);
    WholeFront(fields, k);
    if Shaped(fields) {
      RunDecodes(ms, fields);
      NothingLeft(ApplyEdit(ms, ApplyAll(EMPTY_EDIT, fields)));
    }
  }

  lemma NothingLeft(ms: ManifestState)
    requires |ms.levels| == LEVELS
    ensures Replay(ms, []) == Some(ms) && UsableUntilBad([])
  {
  }

  lemma WholeFront(fields: seq<Field>, k: nat)
    requires k <= |fields|
    ensures fields[..|fields|] == fields
    ensures FieldsBytes(fields[k..]) == [] ==> fields[..k] == fields
  {
    FieldsTakeSpace(fields[k..]);
  }

  /** Which fields fill the first block is determined, so the rest decides. */
  lemma CutAgrees(p: nat, fields: seq<Field>, k: nat)
    requires 0 < k <= |fields| && |FieldsBytes(fields[..k])| == Avail(p) < |FieldsBytes(fields)|
    ensures CutBetweenFields(p, fields) <==> CutBetweenFields(NextBlock(p), fields[k..])
  {
    if CutBetweenFields(p, fields) {
      var j :| 0 < j <= |fields| && |FieldsBytes(fields[..j])| == Avail(p)
        && CutBetweenFields(NextBlock(p), fields[j..]);
      if j <= k {
        SameCut(fields, j, k);
      } else {
        SameCut(fields, k, j);
      }
    }
  }

  lemma NotBetween(p: nat, fields: seq<Field>)
    requires EditFields(fields) && Avail(p) < |FieldsBytes(fields)|
    requires Decoded(EMPTY_EDIT, FieldsBytes(fields)[..Avail(p)]).None?
    ensures !(CutBetweenFields(p, fields) && Shaped(fields))
  {
    var k := FrontDecodes(fields, Avail(p));
    forall j | 0 < j <= |fields| && |FieldsBytes(fields[..j])| == Avail(p) ensures !Shaped(fields) {
      EditFieldsParts(fields, j);
    }
  }

  /** A first fragment that does not decode is a cut within a field, or holds a compact pointer. */
  lemma BadCutFramed(ms: ManifestState, p: nat, fields: seq<Field>)
    requires |ms.levels| == LEVELS && EditFields(fields) && 0 < Avail(p) < |FieldsBytes(fields)|
    requires Decoded(EMPTY_EDIT, FieldsBytes(fields)[..Avail(p)]).None?
    ensures Framed(ms, p, fields, Fragments(p, fields))
  {
    NotBetween(p, fields);
    hide Split, FieldsBytes, CutBetweenFields, EditFields, Decoded, Avail;
    var data, n := FieldsBytes(fields), Avail(p);
    DeliveredStep(p, data);
    ReplayFront(ms, data[..n], Delivered(Split(p + Pad(p) + HEADER + n, data[n..])).0);
  }

  /** A first fragment that ends between two fields is replayed, and the rest goes on in the next block. */
  lemma GoodCutFramed(ms: ManifestState, p: nat, fields: seq<Field>, k: nat)
    requires |ms.levels| == LEVELS && EditFields(fields) && 0 < k <= |fields| && 0 < Avail(p) < |FieldsBytes(fields)|
    requires Shaped(fields[..k]) && EditFields(fields[..k]) && EditFields(fields[k..]) && Plain(fields[..k])
    requires FieldsBytes(fields)[..Avail(p)] == FieldsBytes(fields[..k])
    requires FieldsBytes(fields)[Avail(p)..] == FieldsBytes(fields[k..])
    requires Framed(FieldByField(ms, fields[..k]), NextBlock(p), fields[k..], Fragments(NextBlock(p), fields[k..]))
    ensures Framed(ms, p, fields, Fragments(p, fields))
  {
    hide Split, FieldsBytes, CutBetweenFields, EditFields, Decoded, Avail, Usable, Replay, UsableUntilBad,
         Shaped, FieldByField, Pad, ApplyAll, Fragments, Plain, ApplyEdit, NextBlock;
    var run, rest := fields[..k], fields[k..];
    var first, got := FieldsBytes(run), Fragments(NextBlock(p), rest);
    FirstFragment(p, fields, k);
    RunDecodes(ms, run);
    ReplayFront(ms, first, got.0);
    CutAgrees(p, fields, k);
    WholeShape(fields, k);
    if Shaped(rest) {
      WholeFold(ms, fields, k);
    }
  }

  lemma FirstFragment(p: nat, fields: seq<Field>, k: nat)
    requires k <= |fields| && 0 < Avail(p) < |FieldsBytes(fields)|
    requires FieldsBytes(fields)[..Avail(p)] == FieldsBytes(fields[..k])
    requires FieldsBytes(fields)[Avail(p)..] == FieldsBytes(fields[k..])
    ensures var got := Fragments(NextBlock(p), fields[k..]);
            Fragments(p, fields) == ([FieldsBytes(fields[..k])] + got.0, got.1)
    ensures Avail(NextBlock(p)) > 0
  {
    hide Split, FieldsBytes, Avail, Pad;
    DeliveredStep(p, FieldsBytes(fields));
  }

  lemma WholeShape(fields: seq<Field>, k: nat)
    requires k <= |fields| && Shaped(fields[..k])
    ensures Shaped(fields) <==> Shaped(fields[k..])
  {
    WholeAndParts(fields, k);
    ShapedConcat(fields[..k], fields[k..]);
  }

  lemma ShapedIsPlain(fields: seq<Field>)
    requires EditFields(fields) && Shaped(fields)
    ensures Plain(fields)
  {
  }

  lemma WholeFold(ms: ManifestState, fields: seq<Field>, k: nat)
    requires |ms.levels| == LEVELS && EditFields(fields) && k <= |fields| && Shaped(fields[..k]) && Shaped(fields[k..])
    ensures Plain(fields) && Plain(fields[..k]) && Plain(fields[k..])
    ensures FieldByField(ms, fields) == FieldByField(FieldByField(ms, fields[..k]), fields[k..])
  {
    hide FieldByField, EditFields, Shaped, Plain, FieldsBytes;
    EditFieldsParts(fields, k);
    ShapedIsPlain(fields[..k]);
    ShapedIsPlain(fields[k..]);
    assert fields == fields[..k] + fields[k..];
    FieldByFieldConcat(ms, fields[..k], fields[k..]);
  }

  /** Replaying the fragments of one edit: all of it, nothing and a stopped reader, or corruption. */
  lemma {:induction false} EditFramed(ms: ManifestState, p: nat, fields: seq<Field>)
    requires |ms.levels| == LEVELS && EditFields(fields)
    ensures Framed(ms, p, fields, Fragments(p, fields))
    decreases |fields|
  {
    hide Split, FieldsBytes, Decoded, Usable, Replay, UsableUntilBad, FieldByField, Framed, CutBetweenFields, Avail;
    FieldsTakeSpace(fields);
    if fields == [] {
      NoFieldsFramed(ms, p);
    } else if |FieldsBytes(fields)| <= Avail(p) {
      FittingFramed(ms, p, fields);
    } else if Avail(p) == 0 {
      NoRoomFramed(ms, p, fields);
    } else if Decoded(EMPTY_EDIT, FieldsBytes(fields)[..Avail(p)]).None? {
      BadCutFramed(ms, p, fields);
    } else {
      var k := FrontDecodes(fields, Avail(p));
      EditFieldsParts(fields, k);
      RunDecodes(ms, fields[..k]);
      FieldsTakeSpace(fields[..k]);
      FieldsTakeSpace(fields[k..]);
      EditFramed(FieldByField(ms, fields[..k]), NextBlock(p), fields[k..]);
      GoodCutFramed(ms, p, fields, k);
    }
  }

  lemma NoFieldsFramed(ms: ManifestState, p: nat)
    requires |ms.levels| == LEVELS
    ensures EditFields([]) && Framed(ms, p, [], Fragments(p, []))
  {
    NothingSplit(p);
  }

  lemma NoRoomFramed(ms: ManifestState, p: nat, fields: seq<Field>)
    requires |ms.levels| == LEVELS && EditFields(fields) && Avail(p) == 0 && fields != []
    ensures Framed(ms, p, fields, Fragments(p, fields))
  {
    FieldsTakeSpace(fields);
    DeliveredStep(p, FieldsBytes(fields));
    forall k | 0 < k <= |fields| ensures FieldsBytes(fields[..k]) != [] {
      FieldsTakeSpace(fields[..k]);
    }
  }

  // ---------------------------------------------------------------- a manifest through the log

  /** Usable edits as they are written to a manifest. */
  ghost predicate Storable(e: VersionEdit) {
    Usable(e) && Sizes32(e) && Ascending(e.deleted)
  }

  function Records(edits: seq<VersionEdit>): seq<seq<byte>> {
    Map(EncodedEdit, edits)
  }

  /** The edit, written at p, is read back: it has no compact pointer and no field is cut. */
  ghost predicate Survives(p: nat, e: VersionEdit) {
    e.pointers == [] && CutBetweenFields(p, Fields(e))
  }

  function Behind(p: nat, e: VersionEdit): nat {
    EndOf(p, Split(p, EncodedEdit(e)))
  }

  ghost predicate AllSurvive(p: nat, edits: seq<VersionEdit>)
    decreases edits
  {
    edits != [] ==> Survives(p, edits[0]) && AllSurvive(Behind(p, edits[0]), edits[1..])
  }

  /** All edits, one on top of the other. */
  function Folded(ms: ManifestState, edits: seq<VersionEdit>): (r: ManifestState)
    requires |ms.levels| == LEVELS && forall e :: e in edits ==> Usable(e)
    ensures |r.levels| == LEVELS
    decreases edits
  {
    if edits == [] then ms else Folded(ApplyEdit(ms, edits[0]), edits[1..])
  }

  /**
   What recovery makes of the edits: up to the first one that does not survive. Without room for any of its
   bytes the reader stops in front of it, unnoticed; otherwise the recovery fails.
   */
  ghost function ReadsAs(p: nat, ms: ManifestState, edits: seq<VersionEdit>): (r: Option<ManifestState>)
    requires |ms.levels| == LEVELS && forall e :: e in edits ==> Usable(e)
    ensures r.Some? ==> |r.value.levels| == LEVELS
    decreases edits
  {
    if edits == [] then Some(ms)
    else if Survives(p, edits[0]) then ReadsAs(Behind(p, edits[0]), ApplyEdit(ms, edits[0]), edits[1..])
    else if Avail(p) == 0 then Some(ms)
    else None
  }

  lemma {:induction false} FoldedSnoc(ms: ManifestState, edits: seq<VersionEdit>, e: VersionEdit)
    requires |ms.levels| == LEVELS && (forall x :: x in edits + [e] ==> Usable(x))
    requires forall x :: x in edits ==> Usable(x)
    ensures Usable(e) && Folded(ms, edits + [e]) == ApplyEdit(Folded(ms, edits), e)
    decreases edits
  {
    assert e in edits + [e];
    if edits == [] {
      assert edits + [e] == [e] && [e][1..] == [];
    } else {
      assert (edits + [e])[0] == edits[0] && (edits + [e])[1..] == edits[1..] + [e];
      FoldedSnoc(ApplyEdit(ms, edits[0]), edits[1..], e);
    }
  }

  lemma FoldedOne(ms: ManifestState, e: VersionEdit)
    requires |ms.levels| == LEVELS && Usable(e)
    ensures Folded(ms, [e]) == ApplyEdit(ms, e)
  {
  }

  lemma {:induction false} SurvivorsFold(p: nat, ms: ManifestState, edits: seq<VersionEdit>)
    requires |ms.levels| == LEVELS && forall e :: e in edits ==> Usable(e)
    ensures AllSurvive(p, edits) ==> ReadsAs(p, ms, edits) == Some(Folded(ms, edits))
    decreases edits
  {
    if edits != [] {
      hide Survives, Behind, ApplyEdit;
      SurvivorsFold(Behind(p, edits[0]), ApplyEdit(ms, edits[0]), edits[1..]);
    }
  }

  /**
   Recovery that does not fail gives the state after a front of the edits, and after all of them only if they
   survive.
   */
  lemma {:induction false} ReadsFront(p: nat, ms: ManifestState, edits: seq<VersionEdit>) returns (k: nat)
    requires |ms.levels| == LEVELS && forall e :: e in edits ==> Usable(e)
    ensures k <= |edits|
    ensures ReadsAs(p, ms, edits).Some? ==>
              && ReadsAs(p, ms, edits) == Some(Folded(ms, edits[..k]))
              && (k == |edits| <==> AllSurvive(p, edits))
    decreases edits
  {
    k := 0;
    if edits != [] && Survives(p, edits[0]) {
      hide Survives, Behind, ApplyEdit;
      var m := ReadsFront(Behind(p, edits[0]), ApplyEdit(ms, edits[0]), edits[1..]);
      k := m + 1;
      assert edits[..k][0] == edits[0] && edits[..k][1..] == edits[1..][..m];
    }
  }

  // the fields of an edit

  lemma EditTags(e: VersionEdit, i: nat)
    requires i < |Fields(e)|
    ensures Fields(e)[i].tag == NEW_FILE <==> i >= |HeaderFields(e)| + |e.pointers| + |e.deleted|
    ensures Fields(e)[i].tag == COMPACT_POINTER <==> |HeaderFields(e)| <= i < |HeaderFields(e)| + |e.pointers|
  {
    var h := HeaderFields(e);
    assert forall k :: 0 <= k < |h| ==> h[k].tag <= LAST_SEQUENCE;
  }

  lemma EditFieldAt(e: VersionEdit, i: nat)
    requires Usable(e) && i < |Fields(e)|
    ensures Fields(e)[i].tag == COMPACT_POINTER || FieldShape(Fields(e)[i])
    ensures TaggedField(Fields(e)[i])
  {
    var h, n := HeaderFields(e), |HeaderFields(e)|;
    var f := Fields(e)[i];
    EditTags(e, i);
    if i < n {
      assert f == h[i] && f in h;
      ApplyHeader(e);
    } else if i < n + |e.pointers| {
    } else if i < n + |e.pointers| + |e.deleted| {
      assert f == DeletedField(e.deleted[i - n - |e.pointers|]);
      assert e.deleted[i - n - |e.pointers|] in e.deleted;
    } else {
      var a := e.added[i - n - |e.pointers| - |e.deleted|];
      assert f == AddedField(a) && a in e.added;
      AddedEncodable(a);
      assert NewFileOf(f.data) == a;
    }
  }

  lemma FieldsOfEdit(e: VersionEdit)
    requires Storable(e)
    ensures EditFields(Fields(e))
    ensures Shaped(Fields(e)) <==> e.pointers == []
  {
    var fields := Fields(e);
    Fit32(e);
    forall i | 0 <= i < |fields|
      ensures (fields[i].tag == COMPACT_POINTER || FieldShape(fields[i])) && TaggedField(fields[i])
    {
      EditFieldAt(e, i);
    }
    forall i, j | 0 <= i < j < |fields| && fields[i].tag == NEW_FILE ensures fields[j].tag != DELETED_FILE {
      EditTags(e, i);
      EditTags(e, j);
    }
    if e.pointers != [] {
      EditTags(e, |HeaderFields(e)|);
      assert fields[|HeaderFields(e)|] in fields;
    } else {
      forall i | 0 <= i < |fields| ensures FieldShape(fields[i]) {
        EditFieldAt(e, i);
        EditTags(e, i);
      }
    }
  }

  lemma FieldsApply(ms: ManifestState, e: VersionEdit)
    requires |ms.levels| == LEVELS && Storable(e) && e.pointers == []
    ensures EditFields(Fields(e)) && Plain(Fields(e)) && FieldByField(ms, Fields(e)) == ApplyEdit(ms, e)
  {
    FieldsOfEdit(e);
    assert Decodable(e);
    FieldsOfDecodable(e);
    OneEdit(ms, Fields(e));
  }

  // one edit after the other

  lemma {:induction false} ReplayConcat(ms: ManifestState, a: seq<seq<byte>>, b: seq<seq<byte>>)
    requires |ms.levels| == LEVELS
    ensures Replay(ms, a + b) == match Replay(ms, a) case None => None case Some(mid) => Replay(mid, b)
    ensures UsableUntilBad(a) && (Replay(ms, a).Some? ==> UsableUntilBad(b)) ==> UsableUntilBad(a + b)
    decreases a
  {
    if a == [] {
      assert a + b == b;
    } else {
      assert (a + b)[0] == a[0] && (a + b)[1..] == a[1..] + b;
      match Decoded(EMPTY_EDIT, a[0])
      case None =>
      case Some(e) =>
        if Usable(e) {
          ReplayConcat(ApplyEdit(ms, e), a[1..], b);
        }
    }
  }

  /** The records that the reader gets of the edits written from p on, and whether it reaches the end. */
  function ReaderGets(p: nat, edits: seq<VersionEdit>): (seq<seq<byte>>, bool) {
    Delivered(SplitAll(p, Records(edits)))
  }

  lemma GetsStep(p: nat, edits: seq<VersionEdit>)
    requires edits != []
    ensures var first, rest := Fragments(p, Fields(edits[0])), ReaderGets(Behind(p, edits[0]), edits[1..]);
            ReaderGets(p, edits) == if first.1 then (first.0 + rest.0, rest.1) else first
  {
    var head := Split(p, EncodedEdit(edits[0]));
    assert Records(edits)[0] == EncodedEdit(edits[0]) && Records(edits)[1..] == Records(edits[1..]);
    DeliveredConcat(head, SplitAll(EndOf(p, head), Records(edits[1..])));
  }

  lemma FirstEdit(ms: ManifestState, p: nat, e: VersionEdit)
    requires |ms.levels| == LEVELS && Storable(e)
    ensures var got := Fragments(p, Fields(e));
            && UsableUntilBad(got.0)
            && if Survives(p, e) then got.1 && Replay(ms, got.0) == Some(ApplyEdit(ms, e))
               else if Avail(p) == 0 then got == ([], false)
               else Replay(ms, got.0) == None
  {
    hide Replay, UsableUntilBad, CutBetweenFields, Fragments, EditFields, Shaped, Fields, FieldByField, ApplyEdit,
         Plain, Avail, Storable;
    FieldsOfEdit(e);
    EditFramed(ms, p, Fields(e));
    if e.pointers == [] {
      FieldsApply(ms, e);
    }
  }

  lemma ReadsStep(p: nat, ms: ManifestState, edits: seq<VersionEdit>)
    requires edits != [] && |ms.levels| == LEVELS && (forall e :: e in edits ==> Usable(e)) && Usable(edits[0])
    ensures ReadsAs(p, ms, edits) ==
            if Survives(p, edits[0]) then ReadsAs(Behind(p, edits[0]), ApplyEdit(ms, edits[0]), edits[1..])
            else if Avail(p) == 0 then Some(ms)
            else None
    ensures AllSurvive(p, edits) <==> Survives(p, edits[0]) && AllSurvive(Behind(p, edits[0]), edits[1..])
  {
  }

  /** Replaying what the reader gets of any edits is what their places in the log say. */
  lemma {:induction false} ManifestReplays(p: nat, ms: ManifestState, edits: seq<VersionEdit>)
    requires |ms.levels| == LEVELS && forall e :: e in edits ==> Usable(e) && Storable(e)
    ensures Replay(ms, ReaderGets(p, edits).0) == ReadsAs(p, ms, edits) && UsableUntilBad(ReaderGets(p, edits).0)
    ensures AllSurvive(p, edits) <==> ReadsAs(p, ms, edits).Some? && ReaderGets(p, edits).1
    decreases edits
  {
    if edits == [] {
      NothingLeft(ms);
    } else {
      var first, rest := Fragments(p, Fields(edits[0])), ReaderGets(Behind(p, edits[0]), edits[1..]);
      hide Replay, UsableUntilBad, Survives, Fragments, ApplyEdit, Avail, ReaderGets, Usable, Storable, Behind,
           ReadsAs, AllSurvive;
      assert Storable(edits[0]);
      FirstEdit(ms, p, edits[0]);
      GetsStep(p, edits);
      ReadsStep(p, ms, edits);
      if Survives(p, edits[0]) {
        ManifestReplays(Behind(p, edits[0]), ApplyEdit(ms, edits[0]), edits[1..]);
        ReplayConcat(ms, first.0, rest.0);
      } else if Avail(p) == 0 {
        NothingLeft(ms);
      } else {
        ReplayConcat(ms, first.0, rest.0);
      }
    }
  }

  /**
   Manifest read-back. For any edits appended to a new manifest, replaying what the reader gets of its bytes
   gives the state after all of them if and only if each survives at its place; then the reader comes to the
   end of the file. In any case the first edit that does not survive decides the outcome.
   */
  lemma ManifestReadBack(crc: Crc, edits: seq<VersionEdit>)
    requires forall e :: e in edits ==> Usable(e) && Storable(e)
    ensures Placed(0, SplitAll(0, Records(edits)))
    ensures var file := Emit(crc, 0, SplitAll(0, Records(edits)));
            var (got, ending) := ReadAll(crc, true, file, 0);
            && UsableUntilBad(got) && Replay(START, got) == ReadsAs(0, START, edits)
            && (Replay(START, got).Some? && ending != Stopped <==> AllSurvive(0, edits))
            && (AllSurvive(0, edits) ==>
                  && Replay(START, got) == Some(Folded(START, edits))
                  && ending == if |file| % BLOCK == 0 then Undef else AtEof)
  {
    hide Emit, Replay, UsableUntilBad, ReadsAs, AllSurvive, Folded, Usable, Storable, ReadAll, Delivered, SplitAll,
         Placed, Written;
    var pieces := SplitAll(0, Records(edits));
    SplitAllPlaced(0, Records(edits));
    SplitAllWritten(0, Records(edits));
    ReadBack(crc, true, [], pieces);
    assert [] + Emit(crc, 0, pieces) == Emit(crc, 0, pieces);
    ManifestReplays(0, START, edits);
    SurvivorsFold(0, START, edits);
  }

  // ---------------------------------------------------------------- which manifests survive

  /** Every record is empty or fits the room left in its block; an empty one is not written at all. */
  ghost predicate EachFits(p: nat, edits: seq<VersionEdit>)
    decreases edits
  {
    edits != [] ==> |EncodedEdit(edits[0])| <= Avail(p) && EachFits(Behind(p, edits[0]), edits[1..])
  }

  /** Without compact pointers, edits whose records fit survive. */
  lemma {:induction false} FittingSurvive(p: nat, edits: seq<VersionEdit>)
    requires EachFits(p, edits) && forall e :: e in edits ==> e.pointers == []
    ensures AllSurvive(p, edits)
    decreases edits
  {
    if edits != [] {
      hide Behind;
      FittingSurvive(Behind(p, edits[0]), edits[1..]);
    }
  }

  lemma {:induction false} FieldWithin(fields: seq<Field>, i: nat)
    requires i < |fields|
    ensures |FieldsBytes(fields)| >= |FieldBytes(fields[i])|
  {
    if i > 0 {
      FieldWithin(fields[1..], i - 1);
    }
  }

  /** A field longer than a block is cut wherever it is written. */
  lemma {:induction false} LongFieldCut(p: nat, fields: seq<Field>, i: nat)
    requires i < |fields| && |FieldBytes(fields[i])| > BLOCK - HEADER
    ensures !CutBetweenFields(p, fields)
    decreases |fields|
  {
    hide FieldBytes, Avail;
    FieldWithin(fields, i);
    forall k | 0 < k <= |fields| && |FieldsBytes(fields[..k])| == Avail(p)
      ensures !CutBetweenFields(NextBlock(p), fields[k..]) {
      if i < k {
        FieldWithin(fields[..k], i);
      } else {
        LongFieldCut(NextBlock(p), fields[k..], i - k);
      }
    }
  }

  /** A file with a key as long as a block makes the edit unreadable, wherever it is written. */
  lemma LongKeyLost(p: nat, e: VersionEdit, f: NewFile)
    requires f in e.added && (|f.smallest| >= BLOCK - HEADER || |f.largest| >= BLOCK - HEADER)
    ensures !Survives(p, e)
  {
    var i :| 0 <= i < |e.added| && e.added[i] == f;
    var at := |HeaderFields(e)| + |e.pointers| + |e.deleted| + i;
    assert Fields(e)[at] == Map(AddedField, e.added)[i];
    LongAddition(f);
    LongFieldCut(p, Fields(e), at);
  }

  /** An edit written with such a key keeps the manifest from being read back. */
  lemma {:induction false} LongKeySpoils(p: nat, edits: seq<VersionEdit>, f: NewFile)
    requires edits != [] && f in Last(edits).added && (|f.smallest| >= BLOCK - HEADER || |f.largest| >= BLOCK - HEADER)
    ensures !AllSurvive(p, edits)
    decreases edits
  {
    hide Survives, Behind;
    if |edits| == 1 {
      LongKeyLost(p, edits[0], f);
    } else {
      LongKeySpoils(Behind(p, edits[0]), edits[1..], f);
    }
  }

  lemma LongAddition(f: NewFile)
    requires |f.smallest| >= BLOCK - HEADER || |f.largest| >= BLOCK - HEADER
    ensures |FieldBytes(AddedField(f))| > BLOCK - HEADER
  {
    PutAdded([], f);
    assert |Varint(NEW_FILE)| > 0;
    assert |[] + FieldBytes(AddedField(f))| == |FieldBytes(AddedField(f))|;
  }

  /** The edit that `NewDB` writes to the first manifest of a database. */
  const NEW_DB := VersionEdit(Some(0), Some(2), Some(0), [], [], [])

  /** The edit that `Open` logs behind the snapshot of the empty version: its log file has number 3. */
  const OPEN_EDIT := VersionEdit(Some(3), Some(4), Some(0), [], [], [])

  /** Three scalars of one byte each. */
  lemma ScalarsSurvive(p: nat, log: uint64, next: uint64, sequence: uint64)
    requires log < 128 && next < 128 && sequence < 128 && Avail(p) >= 6
    ensures var e := VersionEdit(Some(log), Some(next), Some(sequence), [], [], []);
            Usable(e) && Storable(e) && |EncodedEdit(e)| == 6 && Survives(p, e)
  {
    var e := VersionEdit(Some(log), Some(next), Some(sequence), [], [], []);
    var fields := Fields(e);
    assert fields
      == [Field(LOG_NUMBER, [Num(log)])] + [Field(NEXT_FILE_NUMBER, [Num(next)])]
        + [Field(LAST_SEQUENCE, [Num(sequence)])];
    OptionFieldBytes(LOG_NUMBER, e.log);
    OptionFieldBytes(NEXT_FILE_NUMBER, e.next);
    OptionFieldBytes(LAST_SEQUENCE, e.sequence);
    FieldsBytesConcat(OptionField(LOG_NUMBER, e.log), OptionField(NEXT_FILE_NUMBER, e.next));
    FieldsBytesConcat(OptionField(LOG_NUMBER, e.log) + OptionField(NEXT_FILE_NUMBER, e.next),
                      OptionField(LAST_SEQUENCE, e.sequence));
  }

  /** The edit that flushes one entry with a key of 33000 zeros from the first memtable of a new database. */
  function LongFlush(): VersionEdit {
    var key := Encode(InternalKey(Zeros(33000), 257));
    VersionEdit(Some(4), Some(6), Some(1), [], [], [NewFile(0, 5, 33100, key, key)])
  }

  /**
   Recovery then fails: the snapshot of the empty version encodes to nothing and is not written, the edit of
   `Open` comes back, and the first fragment of the flush ends within its file's smallest key.
   */
  lemma LongKeyExample(crc: Crc)
    ensures var edits := [EMPTY_EDIT, OPEN_EDIT, LongFlush()];
            && Placed(0, SplitAll(0, Records(edits)))
            && Replay(START, ReadAll(crc, true, Emit(crc, 0, SplitAll(0, Records(edits))), 0).0) == None
  {
    EmptySurvives(0);
    ScalarsSurvive(0, 3, 4, 0);
    StorableFlush();
    hide LongFlush, Replay, ReadAll, Emit, SplitAll, Placed, Records, Survives, Storable, Usable, ReadsAs, AllSurvive;
    var e := LongFlush();
    ManifestReadBack(crc, [EMPTY_EDIT, OPEN_EDIT, e]);
    LongKeyLost(Behind(0, OPEN_EDIT), e, e.added[0]);
    OpenEnds();
    ThreeEdits(0, START, EMPTY_EDIT, OPEN_EDIT, e);
  }

  lemma OpenEnds()
    ensures Behind(0, OPEN_EDIT) > 0 && Avail(Behind(0, OPEN_EDIT)) > 0
  {
  }

  lemma StorableFlush()
    ensures Usable(EMPTY_EDIT) && Storable(EMPTY_EDIT) && Usable(LongFlush()) && Storable(LongFlush())
    ensures LongFlush().added != [] && |LongFlush().added[0].smallest| >= BLOCK - HEADER
  {
    DecodeEncode(InternalKey(Zeros(33000), 257));
  }

  lemma EmptySurvives(p: nat)
    ensures EncodedEdit(EMPTY_EDIT) == [] && Survives(p, EMPTY_EDIT) && Behind(p, EMPTY_EDIT) == p
  {
    assert Fields(EMPTY_EDIT) == [];
  }

  lemma ThreeEdits(p: nat, ms: ManifestState, a: VersionEdit, b: VersionEdit, c: VersionEdit)
    requires |ms.levels| == LEVELS && Usable(a) && Usable(b) && Usable(c)
    requires Survives(p, a) && Survives(Behind(p, a), b)
    requires var q := Behind(Behind(p, a), b); !Survives(q, c) && Avail(q) > 0
    ensures ReadsAs(p, ms, [a, b, c]) == None
  {
    var q := Behind(Behind(p, a), b);
    assert [a, b, c][1..] == [b, c] && [b, c][1..] == [c];
    assert ReadsAs(q, ApplyEdit(ApplyEdit(ms, a), b), [c]) == None;
    assert ReadsAs(Behind(p, a), ApplyEdit(ms, a), [b, c]) == None;
  }

  /** The snapshot of the empty version says nothing. */
  lemma SnapshotOfNothing(pointers: seq<seq<byte>>)
    requires |pointers| == LEVELS && forall l :: 0 <= l < LEVELS ==> pointers[l] == []
    ensures SnapshotEdit(EMPTY_VERSION, pointers) == EMPTY_EDIT
  {
    PointersFromFacts(pointers, 0);
    NothingFrom(0);
  }

  lemma {:induction false} NothingFrom(level: nat)
    requires level <= LEVELS
    ensures SnapshotFrom(EMPTY_VERSION, level) == []
    decreases LEVELS - level
  {
    if level < LEVELS {
      NothingFrom(level + 1);
    }
  }

  /**
   A snapshot replays to the version it was taken of, if and only if no compact pointer is set and no field is
   cut.
   */
  lemma SnapshotReplays(v: Version, pointers: seq<seq<byte>>)
    requires |pointers| == LEVELS && SmallPointers(pointers) && SmallKeys(v)
    requires forall l :: 0 <= l < LEVELS ==> StrictFiles(v[l])
    ensures var e := SnapshotEdit(v, pointers);
            && Usable(e) && Storable(e)
            && (e.pointers == [] <==> forall l :: 0 <= l < LEVELS ==> pointers[l] == [])
            && (AllSurvive(0, [e])
                <==> (forall l :: 0 <= l < LEVELS ==> pointers[l] == []) && CutBetweenFields(0, Fields(e)))
            && IsSnapshot(ApplyEdit(START, e), v)
  {
    hide SnapshotFrom, PointersFrom, NewsOf, StrictFiles, SmallKeys, ApplyEdit, CutBetweenFields;
    var e := SnapshotEdit(v, pointers);
    PointersFromFacts(pointers, 0);
    SnapshotSizes(v, 0);
    NewsOfSnapshot(v, 0, 0);
    SnapshotState(START, v, pointers);
    assert [e][1..] == [];
    SamePointers(START, e);
  }

  /** Compact pointers say nothing about files. */
  lemma SamePointers(ms: ManifestState, e: VersionEdit)
    requires |ms.levels| == LEVELS && Usable(e) && Usable(e.(pointers := []))
    ensures ApplyEdit(ms, e) == ApplyEdit(ms, e.(pointers := []))
  {
    var a, b := ApplyEdit(ms, e), ApplyEdit(ms, e.(pointers := []));
    assert forall l :: 0 <= l < LEVELS ==> a.levels[l] == b.levels[l];
  }

  /**
   One more edit on top of the others: the levels stay those of the installed version exactly for compatible
   edits.
   */
  lemma EditAdds(edits: seq<VersionEdit>, e: VersionEdit)
    requires forall x :: x in edits + [e] ==> Usable(x)
    requires forall x :: x in edits ==> Usable(x)
    requires forall l :: 0 <= l < LEVELS ==> StrictFiles(Folded(START, edits).levels[l].added)
    ensures Usable(e) && Folded(START, edits + [e]) == ApplyEdit(Folded(START, edits), e)
    ensures forall l :: 0 <= l < LEVELS ==> StrictFiles(ApplyEditAt(Folded(START, edits).levels[l], e, l).added)
    ensures forall l :: 0 <= l < LEVELS ==>
              var st := Folded(START, edits).levels[l];
              Saved(ApplyEditAt(st, e, l)) == SaveLevel(Saved(st), ApplyEditAt(NO_CHANGE, e, l))
              <==> Compatible(st, NewsOf(e.added, l))
  {
    hide Folded, Usable, Compatible, SaveLevel, ApplyLevel;
    FoldedSnoc(START, edits, e);
    forall l | 0 <= l < LEVELS
      ensures var st := Folded(START, edits).levels[l];
              && StrictFiles(ApplyEditAt(st, e, l).added)
              && (Saved(ApplyEditAt(st, e, l)) == SaveLevel(Saved(st), ApplyEditAt(NO_CHANGE, e, l))
                  <==> Compatible(st, NewsOf(e.added, l)))
    {
      ReplayStep(Folded(START, edits).levels[l], DelsOf(e.deleted, l), NewsOf(e.added, l));
    }
  }
}
