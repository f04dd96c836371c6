/**
 The version set (src/db/version_set.cpp): installing edits, writing the manifest, recovering from it.
 */
module VersionSet {
  import opened Common
  import opened Keys
  import opened EditCodec
  import opened Builder
  import opened Wal
  import opened Manifest

  ghost predicate Overlapping(v: Version, e: VersionEdit)
    requires Usable(e)
  {
    exists l :: 0 < l < LEVELS && !Chained(NextLevel(v, e, l))
  }

  // ---------------------------------------------------------------- the builder

  lemma ChainedSnoc(files: Files, f: FileMeta)
    ensures Chained(files + [f]) <==> Chained(files) && (files != [] ==> Lt(files[|files| - 1].largest, f.smallest))
  {
    var r := files + [f];
    assert forall i :: 0 <= i < |files| ==> r[i] == files[i];
    if Chained(r) {
      assert files != [] ==> Lt(r[|files| - 1].largest, r[|files|].smallest);
      assert forall i :: 0 < i < |files| ==> Lt(r[i - 1].largest, r[i].smallest);
    }
  }

  lemma KeptHead(f: FileMeta, rest: Files, deleted: set<uint64>)
    ensures Kept([f] + rest, deleted) == Kept([f], deleted) + Kept(rest, deleted)
  {
    assert ([f] + rest)[1..] == rest && [f][1..] == [];
  }

  lemma KeptEmpty(deleted: set<uint64>)
    ensures Kept([], deleted) == []
  {
  }

  /** Base files that no added file precedes come first in the merge. */
  lemma {:induction false} SkipRun(base: Files, from: nat, end: nat, added: Files, deleted: set<uint64>)
    requires from <= end <= |base| && added != []
    requires forall i :: from <= i < end ==> !Before(added[0], base[i])
    ensures Kept(MergeFiles(base[from..], added), deleted)
            == Kept(base[from..end], deleted) + Kept(MergeFiles(base[end..], added), deleted)
    decreases end - from
  {
    if from == end {
      assert base[from..end] == [];
    } else {
      var run, rest := base[from + 1..end], MergeFiles(base[from + 1..], added);
      SkipRun(base, from + 1, end, added, deleted);
      assert base[from..end] == [base[from]] + run;
      BaseNext(base[from..], added);
      assert base[from..][1..] == base[from + 1..];
      hide Kept, MergeFiles, Before;
      KeptHead(base[from], run, deleted);
      KeptHead(base[from], rest, deleted);
      Concat3(Kept([base[from]], deleted), Kept(run, deleted), Kept(MergeFiles(base[end..], added), deleted));
    }
  }

  lemma BaseNext(base: Files, added: Files)
    requires base != [] && added != [] && !Before(added[0], base[0])
    ensures MergeFiles(base, added) == [base[0]] + MergeFiles(base[1..], added)
  {
  }

  /** An added file that precedes the rest of the base comes next. */
  lemma AddedNext(base: Files, added: Files, deleted: set<uint64>)
    requires added != [] && (base != [] ==> Before(added[0], base[0]))
    ensures Kept(MergeFiles(base, added), deleted)
            == Kept([added[0]], deleted) + Kept(MergeFiles(base, added[1..]), deleted)
  {
    assert added == [added[0]] + added[1..];
    if base == [] {
      assert MergeFiles(base, added[1..]) == added[1..];
    }
    KeptHead(added[0], MergeFiles(base, added[1..]), deleted);
  }

  /** One turn of the merge: the base files up to the upper bound, then the added file. */
  lemma MergeStep(base: Files, b: nat, bpos: nat, added: Files, deleted: set<uint64>, files: Files)
    requires b <= bpos <= |base| && added != []
    requires forall i :: b <= i < bpos ==> !Before(added[0], base[i])
    requires bpos < |base| ==> Before(added[0], base[bpos])
    ensures files + Kept(MergeFiles(base[b..], added), deleted)
            == files + Kept(base[b..bpos], deleted) + Kept([added[0]], deleted)
               + Kept(MergeFiles(base[bpos..], added[1..]), deleted)
  {
    SkipRun(base, b, bpos, added, deleted);
    AddedNext(base[bpos..], added, deleted);
    Concat4(files, Kept(base[b..bpos], deleted), Kept([added[0]], deleted),
            Kept(MergeFiles(base[bpos..], added[1..]), deleted));
  }

  class VersionBuilder {
    const base: Version
    var levels: seq<LevelState>

    constructor (base: Version)
      ensures this.base == base && levels == seq(LEVELS, _ => NO_CHANGE)
    {
      this.base := base;
      levels := seq(LEVELS, _ => NO_CHANGE);
    }

    /** Accumulates an edit; `pointers` is the version set's `compact_pointer` array. */
    method Apply(e: VersionEdit, pointers: seq<seq<byte>>) returns (newPointers: seq<seq<byte>>)
      requires |levels| == LEVELS && |pointers| == LEVELS && Usable(e)
      modifies this
      ensures |levels| == LEVELS && |newPointers| == LEVELS
      ensures SmallPointers(pointers) && Sizes32(e) ==> SmallPointers(newPointers)
      ensures forall l :: 0 <= l < LEVELS ==> levels[l] == ApplyEditAt(old(levels[l]), e, l)
      ensures newPointers == NextPointers(pointers, e.pointers)
    {
      newPointers := pointers;
      for i := 0 to |e.pointers|
        invariant newPointers == NextPointers(pointers, e.pointers[..i]) && levels == old(levels)
        invariant SmallPointers(pointers) && Sizes32(e) ==> SmallPointers(newPointers)
      {
        assert e.pointers[i] in e.pointers;
        PointersNext(pointers, e.pointers, i);
        newPointers := newPointers[e.pointers[i].0 := e.pointers[i].1];
      }
      assert e.pointers[..|e.pointers|] == e.pointers;
      DeleteFiles(e.deleted);
      AddNewFiles(e.added);
    }

    /** "Delete files" */
    method DeleteFiles(deleted: seq<(uint32, uint64)>)
      requires |levels| == LEVELS && forall d :: d in deleted ==> d.0 < LEVELS
      modifies this
      ensures |levels| == LEVELS
      ensures forall l :: 0 <= l < LEVELS ==>
                levels[l] == LevelState(old(levels[l].deleted) + DelsOf(deleted, l), old(levels[l].added))
    {
      for i := 0 to |deleted|
        invariant |levels| == LEVELS
        invariant forall l :: 0 <= l < LEVELS ==>
                    levels[l] == LevelState(old(levels[l].deleted) + DelsOf(deleted[..i], l), old(levels[l].added))
      {
        var (level, number) := deleted[i];
        assert deleted[i] in deleted;
        assert deleted[..i + 1] == deleted[..i] + [deleted[i]];
        levels := levels[level := levels[level].(deleted := levels[level].deleted + {number})];
      }
      assert deleted[..|deleted|] == deleted;
    }

    /** "Add new files" */
    method AddNewFiles(added: seq<NewFile>)
      requires |levels| == LEVELS && forall f :: f in added ==> f.level < LEVELS && Tagged(f)
      modifies this
      ensures |levels| == LEVELS
      ensures forall l :: 0 <= l < LEVELS ==> levels[l] == AddFiles(old(levels[l]), NewsOf(added, l))
    {
      for i := 0 to |added|
        invariant |levels| == LEVELS
        invariant forall l :: 0 <= l < LEVELS ==> levels[l] == AddFiles(old(levels[l]), NewsOf(added[..i], l))
      {
        var f := added[i];
        assert f in added;
        forall l | 0 <= l < LEVELS
          ensures AddFiles(old(levels[l]), NewsOf(added[..i + 1], l)) ==
                  if l == f.level then AddOne(levels[l], MetaOf(f)) else levels[l]
        {
          NewsOfSnoc(added, i, l);
          AddFilesSnoc(old(levels[l]), NewsOf(added[..i], l), MetaOf(f));
        }
        levels := levels[f.level := AddOne(levels[f.level], MetaOf(f))];
      }
      assert added[..|added|] == added;
    }

    /** `files->push_back(f)` unless its number is deleted; not `ok` when the overlap assertion fails. */
    static method MaybeAddFile(level: nat, deleted: set<uint64>, files: Files, f: FileMeta) returns (r: Files, ok: bool)
      ensures r == files + Kept([f], deleted)
      ensures level > 0 ==> (Chained(r) <==> Chained(files) && ok)
      ensures level == 0 ==> ok
    {
      if f.num in deleted {
        return files, true;
      }
      ok := !(level > 0 && files != [] && Cmp(files[|files| - 1].largest, f.smallest) >= 0);
      r := files + [f];
      ChainedSnoc(files, f);
    }

    /** `std::upper_bound(base_iter, base_end, f, cmper)`. */
    static method UpperBound(files: Files, from: nat, f: FileMeta) returns (pos: nat)
      requires from <= |files|
      ensures from <= pos <= |files|
      ensures forall i :: from <= i < pos ==> !Before(f, files[i])
      ensures pos < |files| ==> Before(f, files[pos])
    {
      pos := from;
      while pos < |files| && !Before(f, files[pos])
        invariant from <= pos <= |files|
        invariant forall i :: from <= i < pos ==> !Before(f, files[i])
      {
        pos := pos + 1;
      }
    }

    /** `for (; base_iter != end; ++base_iter) MaybeAddFile(v, level, *base_iter);` */
    static method AddRun(level: nat, base: Files, from: nat, end: nat, deleted: set<uint64>, files: Files, ok: bool)
      returns (r: Files, stillOk: bool)
      requires from <= end <= |base|
      requires level == 0 ==> ok
      requires level > 0 ==> (ok <==> Chained(files))
      ensures r == files + Kept(base[from..end], deleted)
      ensures level == 0 ==> stillOk
      ensures level > 0 ==> (stillOk <==> Chained(r))
    {
      hide Kept, Chained;
      r, stillOk := files, ok;
      KeptEmpty(deleted);
      for i := from to end
        invariant r + Kept(base[i..end], deleted) == files + Kept(base[from..end], deleted)
        invariant level == 0 ==> stillOk
        invariant level > 0 ==> (stillOk <==> Chained(r))
      {
        assert base[i..end] == [base[i]] + base[i + 1..end];
        KeptHead(base[i], base[i + 1..end], deleted);
        var added: bool;
        r, added := MaybeAddFile(level, deleted, r, base[i]);
        stillOk := stillOk && added;
      }
    }

    /** The body of the level loop of `SaveTo`; not `ok` when the assertion or the abort is reached. */
    static method SaveOneLevel(level: nat, base: Files, st: LevelState) returns (files: Files, ok: bool)
      ensures files == SaveLevel(base, st)
      ensures ok <==> level == 0 || Chained(files)
    {
      files, ok := [], true;
      var b := 0;
      assert base[0..] == base && st.added[0..] == st.added;
      for a := 0 to |st.added|
        invariant b <= |base|
        invariant files + Kept(MergeFiles(base[b..], st.added[a..]), st.deleted) == SaveLevel(base, st)
        invariant level == 0 ==> ok
        invariant level > 0 ==> (ok <==> Chained(files))
      {
        var f := st.added[a];
        var bpos := UpperBound(base, b, f);
        MergeStep(base, b, bpos, st.added[a..], st.deleted, files);
        assert st.added[a..][1..] == st.added[a + 1..];
        files, ok := AddRun(level, base, b, bpos, st.deleted, files, ok);
        b := bpos;
        var added: bool;
        files, added := MaybeAddFile(level, st.deleted, files, f);
        ok := ok && added;
      }
      assert st.added[|st.added|..] == [] && base[b..] == base[b..|base|];
      files, ok := AddRun(level, base, b, |base|, st.deleted, files, ok);
      if level > 0 {
        var overlaps := Overlaps(files);
        ok := ok && !overlaps;
      }
    }

    /** The loop that makes sure there is no overlap in levels above 0. */
    static method Overlaps(files: Files) returns (found: bool)
      ensures found <==> !Chained(files)
    {
      var i := 1;
      while i < |files|
        invariant forall j :: 0 < j < i && j < |files| ==> Lt(files[j - 1].largest, files[j].smallest)
      {
        if Cmp(files[i - 1].largest, files[i].smallest) >= 0 {
          return true;
        }
        i := i + 1;
      }
      return false;
    }

    /** `SaveTo`. An overlap in a level above 0 aborts the process, so no version comes back. */
    method SaveTo() returns (aborted: bool, v: Version)
      requires |levels| == LEVELS
      ensures aborted <==> exists l :: 0 < l < LEVELS && !Chained(SaveLevel(base[l], levels[l]))
      ensures !aborted ==> forall l :: 0 <= l < LEVELS ==> v[l] == SaveLevel(base[l], levels[l])
    {
      v := EMPTY_VERSION;
      var saved: seq<Files> := [];
      for l := 0 to LEVELS
        invariant |saved| == l
        invariant forall k :: 0 <= k < l ==> saved[k] == SaveLevel(base[k], levels[k])
        invariant forall k :: 0 < k < l ==> Chained(SaveLevel(base[k], levels[k]))
      {
        var files, ok := SaveOneLevel(l, base[l], levels[l]);
        if !ok {
          return true, v;
        }
        saved := saved + [files];
      }
      return false, saved;
    }
  }

  /** A sorted list with a file at two places is not chained when the file's range is not empty. */
  lemma TwiceIsNotChained(s: Files, f: FileMeta)
    requires SortedFiles(s) && multiset(s)[f] >= 2 && !Lt(f.largest, f.smallest)
    ensures !Chained(s)
  {
    var lo, hi := TwoPlaces(s, f);
    FileOrder();
    assert !Before(s[lo + 1], s[lo]) && (lo + 1 == hi || !Before(s[hi], s[lo + 1]));
    assert SameKey(s[lo], s[lo + 1]);
    assert !Lt(s[lo + 1 - 1].largest, s[lo + 1].smallest);
  }

  lemma TwoPlaces<T>(s: seq<T>, x: T) returns (lo: nat, hi: nat)
    requires multiset(s)[x] >= 2
    ensures lo < hi < |s| && s[lo] == s[hi] == x
  {
    var i :| 0 <= i < |s| && s[i] == x;
    assert s == s[..i] + [x] + s[i + 1..];
    assert multiset(s) == multiset(s[..i]) + multiset{x} + multiset(s[i + 1..]);
    assert x in s[..i] || x in s[i + 1..];
    var j :| 0 <= j < |s| && j != i && s[j] == x;
    lo, hi := if i < j then i else j, if i < j then j else i;
  }

  // ---------------------------------------------------------------- manifests that only add files to level 0

  ghost predicate AllUsable(edits: seq<VersionEdit>) {
    forall e :: e in edits ==> Usable(e)
  }

  /** A file of the whole is not in the part. */
  ghost predicate Misses(part: Files, whole: Files) {
    exists f :: f in whole && f !in part
  }

  /** The state is incomplete: a scalar or one of the files of level 0 is missing. */
  ghost predicate Lags(ms: ManifestState, files: Files)
    requires |ms.levels| == LEVELS
  {
    Complete(ms) ==> Misses(Saved(ms.levels[0]), files)
  }

  /** No files have been added above level 0. */
  ghost predicate Flat(ms: ManifestState)
    requires |ms.levels| == LEVELS
  {
    forall l :: 0 < l < LEVELS ==> ms.levels[l].added == []
  }

  /** Every front of the edits but the whole lags behind, and none has files above level 0. */
  ghost predicate Growing(start: ManifestState, edits: seq<VersionEdit>, files: Files)
    requires |start.levels| == LEVELS && AllUsable(edits)
  {
    forall k :: 0 <= k <= |edits| ==> LagsAt(start, edits, files, k)
  }

  ghost predicate LagsAt(start: ManifestState, edits: seq<VersionEdit>, files: Files, k: nat)
    requires |start.levels| == LEVELS && AllUsable(edits) && k <= |edits|
  {
    Flat(Folded(start, edits[..k])) && (k < |edits| ==> Lags(Folded(start, edits[..k]), files))
  }

  lemma GrowingSnoc(edits: seq<VersionEdit>, e: VersionEdit, files: Files, more: Files)
    requires AllUsable(edits + [e]) && AllUsable(edits) && Usable(e)
    requires Growing(START, edits, files) && Lags(Folded(START, edits), more)
    requires (forall f :: f in files ==> f in more) && forall l :: 0 < l < LEVELS ==> NewsOf(e.added, l) == []
    ensures Growing(START, edits + [e], more)
  {
    hide Usable, Folded, Complete, Saved;
    var all := edits + [e];
    assert edits[..|edits|] == edits;
    forall k | 0 <= k <= |all| ensures LagsAt(START, all, more, k) {
      if k <= |edits| {
        assert all[..k] == edits[..k];
        assert LagsAt(START, edits, files, k);
      } else {
        assert all[..k] == all;
        assert LagsAt(START, edits, files, |edits|);
        FoldedSnoc(START, edits, e);
      }
    }
  }

  /** The snapshot of a version without files above level 0 is such a manifest: it has no scalars. */
  lemma GrowingSnapshot(e: VersionEdit, v: Version, files: Files)
    requires Usable(e) && IsSnapshot(ApplyEdit(START, e), v) && forall l :: 0 < l < LEVELS ==> v[l] == []
    ensures AllUsable([e]) && Growing(START, [e], files) && Lags(Folded(START, [e]), files)
  {
    hide Usable, ApplyEdit;
    FoldedOne(START, e);
    assert [e][..0] == [] && [e][..1] == [e];
    assert LagsAt(START, [e], files, 0) && LagsAt(START, [e], files, 1);
  }

  /** Reading such a manifest aborts nowhere, and gives all the files only if every edit survives. */
  lemma GrowingDecides(edits: seq<VersionEdit>, files: Files)
    requires AllUsable(edits) && Growing(START, edits, files) && ReadsAs(0, START, edits).Some?
    ensures var ms := ReadsAs(0, START, edits).value;
            && (forall l :: 0 < l < LEVELS ==> Saved(ms.levels[l]) == [])
            && (Complete(ms) && !AllSurvive(0, edits) ==> Misses(Saved(ms.levels[0]), files))
  {
    hide Usable, Folded, Complete, AllSurvive, ReadsAs;
    var k := ReadsFront(0, START, edits);
    assert LagsAt(START, edits, files, k);
    forall l | 0 < l < LEVELS ensures Saved(Folded(START, edits[..k]).levels[l]) == [] {
      assert Folded(START, edits[..k]).levels[l].added == [];
    }
  }

  // ---------------------------------------------------------------- the version set

  /** Saving the accumulated levels finds files of a level above 0 that overlap. */
  ghost predicate Aborts(ms: ManifestState)
    requires |ms.levels| == LEVELS
  {
    exists l :: 0 < l < LEVELS && !Chained(Saved(ms.levels[l]))
  }

  /** Which of the file operations of one `LogAndApply` succeed. */
  datatype Io = Io(create: bool, snapshot: bool, append: bool, current: bool)

  /** The scalar fields that `Recover` keeps the last values of. */
  datatype Scalars = Scalars(log: Option<uint64>, next: Option<uint64>, sequence: Option<uint64>)

  function StateOf(levels: seq<LevelState>, s: Scalars): ManifestState {
    ManifestState(levels, s.log, s.next, s.sequence)
  }

  class VersionSet {
    const crc: Crc
    var nowversion: Version
    var next_file_number: uint64
    var last_sequence: uint64
    var log_number: uint64
    var compact_pointer: seq<seq<byte>>
    /** The open manifest; null before the first edit and after a failed file operation. */
    var descriptor_log: WalWriter?
    /** The edits written to the open manifest, the snapshot first. */
    ghost var logged: seq<VersionEdit>

    constructor (crc: Crc)
      ensures Valid() && nowversion == EMPTY_VERSION && descriptor_log == null && logged == [] && this.crc == crc
      ensures next_file_number == 2 && last_sequence == 0 && log_number == 0
      ensures NoPointers()
    {
      this.crc := crc;
      nowversion := EMPTY_VERSION;
      next_file_number, last_sequence, log_number := 2, 0, 0;
      compact_pointer := seq(LEVELS, _ => []);
      descriptor_log := null;
      logged := [];
    }

    method NewFileNumber() returns (n: uint64)
      requires next_file_number + 1 < UINT64_LIMIT
      modifies `next_file_number
      ensures n == old(next_file_number) && next_file_number == n + 1
    {
      n := next_file_number;
      next_file_number := next_file_number + 1;
    }

    method SetLastSequence(sequence: uint64)
      modifies `last_sequence
      ensures last_sequence == sequence
    {
      last_sequence := sequence;
    }

    ghost predicate NoPointers()
      reads `compact_pointer
    {
      |compact_pointer| == LEVELS && forall l :: 0 <= l < LEVELS ==> compact_pointer[l] == []
    }

    // -------------------------------------------------------------- the manifest

    ghost predicate EditsOk()
      reads `logged
    {
      forall e :: e in logged ==> Usable(e) && Storable(e)
    }

    /** The bytes of the open manifest are those of the logged edits. */
    ghost predicate Holds()
      reads `descriptor_log, `logged, descriptor_log
    {
      && EditsOk() && Placed(0, SplitAll(0, Records(logged)))
      && descriptor_log != null && descriptor_log.Valid() && descriptor_log.crc == crc
      && descriptor_log.file == Emit(crc, 0, SplitAll(0, Records(logged)))
    }

    /** The accumulated state of a level that the next edit is applied to. */
    ghost function StateNow(l: nat): LevelState
      requires l < LEVELS && EditsOk()
      reads `descriptor_log, `logged, `nowversion
    {
      if descriptor_log == null then LevelState({}, nowversion[l]) else Folded(START, logged).levels[l]
    }

    /**
     Reading the manifest to its end, in one builder, gives this version, its log number and these last scalar
     values.
     */
    ghost predicate ManifestGives(next: uint64, sequence: uint64)
      requires descriptor_log != null
      reads `descriptor_log, `log_number, `nowversion, descriptor_log
    {
      var (got, ending) := ReadAll(crc, true, descriptor_log.file, 0);
      var r := Replay(START, got);
      && ending != Stopped && r.Some?
      && r.value.log == Some(log_number) && r.value.next == Some(next) && r.value.sequence == Some(sequence)
      && forall l :: 0 <= l < LEVELS ==> Saved(r.value.levels[l]) == nowversion[l]
    }

    ghost predicate ScalarsKnown(ms: ManifestState)
      reads `log_number
    {
      ms.log == Some(log_number) && ms.next.Some? && ms.sequence.Some?
    }

    /** The logged edits accumulate to the version. */
    ghost predicate Agrees()
      requires EditsOk()
      reads `descriptor_log, `logged, `nowversion
    {
      forall l :: 0 <= l < LEVELS ==> Saved(StateNow(l)) == nowversion[l]
    }

    ghost predicate Valid()
      reads `compact_pointer, `nowversion, `log_number, `descriptor_log, `logged, descriptor_log
    {
      && |compact_pointer| == LEVELS && EditsOk() && Agrees()
      && (forall l :: 0 <= l < LEVELS ==> StrictFiles(nowversion[l]) && StrictFiles(StateNow(l).added))
      && (forall l :: 0 < l < LEVELS ==> Chained(nowversion[l]))
      && (descriptor_log != null ==> Holds() && ScalarsKnown(Folded(START, logged)))
    }

    /** The manifest gives the version exactly if its edits accumulate to it and each of them survives the log. */
    lemma GivesIff(next: uint64, sequence: uint64)
      requires descriptor_log != null && Holds() && ScalarsKnown(Folded(START, logged))
      ensures ManifestGives(next, sequence)
              <==> AllSurvive(0, logged) && Agrees()
                   && Folded(START, logged).next == Some(next) && Folded(START, logged).sequence == Some(sequence)
    {
      hide Emit, Replay, UsableUntilBad, ReadsAs, AllSurvive, Folded, Usable, Storable, ReadAll, SplitAll, Placed,
           Saved, Chained, StrictFiles;
      ManifestReadBack(crc, logged);
    }

    /** `log_number`, `next_file` and `last_sequence` as `LogAndApply` sets them on the edit. */
    function Completed(e: VersionEdit): VersionEdit
      reads this
    {
      e.(log := if e.log.Some? then e.log else Some(log_number),
         next := Some(next_file_number),
         sequence := Some(last_sequence))
    }

    /** The edits of the manifest once this one is written to it. */
    ghost function NextLogged(e: VersionEdit): seq<VersionEdit>
      requires |compact_pointer| == LEVELS
      reads this
    {
      (if descriptor_log == null then [SnapshotEdit(nowversion, NextPointers(compact_pointer, e.pointers))] else logged)
      + [Completed(e)]
    }

    /** No level reuses a file number. */
    ghost predicate CompatibleWith(e: VersionEdit)
      requires Usable(e) && EditsOk()
      reads `descriptor_log, `logged, `nowversion
    {
      forall l :: 0 <= l < LEVELS ==> Compatible(StateNow(l), NewsOf(e.added, l))
    }

    /** The edit can be read back: it and every edit before it in the manifest survive, and it reuses no number. */
    ghost predicate Faithful(e: VersionEdit)
      requires Usable(e) && EditsOk() && |compact_pointer| == LEVELS
      reads this
    {
      AllSurvive(0, NextLogged(e)) && CompatibleWith(e)
    }

    /**
     Installs an edit and logs it. The manifest afterwards reads back, in one builder and from nothing, as
     the very version that was installed if and only if the edit is faithful. A failed file operation
     leaves the version alone and closes the manifest; an overlap aborts.
     */
    method LogAndApply(e: VersionEdit, io: Io) returns (aborted: bool, state: State)
      requires Valid() && Usable(e) && Ascending(e.deleted)
      requires Sizes32(e) && SmallKeys(nowversion) && SmallPointers(compact_pointer)
      requires e.log.Some? ==> log_number <= e.log.value < next_file_number
      modifies this, descriptor_log
      ensures aborted <==> Overlapping(old(nowversion), e)
      ensures aborted ==>
                && nowversion == old(nowversion) && descriptor_log == old(descriptor_log) && logged == old(logged)
                && log_number == old(log_number)
      ensures !aborted && state != Ok ==>
                && nowversion == old(nowversion) && log_number == old(log_number) && descriptor_log == null
                && state == IoError
      ensures !aborted ==>
                (state == Ok <==> io.append && (old(descriptor_log) == null ==> io.create && io.snapshot && io.current))
      ensures !aborted && state == Ok ==>
                && (forall l :: 0 <= l < LEVELS ==> nowversion[l] == NextLevel(old(nowversion), e, l))
                && log_number == old(Completed(e)).log.value
                && descriptor_log != null && (descriptor_log == old(descriptor_log) || fresh(descriptor_log))
                && logged == old(NextLogged(e))
                && (ManifestGives(next_file_number, last_sequence) <==> old(Faithful(e)))
      ensures !aborted && (state == Ok ==> old(CompatibleWith(e))) ==> Valid()
      ensures next_file_number == old(next_file_number) && last_sequence == old(last_sequence)
      ensures compact_pointer == old(NextPointers(compact_pointer, e.pointers))
      ensures !aborted ==> EditsOk()
      ensures !aborted && state == Ok ==>
                forall l :: 0 <= l < LEVELS ==> StateNow(l) == ApplyEditAt(old(StateNow(l)), e, l)
    {
      hide SaveLevel, ApplyEditAt, Chained, SmallKeys, Compatible, AllSurvive, Storable, NextLevel, ManifestGives,
           Overlapping, Ascending, SmallPointers, EditsOk, Agrees, StrictFiles, Holds, ScalarsKnown, StateNow,
           SnapshotEdit, Sizes32;
      var edit := Completed(e);
      SameFiles(e);
      var v;
      aborted, v := BuildNext(edit);
      state := Ok;
      if !aborted {
        state := Commit(v, edit, io);
      }
    }

    /** The rest of `LogAndApply`: the file operations, then the new version or the closed manifest. */
    method Commit(v: Version, e: VersionEdit, io: Io) returns (state: State)
      requires Valid() && Usable(e) && Storable(e) && SmallKeys(nowversion) && SmallPointers(compact_pointer)
      requires e.log.Some? && e.next.Some? && e.sequence.Some?
      requires forall l :: 0 <= l < LEVELS ==> v[l] == NextLevel(nowversion, e, l)
      requires forall l :: 0 < l < LEVELS ==> Chained(v[l])
      modifies `nowversion, `log_number, `descriptor_log, `logged, descriptor_log
      ensures state == Ok <==> io.append && (old(descriptor_log) == null ==> io.create && io.snapshot && io.current)
      ensures state == Ok || state == IoError
      ensures state != Ok ==>
                nowversion == old(nowversion) && log_number == old(log_number) && descriptor_log == null && Valid()
      ensures state == Ok ==>
                && nowversion == v && log_number == e.log.value && logged == old(Base()) + [e]
                && descriptor_log != null && (descriptor_log == old(descriptor_log) || fresh(descriptor_log))
                && (old(CompatibleWith(e)) ==> Valid())
                && (ManifestGives(e.next.value, e.sequence.value) <==> AllSurvive(0, logged) && old(CompatibleWith(e)))
                && EditsOk() && forall l :: 0 <= l < LEVELS ==> StateNow(l) == ApplyEditAt(old(StateNow(l)), e, l)
    {
      hide SaveLevel, ApplyEditAt, Chained, SmallKeys, Compatible, AllSurvive, Storable, Usable, Base, NextLevel,
           ManifestGives,
           Folded, StrictFiles, Emit, Placed, SplitAll, Records, Saved, SmallPointers, ScalarsKnown, WalWriter.Valid;
      ghost var before := Base();
      BaseStates();
      state := WriteManifest(e, io);
      if state == Ok {
        Install(v, e, before);
      } else {
        descriptor_log := null;
        logged := [];
        Closed();
      }
    }

    /** The last lines of `LogAndApply` after all file operations succeeded. */
    method Install(v: Version, e: VersionEdit, ghost before: seq<VersionEdit>)
      requires |compact_pointer| == LEVELS && descriptor_log != null && Holds() && logged == before + [e]
      requires (forall x :: x in before ==> Usable(x)) && Usable(e)
      requires e.log.Some? && e.next.Some? && e.sequence.Some?
      requires forall l :: 0 <= l < LEVELS ==>
                 var st := Folded(START, before).levels[l];
                 StrictFiles(st.added) && Saved(st) == nowversion[l] && v[l] == NextLevel(nowversion, e, l)
      requires forall l :: 0 < l < LEVELS ==> Chained(v[l])
      modifies `nowversion, `log_number
      ensures nowversion == v && log_number == e.log.value && EditsOk()
      ensures var compatible := forall l :: 0 <= l < LEVELS ==>
                Compatible(Folded(START, before).levels[l], NewsOf(e.added, l));
              && (compatible ==> Valid())
              && (ManifestGives(e.next.value, e.sequence.value) <==> AllSurvive(0, logged) && compatible)
      ensures forall l :: 0 <= l < LEVELS ==> StateNow(l) == ApplyEditAt(Folded(START, before).levels[l], e, l)
    {
      ghost var was := nowversion;
      nowversion := v;
      log_number := e.log.value;
      hide SaveLevel, ApplyEditAt, Chained, Compatible, AllSurvive, Storable, ManifestGives, Folded, StrictFiles, Emit,
           Placed, SplitAll, Saved;
      Installed(before, e, was);
    }

    /** The open manifest only adds files to level 0. */
    ghost predicate Grows()
      requires EditsOk()
      reads `descriptor_log, `logged, `nowversion
    {
      descriptor_log != null ==> Growing(START, logged, nowversion[0])
    }

    /** So does what the next edit comes behind, and it lags behind a version with one more file. */
    lemma BaseGrows(more: Files)
      requires Valid() && Grows() && SmallPointers(compact_pointer) && SmallKeys(nowversion)
      requires (forall l :: 0 < l < LEVELS ==> nowversion[l] == [])
               && (descriptor_log != null ==> Misses(nowversion[0], more))
      ensures AllUsable(Base()) && Growing(START, Base(), nowversion[0]) && Lags(Folded(START, Base()), more)
    {
      hide SnapshotEdit, StrictFiles, SmallKeys, Usable, Storable, Folded, SmallPointers, Saved, Holds, IsSnapshot;
      if descriptor_log == null {
        SnapshotReplays(nowversion, compact_pointer);
        GrowingSnapshot(SnapshotEdit(nowversion, compact_pointer), nowversion, nowversion[0]);
        GrowingSnapshot(SnapshotEdit(nowversion, compact_pointer), nowversion, more);
      }
    }

    /** Without a manifest the accumulated state is the version itself. */
    lemma Closed()
      requires descriptor_log == null && logged == [] && |compact_pointer| == LEVELS
      requires forall l :: 0 <= l < LEVELS ==> StrictFiles(nowversion[l])
      requires forall l :: 0 < l < LEVELS ==> Chained(nowversion[l])
      ensures Valid()
    {
      forall l | 0 <= l < LEVELS ensures Saved(StateNow(l)) == nowversion[l] {
        SavedSnapshot(nowversion[l]);
      }
    }

    /** The new version and the longer manifest go together. */
    lemma Installed(before: seq<VersionEdit>, e: VersionEdit, was: Version)
      requires |compact_pointer| == LEVELS && descriptor_log != null && Holds() && logged == before + [e]
      requires (forall x :: x in before ==> Usable(x)) && Usable(e)
      requires e.log == Some(log_number) && e.next.Some? && e.sequence.Some?
      requires forall l :: 0 <= l < LEVELS ==>
                 var st := Folded(START, before).levels[l];
                 StrictFiles(st.added) && Saved(st) == was[l] && nowversion[l] == NextLevel(was, e, l)
      requires forall l :: 0 < l < LEVELS ==> Chained(nowversion[l])
      ensures var compatible := forall l :: 0 <= l < LEVELS ==>
                Compatible(Folded(START, before).levels[l], NewsOf(e.added, l));
              && (compatible ==> Valid())
              && (ManifestGives(e.next.value, e.sequence.value) <==> AllSurvive(0, logged) && compatible)
      ensures forall l :: 0 <= l < LEVELS ==> StateNow(l) == ApplyEditAt(Folded(START, before).levels[l], e, l)
    {
      hide SaveLevel, Chained, Compatible, AllSurvive, Storable, ManifestGives, Folded, StrictFiles, ApplyLevel, Saved,
           Tagged, Emit, Placed, SplitAll;
      EditAdds(before, e);
      GivesIff(e.next.value, e.sequence.value);
      forall l | 0 <= l < LEVELS
        ensures Saved(StateNow(l)) == nowversion[l] <==> Compatible(Folded(START, before).levels[l], NewsOf(e.added, l))
        ensures Saved(StateNow(l)) == nowversion[l] ==> StrictFiles(nowversion[l])
      {
        SavedMembers(StateNow(l));
      }
    }

    /** The edits that come before the next one: those logged, or the snapshot that a new manifest begins with. */
    ghost function Base(): seq<VersionEdit>
      requires |compact_pointer| == LEVELS
      reads `descriptor_log, `logged, `nowversion, `compact_pointer
    {
      if descriptor_log == null then [SnapshotEdit(nowversion, compact_pointer)] else logged
    }

    lemma BaseStates()
      requires Valid() && SmallPointers(compact_pointer) && SmallKeys(nowversion)
      ensures forall e :: e in Base() ==> Usable(e) && Storable(e)
      ensures forall l :: 0 <= l < LEVELS ==>
                var st := Folded(START, Base()).levels[l];
                st == StateNow(l) && StrictFiles(st.added) && Saved(st) == nowversion[l]
    {
      hide SnapshotEdit, StrictFiles, SmallKeys, Usable, Storable, Folded;
      if descriptor_log == null {
        SnapshotReplays(nowversion, compact_pointer);
        FoldedOne(START, SnapshotEdit(nowversion, compact_pointer));
        assert forall l :: 0 <= l < LEVELS ==> Saved(LevelState({}, nowversion[l])) == nowversion[l];
      }
    }

    lemma SameFiles(e: VersionEdit)
      requires Usable(e)
      ensures Usable(Completed(e)) && (Overlapping(nowversion, Completed(e)) <==> Overlapping(nowversion, e))
      ensures Sizes32(e) && Ascending(e.deleted) ==> Storable(Completed(e))
      ensures forall l :: 0 <= l < LEVELS ==> NextLevel(nowversion, Completed(e), l) == NextLevel(nowversion, e, l)
      ensures forall st, l :: 0 <= l < LEVELS ==> ApplyEditAt(st, Completed(e), l) == ApplyEditAt(st, e, l)
    {
      assert Usable(Completed(e));
      assert forall l :: 0 <= l < LEVELS ==> NextLevel(nowversion, Completed(e), l) == NextLevel(nowversion, e, l);
    }

    /** The new version: a builder over the current one, the edit, and `SaveTo`. */
    method BuildNext(e: VersionEdit) returns (aborted: bool, v: Version)
      requires |compact_pointer| == LEVELS && Usable(e)
      modifies this`compact_pointer
      ensures |compact_pointer| == LEVELS && (old(Valid()) ==> Valid())
      ensures compact_pointer == NextPointers(old(compact_pointer), e.pointers)
      ensures old(SmallPointers(compact_pointer)) && Sizes32(e) ==> SmallPointers(compact_pointer)
      ensures aborted <==> Overlapping(nowversion, e)
      ensures !aborted ==> forall l :: 0 <= l < LEVELS ==> v[l] == NextLevel(nowversion, e, l)
      ensures !aborted ==> forall l :: 0 < l < LEVELS ==> Chained(v[l])
    {
      hide SaveLevel, Chained, StrictFiles, ScalarsKnown, SmallPointers, Agrees, Holds, StateNow;
      var builder := new VersionBuilder(nowversion);
      compact_pointer := builder.Apply(e, compact_pointer);
      assert forall l :: 0 <= l < LEVELS ==>
          SaveLevel(builder.base[l], builder.levels[l]) == NextLevel(nowversion, e, l);
      aborted, v := builder.SaveTo();
    }

    /** The file operations of `LogAndApply`: a new manifest with a snapshot if none is open, then the edit's record. */
    method WriteManifest(edit: VersionEdit, io: Io) returns (state: State)
      requires |compact_pointer| == LEVELS && (descriptor_log != null ==> Holds()) && Usable(edit) && Storable(edit)
      requires forall e :: e in Base() ==> Usable(e) && Storable(e)
      modifies `descriptor_log, `logged, descriptor_log
      ensures state == Ok <==> io.append && (old(descriptor_log) == null ==> io.create && io.snapshot && io.current)
      ensures state == Ok || state == IoError
      ensures state == Ok ==> Holds() && logged == old(Base()) + [edit]
      ensures state == Ok ==> descriptor_log == old(descriptor_log) || fresh(descriptor_log)
    {
      hide Placed, Emit, SplitAll, SnapshotEdit, Records, Usable, Storable, WalWriter.Valid;
      state := Ok;
      var fresh_manifest := descriptor_log == null;
      if fresh_manifest {
        state := OpenManifest(io);
      }
      if state == Ok {
        AppendEdit(edit);
        state := if io.append then Ok else IoError;
      }
      if state == Ok && fresh_manifest && !io.current {
        state := IoError;
      }
    }

    /** A new manifest file, with the current version as its first record. */
    method OpenManifest(io: Io) returns (state: State)
      requires |compact_pointer| == LEVELS && Usable(SnapshotEdit(nowversion, compact_pointer))
               && Storable(SnapshotEdit(nowversion, compact_pointer))
      modifies `descriptor_log, `logged
      ensures state == Ok <==> io.create && io.snapshot
      ensures state == Ok || state == IoError
      ensures state == Ok ==> fresh(descriptor_log) && Holds() && logged == [SnapshotEdit(nowversion, compact_pointer)]
    {
      hide SnapshotEdit, Usable, Storable, WalWriter.Valid, Emit, Placed, SplitAll, Records, EditsOk;
      if !io.create {
        return IoError;
      }
      CreateManifest();
      AppendEdit(SnapshotEdit(nowversion, compact_pointer));
      state := if io.snapshot then Ok else IoError;
    }

    method CreateManifest()
      modifies `descriptor_log, `logged
      ensures fresh(descriptor_log) && Holds() && logged == []
    {
      descriptor_log := new WalWriter(crc);
      logged := [];
    }

    /** `EncodeTo` and `Appendrecord`. */
    method AppendEdit(e: VersionEdit)
      requires Holds() && Usable(e) && Storable(e)
      modifies `logged, descriptor_log
      ensures Holds() && logged == old(logged) + [e]
    {
      hide Placed, Emit, SplitAll, Split, Storable, Usable, Map, EncodedEdit;
      var record := EncodeTo(e, []);
      assert record == EncodedEdit(e);
      LogGrows(crc, Records(logged), record);
      descriptor_log.Appendrecord(record);
      assert Records(logged + [e]) == Records(logged) + [record];
      logged := logged + [e];
    }

    /**
     Recovery from a manifest file, by a version set that starts out empty: one builder takes every record
     that the reader gets. The recovered version is returned; the scalars are installed. `last` is how the
     reading ended. `short` is a record with a file key that has no room for a tag: what its comparison does
     is undefined, and the model goes no further.
     */
    method Recover(file: seq<byte>)
      returns (short: bool, aborted: bool, state: State, v: Version, last: PhysicalResult)
      requires |compact_pointer| == LEVELS && nowversion == EMPTY_VERSION
      modifies `compact_pointer, `next_file_number, `last_sequence, `log_number
      ensures compact_pointer == old(compact_pointer)
      ensures short <==> !UsableUntilBad(ReadAll(crc, true, file, 0).0)
      ensures !short ==>
                var r := Replay(START, ReadAll(crc, true, file, 0).0);
                && (state == Ok <==> r.Some? && Complete(r.value)) && (state != Ok ==> state == Corruption)
                && (aborted <==> r.Some? && Complete(r.value) && Aborts(r.value))
      ensures !short && !aborted && state == Ok ==>
                var ms := Replay(START, ReadAll(crc, true, file, 0).0).value;
                && (forall l :: 0 <= l < LEVELS ==> v[l] == Saved(ms.levels[l]))
                && log_number == ms.log.value && last_sequence == ms.sequence.value
                && next_file_number == (ms.next.value + 1) % UINT64_LIMIT
      ensures short || state != Ok ==> log_number == old(log_number) && last_sequence == old(last_sequence)
      ensures short || Replay(START, ReadAll(crc, true, file, 0).0).None? ==> next_file_number == old(next_file_number)
      ensures !short && state != Ok && Replay(START, ReadAll(crc, true, file, 0).0).Some? ==>
                next_file_number == old(if next_file_number <= log_number then (log_number + 1) % UINT64_LIMIT
                                        else next_file_number)
      ensures !short && Replay(START, ReadAll(crc, true, file, 0).0).Some? ==>
                Got(false, [], last, [], ReadAll(crc, true, file, 0).1)
    {
      hide Replay, ReadAll, SaveLevel, Chained, Usable, UsableUntilBad, Got;
      v, aborted := EMPTY_VERSION, false;
      var builder := new VersionBuilder(nowversion);
      var scalars;
      short, state, scalars, last := ReadManifest(builder, file);
      if short {
        return;
      }
      if state == Ok {
        if scalars.next.None? || scalars.log.None? || scalars.sequence.None? {
          state := Corruption;
        }
        if next_file_number <= log_number {
          next_file_number := (log_number + 1) % UINT64_LIMIT;
        }
      }
      if state == Ok {
        aborted, v := builder.SaveTo();
        assert forall l :: 0 <= l < LEVELS ==> builder.base[l] == [];
        assert forall l :: 0 <= l < LEVELS ==>
            SaveLevel(builder.base[l], builder.levels[l]) == Saved(builder.levels[l]);
        next_file_number := (scalars.next.value + 1) % UINT64_LIMIT;
        last_sequence := scalars.sequence.value;
        log_number := scalars.log.value;
      }
    }

    /** The body of the record loop of `Recover`: one record on top of the others. */
    method TakeRecord(builder: VersionBuilder, record: seq<byte>, was: Scalars, ghost rest: seq<seq<byte>>)
      returns (short: bool, state: State, now: Scalars)
      requires |builder.levels| == LEVELS && |compact_pointer| == LEVELS && rest != [] && record == rest[0]
      modifies builder, this`compact_pointer
      ensures |builder.levels| == LEVELS && compact_pointer == old(compact_pointer)
              && (state == Ok || state == Corruption)
      ensures UsableUntilBad(rest) <==> !short && (state == Ok ==> UsableUntilBad(rest[1..]))
      ensures !short ==>
                Replay(StateOf(old(builder.levels), was), rest)
                == if state == Ok then Replay(StateOf(builder.levels, now), rest[1..]) else None
    {
      ReplayNext(StateOf(builder.levels, was), rest);
      hide Replay, UsableUntilBad, Usable;
      short, now := false, was;
      var edit;
      state, edit := DecodeFrom(record);
      DecodedPointers(EMPTY_EDIT, record);
      if state == Ok {
        if !Usable(edit) {
          return true, state, now;
        }
        compact_pointer := builder.Apply(edit, compact_pointer);
        now := Scalars(Newest(edit.log, was.log), Newest(edit.next, was.next), Newest(edit.sequence, was.sequence));
        assert builder.levels == ApplyEdit(StateOf(old(builder.levels), was), edit).levels;
      }
    }

    /** The record loop of `Recover`. */
    method ReadManifest(builder: VersionBuilder, file: seq<byte>)
      returns (short: bool, state: State, scalars: Scalars, last: PhysicalResult)
      requires |compact_pointer| == LEVELS && builder.levels == START.levels
      modifies builder, this`compact_pointer
      ensures |builder.levels| == LEVELS && compact_pointer == old(compact_pointer)
      ensures state == Ok || state == Corruption
      ensures short <==> !UsableUntilBad(ReadAll(crc, true, file, 0).0)
      ensures !short ==>
                Replay(START, ReadAll(crc, true, file, 0).0)
                == if state == Ok then Some(StateOf(builder.levels, scalars)) else None
      ensures !short && state == Ok ==> Got(false, [], last, [], ReadAll(crc, true, file, 0).1)
    {
      hide ReadAll, InFront, Replay, UsableUntilBad, Got;
      ghost var (rest, ending) := ReadAll(crc, true, file, 0);
      ghost var all, usable := Replay(START, rest), UsableUntilBad(rest);
      short, state, scalars := false, Ok, Scalars(None, None, None);
      var reader := OpenLog(crc, file);
      var ok, record;
      ok, record, last := NextRecord(reader, rest, ending);
      while ok && state == Ok
        invariant |builder.levels| == LEVELS && compact_pointer == old(compact_pointer) && fresh(reader)
        invariant state == Ok || state == Corruption
        invariant !short && (state == Ok ==> Read(reader, ok, record, last, rest, ending))
        invariant usable <==> state == Ok ==> UsableUntilBad(rest)
        invariant all == if state == Ok then Replay(StateOf(builder.levels, scalars), rest) else None
        decreases |rest|
      {
        GotOne(ok, record, last, rest, ending);
        short, state, scalars := TakeRecord(builder, record, scalars, rest);
        if short {
          return;
        }
        rest := rest[1..];
        ok, record, last := NextRecord(reader, rest, ending);
      }
      if state == Ok {
        GotNone(ok, record, last, rest, ending);
        NothingLeft(StateOf(builder.levels, scalars));
      }
    }
  }

  lemma ReplayNext(ms: ManifestState, records: seq<seq<byte>>)
    requires |ms.levels| == LEVELS && records != []
    ensures match Decoded(EMPTY_EDIT, records[0])
            case None => UsableUntilBad(records) && Replay(ms, records) == None
            case Some(e) =>
              && (UsableUntilBad(records) <==> Usable(e) && UsableUntilBad(records[1..]))
              && (Usable(e) ==> Replay(ms, records) == Replay(ApplyEdit(ms, e), records[1..]))
  {
  }

  /**
   Recovery from the manifest of a valid version set. If every logged edit survives the log, it gives back
   the version and the log number. Otherwise the first edit that does not decides: recovery fails, or gives
   the state before that edit.
   */
  method RecoverFromManifest(running: VersionSet, restarted: VersionSet)
    returns (aborted: bool, state: State, v: Version, last: PhysicalResult)
    requires running.Valid() && running.descriptor_log != null && running != restarted && restarted.crc == running.crc
    requires |restarted.compact_pointer| == LEVELS && restarted.nowversion == EMPTY_VERSION
    modifies restarted
    ensures AllSurvive(0, running.logged) ==>
              && !aborted && state == Ok && v == running.nowversion && restarted.log_number == running.log_number
              && (if |running.descriptor_log.file| % BLOCK == 0 then last.Undefined? else last.Eof?)
    ensures state == Ok && (last.Eof? || last.Undefined?) ==> AllSurvive(0, running.logged)
    ensures match ReadsAs(0, START, running.logged)
            case None => !aborted && state == Corruption
            case Some(ms) =>
              && state == (if Complete(ms) then Ok else Corruption) && (aborted <==> Complete(ms) && Aborts(ms))
              && (!aborted && state == Ok ==>
                    && (forall l :: 0 <= l < LEVELS ==> v[l] == Saved(ms.levels[l]))
                    && restarted.log_number == ms.log.value && restarted.last_sequence == ms.sequence.value
                    && restarted.next_file_number == (ms.next.value + 1) % UINT64_LIMIT)
  {
    hide Replay, ReadAll, Chained, StrictFiles, Usable, Storable, UsableUntilBad, AllSurvive, ReadsAs, Folded, Emit,
         SplitAll, Placed, Saved;
    ManifestReadBack(running.crc, running.logged);
    var short;
    short, aborted, state, v, last := restarted.Recover(running.descriptor_log.file);
    if AllSurvive(0, running.logged) {
      assert Folded(START, running.logged).log == Some(running.log_number);
      assert forall l :: 0 <= l < LEVELS ==> Saved(Folded(START, running.logged).levels[l]) == running.nowversion[l];
    }
  }

  /** How recovery ends, and with which levels, if what it reads leads to this state. */
  ghost predicate EndsAs(r: Option<ManifestState>, state: State, v: Version) {
    match r
    case None => state == Corruption
    case Some(ms) =>
      && |ms.levels| == LEVELS && state == (if Complete(ms) then Ok else Corruption)
      && (state == Ok ==> forall l :: 0 <= l < LEVELS ==> v[l] == Saved(ms.levels[l]))
  }

  /**
   The trivial move of `BackgroundCompaction` deletes a file and adds it again on the same level. The level
   then lists it twice, which above level 0 is an overlap and aborts; replaying the manifest lists it once.
   */
  lemma TrivialMove(level: Files, f: FileMeta)
    requires StrictFiles(level) && f in level && !Lt(f.largest, f.smallest)
    ensures var moved := SaveLevel(level, ApplyLevel(NO_CHANGE, {f.num}, [f]));
            multiset(moved)[f] == 2 && !Chained(moved)
    ensures !Compatible(LevelState({}, level), [f])
  {
    var one := ApplyLevel(NO_CHANGE, {f.num}, [f]);
    StateMembers(NO_CHANGE, {f.num}, [f]);
    assert FirstIn([f], f) && NoKey(NO_CHANGE.added, f) && f.num in Nums([f]);
    StrictCount(level, f);
    StrictCount(one.added, f);
    StrictIsSorted(level);
    SaveLevelCorrect(level, one);
    TwiceIsNotChained(SaveLevel(level, one), f);
  }
}
