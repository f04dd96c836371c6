/**
 What installing the results of a compaction does to a version: the input files give way to files that hold
 the kept entries, one level deeper (src/db/db.cpp, src/db/version_set.cpp).
 */
module CompactionResults {
  import opened Common
  import opened Keys
  import opened Lookup
  import opened Compaction
  import B = Builder
  import E = EditCodec
  import M = Manifest
  import V = Version

  // ---------------------------------------------------------------- the edit

  /** The inputs, by number, leave the two levels; the outputs join the deeper one. Other levels stay as they are. */
  ghost predicate Replaces(v: V.Levels, w: V.Levels, level: nat, in0: set<uint64>, in1: set<uint64>, outs: B.Files)
    requires level + 1 < V.LEVELS
  {
    && (forall l :: 0 <= l < V.LEVELS && l != level && l != level + 1 ==> w[l] == v[l])
    && B.StrictFiles(w[level]) && (forall f :: f in w[level] <==> f in v[level] && f.num !in in0)
    && B.StrictFiles(w[level + 1])
    && (forall f :: f in w[level + 1] <==> (f in v[level + 1] && f.num !in in1) || f in outs)
    && (forall l :: 0 < l < V.LEVELS ==> B.Chained(w[l]))
  }

  /** An edit that deletes the inputs and adds the outputs. */
  ghost predicate ResultsEdit(e: E.VersionEdit, level: nat, in0: set<uint64>, in1: set<uint64>, outs: B.Files) {
    && M.Usable(e)
    && forall l :: 0 <= l < V.LEVELS ==>
         && M.DelsOf(e.deleted, l) == (if l == level then in0 else if l == level + 1 then in1 else {})
         && M.NewsOf(e.added, l) == (if l == level + 1 then outs else [])
  }

  lemma Untouched(files: B.Files)
    ensures B.SaveLevel(files, B.ApplyLevel(B.NO_CHANGE, {}, [])) == files
  {
    B.KeptNothing(files);
    assert {} + {} == B.NO_CHANGE.deleted;
  }

  /** One level of the new version: what is not deleted, and the new files under numbers nothing had. */
  lemma LevelResult(files: B.Files, gone: set<uint64>, outs: B.Files)
    requires B.StrictFiles(files) && B.StrictFiles(outs)
    requires forall f :: f in outs ==> f.num !in gone && f.num !in B.Nums(files)
    ensures var r := B.SaveLevel(files, B.ApplyLevel(B.NO_CHANGE, gone, outs));
            B.StrictFiles(r) && forall f :: f in r <==> (f in files && f.num !in gone) || f in outs
  {
    var st := B.ApplyLevel(B.NO_CHANGE, gone, outs);
    B.StateMembers(B.NO_CHANGE, gone, outs);
    assert B.NO_CHANGE.deleted + gone == gone;
    M.AddStrict(outs);
    forall g ensures g in st.added <==> g in outs {
      if g in outs {
        B.FirstOfKey(outs, g);
        var h :| h in outs && B.SameKey(h, g) && B.FirstIn(outs, h);
        StrictKeys(outs, g, h);
      } else if B.FirstIn(outs, g) {
        B.FirstInMember(outs, g);
      }
    }
    B.StrictIsSorted(files);
    B.SaveLevelCorrect(files, st);
    B.SaveLevelOnce(files, st);
  }

  lemma StrictKeys(files: B.Files, f: B.FileMeta, g: B.FileMeta)
    requires B.StrictFiles(files) && f in files && g in files && B.SameKey(f, g)
    ensures f == g
  {
    B.FileOrder();
  }

  /** Installing the edit replaces inputs by outputs, unless levels above 0 then overlap, which aborts. */
  lemma EditReplaces(v: V.Levels, w: V.Levels, e: E.VersionEdit, level: nat, in0: set<uint64>, in1: set<uint64>,
                     outs: B.Files)
    requires level + 1 < V.LEVELS && ResultsEdit(e, level, in0, in1, outs) && B.StrictFiles(outs)
    requires forall l :: 0 <= l < V.LEVELS ==> B.StrictFiles(v[l])
    requires forall l :: 0 <= l < V.LEVELS ==> w[l] == M.NextLevel(v, e, l)
    requires forall l :: 0 < l < V.LEVELS ==> B.Chained(w[l])
    requires forall f :: f in outs ==> f.num !in in1 && f.num !in B.Nums(v[level + 1])
    ensures Replaces(v, w, level, in0, in1, outs)
  {
    hide B.SaveLevel, B.ApplyLevel, B.StrictFiles, B.Chained, M.Usable;
    forall l | 0 <= l < V.LEVELS && l != level && l != level + 1 ensures w[l] == v[l] {
      Untouched(v[l]);
    }
    EmptyStrict();
    LevelResult(v[level], in0, []);
    LevelResult(v[level + 1], in1, outs);
  }

  lemma EmptyStrict()
    ensures B.StrictFiles([])
  {
  }

  // ---------------------------------------------------------------- the entries

  /** Entries of the files with, and without, these numbers. */
  ghost function Of(files: B.Files, tables: V.Tables, nums: set<uint64>, inside: bool): set<Entry> {
    set i, e | 0 <= i < |files| && (files[i].num in nums <==> inside) && e in V.FileEntries(files[i], tables) :: e
  }

  lemma InAndOut(files: B.Files, tables: V.Tables, nums: set<uint64>)
    ensures V.LevelEntries(files, tables) == Of(files, tables, nums, true) + Of(files, tables, nums, false)
  {
  }

  /** The entries of the inputs of a compaction, and of the files beside them. */
  ghost function Inputs(v: V.Levels, tables: V.Tables, level: nat, in0: set<uint64>, in1: set<uint64>): set<Entry>
    requires level + 1 < V.LEVELS
  {
    Of(v[level], tables, in0, true) + Of(v[level + 1], tables, in1, true)
  }

  ghost function Beside(v: V.Levels, tables: V.Tables, level: nat, in0: set<uint64>, in1: set<uint64>): set<Entry>
    requires level + 1 < V.LEVELS
  {
    Of(v[level], tables, in0, false) + Of(v[level + 1], tables, in1, false)
  }

  /** The levels above the given one. */
  ghost function Above(v: V.Levels, tables: V.Tables, level: nat): set<Entry>
    requires level <= V.LEVELS
  {
    if level == 0 then {} else Above(v, tables, level - 1) + V.LevelEntries(v[level - 1], tables)
  }

  lemma {:induction false} AboveAndFrom(v: V.Levels, tables: V.Tables, level: nat)
    requires level <= V.LEVELS
    ensures V.EntriesFrom(v, tables, 0) == Above(v, tables, level) + V.EntriesFrom(v, tables, level)
  {
    if level > 0 {
      AboveAndFrom(v, tables, level - 1);
    }
  }

  lemma {:induction false} AboveNewer(v: V.Levels, tables: V.Tables, level: nat, at: nat)
    requires at <= level <= V.LEVELS && V.VersionOk(v, tables)
    ensures Newer(Above(v, tables, at), V.EntriesFrom(v, tables, level))
    decreases at
  {
    hide V.LevelEntries, V.VersionOk, V.EntriesFrom, Newer;
    if at > 0 {
      LevelNewer(v, tables, at - 1);
      AboveNewer(v, tables, level, at - 1);
      FromShrinks(v, tables, at, level);
      var last, below := V.LevelEntries(v[at - 1], tables), V.EntriesFrom(v, tables, level);
      NewerSubsets(last, V.EntriesFrom(v, tables, at), last, below);
      NewerUnion(below, Above(v, tables, at - 1), last);
    } else {
      NothingNewer(V.EntriesFrom(v, tables, level));
    }
  }

  lemma LevelNewer(v: V.Levels, tables: V.Tables, l: nat)
    requires V.VersionOk(v, tables) && l < V.LEVELS
    ensures Newer(V.LevelEntries(v[l], tables), V.EntriesFrom(v, tables, l + 1))
  {
  }

  lemma NothingNewer(s: set<Entry>)
    ensures Newer({}, s)
  {
  }

  lemma {:induction false} FromShrinks(v: V.Levels, tables: V.Tables, from: nat, to: nat)
    requires from <= to <= V.LEVELS
    ensures V.EntriesFrom(v, tables, to) <= V.EntriesFrom(v, tables, from)
    decreases V.LEVELS - from
  {
    if from < to {
      FromShrinks(v, tables, from + 1, to);
    }
  }

  /** Files that stay keep their tables. */
  ghost predicate SameTables(v: V.Levels, w: V.Levels, tables: V.Tables, now: V.Tables) {
    forall l, f :: 0 <= l < V.LEVELS && f in v[l] && f in w[l] ==>
        f.num in tables && f.num in now && now[f.num] == tables[f.num]
  }

  lemma SameEntries(files: B.Files, tables: V.Tables, now: V.Tables)
    requires forall f :: f in files ==> V.FileEntries(f, now) == V.FileEntries(f, tables)
    ensures V.LevelEntries(files, now) == V.LevelEntries(files, tables)
  {
    assert forall i :: 0 <= i < |files| ==> files[i] in files;
  }

  /** A level whose files are those of another without these numbers, and some more. */
  lemma Remaining(files: B.Files, kept: B.Files, outs: B.Files, tables: V.Tables, now: V.Tables, nums: set<uint64>)
    requires forall f :: f in kept <==> (f in files && f.num !in nums) || f in outs
    requires forall f :: f in files && f in kept ==> V.FileEntries(f, now) == V.FileEntries(f, tables)
    ensures V.LevelEntries(kept, now) == Of(files, tables, nums, false) + V.LevelEntries(outs, now)
  {
    var rest := Of(files, tables, nums, false);
    forall e ensures e in V.LevelEntries(kept, now) <==> e in rest || e in V.LevelEntries(outs, now) {
      if e in V.LevelEntries(kept, now) {
        var i :| 0 <= i < |kept| && e in V.FileEntries(kept[i], now);
        assert kept[i] in kept;
        if kept[i] in outs {
          var j :| 0 <= j < |outs| && outs[j] == kept[i];
        } else {
          var j :| 0 <= j < |files| && files[j] == kept[i];
        }
      }
      if e in rest {
        var i :| 0 <= i < |files| && files[i].num !in nums && e in V.FileEntries(files[i], tables);
        assert files[i] in files && files[i] in kept;
        var j :| 0 <= j < |kept| && kept[j] == files[i];
      }
      if e in V.LevelEntries(outs, now) {
        var i :| 0 <= i < |outs| && e in V.FileEntries(outs[i], now);
        assert outs[i] in outs && outs[i] in kept;
        var j :| 0 <= j < |kept| && kept[j] == outs[i];
      }
    }
  }

  /** The output file of `DoCompactionWork`, with the bounds that the loop records, holds what was kept. */
  lemma OutputFile(f: B.FileMeta, table: seq<Entry>, now: V.Tables)
    requires table != [] && Sorted(table) && (forall k :: 0 <= k < |table| ==> Parsed(table[k]))
    requires f.num in now && now[f.num] == table && f.smallest == table[0].key && f.largest == table[|table| - 1].key
    ensures V.TableOk(f, now) && B.StrictFiles([f]) && B.Chained([f]) && V.LevelEntries([f], now) == Entries(table)
  {
    var files := [f];
    assert files[0] == f;
    forall e ensures e in V.LevelEntries(files, now) <==> e in Entries(table) {
      assert e in V.FileEntries(files[0], now) <==> e in Entries(table);
    }
  }

  // ---------------------------------------------------------------- the version after a compaction

  /**
   The version w has, in place of the input files, files that hold exactly the entries the compaction keeps
   of their merge. Files beside the inputs hold only newer entries of the inputs' user keys.
   */
  ghost predicate Compacted(v: V.Levels, w: V.Levels, tables: V.Tables, now: V.Tables, level: nat,
                            in0: set<uint64>, in1: set<uint64>, outs: B.Files, input: seq<Entry>, snap: nat)
  {
    && level + 1 < V.LEVELS && Replaces(v, w, level, in0, in1, outs) && SameTables(v, w, tables, now)
    && Sorted(input) && (forall k :: 0 <= k < |input| ==> Parsed(input[k]))
    && Entries(input) == Inputs(v, tables, level, in0, in1) && Newer(Beside(v, tables, level, in0, in1), Entries(input))
    && (forall f :: f in outs ==> V.TableOk(f, now))
    && V.LevelEntries(outs, now) == Entries(Kept(input, |input|, snap, v, level))
  }

  /** The entries of the two levels before and after. */
  lemma TwoLevels(v: V.Levels, w: V.Levels, tables: V.Tables, now: V.Tables, level: nat,
                  in0: set<uint64>, in1: set<uint64>, outs: B.Files)
    requires level + 1 < V.LEVELS && Replaces(v, w, level, in0, in1, outs) && SameTables(v, w, tables, now)
    ensures V.LevelEntries(w[level], now) == Of(v[level], tables, in0, false)
    ensures V.LevelEntries(w[level + 1], now) == Of(v[level + 1], tables, in1, false) + V.LevelEntries(outs, now)
  {
    hide V.LevelEntries, Of, B.Chained, B.StrictFiles;
    Remaining(v[level], w[level], [], tables, now, in0);
    Remaining(v[level + 1], w[level + 1], outs, tables, now, in1);
    NoEntries(now);
  }

  lemma NoEntries(tables: V.Tables)
    ensures V.LevelEntries([], tables) == {}
  {
  }

  lemma OtherLevel(v: V.Levels, w: V.Levels, tables: V.Tables, now: V.Tables, level: nat,
                   in0: set<uint64>, in1: set<uint64>, outs: B.Files, l: nat)
    requires level + 1 < V.LEVELS && Replaces(v, w, level, in0, in1, outs) && SameTables(v, w, tables, now)
    requires l < V.LEVELS && l != level && l != level + 1
    ensures V.LevelEntries(w[l], now) == V.LevelEntries(v[l], tables)
  {
    assert w[l] == v[l];
    SameEntries(v[l], tables, now);
  }

  lemma {:induction false} DeeperSame(v: V.Levels, w: V.Levels, tables: V.Tables, now: V.Tables, level: nat,
                                      in0: set<uint64>, in1: set<uint64>, outs: B.Files, l: nat)
    requires level + 1 < V.LEVELS && Replaces(v, w, level, in0, in1, outs) && SameTables(v, w, tables, now)
    requires level + 2 <= l <= V.LEVELS
    ensures V.EntriesFrom(w, now, l) == V.EntriesFrom(v, tables, l)
    decreases V.LEVELS - l
  {
    if l < V.LEVELS {
      hide Replaces, SameTables, V.LevelEntries;
      OtherLevel(v, w, tables, now, level, in0, in1, outs, l);
      DeeperSame(v, w, tables, now, level, in0, in1, outs, l + 1);
    }
  }

  lemma {:induction false} AboveSame(v: V.Levels, w: V.Levels, tables: V.Tables, now: V.Tables, level: nat,
                                     in0: set<uint64>, in1: set<uint64>, outs: B.Files, l: nat)
    requires level + 1 < V.LEVELS && Replaces(v, w, level, in0, in1, outs) && SameTables(v, w, tables, now)
    requires l <= level
    ensures Above(w, now, l) == Above(v, tables, l)
  {
    if l > 0 {
      hide Replaces, SameTables, V.LevelEntries;
      OtherLevel(v, w, tables, now, level, in0, in1, outs, l - 1);
      AboveSame(v, w, tables, now, level, in0, in1, outs, l - 1);
    }
  }

  /** All entries of both versions, in the parts that matter. */
  lemma Parts(v: V.Levels, w: V.Levels, tables: V.Tables, now: V.Tables, level: nat,
              in0: set<uint64>, in1: set<uint64>, outs: B.Files, input: seq<Entry>, snap: nat)
    requires Compacted(v, w, tables, now, level, in0, in1, outs, input, snap)
    ensures var beside, deeper := Beside(v, tables, level, in0, in1), V.EntriesFrom(v, tables, level + 2);
            && V.EntriesFrom(v, tables, level) == beside + Entries(input) + deeper
            && V.EntriesFrom(w, now, level) == beside + Entries(Kept(input, |input|, snap, v, level)) + deeper
  {
    hide V.LevelEntries, Of, Replaces, SameTables, Sorted, Parsed, Kept, Newer, Entries;
    TwoLevels(v, w, tables, now, level, in0, in1, outs);
    DeeperSame(v, w, tables, now, level, in0, in1, outs, level + 2);
    InAndOut(v[level], tables, in0);
    InAndOut(v[level + 1], tables, in1);
    assert V.EntriesFrom(v, tables, level)
        == V.LevelEntries(v[level], tables)
          + (V.LevelEntries(v[level + 1], tables) + V.EntriesFrom(v, tables, level + 2));
    assert V.EntriesFrom(w, now, level)
        == V.LevelEntries(w[level], now) + (V.LevelEntries(w[level + 1], now) + V.EntriesFrom(w, now, level + 2));
  }

  /** A read of the version after the compaction finds a value that a tombstone of the inputs hid before. */
  ghost predicate BroughtBack(v: V.Levels, tables: V.Tables, level: nat, in0: set<uint64>, in1: set<uint64>,
                              input: seq<Entry>, snap: nat, user: UserKey, s: nat)
    requires level + 1 < V.LEVELS && s <= MAX_SEQUENCE
  {
    Resurrects(input, snap, v, level, Above(v, tables, level) + Beside(v, tables, level, in0, in1),
               V.EntriesFrom(v, tables, level + 2), user, s)
  }

  /** What a read at a recent enough snapshot finds is the same in both versions, unless it brings something back. */
  lemma ResultsKeepReads(v: V.Levels, w: V.Levels, tables: V.Tables, now: V.Tables, level: nat,
                         in0: set<uint64>, in1: set<uint64>, outs: B.Files, input: seq<Entry>, snap: nat, user: UserKey,
                         s: nat)
    requires V.VersionOk(v, tables) && Compacted(v, w, tables, now, level, in0, in1, outs, input, snap)
    requires snap <= s <= MAX_SEQUENCE
    ensures Resolve(Newest(V.EntriesFrom(w, now, 0), user, SeekTag(s)))
            == Resolve(Newest(V.EntriesFrom(v, tables, 0), user, SeekTag(s)))
            <==> !BroughtBack(v, tables, level, in0, in1, input, snap, user, s)
  {
    hide V.LevelEntries, V.EntriesFrom, Beside, Above, Inputs, Replaces, SameTables, Kept, Resolve, Newest,
         V.VersionOk, Entries, Newer,
         Resurrects;
    var beside, deeper, above := Beside(v, tables, level, in0, in1), V.EntriesFrom(v, tables, level + 2),
      Above(v, tables, level);
    var kept := Entries(Kept(input, |input|, snap, v, level));
    Parts(v, w, tables, now, level, in0, in1, outs, input, snap);
    AboveAndFrom(v, tables, level);
    AboveAndFrom(w, now, level);
    AboveSame(v, w, tables, now, level, in0, in1, outs, level);
    NewerThanInputs(v, tables, level, beside, Entries(input), deeper);
    InputsNewer(v, tables, level, in0, in1);
    CompactionKeepsReads(input, snap, v, level, above + beside, deeper, user, s);
    Four(above, beside, Entries(input), deeper);
    Four(above, beside, kept, deeper);
  }

  /** The deeper levels hold only older entries of the inputs' user keys. */
  lemma InputsNewer(v: V.Levels, tables: V.Tables, level: nat, in0: set<uint64>, in1: set<uint64>)
    requires level + 1 < V.LEVELS && V.VersionOk(v, tables)
    ensures Newer(Inputs(v, tables, level, in0, in1), V.EntriesFrom(v, tables, level + 2))
  {
    hide V.VersionOk, Of, V.LevelEntries, V.EntriesFrom;
    DeeperOlder(v, tables, level);
    InAndOut(v[level], tables, in0);
    InAndOut(v[level + 1], tables, in1);
  }

  lemma Four<T>(a: set<T>, b: set<T>, c: set<T>, d: set<T>)
    ensures a + (b + c + d) == a + b + c + d
  {
  }

  /** Upper levels and the files beside the inputs hold only newer entries of the inputs' user keys. */
  lemma NewerThanInputs(v: V.Levels, tables: V.Tables, level: nat, beside: set<Entry>, inputs: set<Entry>,
                        deeper: set<Entry>)
    requires level <= V.LEVELS && V.VersionOk(v, tables) && Newer(beside, inputs)
    requires V.EntriesFrom(v, tables, level) == beside + inputs + deeper
    ensures Newer(Above(v, tables, level) + beside, inputs) && V.TablesOk(v, tables)
  {
    AboveNewer(v, tables, level, level);
    hide Above, V.EntriesFrom;
    NewerSubsets(Above(v, tables, level), V.EntriesFrom(v, tables, level), Above(v, tables, level), inputs);
    NewerUnion(inputs, Above(v, tables, level), beside);
  }

  // ---------------------------------------------------------------- the invariant of versions

  lemma TablesAfter(v: V.Levels, w: V.Levels, tables: V.Tables, now: V.Tables, level: nat,
                    in0: set<uint64>, in1: set<uint64>, outs: B.Files)
    requires level + 1 < V.LEVELS && Replaces(v, w, level, in0, in1, outs) && SameTables(v, w, tables, now)
    requires V.TablesOk(v, tables) && forall f :: f in outs ==> V.TableOk(f, now)
    ensures V.TablesOk(w, now)
  {
    forall l, i | 0 <= l < V.LEVELS && 0 <= i < |w[l]| ensures V.TableOk(w[l][i], now) {
      var f := w[l][i];
      assert f in w[l];
      if f in v[l] {
        var j :| 0 <= j < |v[l]| && v[l][j] == f;
        assert V.TableOk(v[l][j], tables);
      } else {
        assert f in outs;
      }
    }
  }

  lemma Level0After(v: V.Levels, w: V.Levels, tables: V.Tables, now: V.Tables, level: nat,
                    in0: set<uint64>, in1: set<uint64>, outs: B.Files)
    requires level + 1 < V.LEVELS && Replaces(v, w, level, in0, in1, outs) && SameTables(v, w, tables, now)
    requires V.NewestFirst(v[0], tables)
    ensures V.NewestFirst(w[0], now)
  {
    if level > 0 {
      assert w[0] == v[0];
    }
    assert forall f :: f in w[0] ==> f in v[0] && V.FileEntries(f, now) == V.FileEntries(f, tables);
    forall i, j | 0 <= i < |w[0]| && 0 <= j < |w[0]| && i != j
      ensures w[0][i].num != w[0][j].num
      ensures w[0][i].num > w[0][j].num ==> Newer(V.FileEntries(w[0][i], now), V.FileEntries(w[0][j], now))
    {
      if level > 0 {
        assert v[0][i].num != v[0][j].num;
      } else {
        StrictApart(w[0], i, j);
      }
      assert w[0][i] in w[0] && w[0][j] in w[0];
      var a :| 0 <= a < |v[0]| && v[0][a] == w[0][i];
      var b :| 0 <= b < |v[0]| && v[0][b] == w[0][j];
    }
  }

  lemma StrictApart(files: B.Files, i: nat, j: nat)
    requires B.StrictFiles(files) && i < |files| && j < |files| && i != j
    ensures files[i] != files[j]
  {
    B.FileOrder();
  }

  /** From any level of the upper ones on, no entry is new. */
  lemma {:induction false} FromBelow(v: V.Levels, w: V.Levels, tables: V.Tables, now: V.Tables, level: nat,
                                     in0: set<uint64>, in1: set<uint64>, outs: B.Files, input: seq<Entry>, snap: nat,
                                     l: nat)
    requires Compacted(v, w, tables, now, level, in0, in1, outs, input, snap) && l <= level
    ensures V.EntriesFrom(w, now, l) <= V.EntriesFrom(v, tables, l)
    decreases level - l
  {
    if l == level {
      Parts(v, w, tables, now, level, in0, in1, outs, input, snap);
      KeptMembers(input, |input|, snap, v, level);
    } else {
      hide V.LevelEntries, Kept;
      OtherLevel(v, w, tables, now, level, in0, in1, outs, l);
      FromBelow(v, w, tables, now, level, in0, in1, outs, input, snap, l + 1);
    }
  }

  lemma NewerSubsets(a: set<Entry>, b: set<Entry>, c: set<Entry>, d: set<Entry>)
    requires Newer(a, b) && c <= a && d <= b
    ensures Newer(c, d)
  {
  }

  lemma NewerUnion(a: set<Entry>, b: set<Entry>, c: set<Entry>)
    ensures Newer(a, b + c) <==> Newer(a, b) && Newer(a, c)
    ensures Newer(b + c, a) <==> Newer(b, a) && Newer(c, a)
  {
  }

  /** The parts of two levels: what stays, what is kept of the inputs, and the deeper levels. */
  lemma NewerParts(level0: set<Entry>, level1: set<Entry>, deeper: set<Entry>,
                   rest0: set<Entry>, rest1: set<Entry>, inputs: set<Entry>, kept: set<Entry>)
    requires Newer(level0, level1 + deeper) && Newer(level1, deeper) && Newer(rest0 + rest1, inputs)
    requires rest0 <= level0 && rest1 <= level1 && kept <= inputs && inputs <= level0 + level1
    ensures Newer(rest0, (rest1 + kept) + deeper) && Newer(rest1 + kept, deeper)
  {
    forall x, y | x in rest1 + kept && y in deeper && x.key.user == y.key.user ensures x.key.tag > y.key.tag {
      assert x in level0 || x in level1;
    }
  }

  lemma DeeperOlder(v: V.Levels, tables: V.Tables, level: nat)
    requires level + 1 < V.LEVELS && V.VersionOk(v, tables)
    ensures Newer(V.LevelEntries(v[level], tables),
                  V.LevelEntries(v[level + 1], tables) + V.EntriesFrom(v, tables, level + 2))
    ensures Newer(V.LevelEntries(v[level + 1], tables), V.EntriesFrom(v, tables, level + 2))
  {
    assert V.EntriesFrom(v, tables, level + 1)
      == V.LevelEntries(v[level + 1], tables) + V.EntriesFrom(v, tables, level + 2);
  }

  lemma CompactedParts(v: V.Levels, w: V.Levels, tables: V.Tables, now: V.Tables, level: nat,
                       in0: set<uint64>, in1: set<uint64>, outs: B.Files, input: seq<Entry>, snap: nat)
    requires Compacted(v, w, tables, now, level, in0, in1, outs, input, snap)
    ensures level + 1 < V.LEVELS && Replaces(v, w, level, in0, in1, outs) && SameTables(v, w, tables, now)
    ensures Entries(input) == Of(v[level], tables, in0, true) + Of(v[level + 1], tables, in1, true)
    ensures Newer(Of(v[level], tables, in0, false) + Of(v[level + 1], tables, in1, false), Entries(input))
    ensures V.LevelEntries(outs, now) <= Entries(input)
  {
    hide Replaces, SameTables, Newer, V.LevelEntries, Of;
    KeptMembers(input, |input|, snap, v, level);
  }

  /** The two levels keep newer entries above older ones. */
  lemma LevelsAfter(v: V.Levels, w: V.Levels, tables: V.Tables, now: V.Tables, level: nat,
                    in0: set<uint64>, in1: set<uint64>, outs: B.Files, input: seq<Entry>, snap: nat)
    requires V.VersionOk(v, tables) && Compacted(v, w, tables, now, level, in0, in1, outs, input, snap)
    ensures Newer(V.LevelEntries(w[level], now), V.EntriesFrom(w, now, level + 1))
    ensures Newer(V.LevelEntries(w[level + 1], now), V.EntriesFrom(w, now, level + 2))
  {
    hide V.LevelEntries, Of, Replaces, SameTables, Newer, V.VersionOk, Compacted, Entries;
    CompactedParts(v, w, tables, now, level, in0, in1, outs, input, snap);
    DeeperOlder(v, tables, level);
    TwoLevels(v, w, tables, now, level, in0, in1, outs);
    DeeperSame(v, w, tables, now, level, in0, in1, outs, level + 2);
    InAndOut(v[level], tables, in0);
    InAndOut(v[level + 1], tables, in1);
    NewerParts(V.LevelEntries(v[level], tables), V.LevelEntries(v[level + 1], tables),
               V.EntriesFrom(v, tables, level + 2),
               Of(v[level], tables, in0, false), Of(v[level + 1], tables, in1, false), Entries(input),
               V.LevelEntries(outs, now));
    assert V.EntriesFrom(w, now, level + 1) == V.LevelEntries(w[level + 1], now) + V.EntriesFrom(w, now, level + 2);
  }

  /** A level that no file left or joined. */
  lemma OtherAfter(v: V.Levels, w: V.Levels, tables: V.Tables, now: V.Tables, level: nat,
                   in0: set<uint64>, in1: set<uint64>, outs: B.Files, input: seq<Entry>, snap: nat, l: nat)
    requires V.VersionOk(v, tables) && Compacted(v, w, tables, now, level, in0, in1, outs, input, snap)
    requires l < V.LEVELS && l != level && l != level + 1
    ensures Newer(V.LevelEntries(w[l], now), V.EntriesFrom(w, now, l + 1))
  {
    assert Newer(V.LevelEntries(v[l], tables), V.EntriesFrom(v, tables, l + 1));
    hide V.LevelEntries, V.EntriesFrom, V.VersionOk, Newer, Replaces, SameTables, Compacted;
    CompactedParts(v, w, tables, now, level, in0, in1, outs, input, snap);
    OtherLevel(v, w, tables, now, level, in0, in1, outs, l);
    if l < level {
      FromBelow(v, w, tables, now, level, in0, in1, outs, input, snap, l + 1);
    } else {
      DeeperSame(v, w, tables, now, level, in0, in1, outs, l + 1);
    }
    NewerSubsets(V.LevelEntries(v[l], tables), V.EntriesFrom(v, tables, l + 1), V.LevelEntries(w[l], now),
                 V.EntriesFrom(w, now, l + 1));
  }

  /**
   Installing the results of a compaction keeps the invariant of versions. For every user key and every snapshot
   that is not older than the oldest one, the newest visible entry means the same as before, if and only if no
   dropped tombstone hid a deeper value. None does if the comparisons with the bounds of deeper files agree with
   the bytewise order.
   */
  lemma ResultsKeepVersion(v: V.Levels, w: V.Levels, tables: V.Tables, now: V.Tables, level: nat,
                           in0: set<uint64>, in1: set<uint64>, outs: B.Files, input: seq<Entry>, snap: nat)
    requires V.VersionOk(v, tables) && Compacted(v, w, tables, now, level, in0, in1, outs, input, snap)
    ensures V.VersionOk(w, now)
    ensures forall user, s :: snap <= s <= MAX_SEQUENCE ==>
              (Resolve(Newest(V.EntriesFrom(w, now, 0), user, SeekTag(s)))
               == Resolve(Newest(V.EntriesFrom(v, tables, 0), user, SeekTag(s)))
               <==> !BroughtBack(v, tables, level, in0, in1, input, snap, user, s))
    ensures AskedAgree(input, snap, v, level) ==>
              forall user, s :: snap <= s <= MAX_SEQUENCE ==>
                  !BroughtBack(v, tables, level, in0, in1, input, snap, user, s)
  {
    hide V.LevelEntries, V.EntriesFrom, V.NewestFirst, V.TablesOk, V.TableOk, B.Chained, Newer, Kept, SameTables,
         Inputs, Beside,
         Resolve, Newest, SeekTag, BroughtBack, AskedAgree;
    forall user, s | snap <= s <= MAX_SEQUENCE
      ensures Resolve(Newest(V.EntriesFrom(w, now, 0), user, SeekTag(s)))
              == Resolve(Newest(V.EntriesFrom(v, tables, 0), user, SeekTag(s)))
              <==> !BroughtBack(v, tables, level, in0, in1, input, snap, user, s)
      ensures AskedAgree(input, snap, v, level) ==> !BroughtBack(v, tables, level, in0, in1, input, snap, user, s)
    {
      ResultsKeepReads(v, w, tables, now, level, in0, in1, outs, input, snap, user, s);
      if AskedAgree(input, snap, v, level) {
        NothingBack(v, tables, level, in0, in1, input, snap, user, s);
      }
    }
    TablesAfter(v, w, tables, now, level, in0, in1, outs);
    Level0After(v, w, tables, now, level, in0, in1, outs);
    LevelsAfter(v, w, tables, now, level, in0, in1, outs, input, snap);
    forall l | 0 <= l < V.LEVELS ensures Newer(V.LevelEntries(w[l], now), V.EntriesFrom(w, now, l + 1)) {
      if l != level && l != level + 1 {
        OtherAfter(v, w, tables, now, level, in0, in1, outs, input, snap, l);
      }
    }
  }

  lemma NothingBack(v: V.Levels, tables: V.Tables, level: nat, in0: set<uint64>, in1: set<uint64>,
                    input: seq<Entry>, snap: nat, user: UserKey, s: nat)
    requires V.VersionOk(v, tables) && Sorted(input) && level + 1 < V.LEVELS && AskedAgree(input, snap, v, level)
             && s <= MAX_SEQUENCE
    ensures !BroughtBack(v, tables, level, in0, in1, input, snap, user, s)
  {
    hide Resurrects, AskedAgree, V.EntriesFrom, V.LevelEntries, V.NewestFirst, Newer;
    forall l | level + 2 <= l < V.LEVELS ensures InOrder(v[l]) {
      LevelInOrder(v, tables, l);
    }
    AgreementKeepsReads(input, snap, v, level, tables, Above(v, tables, level) + Beside(v, tables, level, in0, in1),
                        user, s);
  }

  /** The levels above 0 of a valid version are in order. */
  lemma LevelInOrder(v: V.Levels, tables: V.Tables, l: nat)
    requires V.TablesOk(v, tables) && 0 < l < V.LEVELS && B.Chained(v[l])
    ensures InOrder(v[l])
  {
    forall f | f in v[l] ensures !Lt(f.largest, f.smallest) {
      var i :| 0 <= i < |v[l]| && v[l][i] == f;
      assert V.TableOk(v[l][i], tables);
      V.FileRange(v[l][i], tables);
    }
  }
}
