/**
 One compaction, from its input files to the next version: `MakeInputIterator` (src/db/version_set.cpp),
 `DoCompactionWork`, its output file and `InstallCompactionResults` (src/db/db.cpp).

 Which files are the inputs is given: files of two adjacent levels, with only newer entries of their keys
 beside them.
 */
module CompactionRun {
  import opened Common
  import opened Keys
  import opened Lookup
  import opened Merger
  import opened C = Compaction
  import opened CompactionResults
  import B = Builder
  import D = Db
  import E = EditCodec
  import M = Manifest
  import V = Version
  import VS = VersionSet

  ghost predicate FilesOk(files: B.Files, tables: V.Tables) {
    forall f :: f in files ==> V.TableOk(f, tables)
  }

  /** The input files of a compaction. */
  ghost predicate Chosen(v: V.Levels, tables: V.Tables, level: nat, in0: B.Files, in1: B.Files) {
    && level + 1 < V.LEVELS && in0 != []
    && (forall f :: f in in0 ==> f in v[level]) && (forall f :: f in in1 ==> f in v[level + 1])
    && (forall i, j :: 0 <= i < j < |in0| ==> in0[i].num != in0[j].num)
    && (level > 0 ==> B.Chained(in0)) && B.Chained(in1)
    && Newer(Beside(v, tables, level, B.Nums(in0), B.Nums(in1)), Inputs(v, tables, level, B.Nums(in0), B.Nums(in1)))
  }

  // ---------------------------------------------------------------- the lists that are merged

  /** The tables of the files, each on its own. */
  function Each(files: B.Files, tables: V.Tables): (r: seq<seq<Entry>>)
    requires forall f :: f in files ==> f.num in tables
    ensures |r| == |files| && forall i :: 0 <= i < |r| ==> files[i] in files && r[i] == tables[files[i].num]
  {
    if files == [] then [] else [tables[files[0].num]] + Each(files[1..], tables)
  }

  /** The tables of the files, one after the other. */
  function Joined(files: B.Files, tables: V.Tables): seq<Entry>
    requires forall f :: f in files ==> f.num in tables
  {
    if files == [] then [] else tables[files[0].num] + Joined(files[1..], tables)
  }

  /** Files of level 0 may overlap and are merged with each other; those of another level are read as one list. */
  function LevelLists(level: nat, files: B.Files, tables: V.Tables): seq<seq<Entry>>
    requires forall f :: f in files ==> f.num in tables
  {
    if level == 0 then Each(files, tables) else [Joined(files, tables)]
  }

  /**
   The lists of `MakeInputIterator`. It tests whether the inputs of a level are empty, and takes them if they
   are: that is `empty`. Without `empty` it takes the others, which is what the rest of the code expects.
   */
  function InputLists(level: nat, in0: B.Files, in1: B.Files, tables: V.Tables, empty: bool): seq<seq<Entry>>
    requires (forall f :: f in in0 ==> f.num in tables) && forall f :: f in in1 ==> f.num in tables
  {
    (if (in0 == []) == empty then LevelLists(level, in0, tables) else [])
    + (if (in1 == []) == empty then LevelLists(level + 1, in1, tables) else [])
  }

  /** With the test as it stands nothing is merged; with files on both levels there is not even a list. */
  lemma EmptyLists(level: nat, in0: B.Files, in1: B.Files, tables: V.Tables)
    requires (forall f :: f in in0 ==> f.num in tables) && (forall f :: f in in1 ==> f.num in tables) && in0 != []
    ensures InputLists(level, in0, in1, tables, true) == if in1 == [] then [[]] else []
    ensures MergeAll(InputLists(level, in0, in1, tables, true)) == []
  {
  }

  lemma Listed(files: B.Files, tables: V.Tables)
    requires FilesOk(files, tables)
    ensures forall f :: f in files ==> f.num in tables
  {
  }

  lemma {:induction false} JoinedCorrect(files: B.Files, tables: V.Tables)
    requires FilesOk(files, tables) && B.Chained(files)
    ensures Sorted(Joined(files, tables))
    ensures files != [] ==> forall e :: e in Joined(files, tables) ==> !Lt(e.key, files[0].smallest)
    ensures forall e :: e in Joined(files, tables) <==> exists f :: f in files && e in tables[f.num]
  {
    if files != [] {
      Listed(files, tables);
      var first, rest := tables[files[0].num], Joined(files[1..], tables);
      assert files == [files[0]] + files[1..];
      assert V.TableOk(files[0], tables);
      JoinedCorrect(files[1..], tables);
      KeyOrder();
      forall e | e in first ensures !Lt(e.key, files[0].smallest) && !Lt(files[0].largest, e.key) {
        V.WithinFile(files[0], tables, e);
      }
      forall e | e in rest ensures Lt(files[0].largest, e.key) {
        assert Lt(files[1 - 1].largest, files[1].smallest);
      }
      V.FileRange(files[0], tables);
      forall i, j | 0 <= i < |first| && 0 <= j < |rest| ensures Lt(first[i].key, rest[j].key) {
        assert first[i] in first && rest[j] in rest;
      }
    }
  }

  lemma DistinctIfNewer(a: seq<Entry>, b: seq<Entry>)
    requires Newer(Entries(a), Entries(b)) || Newer(Entries(b), Entries(a))
    ensures DistinctKeys(a, b)
  {
    forall i, j | 0 <= i < |a| && 0 <= j < |b| ensures a[i].key != b[j].key {
      assert a[i] in Entries(a) && b[j] in Entries(b);
    }
  }

  /** The lists of one level are sorted, share no key, and hold the entries of the files. */
  lemma LevelListsCorrect(v: V.Levels, tables: V.Tables, level: nat, files: B.Files)
    requires V.VersionOk(v, tables) && level < V.LEVELS && forall f :: f in files ==> f in v[level]
    requires FilesOk(files, tables)
             && if level == 0 then forall i, j :: 0 <= i < j < |files| ==> files[i].num != files[j].num
                 else B.Chained(files)
    ensures Mergeable(LevelLists(level, files, tables))
    ensures forall e :: InSome(LevelLists(level, files, tables), e) <==> e in V.LevelEntries(files, tables)
  {
    hide V.VersionOk, Sorted, DistinctKeys, Joined, V.TableOk, Newer;
    Listed(files, tables);
    var lists := LevelLists(level, files, tables);
    if level == 0 {
      Level0Newest(v, tables);
      forall i | 0 <= i < |lists| ensures Sorted(lists[i]) {
        SortedTable(files[i], tables);
      }
      forall i, j | 0 <= i < j < |lists| ensures DistinctKeys(lists[i], lists[j]) {
        NewerFiles(v[0], tables, files[i], files[j]);
        DistinctIfNewer(lists[i], lists[j]);
      }
    } else {
      JoinedCorrect(files, tables);
    }
    forall e ensures InSome(lists, e) <==> e in V.LevelEntries(files, tables) {
      if InSome(lists, e) {
        var i :| 0 <= i < |lists| && e in lists[i];
        var f := if level == 0 then files[i] else var f :| f in files && e in tables[f.num]; f;
        V.FileWithin(files, tables, f);
      }
      if e in V.LevelEntries(files, tables) {
        var i :| 0 <= i < |files| && e in V.FileEntries(files[i], tables);
        assert files[i] in files && e in lists[if level == 0 then i else 0];
      }
    }
  }

  lemma Level0Newest(v: V.Levels, tables: V.Tables)
    requires V.VersionOk(v, tables)
    ensures V.NewestFirst(v[0], tables)
  {
  }

  lemma SortedTable(f: B.FileMeta, tables: V.Tables)
    requires V.TableOk(f, tables)
    ensures f.num in tables && Sorted(tables[f.num])
  {
  }

  lemma NewerFiles(files: B.Files, tables: V.Tables, f: B.FileMeta, g: B.FileMeta)
    requires V.NewestFirst(files, tables) && f in files && g in files && f.num != g.num
    ensures Newer(V.FileEntries(f, tables), V.FileEntries(g, tables))
            || Newer(V.FileEntries(g, tables), V.FileEntries(f, tables))
  {
    var i :| 0 <= i < |files| && files[i] == f;
    var j :| 0 <= j < |files| && files[j] == g;
  }

  /** Of the files of a level, those with the numbers of chosen ones hold the entries of these. */
  lemma ChosenEntries(files: B.Files, chosen: B.Files, tables: V.Tables)
    requires forall f :: f in chosen ==> f in files
    ensures Of(files, tables, B.Nums(chosen), true) == V.LevelEntries(chosen, tables)
  {
    forall e ensures e in Of(files, tables, B.Nums(chosen), true) <==> e in V.LevelEntries(chosen, tables) {
      if e in Of(files, tables, B.Nums(chosen), true) {
        var i :| 0 <= i < |files| && files[i].num in B.Nums(chosen) && e in V.FileEntries(files[i], tables);
        var f :| f in chosen && f.num == files[i].num;
        V.FileWithin(chosen, tables, f);
      }
      if e in V.LevelEntries(chosen, tables) {
        var i :| 0 <= i < |chosen| && e in V.FileEntries(chosen[i], tables);
        assert chosen[i] in chosen && chosen[i] in files;
        var j :| 0 <= j < |files| && files[j] == chosen[i];
        assert files[j].num in B.Nums(chosen);
      }
    }
  }

  lemma TwoGroups(a: seq<seq<Entry>>, b: seq<seq<Entry>>, x: set<Entry>, y: set<Entry>)
    requires Mergeable(a) && Mergeable(b) && Newer(x, y)
    requires (forall e :: InSome(a, e) <==> e in x) && forall e :: InSome(b, e) <==> e in y
    ensures Mergeable(a + b) && forall e :: InSome(a + b, e) <==> e in x + y
  {
    var all := a + b;
    forall i, j | 0 <= i < j < |all| ensures DistinctKeys(all[i], all[j]) {
      if i < |a| <= j {
        forall k, m | 0 <= k < |all[i]| && 0 <= m < |all[j]| ensures all[i][k].key != all[j][m].key {
          assert all[i][k] in a[i] && all[j][m] in b[j - |a|];
          assert InSome(a, all[i][k]) && InSome(b, all[j][m]);
        }
      } else if j < |a| {
        assert DistinctKeys(a[i], a[j]);
      } else {
        assert DistinctKeys(b[i - |a|], b[j - |a|]);
      }
    }
    forall e ensures InSome(all, e) <==> e in x + y {
      if InSome(all, e) {
        var i :| 0 <= i < |all| && e in all[i];
        assert if i < |a| then e in a[i] else e in b[i - |a|];
      }
      if InSome(a, e) {
        var i :| 0 <= i < |a| && e in a[i];
        assert e in all[i];
      }
      if InSome(b, e) {
        var i :| 0 <= i < |b| && e in b[i];
        assert e in all[|a| + i];
      }
    }
  }

  lemma StoredFiles(v: V.Levels, tables: V.Tables, level: nat, files: B.Files)
    requires V.TablesOk(v, tables) && level < V.LEVELS && forall f :: f in files ==> f in v[level]
    ensures FilesOk(files, tables)
  {
    forall f | f in files ensures V.TableOk(f, tables) {
      var i :| 0 <= i < |v[level]| && v[level][i] == f;
    }
  }

  /** Merged are exactly the entries of the input files, in order. */
  lemma InputsMerge(v: V.Levels, tables: V.Tables, level: nat, in0: B.Files, in1: B.Files)
    requires V.VersionOk(v, tables) && Chosen(v, tables, level, in0, in1)
    ensures (forall f :: f in in0 ==> f.num in tables) && forall f :: f in in1 ==> f.num in tables
    ensures var lists := InputLists(level, in0, in1, tables, false);
            && Mergeable(lists) && Sorted(MergeAll(lists))
            && Entries(MergeAll(lists)) == Inputs(v, tables, level, B.Nums(in0), B.Nums(in1))
            && forall k :: 0 <= k < |MergeAll(lists)| ==> Parsed(MergeAll(lists)[k])
  {
    hide V.VersionOk, Mergeable, InSome, V.LevelEntries, Of, LevelLists, MergeAll, Newer, V.EntriesFrom, FilesOk,
         V.TableOk, B.Chained;
    TablesOf(v, tables);
    StoredFiles(v, tables, level, in0);
    StoredFiles(v, tables, level + 1, in1);
    Listed(in0, tables);
    Listed(in1, tables);
    var lists := InputLists(level, in0, in1, tables, false);
    LevelListsCorrect(v, tables, level, in0);
    LevelListsCorrect(v, tables, level + 1, in1);
    ChosenEntries(v[level], in0, tables);
    ChosenEntries(v[level + 1], in1, tables);
    ChosenNewer(v, tables, level, in0, in1);
    var x, y := V.LevelEntries(in0, tables), V.LevelEntries(in1, tables);
    if in1 == [] {
      NoEntries(tables);
      assert lists == LevelLists(level, in0, tables);
    } else {
      TwoGroups(LevelLists(level, in0, tables), LevelLists(level + 1, in1, tables), x, y);
    }
    MergeAllCorrect(lists);
    assert Entries(MergeAll(lists)) == x + y;
    forall k | 0 <= k < |MergeAll(lists)| ensures Parsed(MergeAll(lists)[k]) {
      var e := MergeAll(lists)[k];
      assert e in Entries(MergeAll(lists));
      ParsedInput(v, tables, level, in0, in1, e);
    }
  }

  lemma TablesOf(v: V.Levels, tables: V.Tables)
    requires V.VersionOk(v, tables)
    ensures V.TablesOk(v, tables)
  {
  }

  lemma ParsedInput(v: V.Levels, tables: V.Tables, level: nat, in0: B.Files, in1: B.Files, e: Entry)
    requires FilesOk(in0, tables) && FilesOk(in1, tables)
    requires e in V.LevelEntries(in0, tables) || e in V.LevelEntries(in1, tables)
    ensures Parsed(e)
  {
    var files := if e in V.LevelEntries(in0, tables) then in0 else in1;
    var i :| 0 <= i < |files| && e in V.FileEntries(files[i], tables);
    assert V.TableOk(files[i], tables);
  }

  /** The inputs of the upper level are newer than those of the lower one. */
  lemma ChosenNewer(v: V.Levels, tables: V.Tables, level: nat, in0: B.Files, in1: B.Files)
    requires V.VersionOk(v, tables) && Chosen(v, tables, level, in0, in1)
    ensures Newer(V.LevelEntries(in0, tables), V.LevelEntries(in1, tables))
  {
    hide V.VersionOk, V.LevelEntries, Of, V.EntriesFrom;
    DeeperOlder(v, tables, level);
    ChosenEntries(v[level], in0, tables);
    ChosenEntries(v[level + 1], in1, tables);
    InAndOut(v[level], tables, B.Nums(in0));
    InAndOut(v[level + 1], tables, B.Nums(in1));
  }

  // ---------------------------------------------------------------- inputs without outputs

  lemma LevelShrinks(v: V.Levels, w: V.Levels, tables: V.Tables, now: V.Tables, level: nat, in0: set<uint64>,
                     in1: set<uint64>, l: nat)
    requires level + 1 < V.LEVELS && Replaces(v, w, level, in0, in1, []) && SameTables(v, w, tables, now)
             && l < V.LEVELS
    ensures V.LevelEntries(w[l], now) <= V.LevelEntries(v[l], tables)
  {
    hide Replaces, SameTables, V.LevelEntries, Of;
    if l == level || l == level + 1 {
      TwoLevels(v, w, tables, now, level, in0, in1, []);
      InAndOut(v[level], tables, in0);
      InAndOut(v[level + 1], tables, in1);
      NoEntries(now);
    } else {
      OtherLevel(v, w, tables, now, level, in0, in1, [], l);
    }
  }

  lemma {:induction false} LevelsShrink(v: V.Levels, w: V.Levels, tables: V.Tables, now: V.Tables, level: nat,
                                        in0: set<uint64>, in1: set<uint64>, l: nat)
    requires level + 1 < V.LEVELS && Replaces(v, w, level, in0, in1, []) && SameTables(v, w, tables, now)
             && l <= V.LEVELS
    ensures V.EntriesFrom(w, now, l) <= V.EntriesFrom(v, tables, l)
    decreases V.LEVELS - l
  {
    if l < V.LEVELS {
      hide Replaces, SameTables, V.LevelEntries;
      LevelShrinks(v, w, tables, now, level, in0, in1, l);
      LevelsShrink(v, w, tables, now, level, in0, in1, l + 1);
    }
  }

  /** All entries of both versions. */
  lemma WithoutInputs(v: V.Levels, w: V.Levels, tables: V.Tables, now: V.Tables, level: nat, in0: set<uint64>,
                      in1: set<uint64>)
    requires level + 1 < V.LEVELS && Replaces(v, w, level, in0, in1, []) && SameTables(v, w, tables, now)
    ensures var others := Above(v, tables, level) + Beside(v, tables, level, in0, in1)
            + V.EntriesFrom(v, tables, level + 2);
            && V.EntriesFrom(w, now, 0) == others
            && V.EntriesFrom(v, tables, 0) == others + Inputs(v, tables, level, in0, in1)
  {
    hide V.LevelEntries, Of, Replaces, SameTables, Above;
    TwoLevels(v, w, tables, now, level, in0, in1, []);
    NoEntries(now);
    DeeperSame(v, w, tables, now, level, in0, in1, [], level + 2);
    AboveSame(v, w, tables, now, level, in0, in1, [], level);
    AboveAndFrom(v, tables, level);
    AboveAndFrom(w, now, level);
    InAndOut(v[level], tables, in0);
    InAndOut(v[level + 1], tables, in1);
    assert V.EntriesFrom(v, tables, level)
        == V.LevelEntries(v[level], tables)
          + (V.LevelEntries(v[level + 1], tables) + V.EntriesFrom(v, tables, level + 2));
    assert V.EntriesFrom(w, now, level)
        == V.LevelEntries(w[level], now) + (V.LevelEntries(w[level + 1], now) + V.EntriesFrom(w, now, level + 2));
  }

  /** Nothing else holds an entry of the inputs. */
  lemma OnlyInInputs(v: V.Levels, tables: V.Tables, level: nat, in0: set<uint64>, in1: set<uint64>, e: Entry)
    requires V.VersionOk(v, tables) && level + 1 < V.LEVELS && e in Inputs(v, tables, level, in0, in1)
    requires Newer(Beside(v, tables, level, in0, in1), Inputs(v, tables, level, in0, in1))
    ensures e !in Above(v, tables, level) + Beside(v, tables, level, in0, in1) + V.EntriesFrom(v, tables, level + 2)
  {
    hide V.VersionOk, V.LevelEntries, Of, Above;
    InputsNewer(v, tables, level, in0, in1);
    AboveNewer(v, tables, level, level);
    InAndOut(v[level], tables, in0);
    InAndOut(v[level + 1], tables, in1);
    assert V.EntriesFrom(v, tables, level)
        == V.LevelEntries(v[level], tables)
          + (V.LevelEntries(v[level + 1], tables) + V.EntriesFrom(v, tables, level + 2));
    hide V.EntriesFrom;
    assert e in V.EntriesFrom(v, tables, level);
  }

  /** The newest visible entry of a key is still there exactly if it is not one of the inputs. */
  ghost predicate InputsLost(v: V.Levels, w: V.Levels, tables: V.Tables, now: V.Tables, level: nat, in0: set<uint64>,
                             in1: set<uint64>,
                             user: UserKey, bound: uint64)
    requires level + 1 < V.LEVELS
  {
    var e := Newest(V.EntriesFrom(v, tables, 0), user, bound);
    Newest(V.EntriesFrom(w, now, 0), user, bound) == e <==> (e.Some? ==> e.value !in Inputs(v, tables, level, in0, in1))
  }

  /** Deleting the inputs and adding no outputs leaves a valid version, without what the inputs held. */
  lemma InputsDropped(v: V.Levels, w: V.Levels, tables: V.Tables, now: V.Tables, level: nat, in0: set<uint64>,
                      in1: set<uint64>)
    requires V.VersionOk(v, tables) && level + 1 < V.LEVELS
    requires Replaces(v, w, level, in0, in1, []) && SameTables(v, w, tables, now)
    requires Newer(Beside(v, tables, level, in0, in1), Inputs(v, tables, level, in0, in1))
    ensures V.VersionOk(w, now)
    ensures forall user, bound :: InputsLost(v, w, tables, now, level, in0, in1, user, bound)
  {
    hide V.LevelEntries, V.EntriesFrom, V.NewestFirst, V.TablesOk, V.TableOk, B.Chained, Newer, SameTables, Inputs,
         Beside, InputsLost;
    forall user, bound ensures InputsLost(v, w, tables, now, level, in0, in1, user, bound) {
      LostAt(v, w, tables, now, level, in0, in1, user, bound);
    }
    TablesAfter(v, w, tables, now, level, in0, in1, []);
    Level0After(v, w, tables, now, level, in0, in1, []);
    forall l | 0 <= l < V.LEVELS ensures Newer(V.LevelEntries(w[l], now), V.EntriesFrom(w, now, l + 1)) {
      LevelShrinks(v, w, tables, now, level, in0, in1, l);
      LevelsShrink(v, w, tables, now, level, in0, in1, l + 1);
      NewerSubsets(V.LevelEntries(v[l], tables), V.EntriesFrom(v, tables, l + 1), V.LevelEntries(w[l], now),
                   V.EntriesFrom(w, now, l + 1));
    }
  }

  lemma LostAt(v: V.Levels, w: V.Levels, tables: V.Tables, now: V.Tables, level: nat, in0: set<uint64>,
               in1: set<uint64>,
               user: UserKey, bound: uint64)
    requires V.VersionOk(v, tables) && level + 1 < V.LEVELS
    requires Replaces(v, w, level, in0, in1, []) && SameTables(v, w, tables, now)
    requires Newer(Beside(v, tables, level, in0, in1), Inputs(v, tables, level, in0, in1))
    ensures InputsLost(v, w, tables, now, level, in0, in1, user, bound)
  {
    hide V.VersionOk, V.EntriesFrom, Above, Beside, Inputs, Newest, Newer, Replaces, SameTables;
    WithoutInputs(v, w, tables, now, level, in0, in1);
    V.NewestExists(v, tables, user, bound);
    var all, left := V.EntriesFrom(v, tables, 0), V.EntriesFrom(w, now, 0);
    match Newest(all, user, bound)
    case None =>
      NewestNone(left, user, bound);
    case Some(e) =>
      if e in Inputs(v, tables, level, in0, in1) {
        OnlyInInputs(v, tables, level, in0, in1, e);
        V.NotNewest(left, user, bound, e);
      } else {
        NewestIs(left, user, bound, e);
      }
  }

  // ---------------------------------------------------------------- the edit

  method DeleteEach(deleted: seq<(uint32, uint64)>, level: uint32, files: B.Files) returns (r: seq<(uint32, uint64)>)
    requires E.Ascending(deleted)
    ensures E.Ascending(r)
    ensures forall l :: M.DelsOf(r, l) == M.DelsOf(deleted, l) + if l == level then B.Nums(files) else {}
  {
    hide M.DelsOf;
    r := deleted;
    for i := 0 to |files|
      invariant E.Ascending(r)
      invariant forall l :: M.DelsOf(r, l) == M.DelsOf(deleted, l) + if l == level then B.Nums(files[..i]) else {}
    {
      var pair := (level, files[i].num);
      E.InsertPairCorrect(r, pair);
      forall l ensures M.DelsOf(E.InsertPair(r, pair), l) == M.DelsOf(r, l) + if l == level then {files[i].num}
        else {} {
        M.DelsOfInserted(r, pair, l);
        OneDeletion(pair, l);
      }
      r := E.InsertPair(r, pair);
      assert files[..i + 1] == files[..i] + [files[i]];
      assert B.Nums(files[..i + 1]) == B.Nums(files[..i]) + {files[i].num};
    }
    assert files[..|files|] == files;
  }

  lemma OneDeletion(pair: (uint32, uint64), l: nat)
    ensures M.DelsOf([pair], l) == if l == pair.0 then {pair.1} else {}
  {
    assert pair in [pair];
  }

  lemma NoDeletions(l: nat)
    ensures M.DelsOf([], l) == {}
  {
  }

  /** `AddInputDeletions`. */
  method AddInputDeletions(level: nat, in0: B.Files, in1: B.Files) returns (deleted: seq<(uint32, uint64)>)
    requires level + 1 < V.LEVELS
    ensures E.Ascending(deleted)
    ensures forall l: nat ::
              M.DelsOf(deleted, l) == if l == level then B.Nums(in0) else if l == level + 1 then B.Nums(in1) else {}
  {
    hide M.DelsOf;
    deleted := DeleteEach([], level, in0);
    deleted := DeleteEach(deleted, level + 1, in1);
    forall l: nat ensures M.DelsOf([], l) == {} {
      NoDeletions(l);
    }
  }

  // ---------------------------------------------------------------- the whole run

  /** `MakeInputIterator`. Without a list there is no iterator. */
  method MakeInputIterator(level: nat, in0: B.Files, in1: B.Files, tables: V.Tables, empty: bool)
    returns (iter: Merageitor?)
    requires (forall f :: f in in0 ==> f.num in tables) && forall f :: f in in1 ==> f.num in tables
    requires Mergeable(InputLists(level, in0, in1, tables, empty))
    ensures iter == null <==> InputLists(level, in0, in1, tables, empty) == []
    ensures iter != null ==>
              iter.Inv() && fresh(iter) && fresh(iter.Kids())
                && iter.merged == MergeAll(InputLists(level, in0, in1, tables, empty))
  {
    hide Mergeable, MergeAll, InputLists;
    var lists := InputLists(level, in0, in1, tables, empty);
    if lists == [] {
      return null;
    }
    var iters: seq<ListIterator> := [];
    for i := 0 to |lists|
      invariant |iters| == i && forall j :: 0 <= j < i ==> fresh(iters[j]) && iters[j].list == lists[j]
      invariant forall j, k :: 0 <= j < k < i ==> iters[j] != iters[k]
    {
      var list := new ListIterator(lists[i]);
      iters := iters + [list];
    }
    assert seq(|iters|, i requires 0 <= i < |iters| => iters[i].list) == lists;
    iter := new Merageitor(iters);
  }

  /** How a compaction ends. */
  datatype Outcome = Undefined | Aborted | Failed | Installed

  /** The outputs that are installed. */
  function Taken(outs: B.Files, level: nat): B.Files {
    if level <= |outs| then outs[..level] else outs
  }

  // ---------------------------------------------------------------- when the new version aborts

  /** A level once outputs take the place of the inputs. */
  function LevelAfter(v: V.Levels, level: nat, in0: set<uint64>, in1: set<uint64>, outs: B.Files, l: nat): B.Files
    requires l < V.LEVELS
  {
    B.SaveLevel(v[l], B.ApplyLevel(B.NO_CHANGE, if l == level then in0 else if l == level + 1 then in1 else {},
                                   if l == level + 1 then outs else []))
  }

  /** Neighbours of a level above 0 overlap once outputs take the place of the inputs. */
  ghost predicate Clashes(v: V.Levels, level: nat, in0: set<uint64>, in1: set<uint64>, outs: B.Files) {
    exists l :: 0 < l < V.LEVELS && !B.Chained(LevelAfter(v, level, in0, in1, outs, l))
  }

  predicate Apart(f: B.FileMeta, g: B.FileMeta) {
    Lt(f.largest, g.smallest) || Lt(g.largest, f.smallest)
  }

  predicate Stays(f: B.FileMeta, v: V.Levels, level: nat, in1: set<uint64>)
    requires level + 1 < V.LEVELS
  {
    f in v[level + 1] && f.num !in in1
  }

  /** An output overlaps with another one or with a file that stays on the level it goes to. */
  ghost predicate OutputsOverlap(v: V.Levels, level: nat, in1: set<uint64>, outs: B.Files)
    requires level + 1 < V.LEVELS
  {
    exists f, g :: f in outs && (g in outs || Stays(g, v, level, in1)) && f != g && !Apart(f, g)
  }

  lemma FilesApart(files: B.Files)
    requires B.StrictFiles(files) && B.Ranged(files)
    ensures B.Chained(files) <==> forall f, g :: f in files && g in files && f != g ==> Apart(f, g)
  {
    B.StrictIsSorted(files);
    B.ChainedIffDisjoint(files);
    B.FileOrder();
    if forall f, g :: f in files && g in files && f != g ==> Apart(f, g) {
      forall i, j | 0 <= i < |files| && 0 <= j < |files| && i != j
        ensures Lt(files[i].largest, files[j].smallest) || Lt(files[j].largest, files[i].smallest)
      {
        assert files[i] in files && files[j] in files;
        assert if i < j then B.Before(files[i], files[j]) else B.Before(files[j], files[i]);
        assert Apart(files[i], files[j]);
      }
    }
  }

  /** Levels are sorted, files end behind their starts, and above level 0 no neighbours overlap. */
  ghost predicate LevelsFit(v: V.Levels) {
    forall l :: 0 <= l < V.LEVELS ==> B.StrictFiles(v[l]) && B.Ranged(v[l]) && (l > 0 ==> B.Chained(v[l]))
  }

  /** A compaction makes the new version abort exactly if one of its outputs overlaps. */
  lemma ClashesIff(v: V.Levels, level: nat, in0: set<uint64>, in1: set<uint64>, outs: B.Files)
    requires level + 1 < V.LEVELS && B.StrictFiles(outs) && B.Ranged(outs)
    requires LevelsFit(v)
    requires forall f :: f in outs ==> f.num !in in1 && f.num !in B.Nums(v[level + 1])
    ensures Clashes(v, level, in0, in1, outs) <==> OutputsOverlap(v, level, in1, outs)
  {
    hide B.SaveLevel, B.ApplyLevel, B.StrictFiles, B.Chained, B.Nums, Apart;
    forall l | 0 < l < V.LEVELS && l != level + 1 ensures B.Chained(LevelAfter(v, level, in0, in1, outs, l)) {
      if l == level {
        EmptyStrict();
        LevelResult(v[level], in0, []);
        FilesApart(v[level]);
        FilesApart(LevelAfter(v, level, in0, in1, outs, l));
      } else {
        Untouched(v[l]);
      }
    }
    var r := LevelAfter(v, level, in0, in1, outs, level + 1);
    LevelResult(v[level + 1], in1, outs);
    FilesApart(v[level + 1]);
    FilesApart(r);
    ApartBothWays();
  }

  lemma ApartBothWays()
    ensures forall f, g :: Apart(f, g) <==> Apart(g, f)
  {
  }

  /**
   `InstallCompactionResults`. Its loop adds the first `level` outputs: with fewer it reads past their end, and
   of more it leaves the rest out. Otherwise the new version replaces the inputs if no level then overlaps,
   which aborts, and if the file operations succeed.
   */
  method InstallCompactionResults(versions: VS.VersionSet, level: nat, in0: B.Files, in1: B.Files, outs: B.Files,
                                  pointer: seq<byte>, io: VS.Io)
    returns (r: Outcome)
    requires versions.Valid() && M.SmallKeys(versions.nowversion) && M.SmallPointers(versions.compact_pointer)
    requires level + 1 < V.LEVELS && |pointer| < UINT32_LIMIT && B.StrictFiles(outs)
    requires forall f :: f in outs ==> |f.smallest.user| + 8 < UINT32_LIMIT && |f.largest.user| + 8 < UINT32_LIMIT
    requires forall f :: f in outs ==> f.num !in B.Nums(in1) && f.num !in B.Nums(versions.nowversion[level + 1])
    modifies versions, versions.descriptor_log
    ensures r.Undefined? <==> level > |outs|
    ensures r.Aborted? <==>
              && level <= |outs|
              && Clashes(old(versions.nowversion), level, B.Nums(in0), B.Nums(in1), Taken(outs, level))
    ensures r.Installed? <==>
              && level <= |outs| && !r.Aborted? && io.append
              && (old(versions.descriptor_log) == null ==> io.create && io.snapshot && io.current)
    ensures r.Installed? ==>
              Replaces(old(versions.nowversion), versions.nowversion, level, B.Nums(in0), B.Nums(in1),
                       Taken(outs, level))
    ensures !r.Installed? ==> versions.nowversion == old(versions.nowversion)
    ensures if r.Undefined? || r.Aborted? then versions.descriptor_log == old(versions.descriptor_log)
            else versions.descriptor_log != null <==> r.Installed?
    ensures versions.compact_pointer == if r.Undefined? then old(versions.compact_pointer)
              else old(versions.compact_pointer)[level := pointer]
    ensures versions.next_file_number == old(versions.next_file_number)
            && versions.last_sequence == old(versions.last_sequence) && versions.log_number == old(versions.log_number)
    ensures r.Installed? ==> exists e :: InstallEdit(e, level, in0, in1, Taken(outs, level), pointer)
                                         && versions.logged == old(versions.NextLogged(e))
    ensures !r.Aborted? && (r.Installed? ==> old(B.Compatible(versions.StateNow(level + 1), Taken(outs, level))))
            ==> versions.Valid()
  {
    hide M.DelsOf, B.StrictFiles, Replaces, M.SmallKeys, M.SmallPointers, M.Usable, M.NextLevel, E.Ascending,
         VS.Overlapping,
         VS.VersionSet.ManifestGives, VS.VersionSet.Faithful, VS.VersionSet.Valid, VS.VersionSet.CompatibleWith,
         VS.VersionSet.StateNow, Clashes, B.Compatible, M.NextPointers;
    var deleted := AddInputDeletions(level, in0, in1);
    var enough, added := AddOutputs(level, outs);
    if !enough {
      return Outcome.Undefined;
    }
    var edit := E.VersionEdit(None, None, None, [(level, pointer)], deleted, added);
    EditFits(edit, level, B.Nums(in0), B.Nums(in1), outs[..level]);
    ghost var was := versions.nowversion;
    StrictNow(versions);
    SameClash(was, edit, level, B.Nums(in0), B.Nums(in1), outs[..level]);
    OnePointer(versions.compact_pointer, level, pointer);
    OneLevelCompatible(versions, edit, level, B.Nums(in0), B.Nums(in1), outs[..level]);
    var aborted, state := versions.LogAndApply(edit, io);
    if aborted {
      return Aborted;
    }
    if state != Ok {
      return Failed;
    }
    FrontStrict(outs, level);
    NotOverlapping(was, versions.nowversion, edit);
    EditReplaces(was, versions.nowversion, edit, level, B.Nums(in0), B.Nums(in1), outs[..level]);
    return Installed;
  }

  /** The edit of a compaction. */
  ghost predicate InstallEdit(e: E.VersionEdit, level: nat, in0: B.Files, in1: B.Files, outs: B.Files,
                              pointer: seq<byte>) {
    && e.log == None && e.next == None && e.sequence == None && e.pointers == [(level, pointer)]
    && ResultsEdit(e, level, B.Nums(in0), B.Nums(in1), outs)
  }

  /** The loop over the outputs; not `enough` where it would read past their end. */
  method AddOutputs(level: nat, outs: B.Files) returns (enough: bool, added: seq<E.NewFile>)
    requires level + 1 < V.LEVELS
    ensures enough <==> level <= |outs|
    ensures enough ==> added == M.SnapshotLevel(outs[..level], level + 1)
  {
    enough, added := true, [];
    for i := 0 to level
      invariant i <= |outs| && added == M.SnapshotLevel(outs[..i], level + 1)
    {
      if i >= |outs| {
        return false, added;
      }
      assert outs[..i + 1] == outs[..i] + [outs[i]];
      added := added + [M.WireOf(level + 1, outs[i])];
      assert added == M.SnapshotLevel(outs[..i + 1], level + 1);
    }
  }

  lemma SameClash(v: V.Levels, e: E.VersionEdit, level: nat, in0: set<uint64>, in1: set<uint64>, outs: B.Files)
    requires ResultsEdit(e, level, in0, in1, outs)
    ensures VS.Overlapping(v, e) <==> Clashes(v, level, in0, in1, outs)
  {
    hide M.Usable, B.Chained, B.SaveLevel, B.ApplyLevel;
    assert forall l :: 0 <= l < V.LEVELS ==> M.NextLevel(v, e, l) == LevelAfter(v, level, in0, in1, outs, l);
  }

  lemma OnePointer(pointers: seq<seq<byte>>, level: uint32, pointer: seq<byte>)
    requires |pointers| == V.LEVELS && level < V.LEVELS
    ensures M.NextPointers(pointers, [(level, pointer)]) == pointers[level := pointer]
  {
    M.PointersNext(pointers, [(level, pointer)], 0);
    assert [(level, pointer)][..1] == [(level, pointer)] && [(level, pointer)][..0] == [];
    assert M.NextPointers(pointers, []) == pointers;
  }

  /** Only the level of the outputs can reuse a number. */
  lemma OneLevelCompatible(versions: VS.VersionSet, e: E.VersionEdit, level: nat, in0: set<uint64>, in1: set<uint64>,
                           outs: B.Files)
    requires versions.Valid() && level + 1 < V.LEVELS && ResultsEdit(e, level, in0, in1, outs)
    ensures versions.CompatibleWith(e) <==> B.Compatible(versions.StateNow(level + 1), outs)
    ensures |versions.compact_pointer| == V.LEVELS
  {
    hide M.Usable, VS.VersionSet.StateNow, VS.VersionSet.EditsOk, VS.VersionSet.Agrees, VS.VersionSet.Holds;
  }

  lemma StrictNow(versions: VS.VersionSet)
    requires versions.Valid()
    ensures |versions.compact_pointer| == V.LEVELS
    ensures forall l :: 0 <= l < V.LEVELS ==>
              B.StrictFiles(versions.nowversion[l]) && (l > 0 ==> B.Chained(versions.nowversion[l]))
  {
  }

  lemma FrontStrict(files: B.Files, n: nat)
    requires B.StrictFiles(files) && n <= |files|
    ensures B.StrictFiles(files[..n])
  {
  }

  lemma TakenFits(outs: B.Files, level: nat)
    requires B.StrictFiles(outs) && B.Ranged(outs)
    ensures B.StrictFiles(Taken(outs, level)) && B.Ranged(Taken(outs, level))
    ensures forall f :: f in Taken(outs, level) ==> f in outs
  {
  }

  lemma NotOverlapping(v: V.Levels, w: V.Levels, e: E.VersionEdit)
    requires M.Usable(e) && !VS.Overlapping(v, e) && forall l :: 0 <= l < V.LEVELS ==> w[l] == M.NextLevel(v, e, l)
    ensures forall l :: 0 < l < V.LEVELS ==> B.Chained(w[l])
  {
    hide B.Chained, M.NextLevel;
  }

  /** The edit can be applied and stored, and it does what it should. */
  lemma EditFits(e: E.VersionEdit, level: nat, in0: set<uint64>, in1: set<uint64>, outs: B.Files)
    requires level + 1 < V.LEVELS && e.added == M.SnapshotLevel(outs, level + 1)
    requires |e.pointers| == 1 && e.pointers[0].0 == level && |e.pointers[0].1| < UINT32_LIMIT
    requires forall l: nat :: M.DelsOf(e.deleted, l) == if l == level then in0 else if l == level + 1 then in1 else {}
    requires forall f :: f in outs ==> |f.smallest.user| + 8 < UINT32_LIMIT && |f.largest.user| + 8 < UINT32_LIMIT
    ensures ResultsEdit(e, level, in0, in1, outs) && E.Sizes32(e)
  {
    hide M.SnapshotLevel, M.NewsOf, M.DelsOf, M.WireOf, M.Tagged;
    M.NewsOfLevel(outs, level + 1, 0);
    AddedFit(outs, level + 1);
    forall d | d in e.deleted ensures d.0 < V.LEVELS {
      Deleted(e.deleted, d);
    }
    assert M.Usable(e);
    forall l | 0 <= l < V.LEVELS ensures M.NewsOf(e.added, l) == if l == level + 1 then outs else [] {
      M.NewsOfLevel(outs, level + 1, l);
    }
  }

  lemma Deleted(deleted: seq<(uint32, uint64)>, d: (uint32, uint64))
    requires d in deleted
    ensures d.1 in M.DelsOf(deleted, d.0)
  {
  }

  lemma AddedFit(outs: B.Files, level: uint32)
    requires forall f :: f in outs ==> |f.smallest.user| + 8 < UINT32_LIMIT && |f.largest.user| + 8 < UINT32_LIMIT
    ensures forall f :: f in M.SnapshotLevel(outs, level) ==>
              f.level == level && |f.smallest| < UINT32_LIMIT && |f.largest| < UINT32_LIMIT
  {
    var added := M.SnapshotLevel(outs, level);
    hide M.SnapshotLevel;
    forall f | f in added ensures f.level == level && |f.smallest| < UINT32_LIMIT && |f.largest| < UINT32_LIMIT {
      var i :| 0 <= i < |added| && added[i] == f;
      assert outs[i] in outs;
    }
  }

  // ---------------------------------------------------------------- from the inputs to the next version

  /** The one output file, if something is kept. */
  method WriteOutput(versions: VS.VersionSet, tables: V.Tables, outputs: seq<Entry>, size: uint64)
    returns (outs: B.Files, now: V.Tables)
    requires versions.next_file_number + 1 < UINT64_LIMIT
    requires Sorted(outputs) && forall k :: 0 <= k < |outputs| ==> Parsed(outputs[k])
    modifies versions`next_file_number
    ensures outs == OutputFiles(outputs, old(versions.next_file_number), size)
    ensures OutputsOf(outs, outputs, old(versions.next_file_number), now) && B.Ranged(outs)
    ensures now == if outputs == [] then tables else tables[old(versions.next_file_number) := outputs]
    ensures versions.next_file_number == old(versions.next_file_number) + |outs|
  {
    outs, now := [], tables;
    if outputs != [] {
      var number := versions.NewFileNumber();
      var f := B.FileMeta(number, size, outputs[0].key, outputs[|outputs| - 1].key);
      outs, now := [f], tables[number := outputs];
      KeyOrder();
      OutputFile(f, outputs, now);
    } else {
      NoEntries(now);
    }
  }

  /** The output files of these entries. */
  function OutputFiles(outputs: seq<Entry>, number: uint64, size: uint64): B.Files {
    if outputs == [] then [] else [D.FileOf(number, size, outputs)]
  }

  /** Output files that hold these entries under this number. */
  ghost predicate OutputsOf(outs: B.Files, outputs: seq<Entry>, number: uint64, now: V.Tables) {
    && |outs| == (if outputs == [] then 0 else 1) && B.StrictFiles(outs) && FilesOk(outs, now)
    && V.LevelEntries(outs, now) == Entries(outputs)
    && forall f :: f in outs ==> f.num == number && InputKey(f.smallest, outputs) && InputKey(f.largest, outputs)
  }

  ghost predicate InputKey(key: InternalKey, entries: seq<Entry>) {
    exists e :: e in entries && e.key == key
  }

  /** Storing a table under a new number keeps what the version has. */
  lemma NewTable(v: V.Levels, tables: V.Tables, number: uint64, outputs: seq<Entry>, now: V.Tables)
    requires V.VersionOk(v, tables) && D.NumbersBelow(v, number) && (now == tables || now == tables[number := outputs])
    ensures V.VersionOk(v, now) && D.Stored(v, now) == D.Stored(v, tables) && SameTables(v, v, tables, now)
  {
    hide V.VersionOk, D.Stored, V.TableOk;
    D.UnlistedTable(v, tables, number, outputs);
    TablesOf(v, tables);
    forall l, f | 0 <= l < V.LEVELS && f in v[l]
      ensures f.num in tables && f.num in now && now[f.num] == tables[f.num] {
      StoredFiles(v, tables, l, v[l]);
      Listed(v[l], tables);
    }
  }

  lemma VersionFits(versions: VS.VersionSet, tables: V.Tables)
    requires versions.Valid() && V.VersionOk(versions.nowversion, tables)
    ensures LevelsFit(versions.nowversion)
  {
    hide V.VersionOk, V.TableOk, VS.VersionSet.Valid, B.StrictFiles, B.Chained;
    var v := versions.nowversion;
    StrictNow(versions);
    TablesOf(v, tables);
    forall l, f | 0 <= l < V.LEVELS && f in v[l] ensures !Lt(f.largest, f.smallest) {
      StoredFiles(v, tables, l, v[l]);
      V.FileRange(f, tables);
    }
  }

  /** The numbers of the inputs and of the level they join are below the next one. */
  lemma OldNumbers(v: V.Levels, level: nat, in1: B.Files, number: uint64)
    requires D.NumbersBelow(v, number) && level + 1 < V.LEVELS && forall f :: f in in1 ==> f in v[level + 1]
    ensures number !in B.Nums(in1) && number !in B.Nums(v[level + 1])
  {
  }

  lemma FewerSame(v: V.Levels, w: V.Levels, tables: V.Tables, now: V.Tables)
    requires SameTables(v, v, tables, now)
    ensures SameTables(v, w, tables, now)
  {
  }

  /** What the run promises about reads of the new version. */
  ghost predicate ReadsAfter(v: V.Levels, w: V.Levels, tables: V.Tables, now: V.Tables, level: nat, in0: set<uint64>,
                             in1: set<uint64>,
                             input: seq<Entry>, snap: nat)
    requires level + 1 < V.LEVELS
  {
    && (forall user, s :: snap <= s <= MAX_SEQUENCE ==>
          (Resolve(Newest(V.EntriesFrom(w, now, 0), user, SeekTag(s)))
           == Resolve(Newest(V.EntriesFrom(v, tables, 0), user, SeekTag(s)))
           <==> !BroughtBack(v, tables, level, in0, in1, input, snap, user, s)))
    && (AskedAgree(input, snap, v, level) ==>
          forall user, s :: snap <= s <= MAX_SEQUENCE ==>
              !BroughtBack(v, tables, level, in0, in1, input, snap, user, s))
  }

  /** With all outputs installed, reads are as before; with none, the inputs are gone. */
  lemma RunEnds(v: V.Levels, w: V.Levels, tables: V.Tables, now: V.Tables, level: nat, in0: B.Files, in1: B.Files,
                outs: B.Files, installed: B.Files, input: seq<Entry>, snap: nat, number: uint64, taken: bool)
    requires V.VersionOk(v, tables) && Chosen(v, tables, level, in0, in1) && SameTables(v, v, tables, now)
    requires Replaces(v, w, level, B.Nums(in0), B.Nums(in1), installed)
    requires Sorted(input) && forall k :: 0 <= k < |input| ==> Parsed(input[k])
    requires OutputsOf(outs, Kept(input, |input|, snap, v, level), number, now)
    requires if taken then Entries(input) == Inputs(v, tables, level, B.Nums(in0), B.Nums(in1)) && installed == outs
             else installed == []
    ensures V.VersionOk(w, now)
    ensures taken ==> ReadsAfter(v, w, tables, now, level, B.Nums(in0), B.Nums(in1), input, snap)
    ensures !taken ==> forall user, bound :: InputsLost(v, w, tables, now, level, B.Nums(in0), B.Nums(in1), user, bound)
  {
    hide V.VersionOk, Replaces, Kept, Inputs, Beside, Newer, InputsLost, BroughtBack, AskedAgree, V.LevelEntries,
         V.TableOk, SameTables,
         Resolve, Newest, SeekTag, B.StrictFiles;
    FewerSame(v, w, tables, now);
    if taken {
      assert Compacted(v, w, tables, now, level, B.Nums(in0), B.Nums(in1), outs, input, snap);
      ResultsKeepVersion(v, w, tables, now, level, B.Nums(in0), B.Nums(in1), outs, input, snap);
    } else {
      InputsDropped(v, w, tables, now, level, B.Nums(in0), B.Nums(in1));
    }
  }

  /** The keys of the inputs fit their length prefixes. */
  ghost predicate SmallInputs(input: seq<Entry>) {
    forall e :: e in input ==> |e.key.user| + 8 < UINT32_LIMIT
  }

  lemma SmallOutputs(input: seq<Entry>, snap: nat, v: V.Levels, level: nat, outs: B.Files, number: uint64,
                     now: V.Tables)
    requires level + 1 < V.LEVELS && SmallInputs(input)
    requires OutputsOf(outs, Kept(input, |input|, snap, v, level), number, now)
    ensures forall f :: f in outs ==> |f.smallest.user| + 8 < UINT32_LIMIT && |f.largest.user| + 8 < UINT32_LIMIT
  {
    KeptMembers(input, |input|, snap, v, level);
  }

  lemma ParsedOutputs(input: seq<Entry>, snap: nat, v: V.Levels, level: nat)
    requires level + 1 < V.LEVELS && Sorted(input) && forall k :: 0 <= k < |input| ==> Parsed(input[k])
    ensures var kept := Kept(input, |input|, snap, v, level);
            Sorted(kept) && forall k :: 0 <= k < |kept| ==> Parsed(kept[k])
  {
    KeptSorted(input, |input|, snap, v, level);
    KeptMembers(input, |input|, snap, v, level);
    var kept := Kept(input, |input|, snap, v, level);
    forall k | 0 <= k < |kept| ensures Parsed(kept[k]) {
      assert kept[k] in kept;
    }
  }

  /** The lists as the code selects them can be merged. */
  lemma ListsMerge(v: V.Levels, tables: V.Tables, level: nat, in0: B.Files, in1: B.Files, empty: bool)
    requires V.VersionOk(v, tables) && Chosen(v, tables, level, in0, in1)
    ensures (forall f :: f in in0 ==> f.num in tables) && forall f :: f in in1 ==> f.num in tables
    ensures var lists := InputLists(level, in0, in1, tables, empty);
            && Mergeable(lists) && Sorted(MergeAll(lists))
            && (forall k :: 0 <= k < |MergeAll(lists)| ==> Parsed(MergeAll(lists)[k]))
            && (empty ==> MergeAll(lists) == [])
            && (!empty ==>
                  lists != [] && Entries(MergeAll(lists)) == Inputs(v, tables, level, B.Nums(in0), B.Nums(in1)))
  {
    hide V.VersionOk, Newer, Inputs, Beside, MergeAll, InSome, Sorted, Parsed;
    InputsMerge(v, tables, level, in0, in1);
    if empty {
      EmptyLists(level, in0, in1, tables);
      NothingMerges();
    }
  }

  lemma NothingMerges()
    ensures Mergeable([]) && Mergeable([[]]) && Sorted([])
  {
  }

  /**
   The end of `DoCompactionWork`: the output file, if something is kept, and the edit. `merged` says that the
   merged entries are those of the inputs; otherwise there are none.
   */
  method Conclude(versions: VS.VersionSet, tables: V.Tables, level: nat, in0: B.Files, in1: B.Files, pointer: seq<byte>,
                  outputs: seq<Entry>, size: uint64, io: VS.Io, ghost input: seq<Entry>, ghost snap: nat,
                  ghost merged: bool)
    returns (r: Outcome, now: V.Tables)
    requires versions.Valid() && M.SmallKeys(versions.nowversion) && M.SmallPointers(versions.compact_pointer)
    requires D.NumbersBelow(versions.nowversion, versions.next_file_number)
             && versions.next_file_number + 1 < UINT64_LIMIT
    requires V.VersionOk(versions.nowversion, tables) && Chosen(versions.nowversion, tables, level, in0, in1)
    requires SmallInputs(input) && |pointer| < UINT32_LIMIT && snap < MAX_SEQUENCE
    requires Sorted(input) && forall k :: 0 <= k < |input| ==> Parsed(input[k])
    requires outputs == Kept(input, |input|, snap, versions.nowversion, level)
    requires if merged then Entries(input) == Inputs(versions.nowversion, tables, level, B.Nums(in0), B.Nums(in1))
             else input == []
    modifies versions, versions.descriptor_log
    ensures var outs := OutputFiles(outputs, old(versions.next_file_number), size);
            Concludes(old(versions.nowversion), versions.nowversion, tables, now, level, in0, in1, outs, input, snap,
                      merged, r)
            && (r.Undefined? <==> level > |outs|)
            && (r.Aborted? <==>
                  level <= |outs| && OutputsOverlap(old(versions.nowversion), level, B.Nums(in1), Taken(outs, level)))
            && (r.Installed? <==>
                  && level <= |outs| && !r.Aborted? && io.append
                  && (old(versions.descriptor_log) == null ==> io.create && io.snapshot && io.current))
            && versions.next_file_number == old(versions.next_file_number) + |outs|
    ensures now == if outputs != [] then tables[old(versions.next_file_number) := outputs] else tables
    ensures versions.compact_pointer == if r.Undefined? then old(versions.compact_pointer)
              else old(versions.compact_pointer)[level := pointer]
    ensures versions.last_sequence == old(versions.last_sequence) && versions.log_number == old(versions.log_number)
    ensures !r.Aborted? && (r.Installed? ==> old(Unlisted(versions, level + 1, versions.next_file_number)))
            ==> versions.Valid()
  {
    hide V.VersionOk, Sorted, Newer, Beside, Inputs, Kept, ReadsAfter, InputsLost, SameTables, D.Stored, D.NumbersBelow,
         M.SmallKeys, M.SmallPointers, OutputsOf, SmallInputs, Replaces, VS.VersionSet.Valid, LevelsFit, OutputsOverlap,
         Clashes, B.Chained, B.Ranged, B.StrictFiles, D.FileOf, M.NextPointers, B.Compatible, InstallEdit,
         VS.VersionSet.StateNow, VS.VersionSet.EditsOk, Unlisted;
    ghost var v := versions.nowversion;
    ParsedOutputs(input, snap, v, level);
    ghost var number := versions.next_file_number;
    VersionFits(versions, tables);
    var outs;
    outs, now := WriteOutput(versions, tables, outputs, size);
    NewTable(v, tables, number, outputs, now);
    OldNumbers(v, level, in1, number);
    SmallOutputs(input, snap, v, level, outs, number, now);
    TakenFits(outs, level);
    ClashesIff(v, level, B.Nums(in0), B.Nums(in1), Taken(outs, level));
    NewNumbers(versions, level + 1, number, Taken(outs, level));
    r := InstallCompactionResults(versions, level, in0, in1, outs, pointer, io);
    if r.Installed? {
      KeptNone(input, snap, v, level);
      RunEnds(v, versions.nowversion, tables, now, level, in0, in1, outs, outs[..level], input, snap, number,
              merged && level == |outs|);
    }
  }

  /** The manifest has listed only smaller numbers than this one on the level. */
  ghost predicate Unlisted(versions: VS.VersionSet, l: nat, number: uint64)
    requires l < V.LEVELS && versions.EditsOk()
    reads versions`descriptor_log, versions`logged, versions`nowversion
  {
    forall f :: f in versions.StateNow(l).added ==> f.num < number
  }

  lemma NewNumbers(versions: VS.VersionSet, l: nat, number: uint64, outs: B.Files)
    requires l < V.LEVELS && versions.Valid() && forall f :: f in outs ==> f.num == number
    ensures Unlisted(versions, l, number) ==> B.Compatible(versions.StateNow(l), outs)
  {
    hide VS.VersionSet.StateNow, VS.VersionSet.Agrees, VS.VersionSet.Holds;
    if Unlisted(versions, l, number) {
      B.FreshIsCompatible(versions.StateNow(l), outs);
    }
  }

  /** What the end of a compaction promises about the new version. */
  ghost predicate Concludes(v: V.Levels, w: V.Levels, tables: V.Tables, now: V.Tables, level: nat, in0: B.Files,
                            in1: B.Files, outs: B.Files, input: seq<Entry>, snap: nat, merged: bool, r: Outcome)
    requires level + 1 < V.LEVELS
  {
    && V.VersionOk(w, now)
    && (r.Installed? ==> Replaces(v, w, level, B.Nums(in0), B.Nums(in1), Taken(outs, level)))
    && (r.Installed? && merged && level == |outs| ==>
          ReadsAfter(v, w, tables, now, level, B.Nums(in0), B.Nums(in1), input, snap))
    && (r.Installed? && (!merged || level < |outs|) ==>
          forall user, bound :: InputsLost(v, w, tables, now, level, B.Nums(in0), B.Nums(in1), user, bound))
    && (!r.Installed? ==> w == v && D.Stored(v, now) == D.Stored(v, tables))
  }

  /**
   One compaction. It is installed if it is defined, its output does not overlap on the next level, and the
   file operations succeed. If its inputs are merged and all its outputs installed, the new version is valid
   and reads are as before, unless a dropped tombstone hid a deeper value. The code merges none (`empty`), or
   with files on both levels has no iterator, and installs all outputs only if there are as many as the number
   of the level: otherwise the run is undefined or the inputs are lost.
   */
  method Compact(versions: VS.VersionSet, tables: V.Tables, level: nat, in0: B.Files, in1: B.Files, empty: bool,
                 pointer: seq<byte>, small_snap: nat, has: bool, around: Around, size: uint64, io: VS.Io)
    returns (r: Outcome, now: V.Tables)
    requires versions.Valid() && M.SmallKeys(versions.nowversion) && M.SmallPointers(versions.compact_pointer)
    requires D.NumbersBelow(versions.nowversion, versions.next_file_number)
             && versions.next_file_number + 1 < UINT64_LIMIT
    requires V.VersionOk(versions.nowversion, tables) && Chosen(versions.nowversion, tables, level, in0, in1)
    requires (forall f :: f in in0 ==> f.num in tables) && forall f :: f in in1 ==> f.num in tables
    requires SmallInputs(MergeAll(InputLists(level, in0, in1, tables, empty))) && |pointer| < UINT32_LIMIT
             && small_snap < MAX_SEQUENCE
    modifies versions, versions.descriptor_log
    ensures var v, input := old(versions.nowversion), MergeAll(InputLists(level, in0, in1, tables, empty));
            var kept := Kept(input, |input|, small_snap, v, level);
            var outs := OutputFiles(kept, old(versions.next_file_number), size);
            var merges := (empty ==> in1 == [])
                          && forall i :: 0 <= i < |input| ==> TurnDefined(input, i, small_snap, v, level, has, around);
            && (r.Undefined? <==> !merges || level > |outs|)
            && (r.Aborted? <==>
                  merges && level <= |outs| && OutputsOverlap(v, level, B.Nums(in1), Taken(outs, level)))
            && (r.Installed? <==>
                  && merges && level <= |outs| && !r.Aborted? && io.append
                  && (old(versions.descriptor_log) == null ==> io.create && io.snapshot && io.current))
            && now == (if merges && kept != [] then tables[old(versions.next_file_number) := kept] else tables)
            && versions.next_file_number == old(versions.next_file_number) + (if merges then |outs| else 0)
            && Concludes(v, versions.nowversion, tables, now, level, in0, in1, outs, input, small_snap, !empty, r)
    ensures versions.compact_pointer == if r.Undefined? then old(versions.compact_pointer)
              else old(versions.compact_pointer)[level := pointer]
    ensures versions.last_sequence == old(versions.last_sequence) && versions.log_number == old(versions.log_number)
    ensures !r.Aborted? && (r.Installed? ==> old(Unlisted(versions, level + 1, versions.next_file_number)))
            ==> versions.Valid()
  {
    hide V.VersionOk, Mergeable, MergeAll, InputLists, Sorted, Newer, Beside, Inputs, Kept, ReadsAfter, InputsLost,
         SameTables, D.Stored,
         D.NumbersBelow, M.SmallKeys, M.SmallPointers, TurnDefined, Merageitor.Inv, OutputsOf, SmallInputs, Replaces,
         VS.VersionSet.Valid, LevelsFit, OutputsOverlap, Clashes, B.Chained, B.Ranged, B.StrictFiles, D.FileOf,
         M.NextPointers, B.Compatible, InstallEdit,
         VS.VersionSet.StateNow, VS.VersionSet.EditsOk;
    ghost var v := versions.nowversion;
    ListsMerge(v, tables, level, in0, in1, empty);
    EmptyLists(level, in0, in1, tables);
    var iter := MakeInputIterator(level, in0, in1, tables, empty);
    if iter == null {
      return Outcome.Undefined, tables;
    }
    ghost var input := iter.merged;
    var comp := new C.Compaction(level, versions.nowversion);
    var defined, outputs := DoCompactionWork(comp, iter, small_snap, has, around);
    if !defined {
      return Outcome.Undefined, tables;
    }
    r, now := Conclude(versions, tables, level, in0, in1, pointer, outputs, size, io, input, small_snap, !empty);
  }
}
