/**
 The database (src/db/db.cpp) with one writer that holds the lock: writes, the freeze of the memtable,
 its flush to level 0, and reads.
 */
module Db {
  import opened Common
  import opened Keys
  import opened Lookup
  import opened Wal
  import opened Memtable
  import opened WriteBatch
  import opened History
  import opened Recovery
  import B = Builder
  import E = EditCodec
  import M = Manifest
  import VS = VersionSet
  import V = Version

  // ---------------------------------------------------------------- level 0 gets a new table

  /** Entries of the files of a version. */
  ghost function Stored(v: V.Levels, tables: V.Tables): set<Entry> {
    V.EntriesFrom(v, tables, 0)
  }

  /** Every listed file has a number below n. */
  ghost predicate NumbersBelow(v: V.Levels, n: nat) {
    forall l, f :: 0 <= l < M.LEVELS && f in v[l] ==> f.num < n
  }

  lemma LevelMembers(files: B.Files, more: B.Files, tables: V.Tables, f: B.FileMeta)
    requires forall g :: g in more <==> g in files || g == f
    ensures V.LevelEntries(more, tables) == V.LevelEntries(files, tables) + V.FileEntries(f, tables)
  {
    forall e ensures e in V.LevelEntries(more, tables)
      <==> e in V.LevelEntries(files, tables) || e in V.FileEntries(f, tables) {
      if e in V.LevelEntries(more, tables) {
        var i :| 0 <= i < |more| && e in V.FileEntries(more[i], tables);
        assert more[i] in more;
        if more[i] != f {
          var j :| 0 <= j < |files| && files[j] == more[i];
        }
      }
      if e in V.LevelEntries(files, tables) {
        var i :| 0 <= i < |files| && e in V.FileEntries(files[i], tables);
        assert files[i] in files && files[i] in more;
        var j :| 0 <= j < |more| && more[j] == files[i];
      }
      if e in V.FileEntries(f, tables) {
        assert f in more;
        var j :| 0 <= j < |more| && more[j] == f;
      }
    }
  }

  /** Storing a table under a number no file has leaves the entries of listed files alone. */
  lemma OtherTables(files: B.Files, tables: V.Tables, num: uint64, table: seq<Entry>)
    requires forall f :: f in files ==> f.num != num
    ensures V.LevelEntries(files, tables[num := table]) == V.LevelEntries(files, tables)
  {
    forall i | 0 <= i < |files|
      ensures V.FileEntries(files[i], tables[num := table]) == V.FileEntries(files[i], tables) {
      assert files[i] in files;
    }
  }

  lemma {:induction false} OtherLevels(v: V.Levels, tables: V.Tables, num: uint64, table: seq<Entry>, from: nat)
    requires from <= M.LEVELS && NumbersBelow(v, num)
    ensures V.EntriesFrom(v, tables[num := table], from) == V.EntriesFrom(v, tables, from)
    decreases M.LEVELS - from
  {
    if from < M.LEVELS {
      OtherTables(v[from], tables, num, table);
      OtherLevels(v, tables, num, table, from + 1);
    }
  }

  lemma OtherFiles(v: V.Levels, tables: V.Tables, num: uint64, table: seq<Entry>)
    requires V.TablesOk(v, tables) && NumbersBelow(v, num) && V.NewestFirst(v[0], tables)
    ensures V.TablesOk(v, tables[num := table]) && V.NewestFirst(v[0], tables[num := table])
  {
    var now := tables[num := table];
    forall l, i | 0 <= l < M.LEVELS && 0 <= i < |v[l]|
      ensures V.TableOk(v[l][i], now) && V.FileEntries(v[l][i], now) == V.FileEntries(v[l][i], tables)
    {
      assert v[l][i] in v[l];
      assert V.TableOk(v[l][i], tables);
    }
  }

  /** A table that no file of the version lists does not matter. */
  lemma UnlistedTable(v: V.Levels, tables: V.Tables, num: uint64, table: seq<Entry>)
    requires V.VersionOk(v, tables) && NumbersBelow(v, num)
    ensures V.VersionOk(v, tables[num := table]) && Stored(v, tables[num := table]) == Stored(v, tables)
  {
    var now := tables[num := table];
    hide V.TablesOk, V.NewestFirst, B.Chained, V.LevelEntries, NumbersBelow, Newer, V.EntriesFrom;
    OtherFiles(v, tables, num, table);
    OtherLevels(v, tables, num, table, 0);
    forall l | 0 <= l < M.LEVELS ensures Newer(V.LevelEntries(v[l], now), V.EntriesFrom(v, now, l + 1)) {
      OtherEntries(v, tables, num, table, l);
    }
  }

  lemma OtherEntries(v: V.Levels, tables: V.Tables, num: uint64, table: seq<Entry>, l: nat)
    requires l < M.LEVELS && NumbersBelow(v, num)
    ensures V.LevelEntries(v[l], tables[num := table]) == V.LevelEntries(v[l], tables)
    ensures V.EntriesFrom(v, tables[num := table], l + 1) == V.EntriesFrom(v, tables, l + 1)
  {
    OtherTables(v[l], tables, num, table);
    OtherLevels(v, tables, num, table, l + 1);
  }

  lemma NewestFirstGrows(files: B.Files, more: B.Files, tables: V.Tables, f: B.FileMeta)
    requires V.NewestFirst(files, tables) && B.StrictFiles(more)
    requires forall g :: g in more <==> g in files || g == f
    requires forall g :: g in files ==> g.num < f.num
    requires Newer(V.FileEntries(f, tables), V.LevelEntries(files, tables))
    ensures V.NewestFirst(more, tables)
  {
    B.FileOrder();
    forall i, j | 0 <= i < |more| && 0 <= j < |more| && i != j
      ensures more[i].num != more[j].num
      ensures more[i].num > more[j].num ==> Newer(V.FileEntries(more[i], tables), V.FileEntries(more[j], tables))
    {
      assert more[i] != more[j];
      assert more[i] in more && more[j] in more;
      if more[j] != f {
        var k :| 0 <= k < |files| && files[k] == more[j];
        assert V.FileEntries(more[j], tables) <= V.LevelEntries(files, tables);
        if more[i] != f {
          var m :| 0 <= m < |files| && files[m] == more[i];
        }
      }
    }
  }

  /** What a flush produces: a sorted, nonempty table and its file. */
  ghost predicate TableOf(meta: B.FileMeta, table: seq<Entry>) {
    && table != [] && Sorted(table) && meta.smallest == table[0].key && meta.largest == table[|table| - 1].key
    && forall i :: 0 <= i < |table| ==> Kind(table[i].key.tag) <= TYPE_VALUE
  }

  /** The version w is v with one more file on level 0. */
  ghost predicate OneMore(v: V.Levels, w: V.Levels, meta: B.FileMeta) {
    && B.StrictFiles(w[0])
    && (forall g :: g in w[0] <==> g in v[0] || g == meta)
    && forall l :: 0 < l < M.LEVELS ==> w[l] == v[l]
  }

  lemma {:induction false} SameLevels(v: V.Levels, w: V.Levels, tables: V.Tables, from: nat)
    requires 0 < from <= M.LEVELS && forall l :: 0 < l < M.LEVELS ==> w[l] == v[l]
    ensures V.EntriesFrom(w, tables, from) == V.EntriesFrom(v, tables, from)
    decreases M.LEVELS - from
  {
    if from < M.LEVELS {
      SameLevels(v, w, tables, from + 1);
    }
  }

  /** A table of entries newer than all others, under a new number on level 0, keeps the invariant of versions. */
  lemma FlushKeepsVersion(v: V.Levels, w: V.Levels, tables: V.Tables, meta: B.FileMeta)
    requires V.VersionOk(v, tables) && NumbersBelow(v, meta.num) && OneMore(v, w, meta)
    requires meta.num in tables && TableOf(meta, tables[meta.num])
             && Newer(Entries(tables[meta.num]), Stored(v, tables))
    ensures V.VersionOk(w, tables) && NumbersBelow(w, meta.num + 1)
    ensures Stored(w, tables) == Stored(v, tables) + Entries(tables[meta.num])
  {
    hide V.TablesOk, V.NewestFirst, TableOf, Newer, NumbersBelow, B.Chained, B.StrictFiles, V.LevelEntries, Stored;
    ListedTables(v, w, tables, meta);
    Level0Grows(v, w, tables, meta);
    forall l | 0 <= l < M.LEVELS ensures Newer(V.LevelEntries(w[l], tables), V.EntriesFrom(w, tables, l + 1)) {
      if l > 0 {
        SameLevels(v, w, tables, l + 1);
      }
    }
  }

  lemma Level0Grows(v: V.Levels, w: V.Levels, tables: V.Tables, meta: B.FileMeta)
    requires V.NewestFirst(v[0], tables) && NumbersBelow(v, meta.num) && OneMore(v, w, meta)
    requires Newer(V.LevelEntries(v[0], tables), V.EntriesFrom(v, tables, 1))
    requires meta.num in tables && Newer(Entries(tables[meta.num]), Stored(v, tables))
    ensures V.NewestFirst(w[0], tables)
    ensures Newer(V.LevelEntries(w[0], tables), V.EntriesFrom(w, tables, 1))
    ensures Stored(w, tables) == Stored(v, tables) + Entries(tables[meta.num])
  {
    LevelMembers(v[0], w[0], tables, meta);
    SameLevels(v, w, tables, 1);
    assert V.LevelEntries(v[0], tables) <= Stored(v, tables);
    assert V.EntriesFrom(v, tables, 1) <= Stored(v, tables);
    assert forall g :: g in v[0] ==> g.num < meta.num;
    NewestFirstGrows(v[0], w[0], tables, meta);
  }

  lemma ListedTables(v: V.Levels, w: V.Levels, tables: V.Tables, meta: B.FileMeta)
    requires V.TablesOk(v, tables) && NumbersBelow(v, meta.num) && OneMore(v, w, meta)
    requires meta.num in tables && TableOf(meta, tables[meta.num])
    ensures V.TablesOk(w, tables) && NumbersBelow(w, meta.num + 1)
  {
    forall l, i | 0 <= l < M.LEVELS && 0 <= i < |w[l]| ensures V.TableOk(w[l][i], tables) {
      assert w[l][i] in w[l];
      if w[l][i] != meta {
        assert w[l][i] in v[l];
        var j :| 0 <= j < |v[l]| && v[l][j] == w[l][i];
        assert V.TableOk(v[l][j], tables);
      }
    }
  }

  // ---------------------------------------------------------------- the edit of a flush

  /** The smallest or the largest key of the table is as long as the payload of a log block. */
  predicate LongKeys(meta: B.FileMeta) {
    |meta.smallest.user| + 8 >= BLOCK - HEADER || |meta.largest.user| + 8 >= BLOCK - HEADER
  }

  /** The edit of `CompactMemTable`: one new file on level 0 and the number of the current log. */
  function FlushEdit(log: uint64, meta: B.FileMeta): E.VersionEdit {
    E.VersionEdit(Some(log), None, None, [], [], [M.WireOf(0, meta)])
  }

  lemma LongFlush(log: uint64, meta: B.FileMeta)
    requires LongKeys(meta)
    ensures var f := M.WireOf(0, meta);
            f in FlushEdit(log, meta).added && (|f.smallest| >= BLOCK - HEADER || |f.largest| >= BLOCK - HEADER)
  {
  }

  lemma FlushNews(log: uint64, meta: B.FileMeta, l: nat)
    ensures M.Usable(FlushEdit(log, meta))
    ensures M.DelsOf(FlushEdit(log, meta).deleted, l) == {}
    ensures M.NewsOf(FlushEdit(log, meta).added, l) == if l == 0 then [meta] else []
  {
    M.MetaOfWire(0, meta);
  }

  /** What the edit does to the accumulated state of a level. */
  lemma FlushStates(log: uint64, meta: B.FileMeta, st: B.LevelState, l: nat)
    requires B.StrictFiles(st.added) && forall f :: f in st.added ==> f.num < meta.num
    ensures M.Usable(FlushEdit(log, meta))
    ensures B.Compatible(st, M.NewsOf(FlushEdit(log, meta).added, l))
    ensures forall f :: f in M.ApplyEditAt(st, FlushEdit(log, meta), l).added ==> f.num <= meta.num
  {
    FlushNews(log, meta, l);
    var news := M.NewsOf(FlushEdit(log, meta).added, l);
    assert forall f :: f in news ==> f == meta;
    B.FreshIsCompatible(st, news);
    B.StateMembers(st, {}, news);
    forall f | f in M.ApplyEditAt(st, FlushEdit(log, meta), l).added ensures f.num <= meta.num {
      if f !in st.added {
        B.FirstInMember(news, f);
      }
    }
  }

  /** Installing the edit puts the file on level 0 and changes nothing else. */
  lemma FlushLevels(v: V.Levels, log: uint64, meta: B.FileMeta)
    requires (forall l :: 0 <= l < M.LEVELS ==> B.StrictFiles(v[l])) && NumbersBelow(v, meta.num)
    ensures M.Usable(FlushEdit(log, meta))
    ensures var next := M.NextLevel(v, FlushEdit(log, meta), 0);
            B.StrictFiles(next) && forall g :: g in next <==> g in v[0] || g == meta
    ensures forall l :: 0 < l < M.LEVELS ==> M.NextLevel(v, FlushEdit(log, meta), l) == v[l]
  {
    forall l | 0 < l < M.LEVELS ensures M.NextLevel(v, FlushEdit(log, meta), l) == v[l] {
      FlushNews(log, meta, l);
      B.KeptNothing(v[l]);
      assert {} + {} == B.NO_CHANGE.deleted;
    }
    FlushNews(log, meta, 0);
    FlushLevel0(v[0], meta);
  }

  lemma FlushLevel0(files: B.Files, meta: B.FileMeta)
    requires B.StrictFiles(files) && forall f :: f in files ==> f.num < meta.num
    ensures var next := B.SaveLevel(files, B.ApplyLevel(B.NO_CHANGE, {}, [meta]));
            B.StrictFiles(next) && forall g :: g in next <==> g in files || g == meta
  {
    var st := B.ApplyLevel(B.NO_CHANGE, {}, [meta]);
    B.StateMembers(B.NO_CHANGE, {}, [meta]);
    assert [meta][1..] == [];
    assert forall g :: B.FirstIn([meta], g) <==> g == meta;
    assert forall g :: B.NoKey(B.NO_CHANGE.added, g);
    B.StrictIsSorted(files);
    B.SaveLevelCorrect(files, st);
    B.SaveLevelOnce(files, st);
  }

  // ---------------------------------------------------------------- writes, layer by layer

  /** Entries of newer writes are newer, also once they are flushed. */
  lemma FlushedNewer(a: seq<Write>, b: seq<Write>)
    requires (forall w :: w in a ==> Fits(w)) && (forall w :: w in b ==> Fits(w)) && Older(a, b)
    ensures Newer(Entries(Flushed(Apply(b))), Entries(Flushed(Apply(a))))
  {
    ApplySorted(a);
    ApplySorted(b);
    FlushedMembers(Apply(a));
    FlushedMembers(Apply(b));
    forall x, y | x in Flushed(Apply(b)) && y in Flushed(Apply(a)) ensures x.key.tag > y.key.tag {
      var e :| e in Apply(b) && FlushedEntry(e) == x;
      var d :| d in Apply(a) && FlushedEntry(d) == y;
      var w :| w in b && EntryFor(w) == e;
      var v :| v in a && EntryFor(v) == d;
      TagsCompare(v, w);
    }
  }

  /** Flushing two runs of writes one after the other stores what flushing them together would. */
  lemma FlushedUnion(a: seq<Write>, b: seq<Write>)
    requires Ordered(a + b) && Older(a, b)
    requires (forall w :: w in a ==> Fits(w)) && forall w :: w in b ==> Fits(w)
    ensures Entries(Flushed(Apply(a + b))) == Entries(Flushed(Apply(a))) + Entries(Flushed(Apply(b)))
  {
    ApplyConcat(a, b);
    FlushedMembers(Apply(a + b));
    FlushedMembers(Apply(a));
    FlushedMembers(Apply(b));
    forall x ensures x in Flushed(Apply(a + b)) <==> x in Flushed(Apply(a)) || x in Flushed(Apply(b)) {
      assert forall e :: e in Apply(a + b) <==> e in Entries(Apply(a + b));
      assert forall e :: e in Apply(a) <==> e in Entries(Apply(a));
      assert forall e :: e in Apply(b) <==> e in Entries(Apply(b));
    }
  }

  lemma FlushedTable(contents: seq<Entry>, meta: B.FileMeta)
    requires Sorted(contents) && contents != [] && forall e :: e in contents ==> SoundEntry(e)
    requires meta.smallest == contents[0].key && meta.largest == contents[|contents| - 1].key
    ensures TableOf(meta, Flushed(contents))
    ensures |meta.smallest.user| + 8 < UINT32_LIMIT && |meta.largest.user| + 8 < UINT32_LIMIT
  {
    assert contents[0] in contents && contents[|contents| - 1] in contents;
    forall i | 0 <= i < |contents| ensures Kind(Flushed(contents)[i].key.tag) <= TYPE_VALUE {
      assert contents[i] in contents;
    }
  }

  // ---------------------------------------------------------------- the history in three layers

  /** Writes are in order, and their sequences fall from the memtable to the tables. */
  ghost predicate Layered(done: seq<Write>, mid: seq<Write>, recent: seq<Write>, last: nat) {
    && Ordered(done) && Ordered(mid) && Ordered(recent)
    && Older(done, mid) && Older(done, recent) && Older(mid, recent)
    && forall w :: w in done || w in mid || w in recent ==> w.sequence <= last
  }

  lemma LayeredHistory(done: seq<Write>, mid: seq<Write>, recent: seq<Write>, last: nat)
    requires Layered(done, mid, recent, last)
    ensures Ordered(done + mid + recent) && Ordered(mid + recent) && Ordered(done + mid)
    ensures Older(done, mid + recent)
    ensures (done + mid + recent)[..|done|] == done && (done + mid + recent)[|done|..] == mid + recent
  {
    OrderedConcat(mid, recent);
    OrderedConcat(done, mid);
    OrderedConcat(done + mid, recent);
  }

  lemma OrderedConcat(a: seq<Write>, b: seq<Write>)
    requires Ordered(a) && Ordered(b) && Older(a, b)
    ensures Ordered(a + b)
  {
    forall i, j | 0 <= i < j < |a + b| ensures (a + b)[i].sequence <= (a + b)[j].sequence {
      if i < |a| <= j {
        assert a[i] in a && b[j - |a|] in b;
      }
    }
  }

  /** A batch behind the newest layer keeps the layers. */
  lemma LayersGrow(done: seq<Write>, mid: seq<Write>, recent: seq<Write>, last: nat, ops: seq<Op>)
    requires Layered(done, mid, recent, last)
    requires Loggable(Logged(last + 1, ops))
    ensures Layered(done, mid, recent + Writes(last + 1, ops), last + |ops|)
  {
    var news := Writes(last + 1, ops);
    forall w | w in news ensures Fits(w) && w.sequence == last + 1 && |ops| > 0 {
      var i :| 0 <= i < |news| && news[i] == w;
      assert ops[i] in ops;
    }
    OrderedConcat(recent, news);
  }

  lemma LayersLater(done: seq<Write>, mid: seq<Write>, recent: seq<Write>, last: nat, later: nat)
    requires Layered(done, mid, recent, last) && last <= later
    ensures Layered(done, mid, recent, later)
  {
  }

  /** `NewDB`: the bytes of the first manifest of a database. */
  method NewDB(crc: Crc) returns (manifest: seq<byte>)
    ensures Placed(0, SplitAll(0, M.Records([M.NEW_DB])))
            && manifest == Emit(crc, 0, SplitAll(0, M.Records([M.NEW_DB])))
    ensures M.UsableUntilBad(ReadAll(crc, true, manifest, 0).0)
    ensures M.Replay(M.START, ReadAll(crc, true, manifest, 0).0) == Some(M.ApplyEdit(M.START, M.NEW_DB))
  {
    hide M.Replay, M.UsableUntilBad, ReadAll, SplitAll, Split, Emit, Placed, M.Usable, M.Storable, M.Survives,
         M.ApplyEdit, E.EncodedEdit;
    var loger := new WalWriter(crc);
    var record := E.EncodeTo(M.NEW_DB, []);
    assert record == E.EncodedEdit(M.NEW_DB);
    NoRecords(crc);
    LogGrows(crc, [], record);
    loger.Appendrecord(record);
    manifest := loger.file;
    assert [] + [record] == M.Records([M.NEW_DB]);
    M.ScalarsSurvive(0, 0, 2, 0);
    M.ManifestReadBack(crc, [M.NEW_DB]);
    M.FoldedOne(M.START, M.NEW_DB);
  }

  lemma NoRecords(crc: Crc)
    ensures Emit(crc, 0, SplitAll(0, [])) == []
  {
  }

  // ---------------------------------------------------------------- the tables, one for each flush

  /** Runs of writes, one behind the other. */
  function Joined(runs: seq<seq<Write>>): seq<Write> {
    if runs == [] then [] else Joined(DropLast(runs)) + Last(runs)
  }

  lemma JoinedSnoc(runs: seq<seq<Write>>, run: seq<Write>)
    ensures Joined(runs + [run]) == Joined(runs) + run
  {
    assert DropLast(runs + [run]) == runs && Last(runs + [run]) == run;
  }

  /** The files of level 0 in the order of their flushes, each with the table of its run. */
  ghost predicate Listed(files: B.Files, runs: seq<seq<Write>>, tables: V.Tables, level: B.Files) {
    && |files| == |runs|
    && (forall i, j :: 0 <= i < j < |files| ==> files[i].num < files[j].num)
    && (forall f :: f in level <==> f in files)
    && forall i :: 0 <= i < |files| ==> TableFor(files[i], runs[i], tables)
  }

  ghost predicate TableFor(f: B.FileMeta, run: seq<Write>, tables: V.Tables) {
    (forall w :: w in run ==> Fits(w)) && f.num in tables && tables[f.num] == Flushed(Apply(run))
  }

  lemma ListedStore(files: B.Files, runs: seq<seq<Write>>, tables: V.Tables, level: B.Files, num: uint64,
                    table: seq<Entry>)
    requires Listed(files, runs, tables, level) && forall f :: f in level ==> f.num < num
    ensures Listed(files, runs, tables[num := table], level)
  {
    hide Apply, Flushed;
    forall i | 0 <= i < |files| ensures TableFor(files[i], runs[i], tables[num := table]) {
      assert files[i] in files && files[i] in level;
    }
  }

  lemma ListedGrows(files: B.Files, runs: seq<seq<Write>>, tables: V.Tables, level: B.Files, more: B.Files,
                    meta: B.FileMeta, run: seq<Write>)
    requires Listed(files, runs, tables, level) && TableFor(meta, run, tables)
    requires (forall g :: g in more <==> g in level || g == meta) && forall f :: f in level ==> f.num < meta.num
    ensures Listed(files + [meta], runs + [run], tables, more)
  {
    hide TableFor;
    forall i | 0 <= i < |files| ensures files[i].num < meta.num {
      assert files[i] in files && files[i] in level;
    }
  }

  /** A read in the table of this run compares a key of less than eight bytes. */
  ghost predicate MeetsShort(run: seq<Write>, key: UserKey, s: nat)
    requires s <= MAX_SEQUENCE
  {
    && (forall w :: w in run ==> Fits(w))
    && var table := Flushed(Apply(run));
       table != [] && UserLe(table[0].key.user, key) && V.ShortMet(table, key, SeekTag(s))
  }

  /** Some run's table meets a short key, and no later run has an effective write to the key. */
  ghost predicate ShortMetIn(runs: seq<seq<Write>>, key: UserKey, s: nat)
    requires s <= MAX_SEQUENCE
  {
    exists i :: 0 <= i < |runs| && MeetsShort(runs[i], key, s) && NoneLater(runs, i, key, s)
  }

  ghost predicate NoneLater(runs: seq<seq<Write>>, i: nat, key: UserKey, s: nat) {
    forall j :: i < j < |runs| ==> Effective(runs[j], key, s).None?
  }

  /** A key of eight bytes or more is read, whatever other keys are short, unless a later run meets one of them. */
  lemma OwnRunAnswers(runs: seq<seq<Write>>, i: nat, key: UserKey, s: nat)
    requires i < |runs| && Ordered(runs[i]) && |key| >= 8 && s <= MAX_SEQUENCE && Effective(runs[i], key, s).Some?
    requires forall j :: i < j < |runs| ==> !MeetsShort(runs[j], key, s)
    ensures !ShortMetIn(runs, key, s)
  {
    OwnRunMet(runs[i], key, s);
    hide MeetsShort, Effective;
  }

  lemma OwnRunMet(run: seq<Write>, key: UserKey, s: nat)
    requires Ordered(run) && |key| >= 8 && s <= MAX_SEQUENCE && Effective(run, key, s).Some?
    ensures !MeetsShort(run, key, s)
  {
    var table := Flushed(Apply(run));
    ApplySorted(run);
    FlushedSorted(Apply(run));
    ApplyNewest(run, key, s);
    FlushedNewest(Apply(run), key, SeekTag(s));
    hide Apply, Flushed, Effective;
    FindIsNewest(table, key, SeekTag(s));
    V.OwnEntryMet(table, key, SeekTag(s));
  }

  lemma {:induction false} RunsOrdered(runs: seq<seq<Write>>)
    requires Ordered(Joined(runs))
    ensures forall i :: 0 <= i < |runs| ==> Ordered(runs[i])
  {
    if runs != [] {
      var front, run := Joined(DropLast(runs)), Last(runs);
      assert Joined(runs) == front + run;
      assert forall i :: 0 <= i < |front| ==> Joined(runs)[i] == front[i];
      assert forall i :: 0 <= i < |run| ==> Joined(runs)[|front| + i] == run[i];
      RunsOrdered(DropLast(runs));
    }
  }

  /** Nothing of the key is visible in the table of a run without an effective write to it. */
  lemma NothingInRun(run: seq<Write>, key: UserKey, s: nat)
    requires Ordered(run) && s <= MAX_SEQUENCE
    ensures Effective(run, key, s).None? <==> NothingVisible(Entries(Flushed(Apply(run))), key, SeekTag(s))
  {
    ApplyNewest(run, key, s);
    FlushedNewest(Apply(run), key, SeekTag(s));
  }

  /** Where a table meets the key at all, the key is not behind its range. */
  lemma MetInRange(table: seq<Entry>, key: UserKey, bound: uint64)
    requires Sorted(table) && table != [] && LowerBound(table, InternalKey(key, bound)) < |table|
    ensures UserLe(key, table[|table| - 1].key.user)
  {
    KeyOrderByParts();
    UserOrder();
    AboveLowerBound(table, InternalKey(key, bound));
  }

  /** With files on level 0 only, a read meets a short key exactly if it does in the tables of the runs. */
  lemma ShortReadIs(files: B.Files, runs: seq<seq<Write>>, tables: V.Tables, v: V.Levels, key: UserKey, s: nat)
    requires V.VersionOk(v, tables) && V.Level0Only(v) && Listed(files, runs, tables, v[0]) && s <= MAX_SEQUENCE
    requires forall i :: 0 <= i < |runs| ==> Ordered(runs[i])
    ensures V.ShortRead(v, tables, key, SeekTag(s)) <==> ShortMetIn(runs, key, s)
  {
    hide Apply, Flushed, Effective, V.VersionOk, SeekTag, MeetsShort, V.ShortMet, Ordered;
    var bound := SeekTag(s);
    OnlyLevel0Short(v, tables, key, bound);
    forall i | 0 <= i < |files|
      ensures V.Spans(files[i], key) && V.ShortInFile(files[i], tables, key, bound) <==> MeetsShort(runs[i], key, s)
      ensures Effective(runs[i], key, s).None? <==> NothingVisible(V.FileEntries(files[i], tables), key, bound)
    {
      assert files[i] in files;
      FileOk(v, tables, files[i]);
      NothingInRun(runs[i], key, s);
      FileMeets(files[i], runs[i], tables, key, s);
    }
    if V.ShortIn0(v[0], tables, key, bound) {
      ShortFileIsRun(files, runs, tables, v[0], key, s);
    }
    if ShortMetIn(runs, key, s) {
      ShortRunIsFile(files, runs, tables, v[0], key, s);
    }
  }

  lemma OkTables(v: V.Levels, tables: V.Tables)
    requires V.VersionOk(v, tables)
    ensures V.TablesOk(v, tables)
  {
  }

  lemma FileOk(v: V.Levels, tables: V.Tables, f: B.FileMeta)
    requires V.VersionOk(v, tables) && f in v[0]
    ensures V.TableOk(f, tables)
  {
    var i :| 0 <= i < |v[0]| && v[0][i] == f;
  }

  lemma FileMeets(f: B.FileMeta, run: seq<Write>, tables: V.Tables, key: UserKey, s: nat)
    requires V.TableOk(f, tables) && TableFor(f, run, tables) && s <= MAX_SEQUENCE
    ensures V.Spans(f, key) && V.ShortInFile(f, tables, key, SeekTag(s)) <==> MeetsShort(run, key, s)
  {
    hide Apply, Flushed;
    var table := tables[f.num];
    if LowerBound(table, InternalKey(key, SeekTag(s))) < |table| {
      MetInRange(table, key, SeekTag(s));
    }
  }

  lemma OnlyLevel0Short(v: V.Levels, tables: V.Tables, key: UserKey, bound: uint64)
    requires V.Level0Only(v)
    ensures V.ShortRead(v, tables, key, bound) <==> V.ShortIn0(v[0], tables, key, bound)
  {
    hide V.ShortIn0;
    assert forall l :: 0 < l < V.LEVELS ==> !V.ShortAt(v, tables, key, bound, l);
    assert V.NothingAbove(v, tables, key, bound, 0);
    assert V.ShortAt(v, tables, key, bound, 0) <==> V.ShortIn0(v[0], tables, key, bound);
  }

  /** What the files say, run by run. */
  ghost predicate RunByRun(files: B.Files, runs: seq<seq<Write>>, tables: V.Tables, key: UserKey, s: nat)
    requires s <= MAX_SEQUENCE
  {
    && |files| == |runs|
    && forall i :: 0 <= i < |files| ==>
         && (V.Spans(files[i], key) && V.ShortInFile(files[i], tables, key, SeekTag(s))
             <==> MeetsShort(runs[i], key, s))
         && (Effective(runs[i], key, s).None? <==> NothingVisible(V.FileEntries(files[i], tables), key, SeekTag(s)))
  }

  lemma ShortFileIsRun(files: B.Files, runs: seq<seq<Write>>, tables: V.Tables, level: B.Files, key: UserKey, s: nat)
    requires s <= MAX_SEQUENCE && Listed(files, runs, tables, level) && RunByRun(files, runs, tables, key, s)
    requires V.ShortIn0(level, tables, key, SeekTag(s))
    ensures ShortMetIn(runs, key, s)
  {
    hide MeetsShort, Effective, TableFor, V.ShortInFile, V.Spans;
    var k :| 0 <= k < |level| && V.Spans(level[k], key) && V.ShortInFile(level[k], tables, key, SeekTag(s))
             && V.NothingNewer(level, tables, key, SeekTag(s), level[k].num);
    assert level[k] in level && level[k] in files;
    var i :| 0 <= i < |files| && files[i] == level[k];
    forall j | i < j < |runs| ensures Effective(runs[j], key, s).None? {
      assert files[j] in files && files[j] in level;
      var m :| 0 <= m < |level| && level[m] == files[j];
    }
    assert NoneLater(runs, i, key, s);
  }

  lemma ShortRunIsFile(files: B.Files, runs: seq<seq<Write>>, tables: V.Tables, level: B.Files, key: UserKey, s: nat)
    requires s <= MAX_SEQUENCE && Listed(files, runs, tables, level) && RunByRun(files, runs, tables, key, s)
    requires ShortMetIn(runs, key, s)
    ensures V.ShortIn0(level, tables, key, SeekTag(s))
  {
    hide MeetsShort, Effective, TableFor, V.ShortInFile, V.Spans;
    var i :| 0 <= i < |runs| && MeetsShort(runs[i], key, s) && NoneLater(runs, i, key, s);
    assert files[i] in files && files[i] in level;
    var k :| 0 <= k < |level| && level[k] == files[i];
    forall j | 0 <= j < |level| && level[j].num > level[k].num
      ensures NothingVisible(V.FileEntries(level[j], tables), key, SeekTag(s))
    {
      assert level[j] in level && level[j] in files;
      var m :| 0 <= m < |files| && files[m] == level[j];
      assert m > i;
    }
    assert V.NothingNewer(level, tables, key, SeekTag(s), level[k].num);
  }

  /** The file of a memtable's table: its bounds are the first and the last key. */
  function FileOf(num: uint64, size: uint64, contents: seq<Entry>): B.FileMeta {
    if contents == [] then B.FileMeta(num, size, InternalKey([], 0), InternalKey([], 0))
    else B.FileMeta(num, size, contents[0].key, Last(contents).key)
  }

  class DBImpl {
    var mem_: Memtable
    var imm_: Memtable?
    var logwrite: WalWriter
    var logfilenum: uint64
    const versions_: VS.VersionSet
    /** Table files by number. */
    var tables: V.Tables
    var bg_error: State

    /** The writes whose entries are in tables, in `imm_` and in `mem_`, each in the order they were made. */
    ghost var inTables: seq<Write>
    ghost var inImm: seq<Write>
    ghost var inMem: seq<Write>
    /** The batches in the current log. */
    ghost var batches: seq<Logged>
    /** The files of level 0 in the order of their flushes, and the writes that each flush stored. */
    ghost var level0: B.Files
    ghost var runs: seq<seq<Write>>

    /** Every write so far, in order. */
    ghost function Past(): seq<Write>
      reads `inTables, `inImm, `inMem
    {
      inTables + inImm + inMem
    }

    // -------------------------------------------------------------- the invariant

    ghost predicate HistoryOk()
      reads `inTables, `inImm, `inMem, versions_`last_sequence
    {
      versions_.last_sequence <= MAX_SEQUENCE && Layered(inTables, inImm, inMem, versions_.last_sequence)
    }

    /** The memtable is what these writes leave in an empty one. */
    ghost predicate MemHas(writes: seq<Write>)
      reads `mem_, mem_
    {
      && (forall w :: w in writes ==> Fits(w))
      && mem_.Valid() && mem_.contents == Apply(writes)
    }

    ghost predicate ImmOk()
      reads `inImm, `imm_, imm_
    {
      && (forall w :: w in inImm ==> Fits(w))
      && (imm_ == null ==> inImm == [])
      && (imm_ != null ==> imm_.Valid() && imm_.contents == Apply(inImm))
    }

    /** The log is that of the batches, and these are their writes. */
    ghost predicate LogHas(writes: seq<Write>)
      reads `logwrite, `batches, logwrite
    {
      && (forall b :: b in batches ==> Loggable(b))
      && Placed(0, SplitAll(0, Records(batches)))
      && logwrite.Valid()
      && logwrite.file == Emit(logwrite.crc, 0, SplitAll(0, Records(batches)))
      && AllWrites(batches) == writes
    }

    /** The tables of the current version hold what flushing these writes stores. */
    ghost predicate TablesHold(writes: seq<Write>)
      reads `tables, versions_`nowversion
    {
      && (forall w :: w in writes ==> Fits(w))
      && V.VersionOk(versions_.nowversion, tables)
      && Stored(versions_.nowversion, tables) == Entries(Flushed(Apply(writes)))
    }

    /** Each flush has its own table and file, and together they are of the flushed writes. */
    ghost predicate ListedOk()
      reads `level0, `runs, `tables, `inTables, versions_`nowversion
    {
      Listed(level0, runs, tables, versions_.nowversion[0]) && Joined(runs) == inTables
    }

    /** What the manifest has accumulated mentions only numbers below n. */
    ghost predicate StatesBelow(n: nat)
      reads versions_`nowversion, versions_`descriptor_log, versions_`logged
    {
      versions_.EditsOk() && forall l, f :: 0 <= l < M.LEVELS && f in versions_.StateNow(l).added ==> f.num < n
    }

    ghost predicate VersionsOk()
      reads versions_`nowversion, versions_`compact_pointer, versions_`log_number, versions_`next_file_number
      reads versions_`descriptor_log, versions_`logged, versions_.descriptor_log, `logfilenum
    {
      && versions_.Valid() && versions_.NoPointers()
      && M.SmallKeys(versions_.nowversion) && V.Level0Only(versions_.nowversion) && versions_.Grows()
      && NumbersBelow(versions_.nowversion, versions_.next_file_number)
      && StatesBelow(versions_.next_file_number)
      && versions_.log_number <= logfilenum < versions_.next_file_number
    }

    /** What is in files: the tables, their list and the version set. */
    ghost predicate FilesOk()
      reads `level0, `runs, `tables, `inTables, `logfilenum, versions_, versions_.descriptor_log
    {
      TablesHold(inTables) && ListedOk() && VersionsOk()
    }

    ghost predicate Valid()
      reads this, mem_, imm_, logwrite, versions_, versions_.descriptor_log
    {
      && mem_ != imm_ && logwrite != versions_.descriptor_log
      && HistoryOk() && MemHas(inMem) && ImmOk() && FilesOk()
      && LogHas(inMem) && Rising(batches, versions_.last_sequence)
    }

    /**
     `Open` of a new database, with all its file operations successful: the first manifest is written and
     recovered from, the log gets number 3, and an edit that says so begins the manifest that stays open.
     */
    constructor (crc: Crc)
      ensures Valid() && Past() == [] && inTables == [] && runs == [] && batches == [] && bg_error == Ok
      ensures versions_.last_sequence == 0 && logfilenum == versions_.log_number == 3 && versions_.next_file_number == 4
      ensures versions_.nowversion == M.EMPTY_VERSION && versions_.descriptor_log != null
      ensures versions_.logged == [E.EMPTY_EDIT, M.OPEN_EDIT]
      ensures fresh(mem_) && fresh(logwrite) && fresh(versions_) && fresh(versions_.descriptor_log)
      ensures imm_ == null && logwrite.crc == crc && tables == map[]
    {
      hide TablesHold, VersionsOk, LogHas, MemHas, ImmOk, ListedOk, Layered, M.SnapshotEdit, Stored,
           VS.VersionSet.Valid, VS.VersionSet.NoPointers;
      var versions := new VS.VersionSet(crc);
      versions_, logfilenum := versions, 0;
      logwrite := new WalWriter(crc);
      mem_ := new Memtable();
      imm_, tables, bg_error := null, map[], Ok;
      inTables, inImm, inMem, batches := [], [], [], [];
      level0, runs := [], [];
      new;
      RecoverNew();
      StartFirst();
      EmptyLayers();
      EmptyLog();
    }

    /** The version set of a new database: the first manifest, and recovery from it. */
    method RecoverNew()
      requires versions_.Valid() && versions_.NoPointers() && versions_.nowversion == M.EMPTY_VERSION
      requires versions_.descriptor_log == null
      modifies versions_
      ensures versions_.Valid() && versions_.NoPointers() && versions_.nowversion == M.EMPTY_VERSION
      ensures versions_.descriptor_log == null
      ensures versions_.log_number == 0 && versions_.last_sequence == 0 && versions_.next_file_number == 3
    {
      hide M.Replay, M.UsableUntilBad, ReadAll;
      var manifest := NewDB(versions_.crc);
      var short, aborted, state, v, last := versions_.Recover(manifest);
    }

    lemma EmptyLog()
      requires batches == [] && logwrite.Valid() && logwrite.file == []
      ensures LogHas([])
    {
    }

    /** The first log and the edit that names it. */
    method StartFirst()
      requires versions_.Valid() && versions_.NoPointers() && versions_.nowversion == M.EMPTY_VERSION
      requires versions_.descriptor_log == null && versions_.log_number == 0 && versions_.next_file_number == 3
      requires versions_.last_sequence == 0
      modifies versions_, `logfilenum
      ensures VersionsOk() && versions_.nowversion == M.EMPTY_VERSION && versions_.last_sequence == 0
      ensures logfilenum == versions_.log_number == 3 && versions_.next_file_number == 4
      ensures versions_.descriptor_log != null && fresh(versions_.descriptor_log)
      ensures versions_.logged == [E.EMPTY_EDIT, M.OPEN_EDIT]
    {
      hide VersionsOk, VS.VersionSet.Valid, VS.VersionSet.StateNow, VS.VersionSet.EditsOk,
           VS.VersionSet.CompatibleWith, VS.VersionSet.Faithful,
           VS.VersionSet.ManifestGives, VS.Overlapping, VS.VersionSet.Base, VS.VersionSet.NextLogged,
           M.Usable, M.NextLevel, M.ApplyEditAt, M.SmallKeys, VS.Growing;
      var new_log_number := versions_.NewFileNumber();
      var edit := E.EMPTY_EDIT.(log := Some(new_log_number));
      logfilenum := new_log_number;
      OpenEdit(edit);
      var aborted, state := versions_.LogAndApply(edit, VS.Io(true, true, true, true));
      assert versions_.nowversion == M.EMPTY_VERSION;
      Started();
    }

    lemma Started()
      requires versions_.Valid() && versions_.NoPointers() && versions_.nowversion == M.EMPTY_VERSION
      requires versions_.descriptor_log != null && versions_.logged == [E.EMPTY_EDIT] + [M.OPEN_EDIT]
      requires forall l :: 0 <= l < M.LEVELS ==> versions_.StateNow(l).added == []
      requires VS.AllUsable([E.EMPTY_EDIT]) && VS.Growing(M.START, [E.EMPTY_EDIT], [])
      requires VS.Lags(M.Folded(M.START, [E.EMPTY_EDIT]), [])
      requires versions_.log_number <= logfilenum < versions_.next_file_number
      ensures VersionsOk()
    {
      hide VS.VersionSet.Valid, VS.Growing, VS.VersionSet.StateNow;
      VS.GrowingSnoc([E.EMPTY_EDIT], M.OPEN_EDIT, [], []);
    }

    /** The edit of `Open` changes nothing, and behind the snapshot of nothing it begins a growing manifest. */
    lemma OpenEdit(e: E.VersionEdit)
      requires e == E.EMPTY_EDIT.(log := Some(3)) && versions_.Valid() && versions_.NoPointers()
      requires versions_.nowversion == M.EMPTY_VERSION && versions_.descriptor_log == null
      requires versions_.next_file_number == 4 && versions_.last_sequence == 0
      ensures M.Usable(e) && E.Sizes32(e) && E.Ascending(e.deleted)
      ensures M.SmallPointers(versions_.compact_pointer) && M.SmallKeys(versions_.nowversion)
      ensures !VS.Overlapping(versions_.nowversion, e) && versions_.CompatibleWith(e)
      ensures forall l :: 0 <= l < M.LEVELS ==> M.NextLevel(versions_.nowversion, e, l) == []
      ensures forall l :: 0 <= l < M.LEVELS ==> M.ApplyEditAt(versions_.StateNow(l), e, l).added == []
      ensures versions_.NextLogged(e) == [E.EMPTY_EDIT] + [M.OPEN_EDIT] && versions_.Base() == [E.EMPTY_EDIT]
      ensures VS.AllUsable([E.EMPTY_EDIT])
      ensures VS.Growing(M.START, [E.EMPTY_EDIT], []) && VS.Lags(M.Folded(M.START, [E.EMPTY_EDIT]), [])
    {
      hide VS.VersionSet.Valid, VS.Growing, VS.Lags, M.Folded, M.SnapshotEdit, E.Sizes32, M.Complete;
      OpenLevels(e);
      OpenLogged(e);
    }

    /** Its levels are empty. */
    lemma OpenLevels(e: E.VersionEdit)
      requires e == E.EMPTY_EDIT.(log := Some(3)) && versions_.Valid() && versions_.NoPointers()
      requires versions_.nowversion == M.EMPTY_VERSION && versions_.descriptor_log == null
      ensures M.Usable(e) && E.Sizes32(e) && E.Ascending(e.deleted)
      ensures M.SmallPointers(versions_.compact_pointer) && M.SmallKeys(versions_.nowversion)
      ensures !VS.Overlapping(versions_.nowversion, e) && versions_.CompatibleWith(e)
      ensures forall l :: 0 <= l < M.LEVELS ==> M.NextLevel(versions_.nowversion, e, l) == []
      ensures forall l :: 0 <= l < M.LEVELS ==> M.ApplyEditAt(versions_.StateNow(l), e, l).added == []
    {
    }

    /** What the manifest begins with. */
    lemma OpenLogged(e: E.VersionEdit)
      requires e == E.EMPTY_EDIT.(log := Some(3)) && versions_.Valid() && versions_.NoPointers()
      requires versions_.nowversion == M.EMPTY_VERSION && versions_.descriptor_log == null
      requires versions_.next_file_number == 4 && versions_.last_sequence == 0
      requires M.SmallPointers(versions_.compact_pointer) && M.SmallKeys(versions_.nowversion)
      ensures versions_.NextLogged(e) == [E.EMPTY_EDIT] + [M.OPEN_EDIT] && versions_.Base() == [E.EMPTY_EDIT]
      ensures VS.AllUsable([E.EMPTY_EDIT])
      ensures VS.Growing(M.START, [E.EMPTY_EDIT], []) && VS.Lags(M.Folded(M.START, [E.EMPTY_EDIT]), [])
    {
      hide VS.Growing, VS.Lags, M.Folded, M.SnapshotEdit, VS.VersionSet.StateNow, VS.VersionSet.Agrees,
           VS.VersionSet.Holds, VS.VersionSet.EditsOk;
      M.SnapshotOfNothing(versions_.compact_pointer);
      versions_.BaseGrows([]);
    }

    lemma EmptyLayers()
      requires versions_.nowversion == M.EMPTY_VERSION && mem_.Valid() && mem_.contents == [] && imm_ == null
      requires inTables == inImm == inMem == [] && level0 == [] && runs == []
      ensures ListedOk()
      ensures TablesHold(inTables) && MemHas(inMem) && ImmOk()
              && Layered(inTables, inImm, inMem, versions_.last_sequence)
    {
      EmptyVersion(tables);
      assert Flushed(Apply([])) == [];
    }

    /**
     `Write` of a batch by the only writer. If its append to the log fails, the batch is not inserted either;
     its sequences are used up, and the caller is told `Ok` all the same.
     */
    method Write(updates: Batch, logged: bool, ghost was: uint64, ghost ops: seq<Op>) returns (state: State)
      requires Valid() && updates.Holds(was, ops) && Loggable(Logged(versions_.last_sequence + 1, ops))
      modifies updates, mem_, logwrite, versions_`last_sequence, `inMem, `batches
      ensures Valid()
      ensures state == Ok
      ensures inMem == old(inMem) + (if logged then Writes(old(versions_.last_sequence) + 1, ops) else [])
      ensures batches == old(batches) + (if logged then [Logged(old(versions_.last_sequence) + 1, ops)] else [])
      ensures versions_.last_sequence == old(versions_.last_sequence) + |ops|
      ensures Stamped(updates, old(versions_.last_sequence), ops)
    {
      hide LogHas, MemHas, ImmOk, TablesHold, ListedOk, VersionsOk, Layered, Rising;
      var last_sequence := versions_.last_sequence;
      LayersGrow(inTables, inImm, inMem, last_sequence, ops);
      LayersLater(inTables, inImm, inMem, last_sequence, last_sequence + |ops|);
      RisingSnoc(batches, last_sequence, Logged(last_sequence + 1, ops));
      RisingLater(batches, last_sequence, last_sequence + |ops|);
      var next := Stamp(updates, last_sequence, was, ops);
      if logged {
        Append(updates, Logged(last_sequence + 1, ops));
        Insert(updates, Logged(last_sequence + 1, ops));
        inMem := inMem + Writes(last_sequence + 1, ops);
      }
      versions_.SetLastSequence(next);
      state := Ok;
    }

    /** The batch carries the sequence behind the given one. */
    static ghost predicate Stamped(updates: Batch, last_sequence: nat, ops: seq<Op>)
      reads updates
    {
      last_sequence + 1 < UINT64_LIMIT && updates.Holds(last_sequence + 1, ops)
    }

    /** The batch gets the next sequence; the last sequence moves on by its count. */
    method Stamp(updates: Batch, last_sequence: uint64, ghost was: uint64, ghost ops: seq<Op>) returns (next: uint64)
      requires updates.Holds(was, ops) && Loggable(Logged(last_sequence + 1, ops))
      modifies updates
      ensures updates.Holds(last_sequence + 1, ops) && next == last_sequence + |ops|
    {
      updates.SetSequence(last_sequence + 1, was, ops);
      updates.HeaderOf(last_sequence + 1, ops);
      next := last_sequence + updates.Count();
    }

    method Append(updates: Batch, ghost b: Logged)
      requires LogHas(inMem) && Loggable(b) && updates.Holds(b.sequence, b.ops)
      modifies logwrite, `batches
      ensures batches == old(batches) + [b] && LogHas(inMem + Writes(b.sequence, b.ops))
    {
      hide Placed, Emit, SplitAll, Split, Loggable, BatchBytes;
      LogGrows(logwrite.crc, Records(batches), updates.mate);
      logwrite.Appendrecord(updates.mate);
      assert Records(batches + [b]) == Records(batches) + [updates.mate];
      assert DropLast(batches + [b]) == batches && Last(batches + [b]) == b;
      batches := batches + [b];
    }

    method Insert(updates: Batch, ghost b: Logged)
      requires MemHas(inMem) && Loggable(b) && updates.Holds(b.sequence, b.ops)
      modifies mem_
      ensures MemHas(inMem + Writes(b.sequence, b.ops))
    {
      BatchApplies(inMem, b.sequence, b.ops);
      var statue := InsertBuilt(updates, mem_, b.sequence, b.ops);
    }

    /** `Put`: a batch of one. */
    method Put(key: seq<byte>, value: seq<byte>, logged: bool) returns (state: State)
      requires Valid() && Loggable(Logged(versions_.last_sequence + 1, [Op.Put(key, value)]))
      modifies mem_, logwrite, versions_`last_sequence, `inMem, `batches
      ensures Valid() && versions_.last_sequence == old(versions_.last_sequence) + 1 && state == Ok
      ensures Past()
              == old(Past()) + (if logged then Writes(old(versions_.last_sequence) + 1, [Op.Put(key, value)]) else [])
    {
      hide Valid, Batch.Holds, Loggable, OpBytes;
      var batch := new Batch();
      batch.AddPut(key, value, 0, []);
      assert [] + [Op.Put(key, value)] == [Op.Put(key, value)];
      state := Write(batch, logged, 0, [Op.Put(key, value)]);
      OneWrite(inTables + inImm, old(inMem), old(versions_.last_sequence) + 1, Op.Put(key, value));
    }

    method Delete(key: seq<byte>, logged: bool) returns (state: State)
      requires Valid() && Loggable(Logged(versions_.last_sequence + 1, [Op.Delete(key)]))
      modifies mem_, logwrite, versions_`last_sequence, `inMem, `batches
      ensures Valid() && versions_.last_sequence == old(versions_.last_sequence) + 1 && state == Ok
      ensures Past()
              == old(Past()) + (if logged then Writes(old(versions_.last_sequence) + 1, [Op.Delete(key)]) else [])
    {
      hide Valid, Batch.Holds, Loggable, OpBytes;
      var batch := new Batch();
      batch.AddDelete(key, 0, []);
      assert [] + [Op.Delete(key)] == [Op.Delete(key)];
      state := Write(batch, logged, 0, [Op.Delete(key)]);
      OneWrite(inTables + inImm, old(inMem), old(versions_.last_sequence) + 1, Op.Delete(key));
    }

    /** The step of `MakeRoomForwrite` that freezes the memtable and starts a new log. */
    method Freeze()
      requires Valid() && imm_ == null && versions_.next_file_number + 1 < UINT64_LIMIT
      modifies `mem_, `imm_, `logwrite, `logfilenum, `inImm, `inMem, `batches, versions_`next_file_number
      ensures Valid() && fresh(mem_) && fresh(logwrite) && imm_ == old(mem_)
      ensures inTables == old(inTables) && inImm == old(inMem) && inMem == [] && batches == []
      ensures Past() == old(Past()) && logwrite.crc == old(logwrite.crc)
              && logfilenum == old(versions_.next_file_number)
      ensures versions_.next_file_number == old(versions_.next_file_number) + 1
    {
      hide Layered, LogHas, MemHas, TablesHold, ListedOk, VersionsOk;
      LayersShift(inTables, inMem, versions_.last_sequence);
      FrozenIsNotNewer(inTables, inMem);
      StartLog();
      StartMem();
    }

    /** The log file of a new number. */
    method StartLog()
      requires VersionsOk() && versions_.next_file_number + 1 < UINT64_LIMIT
      modifies versions_`next_file_number, `logfilenum, `logwrite, `batches
      ensures VersionsOk() && LogHas([]) && batches == [] && fresh(logwrite) && logwrite.crc == old(logwrite.crc)
      ensures logfilenum == old(versions_.next_file_number) && versions_.next_file_number == logfilenum + 1
    {
      hide LogHas, VS.VersionSet.Valid, VS.VersionSet.NoPointers, VS.VersionSet.Grows, M.SmallKeys, V.Level0Only,
           NumbersBelow,
           StatesBelow;
      var new_log_number := Reserve();
      logwrite := new WalWriter(logwrite.crc);
      logfilenum := new_log_number;
      batches := [];
      EmptyLog();
    }

    /** The memtable is frozen and a new one takes its place. */
    method StartMem()
      requires MemHas(inMem)
      modifies `mem_, `imm_, `inMem, `inImm
      ensures imm_ == old(mem_) && inImm == old(inMem) && ImmOk()
      ensures fresh(mem_) && inMem == [] && MemHas([])
    {
      imm_ := mem_;
      mem_ := new Memtable();
      inImm, inMem := inMem, [];
    }

    /**
     `CompactMemTable` with `WriteLevel0Table`: the frozen memtable becomes a level-0 table under a new
     number. On a failed file operation the memtable stays and the error is recorded.
     */
    method CompactMemTable(built: bool, size: uint64, io: VS.Io) returns (state: State)
      requires Valid() && imm_ != null && imm_.table != [] && versions_.next_file_number + 1 < UINT64_LIMIT
      requires built ==> size > 0
      modifies `imm_, `inTables, `inImm, `level0, `runs, `tables, `bg_error, versions_, versions_.descriptor_log
      ensures Valid() && Past() == old(Past()) && inMem == old(inMem) && mem_ == old(mem_)
      ensures state == Ok ==>
                && imm_ == null && inTables == old(inTables + inImm) && inImm == [] && bg_error == old(bg_error)
                && runs == old(runs) + [old(inImm)]
                && level0 == old(level0) + [FileOf(old(versions_.next_file_number), size, old(imm_.contents))]
                && versions_.log_number == old(logfilenum)
      ensures state != Ok ==>
                && imm_ == old(imm_) && inTables == old(inTables) && inImm == old(inImm) && runs == old(runs)
                && level0 == old(level0) && versions_.nowversion == old(versions_.nowversion)
                && versions_.log_number == old(versions_.log_number)
                && state == IoError && bg_error == if old(bg_error) == Ok then state else old(bg_error)
      ensures tables == old(if built then tables[versions_.next_file_number := Flushed(imm_.contents)] else tables)
      ensures versions_.last_sequence == old(versions_.last_sequence) && batches == old(batches)
              && logwrite == old(logwrite)
      ensures versions_.next_file_number == old(versions_.next_file_number) + 1
      ensures if built then versions_.descriptor_log != null <==> state == Ok
              else versions_.descriptor_log == old(versions_.descriptor_log)
      ensures versions_.descriptor_log == old(versions_.descriptor_log) || versions_.descriptor_log == null
              || fresh(versions_.descriptor_log)
      ensures state == Ok <==>
                && built && io.append
                && (old(versions_.descriptor_log) == null ==> io.create && io.snapshot && io.current)
      ensures state == Ok ==> versions_.logged == old(versions_.Base()) + [FlushLogged(Last(level0))]
      ensures state == Ok && old(LongKeyFrozen()) ==> !M.AllSurvive(0, versions_.logged)
    {
      hide LogHas, MemHas, ImmOk, Built, TablesHold, Listed, FileOf, VersionsOk, Layered, Rising, StatesBelow,
           LongKeyFrozen, LongKeys, M.AllSurvive, VS.VersionSet.Base, FlushLogged, Flushed, Apply, VS.VersionSet.Valid,
           Joined, Entries;
      var meta;
      state, meta := WriteLevel0Table(built, size);
      if state == Ok {
        state := Install(meta, io);
      }
      if state == Ok {
        Sink(meta);
      } else if bg_error == Ok {
        bg_error := state;
      }
    }

    /** The edit of a flush as the manifest has it. */
    ghost function FlushLogged(meta: B.FileMeta): E.VersionEdit
      reads `logfilenum, versions_`next_file_number, versions_`last_sequence
    {
      FlushEdit(logfilenum, meta).(next := Some(versions_.next_file_number), sequence := Some(versions_.last_sequence))
    }

    /** The first or the last key of the frozen memtable is as long as the payload of a log block. */
    predicate LongKeyFrozen()
      reads `imm_, imm_
    {
      && imm_ != null && imm_.table != []
      && (|imm_.table[0].key.user| + 8 >= BLOCK - HEADER || |Last(imm_.table).key.user| + 8 >= BLOCK - HEADER)
    }

    /** The frozen memtable is gone; its writes belong to the tables. */
    method Sink(meta: B.FileMeta)
      requires TablesHold(inTables + inImm) && Joined(runs) == inTables && HistoryOk()
      requires Listed(level0 + [meta], runs + [inImm], tables, versions_.nowversion[0])
      modifies `imm_, `level0, `runs, `inTables, `inImm
      ensures imm_ == null && level0 == old(level0) + [meta] && runs == old(runs) + [old(inImm)]
      ensures inTables == old(inTables + inImm) && inImm == [] && Past() == old(Past())
      ensures TablesHold(inTables) && ListedOk() && HistoryOk() && ImmOk()
    {
      hide TablesHold, Listed, Layered, Joined;
      LayersSink(inTables, inImm, inMem, versions_.last_sequence);
      JoinedSnoc(runs, inImm);
      imm_ := null;
      level0, runs := level0 + [meta], runs + [inImm];
      inTables, inImm := inTables + inImm, [];
    }

    /** Without a frozen memtable no writes are frozen. */
    lemma FreezePast()
      requires Valid() && imm_ == null
      ensures inImm == []
    {
      hide HistoryOk, MemHas, LogHas, TablesHold, VersionsOk, Rising;
    }

    /** A frozen memtable has nodes exactly if it stands for some writes. */
    lemma FrozenWrites()
      requires Valid() && imm_ != null
      ensures imm_.table != [] <==> inImm != []
    {
      ApplySorted(inImm);
      hide HistoryOk, MemHas, LogHas, TablesHold, VersionsOk, Rising;
    }

    /** The new table holds the entries of the frozen memtable; no file lists it yet. */
    ghost predicate Built(meta: B.FileMeta)
      reads `inImm, `tables, versions_`next_file_number, versions_`nowversion
    {
      && (forall w :: w in inImm ==> Fits(w))
      && meta.num + 1 == versions_.next_file_number && NumbersBelow(versions_.nowversion, meta.num)
      && meta.num in tables && tables[meta.num] == Flushed(Apply(inImm)) && TableOf(meta, tables[meta.num])
      && |meta.smallest.user| + 8 < UINT32_LIMIT && |meta.largest.user| + 8 < UINT32_LIMIT
    }

    /** A number that nothing has. */
    method Reserve() returns (num: uint64)
      requires VersionsOk() && versions_.next_file_number + 1 < UINT64_LIMIT
      modifies versions_`next_file_number
      ensures VersionsOk() && NumbersBelow(versions_.nowversion, num) && StatesBelow(num)
      ensures num == old(versions_.next_file_number) && versions_.next_file_number == num + 1
    {
      hide VS.VersionSet.Valid, M.SmallKeys, VS.VersionSet.NoPointers, VS.VersionSet.StateNow;
      num := versions_.NewFileNumber();
    }

    method WriteLevel0Table(built: bool, size: uint64) returns (state: State, meta: B.FileMeta)
      requires ImmOk() && imm_ != null && imm_.table != [] && FilesOk()
      requires versions_.next_file_number + 1 < UINT64_LIMIT && (built ==> size > 0)
      modifies `tables, versions_`next_file_number
      ensures tables == old(if built then tables[versions_.next_file_number := Flushed(imm_.contents)] else tables)
      ensures versions_.next_file_number == old(versions_.next_file_number) + 1
      ensures state == (if built then Ok else IoError)
      ensures state == Ok ==> meta == FileOf(old(versions_.next_file_number), size, imm_.contents)
      ensures state == Ok ==> (LongKeys(meta) <==> LongKeyFrozen())
      ensures FilesOk() && (state == Ok ==> Built(meta) && StatesBelow(meta.num))
    {
      hide TablesHold, ListedOk, VersionsOk, StatesBelow, NumbersBelow, Built, LongKeys, LongKeyFrozen, ImmOk, Flushed,
           FileOf;
      var num := Reserve();
      meta := B.FileMeta(num, size, InternalKey([], 0), InternalKey([], 0));
      state := IoError;
      if built {
        meta := MakeTable(num, size);
        state := Ok;
      }
    }

    /** The table of the frozen memtable, stored under its number. */
    method MakeTable(num: uint64, size: uint64) returns (meta: B.FileMeta)
      requires ImmOk() && imm_ != null && imm_.table != [] && TablesHold(inTables) && ListedOk()
      requires NumbersBelow(versions_.nowversion, num) && num + 1 == versions_.next_file_number
      modifies `tables
      ensures tables == old(tables)[num := Flushed(imm_.contents)]
      ensures meta.num == num && meta == FileOf(num, size, imm_.contents) && (LongKeys(meta) <==> LongKeyFrozen())
      ensures TablesHold(inTables) && ListedOk() && Built(meta)
    {
      hide TablesHold, ListedOk, NumbersBelow, TableOf, Apply, LongKeys, LongKeyFrozen, ImmOk, Fits, Flushed, FileOf,
           Built, Memtable.Valid;
      ImmHas();
      var entries;
      meta, entries := BuildTable(num, size);
      StoreTable(num, entries);
      NowBuilt(meta);
    }

    lemma NowBuilt(meta: B.FileMeta)
      requires (forall w :: w in inImm ==> Fits(w))
      requires meta.num + 1 == versions_.next_file_number && NumbersBelow(versions_.nowversion, meta.num)
      requires meta.num in tables && tables[meta.num] == Flushed(Apply(inImm)) && TableOf(meta, tables[meta.num])
      requires |meta.smallest.user| + 8 < UINT32_LIMIT && |meta.largest.user| + 8 < UINT32_LIMIT
      ensures Built(meta)
    {
    }

    /** `BuildTable`: the entries of the frozen memtable in order, with the key bounds of the file. */
    method BuildTable(num: uint64, size: uint64) returns (meta: B.FileMeta, entries: seq<Entry>)
      requires ImmOk() && imm_ != null && imm_.table != []
      ensures (forall w :: w in inImm ==> Fits(w)) && entries == Flushed(Apply(inImm)) && TableOf(meta, entries)
      ensures meta.num == num && meta == FileOf(num, size, imm_.contents) && entries == Flushed(imm_.contents)
      ensures |meta.smallest.user| + 8 < UINT32_LIMIT && |meta.largest.user| + 8 < UINT32_LIMIT
      ensures LongKeys(meta) <==> LongKeyFrozen()
    {
      ApplySorted(inImm);
      hide Apply, TableOf;
      var smallest, largest;
      entries, smallest, largest := imm_.Flush();
      meta := B.FileMeta(num, size, smallest, largest);
      FlushedTable(imm_.contents, meta);
    }

    lemma ImmHas()
      requires ImmOk() && imm_ != null && imm_.table != []
      ensures imm_.contents == Apply(inImm) && imm_.contents != []
    {
    }

    method StoreTable(num: uint64, entries: seq<Entry>)
      requires TablesHold(inTables) && NumbersBelow(versions_.nowversion, num) && ListedOk()
      modifies `tables
      ensures TablesHold(inTables) && tables == old(tables)[num := entries] && ListedOk()
    {
      hide V.VersionOk, Stored, Apply, Listed;
      ListedStore(level0, runs, tables, versions_.nowversion[0], num, entries);
      UnlistedTable(versions_.nowversion, tables, num, entries);
      tables := tables[num := entries];
    }

    /** `LogAndApply` of the flush edit. */
    method Install(meta: B.FileMeta, io: VS.Io) returns (state: State)
      requires Built(meta) && TablesHold(inTables) && ListedOk() && VersionsOk() && StatesBelow(meta.num)
      requires Layered(inTables, inImm, inMem, versions_.last_sequence)
      modifies versions_, versions_.descriptor_log
      ensures VersionsOk() && versions_.last_sequence == old(versions_.last_sequence)
      ensures versions_.next_file_number == old(versions_.next_file_number)
      ensures versions_.descriptor_log != null <==> state == Ok
      ensures versions_.descriptor_log == old(versions_.descriptor_log) || versions_.descriptor_log == null
              || fresh(versions_.descriptor_log)
      ensures versions_.log_number == if state == Ok then logfilenum else old(versions_.log_number)
      ensures state == Ok
              <==> io.append && (old(versions_.descriptor_log) == null ==> io.create && io.snapshot && io.current)
      ensures TablesHold(if state == Ok then inTables + inImm else inTables)
      ensures state == Ok ==> Listed(level0 + [meta], runs + [inImm], tables, versions_.nowversion[0])
      ensures state != Ok ==> state == IoError && versions_.nowversion == old(versions_.nowversion)
      ensures state == Ok ==> versions_.logged == old(versions_.Base() + [FlushLogged(meta)])
      ensures state == Ok && LongKeys(meta) ==> !M.AllSurvive(0, versions_.logged)
    {
      hide V.VersionOk, TableOf, Layered, NumbersBelow, M.SmallKeys, M.Usable, M.SmallPointers, VS.Overlapping,
           StatesBelow,
           OneMore, Stored, Apply, VS.VersionSet.Valid,
           VS.VersionSet.Faithful, VS.VersionSet.CompatibleWith, VS.VersionSet.ManifestGives, M.NextLevel,
           VS.VersionSet.Grows, VS.Growing, VS.AllUsable, VS.Lags, M.SnapshotEdit, V.Level0Only, M.Folded, Listed,
           Flushed;
      var edit := FlushEdit(logfilenum, meta);
      EditOk(meta);
      BeforeFlush(meta);
      ghost var was, base, completed := versions_.nowversion, versions_.Base(), versions_.Completed(edit);
      var aborted;
      aborted, state := versions_.LogAndApply(edit, io);
      if state == Ok {
        assert OneMore(was, versions_.nowversion, meta);
        FlushListed(was, versions_.nowversion, meta);
        TableListed(was, versions_.nowversion, tables, meta, inTables, inImm, inMem, versions_.last_sequence);
        SmallKeysGrow(was, versions_.nowversion, meta);
        FlushGrows(was, base, completed, meta);
        BelowNext(meta);
        if LongKeys(meta) {
          LongFlush(logfilenum, meta);
          M.LongKeySpoils(0, versions_.logged, M.WireOf(0, meta));
        }
      } else {
        ManifestClosed();
      }
    }

    /** The sequence a read is made at. */
    function SnapshotOf(snapshot: Option<nat>): nat
      reads versions_`last_sequence
    {
      if snapshot.Some? then snapshot.value else versions_.last_sequence
    }

    /**
     `Get`: the memtable, then the frozen one, then the current version. A defined result is what the stored
     entries give, and it is what the last write left exactly if that write is neither a shadowed `Delete`
     nor a mangled `Put`. The result is undefined exactly if no memtable answers and the tables, the latest one
     first, meet a key of less than eight bytes before they answer: only if there is such a key, and always if
     the wanted key is one and only the tables have it.
     */
    method Get(key: UserKey, snapshot: Option<nat>) returns (r: ReadResult)
      requires Valid() && (snapshot.Some? ==> snapshot.value <= versions_.last_sequence)
      ensures !r.Undefined? ==> r == Observed(Past(), |inTables|, key, SnapshotOf(snapshot))
      ensures r == Promised(Past(), key, SnapshotOf(snapshot))
              <==> !r.Undefined? && !Shadowed(Past(), key, SnapshotOf(snapshot))
                   && !Mangled(Past(), |inTables|, key, SnapshotOf(snapshot))
      ensures r.Undefined? <==>
                && Effective(Past()[|inTables|..], key, SnapshotOf(snapshot)).None?
                && ShortMetIn(runs, key, SnapshotOf(snapshot))
      ensures r.Undefined? ==> ShortKeys(Past(), |inTables|, key)
      ensures |key| < 8 && OnlyInTables(Past(), |inTables|, key, SnapshotOf(snapshot)) ==> r.Undefined?
    {
      hide LogHas, VersionsOk, ListedOk, Layered, Rising, Observed, Promised, Shadowed, Mangled, ShortKeys,
           OnlyInTables, V.VersionOk, V.ShortRead, ShortMetIn, Resolve, Apply, Flushed, Effective, V.SeenFrom;
      var s := if snapshot.Some? then snapshot.value else versions_.last_sequence;
      LayersRead(inTables, inImm, inMem, versions_.last_sequence, key, s);
      LayeredParts(inTables, inImm, inMem, versions_.last_sequence);
      PromisedDefined(Past(), |inTables|, key, s);
      NothingInMemory(key, s);
      var lookup := SeekTag(s);
      var found;
      found, r := mem_.Get(key, lookup);
      if found {
        return;
      }
      if imm_ != null {
        found, r := imm_.Get(key, lookup);
        if found {
          return;
        }
      }
      ReadOfTables(key, s);
      r := V.Get(versions_.nowversion, tables, key, lookup);
    }

    /** What a read of the current version gives, and when it is undefined. */
    lemma ReadOfTables(key: UserKey, s: nat)
      requires TablesHold(inTables) && ListedOk() && VersionsOk() && Ordered(inTables) && s <= MAX_SEQUENCE
      ensures V.VersionOk(versions_.nowversion, tables)
      ensures V.SeenFrom(versions_.nowversion, tables, key, SeekTag(s), 0) == Entries(Flushed(Apply(inTables)))
      ensures V.ShortRead(versions_.nowversion, tables, key, SeekTag(s)) <==> ShortMetIn(runs, key, s)
      ensures ShortMetIn(runs, key, s) ==> ShortKeys(Past(), |inTables|, key)
      ensures |key| < 8 && !NothingVisible(Entries(Flushed(Apply(inTables))), key, SeekTag(s)) ==>
                ShortMetIn(runs, key, s)
    {
      hide V.VersionOk, V.ShortRead, ShortMetIn, Apply, Flushed, V.EntriesFrom, V.Long, Listed, Ordered, SeekTag,
           VersionsOk, ListedOk, NothingVisible, ShortKeys, V.SeenFrom;
      assert Past()[..|inTables|] == inTables;
      AllSeen(key, SeekTag(s));
      LongStored(Past(), inTables, key);
      ReadIsShort(key, s);
    }

    /** Which reads of the current version are undefined. */
    lemma ReadIsShort(key: UserKey, s: nat)
      requires TablesHold(inTables) && ListedOk() && VersionsOk() && Ordered(inTables) && s <= MAX_SEQUENCE
      ensures V.ShortRead(versions_.nowversion, tables, key, SeekTag(s)) <==> ShortMetIn(runs, key, s)
      ensures V.Long(Entries(Flushed(Apply(inTables))), key) ==> !ShortMetIn(runs, key, s)
      ensures |key| < 8 && !NothingVisible(Entries(Flushed(Apply(inTables))), key, SeekTag(s)) ==>
                ShortMetIn(runs, key, s)
    {
      hide V.VersionOk, V.ShortRead, ShortMetIn, Apply, Flushed, V.EntriesFrom, V.Long, Listed, Ordered,
           V.LevelEntries, SeekTag;
      hide VS.VersionSet.Valid, StatesBelow, NothingVisible, V.TablesOk;
      var v, bound := versions_.nowversion, SeekTag(s);
      RunsOrdered(runs);
      ShortReadIs(level0, runs, tables, v, key, s);
      V.Level0Seen(v, tables, key, bound);
      OkTables(v, tables);
      if V.Long(Entries(Flushed(Apply(inTables))), key) {
        V.LongRead(v, tables, key, bound);
      }
      if |key| < 8 && !NothingVisible(Entries(Flushed(Apply(inTables))), key, bound) {
        V.ShortKeyRead(v, tables, key, bound, 0);
      }
    }

    /** A read looks at all that is stored: there are no files above level 0. */
    lemma AllSeen(key: UserKey, bound: uint64)
      requires VersionsOk()
      ensures V.SeenFrom(versions_.nowversion, tables, key, bound, 0) == V.EntriesFrom(versions_.nowversion, tables, 0)
    {
      hide VS.VersionSet.Valid, V.EntriesFrom, V.SeenFrom, StatesBelow;
      V.Level0Seen(versions_.nowversion, tables, key, bound);
    }

    /**
     Recovery of the current log. If every batch fits the block it was logged in, replaying the log rebuilds
     exactly the memtable of the running database and finds its last sequence. In any case the result is what
     replaying the records that the log framing leaves gives.
     */
    method RecoverLog(max_in: uint64) returns (mem: Memtable?, max_sequence: uint64, state: State, last: PhysicalResult)
      requires Valid()
      ensures mem != null ==> fresh(mem)
      ensures var r := Replay(Replayed(None, max_in, Ok), Delivered(SplitAll(0, Records(batches))).0);
              Is(mem, r.mem) && max_sequence == r.max_sequence && state == r.state
      ensures AllFit(0, Records(batches)) ==>
                && state == Ok && (if |logwrite.file| % BLOCK == 0 then last.Undefined? else last.Eof?)
                && (batches == [] ==> mem == null && max_sequence == max_in)
                && (batches != [] ==> mem != null && mem.Valid() && mem.contents == mem_.contents)
                && (batches != [] ==>
                      var end := Last(batches).sequence + |Last(batches).ops| - 1;
                      end <= versions_.last_sequence && max_sequence == if end > max_in then end else max_in)
    {
      hide Layered, ImmOk, TablesHold, VersionsOk, Placed, AllFit, SplitAll, Emit, Highest, Rising, Replay, Delivered,
           ReadAll, Written;
      HighestOfRising(max_in, batches, versions_.last_sequence);
      LogOfBatches();
      if AllFit(0, Records(batches)) {
        FittingLogReplays(logwrite.crc, max_in, batches);
      }
      mem, max_sequence, state, last := RecoverLogFile(logwrite.file, logwrite.crc, max_in);
    }

    /** What the reader gets of the current log. */
    lemma LogOfBatches()
      requires LogHas(inMem)
      ensures ReadAll(logwrite.crc, true, logwrite.file, 0).0 == Delivered(SplitAll(0, Records(batches))).0
    {
      hide SplitAll, Placed, Emit, ReadAll, Delivered, Loggable;
      var pieces := SplitAll(0, Records(batches));
      SplitAllWritten(0, Records(batches));
      ReadBack(logwrite.crc, true, [], pieces);
      assert [] + Emit(logwrite.crc, 0, pieces) == Emit(logwrite.crc, 0, pieces);
    }

    /** Without a manifest the accumulated state is the version itself. */
    lemma ManifestClosed()
      requires versions_.descriptor_log == null && versions_.EditsOk()
               && NumbersBelow(versions_.nowversion, versions_.next_file_number)
      ensures StatesBelow(versions_.next_file_number) && versions_.Grows()
    {
    }

    lemma FlushListed(v: V.Levels, w: V.Levels, meta: B.FileMeta)
      requires Listed(level0, runs, tables, v[0]) && OneMore(v, w, meta) && NumbersBelow(v, meta.num)
      requires (forall x :: x in inImm ==> Fits(x)) && meta.num in tables && tables[meta.num] == Flushed(Apply(inImm))
      ensures Listed(level0 + [meta], runs + [inImm], tables, w[0])
    {
      hide Listed, Apply, Flushed;
      ListedGrows(level0, runs, tables, v[0], w[0], meta, inImm);
    }

    /** The manifest so far lists files that the version has, and not the new one. */
    lemma BeforeFlush(meta: B.FileMeta)
      requires VersionsOk() && NumbersBelow(versions_.nowversion, meta.num)
               && M.SmallPointers(versions_.compact_pointer)
      ensures VS.AllUsable(versions_.Base()) && VS.Growing(M.START, versions_.Base(), versions_.nowversion[0])
      ensures VS.Lags(M.Folded(M.START, versions_.Base()), [meta])
    {
      hide VS.VersionSet.Valid, VS.VersionSet.Grows, VS.Growing, VS.AllUsable, VS.Lags, M.Folded, M.SmallKeys,
           StatesBelow;
      assert meta in [meta] && meta !in versions_.nowversion[0];
      versions_.BaseGrows([meta]);
    }

    lemma FlushGrows(was: V.Levels, base: seq<E.VersionEdit>, e: E.VersionEdit, meta: B.FileMeta)
      requires OneMore(was, versions_.nowversion, meta) && V.Level0Only(was)
      requires versions_.EditsOk() && versions_.logged == base + [e] && e.added == FlushEdit(logfilenum, meta).added
      requires VS.AllUsable(base) && VS.Growing(M.START, base, was[0]) && VS.Lags(M.Folded(M.START, base), [meta])
      ensures versions_.Grows() && V.Level0Only(versions_.nowversion)
    {
      hide VS.Growing, M.Folded, M.Complete, B.Saved, M.Usable, M.Storable;
      forall l | 0 < l < M.LEVELS ensures M.NewsOf(e.added, l) == [] {
        FlushNews(logfilenum, meta, l);
      }
      assert e in versions_.logged;
      VS.GrowingSnoc(base, e, was[0], versions_.nowversion[0]);
    }

    lemma BelowNext(meta: B.FileMeta)
      requires versions_.next_file_number == meta.num + 1
      requires versions_.EditsOk()
      requires forall l, f :: 0 <= l < M.LEVELS && f in versions_.StateNow(l).added ==> f.num < meta.num + 1
      ensures StatesBelow(versions_.next_file_number)
    {
    }

    /** The edit of a flush overlaps with nothing, and the manifest can be read back with it. */
    lemma EditOk(meta: B.FileMeta)
      requires VersionsOk() && NumbersBelow(versions_.nowversion, meta.num) && StatesBelow(meta.num)
      requires |meta.smallest.user| + 8 < UINT32_LIMIT && |meta.largest.user| + 8 < UINT32_LIMIT
      ensures var e := FlushEdit(logfilenum, meta);
              && M.Usable(e) && E.Sizes32(e) && E.Ascending(e.deleted) && M.SmallPointers(versions_.compact_pointer)
              && !VS.Overlapping(versions_.nowversion, e) && versions_.CompatibleWith(e)
              && FlushStep(versions_.nowversion, e, meta)
              && forall l, f :: 0 <= l < M.LEVELS && f in M.ApplyEditAt(versions_.StateNow(l), e, l).added ==>
                  f.num < meta.num + 1
    {
      var e := FlushEdit(logfilenum, meta);
      FlushLevels(versions_.nowversion, logfilenum, meta);
      forall l | 0 <= l < M.LEVELS
        ensures B.Compatible(versions_.StateNow(l), M.NewsOf(e.added, l))
        ensures forall f :: f in M.ApplyEditAt(versions_.StateNow(l), e, l).added ==> f.num < meta.num + 1
      {
        FlushStates(logfilenum, meta, versions_.StateNow(l), l);
      }
    }
  }

  /** The flushed table joins the tables of the version. */
  lemma TableListed(v: V.Levels, w: V.Levels, tables: V.Tables, meta: B.FileMeta,
                    done: seq<Write>, mid: seq<Write>, recent: seq<Write>, last: nat)
    requires V.VersionOk(v, tables) && NumbersBelow(v, meta.num) && OneMore(v, w, meta)
    requires Layered(done, mid, recent, last) && (forall x :: x in done || x in mid ==> Fits(x))
    requires meta.num in tables && tables[meta.num] == Flushed(Apply(mid)) && TableOf(meta, tables[meta.num])
    requires Stored(v, tables) == Entries(Flushed(Apply(done)))
    ensures V.VersionOk(w, tables) && NumbersBelow(w, meta.num + 1)
    ensures (forall w :: w in done + mid ==> Fits(w)) && Stored(w, tables) == Entries(Flushed(Apply(done + mid)))
  {
    hide V.VersionOk, TableOf, Newer, Stored, Apply;
    FlushedNewer(done, mid);
    FlushKeepsVersion(v, w, tables, meta);
    OrderedConcat(done, mid);
    FlushedUnion(done, mid);
  }

  lemma SmallKeysGrow(v: V.Levels, w: V.Levels, meta: B.FileMeta)
    requires M.SmallKeys(v) && OneMore(v, w, meta)
    requires |meta.smallest.user| + 8 < UINT32_LIMIT && |meta.largest.user| + 8 < UINT32_LIMIT
    ensures M.SmallKeys(w)
  {
  }

  /** What installing the edit does to any version it is applied to. */
  ghost predicate FlushStep(v: V.Levels, e: E.VersionEdit, meta: B.FileMeta)
    requires M.Usable(e)
  {
    forall w: V.Levels :: (forall l :: 0 <= l < M.LEVELS ==> w[l] == M.NextLevel(v, e, l)) ==> OneMore(v, w, meta)
  }

  // ---------------------------------------------------------------- reads, layer by layer

  /** What a read finds in the sorted map of some writes. */
  function InMemory(writes: seq<Write>, key: UserKey, s: nat): Option<Entry>
    requires (forall w :: w in writes ==> Fits(w)) && s <= MAX_SEQUENCE
  {
    Find(Apply(writes), InternalKey(key, SeekTag(s)))
  }

  lemma NothingInMemory(key: UserKey, s: nat)
    requires s <= MAX_SEQUENCE
    ensures InMemory([], key, s) == None
  {
  }

  lemma MemoryRead(writes: seq<Write>, key: UserKey, s: nat)
    requires Ordered(writes) && s <= MAX_SEQUENCE
    ensures match Effective(writes, key, s)
            case None => InMemory(writes, key, s) == None
            case Some(w) =>
              && InMemory(writes, key, s).Some?
              && Resolve(InMemory(writes, key, s)) == if w.op.Put? then Found(w.op.value) else Missing
  {
    var contents, bound := Apply(writes), SeekTag(s);
    ApplySorted(writes);
    ApplyNewest(writes, key, s);
    FindIsNewest(contents, key, bound);
    match Effective(writes, key, s)
    case None =>
    case Some(w) =>
      NewestIs(Entries(contents), key, bound, EntryFor(w));
      if InMemory(writes, key, s).Some? {
        NewestIs(Entries(contents), key, bound, InMemory(writes, key, s).value);
      }
      TagParts(w.sequence, if w.op.Put? then TYPE_VALUE else TYPE_DELETION);
  }

  lemma TablesRead(writes: seq<Write>, key: UserKey, s: nat)
    requires Ordered(writes) && s <= MAX_SEQUENCE
    ensures Resolve(Newest(Entries(Flushed(Apply(writes))), key, SeekTag(s))) ==
            match Effective(writes, key, s)
            case None => Missing
            case Some(w) => if w.op.Put? then Found(FlushedValue(w.op.value)) else Missing
    ensures Effective(writes, key, s).Some? ==> !NothingVisible(Entries(Flushed(Apply(writes))), key, SeekTag(s))
  {
    var contents, bound := Apply(writes), SeekTag(s);
    ApplyNewest(writes, key, s);
    FlushedNewest(contents, key, bound);
    match Effective(writes, key, s)
    case None =>
      NewestNone(Entries(Flushed(contents)), key, bound);
    case Some(w) =>
      NewestIs(Entries(Flushed(contents)), key, bound, FlushedEntry(EntryFor(w)));
      TagParts(w.sequence, if w.op.Put? then TYPE_VALUE else TYPE_DELETION);
  }

  /** What is promised or observed is never undefined. */
  lemma PromisedDefined(h: seq<Write>, flushed: nat, key: UserKey, s: nat)
    requires flushed <= |h|
    ensures !Promised(h, key, s).Undefined? && !Observed(h, flushed, key, s).Undefined?
  {
    hide Effective, LastWrite;
  }

  /** If no key is short, neither is any that the tables store. */
  lemma LongStored(all: seq<Write>, done: seq<Write>, key: UserKey)
    requires (forall w :: w in done ==> Fits(w)) && |done| <= |all| && all[..|done|] == done
    ensures !ShortKeys(all, |done|, key) ==> V.Long(Entries(Flushed(Apply(done))), key)
  {
    ApplySorted(done);
    FlushedMembers(Apply(done));
    hide Apply, Flushed;
    if !ShortKeys(all, |done|, key) {
      forall e | e in Flushed(Apply(done)) ensures |e.key.user| >= 8 {
        var d :| d in Apply(done) && FlushedEntry(d) == e;
        var w :| w in done && EntryFor(w) == d;
        assert e.key.user == w.op.key && !(|w.op.key| < 8);
      }
    }
  }

  /** The first of the three layers that has an effective write gives the observed result. */
  lemma LayersRead(done: seq<Write>, mid: seq<Write>, recent: seq<Write>, last: nat, key: UserKey, s: nat)
    requires Layered(done, mid, recent, last) && s <= MAX_SEQUENCE
    requires forall w :: w in done || w in mid || w in recent ==> Fits(w)
    ensures var all := done + mid + recent;
            && Observed(all, |done|, key, s) == (
                 if InMemory(recent, key, s).Some? then Resolve(InMemory(recent, key, s))
                 else if InMemory(mid, key, s).Some? then Resolve(InMemory(mid, key, s))
                 else Resolve(Newest(Entries(Flushed(Apply(done))), key, SeekTag(s))))
            && (Effective(all[|done|..], key, s).Some?
                <==> InMemory(recent, key, s).Some? || InMemory(mid, key, s).Some?)
            && (OnlyInTables(all, |done|, key, s) ==>
                  InMemory(recent, key, s).None? && InMemory(mid, key, s).None?
                  && !NothingVisible(Entries(Flushed(Apply(done))), key, SeekTag(s)))
            && (Observed(all, |done|, key, s) == Promised(all, key, s)
                <==> !Shadowed(all, key, s) && !Mangled(all, |done|, key, s))
  {
    hide Layered, InMemory, Resolve, Apply, Promised, Shadowed, Mangled;
    LayeredHistory(done, mid, recent, last);
    LayeredParts(done, mid, recent, last);
    ReadIsPromised(done + mid + recent, |done|, key, s);
    EffectiveSplit(mid, recent, key, s);
    MemoryRead(recent, key, s);
    MemoryRead(mid, key, s);
    TablesRead(done, key, s);
  }

  lemma LayeredParts(done: seq<Write>, mid: seq<Write>, recent: seq<Write>, last: nat)
    requires Layered(done, mid, recent, last)
    ensures Ordered(done) && Ordered(mid) && Ordered(recent) && Older(mid, recent)
  {
  }

  lemma OneWrite(older: seq<Write>, recent: seq<Write>, sequence: nat, op: Op)
    ensures older + (recent + Writes(sequence, [op])) == older + recent + Writes(sequence, [op])
    ensures older + (recent + []) == older + recent + []
  {
  }

  lemma LayersShift(done: seq<Write>, recent: seq<Write>, last: nat)
    requires Layered(done, [], recent, last)
    ensures Layered(done, recent, [], last)
  {
  }

  /** Once the frozen memtable is in a table, its writes belong to the tables. */
  lemma LayersSink(done: seq<Write>, mid: seq<Write>, recent: seq<Write>, last: nat)
    requires Layered(done, mid, recent, last)
    ensures Layered(done + mid, [], recent, last)
    ensures done + mid + [] + recent == done + mid + recent
  {
    OrderedConcat(done, mid);
  }

  lemma FrozenIsNotNewer(done: seq<Write>, recent: seq<Write>)
    ensures done + recent + [] == done + [] + recent
  {
  }

  lemma EmptyVersion(tables: V.Tables)
    ensures V.VersionOk(M.EMPTY_VERSION, tables) && Stored(M.EMPTY_VERSION, tables) == {}
  {
    forall l | 0 <= l <= M.LEVELS ensures V.EntriesFrom(M.EMPTY_VERSION, tables, l) == {} {
      V.NoFilesFrom(M.EMPTY_VERSION, tables, [], 0, l);
    }
  }
}
