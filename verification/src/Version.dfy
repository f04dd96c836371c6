/**
 Reads from table files: `FindFile` and `Version::Get` (src/db/version_set.cpp), `SaveValue` (src/db/version_set.h).

 A table is the sorted run of entries it holds; the table cache is a map from file numbers to tables.
 Where the source compares user keys with the comparison for tagged keys, so does the model.
 */
module Version {
  import opened Common
  import opened Keys
  import opened Lookup
  import opened Builder
  import Manifest

  type Tables = map<uint64, seq<Entry>>

  const LEVELS := Manifest.LEVELS

  type Levels = Manifest.Version

  // ---------------------------------------------------------------- what a version must satisfy

  ghost predicate TableOk(f: FileMeta, tables: Tables) {
    && f.num in tables
    && var t := tables[f.num];
       && t != [] && Sorted(t) && f.smallest == t[0].key && f.largest == t[|t| - 1].key
       && forall i :: 0 <= i < |t| ==> Kind(t[i].key.tag) <= TYPE_VALUE
  }

  ghost predicate TablesOk(v: Levels, tables: Tables) {
    forall l, i :: 0 <= l < LEVELS && 0 <= i < |v[l]| ==> TableOk(v[l][i], tables)
  }

  function FileEntries(f: FileMeta, tables: Tables): set<Entry> {
    if f.num in tables then Entries(tables[f.num]) else {}
  }

  function LevelEntries(files: Files, tables: Tables): set<Entry> {
    set i, e | 0 <= i < |files| && e in FileEntries(files[i], tables) :: e
  }

  /** Entries of the levels from l on. */
  function EntriesFrom(v: Levels, tables: Tables, l: nat): set<Entry>
    requires l <= LEVELS
    decreases LEVELS - l
  {
    if l == LEVELS then {} else LevelEntries(v[l], tables) + EntriesFrom(v, tables, l + 1)
  }

  /** Level 0 may overlap: there a greater file number means newer entries. */
  ghost predicate NewestFirst(files: Files, tables: Tables) {
    && (forall i, j :: 0 <= i < |files| && 0 <= j < |files| && i != j ==> files[i].num != files[j].num)
    && forall i, j :: 0 <= i < |files| && 0 <= j < |files| && files[i].num > files[j].num ==>
         Newer(FileEntries(files[i], tables), FileEntries(files[j], tables))
  }

  /** The invariant of versions: chained levels above 0, and per key newer entries in shallower levels. */
  ghost predicate VersionOk(v: Levels, tables: Tables) {
    && TablesOk(v, tables)
    && NewestFirst(v[0], tables)
    && (forall l :: 0 < l < LEVELS ==> Chained(v[l]))
    && forall l :: 0 <= l < LEVELS ==> Newer(LevelEntries(v[l], tables), EntriesFrom(v, tables, l + 1))
  }

  // ---------------------------------------------------------------- one table

  /** The states of a `Saver`; `kUndefined` stands for an undefined comparison. */
  datatype SaverState = kNotFound | kFound | kDeleted | kCorrupt | kUndefined

  /** `SaveValue`: what the first entry not below the key says about the wanted user key. */
  function SaveValue(e: Entry, user: UserKey): SaverState {
    if Kind(e.key.tag) > TYPE_VALUE then kCorrupt
    else
      match Untagged(e.key.user, user)
      case None => kUndefined
      case Some(r) =>
        if r != 0 then kNotFound
        else if Kind(e.key.tag) == TYPE_VALUE then kFound
        else kDeleted
  }

  /** All keys are long enough for the comparison. */
  ghost predicate Long(entries: set<Entry>, user: UserKey) {
    |user| >= 8 && forall e :: e in entries ==> |e.key.user| >= 8
  }

  /** The state that entry e, or none, stands for. */
  ghost predicate Answers(state: SaverState, value: seq<byte>, e: Option<Entry>) {
    match e
    case None => state == kNotFound
    case Some(x) =>
      && state == (if Kind(x.key.tag) == TYPE_VALUE then kFound else kDeleted)
      && (state == kFound ==> value == x.value)
  }

  /** `TableCache::Get` on one table: undefined exactly if the entry it comes to, or the wanted key, is too short. */
  method TableGet(table: seq<Entry>, ikey: InternalKey) returns (state: SaverState, value: seq<byte>)
    requires Sorted(table) && forall i :: 0 <= i < |table| ==> Kind(table[i].key.tag) <= TYPE_VALUE
    ensures state == kUndefined <==> ShortMet(table, ikey.user, ikey.tag)
    ensures state != kUndefined ==> Answers(state, value, Find(table, ikey))
  {
    state, value := kNotFound, [];
    var i := LowerBound(table, ikey);
    if i < |table| {
      if |table[i].key.user| >= 8 && |ikey.user| >= 8 {
        CmpViewEquality(table[i].key.user, ikey.user);
      }
      state := SaveValue(table[i], ikey.user);
      if state == kFound {
        value := table[i].value;
      }
    }
  }

  // ---------------------------------------------------------------- choosing files

  /** Index of the first file that ends at or after the key. */
  function FileIndex(files: Files, key: InternalKey): (index: nat)
    ensures index <= |files|
    ensures forall i :: 0 <= i < index ==> Lt(files[i].largest, key)
    ensures index < |files| ==> !Lt(files[index].largest, key)
  {
    if files == [] || !Lt(files[0].largest, key) then 0 else 1 + FileIndex(files[1..], key)
  }

  lemma FileIndexUnique(files: Files, key: InternalKey, index: nat)
    requires index <= |files|
    requires forall i :: 0 <= i < index ==> Lt(files[i].largest, key)
    requires index < |files| ==> !Lt(files[index].largest, key)
    ensures FileIndex(files, key) == index
  {
  }

  /** Binary search for the first file that ends at or after the key. */
  method FindFile(files: Files, key: InternalKey) returns (index: nat)
    requires forall i, j :: 0 <= i < j < |files| ==> Lt(files[i].largest, files[j].largest)
    ensures index == FileIndex(files, key)
    ensures forall i :: 0 <= i < index ==> Lt(files[i].largest, key)
    ensures forall i :: index <= i < |files| ==> !Lt(files[i].largest, key)
  {
    KeyOrder();
    var left, right := 0, |files|;
    while left < right
      invariant 0 <= left <= right <= |files|
      invariant forall i :: 0 <= i < left ==> Lt(files[i].largest, key)
      invariant forall i :: right <= i < |files| ==> !Lt(files[i].largest, key)
    {
      var mid := (left + right) / 2;
      if Cmp(files[mid].largest, key) < 0 {
        assert Lt(files[mid].largest, key);
        left := mid + 1;
      } else {
        right := mid;
      }
    }
    index := right;
    FileIndexUnique(files, key, index);
  }

  /** Sorted by descending file number, and a rearrangement of the given files. */
  ghost predicate Descending(files: Files) {
    forall i, j :: 0 <= i < j < |files| ==> files[i].num >= files[j].num
  }

  function InsertByNum(files: Files, f: FileMeta): Files {
    if files == [] || f.num > files[0].num then [f] + files else [files[0]] + InsertByNum(files[1..], f)
  }

  lemma {:induction false} InsertByNumMembers(files: Files, f: FileMeta)
    ensures multiset(InsertByNum(files, f)) == multiset(files) + multiset{f}
  {
    if files != [] {
      assert files == [files[0]] + files[1..];
      InsertByNumMembers(files[1..], f);
    }
  }

  lemma {:induction false} InsertByNumSorted(files: Files, f: FileMeta, limit: nat)
    requires Descending(files) && f.num <= limit && forall i :: 0 <= i < |files| ==> files[i].num <= limit
    ensures Descending(InsertByNum(files, f))
    ensures forall i :: 0 <= i < |InsertByNum(files, f)| ==> InsertByNum(files, f)[i].num <= limit
  {
    if files != [] && f.num <= files[0].num {
      InsertByNumSorted(files[1..], f, files[0].num);
    }
  }

  /** `std::sort(tmp.begin(), tmp.end(), NewestFirst)`. */
  method SortNewestFirst(files: Files) returns (r: Files)
    ensures Descending(r) && multiset(r) == multiset(files)
  {
    r := [];
    for i := 0 to |files|
      invariant Descending(r) && multiset(r) == multiset(files[..i])
    {
      InsertByNumMembers(r, files[i]);
      InsertByNumSorted(r, files[i], UINT64_LIMIT);
      assert files[..i + 1] == files[..i] + [files[i]];
      r := InsertByNum(r, files[i]);
    }
    assert files[..|files|] == files;
  }

  /** Does the key range of the file contain the user key? */
  predicate Spans(f: FileMeta, user: UserKey) {
    UserLe(f.smallest.user, user) && UserLe(user, f.largest.user)
  }

  lemma OutsideRange(f: FileMeta, tables: Tables, user: UserKey, bound: uint64)
    requires TableOk(f, tables) && !Spans(f, user)
    ensures NothingVisible(FileEntries(f, tables), user, bound)
  {
    KeyOrder();
    KeyOrderByParts();
    UserOrder();
    var t := tables[f.num];
    forall e | e in FileEntries(f, tables) ensures e.key.user != user {
      var i :| 0 <= i < |t| && t[i] == e;
      assert i > 0 ==> Lt(t[0].key, t[i].key);
      assert i < |t| - 1 ==> Lt(t[i].key, t[|t| - 1].key);
    }
  }

  // ---------------------------------------------------------------- one level

  /** The state and value say what the newest visible of these entries is, or that nothing is visible. */
  ghost predicate Answered(entries: set<Entry>, user: UserKey, bound: uint64, state: SaverState, value: seq<byte>) {
    var e := Newest(entries, user, bound);
    && Answers(state, value, e)
    && match e
       case None => NothingVisible(entries, user, bound)
       case Some(x) => IsNewest(entries, user, bound, x)
  }

  /** The first entry of the table that is not below the key is compared with it, and one of the two is too short. */
  predicate ShortMet(table: seq<Entry>, user: UserKey, bound: uint64) {
    var i := LowerBound(table, InternalKey(user, bound));
    i < |table| && (|table[i].key.user| < 8 || |user| < 8)
  }

  predicate ShortInFile(f: FileMeta, tables: Tables, user: UserKey, bound: uint64) {
    f.num in tables && ShortMet(tables[f.num], user, bound)
  }

  lemma AnsweredNone(entries: set<Entry>, user: UserKey, bound: uint64, value: seq<byte>)
    requires NothingVisible(entries, user, bound)
    ensures Answered(entries, user, bound, kNotFound, value)
  {
    NewestNone(entries, user, bound);
  }

  lemma AnsweredSome(entries: set<Entry>, user: UserKey, bound: uint64, state: SaverState, value: seq<byte>, e: Entry)
    requires IsNewest(entries, user, bound, e) && Answers(state, value, Some(e))
    ensures Answered(entries, user, bound, state, value)
  {
    NewestIs(entries, user, bound, e);
  }

  /** Looks the key up in a table of the version. */
  method FileGet(f: FileMeta, tables: Tables, user: UserKey, bound: uint64)
    returns (state: SaverState, value: seq<byte>)
    requires TableOk(f, tables)
    ensures state == kUndefined <==> ShortInFile(f, tables, user, bound)
    ensures state != kUndefined ==> Answered(FileEntries(f, tables), user, bound, state, value)
  {
    FindIsNewest(tables[f.num], user, bound);
    state, value := TableGet(tables[f.num], InternalKey(user, bound));
    if state == kUndefined {
      return;
    }
    match Find(tables[f.num], InternalKey(user, bound))
    case None => AnsweredNone(FileEntries(f, tables), user, bound, value);
    case Some(e) => AnsweredSome(FileEntries(f, tables), user, bound, state, value, e);
  }

  lemma LevelNothing(files: Files, tables: Tables, user: UserKey, bound: uint64)
    requires forall i :: 0 <= i < |files| ==> NothingVisible(FileEntries(files[i], tables), user, bound)
    ensures NothingVisible(LevelEntries(files, tables), user, bound)
  {
  }

  /** The newest entry of one file is the newest of the level if every other file has only older visible entries. */
  lemma LevelNewest(files: Files, tables: Tables, user: UserKey, bound: uint64, at: nat, e: Entry)
    requires at < |files| && IsNewest(FileEntries(files[at], tables), user, bound, e)
    requires forall i :: 0 <= i < |files| && i != at ==>
               NothingVisible(FileEntries(files[i], tables), user, bound)
               || Newer(FileEntries(files[at], tables), FileEntries(files[i], tables))
    ensures IsNewest(LevelEntries(files, tables), user, bound, e)
  {
    forall x | x in LevelEntries(files, tables) && Visible(x, user, bound) ensures x == e || x.key.tag < e.key.tag {
      var i :| 0 <= i < |files| && x in FileEntries(files[i], tables);
    }
  }

  /** A file that spans the key meets a short one, and no newer file has anything visible. */
  ghost predicate ShortIn0(files: Files, tables: Tables, user: UserKey, bound: uint64) {
    exists i ::
      && 0 <= i < |files| && Spans(files[i], user) && ShortInFile(files[i], tables, user, bound)
      && NothingNewer(files, tables, user, bound, files[i].num)
  }

  ghost predicate NothingNewer(files: Files, tables: Tables, user: UserKey, bound: uint64, num: uint64) {
    forall j :: 0 <= j < |files| && files[j].num > num ==> NothingVisible(FileEntries(files[j], tables), user, bound)
  }

  /** Level 0: the files whose range contains the key, newest first. */
  method SearchLevel0(files: Files, tables: Tables, user: UserKey, bound: uint64)
    returns (state: SaverState, value: seq<byte>)
    requires forall i :: 0 <= i < |files| ==> TableOk(files[i], tables)
    requires NewestFirst(files, tables)
    ensures state == kUndefined <==> ShortIn0(files, tables, user, bound)
    ensures state != kUndefined ==> Answered(LevelEntries(files, tables), user, bound, state, value)
  {
    hide NewestFirst, Descending, LevelEntries, FileEntries, Spans, ShortIn0, ShortInFile, Newest;
    var tmp: Files := [];
    for i := 0 to |files|
      invariant forall f :: f in tmp ==> f in files && Spans(f, user)
      invariant forall j :: 0 <= j < i ==> files[j] in tmp || NothingVisible(FileEntries(files[j], tables), user, bound)
      invariant forall j :: 0 <= j < i && Spans(files[j], user) ==> files[j] in tmp
    {
      if Spans(files[i], user) {
        tmp := tmp + [files[i]];
      } else {
        OutsideRange(files[i], tables, user, bound);
      }
    }
    ghost var chosen := tmp;
    tmp := SortNewestFirst(tmp);
    SameMembers(tmp, chosen);
    state, value := kNotFound, [];
    for i := 0 to |tmp|
      invariant state == kNotFound
      invariant forall j :: 0 <= j < i ==> NothingVisible(FileEntries(tmp[j], tables), user, bound)
      invariant forall j :: 0 <= j < i ==> !ShortInFile(tmp[j], tables, user, bound)
    {
      assert tmp[i] in files;
      state, value := FileGet(tmp[i], tables, user, bound);
      if state == kUndefined {
        ShortFirst(files, tables, user, bound, tmp, i);
        return;
      }
      if state != kNotFound {
        NoShortBefore(files, tables, user, bound, tmp, i);
        ghost var e := Newest(FileEntries(tmp[i], tables), user, bound).value;
        FoundInLevel0(files, tables, user, bound, tmp, i, e);
        AnsweredSome(LevelEntries(files, tables), user, bound, state, value, e);
        return;
      }
    }
    LevelNothing(files, tables, user, bound);
    AnsweredNone(LevelEntries(files, tables), user, bound, value);
    NoShortAtAll(files, tables, user, bound, tmp);
  }

  /** The search that comes to a short key is the one that the condition names. */
  lemma ShortFirst(files: Files, tables: Tables, user: UserKey, bound: uint64, tmp: Files, i: nat)
    requires Descending(tmp) && i < |tmp| && NewestFirst(files, tables)
    requires forall f :: f in tmp ==> f in files && Spans(f, user)
    requires forall j :: 0 <= j < |files| ==>
               files[j] in tmp || NothingVisible(FileEntries(files[j], tables), user, bound)
    requires forall j :: 0 <= j < i ==> NothingVisible(FileEntries(tmp[j], tables), user, bound)
    requires ShortInFile(tmp[i], tables, user, bound)
    ensures ShortIn0(files, tables, user, bound)
  {
    assert tmp[i] in tmp && tmp[i] in files;
    var at :| 0 <= at < |files| && files[at] == tmp[i];
    forall j | 0 <= j < |files| && files[j].num > files[at].num
      ensures NothingVisible(FileEntries(files[j], tables), user, bound)
    {
      if files[j] in tmp {
        var k :| 0 <= k < |tmp| && tmp[k] == files[j];
        assert k < i;
      }
    }
  }

  /** A file that answers without meeting a short key hides those behind it. */
  lemma NoShortBefore(files: Files, tables: Tables, user: UserKey, bound: uint64, tmp: Files, i: nat)
    requires Descending(tmp) && i < |tmp| && NewestFirst(files, tables)
    requires forall f :: f in tmp ==> f in files
    requires forall j :: 0 <= j < |files| ==> (Spans(files[j], user) ==> files[j] in tmp)
    requires forall j :: 0 <= j <= i ==> !ShortInFile(tmp[j], tables, user, bound)
    requires !NothingVisible(FileEntries(tmp[i], tables), user, bound)
    ensures !ShortIn0(files, tables, user, bound)
  {
    assert tmp[i] in files;
    var at :| 0 <= at < |files| && files[at] == tmp[i];
    forall j | 0 <= j < |files| && Spans(files[j], user) && ShortInFile(files[j], tables, user, bound)
      ensures !NothingNewer(files, tables, user, bound, files[j].num)
    {
      var k :| 0 <= k < |tmp| && tmp[k] == files[j];
      assert k > i && j != at;
      assert files[at].num > files[j].num;
    }
  }

  lemma NoShortAtAll(files: Files, tables: Tables, user: UserKey, bound: uint64, tmp: Files)
    requires forall j :: 0 <= j < |files| ==> (Spans(files[j], user) ==> files[j] in tmp)
    requires forall j :: 0 <= j < |tmp| ==> !ShortInFile(tmp[j], tables, user, bound)
    ensures !ShortIn0(files, tables, user, bound)
  {
  }

  lemma SameMembers(a: Files, b: Files)
    requires multiset(a) == multiset(b)
    ensures forall f :: f in a <==> f in b
  {
    forall f ensures f in a <==> f in b {
      assert f in a <==> f in multiset(a);
      assert f in b <==> f in multiset(b);
    }
  }

  lemma FoundInLevel0(files: Files, tables: Tables, user: UserKey, bound: uint64, tmp: Files, i: nat, e: Entry)
    requires NewestFirst(files, tables) && Descending(tmp) && i < |tmp|
    requires forall f :: f in tmp ==> f in files
    requires forall j :: 0 <= j < |files| ==>
               files[j] in tmp || NothingVisible(FileEntries(files[j], tables), user, bound)
    requires forall j :: 0 <= j < i ==> NothingVisible(FileEntries(tmp[j], tables), user, bound)
    requires IsNewest(FileEntries(tmp[i], tables), user, bound, e)
    ensures IsNewest(LevelEntries(files, tables), user, bound, e)
  {
    assert tmp[i] in files;
    var at :| 0 <= at < |files| && files[at] == tmp[i];
    forall j | 0 <= j < |files| && j != at
      ensures NothingVisible(FileEntries(files[j], tables), user, bound)
              || Newer(FileEntries(files[at], tables), FileEntries(files[j], tables))
    {
      if files[j] in tmp {
        var k :| 0 <= k < |tmp| && tmp[k] == files[j];
        assert k != i;
      }
    }
    LevelNewest(files, tables, user, bound, at, e);
  }

  lemma FileWithin(files: Files, tables: Tables, f: FileMeta)
    requires f in files
    ensures FileEntries(f, tables) <= LevelEntries(files, tables)
  {
    var i :| 0 <= i < |files| && files[i] == f;
  }

  /** The level is passed over: the found file seems to start after the user key. */
  predicate Skips(files: Files, user: UserKey, bound: uint64) {
    var index := FileIndex(files, InternalKey(user, bound));
    index < |files| && var r := Untagged(user, files[index].smallest.user); r.Some? && r.value < 0
  }

  /** The entries a level above 0 is searched for. */
  function Searched(files: Files, tables: Tables, user: UserKey, bound: uint64): set<Entry> {
    if Skips(files, user, bound) then {} else LevelEntries(files, tables)
  }

  /**
   The first file that ends at or after the key is compared with it, which is undefined if its first key or the
   wanted one is too short; otherwise its table may meet a short key, unless the level is passed over.
   */
  predicate ShortAbove0(files: Files, tables: Tables, user: UserKey, bound: uint64) {
    var index := FileIndex(files, InternalKey(user, bound));
    && index < |files|
    && (|user| < 8 || |files[index].smallest.user| < 8
        || (!Skips(files, user, bound) && ShortInFile(files[index], tables, user, bound)))
  }

  /** A level above 0: at most the first file that ends at or after the key. */
  method SearchLevel(files: Files, tables: Tables, user: UserKey, bound: uint64)
    returns (state: SaverState, value: seq<byte>)
    requires forall i :: 0 <= i < |files| ==> TableOk(files[i], tables)
    requires Chained(files)
    ensures state == kUndefined <==> ShortAbove0(files, tables, user, bound)
    ensures state != kUndefined ==> Answered(Searched(files, tables, user, bound), user, bound, state, value)
  {
    state, value := kNotFound, [];
    LargestIncrease(files, tables);
    var index := FindFile(files, InternalKey(user, bound));
    FilesBefore(files, tables, user, bound, index);
    if index >= |files| {
      LevelNothing(files, tables, user, bound);
      AnsweredNone(LevelEntries(files, tables), user, bound, value);
      return;
    }
    var f := files[index];
    var r := Untagged(user, f.smallest.user);
    if r.None? {
      return kUndefined, [];
    }
    if r.value < 0 {
      AnsweredNone({}, user, bound, value);
      return;
    }
    state, value := FileGet(f, tables, user, bound);
    if state == kUndefined {
      return;
    }
    FilesAfter(files, tables, user, bound, index);
    FileDecides(files, tables, user, bound, index, state, value);
  }

  /** The answer of one file is that of the level if later files are older and earlier ones have nothing visible. */
  lemma FileDecides(files: Files, tables: Tables, user: UserKey, bound: uint64, index: nat, state: SaverState,
                    value: seq<byte>)
    requires index < |files| && Answered(FileEntries(files[index], tables), user, bound, state, value)
    requires forall i :: 0 <= i < index ==> NothingVisible(FileEntries(files[i], tables), user, bound)
    requires forall i :: index < i < |files| ==> Newer(FileEntries(files[index], tables), FileEntries(files[i], tables))
    requires NothingVisible(FileEntries(files[index], tables), user, bound) ==>
               forall i :: index < i < |files| ==> NothingVisible(FileEntries(files[i], tables), user, bound)
    ensures Answered(LevelEntries(files, tables), user, bound, state, value)
  {
    match Newest(FileEntries(files[index], tables), user, bound)
    case None =>
      LevelNothing(files, tables, user, bound);
      AnsweredNone(LevelEntries(files, tables), user, bound, value);
    case Some(e) =>
      LevelNewest(files, tables, user, bound, index, e);
      AnsweredSome(LevelEntries(files, tables), user, bound, state, value, e);
  }

  /** Every key of a table lies between the smallest and the largest of its file. */
  lemma WithinFile(f: FileMeta, tables: Tables, e: Entry)
    requires TableOk(f, tables) && e in FileEntries(f, tables)
    ensures !Lt(e.key, f.smallest) && !Lt(f.largest, e.key)
  {
    KeyOrder();
    var t := tables[f.num];
    var i :| 0 <= i < |t| && t[i] == e;
    assert i > 0 ==> Lt(t[0].key, t[i].key);
    assert i < |t| - 1 ==> Lt(t[i].key, t[|t| - 1].key);
  }

  lemma FileRange(f: FileMeta, tables: Tables)
    requires TableOk(f, tables)
    ensures !Lt(f.largest, f.smallest)
    ensures tables[f.num][0] in FileEntries(f, tables)
  {
    WithinFile(f, tables, tables[f.num][0]);
  }

  lemma {:induction false} ChainedTables(files: Files, tables: Tables, i: nat, j: nat)
    requires (forall k :: 0 <= k < |files| ==> TableOk(files[k], tables)) && Chained(files) && i < j < |files|
    ensures Lt(files[i].largest, files[j].smallest)
  {
    KeyOrder();
    if i < j - 1 {
      ChainedTables(files, tables, i, j - 1);
      FileRange(files[j - 1], tables);
    }
  }

  lemma LargestIncrease(files: Files, tables: Tables)
    requires (forall k :: 0 <= k < |files| ==> TableOk(files[k], tables)) && Chained(files)
    ensures forall i, j :: 0 <= i < j < |files| ==> Lt(files[i].largest, files[j].largest)
  {
    KeyOrder();
    forall i, j | 0 <= i < j < |files| ensures Lt(files[i].largest, files[j].largest) {
      ChainedTables(files, tables, i, j);
      FileRange(files[j], tables);
    }
  }

  /** Files that end before the looked-up key hold only newer, invisible entries of its user key. */
  lemma FilesBefore(files: Files, tables: Tables, user: UserKey, bound: uint64, index: nat)
    requires forall k :: 0 <= k < |files| ==> TableOk(files[k], tables)
    requires index <= |files| && forall i :: 0 <= i < index ==> Lt(files[i].largest, InternalKey(user, bound))
    ensures forall i :: 0 <= i < index ==> NothingVisible(FileEntries(files[i], tables), user, bound)
  {
    KeyOrder();
    KeyOrderByParts();
    UserOrder();
    forall i, e | 0 <= i < index && e in FileEntries(files[i], tables) ensures !Visible(e, user, bound) {
      WithinFile(files[i], tables, e);
      assert Lt(e.key, InternalKey(user, bound));
    }
  }

  /**
   Passing over a level loses nothing if the comparison agrees with the bytewise order of the two keys. For
   keys of at least eight bytes that is `OrderAgrees`.
   */
  lemma RightSkip(files: Files, tables: Tables, user: UserKey, bound: uint64)
    requires (forall k :: 0 <= k < |files| ==> TableOk(files[k], tables)) && Chained(files)
    requires Skips(files, user, bound)
    requires OrderAgrees(user, files[FileIndex(files, InternalKey(user, bound))].smallest.user)
    ensures NothingVisible(LevelEntries(files, tables), user, bound)
  {
    var index := FileIndex(files, InternalKey(user, bound));
    UntaggedOrder(user, files[index].smallest.user);
    FilesBefore(files, tables, user, bound, index);
    FilesFrom(files, tables, user, bound, index);
    LevelNothing(files, tables, user, bound);
  }

  /** If the found file starts after the user key, so do all later ones. */
  lemma FilesFrom(files: Files, tables: Tables, user: UserKey, bound: uint64, index: nat)
    requires (forall k :: 0 <= k < |files| ==> TableOk(files[k], tables)) && Chained(files)
    requires index < |files| && UserLt(user, files[index].smallest.user)
    ensures forall i :: index <= i < |files| ==> NothingVisible(FileEntries(files[i], tables), user, bound)
  {
    KeyOrder();
    KeyOrderByParts();
    UserOrder();
    forall i, e | index <= i < |files| && e in FileEntries(files[i], tables) ensures e.key.user != user {
      WithinFile(files[i], tables, e);
      if i > index {
        ChainedTables(files, tables, index, i);
        FileRange(files[index], tables);
      }
      assert !Lt(e.key, files[index].smallest);
    }
  }

  /** Entries of the user key in files after the found one are older than those in it. */
  lemma FilesAfter(files: Files, tables: Tables, user: UserKey, bound: uint64, index: nat)
    requires (forall k :: 0 <= k < |files| ==> TableOk(files[k], tables)) && Chained(files)
    requires index < |files| && !Lt(files[index].largest, InternalKey(user, bound))
    ensures forall i :: index < i < |files| ==> Newer(FileEntries(files[index], tables), FileEntries(files[i], tables))
    ensures NothingVisible(FileEntries(files[index], tables), user, bound) ==>
              forall i :: index < i < |files| ==> NothingVisible(FileEntries(files[i], tables), user, bound)
  {
    KeyOrder();
    KeyOrderByParts();
    UserOrder();
    var f, t := files[index], tables[files[index].num];
    assert t[|t| - 1] in FileEntries(f, tables);
    forall i | index < i < |files|
      ensures Newer(FileEntries(f, tables), FileEntries(files[i], tables))
      ensures NothingVisible(FileEntries(f, tables), user, bound) ==>
                NothingVisible(FileEntries(files[i], tables), user, bound)
    {
      ChainedTables(files, tables, index, i);
      forall x, y | x in FileEntries(f, tables) && y in FileEntries(files[i], tables)
        ensures x.key.user == y.key.user ==> x.key.tag > y.key.tag
      {
        WithinFile(f, tables, x);
        WithinFile(files[i], tables, y);
        assert Lt(x.key, y.key);
      }
      if NothingVisible(FileEntries(f, tables), user, bound) {
        forall y | y in FileEntries(files[i], tables) ensures y.key.user != user {
          WithinFile(files[i], tables, y);
          assert Lt(f.largest, y.key);
          assert f.largest.user == user ==> Visible(t[|t| - 1], user, bound);
        }
      }
    }
  }

  // ---------------------------------------------------------------- Version::Get

  function OutcomeOf(state: SaverState, value: seq<byte>): ReadResult {
    match state
    case kNotFound => Missing
    case kFound => Found(value)
    case kDeleted => Missing
    case kCorrupt => Corrupt
    case kUndefined => Undefined
  }

  /** The entries that a read of the user key looks at on one level. */
  function SeenAt(v: Levels, tables: Tables, user: UserKey, bound: uint64, l: nat): set<Entry>
    requires l < LEVELS
  {
    if l == 0 then LevelEntries(v[0], tables) else Searched(v[l], tables, user, bound)
  }

  /** ... and on the levels from l on. */
  function SeenFrom(v: Levels, tables: Tables, user: UserKey, bound: uint64, l: nat): set<Entry>
    requires l <= LEVELS
    decreases LEVELS - l
  {
    if l == LEVELS then {} else SeenAt(v, tables, user, bound, l) + SeenFrom(v, tables, user, bound, l + 1)
  }

  lemma {:induction false} SeenWithin(v: Levels, tables: Tables, user: UserKey, bound: uint64, l: nat)
    requires l <= LEVELS
    ensures SeenFrom(v, tables, user, bound, l) <= EntriesFrom(v, tables, l)
    decreases LEVELS - l
  {
    if l < LEVELS {
      SeenWithin(v, tables, user, bound, l + 1);
    }
  }

  /** An answer from the first level that has one is the newest visible entry of all that is looked at. */
  lemma {:induction false} FoundAtLevel(v: Levels, tables: Tables, from: nat, at: nat, user: UserKey, bound: uint64,
                                        e: Entry)
    requires VersionOk(v, tables) && from <= at < LEVELS
    requires forall l :: from <= l < at ==> NothingVisible(SeenAt(v, tables, user, bound, l), user, bound)
    requires IsNewest(SeenAt(v, tables, user, bound, at), user, bound, e)
    ensures IsNewest(SeenFrom(v, tables, user, bound, from), user, bound, e)
    decreases at - from
  {
    hide VersionOk, LevelEntries, EntriesFrom, SeenAt;
    var seen, deeper := SeenAt(v, tables, user, bound, from), SeenFrom(v, tables, user, bound, from + 1);
    assert SeenFrom(v, tables, user, bound, from) == seen + deeper;
    if from < at {
      FoundAtLevel(v, tables, from + 1, at, user, bound, e);
    } else {
      SeenNewer(v, tables, user, bound, at);
    }
  }

  lemma SeenNewer(v: Levels, tables: Tables, user: UserKey, bound: uint64, l: nat)
    requires VersionOk(v, tables) && l < LEVELS
    ensures Newer(SeenAt(v, tables, user, bound, l), SeenFrom(v, tables, user, bound, l + 1))
  {
    hide LevelEntries, EntriesFrom, SeenFrom, Skips;
    SeenWithin(v, tables, user, bound, l + 1);
    assert Newer(LevelEntries(v[l], tables), EntriesFrom(v, tables, l + 1));
  }

  lemma {:induction false} NothingFrom(v: Levels, tables: Tables, from: nat, user: UserKey, bound: uint64)
    requires from <= LEVELS
    requires forall l :: from <= l < LEVELS ==> NothingVisible(SeenAt(v, tables, user, bound, l), user, bound)
    ensures NothingVisible(SeenFrom(v, tables, user, bound, from), user, bound)
    decreases LEVELS - from
  {
    if from < LEVELS {
      NothingFrom(v, tables, from + 1, user, bound);
    }
  }

  ghost predicate ShortAt(v: Levels, tables: Tables, user: UserKey, bound: uint64, l: nat)
    requires l < LEVELS
  {
    if l == 0 then ShortIn0(v[0], tables, user, bound) else ShortAbove0(v[l], tables, user, bound)
  }

  /** Some level meets a short key, and those above it have nothing visible in what is looked at. */
  ghost predicate ShortRead(v: Levels, tables: Tables, user: UserKey, bound: uint64) {
    exists l :: 0 <= l < LEVELS && ShortAt(v, tables, user, bound, l) && NothingAbove(v, tables, user, bound, l)
  }

  ghost predicate NothingAbove(v: Levels, tables: Tables, user: UserKey, bound: uint64, l: nat)
    requires l <= LEVELS
  {
    forall k :: 0 <= k < l ==> NothingVisible(SeenAt(v, tables, user, bound, k), user, bound)
  }

  /** One turn of the level loop. */
  method LevelGet(v: Levels, tables: Tables, level: nat, user: UserKey, bound: uint64)
    returns (state: SaverState, value: seq<byte>)
    requires VersionOk(v, tables) && level < LEVELS
    ensures state == kUndefined <==> ShortAt(v, tables, user, bound, level)
    ensures state != kUndefined ==> Answered(SeenAt(v, tables, user, bound, level), user, bound, state, value)
  {
    if level == 0 {
      state, value := SearchLevel0(v[0], tables, user, bound);
    } else {
      state, value := SearchLevel(v[level], tables, user, bound);
    }
  }

  /**
   `Version::Get` gives the newest visible entry over all files it looks at. It is undefined exactly if it comes
   to a short key before it comes to an answer.
   */
  method Get(v: Levels, tables: Tables, user: UserKey, bound: uint64) returns (r: ReadResult)
    requires VersionOk(v, tables)
    ensures r == Undefined <==> ShortRead(v, tables, user, bound)
    ensures r != Undefined ==> r == Resolve(Newest(SeenFrom(v, tables, user, bound, 0), user, bound))
  {
    hide VersionOk, LevelEntries, EntriesFrom, SeenFrom, SeenAt, Newest, IsNewest, ShortAt;
    for level := 0 to LEVELS
      invariant NothingAbove(v, tables, user, bound, level)
      invariant forall l :: 0 <= l < level ==> !ShortAt(v, tables, user, bound, l)
    {
      var state, value := LevelGet(v, tables, level, user, bound);
      if state == kUndefined {
        return Undefined;
      }
      if state != kNotFound {
        LevelDecides(v, tables, level, user, bound, state, value);
        SomethingAt(v, tables, user, bound, level);
        return OutcomeOf(state, value);
      }
    }
    NothingFrom(v, tables, 0, user, bound);
    NewestNone(SeenFrom(v, tables, user, bound, 0), user, bound);
    return Missing;
  }

  /** An answer ends the read before any deeper level. */
  lemma SomethingAt(v: Levels, tables: Tables, user: UserKey, bound: uint64, level: nat)
    requires level < LEVELS && forall l :: 0 <= l <= level ==> !ShortAt(v, tables, user, bound, l)
    requires !NothingVisible(SeenAt(v, tables, user, bound, level), user, bound)
    ensures !ShortRead(v, tables, user, bound)
  {
    hide ShortAt, SeenAt;
  }

  lemma {:induction false} FromWithin(v: Levels, tables: Tables, from: nat, to: nat)
    requires from <= to <= LEVELS
    ensures EntriesFrom(v, tables, to) <= EntriesFrom(v, tables, from)
    decreases LEVELS - from
  {
    if from < to {
      FromWithin(v, tables, from + 1, to);
    }
  }

  /** The first level that has an answer decides the read. */
  lemma LevelDecides(v: Levels, tables: Tables, level: nat, user: UserKey, bound: uint64, state: SaverState,
                     value: seq<byte>)
    requires VersionOk(v, tables) && level < LEVELS && state != kNotFound && state != kUndefined
    requires forall l :: 0 <= l < level ==> NothingVisible(SeenAt(v, tables, user, bound, l), user, bound)
    requires Answered(SeenAt(v, tables, user, bound, level), user, bound, state, value)
    ensures OutcomeOf(state, value) == Resolve(Newest(SeenFrom(v, tables, user, bound, 0), user, bound))
    ensures !NothingVisible(SeenAt(v, tables, user, bound, level), user, bound)
  {
    var e := Newest(SeenAt(v, tables, user, bound, level), user, bound).value;
    KindsOk(v, tables, level, e);
    FoundAtLevel(v, tables, 0, level, user, bound, e);
    NewestIs(SeenFrom(v, tables, user, bound, 0), user, bound, e);
  }

  lemma KindsOk(v: Levels, tables: Tables, level: nat, e: Entry)
    requires TablesOk(v, tables) && level < LEVELS && e in LevelEntries(v[level], tables)
    ensures Kind(e.key.tag) <= TYPE_VALUE
  {
    var i :| 0 <= i < |v[level]| && e in FileEntries(v[level][i], tables);
    assert TableOk(v[level][i], tables);
  }

  // ---------------------------------------------------------------- when a read is defined

  /** A key of eight bytes or more whose own entry is the first one not below it meets no short key. */
  lemma OwnEntryMet(table: seq<Entry>, user: UserKey, bound: uint64)
    requires |user| >= 8 && Find(table, InternalKey(user, bound)).Some?
    ensures !ShortMet(table, user, bound)
  {
  }

  /** With keys of at least eight bytes everywhere every read is defined. */
  lemma LongRead(v: Levels, tables: Tables, user: UserKey, bound: uint64)
    requires TablesOk(v, tables) && Long(EntriesFrom(v, tables, 0), user)
    ensures !ShortRead(v, tables, user, bound)
  {
    forall l, i | 0 <= l < LEVELS && 0 <= i < |v[l]|
      ensures !ShortInFile(v[l][i], tables, user, bound) && |v[l][i].smallest.user| >= 8
    {
      FromWithin(v, tables, 0, l);
      LongFile(v[l], tables, user, bound, i);
    }
  }

  lemma LongFile(files: Files, tables: Tables, user: UserKey, bound: uint64, i: nat)
    requires i < |files| && TableOk(files[i], tables) && Long(LevelEntries(files, tables), user)
    ensures !ShortInFile(files[i], tables, user, bound) && |files[i].smallest.user| >= 8
  {
    var t := tables[files[i].num];
    assert forall k :: 0 <= k < |t| ==> t[k] in FileEntries(files[i], tables);
  }

  /** A read of a short key that is visible in some file is undefined. */
  lemma ShortKeyRead(v: Levels, tables: Tables, user: UserKey, bound: uint64, l: nat)
    requires VersionOk(v, tables) && l < LEVELS && |user| < 8
    requires !NothingVisible(LevelEntries(v[l], tables), user, bound)
    requires forall k :: 0 <= k < l ==> NothingVisible(LevelEntries(v[k], tables), user, bound)
    ensures ShortRead(v, tables, user, bound)
  {
    hide NothingVisible, LevelEntries, FileEntries, EntriesFrom, Newer, TableOk, ShortInFile, Spans;
    if l == 0 {
      var i := NewestWithKey(v[0], tables, user, bound, |v[0]|);
      ShortVisible(v[0][i.value], tables, user, bound);
    } else {
      ShortKeyAbove0(v[l], tables, user, bound);
    }
    assert ShortAt(v, tables, user, bound, l) && NothingAbove(v, tables, user, bound, l);
  }

  lemma ShortKeyAbove0(files: Files, tables: Tables, user: UserKey, bound: uint64)
    requires (forall k :: 0 <= k < |files| ==> TableOk(files[k], tables)) && Chained(files) && |user| < 8
    requires !NothingVisible(LevelEntries(files, tables), user, bound)
    ensures ShortAbove0(files, tables, user, bound)
  {
    hide NothingVisible, LevelEntries, FileEntries, TableOk, ShortInFile;
    LargestIncrease(files, tables);
    var index := FileIndex(files, InternalKey(user, bound));
    FilesBefore(files, tables, user, bound, index);
    if index == |files| {
      LevelNothing(files, tables, user, bound);
    }
  }

  /** Of the first n files, the one with the greatest number that has the key visible. */
  lemma {:induction false} NewestWithKey(files: Files, tables: Tables, user: UserKey, bound: uint64, n: nat)
    returns (r: Option<nat>)
    requires n <= |files| && forall i, j :: 0 <= i < j < |files| ==> files[i].num != files[j].num
    ensures r.Some? ==>
              && r.value < n && !NothingVisible(FileEntries(files[r.value], tables), user, bound)
              && forall j :: 0 <= j < n && files[j].num > files[r.value].num ==>
                   NothingVisible(FileEntries(files[j], tables), user, bound)
    ensures r.None? ==> forall j :: 0 <= j < n ==> NothingVisible(FileEntries(files[j], tables), user, bound)
    ensures n == |files| && !NothingVisible(LevelEntries(files, tables), user, bound) ==> r.Some?
  {
    r := None;
    if n > 0 {
      r := NewestWithKey(files, tables, user, bound, n - 1);
      if !NothingVisible(FileEntries(files[n - 1], tables), user, bound)
         && (r.None? || files[n - 1].num > files[r.value].num) {
        r := Some(n - 1);
      }
    }
  }

  lemma ShortVisible(f: FileMeta, tables: Tables, user: UserKey, bound: uint64)
    requires TableOk(f, tables) && |user| < 8 && !NothingVisible(FileEntries(f, tables), user, bound)
    ensures Spans(f, user) && ShortInFile(f, tables, user, bound)
  {
    FindIsNewest(tables[f.num], user, bound);
    if !Spans(f, user) {
      OutsideRange(f, tables, user, bound);
    }
  }

  // ---------------------------------------------------------------- when a level is passed over

  /** The level that holds the newest visible entry is passed over. */
  ghost predicate Loses(v: Levels, tables: Tables, user: UserKey, bound: uint64) {
    var e := Newest(EntriesFrom(v, tables, 0), user, bound);
    e.Some? && exists l :: 0 < l < LEVELS && e.value in LevelEntries(v[l], tables) && Skips(v[l], user, bound)
  }

  lemma {:induction false} InSomeLevel(v: Levels, tables: Tables, from: nat, e: Entry) returns (l: nat)
    requires from <= LEVELS && e in EntriesFrom(v, tables, from)
    ensures from <= l < LEVELS && e in LevelEntries(v[l], tables)
    decreases LEVELS - from
  {
    l := from;
    if e !in LevelEntries(v[from], tables) {
      l := InSomeLevel(v, tables, from + 1, e);
    }
  }

  lemma {:induction false} SeenLevel(v: Levels, tables: Tables, user: UserKey, bound: uint64, from: nat, l: nat)
    requires from <= l < LEVELS
    ensures SeenAt(v, tables, user, bound, l) <= SeenFrom(v, tables, user, bound, from)
    decreases l - from
  {
    if from < l {
      SeenLevel(v, tables, user, bound, from + 1, l);
    }
  }

  lemma {:induction false} SeenInSome(v: Levels, tables: Tables, user: UserKey, bound: uint64, from: nat, e: Entry)
    returns (l: nat)
    requires from <= LEVELS && e in SeenFrom(v, tables, user, bound, from)
    ensures from <= l < LEVELS && e in SeenAt(v, tables, user, bound, l)
    decreases LEVELS - from
  {
    l := from;
    if e !in SeenAt(v, tables, user, bound, from) {
      l := SeenInSome(v, tables, user, bound, from + 1, e);
    }
  }

  /** An entry is on one level only. */
  lemma OneLevel(v: Levels, tables: Tables, e: Entry, i: nat, j: nat)
    requires VersionOk(v, tables) && i < j < LEVELS && e in LevelEntries(v[i], tables)
    ensures e !in LevelEntries(v[j], tables)
  {
    if e in LevelEntries(v[j], tables) {
      NewerBelow(v, tables, e, e, i, j);
    }
  }

  /** A key has one entry in a version. */
  lemma OneEntry(v: Levels, tables: Tables, x: Entry, y: Entry)
    requires VersionOk(v, tables) && x in EntriesFrom(v, tables, 0) && y in EntriesFrom(v, tables, 0) && x.key == y.key
    ensures x == y
  {
    hide VersionOk, LevelEntries, EntriesFrom;
    var i := InSomeLevel(v, tables, 0, x);
    var j := InSomeLevel(v, tables, 0, y);
    if i != j {
      NewerBelow(v, tables, if i < j then x else y, if i < j then y else x, if i < j then i else j,
                 if i < j then j else i);
    } else {
      OneInLevel(v, tables, x, y, i);
    }
  }

  lemma NewerBelow(v: Levels, tables: Tables, x: Entry, y: Entry, i: nat, j: nat)
    requires VersionOk(v, tables) && i < j < LEVELS && x.key.user == y.key.user
    requires x in LevelEntries(v[i], tables) && y in LevelEntries(v[j], tables)
    ensures x.key.tag > y.key.tag
  {
    FromWithin(v, tables, i + 1, j);
    assert Newer(LevelEntries(v[i], tables), EntriesFrom(v, tables, i + 1));
  }

  lemma OneInLevel(v: Levels, tables: Tables, x: Entry, y: Entry, l: nat)
    requires VersionOk(v, tables) && l < LEVELS && x.key == y.key
    requires x in LevelEntries(v[l], tables) && y in LevelEntries(v[l], tables)
    ensures x == y
  {
    hide EntriesFrom, Newer;
    var files := v[l];
    var i :| 0 <= i < |files| && x in FileEntries(files[i], tables);
    var j :| 0 <= j < |files| && y in FileEntries(files[j], tables);
    KeyOrder();
    if i == j {
      assert TableOk(files[i], tables);
      OneInTable(tables[files[i].num], x, y);
    } else if l > 0 {
      var lo, hi := if i < j then i else j, if i < j then j else i;
      ChainedTables(files, tables, lo, hi);
      WithinFile(files[i], tables, x);
      WithinFile(files[j], tables, y);
    } else {
      TagsApart(FileEntries(files[i], tables), FileEntries(files[j], tables), x, y);
    }
  }

  lemma OneInTable(t: seq<Entry>, x: Entry, y: Entry)
    requires Sorted(t) && x in t && y in t && x.key == y.key
    ensures x == y
  {
    KeyOrder();
    var a :| 0 <= a < |t| && t[a] == x;
    var b :| 0 <= b < |t| && t[b] == y;
  }

  lemma TagsApart(s: set<Entry>, t: set<Entry>, x: Entry, y: Entry)
    requires (Newer(s, t) || Newer(t, s)) && x in s && y in t && x.key.user == y.key.user
    ensures x.key.tag != y.key.tag
  {
  }

  /** Among visible entries with distinct tags one is the newest. */
  lemma {:induction false} SomeNewest(entries: set<Entry>, user: UserKey, bound: uint64) returns (n: Option<Entry>)
    requires forall x, y :: x in entries && y in entries && x.key == y.key ==> x == y
    ensures match n case None => NothingVisible(entries, user, bound) case Some(e) => IsNewest(entries, user, bound, e)
  {
    if entries == {} {
      return None;
    }
    var x :| x in entries;
    n := SomeNewest(entries - {x}, user, bound);
    if Visible(x, user, bound) && (n.None? || x.key.tag > n.value.key.tag) {
      n := Some(x);
    } else if n.Some? && Visible(x, user, bound) {
      assert x.key != n.value.key;
    }
  }

  lemma NewestExists(v: Levels, tables: Tables, user: UserKey, bound: uint64)
    requires VersionOk(v, tables)
    ensures match Newest(EntriesFrom(v, tables, 0), user, bound)
            case None => NothingVisible(EntriesFrom(v, tables, 0), user, bound)
            case Some(e) => IsNewest(EntriesFrom(v, tables, 0), user, bound, e)
  {
    hide VersionOk, EntriesFrom;
    var all := EntriesFrom(v, tables, 0);
    forall x, y | x in all && y in all && x.key == y.key ensures x == y {
      OneEntry(v, tables, x, y);
    }
    var n := SomeNewest(all, user, bound);
    if n.Some? {
      NewestIs(all, user, bound, n.value);
    }
  }

  /**
   What `Version::Get` looks at has the newest visible entry of the whole version if and only if the level that
   holds it is not passed over.
   */
  lemma GetIsNewest(v: Levels, tables: Tables, user: UserKey, bound: uint64)
    requires VersionOk(v, tables)
    ensures Newest(SeenFrom(v, tables, user, bound, 0), user, bound) == Newest(EntriesFrom(v, tables, 0), user, bound)
            <==> !Loses(v, tables, user, bound)
  {
    hide VersionOk, LevelEntries, EntriesFrom, SeenFrom, SeenAt, Skips, Newest;
    var all, seen := EntriesFrom(v, tables, 0), SeenFrom(v, tables, user, bound, 0);
    SeenWithin(v, tables, user, bound, 0);
    NewestExists(v, tables, user, bound);
    match Newest(all, user, bound)
    case None =>
      NewestNone(seen, user, bound);
    case Some(e) =>
      var l := InSomeLevel(v, tables, 0, e);
      SeenIfNotSkipped(v, tables, user, bound, e, l);
      forall m | 0 < m < LEVELS && e in LevelEntries(v[m], tables) ensures m == l {
        if m < l {
          OneLevel(v, tables, e, m, l);
        } else if l < m {
          OneLevel(v, tables, e, l, m);
        }
      }
      if e in seen {
        NewestIs(seen, user, bound, e);
      } else {
        NotNewest(seen, user, bound, e);
      }
  }

  /** An entry of level l is looked at unless the level is passed over. */
  lemma SeenIfNotSkipped(v: Levels, tables: Tables, user: UserKey, bound: uint64, e: Entry, l: nat)
    requires VersionOk(v, tables) && l < LEVELS && e in LevelEntries(v[l], tables)
    ensures e in SeenFrom(v, tables, user, bound, 0) <==> l == 0 || !Skips(v[l], user, bound)
  {
    hide VersionOk, LevelEntries, EntriesFrom, SeenFrom, Skips;
    SeenLevel(v, tables, user, bound, 0, l);
    if e in SeenFrom(v, tables, user, bound, 0) {
      var k := SeenInSome(v, tables, user, bound, 0, e);
      if k < l {
        OneLevel(v, tables, e, k, l);
      } else if l < k {
        OneLevel(v, tables, e, l, k);
      }
    }
  }

  lemma NotNewest(entries: set<Entry>, user: UserKey, bound: uint64, e: Entry)
    requires e !in entries
    ensures Newest(entries, user, bound) != Some(e)
  {
  }

  lemma {:induction false} NoFilesFrom(v: Levels, tables: Tables, user: UserKey, bound: uint64, from: nat)
    requires from <= LEVELS && forall l :: from <= l < LEVELS ==> v[l] == []
    ensures EntriesFrom(v, tables, from) == {}
    ensures from > 0 ==> SeenFrom(v, tables, user, bound, from) == {}
    decreases LEVELS - from
  {
    if from < LEVELS {
      NoFilesFrom(v, tables, user, bound, from + 1);
    }
  }

  /** No level above 0 has files: a version that has only seen flushes. */
  ghost predicate Level0Only(v: Levels) {
    forall l :: 0 < l < LEVELS ==> v[l] == []
  }

  /** Then a read looks at everything. */
  lemma Level0Seen(v: Levels, tables: Tables, user: UserKey, bound: uint64)
    requires Level0Only(v)
    ensures SeenFrom(v, tables, user, bound, 0) == EntriesFrom(v, tables, 0) == LevelEntries(v[0], tables)
  {
    NoFilesFrom(v, tables, user, bound, 1);
  }

  // ---------------------------------------------------------------- a key that is lost

  const LOW: UserKey := [0, 0, 0, 0, 0, 0, 0, 1]
  const HIGH: UserKey := [0, 0, 0, 0, 0, 0, 0, 2]

  /** Two keys of eight bytes, with sequences 1 and 2. */
  const TWO_KEYS: seq<Entry> := [Entry(InternalKey(LOW, 257), [6]), Entry(InternalKey(HIGH, 513), [7])]

  const TWO_KEY_FILE: FileMeta := FileMeta(9, 100, InternalKey(LOW, 257), InternalKey(HIGH, 513))

  const TWO_KEY_VERSION: Levels := [[], [TWO_KEY_FILE], [], [], [], [], []]

  const TWO_KEY_TABLES: Tables := map[9 := TWO_KEYS]

  lemma TwoKeyEntries()
    ensures var all := {TWO_KEYS[0], TWO_KEYS[1]};
            && FileEntries(TWO_KEY_FILE, TWO_KEY_TABLES) == all
            && LevelEntries(TWO_KEY_VERSION[1], TWO_KEY_TABLES) == all
            && LevelEntries(TWO_KEY_VERSION[0], TWO_KEY_TABLES) == {}
            && EntriesFrom(TWO_KEY_VERSION, TWO_KEY_TABLES, 1) == all
            && EntriesFrom(TWO_KEY_VERSION, TWO_KEY_TABLES, 0) == all
  {
    assert LevelEntries(TWO_KEY_VERSION[1], TWO_KEY_TABLES) == FileEntries(TWO_KEY_VERSION[1][0], TWO_KEY_TABLES);
    NoFilesFrom(TWO_KEY_VERSION, TWO_KEY_TABLES, HIGH, 513, 2);
  }

  /** Bytewise the keys are in order; the comparison for tagged keys has them the other way round. */
  lemma LowAndHigh()
    ensures UserLt(LOW, HIGH) && Lt(TWO_KEYS[0].key, TWO_KEYS[1].key)
    ensures Untagged(HIGH, LOW).Some? && Untagged(HIGH, LOW).value < 0
  {
    hide Compare, CmpView;
    UntaggedOrderFails();
    CmpViewSwap(HIGH, LOW);
    CmpFacts(TWO_KEYS[0].key, TWO_KEYS[1].key);
  }

  lemma TwoKeyTable()
    ensures TableOk(TWO_KEY_FILE, TWO_KEY_TABLES)
  {
    LowAndHigh();
    hide Lt;
  }

  lemma TwoKeysOk()
    ensures VersionOk(TWO_KEY_VERSION, TWO_KEY_TABLES)
  {
    hide LevelEntries, EntriesFrom, FileEntries, TableOk;
    var v, tables := TWO_KEY_VERSION, TWO_KEY_TABLES;
    TwoKeyEntries();
    TwoKeyTable();
    forall l | 0 <= l < LEVELS ensures Newer(LevelEntries(v[l], tables), EntriesFrom(v, tables, l + 1)) {
      if l > 0 {
        NoFilesFrom(v, tables, HIGH, 513, l + 1);
      }
    }
  }

  lemma TwoKeysSkipped()
    ensures Skips(TWO_KEY_VERSION[1], HIGH, 513)
    ensures SeenFrom(TWO_KEY_VERSION, TWO_KEY_TABLES, HIGH, 513, 0) == {}
  {
    hide LevelEntries, EntriesFrom, CmpView, Untagged;
    LowAndHigh();
    CmpFacts(InternalKey(HIGH, 513), InternalKey(HIGH, 513));
    hide Lt;
    assert FileIndex(TWO_KEY_VERSION[1], InternalKey(HIGH, 513)) == 0;
    TwoKeyEntries();
    NoFilesFrom(TWO_KEY_VERSION, TWO_KEY_TABLES, HIGH, 513, 2);
  }

  /** With the file on level 1 the greater key is stored and visible, and `Version::Get` passes over its file. */
  lemma LostKey()
    ensures var v, tables := TWO_KEY_VERSION, TWO_KEY_TABLES;
            && VersionOk(v, tables) && Loses(v, tables, HIGH, 513)
            && Resolve(Newest(EntriesFrom(v, tables, 0), HIGH, 513)) == Found([7])
            && Resolve(Newest(SeenFrom(v, tables, HIGH, 513, 0), HIGH, 513)) == Missing
  {
    hide Newest, VersionOk, LevelEntries, EntriesFrom, SeenFrom, Skips;
    TwoKeyEntries();
    TwoKeysOk();
    TwoKeysSkipped();
    NewestIs(EntriesFrom(TWO_KEY_VERSION, TWO_KEY_TABLES, 0), HIGH, 513, TWO_KEYS[1]);
    NewestNone(SeenFrom(TWO_KEY_VERSION, TWO_KEY_TABLES, HIGH, 513, 0), HIGH, 513);
  }
}
