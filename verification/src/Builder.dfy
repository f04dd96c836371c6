/**
 `VersionSet::Builder` (src/db/version_set.cpp): accumulating edits and merging them into a base version.
 */
module Builder {
  import opened Common
  import opened Keys
  import E = EditCodec

  const NUM_LEVELS := E.NUM_LEVELS

  datatype FileMeta = FileMeta(num: uint64, size: uint64, smallest: InternalKey, largest: InternalKey)

  type Files = seq<FileMeta>

  // ---------------------------------------------------------------- the order of a level

  /** `BySmallestKey`: by smallest key, ties broken by file number. */
  predicate Before(f: FileMeta, g: FileMeta) {
    var r := Cmp(f.smallest, g.smallest);
    if r != 0 then r < 0 else f.num < g.num
  }

  predicate SameKey(f: FileMeta, g: FileMeta) {
    f.smallest == g.smallest && f.num == g.num
  }

  lemma FileOrder()
    ensures forall f: FileMeta, g: FileMeta :: SameKey(f, g) <==> !Before(f, g) && !Before(g, f)
    ensures forall f: FileMeta, g: FileMeta :: !(Before(f, g) && Before(g, f))
    ensures forall f: FileMeta, g: FileMeta, h: FileMeta :: Before(f, g) && Before(g, h) ==> Before(f, h)
    ensures forall f: FileMeta, g: FileMeta, h: FileMeta :: Before(f, g) && !Before(h, g) ==> Before(f, h)
    ensures forall f: FileMeta, g: FileMeta, h: FileMeta :: !Before(g, f) && Before(g, h) ==> Before(f, h)
  {
    forall f: FileMeta, g: FileMeta
      ensures Before(f, g) <==> Lt(f.smallest, g.smallest) || (f.smallest == g.smallest && f.num < g.num)
    {
      CmpFacts(f.smallest, g.smallest);
    }
    KeyOrder();
  }

  ghost predicate SortedFiles(s: Files) {
    forall i, j :: 0 <= i < j < |s| ==> !Before(s[j], s[i])
  }

  ghost predicate StrictFiles(s: Files) {
    forall i, j :: 0 <= i < j < |s| ==> Before(s[i], s[j])
  }

  lemma NotInTail(s: Files)
    requires StrictFiles(s) && s != []
    ensures s[0] !in s[1..]
  {
    FileOrder();
  }

  lemma HasMember(s: Files)
    ensures s != [] ==> exists f :: f in s
  {
    if s != [] {
      assert s[0] in s;
    }
  }

  /** A strictly sorted list is determined by its members. */
  lemma {:induction false} StrictUnique(a: Files, b: Files)
    requires StrictFiles(a) && StrictFiles(b) && forall f :: f in a <==> f in b
    ensures a == b
  {
    FileOrder();
    HasMember(a);
    HasMember(b);
    if a != [] && b != [] {
      assert a[0] in b && b[0] in a;
      assert a[0] == b[0];
      assert a == [a[0]] + a[1..] && b == [b[0]] + b[1..];
      NotInTail(a);
      NotInTail(b);
      assert forall f :: f in a <==> f == a[0] || f in a[1..];
      assert forall f :: f in b <==> f == b[0] || f in b[1..];
      StrictUnique(a[1..], b[1..]);
    }
  }

  // ---------------------------------------------------------------- accumulated edits

  /** `std::set<shared_ptr<FileMate>, BySmallestKey>::insert`: a file with an equal key is not replaced. */
  function InsertFile(s: Files, f: FileMeta): Files {
    if s == [] then [f]
    else if Before(f, s[0]) then [f] + s
    else if Before(s[0], f) then [s[0]] + InsertFile(s[1..], f)
    else s
  }

  lemma {:induction false} InsertFileCorrect(s: Files, f: FileMeta)
    requires StrictFiles(s)
    ensures StrictFiles(InsertFile(s, f))
    ensures forall g :: g in InsertFile(s, f) <==> g in s || (g == f && forall h :: h in s ==> !SameKey(h, f))
  {
    FileOrder();
    if s != [] {
      assert s == [s[0]] + s[1..];
      if Before(s[0], f) && !Before(f, s[0]) {
        InsertFileCorrect(s[1..], f);
        var r := InsertFile(s[1..], f);
        forall i | 0 <= i < |r| ensures Before(s[0], r[i]) {
          assert r[i] in r;
        }
      } else if Before(f, s[0]) {
        forall h | h in s ensures Before(f, h) {
        }
      }
    }
  }

  datatype LevelState = LevelState(deleted: set<uint64>, added: Files)

  const NO_CHANGE := LevelState({}, [])

  /** One new file: its number is no longer deleted, and it joins the added files. */
  function AddOne(st: LevelState, f: FileMeta): LevelState {
    LevelState(st.deleted - {f.num}, InsertFile(st.added, f))
  }

  function AddFiles(st: LevelState, news: Files): LevelState
    decreases news
  {
    if news == [] then st else AddFiles(AddOne(st, news[0]), news[1..])
  }

  /** What one edit does to the state of one level: deletions first, then additions. */
  function ApplyLevel(st: LevelState, dels: set<uint64>, news: Files): LevelState {
    AddFiles(LevelState(st.deleted + dels, st.added), news)
  }

  function Nums(s: Files): set<uint64> {
    set f | f in s :: f.num
  }

  ghost predicate NoKey(s: Files, g: FileMeta) {
    forall h :: h in s ==> !SameKey(h, g)
  }

  /** g is in the list, and the first there with its key. */
  ghost predicate FirstIn(news: Files, g: FileMeta) {
    news != [] && (news[0] == g || (!SameKey(news[0], g) && FirstIn(news[1..], g)))
  }

  lemma {:induction false} FirstOfKey(news: Files, g: FileMeta)
    requires g in news
    ensures exists h :: h in news && SameKey(h, g) && FirstIn(news, h)
    ensures FirstIn(news, g) ==> g in news
  {
    assert news == [news[0]] + news[1..];
    if !SameKey(news[0], g) {
      FirstOfKey(news[1..], g);
      var h :| h in news[1..] && SameKey(h, g) && FirstIn(news[1..], h);
      assert FirstIn(news, h);
    } else {
      assert FirstIn(news, news[0]);
    }
  }

  lemma {:induction false} FirstInMember(news: Files, g: FileMeta)
    requires FirstIn(news, g)
    ensures g in news
  {
    if news[0] != g {
      FirstInMember(news[1..], g);
    }
  }

  lemma {:induction false} AddFilesCorrect(st: LevelState, news: Files)
    requires StrictFiles(st.added)
    ensures StrictFiles(AddFiles(st, news).added)
    ensures AddFiles(st, news).deleted == st.deleted - Nums(news)
    ensures forall g :: g in AddFiles(st, news).added <==> g in st.added || (FirstIn(news, g) && NoKey(st.added, g))
    decreases news
  {
    if news != [] {
      var f, rest := news[0], news[1..];
      var one := AddOne(st, f);
      assert news == [f] + rest;
      InsertFileCorrect(st.added, f);
      AddFilesCorrect(one, rest);
      forall g
        ensures g in AddFiles(st, news).added <==> g in st.added || (FirstIn(news, g) && NoKey(st.added, g))
      {
        assert NoKey(one.added, g) ==> NoKey(st.added, g);
        if NoKey(st.added, g) && !NoKey(one.added, g) {
          assert SameKey(f, g);
        }
      }
      assert Nums(news) == {f.num} + Nums(rest);
    }
  }

  // ---------------------------------------------------------------- saving to a new version

  /** The sorted merge of a base level and the added files; on equal keys the base file comes first. */
  function MergeFiles(base: Files, added: Files): Files
    decreases |base| + |added|
  {
    if added == [] then base
    else if base == [] then added
    else if Before(added[0], base[0]) then [added[0]] + MergeFiles(base, added[1..])
    else [base[0]] + MergeFiles(base[1..], added)
  }

  /** The files whose number is not deleted. */
  function Kept(s: Files, deleted: set<uint64>): Files {
    if s == [] then []
    else (if s[0].num in deleted then [] else [s[0]]) + Kept(s[1..], deleted)
  }

  /** One level of the version that `SaveTo` builds. */
  function SaveLevel(base: Files, st: LevelState): Files {
    Kept(MergeFiles(base, st.added), st.deleted)
  }

  lemma {:induction false} MergeMembers(base: Files, added: Files)
    ensures multiset(MergeFiles(base, added)) == multiset(base) + multiset(added)
    ensures forall f :: f in MergeFiles(base, added) <==> f in base || f in added
    decreases |base| + |added|
  {
    if added != [] && base != [] {
      assert added == [added[0]] + added[1..] && base == [base[0]] + base[1..];
      if Before(added[0], base[0]) {
        MergeMembers(base, added[1..]);
      } else {
        MergeMembers(base[1..], added);
      }
    }
  }

  /** Nothing in the list comes before x. */
  ghost predicate AtOrAfter(s: Files, x: FileMeta) {
    forall i :: 0 <= i < |s| ==> !Before(s[i], x)
  }

  lemma {:induction false} MergeAtOrAfter(base: Files, added: Files, x: FileMeta)
    requires AtOrAfter(base, x) && AtOrAfter(added, x)
    ensures AtOrAfter(MergeFiles(base, added), x)
    decreases |base| + |added|
  {
    if added != [] && base != [] {
      if Before(added[0], base[0]) {
        MergeAtOrAfter(base, added[1..], x);
      } else {
        MergeAtOrAfter(base[1..], added, x);
      }
    }
  }

  lemma {:induction false} MergeSorted(base: Files, added: Files)
    requires SortedFiles(base) && SortedFiles(added)
    ensures SortedFiles(MergeFiles(base, added))
    decreases |base| + |added|
  {
    if added != [] && base != [] {
      FileOrder();
      if Before(added[0], base[0]) {
        MergeSorted(base, added[1..]);
        MergeAtOrAfter(base, added[1..], added[0]);
      } else {
        MergeSorted(base[1..], added);
        MergeAtOrAfter(base[1..], added, base[0]);
      }
    }
  }

  lemma StrictIsSorted(s: Files)
    requires StrictFiles(s)
    ensures SortedFiles(s)
  {
    FileOrder();
  }

  lemma {:induction false} KeptNothing(s: Files)
    ensures Kept(s, {}) == s
  {
    if s != [] {
      KeptNothing(s[1..]);
    }
  }

  lemma {:induction false} KeptMembers(s: Files, deleted: set<uint64>)
    ensures forall f :: f in Kept(s, deleted) <==> f in s && f.num !in deleted
  {
    if s != [] {
      assert s == [s[0]] + s[1..];
      KeptMembers(s[1..], deleted);
    }
  }

  lemma {:induction false} KeptCount(s: Files, deleted: set<uint64>, f: FileMeta)
    ensures multiset(Kept(s, deleted))[f] == if f.num in deleted then 0 else multiset(s)[f]
  {
    if s != [] {
      assert s == [s[0]] + s[1..];
      KeptCount(s[1..], deleted, f);
    }
  }

  lemma {:induction false} KeptSorted(s: Files, deleted: set<uint64>)
    ensures SortedFiles(s) ==> SortedFiles(Kept(s, deleted))
    ensures StrictFiles(s) ==> StrictFiles(Kept(s, deleted))
  {
    hide Before;
    if s != [] {
      KeptSorted(s[1..], deleted);
      KeptMembers(s[1..], deleted);
      var r := Kept(s[1..], deleted);
      forall i | 0 <= i < |r|
        ensures SortedFiles(s) ==> !Before(r[i], s[0])
        ensures StrictFiles(s) ==> Before(s[0], r[i])
      {
        assert r[i] in r;
        var j :| 0 <= j < |s[1..]| && s[1..][j] == r[i];
      }
    }
  }

  /**
   `SaveTo`: the level is sorted and holds exactly the base and added files that are not deleted, each as
   often as there.
   */
  lemma SaveLevelCorrect(base: Files, st: LevelState)
    requires SortedFiles(base) && StrictFiles(st.added)
    ensures SortedFiles(SaveLevel(base, st))
    ensures forall f :: multiset(SaveLevel(base, st))[f] ==
                        if f.num in st.deleted then 0 else (multiset(base) + multiset(st.added))[f]
    ensures forall f :: f in SaveLevel(base, st) <==> (f in base || f in st.added) && f.num !in st.deleted
  {
    var m := MergeFiles(base, st.added);
    StrictIsSorted(st.added);
    MergeMembers(base, st.added);
    MergeSorted(base, st.added);
    KeptSorted(m, st.deleted);
    KeptMembers(m, st.deleted);
    forall f
      ensures multiset(SaveLevel(base, st))[f] ==
              if f.num in st.deleted then 0 else (multiset(base) + multiset(st.added))[f]
    {
      KeptCount(m, st.deleted, f);
    }
  }

  /** Some file survives both from the base and among the added files under one key. */
  ghost predicate Collision(base: Files, st: LevelState) {
    exists f, g :: f in base && g in st.added && SameKey(f, g) && f.num !in st.deleted
  }

  /** Each file is listed once if and only if no surviving base file is added again. */
  lemma SaveLevelOnce(base: Files, st: LevelState)
    requires StrictFiles(base) && StrictFiles(st.added)
    ensures StrictFiles(SaveLevel(base, st)) <==> !Collision(base, st)
  {
    if Collision(base, st) {
      CollisionNotStrict(base, st);
    } else {
      NoCollisionStrict(base, st);
    }
  }

  lemma CollisionNotStrict(base: Files, st: LevelState)
    requires StrictFiles(base) && StrictFiles(st.added) && Collision(base, st)
    ensures !StrictFiles(SaveLevel(base, st))
  {
    hide StrictFiles, SortedFiles, SaveLevel, Before;
    StrictIsSorted(base);
    SaveLevelCorrect(base, st);
    var f, g :| f in base && g in st.added && SameKey(f, g) && f.num !in st.deleted;
    TwoOfOneKey(SaveLevel(base, st), f, g);
  }

  lemma TwoOfOneKey(r: Files, f: FileMeta, g: FileMeta)
    requires f in r && g in r && SameKey(f, g)
    requires f == g ==> multiset(r)[f] >= 2
    ensures !StrictFiles(r)
  {
    if StrictFiles(r) {
      StrictCount(r, f);
      FileOrder();
    }
  }

  lemma NoCollisionStrict(base: Files, st: LevelState)
    requires StrictFiles(base) && StrictFiles(st.added) && !Collision(base, st)
    ensures StrictFiles(SaveLevel(base, st))
  {
    hide SaveLevel;
    FileOrder();
    StrictIsSorted(base);
    SaveLevelCorrect(base, st);
    var r := SaveLevel(base, st);
    forall i, j | 0 <= i < j < |r| ensures !SameKey(r[i], r[j]) {
      assert r[i] in r && r[j] in r;
      if r[i] == r[j] {
        assert r == r[..j] + r[j..] && r[i] in r[..j] && r[j] in r[j..];
        StrictCount(base, r[i]);
        StrictCount(st.added, r[i]);
      }
    }
  }

  lemma {:induction false} StrictCount(s: Files, f: FileMeta)
    requires StrictFiles(s)
    ensures multiset(s)[f] <= 1
  {
    FileOrder();
    if s != [] {
      assert s == [s[0]] + s[1..];
      StrictCount(s[1..], f);
      NotInTail(s);
    }
  }

  // ---------------------------------------------------------------- ranges of one level

  /** Each file ends before the next one starts. */
  ghost predicate Chained(s: Files) {
    forall i :: 0 < i < |s| ==> Lt(s[i - 1].largest, s[i].smallest)
  }

  ghost predicate Ranged(s: Files) {
    forall f :: f in s ==> !Lt(f.largest, f.smallest)
  }

  /** No two listed files have overlapping key ranges. */
  ghost predicate Disjoint(s: Files) {
    forall i, j :: 0 <= i < |s| && 0 <= j < |s| && i != j ==>
      Lt(s[i].largest, s[j].smallest) || Lt(s[j].largest, s[i].smallest)
  }

  lemma {:induction false} ChainedApart(s: Files, i: nat, j: nat)
    requires Chained(s) && Ranged(s) && i < j < |s|
    ensures Lt(s[i].largest, s[j].smallest)
  {
    KeyOrder();
    if i < j - 1 {
      ChainedApart(s, i, j - 1);
      assert s[j - 1] in s;
    }
  }

  /** In a sorted level, neighbours that do not overlap and files that do not overlap are the same thing. */
  lemma ChainedIffDisjoint(s: Files)
    requires SortedFiles(s) && Ranged(s)
    ensures Chained(s) <==> Disjoint(s)
  {
    KeyOrder();
    FileOrder();
    if Chained(s) {
      forall i, j | 0 <= i < |s| && 0 <= j < |s| && i != j
        ensures Lt(s[i].largest, s[j].smallest) || Lt(s[j].largest, s[i].smallest)
      {
        ChainedApart(s, if i < j then i else j, if i < j then j else i);
      }
    }
    if Disjoint(s) {
      forall i | 0 < i < |s| ensures Lt(s[i - 1].largest, s[i].smallest) {
        assert s[i - 1] in s && s[i] in s;
        CmpFacts(s[i].smallest, s[i - 1].smallest);
        assert !Lt(s[i].largest, s[i].smallest);
      }
    }
  }

  // ---------------------------------------------------------------- one builder for all edits

  /**
   What an edit may add to a level so that accumulating it and saving it agree: a file that the
   builder already knows under one of the new numbers is either the same file, deleted before, or a
   file with another smallest key that is still listed.
   */
  ghost predicate Compatible(st: LevelState, news: Files) {
    forall f, n :: f in st.added && n in news && FirstIn(news, n) && f.num == n.num ==>
      if f.smallest == n.smallest then f == n && f.num in st.deleted
      else f.num !in st.deleted || FirstIn(news, f)
  }

  /** In particular an edit is compatible when none of its numbers was ever listed on the level. */
  lemma FreshIsCompatible(st: LevelState, news: Files)
    requires Nums(news) !! Nums(st.added)
    ensures Compatible(st, news)
  {
    forall f, n | f in st.added && n in news ensures f.num != n.num {
      assert f.num in Nums(st.added) && n.num in Nums(news);
    }
  }

  /** The version level a builder over the empty version stands for. */
  function Saved(st: LevelState): Files {
    SaveLevel([], st)
  }

  lemma SavedIsKept(st: LevelState)
    ensures Saved(st) == Kept(st.added, st.deleted)
  {
    assert MergeFiles([], st.added) == st.added;
  }

  lemma StateMembers(st: LevelState, dels: set<uint64>, news: Files)
    requires StrictFiles(st.added)
    ensures var r := ApplyLevel(st, dels, news);
            && StrictFiles(r.added)
            && r.deleted == st.deleted + dels - Nums(news)
            && forall g :: g in r.added <==> g in st.added || (FirstIn(news, g) && NoKey(st.added, g))
  {
    AddFilesCorrect(LevelState(st.deleted + dels, st.added), news);
  }

  /** Who is listed after the edit, in the accumulated state and in the level. */
  ghost predicate InReplay(st: LevelState, dels: set<uint64>, news: Files, g: FileMeta) {
    && (g in st.added || (FirstIn(news, g) && NoKey(st.added, g)))
    && g.num !in st.deleted + dels - Nums(news)
  }

  ghost predicate InChain(st: LevelState, dels: set<uint64>, news: Files, g: FileMeta) {
    && ((g in st.added && g.num !in st.deleted) || FirstIn(news, g))
    && g.num !in dels - Nums(news)
  }

  lemma NumOfNew(news: Files, num: uint64)
    requires num in Nums(news)
    ensures exists n :: FirstIn(news, n) && n.num == num
  {
    var g :| g in news && g.num == num;
    FirstOfKey(news, g);
  }

  lemma CompatibleAgrees(st: LevelState, dels: set<uint64>, news: Files)
    requires Compatible(st, news)
    ensures forall g :: InReplay(st, dels, news, g) <==> InChain(st, dels, news, g)
  {
    forall g ensures InReplay(st, dels, news, g) <==> InChain(st, dels, news, g) {
      if FirstIn(news, g) {
        FirstInMember(news, g);
        assert g.num in Nums(news);
        if h :| h in st.added && SameKey(h, g) {
          assert h == g;
        }
      } else if g in st.added && g.num in Nums(news) {
        NumOfNew(news, g.num);
        var n :| FirstIn(news, n) && n.num == g.num;
        FirstInMember(news, n);
      }
    }
  }

  lemma AgreeingIsCompatible(st: LevelState, dels: set<uint64>, news: Files)
    requires StrictFiles(st.added)
    requires forall g :: InReplay(st, dels, news, g) <==> InChain(st, dels, news, g)
    requires forall f, g :: f in st.added && f.num !in st.deleted && FirstIn(news, g) && SameKey(f, g) ==>
               f.num in dels - Nums(news)
    ensures Compatible(st, news)
  {
    forall f, n | f in st.added && n in news && FirstIn(news, n) && f.num == n.num
      ensures if f.smallest == n.smallest then f == n && f.num in st.deleted
              else f.num !in st.deleted || FirstIn(news, f)
    {
      assert n.num in Nums(news);
      assert InReplay(st, dels, news, f);
      assert InChain(st, dels, news, f) && InChain(st, dels, news, n);
      assert InReplay(st, dels, news, n);
      if f.smallest == n.smallest {
        assert SameKey(f, n);
        assert n in st.added;
        FileOrder();
      }
    }
  }

  /**
   One step of manifest replay, for one level: applying an edit to the accumulated state and saving
   gives the same level as applying it to the level itself if and only if the edit is compatible.
   */
  lemma ReplayStep(st: LevelState, dels: set<uint64>, news: Files)
    requires StrictFiles(st.added)
    ensures Saved(ApplyLevel(st, dels, news)) == SaveLevel(Saved(st), ApplyLevel(NO_CHANGE, dels, news))
            <==> Compatible(st, news)
    ensures StrictFiles(ApplyLevel(st, dels, news).added)
  {
    ReplayMembers(st, dels, news);
    if Compatible(st, news) {
      CompatibleReplays(st, dels, news);
    }
    if Saved(ApplyLevel(st, dels, news)) == SaveLevel(Saved(st), ApplyLevel(NO_CHANGE, dels, news)) {
      ReplayingIsCompatible(st, dels, news);
    }
  }

  lemma CompatibleReplays(st: LevelState, dels: set<uint64>, news: Files)
    requires StrictFiles(st.added) && Compatible(st, news)
    ensures Saved(ApplyLevel(st, dels, news)) == SaveLevel(Saved(st), ApplyLevel(NO_CHANGE, dels, news))
  {
    var level, one := Saved(st), ApplyLevel(NO_CHANGE, dels, news);
    ReplayMembers(st, dels, news);
    CompatibleAgrees(st, dels, news);
    if Collision(level, one) {
      var f, n :| f in level && n in one.added && SameKey(f, n) && f.num !in one.deleted;
      FirstInMember(news, n);
    }
    NoCollisionStrict(level, one);
    StrictUnique(Saved(ApplyLevel(st, dels, news)), SaveLevel(level, one));
  }

  lemma ReplayingIsCompatible(st: LevelState, dels: set<uint64>, news: Files)
    requires StrictFiles(st.added)
    requires Saved(ApplyLevel(st, dels, news)) == SaveLevel(Saved(st), ApplyLevel(NO_CHANGE, dels, news))
    ensures Compatible(st, news)
  {
    var level, all, one := Saved(st), ApplyLevel(st, dels, news), ApplyLevel(NO_CHANGE, dels, news);
    ReplayMembers(st, dels, news);
    SaveLevelOnce(level, one);
    forall g ensures InReplay(st, dels, news, g) <==> InChain(st, dels, news, g) {
      assert g in Saved(all) <==> g in SaveLevel(level, one);
    }
    AgreeingIsCompatible(st, dels, news);
  }

  lemma ReplayMembers(st: LevelState, dels: set<uint64>, news: Files)
    requires StrictFiles(st.added)
    ensures var level, all, one := Saved(st), ApplyLevel(st, dels, news), ApplyLevel(NO_CHANGE, dels, news);
            && StrictFiles(level) && StrictFiles(Saved(all)) && StrictFiles(one.added) && StrictFiles(all.added)
            && one.deleted == dels - Nums(news)
            && (forall g :: g in level <==> g in st.added && g.num !in st.deleted)
            && (forall g :: g in one.added <==> FirstIn(news, g))
            && (forall g :: g in Saved(all) <==> InReplay(st, dels, news, g))
            && (forall g :: g in SaveLevel(level, one) <==> InChain(st, dels, news, g))
  {
    var level, one := Saved(st), ApplyLevel(NO_CHANGE, dels, news);
    SavedMembers(st);
    StateMembers(st, dels, news);
    SavedMembers(ApplyLevel(st, dels, news));
    StateMembers(NO_CHANGE, dels, news);
    assert forall g :: NoKey(NO_CHANGE.added, g);
    StrictIsSorted(level);
    SaveLevelCorrect(level, one);
    assert {} + dels == dels;
  }

  lemma SavedMembers(st: LevelState)
    requires StrictFiles(st.added)
    ensures StrictFiles(Saved(st))
    ensures forall g :: g in Saved(st) <==> g in st.added && g.num !in st.deleted
  {
    SavedIsKept(st);
    KeptMembers(st.added, st.deleted);
    KeptSorted(st.added, st.deleted);
  }
}
