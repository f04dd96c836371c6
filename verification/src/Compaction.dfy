/**
 Which entries a compaction keeps: the loop of `DBImpl::DoCompactionWork` (src/db/db.cpp) over the merged
 input, and `Compaction::IsBaseLevelForKey` (src/db/version_set.cpp).

 The input files and the oldest snapshot are taken as given.
 */
module Compaction {
  import opened Common
  import opened Keys
  import opened Lookup
  import opened Merger
  import B = Builder
  import V = Version

  // ---------------------------------------------------------------- the levels below

  /** Some file of the level has the user key in its range. */
  ghost predicate Spanned(files: B.Files, user: UserKey) {
    exists i :: 0 <= i < |files| && V.Spans(files[i], user)
  }

  /** Some file of the levels from l on has the user key in its range. */
  ghost predicate SpannedFrom(v: V.Levels, l: nat, user: UserKey) {
    exists k :: l <= k < V.LEVELS && Spanned(v[k], user)
  }

  /** Every file of the level is a range, and the ranges are in order. */
  ghost predicate InOrder(files: B.Files) {
    B.Chained(files) && B.Ranged(files)
  }

  /** Files before the index end before the user key. */
  ghost predicate Passed(files: B.Files, index: nat, user: UserKey) {
    index <= |files| && forall i :: 0 <= i < index ==> UserLt(files[i].largest.user, user)
  }

  lemma NextPassed(files: B.Files, index: nat, user: UserKey)
    requires Passed(files, index, user) && index < |files| && UserLt(files[index].largest.user, user)
    ensures Passed(files, index + 1, user)
  {
  }

  lemma LaterPassed(files: B.Files, index: nat, user: UserKey, later: UserKey)
    requires Passed(files, index, user) && UserLe(user, later)
    ensures Passed(files, index, later)
  {
    UserOrder();
  }

  /** The file the cursor stops at decides the level: earlier files end before the key, later ones start after it. */
  lemma CursorDecides(files: B.Files, index: nat, user: UserKey)
    requires InOrder(files) && Passed(files, index, user)
    requires index < |files| ==> UserLe(user, files[index].largest.user)
    ensures Spanned(files, user) <==> index < |files| && UserLe(files[index].smallest.user, user)
  {
    UserOrder();
    KeyOrderByParts();
    if index < |files| && UserLe(files[index].smallest.user, user) {
      assert V.Spans(files[index], user);
    }
    if i :| 0 <= i < |files| && V.Spans(files[i], user) {
      assert i >= index;
      if i > index {
        B.ChainedApart(files, index, i);
        assert files[index] in files;
        assert UserLe(files[index].smallest.user, files[index].largest.user);
      }
    }
  }

  // ---------------------------------------------------------------- the cursors

  /**
   The cursor of a level moves to the first file that does not seem to end before the user key. It stops at a
   comparison that is undefined.
   */
  function StopAt(files: B.Files, from: nat, user: UserKey): (at: nat)
    requires from <= |files|
    ensures from <= at <= |files|
    decreases |files| - from
  {
    if from == |files| then from
    else
      match Untagged(user, files[from].largest.user)
      case None => from
      case Some(r) => if r > 0 then StopAt(files, from + 1, user) else from
  }

  /** Whether the file at the cursor seems to have the user key in its range. */
  function InRange(files: B.Files, at: nat, user: UserKey): Option<bool>
    requires at <= |files|
  {
    if at == |files| then Some(false)
    else
      match (Untagged(user, files[at].largest.user), Untagged(user, files[at].smallest.user))
      case (Some(_), Some(r)) => Some(r >= 0)
      case _ => None
  }

  /** The cursors of a new compaction. */
  const FIRST: seq<nat> := [0, 0, 0, 0, 0, 0, 0]

  /** Cursors within their levels. */
  predicate Cursors(v: V.Levels, ptrs: seq<nat>) {
    |ptrs| == V.LEVELS && forall l :: 0 <= l < V.LEVELS ==> ptrs[l] <= |v[l]|
  }

  /** Is there no file for the key on the levels from l on? With the cursors afterwards. */
  function Asked(v: V.Levels, l: nat, ptrs: seq<nat>, user: UserKey): (r: (Option<bool>, seq<nat>))
    requires Cursors(v, ptrs) && l <= V.LEVELS
    ensures Cursors(v, r.1)
    decreases V.LEVELS - l
  {
    if l == V.LEVELS then (Some(true), ptrs)
    else
      var at := StopAt(v[l], ptrs[l], user);
      var next := ptrs[l := at];
      match InRange(v[l], at, user)
      case None => (None, next)
      case Some(found) => if found then (Some(false), next) else Asked(v, l + 1, next, user)
  }

  /** The comparisons of the user key with the bounds of the files are defined and agree with the bytewise order. */
  ghost predicate AgreesOn(files: B.Files, user: UserKey) {
    && |user| >= 8
    && forall i :: 0 <= i < |files| ==>
         && |files[i].smallest.user| >= 8 && |files[i].largest.user| >= 8
         && OrderAgrees(user, files[i].smallest.user) && OrderAgrees(user, files[i].largest.user)
  }

  ghost predicate AgreesBelow(v: V.Levels, l: nat, user: UserKey) {
    forall k :: l <= k < V.LEVELS ==> AgreesOn(v[k], user)
  }

  /** Every level from l on is in order, and its cursor has only passed files that end before the user key. */
  ghost predicate PassedBelow(v: V.Levels, l: nat, ptrs: seq<nat>, user: UserKey) {
    Cursors(v, ptrs) && forall k :: l <= k < V.LEVELS ==> InOrder(v[k]) && Passed(v[k], ptrs[k], user)
  }

  lemma PassedLater(v: V.Levels, l: nat, ptrs: seq<nat>, user: UserKey, later: UserKey)
    requires PassedBelow(v, l, ptrs, user) && UserLe(user, later)
    ensures PassedBelow(v, l, ptrs, later)
  {
    forall k | l <= k < V.LEVELS ensures InOrder(v[k]) && Passed(v[k], ptrs[k], later) {
      LaterPassed(v[k], ptrs[k], user, later);
    }
  }

  lemma {:induction false} StopPassed(files: B.Files, from: nat, user: UserKey)
    requires Passed(files, from, user) && AgreesOn(files, user)
    ensures var at := StopAt(files, from, user);
            Passed(files, at, user) && (at < |files| ==> UserLe(user, files[at].largest.user))
    decreases |files| - from
  {
    if from < |files| {
      var largest := files[from].largest.user;
      UntaggedOrder(user, largest);
      UserOrder();
      if CmpView(user, largest) > 0 {
        NextPassed(files, from, user);
        StopPassed(files, from + 1, user);
      }
    }
  }

  /** With agreeing comparisons the cursor finds a file for the key exactly if there is one. */
  lemma StopDecides(files: B.Files, from: nat, user: UserKey)
    requires from <= |files| && InOrder(files) && Passed(files, from, user) && AgreesOn(files, user)
    ensures var at := StopAt(files, from, user);
            Passed(files, at, user) && InRange(files, at, user) == Some(Spanned(files, user))
  {
    hide StopAt, Spanned, InOrder, Passed, CmpView, OrderAgrees;
    var at := StopAt(files, from, user);
    StopPassed(files, from, user);
    CursorDecides(files, at, user);
    if at < |files| {
      UntaggedOrder(user, files[at].smallest.user);
      LeOrLt(user, files[at].smallest.user);
    }
  }

  lemma LeOrLt(a: UserKey, b: UserKey)
    ensures UserLe(b, a) <==> !UserLt(a, b)
  {
    UserOrder();
  }

  lemma SpannedNext(v: V.Levels, l: nat, user: UserKey)
    requires l < V.LEVELS
    ensures SpannedFrom(v, l, user) <==> Spanned(v[l], user) || SpannedFrom(v, l + 1, user)
  {
    hide Spanned;
  }

  /** The answer, one level at a time. */
  lemma AskedNext(v: V.Levels, l: nat, ptrs: seq<nat>, user: UserKey)
    requires Cursors(v, ptrs) && l < V.LEVELS
    ensures var next := ptrs[l := StopAt(v[l], ptrs[l], user)];
            && Cursors(v, next)
            && Asked(v, l, ptrs, user) ==
               match InRange(v[l], next[l], user)
               case None => (None, next)
               case Some(found) => if found then (Some(false), next) else Asked(v, l + 1, next, user)
  {
    hide StopAt, InRange;
  }

  /**
   Over non-decreasing queries whose comparisons agree with the bytewise order, the cursors give the same answer
   as looking at every file.
   */
  lemma {:induction false} AskedRight(v: V.Levels, l: nat, ptrs: seq<nat>, user: UserKey)
    requires PassedBelow(v, l, ptrs, user) && AgreesBelow(v, l, user) && l <= V.LEVELS
    ensures Asked(v, l, ptrs, user).0 == Some(!SpannedFrom(v, l, user))
    ensures PassedBelow(v, l, Asked(v, l, ptrs, user).1, user)
    decreases V.LEVELS - l
  {
    if l < V.LEVELS {
      var next := ptrs[l := StopAt(v[l], ptrs[l], user)];
      LevelRight(v, l, ptrs, user);
      SpannedNext(v, l, user);
      AskedNext(v, l, ptrs, user);
      if !Spanned(v[l], user) {
        AskedRight(v, l + 1, next, user);
        AskedAbove(v, l + 1, next, user);
        hide Asked, Spanned, SpannedFrom, InOrder, Passed, StopAt, InRange, AgreesBelow;
      }
    }
  }

  /** One level: its cursor moves on, and the answer is right. */
  lemma LevelRight(v: V.Levels, l: nat, ptrs: seq<nat>, user: UserKey)
    requires l < V.LEVELS && PassedBelow(v, l, ptrs, user) && AgreesBelow(v, l, user)
    ensures var next := ptrs[l := StopAt(v[l], ptrs[l], user)];
            && PassedBelow(v, l, next, user) && PassedBelow(v, l + 1, next, user)
            && InRange(v[l], next[l], user) == Some(Spanned(v[l], user))
  {
    hide Spanned, InOrder, Passed, StopAt, InRange, AgreesOn;
    assert AgreesOn(v[l], user);
    StopDecides(v[l], ptrs[l], user);
  }

  /** Cursors of levels that are not asked stay. */
  lemma {:induction false} AskedAbove(v: V.Levels, l: nat, ptrs: seq<nat>, user: UserKey)
    requires Cursors(v, ptrs) && l <= V.LEVELS
    ensures forall k :: 0 <= k < l ==> Asked(v, l, ptrs, user).1[k] == ptrs[k]
    decreases V.LEVELS - l
  {
    if l < V.LEVELS {
      hide StopAt, InRange;
      AskedAbove(v, l + 1, ptrs[l := StopAt(v[l], ptrs[l], user)], user);
    }
  }

  /** With long keys every comparison is defined. */
  lemma {:induction false} AskedDefined(v: V.Levels, l: nat, ptrs: seq<nat>, user: UserKey)
    requires Cursors(v, ptrs) && l <= V.LEVELS && |user| >= 8 && LongBounds(v)
    ensures Asked(v, l, ptrs, user).0.Some?
    decreases V.LEVELS - l
  {
    if l < V.LEVELS {
      AskedDefined(v, l + 1, ptrs[l := StopAt(v[l], ptrs[l], user)], user);
    }
  }

  ghost predicate LongBounds(v: V.Levels) {
    forall l, i :: 0 <= l < V.LEVELS && 0 <= i < |v[l]| ==> |v[l][i].smallest.user| >= 8 && |v[l][i].largest.user| >= 8
  }

  /**
   An answer that is wrong: the file has both keys, and the comparison takes the greater one for one that comes
   before the file.
   */
  lemma WrongAnswer()
    ensures var files := [V.TWO_KEY_FILE];
            InOrder(files) && Spanned(files, V.HIGH) && InRange(files, StopAt(files, 0, V.HIGH), V.HIGH) == Some(false)
  {
    TwoKeys();
    hide CmpView, Compare;
    assert V.Spans([V.TWO_KEY_FILE][0], V.HIGH);
  }

  lemma TwoKeys()
    ensures UserLe(V.LOW, V.HIGH) && UserLe(V.HIGH, V.HIGH) && !Lt(V.TWO_KEY_FILE.largest, V.TWO_KEY_FILE.smallest)
    ensures Untagged(V.HIGH, V.HIGH) == Some(0) && Untagged(V.HIGH, V.LOW).Some? && Untagged(V.HIGH, V.LOW).value < 0
  {
    V.LowAndHigh();
    CompareEqual(V.HIGH, V.HIGH);
    CmpViewEquality(V.HIGH, V.HIGH);
    CmpFacts(V.TWO_KEY_FILE.largest, V.TWO_KEY_FILE.smallest);
    UserOrder();
    hide Compare, CmpView, Lt;
  }

  class Compaction {
    const level_: nat
    const input_version_: V.Levels
    const level_ptrs: array<nat>

    constructor (level: nat, version: V.Levels)
      requires level + 1 < V.LEVELS
      ensures level_ == level && input_version_ == version && fresh(level_ptrs)
      ensures Ready() && level_ptrs[..] == FIRST
    {
      level_, input_version_ := level, version;
      level_ptrs := new nat[V.LEVELS](_ => 0);
    }

    ghost predicate Ready()
      reads level_ptrs
    {
      level_ + 1 < V.LEVELS && Cursors(input_version_, level_ptrs[..])
    }

    /** Asks the levels from two below on, moving the cursors; an undefined comparison gives no answer. */
    method IsBaseLevelForKey(user_key: UserKey) returns (base: Option<bool>)
      requires Ready()
      modifies level_ptrs
      ensures Ready()
      ensures (base, level_ptrs[..]) == Asked(input_version_, level_ + 2, old(level_ptrs[..]), user_key)
    {
      ghost var all := Asked(input_version_, level_ + 2, level_ptrs[..], user_key);
      var lvl := level_ + 2;
      while lvl < V.LEVELS
        invariant level_ + 2 <= lvl <= V.LEVELS && Ready()
        invariant Asked(input_version_, lvl, level_ptrs[..], user_key) == all
      {
        var found := LevelSpans(lvl, user_key);
        if found.None? {
          return None;
        }
        if found.value {
          return Some(false);
        }
        lvl := lvl + 1;
      }
      return Some(true);
    }

    /** The inner loop: advances the cursor of one level. */
    method LevelSpans(lvl: nat, user_key: UserKey) returns (found: Option<bool>)
      requires Ready() && lvl < V.LEVELS
      modifies level_ptrs
      ensures Ready()
      ensures var at := StopAt(input_version_[lvl], old(level_ptrs[lvl]), user_key);
              level_ptrs[..] == old(level_ptrs[..])[lvl := at] && found == InRange(input_version_[lvl], at, user_key)
    {
      var files := input_version_[lvl];
      while level_ptrs[lvl] < |files|
        invariant Ready() && level_ptrs[..] == old(level_ptrs[..])[lvl := level_ptrs[lvl]]
        invariant StopAt(files, level_ptrs[lvl], user_key) == StopAt(files, old(level_ptrs[lvl]), user_key)
        decreases |files| - level_ptrs[lvl]
      {
        var f := files[level_ptrs[lvl]];
        var largest := Untagged(user_key, f.largest.user);
        if largest.None? {
          return None;
        }
        if largest.value <= 0 {
          var smallest := Untagged(user_key, f.smallest.user);
          if smallest.None? {
            return None;
          }
          return Some(smallest.value >= 0);
        }
        level_ptrs[lvl] := level_ptrs[lvl] + 1;
      }
      return Some(false);
    }
  }

  // ---------------------------------------------------------------- the drop rule

  /** `ParseInternalKey` succeeds. */
  predicate Parsed(e: Entry) {
    Kind(e.key.tag) <= TYPE_VALUE
  }

  /** The entry before number i has the same user key and is already visible to every snapshot. */
  predicate Superseded(input: seq<Entry>, i: nat, snap: nat)
    requires i < |input|
  {
    && i > 0 && Parsed(input[i]) && Parsed(input[i - 1])
    && input[i - 1].key.user == input[i].key.user && Sequence(input[i - 1].key.tag) <= snap
  }

  /** A deletion that every snapshot sees and that is not superseded: the deeper levels are asked about its key. */
  predicate Asks(input: seq<Entry>, i: nat, snap: nat)
    requires i < |input|
  {
    Kind(input[i].key.tag) == TYPE_DELETION && Sequence(input[i].key.tag) <= snap && !Superseded(input, i, snap)
  }

  /** The cursors when the loop comes to entry number i. */
  function CursorsAt(input: seq<Entry>, i: nat, snap: nat, v: V.Levels, level: nat): (r: seq<nat>)
    requires i <= |input| && level + 1 < V.LEVELS
    ensures Cursors(v, r)
  {
    if i == 0 then FIRST
    else
      var before := CursorsAt(input, i - 1, snap, v, level);
      if Asks(input, i - 1, snap) then Asked(v, level + 2, before, input[i - 1].key.user).1 else before
  }

  /** What the deeper levels answer for entry number i: no file for its key, some file, or undefined. */
  function BaseAt(input: seq<Entry>, i: nat, snap: nat, v: V.Levels, level: nat): Option<bool>
    requires i < |input| && level + 1 < V.LEVELS
  {
    Asked(v, level + 2, CursorsAt(input, i, snap, v, level), input[i].key.user).0
  }

  /** A deletion visible to every snapshot, of a key that no deeper file seems to hold. */
  predicate DeadTombstone(input: seq<Entry>, i: nat, snap: nat, v: V.Levels, level: nat)
    requires i < |input| && level + 1 < V.LEVELS
  {
    Asks(input, i, snap) && BaseAt(input, i, snap, v, level) == Some(true)
  }

  predicate Drops(input: seq<Entry>, i: nat, snap: nat, v: V.Levels, level: nat)
    requires i < |input| && level + 1 < V.LEVELS
  {
    Superseded(input, i, snap) || DeadTombstone(input, i, snap, v, level)
  }

  /** What is kept of the first n entries. */
  function Kept(input: seq<Entry>, n: nat, snap: nat, v: V.Levels, level: nat): seq<Entry>
    requires n <= |input| && level + 1 < V.LEVELS
  {
    if n == 0 then []
    else Kept(input, n - 1, snap, v, level) + (if Drops(input, n - 1, snap, v, level) then [] else [input[n - 1]])
  }

  /**
   The comparisons of user keys for entry number i are defined. For the first one that takes the uninitialised
   `has_cur_userkey` to be false, since there is no key before it to compare with.
   */
  predicate DefinedAt(input: seq<Entry>, i: nat, snap: nat, v: V.Levels, level: nat, has: bool)
    requires i < |input| && level + 1 < V.LEVELS
  {
    && (Parsed(input[i]) ==>
          if i == 0 then !has
          else Parsed(input[i - 1]) ==> |input[i].key.user| >= 8 && |input[i - 1].key.user| >= 8)
    && (Asks(input, i, snap) ==> BaseAt(input, i, snap, v, level).Some?)
  }

  /**
   What the loop meets at each entry by number: a frozen memtable to flush, a grown overlap with the level after
   the next (`ShouldStopBefore`), an output file at its maximal size once the entry is added.
   */
  datatype Around = Around(frozen: nat -> bool, stops: nat -> bool, full: nat -> bool)

  /**
   The turn for entry number i is defined. Behind a flush the loop locks a mutex that it holds; behind the end
   of an output file it keeps a pointer to the deleted builder and uses it, at the latest when it is over.
   */
  predicate TurnDefined(input: seq<Entry>, i: nat, snap: nat, v: V.Levels, level: nat, has: bool, around: Around)
    requires i < |input| && level + 1 < V.LEVELS
  {
    && DefinedAt(input, i, snap, v, level, has)
    && !around.frozen(i)
    && (Kept(input, i, snap, v, level) != [] ==> !around.stops(i))
    && (!Drops(input, i, snap, v, level) ==> !around.full(i))
  }

  lemma KeptNone(input: seq<Entry>, snap: nat, v: V.Levels, level: nat)
    requires level + 1 < V.LEVELS
    ensures Kept(input, 0, snap, v, level) == [] && CursorsAt(input, 0, snap, v, level) == FIRST
  {
  }

  lemma KeptNext(input: seq<Entry>, i: nat, snap: nat, v: V.Levels, level: nat)
    requires i < |input| && level + 1 < V.LEVELS
    ensures Kept(input, i + 1, snap, v, level) ==
            if Drops(input, i, snap, v, level) then Kept(input, i, snap, v, level)
              else Kept(input, i, snap, v, level) + [input[i]]
    ensures CursorsAt(input, i + 1, snap, v, level) ==
            var before := CursorsAt(input, i, snap, v, level);
            if Asks(input, i, snap) then Asked(v, level + 2, before, input[i].key.user).1 else before
  {
    assert Kept(input, i, snap, v, level) + [] == Kept(input, i, snap, v, level);
  }

  /** What the loop remembers of the entry before number i; `has0` is its uninitialised flag. */
  predicate Remembers(input: seq<Entry>, i: nat, has0: bool, has: bool, cur: UserKey, last: nat)
    requires i <= |input|
  {
    if i == 0 then has == has0 && cur == [] && last == MAX_SEQUENCE
    else
      && (has <==> Parsed(input[i - 1]))
      && (has ==> cur == input[i - 1].key.user && last == Sequence(input[i - 1].key.tag))
  }

  /** The key before has the same user key, if that can be compared. */
  function SameUser(key: InternalKey, has: bool, cur: UserKey): Option<bool> {
    if Kind(key.tag) > TYPE_VALUE || !has then Some(false)
    else
      match Untagged(key.user, cur)
      case None => None
      case Some(r) => Some(r == 0)
  }

  /** The decision for one entry, with the state of the loop before and after it. */
  method Decide(comp: Compaction, key: InternalKey, small_snap: nat, has: bool, cur: UserKey, last: nat)
    returns (defined: bool, drop: bool, has_cur_userkey: bool, cur_usrkey: UserKey, last_seqkey: nat)
    requires comp.Ready() && small_snap < MAX_SEQUENCE
    modifies comp.level_ptrs
    ensures comp.Ready()
    ensures var same := SameUser(key, has, cur);
            var superseded := same == Some(true) && last <= small_snap;
            var asks := Kind(key.tag) == TYPE_DELETION && Sequence(key.tag) <= small_snap && !superseded;
            var (base, ptrs) := Asked(comp.input_version_, comp.level_ + 2, old(comp.level_ptrs[..]), key.user);
            && (defined <==> same.Some? && (asks ==> base.Some?))
            && (defined ==> (drop <==> superseded || (asks && base == Some(true))))
            && (defined ==> comp.level_ptrs[..] == if asks then ptrs else old(comp.level_ptrs[..]))
    ensures defined ==> has_cur_userkey == (Kind(key.tag) <= TYPE_VALUE) && last_seqkey == Sequence(key.tag)
    ensures defined && has_cur_userkey ==> cur_usrkey == key.user
  {
    has_cur_userkey, cur_usrkey, last_seqkey := has, cur, last;
    defined, drop := true, false;
    if Kind(key.tag) > TYPE_VALUE {
      cur_usrkey, has_cur_userkey, last_seqkey := [], false, MAX_SEQUENCE;
    } else {
      var other := !has_cur_userkey;
      if !other {
        var r := Untagged(key.user, cur_usrkey);
        if r.None? {
          defined := false;
          return;
        }
        CmpViewEquality(key.user, cur_usrkey);
        other := r.value != 0;
      }
      if other {
        cur_usrkey, has_cur_userkey, last_seqkey := key.user, true, MAX_SEQUENCE;
      }
    }
    if last_seqkey <= small_snap {
      drop := true;
    } else if Kind(key.tag) == TYPE_DELETION && Sequence(key.tag) <= small_snap {
      var base := comp.IsBaseLevelForKey(key.user);
      if base.None? {
        defined := false;
        return;
      }
      drop := base.value;
    }
    last_seqkey := Sequence(key.tag);
  }

  lemma NextRemembered(input: seq<Entry>, i: nat, has0: bool, has: bool, cur: UserKey, last: nat)
    requires i < |input| && has == Parsed(input[i]) && last == Sequence(input[i].key.tag)
    requires has ==> cur == input[i].key.user
    ensures Remembers(input, i + 1, has0, has, cur, last)
  {
  }

  /** One turn: the decision is that of the drop rule, and defined where the rule says. */
  lemma DecisionIsRule(input: seq<Entry>, i: nat, snap: nat, v: V.Levels, level: nat, has0: bool, has: bool,
                       cur: UserKey, last: nat)
    requires i < |input| && level + 1 < V.LEVELS && snap < MAX_SEQUENCE && Remembers(input, i, has0, has, cur, last)
    ensures var same := SameUser(input[i].key, has, cur);
            var superseded := same == Some(true) && last <= snap;
            var asks := Kind(input[i].key.tag) == TYPE_DELETION && Sequence(input[i].key.tag) <= snap && !superseded;
            var before := CursorsAt(input, i, snap, v, level);
            var (base, ptrs) := Asked(v, level + 2, before, input[i].key.user);
            var keeps, defined := Kept(input, i, snap, v, level), DefinedAt(input, i, snap, v, level, has0);
            && (defined <==> same.Some? && (asks ==> base.Some?))
            && (defined ==> CursorsAt(input, i + 1, snap, v, level) == if asks then ptrs else before)
            && (defined ==> (Drops(input, i, snap, v, level) <==> superseded || (asks && base == Some(true))))
            && (defined ==> Kept(input, i + 1, snap, v, level) ==
                              if superseded || (asks && base == Some(true)) then keeps else keeps + [input[i]])
  {
    hide Asked, Kept, CursorsAt;
    KeptNext(input, i, snap, v, level);
    if |input[i].key.user| >= 8 && |cur| >= 8 {
      CmpViewEquality(input[i].key.user, cur);
    }
  }

  lemma TurnOf(input: seq<Entry>, i: nat, snap: nat, v: V.Levels, level: nat, has: bool, around: Around)
    requires i < |input| && level + 1 < V.LEVELS
    ensures TurnDefined(input, i, snap, v, level, has, around) <==>
              && DefinedAt(input, i, snap, v, level, has)
              && !(around.frozen(i) || (around.stops(i) && Kept(input, i, snap, v, level) != []))
              && (Drops(input, i, snap, v, level) || !around.full(i))
  {
    hide Kept, Drops, DefinedAt;
  }

  /**
   One turn of the loop, up to the step of the iterator. An output file is open once something was kept.
   */
  method Turn(comp: Compaction, ghost input: seq<Entry>, n: nat, e: Entry, small_snap: nat, ghost has0: bool,
              around: Around,
              has: bool, cur: UserKey, last: nat, outputs: seq<Entry>)
    returns (defined: bool, outs: seq<Entry>, has_cur_userkey: bool, cur_usrkey: UserKey, last_seqkey: nat)
    requires comp.Ready() && small_snap < MAX_SEQUENCE && n < |input| && e == input[n]
    requires Remembers(input, n, has0, has, cur, last)
    requires outputs == Kept(input, n, small_snap, comp.input_version_, comp.level_)
    requires comp.level_ptrs[..] == CursorsAt(input, n, small_snap, comp.input_version_, comp.level_)
    modifies comp.level_ptrs
    ensures comp.Ready()
    ensures defined <==> TurnDefined(input, n, small_snap, comp.input_version_, comp.level_, has0, around)
    ensures defined ==>
              && Remembers(input, n + 1, has0, has_cur_userkey, cur_usrkey, last_seqkey)
              && outs == Kept(input, n + 1, small_snap, comp.input_version_, comp.level_)
              && comp.level_ptrs[..] == CursorsAt(input, n + 1, small_snap, comp.input_version_, comp.level_)
  {
    hide Remembers, CursorsAt, Kept, Drops, DefinedAt, TurnDefined, SameUser, Asked, Cursors;
    TurnOf(input, n, small_snap, comp.input_version_, comp.level_, has0, around);
    outs, has_cur_userkey, cur_usrkey, last_seqkey := outputs, has, cur, last;
    if around.frozen(n) || (around.stops(n) && outputs != []) {
      defined := false;
      return;
    }
    DecisionIsRule(input, n, small_snap, comp.input_version_, comp.level_, has0, has, cur, last);
    var drop;
    defined, drop, has_cur_userkey, cur_usrkey, last_seqkey := Decide(comp, e.key, small_snap, has, cur, last);
    if defined {
      NextRemembered(input, n, has0, has_cur_userkey, cur_usrkey, last_seqkey);
      if !drop {
        outs := outputs + [e];
        defined := !around.full(n);
      }
    }
  }

  /**
   The loop over the merged input. It keeps exactly the entries that the drop rule keeps, in one output file,
   and is undefined exactly where one of its turns is. `has` is what the uninitialised flag holds.
   */
  method DoCompactionWork(comp: Compaction, iter: Merageitor, small_snap: nat, has: bool, around: Around)
    returns (defined: bool, outputs: seq<Entry>)
    requires iter.Inv() && small_snap < MAX_SEQUENCE
    requires comp.Ready() && comp.level_ptrs[..] == FIRST
    modifies comp.level_ptrs, iter, iter.Kids()
    ensures defined <==> forall i :: 0 <= i < |iter.merged| ==>
                           TurnDefined(iter.merged, i, small_snap, comp.input_version_, comp.level_, has, around)
    ensures defined ==> outputs == Kept(iter.merged, |iter.merged|, small_snap, comp.input_version_, comp.level_)
  {
    hide Merageitor.Static, Merageitor.Settled, Remembers, Sorted, MergeAll, CursorsAt, Kept, TurnDefined, Cursors;
    ghost var input := iter.merged;
    iter.SeekToFirst();
    defined, outputs := true, [];
    var n := 0;
    KeptNone(input, small_snap, comp.input_version_, comp.level_);
    var has_cur_userkey: bool, cur_usrkey: UserKey, last_seqkey: nat := has, [], MAX_SEQUENCE;
    Nothing(input, has);
    while iter.Valid()
      invariant iter.Inv() && iter.merged == input && comp.Ready() && n == iter.cursor
      invariant forall i :: 0 <= i < iter.cursor ==>
                  TurnDefined(input, i, small_snap, comp.input_version_, comp.level_, has, around)
      invariant outputs == Kept(input, iter.cursor, small_snap, comp.input_version_, comp.level_)
      invariant comp.level_ptrs[..] == CursorsAt(input, iter.cursor, small_snap, comp.input_version_, comp.level_)
      invariant Remembers(input, iter.cursor, has, has_cur_userkey, cur_usrkey, last_seqkey)
      decreases |input| - iter.cursor
    {
      var e := Entry(iter.Key(), iter.Value());
      defined, outputs, has_cur_userkey, cur_usrkey, last_seqkey :=
        Turn(comp, input, n, e, small_snap, has, around, has_cur_userkey, cur_usrkey, last_seqkey, outputs);
      if !defined {
        return;
      }
      n := n + 1;
      iter.Next();
    }
  }

  lemma Nothing(input: seq<Entry>, has: bool)
    ensures Remembers(input, 0, has, has, [], MAX_SEQUENCE)
  {
  }

  lemma NextUser(input: seq<Entry>, i: nat)
    requires Sorted(input) && i < |input|
    ensures i + 1 < |input| ==> UserLe(input[i].key.user, input[i + 1].key.user)
  {
    KeyOrderByParts();
    UserOrder();
  }

  // ---------------------------------------------------------------- compaction preserves reads

  lemma {:induction false} KeptMembers(input: seq<Entry>, n: nat, snap: nat, v: V.Levels, level: nat)
    requires n <= |input| && level + 1 < V.LEVELS
    ensures forall e :: e in Kept(input, n, snap, v, level) <==>
              exists i :: 0 <= i < n && input[i] == e && !Drops(input, i, snap, v, level)
  {
    if n > 0 {
      KeptMembers(input, n - 1, snap, v, level);
      forall e ensures e in Kept(input, n, snap, v, level) <==>
                       exists i :: 0 <= i < n && input[i] == e && !Drops(input, i, snap, v, level)
      {
        if i :| 0 <= i < n && input[i] == e && !Drops(input, i, snap, v, level) {
          assert i < n - 1 ==> e in Kept(input, n - 1, snap, v, level);
        }
      }
    }
  }

  /** Between two entries of one user key there are only entries of that key, with falling tags. */
  lemma SameUserRun(input: seq<Entry>, i: nat, j: nat)
    requires Sorted(input) && i < j < |input| && input[i].key.user == input[j].key.user
    ensures input[j - 1].key.user == input[j].key.user
    ensures input[j - 1].key.tag <= input[i].key.tag && input[j].key.tag < input[j - 1].key.tag
  {
    KeyOrderByParts();
    UserOrder();
    assert Lt(input[j - 1].key, input[j].key);
    assert i < j - 1 ==> Lt(input[i].key, input[j - 1].key);
  }

  lemma SequenceMonotone(a: uint64, b: uint64)
    requires a <= b
    ensures Sequence(a) <= Sequence(b)
  {
  }

  /** An entry old enough for every snapshot supersedes all later ones of its user key. */
  lemma OldSupersedes(input: seq<Entry>, i: nat, j: nat, snap: nat)
    requires Sorted(input) && (forall k :: 0 <= k < |input| ==> Parsed(input[k]))
    requires i < j < |input| && input[i].key.user == input[j].key.user && Sequence(input[i].key.tag) <= snap
    ensures Superseded(input, j, snap)
  {
    SameUserRun(input, i, j);
    SequenceMonotone(input[j - 1].key.tag, input[i].key.tag);
  }

  /** The output is sorted, and holds at most one entry of a user key that every snapshot can see. */
  lemma OldOnce(input: seq<Entry>, snap: nat, v: V.Levels, level: nat, x: Entry, y: Entry)
    requires Sorted(input) && (forall k :: 0 <= k < |input| ==> Parsed(input[k])) && level + 1 < V.LEVELS
    requires x in Kept(input, |input|, snap, v, level) && y in Kept(input, |input|, snap, v, level)
    requires x.key.user == y.key.user && Sequence(x.key.tag) <= snap && Sequence(y.key.tag) <= snap
    ensures x == y
  {
    KeptMembers(input, |input|, snap, v, level);
    var i :| 0 <= i < |input| && input[i] == x && !Drops(input, i, snap, v, level);
    var j :| 0 <= j < |input| && input[j] == y && !Drops(input, j, snap, v, level);
    if i < j {
      OldSupersedes(input, i, j, snap);
    } else if j < i {
      OldSupersedes(input, j, i, snap);
    }
  }

  lemma {:induction false} KeptSorted(input: seq<Entry>, n: nat, snap: nat, v: V.Levels, level: nat)
    requires n <= |input| && Sorted(input) && level + 1 < V.LEVELS
    ensures Sorted(Kept(input, n, snap, v, level))
  {
    if n > 0 {
      var before := Kept(input, n - 1, snap, v, level);
      KeptSorted(input, n - 1, snap, v, level);
      KeptMembers(input, n - 1, snap, v, level);
      forall i | 0 <= i < |before| ensures Lt(before[i].key, input[n - 1].key) {
        assert before[i] in before;
      }
    }
  }

  /** A key that no file of the deeper levels spans has no entry there. */
  lemma {:induction false} NothingBelow(v: V.Levels, tables: V.Tables, from: nat, user: UserKey)
    requires V.TablesOk(v, tables) && from <= V.LEVELS
    requires forall l :: from <= l < V.LEVELS ==> !Spanned(v[l], user)
    ensures forall e :: e in V.EntriesFrom(v, tables, from) ==> e.key.user != user
    decreases V.LEVELS - from
  {
    if from < V.LEVELS {
      NothingBelow(v, tables, from + 1, user);
      forall e | e in V.LevelEntries(v[from], tables) ensures e.key.user != user {
        var i :| 0 <= i < |v[from]| && e in V.FileEntries(v[from][i], tables);
        assert V.TableOk(v[from][i], tables) && !V.Spans(v[from][i], user);
        V.OutsideRange(v[from][i], tables, user, e.key.tag);
        assert !Visible(e, user, e.key.tag);
      }
    }
  }

  lemma VisibleTag(e: Entry, user: UserKey, s: nat)
    requires Parsed(e) && s <= MAX_SEQUENCE
    ensures Visible(e, user, SeekTag(s)) <==> e.key.user == user && Sequence(e.key.tag) <= s
  {
  }

  /** The newest visible entry of the input is not superseded, if the snapshot is not older than the oldest one. */
  lemma NewestNotSuperseded(input: seq<Entry>, i: nat, snap: nat, user: UserKey, s: nat)
    requires Sorted(input) && (forall k :: 0 <= k < |input| ==> Parsed(input[k])) && i < |input|
    requires snap <= s <= MAX_SEQUENCE && IsNewest(Entries(input), user, SeekTag(s), input[i])
    ensures !Superseded(input, i, snap)
  {
    if Superseded(input, i, snap) {
      VisibleTag(input[i - 1], user, s);
      assert input[i - 1] in Entries(input);
      SameUserRun(input, i - 1, i);
      assert false;
    }
  }

  /** If the newest visible entry is a dropped tombstone, nothing visible of the key is kept. */
  lemma DroppedLeavesNothing(input: seq<Entry>, i: nat, snap: nat, v: V.Levels, level: nat, user: UserKey, s: nat)
    requires Sorted(input) && (forall k :: 0 <= k < |input| ==> Parsed(input[k])) && i < |input|
    requires snap <= s <= MAX_SEQUENCE && IsNewest(Entries(input), user, SeekTag(s), input[i])
    requires level + 1 < V.LEVELS && DeadTombstone(input, i, snap, v, level)
    ensures Kind(input[i].key.tag) == TYPE_DELETION
    ensures NothingVisible(Entries(Kept(input, |input|, snap, v, level)), user, SeekTag(s))
  {
    hide Kept, BaseAt, Superseded, Sorted, SeekTag;
    KeptMembers(input, |input|, snap, v, level);
    forall e | e in Kept(input, |input|, snap, v, level) ensures !Visible(e, user, SeekTag(s)) {
      var j :| 0 <= j < |input| && input[j] == e && !Drops(input, j, snap, v, level);
      assert input[j] in Entries(input);
      if Visible(e, user, SeekTag(s)) {
        if j < i {
          SameUserRun(input, j, i);
        } else if i < j {
          OldSupersedes(input, i, j, snap);
        }
        assert false;
      }
    }
  }

  lemma NewestCongruent(a: set<Entry>, b: set<Entry>, user: UserKey, bound: uint64)
    requires forall e :: IsNewest(a, user, bound, e) <==> IsNewest(b, user, bound, e)
    ensures Newest(a, user, bound) == Newest(b, user, bound)
  {
    if e :| IsNewest(a, user, bound, e) {
      NewestIs(a, user, bound, e);
      NewestIs(b, user, bound, e);
    }
  }

  /** Nothing the input holds can be seen behind a newer visible entry, so what is dropped does not matter. */
  lemma HiddenInput(newer: set<Entry>, input: set<Entry>, kept: set<Entry>, deeper: set<Entry>, user: UserKey,
                    bound: uint64, n: Entry)
    requires kept <= input && Newer(newer, input) && n in newer && Visible(n, user, bound)
    ensures Newest(newer + kept + deeper, user, bound) == Newest(newer + input + deeper, user, bound)
  {
    var a, b := newer + kept + deeper, newer + input + deeper;
    forall e ensures IsNewest(a, user, bound, e) <==> IsNewest(b, user, bound, e) {
      assert n in a && n in b;
    }
    NewestCongruent(a, b, user, bound);
  }

  /** A kept newest entry of the input stands for all of it. */
  lemma KeptNewest(newer: set<Entry>, input: set<Entry>, kept: set<Entry>, deeper: set<Entry>, user: UserKey,
                   bound: uint64)
    requires kept <= input
    requires NothingVisible(input, user, bound) || exists e :: e in kept && IsNewest(input, user, bound, e)
    ensures Newest(newer + kept + deeper, user, bound) == Newest(newer + input + deeper, user, bound)
  {
    var a, b := newer + kept + deeper, newer + input + deeper;
    forall e ensures IsNewest(a, user, bound, e) <==> IsNewest(b, user, bound, e) {
      if x :| x in kept && IsNewest(input, user, bound, x) {
        assert x in a && x in b;
      }
    }
    NewestCongruent(a, b, user, bound);
  }

  /**
   A read that brings back what a tombstone hid: the tombstone is the newest visible entry of the key, it was
   dropped, and a value is visible deeper.
   */
  ghost predicate Resurrects(input: seq<Entry>, snap: nat, v: V.Levels, level: nat, newer: set<Entry>,
                             deeper: set<Entry>,
                             user: UserKey, s: nat)
    requires level + 1 < V.LEVELS && s <= MAX_SEQUENCE
  {
    && NothingVisible(newer, user, SeekTag(s))
    && (exists i ::
          && 0 <= i < |input| && IsNewest(Entries(input), user, SeekTag(s), input[i])
          && DeadTombstone(input, i, snap, v, level))
    && Resolve(Newest(deeper, user, SeekTag(s))) != Missing
  }

  /**
   When compaction preserves reads. For every user key and every snapshot that is not older than the oldest
   one, the newest visible entry over newer entries, outputs and deeper levels means the same (a value, or
   deleted or absent) as over newer entries, inputs and deeper levels, if and only if no dropped tombstone
   hid something.
   */
  lemma CompactionKeepsReads(input: seq<Entry>, snap: nat, v: V.Levels, level: nat, newer: set<Entry>,
                             deeper: set<Entry>,
                             user: UserKey, s: nat)
    requires Sorted(input) && (forall k :: 0 <= k < |input| ==> Parsed(input[k])) && level + 1 < V.LEVELS
    requires Newer(newer, Entries(input)) && Newer(Entries(input), deeper)
    requires snap <= s <= MAX_SEQUENCE
    ensures var kept := Entries(Kept(input, |input|, snap, v, level));
            Resolve(Newest(newer + kept + deeper, user, SeekTag(s)))
              == Resolve(Newest(newer + Entries(input) + deeper, user, SeekTag(s)))
            <==> !Resurrects(input, snap, v, level, newer, deeper, user, s)
  {
    hide Kept, DeadTombstone, Superseded, SeekTag, Newest;
    var all, bound := Entries(input), SeekTag(s);
    var kept := Entries(Kept(input, |input|, snap, v, level));
    KeptMembers(input, |input|, snap, v, level);
    assert kept <= all;
    FindIsNewest(input, user, bound);
    var e := Find(input, InternalKey(user, bound));
    if n :| n in newer && Visible(n, user, bound) {
      HiddenInput(newer, all, kept, deeper, user, bound, n);
    } else if e.None? {
      KeptNewest(newer, all, kept, deeper, user, bound);
    } else {
      var i :| 0 <= i < |input| && input[i] == e.value;
      NewestNotSuperseded(input, i, snap, user, s);
      SortedOnce(input, i);
      if DeadTombstone(input, i, snap, v, level) {
        DroppedLeavesNothing(input, i, snap, v, level, user, s);
        TombstoneHides(newer, all, deeper, user, bound, e.value);
        OnlyDeeper(newer, kept, deeper, user, bound);
      } else {
        KeptNewest(newer, all, kept, deeper, user, bound);
      }
    }
  }

  lemma SortedOnce(input: seq<Entry>, i: nat)
    requires Sorted(input) && i < |input|
    ensures forall j :: 0 <= j < |input| && input[j] == input[i] ==> j == i
  {
    KeyOrder();
  }

  /** A tombstone that is the newest visible entry means that the key is absent. */
  lemma TombstoneHides(newer: set<Entry>, input: set<Entry>, deeper: set<Entry>, user: UserKey, bound: uint64, e: Entry)
    requires IsNewest(input, user, bound, e) && NothingVisible(newer, user, bound) && Newer(input, deeper)
    ensures Newest(newer + input + deeper, user, bound) == Some(e)
  {
    NewestIs(newer + input + deeper, user, bound, e);
  }

  lemma OnlyDeeper(newer: set<Entry>, kept: set<Entry>, deeper: set<Entry>, user: UserKey, bound: uint64)
    requires NothingVisible(newer, user, bound) && NothingVisible(kept, user, bound)
    ensures Newest(newer + kept + deeper, user, bound) == Newest(deeper, user, bound)
  {
    forall e ensures IsNewest(newer + kept + deeper, user, bound, e) <==> IsNewest(deeper, user, bound, e) {
    }
    NewestCongruent(newer + kept + deeper, deeper, user, bound);
  }

  // ---------------------------------------------------------------- when the answers are right

  /** Every question about a deeper level compares keys whose comparisons agree with the bytewise order. */
  ghost predicate AskedAgree(input: seq<Entry>, snap: nat, v: V.Levels, level: nat) {
    forall i :: 0 <= i < |input| && Asks(input, i, snap) ==> AgreesBelow(v, level + 2, input[i].key.user)
  }

  /** Then every answer says whether a deeper file has the key in its range. */
  lemma {:induction false} AnswersRight(input: seq<Entry>, i: nat, snap: nat, v: V.Levels, level: nat)
    requires Sorted(input) && i < |input| && level + 1 < V.LEVELS && AskedAgree(input, snap, v, level)
    requires forall l :: level + 2 <= l < V.LEVELS ==> InOrder(v[l])
    ensures PassedBelow(v, level + 2, CursorsAt(input, i, snap, v, level), input[i].key.user)
    ensures Asks(input, i, snap) ==>
              BaseAt(input, i, snap, v, level) == Some(!SpannedFrom(v, level + 2, input[i].key.user))
  {
    hide Sorted, Asks, AgreesBelow, Asked;
    if i > 0 {
      AnswersRight(input, i - 1, snap, v, level);
      NextUser(input, i - 1);
      if Asks(input, i - 1, snap) {
        AskedRight(v, level + 2, CursorsAt(input, i - 1, snap, v, level), input[i - 1].key.user);
      }
      PassedLater(v, level + 2, CursorsAt(input, i, snap, v, level), input[i - 1].key.user, input[i].key.user);
    }
    if Asks(input, i, snap) {
      AskedRight(v, level + 2, CursorsAt(input, i, snap, v, level), input[i].key.user);
    }
  }

  /** Then no tombstone is dropped that hides something. */
  lemma AgreementKeepsReads(input: seq<Entry>, snap: nat, v: V.Levels, level: nat, tables: V.Tables, newer: set<Entry>,
                            user: UserKey, s: nat)
    requires Sorted(input) && level + 1 < V.LEVELS && AskedAgree(input, snap, v, level) && V.TablesOk(v, tables)
    requires (forall l :: level + 2 <= l < V.LEVELS ==> InOrder(v[l])) && s <= MAX_SEQUENCE
    ensures !Resurrects(input, snap, v, level, newer, V.EntriesFrom(v, tables, level + 2), user, s)
  {
    hide Sorted, Asks, BaseAt, Newest, V.EntriesFrom, V.TablesOk, AskedAgree;
    if i :|
      && 0 <= i < |input| && IsNewest(Entries(input), user, SeekTag(s), input[i])
      && DeadTombstone(input, i, snap, v, level)
    {
      AnswersRight(input, i, snap, v, level);
      NothingBelow(v, tables, level + 2, user);
      NewestNone(V.EntriesFrom(v, tables, level + 2), user, SeekTag(s));
    }
  }

  /** With keys of at least eight bytes everywhere the loop is defined. */
  lemma LongDefined(input: seq<Entry>, i: nat, snap: nat, v: V.Levels, level: nat)
    requires i < |input| && level + 1 < V.LEVELS && LongBounds(v)
             && forall k :: 0 <= k < |input| ==> |input[k].key.user| >= 8
    ensures DefinedAt(input, i, snap, v, level, false)
  {
    hide LongBounds;
    AskedDefined(v, level + 2, CursorsAt(input, i, snap, v, level), input[i].key.user);
  }

  /** A deletion of the greater key of the file, with sequence 3. */
  const DELETION: seq<Entry> := [Entry(InternalKey(V.HIGH, 768), [])]

  const DEEP_VERSION: V.Levels := [[], [], [V.TWO_KEY_FILE], [], [], [], []]

  lemma OneLevelAsked(v: V.Levels, user: UserKey)
    requires InRange(v[2], StopAt(v[2], 0, user), user) == Some(false)
    requires forall l :: 2 < l < V.LEVELS ==> v[l] == []
    ensures Asked(v, 2, FIRST, user).0 == Some(true)
  {
    assert Cursors(v, FIRST);
    hide Asked, StopAt, InRange, Cursors;
    var ptrs := FIRST[2 := StopAt(v[2], 0, user)];
    AskedNext(v, 2, FIRST, user);
    NothingToAsk(v, 3, ptrs, user);
  }

  lemma {:induction false} NothingToAsk(v: V.Levels, l: nat, ptrs: seq<nat>, user: UserKey)
    requires Cursors(v, ptrs) && l <= V.LEVELS && forall k :: l <= k < V.LEVELS ==> v[k] == []
    ensures Asked(v, l, ptrs, user).0 == Some(true)
    decreases V.LEVELS - l
  {
    if l < V.LEVELS {
      NothingToAsk(v, l + 1, ptrs[l := 0], user);
    }
  }

  lemma DeletionDropped()
    ensures DeadTombstone(DELETION, 0, 3, DEEP_VERSION, 0)
  {
    hide StopAt, InRange, Asked, Spanned, InOrder;
    WrongAnswer();
    OneLevelAsked(DEEP_VERSION, V.HIGH);
  }

  /**
   A tombstone dropped wrongly. A compaction of level 0 sees a deletion of the greater key of the file two
   levels below; the level seems not to have the key, the tombstone goes, and the deleted value comes back.
   */
  lemma TombstoneLost()
    ensures Resurrects(DELETION, 3, DEEP_VERSION, 0, {}, Entries(V.TWO_KEYS), V.HIGH, 3)
  {
    hide BaseAt, Asks;
    DeletionDropped();
    assert SeekTag(3) == 769;
    assert IsNewest(Entries(DELETION), V.HIGH, 769, DELETION[0]);
    NewestIs(Entries(V.TWO_KEYS), V.HIGH, 769, V.TWO_KEYS[1]);
  }
}
