/**
 What a read at a snapshot means: the newest visible entry of a user key among a set of entries.
 */
module Lookup {
  import opened Common
  import opened Keys

  /**
   The result of a point read. `Missing` is the NotFound state, for absent and deleted keys alike; `Undefined`
   is a read that compares a user key of less than eight bytes as if it carried a tag.
   */
  datatype ReadResult = Found(value: seq<byte>) | Missing | Corrupt | Undefined

  /** The tag a read at snapshot s looks up: sequence s with the value type (`Lookey`). */
  function SeekTag(s: nat): uint64
    requires s <= MAX_SEQUENCE
  {
    PackSequenceAndType(s, TYPE_VALUE)
  }

  predicate Visible(e: Entry, user: UserKey, bound: uint64) {
    e.key.user == user && e.key.tag <= bound
  }

  ghost predicate IsNewest(entries: set<Entry>, user: UserKey, bound: uint64, e: Entry) {
    && e in entries && Visible(e, user, bound)
    && forall x :: x in entries && Visible(x, user, bound) ==> x == e || x.key.tag < e.key.tag
  }

  ghost predicate NothingVisible(entries: set<Entry>, user: UserKey, bound: uint64) {
    forall x :: x in entries ==> !Visible(x, user, bound)
  }

  /** The newest visible entry of a user key, if there is one. */
  ghost function Newest(entries: set<Entry>, user: UserKey, bound: uint64): Option<Entry> {
    if exists e :: IsNewest(entries, user, bound, e) then
      var e :| IsNewest(entries, user, bound, e);
      Some(e)
    else None
  }

  function Resolve(e: Option<Entry>): ReadResult {
    match e
    case None => Missing
    case Some(x) =>
      if Kind(x.key.tag) == TYPE_VALUE then Found(x.value)
      else if Kind(x.key.tag) == TYPE_DELETION then Missing
      else Corrupt
  }

  lemma NewestIs(entries: set<Entry>, user: UserKey, bound: uint64, e: Entry)
    requires IsNewest(entries, user, bound, e)
    ensures Newest(entries, user, bound) == Some(e)
  {
    var n := Newest(entries, user, bound).value;
    assert IsNewest(entries, user, bound, n);
  }

  lemma NewestNone(entries: set<Entry>, user: UserKey, bound: uint64)
    requires NothingVisible(entries, user, bound)
    ensures Newest(entries, user, bound) == None
  {
  }

  function Entries(s: seq<Entry>): set<Entry> {
    set e | e in s
  }

  /** `SkipList::Seek` and a table seek: the first entry not below the target, if it is for the same user key. */
  function Find(s: seq<Entry>, target: InternalKey): Option<Entry> {
    var i := LowerBound(s, target);
    if i < |s| && s[i].key.user == target.user then Some(s[i]) else None
  }

  /** In a sorted run, seeking (user, bound) finds the newest entry of the user key at or below the bound. */
  lemma FindIsNewest(s: seq<Entry>, user: UserKey, bound: uint64)
    requires Sorted(s)
    ensures match Find(s, InternalKey(user, bound))
            case None => NothingVisible(Entries(s), user, bound)
            case Some(e) => IsNewest(Entries(s), user, bound, e)
  {
    var target := InternalKey(user, bound);
    var i := LowerBound(s, target);
    KeyOrder();
    KeyOrderByParts();
    UserOrder();
    AboveLowerBound(s, target);
    forall x | x in Entries(s) && Visible(x, user, bound)
      ensures i < |s| && s[i].key.user == user && (x == s[i] || x.key.tag < s[i].key.tag)
    {
      var j :| 0 <= j < |s| && s[j] == x;
      assert i <= j;
      assert j > i ==> Lt(s[i].key, s[j].key);
      assert !Lt(s[i].key, target);
    }
  }

  /** For every user key they share, entries of s are newer than entries of t. */
  ghost predicate Newer(s: set<Entry>, t: set<Entry>) {
    forall x, y :: x in s && y in t && x.key.user == y.key.user ==> x.key.tag > y.key.tag
  }
}
