/**
 Whole runs of the database: any mix of puts, deletes, freezes and flushes from an empty database, and then a read.
 */
module Runs {
  import opened Common
  import opened Keys
  import opened Lookup
  import opened Memtable
  import opened WriteBatch
  import opened History
  import opened Recovery
  import B = Builder
  import M = Manifest
  import V = Version
  import W = Wal
  import VS = VersionSet
  import D = Db

  /** A write says whether its append to the log succeeds, a flush which of its file operations do. */
  datatype Step =
    | DoPut(key: seq<byte>, value: seq<byte>, logged: bool)
    | DoDelete(key: seq<byte>, logged: bool)
    | DoFreeze
    | DoFlush(built: bool, size: uint64, io: VS.Io)

  function OpsOf(step: Step): seq<Op> {
    match step
    case DoPut(k, v, _) => [Put(k, v)]
    case DoDelete(k, _) => [Delete(k)]
    case _ => []
  }

  /** How many sequences a run has used: one for each put and each deletion. */
  function Used(steps: seq<Step>): nat {
    if steps == [] then 0 else Used(DropLast(steps)) + |OpsOf(Last(steps))|
  }

  predicate Logs(step: Step) {
    (step.DoPut? || step.DoDelete?) && step.logged
  }

  /** The writes of a run that took place: those that were logged, in the order they were made. */
  function WritesOf(steps: seq<Step>): seq<Write> {
    if steps == [] then [] else Longer(WritesOf(DropLast(steps)), Used(DropLast(steps)), Last(steps))
  }

  /** One step on top of a history that has used this many sequences. */
  function Longer(h: seq<Write>, used: nat, step: Step): seq<Write> {
    if Logs(step) then h + Writes(used + 1, OpsOf(step)) else h
  }

  /** Where the writes of a run are: all but the last ones frozen, of these the first ones flushed. */
  datatype Layers = Layers(total: nat, frozen: nat, flushed: nat, waiting: bool, manifest: bool)

  /** Do the file operations of a flush succeed? After a failed one the next creates a new manifest. */
  predicate Succeeds(step: Step, manifest: bool) {
    step.DoFlush? && step.built && step.io.append
      && (manifest || (step.io.create && step.io.snapshot && step.io.current))
  }

  /** What a step does to the layers: a freeze waits for an earlier one, a flush needs something frozen. */
  function LayersNext(l: Layers, step: Step): Layers {
    match step
    case DoPut(_, _, logged) => if logged then l.(total := l.total + 1) else l
    case DoDelete(_, logged) => if logged then l.(total := l.total + 1) else l
    case DoFreeze => if l.waiting then l else l.(frozen := l.total, waiting := true)
    case DoFlush(built, _, _) =>
      if !l.waiting || l.frozen == l.flushed then l
      else if Succeeds(step, l.manifest) then l.(flushed := l.frozen, waiting := false, manifest := true)
      else if built then l.(manifest := false)
      else l
  }

  function LayersOf(steps: seq<Step>): Layers {
    if steps == [] then Layers(0, 0, 0, false, true) else LayersNext(LayersOf(DropLast(steps)), Last(steps))
  }

  /** The writes of a run that each flush stored, in the order of the flushes. */
  function FlushedRuns(steps: seq<Step>): seq<seq<Write>> {
    if steps == [] then [] else
      var done := DropLast(steps);
      LayersFit(done);
      RunsNext(FlushedRuns(done), WritesOf(done), LayersOf(done), Last(steps))
  }

  /** A flush that succeeds stores the frozen writes. */
  function RunsNext(runs: seq<seq<Write>>, h: seq<Write>, l: Layers, step: Step): seq<seq<Write>>
    requires l.flushed <= l.frozen <= l.total == |h|
  {
    var flushed := LayersNext(l, step).flushed;
    if flushed == l.flushed then runs else runs + [h[l.flushed..flushed]]
  }

  lemma {:induction false} LayersFit(steps: seq<Step>)
    ensures var l := LayersOf(steps);
            l.flushed <= l.frozen <= l.total == |WritesOf(steps)| && (l.waiting || l.frozen == l.flushed)
  {
    if steps != [] {
      LayersFit(DropLast(steps));
    }
  }

  /** Together the flushes stored the flushed writes in their order. */
  lemma {:induction false} FlushedRunsJoined(steps: seq<Step>)
    ensures LayersOf(steps).flushed <= |WritesOf(steps)|
    ensures D.Joined(FlushedRuns(steps)) == WritesOf(steps)[..LayersOf(steps).flushed]
  {
    LayersFit(steps);
    if steps != [] {
      hide WritesOf, LayersOf, Longer, LayersNext, RunsNext;
      var done := DropLast(steps);
      LayersFit(done);
      FlushedRunsJoined(done);
      RunLast(steps);
      NextJoined(FlushedRuns(done), WritesOf(done), WritesOf(steps), LayersOf(done), Used(done), Last(steps));
    }
  }

  lemma NextJoined(runs: seq<seq<Write>>, h: seq<Write>, longer: seq<Write>, l: Layers, used: nat, step: Step)
    requires l.flushed <= l.frozen <= l.total == |h| && longer == Longer(h, used, step)
    requires D.Joined(runs) == h[..l.flushed]
    ensures LayersNext(l, step).flushed <= |h| <= |longer|
    ensures D.Joined(RunsNext(runs, h, l, step)) == longer[..LayersNext(l, step).flushed]
  {
    hide D.Joined;
    var flushed := LayersNext(l, step).flushed;
    D.JoinedSnoc(runs, h[l.flushed..flushed]);
    assert longer[..flushed] == h[..flushed] == h[..l.flushed] + h[l.flushed..flushed];
  }

  /** Lengths fit their prefixes, and a table that is built, which ends in a footer, has a positive size. */
  predicate StepFits(step: Step) {
    && (forall op :: op in OpsOf(step) ==> OpFits(op))
    && (step.DoFlush? && step.built ==> step.size > 0)
  }

  lemma {:induction false} Numbered(steps: seq<Step>)
    ensures |WritesOf(steps)| <= Used(steps) <= |steps|
    ensures forall i :: 0 <= i < |WritesOf(steps)| ==> 1 <= WritesOf(steps)[i].sequence <= Used(steps)
    ensures forall i, j :: 0 <= i < j < |WritesOf(steps)| ==> WritesOf(steps)[i].sequence < WritesOf(steps)[j].sequence
  {
    if steps != [] {
      Numbered(DropLast(steps));
    }
  }

  lemma {:induction false} RunFits(steps: seq<Step>)
    requires |steps| < 0x1_0000_0000 && forall step :: step in steps ==> StepFits(step)
    ensures forall w :: w in WritesOf(steps) ==> OpFits(w.op)
  {
    if steps != [] {
      RunFits(DropLast(steps));
      assert Last(steps) in steps;
    }
  }

  /** Each write of a run has its own sequence, so no `Delete` is shadowed. */
  lemma RunNotShadowed(steps: seq<Step>, key: UserKey, s: nat)
    requires |steps| < 0x1_0000_0000 && forall step :: step in steps ==> StepFits(step)
    ensures !Shadowed(WritesOf(steps), key, s)
  {
    var h := WritesOf(steps);
    Numbered(steps);
    RunFits(steps);
    forall w | w in h ensures Fits(w) {
      var i :| 0 <= i < |h| && h[i] == w;
    }
    SingleNotShadowed(h, key, s);
  }

  /** The database has its writes where the layers say. */
  ghost predicate Stands(db: D.DBImpl, l: Layers)
    reads db, db.versions_
  {
    && |db.inTables| == l.flushed && |db.inTables| + |db.inImm| == l.frozen && |db.Past()| == l.total
    && (db.imm_ != null <==> l.waiting) && (db.versions_.descriptor_log != null <==> l.manifest)
  }

  /** The state of the database after these steps. */
  ghost predicate After(db: D.DBImpl, steps: seq<Step>)
    reads db, db.mem_, db.imm_, db.logwrite, db.versions_, db.versions_.descriptor_log
  {
    && db.Valid() && db.Past() == WritesOf(steps) && Stands(db, LayersOf(steps))
    && db.runs == FlushedRuns(steps) && db.versions_.last_sequence == Used(steps)
    && db.versions_.next_file_number <= 4 + |steps|
  }

  ghost function Repr(db: D.DBImpl): set<object>
    reads db, db.versions_
  {
    {db, db.mem_, db.logwrite, db.versions_} + (if db.imm_ == null then {} else {db.imm_ as Memtable})
    + (if db.versions_.descriptor_log == null then {} else {db.versions_.descriptor_log as W.WalWriter})
  }

  method PutStep(db: D.DBImpl, k: seq<byte>, v: seq<byte>, logged: bool, ghost done: seq<Step>)
    requires After(db, done) && StepFits(DoPut(k, v, logged)) && |done| < 0x1_0000_0000
    modifies Repr(db)
    ensures After(db, done + [DoPut(k, v, logged)]) && fresh(Repr(db) - old(Repr(db)))
  {
    hide D.DBImpl.Valid, OpBytes, LayersOf, WritesOf, Used, FlushedRuns;
    ghost var step := DoPut(k, v, logged);
    WritesNext(done, step);
    LayersStep(done, step);
    StepLoggable(step, db.versions_.last_sequence);
    var state := db.Put(k, v, logged);
  }

  method DeleteStep(db: D.DBImpl, k: seq<byte>, logged: bool, ghost done: seq<Step>)
    requires After(db, done) && StepFits(DoDelete(k, logged)) && |done| < 0x1_0000_0000
    modifies Repr(db)
    ensures After(db, done + [DoDelete(k, logged)]) && fresh(Repr(db) - old(Repr(db)))
  {
    hide D.DBImpl.Valid, OpBytes, LayersOf, WritesOf, Used, FlushedRuns;
    ghost var step := DoDelete(k, logged);
    WritesNext(done, step);
    LayersStep(done, step);
    StepLoggable(step, db.versions_.last_sequence);
    var state := db.Delete(k, logged);
  }

  method FreezeStep(db: D.DBImpl, ghost done: seq<Step>)
    requires After(db, done) && |done| < 0x1_0000_0000
    modifies Repr(db)
    ensures After(db, done + [DoFreeze]) && fresh(Repr(db) - old(Repr(db)))
  {
    hide D.DBImpl.Valid, LayersOf, WritesOf, Used, Longer, FlushedRuns;
    WritesNext(done, DoFreeze);
    LayersStep(done, DoFreeze);
    if db.imm_ == null {
      db.FreezePast();
      db.Freeze();
    }
  }

  method FlushStep(db: D.DBImpl, step: Step, ghost done: seq<Step>)
    requires After(db, done) && step.DoFlush? && StepFits(step) && |done| < 0x1_0000_0000
    modifies Repr(db)
    ensures After(db, done + [step]) && fresh(Repr(db) - old(Repr(db)))
  {
    hide D.DBImpl.Valid, LayersOf, WritesOf, Used, Longer, FlushedRuns;
    WritesNext(done, step);
    LayersStep(done, step);
    if db.imm_ != null {
      db.FrozenWrites();
      if db.imm_.table != [] {
        var state := db.CompactMemTable(step.built, step.size, step.io);
      }
    }
  }

  /** One step of a run. */
  method RunStep(db: D.DBImpl, step: Step, ghost done: seq<Step>)
    requires After(db, done) && StepFits(step) && |done| < 0x1_0000_0000
    modifies Repr(db)
    ensures After(db, done + [step]) && fresh(Repr(db) - old(Repr(db)))
  {
    hide After, StepFits, Repr;
    match step
    case DoPut(k, v, logged) => PutStep(db, k, v, logged, done);
    case DoDelete(k, logged) => DeleteStep(db, k, logged, done);
    case DoFreeze => FreezeStep(db, done);
    case DoFlush(_, _, _) => FlushStep(db, step, done);
  }

  lemma LayersStep(done: seq<Step>, step: Step)
    ensures LayersOf(done + [step]) == LayersNext(LayersOf(done), step)
    ensures var l := LayersOf(done); l.flushed <= l.frozen <= l.total == |WritesOf(done)|
    ensures FlushedRuns(done + [step]) == RunsNext(FlushedRuns(done), WritesOf(done), LayersOf(done), step)
  {
    hide LayersNext, WritesOf, RunsNext;
    LayersFit(done);
    assert DropLast(done + [step]) == done && Last(done + [step]) == step;
  }

  lemma WritesNext(done: seq<Step>, step: Step)
    ensures WritesOf(done + [step]) == Longer(WritesOf(done), Used(done), step)
    ensures Used(done + [step]) == Used(done) + |OpsOf(step)|
    ensures OpsOf(step) == [] ==> WritesOf(done + [step]) == WritesOf(done)
    ensures |WritesOf(done)| <= Used(done) <= |done|
  {
    hide WritesOf, Used, Longer, OpsOf;
    Numbered(done);
    RunLast(done + [step]);
    assert DropLast(done + [step]) == done && Last(done + [step]) == step;
    NothingWritten(WritesOf(done), Used(done), step);
  }

  /** The last step of a run. */
  lemma RunLast(steps: seq<Step>)
    requires steps != []
    ensures WritesOf(steps) == Longer(WritesOf(DropLast(steps)), Used(DropLast(steps)), Last(steps))
    ensures LayersOf(steps) == LayersNext(LayersOf(DropLast(steps)), Last(steps))
    ensures Used(steps) == Used(DropLast(steps)) + |OpsOf(Last(steps))|
  {
    hide Longer, OpsOf;
  }

  lemma NothingWritten(h: seq<Write>, used: nat, step: Step)
    ensures OpsOf(step) == [] ==> Longer(h, used, step) == h
  {
  }

  lemma StepLoggable(step: Step, last: nat)
    requires StepFits(step) && last <= 0x1_0000_0000
    ensures OpsOf(step) != [] ==> Loggable(Logged(last + 1, OpsOf(step)))
  {
  }

  method NewRun(crc: W.Crc) returns (db: D.DBImpl)
    ensures After(db, []) && fresh(Repr(db))
  {
    hide D.DBImpl.Valid;
    db := new D.DBImpl(crc);
  }

  method RunSteps(crc: W.Crc, steps: seq<Step>) returns (db: D.DBImpl)
    requires |steps| < 0x1_0000_0000 && forall step :: step in steps ==> StepFits(step)
    ensures After(db, steps) && fresh(Repr(db))
  {
    hide StepFits, After;
    db := NewRun(crc);
    for i := 0 to |steps|
      invariant After(db, steps[..i]) && fresh(Repr(db))
    {
      assert steps[..i + 1] == steps[..i] + [steps[i]];
      RunStep(db, steps[i], steps[..i]);
    }
    assert steps[..|steps|] == steps;
  }

  /**
   Store refinement over whole runs. From an empty database, after any steps, a read at any snapshot up to
   the last sequence gives what the last write to the key at or below it left, if and only if the read is
   defined and that write is not a flushed `Put` of a value that flushing changes. It is undefined exactly if
   no memtable answers and the table of some flush meets a short key while no later flush has the wanted one.
   */
  method RunThenGet(crc: W.Crc, steps: seq<Step>, key: UserKey, snapshot: nat) returns (r: ReadResult)
    requires |steps| < 0x1_0000_0000 && forall step :: step in steps ==> StepFits(step)
    requires snapshot <= Used(steps)
    ensures snapshot <= MAX_SEQUENCE && LayersOf(steps).flushed <= |WritesOf(steps)|
    ensures !r.Undefined? ==> r == Observed(WritesOf(steps), LayersOf(steps).flushed, key, snapshot)
    ensures r == Promised(WritesOf(steps), key, snapshot)
            <==> !r.Undefined? && !Mangled(WritesOf(steps), LayersOf(steps).flushed, key, snapshot)
    ensures r.Undefined? <==>
              && Effective(WritesOf(steps)[LayersOf(steps).flushed..], key, snapshot).None?
              && D.ShortMetIn(FlushedRuns(steps), key, snapshot)
    ensures r.Undefined? ==> ShortKeys(WritesOf(steps), LayersOf(steps).flushed, key)
    ensures |key| < 8 && OnlyInTables(WritesOf(steps), LayersOf(steps).flushed, key, snapshot) ==> r.Undefined?
  {
    hide D.DBImpl.Valid, Observed, Promised, Shadowed, Mangled, LayersOf, ShortKeys, OnlyInTables, Effective,
         D.ShortMetIn, FlushedRuns;
    Numbered(steps);
    var db := RunSteps(crc, steps);
    r := db.Get(key, Some(snapshot));
    RunNotShadowed(steps, key, snapshot);
  }

  /**
   Restart after whole runs. Recovering the version from the manifest that a run leaves open never aborts. It
   gives back the very version of the run, whose tables hold exactly the flushed writes, if and only if every
   edit survives the log framing. Otherwise it fails, or a table of the run is missing, unnoticed.
   */
  method RunThenRestart(crc: W.Crc, steps: seq<Step>)
    returns (db: D.DBImpl, aborted: bool, state: State, v: V.Levels, last: W.PhysicalResult)
    requires |steps| < 0x1_0000_0000 && forall step :: step in steps ==> StepFits(step)
    requires LayersOf(steps).manifest
    ensures After(db, steps) && fresh(Repr(db)) && db.versions_.descriptor_log != null
    ensures LayersOf(steps).flushed <= |WritesOf(steps)|
    ensures var flushed := WritesOf(steps)[..LayersOf(steps).flushed];
            && (forall w :: w in flushed ==> Fits(w)) && V.VersionOk(db.versions_.nowversion, db.tables)
            && D.Stored(db.versions_.nowversion, db.tables) == Entries(Flushed(Apply(flushed)))
    ensures !aborted && (state == Ok || state == Corruption)
    ensures state == Ok && v == db.versions_.nowversion <==> M.AllSurvive(0, db.versions_.logged)
    ensures state == Ok && !M.AllSurvive(0, db.versions_.logged) ==> VS.Misses(v[0], db.versions_.nowversion[0])
    ensures state == Ok && (last.Eof? || last.Undefined?) ==> M.AllSurvive(0, db.versions_.logged)
    ensures VS.EndsAs(M.ReadsAs(0, M.START, db.versions_.logged), state, v)
  {
    hide D.DBImpl.Valid, LayersOf, M.AllSurvive, M.ReadsAs, StepFits, V.VersionOk, Apply, Flushed, D.Stored, WritesOf,
         VS.VersionSet.Valid,
         B.Saved, B.Chained, M.Usable, M.Storable, VS.Growing, M.Complete;
    db := RunSteps(crc, steps);
    TablesOfRun(db, steps);
    var restarted := new VS.VersionSet(db.versions_.crc);
    aborted, state, v, last := VS.RecoverFromManifest(db.versions_, restarted);
    if M.ReadsAs(0, M.START, db.versions_.logged).Some? {
      VS.GrowingDecides(db.versions_.logged, db.versions_.nowversion[0]);
      NothingAborts(M.ReadsAs(0, M.START, db.versions_.logged).value);
    }
  }

  /** Empty levels do not overlap. */
  lemma NothingAborts(ms: M.ManifestState)
    requires |ms.levels| == M.LEVELS && forall l :: 0 < l < M.LEVELS ==> B.Saved(ms.levels[l]) == []
    ensures !VS.Aborts(ms)
  {
    hide B.Saved;
  }

  lemma TablesOfRun(db: D.DBImpl, steps: seq<Step>)
    requires After(db, steps)
    ensures db.versions_.Valid() && VS.AllUsable(db.versions_.logged)
    ensures db.versions_.descriptor_log != null ==> VS.Growing(M.START, db.versions_.logged, db.versions_.nowversion[0])
    ensures LayersOf(steps).flushed <= |WritesOf(steps)|
    ensures var flushed := WritesOf(steps)[..LayersOf(steps).flushed];
            && (forall w :: w in flushed ==> Fits(w)) && V.VersionOk(db.versions_.nowversion, db.tables)
            && D.Stored(db.versions_.nowversion, db.tables) == Entries(Flushed(Apply(flushed)))
  {
    hide LayersOf, WritesOf, V.VersionOk, D.Stored, D.DBImpl.HistoryOk, D.DBImpl.MemHas, D.DBImpl.ImmOk,
         D.DBImpl.LogHas, VS.Growing;
    assert db.Past()[..|db.inTables|] == db.inTables;
  }
}
