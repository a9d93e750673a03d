/** The command journal: staged records and working updates, one atomic journal
    commit, and replay from whatever state a crash left behind. */
module Transaction {
  import opened Common
  import opened WorkingTree
  import opened Publication
  import opened WorkingPlan
  import CheckoutPaths

  type Records = map<Path, Bytes>

  datatype Journal = Journal(working: Updates, records: Records)

  /** Everything that survives a crash. */
  datatype Disk = Disk(tree: Tree, meta: Tree, journal: Option<Journal>)

  // ------------------------------------------------------ metadata records

  predicate JsonName(n: Name) {
    |n| > 5 && n[|n| - 5..] == ".json"
  }

  predicate RecordKey(p: Path) {
    && p != []
    && (forall i | 0 <= i < |p| :: p[i] != "" && '/' !in p[i] && p[i] != "." && p[i] != "..")
    && JsonName(p[|p| - 1])
  }

  /** Directories all the way down to a regular file or a free name. */
  predicate CheckPath(meta: Tree, p: Path) {
    p != [] && IsDir(meta, Parent(p)) && (p in meta ==> meta[p].File?)
  }

  ghost predicate RecordsOk(meta: Tree, records: Records) {
    forall r :: r in records ==> RecordKey(r) && CheckPath(meta, r)
  }

  function RecordNode(meta: Tree, r: Path, bytes: Bytes): Node {
    File(bytes, r in meta && meta[r].File? && meta[r].executable)
  }

  function PutRecord(meta: Tree, r: Path, bytes: Bytes): Tree {
    meta[r := RecordNode(meta, r, bytes)]
  }

  /** The metadata directory once every record is published. */
  function FinalMeta(meta: Tree, records: Records): Tree {
    map p | p in meta.Keys + records.Keys :: if p in records then RecordNode(meta, p, records[p]) else meta[p]
  }

  ghost predicate RecordsDone(meta: Tree, records: Records) {
    forall r :: r in records ==> r in meta && meta[r].File? && meta[r].bytes == records[r]
  }

  lemma PutRecordKeepsForm(meta: Tree, r: Path, bytes: Bytes)
    requires WellFormed(meta) && CheckPath(meta, r)
    ensures WellFormed(PutRecord(meta, r, bytes))
  {
    var meta' := PutRecord(meta, r, bytes);
    forall p, q | q in meta' && Under(p, q)
      ensures IsDir(meta', p)
    {
      if q == r { UnderParent(p, r); }
    }
  }

  lemma PutRecordKeepsOk(meta: Tree, records: Records, r: Path)
    requires RecordsOk(meta, records) && r in records
    ensures RecordsOk(PutRecord(meta, r, records[r]), records)
  {
  }

  /** All records but those in `rest` are published. */
  ghost predicate RecordsLeft(meta: Tree, records: Records, rest: set<Path>) {
    && WellFormed(meta) && RecordsOk(meta, records)
    && forall r :: r in records && r !in rest ==> r in meta && meta[r].File? && meta[r].bytes == records[r]
  }

  lemma PutOneRecord(meta: Tree, records: Records, rest: set<Path>, r: Path)
    requires RecordsLeft(meta, records, rest) && r in records
    ensures RecordsLeft(PutRecord(meta, r, records[r]), records, rest - {r})
  {
    PutRecordKeepsForm(meta, r, records[r]);
    PutRecordKeepsOk(meta, records, r);
  }

  lemma PutRecordKeepsFinal(meta: Tree, records: Records, r: Path)
    requires r in records
    ensures FinalMeta(PutRecord(meta, r, records[r]), records) == FinalMeta(meta, records)
  {
    var meta' := PutRecord(meta, r, records[r]);
    var a, b := FinalMeta(meta', records), FinalMeta(meta, records);
    assert a.Keys == b.Keys;
    forall p | p in a
      ensures a[p] == b[p]
    {
      assert p != r ==> (p in meta' <==> p in meta);
    }
  }

  lemma RecordsDoneIsFinal(meta: Tree, records: Records)
    requires RecordsDone(meta, records)
    ensures FinalMeta(meta, records) == meta
  {
    assert FinalMeta(meta, records).Keys == meta.Keys;
  }

  // ------------------------------------------------------- overlay views

  /** A regular file below directories, under a record's name. */
  predicate IsRecordFile(meta: Tree, p: Path) {
    RecordKey(p) && IsDir(meta, Parent(p)) && p in meta && meta[p].File?
  }

  predicate InDirectory(p: Path, d: Path) {
    p != [] && Parent(p) == d
  }

  /** The record a metadata tree holds at a path. */
  ghost function RecordAt(meta: Tree, p: Path): Option<Bytes> {
    if RecordKey(p) && CheckPath(meta, p) && p in meta then Some(meta[p].bytes) else None
  }

  function JsonEntries(meta: Tree, dir: Path): set<Path> {
    set p | p in Children(meta, dir) && JsonName(p[|p| - 1])
  }

  /** The records a metadata tree holds directly in a directory. */
  ghost function RecordsIn(meta: Tree, dir: Path): Option<set<Path>> {
    if IsDir(meta, dir) then Some(JsonEntries(meta, dir)) else None
  }

  function StagedIn(pending: Records, dir: Path): set<Path> {
    set p | p in pending && p != [] && Parent(p) == dir
  }

  lemma EntriesAfter(meta: Tree, pending: Records, dir: Path)
    requires RecordsOk(meta, pending)
    ensures JsonEntries(FinalMeta(meta, pending), dir) == JsonEntries(meta, dir) + StagedIn(pending, dir)
  {
    var meta' := FinalMeta(meta, pending);
    forall p | p in pending
      ensures p in JsonEntries(meta', dir) <==> p in StagedIn(pending, dir)
    {
      assert RecordKey(p);
      assert |p| == |dir| + 1 && Under(dir, p) <==> Parent(p) == dir;
    }
  }

  lemma NothingStaged(meta: Tree)
    ensures FinalMeta(meta, map[]) == meta
  {
  }

  // --------------------------------------------- the recovery state machine

  /** What recovery validates before it publishes anything. */
  ghost predicate Recoverable(fold: Name -> Name, d: Disk) {
    d.journal.Some? ==>
      && Validated(fold, d.tree, d.journal.value.working)
      && WellFormed(d.meta) && RecordsOk(d.meta, d.journal.value.records)
  }

  datatype Move = Work(s: Step) | Record(r: Path) | Clear

  ghost predicate Allowed(d: Disk, m: Move) {
    && d.journal.Some?
    && var j := d.journal.value;
       match m
       case Work(s) => Enabled(d.tree, j.working, s)
       case Record(r) => WorkDone(d.tree, j.working) && r in j.records && CheckPath(d.meta, r)
       case Clear => WorkDone(d.tree, j.working) && RecordsDone(d.meta, j.records)
  }

  ghost function Moved(d: Disk, m: Move): Disk
    requires Allowed(d, m)
  {
    var j := d.journal.value;
    match m
    case Work(s) => d.(tree := Apply(d.tree, j.working, s))
    case Record(r) => d.(meta := PutRecord(d.meta, r, j.records[r]))
    case Clear => d.(journal := None)
  }

  ghost predicate MoveBetween(d: Disk, d': Disk) {
    exists m :: Allowed(d, m) && d' == Moved(d, m)
  }

  /** Any interleaving of publication moves with crashes and restarts: a crash
      changes nothing on disk, so it is a pause between two moves. */
  ghost predicate IsDiskRun(run: seq<Disk>) {
    run != [] && forall i :: 0 < i < |run| ==> MoveBetween(run[i - 1], run[i])
  }

  ghost predicate DiskReaches(d: Disk, d': Disk) {
    exists run :: IsDiskRun(run) && run[0] == d && run[|run| - 1] == d'
  }

  /** How every disk on the way relates to the disk the journal was committed on. */
  ghost predicate OnTheWay(fold: Name -> Name, d0: Disk, d: Disk)
    requires d0.journal.Some?
  {
    var j := d0.journal.value;
    && WellFormed(d.tree) && Untouched(d0.tree, d.tree, j.working)
    && (d.journal == d0.journal || d.journal == None)
    && (d.journal.Some? ==>
          && Recoverable(fold, d)
          && SameFinal(d0.tree, d.tree, j.working)
          && FinalMeta(d.meta, j.records) == FinalMeta(d0.meta, j.records)
          && (d.meta == d0.meta || WorkDone(d.tree, j.working)))
    && (d.journal.None? ==>
          && IsFinal(d0.tree, j.working, d.tree)
          && d.meta == FinalMeta(d0.meta, j.records))
  }

  lemma UntouchedTrans(t: Tree, m: Tree, t': Tree, u: Updates)
    requires Untouched(t, m, u) && Untouched(m, t', u)
    ensures Untouched(t, t', u)
  {
    forall p | IsLeaf(t, p) && p !in u
      ensures p in t' && t'[p] == t[p]
    {
      assert IsLeaf(m, p);
    }
  }

  lemma WorkStays(fold: Name -> Name, d0: Disk, d: Disk, s: Step)
    requires d0.journal.Some? && OnTheWay(fold, d0, d) && Allowed(d, Work(s))
    ensures OnTheWay(fold, d0, Moved(d, Work(s)))
  {
    var u := d0.journal.value.working;
    StepKeepsValidated(fold, d.tree, u, s);
    StepKeepsFinal(fold, d.tree, u, s);
    StepUntouched(d.tree, u, s);
    UntouchedTrans(d0.tree, d.tree, Apply(d.tree, u, s), u);
    forall p
      ensures FinalAt(d0.tree, u, p) == FinalAt(Apply(d.tree, u, s), u, p)
    {
      assert FinalAt(d0.tree, u, p) == FinalAt(d.tree, u, p);
    }
    NothingDueWhenDone(d.tree, u, s);
  }

  lemma NothingDueWhenDone(t: Tree, u: Updates, s: Step)
    requires Enabled(t, u, s)
    ensures !WorkDone(t, u)
  {
    var k := if s.DeleteLeaf? then s.k else s.c;
    assert Due(t, u, k);
  }

  lemma ClearFinishes(fold: Name -> Name, d0: Disk, d: Disk)
    requires d0.journal.Some? && OnTheWay(fold, d0, d) && Allowed(d, Clear)
    ensures OnTheWay(fold, d0, Moved(d, Clear))
  {
    var j := d0.journal.value;
    DoneIsFinal(fold, d.tree, j.working);
    RecordsDoneIsFinal(d.meta, j.records);
    forall p
      ensures NodeAt(d.tree, p) == FinalAt(d0.tree, j.working, p)
    {
      assert FinalAt(d0.tree, j.working, p) == FinalAt(d.tree, j.working, p);
    }
  }

  lemma MoveStays(fold: Name -> Name, d0: Disk, d: Disk, m: Move)
    requires d0.journal.Some? && OnTheWay(fold, d0, d) && Allowed(d, m)
    ensures OnTheWay(fold, d0, Moved(d, m))
  {
    match m
    case Work(s) => WorkStays(fold, d0, d, s);
    case Record(r) =>
      PutRecordKeepsForm(d.meta, r, d0.journal.value.records[r]);
      PutRecordKeepsOk(d.meta, d0.journal.value.records, r);
      PutRecordKeepsFinal(d.meta, d0.journal.value.records, r);
    case Clear => ClearFinishes(fold, d0, d);
  }

  /** Crash convergence.  From a committed journal, whatever moves happen and
      wherever the crashes fall: recovery would still validate, untracked leaves
      are intact, a changed record means the working files are complete, and once
      the journal is gone both trees are the ones fixed at commit. */
  lemma {:induction false} CrashConvergence(fold: Name -> Name, run: seq<Disk>)
    requires IsDiskRun(run) && run[0].journal.Some? && Recoverable(fold, run[0])
    ensures OnTheWay(fold, run[0], run[|run| - 1])
  {
    if |run| > 1 {
      var init := run[..|run| - 1];
      CrashConvergence(fold, init);
      var d := init[|init| - 1];
      assert MoveBetween(d, run[|run| - 1]);
      var m :| Allowed(d, m) && run[|run| - 1] == Moved(d, m);
      MoveStays(fold, run[0], d, m);
    }
  }

  /** Two histories of one journal, however they crashed, end on the same disk. */
  lemma SameOutcome(fold: Name -> Name, a: seq<Disk>, b: seq<Disk>)
    requires IsDiskRun(a) && IsDiskRun(b) && a[0] == b[0]
    requires a[0].journal.Some? && Recoverable(fold, a[0])
    requires a[|a| - 1].journal.None? && b[|b| - 1].journal.None?
    ensures a[|a| - 1] == b[|b| - 1]
  {
    CrashConvergence(fold, a);
    CrashConvergence(fold, b);
    FinalIsUnique(a[0].tree, a[0].journal.value.working, a[|a| - 1].tree, b[|b| - 1].tree);
  }

  lemma DiskReachesSelf(d: Disk)
    ensures DiskReaches(d, d)
  {
    assert IsDiskRun([d]);
  }

  lemma DiskReachesMove(d: Disk, m: Disk, move: Move)
    requires DiskReaches(d, m) && Allowed(m, move)
    ensures DiskReaches(d, Moved(m, move))
  {
    var run :| IsDiskRun(run) && run[0] == d && run[|run| - 1] == m;
    var run' := run + [Moved(m, move)];
    assert MoveBetween(m, Moved(m, move));
    assert IsDiskRun(run') by {
      forall i | 0 < i < |run'|
        ensures MoveBetween(run'[i - 1], run'[i])
      {
        if i < |run| { assert MoveBetween(run[i - 1], run[i]); }
      }
    }
  }

  /** A run of working steps is a run of the disk. */
  lemma {:induction false} WorkRunIsDiskRun(d: Disk, trees: seq<Tree>)
    requires d.journal.Some? && IsRun(d.journal.value.working, trees) && trees[0] == d.tree
    ensures DiskReaches(d, d.(tree := trees[|trees| - 1]))
  {
    if |trees| == 1 {
      DiskReachesSelf(d);
    } else {
      var u := d.journal.value.working;
      var init := trees[..|trees| - 1];
      WorkRunIsDiskRun(d, init);
      var m := d.(tree := init[|init| - 1]);
      assert StepBetween(u, m.tree, trees[|trees| - 1]);
      var s :| Enabled(m.tree, u, s) && trees[|trees| - 1] == Apply(m.tree, u, s);
      DiskReachesMove(d, m, Work(s));
    }
  }

  lemma WorkReaches(d: Disk, t: Tree)
    requires d.journal.Some? && Reaches(d.journal.value.working, d.tree, t)
    ensures DiskReaches(d, d.(tree := t))
  {
    var run :| IsRun(d.journal.value.working, run) && run[0] == d.tree && run[|run| - 1] == t;
    WorkRunIsDiskRun(d, run);
  }

  lemma ReachedIsOnTheWay(fold: Name -> Name, d0: Disk, d: Disk)
    requires d0.journal.Some? && Recoverable(fold, d0) && DiskReaches(d0, d)
    ensures OnTheWay(fold, d0, d)
  {
    var run :| IsDiskRun(run) && run[0] == d0 && run[|run| - 1] == d;
    CrashConvergence(fold, run);
  }

  // ------------------------------------------------ the command transaction

  class CommandTransaction {
    const dir: WorkingDirectory
    const fold: Name -> Name
    var meta: Tree
    var journal: Option<Journal>
    var pending: Records
    var working: Updates

    /** Attaches to a disk with nothing staged; opening goes on to `Recover`. */
    constructor (dir: WorkingDirectory, fold: Name -> Name, meta: Tree, journal: Option<Journal>)
      ensures this.dir == dir && this.fold == fold && this.meta == meta && this.journal == journal
      ensures pending == map[] && working == map[]
    {
      this.dir, this.fold, this.meta, this.journal := dir, fold, meta, journal;
      pending, working := map[], map[];
    }

    function OnDisk(): Disk
      reads this, dir
    {
      Disk(dir.tree, meta, journal)
    }

    /** The trees are trees, and every staged record still passes its checks. */
    ghost predicate Valid()
      reads this, dir
    {
      WellFormed(dir.tree) && WellFormed(meta) && RecordsOk(meta, pending)
    }

    /** The staged bytes, otherwise the record file's own: what publishing everything
        staged would leave at the path. */
    method Read(p: Path) returns (bytes: Option<Bytes>)
      requires Valid()
      ensures p in pending ==> bytes == Some(pending[p])
      ensures p !in pending && IsRecordFile(meta, p) ==> bytes == Some(meta[p].bytes)
      ensures p !in pending && !IsRecordFile(meta, p) ==> bytes.None?
      ensures bytes == RecordAt(FinalMeta(meta, pending), p)
    {
      if !RecordKey(p) { return None; }
      if p in pending { return Some(pending[p]); }
      if !CheckPath(meta, p) || p !in meta { return None; }
      return Some(meta[p].bytes);
    }

    method Stage(p: Path, bytes: Bytes) returns (ok: bool)
      requires Valid()
      modifies this`pending
      ensures Valid()
      ensures ok <==> RecordKey(p) && CheckPath(meta, p)
      ensures pending == if ok then old(pending)[p := bytes] else old(pending)
    {
      if !RecordKey(p) || !CheckPath(meta, p) { return false; }
      pending := pending[p := bytes];
      return true;
    }

    /** The record files and staged records directly in `d`: what publishing everything
        staged would leave there. */
    method List(d: Path) returns (paths: Option<set<Path>>)
      requires Valid()
      ensures paths.Some? <==> IsDir(meta, d)
      ensures paths.Some? ==> forall p :: p in paths.value <==> InDirectory(p, d) && (p in pending || (p in meta && JsonName(p[|p| - 1])))
      ensures paths == RecordsIn(FinalMeta(meta, pending), d)
    {
      forall p { ParentIsChild(meta, d, p); }
      EntriesAfter(meta, pending, d);
      if !IsDir(meta, d) { return None; }
      return Some(JsonEntries(meta, d) + StagedIn(pending, d));
    }

    method StageWorking(k: Path, u: Update) returns (ok: bool)
      modifies this`working
      ensures ok <==> ValidKey(k) && (u.afterSymlink == Some(true) ==> ValidLink(u.after))
      ensures working == if ok then old(working)[k := u] else old(working)
    {
      if !ValidKey(k) || (u.afterSymlink == Some(true) && !ValidLink(u.after)) { return false; }
      working := working[k := u];
      return true;
    }

    /** The checks on a set of updates; `strict` accepts only before states. */
    method Check(u: Updates, strict: bool) returns (ok: bool)
      requires WellFormed(dir.tree)
      ensures !strict ==> (ok <==> Validated(fold, dir.tree, u))
      ensures strict && ok ==> Validated(fold, dir.tree, u)
      ensures strict ==> (ok <==> Committable(fold, dir.tree, u))
    {
      var plan := PlanOf(u);
      ok := CheckoutPaths.ValidateShape(fold, plan);
      if !ok { return; }
      ok := CheckoutPaths.ValidateExisting(fold, dir.tree, plan);
      if !ok { return; }
      ok := CheckoutPaths.ValidateUpdates(u);
      if !ok { return; }
      var rest := u.Keys;
      while rest != {}
        invariant rest <= u.Keys
        invariant forall k :: k in u && k !in rest ==> KeyAccepted(dir.tree, u, k, strict)
      {
        var k :| k in rest;
        var current := dir.ReadCurrent(plan, k);
        if current.None? { return false; }
        if !current.value.MatchesBefore(u[k]) && (strict || !current.value.MatchesAfter(u[k])) { return false; }
        rest := rest - {k};
      }
      return true;
    }

    method RecordsFit(records: Records) returns (ok: bool)
      ensures ok <==> RecordsOk(meta, records)
    {
      var rest := records.Keys;
      while rest != {}
        invariant rest <= records.Keys
        invariant forall r :: r in records && r !in rest ==> RecordKey(r) && CheckPath(meta, r)
      {
        var r :| r in rest;
        if !RecordKey(r) || !CheckPath(meta, r) { return false; }
        rest := rest - {r};
      }
      return true;
    }

    method PublishRecords(hook: CrashHook) returns (o: Outcome)
      requires journal.Some? && WellFormed(meta) && RecordsOk(meta, journal.value.records)
      requires WorkDone(dir.tree, journal.value.working)
      modifies this`meta, hook
      ensures WellFormed(meta) && DiskReaches(old(OnDisk()), OnDisk())
      ensures !o.Refused?
      ensures o.Done? ==> RecordsDone(meta, journal.value.records)
      ensures old(hook.fuel).None? ==> o.Done?
    {
      var records := journal.value.records;
      DiskReachesSelf(OnDisk());
      var rest := records.Keys;
      while rest != {}
        invariant rest <= records.Keys
        invariant RecordsLeft(meta, records, rest) && DiskReaches(old(OnDisk()), OnDisk())
        invariant old(hook.fuel).None? ==> hook.fuel.None?
      {
        var r :| r in rest;
        DiskReachesMove(old(OnDisk()), OnDisk(), Record(r));
        PutOneRecord(meta, records, rest, r);
        meta := PutRecord(meta, r, records[r]);
        rest := rest - {r};
        var alive := hook.Fire();
        if !alive { return Crashed; }
      }
      return Done;
    }

    /** Validates the whole journal, then publishes it, then clears it. */
    method Recover(hook: CrashHook) returns (o: Outcome)
      requires WellFormed(dir.tree) && WellFormed(meta)
      modifies this`meta, this`journal, dir, hook
      ensures WellFormed(dir.tree) && WellFormed(meta)
      ensures o.Refused? <==> !Recoverable(fold, old(OnDisk()))
      ensures o.Refused? ==> OnDisk() == old(OnDisk())
      ensures DiskReaches(old(OnDisk()), OnDisk())
      ensures o.Done? ==> journal.None?
      ensures old(hook.fuel).None? ==> !o.Crashed?
    {
      DiskReachesSelf(OnDisk());
      if journal.None? { return Done; }
      var j := journal.value;
      var sound := Check(j.working, false);
      if !sound { return Refused; }
      var fits := RecordsFit(j.records);
      if !fits { return Refused; }
      o := dir.Publish(j.working, hook, fold);
      WorkReaches(old(OnDisk()), dir.tree);
      if !o.Done? { return; }
      ghost var d1 := OnDisk();
      o := PublishRecords(hook);
      DiskReachesTrans(old(OnDisk()), d1, OnDisk());
      if !o.Done? { return; }
      DiskReachesMove(old(OnDisk()), OnDisk(), Clear);
      journal := None;
    }

    /** Checks, journals and publishes everything staged. */
    method Commit(hook: CrashHook) returns (o: Outcome)
      requires Valid()
      modifies this, dir, hook
      ensures WellFormed(dir.tree) && WellFormed(meta)
      ensures o.Refused? <==> (old(pending) != map[] || old(working) != map[])
                              && (old(journal).Some? || !Committable(fold, old(dir.tree), old(working)))
      ensures o.Refused? ==> OnDisk() == old(OnDisk()) && pending == old(pending) && working == old(working)
      ensures old(journal).None? && o.Done? ==>
        && journal.None? && IsFinal(old(dir.tree), old(working), dir.tree)
        && meta == FinalMeta(old(meta), old(pending))
      ensures old(journal).None? && o.Crashed? ==>
        OnTheWay(fold, Disk(old(dir.tree), old(meta), Some(Journal(old(working), old(pending)))), OnDisk())
      ensures old(hook.fuel).None? ==> !o.Crashed?
    {
      if pending == map[] && working == map[] {
        return Done;
      }
      var sound := Check(working, true);
      if !sound { return Refused; }
      if journal.Some? { return Refused; }
      journal := Some(Journal(working, pending));
      ghost var d0 := OnDisk();
      pending, working := map[], map[];
      o := Recover(hook);
      ReachedIsOnTheWay(fold, d0, OnDisk());
    }
  }

  ghost predicate KeyAccepted(t: Tree, u: Updates, k: Path, strict: bool) {
    && k in u
    && (IsBefore(CurrentAt(t, PlanOf(u), k), u[k])
        || (!strict && Finished(t, u, k)))
  }

  /** What commit demands before it writes the journal. */
  ghost predicate Committable(fold: Name -> Name, t: Tree, u: Updates) {
    && ShapeOk(fold, PlanOf(u)) && ExistingOk(fold, t, PlanOf(u)) && ValidUpdates(u)
    && forall k :: k in u ==> KeyAccepted(t, u, k, true)
  }

  lemma DiskReachesTrans(d: Disk, m: Disk, d': Disk)
    requires DiskReaches(d, m) && DiskReaches(m, d')
    ensures DiskReaches(d, d')
  {
    var a :| IsDiskRun(a) && a[0] == d && a[|a| - 1] == m;
    var b :| IsDiskRun(b) && b[0] == m && b[|b| - 1] == d';
    var run := a + b[1..];
    assert IsDiskRun(run) by {
      forall i | 0 < i < |run|
        ensures MoveBetween(run[i - 1], run[i])
      {
        if i < |a| {
          assert MoveBetween(a[i - 1], a[i]);
        } else {
          assert run[i] == b[i - |a| + 1] && run[i - 1] == b[i - |a|];
          assert MoveBetween(b[i - |a|], b[i - |a| + 1]);
        }
      }
    }
  }

  /** Opening the repository again and again, crashing after a given number of steps
      each time, and at last once without a crash: whatever the crashes were, the
      committed journal is published in full and gone. */
  method Reopen(tx: CommandTransaction, crashes: seq<nat>)
    requires WellFormed(tx.dir.tree) && WellFormed(tx.meta) && tx.journal.Some? && Recoverable(tx.fold, tx.OnDisk())
    modifies tx`meta, tx`journal, tx.dir
    ensures tx.journal.None?
    ensures IsFinal(old(tx.dir.tree), old(tx.journal).value.working, tx.dir.tree)
    ensures tx.meta == FinalMeta(old(tx.meta), old(tx.journal).value.records)
  {
    ghost var d0 := tx.OnDisk();
    DiskReachesSelf(d0);
    for i := 0 to |crashes|
      invariant WellFormed(tx.dir.tree) && WellFormed(tx.meta) && DiskReaches(d0, tx.OnDisk())
    {
      var hook := new CrashHook(Some(crashes[i]));
      ghost var d := tx.OnDisk();
      var o := tx.Recover(hook);
      DiskReachesTrans(d0, d, tx.OnDisk());
    }
    ReachedIsOnTheWay(tx.fold, d0, tx.OnDisk());
    var hook := new CrashHook(None);
    ghost var d := tx.OnDisk();
    var o := tx.Recover(hook);
    DiskReachesTrans(d0, d, tx.OnDisk());
    ReachedIsOnTheWay(tx.fold, d0, tx.OnDisk());
  }

  // ------------------------------------------------------ the overlay, end to end

  /** What a transaction shows at some paths: the record, and the listing. */
  datatype Shown = Shown(bytes: Option<Bytes>, listing: Option<set<Path>>)

  method Show(tx: CommandTransaction, at: seq<Path>) returns (r: seq<Shown>)
    requires tx.Valid()
    ensures |r| == |at|
    ensures forall i :: 0 <= i < |at| ==>
      r[i] == Shown(RecordAt(FinalMeta(tx.meta, tx.pending), at[i]), RecordsIn(FinalMeta(tx.meta, tx.pending), at[i]))
  {
    r := [];
    for i := 0 to |at|
      invariant |r| == i
      invariant forall j :: 0 <= j < i ==>
        r[j] == Shown(RecordAt(FinalMeta(tx.meta, tx.pending), at[j]), RecordsIn(FinalMeta(tx.meta, tx.pending), at[j]))
    {
      var bytes := tx.Read(at[i]);
      var listing := tx.List(at[i]);
      r := r + [Shown(bytes, listing)];
    }
  }

  lemma ParentIsChild(meta: Tree, d: Path, p: Path)
    ensures p in Children(meta, d) <==> p in meta && InDirectory(p, d)
  {
  }

  /** What was staged is read back at once, and no other path reads differently. */
  method StageThenRead(tx: CommandTransaction, p: Path, bytes: Bytes, q: Path)
    returns (ok: bool, before: Option<Bytes>, mine: Option<Bytes>, after: Option<Bytes>)
    requires tx.Valid()
    modifies tx`pending
    ensures ok ==> mine == Some(bytes)
    ensures !ok || q != p ==> after == before
  {
    before := tx.Read(q);
    ok := tx.Stage(p, bytes);
    mine := tx.Read(p);
    after := tx.Read(q);
  }

  lemma OneMore(before: set<Path>, after: set<Path>, p: Path, added: bool)
    requires forall q :: q in after <==> q in before || (added && q == p)
    ensures after == if added then before + {p} else before
  {
  }

  /** A staged record appears in the listing of its directory and in no other. */
  method StageThenList(tx: CommandTransaction, p: Path, bytes: Bytes, d: Path)
    returns (ok: bool, before: Option<set<Path>>, after: Option<set<Path>>)
    requires tx.Valid()
    modifies tx`pending
    ensures before.Some? <==> after.Some?
    ensures ok && InDirectory(p, d) ==> before.Some? && after.Some? && after.value == before.value + {p}
    ensures !ok || !InDirectory(p, d) ==> after == before
  {
    before := tx.List(d);
    ok := tx.Stage(p, bytes);
    after := tx.List(d);
    if before.Some? { OneMore(before.value, after.value, p, ok && InDirectory(p, d)); }
  }

  /** Any stage calls, then a commit that succeeds: a fresh transaction on that disk
      reads and lists exactly what the old one showed before it committed. */
  method StageCommitReopen(tx: CommandTransaction, staged: seq<(Path, Bytes)>, at: seq<Path>, hook: CrashHook)
    returns (before: seq<Shown>, o: Outcome, after: seq<Shown>)
    requires tx.Valid() && tx.journal.None?
    modifies tx, tx.dir, hook
    ensures o.Done? ==> before == after && |after| == |at|
  {
    for i := 0 to |staged|
      invariant tx.Valid() && tx.journal.None?
    {
      var ok := tx.Stage(staged[i].0, staged[i].1);
    }
    before := Show(tx, at);
    ghost var meta' := FinalMeta(tx.meta, tx.pending);
    o := tx.Commit(hook);
    var reopened := new CommandTransaction(tx.dir, tx.fold, tx.meta, tx.journal);
    after := Show(reopened, at);
    NothingStaged(tx.meta);
    if o.Done? {
      assert tx.meta == meta';
    }
  }
}
