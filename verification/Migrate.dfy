/**
 * server/src/db/migrate.js: several migration runners against one database, interleaved query by
 * query. A runner reads what is applied, waits for the advisory lock, reads again, and commits
 * one file per transaction; it may fail or lose its connection anywhere.
 */
module Migrate {
  import opened Basics

  type File = string
  type RunnerId = nat

  /** Where a runner is. Losing its session drops the lock, so Failed never holds it. */
  datatype Pc =
    | Reading
    | Waiting(pending: seq<File>)
    | Locked(pending: seq<File>)
    | Applying(toRun: seq<File>, next: nat)
    | Finished
    | Reported
    | Failed

  datatype Runner = Runner(files: seq<File>, pc: Pc)

  /** schema_migrations in commit order, the holder of the advisory lock, and the runners. */
  datatype Db = Db(applied: seq<File>, lock: Option<RunnerId>, runners: map<RunnerId, Runner>)

  /** `files.filter((f) => !done.has(f))` */
  function NotIn(files: seq<File>, done: seq<File>): seq<File> {
    if files == [] then []
    else (if files[0] in done then [] else [files[0]]) + NotIn(files[1..], done)
  }

  datatype Action = Read | Report | Acquire | ReRead | Commit | Complete | Fail

  function Moved(db: Db, r: RunnerId, pc: Pc): Db
    requires r in db.runners
  {
    db.(runners := db.runners[r := db.runners[r].(pc := pc)])
  }

  function Unlocked(db: Db, r: RunnerId): Db {
    if db.lock == Some(r) then db.(lock := None) else db
  }

  predicate Enabled(db: Db, r: RunnerId, a: Action) {
    && r in db.runners
    && match a
       case Read => db.runners[r].pc.Reading?
       case Report => db.runners[r].pc.Reading?
       case Acquire => db.runners[r].pc.Waiting? && db.lock.None?
       case ReRead => db.runners[r].pc.Locked?
       case Commit => db.runners[r].pc.Applying? && db.runners[r].pc.next < |db.runners[r].pc.toRun|
       case Complete => db.runners[r].pc.Applying? && db.runners[r].pc.next >= |db.runners[r].pc.toRun|
       case Fail => !(db.runners[r].pc.Finished? || db.runners[r].pc.Reported?)
  }

  function Apply(db: Db, r: RunnerId, a: Action): Db
    requires Enabled(db, r, a)
  {
    var pc := db.runners[r].pc;
    match a
    case Read =>
      var pending := NotIn(db.runners[r].files, db.applied);
      Moved(db, r, if pending == [] then Finished else Waiting(pending))
    case Report => Moved(db, r, Reported)
    case Acquire => Moved(db.(lock := Some(r)), r, Locked(pc.pending))
    case ReRead =>
      var toRun := NotIn(pc.pending, db.applied);
      if toRun == [] then Moved(Unlocked(db, r), r, Finished) else Moved(db, r, Applying(toRun, 0))
    case Commit =>
      // filename is the primary key: a second row for the same file makes the transaction fail.
      if pc.toRun[pc.next] in db.applied then Moved(Unlocked(db, r), r, Failed)
      else Moved(db.(applied := db.applied + [pc.toRun[pc.next]]), r, Applying(pc.toRun, pc.next + 1))
    case Complete => Moved(Unlocked(db, r), r, Finished)
    case Fail => Moved(Unlocked(db, r), r, Failed)
  }

  ghost predicate Next(db: Db, db': Db) {
    exists r, a :: Enabled(db, r, a) && db' == Apply(db, r, a)
  }

  ghost predicate Run(run: seq<Db>) {
    run != [] && forall i :: 0 < i < |run| ==> Next(run[i - 1], run[i])
  }

  /** Runners about to start, each with a list of distinct files; nobody holds the lock. */
  ghost predicate Init(db: Db) {
    && db.lock == None && Distinct(db.applied)
    && forall r :: r in db.runners ==> db.runners[r].pc == Reading && Distinct(db.runners[r].files)
  }

  // ---------------------------------------------------------------- filtering

  lemma {:induction false} NotInMembers(files: seq<File>, done: seq<File>)
    ensures forall f :: f in NotIn(files, done) <==> f in files && f !in done
    ensures Distinct(files) ==> Distinct(NotIn(files, done))
  {
    if files != [] {
      var rest := files[1..];
      NotInMembers(rest, done);
      assert files == [files[0]] + rest;
      if Distinct(files) {
        assert forall i, j :: 0 <= i < j < |rest| ==> rest[i] == files[i + 1] && rest[j] == files[j + 1];
        assert Distinct(rest);
        assert files[0] !in rest;
      }
    }
  }

  /** What is left of a suffix of the list once a prefix of the list is applied. */
  lemma {:induction false} RemainderOfSuffix(files: seq<File>, n: nat, k: nat)
    requires Distinct(files) && k <= n <= |files|
    ensures NotIn(files[k..], files[..n]) == files[n..]
    decreases n - k
  {
    if k < n {
      assert files[k..][0] == files[k] && files[k..][1..] == files[k + 1..];
      assert files[k] in files[..n];
      RemainderOfSuffix(files, n, k + 1);
    } else {
      NothingApplied(files[n..], files[..n]);
    }
  }

  lemma {:induction false} NothingApplied(files: seq<File>, done: seq<File>)
    requires forall f :: f in files ==> f !in done
    ensures NotIn(files, done) == files
  {
    if files != [] {
      assert files[0] in files;
      NothingApplied(files[1..], done);
    }
  }

  // ---------------------------------------------------------------- at most once

  /** What a runner's own state says about the rest. */
  ghost predicate RunnerFits(db: Db, r: RunnerId)
    requires r in db.runners
  {
    && Distinct(db.runners[r].files)
    && match db.runners[r].pc
       case Waiting(pending) => Distinct(pending)
       case Locked(pending) => db.lock == Some(r) && Distinct(pending)
       case Applying(toRun, next) =>
         && db.lock == Some(r) && next <= |toRun| && Distinct(toRun)
         && (forall j :: next <= j < |toRun| ==> toRun[j] !in db.applied)
       case _ => true
  }

  ghost predicate Inv(db: Db) {
    && Distinct(db.applied)
    && (db.lock.Some? ==> db.lock.value in db.runners
                          && (db.runners[db.lock.value].pc.Locked? || db.runners[db.lock.value].pc.Applying?))
    && forall r :: r in db.runners ==> RunnerFits(db, r)
  }

  lemma StepKeepsInv(db: Db, r: RunnerId, a: Action)
    requires Inv(db) && Enabled(db, r, a)
    ensures Inv(Apply(db, r, a))
    ensures db.applied <= Apply(db, r, a).applied
    ensures a == Commit ==> Apply(db, r, a).runners[r].pc.Applying?
  {
    var db' := Apply(db, r, a);
    assert RunnerFits(db, r);
    match a {
      case Read => NotInMembers(db.runners[r].files, db.applied);
      case ReRead => NotInMembers(db.runners[r].pc.pending, db.applied);
      case _ =>
    }
    forall other | other in db'.runners ensures RunnerFits(db', other) {
      assert RunnerFits(db, other);
    }
  }

  lemma {:induction false} RunKeepsInv(run: seq<Db>)
    requires Run(run) && Init(run[0])
    ensures Inv(run[|run| - 1]) && run[0].applied <= run[|run| - 1].applied
    decreases |run|
  {
    var n := |run| - 1;
    if n > 0 {
      RunKeepsInv(run[..n]);
      assert Next(run[n - 1], run[n]);
      var r, a :| Enabled(run[n - 1], r, a) && run[n] == Apply(run[n - 1], r, a);
      StepKeepsInv(run[n - 1], r, a);
    }
  }

  /**
   * Whatever the runners' lists, crashes and failures: every file is committed at most once, what
   * was committed stays, and a runner about to commit never meets the primary key.
   */
  lemma EveryFileCommitsAtMostOnce(run: seq<Db>, r: RunnerId)
    requires Run(run) && Init(run[0])
    ensures Distinct(run[|run| - 1].applied) && run[0].applied <= run[|run| - 1].applied
    ensures Enabled(run[|run| - 1], r, Commit) ==>
              var db := run[|run| - 1];
              Apply(db, r, Commit).applied == db.applied + [db.runners[r].pc.toRun[db.runners[r].pc.next]]
  {
    RunKeepsInv(run);
    var db := run[|run| - 1];
    if Enabled(db, r, Commit) {
      assert RunnerFits(db, r);
    }
  }

  // ---------------------------------------------------------------- always a prefix

  /** Every runner ships this list. */
  ghost predicate SameList(db: Db, files: seq<File>) {
    forall r :: r in db.runners ==> db.runners[r].files == files
  }

  ghost predicate Suffix(s: seq<File>, files: seq<File>, upTo: nat) {
    exists k: nat :: k <= upTo && k <= |files| && s == files[k..]
  }

  /** A runner's remaining work is a suffix of the list; the lock holder's is exactly what is not applied. */
  ghost predicate WorkFits(db: Db, files: seq<File>, r: RunnerId)
    requires r in db.runners && |db.applied| <= |files|
  {
    match db.runners[r].pc
    case Waiting(pending) => Suffix(pending, files, |db.applied|)
    case Locked(pending) => Suffix(pending, files, |db.applied|)
    case Applying(toRun, next) => next <= |toRun| && toRun[next..] == files[|db.applied|..]
    case Finished => |db.applied| == |files|
    case _ => true
  }

  ghost predicate PrefixInv(db: Db, files: seq<File>) {
    && Inv(db) && SameList(db, files) && Distinct(files)
    && db.applied <= files
    && forall r :: r in db.runners ==> WorkFits(db, files, r)
  }

  /** The stepping runner's own work. */
  lemma OwnWork(db: Db, files: seq<File>, r: RunnerId, a: Action)
    requires PrefixInv(db, files) && Enabled(db, r, a)
    ensures var db' := Apply(db, r, a); db'.applied <= files && WorkFits(db', files, r)
    ensures a == Commit ==> |db.applied| < |files| && |Apply(db, r, a).applied| == |db.applied| + 1
  {
    var n := |db.applied|;
    assert RunnerFits(db, r) && WorkFits(db, files, r);
    assert db.applied == files[..n];
    match a {
      case Read =>
        assert files[0..] == files;
        RemainderOfSuffix(files, n, 0);
        assert Suffix(files[n..], files, n);
      case ReRead =>
        var k: nat :| k <= n && k <= |files| && db.runners[r].pc.pending == files[k..];
        RemainderOfSuffix(files, n, k);
        assert files[n..][0..] == files[n..];
      case Commit => CommitTakesTheNext(db, files, r);
      case Complete => assert |db.runners[r].pc.toRun[db.runners[r].pc.next..]| == 0;
      case _ =>
    }
  }

  /** A commit applies the first file of the list that is not applied yet. */
  lemma CommitTakesTheNext(db: Db, files: seq<File>, r: RunnerId)
    requires PrefixInv(db, files) && Enabled(db, r, Commit)
    ensures |db.applied| < |files| && Apply(db, r, Commit).applied == files[..|db.applied| + 1]
    ensures WorkFits(Apply(db, r, Commit), files, r)
  {
    assert RunnerFits(db, r) && WorkFits(db, files, r);
    var n, toRun, next := |db.applied|, db.runners[r].pc.toRun, db.runners[r].pc.next;
    assert toRun[next] == toRun[next..][0] == files[n..][0] == files[n];
    assert toRun[next + 1..] == toRun[next..][1..] == files[n..][1..] == files[n + 1..];
  }

  lemma StepKeepsPrefix(db: Db, files: seq<File>, r: RunnerId, a: Action)
    requires PrefixInv(db, files) && Enabled(db, r, a)
    ensures PrefixInv(Apply(db, r, a), files)
  {
    StepKeepsInv(db, r, a);
    OwnWork(db, files, r, a);
    var db' := Apply(db, r, a);
    forall other | other in db'.runners ensures WorkFits(db', files, other) {
      assert RunnerFits(db, other) && WorkFits(db, files, other);
      assert RunnerFits(db, r);
    }
  }

  lemma {:induction false} RunKeepsPrefix(run: seq<Db>, files: seq<File>)
    requires Run(run) && Init(run[0]) && SameList(run[0], files) && Distinct(files) && run[0].applied <= files
    ensures PrefixInv(run[|run| - 1], files)
    decreases |run|
  {
    var n := |run| - 1;
    if n > 0 {
      RunKeepsPrefix(run[..n], files);
      assert Next(run[n - 1], run[n]);
      var r, a :| Enabled(run[n - 1], r, a) && run[n] == Apply(run[n - 1], r, a);
      StepKeepsPrefix(run[n - 1], files, r, a);
    }
  }

  ghost predicate HasFinished(db: Db, r: RunnerId) {
    r in db.runners && db.runners[r].pc == Finished
  }

  /**
   * With one list shipped to all runners and a prefix of it applied at the start, the applied
   * files are a prefix of it in order in every state, and a runner that finishes normally leaves
   * nothing pending.
   */
  lemma AppliedIsAlwaysAPrefix(run: seq<Db>, files: seq<File>)
    requires Run(run) && Init(run[0]) && SameList(run[0], files) && Distinct(files) && run[0].applied <= files
    ensures run[0].applied <= Last(run).applied <= files
    ensures forall r :: HasFinished(Last(run), r) ==> Last(run).applied == files
  {
    RunKeepsPrefix(run, files);
    RunKeepsInv(run);
    var db := run[|run| - 1];
    forall r | HasFinished(db, r) ensures db.applied == files {
      assert WorkFits(db, files, r);
    }
  }

  // ---------------------------------------------------------------- progress

  /** A runner that neither finished, nor reported, nor failed. */
  predicate Running(db: Db, r: RunnerId) {
    r in db.runners && !db.runners[r].pc.Finished? && !db.runners[r].pc.Reported? && !db.runners[r].pc.Failed?
  }

  /** Nobody else holds the lock. */
  predicate Unhindered(db: Db, r: RunnerId) {
    db.lock.None? || db.lock == Some(r)
  }

  /** The steps of one runner, each enabled when it comes. */
  ghost predicate Feasible(db: Db, r: RunnerId, actions: seq<Action>)
    decreases |actions|
  {
    actions == [] || (Enabled(db, r, actions[0]) && Feasible(Apply(db, r, actions[0]), r, actions[1..]))
  }

  ghost function ApplyAll(db: Db, r: RunnerId, actions: seq<Action>): Db
    requires Feasible(db, r, actions)
    decreases |actions|
  {
    if actions == [] then db else ApplyAll(Apply(db, r, actions[0]), r, actions[1..])
  }

  /** One commit per file not applied yet, and the end. */
  function Commits(n: nat): seq<Action> {
    if n == 0 then [Complete] else [Commit] + Commits(n - 1)
  }

  /** These steps are possible, finish the runner, and leave everything applied and the lock free. */
  ghost predicate Finishes(db: Db, r: RunnerId, actions: seq<Action>, files: seq<File>) {
    && Feasible(db, r, actions)
    && var end := ApplyAll(db, r, actions);
       r in end.runners && end.runners[r].pc == Finished && end.lock == None && end.applied == files
  }

  lemma FinishesAfter(db: Db, r: RunnerId, a: Action, rest: seq<Action>, files: seq<File>)
    requires Enabled(db, r, a) && Finishes(Apply(db, r, a), r, rest, files)
    ensures Finishes(db, r, [a] + rest, files)
  {
    assert ([a] + rest)[1..] == rest;
  }

  lemma FinishesAtOnce(db: Db, r: RunnerId, a: Action, files: seq<File>)
    requires Enabled(db, r, a) && db.applied == files
    requires Apply(db, r, a) == Moved(db.(lock := None), r, Finished)
    ensures Finishes(db, r, [a], files)
  {
    assert [a][1..] == [];
  }

  /** A runner that is applying commits exactly the missing files, one after the other, and finishes. */
  lemma {:induction false} ApplyingRunsThrough(db: Db, files: seq<File>, r: RunnerId)
    requires PrefixInv(db, files) && r in db.runners && db.runners[r].pc.Applying?
    ensures Finishes(db, r, Commits(|files| - |db.applied|), files)
    decreases |files| - |db.applied|
  {
    var pc := db.runners[r].pc;
    assert RunnerFits(db, r) && WorkFits(db, files, r);
    assert |pc.toRun[pc.next..]| == |files[|db.applied|..]|;
    hide Finishes;
    if |db.applied| < |files| {
      StepKeepsPrefix(db, files, r, Commit);
      StepKeepsInv(db, r, Commit);
      CommitTakesTheNext(db, files, r);
      ApplyingRunsThrough(Apply(db, r, Commit), files, r);
      FinishesAfter(db, r, Commit, Commits(|files| - |db.applied| - 1), files);
    } else {
      FinishesAtOnce(db, r, Complete, files);
    }
  }

  /** Once it holds the lock. */
  function AfterLock(missing: nat): seq<Action> {
    [ReRead] + if missing == 0 then [] else Commits(missing)
  }

  /** What a runner does from where it is, if it does not fail. */
  function Rest(pc: Pc, missing: nat): seq<Action> {
    match pc
    case Reading => [Read] + if missing == 0 then [] else [Acquire] + AfterLock(missing)
    case Waiting(_) => [Acquire] + AfterLock(missing)
    case Locked(_) => AfterLock(missing)
    case Applying(_, _) => Commits(missing)
    case _ => []
  }

  /** Reading again under the lock finds exactly what is missing. */
  lemma ReReadFindsTheMissing(db: Db, files: seq<File>, r: RunnerId)
    requires PrefixInv(db, files) && r in db.runners && db.runners[r].pc.Locked?
    ensures |db.applied| <= |files| && (|db.applied| == |files| ==> db.applied == files)
    ensures Apply(db, r, ReRead) == if |db.applied| < |files| then Moved(db, r, Applying(files[|db.applied|..], 0))
                                    else Moved(db.(lock := None), r, Finished)
  {
    var n, pending := |db.applied|, db.runners[r].pc.pending;
    hide NotIn, Distinct;
    assert db.lock == Some(r) by {
      assert RunnerFits(db, r);
    }
    assert Suffix(pending, files, n) by {
      assert WorkFits(db, files, r);
    }
    hide Inv, SameList, WorkFits, RunnerFits;
    assert NotIn(pending, db.applied) == files[n..] by {
      var k: nat :| k <= n && k <= |files| && pending == files[k..];
      assert db.applied == files[..n];
      RemainderOfSuffix(files, n, k);
    }
    hide Suffix;
  }

  lemma LockedRunsThrough(db: Db, files: seq<File>, r: RunnerId)
    requires PrefixInv(db, files) && r in db.runners && db.runners[r].pc.Locked?
    ensures Finishes(db, r, AfterLock(|files| - |db.applied|), files)
  {
    hide Finishes, Commits, Apply;
    StepKeepsPrefix(db, files, r, ReRead);
    ReReadFindsTheMissing(db, files, r);
    hide PrefixInv;
    if |db.applied| < |files| {
      ApplyingRunsThrough(Apply(db, r, ReRead), files, r);
      FinishesAfter(db, r, ReRead, Commits(|files| - |db.applied|), files);
    } else {
      FinishesAtOnce(db, r, ReRead, files);
      assert AfterLock(0) == [ReRead];
    }
  }

  lemma WaitingRunsThrough(db: Db, files: seq<File>, r: RunnerId)
    requires PrefixInv(db, files) && r in db.runners && db.runners[r].pc.Waiting? && db.lock.None?
    ensures Finishes(db, r, [Acquire] + AfterLock(|files| - |db.applied|), files)
  {
    hide Finishes;
    StepKeepsPrefix(db, files, r, Acquire);
    LockedRunsThrough(Apply(db, r, Acquire), files, r);
    FinishesAfter(db, r, Acquire, AfterLock(|files| - |db.applied|), files);
  }

  lemma ReadFindsTheMissing(db: Db, files: seq<File>, r: RunnerId)
    requires PrefixInv(db, files) && r in db.runners && db.runners[r].pc.Reading?
    ensures |db.applied| <= |files| && (|db.applied| == |files| ==> db.applied == files)
    ensures Apply(db, r, Read) == Moved(db, r, if |db.applied| < |files| then Waiting(files[|db.applied|..]) else Finished)
  {
    var n := |db.applied|;
    assert files[0..] == files && db.applied == files[..n];
    RemainderOfSuffix(files, n, 0);
    assert NotIn(db.runners[r].files, db.applied) == files[n..];
    hide NotIn, PrefixInv;
  }

  lemma ReadingRunsThrough(db: Db, files: seq<File>, r: RunnerId)
    requires PrefixInv(db, files) && r in db.runners && db.runners[r].pc.Reading? && db.lock.None?
    ensures Finishes(db, r, Rest(Reading, |files| - |db.applied|), files)
  {
    hide Finishes, AfterLock, Apply;
    StepKeepsPrefix(db, files, r, Read);
    ReadFindsTheMissing(db, files, r);
    hide PrefixInv;
    if |db.applied| < |files| {
      WaitingRunsThrough(Apply(db, r, Read), files, r);
      FinishesAfter(db, r, Read, [Acquire] + AfterLock(|files| - |db.applied|), files);
    } else {
      assert db == db.(lock := None);
      FinishesAtOnce(db, r, Read, files);
      assert Rest(Reading, 0) == [Read];
    }
  }

  lemma HolderIsAtWork(db: Db, r: RunnerId)
    requires Inv(db) && db.lock == Some(r)
    ensures r in db.runners && (db.runners[r].pc.Locked? || db.runners[r].pc.Applying?)
  {
  }

  lemma FinishesFrom(db: Db, files: seq<File>, r: RunnerId)
    requires PrefixInv(db, files) && Running(db, r) && Unhindered(db, r)
    ensures |db.applied| <= |files| && Finishes(db, r, Rest(db.runners[r].pc, |files| - |db.applied|), files)
  {
    if db.lock == Some(r) {
      HolderIsAtWork(db, r);
    }
    assert |db.applied| <= |files|;
    hide Finishes;
    match db.runners[r].pc
    case Reading => ReadingRunsThrough(db, files, r);
    case Waiting(_) => WaitingRunsThrough(db, files, r);
    case Locked(_) => LockedRunsThrough(db, files, r);
    case Applying(_, _) => ApplyingRunsThrough(db, files, r);
    case _ =>
  }

  /**
   * From every reachable state, a runner that is still running and finds the lock free or its own
   * can finish by itself: it reads, waits, reads again and commits exactly the files that are
   * missing, one after the other. Then everything is applied and the lock is free.
   */
  lemma RunnerCanFinish(run: seq<Db>, files: seq<File>, r: RunnerId)
    requires Run(run) && Init(run[0]) && SameList(run[0], files) && Distinct(files) && run[0].applied <= files
    requires Running(Last(run), r) && Unhindered(Last(run), r)
    ensures |Last(run).applied| <= |files|
    ensures Finishes(Last(run), r, Rest(Last(run).runners[r].pc, |files| - |Last(run).applied|), files)
  {
    RunKeepsPrefix(run, files);
    FinishesFrom(Last(run), files, r);
  }

  /** Any running runner may fail at any time: it loses its own lock, and what was committed stays. */
  lemma FailingTakesOwnLock(db: Db, r: RunnerId)
    requires Running(db, r)
    ensures Enabled(db, r, Fail)
    ensures var db' := Apply(db, r, Fail);
            && db'.applied == db.applied && !Running(db', r)
            && db'.lock == (if db.lock == Some(r) then None else db.lock)
            && db'.runners == db.runners[r := Runner(db.runners[r].files, Failed)]
  {
  }

  /** `--status` and `--dry-run` read and are done: nothing is locked or applied. */
  lemma ReportingChangesNothing(db: Db, r: RunnerId)
    requires r in db.runners && db.runners[r].pc == Reading
    ensures Enabled(db, r, Report)
    ensures Apply(db, r, Report) == db.(runners := db.runners[r := Runner(db.runners[r].files, Reported)])
  {
  }

  /** A running runner that does not fail has one way on; it waits only for the lock of another. */
  lemma OneWayOn(db: Db, r: RunnerId, a: Action)
    requires Inv(db) && Running(db, r) && a != Fail && a != Report
    ensures Enabled(db, r, a) <==>
              match db.runners[r].pc
              case Reading => a == Read
              case Waiting(_) => a == Acquire && db.lock.None?
              case Locked(_) => a == ReRead
              case Applying(toRun, next) => a == if next < |toRun| then Commit else Complete
              case _ => false
  {
  }
}
