/**
 * server/src/courses/PrerequisiteResolver.js: which modules one learner may open right now, and
 * what the Continue button opens next.
 */
module PrerequisiteResolver {
  import opened Basics
  import opened Walks
  import opened CurriculumGraph

  type LessonId = string

  datatype Kind = Quiz | Other

  datatype Lesson = Lesson(id: LessonId, kind: Kind, draft: bool, preview: bool, passPercent: Option<int>)

  datatype CourseModule = CourseModule(id: ModuleId, lessons: seq<Lesson>)

  datatype Course = Course(modules: seq<CourseModule>, edges: seq<Edge>)

  datatype Status = NotStarted | InProgress | Completed

  datatype LessonProgress = LessonProgress(status: Status, score: Option<int>)

  /** One learner's progress by lesson. */
  type Progress = map<LessonId, LessonProgress>

  const DEFAULT_PASS_PERCENT := 70

  // ---------------------------------------------------------------- one module

  predicate Done(p: Progress, l: Lesson) {
    l.id in p && p[l.id].status == Completed
  }

  function Threshold(l: Lesson): int {
    if l.passPercent.Some? then l.passPercent.value else DEFAULT_PASS_PERCENT
  }

  /** The learner's score, or -1 without one, reaches the lesson's threshold. */
  predicate QuizPassed(p: Progress, l: Lesson) {
    var score := if l.id in p && p[l.id].score.Some? then p[l.id].score.value else -1;
    score >= Threshold(l)
  }

  /** A recorded score passes from the lesson's own percentage on, or from 70; no score passes only a negative one. */
  lemma QuizPassedByScore(p: Progress, l: Lesson)
    ensures l.id in p && p[l.id].score.Some? && l.passPercent.Some? ==>
              (QuizPassed(p, l) <==> p[l.id].score.value >= l.passPercent.value)
    ensures l.id in p && p[l.id].score.Some? && l.passPercent.None? ==> (QuizPassed(p, l) <==> p[l.id].score.value >= 70)
    ensures l.id !in p || p[l.id].score.None? ==> (QuizPassed(p, l) <==> l.passPercent.Some? && l.passPercent.value <= -1)
  {
  }

  /** Every lesson that counts is completed. */
  predicate ModuleComplete(p: Progress, lessons: seq<Lesson>) {
    forall l :: l in lessons && !l.draft ==> Done(p, l)
  }

  /** Complete, and every quiz that counts is passed. */
  predicate ModulePassed(p: Progress, lessons: seq<Lesson>) {
    ModuleComplete(p, lessons) && forall l :: l in lessons && !l.draft && l.kind == Quiz ==> QuizPassed(p, l)
  }

  datatype Completion = Completion(complete: bool, passed: bool, done: nat, total: nat)

  function Countable(lessons: seq<Lesson>): seq<Lesson> {
    if lessons == [] then []
    else (if lessons[0].draft then [] else [lessons[0]]) + Countable(lessons[1..])
  }

  lemma {:induction false} CountableMembers(lessons: seq<Lesson>)
    ensures forall l :: l in Countable(lessons) <==> l in lessons && !l.draft
  {
    if lessons != [] {
      CountableMembers(lessons[1..]);
      assert lessons == [lessons[0]] + lessons[1..];
    }
  }

  /** How many of the first lessons are completed. */
  ghost function DoneAmong(p: Progress, lessons: seq<Lesson>, bound: nat): (n: nat)
    requires bound <= |lessons|
    ensures n <= bound && (n == bound <==> forall i :: 0 <= i < bound ==> Done(p, lessons[i]))
  {
    if bound == 0 then 0
    else DoneAmong(p, lessons, bound - 1) + if Done(p, lessons[bound - 1]) then 1 else 0
  }

  lemma CountableDecide(p: Progress, lessons: seq<Lesson>, counted: seq<Lesson>)
    requires counted == Countable(lessons)
    ensures ModuleComplete(p, lessons) <==> forall i :: 0 <= i < |counted| ==> Done(p, counted[i])
    ensures ModulePassed(p, lessons) <==>
              && ModuleComplete(p, lessons)
              && forall i :: 0 <= i < |counted| && counted[i].kind == Quiz ==> QuizPassed(p, counted[i])
  {
    CountableMembers(lessons);
    forall i | 0 <= i < |counted| ensures counted[i] in lessons && !counted[i].draft {
      assert counted[i] in counted;
    }
    forall l | l in lessons && !l.draft ensures exists i :: 0 <= i < |counted| && counted[i] == l {
      assert l in counted;
    }
  }

  /** The counters of moduleCompletion decide completion and passing exactly. */
  method ModuleCompletion(m: CourseModule, p: Progress) returns (c: Completion)
    ensures c.complete == ModuleComplete(p, m.lessons)
    ensures c.passed == ModulePassed(p, m.lessons)
    ensures c.total == |Countable(m.lessons)|
    ensures c.done == DoneAmong(p, Countable(m.lessons), c.total)
  {
    hide Done, QuizPassed, ModuleComplete, ModulePassed;
    var lessons := Countable(m.lessons);
    CountableDecide(p, m.lessons, lessons);
    if |lessons| == 0 {
      return Completion(true, true, 0, 0);
    }
    var done, quizzes, quizzesPassed := 0, 0, 0;
    for k := 0 to |lessons|
      invariant done == DoneAmong(p, lessons, k)
      invariant quizzesPassed <= quizzes
      invariant quizzesPassed == quizzes <==>
                forall i :: 0 <= i < k && lessons[i].kind == Quiz ==> QuizPassed(p, lessons[i])
    {
      var lesson := lessons[k];
      if Done(p, lesson) {
        done := done + 1;
      }
      if lesson.kind == Quiz {
        quizzes := quizzes + 1;
        if QuizPassed(p, lesson) {
          quizzesPassed := quizzesPassed + 1;
        }
      }
    }
    c := Completion(done == |lessons|, done == |lessons| && quizzesPassed == quizzes, done, |lessons|);
  }

  // ---------------------------------------------------------------- the whole course

  function Ids(modules: seq<CourseModule>): seq<ModuleId> {
    seq(|modules|, i requires 0 <= i < |modules| => modules[i].id)
  }

  /** The prerequisite module exists and is finished, or passed where the edge asks for that. */
  predicate Met(c: Course, p: Progress, e: Edge) {
    exists m :: m in c.modules && m.id == e.from
             && (if e.requirement == Pass then ModulePassed(p, m.lessons) else ModuleComplete(p, m.lessons))
  }

  function MissingEdges(c: Course, p: Progress, id: ModuleId, edges: seq<Edge>): (missing: seq<Edge>)
    ensures forall e :: e in missing <==> e in edges && e.to == id && !Met(c, p, e)
  {
    if edges == [] then []
    else
      assert edges == [edges[0]] + edges[1..];
      (if edges[0].to == id && !Met(c, p, edges[0]) then [edges[0]] else []) + MissingEdges(c, p, id, edges[1..])
  }

  datatype Resolved = Resolved(content: CourseModule, locked: bool, blockedBy: seq<ModuleId>)

  function ResolveModule(c: Course, p: Progress, isInstructor: bool, m: CourseModule): Resolved {
    if isInstructor || m.id in EntryModules(Ids(c.modules), c.edges) then Resolved(m, false, [])
    else
      var missing := MissingEdges(c, p, m.id, c.edges);
      if missing == [] then Resolved(m, false, [])
      else Resolved(m, true, seq(|missing|, i requires 0 <= i < |missing| => missing[i].from))
  }

  function ResolveModules(c: Course, p: Progress, isInstructor: bool): seq<Resolved> {
    seq(|c.modules|, i requires 0 <= i < |c.modules| => ResolveModule(c, p, isInstructor, c.modules[i]))
  }

  /** The lessons a learner can be sent to, in course order: those that count, of unlocked modules. */
  function Offered(modules: seq<Resolved>): seq<Lesson> {
    if modules == [] then []
    else (if modules[0].locked then [] else Countable(modules[0].content.lessons)) + Offered(modules[1..])
  }

  predicate Started(p: Progress, l: Lesson) {
    l.id in p && p[l.id].status == InProgress
  }

  predicate Untouched(p: Progress, l: Lesson) {
    l.id !in p || p[l.id].status == NotStarted
  }

  function FirstStarted(p: Progress, lessons: seq<Lesson>): (r: Option<LessonId>)
    ensures r.None? <==> forall l :: l in lessons ==> !Started(p, l)
    ensures r.Some? ==> exists l :: l in lessons && l.id == r.value && Started(p, l)
  {
    if lessons == [] then None
    else
      assert lessons == [lessons[0]] + lessons[1..];
      if Started(p, lessons[0]) then Some(lessons[0].id) else FirstStarted(p, lessons[1..])
  }

  function FirstUntouched(p: Progress, lessons: seq<Lesson>): (r: Option<LessonId>)
    ensures r.None? <==> forall l :: l in lessons ==> !Untouched(p, l)
    ensures r.Some? ==> exists l :: l in lessons && l.id == r.value && Untouched(p, l)
  {
    if lessons == [] then None
    else
      assert lessons == [lessons[0]] + lessons[1..];
      if Untouched(p, lessons[0]) then Some(lessons[0].id) else FirstUntouched(p, lessons[1..])
  }

  /** A lesson in progress beats an untouched one; earlier beats later. */
  function NextAmong(p: Progress, lessons: seq<Lesson>): Option<LessonId> {
    NextAfter(p, None, lessons)
  }

  /** The same with an untouched lesson already in hand from earlier in the course. */
  function NextAfter(p: Progress, untouched: Option<LessonId>, lessons: seq<Lesson>): Option<LessonId> {
    if FirstStarted(p, lessons).Some? then FirstStarted(p, lessons)
    else if untouched.Some? then untouched
    else FirstUntouched(p, lessons)
  }

  /** The lesson at this position is in progress, and none before it is. */
  ghost predicate FirstInProgress(p: Progress, lessons: seq<Lesson>, k: nat) {
    && k < |lessons| && lessons[k].id in p && p[lessons[k].id].status == InProgress
    && forall i :: 0 <= i < k && lessons[i].id in p ==> p[lessons[i].id].status != InProgress
  }

  /** Nothing is on record for the lesson at this position, or that it was not started; and not so for any before it. */
  ghost predicate FirstNotStarted(p: Progress, lessons: seq<Lesson>, k: nat) {
    && k < |lessons| && (lessons[k].id !in p || p[lessons[k].id].status == NotStarted)
    && forall i :: 0 <= i < k ==> lessons[i].id in p && p[lessons[i].id].status != NotStarted
  }

  lemma {:induction false} FirstStartedAt(p: Progress, lessons: seq<Lesson>, k: nat)
    requires FirstInProgress(p, lessons, k)
    ensures FirstStarted(p, lessons) == Some(lessons[k].id)
  {
    if k > 0 {
      assert lessons[1..][k - 1] == lessons[k];
      forall i | 0 <= i < k - 1 && lessons[1..][i].id in p ensures p[lessons[1..][i].id].status != InProgress {
        assert lessons[1..][i] == lessons[i + 1];
      }
      FirstStartedAt(p, lessons[1..], k - 1);
    }
  }

  lemma {:induction false} FirstUntouchedAt(p: Progress, lessons: seq<Lesson>, k: nat)
    requires FirstNotStarted(p, lessons, k)
    ensures FirstUntouched(p, lessons) == Some(lessons[k].id)
  {
    if k > 0 {
      assert lessons[1..][k - 1] == lessons[k];
      forall i | 0 <= i < k - 1 ensures lessons[1..][i].id in p && p[lessons[1..][i].id].status != NotStarted {
        assert lessons[1..][i] == lessons[i + 1];
      }
      FirstUntouchedAt(p, lessons[1..], k - 1);
    }
  }

  /**
   * Among the lessons a learner can be sent to: the first in progress, in the absence of one the
   * first not started, and nothing if all are completed.
   */
  lemma NextIsByStatus(p: Progress, lessons: seq<Lesson>, k: nat)
    ensures FirstInProgress(p, lessons, k) ==> NextAmong(p, lessons) == Some(lessons[k].id)
    ensures FirstNotStarted(p, lessons, k) && (forall l :: l in lessons && l.id in p ==> p[l.id].status != InProgress) ==>
              NextAmong(p, lessons) == Some(lessons[k].id)
    ensures (forall l :: l in lessons ==> l.id in p && p[l.id].status == Completed) <==> NextAmong(p, lessons) == None
  {
    if FirstInProgress(p, lessons, k) {
      FirstStartedAt(p, lessons, k);
    }
    if FirstNotStarted(p, lessons, k) {
      FirstUntouchedAt(p, lessons, k);
    }
    forall l | l in lessons ensures (l.id in p && p[l.id].status == Completed) <==> !Started(p, l) && !Untouched(p, l) {
    }
  }

  lemma NextAfterHead(p: Progress, untouched: Option<LessonId>, l: Lesson, rest: seq<Lesson>)
    ensures NextAfter(p, untouched, [l] + rest)
         == if Started(p, l) then Some(l.id)
            else if Untouched(p, l) && untouched.None? then NextAfter(p, Some(l.id), rest)
            else NextAfter(p, untouched, rest)
  {
    assert ([l] + rest)[1..] == rest;
  }

  /** What the Continue button opens. */
  method FindNextLesson(modules: seq<Resolved>, p: Progress) returns (next: Option<LessonId>)
    ensures next == NextAmong(p, Offered(modules))
  {
    var untouched: Option<LessonId> := None;
    for k := 0 to |modules|
      invariant NextAmong(p, Offered(modules)) == NextAfter(p, untouched, Offered(modules[k..]))
    {
      ghost var later := Offered(modules[k + 1..]);
      OfferedHead(modules, k);
      if modules[k].locked {
        continue;
      }
      var lessons := modules[k].content.lessons;
      assert lessons[0..] == lessons;
      for i := 0 to |lessons|
        invariant NextAmong(p, Offered(modules)) == NextAfter(p, untouched, Countable(lessons[i..]) + later)
      {
        CountableHead(lessons, i, later);
        if lessons[i].draft {
          continue;
        }
        NextAfterHead(p, untouched, lessons[i], Countable(lessons[i + 1..]) + later);
        if Started(p, lessons[i]) {
          return Some(lessons[i].id);
        }
        if Untouched(p, lessons[i]) && untouched.None? {
          untouched := Some(lessons[i].id);
        }
      }
      assert Countable(lessons[|lessons|..]) + later == later;
    }
    next := untouched;
  }

  lemma CountableHead(lessons: seq<Lesson>, i: nat, later: seq<Lesson>)
    requires i < |lessons|
    ensures Countable(lessons[i..]) + later == if lessons[i].draft then Countable(lessons[i + 1..]) + later
                                              else [lessons[i]] + (Countable(lessons[i + 1..]) + later)
  {
    assert lessons[i..][1..] == lessons[i + 1..];
  }

  lemma OfferedHead(modules: seq<Resolved>, k: nat)
    requires k < |modules|
    ensures Offered(modules[k..]) == if modules[k].locked then Offered(modules[k + 1..])
                                     else Countable(modules[k].content.lessons) + Offered(modules[k + 1..])
  {
    assert modules[k..][1..] == modules[k + 1..];
  }

  function NextLesson(c: Course, p: Progress): Option<LessonId> {
    NextAmong(p, Offered(ResolveModules(c, p, false)))
  }

  /** The modules in course order; a learner's are locked exactly where a known edge leads in and some edge in is unmet. */
  ghost predicate RightlyLocked(c: Course, p: Progress, isInstructor: bool, resolved: seq<Resolved>) {
    && |resolved| == |c.modules|
    && forall i :: 0 <= i < |resolved| ==>
         && resolved[i].content == c.modules[i]
         && (resolved[i].locked <==> !isInstructor && HasPrerequisite(c, c.modules[i]) && HasUnmetEdge(c, p, c.modules[i]))
  }

  lemma ResolvedIsRightlyLocked(c: Course, p: Progress, isInstructor: bool)
    ensures RightlyLocked(c, p, isInstructor, ResolveModules(c, p, isInstructor))
  {
    forall i | 0 <= i < |c.modules| && !isInstructor
      ensures Locked(c, p, c.modules[i]) <==> HasPrerequisite(c, c.modules[i]) && HasUnmetEdge(c, p, c.modules[i])
    {
      LockedByUnmetEdge(c, p, c.modules[i]);
    }
  }

  /** The ids of the unlocked modules in course order. */
  function UnlockedIds(modules: seq<Resolved>): (ids: seq<ModuleId>)
    ensures forall id :: id in ids <==> exists r :: r in modules && !r.locked && r.content.id == id
  {
    if modules == [] then []
    else
      var n := |modules| - 1;
      assert modules == modules[..n] + [modules[n]];
      UnlockedIds(modules[..n]) + if modules[n].locked then [] else [modules[n].content.id]
  }

  lemma {:induction false} UnlockedInOrder(resolved: seq<Resolved>, modules: seq<CourseModule>)
    requires |resolved| == |modules| && forall i :: 0 <= i < |modules| ==> resolved[i].content == modules[i]
    ensures Subsequence(UnlockedIds(resolved), Ids(modules))
    decreases |modules|
  {
    if modules == [] {
    } else {
      var n := |modules| - 1;
      var before := UnlockedIds(resolved[..n]);
      UnlockedInOrder(resolved[..n], modules[..n]);
      SubsequenceSnoc(before, Ids(modules[..n]), modules[n].id);
      assert Ids(modules) == Ids(modules[..n]) + [modules[n].id];
      assert before + [] == before;
      assert UnlockedIds(resolved) == before || UnlockedIds(resolved) == before + [modules[n].id];
    }
  }

  /** Everything the sidebar and the Continue button need; an instructor sees every module open and is sent nowhere. */
  method Resolve(c: Course, p: Progress, isInstructor: bool)
    returns (modules: seq<Resolved>, unlocked: seq<ModuleId>, next: Option<LessonId>)
    ensures modules == ResolveModules(c, p, isInstructor)
    ensures RightlyLocked(c, p, isInstructor, modules)
    ensures unlocked == UnlockedIds(modules) && Subsequence(unlocked, Ids(c.modules))
    ensures next == if isInstructor then None else NextLesson(c, p)
  {
    modules := ResolveModules(c, p, isInstructor);
    ResolvedIsRightlyLocked(c, p, isInstructor);
    hide ResolveModules, RightlyLocked;
    unlocked := [];
    for i := 0 to |modules|
      invariant unlocked == UnlockedIds(modules[..i])
    {
      assert modules[..i + 1][..i] == modules[..i];
      if !modules[i].locked {
        unlocked := unlocked + [modules[i].content.id];
      }
    }
    assert modules[..|modules|] == modules;
    UnlockedInOrder(modules, c.modules);
    if isInstructor {
      next := None;
    } else {
      next := FindNextLesson(modules, p);
    }
  }

  // ---------------------------------------------------------------- opening a lesson

  datatype Access = Allowed | NotFound | PrerequisiteNotMet(blockedBy: seq<ModuleId>)

  function FindLesson(lessons: seq<Lesson>, id: LessonId): (r: Option<Lesson>)
    ensures r.Some? ==> r.value in lessons && r.value.id == id
    ensures r.None? ==> forall l :: l in lessons ==> l.id != id
  {
    if lessons == [] then None
    else
      assert lessons == [lessons[0]] + lessons[1..];
      if lessons[0].id == id then Some(lessons[0]) else FindLesson(lessons[1..], id)
  }

  function FindOwner(modules: seq<Resolved>, id: LessonId): (r: Option<Resolved>)
    ensures r.Some? ==> r.value in modules && FindLesson(r.value.content.lessons, id).Some?
    ensures r.None? ==> forall m :: m in modules ==> FindLesson(m.content.lessons, id).None?
  {
    if modules == [] then None
    else
      assert modules == [modules[0]] + modules[1..];
      if FindLesson(modules[0].content.lessons, id).Some? then Some(modules[0]) else FindOwner(modules[1..], id)
  }

  /** The check behind opening a lesson. */
  function CanOpenLesson(c: Course, p: Progress, isInstructor: bool, id: LessonId): Access {
    var owner := FindOwner(ResolveModules(c, p, isInstructor), id);
    if owner.None? then NotFound
    else
      var lesson := FindLesson(owner.value.content.lessons, id).value;
      if lesson.preview then Allowed
      else if owner.value.locked then PrerequisiteNotMet(owner.value.blockedBy)
      else if lesson.draft then NotFound
      else Allowed
  }

  // ---------------------------------------------------------------- a validated course can be finished

  /** A lesson of a module of the course. */
  ghost predicate LessonOf(c: Course, m: CourseModule, l: Lesson) {
    m in c.modules && l in m.lessons
  }

  /** Module ids are distinct, and a lesson id names one lesson of one module. */
  ghost predicate Identified(c: Course) {
    && Distinct(Ids(c.modules))
    && (forall m, l, m', l' {:trigger LessonOf(c, m, l), LessonOf(c, m', l')} ::
          LessonOf(c, m, l) && LessonOf(c, m', l') && l.id == l'.id ==> m == m' && l == l')
  }

  /** A quiz counts as completed only with a passing score. */
  ghost predicate HonestQuizzes(c: Course, p: Progress) {
    forall m, l {:trigger LessonOf(c, m, l)} ::
      LessonOf(c, m, l) && l.kind == Quiz && Done(p, l) ==> QuizPassed(p, l)
  }

  /** The lesson counts and is not completed. */
  ghost predicate Owed(c: Course, p: Progress, m: CourseModule, l: Lesson) {
    LessonOf(c, m, l) && !l.draft && !Done(p, l)
  }

  /** The lessons that count and are not completed yet. */
  ghost function Unfinished(c: Course, p: Progress): set<LessonId> {
    set m, l | m in c.modules && l in m.lessons && Owed(c, p, m, l) :: l.id
  }

  /** The modules with a lesson that counts and is not completed. */
  ghost function Owing(c: Course, p: Progress): set<ModuleId> {
    set m | m in c.modules && !ModuleComplete(p, m.lessons) :: m.id
  }

  ghost predicate Locked(c: Course, p: Progress, m: CourseModule) {
    ResolveModule(c, p, false, m).locked
  }

  lemma IdsMembers(modules: seq<CourseModule>)
    ensures forall id :: id in Ids(modules) <==> exists m :: m in modules && m.id == id
  {
    forall id | id in Ids(modules) ensures exists m :: m in modules && m.id == id {
      var i :| 0 <= i < |modules| && Ids(modules)[i] == id;
      assert modules[i] in modules;
    }
    forall m | m in modules ensures m.id in Ids(modules) {
      var i :| 0 <= i < |modules| && modules[i] == m;
      assert Ids(modules)[i] == m.id;
    }
  }

  ghost predicate HasPrerequisite(c: Course, m: CourseModule) {
    exists a :: Arc(Known(Ids(c.modules), c.edges), a, m.id)
  }

  ghost predicate HasUnmetEdge(c: Course, p: Progress, m: CourseModule) {
    exists e :: e in c.edges && e.to == m.id && !Met(c, p, e)
  }

  /** The rule of resolve: locked exactly when a known edge leads in and some edge in is unmet. */
  lemma LockedByUnmetEdge(c: Course, p: Progress, m: CourseModule)
    requires m in c.modules
    ensures Locked(c, p, m) <==> HasPrerequisite(c, m) && HasUnmetEdge(c, p, m)
  {
    var ids := Ids(c.modules);
    IdsMembers(c.modules);
    EntriesHaveNoArc(ids, Known(ids, c.edges));
    var missing := MissingEdges(c, p, m.id, c.edges);
    NonEmptyHasMember(missing);
  }

  /** A locked module names exactly the prerequisites that are missing. */
  lemma BlockedByNamesWhatIsMissing(c: Course, p: Progress, m: CourseModule)
    requires m in c.modules && Locked(c, p, m)
    ensures forall id :: id in ResolveModule(c, p, false, m).blockedBy <==>
              exists e :: e in c.edges && e.to == m.id && e.from == id && !Met(c, p, e)
  {
    var missing := MissingEdges(c, p, m.id, c.edges);
    var blockedBy := ResolveModule(c, p, false, m).blockedBy;
    assert forall i :: 0 <= i < |missing| ==> blockedBy[i] == missing[i].from;
    forall e | e in missing ensures e.from in blockedBy {
      var i :| 0 <= i < |missing| && missing[i] == e;
      assert blockedBy[i] == e.from;
    }
    forall id | id in blockedBy ensures exists e :: e in missing && e.from == id {
      var i :| 0 <= i < |blockedBy| && blockedBy[i] == id;
      assert missing[i] in missing;
    }
  }

  /** Completing a prerequisite meets its edges into modules where work is left. */
  ghost predicate CompletionOpens(c: Course, p: Progress) {
    forall e, m {:trigger Met(c, p, e), m in c.modules} ::
      e in c.edges && m in c.modules && m.id == e.from && ModuleComplete(p, m.lessons) && e.to in Owing(c, p) ==>
        Met(c, p, e)
  }

  /** With honest quizzes a completed module is also passed. */
  lemma HonestCompletionOpens(c: Course, p: Progress)
    requires HonestQuizzes(c, p)
    ensures CompletionOpens(c, p)
  {
    forall e: Edge, m | m in c.modules && m.id == e.from && ModuleComplete(p, m.lessons) ensures Met(c, p, e) {
      forall l | l in m.lessons && !l.draft && l.kind == Quiz ensures QuizPassed(p, l) {
        assert LessonOf(c, m, l) && Done(p, l);
      }
      assert ModulePassed(p, m.lessons);
    }
  }

  /**
   * One prerequisite of the module is gone from the course while another is still there: the edge
   * from the missing one can never be met, and the other keeps the module from being an entry.
   */
  ghost predicate Orphaned(c: Course, m: CourseModule) {
    HasPrerequisite(c, m) && exists e :: e in c.edges && e.to == m.id && e.from !in Ids(c.modules)
  }

  /** How a learner moves on: by pressing Continue, or by opening any lesson the access check allows. */
  datatype Way = Continuing | Browsing

  /** While the module is locked, some of its work is out of reach; browsing reaches previews in spite of a lock. */
  ghost predicate Shut(p: Progress, m: CourseModule, way: Way) {
    exists l :: l in m.lessons && !l.draft && !Done(p, l) && !(way == Browsing && l.preview)
  }

  /** A cycle of prerequisites through nothing but such modules. */
  ghost predicate ShutCycle(c: Course, p: Progress, way: Way, cycle: seq<ModuleId>) {
    && Cycle(Known(Ids(c.modules), c.edges), cycle)
    && forall m :: m in c.modules && m.id in cycle ==> Shut(p, m, way)
  }

  /** Neither a cycle nor a missing prerequisite keeps a lock on work that is out of reach. */
  ghost predicate Passable(c: Course, p: Progress, way: Way) {
    && (forall cycle :: !ShutCycle(c, p, way, cycle))
    && forall m :: m in c.modules && Orphaned(c, m) ==> !Shut(p, m, way)
  }

  /** Passable for a new learner who presses Continue. */
  ghost predicate Openable(c: Course) {
    Passable(c, map[], Continuing)
  }

  lemma ValidatedIsPassable(c: Course, p: Progress, way: Way)
    requires WellFormed(Ids(c.modules), c.edges)
    ensures Passable(c, p, way)
  {
  }

  /** Work that is done, or may be done on another way as well, opens no new trap. */
  lemma StaysPassable(c: Course, p: Progress, way: Way, p': Progress, way': Way)
    requires Passable(c, p, way)
    requires forall m {:trigger Shut(p', m, way')} :: m in c.modules && Shut(p', m, way') ==> Shut(p, m, way)
    ensures Passable(c, p', way')
  {
    forall cycle ensures !ShutCycle(c, p', way', cycle) {
      assert !ShutCycle(c, p, way, cycle);
    }
  }

  lemma OpenableIsPassable(c: Course, p: Progress)
    requires Openable(c)
    ensures Passable(c, p, Continuing)
  {
    StaysPassable(c, map[], Continuing, p, Continuing);
  }

  /** A locked module with work left has a prerequisite with work left, unless one is missing. */
  lemma LockedIsEntered(c: Course, p: Progress, m: CourseModule)
    requires CompletionOpens(c, p) && !Orphaned(c, m)
    requires m in c.modules && m.id in Owing(c, p) && Locked(c, p, m)
    ensures EnteredFrom(Known(Ids(c.modules), c.edges), Owing(c, p), m.id)
  {
    LockedByUnmetEdge(c, p, m);
    KnownMembers(Ids(c.modules), c.edges);
    IdsMembers(c.modules);
    var e :| e in c.edges && e.to == m.id && !Met(c, p, e);
    var source :| source in c.modules && source.id == e.from;
    assert e.from in Owing(c, p);
    assert Arc(Known(Ids(c.modules), c.edges), e.from, m.id);
  }

  /** If every module with work left is shut and locked, some of them form a cycle or one misses a prerequisite. */
  lemma AllShutIsImpassable(c: Course, p: Progress, way: Way)
    requires Distinct(Ids(c.modules)) && CompletionOpens(c, p) && Owing(c, p) != {}
    requires forall m {:trigger Locked(c, p, m)} ::
               m in c.modules && !ModuleComplete(p, m.lessons) ==> Locked(c, p, m) && Shut(p, m, way)
    ensures !Passable(c, p, way)
  {
    if forall m :: m in c.modules && Orphaned(c, m) ==> !Shut(p, m, way) {
      var es := Known(Ids(c.modules), c.edges);
      forall b | b in Owing(c, p) ensures EnteredFrom(es, Owing(c, p), b) {
        var m :| m in c.modules && !ModuleComplete(p, m.lessons) && m.id == b;
        assert Locked(c, p, m);
        LockedIsEntered(c, p, m);
      }
      var cycle := CycleInside(es, Owing(c, p));
      forall m | m in c.modules && m.id in cycle ensures Shut(p, m, way) {
        var owing :| owing in c.modules && !ModuleComplete(p, owing.lessons) && owing.id == m.id;
        SameModule(c, owing, m);
        assert Locked(c, p, owing);
      }
      assert ShutCycle(c, p, way, cycle);
    }
  }

  lemma SameModule(c: Course, m: CourseModule, m': CourseModule)
    requires Distinct(Ids(c.modules)) && m in c.modules && m' in c.modules && m.id == m'.id
    ensures m == m'
  {
    var i :| 0 <= i < |c.modules| && c.modules[i] == m;
    var j :| 0 <= j < |c.modules| && c.modules[j] == m';
    assert Ids(c.modules)[i] == Ids(c.modules)[j];
  }

  /** In a passable course some unfinished module is open to Continue: otherwise the locks would form a cycle. */
  lemma SomeUnfinishedModuleIsOpen(c: Course, p: Progress)
    requires Distinct(Ids(c.modules)) && Passable(c, p, Continuing) && CompletionOpens(c, p) && Owing(c, p) != {}
    ensures exists m :: m in c.modules && !ModuleComplete(p, m.lessons) && !Locked(c, p, m)
  {
    if forall m :: m in c.modules && !ModuleComplete(p, m.lessons) ==> Locked(c, p, m) {
      forall m | m in c.modules && !ModuleComplete(p, m.lessons) ensures Locked(c, p, m) && Shut(p, m, Continuing) {
      }
      AllShutIsImpassable(c, p, Continuing);
    }
  }

  lemma {:induction false} OfferedMembers(modules: seq<Resolved>)
    ensures forall l :: l in Offered(modules) <==>
              exists r :: r in modules && !r.locked && l in r.content.lessons && !l.draft
  {
    if modules != [] {
      OfferedMembers(modules[1..]);
      CountableMembers(modules[0].content.lessons);
      assert modules == [modules[0]] + modules[1..];
    }
  }

  /** A lesson is offered exactly when it counts and its module is not locked. */
  lemma OfferedLesson(c: Course, p: Progress, l: Lesson)
    ensures l in Offered(ResolveModules(c, p, false)) <==>
              exists m :: LessonOf(c, m, l) && !Locked(c, p, m) && !l.draft
  {
    var resolved := ResolveModules(c, p, false);
    OfferedMembers(resolved);
    if l in Offered(resolved) {
      var r :| r in resolved && !r.locked && l in r.content.lessons && !l.draft;
      var i :| 0 <= i < |resolved| && resolved[i] == r;
      assert r == ResolveModule(c, p, false, c.modules[i]);
      assert LessonOf(c, c.modules[i], l) && !Locked(c, p, c.modules[i]);
    }
    if m :| LessonOf(c, m, l) && !Locked(c, p, m) && !l.draft {
      var i :| 0 <= i < |c.modules| && c.modules[i] == m;
      assert resolved[i] in resolved && resolved[i] == ResolveModule(c, p, false, m);
    }
  }

  /** Whatever Continue offers is an unfinished lesson of an unlocked module. */
  lemma NextIsOpenWork(c: Course, p: Progress) returns (m: CourseModule, l: Lesson)
    requires NextLesson(c, p).Some?
    ensures Owed(c, p, m, l) && !Locked(c, p, m)
    ensures NextLesson(c, p) == Some(l.id)
    ensures l.id in Unfinished(c, p)
  {
    var offered := Offered(ResolveModules(c, p, false));
    l :| l in offered && l.id == NextLesson(c, p).value && (Started(p, l) || Untouched(p, l));
    OfferedLesson(c, p, l);
    m :| LessonOf(c, m, l) && !Locked(c, p, m) && !l.draft;
    assert Owed(c, p, m, l);
  }

  /**
   * The access check in full: a preview is always readable, a locked module is refused with what
   * blocks it, a draft is not found, and everything else opens.
   */
  lemma AccessOf(c: Course, p: Progress, isInstructor: bool, m: CourseModule, l: Lesson)
    requires Identified(c) && LessonOf(c, m, l)
    ensures CanOpenLesson(c, p, isInstructor, l.id)
         == var r := ResolveModule(c, p, isInstructor, m);
            if l.preview then Allowed
            else if r.locked then PrerequisiteNotMet(r.blockedBy)
            else if l.draft then NotFound
            else Allowed
  {
    var resolved := ResolveModules(c, p, isInstructor);
    var i :| 0 <= i < |c.modules| && c.modules[i] == m;
    assert resolved[i] in resolved && resolved[i].content == m;
    var owner := FindOwner(resolved, l.id);
    assert owner.Some?;
    var j :| 0 <= j < |resolved| && resolved[j] == owner.value;
    assert owner.value == ResolveModule(c, p, isInstructor, c.modules[j]);
    var found := FindLesson(owner.value.content.lessons, l.id).value;
    assert LessonOf(c, c.modules[j], found);
  }

  /** A lesson that no module has is not found. */
  lemma NoAccessWithoutLesson(c: Course, p: Progress, isInstructor: bool, id: LessonId)
    requires forall m, l {:trigger LessonOf(c, m, l)} :: LessonOf(c, m, l) ==> l.id != id
    ensures CanOpenLesson(c, p, isInstructor, id) == NotFound
  {
    var owner := FindOwner(ResolveModules(c, p, isInstructor), id);
    if owner.Some? {
      var j :| 0 <= j < |c.modules| && ResolveModules(c, p, isInstructor)[j] == owner.value;
      assert LessonOf(c, c.modules[j], FindLesson(owner.value.content.lessons, id).value);
    }
  }

  /**
   * While any lesson that counts is unfinished, a passable course offers the learner a next
   * lesson, and the access check lets the learner open it.
   */
  lemma UnfinishedCourseOffersALesson(c: Course, p: Progress)
    requires Passable(c, p, Continuing) && Identified(c) && HonestQuizzes(c, p)
    ensures NextLesson(c, p).None? <==> Unfinished(c, p) == {}
    ensures NextLesson(c, p).Some? ==> NextLesson(c, p).value in Unfinished(c, p)
    ensures NextLesson(c, p).Some? ==> CanOpenLesson(c, p, false, NextLesson(c, p).value) == Allowed
  {
    if NextLesson(c, p).Some? {
      var m, l := NextIsOpenWork(c, p);
      AccessOf(c, p, false, m, l);
    } else if Unfinished(c, p) != {} {
      HonestCompletionOpens(c, p);
      SomethingIsOffered(c, p);
    }
  }

  lemma UnfinishedMeansOwing(c: Course, p: Progress)
    requires Unfinished(c, p) != {}
    ensures Owing(c, p) != {}
  {
    var id :| id in Unfinished(c, p);
    var m, l :| m in c.modules && l in m.lessons && Owed(c, p, m, l) && l.id == id;
    assert m.id in Owing(c, p);
  }

  lemma SomethingIsOffered(c: Course, p: Progress)
    requires Distinct(Ids(c.modules)) && Passable(c, p, Continuing) && CompletionOpens(c, p)
    requires Unfinished(c, p) != {}
    ensures NextLesson(c, p).Some?
  {
    UnfinishedMeansOwing(c, p);
    SomeUnfinishedModuleIsOpen(c, p);
    var open :| open in c.modules && !ModuleComplete(p, open.lessons) && !Locked(c, p, open);
    var work :| work in open.lessons && !work.draft && !Done(p, work);
    assert LessonOf(c, open, work);
    OfferedLesson(c, p, work);
    assert Started(p, work) || Untouched(p, work);
  }

  // ---------------------------------------------------------------- runs

  /** The learner completes one lesson, with a passing score if it is a quiz. */
  ghost predicate Completes(c: Course, p: Progress, p': Progress, id: LessonId) {
    && id in p' && p'[id].status == Completed
    && p' == p[id := p'[id]]
    && HonestQuizzes(c, p')
  }

  /** The learner completes the lesson Continue offers. */
  ghost predicate Continue(c: Course, p: Progress, p': Progress) {
    NextLesson(c, p).Some? && Completes(c, p, p', NextLesson(c, p).value)
  }

  /** The learner completes an unfinished lesson that the access check allows. */
  ghost predicate Browse(c: Course, p: Progress, p': Progress) {
    exists id :: id in Unfinished(c, p) && CanOpenLesson(c, p, false, id) == Allowed && Completes(c, p, p', id)
  }

  /** One lesson completed on the learner's way. */
  ghost predicate Moves(c: Course, p: Progress, p': Progress, way: Way) {
    match way
    case Continuing => Continue(c, p, p')
    case Browsing => Browse(c, p, p')
  }

  ghost predicate CanMove(c: Course, p: Progress, way: Way) {
    exists p' :: Moves(c, p, p', way)
  }

  ghost predicate StudyRun(c: Course, run: seq<Progress>, way: Way) {
    |run| > 0 && forall i :: 0 < i < |run| ==> Moves(c, run[i - 1], run[i], way)
  }

  lemma CompletingFinishesOne(c: Course, p: Progress, p': Progress, id: LessonId)
    requires Identified(c) && Completes(c, p, p', id) && id in Unfinished(c, p)
    ensures Unfinished(c, p') == Unfinished(c, p) - {id}
  {
    forall m, l | LessonOf(c, m, l) ensures Owed(c, p', m, l) <==> Owed(c, p, m, l) && l.id != id {
    }
    forall other ensures other in Unfinished(c, p') <==> other in Unfinished(c, p) && other != id {
      UnfinishedMember(c, p, other);
      UnfinishedMember(c, p', other);
    }
  }

  /** One press of Continue finishes exactly the lesson it offers. */
  lemma ContinueFinishesOne(c: Course, p: Progress, p': Progress)
    requires Identified(c) && Continue(c, p, p')
    ensures Unfinished(c, p') == Unfinished(c, p) - {NextLesson(c, p).value}
    ensures NextLesson(c, p).value in Unfinished(c, p)
  {
    var _, _ := NextIsOpenWork(c, p);
    CompletingFinishesOne(c, p, p', NextLesson(c, p).value);
  }

  lemma UnfinishedMember(c: Course, p: Progress, id: LessonId)
    ensures id in Unfinished(c, p) <==> exists m, l :: Owed(c, p, m, l) && l.id == id
  {
  }

  /** Every move completes a lesson of the course that may be opened. */
  lemma MoveOpensOne(c: Course, p: Progress, p': Progress, way: Way) returns (m: CourseModule, l: Lesson)
    requires Identified(c) && Moves(c, p, p', way)
    ensures Owed(c, p, m, l) && (!Locked(c, p, m) || (way == Browsing && l.preview))
    ensures l.id in Unfinished(c, p) && Completes(c, p, p', l.id)
  {
    if way == Continuing {
      m, l := NextIsOpenWork(c, p);
    } else {
      var id :| id in Unfinished(c, p) && CanOpenLesson(c, p, false, id) == Allowed && Completes(c, p, p', id);
      UnfinishedMember(c, p, id);
      m, l :| Owed(c, p, m, l) && l.id == id;
      AccessOf(c, p, false, m, l);
    }
  }

  /** A quiz can be completed with just the score it asks for. */
  lemma CompleteLesson(c: Course, p: Progress, m: CourseModule, l: Lesson) returns (p': Progress)
    requires Identified(c) && HonestQuizzes(c, p) && LessonOf(c, m, l)
    ensures Completes(c, p, p', l.id)
  {
    p' := p[l.id := LessonProgress(Completed, Some(Threshold(l)))];
    forall m', l' | LessonOf(c, m', l') && l'.kind == Quiz && Done(p', l') ensures QuizPassed(p', l') {
      assert l'.id != l.id ==> Done(p, l');
    }
  }

  /** While a passable course is unfinished, the learner can move on. */
  lemma MoveOn(c: Course, p: Progress, way: Way) returns (p': Progress)
    requires Passable(c, p, way) && Identified(c) && HonestQuizzes(c, p) && Unfinished(c, p) != {}
    ensures Moves(c, p, p', way)
  {
    if way == Continuing {
      UnfinishedCourseOffersALesson(c, p);
      var m, l := NextIsOpenWork(c, p);
      p' := CompleteLesson(c, p, m, l);
    } else {
      var m, l := SomethingCanBeOpened(c, p);
      AccessOf(c, p, false, m, l);
      UnfinishedMember(c, p, l.id);
      p' := CompleteLesson(c, p, m, l);
    }
  }

  /** Otherwise all that is left sits in locked modules and is no preview. */
  lemma SomethingCanBeOpened(c: Course, p: Progress) returns (m: CourseModule, l: Lesson)
    requires Passable(c, p, Browsing) && Identified(c) && HonestQuizzes(c, p) && Unfinished(c, p) != {}
    ensures Owed(c, p, m, l) && (!Locked(c, p, m) || l.preview)
  {
    HonestCompletionOpens(c, p);
    UnfinishedMeansOwing(c, p);
    if forall m, l :: Owed(c, p, m, l) ==> Locked(c, p, m) && !l.preview {
      forall m | m in c.modules && !ModuleComplete(p, m.lessons) ensures Locked(c, p, m) && Shut(p, m, Browsing) {
        var l :| l in m.lessons && !l.draft && !Done(p, l);
        assert Owed(c, p, m, l);
      }
      AllShutIsImpassable(c, p, Browsing);
    }
    m, l :| Owed(c, p, m, l) && (!Locked(c, p, m) || l.preview);
  }

  lemma MoveStaysPassable(c: Course, p: Progress, p': Progress, way: Way)
    requires Identified(c) && Passable(c, p, way) && Moves(c, p, p', way)
    ensures Passable(c, p', way)
  {
    var m, l := MoveOpensOne(c, p, p', way);
    StaysPassable(c, p, way, p', way);
  }

  lemma {:induction false} RunStaysPassable(c: Course, run: seq<Progress>, way: Way)
    requires Identified(c) && StudyRun(c, run, way) && Passable(c, run[0], way) && HonestQuizzes(c, run[0])
    ensures Passable(c, run[|run| - 1], way) && HonestQuizzes(c, run[|run| - 1])
    ensures |Unfinished(c, run[|run| - 1])| == |Unfinished(c, run[0])| - (|run| - 1)
    decreases |run|
  {
    hide Moves, Passable, Unfinished, HonestQuizzes, Completes;
    var n := |run| - 1;
    if n > 0 {
      RunStaysPassable(c, run[..n], way);
      assert Moves(c, run[n - 1], run[n], way);
      MoveStaysPassable(c, run[n - 1], run[n], way);
      var m, l := MoveOpensOne(c, run[n - 1], run[n], way);
      CompletingFinishesOne(c, run[n - 1], run[n], l.id);
    }
  }

  /**
   * A passable course is finished in exactly as many moves as there are unfinished lessons: each
   * move takes one away, and a run can go on precisely until none is left. Pressing Continue
   * then leads to a lesson the access check allows.
   */
  lemma PassableCourseFinishes(c: Course, run: seq<Progress>, way: Way)
    requires Identified(c) && StudyRun(c, run, way) && Passable(c, run[0], way) && HonestQuizzes(c, run[0])
    ensures var p := run[|run| - 1];
            && |Unfinished(c, p)| == |Unfinished(c, run[0])| - (|run| - 1)
            && (CanMove(c, p, way) <==> |run| - 1 < |Unfinished(c, run[0])|)
            && (way == Continuing ==> (CanMove(c, p, way) <==> NextLesson(c, p).Some?))
            && (way == Continuing && NextLesson(c, p).Some? ==>
                  CanOpenLesson(c, p, false, NextLesson(c, p).value) == Allowed)
  {
    var p := run[|run| - 1];
    RunStaysPassable(c, run, way);
    if Unfinished(c, p) != {} {
      var p' := MoveOn(c, p, way);
    }
    if p' :| Moves(c, p, p', way) {
      var m, l := MoveOpensOne(c, p, p', way);
      assert l.id in Unfinished(c, p);
    }
    if way == Continuing {
      UnfinishedCourseOffersALesson(c, p);
    }
  }

  // ---------------------------------------------------------------- which courses can be finished

  /** Some run completes everything that counts. */
  ghost predicate CanBeFinished(c: Course, p: Progress, way: Way) {
    exists run :: StudyRun(c, run, way) && run[0] == p && Unfinished(c, run[|run| - 1]) == {}
  }

  lemma {:induction false} FinishingRun(c: Course, p: Progress, way: Way) returns (run: seq<Progress>)
    requires Passable(c, p, way) && Identified(c) && HonestQuizzes(c, p)
    ensures StudyRun(c, run, way) && run[0] == p && Unfinished(c, run[|run| - 1]) == {}
    decreases |Unfinished(c, p)|
  {
    hide Moves, Passable, Unfinished;
    if Unfinished(c, p) == {} {
      run := [p];
    } else {
      var p' := MoveOn(c, p, way);
      var m, l := MoveOpensOne(c, p, p', way);
      CompletingFinishesOne(c, p, p', l.id);
      MoveStaysPassable(c, p, p', way);
      var rest := FinishingRun(c, p', way);
      run := [p] + rest;
      MoveThenRun(c, p, rest, way);
    }
  }

  lemma MoveThenRun(c: Course, p: Progress, rest: seq<Progress>, way: Way)
    requires StudyRun(c, rest, way) && Moves(c, p, rest[0], way)
    ensures StudyRun(c, [p] + rest, way)
  {
    var run := [p] + rest;
    forall i | 0 < i < |run| ensures Moves(c, run[i - 1], run[i], way) {
      if i > 1 {
        assert Moves(c, rest[i - 2], rest[i - 1], way);
      }
    }
  }

  /** Shut modules, each with a missing prerequisite beside a present one or with a prerequisite among them. */
  ghost predicate Trap(c: Course, p: Progress, way: Way, trap: set<ModuleId>) {
    forall m :: m in c.modules && m.id in trap ==>
      Shut(p, m, way) && (Orphaned(c, m) || EnteredFrom(Known(Ids(c.modules), c.edges), trap, m.id))
  }

  lemma TrapIsLocked(c: Course, p: Progress, way: Way, trap: set<ModuleId>, m: CourseModule)
    requires Trap(c, p, way, trap) && m in c.modules && m.id in trap
    ensures Locked(c, p, m)
  {
    IdsMembers(c.modules);
    KnownMembers(Ids(c.modules), c.edges);
    if Orphaned(c, m) {
      var e :| e in c.edges && e.to == m.id && e.from !in Ids(c.modules);
      assert !Met(c, p, e);
    } else {
      var a :| a in trap && Arc(Known(Ids(c.modules), c.edges), a, m.id);
      var e :| e in Known(Ids(c.modules), c.edges) && e.from == a && e.to == m.id;
      assert !Met(c, p, e);
    }
    LockedByUnmetEdge(c, p, m);
  }

  /** No move opens a lesson that keeps a module of a trap shut. */
  lemma TrapStays(c: Course, p: Progress, p': Progress, way: Way, trap: set<ModuleId>)
    requires Identified(c) && Moves(c, p, p', way) && Trap(c, p, way, trap)
    ensures Trap(c, p', way, trap)
  {
    var owner, lesson := MoveOpensOne(c, p, p', way);
    forall m | m in c.modules && m.id in trap ensures Shut(p', m, way) {
      TrapIsLocked(c, p, way, trap, m);
      var l :| l in m.lessons && !l.draft && !Done(p, l) && !(way == Browsing && l.preview);
      assert LessonOf(c, m, l);
      assert !Done(p', l);
    }
  }

  lemma {:induction false} TrapStaysOverRun(c: Course, run: seq<Progress>, way: Way, trap: set<ModuleId>)
    requires Identified(c) && StudyRun(c, run, way) && Trap(c, run[0], way, trap)
    ensures Trap(c, run[|run| - 1], way, trap)
    decreases |run|
  {
    hide Moves, Trap;
    var n := |run| - 1;
    if n > 0 {
      TrapStaysOverRun(c, run[..n], way, trap);
      assert Moves(c, run[n - 1], run[n], way);
      TrapStays(c, run[n - 1], run[n], way, trap);
    }
  }

  /** A cycle of shut modules is a trap, and so is one shut module with a missing prerequisite. */
  lemma ImpassableHasTrap(c: Course, p: Progress, way: Way) returns (trap: set<ModuleId>, m: CourseModule)
    requires Distinct(Ids(c.modules)) && !Passable(c, p, way)
    ensures Trap(c, p, way, trap) && m in c.modules && m.id in trap
  {
    if m' :| m' in c.modules && Orphaned(c, m') && Shut(p, m', way) {
      m, trap := m', {m'.id};
      forall other | other in c.modules && other.id in trap ensures other == m {
        SameModule(c, other, m);
      }
    } else {
      var es := Known(Ids(c.modules), c.edges);
      var cycle :| ShutCycle(c, p, way, cycle);
      trap := Elements(cycle);
      forall b | b in trap ensures EnteredFrom(es, trap, b) {
        CycleEntersItself(es, cycle, b);
      }
      KnownMembers(Ids(c.modules), c.edges);
      IdsMembers(c.modules);
      assert Arc(es, cycle[0], cycle[1]);
      m :| m in c.modules && m.id == cycle[0];
    }
  }

  lemma TrapIsNeverFinished(c: Course, run: seq<Progress>, way: Way, trap: set<ModuleId>, m: CourseModule)
    requires Identified(c) && StudyRun(c, run, way) && Trap(c, run[0], way, trap)
    requires m in c.modules && m.id in trap
    ensures Unfinished(c, run[|run| - 1]) != {}
  {
    TrapStaysOverRun(c, run, way, trap);
    var p := run[|run| - 1];
    var l :| l in m.lessons && !l.draft && !Done(p, l);
    assert Owed(c, p, m, l);
    assert l.id in Unfinished(c, p);
  }

  /**
   * Whatever the course, and on either way: what is left can be finished exactly when no cycle of
   * known edges runs through shut modules only and no shut module keeps a prerequisite beside a
   * missing one. A module is shut by work that counts and, when browsing, is no preview.
   */
  lemma FinishableIffPassable(c: Course, p: Progress, way: Way)
    requires Identified(c) && HonestQuizzes(c, p)
    ensures CanBeFinished(c, p, way) <==> Passable(c, p, way)
  {
    if Passable(c, p, way) {
      var run := FinishingRun(c, p, way);
    } else {
      var trap, m := ImpassableHasTrap(c, p, way);
      forall run | StudyRun(c, run, way) && run[0] == p ensures Unfinished(c, run[|run| - 1]) != {} {
        TrapIsNeverFinished(c, run, way, trap, m);
      }
    }
  }

  /** Every course that validates can be finished, from any progress and on either way. */
  lemma ValidatedCanBeFinished(c: Course, p: Progress, way: Way)
    requires Identified(c) && HonestQuizzes(c, p) && WellFormed(Ids(c.modules), c.edges)
    ensures CanBeFinished(c, p, way)
  {
    ValidatedIsPassable(c, p, way);
    FinishableIffPassable(c, p, way);
  }

  /** Browsing reaches at least what Continue does. */
  lemma BrowsingIsNoWorse(c: Course, p: Progress)
    requires Identified(c) && HonestQuizzes(c, p) && CanBeFinished(c, p, Continuing)
    ensures CanBeFinished(c, p, Browsing)
  {
    FinishableIffPassable(c, p, Continuing);
    StaysPassable(c, p, Continuing, p, Browsing);
    FinishableIffPassable(c, p, Browsing);
  }

  /** Where every edge is known and every module has work behind its lock, only those can. */
  lemma FinishableIffValidated(c: Course, way: Way)
    requires Identified(c)
    requires forall e :: e in c.edges ==> e.from in Ids(c.modules) && e.to in Ids(c.modules)
    requires forall m :: m in c.modules ==> Shut(map[], m, way)
    ensures CanBeFinished(c, map[], way) <==> WellFormed(Ids(c.modules), c.edges)
  {
    FinishableIffPassable(c, map[], way);
    if Passable(c, map[], way) {
      forall cycle ensures !Cycle(Known(Ids(c.modules), c.edges), cycle) {
        assert !ShutCycle(c, map[], way, cycle);
      }
    }
  }

  /** Two modules that wait for each other, the first with a preview and nothing else. */
  const PREVIEWED := CourseModule("a", [Lesson("x", Other, false, true, None)])
  const WAITING := CourseModule("b", [Lesson("y", Other, false, false, None)])
  const PREVIEWED_CYCLE := Course([PREVIEWED, WAITING], [Edge("a", "b", Complete), Edge("b", "a", Complete)])

  lemma PreviewedCycleShape(es: seq<Edge>)
    requires es == Known(Ids(PREVIEWED_CYCLE.modules), PREVIEWED_CYCLE.edges)
    ensures Identified(PREVIEWED_CYCLE) && Ids(PREVIEWED_CYCLE.modules) == ["a", "b"]
    ensures Cycle(es, ["a", "b", "a"]) && forall q :: Cycle(es, q) ==> "a" in q
  {
    var c := PREVIEWED_CYCLE;
    KnownMembers(Ids(c.modules), c.edges);
    assert Ids(c.modules) == ["a", "b"];
    assert c.edges[0] in es && c.edges[1] in es;
    var cycle := ["a", "b", "a"];
    assert Arc(es, cycle[0], cycle[1]) && Arc(es, cycle[1], cycle[2]);
    forall q | Cycle(es, q) ensures "a" in q {
      assert Arc(es, q[0], q[1]);
      assert q[0] == "a" || q[1] == "a";
    }
  }

  lemma PreviewedCycleIsImpassable(es: seq<Edge>)
    requires es == Known(Ids(PREVIEWED_CYCLE.modules), PREVIEWED_CYCLE.edges)
    ensures !Passable(PREVIEWED_CYCLE, map[], Continuing)
  {
    PreviewedCycleShape(es);
    hide Known, Ids, Identified, Cycle;
    assert PREVIEWED.lessons[0] in PREVIEWED.lessons && WAITING.lessons[0] in WAITING.lessons;
    assert ShutCycle(PREVIEWED_CYCLE, map[], Continuing, ["a", "b", "a"]);
  }

  lemma PreviewedCycleIsPassable(es: seq<Edge>)
    requires es == Known(Ids(PREVIEWED_CYCLE.modules), PREVIEWED_CYCLE.edges)
    ensures Passable(PREVIEWED_CYCLE, map[], Browsing)
  {
    var c := PREVIEWED_CYCLE;
    PreviewedCycleShape(es);
    hide Known, Ids, Identified, Cycle;
    assert PREVIEWED in c.modules && !Shut(map[], PREVIEWED, Browsing);
    forall q ensures !ShutCycle(c, map[], Browsing, q) {
      if Cycle(es, q) {
        assert PREVIEWED.id in q;
      }
    }
  }

  /** Pressing Continue never finishes that course; opening the preview and then the other lesson does. */
  lemma PreviewOpensACycle()
    ensures !Acyclic(Known(Ids(PREVIEWED_CYCLE.modules), PREVIEWED_CYCLE.edges))
    ensures !CanBeFinished(PREVIEWED_CYCLE, map[], Continuing) && CanBeFinished(PREVIEWED_CYCLE, map[], Browsing)
  {
    var es := Known(Ids(PREVIEWED_CYCLE.modules), PREVIEWED_CYCLE.edges);
    PreviewedCycleShape(es);
    PreviewedCycleIsImpassable(es);
    PreviewedCycleIsPassable(es);
    hide CanBeFinished, Passable, Acyclic, Known, Identified;
    FinishableIffPassable(PREVIEWED_CYCLE, map[], Continuing);
    FinishableIffPassable(PREVIEWED_CYCLE, map[], Browsing);
  }

  // ---------------------------------------------------------------- why the cycle check matters

  /** Every module on the cycle owes a lesson. */
  ghost predicate Stuck(c: Course, p: Progress, cycle: seq<ModuleId>) {
    forall m :: m in c.modules && m.id in cycle ==> !ModuleComplete(p, m.lessons)
  }

  /** Modules that all owe a lesson and depend on each other in a loop are all locked. */
  lemma CycleIsLocked(c: Course, p: Progress, cycle: seq<ModuleId>, m: CourseModule)
    requires Cycle(Known(Ids(c.modules), c.edges), cycle) && Stuck(c, p, cycle)
    requires m in c.modules && m.id in cycle
    ensures Locked(c, p, m)
  {
    var es := Known(Ids(c.modules), c.edges);
    forall b | b in cycle ensures EnteredFrom(es, Elements(cycle), b) {
      CycleEntersItself(es, cycle, b);
    }
    TrapIsLocked(c, p, Continuing, Elements(cycle), m);
  }

  // ---------------------------------------------------------------- quizzes completed without a pass

  /** An edge that asks to pass a quiz which a missing score does not pass, and guards lessons that count. */
  ghost predicate QuizGate(c: Course, e: Edge) {
    && e in c.edges && e.requirement == Pass
    && (exists m, l :: LessonOf(c, m, l) && m.id == e.from && !l.draft && l.kind == Quiz && Threshold(l) > -1)
    && (exists m, l :: LessonOf(c, m, l) && m.id == e.to && !l.draft)
  }

  /** Recorded scores are percentages. */
  predicate RealScores(p: Progress) {
    forall id :: id in p && p[id].score.Some? ==> p[id].score.value >= 0
  }

  /** Whatever the recorded progress, the learner is offered something while work is left. */
  ghost predicate NeverStuck(c: Course) {
    forall p :: RealScores(p) && Unfinished(c, p) != {} ==> NextLesson(c, p).Some?
  }

  lemma NoGateCompletionOpens(c: Course, p: Progress)
    requires (forall e :: !QuizGate(c, e)) && RealScores(p)
    ensures CompletionOpens(c, p)
  {
    forall e, m | e in c.edges && m in c.modules && m.id == e.from && ModuleComplete(p, m.lessons) && e.to in Owing(c, p)
      ensures Met(c, p, e)
    {
      assert !QuizGate(c, e);
      var target :| target in c.modules && target.id == e.to && !ModuleComplete(p, target.lessons);
      var work :| work in target.lessons && !work.draft && !Done(p, work);
      assert LessonOf(c, target, work);
      if e.requirement == Pass {
        forall l | l in m.lessons && !l.draft && l.kind == Quiz ensures QuizPassed(p, l) {
          assert LessonOf(c, m, l);
        }
        assert ModulePassed(p, m.lessons);
      }
    }
  }

  /** Everything outside one module recorded as completed, without a score. */
  function CompletedUnscored(c: Course, except: ModuleId): Progress {
    map m, l | m in c.modules && l in m.lessons && m.id != except :: l.id := LessonProgress(Completed, None)
  }

  /** Behind a quiz gate a learner whose quiz was completed without a score is offered nothing while work is left. */
  lemma GateLeavesNothingOffered(c: Course, e: Edge)
    requires Identified(c) && QuizGate(c, e)
    ensures var p := CompletedUnscored(c, e.to);
            RealScores(p) && Unfinished(c, p) != {} && NextLesson(c, p).None?
  {
    var p := CompletedUnscored(c, e.to);
    var source, quiz :| LessonOf(c, source, quiz) && source.id == e.from && !quiz.draft && quiz.kind == Quiz
                        && Threshold(quiz) > -1;
    var target, work :| LessonOf(c, target, work) && target.id == e.to && !work.draft;
    if work.id in p {
      var m, l :| m in c.modules && l in m.lessons && m.id != e.to && l.id == work.id;
      assert LessonOf(c, m, l);
      assert false;
    }
    assert Owed(c, p, target, work);
    assert work.id in Unfinished(c, p);
    GateIsLocked(c, e, target, source, quiz);
    if NextLesson(c, p).Some? {
      var m, l := NextIsOpenWork(c, p);
      if m.id == e.to {
        SameModule(c, m, target);
      }
      assert false;
    }
  }

  lemma GateIsLocked(c: Course, e: Edge, target: CourseModule, source: CourseModule, quiz: Lesson)
    requires Identified(c) && e in c.edges && e.requirement == Pass
    requires target in c.modules && target.id == e.to
    requires LessonOf(c, source, quiz) && source.id == e.from && !quiz.draft && quiz.kind == Quiz && Threshold(quiz) > -1
    ensures Locked(c, CompletedUnscored(c, e.to), target)
  {
    var p := CompletedUnscored(c, e.to);
    KnownMembers(Ids(c.modules), c.edges);
    IdsMembers(c.modules);
    assert Arc(Known(Ids(c.modules), c.edges), e.from, target.id);
    assert !QuizPassed(p, quiz);
    if Met(c, p, e) {
      var m :| m in c.modules && m.id == e.from && ModulePassed(p, m.lessons);
      SameModule(c, m, source);
      assert false;
    }
    assert HasPrerequisite(c, target) && HasUnmetEdge(c, p, target);
    LockedByUnmetEdge(c, p, target);
  }

  /**
   * The progress service can record a quiz as completed without a score. An openable course
   * survives that exactly when no edge asks to pass a quiz before lessons that count.
   */
  lemma NeverStuckIffNoQuizGate(c: Course)
    requires Openable(c) && Identified(c)
    ensures NeverStuck(c) <==> forall e :: !QuizGate(c, e)
  {
    if forall e :: !QuizGate(c, e) {
      forall p | RealScores(p) && Unfinished(c, p) != {} ensures NextLesson(c, p).Some? {
        NoGateCompletionOpens(c, p);
        OpenableIsPassable(c, p);
        SomethingIsOffered(c, p);
      }
    } else {
      var e :| QuizGate(c, e);
      GateLeavesNothingOffered(c, e);
    }
  }
}
