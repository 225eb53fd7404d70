/**
 * Rubric marks: server/src/assignments/GradingService.js (computeScore, validateRubricScores) over
 * the rubric that server/src/assignments/AssignmentService.js validates and normalises.
 *
 * Points are reals; the two roundings of computeScore are exact.
 */
module Grading {
  import opened Basics

  type CriterionId = string

  datatype Level = Level(points: real)

  datatype Criterion = Criterion(id: CriterionId, title: string, maxPoints: real, levels: seq<Level>)

  datatype Score = Score(id: CriterionId, points: real)

  // ---------------------------------------------------------------- the rubric

  /** The sum of the criteria: normaliseRubric stores it as the rubric's total and the assignment's maxPoints. */
  function TotalPoints(criteria: seq<Criterion>): real {
    if criteria == [] then 0.0 else TotalPoints(criteria[..|criteria| - 1]) + criteria[|criteria| - 1].maxPoints
  }

  /** A criterion as it comes in; a missing title or maximum is None. */
  datatype DraftCriterion = DraftCriterion(id: Option<CriterionId>, title: Option<string>, maxPoints: Option<real>, levels: seq<Level>)

  datatype Draft = Draft(criteria: seq<DraftCriterion>, totalPoints: Option<real>)

  function OrZero(x: Option<real>): real {
    if x.Some? then x.value else 0.0
  }

  /** The sum of the maxima; a missing one counts nothing. */
  function DraftTotal(criteria: seq<DraftCriterion>): real {
    if criteria == [] then 0.0 else DraftTotal(criteria[..|criteria| - 1]) + OrZero(criteria[|criteria| - 1].maxPoints)
  }

  datatype RubricError =
    | NoCriteria
    | MissingTitle(index: nat)
    | WorthNothing(index: nat)
    | LevelTooHigh(index: nat, level: nat)
    | TotalMismatch

  /** Something is left of a title once it is trimmed. */
  predicate HasTitle(title: Option<string>) {
    title.Some? && exists i :: 0 <= i < |title.value| && !IsSpace(title.value[i])
  }

  /** A title counts exactly if trimming leaves something of it. */
  lemma TitleCountsIffTrimmed(title: Option<string>)
    ensures HasTitle(title) <==> title.Some? && Trim(title.value) != ""
  {
    if title.Some? {
      TrimLeavesNonSpace(title.value);
    }
  }

  predicate RubricFault(criteria: seq<DraftCriterion>, e: RubricError) {
    match e
    case MissingTitle(i) => i < |criteria| && !HasTitle(criteria[i].title)
    case WorthNothing(i) => i < |criteria| && OrZero(criteria[i].maxPoints) <= 0.0
    case LevelTooHigh(i, k) =>
      && i < |criteria| && k < |criteria[i].levels|
      && criteria[i].maxPoints.Some? && criteria[i].levels[k].points > criteria[i].maxPoints.value
    case _ => false
  }

  function Abs(x: real): real {
    if x < 0.0 then -x else x
  }

  /**
   * No rubric is fine, an empty one is not, and otherwise exactly the criteria that are unnamed,
   * worth nothing or below one of their levels are reported, and a stated total that is not the sum.
   */
  method ValidateRubric(rubric: Option<Draft>) returns (valid: bool, errors: seq<RubricError>, sum: real)
    ensures valid <==> errors == []
    ensures rubric.None? ==> errors == [] && sum == 0.0
    ensures rubric.Some? && rubric.value.criteria == [] ==> errors == [NoCriteria] && sum == 0.0
    ensures rubric.Some? && rubric.value.criteria != [] ==>
              var Draft(criteria, totalPoints) := rubric.value;
              && sum == DraftTotal(criteria)
              && forall e :: e in errors <==>
                   || RubricFault(criteria, e)
                   || (e == TotalMismatch && totalPoints.Some? && Abs(DraftTotal(criteria) - totalPoints.value) > 0.001)
  {
    errors := [];
    if rubric.None? {
      return true, [], 0.0;
    }
    var criteria, totalPoints := rubric.value.criteria, rubric.value.totalPoints;
    if criteria == [] {
      return false, [NoCriteria], 0.0;
    }
    sum := SumOf(criteria);
    for i := 0 to |criteria|
      invariant forall e :: e in errors <==> RubricFault(criteria, e) && e.index < i
    {
      var maxPoints := criteria[i].maxPoints;
      if !HasTitle(criteria[i].title) {
        errors := errors + [MissingTitle(i)];
      }
      if !(maxPoints.Some? && maxPoints.value > 0.0) {
        errors := errors + [WorthNothing(i)];
      }
      for k := 0 to |criteria[i].levels|
        invariant forall e :: e in errors <==>
          RubricFault(criteria, e) && (e.index < i || (e.index == i && (e.LevelTooHigh? ==> e.level < k)))
      {
        if maxPoints.Some? && criteria[i].levels[k].points > maxPoints.value {
          errors := errors + [LevelTooHigh(i, k)];
        }
      }
    }
    if totalPoints.Some? && Abs(sum - totalPoints.value) > 0.001 {
      errors := errors + [TotalMismatch];
    }
    valid := |errors| == 0;
  }

  method SumOf(criteria: seq<DraftCriterion>) returns (sum: real)
    ensures sum == DraftTotal(criteria)
  {
    sum := 0.0;
    for i := 0 to |criteria|
      invariant sum == DraftTotal(criteria[..i])
    {
      assert criteria[..i + 1][..i] == criteria[..i];
      sum := sum + OrZero(criteria[i].maxPoints);
    }
    assert criteria[..|criteria|] == criteria;
  }

  ghost predicate Faultless(criteria: seq<DraftCriterion>) {
    forall e :: !RubricFault(criteria, e)
  }

  /** normaliseRubric of criteria that passed: one without an id gets a fresh one. */
  function Normalised(criteria: seq<DraftCriterion>, uuids: seq<CriterionId>): (r: seq<Criterion>)
    requires |uuids| == |criteria|
    requires forall c :: c in criteria ==> c.title.Some? && c.maxPoints.Some?
    ensures |r| == |criteria|
  {
    seq(|criteria|, i requires 0 <= i < |criteria| =>
      var c := criteria[i];
      Criterion(if c.id.Some? then c.id.value else uuids[i], c.title.value, c.maxPoints.value, c.levels))
  }

  /** Every criterion is stored in its place as it came, with its own id if it brought one. */
  lemma StoredAsGiven(criteria: seq<DraftCriterion>, uuids: seq<CriterionId>, i: nat)
    requires |uuids| == |criteria| && i < |criteria|
    requires forall c :: c in criteria ==> c.title.Some? && c.maxPoints.Some?
    ensures var c := Normalised(criteria, uuids)[i];
            && Some(c.title) == criteria[i].title && Some(c.maxPoints) == criteria[i].maxPoints
            && c.levels == criteria[i].levels
            && (criteria[i].id == Some(c.id) || (criteria[i].id == None && c.id == uuids[i]))
  {
  }

  lemma FaultlessIsComplete(criteria: seq<DraftCriterion>)
    requires Faultless(criteria)
    ensures forall c :: c in criteria ==> HasTitle(c.title) && c.maxPoints.Some? && c.maxPoints.value > 0.0
  {
    forall c | c in criteria ensures HasTitle(c.title) && c.maxPoints.Some? && c.maxPoints.value > 0.0 {
      var i: nat :| i < |criteria| && criteria[i] == c;
      assert !RubricFault(criteria, MissingTitle(i)) && !RubricFault(criteria, WorthNothing(i));
    }
  }

  /** What passes the validation is stored with the total it was validated with, every criterion worth something. */
  lemma {:induction false} StoredRubricIsWorth(criteria: seq<DraftCriterion>, uuids: seq<CriterionId>)
    requires Faultless(criteria) && |uuids| == |criteria|
    ensures forall c :: c in criteria ==> c.title.Some? && c.maxPoints.Some?
    ensures Worth(Normalised(criteria, uuids))
    ensures TotalPoints(Normalised(criteria, uuids)) == DraftTotal(criteria)
    ensures forall c, l :: c in Normalised(criteria, uuids) && l in c.levels ==> l.points <= c.maxPoints
    decreases |criteria|
  {
    FaultlessIsComplete(criteria);
    var stored := Normalised(criteria, uuids);
    forall c, l | c in stored && l in c.levels ensures l.points <= c.maxPoints {
      var i: nat :| i < |criteria| && stored[i] == c;
      var k: nat :| k < |c.levels| && c.levels[k] == l;
      assert !RubricFault(criteria, LevelTooHigh(i, k));
    }
    forall c | c in stored ensures c.maxPoints > 0.0 {
      var i: nat :| i < |criteria| && stored[i] == c;
      assert criteria[i] in criteria;
    }
    if criteria != [] {
      var n := |criteria| - 1;
      forall e ensures !RubricFault(criteria[..n], e) {
        assert !RubricFault(criteria, e);
      }
      StoredRubricIsWorth(criteria[..n], uuids[..n]);
      assert stored[..n] == Normalised(criteria[..n], uuids[..n]);
    }
  }

  // ---------------------------------------------------------------- scores against the rubric

  ghost predicate Scored(scores: seq<Score>, id: CriterionId) {
    exists s :: s in scores && s.id == id
  }

  ghost predicate KnownCriterion(criteria: seq<Criterion>, id: CriterionId) {
    exists c :: c in criteria && c.id == id
  }

  /** `criteria.find((entry) => entry.criterionId === id)` */
  function Find(criteria: seq<Criterion>, id: CriterionId): (r: Option<Criterion>)
    ensures r.Some? ==> r.value in criteria && r.value.id == id
    ensures r.None? ==> forall c :: c in criteria ==> c.id != id
  {
    if criteria == [] then None
    else
      assert criteria == [criteria[0]] + criteria[1..];
      if criteria[0].id == id then Some(criteria[0]) else Find(criteria[1..], id)
  }

  /** Of several criteria with one id the scores are checked against the first. */
  lemma {:induction false} FirstIsFound(criteria: seq<Criterion>, k: nat)
    requires k < |criteria| && forall j :: 0 <= j < k ==> criteria[j].id != criteria[k].id
    ensures Find(criteria, criteria[k].id) == Some(criteria[k])
  {
    if k > 0 {
      assert criteria[1..][k - 1] == criteria[k];
      forall j | 0 <= j < k - 1 ensures criteria[1..][j].id != criteria[k].id {
        assert criteria[1..][j] == criteria[j + 1];
      }
      FirstIsFound(criteria[1..], k - 1);
    }
  }

  datatype ScoreError = NotScored(id: CriterionId) | NotInRubric(id: CriterionId) | AboveMaximum(id: CriterionId)

  /** Every criterion scored, every score for a criterion, none above its maximum; repeated scores pass. */
  ghost predicate Accepted(criteria: seq<Criterion>, scores: seq<Score>) {
    && (forall c :: c in criteria ==> Scored(scores, c.id))
    && (forall s :: s in scores ==> Find(criteria, s.id).Some? && s.points <= Find(criteria, s.id).value.maxPoints)
  }

  /** A criterion without a score, a score without a criterion, or a score above its criterion's maximum. */
  ghost predicate ScoreFault(criteria: seq<Criterion>, scores: seq<Score>, e: ScoreError) {
    match e
    case NotScored(id) => KnownCriterion(criteria, id) && !Scored(scores, id)
    case NotInRubric(id) => Scored(scores, id) && !KnownCriterion(criteria, id)
    case AboveMaximum(id) => exists s :: s in scores && s.id == id && TooHigh(criteria, s)
  }

  predicate TooHigh(criteria: seq<Criterion>, s: Score) {
    Find(criteria, s.id).Some? && s.points > Find(criteria, s.id).value.maxPoints
  }

  lemma AcceptedIffFaultless(criteria: seq<Criterion>, scores: seq<Score>)
    ensures Accepted(criteria, scores) <==> forall e :: !ScoreFault(criteria, scores, e)
  {
    if forall e :: !ScoreFault(criteria, scores, e) {
      forall c | c in criteria ensures Scored(scores, c.id) {
        assert !ScoreFault(criteria, scores, NotScored(c.id));
      }
      forall s | s in scores ensures Find(criteria, s.id).Some? && s.points <= Find(criteria, s.id).value.maxPoints {
        assert !ScoreFault(criteria, scores, NotInRubric(s.id)) && !ScoreFault(criteria, scores, AboveMaximum(s.id));
      }
    }
  }

  /** No rubric leaves nothing to score; otherwise exactly the faults are reported. */
  method ValidateRubricScores(rubric: Option<seq<Criterion>>, scores: seq<Score>) returns (errors: seq<ScoreError>)
    ensures rubric.None? ==> errors == []
    ensures rubric.Some? ==> forall e :: e in errors <==> ScoreFault(rubric.value, scores, e)
    ensures rubric.Some? ==> (errors == [] <==> Accepted(rubric.value, scores))
  {
    errors := [];
    if rubric.None? {
      return;
    }
    var criteria := rubric.value;
    var scored := set s | s in scores :: s.id;
    for i := 0 to |criteria|
      invariant forall e :: e in errors <==> e.NotScored? && KnownCriterion(criteria[..i], e.id) && !Scored(scores, e.id)
    {
      assert criteria[..i + 1] == criteria[..i] + [criteria[i]];
      assert criteria[i].id in scored <==> Scored(scores, criteria[i].id);
      if criteria[i].id !in scored {
        errors := errors + [NotScored(criteria[i].id)];
      }
    }
    assert criteria[..|criteria|] == criteria;
    for i := 0 to |scores|
      invariant forall e :: e in errors <==> if e.NotScored? then ScoreFault(criteria, scores, e)
                                             else ScoreFault(criteria, scores[..i], e)
    {
      assert scores[..i + 1] == scores[..i] + [scores[i]];
      OneMoreScore(criteria, scores[..i], scores[i]);
      var c := Find(criteria, scores[i].id);
      if c.None? {
        errors := errors + [NotInRubric(scores[i].id)];
      } else if scores[i].points > c.value.maxPoints {
        errors := errors + [AboveMaximum(scores[i].id)];
      }
    }
    assert scores[..|scores|] == scores;
    AcceptedIffFaultless(criteria, scores);
    NonEmptyHasMember(errors);
  }

  /** The faults of scores, one score after the other. */
  lemma OneMoreScore(criteria: seq<Criterion>, scores: seq<Score>, s: Score)
    ensures forall e: ScoreError :: !e.NotScored? ==>
              (ScoreFault(criteria, scores + [s], e) <==>
                || ScoreFault(criteria, scores, e)
                || (e == NotInRubric(s.id) && Find(criteria, s.id).None?)
                || (e == AboveMaximum(s.id) && TooHigh(criteria, s)))
  {
    forall e: ScoreError | e.NotInRubric? ensures Scored(scores + [s], e.id) <==> Scored(scores, e.id) || s.id == e.id {
      if s.id == e.id {
        assert s in scores + [s];
      }
      if t :| t in scores && t.id == e.id {
        assert t in scores + [s];
      }
    }
    forall e: ScoreError | e.AboveMaximum? && (ScoreFault(criteria, scores, e) || (e.id == s.id && TooHigh(criteria, s)))
      ensures ScoreFault(criteria, scores + [s], e)
    {
      if t :| t in scores && t.id == e.id && TooHigh(criteria, t) {
        assert t in scores + [s];
      } else {
        assert s in scores + [s];
      }
    }
  }

  // ---------------------------------------------------------------- the score

  function Clamp(x: real, top: real): real {
    var low := if x < 0.0 then 0.0 else x;
    if low > top then top else low
  }

  /** What `new Map` keeps under an id: the last criterion that has it. */
  function Kept(criteria: seq<Criterion>, id: CriterionId): (r: Option<Criterion>)
    ensures r.Some? ==> r.value in criteria && r.value.id == id
    ensures r.None? ==> forall c :: c in criteria ==> c.id != id
  {
    if criteria == [] then None
    else
      var n := |criteria| - 1;
      assert criteria == criteria[..n] + [criteria[n]];
      if criteria[n].id == id then Some(criteria[n]) else Kept(criteria[..n], id)
  }

  /** What one score adds: nothing outside the rubric, otherwise its points within 0 and the maximum. */
  function Earned(criteria: seq<Criterion>, s: Score): real {
    var c := Kept(criteria, s.id);
    if c.None? then 0.0 else Clamp(s.points, c.value.maxPoints)
  }

  function RawPoints(criteria: seq<Criterion>, scores: seq<Score>): real {
    if scores == [] then 0.0
    else RawPoints(criteria, scores[..|scores| - 1]) + Earned(criteria, scores[|scores| - 1])
  }

  /** Math.round: halves go up. */
  function Round(x: real): int {
    (x + 0.5).Floor
  }

  /** Rounded to two decimals. */
  function RoundCents(x: real): real {
    Round(x * 100.0) as real / 100.0
  }

  datatype Marking = Marking(rawPoints: real, points: real, percent: int, passed: bool)

  /** From raw points to the numbers that are stored; penalty is 0 for work in time. */
  function MarkOf(raw: real, maxPoints: real, penalty: real, passPercent: real): Marking {
    var after := raw * (1.0 - penalty / 100.0);
    var percent := if maxPoints == 0.0 then 0 else Round(after / maxPoints * 100.0);
    Marking(RoundCents(raw), RoundCents(after), percent, percent as real >= passPercent)
  }

  /** Points before any penalty: from the rubric if there is one, otherwise the one number given. */
  function RawOf(rubric: Option<seq<Criterion>>, scores: seq<Score>, points: Option<real>, maxPoints: real): real {
    if rubric.Some? then RawPoints(rubric.value, scores)
    else Clamp(if points.Some? then points.value else 0.0, maxPoints)
  }

  /** The criteria by id, a later one replacing an earlier one. */
  method ById(criteria: seq<Criterion>) returns (byId: map<CriterionId, Criterion>)
    ensures forall id :: Kept(criteria, id) == if id in byId then Some(byId[id]) else None
  {
    byId := map[];
    for i := 0 to |criteria|
      invariant forall id :: Kept(criteria[..i], id) == if id in byId then Some(byId[id]) else None
    {
      assert criteria[..i + 1][..i] == criteria[..i];
      byId := byId[criteria[i].id := criteria[i]];
    }
    assert criteria[..|criteria|] == criteria;
  }

  method ComputeScore(rubric: Option<seq<Criterion>>, scores: seq<Score>, points: Option<real>, maxPoints: real,
                      passPercent: real, late: bool, latePenaltyPercent: real) returns (m: Marking)
    ensures m == MarkOf(RawOf(rubric, scores, points, maxPoints), maxPoints,
                        if late then latePenaltyPercent else 0.0, passPercent)
  {
    var raw := 0.0;
    if rubric.Some? {
      var byId := ById(rubric.value);
      for i := 0 to |scores|
        invariant raw == RawPoints(rubric.value, scores[..i])
      {
        assert scores[..i + 1][..i] == scores[..i];
        if scores[i].id in byId {
          raw := raw + Clamp(scores[i].points, byId[scores[i].id].maxPoints);
        }
      }
      assert scores[..|scores|] == scores;
    } else {
      raw := Clamp(if points.Some? then points.value else 0.0, maxPoints);
    }
    m := MarkOf(raw, maxPoints, if late then latePenaltyPercent else 0.0, passPercent);
  }

  // ---------------------------------------------------------------- raw points against the total

  ghost predicate DistinctCriteria(criteria: seq<Criterion>) {
    forall i, j :: 0 <= i < j < |criteria| ==> criteria[i].id != criteria[j].id
  }

  ghost predicate DistinctScores(scores: seq<Score>) {
    forall i, j :: 0 <= i < j < |scores| ==> scores[i].id != scores[j].id
  }

  ghost predicate Worth(criteria: seq<Criterion>) {
    forall c :: c in criteria ==> c.maxPoints > 0.0
  }

  function Without<T>(s: seq<T>, k: nat): seq<T>
    requires k < |s|
  {
    s[..k] + s[k + 1..]
  }

  lemma StillIn<T>(s: seq<T>, k: nat, x: T)
    requires k < |s| && x in s && x != s[k]
    ensures x in Without(s, k)
  {
    var i :| 0 <= i < |s| && s[i] == x;
    assert Without(s, k)[if i < k then i else i - 1] == x;
  }

  lemma {:induction false} TotalWithout(criteria: seq<Criterion>, k: nat)
    requires k < |criteria|
    ensures TotalPoints(criteria) == TotalPoints(Without(criteria, k)) + criteria[k].maxPoints
    decreases |criteria|
  {
    var n := |criteria| - 1;
    var without := Without(criteria, k);
    if k == n {
      assert without == criteria[..n];
    } else {
      TotalWithout(criteria[..n], k);
      assert without[..|without| - 1] == Without(criteria[..n], k);
      assert without[|without| - 1] == criteria[n];
    }
  }

  lemma {:induction false} TotalIsPositive(criteria: seq<Criterion>)
    requires Worth(criteria)
    ensures TotalPoints(criteria) >= 0.0
  {
    if criteria != [] {
      TotalIsPositive(criteria[..|criteria| - 1]);
      assert criteria[|criteria| - 1] in criteria;
    }
  }

  /** Among distinct ids, either lookup is position. */
  lemma FindAt(criteria: seq<Criterion>, k: nat)
    requires DistinctCriteria(criteria) && k < |criteria|
    ensures Find(criteria, criteria[k].id) == Some(criteria[k]) && Kept(criteria, criteria[k].id) == Some(criteria[k])
  {
    var found, kept := Find(criteria, criteria[k].id), Kept(criteria, criteria[k].id);
    assert criteria[k] in criteria;
    var i :| 0 <= i < |criteria| && criteria[i] == found.value;
    var j :| 0 <= j < |criteria| && criteria[j] == kept.value;
    assert i == k && j == k;
  }

  lemma KeptIsFound(criteria: seq<Criterion>, id: CriterionId)
    requires DistinctCriteria(criteria)
    ensures Kept(criteria, id) == Find(criteria, id)
  {
    if Kept(criteria, id).Some? {
      var k :| 0 <= k < |criteria| && criteria[k] == Kept(criteria, id).value;
      FindAt(criteria, k);
    }
  }

  lemma {:induction false} KeptWithout(criteria: seq<Criterion>, k: nat, id: CriterionId)
    requires k < |criteria| && id != criteria[k].id
    ensures Kept(Without(criteria, k), id) == Kept(criteria, id)
    decreases |criteria|
  {
    hide Kept;
    var n, without := |criteria| - 1, Without(criteria, k);
    KeptSnoc(criteria[..n], criteria[n], id);
    assert criteria == criteria[..n] + [criteria[n]];
    if k == n {
      assert without == criteria[..n];
    } else {
      KeptWithout(criteria[..n], k, id);
      KeptSnoc(Without(criteria[..n], k), criteria[n], id);
      assert without == Without(criteria[..n], k) + [criteria[n]];
    }
  }

  lemma KeptSnoc(criteria: seq<Criterion>, c: Criterion, id: CriterionId)
    ensures Kept(criteria + [c], id) == if c.id == id then Some(c) else Kept(criteria, id)
  {
    assert (criteria + [c])[..|criteria|] == criteria;
  }

  lemma {:induction false} RawWithout(criteria: seq<Criterion>, k: nat, scores: seq<Score>)
    requires k < |criteria|
    requires forall s :: s in scores ==> s.id != criteria[k].id
    ensures RawPoints(Without(criteria, k), scores) == RawPoints(criteria, scores)
  {
    if scores != [] {
      var n := |scores| - 1;
      RawWithout(criteria, k, scores[..n]);
      assert scores[n] in scores;
      KeptWithout(criteria, k, scores[n].id);
    }
  }

  lemma WithoutIsWorth(criteria: seq<Criterion>, k: nat)
    requires Worth(criteria) && k < |criteria|
    ensures Worth(Without(criteria, k))
  {
    var without := Without(criteria, k);
    assert forall i :: 0 <= i < |without| ==> without[i] == if i < k then criteria[i] else criteria[i + 1];
  }

  /** With one score per criterion the raw points never exceed the rubric's total. */
  lemma {:induction false} RawWithinTotal(criteria: seq<Criterion>, scores: seq<Score>)
    requires Worth(criteria) && DistinctScores(scores)
    ensures 0.0 <= RawPoints(criteria, scores) <= TotalPoints(criteria)
    decreases |scores|
  {
    if scores == [] {
      TotalIsPositive(criteria);
    } else {
      var n := |scores| - 1;
      var kept := Kept(criteria, scores[n].id);
      if kept.None? {
        RawWithinTotal(criteria, scores[..n]);
      } else {
        var k :| 0 <= k < |criteria| && criteria[k] == kept.value;
        WithoutIsWorth(criteria, k);
        RawWithinTotal(Without(criteria, k), scores[..n]);
        RawWithout(criteria, k, scores[..n]);
        TotalWithout(criteria, k);
      }
    }
  }

  // ---------------------------------------------------------------- bounds and monotonicity

  /** A whole number of hundredths. */
  ghost predicate Hundredths(x: real) {
    (x * 100.0).Floor as real == x * 100.0
  }

  lemma RoundIsMonotone(x: real, y: real)
    requires x <= y
    ensures Round(x) <= Round(y)
  {
  }

  lemma CentsOf(n: int, x: real)
    ensures n as real / 100.0 <= x <==> n as real <= x * 100.0
  {
  }

  lemma CentsAreMonotone(x: real, y: real)
    requires x <= y
    ensures RoundCents(x) <= RoundCents(y)
  {
    RoundIsMonotone(x * 100.0, y * 100.0);
    CentsInOrder(Round(x * 100.0), Round(y * 100.0));
  }

  lemma CentsInOrder(a: int, b: int)
    requires a <= b
    ensures a as real / 100.0 <= b as real / 100.0
  {
  }

  /** Rounding to cents moves a value by at most half a cent, and halves go up. */
  lemma RoundCentsIsNearest(x: real)
    ensures -0.005 < RoundCents(x) - x <= 0.005
  {
    var n := Round(x * 100.0);
    assert -0.5 < n as real - x * 100.0 <= 0.5;
    assert RoundCents(x) * 100.0 == n as real;
  }

  lemma RoundOfHundredths(x: real)
    requires Hundredths(x)
    ensures RoundCents(x) <= x
  {
    var n := (x * 100.0).Floor;
    assert Round(n as real) == n;
    CentsOf(n, x);
  }

  lemma PenaltyShrinks(raw: real, penalty: real)
    requires raw >= 0.0 && 0.0 <= penalty <= 100.0
    ensures 0.0 <= raw * (1.0 - penalty / 100.0) <= raw
  {
    var f := 1.0 - penalty / 100.0;
    assert 0.0 <= f <= 1.0;
    Scale(raw, 0.0, f);
    Scale(raw, f, 1.0);
  }

  lemma Scale(x: real, a: real, b: real)
    requires x >= 0.0 && a <= b
    ensures x * a <= x * b
  {
  }

  lemma ShareOfMax(after: real, maxPoints: real)
    requires 0.0 <= after <= maxPoints && maxPoints > 0.0
    ensures 0.0 <= after / maxPoints <= 1.0
  {
  }

  lemma ShareIsMonotone(a: real, b: real, maxPoints: real)
    requires a <= b && maxPoints > 0.0
    ensures a / maxPoints <= b / maxPoints
  {
  }

  lemma PercentIsBounded(after: real, maxPoints: real)
    requires 0.0 <= after <= maxPoints && maxPoints > 0.0
    ensures 0 <= Round(after / maxPoints * 100.0) <= 100
  {
    ShareOfMax(after, maxPoints);
    RoundIsMonotone(0.0, after / maxPoints * 100.0);
    RoundIsMonotone(after / maxPoints * 100.0, 100.0);
  }

  lemma MarkIsBounded(raw: real, maxPoints: real, penalty: real, passPercent: real)
    requires 0.0 <= raw <= maxPoints && Hundredths(maxPoints) && 0.0 <= penalty <= 100.0
    ensures var m := MarkOf(raw, maxPoints, penalty, passPercent);
            0.0 <= m.points <= m.rawPoints <= maxPoints && 0 <= m.percent <= 100
  {
    var after := raw * (1.0 - penalty / 100.0);
    PenaltyShrinks(raw, penalty);
    CentsAreMonotone(0.0, after);
    CentsAreMonotone(after, raw);
    CentsAreMonotone(raw, maxPoints);
    RoundOfHundredths(maxPoints);
    if maxPoints > 0.0 {
      PercentIsBounded(after, maxPoints);
    }
  }

  /**
   * The stored numbers are the earned points, the share of them the penalty leaves, and that share of
   * the maximum, each rounded to nearest.
   */
  lemma MarkIsNearest(raw: real, maxPoints: real, penalty: real, passPercent: real)
    ensures var m := MarkOf(raw, maxPoints, penalty, passPercent);
            && -0.005 < m.rawPoints - raw <= 0.005
            && -0.005 < m.points - raw * (1.0 - penalty / 100.0) <= 0.005
            && (maxPoints != 0.0 ==> -0.5 < m.percent as real - raw * (1.0 - penalty / 100.0) / maxPoints * 100.0 <= 0.5)
            && (maxPoints == 0.0 ==> m.percent == 0)
            && Hundredths(m.rawPoints) && Hundredths(m.points)
            && (m.passed <==> m.percent as real >= passPercent)
  {
    RoundCentsIsNearest(raw);
    RoundCentsIsNearest(raw * (1.0 - penalty / 100.0));
  }

  lemma PercentIsMonotone(a: real, b: real, maxPoints: real)
    requires a <= b && maxPoints > 0.0
    ensures Round(a / maxPoints * 100.0) <= Round(b / maxPoints * 100.0)
  {
    ShareIsMonotone(a, b, maxPoints);
    RoundIsMonotone(a / maxPoints * 100.0, b / maxPoints * 100.0);
  }

  lemma PenaltyKeepsOrder(raw: real, more: real, penalty: real)
    requires raw <= more && penalty <= 100.0
    ensures raw * (1.0 - penalty / 100.0) <= more * (1.0 - penalty / 100.0)
  {
    Scale(1.0 - penalty / 100.0, raw, more);
  }

  lemma MarkIsMonotone(raw: real, more: real, maxPoints: real, penalty: real, passPercent: real)
    requires raw <= more && maxPoints >= 0.0 && penalty <= 100.0
    ensures var a := MarkOf(raw, maxPoints, penalty, passPercent); var b := MarkOf(more, maxPoints, penalty, passPercent);
            a.rawPoints <= b.rawPoints && a.points <= b.points && a.percent <= b.percent && (a.passed ==> b.passed)
  {
    var after, afterMore := raw * (1.0 - penalty / 100.0), more * (1.0 - penalty / 100.0);
    PenaltyKeepsOrder(raw, more, penalty);
    CentsAreMonotone(raw, more);
    CentsAreMonotone(after, afterMore);
    if maxPoints > 0.0 {
      PercentIsMonotone(after, afterMore, maxPoints);
    }
  }

  /**
   * With one score per criterion and the rubric's total in whole hundredths, the stored numbers
   * are in order: 0 <= points <= rawPoints <= maxPoints, and the percentage is one.
   */
  lemma RubricMarkIsBounded(criteria: seq<Criterion>, scores: seq<Score>, penalty: real, passPercent: real)
    requires Worth(criteria) && DistinctScores(scores)
    requires Hundredths(TotalPoints(criteria)) && 0.0 <= penalty <= 100.0
    ensures var m := MarkOf(RawPoints(criteria, scores), TotalPoints(criteria), penalty, passPercent);
            0.0 <= m.points <= m.rawPoints <= TotalPoints(criteria) && 0 <= m.percent <= 100
  {
    RawWithinTotal(criteria, scores);
    MarkIsBounded(RawPoints(criteria, scores), TotalPoints(criteria), penalty, passPercent);
  }

  lemma {:induction false} RawIsMonotone(criteria: seq<Criterion>, scores: seq<Score>, raised: seq<Score>)
    requires |scores| == |raised|
    requires forall i :: 0 <= i < |scores| ==> scores[i].id == raised[i].id && scores[i].points <= raised[i].points
    ensures RawPoints(criteria, scores) <= RawPoints(criteria, raised)
  {
    if scores != [] {
      var n := |scores| - 1;
      RawIsMonotone(criteria, scores[..n], raised[..n]);
    }
  }

  /** Raising any scores never lowers the points, the percentage or the verdict. */
  lemma RaisingNeverLowers(criteria: seq<Criterion>, scores: seq<Score>, raised: seq<Score>,
                           maxPoints: real, penalty: real, passPercent: real)
    requires |scores| == |raised| && maxPoints >= 0.0 && penalty <= 100.0
    requires forall i :: 0 <= i < |scores| ==> scores[i].id == raised[i].id && scores[i].points <= raised[i].points
    ensures var a := MarkOf(RawPoints(criteria, scores), maxPoints, penalty, passPercent);
            var b := MarkOf(RawPoints(criteria, raised), maxPoints, penalty, passPercent);
            a.points <= b.points && a.percent <= b.percent && (a.passed ==> b.passed)
  {
    RawIsMonotone(criteria, scores, raised);
    MarkIsMonotone(RawPoints(criteria, scores), RawPoints(criteria, raised), maxPoints, penalty, passPercent);
  }

  // ---------------------------------------------------------------- what a mark is made of

  /**
   * Points within the last criterion of that id count as given; below zero counts nothing, and above
   * the maximum counts the maximum.
   */
  lemma EarnedByCriterion(criteria: seq<Criterion>, k: nat, s: Score)
    requires k < |criteria| && s.id == criteria[k].id && criteria[k].maxPoints >= 0.0
    requires forall j :: k < j < |criteria| ==> criteria[j].id != s.id
    ensures 0.0 <= s.points <= criteria[k].maxPoints ==> Earned(criteria, s) == s.points
    ensures s.points < 0.0 ==> Earned(criteria, s) == 0.0
    ensures s.points > criteria[k].maxPoints ==> Earned(criteria, s) == criteria[k].maxPoints
  {
    LastIsKept(criteria, k);
  }

  lemma {:induction false} LastIsKept(criteria: seq<Criterion>, k: nat)
    requires k < |criteria| && forall j :: k < j < |criteria| ==> criteria[j].id != criteria[k].id
    ensures Kept(criteria, criteria[k].id) == Some(criteria[k])
    decreases |criteria|
  {
    var n := |criteria| - 1;
    if k < n {
      LastIsKept(criteria[..n], k);
    }
  }

  lemma UnknownEarnsNothing(criteria: seq<Criterion>, s: Score)
    requires forall c :: c in criteria ==> c.id != s.id
    ensures Earned(criteria, s) == 0.0
  {
  }

  /** The points given, added up as they are. */
  function PointsGiven(scores: seq<Score>): real {
    if scores == [] then 0.0 else PointsGiven(scores[..|scores| - 1]) + scores[|scores| - 1].points
  }

  ghost predicate NonNegative(scores: seq<Score>) {
    forall s :: s in scores ==> s.points >= 0.0
  }

  /** Scores of the rubric never earn more than was given, and all of it exactly if none is cut. */
  lemma {:induction false} RawAgainstGiven(criteria: seq<Criterion>, scores: seq<Score>)
    requires Worth(criteria) && NonNegative(scores)
    ensures RawPoints(criteria, scores) <= PointsGiven(scores)
    ensures RawPoints(criteria, scores) == PointsGiven(scores) <==> forall s :: s in scores ==> Earned(criteria, s) == s.points
  {
    if scores != [] {
      var n := |scores| - 1;
      assert scores == scores[..n] + [scores[n]];
      RawAgainstGiven(criteria, scores[..n]);
    }
  }

  /** Whatever is accepted, none of it negative, counts in full. */
  ghost predicate CountsInFull(criteria: seq<Criterion>) {
    forall scores, points, maxPoints :: Accepted(criteria, scores) && NonNegative(scores) ==>
      RawOf(Some(criteria), scores, points, maxPoints) == PointsGiven(scores)
  }

  /** No criterion gives way to a later one of its id that is worth less than the first. */
  ghost predicate NoneShrinks(criteria: seq<Criterion>) {
    forall c, d {:trigger Kept(criteria, c.id), d in criteria} ::
      c in criteria && d in criteria && Find(criteria, c.id) == Some(c) && Kept(criteria, c.id) == Some(d) ==>
        c.maxPoints <= d.maxPoints
  }

  /**
   * validateRubricScores finds the first criterion of an id, computeScore keeps the last. What the
   * one accepts the other counts in full exactly if the last is never worth less than the first.
   */
  lemma AcceptedCountsInFullIff(criteria: seq<Criterion>)
    requires Worth(criteria)
    ensures CountsInFull(criteria) <==> NoneShrinks(criteria)
  {
    if NoneShrinks(criteria) {
      forall scores | Accepted(criteria, scores) && NonNegative(scores)
        ensures RawPoints(criteria, scores) == PointsGiven(scores)
      {
        forall s | s in scores ensures Earned(criteria, s) == s.points {
          var c, d := Find(criteria, s.id), Kept(criteria, s.id);
          assert c.value in criteria && d.value in criteria;
        }
        RawAgainstGiven(criteria, scores);
      }
    } else {
      var c, d :| c in criteria && d in criteria && Find(criteria, c.id) == Some(c) && Kept(criteria, c.id) == Some(d)
                  && c.maxPoints > d.maxPoints;
      ShrunkIsCut(criteria, c, d);
    }
  }

  /** Full marks for all criteria are accepted, and cut where a criterion shrinks. */
  lemma ShrunkIsCut(criteria: seq<Criterion>, c: Criterion, d: Criterion)
    requires Worth(criteria) && c in criteria && d in criteria && c.maxPoints > d.maxPoints
    requires Find(criteria, c.id) == Some(c) && Kept(criteria, c.id) == Some(d)
    ensures !CountsInFull(criteria)
  {
    var ids := seq(|criteria|, i requires 0 <= i < |criteria| => criteria[i].id);
    forall b | b in criteria ensures b.id in ids {
      var i :| 0 <= i < |criteria| && criteria[i] == b;
      assert ids[i] == b.id;
    }
    var scores := FullMarks(criteria, ids);
    FullMarksAccepted(criteria, ids);
    FullMarksShape(criteria, ids);
    var i :| 0 <= i < |ids| && ids[i] == c.id;
    assert scores[i] in scores && scores[i].points == c.maxPoints;
    RawAgainstGiven(criteria, scores);
    assert RawOf(Some(criteria), scores, None, 0.0) != PointsGiven(scores);
  }

  /** With distinct ids accepted scores count in full. */
  lemma AcceptedScoresCountInFull(criteria: seq<Criterion>)
    requires Worth(criteria) && DistinctCriteria(criteria)
    ensures CountsInFull(criteria)
  {
    forall c | c in criteria ensures Kept(criteria, c.id) == Find(criteria, c.id) {
      KeptIsFound(criteria, c.id);
    }
    AcceptedCountsInFullIff(criteria);
  }

  /** Without a penalty the points are the raw points. */
  lemma NoPenaltyLosesNothing(raw: real, maxPoints: real, passPercent: real)
    ensures var m := MarkOf(raw, maxPoints, 0.0, passPercent); m.points == m.rawPoints
  {
    assert raw * (1.0 - 0.0 / 100.0) == raw;
  }

  /** Without a rubric the one number given counts, within 0 and the maximum; none given counts nothing. */
  lemma PlainMark(scores: seq<Score>, points: Option<real>, maxPoints: real)
    requires maxPoints >= 0.0
    ensures var raw := RawOf(None, scores, points, maxPoints);
            match points
            case None => raw == 0.0
            case Some(p) =>
              && (0.0 <= p <= maxPoints ==> raw == p)
              && (p < 0.0 ==> raw == 0.0)
              && (p > maxPoints ==> raw == maxPoints)
  {
  }

  // ---------------------------------------------------------------- where the bounds need their conditions

  /** Rounding full marks to cents keeps within the maximum exactly when its last fraction rounds down. */
  lemma FullMarksFitIff(maxPoints: real)
    requires maxPoints >= 0.0
    ensures (forall raw: real :: 0.0 <= raw <= maxPoints ==> RoundCents(raw) <= maxPoints) <==>
              maxPoints * 100.0 - (maxPoints * 100.0).Floor as real < 0.5
  {
    var whole := (maxPoints * 100.0).Floor;
    if maxPoints * 100.0 - whole as real < 0.5 {
      assert Round(maxPoints * 100.0) == whole;
      CentsOf(whole, maxPoints);
      forall raw: real | 0.0 <= raw <= maxPoints ensures RoundCents(raw) <= maxPoints {
        CentsAreMonotone(raw, maxPoints);
      }
    } else {
      assert Round(maxPoints * 100.0) == whole + 1;
      CentsOf(whole + 1, maxPoints);
      assert RoundCents(maxPoints) > maxPoints;
    }
  }

  /** Full marks for a list of criterion ids. */
  function FullMarks(criteria: seq<Criterion>, ids: seq<CriterionId>): seq<Score> {
    if ids == [] then []
    else
      var last := ids[|ids| - 1];
      FullMarks(criteria, ids[..|ids| - 1])
      + [Score(last, if Find(criteria, last).Some? then Find(criteria, last).value.maxPoints else 0.0)]
  }

  /** The points full marks for these ids add up to. */
  function FullPoints(criteria: seq<Criterion>, ids: seq<CriterionId>): real {
    if ids == [] then 0.0
    else
      var last := Find(criteria, ids[|ids| - 1]);
      FullPoints(criteria, ids[..|ids| - 1]) + (if last.Some? then last.value.maxPoints else 0.0)
  }

  lemma {:induction false} FullMarksShape(criteria: seq<Criterion>, ids: seq<CriterionId>)
    ensures ForIds(FullMarks(criteria, ids), ids)
    ensures forall s :: s in FullMarks(criteria, ids) ==>
              s.points == if Find(criteria, s.id).Some? then Find(criteria, s.id).value.maxPoints else 0.0
  {
    if ids != [] {
      FullMarksShape(criteria, ids[..|ids| - 1]);
    }
  }

  lemma {:induction false} FullMarksEarn(criteria: seq<Criterion>, ids: seq<CriterionId>)
    requires Worth(criteria) && DistinctCriteria(criteria)
    ensures RawPoints(criteria, FullMarks(criteria, ids)) == FullPoints(criteria, ids)
  {
    if ids != [] {
      var n := |ids| - 1;
      KeptIsFound(criteria, ids[n]);
      FullMarksShape(criteria, ids[..n]);
      FullMarksEarn(criteria, ids[..n]);
      assert FullMarks(criteria, ids)[..n] == FullMarks(criteria, ids[..n]);
    }
  }

  lemma {:induction false} FullPointsWithout(criteria: seq<Criterion>, ids: seq<CriterionId>, k: nat)
    requires k < |ids|
    ensures FullPoints(criteria, ids) == FullPoints(criteria, Without(ids, k))
                                       + (if Find(criteria, ids[k]).Some? then Find(criteria, ids[k]).value.maxPoints else 0.0)
    decreases |ids|
  {
    var n := |ids| - 1;
    var without := Without(ids, k);
    if k == n {
      assert without == ids[..n];
    } else {
      FullPointsWithout(criteria, ids[..n], k);
      assert without[..|without| - 1] == Without(ids[..n], k);
    }
  }

  lemma {:induction false} FullPointsPositive(criteria: seq<Criterion>, ids: seq<CriterionId>)
    requires Worth(criteria)
    ensures FullPoints(criteria, ids) >= 0.0
  {
    if ids != [] {
      FullPointsPositive(criteria, ids[..|ids| - 1]);
    }
  }

  /** Full marks that cover some of the rubric's criteria are worth at least those. */
  lemma {:induction false} CoverIsWorth(criteria: seq<Criterion>, part: seq<Criterion>, ids: seq<CriterionId>)
    requires Worth(criteria) && DistinctCriteria(part)
    requires forall c :: c in part ==> Find(criteria, c.id) == Some(c) && c.id in ids
    ensures FullPoints(criteria, ids) >= TotalPoints(part)
    decreases |part|
  {
    if part == [] {
      FullPointsPositive(criteria, ids);
    } else {
      var n := |part| - 1;
      assert part[n] in part;
      var k :| 0 <= k < |ids| && ids[k] == part[n].id;
      FullPointsWithout(criteria, ids, k);
      var rest := Without(ids, k);
      forall c | c in part[..n] ensures Find(criteria, c.id) == Some(c) && c.id in rest {
        var j :| 0 <= j < n && part[j] == c;
        assert c in part;
        StillIn(ids, k, c.id);
      }
      CoverIsWorth(criteria, part[..n], rest);
    }
  }

  ghost predicate ForIds(scores: seq<Score>, ids: seq<CriterionId>) {
    |scores| == |ids| && forall i :: 0 <= i < |ids| ==> scores[i].id == ids[i]
  }

  /** Whatever accepted points are given to these criteria, the raw points stay within the total. */
  ghost predicate NeverAboveTotal(criteria: seq<Criterion>, ids: seq<CriterionId>) {
    forall scores :: ForIds(scores, ids) && Accepted(criteria, scores) ==>
      RawPoints(criteria, scores) <= TotalPoints(criteria)
  }

  /**
   * validateRubricScores lets a criterion be scored twice. For a list of ids it can accept, the
   * total bounds every accepted mark exactly when no id is repeated.
   */
  lemma BoundedIffScoredOnce(criteria: seq<Criterion>, ids: seq<CriterionId>)
    requires DistinctCriteria(criteria) && Worth(criteria)
    requires forall c :: c in criteria ==> c.id in ids
    requires forall id :: id in ids ==> Find(criteria, id).Some?
    ensures NeverAboveTotal(criteria, ids) <==> Distinct(ids)
  {
    if Distinct(ids) {
      forall scores | ForIds(scores, ids) ensures RawPoints(criteria, scores) <= TotalPoints(criteria) {
        assert forall i, j :: 0 <= i < j < |scores| ==> ids[i] != ids[j];
        RawWithinTotal(criteria, scores);
      }
    } else {
      RepeatedScoreExceeds(criteria, ids);
    }
  }

  lemma FullMarksAccepted(criteria: seq<Criterion>, ids: seq<CriterionId>)
    requires forall c :: c in criteria ==> c.id in ids
    requires forall id :: id in ids ==> Find(criteria, id).Some?
    ensures ForIds(FullMarks(criteria, ids), ids) && Accepted(criteria, FullMarks(criteria, ids))
  {
    var scores := FullMarks(criteria, ids);
    FullMarksShape(criteria, ids);
    forall c | c in criteria ensures Scored(scores, c.id) {
      var i :| 0 <= i < |ids| && ids[i] == c.id;
      assert scores[i] in scores;
    }
    forall s | s in scores ensures Find(criteria, s.id).Some? {
      var i :| 0 <= i < |scores| && scores[i] == s;
      assert ids[i] in ids;
    }
  }

  lemma RepeatedScoreExceeds(criteria: seq<Criterion>, ids: seq<CriterionId>)
    requires DistinctCriteria(criteria) && Worth(criteria) && !Distinct(ids)
    requires forall c :: c in criteria ==> c.id in ids
    requires forall id :: id in ids ==> Find(criteria, id).Some?
    ensures var scores := FullMarks(criteria, ids);
            ForIds(scores, ids) && Accepted(criteria, scores) && RawPoints(criteria, scores) > TotalPoints(criteria)
  {
    FullMarksAccepted(criteria, ids);
    FullMarksEarn(criteria, ids);
    hide Accepted, ForIds, RawPoints;
    var a, b :| 0 <= a < b < |ids| && ids[a] == ids[b];
    FullPointsWithout(criteria, ids, b);
    assert ids[b] in ids;
    StillCovered(criteria, ids, a, b);
    CoverIsWorth(criteria, criteria, Without(ids, b));
  }

  /** Dropping the second of two equal ids leaves every criterion covered. */
  lemma StillCovered(criteria: seq<Criterion>, ids: seq<CriterionId>, a: nat, b: nat)
    requires DistinctCriteria(criteria) && a < b < |ids| && ids[a] == ids[b]
    requires forall c :: c in criteria ==> c.id in ids
    ensures forall c :: c in criteria ==> Find(criteria, c.id) == Some(c) && c.id in Without(ids, b)
  {
    var rest := Without(ids, b);
    forall c | c in criteria ensures Find(criteria, c.id) == Some(c) && c.id in rest {
      var k :| 0 <= k < |criteria| && criteria[k] == c;
      FindAt(criteria, k);
      if c.id == ids[b] {
        assert rest[a] == c.id;
      } else {
        StillIn(ids, b, c.id);
      }
    }
  }
}
