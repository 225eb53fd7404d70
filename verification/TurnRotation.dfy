/**
 * infra/functions/turn-secret-rotation/handler.js: the three-phase rotation of the TURN shared
 * secret, one handler invocation at a time.
 *
 * The functions say what one invocation does to the labels and tags; class RotationHandler does
 * it the way the handler does, by moving stages between secret versions call by call.
 */
module TurnRotation {
  import opened Basics

  /** `rot-<milliseconds>` for a version made by a rotation; the secret starts with another one. */
  datatype Version = Original | Rotation(at: int)

  datatype Phase = Idle | Accept | RetireWait

  /** Which version carries AWSCURRENT, AWSPENDING and AWSPREVIOUS. */
  datatype Labels = Labels(current: Version, pending: Option<Version>, previous: Option<Version>)

  /** The secret as DescribeSecret shows it: labels, all versions ever put, tags. */
  datatype Secret = Secret(
    labels: Labels,
    versions: set<Version>,
    phaseTag: Option<Phase>,
    pendingSince: Option<int>,
    promotedAt: Option<int>,
    lastChanged: int
  )

  /** All durations in milliseconds. */
  datatype Config = Config(interval: nat, minAccept: nat, retireAfter: nat)

  datatype Action = Tick | RotateNow | Emergency | EmergencyContinue

  datatype Outcome =
    | Started | WaitingMinimum | WaitingNodes | Promoted | WaitingLifetime | Retired | NothingToDo
    | EmergencyDone | TokenRejected

  function PhaseOf(s: Secret): Phase {
    if s.phaseTag.Some? then s.phaseTag.value else Idle
  }

  /** `Date.parse(tag ?? '') || s.lastChanged`: an absent tag and instant 0 both fall back. */
  function TimeOr(tag: Option<int>, fallback: int): int {
    if tag.Some? && tag.value != 0 then tag.value else fallback
  }

  // ---------------------------------------------------------------- one invocation

  function StartOf(s: Secret, now: int): Secret {
    s.(labels := s.labels.(pending := Some(Rotation(now))),
       versions := s.versions + {Rotation(now)},
       phaseTag := Some(Accept), pendingSince := Some(now), lastChanged := now)
  }

  /** Moving AWSCURRENT leaves the version it came from labelled AWSPREVIOUS. */
  function PromotionOf(s: Secret, now: int): Secret
    requires s.labels.pending.Some?
  {
    s.(labels := Labels(s.labels.pending.value, None, Some(s.labels.current)),
       phaseTag := Some(RetireWait), promotedAt := Some(now), lastChanged := now)
  }

  function RetirementOf(s: Secret, now: int): Secret {
    s.(labels := s.labels.(previous := None), phaseTag := Some(Idle), lastChanged := now)
  }

  /** One handler invocation at one instant; nodesAccept is the verdict of probing the TURN nodes. */
  function Handled(cfg: Config, s: Secret, action: Action, now: int, nodesAccept: bool): (Secret, Outcome) {
    if action == Emergency && s.labels.pending.None? then
      if Rotation(now) in s.versions then (s, TokenRejected)
      else (RetirementOf(PromotionOf(StartOf(s, now), now), now), EmergencyDone)
    else if (action == Emergency || action == EmergencyContinue) && s.labels.pending.Some? then
      (RetirementOf(PromotionOf(s, now), now), EmergencyDone)
    else if s.labels.pending.Some? then
      if now - TimeOr(s.pendingSince, s.lastChanged) < cfg.minAccept then (s, WaitingMinimum)
      else if !nodesAccept then (s, WaitingNodes)
      else (PromotionOf(s, now), Promoted)
    else if s.labels.previous.Some? && PhaseOf(s) == RetireWait then
      if now - TimeOr(s.promotedAt, s.lastChanged) < cfg.retireAfter then (s, WaitingLifetime)
      else (RetirementOf(s, now), Retired)
    else if action == RotateNow || now - TimeOr(s.promotedAt, s.lastChanged) >= cfg.interval then
      if Rotation(now) in s.versions then (s, TokenRejected) else (StartOf(s, now), Started)
    else (s, NothingToDo)
  }

  // ---------------------------------------------------------------- the handler on version stages

  datatype Label = AwsCurrent | AwsPending | AwsPrevious

  /** The handler together with the secret it works on. */
  class RotationHandler {
    var stages: map<Version, set<Label>>
    var phaseTag: Option<Phase>
    var pendingSince: Option<int>
    var promotedAt: Option<int>
    var lastChanged: int
    ghost var labels: Labels

    /** Each label is carried by the one version that labels names, and by no other. */
    ghost predicate StagesFollowLabels()
      reads this
    {
      && (forall v :: v in stages ==> (AwsCurrent in stages[v] <==> v == labels.current))
      && (forall v :: v in stages ==> (AwsPending in stages[v] <==> labels.pending == Some(v)))
      && (forall v :: v in stages ==> (AwsPrevious in stages[v] <==> labels.previous == Some(v)))
      && labels.current in stages
      && (labels.pending.Some? ==> labels.pending.value in stages)
      && (labels.previous.Some? ==> labels.previous.value in stages && labels.previous.value != labels.current)
    }

    ghost predicate Valid()
      reads this
    {
      StagesFollowLabels() && labels.pending != Some(labels.current)
    }

    ghost function View(): Secret
      reads this
    {
      Secret(labels, stages.Keys, phaseTag, pendingSince, promotedAt, lastChanged)
    }

    constructor (now: int)
      ensures Valid() && View() == Secret(Labels(Original, None, None), {Original}, None, None, None, now)
    {
      stages := map[Original := {AwsCurrent}];
      phaseTag, pendingSince, promotedAt, lastChanged := None, None, None, now;
      labels := Labels(Original, None, None);
    }

    /** The version carrying a label, as `find` in state() looks it up. */
    method Find(stage: Label) returns (v: Option<Version>)
      requires Valid()
      ensures stage == AwsCurrent ==> v == Some(labels.current)
      ensures stage == AwsPending ==> v == labels.pending
      ensures stage == AwsPrevious ==> v == labels.previous
    {
      if id :| id in stages && stage in stages[id] {
        return Some(id);
      }
      return None;
    }

    /** PutSecretValue with stage AWSPENDING; Secrets Manager refuses a token it has already used. */
    method PutPending(token: Version, now: int) returns (ok: bool)
      requires Valid() && labels.pending.None?
      modifies this
      ensures Valid() && ok == (token !in old(stages))
      ensures !ok ==> View() == old(View())
      ensures ok ==> View() == old(View()).(labels := old(labels).(pending := Some(token)),
                                            versions := old(View()).versions + {token}, lastChanged := now)
    {
      if token in stages {
        return false;
      }
      stages := stages[token := {AwsPending}];
      lastChanged := now;
      labels := labels.(pending := Some(token));
      return true;
    }

    /** UpdateSecretVersionStage moving AWSCURRENT: the version it leaves becomes AWSPREVIOUS. */
    method MoveCurrent(to: Version, from: Version, now: int)
      requires Valid() && from == labels.current && to in stages && to != from
      modifies this
      ensures StagesFollowLabels()
      ensures View() == old(View()).(labels := Labels(to, old(labels).pending, Some(from)), lastChanged := now)
    {
      stages := map v | v in stages ::
        stages[v] - {AwsCurrent, AwsPrevious} + (if v == to then {AwsCurrent} else {})
                                              + (if v == from then {AwsPrevious} else {});
      assert stages.Keys == old(stages.Keys);
      lastChanged := now;
      labels := Labels(to, labels.pending, Some(from));
    }

    /** UpdateSecretVersionStage taking AWSPENDING or AWSPREVIOUS off the version that carries it. */
    method RemoveStage(stage: Label, from: Version, now: int)
      requires StagesFollowLabels() && stage != AwsCurrent
      requires Some(from) == if stage == AwsPending then labels.pending else labels.previous
      modifies this
      ensures StagesFollowLabels()
      ensures View() == old(View()).(labels := if stage == AwsPending then old(labels).(pending := None)
                                               else old(labels).(previous := None),
                                     lastChanged := now)
    {
      stages := stages[from := stages[from] - {stage}];
      lastChanged := now;
      labels := if stage == AwsPending then labels.(pending := None) else labels.(previous := None);
    }

    method StartRotation(now: int) returns (ok: bool)
      requires Valid() && labels.pending.None?
      modifies this
      ensures Valid() && ok == (Rotation(now) !in old(stages))
      ensures View() == if ok then StartOf(old(View()), now) else old(View())
    {
      ok := PutPending(Rotation(now), now);
      if ok {
        phaseTag, pendingSince := Some(Accept), Some(now);
      }
    }

    method Promote(now: int)
      requires Valid() && labels.pending.Some?
      modifies this
      ensures Valid() && View() == PromotionOf(old(View()), now)
    {
      var current := Find(AwsCurrent);
      var pending := Find(AwsPending);
      MoveCurrent(pending.value, current.value, now);
      RemoveStage(AwsPending, pending.value, now);
      phaseTag, promotedAt := Some(RetireWait), Some(now);
    }

    method Retire(now: int)
      requires Valid() && labels.previous.Some?
      modifies this
      ensures Valid() && View() == RetirementOf(old(View()), now)
    {
      var previous := Find(AwsPrevious);
      RemoveStage(AwsPrevious, previous.value, now);
      phaseTag := Some(Idle);
    }

    /** One invocation: whatever the stages and tags, it does exactly what Handled says. */
    method Handle(cfg: Config, action: Action, now: int, nodesAccept: bool) returns (outcome: Outcome)
      requires Valid()
      modifies this
      ensures Valid() && (View(), outcome) == Handled(cfg, old(View()), action, now, nodesAccept)
      decreases action == Emergency
    {
      var pending := Find(AwsPending);
      var previous := Find(AwsPrevious);
      var phase := if phaseTag.Some? then phaseTag.value else Idle;

      if action == Emergency {
        if pending.None? {
          var ok := StartRotation(now);
          if !ok {
            return TokenRejected;
          }
          outcome := Handle(cfg, EmergencyContinue, now, nodesAccept);
          return;
        }
        Promote(now);
        var after := Find(AwsPrevious);
        if after.Some? {
          Retire(now);
        }
        return EmergencyDone;
      }
      if action == EmergencyContinue && pending.Some? {
        Promote(now);
        var after := Find(AwsPrevious);
        if after.Some? {
          Retire(now);
        }
        return EmergencyDone;
      }

      if pending.Some? {
        if now - TimeOr(pendingSince, lastChanged) < cfg.minAccept {
          return WaitingMinimum;
        }
        if !nodesAccept {
          return WaitingNodes;
        }
        Promote(now);
        return Promoted;
      }
      if previous.Some? && phase == RetireWait {
        if now - TimeOr(promotedAt, lastChanged) < cfg.retireAfter {
          return WaitingLifetime;
        }
        Retire(now);
        return Retired;
      }
      if action == RotateNow || now - TimeOr(promotedAt, lastChanged) >= cfg.interval {
        var ok := StartRotation(now);
        return if ok then Started else TokenRejected;
      }
      return NothingToDo;
    }
  }

  // ---------------------------------------------------------------- label discipline

  /** What holds of the labels and tags between invocations, from a clean start on. */
  ghost predicate Disciplined(s: Secret) {
    && !(s.labels.pending.Some? && s.labels.previous.Some?)
    && (PhaseOf(s) == Accept <==> s.labels.pending.Some?)
    && (PhaseOf(s) == RetireWait <==> s.labels.previous.Some?)
    && (s.labels.pending.Some? ==> s.pendingSince.Some? && s.pendingSince.value > 0)
    && (s.labels.previous.Some? ==> s.promotedAt.Some? && s.promotedAt.value > 0)
    && s.labels.current in s.versions
    && (s.labels.pending.Some? ==> s.labels.pending.value in s.versions && s.labels.pending.value != s.labels.current)
    && (s.labels.previous.Some? ==> s.labels.previous.value in s.versions && s.labels.previous.value != s.labels.current)
  }

  /** Every invocation, emergency included, keeps pending and previous apart and the tag true. */
  lemma HandledKeepsDiscipline(cfg: Config, s: Secret, action: Action, now: int, nodesAccept: bool)
    requires Disciplined(s) && now > 0
    ensures Disciplined(Handled(cfg, s, action, now, nodesAccept).0)
    ensures Handled(cfg, s, action, now, nodesAccept).1 == EmergencyDone ==>
              PhaseOf(Handled(cfg, s, action, now, nodesAccept).0) == Idle
  {
  }

  /** The instant an interval counts from: the tag, or without a usable tag the last change. */
  ghost predicate CountsFrom(tag: Option<int>, lastChanged: int, since: int) {
    || (tag == Some(since) && since != 0)
    || ((tag == None || tag == Some(0)) && since == lastChanged)
  }

  /** An invocation that is no emergency. */
  predicate Regular(action: Action, s: Secret) {
    action == Tick || action == RotateNow || (action == EmergencyContinue && s.labels.pending.None?)
  }

  /**
   * Between rotations: a version becomes pending exactly when one is asked for or the interval since
   * the last promotion is over, unless its number was used before; otherwise nothing changes.
   */
  lemma IdleStartsIff(cfg: Config, s: Secret, action: Action, now: int, nodesAccept: bool, since: int)
    requires Disciplined(s) && s.labels.pending.None? && s.labels.previous.None? && Regular(action, s)
    requires CountsFrom(s.promotedAt, s.lastChanged, since)
    ensures var (s', outcome) := Handled(cfg, s, action, now, nodesAccept);
            && (outcome == Started <==> s'.labels.pending.Some?)
            && outcome in {Started, TokenRejected, NothingToDo}
            && (s'.labels.pending.Some? <==>
                  (action == RotateNow || now - since >= cfg.interval) && Rotation(now) !in s.versions)
            && (s'.labels.pending.None? ==> s' == s)
            && (s'.labels.pending.Some? ==>
                  && s'.labels == Labels(s.labels.current, Some(Rotation(now)), None)
                  && s'.versions == s.versions + {Rotation(now)}
                  && PhaseOf(s') == Accept && s'.pendingSince == Some(now)
                  && s'.promotedAt == s.promotedAt && s'.lastChanged == now)
  {
  }

  /**
   * While a version is pending: it signs exactly from the first invocation on that finds it accepted by
   * all nodes and pending for long enough, and the version it replaces stays labelled.
   */
  lemma PendingIsPromotedIff(cfg: Config, s: Secret, action: Action, now: int, nodesAccept: bool)
    requires Disciplined(s) && s.labels.pending.Some? && Regular(action, s)
    ensures var (s', outcome) := Handled(cfg, s, action, now, nodesAccept);
            && (outcome == Promoted <==> s'.labels.current != s.labels.current)
            && outcome in {Promoted, WaitingMinimum, WaitingNodes}
            && (s'.labels.current != s.labels.current <==> now - s.pendingSince.value >= cfg.minAccept && nodesAccept)
            && (s'.labels.current == s.labels.current ==> s' == s)
            && (s'.labels.current != s.labels.current ==>
                  && s'.labels == Labels(s.labels.pending.value, None, Some(s.labels.current))
                  && s'.versions == s.versions
                  && PhaseOf(s') == RetireWait && s'.promotedAt == Some(now) && s'.lastChanged == now)
  {
  }

  /** While a version waits to be retired: it is exactly when the wait since the promotion is over. */
  lemma PreviousIsRetiredIff(cfg: Config, s: Secret, action: Action, now: int, nodesAccept: bool)
    requires Disciplined(s) && s.labels.previous.Some? && Regular(action, s)
    ensures var (s', outcome) := Handled(cfg, s, action, now, nodesAccept);
            && (outcome == Retired <==> s'.labels.previous.None?)
            && outcome in {Retired, WaitingLifetime}
            && (s'.labels.previous.None? <==> now - s.promotedAt.value >= cfg.retireAfter)
            && (s'.labels.previous.Some? ==> s' == s)
            && (s'.labels.previous.None? ==>
                  && s'.labels == Labels(s.labels.current, None, None) && s'.versions == s.versions
                  && PhaseOf(s') == Idle && s'.promotedAt == s.promotedAt && s'.lastChanged == now)
  {
  }

  /** An emergency leaves one label: the pending version signs, or else a new one, and every other is retired. */
  lemma EmergencyLeavesOneLabel(cfg: Config, s: Secret, action: Action, now: int, nodesAccept: bool)
    requires action == Emergency || (action == EmergencyContinue && s.labels.pending.Some?)
    ensures var s' := Handled(cfg, s, action, now, nodesAccept).0;
            var next := if s.labels.pending.Some? then s.labels.pending.value else Rotation(now);
            if s.labels.pending.None? && Rotation(now) in s.versions then s' == s
            else s'.labels == Labels(next, None, None) && s'.versions == s.versions + (if s.labels.pending.Some? then {} else {next})
                 && PhaseOf(s') == Idle && s'.promotedAt == Some(now) && s'.lastChanged == now
  {
  }

  /** A promotion of the signing version and whether an emergency forced it. */
  datatype Promotion = Promotion(at: int, forced: bool)

  /** The handler's secret with the log of its promotions and the time of the last invocation. */
  datatype History = History(secret: Secret, now: int, log: seq<Promotion>)

  datatype Invocation = Invocation(action: Action, at: int, nodesAccept: bool)

  function Invoke(cfg: Config, h: History, i: Invocation): History {
    var (secret, outcome) := Handled(cfg, h.secret, i.action, i.at, i.nodesAccept);
    History(secret, i.at, if outcome == Promoted || outcome == EmergencyDone
                          then h.log + [Promotion(i.at, outcome == EmergencyDone)] else h.log)
  }

  function InvokeAll(cfg: Config, h: History, invocations: seq<Invocation>): History {
    if invocations == [] then h
    else Invoke(cfg, InvokeAll(cfg, h, invocations[..|invocations| - 1]), invocations[|invocations| - 1])
  }

  ghost predicate ClockRuns(h: History, invocations: seq<Invocation>) {
    && (invocations != [] ==> h.now <= invocations[0].at)
    && (forall i :: 0 < i < |invocations| ==> invocations[i - 1].at <= invocations[i].at)
  }

  /** Consecutive promotions, neither of them forced, are this far apart. */
  ghost predicate Spaced(cfg: Config, log: seq<Promotion>) {
    forall i :: 0 < i < |log| && !log[i - 1].forced && !log[i].forced ==>
      log[i].at - log[i - 1].at >= cfg.retireAfter + cfg.minAccept
  }

  /** How far past the last unforced promotion the phase already proves time to be. */
  ghost predicate LogFits(cfg: Config, h: History) {
    && Disciplined(h.secret) && h.now > 0 && Spaced(cfg, h.log)
    && (h.log != [] && !h.log[|h.log| - 1].forced ==>
          var last := h.log[|h.log| - 1].at;
          match PhaseOf(h.secret)
          case Idle => h.now >= last + cfg.retireAfter
          case Accept => h.secret.pendingSince.value >= last + cfg.retireAfter
          case RetireWait => h.secret.promotedAt.value == last)
  }

  lemma InvokeKeepsLog(cfg: Config, h: History, i: Invocation)
    requires LogFits(cfg, h) && h.now <= i.at
    ensures LogFits(cfg, Invoke(cfg, h, i))
  {
    HandledKeepsDiscipline(cfg, h.secret, i.action, i.at, i.nodesAccept);
  }

  /** From a clean start the labels stay disciplined and unforced promotions stay apart, over any run. */
  lemma {:induction false} RotationRunIsDisciplined(cfg: Config, h: History, invocations: seq<Invocation>)
    requires Disciplined(h.secret) && PhaseOf(h.secret) == Idle && h.now > 0 && h.log == []
    requires ClockRuns(h, invocations)
    ensures LogFits(cfg, InvokeAll(cfg, h, invocations))
    ensures Disciplined(InvokeAll(cfg, h, invocations).secret)
    ensures Spaced(cfg, InvokeAll(cfg, h, invocations).log)
    ensures InvokeAll(cfg, h, invocations).now == if invocations == [] then h.now else invocations[|invocations| - 1].at
  {
    if invocations != [] {
      var n := |invocations| - 1;
      RotationRunIsDisciplined(cfg, h, invocations[..n]);
      InvokeKeepsLog(cfg, InvokeAll(cfg, h, invocations[..n]), invocations[n]);
    }
  }

  /** Consecutive promotions are this far apart. */
  ghost predicate SpacedByTicks(cfg: Config, log: seq<Promotion>) {
    forall i :: 0 < i < |log| ==> log[i].at - log[i - 1].at >= Max(cfg.interval, cfg.retireAfter) + cfg.minAccept
  }

  /** The tag keeps the last promotion in every phase, and a version is pending only after the interval. */
  ghost predicate TickLogFits(cfg: Config, h: History) {
    && Disciplined(h.secret) && h.now > 0 && SpacedByTicks(cfg, h.log)
    && (h.log != [] ==>
          var last := h.log[|h.log| - 1].at;
          && last > 0 && h.secret.promotedAt == Some(last)
          && (PhaseOf(h.secret) == Idle ==> h.now >= last + cfg.retireAfter)
          && (PhaseOf(h.secret) == Accept ==>
                h.secret.pendingSince.value >= last + Max(cfg.interval, cfg.retireAfter)))
  }

  lemma TickKeepsLog(cfg: Config, h: History, i: Invocation)
    requires TickLogFits(cfg, h) && h.now <= i.at && i.action == Tick
    ensures TickLogFits(cfg, Invoke(cfg, h, i))
  {
    var s := h.secret;
    HandledKeepsDiscipline(cfg, s, i.action, i.at, i.nodesAccept);
    if s.labels.pending.Some? {
      PendingIsPromotedIff(cfg, s, i.action, i.at, i.nodesAccept);
    } else if s.labels.previous.Some? {
      PreviousIsRetiredIff(cfg, s, i.action, i.at, i.nodesAccept);
    } else {
      IdleStartsIff(cfg, s, i.action, i.at, i.nodesAccept, TimeOr(s.promotedAt, s.lastChanged));
    }
    hide Handled;
  }

  /** Left to its schedule, the secret is promoted at most once per interval or retire wait, and accept time. */
  lemma {:induction false} ScheduledRunIsSpaced(cfg: Config, h: History, invocations: seq<Invocation>)
    requires Disciplined(h.secret) && PhaseOf(h.secret) == Idle && h.now > 0 && h.log == []
    requires ClockRuns(h, invocations) && forall i :: i in invocations ==> i.action == Tick
    ensures TickLogFits(cfg, InvokeAll(cfg, h, invocations))
    ensures SpacedByTicks(cfg, InvokeAll(cfg, h, invocations).log)
  {
    if invocations != [] {
      var n := |invocations| - 1;
      ScheduledRunIsSpaced(cfg, h, invocations[..n]);
      RotationRunIsDisciplined(cfg, h, invocations[..n]);
      TickKeepsLog(cfg, InvokeAll(cfg, h, invocations[..n]), invocations[n]);
    }
  }

  // ---------------------------------------------------------------- a whole rotation

  /**
   * Three ticks far enough apart take an idle secret whose interval is over through all phases: the
   * new version signs from the second on, the old one stays labelled until the third and then goes.
   */
  lemma ThreeTicksRotate(cfg: Config, s: Secret, t1: int, t2: int, t3: int)
    requires Disciplined(s) && PhaseOf(s) == Idle && t1 > 0 && Rotation(t1) !in s.versions
    requires t1 - TimeOr(s.promotedAt, s.lastChanged) >= cfg.interval
    requires t2 - t1 >= cfg.minAccept && t3 - t2 >= cfg.retireAfter && t2 > 0
    ensures var (s1, o1) := Handled(cfg, s, Tick, t1, false);
            var (s2, o2) := Handled(cfg, s1, Tick, t2, true);
            var (s3, o3) := Handled(cfg, s2, Tick, t3, false);
            && o1 == Started && s1.labels == Labels(s.labels.current, Some(Rotation(t1)), None)
            && o2 == Promoted && s2.labels == Labels(Rotation(t1), None, Some(s.labels.current))
            && o3 == Retired && s3.labels == Labels(Rotation(t1), None, None) && PhaseOf(s3) == Idle
  {
  }

  // ---------------------------------------------------------------- a crash inside promote

  /** The labels moved, the tag not yet written: promote interrupted between its last two calls. */
  function CrashedPromotion(s: Secret, now: int): Secret
    requires s.labels.pending.Some?
  {
    s.(labels := PromotionOf(s, now).labels, lastChanged := now)
  }

  /** A previous version that no phase tag is waiting to retire. */
  ghost predicate PhaseLost(s: Secret) {
    s.labels.previous.Some? && s.labels.pending.None? && PhaseOf(s) != RetireWait
  }

  /** A previous version that no later retire step can reach before another promotion replaces it. */
  ghost predicate Unretired(s: Secret, previous: Version) {
    s.labels.previous == Some(previous) && (PhaseLost(s) || s.labels.pending.Some?)
  }

  lemma {:induction false} LogGrows(cfg: Config, h: History, invocations: seq<Invocation>)
    ensures h.log <= InvokeAll(cfg, h, invocations).log
  {
    if invocations != [] {
      LogGrows(cfg, h, invocations[..|invocations| - 1]);
    }
  }

  /**
   * Why an invocation has to be one step: once a promotion lost its tag, no run of invocations
   * retires the old version or waits for its credentials. It keeps AWSPREVIOUS until the next
   * promotion takes the label away, however soon that is.
   */
  lemma {:induction false} CrashSkipsRetireWait(cfg: Config, h: History, crashedAt: int, invocations: seq<Invocation>)
    requires Disciplined(h.secret) && h.secret.labels.pending.Some?
    ensures var crashed := h.(secret := CrashedPromotion(h.secret, crashedAt));
            var after := InvokeAll(cfg, crashed, invocations);
            && !Disciplined(crashed.secret)
            && (after.log == h.log ==> Unretired(after.secret, h.secret.labels.current))
  {
    var crashed := h.(secret := CrashedPromotion(h.secret, crashedAt));
    if invocations != [] {
      var n := |invocations| - 1;
      CrashSkipsRetireWait(cfg, h, crashedAt, invocations[..n]);
      LogGrows(cfg, crashed, invocations[..n]);
    }
  }
}
