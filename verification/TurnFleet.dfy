/**
 * The rotation among the TURN nodes that check credentials and the API tasks that sign them:
 * handler ticks, node refreshes and launches, cached signing and the clock, in any order.
 *
 * The promise (handler.js:3-4) is that rotating costs no client its unexpired credential. It is
 * proved for every run, and exactly for the configurations whose retire wait covers the
 * credential lifetime plus the age at which a signer still uses a cached secret.
 */
module TurnFleet {
  import opened Basics
  import opened TurnRotation

  // ---------------------------------------------------------------- what a signer signs with

  /** The signing half of a ring: AWSCURRENT as it was when fetched. */
  datatype Ring = Ring(version: Version, fetchedAt: int)

  /** The ring getTurnSecretRing serves; a failed fetch falls back to whatever is cached, however old. */
  function Served(cache: Option<Ring>, current: Version, now: int, cacheTtl: nat, force: bool, fetchWorks: bool): Option<Ring> {
    if !force && cache.Some? && now - cache.value.fetchedAt < cacheTtl then cache
    else if fetchWorks then Some(Ring(current, now))
    else cache
  }

  /**
   * A young ring is served as it is unless a fetch is forced; else a fetch that works is served, fetched
   * now; and one that fails leaves the cached ring, or nothing.
   */
  lemma ServedByAge(cache: Option<Ring>, current: Version, now: int, cacheTtl: nat, force: bool, fetchWorks: bool)
    ensures var served := Served(cache, current, now, cacheTtl, force, fetchWorks);
            && (cache.Some? && now - cache.value.fetchedAt < cacheTtl && !force ==> served == cache)
            && (fetchWorks && (force || cache.None? || now - cache.value.fetchedAt >= cacheTtl) ==>
                  served == Some(Ring(current, now)))
            && (!fetchWorks ==> served == cache)
  {
  }

  /** The module-level ringCache of server/src/config/secrets.js. */
  class RingCache {
    var cached: Option<Ring>

    constructor ()
      ensures cached == None
    {
      cached := None;
    }

    /** None stands for the error thrown when nothing is cached and the fetch fails. */
    method GetTurnSecretRing(current: Version, now: int, cacheTtl: nat, force: bool, fetchWorks: bool)
      returns (ring: Option<Ring>)
      modifies this
      ensures ring == Served(old(cached), current, now, cacheTtl, force, fetchWorks)
      ensures cached == ring
      ensures fetchWorks ==> ring.Some? && (now - ring.value.fetchedAt < cacheTtl || ring.value == Ring(current, now))
    {
      if !force && cached.Some? && now - cached.value.fetchedAt < cacheTtl {
        return cached;
      }
      if !fetchWorks {
        return cached;
      }
      cached := Some(Ring(current, now));
      return cached;
    }
  }

  /** A loaded ring signs until it is older than maxStale. */
  function Fresh(ring: Option<Ring>, now: int, maxStale: nat): Option<Ring> {
    if ring.Some? && now - ring.value.fetchedAt <= maxStale then ring else None
  }

  /** classroom-app/server/src/rtc/TurnSecretRing.js: refreshed in the background, fails closed when stale. */
  class TurnSecretRing {
    const maxStale: nat
    var current: Option<Version>
    var loadedAt: int

    ghost function Loaded(): Option<Ring>
      reads this
    {
      if current.Some? then Some(Ring(current.value, loadedAt)) else None
    }

    constructor (maxStale: nat)
      ensures this.maxStale == maxStale && Loaded() == None
    {
      this.maxStale := maxStale;
      current, loadedAt := None, 0;
    }

    /** After a fetch that fails, or finds no AWSCURRENT, the ring is as it was. */
    method Refresh(fetched: Option<Version>, now: int) returns (ok: bool)
      modifies this
      ensures ok == fetched.Some?
      ensures Loaded() == if ok then Some(Ring(fetched.value, now)) else old(Loaded())
    {
      if fetched.None? {
        return false;
      }
      current, loadedAt := fetched, now;
      return true;
    }

    /** None stands for the 503 of assertFresh. */
    method SigningSecret(now: int) returns (version: Option<Version>)
      ensures version == match Fresh(Loaded(), now, maxStale) case Some(ring) => Some(ring.version) case None => None
    {
      if current.None? || now - loadedAt > maxStale {
        return None;
      }
      return current;
    }
  }

  // ---------------------------------------------------------------- the fleet

  type NodeId = string
  type SignerId = string

  datatype Credential = Credential(version: Version, expiresAt: int)

  /** movedAt is when AWSCURRENT last moved, whether a tag says so or not. */
  datatype Fleet = Fleet(
    now: int,
    secret: Secret,
    accepts: map<NodeId, set<Version>>,
    rings: map<SignerId, Ring>,
    credentials: set<Credential>,
    movedAt: int
  )

  /**
   * How the API tasks hold the secret: loaded in the background and refused when older than
   * maxStale, or fetched on demand with a cache that also serves when a fetch fails.
   */
  datatype Signer = Background(maxStale: nat) | OnDemand(cacheTtl: nat, outages: bool)

  /** The oldest ring a signer signs with; none when there is no bound. */
  function MaxAge(signer: Signer): Option<nat> {
    match signer
    case Background(maxStale) => Some(maxStale)
    case OnDemand(cacheTtl, outages) => if outages then None else Some(Max(0, cacheTtl - 1))
  }

  /** maxTtl bounds a credential's lifetime; crashes says whether a promotion may be cut off before its tag is written. */
  datatype Params = Params(cfg: Config, signer: Signer, maxTtl: nat, crashes: bool)

  ghost predicate Sensible(ps: Params) {
    ps.maxTtl > 0
  }

  datatype Step =
    | Advance(elapsed: nat)
    | Invoke(action: Action)
    | CrashInPromote
    | NodeLoads(node: NodeId)
    | NodeLeaves(node: NodeId)
    | Refresh(signer: SignerId)
    | Sign(signer: SignerId, fetchWorks: bool, ttl: nat)

  /** What a node accepts after loading the secret: every labelled version. */
  function Labelled(l: Labels): set<Version> {
    {l.current} + (if l.pending.Some? then {l.pending.value} else {})
                + (if l.previous.Some? then {l.previous.value} else {})
  }

  /** allNodesAccept: there are nodes, and each accepts a credential signed with the pending version. */
  predicate AllNodesAccept(f: Fleet) {
    && f.secret.labels.pending.Some?
    && f.accepts != map[]
    && forall n :: n in f.accepts ==> f.secret.labels.pending.value in f.accepts[n]
  }

  function Cached(f: Fleet, signer: SignerId): Option<Ring> {
    if signer in f.rings then Some(f.rings[signer]) else None
  }

  /** What the signer signs with, if anything. */
  function RingOf(ps: Params, f: Fleet, signer: SignerId, fetchWorks: bool): Option<Ring> {
    match ps.signer
    case Background(maxStale) => Fresh(Cached(f, signer), f.now, maxStale)
    case OnDemand(cacheTtl, outages) =>
      Served(Cached(f, signer), f.secret.labels.current, f.now, cacheTtl, false, fetchWorks || !outages)
  }

  /** Emergencies are outside the promise. */
  ghost predicate Enabled(ps: Params, f: Fleet, step: Step) {
    match step
    case Invoke(action) => action == Tick || action == RotateNow
    case CrashInPromote => ps.crashes && Handled(ps.cfg, f.secret, Tick, f.now, AllNodesAccept(f)).1 == Promoted
    case Sign(signer, fetchWorks, ttl) => ttl <= ps.maxTtl && RingOf(ps, f, signer, fetchWorks).Some?
    case _ => true
  }

  ghost function Apply(ps: Params, f: Fleet, step: Step): Fleet
    requires Enabled(ps, f, step)
  {
    match step
    case Advance(elapsed) => f.(now := f.now + elapsed)
    case Invoke(action) =>
      var (secret, outcome) := Handled(ps.cfg, f.secret, action, f.now, AllNodesAccept(f));
      f.(secret := secret, movedAt := if outcome == Promoted then f.now else f.movedAt)
    case CrashInPromote => f.(secret := CrashedPromotion(f.secret, f.now), movedAt := f.now)
    case NodeLoads(node) => f.(accepts := f.accepts[node := Labelled(f.secret.labels)])
    case NodeLeaves(node) => f.(accepts := f.accepts - {node})
    case Refresh(signer) => f.(rings := f.rings[signer := Ring(f.secret.labels.current, f.now)])
    case Sign(signer, fetchWorks, ttl) =>
      var ring := RingOf(ps, f, signer, fetchWorks).value;
      f.(rings := f.rings[signer := ring], credentials := f.credentials + {Credential(ring.version, f.now + ttl)})
  }

  ghost predicate Next(ps: Params, f: Fleet, f': Fleet) {
    exists step :: Enabled(ps, f, step) && f' == Apply(ps, f, step)
  }

  /** Between rotations, with every node, signer and credential on the current version. */
  ghost predicate Init(ps: Params, f: Fleet) {
    && f.now > 0 && f.movedAt <= f.now
    && Disciplined(f.secret) && PhaseOf(f.secret) == Idle
    && (forall n :: n in f.accepts ==> f.secret.labels.current in f.accepts[n])
    && (forall s :: s in f.rings ==> f.rings[s].version == f.secret.labels.current && f.rings[s].fetchedAt <= f.now)
    && (forall c :: c in f.credentials ==> c.version == f.secret.labels.current && c.expiresAt <= f.now + ps.maxTtl)
  }

  ghost predicate Continues(ps: Params, run: seq<Fleet>) {
    run != [] && forall i :: 0 < i < |run| ==> Next(ps, run[i - 1], run[i])
  }

  ghost predicate Run(ps: Params, run: seq<Fleet>) {
    Continues(ps, run) && Init(ps, run[0])
  }

  /** Every unexpired credential is accepted by every serving node. */
  ghost predicate NoneRejected(f: Fleet) {
    forall c, n :: c in f.credentials && n in f.accepts && f.now < c.expiresAt ==> c.version in f.accepts[n]
  }

  /** In every state of every run. */
  ghost predicate NeverRejects(ps: Params) {
    forall run :: Run(ps, run) ==> NoneRejected(Last(run))
  }

  // ---------------------------------------------------------------- safety

  /** How long after a promotion a credential of the version it replaced can live, if that is bounded. */
  function Lifetime(ps: Params): Option<nat> {
    match MaxAge(ps.signer)
    case Some(age) => Some(ps.maxTtl + age)
    case None => None
  }

  /**
   * The retire wait covers that. Where a crash can lose the wait, the time between accepting and
   * signing has to: the next promotion takes the label away.
   */
  ghost predicate Covered(ps: Params) {
    && Lifetime(ps).Some?
    && ps.cfg.retireAfter >= Lifetime(ps).value
    && (ps.crashes ==> ps.cfg.minAccept >= Lifetime(ps).value)
  }

  /** Nodes accept whatever may still be signed or held. */
  ghost predicate NodesFollow(f: Fleet) {
    forall n :: n in f.accepts ==>
      && f.secret.labels.current in f.accepts[n]
      && (f.secret.labels.previous.Some? ==> f.secret.labels.previous.value in f.accepts[n])
  }

  /** What the tags prove about the last promotion, after crashes too. */
  ghost predicate Traceable(s: Secret, movedAt: int) {
    && (s.labels.pending.Some? ==>
          && PhaseOf(s) == Accept
          && s.pendingSince.Some? && s.pendingSince.value > 0
          && (s.labels.previous.Some? ==> s.pendingSince.value >= movedAt))
    && (s.labels.previous.Some? && PhaseOf(s) == RetireWait ==> s.promotedAt == Some(movedAt) && movedAt > 0)
  }

  /** A ring young enough to sign holds the current version, or the previous one from before the promotion. */
  ghost predicate RingsFollow(ps: Params, f: Fleet)
    requires Covered(ps)
  {
    forall s :: s in f.rings ==>
      && f.rings[s].fetchedAt <= f.now
      && (f.now - f.rings[s].fetchedAt <= MaxAge(ps.signer).value ==>
            || f.rings[s].version == f.secret.labels.current
            || (f.secret.labels.previous == Some(f.rings[s].version)
                && f.rings[s].fetchedAt <= f.movedAt))
  }

  /** An unexpired credential carries the current version, or the previous one and ends before it is retired. */
  ghost predicate CredentialsFollow(ps: Params, f: Fleet)
    requires Covered(ps)
  {
    forall c :: c in f.credentials ==>
      && c.expiresAt <= f.now + ps.maxTtl
      && (f.now < c.expiresAt ==>
            || c.version == f.secret.labels.current
            || (f.secret.labels.previous == Some(c.version)
                && c.expiresAt <= f.movedAt + Lifetime(ps).value))
  }

  ghost predicate Inv(ps: Params, f: Fleet)
    requires Covered(ps)
  {
    && f.now > 0 && f.movedAt <= f.now
    && Traceable(f.secret, f.movedAt) && (!ps.crashes ==> Disciplined(f.secret))
    && NodesFollow(f) && RingsFollow(ps, f) && CredentialsFollow(ps, f)
  }

  lemma InvokeKeepsInv(ps: Params, f: Fleet, action: Action)
    requires Sensible(ps) && Covered(ps) && Inv(ps, f) && Enabled(ps, f, Invoke(action))
    ensures Inv(ps, Apply(ps, f, Invoke(action)))
  {
    if !ps.crashes {
      HandledKeepsDiscipline(ps.cfg, f.secret, action, f.now, AllNodesAccept(f));
    }
  }

  lemma CrashKeepsInv(ps: Params, f: Fleet)
    requires Sensible(ps) && Covered(ps) && Inv(ps, f) && Enabled(ps, f, CrashInPromote)
    ensures Inv(ps, Apply(ps, f, CrashInPromote))
  {
  }

  lemma SignKeepsInv(ps: Params, f: Fleet, signer: SignerId, fetchWorks: bool, ttl: nat)
    requires Covered(ps) && Inv(ps, f) && Enabled(ps, f, Sign(signer, fetchWorks, ttl))
    ensures Inv(ps, Apply(ps, f, Sign(signer, fetchWorks, ttl)))
  {
  }

  lemma StepKeepsInv(ps: Params, f: Fleet, f': Fleet)
    requires Sensible(ps) && Covered(ps) && Inv(ps, f) && Next(ps, f, f')
    ensures Inv(ps, f')
  {
    var step :| Enabled(ps, f, step) && f' == Apply(ps, f, step);
    match step
    case Invoke(action) => InvokeKeepsInv(ps, f, action);
    case CrashInPromote => CrashKeepsInv(ps, f);
    case Sign(signer, fetchWorks, ttl) => SignKeepsInv(ps, f, signer, fetchWorks, ttl);
    case Advance(elapsed) =>
    case NodeLoads(node) => NodesKeepInv(ps, f, step);
    case NodeLeaves(node) => NodesKeepInv(ps, f, step);
    case Refresh(signer) =>
  }

  lemma NodesKeepInv(ps: Params, f: Fleet, step: Step)
    requires Covered(ps) && Inv(ps, f) && Enabled(ps, f, step) && (step.NodeLoads? || step.NodeLeaves?)
    ensures Inv(ps, Apply(ps, f, step))
  {
  }

  lemma {:induction false} ContinuingKeepsInv(ps: Params, run: seq<Fleet>)
    requires Sensible(ps) && Covered(ps) && Continues(ps, run) && Inv(ps, run[0])
    ensures Inv(ps, Last(run)) && NoneRejected(Last(run))
    decreases |run|
  {
    var n := |run| - 1;
    if n > 0 {
      ContinuingKeepsInv(ps, run[..n]);
      assert Next(ps, run[n - 1], run[n]);
      StepKeepsInv(ps, run[n - 1], run[n]);
    }
  }

  lemma RunKeepsInv(ps: Params, run: seq<Fleet>)
    requires Sensible(ps) && Covered(ps) && Run(ps, run)
    ensures Inv(ps, Last(run))
  {
    ContinuingKeepsInv(ps, run);
  }

  // ---------------------------------------------------------------- a run that loses a credential

  lemma Follows(ps: Params, f: Fleet, step: Step)
    requires Enabled(ps, f, step)
    ensures Next(ps, f, Apply(ps, f, step))
  {
  }

  lemma {:induction false} RunOn(ps: Params, run: seq<Fleet>, step: Step) returns (longer: seq<Fleet>)
    requires Continues(ps, run) && Enabled(ps, Last(run), step)
    ensures Continues(ps, longer) && longer[0] == run[0] && Last(longer) == Apply(ps, Last(run), step)
  {
    Follows(ps, Last(run), step);
    longer := run + [Apply(ps, Last(run), step)];
  }

  const START := 1

  /** When the pending version may be promoted at the earliest. */
  function PromotionTime(ps: Params): int {
    START + Max(1, ps.cfg.minAccept)
  }

  /** How long after the promotion a signer still uses a ring fetched just before it, up to a wait. */
  function Delay(ps: Params, wait: nat): nat {
    match MaxAge(ps.signer)
    case Some(age) => Min(age, wait)
    case None => wait
  }

  const ACCEPTING := Secret(Labels(Original, Some(Rotation(START)), None), {Original, Rotation(START)},
                            Some(Accept), Some(START), None, START)

  /** The node has loaded the pending version; the signer has just fetched the old one and signed with it. */
  function ReadyToPromote(ps: Params): Fleet {
    Fleet(PromotionTime(ps), ACCEPTING, map["node" := {Original, Rotation(START)}],
          map["signer" := Ring(Original, PromotionTime(ps))], {Credential(Original, PromotionTime(ps) + ps.maxTtl)},
          START)
  }

  /** The same, before the signer has loaded anything. */
  function Accepting(ps: Params): Fleet {
    ReadyToPromote(ps).(rings := map[], credentials := {})
  }

  lemma UpToAccepting(ps: Params) returns (run: seq<Fleet>)
    ensures Run(ps, run) && Last(run) == Accepting(ps)
  {
    var idle := Secret(Labels(Original, None, None), {Original}, None, None, None, START);
    run := [Fleet(START, idle, map["node" := {Original}], map[], {}, START)];
    run := RunOn(ps, run, Invoke(RotateNow));
    assert Last(run).secret == ACCEPTING;
    run := RunOn(ps, run, NodeLoads("node"));
    assert Labelled(ACCEPTING.labels) == {Original, Rotation(START)};
    assert Last(run).accepts == Accepting(ps).accepts;
    run := RunOn(ps, run, Advance(Max(1, ps.cfg.minAccept)));
  }

  lemma UpToPromotion(ps: Params) returns (run: seq<Fleet>)
    ensures Run(ps, run) && Last(run) == ReadyToPromote(ps)
  {
    run := UpToAccepting(ps);
    run := RunOn(ps, run, Refresh("signer"));
    assert RingOf(ps, Last(run), "signer", true) == Some(Ring(Original, PromotionTime(ps)));
    run := RunOn(ps, run, Sign("signer", true, ps.maxTtl));
    assert Last(run).rings == ReadyToPromote(ps).rings;
  }

  /** A credential of the old version, signed some time after the promotion for the longest lifetime. */
  function LateCredential(ps: Params, delay: nat): Credential {
    Credential(Original, PromotionTime(ps) + delay + ps.maxTtl)
  }

  /** The signer signs with the old version as late as its ring allows. */
  lemma SignLate(ps: Params, run: seq<Fleet>, delay: nat) returns (longer: seq<Fleet>)
    requires Continues(ps, run) && Last(run).now == PromotionTime(ps)
    requires Last(run).rings == map["signer" := Ring(Original, PromotionTime(ps))]
    requires LateCredential(ps, 0) in Last(run).credentials
    requires MaxAge(ps.signer).Some? ==> delay <= MaxAge(ps.signer).value
    ensures Continues(ps, longer) && longer[0] == run[0]
    ensures Last(longer) == Last(run).(now := PromotionTime(ps) + delay,
                                       credentials := Last(run).credentials + {LateCredential(ps, delay)})
  {
    longer := run;
    if delay > 0 {
      longer := RunOn(ps, longer, Advance(delay));
      assert RingOf(ps, Last(longer), "signer", false) == Some(Ring(Original, PromotionTime(ps)));
      longer := RunOn(ps, longer, Sign("signer", false, ps.maxTtl));
    }
    assert Last(longer).rings == Last(run).rings;
    assert Last(longer).credentials == Last(run).credentials + {LateCredential(ps, delay)};
  }

  /** The node loads the secret again, without the old version. */
  lemma LoadWithoutOriginal(ps: Params, run: seq<Fleet>, delay: nat) returns (longer: seq<Fleet>)
    requires Continues(ps, run) && LateCredential(ps, delay) in Last(run).credentials
    requires Last(run).now < LateCredential(ps, delay).expiresAt && Original !in Labelled(Last(run).secret.labels)
    ensures Continues(ps, longer) && longer[0] == run[0] && !NoneRejected(Last(longer))
  {
    longer := RunOn(ps, run, NodeLoads("node"));
    var end := Last(longer);
    assert "node" in end.accepts && Original !in end.accepts["node"];
  }

  lemma ReadyToPromoteAccepts(ps: Params)
    ensures var f := ReadyToPromote(ps);
            AllNodesAccept(f) && Handled(ps.cfg, f.secret, Tick, f.now, true) == (PromotionOf(ACCEPTING, f.now), Promoted)
  {
    assert "node" in ReadyToPromote(ps).accepts;
  }

  /** The old version is retired as soon as a wait that is too short allows. */
  lemma RetiredTooEarly(ps: Params) returns (run: seq<Fleet>)
    requires Sensible(ps) && (Lifetime(ps).None? || ps.cfg.retireAfter < Lifetime(ps).value)
    ensures Run(ps, run) && !NoneRejected(Last(run))
  {
    var delay := Delay(ps, ps.cfg.retireAfter);
    run := UpToPromotion(ps);
    ReadyToPromoteAccepts(ps);
    run := RunOn(ps, run, Invoke(Tick));
    run := SignLate(ps, run, delay);
    run := RunOn(ps, run, Advance(ps.cfg.retireAfter - delay));
    run := RunOn(ps, run, Invoke(Tick));
    assert Last(run).secret.labels == Labels(Rotation(START), None, None);
    run := LoadWithoutOriginal(ps, run, delay);
  }

  /**
   * The promotion crashes before its tag is written, so no wait begins. Another rotation starts at
   * once, and its promotion takes the label off the old version as soon as minAccept is over.
   */
  lemma CrashedThenReplaced(ps: Params) returns (run: seq<Fleet>)
    requires Sensible(ps) && ps.crashes && Lifetime(ps).Some? && ps.cfg.minAccept < Lifetime(ps).value
    ensures Run(ps, run) && !NoneRejected(Last(run))
  {
    var delay, at := Delay(ps, ps.cfg.minAccept), PromotionTime(ps);
    run := UpToCrash(ps);
    run := SignLate(ps, run, delay);
    run := RunOn(ps, run, Advance(ps.cfg.minAccept - delay));
    assert "node" in Last(run).accepts && AllNodesAccept(Last(run));
    run := RunOn(ps, run, Invoke(Tick));
    assert Last(run).secret.labels == Labels(Rotation(at), None, Some(Rotation(START)));
    run := LoadWithoutOriginal(ps, run, delay);
  }

  function CrashedAndRestarted(ps: Params): Fleet {
    var f, at := ReadyToPromote(ps), PromotionTime(ps);
    f.(secret := StartOf(CrashedPromotion(ACCEPTING, at), at), movedAt := at,
       accepts := map["node" := {Original, Rotation(START), Rotation(at)}])
  }

  lemma UpToCrash(ps: Params) returns (run: seq<Fleet>)
    requires ps.crashes
    ensures Run(ps, run) && Last(run) == CrashedAndRestarted(ps)
  {
    run := UpToPromotion(ps);
    ReadyToPromoteAccepts(ps);
    run := RunOn(ps, run, CrashInPromote);
    run := RunOn(ps, run, Invoke(RotateNow));
    assert Last(run).secret == CrashedAndRestarted(ps).secret;
    run := RunOn(ps, run, NodeLoads("node"));
    assert Labelled(Last(run).secret.labels) == {Original, Rotation(START), Rotation(PromotionTime(ps))};
    assert Last(run).accepts == CrashedAndRestarted(ps).accepts;
  }

  /**
   * One node, one signer. Just before the promotion the signer fetches the old version; it signs
   * with it as late as it may, for the longest lifetime; the old version loses its label too early,
   * and the node loads the secret again.
   */
  lemma ARejectedCredential(ps: Params) returns (run: seq<Fleet>)
    requires Sensible(ps) && !Covered(ps)
    ensures Run(ps, run) && !NoneRejected(Last(run))
  {
    if Lifetime(ps).None? || ps.cfg.retireAfter < Lifetime(ps).value {
      run := RetiredTooEarly(ps);
    } else {
      run := CrashedThenReplaced(ps);
    }
  }

  /**
   * The promise holds in every run exactly when the retire wait, and with crashes the accept time
   * too, covers the lifetime plus the age of the oldest ring.
   */
  lemma NeverRejectsIffCovered(ps: Params)
    requires Sensible(ps)
    ensures NeverRejects(ps) <==>
            && MaxAge(ps.signer).Some?
            && ps.cfg.retireAfter >= ps.maxTtl + MaxAge(ps.signer).value
            && (ps.crashes ==> ps.cfg.minAccept >= ps.maxTtl + MaxAge(ps.signer).value)
  {
    if Covered(ps) {
      forall run | Run(ps, run) ensures NoneRejected(Last(run)) {
        ContinuingKeepsInv(ps, run);
      }
    } else {
      var run := ARejectedCredential(ps);
    }
  }

  const DAY := 24 * 3_600_000
  const TEN_MINUTES := 600_000

  /** Credentials of 24 h, signed with rings of at most ten minutes; waits and crashes as given. */
  function Shipped(minAccept: nat, retireAfter: nat, crashes: bool): Params {
    Params(Config(30 * DAY, minAccept, retireAfter), Background(TEN_MINUTES), DAY, crashes)
  }

  /**
   * The shipped waits of 15 minutes and 24 h fall short. Without crashes exactly a retire wait of
   * 24 h and ten minutes is enough, and with them exactly if the accept time is as long.
   */
  lemma ShippedConfigurationFallsShort(minAccept: nat, retireAfter: nat)
    ensures !NeverRejects(Shipped(15 * 60_000, DAY, false))
    ensures NeverRejects(Shipped(minAccept, retireAfter, false)) <==> retireAfter >= DAY + TEN_MINUTES
    ensures NeverRejects(Shipped(minAccept, retireAfter, true)) <==>
            retireAfter >= DAY + TEN_MINUTES && minAccept >= DAY + TEN_MINUTES
  {
    NeverRejectsIffCovered(Shipped(15 * 60_000, DAY, false));
    NeverRejectsIffCovered(Shipped(minAccept, retireAfter, false));
    NeverRejectsIffCovered(Shipped(minAccept, retireAfter, true));
  }

  /** A cache that serves any age during an outage is covered by no wait at all. */
  lemma NoWaitCoversOutages(cfg: Config, cacheTtl: nat, maxTtl: nat, crashes: bool)
    requires maxTtl > 0
    ensures !NeverRejects(Params(cfg, OnDemand(cacheTtl, true), maxTtl, crashes))
  {
    NeverRejectsIffCovered(Params(cfg, OnDemand(cacheTtl, true), maxTtl, crashes));
  }

  // ---------------------------------------------------------------- loads that are torn apart

  /** What a node accepts that read AWSCURRENT, AWSPENDING and AWSPREVIOUS one after the other. */
  function ReadApart(first: Labels, second: Labels, third: Labels): set<Version> {
    {first.current} + (if second.pending.Some? then {second.pending.value} else {})
                    + (if third.previous.Some? then {third.previous.value} else {})
  }

  /** A promotion goes unseen exactly if it falls between the first two reads. */
  lemma PromotionBetweenReads(s: Secret, now: int)
    requires s.labels.pending.Some? && s.labels.pending.value != s.labels.current
    ensures var l, l' := s.labels, PromotionOf(s, now).labels;
            && l'.current !in ReadApart(l, l', l')
            && l'.current in ReadApart(l, l, l') && l'.current in ReadApart(l', l', l')
  {
  }

  /** No continuation rejects an unexpired credential. */
  ghost predicate SafeFromHere(ps: Params, f: Fleet) {
    forall run :: Continues(ps, run) && run[0] == f ==> NoneRejected(Last(run))
  }

  /**
   * A node that starts to serve with what it read is safe for all that may follow exactly if the
   * version that now signs is in it; the previous one always is, being read last.
   */
  lemma LoadIsSafeIffCurrentSeen(ps: Params, f: Fleet, node: NodeId, first: Labels, second: Labels)
    requires Sensible(ps) && Covered(ps) && Inv(ps, f)
    ensures var seen := ReadApart(first, second, f.secret.labels);
            SafeFromHere(ps, f.(accepts := f.accepts[node := seen])) <==> f.secret.labels.current in seen
  {
    var seen := ReadApart(first, second, f.secret.labels);
    var loaded := f.(accepts := f.accepts[node := seen]);
    if f.secret.labels.current in seen {
      forall run | Continues(ps, run) && run[0] == loaded ensures NoneRejected(Last(run)) {
        ContinuingKeepsInv(ps, run);
      }
    } else {
      var run := RunOn(ps, [loaded], Refresh("signer"));
      assert RingOf(ps, Last(run), "signer", true) == Some(Ring(f.secret.labels.current, f.now));
      run := RunOn(ps, run, Sign("signer", true, ps.maxTtl));
      var end := Last(run);
      assert Credential(f.secret.labels.current, f.now + ps.maxTtl) in end.credentials && end.accepts[node] == seen;
    }
  }
}
