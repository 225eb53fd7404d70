/**
 * The presenter lock of one live room as a transition system: who is in the room, in which role,
 * whose screen is live, and who holds the lock of server/src/classroom/ScreenShareManager.js.
 *
 * Module ScreenShare proves that the managers' methods have these effects on the live objects.
 */
module PresenterLock {
  import opened Basics

  type PeerId = string
  type UserId = string
  type ProducerId = string

  datatype Role = Host | Cohost | Learner

  const PENDING_TIMEOUT_MS := 60_000

  /** A peer with its live screen producer, if any. */
  datatype PeerView = PeerView(userId: UserId, role: Role, screen: Option<ProducerId>)

  datatype Lock = Lock(peerId: PeerId, userId: UserId, acquiredAt: int, producerId: Option<ProducerId>)

  datatype Session = Session(peers: map<PeerId, PeerView>, lock: Option<Lock>, learnersMayShare: bool)

  predicate Sharing(s: Session, p: PeerId) {
    p in s.peers && s.peers[p].screen.Some?
  }

  predicate Moderates(s: Session, p: PeerId) {
    p in s.peers && s.peers[p].role != Learner
  }

  predicate MayShare(s: Session, p: PeerId) {
    p in s.peers && (Moderates(s, p) || s.learnersMayShare)
  }

  predicate Holds(s: Session, p: PeerId) {
    s.lock.Some? && s.lock.value.peerId == p
  }

  /** A lock whose producer has not come within the timeout. */
  predicate Stale(l: Lock, now: int) {
    l.producerId.None? && now - l.acquiredAt > PENDING_TIMEOUT_MS
  }

  predicate HeldByOther(s: Session, p: PeerId, now: int) {
    s.lock.Some? && !Stale(s.lock.value, now) && s.lock.value.peerId != p
  }

  // ---------------------------------------------------------------- effects

  function Silenced(peers: map<PeerId, PeerView>, p: PeerId): map<PeerId, PeerView> {
    if p in peers then peers[p := peers[p].(screen := None)] else peers
  }

  /** release: only the holder's lock goes, and its share with it. */
  function Released(s: Session, p: PeerId): Session {
    if Holds(s, p) then s.(lock := None, peers := Silenced(s.peers, p)) else s
  }

  /** activeFor: a stale lock is dropped. */
  function Looked(s: Session, now: int): Session {
    if s.lock.Some? && Stale(s.lock.value, now) then s.(lock := None) else s
  }

  datatype AcquireResult = Granted | Forbidden | Taken(holder: PeerId)

  function AcquireResultOf(s: Session, p: PeerId, now: int): AcquireResult {
    if !MayShare(s, p) then Forbidden
    else if HeldByOther(s, p, now) && s.peers[p].role != Host then Taken(s.lock.value.peerId)
    else Granted
  }

  /** acquire: a host takes over, and a grant always starts a lock without a producer. */
  function Acquired(s: Session, p: PeerId, now: int): Session {
    if AcquireResultOf(s, p, now) != Granted then s
    else
      var cleared := if HeldByOther(s, p, now) then Released(s, s.lock.value.peerId) else s;
      cleared.(lock := Some(Lock(p, s.peers[p].userId, now, None)))
  }

  /** A new screen producer: confirmed for the holder, closed for anybody else. */
  function Produced(s: Session, p: PeerId, id: ProducerId): Session {
    if p !in s.peers then s
    else if Holds(s, p) then
      s.(peers := s.peers[p := s.peers[p].(screen := Some(id))], lock := Some(s.lock.value.(producerId := Some(id))))
    else s.(peers := Silenced(s.peers, p))
  }

  /** The peer's lock goes before the peer. */
  function Departed(s: Session, p: PeerId): Session {
    var r := Released(s, p);
    r.(peers := r.peers - {p})
  }

  datatype RemoveResult = NotRoomHost | NoSuchPeer | HostStays | Removed

  function RemoveResultOf(s: Session, moderates: bool, p: PeerId): RemoveResult {
    if !moderates then NotRoomHost
    else if p !in s.peers then NoSuchPeer
    else if s.peers[p].role == Host then HostStays
    else Removed
  }

  function WithRole(peers: map<PeerId, PeerView>, p: PeerId, role: Role): map<PeerId, PeerView> {
    if p in peers then peers[p := peers[p].(role := role)] else peers
  }

  // ---------------------------------------------------------------- who gets the lock, who is acted on

  /** Nobody but these peers looks any different. */
  ghost predicate OthersUnchanged(s: Session, s': Session, ids: set<PeerId>) {
    && s'.learnersMayShare == s.learnersMayShare
    && forall p :: p !in ids ==> (p in s'.peers <==> p in s.peers) && (p in s.peers ==> s'.peers[p] == s.peers[p])
  }

  /** The lock was taken less than a minute ago, or its producer has come. */
  ghost predicate InForce(l: Lock, now: int) {
    l.producerId != None || now - l.acquiredAt <= 60_000
  }

  /** A learner is refused in a room where learners may not share, and so is whoever is not in the room. */
  lemma NotAllowedIsForbidden(s: Session, p: PeerId, now: int)
    requires p in s.peers ==> s.peers[p].role == Learner && !s.learnersMayShare
    ensures AcquireResultOf(s, p, now) == Forbidden && Acquired(s, p, now) == s
  {
  }

  /** While the lock of another is in force, nobody but a host gets it: the holder is named and nothing changes. */
  lemma HeldLockIsKept(s: Session, p: PeerId, now: int)
    requires p in s.peers && (s.peers[p].role == Cohost || (s.peers[p].role == Learner && s.learnersMayShare))
    requires s.lock.Some? && s.lock.value.peerId != p && InForce(s.lock.value, now)
    ensures AcquireResultOf(s, p, now) == Taken(s.lock.value.peerId) && Acquired(s, p, now) == s
  {
  }

  /** A host takes over a lock in force: the share of its holder ends, and nobody else's picture changes. */
  lemma HostTakesOver(s: Session, p: PeerId, now: int)
    requires p in s.peers && s.peers[p].role == Host
    requires s.lock.Some? && s.lock.value.peerId != p && InForce(s.lock.value, now)
    ensures var holder, s' := s.lock.value.peerId, Acquired(s, p, now);
            && AcquireResultOf(s, p, now) == Granted
            && s'.lock == Some(Lock(p, s.peers[p].userId, now, None))
            && OthersUnchanged(s, s', {holder})
            && (holder in s.peers ==> holder in s'.peers && s'.peers[holder] == s.peers[holder].(screen := None))
            && (holder !in s.peers ==> holder !in s'.peers)
  {
  }

  /** Whoever may share gets a lock that is free, stale or its own already, and nobody's picture changes. */
  lemma FreeLockIsGranted(s: Session, p: PeerId, now: int)
    requires p in s.peers && (s.peers[p].role != Learner || s.learnersMayShare)
    requires s.lock.None? || s.lock.value.peerId == p || !InForce(s.lock.value, now)
    ensures AcquireResultOf(s, p, now) == Granted
    ensures Acquired(s, p, now).lock == Some(Lock(p, s.peers[p].userId, now, None))
    ensures OthersUnchanged(s, Acquired(s, p, now), {})
  {
  }

  /** Looking at a lock drops one that was taken over a minute ago for a producer that never came, and no other. */
  lemma LookingDropsTheOverdue(s: Session, now: int)
    ensures Looked(s, now) == if s.lock.Some? && !InForce(s.lock.value, now) then s.(lock := None) else s
  {
  }

  /** Giving up the lock ends one's own share; giving up what one does not hold changes nothing. */
  lemma ReleaseEndsOwnShare(s: Session, p: PeerId)
    ensures s.lock.None? || s.lock.value.peerId != p ==> Released(s, p) == s
    ensures s.lock.Some? && s.lock.value.peerId == p ==>
              var s' := Released(s, p);
              && s'.lock == None && OthersUnchanged(s, s', {p}) && (p in s'.peers <==> p in s.peers)
              && (p in s.peers ==> s'.peers[p] == s.peers[p].(screen := None))
  {
  }

  /** Leaving takes away oneself and one's lock, and nothing else. */
  lemma DepartureTakesOne(s: Session, p: PeerId)
    ensures var s' := Departed(s, p);
            && p !in s'.peers && OthersUnchanged(s, s', {p})
            && s'.lock == if s.lock.Some? && s.lock.value.peerId == p then None else s.lock
  {
  }

  /** A new screen is live exactly for the holder, whose lock it confirms. */
  lemma ProducedIsLiveForTheHolder(s: Session, p: PeerId, id: ProducerId)
    requires p in s.peers
    ensures var s', holds := Produced(s, p, id), s.lock.Some? && s.lock.value.peerId == p;
            && OthersUnchanged(s, s', {p}) && p in s'.peers
            && s'.peers[p] == s.peers[p].(screen := if holds then Some(id) else None)
            && s'.lock == if holds then Some(s.lock.value.(producerId := Some(id))) else s.lock
  {
  }

  // ---------------------------------------------------------------- runs

  datatype World = World(now: int, session: Session)

  datatype Step =
    | Tick(ms: nat)
    | Join(p: PeerId, userId: UserId, role: Role)
    | Look
    | Acquire(p: PeerId)
    | ProduceScreen(p: PeerId, id: ProducerId)
    | Release(p: PeerId)
    | ProducerDies(p: PeerId)
    | Leave(p: PeerId)
    | StopShare(actor: PeerId, p: PeerId)
    | Remove(actor: PeerId, p: PeerId)
    | ChangeRole(actor: PeerId, p: PeerId, role: Role)
    | TransferHost(actor: PeerId, p: PeerId)
    | LetLearnersShare(actor: PeerId, allowed: bool)

  /** Release covers the stop button and a client closing its screen producer. */
  function Effect(s: Session, now: int, step: Step): Session {
    match step
    case Tick(ms) => s
    case Join(p, userId, role) => if p in s.peers then s else s.(peers := s.peers[p := PeerView(userId, role, None)])
    case Look => Looked(s, now)
    case Acquire(p) => Acquired(s, p, now)
    case ProduceScreen(p, id) => Produced(s, p, id)
    case Release(p) => Released(s, p)
    case ProducerDies(p) => s.(peers := Silenced(s.peers, p))
    case Leave(p) => Departed(s, p)
    case StopShare(actor, p) => if Moderates(s, actor) then Released(s, p) else s
    case Remove(actor, p) => if RemoveResultOf(s, Moderates(s, actor), p) == Removed then Departed(s, p) else s
    case ChangeRole(actor, p, role) =>
      if Moderates(s, actor) && p in s.peers && s.peers[p].role != Host && role != Host then s.(peers := WithRole(s.peers, p, role)) else s
    case TransferHost(actor, p) =>
      if actor in s.peers && s.peers[actor].role == Host && p in s.peers
      then s.(peers := WithRole(WithRole(s.peers, actor, Cohost), p, Host)) else s
    case LetLearnersShare(actor, allowed) => if Moderates(s, actor) then s.(learnersMayShare := allowed) else s
  }

  function Apply(w: World, step: Step): World {
    World(if step.Tick? then w.now + step.ms else w.now, Effect(w.session, w.now, step))
  }

  function ApplyAll(w: World, steps: seq<Step>): World
    decreases |steps|
  {
    if steps == [] then w else ApplyAll(Apply(w, steps[0]), steps[1..])
  }

  /** A host or a co-host in the room. */
  ghost predicate IsModerator(s: Session, p: PeerId) {
    p in s.peers && (s.peers[p].role == Host || s.peers[p].role == Cohost)
  }

  /** Whose act a step is, where it takes a moderator. */
  function ActorOf(step: Step): Option<PeerId> {
    match step
    case StopShare(actor, p) => Some(actor)
    case Remove(actor, p) => Some(actor)
    case ChangeRole(actor, p, role) => Some(actor)
    case LetLearnersShare(actor, allowed) => Some(actor)
    case _ => None
  }

  /** Learners, and whoever is not in the room, moderate nothing. */
  lemma OnlyModeratorsAct(s: Session, now: int, step: Step)
    requires ActorOf(step).Some? && !IsModerator(s, ActorOf(step).value)
    ensures Effect(s, now, step) == s
  {
  }

  /** What a moderator can do: end one share, remove or re-role anybody but the host, and settle who may share. */
  lemma ModeratorsAct(s: Session, now: int, actor: PeerId, p: PeerId, role: Role, allowed: bool)
    requires IsModerator(s, actor)
    ensures Effect(s, now, StopShare(actor, p)) == Released(s, p)
    ensures RemoveResultOf(s, true, p) == if p !in s.peers then NoSuchPeer
                                          else if s.peers[p].role == Host then HostStays else Removed
    ensures p in s.peers && s.peers[p].role != Host ==> Effect(s, now, Remove(actor, p)) == Departed(s, p)
    ensures p in s.peers && s.peers[p].role == Host ==> Effect(s, now, Remove(actor, p)) == s
    ensures p in s.peers && s.peers[p].role != Host && role != Host ==>
              var s' := Effect(s, now, ChangeRole(actor, p, role));
              && OthersUnchanged(s, s', {p}) && s'.lock == s.lock
              && p in s'.peers && s'.peers[p] == s.peers[p].(role := role)
    ensures p in s.peers && (s.peers[p].role == Host || role == Host) ==> Effect(s, now, ChangeRole(actor, p, role)) == s
    ensures Effect(s, now, LetLearnersShare(actor, allowed)) == s.(learnersMayShare := allowed)
  {
  }

  /** Only the host hands over, and becomes a co-host by it; nobody else changes. */
  lemma HostHandsOver(s: Session, now: int, actor: PeerId, p: PeerId)
    requires p in s.peers
    ensures var s' := Effect(s, now, TransferHost(actor, p));
            if actor in s.peers && s.peers[actor].role == Host then
              && OthersUnchanged(s, s', {actor, p}) && s'.lock == s.lock
              && p in s'.peers && s'.peers[p] == s.peers[p].(role := Host)
              && (actor != p ==> actor in s'.peers && s'.peers[actor] == s.peers[actor].(role := Cohost))
            else s' == s
  {
  }

  /** Connecting adds one peer without a screen, and a dying producer ends its peer's share, both under the same lock. */
  lemma JoiningAndDying(s: Session, now: int, p: PeerId, userId: UserId, role: Role)
    ensures p !in s.peers ==> Effect(s, now, Join(p, userId, role)) == s.(peers := s.peers[p := PeerView(userId, role, None)])
    ensures p in s.peers ==> Effect(s, now, ProducerDies(p)) == s.(peers := s.peers[p := s.peers[p].(screen := None)])
  {
  }

  /**
   * Of two peers that may share and are not host, the first to ask for a free lock gets it, and the
   * other is told so for as long as the first one's picker may be open.
   */
  lemma FirstComeFirstServed(w: World, p: PeerId, q: PeerId, later: nat)
    requires w.session.lock.None? && p != q && p in w.session.peers && q in w.session.peers
    requires MayShare(w.session, p) && MayShare(w.session, q) && w.session.peers[q].role != Host
    ensures var w1 := Apply(w, Acquire(p));
            var w2 := Apply(w1, Tick(later));
            var w3 := Apply(w2, Acquire(q));
            && AcquireResultOf(w.session, p, w.now) == Granted
            && (later <= 60_000 ==> AcquireResultOf(w2.session, q, w2.now) == Taken(p) && w3.session == w1.session)
            && (later > 60_000 ==> AcquireResultOf(w2.session, q, w2.now) == Granted && Holds(w3.session, q))
  {
    var w1 := Apply(w, Acquire(p));
    FreeLockIsGranted(w.session, p, w.now);
    assert w1.session.peers == w.session.peers;
  }

  /** A peer that is already sharing is granted the lock again. */
  predicate Reacquires(w: World, step: Step) {
    step.Acquire? && Sharing(w.session, step.p) && AcquireResultOf(w.session, step.p, w.now) == Granted
  }

  /** No step of the run is such a grant. */
  predicate Clean(w: World, steps: seq<Step>)
    decreases |steps|
  {
    steps == [] || (!Reacquires(w, steps[0]) && Clean(Apply(w, steps[0]), steps[1..]))
  }

  /** Whoever has a live screen holds the lock, and the lock is confirmed. */
  ghost predicate Guarded(s: Session) {
    forall p :: Sharing(s, p) ==> Holds(s, p) && s.lock.value.producerId.Some?
  }

  /** The lock names the producer of its holder. */
  ghost predicate NamesTheShare(s: Session) {
    forall p :: Sharing(s, p) && Holds(s, p) ==> s.lock.value.producerId in {None, s.peers[p].screen}
  }

  ghost predicate AtMostOneShare(s: Session) {
    forall p, q :: Sharing(s, p) && Sharing(s, q) ==> p == q
  }

  lemma EffectKeepsGuard(w: World, step: Step)
    requires Guarded(w.session) && !Reacquires(w, step)
    ensures Guarded(Apply(w, step).session)
  {
    var s, s' := w.session, Apply(w, step).session;
    forall q | Sharing(s', q) ensures Holds(s', q) && s'.lock.value.producerId.Some? {
      assert Sharing(s, q) || step.ProduceScreen?;
    }
  }

  lemma EffectKeepsName(w: World, step: Step)
    requires NamesTheShare(w.session)
    ensures NamesTheShare(Apply(w, step).session)
  {
    var s, s' := w.session, Apply(w, step).session;
    forall q | Sharing(s', q) && Holds(s', q) ensures s'.lock.value.producerId in {None, s'.peers[q].screen} {
      assert step.ProduceScreen? || step.Acquire? || (Sharing(s, q) && Holds(s, q));
    }
  }

  lemma {:induction false} CleanRunKeepsGuard(w: World, steps: seq<Step>)
    requires Guarded(w.session) && Clean(w, steps)
    ensures Guarded(ApplyAll(w, steps).session) && AtMostOneShare(ApplyAll(w, steps).session)
    decreases |steps|
  {
    if steps != [] {
      EffectKeepsGuard(w, steps[0]);
      CleanRunKeepsGuard(Apply(w, steps[0]), steps[1..]);
    }
  }

  lemma {:induction false} RunKeepsName(w: World, steps: seq<Step>)
    requires NamesTheShare(w.session)
    ensures NamesTheShare(ApplyAll(w, steps).session)
    decreases |steps|
  {
    if steps != [] {
      EffectKeepsName(w, steps[0]);
      RunKeepsName(Apply(w, steps[0]), steps[1..]);
    }
  }

  ghost predicate EmptyRoom(w: World) {
    w.session.peers == map[] && w.session.lock == None
  }

  /**
   * From an empty room, however people come, share, take over, leave and time out: at most one
   * live share, whose peer holds the lock confirmed for that very producer.
   */
  lemma OneShareInEveryCleanRun(w: World, steps: seq<Step>)
    requires EmptyRoom(w) && Clean(w, steps)
    ensures var s := ApplyAll(w, steps).session;
            && AtMostOneShare(s)
            && forall p :: Sharing(s, p) ==> Holds(s, p) && s.lock.value.producerId == s.peers[p].screen
  {
    CleanRunKeepsGuard(w, steps);
    RunKeepsName(w, steps);
  }

  // ---------------------------------------------------------------- the host

  /** This peer and no other is the host. */
  ghost predicate HostIs(s: Session, h: PeerId) {
    h in s.peers && forall p :: p in s.peers ==> (s.peers[p].role == Host <==> p == h)
  }

  ghost predicate OneHost(s: Session) {
    exists h :: HostIs(s, h)
  }

  /** The host does not disconnect, and nobody else connects as host. */
  predicate KeepsHost(s: Session, step: Step, h: PeerId) {
    step != Leave(h) && !(step.Join? && step.role == Host && step.p !in s.peers)
  }

  function HostAfter(w: World, step: Step, h: PeerId): PeerId {
    if step.TransferHost? && step.actor == h && step.p in w.session.peers then step.p else h
  }

  /** A room with one host has one after a step exactly in that case. */
  lemma OneHostStaysIff(w: World, step: Step, h: PeerId)
    requires HostIs(w.session, h)
    ensures OneHost(Apply(w, step).session) <==> KeepsHost(w.session, step, h)
    ensures KeepsHost(w.session, step, h) ==> HostIs(Apply(w, step).session, HostAfter(w, step, h))
  {
    var s' := Apply(w, step).session;
    if KeepsHost(w.session, step, h) {
      assert HostIs(s', HostAfter(w, step, h));
    } else {
      assert step.Join? ==> s'.peers[h].role == Host && s'.peers[step.p].role == Host;
      forall other ensures !HostIs(s', other) {
      }
    }
  }

  predicate HostKept(w: World, steps: seq<Step>, h: PeerId)
    decreases |steps|
  {
    steps == [] ||
    (KeepsHost(w.session, steps[0], h) && HostKept(Apply(w, steps[0]), steps[1..], HostAfter(w, steps[0], h)))
  }

  ghost predicate AlwaysOneHost(w: World, steps: seq<Step>)
    decreases |steps|
  {
    OneHost(w.session) && (steps == [] || AlwaysOneHost(Apply(w, steps[0]), steps[1..]))
  }

  /**
   * A room never has two hosts or none, whoever hands over, removes, promotes and demotes, exactly
   * as long as the host does not disconnect and no second host connects.
   */
  lemma {:induction false} OneHostInEveryRunIff(w: World, steps: seq<Step>, h: PeerId)
    requires HostIs(w.session, h)
    ensures AlwaysOneHost(w, steps) <==> HostKept(w, steps, h)
    decreases |steps|
  {
    if steps != [] {
      OneHostStaysIff(w, steps[0], h);
      if KeepsHost(w.session, steps[0], h) {
        OneHostInEveryRunIff(Apply(w, steps[0]), steps[1..], HostAfter(w, steps[0], h));
      }
    }
  }

  // ---------------------------------------------------------------- which states are safe

  /** Whatever clean run follows, at most one screen is live. */
  ghost predicate SafeFromHere(w: World) {
    forall steps :: Clean(w, steps) ==> AtMostOneShare(ApplyAll(w, steps).session)
  }

  /** There is always a socket id that is not in the room. */
  lemma {:induction false} FreshId(ids: set<PeerId>) returns (id: PeerId)
    ensures id !in ids && id != ""
    ensures forall x :: x in ids ==> |x| < |id|
    decreases |ids|
  {
    if ids == {} {
      id := "p";
    } else {
      var x :| x in ids;
      var shorter := FreshId(ids - {x});
      id := shorter + x;
      forall y | y in ids ensures |y| < |id| {
        assert y == x || y in ids - {x};
      }
    }
  }

  lemma OneStep(w: World, steps: seq<Step>, k: nat)
    requires k < |steps|
    ensures ApplyAll(w, steps[k..]) == ApplyAll(Apply(w, steps[k]), steps[k + 1..])
    ensures Clean(w, steps[k..]) <==> !Reacquires(w, steps[k]) && Clean(Apply(w, steps[k]), steps[k + 1..])
  {
    assert steps[k..][1..] == steps[k + 1..];
  }

  /** Long enough for a pending lock to go stale. */
  function Patience(w: World): nat {
    PENDING_TIMEOUT_MS + 1 + if w.session.lock.Some? then Max(0, w.session.lock.value.acquiredAt - w.now) else 0
  }

  /** A host, on another device perhaps, waits, connects, takes the lock and shares. */
  function Intrusion(w: World, q: PeerId): seq<Step> {
    [Tick(Patience(w)), Join(q, "guest", Host), Acquire(q), ProduceScreen(q, "second")]
  }

  lemma UnguardedAdmitsASecondShare(w: World, p: PeerId, q: PeerId)
    requires Sharing(w.session, p) && !(Holds(w.session, p) && w.session.lock.value.producerId.Some?)
    requires q !in w.session.peers && !Holds(w.session, q)
    ensures Clean(w, Intrusion(w, q)) && !AtMostOneShare(ApplyAll(w, Intrusion(w, q)).session)
  {
    var steps := Intrusion(w, q);
    var w1 := Apply(w, steps[0]);
    var w2 := Apply(w1, steps[1]);
    var w3 := Apply(w2, steps[2]);
    var w4 := Apply(w3, steps[3]);
    assert Sharing(w4.session, p) && Sharing(w4.session, q);
    assert ApplyAll(w4, steps[4..]) == w4 && Clean(w4, steps[4..]);
    OneStep(w3, steps, 3);
    OneStep(w2, steps, 2);
    OneStep(w1, steps, 1);
    OneStep(w, steps, 0);
    assert steps[0..] == steps;
  }

  /** Of all states, exactly the guarded ones can never come to two live shares in a clean run. */
  lemma SafeIffGuarded(w: World)
    ensures SafeFromHere(w) <==> Guarded(w.session)
  {
    if Guarded(w.session) {
      forall steps | Clean(w, steps) ensures AtMostOneShare(ApplyAll(w, steps).session) {
        CleanRunKeepsGuard(w, steps);
      }
    } else {
      var p :| Sharing(w.session, p) && !(Holds(w.session, p) && w.session.lock.value.producerId.Some?);
      var q := FreshId(w.session.peers.Keys + if w.session.lock.Some? then {w.session.lock.value.peerId} else {});
      UnguardedAdmitsASecondShare(w, p, q);
    }
  }

  // ---------------------------------------------------------------- acquiring while sharing

  /** In a safe room, granting the lock stays safe exactly when the peer is not sharing already. */
  lemma GrantIsSafeIffNotSharing(w: World, p: PeerId)
    requires SafeFromHere(w) && AcquireResultOf(w.session, p, w.now) == Granted
    ensures SafeFromHere(Apply(w, Acquire(p))) <==> !Sharing(w.session, p)
  {
    SafeIffGuarded(w);
    SafeIffGuarded(Apply(w, Acquire(p)));
    if Sharing(w.session, p) {
      assert Sharing(Acquired(w.session, p, w.now), p);
    } else {
      EffectKeepsGuard(w, Acquire(p));
    }
  }

  /** Let the pending lock go stale, and let a second peer acquire and share. */
  function SecondShare(q: PeerId): seq<Step> {
    [Tick(PENDING_TIMEOUT_MS + 1), Acquire(q), ProduceScreen(q, "second")]
  }

  /** After a sharing peer was granted the lock again, any other peer that may share becomes a second one. */
  lemma ReacquireAdmitsASecondShare(w: World, p: PeerId, q: PeerId)
    requires Reacquires(w, Acquire(p))
    requires q != p && MayShare(Apply(w, Acquire(p)).session, q)
    ensures !AtMostOneShare(ApplyAll(Apply(w, Acquire(p)), SecondShare(q)).session)
  {
    var steps := SecondShare(q);
    var w0 := Apply(w, Acquire(p));
    var w1 := Apply(w0, steps[0]);
    var w2 := Apply(w1, steps[1]);
    var w3 := Apply(w2, steps[2]);
    assert Sharing(w3.session, p) && Sharing(w3.session, q);
    OneStep(w2, steps, 2);
    OneStep(w1, steps, 1);
    OneStep(w0, steps, 0);
    assert steps[0..] == steps;
  }

  function ShareAndReacquire(): seq<Step> {
    [Join("a", "u", Learner), Join("b", "v", Learner), Acquire("a"), ProduceScreen("a", "first"), Acquire("a")]
  }

  /** Such a run from any empty room in which learners may share. */
  lemma ReacquireLeadsToTwoShares(w: World)
    requires EmptyRoom(w) && w.session.learnersMayShare
    ensures !AtMostOneShare(ApplyAll(w, ShareAndReacquire() + SecondShare("b")).session)
  {
    var steps := ShareAndReacquire() + SecondShare("b");
    var w1 := Apply(w, steps[0]);
    var w2 := Apply(w1, steps[1]);
    var w3 := Apply(w2, steps[2]);
    var w4 := Apply(w3, steps[3]);
    assert steps[5..] == SecondShare("b") && steps[4] == Acquire("a");
    ReacquireAdmitsASecondShare(w4, "a", "b");
    OneStep(w4, steps, 4);
    OneStep(w3, steps, 3);
    OneStep(w2, steps, 2);
    OneStep(w1, steps, 1);
    OneStep(w, steps, 0);
    assert steps[0..] == steps;
  }
}
