/**
 * server/src/identity/SessionStore.js: one record per session, a per-user index of sessions, one
 * record per token family and one cutoff per user, each expiring on its own.
 *
 * Times are milliseconds. Refresh tokens stand for their fingerprints.
 */
module SessionStore {
  import opened Basics
  import opened Redis

  type SessionId = string
  type UserId = string
  type FamilyId = string
  type Token = string

  datatype Config = Config(accessTtlSec: nat, refreshTtlSec: nat)

  datatype Record = Record(user: UserId, family: FamilyId, token: Token)

  datatype Store = Store(
    now: int,
    sessions: map<SessionId, Timed<Record>>,
    index: map<UserId, Timed<set<SessionId>>>,
    families: map<FamilyId, Timed<SessionId>>,
    cutoffs: map<UserId, Timed<int>>
  )

  function RefreshMs(cfg: Config): int {
    cfg.refreshTtlSec * 1000
  }

  function CutoffMs(cfg: Config): int {
    (cfg.accessTtlSec + 60) * 1000
  }

  predicate LiveSession(s: Store, id: SessionId) {
    LiveIn(s.sessions, id, s.now)
  }

  function SessionOf(s: Store, id: SessionId): Record
    requires LiveSession(s, id)
  {
    s.sessions[id].value
  }

  /** ZRANGE on the user's index; nothing once it has expired. */
  function Indexed(s: Store, user: UserId): set<SessionId> {
    if LiveIn(s.index, user, s.now) then s.index[user].value else {}
  }

  // ---------------------------------------------------------------- operations

  /** ZADD and EXPIRE on the user's index. */
  function Touched(cfg: Config, s: Store, user: UserId, id: SessionId): map<UserId, Timed<set<SessionId>>> {
    s.index[user := Timed(Indexed(s, user) + {id}, s.now + RefreshMs(cfg))]
  }

  /** ZREM on the user's index, whose expiry stays. */
  function Unindexed(s: Store, user: UserId, ids: set<SessionId>): map<UserId, Timed<set<SessionId>>> {
    if LiveIn(s.index, user, s.now)
    then s.index[user := Timed(s.index[user].value - ids, s.index[user].expiresAt)] else s.index
  }

  function Created(cfg: Config, s: Store, user: UserId, id: SessionId, family: FamilyId, token: Token): Store {
    var expiry := s.now + RefreshMs(cfg);
    s.(sessions := s.sessions[id := Timed(Record(user, family, token), expiry)],
       index := Touched(cfg, s, user, id),
       families := s.families[family := Timed(id, expiry)])
  }

  function SessionRevoked(s: Store, id: SessionId): Store {
    if !LiveSession(s, id) then s
    else
      var r := SessionOf(s, id);
      s.(sessions := s.sessions - {id}, index := Unindexed(s, r.user, {id}), families := s.families - {r.family})
  }

  function FamilyRevoked(s: Store, family: FamilyId): Store {
    var after := if LiveIn(s.families, family, s.now) then SessionRevoked(s, s.families[family].value) else s;
    after.(families := after.families - {family})
  }

  datatype RotateResult = Rotated | SessionNotFound | TokenReuse

  function RotationOf(cfg: Config, s: Store, id: SessionId, presented: Token, newToken: Token): (Store, RotateResult) {
    if !LiveSession(s, id) then (s, SessionNotFound)
    else
      var r := SessionOf(s, id);
      if r.token != presented then (FamilyRevoked(s, r.family), TokenReuse)
      else
        (s.(sessions := s.sessions[id := Timed(r.(token := newToken), s.now + RefreshMs(cfg))],
            index := Touched(cfg, s, r.user, id)), Rotated)
  }

  /** The sessions a mass revocation ends. */
  function Targets(s: Store, user: UserId, except: Option<SessionId>): set<SessionId> {
    set id | id in Indexed(s, user) && Some(id) != except
  }

  function AllRevoked(cfg: Config, s: Store, user: UserId, except: Option<SessionId>): Store {
    var targets := Targets(s, user, except);
    if targets == {} then s
    else s.(sessions := s.sessions - targets, index := Unindexed(s, user, targets),
            cutoffs := s.cutoffs[user := Timed(s.now, s.now + CutoffMs(cfg))])
  }

  /** listSessions tidies the index entry of a session that expired underneath it. */
  function Tidied(s: Store, user: UserId, id: SessionId): Store {
    if id in Indexed(s, user) && !LiveSession(s, id) then s.(index := Unindexed(s, user, {id})) else s
  }

  /** Whether an access token issued in a given second predates the user's mass revocation. */
  predicate IssuedBeforeRevocation(s: Store, user: UserId, issuedAtSec: int) {
    LiveIn(s.cutoffs, user, s.now) && issuedAtSec * 1000 < s.cutoffs[user].value
  }

  // ---------------------------------------------------------------- the operations on Redis keys

  class SessionRedis {
    const cfg: Config
    var now: int
    var sessions: map<SessionId, Timed<Record>>
    var index: map<UserId, Timed<set<SessionId>>>
    var families: map<FamilyId, Timed<SessionId>>
    var cutoffs: map<UserId, Timed<int>>

    ghost function View(): Store
      reads this
    {
      Store(now, sessions, index, families, cutoffs)
    }

    constructor (cfg: Config, now: int)
      ensures this.cfg == cfg && View() == Store(now, map[], map[], map[], map[])
    {
      this.cfg, this.now := cfg, now;
      sessions, index, families, cutoffs := map[], map[], map[], map[];
    }

    method GetSession(id: SessionId) returns (r: Option<Record>)
      ensures r == if LiveSession(View(), id) then Some(SessionOf(View(), id)) else None
    {
      r := if LiveIn(sessions, id, now) then Some(sessions[id].value) else None;
    }

    method ZAddAndExpire(user: UserId, id: SessionId)
      modifies this`index
      ensures index == Touched(cfg, old(View()), user, id)
    {
      var members: set<SessionId> := if LiveIn(index, user, now) then index[user].value else {};
      index := index[user := Timed(members + {id}, now + cfg.refreshTtlSec * 1000)];
    }

    method ZRem(user: UserId, id: SessionId)
      modifies this`index
      ensures index == Unindexed(old(View()), user, {id})
    {
      if LiveIn(index, user, now) {
        index := index[user := Timed(index[user].value - {id}, index[user].expiresAt)];
      }
    }

    method CreateSession(user: UserId, id: SessionId, family: FamilyId, token: Token)
      modifies this
      ensures View() == Created(cfg, old(View()), user, id, family, token)
    {
      sessions := sessions[id := Timed(Record(user, family, token), now + cfg.refreshTtlSec * 1000)];
      ZAddAndExpire(user, id);
      families := families[family := Timed(id, now + cfg.refreshTtlSec * 1000)];
    }

    method RevokeSession(id: SessionId) returns (found: bool)
      modifies this
      ensures found == LiveSession(old(View()), id) && View() == SessionRevoked(old(View()), id)
    {
      var r := GetSession(id);
      if r.None? {
        return false;
      }
      sessions := sessions - {id};
      ZRem(r.value.user, id);
      families := families - {r.value.family};
      return true;
    }

    method RevokeFamily(family: FamilyId)
      modifies this
      ensures View() == FamilyRevoked(old(View()), family)
    {
      if LiveIn(families, family, now) {
        var _ := RevokeSession(families[family].value);
      }
      families := families - {family};
    }

    method Rotate(id: SessionId, presented: Token, newToken: Token) returns (result: RotateResult)
      modifies this
      ensures (View(), result) == RotationOf(cfg, old(View()), id, presented, newToken)
    {
      var r := GetSession(id);
      if r.None? {
        return SessionNotFound;
      }
      if r.value.token != presented {
        RevokeFamily(r.value.family);
        return TokenReuse;
      }
      sessions := sessions[id := Timed(r.value.(token := newToken), now + cfg.refreshTtlSec * 1000)];
      ZAddAndExpire(r.value.user, id);
      return Rotated;
    }

    /** The pipeline of a mass revocation: DEL and ZREM for one target after the other. */
    method DeleteTargets(user: UserId, targets: set<SessionId>)
      requires LiveIn(index, user, now)
      modifies this`sessions, this`index
      ensures sessions == old(sessions) - targets
      ensures index == Unindexed(old(View()), user, targets)
    {
      var todo := targets;
      ghost var gone: set<SessionId> := {};
      ghost var all := index[user];
      assert all.value - gone == all.value;
      while todo != {}
        invariant gone + todo == targets && gone !! todo
        invariant sessions == old(sessions) - gone
        invariant index == old(index)[user := Timed(all.value - gone, all.expiresAt)]
        decreases |todo|
      {
        var id :| id in todo;
        assert all.value - gone - {id} == all.value - (gone + {id});
        sessions := sessions - {id};
        ZRem(user, id);
        todo, gone := todo - {id}, gone + {id};
      }
      assert gone == targets;
    }

    method RevokeAllForUser(user: UserId, except: Option<SessionId>) returns (revoked: nat)
      modifies this
      ensures View() == AllRevoked(cfg, old(View()), user, except)
      ensures revoked == |Targets(old(View()), user, except)|
    {
      var ids := if LiveIn(index, user, now) then index[user].value else {};
      var targets := set id | id in ids && Some(id) != except;
      assert targets == Targets(View(), user, except);
      if targets == {} {
        return 0;
      }
      DeleteTargets(user, targets);
      cutoffs := cutoffs[user := Timed(now, now + (cfg.accessTtlSec + 60) * 1000)];
      revoked := |targets|;
    }
  }

  // ---------------------------------------------------------------- runs

  /** The store with what was ever handed out: each session's tokens in order, its birth, its family. */
  datatype World = World(store: Store, tokens: map<SessionId, seq<Token>>, created: map<SessionId, int>,
                         owners: map<FamilyId, SessionId>)

  datatype Step =
    | Elapse(ms: nat)
    | Create(user: UserId, id: SessionId, family: FamilyId, token: Token)
    | Rotate(id: SessionId, presented: Token, newToken: Token)
    | RevokeSession(id: SessionId)
    | RevokeFamily(family: FamilyId)
    | RevokeAll(user: UserId, except: Option<SessionId>)
    | Tidy(user: UserId, id: SessionId)

  /** Session ids and families are new (randomUUID), and a token is new to its session. */
  ghost predicate Enabled(w: World, step: Step) {
    match step
    case Create(user, id, family, token) => id !in w.tokens && family !in w.owners
    case Rotate(id, presented, newToken) => id in w.tokens ==> newToken !in w.tokens[id]
    case _ => true
  }

  ghost function Apply(cfg: Config, w: World, step: Step): World {
    match step
    case Elapse(ms) => w.(store := w.store.(now := w.store.now + ms))
    case Create(user, id, family, token) =>
      World(Created(cfg, w.store, user, id, family, token), w.tokens[id := [token]],
            w.created[id := w.store.now], w.owners[family := id])
    case Rotate(id, presented, newToken) =>
      var (store, result) := RotationOf(cfg, w.store, id, presented, newToken);
      w.(store := store,
         tokens := if result == Rotated && id in w.tokens then w.tokens[id := w.tokens[id] + [newToken]] else w.tokens)
    case RevokeSession(id) => w.(store := SessionRevoked(w.store, id))
    case RevokeFamily(family) => w.(store := FamilyRevoked(w.store, family))
    case RevokeAll(user, except) => w.(store := AllRevoked(cfg, w.store, user, except))
    case Tidy(user, id) => w.(store := Tidied(w.store, user, id))
  }

  ghost predicate Run(cfg: Config, run: seq<World>) {
    && run != []
    && forall i :: 0 < i < |run| ==> Next(cfg, run[i - 1], run[i])
  }

  ghost predicate Next(cfg: Config, w: World, w': World) {
    exists step :: Enabled(w, step) && w' == Apply(cfg, w, step)
  }

  ghost predicate Init(w: World) {
    && w.store.sessions == map[] && w.store.index == map[] && w.store.families == map[] && w.store.cutoffs == map[]
    && w.tokens == map[] && w.created == map[] && w.owners == map[]
  }

  // ---------------------------------------------------------------- what every step keeps

  /** A live session is in its user's index, which outlives it. */
  ghost predicate IndexCovers(cfg: Config, s: Store, id: SessionId)
    requires LiveSession(s, id)
  {
    var user := SessionOf(s, id).user;
    && s.sessions[id].expiresAt <= s.now + RefreshMs(cfg)
    && user in s.index && id in s.index[user].value
    && s.sessions[id].expiresAt <= s.index[user].expiresAt <= s.now + RefreshMs(cfg)
  }

  /** A live session accepts the last token handed out for it. */
  ghost predicate TokensFollow(w: World, id: SessionId)
    requires LiveSession(w.store, id)
  {
    && id in w.tokens && w.tokens[id] != [] && Distinct(w.tokens[id])
    && SessionOf(w.store, id).token == w.tokens[id][|w.tokens[id]| - 1]
  }

  /** The family record of a live session names it, and lives for one refresh period from its birth. */
  ghost predicate FamilyFollows(cfg: Config, w: World, id: SessionId)
    requires LiveSession(w.store, id)
  {
    var family := SessionOf(w.store, id).family;
    && id in w.created && family in w.owners && w.owners[family] == id
    && (LiveIn(w.store.families, family, w.store.now) <==> w.store.now < w.created[id] + RefreshMs(cfg))
    && (family in w.store.families ==> w.store.families[family].value == id
                                       && w.store.families[family].expiresAt == w.created[id] + RefreshMs(cfg))
  }

  ghost predicate SessionFits(cfg: Config, w: World, id: SessionId) {
    LiveSession(w.store, id) ==> IndexCovers(cfg, w.store, id) && TokensFollow(w, id) && FamilyFollows(cfg, w, id)
  }

  /** An index lists sessions of its own user only. */
  ghost predicate Separate(w: World) {
    && (forall user, id :: user in w.store.index && id in w.store.index[user].value ==>
          id in w.tokens && (LiveSession(w.store, id) ==> SessionOf(w.store, id).user == user))
    && (forall id :: id in w.store.sessions ==> id in w.tokens)
  }

  ghost predicate Inv(cfg: Config, w: World) {
    Separate(w) && forall id :: SessionFits(cfg, w, id)
  }

  lemma StepKeepsInv(cfg: Config, w: World, step: Step)
    requires Inv(cfg, w) && Enabled(w, step)
    ensures Inv(cfg, Apply(cfg, w, step))
  {
    match step
    case Elapse(ms) =>
      assert Separate(Apply(cfg, w, step));
      forall id ensures SessionFits(cfg, Apply(cfg, w, step), id) { assert SessionFits(cfg, w, id); }
    case Create(user, id, family, token) => CreateKeepsInv(cfg, w, user, id, family, token);
    case Rotate(id, presented, newToken) => RotateKeepsInv(cfg, w, id, presented, newToken);
    case RevokeSession(id) => RevokeSessionKeepsInv(cfg, w, id);
    case RevokeFamily(family) => RevokeFamilyKeepsInv(cfg, w, family);
    case RevokeAll(user, except) => RevokeAllKeepsInv(cfg, w, user, except);
    case Tidy(user, id) =>
      assert Separate(Apply(cfg, w, step));
      forall other ensures SessionFits(cfg, Apply(cfg, w, step), other) { assert SessionFits(cfg, w, other); }
  }

  lemma CreateKeepsInv(cfg: Config, w: World, user: UserId, id: SessionId, family: FamilyId, token: Token)
    requires Inv(cfg, w) && Enabled(w, Create(user, id, family, token))
    ensures Inv(cfg, Apply(cfg, w, Create(user, id, family, token)))
  {
    var w' := Apply(cfg, w, Create(user, id, family, token));
    forall other ensures SessionFits(cfg, w', other) {
      assert SessionFits(cfg, w, other);
    }
  }

  lemma RotateKeepsInv(cfg: Config, w: World, id: SessionId, presented: Token, newToken: Token)
    requires Inv(cfg, w) && Enabled(w, Rotate(id, presented, newToken))
    ensures Inv(cfg, Apply(cfg, w, Rotate(id, presented, newToken)))
  {
    var w' := Apply(cfg, w, Rotate(id, presented, newToken));
    assert SessionFits(cfg, w, id);
    if RotationOf(cfg, w.store, id, presented, newToken).1 == TokenReuse {
      RevokeFamilyKeepsInv(cfg, w, SessionOf(w.store, id).family);
    } else {
      assert Separate(w');
      forall other ensures SessionFits(cfg, w', other) {
        assert SessionFits(cfg, w, other);
      }
    }
  }

  lemma RevokeSessionKeepsInv(cfg: Config, w: World, id: SessionId)
    requires Inv(cfg, w)
    ensures Inv(cfg, w.(store := SessionRevoked(w.store, id)))
  {
    var w' := w.(store := SessionRevoked(w.store, id));
    assert SessionFits(cfg, w, id);
    assert Separate(w');
    forall other ensures SessionFits(cfg, w', other) {
      assert SessionFits(cfg, w, other);
    }
  }

  lemma RevokeFamilyKeepsInv(cfg: Config, w: World, family: FamilyId)
    requires Inv(cfg, w)
    ensures Inv(cfg, w.(store := FamilyRevoked(w.store, family)))
  {
    var s := if LiveIn(w.store.families, family, w.store.now)
             then SessionRevoked(w.store, w.store.families[family].value) else w.store;
    if LiveIn(w.store.families, family, w.store.now) {
      RevokeSessionKeepsInv(cfg, w, w.store.families[family].value);
    }
    var mid, w' := w.(store := s), w.(store := FamilyRevoked(w.store, family));
    assert Separate(w');
    forall other ensures SessionFits(cfg, w', other) {
      assert SessionFits(cfg, mid, other);
      assert SessionFits(cfg, w, other);
    }
  }

  lemma RevokeAllKeepsInv(cfg: Config, w: World, user: UserId, except: Option<SessionId>)
    requires Inv(cfg, w)
    ensures Inv(cfg, w.(store := AllRevoked(cfg, w.store, user, except)))
  {
    var w' := w.(store := AllRevoked(cfg, w.store, user, except));
    assert Separate(w');
    forall other ensures SessionFits(cfg, w', other) {
      assert SessionFits(cfg, w, other);
    }
  }

  lemma {:induction false} RunKeepsInv(cfg: Config, run: seq<World>)
    requires Run(cfg, run) && Init(run[0])
    ensures Inv(cfg, run[|run| - 1])
    decreases |run|
  {
    var n := |run| - 1;
    if n > 0 {
      RunKeepsInv(cfg, run[..n]);
      assert Next(cfg, run[n - 1], run[n]);
      var step :| Enabled(run[n - 1], step) && run[n] == Apply(cfg, run[n - 1], step);
      StepKeepsInv(cfg, run[n - 1], step);
    }
  }

  // ---------------------------------------------------------------- what each operation leaves alone

  /** The session's family record lives and names it. */
  predicate FamilyLives(s: Store, id: SessionId)
    requires LiveSession(s, id)
  {
    var family := SessionOf(s, id).family;
    LiveIn(s.families, family, s.now) && s.families[family].value == id
  }

  /** A live session of which everything is as it was: record and expiry, index entry, family record. */
  ghost predicate Untouched(s: Store, s': Store, id: SessionId)
    requires LiveSession(s, id)
  {
    && LiveSession(s', id) && s'.sessions[id] == s.sessions[id]
    && id in Indexed(s', SessionOf(s, id).user) && id in Indexed(s, SessionOf(s, id).user)
    && (FamilyLives(s', id) <==> FamilyLives(s, id))
  }

  /** All sessions but these are live exactly if they were, and then untouched. */
  ghost predicate TouchesOnly(s: Store, s': Store, ids: set<SessionId>) {
    && s'.now == s.now
    && forall id :: id !in ids ==> (LiveSession(s', id) <==> LiveSession(s, id)) && (LiveSession(s, id) ==> Untouched(s, s', id))
  }

  ghost predicate EndsOnly(s: Store, s': Store, ended: set<SessionId>) {
    TouchesOnly(s, s', ended) && s'.cutoffs == s.cutoffs && forall id :: id in ended ==> !LiveSession(s', id)
  }

  /** Of a session that was live, neither its index entry nor its family record is left. */
  ghost predicate NothingLeft(s: Store, s': Store, id: SessionId) {
    LiveSession(s, id) ==>
      && id !in Indexed(s', SessionOf(s, id).user)
      && !LiveIn(s'.families, SessionOf(s, id).family, s'.now)
  }

  lemma RevocationEndsOne(cfg: Config, w: World, id: SessionId)
    requires Inv(cfg, w)
    ensures EndsOnly(w.store, SessionRevoked(w.store, id), {id})
    ensures NothingLeft(w.store, SessionRevoked(w.store, id), id)
  {
    var s, s' := w.store, SessionRevoked(w.store, id);
    assert SessionFits(cfg, w, id);
    forall other | other != id && LiveSession(s, other) ensures Untouched(s, s', other) {
      assert SessionFits(cfg, w, other);
    }
  }

  /** Signing out of one session ends that session and touches no other. */
  lemma RevokeSessionEndsOne(cfg: Config, run: seq<World>, id: SessionId)
    requires Run(cfg, run) && Init(run[0])
    ensures var s := run[|run| - 1].store;
            EndsOnly(s, SessionRevoked(s, id), {id}) && NothingLeft(s, SessionRevoked(s, id), id)
  {
    RunKeepsInv(cfg, run);
    RevocationEndsOne(cfg, run[|run| - 1], id);
  }

  /** The session a live family record names. */
  function NamedBy(s: Store, family: FamilyId): set<SessionId> {
    if LiveIn(s.families, family, s.now) then {s.families[family].value} else {}
  }

  lemma FamilyRevocationEndsOne(cfg: Config, w: World, family: FamilyId)
    requires Inv(cfg, w)
    ensures EndsOnly(w.store, FamilyRevoked(w.store, family), NamedBy(w.store, family))
  {
    var s, s' := w.store, FamilyRevoked(w.store, family);
    if LiveIn(s.families, family, s.now) {
      RevocationEndsOne(cfg, w, s.families[family].value);
    }
    forall other | other !in NamedBy(s, family) && LiveSession(s, other) ensures Untouched(s, s', other) {
      assert SessionFits(cfg, w, other);
    }
  }

  /** Revoking a family ends the session its live record names, if any, and touches no other. */
  lemma RevokeFamilyEndsItsSession(cfg: Config, run: seq<World>, family: FamilyId)
    requires Run(cfg, run) && Init(run[0])
    ensures var s := run[|run| - 1].store;
            EndsOnly(s, FamilyRevoked(s, family), NamedBy(s, family)) && family !in FamilyRevoked(s, family).families
  {
    RunKeepsInv(cfg, run);
    FamilyRevocationEndsOne(cfg, run[|run| - 1], family);
  }

  /** A refused rotation touches no other session: none at all if the session is gone, or its family record is. */
  lemma RefusalEndsAtMostOne(cfg: Config, run: seq<World>, id: SessionId, presented: Token, newToken: Token)
    requires Run(cfg, run) && Init(run[0])
    ensures var s := run[|run| - 1].store;
            var (s', result) := RotationOf(cfg, s, id, presented, newToken);
            && (result == SessionNotFound <==> !LiveSession(s, id))
            && (result == SessionNotFound ==> s' == s)
            && (result == TokenReuse <==> LiveSession(s, id) && SessionOf(s, id).token != presented)
            && (result == TokenReuse ==> EndsOnly(s, s', if FamilyLives(s, id) then {id} else {}))
  {
    RunKeepsInv(cfg, run);
    var w := run[|run| - 1];
    assert SessionFits(cfg, w, id);
    if LiveSession(w.store, id) {
      FamilyRevocationEndsOne(cfg, w, SessionOf(w.store, id).family);
    }
  }

  /** A granted rotation renews one session, for one more refresh period and with the new token, and touches no other. */
  lemma RotationRenewsOne(cfg: Config, run: seq<World>, id: SessionId, presented: Token, newToken: Token)
    requires Run(cfg, run) && Init(run[0]) && cfg.refreshTtlSec > 0
    requires var s := run[|run| - 1].store; LiveSession(s, id) && SessionOf(s, id).token == presented
    ensures var s := run[|run| - 1].store;
            var s' := RotationOf(cfg, s, id, presented, newToken).0;
            && TouchesOnly(s, s', {id}) && s'.cutoffs == s.cutoffs
            && LiveSession(s', id) && s'.sessions[id].expiresAt == s.now + cfg.refreshTtlSec * 1000
            && SessionOf(s', id) == SessionOf(s, id).(token := newToken)
            && id in Indexed(s', SessionOf(s, id).user)
            && (FamilyLives(s', id) <==> FamilyLives(s, id))
  {
    RunKeepsInv(cfg, run);
    var w := run[|run| - 1];
    var s' := RotationOf(cfg, w.store, id, presented, newToken).0;
    forall other | other != id && LiveSession(w.store, other) ensures Untouched(w.store, s', other) {
      assert SessionFits(cfg, w, other);
    }
  }

  /** Signing in adds one session, live for one refresh period, and touches no other. */
  lemma CreationAddsOne(cfg: Config, run: seq<World>, user: UserId, id: SessionId, family: FamilyId, token: Token)
    requires Run(cfg, run) && Init(run[0]) && cfg.refreshTtlSec > 0
    requires Enabled(run[|run| - 1], Create(user, id, family, token))
    ensures var s := run[|run| - 1].store;
            var s' := Created(cfg, s, user, id, family, token);
            && TouchesOnly(s, s', {id}) && s'.cutoffs == s.cutoffs
            && LiveSession(s', id) && s'.sessions[id] == Timed(Record(user, family, token), s.now + cfg.refreshTtlSec * 1000)
            && id in Indexed(s', user) && FamilyLives(s', id)
  {
    RunKeepsInv(cfg, run);
    var w := run[|run| - 1];
    var s' := Created(cfg, w.store, user, id, family, token);
    forall other | other != id && LiveSession(w.store, other) ensures Untouched(w.store, s', other) {
      assert SessionFits(cfg, w, other);
    }
  }

  /** Signing out everywhere touches nothing but its targets, and tidying touches no session at all. */
  lemma RevokeAllTouchesItsTargets(cfg: Config, run: seq<World>, user: UserId, except: Option<SessionId>, id: SessionId)
    requires Run(cfg, run) && Init(run[0])
    ensures var s := run[|run| - 1].store;
            && TouchesOnly(s, AllRevoked(cfg, s, user, except), Targets(s, user, except))
            && Indexed(AllRevoked(cfg, s, user, except), user) == Indexed(s, user) - Targets(s, user, except)
            && EndsOnly(s, Tidied(s, user, id), {})
            && Indexed(Tidied(s, user, id), user) == (if LiveSession(s, id) then Indexed(s, user) else Indexed(s, user) - {id})
  {
    RunKeepsInv(cfg, run);
    var w := run[|run| - 1];
    var s := w.store;
    forall other | LiveSession(s, other)
      ensures other !in Targets(s, user, except) ==> Untouched(s, AllRevoked(cfg, s, user, except), other)
      ensures Untouched(s, Tidied(s, user, id), other)
    {
      assert SessionFits(cfg, w, other);
    }
  }

  // ---------------------------------------------------------------- sign out everywhere

  /**
   * After a mass revocation no session of the user is live but the excepted one, the excepted one
   * is as live as before, and other users' sessions are untouched. If the user had a session to
   * end, the cutoff is written; an index that lists only expired sessions writes it as well.
   */
  lemma SignOutEverywhereIsTotal(cfg: Config, run: seq<World>, user: UserId, except: Option<SessionId>)
    requires Run(cfg, run) && Init(run[0])
    ensures var w := run[|run| - 1];
            var s' := AllRevoked(cfg, w.store, user, except);
            && (forall id :: LiveSession(s', id) <==>
                  LiveSession(w.store, id) && (SessionOf(w.store, id).user != user || Some(id) == except))
            && (forall id :: LiveSession(s', id) ==> SessionOf(s', id) == SessionOf(w.store, id))
    ensures var w := run[|run| - 1];
            var s' := AllRevoked(cfg, w.store, user, except);
            (exists id :: LiveSession(w.store, id) && SessionOf(w.store, id).user == user && Some(id) != except) ==>
              user in s'.cutoffs && s'.cutoffs[user] == Timed(w.store.now, w.store.now + (cfg.accessTtlSec + 60) * 1000)
  {
    RunKeepsInv(cfg, run);
    var w := run[|run| - 1];
    var s' := AllRevoked(cfg, w.store, user, except);
    forall id | LiveSession(w.store, id)
      ensures id in Targets(w.store, user, except) <==> SessionOf(w.store, id).user == user && Some(id) != except
    {
      assert SessionFits(cfg, w, id);
    }
    forall id ensures LiveSession(s', id) <==> LiveSession(w.store, id) && id !in Targets(w.store, user, except) {
    }
  }

  /** A cutoff at least this late is on record and lasts at least this long. */
  ghost predicate CutoffStands(cfg: Config, s: Store, user: UserId, at: int) {
    user in s.cutoffs && s.cutoffs[user].value >= at && s.cutoffs[user].expiresAt >= at + CutoffMs(cfg)
  }

  lemma StepKeepsCutoff(cfg: Config, w: World, step: Step, user: UserId, at: int)
    requires CutoffStands(cfg, w.store, user, at) && at <= w.store.now
    ensures CutoffStands(cfg, Apply(cfg, w, step).store, user, at)
    ensures at <= Apply(cfg, w, step).store.now
  {
  }

  lemma {:induction false} RunKeepsCutoff(cfg: Config, run: seq<World>, user: UserId, at: int)
    requires Run(cfg, run) && CutoffStands(cfg, run[0].store, user, at) && at <= run[0].store.now
    ensures CutoffStands(cfg, run[|run| - 1].store, user, at) && at <= run[|run| - 1].store.now
    decreases |run|
  {
    var n := |run| - 1;
    if n > 0 {
      RunKeepsCutoff(cfg, run[..n], user, at);
      assert Next(cfg, run[n - 1], run[n]);
      var step :| Enabled(run[n - 1], step) && run[n] == Apply(cfg, run[n - 1], step);
      StepKeepsCutoff(cfg, run[n - 1], step, user, at);
    }
  }

  /** An access token counts its life from the whole second in which it was issued. */
  function AccessExpiry(cfg: Config, issuedAtMs: int): int {
    (issuedAtMs / 1000 + cfg.accessTtlSec) * 1000
  }

  /**
   * Every access token issued before a mass revocation stays rejected until it has expired by
   * itself, whatever happens after the revocation.
   */
  lemma CutoffOutlivesAccessTokens(cfg: Config, run: seq<World>, user: UserId, at: int, issuedAtMs: int)
    requires Run(cfg, run) && at == run[0].store.now
    requires user in run[0].store.cutoffs && run[0].store.cutoffs[user] == Timed(at, at + CutoffMs(cfg))
    requires issuedAtMs < at
    requires run[|run| - 1].store.now < AccessExpiry(cfg, issuedAtMs)
    ensures IssuedBeforeRevocation(run[|run| - 1].store, user, issuedAtMs / 1000)
  {
    RunKeepsCutoff(cfg, run, user, at);
  }

  /**
   * The cutoff is compared with whole seconds, so right after it is written it rejects the tokens
   * issued before it and, unless it fell on a full second, those issued later in the same second.
   */
  lemma CutoffRejectsExactly(s: Store, user: UserId, at: int, issuedAtMs: int)
    requires LiveIn(s.cutoffs, user, s.now) && s.cutoffs[user].value == at
    ensures IssuedBeforeRevocation(s, user, issuedAtMs / 1000) <==>
              issuedAtMs < at || (issuedAtMs / 1000 == at / 1000 && at % 1000 != 0)
  {
  }

  // ---------------------------------------------------------------- refresh-token rotation

  /** A session accepts its latest token and nothing else it or anybody was ever given. */
  lemma OnlyTheLatestTokenRotates(cfg: Config, run: seq<World>, id: SessionId, presented: Token, newToken: Token)
    requires Run(cfg, run) && Init(run[0])
    ensures var w := run[|run| - 1];
            RotationOf(cfg, w.store, id, presented, newToken).1 == Rotated <==>
              LiveSession(w.store, id) && id in w.tokens && w.tokens[id] != []
              && presented == w.tokens[id][|w.tokens[id]| - 1]
  {
    RunKeepsInv(cfg, run);
    assert SessionFits(cfg, run[|run| - 1], id);
  }

  /**
   * Presenting a token that was rotated away is always reported as reuse. It ends the session
   * exactly while the family record lives, which is one refresh period from the session's
   * creation: rotate does not renew it.
   */
  lemma ReuseEndsTheSessionIffFamilyLives(cfg: Config, run: seq<World>, id: SessionId, k: nat, newToken: Token)
    requires Run(cfg, run) && Init(run[0])
    requires LiveSession(run[|run| - 1].store, id) && id in run[|run| - 1].tokens
    requires k < |run[|run| - 1].tokens[id]| - 1
    ensures var w := run[|run| - 1];
            var (after, result) := RotationOf(cfg, w.store, id, w.tokens[id][k], newToken);
            && result == TokenReuse
            && id in w.created
            && (!LiveSession(after, id) <==> w.store.now < w.created[id] + RefreshMs(cfg))
  {
    RunKeepsInv(cfg, run);
    assert SessionFits(cfg, run[|run| - 1], id);
  }

  lemma EndedStaysEnded(cfg: Config, w: World, step: Step, id: SessionId)
    requires Enabled(w, step) && id in w.tokens && !LiveSession(w.store, id)
    ensures !LiveSession(Apply(cfg, w, step).store, id) && id in Apply(cfg, w, step).tokens
  {
    match step
    case Elapse(ms) =>
    case Create(user, other, family, token) =>
    case Rotate(other, presented, newToken) =>
    case RevokeSession(other) =>
    case RevokeFamily(family) =>
    case RevokeAll(user, except) =>
    case Tidy(user, other) =>
  }

  /** A session that has ended never comes back. */
  lemma {:induction false} EndedForGood(cfg: Config, run: seq<World>, id: SessionId)
    requires Run(cfg, run) && id in run[0].tokens && !LiveSession(run[0].store, id)
    ensures !LiveSession(run[|run| - 1].store, id) && id in run[|run| - 1].tokens
    decreases |run|
  {
    var n := |run| - 1;
    if n > 0 {
      EndedForGood(cfg, run[..n], id);
      assert Next(cfg, run[n - 1], run[n]);
      var step :| Enabled(run[n - 1], step) && run[n] == Apply(cfg, run[n - 1], step);
      EndedStaysEnded(cfg, run[n - 1], step, id);
    }
  }

  /** A run that gets past the family record: rotate just before it expires, then replay the first token. */
  lemma ReplayAfterTheFamilyExpired(cfg: Config, w0: World) returns (run: seq<World>)
    requires Init(w0) && cfg.refreshTtlSec > 0
    ensures Run(cfg, run) && run[0] == w0
    ensures var w := run[|run| - 1];
            && "s" in w.tokens && w.tokens["s"] == ["first", "second"]
            && (var (after, result) := RotationOf(cfg, w.store, "s", "first", "third");
                result == TokenReuse && LiveSession(after, "s"))
  {
    var w1 := Apply(cfg, w0, Create("u", "s", "f", "first"));
    var w2 := Apply(cfg, w1, Elapse(RefreshMs(cfg) - 1));
    var w3 := Apply(cfg, w2, Rotate("s", "first", "second"));
    var w4 := Apply(cfg, w3, Elapse(1));
    run := [w0, w1, w2, w3, w4];
    assert Next(cfg, w0, w1) by { assert Enabled(w0, Create("u", "s", "f", "first")); }
    assert Next(cfg, w1, w2) by { assert Enabled(w1, Elapse(RefreshMs(cfg) - 1)); }
    assert Next(cfg, w2, w3) by { assert Enabled(w2, Rotate("s", "first", "second")); }
    assert Next(cfg, w3, w4) by { assert Enabled(w3, Elapse(1)); }
    assert SessionOf(w4.store, "s").token == "second";
  }
}
