/**
 * Rotation as server/src/identity/SessionStore.js runs it: a GET of the session, a check, and a
 * later MULTI that writes the record back (104-127). Whatever other calls do in between is undone.
 *
 * Runs in which nothing happens to the session in between refine those of module SessionStore, where
 * a rotation is one step; and a session that has ended stays so exactly if no write is on its way.
 */
module SessionRaces {
  import opened Basics
  import opened Redis
  import S = SessionStore

  type CallId = nat

  /** A rotation that passed its check: the record it read and the token it will write. */
  datatype Pending = Pending(id: S.SessionId, record: S.Record, newToken: S.Token)

  datatype State = State(world: S.World, pending: map<CallId, Pending>)

  datatype Step =
    | Whole(step: S.Step)
    | Read(call: CallId, id: S.SessionId, presented: S.Token, newToken: S.Token)
    | Write(call: CallId)

  predicate InFlight(s: State, id: S.SessionId) {
    exists c :: c in s.pending && s.pending[c].id == id
  }

  /** A new token is new to its session and to the calls on it. */
  ghost predicate NewTo(s: State, id: S.SessionId, token: S.Token) {
    && (id in s.world.tokens ==> token !in s.world.tokens[id])
    && forall c :: c in s.pending && s.pending[c].id == id ==> s.pending[c].newToken != token
  }

  ghost predicate Enabled(s: State, step: Step) {
    match step
    case Whole(whole) => !whole.Rotate? && S.Enabled(s.world, whole)
    case Read(call, id, presented, newToken) => call !in s.pending && NewTo(s, id, newToken)
    case Write(call) => call in s.pending
  }

  /** The MULTI of rotate, with a record read earlier. */
  function Written(cfg: S.Config, store: S.Store, p: Pending): S.Store {
    store.(sessions := store.sessions[p.id := Timed(p.record.(token := p.newToken), store.now + S.RefreshMs(cfg))],
           index := S.Touched(cfg, store, p.record.user, p.id))
  }

  ghost function Apply(cfg: S.Config, s: State, step: Step): State
    requires Enabled(s, step)
  {
    match step
    case Whole(whole) => s.(world := S.Apply(cfg, s.world, whole))
    case Read(call, id, presented, newToken) =>
      if !S.LiveSession(s.world.store, id) then s
      else
        var record := S.SessionOf(s.world.store, id);
        if record.token != presented
        then s.(world := s.world.(store := S.FamilyRevoked(s.world.store, record.family)))
        else s.(pending := s.pending[call := Pending(id, record, newToken)])
    case Write(call) =>
      var p, w := s.pending[call], s.world;
      State(w.(store := Written(cfg, w.store, p),
               tokens := if p.id in w.tokens then w.tokens[p.id := w.tokens[p.id] + [p.newToken]] else w.tokens),
            s.pending - {call})
  }

  // ---------------------------------------------------------------- undisturbed rotations

  /** The session is live and as it was when it was read. */
  predicate Undisturbed(store: S.Store, p: Pending) {
    S.LiveSession(store, p.id) && S.SessionOf(store, p.id) == p.record
  }

  /** The write has the effect of a whole rotation exactly if nothing happened to the session since the read. */
  lemma WriteIsRotationIff(cfg: S.Config, store: S.Store, p: Pending)
    ensures S.RotationOf(cfg, store, p.id, p.record.token, p.newToken) == (Written(cfg, store, p), S.Rotated)
       <==> Undisturbed(store, p)
  {
    if S.LiveSession(store, p.id) && S.SessionOf(store, p.id).token == p.record.token {
      var r := S.SessionOf(store, p.id);
      assert S.RotationOf(cfg, store, p.id, p.record.token, p.newToken).0.sessions[p.id].value == r.(token := p.newToken);
      assert Written(cfg, store, p).sessions[p.id].value == p.record.(token := p.newToken);
    }
  }

  ghost predicate Next(cfg: S.Config, s: State, s': State) {
    exists step :: Enabled(s, step) && s' == Apply(cfg, s, step)
  }

  /** The same with no write into a disturbed session. */
  ghost predicate CleanNext(cfg: S.Config, s: State, s': State) {
    exists step :: && Enabled(s, step) && s' == Apply(cfg, s, step)
                   && (step.Write? ==> Undisturbed(s.world.store, s.pending[step.call]))
  }

  ghost predicate Continues(cfg: S.Config, run: seq<State>) {
    run != [] && forall i :: 0 < i < |run| ==> Next(cfg, run[i - 1], run[i])
  }

  ghost predicate CleanRun(cfg: S.Config, run: seq<State>) {
    && run != [] && S.Init(run[0].world) && run[0].pending == map[]
    && forall i :: 0 < i < |run| ==> CleanNext(cfg, run[i - 1], run[i])
  }

  /** Sessions have a history of tokens, and what is about to be written is new to it. */
  ghost predicate PendingFits(s: State) {
    && (forall id :: id in s.world.store.sessions ==> id in s.world.tokens)
    && (forall c :: c in s.pending ==>
          s.pending[c].id in s.world.tokens && s.pending[c].newToken !in s.world.tokens[s.pending[c].id])
    && (forall c, d :: c in s.pending && d in s.pending && c != d && s.pending[c].id == s.pending[d].id ==>
          s.pending[c].newToken != s.pending[d].newToken)
  }

  lemma StepKeepsPending(cfg: S.Config, s: State, step: Step)
    requires PendingFits(s) && Enabled(s, step)
    ensures PendingFits(Apply(cfg, s, step))
  {
    if step.Whole? {
      WholeKeepsHistory(cfg, s.world, step.step);
    }
  }

  lemma WholeKeepsHistory(cfg: S.Config, w: S.World, step: S.Step)
    requires !step.Rotate? && S.Enabled(w, step) && forall id :: id in w.store.sessions ==> id in w.tokens
    ensures var w' := S.Apply(cfg, w, step);
            && (forall id :: id in w'.store.sessions ==> id in w'.tokens)
            && (forall id :: id in w.tokens ==> id in w'.tokens && w'.tokens[id] == w.tokens[id])
  {
    match step
    case Elapse(ms) =>
    case Create(user, id, family, token) =>
    case RevokeSession(id) =>
    case RevokeFamily(family) =>
    case RevokeAll(user, except) =>
    case Tidy(user, id) =>
  }

  /** A step of a clean run is a step of the atomic model, or none. */
  lemma CleanStepRefines(cfg: S.Config, s: State, step: Step)
    requires PendingFits(s) && Enabled(s, step)
    requires step.Write? ==> Undisturbed(s.world.store, s.pending[step.call])
    ensures Apply(cfg, s, step).world == s.world || S.Next(cfg, s.world, Apply(cfg, s, step).world)
  {
    var w' := Apply(cfg, s, step).world;
    match step
    case Whole(whole) =>
    case Read(call, id, presented, newToken) =>
      if w' != s.world {
        assert S.Enabled(s.world, S.Rotate(id, presented, newToken));
        assert w' == S.Apply(cfg, s.world, S.Rotate(id, presented, newToken));
      }
    case Write(call) =>
      var p := s.pending[call];
      WriteIsRotationIff(cfg, s.world.store, p);
      assert S.Enabled(s.world, S.Rotate(p.id, p.record.token, p.newToken));
      assert w' == S.Apply(cfg, s.world, S.Rotate(p.id, p.record.token, p.newToken));
  }

  lemma CleanNextRefines(cfg: S.Config, s: State, s': State)
    requires PendingFits(s) && CleanNext(cfg, s, s')
    ensures PendingFits(s') && (s'.world == s.world || S.Next(cfg, s.world, s'.world))
  {
    var step :| && Enabled(s, step) && s' == Apply(cfg, s, step)
                && (step.Write? ==> Undisturbed(s.world.store, s.pending[step.call]));
    StepKeepsPending(cfg, s, step);
    CleanStepRefines(cfg, s, step);
  }

  /** Where no rotation writes into a disturbed session, everything is as if rotations were single steps. */
  lemma {:induction false} CleanRunRefines(cfg: S.Config, run: seq<State>) returns (atomic: seq<S.World>)
    requires CleanRun(cfg, run)
    ensures S.Run(cfg, atomic) && S.Init(atomic[0]) && Last(atomic) == Last(run).world
    ensures PendingFits(Last(run))
    decreases |run|
  {
    hide CleanNext, S.Next;
    var n := |run| - 1;
    if n == 0 {
      atomic := [run[0].world];
    } else {
      hide S.Init, PendingFits;
      var before := CleanRunRefines(cfg, run[..n]);
      assert CleanNext(cfg, run[n - 1], run[n]);
      CleanNextRefines(cfg, run[n - 1], run[n]);
      atomic := if run[n].world == run[n - 1].world then before else before + [run[n].world];
    }
  }

  // ---------------------------------------------------------------- when an end is final

  /** Whatever follows, the session is not live again. */
  ghost predicate EndsForGood(cfg: S.Config, s: State, id: S.SessionId) {
    forall run :: Continues(cfg, run) && run[0] == s ==> !S.LiveSession(Last(run).world.store, id)
  }

  ghost predicate Over(s: State, id: S.SessionId) {
    id in s.world.tokens && !S.LiveSession(s.world.store, id) && !InFlight(s, id)
  }

  lemma StepKeepsOver(cfg: S.Config, s: State, step: Step, id: S.SessionId)
    requires Enabled(s, step) && Over(s, id)
    ensures Over(Apply(cfg, s, step), id)
  {
    match step
    case Whole(whole) => S.EndedStaysEnded(cfg, s.world, whole, id);
    case Read(call, other, presented, newToken) =>
    case Write(call) => assert s.pending[call].id != id;
  }

  lemma {:induction false} StaysOver(cfg: S.Config, run: seq<State>, id: S.SessionId)
    requires Continues(cfg, run) && Over(run[0], id)
    ensures Over(Last(run), id)
    decreases |run|
  {
    var n := |run| - 1;
    if n > 0 {
      StaysOver(cfg, run[..n], id);
      assert Next(cfg, run[n - 1], run[n]);
      var step :| Enabled(run[n - 1], step) && run[n] == Apply(cfg, run[n - 1], step);
      StepKeepsOver(cfg, run[n - 1], step, id);
    }
  }

  /** A session that has ended, however, has ended for good exactly if no rotation of it is between read and write. */
  lemma EndsForGoodIffNotInFlight(cfg: S.Config, s: State, id: S.SessionId)
    requires cfg.refreshTtlSec > 0 && id in s.world.tokens && !S.LiveSession(s.world.store, id)
    ensures EndsForGood(cfg, s, id) <==> !InFlight(s, id)
  {
    if c :| c in s.pending && s.pending[c].id == id {
      var after := Apply(cfg, s, Write(c));
      assert Enabled(s, Write(c)) && Next(cfg, s, after);
      var run := [s, after];
      assert Continues(cfg, run) && run[0] == s && S.LiveSession(Last(run).world.store, id);
    } else {
      forall run | Continues(cfg, run) && run[0] == s ensures !S.LiveSession(Last(run).world.store, id) {
        StaysOver(cfg, run, id);
      }
    }
  }

  /**
   * Signing out everywhere ends each of the user's sessions but the excepted one, and for good
   * exactly those that no rotation is about to write.
   */
  lemma SignOutIsFinalIff(cfg: S.Config, run: seq<State>, user: S.UserId, except: Option<S.SessionId>, id: S.SessionId)
    requires cfg.refreshTtlSec > 0 && CleanRun(cfg, run)
    requires S.LiveSession(Last(run).world.store, id) && S.SessionOf(Last(run).world.store, id).user == user
    requires Some(id) != except
    ensures var s := Last(run);
            var after := s.(world := s.world.(store := S.AllRevoked(cfg, s.world.store, user, except)));
            && !S.LiveSession(after.world.store, id)
            && (EndsForGood(cfg, after, id) <==> !InFlight(s, id))
  {
    var s := Last(run);
    var after := s.(world := s.world.(store := S.AllRevoked(cfg, s.world.store, user, except)));
    var atomic := CleanRunRefines(cfg, run);
    S.SignOutEverywhereIsTotal(cfg, atomic, user, except);
    EndsForGoodIffNotInFlight(cfg, after, id);
    assert InFlight(after, id) <==> InFlight(s, id);
  }

  /**
   * Two rotations of one session that both passed their check both succeed. The client that was
   * answered first holds a token that is reported as reuse from then on.
   */
  lemma OverlapTurnsIntoReuse(cfg: S.Config, s: State, c: CallId, d: CallId, newToken: S.Token)
    requires cfg.refreshTtlSec > 0 && PendingFits(s)
    requires c in s.pending && d in s.pending && c != d && s.pending[c].id == s.pending[d].id
    ensures var id := s.pending[c].id;
            var after := Apply(cfg, Apply(cfg, s, Write(c)), Write(d));
            && S.LiveSession(after.world.store, id)
            && S.SessionOf(after.world.store, id).token == s.pending[d].newToken
            && S.RotationOf(cfg, after.world.store, id, s.pending[c].newToken, newToken).1 == S.TokenReuse
  {
  }
}
