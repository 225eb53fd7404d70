/**
 * server/src/classroom/RoomRegistry.js: many callers resolving the node of one room at once,
 * interleaved Redis command by Redis command, while nodes heartbeat and drain.
 *
 * In a steady run nobody releases the room and no key expires; then all callers agree. With
 * expiry the exact steps that break agreement are given. The avoid list is empty.
 */
module RoomRegistry {
  import opened Basics

  type NodeId = string
  type CallerId = nat

  datatype Node = Node(id: NodeId, rooms: int, maxRooms: int, draining: bool)

  // ---------------------------------------------------------------- choosing a node

  predicate Assignable(n: Node) {
    !n.draining && n.rooms < n.maxRooms
  }

  /** listNodes: the assignable records of the pool, in the order SMEMBERS gave. */
  function Candidates(nodes: map<NodeId, Node>, pool: seq<NodeId>): seq<Node> {
    if pool == [] then []
    else
      (if pool[0] in nodes && Assignable(nodes[pool[0]]) then [nodes[pool[0]]] else []) + Candidates(nodes, pool[1..])
  }

  lemma {:induction false} CandidatesMembers(nodes: map<NodeId, Node>, pool: seq<NodeId>)
    ensures forall n :: n in Candidates(nodes, pool) <==>
              exists id :: id in pool && id in nodes && nodes[id] == n && !n.draining && n.rooms < n.maxRooms
  {
    if pool != [] {
      CandidatesMembers(nodes, pool[1..]);
      assert pool == [pool[0]] + pool[1..];
    }
  }

  /** The reduction over the candidates that keeps the earlier of two equally loaded nodes. */
  method Emptiest(candidates: seq<Node>) returns (best: Node)
    requires candidates != []
    ensures LeastLoaded(candidates, best)
  {
    best := candidates[0];
    ghost var at := 0;
    for i := 1 to |candidates|
      invariant 0 <= at < i && candidates[at] == best
      invariant forall j :: 0 <= j < at ==> best.rooms < candidates[j].rooms
      invariant forall j :: 0 <= j < i ==> best.rooms <= candidates[j].rooms
    {
      if candidates[i].rooms < best.rooms {
        best, at := candidates[i], i;
      }
    }
  }

  /** The first of the candidates with the fewest rooms. */
  ghost predicate LeastLoaded(candidates: seq<Node>, best: Node) {
    exists k :: 0 <= k < |candidates| && candidates[k] == best
             && (forall j :: 0 <= j < k ==> best.rooms < candidates[j].rooms)
             && (forall j :: 0 <= j < |candidates| ==> best.rooms <= candidates[j].rooms)
  }

  // ---------------------------------------------------------------- callers

  /** Where a call of resolveNode is, with what it has read so far. */
  datatype Pc =
    | Start
    | Found(existing: NodeId)
    | Orphaned
    | Choosing
    | Listed(order: seq<NodeId>)
    | Chosen(node: NodeId)
    | Lost(node: NodeId)
    | Overtaken(actual: Option<NodeId>, node: NodeId)
    | Returned(node: NodeId, placed: bool)
    | Unavailable

  /** The room's key, the node records, the pool set, and the calls. */
  datatype Cluster = Cluster(room: Option<NodeId>, nodes: map<NodeId, Node>, pool: set<NodeId>, calls: map<CallerId, Pc>)

  /**
   * One command each, and a heartbeat its MULTI. Draining a node writes its record back and takes
   * it out of the pool; a listing that misses a record takes that id out of the pool.
   */
  datatype Step =
    | GetRoom(c: CallerId)
    | GetExistingNode(c: CallerId)
    | DelRoom(c: CallerId)
    | ListPool(c: CallerId, order: seq<NodeId>)
    | FetchAndChoose(c: CallerId, best: Node)
    | SetRoomNx(c: CallerId)
    | GetWinner(c: CallerId)
    | GetWinnerNode(c: CallerId)
    | Heartbeat(node: Node)
    | WriteRecord(node: Node)
    | LeavePool(id: NodeId)
    | ExpireRecord(id: NodeId)
    | ExpireRoom
    | ReleaseRoom

  ghost predicate At(s: Cluster, c: CallerId, pc: Pc) {
    c in s.calls && s.calls[c] == pc
  }

  ghost predicate Enabled(s: Cluster, step: Step) {
    match step
    case GetRoom(c) => c in s.calls && s.calls[c].Start?
    case GetExistingNode(c) => c in s.calls && s.calls[c].Found?
    case DelRoom(c) => c in s.calls && s.calls[c].Orphaned?
    case ListPool(c, order) => c in s.calls && s.calls[c].Choosing? && forall id :: id in order <==> id in s.pool
    case FetchAndChoose(c, best) =>
      && c in s.calls && s.calls[c].Listed?
      && (var found := Candidates(s.nodes, s.calls[c].order); found != [] ==> LeastLoaded(found, best))
    case SetRoomNx(c) => c in s.calls && s.calls[c].Chosen?
    case GetWinner(c) => c in s.calls && s.calls[c].Lost?
    case GetWinnerNode(c) => c in s.calls && s.calls[c].Overtaken?
    case Heartbeat(node) => true
    case WriteRecord(node) => true
    case LeavePool(id) => true
    case ExpireRecord(id) => true
    case ExpireRoom => true
    case ReleaseRoom => true
  }

  ghost function Apply(s: Cluster, step: Step): Cluster
    requires Enabled(s, step)
  {
    match step
    case GetRoom(c) => s.(calls := s.calls[c := if s.room.Some? then Found(s.room.value) else Choosing])
    case GetExistingNode(c) =>
      var existing := s.calls[c].existing;
      s.(calls := s.calls[c := if existing in s.nodes then Returned(existing, false) else Orphaned])
    case DelRoom(c) => s.(room := None, calls := s.calls[c := Choosing])
    case ListPool(c, order) => s.(calls := s.calls[c := if order == [] then Unavailable else Listed(order)])
    case FetchAndChoose(c, best) =>
      var found := Candidates(s.nodes, s.calls[c].order);
      s.(calls := s.calls[c := if found == [] then Unavailable else Chosen(best.id)])
    case SetRoomNx(c) =>
      var node := s.calls[c].node;
      if s.room.None? then s.(room := Some(node), calls := s.calls[c := Returned(node, true)])
      else s.(calls := s.calls[c := Lost(node)])
    case GetWinner(c) => s.(calls := s.calls[c := Overtaken(s.room, s.calls[c].node)])
    case GetWinnerNode(c) =>
      var actual := s.calls[c].actual;
      var node := if actual.Some? && actual.value in s.nodes then actual.value else s.calls[c].node;
      s.(calls := s.calls[c := Returned(node, false)])
    case Heartbeat(node) => s.(nodes := s.nodes[node.id := node], pool := s.pool + {node.id})
    case WriteRecord(node) => s.(nodes := s.nodes[node.id := node])
    case LeavePool(id) => s.(pool := s.pool - {id})
    case ExpireRecord(id) => s.(nodes := s.nodes - {id})
    case ExpireRoom => s.(room := None)
    case ReleaseRoom => s.(room := None)
  }

  /** No key expires, and nobody releases the room. */
  predicate Steady(step: Step) {
    !step.ExpireRecord? && !step.ExpireRoom? && !step.ReleaseRoom?
  }

  ghost predicate Next(s: Cluster, s': Cluster) {
    exists step :: Steady(step) && Enabled(s, step) && s' == Apply(s, step)
  }

  ghost predicate Run(run: seq<Cluster>) {
    run != [] && forall i :: 0 < i < |run| ==> Next(run[i - 1], run[i])
  }

  /** Calls about to start; records are filed under their own id; an assigned room's node has its record. */
  ghost predicate Init(s: Cluster) {
    && (forall c :: c in s.calls ==> s.calls[c] == Start)
    && (forall id :: id in s.nodes ==> s.nodes[id].id == id)
    && (s.room.Some? ==> s.room.value in s.nodes)
  }

  // ---------------------------------------------------------------- agreement

  ghost predicate CallFits(s: Cluster, c: CallerId)
    requires c in s.calls
  {
    match s.calls[c]
    case Found(existing) => s.room == Some(existing)
    case Orphaned => false
    case Chosen(node) => node in s.nodes
    case Lost(node) => s.room.Some?
    case Overtaken(actual, node) => actual.Some? && s.room == actual
    case Returned(node, placed) => s.room == Some(node)
    case _ => true
  }

  ghost predicate Inv(s: Cluster) {
    && (forall id :: id in s.nodes ==> s.nodes[id].id == id)
    && (s.room.Some? ==> s.room.value in s.nodes)
    && (forall c :: c in s.calls ==> CallFits(s, c))
    && (forall c, d :: c in s.calls && d in s.calls && WasAssigned(s, c) && WasAssigned(s, d) ==> c == d)
  }

  ghost predicate WasAssigned(s: Cluster, c: CallerId) {
    c in s.calls && s.calls[c].Returned? && s.calls[c].placed
  }

  lemma ChosenHasRecord(nodes: map<NodeId, Node>, order: seq<NodeId>, best: Node)
    requires forall id :: id in nodes ==> nodes[id].id == id
    requires LeastLoaded(Candidates(nodes, order), best)
    ensures best.id in nodes && Assignable(best)
  {
    CandidatesMembers(nodes, order);
  }

  lemma StepKeepsInv(s: Cluster, step: Step)
    requires Inv(s) && Enabled(s, step) && Steady(step)
    ensures Inv(Apply(s, step))
    ensures s.room.Some? ==> Apply(s, step).room == s.room
  {
    var s' := Apply(s, step);
    if step.FetchAndChoose? && Candidates(s.nodes, s.calls[step.c].order) != [] {
      ChosenHasRecord(s.nodes, s.calls[step.c].order, step.best);
    }
    assert forall c :: c in s.calls && CallFits(s, c) ==> !s.calls[c].Orphaned?;
    if !step.DelRoom? {
      forall c | c in s'.calls ensures CallFits(s', c) {
        assert CallFits(s, c);
      }
      forall c, d | c in s'.calls && d in s'.calls && WasAssigned(s', c) && WasAssigned(s', d) ensures c == d {
        assert CallFits(s, c) && CallFits(s, d);
        assert WasAssigned(s, c) || (step == SetRoomNx(c) && s.room.None?);
        assert WasAssigned(s, d) || (step == SetRoomNx(d) && s.room.None?);
      }
    }
  }

  lemma {:induction false} RunKeepsInv(run: seq<Cluster>)
    requires Run(run) && Init(run[0])
    ensures Inv(Last(run)) && (run[0].room.Some? ==> Last(run).room == run[0].room)
    ensures run[0].room.Some? ==> forall c :: !WasAssigned(Last(run), c)
    decreases |run|
  {
    var n := |run| - 1;
    if n > 0 {
      RunKeepsInv(run[..n]);
      assert Next(run[n - 1], run[n]);
      var step :| Steady(step) && Enabled(run[n - 1], step) && run[n] == Apply(run[n - 1], step);
      StepKeepsInv(run[n - 1], step);
      if run[0].room.Some? {
        forall c ensures !WasAssigned(run[n], c) {
          assert !WasAssigned(run[n - 1], c);
        }
      }
    }
  }

  /**
   * Over any steady interleaving all calls that return name the same node, at most one of them is told it
   * made the assignment, and none is if the room already had a node.
   */
  lemma AllCallersAgree(run: seq<Cluster>, c: CallerId, d: CallerId)
    requires Run(run) && Init(run[0])
    requires c in Last(run).calls && Last(run).calls[c].Returned?
    requires d in Last(run).calls && Last(run).calls[d].Returned?
    ensures Last(run).calls[c].node == Last(run).calls[d].node
    ensures Last(run).room == Some(Last(run).calls[c].node)
    ensures Last(run).calls[c].placed && Last(run).calls[d].placed ==> c == d
    ensures run[0].room.Some? ==> !Last(run).calls[c].placed && run[0].room == Some(Last(run).calls[c].node)
  {
    RunKeepsInv(run);
    assert CallFits(Last(run), c) && CallFits(Last(run), d);
    assert !(WasAssigned(Last(run), c) && WasAssigned(Last(run), d)) || c == d;
  }

  // ---------------------------------------------------------------- a call by itself

  /** A call that finds the room's node alive returns it, and changes nothing else. */
  lemma FoundIsReturned(s: Cluster, c: CallerId)
    requires At(s, c, Start) && s.room.Some? && s.room.value in s.nodes
    ensures var s' := Apply(Apply(s, GetRoom(c)), GetExistingNode(c));
            s' == s.(calls := s.calls[c := Returned(s.room.value, false)])
  {
  }

  /**
   * A call on a room without a node places it on the emptiest assignable node of the pool, the first
   * of them as listed; without an assignable node it fails and changes nothing else.
   */
  lemma UnplacedIsPlaced(s: Cluster, c: CallerId, order: seq<NodeId>, best: Node)
    requires At(s, c, Start) && s.room.None? && forall id :: id in order <==> id in s.pool
    requires Candidates(s.nodes, order) != [] ==> LeastLoaded(Candidates(s.nodes, order), best)
    ensures var listed := Apply(Apply(s, GetRoom(c)), ListPool(c, order));
            if order == [] then listed == s.(calls := s.calls[c := Unavailable])
            else
              && Enabled(listed, FetchAndChoose(c, best))
              && var chosen := Apply(listed, FetchAndChoose(c, best));
                 if Candidates(s.nodes, order) == [] then chosen == s.(calls := s.calls[c := Unavailable])
                 else Apply(chosen, SetRoomNx(c)) == s.(room := Some(best.id), calls := s.calls[c := Returned(best.id, true)])
  {
  }

  /** A call that finds the room's node dead takes the key away, and goes on as if the room had none. */
  lemma DeadIsUnplaced(s: Cluster, c: CallerId)
    requires At(s, c, Start) && s.room.Some? && s.room.value !in s.nodes
    ensures var s' := Apply(Apply(Apply(s, GetRoom(c)), GetExistingNode(c)), DelRoom(c));
            s' == s.(room := None, calls := s.calls[c := Choosing])
  {
  }

  /** A call that chose a node too late returns the one the room is on, or its own choice if that one is dead. */
  lemma LateIsRedirected(s: Cluster, c: CallerId, node: NodeId)
    requires At(s, c, Chosen(node)) && s.room.Some?
    ensures var s' := Apply(Apply(Apply(s, SetRoomNx(c)), GetWinner(c)), GetWinnerNode(c));
            s' == s.(calls := s.calls[c := Returned(if s.room.value in s.nodes then s.room.value else node, false)])
  {
  }

  /** A heartbeat brings one node into the pool, and what leaves the pool or expires is one node. */
  lemma NodesComeAndGo(s: Cluster, node: Node)
    ensures var s' := Apply(s, Heartbeat(node));
            && s' == s.(nodes := s'.nodes, pool := s'.pool) && node.id in s'.nodes && s'.nodes[node.id] == node
            && forall id :: (id in s'.pool <==> id in s.pool || id == node.id)
                         && (id != node.id ==> (id in s'.nodes <==> id in s.nodes))
                         && (id != node.id && id in s.nodes ==> s'.nodes[id] == s.nodes[id])
    ensures Apply(s, LeavePool(node.id)).nodes == s.nodes && Apply(s, LeavePool(node.id)).room == s.room
    ensures forall id :: id in Apply(s, LeavePool(node.id)).pool <==> id in s.pool && id != node.id
    ensures forall id :: id in Apply(s, ExpireRecord(node.id)).nodes <==> id in s.nodes && id != node.id
  {
  }

  // ---------------------------------------------------------------- agreement when keys expire

  /** A call has returned this node. */
  predicate Named(s: Cluster, node: NodeId) {
    exists c :: c in s.calls && s.calls[c].Returned? && s.calls[c].node == node
  }

  /** Whoever was sent to a node that is alive was sent where the room is. */
  ghost predicate Agreed(s: Cluster) {
    forall c :: c in s.calls && s.calls[c].Returned? && s.calls[c].node in s.nodes ==> s.room == Some(s.calls[c].node)
  }

  /** Two callers were sent to different nodes, and both nodes are alive. */
  ghost predicate Parted(s: Cluster) {
    exists c, d :: c in s.calls && d in s.calls && s.calls[c].Returned? && s.calls[d].Returned?
                && s.calls[c].node in s.nodes && s.calls[d].node in s.nodes && s.calls[c].node != s.calls[d].node
  }

  lemma AgreedIsNotParted(s: Cluster)
    requires Agreed(s)
    ensures !Parted(s)
  {
  }

  /** The room's key may go: nobody was sent to its node, or that node is dead. */
  predicate RoomMayGo(s: Cluster) {
    s.room.Some? ==> !Named(s, s.room.value) || s.room.value !in s.nodes
  }

  /** A record may be written: the node is alive, or nobody was sent to it, or the room is there. */
  predicate MayLive(s: Cluster, id: NodeId) {
    id in s.nodes || !Named(s, id) || s.room == Some(id)
  }

  /** A caller may be sent to a node: it is dead, or the room is there. */
  predicate MayName(s: Cluster, id: NodeId) {
    id in s.nodes ==> s.room == Some(id)
  }

  /** What agreement asks of each command. */
  predicate Harmless(s: Cluster, step: Step)
    requires Enabled(s, step)
  {
    match step
    case GetExistingNode(c) => MayName(s, s.calls[c].existing)
    case GetWinnerNode(c) =>
      var actual := s.calls[c].actual;
      MayName(s, if actual.Some? && actual.value in s.nodes then actual.value else s.calls[c].node)
    case DelRoom(c) => RoomMayGo(s)
    case ExpireRoom => RoomMayGo(s)
    case ReleaseRoom => RoomMayGo(s)
    case Heartbeat(node) => MayLive(s, node.id)
    case WriteRecord(node) => MayLive(s, node.id)
    case _ => true
  }

  lemma StepKeepsAgreementIffHarmless(s: Cluster, step: Step)
    requires Agreed(s) && Enabled(s, step)
    ensures Agreed(Apply(s, step)) <==> Harmless(s, step)
  {
    var s' := Apply(s, step);
    match step
    case GetExistingNode(c) => OneCallReturns(s, s', c);
    case GetWinnerNode(c) => OneCallReturns(s, s', c);
    case SetRoomNx(c) =>
    case Heartbeat(node) => OneRecordMore(s, s', node.id);
    case WriteRecord(node) => OneRecordMore(s, s', node.id);
    case DelRoom(c) => RoomGoes(s, s');
    case ExpireRoom => RoomGoes(s, s');
    case ReleaseRoom => RoomGoes(s, s');
    case _ =>
  }

  lemma OneCallReturns(s: Cluster, s': Cluster, c: CallerId)
    requires Agreed(s) && s'.room == s.room && s'.nodes == s.nodes
    requires c in s.calls && !s.calls[c].Returned? && c in s'.calls && s'.calls == s.calls[c := s'.calls[c]]
    ensures Agreed(s') <==> (s'.calls[c].Returned? ==> MayName(s, s'.calls[c].node))
  {
  }

  lemma OneRecordMore(s: Cluster, s': Cluster, id: NodeId)
    requires Agreed(s) && s'.room == s.room && s'.calls == s.calls && s'.nodes.Keys == s.nodes.Keys + {id}
    ensures Agreed(s') <==> MayLive(s, id)
  {
  }

  lemma RoomGoes(s: Cluster, s': Cluster)
    requires Agreed(s) && s'.room == None && s'.nodes == s.nodes
    requires s'.calls.Keys == s.calls.Keys
    requires forall c :: c in s.calls ==> s'.calls[c] == s.calls[c] || (!s.calls[c].Returned? && !s'.calls[c].Returned?)
    ensures Agreed(s') <==> RoomMayGo(s)
  {
  }

  ghost predicate Feasible(s: Cluster, steps: seq<Step>)
    decreases |steps|
  {
    steps == [] || (Enabled(s, steps[0]) && Feasible(Apply(s, steps[0]), steps[1..]))
  }

  ghost predicate AlwaysAgreed(s: Cluster, steps: seq<Step>)
    requires Feasible(s, steps)
    decreases |steps|
  {
    Agreed(s) && (steps == [] || AlwaysAgreed(Apply(s, steps[0]), steps[1..]))
  }

  ghost predicate AllHarmless(s: Cluster, steps: seq<Step>)
    requires Feasible(s, steps)
    decreases |steps|
  {
    steps == [] || (Harmless(s, steps[0]) && AllHarmless(Apply(s, steps[0]), steps[1..]))
  }

  /** Whatever expires, a run keeps its callers together exactly if each of its commands is harmless when it comes. */
  lemma {:induction false} AlwaysAgreedIffHarmless(s: Cluster, steps: seq<Step>)
    requires Agreed(s) && Feasible(s, steps)
    ensures AlwaysAgreed(s, steps) <==> AllHarmless(s, steps)
    decreases |steps|
  {
    if steps != [] {
      StepKeepsAgreementIffHarmless(s, steps[0]);
      if Harmless(s, steps[0]) {
        AlwaysAgreedIffHarmless(Apply(s, steps[0]), steps[1..]);
      }
    }
  }

  /** In a steady run every command is. */
  lemma SteadyIsHarmless(s: Cluster, step: Step)
    requires Inv(s) && Enabled(s, step) && Steady(step)
    ensures Agreed(s) && Harmless(s, step)
  {
    InvIsAgreed(s);
    StepKeepsInv(s, step);
    InvIsAgreed(Apply(s, step));
    StepKeepsAgreementIffHarmless(s, step);
  }

  lemma InvIsAgreed(s: Cluster)
    requires Inv(s)
    ensures Agreed(s)
  {
    forall c | c in s.calls && s.calls[c].Returned? ensures s.room == Some(s.calls[c].node) {
      assert CallFits(s, c);
    }
  }

  // ---------------------------------------------------------------- a room in two places

  const A := Node("a", 0, 10, false)
  const B := Node("b", 1, 10, false)
  const C := Node("c", 0, 10, false)

  /** One step of any kind, expiry and release included. */
  ghost predicate AnyNext(s: Cluster, s': Cluster) {
    exists step :: Enabled(s, step) && s' == Apply(s, step)
  }

  ghost predicate AnyRun(run: seq<Cluster>) {
    run != [] && Init(run[0]) && forall i :: 0 < i < |run| ==> AnyNext(run[i - 1], run[i])
  }

  lemma {:induction false} RunOn(run: seq<Cluster>, step: Step) returns (longer: seq<Cluster>)
    requires AnyRun(run) && Enabled(Last(run), step)
    ensures AnyRun(longer) && Last(longer) == Apply(Last(run), step)
  {
    assert AnyNext(Last(run), Apply(Last(run), step));
    longer := run + [Apply(Last(run), step)];
  }

  /** The room's node is dead, one caller has reassigned the room, and another is about to delete its key. */
  const REASSIGNED :=
    Cluster(Some("b"), map["b" := B], {"b"}, map[0 := Returned("b", true), 1 := Orphaned])

  lemma BothReadTheRoom() returns (run: seq<Cluster>)
    ensures AnyRun(run)
    ensures Last(run) == REASSIGNED.(room := Some("a"), calls := map[0 := Found("a"), 1 := Found("a")])
  {
    run := [Cluster(Some("a"), map["a" := A, "b" := B], {"b"}, map[0 := Start, 1 := Start])];
    run := RunOn(run, ExpireRecord("a"));
    assert Last(run).nodes == map["b" := B];
    run := RunOn(run, GetRoom(0));
    run := RunOn(run, GetRoom(1));
    assert Last(run).calls == map[0 := Found("a"), 1 := Found("a")];
  }

  lemma BothFindTheNodeDead() returns (run: seq<Cluster>)
    ensures AnyRun(run)
    ensures Last(run) == REASSIGNED.(room := Some("a"), calls := map[0 := Orphaned, 1 := Orphaned])
  {
    run := BothReadTheRoom();
    run := RunOn(run, GetExistingNode(0));
    run := RunOn(run, GetExistingNode(1));
    assert Last(run).calls == map[0 := Orphaned, 1 := Orphaned];
  }

  lemma OneReassigns() returns (run: seq<Cluster>)
    ensures AnyRun(run) && Last(run) == REASSIGNED
  {
    run := BothFindTheNodeDead();
    run := RunOn(run, DelRoom(0));
    run := RunOn(run, ListPool(0, ["b"]));
    assert Candidates(Last(run).nodes, ["b"]) == [B];
    assert LeastLoaded([B], B) by { assert [B][0] == B; }
    run := RunOn(run, FetchAndChoose(0, B));
    run := RunOn(run, SetRoomNx(0));
    assert Last(run).calls == REASSIGNED.calls;
  }

  /**
   * Two callers find the room's node dead. The faster one assigns the room to another node, the
   * slower one deletes that assignment and assigns the room to a third: two places, both alive.
   */
  lemma StaleDeletePartsARoom() returns (run: seq<Cluster>)
    ensures AnyRun(run) && Parted(Last(run))
  {
    run := OneReassigns();
    hide AnyRun, LeastLoaded, Candidates;
    run := RunOn(run, DelRoom(1));
    run := RunOn(run, Heartbeat(C));
    run := RunOn(run, ListPool(1, ["b", "c"]));
    CIsEmptiest(Last(run).nodes);
    run := RunOn(run, FetchAndChoose(1, C));
    run := RunOn(run, SetRoomNx(1));
    var end := Last(run);
    assert end.calls[0] == Returned("b", true) && end.calls[1] == Returned("c", true);
  }

  lemma CIsEmptiest(nodes: map<NodeId, Node>)
    requires nodes == map["b" := B, "c" := C]
    ensures LeastLoaded(Candidates(nodes, ["b", "c"]), C)
  {
    assert ["b", "c"][1..] == ["c"];
    assert Candidates(nodes, ["c"]) == [C];
    var found := Candidates(nodes, ["b", "c"]);
    assert found == [B, C] && found[1] == C;
  }
}
