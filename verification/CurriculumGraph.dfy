/**
 * server/src/courses/CurriculumGraph.js: the algorithms on the graph of course modules.
 *
 * Every algorithm is stated against walks (module Walks), never against another algorithm, so
 * the depth-first search and Kahn's queue are proved to decide the same question.
 */
module CurriculumGraph {
  import opened Basics
  import opened Walks

  // ---------------------------------------------------------------- adjacency

  /** The edges whose two endpoints are modules of the course; the others are skipped. */
  function Known(ids: seq<ModuleId>, edges: seq<Edge>): seq<Edge> {
    if edges == [] then []
    else
      var e := edges[|edges| - 1];
      Known(ids, edges[..|edges| - 1]) + (if e.from in ids && e.to in ids then [e] else [])
  }

  function EdgesFrom(es: seq<Edge>, id: ModuleId): seq<Edge> {
    if es == [] then []
    else
      var e := es[|es| - 1];
      EdgesFrom(es[..|es| - 1], id) + (if e.from == id then [e] else [])
  }

  function EdgesTo(es: seq<Edge>, id: ModuleId): seq<Edge> {
    if es == [] then []
    else
      var e := es[|es| - 1];
      EdgesTo(es[..|es| - 1], id) + (if e.to == id then [e] else [])
  }

  lemma {:induction false} KnownMembers(ids: seq<ModuleId>, edges: seq<Edge>)
    ensures forall e :: e in Known(ids, edges) <==> e in edges && e.from in ids && e.to in ids
  {
    if edges != [] {
      KnownMembers(ids, edges[..|edges| - 1]);
      assert edges == edges[..|edges| - 1] + [edges[|edges| - 1]];
    }
  }

  lemma {:induction false} EdgesFromMembers(es: seq<Edge>, id: ModuleId)
    ensures forall e :: e in EdgesFrom(es, id) <==> e in es && e.from == id
  {
    if es != [] {
      EdgesFromMembers(es[..|es| - 1], id);
      assert es == es[..|es| - 1] + [es[|es| - 1]];
    }
  }

  lemma {:induction false} EdgesToMembers(es: seq<Edge>, id: ModuleId)
    ensures forall e :: e in EdgesTo(es, id) <==> e in es && e.to == id
  {
    if es != [] {
      EdgesToMembers(es[..|es| - 1], id);
      assert es == es[..|es| - 1] + [es[|es| - 1]];
    }
  }

  lemma KnownSnoc(ids: seq<ModuleId>, edges: seq<Edge>, k: nat)
    requires k < |edges|
    ensures Known(ids, edges[..k + 1]) == if edges[k].from in ids && edges[k].to in ids
                                          then Known(ids, edges[..k]) + [edges[k]]
                                          else Known(ids, edges[..k])
  {
    assert edges[..k + 1][..k] == edges[..k];
  }

  lemma EdgesSnoc(es: seq<Edge>, e: Edge, id: ModuleId)
    ensures EdgesFrom(es + [e], id) == EdgesFrom(es, id) + (if e.from == id then [e] else [])
    ensures EdgesTo(es + [e], id) == EdgesTo(es, id) + (if e.to == id then [e] else [])
  {
    assert (es + [e])[..|es|] == es;
  }

  /** The adjacency lists of the modules, in edge order. */
  ghost predicate Outgoing(ids: seq<ModuleId>, es: seq<Edge>, lists: map<ModuleId, seq<Edge>>) {
    lists.Keys == Elements(ids) && forall id :: id in lists ==> lists[id] == EdgesFrom(es, id)
  }

  ghost predicate Incoming(ids: seq<ModuleId>, es: seq<Edge>, lists: map<ModuleId, seq<Edge>>) {
    lists.Keys == Elements(ids) && forall id :: id in lists ==> lists[id] == EdgesTo(es, id)
  }

  lemma OutgoingKeys(ids: seq<ModuleId>, es: seq<Edge>, lists: map<ModuleId, seq<Edge>>)
    requires Outgoing(ids, es, lists)
    ensures forall id :: id in lists <==> id in ids
  {
  }

  lemma IncomingKeys(ids: seq<ModuleId>, es: seq<Edge>, lists: map<ModuleId, seq<Edge>>)
    requires Incoming(ids, es, lists)
    ensures forall id :: id in lists <==> id in ids
  {
  }

  lemma AddToIndex(ids: seq<ModuleId>, es: seq<Edge>, e: Edge,
                   outgoing: map<ModuleId, seq<Edge>>, incoming: map<ModuleId, seq<Edge>>)
    requires Outgoing(ids, es, outgoing) && Incoming(ids, es, incoming)
    requires e.from in ids && e.to in ids
    ensures Outgoing(ids, es + [e], outgoing[e.from := outgoing[e.from] + [e]])
    ensures Incoming(ids, es + [e], incoming[e.to := incoming[e.to] + [e]])
  {
    forall id { EdgesSnoc(es, e, id); }
  }

  /** Adjacency in both directions, over the known edges. */
  method Index(ids: seq<ModuleId>, edges: seq<Edge>)
    returns (outgoing: map<ModuleId, seq<Edge>>, incoming: map<ModuleId, seq<Edge>>)
    ensures Outgoing(ids, Known(ids, edges), outgoing)
    ensures Incoming(ids, Known(ids, edges), incoming)
  {
    outgoing := map id | id in ids :: [];
    incoming := map id | id in ids :: [];
    for k := 0 to |edges|
      invariant Outgoing(ids, Known(ids, edges[..k]), outgoing)
      invariant Incoming(ids, Known(ids, edges[..k]), incoming)
    {
      hide Outgoing, Incoming, Known;
      var e := edges[k];
      KnownSnoc(ids, edges, k);
      OutgoingKeys(ids, Known(ids, edges[..k]), outgoing);
      IncomingKeys(ids, Known(ids, edges[..k]), incoming);
      if e.from !in outgoing || e.to !in incoming {
        continue;
      }
      AddToIndex(ids, Known(ids, edges[..k]), e, outgoing, incoming);
      outgoing := outgoing[e.from := outgoing[e.from] + [e]];
      incoming := incoming[e.to := incoming[e.to] + [e]];
    }
    assert edges[..|edges|] == edges;
  }

  // ---------------------------------------------------------------- cycles

  datatype Mark = Unvisited | Visiting | Done

  /** The marks and the stack that findCycle's recursive visit shares. */
  class DepthFirst {
    ghost const es: seq<Edge>
    const outgoing: map<ModuleId, seq<Edge>>
    var state: map<ModuleId, Mark>
    var stack: seq<ModuleId>
    /** The modules marked Done, in the order in which they were finished. */
    ghost var finished: seq<ModuleId>

    ghost predicate Valid()
      reads this
    {
      && state.Keys == outgoing.Keys
      && (forall id, e :: id in outgoing && e in outgoing[id] ==> e in es && e.from == id)
      && (forall e :: e in es ==> e.from in outgoing && e.to in outgoing && e in outgoing[e.from])
      && Distinct(stack)
      && (forall v :: v in stack <==> v in state && state[v] == Visiting)
      && (stack != [] ==> Walk(es, stack))
      && (forall v :: v in finished <==> v in state && state[v] == Done)
      && TargetsFirst(es, finished)
    }

    ghost function Untouched(): set<ModuleId>
      reads this
    {
      set v | v in state && state[v] == Unvisited
    }

    constructor (ids: seq<ModuleId>, outgoing: map<ModuleId, seq<Edge>>, ghost es: seq<Edge>)
      requires Outgoing(ids, es, outgoing)
      requires forall e :: e in es ==> e.from in ids && e.to in ids
      ensures Valid() && fresh(this) && this.es == es && this.outgoing == outgoing
      ensures stack == []
    {
      this.es := es;
      this.outgoing := outgoing;
      state := map id | id in ids :: Unvisited;
      stack := [];
      finished := [];
      new;
      forall id | id in ids ensures forall e :: e in outgoing[id] <==> e in es && e.from == id {
        EdgesFromMembers(es, id);
      }
    }

    method Visit(id: ModuleId) returns (cycle: Option<seq<ModuleId>>)
      requires Valid() && id in state && state[id] == Unvisited
      requires stack != [] ==> Arc(es, stack[|stack| - 1], id)
      modifies this
      ensures cycle.Some? ==> ElementaryCycle(es, cycle.value)
      ensures cycle.None? ==> Valid() && stack == old(stack)
      ensures cycle.None? ==> Untouched() <= old(Untouched()) - {id}
      ensures cycle.None? ==> old(finished) <= finished && id in finished
      decreases Untouched()
    {
      hide Valid;
      Enter(id);
      var out := outgoing[id];
      for k := 0 to |out|
        invariant Valid() && stack == old(stack) + [id] && old(finished) <= finished
        invariant Untouched() <= old(Untouched()) - {id}
        invariant forall i :: 0 <= i < k ==> out[i].to in finished
      {
        var next := out[k].to;
        Neighbour(id, out[k]);
        if state[next] == Visiting {
          var found := CloseCycle(next);
          return Some(found);
        }
        if state[next] == Unvisited {
          cycle := Visit(next);
          if cycle.Some? {
            return cycle;
          }
        }
      }
      Leave(id);
      return None;
    }

    /** What the marks say about the target of an edge. */
    lemma Neighbour(id: ModuleId, e: Edge)
      requires Valid() && id in outgoing && e in outgoing[id]
      ensures Arc(es, id, e.to) && e.to in state
      ensures state[e.to] == Visiting <==> e.to in stack
      ensures state[e.to] == Done <==> e.to in finished
    {
    }

    /** Between visits a module is untouched or finished. */
    lemma Settled(id: ModuleId)
      requires Valid() && stack == [] && id in outgoing
      ensures id in state && (state[id] == Unvisited || id in finished)
    {
    }

    /** With every module finished there is no cycle. */
    lemma FinishedIsAcyclic()
      requires Valid() && forall id :: id in outgoing ==> id in finished
      ensures Acyclic(es)
    {
      ReverseOrderedIsAcyclic(es, finished);
    }

    /** Marks a module as being visited and puts it on the stack. */
    method Enter(id: ModuleId)
      requires Valid() && id in state && state[id] == Unvisited
      requires stack != [] ==> Arc(es, stack[|stack| - 1], id)
      modifies this
      ensures Valid() && stack == old(stack) + [id] && finished == old(finished)
      ensures Untouched() == old(Untouched()) - {id}
    {
      state := state[id := Visiting];
      stack := stack + [id];
    }

    /** Takes a module whose successors are all finished off the stack. */
    method Leave(id: ModuleId)
      requires Valid() && stack != [] && stack[|stack| - 1] == id
      requires forall e :: e in outgoing[id] ==> e.to in finished
      modifies this
      ensures Valid() && stack == old(stack[..|stack| - 1]) && finished == old(finished) + [id]
      ensures Untouched() == old(Untouched())
    {
      stack := stack[..|stack| - 1];
      state := state[id := Done];
      finished := finished + [id];
      ghost var earlier := old(finished);
      forall j, b | 0 <= j < |finished| && Arc(es, finished[j], b) ensures b in finished[..j] {
        if j == |earlier| {
          var e :| e in es && e.from == id && e.to == b;
          assert e in outgoing[id];
          assert finished[..j] == earlier;
        } else {
          assert finished[..j] == earlier[..j];
        }
      }
    }

    /** Everything from a visited module to the top of the stack, closed up. */
    method CloseCycle(next: ModuleId) returns (found: seq<ModuleId>)
      requires Valid() && next in stack && Arc(es, stack[|stack| - 1], next)
      ensures ElementaryCycle(es, found)
    {
      var at := IndexOf(next);
      found := stack[at..] + [next];
      assert Walk(es, stack[at..]);
      ExtendWalk(es, stack[at..], next);
    }

    /** Position of a module on the stack. */
    method IndexOf(v: ModuleId) returns (at: nat)
      requires v in stack
      ensures at < |stack| && stack[at] == v
    {
      at := 0;
      while stack[at] != v
        invariant at < |stack| && v in stack[at..]
        decreases |stack| - at
      {
        at := at + 1;
      }
    }
  }

  /** The modules of a cycle in order, ending where it began, or nothing exactly when there is none. */
  method FindCycle(ids: seq<ModuleId>, edges: seq<Edge>) returns (cycle: Option<seq<ModuleId>>)
    ensures cycle.Some? ==> ElementaryCycle(Known(ids, edges), cycle.value)
    ensures cycle.None? <==> Acyclic(Known(ids, edges))
  {
    var outgoing, incoming := Index(ids, edges);
    KnownMembers(ids, edges);
    cycle := Search(ids, outgoing, Known(ids, edges));
  }

  lemma ElementaryIsCycle(es: seq<Edge>, p: seq<ModuleId>)
    requires ElementaryCycle(es, p)
    ensures !Acyclic(es)
  {
  }

  /** The outer loop of findCycle: starts a visit at every module not reached before. */
  method Search(ids: seq<ModuleId>, outgoing: map<ModuleId, seq<Edge>>, ghost es: seq<Edge>)
    returns (cycle: Option<seq<ModuleId>>)
    requires Outgoing(ids, es, outgoing)
    requires forall e :: e in es ==> e.from in ids && e.to in ids
    ensures cycle.Some? ==> ElementaryCycle(es, cycle.value)
    ensures cycle.None? <==> Acyclic(es)
  {
    hide *;
    OutgoingKeys(ids, es, outgoing);
    var search := new DepthFirst(ids, outgoing, es);
    for k := 0 to |ids|
      invariant search.Valid() && search.stack == [] && search.es == es && search.outgoing == outgoing
      invariant forall i :: 0 <= i < k ==> ids[i] in search.finished
    {
      search.Settled(ids[k]);
      if search.state[ids[k]] == Unvisited {
        cycle := search.Visit(ids[k]);
        if cycle.Some? {
          ElementaryIsCycle(es, cycle.value);
          return;
        }
      }
    }
    search.FinishedIsAcyclic();
    return None;
  }

  // ---------------------------------------------------------------- ordering

  /** How many edges of a list lead into a module, repeated edges counted again. */
  function CountInto(es: seq<Edge>, id: ModuleId): nat {
    if es == [] then 0
    else CountInto(es[..|es| - 1], id) + (if es[|es| - 1].to == id then 1 else 0)
  }

  /** How many edges into a module start outside the set of modules already ordered. */
  function Unmet(es: seq<Edge>, id: ModuleId, done: set<ModuleId>): nat {
    if es == [] then 0
    else
      var e := es[|es| - 1];
      Unmet(es[..|es| - 1], id, done) + (if e.to == id && e.from !in done then 1 else 0)
  }

  lemma {:induction false} UnmetInitially(es: seq<Edge>, id: ModuleId)
    ensures |EdgesTo(es, id)| == Unmet(es, id, {})
  {
    if es != [] {
      UnmetInitially(es[..|es| - 1], id);
    }
  }

  lemma {:induction false} UnmetZero(es: seq<Edge>, id: ModuleId, done: set<ModuleId>)
    ensures Unmet(es, id, done) == 0 <==> forall a :: Arc(es, a, id) ==> a in done
  {
    if es != [] {
      var front, e := es[..|es| - 1], es[|es| - 1];
      UnmetZero(front, id, done);
      assert es == front + [e];
      assert forall a :: Arc(es, a, id) <==> Arc(front, a, id) || (e.from == a && e.to == id);
    }
  }

  /** Ordering one more module meets exactly its own edges. */
  lemma {:induction false} UnmetStep(es: seq<Edge>, id: ModuleId, done: set<ModuleId>, next: ModuleId)
    requires next !in done
    ensures Unmet(es, id, done) == Unmet(es, id, done + {next}) + CountInto(EdgesFrom(es, next), id)
  {
    if es != [] {
      var front, e := es[..|es| - 1], es[|es| - 1];
      UnmetStep(front, id, done, next);
      var out := EdgesFrom(front, next);
      assert (out + [e])[..|out|] == out;
      assert out + [] == out;
    }
  }

  lemma {:induction false} CountIntoPrefix(es: seq<Edge>, id: ModuleId, k: nat)
    requires k <= |es|
    ensures CountInto(es[..k], id) <= CountInto(es, id)
    decreases |es|
  {
    if k < |es| {
      CountIntoPrefix(es[..|es| - 1], id, k);
      assert es[..|es| - 1][..k] == es[..k];
    } else {
      assert es[..k] == es;
    }
  }

  /** The modules in an order that respects every edge between them. */
  ghost predicate TopologicalOrder(ids: seq<ModuleId>, es: seq<Edge>, order: seq<ModuleId>) {
    && Distinct(order)
    && (forall id :: id in order <==> id in ids)
    && SourcesFirst(es, order)
  }

  /** State of the queue between two steps of Kahn's algorithm. */
  ghost predicate KahnState(ids: seq<ModuleId>, es: seq<Edge>, order: seq<ModuleId>, queue: seq<ModuleId>,
                            degree: map<ModuleId, int>) {
    && degree.Keys == Elements(ids)
    && Distinct(order + queue)
    && (forall id :: id in order + queue <==> id in degree && degree[id] == 0)
    && (forall id :: id in degree ==> degree[id] == Unmet(es, id, Elements(order)))
    && SourcesFirst(es, order)
  }

  /** State while the edges out of the module just ordered are being counted down. */
  ghost predicate RelaxState(ids: seq<ModuleId>, es: seq<Edge>, order: seq<ModuleId>, queue: seq<ModuleId>,
                             degree: map<ModuleId, int>, out: seq<Edge>, k: nat)
    requires k <= |out|
  {
    && degree.Keys == Elements(ids)
    && Distinct(order + queue)
    && (forall id :: id in order + queue <==> id in degree && degree[id] == 0)
    && (forall id :: id in degree ==>
          degree[id] == Unmet(es, id, Elements(order)) + CountInto(out, id) - CountInto(out[..k], id))
  }

  /** Counts down the targets of one ordered module, queueing those whose count reaches zero. */
  method Relax(ids: seq<ModuleId>, ghost es: seq<Edge>, ghost order: seq<ModuleId>, out: seq<Edge>,
               queue0: seq<ModuleId>, degree0: map<ModuleId, int>)
    returns (queue: seq<ModuleId>, degree: map<ModuleId, int>)
    requires RelaxState(ids, es, order, queue0, degree0, out, 0)
    requires forall e :: e in out ==> e.to in ids
    ensures RelaxState(ids, es, order, queue, degree, out, |out|)
  {
    queue, degree := queue0, degree0;
    for k := 0 to |out|
      invariant RelaxState(ids, es, order, queue, degree, out, k)
    {
      var to := out[k].to;
      assert out[..k + 1][..k] == out[..k];
      CountIntoPrefix(out, to, k + 1);
      var next := degree[to] - 1;
      degree := degree[to := next];
      if next == 0 {
        assert to !in order + queue;
        assert order + (queue + [to]) == (order + queue) + [to];
        queue := queue + [to];
      }
    }
  }

  /** Ordering the module at the head of the queue. */
  lemma TakeHead(ids: seq<ModuleId>, es: seq<Edge>, order: seq<ModuleId>, queue: seq<ModuleId>,
                 degree: map<ModuleId, int>)
    requires KahnState(ids, es, order, queue, degree) && queue != []
    ensures RelaxState(ids, es, order + [queue[0]], queue[1..], degree, EdgesFrom(es, queue[0]), 0)
    ensures SourcesFirst(es, order + [queue[0]])
  {
    var head, after := queue[0], order + [queue[0]];
    assert after + queue[1..] == order + queue;
    assert head == (order + queue)[|order|];
    assert forall i :: 0 <= i < |order| ==> order[i] == (order + queue)[i];
    assert head !in order;
    assert Elements(after) == Elements(order) + {head};
    forall id { UnmetStep(es, id, Elements(order), head); }
    UnmetZero(es, head, Elements(order));
    forall j, a | 0 <= j < |after| && Arc(es, a, after[j]) ensures a in after[..j] {
      if j < |order| {
        assert after[..j] == order[..j];
      } else {
        assert after[..j] == order;
      }
    }
  }

  /** The counts before anything is ordered, and the modules that may come first. */
  method StartKahn(ids: seq<ModuleId>, ghost es: seq<Edge>, incoming: map<ModuleId, seq<Edge>>)
    returns (queue: seq<ModuleId>, degree: map<ModuleId, int>)
    requires Distinct(ids) && Incoming(ids, es, incoming)
    ensures KahnState(ids, es, [], queue, degree)
  {
    degree := map id | id in incoming :: |incoming[id]|;
    queue := ZeroDegree(ids, degree);
    forall id { UnmetInitially(es, id); }
    assert Elements<ModuleId>([]) == {} && [] + queue == queue;
  }

  /** Orders the module at the head of the queue and counts its edges down. */
  method StepKahn(ids: seq<ModuleId>, ghost es: seq<Edge>, outgoing: map<ModuleId, seq<Edge>>,
                  sorted0: seq<ModuleId>, queue0: seq<ModuleId>, degree0: map<ModuleId, int>)
    returns (sorted: seq<ModuleId>, queue: seq<ModuleId>, degree: map<ModuleId, int>)
    requires Distinct(ids) && Outgoing(ids, es, outgoing) && forall e :: e in es ==> e.from in ids && e.to in ids
    requires KahnState(ids, es, sorted0, queue0, degree0) && queue0 != []
    ensures KahnState(ids, es, sorted, queue, degree)
    ensures |sorted| == |sorted0| + 1
  {
    var id := queue0[0];
    TakeHead(ids, es, sorted0, queue0, degree0);
    EdgesFromMembers(es, id);
    assert id in sorted0 + queue0;
    sorted := sorted0 + [id];
    queue, degree := Relax(ids, es, sorted, outgoing[id], queue0[1..], degree0);
    assert outgoing[id][..|outgoing[id]|] == outgoing[id];
  }

  /**
   * Kahn's algorithm: an order of all modules with every edge's source before its target, or
   * nothing exactly when there is a cycle.
   */
  method TopologicalOrderOf(ids: seq<ModuleId>, edges: seq<Edge>) returns (order: Option<seq<ModuleId>>)
    requires Distinct(ids)
    ensures order.Some? ==> TopologicalOrder(ids, Known(ids, edges), order.value)
    ensures order.Some? <==> Acyclic(Known(ids, edges))
  {
    hide KahnState;
    hide TopologicalOrder;
    var outgoing, incoming := Index(ids, edges);
    ghost var es := Known(ids, edges);
    KnownMembers(ids, edges);
    var queue, degree := StartKahn(ids, es, incoming);
    var sorted := [];
    while queue != []
      invariant KahnState(ids, es, sorted, queue, degree)
      decreases |ids| - |sorted|
    {
      OrderFits(ids, es, sorted, queue, degree);
      sorted, queue, degree := StepKahn(ids, es, outgoing, sorted, queue, degree);
    }
    KahnVerdict(ids, es, sorted, degree);
    order := if |sorted| == |ids| then Some(sorted) else None;
  }

  /** The modules no edge leads into, in course order. */
  method ZeroDegree(ids: seq<ModuleId>, degree: map<ModuleId, int>) returns (queue: seq<ModuleId>)
    requires Distinct(ids) && degree.Keys == Elements(ids)
    ensures Distinct(queue) && forall id :: id in queue <==> id in degree && degree[id] == 0
  {
    queue := [];
    for k := 0 to |ids|
      invariant Distinct(queue)
      invariant forall id :: id in queue <==> id in ids[..k] && degree[id] == 0
    {
      if degree[ids[k]] == 0 {
        queue := queue + [ids[k]];
      }
    }
  }

  lemma OrderFits(ids: seq<ModuleId>, es: seq<Edge>, order: seq<ModuleId>, queue: seq<ModuleId>,
                  degree: map<ModuleId, int>)
    requires Distinct(ids) && KahnState(ids, es, order, queue, degree)
    ensures |order| + |queue| <= |ids|
  {
    DistinctBound(order + queue, Elements(ids));
    DistinctSize(ids);
  }

  /** With the queue empty, the order is complete exactly when the graph has no cycle. */
  lemma KahnVerdict(ids: seq<ModuleId>, es: seq<Edge>, order: seq<ModuleId>, degree: map<ModuleId, int>)
    requires Distinct(ids) && KahnState(ids, es, order, [], degree)
    requires forall e :: e in es ==> e.from in ids && e.to in ids
    ensures |order| == |ids| <==> Acyclic(es)
    ensures |order| == |ids| ==> TopologicalOrder(ids, es, order)
  {
    assert order + [] == order;
    assert forall id :: id in order ==> id in ids;
    if |order| == |ids| {
      SameElements(order, ids);
      OrderedIsAcyclic(es, order);
    } else {
      var rest := set id | id in ids && id !in order;
      if rest == {} {
        assert forall id :: id in ids && id !in order ==> id in rest;
        DistinctBound(ids, Elements(order));
        DistinctSize(order);
        OrderFits(ids, es, order, [], degree);
        assert false;
      }
      forall b | b in rest ensures EnteredFrom(es, rest, b) {
        UnmetZero(es, b, Elements(order));
        var a :| Arc(es, a, b) && a !in Elements(order);
      }
      SourcelessSetHasCycle(es, rest);
    }
  }

  /** hasCycle */
  method HasCycle(ids: seq<ModuleId>, edges: seq<Edge>) returns (cyclic: bool)
    ensures cyclic <==> !Acyclic(Known(ids, edges))
  {
    var cycle := FindCycle(ids, edges);
    return cycle.Some?;
  }

  /** A partial order can grow as long as a module is missing: some missing module has all its sources. */
  lemma {:induction false} GrowOrder(ids: seq<ModuleId>, es: seq<Edge>, order: seq<ModuleId>)
    returns (full: seq<ModuleId>)
    requires Distinct(ids) && Acyclic(es) && forall e :: e in es ==> e.from in ids && e.to in ids
    requires Distinct(order) && SourcesFirst(es, order) && forall id :: id in order ==> id in ids
    ensures TopologicalOrder(ids, es, full)
    decreases |ids| - |order|
  {
    DistinctSize(ids);
    DistinctBound(order, Elements(ids));
    var rest := set id | id in ids && id !in order;
    if rest == {} {
      assert forall id :: id in ids && id !in order ==> id in rest;
      full := order;
    } else {
      var next := SomeSource(es, rest);
      var longer := order + [next];
      forall j, a | 0 <= j < |longer| && Arc(es, a, longer[j]) ensures a in longer[..j] {
        if j < |order| {
          assert longer[..j] == order[..j];
        } else {
          assert longer[..j] == order;
          assert !(a in rest && Arc(es, a, next));
        }
      }
      DistinctBound(longer, Elements(ids));
      full := GrowOrder(ids, es, longer);
    }
  }

  lemma SomeSource(es: seq<Edge>, rest: set<ModuleId>) returns (next: ModuleId)
    requires Acyclic(es) && rest != {}
    ensures next in rest && !EnteredFrom(es, rest, next)
  {
    if forall b {:trigger EnteredFrom(es, rest, b)} :: b in rest ==> EnteredFrom(es, rest, b) {
      SourcelessSetHasCycle(es, rest);
      assert false;
    }
    next :| next in rest && !EnteredFrom(es, rest, next);
  }

  /** Modules can be put in an order that respects every edge exactly when no edges form a cycle. */
  lemma OrderableIffAcyclic(ids: seq<ModuleId>, es: seq<Edge>)
    requires Distinct(ids) && forall e :: e in es ==> e.from in ids && e.to in ids
    ensures (exists order :: TopologicalOrder(ids, es, order)) <==> Acyclic(es)
  {
    if order :| TopologicalOrder(ids, es, order) {
      OrderedIsAcyclic(es, order);
    } else if Acyclic(es) {
      var order := GrowOrder(ids, es, []);
    }
  }

  // ---------------------------------------------------------------- structure

  /** The modules nothing has to be finished for: no known edge leads into them. */
  function EntryModules(ids: seq<ModuleId>, edges: seq<Edge>): (entries: seq<ModuleId>) {
    WithoutIncoming(ids, Known(ids, edges))
  }

  function WithoutIncoming(ids: seq<ModuleId>, es: seq<Edge>): seq<ModuleId> {
    if ids == [] then []
    else (if EdgesTo(es, ids[0]) == [] then [ids[0]] else []) + WithoutIncoming(ids[1..], es)
  }

  lemma {:induction false} EntriesHaveNoArc(ids: seq<ModuleId>, es: seq<Edge>)
    ensures forall id :: id in WithoutIncoming(ids, es) <==> id in ids && forall a :: !Arc(es, a, id)
    ensures Subsequence(WithoutIncoming(ids, es), ids)
  {
    if ids != [] {
      assert ([ids[0]] + WithoutIncoming(ids[1..], es))[1..] == WithoutIncoming(ids[1..], es);
      assert [] + WithoutIncoming(ids[1..], es) == WithoutIncoming(ids[1..], es);
      EntriesHaveNoArc(ids[1..], es);
      EdgesToMembers(es, ids[0]);
      assert ids == [ids[0]] + ids[1..];
      if EdgesTo(es, ids[0]) == [] {
        assert forall a :: !Arc(es, a, ids[0]);
      } else {
        var e := EdgesTo(es, ids[0])[0];
        assert e in EdgesTo(es, ids[0]);
        assert Arc(es, e.from, ids[0]);
      }
    }
  }

  ghost predicate ReachedFrom(es: seq<Edge>, starts: seq<ModuleId>, id: ModuleId) {
    exists start :: start in starts && Reaches(es, start, id)
  }

  /** A learner starting at some entry module can get to this module. */
  ghost predicate ReachedFromEntry(ids: seq<ModuleId>, edges: seq<Edge>, id: ModuleId) {
    ReachedFrom(Known(ids, edges), EntryModules(ids, edges), id)
  }

  lemma ReachedFromStart(es: seq<Edge>, starts: seq<ModuleId>, id: ModuleId)
    requires id in starts
    ensures ReachedFrom(es, starts, id)
  {
    assert WalkBetween(es, [id], id, id);
  }

  lemma ReachedFromArc(es: seq<Edge>, starts: seq<ModuleId>, a: ModuleId, b: ModuleId)
    requires ReachedFrom(es, starts, a) && Arc(es, a, b)
    ensures ReachedFrom(es, starts, b)
  {
    var start :| start in starts && Reaches(es, start, a);
    var p :| WalkBetween(es, p, start, a);
    ExtendWalk(es, p, b);
  }

  /** A set holding the start of a walk and closed under arcs holds its end. */
  lemma {:induction false} ClosedUnderWalk(es: seq<Edge>, s: set<ModuleId>, p: seq<ModuleId>)
    requires Walk(es, p) && p[0] in s
    requires forall a, b :: a in s && Arc(es, a, b) ==> b in s
    ensures p[|p| - 1] in s
    decreases |p|
  {
    if |p| > 1 {
      ClosedUnderWalk(es, s, p[..|p| - 1]);
      assert Arc(es, p[|p| - 2], p[|p| - 1]);
    }
  }

  /** What the breadth-first search of unreachableModules keeps. */
  ghost predicate SearchState(es: seq<Edge>, entries: seq<ModuleId>, seen: set<ModuleId>, queue: seq<ModuleId>) {
    && (forall id {:trigger ReachedFrom(es, entries, id)} ::
          id in seen || id in queue ==> ReachedFrom(es, entries, id))
    && (forall entry :: entry in entries ==> entry in seen || entry in queue)
    && (forall a, b :: a in seen && Arc(es, a, b) ==> b in seen || b in queue)
  }

  lemma SearchStart(ids: seq<ModuleId>, es: seq<Edge>)
    ensures SearchState(es, WithoutIncoming(ids, es), {}, WithoutIncoming(ids, es))
    ensures forall id :: id in WithoutIncoming(ids, es) ==> id in ids
  {
    var entries := WithoutIncoming(ids, es);
    EntriesHaveNoArc(ids, es);
    forall entry | entry in entries { ReachedFromStart(es, entries, entry); }
  }

  lemma SearchStep(es: seq<Edge>, entries: seq<ModuleId>, seen: set<ModuleId>, queue: seq<ModuleId>)
    requires SearchState(es, entries, seen, queue) && queue != []
    ensures queue[0] in seen ==> SearchState(es, entries, seen, queue[1..])
    ensures SearchState(es, entries, seen + {queue[0]}, queue[1..] + Targets(EdgesFrom(es, queue[0])))
  {
    var id, out := queue[0], EdgesFrom(es, queue[0]);
    var queue', seen' := queue[1..] + Targets(out), seen + {id};
    EdgesFromMembers(es, id);
    TargetsMembers(out);
    assert queue == [id] + queue[1..];
    assert ReachedFrom(es, entries, id);
    forall v | v in seen' || v in queue' ensures ReachedFrom(es, entries, v) {
      if v in Targets(out) {
        ReachedFromArc(es, entries, id, v);
      } else {
        assert v in seen || v in queue;
      }
    }
    forall a, b | a in seen' && Arc(es, a, b) ensures b in seen' || b in queue' {
      if a == id {
        var e :| e in es && e.from == id && e.to == b;
        assert e in out;
        assert b in Targets(out);
      }
    }
  }

  function Targets(out: seq<Edge>): seq<ModuleId> {
    if out == [] then [] else Targets(out[..|out| - 1]) + [out[|out| - 1].to]
  }

  lemma {:induction false} TargetsMembers(out: seq<Edge>)
    ensures forall id :: id in Targets(out) <==> exists e :: e in out && e.to == id
  {
    if out != [] {
      TargetsMembers(out[..|out| - 1]);
      assert out == out[..|out| - 1] + [out[|out| - 1]];
    }
  }

  /** The modules no walk from an entry module reaches, in course order. */
  method UnreachableModules(ids: seq<ModuleId>, edges: seq<Edge>) returns (unreachable: seq<ModuleId>)
    ensures forall id :: id in unreachable <==> id in ids && !ReachedFromEntry(ids, edges, id)
    ensures Subsequence(unreachable, ids)
    ensures exists seen :: unreachable == Outside(ids, seen)
  {
    hide SearchState;
    var outgoing, incoming := Index(ids, edges);
    ghost var es := Known(ids, edges);
    KnownMembers(ids, edges);
    var entries := EntryModules(ids, edges);
    var seen: set<ModuleId> := {};
    var queue := entries;
    SearchStart(ids, es);
    while queue != []
      invariant SearchState(es, entries, seen, queue)
      invariant seen <= Elements(ids) && forall id :: id in queue ==> id in ids
      decreases Elements(ids) - seen, |queue|
    {
      var id := queue[0];
      SearchStep(es, entries, seen, queue);
      if id in seen {
        queue := queue[1..];
      } else {
        EdgesFromMembers(es, id);
        TargetsMembers(outgoing[id]);
        seen := seen + {id};
        queue := queue[1..] + Targets(outgoing[id]);
      }
    }
    SearchIsExact(ids, edges, seen);
    unreachable := Outside(ids, seen);
  }

  lemma SearchIsExact(ids: seq<ModuleId>, edges: seq<Edge>, seen: set<ModuleId>)
    requires SearchState(Known(ids, edges), EntryModules(ids, edges), seen, [])
    ensures forall id :: id in seen <==> ReachedFromEntry(ids, edges, id)
  {
    var es := Known(ids, edges);
    forall id | ReachedFromEntry(ids, edges, id) ensures id in seen {
      var entry :| entry in EntryModules(ids, edges) && Reaches(es, entry, id);
      var p :| WalkBetween(es, p, entry, id);
      ClosedUnderWalk(es, seen, p);
    }
    forall id | id in seen ensures ReachedFromEntry(ids, edges, id) {
      assert ReachedFrom(es, EntryModules(ids, edges), id);
    }
  }

  function Outside(ids: seq<ModuleId>, seen: set<ModuleId>): (rest: seq<ModuleId>)
    ensures forall id :: id in rest <==> id in ids && id !in seen
    ensures Subsequence(rest, ids)
  {
    if ids == [] then []
    else
      assert ids == [ids[0]] + ids[1..];
      var later := Outside(ids[1..], seen);
      assert ([ids[0]] + later)[1..] == later;
      if ids[0] in seen then later else [ids[0]] + later
  }

  /** Without a cycle every module can be reached, so that warning belongs to cyclic courses alone. */
  lemma AcyclicIsReachable(ids: seq<ModuleId>, edges: seq<Edge>)
    requires Acyclic(Known(ids, edges))
    ensures forall id :: id in ids ==> ReachedFromEntry(ids, edges, id)
  {
    var es := Known(ids, edges);
    KnownMembers(ids, edges);
    EntriesHaveNoArc(ids, es);
    var lost := set id | id in ids && !ReachedFromEntry(ids, edges, id);
    forall b | b in lost ensures EnteredFrom(es, lost, b) {
      if b in EntryModules(ids, edges) {
        ReachedFromStart(es, EntryModules(ids, edges), b);
        assert false;
      }
      var a :| Arc(es, a, b);
      if ReachedFromEntry(ids, edges, a) {
        ReachedFromArc(es, EntryModules(ids, edges), a, b);
        assert false;
      }
      assert a in lost;
    }
    if lost != {} {
      SourcelessSetHasCycle(es, lost);
    }
    forall id | id in ids ensures ReachedFromEntry(ids, edges, id) {
      assert id !in lost;
    }
  }

  /** Without a cycle a course with modules has a place to start. */
  lemma AcyclicHasEntry(ids: seq<ModuleId>, edges: seq<Edge>)
    requires Acyclic(Known(ids, edges)) && ids != []
    ensures EntryModules(ids, edges) != []
  {
    AcyclicIsReachable(ids, edges);
    assert ReachedFromEntry(ids, edges, ids[0]);
  }

  // ---------------------------------------------------------------- transitive prerequisites

  /** What the backwards search of allPrerequisitesOf keeps; exempt is the module being expanded. */
  ghost predicate BackState(es: seq<Edge>, target: ModuleId, seen: seq<ModuleId>, queue: seq<ModuleId>,
                            exempt: set<ModuleId>) {
    && Distinct(seen)
    && (forall id {:trigger ReachesProperly(es, id, target)} :: id in seen ==> ReachesProperly(es, id, target))
    && (forall id :: id in queue || id in exempt ==> id == target || id in seen)
    && (forall a, b :: (b == target || b in seen) && b !in queue && b !in exempt && Arc(es, a, b) ==> a in seen)
    && (forall id :: id in seen ==> id in Sources(es))
  }

  ghost function Sources(es: seq<Edge>): set<ModuleId> {
    set e | e in es :: e.from
  }

  /** Everything that must be done before a module: exactly the modules with a walk to it. */
  method AllPrerequisitesOf(target: ModuleId, edges: seq<Edge>) returns (seen: seq<ModuleId>)
    ensures Distinct(seen)
    ensures forall id :: id in seen <==> ReachesProperly(edges, id, target)
  {
    seen := [];
    var queue := [target];
    while queue != []
      invariant BackState(edges, target, seen, queue, {})
      decreases |Sources(edges)| - |seen|, |queue|
    {
      DistinctBound(seen, Sources(edges));
      var id := queue[0];
      assert queue == [id] + queue[1..];
      seen, queue := Expand(target, edges, id, seen, queue[1..]);
      DistinctBound(seen, Sources(edges));
    }
    forall id | ReachesProperly(edges, id, target) ensures id in seen {
      var p :| WalkBetween(edges, p, id, target) && |p| >= 2;
      BackClosed(edges, target, seen, p);
    }
    forall id | id in seen ensures ReachesProperly(edges, id, target) {
      assert ReachesProperly(edges, id, target);
    }
  }

  /** Adds the direct prerequisites of one module that were not seen before. */
  method Expand(target: ModuleId, edges: seq<Edge>, id: ModuleId, seen0: seq<ModuleId>, queue0: seq<ModuleId>)
    returns (seen: seq<ModuleId>, queue: seq<ModuleId>)
    requires BackState(edges, target, seen0, queue0, {id})
    ensures BackState(edges, target, seen, queue, {})
    ensures |seen| > |seen0| || (seen == seen0 && queue == queue0)
  {
    seen, queue := seen0, queue0;
    var into := EdgesTo(edges, id);
    EdgesToMembers(edges, id);
    for k := 0 to |into|
      invariant BackState(edges, target, seen, queue, {id})
      invariant forall i :: 0 <= i < k ==> into[i].from in seen
      invariant |seen| > |seen0| || (seen == seen0 && queue == queue0)
    {
      var e := into[k];
      if e.from !in seen {
        BackStep(edges, target, id, e, seen, queue);
        seen := seen + [e.from];
        queue := queue + [e.from];
      }
    }
    forall a | Arc(edges, a, id) ensures a in seen {
      var e :| e in edges && e.from == a && e.to == id;
      assert e in into;
    }
  }

  lemma BackStep(es: seq<Edge>, target: ModuleId, id: ModuleId, e: Edge, seen: seq<ModuleId>, queue: seq<ModuleId>)
    requires BackState(es, target, seen, queue, {id})
    requires e in es && e.to == id && e.from !in seen
    ensures BackState(es, target, seen + [e.from], queue + [e.from], {id})
  {
    assert Arc(es, e.from, id);
    if id == target {
      assert WalkBetween(es, [e.from, id], e.from, target);
    } else {
      assert id in seen && ReachesProperly(es, id, target);
      var p :| WalkBetween(es, p, id, target) && |p| >= 2;
      PrependWalk(es, e.from, p);
    }
    assert ReachesProperly(es, e.from, target);
    assert e.from in Sources(es);
  }

  lemma {:induction false} BackClosed(es: seq<Edge>, target: ModuleId, seen: seq<ModuleId>, p: seq<ModuleId>)
    requires BackState(es, target, seen, [], {})
    requires Walk(es, p) && |p| >= 2 && p[|p| - 1] == target
    ensures p[0] in seen
    decreases |p|
  {
    assert Arc(es, p[0], p[1]);
    if |p| > 2 {
      var rest := p[1..];
      forall i | 0 < i < |rest| ensures Arc(es, rest[i - 1], rest[i]) {
        assert rest[i - 1] == p[i] && rest[i] == p[i + 1];
      }
      BackClosed(es, target, seen, rest);
    }
  }

  // ---------------------------------------------------------------- depth

  /** A walk through modules of the course; a single module is one. */
  ghost predicate Chain(ids: seq<ModuleId>, es: seq<Edge>, p: seq<ModuleId>) {
    Walk(es, p) && forall id :: id in p ==> id in ids
  }

  ghost predicate ChainTo(ids: seq<ModuleId>, es: seq<Edge>, p: seq<ModuleId>, id: ModuleId) {
    Chain(ids, es, p) && p[|p| - 1] == id
  }

  ghost predicate SomeChainTo(ids: seq<ModuleId>, es: seq<Edge>, id: ModuleId, n: int) {
    exists p :: ChainTo(ids, es, p, id) && |p| == n
  }

  ghost predicate NoLongerChainTo(ids: seq<ModuleId>, es: seq<Edge>, id: ModuleId, n: int) {
    forall p :: ChainTo(ids, es, p, id) ==> |p| <= n
  }

  /** The longest chain ending at a module has n modules. */
  ghost predicate LongestTo(ids: seq<ModuleId>, es: seq<Edge>, id: ModuleId, n: int) {
    SomeChainTo(ids, es, id, n) && NoLongerChainTo(ids, es, id, n)
  }

  /** The longest prerequisite chain of the whole course has n modules. */
  ghost predicate LongestChain(ids: seq<ModuleId>, es: seq<Edge>, n: int) {
    && (forall p :: Chain(ids, es, p) ==> |p| <= n)
    && (if ids == [] then n == 0 else exists p :: Chain(ids, es, p) && |p| == n)
  }

  lemma ExtendChain(ids: seq<ModuleId>, es: seq<Edge>, a: ModuleId, b: ModuleId, n: int)
    requires SomeChainTo(ids, es, a, n) && Arc(es, a, b) && b in ids
    ensures SomeChainTo(ids, es, b, n + 1)
  {
    var p :| ChainTo(ids, es, p, a) && |p| == n;
    ExtendWalk(es, p, b);
    assert ChainTo(ids, es, p + [b], b);
  }

  /** A bound above every direct prerequisite's longest chain bounds the chains to the module. */
  lemma BoundFromPrerequisites(ids: seq<ModuleId>, es: seq<Edge>, id: ModuleId, n: int, longest: map<ModuleId, int>)
    requires n >= 1 && longest.Keys == Elements(ids)
    requires forall e :: e in es ==> e.from in ids && e.to in ids
    requires forall a :: Arc(es, a, id) ==> a in ids && NoLongerChainTo(ids, es, a, longest[a]) && longest[a] + 1 <= n
    ensures NoLongerChainTo(ids, es, id, n)
  {
    forall p | ChainTo(ids, es, p, id) ensures |p| <= n {
      if |p| > 1 {
        var front, a := p[..|p| - 1], p[|p| - 2];
        assert Arc(es, a, p[|p| - 1]);
        assert ChainTo(ids, es, front, a);
      }
    }
  }

  /** What depth's loop over the topological order has established after its first j modules. */
  ghost predicate DepthState(ids: seq<ModuleId>, es: seq<Edge>, order: seq<ModuleId>, j: nat,
                             longest: map<ModuleId, int>)
    requires j <= |order|
  {
    && longest.Keys == Elements(ids)
    && (forall id {:trigger LongestTo(ids, es, id, longest[id])} ::
          id in order[..j] && id in longest ==> LongestTo(ids, es, id, longest[id]))
    && (forall id :: id in longest && id !in order[..j] ==> longest[id] == 1)
  }

  /** The direct prerequisites of the next module in the order have their longest chains already. */
  lemma PrerequisitesDone(ids: seq<ModuleId>, es: seq<Edge>, order: seq<ModuleId>, j: nat, longest: map<ModuleId, int>)
    requires TopologicalOrder(ids, es, order) && j < |order| && DepthState(ids, es, order, j, longest)
    requires forall e :: e in es ==> e.from in ids && e.to in ids
    ensures order[j] in longest && longest[order[j]] == 1
    ensures forall e :: e in EdgesTo(es, order[j]) ==>
              e.from != order[j] && e.from in longest && LongestTo(ids, es, e.from, longest[e.from])
  {
    EdgesToMembers(es, order[j]);
    assert order[j] !in order[..j];
    forall e | e in EdgesTo(es, order[j])
      ensures e.from != order[j] && e.from in longest && LongestTo(ids, es, e.from, longest[e.from])
    {
      assert Arc(es, e.from, order[j]);
    }
  }

  /** Takes the maximum over the direct prerequisites of one module. */
  method Lengthen(ids: seq<ModuleId>, ghost es: seq<Edge>, id: ModuleId, into: seq<Edge>, longest0: map<ModuleId, int>)
    returns (longest: map<ModuleId, int>)
    requires id in ids && id in longest0 && longest0[id] == 1
    requires forall e :: e in into ==> e in es && e.to == id && e.from != id
    requires forall e :: e in into ==> e.from in longest0 && LongestTo(ids, es, e.from, longest0[e.from])
    ensures longest.Keys == longest0.Keys
    ensures forall other :: other in longest0 && other != id ==> longest[other] == longest0[other]
    ensures longest[id] >= 1 && SomeChainTo(ids, es, id, longest[id])
    ensures forall e :: e in into ==> longest0[e.from] + 1 <= longest[id]
  {
    longest := longest0;
    assert ChainTo(ids, es, [id], id);
    for k := 0 to |into|
      invariant longest.Keys == longest0.Keys && longest[id] >= 1
      invariant forall other :: other in longest0 && other != id ==> longest[other] == longest0[other]
      invariant SomeChainTo(ids, es, id, longest[id])
      invariant forall i :: 0 <= i < k ==> longest0[into[i].from] + 1 <= longest[id]
    {
      var a := into[k].from;
      assert into[k] in into;
      ExtendChain(ids, es, a, id, longest[a]);
      longest := longest[id := Max(longest[id], longest[a] + 1)];
    }
  }

  /** With its own maximum taken, the next module joins the finished ones. */
  lemma DepthStep(ids: seq<ModuleId>, es: seq<Edge>, order: seq<ModuleId>, j: nat,
                  before: map<ModuleId, int>, after: map<ModuleId, int>)
    requires TopologicalOrder(ids, es, order) && j < |order| && DepthState(ids, es, order, j, before)
    requires forall e :: e in es ==> e.from in ids && e.to in ids
    requires after.Keys == before.Keys
    requires forall other :: other in before && other != order[j] ==> after[other] == before[other]
    requires order[j] in after && after[order[j]] >= 1 && SomeChainTo(ids, es, order[j], after[order[j]])
    requires forall e :: e in EdgesTo(es, order[j]) ==>  e.from in before && before[e.from] + 1 <= after[order[j]]
    ensures DepthState(ids, es, order, j + 1, after)
  {
    var id := order[j];
    PrerequisitesDone(ids, es, order, j, before);
    EdgesToMembers(es, id);
    forall a | Arc(es, a, id)
      ensures a in ids && NoLongerChainTo(ids, es, a, before[a]) && before[a] + 1 <= after[id]
    {
      var e :| e in es && e.from == a && e.to == id;
      assert e in EdgesTo(es, id);
    }
    BoundFromPrerequisites(ids, es, id, after[id], before);
    assert order[..j + 1] == order[..j] + [id];
    forall v | v in order[..j + 1] && v in after ensures LongestTo(ids, es, v, after[v]) {
      if v != id {
        assert LongestTo(ids, es, v, before[v]);
      }
    }
  }

  /** The number of modules on a longest prerequisite chain; 0 for a course with a cycle. */
  method Depth(ids: seq<ModuleId>, edges: seq<Edge>) returns (depth: int)
    requires Distinct(ids)
    ensures !Acyclic(Known(ids, edges)) ==> depth == 0
    ensures Acyclic(Known(ids, edges)) ==> LongestChain(ids, Known(ids, edges), depth)
  {
    var sorted := TopologicalOrderOf(ids, edges);
    if sorted.None? {
      return 0;
    }
    var order := sorted.value;
    var outgoing, incoming := Index(ids, edges);
    ghost var es := Known(ids, edges);
    KnownMembers(ids, edges);
    var longest := map id | id in ids :: 1;
    for j := 0 to |order|
      invariant DepthState(ids, es, order, j, longest)
    {
      var id := order[j];
      PrerequisitesDone(ids, es, order, j, longest);
      EdgesToMembers(es, id);
      ghost var before := longest;
      longest := Lengthen(ids, es, id, incoming[id], longest);
      DepthStep(ids, es, order, j, before, longest);
    }
    assert order[..|order|] == order;
    forall id | id in longest ensures LongestTo(ids, es, id, longest[id]) && longest[id] > 0 {
      assert LongestTo(ids, es, id, longest[id]);
      var p :| ChainTo(ids, es, p, id) && |p| == longest[id];
    }
    depth := LargestValue(ids, longest);
    DepthIsLongest(ids, es, longest, depth);
  }

  /** The maximum of 0 and all values. */
  method LargestValue(ids: seq<ModuleId>, longest: map<ModuleId, int>) returns (largest: int)
    requires longest.Keys == Elements(ids)
    requires forall id :: id in longest ==> longest[id] > 0
    ensures forall i :: 0 <= i < |ids| ==> longest[ids[i]] <= largest
    ensures if ids == [] then largest == 0 else exists i :: 0 <= i < |ids| && longest[ids[i]] == largest
  {
    largest := 0;
    for k := 0 to |ids|
      invariant forall i :: 0 <= i < k ==> longest[ids[i]] <= largest
      invariant if k == 0 then largest == 0 else exists i :: 0 <= i < k && longest[ids[i]] == largest
    {
      largest := Max(largest, longest[ids[k]]);
    }
  }

  lemma DepthIsLongest(ids: seq<ModuleId>, es: seq<Edge>, longest: map<ModuleId, int>, depth: int)
    requires longest.Keys == Elements(ids)
    requires forall id {:trigger LongestTo(ids, es, id, longest[id])} ::
               id in longest ==> LongestTo(ids, es, id, longest[id])
    requires forall i :: 0 <= i < |ids| ==> longest[ids[i]] <= depth
    requires if ids == [] then depth == 0 else exists i :: 0 <= i < |ids| && longest[ids[i]] == depth
    ensures LongestChain(ids, es, depth)
  {
    forall p | Chain(ids, es, p) ensures |p| <= depth {
      var last := p[|p| - 1];
      assert last in ids && ChainTo(ids, es, p, last);
      assert LongestTo(ids, es, last, longest[last]);
      var i :| 0 <= i < |ids| && ids[i] == last;
    }
    if ids != [] {
      var i :| 0 <= i < |ids| && longest[ids[i]] == depth;
      assert LongestTo(ids, es, ids[i], longest[ids[i]]);
    }
  }

  // ---------------------------------------------------------------- validation

  datatype Finding =
    | SelfReference(position: nat)
    | UnknownModule(position: nat)
    | DuplicateEdge(position: nat)
    | CurriculumCycle(modules: seq<ModuleId>)
    | NoEntryPoint
    | Unreachable(id: ModuleId)

  datatype Report = Report(valid: bool, errors: seq<Finding>, warnings: seq<Finding>)

  /** What validate promises of a course it accepts. */
  ghost predicate WellFormed(ids: seq<ModuleId>, edges: seq<Edge>) {
    && (forall e :: e in edges ==> e.from in ids && e.to in ids)
    && Acyclic(Known(ids, edges))
  }

  function EdgeKey(e: Edge): string {
    e.from + "->" + e.to
  }

  /** The first '>' of a printed edge ends its arrow, as long as the source's id holds none. */
  lemma FirstArrowHead(e: Edge)
    requires '>' !in e.from
    ensures |EdgeKey(e)| == |e.from| + 2 + |e.to| && EdgeKey(e)[|e.from| + 1] == '>'
    ensures forall i :: 0 <= i <= |e.from| ==> EdgeKey(e)[i] != '>'
    ensures EdgeKey(e)[..|e.from|] == e.from && EdgeKey(e)[|e.from| + 2..] == e.to
  {
    forall i | 0 <= i <= |e.from| ensures EdgeKey(e)[i] != '>' {
      if i < |e.from| {
        assert EdgeKey(e)[i] == e.from[i];
      }
    }
  }

  /** Two edges are printed alike exactly when they join the same modules, as long as no id holds a '>'. */
  lemma PrintedAlikeIffSame(e: Edge, f: Edge)
    requires '>' !in e.from && '>' !in f.from
    ensures EdgeKey(e) == EdgeKey(f) <==> e.from == f.from && e.to == f.to
  {
    FirstArrowHead(e);
    FirstArrowHead(f);
  }

  /** The edge's two endpoints printed the same way as those of an earlier edge. */
  predicate RepeatsEarlier(edges: seq<Edge>, i: nat)
    requires i < |edges|
  {
    exists j :: 0 <= j < i && EdgeKey(edges[j]) == EdgeKey(edges[i])
  }

  /** An edge from a known module to itself is a cycle of its own. */
  lemma SelfReferenceIsCycle(ids: seq<ModuleId>, edges: seq<Edge>, e: Edge)
    requires e in edges && e.from == e.to && e.from in ids
    ensures !Acyclic(Known(ids, edges))
  {
    KnownMembers(ids, edges);
    assert Arc(Known(ids, edges), e.from, e.to);
    assert Cycle(Known(ids, edges), [e.from, e.to]);
  }

  /** The first loop of validate: self references and edges to modules outside the course. */
  method EdgeErrors(ids: seq<ModuleId>, edges: seq<Edge>) returns (errors: seq<Finding>)
    ensures forall f :: f in errors <==> EdgeError(ids, edges, f)
  {
    errors := [];
    for i := 0 to |edges|
      invariant forall f :: f in errors <==> EdgeError(ids, edges, f) && f.position < i
    {
      var e := edges[i];
      if e.from == e.to {
        errors := errors + [SelfReference(i)];
      }
      if e.from !in ids || e.to !in ids {
        errors := errors + [UnknownModule(i)];
      }
    }
  }

  predicate EdgeError(ids: seq<ModuleId>, edges: seq<Edge>, f: Finding) {
    match f
    case SelfReference(i) => i < |edges| && edges[i].from == edges[i].to
    case UnknownModule(i) => i < |edges| && (edges[i].from !in ids || edges[i].to !in ids)
    case _ => false
  }

  /** The second loop of validate: edges listed twice. */
  method DuplicateWarnings(edges: seq<Edge>) returns (warnings: seq<Finding>)
    ensures forall f :: f in warnings <==> f.DuplicateEdge? && f.position < |edges| && RepeatsEarlier(edges, f.position)
  {
    warnings := [];
    var seen: set<string> := {};
    for i := 0 to |edges|
      invariant forall key :: key in seen <==> exists j :: 0 <= j < i && EdgeKey(edges[j]) == key
      invariant forall f :: f in warnings <==> f.DuplicateEdge? && f.position < i && RepeatsEarlier(edges, f.position)
    {
      var key := EdgeKey(edges[i]);
      if key in seen {
        warnings := warnings + [DuplicateEdge(i)];
      }
      seen := seen + {key};
    }
  }

  function UnreachableWarnings(ids: seq<ModuleId>): seq<Finding> {
    seq(|ids|, i requires 0 <= i < |ids| => Unreachable(ids[i]))
  }

  /**
   * Whether a learning path can be saved: exactly when its edges join modules of the course and
   * form no cycle. The errors name every bad edge and a real cycle; the findings that nobody can
   * start, or that a module cannot be reached, are never produced.
   */
  method Validate(ids: seq<ModuleId>, edges: seq<Edge>) returns (report: Report)
    ensures report.valid <==> WellFormed(ids, edges)
    ensures report.valid <==> report.errors == []
    ensures forall f :: f in report.errors && !f.CurriculumCycle? <==> EdgeError(ids, edges, f)
    ensures forall f :: f in report.errors && f.CurriculumCycle? ==> ElementaryCycle(Known(ids, edges), f.modules)
    ensures !Acyclic(Known(ids, edges)) ==> report.errors != [] && report.errors[|report.errors| - 1].CurriculumCycle?
    ensures forall f :: f in report.warnings <==>
              f.DuplicateEdge? && f.position < |edges| && RepeatsEarlier(edges, f.position)
  {
    var errors := EdgeErrors(ids, edges);
    ghost var edgeErrors := errors;
    var warnings := DuplicateWarnings(edges);
    var cycle := FindCycle(ids, edges);
    if cycle.Some? {
      errors := errors + [CurriculumCycle(cycle.value)];
    } else {
      if EntryModules(ids, edges) == [] && ids != [] {
        AcyclicHasEntry(ids, edges);
        errors := errors + [NoEntryPoint];
      }
      var unreachable := UnreachableModules(ids, edges);
      AcyclicIsReachable(ids, edges);
      NonEmptyHasMember(unreachable);
      warnings := warnings + UnreachableWarnings(unreachable);
    }
    ValidityOfErrors(ids, edges, edgeErrors);
    report := Report(errors == [], errors, warnings);
  }

  lemma ValidityOfErrors(ids: seq<ModuleId>, edges: seq<Edge>, errors: seq<Finding>)
    requires forall f :: f in errors <==> EdgeError(ids, edges, f)
    ensures WellFormed(ids, edges) <==> errors == [] && Acyclic(Known(ids, edges))
  {
    if errors == [] {
      forall e | e in edges ensures e.from in ids && e.to in ids {
        var i :| 0 <= i < |edges| && edges[i] == e;
        assert !EdgeError(ids, edges, UnknownModule(i));
      }
    } else {
      var f := errors[0];
      assert EdgeError(ids, edges, f);
      if f.SelfReference? && edges[f.position].from in ids {
        SelfReferenceIsCycle(ids, edges, edges[f.position]);
      }
    }
  }
}
