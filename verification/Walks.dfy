/**
 * Prerequisite edges between course modules, and the vocabulary every statement about them uses:
 * arcs, walks, cycles, reachability. Nothing here is an algorithm.
 */
module Walks {
  import opened Basics

  type ModuleId = string

  datatype Requirement = Complete | Pass

  datatype Edge = Edge(from: ModuleId, to: ModuleId, requirement: Requirement)

  ghost predicate Arc(es: seq<Edge>, a: ModuleId, b: ModuleId) {
    exists e :: e in es && e.from == a && e.to == b
  }

  /** A non-empty sequence of modules, each the source of an arc to the next. */
  ghost predicate Walk(es: seq<Edge>, p: seq<ModuleId>) {
    |p| > 0 && forall i :: 0 < i < |p| ==> Arc(es, p[i - 1], p[i])
  }

  ghost predicate WalkBetween(es: seq<Edge>, p: seq<ModuleId>, a: ModuleId, b: ModuleId) {
    Walk(es, p) && p[0] == a && p[|p| - 1] == b
  }

  ghost predicate Cycle(es: seq<Edge>, p: seq<ModuleId>) {
    |p| >= 2 && Walk(es, p) && p[0] == p[|p| - 1]
  }

  /** A closed walk that repeats nothing but its endpoint. */
  ghost predicate ElementaryCycle(es: seq<Edge>, p: seq<ModuleId>) {
    Cycle(es, p) && Distinct(p[1..])
  }

  ghost predicate Acyclic(es: seq<Edge>) {
    forall p :: !Cycle(es, p)
  }

  /** There is a walk from a to b; every module reaches itself. */
  ghost predicate Reaches(es: seq<Edge>, a: ModuleId, b: ModuleId) {
    exists p :: WalkBetween(es, p, a, b)
  }

  /** There is a walk from a to b along at least one arc. */
  ghost predicate ReachesProperly(es: seq<Edge>, a: ModuleId, b: ModuleId) {
    exists p :: WalkBetween(es, p, a, b) && |p| >= 2
  }

  /** Every arc into the order comes from an earlier position. */
  ghost predicate SourcesFirst(es: seq<Edge>, order: seq<ModuleId>) {
    forall j, a :: 0 <= j < |order| && Arc(es, a, order[j]) ==> a in order[..j]
  }

  /** Every arc out of the order leads to an earlier position. */
  ghost predicate TargetsFirst(es: seq<Edge>, order: seq<ModuleId>) {
    forall j, b :: 0 <= j < |order| && Arc(es, order[j], b) ==> b in order[..j]
  }

  /** In a sources-first order, a walk ending at position j started strictly before j. */
  lemma {:induction false} WalkStartsEarlier(es: seq<Edge>, order: seq<ModuleId>, p: seq<ModuleId>, j: nat)
    requires SourcesFirst(es, order)
    requires j < |order| && Walk(es, p) && |p| >= 2 && p[|p| - 1] == order[j]
    ensures p[0] in order[..j]
    decreases |p|
  {
    var n := |p| - 1;
    assert Arc(es, p[n - 1], p[n]);
    if n >= 2 {
      var front := p[..n];
      var k :| 0 <= k < j && order[k] == p[n - 1];
      WalkStartsEarlier(es, order, front, k);
    }
  }

  /** In a targets-first order, a walk starting at position j ends strictly before j. */
  lemma {:induction false} WalkEndsEarlier(es: seq<Edge>, order: seq<ModuleId>, p: seq<ModuleId>, j: nat)
    requires TargetsFirst(es, order)
    requires j < |order| && Walk(es, p) && |p| >= 2 && p[0] == order[j]
    ensures p[|p| - 1] in order[..j]
    decreases |p|
  {
    assert Arc(es, p[0], p[1]);
    if |p| > 2 {
      var rest := p[1..];
      assert forall i :: 0 < i < |rest| ==> rest[i - 1] == p[i] && rest[i] == p[i + 1];
      var k :| 0 <= k < j && order[k] == p[1];
      WalkEndsEarlier(es, order, rest, k);
    }
  }

  /** First position of a member of a sequence. */
  lemma {:induction false} FirstIndex<T>(s: seq<T>, x: T) returns (j: nat)
    requires x in s
    ensures j < |s| && s[j] == x && x !in s[..j]
  {
    j := 0;
    while s[j] != x
      invariant j < |s| && x !in s[..j] && x in s
      decreases |s| - j
    {
      j := j + 1;
    }
  }

  /** A sources-first order over every arc target leaves no room for a cycle. */
  lemma OrderedIsAcyclic(es: seq<Edge>, order: seq<ModuleId>)
    requires SourcesFirst(es, order)
    requires forall e :: e in es ==> e.to in order
    ensures Acyclic(es)
  {
    forall p ensures !Cycle(es, p) {
      if Cycle(es, p) {
        var last := p[|p| - 1];
        assert Arc(es, p[|p| - 2], last);
        var j := FirstIndex(order, last);
        WalkStartsEarlier(es, order, p, j);
      }
    }
  }

  /** The same for a targets-first order over every arc source. */
  lemma ReverseOrderedIsAcyclic(es: seq<Edge>, order: seq<ModuleId>)
    requires TargetsFirst(es, order)
    requires forall e :: e in es ==> e.from in order
    ensures Acyclic(es)
  {
    forall p ensures !Cycle(es, p) {
      if Cycle(es, p) {
        assert Arc(es, p[0], p[1]);
        var j := FirstIndex(order, p[0]);
        WalkEndsEarlier(es, order, p, j);
      }
    }
  }

  ghost predicate EnteredFrom(es: seq<Edge>, s: set<ModuleId>, b: ModuleId) {
    exists a :: a in s && Arc(es, a, b)
  }

  /** A non-empty set in which every module has a predecessor inside the set contains a cycle. */
  lemma SourcelessSetHasCycle(es: seq<Edge>, s: set<ModuleId>)
    requires s != {}
    requires forall b {:trigger EnteredFrom(es, s, b)} :: b in s ==> EnteredFrom(es, s, b)
    ensures !Acyclic(es)
  {
    var b :| b in s;
    GrowBackwards(es, s, [b]);
  }

  /** The cycle can be found inside the set. */
  lemma CycleInside(es: seq<Edge>, s: set<ModuleId>) returns (cycle: seq<ModuleId>)
    requires s != {}
    requires forall b {:trigger EnteredFrom(es, s, b)} :: b in s ==> EnteredFrom(es, s, b)
    ensures Cycle(es, cycle) && forall x :: x in cycle ==> x in s
  {
    var inner := Within(es, s);
    WithinMembers(es, s);
    forall b | b in s ensures EnteredFrom(inner, s, b) {
      assert EnteredFrom(es, s, b);
      var a :| a in s && Arc(es, a, b);
      var e :| e in es && e.from == a && e.to == b;
      assert e in inner;
    }
    SourcelessSetHasCycle(inner, s);
    cycle :| Cycle(inner, cycle);
    forall i | 0 < i < |cycle| ensures Arc(es, cycle[i - 1], cycle[i]) {
      assert Arc(inner, cycle[i - 1], cycle[i]);
    }
    forall x | x in cycle ensures x in s {
      var i :| 0 <= i < |cycle| && cycle[i] == x;
      var j := if i == 0 then 1 else i;
      assert Arc(inner, cycle[j - 1], cycle[j]);
    }
  }

  /** The edges between members of a set. */
  function Within(es: seq<Edge>, s: set<ModuleId>): seq<Edge> {
    if es == [] then []
    else (if es[0].from in s && es[0].to in s then [es[0]] else []) + Within(es[1..], s)
  }

  lemma {:induction false} WithinMembers(es: seq<Edge>, s: set<ModuleId>)
    ensures forall e :: e in Within(es, s) <==> e in es && e.from in s && e.to in s
  {
    if es != [] {
      WithinMembers(es[1..], s);
      assert es == [es[0]] + es[1..];
    }
  }

  /** Every module of a cycle has a predecessor on it. */
  lemma CycleEntersItself(es: seq<Edge>, cycle: seq<ModuleId>, b: ModuleId)
    requires Cycle(es, cycle) && b in cycle
    ensures EnteredFrom(es, Elements(cycle), b)
  {
    var i :| 0 <= i < |cycle| && cycle[i] == b;
    var j := if i == 0 then |cycle| - 1 else i;
    assert Arc(es, cycle[j - 1], cycle[j]) && cycle[j - 1] in cycle;
  }

  lemma {:induction false} GrowBackwards(es: seq<Edge>, s: set<ModuleId>, p: seq<ModuleId>)
    requires forall b {:trigger EnteredFrom(es, s, b)} :: b in s ==> EnteredFrom(es, s, b)
    requires Walk(es, p) && Distinct(p) && forall x :: x in p ==> x in s
    ensures !Acyclic(es)
    decreases |s| - |p|
  {
    DistinctBound(p, s);
    assert EnteredFrom(es, s, p[0]);
    var a :| a in s && Arc(es, a, p[0]);
    var longer := [a] + p;
    PrependWalk(es, a, p);
    if a in p {
      var k :| 0 <= k < |p| && p[k] == a;
      RevisitIsCycle(es, longer, k + 1);
    } else {
      assert Distinct(longer);
      DistinctBound(longer, s);
      GrowBackwards(es, s, longer);
    }
  }

  /** A walk that comes back to where it started contains a cycle. */
  lemma RevisitIsCycle(es: seq<Edge>, p: seq<ModuleId>, k: nat)
    requires Walk(es, p) && 0 < k < |p| && p[k] == p[0]
    ensures !Acyclic(es)
  {
    assert Cycle(es, p[..k + 1]);
  }

  /** Walks compose with a further arc at the end. */
  lemma ExtendWalk(es: seq<Edge>, p: seq<ModuleId>, c: ModuleId)
    requires Walk(es, p) && Arc(es, p[|p| - 1], c)
    ensures WalkBetween(es, p + [c], p[0], c)
  {
  }

  /** Walks compose with a further arc in front. */
  lemma PrependWalk(es: seq<Edge>, a: ModuleId, p: seq<ModuleId>)
    requires Walk(es, p) && Arc(es, a, p[0])
    ensures WalkBetween(es, [a] + p, a, p[|p| - 1])
  {
    var q := [a] + p;
    forall i | 0 < i < |q| ensures Arc(es, q[i - 1], q[i]) {
      if i > 1 {
        assert q[i] == p[i - 1] && q[i - 1] == p[i - 2];
      }
    }
  }
}
