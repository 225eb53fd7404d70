/** Small vocabulary shared by the models: optional values, bounds, white space, duplicate-free sequences. */
module Basics {

  datatype Option<+T> = None | Some(value: T)

  /** No element occurs at two positions. */
  ghost predicate Distinct<T>(s: seq<T>) {
    forall i, j :: 0 <= i < j < |s| ==> s[i] != s[j]
  }

  /** The elements of a sequence, as a set. */
  ghost function Elements<T>(s: seq<T>): set<T> {
    set x | x in s
  }

  function Max(a: int, b: int): int {
    if a >= b then a else b
  }

  function Min(a: int, b: int): int {
    if a <= b then a else b
  }

  /** What String.prototype.trim removes. */
  predicate IsSpace(c: char) {
    || c in " \t\n\r\U{0B}\U{0C}\U{A0}\U{1680}\U{2028}\U{2029}\U{202F}\U{205F}\U{3000}\U{FEFF}"
    || '\U{2000}' <= c <= '\U{200A}'
  }

  function TrimStart(s: string): string {
    if s != "" && IsSpace(s[0]) then TrimStart(s[1..]) else s
  }

  function TrimEnd(s: string): string {
    if s != "" && IsSpace(s[|s| - 1]) then TrimEnd(s[..|s| - 1]) else s
  }

  function Trim(s: string): string {
    TrimEnd(TrimStart(s))
  }

  lemma {:induction false} TrimDropsSpace(before: string, core: string, after: string)
    requires (forall c :: c in before ==> IsSpace(c)) && (forall c :: c in after ==> IsSpace(c))
    requires core != "" && !IsSpace(core[0]) && !IsSpace(core[|core| - 1])
    ensures Trim(before + core + after) == core
    decreases |before| + |after|
  {
    var s := before + core + after;
    if before != "" {
      assert s[0] == before[0] && before[0] in before;
      assert s[1..] == before[1..] + core + after;
      TrimDropsSpace(before[1..], core, after);
    } else {
      assert s == core + after && TrimStart(s) == s;
      TrimEndDropsSpace(core, after);
    }
  }

  lemma {:induction false} TrimEndDropsSpace(core: string, after: string)
    requires forall c :: c in after ==> IsSpace(c)
    requires core != "" && !IsSpace(core[|core| - 1])
    ensures TrimEnd(core + after) == core
    decreases |after|
  {
    var s := core + after;
    if after == "" {
      assert s == core;
    } else {
      var n := |after| - 1;
      assert s[|s| - 1] == after[n] && after[n] in after;
      assert s[..|s| - 1] == core + after[..n];
      TrimEndDropsSpace(core, after[..n]);
    }
  }

  /** Trimming leaves nothing exactly of white space. */
  lemma TrimLeavesNonSpace(s: string)
    ensures Trim(s) == "" <==> forall i :: 0 <= i < |s| ==> IsSpace(s[i])
  {
    TrimStartLeavesNonSpace(s);
    TrimEndLeavesNonSpace(TrimStart(s));
  }

  lemma {:induction false} TrimStartLeavesNonSpace(s: string)
    ensures (forall i :: 0 <= i < |s| ==> IsSpace(s[i])) <==> TrimStart(s) == ""
    ensures TrimStart(s) != "" ==> !IsSpace(TrimStart(s)[0])
  {
    if s != "" && IsSpace(s[0]) {
      TrimStartLeavesNonSpace(s[1..]);
      assert forall i :: 0 < i < |s| ==> s[i] == s[1..][i - 1];
    }
  }

  lemma {:induction false} TrimEndLeavesNonSpace(s: string)
    ensures s != "" && !IsSpace(s[0]) ==> TrimEnd(s) != ""
  {
    if s != "" && IsSpace(s[|s| - 1]) && !IsSpace(s[0]) {
      TrimEndLeavesNonSpace(s[..|s| - 1]);
    }
  }

  /** Some of the elements, in the same order. */
  ghost predicate Subsequence<T>(s: seq<T>, of: seq<T>) {
    || s == []
    || (of != [] && s[0] == of[0] && Subsequence(s[1..], of[1..]))
    || (of != [] && Subsequence(s, of[1..]))
  }

  lemma {:induction false} SubsequenceSnoc<T>(s: seq<T>, of: seq<T>, x: T)
    requires Subsequence(s, of)
    ensures Subsequence(s, of + [x]) && Subsequence(s + [x], of + [x])
    decreases |of|
  {
    if of == [] {
      assert ([] + [x])[1..] == [];
    } else {
      assert (of + [x])[1..] == of[1..] + [x];
      if s != [] && s[0] == of[0] && Subsequence(s[1..], of[1..]) {
        SubsequenceSnoc(s[1..], of[1..], x);
        assert (s + [x])[1..] == s[1..] + [x];
      } else {
        SubsequenceSnoc(s, of[1..], x);
      }
    }
  }

  ghost function Last<T>(s: seq<T>): T
    requires s != []
  {
    s[|s| - 1]
  }

  lemma NonEmptyHasMember<T>(s: seq<T>)
    ensures s != [] ==> exists x :: x in s
  {
    if s != [] {
      assert s[0] in s;
    }
  }

  /** A duplicate-free sequence drawn from a set is at most as long as the set is large. */
  lemma {:induction false} DistinctBound<T>(s: seq<T>, bound: set<T>)
    requires Distinct(s)
    requires forall x :: x in s ==> x in bound
    ensures |s| <= |bound|
  {
    if s != [] {
      var last := s[|s| - 1];
      var front := s[..|s| - 1];
      DistinctBound(front, bound - {last});
    }
  }

  /** A duplicate-free sequence has exactly as many elements as positions. */
  lemma {:induction false} DistinctSize<T>(s: seq<T>)
    requires Distinct(s)
    ensures |Elements(s)| == |s|
  {
    if s != [] {
      var last := s[|s| - 1];
      var front := s[..|s| - 1];
      DistinctSize(front);
      assert Elements(s) == Elements(front) + {last};
    }
  }

  /** Two duplicate-free sequences of one length, one drawn from the other, have the same elements. */
  lemma SameElements<T>(s: seq<T>, t: seq<T>)
    requires Distinct(s) && Distinct(t)
    requires forall x :: x in s ==> x in t
    requires |s| == |t|
    ensures forall x :: x in t ==> x in s
  {
    DistinctSize(s);
    DistinctSize(t);
    if x :| x in t && x !in s {
      DistinctBound(s, Elements(t) - {x});
    }
  }
}
