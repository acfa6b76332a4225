/** Paths, cycles and dependency-first orders of a finite graph given by successor lists. */
module Digraph {

  type Graph = map<string, seq<string>>

  predicate Edge(g: Graph, a: string, b: string) {
    a in g && b in g[a]
  }

  predicate IsPath(g: Graph, p: seq<string>) {
    p != [] && forall i | 0 <= i < |p| - 1 :: Edge(g, p[i], p[i + 1])
  }

  predicate IsCycle(g: Graph, p: seq<string>) {
    IsPath(g, p) && 2 <= |p| && p[0] == p[|p| - 1]
  }

  ghost predicate Acyclic(g: Graph) {
    forall p :: !IsCycle(g, p)
  }

  predicate Joins(g: Graph, p: seq<string>, a: string, b: string) {
    IsPath(g, p) && p[0] == a && p[|p| - 1] == b
  }

  ghost predicate Reaches(g: Graph, a: string, b: string) {
    exists p :: Joins(g, p, a, b)
  }

  predicate NoDuplicates(s: seq<string>) {
    forall i, j | 0 <= i < j < |s| :: s[i] != s[j]
  }

  /** Every listed node comes after all its successors that are themselves nodes. */
  predicate DependenciesFirst(g: Graph, order: seq<string>) {
    forall i, d | 0 <= i < |order| && Edge(g, order[i], d) && d in g :: d in order[..i]
  }

  lemma PathTail(g: Graph, p: seq<string>)
    requires IsPath(g, p) && 2 <= |p|
    ensures IsPath(g, p[1..])
  {
    forall i | 0 <= i < |p[1..]| - 1
      ensures Edge(g, p[1..][i], p[1..][i + 1])
    {
      assert Edge(g, p[i + 1], p[i + 2]);
    }
  }

  lemma PathExtends(g: Graph, p: seq<string>, b: string)
    requires IsPath(g, p) && Edge(g, p[|p| - 1], b)
    ensures IsPath(g, p + [b])
  {
  }

  lemma ReachesStep(g: Graph, a: string, b: string, c: string)
    requires Reaches(g, a, b) && Edge(g, b, c)
    ensures Reaches(g, a, c)
  {
    var p :| Joins(g, p, a, b);
    PathExtends(g, p, c);
    assert Joins(g, p + [c], a, c);
  }

  lemma ReachesRefl(g: Graph, a: string)
    ensures Reaches(g, a, a)
  {
    assert Joins(g, [a], a, a);
  }

  /** An edge from the end of a path back to one of its nodes closes a cycle. */
  lemma BackEdgeCloses(g: Graph, p: seq<string>, at: nat)
    requires IsPath(g, p) && at < |p| && Edge(g, p[|p| - 1], p[at])
    ensures IsCycle(g, p[at..] + [p[at]])
  {
    var tail := p[at..];
    forall i | 0 <= i < |tail| - 1
      ensures Edge(g, tail[i], tail[i + 1])
    {
      assert Edge(g, p[at + i], p[at + i + 1]);
    }
    PathExtends(g, tail, p[at]);
  }

  /** In a dependency-first order a path only ever runs towards the front. */
  lemma {:induction false} PathRunsForward(g: Graph, order: seq<string>, p: seq<string>, i: nat) returns (j: nat)
    requires DependenciesFirst(g, order) && IsPath(g, p)
    requires forall k | 0 <= k < |p| :: p[k] in g
    requires i < |order| && order[i] == p[0]
    ensures j < |order| && order[j] == p[|p| - 1] && j + |p| - 1 <= i
    ensures 2 <= |p| ==> p[|p| - 1] in order[..i]
    decreases |p|
  {
    if |p| == 1 {
      j := i;
    } else {
      assert Edge(g, p[0], p[1]);
      assert p[1] in order[..i];
      var i' :| 0 <= i' < i && order[i'] == p[1];
      PathTail(g, p);
      j := PathRunsForward(g, order, p[1..], i');
      assert order[..i][j] == p[|p| - 1];
    }
  }

  lemma {:induction false} FirstOccurrence(s: seq<string>, x: string) returns (i: nat)
    requires x in s
    ensures i < |s| && s[i] == x && x !in s[..i]
  {
    if s[0] == x {
      i := 0;
    } else {
      var i' := FirstOccurrence(s[1..], x);
      i := i' + 1;
      assert s[..i] == [s[0]] + s[1..][..i'];
    }
  }

  /** A node of a cycle cannot be listed in a dependency-first order. */
  lemma CycleNotListed(g: Graph, order: seq<string>, p: seq<string>)
    requires DependenciesFirst(g, order) && IsCycle(g, p)
    ensures p[0] !in order
  {
    if p[0] in order {
      var i := FirstOccurrence(order, p[0]);
      forall k | 0 <= k < |p|
        ensures p[k] in g
      {
        assert k < |p| - 1 ==> Edge(g, p[k], p[k + 1]);
        assert Edge(g, p[0], p[1]);
      }
      var _ := PathRunsForward(g, order, p, i);
    }
  }
}
