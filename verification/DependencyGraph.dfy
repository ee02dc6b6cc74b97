/** Dependency graphs, their cycles, and what an order or a dead end says about them. */
module DependencyGraph {
  import opened ArazzoModel

  // The dependsOn lists by workflow id; of several workflows with one id the last counts.
  type Graph = map<string, seq<string>>

  function GraphOf(doc: seq<Workflow>): Graph {
    if doc == [] then map[]
    else
      var last := doc[|doc| - 1];
      GraphOf(doc[..|doc| - 1])[last.workflowId := last.dependsOn]
  }

  function Elements(s: seq<string>): set<string> {
    set x | x in s
  }

  ghost predicate Distinct(s: seq<string>) {
    forall i, j | 0 <= i < j < |s| :: s[i] != s[j]
  }

  lemma {:induction false} SubsetSize<T>(a: set<T>, b: set<T>)
    requires a <= b
    ensures |a| <= |b|
  {
    if a != {} {
      var x :| x in a;
      SubsetSize(a - {x}, b - {x});
    }
  }

  lemma SubsetEqual<T>(a: set<T>, b: set<T>)
    requires a <= b && |a| == |b|
    ensures a == b
  {
    if x :| x in b && x !in a {
      SubsetSize(a, b - {x});
    }
  }

  lemma {:induction false} DistinctSize(s: seq<string>)
    requires Distinct(s)
    ensures |Elements(s)| == |s|
  {
    if s != [] {
      var rest := s[..|s| - 1];
      DistinctSize(rest);
      assert Elements(s) == Elements(rest) + {s[|s| - 1]};
    }
  }

  lemma {:induction false} SizeMakesDistinct(s: seq<string>)
    requires |Elements(s)| >= |s|
    ensures Distinct(s)
  {
    if s != [] {
      var rest, last := s[..|s| - 1], s[|s| - 1];
      assert Elements(s) == Elements(rest) + {last};
      if last in rest {
        assert Elements(s) == Elements(rest);
        AtMostLength(rest);
      }
      SizeMakesDistinct(rest);
    }
  }

  lemma {:induction false} AtMostLength(s: seq<string>)
    ensures |Elements(s)| <= |s|
  {
    if s != [] {
      AtMostLength(s[..|s| - 1]);
      assert Elements(s) == Elements(s[..|s| - 1]) + {s[|s| - 1]};
    }
  }

  // An edge between known ids.
  predicate Edge(g: Graph, a: string, b: string) {
    a in g && b in g && b in g[a]
  }

  ghost predicate Link(g: Graph, p: seq<string>, k: int)
    requires 0 <= k < |p| - 1
  {
    Edge(g, p[k], p[k + 1])
  }

  ghost predicate Walk(g: Graph, p: seq<string>) {
    forall k | 0 <= k < |p| - 1 :: Link(g, p, k)
  }

  ghost predicate Cycle(g: Graph, p: seq<string>) {
    |p| >= 2 && Walk(g, p) && p[0] == p[|p| - 1]
  }

  ghost predicate HasCycle(g: Graph) {
    exists p :: Cycle(g, p)
  }

  // Every known dependency of order[k] stands before position k.
  ghost predicate DependenciesFirst(g: Graph, order: seq<string>) {
    forall k, d | 0 <= k < |order| && Edge(g, order[k], d) :: d in order[..k]
  }

  lemma {:induction false} GraphOfUnique(doc: seq<Workflow>, i: nat)
    requires UniqueIds(doc)
    requires i < |doc|
    ensures doc[i].workflowId in GraphOf(doc) && GraphOf(doc)[doc[i].workflowId] == doc[i].dependsOn
  {
    if i < |doc| - 1 { GraphOfUnique(doc[..|doc| - 1], i); }
  }

  lemma {:induction false} GraphOfKeys(doc: seq<Workflow>, id: string)
    ensures id in GraphOf(doc) <==> exists i :: 0 <= i < |doc| && doc[i].workflowId == id
  {
    if doc != [] {
      var rest := doc[..|doc| - 1];
      GraphOfKeys(rest, id);
      if i :| 0 <= i < |doc| && doc[i].workflowId == id {
        assert i < |rest| ==> rest[i].workflowId == id;
      }
      if id in GraphOf(rest) {
        var i :| 0 <= i < |rest| && rest[i].workflowId == id;
        assert doc[i].workflowId == id;
      }
    }
  }

  // An order of all ids in which dependencies come first leaves no room for a cycle.
  lemma OrderedHasNoCycle(g: Graph, order: seq<string>)
    requires forall id | id in g :: id in order
    requires DependenciesFirst(g, order)
    ensures !HasCycle(g)
  {
    if p :| Cycle(g, p) {
      assert Link(g, p, 0);
      var k :| 0 <= k < |order| && order[k] == p[0];
      EarlierStill(g, order, p, k);
    }
  }

  lemma {:induction false} WalkGoesDown(g: Graph, order: seq<string>, p: seq<string>, k: nat, n: nat)
    requires DependenciesFirst(g, order) && Walk(g, p)
    requires 1 <= n < |p| && k < |order| && order[k] == p[0]
    ensures p[n] in order[..k]
  {
    if n == 1 {
      assert Link(g, p, 0);
    } else {
      WalkGoesDown(g, order, p, k, n - 1);
      var j :| 0 <= j < k && order[j] == p[n - 1];
      assert Link(g, p, n - 1);
      assert p[n] in order[..j];
    }
  }

  // A node of a cycle would have ever earlier places in the order.
  lemma {:induction false} EarlierStill(g: Graph, order: seq<string>, p: seq<string>, k: nat)
    requires DependenciesFirst(g, order) && Cycle(g, p)
    requires k < |order| && order[k] == p[0]
    ensures false
  {
    WalkGoesDown(g, order, p, k, |p| - 1);
    var j: nat :| j < k && order[j] == p[0];
    EarlierStill(g, order, p, j);
  }

  // A non-empty finite set in which every node has an edge back into the set contains a cycle.
  ghost predicate LeadsInto(g: Graph, a: string, nodes: set<string>) {
    exists b :: b in nodes && Edge(g, a, b)
  }

  lemma DeadEndIsCycle(g: Graph, stuck: set<string>, start: string)
    requires start in stuck
    requires forall a | a in stuck :: LeadsInto(g, a, stuck)
    ensures HasCycle(g)
  {
    FollowEdges(g, stuck, [start], stuck - {start});
  }

  lemma {:induction false} FollowEdges(g: Graph, stuck: set<string>, p: seq<string>, rest: set<string>)
    requires p != [] && Walk(g, p) && p[|p| - 1] in stuck
    requires forall a | a in stuck :: LeadsInto(g, a, stuck)
    requires forall a | a in stuck :: a in p || a in rest
    ensures HasCycle(g)
    decreases rest
  {
    assert LeadsInto(g, p[|p| - 1], stuck);
    var b :| b in stuck && Edge(g, p[|p| - 1], b);
    LongerWalk(g, p, b);
    if b in p {
      LassoIsCycle(g, p + [b]);
    } else {
      assert b in rest;
      FollowEdges(g, stuck, p + [b], rest - {b});
    }
  }

  lemma LongerWalk(g: Graph, p: seq<string>, b: string)
    requires p != [] && Walk(g, p) && Edge(g, p[|p| - 1], b)
    ensures Walk(g, p + [b])
  {
    var q := p + [b];
    forall k | 0 <= k < |q| - 1 ensures Link(g, q, k) {
      if k < |p| - 1 { assert Link(g, p, k); }
    }
  }

  // A walk that ends where it has been before.
  ghost predicate Lasso(g: Graph, p: seq<string>) {
    |p| >= 2 && Walk(g, p) && p[|p| - 1] in p[..|p| - 1]
  }

  lemma LassoIsCycle(g: Graph, p: seq<string>)
    requires Lasso(g, p)
    ensures HasCycle(g)
  {
    var i :| 0 <= i < |p| - 1 && p[i] == p[|p| - 1];
    var c := p[i..];
    forall k | 0 <= k < |c| - 1 ensures Link(g, c, k) {
      assert Link(g, p, i + k);
    }
    assert Cycle(g, c);
  }
}
