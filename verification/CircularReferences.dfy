/** The resolver's test for an infinite circular reference along required properties. */
module CircularReferences {
  import opened Common

  // required: the reference strings of a definition's required properties.
  // target: the definition each reference string resolves to.
  datatype Index = Index(required: map<string, set<string>>, target: map<string, string>)

  // Every required edge resolves.
  ghost predicate Resolves(index: Index) {
    forall a | a in index.required :: forall k | k in index.required[a] ::
      k in index.target && index.target[k] in index.required
  }

  ghost predicate Edge(index: Index, a: string, b: string) {
    a in index.required && exists k :: k in index.required[a] && k in index.target && index.target[k] == b
  }

  ghost predicate Link(index: Index, p: seq<string>, k: int)
    requires 0 <= k < |p| - 1
  {
    Edge(index, p[k], p[k + 1])
  }

  ghost predicate Path(index: Index, p: seq<string>) {
    |p| >= 2 && forall k | 0 <= k < |p| - 1 :: Link(index, p, k)
  }

  // b is reached from a over at least one required edge.
  ghost predicate Reaches(index: Index, a: string, b: string) {
    exists p :: Path(index, p) && p[0] == a && p[|p| - 1] == b
  }

  // The start depends on itself, or on something that directly depends on itself.
  ghost predicate Infinite(index: Index, start: string) {
    Reaches(index, start, start) || exists x :: Reaches(index, start, x) && Edge(index, x, x)
  }

  lemma EdgeReaches(index: Index, a: string, b: string)
    requires Edge(index, a, b)
    ensures Reaches(index, a, b)
  {
    var p := [a, b];
    assert Link(index, p, 0);
    assert Path(index, p);
  }

  lemma ReachesOn(index: Index, a: string, b: string, c: string)
    requires Reaches(index, a, b) && Edge(index, b, c)
    ensures Reaches(index, a, c)
  {
    var p :| Path(index, p) && p[0] == a && p[|p| - 1] == b;
    var q := p + [c];
    forall k | 0 <= k < |q| - 1 ensures Link(index, q, k) {
      if k < |p| - 1 { assert Link(index, p, k); }
    }
    assert Path(index, q);
  }

  // Explored without result: every edge stays inside visited and hits neither the start nor its own source.
  ghost predicate Harmless(index: Index, start: string, visited: set<string>, a: string) {
    forall b | Edge(index, a, b) :: b in visited && b != start && b != a
  }

  lemma {:induction false} StaysInside(index: Index, start: string, visited: set<string>, p: seq<string>, k: nat)
    requires Harmless(index, start, visited, start)
    requires forall a | a in visited :: Harmless(index, start, visited, a)
    requires Path(index, p) && p[0] == start && 1 <= k < |p|
    ensures p[k] in visited && p[k] != start
  {
    assert Link(index, p, k - 1);
    if k > 1 { StaysInside(index, start, visited, p, k - 1); }
  }

  lemma HarmlessIsFinite(index: Index, start: string, visited: set<string>)
    requires Harmless(index, start, visited, start)
    requires forall a | a in visited :: Harmless(index, start, visited, a)
    ensures !Infinite(index, start)
  {
    forall x | Reaches(index, start, x) ensures x != start && !Edge(index, x, x) {
      var p :| Path(index, p) && p[0] == start && p[|p| - 1] == x;
      StaysInside(index, start, visited, p, |p| - 1);
    }
  }

  class Search {
    const index: Index
    var visited: set<string>

    constructor (index: Index)
      ensures this.index == index && visited == {}
    {
      this.index := index;
      visited := {};
    }

    // What was visited and is no longer on the call stack has been explored without result.
    ghost predicate Explored(start: string, stack: set<string>)
      reads this
    {
      && visited <= index.required.Keys
      && forall a | a in visited && a !in stack :: Harmless(index, start, visited, a)
    }

    method IsInfinite(ref: string, initial: Option<string>, ghost start: string, ghost stack: set<string>)
      returns (infinite: bool)
      requires Resolves(index) && ref in index.required
      requires match initial
               case None => ref == start && visited == {} && stack == {}
               case Some(i) => i == start && ref in visited && ref in stack && Reaches(index, start, ref)
      requires Explored(start, stack)
      modifies this
      ensures old(visited) <= visited <= index.required.Keys
      ensures infinite ==> Infinite(index, start)
      ensures !infinite ==> Explored(start, stack) && Harmless(index, start, visited, ref)
      decreases index.required.Keys - visited
    {
      var todo := index.required[ref];
      while todo != {}
        invariant todo <= index.required[ref]
        invariant old(visited) <= visited && Explored(start, stack)
        invariant forall k | k in index.required[ref] && k !in todo ::
                    index.target[k] in visited && index.target[k] != start && index.target[k] != ref
        decreases todo
      {
        var key :| key in todo;
        todo := todo - {key};
        var r := index.target[key];
        assert Edge(index, ref, r);
        Extend(start, ref, r, initial);
        if initial.Some? && initial.value == r { return true; }
        if visited != {} && ref == r { return true; }
        if r in visited { continue; }
        ghost var before := visited;
        visited := visited + {r};
        var below := IsInfinite(r, Some(if initial.Some? then initial.value else ref), start, stack + {r});
        if below { return true; }
        assert initial.None? && r == start ==> Edge(index, r, start);
      }
      return false;
    }

    // A step from a node that is the start or reached from it.
    lemma Extend(start: string, ref: string, r: string, initial: Option<string>)
      requires Edge(index, ref, r)
      requires if initial.None? then ref == start else Reaches(index, start, ref)
      ensures Reaches(index, start, r)
      ensures r == start || r == ref ==> Infinite(index, start)
    {
      if initial.None? { EdgeReaches(index, ref, r); } else { ReachesOn(index, start, ref, r); }
    }
  }

  /** Started afresh, the search says true exactly when the start lies on a cycle of required
      edges or something it reaches has an edge to itself, in whatever order the properties
      are visited; a missing reference is never infinite. */
  method IsInfiniteCircularDependency(index: Index, ref: Option<string>) returns (infinite: bool)
    requires Resolves(index) && (ref.Some? ==> ref.value in index.required)
    ensures infinite <==> ref.Some? && Infinite(index, ref.value)
  {
    if ref.None? { return false; }
    var search := new Search(index);
    infinite := search.IsInfinite(ref.value, None, ref.value, {});
    if !infinite { HarmlessIsFinite(index, ref.value, search.visited); }
  }

  // What is not covered: a cycle the start merely leads into, unless it is a direct self-reference.
  lemma InnerCycleIsNotInfinite()
    ensures
      var index := Index(map["a" := {"b"}, "b" := {"c"}, "c" := {"b"}], map["b" := "b", "c" := "c"]);
      Resolves(index) && Reaches(index, "a", "b") && Reaches(index, "b", "b") && !Infinite(index, "a")
  {
    var index := Index(map["a" := {"b"}, "b" := {"c"}, "c" := {"b"}], map["b" := "b", "c" := "c"]);
    assert "b" in index.required["a"] && "c" in index.required["b"] && "b" in index.required["c"];
    EdgeReaches(index, "a", "b");
    EdgeReaches(index, "b", "c");
    ReachesOn(index, "b", "c", "b");
    HarmlessIsFinite(index, "a", {"b", "c"});
  }
}
