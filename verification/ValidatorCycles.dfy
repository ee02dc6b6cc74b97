/** The validator's own cycle check: depth-first search with a recursion stack. */
module ValidatorCycles {
  import opened Common
  import opened ArazzoModel
  import opened DependencyGraph
  import TopologicalSort

  function Deps(g: Graph, id: string): seq<string> {
    if id in g then g[id] else []
  }

  // Everything the search can reach: the known ids and whatever they name.
  ghost function Nodes(g: Graph): set<string> {
    g.Keys + set id, d | id in g && d in g[id] :: d
  }

  lemma DepIsNode(g: Graph, id: string, j: nat)
    requires j < |Deps(g, id)|
    ensures Deps(g, id)[j] in Nodes(g) && Deps(g, id)[j] in Deps(g, id)
  {
    assert id in g && Deps(g, id)[j] in g[id];
  }

  // A chain of dependsOn entries, whether or not the last one is a known id.
  ghost predicate Trail(g: Graph, p: seq<string>) {
    forall k | 0 <= k < |p| - 1 :: Names(g, p, k)
  }

  ghost predicate Names(g: Graph, p: seq<string>, k: int)
    requires 0 <= k < |p| - 1
  {
    p[k + 1] in Deps(g, p[k])
  }

  lemma TrailSnoc(g: Graph, p: seq<string>, d: string)
    requires Trail(g, p)
    requires p != [] ==> d in Deps(g, p[|p| - 1])
    ensures Trail(g, p + [d])
  {
    var q := p + [d];
    forall k | 0 <= k < |q| - 1 ensures Names(g, q, k) {
      if k < |p| - 1 { assert Names(g, p, k); }
    }
  }

  // A trail back to one of its own nodes runs through known ids only.
  lemma TrailBackIsLasso(g: Graph, p: seq<string>, d: string)
    requires p != [] && Trail(g, p + [d]) && d in p
    ensures Lasso(g, p + [d])
  {
    var q := p + [d];
    var i :| 0 <= i < |p| && p[i] == d;
    assert q[i] == d && q[|p|] == d;
    forall k | 0 <= k < |p| ensures q[k] in g {
      assert Names(g, q, k);
    }
    forall k | 0 <= k < |q| - 1 ensures Link(g, q, k) {
      assert Names(g, q, k);
      assert q[k] in g && q[k + 1] in g;
    }
    assert q[..|p|] == p;
  }

  // The recursion stack is the current path, everything else visited is finished, and what
  // is finished has its dependencies finished before it.
  ghost predicate Searched(g: Graph, visited: set<string>, recStack: set<string>, finished: seq<string>,
                           path: seq<string>)
  {
    && recStack == Elements(path)
    && Trail(g, path)
    && visited == Elements(path) + Elements(finished)
    && Elements(path) !! Elements(finished)
    && InOrder(g, finished)
  }

  lemma ElementsSnoc(s: seq<string>, x: string)
    ensures Elements(s + [x]) == Elements(s) + {x}
  {
  }

  lemma Enter(g: Graph, visited: set<string>, recStack: set<string>, finished: seq<string>, path: seq<string>,
              id: string)
    requires Searched(g, visited, recStack, finished, path) && id !in visited
    requires path != [] ==> id in Deps(g, path[|path| - 1])
    ensures Searched(g, visited + {id}, recStack + {id}, finished, path + [id])
  {
    TrailSnoc(g, path, id);
    ElementsSnoc(path, id);
  }

  lemma Leave(g: Graph, visited: set<string>, recStack: set<string>, finished: seq<string>, path: seq<string>,
              id: string)
    requires Searched(g, visited, recStack, finished, path + [id]) && id !in path
    requires forall i | 0 <= i < |Deps(g, id)| :: Deps(g, id)[i] in finished
    ensures Searched(g, visited, recStack - {id}, finished + [id], path)
  {
    FinishedSnoc(g, finished, id);
    TrailPrefix(g, path, id);
    ElementsSnoc(path, id);
    ElementsSnoc(finished, id);
  }

  lemma TrailPrefix(g: Graph, p: seq<string>, d: string)
    requires Trail(g, p + [d])
    ensures Trail(g, p)
  {
    forall k | 0 <= k < |p| - 1 ensures Names(g, p, k) {
      assert Names(g, p + [d], k);
    }
  }

  lemma BackOnPath(g: Graph, visited: set<string>, recStack: set<string>, finished: seq<string>, path: seq<string>,
                   d: string)
    requires Searched(g, visited, recStack, finished, path) && path != []
    requires d in Deps(g, path[|path| - 1]) && d in recStack
    ensures Lasso(g, path + [d])
  {
    TrailSnoc(g, path, d);
    TrailBackIsLasso(g, path, d);
  }

  class CycleSearch {
    const adj: Graph
    var visited: set<string>
    var recStack: set<string>
    var errors: seq<seq<string>>  // the paths of the recorded circular errors
    ghost var finished: seq<string>  // in the order their calls returned false

    constructor (adj: Graph)
      ensures this.adj == adj && visited == {} && recStack == {} && errors == [] && finished == []
    {
      this.adj := adj;
      visited, recStack, errors, finished := {}, {}, [], [];
    }

    // Holds while no error is recorded.
    ghost predicate OnPath(path: seq<string>)
      reads this
    {
      Searched(adj, visited, recStack, finished, path)
    }

    method Dfs(id: string, path0: seq<string>) returns (found: bool)
      requires id !in visited && visited <= Nodes(adj) && id in Nodes(adj)
      requires errors == [] ==> OnPath(path0) && (path0 != [] ==> id in Deps(adj, path0[|path0| - 1]))
      modifies this
      ensures old(visited) + {id} <= visited <= Nodes(adj)
      ensures !found ==> errors == old(errors)
      ensures found ==> |errors| == |old(errors)| + 1 && errors[..|old(errors)|] == old(errors)
      ensures old(errors) == [] && found ==> Lasso(adj, errors[0])
      ensures old(errors) == [] && !found ==> OnPath(path0) && old(finished) <= finished && id in finished
      decreases Nodes(adj) - visited, 0
    {
      if errors == [] { Enter(adj, visited, recStack, finished, path0, id); }
      visited := visited + {id};
      recStack := recStack + {id};
      var path := path0 + [id];
      var deps := Deps(adj, id);
      for j := 0 to |deps|
        invariant old(visited) + {id} <= visited <= Nodes(adj)
        invariant errors == old(errors)
        invariant errors == [] ==> OnPath(path) && old(finished) <= finished
        invariant errors == [] ==> forall i | 0 <= i < j :: deps[i] in finished
      {
        DepIsNode(adj, id, j);
        found := Follow(deps[j], path);
        if found { return; }
      }
      if errors == [] {
        Leave(adj, visited, recStack, finished, path0, id);
        finished := finished + [id];
      }
      recStack := recStack - {id};
      return false;
    }

    // One dependency of the last id of the path.
    method Follow(dep: string, path: seq<string>) returns (found: bool)
      requires visited <= Nodes(adj) && dep in Nodes(adj) && path != []
      requires errors == [] ==> OnPath(path) && dep in Deps(adj, path[|path| - 1])
      modifies this
      ensures old(visited) <= visited <= Nodes(adj)
      ensures !found ==> errors == old(errors)
      ensures found ==> |errors| == |old(errors)| + 1 && errors[..|old(errors)|] == old(errors)
      ensures old(errors) == [] && found ==> Lasso(adj, errors[0])
      ensures old(errors) == [] && !found ==> OnPath(path) && old(finished) <= finished && dep in finished
      decreases Nodes(adj) - visited, 1
    {
      if dep !in visited {
        found := Dfs(dep, path);
        return;
      }
      if dep in recStack {
        if errors == [] { BackOnPath(adj, visited, recStack, finished, path, dep); }
        errors := errors + [path + [dep]];
        return true;
      }
      return false;
    }

    // One search from every id not yet visited, the ids taken in any order.
    method CheckAll()
      requires visited == {} && recStack == {} && errors == [] && finished == []
      modifies this
      ensures errors != [] <==> HasCycle(adj)
      ensures errors != [] ==> Lasso(adj, errors[0])
    {
      var todo := adj.Keys;
      while todo != {}
        invariant todo <= adj.Keys <= visited + todo
        invariant visited <= Nodes(adj)
        invariant errors == [] ==> OnPath([])
        invariant errors != [] ==> Lasso(adj, errors[0])
        decreases todo
      {
        var id :| id in todo;
        todo := todo - {id};
        if id !in visited {
          var found := Dfs(id, []);
        }
      }
      if errors == [] {
        AllFinishedHasNoCycle(adj, finished);
      } else {
        LassoIsCycle(adj, errors[0]);
      }
    }
  }

  // Every id comes after all its dependencies.
  ghost predicate InOrder(g: Graph, finished: seq<string>) {
    finished != [] ==>
      var n := |finished| - 1;
      InOrder(g, finished[..n]) && AllFinished(g, finished[n], finished[..n])
  }

  ghost predicate AllFinished(g: Graph, id: string, before: seq<string>) {
    forall d | d in Deps(g, id) :: d in before
  }

  lemma FinishedSnoc(g: Graph, finished: seq<string>, id: string)
    requires InOrder(g, finished) && AllFinished(g, id, finished)
    ensures InOrder(g, finished + [id])
  {
    assert (finished + [id])[..|finished|] == finished;
  }

  lemma {:induction false} InOrderAt(g: Graph, finished: seq<string>, k: nat)
    requires InOrder(g, finished) && k < |finished|
    ensures AllFinished(g, finished[k], finished[..k])
  {
    var n := |finished| - 1;
    if k < n {
      InOrderAt(g, finished[..n], k);
      assert finished[..n][..k] == finished[..k];
    }
  }

  lemma AllFinishedHasNoCycle(g: Graph, finished: seq<string>)
    requires InOrder(g, finished)
    requires g.Keys <= Elements(finished)
    ensures !HasCycle(g)
  {
    forall k, d | 0 <= k < |finished| && Edge(g, finished[k], d) ensures d in finished[..k] {
      InOrderAt(g, finished, k);
    }
    OrderedHasNoCycle(g, finished);
  }

  // The workflows the validator looks at: those with an id.
  function Named(doc: seq<Workflow>): seq<Workflow> {
    if doc == [] then []
    else
      var last := doc[|doc| - 1];
      Named(doc[..|doc| - 1]) + if last.workflowId != "" then [last] else []
  }

  lemma {:induction false} NamedAll(doc: seq<Workflow>)
    requires forall i | 0 <= i < |doc| :: doc[i].workflowId != ""
    ensures Named(doc) == doc
  {
    if doc != [] { NamedAll(doc[..|doc| - 1]); }
  }

  lemma NamedNext(doc: seq<Workflow>, i: nat)
    requires i < |doc|
    ensures GraphOf(Named(doc[..i + 1])) ==
            if doc[i].workflowId == "" then GraphOf(Named(doc[..i]))
            else GraphOf(Named(doc[..i]))[doc[i].workflowId := doc[i].dependsOn]
  {
    var next, named := doc[..i + 1], Named(doc[..i]);
    assert next[..|next| - 1] == doc[..i] && next[|next| - 1] == doc[i];
    assert (named + [doc[i]])[..|named|] == named && named + [] == named;
  }

  method BuildAdjacency(doc: seq<Workflow>) returns (adj: Graph)
    ensures adj == GraphOf(Named(doc))
  {
    adj := map[];
    for i := 0 to |doc|
      invariant adj == GraphOf(Named(doc[..i]))
    {
      NamedNext(doc, i);
      if doc[i].workflowId != "" {
        adj := adj[doc[i].workflowId := doc[i].dependsOn];
      }
    }
    assert doc[..|doc|] == doc;
  }

  /** A circular error is recorded exactly when the dependencies of the named workflows have
      a cycle, and the first path recorded is a dependency chain that runs into itself. */
  method CheckCircularDependencies(doc: seq<Workflow>) returns (errors: seq<seq<string>>)
    ensures errors != [] <==> HasCycle(GraphOf(Named(doc)))
    ensures errors != [] ==> Lasso(GraphOf(Named(doc)), errors[0])
  {
    var adj := BuildAdjacency(doc);
    var search := new CycleSearch(adj);
    search.CheckAll();
    errors := search.errors;
  }

  /** With unique, non-empty ids the validator and the engine's sort agree on every document. */
  method ValidatorAgreesWithSort(doc: seq<Workflow>) returns (circular: bool, r: Result<seq<string>, Error>)
    requires UniqueIds(doc) && forall i | 0 <= i < |doc| :: doc[i].workflowId != ""
    ensures circular <==> r.Err?
    ensures circular <==> HasCycle(GraphOf(doc))
  {
    NamedAll(doc);
    var errors := CheckCircularDependencies(doc);
    circular := errors != [];
    r := TopologicalSort.TopologicalSort(doc);
  }
}
