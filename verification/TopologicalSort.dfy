/** Kahn's algorithm over the dependsOn lists, as the engine runs it before RunAll. */
module TopologicalSort {
  import opened Common
  import opened ArazzoModel
  import opened DependencyGraph

  // One entry of a dependsOn list: workflow id depends on dep.
  datatype Need = Need(id: string, dep: string)

  function NeedsOf(id: string, deps: seq<string>): seq<Need> {
    seq(|deps|, i requires 0 <= i < |deps| => Need(id, deps[i]))
  }

  // All dependsOn entries of the document, in order.
  function AllNeeds(doc: seq<Workflow>): seq<Need> {
    if doc == [] then []
    else
      var last := doc[|doc| - 1];
      AllNeeds(doc[..|doc| - 1]) + NeedsOf(last.workflowId, last.dependsOn)
  }

  function Ids(doc: seq<Workflow>): set<string> {
    set i | 0 <= i < |doc| :: doc[i].workflowId
  }

  // How often id needs dep.
  function Times(needs: seq<Need>, id: string, dep: string): nat {
    if needs == [] then 0
    else Times(needs[..|needs| - 1], id, dep) + if needs[|needs| - 1] == Need(id, dep) then 1 else 0
  }

  // How many entries of id are known and not done yet.
  function Pending(needs: seq<Need>, known: set<string>, done: set<string>, id: string): nat {
    if needs == [] then 0
    else
      var n := needs[|needs| - 1];
      Pending(needs[..|needs| - 1], known, done, id) + if n.id == id && n.dep in known && n.dep !in done then 1 else 0
  }

  function Count(s: seq<string>, x: string): nat {
    if s == [] then 0 else Count(s[..|s| - 1], x) + if s[|s| - 1] == x then 1 else 0
  }

  function Dependents(adj: map<string, seq<string>>, id: string): seq<string> {
    if id in adj then adj[id] else []
  }

  // ----- counting lemmas -----

  lemma CountSnoc(s: seq<string>, y: string, x: string)
    ensures Count(s + [y], x) == Count(s, x) + if y == x then 1 else 0
  {
    assert (s + [y])[..|s|] == s;
  }

  lemma TimesSnoc(needs: seq<Need>, n: Need, id: string, dep: string)
    ensures Times(needs + [n], id, dep) == Times(needs, id, dep) + if n == Need(id, dep) then 1 else 0
  {
    assert (needs + [n])[..|needs|] == needs;
  }

  lemma PendingSnoc(needs: seq<Need>, n: Need, known: set<string>, done: set<string>, id: string)
    ensures Pending(needs + [n], known, done, id) ==
            Pending(needs, known, done, id) + if n.id == id && n.dep in known && n.dep !in done then 1 else 0
  {
    assert (needs + [n])[..|needs|] == needs;
  }

  lemma {:induction false} PendingBut(needs: seq<Need>, known: set<string>, done: set<string>, id: string, dep: string)
    requires dep in known && dep !in done
    ensures Pending(needs, known, done, id) == Pending(needs, known, done + {dep}, id) + Times(needs, id, dep)
  {
    if needs != [] { PendingBut(needs[..|needs| - 1], known, done, id, dep); }
  }

  lemma {:induction false} NonePending(needs: seq<Need>, known: set<string>, done: set<string>, id: string)
    ensures Pending(needs, known, done, id) == 0 <==> forall d | Need(id, d) in needs && d in known :: d in done
  {
    if needs != [] {
      var rest, n := needs[..|needs| - 1], needs[|needs| - 1];
      NonePending(rest, known, done, id);
      assert needs == rest + [n];
      if Pending(needs, known, done, id) != 0 && Pending(rest, known, done, id) == 0 {
        assert Need(id, n.dep) in needs && n.dep in known && n.dep !in done;
      }
    }
  }

  lemma {:induction false} CountPrefix(s: seq<string>, j: nat, x: string)
    requires j <= |s|
    ensures Count(s[..j], x) <= Count(s, x)
  {
    if j < |s| {
      CountPrefix(s[..|s| - 1], j, x);
      assert s[..|s| - 1][..j] == s[..j];
    } else {
      assert s[..j] == s;
    }
  }

  // ----- adjacency lists and in-degrees -----

  // The dependents of a known id are known, each as often as it needs that id.
  ghost predicate Adjacent(needs: seq<Need>, known: set<string>, adj: map<string, seq<string>>) {
    && adj.Keys <= known
    && (forall d | d in adj :: forall x | x in adj[d] :: x in known)
    && (forall d, x | d in known && x in known :: Count(Dependents(adj, d), x) == Times(needs, x, d))
  }

  ghost predicate Tallied(known: set<string>, adj: map<string, seq<string>>, inDegree: map<string, int>,
                          needs: seq<Need>) {
    && inDegree.Keys == known
    && (forall x | x in known :: inDegree[x] == Pending(needs, known, {}, x))
    && Adjacent(needs, known, adj)
  }

  lemma TallyUnknown(known: set<string>, adj: map<string, seq<string>>, inDegree: map<string, int>,
                     needs: seq<Need>, n: Need)
    requires Tallied(known, adj, inDegree, needs) && n.dep !in known
    ensures Tallied(known, adj, inDegree, needs + [n])
  {
    forall x { PendingSnoc(needs, n, known, {}, x); }
    forall x, d { TimesSnoc(needs, n, x, d); }
  }

  lemma TallyKnown(known: set<string>, adj: map<string, seq<string>>, inDegree: map<string, int>, needs: seq<Need>,
                   n: Need)
    requires Tallied(known, adj, inDegree, needs) && n.dep in known && n.id in known
    ensures
      var adj' := adj[n.dep := Dependents(adj, n.dep) + [n.id]];
      Tallied(known, adj', inDegree[n.id := inDegree[n.id] + 1], needs + [n])
  {
    var adj' := adj[n.dep := Dependents(adj, n.dep) + [n.id]];
    forall x { PendingSnoc(needs, n, known, {}, x); }
    forall x, d | d in known && x in known ensures Count(Dependents(adj', d), x) == Times(needs + [n], x, d) {
      TimesSnoc(needs, n, x, d);
      CountSnoc(Dependents(adj, n.dep), n.id, x);
    }
  }

  // Every id of the document starts with in-degree 0.
  method ZeroDegrees(doc: seq<Workflow>) returns (inDegree: map<string, int>)
    ensures inDegree.Keys == Ids(doc) && forall x | x in inDegree :: inDegree[x] == 0
  {
    inDegree := map[];
    for i := 0 to |doc|
      invariant inDegree.Keys == Ids(doc[..i])
      invariant forall x | x in inDegree :: inDegree[x] == 0
    {
      inDegree := inDegree[doc[i].workflowId := 0];
      assert Ids(doc[..i + 1]) == Ids(doc[..i]) + {doc[i].workflowId};
    }
    assert doc[..|doc|] == doc;
  }

  method CountDegrees(doc: seq<Workflow>) returns (adj: map<string, seq<string>>, inDegree: map<string, int>)
    ensures Tallied(Ids(doc), adj, inDegree, AllNeeds(doc))
  {
    adj := map[];
    inDegree := ZeroDegrees(doc);
    for i := 0 to |doc|
      invariant Tallied(Ids(doc), adj, inDegree, AllNeeds(doc[..i]))
    {
      var wf := doc[i];
      assert wf.workflowId in Ids(doc);
      adj, inDegree := CountNeeds(wf, Ids(doc), adj, inDegree, AllNeeds(doc[..i]));
      assert doc[..i + 1][..i] == doc[..i];
    }
    assert doc[..|doc|] == doc;
  }

  // One entry of a dependsOn list.
  method CountNeed(n: Need, ghost known: set<string>, adj0: map<string, seq<string>>, inDegree0: map<string, int>,
                   ghost needs: seq<Need>)
    returns (adj: map<string, seq<string>>, inDegree: map<string, int>)
    requires Tallied(known, adj0, inDegree0, needs) && n.id in known
    ensures Tallied(known, adj, inDegree, needs + [n])
  {
    if n.dep in inDegree0 {
      TallyKnown(known, adj0, inDegree0, needs, n);
      adj := adj0[n.dep := Dependents(adj0, n.dep) + [n.id]];
      inDegree := inDegree0[n.id := inDegree0[n.id] + 1];
    } else {
      TallyUnknown(known, adj0, inDegree0, needs, n);
      adj, inDegree := adj0, inDegree0;
    }
  }

  // The inner loop: the entries of one dependsOn list.
  method CountNeeds(wf: Workflow, ghost known: set<string>, adj0: map<string, seq<string>>, inDegree0: map<string, int>,
                    ghost needs: seq<Need>)
    returns (adj: map<string, seq<string>>, inDegree: map<string, int>)
    requires Tallied(known, adj0, inDegree0, needs) && wf.workflowId in known
    ensures Tallied(known, adj, inDegree, needs + NeedsOf(wf.workflowId, wf.dependsOn))
  {
    adj, inDegree := adj0, inDegree0;
    ghost var all := NeedsOf(wf.workflowId, wf.dependsOn);
    ghost var sofar := needs;
    for j := 0 to |wf.dependsOn|
      invariant sofar == needs + all[..j]
      invariant Tallied(known, adj, inDegree, sofar)
    {
      assert all[..j + 1] == all[..j] + [Need(wf.workflowId, wf.dependsOn[j])];
      adj, inDegree := CountNeed(Need(wf.workflowId, wf.dependsOn[j]), known, adj, inDegree, sofar);
      sofar := sofar + [all[j]];
    }
    assert all[..|wf.dependsOn|] == all;
  }

  // ----- the queue -----

  // Everything x needs stands in order.
  ghost predicate Served(needs: seq<Need>, known: set<string>, x: string, order: seq<string>) {
    forall d | Need(x, d) in needs && d in known :: d in order
  }

  // queue holds exactly the ids whose in-degree is 0, each after everything it needs.
  ghost predicate QueueInv(needs: seq<Need>, inDegree: map<string, int>, queue: seq<string>) {
    && Distinct(queue)
    && (forall x | x in queue :: x in inDegree)
    && (forall x | x in inDegree :: x in queue <==> inDegree[x] == 0)
    && (forall k | 0 <= k < |queue| :: Served(needs, inDegree.Keys, queue[k], queue[..k]))
  }

  // The in-degrees when the ids in `done` and the first j dependents of id are accounted for.
  ghost predicate DegreeInv(needs: seq<Need>, inDegree: map<string, int>, done: set<string>, list: seq<string>, j: nat)
    requires j <= |list|
  {
    forall x | x in inDegree :: inDegree[x] == Pending(needs, inDegree.Keys, done, x) - Count(list[..j], x)
  }

  // The in-degrees count what the first `head` ids of the queue have not released.
  ghost predicate Settled(needs: seq<Need>, inDegree: map<string, int>, queue: seq<string>, head: nat) {
    head <= |queue| && QueueInv(needs, inDegree, queue) && DegreeInv(needs, inDegree, Elements(queue[..head]), [], 0)
  }

  // The ids that may yet enter the queue.
  function Positive(inDegree: map<string, int>): set<string> {
    set x | x in inDegree && inDegree[x] > 0
  }

  lemma PendingCoversDependents(needs: seq<Need>, known: set<string>, done: set<string>, list: seq<string>, j: nat,
                                id: string)
    requires j < |list| && id in known && id !in done
    requires Count(list, list[j]) == Times(needs, list[j], id)
    ensures Pending(needs, known, done, list[j]) >= Count(list[..j], list[j]) + 1
    ensures Pending(needs, known, done, list[j]) == Count(list[..j], list[j]) + 1 ==>
              Pending(needs, known, done + {id}, list[j]) == 0
  {
    var x := list[j];
    CountPrefix(list, j + 1, x);
    assert list[..j + 1] == list[..j] + [x];
    CountSnoc(list[..j], x, x);
    PendingBut(needs, known, done, x, id);
  }

  // Decrements the in-degree of one dependent, and queues it when that was its last need.
  method Release(ghost needs: seq<Need>, ghost unique: bool, ghost head: nat, ghost list: seq<string>, ghost j: nat,
                 dependent: string, inDegree0: map<string, int>, queue0: seq<string>)
    returns (inDegree: map<string, int>, queue: seq<string>)
    requires j < |list| && list[j] == dependent
    requires dependent in inDegree0 && head < |queue0|
    requires forall x | x in queue0 :: x in inDegree0
    requires unique ==>
               && QueueInv(needs, inDegree0, queue0)
               && DegreeInv(needs, inDegree0, Elements(queue0[..head]), list, j)
               && forall x | x in inDegree0 :: Count(list, x) == Times(needs, x, queue0[head])
    ensures inDegree == inDegree0[dependent := inDegree0[dependent] - 1]
    ensures queue == queue0 + if inDegree[dependent] == 0 then [dependent] else []
    ensures unique ==>
              && QueueInv(needs, inDegree, queue)
              && DegreeInv(needs, inDegree, Elements(queue0[..head]), list, j + 1)
  {
    ghost var done, id := Elements(queue0[..head]), queue0[head];
    inDegree := inDegree0[dependent := inDegree0[dependent] - 1];
    queue := queue0;
    if inDegree[dependent] == 0 {
      queue := queue + [dependent];
    }
    if unique {
      assert inDegree.Keys == inDegree0.Keys;
      PendingCoversDependents(needs, inDegree.Keys, done, list, j, id);
      forall x | x in inDegree
        ensures inDegree[x] == Pending(needs, inDegree.Keys, done, x) - Count(list[..j + 1], x)
      {
        assert list[..j + 1] == list[..j] + [dependent];
        CountSnoc(list[..j], dependent, x);
      }
      if inDegree[dependent] == 0 {
        NonePending(needs, inDegree.Keys, done + {id}, dependent);
        assert Served(needs, inDegree.Keys, dependent, queue0);
        forall k | 0 <= k < |queue| ensures Served(needs, inDegree.Keys, queue[k], queue[..k]) {
          assert queue[..k] == queue0[..k];
        }
      }
    }
  }

  // ----- what the queue says about the graph -----

  lemma {:induction false} NeedInAll(doc: seq<Workflow>, x: string, d: string)
    requires UniqueIds(doc)
    ensures Need(x, d) in AllNeeds(doc) <==> x in GraphOf(doc) && d in GraphOf(doc)[x]
  {
    if doc != [] {
      var rest, last := doc[..|doc| - 1], doc[|doc| - 1];
      NeedInAll(rest, x, d);
      GraphOfKeys(rest, last.workflowId);
      var own := NeedsOf(last.workflowId, last.dependsOn);
      if x == last.workflowId && d in last.dependsOn {
        var i :| 0 <= i < |last.dependsOn| && last.dependsOn[i] == d;
        assert own[i] == Need(x, d);
      }
    }
  }

  lemma {:induction false} IdsAreKeys(doc: seq<Workflow>)
    ensures Ids(doc) == GraphOf(doc).Keys
  {
    forall id { GraphOfKeys(doc, id); }
  }

  lemma QueueIsOrdered(doc: seq<Workflow>, inDegree: map<string, int>, queue: seq<string>)
    requires UniqueIds(doc) && inDegree.Keys == Ids(doc)
    requires QueueInv(AllNeeds(doc), inDegree, queue)
    ensures DependenciesFirst(GraphOf(doc), queue)
  {
    IdsAreKeys(doc);
    forall k, d | 0 <= k < |queue| && Edge(GraphOf(doc), queue[k], d) ensures d in queue[..k] {
      NeedInAll(doc, queue[k], d);
      assert Served(AllNeeds(doc), inDegree.Keys, queue[k], queue[..k]);
    }
  }

  // Ids that never entered the queue need one another in circles.
  lemma LeftOverIsCircular(doc: seq<Workflow>, inDegree: map<string, int>, queue: seq<string>, x: string)
    requires UniqueIds(doc) && inDegree.Keys == Ids(doc)
    requires QueueInv(AllNeeds(doc), inDegree, queue)
    requires forall y | y in inDegree :: inDegree[y] == Pending(AllNeeds(doc), inDegree.Keys, Elements(queue), y)
    requires x in inDegree && x !in queue
    ensures HasCycle(GraphOf(doc))
  {
    IdsAreKeys(doc);
    var stuck := set y | y in inDegree && y !in queue;
    forall y | y in stuck ensures LeadsInto(GraphOf(doc), y, stuck) {
      NonePending(AllNeeds(doc), inDegree.Keys, Elements(queue), y);
      var d :| Need(y, d) in AllNeeds(doc) && d in inDegree && d !in Elements(queue);
      NeedInAll(doc, y, d);
      assert d in stuck && Edge(GraphOf(doc), y, d);
    }
    DeadEndIsCycle(GraphOf(doc), stuck, x);
  }

  // ----- the initial queue -----

  // The ids without a known dependency, in document order; a repeated id is listed as often as it occurs.
  function Free(doc: seq<Workflow>, needs: seq<Need>, known: set<string>): seq<string> {
    if doc == [] then []
    else
      var last := doc[|doc| - 1].workflowId;
      Free(doc[..|doc| - 1], needs, known) + if Pending(needs, known, {}, last) == 0 then [last] else []
  }

  function Roots(doc: seq<Workflow>): seq<string> {
    Free(doc, AllNeeds(doc), Ids(doc))
  }

  lemma {:induction false} FreeElements(doc: seq<Workflow>, needs: seq<Need>, known: set<string>, x: string)
    ensures x in Free(doc, needs, known) <==> x in Ids(doc) && Pending(needs, known, {}, x) == 0
  {
    if doc != [] {
      FreeElements(doc[..|doc| - 1], needs, known, x);
      assert Ids(doc) == Ids(doc[..|doc| - 1]) + {doc[|doc| - 1].workflowId};
    }
  }

  lemma {:induction false} FreeDistinct(doc: seq<Workflow>, needs: seq<Need>, known: set<string>)
    requires UniqueIds(doc)
    ensures Distinct(Free(doc, needs, known))
  {
    if doc != [] {
      FreeDistinct(doc[..|doc| - 1], needs, known);
      FreeElements(doc[..|doc| - 1], needs, known, doc[|doc| - 1].workflowId);
    }
  }

  lemma RootsStartTheQueue(doc: seq<Workflow>, inDegree: map<string, int>)
    requires inDegree.Keys == Ids(doc)
    requires forall x | x in inDegree :: inDegree[x] == Pending(AllNeeds(doc), inDegree.Keys, {}, x)
    ensures forall x | x in Roots(doc) :: x in inDegree
    ensures UniqueIds(doc) ==> QueueInv(AllNeeds(doc), inDegree, Roots(doc))
  {
    var queue := Roots(doc);
    forall x ensures x in queue <==> x in inDegree && inDegree[x] == 0 {
      FreeElements(doc, AllNeeds(doc), Ids(doc), x);
    }
    if UniqueIds(doc) { FreeDistinct(doc, AllNeeds(doc), Ids(doc)); }
    forall k | 0 <= k < |queue| ensures Served(AllNeeds(doc), inDegree.Keys, queue[k], queue[..k]) {
      assert queue[k] in queue;
      NonePending(AllNeeds(doc), inDegree.Keys, {}, queue[k]);
    }
  }

  method InitialQueue(doc: seq<Workflow>, inDegree: map<string, int>) returns (queue: seq<string>)
    requires inDegree.Keys == Ids(doc)
    requires forall x | x in inDegree :: inDegree[x] == Pending(AllNeeds(doc), inDegree.Keys, {}, x)
    ensures queue == Roots(doc)
    ensures forall x | x in queue :: x in inDegree
    ensures UniqueIds(doc) ==> QueueInv(AllNeeds(doc), inDegree, queue)
  {
    queue := [];
    for i := 0 to |doc|
      invariant queue == Free(doc[..i], AllNeeds(doc), Ids(doc))
    {
      assert doc[i].workflowId in Ids(doc) && doc[..i + 1][..i] == doc[..i];
      if inDegree[doc[i].workflowId] == 0 {
        queue := queue + [doc[i].workflowId];
      }
    }
    assert doc[..|doc|] == doc;
    RootsStartTheQueue(doc, inDegree);
  }

  // All dependents of queue[head] released, it counts as done.
  lemma NextHead(needs: seq<Need>, inDegree: map<string, int>, queue: seq<string>, head: nat, list: seq<string>)
    requires head < |queue| && queue[head] in inDegree && Distinct(queue)
    requires DegreeInv(needs, inDegree, Elements(queue[..head]), list, |list|)
    requires forall x | x in inDegree :: Count(list, x) == Times(needs, x, queue[head])
    ensures DegreeInv(needs, inDegree, Elements(queue[..head + 1]), [], 0)
  {
    var done := Elements(queue[..head]);
    assert Elements(queue[..head + 1]) == done + {queue[head]};
    assert list[..|list|] == list;
    forall x | x in inDegree {
      PendingBut(needs, inDegree.Keys, done, x, queue[head]);
    }
  }

  // The loop over the dependents of queue[head].
  method ReleaseAll(ghost needs: seq<Need>, ghost unique: bool, ghost head: nat, list: seq<string>,
                    inDegree0: map<string, int>, queue0: seq<string>)
    returns (inDegree: map<string, int>, queue: seq<string>)
    requires head < |queue0| && forall x | x in queue0 :: x in inDegree0
    requires forall x | x in list :: x in inDegree0
    requires unique ==> Settled(needs, inDegree0, queue0, head)
    requires forall x | x in inDegree0 :: Count(list, x) == Times(needs, x, queue0[head])
    ensures inDegree.Keys == inDegree0.Keys && queue0 <= queue
    ensures list == [] ==> queue == queue0
    ensures forall x | x in queue :: x in inDegree
    ensures Positive(inDegree) < Positive(inDegree0) || (Positive(inDegree) == Positive(inDegree0) && queue == queue0)
    ensures unique ==> Settled(needs, inDegree, queue, head + 1)
  {
    inDegree, queue := inDegree0, queue0;
    for j := 0 to |list|
      invariant queue0 <= queue && inDegree.Keys == inDegree0.Keys
      invariant j == 0 ==> queue == queue0
      invariant forall x | x in queue :: x in inDegree
      invariant unique ==> QueueInv(needs, inDegree, queue)
      invariant unique ==> DegreeInv(needs, inDegree, Elements(queue0[..head]), list, j)
      invariant || Positive(inDegree) < Positive(inDegree0)
                || (Positive(inDegree) == Positive(inDegree0) && queue == queue0)
    {
      ghost var before := inDegree;
      assert queue[..head] == queue0[..head];
      inDegree, queue := Release(needs, unique, head, list, j, list[j], inDegree, queue);
      if inDegree[list[j]] == 0 { assert list[j] in Positive(before) && list[j] !in Positive(inDegree); }
      assert Positive(inDegree) <= Positive(before);
    }
    if unique {
      assert queue[..head] == queue0[..head];
      NextHead(needs, inDegree, queue, head, list);
    }
  }

  lemma FullQueue(doc: seq<Workflow>, inDegree: map<string, int>, queue: seq<string>)
    requires UniqueIds(doc) && inDegree.Keys == Ids(doc)
    requires QueueInv(AllNeeds(doc), inDegree, queue) && |queue| == |inDegree|
    ensures Elements(queue) == GraphOf(doc).Keys && !HasCycle(GraphOf(doc))
  {
    DistinctSize(queue);
    IdsAreKeys(doc);
    assert Elements(queue) <= inDegree.Keys;
    SubsetEqual(Elements(queue), inDegree.Keys);
    QueueIsOrdered(doc, inDegree, queue);
    OrderedHasNoCycle(GraphOf(doc), queue);
  }

  lemma ShortQueue(doc: seq<Workflow>, inDegree: map<string, int>, queue: seq<string>)
    requires UniqueIds(doc) && inDegree.Keys == Ids(doc)
    requires QueueInv(AllNeeds(doc), inDegree, queue) && |queue| != |inDegree|
    requires forall y | y in inDegree :: inDegree[y] == Pending(AllNeeds(doc), inDegree.Keys, Elements(queue), y)
    ensures HasCycle(GraphOf(doc))
  {
    DistinctSize(queue);
    assert Elements(queue) <= inDegree.Keys && Elements(queue) != inDegree.Keys;
    var x :| x in inDegree && x !in queue;
    LeftOverIsCircular(doc, inDegree, queue, x);
  }

  // What an exhausted queue means.
  lemma QueueDecides(doc: seq<Workflow>, inDegree: map<string, int>, queue: seq<string>)
    requires UniqueIds(doc) && inDegree.Keys == Ids(doc)
    requires Settled(AllNeeds(doc), inDegree, queue, |queue|)
    ensures |queue| != |inDegree| <==> HasCycle(GraphOf(doc))
    ensures |queue| == |inDegree| ==> Elements(queue) == GraphOf(doc).Keys
    ensures DependenciesFirst(GraphOf(doc), queue)
  {
    QueueIsOrdered(doc, inDegree, queue);
    if |queue| == |inDegree| {
      FullQueue(doc, inDegree, queue);
    } else {
      assert queue[..|queue|] == queue;
      ShortQueue(doc, inDegree, queue);
    }
  }

  // ----- the sort -----

  // No workflow depends on a root, so none of them releases anything.
  ghost predicate RootsAreUnneeded(doc: seq<Workflow>) {
    forall x, d | d in Roots(doc) :: Need(x, d) !in AllNeeds(doc)
  }

  lemma {:induction false} NeverNeeded(needs: seq<Need>, x: string, d: string)
    ensures Times(needs, x, d) > 0 <==> Need(x, d) in needs
  {
    if needs != [] { NeverNeeded(needs[..|needs| - 1], x, d); }
  }

  lemma LastCounts(list: seq<string>)
    requires list != []
    ensures list[|list| - 1] in list && Count(list, list[|list| - 1]) > 0
  {
    assert list[|list| - 1] in list;
  }

  lemma RootReleasesNothing(doc: seq<Workflow>, adj: map<string, seq<string>>, d: string)
    requires Adjacent(AllNeeds(doc), Ids(doc), adj)
    requires RootsAreUnneeded(doc) && d in Roots(doc) && d in Ids(doc)
    ensures Dependents(adj, d) == []
  {
    var list := Dependents(adj, d);
    if list != [] {
      LastCounts(list);
      NeverNeeded(AllNeeds(doc), list[|list| - 1], d);
    }
  }

  /** What the sort answers. With unique ids: the circular error exactly when the dependency graph
      restricted to known ids has a cycle, and otherwise every id once, after all its known
      dependencies. With any ids, when no root is needed: the roots, unless their number, repeats
      included, differs from the number of different ids. */
  ghost predicate Sorts(doc: seq<Workflow>, r: Result<seq<string>, Error>) {
    && (r.Err? ==> r.error == CircularDependency)
    && (UniqueIds(doc) ==> (r.Err? <==> HasCycle(GraphOf(doc))))
    && (UniqueIds(doc) && r.Ok? ==>
          && Distinct(r.value) && Elements(r.value) == GraphOf(doc).Keys
          && DependenciesFirst(GraphOf(doc), r.value))
    && (RootsAreUnneeded(doc) ==> r == if |Roots(doc)| != |Ids(doc)| then Err(CircularDependency) else Ok(Roots(doc)))
  }

  // What the loop keeps with `head` ids taken off the queue: its ids are known, and what holds of
  // unique ids and of unneeded roots.
  ghost predicate LoopInv(doc: seq<Workflow>, unique: bool, inDegree: map<string, int>, queue: seq<string>, head: nat) {
    && head <= |queue| && inDegree.Keys == Ids(doc)
    && (forall x | x in queue :: x in inDegree)
    && (unique ==> Settled(AllNeeds(doc), inDegree, queue, head))
    && (RootsAreUnneeded(doc) ==> queue == Roots(doc))
  }

  // One turn of the loop.
  method Turn(doc: seq<Workflow>, ghost unique: bool, adj: map<string, seq<string>>, inDegree0: map<string, int>,
              queue0: seq<string>, head: nat)
    returns (inDegree: map<string, int>, queue: seq<string>)
    requires LoopInv(doc, unique, inDegree0, queue0, head) && head < |queue0|
    requires Adjacent(AllNeeds(doc), Ids(doc), adj)
    ensures LoopInv(doc, unique, inDegree, queue, head + 1) && queue0 <= queue
    ensures Positive(inDegree) < Positive(inDegree0) || (Positive(inDegree) == Positive(inDegree0) && queue == queue0)
  {
    var list := Dependents(adj, queue0[head]);
    assert queue0[head] in queue0;
    if RootsAreUnneeded(doc) { RootReleasesNothing(doc, adj, queue0[head]); }
    inDegree, queue := ReleaseAll(AllNeeds(doc), unique, head, list, inDegree0, queue0);
  }

  lemma NextInOrder(order: seq<string>, queue0: seq<string>, queue: seq<string>)
    requires |order| < |queue0| && order == queue0[..|order|] && queue0 <= queue
    ensures order + [queue0[|order|]] == queue[..|order| + 1]
  {
  }

  // The loop over the growing queue.
  method Drain(doc: seq<Workflow>, ghost unique: bool, adj: map<string, seq<string>>, inDegree0: map<string, int>,
               queue0: seq<string>)
    returns (inDegree: map<string, int>, order: seq<string>)
    requires LoopInv(doc, unique, inDegree0, queue0, 0)
    requires Adjacent(AllNeeds(doc), Ids(doc), adj)
    ensures LoopInv(doc, unique, inDegree, order, |order|)
  {
    var queue := queue0;
    inDegree, order := inDegree0, [];
    while |order| < |queue|
      invariant |order| <= |queue| && order == queue[..|order|]
      invariant LoopInv(doc, unique, inDegree, queue, |order|)
      decreases Positive(inDegree), |queue| - |order|
    {
      var id := queue[|order|];
      ghost var before := queue;
      inDegree, queue := Turn(doc, unique, adj, inDegree, queue, |order|);
      NextInOrder(order, before, queue);
      order := order + [id];
    }
    assert order == queue;
  }

  method TopologicalSort(doc: seq<Workflow>) returns (r: Result<seq<string>, Error>)
    ensures Sorts(doc, r)
  {
    ghost var unique := UniqueIds(doc);
    var adj, inDegree := CountDegrees(doc);
    var queue := InitialQueue(doc, inDegree);
    assert Elements(queue[..0]) == {};
    var order;
    inDegree, order := Drain(doc, unique, adj, inDegree, queue);
    if unique { QueueDecides(doc, inDegree, order); }
    if |order| != |inDegree| {
      return Err(CircularDependency);
    }
    return Ok(order);
  }

  // ----- repeated ids -----

  function IdList(doc: seq<Workflow>): (ids: seq<string>) {
    seq(|doc|, i requires 0 <= i < |doc| => doc[i].workflowId)
  }

  // Workflows with these ids that depend on nothing.
  function Unrelated(ids: seq<string>): (doc: seq<Workflow>)
    ensures IdList(doc) == ids
  {
    seq(|ids|, i requires 0 <= i < |ids| => Workflow(ids[i], [], [], false, [], []))
  }

  lemma {:induction false} UnrelatedNeedNothing(doc: seq<Workflow>, known: set<string>)
    requires forall i | 0 <= i < |doc| :: doc[i].dependsOn == []
    ensures AllNeeds(doc) == [] && Free(doc, [], known) == IdList(doc)
  {
    if doc != [] {
      UnrelatedNeedNothing(doc[..|doc| - 1], known);
    }
  }

  lemma {:induction false} NoNeedNoEdge(doc: seq<Workflow>, id: string)
    requires forall i | 0 <= i < |doc| :: doc[i].dependsOn == []
    ensures id in GraphOf(doc) ==> GraphOf(doc)[id] == []
  {
    if doc != [] { NoNeedNoEdge(doc[..|doc| - 1], id); }
  }

  lemma UnrelatedHaveNoCycle(ids: seq<string>)
    ensures !HasCycle(GraphOf(Unrelated(ids)))
  {
    var g := GraphOf(Unrelated(ids));
    if HasCycle(g) {
      var p :| Cycle(g, p);
      assert Link(g, p, 0);
      NoNeedNoEdge(Unrelated(ids), p[0]);
    }
  }

  /** The sort reports a cycle exactly when there is one, whatever the workflows depend on,
      exactly when the ids are unique. */
  lemma RightExactlyOnUniqueIds(ids: seq<string>, sort: seq<Workflow> -> Result<seq<string>, Error>)
    requires forall doc :: Sorts(doc, sort(doc))
    ensures Distinct(ids) <==>
              forall doc: seq<Workflow> | IdList(doc) == ids :: sort(doc).Err? <==> HasCycle(GraphOf(doc))
  {
    if Distinct(ids) {
      forall doc: seq<Workflow> | IdList(doc) == ids ensures sort(doc).Err? <==> HasCycle(GraphOf(doc)) {
        forall i: nat, j: nat | 0 <= i < j < |doc| ensures doc[i].workflowId != doc[j].workflowId {
          assert ids[i] == doc[i].workflowId && ids[j] == doc[j].workflowId;
        }
        assert Sorts(doc, sort(doc));
      }
    } else {
      var doc := Unrelated(ids);
      UnrelatedNeedNothing(doc, Ids(doc));
      UnrelatedHaveNoCycle(ids);
      assert Ids(doc) == Elements(ids) by {
        forall x ensures x in Ids(doc) <==> x in ids {
          if x in ids { var i :| 0 <= i < |ids| && ids[i] == x; assert doc[i].workflowId == x; }
        }
      }
      if |Elements(ids)| == |ids| { SizeMakesDistinct(ids); }
      assert Sorts(doc, sort(doc)) && sort(doc).Err?;
    }
  }

  // The id a twice, and b, which depends on itself.
  function Hiding(a: string, b: string): seq<Workflow> {
    Unrelated([a, a]) + [Workflow(b, [b], [], false, [], [])]
  }

  lemma HidingNeeds(a: string, b: string)
    ensures AllNeeds(Hiding(a, b)) == [Need(b, b)]
  {
    var doc := Hiding(a, b);
    assert doc[..2] == Unrelated([a, a]);
    UnrelatedNeedNothing(doc[..2], {});
    assert NeedsOf(b, [b]) == [Need(b, b)];
  }

  lemma HidingRoots(a: string, b: string)
    requires a != b
    ensures Free(Hiding(a, b), [Need(b, b)], {a, b}) == [a, a]
  {
    var doc, needs := Hiding(a, b), [Need(b, b)];
    NonePending(needs, {a, b}, {}, a);
    NonePending(needs, {a, b}, {}, b);
    assert Need(b, b) in needs;
    assert doc[..2] == Unrelated([a, a]) && doc[..2][..1] == Unrelated([a]);
    assert Unrelated([a])[..0] == [];
    assert Free(Unrelated([a]), needs, {a, b}) == [a];
  }

  /** A repeated id can also hide a cycle: a is listed twice, which makes up for b. */
  lemma RepeatedIdHidesCycle(a: string, b: string, r: Result<seq<string>, Error>)
    requires a != b && Sorts(Hiding(a, b), r)
    ensures r == Ok([a, a]) && HasCycle(GraphOf(Hiding(a, b)))
  {
    var doc := Hiding(a, b);
    HidingNeeds(a, b);
    HidingRoots(a, b);
    assert Ids(doc) == {a, b} by { assert doc[0].workflowId == a && doc[2].workflowId == b; }
    assert Cycle(GraphOf(doc), [b, b]) by { assert Link(GraphOf(doc), [b, b], 0); }
  }
}
