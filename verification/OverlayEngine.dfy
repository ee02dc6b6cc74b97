/** Applying an overlay's actions to a document in place: copy, then update, then remove. */
module OverlayEngine {
  import opened Common
  import opened YamlNode
  import opened OverlayMerge
  import opened OverlayTree
  import opened OverlayNode
  import opened OverlayForest
  import opened OverlayPrune
  import opened OverlayIndex
  import opened OverlayRemove
  import opened OverlayWorld
  import opened OverlayRelation
  import opened OverlayMerging
  import opened OverlayQuery
  import opened OverlaySteps

  // ----- removing -----

  ghost function SetOf(nodes: seq<Node>): set<Node> {
    set n | n in nodes
  }

  // The forest after removals, with removed trees beside it.
  ghost predicate Pruned(forest: seq<Tree>, gone: set<Node>, after: seq<Tree>) {
    |forest| <= |after| && after[..|forest|] == Prune(forest, gone)
  }

  lemma {:induction false} PruneAppend(a: seq<Tree>, b: seq<Tree>, gone: set<Node>)
    ensures Prune(a + b, gone) == Prune(a, gone) + Prune(b, gone)
    decreases |a|
  {
    if a == [] {
      assert a + b == b;
    } else {
      assert (a + b)[1..] == a[1..] + b;
      PruneAppend(a[1..], b, gone);
    }
  }

  // Trees without the nodes stay as they are.
  lemma {:induction false} PruneNone(ts: seq<Tree>, gone: set<Node>)
    requires Paired(ts) && NodesOf(ts) !! gone
    ensures Prune(ts, gone) == ts
    decreases ts
  {
    if ts != [] {
      PruneNone(ts[0].kids, gone);
      PruneNone(ts[1..], gone);
      KeepAll(ts[0].keys, ts[0].kids, gone);
    }
  }

  lemma {:induction false} KeepAll(keys: seq<Tree>, kids: seq<Tree>, gone: set<Node>)
    requires NodesOf(kids) !! gone
    ensures KeptKids(kids, gone) == kids && (|keys| == |kids| ==> KeptKeys(keys, kids, gone) == keys)
    decreases |kids|
  {
    if kids != [] { KeepAll(if keys == [] then [] else keys[1..], kids[1..], gone); }
  }

  lemma OneMoreRemoved(forest: seq<Tree>, gone: set<Node>, now: seq<Tree>, node: Node, after: seq<Tree>)
    requires Pruned(forest, gone, now) && Removed(now, node, after)
    ensures Pruned(forest, gone + {node}, after)
  {
    var n := |forest|;
    assert now == now[..n] + now[n..];
    PruneAppend(now[..n], now[n..], {node});
    PruneTwice(forest, gone, {node});
    assert after[..n] == after[..|now|][..n];
    assert Prune(now, {node})[..n] == Prune(now[..n], {node});
  }

  /** Exactly the given nodes go away from the document, wherever they are children. */
  method ApplyRemoveAction(index: ParentIndex, nodes: seq<Node>, ghost w: World) returns (ghost after: World)
    requires Apart(w.forest, w.keys) && Holds(w.forest) && Serves(index, w.forest)
    requires forall n | n in nodes :: Removable(n, index, w.forest)
    modifies NodesOf(w.forest)
    ensures Apart(after.forest, after.keys) && Holds(after.forest) && Serves(index, after.forest)
    ensures after.keys == w.keys && NodesOf(after.forest) == NodesOf(w.forest)
    ensures Pruned(w.forest, SetOf(nodes), after.forest)
  {
    NothingRemoved(w.forest, nodes);
    after := w;
    var i: nat := 0;
    while i < |nodes|
      invariant i <= |nodes| && Removing(index, nodes, i, w, after) == true
    {
      after := RemoveNext(index, nodes, i, w, after);
      i := i + 1;
    }
    assert nodes[..|nodes|] == nodes;
  }

  lemma NothingRemoved(forest: seq<Tree>, nodes: seq<Node>)
    requires Holds(forest)
    ensures Pruned(forest, SetOf(nodes[..0]), forest)
  {
    HeldIsPaired(forest);
    PruneNone(forest, {});
    assert forest[..|forest|] == forest && SetOf(nodes[..0]) == {};
  }

  // The heap is where removing the first n nodes has come to.
  ghost predicate Removing(index: ParentIndex, nodes: seq<Node>, n: nat, start: World, w: World)
    reads AllOf(w.forest)
  {
    && Apart(w.forest, w.keys) && Holds(w.forest) && Serves(index, w.forest)
    && w.keys == start.keys && NodesOf(w.forest) == NodesOf(start.forest)
    && n <= |nodes| && Pruned(start.forest, SetOf(nodes[..n]), w.forest)
  }

  method RemoveNext(index: ParentIndex, nodes: seq<Node>, i: nat, ghost start: World, ghost w: World)
    returns (ghost after: World)
    requires i < |nodes| && Removing(index, nodes, i, start, w) && Removable(nodes[i], index, start.forest)
    modifies NodesOf(start.forest)
    ensures Removing(index, nodes, i + 1, start, after)
  {
    SameRoot(start.forest, SetOf(nodes[..i]), w.forest);
    ghost var now := RemoveNode(index, nodes[i], w.forest, w.keys);
    OneMoreRemoved(start.forest, SetOf(nodes[..i]), w.forest, nodes[i], now);
    assert SetOf(nodes[..i + 1]) == SetOf(nodes[..i]) + {nodes[i]};
    after := World(now, w.keys);
  }

  lemma SameRoot(forest: seq<Tree>, gone: set<Node>, now: seq<Tree>)
    requires Pruned(forest, gone, now)
    ensures forest != [] ==> now != [] && now[0].node == forest[0].node
  {
    if forest != [] { assert now[..|forest|][0] == now[0]; }
  }

  // The updates are not among the removed.
  lemma HostsLeft(w: World, root: Node, updates: seq<Tree>, gone: set<Node>, after: seq<Tree>)
    requires Hosts(w, root, updates) && Pruned(w.forest, gone, after) && Paired(w.forest) && gone !! NodesOf(updates)
    ensures Hosts(World(after, w.keys), root, updates)
  {
    SameRoot(w.forest, gone, after);
    var front := Prune(w.forest, gone);
    assert forall i | 0 <= i < |front| :: after[i] == front[i];
    forall k | 0 <= k < |updates| ensures front[1 + k] == updates[k] {
      KidSets(updates, k);
      KidPaired(w.forest, 1 + k);
      PruneAt(w.forest, gone, 1 + k);
      PruneNone([updates[k]], gone);
    }
  }

  lemma {:induction false} PruneAt(ts: seq<Tree>, gone: set<Node>, i: nat)
    requires i < |ts|
    ensures Prune(ts, gone)[i] == Prune([ts[i]], gone)[0]
  {
    if i > 0 { PruneAt(ts[1..], gone, i - 1); }
  }

  // ----- the parent index -----

  // The index serves all removals from the document.
  ghost predicate IndexGood(index: ParentIndex, forest: seq<Tree>) {
    && forest != [] && Serves(index, forest)
    && forall n | n in NodesOf([forest[0]]) :: Removable(n, index, forest)
  }

  lemma {:induction false} ParentIsInside(ts: seq<Tree>, parent: Node, index: ParentIndex, n: Node)
    requires Agrees(ts, index) && IsParent(parent, ts, index) && n in NodesOf(ts) && n in index
    ensures index[n] == parent || index[n] in NodesOf(ts)
    decreases ts
  {
    if n != ts[0].node {
      if n in NodesOf(ts[0].kids) {
        ParentIsInside(ts[0].kids, ts[0].node, index, n);
      } else {
        assert forall i | 0 <= i < |ts| - 1 :: ts[1..][i] == ts[i + 1];
        ParentIsInside(ts[1..], parent, index, n);
      }
    } else {
      assert index[ts[0].node] == parent;
    }
  }

  /** A fresh index of the document serves the whole forest. */
  lemma FreshIndexIsGood(index: ParentIndex, w: World)
    requires w.forest != [] && Apart(w.forest, w.keys) && FullIndex(w.forest[0], index)
    requires index.Keys <= NodesOf(w.forest[0].kids) + KeysOf([w.forest[0]])
    ensures IndexGood(index, w.forest)
  {
    var t, rest := w.forest[0], w.forest[1..];
    assert w.forest == [t] + rest;
    SingleSets(t);
    AppendSets([t], rest);
    NewAgrees(rest, index);
    AppendAgrees([t], rest, index);
    forall n | n in index && n in NodesOf(w.forest) ensures index[n] in NodesOf(w.forest) {
      ParentIsInside(t.kids, t.node, index, n);
    }
  }

  // Merges leave the index good for all nodes that were there.
  lemma MergesServe(index: ParentIndex, w: World, after: World, nodes: seq<Node>)
    requires IndexGood(index, w.forest) && Agrees(after.forest, index) && NodesOf(w.forest) <= NodesOf(after.forest)
    requires after.forest != [] && after.forest[0].node == w.forest[0].node
    requires forall n | n in News(w, after) :: n !in index
    requires forall n | n in nodes :: n in NodesOf([w.forest[0]])
    ensures Serves(index, after.forest) && forall n | n in nodes :: Removable(n, index, after.forest)
  {}

  /** Removals keep the index good: it need not be rebuilt for the next one. */
  lemma RemovalsKeepIndex(index: ParentIndex, w: World, gone: set<Node>, after: seq<Tree>)
    requires IndexGood(index, w.forest) && Serves(index, after) && Pruned(w.forest, gone, after)
    requires NodesOf(w.forest) <= NodesOf(after)
    ensures IndexGood(index, after)
  {
    SameRoot(w.forest, gone, after);
    var t := w.forest[0];
    assert w.forest == [t] + w.forest[1..];
    PruneAppend([t], w.forest[1..], gone);
    assert after[0] == Prune([t], gone)[0] && Prune([t], gone) == [Prune([t], gone)[0]];
    PruneSets([t], gone);
    forall n | n in NodesOf([after[0]]) ensures Removable(n, index, after) {
      assert Removable(n, index, w.forest);
    }
  }

  // ----- actions -----

  datatype Action = Action(target: string, update: Node?, copy: string, remove: bool)

  // What an action did: the stages of its copy and of its update, and the outcome.
  datatype Effect = Effect(copied: seq<Stage>, updated: seq<Stage>, after: World)

  // The value of an update.
  ghost predicate UpdateIs(updates: seq<Tree>, update: Node, value: Value) {
    exists k :: 0 <= k < |updates| && updates[k].node == update && Strip(updates[k]) == value
  }

  ghost predicate Updates(update: Node?, updates: seq<Tree>, copied: World, nodes: seq<Node>, stages: seq<Stage>) {
    if update == null then stages == []
    else exists value :: UpdateIs(updates, update, value) && UpdatesWith(value, copied, nodes, stages)
  }

  // A node that an update may not go to.
  ghost predicate Primitive(w: World, nodes: seq<Node>) {
    exists n :: n in nodes && n in NodesOf(w.forest) && KindIn(w, n).Scalar?
  }

  // The copy does not come to the end of the targets.
  ghost predicate CopyFails(paths: JsonPath, copy: string, w: World, nodes: seq<Node>, e: Effect)
    requires w.forest != []
  {
    copy != "" && (!paths.accepts(copy) || |Answer(paths, copy, w.forest[0])| != 1 || |e.copied| != |nodes|)
  }

  // Updating and removing, after the copy.
  ghost predicate Changed(action: Action, updates: seq<Tree>, copied: World, nodes: seq<Node>, stages: seq<Stage>,
                          after: World, error: Option<OverlayError>)
  {
    if action.update != null && Primitive(copied, nodes) then error == Some(PrimitiveTarget)
    else
      && error == None
      && Updates(action.update, updates, copied, nodes, stages)
      && var updated := Last(copied, stages);
         if action.remove then Pruned(updated.forest, SetOf(nodes), after.forest) else after == updated
  }

  /** What an action comes to on a document: an error exactly for an invalid path, a copy that fails, or
      a scalar target of an update; and otherwise copies first, then updates, then removals, on the
      nodes that the target path selects before any of these and on nothing else. */
  ghost predicate Outcome(paths: JsonPath, action: Action, updates: seq<Tree>, w: World, e: Effect,
                          error: Option<OverlayError>)
  {
    && w.forest != []
    && var nodes := Answer(paths, action.target, w.forest[0]);
       if action.target == "" then error == None && e == Effect([], [], w)
       else if !paths.accepts(action.target) then error == Some(InvalidJSONPath)
       else if nodes == [] then error == None && e == Effect([], [], w)
       else if CopyFails(paths, action.copy, w, nodes, e) then
         error.Some? && CopyOutcome(paths, action.copy, w, nodes, e.copied, error)
       else
         && (if action.copy == "" then e.copied == []
             else CopyOutcome(paths, action.copy, w, nodes, e.copied, None))
         && Changed(action, updates, Last(w, e.copied), nodes, e.updated, e.after, error)
  }

  // ----- when an action is refused -----

  // The path selects a scalar.
  ghost predicate SelectsScalar(paths: JsonPath, path: string, v: Value) {
    exists pos :: pos in paths.select(path, v) && Within(v, pos) && At(v, pos).fields.kind.Scalar?
  }

  ghost predicate Refuses(paths: JsonPath, action: Action, v: Value) {
    && action.target != ""
    && (!paths.accepts(action.target) || (action.update != null && SelectsScalar(paths, action.target, v)))
  }

  // The kind of a selected node is that of the value at its position.
  lemma SelectedKind(w: World, pos: Position)
    requires w.forest != [] && Distinct(w.forest) && Paired(w.forest) && Within(Strip(w.forest[0]), pos)
    ensures TreeAt(w.forest[0], pos).node in NodesOf(w.forest)
    ensures KindIn(w, TreeAt(w.forest[0], pos).node) == At(Strip(w.forest[0]), pos).fields.kind
  {
    KidPaired(w.forest, 0);
    KidSets(w.forest, 0);
    SubOfKid(w.forest, 0);
    TreeIsThere(w.forest[0], pos);
    SubInSub(w.forest, w.forest[0].node, TreeAt(w.forest[0], pos).node);
  }

  // What is selected, number by number.
  ghost predicate SelectedAt(paths: JsonPath, path: string, w: World, v: Value, i: nat)
    requires w.forest != [] && v == Strip(w.forest[0])
  {
    var all, nodes := paths.select(path, v), Answer(paths, path, w.forest[0]);
    && i < |all| == |nodes| && Within(v, all[i]) && nodes[i] in NodesOf(w.forest)
    && KindIn(w, nodes[i]) == At(v, all[i]).fields.kind
  }

  lemma AllSelectedAt(paths: JsonPath, path: string, w: World)
    requires w.forest != [] && Distinct(w.forest) && Paired(w.forest) && paths.Sane()
    ensures forall i: nat | i < |paths.select(path, Strip(w.forest[0]))| ::
              SelectedAt(paths, path, w, Strip(w.forest[0]), i)
  {
    var v := Strip(w.forest[0]);
    forall i: nat | i < |paths.select(path, v)| ensures SelectedAt(paths, path, w, v, i) {
      assert paths.select(path, v)[i] in paths.select(path, v);
      SelectedKind(w, paths.select(path, v)[i]);
    }
  }

  lemma PrimitiveIsSelected(paths: JsonPath, path: string, w: World)
    requires w.forest != [] && Distinct(w.forest) && Paired(w.forest) && paths.Sane()
    ensures Primitive(w, Answer(paths, path, w.forest[0])) <==> SelectsScalar(paths, path, Strip(w.forest[0]))
  {
    var v := Strip(w.forest[0]);
    var all, nodes := paths.select(path, v), Answer(paths, path, w.forest[0]);
    AllSelectedAt(paths, path, w);
    if Primitive(w, nodes) {
      var n :| n in nodes && n in NodesOf(w.forest) && KindIn(w, n).Scalar?;
      var i :| 0 <= i < |nodes| && nodes[i] == n;
      assert SelectedAt(paths, path, w, v, i) && all[i] in all;
    }
    if SelectsScalar(paths, path, v) {
      var pos :| pos in all && Within(v, pos) && At(v, pos).fields.kind.Scalar?;
      var i :| 0 <= i < |all| && all[i] == pos;
      assert SelectedAt(paths, path, w, v, i) && nodes[i] in nodes;
    }
  }

  // An action without a copy is refused as its input says.
  ghost predicate Judged(paths: JsonPath, action: Action, w: World, error: Option<OverlayError>) {
    w.forest != [] && (action.copy == "" ==> (error.Some? <==> Refuses(paths, action, Strip(w.forest[0]))))
  }

  /** Whether an action without a copy is refused can be told from the document's value beforehand: its
      path is invalid, or it is an update and its path selects a scalar. */
  lemma RefusedExactly(paths: JsonPath, action: Action, updates: seq<Tree>, w: World, e: Effect,
                       error: Option<OverlayError>)
    requires Outcome(paths, action, updates, w, e, error)
    requires Distinct(w.forest) && Paired(w.forest) && paths.Sane()
    ensures Judged(paths, action, w, error)
  {
    PrimitiveIsSelected(paths, action.target, w);
    assert Last(w, []) == w;
    if Refuses(paths, action, Strip(w.forest[0])) && paths.accepts(action.target) {
      var pos :| pos in paths.select(action.target, Strip(w.forest[0]));
      assert Answer(paths, action.target, w.forest[0]) != [];
    }
  }

  // ----- updating and copying -----

  // The nodes an update may go to.
  method ValidateTargets(nodes: seq<Node>) returns (ok: bool)
    ensures ok <==> forall n | n in nodes :: !n.kind.Scalar?
  {
    for i := 0 to |nodes|
      invariant forall k | 0 <= k < i :: !nodes[k].kind.Scalar?
    {
      if nodes[i].kind.Scalar? { return false; }
    }
    return true;
  }

  lemma KindsOfAll(w: World, nodes: seq<Node>, updates: seq<Tree>, index: map<Node, Node>)
    requires Standing(w, index) && Targets(w, nodes, updates)
    ensures Primitive(w, nodes) <==> exists n :: n in nodes && n.kind.Scalar?
  {
    forall n | n in nodes ensures n in NodesOf(w.forest) && n.kind == KindIn(w, n) { KindsAre(w, n, index); }
  }

  /** The update, if there is one: refused exactly when a target is a scalar, and then nothing is done. */
  method UpdatePhase(nodes: seq<Node>, update: Node?, ghost w: World, ghost root: Node, ghost updates: seq<Tree>,
                     ghost index: map<Node, Node>)
    returns (error: Option<OverlayError>, ghost after: World, ghost stages: seq<Stage>)
    requires Standing(w, index) && Hosts(w, root, updates) && Targets(w, nodes, updates)
    requires update != null ==> exists k :: 0 <= k < |updates| && updates[k].node == update
    modifies NodesOf(w.forest)
    ensures error.Some? <==> update != null && Primitive(w, nodes)
    ensures error.Some? ==> error == Some(PrimitiveTarget) && after == w && stages == []
    ensures Standing(after, index) && Hosts(after, root, updates) && Grows(w, after)
    ensures forall n | n in News(w, after) :: fresh(n)
    ensures after == Last(w, stages) && (error.None? ==> Updates(update, updates, w, nodes, stages))
  {
    error, after, stages := None, w, [];
    if update == null { return; }
    NodesExist(w.forest);
    KindsOfAll(w, nodes, updates, index);
    var valid := ValidateTargets(nodes);
    if !valid { error := Some(PrimitiveTarget); return; }
    ghost var k :| 0 <= k < |updates| && updates[k].node == update;
    ghost var value := Strip(updates[k]);
    after, stages := ApplyUpdateAction(nodes, update, w, root, updates, k, index);
    assert UpdateIs(updates, update, value) && UpdatesWith(value, w, nodes, stages);
  }

  // The copy, if there is one.
  method CopyPhase(root: Node, nodes: seq<Node>, copy: string, paths: JsonPath, ghost w: World,
                   ghost updates: seq<Tree>, ghost index: map<Node, Node>)
    returns (error: Option<OverlayError>, ghost after: World, ghost stages: seq<Stage>)
    requires Standing(w, index) && Hosts(w, root, updates) && Targets(w, nodes, updates) && paths.Sane()
    modifies NodesOf(w.forest)
    ensures if copy == "" then error == None && stages == [] else CopyOutcome(paths, copy, w, nodes, stages, error)
    ensures error.None? ==> Standing(after, index) && Hosts(after, root, updates) && Grows(w, after)
    ensures error.None? ==> after == Last(w, stages) && forall n | n in News(w, after) :: fresh(n)
  {
    error, after, stages := None, w, [];
    if copy != "" {
      error, after, stages := ApplyCopyAction(root, nodes, copy, paths, w, updates, index);
    }
  }

  // The removal, if there is one.
  method RemovePhase(index: ParentIndex, nodes: seq<Node>, remove: bool, ghost start: World, ghost w: World,
                     ghost root: Node, ghost updates: seq<Tree>)
    returns (ghost after: World)
    requires Hosts(start, root, updates) && Hosts(w, root, updates) && Grows(start, w) && Targets(w, nodes, updates)
    requires Apart(w.forest, w.keys) && Holds(w.forest)
    requires remove ==>
               && IndexGood(index, start.forest) && Agrees(w.forest, index)
               && (forall n | n in News(start, w) :: n !in index)
               && (forall n | n in nodes :: n in NodesOf([start.forest[0]]))
    modifies NodesOf(w.forest)
    ensures Apart(after.forest, after.keys) && Holds(after.forest) && Hosts(after, root, updates)
    ensures NodesOf(after.forest) == NodesOf(w.forest) && after.keys == w.keys
    ensures if remove then Pruned(w.forest, SetOf(nodes), after.forest) && Serves(index, after.forest) else after == w
  {
    after := w;
    if remove {
      HeldIsPaired(w.forest);
      MergesServe(index, start, w, nodes);
      after := ApplyRemoveAction(index, nodes, w);
      HostsLeft(w, root, updates, SetOf(nodes), after.forest);
    }
  }

  // The document with everything beside it, between actions.
  ghost predicate Sound(w: World, root: Node, updates: seq<Tree>)
    reads AllOf(w.forest)
  {
    Apart(w.forest, w.keys) && Holds(w.forest) && Hosts(w, root, updates)
  }

  // The updates of the actions are known.
  ghost predicate Known(action: Action, updates: seq<Tree>) {
    action.update != null ==> exists k :: 0 <= k < |updates| && updates[k].node == action.update
  }

  // What an action leaves.
  ghost predicate Leaves(w: World, e: Effect, root: Node, updates: seq<Tree>, remove: bool, index: ParentIndex)
    reads AllOf(e.after.forest)
  {
    && Sound(e.after, root, updates) && Grows(w, e.after)
    && (remove ==> Serves(index, e.after.forest))
  }

  lemma Matched(w: World, root: Node, updates: seq<Tree>, nodes: seq<Node>)
    requires Apart(w.forest, w.keys) && Hosts(w, root, updates)
    requires forall n | n in nodes :: n in NodesOf([w.forest[0]])
    ensures Targets(w, nodes, updates)
  {
    KidSets(w.forest, 0);
    forall n | n in nodes ensures n !in NodesOf(updates) {
      if n in NodesOf(updates) {
        var k := KidWith(updates, n);
        KidsApart(w.forest, 0, 1 + k);
      }
    }
  }

  lemma TargetsStay(w: World, after: World, nodes: seq<Node>, updates: seq<Tree>)
    requires Targets(w, nodes, updates) && Grows(w, after)
    ensures Targets(after, nodes, updates)
  {}

  // The index as far as it is needed: none without a removal.
  ghost predicate Guides(action: Action, index: ParentIndex, guide: ParentIndex, w: World, nodes: seq<Node>) {
    && (action.remove ==> IndexGood(index, w.forest) && guide == index)
    && forall n | n in nodes :: w.forest != [] && n in NodesOf([w.forest[0]])
  }

  // The update and the removal.
  method UpdateAndRemove(root: Node, action: Action, index: ParentIndex, nodes: seq<Node>, ghost w: World,
                         ghost copied: World, ghost updates: seq<Tree>, ghost guide: ParentIndex)
    returns (error: Option<OverlayError>, ghost stages: seq<Stage>, ghost after: World)
    requires Hosts(w, root, updates) && Guides(action, index, guide, w, nodes) && Known(action, updates)
    requires Standing(copied, guide) && Hosts(copied, root, updates) && Targets(copied, nodes, updates)
    requires Grows(w, copied) && forall n | n in News(w, copied) :: n !in index
    modifies NodesOf(copied.forest)
    ensures Changed(action, updates, copied, nodes, stages, after, error)
    ensures error.None? ==> Sound(after, root, updates) && Grows(copied, after)
    ensures error.None? ==> forall n | n in News(copied, after) :: fresh(n)
    ensures error.None? && action.remove ==> Serves(index, after.forest)
  {
    ghost var updated;
    error, updated, stages := UpdatePhase(nodes, action.update, copied, root, updates, guide);
    after := updated;
    if error.Some? { return; }
    NewAfter(w, copied, updated);
    assert forall n | n in News(w, updated) :: n in News(w, copied) || n in News(copied, updated);
    assert forall n | n in NodesOf(updated.forest) :: n in NodesOf(copied.forest) || n in News(copied, updated);
    TargetsStay(copied, updated, nodes, updates);
    after := RemovePhase(index, nodes, action.remove, w, updated, root, updates);
  }

  lemma CopyRefused(paths: JsonPath, action: Action, updates: seq<Tree>, w: World, e: Effect,
                    error: Option<OverlayError>)
    requires w.forest != [] && action.target != "" && paths.accepts(action.target) && action.copy != ""
    requires Answer(paths, action.target, w.forest[0]) != [] && error.Some?
    requires CopyOutcome(paths, action.copy, w, Answer(paths, action.target, w.forest[0]), e.copied, error)
    ensures Outcome(paths, action, updates, w, e, error)
  {}

  lemma CopyDone(paths: JsonPath, action: Action, updates: seq<Tree>, w: World, nodes: seq<Node>, e: Effect,
                 error: Option<OverlayError>)
    requires w.forest != [] && action.target != "" && paths.accepts(action.target)
    requires nodes == Answer(paths, action.target, w.forest[0]) && nodes != []
    requires if action.copy == "" then e.copied == []
             else CopyOutcome(paths, action.copy, w, nodes, e.copied, None)
    requires Changed(action, updates, Last(w, e.copied), nodes, e.updated, e.after, error)
    ensures Outcome(paths, action, updates, w, e, error)
  {}

  // What the copy, if there is one, has come to.
  ghost predicate Copied(paths: JsonPath, action: Action, root: Node, updates: seq<Tree>, w: World,
                         nodes: seq<Node>, copies: seq<Stage>, copied: World, guide: ParentIndex)
    reads AllOf(copied.forest)
  {
    && w.forest != []
    && (if action.copy == "" then copies == [] else CopyOutcome(paths, action.copy, w, nodes, copies, None))
    && Standing(copied, guide) && Hosts(copied, root, updates) && Grows(w, copied) && copied == Last(w, copies)
  }

  // The nodes that the target path selects, of which there are some.
  ghost predicate Selected(paths: JsonPath, action: Action, w: World, nodes: seq<Node>) {
    && w.forest != [] && action.target != "" && paths.accepts(action.target)
    && nodes == Answer(paths, action.target, w.forest[0]) && nodes != []
  }

  // What follows the copy.
  method Proceed(root: Node, action: Action, ghost paths: JsonPath, index: ParentIndex, nodes: seq<Node>,
                 ghost w: World, ghost copies: seq<Stage>, ghost copied: World, ghost updates: seq<Tree>,
                 ghost guide: ParentIndex)
    returns (error: Option<OverlayError>, ghost e: Effect)
    requires Copied(paths, action, root, updates, w, nodes, copies, copied, guide)
    requires Hosts(w, root, updates) && Guides(action, index, guide, w, nodes) && Known(action, updates)
    requires Selected(paths, action, w, nodes) && Targets(w, nodes, updates)
    requires forall n | n in News(w, copied) :: n !in index
    modifies NodesOf(w.forest) + News(w, copied)
    ensures Outcome(paths, action, updates, w, e, error)
    ensures error.None? ==> Leaves(w, e, root, updates, action.remove, index)
    ensures error.None? ==> forall n | n in News(w, e.after) :: n in News(w, copied) || fresh(n)
  {
    TargetsStay(w, copied, nodes, updates);
    assert forall n | n in NodesOf(copied.forest) :: n in NodesOf(w.forest) || n in News(w, copied);
    ghost var stages, after;
    error, stages, after := UpdateAndRemove(root, action, index, nodes, w, copied, updates, guide);
    e := Effect(copies, stages, after);
    CopyDone(paths, action, updates, w, nodes, e, error);
    if error.None? {
      NewAfter(w, copied, after);
      assert forall n | n in News(w, after) :: n in News(w, copied) || n in News(copied, after);
    }
  }

  // The three phases on the selected nodes.
  method PerformAction(root: Node, action: Action, paths: JsonPath, index: ParentIndex, nodes: seq<Node>,
                       ghost w: World, ghost updates: seq<Tree>)
    returns (error: Option<OverlayError>, ghost e: Effect)
    requires Sound(w, root, updates) && Known(action, updates) && Selected(paths, action, w, nodes) && paths.Sane()
    requires forall n | n in nodes :: n in NodesOf([w.forest[0]])
    requires action.remove ==> IndexGood(index, w.forest)
    modifies NodesOf(w.forest)
    ensures Outcome(paths, action, updates, w, e, error)
    ensures error.None? ==> Leaves(w, e, root, updates, action.remove, index)
    ensures error.None? ==> forall n | n in News(w, e.after) :: fresh(n)
  {
    ghost var guide := if action.remove then index else map[];
    if !action.remove { NewAgrees(w.forest, guide); }
    Matched(w, root, updates, nodes);
    ghost var copied, copies;
    error, copied, copies := CopyPhase(root, nodes, action.copy, paths, w, updates, guide);
    e := Effect(copies, [], w);
    if error.Some? {
      CopyRefused(paths, action, updates, w, e, error);
      return;
    }
    assert forall n | n in News(w, copied) :: fresh(n);
    error, e := Proceed(root, action, paths, index, nodes, w, copies, copied, updates, guide);
    assert error.None? ==> forall n | n in News(w, e.after) :: n in News(w, copied) || fresh(n);
  }

  /** One action, as `Outcome` says. */
  method ApplyAction(root: Node, action: Action, paths: JsonPath, index: ParentIndex, ghost w: World,
                     ghost updates: seq<Tree>)
    returns (error: Option<OverlayError>, ghost e: Effect)
    requires Sound(w, root, updates) && Known(action, updates) && paths.Sane()
    requires action.remove ==> IndexGood(index, w.forest)
    modifies NodesOf(w.forest)
    ensures Outcome(paths, action, updates, w, e, error)
    ensures error.None? ==> Leaves(w, e, root, updates, action.remove, index)
    ensures error.None? ==> forall n | n in News(w, e.after) :: fresh(n)
  {
    error, e := None, Effect([], [], w);
    if action.target == "" { return; }
    if !paths.accepts(action.target) { error := Some(InvalidJSONPath); return; }
    KidHolds(w.forest, 0);
    NodesExist(w.forest);
    var nodes := Query(root, paths, action.target, w.forest[0]);
    if |nodes| == 0 { return; }
    error, e := PerformAction(root, action, paths, index, nodes, w, updates);
  }

  // ----- the overlay -----

  ghost function After(start: World, effects: seq<Effect>): World {
    if effects == [] then start else effects[|effects| - 1].after
  }

  // Every action came to what it should on the document that the ones before it left.
  ghost predicate Applied(paths: JsonPath, start: World, actions: seq<Action>, updates: seq<Tree>,
                          effects: seq<Effect>)
    decreases |effects|
  {
    && |effects| == |actions|
    && (effects != [] ==>
          var n := |effects| - 1;
          && Applied(paths, start, actions[..n], updates, effects[..n])
          && Outcome(paths, actions[n], updates, After(start, effects[..n]), effects[n], None)
          && Judged(paths, actions[n], After(start, effects[..n]), None))
  }

  lemma OneMoreAction(paths: JsonPath, start: World, actions: seq<Action>, updates: seq<Tree>,
                      effects: seq<Effect>, i: nat, e: Effect)
    requires i < |actions| && Applied(paths, start, actions[..i], updates, effects)
    requires Outcome(paths, actions[i], updates, After(start, effects), e, None)
    requires Judged(paths, actions[i], After(start, effects), None)
    ensures Applied(paths, start, actions[..i + 1], updates, effects + [e]) && After(start, effects + [e]) == e.after
  {
    assert (effects + [e])[..i] == effects && actions[..i + 1][..i] == actions[..i];
  }

  // An action that only removes, or does nothing, keeps the index good.
  lemma IndexStaysGood(paths: JsonPath, action: Action, updates: seq<Tree>, w: World, e: Effect,
                       index: ParentIndex)
    requires Outcome(paths, action, updates, w, e, None) && action.copy == "" && action.update == null
    requires IndexGood(index, w.forest) && Grows(w, e.after)
    requires action.remove ==> Serves(index, e.after.forest)
    ensures IndexGood(index, e.after.forest)
  {
    var nodes := Answer(paths, action.target, w.forest[0]);
    if action.remove && action.target != "" && nodes != [] {
      RemovalsKeepIndex(index, w, SetOf(nodes), e.after.forest);
    }
  }

  // One action, with the parent index refreshed before it and outdated after it as needed.
  method ApplyNext(root: Node, action: Action, paths: JsonPath, lastIndex: ParentIndex, wasStale: bool,
                   ghost w: World, ghost updates: seq<Tree>)
    returns (error: Option<OverlayError>, index: ParentIndex, stale: bool, ghost e: Effect)
    requires Sound(w, root, updates) && Known(action, updates) && paths.Sane()
    requires !wasStale ==> IndexGood(lastIndex, w.forest)
    modifies NodesOf(w.forest)
    ensures Outcome(paths, action, updates, w, e, error) && Judged(paths, action, w, error)
    ensures error.None? ==> Sound(e.after, root, updates) && Grows(w, e.after)
    ensures error.None? ==> forall n | n in News(w, e.after) :: fresh(n)
    ensures error.None? && !stale ==> IndexGood(index, e.after.forest)
  {
    index, stale := lastIndex, wasStale;
    if action.remove && stale {
      NodesExist(w.forest);
      index := Refresh(root, w, updates);
      stale := false;
    }
    HeldIsPaired(w.forest);
    error, e := ApplyAction(root, action, paths, index, w, updates);
    RefusedExactly(paths, action, updates, w, e, error);
    if error.Some? { return; }
    if action.update != null || action.copy != "" {
      stale := true;
    } else if !stale {
      IndexStaysGood(paths, action, updates, w, e, index);
    }
  }

  method Refresh(root: Node, ghost w: World, ghost updates: seq<Tree>) returns (index: ParentIndex)
    requires Sound(w, root, updates)
    ensures IndexGood(index, w.forest) && Sound(w, root, updates)
  {
    KidHolds(w.forest, 0);
    KidSets(w.forest, 0);
    NodesExist(w.forest);
    index := NewParentIndex(root, w.forest[0]);
    FreshIndexIsGood(index, w);
  }

  // Where applying the first n actions has come to.
  ghost predicate Come(paths: JsonPath, start: World, w: World, actions: seq<Action>, n: nat,
                       updates: seq<Tree>, effects: seq<Effect>)
  {
    && n <= |actions| && Grows(start, w)
    && Applied(paths, start, actions[..n], updates, effects) && w == After(start, effects)
  }

  ghost predicate Underway(paths: JsonPath, start: World, w: World, root: Node, actions: seq<Action>, n: nat,
                           updates: seq<Tree>, effects: seq<Effect>)
    reads AllOf(w.forest)
  {
    Sound(w, root, updates) && Come(paths, start, w, actions, n, updates, effects)
  }

  lemma ActionDone(paths: JsonPath, start: World, w: World, actions: seq<Action>, i: nat,
                   updates: seq<Tree>, effects: seq<Effect>, e: Effect)
    requires Come(paths, start, w, actions, i, updates, effects) && i < |actions|
    requires Outcome(paths, actions[i], updates, w, e, None) && Grows(w, e.after) && Judged(paths, actions[i], w, None)
    ensures Come(paths, start, e.after, actions, i + 1, updates, effects + [e])
    ensures forall n | n in News(start, e.after) :: n in News(start, w) || n in News(w, e.after)
  {
    OneMoreAction(paths, start, actions, updates, effects, i, e);
    NewAfter(start, w, e.after);
  }

  // An action within the loop.
  method TakeAction(root: Node, actions: seq<Action>, i: nat, paths: JsonPath, lastIndex: ParentIndex,
                    wasStale: bool, ghost start: World, ghost w: World, ghost updates: seq<Tree>,
                    ghost effects: seq<Effect>)
    returns (error: Option<OverlayError>, index: ParentIndex, stale: bool, ghost e: Effect)
    requires i < |actions| && Known(actions[i], updates) && paths.Sane()
    requires Underway(paths, start, w, root, actions, i, updates, effects)
    requires !wasStale ==> IndexGood(lastIndex, w.forest)
    modifies NodesOf(start.forest) + News(start, w)
    ensures Outcome(paths, actions[i], updates, w, e, error) && Judged(paths, actions[i], w, error)
    ensures error.None? ==> Underway(paths, start, e.after, root, actions, i + 1, updates, effects + [e])
    ensures error.None? ==> forall n | n in News(start, e.after) :: n in News(start, w) || fresh(n)
    ensures error.None? && !stale ==> IndexGood(index, e.after.forest)
  {
    error, index, stale, e := ApplyNext(root, actions[i], paths, lastIndex, wasStale, w, updates);
    if error.None? { ActionDone(paths, start, w, actions, i, updates, effects, e); }
  }

  /** The whole overlay: all actions one after the other, up to the first one that is refused. The
      parent index is built for the first removal, and again only after an action with a copy or an
      update; even so every removal is exact. */
  method Apply(root: Node, actions: seq<Action>, paths: JsonPath, ghost start: World, ghost updates: seq<Tree>)
    returns (error: Option<OverlayError>, ghost effects: seq<Effect>, ghost last: Effect)
    requires Sound(start, root, updates) && paths.Sane() && forall a | a in actions :: Known(a, updates)
    modifies NodesOf(start.forest)
    ensures error.None? ==>
              && Applied(paths, start, actions, updates, effects)
              && Sound(After(start, effects), root, updates)
    ensures error.Some? ==>
              && |effects| < |actions| && Applied(paths, start, actions[..|effects|], updates, effects)
              && Outcome(paths, actions[|effects|], updates, After(start, effects), last, error)
              && Judged(paths, actions[|effects|], After(start, effects), error)
  {
    ghost var w := start;
    var index: ParentIndex := map[];
    var stale := true;
    error, effects, last := None, [], Effect([], [], start);
    var i: nat := 0;
    while i < |actions|
      invariant i <= |actions| && error == None && |effects| == i
      invariant Underway(paths, start, w, root, actions, i, updates, effects) == true
      invariant forall n | n in News(start, w) :: fresh(n)
      invariant !stale ==> IndexGood(index, w.forest)
    {
      ghost var before := w;
      error, index, stale, last := TakeAction(root, actions, i, paths, index, stale, start, before, updates, effects);
      if error.Some? { return; }
      assert forall n | n in News(start, last.after) :: n in News(start, before) || fresh(n);
      effects, w := effects + [last], last.after;
      i := i + 1;
    }
    assert actions[..|actions|] == actions;
  }
}
