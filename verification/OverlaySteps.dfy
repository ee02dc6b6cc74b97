/** The parts of an overlay action on the matched nodes: copying, updating and removing. */
module OverlaySteps {
  import opened Common
  import opened YamlNode
  import opened OverlayMerge
  import opened OverlayTree
  import opened OverlayForest
  import opened OverlayPrune
  import opened OverlayIndex
  import opened OverlayRemove
  import opened OverlayWorld
  import opened OverlayRelation
  import opened OverlayKeyPath
  import opened OverlayMerging
  import opened OverlayQuery

  // ----- the document and the updates -----

  // The document is first, and the updates follow it unchanged.
  ghost predicate Hosts(w: World, root: Node, updates: seq<Tree>) {
    && 1 + |updates| <= |w.forest|
    && w.forest[0].node == root
    && forall k | 0 <= k < |updates| :: w.forest[1 + k] == updates[k]
  }

  // The nodes may be merged into: they are not the updates'.
  ghost predicate Targets(w: World, nodes: seq<Node>, updates: seq<Tree>) {
    forall n | n in nodes :: n in NodesOf(w.forest) && n !in NodesOf(updates)
  }

  lemma HostsOn(w: World, after: World, node: Node, s: Tree, root: Node, updates: seq<Tree>)
    requires Hosts(w, root, updates) && Replaced(w, after, node, s) && node !in NodesOf(updates)
    ensures Hosts(after, root, updates)
  {
    var front := Replace(w.forest, node, s);
    assert forall i | 0 <= i < |front| :: after.forest[i] == front[i];
    ReplaceRoots(w.forest, node, s, 0);
    forall k | 0 <= k < |updates| ensures front[1 + k] == updates[k] {
      KidSets(updates, k);
      ReplaceAt(w.forest, node, s, 1 + k);
      ReplaceNothing([updates[k]], node, s);
    }
  }

  // An update is a tree of its own.
  lemma UpdateAlone(w: World, root: Node, updates: seq<Tree>, k: nat, node: Node)
    requires Apart(w.forest, w.keys) && Hosts(w, root, updates) && k < |updates|
    requires node in NodesOf(w.forest) && node !in NodesOf(updates)
    ensures updates[k].node in NodesOf(w.forest) && Sub(w.forest, updates[k].node) == updates[k]
    ensures NodesOf([Sub(w.forest, node)]) !! NodesOf([updates[k]])
  {
    SubOfKid(w.forest, 1 + k);
    KidSets(updates, k);
    var i := KidWith(w.forest, node);
    SubOfKid(w.forest, i);
    SubInSub(w.forest, w.forest[i].node, node);
    SubSets([w.forest[i]], node);
    KidsApart(w.forest, i, 1 + k);
  }

  // ----- stages -----

  // The outcome of one merge: the world after it, and the target's subtree in it.
  datatype Stage = Stage(after: World, merged: Tree)

  ghost function Last(start: World, stages: seq<Stage>): World {
    if stages == [] then start else stages[|stages| - 1].after
  }

  // One target's subtree is replaced by its merge with a value; nothing else changes.
  ghost predicate MergedAt(before: World, after: World, node: Node, value: Value, s: Tree) {
    Replaced(before, after, node, s) && Strip(s) == Merge(Strip(Sub(before.forest, node)), value)
  }

  // Each stage follows from the one before by a merge into the next target.
  ghost predicate Merges(start: World, stages: seq<Stage>, nodes: seq<Node>, value: Value)
    decreases |stages|
  {
    && |stages| == |nodes|
    && (stages != [] ==>
          var n := |stages| - 1;
          && Merges(start, stages[..n], nodes[..n], value)
          && MergedAt(Last(start, stages[..n]), stages[n].after, nodes[n], value, stages[n].merged))
  }

  lemma MergesOneMore(start: World, stages: seq<Stage>, nodes: seq<Node>, value: Value, i: nat, stage: Stage)
    requires i < |nodes| && Merges(start, stages, nodes[..i], value)
    requires MergedAt(Last(start, stages), stage.after, nodes[i], value, stage.merged)
    ensures Merges(start, stages + [stage], nodes[..i + 1], value) && Last(start, stages + [stage]) == stage.after
  {
    assert (stages + [stage])[..i] == stages && nodes[..i + 1][..i] == nodes[..i];
  }

  ghost function KindIn(w: World, n: Node): Kind
    requires n in NodesOf(w.forest)
  {
    Sub(w.forest, n).fields.kind
  }

  // The outcome of a copy is that of the two values: the target is not below the source, and where it
  // is the source, no mapping has a key twice.
  ghost predicate Predictable(node: Node, m: Tree) {
    && node !in NodesOf(m.kids)
    && (node == m.node && m.fields.kind.Mapping? ==> DistinctKeys(Strip(m)))
  }

  // One target is merged with the source as it is then; nothing else changes, and the source itself
  // only if the target is in its tree.
  ghost predicate CopiedAt(before: World, after: World, node: Node, source: Node, s: Tree) {
    && Apart(after.forest, after.keys) && Grows(before, after)
    && Replaced(before, after, node, s) && source in NodesOf(before.forest)
    && var t, m := Sub(before.forest, node), Sub(before.forest, source);
       && t.fields.kind == m.fields.kind == s.fields.kind
       && (Predictable(node, m) ==> Strip(s) == Merge(Strip(t), Strip(m)))
       && (node !in NodesOf([m]) ==>
             Unharmed(before, after, source) && (DistinctKeys(Strip(m)) ==> !Meets(t, m, source)))
  }

  ghost predicate Copies(start: World, stages: seq<Stage>, nodes: seq<Node>, source: Node)
    decreases |stages|
  {
    && |stages| == |nodes|
    && (stages != [] ==>
          var n := |stages| - 1;
          && Copies(start, stages[..n], nodes[..n], source)
          && CopiedAt(Last(start, stages[..n]), stages[n].after, nodes[n], source, stages[n].merged))
  }

  lemma CopiesOneMore(start: World, stages: seq<Stage>, nodes: seq<Node>, source: Node, i: nat, stage: Stage)
    requires i < |nodes| && Copies(start, stages, nodes[..i], source)
    requires CopiedAt(Last(start, stages), stage.after, nodes[i], source, stage.merged)
    ensures Copies(start, stages + [stage], nodes[..i + 1], source) && Last(start, stages + [stage]) == stage.after
  {
    assert (stages + [stage])[..i] == stages && nodes[..i + 1][..i] == nodes[..i];
  }

  // ----- updating -----

  // The heap is where merging the update into the first n targets has come to.
  ghost predicate Updating(start: World, w: World, root: Node, updates: seq<Tree>, nodes: seq<Node>, n: nat,
                           value: Value, stages: seq<Stage>, index: map<Node, Node>)
    reads AllOf(w.forest)
  {
    && n <= |nodes| && Standing(w, index) && Hosts(w, root, updates) && Grows(start, w)
    && Targets(w, nodes, updates) && Merges(start, stages, nodes[..n], value) && w == Last(start, stages)
  }

  method UpdateTarget(nodes: seq<Node>, i: nat, update: Node, ghost start: World, ghost w: World, ghost root: Node,
                      ghost updates: seq<Tree>, ghost k: nat, ghost stages: seq<Stage>, ghost index: map<Node, Node>)
    returns (ghost after: World, ghost stages': seq<Stage>)
    requires k < |updates| && updates[k].node == update && i < |nodes|
    requires Updating(start, w, root, updates, nodes, i, Strip(updates[k]), stages, index)
    modifies NodesOf(start.forest) + News(start, w)
    ensures Updating(start, after, root, updates, nodes, i + 1, Strip(updates[k]), stages', index)
    ensures forall n | n in News(start, after) :: n in News(start, w) || fresh(n)
  {
    var node := nodes[i];
    SubSets(w.forest, node);
    UpdateAlone(w, root, updates, k, node);
    RootIn([updates[k]], 0);
    ghost var s, names;
    var met;
    met, after, s, names := MergeNode(node, update, update, w, index, Clear, Sub(w.forest, node), updates[k]);
    HostsOn(w, after, node, s, root, updates);
    NewAfter(start, w, after);
    MergesOneMore(start, stages, nodes, Strip(updates[k]), i, Stage(after, s));
    stages' := stages + [Stage(after, s)];
  }

  const ZERO := Fields(Unset, 0, "", "", "", "", "", "", 0, 0)

  // A zero node, which is no update.
  predicate IsZero(n: Node)
    reads n
  {
    FieldsOf(n) == ZERO && n.alias == null && n.content == []
  }

  // A zero node has nothing at all.
  lemma ZeroIsBlank(n: Node)
    ensures IsZero(n) <==>
              && n.kind == Unset && n.style == 0 && n.tag == n.value == n.anchor == ""
              && n.headComment == n.lineComment == n.footComment == ""
              && n.line == n.column == 0 && n.alias == null && n.content == []
  {}

  lemma ZeroValue(w: World, root: Node, updates: seq<Tree>, k: nat, index: map<Node, Node>)
    requires Standing(w, index) && Hosts(w, root, updates) && k < |updates|
    ensures IsZero(updates[k].node) <==> Strip(updates[k]) == Value(ZERO, [], [])
  {
    KidHolds(w.forest, 1 + k);
    SingleHolds(updates[k], {});
  }

  // The targets merged with a value, one after the other, unless it is zero.
  ghost predicate UpdatesWith(value: Value, start: World, nodes: seq<Node>, stages: seq<Stage>) {
    if value == Value(ZERO, [], []) then stages == [] else Merges(start, stages, nodes, value)
  }

  /** Every target is merged with the update, one after the other, if it is not zero. */
  method ApplyUpdateAction(nodes: seq<Node>, update: Node, ghost w: World, ghost root: Node,
                           ghost updates: seq<Tree>, ghost k: nat, ghost index: map<Node, Node>)
    returns (ghost after: World, ghost stages: seq<Stage>)
    requires Standing(w, index) && Hosts(w, root, updates) && Targets(w, nodes, updates)
    requires k < |updates| && updates[k].node == update
    modifies NodesOf(w.forest)
    ensures Standing(after, index) && Hosts(after, root, updates) && Grows(w, after)
    ensures forall n | n in News(w, after) :: fresh(n)
    ensures UpdatesWith(Strip(updates[k]), w, nodes, stages) && after == Last(w, stages)
  {
    after, stages := w, [];
    ZeroValue(w, root, updates, k, index);
    if IsZero(update) { return; }
    var i: nat := 0;
    while i < |nodes|
      invariant i <= |nodes|
      invariant Updating(w, after, root, updates, nodes, i, Strip(updates[k]), stages, index) == true
      invariant forall n | n in News(w, after) :: fresh(n)
    {
      ghost var last := after;
      after, stages := UpdateTarget(nodes, i, update, w, last, root, updates, k, stages, index);
      assert forall n | n in News(w, after) :: n in News(w, last) || fresh(n);
      i := i + 1;
    }
    assert nodes[..|nodes|] == nodes;
  }

  // ----- copying -----

  datatype OverlayError =
    | InvalidJSONPath | CopySourceNotFound | CopySourceMultiple | CopyTypeMismatch | PrimitiveTarget
    | SourceReached  // not an error of the engine: the model goes no further where the source would be merged into

  // The heap is where copying into the first n targets has come to.
  ghost predicate Copying(start: World, w: World, root: Node, updates: seq<Tree>, nodes: seq<Node>, n: nat,
                          source: Node, stages: seq<Stage>, index: map<Node, Node>)
    reads AllOf(w.forest)
  {
    && n <= |nodes| && Standing(w, index) && Hosts(w, root, updates) && Grows(start, w)
    && Targets(w, nodes, updates) && source in NodesOf(w.forest)
    && Copies(start, stages, nodes[..n], source) && w == Last(start, stages)
  }

  // Why copying stops at a target: another kind, or a source below it that the merge comes to.
  ghost predicate StopsAt(w: World, node: Node, source: Node, error: OverlayError) {
    && node in NodesOf(w.forest) && source in NodesOf(w.forest)
    && var t, m := Sub(w.forest, node), Sub(w.forest, source);
       if m.fields.kind != t.fields.kind then error == CopyTypeMismatch
       else error == SourceReached && node !in NodesOf([m]) && Meets(t, m, source)
  }

  // How a copy's source lies to its target.
  lemma CopyRelation(w: World, node: Node, source: Node) returns (rel: Relation)
    requires Apart(w.forest, w.keys) && node in NodesOf(w.forest) && source in NodesOf(w.forest)
    requires Sub(w.forest, node).fields.kind == Sub(w.forest, source).fields.kind
    ensures Related(w, node, source, source, rel)
    ensures rel.Outside? <==> node !in NodesOf([Sub(w.forest, source)])
    ensures Predictable(node, Sub(w.forest, source)) ==> Predicted(rel, node, Sub(w.forest, source))
  {
    var t, m := Sub(w.forest, node), Sub(w.forest, source);
    RootIn([m], 0);
    SubIsAt(w.forest, node);
    SubIsAt(w.forest, source);
    SubSets(w.forest, source);
    SingleSets(m);
    if node !in NodesOf([m]) {
      rel := Outside;
    } else if m.fields.kind.Mapping? {
      var path := PathTo(m, node);
      rel := Above(path, |path|);
      NotBelow(w, node, source);
      if node == source { OnlyPath(m, path, |path|, node); }
    } else {
      rel := Flat;
    }
  }

  // The source is not below a target in its tree.
  lemma NotBelow(w: World, node: Node, source: Node)
    requires Apart(w.forest, w.keys) && node in NodesOf(w.forest) && source in NodesOf(w.forest)
    requires node in NodesOf([Sub(w.forest, source)])
    ensures source !in NodesOf(Sub(w.forest, node).kids)
  {
    SubInSub(w.forest, source, node);
    SubIsAt(w.forest, source);
    SubIsAt(w.forest, node);
    SubSets(w.forest, source);
    SubSets([Sub(w.forest, source)], node);
    SingleSets(Sub(w.forest, node));
    if node != source { BelowItself(Sub(w.forest, source), node); }
  }

  // The only path from a tree to its own node is the empty one.
  lemma OnlyPath(m: Tree, path: seq<nat>, loose: nat, x: Node)
    requires Distinct([m]) && Reach(m, path, loose, x) && m.node == x
    ensures path == []
  {
    SingleSets(m);
    ReachIn(m, path, loose, x);
  }

  method CopyTarget(nodes: seq<Node>, i: nat, source: Node, ghost start: World, ghost w: World, ghost root: Node,
                    ghost updates: seq<Tree>, ghost stages: seq<Stage>, ghost index: map<Node, Node>)
    returns (error: Option<OverlayError>, ghost after: World, ghost stages': seq<Stage>)
    requires i < |nodes| && Copying(start, w, root, updates, nodes, i, source, stages, index)
    modifies NodesOf(start.forest) + News(start, w)
    ensures error.None? ==> Copying(start, after, root, updates, nodes, i + 1, source, stages', index)
    ensures error.None? ==> forall n | n in News(start, after) :: n in News(start, w) || fresh(n)
    ensures error.Some? ==> stages' == stages && StopsAt(w, nodes[i], source, error.value)
  {
    var node := nodes[i];
    after, stages' := w, stages;
    KindsAre(w, node, index);
    KindsAre(w, source, index);
    if source.kind != node.kind { return Some(CopyTypeMismatch), after, stages'; }
    SubSets(w.forest, node);
    SubSets(w.forest, source);
    ghost var t, m := Sub(w.forest, node), Sub(w.forest, source);
    ghost var rel := CopyRelation(w, node, source);
    ghost var s, names;
    var met;
    met, after, s, names := MergeNode(node, source, source, w, index, rel, t, m);
    if met != null {
      ValueIsHad(m, names, met);
      return Some(SourceReached), after, stages';
    }
    HostsOn(w, after, node, s, root, updates);
    NewAfter(start, w, after);
    CopiesOneMore(start, stages, nodes, source, i, Stage(after, s));
    return None, after, stages + [Stage(after, s)];
  }

  // What a copy comes to: an error exactly for an invalid path, a path that does not select one node,
  // or the first target that has another kind when its turn comes, or in which the source is reached.
  ghost predicate CopyOutcome(paths: JsonPath, copy: string, w: World, nodes: seq<Node>, stages: seq<Stage>,
                              error: Option<OverlayError>)
    requires w.forest != []
  {
    var found := Answer(paths, copy, w.forest[0]);
    if !paths.accepts(copy) then error == Some(InvalidJSONPath) && stages == []
    else if |found| == 0 then error == Some(CopySourceNotFound) && stages == []
    else if |found| > 1 then error == Some(CopySourceMultiple) && stages == []
    else CopyFromOutcome(found[0], w, nodes, stages, error)
  }

  ghost predicate CopyFromOutcome(source: Node, w: World, nodes: seq<Node>, stages: seq<Stage>,
                                  error: Option<OverlayError>)
  {
    && |stages| <= |nodes| && Copies(w, stages, nodes[..|stages|], source)
    && if |stages| == |nodes| then error == None
       else error.Some? && StopsAt(Last(w, stages), nodes[|stages|], source, error.value)
  }

  /** Every target is merged with the source, one after the other, up to the first one of another
      kind or in which the source is reached; the source is the one node that the path selects. */
  method ApplyCopyAction(root: Node, nodes: seq<Node>, copy: string, paths: JsonPath, ghost w: World,
                         ghost updates: seq<Tree>, ghost index: map<Node, Node>)
    returns (error: Option<OverlayError>, ghost after: World, ghost stages: seq<Stage>)
    requires Standing(w, index) && Hosts(w, root, updates) && Targets(w, nodes, updates) && paths.Sane()
    modifies NodesOf(w.forest)
    ensures CopyOutcome(paths, copy, w, nodes, stages, error)
    ensures error.None? ==> Standing(after, index) && Hosts(after, root, updates) && Grows(w, after)
    ensures error.None? ==> after == Last(w, stages) && forall n | n in News(w, after) :: fresh(n)
  {
    after, stages := w, [];
    if !paths.accepts(copy) { error := Some(InvalidJSONPath); return; }
    KidHolds(w.forest, 0);
    NodesExist(w.forest);
    var sources := Query(root, paths, copy, w.forest[0]);
    if |sources| == 0 { error := Some(CopySourceNotFound); return; }
    if |sources| > 1 { error := Some(CopySourceMultiple); return; }
    KidSets(w.forest, 0);
    error, after, stages := CopyFrom(nodes, sources[0], w, root, updates, index);
  }

  // The loop over the targets.
  method CopyFrom(nodes: seq<Node>, source: Node, ghost w: World, ghost root: Node, ghost updates: seq<Tree>,
                  ghost index: map<Node, Node>)
    returns (error: Option<OverlayError>, ghost after: World, ghost stages: seq<Stage>)
    requires Standing(w, index) && Hosts(w, root, updates) && Targets(w, nodes, updates)
    requires source in NodesOf(w.forest)
    modifies NodesOf(w.forest)
    ensures CopyFromOutcome(source, w, nodes, stages, error)
    ensures error.None? ==> Standing(after, index) && Hosts(after, root, updates) && Grows(w, after)
    ensures error.None? ==> after == Last(w, stages) && forall n | n in News(w, after) :: fresh(n)
  {
    error, after, stages := None, w, [];
    var i: nat := 0;
    while i < |nodes|
      invariant i <= |nodes| && error == None && |stages| == i
      invariant Copying(w, after, root, updates, nodes, i, source, stages, index) == true
      invariant forall n | n in News(w, after) :: fresh(n)
    {
      ghost var last := after;
      error, after, stages := CopyTarget(nodes, i, source, w, last, root, updates, stages, index);
      if error.Some? { return; }
      assert forall n | n in News(w, after) :: n in News(w, last) || fresh(n);
      i := i + 1;
    }
    assert nodes[..|nodes|] == nodes;
  }

  // ----- a source with no target in its tree -----

  // No target is in the source's tree; the source may be in the targets' trees.
  ghost predicate NoneInside(w: World, source: Node, nodes: seq<Node>) {
    && source in NodesOf(w.forest)
    && forall n | n in nodes :: n in NodesOf(w.forest) && n !in NodesOf([Sub(w.forest, source)])
  }

  /** A source that has no target in its tree never changes, even if it is in theirs, and each target is
      merged with its value. */
  lemma {:induction false} SourceStays(start: World, stages: seq<Stage>, nodes: seq<Node>, all: seq<Node>, source: Node)
    requires NoneInside(start, source, all)
    requires Copies(start, stages, nodes, source) && forall n | n in nodes :: n in all
    ensures Merges(start, stages, nodes, Strip(Sub(start.forest, source)))
    ensures NoneInside(Last(start, stages), source, all) && Unharmed(start, Last(start, stages), source)
    decreases |stages|
  {
    if stages != [] {
      var n := |stages| - 1;
      SourceStays(start, stages[..n], nodes[..n], all, source);
      StaysOnce(Last(start, stages[..n]), stages[n].after, nodes[n], source, stages[n].merged);
    }
  }

  lemma StaysOnce(before: World, after: World, node: Node, source: Node, s: Tree)
    requires CopiedAt(before, after, node, source, s) && node !in NodesOf([Sub(before.forest, source)])
    ensures Unharmed(before, after, source)
    ensures MergedAt(before, after, node, Strip(Sub(before.forest, source)), s)
  {
    SingleSets(Sub(before.forest, source));
    SubIsAt(before.forest, source);
    RootIn([Sub(before.forest, source)], 0);
  }
}
