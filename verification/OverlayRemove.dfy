/** Removing nodes from their parents, found through the parent index. */
module OverlayRemove {
  import opened YamlNode
  import opened OverlayMerge
  import opened OverlayTree
  import opened OverlayForest
  import opened OverlayPrune
  import opened OverlayIndex

  // The index serves a forest: it never names a false parent, and the parents it names are known.
  ghost predicate Serves(index: ParentIndex, forest: seq<Tree>) {
    && Agrees(forest, index)
    && forall n | n in index && n in NodesOf(forest) :: index[n] in NodesOf(forest)
  }

  // A node a removal may ask for: indexed, or the root of the document.
  ghost predicate Removable(node: Node, index: ParentIndex, forest: seq<Tree>) {
    node in NodesOf(forest) && (node in index || (forest != [] && node == forest[0].node))
  }

  lemma RootStays(ts: seq<Tree>)
    requires ts != [] && Distinct(ts) && Paired(ts)
    ensures NotAKid(ts, ts[0].node) && Prune(ts, {ts[0].node}) == ts
  {
    var x := ts[0].node;
    RootIsNotAKid(ts[0].kids, x);
    RootIsNotAKid(ts[1..], x);
    forall i | 0 <= i < |ts[0].kids| ensures ts[0].kids[i].node != x { RootIn(ts[0].kids, i); }
    PruneNothing(ts, x);
  }

  // ----- the parent's content -----

  // A value node found in the content of its parent is one of its values.
  lemma FoundValue(t: Tree, c: nat)
    requires Mirrored(t) && c < |t.node.content| && (t.fields.kind.Mapping? || t.fields.kind.Sequence?)
    requires t.node.content[c] !in KeysOf([t])
    ensures
      var j := ValuesBefore(t.fields.kind, c);
      && j < |t.kids| && t.kids[j].node == t.node.content[c]
      && (t.fields.kind.Mapping? ==> c == 2 * j + 1)
  {
    SingleSets(t);
    if t.fields.kind.Mapping? {
      var j := c / 2;
      assert t.node.content[2 * j] == t.keys[j].node && t.node.content[2 * j + 1] == t.kids[j].node;
      RootIn(t.keys, j);
    }
  }

  // Leaving out an element, seen from the second one on.
  lemma Shifted(ts: seq<Tree>, j: nat)
    requires 0 < j < |ts|
    ensures ts[..j] + ts[j + 1..] == [ts[0]] + (ts[1..][..j - 1] + ts[1..][j..])
  {}

  lemma {:induction false} KeptKidsAre(kids: seq<Tree>, j: nat)
    requires Distinct(kids) && j < |kids|
    ensures KeptKids(kids, {kids[j].node}) == kids[..j] + kids[j + 1..]
  {
    if j == 0 {
      RootsAway(kids[1..], kids[0].node);
      KeepAllKids(kids[1..], kids[0].node);
    } else {
      RootIn(kids[1..], j - 1);
      KeptKidsAre(kids[1..], j - 1);
      Shifted(kids, j);
    }
  }

  lemma {:induction false} KeptKeysAre(keys: seq<Tree>, kids: seq<Tree>, j: nat)
    requires Distinct(kids) && j < |kids| == |keys|
    ensures KeptKeys(keys, kids, {kids[j].node}) == keys[..j] + keys[j + 1..]
  {
    if j == 0 {
      RootsAway(kids[1..], kids[0].node);
      KeepAllKeys(keys[1..], kids[1..], kids[0].node);
    } else {
      RootIn(kids[1..], j - 1);
      KeptKeysAre(keys[1..], kids[1..], j - 1);
      Shifted(keys, j);
    }
  }

  lemma CutListsMapping(content: seq<Node?>, keys: seq<Tree>, kids: seq<Tree>, j: nat)
    requires Lists(Mapping, content, keys, kids) && j < |kids|
    ensures Lists(
              Mapping, content[..2 * j] + content[2 * j + 2..],
              keys[..j] + keys[j + 1..], kids[..j] + kids[j + 1..])
  {
    var left := content[..2 * j] + content[2 * j + 2..];
    var keys', kids' := keys[..j] + keys[j + 1..], kids[..j] + kids[j + 1..];
    forall i | 0 <= i < |kids'| ensures left[2 * i] == keys'[i].node && left[2 * i + 1] == kids'[i].node {
      if i < j {
        assert left[2 * i] == content[2 * i] && left[2 * i + 1] == content[2 * i + 1];
      } else {
        assert left[2 * i] == content[2 * (i + 1)] && left[2 * i + 1] == content[2 * (i + 1) + 1];
      }
    }
  }

  // Where the cut for the value at place c starts: at its key, in a mapping.
  function CutFrom(kind: Kind, c: nat): int {
    if kind.Mapping? then c - 1 else c
  }

  lemma CutLists(t: Tree, content: seq<Node?>, c: nat, j: nat)
    requires Lists(t.fields.kind, content, t.keys, t.kids) && (t.fields.kind.Mapping? || t.fields.kind.Sequence?)
    requires Distinct(t.kids) && c < |content| && j < |t.kids| && c == (if t.fields.kind.Mapping? then 2 * j + 1 else j)
    ensures
      var r := Trim(t, {t.kids[j].node});
      var from := CutFrom(t.fields.kind, c);
      from >= 0 && Lists(r.fields.kind, content[..from] + content[c + 1..], r.keys, r.kids)
  {
    KeptKidsAre(t.kids, j);
    if t.fields.kind.Mapping? {
      KeptKeysAre(t.keys, t.kids, j);
      CutListsMapping(content, t.keys, t.kids, j);
    }
  }

  // ----- removing -----

  // The forest after a removal: pruned, and with the removed tree beside it.
  ghost predicate Removed(forest: seq<Tree>, node: Node, after: seq<Tree>) {
    && |forest| <= |after|
    && after[..|forest|] == Prune(forest, {node})
  }

  lemma NothingRemoved(forest: seq<Tree>, node: Node)
    requires NotAKid(forest, node) && Paired(forest)
    ensures Removed(forest, node, forest)
  {
    PruneNothing(forest, node);
    assert forest[..|forest|] == forest;
  }

  lemma CutForest(forest: seq<Tree>, keys: set<Node>, node: Node, index: ParentIndex, j: nat)
    requires Apart(forest, keys) && Paired(forest) && Serves(index, forest) && node in index && node in NodesOf(forest)
    requires
      var p := Sub(forest, index[node]);
      (p.fields.kind.Mapping? || p.fields.kind.Sequence?) && j < |p.kids| && p.kids[j].node == node
    ensures
      var after := Prune(forest, {node}) + [Sub(forest, node)];
      && Removed(forest, node, after) && NodesOf(after) == NodesOf(forest)
      && Apart(after, keys) && Serves(index, after)
  {
    var pruned, s := Prune(forest, {node}), Sub(forest, node);
    CutSets(forest, node, index, j);
    PruneSets(forest, {node});
    SubSets(forest, node);
    PruneAgrees(forest, {node}, index);
    SubAgrees(forest, node, index);
    AppendSets(pruned, [s]);
    AppendDistinct(pruned, [s]);
    AppendAgrees(pruned, [s], index);
    assert (pruned + [s])[..|forest|] == pruned;
  }

  // The node found in its parent's content is a value there, and does not have the parent below it.
  lemma ParentHasKid(forest: seq<Tree>, keys: set<Node>, node: Node, index: ParentIndex, c: nat)
    requires Apart(forest, keys) && Holds(forest) && Serves(index, forest) && node in index && node in NodesOf(forest)
    requires
      var p := Sub(forest, index[node]);
      && (p.fields.kind.Mapping? || p.fields.kind.Sequence?)
      && c < |p.node.content| && p.node.content[c] == node
    ensures
      var p := Sub(forest, index[node]);
      var j := ValuesBefore(p.fields.kind, c);
      && j < |p.kids| && p.kids[j].node == node && c == (if p.fields.kind.Mapping? then 2 * j + 1 else j)
      && index[node] !in AllOf([Sub(forest, node)])
  {
    var parent := index[node];
    var p := Sub(forest, parent);
    var j := ValuesBefore(p.fields.kind, c);
    SubHolds(forest, parent, {});
    SubSets(forest, parent);
    SubSets(forest, node);
    SingleHolds(p, {});
    FoundValue(p, c);
    SubOfSub(forest, parent, j);
    SingleSets(p);
    KidSets(p.kids, j);
  }

  // All that is needed before the cut, and stays in place.
  lemma BeforeCut(forest: seq<Tree>, keys: set<Node>, node: Node, index: ParentIndex, c: nat)
    requires Apart(forest, keys) && Holds(forest) && Serves(index, forest) && node in index && node in NodesOf(forest)
    requires
      var p := Sub(forest, index[node]);
      && (p.fields.kind.Mapping? || p.fields.kind.Sequence?)
      && c < |p.node.content| && p.node.content[c] == node
    ensures HoldsBut(forest, {index[node]}) && Paired(forest) && index[node] !in AllOf([Sub(forest, node)])
    ensures
      var p := Sub(forest, index[node]);
      var r := Trim(p, {node});
      var from := CutFrom(p.fields.kind, c);
      && FieldsOf(p.node) == p.fields && p.node.alias == null && from >= 0
      && Lists(r.fields.kind, p.node.content[..from] + p.node.content[c + 1..], r.keys, r.kids)
    ensures
      var after := Prune(forest, {node}) + [Sub(forest, node)];
      Removed(forest, node, after) && NodesOf(after) == NodesOf(forest) && Apart(after, keys) && Serves(index, after)
  {
    var p := Sub(forest, index[node]);
    var j := ValuesBefore(p.fields.kind, c);
    HeldIsPaired(forest);
    HoldsWeaken(forest, {index[node]});
    SubHolds(forest, index[node], {});
    SubSets(forest, index[node]);
    SingleHolds(p, {});
    SingleSets(p);
    ParentHasKid(forest, keys, node, index, c);
    CutLists(p, p.node.content, c, j);
    CutForest(forest, keys, node, index, j);
  }

  lemma AfterCut(forest: seq<Tree>, keys: set<Node>, node: Node, index: ParentIndex, cut: Tree)
    requires Apart(forest, keys) && Paired(forest) && Agrees(forest, index) && node in index && node in NodesOf(forest)
    requires index[node] in NodesOf(forest) && index[node] !in AllOf([Sub(forest, node)])
    requires HoldsBut(forest, {index[node]})
    requires cut == Trim(Sub(forest, index[node]), {node}) && Mirrored(cut)
    ensures Holds(Prune(forest, {node}) + [Sub(forest, node)])
  {
    CutHolds(forest, node, index);
    SubHolds(forest, node, {index[node]});
    HoldsApart([Sub(forest, node)], {index[node]});
    AppendHolds(Prune(forest, {node}), [Sub(forest, node)], {});
  }

  // Cuts the value at place c out of the parent's content, from the given place on.
  method CutOut(parent: Node, from: nat, c: nat, ghost forest: seq<Tree>, ghost keys: set<Node>, ghost node: Node,
                ghost index: ParentIndex) returns (ghost after: seq<Tree>)
    requires Apart(forest, keys) && Holds(forest) && Serves(index, forest)
    requires node in NodesOf(forest) && node in index && index[node] == parent
    requires Sub(forest, parent).fields.kind == parent.kind
    requires (parent.kind.Mapping? || parent.kind.Sequence?) && c < |parent.content| && parent.content[c] == node
    requires from == CutFrom(parent.kind, c)
    modifies parent`content
    ensures Holds(after) && Apart(after, keys) && Serves(index, after)
    ensures Removed(forest, node, after) && NodesOf(after) == NodesOf(forest)
  {
    BeforeCut(forest, keys, node, index, c);
    after := Prune(forest, {node}) + [Sub(forest, node)];
    ghost var cut := Trim(Sub(forest, parent), {node});
    parent.content := parent.content[..from] + parent.content[c + 1..];
    AfterCut(forest, keys, node, index, cut);
  }

  /** Removes a node, with its key in a mapping, from the parent the index names. Nothing else in
      the forest changes; a node that is nobody's child, or the child of a document node, stays. */
  method RemoveNode(index: ParentIndex, node: Node, ghost forest: seq<Tree>, ghost keys: set<Node>)
    returns (ghost after: seq<Tree>)
    requires Apart(forest, keys) && Holds(forest) && Serves(index, forest) && Removable(node, index, forest)
    modifies NodesOf(forest)
    ensures Holds(after) && Apart(after, keys) && Serves(index, after)
    ensures Removed(forest, node, after) && NodesOf(after) == NodesOf(forest)
  {
    after := forest;
    HeldIsPaired(forest);
    if node !in index {
      RootStays(forest);
      NothingRemoved(forest, node);
      return;
    }
    var parent := index[node];
    ghost var p := Sub(forest, parent);
    SubHolds(forest, parent, {});
    SingleHolds(p, {});
    for i := 0 to |parent.content|
      invariant parent.kind.Mapping? || parent.kind.Sequence? ==> forall k | 0 <= k < i :: parent.content[k] != node
    {
      if parent.content[i] == node {
        match parent.kind
        case Mapping =>
          ParentHasKid(forest, keys, node, index, i);
          after := CutOut(parent, i - 1, i, forest, keys, node, index);
          return;
        case Sequence =>
          after := CutOut(parent, i, i, forest, keys, node, index);
          return;
        case _ =>
      }
    }
    NotListed(forest, node, index);
  }

  lemma NotListed(forest: seq<Tree>, node: Node, index: ParentIndex)
    requires Holds(forest) && Distinct(forest) && Serves(index, forest) && node in index && node in NodesOf(forest)
    requires
      var p := Sub(forest, index[node]);
      p.node.kind.Mapping? || p.node.kind.Sequence? ==> node !in p.node.content
    ensures Removed(forest, node, forest)
  {
    var p := Sub(forest, index[node]);
    HeldIsPaired(forest);
    SubHolds(forest, index[node], {});
    SingleHolds(p, {});
    if p.fields.kind.Mapping? || p.fields.kind.Sequence? {
      forall i | 0 <= i < |p.kids| ensures p.kids[i].node != node {
        assert p.kids[i].node == p.node.content[if p.fields.kind.Mapping? then 2 * i + 1 else i];
      }
    }
    NotInParent(forest, node, index);
    NothingRemoved(forest, node);
  }
}
