/** The index from nodes to their parents that removals use. */
module OverlayIndex {
  import opened YamlNode
  import opened OverlayMerge
  import opened OverlayTree
  import opened OverlayForest
  import opened OverlayPrune

  type ParentIndex = map<Node, Node>

  // Every value node below the root has its true parent in the index.
  ghost predicate FullIndex(t: Tree, index: ParentIndex) {
    Agrees([t], index) && NodesOf(t.kids) <= index.Keys
  }

  // Entries only come, and change for the given nodes only.
  ghost predicate ChangedAt(before: ParentIndex, now: ParentIndex, nodes: set<Node>) {
    && before.Keys <= now.Keys
    && forall n | n in now && n !in nodes :: n in before && now[n] == before[n]
  }

  // The first k children are indexed, with all that is below them.
  ghost predicate KidsIndexed(t: Tree, k: nat, index: ParentIndex) {
    && k <= |t.kids|
    && NodesOf(t.kids[..k]) <= index.Keys
    && Agrees(t.kids[..k], index)
    && IsParent(t.node, t.kids[..k], index)
  }

  lemma {:induction false} AgreesSame(ts: seq<Tree>, before: ParentIndex, now: ParentIndex, nodes: set<Node>)
    requires Agrees(ts, before) && ChangedAt(before, now, nodes) && NodesOf(ts) !! nodes
    ensures Agrees(ts, now)
    decreases ts
  {
    if ts != [] {
      AgreesSame(ts[0].kids, before, now, nodes);
      AgreesSame(ts[1..], before, now, nodes);
      ParentSame(ts[0].node, ts[0].kids, before, now, nodes);
    }
  }

  lemma ParentSame(parent: Node, kids: seq<Tree>, before: ParentIndex, now: ParentIndex, nodes: set<Node>)
    requires IsParent(parent, kids, before) && ChangedAt(before, now, nodes) && NodesOf(kids) !! nodes
    ensures IsParent(parent, kids, now)
  {
    forall i | 0 <= i < |kids| && kids[i].node in now ensures now[kids[i].node] == parent { RootIn(kids, i); }
  }

  // Indexing something else keeps the children that are done.
  lemma KidsStay(t: Tree, k: nat, before: ParentIndex, now: ParentIndex, nodes: set<Node>)
    requires KidsIndexed(t, k, before) && ChangedAt(before, now, nodes) && NodesOf(t.kids[..k]) !! nodes
    ensures KidsIndexed(t, k, now)
  {
    AgreesSame(t.kids[..k], before, now, nodes);
    ParentSame(t.node, t.kids[..k], before, now, nodes);
  }

  // One more child is indexed.
  lemma KidDone(t: Tree, k: nat, now: ParentIndex)
    requires KidsIndexed(t, k, now) && k < |t.kids|
    requires var x := t.kids[k]; FullIndex(x, now) && x.node in now && now[x.node] == t.node
    ensures KidsIndexed(t, k + 1, now)
  {
    var x := t.kids[k];
    assert t.kids[..k + 1] == t.kids[..k] + [x];
    AppendSets(t.kids[..k], [x]);
    AppendAgrees(t.kids[..k], [x], now);
    SingleSets(x);
    var done := t.kids[..k + 1];
    forall i | 0 <= i < |done| && done[i].node in now ensures now[done[i].node] == t.node {
      if i < k { assert done[i] == t.kids[..k][i]; }
    }
  }

  lemma AllKidsDone(t: Tree, now: ParentIndex)
    requires KidsIndexed(t, |t.kids|, now)
    ensures FullIndex(t, now)
  {
    assert t.kids[..|t.kids|] == t.kids && [t][1..] == [];
  }

  // A tree that owns its nodes.
  ghost predicate Owned(t: Tree) {
    Distinct([t]) && NodesOf([t]) !! KeysOf([t])
  }

  lemma KidOwned(t: Tree, k: nat)
    requires Owned(t) && k < |t.kids|
    ensures Owned(t.kids[k]) && NodesOf(t.kids[..k]) !! AllOf([t.kids[k]])
    ensures t.kids[k].node !in NodesOf(t.kids[k].kids) + KeysOf([t.kids[k]])
  {
    SingleSets(t);
    Around(t.kids, k);
    AppendThree(t.kids[..k], t.kids[k], t.kids[k + 1..]);
    SingleSets(t.kids[k]);
  }

  // The child at a place of the content: a key's tree or a value's.
  ghost function ChildAt(t: Tree, c: nat): Tree
    requires Mirrored(t) && c < |t.node.content|
    reads t.node
    ensures t.node.content[c] == ChildAt(t, c).node
  {
    if t.fields.kind.Mapping? then
      assert t.node.content[2 * (c / 2)] == t.keys[c / 2].node && t.node.content[2 * (c / 2) + 1] == t.kids[c / 2].node;
      if c % 2 == 0 then t.keys[c / 2] else t.kids[c / 2]
    else t.kids[c]
  }

  // How many values there are before a place of the content.
  function ValuesBefore(kind: Kind, c: nat): nat {
    if kind.Mapping? then c / 2 else c
  }

  lemma ChildHolds(t: Tree, c: nat)
    requires Holds([t]) && Mirrored(t) && c < |t.node.content|
    ensures Holds([ChildAt(t, c)]) && AllOf([ChildAt(t, c)]) <= AllOf(t.kids) + AllOf(t.keys)
    ensures ChildAt(t, c) < t
  {
    SingleHolds(t, {});
    if t.fields.kind.Mapping? && c % 2 == 0 {
      KidSets(t.keys, c / 2);
      KidHolds(t.keys, c / 2);
    } else {
      KidSets(t.kids, ValuesBefore(t.fields.kind, c));
      KidHolds(t.kids, ValuesBefore(t.fields.kind, c));
    }
  }

  // The children before place c are done.
  ghost predicate DoneBefore(t: Tree, c: nat, before: ParentIndex, now: ParentIndex) {
    && ChangedAt(before, now, AllOf(t.kids) + AllOf(t.keys))
    && (Owned(t) ==> KidsIndexed(t, ValuesBefore(t.fields.kind, c), now))
  }

  lemma ChildDone(t: Tree, c: nat, before: ParentIndex, now: ParentIndex, next: ParentIndex)
    requires Mirrored(t) && c < |t.node.content| && DoneBefore(t, c, before, now)
    requires
      var x := ChildAt(t, c);
      && AllOf([x]) <= AllOf(t.kids) + AllOf(t.keys)
      && ChangedAt(now[x.node := t.node], next, NodesOf(x.kids) + KeysOf([x]))
      && (Owned(x) ==> FullIndex(x, next))
    ensures DoneBefore(t, c + 1, before, next)
  {
    var x, k := ChildAt(t, c), ValuesBefore(t.fields.kind, c);
    SingleSets(x);
    assert ChangedAt(now, next, AllOf([x]));
    ChangedTwice(before, now, next, AllOf(t.kids) + AllOf(t.keys), AllOf([x]));
    if Owned(t) {
      if t.fields.kind.Mapping? && c % 2 == 0 {
        assert x == t.keys[k] && ValuesBefore(t.fields.kind, c + 1) == k;
        KeyDone(t, k, now, next);
      } else {
        assert x == t.kids[k] && ValuesBefore(t.fields.kind, c + 1) == k + 1;
        ValueDone(t, k, now, next);
      }
    }
  }

  lemma ChangedTwice(before: ParentIndex, now: ParentIndex, next: ParentIndex, nodes: set<Node>, few: set<Node>)
    requires ChangedAt(before, now, nodes) && ChangedAt(now, next, few) && few <= nodes
    ensures ChangedAt(before, next, nodes)
  {}

  lemma NoneDone(t: Tree, before: ParentIndex)
    ensures DoneBefore(t, 0, before, before)
  {
    assert t.kids[..0] == [];
  }

  // All children are done.
  lemma AllDone(t: Tree, before: ParentIndex, now: ParentIndex)
    requires Mirrored(t) && DoneBefore(t, |t.node.content|, before, now)
    ensures ChangedAt(before, now, NodesOf(t.kids) + KeysOf([t]))
    ensures Owned(t) ==> FullIndex(t, now)
  {
    assert AllOf(t.kids) + AllOf(t.keys) == NodesOf(t.kids) + KeysOf([t]) by { SingleSets(t); }
    if Owned(t) {
      assert KidsIndexed(t, |t.kids|, now);
      AllKidsDone(t, now);
    }
  }

  lemma KeyDone(t: Tree, k: nat, now: ParentIndex, next: ParentIndex)
    requires Owned(t) && k < |t.keys| && KidsIndexed(t, k, now)
    requires ChangedAt(now, next, AllOf([t.keys[k]]))
    ensures KidsIndexed(t, k, next)
  {
    SingleSets(t);
    Prefix(t.kids, k);
    KidSets(t.keys, k);
    KidsStay(t, k, now, next, AllOf([t.keys[k]]));
  }

  lemma ValueDone(t: Tree, k: nat, now: ParentIndex, next: ParentIndex)
    requires Owned(t) && k < |t.kids| && KidsIndexed(t, k, now)
    requires
      var x := t.kids[k];
      && ChangedAt(now, next, AllOf([x]))
      && ChangedAt(now[x.node := t.node], next, NodesOf(x.kids) + KeysOf([x]))
      && (Owned(x) ==> FullIndex(x, next))
    ensures KidsIndexed(t, k + 1, next)
  {
    KidOwned(t, k);
    KidsStay(t, k, now, next, AllOf([t.kids[k]]));
    KidDone(t, k, next);
  }

  lemma Prefix(ts: seq<Tree>, k: nat)
    requires k <= |ts|
    ensures NodesOf(ts[..k]) <= NodesOf(ts)
  {
    assert ts == ts[..k] + ts[k..];
    AppendSets(ts[..k], ts[k..]);
  }

  /** Indexes everything below a node; in a tree, every value node ends up with its parent,
      whatever the index held before. */
  method IndexNodeRecursively(index: ParentIndex, parent: Node, ghost t: Tree) returns (now: ParentIndex)
    requires t.node == parent && Holds([t])
    ensures ChangedAt(index, now, NodesOf(t.kids) + KeysOf([t]))
    ensures Owned(t) ==> FullIndex(t, now)
    decreases t, 1
  {
    now := index;
    SingleHolds(t, {});
    NodesExist([t]);
    NoneDone(t, index);
    for c := 0 to |parent.content|
      invariant Holds([t]) == true && Mirrored(t) == true
      invariant DoneBefore(t, c, index, now) == true
    {
      now := IndexChild(now, parent, c, t, index);
    }
    AllDone(t, index, now);
  }

  // The child at one place of the content, and everything below it.
  method IndexChild(index: ParentIndex, parent: Node, c: nat, ghost t: Tree, ghost before: ParentIndex)
    returns (now: ParentIndex)
    requires t.node == parent && Holds([t]) && Mirrored(t) && c < |parent.content|
    requires DoneBefore(t, c, before, index)
    ensures DoneBefore(t, c + 1, before, now)
    decreases t, 0
  {
    ChildHolds(t, c);
    var child: Node := parent.content[c];
    now := IndexNodeRecursively(index[child := parent], child, ChildAt(t, c));
    ChildDone(t, c, before, index, now);
  }

  method NewParentIndex(root: Node, ghost t: Tree) returns (index: ParentIndex)
    requires t.node == root && Holds([t]) && Owned(t)
    ensures FullIndex(t, index)
    ensures index.Keys <= NodesOf(t.kids) + KeysOf([t])
  {
    index := IndexNodeRecursively(map[], root, t);
  }
}
