/** The document and the trees beside it as one forest, in which single nodes are changed. */
module OverlayWorld {
  import opened YamlNode
  import opened OverlayMerge
  import opened OverlayTree
  import opened OverlayNode
  import opened OverlayForest

  // The document comes first, then the updates; after them the trees that were cut off.
  datatype World = World(forest: seq<Tree>, keys: set<Node>)

  // The heap holds the forest, whose trees own their nodes, and the index is right where it has entries.
  ghost predicate Standing(w: World, index: map<Node, Node>)
    reads AllOf(w.forest)
  {
    Apart(w.forest, w.keys) && Holds(w.forest) && Agrees(w.forest, index)
  }

  ghost predicate Grows(w: World, after: World) {
    w.keys <= after.keys && NodesOf(w.forest) <= NodesOf(after.forest)
  }

  ghost function NewNodes(w: World, after: World): set<Node> {
    NodesOf(after.forest) - NodesOf(w.forest)
  }

  ghost function NewKeys(w: World, after: World): set<Node> {
    after.keys - w.keys
  }

  ghost function News(w: World, after: World): set<Node> {
    NewNodes(w, after) + NewKeys(w, after)
  }

  // One node has another subtree; nothing else changes, and what was cut off was below it or is new.
  ghost predicate Replaced(w: World, after: World, node: Node, s: Tree) {
    && node in NodesOf(w.forest) && s.node == node
    && |w.forest| <= |after.forest|
    && after.forest[..|w.forest|] == Replace(w.forest, node, s)
    && Below(w, after, node, s)
  }

  ghost predicate Below(w: World, after: World, node: Node, s: Tree)
    requires node in NodesOf(w.forest) && |w.forest| <= |after.forest|
  {
    forall n | n in NodesOf([s]) + NodesOf(after.forest[|w.forest|..]) && n in NodesOf(w.forest) ::
      n in NodesOf([Sub(w.forest, node)])
  }

  // ----- from one tree to the forest -----

  lemma Parted(w: World, node: Node)
    requires Apart(w.forest, w.keys) && node in NodesOf(w.forest)
    ensures var t := Sub(w.forest, node);
            Apart([t], w.keys) && NodesOf([t]) <= NodesOf(w.forest) && KeysOf([t]) <= KeysOf(w.forest)
  {
    SubSets(w.forest, node);
  }

  // What one subtree is, and what the rest is without it.
  lemma Alone(w: World, node: Node, index: map<Node, Node>)
    requires Standing(w, index) && node in NodesOf(w.forest)
    ensures var t := Sub(w.forest, node);
            && node in NodesOf([t]) && Apart([t], w.keys) && Holds([t]) && Agrees([t], index)
            && AllOf([t]) <= AllOf(w.forest) && HoldsBut(w.forest, NodesOf([t]))
  {
    Parted(w, node);
    SubHolds(w.forest, node, {});
    SubAgrees(w.forest, node, index);
    HoldsWeaken(w.forest, NodesOf([Sub(w.forest, node)]));
  }

  ghost function Lift(w: World, node: Node, r: Merged): World {
    World(Replace(w.forest, node, r.tree) + r.orphans, r.keys)
  }

  lemma LiftedSets(w: World, node: Node, index: map<Node, Node>, r: Merged)
    requires Apart(w.forest, w.keys) && Agrees(w.forest, index) && node in NodesOf(w.forest)
    requires Follows(Sub(w.forest, node), w.keys, index, r)
    requires r.Added([Sub(w.forest, node)]) !! AllOf(w.forest) && r.AddedKeys(w.keys) !! AllOf(w.forest)
    ensures Apart(Lift(w, node, r).forest, r.keys) && Agrees(Lift(w, node, r).forest, index)
    ensures Grows(w, Lift(w, node, r)) && Replaced(w, Lift(w, node, r), node, r.tree)
    ensures NewNodes(w, Lift(w, node, r)) <= r.Added([Sub(w.forest, node)])
    ensures NewKeys(w, Lift(w, node, r)) == r.AddedKeys(w.keys)
  {
    var front, t := Replace(w.forest, node, r.tree), Sub(w.forest, node);
    SubSets(w.forest, node);
    AppendSets([r.tree], r.orphans);
    AppendDistinct([r.tree], r.orphans);
    AppendAgrees([r.tree], r.orphans, index);
    ReplaceSets(w.forest, node, r.tree);
    ReplaceDistinct(w.forest, node, r.tree);
    ReplaceAgrees(w.forest, node, r.tree, index);
    AppendSets(front, r.orphans);
    AppendDistinct(front, r.orphans);
    AppendAgrees(front, r.orphans, index);
  }

  lemma Lifted(w: World, node: Node, index: map<Node, Node>, r: Merged)
    requires Apart(w.forest, w.keys) && Agrees(w.forest, index) && node in NodesOf(w.forest)
    requires Follows(Sub(w.forest, node), w.keys, index, r)
    requires r.Added([Sub(w.forest, node)]) !! AllOf(w.forest) && r.AddedKeys(w.keys) !! AllOf(w.forest)
    requires HoldsBut(w.forest, NodesOf([Sub(w.forest, node)])) && Holds(r.Trees())
    ensures Standing(Lift(w, node, r), index)
    ensures Grows(w, Lift(w, node, r)) && Replaced(w, Lift(w, node, r), node, r.tree)
    ensures NewNodes(w, Lift(w, node, r)) <= r.Added([Sub(w.forest, node)])
    ensures NewKeys(w, Lift(w, node, r)) == r.AddedKeys(w.keys)
  {
    LiftedSets(w, node, index, r);
    AppendHolds([r.tree], r.orphans, {});
    ReplaceHolds(w.forest, node, r.tree, NodesOf([Sub(w.forest, node)]));
    AppendHolds(Replace(w.forest, node, r.tree), r.orphans, {});
  }

  // A subtree is as it was.
  ghost predicate Unharmed(w: World, after: World, x: Node) {
    x in NodesOf(w.forest) && x in NodesOf(after.forest) && Sub(after.forest, x) == Sub(w.forest, x)
  }

  // All trees that do not have the node are as they were.
  ghost predicate Spares(w: World, after: World, node: Node) {
    forall x | x in NodesOf(w.forest) && node !in NodesOf([Sub(w.forest, x)]) :: Unharmed(w, after, x)
  }

  // A change of a node, to its fields and by new children, harms no tree that does not have the node.
  lemma LiftSpares(w: World, node: Node, r: Merged, x: Node)
    requires Distinct(w.forest) && node in NodesOf(w.forest) && x in NodesOf(w.forest)
    requires node !in NodesOf([Sub(w.forest, x)])
    requires Distinct(Lift(w, node, r).forest) && Replaced(w, Lift(w, node, r), node, r.tree)
    requires x in NodesOf(Lift(w, node, r).forest)
    requires x in NodesOf(Sub(w.forest, node).kids) ==>
               && x in NodesOf(r.tree.kids + r.orphans)
               && Sub(r.tree.kids + r.orphans, x) == Sub(Sub(w.forest, node).kids, x)
    ensures Unharmed(w, Lift(w, node, r), x)
  {
    if x in NodesOf([Sub(w.forest, node)]) {
      KidIs(w, node, x);
      SubReplaced(w.forest, node, r.tree);
      KidOrOrphan(Replace(w.forest, node, r.tree), r, x);
    } else {
      SubAfter(w, Lift(w, node, r), node, r.tree, x);
    }
  }

  lemma KidIs(w: World, node: Node, x: Node)
    requires Distinct(w.forest) && node in NodesOf(w.forest) && x in NodesOf([Sub(w.forest, node)])
    requires x in NodesOf(w.forest) && node !in NodesOf([Sub(w.forest, x)])
    ensures x != node && x in NodesOf(Sub(w.forest, node).kids)
    ensures Sub(w.forest, x) == Sub(Sub(w.forest, node).kids, x)
  {
    SingleSets(Sub(w.forest, node));
    RootIn([Sub(w.forest, x)], 0);
    SubInSub(w.forest, node, x);
  }

  lemma KidOrOrphan(front: seq<Tree>, r: Merged, x: Node)
    requires Distinct(front + r.orphans) && r.tree.node in NodesOf(front) && Sub(front, r.tree.node) == r.tree
    requires x in NodesOf(r.tree.kids + r.orphans) && x != r.tree.node
    ensures x in NodesOf(front + r.orphans) && Sub(front + r.orphans, x) == Sub(r.tree.kids + r.orphans, x)
  {
    AppendSets(r.tree.kids, r.orphans);
    AppendDistinct(front, r.orphans);
    SubOfAppend(r.tree.kids, r.orphans, x);
    SingleSets(r.tree);
    if x in NodesOf(r.tree.kids) { SubInSub(front, r.tree.node, x); }
    SubOfAppend(front, r.orphans, x);
  }

  // ----- single changes -----

  /** The node becomes a copy of another one, whatever the two have to do with one another. */
  method WriteOver(node: Node, merge: Node, ghost w: World, ghost index: map<Node, Node>)
    returns (ghost after: World, ghost s: Tree)
    requires Standing(w, index) && node in NodesOf(w.forest) && merge in NodesOf(w.forest)
    modifies node
    ensures Standing(after, index) && Grows(w, after) && Replaced(w, after, node, s)
    ensures forall n | n in News(w, after) :: fresh(n)
    ensures Strip(s) == Strip(Sub(w.forest, merge))
    ensures NodesOf(s.kids) !! NodesOf(w.forest)
    ensures Spares(w, after, node)
  {
    Alone(w, node, index);
    Alone(w, merge, index);
    NodesExist(w.forest);
    ghost var r;
    r := Overwrite(node, merge, Sub(w.forest, node), Sub(w.forest, merge), w.keys, index);
    Lifted(w, node, index, r);
    after, s := Lift(w, node, r), r.tree;
    OverwriteSpares(w, node, r);
  }

  lemma OverwriteSpares(w: World, node: Node, r: Merged)
    requires Distinct(w.forest) && node in NodesOf(w.forest) && r.orphans == Sub(w.forest, node).kids
    requires Distinct(Lift(w, node, r).forest) && Replaced(w, Lift(w, node, r), node, r.tree)
    requires Grows(w, Lift(w, node, r)) && NodesOf(r.tree.kids) !! NodesOf(w.forest)
    ensures Spares(w, Lift(w, node, r), node)
  {
    forall x | x in NodesOf(w.forest) && node !in NodesOf([Sub(w.forest, x)]) ensures Unharmed(w, Lift(w, node, r), x) {
      AppendSets(r.tree.kids, r.orphans);
      if x in NodesOf(r.orphans) { SubOfAppend(r.tree.kids, r.orphans, x); }
      LiftSpares(w, node, r, x);
    }
  }

  lemma SparesTwice(w: World, now: World, after: World, node: Node)
    requires Spares(w, now, node) && Spares(now, after, node)
    ensures Spares(w, after, node)
  {
    forall x | x in NodesOf(w.forest) && node !in NodesOf([Sub(w.forest, x)]) ensures Unharmed(w, after, x) {
      assert Unharmed(w, now, x) && Unharmed(now, after, x);
    }
  }

  // A change of the fields, or a child more.
  lemma GrowthSpares(w: World, node: Node, r: Merged, more: seq<Tree>)
    requires Distinct(w.forest) && node in NodesOf(w.forest)
    requires r.orphans == [] && r.tree.kids == Sub(w.forest, node).kids + more
    requires Distinct(Lift(w, node, r).forest) && Replaced(w, Lift(w, node, r), node, r.tree)
    requires Grows(w, Lift(w, node, r))
    ensures Spares(w, Lift(w, node, r), node)
  {
    var kids := Sub(w.forest, node).kids;
    forall x | x in NodesOf(w.forest) && node !in NodesOf([Sub(w.forest, x)]) ensures Unharmed(w, Lift(w, node, r), x) {
      AppendSets(kids, more);
      assert r.tree.kids + [] == r.tree.kids;
      if x in NodesOf(kids) { SubOfAppend(kids, more, x); }
      LiftSpares(w, node, r, x);
    }
  }

  /** A scalar takes over a value. */
  method WriteValue(node: Node, merge: Node, ghost w: World, ghost index: map<Node, Node>)
    returns (ghost after: World, ghost s: Tree)
    requires Standing(w, index) && node in NodesOf(w.forest) && merge in NodesOf(w.forest)
    modifies node`value
    ensures Standing(after, index) && Grows(w, after) && Replaced(w, after, node, s)
    ensures News(w, after) == {}
    ensures s == Sub(w.forest, node).(fields := Sub(w.forest, node).fields.(value := Sub(w.forest, merge).fields.value))
    ensures Spares(w, after, node)
  {
    Alone(w, node, index);
    Alone(w, merge, index);
    SingleHolds(Sub(w.forest, merge), {});
    NodesExist(w.forest);
    ghost var r;
    r := SetValue(node, merge, Sub(w.forest, node), w.keys, index);
    Lifted(w, node, index, r);
    after, s := Lift(w, node, r), r.tree;
    assert Sub(w.forest, node).kids + [] == Sub(w.forest, node).kids;
    GrowthSpares(w, node, r, []);
  }

  /** A copy of a node goes to the end of the content, after its key in a mapping. */
  method AppendChild(node: Node, key: seq<Node>, child: Node, ghost ks: seq<Tree>, ghost w: World,
                     ghost index: map<Node, Node>)
    returns (ghost after: World, ghost s: Tree, ghost c: Tree)
    requires Standing(w, index) && node in NodesOf(w.forest) && child in NodesOf(w.forest)
    requires AllOf(ks) <= w.keys && Holds(ks) && KeyOf(Sub(w.forest, node).fields.kind, key, ks)
    modifies node`content
    ensures Standing(after, index) && Grows(w, after) && Replaced(w, after, node, s)
    ensures forall n | n in News(w, after) :: fresh(n)
    ensures s == Grown(Sub(w.forest, node), ks, c) && Strip(c) == Strip(Sub(w.forest, child))
    ensures NodesOf([c]) !! NodesOf(w.forest)
    ensures Spares(w, after, node)
  {
    ghost var r;
    r, c := AppendAlone(node, key, child, ks, w, index);
    after, s := Lift(w, node, r), r.tree;
    assert forall n | n in News(w, after) :: n in r.Added([Sub(w.forest, node)]) || n in r.AddedKeys(w.keys);
    GrowthSpares(w, node, r, [c]);
  }

  // The copy goes to its place, and the forest stands.
  method AppendAlone(node: Node, key: seq<Node>, child: Node, ghost ks: seq<Tree>, ghost w: World,
                     ghost index: map<Node, Node>)
    returns (ghost r: Merged, ghost c: Tree)
    requires Standing(w, index) && node in NodesOf(w.forest) && child in NodesOf(w.forest)
    requires AllOf(ks) <= w.keys && Holds(ks) && KeyOf(Sub(w.forest, node).fields.kind, key, ks)
    modifies node`content
    ensures Standing(Lift(w, node, r), index) && Grows(w, Lift(w, node, r))
    ensures Replaced(w, Lift(w, node, r), node, r.tree)
    ensures NewNodes(w, Lift(w, node, r)) <= r.Added([Sub(w.forest, node)])
    ensures NewKeys(w, Lift(w, node, r)) == r.AddedKeys(w.keys)
    ensures fresh(r.Added([Sub(w.forest, node)])) && fresh(r.AddedKeys(w.keys)) && r.orphans == []
    ensures r.tree == Grown(Sub(w.forest, node), ks, c) && Strip(c) == Strip(Sub(w.forest, child))
    ensures NodesOf([c]) !! NodesOf(w.forest)
  {
    Alone(w, node, index);
    Alone(w, child, index);
    NodesExist(w.forest);
    r, c := AppendCopy(node, key, child, Sub(w.forest, node), ks, Sub(w.forest, child), w.keys, index);
    Lifted(w, node, index, r);
  }

  // ----- one change after another -----

  lemma NothingReplaced(w: World, node: Node)
    requires Distinct(w.forest) && node in NodesOf(w.forest)
    ensures Replaced(w, w, node, Sub(w.forest, node)) && Grows(w, w)
    ensures News(w, w) == {}
  {
    ReplaceItself(w.forest, node);
    assert w.forest[..|w.forest|] == w.forest && w.forest[|w.forest|..] == [];
  }

  lemma TheSubtree(w: World, after: World, node: Node, s: Tree)
    requires Replaced(w, after, node, s)
    ensures node in NodesOf(after.forest) && Sub(after.forest, node) == s
  {
    var front, back := Replace(w.forest, node, s), after.forest[|w.forest|..];
    SubReplaced(w.forest, node, s);
    assert after.forest == front + back;
    SubOfAppend(front, back, node);
  }

  // Two changes of a node are one.
  lemma ReplacedTwice(w: World, now: World, after: World, node: Node, s: Tree, s': Tree)
    requires Distinct(now.forest) && Replaced(w, now, node, s) && Replaced(now, after, node, s')
    requires Grows(w, now)
    ensures Replaced(w, after, node, s')
  {
    var front, back := Replace(w.forest, node, s), now.forest[|w.forest|..];
    assert now.forest == front + back;
    AppendDistinct(front, back);
    SubReplaced(w.forest, node, s);
    ReplaceAppend(front, back, node, s');
    ReplaceNothing(back, node, s');
    ReplaceTwice(w.forest, node, s, s');
    Regrouped(after.forest, |now.forest|, Replace(w.forest, node, s'), back);
    TheSubtree(w, now, node, s);
    BelowTwice(w, now, after, node, s, s', back);
  }

  lemma Regrouped(ts: seq<Tree>, n: nat, front: seq<Tree>, back: seq<Tree>)
    requires n <= |ts| && ts[..n] == front + back
    ensures ts[..|front|] == front && ts[|front|..] == back + ts[n..]
  {
    assert ts == (front + back) + ts[n..];
  }

  lemma BelowTwice(w: World, now: World, after: World, node: Node, s: Tree, s': Tree, back: seq<Tree>)
    requires Replaced(w, now, node, s) && Replaced(now, after, node, s') && Grows(w, now)
    requires Sub(now.forest, node) == s && back == now.forest[|w.forest|..]
    requires after.forest[|w.forest|..] == back + after.forest[|now.forest|..]
    ensures Below(w, after, node, s')
  {
    AppendSets(back, after.forest[|now.forest|..]);
    forall x | x in NodesOf([s']) + NodesOf(after.forest[|w.forest|..]) && x in NodesOf(w.forest)
      ensures x in NodesOf([Sub(w.forest, node)])
    {
      if x !in NodesOf(back) { assert x in NodesOf([Sub(now.forest, node)]); }
    }
  }

  // A change of a child is a change of its parent.
  lemma ReplacedKid(w: World, after: World, node: Node, j: nat, kid: Tree)
    requires Distinct(w.forest) && node in NodesOf(w.forest) && j < |Sub(w.forest, node).kids|
    requires Replaced(w, after, Sub(w.forest, node).kids[j].node, kid)
    ensures Replaced(w, after, node, Swapped(Sub(w.forest, node), j, kid))
  {
    var t := Sub(w.forest, node);
    var c, now := t.kids[j].node, Swapped(t, j, kid);
    SubSets(w.forest, node);
    SingleSets(t);
    RootIn(t.kids, j);
    ReplaceInside(w.forest, node, c, kid);
    ReplaceKid(t.kids, j, kid);
    SubOfSub(w.forest, node, j);
    SwappedSets(t, j, kid);
    KidSets(t.kids, j);
  }

  lemma SwappedSets(t: Tree, j: nat, kid: Tree)
    requires j < |t.kids|
    ensures NodesOf([Swapped(t, j, kid)]) <= NodesOf([t]) + NodesOf([kid])
  {
    var now := Swapped(t, j, kid);
    Around(t.kids, j);
    Around(now.kids, j);
    assert now.kids[..j] == t.kids[..j] && now.kids[j + 1..] == t.kids[j + 1..];
    AppendThree(t.kids[..j], t.kids[j], t.kids[j + 1..]);
    AppendThree(t.kids[..j], kid, t.kids[j + 1..]);
    SingleSets(t);
    SingleSets(now);
  }

  lemma NewAfter(w: World, now: World, after: World)
    requires Grows(w, now) && Grows(now, after)
    ensures Grows(w, after)
    ensures News(w, after) <= News(w, now) + News(now, after)
  {}

  // A subtree after a change elsewhere: made of what it was, and of what the change moved or made.
  lemma SubAfter(w: World, after: World, node: Node, s: Tree, y: Node)
    requires Distinct(w.forest) && Distinct(after.forest) && Replaced(w, after, node, s)
    requires y in NodesOf(w.forest) && y in NodesOf(after.forest)
    ensures NodesOf([Sub(after.forest, y)]) <=
              NodesOf([Sub(w.forest, y)]) + NodesOf([s]) + NodesOf(after.forest[|w.forest|..])
    ensures y !in NodesOf([Sub(w.forest, node)]) ==>
              Sub(after.forest, y) == Replace([Sub(w.forest, y)], node, s)[0]
    ensures y !in NodesOf([Sub(w.forest, node)]) && node !in NodesOf([Sub(w.forest, y)]) ==>
              Sub(after.forest, y) == Sub(w.forest, y)
  {
    var front, back := Replace(w.forest, node, s), after.forest[|w.forest|..];
    assert after.forest == front + back;
    AppendSets(front, back);
    AppendDistinct(front, back);
    SubOfAppend(front, back, y);
    ReplaceSets(w.forest, node, s);
    if y in NodesOf(front) {
      SubOfReplace(w.forest, node, s, y);
      SubSets(w.forest, y);
      if y !in NodesOf([Sub(w.forest, node)]) { InPlace(Sub(w.forest, y), node, s); }
    } else {
      SubSets(back, y);
    }
  }

  lemma InPlace(t: Tree, node: Node, s: Tree)
    requires Distinct([t])
    ensures node !in NodesOf([t]) ==> Replace([t], node, s)[0] == t
    ensures NodesOf([Replace([t], node, s)[0]]) <= NodesOf([t]) + NodesOf([s])
  {
    var r := Replace([t], node, s);
    assert r == [r[0]];
    if node in NodesOf([t]) {
      ReplaceSets([t], node, s);
    } else {
      ReplaceNothing([t], node, s);
    }
  }
}
