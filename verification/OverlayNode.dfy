/** The single changes to a node that merging is made of, on the target's own tree. */
module OverlayNode {
  import opened Common
  import opened YamlNode
  import opened OverlayMerge
  import opened OverlayTree
  import opened OverlayClone

  // The target after a merge, the trees cut off by it, and the key nodes now in use.
  datatype Merged = Merged(tree: Tree, orphans: seq<Tree>, keys: set<Node>) {
    ghost function Trees(): seq<Tree> {
      [tree] + orphans
    }

    // The value nodes that were not there before.
    ghost function Added(before: seq<Tree>): set<Node> {
      NodesOf(Trees()) - NodesOf(before)
    }

    ghost function AddedKeys(before: set<Node>): set<Node> {
      keys - before
    }
  }

  // The target is still at its node, no node is lost, and every old node has its old parent, if any.
  ghost predicate Follows(t: Tree, keys: set<Node>, index: map<Node, Node>, r: Merged) {
    match r
    case Merged(tree, orphans, keys') =>
      && tree.node == t.node
      && Apart([tree] + orphans, keys') && keys <= keys'
      && NodesOf([t]) <= NodesOf([tree] + orphans)
      && Agrees([tree] + orphans, index)
  }

  // A tree of new nodes only agrees with every index.
  lemma {:induction false} NewAgrees(ts: seq<Tree>, index: map<Node, Node>)
    requires NodesOf(ts) !! index.Keys
    ensures Agrees(ts, index)
    decreases ts
  {
    if ts != [] {
      forall i | 0 <= i < |ts[0].kids| ensures ts[0].kids[i].node !in index { RootIn(ts[0].kids, i); }
      NewAgrees(ts[0].kids, index);
      NewAgrees(ts[1..], index);
    }
  }

  // ----- overwriting -----

  lemma OverwrittenApart(t: Tree, c: Tree, keys: set<Node>)
    requires Apart([t], keys)
    requires NodesOf([c]) !! NodesOf([t]) + keys && KeysOf([c]) !! NodesOf([t]) + keys
    requires Distinct([c]) && NodesOf([c]) !! KeysOf([c])
    ensures
      var trees := [Tree(t.node, c.fields, c.keys, c.kids)] + t.kids;
      Apart(trees, keys + KeysOf([c])) && NodesOf([t]) <= NodesOf(trees) <= NodesOf([t]) + NodesOf([c])
  {
    var now := Tree(t.node, c.fields, c.keys, c.kids);
    SingleSets(t);
    SingleSets(c);
    SingleSets(now);
    AppendSets([now], t.kids);
    AppendDistinct([now], t.kids);
  }

  lemma OverwrittenFollows(t: Tree, c: Tree, keys: set<Node>, index: map<Node, Node>, r: Merged)
    requires Apart([t], keys) && Agrees([t], index)
    requires NodesOf([c]) !! NodesOf([t]) + keys + index.Keys && KeysOf([c]) !! NodesOf([t]) + keys
    requires Distinct([c]) && NodesOf([c]) !! KeysOf([c])
    requires r == Merged(Tree(t.node, c.fields, c.keys, c.kids), t.kids, keys + KeysOf([c]))
    ensures Follows(t, keys, index, r)
    ensures NodesOf(r.Trees()) <= NodesOf([t]) + NodesOf([c])
  {
    OverwrittenApart(t, c, keys);
    SingleSets(c);
    AppendAgrees([r.tree], t.kids, index);
    NewAgrees(c.kids, index);
    forall i | 0 <= i < |c.kids| ensures c.kids[i].node !in index { RootIn(c.kids, i); }
    assert IsParent(t.node, c.kids, index);
    assert [r.tree][1..] == [] && [t][1..] == [];
  }

  // The target becomes a copy of the merged tree; what was below it is cut off.
  method Overwrite(node: Node, merge: Node, ghost t: Tree, ghost m: Tree, ghost keys: set<Node>,
                   ghost index: map<Node, Node>) returns (ghost r: Merged)
    requires t.node == node && m.node == merge && Apart([t], keys) && Apart([m], keys)
    requires Holds([t]) && Holds([m]) && Agrees([t], index)
    modifies node
    ensures Follows(t, keys, index, r) && Holds(r.Trees())
    ensures fresh(r.Added([t])) && fresh(r.AddedKeys(keys))
    ensures Strip(r.tree) == Strip(m) && r.orphans == t.kids && fresh(NodesOf(r.tree.kids))
  {
    NodesExist([t]);
    ghost var c;
    var copy;
    copy, c := CloneTree(merge, m, NodesOf([t]) + keys + index.Keys);
    assert Holds([t]);
    r := Merged(Tree(node, c.fields, c.keys, c.kids), t.kids, keys + KeysOf([c]));
    OverwrittenFollows(t, c, keys, index, r);
    NotBelow(t, keys);
    CopyOver(node, copy, t, c);
  }

  lemma NotBelow(t: Tree, keys: set<Node>)
    requires Apart([t], keys)
    ensures t.node !in AllOf(t.kids) && t.node !in AllOf(t.keys)
    ensures t.node in NodesOf([t]) && NodesOf(t.kids) <= NodesOf([t]) && KeysOf(t.kids) <= keys && AllOf(t.keys) <= keys
  {
    SingleSets(t);
  }

  // The node takes the place of the copy, whose node is dropped.
  method CopyOver(node: Node, copy: Node, ghost t: Tree, ghost c: Tree)
    requires c.node == copy && Holds([c]) && Holds([t])
    requires node !in AllOf([c]) && node !in AllOf(t.kids)
    modifies node
    ensures Holds([Tree(node, c.fields, c.keys, c.kids)] + t.kids)
  {
    SingleHolds(c, {});
    SingleHolds(t, {});
    SingleSets(c);
    NodesExist(c.keys);
    NodesExist(c.kids);
    NodesExist(t.kids);
    assert node !in AllOf(c.keys) && node !in AllOf(c.kids);
    assert Mirrored(c);
    CopyInto(node, copy);
    ghost var now := Tree(node, c.fields, c.keys, c.kids);
    assert Mirrored(now) && Holds(c.keys) && Holds(c.kids) && Holds(t.kids);
    HoldTogether(now, t.kids);
  }

  lemma HoldTogether(t: Tree, rest: seq<Tree>)
    requires Mirrored(t) && Holds(t.keys) && Holds(t.kids) && Holds(rest)
    ensures Holds([t] + rest)
  {
    SingleHolds(t, {});
    AppendHolds([t], rest, {});
  }

  // *node = *copy
  method CopyInto(node: Node, copy: Node)
    modifies node
    ensures FieldsOf(node) == old(FieldsOf(copy))
    ensures node.alias == old(copy.alias) && node.content == old(copy.content)
  {
    node.kind, node.style, node.tag, node.value := copy.kind, copy.style, copy.tag, copy.value;
    node.anchor, node.alias, node.content := copy.anchor, copy.alias, copy.content;
    node.headComment, node.lineComment, node.footComment := copy.headComment, copy.lineComment, copy.footComment;
    node.line, node.column := copy.line, copy.column;
  }

  // ----- scalars -----

  method SetValue(node: Node, merge: Node, ghost t: Tree, ghost keys: set<Node>, ghost index: map<Node, Node>)
    returns (ghost r: Merged)
    requires t.node == node && Apart([t], keys) && Holds([t]) && Agrees([t], index)
    modifies node`value
    ensures Follows(t, keys, index, r) && Holds(r.Trees())
    ensures r == Merged(t.(fields := t.fields.(value := old(merge.value))), [], keys)
    ensures r.Added([t]) == {} && r.AddedKeys(keys) == {}
  {
    NotBelow(t, keys);
    SingleHolds(t, {});
    node.value := merge.value;
    r := Merged(t.(fields := t.fields.(value := node.value)), [], keys);
    SingleHolds(r.tree, {});
    SingleSets(t);
    SingleSets(r.tree);
    assert r.Trees() == [r.tree];
    assert [t][1..] == [] && [r.tree][1..] == [];
  }

  // ----- appending -----

  // The tree with keys and a child appended.
  ghost function Grown(t: Tree, ks: seq<Tree>, c: Tree): Tree {
    t.(keys := t.keys + ks, kids := t.kids + [c])
  }

  lemma GrownApart(t: Tree, ks: seq<Tree>, c: Tree, keys: set<Node>)
    requires Apart([t], keys) && AllOf(ks) <= keys
    requires NodesOf([c]) !! NodesOf([t]) + keys && KeysOf([c]) !! NodesOf([t]) + keys
    requires Distinct([c]) && NodesOf([c]) !! KeysOf([c])
    ensures Apart([Grown(t, ks, c)], keys + KeysOf([c]))
    ensures NodesOf([Grown(t, ks, c)]) == NodesOf([t]) + NodesOf([c])
  {
    SingleSets(t);
    SingleSets(Grown(t, ks, c));
    AppendSets(t.kids, [c]);
    AppendSets(t.keys, ks);
    AppendDistinct(t.kids, [c]);
  }

  lemma GrownAgrees(t: Tree, ks: seq<Tree>, c: Tree, index: map<Node, Node>)
    requires Agrees([t], index) && NodesOf([c]) !! index.Keys
    ensures Agrees([Grown(t, ks, c)], index)
  {
    var g := Grown(t, ks, c);
    AppendAgrees(t.kids, [c], index);
    NewAgrees([c], index);
    RootIn([c], 0);
    assert [g][1..] == [];
    assert IsParent(t.node, t.kids, index);
    forall i | 0 <= i < |g.kids| && g.kids[i].node in index ensures index[g.kids[i].node] == g.node {
      assert i < |t.kids| && g.kids[i] == t.kids[i];
    }
  }

  // A copy goes to the end of the content, after its key in a mapping.
  method AppendCopy(node: Node, key: seq<Node>, child: Node, ghost t: Tree, ghost ks: seq<Tree>, ghost x: Tree,
                    ghost keys: set<Node>, ghost index: map<Node, Node>) returns (ghost r: Merged, ghost c: Tree)
    requires t.node == node && x.node == child && Apart([t], keys) && Apart([x], keys)
    requires Holds([t]) && Holds([x]) && Agrees([t], index)
    requires AllOf(ks) <= keys && Holds(ks) && KeyOf(t.fields.kind, key, ks)
    modifies node`content
    ensures Follows(t, keys, index, r) && Holds(r.Trees())
    ensures fresh(r.Added([t])) && fresh(r.AddedKeys(keys))
    ensures Strip(c) == Strip(x) && r.tree == Grown(t, ks, c) && r.orphans == [] && fresh(NodesOf([c]))
  {
    NodesExist([t]);
    NodesExist(ks);
    var copy;
    copy, c := CloneTree(child, x, NodesOf([t]) + keys + index.Keys);
    NotBelow(t, keys);
    GrowContent(node, key + [copy], t, ks, c, keys);
    r := Merged(Grown(t, ks, c), [], keys + KeysOf([c]));
    CopyFollows(t, ks, c, keys, index, r);
  }

  lemma CopyFollows(t: Tree, ks: seq<Tree>, c: Tree, keys: set<Node>, index: map<Node, Node>, r: Merged)
    requires Apart([t], keys) && AllOf(ks) <= keys && Agrees([t], index)
    requires NodesOf([c]) !! NodesOf([t]) + keys + index.Keys && KeysOf([c]) !! NodesOf([t]) + keys
    requires Distinct([c]) && NodesOf([c]) !! KeysOf([c])
    requires r == Merged(Grown(t, ks, c), [], keys + KeysOf([c]))
    ensures Follows(t, keys, index, r) && r.Trees() == [r.tree]
    ensures NodesOf(r.Trees()) == NodesOf([t]) + NodesOf([c])
  {
    assert r.Trees() == [r.tree];
    GrownApart(t, ks, c, keys);
    GrownAgrees(t, ks, c, index);
  }

  // The key nodes that go with a new child.
  ghost predicate KeyOf(kind: Kind, key: seq<Node>, ks: seq<Tree>) {
    if kind.Mapping? then |ks| == 1 && key == [ks[0].node] else ks == [] && key == []
  }

  lemma ListsGrow(t: Tree, content: seq<Node?>, ks: seq<Tree>, c: Tree, added: seq<Node>)
    requires Lists(t.fields.kind, content, t.keys, t.kids)
    requires |added| > 0 && added[|added| - 1] == c.node && KeyOf(t.fields.kind, added[..|added| - 1], ks)
    ensures Lists(t.fields.kind, content + added, t.keys + ks, t.kids + [c])
  {
    if t.fields.kind.Mapping? { assert added[0] == added[..1][0]; }
  }

  lemma GrowingAway(t: Tree, ks: seq<Tree>, c: Tree, keys: set<Node>)
    requires Apart([t], keys) && AllOf(ks) <= keys && t.node !in AllOf([c])
    ensures t.node !in AllOf(t.keys + ks) + AllOf(t.kids + [c])
  {
    NotBelow(t, keys);
    AppendSets(t.keys, ks);
    AppendSets(t.kids, [c]);
  }

  // All but the node itself is in place.
  lemma GrowingHolds(t: Tree, ks: seq<Tree>, c: Tree, added: seq<Node>)
    requires Holds([t]) && Holds(ks) && Holds([c])
    requires |added| > 0 && added[|added| - 1] == c.node && KeyOf(t.fields.kind, added[..|added| - 1], ks)
    ensures HoldsBut(t.keys + ks, {}) && HoldsBut(t.kids + [c], {})
    ensures Mirrored(t) && Lists(t.fields.kind, t.node.content + added, t.keys + ks, t.kids + [c])
  {
    SingleHolds(t, {});
    ListsGrow(t, t.node.content, ks, c, added);
    AppendHolds(t.keys, ks, {});
    AppendHolds(t.kids, [c], {});
  }

  // The nodes of a new last child, and of its key if it has one, go to the end of the content.
  method GrowContent(node: Node, added: seq<Node>, ghost t: Tree, ghost ks: seq<Tree>, ghost c: Tree,
                     ghost keys: set<Node>)
    requires t.node == node && Apart([t], keys) && AllOf(ks) <= keys && node !in AllOf([c])
    requires Holds([t]) && Holds(ks) && Holds([c])
    requires |added| > 0 && added[|added| - 1] == c.node && KeyOf(t.fields.kind, added[..|added| - 1], ks)
    modifies node`content
    ensures Holds([Grown(t, ks, c)])
  {
    GrowingHolds(t, ks, c, added);
    GrowingAway(t, ks, c, keys);
    node.content := node.content + added;
    SingleHolds(Grown(t, ks, c), {});
  }

  // ----- items -----

  lemma ItemsOf(m: Tree)
    requires Holds([m]) && m.fields.kind.Sequence?
    ensures |m.node.content| == |m.kids|
    ensures forall i | 0 <= i < |m.kids| :: m.node.content[i] == m.kids[i].node
  {
    SingleHolds(m, {});
  }

  lemma AllItems(t: Tree, m: Tree, now: Tree)
    requires t.fields.kind.Sequence? && m.fields.kind.Sequence? && now.fields == t.fields
    requires StripAll(now.kids) == StripAll(t.kids) + StripAll(m.kids)[..|m.kids|]
    ensures Strip(now) == Merge(Strip(t), Strip(m))
  {
    StripItems(t);
    StripItems(m);
    StripItems(now);
    MergeItems(t.fields, m.fields, StripAll(t.kids), StripAll(m.kids));
  }

  lemma StripItems(t: Tree)
    requires t.fields.kind.Sequence?
    ensures Strip(t) == Value(t.fields, [], StripAll(t.kids))
  {}

  lemma MergeItems(f: Fields, g: Fields, a: seq<Value>, b: seq<Value>)
    requires f.kind.Sequence? && g.kind.Sequence?
    ensures Merge(Value(f, [], a), Value(g, [], b)) == Value(f, [], a + b[..|b|])
  {
    assert b[..|b|] == b;
  }

  lemma GrownItems(t: Tree, c: Tree, items: seq<Value>, i: nat, front: seq<Value>)
    requires i < |items| && Strip(c) == items[i] && StripAll(t.kids) == front + items[..i]
    ensures StripAll(Grown(t, [], c).kids) == front + items[..i + 1]
  {
    AppendStrip(t.kids, [c]);
    assert StripAll([c]) == [items[i]];
  }

  // ----- merging mappings -----

  // The first key of that name.
  method FindKey(node: Node, name: string, ghost t: Tree) returns (j: Option<nat>)
    requires t.node == node && t.fields.kind.Mapping? && Holds([t])
    ensures j == Find(Strip(t).pairs, name)
  {
    KeyNames(t);
    j := None;
    for i := 0 to |node.content| / 2
      invariant j.None? && forall k | 0 <= k < i :: t.keys[k].fields.value != name
    {
      assert KeyAt(t, i);
      if node.content[2 * i].value == name {
        j := Some(i);
        break;
      }
    }
    FoundKey(t, name, j);
  }

  lemma FoundKey(t: Tree, name: string, j: Option<nat>)
    requires t.fields.kind.Mapping? && |t.keys| == |t.kids|
    requires forall k | 0 <= k < (if j.Some? then j.value else |t.keys|) && k < |t.keys| ::
               t.keys[k].fields.value != name
    requires j.Some? ==> j.value < |t.keys| && t.keys[j.value].fields.value == name
    ensures j == Find(Strip(t).pairs, name)
  {
    var pairs := Strip(t).pairs;
    forall k | 0 <= k < |pairs| ensures pairs[k].Name() == t.keys[k].fields.value {
      assert pairs[k].key == Strip(t.keys[k]);
    }
    if j.Some? { FindIs(pairs, j.value); }
  }

  // The heap's pair number i.
  ghost predicate KeyAt(t: Tree, i: nat)
    reads t.node, t.node.content
  {
    && i < |t.keys| && i < |t.kids| && 2 * i + 1 < |t.node.content|
    && t.node.content[2 * i] != null
    && t.node.content[2 * i].value == t.keys[i].fields.value
    && t.node.content[2 * i + 1] == t.kids[i].node
  }

  lemma KeyNames(t: Tree)
    requires t.fields.kind.Mapping? && Holds([t])
    ensures |t.node.content| == 2 * |t.kids| && |t.keys| == |t.kids|
    ensures forall i: nat | i < |t.kids| :: KeyAt(t, i)
  {
    SingleHolds(t, {});
    forall i: nat | i < |t.kids| ensures KeyAt(t, i) {
      KidHolds(t.keys, i);
      SingleHolds(t.keys[i], {});
      assert t.node.content[2 * i] == t.keys[i].node && t.node.content[2 * i + 1] == t.kids[i].node;
    }
  }

  // ----- pairs -----

  // The tree with another tree in place of child j.
  ghost function Swapped(t: Tree, j: nat, kid: Tree): Tree
    requires j < |t.kids|
  {
    t.(kids := t.kids[j := kid])
  }

  lemma PairsAre(t: Tree, pairs: seq<Pair>)
    requires t.fields.kind.Mapping? && |t.keys| == |t.kids| == |pairs|
    requires forall i | 0 <= i < |pairs| :: pairs[i] == Pair(Strip(t.keys[i]), Strip(t.kids[i]))
    ensures Strip(t).pairs == pairs && Strip(t).items == [] && Strip(t).fields == t.fields
  {}

  lemma PairsOf(t: Tree)
    requires t.fields.kind.Mapping? && |t.keys| == |t.kids|
    ensures |Strip(t).pairs| == |t.kids| && Strip(t).items == [] && Strip(t).fields == t.fields
    ensures forall i | 0 <= i < |t.kids| :: Strip(t).pairs[i] == Pair(Strip(t.keys[i]), Strip(t.kids[i]))
  {}

  lemma SwappedPairs(t: Tree, j: nat, kid: Tree)
    requires t.fields.kind.Mapping? && |t.keys| == |t.kids| && j < |t.kids|
    ensures Strip(Swapped(t, j, kid)).pairs == Strip(t).pairs[j := Pair(Strip(t).pairs[j].key, Strip(kid))]
  {
    PairsOf(t);
    PairsOf(Swapped(t, j, kid));
  }

  lemma SwappedStrip(t: Tree, j: nat, kid: Tree, k: Tree, x: Tree)
    requires t.fields.kind.Mapping? && |t.keys| == |t.kids| && j < |t.kids|
    requires Find(Strip(t).pairs, k.fields.value) == Some(j) && Strip(kid) == Merge(Strip(t.kids[j]), Strip(x))
    ensures Strip(Swapped(t, j, kid)).pairs == MergePair(Strip(t).pairs, Pair(Strip(k), Strip(x)))
  {
    PairsOf(t);
    SwappedPairs(t, j, kid);
    var q := Pair(Strip(k), Strip(x));
    assert q.Name() == k.fields.value;
    MergeFound(Strip(t).pairs, q, j);
  }

  lemma MergeFound(pairs: seq<Pair>, q: Pair, j: nat)
    requires Find(pairs, q.Name()) == Some(j)
    ensures MergePair(pairs, q) == pairs[j := Pair(pairs[j].key, Merge(pairs[j].value, q.value))]
  {}

  lemma GrownStrip(t: Tree, c: Tree, k: Tree, x: Tree)
    requires t.fields.kind.Mapping? && |t.keys| == |t.kids|
    requires Find(Strip(t).pairs, k.fields.value).None? && Strip(c) == Strip(x)
    ensures Strip(Grown(t, [k], c)).pairs == MergePair(Strip(t).pairs, Pair(Strip(k), Strip(x)))
  {
    var pairs, q := Strip(t).pairs, Pair(Strip(k), Strip(x));
    PairsOf(t);
    PairsAre(Grown(t, [k], c), pairs + [q]);
    assert q.Name() == k.fields.value;
  }

  // The pairs after each single merge.
  ghost predicate Stages(stages: seq<seq<Pair>>, qs: seq<Pair>) {
    |stages| == |qs| + 1 && forall i: nat | i < |qs| :: StageAt(stages, qs, i)
  }

  ghost predicate StageAt(stages: seq<seq<Pair>>, qs: seq<Pair>, i: nat) {
    i < |qs| && i + 1 < |stages| && stages[i + 1] == MergePair(stages[i], qs[i])
  }

  lemma {:induction false} AllStages(ps: seq<Pair>, qs: seq<Pair>) returns (stages: seq<seq<Pair>>)
    ensures Stages(stages, qs) && stages[0] == ps && stages[|qs|] == MergePairs(ps, qs)
    decreases |qs|
  {
    if qs == [] {
      stages := [ps];
    } else {
      var rest := AllStages(MergePair(ps, qs[0]), qs[1..]);
      stages := [ps] + rest;
      forall i: nat | i < |qs| ensures StageAt(stages, qs, i) {
        if i > 0 { assert StageAt(rest, qs[1..], i - 1) && qs[i] == qs[1..][i - 1]; }
      }
    }
  }

  // The mapping after n single merges.
  ghost predicate AtStage(t: Tree, stages: seq<seq<Pair>>, n: nat, now: Tree) {
    n < |stages| && now.fields == t.fields && Strip(now).pairs == stages[n]
  }

  lemma NextStage(t: Tree, m: Tree, stages: seq<seq<Pair>>, n: nat, now: Tree, next: Tree)
    requires AtStage(t, stages, n, now) && Stages(stages, Strip(m).pairs)
    requires m.fields.kind.Mapping? && n < |m.kids| == |m.keys| && next.fields == t.fields
    requires Strip(next).pairs == MergePair(Strip(now).pairs, Pair(Strip(m.keys[n]), Strip(m.kids[n])))
    ensures AtStage(t, stages, n + 1, next)
  {
    PairsOf(m);
    assert StageAt(stages, Strip(m).pairs, n);
  }

  lemma StripMapping(t: Tree, m: Tree)
    requires t.fields.kind.Mapping? && m.fields.kind.Mapping?
    ensures Merge(Strip(t), Strip(m)) == Strip(t).(pairs := MergePairs(Strip(t).pairs, Strip(m).pairs))
  {}
}
