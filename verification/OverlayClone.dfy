/** A deep copy, seen on snapshots: the same tree on new nodes. */
module OverlayClone {
  import opened YamlNode
  import opened OverlayMerge
  import opened OverlayTree
  import opened CloneNode

  lemma {:induction false} HeldIsClosed(ts: seq<Tree>, nodes: set<Node>)
    requires Holds(ts) && AllOf(ts) <= nodes
    ensures forall n | n in AllOf(ts) :: Inside(n, nodes)
    decreases ts
  {
    if ts != [] {
      HeldIsClosed(ts[0].keys, nodes);
      HeldIsClosed(ts[0].kids, nodes);
      HeldIsClosed(ts[1..], nodes);
      HeadIsInside(ts[0], nodes);
    }
  }

  lemma HeadIsInside(t: Tree, nodes: set<Node>)
    requires Mirrored(t) && NodesOf(t.keys) + NodesOf(t.kids) <= nodes
    ensures Inside(t.node, nodes)
  {
    var content := t.node.content;
    forall i | 0 <= i < |content| ensures content[i] in nodes {
      if t.fields.kind.Mapping? {
        assert content[2 * (i / 2)] == t.keys[i / 2].node && content[2 * (i / 2) + 1] == t.kids[i / 2].node;
        RootIn(t.keys, i / 2);
        RootIn(t.kids, i / 2);
      } else {
        RootIn(t.kids, i);
      }
    }
  }

  // A closed set with the roots in it has all of the trees in it.
  lemma {:induction false} ClosedHasAll(ts: seq<Tree>, nodes: set<Node>)
    requires Holds(ts) && Closed(nodes) && forall i | 0 <= i < |ts| :: ts[i].node in nodes
    ensures AllOf(ts) <= nodes
    decreases ts
  {
    if ts != [] {
      var t := ts[0];
      assert Mirrored(t) && Inside(t.node, nodes);
      forall i | 0 <= i < |t.kids| ensures t.kids[i].node in nodes {
        var c := if t.fields.kind.Mapping? then t.node.content[2 * i + 1] else t.node.content[i];
        assert c == t.kids[i].node;
      }
      forall i | 0 <= i < |t.keys| ensures t.keys[i].node in nodes {
        assert t.node.content[2 * i] == t.keys[i].node;
      }
      ClosedHasAll(t.keys, nodes);
      ClosedHasAll(t.kids, nodes);
      ClosedHasAll(ts[1..], nodes);
    }
  }

  // The trees on other nodes.
  ghost function Image(ts: seq<Tree>, m: map<Node, Node>): (r: seq<Tree>)
    requires AllOf(ts) <= m.Keys
    ensures |r| == |ts|
  {
    if ts == [] then []
    else [Tree(m[ts[0].node], ts[0].fields, Image(ts[0].keys, m), Image(ts[0].kids, m))] + Image(ts[1..], m)
  }

  lemma {:induction false} ImageRoots(ts: seq<Tree>, m: map<Node, Node>, i: nat)
    requires AllOf(ts) <= m.Keys && i < |ts|
    ensures ts[i].node in m && Image(ts, m)[i].node == m[ts[i].node]
  {
    if i > 0 { ImageRoots(ts[1..], m, i - 1); }
  }

  // The image of a set of nodes.
  ghost predicate Covers(m: map<Node, Node>, from: set<Node>, to: set<Node>) {
    forall c | c in to :: exists n :: n in from && n in m && m[n] == c
  }

  lemma {:induction false} ImageSets(ts: seq<Tree>, m: map<Node, Node>)
    requires AllOf(ts) <= m.Keys
    ensures Covers(m, NodesOf(ts), NodesOf(Image(ts, m)))
    ensures Covers(m, KeysOf(ts), KeysOf(Image(ts, m)))
    decreases ts
  {
    if ts != [] {
      ImageSets(ts[0].keys, m);
      ImageSets(ts[0].kids, m);
      ImageSets(ts[1..], m);
    }
  }

  lemma ApartInImage(m: map<Node, Node>, from: set<Node>, from': set<Node>, to: set<Node>, to': set<Node>)
    requires Injective(m) && Covers(m, from, to) && Covers(m, from', to') && from !! from'
    ensures to !! to'
  {}

  lemma {:induction false} ImageDistinct(ts: seq<Tree>, m: map<Node, Node>)
    requires AllOf(ts) <= m.Keys && Injective(m) && Distinct(ts)
    ensures Distinct(Image(ts, m))
    decreases ts
  {
    if ts != [] {
      var t, r := ts[0], Image(ts, m);
      ImageDistinct(t.kids, m);
      ImageDistinct(ts[1..], m);
      ImageSets(t.kids, m);
      ImageSets(ts[1..], m);
      ApartInImage(m, {t.node}, NodesOf(t.kids), {m[t.node]}, NodesOf(r[0].kids));
      ApartInImage(m, {t.node} + NodesOf(t.kids), NodesOf(ts[1..]), {m[t.node]} + NodesOf(r[0].kids), NodesOf(r[1..]));
    }
  }

  lemma {:induction false} ImageHolds(ts: seq<Tree>, m: map<Node, Node>)
    requires AllOf(ts) <= m.Keys && Isomorphism(m, false) && Holds(ts)
    ensures Holds(Image(ts, m))
    decreases ts
  {
    if ts != [] {
      ImageHolds(ts[0].keys, m);
      ImageHolds(ts[0].kids, m);
      ImageHolds(ts[1..], m);
      ImageMirrored(ts[0], Image(ts, m)[0], m);
    }
  }

  lemma ImageMirrored(t: Tree, c: Tree, m: map<Node, Node>)
    requires AllOf(t.keys) + AllOf(t.kids) + {t.node} <= m.Keys && Isomorphism(m, false) && Mirrored(t)
    requires c == Tree(m[t.node], t.fields, Image(t.keys, m), Image(t.kids, m))
    ensures Mirrored(c)
  {
    var n, n' := t.node, m[t.node];
    assert Mirrors(m, n, n', false);
    forall i | 0 <= i < |t.kids| ensures c.kids[i].node == m[t.kids[i].node] { ImageRoots(t.kids, m, i); }
    forall i | 0 <= i < |t.keys| ensures c.keys[i].node == m[t.keys[i].node] { ImageRoots(t.keys, m, i); }
    if t.fields.kind.Mapping? {
      forall i | 0 <= i < |t.kids|
        ensures n'.content[2 * i] == c.keys[i].node && n'.content[2 * i + 1] == c.kids[i].node
      {
        assert Maps(m, n.content[2 * i], n'.content[2 * i]) && Maps(m, n.content[2 * i + 1], n'.content[2 * i + 1]);
      }
    } else {
      forall i | 0 <= i < |t.kids| ensures n'.content[i] == c.kids[i].node {
        assert Maps(m, n.content[i], n'.content[i]);
      }
    }
  }

  lemma {:induction false} ImageStrip(ts: seq<Tree>, m: map<Node, Node>)
    requires AllOf(ts) <= m.Keys
    ensures StripAll(Image(ts, m)) == StripAll(ts)
    decreases ts
  {
    if ts != [] {
      ImageStrip(ts[0].keys, m);
      ImageStrip(ts[0].kids, m);
      ImageStrip(ts[1..], m);
    }
  }

  // The image of one tree under an isomorphism.
  lemma ImageIsCopy(t: Tree, m: map<Node, Node>) returns (c: Tree)
    requires Isomorphism(m, false) && t.node in m
    requires Holds([t]) && Distinct([t]) && NodesOf([t]) !! KeysOf([t])
    ensures c.node == m[t.node] && Holds([c]) && Strip(c) == Strip(t)
    ensures Distinct([c]) && NodesOf([c]) !! KeysOf([c])
    ensures NodesOf([c]) <= m.Values && KeysOf([c]) <= m.Values
  {
    ClosedHasAll([t], m.Keys);
    var r := Image([t], m);
    c := r[0];
    assert r == [c];
    ImageHolds([t], m);
    ImageDistinct([t], m);
    ImageSets([t], m);
    ImageStrip([t], m);
    ApartInImage(m, NodesOf([t]), KeysOf([t]), NodesOf(r), KeysOf(r));
    assert StripAll([c])[0] == StripAll([t])[0];
  }

  /** CloneYAMLNode on a tree: an equal tree, on nodes other than those there were before. */
  method CloneTree(node: Node, ghost t: Tree, ghost before: set<Node>) returns (copy: Node, ghost c: Tree)
    requires t.node == node && Holds([t]) && Distinct([t]) && NodesOf([t]) !! KeysOf([t])
    ensures c.node == copy && Holds([c]) && Strip(c) == Strip(t)
    ensures Distinct([c]) && NodesOf([c]) !! KeysOf([c])
    ensures fresh(NodesOf([c])) && fresh(KeysOf([c]))
    ensures NodesOf([c]) !! before && KeysOf([c]) !! before
  {
    ghost var all := AllOf([t]);
    ghost var m;
    HeldIsClosed([t], all);
    NodesExist([t]);
    var cloned: Node?;
    cloned, m := CloneYAMLNodeWithFlags(node, Flags(false, false), all);
    copy := cloned;
    c := ImageIsCopy(t, m);
  }
}
