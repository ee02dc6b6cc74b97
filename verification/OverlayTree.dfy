/**
 Snapshots of the YAML trees an overlay works on. A tree owns its value nodes, which occur
 nowhere else. Key nodes may be shared between trees: they are read, and never changed.
 */
module OverlayTree {
  import opened YamlNode
  import opened OverlayMerge

  // A mapping's keys and values in order; any other node has no keys.
  datatype Tree = Tree(node: Node, fields: Fields, keys: seq<Tree>, kids: seq<Tree>)

  // The value nodes of a list of trees.
  ghost function NodesOf(ts: seq<Tree>): set<Node> {
    if ts == [] then {} else {ts[0].node} + NodesOf(ts[0].kids) + NodesOf(ts[1..])
  }

  // The nodes of all keys in a list of trees.
  ghost function KeysOf(ts: seq<Tree>): set<Node> {
    if ts == [] then {} else NodesOf(ts[0].keys) + KeysOf(ts[0].keys) + KeysOf(ts[0].kids) + KeysOf(ts[1..])
  }

  ghost function AllOf(ts: seq<Tree>): set<Node> {
    NodesOf(ts) + KeysOf(ts)
  }

  // No value node occurs twice.
  ghost predicate Distinct(ts: seq<Tree>) {
    ts != [] ==>
      && ts[0].node !in NodesOf(ts[0].kids)
      && {ts[0].node} + NodesOf(ts[0].kids) !! NodesOf(ts[1..])
      && Distinct(ts[0].kids)
      && Distinct(ts[1..])
  }

  // The trees own their value nodes, and their keys are among the given nodes.
  ghost predicate Apart(ts: seq<Tree>, keys: set<Node>) {
    Distinct(ts) && KeysOf(ts) <= keys && NodesOf(ts) !! keys
  }

  // ----- trees and the heap -----

  function FieldsOf(n: Node): Fields
    reads n
  {
    Fields(n.kind, n.style, n.tag, n.value, n.anchor, n.headComment, n.lineComment, n.footComment, n.line, n.column)
  }

  // The content of a node with these keys and values.
  ghost predicate Lists(kind: Kind, content: seq<Node?>, keys: seq<Tree>, kids: seq<Tree>) {
    if kind.Mapping? then
      && |keys| == |kids| && |content| == 2 * |kids|
      && forall i | 0 <= i < |kids| :: content[2 * i] == keys[i].node && content[2 * i + 1] == kids[i].node
    else
      && keys == [] && |content| == |kids|
      && forall i | 0 <= i < |kids| :: content[i] == kids[i].node
  }

  ghost predicate Mirrored(t: Tree)
    reads t.node
  {
    && FieldsOf(t.node) == t.fields
    && t.node.alias == null
    && Lists(t.fields.kind, t.node.content, t.keys, t.kids)
  }

  // A snapshot has every field of its node, and the node is no alias.
  lemma SnapshotIsComplete(t: Tree)
    requires Mirrored(t)
    ensures
      var n, f := t.node, t.fields;
      && f.kind == n.kind && f.style == n.style && f.tag == n.tag && f.value == n.value && f.anchor == n.anchor
      && f.headComment == n.headComment && f.lineComment == n.lineComment && f.footComment == n.footComment
      && f.line == n.line && f.column == n.column && n.alias == null
  {}

  // The heap holds these trees, but for the given nodes.
  ghost predicate HoldsBut(ts: seq<Tree>, but: set<Node>)
    reads AllOf(ts) - but
  {
    ts != [] ==>
      && (ts[0].node in but || Mirrored(ts[0]))
      && HoldsBut(ts[0].keys, but)
      && HoldsBut(ts[0].kids, but)
      && HoldsBut(ts[1..], but)
  }

  ghost predicate Holds(ts: seq<Tree>)
    reads AllOf(ts)
  {
    HoldsBut(ts, {})
  }

  // The nodes of trees that exist, exist.
  lemma {:induction false} NodesExist(ts: seq<Tree>)
    ensures forall n | n in AllOf(ts) :: allocated(n)
    decreases ts
  {
    if ts != [] {
      var t, n := ts[0], ts[0].node;
      assert allocated(t) && allocated(n);
      NodesExist(t.keys);
      NodesExist(t.kids);
      NodesExist(ts[1..]);
      forall x | x in AllOf(ts) ensures allocated(x) {
        assert x == n || x in AllOf(t.keys) || x in AllOf(t.kids) || x in AllOf(ts[1..]);
      }
    }
  }

  // ----- trees and values -----

  ghost function Strip(t: Tree): Value {
    var keys, kids := StripAll(t.keys), StripAll(t.kids);
    if t.fields.kind.Mapping? && |keys| == |kids| then
      Value(t.fields, seq(|kids|, i requires 0 <= i < |kids| => Pair(keys[i], kids[i])), [])
    else
      Value(t.fields, [], kids)
  }

  ghost function StripAll(ts: seq<Tree>): (r: seq<Value>)
    ensures |r| == |ts| && forall i | 0 <= i < |ts| :: r[i] == Strip(ts[i])
  {
    if ts == [] then [] else [Strip(ts[0])] + StripAll(ts[1..])
  }

  // ----- trees and parent indexes -----

  // Wherever the index has an entry for a value node, it is the node's parent.
  ghost predicate Agrees(ts: seq<Tree>, index: map<Node, Node>) {
    ts != [] ==>
      && IsParent(ts[0].node, ts[0].kids, index)
      && Agrees(ts[0].kids, index)
      && Agrees(ts[1..], index)
  }

  ghost predicate IsParent(parent: Node, kids: seq<Tree>, index: map<Node, Node>) {
    forall i | 0 <= i < |kids| && kids[i].node in index :: index[kids[i].node] == parent
  }

  // ----- lists -----

  lemma {:induction false} AppendSets(a: seq<Tree>, b: seq<Tree>)
    ensures NodesOf(a + b) == NodesOf(a) + NodesOf(b)
    ensures KeysOf(a + b) == KeysOf(a) + KeysOf(b)
    decreases |a|
  {
    if a == [] {
      assert a + b == b;
    } else {
      assert (a + b)[1..] == a[1..] + b;
      AppendSets(a[1..], b);
    }
  }

  lemma {:induction false} AppendDistinct(a: seq<Tree>, b: seq<Tree>)
    ensures Distinct(a + b) <==> Distinct(a) && Distinct(b) && NodesOf(a) !! NodesOf(b)
    decreases |a|
  {
    if a == [] {
      assert a + b == b;
    } else {
      assert (a + b)[1..] == a[1..] + b;
      AppendDistinct(a[1..], b);
      AppendSets(a[1..], b);
    }
  }

  lemma {:induction false} AppendHolds(a: seq<Tree>, b: seq<Tree>, but: set<Node>)
    ensures HoldsBut(a + b, but) <==> HoldsBut(a, but) && HoldsBut(b, but)
    decreases |a|
  {
    if a == [] {
      assert a + b == b;
    } else {
      assert (a + b)[1..] == a[1..] + b;
      AppendHolds(a[1..], b, but);
    }
  }

  lemma {:induction false} AppendAgrees(a: seq<Tree>, b: seq<Tree>, index: map<Node, Node>)
    ensures Agrees(a + b, index) <==> Agrees(a, index) && Agrees(b, index)
    decreases |a|
  {
    if a == [] {
      assert a + b == b;
    } else {
      assert (a + b)[1..] == a[1..] + b;
      AppendAgrees(a[1..], b, index);
    }
  }

  lemma AppendStrip(a: seq<Tree>, b: seq<Tree>)
    ensures StripAll(a + b) == StripAll(a) + StripAll(b)
  {}

  // A list around one of its elements.
  lemma Around(ts: seq<Tree>, j: nat)
    requires j < |ts|
    ensures ts == ts[..j] + [ts[j]] + ts[j + 1..]
  {}

  lemma AppendThree(a: seq<Tree>, t: Tree, b: seq<Tree>)
    ensures NodesOf(a + [t] + b) == NodesOf(a) + NodesOf([t]) + NodesOf(b)
    ensures KeysOf(a + [t] + b) == KeysOf(a) + KeysOf([t]) + KeysOf(b)
    ensures Distinct(a + [t] + b) <==>
              && Distinct(a) && Distinct([t]) && Distinct(b)
              && NodesOf(a) !! NodesOf([t]) && NodesOf(a) !! NodesOf(b) && NodesOf([t]) !! NodesOf(b)
  {
    AppendSets(a, [t]);
    AppendSets(a + [t], b);
    AppendDistinct(a, [t]);
    AppendDistinct(a + [t], b);
  }

  lemma AppendThreeHolds(a: seq<Tree>, t: Tree, b: seq<Tree>, but: set<Node>)
    ensures HoldsBut(a + [t] + b, but) <==> HoldsBut(a, but) && HoldsBut([t], but) && HoldsBut(b, but)
  {
    AppendHolds(a, [t], but);
    AppendHolds(a + [t], b, but);
  }

  // What one tree of a list is, on its own.
  lemma SingleSets(t: Tree)
    ensures NodesOf([t]) == {t.node} + NodesOf(t.kids)
    ensures KeysOf([t]) == AllOf(t.keys) + KeysOf(t.kids)
    ensures Distinct([t]) <==> t.node !in NodesOf(t.kids) && Distinct(t.kids)
  {
    assert [t][1..] == [];
  }

  lemma SingleHolds(t: Tree, but: set<Node>)
    ensures HoldsBut([t], but) <==>
              (t.node in but || Mirrored(t)) && HoldsBut(t.keys, but) && HoldsBut(t.kids, but)
  {
    assert [t][1..] == [];
  }

  lemma {:induction false} HoldsWeaken(ts: seq<Tree>, but: set<Node>)
    requires Holds(ts)
    ensures HoldsBut(ts, but)
    decreases ts
  {
    if ts != [] {
      HoldsWeaken(ts[0].keys, but);
      HoldsWeaken(ts[0].kids, but);
      HoldsWeaken(ts[1..], but);
    }
  }

  lemma {:induction false} HoldsApart(ts: seq<Tree>, but: set<Node>)
    requires HoldsBut(ts, but) && AllOf(ts) !! but
    ensures Holds(ts)
    decreases ts
  {
    if ts != [] {
      HoldsApart(ts[0].keys, but);
      HoldsApart(ts[0].kids, but);
      HoldsApart(ts[1..], but);
    }
  }

  lemma {:induction false} RootIn(ts: seq<Tree>, i: nat)
    requires i < |ts|
    ensures ts[i].node in NodesOf(ts)
  {
    if i > 0 { RootIn(ts[1..], i - 1); }
  }

  lemma KidSets(ts: seq<Tree>, i: nat)
    requires i < |ts|
    ensures NodesOf([ts[i]]) <= NodesOf(ts) && KeysOf([ts[i]]) <= KeysOf(ts)
    ensures Distinct(ts) ==> Distinct([ts[i]])
  {
    Around(ts, i);
    AppendThree(ts[..i], ts[i], ts[i + 1..]);
  }

  lemma KidHolds(ts: seq<Tree>, i: nat)
    requires i < |ts| && Holds(ts)
    ensures Holds([ts[i]])
  {
    Around(ts, i);
    AppendThreeHolds(ts[..i], ts[i], ts[i + 1..], {});
  }
}
