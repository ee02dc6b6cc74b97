/** The JSONPath engine seen from the overlay: what a path selects depends on the document's value alone. */
module OverlayQuery {
  import opened Common
  import opened YamlNode
  import opened OverlayMerge
  import opened OverlayTree
  import opened OverlayNode
  import opened OverlayForest
  import opened OverlayPrune

  // ----- paths and positions -----

  // A position in a document: the numbers of the values that lead to it from the top.
  type Position = seq<nat>

  // Which paths are valid, and what a path selects in a document, in order.
  datatype JsonPath = JsonPath(accepts: string -> bool, select: (string, Value) -> seq<Position>) {
    ghost predicate Sane() {
      forall path, v, pos | pos in select(path, v) :: Within(v, pos)
    }
  }

  function Kids(v: Value): seq<Value> {
    if v.fields.kind.Mapping? then seq(|v.pairs|, i requires 0 <= i < |v.pairs| => v.pairs[i].value) else v.items
  }

  predicate Within(v: Value, pos: Position)
    decreases |pos|
  {
    pos != [] ==> pos[0] < |Kids(v)| && Within(Kids(v)[pos[0]], pos[1..])
  }

  function At(v: Value, pos: Position): Value
    requires Within(v, pos)
    decreases |pos|
  {
    if pos == [] then v else At(Kids(v)[pos[0]], pos[1..])
  }

  // The tree at a position, or at the last place on the way that exists.
  ghost function TreeAt(t: Tree, pos: Position): Tree
    decreases |pos|
  {
    if pos == [] || pos[0] >= |t.kids| then t else TreeAt(t.kids[pos[0]], pos[1..])
  }

  // The nodes that a path selects in a document.
  ghost function Answer(paths: JsonPath, path: string, t: Tree): seq<Node> {
    var all := paths.select(path, Strip(t));
    seq(|all|, i requires 0 <= i < |all| => TreeAt(t, all[i]).node)
  }

  // ----- the document's value -----

  lemma KidsOf(t: Tree)
    requires Paired([t])
    ensures |Kids(Strip(t))| == |t.kids| && forall i | 0 <= i < |t.kids| :: Kids(Strip(t))[i] == Strip(t.kids[i])
  {
    if t.fields.kind.Mapping? { PairsOf(t); }
  }

  // A position's tree has the position's value, and is where its node is.
  lemma {:induction false} TreeIsThere(t: Tree, pos: Position)
    requires Paired([t]) && Within(Strip(t), pos)
    ensures Strip(TreeAt(t, pos)) == At(Strip(t), pos)
    ensures TreeAt(t, pos).node in NodesOf([t])
    ensures Distinct([t]) ==> Sub([t], TreeAt(t, pos).node) == TreeAt(t, pos)
    decreases |pos|
  {
    SingleSets(t);
    KidsOf(t);
    if pos != [] {
      var k := t.kids[pos[0]];
      KidPaired(t.kids, pos[0]);
      KidSets(t.kids, pos[0]);
      TreeIsThere(k, pos[1..]);
      if Distinct([t]) {
        SubOfKid(t.kids, pos[0]);
        SubInSub(t.kids, k.node, TreeAt(t, pos).node);
      }
    }
  }

  lemma {:induction false} KidPaired(ts: seq<Tree>, i: nat)
    requires Paired(ts) && i < |ts|
    ensures Paired([ts[i]])
  {
    if i > 0 { KidPaired(ts[1..], i - 1); }
  }

  // Where the value number i of a node is in its content.
  function PlaceOf(kind: Kind, i: nat): nat {
    if kind.Mapping? then 2 * i + 1 else i
  }

  lemma KidAt(t: Tree, i: nat)
    requires Holds([t]) && i < |t.kids|
    ensures Mirrored(t) && PlaceOf(t.fields.kind, i) < |t.node.content|
    ensures t.node.content[PlaceOf(t.fields.kind, i)] == t.kids[i].node
    ensures Holds([t.kids[i]]) && AllOf([t.kids[i]]) <= AllOf([t])
  {
    SingleHolds(t, {});
    SingleSets(t);
    KidSets(t.kids, i);
    KidHolds(t.kids, i);
    if t.fields.kind.Mapping? { assert t.node.content[2 * i + 1] == t.kids[i].node; }
  }

  lemma ChildCount(t: Tree)
    requires Holds([t])
    ensures FieldsOf(t.node) == t.fields
    ensures |t.node.content| == (if t.fields.kind.Mapping? then 2 * |t.kids| else |t.kids|)
  {
    SingleHolds(t, {});
  }

  lemma KeyChild(t: Tree, i: nat)
    requires Holds([t]) && t.fields.kind.Mapping? && i < |t.keys|
    ensures |t.keys| == |t.kids| && 2 * i < |t.node.content| && t.node.content[2 * i] == t.keys[i].node
    ensures Holds([t.keys[i]]) && AllOf([t.keys[i]]) <= AllOf([t])
  {
    KeyNames(t);
    assert KeyAt(t, i);
    SingleHolds(t, {});
    SingleSets(t);
    KidSets(t.keys, i);
    KidHolds(t.keys, i);
  }

  // The value of a node, with everything below it.
  method Read(root: Node, ghost t: Tree) returns (v: Value)
    requires t.node == root && Holds([t])
    ensures v == Strip(t)
    decreases t, 2
  {
    ChildCount(t);
    SingleSets(t);
    NodesExist([t]);
    var fields := Fields(root.kind, root.style, root.tag, root.value, root.anchor, root.headComment,
                         root.lineComment, root.footComment, root.line, root.column);
    if root.kind.Mapping? {
      var pairs := ReadPairs(root, t);
      PairsAre(t, pairs);
      v := Value(fields, pairs, []);
    } else {
      var items := ReadItems(root, t);
      v := Value(fields, [], items);
    }
  }

  method ReadPairs(root: Node, ghost t: Tree) returns (pairs: seq<Pair>)
    requires t.node == root && Holds([t]) && t.fields.kind.Mapping?
    ensures |pairs| == |t.kids| == |t.keys|
    ensures forall i | 0 <= i < |pairs| :: pairs[i] == Pair(Strip(t.keys[i]), Strip(t.kids[i]))
    decreases t, 1
  {
    ChildCount(t);
    KeyNames(t);
    NodesExist([t]);
    pairs := [];
    for i := 0 to |root.content| / 2
      invariant Holds([t]) && |pairs| == i
      invariant forall k | 0 <= k < i :: pairs[k] == Pair(Strip(t.keys[k]), Strip(t.kids[k]))
    {
      var pair := ReadPair(root, i, t);
      pairs := pairs + [pair];
    }
  }

  method ReadPair(root: Node, i: nat, ghost t: Tree) returns (pair: Pair)
    requires t.node == root && Holds([t]) && t.fields.kind.Mapping? && i < |t.kids| == |t.keys|
    ensures pair == Pair(Strip(t.keys[i]), Strip(t.kids[i]))
    decreases t, 0
  {
    KeyChild(t, i);
    KidAt(t, i);
    NodesExist([t.kids[i]]);
    var key := Read(root.content[2 * i], t.keys[i]);
    var value := Read(root.content[2 * i + 1], t.kids[i]);
    pair := Pair(key, value);
  }

  method ReadItems(root: Node, ghost t: Tree) returns (items: seq<Value>)
    requires t.node == root && Holds([t]) && !t.fields.kind.Mapping?
    ensures items == StripAll(t.kids)
    decreases t, 0
  {
    ChildCount(t);
    NodesExist([t]);
    items := [];
    for i := 0 to |root.content|
      invariant Holds([t]) && |items| == i
      invariant forall k | 0 <= k < i :: items[k] == Strip(t.kids[k])
    {
      KidAt(t, i);
      var item := Read(root.content[i], t.kids[i]);
      items := items + [item];
    }
  }

  // ----- asking -----

  // The node at a position.
  method Follow(root: Node, pos: Position, ghost t: Tree) returns (n: Node)
    requires t.node == root && Holds([t]) && Within(Strip(t), pos)
    ensures n == TreeAt(t, pos).node
    decreases |pos|
  {
    if pos == [] { return root; }
    HeldIsPaired([t]);
    KidsOf(t);
    ChildCount(t);
    KidAt(t, pos[0]);
    n := Follow(root.content[PlaceOf(root.kind, pos[0])], pos[1..], t.kids[pos[0]]);
  }

  /** What a path selects: value nodes of the document, at the positions that its value determines. */
  method Query(root: Node, paths: JsonPath, path: string, ghost t: Tree) returns (nodes: seq<Node>)
    requires t.node == root && Holds([t]) && paths.Sane()
    ensures nodes == Answer(paths, path, t)
    ensures forall n | n in nodes :: n in NodesOf([t])
  {
    NodesExist([t]);
    HeldIsPaired([t]);
    var v := Read(root, t);
    var all := paths.select(path, v);
    nodes := [];
    for i := 0 to |all|
      invariant Holds([t]) && nodes == Answer(paths, path, t)[..i]
      invariant forall n | n in nodes :: n in NodesOf([t])
    {
      assert all[i] in paths.select(path, v);
      TreeIsThere(t, all[i]);
      var n := Follow(root, all[i], t);
      nodes := nodes + [n];
    }
  }
}
