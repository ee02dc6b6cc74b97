/** A copy that reaches its own source, and what the engine then reads: an input on which the first pair
    of the merge takes away what the next pair would be read from. */
module OverlayTangle {
  import opened YamlNode
  import opened OverlayMerge
  import opened OverlayTree
  import opened OverlayForest
  import opened OverlayNode
  import opened OverlayWorld
  import opened OverlayRelation
  import opened OverlayKeyPath
  import opened OverlayMerging
  import opened OverlayQuery
  import opened OverlaySteps

  ghost function PlainFields(kind: Kind, value: string): Fields {
    Fields(kind, 0, "", value, "", "", "", "", 0, 0)
  }

  // A node with its tree.
  ghost predicate Planted(n: Node, t: Tree)
    reads AllOf([t])
  {
    t.node == n && Holds([t]) && Distinct([t]) && NodesOf([t]) !! KeysOf([t])
  }

  method Leaf(value: string) returns (n: Node, ghost t: Tree)
    ensures fresh(n) && Planted(n, t) && t == Tree(n, PlainFields(Scalar, value), [], [])
    ensures NodesOf([t]) == {n} && KeysOf([t]) == {}
  {
    n := new Node.Plain(Scalar, value, []);
    t := Tree(n, PlainFields(Scalar, value), [], []);
    SingleSets(t);
    SingleHolds(t, {});
  }

  method Leaves(value: string) returns (a: Node, b: Node, c: Node, ghost ts: seq<Tree>)
    ensures |ts| == 3 && ts[0].node == a && ts[1].node == b && ts[2].node == c
    ensures Holds(ts) && Distinct(ts) && KeysOf(ts) == {} && NodesOf(ts) == {a, b, c}
    ensures fresh({a, b, c})
  {
    ghost var ta, tb, tc;
    a, ta := Leaf(value);
    b, tb := Leaf(value);
    c, tc := Leaf(value);
    ts := [ta, tb, tc];
    ThreeApart(ta, tb, tc);
  }

  // A sequence of three scalars.
  method Three(value: string) returns (n: Node, ghost t: Tree)
    ensures Planted(n, t) && t.fields.kind.Sequence? && |t.kids| == 3
    ensures KeysOf([t]) == {} && forall x | x in NodesOf([t]) :: fresh(x)
  {
    var a, b, c, ts := Leaves(value);
    NodesExist(ts);
    n := new Node.Plain(Sequence, "", [a, b, c]);
    t := Tree(n, PlainFields(Sequence, ""), [], ts);
    assert Mirrored(t) && Holds(ts);
    SingleSets(t);
    SingleHolds(t, {});
  }

  lemma ThreeApart(a: Tree, b: Tree, c: Tree)
    requires Distinct([a]) && Distinct([b]) && Distinct([c]) && Holds([a]) && Holds([b]) && Holds([c])
    requires NodesOf([a]) !! NodesOf([b]) && NodesOf([a]) !! NodesOf([c]) && NodesOf([b]) !! NodesOf([c])
    ensures Distinct([a, b, c]) && Holds([a, b, c])
    ensures NodesOf([a, b, c]) == NodesOf([a]) + NodesOf([b]) + NodesOf([c])
    ensures KeysOf([a, b, c]) == KeysOf([a]) + KeysOf([b]) + KeysOf([c])
  {
    assert [a] + [b] + [c] == [a, b, c];
    AppendThree([a], b, [c]);
    AppendThreeHolds([a], b, [c], {});
  }

  // A mapping that has one key, of this name.
  ghost predicate HasOne(n: Node, name: string, value: Node)
    reads n, n.content
  {
    && n.kind.Mapping? && |n.content| == 2 && n.content[1] == value
    && n.content[0] != null && n.content[0].value == name
  }

  ghost predicate IsOne(t: Tree, name: string, value: Tree) {
    && t.fields == PlainFields(Mapping, "") && t.kids == [value]
    && |t.keys| == 1 && t.keys[0].fields.value == name
  }

  method One(name: string, value: Node, ghost tv: Tree) returns (n: Node, ghost t: Tree)
    requires Planted(value, tv)
    ensures Planted(n, t) && IsOne(t, name, tv) && HasOne(n, name, value)
    ensures NodesOf([t]) == {n} + NodesOf([tv]) && KeysOf([t]) == {t.keys[0].node} + KeysOf([tv])
    ensures fresh(n) && fresh(t.keys[0].node) && n != t.keys[0].node
  {
    NodesExist([tv]);
    var key, tk := Leaf(name);
    assert key !in AllOf([tv]);
    n := new Node.Plain(Mapping, "", [key, value]);
    assert n !in AllOf([tv]) + {key};
    t := Tree(n, PlainFields(Mapping, ""), [tk], [tv]);
    SingleSets(t);
    SingleHolds(t, {});
  }

  lemma NestedSubs(t: Tree, m: Tree, items: Tree, name: string)
    requires IsOne(t, name, m) && IsOne(m, name, items) && Distinct([t])
    ensures m.node in NodesOf([t]) && Sub([t], m.node) == m && Sub([t], t.node) == t && t.node in NodesOf([t])
    ensures items.node in NodesOf([t]) && Sub([t], items.node) == items
    ensures t.node !in NodesOf([m])
  {
    SingleSets(t);
    SingleSets(m);
    SubOfKid([m], 0);
    SubOfKid([items], 0);
  }

  // The mapping and the mapping it is in both have the name, so that the name leads to the one and to
  // a value of it.
  lemma NestedMeets(t: Tree, m: Tree, items: Tree, name: string)
    requires IsOne(t, name, m) && IsOne(m, name, items)
    ensures Meets(t, m, m.node)
  {
    assert FirstOf(t.keys, name) == 0 && Leads(m, m.node, []);
    assert Leads(t, m.node, [name]);
    assert IsKey(m, 0, name) && Has(items, []);
    assert Has(m, [name]);
  }

  lemma NestedDistinct(m: Tree, items: Tree, name: string)
    requires IsOne(m, name, items) && items.fields.kind.Sequence?
    ensures DistinctKeys(Strip(m))
  {
    PairsOf(m);
  }

  // It is the items that the mapping would be merged with.
  lemma MetAreItems(t: Tree, m: Tree, items: Tree, name: string, names: seq<string>, met: Node)
    requires IsOne(t, name, m) && IsOne(m, name, items) && Distinct([t])
    requires Leads(t, m.node, names) && ValueAt(m, names, met)
    ensures names == [name] && met == items.node
  {
    SingleSets(t);
    SingleSets(m);
    assert names != [] && names[0] == name;
    if names[1..] != [] { LeadsIn(m, m.node, names[1..]); }
    assert names == [name] + names[1..];
  }

  // The document {name: {name: [value, value, value]}}.
  method Nested(name: string, value: string)
    returns (target: Node, source: Node, items: Node, ghost w: World, ghost t: Tree, ghost m: Tree, ghost ti: Tree)
    ensures Standing(w, map[]) && target in NodesOf(w.forest) && source in NodesOf(w.forest)
    ensures items in NodesOf(w.forest) && forall n | n in NodesOf(w.forest) :: fresh(n)
    ensures t == Sub(w.forest, target) && m == Sub(w.forest, source) && ti == Sub(w.forest, items)
    ensures IsOne(t, name, m) && IsOne(m, name, ti) && Distinct([t]) && ti.fields.kind.Sequence? && |ti.kids| == 3
    ensures t.node == target && m.node == source && ti.node == items
  {
    items, ti := Three(value);
    source, m := One(name, items, ti);
    target, t := One(name, source, m);
    w := World([t], KeysOf([t]));
    NewAgrees(w.forest, map[]);
    NestedSubs(t, m, ti, name);
  }

  lemma SameCount(a: Tree, b: Tree)
    requires Strip(a) == Strip(b) && a.fields.kind.Sequence?
    ensures b.fields == a.fields && |a.kids| == |b.kids|
  {}

  lemma ContentCount(w: World, n: Node, t: Tree)
    requires Standing(w, map[]) && n in NodesOf(w.forest) && t == Sub(w.forest, n)
    ensures n.kind == t.fields.kind && (n.kind.Sequence? ==> |n.content| == |t.kids|)
  {
    Alone(w, n, map[]);
    ChildCount(t);
  }

  // No keys lead on through a sequence.
  lemma NothingBehindItems(m: Tree, items: Tree, x: Node, names: seq<string>, v: Node)
    requires items.fields.kind.Sequence? && m.node != x && Leads(m, x, names)
    ensures !ValueAt(items, names, v)
  {}

  // The merge goes on from where it stopped: the source is merged with the items, which are of another
  // kind, so that a copy of them takes its place.
  method Turn(source: Node, items: Node, ghost w: World) returns (ghost after: World, ghost s: Tree)
    requires Standing(w, map[]) && source in NodesOf(w.forest) && items in NodesOf(w.forest)
    requires Sub(w.forest, items).fields.kind.Sequence? && !Sub(w.forest, source).fields.kind.Sequence?
    requires source !in NodesOf([Sub(w.forest, items)])
    modifies NodesOf([Sub(w.forest, source)])
    ensures MergedAt(w, after, source, Strip(Sub(w.forest, items)), s)
    ensures source.kind.Sequence? && |source.content| == |Sub(w.forest, items).kids|
  {
    ghost var m, ti := Sub(w.forest, source), Sub(w.forest, items);
    SubIsAt(w.forest, items);
    SubIsAt(w.forest, source);
    RootIn([ti], 0);
    ghost var names;
    var met;
    met, after, s, names := MergeNode(source, items, items, w, map[], Outside, m, ti);
    if met != null {
      NothingBehindItems(m, ti, items, names, met);
      assert false;
    }
    TheSubtree(w, after, source, s);
    OtherStrip(m, ti);
    SameCount(ti, s);
    ContentCount(after, source, s);
  }

  // Merging the source into the target comes to the source, with the items.
  method Comes(target: Node, source: Node, name: string, ghost w: World, ghost t: Tree, ghost m: Tree, ghost ti: Tree)
    returns (met: Node, ghost after: World, ghost names: seq<string>)
    requires Standing(w, map[]) && target in NodesOf(w.forest) && source in NodesOf(w.forest)
    requires t == Sub(w.forest, target) && m == Sub(w.forest, source) && t.node == target && m.node == source
    requires ti.node in NodesOf(w.forest) && ti == Sub(w.forest, ti.node)
    requires IsOne(t, name, m) && IsOne(m, name, ti) && Distinct([t]) && ti.fields.kind.Sequence?
    modifies NodesOf([t])
    ensures Standing(after, map[]) && Grows(w, after) && forall n | n in News(w, after) :: fresh(n)
    ensures Came(Outside, t, m, source, met, names) && met == ti.node && Unharmed(w, after, source)
    ensures met in NodesOf(after.forest) && Sub(after.forest, met) == ti
  {
    NestedSubs(t, m, ti, name);
    NestedMeets(t, m, ti, name);
    NestedDistinct(m, ti, name);
    RootIn([m], 0);
    ghost var s;
    var halted;
    halted, after, s, names := MergeNode(target, source, source, w, map[], Outside, t, m);
    assert halted != null;
    met := halted;
    MetAreItems(t, m, ti, name, names, met);
    RootIn(m.kids, 0);
    SingleSets(m);
    OutsideAfter(w, after, target, met, source);
  }

  /** Copying the mapping at name into the document {name: {name: [value, value, value]}}. The source has
      one pair when the merge begins. The merge comes to it, unchanged, with the list; merging it with
      the list leaves it with three children, so that the next pair is read at two and three. */
  method TangledCopyReadsTooFar(name: string, value: string)
    returns (target: Node, source: Node, met: Node, ghost names: seq<string>, ghost w: World, ghost halted: World,
             ghost after: World, ghost s: Tree)
    ensures target in NodesOf(w.forest) && source in NodesOf(w.forest)
    ensures
      var t, m := Sub(w.forest, target), Sub(w.forest, source);
      && IsOne(t, name, m) && |m.keys| == |m.kids| == 1 && m.keys[0].fields.value == name
      && m.kids[0].fields.kind.Sequence? && |m.kids[0].kids| == 3
      && Came(Outside, t, m, source, met, names) && met == m.kids[0].node
    ensures Unharmed(w, halted, source) && met in NodesOf(halted.forest)
    ensures MergedAt(halted, after, source, Strip(Sub(halted.forest, met)), s)
    ensures source.kind.Sequence? && |source.content| == 3
  {
    var items;
    ghost var t, m, ti;
    target, source, items, w, t, m, ti := Nested(name, value);
    SubSets(w.forest, target);
    met, halted, names := Comes(target, source, name, w, t, m, ti);
    SubSets(halted.forest, source);
    SubSets(w.forest, source);
    SingleSets(m);
    after, s := Turn(source, met, halted);
  }
}
