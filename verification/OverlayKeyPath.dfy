/** Key paths through mappings: when a merge comes to the node that the merged values are read from. */
module OverlayKeyPath {
  import opened Common
  import opened YamlNode
  import opened OverlayMerge
  import opened OverlayTree
  import opened OverlayNode
  import opened OverlayRelation

  // The place of the first key of a name, or the number of keys.
  ghost function FirstOf(keys: seq<Tree>, name: string): (j: nat)
    ensures j <= |keys| && NotAmong(keys, j, name) && (j < |keys| ==> keys[j].fields.value == name)
  {
    if keys == [] || keys[0].fields.value == name then 0 else 1 + FirstOf(keys[1..], name)
  }

  // These keys, each the first of its name, lead from a tree through mappings to a node in it.
  ghost predicate Leads(t: Tree, x: Node, names: seq<string>)
    decreases |names|
  {
    if names == [] then t.node == x
    else
      && t.fields.kind.Mapping?
      && var j := FirstOf(t.keys, names[0]);
         j < |t.keys| && j < |t.kids| && Leads(t.kids[j], x, names[1..])
  }

  // A tree has a value along these keys, through mappings.
  ghost predicate Has(m: Tree, names: seq<string>)
    decreases |names|
  {
    names != [] ==>
      && m.fields.kind.Mapping?
      && exists i: nat :: IsKey(m, i, names[0]) && Has(m.kids[i], names[1..])
  }

  ghost predicate IsKey(m: Tree, i: nat, name: string) {
    i < |m.keys| && i < |m.kids| && m.keys[i].fields.value == name
  }

  // The node is such a value.
  ghost predicate ValueAt(m: Tree, names: seq<string>, v: Node)
    decreases |names|
  {
    if names == [] then m.node == v
    else
      && m.fields.kind.Mapping?
      && exists i: nat :: IsKey(m, i, names[0]) && ValueAt(m.kids[i], names[1..], v)
  }

  lemma {:induction false} ValueIsHad(m: Tree, names: seq<string>, v: Node)
    requires ValueAt(m, names, v)
    ensures Has(m, names)
    decreases |names|
  {
    if names != [] {
      var i: nat :| IsKey(m, i, names[0]) && ValueAt(m.kids[i], names[1..], v);
      ValueIsHad(m.kids[i], names[1..], v);
    }
  }

  // What is merged has a value along the keys that lead from the target to the node.
  ghost predicate Meets(t: Tree, m: Tree, x: Node) {
    exists names :: Leads(t, x, names) && Has(m, names)
  }

  lemma {:induction false} LeadsIn(t: Tree, x: Node, names: seq<string>)
    requires Leads(t, x, names)
    ensures x in NodesOf([t]) && (names != [] ==> x in NodesOf(t.kids))
    decreases |names|
  {
    SingleSets(t);
    if names != [] {
      var j := FirstOf(t.keys, names[0]);
      LeadsIn(t.kids[j], x, names[1..]);
      KidSets(t.kids, j);
    }
  }

  lemma FirstIs(keys: seq<Tree>, j: nat)
    requires j < |keys| && IsFirst(keys, j)
    ensures FirstOf(keys, keys[j].fields.value) == j
  {
  }

  lemma FirstOfLonger(keys: seq<Tree>, more: seq<Tree>, name: string)
    ensures FirstOf(keys, name) < |keys| ==> FirstOf(keys + more, name) == FirstOf(keys, name)
    ensures FirstOf(keys, name) == |keys| ==> FirstOf(keys + more, name) >= |keys|
  {
    var j, k := FirstOf(keys, name), FirstOf(keys + more, name);
    assert j < |keys| ==> (keys + more)[j].fields.value == name;
    assert k < |keys| ==> (keys + more)[k] == keys[k];
  }

  // ----- paths through a target that is being merged into -----

  // No path leads to the node that did not before.
  ghost predicate LeadsKept(t: Tree, s: Tree, x: Node) {
    forall names | Leads(s, x, names) :: Leads(t, x, names)
  }

  lemma LeadsNowhere(t: Tree, s: Tree, x: Node)
    requires x !in NodesOf([s])
    ensures LeadsKept(t, s, x)
  {
    forall names ensures !Leads(s, x, names) {
      if Leads(s, x, names) { LeadsIn(s, x, names); }
    }
  }

  lemma LeadsToItself(t: Tree, s: Tree, x: Node)
    requires s.node == t.node && !s.fields.kind.Mapping?
    ensures LeadsKept(t, s, x)
  {}

  lemma LeadsSwapped(s: Tree, j: nat, kid: Tree, x: Node)
    requires j < |s.kids| && LeadsKept(s.kids[j], kid, x)
    ensures LeadsKept(s, Swapped(s, j, kid), x)
  {
    forall names | Leads(Swapped(s, j, kid), x, names) ensures Leads(s, x, names) {
      if names != [] && FirstOf(s.keys, names[0]) == j { assert Leads(kid, x, names[1..]); }
    }
  }

  lemma LeadsGrown(s: Tree, key: Tree, c: Tree, x: Node)
    requires |s.keys| == |s.kids| && x !in NodesOf([c])
    ensures LeadsKept(s, Grown(s, [key], c), x)
  {
    var g := Grown(s, [key], c);
    forall names | Leads(g, x, names) ensures Leads(s, x, names) {
      if names != [] {
        FirstOfLonger(s.keys, [key], names[0]);
        var j := FirstOf(g.keys, names[0]);
        if j >= |s.keys| { LeadsIn(c, x, names[1..]); }
      }
    }
  }

  // ----- pairs that do not come to the node -----

  // Merging a value under a name does not come to the node.
  ghost predicate Misses(s: Tree, name: string, v: Tree, x: Node) {
    forall names | names != [] && names[0] == name && Leads(s, x, names) :: !Has(v, names[1..])
  }

  lemma MissesFound(s: Tree, j: nat, v: Tree, x: Node)
    requires j < |s.keys| && j < |s.kids| && IsFirst(s.keys, j) && !Meets(s.kids[j], v, x)
    ensures Misses(s, s.keys[j].fields.value, v, x)
  {
    FirstIs(s.keys, j);
  }

  lemma MissesNone(s: Tree, name: string, v: Tree, x: Node)
    requires NotAmong(s.keys, |s.keys|, name)
    ensures Misses(s, name, v, x)
  {
  }

  // Found under a name, and then led to.
  lemma LeadsThrough(s: Tree, j: nat, x: Node, names: seq<string>)
    requires s.fields.kind.Mapping? && j < |s.keys| && j < |s.kids| && IsFirst(s.keys, j)
    requires Leads(s.kids[j], x, names)
    ensures Leads(s, x, [s.keys[j].fields.value] + names)
  {
    FirstIs(s.keys, j);
    assert ([s.keys[j].fields.value] + names)[1..] == names;
  }

  lemma ValueThrough(m: Tree, i: nat, names: seq<string>, v: Node)
    requires m.fields.kind.Mapping? && i < |m.keys| && i < |m.kids| && ValueAt(m.kids[i], names, v)
    ensures ValueAt(m, [m.keys[i].fields.value] + names, v)
  {
    var all := [m.keys[i].fields.value] + names;
    assert all[1..] == names;
    assert IsKey(m, i, all[0]);
  }

  // None of the first n pairs came to the node, as far as their names and keys are distinct.
  ghost predicate Unmet(t: Tree, m: Tree, n: nat, x: Node) {
    forall i: nat | i < n && i < |m.keys| && i < |m.kids| && DistinctKeys(Strip(m.kids[i])) ::
      NotAmong(m.keys, i, m.keys[i].fields.value) ==> Misses(t, m.keys[i].fields.value, m.kids[i], x)
  }

  // Distinct keys are those of pairwise different names, with distinct keys below.
  lemma DistinctTree(m: Tree)
    requires m.fields.kind.Mapping? && |m.keys| == |m.kids| && DistinctKeys(Strip(m))
    ensures forall i: nat | i < |m.keys| ::
              NotAmong(m.keys, i, m.keys[i].fields.value) && DistinctKeys(Strip(m.kids[i]))
  {
    forall i: nat | i < |m.keys|
      ensures NotAmong(m.keys, i, m.keys[i].fields.value) && DistinctKeys(Strip(m.kids[i]))
    {
      DistinctAt(m, i);
    }
  }

  lemma DistinctAt(m: Tree, i: nat)
    requires m.fields.kind.Mapping? && |m.keys| == |m.kids| && DistinctKeys(Strip(m)) && i < |m.keys|
    ensures NotAmong(m.keys, i, m.keys[i].fields.value) && DistinctKeys(Strip(m.kids[i]))
  {
    PairsOf(m);
    DistinctPairs(Strip(m), i);
    KeyNamesDistinct(m, Strip(m).pairs, i);
  }

  lemma DistinctPairs(u: Value, i: nat)
    requires u.fields.kind.Mapping? && DistinctKeys(u) && i < |u.pairs|
    ensures DistinctNames(u.pairs) && DistinctKeys(u.pairs[i].value)
  {}

  lemma KeyNamesDistinct(m: Tree, pairs: seq<Pair>, i: nat)
    requires |m.keys| == |m.kids| == |pairs| && DistinctNames(pairs) && i < |m.keys|
    requires forall k | 0 <= k < |pairs| :: pairs[k] == Pair(Strip(m.keys[k]), Strip(m.kids[k]))
    ensures NotAmong(m.keys, i, m.keys[i].fields.value)
  {
    assert forall k | 0 <= k < |pairs| :: pairs[k].Name() == m.keys[k].fields.value;
  }

  /** With distinct keys, a merge none of whose pairs came to the node does not meet it. */
  lemma NeverMet(t: Tree, m: Tree, x: Node)
    requires m.fields.kind.Mapping? && |m.keys| == |m.kids| && DistinctKeys(Strip(m))
    requires t.node != x && Unmet(t, m, |m.keys|, x)
    ensures !Meets(t, m, x)
  {
    forall names | Leads(t, x, names) ensures !Has(m, names) { NotHad(t, m, x, names); }
  }

  lemma NotHad(t: Tree, m: Tree, x: Node, names: seq<string>)
    requires m.fields.kind.Mapping? && |m.keys| == |m.kids| && DistinctKeys(Strip(m))
    requires t.node != x && Unmet(t, m, |m.keys|, x) && Leads(t, x, names)
    ensures !Has(m, names)
  {
    DistinctTree(m);
  }
}
