/**
 Merging one node of the forest into another in place, as overlay updates and copies do. For a
 copy the target may be in the source's tree, or the source in the target's. In the latter case the
 merge may come to the source itself, and would change what is being merged: there it stops.
 */
module OverlayMerging {
  import opened Common
  import opened YamlNode
  import opened OverlayMerge
  import opened OverlayTree
  import opened OverlayNode
  import opened OverlayForest
  import opened OverlayWorld
  import opened OverlayRelation
  import opened OverlayKeyPath

  // ----- coming to the source -----

  // Where the merge stopped: keys lead from the target to the source, and the value that would be
  // merged into the source is at the same keys of what is merged.
  ghost predicate Came(rel: Relation, t: Tree, m: Tree, source: Node, met: Node?, names: seq<string>) {
    met != null ==> rel.Outside? && Leads(t, source, names) && ValueAt(m, names, met)
  }

  // A merge that was not stopped: with distinct keys, what is merged has no value at the source's keys.
  ghost predicate Passed(rel: Relation, t: Tree, m: Tree, s: Tree, source: Node) {
    rel.Outside? ==> LeadsKept(t, s, source) && (DistinctKeys(Strip(m)) ==> !Meets(t, m, source))
  }

  // The new value of the target is the merge of the two values: what is merged stays as it is while
  // it is read, or it is a mapping with distinct keys and the target itself.
  ghost predicate Predicted(rel: Relation, node: Node, m: Tree) {
    match rel
    case Flat => node !in NodesOf(m.kids)
    case _ => Telling(rel, m)
  }

  ghost predicate Telling(rel: Relation, x: Tree) {
    rel.Steady() || (rel.Above? && rel.path == [] && DistinctKeys(Strip(x)))
  }

  // ----- what merging some pairs leaves of the target -----

  // After n pairs: the old keys in place, the children of all other names as they were, and only
  // names of the merged pairs behind them.
  ghost predicate Kept(t: Tree, s: Tree, keys: seq<Tree>, n: nat) {
    && n <= |keys| && |t.keys| == |t.kids| <= |s.keys| == |s.kids|
    && s.fields == t.fields
    && (forall j | 0 <= j < |t.keys| :: s.keys[j] == t.keys[j])
    && (forall j | 0 <= j < |t.kids| && NotAmong(keys, n, t.keys[j].fields.value) :: s.kids[j] == t.kids[j])
    && (forall j | |t.keys| <= j < |s.keys| :: !NotAmong(keys, n, s.keys[j].fields.value))
  }

  // A pair merged: into child j, or as a new pair.
  ghost predicate PairDone(s: Tree, key: Tree, j: Option<nat>, x: Tree, s': Tree) {
    match j
    case Some(k) =>
      && k < |s.kids| && k < |s.keys| && IsFirst(s.keys, k) && s.keys[k].fields.value == key.fields.value
      && s' == Swapped(s, k, x)
    case None => s' == Grown(s, [key], x)
  }

  lemma KeptOn(t: Tree, s: Tree, keys: seq<Tree>, n: nat, j: Option<nat>, x: Tree, s': Tree)
    requires Kept(t, s, keys, n) && n < |keys| && PairDone(s, keys[n], j, x, s')
    ensures Kept(t, s', keys, n + 1)
  {
    forall k | 0 <= k < |t.kids| && NotAmong(keys, n + 1, t.keys[k].fields.value) ensures s'.kids[k] == t.kids[k] {
      assert NotAmong(keys, n, t.keys[k].fields.value) && keys[n].fields.value != t.keys[k].fields.value;
    }
    forall k | |t.keys| <= k < |s'.keys| ensures !NotAmong(keys, n + 1, s'.keys[k].fields.value) {
      if k < |s.keys| { assert !NotAmong(keys, n, s.keys[k].fields.value); } else { assert s'.keys[k] == keys[n]; }
    }
  }

  lemma NothingMerged(t: Tree, keys: seq<Tree>)
    requires |t.keys| == |t.kids|
    ensures Kept(t, t, keys, 0)
  {}

  // A path to the source whose first key no merged pair had is still there.
  lemma UntouchedLeads(t: Tree, s: Tree, keys: seq<Tree>, n: nat, x: Node, names: seq<string>)
    requires Kept(t, s, keys, n) && names != [] && NotAmong(keys, n, names[0]) && Leads(t, x, names)
    ensures Leads(s, x, names)
  {
    FirstOfLonger(t.keys, s.keys[|t.keys|..], names[0]);
    assert s.keys == t.keys + s.keys[|t.keys|..];
  }

  lemma MissedFromTheStart(t: Tree, s: Tree, keys: seq<Tree>, n: nat, name: string, v: Tree, x: Node)
    requires Kept(t, s, keys, n) && NotAmong(keys, n, name) && Misses(s, name, v, x)
    ensures Misses(t, name, v, x)
  {
    forall names | names != [] && names[0] == name && Leads(t, x, names) ensures !Has(v, names[1..]) {
      UntouchedLeads(t, s, keys, n, x, names);
    }
  }

  lemma OneMoreUnmet(t: Tree, m: Tree, n: nat, x: Node)
    requires n < |m.keys| && n < |m.kids| && Unmet(t, m, n, x)
    requires DistinctKeys(Strip(m.kids[n])) && NotAmong(m.keys, n, m.keys[n].fields.value) ==>
               Misses(t, m.keys[n].fields.value, m.kids[n], x)
    ensures Unmet(t, m, n + 1, x)
  {}

  lemma UnmetOn(t: Tree, s: Tree, m: Tree, n: nat, x: Node)
    requires Kept(t, s, m.keys, n) && n < |m.keys| && n < |m.kids| && Unmet(t, m, n, x)
    requires DistinctKeys(Strip(m.kids[n])) ==> Misses(s, m.keys[n].fields.value, m.kids[n], x)
    ensures Unmet(t, m, n + 1, x)
  {
    var name := m.keys[n].fields.value;
    if DistinctKeys(Strip(m.kids[n])) && NotAmong(m.keys, n, name) {
      MissedFromTheStart(t, s, m.keys, n, name, m.kids[n], x);
    }
    OneMoreUnmet(t, m, n, x);
  }

  // The child that the next pair goes into has not been touched: that makes merging end.
  ghost predicate Descends(rel: Relation, t: Tree, s: Tree, i: nat, name: string) {
    rel.Above? && rel.loose == 0 ==>
      forall j: nat | Find(Strip(s).pairs, name) == Some(j) && OnPath(rel, i, j) ::
        j < |t.kids| && j < |s.kids| && s.kids[j] == t.kids[j]
  }

  // The child found under the name of the first key of that name.
  lemma NamedChild(t: Tree, s: Tree, keys: seq<Tree>, i: nat, j: nat)
    requires Kept(t, s, keys, i) && i < |keys| && j < |s.keys|
    requires NotAmong(keys, i, keys[i].fields.value) && s.keys[j].fields.value == keys[i].fields.value
    ensures j < |t.kids| && s.kids[j] == t.kids[j]
  {}

  lemma FirstUntouched(w: World, node: Node, merge: Node, source: Node, rel: Relation, t: Tree, keys: seq<Tree>, i: nat)
    requires Apart(w.forest, w.keys) && node in NodesOf(w.forest) && merge in NodesOf(w.forest)
    requires Related(w, node, merge, source, rel) && !rel.Flat?
    requires Kept(t, Sub(w.forest, node), keys, i) && i < |keys| && keys == Sub(w.forest, merge).keys
    requires Sub(w.forest, merge).fields.kind.Mapping? && t.fields.kind.Mapping?
    requires rel.Above? && rel.path == [] ==> keys == t.keys
    ensures Descends(rel, t, Sub(w.forest, node), i, keys[i].fields.value)
  {
    var s, name := Sub(w.forest, node), keys[i].fields.value;
    if rel.Above? && rel.loose == 0 {
      forall j: nat | Find(Strip(s).pairs, name) == Some(j) && OnPath(rel, i, j)
        ensures j < |t.kids| && j < |s.kids| && s.kids[j] == t.kids[j]
      {
        FoundFirst(s, j, name);
        if rel.path == [] { FirstIsNew(s.keys, keys, i); }
        NamedChild(t, s, keys, i, j);
      }
    }
  }

  lemma FirstIsNew(all: seq<Tree>, keys: seq<Tree>, i: nat)
    requires i < |keys| <= |all| && IsFirst(all, i) && forall k | 0 <= k < |keys| :: all[k] == keys[k]
    ensures NotAmong(keys, i, keys[i].fields.value)
  {}

  lemma FoundFirst(s: Tree, j: nat, name: string)
    requires s.fields.kind.Mapping? && |s.keys| == |s.kids| && Find(Strip(s).pairs, name) == Some(j)
    ensures j < |s.keys| && IsFirst(s.keys, j) && s.keys[j].fields.value == name
  {
    PairsOf(s);
    NamesAre(s);
  }

  lemma NamesAre(s: Tree)
    requires s.fields.kind.Mapping? && |s.keys| == |s.kids|
    ensures forall k | 0 <= k < |s.keys| :: Strip(s).pairs[k].Name() == s.keys[k].fields.value
  {
    PairsOf(s);
  }

  // ----- sequences -----

  lemma ItemAt(w: World, m: Tree, i: nat)
    requires Distinct(w.forest) && m.node in NodesOf(w.forest) && Sub(w.forest, m.node) == m && i < |m.kids|
    ensures m.kids[i].node in NodesOf(w.forest) && Sub(w.forest, m.kids[i].node) == m.kids[i]
  {
    SubOfSub(w.forest, m.node, i);
  }

  // What appending the first n items has come to: copies of them, unless they have the target in their trees.
  ghost predicate Appended(start: World, w: World, node: Node, merge: Node, s: Tree, n: nat)
    requires node in NodesOf(start.forest) && merge in NodesOf(start.forest)
  {
    var t, m := Sub(start.forest, node), Sub(start.forest, merge);
    && Grows(start, w) && Replaced(start, w, node, s) && Spares(start, w, node)
    && s.fields == t.fields && n <= |m.kids|
    && (node !in NodesOf(m.kids) ==> StripAll(s.kids) == StripAll(t.kids) + StripAll(m.kids)[..n])
  }

  lemma NothingAppended(w: World, node: Node, merge: Node)
    requires Distinct(w.forest) && node in NodesOf(w.forest) && merge in NodesOf(w.forest)
    ensures Appended(w, w, node, merge, Sub(w.forest, node), 0)
    ensures News(w, w) == {}
  {
    NothingReplaced(w, node);
    var t, m := Sub(w.forest, node), Sub(w.forest, merge);
    assert StripAll(t.kids) + StripAll(m.kids)[..0] == StripAll(t.kids);
  }

  // The heap is where the appending has come to.
  ghost predicate Appending(start: World, w: World, node: Node, merge: Node, s: Tree, n: nat, index: map<Node, Node>)
    reads AllOf(w.forest)
  {
    && node in NodesOf(start.forest) && merge in NodesOf(start.forest)
    && Standing(w, index) && Appended(start, w, node, merge, s, n)
  }

  // An item without the target is still the same.
  lemma ItemUnharmed(start: World, w: World, node: Node, m: Tree, i: nat)
    requires Distinct(start.forest) && m.node in NodesOf(start.forest) && Sub(start.forest, m.node) == m
    requires Spares(start, w, node) && i < |m.kids| && node !in NodesOf(m.kids)
    ensures m.kids[i].node in NodesOf(w.forest) && Sub(w.forest, m.kids[i].node) == m.kids[i]
  {
    ItemAt(start, m, i);
    KidSets(m.kids, i);
    assert Unharmed(start, w, m.kids[i].node);
  }

  // Appends a copy of item i to the target as it is now.
  method AppendItem(node: Node, item: Node, ghost start: World, ghost w: World, ghost index: map<Node, Node>,
                    ghost s: Tree, ghost merge: Node, ghost i: nat)
    returns (ghost after: World, ghost s': Tree)
    requires Apart(start.forest, start.keys) && Appending(start, w, node, merge, s, i, index)
    requires Sub(start.forest, node).fields.kind.Sequence?
    requires i < |Sub(start.forest, merge).kids| && Sub(start.forest, merge).kids[i].node == item
    modifies node`content
    ensures Appending(start, after, node, merge, s', i + 1, index)
    ensures forall n | n in News(start, after) :: n in News(start, w) || fresh(n)
  {
    ghost var t, m := Sub(start.forest, node), Sub(start.forest, merge);
    ItemAt(start, m, i);
    TheSubtree(start, w, node, s);
    if node !in NodesOf(m.kids) { ItemUnharmed(start, w, node, m, i); }
    ghost var c;
    after, s', c := AppendChild(node, [], item, [], w, index);
    ReplacedTwice(start, w, after, node, s, s');
    SparesTwice(start, w, after, node);
    NewAfter(start, w, after);
    if node !in NodesOf(m.kids) { GrownItems(s, c, StripAll(m.kids), i, StripAll(t.kids)); }
  }

  // The items of a sequence, as the heap has them.
  lemma ItemsStand(w: World, merge: Node, index: map<Node, Node>)
    requires Standing(w, index) && merge in NodesOf(w.forest) && Sub(w.forest, merge).fields.kind.Sequence?
    ensures |merge.content| == |Sub(w.forest, merge).kids|
    ensures forall i | 0 <= i < |merge.content| :: merge.content[i] == Sub(w.forest, merge).kids[i].node
  {
    Alone(w, merge, index);
    ItemsOf(Sub(w.forest, merge));
  }

  // The loop over the items.
  method AppendItems(node: Node, merge: Node, ghost w: World, ghost index: map<Node, Node>)
    returns (ghost after: World, ghost s: Tree)
    requires Standing(w, index) && node in NodesOf(w.forest) && merge in NodesOf(w.forest)
    requires Sub(w.forest, node).fields.kind.Sequence? && Sub(w.forest, merge).fields.kind.Sequence?
    modifies node`content
    ensures Appending(w, after, node, merge, s, |Sub(w.forest, merge).kids|, index)
    ensures forall n | n in News(w, after) :: fresh(n)
  {
    ItemsStand(w, merge, index);
    NothingAppended(w, node, merge);
    var items := merge.content;
    after, s := w, Sub(w.forest, node);
    for i := 0 to |items|
      invariant Appending(w, after, node, merge, s, i, index)
      invariant forall n | n in News(w, after) :: fresh(n)
    {
      after, s := AppendItem(node, items[i], w, after, index, s, merge, i);
    }
  }

  /** Copies of all items go to the end, also when the sequence is appended to itself; only for a target
      inside an item is the outcome not that of the two values. */
  method MergeSequence(node: Node, merge: Node, ghost w: World, ghost index: map<Node, Node>)
    returns (ghost after: World, ghost s: Tree)
    requires Standing(w, index) && node in NodesOf(w.forest) && merge in NodesOf(w.forest)
    requires Sub(w.forest, node).fields.kind.Sequence? && Sub(w.forest, merge).fields.kind.Sequence?
    modifies node`content
    ensures Standing(after, index) && Grows(w, after) && Replaced(w, after, node, s) && Spares(w, after, node)
    ensures forall n | n in News(w, after) :: fresh(n)
    ensures s.fields == Sub(w.forest, node).fields
    ensures node !in NodesOf(Sub(w.forest, merge).kids) ==>
              Strip(s) == Merge(Strip(Sub(w.forest, node)), Strip(Sub(w.forest, merge)))
  {
    after, s := AppendItems(node, merge, w, index);
    if node !in NodesOf(Sub(w.forest, merge).kids) { AllItems(Sub(w.forest, node), Sub(w.forest, merge), s); }
  }

  // ----- mappings -----

  // The termination measure: an overlapping merge may make clear ones, which end by what they
  // merge; an overlapping one has fewer loose steps left, or goes on to an untouched child.
  ghost function Rank(rel: Relation): nat {
    if rel.Above? then 1 + rel.loose else 0
  }

  ghost function Measure(rel: Relation, t: Tree, m: Tree): Tree {
    if rel.Above? then t else m
  }

  lemma KeysStand(w: World, m: Tree, i: nat, index: map<Node, Node>)
    requires Standing(w, index) && m.node in NodesOf(w.forest) && m == Sub(w.forest, m.node)
    requires m.fields.kind.Mapping? && i < |m.kids|
    ensures KeyAt(m, i) && |m.keys| == |m.kids| && m.node.content[2 * i] == m.keys[i].node
    ensures Holds([m.keys[i]]) && AllOf([m.keys[i]]) <= w.keys
    ensures m.node.content[2 * i + 1] in NodesOf(w.forest)
  {
    Alone(w, m.node, index);
    KeyNames(m);
    SingleHolds(m, {});
    SingleSets(m);
    KidHolds(m.keys, i);
    KidSets(m.keys, i);
    SubOfSub(w.forest, m.node, i);
  }

  // Merges a value into the child of its key, unless that is the source.
  method MergeFound(node: Node, value: Node, source: Node, j: nat, ghost i: nat, ghost w: World,
                    ghost index: map<Node, Node>, ghost rel: Relation, ghost top: Tree, ghost s: Tree, ghost m: Tree)
    returns (met: Node?, ghost after: World, ghost kid: Tree, ghost names: seq<string>)
    requires Standing(w, index) && node in NodesOf(w.forest) && m.node in NodesOf(w.forest)
    requires s == Sub(w.forest, node) && m == Sub(w.forest, m.node) && s.fields.kind.Mapping? && !rel.Flat?
    requires Related(w, node, m.node, source, rel) && i < |m.kids| && value == m.kids[i].node
    requires j < |s.kids| && j < |s.keys| && IsFirst(s.keys, j)
    requires OnPath(rel, i, j) && rel.loose == 0 ==> j < |top.kids| && s.kids[j] == top.kids[j]
    modifies NodesOf([s])
    ensures Standing(after, index) && Grows(w, after) && Replaced(w, after, node, Swapped(s, j, kid))
    ensures forall n | n in News(w, after) :: fresh(n)
    ensures rel.Outside? ==> Unharmed(w, after, source)
    ensures Came(rel, s.kids[j], m.kids[i], source, met, names)
    ensures met == null ==> Passed(rel, s.kids[j], m.kids[i], kid, source)
    ensures met == null && Telling(rel, m.kids[i]) ==> Strip(kid) == Merge(Strip(s.kids[j]), Strip(m.kids[i]))
    decreases Rank(rel), Measure(rel, top, m), 0
  {
    ChildRelated(w, node, m.node, source, rel, i, j);
    SingleSets(s);
    KidSets(s.kids, j);
    KeysStand(w, s, j, index);
    if node.content[2 * j + 1] == source {
      met, after, kid, names := value, w, s.kids[j], [];
      NothingReplaced(w, node);
      assert Swapped(s, j, kid) == s;
      return;
    }
    met, after, kid, names :=
      MergeNode(node.content[2 * j + 1], value, source, w, index, ChildRel(rel, i, j), s.kids[j], m.kids[i]);
    ReplacedKid(w, after, node, j, kid);
  }

  // Appends a pair with a copy of the value.
  method AppendEntry(node: Node, key: Node, value: Node, ghost i: nat, ghost w: World, ghost index: map<Node, Node>,
                     ghost s: Tree, ghost m: Tree)
    returns (ghost after: World, ghost c: Tree)
    requires Standing(w, index) && node in NodesOf(w.forest) && m.node in NodesOf(w.forest)
    requires s == Sub(w.forest, node) && m == Sub(w.forest, m.node)
    requires s.fields.kind.Mapping? && m.fields.kind.Mapping? && i < |m.kids| == |m.keys| && |s.keys| == |s.kids|
    requires key == m.keys[i].node && value == m.kids[i].node
    requires Find(Strip(s).pairs, m.keys[i].fields.value).None?
    modifies node`content
    ensures Standing(after, index) && Grows(w, after) && Replaced(w, after, node, Grown(s, [m.keys[i]], c))
    ensures forall n | n in News(w, after) :: fresh(n)
    ensures Spares(w, after, node) && NodesOf([c]) !! NodesOf(w.forest)
    ensures Strip(Grown(s, [m.keys[i]], c)).pairs ==
            MergePair(Strip(s).pairs, Pair(Strip(m.keys[i]), Strip(m.kids[i])))
  {
    KeysStand(w, m, i, index);
    ItemAt(w, m, i);
    ghost var s';
    after, s', c := AppendChild(node, [key], value, [m.keys[i]], w, index);
    GrownStrip(s, c, m.keys[i], m.kids[i]);
  }

  // The pair's key among those of the target.
  method FindEntry(node: Node, key: Node, ghost i: nat, ghost w: World, ghost index: map<Node, Node>, ghost s: Tree,
                   ghost m: Tree)
    returns (j: Option<nat>)
    requires Standing(w, index) && node in NodesOf(w.forest) && m.node in NodesOf(w.forest)
    requires s == Sub(w.forest, node) && m == Sub(w.forest, m.node)
    requires s.fields.kind.Mapping? && m.fields.kind.Mapping? && i < |m.kids|
    requires 2 * i < |m.node.content| && key == m.node.content[2 * i]
    ensures |s.keys| == |s.kids| && |m.keys| == |m.kids|
    ensures j == Find(Strip(s).pairs, m.keys[i].fields.value)
    ensures j.Some? ==> j.value < |s.keys| && IsFirst(s.keys, j.value)
                        && s.keys[j.value].fields.value == m.keys[i].fields.value
  {
    Alone(w, node, index);
    KeysStand(w, m, i, index);
    KeyNames(s);
    j := FindKey(node, key.value, s);
    if j.Some? { FoundFirst(s, j.value, key.value); }
  }

  lemma NotFoundIsNotAmong(m: Tree, name: string)
    requires m.fields.kind.Mapping? && |m.keys| == |m.kids| && Find(Strip(m).pairs, name).None?
    ensures NotAmong(m.keys, |m.keys|, name)
  {
    NamesAre(m);
    PairsOf(m);
    forall i | 0 <= i < |m.keys| ensures m.keys[i].fields.value != name {
      assert Strip(m).pairs[i].Name() != name;
    }
  }

  // A pair that is done, and did not come to the source.
  ghost predicate PairPassed(rel: Relation, s: Tree, m: Tree, i: nat, s': Tree, source: Node)
    requires i < |m.keys| && i < |m.kids|
  {
    && (rel.Outside? ==>
          && LeadsKept(s, s', source)
          && (DistinctKeys(Strip(m.kids[i])) ==> Misses(s, m.keys[i].fields.value, m.kids[i], source)))
    && (Telling(rel, m.kids[i]) ==>
          Strip(s').pairs == MergePair(Strip(s).pairs, Pair(Strip(m.keys[i]), Strip(m.kids[i]))))
  }

  lemma FoundPasses(rel: Relation, s: Tree, m: Tree, i: nat, j: nat, kid: Tree, source: Node)
    requires s.fields.kind.Mapping? && |s.keys| == |s.kids| && i < |m.keys| && i < |m.kids|
    requires j < |s.keys| && IsFirst(s.keys, j) && s.keys[j].fields.value == m.keys[i].fields.value
    requires Find(Strip(s).pairs, m.keys[i].fields.value) == Some(j)
    requires Passed(rel, s.kids[j], m.kids[i], kid, source)
    requires Telling(rel, m.kids[i]) ==> Strip(kid) == Merge(Strip(s.kids[j]), Strip(m.kids[i]))
    ensures PairPassed(rel, s, m, i, Swapped(s, j, kid), source)
  {
    if rel.Outside? {
      LeadsSwapped(s, j, kid, source);
      if DistinctKeys(Strip(m.kids[i])) { MissesFound(s, j, m.kids[i], source); }
    }
    if Telling(rel, m.kids[i]) { SwappedStrip(s, j, kid, m.keys[i], m.kids[i]); }
  }

  lemma NewPasses(rel: Relation, s: Tree, m: Tree, i: nat, c: Tree, source: Node)
    requires s.fields.kind.Mapping? && |s.keys| == |s.kids| && i < |m.keys| && i < |m.kids|
    requires Find(Strip(s).pairs, m.keys[i].fields.value).None? && source !in NodesOf([c])
    requires Strip(Grown(s, [m.keys[i]], c)).pairs ==
             MergePair(Strip(s).pairs, Pair(Strip(m.keys[i]), Strip(m.kids[i])))
    ensures PairPassed(rel, s, m, i, Grown(s, [m.keys[i]], c), source)
  {
    NotFoundIsNotAmong(s, m.keys[i].fields.value);
    LeadsGrown(s, m.keys[i], c, source);
    MissesNone(s, m.keys[i].fields.value, m.kids[i], source);
  }

  // Merges one pair: into the child of its key, or behind the pairs there are.
  method MergeEntry(node: Node, merge: Node, source: Node, i: nat, ghost w: World, ghost index: map<Node, Node>,
                    ghost rel: Relation, ghost top: Tree, ghost s: Tree, ghost m: Tree)
    returns (met: Node?, ghost after: World, ghost s': Tree, ghost j: Option<nat>, ghost x: Tree,
             ghost names: seq<string>)
    requires Standing(w, index) && node in NodesOf(w.forest) && merge in NodesOf(w.forest)
    requires s == Sub(w.forest, node) && m == Sub(w.forest, merge)
    requires s.fields.kind.Mapping? && m.fields.kind.Mapping? && |m.keys| == |m.kids|
    requires Related(w, node, merge, source, rel) && !rel.Flat? && i < |m.kids|
    requires Descends(rel, top, s, i, m.keys[i].fields.value)
    modifies NodesOf([s])
    ensures Standing(after, index) && Grows(w, after) && Replaced(w, after, node, s')
    ensures forall n | n in News(w, after) :: fresh(n)
    ensures rel.Outside? ==> Unharmed(w, after, source)
    ensures Came(rel, s, m, source, met, names)
    ensures PairDone(s, m.keys[i], j, x, s')
    ensures rel.Above? && rel.path == [] ==> j.Some?
    ensures met == null ==> PairPassed(rel, s, m, i, s', source)
    decreases Rank(rel), Measure(rel, top, m), 1
  {
    KeysStand(w, m, i, index);
    RootIn([s], 0);
    NodesExist(w.forest);
    var key, value := merge.content[2 * i], merge.content[2 * i + 1];
    var found := FindEntry(node, key, i, w, index, s, m);
    j := found;
    if found.Some? {
      met, after, x, names := MergeFound(node, value, source, found.value, i, w, index, rel, top, s, m);
      s' := Swapped(s, found.value, x);
      if met != null {
        LeadsThrough(s, found.value, source, names);
        ValueThrough(m, i, names, met);
        names := [m.keys[i].fields.value] + names;
      } else {
        FoundPasses(rel, s, m, i, found.value, x, source);
      }
    } else {
      met, names := null, [];
      if rel.Above? && rel.path == [] { OwnKeyFound(s, i); }
      after, x := AppendEntry(node, key, value, i, w, index, s, m);
      s' := Grown(s, [m.keys[i]], x);
      NewPasses(rel, s, m, i, x, source);
    }
  }

  lemma OwnKeyFound(s: Tree, i: nat)
    requires s.fields.kind.Mapping? && |s.keys| == |s.kids| && i < |s.kids|
    ensures Find(Strip(s).pairs, s.keys[i].fields.value).Some?
  {
    PairsOf(s);
    assert Strip(s).pairs[i].Name() == s.keys[i].fields.value;
  }

  function PairCount(n: Node): nat
    reads n
  {
    |n.content| / 2
  }

  // What merging the first n pairs has come to.
  ghost predicate OnCourse(start: World, w: World, node: Node, merge: Node, source: Node, rel: Relation, s: Tree,
                           stages: seq<seq<Pair>>, n: nat)
    requires node in NodesOf(start.forest) && merge in NodesOf(start.forest)
  {
    var t, m := Sub(start.forest, node), Sub(start.forest, merge);
    && Grows(start, w) && Replaced(start, w, node, s)
    && merge in NodesOf(w.forest) && node in NodesOf(w.forest) && Related(w, node, merge, source, rel)
    && SameKeys(m, Sub(w.forest, merge))
    && n <= |m.keys| && Kept(t, s, m.keys, n)
    && (rel.Steady() ==> Sub(w.forest, merge) == m)
    && (Telling(rel, m) ==> AtStage(t, stages, n, s))
    && (rel.Outside? ==> PassedBy(start, w, t, m, s, n, source))
  }

  // The first n pairs have left the source alone.
  ghost predicate PassedBy(start: World, w: World, t: Tree, m: Tree, s: Tree, n: nat, source: Node) {
    Unharmed(start, w, source) && LeadsKept(t, s, source) && Unmet(t, m, n, source)
  }

  lemma PassesOn(start: World, w: World, after: World, t: Tree, m: Tree, s: Tree, s': Tree, n: nat, source: Node)
    requires PassedBy(start, w, t, m, s, n, source) && Unharmed(w, after, source) && LeadsKept(s, s', source)
    requires Kept(t, s, m.keys, n) && n < |m.keys| && n < |m.kids|
    requires DistinctKeys(Strip(m.kids[n])) ==> Misses(s, m.keys[n].fields.value, m.kids[n], source)
    ensures PassedBy(start, after, t, m, s', n + 1, source)
  {
    UnmetOn(t, s, m, n, source);
  }

  // The values that merging the pairs one by one runs through.
  ghost predicate Planned(t: Tree, m: Tree, stages: seq<seq<Pair>>) {
    && t.fields.kind.Mapping? && m.fields.kind.Mapping?
    && |t.keys| == |t.kids| && |m.keys| == |m.kids|
    && Stages(stages, Strip(m).pairs)
    && |stages| == |m.kids| + 1 && stages[|m.kids|] == MergePairs(Strip(t).pairs, Strip(m).pairs)
  }

  lemma CourseStart(w: World, node: Node, merge: Node, source: Node, rel: Relation, index: map<Node, Node>)
    returns (stages: seq<seq<Pair>>)
    requires Standing(w, index) && node in NodesOf(w.forest) && merge in NodesOf(w.forest)
    requires Related(w, node, merge, source, rel)
    requires Sub(w.forest, node).fields.kind.Mapping? && Sub(w.forest, merge).fields.kind.Mapping?
    ensures OnCourse(w, w, node, merge, source, rel, Sub(w.forest, node), stages, 0)
    ensures Planned(Sub(w.forest, node), Sub(w.forest, merge), stages)
    ensures PairCount(merge) == |Sub(w.forest, merge).kids|
    ensures News(w, w) == {}
  {
    var t, m := Sub(w.forest, node), Sub(w.forest, merge);
    Alone(w, node, index);
    Alone(w, merge, index);
    KeyNames(t);
    KeyNames(m);
    PairsOf(m);
    stages := AllStages(Strip(t).pairs, Strip(m).pairs);
    NothingReplaced(w, node);
    NothingMerged(t, m.keys);
  }

  // Where the outcome is that of the two values, the next value to be merged is as it was.
  lemma NextValue(start: World, w: World, node: Node, merge: Node, source: Node, rel: Relation, s: Tree,
                  stages: seq<seq<Pair>>, n: nat)
    requires node in NodesOf(start.forest) && merge in NodesOf(start.forest) && !rel.Flat?
    requires OnCourse(start, w, node, merge, source, rel, s, stages, n)
    requires Planned(Sub(start.forest, node), Sub(start.forest, merge), stages) && n < |Sub(start.forest, merge).kids|
    requires Telling(rel, Sub(start.forest, merge)) && Sub(w.forest, node) == s
    ensures Sub(w.forest, merge).kids[n] == Sub(start.forest, merge).kids[n]
    ensures Telling(rel, Sub(start.forest, merge).kids[n])
  {
    if rel.Above? {
      assert merge == node by { SubIsAt(w.forest, merge); }
      DistinctTree(Sub(start.forest, merge));
    }
  }

  lemma {:induction false} SubIsAt(ts: seq<Tree>, x: Node)
    requires x in NodesOf(ts)
    ensures Sub(ts, x).node == x
    decreases ts
  {
    if x != ts[0].node {
      if x in NodesOf(ts[0].kids) { SubIsAt(ts[0].kids, x); } else { SubIsAt(ts[1..], x); }
    }
  }

  lemma CourseGoesOn(start: World, w: World, after: World, node: Node, merge: Node, source: Node, rel: Relation,
                     s: Tree, s': Tree, stages: seq<seq<Pair>>, n: nat, j: Option<nat>, x: Tree)
    requires Apart(start.forest, start.keys) && Apart(w.forest, w.keys) && Apart(after.forest, after.keys)
    requires node in NodesOf(start.forest) && merge in NodesOf(start.forest) && !rel.Flat?
    requires OnCourse(start, w, node, merge, source, rel, s, stages, n)
    requires Planned(Sub(start.forest, node), Sub(start.forest, merge), stages) && n < |Sub(start.forest, merge).kids|
    requires var m := Sub(start.forest, merge);
             && PairDone(s, m.keys[n], j, x, s') && (rel.Above? && rel.path == [] ==> j.Some?)
    requires PairPassed(rel, s, Sub(w.forest, merge), n, s', source)
    requires Grows(w, after) && Replaced(w, after, node, s')
    requires rel.Outside? ==> Unharmed(w, after, source)
    ensures OnCourse(start, after, node, merge, source, rel, s', stages, n + 1)
  {
    var t, m := Sub(start.forest, node), Sub(start.forest, merge);
    TheSubtree(start, w, node, s);
    ReplacedTwice(start, w, after, node, s, s');
    MergedGoesOn(w, after, node, merge, source, rel, s, s', m.keys[n], j, x);
    KeptOn(t, s, m.keys, n, j, x, s');
    if rel.Outside? { PassesOn(start, w, after, t, m, s, s', n, source); }
    if Telling(rel, m) { StageGoesOn(start, w, node, merge, source, rel, s, s', stages, n); }
  }

  lemma MergedGoesOn(w: World, after: World, node: Node, merge: Node, source: Node, rel: Relation, s: Tree, s': Tree,
                     key: Tree, j: Option<nat>, x: Tree)
    requires Apart(w.forest, w.keys) && Apart(after.forest, after.keys) && Grows(w, after) && !rel.Flat?
    requires node in NodesOf(w.forest) && merge in NodesOf(w.forest) && Related(w, node, merge, source, rel)
    requires Sub(w.forest, node) == s && Replaced(w, after, node, s')
    requires PairDone(s, key, j, x, s') && (rel.Above? && rel.path == [] ==> j.Some?)
    requires rel.Outside? ==> Unharmed(w, after, source)
    ensures merge in NodesOf(after.forest) && node in NodesOf(after.forest)
    ensures Related(after, node, merge, source, rel)
    ensures SameKeys(Sub(w.forest, merge), Sub(after.forest, merge))
    ensures rel.Steady() ==> Sub(after.forest, merge) == Sub(w.forest, merge)
  {
    SourceAfter(w, after, node, merge, source, rel, s');
  }

  lemma StageGoesOn(start: World, w: World, node: Node, merge: Node, source: Node, rel: Relation, s: Tree, s': Tree,
                    stages: seq<seq<Pair>>, n: nat)
    requires node in NodesOf(start.forest) && merge in NodesOf(start.forest) && !rel.Flat?
    requires OnCourse(start, w, node, merge, source, rel, s, stages, n)
    requires Planned(Sub(start.forest, node), Sub(start.forest, merge), stages) && n < |Sub(start.forest, merge).kids|
    requires Telling(rel, Sub(start.forest, merge)) && Sub(w.forest, node) == s && s'.fields == s.fields
    requires PairPassed(rel, s, Sub(w.forest, merge), n, s', source)
    ensures AtStage(Sub(start.forest, node), stages, n + 1, s')
  {
    NextValue(start, w, node, merge, source, rel, s, stages, n);
    NextStage(Sub(start.forest, node), Sub(start.forest, merge), stages, n, s, s');
  }

  lemma BelowOrNew(w: World, after: World, node: Node, s: Tree)
    requires Replaced(w, after, node, s)
    ensures NodesOf([s]) <= NodesOf([Sub(w.forest, node)]) + News(w, after)
  {
    TheSubtree(w, after, node, s);
    SubSets(after.forest, node);
  }

  // The heap is where the merge has come to.
  ghost predicate Underway(start: World, w: World, node: Node, merge: Node, source: Node, rel: Relation, s: Tree,
                           stages: seq<seq<Pair>>, n: nat, index: map<Node, Node>)
    reads AllOf(w.forest)
  {
    && node in NodesOf(start.forest) && merge in NodesOf(start.forest)
    && Standing(w, index) && OnCourse(start, w, node, merge, source, rel, s, stages, n)
    && Planned(Sub(start.forest, node), Sub(start.forest, merge), stages)
  }

  // The merge has come to the source, which is as it was.
  ghost predicate Halted(start: World, w: World, node: Node, merge: Node, source: Node, rel: Relation, s: Tree,
                         met: Node?, names: seq<string>, index: map<Node, Node>)
    reads AllOf(w.forest)
  {
    && node in NodesOf(start.forest) && merge in NodesOf(start.forest)
    && Standing(w, index) && Grows(start, w) && Replaced(start, w, node, s)
    && s.fields == Sub(start.forest, node).fields && Unharmed(start, w, source)
    && met != null && Came(rel, Sub(start.forest, node), Sub(start.forest, merge), source, met, names)
  }

  lemma Halts(start: World, w: World, after: World, node: Node, merge: Node, source: Node, rel: Relation, s: Tree,
              s': Tree, stages: seq<seq<Pair>>, n: nat, met: Node, names: seq<string>)
    requires Apart(start.forest, start.keys) && Apart(w.forest, w.keys)
    requires node in NodesOf(start.forest) && merge in NodesOf(start.forest) && rel.Outside?
    requires OnCourse(start, w, node, merge, source, rel, s, stages, n) && Grows(w, after)
    requires Replaced(w, after, node, s') && Unharmed(w, after, source)
    requires Came(rel, s, Sub(w.forest, merge), source, met, names)
    ensures Grows(start, after) && Replaced(start, after, node, s') && Unharmed(start, after, source)
    ensures Came(rel, Sub(start.forest, node), Sub(start.forest, merge), source, met, names)
  {
    ReplacedTwice(start, w, after, node, s, s');
  }

  // Merges pair i, after the ones before it.
  method MergeNext(node: Node, merge: Node, source: Node, i: nat, ghost start: World, ghost w: World,
                   ghost index: map<Node, Node>, ghost rel: Relation, ghost s: Tree, ghost stages: seq<seq<Pair>>)
    returns (met: Node?, ghost after: World, ghost s': Tree, ghost names: seq<string>)
    requires Apart(start.forest, start.keys) && !rel.Flat?
    requires Underway(start, w, node, merge, source, rel, s, stages, i, index) && i < |Sub(start.forest, merge).kids|
    modifies NodesOf([Sub(start.forest, node)]) + News(start, w)
    ensures if met == null then Underway(start, after, node, merge, source, rel, s', stages, i + 1, index)
            else Halted(start, after, node, merge, source, rel, s', met, names, index)
    ensures forall n | n in News(start, after) :: n in News(start, w) || fresh(n)
    decreases Rank(rel), Measure(rel, Sub(start.forest, node), Sub(start.forest, merge)), 2
  {
    ghost var t, m := Sub(start.forest, node), Sub(start.forest, merge);
    ghost var now := Sub(w.forest, merge);
    TheSubtree(start, w, node, s);
    BelowOrNew(start, w, node, s);
    FirstUntouched(w, node, merge, source, rel, t, m.keys, i);
    ghost var j, x;
    met, after, s', j, x, names := MergeEntry(node, merge, source, i, w, index, rel, t, s, now);
    NewAfter(start, w, after);
    if met == null {
      CourseGoesOn(start, w, after, node, merge, source, rel, s, s', stages, i, j, x);
    } else {
      Halts(start, w, after, node, merge, source, rel, s, s', stages, i, met, names);
    }
  }

  // The loop over the pairs. Its invariant is an equation so that the predicate is taken as a whole.
  method MergeEntries(node: Node, merge: Node, source: Node, ghost w: World, ghost index: map<Node, Node>,
                      ghost rel: Relation, ghost stages: seq<seq<Pair>>)
    returns (met: Node?, ghost after: World, ghost s: Tree, ghost names: seq<string>)
    requires Standing(w, index) && node in NodesOf(w.forest) && merge in NodesOf(w.forest) && !rel.Flat?
    requires Underway(w, w, node, merge, source, rel, Sub(w.forest, node), stages, 0, index) && News(w, w) == {}
    requires PairCount(merge) == |Sub(w.forest, merge).kids|
    modifies NodesOf([Sub(w.forest, node)])
    ensures if met == null then
              Underway(w, after, node, merge, source, rel, s, stages, |Sub(w.forest, merge).kids|, index)
            else Halted(w, after, node, merge, source, rel, s, met, names, index)
    ensures forall n | n in News(w, after) :: fresh(n)
    decreases Rank(rel), Measure(rel, Sub(w.forest, node), Sub(w.forest, merge)), 3
  {
    met, after, s, names := null, w, Sub(w.forest, node), [];
    ghost var pairs := |Sub(w.forest, merge).kids|;
    var i: nat := 0;
    while i < PairCount(merge)
      invariant i <= pairs && PairCount(merge) == pairs && met == null
      invariant Underway(w, after, node, merge, source, rel, s, stages, i, index) == true
      invariant forall n | n in News(w, after) :: fresh(n)
    {
      ghost var last := after;
      met, after, s, names := MergeNext(node, merge, source, i, w, last, index, rel, s, stages);
      assert forall n | n in News(w, after) :: n in News(w, last) || fresh(n);
      if met != null { return; }
      StillAsMany(w, after, node, merge, source, rel, s, stages, i + 1, index);
      i := i + 1;
    }
    assert i == pairs;
  }

  // The merged mapping has as many pairs as at first, even if the target is in its tree.
  lemma StillAsMany(start: World, w: World, node: Node, merge: Node, source: Node, rel: Relation, s: Tree,
                    stages: seq<seq<Pair>>, n: nat, index: map<Node, Node>)
    requires Underway(start, w, node, merge, source, rel, s, stages, n, index)
    ensures PairCount(merge) == |Sub(start.forest, merge).kids|
  {
    Alone(w, merge, index);
    KeyNames(Sub(w.forest, merge));
  }

  lemma CourseDone(start: World, w: World, node: Node, merge: Node, source: Node, rel: Relation, s: Tree,
                   stages: seq<seq<Pair>>)
    requires node in NodesOf(start.forest) && merge in NodesOf(start.forest)
    requires Related(start, node, merge, source, rel)
    requires OnCourse(start, w, node, merge, source, rel, s, stages, |Sub(start.forest, merge).kids|)
    requires Planned(Sub(start.forest, node), Sub(start.forest, merge), stages)
    ensures Grows(start, w) && Replaced(start, w, node, s) && s.fields == Sub(start.forest, node).fields
    ensures Passed(rel, Sub(start.forest, node), Sub(start.forest, merge), s, source)
    ensures Telling(rel, Sub(start.forest, merge)) ==>
              Strip(s) == Merge(Strip(Sub(start.forest, node)), Strip(Sub(start.forest, merge)))
  {
    var t, m := Sub(start.forest, node), Sub(start.forest, merge);
    if rel.Outside? && DistinctKeys(Strip(m)) {
      SubIsAt(start.forest, node);
      RootIn([Sub(start.forest, source)], 0);
      SubIsAt(start.forest, source);
      NeverMet(t, m, source);
    }
    PairsOf(t);
    PairsOf(m);
    PairsOf(s);
    StripMapping(t, m);
  }

  /** Merges all pairs, in order, unless it comes to the source. */
  method MergeMapping(node: Node, merge: Node, source: Node, ghost w: World, ghost index: map<Node, Node>,
                      ghost rel: Relation)
    returns (met: Node?, ghost after: World, ghost s: Tree, ghost names: seq<string>)
    requires Standing(w, index) && node in NodesOf(w.forest) && merge in NodesOf(w.forest)
    requires Related(w, node, merge, source, rel) && !rel.Flat?
    requires Sub(w.forest, node).fields.kind.Mapping? && Sub(w.forest, merge).fields.kind.Mapping?
    modifies NodesOf([Sub(w.forest, node)])
    ensures Standing(after, index) && Grows(w, after) && Replaced(w, after, node, s)
    ensures forall n | n in News(w, after) :: fresh(n)
    ensures s.fields == Sub(w.forest, node).fields && (rel.Outside? ==> Unharmed(w, after, source))
    ensures Came(rel, Sub(w.forest, node), Sub(w.forest, merge), source, met, names)
    ensures met == null ==> Passed(rel, Sub(w.forest, node), Sub(w.forest, merge), s, source)
    ensures met == null && Telling(rel, Sub(w.forest, merge)) ==>
              Strip(s) == Merge(Strip(Sub(w.forest, node)), Strip(Sub(w.forest, merge)))
    decreases Rank(rel), Measure(rel, Sub(w.forest, node), Sub(w.forest, merge)), 4
  {
    ghost var stages := CourseStart(w, node, merge, source, rel, index);
    met, after, s, names := MergeEntries(node, merge, source, w, index, rel, stages);
    if met == null { CourseDone(w, after, node, merge, source, rel, s, stages); }
  }

  // ----- any node -----

  lemma KindsAre(w: World, node: Node, index: map<Node, Node>)
    requires Standing(w, index) && node in NodesOf(w.forest)
    ensures node.kind == Sub(w.forest, node).fields.kind
  {
    Alone(w, node, index);
    SingleHolds(Sub(w.forest, node), {});
  }

  lemma OtherStrip(t: Tree, m: Tree)
    ensures t.fields.kind != m.fields.kind ==> Merge(Strip(t), Strip(m)) == Strip(m)
    ensures t.fields.kind == m.fields.kind && !t.fields.kind.Mapping? && !t.fields.kind.Sequence? ==>
              Merge(Strip(t), Strip(m)) == Strip(t.(fields := t.fields.(value := m.fields.value)))
  {}

  // What is told about the target of a single change.
  lemma ChangePasses(w: World, after: World, node: Node, merge: Node, source: Node, rel: Relation, s: Tree)
    requires Distinct(w.forest) && Distinct(after.forest)
    requires node in NodesOf(w.forest) && merge in NodesOf(w.forest) && Related(w, node, merge, source, rel)
    requires Replaced(w, after, node, s) && Spares(w, after, node)
    requires !s.fields.kind.Mapping? || NodesOf(s.kids) !! NodesOf(w.forest)
    requires Sub(w.forest, node).fields.kind != Sub(w.forest, merge).fields.kind ||
             !Sub(w.forest, merge).fields.kind.Mapping?
    ensures rel.Outside? ==> Unharmed(w, after, source)
    ensures Passed(rel, Sub(w.forest, node), Sub(w.forest, merge), s, source)
  {
    var t, m := Sub(w.forest, node), Sub(w.forest, merge);
    if rel.Outside? {
      SubIsAt(w.forest, node);
      SubIsAt(w.forest, source);
      RootIn([Sub(w.forest, source)], 0);
      SingleSets(s);
      if s.fields.kind.Mapping? { LeadsNowhere(t, s, source); } else { LeadsToItself(t, s, source); }
      assert !Meets(t, m, source);
    }
  }

  lemma ValuesSettle(w: World, node: Node, merge: Node, source: Node, rel: Relation)
    requires Distinct(w.forest) && node in NodesOf(w.forest) && merge in NodesOf(w.forest)
    requires Related(w, node, merge, source, rel) && Predicted(rel, node, Sub(w.forest, merge))
    ensures node !in NodesOf(Sub(w.forest, merge).kids)
  {
    var m := Sub(w.forest, merge);
    SubSets(w.forest, merge);
    SingleSets(m);
    SubIsAt(w.forest, node);
    RootIn([Sub(w.forest, node)], 0);
    if rel.Outside? {
      SubInSub(w.forest, source, merge);
      SubSets([Sub(w.forest, source)], merge);
    }
  }

  /** One node is merged into another in place. Only the target's tree changes; what is cut off
      stays whole, and every old node has its old parent, if any. If the source is below the target,
      it is not changed: either the merge passes it by, or it stops where it comes to it. A target in
      the merged tree is merged as well, in finitely many steps. */
  method MergeNode(node: Node, merge: Node, source: Node, ghost w: World, ghost index: map<Node, Node>,
                   ghost rel: Relation, ghost t: Tree, ghost m: Tree)
    returns (met: Node?, ghost after: World, ghost s: Tree, ghost names: seq<string>)
    requires Standing(w, index) && node in NodesOf(w.forest) && merge in NodesOf(w.forest)
    requires t == Sub(w.forest, node) && m == Sub(w.forest, merge) && Related(w, node, merge, source, rel)
    modifies NodesOf([t])
    ensures Standing(after, index) && Grows(w, after) && Replaced(w, after, node, s)
    ensures forall n | n in News(w, after) :: fresh(n)
    ensures s.fields.kind == m.fields.kind && (rel.Outside? ==> Unharmed(w, after, source))
    ensures Came(rel, t, m, source, met, names)
    ensures met == null ==> Passed(rel, t, m, s, source)
    ensures met == null && Predicted(rel, node, m) ==> Strip(s) == Merge(Strip(t), Strip(m))
    decreases Rank(rel), Measure(rel, t, m), 5
  {
    KindsAre(w, node, index);
    KindsAre(w, merge, index);
    RootIn([t], 0);
    OtherStrip(t, m);
    met, names := null, [];
    if Predicted(rel, node, m) { ValuesSettle(w, node, merge, source, rel); }
    if node.kind != merge.kind {
      after, s := WriteOver(node, merge, w, index);
      ChangePasses(w, after, node, merge, source, rel, s);
    } else {
      match node.kind
      case Mapping => met, after, s, names := MergeMapping(node, merge, source, w, index, rel);
      case Sequence =>
        after, s := MergeSequence(node, merge, w, index);
        ChangePasses(w, after, node, merge, source, rel, s);
      case _ =>
        after, s := WriteValue(node, merge, w, index);
        ChangePasses(w, after, node, merge, source, rel, s);
    }
  }
}
