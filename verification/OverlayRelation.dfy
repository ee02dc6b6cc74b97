/** How the target of a merge, the merged node and a copy's source lie to one another. */
module OverlayRelation {
  import opened Common
  import opened YamlNode
  import opened OverlayMerge
  import opened OverlayTree
  import opened OverlayNode
  import opened OverlayForest
  import opened OverlayWorld

  // Trees apart, the target's also from the source; or a target that is not in the source's tree,
  // but may have it below, and a merged node in that tree; or a path of child numbers from the merged
  // node down to the target, on which, but for the first `loose` steps, each key is the first of its
  // name; or two nodes of one kind that is no mapping, wherever they are.
  datatype Relation = Clear | Outside | Above(path: seq<nat>, loose: nat) | Flat {
    // The merged tree is not touched, unless the merge comes to the source.
    predicate Steady() {
      Clear? || Outside?
    }
  }

  ghost predicate IsFirst(keys: seq<Tree>, j: nat)
    requires j < |keys|
  {
    forall i | 0 <= i < j :: keys[i].fields.value != keys[j].fields.value
  }

  function Less(n: nat): nat {
    if n > 0 then n - 1 else 0
  }

  ghost predicate Reach(m: Tree, path: seq<nat>, loose: nat, x: Node)
    decreases |path|
  {
    if path == [] then m.node == x
    else
      && path[0] < |m.kids|
      && (loose == 0 && m.fields.kind.Mapping? ==> path[0] < |m.keys| && IsFirst(m.keys, path[0]))
      && Reach(m.kids[path[0]], path[1..], Less(loose), x)
  }

  // The name is not among the first n keys.
  ghost predicate NotAmong(keys: seq<Tree>, n: nat, name: string)
    requires n <= |keys|
  {
    forall i | 0 <= i < n :: keys[i].fields.value != name
  }

  ghost predicate Related(w: World, node: Node, merge: Node, source: Node, rel: Relation)
    requires node in NodesOf(w.forest) && merge in NodesOf(w.forest)
  {
    var t, m := Sub(w.forest, node), Sub(w.forest, merge);
    && source in NodesOf(w.forest)
    && match rel
       case Clear => NodesOf([t]) !! NodesOf([m]) && source !in NodesOf([t])
       case Outside => node !in NodesOf([Sub(w.forest, source)]) && merge in NodesOf([Sub(w.forest, source)])
       case Above(path, loose) => Reach(m, path, loose, node) && source !in NodesOf(t.kids)
       case Flat => t.fields.kind == m.fields.kind && !t.fields.kind.Mapping?
  }

  lemma {:induction false} ReachIn(m: Tree, path: seq<nat>, loose: nat, x: Node)
    requires Reach(m, path, loose, x)
    ensures x in NodesOf([m])
    ensures path != [] ==> x in NodesOf([m.kids[path[0]]]) && x in NodesOf(m.kids)
    decreases |path|
  {
    RootIn([m], 0);
    if path != [] {
      ReachIn(m.kids[path[0]], path[1..], Less(loose), x);
      KidSets(m.kids, path[0]);
      SingleSets(m);
    }
  }

  // A node in a tree is reached.
  lemma {:induction false} PathTo(m: Tree, x: Node) returns (path: seq<nat>)
    requires x in NodesOf([m])
    ensures forall loose | loose >= |path| :: Reach(m, path, loose, x)
    decreases m
  {
    SingleSets(m);
    if m.node == x {
      path := [];
    } else {
      var j := KidWith(m.kids, x);
      var rest := PathTo(m.kids[j], x);
      path := [j] + rest;
      assert path[1..] == rest;
    }
  }

  lemma {:induction false} KidWith(kids: seq<Tree>, x: Node) returns (j: nat)
    requires x in NodesOf(kids)
    ensures j < |kids| && x in NodesOf([kids[j]])
  {
    SingleSets(kids[0]);
    if x in NodesOf([kids[0]]) {
      j := 0;
    } else {
      j := KidWith(kids[1..], x);
      j := j + 1;
    }
  }

  // The path goes on to a child of the node it leads to.
  lemma {:induction false} ReachOn(m: Tree, path: seq<nat>, loose: nat, x: Node, j: nat)
    requires Distinct([m]) && Reach(m, path, loose, x) && x in NodesOf([m])
    requires j < |Sub([m], x).kids|
    requires Sub([m], x).fields.kind.Mapping? ==> j < |Sub([m], x).keys| && IsFirst(Sub([m], x).keys, j)
    ensures Reach(m, path + [j], loose, Sub([m], x).kids[j].node)
    decreases |path|
  {
    if path == [] {
      assert [j][1..] == [] && path + [j] == [j];
    } else {
      var k := m.kids[path[0]];
      ReachIn(m, path, loose, x);
      SingleSets(m);
      KidSets(m.kids, path[0]);
      SubOfKid(m.kids, path[0]);
      SubInSub(m.kids, k.node, x);
      ReachOn(k, path[1..], Less(loose), x, j);
      assert (path + [j])[1..] == path[1..] + [j];
    }
  }

  // What happens in the target's tree does not change how it is reached.
  lemma {:induction false} ReachAfter(m: Tree, path: seq<nat>, loose: nat, x: Node, s: Tree)
    requires Distinct([m]) && Reach(m, path, loose, x) && s.node == x
    ensures Reach(Replace([m], x, s)[0], path, loose, x)
    ensures path != [] ==> Replace([m], x, s)[0] == m.(kids := Replace(m.kids, x, s))
    decreases |path|
  {
    if path != [] {
      var k := m.kids[path[0]];
      ReachIn(m, path, loose, x);
      SingleSets(m);
      KidSets(m.kids, path[0]);
      ReachAfter(k, path[1..], Less(loose), x, s);
      ReplaceAt(m.kids, x, s, path[0]);
    }
  }

  lemma {:induction false} ReplaceAt(ts: seq<Tree>, x: Node, s: Tree, i: nat)
    requires i < |ts|
    ensures Replace(ts, x, s)[i] == Replace([ts[i]], x, s)[0]
  {
    if i > 0 { ReplaceAt(ts[1..], x, s, i - 1); }
  }

  // ----- the children of a target and of what is merged -----

  // Child i of the merged node leads down to child j of the target.
  ghost predicate OnPath(rel: Relation, i: nat, j: nat) {
    rel.Above? && if rel.path == [] then i == j else i == rel.path[0]
  }

  // How child i of the merged node lies to child j of the target.
  ghost function ChildRel(rel: Relation, i: nat, j: nat): Relation {
    if rel.Outside? then Outside
    else if !OnPath(rel, i, j) then Clear
    else if rel.path == [] then Above([], Less(rel.loose))
    else Above(rel.path[1..] + [j], Less(rel.loose))
  }

  // What merging into node leaves of the merged node.
  lemma SourceApart(w: World, node: Node, merge: Node)
    requires Apart(w.forest, w.keys) && node in NodesOf(w.forest) && merge in NodesOf(w.forest)
    ensures Distinct([Sub(w.forest, node)]) && Distinct([Sub(w.forest, merge)])
    ensures NodesOf([Sub(w.forest, node)]) <= NodesOf(w.forest)
    ensures NodesOf([Sub(w.forest, merge)]) <= NodesOf(w.forest)
  {
    SubSets(w.forest, node);
    SubSets(w.forest, merge);
  }

  // The target is in the tree of the first child on the path.
  lemma TargetBelow(w: World, node: Node, merge: Node, path: seq<nat>, loose: nat)
    requires Apart(w.forest, w.keys) && node in NodesOf(w.forest) && merge in NodesOf(w.forest)
    requires Reach(Sub(w.forest, merge), path, loose, node) && path != []
    ensures
      var m, s := Sub(w.forest, merge), Sub(w.forest, node);
      && node != merge && merge !in NodesOf([s])
      && path[0] < |m.kids| && Distinct([m.kids[path[0]]])
      && node in NodesOf([m.kids[path[0]]]) && Sub([m.kids[path[0]]], node) == s
      && NodesOf([s]) <= NodesOf([m.kids[path[0]]])
  {
    var m := Sub(w.forest, merge);
    var k := m.kids[path[0]];
    SourceApart(w, node, merge);
    SingleSets(m);
    ReachIn(m, path, loose, node);
    KidSets(m.kids, path[0]);
    SubOfSub(w.forest, merge, path[0]);
    SubInSub(w.forest, k.node, node);
    SubSets([k], node);
  }

  lemma KidInside(t: Tree, i: nat)
    requires i < |t.kids|
    ensures NodesOf([t.kids[i]]) <= NodesOf([t])
  {
    SingleSets(t);
    KidSets(t.kids, i);
  }

  // The child of a target below the merged node lies below one of its children, and apart from the others.
  lemma ChildAbove(w: World, node: Node, merge: Node, path: seq<nat>, loose: nat, i: nat, j: nat)
    requires Apart(w.forest, w.keys) && node in NodesOf(w.forest) && merge in NodesOf(w.forest)
    requires path != [] && Reach(Sub(w.forest, merge), path, loose, node)
    requires i < |Sub(w.forest, merge).kids| && j < |Sub(w.forest, node).kids|
    requires Sub(w.forest, node).fields.kind.Mapping? ==>
               j < |Sub(w.forest, node).keys| && IsFirst(Sub(w.forest, node).keys, j)
    ensures
      var c, x := Sub(w.forest, node).kids[j], Sub(w.forest, merge).kids[i];
      if i == path[0] then Reach(x, path[1..] + [j], Less(loose), c.node)
      else NodesOf([c]) !! NodesOf([x])
  {
    var s, m := Sub(w.forest, node), Sub(w.forest, merge);
    SubOfSub(w.forest, merge, i);
    SourceApart(w, node, merge);
    SingleSets(s);
    SingleSets(m);
    KidSets(s.kids, j);
    KidSets(m.kids, i);
    TargetBelow(w, node, merge, path, loose);
    if i == path[0] {
      ReachOn(m.kids[i], path[1..], Less(loose), node, j);
    } else {
      KidsApart(m.kids, i, path[0]);
    }
  }

  // The source, if it is below the target, is one child or in its tree; all other children are outside it.
  lemma ChildOutside(w: World, node: Node, source: Node, j: nat)
    requires Distinct(w.forest) && node in NodesOf(w.forest) && source in NodesOf(w.forest)
    requires node !in NodesOf([Sub(w.forest, source)]) && j < |Sub(w.forest, node).kids|
    requires Sub(w.forest, node).kids[j].node != source
    ensures Sub(w.forest, node).kids[j].node !in NodesOf([Sub(w.forest, source)])
  {
    var t := Sub(w.forest, node);
    SubSets(w.forest, node);
    SingleSets(t);
    if source in NodesOf([t]) {
      RootIn([Sub(w.forest, source)], 0);
      SubInSub(w.forest, node, source);
      KidsOutside(t.kids, source, j);
    } else {
      KidInside(t, j);
      RootIn([t.kids[j]], 0);
      NeitherContains(w.forest, node, source);
    }
  }

  lemma KidsOutside(kids: seq<Tree>, x: Node, j: nat)
    requires Distinct(kids) && x in NodesOf(kids) && j < |kids| && kids[j].node != x
    ensures kids[j].node !in NodesOf([Sub(kids, x)])
  {
    var r := KidWith(kids, x);
    RootIn([kids[j]], 0);
    SubOfKid(kids, r);
    SubInSub(kids, kids[r].node, x);
    KidSets(kids, r);
    SubSets([kids[r]], x);
    if r != j { KidsApart(kids, r, j); } else { BelowItself(kids[j], x); }
  }

  // A node is not in the tree of one that is below it.
  lemma BelowItself(c: Tree, x: Node)
    requires Distinct([c]) && x in NodesOf([c]) && x != c.node
    ensures c.node !in NodesOf([Sub([c], x)])
  {
    SingleSets(c);
    SubSets(c.kids, x);
  }

  lemma ChildMerged(w: World, source: Node, merge: Node, i: nat)
    requires Distinct(w.forest) && source in NodesOf(w.forest) && merge in NodesOf(w.forest)
    requires merge in NodesOf([Sub(w.forest, source)]) && i < |Sub(w.forest, merge).kids|
    ensures Sub(w.forest, merge).kids[i].node in NodesOf([Sub(w.forest, source)])
  {
    var m := Sub(w.forest, merge);
    SubInSub(w.forest, source, merge);
    SubSets(w.forest, source);
    SubSets([Sub(w.forest, source)], merge);
    KidInside(m, i);
    RootIn([m.kids[i]], 0);
  }

  lemma ChildClear(t: Tree, m: Tree, i: nat, j: nat)
    requires j < |t.kids| && i < |m.kids| && NodesOf([t]) !! NodesOf([m])
    ensures NodesOf([t.kids[j]]) !! NodesOf([m.kids[i]])
  {
    KidInside(t, j);
    KidInside(m, i);
  }

  lemma ChildRelated(w: World, node: Node, merge: Node, source: Node, rel: Relation, i: nat, j: nat)
    requires Apart(w.forest, w.keys) && node in NodesOf(w.forest) && merge in NodesOf(w.forest)
    requires Related(w, node, merge, source, rel) && !rel.Flat?
    requires i < |Sub(w.forest, merge).kids| && j < |Sub(w.forest, node).kids|
    requires Sub(w.forest, node).fields.kind.Mapping? ==>
               j < |Sub(w.forest, node).keys| && IsFirst(Sub(w.forest, node).keys, j)
    ensures
      var c, x := Sub(w.forest, node).kids[j], Sub(w.forest, merge).kids[i];
      && c.node in NodesOf(w.forest) && Sub(w.forest, c.node) == c
      && x.node in NodesOf(w.forest) && Sub(w.forest, x.node) == x
      && (c.node == source ==> rel.Outside?)
      && (c.node != source ==> Related(w, c.node, x.node, source, ChildRel(rel, i, j)))
  {
    var s, m := Sub(w.forest, node), Sub(w.forest, merge);
    SubOfSub(w.forest, node, j);
    SubOfSub(w.forest, merge, i);
    NotInChild(s, j, source);
    match rel {
      case Clear =>
        ChildClear(s, m, i, j);
      case Outside =>
        if s.kids[j].node != source { ChildOutside(w, node, source, j); }
        ChildMerged(w, source, merge, i);
      case Above(path, loose) =>
        if path != [] {
          ChildAbove(w, node, merge, path, loose, i, j);
        } else if i != j {
          SourceApart(w, node, merge);
          OtherChildApart(s, i, j);
        }
    }
  }

  lemma NotInChild(t: Tree, j: nat, x: Node)
    requires j < |t.kids|
    ensures x !in NodesOf(t.kids) ==> x != t.kids[j].node && x !in NodesOf([t.kids[j]]) && x !in NodesOf(t.kids[j].kids)
    ensures x !in NodesOf([t]) ==> x !in NodesOf(t.kids)
  {
    KidSets(t.kids, j);
    SingleSets(t.kids[j]);
    SingleSets(t);
  }

  lemma OtherChildApart(t: Tree, i: nat, j: nat)
    requires Distinct([t]) && i < |t.kids| && j < |t.kids| && i != j
    ensures NodesOf([t.kids[j]]) !! NodesOf([t.kids[i]])
  {
    SingleSets(t);
    KidsApart(t.kids, i, j);
  }

  // ----- after a change of the target -----

  lemma ClearAfter(w: World, after: World, node: Node, merge: Node, s: Tree)
    requires Apart(w.forest, w.keys) && Apart(after.forest, after.keys) && Grows(w, after)
    requires Replaced(w, after, node, s)
    requires merge in NodesOf(w.forest) && NodesOf([Sub(w.forest, node)]) !! NodesOf([Sub(w.forest, merge)])
    ensures merge in NodesOf(after.forest) && Sub(after.forest, merge) == Sub(w.forest, merge)
    ensures Sub(after.forest, node) == s && NodesOf([s]) !! NodesOf([Sub(w.forest, merge)])
  {
    SourceApart(w, node, merge);
    TheSubtree(w, after, node, s);
    SubAfter(w, after, node, s, merge);
  }

  lemma AboveAfter(w: World, after: World, node: Node, merge: Node, path: seq<nat>, loose: nat, s: Tree)
    requires Apart(w.forest, w.keys) && Apart(after.forest, after.keys) && Grows(w, after)
    requires Replaced(w, after, node, s) && merge in NodesOf(w.forest)
    requires Reach(Sub(w.forest, merge), path, loose, node) && path != []
    ensures merge in NodesOf(after.forest) && node in NodesOf(after.forest)
    ensures Reach(Sub(after.forest, merge), path, loose, node)
    ensures Sub(after.forest, merge) ==
            Sub(w.forest, merge).(kids := Replace(Sub(w.forest, merge).kids, node, s))
  {
    var m := Sub(w.forest, merge);
    SourceApart(w, node, merge);
    TargetBelow(w, node, merge, path, loose);
    TheSubtree(w, after, node, s);
    SubAfter(w, after, node, s, merge);
    ReachAfter(m, path, loose, node, s);
  }

  // The merged node has the keys and the number of children that it had.
  ghost predicate SameKeys(m: Tree, now: Tree) {
    now.fields == m.fields && now.keys == m.keys && |now.kids| == |m.kids|
  }

  // What was not in the target's tree, or not below the target, is not there afterwards.
  lemma StillAway(w: World, after: World, node: Node, s: Tree, x: Node)
    requires Distinct(w.forest) && Distinct(after.forest) && Replaced(w, after, node, s) && x in NodesOf(w.forest)
    ensures x !in NodesOf([Sub(w.forest, node)]) ==> x !in NodesOf([s])
    ensures x !in NodesOf(Sub(w.forest, node).kids) ==> x !in NodesOf(s.kids)
  {
    TheSubtree(w, after, node, s);
    SubSets(after.forest, node);
    SingleSets(s);
    SingleSets(Sub(w.forest, node));
  }

  // A source that is as it was still has the merged node as it was, and the target not in its tree.
  lemma OutsideAfter(w: World, after: World, node: Node, merge: Node, source: Node)
    requires Distinct(w.forest) && Distinct(after.forest) && Unharmed(w, after, source)
    requires merge in NodesOf(w.forest) && merge in NodesOf([Sub(w.forest, source)])
    ensures merge in NodesOf(after.forest) && Sub(after.forest, merge) == Sub(w.forest, merge)
  {
    SubInSub(w.forest, source, merge);
    SubInSub(after.forest, source, merge);
  }

  lemma SourceAfter(w: World, after: World, node: Node, merge: Node, source: Node, rel: Relation, s: Tree)
    requires Apart(w.forest, w.keys) && Apart(after.forest, after.keys) && Grows(w, after)
    requires Replaced(w, after, node, s) && merge in NodesOf(w.forest)
    requires Related(w, node, merge, source, rel) && !rel.Flat?
    requires rel.Above? && rel.path == [] ==> SameKeys(Sub(w.forest, node), s)
    requires rel.Outside? ==> Unharmed(w, after, source)
    ensures merge in NodesOf(after.forest) && node in NodesOf(after.forest)
    ensures Related(after, node, merge, source, rel)
    ensures SameKeys(Sub(w.forest, merge), Sub(after.forest, merge))
    ensures rel.Steady() ==> Sub(after.forest, merge) == Sub(w.forest, merge)
  {
    TheSubtree(w, after, node, s);
    StillAway(w, after, node, s, source);
    if rel.Clear? {
      ClearAfter(w, after, node, merge, s);
    } else if rel.Outside? {
      OutsideAfter(w, after, node, merge, source);
    } else if rel.path != [] {
      AboveAfter(w, after, node, merge, rel.path, rel.loose, s);
    }
  }
}
