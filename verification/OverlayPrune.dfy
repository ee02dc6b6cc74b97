/** What removing nodes from a document means: each goes away with its key, and nothing else does. */
module OverlayPrune {
  import opened YamlNode
  import opened OverlayMerge
  import opened OverlayTree
  import opened OverlayForest

  ghost function KeptKids(kids: seq<Tree>, gone: set<Node>): seq<Tree> {
    if kids == [] then []
    else if kids[0].node in gone then KeptKids(kids[1..], gone)
    else [kids[0]] + KeptKids(kids[1..], gone)
  }

  // The keys of the kept children.
  ghost function KeptKeys(keys: seq<Tree>, kids: seq<Tree>, gone: set<Node>): seq<Tree> {
    if keys == [] || kids == [] then []
    else if kids[0].node in gone then KeptKeys(keys[1..], kids[1..], gone)
    else [keys[0]] + KeptKeys(keys[1..], kids[1..], gone)
  }

  // Mappings and sequences lose children, other nodes do not.
  ghost function Trim(t: Tree, gone: set<Node>): Tree {
    match t.fields.kind
    case Mapping => t.(keys := KeptKeys(t.keys, t.kids, gone), kids := KeptKids(t.kids, gone))
    case Sequence => t.(kids := KeptKids(t.kids, gone))
    case _ => t
  }

  ghost function Prune(ts: seq<Tree>, gone: set<Node>): (r: seq<Tree>)
    ensures |r| == |ts| && forall i | 0 <= i < |ts| :: r[i].node == ts[i].node
    decreases ts
  {
    if ts == [] then []
    else [Trim(ts[0].(kids := Prune(ts[0].kids, gone)), gone)] + Prune(ts[1..], gone)
  }

  // ----- one removal after another -----

  lemma {:induction false} KeptTwice(kids: seq<Tree>, a: set<Node>, b: set<Node>)
    ensures KeptKids(KeptKids(kids, a), b) == KeptKids(kids, a + b)
  {
    if kids != [] {
      var rest := KeptKids(kids[1..], a);
      KeptTwice(kids[1..], a, b);
      if kids[0].node !in a { assert ([kids[0]] + rest)[1..] == rest; }
    }
  }

  lemma {:induction false} KeptKeysTwice(keys: seq<Tree>, kids: seq<Tree>, a: set<Node>, b: set<Node>)
    ensures KeptKeys(KeptKeys(keys, kids, a), KeptKids(kids, a), b) == KeptKeys(keys, kids, a + b)
  {
    if keys != [] && kids != [] {
      var restKids, restKeys := KeptKids(kids[1..], a), KeptKeys(keys[1..], kids[1..], a);
      KeptKeysTwice(keys[1..], kids[1..], a, b);
      if kids[0].node !in a {
        assert ([kids[0]] + restKids)[1..] == restKids && ([keys[0]] + restKeys)[1..] == restKeys;
      }
    }
  }

  lemma {:induction false} KeptSameRoots(keys: seq<Tree>, a: seq<Tree>, b: seq<Tree>, gone: set<Node>)
    requires |a| == |b| && forall i | 0 <= i < |a| :: a[i].node == b[i].node
    ensures KeptKeys(keys, a, gone) == KeptKeys(keys, b, gone)
  {
    if keys != [] && a != [] {
      assert forall i | 0 <= i < |a| - 1 :: a[1..][i].node == a[i + 1].node && b[1..][i].node == b[i + 1].node;
      KeptSameRoots(keys[1..], a[1..], b[1..], gone);
    }
  }

  // Dropping children and pruning below them do not disturb each other.
  lemma {:induction false} PruneKept(kids: seq<Tree>, a: set<Node>, b: set<Node>)
    ensures Prune(KeptKids(kids, a), b) == KeptKids(Prune(kids, b), a)
  {
    if kids != [] {
      var rest, r := KeptKids(kids[1..], a), Prune(kids, b);
      PruneKept(kids[1..], a, b);
      assert r[1..] == Prune(kids[1..], b);
      if kids[0].node !in a { assert ([kids[0]] + rest)[1..] == rest; }
    }
  }

  /** Removing some nodes and then others is removing them all. */
  lemma {:induction false} PruneTwice(ts: seq<Tree>, a: set<Node>, b: set<Node>)
    ensures Prune(Prune(ts, a), b) == Prune(ts, a + b)
    decreases ts
  {
    if ts != [] {
      var t, r := ts[0], Prune(ts, a);
      assert r[1..] == Prune(ts[1..], a);
      PruneTwice(ts[1..], a, b);
      PruneTwice(t.kids, a, b);
      TrimTwice(t, Prune(t.kids, a), a, b);
    }
  }

  lemma TrimTwice(t: Tree, kids: seq<Tree>, a: set<Node>, b: set<Node>)
    ensures
      var once := Trim(t.(kids := kids), a);
      Trim(once.(kids := Prune(once.kids, b)), b) == Trim(t.(kids := Prune(kids, b)), a + b)
  {
    PruneKept(kids, a, b);
    KeptTwice(Prune(kids, b), a, b);
    if t.fields.kind.Mapping? { KeysTwice(t.keys, kids, a, b); }
  }

  lemma KeysTwice(keys: seq<Tree>, kids: seq<Tree>, a: set<Node>, b: set<Node>)
    ensures KeptKeys(KeptKeys(keys, kids, a), Prune(KeptKids(kids, a), b), b) == KeptKeys(keys, Prune(kids, b), a + b)
  {
    var pruned := Prune(kids, b);
    PruneKept(kids, a, b);
    KeptKeysTwice(keys, pruned, a, b);
    KeptSameRoots(keys, kids, pruned, a);
  }

  // ----- what is left -----

  lemma {:induction false} KeptSets(kids: seq<Tree>, gone: set<Node>)
    ensures NodesOf(KeptKids(kids, gone)) <= NodesOf(kids) && KeysOf(KeptKids(kids, gone)) <= KeysOf(kids)
    ensures Distinct(kids) ==> Distinct(KeptKids(kids, gone))
  {
    if kids != [] {
      var rest := KeptKids(kids[1..], gone);
      KeptSets(kids[1..], gone);
      assert ([kids[0]] + rest)[1..] == rest;
    }
  }

  lemma {:induction false} KeptKeySets(keys: seq<Tree>, kids: seq<Tree>, gone: set<Node>)
    ensures NodesOf(KeptKeys(keys, kids, gone)) <= NodesOf(keys) && KeysOf(KeptKeys(keys, kids, gone)) <= KeysOf(keys)
  {
    if keys != [] && kids != [] {
      var rest := KeptKeys(keys[1..], kids[1..], gone);
      KeptKeySets(keys[1..], kids[1..], gone);
      assert ([keys[0]] + rest)[1..] == rest;
    }
  }

  lemma TrimSets(t: Tree, gone: set<Node>)
    ensures NodesOf([Trim(t, gone)]) <= NodesOf([t]) && KeysOf([Trim(t, gone)]) <= KeysOf([t])
    ensures Distinct([t]) ==> Distinct([Trim(t, gone)])
  {
    if t.fields.kind.Mapping? || t.fields.kind.Sequence? {
      var keys := if t.fields.kind.Mapping? then KeptKeys(t.keys, t.kids, gone) else t.keys;
      KeptSets(t.kids, gone);
      KeptKeySets(t.keys, t.kids, gone);
      FewerSets(t, keys, KeptKids(t.kids, gone));
    }
  }

  lemma FewerSets(t: Tree, keys: seq<Tree>, kids: seq<Tree>)
    requires NodesOf(kids) <= NodesOf(t.kids) && KeysOf(kids) <= KeysOf(t.kids) && (Distinct(t.kids) ==> Distinct(kids))
    requires AllOf(keys) <= AllOf(t.keys)
    ensures
      var r := t.(keys := keys, kids := kids);
      NodesOf([r]) <= NodesOf([t]) && KeysOf([r]) <= KeysOf([t]) && (Distinct([t]) ==> Distinct([r]))
  {
    SingleSets(t);
    SingleSets(t.(keys := keys, kids := kids));
  }

  lemma {:induction false} PruneSets(ts: seq<Tree>, gone: set<Node>)
    ensures NodesOf(Prune(ts, gone)) <= NodesOf(ts) && KeysOf(Prune(ts, gone)) <= KeysOf(ts)
    ensures Distinct(ts) ==> Distinct(Prune(ts, gone))
    decreases ts
  {
    if ts != [] {
      var t, r := ts[0], Prune(ts, gone);
      var below := t.(kids := Prune(t.kids, gone));
      assert r[1..] == Prune(ts[1..], gone);
      PruneSets(t.kids, gone);
      PruneSets(ts[1..], gone);
      SingleSets(t);
      SingleSets(below);
      SingleSets(r[0]);
      TrimSets(below, gone);
    }
  }

  lemma {:induction false} KeptAgrees(kids: seq<Tree>, gone: set<Node>, parent: Node, index: map<Node, Node>)
    requires Agrees(kids, index) && IsParent(parent, kids, index)
    ensures Agrees(KeptKids(kids, gone), index) && IsParent(parent, KeptKids(kids, gone), index)
  {
    if kids != [] {
      var rest := KeptKids(kids[1..], gone);
      assert IsParent(parent, kids[1..], index) by {
        assert forall i | 0 <= i < |kids| - 1 :: kids[1..][i] == kids[i + 1];
      }
      KeptAgrees(kids[1..], gone, parent, index);
      if kids[0].node !in gone {
        var kept := [kids[0]] + rest;
        assert kept[1..] == rest;
        forall i | 0 <= i < |kept| && kept[i].node in index ensures index[kept[i].node] == parent {
          if i > 0 { assert kept[i] == rest[i - 1]; }
        }
      }
    }
  }

  lemma {:induction false} PruneAgrees(ts: seq<Tree>, gone: set<Node>, index: map<Node, Node>)
    requires Agrees(ts, index)
    ensures Agrees(Prune(ts, gone), index)
    decreases ts
  {
    if ts != [] {
      var t, r := ts[0], Prune(ts, gone);
      assert r[1..] == Prune(ts[1..], gone);
      PruneAgrees(t.kids, gone, index);
      PruneAgrees(ts[1..], gone, index);
      assert IsParent(t.node, Prune(t.kids, gone), index);
      KeptAgrees(Prune(t.kids, gone), gone, t.node, index);
    }
  }

  // ----- removing one node -----

  // No mapping or sequence has the node as a child.
  ghost predicate NotAKid(ts: seq<Tree>, x: Node) {
    ts != [] ==>
      && (ts[0].fields.kind.Mapping? || ts[0].fields.kind.Sequence? ==>
            forall i | 0 <= i < |ts[0].kids| :: ts[0].kids[i].node != x)
      && NotAKid(ts[0].kids, x)
      && NotAKid(ts[1..], x)
  }

  lemma {:induction false} KeepAllKids(kids: seq<Tree>, x: Node)
    requires forall i | 0 <= i < |kids| :: kids[i].node != x
    ensures KeptKids(kids, {x}) == kids
  {
    if kids != [] { KeepAllKids(kids[1..], x); }
  }

  lemma {:induction false} KeepAllKeys(keys: seq<Tree>, kids: seq<Tree>, x: Node)
    requires |keys| == |kids| && forall i | 0 <= i < |kids| :: kids[i].node != x
    ensures KeptKeys(keys, kids, {x}) == keys
  {
    if kids != [] { KeepAllKeys(keys[1..], kids[1..], x); }
  }

  lemma TrimNothing(t: Tree, x: Node)
    requires t.fields.kind.Mapping? ==> |t.keys| == |t.kids|
    requires t.fields.kind.Mapping? || t.fields.kind.Sequence? ==> forall i | 0 <= i < |t.kids| :: t.kids[i].node != x
    ensures Trim(t, {x}) == t
  {
    match t.fields.kind
    case Mapping =>
      KeepAllKids(t.kids, x);
      KeepAllKeys(t.keys, t.kids, x);
    case Sequence =>
      KeepAllKids(t.kids, x);
    case _ =>
  }

  // Mappings have as many keys as values.
  ghost predicate Paired(ts: seq<Tree>) {
    ts != [] ==>
      && (ts[0].fields.kind.Mapping? ==> |ts[0].keys| == |ts[0].kids|)
      && Paired(ts[0].kids)
      && Paired(ts[1..])
  }

  lemma {:induction false} HeldIsPaired(ts: seq<Tree>)
    requires Holds(ts)
    ensures Paired(ts)
    decreases ts
  {
    if ts != [] {
      HeldIsPaired(ts[0].kids);
      HeldIsPaired(ts[1..]);
    }
  }

  lemma {:induction false} PruneNothing(ts: seq<Tree>, x: Node)
    requires NotAKid(ts, x) && Paired(ts)
    ensures Prune(ts, {x}) == ts
    decreases ts
  {
    if ts != [] {
      PruneNothing(ts[0].kids, x);
      PruneNothing(ts[1..], x);
      TrimNothing(ts[0], x);
    }
  }

  // A node whose parent is not there is nobody's child.
  lemma {:induction false} ParentAway(ts: seq<Tree>, x: Node, index: map<Node, Node>)
    requires Agrees(ts, index) && x in index && index[x] !in NodesOf(ts)
    ensures NotAKid(ts, x)
    decreases ts
  {
    if ts != [] {
      ParentAway(ts[0].kids, x, index);
      ParentAway(ts[1..], x, index);
      assert IsParent(ts[0].node, ts[0].kids, index);
    }
  }

  // If the node is not its parent's child, it is nobody's.
  lemma {:induction false} NotInParent(ts: seq<Tree>, x: Node, index: map<Node, Node>)
    requires Agrees(ts, index) && x in index && Distinct(ts) && index[x] in NodesOf(ts)
    requires
      var p := Sub(ts, index[x]);
      p.fields.kind.Mapping? || p.fields.kind.Sequence? ==> forall i | 0 <= i < |p.kids| :: p.kids[i].node != x
    ensures NotAKid(ts, x)
    decreases ts
  {
    var t, rest, p := ts[0], ts[1..], index[x];
    assert IsParent(t.node, t.kids, index);
    if t.node == p {
      ParentAway(t.kids, x, index);
      ParentAway(rest, x, index);
    } else if p in NodesOf(t.kids) {
      NotInParent(t.kids, x, index);
      ParentAway(rest, x, index);
    } else {
      ParentAway(t.kids, x, index);
      NotInParent(rest, x, index);
    }
  }

  // A root is nobody's child.
  lemma {:induction false} RootIsNotAKid(ts: seq<Tree>, x: Node)
    requires x !in NodesOf(ts)
    ensures NotAKid(ts, x)
    decreases ts
  {
    if ts != [] {
      RootIsNotAKid(ts[0].kids, x);
      RootIsNotAKid(ts[1..], x);
      forall i | 0 <= i < |ts[0].kids| ensures ts[0].kids[i].node != x { RootIn(ts[0].kids, i); }
    }
  }

  lemma {:induction false} KeptHolds(kids: seq<Tree>, gone: set<Node>)
    requires Holds(kids)
    ensures Holds(KeptKids(kids, gone))
  {
    if kids != [] {
      var rest := KeptKids(kids[1..], gone);
      KeptHolds(kids[1..], gone);
      assert ([kids[0]] + rest)[1..] == rest;
    }
  }

  lemma {:induction false} KeptKeysHold(keys: seq<Tree>, kids: seq<Tree>, gone: set<Node>)
    requires Holds(keys)
    ensures Holds(KeptKeys(keys, kids, gone))
  {
    if keys != [] && kids != [] {
      var rest := KeptKeys(keys[1..], kids[1..], gone);
      KeptKeysHold(keys[1..], kids[1..], gone);
      assert ([keys[0]] + rest)[1..] == rest;
    }
  }

  // Once the parent's content is cut, the heap holds the pruned trees.
  lemma {:induction false} CutHolds(ts: seq<Tree>, x: Node, index: map<Node, Node>)
    requires Distinct(ts) && NodesOf(ts) !! KeysOf(ts) && Paired(ts)
    requires Agrees(ts, index) && x in index && index[x] in NodesOf(ts)
    requires HoldsBut(ts, {index[x]}) && Mirrored(Trim(Sub(ts, index[x]), {x}))
    ensures Holds(Prune(ts, {x}))
    decreases ts
  {
    var t, rest, p, r := ts[0], ts[1..], index[x], Prune(ts, {x});
    assert r[1..] == Prune(rest, {x});
    assert IsParent(t.node, t.kids, index);
    HoldsApart(t.keys, {p});
    if t.node == p {
      CutHeadHolds(t, x, index);
      ParentAway(rest, x, index);
      PruneNothing(rest, x);
      HoldsApart(rest, {p});
    } else if p in NodesOf(t.kids) {
      CutHolds(t.kids, x, index);
      CutElsewhere(t, x);
      ParentAway(rest, x, index);
      PruneNothing(rest, x);
      HoldsApart(rest, {p});
    } else {
      ParentAway(t.kids, x, index);
      PruneNothing(t.kids, x);
      TrimNothing(t, x);
      HoldsApart(t.kids, {p});
      CutHolds(rest, x, index);
    }
  }

  lemma CutHeadHolds(t: Tree, x: Node, index: map<Node, Node>)
    requires Paired(t.kids) && Agrees(t.kids, index) && x in index && index[x] == t.node
    requires AllOf(t.kids) !! {t.node} && HoldsBut(t.kids, {t.node}) && Holds(t.keys)
    ensures Prune(t.kids, {x}) == t.kids
    ensures Holds(Trim(t, {x}).kids) && Holds(Trim(t, {x}).keys)
  {
    ParentAway(t.kids, x, index);
    PruneNothing(t.kids, x);
    HoldsApart(t.kids, {t.node});
    KeptHolds(t.kids, {x});
    KeptKeysHold(t.keys, t.kids, {x});
  }

  // A node that is not the parent keeps its own content.
  lemma CutElsewhere(t: Tree, x: Node)
    requires Mirrored(t) && forall i | 0 <= i < |t.kids| :: t.kids[i].node != x
    ensures Trim(t.(kids := Prune(t.kids, {x})), {x}) == t.(kids := Prune(t.kids, {x}))
    ensures Mirrored(t.(kids := Prune(t.kids, {x})))
  {
    TrimNothing(t.(kids := Prune(t.kids, {x})), x);
  }

  lemma {:induction false} KeptButOne(kids: seq<Tree>, i: nat)
    requires Distinct(kids) && i < |kids|
    ensures NodesOf(KeptKids(kids, {kids[i].node})) == NodesOf(kids) - NodesOf([kids[i]])
    decreases i
  {
    var x, t, rest := kids[i].node, kids[0], kids[1..];
    SingleSets(t);
    RootIn(kids, i);
    if i == 0 {
      RootsAway(rest, x);
      KeepAllKids(rest, x);
    } else {
      KeptButOne(rest, i - 1);
      RootIn(rest, i - 1);
      KidSets(rest, i - 1);
      assert ([t] + KeptKids(rest, {x}))[1..] == KeptKids(rest, {x});
    }
  }

  lemma RootsAway(ts: seq<Tree>, x: Node)
    requires x !in NodesOf(ts)
    ensures forall i | 0 <= i < |ts| :: ts[i].node != x
  {
    forall i | 0 <= i < |ts| ensures ts[i].node != x { RootIn(ts, i); }
  }

  // The parent itself loses the subtree of the node.
  lemma CutHere(t: Tree, x: Node, index: map<Node, Node>, i: nat)
    requires Distinct([t]) && Paired(t.kids) && Agrees(t.kids, index) && x in index && index[x] == t.node
    requires (t.fields.kind.Mapping? || t.fields.kind.Sequence?) && i < |t.kids| && t.kids[i].node == x
    ensures x in NodesOf(t.kids) && Sub(t.kids, x) == t.kids[i]
    ensures
      var cut := Trim(t.(kids := Prune(t.kids, {x})), {x});
      {cut.node} + NodesOf(cut.kids) == {t.node} + NodesOf(t.kids) - NodesOf([t.kids[i]])
  {
    SingleSets(t);
    ParentAway(t.kids, x, index);
    PruneNothing(t.kids, x);
    KeptButOne(t.kids, i);
    SubOfKid(t.kids, i);
    KidSets(t.kids, i);
  }

  // What a removal takes out of the trees is the subtree of the node.
  lemma {:induction false} CutSets(ts: seq<Tree>, x: Node, index: map<Node, Node>, i: nat)
    requires Distinct(ts) && Paired(ts) && Agrees(ts, index) && x in index && index[x] in NodesOf(ts)
    requires
      var p := Sub(ts, index[x]);
      (p.fields.kind.Mapping? || p.fields.kind.Sequence?) && i < |p.kids| && p.kids[i].node == x
    ensures x in NodesOf(ts)
    ensures NodesOf(Prune(ts, {x})) == NodesOf(ts) - NodesOf([Sub(ts, x)])
    decreases ts
  {
    var t, rest, p := ts[0], ts[1..], index[x];
    if t.node == p {
      CutHeadSets(ts, x, index, i);
    } else if p in NodesOf(t.kids) {
      CutSets(t.kids, x, index, i);
      CutBelowSets(ts, x, index);
    } else {
      CutSets(rest, x, index, i);
      CutBesideSets(ts, x, index);
    }
  }

  lemma CutHeadSets(ts: seq<Tree>, x: Node, index: map<Node, Node>, i: nat)
    requires ts != [] && Distinct(ts) && Paired(ts) && Agrees(ts, index) && x in index && index[x] == ts[0].node
    requires
      var p := ts[0];
      (p.fields.kind.Mapping? || p.fields.kind.Sequence?) && i < |p.kids| && p.kids[i].node == x
    ensures x in NodesOf(ts)
    ensures NodesOf(Prune(ts, {x})) == NodesOf(ts) - NodesOf([Sub(ts, x)])
  {
    var t, rest := ts[0], ts[1..];
    assert Distinct([t]) by { SingleSets(t); }
    CutHere(t, x, index, i);
    KidSets(t.kids, i);
    assert Prune(rest, {x}) == rest by {
      ParentAway(rest, x, index);
      PruneNothing(rest, x);
    }
    PrunedSets(ts, x);
  }

  lemma CutBelowSets(ts: seq<Tree>, x: Node, index: map<Node, Node>)
    requires ts != [] && Distinct(ts) && Paired(ts) && Agrees(ts, index) && x in index
    requires index[x] in NodesOf(ts[0].kids) && x in NodesOf(ts[0].kids)
    requires NodesOf(Prune(ts[0].kids, {x})) == NodesOf(ts[0].kids) - NodesOf([Sub(ts[0].kids, x)])
    ensures NodesOf(Prune(ts, {x})) == NodesOf(ts) - NodesOf([Sub(ts, x)])
  {
    var t, rest := ts[0], ts[1..];
    SubSets(t.kids, x);
    OtherParent(t, x, index);
    ParentAway(rest, x, index);
    PruneNothing(rest, x);
    PrunedSets(ts, x);
  }

  lemma CutBesideSets(ts: seq<Tree>, x: Node, index: map<Node, Node>)
    requires ts != [] && Distinct(ts) && Paired(ts) && Agrees(ts, index) && x in index
    requires index[x] in NodesOf(ts[1..]) && x in NodesOf(ts[1..])
    requires NodesOf(Prune(ts[1..], {x})) == NodesOf(ts[1..]) - NodesOf([Sub(ts[1..], x)])
    ensures NodesOf(Prune(ts, {x})) == NodesOf(ts) - NodesOf([Sub(ts, x)])
  {
    var t, rest := ts[0], ts[1..];
    ParentAway(t.kids, x, index);
    PruneNothing(t.kids, x);
    SubSets(rest, x);
    OtherParent(t, x, index);
    PrunedSets(ts, x);
  }

  lemma PrunedSets(ts: seq<Tree>, x: Node)
    requires ts != []
    ensures
      var t := ts[0];
      NodesOf(Prune(ts, {x})) ==
        {t.node} + NodesOf(Trim(t.(kids := Prune(t.kids, {x})), {x}).kids) + NodesOf(Prune(ts[1..], {x}))
  {
    assert Prune(ts, {x})[1..] == Prune(ts[1..], {x});
  }

  lemma OtherParent(t: Tree, x: Node, index: map<Node, Node>)
    requires IsParent(t.node, t.kids, index) && x in index && index[x] != t.node
    requires t.fields.kind.Mapping? ==> |t.keys| == |t.kids|
    ensures Trim(t.(kids := Prune(t.kids, {x})), {x}).kids == Prune(t.kids, {x})
  {
    TrimNothing(t.(kids := Prune(t.kids, {x})), x);
  }

  // ----- reading a pruned document -----

  lemma {:induction false} KeptAreKept(kids: seq<Tree>, gone: set<Node>, x: Node)
    requires x in gone
    ensures forall i | 0 <= i < |KeptKids(kids, gone)| :: KeptKids(kids, gone)[i].node != x
    ensures NotAKid(kids, x) ==> NotAKid(KeptKids(kids, gone), x)
  {
    if kids != [] {
      var rest := KeptKids(kids[1..], gone);
      KeptAreKept(kids[1..], gone, x);
      assert ([kids[0]] + rest)[1..] == rest;
    }
  }

  /** Every removed node is gone from all mappings and sequences. */
  lemma {:induction false} RemovedIsGone(ts: seq<Tree>, gone: set<Node>, x: Node)
    requires x in gone
    ensures NotAKid(Prune(ts, gone), x)
    decreases ts
  {
    if ts != [] {
      var r := Prune(ts, gone);
      assert r[1..] == Prune(ts[1..], gone);
      RemovedIsGone(ts[0].kids, gone, x);
      RemovedIsGone(ts[1..], gone, x);
      KeptAreKept(Prune(ts[0].kids, gone), gone, x);
    }
  }

  lemma {:induction false} KidsInOrder(kids: seq<Tree>, gone: set<Node>, i: nat)
    requires i < |kids|
    ensures KeptKids(kids, gone) ==
            KeptKids(kids[..i], gone) + (if kids[i].node in gone then [] else [kids[i]]) + KeptKids(kids[i + 1..], gone)
  {
    if i == 0 {
      assert kids[..0] == [];
    } else {
      var rest := kids[1..];
      KidsInOrder(rest, gone, i - 1);
      assert kids[..i][1..] == rest[..i - 1] && rest[i..] == kids[i + 1..];
      InFront(
        if kids[0].node in gone then [] else [kids[0]], KeptKids(rest[..i - 1], gone),
        if kids[i].node in gone then [] else [kids[i]], KeptKids(kids[i + 1..], gone));
    }
  }

  lemma {:induction false} KeysInOrder(keys: seq<Tree>, kids: seq<Tree>, gone: set<Node>, i: nat)
    requires |keys| == |kids| && i < |kids|
    ensures KeptKeys(keys, kids, gone) ==
            KeptKeys(keys[..i], kids[..i], gone) + (if kids[i].node in gone then [] else [keys[i]]) +
            KeptKeys(keys[i + 1..], kids[i + 1..], gone)
  {
    if i == 0 {
      assert kids[..0] == [] && keys[..0] == [];
    } else {
      var rest, restKeys := kids[1..], keys[1..];
      KeysInOrder(restKeys, rest, gone, i - 1);
      assert kids[..i][1..] == rest[..i - 1] && rest[i..] == kids[i + 1..];
      assert keys[..i][1..] == restKeys[..i - 1] && restKeys[i..] == keys[i + 1..];
      InFront(
        if kids[0].node in gone then [] else [keys[0]], KeptKeys(restKeys[..i - 1], rest[..i - 1], gone),
        if kids[i].node in gone then [] else [keys[i]], KeptKeys(keys[i + 1..], kids[i + 1..], gone));
    }
  }

  lemma InFront(front: seq<Tree>, a: seq<Tree>, m: seq<Tree>, b: seq<Tree>)
    ensures front + (a + m + b) == front + a + m + b
    ensures front == [] ==> a + m + b == front + a + m + b && a == front + a
  {}

  /** What is kept keeps its order, and each value its key. */
  lemma KeptInOrder(keys: seq<Tree>, kids: seq<Tree>, gone: set<Node>, i: nat)
    requires |keys| == |kids| && i < |kids|
    ensures
      var key, kid := [keys[i]], [kids[i]];
      var kept := kids[i].node !in gone;
      && KeptKids(kids, gone) ==
         KeptKids(kids[..i], gone) + (if kept then kid else []) + KeptKids(kids[i + 1..], gone)
      && KeptKeys(keys, kids, gone) ==
         KeptKeys(keys[..i], kids[..i], gone) + (if kept then key else []) +
         KeptKeys(keys[i + 1..], kids[i + 1..], gone)
  {
    KidsInOrder(kids, gone, i);
    KeysInOrder(keys, kids, gone, i);
  }
}
