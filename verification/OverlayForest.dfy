/** The document and the trees cut off from it, as a list: finding, replacing and pruning subtrees. */
module OverlayForest {
  import opened YamlNode
  import opened OverlayMerge
  import opened OverlayTree

  // ----- finding -----

  // The subtree of a node.
  ghost function Sub(ts: seq<Tree>, x: Node): (s: Tree)
    requires x in NodesOf(ts)
    ensures s.node == x && x in NodesOf([s])
    decreases ts
  {
    if ts[0].node == x then assert [ts[0]][0] == ts[0]; ts[0]
    else if x in NodesOf(ts[0].kids) then Sub(ts[0].kids, x)
    else Sub(ts[1..], x)
  }

  lemma {:induction false} SubSets(ts: seq<Tree>, x: Node)
    requires x in NodesOf(ts)
    ensures NodesOf([Sub(ts, x)]) <= NodesOf(ts) && KeysOf([Sub(ts, x)]) <= KeysOf(ts)
    ensures Distinct(ts) ==> Distinct([Sub(ts, x)])
    decreases ts
  {
    if ts[0].node == x {
      SingleSets(ts[0]);
    } else if x in NodesOf(ts[0].kids) {
      SubSets(ts[0].kids, x);
    } else {
      SubSets(ts[1..], x);
    }
  }

  lemma {:induction false} SubHolds(ts: seq<Tree>, x: Node, but: set<Node>)
    requires x in NodesOf(ts) && HoldsBut(ts, but)
    ensures HoldsBut([Sub(ts, x)], but)
    decreases ts
  {
    if ts[0].node == x {
      SingleHolds(ts[0], but);
    } else if x in NodesOf(ts[0].kids) {
      SubHolds(ts[0].kids, x, but);
    } else {
      SubHolds(ts[1..], x, but);
    }
  }

  lemma {:induction false} SubAgrees(ts: seq<Tree>, x: Node, index: map<Node, Node>)
    requires x in NodesOf(ts) && Agrees(ts, index)
    ensures Agrees([Sub(ts, x)], index)
    decreases ts
  {
    if ts[0].node == x {
      assert [ts[0]][1..] == [];
    } else if x in NodesOf(ts[0].kids) {
      SubAgrees(ts[0].kids, x, index);
    } else {
      SubAgrees(ts[1..], x, index);
    }
  }

  lemma {:induction false} SubOfAppend(a: seq<Tree>, b: seq<Tree>, x: Node)
    requires x in NodesOf(a) + NodesOf(b)
    ensures x in NodesOf(a + b)
    ensures Sub(a + b, x) == if x in NodesOf(a) then Sub(a, x) else Sub(b, x)
    decreases |a|
  {
    AppendSets(a, b);
    if a == [] {
      assert a + b == b;
    } else {
      assert (a + b)[1..] == a[1..] + b;
      AppendSets(a[1..], b);
      if a[0].node != x && x !in NodesOf(a[0].kids) { SubOfAppend(a[1..], b, x); }
    }
  }

  // A child in a list is the subtree of its node.
  lemma {:induction false} SubOfKid(kids: seq<Tree>, j: nat)
    requires Distinct(kids) && j < |kids|
    ensures kids[j].node in NodesOf(kids) && Sub(kids, kids[j].node) == kids[j]
  {
    if j > 0 {
      RootIn(kids[1..], j - 1);
      SubOfKid(kids[1..], j - 1);
    }
  }

  // The children of a subtree are the subtrees of their nodes.
  lemma {:induction false} SubOfSub(ts: seq<Tree>, p: Node, j: nat)
    requires Distinct(ts) && p in NodesOf(ts) && j < |Sub(ts, p).kids|
    ensures Sub(ts, p).kids[j].node in NodesOf(ts)
    ensures Sub(ts, Sub(ts, p).kids[j].node) == Sub(ts, p).kids[j]
    decreases ts
  {
    var t, rest := ts[0], ts[1..];
    if t.node == p {
      SubOfKid(t.kids, j);
    } else if p in NodesOf(t.kids) {
      SubOfSub(t.kids, p, j);
    } else {
      SubOfSub(rest, p, j);
    }
  }

  // A node below another one has the same subtree from there.
  lemma {:induction false} SubInSub(ts: seq<Tree>, x: Node, y: Node)
    requires Distinct(ts) && x in NodesOf(ts) && y in NodesOf([Sub(ts, x)])
    ensures y in NodesOf(ts) && Sub(ts, y) == Sub([Sub(ts, x)], y)
    decreases ts
  {
    var t, rest := ts[0], ts[1..];
    if t.node == x {
      SingleSets(t);
    } else if x in NodesOf(t.kids) {
      SubSets(t.kids, x);
      SubInSub(t.kids, x, y);
    } else {
      SubSets(rest, x);
      SubInSub(rest, x, y);
    }
  }

  // Two nodes of which neither is in the other's tree have trees apart.
  lemma {:induction false} NeitherContains(ts: seq<Tree>, x: Node, y: Node)
    requires Distinct(ts) && x in NodesOf(ts) && y in NodesOf(ts)
    requires x !in NodesOf([Sub(ts, y)]) && y !in NodesOf([Sub(ts, x)])
    ensures NodesOf([Sub(ts, x)]) !! NodesOf([Sub(ts, y)])
    decreases ts
  {
    var t, rest := ts[0], ts[1..];
    SingleSets(t);
    if x in NodesOf(t.kids) && y in NodesOf(t.kids) {
      NeitherContains(t.kids, x, y);
    } else if x in NodesOf(rest) && y in NodesOf(rest) {
      NeitherContains(rest, x, y);
    } else if x in NodesOf(t.kids) {
      SubSets(t.kids, x);
      SubSets(rest, y);
    } else if y in NodesOf(t.kids) {
      SubSets(t.kids, y);
      SubSets(rest, x);
    } else if x == t.node {
      SubSets(rest, y);
    } else {
      SubSets(rest, x);
    }
  }

  lemma HeadApart(kids: seq<Tree>, j: nat)
    requires Distinct(kids) && 0 < j < |kids|
    ensures NodesOf([kids[0]]) !! NodesOf([kids[j]])
  {
    var rest := kids[1..];
    SingleSets(kids[0]);
    assert rest[j - 1] == kids[j];
    KidSets(rest, j - 1);
  }

  lemma {:induction false} KidsApart(kids: seq<Tree>, i: nat, j: nat)
    requires Distinct(kids) && i < |kids| && j < |kids| && i != j
    ensures NodesOf([kids[i]]) !! NodesOf([kids[j]])
  {
    if i == 0 {
      HeadApart(kids, j);
    } else if j == 0 {
      HeadApart(kids, i);
    } else {
      var rest := kids[1..];
      assert rest[i - 1] == kids[i] && rest[j - 1] == kids[j];
      KidsApart(rest, i - 1, j - 1);
    }
  }

  // ----- replacing -----

  // The trees with another subtree in the place of one node's.
  ghost function Replace(ts: seq<Tree>, x: Node, s: Tree): (r: seq<Tree>)
    ensures |r| == |ts|
    decreases ts
  {
    if ts == [] then []
    else [if ts[0].node == x then s else ts[0].(kids := Replace(ts[0].kids, x, s))] + Replace(ts[1..], x, s)
  }

  lemma {:induction false} ReplaceNothing(ts: seq<Tree>, x: Node, s: Tree)
    requires x !in NodesOf(ts)
    ensures Replace(ts, x, s) == ts
    decreases ts
  {
    if ts != [] {
      ReplaceNothing(ts[0].kids, x, s);
      ReplaceNothing(ts[1..], x, s);
    }
  }

  // What is put in place of a node is its subtree.
  lemma {:induction false} SubReplaced(ts: seq<Tree>, x: Node, s: Tree)
    requires x in NodesOf(ts) && s.node == x
    ensures x in NodesOf(Replace(ts, x, s)) && Sub(Replace(ts, x, s), x) == s
    decreases ts
  {
    if ts[0].node != x {
      if x in NodesOf(ts[0].kids) {
        SubReplaced(ts[0].kids, x, s);
      } else {
        ReplaceNothing(ts[0].kids, x, s);
        SubReplaced(ts[1..], x, s);
      }
    }
  }

  lemma {:induction false} ReplaceItself(ts: seq<Tree>, x: Node)
    requires Distinct(ts) && x in NodesOf(ts)
    ensures Replace(ts, x, Sub(ts, x)) == ts
    decreases ts
  {
    var t, rest, s := ts[0], ts[1..], Sub(ts, x);
    if t.node == x {
      ReplaceNothing(rest, x, s);
    } else if x in NodesOf(t.kids) {
      ReplaceItself(t.kids, x);
      ReplaceNothing(rest, x, s);
    } else {
      ReplaceNothing(t.kids, x, s);
      ReplaceItself(rest, x);
    }
  }

  // Of two replacements of a node the last counts.
  lemma {:induction false} ReplaceTwice(ts: seq<Tree>, x: Node, s: Tree, s': Tree)
    requires s.node == x
    ensures Replace(Replace(ts, x, s), x, s') == Replace(ts, x, s')
    decreases ts
  {
    if ts != [] {
      ReplaceTwice(ts[0].kids, x, s, s');
      ReplaceTwice(ts[1..], x, s, s');
      assert Replace(ts, x, s)[1..] == Replace(ts[1..], x, s);
    }
  }

  lemma {:induction false} ReplaceAppend(a: seq<Tree>, b: seq<Tree>, x: Node, s: Tree)
    ensures Replace(a + b, x, s) == Replace(a, x, s) + Replace(b, x, s)
    decreases |a|
  {
    if a == [] {
      assert a + b == b;
    } else {
      assert (a + b)[1..] == a[1..] + b;
      ReplaceAppend(a[1..], b, x, s);
    }
  }

  lemma {:induction false} ReplaceKid(kids: seq<Tree>, j: nat, s: Tree)
    requires Distinct(kids) && j < |kids|
    ensures Replace(kids, kids[j].node, s) == kids[j := s]
  {
    if j == 0 {
      ReplaceNothing(kids[1..], kids[0].node, s);
    } else {
      RootIn(kids[1..], j - 1);
      ReplaceNothing(kids[0].kids, kids[j].node, s);
      ReplaceKid(kids[1..], j - 1, s);
    }
  }

  // A replacement below a node is a replacement of that node.
  lemma {:induction false} ReplaceInside(ts: seq<Tree>, x: Node, c: Node, s: Tree)
    requires Distinct(ts) && x in NodesOf(ts) && c in NodesOf(Sub(ts, x).kids)
    ensures Replace(ts, c, s) == Replace(ts, x, Sub(ts, x).(kids := Replace(Sub(ts, x).kids, c, s)))
    decreases ts
  {
    var t, rest, into := ts[0], ts[1..], Sub(ts, x).(kids := Replace(Sub(ts, x).kids, c, s));
    SubSets(ts, x);
    SingleSets(Sub(ts, x));
    if t.node == x {
      ReplaceNothing(rest, c, s);
      ReplaceNothing(rest, x, into);
    } else if x in NodesOf(t.kids) {
      SubSets(t.kids, x);
      ReplaceInside(t.kids, x, c, s);
      ReplaceNothing(rest, c, s);
      ReplaceNothing(rest, x, into);
    } else {
      SubSets(rest, x);
      ReplaceInside(rest, x, c, s);
      ReplaceNothing(t.kids, c, s);
      ReplaceNothing(t.kids, x, into);
    }
  }

  // Exchanging a part of one of three sets.
  lemma Exchange(a: set<Node>, b: set<Node>, c: set<Node>, part: set<Node>, added: set<Node>)
    requires part <= b && a !! part && c !! part
    ensures a + (b - part + added) + c == (a + b + c) - part + added
  {}

  lemma {:induction false} ReplaceSets(ts: seq<Tree>, x: Node, s: Tree)
    requires Distinct(ts) && x in NodesOf(ts)
    ensures NodesOf(Replace(ts, x, s)) == NodesOf(ts) - NodesOf([Sub(ts, x)]) + NodesOf([s])
    ensures KeysOf(Replace(ts, x, s)) <= KeysOf(ts) + KeysOf([s])
    decreases ts
  {
    var t, rest := ts[0], ts[1..];
    SingleSets(s);
    SubSets(ts, x);
    if t.node == x {
      SingleSets(t);
      ReplaceNothing(rest, x, s);
      Exchange({}, NodesOf([t]), NodesOf(rest), NodesOf([t]), NodesOf([s]));
    } else if x in NodesOf(t.kids) {
      ReplaceSets(t.kids, x, s);
      SubSets(t.kids, x);
      ReplaceNothing(rest, x, s);
      Exchange({t.node}, NodesOf(t.kids), NodesOf(rest), NodesOf([Sub(ts, x)]), NodesOf([s]));
    } else {
      ReplaceNothing(t.kids, x, s);
      ReplaceSets(rest, x, s);
      SubSets(rest, x);
      Exchange({t.node} + NodesOf(t.kids), NodesOf(rest), {}, NodesOf([Sub(ts, x)]), NodesOf([s]));
    }
  }

  lemma {:induction false} ReplaceDistinct(ts: seq<Tree>, x: Node, s: Tree)
    requires Distinct(ts) && x in NodesOf(ts) && Distinct([s])
    requires NodesOf([s]) !! NodesOf(ts) - NodesOf([Sub(ts, x)])
    ensures Distinct(Replace(ts, x, s))
    decreases ts
  {
    var t, rest := ts[0], ts[1..];
    SingleSets(s);
    if t.node == x {
      SingleSets(t);
      ReplaceNothing(rest, x, s);
    } else if x in NodesOf(t.kids) {
      SubSets(t.kids, x);
      ReplaceSets(t.kids, x, s);
      ReplaceDistinct(t.kids, x, s);
      ReplaceNothing(rest, x, s);
    } else {
      SubSets(rest, x);
      ReplaceSets(rest, x, s);
      ReplaceDistinct(rest, x, s);
      ReplaceNothing(t.kids, x, s);
    }
  }

  lemma ReplacedLists(t: Tree, x: Node, s: Tree)
    requires Mirrored(t) && s.node == x
    ensures Mirrored(t.(kids := Replace(t.kids, x, s)))
  {
    forall i | 0 <= i < |t.kids| ensures Replace(t.kids, x, s)[i].node == t.kids[i].node {
      ReplaceRoots(t.kids, x, s, i);
    }
  }

  lemma {:induction false} ReplaceRoots(ts: seq<Tree>, x: Node, s: Tree, i: nat)
    requires i < |ts| && s.node == x
    ensures Replace(ts, x, s)[i].node == ts[i].node
  {
    if i > 0 { ReplaceRoots(ts[1..], x, s, i - 1); }
  }

  lemma {:induction false} ReplaceHolds(ts: seq<Tree>, x: Node, s: Tree, but: set<Node>)
    requires Distinct(ts) && x in NodesOf(ts) && NodesOf(ts) !! KeysOf(ts)
    requires but == NodesOf([Sub(ts, x)]) && HoldsBut(ts, but) && Holds([s]) && s.node == x
    ensures Holds(Replace(ts, x, s))
    decreases ts
  {
    var t, rest := ts[0], ts[1..];
    SubSets(ts, x);
    HoldsApart(t.keys, but);
    if t.node == x {
      SingleSets(t);
      SingleHolds(s, {});
      ReplaceNothing(rest, x, s);
      HoldsApart(rest, but);
    } else if x in NodesOf(t.kids) {
      SubSets(t.kids, x);
      ReplaceHolds(t.kids, x, s, but);
      ReplacedLists(t, x, s);
      ReplaceNothing(rest, x, s);
      HoldsApart(rest, but);
    } else {
      SubSets(rest, x);
      ReplaceHolds(rest, x, s, but);
      ReplaceNothing(t.kids, x, s);
      HoldsApart(t.kids, but);
    }
  }

  lemma {:induction false} ReplaceAgrees(ts: seq<Tree>, x: Node, s: Tree, index: map<Node, Node>)
    requires Agrees(ts, index) && Agrees([s], index) && s.node == x
    ensures Agrees(Replace(ts, x, s), index)
    decreases ts
  {
    if ts != [] {
      var t, r := ts[0], Replace(ts, x, s);
      ReplaceAgrees(t.kids, x, s, index);
      ReplaceAgrees(ts[1..], x, s, index);
      if t.node != x {
        forall i | 0 <= i < |t.kids| && r[0].kids[i].node in index ensures index[r[0].kids[i].node] == t.node {
          ReplaceRoots(t.kids, x, s, i);
        }
      }
      assert r[1..] == Replace(ts[1..], x, s);
    }
  }

  // After a replacement, the subtree of another node is what it was with the replacement
  // made in it, unless the node is in the replacement.
  lemma {:induction false} SubOfReplace(ts: seq<Tree>, x: Node, s: Tree, y: Node)
    requires Distinct(ts) && x in NodesOf(ts) && s.node == x && Distinct(Replace(ts, x, s))
    requires y in NodesOf(Replace(ts, x, s))
    ensures y in NodesOf(ts) && y !in NodesOf([Sub(ts, x)]) ==>
              Sub(Replace(ts, x, s), y) == Replace([Sub(ts, y)], x, s)[0]
    ensures y in NodesOf([s]) ==> NodesOf([Sub(Replace(ts, x, s), y)]) <= NodesOf([s])
    decreases ts
  {
    var t, rest, r := ts[0], ts[1..], Replace(ts, x, s);
    assert r[1..] == Replace(rest, x, s);
    ReplaceSets(ts, x, s);
    SubSets(ts, x);
    SingleSets(s);
    if t.node == x {
      ReplaceNothing(rest, x, s);
      SingleSets(t);
      if y in NodesOf([s]) {
        SubSets([s], y);
        SubOfAppend([s], rest, y);
        assert r == [s] + rest;
      } else {
        SubSets(rest, y);
        ReplaceNothing([Sub(rest, y)], x, s);
      }
    } else if x in NodesOf(t.kids) {
      SubSets(t.kids, x);
      ReplaceSets(t.kids, x, s);
      ReplaceNothing(rest, x, s);
      if y == t.node {
      } else if y in NodesOf(r[0].kids) {
        SubOfReplace(t.kids, x, s, y);
      } else {
        SubSets(rest, y);
        ReplaceNothing([Sub(rest, y)], x, s);
      }
    } else {
      SubSets(rest, x);
      ReplaceSets(rest, x, s);
      ReplaceNothing(t.kids, x, s);
      if y == t.node {
      } else if y in NodesOf(t.kids) {
        SubSets(t.kids, y);
        ReplaceNothing([Sub(t.kids, y)], x, s);
      } else {
        SubOfReplace(rest, x, s, y);
      }
    }
  }
}
