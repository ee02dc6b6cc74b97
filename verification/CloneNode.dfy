/** The deep copy of a YAML node graph, which may share nodes and contain cycles. */
module CloneNode {
  import opened YamlNode

  datatype Flags = Flags(stripAnchors: bool, unwrapDocument: bool)

  // The image of a reference under a node map.
  ghost predicate Maps(m: map<Node, Node>, from: Node?, to: Node?) {
    if from == null then to == null else from in m && to == m[from]
  }

  // copy is n's copy under m: equal fields, except that a stripped anchor is empty, and
  // references to the copies of what n refers to.
  ghost predicate Mirrors(m: map<Node, Node>, n: Node, copy: Node, strip: bool)
    reads n, copy
  {
    && copy.SameScalars(n)
    && copy.anchor == (if strip then "" else n.anchor)
    && Maps(m, n.alias, copy.alias)
    && AllMap(m, n.content, copy.content)
  }

  ghost predicate AllMap(m: map<Node, Node>, from: seq<Node?>, to: seq<Node?>) {
    |to| == |from| && forall i | 0 <= i < |from| :: Maps(m, from[i], to[i])
  }

  // The first n children are copied.
  ghost predicate MapUpTo(m: map<Node, Node>, from: seq<Node?>, to: seq<Node?>, n: nat) {
    n <= |from| == |to| && forall i | 0 <= i < n :: Maps(m, from[i], to[i])
  }

  lemma OneMoreMaps(m: map<Node, Node>, m': map<Node, Node>, from: seq<Node?>, to: seq<Node?>, to': seq<Node?>, i: nat)
    requires MapUpTo(m, from, to, i) && i < |from| == |to'| && forall k | k in m :: k in m' && m'[k] == m[k]
    requires Maps(m', from[i], to'[i]) && forall j | 0 <= j < i :: to'[j] == to[j]
    ensures MapUpTo(m', from, to', i + 1)
  {
    forall j | 0 <= j < i ensures Maps(m', from[j], to'[j]) { assert Maps(m, from[j], to[j]); }
  }

  ghost predicate Injective(m: map<Node, Node>) {
    forall a, b | a in m && b in m && a != b :: m[a] != m[b]
  }

  // m is an isomorphism onto a copy: its domain is closed under references, sharing is
  // kept in both directions, and every node is mirrored.
  ghost predicate Isomorphism(m: map<Node, Node>, strip: bool)
    reads m.Keys, m.Values
  {
    && Closed(m.Keys)
    && Injective(m)
    && forall n | n in m :: Mirrors(m, n, m[n], strip)
  }

  class Cloner {
    const flags: Flags
    var seen: map<Node, Node>

    constructor (flags: Flags)
      ensures this.flags == flags && seen == map[]
    {
      this.flags := flags;
      seen := map[];
    }

    // nodes is the graph; the copies of the nodes on the call stack may be unfinished.
    ghost predicate Valid(nodes: set<Node>, stack: set<Node>)
      reads this, nodes, seen.Values
    {
      && Closed(nodes)
      && seen.Keys <= nodes && seen.Values !! nodes
      && Injective(seen)
      && forall n | n in seen && n !in stack :: Mirrors(seen, n, seen[n], flags.stripAnchors)
    }

    // seen only grows, by copies that did not exist before.
    twostate predicate Grew()
      reads this
    {
      && (forall n | n in old(seen) :: n in seen && seen[n] == old(seen)[n])
      && forall n | n in seen && n !in old(seen) :: fresh(seen[n])
    }

    // More copies in seen change nothing about the ones that are finished.
    lemma StillMirrors(m: map<Node, Node>, m': map<Node, Node>, n: Node, copy: Node)
      requires Mirrors(m, n, copy, flags.stripAnchors)
      requires forall k | k in m :: k in m' && m'[k] == m[k]
      ensures Mirrors(m', n, copy, flags.stripAnchors)
    {}

    // Registers a fresh copy before what it refers to is copied.
    method Register(node: Node, ghost nodes: set<Node>, ghost stack: set<Node>) returns (cloned: Node)
      requires Valid(nodes, stack) && node in nodes && node !in seen
      modifies this`seen
      ensures Valid(nodes, stack + {node})
      ensures seen == old(seen)[node := cloned] && fresh(cloned)
      ensures cloned.SameScalars(node) && cloned.anchor == (if flags.stripAnchors then "" else node.anchor)
      ensures cloned.alias == null && cloned.content == []
    {
      cloned := new Node.CopyScalars(node);
      if flags.stripAnchors { cloned.anchor := ""; }
      seen := seen[node := cloned];
      forall n | n in seen && n !in stack + {node} ensures Mirrors(seen, n, seen[n], flags.stripAnchors) {
        StillMirrors(old(seen), seen, n, seen[n]);
      }
    }

    method Clone(node: Node?, ghost nodes: set<Node>, ghost stack: set<Node>) returns (copy: Node?)
      requires Valid(nodes, stack)
      requires node == null || node in nodes
      modifies this`seen
      ensures Valid(nodes, stack) && Grew()
      ensures Maps(seen, node, copy)
      decreases nodes - seen.Keys, 1
    {
      if node == null { return null; }
      if node in seen { return seen[node]; }
      var cloned := Register(node, nodes, stack);
      assert nodes - seen.Keys < old(nodes - seen.Keys) by {
        assert node in old(nodes - seen.Keys) && node !in nodes - seen.Keys;
      }
      Fill(node, cloned, nodes, stack + {node});
      Unstack(nodes, stack, node);
      return cloned;
    }

    // A mirrored copy is finished.
    lemma Unstack(nodes: set<Node>, stack: set<Node>, node: Node)
      requires Valid(nodes, stack + {node}) && node in seen
      requires Mirrors(seen, node, seen[node], flags.stripAnchors)
      ensures Valid(nodes, stack)
    {
      forall n | n in seen && n !in stack ensures Mirrors(seen, n, seen[n], flags.stripAnchors) {
        assert n == node || n !in stack + {node};
      }
    }

    // Copies what a registered node refers to.
    method Fill(node: Node, cloned: Node, ghost nodes: set<Node>, ghost stack: set<Node>)
      requires Valid(nodes, stack) && node in nodes && node in stack
      requires node in seen && seen[node] == cloned && cloned.alias == null && cloned.content == []
      requires cloned.SameScalars(node) && cloned.anchor == (if flags.stripAnchors then "" else node.anchor)
      modifies this`seen, cloned`alias, cloned`content
      ensures Valid(nodes, stack) && Grew()
      ensures node in seen && seen[node] == cloned && Mirrors(seen, node, cloned, flags.stripAnchors)
      decreases nodes - seen.Keys, 4
    {
      assert cloned in seen.Values && cloned !in nodes;
      CloneAlias(node, cloned, nodes, stack);
      ghost var after := seen;
      assert cloned.SameScalars(node);
      CloneContent(node, cloned, nodes, stack);
      assert cloned.SameScalars(node);
      MapsStays(after, seen, node.alias, cloned.alias);
    }

    lemma MapsStays(m: map<Node, Node>, m': map<Node, Node>, n: Node?, copy: Node?)
      requires Maps(m, n, copy) && forall k | k in m :: k in m' && m'[k] == m[k]
      ensures Maps(m', n, copy)
    {}

    // Copies the alias target of a registered node.
    method CloneAlias(node: Node, cloned: Node, ghost nodes: set<Node>, ghost stack: set<Node>)
      requires Valid(nodes, stack) && node in nodes && node in stack
      requires node in seen && seen[node] == cloned && cloned.alias == null
      modifies this`seen, cloned`alias
      ensures Valid(nodes, stack) && Grew()
      ensures Maps(seen, node.alias, cloned.alias)
      decreases nodes - seen.Keys, 2
    {
      if node.alias != null {
        assert Inside(node, nodes);
        var a := Clone(node.alias, nodes, stack);
        cloned.alias := a;
      }
    }

    // Copies child i of a registered node.
    method CloneChild(node: Node, cloned: Node, i: nat, ghost nodes: set<Node>, ghost stack: set<Node>)
      requires Valid(nodes, stack) && node in nodes && node in stack
      requires node in seen && seen[node] == cloned
      requires i < |node.content| == |cloned.content|
      modifies this`seen, cloned`content
      ensures Valid(nodes, stack) && Grew()
      ensures |cloned.content| == |node.content|
      ensures Maps(seen, node.content[i], cloned.content[i])
      ensures forall j | 0 <= j < |cloned.content| && j != i :: cloned.content[j] == old(cloned.content[j])
      decreases nodes - seen.Keys, 2
    {
      assert Inside(node, nodes);
      var c := Clone(node.content[i], nodes, stack);
      cloned.content := cloned.content[i := c];
    }

    // Copies the children of a registered node.
    method CloneContent(node: Node, cloned: Node, ghost nodes: set<Node>, ghost stack: set<Node>)
      requires Valid(nodes, stack) && node in nodes && node in stack
      requires node in seen && seen[node] == cloned && cloned.content == []
      modifies this`seen, cloned`content
      ensures Valid(nodes, stack) && Grew()
      ensures AllMap(seen, node.content, cloned.content)
      decreases nodes - seen.Keys, 3
    {
      if |node.content| > 0 {
        cloned.content := seq(|node.content|, _ => null);
        for i := 0 to |node.content|
          invariant Valid(nodes, stack) && Grew()
          invariant MapUpTo(seen, node.content, cloned.content, i)
        {
          ghost var before, last := seen, cloned.content;
          CloneChild(node, cloned, i, nodes, stack);
          OneMoreMaps(before, seen, node.content, last, cloned.content, i);
        }
      }
    }
  }

  /** On any finite graph, shared or cyclic: the copy is an isomorphic image of everything
      reachable from the start node, made of new nodes only; nothing that existed is changed.
      Since `nodes` may be any closed set around the node, nothing unreachable is copied. */
  method CloneYAMLNodeWithFlags(node: Node?, flags: Flags, ghost nodes: set<Node>)
    returns (copy: Node?, ghost m: map<Node, Node>)
    requires Closed(nodes) && (node == null || node in nodes)
    ensures node == null ==> copy == null
    ensures node != null ==>
              if flags.unwrapDocument && node.kind == Document && node.content != [] then Maps(m, node.content[0], copy)
              else Maps(m, node, copy)
    ensures Isomorphism(m, flags.stripAnchors)
    ensures m.Keys <= nodes && forall c | c in m.Values :: fresh(c)
  {
    if node == null { return null, map[]; }
    var start: Node? := node;
    if flags.unwrapDocument && node.kind.Document? && |node.content| > 0 {
      start := node.content[0];
      assert Inside(node, nodes);
    }
    var cloner := new Cloner(flags);
    copy := cloner.Clone(start, nodes, {});
    m := cloner.seen;
    forall n | n in m ensures Inside(n, m.Keys) {
      assert Mirrors(m, n, m[n], flags.stripAnchors) && Inside(n, nodes);
    }
  }

  // The copy of a reference: nothing for nothing, and for a node its own copy, each for one node only.
  ghost predicate CopyOf(m: map<Node, Node>, from: Node?, to: Node?) {
    if from == null then to == null
    else to != null && from in m && m[from] == to && forall n | n in m && m[n] == to :: n == from
  }

  /** A copied node, field by field: all texts and positions are the same, but for a stripped anchor, and its
      alias and children are the copies of the original's. */
  lemma CopyIsEqual(m: map<Node, Node>, strip: bool, n: Node)
    requires Isomorphism(m, strip) && n in m
    ensures
      var c := m[n];
      && c.kind == n.kind && c.style == n.style && c.tag == n.tag && c.value == n.value
      && c.headComment == n.headComment && c.lineComment == n.lineComment && c.footComment == n.footComment
      && c.line == n.line && c.column == n.column && c.anchor == (if strip then "" else n.anchor)
      && CopyOf(m, n.alias, c.alias) && |c.content| == |n.content|
      && forall i | 0 <= i < |n.content| :: CopyOf(m, n.content[i], c.content[i])
  {
    var c := m[n];
    assert Mirrors(m, n, c, strip);
    forall i | 0 <= i < |n.content| ensures CopyOf(m, n.content[i], c.content[i]) {
      assert Maps(m, n.content[i], c.content[i]);
    }
  }

  // The copy itself is closed: no reference leads from it back into the original.
  lemma CopyIsSeparate(m: map<Node, Node>, strip: bool)
    requires Isomorphism(m, strip)
    ensures Closed(m.Values)
  {}
}
