/**
 Expansion of YAML merge keys: local pairs first, then the sources in order, with a guard
 against alias cycles. The graph is read, except by CheckForMergeNodes.
 */
module MergeKeys {
  import opened Common
  import opened YamlNode

  // One step through an alias.
  function Deref(n: Node?): Node?
    reads n
  {
    if n != null && n.kind.Alias? then n.alias else n
  }

  predicate IsMerge(key: Node?)
    reads key
  {
    key != null && key.tag == "!!merge"
  }

  predicate IsMap(n: Node)
    reads n
  {
    n.kind.Mapping? || n.tag == "!!map"
  }

  predicate HasMergeKeys(content: seq<Node?>, i: nat)
    reads set n: Node | n in content
    decreases |content| - i
  {
    i < |content| && (IsMerge(content[i]) || HasMergeKeys(content, i + 2))
  }

  // The pair at i; a key without a value is its own value.
  function PairAt(content: seq<Node?>, i: nat): seq<Node?>
    requires i < |content|
  {
    [content[i], if i + 1 < |content| then content[i + 1] else content[i]]
  }

  // The pair at i unless it is a merge, and its value if it is one.
  function OwnPair(content: seq<Node?>, i: nat): seq<Node?>
    requires i < |content|
    reads set n: Node | n in content
  {
    if content[i] == null || IsMerge(content[i]) then [] else PairAt(content, i)
  }

  function OwnSource(content: seq<Node?>, i: nat): seq<Node?>
    requires i < |content|
    reads set n: Node | n in content
  {
    if IsMerge(content[i]) && i + 1 < |content| then [content[i + 1]] else []
  }

  // The pairs that are not merges, and the values of those that are.
  function Locals(content: seq<Node?>, i: nat): seq<Node?>
    reads set n: Node | n in content
    decreases |content| - i
  {
    if i >= |content| then []
    else OwnPair(content, i) + Locals(content, i + 2)
  }

  function Sources(content: seq<Node?>, i: nat): seq<Node?>
    reads set n: Node | n in content
    decreases |content| - i
  {
    if i >= |content| then []
    else OwnSource(content, i) + Sources(content, i + 2)
  }

  // The value of the first pair called name; nil keys have no name.
  function First(content: seq<Node?>, i: nat, name: string): Option<Node?>
    reads set n: Node | n in content
    decreases |content| - i
  {
    if i >= |content| then None
    else if content[i] != null && content[i].value == name then Some(PairAt(content, i)[1])
    else First(content, i + 2, name)
  }

  // Appends the pairs of content from i on whose names are new.
  function AddNew(target: seq<Node?>, content: seq<Node?>, i: nat): seq<Node?>
    reads (set n: Node | n in content), (set n: Node | n in target)
    decreases |content| - i
  {
    if i >= |content| then target
    else if content[i] == null || First(target, 0, content[i].value).Some? then AddNew(target, content, i + 2)
    else
      assert forall n: Node | n in target + PairAt(content, i) :: n in target || n in content;
      AddNew(target + PairAt(content, i), content, i + 2)
  }

  // ----- termination: sequences of sources nest finitely -----

  // rank decreases from a sequence to the sequences among its items.
  ghost predicate Ranked(nodes: set<Node>, rank: map<Node, nat>)
    reads nodes
  {
    && Closed(nodes)
    && nodes <= rank.Keys
    && forall s, i | s in nodes && s.kind.Sequence? && 0 <= i < |s.content| ::
         Level(s.content[i], nodes, rank) <= 2 * rank[s] + 1
  }

  predicate AllInside(list: seq<Node?>, nodes: set<Node>) {
    forall n | n in list :: n == null || n in nodes
  }

  function Level(n: Node?, nodes: set<Node>, rank: map<Node, nat>): nat
    requires nodes <= rank.Keys
    reads nodes
  {
    if n == null || n !in nodes then 1
    else
      var m := Deref(n);
      if m != null && m in nodes && m.kind.Sequence? then 2 * rank[m] + 3 else 1
  }

  ghost function ListLevel(list: seq<Node?>, nodes: set<Node>, rank: map<Node, nat>): nat
    requires nodes <= rank.Keys
    reads nodes
    ensures forall n | n in list :: Level(n, nodes, rank) <= ListLevel(list, nodes, rank)
  {
    if list == [] then 0
    else
      var rest := ListLevel(list[1..], nodes, rank);
      var first := Level(list[0], nodes, rank);
      if first > rest then first else rest
  }

  lemma {:induction false} ListLevelBound(list: seq<Node?>, nodes: set<Node>, rank: map<Node, nat>, bound: nat)
    requires nodes <= rank.Keys
    requires forall n | n in list :: Level(n, nodes, rank) <= bound
    ensures ListLevel(list, nodes, rank) <= bound
  {
    if list != [] { ListLevelBound(list[1..], nodes, rank, bound); }
  }

  lemma {:induction false} PartsInside(content: seq<Node?>, i: nat, nodes: set<Node>)
    requires AllInside(content, nodes)
    ensures AllInside(Locals(content, i), nodes) && AllInside(Sources(content, i), nodes)
    decreases if i < |content| then |content| - i else 0
  {
    if i < |content| { PartsInside(content, i + 2, nodes); }
  }

  lemma {:induction false} AddNewInside(target: seq<Node?>, content: seq<Node?>, i: nat, nodes: set<Node>)
    requires AllInside(target, nodes) && AllInside(content, nodes)
    ensures AllInside(AddNew(target, content, i), nodes)
    decreases if i < |content| then |content| - i else 0
  {
    if i < |content| {
      if content[i] == null || First(target, 0, content[i].value).Some? {
        AddNewInside(target, content, i + 2, nodes);
      } else {
        AddNewInside(target + PairAt(content, i), content, i + 2, nodes);
      }
    }
  }

  // ----- expansion -----

  // A node whose content is expanded: a mapping not on the current path.
  ghost predicate Opens(node: Node?, nodes: set<Node>, visited: set<Node>)
    requires Closed(nodes) && (node == null || node in nodes)
    reads nodes
  {
    var n := Deref(node);
    assert node != null ==> Inside(node, nodes);
    n != null && n in nodes && IsMap(n) && n !in visited
  }

  ghost function Expand(node: Node?, nodes: set<Node>, rank: map<Node, nat>, visited: set<Node>): (r: seq<Node?>)
    requires Ranked(nodes, rank) && (node == null || node in nodes)
    reads nodes
    ensures AllInside(r, nodes)
    decreases nodes - visited, 0, 0
  {
    if !Opens(node, nodes, visited) then []
    else
      var n := Deref(node);
      assert Inside(n, nodes);
      if !HasMergeKeys(n.content, 0) then n.content
      else
        PartsInside(n.content, 0, nodes);
        assert nodes - (visited + {n}) < nodes - visited by { assert n in nodes - visited; }
        AppendAll(Locals(n.content, 0), Sources(n.content, 0), nodes, rank, visited + {n})
  }

  ghost function AppendAll(target: seq<Node?>, sources: seq<Node?>, nodes: set<Node>, rank: map<Node, nat>,
                           visited: set<Node>): (r: seq<Node?>)
    requires Ranked(nodes, rank) && AllInside(target, nodes) && AllInside(sources, nodes)
    reads nodes
    ensures AllInside(r, nodes)
    decreases nodes - visited, ListLevel(sources, nodes, rank) + 1, |sources|
  {
    if sources == [] then target
    else AppendAll(Append(target, sources[0], nodes, rank, visited), sources[1..], nodes, rank, visited)
  }

  // appendExpandedMergeContent for one source.
  ghost function Append(target: seq<Node?>, source: Node?, nodes: set<Node>, rank: map<Node, nat>,
                        visited: set<Node>): (r: seq<Node?>)
    requires Ranked(nodes, rank) && AllInside(target, nodes) && (source == null || source in nodes)
    reads nodes
    ensures AllInside(r, nodes)
    decreases nodes - visited, Level(source, nodes, rank), 0
  {
    var m := Deref(source);
    assert source != null ==> Inside(source, nodes);
    if m == null then target
    else if m.kind.Sequence? then
      assert Inside(m, nodes);
      ListLevelBound(m.content, nodes, rank, 2 * rank[m] + 1);
      AppendAll(target, m.content, nodes, rank, visited)
    else
      var content := Expand(m, nodes, rank, visited);
      AddNewInside(target, content, 0, nodes);
      AddNew(target, content, 0)
  }

  // ----- the expansion as it runs -----

  lemma {:induction false} FirstAppend(a: seq<Node?>, b: seq<Node?>, i: nat, name: string)
    requires |a| % 2 == 0 && i % 2 == 0 && i <= |a|
    ensures First(a + b, i, name) == if First(a, i, name).Some? then First(a, i, name) else First(b, 0, name)
    decreases |a| - i
  {
    if i < |a| {
      FirstAppend(a, b, i + 2, name);
    } else {
      FirstShift(a, b, 0, name);
    }
  }

  lemma {:induction false} FirstShift(a: seq<Node?>, b: seq<Node?>, i: nat, name: string)
    ensures First(a + b, |a| + i, name) == First(b, i, name)
    decreases if i < |b| then |b| - i else 0
  {
    if i < |b| { FirstShift(a, b, i + 2, name); }
  }

  lemma {:induction false} PartsEven(target: seq<Node?>, content: seq<Node?>, i: nat)
    ensures |Locals(content, i)| % 2 == 0
    ensures |target| % 2 == 0 ==> |AddNew(target, content, i)| % 2 == 0
    decreases if i < |content| then |content| - i else 0
  {
    if i < |content| {
      PartsEven(target, content, i + 2);
      PartsEven(target + PairAt(content, i), content, i + 2);
    }
  }

  // seenKeys holds the names of the keys in target.
  ghost predicate Names(seenKeys: set<string>, target: seq<Node?>)
    reads set n: Node | n in target
  {
    |target| % 2 == 0 && forall name :: name in seenKeys <==> First(target, 0, name).Some?
  }

  lemma NamesSnoc(seenKeys: set<string>, target: seq<Node?>, key: Node, val: Node?)
    requires Names(seenKeys, target)
    ensures Names(seenKeys + {key.value}, target + [key, val])
  {
    var pair: seq<Node?> := [key, val];
    forall name ensures name in seenKeys + {key.value} <==> First(target + pair, 0, name).Some? {
      FirstAppend(target, pair, 0, name);
      assert First(pair, 2, name).None?;
    }
  }

  lemma SplitStep(content: seq<Node?>, i: nat, expanded: seq<Node?>, sources: seq<Node?>)
    requires i < |content|
    ensures (expanded + OwnPair(content, i)) + Locals(content, i + 2) == expanded + Locals(content, i)
    ensures (sources + OwnSource(content, i)) + Sources(content, i + 2) == sources + Sources(content, i)
  {
    Reassociate(expanded, OwnPair(content, i), Locals(content, i + 2));
    Reassociate(sources, OwnSource(content, i), Sources(content, i + 2));
  }

  lemma Reassociate(a: seq<Node?>, b: seq<Node?>, c: seq<Node?>)
    ensures (a + b) + c == a + (b + c)
  {}

  // Expanding an open node that has merge keys.
  lemma ExpandOpen(node: Node, n: Node, nodes: set<Node>, rank: map<Node, nat>, visited: set<Node>)
    requires Ranked(nodes, rank) && node in nodes && n in nodes && Deref(node) == n && IsMap(n) && n !in visited
    requires HasMergeKeys(n.content, 0)
    ensures AllInside(Locals(n.content, 0), nodes) && AllInside(Sources(n.content, 0), nodes)
    ensures Expand(node, nodes, rank, visited) ==
            AppendAll(Locals(n.content, 0), Sources(n.content, 0), nodes, rank, visited + {n})
  {
    assert Inside(n, nodes);
    PartsInside(n.content, 0, nodes);
  }

  class Expander {
    var visited: set<Node>

    constructor ()
      ensures visited == {}
    {
      visited := {};
    }

    method ExpandMergeContent(node: Node?, ghost nodes: set<Node>, ghost rank: map<Node, nat>) returns (r: seq<Node?>)
      requires Ranked(nodes, rank) && (node == null || node in nodes)
      modifies this
      ensures visited == old(visited)
      ensures r == old(Expand(node, nodes, rank, visited))
      decreases nodes - visited, 0, 0
    {
      if node == null { return []; }
      assert Inside(node, nodes);
      var n := Deref(node);
      if n == null || !IsMap(n) { return []; }
      if n in visited { return []; }
      assert Inside(n, nodes);
      if !HasMergeKeys(n.content, 0) { return n.content; }
      ExpandOpen(node, n, nodes, rank, visited);
      ghost var expansion := Expand(node, nodes, rank, visited);
      visited := visited + {n};
      assert nodes - visited < old(nodes - visited) by { assert n in old(nodes - visited); }
      var sources, seenKeys;
      r, sources, seenKeys := SplitContent(n.content);
      r := AppendSources(r, seenKeys, sources, nodes, rank);
      assert r == expansion;
      visited := visited - {n};
      assert visited == old(visited);
    }

    // The loop over the merge values.
    method AppendSources(target0: seq<Node?>, seenKeys0: set<string>, sources: seq<Node?>,
                         ghost nodes: set<Node>, ghost rank: map<Node, nat>)
      returns (target: seq<Node?>)
      requires Ranked(nodes, rank) && AllInside(sources, nodes)
      requires AllInside(target0, nodes) && Names(seenKeys0, target0)
      modifies this
      ensures visited == old(visited)
      ensures target == AppendAll(target0, sources, nodes, rank, visited)
      decreases nodes - visited, ListLevel(sources, nodes, rank) + 1, |sources|
    {
      var seenKeys;
      target, seenKeys := target0, seenKeys0;
      for i := 0 to |sources|
        invariant visited == old(visited) && AllInside(target, nodes) && Names(seenKeys, target)
        invariant AppendAll(target, sources[i..], nodes, rank, visited) ==
                  AppendAll(target0, sources, nodes, rank, visited)
      {
        assert sources[i..][0] == sources[i] && sources[i..][1..] == sources[i + 1..];
        target, seenKeys := AppendExpandedMergeContent(target, seenKeys, sources[i], nodes, rank);
      }
    }

    // The loop over the node's own pairs.
    method SplitContent(content: seq<Node?>) returns (expanded: seq<Node?>, sources: seq<Node?>, seenKeys: set<string>)
      ensures expanded == Locals(content, 0) && sources == Sources(content, 0) && Names(seenKeys, expanded)
    {
      expanded, sources, seenKeys := [], [], {};
      var i: nat := 0;
      while i < |content|
        invariant expanded + Locals(content, i) == Locals(content, 0)
        invariant sources + Sources(content, i) == Sources(content, 0)
        invariant Names(seenKeys, expanded)
      {
        SplitStep(content, i, expanded, sources);
        expanded, sources, seenKeys := SplitPair(content, i, expanded, sources, seenKeys);
        i := i + 2;
      }
    }

    method SplitPair(content: seq<Node?>, i: nat, expanded0: seq<Node?>, sources0: seq<Node?>, seenKeys0: set<string>)
      returns (expanded: seq<Node?>, sources: seq<Node?>, seenKeys: set<string>)
      requires i < |content| && Names(seenKeys0, expanded0)
      ensures expanded == expanded0 + OwnPair(content, i) && sources == sources0 + OwnSource(content, i)
      ensures Names(seenKeys, expanded)
    {
      expanded, sources, seenKeys := expanded0, sources0, seenKeys0;
      var key := content[i];
      if key == null { return; }
      if key.tag == "!!merge" {
        if i + 1 < |content| { sources := sources + [content[i + 1]]; }
        return;
      }
      var value: Node? := key;
      if i + 1 < |content| { value := content[i + 1]; }
      NamesSnoc(seenKeys, expanded, key, value);
      expanded := expanded + [key, value];
      seenKeys := seenKeys + {key.value};
    }

    method AppendExpandedMergeContent(target0: seq<Node?>, seenKeys0: set<string>, source: Node?,
                                      ghost nodes: set<Node>, ghost rank: map<Node, nat>)
      returns (target: seq<Node?>, seenKeys: set<string>)
      requires Ranked(nodes, rank) && (source == null || source in nodes)
      requires AllInside(target0, nodes) && Names(seenKeys0, target0)
      modifies this
      ensures visited == old(visited) && AllInside(target, nodes) && Names(seenKeys, target)
      ensures target == Append(target0, source, nodes, rank, visited)
      decreases nodes - visited, Level(source, nodes, rank), 0
    {
      target, seenKeys := target0, seenKeys0;
      if source == null { return; }
      assert Inside(source, nodes);
      var m := Deref(source);
      if m == null { return; }
      assert Inside(m, nodes);
      if m.kind.Sequence? {
        for i := 0 to |m.content|
          invariant visited == old(visited) && AllInside(target, nodes) && Names(seenKeys, target)
          invariant AppendAll(target, m.content[i..], nodes, rank, visited) ==
                    Append(target0, source, nodes, rank, visited)
        {
          assert m.content[i..][0] == m.content[i] && m.content[i..][1..] == m.content[i + 1..];
          target, seenKeys := AppendExpandedMergeContent(target, seenKeys, m.content[i], nodes, rank);
        }
        return;
      }
      var content := ExpandMergeContent(m, nodes, rank);
      target, seenKeys := AddNewPairs(target, seenKeys, content);
      AddNewInside(target0, content, 0, nodes);
    }

    // The loop over the pairs of an expanded source.
    method AddNewPairs(target0: seq<Node?>, seenKeys0: set<string>, content: seq<Node?>)
      returns (target: seq<Node?>, seenKeys: set<string>)
      requires Names(seenKeys0, target0)
      ensures target == AddNew(target0, content, 0) && Names(seenKeys, target)
    {
      target, seenKeys := target0, seenKeys0;
      var i: nat := 0;
      while i < |content|
        invariant Names(seenKeys, target)
        invariant AddNew(target, content, i) == AddNew(target0, content, 0)
      {
        var key := content[i];
        if key != null && key.value !in seenKeys {
          var value: Node? := key;
          if i + 1 < |content| { value := content[i + 1]; }
          NamesSnoc(seenKeys, target, key, value);
          target := target + [key, value];
          seenKeys := seenKeys + {key.value};
        }
        i := i + 2;
      }
    }
  }

  /** Replaces the content of a node with merge keys by its expansion, unless that is empty. */
  method CheckForMergeNodes(node: Node?, ghost nodes: set<Node>, ghost rank: map<Node, nat>)
    requires Ranked(nodes, rank) && (node == null || node in nodes)
    modifies node
    ensures node != null ==>
              node.content ==
                if old(!HasMergeKeys(node.content, 0) || Expand(node, nodes, rank, {}) == []) then old(node.content)
                else old(Expand(node, nodes, rank, {}))
    ensures node != null ==>
              && unchanged(node`kind) && unchanged(node`style) && unchanged(node`tag) && unchanged(node`value)
              && unchanged(node`anchor) && unchanged(node`alias) && unchanged(node`line) && unchanged(node`column)
              && unchanged(node`headComment) && unchanged(node`lineComment) && unchanged(node`footComment)
  {
    if node == null { return; }
    assert Inside(node, nodes);
    if !HasMergeKeys(node.content, 0) { return; }
    var expander := new Expander();
    var expanded := expander.ExpandMergeContent(node, nodes, rank);
    if |expanded| == 0 { return; }
    node.content := expanded;
  }

  // ----- the expansion has no merge keys -----

  lemma {:induction false} HasMergeAppend(a: seq<Node?>, b: seq<Node?>, i: nat)
    requires |a| % 2 == 0 && i % 2 == 0 && i <= |a|
    ensures HasMergeKeys(a + b, i) <==> HasMergeKeys(a, i) || HasMergeKeys(b, 0)
    decreases |a| - i
  {
    if i < |a| { HasMergeAppend(a, b, i + 2); } else { HasMergeShift(a, b, 0); }
  }

  lemma {:induction false} HasMergeShift(a: seq<Node?>, b: seq<Node?>, i: nat)
    ensures HasMergeKeys(a + b, |a| + i) <==> HasMergeKeys(b, i)
    decreases if i < |b| then |b| - i else 0
  {
    if i < |b| { HasMergeShift(a, b, i + 2); }
  }

  lemma {:induction false} LocalsHaveNoMerge(content: seq<Node?>, i: nat)
    ensures !HasMergeKeys(Locals(content, i), 0)
    decreases if i < |content| then |content| - i else 0
  {
    if i < |content| {
      LocalsHaveNoMerge(content, i + 2);
      var own := OwnPair(content, i);
      HasMergeAppend(own, Locals(content, i + 2), 0);
      if own != [] { assert !HasMergeKeys(own, 2); }
    }
  }

  lemma {:induction false} AddNewHasNoMerge(target: seq<Node?>, content: seq<Node?>, i: nat)
    requires |target| % 2 == 0 && !HasMergeKeys(target, 0) && !HasMergeKeys(content, i)
    ensures !HasMergeKeys(AddNew(target, content, i), 0) && |AddNew(target, content, i)| % 2 == 0
    decreases if i < |content| then |content| - i else 0
  {
    if i < |content| {
      if content[i] == null || First(target, 0, content[i].value).Some? {
        AddNewHasNoMerge(target, content, i + 2);
      } else {
        var pair := PairAt(content, i);
        HasMergeAppend(target, pair, 0);
        assert !HasMergeKeys(pair, 2);
        AddNewHasNoMerge(target + pair, content, i + 2);
      }
    }
  }

  /** Whatever the graph, cyclic or not, no merge key is left in an expansion. */
  lemma {:induction false} ExpandHasNoMerge(node: Node?, nodes: set<Node>, rank: map<Node, nat>, visited: set<Node>)
    requires Ranked(nodes, rank) && (node == null || node in nodes)
    ensures !HasMergeKeys(Expand(node, nodes, rank, visited), 0)
    decreases nodes - visited, 0, 0
  {
    if Opens(node, nodes, visited) && HasMergeKeys(Deref(node).content, 0) {
      var n := Deref(node);
      ExpandOpen(node, n, nodes, rank, visited);
      LocalsHaveNoMerge(n.content, 0);
      PartsEven([], n.content, 0);
      assert nodes - (visited + {n}) < nodes - visited by { assert n in nodes - visited; }
      AppendAllHasNoMerge(Locals(n.content, 0), Sources(n.content, 0), nodes, rank, visited + {n});
    }
  }

  lemma {:induction false} AppendAllHasNoMerge(target: seq<Node?>, sources: seq<Node?>, nodes: set<Node>,
                                        rank: map<Node, nat>, visited: set<Node>)
    requires Ranked(nodes, rank) && AllInside(target, nodes) && AllInside(sources, nodes)
    requires |target| % 2 == 0 && !HasMergeKeys(target, 0)
    ensures !HasMergeKeys(AppendAll(target, sources, nodes, rank, visited), 0)
    ensures |AppendAll(target, sources, nodes, rank, visited)| % 2 == 0
    decreases nodes - visited, ListLevel(sources, nodes, rank) + 1, |sources|
  {
    if sources != [] {
      AppendHasNoMerge(target, sources[0], nodes, rank, visited);
      AppendAllHasNoMerge(Append(target, sources[0], nodes, rank, visited), sources[1..], nodes, rank, visited);
    }
  }

  lemma {:induction false} AppendHasNoMerge(target: seq<Node?>, source: Node?, nodes: set<Node>,
                                        rank: map<Node, nat>, visited: set<Node>)
    requires Ranked(nodes, rank) && AllInside(target, nodes) && (source == null || source in nodes)
    requires |target| % 2 == 0 && !HasMergeKeys(target, 0)
    ensures !HasMergeKeys(Append(target, source, nodes, rank, visited), 0)
    ensures |Append(target, source, nodes, rank, visited)| % 2 == 0
    decreases nodes - visited, Level(source, nodes, rank), 0
  {
    var m := Deref(source);
    assert source != null ==> Inside(source, nodes);
    if m != null && m.kind.Sequence? {
      assert Inside(m, nodes);
      ListLevelBound(m.content, nodes, rank, 2 * rank[m] + 1);
      AppendAllHasNoMerge(target, m.content, nodes, rank, visited);
    } else if m != null {
      ExpandHasNoMerge(m, nodes, rank, visited);
      AddNewHasNoMerge(target, Expand(m, nodes, rank, visited), 0);
    }
  }

  // ----- local pairs stay in front, merged-in keys come once -----

  // The keys from position m on: none is nil, and none repeats a name before it.
  ghost predicate NewKeys(content: seq<Node?>, m: nat)
    reads set n: Node | n in content
  {
    forall p | m <= p < |content| && p % 2 == 0 :: NewKey(content, p)
  }

  ghost predicate NewKey(content: seq<Node?>, p: nat)
    requires p < |content|
    reads set n: Node | n in content
  {
    content[p] != null && First(content[..p], 0, content[p].value).None?
  }

  lemma NewKeysSnoc(target: seq<Node?>, m: nat, key: Node, val: Node?)
    requires |target| % 2 == 0 && NewKeys(target, m) && First(target, 0, key.value).None?
    ensures NewKeys(target + [key, val], m)
  {
    var r := target + [key, val];
    forall p | m <= p < |r| && p % 2 == 0 ensures NewKey(r, p) {
      if p < |target| {
        assert NewKey(target, p) && r[..p] == target[..p];
      } else {
        assert r[..p] == target;
      }
    }
  }

  // r continues target, with new keys only from position m on.
  ghost predicate Continues(r: seq<Node?>, target: seq<Node?>, m: nat)
    reads set n: Node | n in r
  {
    target <= r && |r| % 2 == 0 && NewKeys(r, m)
  }

  lemma {:induction false} AddNewContinues(target: seq<Node?>, content: seq<Node?>, i: nat, m: nat)
    requires |target| % 2 == 0 && NewKeys(target, m)
    ensures Continues(AddNew(target, content, i), target, m)
    decreases if i < |content| then |content| - i else 0
  {
    if i < |content| {
      if content[i] == null || First(target, 0, content[i].value).Some? {
        AddNewContinues(target, content, i + 2, m);
      } else {
        var pair := PairAt(content, i);
        NewKeysSnoc(target, m, content[i], pair[1]);
        AddNewContinues(target + pair, content, i + 2, m);
      }
    }
  }

  lemma {:induction false} AppendAllContinues(target: seq<Node?>, sources: seq<Node?>, nodes: set<Node>,
                                        rank: map<Node, nat>, visited: set<Node>, m: nat)
    requires Ranked(nodes, rank) && AllInside(target, nodes) && AllInside(sources, nodes)
    requires |target| % 2 == 0 && NewKeys(target, m)
    ensures Continues(AppendAll(target, sources, nodes, rank, visited), target, m)
    decreases nodes - visited, ListLevel(sources, nodes, rank) + 1, |sources|
  {
    if sources != [] {
      AppendContinues(target, sources[0], nodes, rank, visited, m);
      AppendAllContinues(Append(target, sources[0], nodes, rank, visited), sources[1..], nodes, rank, visited, m);
    }
  }

  lemma {:induction false} AppendContinues(target: seq<Node?>, source: Node?, nodes: set<Node>,
                                        rank: map<Node, nat>, visited: set<Node>, m: nat)
    requires Ranked(nodes, rank) && AllInside(target, nodes) && (source == null || source in nodes)
    requires |target| % 2 == 0 && NewKeys(target, m)
    ensures Continues(Append(target, source, nodes, rank, visited), target, m)
    decreases nodes - visited, Level(source, nodes, rank), 0
  {
    var d := Deref(source);
    assert source != null ==> Inside(source, nodes);
    if d != null && d.kind.Sequence? {
      assert Inside(d, nodes);
      ListLevelBound(d.content, nodes, rank, 2 * rank[d] + 1);
      AppendAllContinues(target, d.content, nodes, rank, visited, m);
    } else if d != null {
      AddNewContinues(target, Expand(d, nodes, rank, visited), 0, m);
    }
  }

  /** The local pairs stay in front in their order, and every merged-in key has a name that
      does not occur before it. */
  lemma LocalPairsFirst(node: Node, nodes: set<Node>, rank: map<Node, nat>, visited: set<Node>)
    requires Ranked(nodes, rank) && node in nodes && Opens(node, nodes, visited)
    requires HasMergeKeys(Deref(node).content, 0)
    ensures
      var locals := Locals(Deref(node).content, 0);
      Continues(Expand(node, nodes, rank, visited), locals, |locals|)
  {
    var n := Deref(node);
    ExpandOpen(node, n, nodes, rank, visited);
    PartsEven([], n.content, 0);
    AppendAllContinues(Locals(n.content, 0), Sources(n.content, 0), nodes, rank, visited + {n}, |Locals(n.content, 0)|);
  }

  // ----- what a key means -----

  // The value of a key: the node's own, or else that of the first source, in order, that has
  // it; nodes on the current path have nothing.
  ghost function Lookup(node: Node?, name: string, nodes: set<Node>, rank: map<Node, nat>,
                        visited: set<Node>): Option<Node?>
    requires Ranked(nodes, rank) && (node == null || node in nodes)
    reads nodes
    decreases nodes - visited, 0, 0
  {
    if !Opens(node, nodes, visited) then None
    else
      var n := Deref(node);
      assert Inside(n, nodes);
      PartsInside(n.content, 0, nodes);
      assert nodes - (visited + {n}) < nodes - visited by { assert n in nodes - visited; }
      var own := First(Locals(n.content, 0), 0, name);
      if own.Some? then own else LookupAll(Sources(n.content, 0), name, nodes, rank, visited + {n})
  }

  ghost function LookupAll(sources: seq<Node?>, name: string, nodes: set<Node>, rank: map<Node, nat>,
                           visited: set<Node>): Option<Node?>
    requires Ranked(nodes, rank) && AllInside(sources, nodes)
    reads nodes
    decreases nodes - visited, ListLevel(sources, nodes, rank) + 1, |sources|
  {
    if sources == [] then None
    else
      var first := LookupSource(sources[0], name, nodes, rank, visited);
      if first.Some? then first else LookupAll(sources[1..], name, nodes, rank, visited)
  }

  ghost function LookupSource(source: Node?, name: string, nodes: set<Node>, rank: map<Node, nat>,
                              visited: set<Node>): Option<Node?>
    requires Ranked(nodes, rank) && (source == null || source in nodes)
    reads nodes
    decreases nodes - visited, Level(source, nodes, rank), 0
  {
    var m := Deref(source);
    assert source != null ==> Inside(source, nodes);
    if m == null then None
    else if m.kind.Sequence? then
      assert Inside(m, nodes);
      ListLevelBound(m.content, nodes, rank, 2 * rank[m] + 1);
      LookupAll(m.content, name, nodes, rank, visited)
    else Lookup(m, name, nodes, rank, visited)
  }

  lemma {:induction false} NoMergeNoSources(content: seq<Node?>, i: nat, name: string)
    requires !HasMergeKeys(content, i)
    ensures Sources(content, i) == []
    ensures First(Locals(content, i), 0, name) == First(content, i, name)
    decreases if i < |content| then |content| - i else 0
  {
    if i < |content| {
      NoMergeNoSources(content, i + 2, name);
      PartsEven([], content, i + 2);
      var own := OwnPair(content, i);
      FirstAppend(own, Locals(content, i + 2), 0, name);
      if own != [] { assert First(own, 2, name).None?; }
    }
  }

  lemma {:induction false} AddNewFirst(target: seq<Node?>, content: seq<Node?>, i: nat, name: string)
    requires |target| % 2 == 0
    ensures |AddNew(target, content, i)| % 2 == 0
    ensures First(AddNew(target, content, i), 0, name) ==
            if First(target, 0, name).Some? then First(target, 0, name) else First(content, i, name)
    decreases if i < |content| then |content| - i else 0
  {
    if i < |content| {
      if content[i] == null || First(target, 0, content[i].value).Some? {
        AddNewFirst(target, content, i + 2, name);
      } else {
        var pair := PairAt(content, i);
        FirstAppend(target, pair, 0, name);
        assert First(pair, 2, name).None?;
        AddNewFirst(target + pair, content, i + 2, name);
      }
    }
  }

  /** The expansion says about every key what the merges mean, on any graph. */
  lemma {:induction false} ExpandMeansLookup(node: Node?, name: string, nodes: set<Node>, rank: map<Node, nat>,
                                        visited: set<Node>)
    requires Ranked(nodes, rank) && (node == null || node in nodes)
    ensures First(Expand(node, nodes, rank, visited), 0, name) == Lookup(node, name, nodes, rank, visited)
    decreases nodes - visited, 0, 0
  {
    if Opens(node, nodes, visited) {
      var n := Deref(node);
      assert Inside(n, nodes);
      if HasMergeKeys(n.content, 0) {
        ExpandOpen(node, n, nodes, rank, visited);
        PartsEven([], n.content, 0);
        assert nodes - (visited + {n}) < nodes - visited by { assert n in nodes - visited; }
        AppendAllMeansLookup(Locals(n.content, 0), Sources(n.content, 0), name, nodes, rank, visited + {n});
      } else {
        NoMergeNoSources(n.content, 0, name);
      }
    }
  }

  lemma {:induction false} AppendAllMeansLookup(target: seq<Node?>, sources: seq<Node?>, name: string,
                                        nodes: set<Node>, rank: map<Node, nat>, visited: set<Node>)
    requires Ranked(nodes, rank) && AllInside(target, nodes) && AllInside(sources, nodes) && |target| % 2 == 0
    ensures First(AppendAll(target, sources, nodes, rank, visited), 0, name) ==
            if First(target, 0, name).Some? then First(target, 0, name)
            else LookupAll(sources, name, nodes, rank, visited)
    ensures |AppendAll(target, sources, nodes, rank, visited)| % 2 == 0
    decreases nodes - visited, ListLevel(sources, nodes, rank) + 1, |sources|
  {
    if sources != [] {
      AppendMeansLookup(target, sources[0], name, nodes, rank, visited);
      AppendAllMeansLookup(Append(target, sources[0], nodes, rank, visited), sources[1..], name, nodes, rank, visited);
    }
  }

  lemma {:induction false} AppendMeansLookup(target: seq<Node?>, source: Node?, name: string, nodes: set<Node>,
                                        rank: map<Node, nat>, visited: set<Node>)
    requires Ranked(nodes, rank) && AllInside(target, nodes) && (source == null || source in nodes) && |target| % 2 == 0
    ensures First(Append(target, source, nodes, rank, visited), 0, name) ==
            if First(target, 0, name).Some? then First(target, 0, name)
            else LookupSource(source, name, nodes, rank, visited)
    ensures |Append(target, source, nodes, rank, visited)| % 2 == 0
    decreases nodes - visited, Level(source, nodes, rank), 0
  {
    var m := Deref(source);
    assert source != null ==> Inside(source, nodes);
    if m != null && m.kind.Sequence? {
      assert Inside(m, nodes);
      ListLevelBound(m.content, nodes, rank, 2 * rank[m] + 1);
      AppendAllMeansLookup(target, m.content, name, nodes, rank, visited);
    } else if m != null {
      ExpandMeansLookup(m, name, nodes, rank, visited);
      AddNewFirst(target, Expand(m, nodes, rank, visited), 0, name);
    }
  }

  // ----- empty expansions -----

  // Through this source no name has a value.
  ghost predicate Barren(source: Node?, nodes: set<Node>, rank: map<Node, nat>, visited: set<Node>)
    requires Ranked(nodes, rank) && (source == null || source in nodes)
    reads nodes
  {
    forall name :: LookupSource(source, name, nodes, rank, visited).None?
  }

  lemma {:induction false} LookupAllNone(sources: seq<Node?>, name: string, nodes: set<Node>, rank: map<Node, nat>,
                                         visited: set<Node>)
    requires Ranked(nodes, rank) && AllInside(sources, nodes)
    ensures LookupAll(sources, name, nodes, rank, visited).None?
            <==> forall s | s in sources :: LookupSource(s, name, nodes, rank, visited).None?
  {
    if sources != [] {
      LookupAllNone(sources[1..], name, nodes, rank, visited);
      if LookupAll(sources, name, nodes, rank, visited).None? {
        forall s | s in sources ensures LookupSource(s, name, nodes, rank, visited).None? {
          if s != sources[0] { assert s in sources[1..]; }
        }
      } else {
        assert sources[0] in sources && forall s | s in sources[1..] :: s in sources;
      }
    }
  }

  lemma {:induction false} LocalsStartNamed(content: seq<Node?>, i: nat)
    ensures Locals(content, i) != [] ==> Locals(content, i)[0] != null
    decreases if i < |content| then |content| - i else 0
  {
    if i < |content| { LocalsStartNamed(content, i + 2); }
  }

  // What starts with a named key gives that name a value.
  lemma StartIsFound(content: seq<Node?>)
    requires content != [] && content[0] != null
    ensures First(content, 0, content[0].value).Some?
  {}

  /** Expanding the merge keys of a mapping yields nothing exactly when it has no pair of its own
      and no source gives any name a value. */
  lemma EmptyExpansion(node: Node, nodes: set<Node>, rank: map<Node, nat>, visited: set<Node>)
    requires Ranked(nodes, rank) && node in nodes && Opens(node, nodes, visited)
    requires HasMergeKeys(Deref(node).content, 0)
    requires AllInside(Sources(Deref(node).content, 0), nodes)
    ensures Expand(node, nodes, rank, visited) == []
            <==> && Locals(Deref(node).content, 0) == []
                 && forall s | s in Sources(Deref(node).content, 0) :: Barren(s, nodes, rank, visited + {Deref(node)})
  {
    var n := Deref(node);
    var r, locals, sources := Expand(node, nodes, rank, visited), Locals(n.content, 0), Sources(n.content, 0);
    LocalPairsFirst(node, nodes, rank, visited);
    if r == [] {
      forall s, name | s in sources ensures LookupSource(s, name, nodes, rank, visited + {n}).None? {
        ExpandMeansLookup(node, name, nodes, rank, visited);
        LookupAllNone(sources, name, nodes, rank, visited + {n});
      }
    } else if locals == [] {
      assert NewKey(r, 0);
      StartIsFound(r);
      var name := r[0].value;
      ExpandMeansLookup(node, name, nodes, rank, visited);
      LookupAllNone(sources, name, nodes, rank, visited + {n});
    }
  }

  /** CheckForMergeNodes leaves the merge keys of a mapping exactly then, and those of anything
      else always. */
  lemma MergeKeysStay(node: Node, nodes: set<Node>, rank: map<Node, nat>)
    requires Ranked(nodes, rank) && node in nodes && HasMergeKeys(node.content, 0) && !node.kind.Alias?
    requires AllInside(Sources(node.content, 0), nodes)
    ensures Expand(node, nodes, rank, {}) == []
            <==> !IsMap(node) || (&& Locals(node.content, 0) == []
                                  && forall s | s in Sources(node.content, 0) :: Barren(s, nodes, rank, {node}))
  {
    if IsMap(node) {
      EmptyExpansion(node, nodes, rank, {});
      assert {} + {node} == {node};
    }
  }

  /** A mapping that merges nothing but a scalar keeps its merge key. */
  lemma ScalarMergeStays(node: Node, key: Node, scalar: Node, nodes: set<Node>, rank: map<Node, nat>)
    requires Ranked(nodes, rank) && {node, key, scalar} <= nodes
    requires node.kind.Mapping? && node.content == [key, scalar] && key.tag == "!!merge"
    requires scalar.kind.Scalar? && !IsMap(scalar)
    ensures HasMergeKeys(node.content, 0) && Expand(node, nodes, rank, {}) == []
  {
    assert Sources(node.content, 2) == [] && Locals(node.content, 2) == [];
    assert Sources(node.content, 0) == [scalar] && Locals(node.content, 0) == [];
    assert Barren(scalar, nodes, rank, {node});
    MergeKeysStay(node, nodes, rank);
  }

  // ----- acyclic merges -----

  // The height of what a source stands for: a sequence, or a mapping behind up to two aliases.
  function HeightOf(source: Node?, nodes: set<Node>, height: map<Node, nat>): nat
    requires nodes <= height.Keys
    reads nodes
  {
    if source == null || source !in nodes then 0
    else
      var m := Deref(source);
      if m == null || m !in nodes then 0
      else if m.kind.Sequence? then height[m]
      else
        var d := Deref(m);
        if d == null || d !in nodes then 0 else height[d]
  }

  ghost predicate AllBelow(sources: seq<Node?>, nodes: set<Node>, height: map<Node, nat>, bound: nat)
    requires nodes <= height.Keys
    reads nodes
  {
    forall s | s in sources :: HeightOf(s, nodes, height) < bound
  }

  // Heights decrease from a mapping to its sources and from a sequence to its items.
  ghost predicate Acyclic(nodes: set<Node>, height: map<Node, nat>)
    reads nodes
  {
    && Closed(nodes)
    && nodes <= height.Keys
    && forall n | n in nodes :: Descends(n, nodes, height)
  }

  ghost predicate Descends(n: Node, nodes: set<Node>, height: map<Node, nat>)
    requires nodes <= height.Keys && n in nodes
    reads nodes, set c: Node | c in n.content
  {
    && height[n] > 0
    && AllBelow(Sources(n.content, 0), nodes, height, height[n])
    && (n.kind.Sequence? ==> AllBelow(n.content, nodes, height, height[n]))
  }

  // The meaning of a key without any notion of a path: own value first, then the sources in order.
  ghost function Plain(node: Node?, name: string, nodes: set<Node>, height: map<Node, nat>): Option<Node?>
    requires Acyclic(nodes, height) && (node == null || node in nodes)
    reads nodes
    decreases (if node != null && Opens(node, nodes, {}) then height[Deref(node)] else 0), 1, 0
  {
    if !Opens(node, nodes, {}) then None
    else
      var n := Deref(node);
      assert Inside(n, nodes) && Descends(n, nodes, height);
      PartsInside(n.content, 0, nodes);
      var own := First(Locals(n.content, 0), 0, name);
      if own.Some? then own else PlainAll(Sources(n.content, 0), name, nodes, height, height[n])
  }

  ghost function PlainAll(sources: seq<Node?>, name: string, nodes: set<Node>, height: map<Node, nat>,
                          bound: nat): Option<Node?>
    requires Acyclic(nodes, height) && AllInside(sources, nodes) && AllBelow(sources, nodes, height, bound)
    reads nodes
    decreases bound, 0, |sources|
  {
    if sources == [] then None
    else
      var first := PlainSource(sources[0], name, nodes, height);
      if first.Some? then first else PlainAll(sources[1..], name, nodes, height, bound)
  }

  ghost function PlainSource(source: Node?, name: string, nodes: set<Node>, height: map<Node, nat>): Option<Node?>
    requires Acyclic(nodes, height) && (source == null || source in nodes)
    reads nodes
    decreases HeightOf(source, nodes, height), 2, 0
  {
    var m := Deref(source);
    assert source != null ==> Inside(source, nodes);
    if m == null then None
    else if m.kind.Sequence? then
      assert Inside(m, nodes) && Descends(m, nodes, height);
      PlainAll(m.content, name, nodes, height, height[m])
    else
      assert Inside(m, nodes);
      Plain(m, name, nodes, height)
  }

  // The nodes on the path are higher than what is looked at.
  ghost predicate Above(visited: set<Node>, nodes: set<Node>, height: map<Node, nat>, h: nat)
    requires nodes <= height.Keys
  {
    forall v | v in visited && v in nodes :: height[v] > h
  }

  /** For acyclic merges the guard against cycles is invisible. */
  lemma {:induction false} LookupIsPlain(node: Node?, name: string, nodes: set<Node>, rank: map<Node, nat>,
                                        height: map<Node, nat>, visited: set<Node>)
    requires Ranked(nodes, rank) && Acyclic(nodes, height) && (node == null || node in nodes)
    requires Opens(node, nodes, {}) ==> Above(visited, nodes, height, height[Deref(node)])
    ensures Lookup(node, name, nodes, rank, visited) == Plain(node, name, nodes, height)
    decreases nodes - visited, 0, 0
  {
    if Opens(node, nodes, {}) {
      var n := Deref(node);
      assert Inside(n, nodes) && Descends(n, nodes, height);
      assert n !in visited;
      PartsInside(n.content, 0, nodes);
      assert nodes - (visited + {n}) < nodes - visited by { assert n in nodes - visited; }
      LookupAllIsPlain(Sources(n.content, 0), name, nodes, rank, height, visited + {n}, height[n]);
    }
  }

  lemma {:induction false} LookupAllIsPlain(sources: seq<Node?>, name: string, nodes: set<Node>,
                                        rank: map<Node, nat>, height: map<Node, nat>, visited: set<Node>, bound: nat)
    requires Ranked(nodes, rank) && Acyclic(nodes, height) && AllInside(sources, nodes)
    requires AllBelow(sources, nodes, height, bound) && forall v | v in visited && v in nodes :: height[v] >= bound
    ensures LookupAll(sources, name, nodes, rank, visited) == PlainAll(sources, name, nodes, height, bound)
    decreases nodes - visited, ListLevel(sources, nodes, rank) + 1, |sources|
  {
    if sources != [] {
      LookupSourceIsPlain(sources[0], name, nodes, rank, height, visited);
      LookupAllIsPlain(sources[1..], name, nodes, rank, height, visited, bound);
    }
  }

  lemma {:induction false} LookupSourceIsPlain(source: Node?, name: string, nodes: set<Node>, rank: map<Node, nat>,
                                        height: map<Node, nat>, visited: set<Node>)
    requires Ranked(nodes, rank) && Acyclic(nodes, height) && (source == null || source in nodes)
    requires Above(visited, nodes, height, HeightOf(source, nodes, height))
    ensures LookupSource(source, name, nodes, rank, visited) == PlainSource(source, name, nodes, height)
    decreases nodes - visited, Level(source, nodes, rank), 0
  {
    var m := Deref(source);
    assert source != null ==> Inside(source, nodes);
    if m != null && m.kind.Sequence? {
      assert Inside(m, nodes) && Descends(m, nodes, height);
      ListLevelBound(m.content, nodes, rank, 2 * rank[m] + 1);
      LookupAllIsPlain(m.content, name, nodes, rank, height, visited, height[m]);
    } else if m != null {
      assert Inside(m, nodes);
      LookupIsPlain(m, name, nodes, rank, height, visited);
    }
  }
}
