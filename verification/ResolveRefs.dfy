/**
 Resolution of local $refs in a YAML tree: the resolver's state is the set of refs on the
 current expansion path; siblings of a $ref are merged into the mapping it resolves to.
 */
module ResolveRefs {
  import opened Common
  import opened YamlNode

  // Nil is a nil node pointer. Aliases keep no target here.
  datatype Tree = Nil | Tree(kind: Kind, tag: string, value: string, content: seq<Tree>)

  predicate IsRefKey(key: Tree) {
    key.Tree? && key.value == "$ref"
  }

  // The value of the first "$ref" key with a scalar value, from pair i on.
  function FindRef(content: seq<Tree>, i: nat): Option<string>
    decreases |content| - i
  {
    if i + 1 >= |content| then None
    else if IsRefKey(content[i]) && content[i + 1].Tree? && content[i + 1].kind.Scalar? then Some(content[i + 1].value)
    else FindRef(content, i + 2)
  }

  predicate HasSiblings(content: seq<Tree>, i: nat)
    decreases |content| - i
  {
    i + 1 < |content| && ((content[i].Tree? && !IsRefKey(content[i])) || HasSiblings(content, i + 2))
  }

  predicate Local(ref: string) {
    "#/" <= ref
  }

  // The document's nodes by reference string; a Nil node is as good as none.
  type Targets = map<string, Tree>

  predicate Resolvable(targets: Targets, ref: string) {
    ref in targets && targets[ref].Tree?
  }

  // The ref a mapping expands, if it is local and not being expanded already.
  function Expands(node: Tree, targets: Targets, seen: set<string>): Option<string>
    requires node.Tree?
  {
    match FindRef(node.content, 0)
    case Some(ref) => if Local(ref) && ref !in seen && Resolvable(targets, ref) then Some(ref) else None
    case None => None
  }

  // ----- merging -----

  // The position of the last key called name among the first i elements; keys are at even places.
  function LastKey(content: seq<Tree>, i: nat, name: string): Option<nat>
    requires i <= |content|
    ensures LastKey(content, i, name).Some? ==>
              var p := LastKey(content, i, name).value;
              p < i && p % 2 == 0 && content[p].Tree? && content[p].value == name
  {
    if i < 2 then None
    else if i % 2 == 1 then LastKey(content, i - 1, name)
    else if content[i - 2].Tree? && content[i - 2].value == name then Some(i - 2)
    else LastKey(content, i - 2, name)
  }

  // The complete pairs of a content list.
  function Pairs(content: seq<Tree>): seq<Tree> {
    content[..|content| / 2 * 2]
  }

  // Sets the value of a key: in place if the key is there, at the end if not.
  function Put(content: seq<Tree>, key: Tree, val: Tree): seq<Tree>
    requires |content| % 2 == 0
  {
    if key.Nil? then content
    else
      match LastKey(content, |content|, key.value)
      case Some(p) => content[p + 1 := val]
      case None => content + [key, val]
  }

  // All sibling pairs, in order.
  function PutAll(content: seq<Tree>, siblings: seq<Tree>): (r: seq<Tree>)
    requires |content| % 2 == 0
    ensures |r| % 2 == 0 && |r| >= |content|
    decreases |siblings|
  {
    if |siblings| < 2 then content
    else PutAll(Put(content, siblings[0], siblings[1]), siblings[2..])
  }

  function Merge(resolved: Tree, siblings: seq<Tree>): Tree
    requires resolved.Tree?
  {
    resolved.(content := PutAll(Pairs(resolved.content), siblings))
  }

  // ----- resolution -----

  predicate Mergeable(resolved: Tree) {
    resolved.Tree? && resolved.kind.Mapping?
  }

  predicate MergeableDocument(resolved: Tree) {
    resolved.Tree? && resolved.kind.Document? && resolved.content != [] && Mergeable(resolved.content[0])
  }

  function Resolve(node: Tree, targets: Targets, seen: set<string>): (r: Tree)
    ensures r.Nil? <==> node.Nil?
    decreases targets.Keys - seen, node, 1, 0
  {
    if node.Nil? then node
    else if node.kind.Mapping? then ResolveMapping(node, targets, seen)
    else if node.kind.Sequence? then node.(content := ResolveItems(node, 0, targets, seen))
    else node
  }

  function ResolveMapping(node: Tree, targets: Targets, seen: set<string>): (r: Tree)
    requires node.Tree?
    ensures r.Tree?
    decreases targets.Keys - seen, node, 0, |node.content| + 1
  {
    match Expands(node, targets, seen)
    case None => node.(content := ResolveValues(node, 0, targets, seen))
    case Some(ref) =>
      assert targets.Keys - (seen + {ref}) < targets.Keys - seen by { assert ref in targets.Keys - seen; }
      var resolved := Resolve(targets[ref], targets, seen + {ref});
      if !HasSiblings(node.content, 0) then resolved
      else if Mergeable(resolved) then Merge(resolved, SiblingPairs(node, 0, targets, seen))
      else if MergeableDocument(resolved) then
        resolved.(content := resolved.content[0 := Merge(resolved.content[0], SiblingPairs(node, 0, targets, seen))])
      else node.(content := ResolveValues(node, 0, targets, seen))
  }

  function ResolveItems(node: Tree, i: nat, targets: Targets, seen: set<string>): seq<Tree>
    requires node.Tree?
    decreases targets.Keys - seen, node, 0, if i < |node.content| then |node.content| - i else 0
  {
    if i >= |node.content| then []
    else [Resolve(node.content[i], targets, seen)] + ResolveItems(node, i + 1, targets, seen)
  }

  function ResolveValues(node: Tree, i: nat, targets: Targets, seen: set<string>): seq<Tree>
    requires node.Tree?
    decreases targets.Keys - seen, node, 0, if i < |node.content| then |node.content| - i else 0
  {
    if i + 1 >= |node.content| then []
    else [node.content[i], Resolve(node.content[i + 1], targets, seen)] + ResolveValues(node, i + 2, targets, seen)
  }

  function SiblingPairs(node: Tree, i: nat, targets: Targets, seen: set<string>): seq<Tree>
    requires node.Tree?
    decreases targets.Keys - seen, node, 0, if i < |node.content| then |node.content| - i else 0
  {
    if i + 1 >= |node.content| then []
    else if IsRefKey(node.content[i]) then SiblingPairs(node, i + 2, targets, seen)
    else [node.content[i], Resolve(node.content[i + 1], targets, seen)] + SiblingPairs(node, i + 2, targets, seen)
  }

  // ----- the resolver as it runs -----

  lemma {:induction false} LastKeyPrefix(a: seq<Tree>, b: seq<Tree>, i: nat, name: string)
    requires i <= |a| && i <= |b| && a[..i] == b[..i]
    ensures LastKey(a, i, name) == LastKey(b, i, name)
  {
    if i >= 2 {
      var j := if i % 2 == 1 then i - 1 else i - 2;
      assert a[..j] == a[..i][..j] && b[..j] == b[..i][..j];
      assert i % 2 == 0 ==> a[..i][i - 2] == b[..i][i - 2];
      LastKeyPrefix(a, b, j, name);
    }
  }

  lemma LastKeySnoc(content: seq<Tree>, key: Tree, val: Tree, name: string)
    requires |content| % 2 == 0
    ensures LastKey(content + [key, val], |content| + 2, name) ==
            if key.Tree? && key.value == name then Some(|content|) else LastKey(content, |content|, name)
  {
    LastKeyPrefix(content + [key, val], content, |content|, name);
  }

  lemma {:induction false} LastKeyValues(a: seq<Tree>, b: seq<Tree>, i: nat, name: string)
    requires i <= |a| == |b|
    requires forall p | 0 <= p < |a| && p % 2 == 0 :: a[p] == b[p]
    ensures LastKey(a, i, name) == LastKey(b, i, name)
  {
    if i >= 2 { LastKeyValues(a, b, if i % 2 == 1 then i - 1 else i - 2, name); }
  }

  // keyPos holds the last position of every key name.
  ghost predicate KeyPositions(keyPos: map<string, nat>, content: seq<Tree>) {
    forall name :: LastKey(content, |content|, name) == if name in keyPos then Some(keyPos[name]) else None
  }

  lemma PositionsAppend(keyPos: map<string, nat>, content: seq<Tree>, key: Tree, val: Tree)
    requires |content| % 2 == 0 && KeyPositions(keyPos, content)
    ensures KeyPositions(if key.Tree? then keyPos[key.value := |content|] else keyPos, content + [key, val])
  {
    forall name { LastKeySnoc(content, key, val, name); }
  }

  lemma PositionsUpdate(keyPos: map<string, nat>, content: seq<Tree>, p: nat, val: Tree)
    requires |content| % 2 == 0 && KeyPositions(keyPos, content)
    requires p % 2 == 1 && p < |content|
    ensures KeyPositions(keyPos, content[p := val])
  {
    forall name { LastKeyValues(content, content[p := val], |content|, name); }
  }

  method MergeResolvedMappingWithSiblings(resolved: Tree, siblings: seq<Tree>) returns (merged: Tree)
    requires resolved.Tree?
    ensures merged == Merge(resolved, siblings)
  {
    var content: seq<Tree> := [];
    var keyPos: map<string, nat> := map[];
    var i := 0;
    while i + 1 < |resolved.content|
      invariant i % 2 == 0 && i <= |resolved.content| && content == resolved.content[..i]
      invariant KeyPositions(keyPos, content)
    {
      var key, val := resolved.content[i], resolved.content[i + 1];
      PositionsAppend(keyPos, content, key, val);
      content := content + [key, val];
      if key.Tree? { keyPos := keyPos[key.value := |content| - 2]; }
      i := i + 2;
    }
    assert content == Pairs(resolved.content);
    content := PutSiblings(content, keyPos, siblings);
    return resolved.(content := content);
  }

  lemma PutAllStep(content: seq<Tree>, siblings: seq<Tree>, i: nat)
    requires |content| % 2 == 0 && i + 1 < |siblings|
    ensures PutAll(content, siblings[i..]) == PutAll(Put(content, siblings[i], siblings[i + 1]), siblings[i + 2..])
  {
    assert siblings[i..][2..] == siblings[i + 2..];
  }

  // The second loop: the siblings.
  method PutSiblings(content0: seq<Tree>, keyPos0: map<string, nat>, siblings: seq<Tree>) returns (content: seq<Tree>)
    requires |content0| % 2 == 0 && KeyPositions(keyPos0, content0)
    ensures content == PutAll(content0, siblings)
  {
    content := content0;
    var keyPos: map<string, nat>, i: nat := keyPos0, 0;
    while i + 1 < |siblings|
      invariant i % 2 == 0 && i <= |siblings| && |content| % 2 == 0
      invariant KeyPositions(keyPos, content)
      invariant PutAll(content, siblings[i..]) == PutAll(content0, siblings)
    {
      PutAllStep(content, siblings, i);
      content, keyPos := PutSibling(content, keyPos, siblings[i], siblings[i + 1]);
      i := i + 2;
    }
  }

  method PutSibling(content0: seq<Tree>, keyPos0: map<string, nat>, key: Tree, val: Tree)
    returns (content: seq<Tree>, keyPos: map<string, nat>)
    requires |content0| % 2 == 0 && KeyPositions(keyPos0, content0)
    ensures content == Put(content0, key, val) && |content| % 2 == 0 && KeyPositions(keyPos, content)
  {
    content, keyPos := content0, keyPos0;
    if key.Nil? { return; }
    if key.value in keyPos {
      PositionsUpdate(keyPos, content, keyPos[key.value] + 1, val);
      content := content[keyPos[key.value] + 1 := val];
    } else {
      PositionsAppend(keyPos, content, key, val);
      content := content + [key, val];
      keyPos := keyPos[key.value := |content| - 2];
    }
  }

  class Resolver {
    const targets: Targets
    var seen: set<string>

    constructor (targets: Targets)
      ensures this.targets == targets && seen == {}
    {
      this.targets := targets;
      seen := {};
    }

    method ResolveNode(node: Tree) returns (r: Tree)
      modifies this
      ensures r == Resolve(node, targets, seen) && seen == old(seen)
      decreases targets.Keys - seen, node, 1, 0
    {
      if node.Nil? { return node; }
      if node.kind.Mapping? {
        r := ResolveMappingNode(node);
      } else if node.kind.Sequence? {
        var content: seq<Tree> := [];
        for i := 0 to |node.content|
          invariant seen == old(seen)
          invariant content + ResolveItems(node, i, targets, seen) == ResolveItems(node, 0, targets, seen)
        {
          var item := ResolveNode(node.content[i]);
          content := content + [item];
        }
        r := node.(content := content);
      } else {
        r := node;
      }
    }

    method ResolveMappingNode(node: Tree) returns (r: Tree)
      requires node.Tree?
      modifies this
      ensures r == ResolveMapping(node, targets, seen) && seen == old(seen)
      decreases targets.Keys - seen, node, 0, 1
    {
      var ref := FindRef(node.content, 0);
      if ref.None? || !Local(ref.value) || ref.value in seen {
        r := CloneWithResolvedChildren(node);
        return;
      }
      seen := seen + {ref.value};
      var resolved := Nil;
      if Resolvable(targets, ref.value) {
        assert targets.Keys - seen < old(targets.Keys - seen) by { assert ref.value in old(targets.Keys - seen); }
        resolved := ResolveNode(targets[ref.value]);
      }
      seen := seen - {ref.value};
      assert seen == old(seen);
      if resolved.Nil? {
        r := CloneWithResolvedChildren(node);
        return;
      }
      if !HasSiblings(node.content, 0) { return resolved; }
      var siblings := ResolvedSiblingPairs(node);
      if Mergeable(resolved) {
        r := MergeResolvedMappingWithSiblings(resolved, siblings);
        return;
      }
      if MergeableDocument(resolved) {
        var merged := MergeResolvedMappingWithSiblings(resolved.content[0], siblings);
        return resolved.(content := resolved.content[0 := merged]);
      }
      r := CloneWithResolvedChildren(node);
    }

    method CloneWithResolvedChildren(node: Tree) returns (r: Tree)
      requires node.Tree?
      modifies this
      ensures r == node.(content := ResolveValues(node, 0, targets, seen)) && seen == old(seen)
      decreases targets.Keys - seen, node, 0, 0
    {
      var content, i: nat := [], 0;
      while i + 1 < |node.content|
        invariant seen == old(seen)
        invariant content + ResolveValues(node, i, targets, seen) == ResolveValues(node, 0, targets, seen)
      {
        var val := ResolveNode(node.content[i + 1]);
        content := content + [node.content[i], val];
        i := i + 2;
      }
      return node.(content := content);
    }

    method ResolvedSiblingPairs(node: Tree) returns (siblings: seq<Tree>)
      requires node.Tree?
      modifies this
      ensures siblings == SiblingPairs(node, 0, targets, seen) && seen == old(seen)
      decreases targets.Keys - seen, node, 0, 0
    {
      var i: nat := 0;
      siblings := [];
      while i + 1 < |node.content|
        invariant seen == old(seen)
        invariant siblings + SiblingPairs(node, i, targets, seen) == SiblingPairs(node, 0, targets, seen)
      {
        if !IsRefKey(node.content[i]) {
          var val := ResolveNode(node.content[i + 1]);
          siblings := siblings + [node.content[i], val];
        }
        i := i + 2;
      }
    }
  }

  // The entry point: a nil index leaves the node as it is.
  method ResolveRefsInNode(node: Tree, targets: Option<Targets>) returns (r: Tree)
    ensures r == if targets.None? then node else Resolve(node, targets.value, {})
  {
    if node.Nil? || targets.None? { return node; }
    var resolver := new Resolver(targets.value);
    r := resolver.ResolveNode(node);
  }

  // ----- merging: siblings win, the order of keys stays -----

  // What a content list says about a key; of several pairs with one name the last counts.
  function ValueOf(content: seq<Tree>, name: string): Option<Tree>
    requires |content| % 2 == 0
  {
    match LastKey(content, |content|, name)
    case Some(p) => Some(content[p + 1])
    case None => None
  }

  lemma PutLookup(content: seq<Tree>, key: Tree, val: Tree, name: string)
    requires |content| % 2 == 0
    ensures |Put(content, key, val)| % 2 == 0
    ensures ValueOf(Put(content, key, val), name) ==
            if key.Tree? && key.value == name then Some(val) else ValueOf(content, name)
  {
    if key.Tree? {
      LastKeySnoc(content, key, val, name);
      if LastKey(content, |content|, key.value).Some? {
        LastKeyValues(content, Put(content, key, val), |content|, name);
        LastKeyValues(content, Put(content, key, val), |content|, key.value);
      }
    }
  }

  lemma {:induction false} LastKeyCons(key: Tree, val: Tree, rest: seq<Tree>, i: nat, name: string)
    requires i <= |rest| && i % 2 == 0
    ensures LastKey([key, val] + rest, i + 2, name) ==
            match LastKey(rest, i, name)
            case Some(p) => Some(p + 2)
            case None => if key.Tree? && key.value == name then Some(0) else None
  {
    var all := [key, val] + rest;
    assert i >= 2 ==> all[i] == rest[i - 2];
    if i >= 2 { LastKeyCons(key, val, rest, i - 2, name); } else { assert LastKey(all, 0, name).None?; }
  }

  lemma ValueOfCons(key: Tree, val: Tree, rest: seq<Tree>, name: string)
    requires |rest| % 2 == 0
    ensures ValueOf([key, val] + rest, name) ==
            if ValueOf(rest, name).Some? then ValueOf(rest, name)
            else if key.Tree? && key.value == name then Some(val) else None
  {
    LastKeyCons(key, val, rest, |rest|, name);
  }

  lemma PairsCons(siblings: seq<Tree>)
    requires |siblings| >= 2
    ensures Pairs(siblings) == [siblings[0], siblings[1]] + Pairs(siblings[2..])
  {}

  lemma FirstPairLast(siblings: seq<Tree>, name: string)
    requires |siblings| >= 2
    ensures ValueOf(Pairs(siblings), name) ==
            if ValueOf(Pairs(siblings[2..]), name).Some? then ValueOf(Pairs(siblings[2..]), name)
            else if siblings[0].Tree? && siblings[0].value == name then Some(siblings[1]) else None
  {
    PairsCons(siblings);
    ValueOfCons(siblings[0], siblings[1], Pairs(siblings[2..]), name);
  }

  /** A key of the merge has its sibling value if it has one, and else its resolved value. */
  lemma {:induction false} SiblingsWin(content: seq<Tree>, siblings: seq<Tree>, name: string)
    requires |content| % 2 == 0
    ensures ValueOf(PutAll(content, siblings), name) ==
            if ValueOf(Pairs(siblings), name).Some? then ValueOf(Pairs(siblings), name) else ValueOf(content, name)
    decreases |siblings|
  {
    if |siblings| >= 2 {
      var key, val, rest := siblings[0], siblings[1], siblings[2..];
      PutLookup(content, key, val, name);
      SiblingsWin(Put(content, key, val), rest, name);
      assert PutAll(content, siblings) == PutAll(Put(content, key, val), rest);
      FirstPairLast(siblings, name);
    }
  }

  // The keys of the complete pairs.
  function PairKeys(content: seq<Tree>): seq<Tree> {
    seq(|content| / 2, i requires 0 <= i < |content| / 2 => content[2 * i])
  }

  predicate Named(keys: seq<Tree>, name: string) {
    exists i :: 0 <= i < |keys| && keys[i].Tree? && keys[i].value == name
  }

  // The sibling keys whose names are not known, each name once, in the order of the siblings.
  function NewKeys(siblings: seq<Tree>, known: seq<Tree>): seq<Tree>
    decreases |siblings|
  {
    if |siblings| < 2 then []
    else if siblings[0].Tree? && !Named(known, siblings[0].value) then
      [siblings[0]] + NewKeys(siblings[2..], known + [siblings[0]])
    else NewKeys(siblings[2..], known)
  }

  lemma {:induction false} LastKeyIsNamed(content: seq<Tree>, i: nat, name: string)
    requires i <= |content| && i % 2 == 0
    ensures LastKey(content, i, name).Some? <==> Named(PairKeys(content[..i]), name)
  {
    if i >= 2 {
      LastKeyIsNamed(content, i - 2, name);
      var keys, last := PairKeys(content[..i - 2]), content[i - 2];
      assert PairKeys(content[..i]) == keys + [last];
      NamedSnoc(keys, last, name);
    } else {
      assert !Named(PairKeys(content[..0]), name);
    }
  }

  lemma NamedSnoc(keys: seq<Tree>, last: Tree, name: string)
    ensures Named(keys + [last], name) <==> Named(keys, name) || (last.Tree? && last.value == name)
  {
    var all := keys + [last];
    assert all[|keys|] == last;
    if Named(keys, name) {
      var i :| 0 <= i < |keys| && keys[i].Tree? && keys[i].value == name;
      assert all[i] == keys[i];
    }
  }

  lemma PutKeys(content: seq<Tree>, key: Tree, val: Tree)
    requires |content| % 2 == 0
    ensures PairKeys(Put(content, key, val)) ==
            PairKeys(content) + if key.Tree? && !Named(PairKeys(content), key.value) then [key] else []
  {
    if key.Tree? {
      LastKeyIsNamed(content, |content|, key.value);
      assert content[..|content|] == content;
    }
  }

  /** The keys of the merge: all keys there were, in their places, and behind them the new names of the
      siblings, each once and in their order. */
  lemma {:induction false} MergeKeepsKeyOrder(content: seq<Tree>, siblings: seq<Tree>)
    requires |content| % 2 == 0
    ensures PairKeys(PutAll(content, siblings)) == PairKeys(content) + NewKeys(siblings, PairKeys(content))
    decreases |siblings|
  {
    if |siblings| >= 2 {
      var key, keys, next := siblings[0], PairKeys(content), Put(content, siblings[0], siblings[1]);
      PutKeys(content, key, siblings[1]);
      MergeKeepsKeyOrder(next, siblings[2..]);
      if key.Tree? && !Named(keys, key.value) {
        var more := NewKeys(siblings[2..], keys + [key]);
        assert (keys + [key]) + more == keys + ([key] + more);
      } else {
        assert PairKeys(next) == keys;
      }
    }
  }

  // ----- what a mapping becomes, by its characters -----

  // A complete pair with the key "$ref" and a scalar.
  ghost predicate RefPair(content: seq<Tree>, p: nat, ref: string) {
    && p % 2 == 0 && p + 1 < |content|
    && content[p].Tree? && content[p].value == "$ref"
    && content[p + 1].Tree? && content[p + 1].kind == Scalar && content[p + 1].value == ref
  }

  ghost predicate FirstRef(content: seq<Tree>, p: nat, ref: string) {
    RefPair(content, p, ref) && forall q: nat, r | q < p :: !RefPair(content, q, r)
  }

  // The ref is "#/" and something more, or nothing.
  ghost predicate PointsInside(ref: string) {
    |ref| >= 2 && ref[0] == '#' && ref[1] == '/'
  }

  ghost predicate HasOtherKey(content: seq<Tree>) {
    exists p :: 0 <= p < |content| - 1 && p % 2 == 0 && content[p].Tree? && content[p].value != "$ref"
  }

  // The mapping with its values resolved, as far as its pairs are complete.
  ghost predicate Cloned(node: Tree, r: Tree, targets: Targets, seen: set<string>)
    requires node.Tree?
  {
    && r.Tree? && r.kind == node.kind && r.tag == node.tag && r.value == node.value
    && |r.content| == |node.content| / 2 * 2
    && forall p | 0 <= p < |r.content| :: r.content[p] ==
         if p % 2 == 0 then node.content[p] else Resolve(node.content[p], targets, seen)
  }

  // The resolved mapping in which each name of the node but "$ref" has the node's value, resolved.
  ghost predicate Overridden(node: Tree, d: Tree, r: Tree, targets: Targets, seen: set<string>)
    requires node.Tree? && d.Tree?
  {
    && r.Tree? && r.kind == d.kind && r.tag == d.tag && r.value == d.value && |r.content| % 2 == 0
    && forall name :: ValueOf(r.content, name) == OverridingValue(node, d, name, targets, seen)
  }

  ghost function OverridingValue(node: Tree, d: Tree, name: string, targets: Targets, seen: set<string>): Option<Tree>
    requires node.Tree? && d.Tree?
  {
    var last := LastKey(node.content, |node.content| / 2 * 2, name);
    if name != "$ref" && last.Some? then Some(Resolve(node.content[last.value + 1], targets, seen))
    else ValueOf(Pairs(d.content), name)
  }

  lemma {:induction false} FindRefIsFirst(content: seq<Tree>, i: nat)
    requires i % 2 == 0
    ensures FindRef(content, i).Some? ==>
              exists p: nat :: i <= p && RefPair(content, p, FindRef(content, i).value)
                               && forall q: nat, r | i <= q < p :: !RefPair(content, q, r)
    ensures FindRef(content, i).None? ==> forall q: nat, r | i <= q :: !RefPair(content, q, r)
    decreases |content| - i
  {
    if i + 1 < |content| {
      if IsRefKey(content[i]) && content[i + 1].Tree? && content[i + 1].kind.Scalar? {
        assert RefPair(content, i, content[i + 1].value);
      } else {
        FindRefIsFirst(content, i + 2);
        forall q: nat, r | i <= q < i + 2 ensures !RefPair(content, q, r) {}
      }
    }
  }

  lemma FirstRefFound(content: seq<Tree>, p: nat, ref: string)
    requires FirstRef(content, p, ref)
    ensures FindRef(content, 0) == Some(ref)
  {
    FindRefIsFirst(content, 0);
    var found := FindRef(content, 0);
    assert RefPair(content, p, ref);
    if found.Some? {
      var q: nat :| RefPair(content, q, found.value) && forall k: nat, r | k < q :: !RefPair(content, k, r);
      assert !(q < p) && !(p < q);
    }
  }

  lemma {:induction false} SiblingsAreOtherKeys(content: seq<Tree>, i: nat)
    requires i % 2 == 0
    ensures HasSiblings(content, i) <==>
              exists p :: i <= p < |content| - 1 && p % 2 == 0 && content[p].Tree? && content[p].value != "$ref"
    decreases |content| - i
  {
    if i + 1 < |content| { SiblingsAreOtherKeys(content, i + 2); }
  }

  lemma {:induction false} ValuesResolved(node: Tree, i: nat, targets: Targets, seen: set<string>)
    requires node.Tree? && i % 2 == 0 && i <= |node.content|
    ensures
      var r := ResolveValues(node, i, targets, seen);
      && |r| == (|node.content| - i) / 2 * 2
      && forall p | 0 <= p < |r| :: r[p] ==
           if p % 2 == 0 then node.content[i + p] else Resolve(node.content[i + p], targets, seen)
    decreases |node.content| - i
  {
    if i + 1 < |node.content| {
      var rest := ResolveValues(node, i + 2, targets, seen);
      var r := [node.content[i], Resolve(node.content[i + 1], targets, seen)] + rest;
      assert ResolveValues(node, i, targets, seen) == r;
      ValuesResolved(node, i + 2, targets, seen);
      forall p | 2 <= p < |r|
        ensures r[p] == if p % 2 == 0 then node.content[i + p] else Resolve(node.content[i + p], targets, seen)
      {
        assert r[p] == rest[p - 2];
      }
    }
  }

  lemma ClonedIs(node: Tree, targets: Targets, seen: set<string>)
    requires node.Tree?
    ensures Cloned(node, node.(content := ResolveValues(node, 0, targets, seen)), targets, seen)
  {
    ValuesResolved(node, 0, targets, seen);
  }

  /** A mapping without a ref, or with one that does not begin with "#/", that is being expanded or that
      nothing is found for, keeps its fields and keys, and its values are resolved. */
  lemma UnexpandedIsCloned(node: Tree, targets: Targets, seen: set<string>)
    requires node.Tree? && node.kind.Mapping?
    requires forall p: nat, ref | FirstRef(node.content, p, ref) ::
               !PointsInside(ref) || ref in seen || ref !in targets || targets[ref].Nil?
    ensures Cloned(node, Resolve(node, targets, seen), targets, seen)
  {
    ClonedIs(node, targets, seen);
    FindRefIsFirst(node.content, 0);
    if FindRef(node.content, 0).Some? {
      var ref := FindRef(node.content, 0).value;
      var p: nat :| RefPair(node.content, p, ref) && forall q: nat, r | q < p :: !RefPair(node.content, q, r);
      assert FirstRef(node.content, p, ref);
    }
  }

  /** A ref that does not begin with "#/" stays, unless another "$ref" before it becomes a scalar. */
  lemma OutsideRefStays(node: Tree, p: nat, ref: string, targets: Targets, seen: set<string>)
    requires node.Tree? && node.kind.Mapping? && FirstRef(node.content, p, ref) && !PointsInside(ref)
    requires forall q: nat | q < p && q % 2 == 0 && node.content[q].Tree? && node.content[q].value == "$ref" ::
               var v := Resolve(node.content[q + 1], targets, seen);
               v.Tree? ==> v.kind != Scalar
    ensures FirstRef(Resolve(node, targets, seen).content, p, ref)
  {
    FirstRefFound(node.content, p, ref);
    ClonedIs(node, targets, seen);
  }

  /** A ref that begins with "#/", is found and is not being expanded is replaced by its target's
      resolution, if it has no other key beside it. */
  lemma InsideRefIsReplaced(node: Tree, p: nat, ref: string, targets: Targets, seen: set<string>)
    requires node.Tree? && node.kind.Mapping? && FirstRef(node.content, p, ref) && PointsInside(ref)
    requires ref !in seen && ref in targets && targets[ref].Tree? && !HasOtherKey(node.content)
    ensures Resolve(node, targets, seen) == Resolve(targets[ref], targets, seen + {ref})
  {
    FirstRefFound(node.content, p, ref);
    SiblingsAreOtherKeys(node.content, 0);
  }

  // The last pair of a name among the siblings from pair i on.
  lemma {:induction false} SiblingValue(node: Tree, i: nat, targets: Targets, seen: set<string>, name: string)
    requires node.Tree? && i % 2 == 0 && i <= |node.content|
    ensures |SiblingPairs(node, i, targets, seen)| % 2 == 0
    ensures
      var last := LastKey(node.content, |node.content| / 2 * 2, name);
      ValueOf(SiblingPairs(node, i, targets, seen), name) ==
      if name != "$ref" && last.Some? && last.value >= i then Some(Resolve(node.content[last.value + 1], targets, seen))
      else None
    decreases |node.content| - i
  {
    var n := |node.content| / 2 * 2;
    if i + 1 < |node.content| {
      var key, val, rest := node.content[i], Resolve(node.content[i + 1], targets, seen),
                            SiblingPairs(node, i + 2, targets, seen);
      SiblingValue(node, i + 2, targets, seen, name);
      LastIsHere(node.content, i, n, name);
      if !IsRefKey(key) { ValueOfCons(key, val, rest, name); }
    } else {
      assert i == n || i == n + 1;
    }
  }

  // A last key at or after a place is at the place, or after its pair.
  lemma LastIsHere(content: seq<Tree>, i: nat, n: nat, name: string)
    requires i % 2 == 0 && n % 2 == 0 && i + 2 <= n <= |content|
    ensures
      var last := LastKey(content, n, name);
      && (last.Some? && last.value >= i ==> last.value == i || last.value >= i + 2)
      && (content[i].Tree? && content[i].value == name ==> last.Some? && last.value >= i)
  {
    if content[i].Tree? && content[i].value == name { LastIsLater(content, i, n, name); }
  }

  lemma {:induction false} LastIsLater(content: seq<Tree>, i: nat, n: nat, name: string)
    requires i % 2 == 0 && n % 2 == 0 && i + 2 <= n <= |content|
    requires content[i].Tree? && content[i].value == name
    ensures LastKey(content, n, name).Some? && LastKey(content, n, name).value >= i
    decreases n
  {
    if n > i + 2 { LastIsLater(content, i, n - 2, name); }
  }

  lemma OverriddenIs(node: Tree, d: Tree, targets: Targets, seen: set<string>)
    requires node.Tree? && d.Tree?
    ensures Overridden(node, d, Merge(d, SiblingPairs(node, 0, targets, seen)), targets, seen)
  {
    var r := Merge(d, SiblingPairs(node, 0, targets, seen));
    forall name ensures ValueOf(r.content, name) == OverridingValue(node, d, name, targets, seen) {
      OverridesOne(node, d, name, targets, seen);
    }
  }

  lemma CompletePairsWin(content: seq<Tree>, siblings: seq<Tree>, name: string)
    requires |content| % 2 == 0 && |siblings| % 2 == 0
    ensures ValueOf(PutAll(content, siblings), name) ==
            if ValueOf(siblings, name).Some? then ValueOf(siblings, name) else ValueOf(content, name)
  {
    assert Pairs(siblings) == siblings;
    SiblingsWin(content, siblings, name);
  }

  lemma OverridesOne(node: Tree, d: Tree, name: string, targets: Targets, seen: set<string>)
    requires node.Tree? && d.Tree?
    ensures ValueOf(PutAll(Pairs(d.content), SiblingPairs(node, 0, targets, seen)), name) ==
            OverridingValue(node, d, name, targets, seen)
  {
    var siblings := SiblingPairs(node, 0, targets, seen);
    SiblingValue(node, 0, targets, seen, name);
    CompletePairsWin(Pairs(d.content), siblings, name);
  }

  lemma WithOtherKeys(node: Tree, ref: string, targets: Targets, seen: set<string>)
    requires node.Tree? && node.kind.Mapping? && FindRef(node.content, 0) == Some(ref) && PointsInside(ref)
    requires ref !in seen && ref in targets && targets[ref].Tree? && HasSiblings(node.content, 0)
    ensures
      var d, own := Resolve(targets[ref], targets, seen + {ref}), SiblingPairs(node, 0, targets, seen);
      Resolve(node, targets, seen) ==
      if Mergeable(d) then Merge(d, own)
      else if MergeableDocument(d) then d.(content := [Merge(d.content[0], own)] + d.content[1..])
      else node.(content := ResolveValues(node, 0, targets, seen))
  {
    assert Expands(node, targets, seen) == Some(ref);
  }

  /** With other keys beside it, such a ref is replaced by its target's resolution with the values of
      these keys in it: if that is a mapping, or a document of one, and else stays with its mapping. */
  lemma InsideRefIsOverridden(node: Tree, p: nat, ref: string, targets: Targets, seen: set<string>)
    requires node.Tree? && node.kind.Mapping? && FirstRef(node.content, p, ref) && PointsInside(ref)
    requires ref !in seen && ref in targets && targets[ref].Tree? && HasOtherKey(node.content)
    ensures
      var d, r := Resolve(targets[ref], targets, seen + {ref}), Resolve(node, targets, seen);
      if d.kind == Mapping then Overridden(node, d, r, targets, seen)
      else if d.kind == Document && d.content != [] && d.content[0].Tree? && d.content[0].kind == Mapping then
        && r.Tree? && r.content != [] && r == d.(content := [r.content[0]] + d.content[1..])
        && Overridden(node, d.content[0], r.content[0], targets, seen)
      else Cloned(node, r, targets, seen)
  {
    var d := Resolve(targets[ref], targets, seen + {ref});
    FirstRefFound(node.content, p, ref);
    SiblingsAreOtherKeys(node.content, 0);
    WithOtherKeys(node, ref, targets, seen);
    ClonedIs(node, targets, seen);
    OverriddenIs(node, d, targets, seen);
    if d.content != [] && d.content[0].Tree? { OverriddenIs(node, d.content[0], targets, seen); }
  }

  lemma {:induction false} ItemsResolved(node: Tree, i: nat, targets: Targets, seen: set<string>)
    requires node.Tree? && i <= |node.content|
    ensures
      var r := ResolveItems(node, i, targets, seen);
      |r| == |node.content| - i && forall k | 0 <= k < |r| :: r[k] == Resolve(node.content[i + k], targets, seen)
    decreases |node.content| - i
  {
    if i < |node.content| { ItemsResolved(node, i + 1, targets, seen); }
  }

  /** A sequence keeps its fields, and its items are resolved; anything but mappings and sequences stays. */
  lemma OthersKeepTheirFields(node: Tree, targets: Targets, seen: set<string>)
    requires node.Tree? && node.kind != Mapping
    ensures
      var r := Resolve(node, targets, seen);
      if node.kind == Sequence then
        && r.Tree? && r.kind == Sequence && r.tag == node.tag && r.value == node.value
        && |r.content| == |node.content|
        && forall k | 0 <= k < |r.content| :: r.content[k] == Resolve(node.content[k], targets, seen)
      else r == node
  {
    ItemsResolved(node, 0, targets, seen);
  }

  // ----- which refs are left -----

  // The values of the complete pairs.
  function Values(content: seq<Tree>): seq<Tree> {
    seq(|content| / 2, i requires 0 <= i < |content| / 2 => content[2 * i + 1])
  }

  // The children resolution descends into.
  function Kids(node: Tree): (kids: seq<Tree>)
    ensures forall k | k in kids :: node.Tree? && k in node.content
  {
    if node.Nil? then []
    else if node.kind.Sequence? then node.content
    else if node.kind.Mapping? then Values(node.content)
    else []
  }

  function OwnRef(node: Tree): Option<string> {
    if node.Tree? && node.kind.Mapping? then
      match FindRef(node.content, 0)
      case Some(ref) => if Local(ref) then Some(ref) else None
      case None => None
    else None
  }

  // Every local ref of the tree is in the set.
  ghost predicate AllIn(node: Tree, refs: set<string>)
    decreases node
  {
    (OwnRef(node).Some? ==> OwnRef(node).value in refs) && forall k | k in Kids(node) :: AllIn(k, refs)
  }

  // With every ref, the set holds the refs of its target.
  ghost predicate ClosedRefs(targets: Targets, refs: set<string>) {
    forall a | a in refs && Resolvable(targets, a) :: AllIn(targets[a], refs)
  }

  // Following refs from the target of a leads to r.
  ghost predicate LeadsTo(targets: Targets, a: string, r: string) {
    && Resolvable(targets, a)
    && forall refs: set<string> | ClosedRefs(targets, refs) && AllIn(targets[a], refs) :: r in refs
  }

  ghost predicate Circular(targets: Targets, ref: string) {
    LeadsTo(targets, ref, ref)
  }

  // Below these refs, the ref's target is nothing that siblings can be merged into.
  ghost predicate NotMergeableIn(targets: Targets, ref: string, path: set<string>)
    requires Resolvable(targets, ref)
  {
    var resolved := Resolve(targets[ref], targets, path + {ref});
    !Mergeable(resolved) && !MergeableDocument(resolved)
  }

  predicate IsScalar(node: Tree) {
    node.Tree? && node.kind.Scalar?
  }

  // A mapping that is nothing but a local ref: resolution replaces it by its target, whatever that is.
  predicate Collapsible(node: Tree) {
    OwnRef(node).Some? && !HasSiblings(node.content, 0)
  }

  // From pair i on, a "$ref" key with a collapsible value comes before any with a scalar value.
  predicate Collapses(content: seq<Tree>, i: nat)
    decreases |content| - i
  {
    && i + 1 < |content|
    && !(IsRefKey(content[i]) && IsScalar(content[i + 1]))
    && ((IsRefKey(content[i]) && Collapsible(content[i + 1])) || Collapses(content, i + 2))
  }

  // No mapping of the tree has a "$ref" that resolution could replace.
  ghost predicate Plain(node: Tree)
    decreases node
  {
    && (node.Tree? && node.kind.Mapping? ==> !Collapses(node.content, 0))
    && forall k | k in Kids(node) :: Plain(k)
  }

  ghost predicate PlainTargets(targets: Targets) {
    forall ref | Resolvable(targets, ref) :: Plain(targets[ref])
  }

  // ----- the shape of resolved contents -----

  // The cloned mapping has the same keys, and its values are the resolved ones.
  ghost predicate SameKeys(node: Tree, i: nat, targets: Targets, seen: set<string>, content: seq<Tree>)
    requires node.Tree? && i <= |node.content|
  {
    && |content| == (|node.content| - i) / 2 * 2
    && forall j {:trigger content[j]} | 0 <= j < |content| ::
         content[j] == if j % 2 == 0 then node.content[i + j] else Resolve(node.content[i + j], targets, seen)
  }

  lemma {:induction false} ValuesAt(node: Tree, i: nat, targets: Targets, seen: set<string>)
    requires node.Tree? && i <= |node.content|
    ensures SameKeys(node, i, targets, seen, ResolveValues(node, i, targets, seen))
    decreases |node.content| - i
  {
    if i + 1 < |node.content| {
      ValuesAt(node, i + 2, targets, seen);
      var rest, content := ResolveValues(node, i + 2, targets, seen), ResolveValues(node, i, targets, seen);
      assert content == [node.content[i], Resolve(node.content[i + 1], targets, seen)] + rest;
      forall j | 2 <= j < |content|
        ensures content[j] == if j % 2 == 0 then node.content[i + j] else Resolve(node.content[i + j], targets, seen)
      {
        assert content[j] == rest[j - 2];
      }
    }
  }

  lemma {:induction false} SiblingsHaveNoRef(node: Tree, i: nat, targets: Targets, seen: set<string>)
    requires node.Tree?
    ensures forall j {:trigger SiblingPairs(node, i, targets, seen)[j]} |
              0 <= j < |SiblingPairs(node, i, targets, seen)| && j % 2 == 0 ::
              !IsRefKey(SiblingPairs(node, i, targets, seen)[j])
    decreases if i < |node.content| then |node.content| - i else 0
  {
    if i + 1 < |node.content| {
      SiblingsHaveNoRef(node, i + 2, targets, seen);
    }
  }

  lemma OnlyCollapsibleBecomesScalar(node: Tree, targets: Targets, seen: set<string>)
    requires !IsScalar(node) && !Collapsible(node)
    ensures !IsScalar(Resolve(node, targets, seen))
  {}

  lemma {:induction false} CloneKeepsSiblings(node: Tree, targets: Targets, seen: set<string>, content: seq<Tree>,
                                        i: nat)
    requires node.Tree? && i % 2 == 0 && SameKeys(node, 0, targets, seen, content)
    ensures HasSiblings(content, i) == HasSiblings(node.content, i)
    decreases if i < |node.content| then |node.content| - i else 0
  {
    if i + 1 < |node.content| {
      CloneKeepsSiblings(node, targets, seen, content, i + 2);
      assert content[i] == node.content[i];
    }
  }

  lemma {:induction false} CloneKeepsRef(node: Tree, targets: Targets, seen: set<string>, content: seq<Tree>, i: nat)
    requires node.Tree? && i % 2 == 0 && SameKeys(node, 0, targets, seen, content)
    requires !Collapses(node.content, i)
    ensures FindRef(content, i) == FindRef(node.content, i)
    decreases if i < |node.content| then |node.content| - i else 0
  {
    if i + 1 < |node.content| {
      assert content[i] == node.content[i];
      assert content[i + 1] == Resolve(node.content[i + 1], targets, seen);
      if !IsRefKey(node.content[i]) || !IsScalar(node.content[i + 1]) {
        CloneKeepsRef(node, targets, seen, content, i + 2);
        if !IsScalar(node.content[i + 1]) && !Collapsible(node.content[i + 1]) {
          OnlyCollapsibleBecomesScalar(node.content[i + 1], targets, seen);
        }
      }
    }
  }

  // The local ref a mapping carries once its values are resolved.
  function ClonedRef(node: Tree, targets: Targets, seen: set<string>): Option<string>
    requires node.Tree? && node.kind.Mapping?
  {
    OwnRef(node.(content := ResolveValues(node, 0, targets, seen)))
  }

  // The local ref of the first collapsible value.
  function CollapsingRef(content: seq<Tree>, i: nat): string
    requires Collapses(content, i)
    decreases |content| - i
  {
    if IsRefKey(content[i]) && Collapsible(content[i + 1]) then OwnRef(content[i + 1]).value
    else CollapsingRef(content, i + 2)
  }

  lemma {:induction false} CollapseMakesRef(node: Tree, ref: string, targets: Targets, content: seq<Tree>, i: nat)
    requires node.Tree? && i % 2 == 0 && SameKeys(node, 0, targets, {}, content)
    requires Collapses(node.content, i)
    requires CollapsingRef(node.content, i) in targets && targets[CollapsingRef(node.content, i)] == Leaf(ref)
    ensures FindRef(content, i) == Some(ref)
    decreases |node.content| - i
  {
    var val := node.content[i + 1];
    assert content[i] == node.content[i] && content[i + 1] == Resolve(val, targets, {});
    if IsRefKey(node.content[i]) && Collapsible(val) {
      var own := OwnRef(val).value;
      assert Expands(val, targets, {}) == Some(own) && targets[own] == Leaf(ref);
      assert Resolve(Leaf(ref), targets, {} + {own}) == Leaf(ref);
      assert Resolve(val, targets, {}) == Leaf(ref);
    } else {
      if IsRefKey(node.content[i]) { OnlyCollapsibleBecomesScalar(val, targets, {}); }
      CollapseMakesRef(node, ref, targets, content, i + 2);
    }
  }

  /** A mapping keeps the local ref it has, or its lack of one, whatever the targets are,
      exactly when no collapsible value stands before its own scalar one. */
  lemma RefIsKeptUnlessItCollapses(node: Tree)
    requires node.Tree? && node.kind.Mapping?
    ensures !Collapses(node.content, 0) <==> forall targets, seen :: ClonedRef(node, targets, seen) == OwnRef(node)
  {
    if Collapses(node.content, 0) {
      var ref := if FindRef(node.content, 0) == Some("#/t") then "#/u" else "#/t";
      var targets := map[CollapsingRef(node.content, 0) := Leaf(ref)];
      ValuesAt(node, 0, targets, {});
      CollapseMakesRef(node, ref, targets, ResolveValues(node, 0, targets, {}), 0);
      assert ClonedRef(node, targets, {}) == Some(ref) != OwnRef(node);
    } else {
      forall targets, seen ensures ClonedRef(node, targets, seen) == OwnRef(node) {
        ValuesAt(node, 0, targets, seen);
        CloneKeepsRef(node, targets, seen, ResolveValues(node, 0, targets, seen), 0);
      }
    }
  }

  // b is a with other values for ordinary keys, and with ordinary keys added.
  ghost predicate Extends(a: seq<Tree>, b: seq<Tree>) {
    && |a| % 2 == 0 && |b| % 2 == 0 && |a| <= |b|
    && (forall p {:trigger b[p]} | 0 <= p < |a| && p % 2 == 0 ::
          b[p] == a[p] && (IsRefKey(a[p]) ==> b[p + 1] == a[p + 1]))
    && forall p {:trigger b[p]} | |a| <= p < |b| && p % 2 == 0 :: !IsRefKey(b[p])
  }

  lemma {:induction false} ExtendsKeepsRef(a: seq<Tree>, b: seq<Tree>, i: nat)
    requires Extends(a, b) && i % 2 == 0
    ensures FindRef(b, i) == FindRef(a, i)
    ensures HasSiblings(a, i) ==> HasSiblings(b, i)
    decreases if i < |b| then |b| - i else 0
  {
    if i + 1 < |b| {
      ExtendsKeepsRef(a, b, i + 2);
      if i < |a| { assert b[i] == a[i] && (IsRefKey(a[i]) ==> b[i + 1] == a[i + 1]); } else { assert !IsRefKey(b[i]); }
    }
  }

  lemma PutExtends(a: seq<Tree>, key: Tree, val: Tree)
    requires |a| % 2 == 0 && !IsRefKey(key)
    ensures Extends(a, Put(a, key, val))
  {
  }

  lemma {:induction false} PutAllExtends(a: seq<Tree>, siblings: seq<Tree>)
    requires |a| % 2 == 0
    requires forall p {:trigger siblings[p]} | 0 <= p < |siblings| && p % 2 == 0 :: !IsRefKey(siblings[p])
    ensures Extends(a, PutAll(a, siblings))
    decreases |siblings|
  {
    if |siblings| >= 2 {
      var rest, mid := siblings[2..], Put(a, siblings[0], siblings[1]);
      PutExtends(a, siblings[0], siblings[1]);
      forall p | 0 <= p < |rest| && p % 2 == 0 ensures !IsRefKey(rest[p]) { assert rest[p] == siblings[p + 2]; }
      PutAllExtends(mid, rest);
      ExtendsTransitive(a, mid, PutAll(a, siblings));
    }
  }

  lemma ExtendsTransitive(a: seq<Tree>, b: seq<Tree>, c: seq<Tree>)
    requires Extends(a, b) && Extends(b, c)
    ensures Extends(a, c)
  {
    forall p | 0 <= p < |a| && p % 2 == 0 ensures c[p] == a[p] && (IsRefKey(a[p]) ==> c[p + 1] == a[p + 1]) {
      assert b[p] == a[p] && c[p] == b[p];
    }
    forall p | |a| <= p < |c| && p % 2 == 0 ensures !IsRefKey(c[p]) {
      if p < |b| { assert !IsRefKey(b[p]) && c[p] == b[p]; }
    }
  }

  lemma {:induction false} PairsKeepRef(content: seq<Tree>, i: nat)
    requires i % 2 == 0
    ensures FindRef(Pairs(content), i) == FindRef(content, i)
    ensures HasSiblings(Pairs(content), i) == HasSiblings(content, i)
    decreases if i < |content| then |content| - i else 0
  {
    if i + 1 < |content| { PairsKeepRef(content, i + 2); }
  }

  // ----- resolution with the path of every occurrence -----

  // A resolved tree with, for each occurrence of a node that resolution visits, the refs that
  // were being expanded when it was put together.
  datatype Marked = Marked(tree: Tree, path: set<string>, parts: seq<Marked>)

  function PutPart(content: seq<Tree>, parts: seq<Marked>, key: Tree, val: Tree, part: Marked): (r: seq<Marked>)
    requires |content| % 2 == 0 && |parts| == |content| / 2
    ensures |r| == |Put(content, key, val)| / 2
  {
    if key.Nil? then parts
    else
      match LastKey(content, |content|, key.value)
      case Some(p) => parts[p / 2 := part]
      case None => parts + [part]
  }

  function PutAllParts(content: seq<Tree>, parts: seq<Marked>, siblings: seq<Tree>, added: seq<Marked>)
    : (r: seq<Marked>)
    requires |content| % 2 == 0 && |parts| == |content| / 2 && |siblings| == 2 * |added|
    ensures |r| == |PutAll(content, siblings)| / 2
    decreases |siblings|
  {
    if added == [] then parts
    else
      PutAllParts(Put(content, siblings[0], siblings[1]), PutPart(content, parts, siblings[0], siblings[1], added[0]),
                  siblings[2..], added[1..])
  }

  // Resolve, keeping record of the paths: a merged mapping stays on the path of what it resolves to.
  function Mark(node: Tree, targets: Targets, seen: set<string>): (m: Marked)
    ensures m.tree == Resolve(node, targets, seen)
    ensures m.tree.Tree? && m.tree.kind.Mapping? ==> |m.parts| == |m.tree.content| / 2
    decreases targets.Keys - seen, node, 1, 0
  {
    if node.Nil? then Marked(node, seen, [])
    else if node.kind.Mapping? then MarkMapping(node, targets, seen)
    else if node.kind.Sequence? then Marked(Resolve(node, targets, seen), seen, MarkItems(node, 0, targets, seen))
    else Marked(node, seen, [])
  }

  function MarkMapping(node: Tree, targets: Targets, seen: set<string>): (m: Marked)
    requires node.Tree? && node.kind.Mapping?
    ensures m.tree == ResolveMapping(node, targets, seen)
    ensures m.tree.kind.Mapping? ==> |m.parts| == |m.tree.content| / 2
    decreases targets.Keys - seen, node, 0, |node.content| + 2
  {
    match Expands(node, targets, seen)
    case None => MarkedClone(node, targets, seen)
    case Some(ref) =>
      assert targets.Keys - (seen + {ref}) < targets.Keys - seen by { assert ref in targets.Keys - seen; }
      var resolved := Mark(targets[ref], targets, seen + {ref});
      if !HasSiblings(node.content, 0) then resolved
      else if Mergeable(resolved.tree) then MarkedMerge(node, targets, seen, resolved)
      else if MergeableDocument(resolved.tree) then Marked(ResolveMapping(node, targets, seen), seen, [])
      else MarkedClone(node, targets, seen)
  }

  function MarkedClone(node: Tree, targets: Targets, seen: set<string>): (m: Marked)
    requires node.Tree? && node.kind.Mapping?
    ensures m.tree.Tree? && |m.parts| == |m.tree.content| / 2
    decreases targets.Keys - seen, node, 0, |node.content| + 1
  {
    Marked(node.(content := ResolveValues(node, 0, targets, seen)), seen, MarkValues(node, 0, targets, seen))
  }

  function MarkedMerge(node: Tree, targets: Targets, seen: set<string>, resolved: Marked): (m: Marked)
    requires node.Tree? && Mergeable(resolved.tree) && |resolved.parts| == |resolved.tree.content| / 2
    ensures m.tree.Tree? && |m.parts| == |m.tree.content| / 2
    decreases targets.Keys - seen, node, 0, |node.content| + 1
  {
    var siblings := SiblingPairs(node, 0, targets, seen);
    Marked(Merge(resolved.tree, siblings), resolved.path,
           PutAllParts(Pairs(resolved.tree.content), resolved.parts, siblings, MarkSiblings(node, 0, targets, seen)))
  }

  function MarkItems(node: Tree, i: nat, targets: Targets, seen: set<string>): (r: seq<Marked>)
    requires node.Tree?
    ensures |r| == |ResolveItems(node, i, targets, seen)|
    decreases targets.Keys - seen, node, 0, if i < |node.content| then |node.content| - i else 0
  {
    if i >= |node.content| then []
    else [Mark(node.content[i], targets, seen)] + MarkItems(node, i + 1, targets, seen)
  }

  function MarkValues(node: Tree, i: nat, targets: Targets, seen: set<string>): (r: seq<Marked>)
    requires node.Tree?
    ensures 2 * |r| == |ResolveValues(node, i, targets, seen)|
    decreases targets.Keys - seen, node, 0, if i < |node.content| then |node.content| - i else 0
  {
    if i + 1 >= |node.content| then []
    else [Mark(node.content[i + 1], targets, seen)] + MarkValues(node, i + 2, targets, seen)
  }

  function MarkSiblings(node: Tree, i: nat, targets: Targets, seen: set<string>): (r: seq<Marked>)
    requires node.Tree?
    ensures 2 * |r| == |SiblingPairs(node, i, targets, seen)|
    decreases targets.Keys - seen, node, 0, if i < |node.content| then |node.content| - i else 0
  {
    if i + 1 >= |node.content| then []
    else if IsRefKey(node.content[i]) then MarkSiblings(node, i + 2, targets, seen)
    else [Mark(node.content[i + 1], targets, seen)] + MarkSiblings(node, i + 2, targets, seen)
  }

  // ----- what is left over -----

  // Why a mapping of the result may still carry a local ref.
  ghost predicate Excused(targets: Targets, m: Marked) {
    match OwnRef(m.tree)
    case None => true
    case Some(ref) =>
      || ref in m.path
      || !Resolvable(targets, ref)
      || (HasSiblings(m.tree.content, 0) && NotMergeableIn(targets, ref, m.path))
  }

  ghost predicate AllExcused(targets: Targets, m: Marked)
    decreases m
  {
    Excused(targets, m) && forall k | k in m.parts :: AllExcused(targets, k)
  }

  // ----- the parts belong to the children -----

  function Trees(parts: seq<Marked>): seq<Tree> {
    seq(|parts|, i requires 0 <= i < |parts| => parts[i].tree)
  }

  lemma {:induction false} ItemsFit(node: Tree, i: nat, targets: Targets, seen: set<string>)
    requires node.Tree?
    ensures Trees(MarkItems(node, i, targets, seen)) == ResolveItems(node, i, targets, seen)
    decreases if i < |node.content| then |node.content| - i else 0
  {
    if i < |node.content| {
      ItemsFit(node, i + 1, targets, seen);
      TreesCons(Mark(node.content[i], targets, seen), MarkItems(node, i + 1, targets, seen));
    }
  }

  lemma {:induction false} ValuesFit(node: Tree, i: nat, targets: Targets, seen: set<string>)
    requires node.Tree?
    ensures Trees(MarkValues(node, i, targets, seen)) == Values(ResolveValues(node, i, targets, seen))
    decreases if i < |node.content| then |node.content| - i else 0
  {
    if i + 1 < |node.content| {
      ValuesFit(node, i + 2, targets, seen);
      var m := Mark(node.content[i + 1], targets, seen);
      TreesCons(m, MarkValues(node, i + 2, targets, seen));
      ValuesCons(node.content[i], m.tree, ResolveValues(node, i + 2, targets, seen));
    }
  }

  lemma {:induction false} SiblingsFit(node: Tree, i: nat, targets: Targets, seen: set<string>)
    requires node.Tree?
    ensures Trees(MarkSiblings(node, i, targets, seen)) == Values(SiblingPairs(node, i, targets, seen))
    decreases if i < |node.content| then |node.content| - i else 0
  {
    if i + 1 < |node.content| {
      SiblingsFit(node, i + 2, targets, seen);
      var m := Mark(node.content[i + 1], targets, seen);
      TreesCons(m, MarkSiblings(node, i + 2, targets, seen));
      ValuesCons(node.content[i], m.tree, SiblingPairs(node, i + 2, targets, seen));
    }
  }

  lemma TreesCons(m: Marked, parts: seq<Marked>)
    ensures Trees([m] + parts) == [m.tree] + Trees(parts)
  {}

  lemma ValuesCons(key: Tree, val: Tree, content: seq<Tree>)
    ensures Values([key, val] + content) == [val] + Values(content)
  {
    var all := [key, val] + content;
    forall i | 0 < i < |all| / 2 ensures Values(all)[i] == Values(content)[i - 1] {
      assert all[2 * i + 1] == content[2 * (i - 1) + 1];
    }
  }

  lemma PutPartFits(content: seq<Tree>, parts: seq<Marked>, key: Tree, val: Tree, part: Marked)
    requires |content| % 2 == 0 && Trees(parts) == Values(content) && part.tree == val
    ensures |parts| == |content| / 2
    ensures Trees(PutPart(content, parts, key, val, part)) == Values(Put(content, key, val))
  {
    assert |Trees(parts)| == |Values(content)|;
    var r, b := PutPart(content, parts, key, val, part), Put(content, key, val);
    forall i | 0 <= i < |r| ensures r[i].tree == b[2 * i + 1] {
      if i < |parts| { assert Trees(parts)[i] == Values(content)[i]; }
    }
  }

  lemma {:induction false} PutAllPartsFit(content: seq<Tree>, parts: seq<Marked>, siblings: seq<Tree>,
                                          added: seq<Marked>)
    requires |content| % 2 == 0 && Trees(parts) == Values(content)
    requires |siblings| == 2 * |added| && Trees(added) == Values(siblings)
    ensures |parts| == |content| / 2
    ensures Trees(PutAllParts(content, parts, siblings, added)) == Values(PutAll(content, siblings))
    ensures forall k | k in PutAllParts(content, parts, siblings, added) :: k in parts || k in added
    decreases |siblings|
  {
    assert |Trees(parts)| == |Values(content)|;
    if added != [] {
      var key, val := siblings[0], siblings[1];
      assert Trees(added)[0] == Values(siblings)[0];
      PutPartFits(content, parts, key, val, added[0]);
      assert siblings == [key, val] + siblings[2..] && added == [added[0]] + added[1..];
      ValuesCons(key, val, siblings[2..]);
      TreesCons(added[0], added[1..]);
      assert Trees(added[1..]) == Trees(added)[1..] && Values(siblings[2..]) == Values(siblings)[1..];
      PutAllPartsFit(Put(content, key, val), PutPart(content, parts, key, val, added[0]), siblings[2..], added[1..]);
      forall k | k in PutPart(content, parts, key, val, added[0]) ensures k in parts || k in added {}
    }
  }

  // Every part comes from a child of the node.
  lemma {:induction false} ItemOf(node: Tree, i: nat, targets: Targets, seen: set<string>, k: Marked) returns (v: Tree)
    requires node.Tree? && node.kind.Sequence? && k in MarkItems(node, i, targets, seen)
    ensures v in Kids(node) && k == Mark(v, targets, seen)
    decreases if i < |node.content| then |node.content| - i else 0
  {
    v := node.content[i];
    if k != Mark(v, targets, seen) { v := ItemOf(node, i + 1, targets, seen, k); }
  }

  lemma KidAt(node: Tree, i: nat)
    requires node.Tree? && node.kind.Mapping? && i % 2 == 0 && i + 1 < |node.content|
    ensures node.content[i + 1] in Kids(node)
  {
    assert Kids(node)[i / 2] == node.content[i + 1];
  }

  lemma {:induction false} ValueOfMark(node: Tree, i: nat, targets: Targets, seen: set<string>, k: Marked)
    returns (v: Tree)
    requires node.Tree? && node.kind.Mapping? && i % 2 == 0 && k in MarkValues(node, i, targets, seen)
    ensures v in Kids(node) && k == Mark(v, targets, seen)
    decreases if i < |node.content| then |node.content| - i else 0
  {
    KidAt(node, i);
    v := node.content[i + 1];
    if k != Mark(v, targets, seen) { v := ValueOfMark(node, i + 2, targets, seen, k); }
  }

  lemma {:induction false} SiblingOfMark(node: Tree, i: nat, targets: Targets, seen: set<string>, k: Marked)
    returns (v: Tree)
    requires node.Tree? && node.kind.Mapping? && i % 2 == 0 && k in MarkSiblings(node, i, targets, seen)
    ensures v in Kids(node) && k == Mark(v, targets, seen)
    decreases if i < |node.content| then |node.content| - i else 0
  {
    KidAt(node, i);
    v := node.content[i + 1];
    if IsRefKey(node.content[i]) || k != Mark(v, targets, seen) { v := SiblingOfMark(node, i + 2, targets, seen, k); }
  }

  // ----- every occurrence is accounted for -----

  // The parts are the children; a local ref left is excused, is among refs, and every ref entered
  // above the occurrence but not above the whole leads to it.
  ghost predicate Sound(targets: Targets, seen: set<string>, refs: set<string>, m: Marked) {
    && Trees(m.parts) == Kids(m.tree)
    && Excused(targets, m)
    && match OwnRef(m.tree)
       case None => true
       case Some(r) => r in refs && forall q | q in m.path && q !in seen :: LeadsTo(targets, q, r)
  }

  ghost predicate AllSound(targets: Targets, seen: set<string>, refs: set<string>, m: Marked)
    decreases m
  {
    Sound(targets, seen, refs, m) && forall k | k in m.parts :: AllSound(targets, seen, refs, k)
  }

  // What is sound below a ref is sound above it: all its refs are reached from that ref.
  lemma {:induction false} LeaveRef(targets: Targets, seen: set<string>, ref: string, refs: set<string>, m: Marked)
    requires Resolvable(targets, ref) && AllSound(targets, seen + {ref}, refs, m)
    requires forall inner: set<string> | ClosedRefs(targets, inner) && AllIn(targets[ref], inner) ::
               AllSound(targets, seen + {ref}, inner, m)
    ensures AllSound(targets, seen, refs, m)
    decreases m
  {
    if OwnRef(m.tree).Some? {
      forall inner: set<string> | ClosedRefs(targets, inner) && AllIn(targets[ref], inner)
        ensures OwnRef(m.tree).value in inner
      {
        assert AllSound(targets, seen + {ref}, inner, m);
      }
      assert LeadsTo(targets, ref, OwnRef(m.tree).value);
    }
    forall k | k in m.parts ensures AllSound(targets, seen, refs, k) {
      forall inner: set<string> | ClosedRefs(targets, inner) && AllIn(targets[ref], inner)
        ensures AllSound(targets, seen + {ref}, inner, k)
      {
        assert AllSound(targets, seen + {ref}, inner, m);
      }
      LeaveRef(targets, seen, ref, refs, k);
    }
  }

  lemma {:induction false} MarkIsSound(node: Tree, targets: Targets, seen: set<string>, refs: set<string>)
    requires Plain(node) && PlainTargets(targets) && ClosedRefs(targets, refs) && AllIn(node, refs)
    ensures AllSound(targets, seen, refs, Mark(node, targets, seen))
    decreases targets.Keys - seen, node
  {
    if node.Tree? && (node.kind.Mapping? || node.kind.Sequence?) {
      forall v | v in Kids(node) ensures AllSound(targets, seen, refs, Mark(v, targets, seen)) {
        MarkIsSound(v, targets, seen, refs);
      }
      if node.kind.Sequence? {
        SequenceIsSound(node, targets, seen, refs);
      } else {
        match Expands(node, targets, seen)
        case None => CloneIsSound(node, targets, seen, refs);
        case Some(ref) =>
          assert OwnRef(node) == Some(ref);
          assert targets.Keys - (seen + {ref}) < targets.Keys - seen by { assert ref in targets.Keys - seen; }
          forall inner: set<string> | ClosedRefs(targets, inner) && AllIn(targets[ref], inner)
            ensures AllSound(targets, seen + {ref}, inner, Mark(targets[ref], targets, seen + {ref}))
          {
            MarkIsSound(targets[ref], targets, seen + {ref}, inner);
          }
          LeaveRef(targets, seen, ref, refs, Mark(targets[ref], targets, seen + {ref}));
          ExpansionIsSound(node, targets, seen, refs, ref);
      }
    }
  }

  lemma SequenceIsSound(node: Tree, targets: Targets, seen: set<string>, refs: set<string>)
    requires node.Tree? && node.kind.Sequence?
    requires forall v | v in Kids(node) :: AllSound(targets, seen, refs, Mark(v, targets, seen))
    ensures AllSound(targets, seen, refs, Mark(node, targets, seen))
  {
    var m := Mark(node, targets, seen);
    ItemsFit(node, 0, targets, seen);
    forall k | k in m.parts ensures AllSound(targets, seen, refs, k) {
      var v := ItemOf(node, 0, targets, seen, k);
    }
  }

  // The mapping as it is, values resolved.
  lemma CloneIsSound(node: Tree, targets: Targets, seen: set<string>, refs: set<string>)
    requires node.Tree? && node.kind.Mapping? && Plain(node) && AllIn(node, refs)
    requires forall v | v in Kids(node) :: AllSound(targets, seen, refs, Mark(v, targets, seen))
    requires match OwnRef(node)
             case None => true
             case Some(ref) => ref in seen || !Resolvable(targets, ref)
                               || (HasSiblings(node.content, 0) && NotMergeableIn(targets, ref, seen))
    ensures AllSound(targets, seen, refs, MarkedClone(node, targets, seen))
  {
    var m := MarkedClone(node, targets, seen);
    ValuesAt(node, 0, targets, seen);
    CloneKeepsRef(node, targets, seen, m.tree.content, 0);
    CloneKeepsSiblings(node, targets, seen, m.tree.content, 0);
    ValuesFit(node, 0, targets, seen);
    forall k | k in m.parts ensures AllSound(targets, seen, refs, k) {
      var v := ValueOfMark(node, 0, targets, seen, k);
    }
  }

  lemma ExpansionIsSound(node: Tree, targets: Targets, seen: set<string>, refs: set<string>, ref: string)
    requires node.Tree? && node.kind.Mapping? && Plain(node) && AllIn(node, refs)
    requires Expands(node, targets, seen) == Some(ref)
    requires forall v | v in Kids(node) :: AllSound(targets, seen, refs, Mark(v, targets, seen))
    requires AllSound(targets, seen, refs, Mark(targets[ref], targets, seen + {ref}))
    ensures AllSound(targets, seen, refs, Mark(node, targets, seen))
  {
    var resolved := Mark(targets[ref], targets, seen + {ref});
    if HasSiblings(node.content, 0) {
      if Mergeable(resolved.tree) {
        MergeIsSound(node, targets, seen, refs, resolved);
      } else if !MergeableDocument(resolved.tree) {
        CloneIsSound(node, targets, seen, refs);
      }
    }
  }

  lemma MergeIsSound(node: Tree, targets: Targets, seen: set<string>, refs: set<string>, resolved: Marked)
    requires node.Tree? && node.kind.Mapping? && Mergeable(resolved.tree)
    requires |resolved.parts| == |resolved.tree.content| / 2
    requires forall v | v in Kids(node) :: AllSound(targets, seen, refs, Mark(v, targets, seen))
    requires AllSound(targets, seen, refs, resolved)
    ensures AllSound(targets, seen, refs, MarkedMerge(node, targets, seen, resolved))
  {
    var siblings, pairs := SiblingPairs(node, 0, targets, seen), Pairs(resolved.tree.content);
    var added, m := MarkSiblings(node, 0, targets, seen), MarkedMerge(node, targets, seen, resolved);
    SiblingsHaveNoRef(node, 0, targets, seen);
    PutAllExtends(pairs, siblings);
    ExtendsKeepsRef(pairs, m.tree.content, 0);
    PairsKeepRef(resolved.tree.content, 0);
    assert Values(pairs) == Values(resolved.tree.content);
    SiblingsFit(node, 0, targets, seen);
    PutAllPartsFit(pairs, resolved.parts, siblings, added);
    forall k | k in m.parts ensures AllSound(targets, seen, refs, k) {
      if k in added { var v := SiblingOfMark(node, 0, targets, seen, k); }
    }
  }

  function RefsOf(node: Tree): set<string>
    decreases node
  {
    (if OwnRef(node).Some? then {OwnRef(node).value} else {}) + set k, r | k in Kids(node) && r in RefsOf(k) :: r
  }

  lemma {:induction false} RefsAreIn(node: Tree, refs: set<string>)
    requires RefsOf(node) <= refs
    ensures AllIn(node, refs)
    decreases node
  {
    forall k | k in Kids(node) ensures AllIn(k, refs) {
      forall r | r in RefsOf(k) ensures r in refs { assert r in RefsOf(node); }
      RefsAreIn(k, refs);
    }
  }

  // The parts are the children, all the way down, and every ref expanded above a ref that is left leads
  // to it: one that is left below itself is circular.
  ghost predicate Covers(targets: Targets, m: Marked)
    decreases m
  {
    && Trees(m.parts) == Kids(m.tree)
    && (OwnRef(m.tree).Some? ==> forall q | q in m.path :: LeadsTo(targets, q, OwnRef(m.tree).value))
    && (OwnRef(m.tree).Some? && OwnRef(m.tree).value in m.path ==> Circular(targets, OwnRef(m.tree).value))
    && forall k | k in m.parts :: Covers(targets, k)
  }

  lemma {:induction false} SoundIsExcused(targets: Targets, refs: set<string>, m: Marked)
    requires AllSound(targets, {}, refs, m)
    ensures AllExcused(targets, m) && Covers(targets, m)
    decreases m
  {
    forall k | k in m.parts ensures AllExcused(targets, k) && Covers(targets, k) {
      SoundIsExcused(targets, refs, k);
    }
  }

  /** When no "$ref" is itself replaced by resolution: every local ref a resolved tree still
      carries is unresolvable, is being expanded above that very occurrence (and then it is
      circular), or stands beside siblings that its target, expanded there, cannot take in. */
  lemma LeftoversAreExcused(node: Tree, targets: Targets)
    requires Plain(node) && PlainTargets(targets)
    ensures AllExcused(targets, Mark(node, targets, {})) && Covers(targets, Mark(node, targets, {}))
  {
    var refs := RefsOf(node) + set a, r | a in targets && r in RefsOf(targets[a]) :: r;
    RefsAreIn(node, refs);
    forall a | Resolvable(targets, a) ensures AllIn(targets[a], refs) {
      forall r | r in RefsOf(targets[a]) ensures r in refs {}
      RefsAreIn(targets[a], refs);
    }
    MarkIsSound(node, targets, {}, refs);
    SoundIsExcused(targets, refs, Mark(node, targets, {}));
  }

  function Leaf(value: string): Tree {
    Tree(Scalar, "!!str", value, [])
  }

  function RefTo(target: Tree): Tree {
    Tree(Mapping, "!!map", "", [Leaf("$ref"), target])
  }

  // ----- the condition is exact -----

  // Keys are not nil, and no mapping has two "$ref" keys.
  ghost predicate Tidy(node: Tree)
    decreases node
  {
    && (node.Tree? && node.kind.Mapping? ==> TidyKeys(node.content))
    && forall k | k in Kids(node) :: Tidy(k)
  }

  ghost predicate TidyKeys(content: seq<Tree>) {
    && (forall p {:trigger content[p]} | 0 <= p < |content| - 1 && p % 2 == 0 :: content[p].Tree?)
    && forall p, q {:trigger content[p], content[q]} |
         0 <= p < q < |content| - 1 && p % 2 == 0 && q % 2 == 0 :: !(IsRefKey(content[p]) && IsRefKey(content[q]))
  }

  // A ref that is not in the set: it is longer than all that are.
  lemma FreshRef(refs: set<string>) returns (ref: string)
    ensures Local(ref) && ref !in refs
  {
    var n := LengthBound(refs);
    ref := "#/" + seq(n, i => 'a');
  }

  lemma {:induction false} LengthBound(refs: set<string>) returns (n: nat)
    ensures forall r | r in refs :: |r| <= n
  {
    n := 0;
    if refs != {} {
      var r :| r in refs;
      n := LengthBound(refs - {r});
      if n < |r| { n := |r|; }
    }
  }

  // The targets that show it: the collapsing ref stands for the text of another ref, and that
  // one for an empty mapping.
  function Witness(ref: string, made: string): Targets {
    map[ref := Leaf(made), made := Tree(Mapping, "!!map", "", [])]
  }

  lemma WitnessResolves(ref: string, made: string, seen: set<string>)
    requires ref != made
    ensures PlainTargets(Witness(ref, made))
    ensures Resolve(Leaf(made), Witness(ref, made), seen) == Leaf(made)
    ensures !NotMergeableIn(Witness(ref, made), made, {})
    ensures NotMergeableIn(Witness(ref, made), ref, {})
  {
    var targets := Witness(ref, made);
    assert Resolve(Leaf(made), targets, {} + {ref}) == Leaf(made);
    var empty := targets[made];
    assert {} + {made} == {made} && Expands(empty, targets, {made}).None?;
    assert ResolveValues(empty, 0, targets, {made}) == [];
    assert Resolve(empty, targets, {made}) == empty;
  }

  lemma {:induction false} NoRefKeyNoRef(content: seq<Tree>, i: nat)
    requires i % 2 == 0
    requires forall p {:trigger content[p]} | i <= p < |content| - 1 && p % 2 == 0 :: !IsRefKey(content[p])
    ensures FindRef(content, i).None?
    decreases if i < |content| then |content| - i else 0
  {
    if i + 1 < |content| { NoRefKeyNoRef(content, i + 2); }
  }

  // With one "$ref" key, a mapping that collapses has no ref of its own.
  lemma {:induction false} CollapseHasNoRef(content: seq<Tree>, i: nat)
    requires i % 2 == 0 && TidyKeys(content) && Collapses(content, i)
    ensures FindRef(content, i).None?
    decreases |content| - i
  {
    if IsRefKey(content[i]) && Collapsible(content[i + 1]) {
      NoRefKeyNoRef(content, i + 2);
    } else {
      CollapseHasNoRef(content, i + 2);
    }
  }

  lemma {:induction false} CollapsingRefIn(node: Tree, i: nat)
    requires node.Tree? && node.kind.Mapping? && i % 2 == 0 && Collapses(node.content, i)
    ensures Local(CollapsingRef(node.content, i)) && CollapsingRef(node.content, i) in RefsOf(node)
    decreases |node.content| - i
  {
    if IsRefKey(node.content[i]) && Collapsible(node.content[i + 1]) {
      KidAt(node, i);
      assert CollapsingRef(node.content, i) in RefsOf(node.content[i + 1]);
    } else {
      CollapsingRefIn(node, i + 2);
    }
  }

  // A mapping that collapses carries the made ref, without any excuse.
  lemma CollapseIsNotExcused(node: Tree, made: string)
    requires node.Tree? && node.kind.Mapping? && TidyKeys(node.content) && Collapses(node.content, 0)
    requires Local(made) && made != CollapsingRef(node.content, 0)
    ensures !Excused(Witness(CollapsingRef(node.content, 0), made),
                     Mark(node, Witness(CollapsingRef(node.content, 0), made), {}))
  {
    var ref := CollapsingRef(node.content, 0);
    var targets := Witness(ref, made);
    CollapseHasNoRef(node.content, 0);
    var m := MarkedClone(node, targets, {});
    assert Mark(node, targets, {}) == MarkMapping(node, targets, {}) == m;
    ValuesAt(node, 0, targets, {});
    CollapseMakesRef(node, made, targets, m.tree.content, 0);
    assert OwnRef(m.tree) == Some(made);
    WitnessResolves(ref, made, {});
  }

  // A mapping with a ref of its own and a value that is no scalar has siblings.
  lemma {:induction false} OtherValueIsSibling(content: seq<Tree>, i: nat, j: nat)
    requires i % 2 == 0 && j % 2 == 0 && i <= j && j + 1 < |content|
    requires TidyKeys(content) && FindRef(content, 0).Some? && !IsScalar(content[j + 1])
    ensures HasSiblings(content, i)
    decreases j - i
  {
    if i < j {
      OtherValueIsSibling(content, i + 2, j);
    } else if IsRefKey(content[j]) {
      RefKeyOfRef(content, 0, j);
    }
  }

  lemma {:induction false} RefKeyOfRef(content: seq<Tree>, i: nat, j: nat)
    requires i % 2 == 0 && j % 2 == 0 && j + 1 < |content| && IsRefKey(content[j]) && TidyKeys(content)
    requires FindRef(content, i).Some? && i <= j
    ensures IsScalar(content[j + 1])
    decreases |content| - i
  {
    if i < j {
      assert !IsRefKey(content[i]);
      RefKeyOfRef(content, i + 2, j);
    } else if !IsScalar(content[j + 1]) {
      NoRefKeyNoRef(content, j + 2);
    }
  }

  lemma {:induction false} ItemsCover(node: Tree, i: nat, targets: Targets, seen: set<string>, j: nat)
    requires node.Tree? && i <= j < |node.content|
    ensures Mark(node.content[j], targets, seen) in MarkItems(node, i, targets, seen)
    decreases j - i
  {
    var first, rest := Mark(node.content[i], targets, seen), MarkItems(node, i + 1, targets, seen);
    assert MarkItems(node, i, targets, seen) == [first] + rest;
    if i < j { ItemsCover(node, i + 1, targets, seen, j); }
  }

  lemma {:induction false} ValuesCover(node: Tree, i: nat, targets: Targets, seen: set<string>, j: nat)
    requires node.Tree? && i % 2 == 0 && j % 2 == 0 && i <= j && j + 1 < |node.content|
    ensures Mark(node.content[j + 1], targets, seen) in MarkValues(node, i, targets, seen)
    decreases j - i
  {
    if i < j { ValuesCover(node, i + 2, targets, seen, j); }
  }

  // Above the collapse everything is cloned: the witness has nothing siblings can be merged into.
  lemma MappingStays(node: Tree, j: nat, ref: string, made: string)
    requires node.Tree? && node.kind.Mapping? && TidyKeys(node.content)
    requires j % 2 == 0 && j + 1 < |node.content| && !IsScalar(node.content[j + 1])
    requires ref != made && OwnRef(node) != Some(made)
    ensures Mark(node, Witness(ref, made), {}) == MarkedClone(node, Witness(ref, made), {})
  {
    var targets := Witness(ref, made);
    assert Mark(node, targets, {}) == MarkMapping(node, targets, {});
    if Expands(node, targets, {}).Some? {
      assert OwnRef(node) == Some(ref);
      OtherValueIsSibling(node.content, 0, j);
      WitnessResolves(ref, made, {} + {ref});
      assert Mark(targets[ref], targets, {} + {ref}).tree == Leaf(made);
    }
  }

  lemma ValueStays(node: Tree, j: nat, ref: string, made: string)
    requires node.Tree? && node.kind.Mapping? && TidyKeys(node.content)
    requires j % 2 == 0 && j + 1 < |node.content| && !IsScalar(node.content[j + 1])
    requires ref != made && OwnRef(node) != Some(made)
    ensures HasPart(Mark(node, Witness(ref, made), {}), Mark(node.content[j + 1], Witness(ref, made), {}))
  {
    MappingStays(node, j, ref, made);
    ValuesCover(node, 0, Witness(ref, made), {}, j);
  }

  ghost predicate HasPart(m: Marked, part: Marked) {
    part in m.parts
  }

  lemma ItemStays(node: Tree, j: nat, targets: Targets, seen: set<string>)
    requires node.Tree? && node.kind.Sequence? && j < |node.content|
    ensures HasPart(Mark(node, targets, seen), Mark(node.content[j], targets, seen))
  {
    ItemsCover(node, 0, targets, seen, j);
  }

  // The positions of the children.
  predicate KidAtIndex(node: Tree, j: nat) {
    node.Tree? && j < |node.content| && (node.kind.Sequence? || (node.kind.Mapping? && j % 2 == 1))
  }

  lemma KidIndex(node: Tree, k: Tree) returns (j: nat)
    requires k in Kids(node)
    ensures KidAtIndex(node, j) && node.content[j] == k
  {
    var kids := Kids(node);
    var i :| 0 <= i < |kids| && kids[i] == k;
    j := if node.kind.Sequence? then i else 2 * i + 1;
  }

  lemma KidStays(node: Tree, j: nat, ref: string, made: string)
    requires KidAtIndex(node, j) && !IsScalar(node.content[j]) && (node.kind.Mapping? ==> TidyKeys(node.content))
    requires ref != made && OwnRef(node) != Some(made)
    ensures HasPart(Mark(node, Witness(ref, made), {}), Mark(node.content[j], Witness(ref, made), {}))
  {
    if node.kind.Sequence? {
      ItemStays(node, j, Witness(ref, made), {});
    } else {
      ValueStays(node, j - 1, ref, made);
    }
  }

  lemma PartIsExcused(targets: Targets, m: Marked, part: Marked)
    requires HasPart(m, part)
    ensures AllExcused(targets, m) ==> AllExcused(targets, part)
  {}

  lemma {:induction false} CollapseLeavesARef(node: Tree, made: string) returns (ref: string)
    requires Tidy(node) && !Plain(node) && Local(made) && made !in RefsOf(node)
    ensures ref != made && !AllExcused(Witness(ref, made), Mark(node, Witness(ref, made), {}))
    decreases node
  {
    if node.Tree? && node.kind.Mapping? && Collapses(node.content, 0) {
      ref := CollapsingRef(node.content, 0);
      CollapsingRefIn(node, 0);
      CollapseIsNotExcused(node, made);
    } else {
      var k :| k in Kids(node) && !Plain(k);
      assert forall r | r in RefsOf(k) :: r in RefsOf(node);
      ref := CollapseLeavesARef(k, made);
      var j := KidIndex(node, k);
      KidStays(node, j, ref, made);
      PartIsExcused(Witness(ref, made), Mark(node, Witness(ref, made), {}), Mark(k, Witness(ref, made), {}));
    }
  }

  /** For tidy nodes the condition is exact: whatever plain targets there are, every local ref
      left is excused, exactly when no "$ref" of the node is replaced by resolution. */
  lemma PlainExactly(node: Tree)
    requires Tidy(node)
    ensures Plain(node) <==> forall targets | PlainTargets(targets) :: AllExcused(targets, Mark(node, targets, {}))
  {
    if Plain(node) {
      forall targets | PlainTargets(targets) ensures AllExcused(targets, Mark(node, targets, {})) {
        LeftoversAreExcused(node, targets);
      }
    } else {
      var made := FreshRef(RefsOf(node));
      var ref := CollapseLeavesARef(node, made);
      WitnessResolves(ref, made, {});
      assert PlainTargets(Witness(ref, made));
    }
  }

  // Without that condition a ref may be put together by the resolution itself and stay, though
  // it resolves, is not being expanded and has no siblings.
  lemma ResolutionCanMakeARef()
    ensures
      var targets := map["#/s" := Leaf("#/t"), "#/t" := Leaf("x")];
      var m := Mark(RefTo(RefTo(Leaf("#/s"))), targets, {});
      OwnRef(m.tree) == Some("#/t") && !Excused(targets, m)
  {
    var targets := map["#/s" := Leaf("#/t"), "#/t" := Leaf("x")];
    var inner := RefTo(Leaf("#/s"));
    var node := RefTo(inner);
    assert Expands(inner, targets, {}) == Some("#/s");
    assert !HasSiblings(inner.content, 0);
    assert Resolve(inner, targets, {}) == Leaf("#/t");
    assert FindRef(node.content, 2) == None && Expands(node, targets, {}) == None;
    assert ResolveValues(node, 2, targets, {}) == [];
    assert ResolveValues(node, 0, targets, {}) == [Leaf("$ref"), Leaf("#/t")];
    var m := Mark(node, targets, {});
    assert m.tree == RefTo(Leaf("#/t"));
    assert OwnRef(m.tree) == Some("#/t");
    assert !HasSiblings(m.tree.content, 2) && !HasSiblings(m.tree.content, 0);
  }
}
