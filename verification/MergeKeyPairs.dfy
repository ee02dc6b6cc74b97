/** What expanding merge keys does to a mapping, read from the fields of its nodes alone. */
module MergeKeyPairs {
  import opened YamlNode
  import opened MergeKeys

  // ----- reading a content list -----

  // A key of the list, which is no merge key.
  ghost predicate LocalKey(content: seq<Node?>, i: nat)
    reads set n: Node | n in content
  {
    i % 2 == 0 && i < |content| && content[i] != null && content[i].tag != "!!merge"
  }

  ghost predicate MergeKey(content: seq<Node?>, i: nat)
    reads set n: Node | n in content
  {
    i % 2 == 0 && i < |content| && content[i] != null && content[i].tag == "!!merge"
  }

  ghost predicate Names(content: seq<Node?>, i: nat, name: string)
    reads set n: Node | n in content
  {
    i % 2 == 0 && i < |content| && content[i] != null && content[i].value == name
  }

  // Key i with its value; a key at the very end is its own value.
  ghost predicate PairOf(content: seq<Node?>, i: nat, r: seq<Node?>, k: nat) {
    && i < |content| && k + 1 < |r| && r[k] == content[i]
    && r[k + 1] == if i + 1 < |content| then content[i + 1] else content[i]
  }

  // How many local keys there are before place i, from place `from` on.
  ghost function LocalsFrom(content: seq<Node?>, from: nat, i: nat): nat
    reads set n: Node | n in content
    decreases i - from
  {
    if from >= i then 0 else (if LocalKey(content, from) then 1 else 0) + LocalsFrom(content, from + 2, i)
  }

  // The local keys from place `from` on stand in r, each with its value, from place base on.
  ghost predicate LocalsStand(content: seq<Node?>, from: nat, r: seq<Node?>, base: nat)
    reads set n: Node | n in content
  {
    forall i: nat | from <= i && LocalKey(content, i) :: PairOf(content, i, r, base + 2 * LocalsFrom(content, from, i))
  }

  lemma {:induction false} LocalsArePairs(content: seq<Node?>, from: nat)
    requires from % 2 == 0
    ensures |Locals(content, from)| == 2 * LocalsFrom(content, from, |content|)
    ensures LocalsStand(content, from, Locals(content, from), 0)
    decreases if from < |content| then |content| - from else 0
  {
    if from < |content| {
      LocalsArePairs(content, from + 2);
      OneMoreLocal(content, from, Locals(content, from + 2));
    }
  }

  lemma OneMoreLocal(content: seq<Node?>, from: nat, rest: seq<Node?>)
    requires from % 2 == 0 && from < |content| && LocalsStand(content, from + 2, rest, 0)
    ensures LocalsStand(content, from, OwnPair(content, from) + rest, 0)
  {
    var all := OwnPair(content, from) + rest;
    forall i: nat | from <= i && LocalKey(content, i)
      ensures PairOf(content, i, all, 2 * LocalsFrom(content, from, i))
    {
      if i > from {
        assert PairOf(content, i, rest, 0 + 2 * LocalsFrom(content, from + 2, i));
        Behind(content, i, OwnPair(content, from), rest, 2 * LocalsFrom(content, from + 2, i));
      }
    }
  }

  lemma Behind(content: seq<Node?>, i: nat, front: seq<Node?>, rest: seq<Node?>, k: nat)
    requires PairOf(content, i, rest, k)
    ensures PairOf(content, i, front + rest, |front| + k)
  {}

  lemma Before(content: seq<Node?>, i: nat, r: seq<Node?>, longer: seq<Node?>, k: nat)
    requires PairOf(content, i, r, k) && r <= longer
    ensures PairOf(content, i, longer, k)
  {}

  // The names of the local pairs are those of the local keys.
  lemma {:induction false} LocalNames(content: seq<Node?>, from: nat, name: string)
    requires from % 2 == 0
    ensures First(Locals(content, from), 0, name).Some? <==>
              exists i :: from <= i && LocalKey(content, i) && Names(content, i, name)
    decreases if from < |content| then |content| - from else 0
  {
    if from < |content| {
      var own, rest := OwnPair(content, from), Locals(content, from + 2);
      LocalNames(content, from + 2, name);
      PartsEven([], content, from + 2);
      FirstAppend(own, rest, 0, name);
      if own != [] { assert First(own, 2, name).None?; }
      assert LocalKey(content, from) <==> own != [];
    }
  }

  /** Looking a name up gives the value of the first key of that name, if there is one. */
  lemma {:induction false} FirstIsItsValue(content: seq<Node?>, from: nat, name: string)
    requires from % 2 == 0
    ensures First(content, from, name).Some? ==>
              exists i :: from <= i && IsFirstKey(content, from, i, name, First(content, from, name).value)
    ensures First(content, from, name).None? ==> forall i | from <= i :: !Names(content, i, name)
    decreases if from < |content| then |content| - from else 0
  {
    if from < |content| {
      if Names(content, from, name) {
        assert IsFirstKey(content, from, from, name, First(content, from, name).value);
      } else {
        FirstIsItsValue(content, from + 2, name);
        if First(content, from, name).Some? {
          var v := First(content, from, name).value;
          var i :| from + 2 <= i && IsFirstKey(content, from + 2, i, name, v);
          assert IsFirstKey(content, from, i, name, v);
        }
      }
    }
  }

  // Key i is the first of its name from place `from` on, and this is its value.
  ghost predicate IsFirstKey(content: seq<Node?>, from: nat, i: nat, name: string, v: Node?)
    reads set n: Node | n in content
  {
    && Names(content, i, name) && (forall k | from <= k < i :: !Names(content, k, name))
    && v == if i + 1 < |content| then content[i + 1] else content[i]
  }

  // ----- pairs merged in -----

  // Key q of the source has a name that neither the pairs there are nor a key before it have.
  ghost predicate Fresh(target: seq<Node?>, content: seq<Node?>, q: nat)
    reads (set n: Node | n in content), (set n: Node | n in target)
  {
    && q % 2 == 0 && q < |content| && content[q] != null
    && First(target, 0, content[q].value).None?
    && forall k | 0 <= k < q :: !Names(content, k, content[q].value)
  }

  ghost function FreshFrom(target: seq<Node?>, content: seq<Node?>, from: nat, q: nat): nat
    reads (set n: Node | n in content), (set n: Node | n in target)
    decreases q - from
  {
    if from >= q then 0
    else (if Fresh(target, content, from) then 1 else 0) + FreshFrom(target, content, from + 2, q)
  }

  // The names known when the first keys of the source are added.
  ghost predicate Knows(target: seq<Node?>, now: seq<Node?>, content: seq<Node?>, from: nat)
    reads (set n: Node | n in content), (set n: Node | n in target), (set n: Node | n in now)
  {
    forall name :: First(now, 0, name).Some? <==>
      First(target, 0, name).Some? || exists k :: 0 <= k < from && Names(content, k, name)
  }

  lemma KnowsMore(target: seq<Node?>, now: seq<Node?>, next: seq<Node?>, content: seq<Node?>, from: nat)
    requires from % 2 == 0 && from < |content| && |now| % 2 == 0 && Knows(target, now, content, from)
    requires if content[from] == null || First(now, 0, content[from].value).Some? then next == now
             else next == now + PairAt(content, from)
    ensures Knows(target, next, content, from + 2)
  {
    forall name
      ensures First(next, 0, name).Some? <==>
                First(target, 0, name).Some? || exists k :: 0 <= k < from + 2 && Names(content, k, name)
    {
      if next != now {
        FirstAppend(now, PairAt(content, from), 0, name);
        assert First(PairAt(content, from), 2, name).None?;
      }
      assert (exists k :: 0 <= k < from + 2 && Names(content, k, name)) <==>
             Names(content, from, name) || exists k :: 0 <= k < from && Names(content, k, name);
    }
  }

  // The fresh keys of the source from place `from` on stand in r, each with its value, from place base on.
  ghost predicate FreshStand(target: seq<Node?>, content: seq<Node?>, from: nat, r: seq<Node?>, base: nat)
    reads (set n: Node | n in content), (set n: Node | n in target)
  {
    forall q: nat | from <= q && Fresh(target, content, q) ::
      PairOf(content, q, r, base + 2 * FreshFrom(target, content, from, q))
  }

  lemma {:induction false} AddedPairs(target: seq<Node?>, now: seq<Node?>, content: seq<Node?>, from: nat)
    requires from % 2 == 0 && |now| % 2 == 0 && Knows(target, now, content, from)
    ensures now <= AddNew(now, content, from)
    ensures |AddNew(now, content, from)| == |now| + 2 * FreshFrom(target, content, from, |content|)
    ensures FreshStand(target, content, from, AddNew(now, content, from), |now|)
    decreases if from < |content| then |content| - from else 0
  {
    if from < |content| {
      var skip := content[from] == null || First(now, 0, content[from].value).Some?;
      var next := if skip then now else now + PairAt(content, from);
      KnowsMore(target, now, next, content, from);
      AddedPairs(target, next, content, from + 2);
      FreshIsNew(target, now, content, from);
      OneMoreFresh(target, now, next, content, from, AddNew(next, content, from + 2));
    }
  }

  lemma OneMoreFresh(target: seq<Node?>, now: seq<Node?>, next: seq<Node?>, content: seq<Node?>, from: nat,
                     r: seq<Node?>)
    requires from % 2 == 0 && from < |content| && next <= r
    requires next == now + if Fresh(target, content, from) then PairAt(content, from) else []
    requires FreshStand(target, content, from + 2, r, |next|)
    ensures FreshStand(target, content, from, r, |now|)
  {
    forall q: nat | from <= q && Fresh(target, content, q)
      ensures PairOf(content, q, r, |now| + 2 * FreshFrom(target, content, from, q))
    {
      if q == from {
        Before(content, q, next, r, |now|);
      } else {
        assert PairOf(content, q, r, |next| + 2 * FreshFrom(target, content, from + 2, q));
      }
    }
  }

  lemma FreshIsNew(target: seq<Node?>, now: seq<Node?>, content: seq<Node?>, from: nat)
    requires from % 2 == 0 && from < |content| && Knows(target, now, content, from)
    ensures Fresh(target, content, from) <==>
              content[from] != null && First(now, 0, content[from].value).None?
  {}

  // ----- aliases and sources -----

  /** An alias is expanded, and merged, as the node it points to, whatever name it carries. */
  lemma AliasIsItsTarget(a: Node, t: Node, target: seq<Node?>, nodes: set<Node>, rank: map<Node, nat>,
                         visited: set<Node>)
    requires Ranked(nodes, rank) && {a, t} <= nodes && AllInside(target, nodes)
    requires a.kind == Alias && a.alias == t && t.kind != Alias
    ensures Expand(a, nodes, rank, visited) == Expand(t, nodes, rank, visited)
    ensures Append(target, a, nodes, rank, visited) == Append(target, t, nodes, rank, visited)
  {}

  lemma {:induction false} NoMergeKeys(content: seq<Node?>, from: nat)
    requires from % 2 == 0
    ensures HasMergeKeys(content, from) <==> exists i :: from <= i && MergeKey(content, i)
    decreases if from < |content| then |content| - from else 0
  {
    if from < |content| {
      NoMergeKeys(content, from + 2);
      assert IsMerge(content[from]) <==> MergeKey(content, from);
    }
  }

  // A mapping, by its kind or by its tag.
  ghost predicate IsMapping(t: Node)
    reads t
  {
    t.kind == Mapping || (t.tag == "!!map" && t.kind != Sequence && t.kind != Alias)
  }

  /** A mapping without merge keys is its own expansion; what is no mapping, nor tagged as one, has none. */
  lemma PlainIsItself(t: Node, nodes: set<Node>, rank: map<Node, nat>, visited: set<Node>)
    requires Ranked(nodes, rank) && t in nodes && t !in visited && t.kind != Alias
    requires forall i :: !MergeKey(t.content, i)
    ensures IsMapping(t) ==> Expand(t, nodes, rank, visited) == t.content
    ensures t.kind != Mapping && t.tag != "!!map" ==> Expand(t, nodes, rank, visited) == []
  {
    NoMergeKeys(t.content, 0);
  }

  // The one merge key, at p, has this source.
  lemma {:induction false} OneSource(content: seq<Node?>, from: nat, p: nat)
    requires from % 2 == 0 && MergeKey(content, p) && p + 1 < |content|
    requires forall i | MergeKey(content, i) :: i == p
    ensures Sources(content, from) == if from <= p then [content[p + 1]] else []
    decreases if from < |content| then |content| - from else 0
  {
    if from < |content| {
      OneSource(content, from + 2, p);
      assert IsMerge(content[from]) <==> MergeKey(content, from);
    }
  }

  // The source is the mapping itself, or an alias of it.
  ghost predicate PointsTo(source: Node?, t: Node)
    reads source
  {
    source == t || (source != null && source.kind == Alias && source.alias == t)
  }

  // Key q of the source is merged in: no local key and no key before it has its name.
  ghost predicate Taken(locals: seq<Node?>, content: seq<Node?>, q: nat)
    reads (set n: Node | n in content), (set n: Node | n in locals)
  {
    && q % 2 == 0 && q < |content| && content[q] != null
    && (forall i: nat | LocalKey(locals, i) :: locals[i].value != content[q].value)
    && forall k | 0 <= k < q :: !Names(content, k, content[q].value)
  }

  ghost function TakenBefore(locals: seq<Node?>, content: seq<Node?>, from: nat, q: nat): nat
    reads (set n: Node | n in content), (set n: Node | n in locals)
    decreases q - from
  {
    if from >= q then 0
    else (if Taken(locals, content, from) then 1 else 0) + TakenBefore(locals, content, from + 2, q)
  }

  lemma TakenIsFresh(locals: seq<Node?>, content: seq<Node?>, q: nat)
    ensures Taken(locals, content, q) <==> Fresh(Locals(locals, 0), content, q)
  {
    if q < |content| && content[q] != null {
      LocalNames(locals, 0, content[q].value);
      assert forall i: nat | LocalKey(locals, i) :: Names(locals, i, content[q].value) <==>
               locals[i].value == content[q].value;
    }
  }

  lemma {:induction false} TakenCounts(locals: seq<Node?>, content: seq<Node?>, from: nat, q: nat)
    ensures TakenBefore(locals, content, from, q) == FreshFrom(Locals(locals, 0), content, from, q)
    decreases q - from
  {
    if from < q {
      TakenIsFresh(locals, content, from);
      TakenCounts(locals, content, from + 2, q);
    }
  }

  // The pairs of a mapping with those of another one behind them that are taken.
  ghost predicate Joined(own: seq<Node?>, content: seq<Node?>, r: seq<Node?>)
    reads (set n: Node | n in content), (set n: Node | n in own)
  {
    var locals := LocalsFrom(own, 0, |own|);
    && |r| == 2 * (locals + TakenBefore(own, content, 0, |content|))
    && (forall i: nat | LocalKey(own, i) :: PairOf(own, i, r, 2 * LocalsFrom(own, 0, i)))
    && forall q: nat | Taken(own, content, q) ::
         PairOf(content, q, r, 2 * (locals + TakenBefore(own, content, 0, q)))
  }

  lemma AddingJoins(own: seq<Node?>, content: seq<Node?>)
    ensures Joined(own, content, AddNew(Locals(own, 0), content, 0))
  {
    var locals := Locals(own, 0);
    var r := AddNew(locals, content, 0);
    LocalsArePairs(own, 0);
    PartsEven([], own, 0);
    AddedPairs(locals, locals, content, 0);
    TakenCounts(own, content, 0, |content|);
    forall i: nat | LocalKey(own, i) ensures PairOf(own, i, r, 2 * LocalsFrom(own, 0, i)) {
      assert PairOf(own, i, locals, 0 + 2 * LocalsFrom(own, 0, i));
      Before(own, i, locals, r, 2 * LocalsFrom(own, 0, i));
    }
    forall q: nat | Taken(own, content, q)
      ensures PairOf(content, q, r, |locals| + 2 * TakenBefore(own, content, 0, q))
    {
      TakenIsFresh(own, content, q);
      TakenCounts(own, content, 0, q);
    }
  }

  /** A mapping with one merge key, whose value is a mapping without merge keys or an alias of one: first
      all local pairs in their order, each key with its own value, and then the pairs of the merged
      mapping whose names are new, in their order. */
  lemma OneMerge(n: Node, p: nat, t: Node, nodes: set<Node>, rank: map<Node, nat>, visited: set<Node>)
    requires Ranked(nodes, rank) && {n, t} <= nodes && n != t && n !in visited && t !in visited
    requires IsMapping(n) && IsMapping(t) && forall i :: !MergeKey(t.content, i)
    requires MergeKey(n.content, p) && p + 1 < |n.content| && PointsTo(n.content[p + 1], t)
    requires forall i | MergeKey(n.content, i) :: i == p
    ensures Joined(n.content, t.content, Expand(n, nodes, rank, visited))
  {
    var source, seen := n.content[p + 1], visited + {n};
    NoMergeKeys(n.content, 0);
    OneSource(n.content, 0, p);
    ExpandOpen(n, n, nodes, rank, visited);
    assert source in Sources(n.content, 0);
    PlainIsItself(t, nodes, rank, seen);
    OneAppended(Locals(n.content, 0), source, t, nodes, rank, seen);
    AddingJoins(n.content, t.content);
  }

  lemma OneAppended(target: seq<Node?>, source: Node, t: Node, nodes: set<Node>, rank: map<Node, nat>,
                    visited: set<Node>)
    requires Ranked(nodes, rank) && AllInside(target, nodes) && {source, t} <= nodes && PointsTo(source, t)
    requires IsMapping(t) && Expand(t, nodes, rank, visited) == t.content
    ensures AppendAll(target, [source], nodes, rank, visited) == AddNew(target, t.content, 0)
  {
    if source != t { AliasIsItsTarget(source, t, target, nodes, rank, visited); }
    assert [source][1..] == [];
  }
}
