/** What merging an overlay's update into a target means, on plain YAML values. */
module OverlayMerge {
  import opened Common
  import opened YamlNode

  // Everything a node holds but its references.
  datatype Fields = Fields(
    kind: Kind, style: int, tag: string, value: string, anchor: string,
    headComment: string, lineComment: string, footComment: string, line: int, column: int)

  // A mapping has pairs, anything else has items.
  datatype Value = Value(fields: Fields, pairs: seq<Pair>, items: seq<Value>)

  datatype Pair = Pair(key: Value, value: Value) {
    function Name(): string {
      key.fields.value
    }
  }

  // The first pair of that name.
  function Find(pairs: seq<Pair>, name: string): (r: Option<nat>)
    ensures r.Some? ==> r.value < |pairs| && pairs[r.value].Name() == name
    ensures r.Some? ==> forall i | 0 <= i < r.value :: pairs[i].Name() != name
    ensures r.None? ==> forall i | 0 <= i < |pairs| :: pairs[i].Name() != name
  {
    if pairs == [] then None
    else if pairs[0].Name() == name then Some(0)
    else
      match Find(pairs[1..], name)
      case None => None
      case Some(i) => Some(i + 1)
  }

  // A scalar takes over the value alone, and keeps its tag and style.
  function Merge(v: Value, u: Value): Value
    decreases u
  {
    if v.fields.kind != u.fields.kind then u
    else
      match v.fields.kind
      case Mapping => v.(pairs := MergePairs(v.pairs, u.pairs))
      case Sequence => v.(items := v.items + u.items)
      case _ => v.(fields := v.fields.(value := u.fields.value))
  }

  function MergePairs(ps: seq<Pair>, qs: seq<Pair>): seq<Pair>
    decreases qs
  {
    if qs == [] then ps else MergePairs(MergePair(ps, qs[0]), qs[1..])
  }

  function MergePair(ps: seq<Pair>, q: Pair): seq<Pair>
    decreases q
  {
    match Find(ps, q.Name())
    case None => ps + [q]
    case Some(j) => ps[j := Pair(ps[j].key, Merge(ps[j].value, q.value))]
  }

  // ----- the keys of a merged mapping -----

  function Names(ps: seq<Pair>): (r: seq<string>)
    ensures |r| == |ps| && forall i | 0 <= i < |ps| :: r[i] == ps[i].Name()
  {
    seq(|ps|, i requires 0 <= i < |ps| => ps[i].Name())
  }

  // The names not there yet, each once, in order.
  function NewNames(have: seq<string>, names: seq<string>): seq<string>
    decreases names
  {
    if names == [] then []
    else if names[0] in have then NewNames(have, names[1..])
    else [names[0]] + NewNames(have + [names[0]], names[1..])
  }

  /** Existing keys stay in place, and the update's new keys follow in its order, each once. */
  lemma {:induction false} KeysStayInPlace(ps: seq<Pair>, qs: seq<Pair>)
    ensures Names(MergePairs(ps, qs)) == Names(ps) + NewNames(Names(ps), Names(qs))
    ensures |MergePairs(ps, qs)| >= |ps| && forall i | 0 <= i < |ps| :: MergePairs(ps, qs)[i].key == ps[i].key
    decreases |qs|
  {
    if qs != [] {
      var next := MergePair(ps, qs[0]);
      KeysStayInPlace(next, qs[1..]);
      assert Names(qs)[1..] == Names(qs[1..]) && Names(qs)[0] == qs[0].Name();
      match Find(ps, qs[0].Name())
      case None =>
        assert Names(next) == Names(ps) + [qs[0].Name()];
      case Some(j) =>
        assert Names(next) == Names(ps) && Names(ps)[j] == qs[0].Name();
    }
  }

  // ----- the values of a merged mapping -----

  function Lookup(ps: seq<Pair>, name: string): Option<Value> {
    match Find(ps, name)
    case None => None
    case Some(i) => Some(ps[i].value)
  }

  // What the pairs of that name make of a value, one after the other.
  function MergeAll(v: Option<Value>, qs: seq<Pair>, name: string): Option<Value>
    decreases |qs|
  {
    if qs == [] then v
    else if qs[0].Name() != name then MergeAll(v, qs[1..], name)
    else MergeAll(Some(if v.Some? then Merge(v.value, qs[0].value) else qs[0].value), qs[1..], name)
  }

  lemma LookupOfPair(ps: seq<Pair>, q: Pair, name: string)
    ensures Lookup(MergePair(ps, q), name) == MergeAll(Lookup(ps, name), [q], name)
  {
    var next := MergePair(ps, q);
    match Find(ps, q.Name())
    case None =>
      assert forall i | 0 <= i < |ps| :: next[i] == ps[i];
      assert next[|ps|] == q;
    case Some(j) =>
      assert forall i | 0 <= i < |ps| :: next[i].Name() == ps[i].Name();
  }

  /** Every key's value is what it was, merged with the update's values for that key. */
  lemma {:induction false} LookupOfMerge(ps: seq<Pair>, qs: seq<Pair>, name: string)
    ensures Lookup(MergePairs(ps, qs), name) == MergeAll(Lookup(ps, name), qs, name)
    decreases |qs|
  {
    if qs != [] {
      LookupOfPair(ps, qs[0], name);
      LookupOfMerge(MergePair(ps, qs[0]), qs[1..], name);
    }
  }

  // ----- doing it twice -----

  predicate DistinctNames(ps: seq<Pair>) {
    forall i, j | 0 <= i < j < |ps| :: ps[i].Name() != ps[j].Name()
  }

  // No mapping that the update merges has a key twice.
  predicate DistinctKeys(u: Value) {
    u.fields.kind.Mapping? ==> DistinctNames(u.pairs) && forall i | 0 <= i < |u.pairs| :: DistinctKeys(u.pairs[i].value)
  }

  // The update would append something to a sequence.
  predicate HasItems(u: Value) {
    if u.fields.kind.Sequence? then u.items != []
    else u.fields.kind.Mapping? && exists i | 0 <= i < |u.pairs| :: HasItems(u.pairs[i].value)
  }

  // Merging the pair changes nothing.
  predicate Absorbed(ps: seq<Pair>, q: Pair) {
    && Find(ps, q.Name()).Some?
    && var v := ps[Find(ps, q.Name()).value].value;
       Merge(v, q.value) == v
  }

  lemma FindIs(ps: seq<Pair>, j: nat)
    requires j < |ps| && forall i | 0 <= i < j :: ps[i].Name() != ps[j].Name()
    ensures Find(ps, ps[j].Name()) == Some(j)
  {}

  // An absorbed pair stays absorbed when a pair of another name is merged.
  lemma StaysAbsorbed(ps: seq<Pair>, q: Pair, other: Pair)
    requires Absorbed(ps, q) && other.Name() != q.Name()
    ensures Absorbed(MergePair(ps, other), q)
  {
    var next, j := MergePair(ps, other), Find(ps, q.Name()).value;
    assert next[j] == ps[j] && forall i | 0 <= i < j :: next[i].Name() == ps[i].Name();
    FindIs(next, j);
  }

  lemma BecomesAbsorbed(ps: seq<Pair>, q: Pair)
    requires Merge(q.value, q.value) == q.value
    requires Lookup(ps, q.Name()).Some? ==>
               var v := Lookup(ps, q.Name()).value; Merge(Merge(v, q.value), q.value) == Merge(v, q.value)
    ensures Absorbed(MergePair(ps, q), q)
  {
    var next := MergePair(ps, q);
    match Find(ps, q.Name())
    case None =>
      assert next[|ps|] == q && forall i | 0 <= i < |ps| :: next[i] == ps[i];
      FindIs(next, |ps|);
    case Some(j) =>
      assert forall i | 0 <= i < |ps| :: next[i].Name() == ps[i].Name();
      FindIs(next, j);
  }

  lemma {:induction false} AbsorbedChangeNothing(ps: seq<Pair>, qs: seq<Pair>)
    requires forall i | 0 <= i < |qs| :: Absorbed(ps, qs[i])
    ensures MergePairs(ps, qs) == ps
    decreases |qs|
  {
    if qs != [] {
      var j := Find(ps, qs[0].Name()).value;
      assert Absorbed(ps, qs[0]);
      assert ps[j := Pair(ps[j].key, ps[j].value)] == ps;
      forall i | 0 <= i < |qs| - 1 ensures Absorbed(ps, qs[1..][i]) {
        assert qs[1..][i] == qs[i + 1];
      }
      AbsorbedChangeNothing(ps, qs[1..]);
    }
  }

  lemma {:induction false} StayAbsorbed(ps: seq<Pair>, q: Pair, qs: seq<Pair>)
    requires Absorbed(ps, q) && forall i | 0 <= i < |qs| :: qs[i].Name() != q.Name()
    ensures Absorbed(MergePairs(ps, qs), q)
    decreases |qs|
  {
    if qs != [] {
      StaysAbsorbed(ps, q, qs[0]);
      StayAbsorbed(MergePair(ps, qs[0]), q, qs[1..]);
    }
  }

  // An update that keeps its own values, and whose values are idempotent.
  ghost predicate Settles(q: Pair) {
    && Merge(q.value, q.value) == q.value
    && forall v :: Merge(Merge(v, q.value), q.value) == Merge(v, q.value)
  }

  lemma {:induction false} AllAbsorbed(ps: seq<Pair>, qs: seq<Pair>)
    requires DistinctNames(qs) && forall i | 0 <= i < |qs| :: Settles(qs[i])
    ensures forall i | 0 <= i < |qs| :: Absorbed(MergePairs(ps, qs), qs[i])
    decreases |qs|
  {
    if qs != [] {
      assert Settles(qs[0]);
      BecomesAbsorbed(ps, qs[0]);
      var next := MergePair(ps, qs[0]);
      StayAbsorbed(next, qs[0], qs[1..]);
      AllAbsorbed(next, qs[1..]);
      forall i | 0 <= i < |qs| ensures Absorbed(MergePairs(ps, qs), qs[i]) {
        if i > 0 { assert qs[i] == qs[1..][i - 1]; }
      }
    }
  }

  // A mapping absorbs its own pairs if their values do.
  lemma OwnPairs(ps: seq<Pair>)
    requires DistinctNames(ps) && forall i | 0 <= i < |ps| :: Merge(ps[i].value, ps[i].value) == ps[i].value
    ensures MergePairs(ps, ps) == ps
  {
    forall i | 0 <= i < |ps| ensures Absorbed(ps, ps[i]) { FindIs(ps, i); }
    AbsorbedChangeNothing(ps, ps);
  }

  lemma {:induction false} MergeWithItself(u: Value)
    requires DistinctKeys(u) && !HasItems(u)
    ensures Merge(u, u) == u
    decreases u
  {
    if u.fields.kind.Mapping? {
      forall i | 0 <= i < |u.pairs| ensures Merge(u.pairs[i].value, u.pairs[i].value) == u.pairs[i].value {
        MergeWithItself(u.pairs[i].value);
      }
      OwnPairs(u.pairs);
    } else if u.fields.kind.Sequence? {
      assert u.items + u.items == u.items;
    }
  }

  lemma {:induction false} Idempotent(v: Value, u: Value)
    requires DistinctKeys(u) && !HasItems(u)
    ensures Merge(Merge(v, u), u) == Merge(v, u)
    decreases u
  {
    if v.fields.kind != u.fields.kind {
      MergeWithItself(u);
    } else if u.fields.kind.Mapping? {
      forall i | 0 <= i < |u.pairs| ensures Settles(u.pairs[i]) {
        var value := u.pairs[i].value;
        MergeWithItself(value);
        forall w ensures Merge(Merge(w, value), value) == Merge(w, value) { Idempotent(w, value); }
      }
      AllAbsorbed(v.pairs, u.pairs);
      AbsorbedChangeNothing(MergePairs(v.pairs, u.pairs), u.pairs);
    } else if u.fields.kind.Sequence? {
      assert v.items + u.items + u.items == v.items + u.items;
    }
  }

  lemma {:induction false} ItemsAreAppended(u: Value)
    requires DistinctKeys(u) && HasItems(u)
    ensures Merge(u, u) != u
    decreases u
  {
    if u.fields.kind.Sequence? {
      assert |u.items + u.items| > |u.items|;
    } else {
      var i :| 0 <= i < |u.pairs| && HasItems(u.pairs[i].value);
      var q := u.pairs[i];
      ItemsAreAppended(q.value);
      LookupOfMerge(u.pairs, u.pairs, q.Name());
      OnlyPair(Some(q.value), u.pairs, i);
      FindIs(u.pairs, i);
    }
  }

  lemma {:induction false} OnlyPair(v: Option<Value>, qs: seq<Pair>, i: nat)
    requires DistinctNames(qs) && i < |qs|
    ensures MergeAll(v, qs, qs[i].Name()) == Some(if v.Some? then Merge(v.value, qs[i].value) else qs[i].value)
    decreases |qs|
  {
    var name := qs[i].Name();
    if i == 0 {
      var merged := if v.Some? then Merge(v.value, qs[0].value) else qs[0].value;
      assert MergeAll(v, qs, name) == MergeAll(Some(merged), qs[1..], name);
      NoPair(Some(merged), qs[1..], name);
    } else {
      assert qs[1..][i - 1] == qs[i] && qs[0].Name() != name;
      assert MergeAll(v, qs, name) == MergeAll(v, qs[1..], name);
      OnlyPair(v, qs[1..], i - 1);
    }
  }

  lemma {:induction false} NoPair(v: Option<Value>, qs: seq<Pair>, name: string)
    requires forall i | 0 <= i < |qs| :: qs[i].Name() != name
    ensures MergeAll(v, qs, name) == v
    decreases |qs|
  {
    if qs != [] { NoPair(v, qs[1..], name); }
  }

  // Merging the update a second time changes nothing.
  predicate Repeatable(v: Value, u: Value) {
    Merge(Merge(v, u), u) == Merge(v, u)
  }

  /** An update without repeated keys can be applied twice with the same outcome, on every
      target, exactly if it has no sequence items. */
  lemma IdempotentWithoutItems(u: Value)
    requires DistinctKeys(u)
    ensures (forall v :: Repeatable(v, u)) <==> !HasItems(u)
  {
    if HasItems(u) {
      var v := Value(u.fields.(kind := if u.fields.kind.Scalar? then Alias else Scalar), [], []);
      ItemsAreAppended(u);
      assert !Repeatable(v, u);
    } else {
      forall v ensures Repeatable(v, u) { Idempotent(v, u); }
    }
  }
}
