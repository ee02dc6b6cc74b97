/**
 HashNode: the stream of bytes an explicit-stack traversal feeds to the hasher is the one
 of a recursive depth-first preorder that skips nodes it has been to.
 */
module HashNode {
  import opened YamlNode

  // ----- decimal numbers, written backwards into a fixed buffer -----

  const INT64_LIMIT: int := 0x8000_0000_0000_0000

  function Digit(d: nat): char
    requires d < 10
  {
    '0' + d as char
  }

  // The shortest decimal numeral of n.
  function Decimal(n: nat): (s: string)
    ensures |s| >= 1
  {
    if n < 10 then [Digit(n)] else Decimal(n / 10) + [Digit(n % 10)]
  }

  // What writeIntToHash writes: nothing for a negative number.
  function Written(n: int): string {
    if n < 0 then "" else Decimal(n)
  }

  predicate IsDigit(c: char) {
    '0' <= c <= '9'
  }

  function DigitValue(c: char): nat
    requires IsDigit(c)
  {
    c as int - '0' as int
  }

  // The number a string of digits stands for.
  function Value(s: string): nat
    requires forall c | c in s :: IsDigit(c)
  {
    if s == "" then 0
    else
      assert s[|s| - 1] in s;
      10 * Value(s[..|s| - 1]) + DigitValue(s[|s| - 1])
  }

  // Numerals mean the number they were made from, and carry no leading zero.
  lemma {:induction false} DecimalMeans(n: nat)
    ensures forall c | c in Decimal(n) :: IsDigit(c)
    ensures Value(Decimal(n)) == n
    ensures n > 0 ==> Decimal(n)[0] != '0'
  {
    var s := Decimal(n);
    if n >= 10 {
      DecimalMeans(n / 10);
      assert s[..|s| - 1] == Decimal(n / 10);
    } else {
      assert s[..0] == "";
    }
  }

  lemma {:induction false} DecimalFits(n: nat, width: nat, limit: nat)
    requires n < limit && limit == Power10(width)
    requires width >= 1
    ensures |Decimal(n)| <= width
  {
    if n >= 10 { DecimalFits(n / 10, width - 1, limit / 10); }
  }

  function Power10(n: nat): nat {
    if n == 0 then 1 else 10 * Power10(n - 1)
  }

  // Everything that was written to the hasher since it was reset.
  class Hasher {
    var written: string

    constructor ()
      ensures written == ""
    {
      written := "";
    }

    method WriteString(s: string)
      modifies this
      ensures written == old(written) + s
    {
      written := written + s;
    }

    method WriteInt(n: int)
      requires -INT64_LIMIT <= n < INT64_LIMIT
      modifies this
      ensures written == old(written) + Written(n)
    {
      if n == 0 {
        assert Decimal(0) == "0";
        WriteString("0");
        return;
      }
      var buf := new char[20];
      var i, rest := buf.Length, n;
      ghost var done := "";
      FitsBuffer(n);
      while rest > 0
        invariant 0 <= i <= 20 && written == old(written)
        invariant |Unless0(rest)| <= i
        invariant Unless0(n) == Unless0(rest) + done && buf[i..] == done
      {
        LastDigit(n, rest, done);
        i := i - 1;
        buf[i] := Digit(rest % 10);
        done := [Digit(rest % 10)] + done;
        rest := rest / 10;
      }
      assert Written(n) == buf[i..];
      WriteString(buf[i..]);
    }
  }

  // The digits the loop of WriteInt has yet to write.
  function Unless0(n: int): string {
    if n <= 0 then "" else Decimal(n)
  }

  lemma LastDigit(n: int, rest: int, tail: string)
    requires rest > 0 && Unless0(n) == Unless0(rest) + tail
    ensures Unless0(n) == Unless0(rest / 10) + ([Digit(rest % 10)] + tail)
    ensures |Unless0(rest)| == |Unless0(rest / 10)| + 1
  {
    assert Unless0(rest) == Unless0(rest / 10) + [Digit(rest % 10)];
  }

  lemma FitsBuffer(n: int)
    requires n < INT64_LIMIT
    ensures |Unless0(n)| <= 20
  {
    if n > 0 {
      PowerOf20();
      DecimalFits(n, 20, Power10(20));
    }
  }

  lemma PowerOf20()
    ensures Power10(20) == 100_000_000_000_000_000_000
  {
    assert Power10(5) == 100_000;
    assert Power10(10) == 10_000_000_000;
    assert Power10(15) == 1_000_000_000_000_000;
  }

  // ----- the traversal -----

  // What one node adds to the stream.
  function Emit(n: Node): string
    reads n
  {
    n.tag + Written(n.line) + Written(n.column) + n.value
  }

  datatype Walk = Walk(stream: string, visited: set<Node>)

  // The recursive preorder from one node, and over a list of nodes, visited nodes left out.
  ghost function Dfs(n: Node?, visited: set<Node>, nodes: set<Node>): (w: Walk)
    requires Closed(nodes) && (n == null || n in nodes)
    reads nodes
    ensures visited <= w.visited
    decreases nodes - visited, 0
  {
    if n == null || n in visited then Walk("", visited)
    else
      assert Inside(n, nodes);
      assert nodes - (visited + {n}) < nodes - visited by { assert n in nodes - visited; }
      var below := DfsAll(n.content, visited + {n}, nodes);
      Walk(Emit(n) + below.stream, below.visited)
  }

  ghost function DfsAll(list: seq<Node?>, visited: set<Node>, nodes: set<Node>): (w: Walk)
    requires Closed(nodes) && forall c | c in list :: c == null || c in nodes
    reads nodes
    ensures visited <= w.visited
    decreases nodes - visited, |list| + 1
  {
    if list == [] then Walk("", visited)
    else
      var first := Dfs(list[0], visited, nodes);
      var rest := DfsAll(list[1..], first.visited, nodes);
      Walk(first.stream + rest.stream, rest.visited)
  }

  lemma {:induction false} DfsAllAppend(a: seq<Node?>, b: seq<Node?>, visited: set<Node>, nodes: set<Node>)
    requires Closed(nodes) && forall c | c in a + b :: c == null || c in nodes
    ensures
      var first := DfsAll(a, visited, nodes);
      var rest := DfsAll(b, first.visited, nodes);
      DfsAll(a + b, visited, nodes) == Walk(first.stream + rest.stream, rest.visited)
    decreases |a|
  {
    if a == [] {
      assert a + b == b;
    } else {
      var first := Dfs(a[0], visited, nodes);
      assert (a + b)[1..] == a[1..] + b;
      DfsAllAppend(a[1..], b, first.visited, nodes);
    }
  }

  function Reversed(s: seq<Node?>): seq<Node?> {
    if s == [] then [] else [s[|s| - 1]] + Reversed(s[..|s| - 1])
  }

  lemma {:induction false} ReversedMembers(s: seq<Node?>, n: Node?)
    ensures n in Reversed(s) <==> n in s
  {
    if s != [] {
      ReversedMembers(s[..|s| - 1], n);
      assert s == s[..|s| - 1] + [s[|s| - 1]];
    }
  }

  // Popping an unvisited node and pushing its children leaves the rest of the walk as it was.
  lemma ExpandTop(n: Node, rest: seq<Node?>, visited: set<Node>, nodes: set<Node>)
    requires Closed(nodes) && n in nodes && n !in visited
    requires forall c | c in rest :: c == null || c in nodes
    ensures forall c | c in n.content + rest :: c == null || c in nodes
    ensures
      var before := DfsAll([n] + rest, visited, nodes);
      var after := DfsAll(n.content + rest, visited + {n}, nodes);
      before == Walk(Emit(n) + after.stream, after.visited)
  {
    assert Inside(n, nodes);
    forall c | c in n.content + rest ensures c == null || c in nodes {}
    assert ([n] + rest)[1..] == rest;
    DfsAllAppend(n.content, rest, visited + {n}, nodes);
  }

  // Lines and columns are Go ints.
  ghost predicate Positions(nodes: set<Node>)
    reads nodes
  {
    forall n | n in nodes :: -INT64_LIMIT <= n.line < INT64_LIMIT && -INT64_LIMIT <= n.column < INT64_LIMIT
  }

  method WriteNode(h: Hasher, n: Node)
    requires -INT64_LIMIT <= n.line < INT64_LIMIT && -INT64_LIMIT <= n.column < INT64_LIMIT
    modifies h
    ensures h.written == old(h.written) + Emit(n)
  {
    h.WriteString(n.tag);
    h.WriteInt(n.line);
    h.WriteInt(n.column);
    h.WriteString(n.value);
  }

  method PushChildren(stack0: seq<Node?>, content: seq<Node?>) returns (stack: seq<Node?>)
    ensures Reversed(stack) == content + Reversed(stack0)
  {
    stack := stack0;
    for i := |content| downto 0
      invariant Reversed(stack) == content[i..] + Reversed(stack0)
    {
      assert (stack + [content[i]])[..|stack|] == stack;
      stack := stack + [content[i]];
    }
  }

  // A node already visited adds nothing.
  lemma SkipTop(n: Node?, rest: seq<Node?>, visited: set<Node>, nodes: set<Node>)
    requires Closed(nodes) && (n == null || (n in visited && n in nodes))
    requires forall c | c in rest :: c == null || c in nodes
    ensures forall c | c in [n] + rest :: c == null || c in nodes
    ensures DfsAll([n] + rest, visited, nodes).stream == DfsAll(rest, visited, nodes).stream
  {
    assert ([n] + rest)[1..] == rest;
    assert Dfs(n, visited, nodes).stream == "";
  }

  lemma OneAlone(n: Node, nodes: set<Node>)
    requires Closed(nodes) && n in nodes
    ensures DfsAll([n], {}, nodes).stream == Dfs(n, {}, nodes).stream
  {
    assert [n][1..] == [];
    assert DfsAll([n], {}, nodes).stream == Dfs(n, {}, nodes).stream + "";
  }

  // Writing a node and pushing its children leaves the whole stream as it was.
  lemma EmitTop(written: string, n: Node, rest: seq<Node?>, visited: set<Node>, nodes: set<Node>)
    requires Closed(nodes) && n in nodes && n !in visited
    requires forall c | c in rest :: c == null || c in nodes
    ensures forall c | c in n.content + rest :: c == null || c in nodes
    ensures written + DfsAll([n] + rest, visited, nodes).stream ==
            written + Emit(n) + DfsAll(n.content + rest, visited + {n}, nodes).stream
  {
    ExpandTop(n, rest, visited, nodes);
    Associate(written, Emit(n), DfsAll(n.content + rest, visited + {n}, nodes).stream);
  }

  lemma Associate(a: string, b: string, c: string)
    ensures a + (b + c) == (a + b) + c
  {}

  /** The stack loop writes the stream of the recursive preorder, on any finite graph. */
  method Feed(n: Node, h: Hasher, ghost nodes: set<Node>)
    requires Closed(nodes) && Positions(nodes) && n in nodes
    modifies h
    ensures h.written == old(h.written) + Dfs(n, {}, nodes).stream
  {
    var stack: seq<Node?> := [n];
    var visited: set<Node> := {};
    ghost var list: seq<Node?> := [n];
    OneAlone(n, nodes);
    while stack != []
      invariant list == Reversed(stack)
      invariant forall c | c in list :: c == null || c in nodes
      invariant h.written + DfsAll(list, visited, nodes).stream == old(h.written) + Dfs(n, {}, nodes).stream
      decreases nodes - visited, |stack|
    {
      var node := stack[|stack| - 1];
      stack := stack[..|stack| - 1];
      ghost var rest := Reversed(stack);
      assert list == [node] + rest;
      assert forall c | c in rest :: c in list;
      if node == null || node in visited {
        SkipTop(node, rest, visited, nodes);
        list := rest;
        continue;
      }
      EmitTop(h.written, node, rest, visited, nodes);
      visited := visited + {node};
      WriteNode(h, node);
      stack := PushChildren(stack, node.content);
      list := node.content + rest;
    }
  }

  // ----- the stream of simple nodes, by their fields -----

  // The text writes the number in decimal digits without a leading zero; a negative one is not written.
  ghost predicate Writes(text: string, n: int) {
    if n < 0 then text == ""
    else
      && text != "" && (forall c | c in text :: IsDigit(c)) && Value(text) == n
      && (text[0] == '0' ==> text == "0")
  }

  // Tag, line, column and value of a node, one after the other.
  ghost predicate Describes(text: string, n: Node)
    reads n
  {
    exists line, column :: Writes(line, n.line) && Writes(column, n.column) && text == n.tag + line + column + n.value
  }

  lemma WrittenWrites(n: int)
    ensures Writes(Written(n), n)
  {
    if n >= 0 { DecimalMeans(n); }
  }

  lemma EmitDescribes(n: Node)
    ensures Describes(Emit(n), n)
  {
    WrittenWrites(n.line);
    WrittenWrites(n.column);
  }

  // Different nodes without children, in order.
  ghost predicate Leaves(list: seq<Node?>, visited: set<Node>)
    reads set n: Node | n in list
  {
    && (forall i | 0 <= i < |list| :: list[i] != null && list[i].content == [] && list[i] !in visited)
    && forall i, j | 0 <= i < j < |list| :: list[i] != list[j]
  }

  // The texts of the nodes, one after the other.
  ghost predicate DescribesAll(text: string, list: seq<Node?>)
    reads set n: Node | n in list
    decreases |list|
  {
    if list == [] then text == ""
    else
      exists k: nat :: k <= |text| && StartsWith(text[..k], list[0]) && DescribesAll(text[k..], list[1..])
  }

  ghost predicate StartsWith(text: string, n: Node?)
    reads n
  {
    n != null && Describes(text, n)
  }

  // The text of a node, and behind it those of its children.
  ghost predicate DescribesWithChildren(text: string, n: Node)
    reads n, n.content
  {
    exists k: nat :: k <= |text| && StartsWith(text[..k], n) && DescribesAll(text[k..], n.content)
  }

  lemma {:induction false} LeavesDescribed(list: seq<Node?>, visited: set<Node>, nodes: set<Node>)
    requires Closed(nodes) && Leaves(list, visited) && forall c | c in list :: c != null && c in nodes
    ensures DescribesAll(DfsAll(list, visited, nodes).stream, list)
    decreases |list|
  {
    if list != [] {
      var n: Node, rest := list[0], list[1..];
      var all := DfsAll(list, visited, nodes).stream;
      var first := Dfs(n, visited, nodes);
      assert n.content == [] && DfsAll(n.content, visited + {n}, nodes) == Walk("", visited + {n});
      assert first.stream == Emit(n) && first.visited == visited + {n};
      assert Leaves(rest, visited + {n}) by {
        assert forall i | 0 <= i < |rest| :: rest[i] == list[i + 1];
      }
      LeavesDescribed(rest, visited + {n}, nodes);
      EmitDescribes(n);
      var k := |Emit(n)|;
      assert all[..k] == Emit(n) && all[k..] == DfsAll(rest, visited + {n}, nodes).stream;
    }
  }

  /** A node whose children are different nodes without children: its own tag, line, column and value, and
      then those of its children in order. A node without children is the simplest case. */
  lemma ParentThenChildren(n: Node, nodes: set<Node>)
    requires Closed(nodes) && n in nodes && Leaves(n.content, {n})
    ensures DescribesWithChildren(Dfs(n, {}, nodes).stream, n)
  {
    assert Inside(n, nodes);
    LeavesDescribed(n.content, {n}, nodes);
    EmitDescribes(n);
    var all, k := Dfs(n, {}, nodes).stream, |Emit(n)|;
    assert {} + {n} == {n};
    assert all == Emit(n) + DfsAll(n.content, {n}, nodes).stream;
    assert all[..k] == Emit(n) && all[k..] == DfsAll(n.content, {n}, nodes).stream;
    assert StartsWith(all[..k], n) && DescribesAll(all[k..], n.content);
  }

  const HASH_CACHE_THRESHOLD := 20

  // The cache of hashes by node; sum is the hash function.
  class NodeHasher {
    const sum: string -> string
    var cache: map<Node, string>

    constructor (sum: string -> string)
      ensures this.sum == sum && cache == map[]
    {
      this.sum := sum;
      cache := map[];
    }

    // Nodes are not changed after being cached.
    ghost predicate Valid(nodes: set<Node>)
      reads this, nodes
    {
      && Closed(nodes)
      && forall n | n in cache :: Correct(n, cache[n], nodes)
    }

    ghost predicate Correct(n: Node, hash: string, nodes: set<Node>)
      requires Closed(nodes)
      reads nodes
    {
      n in nodes && hash == sum(Dfs(n, {}, nodes).stream)
    }

    method HashUncached(n: Node, ghost nodes: set<Node>) returns (result: string)
      requires Closed(nodes) && Positions(nodes) && n in nodes
      ensures result == sum(Dfs(n, {}, nodes).stream)
    {
      var h := new Hasher();
      Feed(n, h, nodes);
      assert h.written == Dfs(n, {}, nodes).stream;
      result := sum(h.written);
    }

    /** Cached or not, the hash is that of the recursive preorder stream of the node's graph. */
    method HashNode(n: Node?, ghost nodes: set<Node>) returns (result: string)
      requires Valid(nodes) && Positions(nodes) && (n == null || n in nodes)
      modifies this`cache
      ensures Valid(nodes)
      ensures if n == null then result == sum("") else Correct(n, result, nodes)
    {
      if n == null { return sum(""); }
      if n in cache { return cache[n]; }
      result := HashUncached(n, nodes);
      if |n.content| >= HASH_CACHE_THRESHOLD { cache := cache[n := result]; }
    }
  }
}
