/** `CST`: a concrete-syntax-tree node holding an optional token and an
    append-only list of children, with cyclic child indexing and a
    breadth-first rendering in Graphviz `dot` line format. */
module Cst {
  import opened Wrappers
  import opened Tokens

  /** A node: its token (none for the root) and its children in order.
      The token is fixed when the node is made. */
  datatype Node = Node(token: Option<Token>, children: seq<Node>)

  /** `new CST(token)`: a node without children. */
  function Leaf(t: Option<Token>): (n: Node)
    ensures n.token == t && n.children == []
  {
    Node(t, [])
  }

  /** `child(cst)`: the parent after `c` is appended, and the returned
      node, which is `c` itself. */
  function Child(node: Node, c: Node): (r: (Node, Node))
    ensures r.1 == c
    ensures r.0.token == node.token
    ensures |r.0.children| == |node.children| + 1
    ensures forall i :: 0 <= i < |node.children| ==> r.0.children[i] == node.children[i]
    ensures r.0.children[|node.children|] == c
  {
    (node.(children := node.children + [c]), c)
  }

  /** `child(token)`: appends a fresh leaf for `t` and returns it. */
  function ChildToken(node: Node, t: Token): (r: (Node, Node))
    ensures r.1.token == Some(t) && r.1.children == []
    ensures r.0.token == node.token
    ensures |r.0.children| == |node.children| + 1
    ensures forall i :: 0 <= i < |node.children| ==> r.0.children[i] == node.children[i]
    ensures r.0.children[|node.children|] == r.1
  {
    Child(node, Leaf(Some(t)))
  }

  // ---------------------------------------------------------------------
  // ith

  /** Java's `/` on a positive divisor: division truncating toward zero. */
  function JavaDiv(a: int, n: int): int
    requires n > 0
  {
    if a >= 0 then a / n else -((-a) / n)
  }

  /** Java's `%` on a positive divisor: the remainder of truncating
      division, which takes the sign of the dividend and completes
      `JavaDiv` to `a` (section 15.17.3 of the Java Language
      Specification). */
  function JavaRem(a: int, n: int): (r: int)
    requires n > 0
    ensures a >= 0 ==> 0 <= r < n
    ensures a < 0 ==> -n < r <= 0
    ensures a == JavaDiv(a, n) * n + r
  {
    if a >= 0 then a % n
    else
      var q := (-a) / n;
      assert -a == q * n + (-a) % n;
      assert -(q * n) == (-q) * n;
      -((-a) % n)
  }

  lemma MulBound(n: int, d: int)
    requires n > 0
    ensures d >= 1 ==> n * d >= n
    ensures d <= -1 ==> n * d <= -n
  {
    if d >= 1 {
      assert n * d == n + n * (d - 1);
    } else if d <= -1 {
      assert n * d == -n + n * (d + 1);
    }
  }

  /** Dafny's `%` is the Euclidean remainder: the only value in `[0, n)`
      that differs from `a` by a multiple of `n`. */
  lemma ModUnique(a: int, n: int, q: int, k: int)
    requires n > 0 && 0 <= k < n && a == q * n + k
    ensures a % n == k
  {
    var d := a / n - q;
    assert n * d == k - a % n;
    MulBound(n, d);
  }

  /** `ith(i)`: null without children; otherwise `i % n` in Java's sense,
      moved into `[0, n)` by adding `n` when negative. That is the
      Euclidean remainder, so `ith(-1)` is the last child and `ith(n)`
      the first. */
  function Ith(node: Node, i: int): (r: Option<Node>)
    ensures r.None? <==> node.children == []
    ensures r.Some? ==> r.value == node.children[i % |node.children|]
  {
    if node.children == [] then None
    else
      var n := |node.children|;
      var j := JavaRem(i, n);
      var k := if j < 0 then j + n else j;
      var q := JavaDiv(i, n);
      assert i % n == k by {
        if j < 0 {
          assert (q - 1) * n == q * n - n;
          ModUnique(i, n, q - 1, k);
        } else {
          ModUnique(i, n, q, k);
        }
      }
      Some(node.children[k])
  }

  lemma IthLastAndFirst(node: Node)
    requires node.children != []
    ensures Ith(node, -1) == Some(node.children[|node.children| - 1])
    ensures Ith(node, |node.children|) == Some(node.children[0])
  {
  }

  // ---------------------------------------------------------------------
  // toString

  /** `replaceAll("\"", "\\\\\"")`: every double quote gets a backslash in
      front of it. */
  function Escape(s: string): (r: string)
    ensures |r| >= |s|
  {
    if s == [] then []
    else (if s[0] == '"' then ['\\', '"'] else [s[0]]) + Escape(s[1..])
  }

  /** Reading an escaped label back: a backslash followed by a double
      quote stands for the quote. */
  function Unescape(s: string): string
    decreases |s|
  {
    if s == [] then []
    else if |s| >= 2 && s[0] == '\\' && s[1] == '"' then ['"'] + Unescape(s[2..])
    else [s[0]] + Unescape(s[1..])
  }

  lemma EscapeHead(s: string)
    ensures Escape(s) == [] || Escape(s)[0] != '"'
  {
  }

  /** Escaping loses nothing: the label text can be read back. */
  lemma {:induction false} UnescapeEscape(s: string)
    ensures Unescape(Escape(s)) == s
  {
    if s != [] {
      var rest := Escape(s[1..]);
      UnescapeEscape(s[1..]);
      if s[0] == '"' {
        assert Escape(s) == ['\\', '"'] + rest;
        assert Escape(s)[2..] == rest;
      } else {
        EscapeHead(s[1..]);
        assert Escape(s) == [s[0]] + rest;
        assert Escape(s)[1..] == rest;
      }
    }
  }

  /** The text inside `[label="..."]`: `ROOT` without a token, otherwise
      the kind's name, a colon and the escaped text. */
  function Label(node: Node): string
  {
    match node.token
    case None => "ROOT"
    case Some(t) => Name(t.kind) + ": " + Escape(t.text)
  }

  /** One output line. Nodes are named by `hashCode` in the source; here a
      line refers to the node itself. */
  datatype Line = NodeLine(node: Node, caption: string) | EdgeLine(parent: Node, child: Node)

  function Size(n: Node): nat
    decreases n, 1
  {
    1 + SizeAll(n.children)
  }

  /** The number of nodes in the trees of `ns`. */
  function SizeAll(ns: seq<Node>): nat
    decreases ns, 0
  {
    if ns == [] then 0 else Size(ns[0]) + SizeAll(ns[1..])
  }

  lemma {:induction false} SizeAllAppend(a: seq<Node>, b: seq<Node>)
    ensures SizeAll(a + b) == SizeAll(a) + SizeAll(b)
    decreases |a|
  {
    if a == [] {
      assert a + b == b;
    } else {
      assert (a + b)[1..] == a[1..] + b;
      SizeAllAppend(a[1..], b);
    }
  }

  /** The `parent -> child` lines of one node, in child order. */
  function Edges(parent: Node, cs: seq<Node>): (r: seq<Line>)
    ensures |r| == |cs|
    ensures forall i :: 0 <= i < |cs| ==> r[i] == EdgeLine(parent, cs[i])
  {
    if cs == [] then [] else [EdgeLine(parent, cs[0])] + Edges(parent, cs[1..])
  }

  /** The `while (!pending.isEmpty())` loop: take the first pending node,
      emit its label line and its edge lines, queue its children. */
  function Bfs(pending: seq<Node>): seq<Line>
    decreases SizeAll(pending)
  {
    if pending == [] then []
    else
      var node := pending[0];
      SizeAllAppend(pending[1..], node.children);
      assert SizeAll(pending) == 1 + SizeAll(node.children) + SizeAll(pending[1..]);
      [NodeLine(node, Label(node))] + Edges(node, node.children) + Bfs(pending[1..] + node.children)
  }

  /** `toString()`. */
  function Render(root: Node): seq<Line>
  {
    Bfs([root])
  }

  function NodeLines(ls: seq<Line>): nat
  {
    if ls == [] then 0 else (if ls[0].NodeLine? then 1 else 0) + NodeLines(ls[1..])
  }

  function EdgeLines(ls: seq<Line>): nat
  {
    if ls == [] then 0 else (if ls[0].EdgeLine? then 1 else 0) + EdgeLines(ls[1..])
  }

  lemma {:induction false} CountAppend(a: seq<Line>, b: seq<Line>)
    ensures NodeLines(a + b) == NodeLines(a) + NodeLines(b)
    ensures EdgeLines(a + b) == EdgeLines(a) + EdgeLines(b)
    decreases |a|
  {
    if a == [] {
      assert a + b == b;
    } else {
      assert (a + b)[1..] == a[1..] + b;
      CountAppend(a[1..], b);
    }
  }

  lemma {:induction false} EdgesCount(parent: Node, cs: seq<Node>)
    ensures NodeLines(Edges(parent, cs)) == 0 && EdgeLines(Edges(parent, cs)) == |cs|
    decreases |cs|
  {
    if cs != [] {
      EdgesCount(parent, cs[1..]);
      assert Edges(parent, cs)[1..] == Edges(parent, cs[1..]);
    }
  }

  /** The loop emits one label line per node of the pending trees and one
      edge line per node that is not itself pending. */
  lemma {:induction false} BfsCounts(pending: seq<Node>)
    ensures NodeLines(Bfs(pending)) == SizeAll(pending)
    ensures EdgeLines(Bfs(pending)) == SizeAll(pending) - |pending|
    decreases SizeAll(pending)
  {
    if pending != [] {
      var node := pending[0];
      var next := pending[1..] + node.children;
      SizeAllAppend(pending[1..], node.children);
      assert SizeAll(pending) == 1 + SizeAll(node.children) + SizeAll(pending[1..]);
      BfsCounts(next);
      var head := [NodeLine(node, Label(node))];
      var edges := Edges(node, node.children);
      EdgesCount(node, node.children);
      CountAppend(head, edges);
      CountAppend(head + edges, Bfs(next));
      assert SizeAll(node.children) >= |node.children| by {
        SizeAtLeastCount(node.children);
      }
    }
  }

  lemma {:induction false} SizeAtLeastCount(ns: seq<Node>)
    ensures SizeAll(ns) >= |ns|
    decreases |ns|
  {
    if ns != [] {
      SizeAtLeastCount(ns[1..]);
    }
  }

  /** A tree of N nodes renders as N label lines and N - 1 edge lines,
      starting with the root's label. */
  lemma RenderShape(root: Node)
    ensures NodeLines(Render(root)) == Size(root)
    ensures EdgeLines(Render(root)) == Size(root) - 1
    ensures Render(root)[0] == NodeLine(root, Label(root))
  {
    BfsCounts([root]);
    assert SizeAll([root]) == Size(root) by {
      assert [root][1..] == [];
    }
  }
}
