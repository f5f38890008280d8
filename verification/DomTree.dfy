/**
 The document tree: an arena of nodes (`crates/render-dom/src/lib.rs`), and its
 preorder as the reference for every walk with an explicit stack.
 */
module DomTree {
  import opened Text
  import opened HttpTypes

  type NodeId = nat

  type Attributes = seq<(string, string)>

  /** An element is in the HTML namespace or not; a fragment may be a shadow root. */
  datatype NodeKind =
    | Document
    | Fragment
    | Element(html: bool, localName: string, attributes: Attributes)
    | Text(text: string)
    | Other

  datatype Node = Node(parent: Option<NodeId>, children: seq<NodeId>, kind: NodeKind)

  type Nodes = seq<Node>

  const DOCUMENT: NodeId := 0

  // ---- Reading a node ---------------------------------------------------------------------------

  function Children(nodes: Nodes, n: NodeId): seq<NodeId> {
    if n < |nodes| then nodes[n].children else []
  }

  function Parent(nodes: Nodes, n: NodeId): Option<NodeId> {
    if n < |nodes| then nodes[n].parent else None
  }

  function ValueOf(attributes: Attributes, name: string): Option<string> {
    if attributes == [] then None
    else if attributes[0].0 == name then Some(attributes[0].1)
    else ValueOf(attributes[1..], name)
  }

  /** How an element spells an attribute's name: HTML names are in lower case. */
  function Spelled(html: bool, name: string): string {
    if html then Lower(name) else name
  }

  /** An attribute of an element; no other node has any. */
  function Attribute(nodes: Nodes, n: NodeId, name: string): Option<string> {
    if n < |nodes| && nodes[n].kind.Element?
    then ValueOf(nodes[n].kind.attributes, Spelled(nodes[n].kind.html, name)) else None
  }

  predicate IsElement(nodes: Nodes, n: NodeId, localName: string) {
    n < |nodes| && nodes[n].kind.Element? && nodes[n].kind.localName == localName
  }

  // ---- Trees ------------------------------------------------------------------------------------

  /**
   The arena is a forest: parents and children agree, a node is its parent's child
   once, and a child is lower than its parent.
   */
  ghost predicate IsForest(nodes: Nodes, height: seq<nat>) {
    && |height| == |nodes| >= 1
    && (forall p :: 0 <= p < |nodes| ==> height[p] < |nodes|)
    && (forall p, i :: 0 <= p < |nodes| && 0 <= i < |nodes[p].children| ==>
          && nodes[p].children[i] < |nodes|
          && nodes[nodes[p].children[i]].parent == Some(p)
          && height[nodes[p].children[i]] < height[p])
    && (forall p, i, j :: 0 <= p < |nodes| && 0 <= i < j < |nodes[p].children| ==>
          nodes[p].children[i] != nodes[p].children[j])
    && (forall c :: 0 <= c < |nodes| && nodes[c].parent.Some? ==>
          nodes[c].parent.value < |nodes| && c in nodes[nodes[c].parent.value].children)
  }

  predicate Within(nodes: Nodes, ns: seq<NodeId>) {
    forall i :: 0 <= i < |ns| ==> ns[i] < |nodes|
  }

  /** A bound above the heights of these nodes. */
  ghost function Top(height: seq<nat>, ns: seq<NodeId>): (r: nat)
    requires forall i :: 0 <= i < |ns| ==> ns[i] < |height|
    ensures forall i :: 0 <= i < |ns| ==> height[ns[i]] < r
  {
    if ns == [] then 0
    else
      var rest := Top(height, ns[1..]);
      if height[ns[0]] < rest then rest else height[ns[0]] + 1
  }

  lemma {:induction false} TopIsLeast(height: seq<nat>, ns: seq<NodeId>, limit: nat)
    requires forall i :: 0 <= i < |ns| ==> ns[i] < |height| && height[ns[i]] < limit
    ensures Top(height, ns) <= limit
  {
    if ns != [] {
      TopIsLeast(height, ns[1..], limit);
    }
  }

  /** A node followed by its descendants in document order. */
  ghost function Preorder(nodes: Nodes, height: seq<nat>, n: NodeId): seq<NodeId>
    requires IsForest(nodes, height) && n < |nodes|
    decreases height[n], 1, 0
  {
    TopIsLeast(height, nodes[n].children, height[n]);
    [n] + PreorderAll(nodes, height, nodes[n].children)
  }

  ghost function PreorderAll(nodes: Nodes, height: seq<nat>, ns: seq<NodeId>): seq<NodeId>
    requires IsForest(nodes, height) && Within(nodes, ns)
    decreases Top(height, ns), 0, |ns|
  {
    if ns == [] then []
    else
      TopIsLeast(height, ns[1..], Top(height, ns));
      Preorder(nodes, height, ns[0]) + PreorderAll(nodes, height, ns[1..])
  }

  ghost function Descendants(nodes: Nodes, height: seq<nat>, n: NodeId): seq<NodeId>
    requires IsForest(nodes, height)
  {
    PreorderAll(nodes, height, Children(nodes, n))
  }

  // ---- Unfolding --------------------------------------------------------------------------------

  lemma PreorderUnfolds(nodes: Nodes, height: seq<nat>, n: NodeId)
    requires IsForest(nodes, height) && n < |nodes|
    ensures Within(nodes, nodes[n].children)
    ensures Preorder(nodes, height, n) == [n] + PreorderAll(nodes, height, nodes[n].children)
  {
    hide Top, PreorderAll;
  }

  lemma PreorderNone(nodes: Nodes, height: seq<nat>)
    requires IsForest(nodes, height)
    ensures PreorderAll(nodes, height, []) == []
  {
  }

  lemma PreorderCons(nodes: Nodes, height: seq<nat>, n: NodeId, ns: seq<NodeId>)
    requires IsForest(nodes, height) && n < |nodes| && Within(nodes, ns)
    ensures Within(nodes, [n] + ns)
    ensures PreorderAll(nodes, height, [n] + ns) == Preorder(nodes, height, n) + PreorderAll(nodes, height, ns)
  {
    hide Top, Preorder;
    assert ([n] + ns)[1..] == ns;
  }

  lemma {:induction false} PreorderConcat(nodes: Nodes, height: seq<nat>, a: seq<NodeId>, b: seq<NodeId>)
    requires IsForest(nodes, height) && Within(nodes, a) && Within(nodes, b)
    ensures Within(nodes, a + b)
    ensures PreorderAll(nodes, height, a + b) == PreorderAll(nodes, height, a) + PreorderAll(nodes, height, b)
  {
    hide Preorder, PreorderAll, IsForest;
    if a == [] {
      PreorderNone(nodes, height);
      assert a + b == b;
    } else {
      HeadTail(a);
      assert a + b == [a[0]] + (a[1..] + b);
      PreorderConcat(nodes, height, a[1..], b);
      PreorderCons(nodes, height, a[0], a[1..]);
      PreorderCons(nodes, height, a[0], a[1..] + b);
    }
  }

  // ---- What preorder means ------------------------------------------------------------------------

  /** `n` is `root` or below it, following parents. */
  ghost predicate IsUnder(nodes: Nodes, height: seq<nat>, root: NodeId, n: NodeId)
    requires IsForest(nodes, height) && n < |nodes|
    decreases |nodes| - height[n]
  {
    n == root || (nodes[n].parent.Some? && IsUnder(nodes, height, root, nodes[n].parent.value))
  }

  lemma {:induction false} UnderIsHigher(nodes: Nodes, height: seq<nat>, root: NodeId, n: NodeId)
    requires IsForest(nodes, height) && n < |nodes| && root < |nodes| && IsUnder(nodes, height, root, n)
    ensures n == root || height[n] < height[root]
    decreases |nodes| - height[n]
  {
    if n != root {
      UnderIsHigher(nodes, height, root, nodes[n].parent.value);
    }
  }

  /** Whatever lies under a child lies under its parent. */
  lemma {:induction false} UnderChild(nodes: Nodes, height: seq<nat>, root: NodeId, c: NodeId, n: NodeId)
    requires IsForest(nodes, height) && n < |nodes| && root < |nodes| && c in nodes[root].children
    requires IsUnder(nodes, height, c, n)
    ensures IsUnder(nodes, height, root, n) && n != root
    decreases |nodes| - height[n]
  {
    UnderIsHigher(nodes, height, c, n);
    if n != c {
      UnderChild(nodes, height, root, c, nodes[n].parent.value);
    }
  }

  /** Whatever lies strictly under a node lies under one of its children. */
  lemma {:induction false} UnderSomeChild(nodes: Nodes, height: seq<nat>, root: NodeId, n: NodeId) returns (c: NodeId)
    requires IsForest(nodes, height) && n < |nodes| && root < |nodes|
    requires IsUnder(nodes, height, root, n) && n != root
    ensures c in nodes[root].children && IsUnder(nodes, height, c, n)
    decreases |nodes| - height[n]
  {
    if nodes[n].parent.value == root {
      c := n;
    } else {
      c := UnderSomeChild(nodes, height, root, nodes[n].parent.value);
    }
  }

  /** Two nodes that both lie above `n`, and not one above the other, are the same. */
  lemma {:induction false} UnderSiblings(nodes: Nodes, height: seq<nat>, a: NodeId, b: NodeId, n: NodeId)
    requires IsForest(nodes, height) && n < |nodes| && a < |nodes| && b < |nodes|
    requires nodes[a].parent == nodes[b].parent && nodes[a].parent.Some?
    requires IsUnder(nodes, height, a, n) && IsUnder(nodes, height, b, n)
    ensures a == b
    decreases |nodes| - height[n]
  {
    if n == a {
      if a != b { UnderIsHigher(nodes, height, b, nodes[a].parent.value); }
    } else if n == b {
      UnderIsHigher(nodes, height, a, nodes[b].parent.value);
    } else {
      UnderSiblings(nodes, height, a, b, nodes[n].parent.value);
    }
  }

  /** Preorder lists exactly the nodes at or under the root. */
  lemma {:induction false} PreorderIsSubtree(nodes: Nodes, height: seq<nat>, root: NodeId)
    requires IsForest(nodes, height) && root < |nodes|
    ensures forall n: nat :: n in Preorder(nodes, height, root) <==> n < |nodes| && IsUnder(nodes, height, root, n)
    decreases height[root], 1, 0
  {
    hide Preorder, PreorderAll, IsForest;
    var cs := nodes[root].children;
    PreorderUnfolds(nodes, height, root);
    ChildrenAreLower(nodes, height, root);
    TopIsLeast(height, cs, height[root]);
    PreorderAllIsSubtrees(nodes, height, cs);
    forall n: nat ensures n in Preorder(nodes, height, root) <==> n < |nodes| && IsUnder(nodes, height, root, n) {
      if n < |nodes| && n != root && IsUnder(nodes, height, root, n) {
        var c := UnderSomeChild(nodes, height, root, n);
      }
      if c :| c in cs && n < |nodes| && IsUnder(nodes, height, c, n) {
        UnderChild(nodes, height, root, c, n);
      }
    }
  }

  lemma ChildrenAreLower(nodes: Nodes, height: seq<nat>, n: NodeId)
    requires IsForest(nodes, height) && n < |nodes|
    ensures |height| == |nodes|
    ensures forall c :: c in nodes[n].children ==> c < |nodes| && height[c] < height[n] && nodes[c].parent == Some(n)
    ensures forall i, j :: 0 <= i < j < |nodes[n].children| ==> nodes[n].children[i] != nodes[n].children[j]
  {
  }

  ghost predicate IsUnderOne(nodes: Nodes, height: seq<nat>, ns: seq<NodeId>, n: NodeId)
    requires IsForest(nodes, height) && n < |nodes|
  {
    exists c :: c in ns && IsUnder(nodes, height, c, n)
  }

  lemma {:induction false} PreorderAllIsSubtrees(nodes: Nodes, height: seq<nat>, ns: seq<NodeId>)
    requires IsForest(nodes, height) && Within(nodes, ns)
    ensures forall n: nat :: n in PreorderAll(nodes, height, ns) <==>
                        n < |nodes| && IsUnderOne(nodes, height, ns, n)
    decreases Top(height, ns), 0, |ns|
  {
    hide Preorder, PreorderAll, IsUnder;
    if ns == [] {
      PreorderNone(nodes, height);
    } else {
      HeadTail(ns);
      TopIsLeast(height, ns[1..], Top(height, ns));
      PreorderIsSubtree(nodes, height, ns[0]);
      PreorderAllIsSubtrees(nodes, height, ns[1..]);
      PreorderCons(nodes, height, ns[0], ns[1..]);
      forall n: nat | n < |nodes|
        ensures IsUnderOne(nodes, height, ns, n) <==>
                IsUnder(nodes, height, ns[0], n) || IsUnderOne(nodes, height, ns[1..], n)
      {
        if IsUnder(nodes, height, ns[0], n) { assert ns[0] in ns; }
        if c :| c in ns[1..] && IsUnder(nodes, height, c, n) { assert c in ns; }
      }
    }
  }

  ghost predicate NoRepeats(ns: seq<NodeId>) {
    forall i, j :: 0 <= i < j < |ns| ==> ns[i] != ns[j]
  }

  lemma NoRepeatsConcat(a: seq<NodeId>, b: seq<NodeId>)
    requires NoRepeats(a) && NoRepeats(b) && forall n :: n in a ==> n !in b
    ensures NoRepeats(a + b)
  {
    var all := a + b;
    forall i, j | 0 <= i < j < |all| ensures all[i] != all[j] {
      if j < |a| {
      } else if i < |a| {
        assert all[i] in a && all[j] in b;
      } else {
        assert all[i] == b[i - |a|] && all[j] == b[j - |a|];
      }
    }
  }

  /** Preorder visits every node once. */
  lemma {:induction false} PreorderVisitsOnce(nodes: Nodes, height: seq<nat>, root: NodeId)
    requires IsForest(nodes, height) && root < |nodes|
    ensures NoRepeats(Preorder(nodes, height, root))
    decreases height[root], 1, 0
  {
    hide Preorder, PreorderAll, IsForest, IsUnder;
    var cs := nodes[root].children;
    PreorderUnfolds(nodes, height, root);
    ChildrenAreLower(nodes, height, root);
    TopIsLeast(height, cs, height[root]);
    PreorderAllVisitsOnce(nodes, height, cs, root);
    PreorderAllIsSubtrees(nodes, height, cs);
    forall n | n in PreorderAll(nodes, height, cs) ensures n != root {
      var c :| c in cs && IsUnder(nodes, height, c, n);
      UnderChild(nodes, height, root, c, n);
    }
    NoRepeatsConcat([root], PreorderAll(nodes, height, cs));
  }

  lemma {:induction false} PreorderAllVisitsOnce(nodes: Nodes, height: seq<nat>, ns: seq<NodeId>, parent: NodeId)
    requires IsForest(nodes, height) && Within(nodes, ns) && NoRepeats(ns)
    requires forall n :: n in ns ==> nodes[n].parent == Some(parent)
    ensures NoRepeats(PreorderAll(nodes, height, ns))
    decreases Top(height, ns), 0, |ns|
  {
    hide Preorder, PreorderAll, IsUnder;
    if ns == [] {
      PreorderNone(nodes, height);
    } else {
      HeadTail(ns);
      TopIsLeast(height, ns[1..], Top(height, ns));
      PreorderVisitsOnce(nodes, height, ns[0]);
      PreorderAllVisitsOnce(nodes, height, ns[1..], parent);
      PreorderCons(nodes, height, ns[0], ns[1..]);
      PreorderIsSubtree(nodes, height, ns[0]);
      PreorderAllIsSubtrees(nodes, height, ns[1..]);
      forall n | n in Preorder(nodes, height, ns[0]) ensures n !in PreorderAll(nodes, height, ns[1..]) {
        if n in PreorderAll(nodes, height, ns[1..]) {
          var c :| c in ns[1..] && IsUnder(nodes, height, c, n);
          UnderSiblings(nodes, height, ns[0], c, n);
        }
      }
      NoRepeatsConcat(Preorder(nodes, height, ns[0]), PreorderAll(nodes, height, ns[1..]));
    }
  }

  // ---- Document order -------------------------------------------------------------------------------

  /** Wherever both of these stand, the first one stands before the other. */
  ghost predicate ComesFirst(ns: seq<NodeId>, x: NodeId, y: NodeId) {
    forall u, v :: 0 <= u < |ns| && 0 <= v < |ns| && ns[u] == x && ns[v] == y ==> u < v
  }

  lemma SplitOrder(a: seq<NodeId>, b: seq<NodeId>, x: NodeId, y: NodeId)
    requires NoRepeats(a + b) && x in a && y in b
    ensures ComesFirst(a + b, x, y)
  {
    var all := a + b;
    var i :| 0 <= i < |a| && a[i] == x;
    var j :| 0 <= j < |b| && b[j] == y;
    assert all[i] == x && all[|a| + j] == y;
  }

  lemma InnerOrder(a: seq<NodeId>, m: seq<NodeId>, b: seq<NodeId>, x: NodeId, y: NodeId)
    requires NoRepeats(a + m + b) && x in m && y in m && ComesFirst(m, x, y)
    ensures ComesFirst(a + m + b, x, y)
  {
    var all := a + m + b;
    var i :| 0 <= i < |m| && m[i] == x;
    var j :| 0 <= j < |m| && m[j] == y;
    assert all[|a| + i] == x && all[|a| + j] == y;
  }

  /** The preorder of a node around that of one of its children. */
  lemma PreorderAround(nodes: Nodes, height: seq<nat>, p: NodeId, i: nat)
    requires IsForest(nodes, height) && p < |nodes| && i < |nodes[p].children|
    ensures
      var cs := nodes[p].children;
      && Within(nodes, cs[..i]) && Within(nodes, cs[i + 1..]) && Within(nodes, cs[i..]) && cs[i] < |nodes|
      && Preorder(nodes, height, p) ==
         ([p] + PreorderAll(nodes, height, cs[..i])) + Preorder(nodes, height, cs[i])
         + PreorderAll(nodes, height, cs[i + 1..])
      && PreorderAll(nodes, height, cs[i..]) == Preorder(nodes, height, cs[i]) + PreorderAll(nodes, height, cs[i + 1..])
  {
    hide Preorder, PreorderAll, IsForest;
    var cs := nodes[p].children;
    PreorderUnfolds(nodes, height, p);
    assert cs[i..] == [cs[i]] + cs[i + 1..] && cs == cs[..i] + cs[i..];
    PreorderConcat(nodes, height, cs[..i], cs[i..]);
    PreorderCons(nodes, height, cs[i], cs[i + 1..]);
  }

  /** The node is at or under a child of `p` before the `i`-th. */
  ghost predicate UnderEarlier(nodes: Nodes, height: seq<nat>, p: NodeId, i: nat, x: NodeId)
    requires IsForest(nodes, height) && p < |nodes| && x < |nodes| && i <= |nodes[p].children|
  {
    exists h :: 0 <= h < i && nodes[p].children[h] < |nodes| && IsUnder(nodes, height, nodes[p].children[h], x)
  }

  /**
   Preorder is document order: anywhere in the tree, a node comes before what is below
   it, and whatever is at or under an earlier child comes before whatever is at or under
   a later one.
   */
  lemma {:induction false} PreorderIsDocumentOrder(nodes: Nodes, height: seq<nat>, root: NodeId, p: NodeId, i: nat,
                                                   x: NodeId, y: NodeId)
    requires IsForest(nodes, height) && root < |nodes| && p < |nodes| && x < |nodes| && y < |nodes|
    requires IsUnder(nodes, height, root, p) && i < |nodes[p].children|
    requires nodes[p].children[i] < |nodes| && IsUnder(nodes, height, nodes[p].children[i], y)
    requires x == p || UnderEarlier(nodes, height, p, i, x)
    ensures ComesFirst(Preorder(nodes, height, root), x, y)
    decreases height[root]
  {
    hide Preorder, PreorderAll, IsForest, ComesFirst;
    PreorderVisitsOnce(nodes, height, root);
    if p == root {
      SiblingsInOrder(nodes, height, p, i, x, y);
    } else {
      var c := UnderSomeChild(nodes, height, root, p);
      var k :| 0 <= k < |nodes[root].children| && nodes[root].children[k] == c;
      ChildrenAreLower(nodes, height, root);
      PreorderIsDocumentOrder(nodes, height, c, p, i, x, y);
      PreorderAround(nodes, height, root, k);
      BothUnder(nodes, height, c, p, i, x, y);
      PreorderIsSubtree(nodes, height, c);
      InnerOrder([root] + PreorderAll(nodes, height, nodes[root].children[..k]), Preorder(nodes, height, c),
                 PreorderAll(nodes, height, nodes[root].children[k + 1..]), x, y);
    }
  }

  lemma SiblingsInOrder(nodes: Nodes, height: seq<nat>, p: NodeId, i: nat, x: NodeId, y: NodeId)
    requires IsForest(nodes, height) && p < |nodes| && x < |nodes| && y < |nodes| && i < |nodes[p].children|
    requires nodes[p].children[i] < |nodes| && IsUnder(nodes, height, nodes[p].children[i], y)
    requires x == p || UnderEarlier(nodes, height, p, i, x)
    ensures ComesFirst(Preorder(nodes, height, p), x, y)
  {
    hide Preorder, PreorderAll, IsForest, ComesFirst, IsUnder;
    var cs := nodes[p].children;
    PreorderAround(nodes, height, p, i);
    PreorderVisitsOnce(nodes, height, p);
    PreorderAllIsSubtrees(nodes, height, cs[..i]);
    PreorderIsSubtree(nodes, height, cs[i]);
    var before, after := [p] + PreorderAll(nodes, height, cs[..i]), PreorderAll(nodes, height, cs[i..]);
    assert before + Preorder(nodes, height, cs[i]) + PreorderAll(nodes, height, cs[i + 1..]) == before + after;
    if x != p {
      var h :| 0 <= h < i && cs[h] < |nodes| && IsUnder(nodes, height, cs[h], x);
      assert cs[..i][h] == cs[h] && cs[h] in cs[..i];
      assert IsUnderOne(nodes, height, cs[..i], x);
    }
    SplitOrder(before, after, x, y);
  }

  lemma BothUnder(nodes: Nodes, height: seq<nat>, c: NodeId, p: NodeId, i: nat, x: NodeId, y: NodeId)
    requires IsForest(nodes, height) && c < |nodes| && p < |nodes| && x < |nodes| && y < |nodes|
    requires IsUnder(nodes, height, c, p) && i < |nodes[p].children|
    requires nodes[p].children[i] < |nodes| && IsUnder(nodes, height, nodes[p].children[i], y)
    requires x == p || UnderEarlier(nodes, height, p, i, x)
    ensures IsUnder(nodes, height, c, x) && IsUnder(nodes, height, c, y)
  {
    hide IsForest, IsUnder;
    UnderChild(nodes, height, p, nodes[p].children[i], y);
    UnderTransitive(nodes, height, c, p, y);
    if x != p {
      var h :| 0 <= h < i && nodes[p].children[h] < |nodes| && IsUnder(nodes, height, nodes[p].children[h], x);
      UnderChild(nodes, height, p, nodes[p].children[h], x);
      UnderTransitive(nodes, height, c, p, x);
    }
  }

  lemma {:induction false} UnderTransitive(nodes: Nodes, height: seq<nat>, a: NodeId, b: NodeId, n: NodeId)
    requires IsForest(nodes, height) && a < |nodes| && b < |nodes| && n < |nodes|
    requires IsUnder(nodes, height, a, b) && IsUnder(nodes, height, b, n)
    ensures IsUnder(nodes, height, a, n)
    decreases |nodes| - height[n]
  {
    if n != b && n != a {
      UnderTransitive(nodes, height, a, b, nodes[n].parent.value);
    }
  }

  // ---- Walks with an explicit stack -----------------------------------------------------------------

  function Reversed(ns: seq<NodeId>): (r: seq<NodeId>)
    ensures |r| == |ns|
    ensures forall i :: 0 <= i < |ns| ==> r[i] == ns[|ns| - 1 - i]
  {
    seq(|ns|, i requires 0 <= i < |ns| => ns[|ns| - 1 - i])
  }

  /** What a walk still visits: the top of the stack is its last element. */
  ghost function Upcoming(nodes: Nodes, height: seq<nat>, pending: seq<NodeId>): seq<NodeId>
    requires IsForest(nodes, height) && Within(nodes, pending)
  {
    PreorderAll(nodes, height, Reversed(pending))
  }

  lemma NothingUpcoming(nodes: Nodes, height: seq<nat>)
    requires IsForest(nodes, height)
    ensures Upcoming(nodes, height, []) == []
  {
    PreorderNone(nodes, height);
    assert Reversed([]) == [];
  }

  /** Popping a node and pushing its children in reverse visits the node and nothing else. */
  lemma PopThenPush(nodes: Nodes, height: seq<nat>, rest: seq<NodeId>, current: NodeId)
    requires IsForest(nodes, height) && Within(nodes, rest + [current])
    ensures current < |nodes| && Within(nodes, rest + Reversed(nodes[current].children))
    ensures Upcoming(nodes, height, rest + [current]) ==
            [current] + Upcoming(nodes, height, rest + Reversed(nodes[current].children))
  {
    hide PreorderAll, Preorder;
    assert (rest + [current])[|rest|] == current;
    assert forall i :: 0 <= i < |rest| ==> (rest + [current])[i] == rest[i];
    var children := nodes[current].children;
    ChildrenAreLower(nodes, height, current);
    assert Reversed(rest + [current]) == [current] + Reversed(rest);
    assert Reversed(rest + Reversed(children)) == children + Reversed(rest);
    PreorderCons(nodes, height, current, Reversed(rest));
    PreorderUnfolds(nodes, height, current);
    PreorderConcat(nodes, height, children, Reversed(rest));
    assert [current] + PreorderAll(nodes, height, children) + PreorderAll(nodes, height, Reversed(rest)) ==
           [current] + (PreorderAll(nodes, height, children) + PreorderAll(nodes, height, Reversed(rest)));
  }

  /** The same tree with every list of children reversed. */
  function Mirror(nodes: Nodes): (r: Nodes)
    ensures |r| == |nodes|
    ensures forall i :: 0 <= i < |nodes| ==> r[i] == nodes[i].(children := Reversed(nodes[i].children))
  {
    seq(|nodes|, i requires 0 <= i < |nodes| => nodes[i].(children := Reversed(nodes[i].children)))
  }

  lemma MirrorIsForest(nodes: Nodes, height: seq<nat>)
    requires IsForest(nodes, height)
    ensures IsForest(Mirror(nodes), height)
  {
    var m := Mirror(nodes);
    forall c | 0 <= c < |m| && m[c].parent.Some? ensures c in m[m[c].parent.value].children {
      var p := nodes[c].parent.value;
      var i :| 0 <= i < |nodes[p].children| && nodes[p].children[i] == c;
      assert m[p].children[|nodes[p].children| - 1 - i] == c;
    }
  }

  /** Mirroring changes the order of a walk, not the nodes it visits. */
  lemma MirrorVisitsTheSame(nodes: Nodes, height: seq<nat>, root: NodeId)
    requires IsForest(nodes, height) && root < |nodes|
    ensures IsForest(Mirror(nodes), height)
    ensures forall n: nat :: n in Preorder(Mirror(nodes), height, root) <==> n in Preorder(nodes, height, root)
  {
    MirrorIsForest(nodes, height);
    PreorderIsSubtree(nodes, height, root);
    PreorderIsSubtree(Mirror(nodes), height, root);
    hide IsForest, Preorder;
    forall n: nat | n < |nodes|
      ensures IsUnder(Mirror(nodes), height, root, n) <==> IsUnder(nodes, height, root, n)
    {
      MirrorKeepsParents(nodes, height, root, n);
    }
  }

  lemma {:induction false} MirrorKeepsParents(nodes: Nodes, height: seq<nat>, root: NodeId, n: NodeId)
    requires IsForest(nodes, height) && IsForest(Mirror(nodes), height) && n < |nodes|
    ensures IsUnder(Mirror(nodes), height, root, n) <==> IsUnder(nodes, height, root, n)
    decreases |nodes| - height[n]
  {
    if n != root && nodes[n].parent.Some? {
      ParentIsHigher(nodes, height, n);
      MirrorKeepsParents(nodes, height, root, nodes[n].parent.value);
    }
  }

  lemma ParentIsHigher(nodes: Nodes, height: seq<nat>, n: NodeId)
    requires IsForest(nodes, height) && n < |nodes| && nodes[n].parent.Some?
    ensures nodes[n].parent.value < |nodes| == |height|
    ensures height[n] < height[nodes[n].parent.value] < |nodes|
  {
  }
}
