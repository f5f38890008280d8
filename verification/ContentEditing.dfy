/**
 Writing control values (`set_content_text_value`, `sync_submit_control_value`,
 `sync_formless_submit_value`) into the document, with the arena operations they use.
 */
module ContentEditing {
  import opened Text
  import opened HttpTypes
  import opened DomTree
  import opened ContentInteraction

  // ---- What a write leaves behind -------------------------------------------------------------------

  function WithAttribute(attributes: Attributes, name: string, value: string): Attributes {
    if attributes == [] then [(name, value)]
    else if attributes[0].0 == name then [(name, value)] + attributes[1..]
    else [attributes[0]] + WithAttribute(attributes[1..], name, value)
  }

  lemma {:induction false} AttributeWritten(attributes: Attributes, name: string, value: string, other: string)
    ensures ValueOf(WithAttribute(attributes, name, value), other) ==
            if other == name then Some(value) else ValueOf(attributes, other)
  {
    if attributes == [] {
      assert [(name, value)][1..] == [];
    } else if attributes[0].0 == name {
      assert ([(name, value)] + attributes[1..])[1..] == attributes[1..];
    } else {
      AttributeWritten(attributes[1..], name, value, other);
      assert ([attributes[0]] + WithAttribute(attributes[1..], name, value))[1..] ==
             WithAttribute(attributes[1..], name, value);
    }
  }

  function AttributeSet(nodes: Nodes, n: NodeId, name: string, value: string): Nodes
    requires n < |nodes| && nodes[n].kind.Element?
  {
    var kind := nodes[n].kind;
    var attributes := WithAttribute(kind.attributes, Spelled(kind.html, name), value);
    nodes[n := nodes[n].(kind := kind.(attributes := attributes))]
  }

  /** Two names for the same attribute: on HTML elements their case does not matter. */
  predicate SameAttribute(html: bool, a: string, b: string) {
    if html then SameName(a, b) else a == b
  }

  /**
   Setting an attribute is what reading that name gives, however it is spelled; no other
   name changes; and an HTML element keeps the name in lower case.
   */
  lemma AttributeSetThenRead(nodes: Nodes, n: NodeId, name: string, value: string, other: string)
    requires n < |nodes| && nodes[n].kind.Element?
    ensures
      var html, after := nodes[n].kind.html, AttributeSet(nodes, n, name, value);
      && Attribute(after, n, other) ==
         (if SameAttribute(html, other, name) then Some(value) else Attribute(nodes, n, other))
      && Says(after, n, if html then Lower(name) else name, value)
  {
    hide ValueOf, WithAttribute;
    var kind := nodes[n].kind;
    var spelled := Spelled(kind.html, name);
    AttributeWritten(kind.attributes, spelled, value, Spelled(kind.html, other));
    AttributeWritten(kind.attributes, spelled, value, spelled);
    FirstValue(WithAttribute(kind.attributes, spelled, value), spelled);
  }

  /** The first `k` children of `n` taken out: they keep their own subtrees. */
  function Emptied(nodes: Nodes, n: NodeId, k: nat): (r: Nodes)
    requires n < |nodes| && k <= |nodes[n].children|
    ensures |r| == |nodes|
  {
    var gone, left := nodes[n].children[..k], nodes[n].children[k..];
    seq(|nodes|, i requires 0 <= i < |nodes| =>
      if i == n then nodes[i].(children := left) else if i in gone then nodes[i].(parent := None) else nodes[i])
  }

  /** What writing a value leaves of the arena. */
  function Rewritten(nodes: Nodes, n: NodeId, value: string): Nodes {
    if n >= |nodes| || !nodes[n].kind.Element? then nodes
    else if nodes[n].kind.localName == "input" then AttributeSet(nodes, n, "value", value)
    else
      var empty := Emptied(nodes, n, |nodes[n].children|);
      if value == "" then empty
      else empty[n := empty[n].(children := [|nodes|])] + [Node(Some(n), [], Text(value))]
  }

  /** Heights for one more leaf. */
  function Raised(height: seq<nat>): (r: seq<nat>)
    ensures |r| == |height| + 1
  {
    seq(|height|, i requires 0 <= i < |height| => height[i] + 1) + [0]
  }

  function RewrittenHeight(nodes: Nodes, height: seq<nat>, n: NodeId, value: string): seq<nat> {
    if n < |nodes| && nodes[n].kind.Element? && nodes[n].kind.localName != "input" && value != "" then Raised(height)
    else height
  }

  lemma AttributeSetIsForest(nodes: Nodes, height: seq<nat>, n: NodeId, name: string, value: string)
    requires IsForest(nodes, height) && n < |nodes| && nodes[n].kind.Element?
    ensures IsForest(AttributeSet(nodes, n, name, value), height)
  {
  }

  // ---- One child at a time ----------------------------------------------------------------------------

  function Without(ns: seq<NodeId>, n: NodeId): seq<NodeId> {
    if ns == [] then []
    else if ns[0] == n then Without(ns[1..], n)
    else [ns[0]] + Without(ns[1..], n)
  }

  function Detached(nodes: Nodes, parent: NodeId, child: NodeId): (r: Nodes)
    requires parent < |nodes| && child < |nodes|
    ensures |r| == |nodes|
  {
    var without := nodes[parent := nodes[parent].(children := Without(nodes[parent].children, child))];
    without[child := without[child].(parent := None)]
  }

  lemma {:induction false} WithoutAbsent(ns: seq<NodeId>, n: NodeId)
    requires n !in ns
    ensures Without(ns, n) == ns
  {
    if ns != [] {
      HeadTail(ns);
      WithoutAbsent(ns[1..], n);
    }
  }

  /** Taking out a node that occurs once cuts it out. */
  lemma {:induction false} WithoutIsCut(ns: seq<NodeId>, i: nat)
    requires i < |ns| && NoRepeats(ns)
    ensures Without(ns, ns[i]) == ns[..i] + ns[i + 1..]
  {
    assert forall j :: 0 <= j < |ns[1..]| ==> ns[1..][j] == ns[j + 1];
    if i == 0 {
      WithoutAbsent(ns[1..], ns[0]);
    } else {
      WithoutIsCut(ns[1..], i - 1);
      assert ns[..i] == [ns[0]] + ns[1..][..i - 1];
      assert ns[1..][i..] == ns[i + 1..];
    }
  }

  /** Where the children that stay come from. */
  lemma DetachedChildren(nodes: Nodes, height: seq<nat>, parent: NodeId, child: NodeId) returns (at: nat)
    requires IsForest(nodes, height) && parent < |nodes| && child < |nodes| && nodes[child].parent == Some(parent)
    ensures child != parent && at < |nodes[parent].children| && nodes[parent].children[at] == child
    ensures Detached(nodes, parent, child)[parent].children ==
            nodes[parent].children[..at] + nodes[parent].children[at + 1..]
    ensures forall m :: 0 <= m < |nodes| && m != parent ==>
              Detached(nodes, parent, child)[m].children == nodes[m].children
    ensures forall m :: 0 <= m < |nodes| ==>
              Detached(nodes, parent, child)[m].parent == if m == child then None else nodes[m].parent
  {
    var cs := nodes[parent].children;
    assert child in cs;
    at :| 0 <= at < |cs| && cs[at] == child;
    WithoutIsCut(cs, at);
  }

  /** The child at `i` after `at` was cut out was at `Shifted(i)` before. */
  function Shifted(atParent: bool, at: nat, i: nat): nat {
    if atParent && i >= at then i + 1 else i
  }

  lemma DetachedChildAt(nodes: Nodes, height: seq<nat>, parent: NodeId, child: NodeId, p: NodeId, i: nat)
    returns (from: nat)
    requires IsForest(nodes, height) && parent < |nodes| && child < |nodes| && nodes[child].parent == Some(parent)
    requires p < |nodes| && i < |Detached(nodes, parent, child)[p].children|
    ensures from < |nodes[p].children|
    ensures
      var r := Detached(nodes, parent, child);
      && r[p].children[i] == nodes[p].children[from] < |nodes| && r[p].children[i] != child
      && r[r[p].children[i]].parent == Some(p) && height[r[p].children[i]] < height[p]
  {
    hide Detached;
    var at := DetachedChildren(nodes, height, parent, child);
    from := Shifted(p == parent, at, i);
    assert nodes[nodes[p].children[from]].parent == Some(p);
    assert p == parent ==> nodes[p].children[from] != nodes[p].children[at];
  }

  lemma DetachedNoRepeats(nodes: Nodes, height: seq<nat>, parent: NodeId, child: NodeId, p: NodeId, i: nat, j: nat)
    requires IsForest(nodes, height) && parent < |nodes| && child < |nodes| && nodes[child].parent == Some(parent)
    requires p < |nodes| && i < j < |Detached(nodes, parent, child)[p].children|
    ensures Detached(nodes, parent, child)[p].children[i] != Detached(nodes, parent, child)[p].children[j]
  {
    hide Detached;
    var at := DetachedChildren(nodes, height, parent, child);
    var a, b := Shifted(p == parent, at, i), Shifted(p == parent, at, j);
    assert nodes[p].children[a] != nodes[p].children[b];
  }

  lemma DetachedParent(nodes: Nodes, height: seq<nat>, parent: NodeId, child: NodeId, c: NodeId)
    requires IsForest(nodes, height) && parent < |nodes| && child < |nodes| && nodes[child].parent == Some(parent)
    requires c < |nodes| && Detached(nodes, parent, child)[c].parent.Some?
    ensures
      var r := Detached(nodes, parent, child);
      r[c].parent.value < |r| && c in r[r[c].parent.value].children
  {
    hide Detached;
    var at := DetachedChildren(nodes, height, parent, child);
    var cs := nodes[parent].children;
    assert c in nodes[nodes[c].parent.value].children;
    CutAt(cs, at);
    assert c in cs ==> c in cs[..at] + [cs[at]] + cs[at + 1..];
  }

  lemma DetachedIsForest(nodes: Nodes, height: seq<nat>, parent: NodeId, child: NodeId)
    requires IsForest(nodes, height) && parent < |nodes| && child < |nodes| && nodes[child].parent == Some(parent)
    ensures IsForest(Detached(nodes, parent, child), height)
  {
    hide Detached;
    var r := Detached(nodes, parent, child);
    forall p, i | 0 <= p < |r| && 0 <= i < |r[p].children|
      ensures r[p].children[i] < |r| && r[r[p].children[i]].parent == Some(p) && height[r[p].children[i]] < height[p]
    {
      var from := DetachedChildAt(nodes, height, parent, child, p, i);
    }
    forall p, i, j | 0 <= p < |r| && 0 <= i < j < |r[p].children| ensures r[p].children[i] != r[p].children[j] {
      DetachedNoRepeats(nodes, height, parent, child, p, i, j);
    }
    forall c | 0 <= c < |r| && r[c].parent.Some?
      ensures r[c].parent.value < |r| && c in r[r[c].parent.value].children
    {
      DetachedParent(nodes, height, parent, child, c);
    }
  }

  lemma EmptiedNone(nodes: Nodes, n: NodeId)
    requires n < |nodes|
    ensures Emptied(nodes, n, 0) == nodes
  {
    assert nodes[n].children[0..] == nodes[n].children;
  }

  lemma EmptiedChildren(nodes: Nodes, n: NodeId, k: nat)
    requires n < |nodes| && k <= |nodes[n].children|
    ensures Emptied(nodes, n, k)[n].children == nodes[n].children[k..]
    ensures Emptied(nodes, n, k)[n].kind == nodes[n].kind
  {
  }

  lemma EmptiedAt(nodes: Nodes, n: NodeId, k: nat, i: NodeId)
    requires n < |nodes| && k <= |nodes[n].children| && i < |nodes|
    ensures Emptied(nodes, n, k)[i] ==
            if i == n then nodes[i].(children := nodes[n].children[k..])
            else if i in nodes[n].children[..k] then nodes[i].(parent := None) else nodes[i]
  {
  }

  /** Taking out the next child. */
  lemma EmptiedOneMore(nodes: Nodes, height: seq<nat>, n: NodeId, k: nat)
    requires IsForest(nodes, height) && n < |nodes| && k < |nodes[n].children|
    ensures
      var child := nodes[n].children[k];
      && child < |nodes| && Emptied(nodes, n, k)[child].parent == Some(n)
      && Detached(Emptied(nodes, n, k), n, child) == Emptied(nodes, n, k + 1)
  {
    var cs := nodes[n].children;
    ChildrenAreLower(nodes, height, n);
    hide IsForest, Emptied, Without;
    var child, was, next := cs[k], Emptied(nodes, n, k), Emptied(nodes, n, k + 1);
    assert child != n && child !in cs[..k];
    EmptiedAt(nodes, n, k, child);
    NextCut(cs, k);
    EmptiedAt(nodes, n, k, n);
    forall i: nat | i < |nodes| ensures Detached(was, n, child)[i] == next[i] {
      EmptiedAt(nodes, n, k, i);
      EmptiedAt(nodes, n, k + 1, i);
    }
  }

  /** The next of several different nodes: cutting it out, and counting it in. */
  lemma NextCut(cs: seq<NodeId>, k: nat)
    requires NoRepeats(cs) && k < |cs|
    ensures Without(cs[k..], cs[k]) == cs[k + 1..]
    ensures forall i :: i in cs[..k + 1] <==> i in cs[..k] || i == cs[k]
  {
    assert forall j :: 0 <= j < |cs[k..]| ==> cs[k..][j] == cs[k + j];
    WithoutIsCut(cs[k..], 0);
    assert cs[k..][..0] + cs[k..][1..] == cs[k + 1..];
    TakeNext(cs, k);
  }

  lemma {:induction false} EmptiedIsForest(nodes: Nodes, height: seq<nat>, n: NodeId, k: nat)
    requires IsForest(nodes, height) && n < |nodes| && k <= |nodes[n].children|
    ensures IsForest(Emptied(nodes, n, k), height)
  {
    hide IsForest, Emptied, Detached;
    if k == 0 {
      EmptiedNone(nodes, n);
    } else {
      EmptiedIsForest(nodes, height, n, k - 1);
      EmptiedOneMore(nodes, height, n, k - 1);
      DetachedIsForest(Emptied(nodes, n, k - 1), height, n, nodes[n].children[k - 1]);
    }
  }

  /** Changing what a node is does not change the tree. */
  lemma KindIsNoMatter(nodes: Nodes, height: seq<nat>, n: NodeId, kind: NodeKind)
    requires IsForest(nodes, height) && n < |nodes|
    ensures IsForest(nodes[n := nodes[n].(kind := kind)], height)
  {
  }

  /** The last child of a node, when it is a text node. */
  function LastText(nodes: Nodes, n: NodeId): (r: Option<NodeId>)
    ensures r.Some? ==> r.value < |nodes| && nodes[r.value].kind.Text?
  {
    var children := Children(nodes, n);
    if children == [] then None
    else
      var last := children[|children| - 1];
      if last < |nodes| && nodes[last].kind.Text? then Some(last) else None
  }

  /** The parents below which a text node can be inserted. */
  predicate TakesText(kind: NodeKind) {
    kind.Element? || kind.Fragment?
  }

  /** A new text node as the last child of `n`. */
  function WithLeaf(nodes: Nodes, n: NodeId, text: string): Nodes
    requires n < |nodes|
  {
    nodes[n := nodes[n].(children := nodes[n].children + [|nodes|])] + [Node(Some(n), [], Text(text))]
  }

  /** A new node without a parent. */
  lemma OrphanIsForest(nodes: Nodes, height: seq<nat>, kind: NodeKind)
    requires IsForest(nodes, height)
    ensures IsForest(nodes + [Node(None, [], kind)], Raised(height))
  {
    var r := nodes + [Node(None, [], kind)];
    forall c | 0 <= c < |r| && r[c].parent.Some?
      ensures r[c].parent.value < |r| && c in r[r[c].parent.value].children
    {
      assert c in nodes[nodes[c].parent.value].children;
    }
  }

  lemma AppendedIsForest(nodes: Nodes, height: seq<nat>, n: NodeId, text: string)
    requires IsForest(nodes, height) && n < |nodes|
    ensures IsForest(WithLeaf(nodes, n, text), Raised(height))
  {
    var r, raised, leaf := WithLeaf(nodes, n, text), Raised(height), |nodes|;
    hide WithLeaf, Raised;
    WithLeafAt(nodes, height, n, text);
    forall p, i | 0 <= p < |r| && 0 <= i < |r[p].children|
      ensures && r[p].children[i] < |r| && r[r[p].children[i]].parent == Some(p)
              && raised[r[p].children[i]] < raised[p]
    {
      if i < |nodes[p].children| {
        assert r[p].children[i] == nodes[p].children[i];
      }
    }
    forall p, i, j | 0 <= p < |r| && 0 <= i < j < |r[p].children| ensures r[p].children[i] != r[p].children[j] {
      assert r[p].children[i] == nodes[p].children[i];
    }
    forall c | 0 <= c < |r| && r[c].parent.Some?
      ensures r[c].parent.value < |r| && c in r[r[c].parent.value].children
    {
      if c < |nodes| {
        assert c in nodes[nodes[c].parent.value].children;
      }
    }
  }

  /** The nodes after a leaf was added. */
  lemma WithLeafAt(nodes: Nodes, height: seq<nat>, n: NodeId, text: string)
    requires n < |nodes| == |height|
    ensures
      var r, leaf := WithLeaf(nodes, n, text), |nodes|;
      && |r| == |nodes| + 1 && r[leaf] == Node(Some(n), [], Text(text))
      && (forall m :: 0 <= m < |nodes| ==> r[m].parent == nodes[m].parent && nodes[m].children <= r[m].children)
      && (forall m :: 0 <= m < |nodes| && m != n ==> r[m].children == nodes[m].children)
      && r[n].children == nodes[n].children + [leaf] && leaf in r[n].children
      && |Raised(height)| == |r| && Raised(height)[leaf] == 0
      && (forall m :: 0 <= m < |nodes| ==> Raised(height)[m] == height[m] + 1)
  {
    assert WithLeaf(nodes, n, text)[n].children[|nodes[n].children|] == |nodes|;
  }

  lemma RewrittenIsForest(nodes: Nodes, height: seq<nat>, n: NodeId, value: string)
    requires IsForest(nodes, height)
    ensures IsForest(Rewritten(nodes, n, value), RewrittenHeight(nodes, height, n, value))
  {
    hide IsForest;
    if n < |nodes| && nodes[n].kind.Element? {
      if nodes[n].kind.localName == "input" {
        AttributeSetIsForest(nodes, height, n, "value", value);
      } else {
        EmptiedIsForest(nodes, height, n, |nodes[n].children|);
        var empty := Emptied(nodes, n, |nodes[n].children|);
        assert empty[n].children == [];
        AppendedIsForest(empty, height, n, value);
        assert [] + [|nodes|] == [|nodes|];
      }
    }
  }

  lemma SpelledKeepsLength(html: bool, name: string)
    ensures |Spelled(html, name)| == |name|
  {
  }

  // ---- Laws of writing --------------------------------------------------------------------------------

  /** Writing a value does not change what kind of control a node is. */
  lemma WritingKeepsControl(nodes: Nodes, n: NodeId, value: string)
    ensures IsTextControl(Rewritten(nodes, n, value), n) == IsTextControl(nodes, n)
  {
    if n < |nodes| && nodes[n].kind.Element? && nodes[n].kind.localName == "input" {
      AttributeSetThenRead(nodes, n, "value", value, "type");
      SpelledKeepsLength(nodes[n].kind.html, "value");
      SpelledKeepsLength(nodes[n].kind.html, "type");
    }
  }

  /** The text below a rewritten element is the written value. */
  lemma RewrittenText(nodes: Nodes, height: seq<nat>, n: NodeId, value: string)
    requires IsForest(nodes, height) && n < |nodes| && nodes[n].kind.Element?
    requires nodes[n].kind.localName != "input"
    ensures IsForest(Rewritten(nodes, n, value), RewrittenHeight(nodes, height, n, value))
    ensures TextOf(Rewritten(nodes, n, value),
                   Descendants(Rewritten(nodes, n, value), RewrittenHeight(nodes, height, n, value), n)) == value
  {
    hide IsForest, PreorderAll, Preorder;
    RewrittenIsForest(nodes, height, n, value);
    var after, raised := Rewritten(nodes, n, value), RewrittenHeight(nodes, height, n, value);
    PreorderNone(after, raised);
    if value != "" {
      var leaf := |nodes|;
      assert [leaf] + [] == [leaf];
      PreorderCons(after, raised, leaf, []);
      PreorderUnfolds(after, raised, leaf);
      TextOfSnoc(after, [], leaf);
      assert [] + [leaf] == [leaf];
    }
  }

  /**
   Writing a value and reading it back gives that value exactly for text controls: text
   inputs, text areas and editable elements. Any other node still has no value.
   */
  lemma WriteThenRead(nodes: Nodes, height: seq<nat>, n: NodeId, value: string)
    requires IsForest(nodes, height)
    ensures IsForest(Rewritten(nodes, n, value), RewrittenHeight(nodes, height, n, value))
    ensures TextValue(Rewritten(nodes, n, value), RewrittenHeight(nodes, height, n, value), n) ==
            if IsTextControl(nodes, n) then Some(value) else None
  {
    hide IsForest, Descendants, TextOf;
    RewrittenIsForest(nodes, height, n, value);
    ControlsHaveValues(Rewritten(nodes, n, value), RewrittenHeight(nodes, height, n, value), n);
    WritingKeepsControl(nodes, n, value);
    if IsTextControl(nodes, n) {
      if nodes[n].kind.localName == "input" {
        AttributeSetThenRead(nodes, n, "value", value, "value");
      } else {
        RewrittenText(nodes, height, n, value);
      }
    }
  }

  /** Writing touches the node, detaches its children, and adds at most one text node. */
  lemma WritingIsLocal(nodes: Nodes, height: seq<nat>, n: NodeId, value: string)
    requires IsForest(nodes, height)
    ensures
      var after := Rewritten(nodes, n, value);
      && |nodes| <= |after| <= |nodes| + 1
      && (forall m :: 0 <= m < |nodes| && m != n && m !in Children(nodes, n) ==> after[m] == nodes[m])
      && (forall m :: 0 <= m < |nodes| && m != n ==> after[m].kind == nodes[m].kind
                                                     && after[m].children == nodes[m].children)
      && (forall m :: m == |nodes| < |after| ==> after[m] == Node(Some(n), [], Text(value)))
  {
    hide IsForest;
  }

  // ---- The document -----------------------------------------------------------------------------------

  datatype DomResult = Done | NotFound | InvalidNodeType | HierarchyRequest

  class Dom {
    var nodes: Nodes
    ghost var height: seq<nat>

    ghost predicate Valid()
      reads this
    {
      IsForest(nodes, height)
    }

    constructor ()
      ensures Valid() && nodes == [Node(None, [], Document)]
    {
      nodes, height := [Node(None, [], Document)], [0];
    }

    method SetAttribute(n: NodeId, name: string, value: string) returns (r: DomResult)
      requires Valid()
      modifies this`nodes
      ensures Valid()
      ensures r == if n >= |old(nodes)| then NotFound else if old(nodes)[n].kind.Element? then Done else InvalidNodeType
      ensures nodes == if r == Done then AttributeSet(old(nodes), n, name, value) else old(nodes)
    {
      hide IsForest;
      if n >= |nodes| {
        return NotFound;
      }
      if !nodes[n].kind.Element? {
        return InvalidNodeType;
      }
      AttributeSetIsForest(nodes, height, n, name, value);
      var kind := nodes[n].kind;
      var spelled := Spelled(kind.html, name);
      nodes := nodes[n := nodes[n].(kind := kind.(attributes := WithAttribute(kind.attributes, spelled, value)))];
      return Done;
    }

    /** Takes a node out of its parent's children; its own subtree stays with it. */
    method RemoveChild(parent: NodeId, child: NodeId) returns (r: DomResult)
      requires Valid()
      modifies this`nodes
      ensures Valid()
      ensures r == if parent < |old(nodes)| && child < |old(nodes)| && old(nodes)[child].parent == Some(parent)
                   then Done else NotFound
      ensures nodes == if r == Done then Detached(old(nodes), parent, child) else old(nodes)
    {
      hide IsForest;
      if parent >= |nodes| || child >= |nodes| || nodes[child].parent != Some(parent) {
        return NotFound;
      }
      DetachedIsForest(nodes, height, parent, child);
      nodes := nodes[parent := nodes[parent].(children := Without(nodes[parent].children, child))];
      nodes := nodes[child := nodes[child].(parent := None)];
      return Done;
    }

    /**
     Appends text below a node: into its last child when that is a text node, else as a
     new one. The new node is made before the parent is looked at, so a parent that takes
     no text leaves it behind without a parent.
     */
    method AppendText(parent: NodeId, data: string) returns (r: DomResult)
      requires Valid()
      modifies this
      ensures Valid()
      ensures r == if parent >= |old(nodes)| then NotFound
                   else if data == "" then InvalidNodeType
                   else if LastText(old(nodes), parent).Some? || TakesText(old(nodes)[parent].kind) then Done
                   else HierarchyRequest
      ensures r in {NotFound, InvalidNodeType} ==> nodes == old(nodes)
      ensures r == HierarchyRequest ==> nodes == old(nodes) + [Node(None, [], Text(data))]
      ensures r == Done && LastText(old(nodes), parent).Some? ==>
                var last := LastText(old(nodes), parent).value;
                nodes == old(nodes)[last := old(nodes)[last].(kind := Text(old(nodes)[last].kind.text + data))]
      ensures r == Done && LastText(old(nodes), parent).None? ==> nodes == WithLeaf(old(nodes), parent, data)
      ensures height == if |nodes| == |old(nodes)| then old(height) else Raised(old(height))
    {
      hide IsForest;
      if parent >= |nodes| {
        return NotFound;
      }
      if data == "" {
        return InvalidNodeType;
      }
      var last := LastText(nodes, parent);
      if last.Some? {
        var text := Text(nodes[last.value].kind.text + data);
        KindIsNoMatter(nodes, height, last.value, text);
        nodes := nodes[last.value := nodes[last.value].(kind := text)];
        return Done;
      }
      var leaf := |nodes|;
      if TakesText(nodes[parent].kind) {
        AppendedIsForest(nodes, height, parent, data);
        nodes := nodes + [Node(None, [], Text(data))];
        nodes := nodes[parent := nodes[parent].(children := nodes[parent].children + [leaf])];
        nodes := nodes[leaf := nodes[leaf].(parent := Some(parent))];
        assert nodes == WithLeaf(old(nodes), parent, data);
        r := Done;
      } else {
        OrphanIsForest(nodes, height, Text(data));
        nodes := nodes + [Node(None, [], Text(data))];
        r := HierarchyRequest;
      }
      height := Raised(height);
    }

    /** Writes a control's value; it cannot fail. */
    method SetContentTextValue(n: NodeId, value: string) returns (r: DomResult)
      requires Valid()
      modifies this
      ensures Valid() && r == Done
      ensures nodes == Rewritten(old(nodes), n, value)
      ensures height == RewrittenHeight(old(nodes), old(height), n, value)
    {
      hide IsForest, Emptied, AttributeSet;
      if n >= |nodes| || !nodes[n].kind.Element? {
        return Done;
      }
      if nodes[n].kind.localName == "input" {
        r := SetAttribute(n, "value", value);
        return;
      }
      EmptyOut(n);
      if value != "" {
        assert nodes[n].children + [|nodes|] == [|nodes|];
        r := AppendText(n, value);
      }
      return Done;
    }

    /** Removes every child of a node, from the first to the last. */
    method EmptyOut(n: NodeId)
      requires Valid() && n < |nodes|
      modifies this`nodes
      ensures Valid()
      ensures nodes == Emptied(old(nodes), n, |old(nodes)[n].children|)
      ensures nodes[n].children == [] && nodes[n].kind == old(nodes)[n].kind
    {
      hide IsForest, Emptied, Detached;
      var children := nodes[n].children;
      EmptiedNone(nodes, n);
      for k := 0 to |children|
        invariant Valid() && nodes == Emptied(old(nodes), n, k)
      {
        EmptiedOneMore(old(nodes), height, n, k);
        var _ := RemoveChild(n, children[k]);
      }
      EmptiedChildren(old(nodes), n, |children|);
    }

    /**
     Copies what the user typed into `source` to the form's only query control, if there
     is one and it is another node.
     */
    method SyncSubmitControlValue(source: NodeId, form: NodeId) returns (done: bool)
      requires Valid()
      modifies this
      ensures Valid()
      ensures forall t: NodeId :: CanSync(old(nodes), old(height), source, form, t) ==>
                done && Synced(old(nodes), old(height), nodes, height, source, t)
      ensures done ==> exists t: NodeId :: CanSync(old(nodes), old(height), source, form, t)
      ensures !done ==> nodes == old(nodes) && height == old(height)
    {
      hide IsForest, IsSoleQueryControl, Rewritten, TextValue;
      var target := FormSingleQueryControl(nodes, height, form);
      if target.None? || target.value == source {
        return false;
      }
      var value := ContentTextInputValue(nodes, height, source);
      if value.None? {
        return false;
      }
      SoleControlIsText(nodes, height, form, target.value);
      WriteThenRead(nodes, height, target.value, value.value);
      assert CanSync(nodes, height, source, form, target.value);
      var r := SetContentTextValue(target.value, value.value);
      return r == DomResult.Done;
    }

    /**
     A submit button without a form of its own: from the hit node upwards, the first one
     whose wrapper holds a text control passes that text on to the sole hidden form.
     `submits` tells which nodes submit when activated.
     */
    method SyncFormlessSubmitValue(geometry: Geometry, hit: NodeId, rendered: NodeId -> bool, submits: NodeId -> bool)
      requires Valid()
      modifies this
      ensures Valid()
      ensures forall s: NodeId, t: NodeId ::
                FormlessSync(old(nodes), old(height), geometry, rendered, submits, Some(hit), s, t) ==>
                  Synced(old(nodes), old(height), nodes, height, s, t)
      ensures (forall s: NodeId, t: NodeId ::
                 !FormlessSync(old(nodes), old(height), geometry, rendered, submits, Some(hit), s, t)) ==>
                nodes == old(nodes) && height == old(height)
    {
      hide IsForest, FormlessSync, CanSync, Synced, IsAncestorWrapperControl, IsSoleHiddenForm;
      var candidate: Option<NodeId> := Some(hit);
      while candidate.Some?
        invariant nodes == old(nodes) && height == old(height)
        invariant forall s: NodeId, t: NodeId ::
                    FormlessSync(nodes, height, geometry, rendered, submits, Some(hit), s, t) <==>
                    FormlessSync(nodes, height, geometry, rendered, submits, candidate, s, t)
        decreases Climb(nodes, height, candidate)
      {
        var node := candidate.value;
        FormlessUnfolds(nodes, height, geometry, rendered, submits, node);
        var done := SyncAt(geometry, node, rendered, submits(node));
        if done {
          return;
        }
        candidate := Parent(nodes, node);
      }
      NoFormlessSync(nodes, height, geometry, rendered, submits);
    }

    /** One node of the climb. */
    method SyncAt(geometry: Geometry, node: NodeId, rendered: NodeId -> bool, submits: bool) returns (done: bool)
      requires Valid()
      modifies this
      ensures Valid()
      ensures forall s: NodeId, t: NodeId ::
                EligibleAt(old(nodes), old(height), geometry, rendered, submits, node, s, t) ==>
                  done && Synced(old(nodes), old(height), nodes, height, s, t)
      ensures done ==> exists s: NodeId, t: NodeId ::
                EligibleAt(old(nodes), old(height), geometry, rendered, submits, node, s, t)
      ensures !done ==> nodes == old(nodes) && height == old(height)
    {
      hide IsForest, CanSync, Synced, IsAncestorWrapperControl, IsSoleHiddenForm, AssociatedForm;
      if !submits || Attribute(nodes, node, "disabled").Some? {
        return false;
      }
      var associated := AssociatedFormForNode(nodes, height, node);
      if associated.Some? {
        return false;
      }
      var form := FallbackSubmitForm(nodes, height, node, rendered);
      if form.None? {
        return false;
      }
      var source := AncestorWrapperControl(nodes, height, geometry, node);
      if source.None? {
        return false;
      }
      ghost var was, heights := nodes, height;
      done := SyncSubmitControlValue(source.value, form.value);
      if done {
        ghost var t: NodeId :| CanSync(was, heights, source.value, form.value, t);
        assert EligibleAt(was, heights, geometry, rendered, submits, node, source.value, t);
      }
    }
  }

  // ---- What syncing means -------------------------------------------------------------------------------

  /** `t` is the form's only query control, it is not `source`, and `source` has a value. */
  ghost predicate CanSync(nodes: Nodes, height: seq<nat>, source: NodeId, form: NodeId, t: NodeId)
    requires IsForest(nodes, height)
  {
    IsSoleQueryControl(nodes, height, form, t) && t != source && TextValue(nodes, height, source).Some?
  }

  /** `t` now reads what `s` read before; nothing else was written. */
  ghost predicate Synced(nodes: Nodes, height: seq<nat>, after: Nodes, raised: seq<nat>, s: NodeId, t: NodeId)
    requires IsForest(nodes, height) && IsForest(after, raised)
  {
    && TextValue(nodes, height, s).Some?
    && after == Rewritten(nodes, t, TextValue(nodes, height, s).value)
    && TextValue(after, raised, t) == TextValue(nodes, height, s)
  }

  lemma SoleControlIsText(nodes: Nodes, height: seq<nat>, form: NodeId, t: NodeId)
    requires IsForest(nodes, height) && IsSoleQueryControl(nodes, height, form, t)
    ensures IsTextControl(nodes, t)
  {
    hide IsForest;
  }

  /** At `n`, an enabled submit control without a form, the text of `s` can go to `t`. */
  ghost predicate EligibleAt(nodes: Nodes, height: seq<nat>, geometry: Geometry, rendered: NodeId -> bool,
                             submits: bool, n: NodeId, s: NodeId, t: NodeId)
    requires IsForest(nodes, height)
  {
    && submits && Attribute(nodes, n, "disabled").None?
    && AssociatedForm(nodes, height, n).None?
    && IsAncestorWrapperControl(nodes, height, geometry, Parent(nodes, n), s)
    && exists form: NodeId :: IsSoleHiddenForm(nodes, height, rendered, form) && CanSync(nodes, height, s, form, t)
  }

  ghost function Climb(nodes: Nodes, height: seq<nat>, candidate: Option<NodeId>): nat
    requires IsForest(nodes, height)
  {
    if candidate.None? then 0
    else if candidate.value < |nodes| then |nodes| - height[candidate.value]
    else |nodes| + 1
  }

  /** From `candidate` upwards, the first eligible node passes the text of `s` to `t`. */
  ghost predicate FormlessSync(nodes: Nodes, height: seq<nat>, geometry: Geometry, rendered: NodeId -> bool,
                               submits: NodeId -> bool, candidate: Option<NodeId>, s: NodeId, t: NodeId)
    requires IsForest(nodes, height)
    decreases Climb(nodes, height, candidate)
  {
    candidate.Some? &&
    var n := candidate.value;
    if IsEligible(nodes, height, geometry, rendered, submits(n), n)
    then EligibleAt(nodes, height, geometry, rendered, submits(n), n, s, t)
    else FormlessSync(nodes, height, geometry, rendered, submits, Parent(nodes, n), s, t)
  }

  ghost predicate IsEligible(nodes: Nodes, height: seq<nat>, geometry: Geometry, rendered: NodeId -> bool,
                             submits: bool, n: NodeId)
    requires IsForest(nodes, height)
  {
    exists s: NodeId, t: NodeId :: EligibleAt(nodes, height, geometry, rendered, submits, n, s, t)
  }

  lemma FormlessUnfolds(nodes: Nodes, height: seq<nat>, geometry: Geometry, rendered: NodeId -> bool,
                        submits: NodeId -> bool, n: NodeId)
    requires IsForest(nodes, height)
    ensures Climb(nodes, height, Parent(nodes, n)) < Climb(nodes, height, Some(n))
    ensures forall s: NodeId, t: NodeId ::
              FormlessSync(nodes, height, geometry, rendered, submits, Some(n), s, t) <==>
              if IsEligible(nodes, height, geometry, rendered, submits(n), n)
              then EligibleAt(nodes, height, geometry, rendered, submits(n), n, s, t)
              else FormlessSync(nodes, height, geometry, rendered, submits, Parent(nodes, n), s, t)
  {
    hide EligibleAt, IsEligible;
  }

  lemma NoFormlessSync(nodes: Nodes, height: seq<nat>, geometry: Geometry, rendered: NodeId -> bool,
                       submits: NodeId -> bool)
    requires IsForest(nodes, height)
    ensures forall s: NodeId, t: NodeId ::
              !FormlessSync(nodes, height, geometry, rendered, submits, None, s, t)
  {
  }
}
