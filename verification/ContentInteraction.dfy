/**
 Control values and form routing of the native shell
 (`crates/render-browser/src/content_interaction.rs`): walks over the document with an
 explicit stack, each proved against the document's preorder.
 */
module ContentInteraction {
  import opened Text
  import opened HttpTypes
  import opened DomTree

  // ---- What a node is -----------------------------------------------------------------------------

  predicate IsForm(nodes: Nodes, n: NodeId) {
    IsElement(nodes, n, "form")
  }

  predicate IsTextEntryInputType(inputType: string) {
    Lower(inputType) in {"text", "search", "email", "password", "tel", "url"}
  }

  /** The type of an input; a missing or empty attribute means text. */
  function InputType(nodes: Nodes, n: NodeId): string {
    var given := Attribute(nodes, n, "type");
    if given.Some? && given.value != "" then given.value else "text"
  }

  predicate IsQueryControl(nodes: Nodes, n: NodeId) {
    if IsElement(nodes, n, "input") then IsTextEntryInputType(InputType(nodes, n))
    else IsElement(nodes, n, "textarea")
  }

  predicate IsContentEditable(nodes: Nodes, n: NodeId) {
    var value := Attribute(nodes, n, "contenteditable");
    value.Some? && (value.value == "" || SameName(value.value, "true") || SameName(value.value, "plaintext-only"))
  }

  predicate IsEnabledQueryControl(nodes: Nodes, n: NodeId) {
    IsQueryControl(nodes, n) && Attribute(nodes, n, "disabled").None?
  }

  // ---- What the attributes say --------------------------------------------------------------------

  /** The first attribute that the element spells like this has this value. */
  predicate Says(nodes: Nodes, n: NodeId, name: string, value: string) {
    && n < |nodes| && nodes[n].kind.Element?
    && var attributes := nodes[n].kind.attributes;
       exists k :: 0 <= k < |attributes| && attributes[k] == (name, value)
                   && forall j :: 0 <= j < k ==> attributes[j].0 != name
  }

  predicate SaysNothing(nodes: Nodes, n: NodeId, name: string) {
    n < |nodes| && nodes[n].kind.Element? ==>
      forall k :: 0 <= k < |nodes[n].kind.attributes| ==> nodes[n].kind.attributes[k].0 != name
  }

  lemma {:induction false} FirstValue(attributes: Attributes, name: string)
    ensures ValueOf(attributes, name) == None <==> forall k :: 0 <= k < |attributes| ==> attributes[k].0 != name
    ensures ValueOf(attributes, name).Some? ==>
              exists k :: 0 <= k < |attributes| && attributes[k] == (name, ValueOf(attributes, name).value)
                          && forall j :: 0 <= j < k ==> attributes[j].0 != name
  {
    if attributes != [] && attributes[0].0 != name {
      FirstValue(attributes[1..], name);
      if ValueOf(attributes[1..], name).Some? {
        var k :| 0 <= k < |attributes| - 1 && attributes[1..][k] == (name, ValueOf(attributes, name).value)
                 && forall j :: 0 <= j < k ==> attributes[1..][j].0 != name;
        assert attributes[k + 1] == attributes[1..][k];
        assert forall j :: 1 <= j < k + 1 ==> attributes[j] == attributes[1..][j - 1];
      } else {
        assert forall k :: 1 <= k < |attributes| ==> attributes[k] == attributes[1..][k - 1];
      }
    }
  }

  /** Reading an attribute under a lower-case name is reading the first one spelled like that. */
  lemma AttributeMeaning(nodes: Nodes, n: NodeId, name: string, value: string)
    requires IsLowerCase(name)
    ensures Attribute(nodes, n, name) == Some(value) <==> Says(nodes, n, name, value)
    ensures Attribute(nodes, n, name) == None <==> SaysNothing(nodes, n, name)
  {
    hide ValueOf;
    if n < |nodes| && nodes[n].kind.Element? {
      SpelledStays(nodes[n].kind.html, name);
      FirstValue(nodes[n].kind.attributes, name);
    }
  }

  lemma SpelledStays(html: bool, name: string)
    requires IsLowerCase(name)
    ensures Spelled(html, name) == name
  {
    assert Lower(name) == name;
  }

  const TEXT_TYPES: seq<string> := ["text", "search", "email", "password", "tel", "url"]

  predicate IsTextType(s: string) {
    exists k :: 0 <= k < |TEXT_TYPES| && Spells(s, TEXT_TYPES[k])
  }

  lemma TextTypes(s: string)
    ensures IsTextEntryInputType(s) <==> IsTextType(s)
  {
    forall k | 0 <= k < |TEXT_TYPES| ensures Spells(s, TEXT_TYPES[k]) <==> Lower(s) == TEXT_TYPES[k] {
      TextTypesAreLowerCase(k);
      LowerIsSpelled(s, TEXT_TYPES[k]);
    }
    assert |TEXT_TYPES| == 6;
    assert IsTextType(s) <==>
           Spells(s, TEXT_TYPES[0]) || Spells(s, TEXT_TYPES[1]) || Spells(s, TEXT_TYPES[2])
           || Spells(s, TEXT_TYPES[3]) || Spells(s, TEXT_TYPES[4]) || Spells(s, TEXT_TYPES[5]);
  }

  lemma TextTypesAreLowerCase(k: nat)
    requires k < |TEXT_TYPES|
    ensures IsLowerCase(TEXT_TYPES[k])
  {
  }

  /** An input for text: without a type, with an empty one, or with one of the text types in any case. */
  ghost predicate IsTextInput(nodes: Nodes, n: NodeId) {
    && IsElement(nodes, n, "input")
    && (SaysNothing(nodes, n, "type") || Says(nodes, n, "type", "")
        || exists given :: Says(nodes, n, "type", given) && IsTextType(given))
  }

  /** The element says that its content can be edited. */
  ghost predicate IsEditable(nodes: Nodes, n: NodeId) {
    || Says(nodes, n, "contenteditable", "")
    || exists given :: Says(nodes, n, "contenteditable", given)
                       && (Spells(given, "true") || Spells(given, "plaintext-only"))
  }

  lemma InputTypeMeaning(nodes: Nodes, n: NodeId)
    requires IsElement(nodes, n, "input")
    ensures IsTextEntryInputType(InputType(nodes, n)) <==> IsTextInput(nodes, n)
  {
    hide Says, SaysNothing, IsTextType, IsTextEntryInputType, Attribute;
    assert IsLowerCase("type");
    var given := Attribute(nodes, n, "type");
    TextTypes(InputType(nodes, n));
    TextIsTextType();
    forall value ensures given == Some(value) <==> Says(nodes, n, "type", value)
                 ensures given == None <==> SaysNothing(nodes, n, "type")
    {
      AttributeMeaning(nodes, n, "type", value);
    }
    AttributeMeaning(nodes, n, "type", "");
  }

  lemma TextIsTextType()
    ensures IsTextType("text")
  {
    assert Spells("text", TEXT_TYPES[0]);
  }

  lemma EditableMeaning(nodes: Nodes, n: NodeId)
    ensures IsContentEditable(nodes, n) <==> IsEditable(nodes, n)
  {
    hide Says, SaysNothing, SameName, Spells, Attribute;
    assert IsLowerCase("contenteditable") && IsLowerCase("true") && IsLowerCase("plaintext-only");
    var given := Attribute(nodes, n, "contenteditable");
    forall value ensures given == Some(value) <==> Says(nodes, n, "contenteditable", value) {
      AttributeMeaning(nodes, n, "contenteditable", value);
    }
    if given.Some? {
      SpellsMeansSameName(given.value, "true");
      SpellsMeansSameName(given.value, "plaintext-only");
    }
  }

  // ---- Text ---------------------------------------------------------------------------------------

  /** The text of the text nodes among these, in this order. */
  function TextOf(nodes: Nodes, ns: seq<NodeId>): string {
    if ns == [] then ""
    else
      var n := ns[|ns| - 1];
      TextOf(nodes, ns[..|ns| - 1]) + if n < |nodes| && nodes[n].kind.Text? then nodes[n].kind.text else ""
  }

  lemma TextOfSnoc(nodes: Nodes, ns: seq<NodeId>, n: NodeId)
    ensures TextOf(nodes, ns + [n]) ==
            TextOf(nodes, ns) + if n < |nodes| && nodes[n].kind.Text? then nodes[n].kind.text else ""
  {
    assert (ns + [n])[..|ns|] == ns;
  }

  /** The stack of a walk below a node: its children, the first one on top. */
  lemma StartBelow(nodes: Nodes, height: seq<nat>, root: NodeId)
    requires IsForest(nodes, height)
    ensures Within(nodes, Children(nodes, root)) && Within(nodes, Reversed(Children(nodes, root)))
    ensures Upcoming(nodes, height, Reversed(Children(nodes, root))) == Descendants(nodes, height, root)
  {
    hide PreorderAll;
    assert Reversed(Reversed(Children(nodes, root))) == Children(nodes, root);
  }

  lemma HasDocument(nodes: Nodes, height: seq<nat>)
    requires IsForest(nodes, height)
    ensures DOCUMENT < |nodes| == |height|
  {
  }

  lemma StartAt(nodes: Nodes, height: seq<nat>, root: NodeId)
    requires IsForest(nodes, height) && root < |nodes|
    ensures Within(nodes, [root])
    ensures Upcoming(nodes, height, [root]) == Preorder(nodes, height, root)
  {
    hide PreorderAll, Preorder;
    assert Reversed([root]) == [root] && [root] + [] == [root];
    PreorderCons(nodes, height, root, []);
    PreorderNone(nodes, height);
  }

  /** One turn of a walk: the popped node moves from the coming nodes to the visited ones. */
  lemma Turn(nodes: Nodes, height: seq<nat>, visited: seq<NodeId>, pending: seq<NodeId>)
    requires IsForest(nodes, height) && Within(nodes, pending) && pending != []
    ensures
      var current := pending[|pending| - 1];
      var next := pending[..|pending| - 1] + Reversed(Children(nodes, current));
      && current < |nodes| && Within(nodes, next)
      && visited + Upcoming(nodes, height, pending) == visited + [current] + Upcoming(nodes, height, next)
      && |Upcoming(nodes, height, next)| < |Upcoming(nodes, height, pending)|
  {
    hide Upcoming, IsForest;
    InitLast(pending);
    PopThenPush(nodes, height, pending[..|pending| - 1], pending[|pending| - 1]);
  }

  /** The text below a node is the text of its descendants in document order. */
  method DescendantText(nodes: Nodes, ghost height: seq<nat>, root: NodeId) returns (output: string)
    requires IsForest(nodes, height)
    ensures output == TextOf(nodes, Descendants(nodes, height, root))
  {
    hide IsForest, Descendants, TextOf, Upcoming;
    output := "";
    StartBelow(nodes, height, root);
    var pending := Reversed(Children(nodes, root));
    ghost var visited: seq<NodeId> := [];
    assert TextOf(nodes, []) == "" by { TextOfNothing(nodes); }
    while pending != []
      invariant Within(nodes, pending)
      invariant visited + Upcoming(nodes, height, pending) == Descendants(nodes, height, root)
      invariant output == TextOf(nodes, visited)
      decreases |Upcoming(nodes, height, pending)|
    {
      Turn(nodes, height, visited, pending);
      var node := pending[|pending| - 1];
      pending := pending[..|pending| - 1];
      TextOfSnoc(nodes, visited, node);
      visited := visited + [node];
      if nodes[node].kind.Text? {
        output := output + nodes[node].kind.text;
      }
      pending := pending + Reversed(Children(nodes, node));
    }
    NothingUpcoming(nodes, height);
    assert visited + [] == visited;
  }

  lemma TextOfNothing(nodes: Nodes)
    ensures TextOf(nodes, []) == ""
  {
  }

  /** The value a user sees in a text control; other nodes have none. */
  ghost function TextValue(nodes: Nodes, height: seq<nat>, n: NodeId): Option<string>
    requires IsForest(nodes, height)
  {
    if n >= |nodes| || !nodes[n].kind.Element? then None
    else if nodes[n].kind.localName == "input" then
      if IsTextEntryInputType(InputType(nodes, n)) then
        var value := Attribute(nodes, n, "value");
        Some(if value.Some? then value.value else "")
      else None
    else if nodes[n].kind.localName == "textarea" || IsContentEditable(nodes, n) then
      Some(TextOf(nodes, Descendants(nodes, height, n)))
    else None
  }

  method ContentTextInputValue(nodes: Nodes, ghost height: seq<nat>, n: NodeId) returns (r: Option<string>)
    requires IsForest(nodes, height)
    ensures r == TextValue(nodes, height, n)
  {
    hide IsForest, Descendants, TextOf;
    if n >= |nodes| || !nodes[n].kind.Element? {
      return None;
    }
    if nodes[n].kind.localName == "input" {
      if !IsTextEntryInputType(InputType(nodes, n)) {
        return None;
      }
      var value := Attribute(nodes, n, "value");
      return Some(if value.Some? then value.value else "");
    }
    if nodes[n].kind.localName == "textarea" || IsContentEditable(nodes, n) {
      var text := DescendantText(nodes, height, n);
      return Some(text);
    }
    return None;
  }

  /** Whether a node is a text control does not depend on its value. */
  predicate IsTextControl(nodes: Nodes, n: NodeId) {
    && n < |nodes| && nodes[n].kind.Element?
    && if nodes[n].kind.localName == "input" then IsTextEntryInputType(InputType(nodes, n))
       else nodes[n].kind.localName == "textarea" || IsContentEditable(nodes, n)
  }

  /** Exactly which elements hold text: inputs for text, text areas, and other elements that can be edited. */
  lemma TextControlsAre(nodes: Nodes, n: NodeId)
    ensures IsTextControl(nodes, n) <==>
            || IsTextInput(nodes, n)
            || IsElement(nodes, n, "textarea")
            || (n < |nodes| && nodes[n].kind.Element? && nodes[n].kind.localName != "input" && IsEditable(nodes, n))
  {
    hide IsTextEntryInputType, IsContentEditable, Says, SaysNothing, IsTextType;
    EditableMeaning(nodes, n);
    if IsElement(nodes, n, "input") {
      InputTypeMeaning(nodes, n);
    }
  }

  /** Exactly which elements a form can be queried by: inputs for text and text areas that are not disabled. */
  lemma QueryControlsAre(nodes: Nodes, n: NodeId)
    ensures IsEnabledQueryControl(nodes, n) <==>
            (IsTextInput(nodes, n) || IsElement(nodes, n, "textarea")) && SaysNothing(nodes, n, "disabled")
  {
    hide IsTextEntryInputType, Says, SaysNothing, IsTextType, Attribute;
    assert IsLowerCase("disabled");
    AttributeMeaning(nodes, n, "disabled", "");
    if IsElement(nodes, n, "input") {
      InputTypeMeaning(nodes, n);
    }
  }

  // ---- Finding forms ------------------------------------------------------------------------------

  predicate IsFormNamed(nodes: Nodes, n: NodeId, id: string) {
    IsForm(nodes, n) && Attribute(nodes, n, "id") == Some(id)
  }

  /** The first of these nodes that is a form of that id. */
  function FirstForm(nodes: Nodes, ns: seq<NodeId>, id: string): (r: Option<NodeId>)
    ensures r.None? ==> forall i :: 0 <= i < |ns| ==> !IsFormNamed(nodes, ns[i], id)
    ensures r.Some? ==> exists k :: 0 <= k < |ns| && ns[k] == r.value && IsFormNamed(nodes, ns[k], id)
                               && forall i :: 0 <= i < k ==> !IsFormNamed(nodes, ns[i], id)
  {
    if ns == [] then None
    else
      var before := FirstForm(nodes, ns[..|ns| - 1], id);
      if before.Some? then before
      else if IsFormNamed(nodes, ns[|ns| - 1], id) then
        assert forall i :: 0 <= i < |ns| - 1 ==> ns[i] == ns[..|ns| - 1][i];
        Some(ns[|ns| - 1])
      else None
  }

  /** The first form of the document, in document order, with that id. */
  ghost function FormById(nodes: Nodes, height: seq<nat>, id: string): Option<NodeId>
    requires IsForest(nodes, height)
  {
    FirstForm(nodes, Preorder(nodes, height, DOCUMENT), id)
  }

  lemma FirstFormOf(nodes: Nodes, before: seq<NodeId>, n: NodeId, after: seq<NodeId>, id: string)
    requires forall i :: 0 <= i < |before| ==> !IsFormNamed(nodes, before[i], id)
    requires IsFormNamed(nodes, n, id)
    ensures FirstForm(nodes, before + [n] + after, id) == Some(n)
  {
    hide IsFormNamed;
    var all := before + [n] + after;
    assert all[|before|] == n;
    assert forall i :: 0 <= i < |before| ==> all[i] == before[i];
    var r := FirstForm(nodes, all, id);
    if r.Some? {
      var k :| 0 <= k < |all| && all[k] == r.value && IsFormNamed(nodes, all[k], id)
        && forall i :: 0 <= i < k ==> !IsFormNamed(nodes, all[i], id);
      assert k == |before|;
    }
  }

  method FindFormById(nodes: Nodes, ghost height: seq<nat>, id: string) returns (r: Option<NodeId>)
    requires IsForest(nodes, height)
    ensures r == FormById(nodes, height, id)
  {
    hide IsForest, Preorder, FirstForm, IsFormNamed, Upcoming;
    HasDocument(nodes, height);
    StartAt(nodes, height, DOCUMENT);
    var pending := [DOCUMENT];
    ghost var visited: seq<NodeId> := [];
    while pending != []
      invariant Within(nodes, pending)
      invariant visited + Upcoming(nodes, height, pending) == Preorder(nodes, height, DOCUMENT)
      invariant forall i :: 0 <= i < |visited| ==> !IsFormNamed(nodes, visited[i], id)
      decreases |Upcoming(nodes, height, pending)|
    {
      Turn(nodes, height, visited, pending);
      var current := pending[|pending| - 1];
      pending := pending[..|pending| - 1];
      if IsFormNamed(nodes, current, id) {
        FirstFormOf(nodes, visited, current, Upcoming(nodes, height, pending + Reversed(Children(nodes, current))), id);
        return Some(current);
      }
      visited := visited + [current];
      pending := pending + Reversed(Children(nodes, current));
    }
    NothingUpcoming(nodes, height);
    assert visited + [] == visited;
    return None;
  }

  /** A node and its ancestors, nearest first. */
  ghost function Ancestry(nodes: Nodes, height: seq<nat>, candidate: Option<NodeId>): (ns: seq<NodeId>)
    requires IsForest(nodes, height) && (candidate.Some? ==> candidate.value < |nodes|)
    ensures Within(nodes, ns)
    decreases if candidate.Some? then |nodes| - height[candidate.value] else 0
  {
    if candidate.None? then []
    else [candidate.value] + Ancestry(nodes, height, nodes[candidate.value].parent)
  }

  /** The nearest enclosing form, or else the form that the node's `form` attribute names. */
  ghost function AssociatedForm(nodes: Nodes, height: seq<nat>, n: NodeId): Option<NodeId>
    requires IsForest(nodes, height)
  {
    var enclosing := NearestForm(nodes, height, Parent(nodes, n));
    if enclosing.Some? then enclosing
    else
      var named := Attribute(nodes, n, "form");
      if named.Some? then FormById(nodes, height, named.value) else None
  }

  ghost function NearestForm(nodes: Nodes, height: seq<nat>, candidate: Option<NodeId>): Option<NodeId>
    requires IsForest(nodes, height) && (candidate.Some? ==> candidate.value < |nodes|)
    decreases if candidate.Some? then |nodes| - height[candidate.value] else 0
  {
    if candidate.None? || IsForm(nodes, candidate.value) then candidate
    else NearestForm(nodes, height, nodes[candidate.value].parent)
  }

  method AssociatedFormForNode(nodes: Nodes, ghost height: seq<nat>, n: NodeId) returns (r: Option<NodeId>)
    requires IsForest(nodes, height)
    ensures r == AssociatedForm(nodes, height, n)
  {
    hide FormById, IsForm;
    var candidate: Option<NodeId> := Parent(nodes, n);
    while candidate.Some?
      invariant candidate.Some? ==> candidate.value < |nodes|
      invariant NearestForm(nodes, height, Parent(nodes, n)) == NearestForm(nodes, height, candidate)
      decreases if candidate.Some? then |nodes| - height[candidate.value] else 0
    {
      if IsForm(nodes, candidate.value) {
        return candidate;
      }
      candidate := Parent(nodes, candidate.value);
    }
    var named := Attribute(nodes, n, "form");
    if named.None? {
      return None;
    }
    r := FindFormById(nodes, height, named.value);
  }

  /**
   What lets a submit intent without a form of its own use another form: it is the only
   form of the document, and it is not rendered.
   */
  ghost predicate IsSoleHiddenForm(nodes: Nodes, height: seq<nat>, rendered: NodeId -> bool, f: NodeId)
    requires IsForest(nodes, height)
  {
    && f in Preorder(nodes, height, DOCUMENT) && IsForm(nodes, f)
    && (forall g :: g in Preorder(nodes, height, DOCUMENT) && IsForm(nodes, g) ==> g == f)
    && !rendered(f)
  }

  lemma SplitsOnce(all: seq<NodeId>, before: seq<NodeId>, n: NodeId, after: seq<NodeId>)
    requires NoRepeats(all) && all == before + [n] + after
    ensures n !in before && n in all && forall m :: m in before ==> m in all
  {
    assert all[|before|] == n;
    forall i | 0 <= i < |before| ensures before[i] != n && before[i] in all {
      assert all[i] == before[i];
    }
  }

  method FallbackSubmitForm(nodes: Nodes, ghost height: seq<nat>, intent: NodeId, rendered: NodeId -> bool)
    returns (r: Option<NodeId>)
    requires IsForest(nodes, height)
    ensures forall f: NodeId :: r == Some(f) <==>
                        AssociatedForm(nodes, height, intent).None? && IsSoleHiddenForm(nodes, height, rendered, f)
  {
    hide IsForest, Preorder, IsForm, AssociatedForm, Upcoming;
    var associated := AssociatedFormForNode(nodes, height, intent);
    if associated.Some? {
      return None;
    }
    HasDocument(nodes, height);
    ghost var all := Preorder(nodes, height, DOCUMENT);
    PreorderVisitsOnce(nodes, height, DOCUMENT);
    StartAt(nodes, height, DOCUMENT);
    var found: Option<NodeId> := None;
    var pending := [DOCUMENT];
    ghost var visited: seq<NodeId> := [];
    while pending != []
      invariant Within(nodes, pending)
      invariant visited + Upcoming(nodes, height, pending) == all
      invariant found.None? ==> forall g :: g in visited ==> !IsForm(nodes, g)
      invariant found.Some? ==> found.value in visited && IsForm(nodes, found.value)
      invariant found.Some? ==> forall g :: g in visited && IsForm(nodes, g) ==> g == found.value
      decreases |Upcoming(nodes, height, pending)|
    {
      Turn(nodes, height, visited, pending);
      var current := pending[|pending| - 1];
      pending := pending[..|pending| - 1];
      if IsForm(nodes, current) {
        SplitsOnce(all, visited, current, Upcoming(nodes, height, pending + Reversed(Children(nodes, current))));
        if found.Some? {
          return None;
        }
        found := Some(current);
      }
      visited := visited + [current];
      pending := pending + Reversed(Children(nodes, current));
    }
    NothingUpcoming(nodes, height);
    assert visited + [] == visited;
    if found.None? || rendered(found.value) {
      return None;
    }
    return found;
  }

  /** The only enabled single-line query control below a form. */
  ghost predicate IsSoleQueryControl(nodes: Nodes, height: seq<nat>, form: NodeId, c: NodeId)
    requires IsForest(nodes, height)
  {
    && c in Descendants(nodes, height, form) && IsEnabledQueryControl(nodes, c)
    && forall d :: d in Descendants(nodes, height, form) && IsEnabledQueryControl(nodes, d) ==> d == c
  }

  /** The descendants of a node, each once. */
  lemma DescendantsVisitedOnce(nodes: Nodes, height: seq<nat>, root: NodeId)
    requires IsForest(nodes, height)
    ensures NoRepeats(Descendants(nodes, height, root))
  {
    hide PreorderAll, Preorder;
    if root < |nodes| {
      PreorderUnfolds(nodes, height, root);
      PreorderVisitsOnce(nodes, height, root);
      var all, below := Preorder(nodes, height, root), Descendants(nodes, height, root);
      assert forall i :: 0 <= i < |below| ==> below[i] == all[i + 1];
    } else {
      PreorderNone(nodes, height);
    }
  }

  method FormSingleQueryControl(nodes: Nodes, ghost height: seq<nat>, form: NodeId) returns (r: Option<NodeId>)
    requires IsForest(nodes, height)
    ensures forall c: NodeId :: r == Some(c) <==> IsSoleQueryControl(nodes, height, form, c)
  {
    hide IsForest, Descendants, IsEnabledQueryControl, Upcoming;
    ghost var all := Descendants(nodes, height, form);
    DescendantsVisitedOnce(nodes, height, form);
    StartBelow(nodes, height, form);
    var found: Option<NodeId> := None;
    var pending := Reversed(Children(nodes, form));
    ghost var visited: seq<NodeId> := [];
    while pending != []
      invariant Within(nodes, pending)
      invariant visited + Upcoming(nodes, height, pending) == all
      invariant found.None? ==> forall g :: g in visited ==> !IsEnabledQueryControl(nodes, g)
      invariant found.Some? ==> found.value in visited && IsEnabledQueryControl(nodes, found.value)
      invariant found.Some? ==> forall g :: g in visited && IsEnabledQueryControl(nodes, g) ==> g == found.value
      decreases |Upcoming(nodes, height, pending)|
    {
      Turn(nodes, height, visited, pending);
      var node := pending[|pending| - 1];
      pending := pending[..|pending| - 1];
      if IsEnabledQueryControl(nodes, node) {
        SplitsOnce(all, visited, node, Upcoming(nodes, height, pending + Reversed(Children(nodes, node))));
        if found.Some? {
          return None;
        }
        found := Some(node);
      }
      visited := visited + [node];
      pending := pending + Reversed(Children(nodes, node));
    }
    NothingUpcoming(nodes, height);
    assert visited + [] == visited;
    return found;
  }

  // ---- Wrappers -----------------------------------------------------------------------------------

  /** The size of an element's box. */
  datatype Rect = Rect(width: real, height: real)

  type Geometry = map<NodeId, Rect>

  function Area(rect: Rect): real {
    rect.width * rect.height
  }

  /** A text control with a box. */
  predicate IsBoxedControl(nodes: Nodes, geometry: Geometry, n: NodeId) {
    IsTextControl(nodes, n) && n in geometry
  }

  /** The `k`-th of these nodes is the smallest boxed control, and the first one of that size. */
  predicate IsSmallest(nodes: Nodes, geometry: Geometry, ns: seq<NodeId>, k: nat) {
    && k < |ns| && IsBoxedControl(nodes, geometry, ns[k])
    && (forall j :: 0 <= j < |ns| && IsBoxedControl(nodes, geometry, ns[j]) ==>
          Area(geometry[ns[j]]) >= Area(geometry[ns[k]])
          && (j < k ==> Area(geometry[ns[j]]) > Area(geometry[ns[k]])))
  }

  /**
   The control a click on a wrapper goes to: the smallest boxed text control below it,
   if it covers at least a quarter of the wrapper. The walk takes the children from the
   last to the first, so of equal controls the first in that order counts.
   */
  ghost predicate IsWrapperControl(nodes: Nodes, height: seq<nat>, geometry: Geometry, n: NodeId, c: NodeId)
    requires IsForest(nodes, height)
  {
    MirrorIsForest(nodes, height);
    var below := Descendants(Mirror(nodes), height, n);
    && n in geometry && Area(geometry[n]) > 0.0
    && exists k: nat ::
         && IsSmallest(nodes, geometry, below, k) && below[k] == c
         && Area(geometry[c]) >= Area(geometry[n]) * 0.25
  }

  lemma SmallestIsUnique(nodes: Nodes, geometry: Geometry, ns: seq<NodeId>)
    ensures forall k: nat, l: nat :: IsSmallest(nodes, geometry, ns, k) && IsSmallest(nodes, geometry, ns, l) ==> k == l
    ensures forall k: nat :: IsSmallest(nodes, geometry, ns, k) ==> k < |ns| && IsBoxedControl(nodes, geometry, ns[k])
  {
    hide IsBoxedControl, Area;
  }

  /** The best control so far, with its area. */
  ghost predicate IsBest(nodes: Nodes, geometry: Geometry, ns: seq<NodeId>, k: nat, best: (real, NodeId)) {
    && IsSmallest(nodes, geometry, ns, k) && ns[k] == best.1
    && best.1 in geometry && best.0 == Area(geometry[best.1])
  }

  /** One more node looked at, when there was a best control already. */
  lemma NextBest(nodes: Nodes, geometry: Geometry, ns: seq<NodeId>, k: nat, best: (real, NodeId), n: NodeId)
    requires IsBest(nodes, geometry, ns, k, best)
    ensures !IsBoxedControl(nodes, geometry, n) || Area(geometry[n]) >= best.0 ==>
              IsBest(nodes, geometry, ns + [n], k, best)
    ensures IsBoxedControl(nodes, geometry, n) && Area(geometry[n]) < best.0 ==>
              IsBest(nodes, geometry, ns + [n], |ns|, (Area(geometry[n]), n))
  {
    hide IsTextControl, Area;
    var all := ns + [n];
    assert all[|ns|] == n && forall j :: 0 <= j < |ns| ==> all[j] == ns[j];
  }

  lemma FirstBest(nodes: Nodes, geometry: Geometry, ns: seq<NodeId>, n: NodeId)
    requires forall j :: 0 <= j < |ns| ==> !IsBoxedControl(nodes, geometry, ns[j])
    requires IsBoxedControl(nodes, geometry, n)
    ensures IsBest(nodes, geometry, ns + [n], |ns|, (Area(geometry[n]), n))
  {
    hide IsTextControl, Area;
    var all := ns + [n];
    assert all[|ns|] == n && forall j :: 0 <= j < |ns| ==> all[j] == ns[j];
  }

  lemma ControlsHaveValues(nodes: Nodes, height: seq<nat>, n: NodeId)
    requires IsForest(nodes, height)
    ensures TextValue(nodes, height, n).Some? <==> IsTextControl(nodes, n)
  {
    hide IsForest;
  }

  lemma MirroredChildren(nodes: Nodes, n: NodeId)
    ensures Reversed(Children(Mirror(nodes), n)) == Children(nodes, n)
  {
  }

  method ContentWrapperControl(nodes: Nodes, ghost height: seq<nat>, geometry: Geometry, n: NodeId)
    returns (r: Option<NodeId>)
    requires IsForest(nodes, height)
    ensures forall c: NodeId :: r == Some(c) <==> IsWrapperControl(nodes, height, geometry, n, c)
  {
    hide IsForest, Descendants, IsSmallest, IsBest, IsBoxedControl, Upcoming, IsTextControl, Area;
    if n !in geometry {
      return None;
    }
    var wrapperArea := Area(geometry[n]);
    if wrapperArea <= 0.0 {
      return None;
    }
    ghost var mirror := Mirror(nodes);
    MirrorIsForest(nodes, height);
    StartBelow(mirror, height, n);
    MirroredChildren(nodes, n);
    var pending := Children(nodes, n);
    var best: Option<(real, NodeId)> := None;
    ghost var bestAt: nat := 0;
    ghost var visited: seq<NodeId> := [];
    while pending != []
      invariant Within(mirror, pending)
      invariant visited + Upcoming(mirror, height, pending) == Descendants(mirror, height, n)
      invariant best.None? ==> forall j :: 0 <= j < |visited| ==> !IsBoxedControl(nodes, geometry, visited[j])
      invariant best.Some? ==> IsBest(nodes, geometry, visited, bestAt, best.value)
      decreases |Upcoming(mirror, height, pending)|
    {
      Turn(mirror, height, visited, pending);
      var current := pending[|pending| - 1];
      MirroredChildren(nodes, current);
      pending := pending[..|pending| - 1] + Children(nodes, current);
      ControlsHaveValues(nodes, height, current);
      BoxedMeans(nodes, geometry, current);
      if best.Some? {
        NextBest(nodes, geometry, visited, bestAt, best.value, current);
      } else if IsBoxedControl(nodes, geometry, current) {
        FirstBest(nodes, geometry, visited, current);
      }
      visited := visited + [current];
      var value := ContentTextInputValue(nodes, height, current);
      if value.None? || current !in geometry {
        continue;
      }
      var area := Area(geometry[current]);
      if best.None? || area < best.value.0 {
        best, bestAt := Some((area, current)), |visited| - 1;
      }
    }
    NothingUpcoming(mirror, height);
    assert visited + [] == visited;
    SmallestIsUnique(nodes, geometry, visited);
    if best.Some? {
      BestMeans(nodes, geometry, visited, bestAt, best.value);
    }
    if best.None? || best.value.0 < wrapperArea * 0.25 {
      return None;
    }
    return Some(best.value.1);
  }

  lemma BestMeans(nodes: Nodes, geometry: Geometry, ns: seq<NodeId>, k: nat, best: (real, NodeId))
    requires IsBest(nodes, geometry, ns, k, best)
    ensures IsSmallest(nodes, geometry, ns, k) && k < |ns| && ns[k] == best.1
    ensures best.1 in geometry && best.0 == Area(geometry[best.1])
  {
  }

  lemma BoxedMeans(nodes: Nodes, geometry: Geometry, n: NodeId)
    ensures IsBoxedControl(nodes, geometry, n) <==> IsTextControl(nodes, n) && n in geometry
  {
  }

  ghost predicate HasWrapperControl(nodes: Nodes, height: seq<nat>, geometry: Geometry, n: NodeId)
    requires IsForest(nodes, height)
  {
    exists c: NodeId :: IsWrapperControl(nodes, height, geometry, n, c)
  }

  /** The control of the nearest ancestor that routes to one. */
  ghost predicate IsAncestorWrapperControl(nodes: Nodes, height: seq<nat>, geometry: Geometry,
                                           candidate: Option<NodeId>, c: NodeId)
    requires IsForest(nodes, height)
    requires candidate.Some? ==> candidate.value < |nodes|
    decreases if candidate.Some? then |nodes| - height[candidate.value] else 0
  {
    candidate.Some? &&
    if HasWrapperControl(nodes, height, geometry, candidate.value)
    then IsWrapperControl(nodes, height, geometry, candidate.value, c)
    else IsAncestorWrapperControl(nodes, height, geometry, nodes[candidate.value].parent, c)
  }

  lemma WrapperUnfolds(nodes: Nodes, height: seq<nat>, geometry: Geometry, candidate: NodeId, c: NodeId)
    requires IsForest(nodes, height) && candidate < |nodes|
    ensures nodes[candidate].parent.Some? ==>
              nodes[candidate].parent.value < |nodes| == |height|
              && height[candidate] < height[nodes[candidate].parent.value] < |nodes|
    ensures IsAncestorWrapperControl(nodes, height, geometry, Some(candidate), c) <==>
            if HasWrapperControl(nodes, height, geometry, candidate)
            then IsWrapperControl(nodes, height, geometry, candidate, c)
            else IsAncestorWrapperControl(nodes, height, geometry, nodes[candidate].parent, c)
  {
    hide IsWrapperControl, HasWrapperControl;
  }

  method AncestorWrapperControl(nodes: Nodes, ghost height: seq<nat>, geometry: Geometry, n: NodeId)
    returns (r: Option<NodeId>)
    requires IsForest(nodes, height)
    ensures forall c: NodeId :: r == Some(c) <==> IsAncestorWrapperControl(nodes, height, geometry, Parent(nodes, n), c)
  {
    hide IsAncestorWrapperControl, IsWrapperControl;
    var candidate: Option<NodeId> := Parent(nodes, n);
    while candidate.Some?
      invariant candidate.Some? ==> candidate.value < |nodes|
      invariant forall c: NodeId ::
                  IsAncestorWrapperControl(nodes, height, geometry, Parent(nodes, n), c) <==>
                  IsAncestorWrapperControl(nodes, height, geometry, candidate, c)
      decreases if candidate.Some? then |nodes| - height[candidate.value] else 0
    {
      forall c: NodeId {
        WrapperUnfolds(nodes, height, geometry, candidate.value, c);
      }
      var control := ContentWrapperControl(nodes, height, geometry, candidate.value);
      if control.Some? {
        return control;
      }
      candidate := Parent(nodes, candidate.value);
    }
    NoAncestorNoWrapper(nodes, height, geometry);
    return None;
  }

  lemma NoAncestorNoWrapper(nodes: Nodes, height: seq<nat>, geometry: Geometry)
    requires IsForest(nodes, height)
    ensures forall c: NodeId :: !IsAncestorWrapperControl(nodes, height, geometry, None, c)
  {
  }
}
