/**
 * The HTML tree of vimgolf/html.py: nodes linked to their parent and
 * children, the parser callbacks that build that tree from the tokenizer's
 * events with a stack of open elements, and the queries over the list of
 * nodes.  The tokenizer itself is not part of this model: a document is the
 * sequence of events it would report.
 */
module Html {
  import opened Common

  datatype NodeType = ELEMENT | TEXT

  /** An attribute as the tokenizer reports it: a name, and a value that is None for a bare attribute. */
  type Attr = (string, Option<string>)

  // ------------------------------------------------------------------
  // Attributes
  // ------------------------------------------------------------------

  /** The position of the first attribute called name, or the number of attributes when there is none. */
  function AttrIndex(attrs: seq<Attr>, name: string): (i: nat)
    ensures i <= |attrs|
    ensures i < |attrs| ==> attrs[i].0 == name
    ensures forall j :: 0 <= j < i ==> attrs[j].0 != name
  {
    if attrs == [] then 0
    else if attrs[0].0 == name then 0
    else 1 + AttrIndex(attrs[1..], name)
  }

  /** What get_attr returns: the value of the first attribute called name, or None. */
  function AttrValue(attrs: seq<Attr>, name: string): Option<string> {
    var i := AttrIndex(attrs, name);
    if i < |attrs| then attrs[i].1 else None
  }

  /** No attribute is called name. */
  predicate NoneNamed(attrs: seq<Attr>, name: string) {
    forall j :: 0 <= j < |attrs| ==> attrs[j].0 != name
  }

  /** The attribute at i is the first one called name. */
  predicate FirstNamed(attrs: seq<Attr>, name: string, i: nat) {
    i < |attrs| && attrs[i].0 == name && forall j :: 0 <= j < i ==> attrs[j].0 != name
  }

  /** The first attribute called name is the one at i exactly when none before i has that name. */
  lemma AttrIndexAt(attrs: seq<Attr>, name: string, i: nat)
    requires i <= |attrs| && (i < |attrs| ==> attrs[i].0 == name)
    requires forall j :: 0 <= j < i ==> attrs[j].0 != name
    ensures AttrIndex(attrs, name) == i
  {
  }

  /** A later attribute with the same name is never seen; an attribute not named name is skipped. */
  lemma AttrValueFirstWins(a: Attr, rest: seq<Attr>, name: string)
    ensures AttrValue([a] + rest, name) == if a.0 == name then a.1 else AttrValue(rest, name)
  {
    if a.0 != name {
      assert ([a] + rest)[1..] == rest;
    }
  }

  /** get_class_list on an element's attributes: None unless the class attribute is truthy, else its words. */
  function ClassListOf(attrs: seq<Attr>): (r: Option<seq<string>>)
    ensures r.None? <==> !Truthy(AttrValue(attrs, "class"))
    ensures r.Some? ==> forall i :: 0 <= i < |r.value| ==> r.value[i] != [] && forall c :: c in r.value[i] ==> !IsSpace(c)
  {
    var value := AttrValue(attrs, "class");
    if Truthy(value) then Some(SplitWhitespace(value.value)) else None
  }

  /** A class attribute of blanks only is truthy, so the list exists, but it is empty. */
  lemma BlankClassAttribute(attrs: seq<Attr>)
    requires AttrValue(attrs, "class") == Some(" ")
    ensures ClassListOf(attrs) == Some([])
  {
    assert SplitWhitespace(" ") == SplitWhitespace(""[..]);
  }

  // ------------------------------------------------------------------
  // Nodes
  // ------------------------------------------------------------------

  /**
   * Element and TextNode in one class: an element has a tag, attributes and
   * children; a text node has its data.  Both know their parent, null at the
   * root.
   */
  class Node {
    const nodeType: NodeType
    const tag: string
    const attrs: seq<Attr>
    const data: string
    var parent: Node?
    var children: seq<Node>

    constructor Element(tag: string, attrs: seq<Attr>)
      ensures nodeType == ELEMENT && this.tag == tag && this.attrs == attrs
      ensures parent == null && children == []
    {
      nodeType := ELEMENT;
      this.tag := tag;
      this.attrs := attrs;
      data := "";
      parent := null;
      children := [];
    }

    constructor Text(data: string)
      ensures nodeType == TEXT && this.data == data
      ensures parent == null && children == []
    {
      nodeType := TEXT;
      tag := "";
      attrs := [];
      this.data := data;
      parent := null;
      children := [];
    }

    /** get_attr: scan the attributes for the first one called name. */
    method GetAttr(name: string) returns (v: Option<string>)
      ensures v == AttrValue(attrs, name)
    {
      var i := 0;
      while i < |attrs|
        invariant 0 <= i <= |attrs|
        invariant forall j :: 0 <= j < i ==> attrs[j].0 != name
      {
        if attrs[i].0 == name {
          AttrIndexAt(attrs, name, i);
          return attrs[i].1;
        }
        i := i + 1;
      }
      AttrIndexAt(attrs, name, i);
      return None;
    }

    /** get_id: the value of the first attribute called id, None when there is none. */
    function Id(): (r: Option<string>)
      ensures NoneNamed(attrs, "id") ==> r == None
      ensures forall i: nat :: FirstNamed(attrs, "id", i) ==> r == attrs[i].1
    {
      AttrValue(attrs, "id")
    }

    /** get_class_list. */
    function ClassList(): Option<seq<string>> {
      ClassListOf(attrs)
    }

    /** has_class: the list exists and holds the value (an empty or missing list is falsy). */
    predicate HasClass(value: string)
      ensures HasClass(value) ==> Truthy(AttrValue(attrs, "class")) && value != [] && forall c :: c in value ==> !IsSpace(c)
    {
      ClassList().Some? && value in ClassList().value
    }
  }

  // ------------------------------------------------------------------
  // The tree the parser builds
  // ------------------------------------------------------------------

  /** The node at i: its parent, if any, is listed before it and lists it among its children. */
  ghost predicate ParentBefore(nodes: seq<Node>, i: int)
    requires 0 <= i < |nodes|
    reads nodes
  {
    nodes[i].parent != null ==> nodes[i].parent in nodes[..i] && nodes[i] in nodes[i].parent.children
  }

  /** Every parent comes before its child in the list of nodes, and lists that child among its children. */
  ghost predicate ParentsFirst(nodes: seq<Node>)
    reads nodes
  {
    forall i :: 0 <= i < |nodes| ==> ParentBefore(nodes, i)
  }

  /** The k-th child of the node at i is listed and has that node as its parent. */
  ghost predicate ChildBack(nodes: seq<Node>, i: int, k: int)
    requires 0 <= i < |nodes| && 0 <= k < |nodes[i].children|
    reads nodes
  {
    nodes[i].children[k] in nodes && nodes[i].children[k].parent == nodes[i]
  }

  /** Every child of a listed node is listed and has that node as its parent. */
  ghost predicate ChildrenPointBack(nodes: seq<Node>)
    reads nodes
  {
    forall i, k :: 0 <= i < |nodes| && 0 <= k < |nodes[i].children| ==> ChildBack(nodes, i, k)
  }

  /** The parent of each listed node, in order. */
  ghost function ParentLinks(nodes: seq<Node>): (r: seq<Node?>)
    reads nodes
    ensures |r| == |nodes|
  {
    seq(|nodes|, i requires 0 <= i < |nodes| reads nodes => nodes[i].parent)
  }

  /** The children of each listed node, in order. */
  ghost function ChildLinks(nodes: seq<Node>): (r: seq<seq<Node>>)
    reads nodes
    ensures |r| == |nodes|
  {
    seq(|nodes|, i requires 0 <= i < |nodes| reads nodes => nodes[i].children)
  }

  /** The children lists kids of the nodes, after n joins the children of top wherever top is listed. */
  function Adopted(nodes: seq<Node>, kids: seq<seq<Node>>, top: Node?, n: Node): (r: seq<seq<Node>>)
    requires |kids| == |nodes|
    ensures |r| == |kids|
  {
    seq(|kids|, i requires 0 <= i < |kids| => if nodes[i] == top then kids[i] + [n] else kids[i])
  }

  /** HtmlParser's callbacks: the list of every node created, and the stack of open elements. */
  class HtmlParser {
    var nodes: seq<Node>
    var stack: seq<Node>

    /** The open elements are elements already listed, and parents are listed before their children. */
    ghost predicate Valid()
      reads this, nodes
    {
      (forall n :: n in stack ==> n in nodes && n.nodeType == ELEMENT) && ParentsFirst(nodes) && ChildrenPointBack(nodes)
    }

    constructor()
      ensures Valid() && nodes == [] && stack == []
    {
      nodes := [];
      stack := [];
    }

    /** The innermost open element, or null. */
    function Innermost(): Node?
      reads this
    {
      if stack == [] then null else stack[|stack| - 1]
    }

    /** What both handlers do with a new node: make it the last child of the open element, if any, and list it. */
    method Append(node: Node)
      requires Valid() && node !in nodes && node.parent == null && node.children == []
      modifies this, node, if stack == [] then {} else {stack[|stack| - 1]}
      ensures Valid() && stack == old(stack) && nodes == old(nodes) + [node] && node.children == []
      ensures old(stack) == [] ==> node.parent == null
      ensures old(stack) != [] ==> var top := old(stack)[|old(stack)| - 1];
        node.parent == top && top.children == old(top.children) + [node] && top.parent == old(top.parent)
      ensures ParentLinks(nodes) == old(ParentLinks(nodes)) + [node.parent]
      ensures ChildLinks(nodes) == Adopted(old(nodes), old(ChildLinks(nodes)), old(Innermost()), node) + [[]]
    {
      if stack != [] {
        var top := stack[|stack| - 1];
        top.children := top.children + [node];
        node.parent := top;
        assert top.parent == old(top.parent) && top.children == old(top.children) + [node];
      }
      nodes := nodes + [node];
      assert ParentLinks(nodes) == old(ParentLinks(nodes)) + [node.parent];
      assert ChildLinks(nodes) == Adopted(old(nodes), old(ChildLinks(nodes)), old(Innermost()), node) + [[]];
      assert ParentsFirst(nodes) by {
        forall i | 0 <= i < |nodes|
          ensures ParentBefore(nodes, i)
        {
          if i < |nodes| - 1 {
            assert old(ParentBefore(nodes, i));
            assert nodes[i] == old(nodes)[i] && nodes[..i] == old(nodes)[..i];
            assert nodes[i] != node;
          }
        }
      }
      assert ChildrenPointBack(nodes) by {
        forall i, k | 0 <= i < |nodes| && 0 <= k < |nodes[i].children|
          ensures ChildBack(nodes, i, k)
        {
          if i < |nodes| - 1 && k < |old(nodes[i].children)| {
            assert nodes[i] == old(nodes)[i];
            assert old(ChildBack(nodes, i, k));
            assert nodes[i].children[k] == old(nodes[i].children)[k];
            assert nodes[i].children[k] != node;
          }
        }
      }
    }

    /** handle_starttag: a new element, child of the open element if any, appended to the nodes and opened. */
    method StartTag(tag: string, attrs: seq<Attr>)
      requires Valid()
      modifies this, if stack == [] then {} else {stack[|stack| - 1]}
      ensures Valid()
      ensures |nodes| == |old(nodes)| + 1
      ensures var e := nodes[|nodes| - 1];
        && nodes == old(nodes) + [e] && fresh(e) && e.nodeType == ELEMENT && e.tag == tag && e.attrs == attrs && e.children == []
        && stack == old(stack) + [e]
        && (old(stack) == [] ==> e.parent == null)
        && (old(stack) != [] ==> var top := old(stack)[|old(stack)| - 1];
              e.parent == top && top.children == old(top.children) + [e] && top.parent == old(top.parent))
      ensures ParentLinks(nodes) == old(ParentLinks(nodes)) + [nodes[|nodes| - 1].parent]
      ensures ChildLinks(nodes) == Adopted(old(nodes), old(ChildLinks(nodes)), old(Innermost()), nodes[|nodes| - 1]) + [[]]
    {
      var element := new Node.Element(tag, attrs);
      Append(element);
      stack := stack + [element];
    }

    /** handle_endtag: close the innermost open element, whatever the tag; an empty stack fails (pop from an empty list). */
    method EndTag(tag: string) returns (ok: bool)
      requires Valid()
      modifies this
      ensures Valid()
      ensures nodes == old(nodes)
      ensures ok <==> old(stack) != []
      ensures stack == if ok then old(stack)[..|old(stack)| - 1] else old(stack)
    {
      if stack == [] {
        return false;
      }
      stack := stack[..|stack| - 1];
      return true;
    }

    /** handle_data: a new text node, child of the open element if any, appended to the nodes. */
    method Data(data: string)
      requires Valid()
      modifies this, if stack == [] then {} else {stack[|stack| - 1]}
      ensures Valid()
      ensures stack == old(stack)
      ensures |nodes| == |old(nodes)| + 1
      ensures var t := nodes[|nodes| - 1];
        && nodes == old(nodes) + [t] && fresh(t) && t.nodeType == TEXT && t.data == data && t.children == []
        && (old(stack) == [] ==> t.parent == null)
        && (old(stack) != [] ==> var top := old(stack)[|old(stack)| - 1];
              t.parent == top && top.children == old(top.children) + [t] && top.parent == old(top.parent))
      ensures ParentLinks(nodes) == old(ParentLinks(nodes)) + [nodes[|nodes| - 1].parent]
      ensures ChildLinks(nodes) == Adopted(old(nodes), old(ChildLinks(nodes)), old(Innermost()), nodes[|nodes| - 1]) + [[]]
    {
      var text := new Node.Text(data);
      Append(text);
    }

    /** The tree built so far is the one the events seen describe: nodes, open elements and links. */
    ghost predicate Follows(seen: seq<Event>)
      reads this, nodes
    {
      Tracks(nodes, stack, seen)
    }

    /**
     * The handler the tokenizer calls for one event; false when an end tag
     * finds no open element. A tree that follows the events seen follows
     * them and e afterwards.
     */
    method Handle(e: Event, ghost seen: seq<Event>) returns (ok: bool)
      requires Valid()
      modifies this, if stack == [] then {} else {stack[|stack| - 1]}
      ensures Valid()
      ensures ok <==> !e.EndTagEvent? || old(stack) != []
      ensures ok ==> |stack| == Depth(|old(stack)|, e)
      ensures e.EndTagEvent? ==> nodes == old(nodes)
      ensures !e.EndTagEvent? ==> |nodes| == |old(nodes)| + 1
      ensures !e.EndTagEvent? ==> var n := nodes[|nodes| - 1];
        && nodes == old(nodes) + [n] && fresh(n) && CreatedBy(n, e)
        && stack == old(stack) + (if e.StartTagEvent? then [n] else [])
        && n.children == []
        && (old(stack) == [] ==> n.parent == null)
        && (old(stack) != [] ==> var top := old(stack)[|old(stack)| - 1];
              n.parent == top && top.children == old(top.children) + [n] && top.parent == old(top.parent))
      ensures e.EndTagEvent? && old(stack) != [] ==> unchanged(old(stack)[|old(stack)| - 1])
      ensures e.EndTagEvent? && ok ==> stack == old(stack)[..|old(stack)| - 1]
      ensures !ok ==> stack == old(stack)
      ensures old(Follows(seen)) && ok ==> Follows(seen + [e])
    {
      ghost var follows, before, stack0 := Follows(seen), nodes, stack;
      ghost var parents, kids := ParentLinks(nodes), ChildLinks(nodes);
      match e {
        case StartTagEvent(tag, attrs) =>
          StartTag(tag, attrs);
          ok := true;
          if follows {
            TreeInvariantStep(seen, e, before, stack0, parents, kids, nodes, stack, ParentLinks(nodes), ChildLinks(nodes));
          }
        case EndTagEvent(tag) =>
          ok := EndTag(tag);
          if follows && ok {
            TreeInvariantStep(seen, e, before, stack0, parents, kids, nodes, stack, ParentLinks(nodes), ChildLinks(nodes));
          }
        case DataEvent(data) =>
          Data(data);
          ok := true;
          if follows {
            TreeInvariantStep(seen, e, before, stack0, parents, kids, nodes, stack, ParentLinks(nodes), ChildLinks(nodes));
          }
      }
    }
  }

  // ------------------------------------------------------------------
  // Queries over the list of nodes
  // ------------------------------------------------------------------

  predicate IsElement(n: Node) {
    n.nodeType == ELEMENT
  }

  /** The nodes satisfying keep, in their order. */
  function Filter(nodes: seq<Node>, keep: Node -> bool): (r: seq<Node>)
    ensures |r| <= |nodes|
  {
    if nodes == [] then []
    else (if keep(nodes[0]) then [nodes[0]] else []) + Filter(nodes[1..], keep)
  }

  /** What Filter keeps: listed nodes that satisfy keep, and every listed node that does. */
  lemma {:induction false} FilterMembers(nodes: seq<Node>, keep: Node -> bool)
    ensures forall i :: 0 <= i < |Filter(nodes, keep)| ==> Filter(nodes, keep)[i] in nodes && keep(Filter(nodes, keep)[i])
    ensures forall i :: 0 <= i < |nodes| && keep(nodes[i]) ==> nodes[i] in Filter(nodes, keep)
  {
    if nodes != [] {
      FilterMembers(nodes[1..], keep);
      var r := Filter(nodes, keep);
      var head := if keep(nodes[0]) then [nodes[0]] else [];
      assert r == head + Filter(nodes[1..], keep);
      forall i | 0 <= i < |r|
        ensures r[i] in nodes && keep(r[i])
      {
        if i >= |head| {
          assert r[i] == Filter(nodes[1..], keep)[i - |head|];
        }
      }
      forall i | 0 <= i < |nodes| && keep(nodes[i])
        ensures nodes[i] in r
      {
        if i > 0 {
          assert nodes[i] == nodes[1..][i - 1];
        }
      }
    }
  }

  /** Filtering keeps order: the matches of a list followed by another are the first's matches, then the second's. */
  lemma {:induction false} FilterConcat(a: seq<Node>, b: seq<Node>, keep: Node -> bool)
    ensures Filter(a + b, keep) == Filter(a, keep) + Filter(b, keep)
  {
    if a != [] {
      assert (a + b)[0] == a[0] && (a + b)[1..] == a[1..] + b;
      FilterConcat(a[1..], b, keep);
      var head := if keep(a[0]) then [a[0]] else [];
      assert Filter(a + b, keep) == head + (Filter(a[1..], keep) + Filter(b, keep));
      assert head + (Filter(a[1..], keep) + Filter(b, keep)) == (head + Filter(a[1..], keep)) + Filter(b, keep);
    } else {
      assert a + b == b;
    }
  }

  function HasTag(tag: string): Node -> bool {
    n => IsElement(n) && n.tag == tag
  }

  function HasClassName(classname: string): Node -> bool {
    n => IsElement(n) && n.HasClass(classname)
  }

  /** The position of the first element whose id is id, or the number of nodes when there is none. */
  function IdIndex(nodes: seq<Node>, id: Option<string>): (i: nat)
    ensures i <= |nodes|
    ensures i < |nodes| ==> IsElement(nodes[i]) && nodes[i].Id() == id
    ensures forall j :: 0 <= j < i ==> !(IsElement(nodes[j]) && nodes[j].Id() == id)
  {
    if nodes == [] then 0
    else if IsElement(nodes[0]) && nodes[0].Id() == id then 0
    else 1 + IdIndex(nodes[1..], id)
  }

  /** get_element_by_id: the first element with that id, or None. */
  method GetElementById(nodes: seq<Node>, id: Option<string>) returns (r: Option<Node>)
    ensures r.Some? <==> IdIndex(nodes, id) < |nodes|
    ensures r.Some? ==> r.value == nodes[IdIndex(nodes, id)]
  {
    var i := 0;
    while i < |nodes|
      invariant 0 <= i <= |nodes|
      invariant forall j :: 0 <= j < i ==> !(IsElement(nodes[j]) && nodes[j].Id() == id)
    {
      var node := nodes[i];
      if node.nodeType == ELEMENT {
        var nodeId := node.GetAttr("id");
        if nodeId == id {
          IdIndexAt(nodes, id, i);
          return Some(node);
        }
      }
      i := i + 1;
    }
    IdIndexAt(nodes, id, i);
    return None;
  }

  lemma IdIndexAt(nodes: seq<Node>, id: Option<string>, i: nat)
    requires i <= |nodes| && (i < |nodes| ==> IsElement(nodes[i]) && nodes[i].Id() == id)
    requires forall j :: 0 <= j < i ==> !(IsElement(nodes[j]) && nodes[j].Id() == id)
    ensures IdIndex(nodes, id) == i
  {
  }

  /** get_elements_by_classname: the elements carrying the class, in order. */
  method GetElementsByClassname(nodes: seq<Node>, classname: string) returns (output: seq<Node>)
    ensures output == Filter(nodes, HasClassName(classname))
  {
    output := [];
    var i := 0;
    while i < |nodes|
      invariant 0 <= i <= |nodes|
      invariant output == Filter(nodes[..i], HasClassName(classname))
    {
      var node := nodes[i];
      FilterConcat(nodes[..i], [node], HasClassName(classname));
      assert nodes[..i + 1] == nodes[..i] + [node];
      if node.nodeType == ELEMENT && node.HasClass(classname) {
        output := output + [node];
      }
      i := i + 1;
    }
    assert nodes[..i] == nodes;
  }

  /** get_elements_by_tagname: the elements with the tag, in order. */
  method GetElementsByTagname(nodes: seq<Node>, tagname: string) returns (output: seq<Node>)
    ensures output == Filter(nodes, HasTag(tagname))
  {
    output := [];
    var i := 0;
    while i < |nodes|
      invariant 0 <= i <= |nodes|
      invariant output == Filter(nodes[..i], HasTag(tagname))
    {
      var node := nodes[i];
      FilterConcat(nodes[..i], [node], HasTag(tagname));
      assert nodes[..i + 1] == nodes[..i] + [node];
      if node.nodeType == ELEMENT && node.tag == tagname {
        output := output + [node];
      }
      i := i + 1;
    }
    assert nodes[..i] == nodes;
  }

  // ------------------------------------------------------------------
  // parse_html over the tokenizer's events
  // ------------------------------------------------------------------

  /** What the tokenizer reports. */
  datatype Event = StartTagEvent(tag: string, attrs: seq<Attr>) | EndTagEvent(tag: string) | DataEvent(data: string)

  /** Whether the end tags of events never outnumber the start tags before them, given depth elements open. */
  predicate NeverUnderflows(events: seq<Event>, depth: nat) {
    if events == [] then true
    else match events[0]
      case StartTagEvent(_, _) => NeverUnderflows(events[1..], depth + 1)
      case EndTagEvent(_) => depth > 0 && NeverUnderflows(events[1..], depth - 1)
      case DataEvent(_) => NeverUnderflows(events[1..], depth)
  }

  /** The events that create a node, in order: every event but the end tags. */
  function Creating(events: seq<Event>): (r: seq<Event>)
    ensures |r| <= |events|
    ensures forall i :: 0 <= i < |r| ==> !r[i].EndTagEvent?
  {
    if events == [] then []
    else (if events[0].EndTagEvent? then [] else [events[0]]) + Creating(events[1..])
  }

  /** The node an event created: an element with its tag and attributes, or a text node with its data. */
  predicate CreatedBy(n: Node, e: Event) {
    match e
    case StartTagEvent(tag, attrs) => n.nodeType == ELEMENT && n.tag == tag && n.attrs == attrs
    case DataEvent(data) => n.nodeType == TEXT && n.data == data
    case EndTagEvent(_) => false
  }

  /** The open elements after an event: one more after a start tag, one fewer after an end tag. */
  function Depth(depth: nat, e: Event): nat
    requires !(e.EndTagEvent? && depth == 0)
  {
    match e
    case StartTagEvent(_, _) => depth + 1
    case EndTagEvent(_) => depth - 1
    case DataEvent(_) => depth
  }

  /** The nodes are, one for one and in order, those the events created. */
  ghost predicate Shapes(nodes: seq<Node>, created: seq<Event>) {
    |nodes| == |created| && forall i :: 0 <= i < |nodes| ==> CreatedBy(nodes[i], created[i])
  }

  lemma ShapesAppend(nodes: seq<Node>, created: seq<Event>, n: Node, e: Event)
    requires Shapes(nodes, created) && CreatedBy(n, e)
    ensures Shapes(nodes + [n], created + [e])
  {
  }

  /** The nodes after one more event are those before, and the node it created if it is not an end tag. */
  lemma ShapesStep(before: seq<Node>, after: seq<Node>, seen: seq<Event>, e: Event)
    requires Shapes(before, Creating(seen))
    requires e.EndTagEvent? ==> after == before
    requires !e.EndTagEvent? ==> |after| == |before| + 1 && after == before + [after[|before|]] && CreatedBy(after[|before|], e)
    ensures Shapes(after, Creating(seen + [e]))
  {
    CreatingConcat(seen, [e]);
    if !e.EndTagEvent? {
      assert Creating([e]) == [e] by { assert [e][1..] == []; }
      ShapesAppend(before, Creating(seen), after[|before|], e);
    } else {
      assert Creating([e]) == [] by { assert [e][1..] == []; }
      assert Creating(seen + [e]) == Creating(seen);
    }
  }

  /** Positions among the created nodes: each earlier than the node it belongs to. */
  predicate ParentsEarlier(ps: seq<Option<nat>>) {
    forall i :: 0 <= i < |ps| && ps[i].Some? ==> ps[i].value < i
  }

  /** The positions, among the nodes events create, of the elements still open after them, innermost last. */
  function Opened(events: seq<Event>): (open: seq<nat>)
    ensures forall m :: 0 <= m < |open| ==> open[m] < |Creating(events)|
    decreases |events|
  {
    if events == [] then []
    else
      var pre, last := events[..|events| - 1], events[|events| - 1];
      var before := Opened(pre);
      CreatingLast(events);
      match last
      case StartTagEvent(_, _) => before + [|Creating(pre)|]
      case EndTagEvent(_) => if before == [] then [] else before[..|before| - 1]
      case DataEvent(_) => before
  }

  /** For each node the events create, the position of its parent: the innermost element open when it is created, if any. */
  function ParentOf(events: seq<Event>): (ps: seq<Option<nat>>)
    ensures |ps| == |Creating(events)| && ParentsEarlier(ps)
    decreases |events|
  {
    if events == [] then []
    else
      var pre := events[..|events| - 1];
      var before := Opened(pre);
      CreatingLast(events);
      if events[|events| - 1].EndTagEvent? then ParentOf(pre)
      else ParentOf(pre) + [if before == [] then None else Some(before[|before| - 1])]
  }

  /** The positions whose parent is at i, in order. */
  function ChildrenOf(ps: seq<Option<nat>>, i: nat): (cs: seq<nat>)
    ensures forall m :: 0 <= m < |cs| ==> cs[m] < |ps| && ps[cs[m]] == Some(i)
    ensures forall j :: 0 <= j < |ps| && ps[j] == Some(i) ==> j in cs
    ensures forall m, m' :: 0 <= m < m' < |cs| ==> cs[m] < cs[m']
  {
    if ps == [] then []
    else ChildrenOf(ps[..|ps| - 1], i) + (if ps[|ps| - 1] == Some(i) then [|ps| - 1] else [])
  }

  /** The events but the last create the same nodes, less the last event's node if it is not an end tag. */
  lemma CreatingLast(events: seq<Event>)
    requires events != []
    ensures var last := events[|events| - 1];
      Creating(events) == Creating(events[..|events| - 1]) + (if last.EndTagEvent? then [] else [last])
  {
    var pre, last := events[..|events| - 1], events[|events| - 1];
    assert events == pre + [last];
    CreatingConcat(pre, [last]);
    assert Creating([last]) == (if last.EndTagEvent? then [] else [last]) by {
      assert [last][1..] == [];
    }
  }

  /** Opened and ParentOf one event further. */
  lemma TreeStep(seen: seq<Event>, e: Event)
    ensures var open := Opened(seen);
      Opened(seen + [e]) ==
        (if e.StartTagEvent? then open + [|Creating(seen)|]
         else if e.EndTagEvent? then (if open == [] then [] else open[..|open| - 1])
         else open)
    ensures var open := Opened(seen);
      ParentOf(seen + [e]) ==
        ParentOf(seen) + (if e.EndTagEvent? then [] else [if open == [] then None else Some(open[|open| - 1])])
  {
    var events := seen + [e];
    assert events[..|events| - 1] == seen && events[|events| - 1] == e;
  }

  /** No node is listed twice. */
  ghost predicate Distinct(nodes: seq<Node>) {
    forall i, j :: 0 <= i < |nodes| && 0 <= j < |nodes| && i != j ==> nodes[i] != nodes[j]
  }

  /** The stack holds the nodes at the positions open, in order. */
  ghost predicate OpenAt(nodes: seq<Node>, stack: seq<Node>, open: seq<nat>) {
    (forall m :: 0 <= m < |open| ==> open[m] < |nodes|) && stack == Picks(nodes, open)
  }

  lemma OpenAtPop(nodes: seq<Node>, stack: seq<Node>, open: seq<nat>)
    requires OpenAt(nodes, stack, open) && stack != []
    ensures OpenAt(nodes, stack[..|stack| - 1], open[..|open| - 1])
  {
    assert Picks(nodes, open[..|open| - 1]) == Picks(nodes, open)[..|open| - 1];
  }

  lemma OpenAtAppend(nodes: seq<Node>, stack: seq<Node>, open: seq<nat>, n: Node, opens: bool)
    requires OpenAt(nodes, stack, open)
    ensures OpenAt(nodes + [n], stack + (if opens then [n] else []), open + (if opens then [|nodes|] else []))
  {
    var open' := open + (if opens then [|nodes|] else []);
    assert Picks(nodes + [n], open) == Picks(nodes, open);
    assert Picks(nodes + [n], open') == Picks(nodes + [n], open) + (if opens then [n] else []);
  }

  /** The node at a position, or null for none. */
  function NodeAt(nodes: seq<Node>, p: Option<nat>): Node? {
    if p.Some? && p.value < |nodes| then nodes[p.value] else null
  }

  /** The nodes at the positions cs. */
  function Picks(nodes: seq<Node>, cs: seq<nat>): (r: seq<Node>)
    requires forall m :: 0 <= m < |cs| ==> cs[m] < |nodes|
    ensures |r| == |cs|
  {
    seq(|cs|, m requires 0 <= m < |cs| => nodes[cs[m]])
  }

  /** The parent each node should have, given the positions ps. */
  function NodesAt(nodes: seq<Node>, ps: seq<Option<nat>>): (r: seq<Node?>)
    ensures |r| == |ps|
  {
    seq(|ps|, i requires 0 <= i < |ps| => NodeAt(nodes, ps[i]))
  }

  /** The children each node should have, given the positions ps. */
  function KidsOf(nodes: seq<Node>, ps: seq<Option<nat>>): (r: seq<seq<Node>>)
    requires |ps| <= |nodes|
    ensures |r| == |ps|
  {
    seq(|ps|, i requires 0 <= i < |ps| => Picks(nodes, ChildrenOf(ps, i)))
  }

  /** The nodes, the open elements and the links are those the events seen describe. */
  ghost predicate Tracks(nodes: seq<Node>, stack: seq<Node>, seen: seq<Event>)
    reads nodes
  {
    Describes(nodes, stack, ParentLinks(nodes), ChildLinks(nodes), seen)
  }

  /** Tracks, with the parent and the children of each node given as parents and kids. */
  ghost predicate Describes(nodes: seq<Node>, stack: seq<Node>, parents: seq<Node?>, kids: seq<seq<Node>>, seen: seq<Event>) {
    && Shapes(nodes, Creating(seen)) && Distinct(nodes) && OpenAt(nodes, stack, Opened(seen))
    && parents == NodesAt(nodes, ParentOf(seen)) && kids == KidsOf(nodes, ParentOf(seen))
  }

  /** The parent and the children of each node are those the positions ps give. */
  ghost predicate Linked(nodes: seq<Node>, ps: seq<Option<nat>>)
    reads nodes
  {
    |nodes| == |ps| && ParentLinks(nodes) == NodesAt(nodes, ps) && ChildLinks(nodes) == KidsOf(nodes, ps)
  }

  /** Under Linked, each node's parent is the node at its position in ps, and its children those pointing at it, in order. */
  lemma LinkedNode(nodes: seq<Node>, ps: seq<Option<nat>>, i: nat)
    requires Linked(nodes, ps) && i < |nodes|
    ensures nodes[i].parent == NodeAt(nodes, ps[i])
    ensures nodes[i].children == Picks(nodes, ChildrenOf(ps, i))
  {
    assert ParentLinks(nodes)[i] == nodes[i].parent;
    assert ChildLinks(nodes)[i] == nodes[i].children;
  }

  lemma ChildrenOfAppend(ps: seq<Option<nat>>, p: Option<nat>, i: nat)
    ensures ChildrenOf(ps + [p], i) == ChildrenOf(ps, i) + (if p == Some(i) then [|ps|] else [])
  {
    assert (ps + [p])[..|ps|] == ps;
  }

  /** A new node n with its parent at p: one more parent, and n the last child of the node at p. */
  lemma LinkStep(nodes: seq<Node>, ps: seq<Option<nat>>, n: Node, p: Option<nat>)
    requires |ps| == |nodes| && ParentsEarlier(ps) && Distinct(nodes) && n !in nodes
    requires p.Some? ==> p.value < |nodes|
    ensures NodesAt(nodes + [n], ps + [p]) == NodesAt(nodes, ps) + [NodeAt(nodes, p)]
    ensures KidsOf(nodes + [n], ps + [p]) == Adopted(nodes, KidsOf(nodes, ps), NodeAt(nodes, p), n) + [[]]
  {
    var nodes', ps' := nodes + [n], ps + [p];
    assert NodesAt(nodes', ps') == NodesAt(nodes, ps) + [NodeAt(nodes, p)];
    var want := Adopted(nodes, KidsOf(nodes, ps), NodeAt(nodes, p), n) + [[]];
    forall i | 0 <= i < |ps'|
      ensures KidsOf(nodes', ps')[i] == want[i]
    {
      KidsStepAt(nodes, ps, n, p, i);
    }
  }

  /** LinkStep's children, one position at a time. */
  lemma KidsStepAt(nodes: seq<Node>, ps: seq<Option<nat>>, n: Node, p: Option<nat>, i: nat)
    requires |ps| == |nodes| && ParentsEarlier(ps) && Distinct(nodes) && n !in nodes
    requires p.Some? ==> p.value < |nodes|
    requires i <= |ps|
    ensures KidsOf(nodes + [n], ps + [p])[i] == (Adopted(nodes, KidsOf(nodes, ps), NodeAt(nodes, p), n) + [[]])[i]
  {
    var top := NodeAt(nodes, p);
    if i < |ps| {
      assert nodes[i] == top <==> p == Some(i);
      OldKids(nodes, ps, n, p, i);
    } else {
      NewKids(ps, p);
    }
  }

  /** The children of an earlier node gain the new node exactly when p points at it. */
  lemma OldKids(nodes: seq<Node>, ps: seq<Option<nat>>, n: Node, p: Option<nat>, i: nat)
    requires |ps| == |nodes| && i < |ps|
    ensures KidsOf(nodes + [n], ps + [p])[i] == KidsOf(nodes, ps)[i] + (if p == Some(i) then [n] else [])
  {
    ChildrenOfAppend(ps, p, i);
    var cs := ChildrenOf(ps, i);
    var extra: seq<nat> := if p == Some(i) then [|ps|] else [];
    var r := Picks(nodes + [n], cs + extra);
    assert |r| == |cs| + |extra|;
    assert r == Picks(nodes, cs) + (if p == Some(i) then [n] else []);
  }

  /** The new node has no children yet: no earlier position points at it. */
  lemma NewKids(ps: seq<Option<nat>>, p: Option<nat>)
    requires ParentsEarlier(ps) && (p.Some? ==> p.value < |ps|)
    ensures ChildrenOf(ps + [p], |ps|) == []
  {
    var ps' := ps + [p];
    forall j | 0 <= j < |ps'|
      ensures ps'[j] != Some(|ps|)
    {
      if j < |ps| {
        assert ps'[j] == ps[j];
      }
    }
    Childless(ps', |ps|);
  }

  /** A position nothing points at has no children. */
  lemma {:induction false} Childless(ps: seq<Option<nat>>, i: nat)
    requires forall j :: 0 <= j < |ps| ==> ps[j] != Some(i)
    ensures ChildrenOf(ps, i) == []
  {
    if ps != [] {
      Childless(ps[..|ps| - 1], i);
    }
  }

  /**
   * One event keeps the parser's tree as the events so far describe it:
   * before/stack/parents/kids are the nodes, the stack and the nodes' links
   * before the event, the primed ones after it.
   */
  lemma TreeInvariantStep(seen: seq<Event>, e: Event, before: seq<Node>, stack: seq<Node>, parents: seq<Node?>, kids: seq<seq<Node>>,
                          after: seq<Node>, stack': seq<Node>, parents': seq<Node?>, kids': seq<seq<Node>>)
    requires Describes(before, stack, parents, kids, seen)
    requires e.EndTagEvent? ==>
      stack != [] && after == before && stack' == stack[..|stack| - 1] && parents' == parents && kids' == kids
    requires !e.EndTagEvent? ==> var innermost := if stack == [] then null else stack[|stack| - 1];
      && |after| == |before| + 1 && after == before + [after[|before|]] && after[|before|] !in before
      && CreatedBy(after[|before|], e)
      && stack' == stack + (if e.StartTagEvent? then [after[|before|]] else [])
      && parents' == parents + [innermost]
      && kids' == Adopted(before, kids, innermost, after[|before|]) + [[]]
    ensures Describes(after, stack', parents', kids', seen + [e])
  {
    var open, ps := Opened(seen), ParentOf(seen);
    TreeStep(seen, e);
    ShapesStep(before, after, seen, e);
    if e.EndTagEvent? {
      OpenAtPop(before, stack, open);
      assert ParentOf(seen + [e]) == ps + [] == ps;
    } else {
      Grow(before, stack, open, ps, after[|before|], e.StartTagEvent?);
    }
  }

  /** A new node n, opened or not: the open positions, the parents and the children it leaves. */
  lemma Grow(before: seq<Node>, stack: seq<Node>, open: seq<nat>, ps: seq<Option<nat>>, n: Node, opens: bool)
    requires Distinct(before) && OpenAt(before, stack, open) && |ps| == |before| && ParentsEarlier(ps) && n !in before
    ensures var p := if open == [] then None else Some(open[|open| - 1]);
      var innermost := if stack == [] then null else stack[|stack| - 1];
      && Distinct(before + [n])
      && OpenAt(before + [n], stack + (if opens then [n] else []), open + (if opens then [|before|] else []))
      && NodesAt(before + [n], ps + [p]) == NodesAt(before, ps) + [innermost]
      && KidsOf(before + [n], ps + [p]) == Adopted(before, KidsOf(before, ps), innermost, n) + [[]]
  {
    var p := if open == [] then None else Some(open[|open| - 1]);
    assert NodeAt(before, p) == if stack == [] then null else stack[|stack| - 1];
    LinkStep(before, ps, n, p);
    OpenAtAppend(before, stack, open, n, opens);
  }

  /**
   * The tokenizer handing the event at k to a parser that has handled the
   * events before it: the step of parse_html's feed.
   */
  method Feed(parser: HtmlParser, events: seq<Event>, k: nat) returns (ok: bool)
    requires k < |events| && parser.Valid()
    requires parser.Follows(events[..k])
    modifies parser, if parser.stack == [] then {} else {parser.stack[|parser.stack| - 1]}
    ensures parser.Valid()
    ensures NeverUnderflows(events[k..], old(|parser.stack|)) <==> ok && NeverUnderflows(events[k + 1..], |parser.stack|)
    ensures forall n :: n in parser.nodes ==> n in old(parser.nodes) || fresh(n)
    ensures ok ==> parser.Follows(events[..k + 1])
  {
    ghost var depth := |parser.stack|;
    ok := parser.Handle(events[k], events[..k]);
    UnderflowStep(events, k, depth);
    if ok {
      PrefixStep(events, k);
    }
  }

  /**
   * parse_html with the tokenizer's events given: feed each event to a new
   * parser and return its nodes; None where an end tag meets an empty stack
   * and the exception escapes.
   */
  method ParseEvents(events: seq<Event>) returns (r: Option<seq<Node>>)
    ensures r.Some? <==> NeverUnderflows(events, 0)
    ensures r.Some? ==> ParentsFirst(r.value) && ChildrenPointBack(r.value)
    ensures r.Some? ==> Shapes(r.value, Creating(events))
    ensures r.Some? ==> Distinct(r.value) && Linked(r.value, ParentOf(events))
  {
    var parser := new HtmlParser();
    var k := 0;
    while k < |events|
      invariant 0 <= k <= |events| && parser.Valid() && fresh(parser)
      invariant forall n :: n in parser.nodes ==> fresh(n)
      invariant NeverUnderflows(events, 0) <==> NeverUnderflows(events[k..], |parser.stack|)
      invariant parser.Follows(events[..k])
    {
      if parser.stack != [] {
        var top := parser.stack[|parser.stack| - 1];
        assert top in parser.nodes;
      }
      var ok := Feed(parser, events, k);
      if !ok {
        return None;
      }
      k := k + 1;
    }
    assert events[..k] == events;
    return Some(parser.nodes);
  }

  lemma PrefixStep(events: seq<Event>, k: nat)
    requires k < |events|
    ensures events[..k + 1] == events[..k] + [events[k]]
  {
  }

  /** Whether the events from k on never underflow, decided by the event at k and the rest. */
  lemma UnderflowStep(events: seq<Event>, k: nat, depth: nat)
    requires k < |events|
    ensures NeverUnderflows(events[k..], depth) <==>
      !(events[k].EndTagEvent? && depth == 0) && NeverUnderflows(events[k + 1..], Depth(depth, events[k]))
  {
    assert events[k..][0] == events[k] && events[k..][1..] == events[k + 1..];
  }

  lemma {:induction false} CreatingConcat(a: seq<Event>, b: seq<Event>)
    ensures Creating(a + b) == Creating(a) + Creating(b)
  {
    if a != [] {
      assert (a + b)[0] == a[0] && (a + b)[1..] == a[1..] + b;
      CreatingConcat(a[1..], b);
      var head := if a[0].EndTagEvent? then [] else [a[0]];
      assert Creating(a + b) == head + (Creating(a[1..]) + Creating(b));
      assert head + (Creating(a[1..]) + Creating(b)) == (head + Creating(a[1..])) + Creating(b);
    } else {
      assert a + b == b;
    }
  }
}
