/** The event filter of src/configs/xmldom.cpp: what its handlers do with the events of a parser, and what
    is made of the events that they let through. */
module ConfigFilter {
  import opened Characters

  datatype Attribute = Attribute(name: string, value: string)

  datatype Node =
    | Element(name: string, attributes: seq<Attribute>, children: seq<Node>)
    | Text(value: string)
    | Comment(value: string)

  datatype Event =
    | TagStart(name: string)
    | AttributeName(name: string)
    | AttributeValue(value: string)
    | TextFound(value: string)
    | CommentFound(value: string)
    | TagEnd(name: string)

  const INSTANCE := "instance"

  // ------------------------------------------------------------ what a parser reports

  function AttributeEvents(attributes: seq<Attribute>): seq<Event> {
    if attributes == [] then []
    else [AttributeName(attributes[0].name), AttributeValue(attributes[0].value)] + AttributeEvents(attributes[1..])
  }

  function NodeEvents(n: Node): seq<Event>
    decreases n, 0
  {
    match n
    case Element(name, attributes, children) =>
      [TagStart(name)] + AttributeEvents(attributes) + Events(children) + [TagEnd(name)]
    case Text(value) => [TextFound(value)]
    case Comment(value) => [CommentFound(value)]
  }

  function Events(nodes: seq<Node>): seq<Event>
    decreases nodes, 1
  {
    if nodes == [] then [] else NodeEvents(nodes[0]) + Events(nodes[1..])
  }

  // ------------------------------------------------------------ what the handlers do

  datatype Flags = Flags(ininstancetag: bool, inidattribute: bool, getattributes: bool,
                         foundspecifiedinstance: bool, done: bool)

  const INITIAL_FLAGS := Flags(false, false, true, false, false)

  predicate IsAllWhitespace(s: string) {
    forall i :: 0 <= i < |s| ==> IsWhitespace(s[i])
  }

  datatype Handled = Handled(flags: Flags, forwarded: bool)

  function HandleTagStart(f: Flags, name: string): Handled {
    if f.done then Handled(f, false)
    else if name == INSTANCE then Handled(f.(ininstancetag := true, getattributes := true), true)
    else Handled(f.(ininstancetag := false), f.foundspecifiedinstance)
  }

  function HandleTagEnd(f: Flags, name: string): Handled {
    if f.done || (!f.foundspecifiedinstance && name != INSTANCE) then Handled(f, false)
    else Handled(f.(done := f.foundspecifiedinstance && name == INSTANCE), true)
  }

  predicate TakesAttributes(f: Flags) {
    f.getattributes && !f.done && (f.ininstancetag || f.foundspecifiedinstance)
  }

  function HandleAttributeName(f: Flags, name: string): Handled {
    if !TakesAttributes(f) then Handled(f, false)
    else Handled(f.(inidattribute := f.ininstancetag && name == "id"), true)
  }

  function HandleAttributeValue(f: Flags, id: string, value: string): Handled {
    if !TakesAttributes(f) then Handled(f, false)
    else
      var found := f.foundspecifiedinstance || (f.inidattribute && value == id);
      Handled(f.(foundspecifiedinstance := found, getattributes := found || !f.inidattribute), true)
  }

  function Handle(f: Flags, id: string, e: Event): Handled {
    match e
    case TagStart(name) => HandleTagStart(f, name)
    case TagEnd(name) => HandleTagEnd(f, name)
    case AttributeName(name) => HandleAttributeName(f, name)
    case AttributeValue(value) => HandleAttributeValue(f, id, value)
    case TextFound(value) => Handled(f, !f.done && f.foundspecifiedinstance && !IsAllWhitespace(value))
    case CommentFound(_) => Handled(f, false)
  }

  // ------------------------------------------------------------ the tree under construction

  /** An element whose end tag hasn't been seen, and what it holds that is closed. */
  datatype Open = Open(name: string, attributes: seq<Attribute>, children: seq<Node>)

  /** The open elements, the document itself first, and the name of an attribute whose value
      hasn't been seen. */
  datatype Tree = Tree(open: seq<Open>, pending: string)

  const EMPTY_TREE := Tree([Open("", [], [])], "")

  function WithChild(open: seq<Open>, n: Node): seq<Open>
    requires open != []
  {
    var last := |open| - 1;
    open[last := open[last].(children := open[last].children + [n])]
  }

  function Grow(t: Tree, e: Event): (r: Tree)
    requires t.open != []
    ensures r.open != []
  {
    var last := |t.open| - 1;
    var top := t.open[last];
    match e
    case TagStart(name) => t.(open := t.open + [Open(name, [], [])])
    case AttributeName(name) => t.(pending := name)
    case AttributeValue(value) =>
      t.(open := t.open[last := top.(attributes := top.attributes + [Attribute(t.pending, value)])])
    case TextFound(value) => t.(open := WithChild(t.open, Text(value)))
    case CommentFound(value) => t.(open := WithChild(t.open, Comment(value)))
    case TagEnd(_) =>
      if last == 0 then t
      else t.(open := WithChild(t.open[..last], Element(top.name, top.attributes, top.children)))
  }

  function GrowAll(t: Tree, events: seq<Event>): (r: Tree)
    requires t.open != []
    ensures r.open != []
    decreases |events|
  {
    if events == [] then t else GrowAll(Grow(t, events[0]), events[1..])
  }

  /** Open elements as the tree has them: an element is in it from its start tag on, as the last child of
      the one that was open then. */
  function Linked(open: seq<Open>): seq<Node> {
    if open == [] then []
    else [Element(open[0].name, open[0].attributes, open[0].children + Linked(open[1..]))]
  }

  /** What the document itself holds. */
  function Children(t: Tree): seq<Node>
    requires t.open != []
  {
    t.open[0].children + Linked(t.open[1..])
  }

  // ------------------------------------------------------------ the configuration

  function IdOf(attributes: seq<Attribute>): Option<string> {
    if attributes == [] then None
    else if attributes[0].name == "id" then Some(attributes[0].value)
    else IdOf(attributes[1..])
  }

  predicate IsInstance(n: Node) {
    n.Element? && n.name == INSTANCE
  }

  predicate IsInstanceOf(n: Node, id: string) {
    IsInstance(n) && IdOf(n.attributes) == Some(id)
  }

  /** What is left of a node of the document. */
  function PrunedNode(n: Node, id: string): seq<Node> {
    if IsInstance(n) && !IsInstanceOf(n, id) then [] else [n]
  }

  function Pruned(nodes: seq<Node>, id: string): seq<Node> {
    if nodes == [] then [] else PrunedNode(nodes[0], id) + Pruned(nodes[1..], id)
  }

  function WithRoot(t: Tree, children: seq<Node>): (r: Tree)
    requires t.open != []
    ensures r.open != [] && Children(r) == children
  {
    t.(open := [t.open[0].(children := children)])
  }

  // ------------------------------------------------------------ runs of the filter

  datatype Run = Run(flags: Flags, events: seq<Event>)

  /** The flags after a stream of events, and the events forwarded. */
  function Filtered(f: Flags, id: string, events: seq<Event>): Run
    decreases |events|
  {
    if events == [] then Run(f, [])
    else
      var h := Handle(f, id, events[0]);
      var rest := Filtered(h.flags, id, events[1..]);
      Run(rest.flags, (if h.forwarded then [events[0]] else []) + rest.events)
  }

  /** The children of the document after load(), if the instance was found. */
  function Loaded(document: seq<Event>, id: string): Option<seq<Node>> {
    var out := Filtered(INITIAL_FLAGS, id, document);
    if id == "" || !out.flags.foundspecifiedinstance then None
    else Some(Pruned(Children(GrowAll(EMPTY_TREE, out.events)), id))
  }

  lemma FilteredStep(f: Flags, id: string, events: seq<Event>, t: Tree)
    requires events != [] && t.open != []
    ensures
      var h := Handle(f, id, events[0]);
      var rest := Filtered(h.flags, id, events[1..]);
      && Filtered(f, id, events).flags == rest.flags
      && GrowAll(t, Filtered(f, id, events).events)
         == GrowAll(if h.forwarded then Grow(t, events[0]) else t, rest.events)
  {
    var h := Handle(f, id, events[0]);
    var rest := Filtered(h.flags, id, events[1..]);
    if h.forwarded {
      assert ([events[0]] + rest.events)[1..] == rest.events;
    } else {
      assert [] + rest.events == rest.events;
    }
    hide Handle, Grow;
  }

  lemma {:induction false} PrunedAppends(a: seq<Node>, b: seq<Node>, id: string)
    ensures Pruned(a + b, id) == Pruned(a, id) + Pruned(b, id)
  {
    hide PrunedNode;
    if a == [] {
      assert a + b == b;
    } else {
      PrunedAppends(a[1..], b, id);
      assert (a + b)[1..] == a[1..] + b;
    }
  }

  lemma {:induction false} NoInstancesToPrune(nodes: seq<Node>, id: string)
    requires forall i :: 0 <= i < |nodes| ==> !IsInstance(nodes[i])
    ensures Pruned(nodes, id) == nodes
  {
    if nodes != [] {
      NoInstancesToPrune(nodes[1..], id);
      assert nodes == [nodes[0]] + nodes[1..];
    }
  }
}
