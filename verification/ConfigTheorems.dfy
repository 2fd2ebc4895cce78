/** What the configuration filter keeps of any document: the first instance with the wanted id, up to the
    end of the first instance in it; and nothing if it lies in another. */
module ConfigTheorems {
  import opened Characters
  import opened ConfigFilter

  // ------------------------------------------------------------ what should be kept

  /** An instance, and whether it lies in another one. */
  datatype Placed = Placed(node: Node, inside: bool)

  /** All the instances of some nodes, which lie in an instance or not, in document order. */
  function InstancesIn(nodes: seq<Node>, inside: bool): (r: seq<Placed>)
    ensures forall p :: p in r ==> IsInstance(p.node) && (inside ==> p.inside)
    decreases nodes, 1
  {
    if nodes == [] then [] else InstancesAt(nodes[0], inside) + InstancesIn(nodes[1..], inside)
  }

  function InstancesAt(n: Node, inside: bool): (r: seq<Placed>)
    ensures forall p :: p in r ==> IsInstance(p.node) && (inside ==> p.inside)
    decreases n, 0
  {
    if !n.Element? then []
    else if IsInstance(n) then [Placed(n, inside)] + InstancesIn(n.children, true)
    else InstancesIn(n.children, inside)
  }

  function FirstMatch(instances: seq<Placed>, id: string): (r: Option<Placed>)
    ensures r.Some? ==> r.value in instances && IsInstanceOf(r.value.node, id)
  {
    if instances == [] then None
    else if IsInstanceOf(instances[0].node, id) then Some(instances[0])
    else FirstMatch(instances[1..], id)
  }

  /** It lies in no instance, and holds none. */
  predicate IsClear(p: Placed) {
    p.node.Element? && !p.inside && InstancesIn(p.node.children, true) == []
  }

  /** Without comments, and without text that is all whitespace. */
  function Cleaned(nodes: seq<Node>): seq<Node>
    decreases nodes, 1
  {
    if nodes == [] then [] else CleanedNode(nodes[0]) + Cleaned(nodes[1..])
  }

  function CleanedNode(n: Node): seq<Node>
    decreases n, 0
  {
    match n
    case Element(name, attributes, children) => [Element(name, attributes, Cleaned(children))]
    case Text(value) => if IsAllWhitespace(value) then [] else [n]
    case Comment(_) => []
  }

  function Whole(instance: Node): Node
    requires instance.Element?
  {
    Element(INSTANCE, instance.attributes, Cleaned(instance.children))
  }

  /** Some nodes of the wanted instance, cleaned, up to where an instance ends. */
  function CutIn(nodes: seq<Node>): seq<Node>
    decreases nodes, 1
  {
    if nodes == [] then []
    else if InstancesAt(nodes[0], true) != [] then CutAt(nodes[0])
    else CleanedNode(nodes[0]) + CutIn(nodes[1..])
  }

  function CutAt(n: Node): seq<Node>
    decreases n, 0
  {
    if n.Element? then [Element(n.name, n.attributes, CutIn(n.children))] else CleanedNode(n)
  }

  function Cut(instance: Node): Node
    requires instance.Element?
  {
    Element(INSTANCE, instance.attributes, CutIn(instance.children))
  }

  /** An end tag, or something that is never kept. */
  predicate IsQuiet(e: Event) {
    e.TagEnd? || e.CommentFound? || (e.TextFound? && IsAllWhitespace(e.value))
  }

  predicate AreQuiet(events: seq<Event>) {
    forall i :: 0 <= i < |events| ==> IsQuiet(events[i])
  }

  /** Once an instance has ended, there is nothing to keep. */
  predicate NothingFollows(events: seq<Event>) {
    forall i, j :: 0 <= i < j < |events| && events[i] == TagEnd(INSTANCE) ==> IsQuiet(events[j])
  }

  function UpToId(attributes: seq<Attribute>): seq<Attribute> {
    if attributes == [] then []
    else if attributes[0].name == "id" then [attributes[0]]
    else [attributes[0]] + UpToId(attributes[1..])
  }

  // ------------------------------------------------------------ what the handlers let through

  /** What is let through of some nodes: elements that are closed, then perhaps elements that never are,
      each in the one before it; and whether the end of the wanted instance, or of the first one in it,
      has been seen. */
  datatype Search = Search(kept: seq<Node>, unclosed: seq<Open>, over: bool)

  function OpenEvents(open: seq<Open>): seq<Event> {
    if open == [] then []
    else [TagStart(open[0].name)] + AttributeEvents(open[0].attributes) + Events(open[0].children) + OpenEvents(open[1..])
  }

  function Said(s: Search): seq<Event> {
    Events(s.kept) + OpenEvents(s.unclosed)
  }

  /** The tree that they make. */
  function TreeOf(s: Search): seq<Node> {
    s.kept + Linked(s.unclosed)
  }

  /** Nothing is open while the search goes on. */
  predicate IsSound(s: Search) {
    s.unclosed != [] ==> s.over
  }

  function Then(a: Search, b: Search): (r: Search)
    ensures IsSound(a) && IsSound(b) ==> IsSound(r)
  {
    if a.over then a else Search(a.kept + b.kept, b.unclosed, b.over)
  }

  /** An element that's let through, with its start tag and what's let through of what it holds. */
  function Around(name: string, attributes: seq<Attribute>, inner: Search, ends: bool): (r: Search)
    ensures IsSound(r)
  {
    if inner.over then Search([], [Open(name, attributes, inner.kept)] + inner.unclosed, true)
    else Search([Element(name, attributes, inner.kept)], [], ends)
  }

  /** In the wanted instance, until an instance ends. */
  function UntilIn(nodes: seq<Node>): (r: Search)
    ensures IsSound(r)
    decreases nodes, 1
  {
    if nodes == [] then Search([], [], false) else Then(UntilAt(nodes[0]), UntilIn(nodes[1..]))
  }

  function UntilAt(n: Node): (r: Search)
    ensures IsSound(r)
    decreases n, 0
  {
    if n.Element? then Around(n.name, n.attributes, UntilIn(n.children), IsInstance(n))
    else Search(CleanedNode(n), [], false)
  }

  /** Before the wanted instance. Of other instances the attributes up to the id are let through, and the
      instances they hold. */
  function SearchedIn(nodes: seq<Node>, id: string): (r: Search)
    ensures IsSound(r)
    decreases nodes, 1
  {
    if nodes == [] then Search([], [], false) else Then(SearchedAt(nodes[0], id), SearchedIn(nodes[1..], id))
  }

  function SearchedAt(n: Node, id: string): (r: Search)
    ensures IsSound(r)
    decreases n, 0
  {
    if !n.Element? then Search([], [], false)
    else if IsInstanceOf(n, id) then UntilAt(n)
    else if IsInstance(n) then Around(n.name, UpToId(n.attributes), SearchedIn(n.children, id), false)
    else SearchedIn(n.children, id)
  }

  // ------------------------------------------------------------ runs

  lemma FilteredFirst(f: Flags, id: string, e: Event, rest: seq<Event>)
    ensures
      var h := Handle(f, id, e);
      var r := Filtered(h.flags, id, rest);
      Filtered(f, id, [e] + rest) == Run(r.flags, (if h.forwarded then [e] else []) + r.events)
  {
    hide Handle;
    assert ([e] + rest)[1..] == rest;
  }

  lemma {:induction false} FilteredAppends(f: Flags, id: string, a: seq<Event>, b: seq<Event>)
    ensures
      var first := Filtered(f, id, a);
      var second := Filtered(first.flags, id, b);
      Filtered(f, id, a + b) == Run(second.flags, first.events + second.events)
    decreases |a|
  {
    NothingFiltered(f, id);
    hide Handle, Filtered;
    if a == [] {
      assert a + b == b;
      assert [] + Filtered(f, id, b).events == Filtered(f, id, b).events;
    } else {
      FilteredFirst(f, id, a[0], a[1..]);
      FilteredFirst(f, id, a[0], a[1..] + b);
      FilteredAppends(Handle(f, id, a[0]).flags, id, a[1..], b);
      assert a == [a[0]] + a[1..] && a + b == [a[0]] + (a[1..] + b);
    }
  }

  lemma FilteredOne(f: Flags, id: string, e: Event)
    ensures Filtered(f, id, [e]) == Run(Handle(f, id, e).flags, if Handle(f, id, e).forwarded then [e] else [])
  {
    hide Handle;
    assert [e][1..] == [];
  }

  /** Nothing is forwarded any more. */
  lemma {:induction false} NothingAfterDone(f: Flags, id: string, events: seq<Event>)
    requires f.done
    ensures Filtered(f, id, events) == Run(f, [])
    decreases |events|
  {
    if events != [] {
      NothingAfterDone(f, id, events[1..]);
    }
  }

  predicate Searching(f: Flags) {
    !f.foundspecifiedinstance && !f.done
  }

  predicate Inside(f: Flags) {
    f.foundspecifiedinstance && !f.done && f.getattributes
  }

  lemma FilteredTwo(f: Flags, id: string, d: Event, e: Event, rest: seq<Event>)
    ensures
      var h := Handle(f, id, d);
      var i := Handle(h.flags, id, e);
      var r := Filtered(i.flags, id, rest);
      Filtered(f, id, [d, e] + rest)
      == Run(r.flags, (if h.forwarded then [d] else []) + ((if i.forwarded then [e] else []) + r.events))
  {
    hide Handle;
    assert ([d, e] + rest)[1..] == [e] + rest;
    assert ([e] + rest)[1..] == rest;
  }

  /** Outside an instance, attributes are dropped while searching. */
  lemma {:induction false} AttributesDropped(f: Flags, id: string, attributes: seq<Attribute>)
    requires Searching(f) && !f.ininstancetag
    ensures Filtered(f, id, AttributeEvents(attributes)) == Run(f, [])
    decreases |attributes|
  {
    if attributes != [] {
      var a := attributes[0];
      FilteredTwo(f, id, AttributeName(a.name), AttributeValue(a.value), AttributeEvents(attributes[1..]));
      AttributesDropped(f, id, attributes[1..]);
    }
  }

  lemma {:induction false} AttributesKept(f: Flags, id: string, attributes: seq<Attribute>)
    requires Inside(f)
    ensures
      var out := Filtered(f, id, AttributeEvents(attributes));
      Inside(out.flags) && out.events == AttributeEvents(attributes)
    decreases |attributes|
  {
    if attributes != [] {
      var a := attributes[0];
      FilteredTwo(f, id, AttributeName(a.name), AttributeValue(a.value), AttributeEvents(attributes[1..]));
      AttributesKept(Handle(Handle(f, id, AttributeName(a.name)).flags, id, AttributeValue(a.value)).flags,
                     id, attributes[1..]);
      KeepsTwo(AttributeName(a.name), AttributeValue(a.value), AttributeEvents(attributes[1..]));
    }
  }

  lemma KeepsTwo(d: Event, e: Event, rest: seq<Event>)
    ensures [d] + ([e] + rest) == [d, e] + rest
  {
  }

  /** After an id that isn't the wanted one, an instance's other attributes are dropped. */
  lemma {:induction false} AttributesAfterId(f: Flags, id: string, attributes: seq<Attribute>)
    requires Searching(f) && !f.getattributes
    ensures Filtered(f, id, AttributeEvents(attributes)) == Run(f, [])
    decreases |attributes|
  {
    if attributes != [] {
      var a := attributes[0];
      FilteredTwo(f, id, AttributeName(a.name), AttributeValue(a.value), AttributeEvents(attributes[1..]));
      AttributesAfterId(f, id, attributes[1..]);
    }
  }

  /** The attributes of an instance decide whether it is the one. */
  lemma {:induction false} InstanceAttributes(f: Flags, id: string, attributes: seq<Attribute>)
    requires Searching(f) && f.ininstancetag && f.getattributes
    ensures
      var out := Filtered(f, id, AttributeEvents(attributes));
      if IdOf(attributes) == Some(id) then Inside(out.flags) && out.events == AttributeEvents(attributes)
      else Searching(out.flags) && out.events == AttributeEvents(UpToId(attributes))
    decreases |attributes|
  {
    if attributes != [] {
      var a := attributes[0];
      var rest := attributes[1..];
      FilteredTwo(f, id, AttributeName(a.name), AttributeValue(a.value), AttributeEvents(rest));
      KeepsTwo(AttributeName(a.name), AttributeValue(a.value), AttributeEvents(rest));
      var g := Handle(Handle(f, id, AttributeName(a.name)).flags, id, AttributeValue(a.value)).flags;
      if a.name != "id" {
        assert g == f.(inidattribute := false);
        InstanceAttributes(g, id, rest);
        KeepsTwo(AttributeName(a.name), AttributeValue(a.value), AttributeEvents(UpToId(rest)));
      } else if a.value == id {
        AttributesKept(g, id, rest);
      } else {
        AttributesAfterId(g, id, rest);
      }
    }
  }

  /** An element's events are filtered in four stages. */
  lemma FilteredElement(f: Flags, id: string, n: Node, start: Handled, first: Run, second: Run, end: Handled)
    requires n.Element?
    requires start == Handle(f, id, TagStart(n.name))
    requires first == Filtered(start.flags, id, AttributeEvents(n.attributes))
    requires second == Filtered(first.flags, id, Events(n.children))
    requires end == Handle(second.flags, id, TagEnd(n.name))
    ensures Filtered(f, id, NodeEvents(n))
         == Run(end.flags, (if start.forwarded then [TagStart(n.name)] else []) + first.events + second.events
                           + if end.forwarded then [TagEnd(n.name)] else [])
  {
    var attributes := AttributeEvents(n.attributes);
    var children := Events(n.children);
    FilteredOne(f, id, TagStart(n.name));
    FilteredOne(second.flags, id, TagEnd(n.name));
    hide Handle, AttributeEvents, Events, Filtered;
    FilteredAppends(f, id, [TagStart(n.name)], attributes);
    FilteredAppends(f, id, [TagStart(n.name)] + attributes, children);
    FilteredAppends(f, id, [TagStart(n.name)] + attributes + children, [TagEnd(n.name)]);
  }

  lemma FilteredForest(f: Flags, id: string, nodes: seq<Node>)
    requires nodes != []
    ensures
      var first := Filtered(f, id, NodeEvents(nodes[0]));
      var second := Filtered(first.flags, id, Events(nodes[1..]));
      Filtered(f, id, Events(nodes)) == Run(second.flags, first.events + second.events)
  {
    FilteredAppends(f, id, NodeEvents(nodes[0]), Events(nodes[1..]));
  }

  // ------------------------------------------------------------ events

  lemma NoEvents()
    ensures Events([]) == []
  {
  }

  lemma EventsFirst(n: Node, rest: seq<Node>)
    ensures Events([n] + rest) == NodeEvents(n) + Events(rest)
  {
    hide NodeEvents;
    assert ([n] + rest)[1..] == rest;
  }

  lemma {:induction false} EventsAppend(a: seq<Node>, b: seq<Node>)
    ensures Events(a + b) == Events(a) + Events(b)
  {
    NoEvents();
    hide NodeEvents, Events;
    if a == [] {
      assert a + b == b;
    } else {
      EventsFirst(a[0], a[1..]);
      EventsFirst(a[0], a[1..] + b);
      EventsAppend(a[1..], b);
      assert a == [a[0]] + a[1..] && a + b == [a[0]] + (a[1..] + b);
    }
  }

  lemma EventsOne(n: Node)
    ensures Events([n]) == NodeEvents(n)
  {
    hide NodeEvents;
    assert [n][1..] == [];
  }

  lemma NothingFiltered(f: Flags, id: string)
    ensures Filtered(f, id, []) == Run(f, [])
  {
  }

  lemma SaidThen(a: Search, b: Search)
    requires IsSound(a)
    ensures Said(Then(a, b)) == Said(a) + if a.over then [] else Said(b)
  {
    NoOpenEvents();
    EventsAppend(a.kept, b.kept);
    hide Events, OpenEvents;
  }

  lemma NoOpenEvents()
    ensures OpenEvents([]) == []
  {
  }

  lemma SaidAround(name: string, attributes: seq<Attribute>, inner: Search, ends: bool)
    requires IsSound(inner)
    ensures Said(Around(name, attributes, inner, ends))
         == [TagStart(name)] + AttributeEvents(attributes) + Said(inner) + if inner.over then [] else [TagEnd(name)]
  {
    NoEvents();
    NoOpenEvents();
    if inner.over {
      OpenEventsFirst(Open(name, attributes, inner.kept), inner.unclosed);
    } else {
      EventsOne(Element(name, attributes, inner.kept));
      ElementEvents(name, attributes, inner.kept);
    }
    hide Events, OpenEvents, NodeEvents, AttributeEvents;
  }

  lemma ElementEvents(name: string, attributes: seq<Attribute>, children: seq<Node>)
    ensures NodeEvents(Element(name, attributes, children))
         == [TagStart(name)] + AttributeEvents(attributes) + Events(children) + [TagEnd(name)]
  {
    hide AttributeEvents, Events;
  }

  lemma OpenEventsFirst(o: Open, rest: seq<Open>)
    ensures OpenEvents([o] + rest)
         == [TagStart(o.name)] + AttributeEvents(o.attributes) + Events(o.children) + OpenEvents(rest)
  {
    hide AttributeEvents, Events;
    assert ([o] + rest)[1..] == rest;
  }

  // ------------------------------------------------------------ what's let through

  /** The handlers do with the events what the search says, and go on searching, or keeping, unless it is
      over. */
  predicate Follows(f: Flags, id: string, events: seq<Event>, s: Search) {
    var out := Filtered(f, id, events);
    && out.events == Said(s)
    && if s.over then out.flags.done && out.flags.foundspecifiedinstance
       else if f.foundspecifiedinstance then Inside(out.flags) else Searching(out.flags)
  }

  lemma FollowsOn(f: Flags, id: string, nodes: seq<Node>, a: Search, b: Search)
    requires nodes != [] && IsSound(a) && Follows(f, id, NodeEvents(nodes[0]), a)
    requires Inside(f) || Searching(f)
    requires !a.over ==> Follows(Filtered(f, id, NodeEvents(nodes[0])).flags, id, Events(nodes[1..]), b)
    ensures Follows(f, id, Events(nodes), Then(a, b))
  {
    var first := Filtered(f, id, NodeEvents(nodes[0]));
    if a.over {
      NothingAfterDone(first.flags, id, Events(nodes[1..]));
    }
    SaidThen(a, b);
    FilteredForest(f, id, nodes);
    hide Filtered, Events, NodeEvents, Said;
  }

  lemma FollowsNothing(f: Flags, id: string)
    requires Inside(f) || Searching(f)
    ensures Follows(f, id, Events([]), Search([], [], false))
  {
  }

  /** In the wanted instance everything is kept but comments and white space, until an instance ends. */
  lemma {:induction false} InsideNode(f: Flags, id: string, n: Node)
    requires Inside(f)
    ensures Follows(f, id, NodeEvents(n), UntilAt(n))
    decreases n, 0
  {
    match n
    case Text(value) => FilteredOne(f, id, TextFound(value)); EventsOne(n);
    case Comment(value) => FilteredOne(f, id, CommentFound(value));
    case Element(name, attributes, children) =>
      var start := Handle(f, id, TagStart(name));
      AttributesKept(start.flags, id, attributes);
      var first := Filtered(start.flags, id, AttributeEvents(attributes));
      InsideForest(first.flags, id, children);
      InsideElement(f, id, n, start, first);
  }

  lemma InsideElement(f: Flags, id: string, n: Node, start: Handled, first: Run)
    requires n.Element? && Inside(f) && start == Handle(f, id, TagStart(n.name))
    requires first == Filtered(start.flags, id, AttributeEvents(n.attributes))
    requires Inside(first.flags) && first.events == AttributeEvents(n.attributes)
    requires Follows(first.flags, id, Events(n.children), UntilIn(n.children))
    ensures Follows(f, id, NodeEvents(n), UntilAt(n))
  {
    var second := Filtered(first.flags, id, Events(n.children));
    SaidAround(n.name, n.attributes, UntilIn(n.children), IsInstance(n));
    FilteredElement(f, id, n, start, first, second, Handle(second.flags, id, TagEnd(n.name)));
    hide Filtered, Events, NodeEvents, AttributeEvents, Said, UntilIn;
  }

  lemma {:induction false} InsideForest(f: Flags, id: string, nodes: seq<Node>)
    requires Inside(f)
    ensures Follows(f, id, Events(nodes), UntilIn(nodes))
    decreases nodes, 1
  {
    if nodes == [] {
      FollowsNothing(f, id);
    } else {
      InsideNode(f, id, nodes[0]);
      var g := Filtered(f, id, NodeEvents(nodes[0])).flags;
      if !UntilAt(nodes[0]).over {
        InsideForest(g, id, nodes[1..]);
      }
      hide Filtered, Events, NodeEvents, Said, UntilAt;
      FollowsOn(f, id, nodes, UntilAt(nodes[0]), UntilIn(nodes[1..]));
    }
  }

  lemma {:induction false} SearchNode(f: Flags, id: string, n: Node)
    requires Searching(f)
    ensures Follows(f, id, NodeEvents(n), SearchedAt(n, id))
    decreases n, 0
  {
    match n
    case Text(value) => FilteredOne(f, id, TextFound(value));
    case Comment(value) => FilteredOne(f, id, CommentFound(value));
    case Element(name, attributes, children) =>
      var start := Handle(f, id, TagStart(name));
      if IsInstance(n) {
        InstanceAttributes(start.flags, id, attributes);
      } else {
        AttributesDropped(start.flags, id, attributes);
      }
      var first := Filtered(start.flags, id, AttributeEvents(attributes));
      if IsInstanceOf(n, id) {
        InsideForest(first.flags, id, children);
        WantedElement(f, id, n, start, first);
      } else {
        SearchForest(first.flags, id, children);
        OtherElement(f, id, n, start, first);
      }
  }

  lemma WantedElement(f: Flags, id: string, n: Node, start: Handled, first: Run)
    requires IsInstanceOf(n, id) && Searching(f) && start == Handle(f, id, TagStart(n.name))
    requires first == Filtered(start.flags, id, AttributeEvents(n.attributes))
    requires Inside(first.flags) && first.events == AttributeEvents(n.attributes)
    requires Follows(first.flags, id, Events(n.children), UntilIn(n.children))
    ensures Follows(f, id, NodeEvents(n), SearchedAt(n, id))
  {
    var second := Filtered(first.flags, id, Events(n.children));
    SaidAround(n.name, n.attributes, UntilIn(n.children), true);
    FilteredElement(f, id, n, start, first, second, Handle(second.flags, id, TagEnd(n.name)));
    hide Filtered, Events, NodeEvents, AttributeEvents, Said, UntilIn;
  }

  lemma OtherElement(f: Flags, id: string, n: Node, start: Handled, first: Run)
    requires n.Element? && !IsInstanceOf(n, id) && Searching(f) && start == Handle(f, id, TagStart(n.name))
    requires first == Filtered(start.flags, id, AttributeEvents(n.attributes))
    requires Searching(first.flags)
    requires first.events == if IsInstance(n) then AttributeEvents(UpToId(n.attributes)) else []
    requires Follows(first.flags, id, Events(n.children), SearchedIn(n.children, id))
    ensures Follows(f, id, NodeEvents(n), SearchedAt(n, id))
  {
    var second := Filtered(first.flags, id, Events(n.children));
    SaidAround(n.name, UpToId(n.attributes), SearchedIn(n.children, id), false);
    FilteredElement(f, id, n, start, first, second, Handle(second.flags, id, TagEnd(n.name)));
    hide Filtered, Events, NodeEvents, AttributeEvents, Said, SearchedIn, UpToId, IsInstanceOf;
  }

  lemma {:induction false} SearchForest(f: Flags, id: string, nodes: seq<Node>)
    requires Searching(f)
    ensures Follows(f, id, Events(nodes), SearchedIn(nodes, id))
    decreases nodes, 1
  {
    if nodes == [] {
      FollowsNothing(f, id);
    } else {
      SearchNode(f, id, nodes[0]);
      var g := Filtered(f, id, NodeEvents(nodes[0])).flags;
      if !SearchedAt(nodes[0], id).over {
        SearchForest(g, id, nodes[1..]);
      }
      hide Filtered, Events, NodeEvents, Said, SearchedAt;
      FollowsOn(f, id, nodes, SearchedAt(nodes[0], id), SearchedIn(nodes[1..], id));
    }
  }

  // ------------------------------------------------------------ what that is

  lemma TreeOfThen(a: Search, b: Search)
    requires IsSound(a)
    ensures TreeOf(Then(a, b)) == TreeOf(a) + if a.over then [] else TreeOf(b)
  {
  }

  lemma TreeOfAround(name: string, attributes: seq<Attribute>, inner: Search, ends: bool)
    requires IsSound(inner)
    ensures TreeOf(Around(name, attributes, inner, ends)) == [Element(name, attributes, TreeOf(inner))]
  {
    if inner.over {
      var o := Open(name, attributes, inner.kept);
      assert ([o] + inner.unclosed)[1..] == inner.unclosed;
    } else {
      assert TreeOf(inner) == inner.kept;
    }
  }

  /** In the wanted instance, the search is over before its end iff it holds an instance, and what it lets
      through is what it holds until then. */
  lemma {:induction false} UntilNode(n: Node)
    ensures UntilAt(n).over <==> InstancesAt(n, true) != []
    ensures TreeOf(UntilAt(n)) == CutAt(n)
    decreases n, 0
  {
    if n.Element? {
      UntilForest(n.children);
      TreeOfAround(n.name, n.attributes, UntilIn(n.children), IsInstance(n));
    }
  }

  lemma {:induction false} UntilForest(nodes: seq<Node>)
    ensures UntilIn(nodes).over <==> InstancesIn(nodes, true) != []
    ensures TreeOf(UntilIn(nodes)) == CutIn(nodes)
    decreases nodes, 1
  {
    if nodes != [] {
      UntilNode(nodes[0]);
      UntilForest(nodes[1..]);
      TreeOfThen(UntilAt(nodes[0]), UntilIn(nodes[1..]));
      if InstancesAt(nodes[0], true) == [] {
        NothingCutNode(nodes[0]);
      }
    }
  }

  /** Without an instance in them, nothing is cut off. */
  lemma {:induction false} NothingCutNode(n: Node)
    requires InstancesAt(n, true) == []
    ensures CutAt(n) == CleanedNode(n)
    decreases n, 0
  {
    if n.Element? {
      NothingCutForest(n.children);
    }
  }

  lemma {:induction false} NothingCutForest(nodes: seq<Node>)
    requires InstancesIn(nodes, true) == []
    ensures CutIn(nodes) == Cleaned(nodes)
    decreases nodes, 1
  {
    if nodes != [] {
      NothingCutForest(nodes[1..]);
    }
  }

  lemma {:induction false} FirstMatchAppends(a: seq<Placed>, b: seq<Placed>, id: string)
    ensures FirstMatch(a + b, id) == if FirstMatch(a, id).Some? then FirstMatch(a, id) else FirstMatch(b, id)
  {
    hide IsInstanceOf;
    if a == [] {
      assert a + b == b;
    } else {
      FirstMatchAppends(a[1..], b, id);
      assert (a + b)[1..] == a[1..] + b;
    }
  }

  lemma FirstMatchOne(p: Placed, rest: seq<Placed>, id: string)
    ensures FirstMatch([p] + rest, id) == if IsInstanceOf(p.node, id) then Some(p) else FirstMatch(rest, id)
  {
    hide IsInstanceOf;
    assert ([p] + rest)[1..] == rest;
  }

  lemma PrunedOne(n: Node, id: string)
    ensures Pruned([n], id) == PrunedNode(n, id)
  {
    hide PrunedNode;
    assert [n][1..] == [];
  }

  /** What a search comes to, with this first match among the instances. */
  ghost predicate ComesTo(s: Search, first: Option<Placed>, id: string) {
    match first
    case None => !s.over && s.unclosed == [] && Pruned(TreeOf(s), id) == []
    case Some(p) =>
      s.over && p.node.Element?
      && (IsClear(p) <==> s.unclosed == [])
      && Pruned(TreeOf(s), id) == if p.inside then [] else [Cut(p.node)]
  }

  lemma {:induction false} UpToIdKeepsId(attributes: seq<Attribute>)
    ensures IdOf(UpToId(attributes)) == IdOf(attributes)
  {
    if attributes != [] {
      UpToIdKeepsId(attributes[1..]);
      assert ([attributes[0]] + UpToId(attributes[1..]))[1..] == UpToId(attributes[1..]);
    }
  }

  /** Within an instance, a match leaves that instance open. */
  lemma {:induction false} WithinNode(n: Node, id: string)
    ensures SearchedAt(n, id).over <==> FirstMatch(InstancesAt(n, true), id).Some?
    decreases n, 0
  {
    if n.Element? {
      if IsInstance(n) {
        FirstMatchOne(Placed(n, true), InstancesIn(n.children, true), id);
      }
      WithinForest(n.children, id);
    }
  }

  lemma {:induction false} WithinForest(nodes: seq<Node>, id: string)
    ensures SearchedIn(nodes, id).over <==> FirstMatch(InstancesIn(nodes, true), id).Some?
    decreases nodes, 1
  {
    if nodes != [] {
      WithinNode(nodes[0], id);
      WithinForest(nodes[1..], id);
      FirstMatchAppends(InstancesAt(nodes[0], true), InstancesIn(nodes[1..], true), id);
    }
  }

  lemma {:induction false} NodeComesTo(n: Node, id: string)
    ensures ComesTo(SearchedAt(n, id), FirstMatch(InstancesAt(n, false), id), id)
    decreases n, 0
  {
    if IsInstance(n) {
      InstanceComesTo(n, id);
    } else if n.Element? {
      ForestComesTo(n.children, id);
    }
  }

  lemma InstanceComesTo(n: Node, id: string)
    requires IsInstance(n)
    ensures ComesTo(SearchedAt(n, id), FirstMatch(InstancesAt(n, false), id), id)
  {
    FirstMatchOne(Placed(n, false), InstancesIn(n.children, true), id);
    if IsInstanceOf(n, id) {
      UntilForest(n.children);
      TreeOfAround(n.name, n.attributes, UntilIn(n.children), true);
      PrunedOne(Cut(n), id);
    } else {
      var inner := SearchedIn(n.children, id);
      WithinForest(n.children, id);
      UpToIdKeepsId(n.attributes);
      TreeOfAround(n.name, UpToId(n.attributes), inner, false);
      PrunedOne(Element(INSTANCE, UpToId(n.attributes), TreeOf(inner)), id);
    }
    hide InstancesIn, FirstMatch, UntilIn, SearchedIn, CutIn, IdOf, UpToId, TreeOf, Pruned;
  }

  lemma {:induction false} ForestComesTo(nodes: seq<Node>, id: string)
    ensures ComesTo(SearchedIn(nodes, id), FirstMatch(InstancesIn(nodes, false), id), id)
    decreases nodes, 1
  {
    if nodes != [] {
      var first, rest := SearchedAt(nodes[0], id), SearchedIn(nodes[1..], id);
      NodeComesTo(nodes[0], id);
      ForestComesTo(nodes[1..], id);
      FirstMatchAppends(InstancesAt(nodes[0], false), InstancesIn(nodes[1..], false), id);
      TreeOfThen(first, rest);
      PrunedAppends(TreeOf(first), TreeOf(rest), id);
      hide SearchedAt, InstancesAt, Pruned, FirstMatch, IsClear, Cut, TreeOf;
    }
  }

  // ------------------------------------------------------------ the tree

  lemma {:induction false} GrowAppends(t: Tree, a: seq<Event>, b: seq<Event>)
    requires t.open != []
    ensures GrowAll(t, a + b) == GrowAll(GrowAll(t, a), b)
    decreases |a|
  {
    hide Grow;
    if a == [] {
      assert a + b == b;
    } else {
      GrowAppends(Grow(t, a[0]), a[1..], b);
      assert (a + b)[1..] == a[1..] + b;
    }
  }

  lemma GrowOne(t: Tree, e: Event)
    requires t.open != []
    ensures GrowAll(t, [e]) == Grow(t, e)
  {
    hide Grow;
    assert [e][1..] == [];
  }

  function WithAttributes(open: seq<Open>, attributes: seq<Attribute>): seq<Open>
    requires open != []
  {
    var last := |open| - 1;
    open[last := open[last].(attributes := open[last].attributes + attributes)]
  }

  function WithChildren(open: seq<Open>, nodes: seq<Node>): seq<Open>
    requires open != []
  {
    var last := |open| - 1;
    open[last := open[last].(children := open[last].children + nodes)]
  }

  lemma {:induction false} GrowAttributes(t: Tree, attributes: seq<Attribute>)
    requires t.open != []
    ensures GrowAll(t, AttributeEvents(attributes)).open == WithAttributes(t.open, attributes)
    decreases |attributes|
  {
    if attributes == [] {
      assert t.open[|t.open| - 1].attributes + [] == t.open[|t.open| - 1].attributes;
    } else {
      var a := attributes[0];
      var two := [AttributeName(a.name), AttributeValue(a.value)];
      var named := Grow(t, AttributeName(a.name));
      var given := Grow(named, AttributeValue(a.value));
      assert two == [AttributeName(a.name)] + [AttributeValue(a.value)];
      GrowAppends(t, two, AttributeEvents(attributes[1..]));
      GrowAppends(t, [AttributeName(a.name)], [AttributeValue(a.value)]);
      GrowOne(t, AttributeName(a.name));
      GrowOne(named, AttributeValue(a.value));
      GrowAttributes(given, attributes[1..]);
      assert attributes == [a] + attributes[1..];
      var before := t.open[|t.open| - 1].attributes;
      assert before + [a] + attributes[1..] == before + attributes;
    }
  }

  /** The events of a well-formed document build that document. */
  lemma {:induction false} GrowForest(t: Tree, nodes: seq<Node>)
    requires t.open != []
    ensures GrowAll(t, Events(nodes)).open == WithChildren(t.open, nodes)
    decreases nodes, 1
  {
    var before := t.open[|t.open| - 1].children;
    if nodes == [] {
      assert before + [] == before;
    } else {
      GrowNode(t, nodes[0]);
      GrowAppends(t, NodeEvents(nodes[0]), Events(nodes[1..]));
      GrowForest(GrowAll(t, NodeEvents(nodes[0])), nodes[1..]);
      assert nodes == [nodes[0]] + nodes[1..];
      assert before + [nodes[0]] + nodes[1..] == before + nodes;
    }
  }

  lemma {:induction false} GrowNode(t: Tree, n: Node)
    requires t.open != []
    ensures GrowAll(t, NodeEvents(n)).open == WithChild(t.open, n)
    decreases n, 0
  {
    match n
    case Text(value) => GrowOne(t, TextFound(value));
    case Comment(value) => GrowOne(t, CommentFound(value));
    case Element(name, attributes, children) =>
      var started := Grow(t, TagStart(name));
      GrowOne(t, TagStart(name));
      GrowAttributes(started, attributes);
      var named := GrowAll(started, AttributeEvents(attributes));
      GrowForest(named, children);
      var filled := GrowAll(named, Events(children));
      GrowOne(filled, TagEnd(name));
      GrowElement(t, n, started, named, filled);
      OpenFills(t.open, name, attributes, children);
      assert filled.open[..|t.open|] == t.open;
  }

  lemma OpenFills(open: seq<Open>, name: string, attributes: seq<Attribute>, children: seq<Node>)
    ensures WithChildren(WithAttributes(open + [Open(name, [], [])], attributes), children)
         == open + [Open(name, attributes, children)]
  {
    assert [] + attributes == attributes && [] + children == children;
  }

  lemma GrowElement(t: Tree, n: Node, started: Tree, named: Tree, filled: Tree)
    requires t.open != [] && n.Element?
    requires started == GrowAll(t, [TagStart(n.name)])
    requires started.open != [] && named == GrowAll(started, AttributeEvents(n.attributes))
    requires named.open != [] && filled == GrowAll(named, Events(n.children))
    ensures filled.open != [] && GrowAll(t, NodeEvents(n)) == GrowAll(filled, [TagEnd(n.name)])
  {
    var attributes, children := AttributeEvents(n.attributes), Events(n.children);
    hide Grow, GrowAll, AttributeEvents, Events;
    GrowAppends(t, [TagStart(n.name)], attributes);
    GrowAppends(t, [TagStart(n.name)] + attributes, children);
    GrowAppends(t, [TagStart(n.name)] + attributes + children, [TagEnd(n.name)]);
  }

  /** Elements that are never closed stay open. */
  lemma {:induction false} GrowOpen(t: Tree, open: seq<Open>)
    requires t.open != []
    ensures GrowAll(t, OpenEvents(open)).open == t.open + open
    decreases |open|
  {
    if open == [] {
      assert t.open + [] == t.open;
    } else {
      var o := open[0];
      var opening := [TagStart(o.name)] + AttributeEvents(o.attributes) + Events(o.children);
      GrowOneOpen(t, o);
      GrowOpen(GrowAll(t, opening), open[1..]);
      GrowAppends(t, opening, OpenEvents(open[1..]));
      hide GrowAll, AttributeEvents, Events;
      assert t.open + [o] + open[1..] == t.open + open;
    }
  }

  lemma GrowOneOpen(t: Tree, o: Open)
    requires t.open != []
    ensures GrowAll(t, [TagStart(o.name)] + AttributeEvents(o.attributes) + Events(o.children)).open == t.open + [o]
  {
    var started := Grow(t, TagStart(o.name));
    GrowOne(t, TagStart(o.name));
    GrowAttributes(started, o.attributes);
    GrowForest(GrowAll(started, AttributeEvents(o.attributes)), o.children);
    OpenFills(t.open, o.name, o.attributes, o.children);
    hide Grow, GrowAll, AttributeEvents, Events, WithChildren, WithAttributes;
    GrowAppends(t, [TagStart(o.name)], AttributeEvents(o.attributes));
    GrowAppends(t, [TagStart(o.name)] + AttributeEvents(o.attributes), Events(o.children));
  }

  lemma GrowSaid(s: Search)
    ensures var t := GrowAll(EMPTY_TREE, Said(s)); Children(t) == TreeOf(s) && |t.open| == 1 + |s.unclosed|
  {
    GrowAppends(EMPTY_TREE, Events(s.kept), OpenEvents(s.unclosed));
    GrowForest(EMPTY_TREE, s.kept);
    GrowOpen(GrowAll(EMPTY_TREE, Events(s.kept)), s.unclosed);
    hide GrowAll, Events, OpenEvents, Linked;
    assert EMPTY_TREE.open[0].children + s.kept == s.kept;
    var root := WithChildren(EMPTY_TREE.open, s.kept);
    assert root == [Open("", [], s.kept)] && (root + s.unclosed)[1..] == s.unclosed;
  }

  /** An end tag changes nothing in the tree, only where the next node goes. */
  lemma EndTagChangesNothing(t: Tree, name: string)
    requires t.open != []
    ensures Children(Grow(t, TagEnd(name))) == Children(t)
  {
    if |t.open| > 1 {
      LastCloses(t.open);
    }
  }

  lemma {:induction false} LastCloses(open: seq<Open>)
    requires |open| > 1
    ensures
      var last := open[|open| - 1];
      var closed := WithChild(open[..|open| - 1], Element(last.name, last.attributes, last.children));
      closed[0].children + Linked(closed[1..]) == open[0].children + Linked(open[1..])
    decreases |open|
  {
    var last := open[|open| - 1];
    var node := Element(last.name, last.attributes, last.children);
    var closed := WithChild(open[..|open| - 1], node);
    if |open| == 2 {
      assert last.children + Linked([]) == last.children;
    } else {
      LastCloses(open[1..]);
      assert open[1..][..|open| - 2] == open[..|open| - 1][1..];
      assert closed[1..] == WithChild(open[1..][..|open| - 2], node);
    }
  }

  // ------------------------------------------------------------ the whole

  /** For every document: load() succeeds iff there is an instance with the id. The tree then holds the
      first one in document order, up to the end of the first instance in it, and nothing else; and nothing
      at all if that instance lies in another. */
  lemma LoadedIsTheInstance(document: seq<Node>, id: string)
    ensures Loaded(Events(document), id)
         == match FirstMatch(InstancesIn(document, false), id)
            case None => None
            case Some(p) => if id == "" then None else if p.inside then Some([]) else Some([Cut(p.node)])
  {
    SearchForest(INITIAL_FLAGS, id, document);
    ForestComesTo(document, id);
    GrowSaid(SearchedIn(document, id));
    hide Filtered, Events, Said, SearchedIn, InstancesIn, FirstMatch, Pruned, GrowAll, IsClear, Cut, TreeOf, Children;
  }

  /** What is forwarded of a document is itself the events of a document iff that instance is missing or
      lies in no other and holds none. */
  lemma ForwardedIsWellNestedIff(document: seq<Node>, id: string)
    ensures (exists nodes :: Filtered(INITIAL_FLAGS, id, Events(document)).events == Events(nodes))
       <==> match FirstMatch(InstancesIn(document, false), id) case None => true case Some(p) => IsClear(p)
  {
    var s := SearchedIn(document, id);
    SearchForest(INITIAL_FLAGS, id, document);
    ForestComesTo(document, id);
    NoOpenEvents();
    GrowSaid(s);
    forall nodes | Said(s) == Events(nodes) ensures s.unclosed == [] {
      GrowForest(EMPTY_TREE, nodes);
      assert |GrowAll(EMPTY_TREE, Said(s)).open| == 1;
    }
    hide Filtered, Events, OpenEvents, SearchedIn, InstancesIn, FirstMatch, Pruned, GrowAll;
    hide IsClear, Cut, TreeOf, Children;
    if s.unclosed == [] {
      assert Said(s) == Events(s.kept);
    }
  }

  /** What an instance holds is listed with it. */
  lemma {:induction false} HeldByNode(n: Node, inside: bool, p: Placed, q: Placed)
    requires p in InstancesAt(n, inside) && p.node.Element? && q in InstancesIn(p.node.children, true)
    ensures q in InstancesAt(n, inside)
    decreases n, 0
  {
    if !IsInstance(n) {
      HeldByForest(n.children, inside, p, q);
    } else if p != Placed(n, inside) {
      HeldByForest(n.children, true, p, q);
    }
  }

  lemma {:induction false} HeldByForest(nodes: seq<Node>, inside: bool, p: Placed, q: Placed)
    requires p in InstancesIn(nodes, inside) && p.node.Element? && q in InstancesIn(p.node.children, true)
    ensures q in InstancesIn(nodes, inside)
    decreases nodes, 1
  {
    if p in InstancesAt(nodes[0], inside) {
      HeldByNode(nodes[0], inside, p, q);
    } else {
      HeldByForest(nodes[1..], inside, p, q);
    }
  }

  // ------------------------------------------------------------ when that is the whole instance

  lemma QuietNode(n: Node)
    ensures AreQuiet(NodeEvents(n)) <==> CleanedNode(n) == []
  {
    var events := NodeEvents(n);
    match n
    case Element(name, _, _) => assert events[0] == TagStart(name) && !IsQuiet(events[0]);
    case Text(value) => assert events == [TextFound(value)] && events[0] == TextFound(value);
    case Comment(value) =>
  }

  lemma {:induction false} NoQuietTree(nodes: seq<Node>)
    ensures AreQuiet(Events(nodes)) <==> Cleaned(nodes) == []
  {
    if nodes != [] {
      var n := nodes[0];
      NoQuietTree(nodes[1..]);
      QuietNode(n);
      QuietAppends(NodeEvents(n), Events(nodes[1..]));
      hide NodeEvents, CleanedNode, AreQuiet;
    }
  }

  lemma QuietAppends(a: seq<Event>, b: seq<Event>)
    ensures AreQuiet(a + b) <==> AreQuiet(a) && AreQuiet(b)
  {
    if AreQuiet(a + b) {
      forall i | 0 <= i < |a| ensures IsQuiet(a[i]) {
        assert (a + b)[i] == a[i];
      }
      forall i | 0 <= i < |b| ensures IsQuiet(b[i]) {
        assert (a + b)[|a| + i] == b[i];
      }
    }
  }

  lemma FollowsAppends(a: seq<Event>, b: seq<Event>)
    ensures NothingFollows(a + b)
       <==> NothingFollows(a) && NothingFollows(b) && (TagEnd(INSTANCE) in a ==> AreQuiet(b))
  {
    var c := a + b;
    hide IsQuiet;
    if NothingFollows(c) {
      forall i, j | 0 <= i < j < |a| && a[i] == TagEnd(INSTANCE) ensures IsQuiet(a[j]) {
        assert c[i] == a[i] && c[j] == a[j];
      }
      forall i, j | 0 <= i < j < |b| && b[i] == TagEnd(INSTANCE) ensures IsQuiet(b[j]) {
        assert c[|a| + i] == b[i] && c[|a| + j] == b[j];
      }
      if TagEnd(INSTANCE) in a {
        var i :| 0 <= i < |a| && a[i] == TagEnd(INSTANCE);
        forall j | 0 <= j < |b| ensures IsQuiet(b[j]) {
          assert c[i] == a[i] && c[|a| + j] == b[j];
        }
      }
    }
  }

  lemma NoEndInAttributes(attributes: seq<Attribute>)
    ensures forall e :: e in AttributeEvents(attributes) ==> e.AttributeName? || e.AttributeValue?
  {
  }

  /** The end of an instance is among the events iff an instance is among the nodes. */
  lemma {:induction false} EndsAt(n: Node)
    ensures TagEnd(INSTANCE) in NodeEvents(n) <==> InstancesAt(n, true) != []
    decreases n, 0
  {
    if n.Element? {
      NoEndInAttributes(n.attributes);
      EndsIn(n.children);
    }
  }

  lemma {:induction false} EndsIn(nodes: seq<Node>)
    ensures TagEnd(INSTANCE) in Events(nodes) <==> InstancesIn(nodes, true) != []
    decreases nodes, 1
  {
    if nodes != [] {
      EndsAt(nodes[0]);
      EndsIn(nodes[1..]);
    }
  }

  lemma NoEndNothingFollows(events: seq<Event>)
    requires TagEnd(INSTANCE) !in events
    ensures NothingFollows(events)
  {
  }

  lemma FollowsElement(n: Node)
    requires n.Element?
    ensures NothingFollows(NodeEvents(n)) <==> NothingFollows(Events(n.children))
  {
    var attributes, children := AttributeEvents(n.attributes), Events(n.children);
    NoEndInAttributes(n.attributes);
    NoEndNothingFollows([TagStart(n.name)] + attributes);
    hide AttributeEvents, Events;
    FollowsAppends([TagStart(n.name)] + attributes, children);
    FollowsAppends([TagStart(n.name)] + attributes + children, [TagEnd(n.name)]);
  }

  /** Nothing is cut off iff nothing but end tags and what is never kept comes after an instance's end. */
  lemma {:induction false} CutNodeIff(n: Node)
    ensures CutAt(n) == CleanedNode(n) <==> NothingFollows(NodeEvents(n))
    decreases n, 0
  {
    if n.Element? {
      CutForestIff(n.children);
      FollowsElement(n);
    }
  }

  lemma {:induction false} CutForestIff(nodes: seq<Node>)
    ensures CutIn(nodes) == Cleaned(nodes) <==> NothingFollows(Events(nodes))
    decreases nodes, 1
  {
    if nodes != [] {
      var n, rest := nodes[0], nodes[1..];
      CutNodeIff(n);
      CutForestIff(rest);
      EndsAt(n);
      FollowsAppends(NodeEvents(n), Events(rest));
      NoQuietTree(rest);
      if InstancesAt(n, true) == [] {
        NoEndNothingFollows(NodeEvents(n));
        SameRest(CleanedNode(n), CutIn(rest), Cleaned(rest));
      } else {
        if AreQuiet(Events(rest)) {
          QuietFollows(Events(rest));
        }
        assert |CutAt(n)| == |CleanedNode(n)| == 1;
        assert CleanedNode(n)[0] == (CleanedNode(n) + Cleaned(rest))[0];
      }
      hide NodeEvents, Events, NothingFollows, CleanedNode, CutAt, InstancesAt, AreQuiet;
    }
  }

  lemma SameRest(a: seq<Node>, b: seq<Node>, c: seq<Node>)
    ensures a + b == a + c <==> b == c
  {
    if a + b == a + c {
      assert b == (a + b)[|a|..] && c == (a + c)[|a|..];
    }
  }

  lemma QuietFollows(events: seq<Event>)
    requires AreQuiet(events)
    ensures NothingFollows(events)
  {
  }

  /** load() gets the whole instance iff the first one with the id lies in no other, and nothing but end
      tags, comments and white space comes after the end of the first instance in it. */
  lemma WholeIsLoadedIff(document: seq<Node>, id: string)
    requires id != "" && FirstMatch(InstancesIn(document, false), id).Some?
    ensures
      var p := FirstMatch(InstancesIn(document, false), id).value;
      assert IsInstance(p.node);
      Loaded(Events(document), id) == Some([Whole(p.node)])
      <==> !p.inside && NothingFollows(Events(p.node.children))
  {
    LoadedIsTheInstance(document, id);
    CutForestIff(FirstMatch(InstancesIn(document, false), id).value.node.children);
    hide Loaded, Events, NothingFollows, InstancesIn, FirstMatch, CutIn, Cleaned;
  }

  /** In particular, from a document in which no instance lies in another one, load() gets the first
      instance with the id. */
  lemma FlatDocumentIsLoaded(document: seq<Node>, id: string)
    requires id != "" && forall p :: p in InstancesIn(document, false) ==> !p.inside
    ensures Loaded(Events(document), id)
         == match FirstMatch(InstancesIn(document, false), id)
            case None => None
            case Some(p) => assert p.node.Element?; Some([Whole(p.node)])
  {
    LoadedIsTheInstance(document, id);
    var first := FirstMatch(InstancesIn(document, false), id);
    if first.Some? {
      var held := InstancesIn(first.value.node.children, true);
      if held != [] {
        HeldByForest(document, false, first.value, held[0]);
      }
      NothingCutForest(first.value.node.children);
    }
    hide Loaded, Events, InstancesIn, FirstMatch, CutIn, Cleaned;
  }

  /** For example, an instance that lies in another one is lost. */
  lemma InnerInstanceIsLost(a: string, b: string)
    requires a != b && a != ""
    ensures
      var wanted := Element("instance", [Attribute("id", a)], []);
      Loaded(Events([Element("instance", [Attribute("id", b)], [wanted])]), a) == Some([])
  {
    var wanted := Element("instance", [Attribute("id", a)], []);
    var outer := Element("instance", [Attribute("id", b)], [wanted]);
    LoadedIsTheInstance([outer], a);
    InstancesOfOne(wanted, true);
    InstancesOfOne(outer, false);
    FirstMatchOne(Placed(outer, false), [Placed(wanted, true)], a);
    FirstMatchOne(Placed(wanted, true), [], a);
    hide Loaded, Events;
  }

  /** Of an instance around another one, what comes after that other one is lost. */
  lemma RestOfHolderIsLost(a: string, b: string, value: string)
    requires a != b && a != "" && !IsAllWhitespace(value)
    ensures
      var other := Element("instance", [Attribute("id", b)], []);
      Loaded(Events([Element("instance", [Attribute("id", a)], [other, Text(value)])]), a)
      == Some([Element("instance", [Attribute("id", a)], [other])])
  {
    var other := Element("instance", [Attribute("id", b)], []);
    var holder := Element("instance", [Attribute("id", a)], [other, Text(value)]);
    LoadedIsTheInstance([holder], a);
    InstancesOfOne(holder, false);
    FirstMatchOne(Placed(holder, false), InstancesIn(holder.children, true), a);
    assert InstancesAt(other, true) == [Placed(other, true)];
    assert CutAt(other) == [other];
    hide Loaded, Events, InstancesAt, CutAt;
  }

  /** An unwanted instance in an unwanted one does no harm. */
  lemma UnwantedPairIsHarmless(a: string, b: string)
    requires a != b && a != ""
    ensures
      var wanted, other := Element("instance", [Attribute("id", a)], []), Element("instance", [Attribute("id", b)], []);
      Loaded(Events([Element("instance", [Attribute("id", b)], [other]), wanted]), a) == Some([wanted])
  {
    var wanted, other := Element("instance", [Attribute("id", a)], []), Element("instance", [Attribute("id", b)], []);
    var pair := Element("instance", [Attribute("id", b)], [other]);
    LoadedIsTheInstance([pair, wanted], a);
    hide Loaded, Events;
    assert Cut(wanted) == wanted && !IsInstanceOf(pair, a) && !IsInstanceOf(other, a) && IsInstanceOf(wanted, a);
    InstancesOfOne(other, true);
    InstancesOfOne(wanted, false);
    assert InstancesAt(pair, false) == [Placed(pair, false)] + [Placed(other, true)];
    assert [pair, wanted][1..] == [wanted];
    var rest := [Placed(other, true)] + [Placed(wanted, false)];
    assert InstancesIn([pair, wanted], false) == [Placed(pair, false)] + rest;
    hide InstancesIn, InstancesAt, IsInstanceOf, FirstMatch, Cut;
    FirstMatchOne(Placed(pair, false), rest, a);
    FirstMatchOne(Placed(other, true), [Placed(wanted, false)], a);
    FirstMatchOne(Placed(wanted, false), [], a);
    assert [Placed(wanted, false)] + [] == [Placed(wanted, false)];
  }

  lemma InstancesOfOne(n: Node, inside: bool)
    requires IsInstance(n)
    ensures InstancesIn([n], inside) == [Placed(n, inside)] + InstancesIn(n.children, true)
  {
    assert [n][1..] == [];
  }
}
