/** The configuration document of src/configs/xmldom.cpp: handlers that let one instance through to the
    tree, the files they are given, and the pruning of what they let through of other instances. */
module ConfigDocument {
  import opened Characters
  import opened ConfigFilter
  import opened ConfigTheorems

  /** What a url stands for: a file, a directory of files, or a list of urls. What can't be opened is a
      directory or a list with nothing in it. */
  datatype Source = Document(nodes: seq<Node>) | Directory(documents: seq<seq<Node>>) | LinkFile(urls: seq<Source>)

  function Concatenated(documents: seq<seq<Node>>): seq<Node> {
    if documents == [] then [] else documents[0] + Concatenated(documents[1..])
  }

  /** All the documents there are, one after another. */
  function NodesOf(source: Source): seq<Node>
    decreases source, 0
  {
    match source
    case Document(nodes) => nodes
    case Directory(documents) => Concatenated(documents)
    case LinkFile(urls) => NodesOfAll(urls)
  }

  function NodesOfAll(urls: seq<Source>): seq<Node>
    decreases urls, 1
  {
    if urls == [] then [] else NodesOf(urls[0]) + NodesOfAll(urls[1..])
  }

  class ConfigDom {
    var id: string
    var ininstancetag: bool
    var inidattribute: bool
    var getattributes: bool
    var foundspecifiedinstance: bool
    var done: bool
    var tree: Tree

    ghost function State(): Flags
      reads this
    {
      Flags(ininstancetag, inidattribute, getattributes, foundspecifiedinstance, done)
    }

    ghost predicate Valid()
      reads this
    {
      tree.open != []
    }

    constructor ()
      ensures Valid() && State() == INITIAL_FLAGS && tree == EMPTY_TREE
    {
      id, tree := "", EMPTY_TREE;
      ininstancetag, inidattribute, getattributes, foundspecifiedinstance, done := false, false, true, false, false;
    }

    /** The base class's handler. */
    method Forward(e: Event)
      requires Valid()
      modifies this`tree
      ensures Valid() && tree == Grow(old(tree), e)
    {
      tree := Grow(tree, e);
    }

    method OnTagStart(name: string)
      requires Valid()
      modifies this
      ensures Valid() && id == old(id)
      ensures var h := HandleTagStart(old(State()), name);
        State() == h.flags && tree == if h.forwarded then Grow(old(tree), TagStart(name)) else old(tree)
    {
      if done {
        return;
      }
      ininstancetag := name == INSTANCE;
      if ininstancetag {
        getattributes := true;
      } else {
        if !foundspecifiedinstance {
          return;
        }
      }
      Forward(TagStart(name));
    }

    method OnTagEnd(name: string)
      requires Valid()
      modifies this
      ensures Valid() && id == old(id)
      ensures var h := HandleTagEnd(old(State()), name);
        State() == h.flags && tree == if h.forwarded then Grow(old(tree), TagEnd(name)) else old(tree)
    {
      if done {
        return;
      }
      if !foundspecifiedinstance && name != INSTANCE {
        return;
      }
      if foundspecifiedinstance && name == INSTANCE {
        done := true;
      }
      Forward(TagEnd(name));
    }

    method OnAttributeName(name: string)
      requires Valid()
      modifies this
      ensures Valid() && id == old(id)
      ensures var h := HandleAttributeName(old(State()), name);
        State() == h.flags && tree == if h.forwarded then Grow(old(tree), AttributeName(name)) else old(tree)
    {
      if !getattributes {
        return;
      }
      if done {
        return;
      }
      if !ininstancetag && !foundspecifiedinstance {
        return;
      }
      inidattribute := ininstancetag && name == "id";
      Forward(AttributeName(name));
    }

    method OnAttributeValue(value: string)
      requires Valid()
      modifies this
      ensures Valid() && id == old(id)
      ensures var h := HandleAttributeValue(old(State()), id, value);
        State() == h.flags && tree == if h.forwarded then Grow(old(tree), AttributeValue(value)) else old(tree)
    {
      if !getattributes {
        return;
      }
      if done {
        return;
      }
      if !ininstancetag && !foundspecifiedinstance {
        return;
      }
      if !foundspecifiedinstance {
        foundspecifiedinstance := inidattribute && value == id;
      }
      if !foundspecifiedinstance && inidattribute {
        getattributes := false;
      }
      Forward(AttributeValue(value));
    }

    method OnText(value: string)
      requires Valid()
      modifies this
      ensures Valid() && id == old(id) && State() == old(State())
      ensures tree == if Handle(old(State()), id, TextFound(value)).forwarded
                      then Grow(old(tree), TextFound(value)) else old(tree)
    {
      if done {
        return;
      }
      if !foundspecifiedinstance {
        return;
      }
      for c := 0 to |value|
        invariant forall i :: 0 <= i < c ==> IsWhitespace(value[i])
        invariant Valid() && id == old(id) && State() == old(State()) && tree == old(tree)
      {
        if !IsWhitespace(value[c]) {
          Forward(TextFound(value));
          return;
        }
      }
    }

    /** What the parser does with each event. */
    method Dispatch(e: Event)
      requires Valid()
      modifies this
      ensures Valid() && id == old(id)
      ensures var h := Handle(old(State()), id, e);
        State() == h.flags && tree == if h.forwarded then Grow(old(tree), e) else old(tree)
    {
      match e
      case TagStart(name) => OnTagStart(name);
      case TagEnd(name) => OnTagEnd(name);
      case AttributeName(name) => OnAttributeName(name);
      case AttributeValue(value) => OnAttributeValue(value);
      case TextFound(value) => OnText(value);
      case CommentFound(_) =>
    }

    method Parse(events: seq<Event>)
      requires Valid()
      modifies this
      ensures Valid() && id == old(id)
      ensures State() == Filtered(old(State()), id, events).flags
      ensures tree == GrowAll(old(tree), Filtered(old(State()), id, events).events)
    {
      var i := 0;
      while i < |events|
        invariant i <= |events| && Valid() && id == old(id)
        invariant Filtered(old(State()), id, events).flags == Filtered(State(), id, events[i..]).flags
        invariant GrowAll(old(tree), Filtered(old(State()), id, events).events)
               == GrowAll(tree, Filtered(State(), id, events[i..]).events)
      {
        FilteredStep(State(), id, events[i..], tree);
        assert events[i..][1..] == events[i + 1..];
        Dispatch(events[i]);
        i := i + 1;
      }
    }

    /** A file, a directory or a list of urls. The files after one in which the instance was found aren't
        read. */
    method ParseUrl(source: Source)
      requires Valid() && Settled(State())
      modifies this
      ensures Valid() && id == old(id) && Settled(State())
      ensures
        var out := Filtered(old(State()), id, Events(NodesOf(source)));
        State() == out.flags && tree == GrowAll(old(tree), out.events)
      decreases source
    {
      hide Filtered, Events, GrowAll;
      match source
      case Document(nodes) =>
        SettledAfter(State(), id, nodes);
        Parse(Events(nodes));
      case Directory(documents) =>
        ParseDir(documents);
      case LinkFile(urls) =>
        ParseLinkFile(urls);
    }

    method ParseDir(documents: seq<seq<Node>>)
      requires Valid() && Settled(State())
      modifies this
      ensures Valid() && id == old(id) && Settled(State())
      ensures
        var out := Filtered(old(State()), id, Events(Concatenated(documents)));
        State() == out.flags && tree == GrowAll(old(tree), out.events)
    {
      hide Filtered, Events, GrowAll, Settled, NodesOf;
      var i := 0;
      ghost var all := Concatenated(documents);
      assert documents[0..] == documents;
      while !done && i < |documents|
        invariant i <= |documents| && Valid() && id == old(id) && Settled(State())
        invariant GoesOn(old(State()), old(tree), all, State(), tree, Concatenated(documents[i..]), id)
        decreases |documents| - i
      {
        assert documents[i..][1..] == documents[i + 1..];
        SettledAfter(State(), id, documents[i]);
        OneMoreDocument(old(State()), old(tree), all, State(), tree, documents[i], Concatenated(documents[i + 1..]), id);
        Parse(Events(documents[i]));
        i := i + 1;
      }
      NothingMore(old(State()), old(tree), all, State(), tree, Concatenated(documents[i..]), id);
    }

    method ParseLinkFile(urls: seq<Source>)
      requires Valid() && Settled(State())
      modifies this
      ensures Valid() && id == old(id) && Settled(State())
      ensures
        var out := Filtered(old(State()), id, Events(NodesOfAll(urls)));
        State() == out.flags && tree == GrowAll(old(tree), out.events)
      decreases urls
    {
      hide Filtered, Events, GrowAll, Settled, NodesOf;
      var i := 0;
      ghost var all := NodesOfAll(urls);
      assert urls[0..] == urls;
      while i < |urls|
        invariant i <= |urls| && Valid() && id == old(id) && Settled(State())
        invariant GoesOn(old(State()), old(tree), all, State(), tree, NodesOfAll(urls[i..]), id)
        decreases |urls| - i
      {
        assert urls[i..][1..] == urls[i + 1..];
        OneMoreDocument(old(State()), old(tree), all, State(), tree, NodesOf(urls[i]), NodesOfAll(urls[i + 1..]), id);
        ParseUrl(urls[i]);
        i := i + 1;
        if foundspecifiedinstance {
          FoundIsDone(State());
          break;
        }
      }
      NothingMore(old(State()), old(tree), all, State(), tree, NodesOfAll(urls[i..]), id);
    }

    /** The first step of normalizeTree. */
    method PruneInstances()
      requires Valid()
      modifies this`tree
      ensures Valid() && tree == WithRoot(old(tree), Pruned(Children(old(tree)), id))
    {
      hide Pruned;
      var children := PruneChildren(Children(tree), id);
      tree := WithRoot(tree, children);
    }

    /** load(): parse, give up if the instance wasn't there, and prune. There may be no url. The first
        instance with the id is kept, up to the end of the first instance in it, unless it lies in another. */
    method Load(source: Option<Source>, wanted: string) returns (ok: bool)
      requires Valid()
      modifies this
      ensures Valid()
      ensures ok <==>
        source.Some? && wanted != "" && FirstMatch(InstancesIn(NodesOf(source.value), false), wanted).Some?
      ensures ok ==>
        var p := FirstMatch(InstancesIn(NodesOf(source.value), false), wanted).value;
        Children(tree) == if p.inside then [] else [Cut(p.node)]
    {
      hide Pruned, Filtered, GrowAll, Events, NodesOf, InstancesIn, FirstMatch, Cut, Children;
      if source.None? || wanted == "" {
        return false;
      }
      id, tree := wanted, EMPTY_TREE;
      ininstancetag, inidattribute, getattributes, foundspecifiedinstance, done := false, false, true, false, false;
      ParseUrl(source.value);
      LoadedIsTheInstance(NodesOf(source.value), wanted);
      if !foundspecifiedinstance {
        return false;
      }
      PruneInstances();
      return true;
    }
  }

  // ------------------------------------------------------------ one document after another

  /** Between documents, the search goes on or is done. */
  predicate Settled(f: Flags) {
    Searching(f) || (f.done && f.foundspecifiedinstance)
  }

  lemma SettledAfter(f: Flags, id: string, nodes: seq<Node>)
    requires Settled(f)
    ensures Settled(Filtered(f, id, Events(nodes)).flags)
  {
    if f.done {
      NothingAfterDone(f, id, Events(nodes));
    } else {
      SearchForest(f, id, nodes);
    }
  }

  lemma FoundIsDone(f: Flags)
    requires Settled(f) && f.foundspecifiedinstance
    ensures f.done
  {
  }

  /** To run over all the nodes from the first flags and tree is to run over the rest of them from the
      later ones. */
  ghost predicate GoesOn(f: Flags, t: Tree, all: seq<Node>, g: Flags, u: Tree, rest: seq<Node>, id: string)
    requires t.open != [] && u.open != []
  {
    var out, more := Filtered(f, id, Events(all)), Filtered(g, id, Events(rest));
    out.flags == more.flags && GrowAll(t, out.events) == GrowAll(u, more.events)
  }

  lemma OneMoreDocument(f: Flags, t: Tree, all: seq<Node>, g: Flags, u: Tree, nodes: seq<Node>, rest: seq<Node>, id: string)
    requires t.open != [] && u.open != [] && GoesOn(f, t, all, g, u, nodes + rest, id)
    ensures
      var out := Filtered(g, id, Events(nodes));
      GoesOn(f, t, all, out.flags, GrowAll(u, out.events), rest, id)
  {
    EventsAppend(nodes, rest);
    var out := Filtered(g, id, Events(nodes));
    FilteredAppends(g, id, Events(nodes), Events(rest));
    GrowAppends(u, out.events, Filtered(out.flags, id, Events(rest)).events);
    hide Filtered, Events, GrowAll;
  }

  lemma NothingMore(f: Flags, t: Tree, all: seq<Node>, g: Flags, u: Tree, rest: seq<Node>, id: string)
    requires t.open != [] && u.open != [] && GoesOn(f, t, all, g, u, rest, id)
    requires g.done || rest == []
    ensures var out := Filtered(f, id, Events(all)); g == out.flags && u == GrowAll(t, out.events)
  {
    if g.done {
      NothingAfterDone(g, id, Events(rest));
    }
  }

  // ------------------------------------------------------------ pruning

  /** The position of the next instance from i on, or the end. */
  method NextInstance(nodes: seq<Node>, i: nat) returns (r: nat)
    requires i <= |nodes|
    ensures i <= r <= |nodes|
    ensures r < |nodes| ==> IsInstance(nodes[r])
    ensures forall j :: i <= j < r ==> !IsInstance(nodes[j])
  {
    hide IsInstance;
    r := i;
    while r < |nodes| && !IsInstance(nodes[r])
      invariant i <= r <= |nodes|
      invariant forall j :: i <= j < r ==> !IsInstance(nodes[j])
    {
      r := r + 1;
    }
  }

  /** The children before i are what is left of the document before k, the others are still its own. */
  ghost predicate PrunedUpTo(children: seq<Node>, i: nat, root: seq<Node>, k: nat, id: string) {
    && i <= |children| && k <= |root|
    && children[..i] == Pruned(root[..k], id) && children[i..] == root[k..]
  }

  /** Instances with another id, or none, are deleted from the document. */
  method PruneChildren(root: seq<Node>, id: string) returns (children: seq<Node>)
    ensures children == Pruned(root, id)
  {
    hide PrunedUpTo, IsInstance, IsInstanceOf, Pruned;
    children := root;
    var instance := NextInstance(children, 0);
    ghost var seen: nat := instance;
    PruningStarts(root, seen, id);
    while instance < |children|
      invariant instance <= |children| && PrunedUpTo(children, instance, root, seen, id)
      invariant instance < |children| ==> IsInstance(children[instance])
      decreases |children| - instance
    {
      var next := NextInstance(children, instance + 1);
      PruningRound(children, instance, next, root, seen, id);
      seen := seen + (next - instance);
      if !IsInstanceOf(children[instance], id) {
        children := children[..instance] + children[instance + 1..];
        next := next - 1;
      }
      instance := next;
    }
    PruningEnds(children, root, seen, id);
  }

  /** Past the part already pruned, the children are still the document's. */
  lemma SameTail(children: seq<Node>, i: nat, next: nat, root: seq<Node>, k: nat)
    requires i < next <= |children| && k <= |root| && children[i..] == root[k..]
    requires forall j :: i < j < next ==> !IsInstance(children[j])
    ensures k + (next - i) <= |root|
    ensures children[i + 1..next] == root[k + 1..k + (next - i)] && children[next..] == root[k + (next - i)..]
    ensures forall j :: k < j < k + (next - i) ==> !IsInstance(root[j])
    ensures children[i] == root[k] && (next < |children| ==> children[next] == root[k + (next - i)])
  {
    hide IsInstance;
    assert |children[i..]| == |root[k..]|;
    TailSlice(children, i, 1, next - i);
    TailSlice(root, k, 1, next - i);
    TailSlice(children, i, next - i, |children| - i);
    TailSlice(root, k, next - i, |root| - k);
    assert children[i..][0] == root[k..][0];
    forall j | k < j < k + (next - i) ensures !IsInstance(root[j]) {
      assert root[j] == root[k..][j - k] == children[i..][j - k] == children[i + (j - k)];
    }
  }

  lemma TailSlice(s: seq<Node>, i: nat, a: nat, b: nat)
    requires i <= |s| && a <= b <= |s| - i
    ensures s[i..][a..b] == s[i + a..i + b]
  {
  }

  lemma DeletedAt(c: seq<Node>, i: nat, next: nat)
    requires i < next <= |c|
    ensures
      var without := c[..i] + c[i + 1..];
      without[..next - 1] == c[..i] + c[i + 1..next] && without[next - 1..] == c[next..]
  {
  }

  lemma KeptAt(c: seq<Node>, i: nat, next: nat)
    requires i < next <= |c|
    ensures c[..next] == c[..i] + ([c[i]] + c[i + 1..next])
  {
  }

  lemma PruningStarts(root: seq<Node>, k: nat, id: string)
    requires k <= |root| && forall j :: 0 <= j < k ==> !IsInstance(root[j])
    ensures PrunedUpTo(root, k, root, k, id)
  {
    NoInstancesToPrune(root[..k], id);
  }

  lemma PruningEnds(children: seq<Node>, root: seq<Node>, k: nat, id: string)
    requires PrunedUpTo(children, |children|, root, k, id)
    ensures children == Pruned(root, id)
  {
    assert |children[|children|..]| == |root[k..]| == 0;
    assert children == children[..|children|] && root[..k] == root;
  }

  lemma PruningRound(c: seq<Node>, i: nat, next: nat, root: seq<Node>, k: nat, id: string)
    requires PrunedUpTo(c, i, root, k, id) && i < next <= |c| && IsInstance(c[i])
    requires forall j :: i < j < next ==> !IsInstance(c[j])
    ensures
      var later := k + (next - i);
      var without := c[..i] + c[i + 1..];
      if IsInstanceOf(c[i], id) then PrunedUpTo(c, next, root, later, id)
      else PrunedUpTo(without, next - 1, root, later, id) && (next < |c| ==> without[next - 1] == c[next])
  {
    hide PrunedNode, IsInstance, IsInstanceOf, Pruned, PrunedUpTo;
    if IsInstanceOf(c[i], id) {
      KeepingRound(c, i, next, root, k, id);
    } else {
      DeletingRound(c, i, next, root, k, id);
    }
  }

  lemma KeepingRound(c: seq<Node>, i: nat, next: nat, root: seq<Node>, k: nat, id: string)
    requires PrunedUpTo(c, i, root, k, id) && i < next <= |c| && IsInstanceOf(c[i], id)
    requires forall j :: i < j < next ==> !IsInstance(c[j])
    ensures PrunedUpTo(c, next, root, k + (next - i), id)
  {
    SameTail(c, i, next, root, k);
    PrunedStep(root, k, k + (next - i), id);
    PrunedNodeIs(root[k], id);
    hide PrunedNode, IsInstance, IsInstanceOf, Pruned;
    KeptAt(c, i, next);
  }

  lemma DeletingRound(c: seq<Node>, i: nat, next: nat, root: seq<Node>, k: nat, id: string)
    requires PrunedUpTo(c, i, root, k, id) && i < next <= |c| && IsInstance(c[i]) && !IsInstanceOf(c[i], id)
    requires forall j :: i < j < next ==> !IsInstance(c[j])
    ensures
      var without := c[..i] + c[i + 1..];
      PrunedUpTo(without, next - 1, root, k + (next - i), id) && (next < |c| ==> without[next - 1] == c[next])
  {
    SameTail(c, i, next, root, k);
    PrunedStep(root, k, k + (next - i), id);
    PrunedNodeIs(root[k], id);
    hide PrunedNode, IsInstance, IsInstanceOf, Pruned;
    DeletedAt(c, i, next);
    assert [] + root[k + 1..k + (next - i)] == root[k + 1..k + (next - i)];
  }

  /** One round of the pruning loop. */
  lemma PrunedStep(root: seq<Node>, k: nat, next: nat, id: string)
    requires k < next <= |root|
    requires forall j :: k < j < next ==> !IsInstance(root[j])
    ensures Pruned(root[..next], id) == Pruned(root[..k], id) + (PrunedNode(root[k], id) + root[k + 1..next])
  {
    hide IsInstance, PrunedNode;
    NoInstancesToPrune(root[k + 1..next], id);
    assert root[..next] == root[..k] + root[k..next];
    PrunedAppends(root[..k], root[k..next], id);
    assert root[k..next][1..] == root[k + 1..next];
  }

  lemma PrunedNodeIs(n: Node, id: string)
    requires IsInstance(n)
    ensures PrunedNode(n, id) == if IsInstanceOf(n, id) then [n] else []
  {
  }
}
