/**
  The tree builder as the Go program runs it: a tree object whose methods
  create nodes, relabel them, attach them to their parents and walk the
  decoded YAML document, changing the node arena in place. Each method is
  proved to leave the arena the functions of `ParserBuild` and
  `ParserFlatten` describe.
 */
module ParserTree {
  import opened Wrappers
  import opened GoStrings
  import opened Globals
  import opened Yaml
  import opened Parser
  import opened ParserBuild
  import opened ParserFlatten
  import opened MiscUtils

  /** The contents of the nodes `ids`, in order. */
  function Contents(ns: seq<Element>, ids: seq<nat>): (cs: seq<string>)
    requires forall j :: 0 <= j < |ids| ==> ids[j] < |ns|
    ensures |cs| == |ids|
    ensures forall j :: 0 <= j < |ids| ==> cs[j] == ns[ids[j]].content
    decreases |ids|
  {
    if ids == [] then [] else Contents(ns, ids[..|ids| - 1]) + [ns[ids[|ids| - 1]].content]
  }

  /** Every entry of node `k`'s list is a node of the arena. */
  predicate Listed(ns: seq<Element>, k: nat)
    requires k < |ns|
  {
    forall j :: 0 <= j < |ns[k].childrenSorted| ==> ns[k].childrenSorted[j] < |ns|
  }

  /** The `history` child of node `p`, if it has one: the lookup of `history` in its map. */
  function HistoryChild(ns: seq<Element>, p: nat): Option<nat>
    requires p < |ns|
  {
    if HistoryGroup in ns[p].children then Some(ns[p].children[HistoryGroup]) else None
  }

  /**
    In a built tree the lookup finds a `history` child exactly when `p` has
    a child named `history`, and what it finds is such a child of `p`.
   */
  lemma HistoryChildFound(ns: seq<Element>, maxKey: int, p: nat)
    requires Built(ns, maxKey) && p < |ns|
    ensures HistoryChild(ns, p).Some? <==>
      exists j :: 0 <= j < |ns[p].childrenSorted| && ns[ns[p].childrenSorted[j]].content == HistoryGroup
    ensures HistoryChild(ns, p).Some? ==>
      && HistoryChild(ns, p).value in ns[p].childrenSorted
      && ns[HistoryChild(ns, p).value].content == HistoryGroup
      && ns[HistoryChild(ns, p).value].parent == Some(p)
  {
    var kids := ns[p].childrenSorted;
    KeyedByContent(ns, kids);
    if j :| 0 <= j < |kids| && ns[kids[j]].content == HistoryGroup {
      KeyedByHasContents(ns, kids, j);
    }
  }

  /**
    The rendering step shared by `PostProcess` and `finalElementApply`: a
    node whose parent carries the `comm` tag gets its content rendered into
    the parent's content.
   */
  method RenderElement(ns: seq<Element>, k: nat) returns (e: Element)
    requires WellFormed(ns) && k < |ns|
    ensures e == Rendered(ns, k)
  {
    e := ns[k];
    if e.parent.Some? {
      var parent := ns[e.parent.value];
      var hasComm := DoesElementHaveCommandTag(parent);
      if hasComm {
        var content := ReplaceContentWithChoices(parent.content, e.content);
        e := e.(content := content);
      }
    }
  }

  /**
    The flat-mode outcome under `p`: the walk from `p` into a fresh flat
    parent, whose children become `p`'s; an empty flat list is the error
    `No children found`.
   */
  predicate Flattened(before: seq<Element>, p: nat, cfg: Config, after: seq<Element>, err: Option<string>)
    requires WellFormed(before) && p < |before|
  {
    var w := Visit(before, NewFlatParent(), p, cfg);
    && after == w.ns[p := w.ns[p].(children := w.all.children, childrenSorted := w.all.childrenSorted)]
    && (err.Some? <==> |w.all.childrenSorted| < 1)
    && (err.Some? ==> err.value == "No children found")
  }

  class Tree {
    /** `globals.ChildKeyMaxSize`, the length child keys are cut to. */
    const maxKey: int
    /** The nodes; node 0 is the root, and a node's references are indices. */
    var nodes: seq<Element>
    /** `HistoryTemp`: the `history` group under the root, if there is one. */
    var historyTemp: Option<nat>

    /** A tree holding only the group `root`, as the program starts. */
    constructor (maxKey: int)
      ensures this.maxKey == maxKey
      ensures nodes == [NewElement("root", false, None)] && historyTemp == None
      ensures Built(nodes, maxKey)
    {
      this.maxKey := maxKey;
      nodes := [NewElement("root", false, None)];
      historyTemp := None;
      RootBuilt(NewElement("root", false, None), maxKey);
    }

    /** `NewElement(raw, isCommand, parent)`: a new node, not yet attached. */
    method NewChild(raw: string, isCommand: bool, p: nat) returns (id: nat)
      requires p < |nodes|
      modifies this
      ensures nodes == Spawn(old(nodes), raw, isCommand, p) && id == |old(nodes)|
      ensures historyTemp == old(historyTemp)
    {
      id := |nodes|;
      nodes := nodes + [NewElement(raw, isCommand, Some(p))];
    }

    /**
      `processElementToParent(element, parent, elementContent)`: the parent
      shows the node's truncated content among its child keys, maps
      `elementContent` to it and lists it last; then the loop appends the
      parent's tags other than `comm` to the node's tags.
     */
    method ProcessElementToParent(id: nat, p: nat, elementContent: string)
      requires id < |nodes| && p < |nodes| && id != p
      modifies this
      ensures |nodes| == |old(nodes)|
      ensures nodes[p] == old(nodes[p]).(
        childKeys := old(nodes[p].childKeys) + [Truncated(old(nodes[id].content), maxKey)],
        children := old(nodes[p].children)[elementContent := id],
        childrenSorted := old(nodes[p].childrenSorted) + [id])
      ensures nodes[id] == old(nodes[id]).(tags := old(nodes[id].tags) + WithoutComm(old(nodes[p].tags)))
      ensures forall k :: 0 <= k < |nodes| && k != p && k != id ==> nodes[k] == old(nodes[k])
      ensures elementContent == old(nodes[id].content) ==> nodes == Attach(old(nodes), id, p, maxKey)
      ensures historyTemp == old(historyTemp)
    {
      var e := nodes[id];
      var parent := nodes[p];
      var key := TruncateString(e.content, maxKey);
      nodes := nodes[p := parent.(childKeys := parent.childKeys + [key])];
      nodes := nodes[p := nodes[p].(children := nodes[p].children[elementContent := id])];
      nodes := nodes[p := nodes[p].(childrenSorted := nodes[p].childrenSorted + [id])];
      InheritTags(id, parent.tags);
    }

    /** The loop of `processElementToParent` that appends the given tags other than `comm` to a node's tags. */
    method InheritTags(id: nat, parentTags: seq<string>)
      requires id < |nodes|
      modifies this
      ensures nodes == old(nodes)[id := old(nodes[id]).(tags := old(nodes[id].tags) + WithoutComm(parentTags))]
      ensures historyTemp == old(historyTemp)
    {
      ghost var e := nodes[id];
      assert e.tags + WithoutComm(parentTags[..0]) == e.tags;
      for i := 0 to |parentTags|
        invariant |nodes| == |old(nodes)|
        invariant nodes[id] == e.(tags := e.tags + WithoutComm(parentTags[..i]))
        invariant forall k :: 0 <= k < |nodes| && k != id ==> nodes[k] == old(nodes[k])
        invariant historyTemp == old(historyTemp)
      {
        assert parentTags[..i + 1][..i] == parentTags[..i];
        if parentTags[i] != "comm" {
          nodes := nodes[id := nodes[id].(tags := nodes[id].tags + [parentTags[i]])];
        }
      }
      assert parentTags[..|parentTags|] == parentTags;
    }

    /**
      `processElement(element, parent)`: split the node's label on `^`, take
      the trimmed content and, when there is a second token, the trimmed
      description and its tags; then attach the node to its parent.
     */
    method ProcessElement(id: nat, p: nat)
      requires id < |nodes| && p < |nodes| && id != p
      modifies this
      ensures nodes == Process(old(nodes), id, p, maxKey)
      ensures historyTemp == old(historyTemp)
    {
      var tokens := Split(nodes[id].content, '^');
      if |tokens| < 2 {
        var currentContent := TrimSpace(tokens[0]);
        nodes := nodes[id := nodes[id].(content := currentContent)];
        assert nodes == old(nodes)[id := Relabel(old(nodes)[id])];
        ProcessElementToParent(id, p, currentContent);
      } else {
        var currentContent := TrimSpace(tokens[0]);
        var currentDescription := TrimSpace(tokens[1]);
        var tags := GetTagsFromDescription(currentDescription);
        nodes := nodes[id := nodes[id].(content := currentContent, description := currentDescription, tags := tags)];
        assert nodes == old(nodes)[id := Relabel(old(nodes)[id])];
        ProcessElementToParent(id, p, currentContent);
      }
    }

    /**
      `RecurseSlice(items, parent)`: every item, formatted with `%v`, becomes
      a command under the parent, in order.
     */
    method RecurseSlice(items: seq<Raw>, p: nat)
      requires p < |nodes|
      modifies this
      ensures nodes == SliceFrom(old(nodes), ItemLabels(items), p, 0, maxKey)
      ensures historyTemp == old(historyTemp)
    {
      ghost var lps := ItemLabels(items);
      for i := 0 to |items|
        invariant p < |nodes|
        invariant SliceFrom(nodes, lps, p, i, maxKey) == SliceFrom(old(nodes), lps, p, 0, maxKey)
        invariant historyTemp == old(historyTemp)
      {
        ghost var before := nodes;
        var itemStr := Display(items[i]);
        var id := NewChild(itemStr, true, p);
        ProcessElement(id, p);
        ProcessSpawn(before, itemStr, true, p, maxKey);
        ItemLabelsAt(items, i);
        assert nodes == AddChild(before, lps[i], true, p, maxKey);
      }
    }

    /**
      `RecurseMap(m, parent)`: a key whose value is a mapping becomes a group
      that is recursed into; a key whose value is a sequence becomes a group
      of commands; a key with a scalar value attaches nothing. A null value
      makes the Go code panic, so the document must have none.
     */
    method RecurseMap(es: seq<Entry>, p: nat)
      requires p < |nodes| && NoNullMapValues(Map(es))
      modifies this
      ensures nodes == MapFrom(old(nodes), BodyOf(Map(es)).groups, p, 0, maxKey)
      ensures historyTemp == old(historyTemp)
      decreases Map(es)
    {
      ghost var gs := BodyOf(Map(es)).groups;
      for i := 0 to |es|
        invariant p < |nodes|
        invariant MapFrom(nodes, gs, p, i, maxKey) == MapFrom(old(nodes), gs, p, 0, maxKey)
        invariant historyTemp == old(historyTemp)
      {
        ghost var before := nodes;
        var val := es[i].value;
        var keyStr := es[i].key;
        assert gs[i] == Group(ParseLabel(keyStr), BodyOf(val));
        if val.Map? {
          var id := NewChild(keyStr, false, p);
          ProcessElement(id, p);
          ProcessSpawn(before, keyStr, false, p, maxKey);
          assert Map(val.entries) == val && es[i] in es;
          RecurseMap(val.entries, id);
        } else if val.Seq? {
          var id := NewChild(keyStr, false, p);
          ProcessElement(id, p);
          ProcessSpawn(before, keyStr, false, p, maxKey);
          RecurseSlice(val.items, id);
        }
        assert nodes == EntryValue(before, gs[i], p, maxKey);
      }
    }

    /**
      `appendToFlatParent(flat, element)`: the node joins the flat list and
      the flat map only when it passes the admission filter.
     */
    method AppendToFlatParent(flat: Element, k: nat, cfg: Config) returns (r: Element)
      requires k < |nodes|
      ensures r == AppendToFlat(flat, nodes[k], k, cfg)
    {
      r := flat;
      if ElementPassesPreCriteria(nodes[k], cfg) {
        r := r.(childrenSorted := r.childrenSorted + [k]);
        r := r.(children := r.children[nodes[k].content := k]);
      }
    }

    /**
      `PostProcess(element, flat)`: skip a node named `history` and all under
      it; hand a command with a parent to the flat parent, rendered into the
      parent's template first when the parent has `comm`; then recurse into
      the children in order.
     */
    method PostProcess(k: nat, flat: Element, cfg: Config) returns (r: Element)
      requires WellFormed(nodes) && k < |nodes|
      modifies this
      ensures Walk(nodes, r) == Visit(old(nodes), flat, k, cfg)
      ensures historyTemp == old(historyTemp)
      decreases |nodes| - k, 3
    {
      if nodes[k].content == HistoryGroup {
        return flat;
      }
      if nodes[k].isCommand && nodes[k].parent.Some? {
        r := PostProcessCommand(k, flat, cfg);
      } else {
        r := PostProcessKids(k, flat, cfg);
      }
    }

    /** `PostProcess` at a command with a parent. */
    method PostProcessCommand(k: nat, flat: Element, cfg: Config) returns (r: Element)
      requires WellFormed(nodes) && k < |nodes| && nodes[k].isCommand && nodes[k].parent.Some?
      modifies this
      ensures Walk(nodes, r) == VisitCommand(old(nodes), flat, k, cfg)
      ensures historyTemp == old(historyTemp)
      decreases |nodes| - k, 2
    {
      var e := RenderElement(nodes, k);
      nodes := nodes[k := e];
      RenderInPlace(old(nodes), k);
      r := AppendToFlatParent(flat, k, cfg);
      r := PostProcessKids(k, r, cfg);
    }

    /** The loop of `PostProcess` over the children of `k`. */
    method PostProcessKids(k: nat, flat: Element, cfg: Config) returns (r: Element)
      requires WellFormed(nodes) && k < |nodes|
      modifies this
      ensures Walk(nodes, r) == VisitKids(old(nodes), flat, k, 0, cfg)
      ensures historyTemp == old(historyTemp)
      decreases |nodes| - k, 1
    {
      var kids := nodes[k].childrenSorted;
      r := flat;
      for j := 0 to |kids|
        invariant WellFormed(nodes) && SameShape(old(nodes), nodes)
        invariant VisitKids(nodes, r, k, j, cfg) == VisitKids(old(nodes), flat, k, 0, cfg)
        invariant historyTemp == old(historyTemp)
      {
        ghost var before := nodes;
        ghost var flatBefore := r;
        r := PostProcess(kids[j], r, cfg);
        assert Walk(nodes, r) == Visit(before, flatBefore, kids[j], cfg);
        SameShapeWellFormed(before, nodes);
        SameShapeTrans(old(nodes), before, nodes);
      }
    }

    /**
      The flat-mode tail of `MainRecurseMap`: walk the tree under `p` into a
      fresh flat parent and give `p` its children; an empty flat list is the
      error `No children found`. The child keys of `p` are left as they were.
     */
    method FlattenUnder(p: nat, cfg: Config) returns (err: Option<string>)
      requires WellFormed(nodes) && p < |nodes|
      modifies this
      ensures Flattened(old(nodes), p, cfg, nodes, err)
      ensures historyTemp == old(historyTemp)
    {
      var flatParent := NewFlatParent();
      flatParent := PostProcess(p, flatParent, cfg);
      nodes := nodes[p := nodes[p].(children := flatParent.children, childrenSorted := flatParent.childrenSorted)];
      err := None;
      if |nodes[p].childrenSorted| < 1 {
        err := Some("No children found");
      }
    }

    /** `RecurseMap` from a built tree, as `MapFrom` states; the result is a built tree by `MapFromBuilt`. */
    method BuildUnder(es: seq<Entry>, p: nat)
      requires Built(nodes, maxKey) && p < |nodes| && !nodes[p].isCommand
      requires NoNullMapValues(Map(es))
      modifies this
      ensures nodes == MapFrom(old(nodes), BodyOf(Map(es)).groups, p, 0, maxKey)
      ensures WellFormed(nodes) && p < |nodes|
      ensures historyTemp == old(historyTemp)
    {
      RecurseMap(es, p);
      BodyOfCoherent(Map(es));
      MapFromBuilt(old(nodes), BodyOf(Map(es)).groups, p, 0, maxKey);
    }

    /**
      `MainRecurseMap(m, parent)`: build the tree under `p` and remember the
      `history` group found under `p`; in flat mode, then flatten under `p`.
     */
    method MainRecurseMap(es: seq<Entry>, p: nat, cfg: Config) returns (err: Option<string>)
      requires Built(nodes, maxKey) && p < |nodes| && !nodes[p].isCommand
      requires NoNullMapValues(Map(es))
      modifies this
      ensures var built := MapFrom(old(nodes), BodyOf(Map(es)).groups, p, 0, maxKey);
        && WellFormed(built)
        && historyTemp == HistoryChild(built, p)
        && (!cfg.flatParse ==> nodes == built && err == None)
        && (cfg.flatParse ==> Flattened(built, p, cfg, nodes, err))
    {
      BuildUnder(es, p);
      ghost var built := nodes;
      if HistoryGroup in nodes[p].children {
        historyTemp := Some(nodes[p].children[HistoryGroup]);
      } else {
        historyTemp := None;
      }
      assert historyTemp == HistoryChild(built, p);
      err := None;
      if cfg.flatParse {
        err := FlattenUnder(p, cfg);
      }
    }

    /**
      `SimpleElementToMap(element)`: the one-key mapping from the node's
      content to the list of its children's contents, in order.
     */
    method SimpleElementToMap(k: nat) returns (m: Raw)
      requires k < |nodes| && Listed(nodes, k)
      ensures m == Map([Entry(nodes[k].content, Seq(Scalars(Contents(nodes, nodes[k].childrenSorted))))])
    {
      var kids := nodes[k].childrenSorted;
      var simpleList: seq<string> := [];
      for i := 0 to |kids|
        invariant simpleList == Contents(nodes, kids[..i])
      {
        assert kids[..i + 1][..i] == kids[..i];
        simpleList := simpleList + [nodes[kids[i]].content];
      }
      assert kids[..|kids|] == kids;
      m := Map([Entry(nodes[k].content, Seq(Scalars(simpleList)))]);
    }
  }

  /** A trimmed text without `^` is its own label: content, no description, no tags. */
  lemma PlainLabel(t: string)
    requires IndexOfChar(t, '^') < 0 && TrimSpace(t) == t
    ensures ParseLabel(t) == LabelParts(t, false, "", [])
  {
    LabelSplit(t);
  }

  /**
    Reading a serialized list back: the items of a sequence of trimmed texts
    without `^` become commands whose contents are those texts, in order, with
    no description and no own tags.
   */
  lemma {:induction false} PlainItemsRoundTrip(texts: seq<string>)
    requires forall j :: 0 <= j < |texts| ==> IndexOfChar(texts[j], '^') < 0 && TrimSpace(texts[j]) == texts[j]
    ensures ItemLabels(Scalars(texts)) == seq(|texts|, j requires 0 <= j < |texts| => LabelParts(texts[j], false, "", []))
  {
    var items := Scalars(texts);
    forall j | 0 <= j < |texts|
      ensures ItemLabels(items)[j] == LabelParts(texts[j], false, "", [])
    {
      ItemLabelsAt(items, j);
      PlainLabel(texts[j]);
    }
  }
}
