/**
  The tree builder as functions on the node arena: what `processElement`,
  `processElementToParent`, `RecurseSlice` and `RecurseMap` leave behind,
  and the invariants every tree they build satisfies.

  Node `k` of an arena `ns` is `ns[k]`; a new node is appended at the end,
  so its index is larger than those of all nodes that existed before it.
  The arena functions take labels already split into their parts
  (`ParseLabel`); `ProcessSpawn` ties them to the step-by-step form the
  builder's methods take.
 */
module ParserBuild {
  import opened Wrappers
  import opened GoStrings
  import opened Yaml
  import opened Parser

  // ---------------------------------------------------------------- shape

  /** References stay inside the arena and lead forward, from parent to child. */
  predicate WellFormed(ns: seq<Element>) {
    && |ns| >= 1
    && (forall k :: 0 <= k < |ns| && ns[k].parent.Some? ==> ns[k].parent.value < k)
    && (forall k, j :: 0 <= k < |ns| && 0 <= j < |ns[k].childrenSorted| ==>
          k < ns[k].childrenSorted[j] < |ns|)
    && (forall k, c :: 0 <= k < |ns| && c in ns[k].children ==> k < ns[k].children[c] < |ns|)
  }

  // ---------------------------------------------------------------- one attachment, step by step

  /** `NewElement(raw, isCommand, parent)` appended to the arena. */
  function Spawn(ns: seq<Element>, raw: string, isCommand: bool, p: nat): (r: seq<Element>)
    ensures |r| == |ns| + 1 && r[..|ns|] == ns
    ensures r[|ns|] == NewElement(raw, isCommand, Some(p))
  {
    ns + [NewElement(raw, isCommand, Some(p))]
  }

  /** The parent after `processElementToParent` adopted node `id` under `content`. */
  function Adopt(parent: Element, id: nat, content: string, maxKey: int): (r: Element)
    ensures r.childrenSorted == parent.childrenSorted + [id]
    ensures r.childKeys == parent.childKeys + [Truncated(content, maxKey)]
    ensures r.children == parent.children[content := id]
    ensures r == parent.(childKeys := r.childKeys, children := r.children, childrenSorted := r.childrenSorted)
  {
    parent.(childKeys := parent.childKeys + [Truncated(content, maxKey)],
            children := parent.children[content := id],
            childrenSorted := parent.childrenSorted + [id])
  }

  /**
    `processElementToParent(element, parent, element.Content)`: the parent
    lists the node, keys it by its content and shows its truncated key; the
    node appends the parent's tags other than `comm` to its own.
   */
  function Attach(ns: seq<Element>, id: nat, p: nat, maxKey: int): (r: seq<Element>)
    requires id < |ns| && p < |ns| && id != p
    ensures |r| == |ns|
    ensures r[p] == Adopt(ns[p], id, ns[id].content, maxKey)
    ensures r[id] == ns[id].(tags := ns[id].tags + WithoutComm(ns[p].tags))
    ensures forall k :: 0 <= k < |ns| && k != p && k != id ==> r[k] == ns[k]
  {
    var e := ns[id];
    ns[p := Adopt(ns[p], id, e.content, maxKey)][id := e.(tags := e.tags + WithoutComm(ns[p].tags))]
  }

  /** `processElement(element, parent)`: relabel node `id`, then attach it. */
  function Process(ns: seq<Element>, id: nat, p: nat, maxKey: int): (r: seq<Element>)
    requires id < |ns| && p < |ns| && id != p
    ensures |r| == |ns|
  {
    Attach(ns[id := Relabel(ns[id])], id, p, maxKey)
  }

  // ---------------------------------------------------------------- one attachment, as a whole

  /** The node made from a label that parsed to `lp`, attached under `p`. */
  function Labelled(lp: LabelParts, isCommand: bool, p: nat, parentTags: seq<string>): Element {
    Element(lp.content, isCommand,
            if lp.hasComment then lp.description else "",
            (if lp.hasComment then lp.tags else []) + WithoutComm(parentTags),
            [], Some(p), [], map[])
  }

  /** A new node for the label parts `lp`, attached under `p`. */
  function AddChild(ns: seq<Element>, lp: LabelParts, isCommand: bool, p: nat, maxKey: int): (r: seq<Element>)
    requires p < |ns|
    ensures |r| == |ns| + 1
    ensures r[|ns|] == Labelled(lp, isCommand, p, ns[p].tags)
    ensures r[p] == Adopt(ns[p], |ns|, lp.content, maxKey)
    ensures forall k :: 0 <= k < |ns| && k != p ==> r[k] == ns[k]
  {
    ns[p := Adopt(ns[p], |ns|, lp.content, maxKey)] + [Labelled(lp, isCommand, p, ns[p].tags)]
  }

  /**
    Making a node with `NewElement`, then `processElement`, is adding the
    node for the parts of its label: content, description and own tags from
    the label, then the parent's tags other than `comm`.
   */
  lemma ProcessSpawn(ns: seq<Element>, raw: string, isCommand: bool, p: nat, maxKey: int)
    requires p < |ns|
    ensures Process(Spawn(ns, raw, isCommand, p), |ns|, p, maxKey)
         == AddChild(ns, ParseLabel(raw), isCommand, p, maxKey)
  {
    var s := Spawn(ns, raw, isCommand, p);
    var s1 := s[|ns| := Relabel(s[|ns|])];
    var r := Process(s, |ns|, p, maxKey);
    var a := AddChild(ns, ParseLabel(raw), isCommand, p, maxKey);
    assert r == Attach(s1, |ns|, p, maxKey);
    assert s1[p] == ns[p];
    assert r[|ns|] == a[|ns|];
    assert r[p] == a[p];
    forall k | 0 <= k < |r| ensures r[k] == a[k] {
      if k != p && k != |ns| {
        assert r[k] == s1[k] == ns[k];
      }
    }
  }

  /** The label parts carry the tags of their own description. */
  predicate Coherent(lp: LabelParts) {
    lp.hasComment ==> lp.tags == TagsOf(lp.description)
  }

  /** Parsed labels are coherent. */
  lemma ParseLabelCoherent(raw: string)
    ensures Coherent(ParseLabel(raw))
  {
  }

  /** An empty description has no tags. */
  lemma TagsOfEmpty()
    ensures TagsOf("") == []
  {
    assert FindAllAtWords("") == [];
  }

  // ---------------------------------------------------------------- the recursion

  /**
    A document with every label already split into its parts: what
    `RecurseMap` makes of a mapping entry depends only on the kind of its
    value, so a mapping value is a list of groups, a sequence value a list
    of command labels, and any other value is ignored.
   */
  datatype Body = Ignored | Commands(labels: seq<LabelParts>) | Groups(groups: seq<Group>)
  datatype Group = Group(key: LabelParts, body: Body)

  /** The labels of the items of a sequence, each formatted with `%v` and parsed. */
  function ItemLabels(items: seq<Raw>): (lps: seq<LabelParts>)
    ensures |lps| == |items|
  {
    if items == [] then [] else [ParseLabel(Display(items[0]))] + ItemLabels(items[1..])
  }

  /** Label `k` is item `k` formatted and parsed. */
  lemma {:induction false} ItemLabelsAt(items: seq<Raw>, k: nat)
    requires k < |items|
    ensures ItemLabels(items)[k] == ParseLabel(Display(items[k]))
    decreases k
  {
    if k > 0 {
      ItemLabelsAt(items[1..], k - 1);
      assert items[1..][k - 1] == items[k];
      assert ItemLabels(items)[k] == ItemLabels(items[1..])[k - 1];
    }
  }

  /** The document `v` with its keys and items parsed as labels. */
  function BodyOf(v: Raw): Body
    decreases v
  {
    match v
    case Map(es) => Groups(seq(|es|, k requires 0 <= k < |es| => Group(ParseLabel(es[k].key), BodyOf(es[k].value))))
    case Seq(items) => Commands(ItemLabels(items))
    case _ => Ignored
  }

  /** A one-entry mapping is one group, labelled by its key, over the value's body. */
  lemma SingleGroupBody(key: string, v: Raw)
    ensures BodyOf(Map([Entry(key, v)])) == Groups([Group(ParseLabel(key), BodyOf(v))])
  {
    var b := BodyOf(Map([Entry(key, v)]));
    assert |b.groups| == 1 && b.groups[0] == Group(ParseLabel(key), BodyOf(v));
  }

  /** `RecurseSlice` from label `i` on: every label becomes a command under `p`. */
  function SliceFrom(ns: seq<Element>, lps: seq<LabelParts>, p: nat, i: nat, maxKey: int): (r: seq<Element>)
    requires p < |ns| && i <= |lps|
    ensures |r| == |ns| + (|lps| - i)
    decreases |lps| - i
  {
    if i == |lps| then ns
    else SliceFrom(AddChild(ns, lps[i], true, p, maxKey), lps, p, i + 1, maxKey)
  }

  /** `RecurseMap` from the `i`-th group on, under `p`. */
  function MapFrom(ns: seq<Element>, gs: seq<Group>, p: nat, i: nat, maxKey: int): (r: seq<Element>)
    requires p < |ns| && i <= |gs|
    ensures |r| >= |ns|
    decreases gs, |gs| - i
  {
    if i == |gs| then ns
    else MapFrom(EntryValue(ns, gs[i], p, maxKey), gs, p, i + 1, maxKey)
  }

  /**
    One iteration of `RecurseMap`: a mapping value makes a group that is
    recursed into, a sequence value a group of commands; any other value
    attaches nothing.
   */
  function EntryValue(ns: seq<Element>, g: Group, p: nat, maxKey: int): (r: seq<Element>)
    requires p < |ns|
    ensures |r| >= |ns|
    decreases g, 0
  {
    match g.body
    case Groups(gs) => MapFrom(AddChild(ns, g.key, false, p, maxKey), gs, |ns|, 0, maxKey)
    case Commands(lps) => SliceFrom(AddChild(ns, g.key, false, p, maxKey), lps, |ns|, 0, maxKey)
    case Ignored => ns
  }

  // ---------------------------------------------------------------- invariants

  /** The root is node 0 and is the only node without a parent. */
  predicate Rooted(ns: seq<Element>) {
    |ns| >= 1 && ns[0].parent.None? && forall k :: 0 < k < |ns| ==> ns[k].parent.Some?
  }

  /** Every listed child points back to the node that lists it. */
  predicate ParentLinked(ns: seq<Element>)
    requires WellFormed(ns)
  {
    forall k, j :: 0 <= k < |ns| && 0 <= j < |ns[k].childrenSorted| ==>
      ns[ns[k].childrenSorted[j]].parent == Some(k)
  }

  /** Every node with a parent is listed by it. */
  predicate ParentListed(ns: seq<Element>)
    requires WellFormed(ns)
  {
    forall k :: 0 <= k < |ns| && ns[k].parent.Some? ==> k in ns[ns[k].parent.value].childrenSorted
  }

  /** Children are listed in order of creation, so no child is listed twice. */
  predicate KidsIncreasing(ns: seq<Element>) {
    forall k, i, j :: 0 <= k < |ns| && 0 <= i < j < |ns[k].childrenSorted| ==>
      ns[k].childrenSorted[i] < ns[k].childrenSorted[j]
  }

  /** `ChildKeys` holds, position by position, the truncated contents of `ChildrenSorted`. */
  predicate KeysAligned(ns: seq<Element>, maxKey: int)
    requires WellFormed(ns)
  {
    forall k :: 0 <= k < |ns| ==>
      && |ns[k].childKeys| == |ns[k].childrenSorted|
      && forall j :: 0 <= j < |ns[k].childKeys| ==>
           ns[k].childKeys[j] == Truncated(ns[ns[k].childrenSorted[j]].content, maxKey)
  }

  /**
    The `Children` map a list of children produces when each is stored under
    its content in turn: a later child with the same content replaces an
    earlier one.
   */
  function KeyedBy(ns: seq<Element>, kids: seq<nat>): map<string, nat>
    requires forall j :: 0 <= j < |kids| ==> kids[j] < |ns|
  {
    if kids == [] then map[]
    else KeyedBy(ns, kids[..|kids| - 1])[ns[kids[|kids| - 1]].content := kids[|kids| - 1]]
  }

  /** Every map `KeyedBy` builds is content keyed. */
  lemma {:induction false} KeyedByContent(ns: seq<Element>, kids: seq<nat>)
    requires forall j :: 0 <= j < |kids| ==> kids[j] < |ns|
    ensures forall key :: key in KeyedBy(ns, kids) ==>
      KeyedBy(ns, kids)[key] in kids && ns[KeyedBy(ns, kids)[key]].content == key
    decreases |kids|
  {
    if kids != [] {
      var init := kids[..|kids| - 1];
      KeyedByContent(ns, init);
      forall key | key in KeyedBy(ns, kids)
        ensures KeyedBy(ns, kids)[key] in kids && ns[KeyedBy(ns, kids)[key]].content == key
      {
        if key != ns[kids[|kids| - 1]].content {
          assert KeyedBy(ns, init)[key] in init;
        }
      }
    }
  }

  /** Every listed child's content is a key of the map `KeyedBy` builds. */
  lemma {:induction false} KeyedByHasContents(ns: seq<Element>, kids: seq<nat>, j: nat)
    requires forall i :: 0 <= i < |kids| ==> kids[i] < |ns|
    requires j < |kids|
    ensures ns[kids[j]].content in KeyedBy(ns, kids)
    decreases |kids|
  {
    if j < |kids| - 1 {
      KeyedByHasContents(ns, kids[..|kids| - 1], j);
    }
  }

  /** Each node's `Children` map is the one its `ChildrenSorted` list produces. */
  predicate ChildrenKeyed(ns: seq<Element>)
    requires WellFormed(ns)
  {
    forall k :: 0 <= k < |ns| ==> ns[k].children == KeyedBy(ns, ns[k].childrenSorted)
  }

  /** A node's tags are its description's tags, then its parent's tags other than `comm`. */
  predicate TagsInherited(ns: seq<Element>)
    requires WellFormed(ns)
  {
    forall k :: 0 <= k < |ns| && ns[k].parent.Some? ==>
      ns[k].tags == TagsOf(ns[k].description) + WithoutComm(ns[ns[k].parent.value].tags)
  }

  /** Commands have no children and no child keys. */
  predicate CommandsAreLeaves(ns: seq<Element>) {
    forall k :: 0 <= k < |ns| && ns[k].isCommand ==>
      ns[k].childrenSorted == [] && ns[k].children == map[] && ns[k].childKeys == []
  }

  /** Everything the builder guarantees about the trees it makes. */
  predicate Built(ns: seq<Element>, maxKey: int) {
    && WellFormed(ns)
    && Rooted(ns)
    && ParentLinked(ns)
    && ParentListed(ns)
    && KidsIncreasing(ns)
    && KeysAligned(ns, maxKey)
    && ChildrenKeyed(ns)
    && TagsInherited(ns)
    && CommandsAreLeaves(ns)
  }

  /** A fresh root is a built tree. */
  lemma RootBuilt(root: Element, maxKey: int)
    requires root.parent.None? && root.childrenSorted == [] && root.children == map[] && root.childKeys == []
    ensures Built([root], maxKey)
  {
  }

  // ---------------------------------------------------------------- the Children map

  /** The map depends only on the contents of the listed nodes. */
  lemma {:induction false} KeyedByFrame(ns: seq<Element>, ns': seq<Element>, kids: seq<nat>)
    requires forall j :: 0 <= j < |kids| ==> kids[j] < |ns| && kids[j] < |ns'|
    requires forall j :: 0 <= j < |kids| ==> ns'[kids[j]].content == ns[kids[j]].content
    ensures KeyedBy(ns', kids) == KeyedBy(ns, kids)
    decreases |kids|
  {
    if kids != [] {
      KeyedByFrame(ns, ns', kids[..|kids| - 1]);
    }
  }

  /** The keys of the map are exactly the contents of the listed children. */
  lemma {:induction false} KeyedByKeys(ns: seq<Element>, kids: seq<nat>)
    requires forall j :: 0 <= j < |kids| ==> kids[j] < |ns|
    ensures forall c :: c in KeyedBy(ns, kids) <==> exists j :: 0 <= j < |kids| && ns[kids[j]].content == c
    decreases |kids|
  {
    if kids != [] {
      var init := kids[..|kids| - 1];
      assert forall j :: 0 <= j < |init| ==> init[j] == kids[j];
      KeyedByKeys(ns, init);
      forall c | c in KeyedBy(ns, kids)
        ensures exists j :: 0 <= j < |kids| && ns[kids[j]].content == c
      {
        if c != ns[kids[|kids| - 1]].content {
          assert c in KeyedBy(ns, init);
          var j :| 0 <= j < |init| && ns[init[j]].content == c;
          assert kids[j] == init[j];
        }
      }
      forall c, j | 0 <= j < |kids| && ns[kids[j]].content == c
        ensures c in KeyedBy(ns, kids)
      {
        if j < |init| {
          assert init[j] == kids[j];
        }
      }
    }
  }

  /**
    A duplicate content keeps only the last child in the map: the map sends
    the content of child `j` to child `j` exactly when no later child has the
    same content (both stay in the list).
   */
  lemma {:induction false} KeyedByLast(ns: seq<Element>, kids: seq<nat>, j: nat)
    requires forall i :: 0 <= i < |kids| ==> kids[i] < |ns|
    requires j < |kids|
    requires forall i, i' :: 0 <= i < i' < |kids| ==> kids[i] < kids[i']
    ensures ns[kids[j]].content in KeyedBy(ns, kids)
    ensures KeyedBy(ns, kids)[ns[kids[j]].content] == kids[j] <==>
      forall i :: j < i < |kids| ==> ns[kids[i]].content != ns[kids[j]].content
    decreases |kids|
  {
    var last := |kids| - 1;
    var init := kids[..last];
    if j < last {
      KeyedByLast(ns, init, j);
      if ns[kids[last]].content == ns[kids[j]].content {
        assert kids[last] != kids[j];
      } else {
        forall i | j < i < last ensures ns[init[i]].content == ns[kids[i]].content {}
      }
    }
  }

  // ---------------------------------------------------------------- one attachment keeps the invariants

  lemma AddChildWellFormed(ns: seq<Element>, lp: LabelParts, isCommand: bool, p: nat, maxKey: int)
    requires WellFormed(ns) && p < |ns|
    ensures WellFormed(AddChild(ns, lp, isCommand, p, maxKey))
  {
    var r := AddChild(ns, lp, isCommand, p, maxKey);
    forall k, j | 0 <= k < |r| && 0 <= j < |r[k].childrenSorted|
      ensures k < r[k].childrenSorted[j] < |r|
    {
      if k == p && j < |ns[p].childrenSorted| {
        assert r[k].childrenSorted[j] == ns[p].childrenSorted[j];
      }
    }
  }

  lemma AddChildLinked(ns: seq<Element>, lp: LabelParts, isCommand: bool, p: nat, maxKey: int)
    requires WellFormed(ns) && Rooted(ns) && ParentLinked(ns) && p < |ns|
    ensures var r := AddChild(ns, lp, isCommand, p, maxKey);
      WellFormed(r) && Rooted(r) && ParentLinked(r)
  {
    var r := AddChild(ns, lp, isCommand, p, maxKey);
    AddChildWellFormed(ns, lp, isCommand, p, maxKey);
    assert forall x :: 0 <= x < |ns| ==> r[x].parent == ns[x].parent;
    forall k, j | 0 <= k < |r| && 0 <= j < |r[k].childrenSorted|
      ensures r[r[k].childrenSorted[j]].parent == Some(k)
    {
      if k == p && j < |ns[p].childrenSorted| {
        assert r[k].childrenSorted[j] == ns[p].childrenSorted[j];
      }
    }
  }

  lemma AddChildListed(ns: seq<Element>, lp: LabelParts, isCommand: bool, p: nat, maxKey: int)
    requires WellFormed(ns) && ParentListed(ns) && p < |ns|
    ensures var r := AddChild(ns, lp, isCommand, p, maxKey);
      WellFormed(r) && ParentListed(r)
  {
    var r := AddChild(ns, lp, isCommand, p, maxKey);
    AddChildWellFormed(ns, lp, isCommand, p, maxKey);
    forall k | 0 <= k < |r| && r[k].parent.Some?
      ensures k in r[r[k].parent.value].childrenSorted
    {
      AddChildListedAt(ns, lp, isCommand, p, maxKey, k);
    }
  }

  /** After `AddChild`, node `k` is still listed by its parent. */
  lemma AddChildListedAt(ns: seq<Element>, lp: LabelParts, isCommand: bool, p: nat, maxKey: int, k: nat)
    requires WellFormed(ns) && ParentListed(ns) && p < |ns|
    requires k < |ns| + 1 && AddChild(ns, lp, isCommand, p, maxKey)[k].parent.Some?
    ensures var r := AddChild(ns, lp, isCommand, p, maxKey);
      r[k].parent.value < |r| && k in r[r[k].parent.value].childrenSorted
  {
    var r := AddChild(ns, lp, isCommand, p, maxKey);
    var n := |ns|;
    if k < n {
      var q := ns[k].parent.value;
      assert r[k].parent == ns[k].parent;
      assert k in ns[q].childrenSorted;
      if q == p {
        assert r[p].childrenSorted == ns[p].childrenSorted + [n];
      } else {
        assert r[q] == ns[q];
      }
    } else {
      assert r[p].childrenSorted[|ns[p].childrenSorted|] == n;
    }
  }

  lemma AddChildIncreasing(ns: seq<Element>, lp: LabelParts, isCommand: bool, p: nat, maxKey: int)
    requires WellFormed(ns) && KidsIncreasing(ns) && p < |ns|
    ensures KidsIncreasing(AddChild(ns, lp, isCommand, p, maxKey))
  {
    var r := AddChild(ns, lp, isCommand, p, maxKey);
    forall k, i, j | 0 <= k < |r| && 0 <= i < j < |r[k].childrenSorted|
      ensures r[k].childrenSorted[i] < r[k].childrenSorted[j]
    {
      if k == p {
        assert r[k].childrenSorted[i] == ns[p].childrenSorted[i];
        if j < |ns[p].childrenSorted| {
          assert r[k].childrenSorted[j] == ns[p].childrenSorted[j];
        }
      }
    }
  }

  lemma AddChildKeysAligned(ns: seq<Element>, lp: LabelParts, isCommand: bool, p: nat, maxKey: int)
    requires WellFormed(ns) && KeysAligned(ns, maxKey) && p < |ns|
    ensures var r := AddChild(ns, lp, isCommand, p, maxKey);
      WellFormed(r) && KeysAligned(r, maxKey)
  {
    var r := AddChild(ns, lp, isCommand, p, maxKey);
    AddChildWellFormed(ns, lp, isCommand, p, maxKey);
    assert forall x :: 0 <= x < |ns| ==> r[x].content == ns[x].content;
    forall k, j | 0 <= k < |r| && 0 <= j < |r[k].childKeys|
      ensures j < |r[k].childrenSorted|
      ensures r[k].childKeys[j] == Truncated(r[r[k].childrenSorted[j]].content, maxKey)
    {
      if k == p && j < |ns[p].childKeys| {
        assert r[k].childKeys[j] == ns[p].childKeys[j];
        assert r[k].childrenSorted[j] == ns[p].childrenSorted[j];
      }
    }
  }

  lemma AddChildKeyed(ns: seq<Element>, lp: LabelParts, isCommand: bool, p: nat, maxKey: int)
    requires WellFormed(ns) && ChildrenKeyed(ns) && p < |ns|
    ensures var r := AddChild(ns, lp, isCommand, p, maxKey);
      WellFormed(r) && ChildrenKeyed(r)
  {
    var r := AddChild(ns, lp, isCommand, p, maxKey);
    var n := |ns|;
    AddChildWellFormed(ns, lp, isCommand, p, maxKey);
    assert forall x :: 0 <= x < n ==> r[x].content == ns[x].content;
    forall k | 0 <= k < |r| ensures r[k].children == KeyedBy(r, r[k].childrenSorted) {
      if k == p {
        var kids := ns[p].childrenSorted;
        KeyedByFrame(ns, r, kids);
        assert (kids + [n])[..|kids|] == kids;
      } else if k < n {
        KeyedByFrame(ns, r, ns[k].childrenSorted);
      }
    }
  }

  lemma AddChildTags(ns: seq<Element>, lp: LabelParts, isCommand: bool, p: nat, maxKey: int)
    requires WellFormed(ns) && TagsInherited(ns) && CommandsAreLeaves(ns)
    requires p < |ns| && !ns[p].isCommand && Coherent(lp)
    ensures var r := AddChild(ns, lp, isCommand, p, maxKey);
      WellFormed(r) && TagsInherited(r) && CommandsAreLeaves(r) && !r[p].isCommand
  {
    var r := AddChild(ns, lp, isCommand, p, maxKey);
    AddChildWellFormed(ns, lp, isCommand, p, maxKey);
    TagsOfEmpty();
    assert forall x :: 0 <= x < |ns| ==>
      r[x].tags == ns[x].tags && r[x].description == ns[x].description && r[x].parent == ns[x].parent;
  }

  /** Adding a child under a group keeps a built tree built. */
  lemma AddChildBuilt(ns: seq<Element>, lp: LabelParts, isCommand: bool, p: nat, maxKey: int)
    requires Built(ns, maxKey) && p < |ns| && !ns[p].isCommand && Coherent(lp)
    ensures var r := AddChild(ns, lp, isCommand, p, maxKey);
      Built(r, maxKey) && !r[p].isCommand
  {
    AddChildLinked(ns, lp, isCommand, p, maxKey);
    AddChildListed(ns, lp, isCommand, p, maxKey);
    AddChildIncreasing(ns, lp, isCommand, p, maxKey);
    AddChildKeysAligned(ns, lp, isCommand, p, maxKey);
    AddChildKeyed(ns, lp, isCommand, p, maxKey);
    AddChildTags(ns, lp, isCommand, p, maxKey);
  }

  // ---------------------------------------------------------------- the recursion keeps the invariants

  lemma {:induction false} SliceFromBuilt(ns: seq<Element>, lps: seq<LabelParts>, p: nat, i: nat, maxKey: int)
    requires Built(ns, maxKey) && p < |ns| && !ns[p].isCommand && i <= |lps|
    requires forall k :: 0 <= k < |lps| ==> Coherent(lps[k])
    ensures Built(SliceFrom(ns, lps, p, i, maxKey), maxKey)
    decreases |lps| - i
  {
    if i < |lps| {
      AddChildBuilt(ns, lps[i], true, p, maxKey);
      SliceFromBuilt(AddChild(ns, lps[i], true, p, maxKey), lps, p, i + 1, maxKey);
    }
  }

  /** Every label of a parsed document is coherent. */
  predicate AllCoherent(b: Body)
    decreases b
  {
    match b
    case Ignored => true
    case Commands(lps) => forall k :: 0 <= k < |lps| ==> Coherent(lps[k])
    case Groups(gs) => forall k :: 0 <= k < |gs| ==> Coherent(gs[k].key) && AllCoherent(gs[k].body)
  }

  lemma {:induction false} MapFromBuilt(ns: seq<Element>, gs: seq<Group>, p: nat, i: nat, maxKey: int)
    requires AllCoherent(Groups(gs)) && i <= |gs|
    requires Built(ns, maxKey) && p < |ns| && !ns[p].isCommand
    ensures Built(MapFrom(ns, gs, p, i, maxKey), maxKey)
    decreases gs, |gs| - i
  {
    if i < |gs| {
      EntryValueBuilt(ns, gs[i], p, maxKey);
      EntryValueTop(ns, gs[i], p, maxKey);
      MapFromBuilt(EntryValue(ns, gs[i], p, maxKey), gs, p, i + 1, maxKey);
    }
  }

  lemma {:induction false} EntryValueBuilt(ns: seq<Element>, g: Group, p: nat, maxKey: int)
    requires Coherent(g.key) && AllCoherent(g.body)
    requires Built(ns, maxKey) && p < |ns| && !ns[p].isCommand
    ensures Built(EntryValue(ns, g, p, maxKey), maxKey)
    decreases g, 0, 0
  {
    if !g.body.Ignored? {
      AddChildBuilt(ns, g.key, false, p, maxKey);
      var ns1 := AddChild(ns, g.key, false, p, maxKey);
      if g.body.Groups? {
        MapFromBuilt(ns1, g.body.groups, |ns|, 0, maxKey);
      } else {
        SliceFromBuilt(ns1, g.body.labels, |ns|, 0, maxKey);
      }
    }
  }

  /** Parsing a document gives coherent labels throughout. */
  lemma {:induction false} BodyOfCoherent(v: Raw)
    ensures AllCoherent(BodyOf(v))
    decreases v
  {
    match v
    case Map(es) =>
      forall k | 0 <= k < |es|
        ensures Coherent(BodyOf(v).groups[k].key) && AllCoherent(BodyOf(v).groups[k].body)
      {
        ParseLabelCoherent(es[k].key);
        BodyOfCoherent(es[k].value);
      }
    case Seq(items) =>
      forall k | 0 <= k < |items| ensures Coherent(ItemLabels(items)[k]) {
        ItemLabelsAt(items, k);
        ParseLabelCoherent(Display(items[k]));
      }
    case _ =>
  }

  /** Building a document under a fresh root gives a built tree. */
  lemma BuildBuilt(root: Element, doc: Raw, maxKey: int)
    requires root.parent.None? && root.childrenSorted == [] && root.children == map[] && root.childKeys == []
    requires !root.isCommand && doc.Map?
    ensures Built(MapFrom([root], BodyOf(doc).groups, 0, 0, maxKey), maxKey)
  {
    RootBuilt(root, maxKey);
    BodyOfCoherent(doc);
    MapFromBuilt([root], BodyOf(doc).groups, 0, 0, maxKey);
  }

  // ---------------------------------------------------------------- what each value attaches

  /** The indices `lo, lo + 1, ..., lo + n - 1`. */
  function Range(lo: nat, n: nat): (r: seq<nat>)
    ensures |r| == n && forall j :: 0 <= j < n ==> r[j] == lo + j
    decreases n
  {
    if n == 0 then [] else [lo] + Range(lo + 1, n - 1)
  }

  /** Appending `lo` and the range after it is the range from `lo`. */
  lemma RangeCons(a: seq<nat>, lo: nat, n: nat)
    ensures a + [lo] + Range(lo + 1, n) == a + Range(lo, n + 1)
  {
  }

  /** Two versions of a node that may differ only in their children. */
  predicate SameNode(a: Element, b: Element) {
    && a.content == b.content && a.isCommand == b.isCommand && a.parent == b.parent
    && a.description == b.description && a.tags == b.tags
  }

  /** The labels of the groups whose body is not ignored, in order. */
  function GroupLabels(gs: seq<Group>): (ls: seq<LabelParts>)
    ensures |ls| <= |gs|
  {
    if gs == [] then []
    else (if gs[0].body.Ignored? then [] else [gs[0].key]) + GroupLabels(gs[1..])
  }

  /**
    `RecurseSlice`: the labels become, in order, the next commands under `p`;
    no other node changes except that `p` lists them.
   */
  lemma SliceFromShape(ns: seq<Element>, lps: seq<LabelParts>, p: nat, i: nat, maxKey: int)
    requires p < |ns| && i <= |lps|
    ensures var r := SliceFrom(ns, lps, p, i, maxKey);
      && (forall k :: 0 <= k < |ns| && k != p ==> r[k] == ns[k])
      && SameNode(ns[p], r[p])
      && r[p].childrenSorted == ns[p].childrenSorted + Range(|ns|, |lps| - i)
      && forall x :: |ns| <= x < |r| ==> r[x] == Labelled(lps[i + x - |ns|], true, p, ns[p].tags)
  {
    SliceFromFrame(ns, lps, p, i, maxKey);
    SliceFromTail(ns, lps, p, i, maxKey);
  }

  /** `RecurseSlice` changes no earlier node but `p`, which keeps its fields and lists the new ones. */
  lemma {:induction false} SliceFromFrame(ns: seq<Element>, lps: seq<LabelParts>, p: nat, i: nat, maxKey: int)
    requires p < |ns| && i <= |lps|
    ensures var r := SliceFrom(ns, lps, p, i, maxKey);
      && (forall k :: 0 <= k < |ns| && k != p ==> r[k] == ns[k])
      && SameNode(ns[p], r[p])
      && r[p].childrenSorted == ns[p].childrenSorted + Range(|ns|, |lps| - i)
    decreases |lps| - i
  {
    if i < |lps| {
      var ns1 := AddChild(ns, lps[i], true, p, maxKey);
      SliceFromFrame(ns1, lps, p, i + 1, maxKey);
      RangeCons(ns[p].childrenSorted, |ns|, |lps| - (i + 1));
    } else {
      assert ns[p].childrenSorted + Range(|ns|, 0) == ns[p].childrenSorted;
    }
  }

  /** The nodes `RecurseSlice` appends are the labels, in order, as commands under `p`. */
  lemma {:induction false} SliceFromTail(ns: seq<Element>, lps: seq<LabelParts>, p: nat, i: nat, maxKey: int)
    requires p < |ns| && i <= |lps|
    ensures var r := SliceFrom(ns, lps, p, i, maxKey);
      forall x :: |ns| <= x < |r| ==> r[x] == Labelled(lps[i + x - |ns|], true, p, ns[p].tags)
    decreases |lps| - i
  {
    if i < |lps| {
      var n := |ns|;
      var ns1 := AddChild(ns, lps[i], true, p, maxKey);
      SliceFromTail(ns1, lps, p, i + 1, maxKey);
      SliceFromFrame(ns1, lps, p, i + 1, maxKey);
      var r1 := SliceFrom(ns1, lps, p, i + 1, maxKey);
      assert SliceFrom(ns, lps, p, i, maxKey) == r1;
      assert ns1[p].tags == ns[p].tags;
      forall x | n <= x < |r1|
        ensures r1[x] == Labelled(lps[i + x - n], true, p, ns[p].tags)
      {
        if x == n {
          assert r1[n] == ns1[n];
        } else {
          assert i + 1 + x - |ns1| == i + x - n;
        }
      }
    }
  }

  /**
    `RecurseMap` from group `i` on leaves every node that existed, other than
    `p`, unchanged; `p` keeps its own fields and its earlier children, and
    gains one child per entry whose value is a mapping or a sequence.
   */
  lemma {:induction false} MapFromFrame(ns: seq<Element>, gs: seq<Group>, p: nat, i: nat, maxKey: int)
    requires p < |ns| && i <= |gs|
    ensures var r := MapFrom(ns, gs, p, i, maxKey); var a := |ns[p].childrenSorted|;
      && |r| >= |ns|
      && (forall k :: 0 <= k < |ns| && k != p ==> r[k] == ns[k])
      && SameNode(ns[p], r[p])
      && |r[p].childrenSorted| == a + |GroupLabels(gs[i..])|
      && r[p].childrenSorted[..a] == ns[p].childrenSorted
    decreases gs, |gs| - i, 1
  {
    var r := MapFrom(ns, gs, p, i, maxKey);
    var a := |ns[p].childrenSorted|;
    var rest := gs[i..];
    if i == |gs| {
      assert r == ns;
      assert rest == [];
      assert r[p].childrenSorted[..a] == ns[p].childrenSorted;
    } else {
      var g := gs[i];
      var ns1 := EntryValue(ns, g, p, maxKey);
      EntryValueTop(ns, g, p, maxKey);
      MapFromFrame(ns1, gs, p, i + 1, maxKey);
      assert r == MapFrom(ns1, gs, p, i + 1, maxKey);
      assert rest[0] == g && rest[1..] == gs[i + 1..];
      var a1 := |ns1[p].childrenSorted|;
      assert r[p].childrenSorted[..a1] == ns1[p].childrenSorted;
      if !g.body.Ignored? {
        assert GroupLabels(rest) == [g.key] + GroupLabels(gs[i + 1..]);
        assert r[p].childrenSorted[..a] == ns1[p].childrenSorted[..a];
      }
    }
  }

  /**
    `r` extends `ns`, and the children `p` has in `r` beyond those it had in
    `ns` are groups, one per label of `gl`, in order, created after `ns`.
   */
  predicate GainedGroups(ns: seq<Element>, r: seq<Element>, p: nat, gl: seq<LabelParts>) {
    && p < |ns| <= |r|
    && |r[p].childrenSorted| == |ns[p].childrenSorted| + |gl|
    && forall j :: |ns[p].childrenSorted| <= j < |r[p].childrenSorted| ==>
         && |ns| <= r[p].childrenSorted[j] < |r|
         && !r[r[p].childrenSorted[j]].isCommand
         && r[r[p].childrenSorted[j]].parent == Some(p)
         && r[r[p].childrenSorted[j]].content == gl[j - |ns[p].childrenSorted|].content
  }

  /**
    `RecurseMap` from group `i` on: the children `p` gains are new groups,
    one per entry whose value is a mapping or a sequence, in entry order,
    each labelled by the entry's key.
   */
  lemma {:induction false} MapFromKids(ns: seq<Element>, gs: seq<Group>, p: nat, i: nat, maxKey: int)
    requires p < |ns| && i <= |gs|
    ensures GainedGroups(ns, MapFrom(ns, gs, p, i, maxKey), p, GroupLabels(gs[i..]))
    decreases gs, |gs| - i, 2
  {
    MapFromFrame(ns, gs, p, i, maxKey);
    if i == |gs| {
      assert gs[i..] == [];
    } else {
      var g := gs[i];
      var ns1 := EntryValue(ns, g, p, maxKey);
      EntryValueTop(ns, g, p, maxKey);
      MapFromKids(ns1, gs, p, i + 1, maxKey);
      MapFromFrame(ns1, gs, p, i + 1, maxKey);
      var r := MapFrom(ns1, gs, p, i + 1, maxKey);
      assert r == MapFrom(ns, gs, p, i, maxKey);
      var rest := gs[i..];
      assert rest[0] == g && rest[1..] == gs[i + 1..];
      if g.body.Ignored? {
        assert ns1 == ns;
        assert GroupLabels(rest) == GroupLabels(gs[i + 1..]);
      } else {
        assert GroupLabels(rest) == [g.key] + GroupLabels(gs[i + 1..]);
        KidsAfterGroup(ns, ns1, r, p, g.key, GroupLabels(gs[i + 1..]), GroupLabels(rest));
      }
    }
  }

  /**
    The step of `MapFromKids` for an entry that adds group `|ns|` under `p`:
    the children after it are those the rest of the entries add.
   */
  lemma KidsAfterGroup(ns: seq<Element>, ns1: seq<Element>, r: seq<Element>, p: nat,
                       key: LabelParts, gl1: seq<LabelParts>, gl: seq<LabelParts>)
    requires gl == [key] + gl1
    requires p < |ns| < |ns1|
    requires ns1[p].childrenSorted == ns[p].childrenSorted + [|ns|]
    requires !ns1[|ns|].isCommand && ns1[|ns|].parent == Some(p) && ns1[|ns|].content == key.content
    requires GainedGroups(ns1, r, p, gl1)
    requires forall k :: 0 <= k < |ns1| && k != p ==> r[k] == ns1[k]
    requires r[p].childrenSorted[..|ns1[p].childrenSorted|] == ns1[p].childrenSorted
    ensures GainedGroups(ns, r, p, gl)
  {
    var n := |ns|;
    var a := |ns[p].childrenSorted|;
    var a1 := |ns1[p].childrenSorted|;
    assert r[p].childrenSorted[a] == ns1[p].childrenSorted[a] == n;
    assert r[n] == ns1[n];
    forall j | a <= j < |r[p].childrenSorted|
      ensures |ns| <= r[p].childrenSorted[j] < |r|
      ensures !r[r[p].childrenSorted[j]].isCommand
      ensures r[r[p].childrenSorted[j]].parent == Some(p)
      ensures r[r[p].childrenSorted[j]].content == gl[j - a].content
    {
      if j > a {
        assert gl[j - a] == gl1[j - a1];
      }
    }
  }

  /**
    One entry of `RecurseMap`, as seen from `p`: an ignored value attaches
    nothing; a mapping or sequence value adds one group under `p`, labelled
    by the key, and changes no other node that existed.
   */
  lemma {:induction false} EntryValueTop(ns: seq<Element>, g: Group, p: nat, maxKey: int)
    requires p < |ns|
    ensures var r := EntryValue(ns, g, p, maxKey); var n := |ns|;
      && (g.body.Ignored? ==> r == ns)
      && (!g.body.Ignored? ==>
            && |r| > n
            && (forall k :: 0 <= k < n && k != p ==> r[k] == ns[k])
            && SameNode(ns[p], r[p])
            && r[p].childrenSorted == ns[p].childrenSorted + [n]
            && !r[n].isCommand && r[n].parent == Some(p)
            && r[n].content == g.key.content)
    decreases g, 0, 0
  {
    if !g.body.Ignored? {
      var n := |ns|;
      var ns1 := AddChild(ns, g.key, false, p, maxKey);
      var r := EntryValue(ns, g, p, maxKey);
      if g.body.Groups? {
        assert r == MapFrom(ns1, g.body.groups, n, 0, maxKey);
        MapFromFrame(ns1, g.body.groups, n, 0, maxKey);
      } else {
        assert r == SliceFrom(ns1, g.body.labels, n, 0, maxKey);
        SliceFromShape(ns1, g.body.labels, n, 0, maxKey);
      }
      assert r[p] == ns1[p];
    }
  }

  /**
    One entry of `RecurseMap` whose value is a sequence: its items become
    the commands of the new group `|ns|`, in order.
   */
  lemma EntryValueCommands(ns: seq<Element>, g: Group, p: nat, maxKey: int)
    requires p < |ns| && g.body.Commands?
    ensures var r := EntryValue(ns, g, p, maxKey); var n := |ns|;
      && |r| > n
      && r[n].childrenSorted == Range(n + 1, |g.body.labels|)
      && forall x :: n < x < |r| ==> r[x] == Labelled(g.body.labels[x - n - 1], true, n, r[n].tags)
  {
    var ns1 := AddChild(ns, g.key, false, p, maxKey);
    assert EntryValue(ns, g, p, maxKey) == SliceFrom(ns1, g.body.labels, |ns|, 0, maxKey);
    FreshGroupCommands(ns1, g.body.labels, |ns|, maxKey);
  }

  /** Slicing a sequence under a fresh, childless last node gives it exactly those commands. */
  lemma FreshGroupCommands(ns: seq<Element>, lps: seq<LabelParts>, n: nat, maxKey: int)
    requires n + 1 == |ns| && ns[n].childrenSorted == []
    ensures var r := SliceFrom(ns, lps, n, 0, maxKey);
      && |r| > n
      && r[n].childrenSorted == Range(n + 1, |lps|)
      && forall x :: n < x < |r| ==> r[x] == Labelled(lps[x - n - 1], true, n, r[n].tags)
  {
    var r := SliceFrom(ns, lps, n, 0, maxKey);
    SliceFromShape(ns, lps, n, 0, maxKey);
    assert ns[n].childrenSorted + Range(n + 1, |lps|) == Range(n + 1, |lps|);
    forall x | n < x < |r|
      ensures r[x] == Labelled(lps[x - n - 1], true, n, r[n].tags)
    {
      assert 0 + x - |ns| == x - n - 1;
    }
  }

  /**
    One entry of `RecurseMap` whose value is a mapping: the entries of that
    mapping whose values are mappings or sequences become the subgroups of
    the new group `|ns|`, in order.
   */
  lemma EntryValueGroups(ns: seq<Element>, g: Group, p: nat, maxKey: int)
    requires p < |ns| && g.body.Groups?
    ensures var r := EntryValue(ns, g, p, maxKey); var n := |ns|;
      && |r| > n
      && |r[n].childrenSorted| == |GroupLabels(g.body.groups)|
      && forall j :: 0 <= j < |r[n].childrenSorted| ==>
           && n < r[n].childrenSorted[j] < |r|
           && !r[r[n].childrenSorted[j]].isCommand
           && r[r[n].childrenSorted[j]].content == GroupLabels(g.body.groups)[j].content
  {
    var n := |ns|;
    var ns1 := AddChild(ns, g.key, false, p, maxKey);
    var r := EntryValue(ns, g, p, maxKey);
    var gs := g.body.groups;
    assert r == MapFrom(ns1, gs, n, 0, maxKey);
    MapFromKids(ns1, gs, n, 0, maxKey);
    assert gs[0..] == gs;
    assert |ns1[n].childrenSorted| == 0;
    assert |ns1| == n + 1;
    assert GainedGroups(ns1, r, n, GroupLabels(gs));
  }
}
