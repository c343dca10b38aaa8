/**
  What flat mode collects, stated independently of the walk: the pre-order
  listing of a subtree that leaves out every node named `history` together
  with everything under it, filtered down to the commands with a parent that
  pass the admission filter once rendered. `FlattenExact` proves that
  `PostProcess` builds exactly that list and renders exactly those commands.
 */
module FlattenOrder {
  import opened Wrappers
  import opened Globals
  import opened Parser
  import opened ParserBuild
  import opened ParserFlatten

  // ---------------------------------------------------------------- the reference order

  /** The subtree of `k` in pre-order, children in list order, `history` subtrees cut off. */
  function PreOrder(sh: seq<Element>, k: nat): (r: seq<nat>)
    requires WellFormed(sh) && k < |sh|
    ensures forall i :: 0 <= i < |r| ==> k <= r[i] < |sh|
    decreases |sh| - k, 1
  {
    if sh[k].content == HistoryGroup then [] else [k] + PreOrderKids(sh, k, 0)
  }

  /** The pre-order listings of the children of `k` from the `j`-th on, one after the other. */
  function PreOrderKids(sh: seq<Element>, k: nat, j: nat): (r: seq<nat>)
    requires WellFormed(sh) && k < |sh| && j <= |sh[k].childrenSorted|
    ensures forall i :: 0 <= i < |r| ==> k < r[i] < |sh|
    decreases |sh| - k, 0, |sh[k].childrenSorted| - j
  {
    if j == |sh[k].childrenSorted| then []
    else PreOrder(sh, sh[k].childrenSorted[j]) + PreOrderKids(sh, k, j + 1)
  }

  /** The nodes the walk renders: commands with a parent. */
  predicate Renders(sh: seq<Element>, c: nat)
    requires c < |sh|
  {
    sh[c].isCommand && sh[c].parent.Some?
  }

  /** A node the flat list takes: a command with a parent, admitted once rendered. */
  predicate Collects(sh: seq<Element>, c: nat, cfg: Config)
    requires WellFormed(sh)
  {
    c < |sh| && Renders(sh, c) && ElementPassesPreCriteria(Rendered(sh, c), cfg)
  }

  /** The nodes of `ids` the flat list takes, in order. */
  function Collected(sh: seq<Element>, ids: seq<nat>, cfg: Config): (r: seq<nat>)
    requires WellFormed(sh)
    ensures |r| <= |ids|
    ensures forall c :: c in r <==> c in ids && Collects(sh, c, cfg)
  {
    if ids == [] then []
    else (if Collects(sh, ids[0], cfg) then [ids[0]] else []) + Collected(sh, ids[1..], cfg)
  }

  lemma {:induction false} CollectedAppend(sh: seq<Element>, a: seq<nat>, b: seq<nat>, cfg: Config)
    requires WellFormed(sh)
    ensures Collected(sh, a + b, cfg) == Collected(sh, a, cfg) + Collected(sh, b, cfg)
  {
    if a == [] {
      assert a + b == b;
    } else {
      assert (a + b)[1..] == a[1..] + b;
      CollectedAppend(sh, a[1..], b, cfg);
    }
  }

  /** The flat map after offering the nodes of `ids` in turn, each keyed by its rendered content; a later node with the same content replaces an earlier one. */
  function FlatKeyed(m: map<string, nat>, sh: seq<Element>, ids: seq<nat>): map<string, nat>
    requires WellFormed(sh)
    decreases |ids|
  {
    if ids == [] then m
    else
      var m1 := if ids[0] < |sh| then m[Rendered(sh, ids[0]).content := ids[0]] else m;
      FlatKeyed(m1, sh, ids[1..])
  }

  lemma {:induction false} FlatKeyedAppend(m: map<string, nat>, sh: seq<Element>, a: seq<nat>, b: seq<nat>)
    requires WellFormed(sh)
    ensures FlatKeyed(m, sh, a + b) == FlatKeyed(FlatKeyed(m, sh, a), sh, b)
    decreases |a|
  {
    if a == [] {
      assert a + b == b;
    } else {
      assert (a + b)[1..] == a[1..] + b;
      var m1 := if a[0] < |sh| then m[Rendered(sh, a[0]).content := a[0]] else m;
      FlatKeyedAppend(m1, sh, a[1..], b);
    }
  }

  /**
    Offering the nodes in turn builds the map that keying the list by the
    contents they end up with gives, as for every other node.
   */
  lemma {:induction false} FlatKeyedIsKeyedBy(sh: seq<Element>, ns: seq<Element>, ids: seq<nat>)
    requires WellFormed(sh)
    requires forall i :: 0 <= i < |ids| ==> ids[i] < |sh| && ids[i] < |ns|
    requires forall i :: 0 <= i < |ids| ==> ns[ids[i]].content == Rendered(sh, ids[i]).content
    ensures FlatKeyed(map[], sh, ids) == KeyedBy(ns, ids)
    decreases |ids|
  {
    if ids != [] {
      var pre, x := ids[..|ids| - 1], ids[|ids| - 1];
      assert ids == pre + [x];
      FlatKeyedIsKeyedBy(sh, ns, pre);
      FlatKeyedAppend(map[], sh, pre, [x]);
      assert FlatKeyed(KeyedBy(ns, pre), sh, [x]) == KeyedBy(ns, pre)[Rendered(sh, x).content := x];
    }
  }

  // ---------------------------------------------------------------- which nodes the order lists

  /** No node from `x` up to `k` is named `history`. */
  predicate NoHistoryOnPath(sh: seq<Element>, x: nat, k: nat)
    requires WellFormed(sh) && x < |sh| && Desc(sh, x, k)
    decreases x
  {
    && sh[x].content != HistoryGroup
    && (x != k ==> NoHistoryOnPath(sh, sh[x].parent.value, k))
  }

  /** Every node the order lists lies in the subtree of `k`. */
  lemma {:induction false} PreOrderDesc(sh: seq<Element>, k: nat, x: nat)
    requires Shaped(sh) && k < |sh| && x in PreOrder(sh, k)
    ensures x < |sh| && Desc(sh, x, k) && NoHistoryOnPath(sh, x, k)
    decreases |sh| - k, 1
  {
    if x != k {
      PreOrderKidsBelow(sh, k, 0, x);
    }
  }

  /** Every node the loop part lists lies below one of the children from `j` on. */
  lemma {:induction false} PreOrderKidsBelow(sh: seq<Element>, k: nat, j: nat, x: nat)
    requires Shaped(sh) && k < |sh| && j <= |sh[k].childrenSorted| && x in PreOrderKids(sh, k, j)
    requires sh[k].content != HistoryGroup
    ensures x < |sh| && Below(sh, x, k, j) && NoHistoryOnPath(sh, x, k)
    decreases |sh| - k, 0, |sh[k].childrenSorted| - j
  {
    var kids := sh[k].childrenSorted;
    var c := kids[j];
    if x in PreOrder(sh, c) {
      PreOrderDesc(sh, c, x);
      DescVia(sh, x, c, k);
      assert c in kids[j..];
      PathExtends(sh, x, c, k);
    } else {
      PreOrderKidsBelow(sh, k, j + 1, x);
      assert kids[j + 1..] == kids[j..][1..];
    }
  }

  /** A `history`-free path from `x` up to the child `c` of `k` extends to `k` when `k` is not `history`. */
  lemma {:induction false} PathExtends(sh: seq<Element>, x: nat, c: nat, k: nat)
    requires WellFormed(sh) && x < |sh| && c < |sh| && sh[c].parent == Some(k)
    requires Desc(sh, x, c) && NoHistoryOnPath(sh, x, c) && sh[k].content != HistoryGroup
    ensures Desc(sh, x, k) && NoHistoryOnPath(sh, x, k)
    decreases x
  {
    DescVia(sh, x, c, k);
    if x != c {
      DescAfter(sh, x, c);
      PathExtends(sh, sh[x].parent.value, c, k);
    }
  }

  /** Conversely, every node of the subtree of `k` with a `history`-free path up to `k` is listed. */
  lemma {:induction false} PreOrderComplete(sh: seq<Element>, k: nat, x: nat)
    requires Shaped(sh) && ParentListed(sh) && k < |sh| && x < |sh|
    requires Desc(sh, x, k) && NoHistoryOnPath(sh, x, k)
    ensures x in PreOrder(sh, k)
    decreases x
  {
    if x != k {
      var q := sh[x].parent.value;
      PreOrderComplete(sh, k, q);
      assert x in PreOrder(sh, q) by {
        var j :| 0 <= j < |sh[q].childrenSorted| && sh[q].childrenSorted[j] == x;
        assert sh[q].content != HistoryGroup by { PathHead(sh, x, k); }
        KidInKids(sh, q, j, 0);
        assert PreOrder(sh, q) == [q] + PreOrderKids(sh, q, 0);
      }
      PreOrderTrans(sh, k, q, x);
    }
  }

  /** The node above `x` on a `history`-free path is not `history` either. */
  lemma PathHead(sh: seq<Element>, x: nat, k: nat)
    requires WellFormed(sh) && x < |sh| && Desc(sh, x, k) && NoHistoryOnPath(sh, x, k) && x != k
    ensures sh[sh[x].parent.value].content != HistoryGroup
  {
    var q := sh[x].parent.value;
    assert NoHistoryOnPath(sh, q, k);
  }

  /** Child `j` of a node not named `history` is listed from any loop position up to `j`, unless it is `history` itself. */
  lemma {:induction false} KidInKids(sh: seq<Element>, q: nat, j: nat, i: nat)
    requires WellFormed(sh) && q < |sh| && i <= j < |sh[q].childrenSorted|
    requires sh[sh[q].childrenSorted[j]].content != HistoryGroup
    ensures sh[q].childrenSorted[j] in PreOrderKids(sh, q, i)
    decreases j - i
  {
    if i < j {
      KidInKids(sh, q, j, i + 1);
    }
  }

  /** Listing is transitive: what `y`'s order lists, `k`'s lists when it lists `y`. */
  lemma {:induction false} PreOrderTrans(sh: seq<Element>, k: nat, y: nat, x: nat)
    requires WellFormed(sh) && k < |sh| && y < |sh|
    requires y in PreOrder(sh, k) && x in PreOrder(sh, y)
    ensures x in PreOrder(sh, k)
    decreases |sh| - k, 1
  {
    if y != k {
      PreOrderKidsTrans(sh, k, 0, y, x);
    }
  }

  lemma {:induction false} PreOrderKidsTrans(sh: seq<Element>, k: nat, j: nat, y: nat, x: nat)
    requires WellFormed(sh) && k < |sh| && j <= |sh[k].childrenSorted| && y < |sh|
    requires sh[k].content != HistoryGroup
    requires y in PreOrderKids(sh, k, j) && x in PreOrder(sh, y)
    ensures x in PreOrderKids(sh, k, j)
    decreases |sh| - k, 0, |sh[k].childrenSorted| - j
  {
    var c := sh[k].childrenSorted[j];
    if y in PreOrder(sh, c) {
      PreOrderTrans(sh, c, y, x);
    } else {
      PreOrderKidsTrans(sh, k, j + 1, y, x);
    }
  }

  // ---------------------------------------------------------------- the walk builds exactly that

  /**
    The state the walk runs in: a tree whose commands are leaves, an arena
    that differs from it in command contents only, and groups untouched.
   */
  predicate Midwalk(sh: seq<Element>, ns: seq<Element>)
  {
    && Shaped(sh) && ParentListed(sh) && CommandsAreLeaves(sh)
    && SameShape(sh, ns) && WellFormed(ns)
    && forall x :: 0 <= x < |sh| && !sh[x].isCommand ==> ns[x] == sh[x]
  }

  /** While its own node is untouched, a command renders as it does in the tree. */
  lemma RenderedAsInTree(sh: seq<Element>, ns: seq<Element>, c: nat)
    requires Midwalk(sh, ns) && c < |sh| && ns[c] == sh[c]
    ensures Rendered(ns, c) == Rendered(sh, c)
  {
    if sh[c].parent.Some? {
      var q := sh[c].parent.value;
      assert c in sh[q].childrenSorted;
      assert !sh[q].isCommand;
    }
  }

  /** The node `x` as the walk of a listing leaves it. */
  function After(sh: seq<Element>, ns: seq<Element>, ids: seq<nat>, x: nat): Element
    requires WellFormed(sh) && |ns| == |sh| && x < |sh|
  {
    if x in ids && Renders(sh, x) then Rendered(sh, x) else ns[x]
  }

  /**
    `PostProcess(k)`, from any point of the walk where the subtree of `k` is
    still untouched: the flat list gains exactly the collected nodes of the
    order of `k`, and exactly the commands that order lists are rendered.
   */
  lemma {:induction false} VisitExact(sh: seq<Element>, ns: seq<Element>, all: Element, k: nat, cfg: Config)
    requires Midwalk(sh, ns) && k < |sh|
    requires forall x :: 0 <= x < |sh| && Desc(sh, x, k) ==> ns[x] == sh[x]
    ensures var r := Visit(ns, all, k, cfg);
      && r.all.childrenSorted == all.childrenSorted + Collected(sh, PreOrder(sh, k), cfg)
      && r.all.children == FlatKeyed(all.children, sh, Collected(sh, PreOrder(sh, k), cfg))
      && |r.ns| == |sh|
      && forall x :: 0 <= x < |sh| ==> r.ns[x] == After(sh, ns, PreOrder(sh, k), x)
    decreases |sh| - k, 2
  {
    var r := Visit(ns, all, k, cfg);
    assert ns[k] == sh[k];
    if sh[k].content == HistoryGroup {
      assert r == Walk(ns, all);
    } else if sh[k].isCommand && sh[k].parent.Some? {
      VisitExactCommand(sh, ns, all, k, cfg);
    } else {
      VisitExactGroup(sh, ns, all, k, cfg);
    }
  }

  /** `VisitExact` at a command with a parent, a leaf: rendered and offered, nothing below. */
  lemma VisitExactCommand(sh: seq<Element>, ns: seq<Element>, all: Element, k: nat, cfg: Config)
    requires Midwalk(sh, ns) && k < |sh| && ns[k] == sh[k]
    requires sh[k].content != HistoryGroup && sh[k].isCommand && sh[k].parent.Some?
    ensures var r := Visit(ns, all, k, cfg);
      && r.all.childrenSorted == all.childrenSorted + Collected(sh, PreOrder(sh, k), cfg)
      && r.all.children == FlatKeyed(all.children, sh, Collected(sh, PreOrder(sh, k), cfg))
      && |r.ns| == |sh|
      && forall x :: 0 <= x < |sh| ==> r.ns[x] == After(sh, ns, PreOrder(sh, k), x)
  {
    RenderedAsInTree(sh, ns, k);
    assert ns[k].childrenSorted == [];
    LeafVisit(ns, all, k, cfg);
    LeafWalk(sh, ns, all, k, cfg);
  }

  /** Rendering a leaf in place and offering it is the walk its one-node order describes. */
  lemma LeafWalk(sh: seq<Element>, ns: seq<Element>, all: Element, k: nat, cfg: Config)
    requires WellFormed(sh) && |ns| == |sh| && k < |sh| && sh[k].childrenSorted == []
    requires sh[k].content != HistoryGroup && sh[k].isCommand && sh[k].parent.Some?
    ensures var e := Rendered(sh, k);
      var r := Walk(ns[k := e], AppendToFlat(all, e, k, cfg));
      && r.all.childrenSorted == all.childrenSorted + Collected(sh, PreOrder(sh, k), cfg)
      && r.all.children == FlatKeyed(all.children, sh, Collected(sh, PreOrder(sh, k), cfg))
      && |r.ns| == |sh|
      && forall x :: 0 <= x < |sh| ==> r.ns[x] == After(sh, ns, PreOrder(sh, k), x)
  {
    assert PreOrder(sh, k) == [k] by {
      assert PreOrderKids(sh, k, 0) == [];
    }
    assert Collected(sh, [k], cfg) == if Collects(sh, k, cfg) then [k] else [] by {
      assert [k][1..] == [];
    }
  }

  /** At a command leaf with a parent, `PostProcess` only renders it and offers it to the flat list. */
  lemma LeafVisit(ns: seq<Element>, all: Element, k: nat, cfg: Config)
    requires WellFormed(ns) && k < |ns| && ns[k].childrenSorted == []
    requires ns[k].content != HistoryGroup && ns[k].isCommand && ns[k].parent.Some?
    ensures var e := Rendered(ns, k);
      Visit(ns, all, k, cfg) == Walk(ns[k := e], AppendToFlat(all, e, k, cfg))
  {
    var ns1 := ns[k := Rendered(ns, k)];
    var all1 := AppendToFlat(all, ns1[k], k, cfg);
    RenderInPlace(ns, k);
    assert ns1[k].childrenSorted == [];
    assert VisitKids(ns1, all1, k, 0, cfg) == Walk(ns1, all1);
    assert Visit(ns, all, k, cfg) == VisitCommand(ns, all, k, cfg);
  }

  /** `VisitExact` at any other node: only its children are walked. */
  lemma VisitExactGroup(sh: seq<Element>, ns: seq<Element>, all: Element, k: nat, cfg: Config)
    requires Midwalk(sh, ns) && k < |sh|
    requires forall x :: 0 <= x < |sh| && Desc(sh, x, k) ==> ns[x] == sh[x]
    requires sh[k].content != HistoryGroup && !(sh[k].isCommand && sh[k].parent.Some?)
    ensures var r := Visit(ns, all, k, cfg);
      && r.all.childrenSorted == all.childrenSorted + Collected(sh, PreOrder(sh, k), cfg)
      && r.all.children == FlatKeyed(all.children, sh, Collected(sh, PreOrder(sh, k), cfg))
      && |r.ns| == |sh|
      && forall x :: 0 <= x < |sh| ==> r.ns[x] == After(sh, ns, PreOrder(sh, k), x)
    decreases |sh| - k, 1
  {
    assert ns[k] == sh[k];
    assert Visit(ns, all, k, cfg) == VisitKids(ns, all, k, 0, cfg);
    forall x | 0 <= x < |sh| && Below(sh, x, k, 0) ensures ns[x] == sh[x] { }
    VisitKidsExact(sh, ns, all, k, 0, cfg);
    GroupOrder(sh, ns, k, cfg);
  }

  /** A node that is not collected adds nothing to the flat list and renders nothing. */
  lemma GroupOrder(sh: seq<Element>, ns: seq<Element>, k: nat, cfg: Config)
    requires WellFormed(sh) && |ns| == |sh| && k < |sh|
    requires sh[k].content != HistoryGroup && !(sh[k].isCommand && sh[k].parent.Some?)
    ensures Collected(sh, PreOrder(sh, k), cfg) == Collected(sh, PreOrderKids(sh, k, 0), cfg)
    ensures forall x :: 0 <= x < |sh| ==>
      After(sh, ns, PreOrder(sh, k), x) == After(sh, ns, PreOrderKids(sh, k, 0), x)
  {
    var po := PreOrder(sh, k);
    assert po == [k] + PreOrderKids(sh, k, 0);
    assert po[1..] == PreOrderKids(sh, k, 0);
  }

  /** The loop of `PostProcess(k)` from child `j` on, while nothing below those children was touched. */
  lemma {:induction false} VisitKidsExact(sh: seq<Element>, ns: seq<Element>, all: Element, k: nat, j: nat, cfg: Config)
    requires Midwalk(sh, ns) && k < |sh| && j <= |sh[k].childrenSorted| && sh[k].content != HistoryGroup
    requires forall x :: 0 <= x < |sh| && Below(sh, x, k, j) ==> ns[x] == sh[x]
    ensures var r := VisitKids(ns, all, k, j, cfg);
      && r.all.childrenSorted == all.childrenSorted + Collected(sh, PreOrderKids(sh, k, j), cfg)
      && r.all.children == FlatKeyed(all.children, sh, Collected(sh, PreOrderKids(sh, k, j), cfg))
      && |r.ns| == |sh|
      && forall x :: 0 <= x < |sh| ==> r.ns[x] == After(sh, ns, PreOrderKids(sh, k, j), x)
    decreases |sh| - k, 0, |sh[k].childrenSorted| - j, 2
  {
    if j == |sh[k].childrenSorted| {
      assert VisitKids(ns, all, k, j, cfg) == Walk(ns, all);
    } else {
      VisitKidsExactNext(sh, ns, all, k, j, cfg);
    }
  }

  /** `VisitKidsExact` for a loop that still has child `j` to visit. */
  lemma {:induction false} VisitKidsExactNext(sh: seq<Element>, ns: seq<Element>, all: Element, k: nat, j: nat, cfg: Config)
    requires Midwalk(sh, ns) && k < |sh| && j < |sh[k].childrenSorted| && sh[k].content != HistoryGroup
    requires forall x :: 0 <= x < |sh| && Below(sh, x, k, j) ==> ns[x] == sh[x]
    ensures var r := VisitKids(ns, all, k, j, cfg);
      && r.all.childrenSorted == all.childrenSorted + Collected(sh, PreOrderKids(sh, k, j), cfg)
      && r.all.children == FlatKeyed(all.children, sh, Collected(sh, PreOrderKids(sh, k, j), cfg))
      && |r.ns| == |sh|
      && forall x :: 0 <= x < |sh| ==> r.ns[x] == After(sh, ns, PreOrderKids(sh, k, j), x)
    decreases |sh| - k, 0, |sh[k].childrenSorted| - j, 1
  {
    var c := sh[k].childrenSorted[j];
    var f := Visit(ns, all, c, cfg);
    VisitFirstKid(sh, ns, all, k, j, cfg);
    KidsUnfold(ns, all, k, j, cfg);
    VisitKidsExact(sh, f.ns, f.all, k, j + 1, cfg);
    var r := VisitKids(f.ns, f.all, k, j + 1, cfg);
    KidsCombine(sh, ns, f.ns, r.ns, k, j);
    KidsListed(sh, all.childrenSorted, f.all.childrenSorted, r.all.childrenSorted, k, j, cfg);
    KidsKeyed(sh, all.children, f.all.children, r.all.children, k, j, cfg);
  }

  /** What child `j` adds to the flat list, followed by what the later children add, is what the loop adds. */
  lemma KidsListed(sh: seq<Element>, a: seq<nat>, b: seq<nat>, c: seq<nat>, k: nat, j: nat, cfg: Config)
    requires WellFormed(sh) && k < |sh| && j < |sh[k].childrenSorted|
    requires b == a + Collected(sh, PreOrder(sh, sh[k].childrenSorted[j]), cfg)
    requires c == b + Collected(sh, PreOrderKids(sh, k, j + 1), cfg)
    ensures c == a + Collected(sh, PreOrderKids(sh, k, j), cfg)
  {
    var po, rest := PreOrder(sh, sh[k].childrenSorted[j]), PreOrderKids(sh, k, j + 1);
    assert PreOrderKids(sh, k, j) == po + rest;
    CollectedAppend(sh, po, rest, cfg);
    AppendTwice(a, Collected(sh, po, cfg), Collected(sh, rest, cfg), b, c);
  }

  /** Appending `x`, then `y`, appends `x + y`. */
  lemma AppendTwice(a: seq<nat>, x: seq<nat>, y: seq<nat>, b: seq<nat>, c: seq<nat>)
    requires b == a + x && c == b + y
    ensures c == a + (x + y)
  {
  }

  /** What child `j` keys in the flat map, then what the later children key, is what the loop keys. */
  lemma KidsKeyed(sh: seq<Element>, a: map<string, nat>, b: map<string, nat>, c: map<string, nat>, k: nat, j: nat, cfg: Config)
    requires WellFormed(sh) && k < |sh| && j < |sh[k].childrenSorted|
    requires b == FlatKeyed(a, sh, Collected(sh, PreOrder(sh, sh[k].childrenSorted[j]), cfg))
    requires c == FlatKeyed(b, sh, Collected(sh, PreOrderKids(sh, k, j + 1), cfg))
    ensures c == FlatKeyed(a, sh, Collected(sh, PreOrderKids(sh, k, j), cfg))
  {
    var po, rest := PreOrder(sh, sh[k].childrenSorted[j]), PreOrderKids(sh, k, j + 1);
    CollectedAppend(sh, po, rest, cfg);
    FlatKeyedAppend(a, sh, Collected(sh, po, cfg), Collected(sh, rest, cfg));
    assert PreOrderKids(sh, k, j) == po + rest;
  }

  /** The walk of child `j`: exact for its own subtree, and it leaves the later children's subtrees alone. */
  lemma {:induction false} VisitFirstKid(sh: seq<Element>, ns: seq<Element>, all: Element, k: nat, j: nat, cfg: Config)
    requires Midwalk(sh, ns) && k < |sh| && j < |sh[k].childrenSorted|
    requires forall x :: 0 <= x < |sh| && Below(sh, x, k, j) ==> ns[x] == sh[x]
    ensures var c := sh[k].childrenSorted[j];
      var f := Visit(ns, all, c, cfg);
      && f.all.childrenSorted == all.childrenSorted + Collected(sh, PreOrder(sh, c), cfg)
      && f.all.children == FlatKeyed(all.children, sh, Collected(sh, PreOrder(sh, c), cfg))
      && Midwalk(sh, f.ns)
      && (forall x :: 0 <= x < |sh| ==> f.ns[x] == After(sh, ns, PreOrder(sh, c), x))
      && (forall x :: 0 <= x < |sh| && Below(sh, x, k, j + 1) ==> f.ns[x] == sh[x])
    decreases |sh| - k, 0, |sh[k].childrenSorted| - j, 0
  {
    var c := sh[k].childrenSorted[j];
    var f := Visit(ns, all, c, cfg);
    SubtreeUntouched(sh, ns, k, j);
    VisitExact(sh, ns, all, c, cfg);
    SameShapeWellFormed(ns, f.ns);
    SameShapeTrans(sh, ns, f.ns);
    MidwalkAfter(sh, ns, f.ns, PreOrder(sh, c));
    LaterUntouched(sh, ns, f.ns, k, j);
  }

  /** One round of the loop: child `j` is walked, then the rest from the state it leaves. */
  lemma KidsUnfold(ns: seq<Element>, all: Element, k: nat, j: nat, cfg: Config)
    requires WellFormed(ns) && k < |ns| && j < |ns[k].childrenSorted|
    ensures var f := Visit(ns, all, ns[k].childrenSorted[j], cfg);
      WellFormed(f.ns) && VisitKids(ns, all, k, j, cfg) == VisitKids(f.ns, f.all, k, j + 1, cfg)
  {
    SameShapeWellFormed(ns, Visit(ns, all, ns[k].childrenSorted[j], cfg).ns);
  }

  /** Untouched below the children from `j` on means untouched below child `j`. */
  lemma SubtreeUntouched(sh: seq<Element>, ns: seq<Element>, k: nat, j: nat)
    requires Midwalk(sh, ns) && k < |sh| && j < |sh[k].childrenSorted|
    requires forall x :: 0 <= x < |sh| && Below(sh, x, k, j) ==> ns[x] == sh[x]
    ensures forall x :: 0 <= x < |sh| && Desc(sh, x, sh[k].childrenSorted[j]) ==> ns[x] == sh[x]
  {
    var kids := sh[k].childrenSorted;
    forall x | 0 <= x < |sh| && Desc(sh, x, kids[j]) ensures ns[x] == sh[x] {
      DescVia(sh, x, kids[j], k);
      assert kids[j] in kids[j..];
    }
  }

  /** The walk of child `j` leaves the subtrees of the later children as they were. */
  lemma LaterUntouched(sh: seq<Element>, ns: seq<Element>, ns': seq<Element>, k: nat, j: nat)
    requires Midwalk(sh, ns) && k < |sh| && j < |sh[k].childrenSorted| && |ns'| == |sh|
    requires forall x :: 0 <= x < |sh| && Below(sh, x, k, j) ==> ns[x] == sh[x]
    requires forall x :: 0 <= x < |sh| ==> ns'[x] == After(sh, ns, PreOrder(sh, sh[k].childrenSorted[j]), x)
    ensures forall x :: 0 <= x < |sh| && Below(sh, x, k, j + 1) ==> ns'[x] == sh[x]
  {
    var kids := sh[k].childrenSorted;
    forall x | 0 <= x < |sh| && Below(sh, x, k, j + 1) ensures ns'[x] == sh[x] {
      LaterNotUnder(sh, k, j, x);
      if x in PreOrder(sh, kids[j]) {
        PreOrderDesc(sh, kids[j], x);
      }
      assert kids[j + 1..] == kids[j..][1..];
      assert Below(sh, x, k, j);
    }
  }

  /** The nodes child `j`'s walk renders and those the later children's walks render make up the loop's. */
  lemma KidsCombine(sh: seq<Element>, ns: seq<Element>, ns1: seq<Element>, ns2: seq<Element>, k: nat, j: nat)
    requires WellFormed(sh) && k < |sh| && j < |sh[k].childrenSorted| && |ns| == |sh| && |ns1| == |sh| && |ns2| == |sh|
    requires forall x :: 0 <= x < |sh| ==> ns1[x] == After(sh, ns, PreOrder(sh, sh[k].childrenSorted[j]), x)
    requires forall x :: 0 <= x < |sh| ==> ns2[x] == After(sh, ns1, PreOrderKids(sh, k, j + 1), x)
    ensures forall x :: 0 <= x < |sh| ==> ns2[x] == After(sh, ns, PreOrderKids(sh, k, j), x)
  {
    var po := PreOrder(sh, sh[k].childrenSorted[j]);
    var rest := PreOrderKids(sh, k, j + 1);
    assert PreOrderKids(sh, k, j) == po + rest;
    forall x | 0 <= x < |sh| ensures ns2[x] == After(sh, ns, po + rest, x) {
      assert x in po + rest <==> x in po || x in rest;
    }
  }

  /** A node below a child after the `j`-th is not in the subtree of the `j`-th. */
  lemma LaterNotUnder(sh: seq<Element>, k: nat, j: nat, x: nat)
    requires Shaped(sh) && k < |sh| && j < |sh[k].childrenSorted| && x < |sh|
    requires Below(sh, x, k, j + 1)
    ensures !Desc(sh, x, sh[k].childrenSorted[j])
  {
    var kids := sh[k].childrenSorted;
    var t := Top(sh, x, k);
    assert t != kids[j] by {
      var i :| j + 1 <= i < |kids| && kids[i] == t;
      assert kids[j] < kids[i];
    }
    if Desc(sh, x, kids[j]) {
      DescVia(sh, x, kids[j], k);
    }
  }

  /** The walk of a listing keeps the walk's state: only commands are rendered. */
  lemma MidwalkAfter(sh: seq<Element>, ns: seq<Element>, ns': seq<Element>, ids: seq<nat>)
    requires Midwalk(sh, ns) && SameShape(sh, ns') && WellFormed(ns')
    requires forall x :: 0 <= x < |sh| ==> ns'[x] == After(sh, ns, ids, x)
    ensures Midwalk(sh, ns')
  {
  }

  /**
    Flattening a built tree from node `p` (`PostProcess(p, all)` with a fresh
    flat parent): the flat list is exactly the commands with a parent, in
    pre-order below `p` with every `history` subtree left out, that pass the
    admission filter with their rendered content; exactly those commands of
    that order are rendered, and every other node keeps its content.
   */
  lemma FlattenExact(ns: seq<Element>, maxKey: int, p: nat, cfg: Config)
    requires Built(ns, maxKey) && p < |ns|
    ensures var w := Visit(ns, NewFlatParent(), p, cfg);
      && w.all.childrenSorted == Collected(ns, PreOrder(ns, p), cfg)
      && |w.ns| == |ns|
      && (forall x :: 0 <= x < |ns| && x in PreOrder(ns, p) && Renders(ns, x) ==> w.ns[x] == Rendered(ns, x))
      && (forall x :: 0 <= x < |ns| && !(x in PreOrder(ns, p) && Renders(ns, x)) ==> w.ns[x] == ns[x])
      && (forall i :: 0 <= i < |w.all.childrenSorted| ==> w.all.childrenSorted[i] < |w.ns|)
      && w.all.children == KeyedBy(w.ns, w.all.childrenSorted)
  {
    assert SameShape(ns, ns);
    VisitExact(ns, ns, NewFlatParent(), p, cfg);
    var w := Visit(ns, NewFlatParent(), p, cfg);
    var ids := w.all.childrenSorted;
    forall i | 0 <= i < |ids| ensures ids[i] < |ns| && ids[i] < |w.ns| && w.ns[ids[i]].content == Rendered(ns, ids[i]).content {
      assert ids[i] in Collected(ns, PreOrder(ns, p), cfg);
    }
    FlatKeyedIsKeyedBy(ns, w.ns, ids);
  }

  /**
    The order is the whole subtree minus the `history` subtrees: a node is
    listed exactly when it lies below `p` and no node on its way up to `p`
    is named `history`.
   */
  lemma PreOrderMembers(ns: seq<Element>, maxKey: int, p: nat, x: nat)
    requires Built(ns, maxKey) && p < |ns| && x < |ns|
    ensures x in PreOrder(ns, p) <==> Desc(ns, x, p) && NoHistoryOnPath(ns, x, p)
  {
    if x in PreOrder(ns, p) {
      PreOrderDesc(ns, p, x);
    }
    if Desc(ns, x, p) && NoHistoryOnPath(ns, x, p) {
      PreOrderComplete(ns, p, x);
    }
  }
}
