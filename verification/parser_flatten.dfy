/**
  Flat mode: `PostProcess` walks the tree in pre-order, skips every node
  named `history` together with everything under it, renders each command
  whose parent carries the `comm` tag into that parent's template, and hands
  every command that has a parent to `appendToFlatParent`, which keeps it
  only when it passes the admission filter.

  `Visit` and `VisitKids` are the walk as functions on the node arena; the
  lemmas say which nodes the walk may change and what it collects.
 */
module ParserFlatten {
  import opened Wrappers
  import opened GoStrings
  import opened Globals
  import opened Parser
  import opened ParserBuild
  import opened MiscUtils

  // ---------------------------------------------------------------- contents only

  /** `r` differs from `ns` in the contents of its nodes, if at all. */
  predicate SameShape(ns: seq<Element>, r: seq<Element>) {
    && |r| == |ns|
    && forall k {:trigger r[k], ns[k]} :: 0 <= k < |ns| ==>
         && r[k].isCommand == ns[k].isCommand
         && r[k].description == ns[k].description
         && r[k].tags == ns[k].tags
         && r[k].childKeys == ns[k].childKeys
         && r[k].parent == ns[k].parent
         && r[k].childrenSorted == ns[k].childrenSorted
         && r[k].children == ns[k].children
  }

  lemma SameShapeWellFormed(ns: seq<Element>, r: seq<Element>)
    requires WellFormed(ns) && SameShape(ns, r)
    ensures WellFormed(r)
  {
    assert forall k :: 0 <= k < |r| ==> r[k].parent == ns[k].parent && r[k].childrenSorted == ns[k].childrenSorted;
    assert forall k, c :: 0 <= k < |r| && c in r[k].children ==> c in ns[k].children;
  }

  lemma SameShapeTrans(a: seq<Element>, b: seq<Element>, c: seq<Element>)
    requires SameShape(a, b) && SameShape(b, c)
    ensures SameShape(a, c)
  {
    assert forall k :: 0 <= k < |a| ==> SameShape([a[k]], [b[k]]) && SameShape([b[k]], [c[k]]);
  }

  // ---------------------------------------------------------------- the walk

  /** What the walk threads through: the arena and the flat parent `all`. */
  datatype Walk = Walk(ns: seq<Element>, all: Element)

  /**
    A command as `PostProcess` leaves it: when its parent carries the `comm`
    tag, its content is rendered into the parent's content as a template.
   */
  function Rendered(ns: seq<Element>, k: nat): (e: Element)
    requires WellFormed(ns) && k < |ns|
    ensures e == ns[k].(content := e.content)
    ensures ns[k].parent.Some? && HasCommTag(ns[ns[k].parent.value]) ==>
      e.content == Render(ns[ns[k].parent.value].content, ns[k].content)
    ensures ns[k].parent.None? || !HasCommTag(ns[ns[k].parent.value]) ==> e == ns[k]
  {
    var e := ns[k];
    if e.parent.Some? && HasCommTag(ns[e.parent.value]) then
      e.(content := Render(ns[e.parent.value].content, e.content))
    else e
  }

  /**
    `appendToFlatParent(all, e)`: an admitted node is appended to the flat
    list and keyed by its content in the flat map; any other is dropped.
   */
  function AppendToFlat(all: Element, e: Element, k: nat, cfg: Config): (r: Element)
    ensures ElementPassesPreCriteria(e, cfg) ==>
      r == all.(childrenSorted := all.childrenSorted + [k], children := all.children[e.content := k])
    ensures !ElementPassesPreCriteria(e, cfg) ==> r == all
  {
    if ElementPassesPreCriteria(e, cfg) then
      all.(childrenSorted := all.childrenSorted + [k], children := all.children[e.content := k])
    else all
  }

  /** `PostProcess(k, all)`. */
  function Visit(ns: seq<Element>, all: Element, k: nat, cfg: Config): (r: Walk)
    requires WellFormed(ns) && k < |ns|
    ensures SameShape(ns, r.ns)
    decreases |ns| - k, 2
  {
    if ns[k].content == HistoryGroup then Walk(ns, all)
    else if ns[k].isCommand && ns[k].parent.Some? then VisitCommand(ns, all, k, cfg)
    else VisitKids(ns, all, k, 0, cfg)
  }

  /** `PostProcess` at a command with a parent: render it in place, offer it to the flat list, walk its children. */
  function VisitCommand(ns: seq<Element>, all: Element, k: nat, cfg: Config): (r: Walk)
    requires WellFormed(ns) && k < |ns|
    ensures SameShape(ns, r.ns)
    decreases |ns| - k, 1
  {
    var ns1 := ns[k := Rendered(ns, k)];
    RenderInPlace(ns, k);
    var r := VisitKids(ns1, AppendToFlat(all, ns1[k], k, cfg), k, 0, cfg);
    SameShapeTrans(ns, ns1, r.ns);
    r
  }

  /** Rendering a node in place changes only its content. */
  lemma RenderInPlace(ns: seq<Element>, k: nat)
    requires WellFormed(ns) && k < |ns|
    ensures SameShape(ns, ns[k := Rendered(ns, k)]) && WellFormed(ns[k := Rendered(ns, k)])
  {
    var e := Rendered(ns, k);
    var ns1 := ns[k := e];
    forall x | 0 <= x < |ns|
      ensures ns1[x] == (if x == k then ns[k].(content := e.content) else ns[x])
    {
    }
    SameShapeWellFormed(ns, ns1);
  }

  /** The loop of `PostProcess` over the children of `k`, from the `j`-th on. */
  function VisitKids(ns: seq<Element>, all: Element, k: nat, j: nat, cfg: Config): (r: Walk)
    requires WellFormed(ns) && k < |ns| && j <= |ns[k].childrenSorted|
    ensures SameShape(ns, r.ns)
    decreases |ns| - k, 0, |ns[k].childrenSorted| - j
  {
    if j == |ns[k].childrenSorted| then Walk(ns, all)
    else
      var f := Visit(ns, all, ns[k].childrenSorted[j], cfg);
      SameShapeWellFormed(ns, f.ns);
      var r := VisitKids(f.ns, f.all, k, j + 1, cfg);
      SameShapeTrans(ns, f.ns, r.ns);
      r
  }

  // ---------------------------------------------------------------- subtrees

  /** A tree: well formed, children point back to the node that lists them, none listed twice. */
  predicate Shaped(ns: seq<Element>) {
    WellFormed(ns) && ParentLinked(ns) && KidsIncreasing(ns)
  }

  /** Node `c` lies in the subtree of node `k`: `k` is on its chain of parents. */
  predicate Desc(sh: seq<Element>, c: nat, k: nat)
    requires WellFormed(sh) && c < |sh|
    decreases c
  {
    c == k || (sh[c].parent.Some? && Desc(sh, sh[c].parent.value, k))
  }

  /** A descendant is never older than its ancestor. */
  lemma {:induction false} DescAfter(sh: seq<Element>, c: nat, k: nat)
    requires WellFormed(sh) && c < |sh| && Desc(sh, c, k)
    ensures k <= c
    decreases c
  {
    if c != k {
      DescAfter(sh, sh[c].parent.value, k);
    }
  }

  /** For a proper descendant `c` of `k`: the child of `k` on the way down to `c`. */
  function Top(sh: seq<Element>, c: nat, k: nat): (t: nat)
    requires WellFormed(sh) && c < |sh| && Desc(sh, c, k) && c != k
    ensures t < |sh| && sh[t].parent == Some(k)
    decreases c
  {
    if sh[c].parent == Some(k) then c else Top(sh, sh[c].parent.value, k)
  }

  /** Below the child `x` of `k`, every node has `x` as its top below `k`. */
  lemma {:induction false} DescVia(sh: seq<Element>, c: nat, x: nat, k: nat)
    requires WellFormed(sh) && c < |sh| && x < |sh| && sh[x].parent == Some(k)
    requires Desc(sh, c, x)
    ensures Desc(sh, c, k) && c != k && Top(sh, c, k) == x
    decreases c
  {
    if c != x {
      var q := sh[c].parent.value;
      DescVia(sh, q, x, k);
      DescAfter(sh, q, x);
    }
  }

  /** `c` lies below one of the children of `k` from position `j` on. */
  predicate Below(sh: seq<Element>, c: nat, k: nat, j: nat)
    requires WellFormed(sh) && c < |sh| && k < |sh| && j <= |sh[k].childrenSorted|
  {
    Desc(sh, c, k) && c != k && Top(sh, c, k) in sh[k].childrenSorted[j..]
  }

  /**
    What the walk promises of a node it put in the flat list: a command with
    a parent, not named `history` when it was reached, admitted with the
    content it ends up with.
   */
  predicate Appended(ns: seq<Element>, r: seq<Element>, c: nat, cfg: Config) {
    && c < |ns| && c < |r|
    && r[c].isCommand && r[c].parent.Some?
    && ns[c].content != HistoryGroup
    && ElementPassesPreCriteria(r[c], cfg)
  }

  // ---------------------------------------------------------------- soundness

  /**
    The walk from node `k` took `ns` and the flat parent `all` to `r`: no
    node outside the subtree of `k` changed, the flat list kept what it held,
    and every node appended is an admitted command of that subtree.
   */
  predicate NodeSound(sh: seq<Element>, ns: seq<Element>, all: Element, r: Walk, k: nat, cfg: Config)
    requires WellFormed(sh) && |ns| == |sh| && k < |sh|
  {
    var a := |all.childrenSorted|;
    && |r.ns| == |ns|
    && (forall x :: 0 <= x < |ns| && !Desc(sh, x, k) ==> r.ns[x] == ns[x])
    && |r.all.childrenSorted| >= a
    && r.all.childrenSorted[..a] == all.childrenSorted
    && forall i :: a <= i < |r.all.childrenSorted| ==>
         && r.all.childrenSorted[i] < |ns|
         && Desc(sh, r.all.childrenSorted[i], k)
         && Appended(ns, r.ns, r.all.childrenSorted[i], cfg)
  }

  /** The same for the loop over the children of `k` from the `j`-th on. */
  predicate KidsSound(sh: seq<Element>, ns: seq<Element>, all: Element, r: Walk, k: nat, j: nat, cfg: Config)
    requires WellFormed(sh) && |ns| == |sh| && k < |sh| && j <= |sh[k].childrenSorted|
  {
    var a := |all.childrenSorted|;
    && |r.ns| == |ns|
    && (forall x :: 0 <= x < |ns| && !Below(sh, x, k, j) ==> r.ns[x] == ns[x])
    && |r.all.childrenSorted| >= a
    && r.all.childrenSorted[..a] == all.childrenSorted
    && forall i :: a <= i < |r.all.childrenSorted| ==>
         && r.all.childrenSorted[i] < |ns|
         && Below(sh, r.all.childrenSorted[i], k, j)
         && Appended(ns, r.ns, r.all.childrenSorted[i], cfg)
  }

  /**
    `PostProcess(k)` changes no node outside the subtree of `k`, keeps what
    the flat list held, and appends only admitted commands of that subtree.
   */
  lemma {:induction false} VisitSound(sh: seq<Element>, ns: seq<Element>, all: Element, k: nat, cfg: Config)
    requires Shaped(sh) && SameShape(sh, ns) && WellFormed(ns) && k < |ns|
    ensures NodeSound(sh, ns, all, Visit(ns, all, k, cfg), k, cfg)
    decreases |ns| - k, 2
  {
    if ns[k].content == HistoryGroup {
      var r := Visit(ns, all, k, cfg);
      assert r == Walk(ns, all);
      assert r.all.childrenSorted[..|all.childrenSorted|] == all.childrenSorted;
    } else if ns[k].isCommand && ns[k].parent.Some? {
      VisitSoundCommand(sh, ns, all, k, cfg);
    } else {
      VisitSoundGroup(sh, ns, all, k, cfg);
    }
  }

  /** `VisitSound` at a command with a parent: it is rendered and offered, then its children are walked. */
  lemma {:induction false} VisitSoundCommand(sh: seq<Element>, ns: seq<Element>, all: Element, k: nat, cfg: Config)
    requires Shaped(sh) && SameShape(sh, ns) && WellFormed(ns) && k < |ns|
    requires ns[k].content != HistoryGroup && ns[k].isCommand && ns[k].parent.Some?
    ensures NodeSound(sh, ns, all, Visit(ns, all, k, cfg), k, cfg)
    decreases |ns| - k, 1
  {
    var r := Visit(ns, all, k, cfg);
    var ns1 := ns[k := Rendered(ns, k)];
    var all1 := AppendToFlat(all, ns1[k], k, cfg);
    RenderInPlace(ns, k);
    SameShapeTrans(sh, ns, ns1);
    assert r == VisitCommand(ns, all, k, cfg) == VisitKids(ns1, all1, k, 0, cfg);
    VisitKidsSound(sh, ns1, all1, k, 0, cfg);
    VisitAtNode(sh, ns, ns1, all, all1, r, k, cfg);
  }

  /** `VisitSound` at any other node: only its children are walked. */
  lemma {:induction false} VisitSoundGroup(sh: seq<Element>, ns: seq<Element>, all: Element, k: nat, cfg: Config)
    requires Shaped(sh) && SameShape(sh, ns) && WellFormed(ns) && k < |ns|
    requires ns[k].content != HistoryGroup && !(ns[k].isCommand && ns[k].parent.Some?)
    ensures NodeSound(sh, ns, all, Visit(ns, all, k, cfg), k, cfg)
    decreases |ns| - k, 1
  {
    var r := Visit(ns, all, k, cfg);
    assert r == VisitKids(ns, all, k, 0, cfg);
    VisitKidsSound(sh, ns, all, k, 0, cfg);
    VisitAtNode(sh, ns, ns, all, all, r, k, cfg);
  }

  /** What `VisitSound` knows once node `k` itself has been handled and its children walked. */
  predicate AtNode(sh: seq<Element>, ns: seq<Element>, ns1: seq<Element>, all: Element, all1: Element,
                   r: Walk, k: nat, cfg: Config)
  {
    && Shaped(sh) && SameShape(sh, ns) && SameShape(sh, ns1) && WellFormed(ns) && k < |ns|
    && ns[k].content != HistoryGroup
    && (ns[k].isCommand && ns[k].parent.Some? ==>
          ns1 == ns[k := Rendered(ns, k)] && all1 == AppendToFlat(all, ns1[k], k, cfg))
    && (!(ns[k].isCommand && ns[k].parent.Some?) ==> ns1 == ns && all1 == all)
    && KidsSound(sh, ns1, all1, r, k, 0, cfg)
  }

  /** The step of `VisitSound` once node `k` itself has been handled. */
  lemma VisitAtNode(sh: seq<Element>, ns: seq<Element>, ns1: seq<Element>, all: Element, all1: Element,
                    r: Walk, k: nat, cfg: Config)
    requires AtNode(sh, ns, ns1, all, all1, r, k, cfg)
    ensures NodeSound(sh, ns, all, r, k, cfg)
  {
    var a := |all.childrenSorted|;
    var a1 := |all1.childrenSorted|;
    forall x | 0 <= x < |ns| && !Desc(sh, x, k) ensures r.ns[x] == ns[x] {
      AtNodeKept(sh, ns, ns1, all, all1, r, k, cfg, x);
    }
    assert r.all.childrenSorted[..a] == all.childrenSorted by {
      assert all1.childrenSorted[..a] == all.childrenSorted;
      assert r.all.childrenSorted[..a] == r.all.childrenSorted[..a1][..a];
    }
    forall i | a <= i < |r.all.childrenSorted|
      ensures r.all.childrenSorted[i] < |ns|
      ensures Desc(sh, r.all.childrenSorted[i], k)
      ensures Appended(ns, r.ns, r.all.childrenSorted[i], cfg)
    {
      AtNodeAppended(sh, ns, ns1, all, all1, r, k, cfg, i);
    }
  }

  /** A node outside the subtree of `k` keeps its content. */
  lemma AtNodeKept(sh: seq<Element>, ns: seq<Element>, ns1: seq<Element>, all: Element, all1: Element,
                   r: Walk, k: nat, cfg: Config, x: nat)
    requires AtNode(sh, ns, ns1, all, all1, r, k, cfg)
    requires x < |ns| && !Desc(sh, x, k)
    ensures r.ns[x] == ns[x]
  {
    assert !Below(sh, x, k, 0);
  }

  /** Entry `i` of the flat list past the old ones is `k` itself or a node appended below it. */
  lemma AtNodeAppended(sh: seq<Element>, ns: seq<Element>, ns1: seq<Element>, all: Element, all1: Element,
                       r: Walk, k: nat, cfg: Config, i: nat)
    requires AtNode(sh, ns, ns1, all, all1, r, k, cfg)
    requires |all.childrenSorted| <= i < |r.all.childrenSorted|
    ensures r.all.childrenSorted[i] < |ns|
    ensures Desc(sh, r.all.childrenSorted[i], k)
    ensures Appended(ns, r.ns, r.all.childrenSorted[i], cfg)
  {
    var a := |all.childrenSorted|;
    var a1 := |all1.childrenSorted|;
    var c := r.all.childrenSorted[i];
    assert !Below(sh, k, k, 0);
    assert r.ns[k] == ns1[k];
    if i < a1 {
      assert a1 == a + 1 && i == a;
      assert c == r.all.childrenSorted[..a1][i] == all1.childrenSorted[a] == k;
    } else {
      assert Below(sh, c, k, 0);
      assert ns1[c].content == ns[c].content;
    }
  }

  /**
    The loop of `PostProcess(k)` from child `j` on changes only nodes below
    those children, keeps what the flat list held, and appends only admitted
    commands from below those children.
   */
  lemma {:induction false} VisitKidsSound(sh: seq<Element>, ns: seq<Element>, all: Element, k: nat, j: nat, cfg: Config)
    requires Shaped(sh) && SameShape(sh, ns) && WellFormed(ns) && k < |ns| && j <= |ns[k].childrenSorted|
    ensures KidsSound(sh, ns, all, VisitKids(ns, all, k, j, cfg), k, j, cfg)
    decreases |ns| - k, 0, |ns[k].childrenSorted| - j, 1
  {
    var r := VisitKids(ns, all, k, j, cfg);
    var a := |all.childrenSorted|;
    if j == |ns[k].childrenSorted| {
      assert r == Walk(ns, all);
      assert r.all.childrenSorted[..a] == all.childrenSorted;
    } else {
      VisitKidsNext(sh, ns, all, k, j, cfg);
    }
  }

  /** `VisitKidsSound` for a loop that still has child `j` to visit. */
  lemma {:induction false} VisitKidsNext(sh: seq<Element>, ns: seq<Element>, all: Element, k: nat, j: nat, cfg: Config)
    requires Shaped(sh) && SameShape(sh, ns) && WellFormed(ns) && k < |ns| && j < |ns[k].childrenSorted|
    ensures KidsSound(sh, ns, all, VisitKids(ns, all, k, j, cfg), k, j, cfg)
    decreases |ns| - k, 0, |ns[k].childrenSorted| - j, 0
  {
    var r := VisitKids(ns, all, k, j, cfg);
    {
      var x0 := ns[k].childrenSorted[j];
      var f := Visit(ns, all, x0, cfg);
      VisitSound(sh, ns, all, x0, cfg);
      SameShapeWellFormed(ns, f.ns);
      SameShapeTrans(sh, ns, f.ns);
      assert r == VisitKids(f.ns, f.all, k, j + 1, cfg);
      VisitKidsSound(sh, f.ns, f.all, k, j + 1, cfg);
      KidsStep(sh, ns, f, r, all, k, j, cfg);
    }
  }

  /** The step of `VisitKidsSound`: child `j` is visited, then the rest. */
  lemma KidsStep(sh: seq<Element>, ns: seq<Element>, f: Walk, r: Walk, all: Element, k: nat, j: nat, cfg: Config)
    requires Shaped(sh) && SameShape(sh, ns) && SameShape(sh, f.ns) && k < |ns| && j < |sh[k].childrenSorted|
    requires NodeSound(sh, ns, all, f, sh[k].childrenSorted[j], cfg)
    requires KidsSound(sh, f.ns, f.all, r, k, j + 1, cfg)
    ensures KidsSound(sh, ns, all, r, k, j, cfg)
  {
    var kids := sh[k].childrenSorted;
    var x0 := kids[j];
    var a := |all.childrenSorted|;
    var a1 := |f.all.childrenSorted|;
    assert kids[j..] == [x0] + kids[j + 1..];
    assert x0 !in kids[j + 1..] by {
      forall t | j + 1 <= t < |kids| ensures kids[t] != x0 {
        assert kids[j] < kids[t];
      }
    }
    // A node below child j is below the children from j on, and below none after j.
    forall x | 0 <= x < |ns| && Desc(sh, x, x0)
      ensures Below(sh, x, k, j) && !Below(sh, x, k, j + 1)
    {
      DescVia(sh, x, x0, k);
    }
    // A node below the children after j is below the children from j on, and not below child j.
    forall x | 0 <= x < |ns| && Below(sh, x, k, j + 1)
      ensures Below(sh, x, k, j) && !Desc(sh, x, x0)
    {
      if Desc(sh, x, x0) {
        DescVia(sh, x, x0, k);
      }
    }
    forall x | 0 <= x < |ns| && !Below(sh, x, k, j) ensures r.ns[x] == ns[x] {
      assert !Desc(sh, x, x0) && !Below(sh, x, k, j + 1);
    }
    assert r.all.childrenSorted[..a] == all.childrenSorted by {
      assert r.all.childrenSorted[..a] == r.all.childrenSorted[..a1][..a];
    }
    forall i | a <= i < |r.all.childrenSorted|
      ensures r.all.childrenSorted[i] < |ns|
      ensures Below(sh, r.all.childrenSorted[i], k, j)
      ensures Appended(ns, r.ns, r.all.childrenSorted[i], cfg)
    {
      var c := r.all.childrenSorted[i];
      if i < a1 {
        assert c == r.all.childrenSorted[..a1][i] == f.all.childrenSorted[i];
        assert Desc(sh, c, x0);
      } else {
        assert Below(sh, c, k, j + 1);
        assert !Desc(sh, c, x0);
      }
    }
  }

  /**
    Flattening a built tree from node `p`: every node in the flat list lies
    below `p`, is a command with a parent, was not named `history` when the
    walk reached it, and passes the admission filter with the content it
    ends up with; nodes outside the subtree of `p` keep their contents.
   */
  lemma FlattenSound(ns: seq<Element>, maxKey: int, p: nat, cfg: Config)
    requires Built(ns, maxKey) && p < |ns|
    ensures var w := Visit(ns, NewFlatParent(), p, cfg);
      && (forall x :: 0 <= x < |ns| && !Desc(ns, x, p) ==> w.ns[x] == ns[x])
      && forall i :: 0 <= i < |w.all.childrenSorted| ==>
           && w.all.childrenSorted[i] < |ns|
           && Desc(ns, w.all.childrenSorted[i], p)
           && Appended(ns, w.ns, w.all.childrenSorted[i], cfg)
  {
    VisitSound(ns, ns, NewFlatParent(), p, cfg);
  }
}
