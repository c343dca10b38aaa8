/**
  The navigator: the filter options, the history update when a command is
  committed, and the loop that runs the filter on the current node, climbs
  to the parent when a node has nothing to show, descends into groups and
  stops on a command, on an error or on an empty pick.
 */
module Selecter {
  import opened Wrappers
  import opened GoStrings
  import opened Globals
  import opened Yaml
  import opened Parser
  import opened ParserBuild
  import opened ParserFlatten
  import opened ParserTree
  import opened MiscUtils
  import opened Filterer

  // ---------------------------------------------------------------- options

  /** The part of the filter options that the navigation depends on. */
  datatype FilterOptions = FilterOptions(limit: int, height: int, strict: bool)

  /**
    `createOptions(settings)`: one selection at a time, not strict, and in
    flat mode four more lines of height, written back into the settings.
   */
  method CreateOptions(settings: Settings, flatParse: bool) returns (opts: FilterOptions)
    modifies settings
    ensures settings.height == old(settings.height) + (if flatParse then 4 else 0)
    ensures settings.historySize == old(settings.historySize)
    ensures settings.footerKeyMaxSize == old(settings.footerKeyMaxSize)
    ensures opts == FilterOptions(1, settings.height, false)
  {
    if flatParse {
      settings.height := settings.height + 4;
    }
    opts := FilterOptions(1, settings.height, false);
  }

  // ---------------------------------------------------------------- history

  /** The entries of `hist` whose content differs from `content`, in order. */
  function Kept(ns: seq<Element>, hist: seq<nat>, content: string): (r: seq<nat>)
    requires forall j :: 0 <= j < |hist| ==> hist[j] < |ns|
    ensures |r| <= |hist|
    ensures forall j :: 0 <= j < |r| ==> r[j] in hist && ns[r[j]].content != content
    decreases |hist|
  {
    if hist == [] then []
    else if ns[hist[0]].content != content then [hist[0]] + Kept(ns, hist[1..], content)
    else Kept(ns, hist[1..], content)
  }

  /** `Kept` distributes over concatenation. */
  lemma {:induction false} KeptAppend(ns: seq<Element>, a: seq<nat>, b: seq<nat>, content: string)
    requires forall j :: 0 <= j < |a| ==> a[j] < |ns|
    requires forall j :: 0 <= j < |b| ==> b[j] < |ns|
    ensures Kept(ns, a + b, content) == Kept(ns, a, content) + Kept(ns, b, content)
    decreases |a|
  {
    if a == [] {
      assert a + b == b;
    } else {
      assert (a + b)[1..] == a[1..] + b;
      KeptAppend(ns, a[1..], b, content);
    }
  }

  /** An entry is kept exactly when it is listed and its content differs. */
  lemma {:induction false} KeptMembers(ns: seq<Element>, hist: seq<nat>, content: string)
    requires forall j :: 0 <= j < |hist| ==> hist[j] < |ns|
    ensures forall x :: x in Kept(ns, hist, content) <==> x in hist && ns[x].content != content
    decreases |hist|
  {
    if hist != [] {
      KeptMembers(ns, hist[1..], content);
      assert forall x :: x in hist <==> x == hist[0] || x in hist[1..];
    }
  }

  /** The first `n` entries of `s`, or all of them. */
  function Take(s: seq<nat>, n: int): (r: seq<nat>)
    ensures |r| == if n <= 0 then 0 else if n >= |s| then |s| else n
    ensures r == s[..|r|]
  {
    if n <= 0 then [] else if n >= |s| then s else s[..n]
  }

  /**
    The list `finalElementApply` gives the history node: the committed node
    `c` first, then the old entries whose content differs from it, in order,
    as many as fit in `size`; with `size` at most 1, the loop still looks at
    the first old entry before it stops.
   */
  function HistoryList(ns: seq<Element>, hist: seq<nat>, c: nat, size: int): (r: seq<nat>)
    requires c < |ns| && forall j :: 0 <= j < |hist| ==> hist[j] < |ns|
  {
    var kept := Kept(ns, hist, ns[c].content);
    if size >= 2 then [c] + Take(kept, size - 1)
    else [c] + (if |hist| > 0 && ns[hist[0]].content != ns[c].content then [hist[0]] else [])
  }

  /** Every entry of the list is a node of the arena. */
  predicate InArena(ns: seq<Element>, ids: seq<nat>) {
    forall j :: 0 <= j < |ids| ==> ids[j] < |ns|
  }

  /**
    The committed node comes first, no later entry has its content, and the
    later entries are old entries in their old order.
   */
  lemma HistoryShape(ns: seq<Element>, hist: seq<nat>, c: nat, size: int)
    requires c < |ns| && InArena(ns, hist)
    ensures var r := HistoryList(ns, hist, c, size);
      && |r| >= 1 && r[0] == c
      && (forall j :: 1 <= j < |r| ==> ns[r[j]].content != ns[c].content)
      && SubsequenceOf(r[1..], hist)
  {
    var r := HistoryList(ns, hist, c, size);
    var kept := Kept(ns, hist, ns[c].content);
    if size >= 2 {
      assert r[1..] == Take(kept, size - 1);
      KeptSubsequence(ns, hist, ns[c].content);
      PrefixSubsequence(Take(kept, size - 1), kept, hist);
    } else if |hist| > 0 && ns[hist[0]].content != ns[c].content {
      assert r[1..] == [hist[0]];
      assert [hist[0]][1..] == [];
      EmptySubsequence(hist[1..]);
    }
  }

  /** The empty list is a subsequence of every list. */
  lemma EmptySubsequence(b: seq<nat>)
    ensures SubsequenceOf([], b)
  {
  }

  /** `Kept` is a subsequence of the old entries. */
  lemma {:induction false} KeptSubsequence(ns: seq<Element>, hist: seq<nat>, content: string)
    requires InArena(ns, hist)
    ensures SubsequenceOf(Kept(ns, hist, content), hist)
    decreases |hist|
  {
    if hist != [] {
      KeptSubsequence(ns, hist[1..], content);
      var rest := Kept(ns, hist[1..], content);
      if ns[hist[0]].content != content {
        assert ([hist[0]] + rest)[1..] == rest;
      } else if rest != [] {
        assert SubsequenceOf(rest, hist[1..]);
      }
    }
  }

  /** A prefix of a subsequence is a subsequence. */
  lemma {:induction false} PrefixSubsequence(p: seq<nat>, a: seq<nat>, b: seq<nat>)
    requires SubsequenceOf(a, b) && |p| <= |a| && p == a[..|p|]
    ensures SubsequenceOf(p, b)
    decreases |b|
  {
    if p != [] && b != [] {
      assert a != [];
      if a[0] == b[0] && SubsequenceOf(a[1..], b[1..]) {
        assert p[1..] == a[1..][..|p| - 1];
        PrefixSubsequence(p[1..], a[1..], b[1..]);
      } else {
        PrefixSubsequence(p, a, b[1..]);
      }
    }
  }

  /**
    The bound: with `size` at least 2 the list holds at most `size` entries,
    otherwise at most 2; and below the bound no differing old entry is lost.
   */
  lemma HistoryBound(ns: seq<Element>, hist: seq<nat>, c: nat, size: int)
    requires c < |ns| && InArena(ns, hist)
    ensures var r := HistoryList(ns, hist, c, size);
      && (size >= 2 ==> |r| <= size)
      && (size < 2 ==> |r| <= 2)
      && (size >= 2 && |r| < size ==>
            forall x :: x in hist && ns[x].content != ns[c].content ==> x in r)
  {
    var r := HistoryList(ns, hist, c, size);
    var kept := Kept(ns, hist, ns[c].content);
    KeptMembers(ns, hist, ns[c].content);
    if size >= 2 && |r| < size {
      assert Take(kept, size - 1) == kept;
      forall x | x in hist && ns[x].content != ns[c].content ensures x in r {
        assert x in kept;
        assert x in r[1..];
      }
    }
  }

  /** Entries `i` and `j` of `ids` have different contents whenever `i != j`. */
  predicate DistinctContents(ns: seq<Element>, ids: seq<nat>)
    requires InArena(ns, ids)
  {
    forall i, j :: 0 <= i < j < |ids| ==> ns[ids[i]].content != ns[ids[j]].content
  }

  /** A subsequence of a list with distinct contents has distinct contents. */
  lemma {:induction false} SubsequenceDistinct(ns: seq<Element>, a: seq<nat>, b: seq<nat>)
    requires InArena(ns, b) && SubsequenceOf(a, b) && DistinctContents(ns, b)
    ensures InArena(ns, a) && DistinctContents(ns, a)
    decreases |b|
  {
    if a != [] {
      if a[0] == b[0] && SubsequenceOf(a[1..], b[1..]) {
        SubsequenceDistinct(ns, a[1..], b[1..]);
        SubsequenceMembers(a[1..], b[1..]);
        forall j | 0 < j < |a| ensures ns[a[0]].content != ns[a[j]].content {
          assert a[j] == a[1..][j - 1] && a[1..][j - 1] in b[1..];
          var m :| 0 <= m < |b[1..]| && b[1..][m] == a[j];
          assert b[m + 1] == a[j];
        }
      } else {
        SubsequenceDistinct(ns, a, b[1..]);
      }
    }
  }

  /** Every entry of a subsequence is an entry of the list. */
  lemma {:induction false} SubsequenceMembers(a: seq<nat>, b: seq<nat>)
    requires SubsequenceOf(a, b)
    ensures forall x :: x in a ==> x in b
    decreases |b|
  {
    if a != [] {
      if a[0] == b[0] && SubsequenceOf(a[1..], b[1..]) {
        SubsequenceMembers(a[1..], b[1..]);
        assert forall x :: x in a ==> x == a[0] || x in a[1..];
      } else {
        SubsequenceMembers(a, b[1..]);
      }
    }
  }

  /** If the old history had no duplicate contents, neither has the new one. */
  lemma HistoryDistinct(ns: seq<Element>, hist: seq<nat>, c: nat, size: int)
    requires c < |ns| && InArena(ns, hist) && DistinctContents(ns, hist)
    ensures InArena(ns, HistoryList(ns, hist, c, size))
    ensures DistinctContents(ns, HistoryList(ns, hist, c, size))
  {
    var r := HistoryList(ns, hist, c, size);
    HistoryShape(ns, hist, c, size);
    SubsequenceDistinct(ns, r[1..], hist);
    forall i, j | 0 <= i < j < |r| ensures ns[r[i]].content != ns[r[j]].content {
      if i > 0 {
        assert r[i] == r[1..][i - 1] && r[j] == r[1..][j - 1];
      }
    }
  }

  /** The one-key document `SimpleElementToMap` makes of node `h`. */
  function HistoryDoc(ns: seq<Element>, h: nat): Raw
    requires h < |ns| && Listed(ns, h)
  {
    Map([Entry(ns[h].content, Seq(Scalars(Contents(ns, ns[h].childrenSorted))))])
  }

  /** The nodes and the history document after committing to a command. */
  datatype Applied = Applied(nodes: seq<Element>, doc: Raw)

  /**
    `finalElementApply(root, c)`: render `c` into its `comm` parent's
    template in place, give the history node `h` its new list, and
    serialize it.
   */
  function Apply(ns: seq<Element>, h: nat, c: nat, size: int): (a: Applied)
    requires WellFormed(ns) && h < |ns| && c < |ns|
  {
    WriteHistory(ns[c := Rendered(ns, c)], h, c, size)
  }

  /** The second half of `Apply`: the history node gets its new list, which is serialized. */
  function WriteHistory(ns: seq<Element>, h: nat, c: nat, size: int): (a: Applied)
    requires h < |ns| && c < |ns| && Listed(ns, h)
  {
    var ns2 := ns[h := ns[h].(childrenSorted := HistoryList(ns, ns[h].childrenSorted, c, size))];
    Applied(ns2, HistoryDoc(ns2, h))
  }

  /**
    `doc` is a one-key history document whose list starts with the content
    of node `c` and never repeats it.
   */
  predicate WritesHistory(nodes: seq<Element>, c: nat, doc: Raw) {
    && c < |nodes|
    && doc.Map? && |doc.entries| == 1 && doc.entries[0].value.Seq?
    && var items := doc.entries[0].value.items;
       && |items| >= 1 && items[0] == Scalar(nodes[c].content)
       && forall j :: 1 <= j < |items| ==> items[j] != items[0]
  }

  /** The document of a history node whose list leads with `c` and never repeats its content. */
  lemma HistoryDocLeads(ns: seq<Element>, h: nat, c: nat)
    requires h < |ns| && c < |ns| && Listed(ns, h)
    requires var r := ns[h].childrenSorted;
      |r| >= 1 && r[0] == c && forall j :: 1 <= j < |r| ==> ns[r[j]].content != ns[c].content
    ensures WritesHistory(ns, c, HistoryDoc(ns, h))
  {
  }

  /**
    The written history lists the committed command's content first (as
    rendered in place) and no later entry repeats it.
   */
  lemma ApplyHistory(ns: seq<Element>, h: nat, c: nat, size: int)
    requires WellFormed(ns) && h < |ns| && c < |ns|
    ensures var a := Apply(ns, h, c, size);
      && |a.nodes| == |ns|
      && a.nodes[c].content == Rendered(ns, c).content
      && (h != c ==> a.nodes[h].content == ns[h].content)
      && a.doc.Map? && |a.doc.entries| == 1 && a.doc.entries[0].key == a.nodes[h].content
      && WritesHistory(a.nodes, c, a.doc)
  {
    WriteHistoryLeads(ns[c := Rendered(ns, c)], h, c, size);
  }

  /** `WriteHistory` keeps every content and writes a list led by `c`. */
  lemma WriteHistoryLeads(ns: seq<Element>, h: nat, c: nat, size: int)
    requires h < |ns| && c < |ns| && Listed(ns, h)
    ensures var a := WriteHistory(ns, h, c, size);
      && |a.nodes| == |ns|
      && (forall x :: 0 <= x < |ns| ==> a.nodes[x].content == ns[x].content)
      && a.doc.Map? && |a.doc.entries| == 1 && a.doc.entries[0].key == a.nodes[h].content
      && WritesHistory(a.nodes, c, a.doc)
  {
    var list := HistoryList(ns, ns[h].childrenSorted, c, size);
    HistoryShape(ns, ns[h].childrenSorted, c, size);
    var ns2 := ns[h := ns[h].(childrenSorted := list)];
    assert ns2[h].childrenSorted == list;
    HistoryDocLeads(ns2, h, c);
  }

  /**
    The first half of `finalElementApply`: a command under a `comm` parent
    gets its content rendered into the parent's template, in place.
   */
  method CommitContent(t: Tree, c: nat)
    requires WellFormed(t.nodes) && c < |t.nodes|
    modifies t
    ensures t.nodes == old(t.nodes)[c := Rendered(old(t.nodes), c)]
    ensures t.historyTemp == old(t.historyTemp)
  {
    var e := RenderElement(t.nodes, c);
    t.nodes := t.nodes[c := e];
  }

  /**
    The loop of `finalElementApply`: the committed node, then each old entry
    with a different content, stopping as soon as the list holds `size` entries.
   */
  method BuildHistory(ns: seq<Element>, hist: seq<nat>, c: nat, size: int) returns (list: seq<nat>)
    requires c < |ns| && InArena(ns, hist)
    ensures list == HistoryList(ns, hist, c, size)
  {
    list := [c];
    var i := 0;
    while i < |hist|
      invariant 0 <= i <= |hist|
      invariant list == [c] + Kept(ns, hist[..i], ns[c].content)
      invariant 0 < i ==> |list| < size
    {
      assert hist[..i + 1] == hist[..i] + [hist[i]];
      KeptAppend(ns, hist[..i], [hist[i]], ns[c].content);
      assert [hist[i]][1..] == [];
      if ns[hist[i]].content != ns[c].content {
        list := list + [hist[i]];
      }
      i := i + 1;
      if |list| >= size {
        HistoryAtBreak(ns, hist, c, size, i);
        return;
      }
    }
    assert hist[..i] == hist;
    HistoryAtEnd(ns, hist, c, size);
  }

  /**
    `finalElementApply(root, c)` on the tree; the history node is
    `HistoryTemp`, whose absence makes the Go code dereference nil.
   */
  method FinalElementApply(t: Tree, c: nat, size: int) returns (doc: Raw)
    requires WellFormed(t.nodes) && c < |t.nodes|
    requires t.historyTemp.Some? && t.historyTemp.value < |t.nodes|
    modifies t
    ensures t.historyTemp == old(t.historyTemp)
    ensures Applied(t.nodes, doc) == Apply(old(t.nodes), t.historyTemp.value, c, size)
  {
    CommitContent(t, c);
    var h := t.historyTemp.value;
    var ns := t.nodes;
    var list := BuildHistory(ns, ns[h].childrenSorted, c, size);
    t.nodes := ns[h := ns[h].(childrenSorted := list)];
    doc := t.SimpleElementToMap(h);
  }

  /** The loop stops right after the entry that fills the list. */
  lemma HistoryAtBreak(ns: seq<Element>, hist: seq<nat>, c: nat, size: int, i: nat)
    requires c < |ns| && InArena(ns, hist) && 1 <= i <= |hist|
    requires |[c] + Kept(ns, hist[..i], ns[c].content)| >= size
    requires i - 1 == 0 || |[c] + Kept(ns, hist[..i - 1], ns[c].content)| < size
    ensures [c] + Kept(ns, hist[..i], ns[c].content) == HistoryList(ns, hist, c, size)
  {
    var content := ns[c].content;
    assert hist[..i] == hist[..i - 1] + [hist[i - 1]];
    KeptAppend(ns, hist[..i - 1], [hist[i - 1]], content);
    assert [hist[i - 1]][1..] == [];
    assert hist == hist[..i] + hist[i..];
    KeptAppend(ns, hist[..i], hist[i..], content);
    if size < 2 {
      assert hist[..0] == [];
    }
  }

  /** The loop ran through every old entry without filling the list. */
  lemma HistoryAtEnd(ns: seq<Element>, hist: seq<nat>, c: nat, size: int)
    requires c < |ns| && InArena(ns, hist)
    requires |hist| == 0 || |[c] + Kept(ns, hist, ns[c].content)| < size
    ensures [c] + Kept(ns, hist, ns[c].content) == HistoryList(ns, hist, c, size)
  {
  }

  /**
    Reading the written history back: each item, a trimmed text without
    `^`, becomes a command label whose content is that text.
   */
  lemma HistoryReadBack(name: string, texts: seq<string>)
    requires forall j :: 0 <= j < |texts| ==> IndexOfChar(texts[j], '^') < 0 && TrimSpace(texts[j]) == texts[j]
    ensures var body := BodyOf(Map([Entry(name, Seq(Scalars(texts)))]));
      && body.Groups? && |body.groups| == 1
      && body.groups[0].key == ParseLabel(name)
      && body.groups[0].body.Commands?
      && |body.groups[0].body.labels| == |texts|
      && forall j :: 0 <= j < |texts| ==>
           body.groups[0].body.labels[j] == LabelParts(texts[j], false, "", [])
  {
    var items := Scalars(texts);
    SingleGroupBody(name, Seq(items));
    assert BodyOf(Seq(items)) == Commands(ItemLabels(items));
    forall j | 0 <= j < |texts|
      ensures ItemLabels(items)[j] == LabelParts(texts[j], false, "", [])
    {
      ItemLabelsAt(items, j);
      PlainLabel(texts[j]);
    }
  }

  // ---------------------------------------------------------------- the navigation loop

  /** How a navigation session ends. */
  datatype Ending =
    | Completed(command: nat)   // a command was chosen and the history written
    | Pwd                       // an error other than "no options": `pwd` is printed
    | NoChoice                  // the widget returned without a pick
    | Crashed                   // the Go code would dereference nil here
    | OutOfInput                // the oracle script ran out

  /** One round of the loop: go on at a node, or stop. */
  datatype Step =
    | Continue(nodes: seq<Element>, cursor: nat, printed: seq<string>)
    | Stop(nodes: seq<Element>, printed: seq<string>, ending: Ending, history: Option<Raw>)

  /**
    One round of `Chooser` at node `k` with the widget reporting `o`: run
    the filter; on "no options" climb to the parent, on any other error
    print `pwd` and stop; on a command commit it and stop, on a group
    descend, on no pick stop.
   */
  function ChooserStep(ns: seq<Element>, ht: Option<nat>, k: nat, o: Outcome,
                       maxKey: int, size: int, isTTY: bool, strip: string -> string): (s: Step)
    requires WellFormed(ns) && k < |ns| && (ht.Some? ==> ht.value < |ns|)
    ensures s.Continue? ==> WellFormed(s.nodes) && s.cursor < |s.nodes| && |s.nodes| == |ns|
  {
    if !NoChoices(ns, k) && !Resolvable(ns, k, o, isTTY, strip) then
      Stop(Prune(ns, k, maxKey), [], Crashed, None)
    else
      Settle(RunRound(ns, k, o, false, isTTY, strip, maxKey), ns[k].parent, ht, size)
  }

  /**
    What the loop does with the result `r` of `Run` at a node whose parent
    is `up`: climb on "no options", print `pwd` on another error, descend
    into a group, commit a command, stop on no pick.
   */
  function Settle(r: RunResult, up: Option<nat>, ht: Option<nat>, size: int): (s: Step)
    requires WellFormed(r.nodes) && (r.chosen.Some? ==> r.chosen.value < |r.nodes|)
    requires (up.Some? ==> up.value < |r.nodes|) && (ht.Some? ==> ht.value < |r.nodes|)
    ensures s.Continue? ==> WellFormed(s.nodes) && s.cursor < |s.nodes| && |s.nodes| == |r.nodes|
  {
    if r.err.Some? then
      if Contains(Message(r.err.value), "no options provided") then
        if up.Some? then Continue(r.nodes, up.value, r.printed)
        else Stop(r.nodes, r.printed, Crashed, None)
      else Stop(r.nodes, r.printed + ["pwd"], Pwd, None)
    else if r.chosen.Some? then
      var c := r.chosen.value;
      if !r.nodes[c].isCommand then Continue(r.nodes, c, r.printed)
      else if ht.None? then Stop(r.nodes, r.printed, Crashed, None)
      else
        var a := Apply(r.nodes, ht.value, c, size);
        Stop(a.nodes, r.printed, Completed(c), Some(a.doc))
    else Stop(r.nodes, r.printed, NoChoice, None)
  }

  /** A node with nothing to show sends the loop to its parent, pruned. */
  lemma StepNoOptions(ns: seq<Element>, ht: Option<nat>, k: nat, o: Outcome,
                      maxKey: int, size: int, isTTY: bool, strip: string -> string)
    requires WellFormed(ns) && k < |ns| && (ht.Some? ==> ht.value < |ns|)
    requires NoChoices(ns, k) && ns[k].parent.Some?
    ensures ChooserStep(ns, ht, k, o, maxKey, size, isTTY, strip)
         == Continue(Prune(ns, k, maxKey), ns[k].parent.value, [])
  {
    NoOptionsRecognised();
  }

  /**
    An aborted widget, or one that failed with an error whose text does not
    mention "no options provided", prints `pwd` and ends the session. (The
    check is on the text, so a failure whose reason does mention it climbs
    to the parent as an empty list would.)
   */
  lemma StepOtherError(ns: seq<Element>, ht: Option<nat>, k: nat, o: Outcome,
                       maxKey: int, size: int, isTTY: bool, strip: string -> string)
    requires WellFormed(ns) && k < |ns| && (ht.Some? ==> ht.value < |ns|)
    requires !NoChoices(ns, k)
    requires o.Aborted? || (o.Failed? && !Contains(Message(RunFailed(o.reason)), "no options provided"))
    ensures ChooserStep(ns, ht, k, o, maxKey, size, isTTY, strip)
         == Stop(Prune(ns, k, maxKey), ["pwd"], Pwd, None)
  {
    NoOptionsRecognised();
    var err := if o.Aborted? then AbortedErr else RunFailed(o.reason);
    assert RunRound(ns, k, o, false, isTTY, strip, maxKey).err == Some(err);
    StepOnError(ns, ht, k, o, maxKey, size, isTTY, strip);
  }

  /** A round whose `Run` reports an error other than "no options" stops with `pwd`. */
  lemma StepOnError(ns: seq<Element>, ht: Option<nat>, k: nat, o: Outcome,
                    maxKey: int, size: int, isTTY: bool, strip: string -> string)
    requires WellFormed(ns) && k < |ns| && (ht.Some? ==> ht.value < |ns|)
    requires !NoChoices(ns, k) && !o.Finished?
    requires var r := RunRound(ns, k, o, false, isTTY, strip, maxKey);
      r.err.Some? && !Contains(Message(r.err.value), "no options provided")
    ensures ChooserStep(ns, ht, k, o, maxKey, size, isTTY, strip)
         == Stop(Prune(ns, k, maxKey), ["pwd"], Pwd, None)
  {
    var r := RunRound(ns, k, o, false, isTTY, strip, maxKey);
    RunErrors(ns, k, o, false, isTTY, strip, maxKey);
    StepSettles(ns, ht, k, o, maxKey, size, isTTY, strip);
    SettleError(r, ns[k].parent, ht, size);
  }

  /** A round whose outcome the Go code can act on is `Run` followed by `Settle`. */
  lemma StepSettles(ns: seq<Element>, ht: Option<nat>, k: nat, o: Outcome,
                    maxKey: int, size: int, isTTY: bool, strip: string -> string)
    requires WellFormed(ns) && k < |ns| && (ht.Some? ==> ht.value < |ns|)
    requires !NoChoices(ns, k) ==> Resolvable(ns, k, o, isTTY, strip)
    ensures ChooserStep(ns, ht, k, o, maxKey, size, isTTY, strip)
         == Settle(RunRound(ns, k, o, false, isTTY, strip, maxKey), ns[k].parent, ht, size)
  {
  }

  /** Any error other than "no options" prints `pwd` after what was printed and ends the session. */
  lemma SettleError(r: RunResult, up: Option<nat>, ht: Option<nat>, size: int)
    requires WellFormed(r.nodes) && (r.chosen.Some? ==> r.chosen.value < |r.nodes|)
    requires (up.Some? ==> up.value < |r.nodes|) && (ht.Some? ==> ht.value < |r.nodes|)
    requires r.err.Some? && !Contains(Message(r.err.value), "no options provided")
    ensures Settle(r, up, ht, size) == Stop(r.nodes, r.printed + ["pwd"], Pwd, None)
  {
  }

  /**
    After a finished widget: a chosen group becomes the new cursor, a chosen
    command is committed with the history written, and no pick stops the
    session without touching the history.
   */
  lemma StepResult(ns: seq<Element>, ht: Option<nat>, k: nat, o: Outcome,
                   maxKey: int, size: int, isTTY: bool, strip: string -> string)
    requires WellFormed(ns) && k < |ns| && (ht.Some? ==> ht.value < |ns|)
    requires !NoChoices(ns, k) && o.Finished? && Resolvable(ns, k, o, isTTY, strip)
    ensures var s := ChooserStep(ns, ht, k, o, maxKey, size, isTTY, strip);
      var r := Resolve(ns, k, o, false, isTTY, strip);
      && (r.chosen.None? ==> s == Stop(Prune(ns, k, maxKey), r.printed, NoChoice, None))
      && (r.chosen.Some? && !ns[r.chosen.value].isCommand ==>
            s == Continue(Prune(ns, k, maxKey), r.chosen.value, r.printed))
      && (r.chosen.Some? && ns[r.chosen.value].isCommand && ht.Some? ==>
            var a := Apply(Prune(ns, k, maxKey), ht.value, r.chosen.value, size);
            s == Stop(a.nodes, r.printed, Completed(r.chosen.value), Some(a.doc)))
  {
    StepSettles(ns, ht, k, o, maxKey, size, isTTY, strip);
    var r := Resolve(ns, k, o, false, isTTY, strip);
    assert RunRound(ns, k, o, false, isTTY, strip, maxKey) == RunResult(Prune(ns, k, maxKey), r.chosen, r.printed, None);
  }

  /** What a whole session leaves: the nodes, everything printed, the ending, the history written. */
  datatype Session = Session(nodes: seq<Element>, printed: seq<string>, ending: Ending, history: Option<Raw>)

  /** The loop of `Chooser` from node `k`, the widget reporting `script` in turn. */
  function Navigate(ns: seq<Element>, ht: Option<nat>, k: nat, script: seq<Outcome>,
                    maxKey: int, size: int, isTTY: bool, strip: string -> string): Session
    requires WellFormed(ns) && k < |ns| && (ht.Some? ==> ht.value < |ns|)
    decreases |script|
  {
    if script == [] then Session(ns, [], OutOfInput, None)
    else
      match ChooserStep(ns, ht, k, script[0], maxKey, size, isTTY, strip)
      case Continue(ns1, k1, printed) =>
        var rest := Navigate(ns1, ht, k1, script[1..], maxKey, size, isTTY, strip);
        rest.(printed := printed + rest.printed)
      case Stop(ns1, printed, ending, history) => Session(ns1, printed, ending, history)
  }

  /**
    A session that completes on command `c` has written a history whose
    first item is `c`'s content and whose other items all differ from it.
   */
  lemma {:induction false} CompletedWritesHistory(ns: seq<Element>, ht: Option<nat>, k: nat, script: seq<Outcome>,
                                                 maxKey: int, size: int, isTTY: bool, strip: string -> string)
    requires WellFormed(ns) && k < |ns| && (ht.Some? ==> ht.value < |ns|)
    ensures var s := Navigate(ns, ht, k, script, maxKey, size, isTTY, strip);
      s.ending.Completed? ==> s.history.Some? && WritesHistory(s.nodes, s.ending.command, s.history.value)
    decreases |script|
  {
    if script != [] {
      var step := ChooserStep(ns, ht, k, script[0], maxKey, size, isTTY, strip);
      if step.Continue? {
        CompletedWritesHistory(step.nodes, ht, step.cursor, script[1..], maxKey, size, isTTY, strip);
      } else {
        StepWritesHistory(ns, ht, k, script[0], maxKey, size, isTTY, strip);
      }
    }
  }

  /** A round that completes writes a history led by the committed command. */
  lemma StepWritesHistory(ns: seq<Element>, ht: Option<nat>, k: nat, o: Outcome,
                          maxKey: int, size: int, isTTY: bool, strip: string -> string)
    requires WellFormed(ns) && k < |ns| && (ht.Some? ==> ht.value < |ns|)
    ensures var s := ChooserStep(ns, ht, k, o, maxKey, size, isTTY, strip);
      s.Stop? && s.ending.Completed? ==> s.history.Some? && WritesHistory(s.nodes, s.ending.command, s.history.value)
  {
    if NoChoices(ns, k) || Resolvable(ns, k, o, isTTY, strip) {
      SettleWritesHistory(RunRound(ns, k, o, false, isTTY, strip, maxKey), ns[k].parent, ht, size);
    }
  }

  /** `Settle` completes only through `Apply`, which writes a history led by the command. */
  lemma SettleWritesHistory(r: RunResult, up: Option<nat>, ht: Option<nat>, size: int)
    requires WellFormed(r.nodes) && (r.chosen.Some? ==> r.chosen.value < |r.nodes|)
    requires (up.Some? ==> up.value < |r.nodes|) && (ht.Some? ==> ht.value < |r.nodes|)
    ensures var s := Settle(r, up, ht, size);
      s.Stop? && s.ending.Completed? ==> s.history.Some? && WritesHistory(s.nodes, s.ending.command, s.history.value)
  {
    if r.err.None? && r.chosen.Some? && r.nodes[r.chosen.value].isCommand && ht.Some? {
      ApplyHistory(r.nodes, ht.value, r.chosen.value, size);
    }
  }

  /** `s` with `p` printed before it. */
  function After(p: seq<string>, s: Session): Session {
    s.(printed := p + s.printed)
  }

  /** Output printed in two goes is the two outputs joined. */
  lemma AfterAfter(p: seq<string>, q: seq<string>, s: Session)
    ensures After(p, After(q, s)) == After(p + q, s)
  {
    assert p + (q + s.printed) == p + q + s.printed;
  }

  /** With no outcome left, the session ends for want of input. */
  lemma NavigateEmpty(ns: seq<Element>, ht: Option<nat>, k: nat, maxKey: int, size: int, isTTY: bool, strip: string -> string)
    requires WellFormed(ns) && k < |ns| && (ht.Some? ==> ht.value < |ns|)
    ensures Navigate(ns, ht, k, [], maxKey, size, isTTY, strip) == Session(ns, [], OutOfInput, None)
  {
  }

  /** A session is its first round followed by the rest. */
  lemma NavigateRound(ns: seq<Element>, ht: Option<nat>, k: nat, script: seq<Outcome>,
                      maxKey: int, size: int, isTTY: bool, strip: string -> string)
    requires WellFormed(ns) && k < |ns| && (ht.Some? ==> ht.value < |ns|) && script != []
    ensures var s := ChooserStep(ns, ht, k, script[0], maxKey, size, isTTY, strip);
      && (s.Continue? ==>
            Navigate(ns, ht, k, script, maxKey, size, isTTY, strip)
            == After(s.printed, Navigate(s.nodes, ht, s.cursor, script[1..], maxKey, size, isTTY, strip)))
      && (s.Stop? ==>
            Navigate(ns, ht, k, script, maxKey, size, isTTY, strip) == Session(s.nodes, s.printed, s.ending, s.history))
  {
  }

  /** One pass of the loop body of `Chooser` at node `k`, the widget reporting `script[0]`. */
  method ChooserRound(t: Tree, k: nat, script: seq<Outcome>, size: int, isTTY: bool, strip: string -> string)
      returns (goOn: bool, next: nat, printed: seq<string>, ending: Ending, history: Option<Raw>)
    requires WellFormed(t.nodes) && k < |t.nodes| && script != []
    requires t.historyTemp.Some? ==> t.historyTemp.value < |t.nodes|
    modifies t
    ensures t.historyTemp == old(t.historyTemp)
    ensures goOn ==> WellFormed(t.nodes) && next < |t.nodes| && |t.nodes| == |old(t.nodes)|
    ensures goOn ==>
      Navigate(old(t.nodes), t.historyTemp, k, script, t.maxKey, size, isTTY, strip)
      == After(printed, Navigate(t.nodes, t.historyTemp, next, script[1..], t.maxKey, size, isTTY, strip))
    ensures !goOn ==>
      Navigate(old(t.nodes), t.historyTemp, k, script, t.maxKey, size, isTTY, strip)
      == Session(t.nodes, printed, ending, history)
  {
    NavigateRound(t.nodes, t.historyTemp, k, script, t.maxKey, size, isTTY, strip);
    goOn, next, printed, ending, history := ChooserPass(t, k, script[0], size, isTTY, strip);
  }

  /** The statements of the loop body of `Chooser`. */
  method ChooserPass(t: Tree, k: nat, o: Outcome, size: int, isTTY: bool, strip: string -> string)
      returns (goOn: bool, next: nat, printed: seq<string>, ending: Ending, history: Option<Raw>)
    requires WellFormed(t.nodes) && k < |t.nodes|
    requires t.historyTemp.Some? ==> t.historyTemp.value < |t.nodes|
    modifies t
    ensures t.historyTemp == old(t.historyTemp)
    ensures var s := ChooserStep(old(t.nodes), t.historyTemp, k, o, t.maxKey, size, isTTY, strip);
      && (goOn <==> s.Continue?)
      && t.nodes == s.nodes && printed == s.printed
      && (goOn ==> next == s.cursor)
      && (!goOn ==> ending == s.ending && history == s.history)
  {
    goOn, next, printed, ending, history := false, k, [], Crashed, None;
    if !NoChoices(t.nodes, k) && !Resolvable(t.nodes, k, o, isTTY, strip) {
      var _ := GetChoices(t, k);
      return;
    }
    var up := t.nodes[k].parent;
    var chosen, pr, err := Run(t, k, o, false, isTTY, strip);
    goOn, next, printed, ending, history := SettleRound(t, up, chosen, pr, err, size);
  }

  /** The statements of the loop body of `Chooser` after `Run` returned. */
  method SettleRound(t: Tree, up: Option<nat>, chosen: Option<nat>, pr: seq<string>, err: Option<RunError>, size: int)
      returns (goOn: bool, next: nat, printed: seq<string>, ending: Ending, history: Option<Raw>)
    requires WellFormed(t.nodes) && (chosen.Some? ==> chosen.value < |t.nodes|)
    requires (up.Some? ==> up.value < |t.nodes|)
    requires t.historyTemp.Some? ==> t.historyTemp.value < |t.nodes|
    modifies t
    ensures t.historyTemp == old(t.historyTemp)
    ensures var s := Settle(RunResult(old(t.nodes), chosen, pr, err), up, t.historyTemp, size);
      && (goOn <==> s.Continue?)
      && t.nodes == s.nodes && printed == s.printed
      && (goOn ==> next == s.cursor)
      && (!goOn ==> ending == s.ending && history == s.history)
  {
    goOn, next, printed, ending, history := false, 0, pr, Crashed, None;
    if err.Some? {
      if Contains(Message(err.value), "no options provided") {
        if up.Some? {
          goOn, next := true, up.value;
        }
      } else {
        printed := printed + ["pwd"];
        ending := Pwd;
      }
      return;
    }
    if chosen.None? {
      ending := NoChoice;
      return;
    }
    var c := chosen.value;
    if !t.nodes[c].isCommand {
      goOn, next := true, c;
      return;
    }
    if t.historyTemp.Some? {
      var doc := FinalElementApply(t, c, size);
      ending, history := Completed(c), Some(doc);
    }
  }

  /**
    `Chooser(root, settings)`: create the options, then run the filter from
    the root, one oracle outcome per round, until the session ends.
   */
  method Chooser(t: Tree, settings: Settings, root: nat, flatParse: bool, size: int,
                 script: seq<Outcome>, isTTY: bool, strip: string -> string)
      returns (ending: Ending, printed: seq<string>, history: Option<Raw>)
    requires WellFormed(t.nodes) && root < |t.nodes|
    requires t.historyTemp.Some? ==> t.historyTemp.value < |t.nodes|
    modifies t, settings
    ensures t.historyTemp == old(t.historyTemp)
    ensures Session(t.nodes, printed, ending, history)
         == Navigate(old(t.nodes), t.historyTemp, root, script, t.maxKey, size, isTTY, strip)
    ensures settings.height == old(settings.height) + (if flatParse then 4 else 0)
  {
    var opts := CreateOptions(settings, flatParse);
    ending, printed, history := ChooserLoop(t, root, size, script, isTTY, strip);
  }

  /** The `for` loop of `Chooser`, from the root on. */
  method ChooserLoop(t: Tree, root: nat, size: int, script: seq<Outcome>, isTTY: bool, strip: string -> string)
      returns (ending: Ending, printed: seq<string>, history: Option<Raw>)
    requires WellFormed(t.nodes) && root < |t.nodes|
    requires t.historyTemp.Some? ==> t.historyTemp.value < |t.nodes|
    modifies t
    ensures t.historyTemp == old(t.historyTemp)
    ensures Session(t.nodes, printed, ending, history)
         == Navigate(old(t.nodes), t.historyTemp, root, script, t.maxKey, size, isTTY, strip)
  {
    var k: nat := root;
    printed := [];
    var i := 0;
    ghost var ht := t.historyTemp;
    ghost var goal := Navigate(t.nodes, ht, root, script, t.maxKey, size, isTTY, strip);
    while true
      invariant 0 <= i <= |script| && t.historyTemp == ht
      invariant WellFormed(t.nodes) && k < |t.nodes| && (ht.Some? ==> ht.value < |t.nodes|)
      invariant goal == After(printed, Navigate(t.nodes, ht, k, script[i..], t.maxKey, size, isTTY, strip))
      decreases |script| - i
    {
      if i == |script| {
        assert script[i..] == [];
        NavigateEmpty(t.nodes, ht, k, t.maxKey, size, isTTY, strip);
        return OutOfInput, printed, None;
      }
      assert script[i..][1..] == script[i + 1..];
      ghost var printedBefore := printed;
      var goOn, next, pr, e, h := ChooserRound(t, k, script[i..], size, isTTY, strip);
      i := i + 1;
      printed := printed + pr;
      if !goOn {
        assert goal == After(printedBefore, Session(t.nodes, pr, e, h));
        return e, printed, h;
      }
      k := next;
      AfterAfter(printedBefore, pr, Navigate(t.nodes, ht, k, script[i..], t.maxKey, size, isTTY, strip));
    }
  }
}
