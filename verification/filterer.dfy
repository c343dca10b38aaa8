/**
  The filter step of one navigation round: the node's visible children are
  pruned in place, the filter widget is run, and what it reports (a cursor
  into its match list, the "left" key, an abort or typed text) is resolved
  into the chosen node and the printed text. The widget itself is an oracle.
 */
module Filterer {
  import opened Wrappers
  import opened GoStrings
  import opened Parser
  import opened ParserBuild
  import opened ParserTree
  import opened MiscUtils

  // ---------------------------------------------------------------- pruning

  /** `elementPassesPostCriteria`: a group with an empty `Children` map is hidden. */
  predicate PassesPostCriteria(e: Element) {
    !(!e.isCommand && |e.children| < 1)
  }

  /** The children `kids` that pass the post criteria, in their order. */
  function Pruned(ns: seq<Element>, kids: seq<nat>): (r: seq<nat>)
    requires forall j :: 0 <= j < |kids| ==> kids[j] < |ns|
    ensures |r| <= |kids|
    ensures forall j :: 0 <= j < |r| ==> r[j] in kids
    decreases |kids|
  {
    if kids == [] then []
    else if PassesPostCriteria(ns[kids[0]]) then [kids[0]] + Pruned(ns, kids[1..])
    else Pruned(ns, kids[1..])
  }

  /** `a` is `b` with some entries left out, the rest kept in order. */
  predicate SubsequenceOf(a: seq<nat>, b: seq<nat>)
    decreases |b|
  {
    if a == [] then true
    else if b == [] then false
    else (a[0] == b[0] && SubsequenceOf(a[1..], b[1..])) || SubsequenceOf(a, b[1..])
  }

  /** A node survives the pruning exactly when it is listed and passes. */
  lemma {:induction false} PrunedMembers(ns: seq<Element>, kids: seq<nat>)
    requires forall j :: 0 <= j < |kids| ==> kids[j] < |ns|
    ensures forall x :: x in Pruned(ns, kids) <==> x in kids && PassesPostCriteria(ns[x])
    decreases |kids|
  {
    if kids != [] {
      PrunedMembers(ns, kids[1..]);
      assert forall x :: x in kids <==> x == kids[0] || x in kids[1..];
    }
  }

  /** The pruned list keeps the old order: it is a subsequence of it. */
  lemma {:induction false} PrunedSubsequence(ns: seq<Element>, kids: seq<nat>)
    requires forall j :: 0 <= j < |kids| ==> kids[j] < |ns|
    ensures SubsequenceOf(Pruned(ns, kids), kids)
    decreases |kids|
  {
    if kids != [] {
      PrunedSubsequence(ns, kids[1..]);
      var rest := Pruned(ns, kids[1..]);
      if PassesPostCriteria(ns[kids[0]]) {
        assert ([kids[0]] + rest)[1..] == rest;
      } else if rest != [] {
        assert SubsequenceOf(rest, kids[1..]);
      }
    }
  }

  /** One more child: it is kept at the end when it passes. */
  lemma {:induction false} PrunedSnoc(ns: seq<Element>, kids: seq<nat>, x: nat)
    requires forall j :: 0 <= j < |kids| ==> kids[j] < |ns|
    requires x < |ns|
    ensures Pruned(ns, kids + [x]) == Pruned(ns, kids) + (if PassesPostCriteria(ns[x]) then [x] else [])
    decreases |kids|
  {
    if kids == [] {
      assert [x][1..] == [];
    } else {
      assert (kids + [x])[1..] == kids[1..] + [x];
      PrunedSnoc(ns, kids[1..], x);
    }
  }

  /** The truncated contents of the nodes `ids`, in order: the new `ChildKeys`. */
  function TruncatedContents(ns: seq<Element>, ids: seq<nat>, maxKey: int): (ks: seq<string>)
    requires forall j :: 0 <= j < |ids| ==> ids[j] < |ns|
    ensures |ks| == |ids|
    ensures forall j :: 0 <= j < |ids| ==> ks[j] == Truncated(ns[ids[j]].content, maxKey)
    decreases |ids|
  {
    if ids == [] then [] else TruncatedContents(ns, ids[..|ids| - 1], maxKey) + [Truncated(ns[ids[|ids| - 1]].content, maxKey)]
  }

  /** One pass of the `getChoices` loop over the children, on the kept list. */
  lemma PrunedStep(ns: seq<Element>, kids: seq<nat>, i: nat)
    requires forall j :: 0 <= j < |kids| ==> kids[j] < |ns|
    requires i < |kids|
    ensures Pruned(ns, kids[..i + 1]) == Pruned(ns, kids[..i]) + (if PassesPostCriteria(ns[kids[i]]) then [kids[i]] else [])
  {
    assert kids[..i + 1] == kids[..i] + [kids[i]];
    PrunedSnoc(ns, kids[..i], kids[i]);
  }

  /** One pass of that loop, on the contents and keys of the kept children. */
  lemma KeptStep(ns: seq<Element>, kept: seq<nat>, x: nat, maxKey: int)
    requires forall j :: 0 <= j < |kept| ==> kept[j] < |ns|
    requires x < |ns|
    ensures Contents(ns, kept + [x]) == Contents(ns, kept) + [ns[x].content]
    ensures TruncatedContents(ns, kept + [x], maxKey) == TruncatedContents(ns, kept, maxKey) + [Truncated(ns[x].content, maxKey)]
  {
    assert (kept + [x])[..|kept|] == kept;
  }

  /**
    The node `k` after `getChoices`: its list keeps the children that pass,
    its keys are their truncated contents, and nothing else changes.
   */
  function Prune(ns: seq<Element>, k: nat, maxKey: int): (r: seq<Element>)
    requires WellFormed(ns) && k < |ns|
    ensures |r| == |ns| && WellFormed(r)
    ensures forall x :: 0 <= x < |ns| && x != k ==> r[x] == ns[x]
    ensures r[k].children == ns[k].children && r[k].parent == ns[k].parent
    ensures r[k].content == ns[k].content && r[k].tags == ns[k].tags && r[k].isCommand == ns[k].isCommand
    ensures r[k].description == ns[k].description
    ensures forall x :: x in r[k].childrenSorted <==> x in ns[k].childrenSorted && PassesPostCriteria(ns[x])
    ensures SubsequenceOf(r[k].childrenSorted, ns[k].childrenSorted)
    ensures |r[k].childKeys| == |r[k].childrenSorted|
    ensures forall j :: 0 <= j < |r[k].childKeys| ==>
      r[k].childKeys[j] == Truncated(ns[r[k].childrenSorted[j]].content, maxKey)
  {
    var kept := Pruned(ns, ns[k].childrenSorted);
    PrunedMembers(ns, ns[k].childrenSorted);
    PrunedSubsequence(ns, ns[k].childrenSorted);
    ns[k := ns[k].(childKeys := TruncatedContents(ns, kept, maxKey), childrenSorted := kept)]
  }

  /**
    `getChoices(element)`: keep the children that pass the post criteria,
    make `ChildKeys` their truncated contents and `ChildrenSorted` the kept
    list, and return their full contents. The `Children` map is not touched.
   */
  method GetChoices(t: Tree, k: nat) returns (choices: seq<string>)
    requires WellFormed(t.nodes) && k < |t.nodes|
    modifies t
    ensures t.nodes == Prune(old(t.nodes), k, t.maxKey)
    ensures choices == Contents(old(t.nodes), Pruned(old(t.nodes), old(t.nodes[k].childrenSorted)))
    ensures t.historyTemp == old(t.historyTemp)
  {
    var ns := t.nodes;
    var kids := ns[k].childrenSorted;
    choices := [];
    var compressed: seq<string> := [];
    var kept: seq<nat> := [];
    for i := 0 to |kids|
      invariant kept == Pruned(ns, kids[..i])
      invariant choices == Contents(ns, kept)
      invariant compressed == TruncatedContents(ns, kept, t.maxKey)
      invariant t.historyTemp == old(t.historyTemp)
    {
      PrunedStep(ns, kids, i);
      var child := ns[kids[i]];
      if PassesPostCriteria(child) {
        KeptStep(ns, kept, kids[i], t.maxKey);
        choices := choices + [child.content];
        var key := TruncateString(child.content, t.maxKey);
        compressed := compressed + [key];
        kept := kept + [kids[i]];
      }
    }
    assert kids[..|kids|] == kids;
    t.nodes := ns[k := ns[k].(childKeys := compressed, childrenSorted := kept)];
  }

  /**
    Map/list divergence: a child group with an empty map is dropped from the
    list but keeps its entry in the parent's `Children` map.
   */
  lemma PruningDiverges()
    ensures var ns := [
          Element("root", false, "", [], ["g", "ls"], None, [1, 2], map["g" := 1, "ls" := 2]),
          Element("g", false, "", [], [], Some(0), [], map[]),
          Element("ls", true, "", [], [], Some(0), [], map[])];
      && Pruned(ns, ns[0].childrenSorted) == [2]
      && "g" in ns[0].children && ns[0].children["g"] !in Pruned(ns, ns[0].childrenSorted)
  {
    var ns := [
          Element("root", false, "", [], ["g", "ls"], None, [1, 2], map["g" := 1, "ls" := 2]),
          Element("g", false, "", [], [], Some(0), [], map[]),
          Element("ls", true, "", [], [], Some(0), [], map[])];
    assert [1, 2][1..] == [2] && [2][1..] == [];
  }

  // ---------------------------------------------------------------- the widget oracle

  /** What the filter widget reports when it returns. */
  datatype Outcome =
    | Failed(reason: string)   // the terminal program itself failed
    | Aborted                  // the user pressed Ctrl+C
    | Finished(selected: seq<string>, matches: seq<string>, cursor: int, left: bool, typed: string)

  /** The errors `Run` returns. */
  datatype RunError = NoOptions | AbortedErr | RunFailed(reason: string)

  /** The text of each error. */
  function Message(e: RunError): string {
    match e
    case NoOptions => "no options provided, see `gum filter --help`"
    case AbortedErr => "aborted"
    case RunFailed(reason) => "unable to run filter: " + reason
  }

  /** The navigator recognises the empty-choices error by its text. */
  lemma NoOptionsRecognised()
    ensures Contains(Message(NoOptions), "no options provided")
    ensures !Contains(Message(AbortedErr), "no options provided")
  {
    var m := Message(NoOptions);
    assert OccursAt(m, "no options provided", 0) by {
      assert m[0..19] == "no options provided";
    }
    OccursContains(m, "no options provided", 0);
  }

  /** The result of one round: the chosen node, if any, and the printed lines. */
  datatype Resolution = Resolution(chosen: Option<nat>, printed: seq<string>)

  /** The match text as used: itself on a terminal, ANSI-stripped otherwise. */
  function Shown(s: string, isTTY: bool, strip: string -> string): string {
    if isTTY then s else strip(s)
  }

  /** Each text of `ss` as used, in order. */
  function AllShown(ss: seq<string>, isTTY: bool, strip: string -> string): (r: seq<string>)
    ensures |r| == |ss|
    ensures forall j :: 0 <= j < |ss| ==> r[j] == Shown(ss[j], isTTY, strip)
    decreases |ss|
  {
    if ss == [] then [] else AllShown(ss[..|ss| - 1], isTTY, strip) + [Shown(ss[|ss| - 1], isTTY, strip)]
  }

  /** The node "left" goes to: the parent, or the node itself at the root. */
  function Up(ns: seq<Element>, k: nat): (r: nat)
    requires WellFormed(ns) && k < |ns|
    ensures r < |ns|
    ensures r == k || Some(r) == ns[k].parent
  {
    if ns[k].parent.Some? then ns[k].parent.value else k
  }

  /**
    What the cursor or the left key picks, given the match text: the parent
    (or self) on "left", otherwise the entry of `Children` under that text.
   */
  function Pick(ns: seq<Element>, k: nat, left: bool, content: string): (r: nat)
    requires WellFormed(ns) && k < |ns|
    requires !left ==> content in ns[k].children
    ensures r < |ns|
  {
    if left then Up(ns, k) else ns[k].children[content]
  }

  /**
    The Go code would dereference nil when the cursor's text is not a key of
    `Children` or a chosen command has no parent; such outcomes are excluded.
   */
  predicate Resolvable(ns: seq<Element>, k: nat, o: Outcome, isTTY: bool, strip: string -> string)
    requires WellFormed(ns) && k < |ns|
  {
    o.Finished? && |o.selected| == 0 && 0 <= o.cursor < |o.matches| ==>
      var content := Shown(o.matches[o.cursor], isTTY, strip);
      && (!o.left ==> content in ns[k].children)
      && var c := Pick(ns, k, o.left, content);
         ns[c].isCommand ==> ns[c].parent.Some?
  }

  /** The line printed for a chosen command: rendered into a `comm` parent's template. */
  function PrintedCommand(ns: seq<Element>, c: nat, content: string): string
    requires WellFormed(ns) && c < |ns| && ns[c].parent.Some?
  {
    var parent := ns[ns[c].parent.value];
    if HasCommTag(parent) then Render(parent.content, content) else content
  }

  /** The node the cursor or "left" picks, and the line printed for it when it is a command. */
  function CursorPick(ns: seq<Element>, k: nat, o: Outcome, isTTY: bool, strip: string -> string): (r: Resolution)
    requires WellFormed(ns) && k < |ns| && o.Finished? && Resolvable(ns, k, o, isTTY, strip)
    requires |o.selected| == 0 && 0 <= o.cursor < |o.matches|
    ensures r.chosen.Some? && r.chosen.value < |ns|
  {
    var content := Shown(o.matches[o.cursor], isTTY, strip);
    var c := Pick(ns, k, o.left, content);
    Resolution(Some(c), if ns[c].isCommand then [PrintedCommand(ns, c, content)] else [])
  }

  /** The tail of `Options.Run` after the widget finished. */
  function Resolve(ns: seq<Element>, k: nat, o: Outcome, strict: bool, isTTY: bool, strip: string -> string): (r: Resolution)
    requires WellFormed(ns) && k < |ns| && o.Finished? && Resolvable(ns, k, o, isTTY, strip)
    ensures r.chosen.Some? ==> r.chosen.value < |ns|
  {
    var first :=
      if |o.selected| > 0 then Resolution(None, AllShown(o.selected, isTTY, strip))
      else if 0 <= o.cursor < |o.matches| then CursorPick(ns, k, o, isTTY, strip)
      else Resolution(None, []);
    var passthrough := if !strict && |o.typed| != 0 && |o.matches| == 0 then [o.typed] else [];
    Resolution(first.chosen, first.printed + passthrough)
  }

  /** A node's map sends each key to a node whose content is that key. */
  predicate ContentKeyed(ns: seq<Element>, k: nat)
    requires WellFormed(ns) && k < |ns|
  {
    forall key :: key in ns[k].children ==> ns[ns[k].children[key]].content == key
  }

  /** In a built tree every node's map is content keyed. */
  lemma BuiltContentKeyed(ns: seq<Element>, maxKey: int, k: nat)
    requires Built(ns, maxKey) && k < |ns|
    ensures ContentKeyed(ns, k)
  {
    KeyedByContent(ns, ns[k].childrenSorted);
  }

  /**
    The cursor indexes the widget's match list, in match order: without
    "left", the chosen node is the one filed under the matched text, and in a
    content-keyed map that node's content is the matched text.
   */
  lemma ResolveByCursor(ns: seq<Element>, k: nat, o: Outcome, strict: bool, isTTY: bool, strip: string -> string)
    requires WellFormed(ns) && k < |ns| && o.Finished? && Resolvable(ns, k, o, isTTY, strip)
    requires |o.selected| == 0 && 0 <= o.cursor < |o.matches| && !o.left
    ensures var r := Resolve(ns, k, o, strict, isTTY, strip);
      var content := Shown(o.matches[o.cursor], isTTY, strip);
      && r.chosen == Some(ns[k].children[content])
      && (ContentKeyed(ns, k) ==> ns[r.chosen.value].content == content)
  {
  }

  /** "Left" resolves to the parent, or to the node itself at the root. */
  lemma ResolveLeft(ns: seq<Element>, k: nat, o: Outcome, strict: bool, isTTY: bool, strip: string -> string)
    requires WellFormed(ns) && k < |ns| && o.Finished? && Resolvable(ns, k, o, isTTY, strip)
    requires |o.selected| == 0 && 0 <= o.cursor < |o.matches| && o.left
    ensures var r := Resolve(ns, k, o, strict, isTTY, strip);
      && (ns[k].parent.Some? ==> r.chosen == ns[k].parent)
      && (ns[k].parent.None? ==> r.chosen == Some(k))
  {
  }

  /** A node is chosen only through a valid cursor; otherwise the result is nil. */
  lemma ResolveNil(ns: seq<Element>, k: nat, o: Outcome, strict: bool, isTTY: bool, strip: string -> string)
    requires WellFormed(ns) && k < |ns| && o.Finished? && Resolvable(ns, k, o, isTTY, strip)
    ensures Resolve(ns, k, o, strict, isTTY, strip).chosen.Some? <==>
      |o.selected| == 0 && 0 <= o.cursor < |o.matches|
  {
  }

  /**
    What is printed: for a chosen command, the matched text rendered with a
    `comm` parent's template, then the typed text when nothing matched in
    non-strict mode; for a chosen group, nothing but that passthrough.
   */
  lemma ResolvePrinted(ns: seq<Element>, k: nat, o: Outcome, strict: bool, isTTY: bool, strip: string -> string)
    requires WellFormed(ns) && k < |ns| && o.Finished? && Resolvable(ns, k, o, isTTY, strip)
    requires |o.selected| == 0
    ensures var r := Resolve(ns, k, o, strict, isTTY, strip);
      var passthrough := !strict && |o.typed| != 0 && |o.matches| == 0;
      && (r.chosen.Some? && ns[r.chosen.value].isCommand ==>
            var c := r.chosen.value;
            var content := Shown(o.matches[o.cursor], isTTY, strip);
            var parent := ns[ns[c].parent.value];
            && |r.printed| == 1
            && r.printed[0] == (if HasCommTag(parent) then Render(parent.content, content) else content))
      && (r.chosen.Some? && !ns[r.chosen.value].isCommand ==> r.printed == [])
      && (r.chosen.None? ==> r.printed == (if passthrough then [o.typed] else []))
  {
  }

  /** Non-strict mode prints typed text that matched nothing, verbatim. */
  lemma ResolvePassthrough(ns: seq<Element>, k: nat, o: Outcome, isTTY: bool, strip: string -> string)
    requires WellFormed(ns) && k < |ns| && o.Finished? && Resolvable(ns, k, o, isTTY, strip)
    requires |o.typed| != 0 && |o.matches| == 0
    ensures var r := Resolve(ns, k, o, false, isTTY, strip);
      |r.printed| >= 1 && r.printed[|r.printed| - 1] == o.typed
    ensures Resolve(ns, k, o, true, isTTY, strip).printed == Resolve(ns, k, o, false, isTTY, strip).printed[..|Resolve(ns, k, o, false, isTTY, strip).printed| - 1]
  {
  }

  /** What one call of `Options.Run` leaves: the nodes, the chosen node, the printed lines, the error. */
  datatype RunResult = RunResult(nodes: seq<Element>, chosen: Option<nat>, printed: seq<string>, err: Option<RunError>)

  /** The choices of node `k` are all pruned away. */
  predicate NoChoices(ns: seq<Element>, k: nat)
    requires WellFormed(ns) && k < |ns|
  {
    |Pruned(ns, ns[k].childrenSorted)| == 0
  }

  /**
    `Options.Run(element)` with the widget as the oracle `o`: prune the
    choices; with none left, fail before the widget runs; otherwise report
    the widget's failure or abort, or resolve what it returned.
   */
  function RunRound(ns: seq<Element>, k: nat, o: Outcome, strict: bool, isTTY: bool, strip: string -> string, maxKey: int): (r: RunResult)
    requires WellFormed(ns) && k < |ns|
    requires !NoChoices(ns, k) ==> Resolvable(ns, k, o, isTTY, strip)
    ensures WellFormed(r.nodes) && |r.nodes| == |ns|
    ensures r.chosen.Some? ==> r.chosen.value < |ns|
  {
    var pruned := Prune(ns, k, maxKey);
    if NoChoices(ns, k) then RunResult(pruned, None, [], Some(NoOptions))
    else match o
      case Failed(reason) => RunResult(pruned, None, [], Some(RunFailed(reason)))
      case Aborted => RunResult(pruned, None, [], Some(AbortedErr))
      case Finished(_, _, _, _, _) =>
        var r := Resolve(ns, k, o, strict, isTTY, strip);
        RunResult(pruned, r.chosen, r.printed, None)
  }

  /**
    The error cases of `Run`: an empty choice list is reported before the
    widget runs, yet the pruning has happened; a failure or an abort of the
    widget returns no node and prints nothing; a finished widget returns no error.
   */
  lemma RunErrors(ns: seq<Element>, k: nat, o: Outcome, strict: bool, isTTY: bool, strip: string -> string, maxKey: int)
    requires WellFormed(ns) && k < |ns|
    requires !NoChoices(ns, k) ==> Resolvable(ns, k, o, isTTY, strip)
    ensures var r := RunRound(ns, k, o, strict, isTTY, strip, maxKey);
      && r.nodes == Prune(ns, k, maxKey)
      && (r.err.Some? <==> NoChoices(ns, k) || !o.Finished?)
      && (r.err.Some? ==> r.chosen == None && r.printed == [])
      && (r.err == Some(NoOptions) <==> NoChoices(ns, k))
      && (r.err == Some(AbortedErr) <==> !NoChoices(ns, k) && o.Aborted?)
  {
  }

  /** Pruning leaves everything `Resolve` reads as it was. */
  lemma ResolvePruned(ns: seq<Element>, k: nat, o: Outcome, strict: bool, isTTY: bool, strip: string -> string, maxKey: int)
    requires WellFormed(ns) && k < |ns| && o.Finished? && Resolvable(ns, k, o, isTTY, strip)
    ensures Resolvable(Prune(ns, k, maxKey), k, o, isTTY, strip)
    ensures Resolve(Prune(ns, k, maxKey), k, o, strict, isTTY, strip) == Resolve(ns, k, o, strict, isTTY, strip)
  {
    if |o.selected| == 0 && 0 <= o.cursor < |o.matches| {
      CursorPickPruned(ns, k, o, isTTY, strip, maxKey);
    }
  }

  /** Pruning leaves what the cursor picks, and the line printed for it, as they were. */
  lemma CursorPickPruned(ns: seq<Element>, k: nat, o: Outcome, isTTY: bool, strip: string -> string, maxKey: int)
    requires WellFormed(ns) && k < |ns| && o.Finished? && Resolvable(ns, k, o, isTTY, strip)
    requires |o.selected| == 0 && 0 <= o.cursor < |o.matches|
    ensures Resolvable(Prune(ns, k, maxKey), k, o, isTTY, strip)
    ensures CursorPick(Prune(ns, k, maxKey), k, o, isTTY, strip) == CursorPick(ns, k, o, isTTY, strip)
  {
    var pr := Prune(ns, k, maxKey);
    var content := Shown(o.matches[o.cursor], isTTY, strip);
    var c := Pick(ns, k, o.left, content);
    assert Pick(pr, k, o.left, content) == c;
    PrunedReads(ns, k, maxKey, c);
    if ns[c].isCommand {
      PrunedReads(ns, k, maxKey, ns[c].parent.value);
    }
  }

  /** Pruning keeps the fields of a node that `Resolve` reads. */
  lemma PrunedReads(ns: seq<Element>, k: nat, maxKey: int, x: nat)
    requires WellFormed(ns) && k < |ns| && x < |ns|
    ensures var pr := Prune(ns, k, maxKey);
      && pr[x].isCommand == ns[x].isCommand && pr[x].parent == ns[x].parent
      && pr[x].content == ns[x].content && pr[x].tags == ns[x].tags
  {
  }

  /** `Options.Run(element)` after the widget setup. */
  method Run(t: Tree, k: nat, o: Outcome, strict: bool, isTTY: bool, strip: string -> string)
      returns (chosen: Option<nat>, printed: seq<string>, err: Option<RunError>)
    requires WellFormed(t.nodes) && k < |t.nodes|
    requires !NoChoices(t.nodes, k) ==> Resolvable(t.nodes, k, o, isTTY, strip)
    modifies t
    ensures RunResult(t.nodes, chosen, printed, err) == RunRound(old(t.nodes), k, o, strict, isTTY, strip, t.maxKey)
    ensures t.historyTemp == old(t.historyTemp)
  {
    ghost var before := t.nodes;
    var choices := GetChoices(t, k);
    chosen, printed := None, [];
    if |choices| == 0 {
      return chosen, printed, Some(NoOptions);
    }
    match o
    case Failed(reason) => return chosen, printed, Some(RunFailed(reason));
    case Aborted => return chosen, printed, Some(AbortedErr);
    case Finished(_, _, _, _, _) =>
      ResolvePruned(before, k, o, strict, isTTY, strip, t.maxKey);
      chosen, printed := ResolveOutcome(t.nodes, k, o, strict, isTTY, strip);
      return chosen, printed, None;
  }

  /** The tail of `Options.Run` that resolves what the finished widget reports. */
  method ResolveOutcome(ns: seq<Element>, k: nat, o: Outcome, strict: bool, isTTY: bool, strip: string -> string)
      returns (chosen: Option<nat>, printed: seq<string>)
    requires WellFormed(ns) && k < |ns| && o.Finished? && Resolvable(ns, k, o, isTTY, strip)
    ensures Resolution(chosen, printed) == Resolve(ns, k, o, strict, isTTY, strip)
  {
    chosen, printed := None, [];
    if |o.selected| > 0 {
      printed := ShowAll(o.selected, isTTY, strip);
    } else if |o.matches| > o.cursor && o.cursor >= 0 {
      chosen, printed := ResolveCursor(ns, k, o, isTTY, strip);
    }
    if !strict && |o.typed| != 0 && |o.matches| == 0 {
      printed := printed + [o.typed];
    }
  }

  /** The loop that prints each selected text as used. */
  method ShowAll(selected: seq<string>, isTTY: bool, strip: string -> string) returns (printed: seq<string>)
    ensures printed == AllShown(selected, isTTY, strip)
  {
    printed := [];
    for i := 0 to |selected|
      invariant printed == AllShown(selected[..i], isTTY, strip)
    {
      assert selected[..i + 1][..i] == selected[..i];
      printed := printed + [Shown(selected[i], isTTY, strip)];
    }
    assert selected[..|selected|] == selected;
  }

  /** The cursor branch: pick the node, and print a chosen command rendered into a `comm` parent's template. */
  method ResolveCursor(ns: seq<Element>, k: nat, o: Outcome, isTTY: bool, strip: string -> string)
      returns (chosen: Option<nat>, printed: seq<string>)
    requires WellFormed(ns) && k < |ns| && o.Finished? && Resolvable(ns, k, o, isTTY, strip)
    requires |o.selected| == 0 && 0 <= o.cursor < |o.matches|
    ensures Resolution(chosen, printed) == CursorPick(ns, k, o, isTTY, strip)
  {
    var content := Shown(o.matches[o.cursor], isTTY, strip);
    var c: nat;
    if o.left {
      if ns[k].parent.Some? {
        c := ns[k].parent.value;
      } else {
        c := k;
      }
    } else {
      c := ns[k].children[content];
    }
    chosen, printed := Some(c), [];
    if ns[c].isCommand {
      var parent := ns[ns[c].parent.value];
      var hasComm := DoesElementHaveCommandTag(parent);
      if hasComm {
        content := ReplaceContentWithChoices(parent.content, content);
      }
      printed := [content];
    }
  }

  /** The choice string of a command already rendered by the flattener has no comma. */
  lemma NoCommaSplit(s: string)
    requires ',' !in s
    ensures Split(s, ',') == [s]
  {
    SplitFirst(s, ',');
  }

  /**
    Double rendering in flat mode: the flattener has already rendered the
    command `f1,f2` under the template `a<>b<>c` of its `comm` parent, and
    the filter renders the result into the same template once more, so the
    whole first rendering lands in the first placeholder and the second
    placeholder stays.
   */
  lemma DoubleRendering(a: string, b: string, c: string, f1: string, f2: string)
    requires '<' !in a && '<' !in b && '<' !in c && '<' !in f1 && '<' !in f2
    requires ',' !in a && ',' !in b && ',' !in c && ',' !in f1 && ',' !in f2
    requires TrimSpace(f1) == f1 && TrimSpace(f2) == f2
    requires TrimSpace(a + f1 + b + f2 + c) == a + f1 + b + f2 + c
    ensures var template := a + Placeholder + b + Placeholder + c;
      && Render(template, f1 + [','] + f2) == a + f1 + b + f2 + c
      && Render(template, Render(template, f1 + [','] + f2)) == a + (a + f1 + b + f2 + c) + b + Placeholder + c
  {
    RenderTwoFields(a, b, c, f1, f2);
    var once := a + f1 + b + f2 + c;
    assert '<' !in once && ',' !in once;
    NoCommaSplit(once);
    FillThreeOne(a, b, c, once);
  }
}
