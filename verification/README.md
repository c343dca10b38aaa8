# tardigrade command tree, in Dafny

tardigrade is a terminal command launcher. It reads YAML content from several
sources: the user's home directory, the working directory, the history file,
and any extra files or URLs. From that content it builds a tree of groups and
commands, and it lets the user walk the tree with a fuzzy filter widget. It
prints the command the user commits and records that command at the head of a
bounded history list.

This project models the core of that program and proves properties of the
model:

- **The tree builder** (`parser/parser.go`).
  - A label is split on `^` into content, description and `@tags`. Tags pass
    from a group to its children, except `comm`.
  - Groups come from mapping keys and commands from sequence items. A node is
    attached to its parent's `Children` map, `ChildrenSorted` list and
    `ChildKeys` footer list.
  - In flat mode, a pre-order walk renders each command that has a parent and
    offers it to one flat group `all`, skipping every `history` subtree. The
    admission filter applies there only: the flat list is exactly the admitted
    commands, in walk order.
- **The template fill** for `comm` groups (`utils/miscutils.go`).
- **The filter step** of one navigation round (`filterer/command.go`). It
  prunes the node's visible children in place, then resolves what the widget
  reports into the chosen node and the printed line.
- **The navigator** (`selecter/selecter.go`), including the history update
  made when a command is committed.
- **The reader** (`reader/reader.go`). It merges the content sources, seeds a
  missing history file, falls back to dummy content, and rewrites URL inputs.

## How the model is organised

The nodes live in an arena, a `seq<Element>`. A Go `*Element` reference between elements
becomes an index into it, and the root is node 0. `ParserTree.Tree` is the
object that owns the arena and the `HistoryTemp` slot.

Code that changes state in the source is modelled by methods:

- the `Tree` methods;
- `Filterer.GetChoices` and `Filterer.Run`;
- `Selecter.FinalElementApply` and `Selecter.Chooser`;
- `Reader.AppendMap`, on a `GoMap` object.

Each method is proved equal to a function on values: `ParserBuild.MapFrom`,
`ParserFlatten.Visit`, `Filterer.Prune`, `Filterer.RunRound`,
`Selecter.Apply`, `Selecter.Navigate` or `Reader.Merge`. The properties are
then proved about those functions.

The decoded YAML document is `Yaml.Raw`. A mapping is an ordered list of
entries with distinct keys; the list order stands in for Go's map iteration
order. Formatting a mapping with `%v` sorts its keys, as Go's `fmt` does, so
a label made from a mapping does not depend on that order.

Several things are outside the model and enter as oracles or values:

- **The filter widget.** Its report is a `Filterer.Outcome`, and `Chooser`
  consumes a script of them, one per round.
- **The terminal test and the ANSI stripper.** These are parameters.
- **YAML decoding.** A function from text to entries.
- **The HTTP client.** A function from URL to optional text.
- **The file system.** A `Reader.FileSystem` value.

Go's package-level settings are passed in as a `Globals.Config` record.

Where the Go code would dereference nil, the model handles it in one of two
ways. Inside `Chooser`, the session ends in the `Crashed` state. Elsewhere,
the case is excluded by a precondition.

In these places the code does something a reader might not expect, and the
model does what the code does:

- The admission filter (`(dummy)` labels, tag filtering and filtering by
  anything) runs only when a command is appended to the flat group. Building
  the ordinary tree admits every node.
- A node with nothing to show sends the navigator to its parent. At the root
  this makes the next round dereference nil; it does not end the session
  cleanly. The model ends the session with `Crashed`.
- Typed text that matches nothing is printed as it was typed. No node is
  chosen and the history is not touched.
- A history size of 1 or less still yields up to two entries. The loop checks
  the bound only after it has looked at the first old entry.
- A template's placeholders are filled one field each, from the left. When
  there are more placeholders than fields, the extra `<>` stay in the text.
- Before the widget runs, the candidate list drops every group whose
  `Children` map is empty.
- In flat mode a command is rendered into its `comm` parent's template twice.
  The flattener renders it first, and then `Run` and `finalElementApply`
  render the result again.

## Model

| member | source | states |
|---|---|---|
| Parser.NewElement | parser/parser.go:131-146 | A new node carries the given label, kind and parent, with no description, tags, child keys, children or map entries |
| Parser.LabelSplit | parser/parser.go:148-163 | The content is the trimmed text before the first `^` (all of it when there is none); the description is the trimmed text between the first and second `^` (to the end when there is no second); anything after a second `^` is dropped; without `^` there is no description and no own tag |
| Parser.LabelHasNoCaret | parser/parser.go:149-157 | Neither the content nor the description of a parsed label holds `^` |
| Parser.Relabel | parser/parser.go:148-162 | The node takes its content and, when the label has a `^`, its description and tags from the label; every other field is unchanged |
| Parser.GetTagsFromDescription | parser/parser.go:216-224 | The loop that strips one `@` from each match yields the tag list `TagsOf` |
| Parser.TagsOfShape | parser/parser.go:216-224 | The tags are the `@\S+` matches in scan order, each with its leading `@` removed and duplicates kept; no tag is empty or holds white space |
| Parser.NoAtNoTags | parser/parser.go:216-218 | A description without `@` gives no tags |
| Parser.WithoutCommMembers | parser/parser.go:173-177 | The inherited tags are exactly the parent's tags other than `comm`, so `comm` never passes to a child |
| Parser.WithoutCommIdempotent | parser/parser.go:173-177 | Filtering inherited tags again removes nothing more, so a grandchild inherits the same non-`comm` tags as the child |
| Parser.AreAnyTagsCommand | parser/parser.go:231-238 | The early-exit scan returns true exactly when `comm` is among the tags |
| Parser.DoesElementHaveCommandTag | parser/parser.go:226-229 | True exactly when the node's tags include `comm` |
| Parser.AreFilterStringsInTags | parser/parser.go:201-214 | The nested loops return true exactly when some filter string is a substring of some given string |
| Parser.FilterEdgeCases | parser/parser.go:201-214 | An empty filter list matches nothing; an empty filter string matches any non-empty list of strings |
| Parser.AdmissionCases | parser/parser.go:180-199 | A `(dummy)` content is always refused. Groups, and commands outside the two filtering modes, pass otherwise. Under tag filtering a command passes iff a filter string occurs in a tag. Under filtering by anything it passes iff a filter string occurs in a tag, its content or its description |
| Parser.NoFilterStringsAdmitNoCommand | parser/parser.go:180-193 | With no filter strings, the two filtering modes refuse every command |
| Parser.TruncateString | parser/parser.go:253-270 | The rune loop returns `""` for a length of 0 or less, the whole string when its byte length is at most `length`, and otherwise its first `length` runes followed by `..` |
| Parser.TruncatedShape | parser/parser.go:253-270 | A truncated key is empty, the string itself, or a prefix of it followed by `..`; for a positive length it has at most `length + 2` runes |
| Parser.TruncatedAscii | parser/parser.go:253-270 | For one-byte runes the cut is exactly `length` characters |
| Parser.TruncatedMultiByte | parser/parser.go:257-269 | The byte/rune asymmetry: `éé` cut at 3 is `éé..`, because four bytes exceed the length although two runes do not |
| Parser.GetChildKeysAsString | parser/parser.go:240-243 | The footer starts with `\| ` and ends with ` \|` |
| Parser.FooterShowsKeys | parser/parser.go:240-251 | Every child key occurs in the footer |
| MiscUtils.BoolToCommand | utils/miscutils.go:5-10 | The label is `command` exactly for true and `group` exactly for false |
| MiscUtils.ReplaceContentWithChoices | utils/miscutils.go:12-19 | The loop equals the fold `Render`: each comma-split field, trimmed, replaces the leftmost `<>` still present |
| MiscUtils.FillWithoutPlaceholder | utils/miscutils.go:14-18 | A template without `<>` is returned unchanged, whatever the fields |
| MiscUtils.RenderEmptyChoices | utils/miscutils.go:13-16 | An empty choice string is one empty field, so it deletes only the first `<>` |
| MiscUtils.FillInOrder | utils/miscutils.go:13-17 | When no text piece or field holds `<`, the i-th trimmed field fills the i-th placeholder from the left; extra fields are ignored and unfilled placeholders stay `<>` |
| MiscUtils.RenderTwoFields | utils/miscutils.go:12-19 | A two-placeholder template rendered from `f1,f2` gives `a f1 b f2 c` with the fields trimmed |
| MiscUtils.RenderDeployExample | utils/miscutils.go:12-19 | `deploy <> to <>` with `staging, us-east` renders as `deploy staging to us-east` |
| ParserBuild.Spawn | parser/parser.go:131-146 | Creating a node appends it to the arena with the given parent and leaves every existing node as it was |
| ParserBuild.Adopt | parser/parser.go:165-171 | The parent lists the node last, shows its truncated content last among the child keys, and maps the content to it; nothing else about the parent changes |
| ParserBuild.Attach | parser/parser.go:165-178 | Attaching changes only the parent (as `Adopt` says) and the node, whose tags gain the parent's tags other than `comm` |
| ParserBuild.AddChild | parser/parser.go:148-178 | A labelled node is appended under `p`, `p` adopts it, and every other node is unchanged |
| ParserBuild.ProcessSpawn | parser/parser.go:148-178 | `NewElement` followed by `processElement` is the same as adding the node made from the parsed label |
| ParserBuild.ItemLabelsAt | parser/parser.go:119-122 | Item `k` of a sequence is formatted with `%v` (a mapping item with its keys in ascending order) and parsed as a label |
| Yaml.SortEntriesAscending | parser/parser.go:121 | Sorting the entries of a Go map leaves its keys strictly ascending |
| Yaml.AscendingUnique | parser/parser.go:121 | Ascending entry lists with the same entries are equal, so the sorted order is unique |
| Yaml.DisplayOrderFree | parser/parser.go:121 | Two maps holding the same entries print the same, whatever order they are listed in |
| Yaml.DisplaySortsKeys | parser/parser.go:121 | The item `{b: 1, a: 2}` prints as `map[a:2 b:1]` |
| ParserBuild.SliceFromFrame | parser/parser.go:119-125 | The earlier nodes other than `p` are unchanged; `p` keeps its fields and lists the new nodes after its earlier children |
| ParserBuild.SliceFromTail | parser/parser.go:119-125 | The appended nodes are the items' labels, in order, as commands under `p` that inherit its tags other than `comm` |
| ParserBuild.SliceFromShape | parser/parser.go:119-125 | The items become, in order, the next commands under `p`; the only other change is that `p` lists them |
| ParserBuild.MapFromFrame | parser/parser.go:104-117 | `RecurseMap` under `p` changes no older node except `p`; `p` keeps its fields and earlier children and gains one child per entry whose value is a mapping or a sequence |
| ParserBuild.MapFromKids | parser/parser.go:104-117 | The children `p` gains are new groups, one per mapping or sequence value, in entry order, each with its key's content |
| ParserBuild.EntryValueTop | parser/parser.go:106-115 | Classification: a scalar value attaches nothing; a mapping or sequence value adds one group under `p`, named by the key, and changes no other existing node |
| ParserBuild.EntryValueCommands | parser/parser.go:112-114 | The items of a sequence value become the commands of the new group, in order, and its only children |
| ParserBuild.EntryValueGroups | parser/parser.go:109-111 | The mapping and sequence entries of a mapping value become the subgroups of the new group, in order |
| ParserBuild.KeyedByHasContents | parser/parser.go:170-171 | Every listed child's content is a key of the map built from the list |
| ParserBuild.KeyedByKeys | parser/parser.go:170-171 | The keys of a node's `Children` map are exactly the contents of its listed children |
| ParserBuild.KeyedByLast | parser/parser.go:170-171 | With duplicate contents the map keeps the last child, and both stay in the list: child `j` is what its content maps to iff no later child has that content |
| ParserBuild.AddChildKeysAligned | parser/parser.go:166-171 | Attaching keeps `\|ChildKeys\| == \|ChildrenSorted\|`, with each key the truncated content of the child at that position |
| ParserBuild.AddChildKeyed | parser/parser.go:170-171 | Attaching keeps every `Children` map equal to the map its `ChildrenSorted` list produces |
| ParserBuild.AddChildTags | parser/parser.go:172-177 | Attaching keeps every node's tags equal to its description's tags followed by its parent's tags other than `comm`, and keeps commands as leaves |
| ParserBuild.AddChildBuilt | parser/parser.go:165-178 | Attaching under a group preserves all the invariants of a built tree: links both ways, creation order, aligned keys, keyed map, inherited tags and command leaves |
| ParserBuild.MapFromBuilt | parser/parser.go:104-125 | `RecurseMap` from a built tree gives a built tree |
| ParserBuild.BuildBuilt | parser/parser.go:52-54 | Building a document under a fresh root gives a built tree |
| ParserFlatten.Rendered | parser/parser.go:80-88 | A command under a `comm` parent takes the parent's template rendered with its own content; any other node is unchanged, and only the content can change |
| ParserFlatten.AppendToFlat | parser/parser.go:97-102 | An admitted node is appended to the flat list and mapped by its content; a refused node leaves the flat group unchanged |
| ParserFlatten.RenderInPlace | parser/parser.go:85-86 | Rendering a command in place changes only its content, so the tree's shape is kept |
| ParserFlatten.Visit | parser/parser.go:76-95 | The walk changes node contents only, never the tree's structure |
| ParserFlatten.VisitSound | parser/parser.go:76-95 | The walk from `k` changes no node outside `k`'s subtree, keeps what the flat list held, and appends only admitted commands with a parent from that subtree that were not named `history` |
| ParserFlatten.VisitKidsSound | parser/parser.go:92-94 | The loop over the children from `j` on changes and appends only nodes below those children |
| ParserFlatten.FlattenSound | parser/parser.go:52-102 | Flattening a built tree from `p`: every flat entry lies below `p`, is a command with a parent, was not named `history`, and passes the admission filter with its final content; nodes outside the subtree keep their contents |
| FlattenOrder.Collected | parser/parser.go:80-101 | What the flat list takes from a listing holds exactly the commands with a parent in it that pass the admission filter once rendered |
| FlattenOrder.PreOrderMembers | parser/parser.go:76-94 | A node is in the walk order from `p` exactly when it lies below `p` and no node on its way up to `p` is named `history` |
| FlattenOrder.VisitExact | parser/parser.go:76-95 | From any point of the walk where `k`'s subtree is untouched, the walk from `k` appends exactly the collected nodes of `k`'s order, keys them by rendered content in the flat map, and renders exactly the commands with a parent in that order |
| FlattenOrder.VisitKidsExact | parser/parser.go:92-94 | The loop over the children from `j` on appends the collected nodes of those children's orders, one subtree after the other |
| FlattenOrder.FlatKeyedIsKeyedBy | parser/parser.go:97-101 | Offering nodes one by one builds the map that keying the list by final contents gives, a later node winning |
| FlattenOrder.FlattenExact | parser/parser.go:52-102 | Flattening a built tree from `p`: the flat list is exactly the admitted commands with a parent, in pre-order with `history` subtrees skipped; exactly those commands in that order are rendered, all other nodes are unchanged; and the flat map is keyed by the list as every node's map is |
| ParserTree.HistoryChildFound | parser/parser.go:55 | In a built tree the history slot is set exactly when the node has a child named `history`, and then it is such a child |
| ParserTree.RenderElement | parser/parser.go:80-88 | The rendering step computes `Rendered` |
| ParserTree.Tree.NewChild | parser/parser.go:131-146 | The arena gains the new node at the end and the new index is returned |
| ParserTree.Tree.ProcessElementToParent | parser/parser.go:165-178 | The parent gains the truncated key, the map entry and the list entry; the node gains the parent's non-`comm` tags; nothing else changes |
| ParserTree.Tree.InheritTags | parser/parser.go:172-177 | The loop appends exactly the parent's tags other than `comm`, in order, to the node's tags |
| ParserTree.Tree.ProcessElement | parser/parser.go:148-163 | Relabelling and then attaching gives the arena `Process` describes |
| ParserTree.Tree.RecurseSlice | parser/parser.go:119-125 | The loop gives the arena `SliceFrom` describes: one command per item, labelled by the item's `%v` text, a mapping's keys in ascending order |
| ParserTree.Tree.RecurseMap | parser/parser.go:104-117 | The recursive loop gives the arena `MapFrom` describes |
| ParserTree.Tree.AppendToFlatParent | parser/parser.go:97-102 | The flat group after the call is `AppendToFlat` |
| ParserTree.Tree.PostProcess | parser/parser.go:76-95 | The walk in place gives the arena and flat group `Visit` describes |
| ParserTree.Tree.PostProcessCommand | parser/parser.go:80-94 | At a command with a parent: render, offer to the flat group, then walk the children |
| ParserTree.Tree.PostProcessKids | parser/parser.go:92-94 | The loop over the children equals `VisitKids` |
| ParserTree.Tree.FlattenUnder | parser/parser.go:58-71 | The root takes the flat group's list and map, and an empty flat list is the error `No children found` |
| ParserTree.Tree.BuildUnder | parser/parser.go:54 | Building keeps the arena well formed and equal to `MapFrom` |
| ParserTree.Tree.MainRecurseMap | parser/parser.go:52-74 | Build the tree and remember the `history` group; then, in flat mode only, flatten with its error, otherwise return no error |
| ParserTree.Tree.SimpleElementToMap | parser/parser.go:41-49 | The one-key document mapping the node's content to its children's contents in order |
| ParserTree.PlainItemsRoundTrip | parser/parser.go:119-125 | Trimmed texts without `^`, read back as sequence items, parse as labels with exactly those contents, no description and no tags |
| Filterer.Pruned | filterer/command.go:159-165 | The kept children are drawn from the old list |
| Filterer.PrunedMembers | filterer/command.go:159-177 | A child is kept exactly when it is listed and is a command or has a non-empty map |
| Filterer.PrunedSubsequence | filterer/command.go:159-167 | The kept list is an order-preserving subsequence of the old list |
| Filterer.Prune | filterer/command.go:155-169 | Only node `k` changes, and its `Children` map, parent, content, description, tags and kind are kept. The new list holds exactly the listed children that are commands or have a non-empty map, in their old order (a subsequence of the old list). Key `j` is the truncated content of kept child `j` |
| Filterer.GetChoices | filterer/command.go:155-169 | The loop leaves the node as `Prune` says and returns the untruncated contents of the kept list, index-aligned with it |
| Filterer.PruningDiverges | filterer/command.go:166-167 | An example of the map/list divergence: in a small arena, a group with an empty map leaves the list but keeps its entry in the parent's map (in general, `Prune` keeps the map as it was) |
| Filterer.NoOptionsRecognised | filterer/command.go:37-39 | The empty-choices error is recognised by its text `no options provided`, and the abort error is not |
| Filterer.AllShown | filterer/command.go:103-109 | Each selected text is printed as it is on a terminal and stripped otherwise, in order |
| Filterer.Up | filterer/command.go:114-119 | "Left" goes to the parent, or stays at the node when it is the root |
| Filterer.ResolveByCursor | filterer/command.go:110-122 | The cursor indexes the widget's match list, in match order, and the chosen node is the one the map files under the matched text; in a content-keyed map its content is that text |
| ParserBuild.KeyedByContent | filterer/command.go:121 | Every map built from a child list sends each key to a listed child with that content |
| Filterer.BuiltContentKeyed | filterer/command.go:121 | In a built tree every node's map is content-keyed |
| Filterer.ResolveLeft | filterer/command.go:114-119 | "Left" resolves to the parent, or to the node itself at the root |
| Filterer.ResolveNil | filterer/command.go:97-110 | A node is chosen iff nothing was multi-selected and the cursor is inside the match list |
| Filterer.ResolvePrinted | filterer/command.go:123-151 | A chosen command prints the matched text, rendered with the parent's template when the parent has `comm`; a chosen group prints nothing; without a choice only the passthrough is printed |
| Filterer.ResolvePassthrough | filterer/command.go:149-151 | Non-strict mode prints typed text with no matches verbatim, as the last line; strict mode prints everything else the same |
| Filterer.RunErrors | filterer/command.go:35-93 | Empty choices give `no options provided` before the widget runs, with the pruning already done. A failure or abort gives no node and no output, and abort gives the abort error. A finished widget gives no error |
| Filterer.ResolvePruned | filterer/command.go:35-146 | Pruning leaves everything the resolution reads as it was |
| Filterer.CursorPickPruned | filterer/command.go:110-146 | Pruning leaves the node the cursor picks, and its printed line, as they were |
| Filterer.Run | filterer/command.go:23-153 | The method prunes, fails on empty choices, passes a widget failure or abort on, or resolves the widget's report, all as `RunRound` says |
| Filterer.ResolveOutcome | filterer/command.go:102-152 | The tail of `Run` computes `Resolve` |
| Filterer.ShowAll | filterer/command.go:102-109 | The print loop yields `AllShown` |
| Filterer.ResolveCursor | filterer/command.go:110-146 | The cursor branch computes `CursorPick` |
| Filterer.NoCommaSplit | utils/miscutils.go:13 | A choice string without a comma is a single field |
| Filterer.DoubleRendering | filterer/command.go:124-125 | In flat mode the already rendered command `a f1 b f2 c` is rendered into the template `a<>b<>c` once more. The whole first rendering lands in the first placeholder, and the second `<>` stays |
| Selecter.CreateOptions | selecter/selecter.go:40-46 | The limit is 1 and the options are not strict. Flat mode adds 4 to the settings' height in place, and the options take that height |
| Selecter.Kept | selecter/selecter.go:74-77 | The kept history entries are old entries whose content differs from the committed one |
| Selecter.KeptMembers | selecter/selecter.go:74-77 | An old entry is kept exactly when its content differs from the committed one |
| Selecter.KeptAppend | selecter/selecter.go:74-77 | Filtering a list in two pieces is filtering it whole |
| Selecter.HistoryShape | selecter/selecter.go:71-82 | The committed node comes first, no later entry has its content, and the later entries are old entries in their old order |
| Selecter.HistoryBound | selecter/selecter.go:74-81 | With a size of at least 2 the list holds at most `size` entries, otherwise at most 2; below the bound no differing old entry is lost |
| Selecter.HistoryDistinct | selecter/selecter.go:71-82 | If the old history had no duplicate contents, neither has the new one |
| Selecter.SubsequenceDistinct | selecter/selecter.go:74-77 | An order-preserving selection from a duplicate-free list is duplicate-free |
| Selecter.HistoryDocLeads | selecter/selecter.go:84 | The serialized history of a list led by `c` starts with `c`'s content and never repeats it |
| Selecter.ApplyHistory | selecter/selecter.go:59-84 | After the commit, the command's content is its rendering. The written document has one key, the history node's content, and its list starts with the command's content and never repeats it |
| Selecter.WriteHistoryLeads | selecter/selecter.go:69-84 | Writing the history changes no content, and the document is led by the committed command |
| Selecter.CommitContent | selecter/selecter.go:62-67 | The committed node's content is replaced by its rendering in place, and nothing else changes |
| Selecter.BuildHistory | selecter/selecter.go:71-81 | The early-breaking loop builds exactly `HistoryList` |
| Selecter.HistoryAtBreak | selecter/selecter.go:78-80 | Breaking when the list fills gives `HistoryList` |
| Selecter.HistoryAtEnd | selecter/selecter.go:74-81 | Running out of old entries gives `HistoryList` |
| Selecter.FinalElementApply | selecter/selecter.go:59-84 | Render in place, give the history node its new list and serialize it, all as `Apply` says |
| Selecter.HistoryReadBack | selecter/selecter.go:84 | The serialized history, read back, is one group whose commands are the written texts, in order, when they are trimmed and free of `^` |
| Selecter.ChooserStep | selecter/selecter.go:114-142 | A round that goes on keeps the arena well formed and points at a node of it |
| Selecter.Settle | selecter/selecter.go:115-142 | The same for the handling of `Run`'s result |
| Selecter.StepNoOptions | selecter/selecter.go:115-120 | A node with nothing to show sends the loop to its parent, with the node pruned and nothing printed |
| Selecter.StepOtherError | selecter/selecter.go:121-124 | An aborted widget, or a failed one whose error text does not mention "no options provided", prints `pwd` and ends the session |
| Selecter.StepOnError | selecter/selecter.go:115-124 | Any error `Run` reports whose text does not mention "no options provided" prints `pwd` and ends the session, with the node pruned |
| Selecter.SettleError | selecter/selecter.go:115-124 | After `Run`, an error other than "no options provided" adds `pwd` to what was printed and stops |
| Selecter.StepResult | selecter/selecter.go:127-142 | A chosen group becomes the cursor. A chosen command is committed with the history written, and the session stops. No pick stops the session and leaves the history alone |
| Selecter.StepWritesHistory | selecter/selecter.go:131-134 | A round that completes writes a history led by the committed command |
| Selecter.SettleWritesHistory | selecter/selecter.go:131-134 | Completion happens only through `Apply` |
| Selecter.CompletedWritesHistory | selecter/selecter.go:112-143 | Every session that ends on a command has written a history whose first item is that command's content and whose other items differ from it |
| Selecter.NavigateEmpty | selecter/selecter.go:112-114 | With no widget report left, the session ends for want of input |
| Selecter.NavigateRound | selecter/selecter.go:112-143 | A session is its first round followed by the rest |
| Selecter.ChooserPass | selecter/selecter.go:114-142 | The loop body does what `ChooserStep` says |
| Selecter.SettleRound | selecter/selecter.go:115-142 | The loop body after `Run` does what `Settle` says |
| Selecter.ChooserRound | selecter/selecter.go:114-142 | One pass of the loop is the first step of `Navigate` |
| Selecter.ChooserLoop | selecter/selecter.go:110-143 | The loop from the root produces the session `Navigate` describes |
| Selecter.Chooser | selecter/selecter.go:101-146 | The options are created (flat mode raising the height by 4), and the printed lines, ending, history document and final arena are the session `Navigate` describes from the root |
| Reader.AssignLookup | reader/reader.go:313 | After `m[key] = v`, `key` is looked up as `v` and every other key as before |
| Reader.AssignKeepsKeys | reader/reader.go:313 | Keys already present keep their places |
| Reader.AssignAppends | reader/reader.go:313 | A key that was absent is added at the end |
| Reader.AssignDistinct | reader/reader.go:313 | Assigning keeps the keys distinct |
| Reader.AssignPresent | reader/reader.go:313 | Assigning the value a key already has changes nothing |
| Reader.Merge | reader/reader.go:311-315 | Merging keeps distinct keys distinct and keeps the left map's keys in their places |
| Reader.MergeLookup | reader/reader.go:311-316 | The right map wins: a key of `m2` has `m2`'s value, a key only in `m1` keeps its value, and no other key appears |
| Reader.MergeHeld | reader/reader.go:311-315 | Merging entries the map already holds changes nothing |
| Reader.MergeSelf | reader/reader.go:304-317 | Merging a map into itself leaves it as it was |
| Reader.GoMap.Put | reader/reader.go:313 | The entries become the assignment of `v` to `key` |
| Reader.AppendMap | reader/reader.go:304-317 | Both nil gives nil; `m1` nil gives `m2` itself; otherwise `m1` is returned and holds the right-biased merge of the two old maps |
| Reader.WriteFile | reader/reader.go:211-230 | A creatable path then holds the content; otherwise nothing changes; other paths are untouched |
| Reader.HistorySeedLines | reader/reader.go:176-181 | The seed text is the line `history:`, the line `  - pwd` and an empty tail |
| Reader.SeedHistoryEffect | reader/reader.go:133-145 | An existing history file is never overwritten. A missing one is created with the seed text when it can be, and stays missing otherwise. No other path changes |
| Reader.RewritePlain | reader/reader.go:57-58 | A text without `/http` passes the rewrite unchanged |
| Reader.RewriteLeadingSlash | reader/reader.go:57-58 | `/https://…` and `/http://…` are dispatched as URLs and lose only their leading slash, when the rest holds no further `/https://` or `/http://` and does not itself start with a scheme |
| Reader.LastValue | reader/reader.go:341-347 | A key's value is taken from some present source that holds it |
| Reader.MergeAllLookup | reader/reader.go:341-347 | The merge is nil exactly when every source is nil; otherwise each key has the value of the last source holding it |
| Reader.FileSourcesDistinct | reader/reader.go:152-171 | Every extra input that yields content yields a decoded Go map with distinct keys |
| Reader.DummyBodyLines | reader/reader.go:184-187 | The dummy body is the lines `group10:`, `  - ls -la`, `  - echo hi` and an empty tail, joined by line breaks |
| Reader.DummyStrLines | reader/reader.go:183-189 | The prefix goes verbatim in front of the group name: the lines are `prefix + "group10:"`, `  - ls -la`, `  - echo hi` and an empty tail |
| Reader.RawContentLookup | reader/reader.go:333-355 | The dummy content is used exactly when no source could be read. Otherwise each key has the value of the last source holding it, in the order home, local, history, extra inputs |
| Reader.SourcesDistinct | reader/reader.go:24-31 | Every source the reader merges is a decoded Go map with distinct keys |
| Reader.FilesIgnored | reader/reader.go:345-347 | Under tag filtering or filtering by anything, the extra inputs are neither fetched nor read, and the content is that of the three base sources alone |
| Reader.GetUserHomeFileContent | reader/reader.go:100-117 | A fresh decoded map of the file under the home directory, or nil when there is no home directory or no file |
| Reader.GetLocalContent | reader/reader.go:88-98 | A fresh decoded map of the local content file, or nil |
| Reader.GetHistoryContent | reader/reader.go:133-145 | The file system is seeded, and then the history file is read from it |
| Reader.AppendFileListContent | reader/reader.go:147-174 | The inputs are merged in order into `m`, skipping those that yield nothing; a non-nil `m` is the map returned |
| Reader.MergeAllAppend | reader/reader.go:341-347 | Merging two runs of sources in turn is merging them together |
| Reader.GetRawMapContent | reader/reader.go:333-355 | The result is `RawContent`: the sources merged in order, or the dummy content when all are nil. The history is seeded as a side effect |

## Left out

- Terminal widget: the Bubble Tea widget, fuzzy and exact matching, and the
  widget setup in `Options.Run` (filterer/command.go:25-90) are left out. The
  widget's report is an oracle (`Filterer.Outcome`); TTY detection and the
  ANSI stripper are parameters.
- I/O: file reads and writes, `os.Stat`, `os.Mkdir`, the HTTP client and YAML
  marshalling and unmarshalling are oracles or values. `Reader.FileSystem`
  treats a file that exists but cannot be read as missing. A decoding error,
  which the Go code only logs, is whatever the decoder function returns.
- Reader.WriteFile: a failure after the file was created (a partial write, or
  a close error) is not modelled; the write either happens whole or not at
  all.
- Selecter.FinalElementApply: the marshalling of the history document and its
  write to the history path (selecter/selecter.go:86-98) are left out. The
  method returns the document instead.
- `CreateNewUserContentFile`, `CreateNewLocalContentFile`,
  `CheckContentFileExists`, `CreateNewContentFile`, `checkFileExists`,
  `getUserDirName`, `DumpMapAsYaml` and `Marshall` (reader/reader.go) are not
  modelled. They are setup and debugging helpers outside the merge; the model
  keeps the one thing they share with it, `getDummyStr`.
- Go map iteration order: it is random in Go and is modelled as list order.
  With distinct keys, `Reader.MergeLookup` shows that no lookup depends on
  it, and `Yaml.DisplayOrderFree` shows that no `%v` label does. The order of
  siblings built from a mapping is the list order, and no property claims a
  particular order. Keys are compared character by character, which for
  string keys is the byte order Go's `fmt` sorts by; keys of other YAML types
  are strings in this model.
- Reader.Merge: states its lookups through `Reader.MergeLookup`, not
  position by position. Positions depend on the iteration order the model
  fixes.
- Logging (`logger`), the output sinks and clipboard (`action`), the
  command-line and settings-file handling (`main.go`) and the package-level
  globals are left out. The globals are passed in as `Globals.Config`.
- Filterer.Run: if the matched text is not a key of `Children`, or a chosen
  command has no parent, the Go code dereferences nil. Here these cases are
  excluded by the precondition `Resolvable`; `Selecter.ChooserStep` ends such
  a round with `Crashed`.
- ParserTree.Tree.RecurseMap: a null mapping value makes the Go code panic
  when it asks for the value's type; the model requires that there is none
  (`NoNullMapValues`).
- Selecter.FinalElementApply: requires the history node to exist; the Go code
  dereferences nil without one. `Selecter.Settle` ends such a session with
  `Crashed`.
- Selecter.Settle: "no options" at the root sets the cursor to nil, and the
  next round dereferences it; the model ends the session with `Crashed` at
  once, without running that round.
- ParserTree.Tree.BuildUnder: its own contract states only well-formedness;
  the full set of invariants of a built tree is `ParserBuild.MapFromBuilt`,
  about the same function `MapFrom`.
- `GetHistoryPath` is modelled only through the home directory being present
  or absent (an `Option`); no other error of `os.UserHomeDir` is.
