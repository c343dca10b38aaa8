/**
  One node of the command tree and the parts of the parser that only
  compute values: splitting a YAML label into content, description and
  `@tags`, tag inheritance, the admission filter of flat mode, the `comm`
  tag test, key truncation and the footer string of child keys.

  References between nodes are indices into the node arena kept by
  `ParserTree.Tree`; `parent` is `None` for the root and for the flat parent.
 */
module Parser {
  import opened Wrappers
  import opened GoStrings
  import opened Globals

  datatype Element = Element(
    content: string,
    isCommand: bool,
    description: string,
    tags: seq<string>,
    childKeys: seq<string>,
    parent: Option<nat>,
    childrenSorted: seq<nat>,
    children: map<string, nat>)

  /** `NewElement`: a node with the given label, kind and parent and nothing else. */
  function NewElement(key: string, isCommand: bool, parent: Option<nat>): (e: Element)
    ensures e.content == key && e.isCommand == isCommand && e.parent == parent
    ensures e.description == "" && e.tags == [] && e.childKeys == []
    ensures e.childrenSorted == [] && e.children == map[]
  {
    Element(key, isCommand, "", [], [], parent, [], map[])
  }

  /** `NewFlatParent`: the group `all` that collects the commands in flat mode. */
  function NewFlatParent(): (e: Element)
    ensures e == NewElement("all", false, None)
  {
    NewElement("all", false, None)
  }

  // ---------------------------------------------------------------- labels

  /** What `processElement` reads out of a label. */
  datatype LabelParts = LabelParts(content: string, hasComment: bool, description: string, tags: seq<string>)

  /**
    A label is split on `^`: the first token, trimmed, is the content; when a
    second token exists it is the description (trimmed) and its `@tags` are the
    node's own tags. Tokens after the second are ignored.
   */
  function ParseLabel(raw: string): LabelParts {
    var tokens := Split(raw, '^');
    if |tokens| < 2 then LabelParts(TrimSpace(tokens[0]), false, "", [])
    else
      var d := TrimSpace(tokens[1]);
      LabelParts(TrimSpace(tokens[0]), true, d, TagsOf(d))
  }

  /**
    The label split in terms of the positions of `^`: the content is the
    trimmed text before the first `^` (all of it when there is none); the
    description is the trimmed text between the first and the second `^`
    (up to the end when there is no second one); with no `^` there is no
    description and no own tag.
   */
  lemma LabelSplit(raw: string)
    ensures var lp := ParseLabel(raw);
      var i := IndexOfChar(raw, '^');
      && (i < 0 ==> lp == LabelParts(TrimSpace(raw), false, "", []))
      && (i >= 0 ==>
            var rest := raw[i + 1..];
            var j := IndexOfChar(rest, '^');
            && lp.hasComment
            && lp.content == TrimSpace(raw[..i])
            && lp.description == TrimSpace(if j < 0 then rest else rest[..j])
            && lp.tags == TagsOf(lp.description))
  {
    if IndexOfChar(raw, '^') < 0 {
      SplitFirst(raw, '^');
    } else {
      LabelSplitAt(raw);
    }
  }

  /** The case of `LabelSplit` where the label holds a `^`. */
  lemma LabelSplitAt(raw: string)
    requires IndexOfChar(raw, '^') >= 0
    ensures var lp := ParseLabel(raw);
      var i := IndexOfChar(raw, '^');
      var rest := raw[i + 1..];
      var j := IndexOfChar(rest, '^');
      && lp.hasComment
      && lp.content == TrimSpace(raw[..i])
      && lp.description == TrimSpace(if j < 0 then rest else rest[..j])
      && lp.tags == TagsOf(lp.description)
  {
    SecondToken(raw);
    LabelTokens(raw);
  }

  /** With a `^` in the label, the fields come from the first two tokens. */
  lemma LabelTokens(raw: string)
    requires |Split(raw, '^')| >= 2
    ensures var lp := ParseLabel(raw);
      && lp.hasComment
      && lp.content == TrimSpace(Split(raw, '^')[0])
      && lp.description == TrimSpace(Split(raw, '^')[1])
      && lp.tags == TagsOf(lp.description)
  {
  }

  /** The second token of a label runs from its first `^` to the next one, or to the end. */
  lemma SecondToken(raw: string)
    requires IndexOfChar(raw, '^') >= 0
    ensures var i := IndexOfChar(raw, '^');
      var rest := raw[i + 1..];
      var j := IndexOfChar(rest, '^');
      && |Split(raw, '^')| >= 2
      && Split(raw, '^')[0] == raw[..i]
      && Split(raw, '^')[1] == (if j < 0 then rest else rest[..j])
  {
    var i := IndexOfChar(raw, '^');
    SplitAt(raw, '^');
    var rest := raw[i + 1..];
    assert Split(raw, '^')[1..] == Split(rest, '^');
    FirstToken(rest);
  }

  /** The first token of a text ends at its first `^`, or at its end. */
  lemma FirstToken(rest: string)
    ensures var j := IndexOfChar(rest, '^');
      Split(rest, '^')[0] == (if j < 0 then rest else rest[..j])
  {
    if IndexOfChar(rest, '^') < 0 {
      SplitFirst(rest, '^');
    } else {
      SplitAt(rest, '^');
    }
  }

  /** Neither the content nor the description of a parsed label holds a `^`. */
  lemma LabelHasNoCaret(raw: string)
    ensures IndexOfChar(ParseLabel(raw).content, '^') < 0
    ensures IndexOfChar(ParseLabel(raw).description, '^') < 0
  {
    var tokens := Split(raw, '^');
    TrimSpaceInfix(tokens[0]);
    InfixHasNoChar(tokens[0], TrimSpace(tokens[0]), '^');
    if |tokens| >= 2 {
      TrimSpaceInfix(tokens[1]);
      InfixHasNoChar(tokens[1], TrimSpace(tokens[1]), '^');
    }
  }

  /** A piece of a string free of `c` is free of `c`. */
  lemma InfixHasNoChar(s: string, t: string, c: char)
    requires IndexOfChar(s, c) < 0
    requires exists i :: OccursAt(s, t, i)
    ensures IndexOfChar(t, c) < 0
  {
    var i :| OccursAt(s, t, i);
    forall j | 0 <= j < |t| ensures t[j] != c {
      assert t[j] == s[i..i + |t|][j] == s[i + j];
    }
  }

  /** `processElement` before the attachment: the node takes the parts of its label. */
  function Relabel(e: Element): (r: Element)
    ensures var lp := ParseLabel(e.content);
      && r.content == lp.content
      && (lp.hasComment ==> r.description == lp.description && r.tags == lp.tags)
      && (!lp.hasComment ==> r.description == e.description && r.tags == e.tags)
      && r == e.(content := r.content, description := r.description, tags := r.tags)
  {
    var lp := ParseLabel(e.content);
    if lp.hasComment then e.(content := lp.content, description := lp.description, tags := lp.tags)
    else e.(content := lp.content)
  }

  // ---------------------------------------------------------------- tags

  /** `getTagsFromDescription`: every `@\S+` match with its first `@` removed. */
  function TagsOf(description: string): seq<string> {
    var ms := FindAllAtWords(description);
    seq(|ms|, k requires 0 <= k < |ms| => ReplaceFirst(ms[k], "@", ""))
  }

  /** `getTagsFromDescription`: the matches, then the loop that strips one `@` from each. */
  method GetTagsFromDescription(description: string) returns (tags: seq<string>)
    ensures tags == TagsOf(description)
  {
    var ms := FindAllAtWords(description);
    tags := ms;
    for i := 0 to |tags|
      invariant |tags| == |ms|
      invariant forall k :: 0 <= k < i ==> tags[k] == ReplaceFirst(ms[k], "@", "")
      invariant forall k :: i <= k < |tags| ==> tags[k] == ms[k]
    {
      tags := tags[i := ReplaceFirst(tags[i], "@", "")];
    }
  }


  /**
    Each tag is its `@word` match without the leading `@`, in the order the
    scan meets them, duplicates kept: a tag is never empty and holds no
    white space.
   */
  lemma TagsOfShape(description: string)
    ensures var ms := FindAllAtWords(description);
      var ts := TagsOf(description);
      && |ts| == |ms|
      && forall k :: 0 <= k < |ts| ==>
           && ts[k] == ms[k][1..]
           && |ts[k]| >= 1
           && forall j :: 0 <= j < |ts[k]| ==> !IsPerlSpace(ts[k][j])
  {
    var ms := FindAllAtWords(description);
    var ts := TagsOf(description);
    forall k | 0 <= k < |ts|
      ensures ts[k] == ms[k][1..]
      ensures forall j :: 0 <= j < |ts[k]| ==> !IsPerlSpace(ts[k][j])
    {
      var m := ms[k];
      assert OccursAt(m, "@", 0) by { assert m[0..1] == "@"; }
      assert Find(m, "@") == 0;
      assert ts[k] == m[..0] + "" + m[1..];
      assert m[..0] + "" + m[1..] == m[1..];
      forall j | 0 <= j < |ts[k]| ensures !IsPerlSpace(ts[k][j]) {
        assert ts[k][j] == m[j + 1];
      }
    }
  }

  /** A description without `@` yields no tag. */
  lemma NoAtNoTags(description: string)
    requires IndexOfChar(description, '@') < 0
    ensures TagsOf(description) == []
  {
    if |FindAllAtWords(description)| > 0 {
      MatchShowsAt(description);
    }
  }

  /** A match of `@\S+` puts an `@` in the description. */
  lemma MatchShowsAt(description: string)
    requires |FindAllAtWords(description)| > 0
    ensures IndexOfChar(description, '@') >= 0
  {
    var m := FindAllAtWords(description)[0];
    OccursWitness(description, m);
    var i :| OccursAt(description, m, i);
    assert description[i] == description[i..i + |m|][0] == '@';
  }

  /** `Contains` gives a position. */
  lemma OccursWitness(s: string, sub: string)
    requires Contains(s, sub)
    ensures exists i :: OccursAt(s, sub, i)
  {
    assert OccursAt(s, sub, Find(s, sub));
  }

  /** The parent tags a child inherits: all of them except `comm`, in order. */
  function WithoutComm(tags: seq<string>): (r: seq<string>)
    ensures |r| <= |tags|
  {
    if tags == [] then []
    else WithoutComm(tags[..|tags| - 1]) + (if tags[|tags| - 1] != "comm" then [tags[|tags| - 1]] else [])
  }

  /**
    The inherited list holds exactly the tags other than `comm`: `comm`
    never passes from a node to its children.
   */
  lemma {:induction false} WithoutCommMembers(tags: seq<string>)
    ensures "comm" !in WithoutComm(tags)
    ensures forall t :: t in WithoutComm(tags) <==> t in tags && t != "comm"
  {
    if tags != [] {
      WithoutCommMembers(tags[..|tags| - 1]);
      assert tags == tags[..|tags| - 1] + [tags[|tags| - 1]];
    }
  }

  /** Filtering twice is filtering once. */
  lemma {:induction false} WithoutCommIdempotent(tags: seq<string>)
    ensures WithoutComm(WithoutComm(tags)) == WithoutComm(tags)
  {
    if tags != [] {
      var init := tags[..|tags| - 1];
      WithoutCommIdempotent(init);
      var w := WithoutComm(init);
      var x := tags[|tags| - 1];
      if x != "comm" {
        var r := w + [x];
        assert WithoutComm(tags) == r;
        assert r != [] && r[..|r| - 1] == w && r[|r| - 1] == x;
        assert WithoutComm(r) == WithoutComm(w) + [x];
      } else {
        assert WithoutComm(tags) == w;
      }
    }
  }

  /** `DoesElementHaveCommandTag`: the node's tags include `comm`. */
  predicate HasCommTag(e: Element) {
    "comm" in e.tags
  }

  /** `areAnyTagsCommand`, the early-exit scan of the tag list. */
  method AreAnyTagsCommand(tags: seq<string>) returns (r: bool)
    ensures r <==> "comm" in tags
  {
    for i := 0 to |tags|
      invariant "comm" !in tags[..i]
    {
      if tags[i] == "comm" {
        return true;
      }
    }
    assert tags[..|tags|] == tags;
    return false;
  }

  /** `DoesElementHaveCommandTag`. */
  method DoesElementHaveCommandTag(e: Element) returns (r: bool)
    ensures r <==> HasCommTag(e)
  {
    r := AreAnyTagsCommand(e.tags);
  }

  // ---------------------------------------------------------------- admission

  /** Some filter string occurs in some of the given strings. */
  predicate AnyFilterIn(strs: seq<string>, filterStrings: seq<string>) {
    exists f, s :: f in filterStrings && s in strs && Contains(s, f)
  }

  /** `AreFilterStringsInTags`: the two nested loops with an early return. */
  method AreFilterStringsInTags(strs: seq<string>, filterStrings: seq<string>) returns (r: bool)
    ensures r <==> AnyFilterIn(strs, filterStrings)
  {
    if |filterStrings| > 0 {
      for i := 0 to |filterStrings|
        invariant forall f, s :: f in filterStrings[..i] && s in strs ==> !Contains(s, f)
      {
        for j := 0 to |strs|
          invariant forall f, s ::
            (f in filterStrings[..i] && s in strs) || (f == filterStrings[i] && s in strs[..j]) ==> !Contains(s, f)
        {
          if Contains(strs[j], filterStrings[i]) {
            return true;
          }
        }
        assert strs[..|strs|] == strs;
        assert filterStrings[..i + 1] == filterStrings[..i] + [filterStrings[i]];
      }
      assert filterStrings[..|filterStrings|] == filterStrings;
    }
    return false;
  }

  /** An empty filter list matches nothing; the empty filter string matches any string. */
  lemma FilterEdgeCases(strs: seq<string>, filterStrings: seq<string>)
    ensures filterStrings == [] ==> !AnyFilterIn(strs, filterStrings)
    ensures "" in filterStrings && strs != [] ==> AnyFilterIn(strs, filterStrings)
  {
    if "" in filterStrings && strs != [] {
      assert OccursAt(strs[0], "", 0);
      assert strs[0] in strs && Contains(strs[0], "");
    }
  }

  /** `elementPassesPreCriteria`: the admission test of flat mode. */
  predicate ElementPassesPreCriteria(e: Element, cfg: Config) {
    if cfg.filterAction == FilterTags && e.isCommand && !AnyFilterIn(e.tags, cfg.filterStrings) then false
    else if cfg.filterAction == FilterAnything && e.isCommand && !AnyFilterIn(e.tags, cfg.filterStrings)
      && !AnyFilterIn([e.content, e.description], cfg.filterStrings) then false
    else !HasPrefix(e.content, "(dummy)")
  }

  /**
    The admission rules, case by case: a `(dummy)` content is always refused;
    groups, and commands outside the two filtering modes, are admitted
    otherwise; under tag filtering a command needs a filter string inside one
    of its tags, under filtering by anything inside a tag, its content or its
    description.
   */
  lemma AdmissionCases(e: Element, cfg: Config)
    ensures HasPrefix(e.content, "(dummy)") ==> !ElementPassesPreCriteria(e, cfg)
    ensures !e.isCommand || cfg.filterAction == FilterNone || cfg.filterAction == FilterFiles ==>
      (ElementPassesPreCriteria(e, cfg) <==> !HasPrefix(e.content, "(dummy)"))
    ensures e.isCommand && cfg.filterAction == FilterTags ==>
      (ElementPassesPreCriteria(e, cfg) <==>
        !HasPrefix(e.content, "(dummy)") && AnyFilterIn(e.tags, cfg.filterStrings))
    ensures e.isCommand && cfg.filterAction == FilterAnything ==>
      (ElementPassesPreCriteria(e, cfg) <==>
        && !HasPrefix(e.content, "(dummy)")
        && (|| AnyFilterIn(e.tags, cfg.filterStrings)
            || AnyFilterIn([e.content, e.description], cfg.filterStrings)))
  {
  }

  /** With no filter string, filtering modes admit no command at all. */
  lemma NoFilterStringsAdmitNoCommand(e: Element, cfg: Config)
    requires e.isCommand && cfg.filterStrings == []
    requires cfg.filterAction == FilterTags || cfg.filterAction == FilterAnything
    ensures !ElementPassesPreCriteria(e, cfg)
  {
    FilterEdgeCases(e.tags, []);
    FilterEdgeCases([e.content, e.description], []);
  }

  // ---------------------------------------------------------------- truncation

  function Min(a: int, b: int): int {
    if a <= b then a else b
  }

  /**
    `TruncateString(str, length)`: empty for a non-positive length, the whole
    string when its length in bytes is at most `length`, else its first
    `length` runes followed by `..`. A string of multi-byte runes can be
    longer in bytes than `length` yet have no more than `length` runes; it
    then comes back whole with `..` appended.
   */
  function Truncated(s: string, length: int): string {
    if length <= 0 then ""
    else if length >= Utf8Len(s) then s
    else s[..Min(length, |s|)] + ".."
  }

  /** The loop of `TruncateString`, one rune at a time until `length` runes. */
  method TruncateString(str: string, length: int) returns (r: string)
    ensures r == Truncated(str, length)
  {
    if length <= 0 {
      return "";
    }
    if length >= Utf8Len(str) {
      return str;
    }
    var truncated := "";
    var count := 0;
    var i := 0;
    while i < |str|
      invariant 0 <= i <= |str| && i < length
      invariant count == i && truncated == str[..i]
      decreases |str| - i
    {
      truncated := truncated + [str[i]];
      count := count + 1;
      i := i + 1;
      if count >= length {
        break;
      }
    }
    assert i == Min(length, |str|) by {
      if i < |str| { assert count >= length; }
    }
    r := truncated + "..";
  }

  /**
    The truncated key is the string itself or a prefix of it followed by
    `..`, and for a positive length it never exceeds `length + 2` runes.
   */
  lemma TruncatedShape(s: string, length: int)
    ensures var r := Truncated(s, length);
      && (length <= 0 ==> r == "")
      && (length > 0 ==> |r| <= length + 2)
      && (r == s || r == "" || (HasSuffix(r, "..") && HasPrefix(s, r[..|r| - 2])))
  {
    var r := Truncated(s, length);
    if length > 0 && length < Utf8Len(s) {
      var p := s[..Min(length, |s|)];
      assert r[..|r| - 2] == p;
      assert r[|r| - 2..] == "..";
    }
  }

  /** For text of one-byte runes the cut is exactly `length` runes. */
  lemma TruncatedAscii(s: string, length: int)
    requires forall j :: 0 <= j < |s| ==> s[j] < '\U{80}'
    requires length > 0
    ensures |s| <= length ==> Truncated(s, length) == s
    ensures |s| > length ==> Truncated(s, length) == s[..length] + ".."
  {
  }

  /** Two two-byte runes cut at three: four bytes exceed the length, two runes do not. */
  lemma TruncatedMultiByte()
    ensures Truncated("éé", 3) == "éé.."
  {
    assert Utf8Len("éé") == 4 by {
      assert "éé"[1..] == "é";
      assert "é"[1..] == "";
    }
  }

  // ---------------------------------------------------------------- footer

  /** `GetChildKeysAsString`: the child keys between bars. */
  function GetChildKeysAsString(e: Element): (r: string)
    ensures HasPrefix(r, "| ") && HasSuffix(r, " |")
  {
    "| " + Join(e.childKeys, " | ") + " |"
  }

  /** Every child key shows in the footer. */
  lemma FooterShowsKeys(e: Element, k: nat)
    requires k < |e.childKeys|
    ensures Contains(GetChildKeysAsString(e), e.childKeys[k])
  {
    var joined := Join(e.childKeys, " | ");
    JoinContainsParts(e.childKeys, " | ", k);
    var r := GetChildKeysAsString(e);
    assert r == "| " + (joined + " |");
    assert r[2..] == joined + " |";
    var i := Find(joined, e.childKeys[k]);
    assert OccursAt(r[2..], e.childKeys[k], i) by {
      assert (joined + " |")[i..i + |e.childKeys[k]|] == joined[i..i + |e.childKeys[k]|];
    }
    OccursInSuffix(r, e.childKeys[k], 2, i);
  }
}
