/**
  Template filling for `comm` groups: a group whose content holds `<>`
  placeholders is rendered from the comma-separated fields of a chosen
  command, and the label helper for the command/group flag.
 */
module MiscUtils {
  import opened GoStrings

  /** The label of the command/group flag. */
  function BoolToCommand(b: bool): (r: string)
    ensures r == "command" <==> b
    ensures r == "group" <==> !b
  {
    if b then "command" else "group"
  }

  const Placeholder: string := "<>"

  /**
    The fold of `ReplaceContentWithChoices`: each field, trimmed, replaces
    the leftmost `<>` still present in the text built so far.
   */
  function Fill(template: string, fields: seq<string>): string
    decreases |fields|
  {
    if fields == [] then template
    else Fill(ReplaceFirst(template, Placeholder, TrimSpace(fields[0])), fields[1..])
  }

  /** The template rendered from a comma-separated choice string. */
  function Render(template: string, choices: string): string {
    Fill(template, Split(choices, ','))
  }

  /** `ReplaceContentWithChoices(content, choiceStr)`, the loop of the source. */
  method ReplaceContentWithChoices(content: string, choiceStr: string) returns (result: string)
    ensures result == Render(content, choiceStr)
  {
    var choices := Split(choiceStr, ',');
    result := content;
    var rest := choices;
    while rest != []
      invariant Fill(result, rest) == Fill(content, choices)
      decreases |rest|
    {
      result := ReplaceFirst(result, Placeholder, TrimSpace(rest[0]));
      rest := rest[1..];
    }
  }

  /** A template without placeholders is returned unchanged, whatever the fields. */
  lemma {:induction false} FillWithoutPlaceholder(template: string, fields: seq<string>)
    requires !Contains(template, Placeholder)
    ensures Fill(template, fields) == template
    decreases |fields|
  {
    if fields != [] {
      FillWithoutPlaceholder(template, fields[1..]);
    }
  }

  /** An empty choice string is one empty field: it deletes the first `<>` only. */
  lemma RenderEmptyChoices(template: string)
    ensures Render(template, "") == ReplaceFirst(template, Placeholder, "")
  {
    assert Split("", ',') == [""];
    assert TrimSpace("") == "";
    assert [""][1..] == [];
  }

  /**
    The text a template made of `segs` joined by `<>` should become: the i-th
    field, trimmed, in the i-th placeholder; a placeholder without a field
    stays `<>`; fields beyond the placeholders are dropped.
   */
  function Interleave(segs: seq<string>, fields: seq<string>): string
    requires |segs| >= 1
    decreases |segs|
  {
    if |segs| == 1 then segs[0]
    else if fields == [] then segs[0] + Placeholder + Interleave(segs[1..], [])
    else segs[0] + TrimSpace(fields[0]) + Interleave(segs[1..], fields[1..])
  }

  /** With no fields the interleaving is the template itself. */
  lemma {:induction false} InterleaveNoFields(segs: seq<string>)
    requires |segs| >= 1
    ensures Interleave(segs, []) == Join(segs, Placeholder)
    decreases |segs|
  {
    if |segs| > 1 {
      InterleaveNoFields(segs[1..]);
    }
  }

  /** The first `<>` of `a + "<>" + b` is the one after `a` when `a` has no `<`. */
  lemma FindAfterPlainPrefix(a: string, b: string)
    requires '<' !in a
    ensures Find(a + Placeholder + b, Placeholder) == |a|
  {
    var s := a + Placeholder + b;
    assert OccursAt(s, Placeholder, |a|) by { assert s[|a|..|a| + 2] == Placeholder; }
    var r := Find(s, Placeholder);
    assert s[r] == '<' by { assert s[r..r + 2][0] == s[r]; }
  }

  /** So replacing the first `<>` of `a + "<>" + b` puts the field right after `a`. */
  lemma ReplaceAfterPlainPrefix(a: string, b: string, t: string)
    requires '<' !in a
    ensures ReplaceFirst(a + Placeholder + b, Placeholder, t) == a + t + b
  {
    var s := a + Placeholder + b;
    FindAfterPlainPrefix(a, b);
    assert s[..|a|] == a && s[|a| + 2..] == b;
  }

  /** A text without `<` holds no placeholder. */
  lemma PlainHasNoPlaceholder(s: string)
    requires '<' !in s
    ensures !Contains(s, Placeholder)
  {
    forall r | 0 <= r && r + 2 <= |s| ensures !OccursAt(s, Placeholder, r) {
      assert s[r..r + 2][0] == s[r];
    }
  }

  /** Trimming cannot introduce a `<`. */
  lemma TrimKeepsPlain(f: string)
    requires '<' !in f
    ensures '<' !in TrimSpace(f)
  {
    var t := TrimSpace(f);
    TrimSpaceInfix(f);
    var i := |f| - |TrimLeftSpace(f)|;
    forall j | 0 <= j < |t| ensures t[j] != '<' {
      assert t[j] == f[i..i + |t|][j] == f[i + j];
    }
  }

  /** Gluing text onto the first segment glues it onto the interleaving. */
  lemma InterleaveHead(p: string, segs: seq<string>, fields: seq<string>)
    requires |segs| >= 1
    ensures Interleave([p + segs[0]] + segs[1..], fields) == p + Interleave(segs, fields)
  {
    var glued := [p + segs[0]] + segs[1..];
    assert glued[1..] == segs[1..];
  }

  /** Joining after merging the first two segments around `t`. */
  lemma JoinMerged(segs: seq<string>, t: string)
    requires |segs| >= 2
    ensures Join([segs[0] + t + segs[1]] + segs[2..], Placeholder)
         == segs[0] + t + Join(segs[1..], Placeholder)
  {
    var merged := [segs[0] + t + segs[1]] + segs[2..];
    if |segs| > 2 {
      assert merged[1..] == segs[2..] == segs[1..][1..];
    }
  }

  /**
    Field order: when neither the template's text between placeholders nor
    any field contains `<`, the i-th field fills the i-th placeholder from the
    left, extra fields are ignored and unfilled placeholders stay.
   */
  lemma {:induction false} FillInOrder(segs: seq<string>, fields: seq<string>)
    requires |segs| >= 1
    requires forall k :: 0 <= k < |segs| ==> '<' !in segs[k]
    requires forall k :: 0 <= k < |fields| ==> '<' !in fields[k]
    ensures Fill(Join(segs, Placeholder), fields) == Interleave(segs, fields)
    decreases |fields|
  {
    if fields == [] {
      InterleaveNoFields(segs);
    } else if |segs| == 1 {
      PlainHasNoPlaceholder(segs[0]);
      FillWithoutPlaceholder(segs[0], fields);
    } else {
      var t := TrimSpace(fields[0]);
      TrimKeepsPlain(fields[0]);
      var rest := Join(segs[1..], Placeholder);
      ReplaceAfterPlainPrefix(segs[0], rest, t);
      var merged := [segs[0] + t + segs[1]] + segs[2..];
      JoinMerged(segs, t);
      forall k | 0 <= k < |merged| ensures '<' !in merged[k] {
        if k > 0 { assert merged[k] == segs[k + 1]; }
      }
      FillInOrder(merged, fields[1..]);
      assert merged == [segs[0] + t + segs[1..][0]] + segs[1..][1..];
      InterleaveHead(segs[0] + t, segs[1..], fields[1..]);
    }
  }

  /** A choice string with one comma splits into the text before it and after it. */
  lemma SplitTwo(x: string, y: string, sep: char)
    requires sep !in x && sep !in y
    ensures Split(x + [sep] + y, sep) == [x, y]
  {
    var s := x + [sep] + y;
    assert s[|x|] == sep;
    assert forall j :: 0 <= j < |x| ==> s[j] == x[j];
    assert s[..|x|] == x && s[|x| + 1..] == y;
    SplitFirst(y, sep);
  }

  /** Concatenation regrouped to the left. */
  lemma Regroup(p: string, q: string, r: string, s: string, u: string)
    ensures p + q + (r + s + u) == p + q + r + s + u
  {
    assert r + s + u == r + (s + u);
    assert p + q + (r + (s + u)) == (p + q + r) + (s + u);
  }

  /** One step of the fold when the text before the first placeholder and the field are plain. */
  lemma FillPlainStep(p: string, rest: string, f: string, fs: seq<string>)
    requires '<' !in p && '<' !in f
    ensures Fill(p + Placeholder + rest, [f] + fs) == Fill(p + TrimSpace(f) + rest, fs)
  {
    ReplaceAfterPlainPrefix(p, rest, TrimSpace(f));
    assert ([f] + fs)[0] == f && ([f] + fs)[1..] == fs;
  }

  /** A three-part template filled from two plain fields. */
  lemma FillThree(a: string, b: string, c: string, f1: string, f2: string)
    requires '<' !in a && '<' !in b && '<' !in c && '<' !in f1 && '<' !in f2
    ensures Fill(a + Placeholder + b + Placeholder + c, [f1, f2]) == a + TrimSpace(f1) + b + TrimSpace(f2) + c
  {
    var t1 := TrimSpace(f1);
    TrimKeepsPlain(f1);
    Regroup(a, Placeholder, b, Placeholder, c);
    assert [f1, f2] == [f1] + [f2];
    FillPlainStep(a, b + Placeholder + c, f1, [f2]);
    Regroup(a, t1, b, Placeholder, c);
    assert [f2] == [f2] + [];
    FillPlainStep(a + t1 + b, c, f2, []);
  }

  /** A three-part template filled from one plain field: the second placeholder stays. */
  lemma FillThreeOne(a: string, b: string, c: string, f: string)
    requires '<' !in a && '<' !in b && '<' !in c && '<' !in f
    ensures Fill(a + Placeholder + b + Placeholder + c, [f]) == a + TrimSpace(f) + b + Placeholder + c
  {
    Regroup(a, Placeholder, b, Placeholder, c);
    assert [f] == [f] + [];
    FillPlainStep(a, b + Placeholder + c, f, []);
    Regroup(a, TrimSpace(f), b, Placeholder, c);
  }

  /**
    A template with two placeholders and plain text around them, rendered
    from a choice string with one comma: each field, trimmed, goes into its
    placeholder in order.
   */
  lemma RenderTwoFields(a: string, b: string, c: string, f1: string, f2: string)
    requires '<' !in a && '<' !in b && '<' !in c && '<' !in f1 && '<' !in f2
    requires ',' !in f1 && ',' !in f2
    ensures Render(a + Placeholder + b + Placeholder + c, f1 + [','] + f2)
         == a + TrimSpace(f1) + b + TrimSpace(f2) + c
  {
    SplitTwo(f1, f2, ',');
    FillThree(a, b, c, f1, f2);
  }

  /** The worked example: `deploy <> to <>` with the choices `staging, us-east`. */
  lemma RenderDeployExample()
    ensures Render("deploy <> to <>", "staging, us-east") == "deploy staging to us-east"
  {
    DeployPieces();
    DeployFields();
    RenderTwoFields("deploy ", " to ", "", "staging", " us-east");
    DeployJoined();
  }

  /** The example template and choice string, cut at their placeholders and comma. */
  lemma DeployPieces()
    ensures "deploy <> to <>" == "deploy " + Placeholder + " to " + Placeholder + ""
    ensures "staging, us-east" == "staging" + [','] + " us-east"
  {
  }

  /** The example fields, trimmed. */
  lemma DeployFields()
    ensures TrimSpace("staging") == "staging" && TrimSpace(" us-east") == "us-east"
  {
    StagingTrimmed();
    RegionTrimmed();
  }

  lemma StagingTrimmed()
    ensures TrimSpace("staging") == "staging"
  {
    assert !IsSpace("staging"[0]) && !IsSpace("staging"[6]);
    TrimSpaceOfTrimmed("staging");
  }

  lemma RegionTrimmed()
    ensures TrimSpace(" us-east") == "us-east"
  {
    assert IsSpace(" us-east"[0]) && " us-east"[1..] == "us-east";
    assert !IsSpace("us-east"[0]);
    assert TrimLeftSpace(" us-east") == "us-east";
    assert !IsSpace("us-east"[6]);
  }

  /** The example result, put together. */
  lemma DeployJoined()
    ensures "deploy " + "staging" + " to " + "us-east" + "" == "deploy staging to us-east"
  {
  }
}
