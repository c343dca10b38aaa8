/**
  The parts of Go's `strings`, `unicode`, `unicode/utf8` and `regexp` packages
  that the command-tree logic relies on, written over `string` (a sequence of
  runes). Each function states what the library call returns; the callers in
  the other modules use them as the Go code uses the library.
 */
module GoStrings {

  /** `unicode.IsSpace`: the Latin-1 spaces and the Unicode `Z` spaces. */
  predicate IsSpace(c: char) {
    || c == ' ' || c == '\t' || c == '\n' || c == '\U{0B}' || c == '\U{0C}' || c == '\r'
    || c == '\U{85}' || c == '\U{A0}' || c == '\U{1680}'
    || ('\U{2000}' <= c <= '\U{200A}')
    || c == '\U{2028}' || c == '\U{2029}' || c == '\U{202F}' || c == '\U{205F}' || c == '\U{3000}'
  }

  /** The RE2 class `\s`, which is `[\t\n\f\r ]` (no vertical tab, ASCII only). */
  predicate IsPerlSpace(c: char) {
    c == '\t' || c == '\n' || c == '\U{0C}' || c == '\r' || c == ' '
  }

  predicate HasPrefix(s: string, p: string) {
    |p| <= |s| && s[..|p|] == p
  }

  predicate HasSuffix(s: string, p: string) {
    |p| <= |s| && s[|s| - |p|..] == p
  }

  /** `strings.TrimLeft(s, unicode spaces)`. */
  function TrimLeftSpace(s: string): (r: string)
    ensures |r| <= |s| && r == s[|s| - |r|..]
    ensures r == [] || !IsSpace(r[0])
    ensures forall j :: 0 <= j < |s| - |r| ==> IsSpace(s[j])
  {
    if |s| > 0 && IsSpace(s[0]) then TrimLeftSpace(s[1..]) else s
  }

  /** `strings.TrimRight(s, unicode spaces)`. */
  function TrimRightSpace(s: string): (r: string)
    ensures |r| <= |s| && r == s[..|r|]
    ensures r == [] || !IsSpace(r[|r| - 1])
    ensures forall j :: |r| <= j < |s| ==> IsSpace(s[j])
  {
    if |s| > 0 && IsSpace(s[|s| - 1]) then TrimRightSpace(s[..|s| - 1]) else s
  }

  /** `strings.TrimSpace`: the longest infix with no space at either end. */
  function TrimSpace(s: string): (r: string)
    ensures |r| <= |s|
    ensures r == [] || (!IsSpace(r[0]) && !IsSpace(r[|r| - 1]))
  {
    TrimRightSpace(TrimLeftSpace(s))
  }

  /** The trimmed string is an infix of the original. */
  lemma TrimSpaceInfix(s: string)
    ensures OccursAt(s, TrimSpace(s), |s| - |TrimLeftSpace(s)|)
  {
    var l := TrimLeftSpace(s);
    OccursInSuffix(s, TrimRightSpace(l), |s| - |l|, 0);
  }

  /** A string with no space at either end is its own trimming. */
  lemma TrimSpaceOfTrimmed(s: string)
    requires s == [] || (!IsSpace(s[0]) && !IsSpace(s[|s| - 1]))
    ensures TrimSpace(s) == s
  {
  }

  /** Trimming twice is trimming once. */
  lemma TrimSpaceIdempotent(s: string)
    ensures TrimSpace(TrimSpace(s)) == TrimSpace(s)
  {
    TrimSpaceOfTrimmed(TrimSpace(s));
  }

  /** `sub` occurs in `s` starting at position `j`. */
  predicate OccursAt(s: string, sub: string, j: int) {
    0 <= j && j + |sub| <= |s| && s[j..j + |sub|] == sub
  }

  /** `strings.Index`: the first position of `sub` in `s`, or -1. */
  function Find(s: string, sub: string): (r: int)
    ensures r < 0 ==> r == -1
    ensures r >= 0 ==> OccursAt(s, sub, r)
    ensures forall j :: OccursAt(s, sub, j) ==> 0 <= r <= j
    decreases |s|
  {
    if HasPrefix(s, sub) then 0
    else if |s| <= |sub| then -1
    else
      var k := Find(s[1..], sub);
      forall j | OccursAt(s, sub, j) ensures 0 <= j - 1 && OccursAt(s[1..], sub, j - 1) {
        assert j != 0;
        OccursInTail(s, sub, j);
      }
      if k < 0 then -1
      else
        assert s[k + 1..k + 1 + |sub|] == s[1..][k..k + |sub|];
        k + 1
  }

  /** An occurrence past the first position is an occurrence in the tail. */
  lemma OccursInTail(s: string, sub: string, j: int)
    requires 1 <= j && OccursAt(s, sub, j)
    ensures OccursAt(s[1..], sub, j - 1)
  {
    assert s[1..][j - 1..j - 1 + |sub|] == s[j..j + |sub|];
  }

  /** `strings.Contains`. */
  predicate Contains(s: string, sub: string) {
    Find(s, sub) >= 0
  }

  /** An occurrence at any position makes `strings.Contains` true. */
  lemma OccursContains(s: string, sub: string, j: int)
    requires OccursAt(s, sub, j)
    ensures Contains(s, sub)
  {
  }

  /** `strings.Contains` holds exactly when `sub` occurs at some position. */
  lemma ContainsIff(s: string, sub: string)
    ensures Contains(s, sub) <==> exists j :: OccursAt(s, sub, j)
  {
  }

  /** An occurrence in a suffix is an occurrence in the whole string. */
  lemma OccursInSuffix(s: string, sub: string, n: nat, j: int)
    requires n <= |s| && OccursAt(s[n..], sub, j)
    ensures OccursAt(s, sub, n + j)
  {
    assert s[n + j..n + j + |sub|] == s[n..][j..j + |sub|];
  }

  /** `strings.Replace(s, pat, rep, 1)`: the first occurrence of `pat` becomes `rep`. */
  function ReplaceFirst(s: string, pat: string, rep: string): (r: string)
    ensures !Contains(s, pat) ==> r == s
    ensures Contains(s, pat) ==> |r| == |s| - |pat| + |rep|
  {
    var i := Find(s, pat);
    if i < 0 then s else s[..i] + rep + s[i + |pat|..]
  }

  /** `strings.Replace(s, pat, rep, -1)`: every non-overlapping occurrence, left to right. */
  function ReplaceAll(s: string, pat: string, rep: string): (r: string)
    requires |pat| > 0
    decreases |s|
  {
    if |s| < |pat| then s
    else if HasPrefix(s, pat) then rep + ReplaceAll(s[|pat|..], pat, rep)
    else [s[0]] + ReplaceAll(s[1..], pat, rep)
  }

  /** Replacing a pattern that does not occur changes nothing. */
  lemma {:induction false} ReplaceAllAbsent(s: string, pat: string, rep: string)
    requires |pat| > 0 && !Contains(s, pat)
    ensures ReplaceAll(s, pat, rep) == s
    decreases |s|
  {
    if |s| >= |pat| {
      assert !HasPrefix(s, pat) && !Contains(s[1..], pat);
      ReplaceAllAbsent(s[1..], pat, rep);
      assert s == [s[0]] + s[1..];
    }
  }

  /** `strings.Join`. */
  function Join(parts: seq<string>, sep: string): string {
    if |parts| == 0 then ""
    else if |parts| == 1 then parts[0]
    else parts[0] + sep + Join(parts[1..], sep)
  }

  /** Every part of a join occurs in it. */
  lemma {:induction false} JoinContainsParts(parts: seq<string>, sep: string, k: nat)
    requires k < |parts|
    ensures Contains(Join(parts, sep), parts[k])
    decreases |parts|
  {
    var r := Join(parts, sep);
    if k == 0 {
      assert OccursAt(r, parts[0], 0) by { assert r[0..|parts[0]|] == parts[0]; }
    } else {
      JoinContainsParts(parts[1..], sep, k - 1);
      var rest := Join(parts[1..], sep);
      var off := |parts[0]| + |sep|;
      assert r == parts[0] + sep + rest;
      assert r[off..] == rest;
      OccursInSuffix(r, parts[k], off, Find(rest, parts[k]));
    }
  }

  /** The first position of rune `c` in `s`, or -1 (`strings.IndexRune`). */
  function IndexOfChar(s: string, c: char): (r: int)
    ensures r < 0 ==> r == -1 && c !in s
    ensures r >= 0 ==> r < |s| && s[r] == c && forall j :: 0 <= j < r ==> s[j] != c
  {
    if |s| == 0 then -1
    else if s[0] == c then 0
    else
      var k := IndexOfChar(s[1..], c);
      if k < 0 then -1 else k + 1
  }

  /** `strings.Split(s, string(sep))` for a one-rune separator. */
  function Split(s: string, sep: char): (parts: seq<string>)
    ensures |parts| >= 1
    ensures forall k :: 0 <= k < |parts| ==> sep !in parts[k]
    decreases |s|
  {
    var i := IndexOfChar(s, sep);
    if i < 0 then [s]
    else
      var head := s[..i];
      assert sep !in head by {
        assert forall j :: 0 <= j < |head| ==> head[j] == s[j];
      }
      [head] + Split(s[i + 1..], sep)
  }

  /** Joining the parts of a split with the separator gives the string back. */
  lemma {:induction false} SplitJoin(s: string, sep: char)
    ensures Join(Split(s, sep), [sep]) == s
    decreases |s|
  {
    var i := IndexOfChar(s, sep);
    if i < 0 {
      SplitFirst(s, sep);
    } else {
      JoinSplitAt(s, sep);
      SplitJoin(s[i + 1..], sep);
    }
  }

  /** Joining a split at its first separator. */
  lemma JoinSplitAt(s: string, sep: char)
    requires IndexOfChar(s, sep) >= 0
    ensures var i := IndexOfChar(s, sep);
      && s == s[..i] + [sep] + s[i + 1..]
      && Join(Split(s, sep), [sep]) == s[..i] + [sep] + Join(Split(s[i + 1..], sep), [sep])
  {
    var i := IndexOfChar(s, sep);
    SplitAt(s, sep);
    var parts := Split(s, sep);
    assert Join(parts, [sep]) == parts[0] + [sep] + Join(parts[1..], [sep]);
    SliceAround(s, i);
  }

  /** A string is the text before position `i`, the rune there, and the text after. */
  lemma SliceAround(s: string, i: nat)
    requires i < |s|
    ensures s == s[..i] + [s[i]] + s[i + 1..]
  {
  }

  /** A string without the separator splits into itself alone. */
  lemma SplitFirst(s: string, sep: char)
    requires IndexOfChar(s, sep) < 0
    ensures Split(s, sep) == [s]
  {
  }

  /** A string with the separator splits into the text before its first occurrence and the split of the rest. */
  lemma SplitAt(s: string, sep: char)
    requires IndexOfChar(s, sep) >= 0
    ensures var i := IndexOfChar(s, sep);
      && |Split(s, sep)| >= 2
      && Split(s, sep)[0] == s[..i]
      && Split(s, sep)[1..] == Split(s[i + 1..], sep)
  {
    var i := IndexOfChar(s, sep);
    var rest := Split(s[i + 1..], sep);
    assert Split(s, sep) == [s[..i]] + rest;
    assert ([s[..i]] + rest)[1..] == rest;
  }

  /** The first separator after a separator-free head is the one that follows it. */
  lemma IndexAfterHead(a: string, c: char, b: string)
    requires c !in a
    ensures IndexOfChar(a + [c] + b, c) == |a|
  {
    var s := a + [c] + b;
    assert s[|a|] == c;
    assert forall k :: 0 <= k < |a| ==> s[k] == a[k] && s[k] != c;
  }

  /** Splitting a join of separator-free parts gives the parts back. */
  lemma {:induction false} SplitOfJoin(parts: seq<string>, sep: char)
    requires |parts| >= 1
    requires forall k :: 0 <= k < |parts| ==> sep !in parts[k]
    ensures Split(Join(parts, [sep]), sep) == parts
    decreases |parts|
  {
    if |parts| == 1 {
      SplitFirst(parts[0], sep);
    } else {
      SplitCons(parts[0], sep, Join(parts[1..], [sep]));
      SplitOfJoin(parts[1..], sep);
      assert parts == [parts[0]] + parts[1..];
    }
  }

  /** A separator-free head followed by the separator splits off as the first part. */
  lemma SplitCons(head: string, sep: char, rest: string)
    requires sep !in head
    ensures Split(head + [sep] + rest, sep) == [head] + Split(rest, sep)
  {
    var s := head + [sep] + rest;
    IndexAfterHead(head, sep, rest);
    SplitAt(s, sep);
    assert s[..|head|] == head;
    assert s[|head| + 1..] == rest;
  }

  /** Text put in front of a join goes in front of its first part. */
  lemma JoinPrefix(prefix: string, parts: seq<string>, sep: string)
    requires |parts| >= 1
    ensures prefix + Join(parts, sep) == Join([prefix + parts[0]] + parts[1..], sep)
  {
    var ps := [prefix + parts[0]] + parts[1..];
    assert ps[1..] == parts[1..];
    if |parts| > 1 {
      assert prefix + (parts[0] + sep + Join(parts[1..], sep)) == (prefix + parts[0]) + sep + Join(parts[1..], sep);
    }
  }

  /** The number of UTF-8 bytes that encode a rune. */
  function Utf8Width(c: char): nat {
    if c < '\U{80}' then 1 else if c < '\U{800}' then 2 else if c < '\U{10000}' then 3 else 4
  }

  /** `len(s)` for a Go string: its length in UTF-8 bytes. */
  function Utf8Len(s: string): (n: nat)
    ensures n >= |s|
    ensures (forall j :: 0 <= j < |s| ==> s[j] < '\U{80}') ==> n == |s|
  {
    if |s| == 0 then 0 else Utf8Width(s[0]) + Utf8Len(s[1..])
  }

  /** The longest prefix of `s` free of `\s`. */
  function NonSpaceRun(s: string): (n: nat)
    ensures n <= |s|
    ensures forall j :: 0 <= j < n ==> !IsPerlSpace(s[j])
    ensures n == |s| || IsPerlSpace(s[n])
  {
    if |s| > 0 && !IsPerlSpace(s[0]) then 1 + NonSpaceRun(s[1..]) else 0
  }

  /**
    `regexp.MustCompile("@\\S+").FindAllString(s, -1)`: leftmost, greedy,
    non-overlapping matches, scanned from left to right.
   */
  function FindAllAtWords(s: string): (ms: seq<string>)
    ensures forall k :: 0 <= k < |ms| ==> |ms[k]| >= 2 && ms[k][0] == '@'
    ensures forall k, j :: 0 <= k < |ms| && 0 <= j < |ms[k]| ==> !IsPerlSpace(ms[k][j])
    ensures forall k :: 0 <= k < |ms| ==> Contains(s, ms[k])
    decreases |s|
  {
    if |s| < 2 then []
    else if s[0] == '@' && !IsPerlSpace(s[1]) then
      var n := 1 + NonSpaceRun(s[1..]);
      var rest := FindAllAtWords(s[n..]);
      assert OccursAt(s, s[..n], 0);
      forall k | 0 <= k < |rest| ensures Contains(s, rest[k]) {
        OccursInSuffix(s, rest[k], n, Find(s[n..], rest[k]));
      }
      [s[..n]] + rest
    else
      var rest := FindAllAtWords(s[1..]);
      forall k | 0 <= k < |rest| ensures Contains(s, rest[k]) {
        OccursInSuffix(s, rest[k], 1, Find(s[1..], rest[k]));
      }
      rest
  }
}
