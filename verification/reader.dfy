/**
  The reader: where the YAML content comes from and how the sources are
  merged. A Go map reference becomes a `GoMap` object (nil is `null`) whose
  entry list `AppendMap` updates in place. The file system is a value
  (`FileSystem`); the home directory, the HTTP client and the YAML decoder
  are parameters.
 */
module Reader {
  import opened Wrappers
  import opened GoStrings
  import opened Yaml
  import opened Globals

  const TardiContentDir: string := ".tardigrade"
  const TardiContent: string := TardiContentDir + "/tardicontent.yml"
  const TardiHistory: string := TardiContentDir + "/tardihistory.yml"

  // ------------------------------------------------------------ map updates

  /**
    `m[key] = v`: a present key gets the new value where it stands, an
    absent key is added at the end.
   */
  function Assign(es: seq<Entry>, key: string, v: Raw): seq<Entry>
    decreases |es|
  {
    if es == [] then [Entry(key, v)]
    else if es[0].key == key then [Entry(key, v)] + es[1..]
    else [es[0]] + Assign(es[1..], key, v)
  }

  /** The keys of a non-empty list: the first key and those of the rest. */
  lemma KeysTail(es: seq<Entry>)
    requires es != []
    ensures Keys(es) == [es[0].key] + Keys(es[1..])
  {
  }

  /** After `m[key] = v`, `key` is looked up as `v` and every other key as before. */
  lemma {:induction false} AssignLookup(es: seq<Entry>, key: string, v: Raw, k: string)
    ensures Lookup(Assign(es, key, v), k) == if k == key then Some(v) else Lookup(es, k)
    decreases |es|
  {
    if es != [] && es[0].key != key {
      AssignLookup(es[1..], key, v, k);
    }
  }

  /** The keys already present keep their places. */
  lemma {:induction false} AssignKeepsKeys(es: seq<Entry>, key: string, v: Raw)
    ensures var r := Assign(es, key, v);
      |es| <= |r| && forall i :: 0 <= i < |es| ==> r[i].key == es[i].key
    decreases |es|
  {
    if es != [] && es[0].key != key {
      AssignKeepsKeys(es[1..], key, v);
      var r := Assign(es, key, v);
      forall i | 0 < i < |es| ensures r[i].key == es[i].key {
        assert r[i] == Assign(es[1..], key, v)[i - 1];
      }
    }
  }

  /** An absent key is appended at the end. */
  lemma {:induction false} AssignAppends(es: seq<Entry>, key: string, v: Raw)
    requires key !in Keys(es)
    ensures Assign(es, key, v) == es + [Entry(key, v)]
    decreases |es|
  {
    if es != [] {
      KeysTail(es);
      AssignAppends(es[1..], key, v);
      ConsSnoc(es, Entry(key, v));
    }
  }

  /** A non-empty list with an element added at the end, split at its head. */
  lemma ConsSnoc<T>(xs: seq<T>, x: T)
    requires xs != []
    ensures [xs[0]] + (xs[1..] + [x]) == xs + [x]
  {
    assert [xs[0]] + xs[1..] == xs;
  }

  /** Assigning into a map with distinct keys keeps them distinct. */
  lemma {:induction false} AssignDistinct(es: seq<Entry>, key: string, v: Raw)
    requires DistinctKeys(es)
    ensures DistinctKeys(Assign(es, key, v))
    decreases |es|
  {
    if es != [] && es[0].key != key {
      var tail := Assign(es[1..], key, v);
      AssignDistinct(es[1..], key, v);
      KeysTail(es);
      assert es[0].key !in Keys(es[1..]) by {
        forall j | 0 <= j < |es[1..]| ensures Keys(es[1..])[j] != es[0].key {
          assert es[j + 1].key != es[0].key;
        }
      }
      AssignLookup(es[1..], key, v, es[0].key);
      assert es[0].key !in Keys(tail);
      forall j | 0 <= j < |tail| ensures tail[j].key != es[0].key {
        assert Keys(tail)[j] == tail[j].key;
      }
    }
  }

  /** Assigning the value a key already has changes nothing. */
  lemma {:induction false} AssignPresent(es: seq<Entry>, i: nat)
    requires DistinctKeys(es) && i < |es|
    ensures Assign(es, es[i].key, es[i].value) == es
    decreases |es|
  {
    var e := es[i];
    if i > 0 {
      assert es[0].key != e.key;
      assert es[1..][i - 1] == e;
      assert DistinctKeys(es[1..]);
      AssignPresent(es[1..], i - 1);
      calc {
        Assign(es, e.key, e.value);
        [es[0]] + Assign(es[1..], e.key, e.value);
        [es[0]] + es[1..];
      }
    }
    assert [es[0]] + es[1..] == es;
  }

  /**
    The loop of `appendMap`: every entry of `b` is assigned into `a`, in
    list order (Go visits a map in an unspecified order; with distinct keys
    the resulting lookups do not depend on it).
   */
  function Merge(a: seq<Entry>, b: seq<Entry>): (r: seq<Entry>)
    ensures DistinctKeys(a) ==> DistinctKeys(r)
    ensures |a| <= |r| && forall i :: 0 <= i < |a| ==> r[i].key == a[i].key
    decreases |b|
  {
    if b == [] then a
    else
      var n := |b| - 1;
      var m := Merge(a, b[..n]);
      AssignKeepsKeys(m, b[n].key, b[n].value);
      if DistinctKeys(m) then AssignDistinct(m, b[n].key, b[n].value); Assign(m, b[n].key, b[n].value)
      else Assign(m, b[n].key, b[n].value)
  }

  /** One more entry of the right map is one more assignment. */
  lemma MergeStep(a: seq<Entry>, b: seq<Entry>, i: nat)
    requires i < |b|
    ensures Merge(a, b[..i + 1]) == Assign(Merge(a, b[..i]), b[i].key, b[i].value)
  {
    assert b[..i + 1][..i] == b[..i];
  }

  /** Looking up in a list with one more entry at the end. */
  lemma {:induction false} LookupSnoc(es: seq<Entry>, e: Entry, k: string)
    ensures Lookup(es + [e], k) ==
      if Lookup(es, k).Some? then Lookup(es, k) else if k == e.key then Some(e.value) else None
    decreases |es|
  {
    if es != [] {
      assert (es + [e])[1..] == es[1..] + [e];
      LookupSnoc(es[1..], e, k);
    }
  }

  /**
    After a merge the right map wins: a key of `b` has `b`'s value, a key
    only in `a` keeps `a`'s value, and no other key appears.
   */
  lemma {:induction false} MergeLookup(a: seq<Entry>, b: seq<Entry>, k: string)
    requires DistinctKeys(b)
    ensures Lookup(Merge(a, b), k) == if Lookup(b, k).Some? then Lookup(b, k) else Lookup(a, k)
    decreases |b|
  {
    if b != [] {
      var n := |b| - 1;
      assert b == b[..n] + [b[n]];
      assert DistinctKeys(b[..n]);
      MergeLookup(a, b[..n], k);
      AssignLookup(Merge(a, b[..n]), b[n].key, b[n].value, k);
      LookupSnoc(b[..n], b[n], k);
      if k == b[n].key {
        assert k !in Keys(b[..n]) by {
          forall j | 0 <= j < n ensures b[..n][j].key != k {
            assert b[j].key != b[n].key;
          }
        }
      }
    }
  }

  /** Merging entries the map already holds changes nothing. */
  lemma {:induction false} MergeHeld(a: seq<Entry>, b: seq<Entry>)
    requires DistinctKeys(a)
    requires forall j :: 0 <= j < |b| ==> b[j] in a
    ensures Merge(a, b) == a
    decreases |b|
  {
    if b != [] {
      var n := |b| - 1;
      MergeHeld(a, b[..n]);
      var i :| 0 <= i < |a| && a[i] == b[n];
      AssignPresent(a, i);
    }
  }

  /** `appendMap(m, m)`: merging a map into itself leaves it as it was. */
  lemma MergeSelf(a: seq<Entry>)
    requires DistinctKeys(a)
    ensures Merge(a, a) == a
  {
    MergeHeld(a, a);
  }

  /** A Go map behind a reference; the reference is shared, the entries change in place. */
  class GoMap {
    var entries: seq<Entry>

    constructor (es: seq<Entry>)
      ensures entries == es
    {
      entries := es;
    }

    /** `(*m)[key] = v`. */
    method Put(key: string, v: Raw)
      modifies this
      ensures entries == Assign(old(entries), key, v)
    {
      entries := Assign(entries, key, v);
    }
  }

  /** What a map reference holds: `None` for nil. */
  function View(m: GoMap?): Option<seq<Entry>>
    reads m
  {
    if m == null then None else Some(m.entries)
  }

  /** `appendMap` on values: nil with nil is nil, nil on the left gives the right, otherwise a merge. */
  function MergeOpt(a: Option<seq<Entry>>, b: Option<seq<Entry>>): Option<seq<Entry>> {
    if a.None? && b.None? then None
    else if a.None? then b
    else if b.None? then a
    else Some(Merge(a.value, b.value))
  }

  /**
    `appendMap(m1, m2)`: both nil gives nil; `m1` nil gives `m2` itself;
    otherwise every entry of `m2` is written into `m1`, which is returned.
   */
  method AppendMap(m1: GoMap?, m2: GoMap?) returns (r: GoMap?)
    modifies m1
    ensures r == null <==> m1 == null && m2 == null
    ensures m1 == null ==> r == m2
    ensures m1 != null ==> r == m1
    ensures View(r) == MergeOpt(old(View(m1)), old(View(m2)))
  {
    if m1 == null && m2 == null {
      return null;
    }
    if m1 == null {
      return m2;
    }
    if m2 != null {
      var src := m2.entries;
      for i := 0 to |src|
        invariant m1.entries == Merge(old(m1.entries), src[..i])
      {
        MergeStep(old(m1.entries), src, i);
        m1.Put(src[i].key, src[i].value);
      }
      assert src[..|src|] == src;
    }
    return m1;
  }

  // ------------------------------------------------------------ sources

  /**
    The files the program can see: their texts by path, and the paths
    `os.Create` would succeed on (an existing directory, permission).
   */
  datatype FileSystem = FileSystem(files: map<string, string>, creatable: set<string>)

  /** `GetFileAsString`: the text of a file, or nil when it cannot be read. */
  function ReadFile(fs: FileSystem, path: string): Option<string> {
    if path in fs.files then Some(fs.files[path]) else None
  }

  /** `WriteToFile`: a failure to create the file is printed and otherwise ignored. */
  function WriteFile(fs: FileSystem, path: string, content: string): (r: FileSystem)
    ensures path in fs.creatable ==> ReadFile(r, path) == Some(content)
    ensures path !in fs.creatable ==> r == fs
    ensures forall p :: p != path ==> ReadFile(r, p) == ReadFile(fs, p)
  {
    if path in fs.creatable then fs.(files := fs.files[path := content]) else fs
  }

  /** `getUserHomeFileContent` before decoding: nil when there is no home directory or no file. */
  function HomeFile(fs: FileSystem, home: Option<string>, name: string): Option<string> {
    if home.None? then None else ReadFile(fs, home.value + "/" + name)
  }

  /** `Unmarshall` applied to text that was read; a decoding error yields the (possibly empty) map. */
  function Decoded(text: Option<string>, unmarshal: string -> seq<Entry>): Option<seq<Entry>> {
    if text.None? then None else Some(unmarshal(text.value))
  }

  /** A YAML decoder hands back Go maps, whose keys are distinct. */
  ghost predicate Decoder(unmarshal: string -> seq<Entry>) {
    forall s :: DistinctKeys(unmarshal(s))
  }

  /** The text `firstInHistory` seeds a missing history file with: the history group holding `pwd`. */
  const HistorySeed: string := HistoryGroup + ":" + "\n" + "  - pwd" + "\n"

  function FirstInHistory(): string {
    HistorySeed
  }

  /** The seed text is three lines: the history group, its one command `pwd`, and the empty tail. */
  lemma HistorySeedLines()
    ensures Split(FirstInHistory(), '\n') == [HistoryGroup + ":", "  - pwd", ""]
  {
    var lines := [HistoryGroup + ":", "  - pwd", ""];
    assert lines[1..][1..] == [""];
    assert Join(lines[1..], "\n") == "  - pwd" + "\n" + "";
    assert HistorySeed == lines[0] + "\n" + ("  - pwd" + "\n" + "");
    SplitOfJoin(lines, '\n');
  }

  /**
    The side effect of `getHistoryContent`: with a home directory and no
    history file there, the file is written with `firstInHistory()`.
   */
  function SeedHistory(fs: FileSystem, home: Option<string>): FileSystem {
    if home.None? then fs
    else
      var path := home.value + "/" + TardiHistory;
      if path !in fs.files then WriteFile(fs, path, FirstInHistory()) else fs
  }

  /**
    The seeding never overwrites a history file; a missing one is created
    with the seed text when it can be, and nothing else changes.
   */
  lemma SeedHistoryEffect(fs: FileSystem, home: Option<string>)
    ensures home.None? ==> SeedHistory(fs, home) == fs
    ensures home.Some? ==>
      var path := home.value + "/" + TardiHistory;
      && (path in fs.files ==> SeedHistory(fs, home) == fs)
      && (path !in fs.files && path in fs.creatable ==> HomeFile(SeedHistory(fs, home), home, TardiHistory) == Some(FirstInHistory()))
      && (path !in fs.files && path !in fs.creatable ==> HomeFile(SeedHistory(fs, home), home, TardiHistory) == None)
      && forall p :: p != path ==> ReadFile(SeedHistory(fs, home), p) == ReadFile(fs, p)
  {
  }

  // ------------------------------------------------------------ URLs

  /** The part of an extra input that marks it as a URL. */
  const UrlMarker: string := "/http"
  const HttpsScheme: string := "https://"
  const HttpScheme: string := "http://"

  /** An input holding `/http` is fetched over HTTP; any other is read as a file. */
  predicate IsUrl(s: string) {
    Contains(s, UrlMarker)
  }

  /**
    The rewrite at the top of `GetHttpRequestAsString`: every `/https://`
    loses its slash, then every `/http://` does.
   */
  function RewriteUrl(s: string): string {
    var once := ReplaceAll(s, "/" + HttpsScheme, HttpsScheme);
    ReplaceAll(once, "/" + HttpScheme, HttpScheme)
  }

  /** A pattern that starts with `/http` cannot occur where `/http` does not. */
  lemma MarkerAbsent(s: string, pat: string)
    requires HasPrefix(pat, UrlMarker) && !Contains(s, UrlMarker)
    ensures !Contains(s, pat)
  {
    if Contains(s, pat) {
      var j := Find(s, pat);
      assert s[j..j + |UrlMarker|] == pat[..|UrlMarker|];
      OccursContains(s, UrlMarker, j);
    }
  }

  /** Text without `/http` passes the rewrite unchanged. */
  lemma RewritePlain(s: string)
    requires !IsUrl(s)
    ensures RewriteUrl(s) == s
  {
    MarkerAbsent(s, "/" + HttpsScheme);
    ReplaceAllAbsent(s, "/" + HttpsScheme, HttpsScheme);
    MarkerAbsent(s, "/" + HttpScheme);
    ReplaceAllAbsent(s, "/" + HttpScheme, HttpScheme);
  }

  /** A pattern at the very front is replaced, and the scan goes on after it. */
  lemma ReplaceAllLeading(pat: string, u: string, rep: string)
    requires |pat| > 0
    ensures ReplaceAll(pat + u, pat, rep) == rep + ReplaceAll(u, pat, rep)
  {
    var s := pat + u;
    assert s[..|pat|] == pat;
    assert s[|pat|..] == u;
  }

  /** A pattern absent from `u` that starts at no position of `a` is absent from `a + u`. */
  lemma AbsentAcross(a: string, u: string, pat: string)
    requires !Contains(u, pat)
    requires forall j :: 0 <= j < |a| ==> !OccursAt(a + u, pat, j)
    ensures !Contains(a + u, pat)
  {
    if Contains(a + u, pat) {
      var s := a + u;
      var j := Find(s, pat);
      assert s[j..j + |pat|] == u[j - |a|..j - |a| + |pat|];
      OccursContains(u, pat, j - |a|);
    }
  }

  /** After `https://`, a `/http://` can only start where `u` begins with `http://`. */
  lemma NoHttpAfterHttps(u: string)
    requires !HasPrefix(u, HttpScheme) && !Contains(u, "/" + HttpScheme)
    ensures !Contains(HttpsScheme + u, "/" + HttpScheme)
  {
    var a := HttpsScheme;
    var pat := "/" + HttpScheme;
    var s := a + u;
    forall j | 0 <= j < |a| ensures !OccursAt(s, pat, j) {
      if j + |pat| <= |s| {
        var w := s[j..j + |pat|];
        if j < 6 {
          assert w[0] == a[j] != pat[0];
        } else if j == 6 {
          assert w[1] == a[7] != pat[1];
        } else {
          assert w[1..] == u[..|HttpScheme|];
          assert pat[1..] == HttpScheme;
          assert !HasPrefix(u, HttpScheme);
        }
      }
    }
    AbsentAcross(a, u, pat);
  }

  /** After `/http://`, a `/https://` can only start where `u` begins with `https://`. */
  lemma NoHttpsAfterHttp(u: string)
    requires !HasPrefix(u, HttpsScheme) && !Contains(u, "/" + HttpsScheme)
    ensures !Contains("/" + HttpScheme + u, "/" + HttpsScheme)
  {
    var a := "/" + HttpScheme;
    var pat := "/" + HttpsScheme;
    var s := a + u;
    forall j | 0 <= j < |a| ensures !OccursAt(s, pat, j) {
      if j + |pat| <= |s| {
        var w := s[j..j + |pat|];
        if j == 0 {
          assert w[5] == a[5] != pat[5];
        } else if j < 6 {
          assert w[0] == a[j] != pat[0];
        } else if j == 6 {
          assert w[1] == a[7] != pat[1];
        } else {
          assert j == 7 && |u| >= 8;
          forall i | 0 <= i < 8 ensures w[1 + i] == u[i] {
            assert w[1 + i] == s[8 + i];
          }
          assert w[1..] == u[..8];
          assert pat[1..] == HttpsScheme;
        }
      }
    }
    AbsentAcross(a, u, pat);
  }

  /**
    An extra input written as a path, `/https://host/...` or
    `/http://host/...`, is dispatched as a URL and loses its leading slash,
    as long as the rest holds no further scheme.
   */
  lemma RewriteLeadingSlash(scheme: string, u: string)
    requires scheme == HttpsScheme || scheme == HttpScheme
    requires !Contains(u, "/" + HttpsScheme) && !Contains(u, "/" + HttpScheme)
    requires !HasPrefix(u, HttpsScheme) && !HasPrefix(u, HttpScheme)
    ensures IsUrl("/" + scheme + u)
    ensures RewriteUrl("/" + scheme + u) == scheme + u
  {
    var s := "/" + scheme + u;
    assert s[0..|UrlMarker|] == UrlMarker;
    OccursContains(s, UrlMarker, 0);
    ReplaceAllAbsent(u, "/" + HttpsScheme, HttpsScheme);
    ReplaceAllAbsent(u, "/" + HttpScheme, HttpScheme);
    if scheme == HttpsScheme {
      assert s == ("/" + HttpsScheme) + u;
      ReplaceAllLeading("/" + HttpsScheme, u, HttpsScheme);
      NoHttpAfterHttps(u);
      ReplaceAllAbsent(HttpsScheme + u, "/" + HttpScheme, HttpScheme);
    } else {
      assert s == ("/" + HttpScheme) + u;
      NoHttpsAfterHttp(u);
      ReplaceAllAbsent(s, "/" + HttpsScheme, HttpsScheme);
      ReplaceAllLeading("/" + HttpScheme, u, HttpScheme);
    }
  }

  /** The file-or-URL dispatch of `appendFileListContent`. */
  function Fetched(fs: FileSystem, input: string, fetch: string -> Option<string>): Option<string> {
    if IsUrl(input) then fetch(RewriteUrl(input)) else ReadFile(fs, input)
  }

  // ------------------------------------------------------------ merging the sources

  /** `appendMap` applied to each source in turn, starting from `acc`. */
  function MergeAll(acc: Option<seq<Entry>>, srcs: seq<Option<seq<Entry>>>): Option<seq<Entry>>
    decreases |srcs|
  {
    if srcs == [] then acc
    else MergeOpt(MergeAll(acc, srcs[..|srcs| - 1]), srcs[|srcs| - 1])
  }

  /** The value of `k` in the last source that holds it. */
  function LastValue(srcs: seq<Option<seq<Entry>>>, k: string): (r: Option<Raw>)
    ensures r.Some? ==> exists i :: 0 <= i < |srcs| && srcs[i].Some? && Lookup(srcs[i].value, k) == r
    decreases |srcs|
  {
    if srcs == [] then None
    else
      var last := srcs[|srcs| - 1];
      if last.Some? && Lookup(last.value, k).Some? then Lookup(last.value, k)
      else LastValue(srcs[..|srcs| - 1], k)
  }

  /** Every source that is present holds a Go map. */
  predicate AllDistinct(srcs: seq<Option<seq<Entry>>>) {
    forall i :: 0 <= i < |srcs| && srcs[i].Some? ==> DistinctKeys(srcs[i].value)
  }

  /**
    Later sources override earlier ones: the merged content is nil exactly
    when every source is nil, and otherwise each key has the value of the
    last source holding it.
   */
  lemma {:induction false} MergeAllLookup(srcs: seq<Option<seq<Entry>>>, k: string)
    requires AllDistinct(srcs)
    ensures MergeAll(None, srcs).None? <==> forall i :: 0 <= i < |srcs| ==> srcs[i].None?
    ensures MergeAll(None, srcs).Some? ==> Lookup(MergeAll(None, srcs).value, k) == LastValue(srcs, k)
    decreases |srcs|
  {
    if srcs != [] {
      var n := |srcs| - 1;
      var init := srcs[..n];
      assert AllDistinct(init);
      MergeAllLookup(init, k);
      var m := MergeAll(None, init);
      if m.None? && srcs[n].Some? {
        assert LastValue(init, k) == None;
      }
      if m.Some? && srcs[n].Some? {
        MergeLookup(m.value, srcs[n].value, k);
      }
      forall i | 0 <= i < n ensures srcs[i] == init[i] { }
    }
  }

  /** The three fixed sources, in merge order: the home content, the local content, the history. */
  function BaseSources(fs: FileSystem, home: Option<string>, unmarshal: string -> seq<Entry>): (srcs: seq<Option<seq<Entry>>>)
    ensures |srcs| == 3
  {
    [ Decoded(HomeFile(fs, home, TardiContent), unmarshal),
      Decoded(ReadFile(fs, TardiContent), unmarshal),
      Decoded(HomeFile(SeedHistory(fs, home), home, TardiHistory), unmarshal) ]
  }

  /** The extra inputs, in the order given; they are read after the history is seeded. */
  function FileSources(fs: FileSystem, files: seq<string>, fetch: string -> Option<string>, unmarshal: string -> seq<Entry>): seq<Option<seq<Entry>>>
  {
    if files == [] then []
    else
      FileSources(fs, files[..|files| - 1], fetch, unmarshal)
        + [Decoded(Fetched(fs, files[|files| - 1], fetch), unmarshal)]
  }

  /** The extra inputs are merged only when they are files to read, or when no filter is set. */
  predicate ReadsFiles(action: FilterType) {
    action == FilterFiles || action == FilterNone
  }

  /** All the sources `GetRawMapContent` merges, in order. */
  function Sources(fs: FileSystem, home: Option<string>, files: seq<string>, action: FilterType,
                   fetch: string -> Option<string>, unmarshal: string -> seq<Entry>): seq<Option<seq<Entry>>>
  {
    BaseSources(fs, home, unmarshal)
      + if ReadsFiles(action) then FileSources(SeedHistory(fs, home), files, fetch, unmarshal) else []
  }

  /** The dummy content: one group holding two commands. */
  const DummyGroup: string := "group10"
  const DummyBody: string := DummyGroup + ":" + "\n" + "  - ls -la" + "\n" + "  - echo hi" + "\n"

  /** `getDummyStr(prefix)`: the dummy content with `prefix` in front of the group name. */
  function GetDummyStr(prefix: string): string {
    prefix + DummyBody
  }

  /** The lines of the dummy content. */
  const DummyLines: seq<string> := [DummyGroup + ":", "  - ls -la", "  - echo hi", ""]

  lemma DummyBodyLines()
    ensures DummyBody == Join(DummyLines, "\n")
  {
    assert DummyLines[1..][1..][1..] == [""];
    assert DummyLines[1..][1..] == ["  - echo hi", ""];
    assert DummyLines[1..] == ["  - ls -la", "  - echo hi", ""];
    var tail2 := "  - echo hi" + "\n" + "";
    var tail1 := "  - ls -la" + "\n" + tail2;
    assert Join(DummyLines[1..][1..], "\n") == tail2;
    assert Join(DummyLines[1..], "\n") == tail1;
    assert DummyBody == DummyLines[0] + "\n" + tail1;
  }

  /**
    The prefix goes in front of the group name: the text is the group
    `prefix + "group10"` and its two commands, one line each.
   */
  lemma DummyStrLines(prefix: string)
    requires '\n' !in prefix
    ensures Split(GetDummyStr(prefix), '\n') == [prefix + DummyGroup + ":", "  - ls -la", "  - echo hi", ""]
  {
    DummyBodyLines();
    JoinPrefix(prefix, DummyLines, "\n");
    var lines := [prefix + DummyLines[0]] + DummyLines[1..];
    assert DummyLines[1..] == ["  - ls -la", "  - echo hi", ""];
    assert prefix + DummyLines[0] == prefix + DummyGroup + ":";
    assert lines == [prefix + DummyGroup + ":", "  - ls -la", "  - echo hi", ""];
    SplitOfJoin(lines, '\n');
  }

  /** `GetRawMapContent` on values: the merged sources, or the decoded dummy content when all are nil. */
  function RawContent(fs: FileSystem, home: Option<string>, files: seq<string>, action: FilterType,
                      fetch: string -> Option<string>, unmarshal: string -> seq<Entry>): seq<Entry>
  {
    var merged := MergeAll(None, Sources(fs, home, files, action, fetch, unmarshal));
    if merged.None? then unmarshal(GetDummyStr("")) else merged.value
  }

  /**
    The dummy content is used exactly when no source could be read; a
    readable but empty file is a source, and then every key has the value
    of the last source that holds it.
   */
  lemma RawContentLookup(fs: FileSystem, home: Option<string>, files: seq<string>, action: FilterType,
                         fetch: string -> Option<string>, unmarshal: string -> seq<Entry>, k: string)
    requires Decoder(unmarshal)
    ensures var srcs := Sources(fs, home, files, action, fetch, unmarshal);
      var r := RawContent(fs, home, files, action, fetch, unmarshal);
      && ((forall i :: 0 <= i < |srcs| ==> srcs[i].None?) ==> r == unmarshal(GetDummyStr("")))
      && ((exists i :: 0 <= i < |srcs| && srcs[i].Some?) ==> Lookup(r, k) == LastValue(srcs, k))
  {
    var srcs := Sources(fs, home, files, action, fetch, unmarshal);
    SourcesDistinct(fs, home, files, action, fetch, unmarshal);
    MergeAllLookup(srcs, k);
  }

  /** Every source the reader merges was decoded into a Go map. */
  lemma SourcesDistinct(fs: FileSystem, home: Option<string>, files: seq<string>, action: FilterType,
                        fetch: string -> Option<string>, unmarshal: string -> seq<Entry>)
    requires Decoder(unmarshal)
    ensures AllDistinct(Sources(fs, home, files, action, fetch, unmarshal))
  {
    var base := BaseSources(fs, home, unmarshal);
    var extra := if ReadsFiles(action) then FileSources(SeedHistory(fs, home), files, fetch, unmarshal) else [];
    FileSourcesDistinct(SeedHistory(fs, home), files, fetch, unmarshal);
    forall i | 0 <= i < |base| && base[i].Some? ensures DistinctKeys(base[i].value) {
      DecodedDistinct(base[i], unmarshal);
    }
    assert Sources(fs, home, files, action, fetch, unmarshal) == base + extra;
  }

  /** Every extra input that yields content yields a Go map. */
  lemma {:induction false} FileSourcesDistinct(fs: FileSystem, files: seq<string>,
                                               fetch: string -> Option<string>, unmarshal: string -> seq<Entry>)
    requires Decoder(unmarshal)
    ensures AllDistinct(FileSources(fs, files, fetch, unmarshal))
    decreases |files|
  {
    if files != [] {
      FileSourcesDistinct(fs, files[..|files| - 1], fetch, unmarshal);
      var last := Decoded(Fetched(fs, files[|files| - 1], fetch), unmarshal);
      if last.Some? {
        DecodedDistinct(last, unmarshal);
      }
    }
  }

  /** What `Unmarshall` returns holds a Go map. */
  lemma DecodedDistinct(src: Option<seq<Entry>>, unmarshal: string -> seq<Entry>)
    requires Decoder(unmarshal)
    requires exists text :: src == Decoded(text, unmarshal)
    requires src.Some?
    ensures DistinctKeys(src.value)
  {
    var text :| src == Decoded(text, unmarshal);
    assert src.value == unmarshal(text.value);
  }

  /** Under a tag or free-text filter the extra inputs are neither fetched nor read. */
  lemma FilesIgnored(fs: FileSystem, home: Option<string>, files: seq<string>, action: FilterType,
                     fetch: string -> Option<string>, unmarshal: string -> seq<Entry>)
    requires !ReadsFiles(action)
    ensures RawContent(fs, home, files, action, fetch, unmarshal) == RawContent(fs, home, [], FilterNone, fetch, unmarshal)
  {
    assert Sources(fs, home, files, action, fetch, unmarshal) == BaseSources(fs, home, unmarshal);
    assert Sources(fs, home, [], FilterNone, fetch, unmarshal) == BaseSources(fs, home, unmarshal);
  }

  // ------------------------------------------------------------ the reading code

  /** `getUserHomeFileContent(name)`: a fresh decoded map, or nil. */
  method GetUserHomeFileContent(fs: FileSystem, home: Option<string>, name: string, unmarshal: string -> seq<Entry>)
      returns (m: GoMap?)
    ensures m != null ==> fresh(m)
    ensures View(m) == Decoded(HomeFile(fs, home, name), unmarshal)
  {
    if home.None? {
      return null;
    }
    var text := ReadFile(fs, home.value + "/" + name);
    if text.None? {
      return null;
    }
    m := new GoMap(unmarshal(text.value));
  }

  /** `getLocalContent`: the content file under the working directory. */
  method GetLocalContent(fs: FileSystem, unmarshal: string -> seq<Entry>) returns (m: GoMap?)
    ensures m != null ==> fresh(m)
    ensures View(m) == Decoded(ReadFile(fs, TardiContent), unmarshal)
  {
    var text := ReadFile(fs, TardiContent);
    if text.None? {
      return null;
    }
    m := new GoMap(unmarshal(text.value));
  }

  /** `getHistoryContent`: seed a missing history file, then read it. */
  method GetHistoryContent(fs: FileSystem, home: Option<string>, unmarshal: string -> seq<Entry>)
      returns (m: GoMap?, fs': FileSystem)
    ensures fs' == SeedHistory(fs, home)
    ensures m != null ==> fresh(m)
    ensures View(m) == Decoded(HomeFile(fs', home, TardiHistory), unmarshal)
  {
    fs' := fs;
    if home.None? {
      return null, fs';
    }
    var path := home.value + "/" + TardiHistory;
    if path !in fs.files {
      fs' := WriteFile(fs, path, FirstInHistory());
    }
    m := GetUserHomeFileContent(fs', home, TardiHistory, unmarshal);
  }

  /**
    `appendFileListContent`: fetch or read each input in turn, skip the
    ones that yield nothing and merge the others into `m`.
   */
  method AppendFileListContent(m: GoMap?, files: seq<string>, fs: FileSystem,
                               fetch: string -> Option<string>, unmarshal: string -> seq<Entry>)
      returns (r: GoMap?)
    modifies m
    ensures View(r) == MergeAll(old(View(m)), FileSources(fs, files, fetch, unmarshal))
    ensures m != null ==> r == m
    ensures m == null && r != null ==> fresh(r)
  {
    r := m;
    for i := 0 to |files|
      invariant View(r) == MergeAll(old(View(m)), FileSources(fs, files[..i], fetch, unmarshal))
      invariant m != null ==> r == m
      invariant m == null && r != null ==> fresh(r)
    {
      MergeFileStep(old(View(m)), fs, files, i, fetch, unmarshal);
      var text := Fetched(fs, files[i], fetch);
      if text.Some? {
        var decoded := new GoMap(unmarshal(text.value));
        r := AppendMap(r, decoded);
      }
    }
    assert files[..|files|] == files;
  }

  /** One more input merges its decoded content, if any, into what the earlier ones gave. */
  lemma MergeFileStep(acc: Option<seq<Entry>>, fs: FileSystem, files: seq<string>, i: nat,
                      fetch: string -> Option<string>, unmarshal: string -> seq<Entry>)
    requires i < |files|
    ensures MergeAll(acc, FileSources(fs, files[..i + 1], fetch, unmarshal))
         == MergeOpt(MergeAll(acc, FileSources(fs, files[..i], fetch, unmarshal)),
                     Decoded(Fetched(fs, files[i], fetch), unmarshal))
  {
    assert files[..i + 1][..i] == files[..i];
  }

  /** `MergeAll` over the three fixed sources. */
  lemma MergeAllThree(srcs: seq<Option<seq<Entry>>>)
    requires |srcs| == 3
    ensures MergeAll(None, srcs) == MergeOpt(MergeOpt(srcs[0], srcs[1]), srcs[2])
  {
    assert srcs[..2][..1] == [srcs[0]];
    assert [srcs[0]][..0] == [];
    assert MergeAll(None, [srcs[0]]) == MergeOpt(None, srcs[0]);
  }

  /** `MergeAll` over a concatenation of source lists. */
  lemma {:induction false} MergeAllAppend(acc: Option<seq<Entry>>, xs: seq<Option<seq<Entry>>>, ys: seq<Option<seq<Entry>>>)
    ensures MergeAll(acc, xs + ys) == MergeAll(MergeAll(acc, xs), ys)
    decreases |ys|
  {
    if ys != [] {
      var n := |ys| - 1;
      var all := xs + ys;
      assert all[..|all| - 1] == xs + ys[..n];
      assert all[|all| - 1] == ys[n];
      MergeAllAppend(acc, xs, ys[..n]);
    } else {
      assert xs + ys == xs;
    }
  }

  /**
    `GetRawMapContent`: merge the home content, the local content and the
    history, then the extra inputs when the filter allows, and fall back to
    the dummy content when nothing could be read.
   */
  method GetRawMapContent(fs: FileSystem, home: Option<string>, files: seq<string>, action: FilterType,
                          fetch: string -> Option<string>, unmarshal: string -> seq<Entry>)
      returns (m: GoMap, fs': FileSystem)
    ensures fs' == SeedHistory(fs, home)
    ensures m.entries == RawContent(fs, home, files, action, fetch, unmarshal)
  {
    var user := GetUserHomeFileContent(fs, home, TardiContent, unmarshal);
    var local := GetLocalContent(fs, unmarshal);
    var history;
    history, fs' := GetHistoryContent(fs, home, unmarshal);
    ghost var base := BaseSources(fs, home, unmarshal);
    var merged := AppendMap(user, local);
    merged := AppendMap(merged, history);
    MergeAllThree(base);
    if ReadsFiles(action) {
      merged := AppendFileListContent(merged, files, fs', fetch, unmarshal);
      MergeAllAppend(None, base, FileSources(fs', files, fetch, unmarshal));
    } else {
      assert Sources(fs, home, files, action, fetch, unmarshal) == base;
    }
    if merged == null {
      m := new GoMap(unmarshal(GetDummyStr("")));
    } else {
      m := merged;
    }
  }
}
