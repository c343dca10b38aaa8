/**
  The decoded YAML document, as `gopkg.in/yaml.v2` hands it to the program:
  mappings, sequences, scalars and null. A mapping is a list of entries with
  distinct keys; its order stands for Go's unspecified map iteration order.
 */
module Yaml {
  import opened Wrappers
  import opened GoStrings

  datatype Raw =
    | Null
    | Scalar(text: string)
    | Seq(items: seq<Raw>)
    | Map(entries: seq<Entry>)

  datatype Entry = Entry(key: string, value: Raw)

  function Keys(es: seq<Entry>): (ks: seq<string>)
    ensures |ks| == |es|
    ensures forall k :: 0 <= k < |es| ==> ks[k] == es[k].key
  {
    seq(|es|, k requires 0 <= k < |es| => es[k].key)
  }

  /** A Go map never holds a key twice. */
  predicate DistinctKeys(es: seq<Entry>) {
    forall j, k :: 0 <= j < k < |es| ==> es[j].key != es[k].key
  }

  /** The map lookup `m[key]`; `None` when the key is absent. */
  function Lookup(es: seq<Entry>, key: string): (r: Option<Raw>)
    ensures r.None? <==> key !in Keys(es)
    ensures r.Some? ==> exists k :: 0 <= k < |es| && es[k].key == key && es[k].value == r.value
  {
    if es == [] then None
    else if es[0].key == key then Some(es[0].value)
    else Lookup(es[1..], key)
  }

  /** In a map with distinct keys, the lookup finds the entry holding the key. */
  lemma {:induction false} LookupAt(es: seq<Entry>, k: nat)
    requires DistinctKeys(es) && k < |es|
    ensures Lookup(es, es[k].key) == Some(es[k].value)
  {
    if k > 0 {
      LookupAt(es[1..], k - 1);
    }
  }

  /** Scalars carrying the given texts. */
  function Scalars(texts: seq<string>): (items: seq<Raw>)
    ensures |items| == |texts|
    ensures forall k :: 0 <= k < |texts| ==> items[k] == Scalar(texts[k])
  {
    seq(|texts|, k requires 0 <= k < |texts| => Scalar(texts[k]))
  }

  /**
    `fmt.Sprintf("%v", v)`: a scalar prints as its text, null as `<nil>`, a
    sequence as `[a b]` and a mapping as `map[k:v]`, its entries in
    ascending order of their keys (`fmt` sorts map keys before printing).
   */
  function Display(v: Raw): string
    decreases v
  {
    match v
    case Null => "<nil>"
    case Scalar(t) => t
    case Seq(items) =>
      "[" + Join(seq(|items|, k requires 0 <= k < |items| => Display(items[k])), " ") + "]"
    case Map(es) =>
      var sorted := SortEntries(es);
      "map[" + Join(seq(|sorted|, k requires 0 <= k < |sorted| =>
        assert sorted[k] in es;
        sorted[k].key + ":" + Display(sorted[k].value)), " ") + "]"
  }

  // ---------------------------------------------------------------- key order

  /** Go's `<` on strings: lexicographic, character by character, a proper prefix first. */
  predicate KeyLess(a: string, b: string)
    decreases |a|
  {
    b != [] && (a == [] || a[0] < b[0] || (a[0] == b[0] && KeyLess(a[1..], b[1..])))
  }

  lemma {:induction false} KeyLessIrreflexive(a: string)
    ensures !KeyLess(a, a)
    decreases |a|
  {
    if a != [] {
      KeyLessIrreflexive(a[1..]);
    }
  }

  lemma {:induction false} KeyLessTransitive(a: string, b: string, c: string)
    requires KeyLess(a, b) && KeyLess(b, c)
    ensures KeyLess(a, c)
    decreases |a|
  {
    if a != [] && a[0] == b[0] && b[0] == c[0] {
      KeyLessTransitive(a[1..], b[1..], c[1..]);
    }
  }

  /** Two different keys are ordered one way or the other. */
  lemma {:induction false} KeyLessTotal(a: string, b: string)
    requires a != b
    ensures KeyLess(a, b) || KeyLess(b, a)
    decreases |a|
  {
    if a != [] && b != [] && a[0] == b[0] {
      assert a == [a[0]] + a[1..] && b == [b[0]] + b[1..];
      KeyLessTotal(a[1..], b[1..]);
    }
  }

  /** Keys strictly ascending: the order `fmt` prints a map in, which also makes them distinct. */
  predicate Ascending(es: seq<Entry>) {
    forall j, k :: 0 <= j < k < |es| ==> KeyLess(es[j].key, es[k].key)
  }

  /** Inserts `e` before the first entry whose key is greater. */
  function Insert(e: Entry, s: seq<Entry>): (r: seq<Entry>)
    ensures |r| == |s| + 1
    ensures forall x :: x in r <==> x == e || x in s
  {
    if s == [] || KeyLess(e.key, s[0].key) then [e] + s
    else [s[0]] + Insert(e, s[1..])
  }

  /** The entries sorted by key, by insertion. */
  function SortEntries(es: seq<Entry>): (r: seq<Entry>)
    ensures |r| == |es|
    ensures forall x :: x in r <==> x in es
  {
    if es == [] then [] else Insert(es[0], SortEntries(es[1..]))
  }

  /** Inserting a new key into ascending entries keeps them ascending. */
  lemma {:induction false} InsertAscending(e: Entry, s: seq<Entry>)
    requires Ascending(s) && forall k :: 0 <= k < |s| ==> s[k].key != e.key
    ensures Ascending(Insert(e, s))
  {
    var r := Insert(e, s);
    if s == [] || KeyLess(e.key, s[0].key) {
      forall j, k | 0 <= j < k < |r| ensures KeyLess(r[j].key, r[k].key) {
        if j == 0 && k > 1 {
          KeyLessTransitive(e.key, s[0].key, s[k - 1].key);
        }
      }
    } else {
      KeyLessTotal(e.key, s[0].key);
      InsertAscending(e, s[1..]);
      var t := Insert(e, s[1..]);
      assert r == [s[0]] + t;
      forall k | 0 <= k < |t| ensures KeyLess(s[0].key, t[k].key) {
        if t[k] != e {
          assert t[k] in t;
          var i :| 0 <= i < |s[1..]| && s[1..][i] == t[k];
          assert s[i + 1] == t[k];
        }
      }
    }
  }

  /** Sorting the entries of a Go map, whose keys are distinct, leaves them strictly ascending. */
  lemma {:induction false} SortEntriesAscending(es: seq<Entry>)
    requires DistinctKeys(es)
    ensures Ascending(SortEntries(es))
  {
    if es != [] {
      var rest := SortEntries(es[1..]);
      SortEntriesAscending(es[1..]);
      forall k | 0 <= k < |rest| ensures rest[k].key != es[0].key {
        assert rest[k] in rest;
        var i :| 0 <= i < |es[1..]| && es[1..][i] == rest[k];
        assert es[i + 1] == rest[k];
      }
      InsertAscending(es[0], rest);
    }
  }

  /** Ascending entry lists holding the same entries are the same list. */
  lemma {:induction false} AscendingUnique(a: seq<Entry>, b: seq<Entry>)
    requires Ascending(a) && Ascending(b)
    requires forall x :: x in a <==> x in b
    ensures a == b
    decreases |a|
  {
    EmptyTogether(a, b);
    if a != [] {
      AscendingHead(a, b);
      AscendingTail(a, b);
      AscendingTail(b, a);
      AscendingUnique(a[1..], b[1..]);
      assert a == [a[0]] + a[1..] && b == [b[0]] + b[1..];
    }
  }

  /** Lists holding the same entries are empty together. */
  lemma EmptyTogether(a: seq<Entry>, b: seq<Entry>)
    requires forall x :: x in a <==> x in b
    ensures a == [] <==> b == []
  {
    if a != [] {
      assert a[0] in b;
    }
    if b != [] {
      assert b[0] in a;
    }
  }

  /** Both lists start with the entry of least key. */
  lemma AscendingHead(a: seq<Entry>, b: seq<Entry>)
    requires Ascending(a) && Ascending(b) && a != [] && b != []
    requires forall x :: x in a <==> x in b
    ensures a[0] == b[0]
  {
    assert a[0] in b && b[0] in a;
    if a[0] != b[0] {
      var i :| 0 <= i < |b| && b[i] == a[0];
      var j :| 0 <= j < |a| && a[j] == b[0];
      KeyLessIrreflexive(a[0].key);
      KeyLessIrreflexive(b[0].key);
      KeyLessTransitive(a[0].key, b[0].key, a[0].key);
    }
  }

  /** What follows the head of one list follows the (same) head of the other. */
  lemma AscendingTail(a: seq<Entry>, b: seq<Entry>)
    requires Ascending(a) && a != [] && b != [] && a[0] == b[0]
    requires forall x :: x in a <==> x in b
    ensures forall x :: x in a[1..] ==> x in b[1..]
  {
    forall x | x in a[1..] ensures x in b[1..] {
      var i :| 1 <= i < |a| && a[i] == x;
      KeyLessIrreflexive(a[0].key);
      assert x in a;
      var j :| 0 <= j < |b| && b[j] == x;
      assert j != 0;
      assert b[1..][j - 1] == x;
    }
  }

  /**
    A mapping prints the same whatever order its entries come in: two Go
    maps holding the same entries print identically.
   */
  lemma DisplayOrderFree(a: seq<Entry>, b: seq<Entry>)
    requires DistinctKeys(a) && DistinctKeys(b)
    requires forall x :: x in a <==> x in b
    ensures Display(Map(a)) == Display(Map(b))
  {
    SortEntriesAscending(a);
    SortEntriesAscending(b);
    AscendingUnique(SortEntries(a), SortEntries(b));
  }

  /** `fmt` prints `map[b:1 a:2]` with its keys in order. */
  lemma DisplaySortsKeys()
    ensures Display(Map([Entry("b", Scalar("1")), Entry("a", Scalar("2"))])) == "map[a:2 b:1]"
  {
    var es := [Entry("b", Scalar("1")), Entry("a", Scalar("2"))];
    assert KeyLess("a", "b");
    assert SortEntries(es[1..]) == [Entry("a", Scalar("2"))];
    assert SortEntries(es) == [Entry("a", Scalar("2")), Entry("b", Scalar("1"))];
    var sorted := SortEntries(es);
    var parts := seq(|sorted|, k requires 0 <= k < |sorted| => sorted[k].key + ":" + Display(sorted[k].value));
    assert |parts| == 2 && parts[0] == "a:2" && parts[1] == "b:1";
    assert parts == ["a:2", "b:1"];
    assert parts[1..] == ["b:1"];
    assert Join(parts, " ") == "a:2 b:1";
  }

  /**
    No mapping value, at any depth reached through mappings, is null: the
    tree builder inspects the dynamic type of every mapping value and a null
    has none.
   */
  predicate NoNullMapValues(v: Raw)
    decreases v
  {
    v.Map? ==> forall k :: 0 <= k < |v.entries| ==>
      v.entries[k].value != Null && NoNullMapValues(v.entries[k].value)
  }
}
