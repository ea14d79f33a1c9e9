/** The grouping of lexicon entries by the key of their headword (scripts/split.py,
    parse_xml_to_json): a default dictionary from key to the list of entries, each
    entry appended to the list of its key in the order the entries are read.
    The grouping and its properties are stated for any key function `keyOf`;
    `GroupEntries` uses the headword key of module Letters. */
module Partition {
  import opened Letters

  /** One `def` element: its role attribute and its text. */
  datatype Definition = Definition(role: string, text: string)

  /** One lexicon entry: the `n` attribute, the headword (`orth`) and the definitions. */
  datatype Entry = Entry(n: string, orth: string, definitions: seq<Definition>)

  /** The group an entry belongs to: the key of its headword. */
  function KeyOf(e: Entry): (key: string)
    ensures IsKey(key)
    ensures e.orth == [] ==> key == OtherKey
  {
    FirstLetterKey(e.orth)
  }

  /** Reading a default dictionary of lists: a key never appended to reads as empty. */
  function GroupOf(byLetter: map<string, seq<Entry>>, key: string): seq<Entry> {
    if key in byLetter then byLetter[key] else []
  }

  /** The entries of `es` whose key is `key`, in their order in `es`. */
  function WithKey(keyOf: Entry -> string, es: seq<Entry>, key: string): (r: seq<Entry>)
    ensures |r| <= |es|
  {
    if es == [] then []
    else
      var last := es[|es| - 1];
      WithKey(keyOf, es[..|es| - 1], key) + if keyOf(last) == key then [last] else []
  }

  /** The keys of the entries of `es`. */
  function KeysOf(keyOf: Entry -> string, es: seq<Entry>): set<string> {
    set e | e in es :: keyOf(e)
  }

  /** The loop of parse_xml_to_json, for any key function: every entry is appended to
      the group of its key. Each group holds exactly the entries with its key, in input
      order; a key is present exactly when some entry has it, so no group is empty. */
  method GroupBy(entries: seq<Entry>, keyOf: Entry -> string) returns (byLetter: map<string, seq<Entry>>)
    ensures forall key :: GroupOf(byLetter, key) == WithKey(keyOf, entries, key)
    ensures byLetter.Keys == KeysOf(keyOf, entries)
    ensures forall key | key in byLetter :: byLetter[key] != []
  {
    byLetter := map[];
    var i := 0;
    while i < |entries|
      invariant 0 <= i <= |entries|
      invariant forall key :: GroupOf(byLetter, key) == WithKey(keyOf, entries[..i], key)
      invariant byLetter.Keys == KeysOf(keyOf, entries[..i])
      invariant forall key | key in byLetter :: byLetter[key] != []
    {
      var entry := entries[i];
      var firstLetter := keyOf(entry);
      assert entries[..i + 1] == entries[..i] + [entry];
      Appended(keyOf, entries[..i], entry);
      byLetter := byLetter[firstLetter := GroupOf(byLetter, firstLetter) + [entry]];
      i := i + 1;
    }
    assert entries[..i] == entries;
  }

  /** Reading one more entry adds its key and appends it to its own group only. */
  lemma Appended(keyOf: Entry -> string, es: seq<Entry>, e: Entry)
    ensures KeysOf(keyOf, es + [e]) == KeysOf(keyOf, es) + {keyOf(e)}
    ensures forall key :: WithKey(keyOf, es + [e], key)
                          == WithKey(keyOf, es, key) + if keyOf(e) == key then [e] else []
  {
    assert (es + [e])[..|es|] == es;
  }

  /** The grouping of the lexicon: entries grouped by the key of their headword. Every
      key present is a letter of the alphabet or the fallback name. */
  method GroupEntries(entries: seq<Entry>) returns (byLetter: map<string, seq<Entry>>)
    ensures forall key :: GroupOf(byLetter, key) == WithKey(KeyOf, entries, key)
    ensures byLetter.Keys == KeysOf(KeyOf, entries)
    ensures forall key | key in byLetter :: IsKey(key) && byLetter[key] != []
  {
    byLetter := GroupBy(entries, KeyOf);
  }

  /** The grouping is determined by its input: two dictionaries that both hold exactly
      the groups of the same entries are equal. */
  lemma GroupingDetermined(keyOf: Entry -> string, entries: seq<Entry>, m1: map<string, seq<Entry>>, m2: map<string, seq<Entry>>)
    requires forall key :: GroupOf(m1, key) == WithKey(keyOf, entries, key)
    requires forall key :: GroupOf(m2, key) == WithKey(keyOf, entries, key)
    requires m1.Keys == KeysOf(keyOf, entries) && m2.Keys == KeysOf(keyOf, entries)
    ensures m1 == m2
  {
    forall key | key in m1
      ensures m1[key] == m2[key]
    {
      assert GroupOf(m1, key) == GroupOf(m2, key);
    }
  }

  /** An entry is in the group of `key` exactly when it is an entry with that key. */
  lemma {:induction false} InGroupIff(keyOf: Entry -> string, es: seq<Entry>, key: string, e: Entry)
    ensures e in WithKey(keyOf, es, key) <==> e in es && keyOf(e) == key
  {
    if es != [] {
      var init := es[..|es| - 1];
      InGroupIff(keyOf, init, key, e);
      assert es == init + [es[|es| - 1]];
    }
  }

  /** The positions in `es` of the entries with key `key`: strictly increasing, each
      holding the matching member of the group, and missing none. So the group of a key
      is the input order restricted to that key. */
  function GroupPositions(keyOf: Entry -> string, es: seq<Entry>, key: string): (ps: seq<int>)
    ensures |ps| == |WithKey(keyOf, es, key)|
    ensures forall j | 0 <= j < |ps| :: 0 <= ps[j] < |es| && es[ps[j]] == WithKey(keyOf, es, key)[j]
    ensures forall j, l | 0 <= j < l < |ps| :: ps[j] < ps[l]
  {
    if es == [] then []
    else
      var n := |es| - 1;
      var init := GroupPositions(keyOf, es[..n], key);
      assert forall i | 0 <= i < n :: es[..n][i] == es[i];
      if keyOf(es[n]) == key then init + [n] else init
  }

  /** Every position holding an entry with key `key` is among its group's positions. */
  lemma {:induction false} PositionsComplete(keyOf: Entry -> string, es: seq<Entry>, key: string, i: int)
    requires 0 <= i < |es| && keyOf(es[i]) == key
    ensures i in GroupPositions(keyOf, es, key)
  {
    var n := |es| - 1;
    if i < n {
      assert es[..n][i] == es[i];
      PositionsComplete(keyOf, es[..n], key, i);
    }
  }

  /** No key is listed twice. */
  predicate NoDuplicates(keys: seq<string>) {
    forall i, j | 0 <= i < j < |keys| :: keys[i] != keys[j]
  }

  /** The total length of the groups of `keys`. */
  function TotalSize(keyOf: Entry -> string, es: seq<Entry>, keys: seq<string>): nat {
    if keys == [] then 0 else |WithKey(keyOf, es, keys[0])| + TotalSize(keyOf, es, keys[1..])
  }

  lemma {:induction false} TotalSizeEmpty(keyOf: Entry -> string, keys: seq<string>)
    ensures TotalSize(keyOf, [], keys) == 0
  {
    if keys != [] {
      TotalSizeEmpty(keyOf, keys[1..]);
    }
  }

  /** One more entry adds one to the total exactly when its key is listed once. */
  lemma {:induction false} TotalSizeAppended(keyOf: Entry -> string, es: seq<Entry>, e: Entry, keys: seq<string>)
    requires NoDuplicates(keys)
    ensures TotalSize(keyOf, es + [e], keys) == TotalSize(keyOf, es, keys) + if keyOf(e) in keys then 1 else 0
  {
    if keys != [] {
      Appended(keyOf, es, e);
      TotalSizeAppended(keyOf, es, e, keys[1..]);
      assert keyOf(e) in keys <==> keyOf(e) == keys[0] || keyOf(e) in keys[1..];
      assert keyOf(e) == keys[0] ==> keyOf(e) !in keys[1..];
    }
  }

  /** The groups of a duplicate-free list of keys covering every entry's key hold all the
      entries: their lengths add up to the number of entries. */
  lemma {:induction false} GroupsPartition(keyOf: Entry -> string, es: seq<Entry>, keys: seq<string>)
    requires NoDuplicates(keys)
    requires forall e | e in es :: keyOf(e) in keys
    ensures TotalSize(keyOf, es, keys) == |es|
  {
    if es == [] {
      TotalSizeEmpty(keyOf, keys);
    } else {
      var init := es[..|es| - 1];
      var last := es[|es| - 1];
      assert es == init + [last];
      GroupsPartition(keyOf, init, keys);
      TotalSizeAppended(keyOf, init, last, keys);
    }
  }

  /** The entries of `es` + [e] with key `key`: those of `es` followed by `e` if it has it. */
  lemma AppendedOne(keyOf: Entry -> string, es: seq<Entry>, e: Entry, key: string)
    ensures WithKey(keyOf, es + [e], key) == WithKey(keyOf, es, key) + if keyOf(e) == key then [e] else []
  {
    assert (es + [e])[..|es|] == es;
  }

  /** The group of `key` among four entries, entry by entry. */
  lemma FourGroup(keyOf: Entry -> string, a: Entry, b: Entry, c: Entry, d: Entry, key: string)
    ensures WithKey(keyOf, [a, b, c, d], key)
            == (if keyOf(a) == key then [a] else []) + (if keyOf(b) == key then [b] else [])
               + (if keyOf(c) == key then [c] else []) + (if keyOf(d) == key then [d] else [])
  {
    assert [] + [a] == [a] && [a] + [b] == [a, b] && [a, b] + [c] == [a, b, c] && [a, b, c] + [d] == [a, b, c, d];
    AppendedOne(keyOf, [], a, key);
    AppendedOne(keyOf, [a], b, key);
    AppendedOne(keyOf, [a, b], c, key);
    AppendedOne(keyOf, [a, b, c], d, key);
  }

  /** The keys present among four entries. */
  lemma FourKeys(keyOf: Entry -> string, a: Entry, b: Entry, c: Entry, d: Entry)
    ensures KeysOf(keyOf, [a, b, c, d]) == {keyOf(a), keyOf(b), keyOf(c), keyOf(d)}
  {
    var es := [a, b, c, d];
    assert forall e | e in es :: e == a || e == b || e == c || e == d;
    assert a in es && b in es && c in es && d in es;
  }

  /** The headword keys of the worked example: two alpha words with breathing and accent,
      one plain beta word and an empty headword. */
  lemma ExampleKeys(a: Entry, b: Entry, c: Entry, d: Entry)
    requires a.orth == "ἄνθρωπος" && b.orth == "ἀγάπη" && c.orth == "βίος" && d.orth == ""
    ensures KeyOf(a) == "α" && KeyOf(b) == "α" && KeyOf(c) == "β" && KeyOf(d) == OtherKey
  {
    AlphaLead(a.orth);
    AlphaLead(b.orth);
    BaseLead(c.orth);
  }

  /** The worked example grouped: alpha holds the first two entries in input order, beta
      the third and the fallback group the entry with the empty headword. */
  lemma ExampleGroups(a: Entry, b: Entry, c: Entry, d: Entry)
    requires a.orth == "ἄνθρωπος" && b.orth == "ἀγάπη" && c.orth == "βίος" && d.orth == ""
    ensures WithKey(KeyOf, [a, b, c, d], "α") == [a, b]
    ensures WithKey(KeyOf, [a, b, c, d], "β") == [c]
    ensures WithKey(KeyOf, [a, b, c, d], OtherKey) == [d]
    ensures KeysOf(KeyOf, [a, b, c, d]) == {"α", "β", OtherKey}
  {
    ExampleKeys(a, b, c, d);
    ExampleByKeys(KeyOf, a, b, c, d);
  }

  /** Four entries keyed alpha, alpha, beta and the fallback, grouped. */
  lemma ExampleByKeys(keyOf: Entry -> string, a: Entry, b: Entry, c: Entry, d: Entry)
    requires keyOf(a) == "α" && keyOf(b) == "α" && keyOf(c) == "β" && keyOf(d) == OtherKey
    ensures WithKey(keyOf, [a, b, c, d], "α") == [a, b]
    ensures WithKey(keyOf, [a, b, c, d], "β") == [c]
    ensures WithKey(keyOf, [a, b, c, d], OtherKey) == [d]
    ensures KeysOf(keyOf, [a, b, c, d]) == {"α", "β", OtherKey}
  {
    FourGroup(keyOf, a, b, c, d, "α");
    FourGroup(keyOf, a, b, c, d, "β");
    FourGroup(keyOf, a, b, c, d, OtherKey);
    FourKeys(keyOf, a, b, c, d);
  }
}
