/** Writing the groups out (scripts/split.py, write_json_files): one file per key
    present, visited in sorted key order, each holding the key, the number of its
    entries and the entries. The file system is replaced by the returned list of
    file contents. */
module Output {
  import opened Letters
  import opened Partition

  // ---------------------------------------------------------------------------
  // Python's string order and sorted()
  // ---------------------------------------------------------------------------

  /** Python's `<` on strings: lexicographic by code point, a proper prefix first. */
  predicate StrLess(a: string, b: string) {
    if a == [] then b != []
    else b != [] && if a[0] != b[0] then a[0] < b[0] else StrLess(a[1..], b[1..])
  }

  lemma {:induction false} StrLessIrreflexive(a: string)
    ensures !StrLess(a, a)
  {
    if a != [] {
      StrLessIrreflexive(a[1..]);
    }
  }

  lemma {:induction false} StrLessTransitive(a: string, b: string, c: string)
    requires StrLess(a, b) && StrLess(b, c)
    ensures StrLess(a, c)
  {
    if a != [] && a[0] == b[0] && b[0] == c[0] {
      StrLessTransitive(a[1..], b[1..], c[1..]);
    }
  }

  lemma {:induction false} StrLessTotal(a: string, b: string)
    requires a != b
    ensures StrLess(a, b) || StrLess(b, a)
  {
    if a != [] && b != [] && a[0] == b[0] {
      assert a == [a[0]] + a[1..] && b == [b[0]] + b[1..];
      StrLessTotal(a[1..], b[1..]);
    }
  }

  /** Every later string is greater: sorted, without duplicates. */
  predicate StrictlyAscending(s: seq<string>) {
    forall i, j | 0 <= i < j < |s| :: StrLess(s[i], s[j])
  }

  /** The least string of a non-empty set. */
  method MinKey(keys: set<string>) returns (least: string)
    requires keys != {}
    ensures least in keys
    ensures forall k | k in keys && k != least :: StrLess(least, k)
  {
    least :| least in keys;
    var rest := keys - {least};
    while rest != {}
      invariant rest <= keys && least in keys && least !in rest
      invariant forall k | k in keys && k !in rest && k != least :: StrLess(least, k)
      decreases |rest|
    {
      var k :| k in rest;
      if StrLess(k, least) {
        forall o | o in keys && o !in rest && o != least
          ensures StrLess(k, o)
        {
          StrLessTransitive(k, least, o);
        }
        least := k;
      } else {
        StrLessTotal(k, least);
      }
      rest := rest - {k};
    }
  }

  /** `sorted()` of a set of keys: the keys in strictly ascending order, each once. */
  method SortKeys(keys: set<string>) returns (sorted: seq<string>)
    ensures StrictlyAscending(sorted)
    ensures forall k :: k in sorted <==> k in keys
  {
    sorted := [];
    var rest := keys;
    while rest != {}
      invariant rest <= keys
      invariant forall k :: k in sorted <==> k in keys && k !in rest
      invariant StrictlyAscending(sorted)
      invariant forall i, k | 0 <= i < |sorted| && k in rest :: StrLess(sorted[i], k)
      decreases |rest|
    {
      var least := MinKey(rest);
      sorted := sorted + [least];
      rest := rest - {least};
    }
  }

  lemma SameEmptiness(a: seq<string>, b: seq<string>)
    requires forall k :: k in a <==> k in b
    ensures a == [] <==> b == []
  {
    if a != [] {
      assert a[0] in a;
    }
    if b != [] {
      assert b[0] in b;
    }
  }

  lemma Later(a: seq<string>, b: seq<string>, k: string)
    requires StrictlyAscending(a) && StrictlyAscending(b)
    requires forall k :: k in a <==> k in b
    requires a != [] && b != [] && a[0] == b[0] && k in a[1..]
    ensures k in b[1..]
  {
    var i :| 0 <= i < |a| - 1 && a[1..][i] == k;
    assert StrLess(a[0], a[i + 1]);
    StrLessIrreflexive(a[0]);
    assert k in b;
    var j :| 0 <= j < |b| && b[j] == k;
    assert j != 0;
    assert b[1..][j - 1] == k;
  }

  /** A set has one strictly ascending listing: whatever sorts it gives this order. */
  lemma {:induction false} AscendingListingUnique(a: seq<string>, b: seq<string>)
    requires StrictlyAscending(a) && StrictlyAscending(b)
    requires forall k :: k in a <==> k in b
    ensures a == b
  {
    SameEmptiness(a, b);
    if a != [] {
      if a[0] != b[0] {
        assert b[0] in b && a[0] in a;
        var i :| 0 <= i < |a| && a[i] == b[0];
        var j :| 0 <= j < |b| && b[j] == a[0];
        assert StrLess(a[0], b[0]) && StrLess(b[0], a[0]);
        StrLessTransitive(a[0], b[0], a[0]);
        StrLessIrreflexive(a[0]);
      } else {
        forall k
          ensures k in a[1..] <==> k in b[1..]
        {
          if k in a[1..] {
            Later(a, b, k);
          }
          if k in b[1..] {
            Later(b, a, k);
          }
        }
        AscendingListingUnique(a[1..], b[1..]);
        assert a == [a[0]] + a[1..] && b == [b[0]] + b[1..];
      }
    }
  }

  lemma AscendingNoDuplicates(s: seq<string>)
    requires StrictlyAscending(s)
    ensures NoDuplicates(s)
  {
    forall i, j | 0 <= i < j < |s|
      ensures s[i] != s[j]
    {
      StrLessIrreflexive(s[i]);
    }
  }

  // ---------------------------------------------------------------------------
  // The order of the keys
  // ---------------------------------------------------------------------------

  /** Every key in sorted order: the fallback name, whose first character 'o' precedes
      every Greek letter, then the 24 letters in alphabet order. */
  const KeyOrder: seq<string> := [OtherKey] + seq(24, i requires 0 <= i < 24 => [GreekAlphabet[i]])

  /** The alphabet lists the letters by increasing code point, skipping final sigma. */
  lemma AlphabetCodePoint(i: int)
    requires 0 <= i < 24
    ensures GreekAlphabet[i] as int == 0x3B1 + i + if i >= 17 then 1 else 0
  {
  }

  /** Single-character strings compare as their characters. */
  lemma SingleLess(c: char, d: char)
    ensures StrLess([c], [d]) <==> c < d
  {
    assert [c][1..] == [];
  }

  /** The keys are listed in strictly ascending order. */
  lemma KeyOrderAscending()
    ensures StrictlyAscending(KeyOrder)
  {
    forall i, j | 0 <= i < j < |KeyOrder|
      ensures StrLess(KeyOrder[i], KeyOrder[j])
    {
      AlphabetCodePoint(j - 1);
      if i > 0 {
        AlphabetCodePoint(i - 1);
        SingleLess(KeyOrder[i][0], KeyOrder[j][0]);
      }
    }
  }

  /** The keys listed are exactly the grouping keys. */
  lemma KeyOrderMembers()
    ensures forall k :: k in KeyOrder <==> IsKey(k)
  {
    forall k | IsKey(k)
      ensures k in KeyOrder
    {
      if k != OtherKey {
        AlphabetMembership(k[0]);
        var i :| 0 <= i < 24 && GreekAlphabet[i] == k[0];
        assert KeyOrder[i + 1] == k;
      }
    }
  }

  /** The members of `order` that are in `present`, in the order of `order`. */
  function Keep(order: seq<string>, present: set<string>): (r: seq<string>)
    ensures forall k :: k in r <==> k in order && k in present
    ensures StrictlyAscending(order) ==> StrictlyAscending(r)
  {
    if order == [] then []
    else
      var rest := Keep(order[1..], present);
      assert StrictlyAscending(order) ==> forall k | k in rest :: StrLess(order[0], k);
      if order[0] in present then [order[0]] + rest else rest
  }

  /** Sorting any set of keys gives the keys in the order of `KeyOrder`: the fallback
      group first, then the letters in alphabet order. */
  lemma SortedKeysInKeyOrder(sorted: seq<string>, present: set<string>)
    requires StrictlyAscending(sorted)
    requires forall k :: k in sorted <==> k in present
    requires forall k | k in present :: IsKey(k)
    ensures sorted == Keep(KeyOrder, present)
  {
    KeyOrderAscending();
    KeyOrderMembers();
    AscendingListingUnique(sorted, Keep(KeyOrder, present));
  }

  /** When the fallback group is present, it is written first. */
  lemma OtherFirst(present: set<string>)
    requires OtherKey in present
    ensures Keep(KeyOrder, present)[0] == OtherKey
  {
    assert KeyOrder[0] == OtherKey;
  }

  // ---------------------------------------------------------------------------
  // write_json_files
  // ---------------------------------------------------------------------------

  /** The content of one output file: the key, the number of entries and the entries. */
  datatype LetterFile = LetterFile(letter: string, count: int, entries: seq<Entry>)

  /** The file name of a group: the key followed by ".json"; the fallback group is named
      "other.json", which is the same rule. */
  function FileName(letter: string): (name: string)
    ensures name == letter + ".json"
  {
    if letter == OtherKey then "other.json" else letter + ".json"
  }

  /** The keys of the written files, in writing order. */
  function FileLetters(files: seq<LetterFile>): seq<string> {
    seq(|files|, i requires 0 <= i < |files| => files[i].letter)
  }

  /** `file` holds the group of its key in `byLetter` and its count is the group's length. */
  predicate Describes(file: LetterFile, byLetter: map<string, seq<Entry>>) {
    file.letter in byLetter && file.entries == byLetter[file.letter] && file.count == |file.entries|
  }

  /** One file per key present, in ascending key order; each file holds its key's group
      and that group's length, and is named after its key. */
  method WriteJsonFiles(byLetter: map<string, seq<Entry>>) returns (filesCreated: seq<string>, written: seq<LetterFile>)
    ensures |filesCreated| == |written|
    ensures StrictlyAscending(FileLetters(written))
    ensures forall k :: k in FileLetters(written) <==> k in byLetter
    ensures forall i | 0 <= i < |written| ::
              Describes(written[i], byLetter) && filesCreated[i] == written[i].letter + ".json"
  {
    var letters := SortKeys(byLetter.Keys);
    filesCreated := [];
    written := [];
    for i := 0 to |letters|
      invariant |filesCreated| == |written| == i
      invariant FileLetters(written) == letters[..i]
      invariant forall j | 0 <= j < i ::
                  Describes(written[j], byLetter) && filesCreated[j] == written[j].letter + ".json"
    {
      var letter := letters[i];
      var entries := byLetter[letter];
      var filename := FileName(letter);
      written := written + [LetterFile(letter, |entries|, entries)];
      filesCreated := filesCreated + [filename];
    }
    assert letters[..|letters|] == letters;
  }

  /** The sum of the counts of `files`. */
  function TotalCount(files: seq<LetterFile>): int {
    if files == [] then 0 else files[0].count + TotalCount(files[1..])
  }

  lemma {:induction false} TotalCountIsTotalSize(keyOf: Entry -> string, es: seq<Entry>, files: seq<LetterFile>)
    requires forall i | 0 <= i < |files| :: files[i].count == |WithKey(keyOf, es, files[i].letter)|
    ensures TotalCount(files) == TotalSize(keyOf, es, FileLetters(files))
  {
    if files != [] {
      TotalCountIsTotalSize(keyOf, es, files[1..]);
      assert FileLetters(files)[1..] == FileLetters(files[1..]);
    }
  }

  /** The split without the file system: group the entries, then write the groups. Files
      come in the order of `KeyOrder`, one per key some entry has; each holds exactly the
      entries with its key, in input order; the counts add up to the number of entries. */
  method SplitEntries(entries: seq<Entry>) returns (filesCreated: seq<string>, written: seq<LetterFile>)
    ensures FileLetters(written) == Keep(KeyOrder, KeysOf(KeyOf, entries))
    ensures forall i | 0 <= i < |written| ::
              written[i].entries == WithKey(KeyOf, entries, written[i].letter) && written[i].entries != []
              && written[i].count == |written[i].entries|
    ensures TotalCount(written) == |entries|
    ensures |filesCreated| == |written|
    ensures forall i | 0 <= i < |written| :: filesCreated[i] == written[i].letter + ".json"
  {
    var byLetter := GroupEntries(entries);
    filesCreated, written := WriteJsonFiles(byLetter);
    SortedKeysInKeyOrder(FileLetters(written), byLetter.Keys);
    forall i | 0 <= i < |written|
      ensures written[i].entries == WithKey(KeyOf, entries, written[i].letter)
    {
      assert GroupOf(byLetter, written[i].letter) == WithKey(KeyOf, entries, written[i].letter);
    }
    TotalCountIsTotalSize(KeyOf, entries, written);
    AscendingNoDuplicates(FileLetters(written));
    GroupsPartition(KeyOf, entries, FileLetters(written));
  }
}
