# Dodson lexicon splitter: a verified model of its core

`scripts/split.py` reads the Dodson Greek lexicon and writes one JSON file per
initial letter. Each entry goes to the file of its headword's first letter. That
letter is looked up in a literal table of the decorated and upper-case forms the
script lists, and mapped to its bare lowercase letter. A letter the table does not
list is only lower-cased. This project models the part of that script that makes
decisions, in three modules:

- **Letters** (`letters.dfy`) covers `normalize_greek_letter` and `get_first_letter_key`.
  - The literal table is built the way the source writes it: one group of decorated
    forms per base letter, then the plain capitals, then final sigma. Groups are
    merged in source order, and no key is listed twice.
  - `DecomposedBase` gives the table an independent meaning: the base letter of a
    character is the first character of its canonical decomposition, lower-cased, with
    final sigma read as sigma. Every key of the table maps to exactly that letter.
  - The fallback `letter.lower()` is modelled as `Lower`, Python's single-character
    lower-casing on the blocks a headword can start with.
- **Partition** (`partition.dfy`) covers the grouping loop of `parse_xml_to_json`.
  - The loop is a method over a map from key to list of entries. A key never written
    reads as empty, as with a `defaultdict(list)`.
  - It is proved against `WithKey`, the input filtered by key.
- **Output** (`output.dfy`) covers `write_json_files`.
  - Keys are visited in Python's sorted string order.
  - Each group becomes a record holding the key, the count and the entries, plus the
    file name.
  - `SplitEntries` composes grouping and writing. It states the end-to-end promise:
    - the files come in a fixed key order;
    - every file holds exactly its entries, in input order;
    - the counts add up to the number of entries.

The fallback group is written first: `sorted` orders the keys by code point, and
"other" starts with 'o' (U+006F), which precedes every Greek letter (`OtherFirst`).

The table does not list every decorated Greek letter. 29 letters of Greek Extended
whose base letter is one of the 24 are missing:
- the oxia (acute) forms U+1F71, U+1F73, U+1F75, U+1F77, U+1F79, U+1F7B, U+1F7D,
  U+1FBB, U+1FC9, U+1FCB, U+1FDB, U+1FEB, U+1FF9 and U+1FFB;
- iota and upsilon with diaeresis and oxia, U+1FD3 and U+1FE3;
- the vrachy and macron forms U+1FB0, U+1FB1, U+1FB8, U+1FB9, U+1FD0, U+1FD1,
  U+1FD8, U+1FD9, U+1FE0, U+1FE1, U+1FE8 and U+1FE9;
- the prosgegrammeni U+1FBE.

`lower()` keeps each of them inside Greek Extended, so a headword they lead goes to
"other" although its base letter is a letter of the alphabet (`UnlistedIsOther`,
`OxiaAlphaIsOther`). Each oxia form, U+1FD3 and U+1FE3 included, is canonically
equivalent to a tonos form the table does list (U+1F71 to U+03AC, for example), so
the oxia forms only occur in text that is not in NFC. The model keeps this behaviour as written.

## Model

| member | source | states |
|---|---|---|
| Letters.TablePartsShape | scripts/split.py:19-64 | every key of the literal table is a decorated, upper-case or final-sigma Greek character and is mapped to its canonical-decomposition base letter, which is one of the 24 letters |
| Letters.TableShape | scripts/split.py:19-64 | for every key of the table: its value is one of the 24 letters, equals the key's base letter, and the key is not itself a base letter |
| Letters.TableValuesInAlphabet | scripts/split.py:19-64 | every value of the table is a member of the alphabet string `αβγδεζηθικλμνξοπρστυφχψω` |
| Letters.AlphabetMembership | scripts/split.py:81 | a character is in the alphabet string exactly when it is a lowercase Greek letter α..ω other than final sigma |
| Letters.AlphaDecorated | scripts/split.py:20-26 | every alpha form listed has base letter α and is not α itself |
| Letters.EpsilonDecorated | scripts/split.py:27-29 | every epsilon form listed has base letter ε and is not ε itself |
| Letters.EtaDecorated | scripts/split.py:30-36 | every eta form listed has base letter η and is not η itself |
| Letters.IotaDecorated | scripts/split.py:37-41 | every iota form listed has base letter ι and is not ι itself |
| Letters.OmicronDecorated | scripts/split.py:42-44 | every omicron form listed has base letter ο and is not ο itself |
| Letters.UpsilonDecorated | scripts/split.py:45-48 | every upsilon form listed has base letter υ and is not υ itself |
| Letters.OmegaDecorated | scripts/split.py:49-55 | every omega form listed has base letter ω and is not ω itself |
| Letters.RhoDecorated | scripts/split.py:56-57 | every rho form listed has base letter ρ and is not ρ itself |
| Letters.CapitalsShape | scripts/split.py:58-61 | each plain capital Α..Ω maps to its lowercase letter, which is its base letter |
| Letters.CapitalInTable | scripts/split.py:58-61 | every plain capital is a key of the final table, mapped to the letter 0x20 above it |
| Letters.FinalSigmaInTable | scripts/split.py:62-63 | final sigma is a key of the final table, mapped to σ |
| Letters.TableKeys | scripts/split.py:19-64 | the keys of the table are exactly the listed forms of the eight groups, the plain capitals and final sigma |
| Letters.AlphaBasedUnlisted | scripts/split.py:19-64 | a character whose base letter is alpha, that the alpha group does not list and that is not Α, is not a key of the table |
| Letters.OxiaAlphaNotListed | scripts/split.py:21 | the alpha group lists alpha with tonos (U+03AC) but not its canonical equivalent alpha with oxia (U+1F71) |
| Letters.UnlistedIsOther | scripts/split.py:66-85 | a headword led by a Greek Extended character that is not a key of the table gets the key "other", whatever that character's base letter |
| Letters.OxiaAlphaIsOther | scripts/split.py:66-85 | a headword led by alpha with oxia (base letter α) gets the key "other" |
| Letters.KeptFrom | scripts/split.py:19-64 | a key of any group is a key of the whole table |
| Letters.Lower | scripts/split.py:66 | lower-casing keeps a base letter, turns each plain capital into a different base letter, and yields a base letter only from a base letter, a plain capital, ϴ or Ω (ohm sign) |
| Letters.LowerToBase | scripts/split.py:66 | lower-casing yields a base letter exactly for base letters, plain capitals, ϴ and the ohm sign |
| Letters.NormalizeGreekLetter | scripts/split.py:13-66 | the result is a base letter exactly when the input is a key of the table or lower-cases to a base letter; a base letter is returned unchanged (idempotence on the alphabet) |
| Letters.NormalizeKey | scripts/split.py:66 | a key of the table normalises to its canonical-decomposition base letter |
| Letters.Fallback | scripts/split.py:66 | a character that is not a key of the table normalises to its lower-case form |
| Letters.AlphaNormalizes | scripts/split.py:20-26 | every listed alpha form normalises to α |
| Letters.EpsilonNormalizes | scripts/split.py:27-29 | every listed epsilon form normalises to ε |
| Letters.EtaNormalizes | scripts/split.py:30-36 | every listed eta form normalises to η |
| Letters.IotaNormalizes | scripts/split.py:37-41 | every listed iota form normalises to ι |
| Letters.OmicronNormalizes | scripts/split.py:42-44 | every listed omicron form normalises to ο |
| Letters.UpsilonNormalizes | scripts/split.py:45-48 | every listed upsilon form normalises to υ |
| Letters.OmegaNormalizes | scripts/split.py:49-55 | every listed omega form normalises to ω |
| Letters.RhoNormalizes | scripts/split.py:56-57 | every listed rho form normalises to ρ |
| Letters.AlphaExamples | scripts/split.py:21-22 | alpha with rough breathing and acute (ἅ) and alpha with circumflex (ᾶ) both normalise to α |
| Letters.SymbolsNormalize | scripts/split.py:66 | the capital theta symbol and the ohm sign, absent from the table, still reach θ and ω through lower-casing |
| Letters.SigmaForms | scripts/split.py:61-66 | σ, ς and Σ all normalise to σ |
| Letters.FirstLetterKey | scripts/split.py:69-85 | the key is a single alphabet letter or "other"; an empty headword gives "other"; otherwise the key is a letter exactly when the first character is a table key or lower-cases to a base letter, and then it is that character normalised |
| Letters.SigmaShareKey | scripts/split.py:77-83 | headwords led by σ, ς or Σ share the key "σ" |
| Letters.LatinLeadIsOther | scripts/split.py:77-85 | a headword led by a character below U+0386 (digit, Latin letter, punctuation) gets the key "other" |
| Letters.AlphaLead | scripts/split.py:77-83 | a headword led by a listed alpha form gets the key "α" |
| Letters.BaseLead | scripts/split.py:77-83 | a headword led by a base letter gets that letter as its key |
| Partition.KeyOf | scripts/split.py:124 | an entry's key is a grouping key; an empty headword gives "other" |
| Partition.GroupBy | scripts/split.py:97-125 | after the loop each key's group is exactly the entries with that key in input order; the keys present are exactly the keys of some entry; no group is empty |
| Partition.GroupEntries | scripts/split.py:97-125 | the same for the headword key, and every key present is a letter of the alphabet or "other" |
| Partition.Appended | scripts/split.py:124-125 | reading one more entry adds its key and appends it to its own group only |
| Partition.AppendedOne | scripts/split.py:124-125 | appending an entry extends the group of its key by it and leaves the other groups as they were |
| Partition.InGroupIff | scripts/split.py:124-125 | an entry is in a key's group exactly when it is an input entry with that key (no entry dropped, none misplaced) |
| Partition.GroupPositions | scripts/split.py:125 | a group's members sit at strictly increasing input positions (order preserved) |
| Partition.PositionsComplete | scripts/split.py:125 | every input position holding an entry with a key is among that group's positions |
| Partition.GroupingDetermined | scripts/split.py:97-125 | two dictionaries holding the groups of the same entries are equal (determinism) |
| Partition.TotalSizeEmpty | scripts/split.py:97 | with no entries every group is empty |
| Partition.TotalSizeAppended | scripts/split.py:124-125 | one more entry adds one to the total of a duplicate-free key list exactly when its key is listed |
| Partition.GroupsPartition | scripts/split.py:97-125 | the groups of distinct keys covering all entries' keys add up to the number of entries |
| Partition.ExampleKeys | scripts/split.py:69-85 | ἄνθρωπος and ἀγάπη get key α, βίος gets β, the empty headword gets "other" |
| Partition.ExampleGroups | scripts/split.py:97-125 | grouping [ἄνθρωπος, ἀγάπη, βίος, empty] gives α: the first two in order, β: the third, other: the fourth, and no other key |
| Partition.ExampleByKeys | scripts/split.py:124-125 | four entries keyed α, α, β, other group as α: [first, second], β: [third], other: [fourth] |
| Output.StrLessIrreflexive | scripts/split.py:141 | no string sorts before itself |
| Output.StrLessTransitive | scripts/split.py:141 | string order is transitive |
| Output.StrLessTotal | scripts/split.py:141 | of two different strings one sorts first |
| Output.MinKey | scripts/split.py:141 | the chosen key is in the set and sorts before every other key of it |
| Output.SortKeys | scripts/split.py:141 | the result is strictly ascending and holds exactly the keys of the set |
| Output.AscendingListingUnique | scripts/split.py:141 | two strictly ascending listings with the same members are equal (sorting has one result) |
| Output.AscendingNoDuplicates | scripts/split.py:141 | a strictly ascending listing has no repeated key |
| Output.AlphabetCodePoint | scripts/split.py:81 | the i-th letter of the alphabet has code point U+03B1 + i, skipping final sigma |
| Output.SingleLess | scripts/split.py:141 | one-character keys compare as their characters |
| Output.KeyOrderAscending | scripts/split.py:141 | "other" followed by the 24 letters in alphabet order is strictly ascending |
| Output.KeyOrderMembers | scripts/split.py:75-85 | that listing holds exactly the grouping keys |
| Output.Keep | scripts/split.py:141 | keeps exactly the listed keys that are present and preserves ascending order |
| Output.SortedKeysInKeyOrder | scripts/split.py:141 | sorting any set of grouping keys gives "other" first (if present), then the letters in alphabet order |
| Output.OtherFirst | scripts/split.py:141 | when the fallback group exists it is written first |
| Output.FileName | scripts/split.py:145-148 | both branches name the file after its key with ".json" appended |
| Output.WriteJsonFiles | scripts/split.py:138-163 | one record per key in ascending key order, the keys written being exactly the keys present; each holds its key's group and the group's length and is named key + ".json" |
| Output.TotalCountIsTotalSize | scripts/split.py:156 | the counts of the written records add up to the total size of their groups |
| Output.SplitEntries | scripts/split.py:123-160 | grouping then writing gives records in key order for exactly the keys some entry has; each holds exactly the entries with its key, in input order, is non-empty and counts them; the counts add up to the number of entries |

## Left out

- XML parsing (`ET.parse`, `findall`, attribute and text defaults, scripts/split.py:93-121) is not modelled. The entries reach the model already parsed, as `Entry` values whose missing fields are empty strings.
- Directory creation, file writing, `json.dump` formatting and `print` (scripts/split.py:134-136, 150-161) are not modelled. Writing a file is modelled as returning a `LetterFile` record and its name.
- `main` (scripts/split.py:166-187) is not modelled. It only fixes the paths and reports counts.
- Lower: models `str.lower()` only on ASCII, Latin-1, the Greek capitals U+0386..U+03AB, ϴ (U+03F4), Greek Extended and the ohm sign.
  - Elsewhere a character is kept as it is. This includes other scripts, the archaic and Coptic letters of U+03D0..U+03FF, and U+0130, whose lower case is two characters.
  - None of these can lower-case to a Greek base letter, so no key changes.
- FirstLetterKey: the source tests `normalized in greek_alphabet` as a substring test on the string `lower()` returns. The model's normalised value is one character, so the test is plain membership. Multi-character lower-case results are not modelled.
- SortKeys: Python's `sorted` is modelled by its result (strictly ascending, same elements), built by repeated minimum selection. Timsort itself is not modelled.
- GroupPositions and the other grouping lemmas speak about the entry values. Two identical entries are not told apart, but the positions in `GroupPositions` do tell them apart.
