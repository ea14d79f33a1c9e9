/** Headword normalisation and grouping key of the lexicon splitter
    (scripts/split.py). Characters are Unicode scalar values; a headword is a string. */
module Letters {

  /** The 24 lowercase base letters, in alphabet order: the grouping alphabet. */
  const GreekAlphabet: string := "αβγδεζηθικλμνξοπρστυφχψω"

  /** Name of the fallback group. */
  const OtherKey: string := "other"

  /** A lowercase base letter: a code point from alpha to omega other than final sigma. */
  predicate IsBaseLetter(c: char) {
    'α' <= c <= 'ω' && c != 'ς'
  }

  /** A plain Greek capital, Alpha to Omega (U+03A2 is unassigned). */
  predicate IsGreekCapital(c: char) {
    'Α' <= c <= 'Ω' && c != '\U{03A2}'
  }

  /** GREEK CAPITAL THETA SYMBOL, whose lower-case form is theta. */
  const ThetaSymbol: char := '\U{03F4}'

  /** OHM SIGN, whose lower-case form is omega. */
  const OhmSign: char := '\U{2126}'

  /** Membership in the alphabet string is the code-point range test. */
  lemma AlphabetMembership(c: char)
    ensures c in GreekAlphabet <==> IsBaseLetter(c)
  {
  }

  // ---------------------------------------------------------------------------
  // The normalisation table
  // ---------------------------------------------------------------------------

  /** Alpha variants: every form below maps to 'α'. */
  const AlphaForms: string := "ἀἁάὰᾶἄἂἆἅἃἇᾳᾴᾲᾷᾀᾁᾄᾂᾅᾃᾆᾇἈἉΆᾺἌἊἎἍἋἏᾼᾈᾉᾌᾊᾍᾋᾎᾏ"

  /** Epsilon variants: every form below maps to 'ε'. */
  const EpsilonForms: string := "ἐἑέὲἔἒἕἓἘἙΈῈἜἚἝἛ"

  /** Eta variants: every form below maps to 'η'. */
  const EtaForms: string := "ἠἡήὴῆἤἢἦἥἣἧῃῄῂῇᾐᾑᾔᾒᾕᾓᾖᾗἨἩΉῊἬἪἮἭἫἯῌᾘᾙᾜᾚᾝᾛᾞᾟ"

  /** Iota variants: every form below maps to 'ι'. */
  const IotaForms: string := "ἰἱίὶῖἴἲἶἵἳἷϊΐῒῗἸἹΊῚἼἺἾἽἻἿΪ"

  /** Omicron variants: every form below maps to 'ο'. */
  const OmicronForms: string := "ὀὁόὸὄὂὅὃὈὉΌῸὌὊὍὋ"

  /** Upsilon variants: every form below maps to 'υ'. */
  const UpsilonForms: string := "ὐὑύὺῦὔὒὖὕὓὗϋΰῢῧὙΎῪὝὛὟΫ"

  /** Omega variants: every form below maps to 'ω'. */
  const OmegaForms: string := "ὠὡώὼῶὤὢὦὥὣὧῳῴῲῷᾠᾡᾤᾢᾥᾣᾦᾧὨὩΏῺὬὪὮὭὫὯῼᾨᾩᾬᾪᾭᾫᾮᾯ"

  /** Rho variants: every form below maps to 'ρ'. */
  const RhoForms: string := "ῥῤῬ"

  /** Every form in `forms` mapped to `base`. */
  function Strip(forms: string, base: char): (m: map<char, char>)
    ensures forall c | c in m :: c in forms && m[c] == base
  {
    map c | c in forms :: base
  }

  /** A list of table groups, merged in order by `Merge`. */
  datatype Parts = NoParts | Then(first: map<char, char>, rest: Parts)

  /** The groups of `parts` merged into one map; a later key overrides an earlier one,
      as in a dictionary display. */
  function Merge(parts: Parts): map<char, char> {
    match parts
    case NoParts => map[]
    case Then(first, rest) => first + Merge(rest)
  }

  /** Simple uppercase to lowercase: the 24 plain capitals, U+0391 to U+03A9 less the
      unassigned U+03A2, each mapped to the lowercase letter 0x20 above it. */
  const PlainCapitals: map<char, char> :=
    map c | IsGreekCapital(c) :: (c as int + 0x20) as char

  /** Final sigma. */
  const FinalSigma: map<char, char> := map['ς' := 'σ']

  /** The table groups in the order the table lists them: the breathing, accent,
      diaeresis and iota-subscript forms of the vowels and of rho, then the plain
      capitals, then final sigma. `FromEta` is the list from the eta group on, and so on. */
  const FromCapitals: Parts := Then(PlainCapitals, Then(FinalSigma, NoParts))
  const FromRho: Parts := Then(Strip(RhoForms, 'ρ'), FromCapitals)
  const FromOmega: Parts := Then(Strip(OmegaForms, 'ω'), FromRho)
  const FromUpsilon: Parts := Then(Strip(UpsilonForms, 'υ'), FromOmega)
  const FromOmicron: Parts := Then(Strip(OmicronForms, 'ο'), FromUpsilon)
  const FromIota: Parts := Then(Strip(IotaForms, 'ι'), FromOmicron)
  const FromEta: Parts := Then(Strip(EtaForms, 'η'), FromIota)
  const FromEpsilon: Parts := Then(Strip(EpsilonForms, 'ε'), FromEta)
  const TableParts: Parts := Then(Strip(AlphaForms, 'α'), FromEpsilon)

  /** Decorated and upper-case letters mapped to their bare lowercase base letter,
      with final sigma mapped to sigma. */
  const NormalizationTable: map<char, char> := Merge(TableParts)

  // ---------------------------------------------------------------------------
  // What the table means
  // ---------------------------------------------------------------------------

  /** The base letter of a letter of the Greek and Coptic block from U+0386 to U+03CE or
      of the Greek Extended block: the first character of its canonical decomposition,
      lower-cased, with final sigma read as sigma (Unicode 15.0). Written out by code
      point. Every other character, including the spacing accents and the unassigned
      code points of Greek Extended, is returned unchanged. */
  function DecomposedBase(c: char): char {
    var n := c as int;
    if '\U{1F00}' <= c <= '\U{1FFF}' then ExtendedBase(c)
    else if c == '\U{0386}' || c == '\U{03AC}' then 'α'
    else if c == '\U{0388}' || c == '\U{03AD}' then 'ε'
    else if c == '\U{0389}' || c == '\U{03AE}' then 'η'
    else if c == '\U{038A}' || c == '\U{0390}' || c == '\U{03AA}' || c == '\U{03AF}' || c == '\U{03CA}' then 'ι'
    else if c == '\U{038C}' || c == '\U{03CC}' then 'ο'
    else if c == '\U{038E}' || c == '\U{03AB}' || c == '\U{03B0}' || c == '\U{03CB}' || c == '\U{03CD}' then 'υ'
    else if c == '\U{038F}' || c == '\U{03CE}' then 'ω'
    else if c == 'ς' then 'σ'
    else if IsGreekCapital(c) then (n + 0x20) as char
    else c
  }

  /** `DecomposedBase` in the Greek Extended block, by ranges of code points; inside a
      range the unassigned code points and the spacing accents and breathings are kept,
      and the prosgegrammeni U+1FBE is iota. */
  function ExtendedBase(c: char): char {
    if c <= '\U{1F0F}' then 'α'
    else if c <= '\U{1F1F}' then (if '\U{1F16}' <= c <= '\U{1F17}' || '\U{1F1E}' <= c then c else 'ε')
    else if c <= '\U{1F2F}' then 'η'
    else if c <= '\U{1F3F}' then 'ι'
    else if c <= '\U{1F4F}' then (if '\U{1F46}' <= c <= '\U{1F47}' || '\U{1F4E}' <= c then c else 'ο')
    else if c <= '\U{1F5F}' then (if c == '\U{1F58}' || c == '\U{1F5A}' || c == '\U{1F5C}' || c == '\U{1F5E}' then c else 'υ')
    else if c <= '\U{1F6F}' then 'ω'
    else if c <= '\U{1F71}' then 'α'
    else if c <= '\U{1F73}' then 'ε'
    else if c <= '\U{1F75}' then 'η'
    else if c <= '\U{1F77}' then 'ι'
    else if c <= '\U{1F79}' then 'ο'
    else if c <= '\U{1F7B}' then 'υ'
    else if c <= '\U{1F7F}' then (if '\U{1F7E}' <= c then c else 'ω')
    else if c <= '\U{1F8F}' then 'α'
    else if c <= '\U{1F9F}' then 'η'
    else if c <= '\U{1FAF}' then 'ω'
    else if c <= '\U{1FBF}' then (if c == '\U{1FB5}' || c == '\U{1FBD}' || '\U{1FBF}' <= c then c else if c == '\U{1FBE}' then 'ι' else 'α')
    else if c <= '\U{1FC7}' then (if c <= '\U{1FC1}' || c == '\U{1FC5}' then c else 'η')
    else if c <= '\U{1FC9}' then 'ε'
    else if c <= '\U{1FCF}' then (if '\U{1FCD}' <= c then c else 'η')
    else if c <= '\U{1FDF}' then (if '\U{1FD4}' <= c <= '\U{1FD5}' || '\U{1FDC}' <= c then c else 'ι')
    else if c <= '\U{1FE3}' then 'υ'
    else if c <= '\U{1FE5}' then 'ρ'
    else if c <= '\U{1FEB}' then 'υ'
    else if c <= '\U{1FEF}' then (if '\U{1FED}' <= c then c else 'ρ')
    else if c <= '\U{1FF7}' then (if c <= '\U{1FF1}' || c == '\U{1FF5}' then c else 'ω')
    else if c <= '\U{1FF9}' then 'ο'
    else (if '\U{1FFD}' <= c then c else 'ω')
  }

  /** A character of the Greek and Coptic block from U+0386 to U+03CE, or of the Greek
      Extended block, that is not a base letter. Every key of the table is one, but not
      every such character is a key (see `UnlistedIsOther`). */
  predicate InGreekBlocksNotBase(c: char) {
    ('\U{0386}' <= c <= '\U{03CE}' || '\U{1F00}' <= c <= '\U{1FFF}') && !IsBaseLetter(c)
  }

  /** Every member of `forms` has base letter `base` and is not `base` itself. */
  predicate Decorated(forms: string, base: char) {
    forall i | 0 <= i < |forms| :: forms[i] != base && DecomposedBase(forms[i]) == base
  }

  /** A character whose base letter is another character lies in the two Greek blocks
      and is not a base letter. */
  lemma DecomposedKey(c: char)
    requires DecomposedBase(c) != c
    ensures InGreekBlocksNotBase(c)
  {
  }

  /** Every key of `m` lies in the two Greek blocks, is not a base letter, and is mapped
      to its base letter, which is one of the 24 letters. */
  predicate StripsToBase(m: map<char, char>) {
    forall c | c in m :: InGreekBlocksNotBase(c) && IsBaseLetter(m[c]) && m[c] == DecomposedBase(c)
  }

  lemma StripShape(forms: string, base: char)
    requires Decorated(forms, base) && IsBaseLetter(base)
    ensures StripsToBase(Strip(forms, base))
  {
    forall c | c in Strip(forms, base)
      ensures InGreekBlocksNotBase(c)
    {
      DecomposedKey(c);
    }
  }

  lemma MergeThen(first: map<char, char>, rest: Parts)
    requires StripsToBase(first) && StripsToBase(Merge(rest))
    ensures StripsToBase(Merge(Then(first, rest)))
  {
  }

  lemma AlphaDecorated() ensures Decorated(AlphaForms, 'α') { }
  lemma EpsilonDecorated() ensures Decorated(EpsilonForms, 'ε') { }
  lemma EtaDecorated() ensures Decorated(EtaForms, 'η') { }
  lemma IotaDecorated() ensures Decorated(IotaForms, 'ι') { }
  lemma OmicronDecorated() ensures Decorated(OmicronForms, 'ο') { }
  lemma UpsilonDecorated() ensures Decorated(UpsilonForms, 'υ') { }
  lemma OmegaDecorated() ensures Decorated(OmegaForms, 'ω') { }
  lemma RhoDecorated() ensures Decorated(RhoForms, 'ρ') { }

  lemma CapitalsShape()
    ensures StripsToBase(PlainCapitals)
  {
  }

  lemma FinalSigmaShape()
    ensures StripsToBase(FinalSigma)
  {
  }

  /** The groups are merged from the last one back to the first. */
  lemma TablePartsShape()
    ensures StripsToBase(NormalizationTable)
  {
    FinalSigmaShape();
    MergeThen(FinalSigma, NoParts);
    CapitalsShape();
    MergeThen(PlainCapitals, Then(FinalSigma, NoParts));
    RhoDecorated();
    StripShape(RhoForms, 'ρ');
    MergeThen(Strip(RhoForms, 'ρ'), FromCapitals);
    OmegaDecorated();
    StripShape(OmegaForms, 'ω');
    MergeThen(Strip(OmegaForms, 'ω'), FromRho);
    UpsilonDecorated();
    StripShape(UpsilonForms, 'υ');
    MergeThen(Strip(UpsilonForms, 'υ'), FromOmega);
    OmicronDecorated();
    StripShape(OmicronForms, 'ο');
    MergeThen(Strip(OmicronForms, 'ο'), FromUpsilon);
    IotaDecorated();
    StripShape(IotaForms, 'ι');
    MergeThen(Strip(IotaForms, 'ι'), FromOmicron);
    EtaDecorated();
    StripShape(EtaForms, 'η');
    MergeThen(Strip(EtaForms, 'η'), FromIota);
    EpsilonDecorated();
    StripShape(EpsilonForms, 'ε');
    MergeThen(Strip(EpsilonForms, 'ε'), FromEta);
    AlphaDecorated();
    StripShape(AlphaForms, 'α');
    MergeThen(Strip(AlphaForms, 'α'), FromEpsilon);
  }

  /** Every value of the table is one of the 24 base letters, namely the base letter of
      its key; no base letter (nor any character outside the two Greek blocks) is a key. */
  lemma TableShape()
    ensures forall c | c in NormalizationTable :: IsBaseLetter(NormalizationTable[c])
    ensures forall c | c in NormalizationTable :: NormalizationTable[c] == DecomposedBase(c)
    ensures forall c | c in NormalizationTable :: InGreekBlocksNotBase(c)
  {
    TablePartsShape();
  }

  /** Every value of the table is a letter of the grouping alphabet. */
  lemma TableValuesInAlphabet()
    ensures forall c | c in NormalizationTable :: NormalizationTable[c] in GreekAlphabet
  {
    forall c | c in NormalizationTable
      ensures NormalizationTable[c] in GreekAlphabet
    {
      TableShape();
      AlphabetMembership(NormalizationTable[c]);
    }
  }

  /** A key of the groups listed from `FromEpsilon` on is a key of the whole table;
      likewise from each later group on. */
  lemma KeptFrom(c: char)
    ensures c in Merge(FromEpsilon) ==> c in NormalizationTable
    ensures c in Merge(FromEta) ==> c in Merge(FromEpsilon)
    ensures c in Merge(FromIota) ==> c in Merge(FromEta)
    ensures c in Merge(FromOmicron) ==> c in Merge(FromIota)
    ensures c in Merge(FromUpsilon) ==> c in Merge(FromOmicron)
    ensures c in Merge(FromOmega) ==> c in Merge(FromUpsilon)
    ensures c in Merge(FromRho) ==> c in Merge(FromOmega)
    ensures c in Merge(FromCapitals) ==> c in Merge(FromRho)
  {
  }

  /** A key of a merged list of groups is a key of one of its groups. */
  lemma MergeKeys(first: map<char, char>, rest: Parts, c: char)
    ensures c in Merge(Then(first, rest)) <==> c in first || c in Merge(rest)
  {
  }

  /** The keys of the table are exactly the listed forms, the plain capitals and final
      sigma. */
  lemma TableKeys(c: char)
    ensures c in NormalizationTable <==>
              c in AlphaForms || c in EpsilonForms || c in EtaForms || c in IotaForms
              || c in OmicronForms || c in UpsilonForms || c in OmegaForms || c in RhoForms
              || IsGreekCapital(c) || c == 'ς'
  {
    MergeKeys(Strip(AlphaForms, 'α'), FromEpsilon, c);
    MergeKeys(Strip(EpsilonForms, 'ε'), FromEta, c);
    MergeKeys(Strip(EtaForms, 'η'), FromIota, c);
    MergeKeys(Strip(IotaForms, 'ι'), FromOmicron, c);
    LaterKeys(c);
  }

  /** The keys of the groups from omicron on. */
  lemma LaterKeys(c: char)
    ensures c in Merge(FromOmicron) <==>
              c in OmicronForms || c in UpsilonForms || c in OmegaForms || c in RhoForms
              || IsGreekCapital(c) || c == 'ς'
  {
    MergeKeys(Strip(OmicronForms, 'ο'), FromUpsilon, c);
    MergeKeys(Strip(UpsilonForms, 'υ'), FromOmega, c);
    MergeKeys(Strip(OmegaForms, 'ω'), FromRho, c);
    MergeKeys(Strip(RhoForms, 'ρ'), FromCapitals, c);
    MergeKeys(PlainCapitals, Then(FinalSigma, NoParts), c);
    MergeKeys(FinalSigma, NoParts, c);
  }

  /** Every plain capital is a key, mapped to its lowercase letter. */
  lemma CapitalInTable(c: char)
    requires IsGreekCapital(c)
    ensures c in NormalizationTable && NormalizationTable[c] == (c as int + 0x20) as char
  {
    assert c in NormalizationTable by {
      assert c in Merge(FromCapitals);
      KeptFrom(c);
    }
    KeyValue(c);
    CapitalBase(c);
  }

  /** A plain capital decomposes to its lowercase letter. */
  lemma CapitalBase(c: char)
    requires IsGreekCapital(c)
    ensures DecomposedBase(c) == (c as int + 0x20) as char
  {
  }

  /** The value of a key is its base letter. */
  lemma KeyValue(c: char)
    requires c in NormalizationTable
    ensures NormalizationTable[c] == DecomposedBase(c)
  {
    TableShape();
  }

  /** Final sigma is a key, mapped to sigma. */
  lemma FinalSigmaInTable()
    ensures 'ς' in NormalizationTable && NormalizationTable['ς'] == 'σ'
  {
    assert 'ς' in Merge(FromCapitals);
    KeptFrom('ς');
    TableShape();
  }

  // ---------------------------------------------------------------------------
  // Lower-casing fallback
  // ---------------------------------------------------------------------------

  /** Python's single-character str.lower() on the blocks that matter here:
      ASCII, Latin-1, the Greek capitals U+0386..U+03AB, the theta symbol,
      Greek Extended and the ohm sign. Everywhere else the character is kept. */
  function Lower(c: char): (r: char)
    ensures IsBaseLetter(c) ==> r == c
    ensures IsBaseLetter(r) ==> IsBaseLetter(c) || IsGreekCapital(c) || c == ThetaSymbol || c == OhmSign
    ensures IsGreekCapital(c) ==> IsBaseLetter(r) && r != c
  {
    var n := c as int;
    if 'A' <= c <= 'Z' then (n + 32) as char
    else if '\U{00C0}' <= c <= '\U{00DE}' && c != '\U{00D7}' then (n + 32) as char
    else if c == '\U{0386}' then '\U{03AC}'
    else if '\U{0388}' <= c <= '\U{038A}' then (n + 37) as char
    else if c == '\U{038C}' then '\U{03CC}'
    else if '\U{038E}' <= c <= '\U{038F}' then (n + 63) as char
    else if '\U{0391}' <= c <= '\U{03AB}' && c != '\U{03A2}' then (n + 32) as char
    else if c == ThetaSymbol then 'θ'
    else if c == OhmSign then 'ω'
    else if '\U{1F00}' <= c <= '\U{1FFF}' then LowerGreekExtended(c)
    else c
  }

  /** str.lower() on the Greek Extended block U+1F00..U+1FFF. */
  function LowerGreekExtended(c: char): (r: char)
    requires '\U{1F00}' <= c <= '\U{1FFF}'
    ensures '\U{1F00}' <= r <= '\U{1FFF}'
  {
    var n := c as int;
    var row := n / 16;
    var col := n % 16;
    if (row in {0x1F0, 0x1F2, 0x1F3, 0x1F6, 0x1F8, 0x1F9, 0x1FA} && col >= 8)
       || (row in {0x1F1, 0x1F4} && 8 <= col <= 13)
       || n in {0x1F59, 0x1F5B, 0x1F5D, 0x1F5F, 0x1FB8, 0x1FB9, 0x1FD8, 0x1FD9, 0x1FE8, 0x1FE9}
    then (n - 8) as char
    else if n in {0x1FBA, 0x1FBB} then (n - 0x4A) as char
    else if 0x1FC8 <= n <= 0x1FCB then (n - 0x56) as char
    else if n in {0x1FDA, 0x1FDB} then (n - 0x64) as char
    else if n in {0x1FEA, 0x1FEB} then (n - 0x70) as char
    else if n in {0x1FF8, 0x1FF9} then (n - 0x80) as char
    else if n in {0x1FFA, 0x1FFB} then (n - 0x7E) as char
    else if n in {0x1FBC, 0x1FCC, 0x1FFC} then (n - 9) as char
    else if n == 0x1FEC then '\U{1FE5}'
    else c
  }

  // ---------------------------------------------------------------------------
  // normalize_greek_letter and get_first_letter_key
  // ---------------------------------------------------------------------------

  /** The base letter of `letter` by table lookup, falling back to lower-casing. */
  function NormalizeGreekLetter(letter: char): (r: char)
    ensures IsBaseLetter(r) <==> letter in NormalizationTable || IsBaseLetter(Lower(letter))
    ensures IsBaseLetter(letter) ==> r == letter
  {
    TableShape();
    if letter in NormalizationTable then NormalizationTable[letter] else Lower(letter)
  }

  /** A key of the table normalises to its base letter. */
  lemma NormalizeKey(c: char)
    requires c in NormalizationTable
    ensures NormalizeGreekLetter(c) == DecomposedBase(c)
  {
    TableShape();
  }

  /** Every form the table lists for alpha normalises to 'α'. */
  lemma AlphaNormalizes(c: char)
    requires c in AlphaForms
    ensures NormalizeGreekLetter(c) == 'α'
  {
    assert c in Merge(TableParts);
    NormalizeKey(c);
    AlphaDecorated();
    var i :| 0 <= i < |AlphaForms| && AlphaForms[i] == c;
  }

  /** Every form the table lists for epsilon normalises to 'ε'. */
  lemma EpsilonNormalizes(c: char)
    requires c in EpsilonForms
    ensures NormalizeGreekLetter(c) == 'ε'
  {
    assert c in Merge(FromEpsilon);
    KeptFrom(c);
    NormalizeKey(c);
    EpsilonDecorated();
    var i :| 0 <= i < |EpsilonForms| && EpsilonForms[i] == c;
  }

  /** Every form the table lists for eta normalises to 'η'. */
  lemma EtaNormalizes(c: char)
    requires c in EtaForms
    ensures NormalizeGreekLetter(c) == 'η'
  {
    assert c in Merge(FromEta);
    KeptFrom(c);
    NormalizeKey(c);
    EtaDecorated();
    var i :| 0 <= i < |EtaForms| && EtaForms[i] == c;
  }

  /** Every form the table lists for iota normalises to 'ι'. */
  lemma IotaNormalizes(c: char)
    requires c in IotaForms
    ensures NormalizeGreekLetter(c) == 'ι'
  {
    assert c in Merge(FromIota);
    KeptFrom(c);
    NormalizeKey(c);
    IotaDecorated();
    var i :| 0 <= i < |IotaForms| && IotaForms[i] == c;
  }

  /** Every form the table lists for omicron normalises to 'ο'. */
  lemma OmicronNormalizes(c: char)
    requires c in OmicronForms
    ensures NormalizeGreekLetter(c) == 'ο'
  {
    assert c in Merge(FromOmicron);
    KeptFrom(c);
    NormalizeKey(c);
    OmicronDecorated();
    var i :| 0 <= i < |OmicronForms| && OmicronForms[i] == c;
  }

  /** Every form the table lists for upsilon normalises to 'υ'. */
  lemma UpsilonNormalizes(c: char)
    requires c in UpsilonForms
    ensures NormalizeGreekLetter(c) == 'υ'
  {
    assert c in Merge(FromUpsilon);
    KeptFrom(c);
    NormalizeKey(c);
    UpsilonDecorated();
    var i :| 0 <= i < |UpsilonForms| && UpsilonForms[i] == c;
  }

  /** Every form the table lists for omega normalises to 'ω'. */
  lemma OmegaNormalizes(c: char)
    requires c in OmegaForms
    ensures NormalizeGreekLetter(c) == 'ω'
  {
    assert c in Merge(FromOmega);
    KeptFrom(c);
    NormalizeKey(c);
    OmegaDecorated();
    var i :| 0 <= i < |OmegaForms| && OmegaForms[i] == c;
  }

  /** Every form the table lists for rho normalises to 'ρ'. */
  lemma RhoNormalizes(c: char)
    requires c in RhoForms
    ensures NormalizeGreekLetter(c) == 'ρ'
  {
    assert c in Merge(FromRho);
    KeptFrom(c);
    NormalizeKey(c);
    RhoDecorated();
    var i :| 0 <= i < |RhoForms| && RhoForms[i] == c;
  }

  /** The alpha with rough breathing and acute accent and the alpha with circumflex both
      normalise to plain alpha. */
  lemma AlphaExamples()
    ensures NormalizeGreekLetter('ἅ') == 'α' && NormalizeGreekLetter('ᾶ') == 'α'
  {
    AlphaNormalizes('ἅ');
    AlphaNormalizes('ᾶ');
  }

  /** A headword led by a listed alpha form has the key alpha. */
  lemma AlphaLead(orth: string)
    requires orth != [] && orth[0] in AlphaForms
    ensures FirstLetterKey(orth) == "α"
  {
    AlphaNormalizes(orth[0]);
  }

  /** A headword led by a plain base letter has that letter as its key. */
  lemma BaseLead(orth: string)
    requires orth != [] && IsBaseLetter(orth[0])
    ensures FirstLetterKey(orth) == [orth[0]]
  {
  }

  /** A headword led by a Greek Extended character the table does not list goes to the
      fallback group: lower-casing keeps it inside Greek Extended, away from the base
      letters, whatever its base letter. */
  lemma UnlistedIsOther(orth: string)
    requires orth != [] && '\U{1F00}' <= orth[0] <= '\U{1FFF}' && orth[0] !in NormalizationTable
    ensures FirstLetterKey(orth) == OtherKey
  {
    Fallback(orth[0]);
    LowerToBase(orth[0]);
  }

  /** Alpha with oxia (U+1F71), whose base letter is alpha, is not listed; a headword it
      leads goes to the fallback group. */
  lemma OxiaAlphaIsOther(orth: string)
    requires orth != [] && orth[0] == '\U{1F71}'
    ensures DecomposedBase(orth[0]) == 'α'
    ensures FirstLetterKey(orth) == OtherKey
  {
    OxiaAlphaUnlisted();
    UnlistedIsOther(orth);
  }

  /** Alpha with oxia is in no group of the table: its base letter rules out the groups
      of the other letters, and the alpha group does not list it. */
  lemma OxiaAlphaUnlisted()
    ensures '\U{1F71}' !in NormalizationTable
  {
    OxiaAlphaNotListed();
    AlphaBasedUnlisted('\U{1F71}');
  }

  /** The alpha group lists the alpha with tonos (U+03AC) but not its canonical
      equivalent, the alpha with oxia (U+1F71). */
  lemma OxiaAlphaNotListed()
    ensures '\U{03AC}' in AlphaForms && '\U{1F71}' !in AlphaForms
  {
    assert AlphaForms[2] == '\U{03AC}';
  }

  /** A character whose base letter is alpha, that the alpha group does not list and that
      is not Α, is not a key of the table. */
  lemma AlphaBasedUnlisted(c: char)
    requires DecomposedBase(c) == 'α' && c !in AlphaForms && c != 'Α'
    ensures c !in NormalizationTable
  {
    AlphaBasedOnlyInAlphaGroup(c);
    TableKeys(c);
  }

  /** A character whose base letter is alpha is listed in no other letter's group and is
      neither a plain capital other than Α nor final sigma. */
  lemma AlphaBasedOnlyInAlphaGroup(c: char)
    requires DecomposedBase(c) == 'α'
    ensures c !in EpsilonForms && c !in EtaForms && c !in IotaForms && c !in OmicronForms
    ensures c !in UpsilonForms && c !in OmegaForms && c !in RhoForms
    ensures IsGreekCapital(c) ==> c == 'Α'
    ensures c != 'ς'
  {
    EpsilonDecorated();
    EtaDecorated();
    IotaDecorated();
    OmicronDecorated();
    UpsilonDecorated();
    OmegaDecorated();
    RhoDecorated();
  }

  /** A character that is not a key of the table is lower-cased. */
  lemma Fallback(c: char)
    requires c !in NormalizationTable
    ensures NormalizeGreekLetter(c) == Lower(c)
  {
  }

  /** The capital theta symbol lower-cases to theta and the ohm sign to omega. */
  lemma LowerSymbols()
    ensures Lower(ThetaSymbol) == 'θ' && Lower(OhmSign) == 'ω'
  {
  }

  /** Neither symbol is a key of the table. */
  lemma SymbolsNotInTable()
    ensures ThetaSymbol !in NormalizationTable && OhmSign !in NormalizationTable
  {
    TableShape();
  }

  /** The capital theta symbol normalises to theta and the ohm sign to omega, through
      the lower-casing fallback. */
  lemma SymbolsNormalize()
    ensures NormalizeGreekLetter(ThetaSymbol) == 'θ'
    ensures NormalizeGreekLetter(OhmSign) == 'ω'
  {
    SymbolsNotInTable();
    Fallback(ThetaSymbol);
    Fallback(OhmSign);
    LowerSymbols();
  }

  /** Exactly the base letters, the plain capitals, the capital theta symbol and the ohm
      sign lower-case to a base letter. */
  lemma LowerToBase(c: char)
    ensures IsBaseLetter(Lower(c)) <==> IsBaseLetter(c) || IsGreekCapital(c) || c == ThetaSymbol || c == OhmSign
  {
  }

  /** Sigma, final sigma and capital sigma all normalise to sigma. */
  lemma SigmaForms()
    ensures NormalizeGreekLetter('σ') == 'σ'
    ensures NormalizeGreekLetter('ς') == 'σ'
    ensures NormalizeGreekLetter('Σ') == 'σ'
  {
    assert NormalizeGreekLetter('σ') == 'σ' by {
      TableShape();
    }
    assert NormalizeGreekLetter('ς') == 'σ' by {
      FinalSigmaInTable();
    }
    assert NormalizeGreekLetter('Σ') == 'σ' by {
      CapitalInTable('Σ');
    }
  }

  /** A grouping key: one letter of the alphabet, or the fallback name. */
  predicate IsKey(key: string) {
    key == OtherKey || (|key| == 1 && IsBaseLetter(key[0]))
  }

  /** The group of a headword: its normalised first character when that is a letter of
      the alphabet, otherwise the fallback group; an empty headword goes to the fallback. */
  function FirstLetterKey(orth: string): (key: string)
    ensures IsKey(key)
    ensures orth == [] ==> key == OtherKey
    ensures orth != [] ==>
              (key != OtherKey <==> orth[0] in NormalizationTable || IsBaseLetter(Lower(orth[0])))
    ensures key != OtherKey ==> |orth| > 0 && key == [NormalizeGreekLetter(orth[0])]
  {
    if |orth| == 0 then OtherKey
    else
      var normalized := NormalizeGreekLetter(orth[0]);
      AlphabetMembership(normalized);
      if normalized in GreekAlphabet then [normalized] else OtherKey
  }

  /** Headwords led by sigma, final sigma or capital sigma share the key "σ". */
  lemma SigmaShareKey(orth: string)
    requires orth != [] && orth[0] in {'σ', 'ς', 'Σ'}
    ensures FirstLetterKey(orth) == "σ"
  {
    SigmaForms();
  }

  /** A headword led by a character below U+0386 (a digit, a Latin letter, punctuation)
      goes to the fallback group. */
  lemma LatinLeadIsOther(orth: string)
    requires orth != [] && orth[0] < '\U{0386}'
    ensures FirstLetterKey(orth) == OtherKey
  {
    assert orth[0] !in NormalizationTable by {
      TableShape();
    }
    Fallback(orth[0]);
    LowerToBase(orth[0]);
  }
}
