/** The Morse alphabet of esrom: 26 upper-case Latin letters and 10 digits,
    each mapped to a pattern of dots and dashes, together with the reverse
    table the decoder looks tokens up in. */
module CodeTable {

  /** The forward table, letter or digit to its dot/dash pattern. */
  const MorseCode: map<char, string> := map[
    'A' := ".-",    'B' := "-...",  'C' := "-.-.",  'D' := "-..",   'E' := ".",
    'F' := "..-.",  'G' := "--.",   'H' := "....",  'I' := "..",    'J' := ".---",
    'K' := "-.-",   'L' := ".-..",  'M' := "--",    'N' := "-.",    'O' := "---",
    'P' := ".--.",  'Q' := "--.-",  'R' := ".-.",   'S' := "...",   'T' := "-",
    'U' := "..-",   'V' := "...-",  'W' := ".--",   'X' := "-..-",  'Y' := "-.--",
    'Z' := "--..",  '1' := ".----", '2' := "..---", '3' := "...--", '4' := "....-",
    '5' := ".....", '6' := "-....", '7' := "--...", '8' := "---..", '9' := "----.",
    '0' := "-----"
  ]

  /** The reverse table, pattern to symbol: every entry of the forward table
      swapped. */
  const TextCode: map<string, char> := (TableInjective(); Swap(MorseCode))

  /** Swaps keys and values, as the dictionary comprehension
      `{v: k for k, v in m.items()}` does. Python lets a later entry overwrite
      an earlier one with the same value; Dafny admits the comprehension only
      for an injective map, where the two agree (no entry is lost). */
  function Swap(m: map<char, string>): map<string, char>
    requires Injective(m)
  {
    map c | c in m :: m[c] := c
  }

  /** No two keys of `m` share a value. */
  predicate Injective(m: map<char, string>) {
    forall a, b :: a in m && b in m && a != b ==> m[a] != m[b]
  }

  /** The swapped map of an injective map is its two-sided inverse. */
  lemma SwapInverse(m: map<char, string>)
    requires Injective(m)
    ensures forall c :: c in m ==> m[c] in Swap(m) && Swap(m)[m[c]] == c
    ensures forall p :: p in Swap(m) ==> Swap(m)[p] in m && m[Swap(m)[p]] == p
  {
    var r := Swap(m);
    forall c | c in m
      ensures m[c] in r && r[m[c]] == c
    {
      var c' :| c' in m && m[c'] == m[c] && r[m[c]] == c';
    }
  }

  /** The characters the forward table has a pattern for. */
  predicate IsTableChar(c: char) {
    'A' <= c <= 'Z' || '0' <= c <= '9'
  }

  /** A well-formed pattern: at least one symbol, and only dots and dashes. */
  predicate IsPattern(p: string) {
    |p| > 0 && forall i :: 0 <= i < |p| ==> p[i] == '.' || p[i] == '-'
  }

  /** The table's keys are exactly the 36 letters and digits, and every value
      is a well-formed pattern. */
  lemma TableShape()
    ensures forall c :: c in MorseCode <==> IsTableChar(c)
    ensures forall c :: c in MorseCode ==> IsPattern(MorseCode[c])
  {
    TableKeys();
    forall c | c in MorseCode
      ensures IsPattern(MorseCode[c])
    {
      EntryShape(c);
    }
  }

  /** The table's keys are exactly the 36 letters and digits. */
  lemma TableKeys()
    ensures forall c :: c in MorseCode <==> IsTableChar(c)
  {
  }

  /** The entry of one symbol is a well-formed pattern of at most five
      symbols. */
  lemma EntryShape(c: char)
    requires c in MorseCode
    ensures IsPattern(MorseCode[c]) && |MorseCode[c]| <= 5
  {
    var p := MorseCode[c];
    assert 0 < |p| <= 5;
    assert forall i :: 0 <= i < |p| ==> p[i] == '.' || p[i] == '-';
  }

  /** No two symbols share a pattern. */
  lemma PatternsDistinct(a: char, b: char)
    requires a in MorseCode && b in MorseCode && a != b
    ensures MorseCode[a] != MorseCode[b]
  {
  }

  /** The forward table is injective, so its swap loses no entry. */
  lemma TableInjective()
    ensures Injective(MorseCode)
  {
    forall a, b | a in MorseCode && b in MorseCode && a != b
      ensures MorseCode[a] != MorseCode[b]
    {
      PatternsDistinct(a, b);
    }
  }

  /** The reverse table undoes the forward table, in both directions. */
  lemma ReverseTable()
    ensures forall c :: c in MorseCode ==> MorseCode[c] in TextCode && TextCode[MorseCode[c]] == c
    ensures forall p :: p in TextCode ==> TextCode[p] in MorseCode && MorseCode[TextCode[p]] == p
  {
    TableInjective();
    SwapInverse(MorseCode);
  }

  /** Every key of the reverse table is a well-formed pattern of at most five
      symbols; in particular neither the empty token nor the word separator "/"
      is one. */
  lemma ReverseKeys()
    ensures forall p :: p in TextCode ==> IsPattern(p) && |p| <= 5
    ensures "" !in TextCode && "/" !in TextCode
  {
    ReverseTable();
    forall p | p in TextCode
      ensures IsPattern(p) && |p| <= 5
    {
      EntryShape(TextCode[p]);
    }
    assert "/"[0] == '/';
  }

  /** What the encoder and decoder need of a table pair: every pattern is
      well-formed, and the reverse table undoes the forward one in both
      directions. */
  predicate Valid(code: map<char, string>, rev: map<string, char>) {
    WellFormed(code)
    && (forall c :: c in code ==> code[c] in rev && rev[code[c]] == c)
    && (forall p :: p in rev ==> rev[p] in code && code[rev[p]] == p)
  }

  /** Every pattern of a forward table is well-formed. */
  predicate WellFormed(code: map<char, string>) {
    forall c :: c in code ==> IsPattern(code[c])
  }

  /** The program's tables form a valid pair. */
  lemma TablesValid()
    ensures Valid(MorseCode, TextCode)
  {
    ReverseTable();
    forall c | c in MorseCode
      ensures IsPattern(MorseCode[c])
    {
      EntryShape(c);
    }
  }
}
