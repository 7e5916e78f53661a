/** The translator proper: `convert_to_morse` (text to Morse) and
    `convert_to_text` (Morse to text), each as a method that builds its result
    list in a loop the way the program does, proved equal to a specification
    function, and the properties of those functions as lemmas.

    The specification functions take the table as a parameter (`code` forward,
    `rev` reverse) so that their lemmas are proved once for every valid table
    pair; the program's own pair is MorseCode and TextCode, and Encode and
    Decode fix it. */
module Codec {
  import opened CodeTable
  import opened Strings

  // ---------------------------------------------------------------------------
  // Encoding

  /** The pieces one upper-cased character adds to the encoder's list: the word
      separator " / " for a space, its pattern for a table symbol, and nothing
      for any other character. */
  function Piece(code: map<char, string>, c: char): seq<string> {
    if c == ' ' then [" / "]
    else if c in code then [code[c]]
    else []
  }

  /** The encoder's list for an upper-cased text, in order. */
  function Pieces(code: map<char, string>, u: string): seq<string> {
    if u == [] then [] else Pieces(code, u[..|u| - 1]) + Piece(code, u[|u| - 1])
  }

  /** The pieces of the upper-cased text joined by single spaces. */
  function Encoded(code: map<char, string>, text: string): string {
    Join(Pieces(code, Upper(text)), " ")
  }

  /** What `convert_to_morse` returns. */
  function Encode(text: string): string {
    Encoded(MorseCode, text)
  }

  /** `convert_to_morse`: upper-cases the text, appends one piece per space or
      table symbol, and joins the pieces with " ". */
  method ConvertToMorse(text: string) returns (morse: string)
    ensures morse == Encode(text)
  {
    var upper := Upper(text);
    var result: seq<string> := [];
    for i := 0 to |upper|
      invariant result == Pieces(MorseCode, upper[..i])
    {
      var c := upper[i];
      assert upper[..i + 1][..i] == upper[..i];
      assert Pieces(MorseCode, upper[..i + 1]) == result + Piece(MorseCode, c);
      if c == ' ' {
        result := result + [" / "];
      } else if c in MorseCode {
        result := result + [MorseCode[c]];
      }
    }
    assert upper[..|upper|] == upper;
    morse := Join(result, " ");
  }

  // ---------------------------------------------------------------------------
  // Decoding

  /** What one token adds to the decoded text: a space for "/", its symbol for
      a known pattern, and nothing for anything else. */
  function TokenText(rev: map<string, char>, t: string): string {
    if t == "/" then " "
    else if t in rev then [rev[t]]
    else ""
  }

  /** The decoded text of a token list, in order. */
  function DecodeTokens(rev: map<string, char>, ts: seq<string>): string {
    if ts == [] then "" else DecodeTokens(rev, ts[..|ts| - 1]) + TokenText(rev, ts[|ts| - 1])
  }

  /** The texts of the space-separated tokens, concatenated. */
  function Decoded(rev: map<string, char>, morse: string): string {
    DecodeTokens(rev, Split(morse, ' '))
  }

  /** What `convert_to_text` returns. */
  function Decode(morse: string): string {
    Decoded(TextCode, morse)
  }

  /** `convert_to_text`: splits on " ", appends one string per "/" or known
      pattern, and joins the strings with "". */
  method ConvertToText(morse: string) returns (text: string)
    ensures text == Decode(morse)
  {
    var tokens := Split(morse, ' ');
    var result: seq<string> := [];
    for i := 0 to |tokens|
      invariant Join(result, "") == DecodeTokens(TextCode, tokens[..i])
    {
      var token := tokens[i];
      var piece := "";
      if token == "/" {
        piece := " ";
      } else if token in TextCode {
        piece := [TextCode[token]];
      }
      DecodeStep(TextCode, tokens, i, result, piece);
      if piece != "" {
        result := result + [piece];
      }
    }
    assert tokens[..|tokens|] == tokens;
    text := Join(result, "");
  }

  /** One iteration of the decoder's loop: appending the token's text, when it
      is not empty, keeps the joined list equal to the decoded prefix. */
  lemma DecodeStep(rev: map<string, char>, ts: seq<string>, i: nat, result: seq<string>, piece: string)
    requires i < |ts|
    requires Join(result, "") == DecodeTokens(rev, ts[..i])
    requires piece == TokenText(rev, ts[i])
    ensures Join(if piece != "" then result + [piece] else result, "") == DecodeTokens(rev, ts[..i + 1])
  {
    assert ts[..i + 1][..i] == ts[..i];
    if piece != "" && result != [] {
      JoinSnoc(result, piece, "");
    }
  }

  // ---------------------------------------------------------------------------
  // Properties of the encoder

  /** A character the encoder keeps: a space, or one whose upper-case form is
      in the table. */
  predicate Supported(code: map<char, string>, c: char) {
    c == ' ' || UpperChar(c) in code
  }

  /** The supported characters of a text, in order. */
  function Keep(code: map<char, string>, s: string): (r: string)
    ensures forall i :: 0 <= i < |r| ==> Supported(code, r[i])
  {
    if s == [] then []
    else Keep(code, s[..|s| - 1]) + (if Supported(code, s[|s| - 1]) then [s[|s| - 1]] else [])
  }

  /** Upper-casing the last character of a text extends the upper-cased rest. */
  lemma UpperLast(s: string)
    requires s != []
    ensures Upper(s) == Upper(s[..|s| - 1]) + [UpperChar(s[|s| - 1])]
    ensures Upper(s)[..|s| - 1] == Upper(s[..|s| - 1])
  {
  }

  /** The pieces of a non-empty text are those of all but its last character
      followed by the last character's. */
  lemma PiecesLast(code: map<char, string>, s: string)
    requires s != []
    ensures Pieces(code, Upper(s)) == Pieces(code, Upper(s[..|s| - 1])) + Piece(code, UpperChar(s[|s| - 1]))
  {
    UpperLast(s);
  }

  /** Encoding does not depend on case: a text and its upper-cased form give
      the same Morse. */
  lemma EncodeIgnoresCase(code: map<char, string>, s: string)
    ensures Encoded(code, Upper(s)) == Encoded(code, s)
  {
    UpperIdempotent(s);
  }

  /** Unsupported characters contribute nothing: dropping them leaves the
      output unchanged, and a text made only of them encodes to "". */
  lemma EncodeIgnoresUnsupported(code: map<char, string>, s: string)
    ensures Encoded(code, Keep(code, s)) == Encoded(code, s)
    ensures (forall i :: 0 <= i < |s| ==> !Supported(code, s[i])) ==> Encoded(code, s) == ""
  {
    PiecesOfKept(code, s);
    if forall i :: 0 <= i < |s| ==> !Supported(code, s[i]) {
      NothingKept(code, s);
    }
  }

  lemma {:induction false} PiecesOfKept(code: map<char, string>, s: string)
    ensures Pieces(code, Upper(Keep(code, s))) == Pieces(code, Upper(s))
  {
    if s != [] {
      var s', c := s[..|s| - 1], s[|s| - 1];
      PiecesOfKept(code, s');
      PiecesLast(code, s);
      if Supported(code, c) {
        var k := Keep(code, s);
        assert k == Keep(code, s') + [c];
        PiecesLast(code, k);
        assert k[..|k| - 1] == Keep(code, s');
      } else {
        assert UpperChar(c) != ' ';
        assert Keep(code, s) == Keep(code, s');
      }
    }
  }

  lemma {:induction false} NothingKept(code: map<char, string>, s: string)
    requires forall i :: 0 <= i < |s| ==> !Supported(code, s[i])
    ensures Keep(code, s) == []
  {
    if s != [] {
      NothingKept(code, s[..|s| - 1]);
    }
  }

  /** A text with no piece has no space. */
  lemma {:induction false} NoPiecesNoSpace(code: map<char, string>, s: string)
    requires Pieces(code, Upper(s)) == []
    ensures ' ' !in s && multiset(s)[' '] == 0
  {
    if s != [] {
      UpperLast(s);
      NoPiecesNoSpace(code, s[..|s| - 1]);
      assert s == s[..|s| - 1] + [s[|s| - 1]];
    }
  }

  /** The Morse of a non-empty text, from that of all but its last character:
      unchanged when the last character has no piece, the piece alone when
      nothing came before it, and otherwise one joiner space and the piece. */
  lemma EncodedLast(code: map<char, string>, s: string)
    requires s != []
    ensures var s', pc := s[..|s| - 1], Piece(code, UpperChar(s[|s| - 1]));
      Encoded(code, s) ==
        if pc == [] then Encoded(code, s')
        else if Pieces(code, Upper(s')) == [] then pc[0]
        else Encoded(code, s') + " " + pc[0]
  {
    PiecesLast(code, s);
    var ps, pc := Pieces(code, Upper(s[..|s| - 1])), Piece(code, UpperChar(s[|s| - 1]));
    if pc == [] {
      assert ps + pc == ps;
    } else if ps != [] {
      JoinSnoc(ps, pc[0], " ");
    }
  }

  /** The piece of a space holds one "/", that of a table symbol none. */
  lemma PieceSlashes(code: map<char, string>, u: char)
    requires WellFormed(code)
    requires Piece(code, u) != []
    ensures multiset(Piece(code, u)[0])['/'] == if u == ' ' then 1 else 0
  {
    var p := Piece(code, u)[0];
    if u == ' ' {
      assert p == [' '] + ['/'] + [' '];
    } else {
      assert '/' !in p;
    }
  }

  /** The Morse output has exactly one "/" per space of the input: patterns and
      the joiner hold none, and each space adds the piece " / ". */
  lemma {:induction false} EncodeSlashes(code: map<char, string>, s: string)
    requires WellFormed(code)
    ensures multiset(Encoded(code, s))['/'] == multiset(s)[' ']
  {
    if s != [] {
      var s', c := s[..|s| - 1], s[|s| - 1];
      EncodeSlashes(code, s');
      SpacesSnoc(s);
      EncodedLast(code, s);
      var pc := Piece(code, UpperChar(c));
      if pc != [] {
        PieceSlashes(code, UpperChar(c));
        if Pieces(code, Upper(s')) == [] {
          NoPiecesNoSpace(code, s');
        } else {
          SlashesJoined(Encoded(code, s'), pc[0]);
        }
      }
    }
  }

  /** The spaces of a non-empty string: those before its last character, and
      one more if the last character is a space. */
  lemma SpacesSnoc(s: string)
    requires s != []
    ensures multiset(s)[' '] == multiset(s[..|s| - 1])[' '] + if s[|s| - 1] == ' ' then 1 else 0
  {
    assert s == s[..|s| - 1] + [s[|s| - 1]];
  }

  /** Joining two strings with a space adds no slash. */
  lemma SlashesJoined(x: string, y: string)
    ensures multiset(x + " " + y)['/'] == multiset(x)['/'] + multiset(y)['/']
  {
    assert multiset(x + " " + y) == multiset(x) + multiset(" ") + multiset(y);
  }

  /** Every character of the Morse output is a dot, a dash, a space or "/". */
  lemma {:induction false} EncodeSymbols(code: map<char, string>, s: string)
    requires WellFormed(code)
    ensures forall i :: 0 <= i < |Encoded(code, s)| ==> Encoded(code, s)[i] in ".- /"
  {
    if s != [] {
      var s', u := s[..|s| - 1], UpperChar(s[|s| - 1]);
      EncodeSymbols(code, s');
      EncodedLast(code, s);
      var pc := Piece(code, u);
      if pc != [] {
        PieceSymbols(code, u);
        if Pieces(code, Upper(s')) != [] {
          SymbolsAppend(Encoded(code, s'), " ");
          SymbolsAppend(Encoded(code, s') + " ", pc[0]);
        }
      }
    }
  }

  /** The piece of a space or a table symbol is made of Morse characters. */
  lemma PieceSymbols(code: map<char, string>, u: char)
    requires WellFormed(code) && Piece(code, u) != []
    ensures forall i :: 0 <= i < |Piece(code, u)[0]| ==> Piece(code, u)[0][i] in ".- /"
  {
    if u != ' ' {
      assert IsPattern(code[u]);
    }
  }

  /** Two strings of Morse characters concatenate to one. */
  lemma SymbolsAppend(x: string, y: string)
    requires forall i :: 0 <= i < |x| ==> x[i] in ".- /"
    requires forall i :: 0 <= i < |y| ==> y[i] in ".- /"
    ensures forall i :: 0 <= i < |x + y| ==> (x + y)[i] in ".- /"
  {
    forall i | 0 <= i < |x + y|
      ensures (x + y)[i] in ".- /"
    {
      if i >= |x| {
        assert (x + y)[i] == y[i - |x|];
      }
    }
  }

  /** A text whose first character is a table symbol encodes to Morse that
      starts with the first symbol of that character's pattern. */
  lemma {:induction false} EncodedFirst(code: map<char, string>, s: string)
    requires WellFormed(code)
    requires s != [] && s[0] != ' ' && UpperChar(s[0]) in code
    ensures |Encoded(code, s)| > 0 && Encoded(code, s)[0] == code[UpperChar(s[0])][0]
  {
    var s' := s[..|s| - 1];
    EncodedLast(code, s);
    if s' != [] {
      assert s'[0] == s[0];
      EncodedFirst(code, s');
    } else {
      assert Pieces(code, Upper(s')) == [];
      assert UpperChar(s[|s| - 1]) == UpperChar(s[0]);
    }
  }

  /** A text whose last character is a table symbol encodes to Morse that ends
      with the last symbol of that character's pattern. */
  lemma EncodedEnd(code: map<char, string>, s: string)
    requires WellFormed(code)
    requires s != [] && s[|s| - 1] != ' ' && UpperChar(s[|s| - 1]) in code
    ensures |Encoded(code, s)| > 0
    ensures var p := code[UpperChar(s[|s| - 1])];
      Encoded(code, s)[|Encoded(code, s)| - 1] == p[|p| - 1]
  {
    EncodedLast(code, s);
    var s', u := s[..|s| - 1], UpperChar(s[|s| - 1]);
    var p := code[u];
    assert Piece(code, u) == [p] && |p| > 0;
    var e := Encoded(code, s);
    if Pieces(code, Upper(s')) == [] {
      assert e == p;
    } else {
      assert e == Encoded(code, s') + " " + p;
      assert e[|e| - 1] == p[|p| - 1];
    }
  }

  // ---------------------------------------------------------------------------
  // Properties of the decoder

  /** Decoding distributes over concatenation of token lists. */
  lemma {:induction false} DecodeTokensAppend(rev: map<string, char>, a: seq<string>, b: seq<string>)
    ensures DecodeTokens(rev, a + b) == DecodeTokens(rev, a) + DecodeTokens(rev, b)
  {
    if b == [] {
      assert a + b == a;
    } else {
      var b' := b[..|b| - 1];
      assert (a + b)[..|a + b| - 1] == a + b';
      DecodeTokensAppend(rev, a, b');
    }
  }

  /** The decoder maps "/" to a space and each table pattern to its symbol,
      and drops every other token, the empty one included. */
  lemma TokenTexts(code: map<char, string>, rev: map<string, char>)
    requires Valid(code, rev)
    ensures TokenText(rev, "/") == " "
    ensures forall c :: c in code ==> TokenText(rev, code[c]) == [c]
    ensures forall t :: t != "/" && t !in code.Values ==> TokenText(rev, t) == ""
    ensures TokenText(rev, "") == ""
  {
    forall c | c in code
      ensures TokenText(rev, code[c]) == [c]
    {
      assert code[c][0] != '/';
    }
    forall p | p in rev
      ensures p in code.Values && IsPattern(p)
    {
      assert code[rev[p]] == p;
    }
  }

  /** Every character of the decoded text is a space or a key of the forward
      table, and the text has at most one character per token. */
  lemma {:induction false} DecodeAlphabet(code: map<char, string>, rev: map<string, char>, ts: seq<string>)
    requires Valid(code, rev)
    ensures |DecodeTokens(rev, ts)| <= |ts|
    ensures forall i :: 0 <= i < |DecodeTokens(rev, ts)| ==>
      DecodeTokens(rev, ts)[i] == ' ' || DecodeTokens(rev, ts)[i] in code
  {
    if ts != [] {
      DecodeAlphabet(code, rev, ts[..|ts| - 1]);
    }
  }

  // ---------------------------------------------------------------------------
  // Round trip

  /** The tokens of one piece decode to the upper-cased character it came
      from: " / " splits into "", "/", "" and decodes to " ", a pattern is a
      single token and decodes to its symbol. */
  lemma PieceDecodes(code: map<char, string>, rev: map<string, char>, u: char)
    requires Valid(code, rev)
    requires u == ' ' || u in code
    ensures DecodeTokens(rev, Split(Piece(code, u)[0], ' ')) == [u]
  {
    TokenTexts(code, rev);
    if u == ' ' {
      assert " / " == [] + [' '] + ("/" + [' '] + []);
      SplitAround([], "/" + [' '] + [], ' ');
      SplitAround("/", [], ' ');
      SplitWithout("/", ' ');
      var ts := ["", "/", ""];
      assert Split(" / ", ' ') == ts;
      assert ts[..2] == ["", "/"];
      assert ts[..2][..1] == [""];
      assert ts[..2][..1][..0] == [];
      assert DecodeTokens(rev, [""]) == "";
      assert DecodeTokens(rev, ["", "/"]) == " ";
    } else {
      var p := code[u];
      assert ' ' !in p;
      SplitWithout(p, ' ');
      assert [p][..0] == [];
    }
  }

  /** A non-empty text of supported characters has at least one piece. */
  lemma KeptHasPieces(code: map<char, string>, k: string)
    requires forall i :: 0 <= i < |k| ==> Supported(code, k[i])
    requires k != []
    ensures Pieces(code, Upper(k)) != []
  {
    PiecesLast(code, k);
    assert Piece(code, UpperChar(k[|k| - 1])) != [];
  }

  /** Decoding the encoder's output gives back the upper-cased input with its
      unsupported characters removed. The extra joiner spaces around each
      " / " only produce empty tokens, which the decoder drops. */
  lemma {:induction false} DecodeEncode(code: map<char, string>, rev: map<string, char>, s: string)
    requires Valid(code, rev)
    ensures Decoded(rev, Encoded(code, s)) == Upper(Keep(code, s))
  {
    if s == [] {
      TokenTexts(code, rev);
      assert Upper(s) == [] && Keep(code, s) == [];
      assert Encoded(code, s) == "";
      assert Split("", ' ') == [""];
      assert [""][..0] == [];
      assert DecodeTokens(rev, [""]) == "";
    } else {
      var s', c := s[..|s| - 1], s[|s| - 1];
      DecodeEncode(code, rev, s');
      EncodedLast(code, s);
      var u := UpperChar(c);
      var k := Keep(code, s);
      if Supported(code, c) {
        assert k == Keep(code, s') + [c];
        UpperLast(k);
        assert k[..|k| - 1] == Keep(code, s');
        var p := Piece(code, u)[0];
        PieceDecodes(code, rev, u);
        if Pieces(code, Upper(s')) == [] {
          PiecesOfKept(code, s');
          if Keep(code, s') != [] {
            KeptHasPieces(code, Keep(code, s'));
          }
        } else {
          var e := Encoded(code, s');
          assert Encoded(code, s) == e + [' '] + p;
          SplitAround(e, p, ' ');
          DecodeTokensAppend(rev, Split(e, ' '), Split(p, ' '));
        }
      } else {
        assert k == Keep(code, s');
      }
    }
  }

  /** Plain text: ASCII letters, digits and spaces only. */
  predicate IsPlainText(s: string) {
    forall i :: 0 <= i < |s| ==>
      s[i] == ' ' || 'A' <= s[i] <= 'Z' || 'a' <= s[i] <= 'z' || '0' <= s[i] <= '9'
  }

  lemma {:induction false} AllKept(code: map<char, string>, s: string)
    requires forall i :: 0 <= i < |s| ==> Supported(code, s[i])
    ensures Keep(code, s) == s
  {
    if s != [] {
      AllKept(code, s[..|s| - 1]);
    }
  }

  /** Round trip: for plain text, decoding the encoding gives the upper-cased
      text back. */
  lemma RoundTrip(s: string)
    requires IsPlainText(s)
    ensures Decode(Encode(s)) == Upper(s)
  {
    TableShape();
    TablesValid();
    AllKept(MorseCode, s);
    DecodeEncode(MorseCode, TextCode, s);
  }

  // ---------------------------------------------------------------------------
  // Examples

  /** "SOS" encodes to "... --- ...". */
  lemma SosEncodes()
    ensures Encode("SOS") == "... --- ..."
  {
    UpperSos();
    SosPieces();
    JoinThree("...", "---", "...");
  }

  /** "SOS" is already upper case. */
  lemma UpperSos()
    ensures Upper("SOS") == "SOS"
  {
    assert "SOS"[..2] == "SO" && "SO"[..1] == "S" && "S"[..0] == "";
  }

  /** Three patterns joined by single spaces. */
  lemma JoinThree(x: string, y: string, z: string)
    ensures Join([x, y, z], " ") == x + " " + y + " " + z
  {
    var ps := [x, y, z];
    assert ps[1..] == [y, z] && ps[1..][1..] == [z];
    assert Join(ps[1..], " ") == y + " " + z;
    assert x + " " + (y + " " + z) == x + " " + y + " " + z;
  }

  /** The encoder's list for "SOS": the patterns of S, O and S. */
  lemma SosPieces()
    ensures Pieces(MorseCode, "SOS") == ["...", "---", "..."]
  {
    var S, O := MorseCode['S'], MorseCode['O'];
    assert S == "..." && O == "---";
    assert Pieces(MorseCode, "S") == [S] by {
      assert "S"[..0] == "";
    }
    assert Pieces(MorseCode, "SO") == [S, O] by {
      assert "SO"[..1] == "S";
    }
    assert "SOS"[..2] == "SO";
  }

  /** Lower case encodes the same: "sos" also gives "... --- ...". */
  lemma LowerSosEncodes()
    ensures Encode("sos") == "... --- ..."
  {
    assert Upper("sos") == "SOS" by {
      assert "sos"[..2] == "so" && "so"[..1] == "s" && "s"[..0] == "";
    }
    EncodeIgnoresCase(MorseCode, "sos");
    SosEncodes();
  }

  /** A single token (no space) that is neither "/" nor a key of the reverse
      table decodes to nothing. */
  lemma {:induction false} UnknownTokenDropped(rev: map<string, char>, t: string)
    requires ' ' !in t && t != "/" && t !in rev
    ensures Decoded(rev, t) == ""
  {
    SplitWithout(t, ' ');
    assert [t][..0] == [];
    assert DecodeTokens(rev, [t]) == DecodeTokens(rev, []) + TokenText(rev, t);
  }

  /** A token longer than every pattern of the table, such as ".-.-.-.-", is
      dropped without failing. */
  lemma LongTokenDropped(t: string)
    requires ' ' !in t && |t| > 5
    ensures Decode(t) == ""
  {
    ReverseKeys();
    UnknownTokenDropped(TextCode, t);
  }
}
