/** The two buttons of esrom's window, without the window: "translate" and
    "play" take the input field's text, strip it, do nothing when nothing is
    left, and otherwise decide by its characters whether it is Morse (decoded,
    or played as it is) or text (encoded, and the encoding played). */
module Translator {
  import opened CodeTable
  import opened Strings
  import opened Codec
  import opened Tones

  datatype Option<T> = None | Some(value: T)

  /** A character that may appear in Morse input. */
  predicate IsMorseChar(c: char) {
    c == '.' || c == '-' || c == ' ' || c == '/'
  }

  /** The classifier: every character is a dot, a dash, a space or "/". */
  predicate IsMorseLike(s: string) {
    forall i :: 0 <= i < |s| ==> IsMorseChar(s[i])
  }

  /** What the translate button shows, or None when it leaves the output
      alone: Morse-like input is decoded and anything else is encoded. */
  function Translate(input: string): (r: Option<string>)
    ensures r.None? <==> Strip(input) == []
  {
    var s := Strip(input);
    if s == [] then None
    else if IsMorseLike(s) then Some(Decode(s))
    else Some(Encode(s))
  }

  /** The Morse string the play button plays, or None when it plays nothing:
      Morse-like input as it is and anything else encoded. Whatever is played
      is Morse-like. */
  function Played(input: string): (r: Option<string>)
    ensures r.None? <==> Strip(input) == []
    ensures r.Some? ==> IsMorseLike(r.value)
  {
    var s := Strip(input);
    if s == [] then None
    else if IsMorseLike(s) then Some(s)
    else (EncodeIsMorseLike(s); Some(Encode(s)))
  }

  /** The translate button's handler, on the text of the input field. */
  method TranslateInput(field: string) returns (output: Option<string>)
    ensures output == Translate(field)
  {
    var input := Strip(field);
    if input == [] {
      return None;
    }
    var text;
    if IsMorseLike(input) {
      text := ConvertToText(input);
    } else {
      text := ConvertToMorse(input);
    }
    output := Some(text);
  }

  /** The play button's handler, on the text of the input field: the schedule
      of what it plays at the default speed, 1. */
  method PlayInput(field: string) returns (played: Option<seq<Segment>>)
    ensures played.None? <==> Played(field).None?
    ensures played.Some? ==> played.value == Schedule(Played(field).value, SourceTiming(1))
  {
    var input := Strip(field);
    if input == [] {
      return None;
    }
    var segments;
    if IsMorseLike(input) {
      segments := PlayMorseSound(input, 1);
    } else {
      var morse := ConvertToMorse(input);
      segments := PlayMorseSound(morse, 1);
    }
    played := Some(segments);
  }

  /** The encoder's output is always classified as Morse. */
  lemma EncodeIsMorseLike(s: string)
    ensures IsMorseLike(Encode(s))
  {
    TablesValid();
    EncodeSymbols(MorseCode, s);
  }

  /** A string holding a letter or a digit (in either case) is not
      Morse-like. */
  lemma TableCharNotMorse(s: string, i: nat)
    requires i < |s| && IsTableChar(UpperChar(s[i]))
    ensures !IsMorseLike(s)
  {
    assert !IsMorseChar(s[i]);
  }

  /** Input that keeps a letter or a digit after stripping is classified as
      text and encoded by the translate button. */
  lemma TextIsEncoded(input: string, i: nat)
    requires i < |Strip(input)| && IsTableChar(UpperChar(Strip(input)[i]))
    ensures Translate(input) == Some(Encode(Strip(input)))
  {
    TableCharNotMorse(Strip(input), i);
  }

  /** The play button plays such input's encoding. */
  lemma TextIsPlayedEncoded(input: string, i: nat)
    requires i < |Strip(input)| && IsTableChar(UpperChar(Strip(input)[i]))
    ensures Played(input) == Some(Encode(Strip(input)))
  {
    TableCharNotMorse(Strip(input), i);
  }

  /** The play button waits 400 ms per dot and 1000 ms per dash of what it
      plays, and 0 ms for every other wait. */
  lemma PlayedDuration(input: string)
    requires Played(input).Some?
    ensures var m := Played(input).value;
      TotalMs(Schedule(m, SourceTiming(1))) == Count(m, '.') * 400 + Count(m, '-') * 1000
  {
    assert SourceTiming(1) == Timing(400, 1000, 0, 0);
    DurationWithoutGaps(Played(input).value, SourceTiming(1));
  }

  /** The Morse of a line of plain text with a letter or digit at each end is
      not empty and has no white space at either end, so stripping leaves it
      alone. */
  lemma EncodeUnstripped(t: string)
    requires IsPlainText(t) && t != [] && t[0] != ' ' && t[|t| - 1] != ' '
    ensures Encode(t) != [] && Strip(Encode(t)) == Encode(t)
  {
    TableShape();
    TablesValid();
    var first, last := UpperChar(t[0]), UpperChar(t[|t| - 1]);
    assert first in MorseCode && last in MorseCode;
    EncodedFirst(MorseCode, t);
    EncodedEnd(MorseCode, t);
    EntryShape(first);
    EntryShape(last);
    StripUnchanged(Encode(t));
  }

  /** A line of plain text with no space at either end has no white space at
      either end. */
  lemma PlainEnds(t: string)
    requires IsPlainText(t) && t != [] && t[0] != ' ' && t[|t| - 1] != ' '
    ensures !IsSpace(t[0]) && !IsSpace(t[|t| - 1])
  {
    var a, b := t[0], t[|t| - 1];
    assert 'A' <= a <= 'Z' || 'a' <= a <= 'z' || '0' <= a <= '9';
    assert 'A' <= b <= 'Z' || 'a' <= b <= 'z' || '0' <= b <= '9';
  }

  /** A line of plain text with a letter or digit at each end translates to
      its Morse. */
  lemma PlainTextTranslated(t: string)
    requires IsPlainText(t) && t != [] && t[0] != ' ' && t[|t| - 1] != ' '
    ensures Translate(t) == Some(Encode(t))
  {
    PlainEnds(t);
    StripUnchanged(t);
    assert !IsMorseChar(t[0]);
  }

  /** The Morse of such a line, typed back in, translates to the upper-cased
      line. */
  lemma MorseTranslatedBack(t: string)
    requires IsPlainText(t) && t != [] && t[0] != ' ' && t[|t| - 1] != ' '
    ensures Translate(Encode(t)) == Some(Upper(t))
  {
    EncodeUnstripped(t);
    EncodeIsMorseLike(t);
    RoundTrip(t);
  }

  /** Round trip through the window: a line of plain text with no space at
      either end translates to its Morse, and translating that Morse gives the
      upper-cased line. */
  lemma WindowRoundTrip(t: string)
    requires IsPlainText(t) && t != [] && t[0] != ' ' && t[|t| - 1] != ' '
    ensures Translate(t).Some? && Translate(Translate(t).value) == Some(Upper(t))
  {
    PlainTextTranslated(t);
    MorseTranslatedBack(t);
  }
}
