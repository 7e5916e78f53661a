# esrom Morse core in Dafny

esrom is a desktop Morse translator. It types text into Morse and Morse back into text. It can also play Morse: for each dot or dash it starts a tone generated at 300 Hz and waits the symbol's time, and after every character it waits a short gap. This project models the Morse layer of `debian/esrom/usr/bin/esrom.py` and proves its properties:

- **CodeTable** (`code_table.dfy`) holds the 36-entry code table `morse_code` and its reverse `text_code`. It proves that the table is injective and well formed, and that the reverse table undoes it in both directions.
- **Strings** (`strings.dfy`) models the Python string operations the translator relies on: `upper` (ASCII), `split(" ")`, `join` and `strip`. It also proves their split/join and strip laws.
- **Codec** (`codec.dfy`) covers `convert_to_morse` and `convert_to_text`.
  - Each is a method whose loop appends to a result list, as the program's loop does. Each is proved equal to a specification function, `Encode` or `Decode`.
  - The specification functions take the tables as parameters. Their lemmas therefore hold for every valid table pair, and they are instantiated with the program's tables.
  - Lemmas cover case-insensitivity, dropped characters, one `/` per space, the output alphabet, what the decoder does with each token, and the round trip on letters, digits and spaces.
- **Tones** (`tones.dfy`) covers the schedule `play_morse_sound` follows. A schedule is the list of tones and waits, in milliseconds, in the order the player issues them. A tone records the frequency handed to the tone generator and the wait that follows it, not the sound that comes out.
  - `PlayMorseSound` walks the string as the program does and is proved equal to `Schedule`.
  - Lemmas give the total duration, the number of segments and tones, how a schedule behaves under concatenation, and that higher speeds are never longer.
  - As written, every gap lasts 0 ms, so a space between letters or words adds no time and issues no tone (see Findings).
- **Translator** (`translator.dfy`) covers the two handlers of the window, "translate" and "play", taking the input field's text as a parameter.
  - Each handler strips the input and does nothing when nothing is left. Otherwise it decides by the classifier `IsMorseLike` whether the input is Morse or text.
  - Lemmas prove that the encoder's output is always classified as Morse and that input containing a letter or digit is classified as text. They also prove a round trip through the window: translating a non-empty line of plain text with no space at either end, then translating the result, gives the upper-cased line. The handlers strip their input first, so a line with spaces at its ends comes back stripped as well as upper-cased.

Two details of the code shape the model:

- In the player, a space waits the word gap and then the short gap. Every character, not only dots and dashes, is followed by the short gap. Both gaps are 0 ms at every speed.
- `text_code` is Python's last-wins dictionary comprehension. The model builds it only for an injective table, where the two agree. `CodeTable.TableInjective` proves that the table is injective.

## Model

| member | source | states |
|---|---|---|
| CodeTable.PatternsDistinct | debian/esrom/usr/bin/esrom.py:15-24 | two different symbols never share a pattern |
| CodeTable.TableInjective | debian/esrom/usr/bin/esrom.py:15-24 | the code table is injective |
| CodeTable.TableKeys | debian/esrom/usr/bin/esrom.py:15-24 | the table's keys are exactly the letters A–Z and the digits 0–9 |
| CodeTable.EntryShape | debian/esrom/usr/bin/esrom.py:15-24 | every pattern is non-empty, uses only '.' and '-', and has at most five symbols |
| CodeTable.TableShape | debian/esrom/usr/bin/esrom.py:15-24 | keys are exactly letters and digits, and every value is a well-formed pattern |
| CodeTable.SwapInverse | debian/esrom/usr/bin/esrom.py:27 | swapping an injective map gives its two-sided inverse |
| CodeTable.ReverseTable | debian/esrom/usr/bin/esrom.py:15-27 | `text_code[morse_code[c]] == c` for every symbol, and `morse_code[text_code[p]] == p` for every pattern |
| CodeTable.ReverseKeys | debian/esrom/usr/bin/esrom.py:27 | every key of the reverse table is a pattern of at most five symbols; neither "" nor "/" is one |
| CodeTable.TablesValid | debian/esrom/usr/bin/esrom.py:15-27 | the program's two tables form a valid pair: well-formed patterns, mutually inverse |
| Strings.Upper | debian/esrom/usr/bin/esrom.py:31 | upper-casing keeps the length and maps each character on its own |
| Strings.UpperIdempotent | debian/esrom/usr/bin/esrom.py:31 | upper-casing twice equals upper-casing once |
| Strings.UpperAppend | debian/esrom/usr/bin/esrom.py:31 | upper-casing distributes over concatenation |
| Strings.JoinSnoc | debian/esrom/usr/bin/esrom.py:39 | joining one more part adds a separator and the part at the end |
| Strings.Split | debian/esrom/usr/bin/esrom.py:43 | `split(" ")` gives at least one token, and no token contains the separator |
| Strings.JoinSplit | debian/esrom/usr/bin/esrom.py:43 | joining the tokens of a split with the separator gives back the input |
| Strings.SplitWithout | debian/esrom/usr/bin/esrom.py:43 | a string without the separator splits into itself alone |
| Strings.SplitAround | debian/esrom/usr/bin/esrom.py:43 | a separator splits a string into the tokens of its two sides |
| Strings.SplitJoin | debian/esrom/usr/bin/esrom.py:43 | splitting a join of separator-free parts gives back the parts |
| Strings.TrimStart | debian/esrom/usr/bin/esrom.py:282 | `lstrip` leaves a suffix, removes only white space, and the result does not start with white space |
| Strings.TrimEnd | debian/esrom/usr/bin/esrom.py:282 | `rstrip` leaves a prefix, removes only white space, and the result does not end with white space |
| Strings.StripEnds | debian/esrom/usr/bin/esrom.py:282 | what `strip` keeps is empty or has no white space at either end |
| Strings.StripUnchanged | debian/esrom/usr/bin/esrom.py:282 | `strip` leaves a string with no white space at either end unchanged |
| Codec.ConvertToMorse | debian/esrom/usr/bin/esrom.py:30-39 | the loop's output equals `Encode(text)`: upper-case, one piece per space or symbol, joined by " " |
| Codec.ConvertToText | debian/esrom/usr/bin/esrom.py:42-51 | the loop's output equals `Decode(morse)`: the token texts of the split, concatenated |
| Codec.DecodeStep | debian/esrom/usr/bin/esrom.py:45-50 | one decoder iteration keeps the joined list equal to the decoded prefix of the tokens |
| Codec.Keep | debian/esrom/usr/bin/esrom.py:34-37 | the characters the encoder keeps are spaces and characters whose upper case is a symbol |
| Codec.EncodeIgnoresCase | debian/esrom/usr/bin/esrom.py:31 | encoding the upper-cased text gives the same Morse |
| Codec.LowerSosEncodes | debian/esrom/usr/bin/esrom.py:31-39 | "sos" encodes to "... --- ..." |
| Codec.SosEncodes | debian/esrom/usr/bin/esrom.py:30-39 | "SOS" encodes to "... --- ..." |
| Codec.SosPieces | debian/esrom/usr/bin/esrom.py:33-37 | the encoder's list for "SOS" is the three patterns in order |
| Codec.EncodeIgnoresUnsupported | debian/esrom/usr/bin/esrom.py:34-37 | removing unsupported characters leaves the output unchanged, and only unsupported characters give "" |
| Codec.EncodedLast | debian/esrom/usr/bin/esrom.py:33-39 | the Morse of a text extends that of its prefix by nothing, by the last piece, or by " " and the last piece |
| Codec.EncodeSlashes | debian/esrom/usr/bin/esrom.py:35-39 | the output holds exactly one "/" per space of the input |
| Codec.EncodeSymbols | debian/esrom/usr/bin/esrom.py:30-39 | every output character is '.', '-', ' ' or '/' |
| Codec.EncodedFirst | debian/esrom/usr/bin/esrom.py:33-39 | a text starting with a symbol encodes to Morse starting with the first symbol of its pattern |
| Codec.EncodedEnd | debian/esrom/usr/bin/esrom.py:33-39 | a text ending with a symbol encodes to Morse ending with the last symbol of its pattern |
| Codec.TokenTexts | debian/esrom/usr/bin/esrom.py:45-50 | "/" gives " ", each pattern gives its symbol, and every other token, including "", gives nothing |
| Codec.DecodeTokensAppend | debian/esrom/usr/bin/esrom.py:44-51 | decoding distributes over concatenation of token lists |
| Codec.DecodeAlphabet | debian/esrom/usr/bin/esrom.py:44-51 | the decoded text is no longer than the token list, and every character is a space or a symbol |
| Codec.UnknownTokenDropped | debian/esrom/usr/bin/esrom.py:44-50 | a single token that is neither "/" nor a known pattern decodes to "" without failing |
| Codec.LongTokenDropped | debian/esrom/usr/bin/esrom.py:44-50 | a space-free token longer than five symbols, such as ".-.-.-.-", decodes to "" |
| Codec.PieceDecodes | debian/esrom/usr/bin/esrom.py:35-50 | decoding the piece of a space or symbol gives that space or symbol back |
| Codec.DecodeEncode | debian/esrom/usr/bin/esrom.py:30-51 | for any valid table pair, decoding an encoding gives the upper-cased supported characters |
| Codec.AllKept | debian/esrom/usr/bin/esrom.py:34-37 | a text of supported characters is kept whole |
| Codec.RoundTrip | debian/esrom/usr/bin/esrom.py:30-51 | for text of ASCII letters, digits and spaces, `convert_to_text(convert_to_morse(s)) == upper(s)` |
| Tones.FloorWaitMs | debian/esrom/usr/bin/esrom.py:61-62 | `int((x // speed) * 1000)` for a fraction `x` below one and speed ≥ 1 is 0 ms |
| Tones.SourceTiming | debian/esrom/usr/bin/esrom.py:59-62 | the dot is at most 400 ms and no longer than the dash (at most 1000 ms); both gaps are 0 ms |
| Tones.Schedule | debian/esrom/usr/bin/esrom.py:74-87 | the schedule has at least one segment per character |
| Tones.PlayMorseSound | debian/esrom/usr/bin/esrom.py:54-87 | the player's loop issues exactly `Schedule(morse, SourceTiming(speed))` |
| Tones.ScheduleAllowed | debian/esrom/usr/bin/esrom.py:65-87 | every tone is 300 Hz and lasts a dot or a dash; every wait lasts a gap; a non-empty string ends with the short gap |
| Tones.ToneThenGap | debian/esrom/usr/bin/esrom.py:75-87 | every tone is immediately followed by the short gap |
| Tones.ScheduleSnoc | debian/esrom/usr/bin/esrom.py:74-87 | one more character adds its own segments at the end |
| Tones.ScheduleAppend | debian/esrom/usr/bin/esrom.py:74-87 | the schedule of a concatenation is the two schedules in order |
| Tones.CountSnoc | debian/esrom/usr/bin/esrom.py:74 | one more character adds one to its own count only |
| Tones.ScheduleLength | debian/esrom/usr/bin/esrom.py:74-87 | there is one segment per character, plus one per dot, dash and space |
| Tones.ToneCountAppend | debian/esrom/usr/bin/esrom.py:74-87 | tone counts add under concatenation |
| Tones.CharTones | debian/esrom/usr/bin/esrom.py:75-85 | a dot or dash brings one tone, any other character none |
| Tones.ScheduleTones | debian/esrom/usr/bin/esrom.py:74-87 | there are exactly as many tones as dots and dashes |
| Tones.TotalMsAppend | debian/esrom/usr/bin/esrom.py:74-87 | durations add under concatenation |
| Tones.CharDuration | debian/esrom/usr/bin/esrom.py:75-87 | one character takes its tone or word gap plus the short gap |
| Tones.ScheduleDuration | debian/esrom/usr/bin/esrom.py:74-87 | total time = dots × dot + dashes × dash + spaces × word gap + characters × short gap |
| Tones.DurationWithoutGaps | debian/esrom/usr/bin/esrom.py:74-87 | with zero gaps, a string takes exactly its dots' and dashes' time |
| Tones.PlaybackDuration | debian/esrom/usr/bin/esrom.py:59-87 | as written, playing takes `dots × (400 // speed) + dashes × (1000 // speed)` ms |
| Tones.DivMonotoneInNumerator | debian/esrom/usr/bin/esrom.py:59-60 | `400 // speed` is no more than `1000 // speed` |
| Tones.DivAntitoneInDivisor | debian/esrom/usr/bin/esrom.py:59-60 | floor division by a larger speed gives no more |
| Tones.FasterTiming | debian/esrom/usr/bin/esrom.py:59-62 | a higher speed gives no longer dot, dash or gap |
| Tones.ScheduleNotLonger | debian/esrom/usr/bin/esrom.py:74-87 | under a timing that is nowhere longer, the schedule keeps its shape and no segment is longer |
| Tones.FasterNotLonger | debian/esrom/usr/bin/esrom.py:59-87 | playing faster never makes any tone or wait longer |
| Tones.DashAtDefaultSpeed | debian/esrom/usr/bin/esrom.py:59-87 | "-" at speed 1 is one 1000 ms tone at 300 Hz, then a 0 ms gap |
| Tones.DoubleSpeedHalvesDot | debian/esrom/usr/bin/esrom.py:59 | a dot is 400 ms at speed 1 and 200 ms at speed 2 |
| Tones.GapsVanish | debian/esrom/usr/bin/esrom.py:61-62 | as written, every wait that is not a tone's own wait lasts 0 ms, at every speed |
| Tones.TwoDotsZeroGaps | debian/esrom/usr/bin/esrom.py:74-87 | as written, ".." at speed 1 waits 400 ms for each dot's tone and 0 ms after each |
| Tones.IntendedTiming | debian/esrom/usr/bin/esrom.py:59-62 | the corrected timing keeps the tones; up to speed 300 its gaps are at least 3 ms and 1 ms |
| Tones.IntendedGaps | debian/esrom/usr/bin/esrom.py:61-62 | `900 // speed ≥ 3` and `300 // speed ≥ 1` for speeds 1 to 300 |
| Tones.IntendedSeparatesTones | debian/esrom/usr/bin/esrom.py:74-87 | with the corrected timing, every tone's wait is followed by a wait longer than 0 ms |
| Tones.ToneListAppend | debian/esrom/usr/bin/esrom.py:74-87 | the tones of two schedules played one after the other are the two tone lists in order |
| Tones.SpaceSegments | debian/esrom/usr/bin/esrom.py:85-87 | a space issues no tone, only the word gap and the short gap |
| Tones.SpaceInserted | debian/esrom/usr/bin/esrom.py:74-87 | a space between two Morse strings keeps the tones in order and adds the word gap and the short gap to the total time |
| Tones.SpacesAddNoTime | debian/esrom/usr/bin/esrom.py:59-87 | as written, a Morse string with and without a space issues the same tones in the same order and takes the same total time |
| Tones.SosBoundariesAddNoTime | debian/esrom/usr/bin/esrom.py:59-87 | as written, "... --- ..." and "...---..." issue the same tones and take the same total time at every speed |
| Tones.SpacesAddTime | debian/esrom/usr/bin/esrom.py:59-87 | with the corrected timing, a space adds at least 4 ms up to speed 300 |
| Tones.SosBoundariesAddTime | debian/esrom/usr/bin/esrom.py:59-87 | with the corrected timing, "... --- ..." takes at least 8 ms longer than "...---..." up to speed 300 |
| Translator.Translate | debian/esrom/usr/bin/esrom.py:280-287 | the translate button does nothing exactly when the stripped input is empty |
| Translator.Played | debian/esrom/usr/bin/esrom.py:289-297 | the play button plays nothing exactly when the stripped input is empty; whatever it plays is Morse-like |
| Translator.TranslateInput | debian/esrom/usr/bin/esrom.py:280-287 | the handler, built from the two converter methods, shows `Translate(field)` |
| Translator.PlayInput | debian/esrom/usr/bin/esrom.py:289-297 | the handler plays nothing exactly when `Played` is None, and otherwise the schedule of `Played(field)` at speed 1 |
| Translator.EncodeIsMorseLike | debian/esrom/usr/bin/esrom.py:284 | the classifier takes the encoder's output for Morse |
| Translator.TableCharNotMorse | debian/esrom/usr/bin/esrom.py:284 | a string with a letter or digit is not Morse-like |
| Translator.TextIsEncoded | debian/esrom/usr/bin/esrom.py:282-287 | input with a letter or digit after stripping is translated by encoding it |
| Translator.TextIsPlayedEncoded | debian/esrom/usr/bin/esrom.py:291-297 | input with a letter or digit after stripping is played as its encoding |
| Translator.PlayedDuration | debian/esrom/usr/bin/esrom.py:289-297 | the play button takes 400 ms per dot and 1000 ms per dash of what it plays |
| Translator.EncodeUnstripped | debian/esrom/usr/bin/esrom.py:282-287 | the Morse of a plain line with a symbol at each end is non-empty and survives `strip` |
| Translator.PlainEnds | debian/esrom/usr/bin/esrom.py:282 | a plain line with no space at either end has no white space at either end |
| Translator.PlainTextTranslated | debian/esrom/usr/bin/esrom.py:282-287 | such a line is translated to its Morse |
| Translator.MorseTranslatedBack | debian/esrom/usr/bin/esrom.py:282-285 | its Morse, typed back in, is translated to the upper-cased line |
| Translator.WindowRoundTrip | debian/esrom/usr/bin/esrom.py:280-287 | translating twice brings a non-empty plain line with no space at either end back upper-cased |

## Left out

- Strings.Upper: upper-casing is ASCII only. Python's `str.upper` also maps non-ASCII letters, and some land on table symbols: 'ı' becomes 'I', 'ſ' becomes 'S', and 'ß' becomes "SS". The program encodes these characters, but the model drops them.
- Strings.IsSpace and Strings.Strip: the white-space set is that of `str.isspace` in current Python, written out as a fixed list of characters rather than taken from the Unicode database.
- CodeTable.Swap: it requires an injective map, where Python's comprehension lets a later entry win. The program's table is injective, as `CodeTable.TableInjective` proves, so the reverse table agrees.
- Tones.PlayMorseSound: it requires speed ≥ 1. Speed 0 raises ZeroDivisionError in the program. Negative speeds use Python's floor division, which the model does not follow, and the window only ever plays at the default speed 1.
- The tone samples: the sine samples built with numpy (`linspace`, `sin`, int16 scaling) and the 10000 Hz sample rate are floating-point audio data. A tone is modelled by its frequency and duration.
- The sound of a tone: a `Tone(f, d)` records the frequency given to the tone generator and the wait `d` handed to `time.wait`. It is not what sounds: `generate_tone` builds `int(10000 × d / 1000)` samples for a sample rate of 10000 Hz, but the mixer is opened at 22050 Hz. The buffer therefore sounds for less than `d` ms and at a higher pitch than 300 Hz, inside the wait. No lemma states anything about the sound that is heard.
- Audio output: pygame's mixer set-up, `Sound.play(maxtime=…)` and `time.wait` are audio I/O and blocking sleeps. The model records the tone and wait durations they are given, in order.
- The window: the Qt window, menus, About dialog, saving to a file and copying to the clipboard are UI and file I/O. The handlers take the input field's text as a parameter and return what would be shown or played.
- Logo and icon lookup: `get_logo_path` and `get_icon_path` are filesystem and platform probing.
- setup.py: packaging metadata with no logic.

## Findings

| source | as written | input that shows it | evidently intended | confidence | as-written member | corrected member |
|---|---|---|---|---|---|---|
| debian/esrom/usr/bin/esrom.py:61-62 | `0.9 // speed` and `0.3 // speed` floor-divide floats, so the symbol gap and the word gap are 0 ms at every speed ≥ 1, and `time.wait(0)` never pauses | `"... --- ..."` (SOS as three letters) against `"...---..."` (one nine-symbol run), at any speed ≥ 1: both issue the same nine tones in the same order and wait the same total time, because every wait between tones is 0 ms, so letter and word boundaries leave no trace in the timing | a gap of 0.9 s / speed and a word gap of 0.3 s / speed (900 // speed and 300 // speed ms) | medium, not executed | Tones.SosBoundariesAddNoTime | Tones.SosBoundariesAddTime |

The player follows the code as written (`Tones.SourceTiming`). The schedule lemmas are stated for any `Tones.Timing`, so they hold for the corrected `Tones.IntendedTiming` as well.
