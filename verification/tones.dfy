/** The sound schedule of esrom's Morse player: for every character of a Morse
    string, which tone is played and how long the player waits. The audio
    itself (sample generation and the mixer) is not modelled; a schedule is the
    list of tones and silences, in milliseconds, in the order they happen. */
module Tones {

  /** One step of playback: a tone of the given frequency handed to the mixer
      together with the wait that follows it, or a plain wait. The duration is
      the wait in milliseconds, not the length of the sound that is heard. */
  datatype Segment =
    | Tone(frequencyHz: nat, durationMs: nat)
    | Silence(durationMs: nat)

  /** The four waits the player uses, in milliseconds. */
  datatype Timing = Timing(dotMs: nat, dashMs: nat, gapMs: nat, wordGapMs: nat)

  /** The pitch of every tone. */
  const BeepFrequency: nat := 300

  /** `tenths / 10 // speed` for a positive integer speed, then converted to
      milliseconds by `int(x * 1000)`: the floor division of a fraction below
      one by a speed of at least one is zero. */
  function FloorWaitMs(tenths: nat, speed: int): (r: nat)
    requires 0 <= tenths < 10 && speed >= 1
    ensures r == 0
  {
    1000 * (tenths / (10 * speed))
  }

  /** The waits `play_morse_sound` computes from its speed: integer floor
      division of 400 and 1000 for the tones, and the floor division of the
      floats 0.9 and 0.3 for the gaps. */
  function SourceTiming(speed: int): (t: Timing)
    requires speed >= 1
    ensures t.dotMs <= 400 && t.dashMs <= 1000
    ensures t.dotMs <= t.dashMs
    ensures t.gapMs == 0 && t.wordGapMs == 0
  {
    DivMonotoneInNumerator(400, 1000, speed);
    Timing(400 / speed, 1000 / speed, FloorWaitMs(9, speed), FloorWaitMs(3, speed))
  }

  /** Division is monotone in the numerator: dividing a larger non-negative
      number by the same divisor gives no less. */
  lemma DivMonotoneInNumerator(a: nat, b: nat, d: int)
    requires a <= b && d >= 1
    ensures a / d <= b / d
  {
    var q := a / d;
    assert d * q <= a;
    BelowIsAtMostQuotient(q, d, b);
  }

  /** Division is antitone in the divisor: dividing by a larger divisor gives
      no more. */
  lemma DivAntitoneInDivisor(a: nat, d1: int, d2: int)
    requires 1 <= d1 <= d2
    ensures a / d2 <= a / d1
  {
    var q := a / d2;
    assert d2 * q <= a;
    MulMonotone(d1, d2, q);
    BelowIsAtMostQuotient(q, d1, a);
  }

  /** A smaller factor gives a smaller product. */
  lemma MulMonotone(x: int, y: int, k: nat)
    requires x <= y
    ensures x * k <= y * k
  {
  }

  /** A multiple of `d` that does not exceed `a` is at most `a / d` times
      `d`. */
  lemma BelowIsAtMostQuotient(k: int, d: int, a: nat)
    requires d >= 1 && d * k <= a
    ensures k <= a / d
  {
    var q := a / d;
    assert a == d * q + a % d && a % d < d;
    if k > q {
      MulMonotone(q + 1, k, d);
      assert false;
    }
  }

  /** The segments one character of the Morse string produces: a dot or a dash
      sounds for its own time, a space adds the word gap, and every character,
      recognised or not, ends with the short gap. */
  function CharSegments(c: char, t: Timing): seq<Segment> {
    if c == '.' then [Tone(BeepFrequency, t.dotMs), Silence(t.gapMs)]
    else if c == '-' then [Tone(BeepFrequency, t.dashMs), Silence(t.gapMs)]
    else if c == ' ' then [Silence(t.wordGapMs), Silence(t.gapMs)]
    else [Silence(t.gapMs)]
  }

  /** A segment the timing allows: a tone at the beep frequency lasting a dot
      or a dash, or a silence lasting the gap or the word gap. */
  predicate Allowed(s: Segment, t: Timing) {
    match s
    case Tone(f, d) => f == BeepFrequency && (d == t.dotMs || d == t.dashMs)
    case Silence(d) => d == t.gapMs || d == t.wordGapMs
  }

  /** The whole schedule of a Morse string, character by character; at least
      one segment per character. */
  function Schedule(m: string, t: Timing): (r: seq<Segment>)
    ensures |r| >= |m|
  {
    if m == [] then [] else Schedule(m[..|m| - 1], t) + CharSegments(m[|m| - 1], t)
  }

  /** Every segment of a schedule is allowed by its timing, and a non-empty
      string's schedule ends with the short gap. */
  lemma {:induction false} ScheduleAllowed(m: string, t: Timing)
    ensures forall i :: 0 <= i < |Schedule(m, t)| ==> Allowed(Schedule(m, t)[i], t)
    ensures m != [] ==> Schedule(m, t)[|Schedule(m, t)| - 1] == Silence(t.gapMs)
  {
    if m != [] {
      ScheduleAllowed(m[..|m| - 1], t);
    }
  }

  /** Every tone of a schedule is immediately followed by the short gap. */
  lemma {:induction false} ToneThenGap(m: string, t: Timing, i: nat)
    requires i < |Schedule(m, t)| && Schedule(m, t)[i].Tone?
    ensures i + 1 < |Schedule(m, t)| && Schedule(m, t)[i + 1] == Silence(t.gapMs)
  {
    var m' := m[..|m| - 1];
    if i < |Schedule(m', t)| {
      ToneThenGap(m', t, i);
    }
  }

  /** `play_morse_sound(morse, speed)`: walks the string once and collects the
      tones and waits it would issue. */
  method PlayMorseSound(morse: string, speed: int) returns (segments: seq<Segment>)
    requires speed >= 1
    ensures segments == Schedule(morse, SourceTiming(speed))
  {
    var dot := 400 / speed;
    var dash := 1000 / speed;
    var gap := FloorWaitMs(9, speed);
    var wordGap := FloorWaitMs(3, speed);
    ghost var t := SourceTiming(speed);
    segments := [];
    for i := 0 to |morse|
      invariant segments == Schedule(morse[..i], t)
    {
      var c := morse[i];
      assert morse[..i + 1][..i] == morse[..i];
      if c == '.' {
        segments := segments + [Tone(BeepFrequency, dot)];
      } else if c == '-' {
        segments := segments + [Tone(BeepFrequency, dash)];
      } else if c == ' ' {
        segments := segments + [Silence(wordGap)];
      }
      segments := segments + [Silence(gap)];
    }
    assert morse[..|morse|] == morse;
  }

  /** One more character adds its own segments at the end. */
  lemma ScheduleSnoc(m: string, c: char, t: Timing)
    ensures Schedule(m + [c], t) == Schedule(m, t) + CharSegments(c, t)
  {
    var mc := m + [c];
    assert mc[..|mc| - 1] == m && mc[|mc| - 1] == c;
  }

  /** The schedule of a concatenation is the two schedules in order. */
  lemma {:induction false} ScheduleAppend(a: string, b: string, t: Timing)
    ensures Schedule(a + b, t) == Schedule(a, t) + Schedule(b, t)
  {
    if b == [] {
      assert a + b == a;
    } else {
      var b', c := b[..|b| - 1], b[|b| - 1];
      assert b == b' + [c];
      assert a + b == (a + b') + [c];
      ScheduleAppend(a, b', t);
      ScheduleSnoc(a + b', c, t);
      ScheduleSnoc(b', c, t);
      var sa, sb', sc := Schedule(a, t), Schedule(b', t), CharSegments(c, t);
      assert (sa + sb') + sc == sa + (sb' + sc);
    }
  }

  /** How many times `c` occurs in `s`. */
  function Count(s: string, c: char): nat {
    multiset(s)[c]
  }

  /** One more character adds one to its own count and nothing to others. */
  lemma CountSnoc(s: string, c: char, x: char)
    ensures Count(s + [c], x) == Count(s, x) + (if c == x then 1 else 0)
  {
    assert multiset(s + [c]) == multiset(s) + multiset{c};
  }

  /** The number of segments: one per character, plus one more for every dot,
      dash and space. */
  lemma {:induction false} ScheduleLength(m: string, t: Timing)
    ensures |Schedule(m, t)| == |m| + Count(m, '.') + Count(m, '-') + Count(m, ' ')
  {
    if m != [] {
      var m' := m[..|m| - 1];
      var c := m[|m| - 1];
      assert m == m' + [c];
      ScheduleLength(m', t);
      CountSnoc(m', c, '.');
      CountSnoc(m', c, '-');
      CountSnoc(m', c, ' ');
    }
  }

  /** The number of tones in a list of segments. */
  function ToneCount(segments: seq<Segment>): nat {
    if segments == [] then 0
    else ToneCount(segments[..|segments| - 1]) + (if segments[|segments| - 1].Tone? then 1 else 0)
  }

  /** The tones of two lists played one after the other. */
  lemma {:induction false} ToneCountAppend(a: seq<Segment>, b: seq<Segment>)
    ensures ToneCount(a + b) == ToneCount(a) + ToneCount(b)
  {
    if b == [] {
      assert a + b == a;
    } else {
      var b' := b[..|b| - 1];
      var ab := a + b;
      assert ab[..|ab| - 1] == a + b' && ab[|ab| - 1] == b[|b| - 1];
      ToneCountAppend(a, b');
    }
  }

  /** A dot or a dash brings one tone, any other character none. */
  lemma CharTones(c: char, t: Timing)
    ensures ToneCount(CharSegments(c, t)) == if c == '.' || c == '-' then 1 else 0
  {
    var p := CharSegments(c, t);
    if |p| == 1 {
      assert p[..0] == [];
    } else {
      assert p[..1][..0] == [] && p[..1] == [p[0]];
      assert ToneCount(p) == ToneCount(p[..1]) + (if p[1].Tone? then 1 else 0);
      assert ToneCount(p[..1]) == if p[0].Tone? then 1 else 0;
    }
  }

  /** One tone per dot and per dash, and none for any other character. */
  lemma {:induction false} ScheduleTones(m: string, t: Timing)
    ensures ToneCount(Schedule(m, t)) == Count(m, '.') + Count(m, '-')
  {
    if m != [] {
      var m' := m[..|m| - 1];
      var c := m[|m| - 1];
      assert m == m' + [c];
      ScheduleTones(m', t);
      ToneCountAppend(Schedule(m', t), CharSegments(c, t));
      CharTones(c, t);
      CountSnoc(m', c, '.');
      CountSnoc(m', c, '-');
    }
  }

  /** The time a schedule takes: the sum of its segments' durations. */
  function TotalMs(segments: seq<Segment>): nat {
    if segments == [] then 0
    else TotalMs(segments[..|segments| - 1]) + segments[|segments| - 1].durationMs
  }

  /** The total time of two schedules played one after the other. */
  lemma {:induction false} TotalMsAppend(a: seq<Segment>, b: seq<Segment>)
    ensures TotalMs(a + b) == TotalMs(a) + TotalMs(b)
  {
    if b == [] {
      assert a + b == a;
    } else {
      var b' := b[..|b| - 1];
      var ab := a + b;
      assert ab[..|ab| - 1] == a + b' && ab[|ab| - 1] == b[|b| - 1];
      TotalMsAppend(a, b');
    }
  }

  /** The time one character takes: its own tone or word gap, then the short
      gap. */
  lemma CharDuration(c: char, t: Timing)
    ensures TotalMs(CharSegments(c, t))
         == (if c == '.' then t.dotMs else 0) + (if c == '-' then t.dashMs else 0)
          + (if c == ' ' then t.wordGapMs else 0) + t.gapMs
  {
    var p := CharSegments(c, t);
    if |p| == 1 {
      assert p[..0] == [];
    } else {
      assert p[..1][..0] == [] && p[..1] == [p[0]];
      assert TotalMs(p) == TotalMs(p[..1]) + p[1].durationMs;
      assert TotalMs(p[..1]) == p[0].durationMs;
    }
  }

  /** Playing a string takes one dot time per dot, one dash time per dash, one
      word gap per space and one short gap per character. */
  lemma {:induction false} ScheduleDuration(m: string, t: Timing)
    ensures TotalMs(Schedule(m, t))
         == Count(m, '.') * t.dotMs + Count(m, '-') * t.dashMs
          + Count(m, ' ') * t.wordGapMs + |m| * t.gapMs
  {
    if m != [] {
      var m' := m[..|m| - 1];
      var c := m[|m| - 1];
      assert m == m' + [c];
      ScheduleDuration(m', t);
      TotalMsAppend(Schedule(m', t), CharSegments(c, t));
      CharDuration(c, t);
      CountSnoc(m', c, '.');
      CountSnoc(m', c, '-');
      CountSnoc(m', c, ' ');
      AddOne(Count(m', '.'), Count(m, '.'), c == '.', t.dotMs);
      AddOne(Count(m', '-'), Count(m, '-'), c == '-', t.dashMs);
      AddOne(Count(m', ' '), Count(m, ' '), c == ' ', t.wordGapMs);
      AddOne(|m'|, |m|, true, t.gapMs);
    }
  }

  /** Adding one occurrence adds one more of its time. */
  lemma AddOne(n: nat, n': nat, b: bool, d: nat)
    requires n' == n + (if b then 1 else 0)
    ensures n' * d == n * d + (if b then d else 0)
  {
  }

  /** Without gaps a string takes exactly the time of its dots and dashes. */
  lemma DurationWithoutGaps(m: string, t: Timing)
    requires t.gapMs == 0 && t.wordGapMs == 0
    ensures TotalMs(Schedule(m, t)) == Count(m, '.') * t.dotMs + Count(m, '-') * t.dashMs
  {
    ScheduleDuration(m, t);
    MulZero(Count(m, ' '), t.wordGapMs);
    MulZero(|m|, t.gapMs);
  }

  /** Anything times zero is zero. */
  lemma MulZero(n: nat, z: nat)
    requires z == 0
    ensures n * z == 0
  {
  }

  /** With the source's timing a string takes exactly its dots and dashes:
      400 / speed ms per dot and 1000 / speed ms per dash, nothing for any
      gap. */
  lemma PlaybackDuration(m: string, speed: int)
    requires speed >= 1
    ensures TotalMs(Schedule(m, SourceTiming(speed)))
         == Count(m, '.') * (400 / speed) + Count(m, '-') * (1000 / speed)
  {
    DurationWithoutGaps(m, SourceTiming(speed));
  }

  /** Timing `fast` is nowhere longer than timing `slow`. */
  predicate NotLonger(fast: Timing, slow: Timing) {
    fast.dotMs <= slow.dotMs && fast.dashMs <= slow.dashMs
    && fast.gapMs <= slow.gapMs && fast.wordGapMs <= slow.wordGapMs
  }

  /** A higher speed gives a timing that is nowhere longer. */
  lemma FasterTiming(s1: int, s2: int)
    requires 1 <= s1 <= s2
    ensures NotLonger(SourceTiming(s2), SourceTiming(s1))
  {
    DivAntitoneInDivisor(400, s1, s2);
    DivAntitoneInDivisor(1000, s1, s2);
  }

  /** Under a timing that is nowhere longer, the schedule has the same shape
      (the same segments in the same places) and no segment lasts longer. */
  lemma {:induction false} ScheduleNotLonger(m: string, fast: Timing, slow: Timing)
    requires NotLonger(fast, slow)
    ensures |Schedule(m, fast)| == |Schedule(m, slow)|
    ensures forall i :: 0 <= i < |Schedule(m, fast)| ==>
      Schedule(m, fast)[i].Tone? == Schedule(m, slow)[i].Tone?
      && Schedule(m, fast)[i].durationMs <= Schedule(m, slow)[i].durationMs
  {
    if m != [] {
      ScheduleNotLonger(m[..|m| - 1], fast, slow);
    }
  }

  /** Playing faster never makes any tone or wait longer. */
  lemma FasterNotLonger(m: string, s1: int, s2: int)
    requires 1 <= s1 <= s2
    ensures |Schedule(m, SourceTiming(s2))| == |Schedule(m, SourceTiming(s1))|
    ensures forall i :: 0 <= i < |Schedule(m, SourceTiming(s2))| ==>
      Schedule(m, SourceTiming(s2))[i].durationMs <= Schedule(m, SourceTiming(s1))[i].durationMs
  {
    FasterTiming(s1, s2);
    ScheduleNotLonger(m, SourceTiming(s2), SourceTiming(s1));
  }

  /** A dash at the default speed: one 1000 ms tone at 300 Hz, then the short
      gap. */
  lemma DashAtDefaultSpeed()
    ensures Schedule("-", SourceTiming(1)) == [Tone(300, 1000), Silence(0)]
  {
    assert "-"[..0] == "";
  }

  /** Doubling the speed halves the dot: 400 ms at speed 1, 200 ms at speed 2. */
  lemma DoubleSpeedHalvesDot()
    ensures Schedule(".", SourceTiming(1))[0] == Tone(300, 400)
    ensures Schedule(".", SourceTiming(2))[0] == Tone(300, 200)
  {
    assert "."[..0] == "";
  }

  // ---------------------------------------------------------------------------
  // The gaps as written and as intended

  /** As written, every wait of any schedule at any speed that is not a tone's
      own wait lasts 0 ms. */
  lemma GapsVanish(m: string, speed: int)
    requires speed >= 1
    ensures forall i :: 0 <= i < |Schedule(m, SourceTiming(speed))| ==>
      Schedule(m, SourceTiming(speed))[i].Silence? ==> Schedule(m, SourceTiming(speed))[i].durationMs == 0
  {
  }

  /** "..", the smallest input that shows it: at the default speed the player
      waits 400 ms for each dot and 0 ms after each. */
  lemma TwoDotsZeroGaps()
    ensures Schedule("..", SourceTiming(1))
         == [Tone(300, 400), Silence(0), Tone(300, 400), Silence(0)]
  {
    assert ".."[..1] == "." && "."[..0] == "";
  }

  /** The timing the comments describe: 0.9 s between symbols and 0.3 s more
      between words, divided by the speed, in whole milliseconds. */
  function IntendedTiming(speed: int): (t: Timing)
    requires speed >= 1
    ensures t.dotMs == SourceTiming(speed).dotMs && t.dashMs == SourceTiming(speed).dashMs
    ensures speed <= 300 ==> t.gapMs >= 3 && t.wordGapMs >= 1
  {
    IntendedGaps(speed);
    var source := SourceTiming(speed);
    Timing(source.dotMs, source.dashMs, 900 / speed, 300 / speed)
  }

  /** Up to speed 300 the intended gaps are at least 3 ms and 1 ms. */
  lemma IntendedGaps(speed: int)
    requires speed >= 1
    ensures speed <= 300 ==> 900 / speed >= 3 && 300 / speed >= 1
  {
    if speed <= 300 {
      DivAntitoneInDivisor(900, speed, 300);
      DivAntitoneInDivisor(300, speed, 300);
    }
  }

  /** With the intended timing every tone's wait is followed by a wait longer
      than 0 ms. */
  lemma IntendedSeparatesTones(m: string, speed: int, i: nat)
    requires 1 <= speed <= 300
    requires i < |Schedule(m, IntendedTiming(speed))| && Schedule(m, IntendedTiming(speed))[i].Tone?
    ensures i + 1 < |Schedule(m, IntendedTiming(speed))|
    ensures Schedule(m, IntendedTiming(speed))[i + 1].Silence?
    ensures Schedule(m, IntendedTiming(speed))[i + 1].durationMs > 0
  {
    ToneThenGap(m, IntendedTiming(speed), i);
  }

  /** The tones of a list of segments, in order. */
  function ToneList(segments: seq<Segment>): seq<Segment> {
    if segments == [] then []
    else
      var last := segments[|segments| - 1];
      ToneList(segments[..|segments| - 1]) + (if last.Tone? then [last] else [])
  }

  /** The tones of two lists played one after the other. */
  lemma {:induction false} ToneListAppend(a: seq<Segment>, b: seq<Segment>)
    ensures ToneList(a + b) == ToneList(a) + ToneList(b)
  {
    if b == [] {
      assert a + b == a;
    } else {
      var b' := b[..|b| - 1];
      var ab := a + b;
      assert ab[..|ab| - 1] == a + b' && ab[|ab| - 1] == b[|b| - 1];
      ToneListAppend(a, b');
    }
  }

  /** A space brings no tone, only its two waits. */
  lemma SpaceSegments(t: Timing)
    ensures ToneList(Schedule(" ", t)) == []
    ensures TotalMs(Schedule(" ", t)) == t.wordGapMs + t.gapMs
  {
    assert [] + [' '] == " ";
    ScheduleSnoc([], ' ', t);
    var p := CharSegments(' ', t);
    assert Schedule(" ", t) == p;
    assert p[..1][..0] == [] && p[..1] == [p[0]];
    assert ToneList(p[..1]) == [];
    CharDuration(' ', t);
  }

  /** The schedule of `a`, a space and `b`, as three parts. */
  lemma ScheduleAround(a: string, b: string, t: Timing)
    ensures Schedule(a + " " + b, t) == Schedule(a, t) + Schedule(" ", t) + Schedule(b, t)
    ensures Schedule(a + b, t) == Schedule(a, t) + Schedule(b, t)
  {
    ScheduleAppend(a + " ", b, t);
    ScheduleAppend(a, " ", t);
    ScheduleAppend(a, b, t);
  }

  /** A space between two Morse strings keeps the tones, in order, and adds
      the word gap and the short gap to the total time. */
  lemma SpaceInserted(a: string, b: string, t: Timing)
    ensures ToneList(Schedule(a + " " + b, t)) == ToneList(Schedule(a + b, t))
    ensures TotalMs(Schedule(a + " " + b, t)) == TotalMs(Schedule(a + b, t)) + t.wordGapMs + t.gapMs
  {
    var sa, ss, sb := Schedule(a, t), Schedule(" ", t), Schedule(b, t);
    ScheduleAround(a, b, t);
    SpaceSegments(t);
    calc {
      ToneList(Schedule(a + " " + b, t));
      ToneList(sa + ss + sb);
      { ToneListAppend(sa + ss, sb); ToneListAppend(sa, ss); }
      ToneList(sa) + [] + ToneList(sb);
      { assert ToneList(sa) + [] == ToneList(sa); ToneListAppend(sa, sb); }
      ToneList(Schedule(a + b, t));
    }
    calc {
      TotalMs(Schedule(a + " " + b, t));
      TotalMs(sa + ss + sb);
      { TotalMsAppend(sa + ss, sb); TotalMsAppend(sa, ss); }
      TotalMs(sa) + TotalMs(ss) + TotalMs(sb);
      { TotalMsAppend(sa, sb); }
      TotalMs(Schedule(a + b, t)) + t.wordGapMs + t.gapMs;
    }
  }

  /** As written, a space in the Morse string leaves no trace in the timing:
      the string with and without it issues the same tones in the same order
      and takes the same total time. */
  lemma SpacesAddNoTime(a: string, b: string, speed: int)
    requires speed >= 1
    ensures ToneList(Schedule(a + " " + b, SourceTiming(speed)))
         == ToneList(Schedule(a + b, SourceTiming(speed)))
    ensures TotalMs(Schedule(a + " " + b, SourceTiming(speed)))
         == TotalMs(Schedule(a + b, SourceTiming(speed)))
  {
    SpaceInserted(a, b, SourceTiming(speed));
  }

  /** As written, "SOS" as three letters and "SOS" run together as one
      nine-symbol letter issue the same nine tones and take the same total
      time, at every speed: the letter boundaries leave no trace in the
      timing. */
  lemma SosBoundariesAddNoTime(speed: int)
    requires speed >= 1
    ensures ToneList(Schedule("... --- ...", SourceTiming(speed)))
         == ToneList(Schedule("...---...", SourceTiming(speed)))
    ensures TotalMs(Schedule("... --- ...", SourceTiming(speed)))
         == TotalMs(Schedule("...---...", SourceTiming(speed)))
  {
    assert "..." + " " + "--- ..." == "... --- ...";
    assert "..." + "--- ..." == "...---" + " " + "...";
    assert "...---" + "..." == "...---...";
    SpacesAddNoTime("...", "--- ...", speed);
    SpacesAddNoTime("...---", "...", speed);
  }

  /** With the intended timing a space adds at least 4 ms of waiting, up to
      speed 300. */
  lemma SpacesAddTime(a: string, b: string, speed: int)
    requires 1 <= speed <= 300
    ensures TotalMs(Schedule(a + " " + b, IntendedTiming(speed)))
         >= TotalMs(Schedule(a + b, IntendedTiming(speed))) + 4
  {
    SpaceInserted(a, b, IntendedTiming(speed));
  }

  /** With the intended timing the three letters of "SOS" take at least 8 ms
      longer than the nine symbols run together, up to speed 300. */
  lemma SosBoundariesAddTime(speed: int)
    requires 1 <= speed <= 300
    ensures TotalMs(Schedule("... --- ...", IntendedTiming(speed)))
         >= TotalMs(Schedule("...---...", IntendedTiming(speed))) + 8
  {
    assert "..." + " " + "--- ..." == "... --- ...";
    assert "..." + "--- ..." == "...---" + " " + "...";
    assert "...---" + "..." == "...---...";
    SpacesAddTime("...", "--- ...", speed);
    SpacesAddTime("...---", "...", speed);
  }
}
