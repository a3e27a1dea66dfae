/**
 * `get_som_eom`: the Start Of Material is the frame before the `black_end`
 * of the first blackdetect line; the End Of Material is the frame before
 * the `black_start` of the last one, or, when there is only one, the frame
 * before the end of the video, which is then reported as an advisory.
 * Every `panic!` of the source is an error value here.
 */
module Resolver {
  import opened Wrappers
  import opened Text
  import opened FloatParse
  import opened Frames
  import opened Filter
  import opened Duration
  import Classifier
  import Timecode

  /** Why one blackdetect line gives no frame, in the order the source checks. */
  datatype LineError =
    | Malformed(reason: PrefixError)  // `extract_filter_prefix` failed
    | MissingValue                    // `get_filter_value` gave `None`
    | Underflow                       // `frame - 1` with `frame == 0`

  datatype ResolveError =
    | NoBlackdetect                       // the list is empty
    | BadFirstLine(first: LineError)      // the SOM line
    | BadLastLine(last: LineError)        // the EOM line, with two or more lines
    | MissingDurationLine                 // no line held `"Duration: "`
    | MissingDurationField                // `get_value_from_string("Duration", ..)` gave `None`
    | BadDuration(duration: DurationError)
    | DurationUnderflow                   // the video ends on frame 0

  /** The two boundaries as frame indices, and whether EOM came from the video's end. */
  datatype Boundaries = Boundaries(som: nat, eom: nat, advisory: bool)

  /** Extract the payload, look `key` up, and step back from the frame of its timestamp. */
  function MarkFrame(line: string, key: string): (r: Result<nat, LineError>)
    ensures r.Err? && r.error.Malformed? <==> ExtractFilterPrefix(line).Err?
    ensures r.Err? && r.error.Malformed? ==> ExtractFilterPrefix(line) == Err(r.error.reason)
    ensures r == Err(MissingValue) <==>
      ExtractFilterPrefix(line).Ok? && FilterValue(ExtractFilterPrefix(line).value, key).None?
  {
    match ExtractFilterPrefix(line)
    case Err(e) => Err(Malformed(e))
    case Ok(payload) =>
      match FilterValue(payload, key)
      case None => Err(MissingValue)
      case Some(t) =>
        match PreviousFrame(FrameForTimestamp(t))
        case None => Err(Underflow)
        case Some(frame) => Ok(frame)
  }

  /** The last frame of the video, from the remembered `Duration:` line. */
  function DurationFrame(rawDurationLine: Option<string>): (r: Result<nat, ResolveError>)
    ensures r.Err? ==> !r.error.NoBlackdetect? && !r.error.BadFirstLine? && !r.error.BadLastLine?
    ensures rawDurationLine.None? ==> r == Err(MissingDurationLine)
  {
    match rawDurationLine
    case None => Err(MissingDurationLine)
    case Some(line) =>
      match GetValueFromString("Duration", line)
      case None => Err(MissingDurationField)
      case Some(text) =>
        match ConvertDuration(text)
        case Err(e) => Err(BadDuration(e))
        case Ok(duration) => LastFrameAt(duration)
  }

  /** The frame before the end of a video `duration` seconds long. */
  function LastFrameAt(duration: real): (r: Result<nat, ResolveError>)
    ensures r.Ok? <==> duration * FRAME_RATE >= 0.5
    ensures r.Ok? ==> r.value + 1 == FrameForTimestamp(duration)
    ensures r.Err? ==> r.error == DurationUnderflow
  {
    match PreviousFrame(FrameForTimestamp(duration))
    case None => Err(DurationUnderflow)
    case Some(frame) => Ok(frame)
  }

  /** `get_som_eom` */
  function SomEom(blackdetects: seq<string>, rawDurationLine: Option<string>): (r: Result<Boundaries, ResolveError>)
    ensures r == Err(NoBlackdetect) <==> blackdetects == []
    ensures r.Err? && r.error.BadFirstLine? ==>
      blackdetects != [] && MarkFrame(blackdetects[0], "black_end") == Err(r.error.first)
    ensures r.Err? && r.error.BadLastLine? ==>
      && |blackdetects| > 1
      && MarkFrame(blackdetects[0], "black_end").Ok?
      && MarkFrame(blackdetects[|blackdetects| - 1], "black_start") == Err(r.error.last)
    ensures r.Err? && !r.error.NoBlackdetect? && !r.error.BadFirstLine? && !r.error.BadLastLine? ==>
      && |blackdetects| == 1
      && MarkFrame(blackdetects[0], "black_end").Ok?
      && DurationFrame(rawDurationLine) == Err(r.error)
  {
    if blackdetects == [] then Err(NoBlackdetect)
    else
      match MarkFrame(blackdetects[0], "black_end")
      case Err(e) => Err(BadFirstLine(e))
      case Ok(som) =>
        if |blackdetects| > 1 then
          match MarkFrame(blackdetects[|blackdetects| - 1], "black_start")
          case Err(e) => Err(BadLastLine(e))
          case Ok(eom) => Ok(Boundaries(som, eom, false))
        else
          match DurationFrame(rawDurationLine)
          case Err(e) => Err(e)
          case Ok(eom) => Ok(Boundaries(som, eom, true))
  }

  /** `run_ffmpeg_cmd` after the process is started: classify the lines, then resolve. */
  method Run(lines: seq<string>) returns (r: Result<Boundaries, ResolveError>)
    ensures r == SomEom(Classifier.BlackdetectLines(lines), Classifier.LastDurationLine(lines))
  {
    var blackdetects, rawDurationLine := Classifier.Classify(lines);
    r := SomEom(blackdetects, rawDurationLine);
  }

  /** A line gives a frame exactly when it parses, carries `key`, and that timestamp is past frame 0. */
  lemma MarkFrameCases(line: string, key: string)
    ensures MarkFrame(line, key).Ok? <==>
      && ExtractFilterPrefix(line).Ok?
      && FilterValue(ExtractFilterPrefix(line).value, key).Some?
      && FrameForTimestamp(FilterValue(ExtractFilterPrefix(line).value, key).value) > 0
    ensures MarkFrame(line, key).Ok? ==>
      MarkFrame(line, key).value + 1 == FrameForTimestamp(FilterValue(ExtractFilterPrefix(line).value, key).value)
    ensures MarkFrame(line, key) == Err(Underflow) <==>
      && ExtractFilterPrefix(line).Ok?
      && FilterValue(ExtractFilterPrefix(line).value, key).Some?
      && FilterValue(ExtractFilterPrefix(line).value, key).value * FRAME_RATE < 0.5
  {
    match ExtractFilterPrefix(line)
    case Err(_) =>
    case Ok(payload) =>
      match FilterValue(payload, key)
      case None =>
      case Some(t) =>
        if t * FRAME_RATE >= 0.5 {
          FrameAfterHalf(t);
        }
  }

  /** The frame a line gives once its payload and timestamp are known. */
  lemma MarkFrameOf(line: string, key: string, payload: string, t: real)
    requires ExtractFilterPrefix(line) == Ok(payload)
    requires FilterValue(payload, key) == Some(t)
    requires t * FRAME_RATE >= 0.5
    ensures MarkFrame(line, key) == Ok(FrameForTimestamp(t) - 1)
  {
    FrameAfterHalf(t);
    assert PreviousFrame(FrameForTimestamp(t)) == Some(FrameForTimestamp(t) - 1);
  }

  /** The frame the duration line gives once its field and its value are known. */
  lemma DurationFrameOf(line: string, text: string, duration: real)
    requires GetValueFromString("Duration", line) == Some(text)
    requires ConvertDuration(text) == Ok(duration)
    ensures DurationFrame(Some(line)) == LastFrameAt(duration)
  {
  }

  /**
   * A successful result takes SOM from the first line's `black_end` and is
   * an advisory exactly when there is a single line.
   */
  lemma SomFromFirstLine(blackdetects: seq<string>, rawDurationLine: Option<string>)
    requires SomEom(blackdetects, rawDurationLine).Ok?
    ensures blackdetects != []
    ensures MarkFrame(blackdetects[0], "black_end") == Ok(SomEom(blackdetects, rawDurationLine).value.som)
    ensures SomEom(blackdetects, rawDurationLine).value.advisory <==> |blackdetects| == 1
  {
    var r := SomEom(blackdetects, rawDurationLine);
    assert blackdetects != [];
    var first := MarkFrame(blackdetects[0], "black_end");
    assert first.Ok?;
    if |blackdetects| > 1 {
      var last := MarkFrame(blackdetects[|blackdetects| - 1], "black_start");
      assert r == Ok(Boundaries(first.value, last.value, false));
    } else {
      assert r == Ok(Boundaries(first.value, DurationFrame(rawDurationLine).value, true));
    }
  }

  /** With two or more lines, EOM comes from the last line's `black_start`. */
  lemma EomFromLastLine(blackdetects: seq<string>, rawDurationLine: Option<string>)
    requires |blackdetects| > 1
    requires SomEom(blackdetects, rawDurationLine).Ok?
    ensures MarkFrame(blackdetects[|blackdetects| - 1], "black_start") == Ok(SomEom(blackdetects, rawDurationLine).value.eom)
  {
  }

  /** With a single line, EOM is the frame before the end of the video. */
  lemma EomFromDuration(blackdetects: seq<string>, rawDurationLine: Option<string>)
    requires |blackdetects| == 1
    requires SomEom(blackdetects, rawDurationLine).Ok?
    ensures rawDurationLine.Some?
    ensures GetValueFromString("Duration", rawDurationLine.value).Some?
    ensures ConvertDuration(GetValueFromString("Duration", rawDurationLine.value).value).Ok?
    ensures SomEom(blackdetects, rawDurationLine).value.eom + 1 ==
      FrameForTimestamp(ConvertDuration(GetValueFromString("Duration", rawDurationLine.value).value).value)
  {
  }

  /** The duration line is consulted only when there is a single blackdetect line. */
  lemma DurationIgnored(blackdetects: seq<string>, d1: Option<string>, d2: Option<string>)
    requires |blackdetects| != 1
    ensures SomEom(blackdetects, d1) == SomEom(blackdetects, d2)
  {
  }

  /** Only the first and the last line matter. */
  lemma OnlyEndsMatter(blackdetects: seq<string>, rawDurationLine: Option<string>)
    requires |blackdetects| >= 2
    ensures SomEom(blackdetects, rawDurationLine) ==
      SomEom([blackdetects[0], blackdetects[|blackdetects| - 1]], rawDurationLine)
  {
  }

  /** A later timestamp on one line than on another never gives an earlier frame. */
  lemma MarkFrameOrder(line1: string, key1: string, line2: string, key2: string)
    requires MarkFrame(line1, key1).Ok? && MarkFrame(line2, key2).Ok?
    requires FilterValue(ExtractFilterPrefix(line1).value, key1).value <= FilterValue(ExtractFilterPrefix(line2).value, key2).value
    ensures MarkFrame(line1, key1).value <= MarkFrame(line2, key2).value
  {
    MarkFrameCases(line1, key1);
    MarkFrameCases(line2, key2);
    FrameMonotone(FilterValue(ExtractFilterPrefix(line1).value, key1).value, FilterValue(ExtractFilterPrefix(line2).value, key2).value);
  }

  /**
   * SOM precedes EOM whenever the first line's black ends no later than the
   * last line's black starts; the source itself never checks the order.
   */
  lemma SomNotAfterEom(blackdetects: seq<string>, rawDurationLine: Option<string>)
    requires |blackdetects| > 1
    requires SomEom(blackdetects, rawDurationLine).Ok?
    requires
      var first := ExtractFilterPrefix(blackdetects[0]).value;
      var last := ExtractFilterPrefix(blackdetects[|blackdetects| - 1]).value;
      FilterValue(first, "black_end").value <= FilterValue(last, "black_start").value
    ensures SomEom(blackdetects, rawDurationLine).value.som <= SomEom(blackdetects, rawDurationLine).value.eom
  {
    SomFromFirstLine(blackdetects, rawDurationLine);
    EomFromLastLine(blackdetects, rawDurationLine);
    MarkFrameOrder(blackdetects[0], "black_end", blackdetects[|blackdetects| - 1], "black_start");
  }

  /**
   * With one blackdetect line, SOM comes no later than EOM whenever the
   * black stretch ends no later than the video does.
   */
  lemma SomNotAfterVideoEnd(blackdetects: seq<string>, rawDurationLine: Option<string>)
    requires |blackdetects| == 1
    requires SomEom(blackdetects, rawDurationLine).Ok?
    requires ExtractFilterPrefix(blackdetects[0]).Ok?
    requires FilterValue(ExtractFilterPrefix(blackdetects[0]).value, "black_end").Some?
    requires rawDurationLine.Some? && GetValueFromString("Duration", rawDurationLine.value).Some?
    requires ConvertDuration(GetValueFromString("Duration", rawDurationLine.value).value).Ok?
    requires FilterValue(ExtractFilterPrefix(blackdetects[0]).value, "black_end").value <=
      ConvertDuration(GetValueFromString("Duration", rawDurationLine.value).value).value
    ensures SomEom(blackdetects, rawDurationLine).value.som <= SomEom(blackdetects, rawDurationLine).value.eom
  {
    SomFromFirstLine(blackdetects, rawDurationLine);
    EomFromDuration(blackdetects, rawDurationLine);
    MarkFrameCases(blackdetects[0], "black_end");
    FrameMonotone(FilterValue(ExtractFilterPrefix(blackdetects[0]).value, "black_end").value,
      ConvertDuration(GetValueFromString("Duration", rawDurationLine.value).value).value);
  }

  /**
   * A line `[tag] w0 w1 ..` whose word `i` is `key:value`, with every earlier
   * word some other `k:v`, yields the frame before the timestamp `value`.
   */
  lemma MarkFrameOfLine(tag: string, ws: seq<string>, i: nat, key: string, value: string)
    requires !Contains(tag, "] ")
    requires forall k :: 0 <= k < |ws| ==> IsWord(ws[k])
    requires i < |ws| && forall j :: 0 <= j < i ==> PassesOver(ws[j], key)
    requires KeyValue(ws[i]) == Some((key, value))
    requires ParseFloat(value).Some? && ParseFloat(value).value * FRAME_RATE >= 0.5
    ensures MarkFrame("[" + tag + "] " + Unwords(ws), key) == Ok(FrameForTimestamp(ParseFloat(value).value) - 1)
  {
    ExtractRoundTrip(tag, Unwords(ws));
    FilterValueOfWords(ws, i, key, value);
    MarkFrameOf("[" + tag + "] " + Unwords(ws), key, Unwords(ws), ParseFloat(value).value);
  }

  /** When every step succeeds the result is built from the pieces, in both branches. */
  lemma SomEomSucceeds(blackdetects: seq<string>, rawDurationLine: Option<string>)
    requires blackdetects != [] && MarkFrame(blackdetects[0], "black_end").Ok?
    ensures |blackdetects| > 1 && MarkFrame(blackdetects[|blackdetects| - 1], "black_start").Ok? ==>
      SomEom(blackdetects, rawDurationLine) ==
        Ok(Boundaries(MarkFrame(blackdetects[0], "black_end").value, MarkFrame(blackdetects[|blackdetects| - 1], "black_start").value, false))
    ensures |blackdetects| == 1 && DurationFrame(rawDurationLine).Ok? ==>
      SomEom(blackdetects, rawDurationLine) ==
        Ok(Boundaries(MarkFrame(blackdetects[0], "black_end").value, DurationFrame(rawDurationLine).value, true))
  {
  }

  /**
   * A duration line laid out as `Duration: h:m:s.f, ..` gives the frame
   * before the one at `h` hours, `m` minutes, `s` seconds and `f`
   * hundredths, or the underflow error when that is frame 0.
   */
  lemma DurationFrameOfClock(line: string, before: string, gap: string, h: string, m: string, s: string, f: string, commas: string, after: string)
    requires ClockDigits(h, m, s, f)
    requires FieldLayout("Duration", line, before, gap, h + ":" + m + ":" + s + "." + f, commas, after)
    ensures DurationFrame(Some(line)) == LastFrameAt(ClockSeconds(DigitsValue(h) as real, DigitsValue(m) as real, DigitsValue(s) as real, DigitsValue(f) as real))
  {
    var text := h + ":" + m + ":" + s + "." + f;
    FieldLayoutDetermines("Duration", line, before, gap, text, commas, after);
    ConvertClock(h, m, s, f);
    DurationFrameOf(line, text, ClockSeconds(DigitsValue(h) as real, DigitsValue(m) as real, DigitsValue(s) as real, DigitsValue(f) as real));
  }

  /** What `get_som_eom` prints: both boundaries as drop-frame timecodes, and whether EOM is an advisory. */
  datatype Report = Report(somTimecode: string, eomTimecode: string, advisory: bool)

  /** The report: both boundaries as timecodes, which below a hundred hours count back to them. */
  function Printed(b: Boundaries): (r: Report)
    ensures r.advisory == b.advisory
    ensures b.som < Timecode.FRAMES_BELOW_HUNDRED_HOURS ==>
      Timecode.DropFrameText(r.somTimecode) && Timecode.FrameOfLabel(Timecode.LabelOfText(r.somTimecode)) == b.som
    ensures b.eom < Timecode.FRAMES_BELOW_HUNDRED_HOURS ==>
      Timecode.DropFrameText(r.eomTimecode) && Timecode.FrameOfLabel(Timecode.LabelOfText(r.eomTimecode)) == b.eom
  {
    Timecode.TimecodeReadsBack(b.som);
    Timecode.TimecodeReadsBack(b.eom);
    Report(Timecode.TimecodeOfFrame(b.som), Timecode.TimecodeOfFrame(b.eom), b.advisory)
  }

  /** Below a hundred hours, the printed report tells the boundaries apart. */
  lemma PrintedDeterminesBoundaries(b1: Boundaries, b2: Boundaries)
    requires b1.som < Timecode.FRAMES_BELOW_HUNDRED_HOURS && b1.eom < Timecode.FRAMES_BELOW_HUNDRED_HOURS
    requires b2.som < Timecode.FRAMES_BELOW_HUNDRED_HOURS && b2.eom < Timecode.FRAMES_BELOW_HUNDRED_HOURS
    requires Printed(b1) == Printed(b2)
    ensures b1 == b2
  {
    Timecode.TimecodeInjective(b1.som, b2.som);
    Timecode.TimecodeInjective(b1.eom, b2.eom);
  }
}
