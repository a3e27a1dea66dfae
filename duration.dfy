/**
 * Reading the total length of the video from ffmpeg's header line
 *   Duration: 00:00:39.04, start: 0.000000, bitrate: 60024 kb/s
 * `get_value_from_string` cuts the labelled field out of the line and
 * `convert_video_ffmpeg_duration` turns `HH:MM:SS.ff` into seconds.
 */
module Duration {
  import opened Wrappers
  import opened Text
  import opened FloatParse

  /**
   * `get_value_from_string`: the text after the first `param:`, with the
   * leading whitespace skipped, cut at the first space and stripped of
   * every trailing comma.
   */
  function GetValueFromString(param: string, input: string): (r: Option<string>)
    ensures r.None? <==> !Contains(input, param + ":")
    ensures r.Some? ==> ' ' !in r.value && (r.value == [] || r.value[|r.value| - 1] != ',')
  {
    var pattern := param + ":";
    match IndexOf(input, pattern)
    case None => None
    case Some(index) => Some(CutField(TrimStart(input[index + |pattern|..])))
  }

  /** The field at the head of `valueString`: up to the first space, trailing commas dropped. */
  function CutField(valueString: string): (value: string)
    ensures |value| <= |valueString| && value == valueString[..|value|]
    ensures ' ' !in value
    ensures value == [] || value[|value| - 1] != ','
  {
    match IndexOf(valueString, " ")
    case Some(valueEnd) =>
      NoSpaceBefore(valueString, valueEnd);
      TrimEndMatches(valueString[..valueEnd], ',')
    case None =>
      NoSpaceBefore(valueString, |valueString|);
      TrimEndMatches(valueString, ',')
  }

  predicate AllWhitespace(s: string) {
    forall k :: 0 <= k < |s| ==> IsWhitespace(s[k])
  }

  predicate AllCommas(s: string) {
    forall k :: 0 <= k < |s| ==> s[k] == ','
  }

  /**
   * `line` reads `before`, the label and `:`, whitespace `gap`, the field
   * `value`, trailing commas and then either the end or a space; `before`
   * does not already hold the label.
   */
  predicate FieldLayout(param: string, line: string, before: string, gap: string, value: string, commas: string, after: string) {
    && line == before + param + ":" + gap + value + commas + after
    && !Contains(before + param, param + ":")
    && AllWhitespace(gap)
    && ' ' !in value
    && (value == [] || value[|value| - 1] != ',')
    && AllCommas(commas)
    && (after == [] || after[0] == ' ')
    && (value + commas + after == [] || !IsWhitespace((value + commas + after)[0]))
  }

  lemma {:induction false} TrimStartAfterGap(gap: string, t: string)
    requires AllWhitespace(gap)
    requires t == [] || !IsWhitespace(t[0])
    ensures TrimStart(gap + t) == t
  {
    if gap == [] {
      assert gap + t == t;
    } else {
      assert (gap + t)[1..] == gap[1..] + t;
      TrimStartAfterGap(gap[1..], t);
    }
  }

  lemma {:induction false} TrimEndOfCommas(value: string, commas: string)
    requires AllCommas(commas)
    requires value == [] || value[|value| - 1] != ','
    ensures TrimEndMatches(value + commas, ',') == value
  {
    if commas == [] {
      assert value + commas == value;
    } else {
      var shorter := commas[..|commas| - 1];
      assert (value + commas)[..|value + commas| - 1] == value + shorter;
      TrimEndOfCommas(value, shorter);
    }
  }

  lemma NoSpaceBefore(s: string, n: nat)
    requires n <= |s|
    requires forall j: nat :: j < n ==> !OccursAt(s, " ", j)
    ensures ' ' !in s[..n]
  {
    forall k | 0 <= k < n ensures s[k] != ' ' {
      OccursChar(s, ' ', k);
    }
  }

  /** The label is found first right after `before`. */
  lemma LabelFoundAfter(param: string, before: string, rest: string)
    requires !Contains(before + param, param + ":")
    ensures IndexOf(before + param + ":" + rest, param + ":") == Some(|before|)
    ensures (before + param + ":" + rest)[|before| + |param + ":"|..] == rest
  {
    var pattern := param + ":";
    var line := before + param + ":" + rest;
    var head := before + param;
    assert line == head + (":" + rest);
    assert line[|before|..|before| + |pattern|] == pattern;
    forall j: nat | j < |before| ensures !OccursAt(line, pattern, j) {
      OccursInPrefix(head, ":" + rest, pattern, j);
      assert !OccursAt(head, pattern, j) by { assert j <= |head|; }
    }
    IndexOfIsFirst(line, pattern, |before|);
  }

  /** After the whitespace is skipped, the field is cut at the space and stripped of commas. */
  lemma FieldCut(value: string, commas: string, after: string)
    requires ' ' !in value
    requires value == [] || value[|value| - 1] != ','
    requires AllCommas(commas)
    requires after == [] || after[0] == ' '
    ensures CutField(value + commas + after) == value
  {
    var valueString := value + commas + after;
    TrimEndOfCommas(value, commas);
    assert ' ' !in value + commas by {
      assert forall k :: 0 <= k < |commas| ==> commas[k] == ',';
    }
    if after == [] {
      assert valueString == value + commas;
      forall j: nat ensures !OccursAt(valueString, " ", j) {
        OccursChar(valueString, ' ', j);
      }
    } else {
      var cut := |value + commas|;
      assert valueString[cut..cut + 1] == " ";
      forall j: nat | j < cut ensures !OccursAt(valueString, " ", j) {
        OccursChar(valueString, ' ', j);
        assert valueString[j] == (value + commas)[j];
      }
      IndexOfIsFirst(valueString, " ", cut);
      assert valueString[..cut] == value + commas;
    }
  }

  /** A line laid out as `FieldLayout` describes yields exactly `value`. */
  lemma FieldLayoutDetermines(param: string, line: string, before: string, gap: string, value: string, commas: string, after: string)
    requires FieldLayout(param, line, before, gap, value, commas, after)
    ensures GetValueFromString(param, line) == Some(value)
  {
    var pattern := param + ":";
    var valueString := value + commas + after;
    var rest := gap + valueString;
    assert line == before + param + ":" + rest by {
      Regroup(before + param + ":", gap, value, commas, after);
    }
    LabelFoundAfter(param, before, rest);
    assert IndexOf(line, pattern) == Some(|before|);
    assert line[|before| + |pattern|..] == rest;
    TrimStartAfterGap(gap, valueString);
    FieldCut(value, commas, after);
  }

  /** The text before the first label does not hold the label. */
  lemma BeforeFirstLabel(param: string, line: string, index: nat)
    requires IndexOf(line, param + ":") == Some(index)
    ensures line == line[..index] + param + ":" + line[index + |param + ":"|..]
    ensures !Contains(line[..index] + param, param + ":")
  {
    var pattern := param + ":";
    var head := LabelAt(param, line, index);
    NoEarlierLabel(head, line[index + |param|..], pattern, index);
  }

  /** Where the label occurs, the line is the text before it, the label and the rest. */
  lemma LabelAt(param: string, line: string, index: nat) returns (head: string)
    requires OccursAt(line, param + ":", index)
    ensures head == line[..index] + param && |head| == index + |param|
    ensures line == head + line[index + |param|..]
    ensures line == line[..index] + param + ":" + line[index + |param + ":"|..]
  {
    var pattern := param + ":";
    assert line[index..index + |pattern|] == pattern;
    head := line[..index] + param;
    assert head == line[..index + |param|];
    assert line == line[..index] + pattern + line[index + |pattern|..];
  }

  /** A pattern that first occurs at `index` does not occur in a prefix ending before `index + |pat|`. */
  lemma NoEarlierLabel(head: string, tail: string, pat: string, index: nat)
    requires |head| < index + |pat|
    requires forall j: nat :: j < index ==> !OccursAt(head + tail, pat, j)
    ensures !Contains(head, pat)
  {
    forall j: nat | j <= |head| ensures !OccursAt(head, pat, j) {
      if j + |pat| <= |head| {
        OccursInPrefix(head, tail, pat, j);
      }
    }
  }

  /** The text after the whitespace splits into the value, its commas and the rest. */
  lemma FieldParts(valueString: string) returns (value: string, commas: string, after: string)
    ensures valueString == value + commas + after
    ensures ' ' !in value
    ensures value == [] || value[|value| - 1] != ','
    ensures AllCommas(commas)
    ensures after == [] || after[0] == ' '
    ensures value == CutField(valueString)
  {
    var cut: string;
    match IndexOf(valueString, " ") {
      case Some(valueEnd) =>
        cut, after := valueString[..valueEnd], valueString[valueEnd..];
        NoSpaceBefore(valueString, valueEnd);
        assert after[0] == ' ';
      case None =>
        cut, after := valueString, [];
        NoSpaceBefore(valueString, |valueString|);
        assert valueString[..|valueString|] == valueString;
    }
    value := TrimEndMatches(cut, ',');
    commas := cut[|value|..];
    assert cut == value + commas;
  }

  /** The leading whitespace `TrimStart` drops, and what it keeps. */
  lemma SkipGap(rest: string) returns (gap: string)
    ensures rest == gap + TrimStart(rest)
    ensures AllWhitespace(gap)
  {
    var valueString := TrimStart(rest);
    gap := rest[..|rest| - |valueString|];
    assert rest == gap + valueString;
  }

  /** Putting the pieces of a found field back together gives its layout. */
  lemma AssembleLayout(param: string, line: string, before: string, rest: string, gap: string, value: string, commas: string, after: string)
    requires line == before + param + ":" + rest
    requires rest == gap + (value + commas + after)
    requires !Contains(before + param, param + ":")
    requires AllWhitespace(gap)
    requires ' ' !in value
    requires value == [] || value[|value| - 1] != ','
    requires AllCommas(commas)
    requires after == [] || after[0] == ' '
    requires value + commas + after == [] || !IsWhitespace((value + commas + after)[0])
    ensures FieldLayout(param, line, before, gap, value, commas, after)
  {
    Regroup(before + param + ":", gap, value, commas, after);
  }

  lemma Regroup(head: string, gap: string, value: string, commas: string, after: string)
    ensures head + (gap + (value + commas + after)) == head + gap + value + commas + after
  {
  }

  /** Every value found comes from a line laid out as `FieldLayout` describes. */
  lemma GetValueHasLayout(param: string, line: string) returns (before: string, gap: string, commas: string, after: string)
    requires GetValueFromString(param, line).Some?
    ensures FieldLayout(param, line, before, gap, GetValueFromString(param, line).value, commas, after)
  {
    var pattern := param + ":";
    var index := IndexOf(line, pattern).value;
    BeforeFirstLabel(param, line, index);
    before := line[..index];
    var rest := line[index + |pattern|..];
    gap := SkipGap(rest);
    var value;
    value, commas, after := FieldParts(TrimStart(rest));
    AssembleLayout(param, line, before, rest, gap, value, commas, after);
  }

  /** A value found starts past the whitespace that follows the label. */
  lemma GetValueShape(param: string, line: string)
    requires GetValueFromString(param, line).Some?
    ensures GetValueFromString(param, line).value == [] || !IsWhitespace(GetValueFromString(param, line).value[0])
  {
    var value := GetValueFromString(param, line).value;
    var before, gap, commas, after := GetValueHasLayout(param, line);
    if value != [] {
      assert (value + commas + after)[0] == value[0];
    }
  }

  /** The ways `convert_video_ffmpeg_duration` panics, in the order it meets them. */
  datatype DurationError =
    | BadHours          // `time_parts[0].parse().unwrap()`
    | MissingMinutes    // `time_parts[1]` out of bounds
    | BadMinutes
    | MissingSeconds    // `time_parts[2]` out of bounds
    | BadSeconds
    | MissingFraction   // `seconds_parts[1]` out of bounds
    | BadFraction

  /**
   * `convert_video_ffmpeg_duration`: `HH:MM:SS.ff` in seconds, the digits
   * after the point counted as hundredths whatever their number.
   */
  function ConvertDuration(timeStr: string): (r: Result<real, DurationError>)
    ensures r.Ok? <==>
      var p := Split(timeStr, ':');
      && |p| >= 3 && |Split(p[2], '.')| >= 2
      && ParseFloat(p[0]).Some? && ParseFloat(p[1]).Some?
      && ParseFloat(Split(p[2], '.')[0]).Some? && ParseFloat(Split(p[2], '.')[1]).Some?
    ensures r.Ok? ==>
      var p := Split(timeStr, ':');
      var q := Split(p[2], '.');
      r.value == ClockSeconds(ParseFloat(p[0]).value, ParseFloat(p[1]).value, ParseFloat(q[0]).value, ParseFloat(q[1]).value)
  {
    var timeParts := Split(timeStr, ':');
    match ParseFloat(timeParts[0])
    case None => Err(BadHours)
    case Some(hours) =>
      if |timeParts| < 2 then Err(MissingMinutes)
      else match ParseFloat(timeParts[1])
      case None => Err(BadMinutes)
      case Some(minutes) =>
        if |timeParts| < 3 then Err(MissingSeconds)
        else
          var secondsParts := Split(timeParts[2], '.');
          match ParseFloat(secondsParts[0])
          case None => Err(BadSeconds)
          case Some(seconds) =>
            if |secondsParts| < 2 then Err(MissingFraction)
            else match ParseFloat(secondsParts[1])
            case None => Err(BadFraction)
            case Some(hundredths) => Ok(ClockSeconds(hours, minutes, seconds, hundredths))
  }

  /** The length of `hours:minutes:seconds` plus `hundredths` of a second, in seconds. */
  function ClockSeconds(hours: real, minutes: real, seconds: real, hundredths: real): real {
    hours * 3600.0 + minutes * 60.0 + seconds + hundredths / 100.0
  }

  /** Four non-empty runs of digits: the fields of a clock `h:m:s.f`. */
  predicate ClockDigits(h: string, m: string, s: string, f: string) {
    && h != [] && m != [] && s != [] && f != []
    && AllDigits(h) && AllDigits(m) && AllDigits(s) && AllDigits(f)
  }

  /** How `h:m:s.f` splits on `:` and then on `.`. */
  lemma ClockFields(h: string, m: string, s: string, f: string)
    requires ClockDigits(h, m, s, f)
    ensures Split(h + ":" + m + ":" + s + "." + f, ':') == [h, m, s + "." + f]
    ensures Split(s + "." + f, '.') == [s, f]
  {
    var seconds := s + "." + f;
    assert h + ":" + m + ":" + s + "." + f == h + [':'] + (m + [':'] + seconds);
    DigitsHaveNoColon(h);
    DigitsHaveNoColon(m);
    DigitsHaveNoColon(s);
    DigitsHaveNoColon(f);
    assert ':' !in seconds;
    SplitAtFirst(h, ':', m + [':'] + seconds);
    SplitAtFirst(m, ':', seconds);
    SplitNoSeparator(seconds, ':');
    DigitsHaveNoPoint(s);
    DigitsHaveNoPoint(f);
    assert seconds == s + ['.'] + f;
    SplitAtFirst(s, '.', f);
    SplitNoSeparator(f, '.');
  }

  /** Once the first pieces parse, the clock is their weighted sum; later pieces are never looked at. */
  lemma ConvertParsedPieces(timeStr: string, h: string, m: string, sf: string, s: string, f: string,
                            hours: real, minutes: real, seconds: real, hundredths: real)
    requires |Split(timeStr, ':')| >= 3
    requires Split(timeStr, ':')[0] == h && Split(timeStr, ':')[1] == m && Split(timeStr, ':')[2] == sf
    requires |Split(sf, '.')| >= 2 && Split(sf, '.')[0] == s && Split(sf, '.')[1] == f
    requires ParseFloat(h) == Some(hours) && ParseFloat(m) == Some(minutes)
    requires ParseFloat(s) == Some(seconds) && ParseFloat(f) == Some(hundredths)
    ensures ConvertDuration(timeStr) == Ok(ClockSeconds(hours, minutes, seconds, hundredths))
  {
  }

  /**
   * A clock written in digits, `h:m:s.f`, is `h` hours, `m` minutes, `s`
   * seconds and `f` hundredths of a second.
   */
  lemma ConvertClock(h: string, m: string, s: string, f: string)
    requires ClockDigits(h, m, s, f)
    ensures ConvertDuration(h + ":" + m + ":" + s + "." + f) ==
      Ok(ClockSeconds(DigitsValue(h) as real, DigitsValue(m) as real, DigitsValue(s) as real, DigitsValue(f) as real))
  {
    var timeStr := h + ":" + m + ":" + s + "." + f;
    ClockFields(h, m, s, f);
    ClockPieces(h, m, s, f);
    ConvertParsedPieces(timeStr, h, m, s + "." + f, s, f,
      DigitsValue(h) as real, DigitsValue(m) as real, DigitsValue(s) as real, DigitsValue(f) as real);
  }

  /**
   * Whatever follows the clock after a further `:` is ignored, as are
   * further `.` pieces of the seconds: `1:2:3.4:5` still converts.
   */
  lemma ConvertIgnoresExtraPieces(h: string, m: string, s: string, f: string, extraPoint: string, more: string)
    requires ClockDigits(h, m, s, f)
    requires ':' !in extraPoint && (extraPoint == [] || extraPoint[0] == '.')
    ensures ConvertDuration(h + ":" + m + ":" + s + "." + f + extraPoint + ":" + more) ==
      Ok(ClockSeconds(DigitsValue(h) as real, DigitsValue(m) as real, DigitsValue(s) as real, DigitsValue(f) as real))
  {
    var timeStr := h + ":" + m + ":" + s + "." + f + extraPoint + ":" + more;
    var seconds := ExtraPiecesFields(h, m, s, f, extraPoint, more);
    SecondsPieces(s, f, extraPoint);
    ClockPieces(h, m, s, f);
    ConvertParsedPieces(timeStr, h, m, seconds, s, f,
      DigitsValue(h) as real, DigitsValue(m) as real, DigitsValue(s) as real, DigitsValue(f) as real);
  }

  /** The first three `:` pieces of a clock followed by more, and the first two `.` pieces of its seconds. */
  lemma ExtraPiecesFields(h: string, m: string, s: string, f: string, extraPoint: string, more: string)
    returns (seconds: string)
    requires ClockDigits(h, m, s, f)
    requires ':' !in extraPoint && (extraPoint == [] || extraPoint[0] == '.')
    ensures seconds == s + "." + f + extraPoint
    ensures var p := Split(h + ":" + m + ":" + s + "." + f + extraPoint + ":" + more, ':');
      |p| >= 3 && p[0] == h && p[1] == m && p[2] == seconds
  {
    seconds := s + "." + f + extraPoint;
    var timeStr := h + ":" + m + ":" + s + "." + f + extraPoint + ":" + more;
    assert timeStr == h + [':'] + (m + [':'] + (seconds + [':'] + more));
    DigitsHaveNoColon(h);
    DigitsHaveNoColon(m);
    DigitsHaveNoColon(s);
    DigitsHaveNoColon(f);
    assert ':' !in seconds;
    SplitAtFirst(h, ':', m + [':'] + (seconds + [':'] + more));
    SplitAtFirst(m, ':', seconds + [':'] + more);
    SplitAtFirst(seconds, ':', more);
  }

  /** The seconds piece `s.f` followed by further `.` pieces splits into `s`, `f` and the rest. */
  lemma SecondsPieces(s: string, f: string, extraPoint: string)
    requires s != [] && AllDigits(s) && f != [] && AllDigits(f)
    requires extraPoint == [] || extraPoint[0] == '.'
    ensures var q := Split(s + "." + f + extraPoint, '.');
      |q| >= 2 && q[0] == s && q[1] == f
  {
    DigitsHaveNoPoint(s);
    assert s + "." + f + extraPoint == s + ['.'] + (f + extraPoint);
    SplitAtFirst(s, '.', f + extraPoint);
    FractionPiece(f, extraPoint);
  }

  /** The fraction piece ends at the next `.`, if any. */
  lemma FractionPiece(f: string, extraPoint: string)
    requires f != [] && AllDigits(f)
    ensures |Split(f + extraPoint, '.')| >= 1
    ensures extraPoint == [] || extraPoint[0] == '.' ==> Split(f + extraPoint, '.')[0] == f
  {
    DigitsHaveNoPoint(f);
    if extraPoint == [] {
      assert f + extraPoint == f;
      SplitNoSeparator(f, '.');
    } else if extraPoint[0] == '.' {
      assert f + extraPoint == f + ['.'] + extraPoint[1..];
      SplitAtFirst(f, '.', extraPoint[1..]);
    }
  }

  /** Each digit field of a clock parses as its value. */
  lemma ClockPieces(h: string, m: string, s: string, f: string)
    requires ClockDigits(h, m, s, f)
    ensures ParseFloat(h) == Some(DigitsValue(h) as real) && ParseFloat(m) == Some(DigitsValue(m) as real)
    ensures ParseFloat(s) == Some(DigitsValue(s) as real) && ParseFloat(f) == Some(DigitsValue(f) as real)
  {
    ParseInteger(h);
    ParseInteger(m);
    ParseInteger(s);
    ParseInteger(f);
  }

  lemma DigitsHaveNoColon(a: string)
    requires AllDigits(a)
    ensures ':' !in a
  {
    assert forall k :: 0 <= k < |a| ==> a[k] != ':';
  }
}
