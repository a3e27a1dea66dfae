# watermelon: start and end of material from ffmpeg's blackdetect output

watermelon runs ffmpeg's `blackdetect` filter over a video and reads the
lines ffmpeg writes to its standard error. From them it reports two drop-frame
timecodes at 29.97 frames per second:

- the SOM (start of material) is the frame before the end of the first black
  stretch;
- the EOM (end of material) is the frame before the start of the last black
  stretch.

When only one black stretch was detected, the EOM is the last frame of the
video instead. That frame comes from the `Duration:` line, and an advisory
note is printed with it.

This project models the core of `src/main.rs` in Dafny:

- **Classification.** The loop that sorts the stderr lines into blackdetect
  lines and the last `Duration:` line (`Classifier.Classify`, a method with a
  loop).
- **Filter prefix.** `extract_filter_prefix` strips the `[tag] ` prefix of a
  filter line (`Filter.ExtractFilterPrefix`).
- **Filter value.** `get_filter_value` scans the `key:value` words of a filter
  payload (`Filter.GetFilterValue`, a method with a loop, specified by
  `Filter.FilterValue`).
- **Labelled field.** `get_value_from_string` cuts the field that follows a
  `label:` (`Duration.GetValueFromString`).
- **Duration conversion.** `convert_video_ffmpeg_duration` turns `HH:MM:SS.ff`
  into seconds (`Duration.ConvertDuration`). The digits after the point are
  counted as hundredths, as the code does. Every `unwrap` and out-of-bounds
  index becomes an error variant of `Duration.DurationError`.
- **Frames.** `get_frame_per_timestamp` rounds `t * 29.97` half away from
  zero and saturates it into `u64` (`Frames.FrameForTimestamp`). The
  `frame - 1` before each timecode underflows at frame 0, which is an error in
  the model (`Frames.PreviousFrame`).
- **Resolution.** `get_som_eom` is a pure function (`Resolver.SomEom`) that
  returns the boundaries or the reason the program would panic
  (`Resolver.ResolveError`). `Resolver.Run` chains the classification and the
  resolution.
- **Timecode.** `get_timecode` is the SMPTE ST 12-1 drop-frame labelling at
  29.97 fps (`Timecode.LabelOfFrame`, `Timecode.TimecodeOfFrame`), proved to
  be a bijection between frames and valid labels.

The Rust string operations are modelled on `seq<char>`: `find`, `trim_start`,
`trim_end_matches`, `split` and `split_whitespace` (module `Text`). `f32`'s
`FromStr` grammar is modelled on exact reals (module `FloatParse`).

Nothing in the code checks that SOM comes before EOM, and the model follows
the code. With several blackdetect lines, `Resolver.SomNotAfterEom` proves
SOM <= EOM when the first black stretch ends no later than the last one
starts. With one line, `Resolver.SomNotAfterVideoEnd` proves it when the
black stretch ends no later than the `Duration:` value.

## Model

| member | source | states |
|---|---|---|
| Classifier.Classify | src/main.rs:55-64 | the loop leaves exactly the blackdetect lines, in the order read, and the last `Duration: ` line |
| Classifier.BlackdetectMembers | src/main.rs:59-63 | a line is kept as a blackdetect line iff it was read, holds `black_start` and does not hold `Duration: ` |
| Classifier.BlackdetectAppend | src/main.rs:57-63 | classifying two runs of lines one after the other concatenates their blackdetect lists, so order is kept |
| Classifier.BlackdetectCount | src/main.rs:61-62 | the list has one entry per position whose line qualifies |
| Classifier.NoDurationLine | src/main.rs:56-60 | no duration line is remembered iff no line holds `Duration: ` |
| Classifier.LastDurationWins | src/main.rs:59-60 | the remembered line is at a position holding `Duration: ` with no such line after it |
| Classifier.DurationLineHasValue | src/main.rs:118 | `get_value_from_string("Duration", line)` always yields a value on a line the loop remembered |
| Filter.ExtractFilterPrefix | src/main.rs:184-187 | the missing-`[` error happens iff the line is empty or does not open with `[`, and an accepted payload is a proper suffix of the line, at least three characters shorter |
| Filter.ExtractAccepts | src/main.rs:184-187 | the prefix parser succeeds iff the line opens with `[` and holds `"] "` |
| Filter.ExtractShape | src/main.rs:184-187 | an accepted line is `[` + tag + `"] "` + the returned payload, with no `"] "` inside the tag |
| Filter.ExtractRoundTrip | src/main.rs:184-187 | `[tag] payload` with a tag free of `"] "` gives back exactly the payload |
| Filter.GetFilterValue | src/main.rs:159-171 | the scan over the whitespace-separated words returns what `FilterValue` defines |
| Filter.KeyValue | src/main.rs:161-163 | a word yields a key and a value iff it holds `:`, and neither the key nor the value holds `:` |
| Filter.Lookup | src/main.rs:160-170 | a value found is the parsed value of one of the words whose key is the one asked for |
| Filter.FilterValue | src/main.rs:159-171 | a value found is carried by one of the payload's whitespace-separated words, as that word's key `key` and parsed value |
| Filter.LookupAt | src/main.rs:161-167 | at each word the scan stops with None on a word without `:`, answers with the parsed value on the key, and otherwise goes on with the next word |
| Filter.LookupPassesOver | src/main.rs:161-168 | a word with a `:` and another key sends the scan on to the next word |
| Filter.LookupSkipsPassed | src/main.rs:160-168 | words the scan passes over do not change its outcome |
| Filter.LookupDecided | src/main.rs:160-170 | the first word not passed over decides: no word left gives None, a word without `:` ends the whole lookup with None (the `?`), the key's word gives its parsed value |
| Filter.KeyValueFields | src/main.rs:161-163 | `key:value` and `key:value:more` both give the pair (key, value) |
| Filter.FilterValueOfWords | src/main.rs:159-171 | on a payload of words, the value of the first word with the key, when every earlier word has another key |
| Text.IndexOf | src/main.rs:147 | `find` gives the first position where the pattern occurs, and None iff it occurs nowhere |
| Text.IndexOfIsFirst | src/main.rs:147 | the first occurrence is the one `find` reports |
| Text.TrimStart | src/main.rs:149 | `trim_start` drops exactly the leading whitespace: the result is a suffix that does not start with whitespace |
| Text.TrimEndMatches | src/main.rs:151 | `trim_end_matches(',')` drops exactly the trailing commas: the result is a prefix that does not end with `,` |
| Text.Contains | src/main.rs:59-61 | only a text at least as long as the pattern holds it, and every text holds the empty pattern |
| Text.Split | src/main.rs:161 | `split(c)` gives at least one piece, and no piece holds `c` |
| Text.Tokens | src/main.rs:160 | `split_whitespace` gives no word iff the text is all whitespace, and a text that starts with a word gives that word first |
| Text.TokensSkipWhitespace | src/main.rs:160 | leading whitespace does not change the words |
| Text.TokensOfWordAndGap | src/main.rs:160 | a word followed by a run of whitespace is the first word, and the run is skipped |
| Text.SplitJoin | src/main.rs:161 | joining the pieces of `split(c)` with `c` gives back the text, and no piece holds `c` |
| Text.SplitAtFirst | src/main.rs:174 | splitting `a + c + b`, where `a` lacks `c`, gives `a` followed by the pieces of `b` |
| Text.TokensAreWords | src/main.rs:160 | every word of `split_whitespace` is non-empty and free of whitespace |
| Text.TokensCoverText | src/main.rs:160 | the words, concatenated, are the text with its whitespace removed |
| Text.TokensOfUnwords | src/main.rs:160 | the words of words joined by spaces are those words |
| FloatParse.ParseInteger | src/main.rs:166 | a run of digits parses to its decimal value |
| FloatParse.ParseDecimal | src/main.rs:166 | `a.b` with digit runs parses to the value of a plus b over ten to its length |
| FloatParse.ParseNegated | src/main.rs:166 | a leading `-` negates the value of an unsigned text and rejects what it rejects |
| FloatParse.ParseRendering | src/main.rs:175 | the decimal rendering of any natural parses back to it |
| FloatParse.ParseFloat | src/main.rs:166 | only non-empty texts made of digits, signs, points and exponent markers parse |
| FloatParse.ParseFloatGrammar | src/main.rs:166 | a text parses iff it is `Sign? Number`, where a number is digits with at most one point and at least one digit, then optionally `e`/`E` and a signed digit run |
| FloatParse.MantissaGrammar | src/main.rs:166 | the mantissa parser accepts exactly digit runs and digit runs around a single point with at least one digit |
| FloatParse.NumberGrammar | src/main.rs:166 | the unsigned parser accepts exactly a mantissa optionally followed by a marker and an exponent |
| FloatParse.ParseScientific | src/main.rs:166 | `a e d` and `a e+d` give a times ten to the d, and `a e-d` gives a over ten to the d, as in `1e-05` |
| FloatParse.ParseRejectsSecondPoint | src/main.rs:166 | a text with two points, such as `7.0.7`, does not parse |
| FloatParse.ParseRejectsBareMarker | src/main.rs:166 | a marker with no exponent digits after it, such as `1e`, does not parse |
| FloatParse.ParseRejectsNoDigits | src/main.rs:166 | `.`, `+`, `-` and the empty text do not parse |
| Frames.Round | src/main.rs:141 | `round` is within one half of its argument, and ties go away from zero |
| Frames.FrameForTimestamp | src/main.rs:140-143 | the frame is the nearest integer to `t * 29.97`, 0 below one half, and `u64::MAX` at and past the `u64` range |
| Frames.PreviousFrame | src/main.rs:79 | `frame - 1` underflows iff the frame is 0, and otherwise is one less |
| Frames.FrameAfterHalf | src/main.rs:140-143 | a timestamp with at least half a frame gives a frame of at least 1 |
| Frames.FrameMonotone | src/main.rs:140-143 | a later timestamp never gives an earlier frame |
| Frames.FrameOfFrameInstant | src/main.rs:140-143 | the instant of frame f, `f / 29.97`, gives back frame f |
| Frames.FrameTestVectors | src/tests.rs:73-113 | the seven timestamp-to-frame vectors, such as 6.97363 s giving frame 209, 7.007 s giving 210 and 37.037 s giving 1110 |
| Duration.FieldLayoutDetermines | src/main.rs:145-157 | a line laid out as text, `label:`, whitespace, a field, commas, then the end or a space yields exactly that field |
| Duration.GetValueHasLayout | src/main.rs:145-157 | every field returned sits in a line laid out that way, so the two describe each other |
| Duration.GetValueShape | src/main.rs:149 | a returned field does not start with whitespace, since `trim_start` ran before the cut |
| Duration.ConvertDuration | src/main.rs:173-182 | the conversion succeeds iff there are at least three `:` pieces, the third has at least two `.` pieces, and the first two `:` pieces and first two `.` pieces all parse; the value is then `h*3600 + m*60 + s + f/100` of those four parsed values |
| Duration.ConvertClock | src/main.rs:173-182 | `h:m:s.f` with digit runs is `h*3600 + m*60 + s + f/100` seconds |
| Duration.ClockFields | src/main.rs:174-177 | `h:m:s.f` splits on `:` into `[h, m, s.f]` and `s.f` on `.` into `[s, f]` |
| Duration.ConvertParsedPieces | src/main.rs:174-181 | whenever the first three `:` pieces and the first two `.` pieces of the seconds parse, the result is their weighted sum in seconds, whatever further pieces follow |
| Duration.ConvertIgnoresExtraPieces | src/main.rs:174-180 | a digit clock `h:m:s.f` followed by further `.` pieces and a further `:` piece still converts to `h*3600 + m*60 + s + f/100` |
| Duration.GetValueFromString | src/main.rs:145-157 | no field iff the line does not hold `label:`, and a field found holds no space and does not end with `,` |
| Duration.CutField | src/main.rs:150-154 | the field is a prefix of the text after the label, holds no space and does not end with `,` |
| Resolver.Run | src/main.rs:55-66 | the program's result is the resolution of the classified lines |
| Resolver.SomEom | src/main.rs:69-138 | the no-blackdetect panic happens iff the list is empty; a first-line failure is the `black_end` mark's error; a last-line failure needs several lines, a good first line and is the `black_start` mark's error; any other failure needs one line, a good first line and is the duration fallback's error |
| Resolver.MarkFrame | src/main.rs:75-79 | the malformed-line error happens iff the prefix parser fails, and carries its error; the missing-value error happens iff the payload has no value for the key |
| Resolver.DurationFrame | src/main.rs:114-134 | failing at the duration fallback only ever gives a duration error, and no duration line gives the missing-duration error |
| Resolver.LastFrameAt | src/main.rs:133-134 | the last frame exists iff the duration is at least half a frame, and is one before the duration's frame |
| Resolver.MarkFrameCases | src/main.rs:75-79 | a line yields a mark iff its prefix parses, its key has a value and that value's frame is not 0; the mark is one frame before, and it underflows exactly below half a frame |
| Resolver.MarkFrameOrder | src/main.rs:76-79 | marks are ordered as the timestamps they come from |
| Resolver.SomFromFirstLine | src/main.rs:72-91 | the SOM is the first line's `black_end` mark, and the advisory is given iff there is exactly one blackdetect line |
| Resolver.EomFromLastLine | src/main.rs:93-113 | with several lines, the EOM is the last line's `black_start` mark |
| Resolver.EomFromDuration | src/main.rs:114-137 | with one line, the EOM is one frame before the frame of the `Duration:` field's value |
| Resolver.DurationIgnored | src/main.rs:93-113 | with other than one line, the duration line does not change the outcome |
| Resolver.OnlyEndsMatter | src/main.rs:72-113 | with two lines or more, only the first and the last line matter |
| Resolver.SomNotAfterEom | src/main.rs:72-113 | when the first black stretch ends no later than the last one starts, SOM <= EOM |
| Resolver.SomNotAfterVideoEnd | src/main.rs:72-137 | with one line, when its black stretch ends no later than the `Duration:` value, SOM <= EOM |
| Resolver.SomEomSucceeds | src/main.rs:69-138 | when the first line's mark exists, success follows from the last line's mark, or from the duration frame with the advisory |
| Resolver.MarkFrameOfLine | src/main.rs:75-79 | a `[tag] ` line of words whose first word with the key carries t yields the frame of t minus one |
| Resolver.DurationFrameOfClock | src/main.rs:114-134 | a `Duration:` line holding `h:m:s.f` gives the last frame of that many seconds |
| Resolver.Printed | src/main.rs:79-136 | the advisory is printed iff it was raised, and below a hundred hours each printed timecode is `HH:MM:SS;FF` text that counts back to its boundary frame |
| Resolver.PrintedDeterminesBoundaries | src/main.rs:78-80 | below a hundred hours, the printed SOM and EOM timecodes and the advisory determine the boundaries |
| Timecode.LabelOfFrameValid | src/main.rs:189-193 | every frame gets a label that drop-frame counting allows: frames 0 and 1 of a minute are skipped unless the minute is a multiple of ten |
| Timecode.FrameOfLabelOfFrame | src/main.rs:189-193 | the label of a frame counts back to that frame |
| Timecode.TimecodeOfFrame | src/main.rs:189-193 | below a hundred hours, the text is `HH:MM:SS;FF` and reads as the frame's drop-frame label |
| Timecode.TimecodeReadsBack | src/main.rs:189-193 | below a hundred hours, the printed timecode counts back to the frame it was printed for |
| Timecode.LabelOfFrameOfLabel | src/main.rs:189-193 | every valid label is the label of the frame it counts to |
| Timecode.TimecodeInjective | src/main.rs:189-193 | below a hundred hours, two frames with the same timecode text are the same frame |
| Timecode.LabelTextInjective | src/main.rs:192 | the `HH:MM:SS;FF` text tells labels apart |
| Timecode.Pad2Value | src/main.rs:192 | the two-digit field reads back as its number |
| Timecode.MinuteOneDropsTwo | src/main.rs:190 | frame 1800 is labelled 00:01:00;02, and frame 17982 is 00:10:00;00 |
| Timecode.TimecodeVectors | src/tests.rs:8-18 | frame 209 is `00:00:06;29` and frame 210 is `00:00:07;00` |
| Vectors.ExtractBlackframeVector | src/tests.rs:20-31 | the blackframe line's prefix is stripped to its payload |
| Vectors.ExtractBlackdetectVector | src/tests.rs:33-44 | the blackdetect line's prefix is stripped to its payload |
| Vectors.LookupBlackEndVector | src/tests.rs:46-53 | `black_end` of the blackdetect payload is 7.007 |
| Vectors.LookupFrameVector | src/tests.rs:55-62 | `frame` of the blackframe payload is 720 |
| Vectors.LookupNothingVector | src/tests.rs:64-71 | an absent key gives None |
| Vectors.DurationFieldVector | src/tests.rs:115-133 | the `Duration` field of the ffmpeg duration line is `00:00:39.04` |
| Vectors.BlackStartFieldVector | src/tests.rs:135-153 | the `black_start` field of a blackdetect line is `37.037` |
| Vectors.ConvertVectorShort | src/tests.rs:155-159 | `00:00:39.04` is 39.04 seconds |
| Vectors.ConvertVectorMinute | src/tests.rs:161-165 | `00:01:39.04` is 99.04 seconds |
| Vectors.SingleBlackEndToEnd | src/main.rs:69-138 | one leading black stretch ending at 3.003 s in a 39.04 s video gives SOM 89, EOM 1169 and the advisory |

## Left out

- Starting ffmpeg, reading its stderr and the command-line argument (src/main.rs:22-53) are I/O; the model takes the lines read as its input.
- The `println!` output is left out. So is the order of output around a failure: the real program prints the SOM before it may panic on the last line. `Resolver.Printed` models only the final report.
- Panic messages are not modelled; each panic is a distinct `ResolveError`, `LineError` or `DurationError` variant.
- `Frames.FrameForTimestamp`: `f32` rounding of the parsed values and of `timestamp * 29.97` is not modelled, because timestamps and durations are exact reals.
- `FloatParse.ParseFloat`: `f32` overflow and the `inf`/`infinity`/`nan` spellings are not modelled; those texts are rejected.
- The internals of the `nom` combinators and the text of their errors are not modelled; only the accepted inputs and the remaining input are.
- `get_timecode` relies on a timecode library that is not part of this model. It is modelled by the SMPTE ST 12-1 drop-frame rule at 29.97 fps. The library's output is not modelled where it can fail (its `unwrap`) or for frames of a hundred hours and more; there the model's text is not claimed to be the library's.
- `Frames.PreviousFrame`: `frame - 1` at frame 0 panics in a debug build and wraps to `u64::MAX` in a release build; the model treats it as an error.
- The test file calls `parse_video_duration`, which `src/main.rs` does not define. Its two vectors are stated against `Duration.ConvertDuration` (`convert_video_ffmpeg_duration`).
- The mediainfo helpers (src/mediainfo.rs, src/mediainfo_cmd.rs) and the ffmpeg command builder (src/ffmpeg.rs) are not part of this model.
