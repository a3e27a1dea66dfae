/**
 * `get_timecode`: a frame index as a 29.97 fps drop-frame timecode
 * `HH:MM:SS;FF`. Drop-frame counting (SMPTE ST 12-1) skips the frame
 * numbers 00 and 01 at the start of every minute whose number is not a
 * multiple of ten, so a ten-minute block holds 17982 frames and every
 * minute after its first holds 1798.
 */
module Timecode {
  import opened FloatParse

  /** Frames in a ten-minute block: 10 minutes of 1800 frame numbers less 9 times 2 dropped. */
  const FRAMES_PER_TEN_MINUTES: nat := 17982
  /** Frames in a minute that drops two frame numbers. */
  const FRAMES_PER_DROP_MINUTE: nat := 1798
  /** Frame numbers in a minute, counted at the nominal 30 per second. */
  const NOMINAL_PER_MINUTE: nat := 1800

  datatype Label = Label(hours: nat, minutes: nat, seconds: nat, frames: nat)

  /** A label that drop-frame counting can produce: its frame number is not a dropped one. */
  predicate ValidLabel(l: Label) {
    && l.minutes < 60 && l.seconds < 60 && l.frames < 30
    && !(l.minutes % 10 != 0 && l.seconds == 0 && l.frames < 2)
  }

  /** The label of the `count`-th frame number when no number is skipped. */
  function NominalLabel(count: nat): Label {
    Label(count / 108000, (count / NOMINAL_PER_MINUTE) % 60, (count / 30) % 60, count % 30)
  }

  /** The frame index with its dropped frame numbers added back. */
  function NominalCount(frame: nat): nat {
    var blocks := frame / FRAMES_PER_TEN_MINUTES;
    var rest := frame % FRAMES_PER_TEN_MINUTES;
    frame + 18 * blocks + (if rest < 2 then 0 else 2 * ((rest - 2) / FRAMES_PER_DROP_MINUTE))
  }

  /** The drop-frame label of a frame index. */
  function LabelOfFrame(frame: nat): Label {
    NominalLabel(NominalCount(frame))
  }

  /** The frame index a label names: its nominal count less the numbers dropped before it. */
  function FrameOfLabel(l: Label): int {
    var totalMinutes := 60 * l.hours + l.minutes;
    NOMINAL_PER_MINUTE * totalMinutes + 30 * l.seconds + l.frames - 2 * (totalMinutes - totalMinutes / 10)
  }

  /** A label read back as whole minutes and frame numbers within the minute. */
  lemma NominalLabelParts(count: nat)
    ensures 60 * NominalLabel(count).hours + NominalLabel(count).minutes == count / NOMINAL_PER_MINUTE
    ensures 30 * NominalLabel(count).seconds + NominalLabel(count).frames == count % NOMINAL_PER_MINUTE
  {
    var m := count / NOMINAL_PER_MINUTE;
    var w := count % NOMINAL_PER_MINUTE;
    DivMod60(m, m / 60, m % 60);
    DivMod108000(count, m / 60, NOMINAL_PER_MINUTE * (m % 60) + w);
    DivMod30(w, w / 30, w % 30);
    DivMod30(count, 60 * m + w / 30, w % 30);
    DivMod60(60 * m + w / 30, m, w / 30);
  }

  /** Building a nominal count from minutes and an offset in the minute, and labelling it, gives them back. */
  lemma NominalLabelOfParts(hours: nat, minutes: nat, seconds: nat, frames: nat)
    requires minutes < 60 && seconds < 60 && frames < 30
    ensures NominalLabel(NOMINAL_PER_MINUTE * (60 * hours + minutes) + 30 * seconds + frames) == Label(hours, minutes, seconds, frames)
  {
    var total := 60 * hours + minutes;
    var count := NOMINAL_PER_MINUTE * total + 30 * seconds + frames;
    DivMod108000(count, hours, NOMINAL_PER_MINUTE * minutes + 30 * seconds + frames);
    DivMod1800(count, total, 30 * seconds + frames);
    DivMod60(total, hours, minutes);
    DivMod30(count, 60 * total + seconds, frames);
    DivMod60(60 * total + seconds, total, seconds);
  }

  lemma DivMod30(n: nat, q: nat, r: nat)
    requires n == 30 * q + r && r < 30
    ensures n / 30 == q && n % 30 == r
  {
  }

  lemma DivMod60(n: nat, q: nat, r: nat)
    requires n == 60 * q + r && r < 60
    ensures n / 60 == q && n % 60 == r
  {
  }

  lemma DivMod1800(n: nat, q: nat, r: nat)
    requires n == 1800 * q + r && r < 1800
    ensures n / 1800 == q && n % 1800 == r
  {
  }

  lemma DivMod108000(n: nat, q: nat, r: nat)
    requires n == 108000 * q + r && r < 108000
    ensures n / 108000 == q
  {
  }

  /** The nominal count of a frame: its ten-minute block, its minute in the block, its offset in the minute. */
  lemma NominalCountParts(frame: nat) returns (blocks: nat, minute: nat, offset: nat)
    ensures NominalCount(frame) == 18000 * blocks + NOMINAL_PER_MINUTE * minute + offset
    ensures frame == FRAMES_PER_TEN_MINUTES * blocks + FRAMES_PER_DROP_MINUTE * minute + offset
    ensures minute < 10 && offset < NOMINAL_PER_MINUTE
    ensures minute != 0 ==> offset >= 2
  {
    blocks := frame / FRAMES_PER_TEN_MINUTES;
    var rest := frame % FRAMES_PER_TEN_MINUTES;
    if rest < 2 {
      minute, offset := 0, rest;
    } else {
      minute := (rest - 2) / FRAMES_PER_DROP_MINUTE;
      offset := (rest - 2) % FRAMES_PER_DROP_MINUTE + 2;
    }
  }

  /** Every label `LabelOfFrame` produces is a valid drop-frame label. */
  lemma LabelOfFrameValid(frame: nat)
    ensures ValidLabel(LabelOfFrame(frame))
  {
    var total, offset := LabelOfFrameFields(frame);
    MinuteInBlock(total);
    NotDropped(LabelOfFrame(frame), total, offset);
  }

  /** The label of a frame, as a minute count and a frame number within that minute. */
  lemma LabelOfFrameFields(frame: nat) returns (total: nat, offset: nat)
    ensures LabelOfFrame(frame).minutes == total % 60
    ensures 30 * LabelOfFrame(frame).seconds + LabelOfFrame(frame).frames == offset
    ensures total % 10 != 0 ==> offset >= 2
  {
    var blocks, minute, offset' := NominalCountParts(frame);
    offset := offset';
    total := CountSplit(blocks, minute, offset);
    NominalLabelParts(NominalCount(frame));
  }

  /** A minute that drops frame numbers starts its frames at offset 2, past the dropped ones. */
  lemma NotDropped(l: Label, total: nat, offset: nat)
    requires l.minutes == total % 60 && (total % 60) % 10 == total % 10
    requires 30 * l.seconds + l.frames == offset
    requires total % 10 != 0 ==> offset >= 2
    ensures !(l.minutes % 10 != 0 && l.seconds == 0 && l.frames < 2)
  {
  }

  lemma CountSplit(blocks: nat, minute: nat, offset: nat) returns (total: nat)
    requires minute < 10 && offset < NOMINAL_PER_MINUTE
    ensures total == 10 * blocks + minute && total % 10 == minute
    ensures (18000 * blocks + NOMINAL_PER_MINUTE * minute + offset) / NOMINAL_PER_MINUTE == total
    ensures (18000 * blocks + NOMINAL_PER_MINUTE * minute + offset) % NOMINAL_PER_MINUTE == offset
  {
    total := 10 * blocks + minute;
    assert 18000 * blocks + NOMINAL_PER_MINUTE * minute + offset == NOMINAL_PER_MINUTE * total + offset;
  }

  /** The last digit of a count, read from any split into tens and a digit. */
  lemma LastDigit(n: nat, tens: nat, digit: nat)
    requires n == 10 * tens + digit && digit < 10
    ensures n % 10 == digit && n / 10 == tens
  {
  }

  /** The minute of the hour and the minute count agree on their last digit. */
  lemma MinuteInBlock(total: nat)
    ensures (total % 60) % 10 == total % 10
  {
    var r := total % 60;
    LastDigit(r, r / 10, r % 10);
    assert total == 60 * (total / 60) + r;
    LastDigit(total, 6 * (total / 60) + r / 10, r % 10);
  }

  /** Labelling a frame and reading the label back gives the frame. */
  lemma FrameOfLabelOfFrame(frame: nat)
    ensures FrameOfLabel(LabelOfFrame(frame)) == frame
  {
    var blocks, minute, offset := NominalCountParts(frame);
    var count := NominalCount(frame);
    NominalLabelParts(count);
    var total := CountSplit(blocks, minute, offset);
    LastDigit(total, blocks, minute);
  }

  /** A valid label names a frame, and that frame's label is the label itself. */
  lemma LabelOfFrameOfLabel(l: Label)
    requires ValidLabel(l)
    ensures FrameOfLabel(l) >= 0
    ensures LabelOfFrame(FrameOfLabel(l) as nat) == l
  {
    var blocks, minute, offset := FrameOfLabelParts(l);
    NominalCountOfParts(blocks, minute, offset);
    NominalLabelOfParts(l.hours, l.minutes, l.seconds, l.frames);
  }

  /** A valid label's frame, as a ten-minute block, a minute in it and an offset in that minute. */
  lemma FrameOfLabelParts(l: Label) returns (blocks: nat, minute: nat, offset: nat)
    requires ValidLabel(l)
    ensures FrameOfLabel(l) == FRAMES_PER_TEN_MINUTES * blocks + FRAMES_PER_DROP_MINUTE * minute + offset
    ensures 60 * l.hours + l.minutes == 10 * blocks + minute
    ensures offset == 30 * l.seconds + l.frames
    ensures minute < 10 && offset < NOMINAL_PER_MINUTE
    ensures minute != 0 ==> offset >= 2
  {
    var total := 60 * l.hours + l.minutes;
    LastDigit(l.minutes, l.minutes / 10, l.minutes % 10);
    blocks, minute := 6 * l.hours + l.minutes / 10, l.minutes % 10;
    offset := 30 * l.seconds + l.frames;
    LastDigit(total, blocks, minute);
  }

  /** The nominal count of a frame given as block, minute and offset. */
  lemma NominalCountOfParts(blocks: nat, minute: nat, offset: nat)
    requires minute < 10 && offset < NOMINAL_PER_MINUTE
    requires minute != 0 ==> offset >= 2
    ensures NominalCount(FRAMES_PER_TEN_MINUTES * blocks + FRAMES_PER_DROP_MINUTE * minute + offset)
      == 18000 * blocks + NOMINAL_PER_MINUTE * minute + offset
  {
    var rest := FRAMES_PER_DROP_MINUTE * minute + offset;
    BlockSplit(blocks, rest);
    if minute != 0 {
      MinuteSplit(minute, offset - 2);
    }
  }

  lemma BlockSplit(blocks: nat, rest: nat)
    requires rest < FRAMES_PER_TEN_MINUTES
    ensures (FRAMES_PER_TEN_MINUTES * blocks + rest) / FRAMES_PER_TEN_MINUTES == blocks
    ensures (FRAMES_PER_TEN_MINUTES * blocks + rest) % FRAMES_PER_TEN_MINUTES == rest
  {
  }

  lemma MinuteSplit(minute: nat, offset: nat)
    requires offset < FRAMES_PER_DROP_MINUTE
    ensures (FRAMES_PER_DROP_MINUTE * minute + offset) / FRAMES_PER_DROP_MINUTE == minute
  {
  }

  /** A field of at least two digits. */
  function Pad2(n: nat): (s: string)
    ensures AllDigits(s)
    ensures n < 100 ==> |s| == 2
  {
    if n < 10 then "0" + NatToDigits(n)
    else
      assert n < 100 ==> |NatToDigits(n / 10)| == 1;
      NatToDigits(n)
  }

  /** The text `HH:MM:SS;FF`, with `;` before the frames to mark drop-frame counting. */
  function LabelText(l: Label): string {
    Pad2(l.hours) + ":" + Pad2(l.minutes) + ":" + Pad2(l.seconds) + ";" + Pad2(l.frames)
  }

  /** A text shaped `HH:MM:SS;FF`: four two-digit fields, the last after `;`. */
  predicate DropFrameText(t: string) {
    && |t| == 11 && t[2] == ':' && t[5] == ':' && t[8] == ';'
    && AllDigits(t[0..2]) && AllDigits(t[3..5]) && AllDigits(t[6..8]) && AllDigits(t[9..11])
  }

  /** The label a `HH:MM:SS;FF` text reads as. */
  function LabelOfText(t: string): Label
    requires DropFrameText(t)
  {
    Label(DigitsValue(t[0..2]), DigitsValue(t[3..5]), DigitsValue(t[6..8]), DigitsValue(t[9..11]))
  }

  /** `get_timecode`: below a hundred hours, a `HH:MM:SS;FF` text that reads back as the frame's label. */
  function TimecodeOfFrame(frame: nat): (text: string)
    ensures frame < FRAMES_BELOW_HUNDRED_HOURS ==> DropFrameText(text) && LabelOfText(text) == LabelOfFrame(frame)
  {
    LabelTextReadsBack(frame);
    LabelText(LabelOfFrame(frame))
  }

  /** Below a hundred hours, the text of a frame's label has two-digit fields that read back as the label. */
  lemma LabelTextReadsBack(frame: nat)
    ensures frame < FRAMES_BELOW_HUNDRED_HOURS ==>
      DropFrameText(LabelText(LabelOfFrame(frame))) && LabelOfText(LabelText(LabelOfFrame(frame))) == LabelOfFrame(frame)
  {
    if frame < FRAMES_BELOW_HUNDRED_HOURS {
      HoursBelowHundred(frame);
      LabelOfFrameValid(frame);
      LabelTextFields(LabelOfFrame(frame));
    }
  }

  /** Below a hundred hours, a printed timecode counts back to the frame it was printed for. */
  lemma TimecodeReadsBack(frame: nat)
    ensures frame < FRAMES_BELOW_HUNDRED_HOURS ==>
      DropFrameText(TimecodeOfFrame(frame)) && FrameOfLabel(LabelOfText(TimecodeOfFrame(frame))) == frame
  {
    if frame < FRAMES_BELOW_HUNDRED_HOURS {
      FrameOfLabelOfFrame(frame);
    }
  }

  /** A two-digit field reads back as its number. */
  lemma Pad2Value(n: nat)
    ensures DigitsValue(Pad2(n)) == n
  {
    DigitsValueOfRendering(n);
    if n < 10 {
      var d := NatToDigits(n);
      assert Pad2(n)[..|Pad2(n)| - 1] == "0";
      assert Pad2(n)[|Pad2(n)| - 1] == d[0];
    }
  }

  /** Four two-char fields joined by `:`, `:` and `;` sit at fixed places. */
  lemma TextLayout(h: string, m: string, s: string, f: string)
    requires |h| == 2 && |m| == 2 && |s| == 2 && |f| == 2
    ensures var t := h + ":" + m + ":" + s + ";" + f;
      && |t| == 11 && t[2] == ':' && t[5] == ':' && t[8] == ';'
      && t[0..2] == h && t[3..5] == m && t[6..8] == s && t[9..11] == f
  {
    var t := h + ":" + m + ":" + s + ";" + f;
    assert t[0..2] == h;
    assert t[3..5] == m;
    assert t[6..8] == s;
    assert t[9..11] == f;
  }

  /** The fields of a timecode text sit at fixed places and read back as the label's fields. */
  lemma LabelTextFields(l: Label)
    requires l.hours < 100 && l.minutes < 60 && l.seconds < 60 && l.frames < 30
    ensures var t := LabelText(l);
      && |t| == 11
      && t[2] == ':' && t[5] == ':' && t[8] == ';'
      && AllDigits(t[0..2]) && DigitsValue(t[0..2]) == l.hours
      && AllDigits(t[3..5]) && DigitsValue(t[3..5]) == l.minutes
      && AllDigits(t[6..8]) && DigitsValue(t[6..8]) == l.seconds
      && AllDigits(t[9..11]) && DigitsValue(t[9..11]) == l.frames
  {
    TextLayout(Pad2(l.hours), Pad2(l.minutes), Pad2(l.seconds), Pad2(l.frames));
    Pad2Value(l.hours);
    Pad2Value(l.minutes);
    Pad2Value(l.seconds);
    Pad2Value(l.frames);
  }

  /** Frames in a hundred hours of drop-frame counting: the ones with a two-digit hour. */
  const FRAMES_BELOW_HUNDRED_HOURS: nat := 600 * FRAMES_PER_TEN_MINUTES

  /** Distinct frames get distinct labels. */
  lemma LabelInjective(f1: nat, f2: nat)
    requires LabelOfFrame(f1) == LabelOfFrame(f2)
    ensures f1 == f2
  {
    FrameOfLabelOfFrame(f1);
    FrameOfLabelOfFrame(f2);
  }

  /** Labels with two-digit hours are told apart by their text. */
  lemma LabelTextInjective(l1: Label, l2: Label)
    requires l1.hours < 100 && l1.minutes < 60 && l1.seconds < 60 && l1.frames < 30
    requires l2.hours < 100 && l2.minutes < 60 && l2.seconds < 60 && l2.frames < 30
    requires LabelText(l1) == LabelText(l2)
    ensures l1 == l2
  {
    LabelTextFields(l1);
    LabelTextFields(l2);
  }

  /** A frame below a hundred hours has a two-digit hour. */
  lemma HoursBelowHundred(frame: nat)
    requires frame < FRAMES_BELOW_HUNDRED_HOURS
    ensures LabelOfFrame(frame).hours < 100
  {
    var blocks, minute, offset := NominalCountParts(frame);
    assert blocks < 600;
    assert NominalCount(frame) < 10800000;
  }

  /** Below a hundred hours, distinct frames get distinct timecode texts. */
  lemma TimecodeInjective(f1: nat, f2: nat)
    requires f1 < FRAMES_BELOW_HUNDRED_HOURS && f2 < FRAMES_BELOW_HUNDRED_HOURS
    requires TimecodeOfFrame(f1) == TimecodeOfFrame(f2)
    ensures f1 == f2
  {
    HoursBelowHundred(f1);
    HoursBelowHundred(f2);
    LabelOfFrameValid(f1);
    LabelOfFrameValid(f2);
    LabelTextInjective(LabelOfFrame(f1), LabelOfFrame(f2));
    LabelInjective(f1, f2);
  }

  /** The timecodes `get_timecode` is pinned to, across the first second boundary. */
  lemma TimecodeVectors()
    ensures LabelOfFrame(209) == Label(0, 0, 6, 29)
    ensures LabelOfFrame(210) == Label(0, 0, 7, 0)
    ensures TimecodeOfFrame(209) == "00:00:06;29"
    ensures TimecodeOfFrame(210) == "00:00:07;00"
  {
    LabelVectors();
    assert NatToDigits(29) == "29";
    assert NatToDigits(6) == "6";
    assert NatToDigits(7) == "7";
    assert NatToDigits(0) == "0";
    assert LabelText(Label(0, 0, 6, 29)) == "00:00:06;29";
    assert LabelText(Label(0, 0, 7, 0)) == "00:00:07;00";
  }

  /** Frames 209 and 210 fall in the first minute, where no number is dropped. */
  lemma LabelVectors()
    ensures LabelOfFrame(209) == Label(0, 0, 6, 29)
    ensures LabelOfFrame(210) == Label(0, 0, 7, 0)
  {
  }

  /** The first frame of minute one is labelled `00:01:00;02`: numbers 00 and 01 are dropped. */
  lemma MinuteOneDropsTwo()
    ensures LabelOfFrame(1799) == Label(0, 0, 59, 29)
    ensures LabelOfFrame(1800) == Label(0, 1, 0, 2)
    ensures LabelOfFrame(17982) == Label(0, 10, 0, 0)
  {
  }
}
