/**
 * The concrete values the repository's unit tests pin down, derived from
 * the general lemmas of the other modules. Each literal fact about a
 * string gets a small lemma of its own.
 */
module Vectors {
  import opened Wrappers
  import opened Text
  import opened FloatParse
  import opened Frames
  import opened Filter
  import opened Duration
  import opened Resolver

  /** A text lacking one of the pattern's chars cannot hold the pattern. */
  lemma MissingCharNoMatch(s: string, pat: string, k: nat)
    requires k < |pat| && pat[k] !in s
    ensures !Contains(s, pat)
  {
    forall j: nat | j <= |s| ensures !OccursAt(s, pat, j) {
      if j + |pat| <= |s| {
        assert s[j..j + |pat|][k] == s[j + k];
      }
    }
  }

  /** Printable ASCII text other than the space is a word. */
  lemma PrintableWord(w: string)
    requires w != []
    requires forall k :: 0 <= k < |w| ==> '!' <= w[k] <= '~'
    ensures IsWord(w)
  {
  }

  /** A `k:v` word with a key other than `key` is passed over. */
  lemma PassedOver(token: string, key: string, k: string, v: string)
    requires KeyValue(token) == Some((k, v)) && k != key
    ensures PassesOver(token, key)
  {
  }

  /** Three words joined by single spaces. */
  lemma Unwords3(a: string, b: string, c: string)
    ensures Unwords([a, b, c]) == a + " " + b + " " + c
  {
    assert [a, b, c][1..] == [b, c];
    assert [b, c][1..] == [c];
    assert Unwords([b, c]) == b + " " + c;
    assert a + " " + (b + " " + c) == a + " " + b + " " + c;
  }

  /** Six words joined by single spaces. */
  lemma Unwords6(a: string, b: string, c: string, d: string, e: string, f: string)
    ensures Unwords([a, b, c, d, e, f]) == a + " " + b + " " + c + " " + d + " " + e + " " + f
  {
    assert [a, b, c, d, e, f] == [a, b, c] + [d, e, f];
    UnwordsAppend([a, b, c], [d, e, f]);
    Unwords3(a, b, c);
    Unwords3(d, e, f);
    var front := a + " " + b + " " + c;
    assert front + " " + (d + " " + e + " " + f) == front + " " + d + " " + e + " " + f;
  }

  // ---- extract_filter_prefix ----

  lemma BlackdetectTagFree()
    ensures !Contains("blackdetect @ 0x13e00d040", "] ")
  {
    MissingCharNoMatch("blackdetect @ 0x13e00d040", "] ", 0);
  }

  lemma BlackdetectTag()
    ensures "[blackdetect @ 0x13e00d040] " == "[" + "blackdetect @ 0x13e00d040" + "] "
  {
  }

  /** The blackdetect line of the prefix test loses exactly its bracketed tag. */
  lemma ExtractBlackdetectVector()
    ensures ExtractFilterPrefix("[blackdetect @ 0x13e00d040] " + ("black_start:4.97163" + " " + "black_end:7.007" + " " + "black_duration:2.03537"))
      == Ok("black_start:4.97163" + " " + "black_end:7.007" + " " + "black_duration:2.03537")
  {
    BlackdetectTag();
    BlackdetectTagFree();
    ExtractRoundTrip("blackdetect @ 0x13e00d040", "black_start:4.97163" + " " + "black_end:7.007" + " " + "black_duration:2.03537");
  }

  lemma BlackframeTagFree()
    ensures !Contains("Parsed_blackframe_0 @ 0x10e60fd50", "] ")
  {
    MissingCharNoMatch("Parsed_blackframe_0 @ 0x10e60fd50", "] ", 0);
  }

  lemma BlackframeTag()
    ensures "[Parsed_blackframe_0 @ 0x10e60fd50] " == "[" + "Parsed_blackframe_0 @ 0x10e60fd50" + "] "
  {
  }

  /** The blackframe line of the prefix test loses exactly its bracketed tag. */
  lemma ExtractBlackframeVector()
    ensures ExtractFilterPrefix("[Parsed_blackframe_0 @ 0x10e60fd50] " + ("frame:720" + " " + "pblack:100" + " " + "pts:720" + " " + "t:24.024000" + " " + "type:I" + " " + "last_keyframe:720"))
      == Ok("frame:720" + " " + "pblack:100" + " " + "pts:720" + " " + "t:24.024000" + " " + "type:I" + " " + "last_keyframe:720")
  {
    BlackframeTag();
    BlackframeTagFree();
    ExtractRoundTrip("Parsed_blackframe_0 @ 0x10e60fd50", "frame:720" + " " + "pblack:100" + " " + "pts:720" + " " + "t:24.024000" + " " + "type:I" + " " + "last_keyframe:720");
  }

  // ---- get_filter_value on the blackdetect payload ----

  function BlackdetectWords(): seq<string> {
    ["black_start:4.97163", "black_end:7.007", "black_duration:2.03537"]
  }

  lemma BlackdetectPayload()
    ensures Unwords(BlackdetectWords()) == "black_start:4.97163" + " " + "black_end:7.007" + " " + "black_duration:2.03537"
  {
    Unwords3("black_start:4.97163", "black_end:7.007", "black_duration:2.03537");
  }

  lemma BlackdetectWordsAreWords()
    ensures forall k :: 0 <= k < |BlackdetectWords()| ==> IsWord(BlackdetectWords()[k])
  {
    PrintableWord("black_start:4.97163");
    PrintableWord("black_end:7.007");
    PrintableWord("black_duration:2.03537");
  }

  lemma BlackStartWord()
    ensures KeyValue("black_start:4.97163") == Some(("black_start", "4.97163"))
  {
    assert "black_start:4.97163" == "black_start" + ":" + "4.97163";
    KeyValueFields("black_start", "4.97163", "");
  }

  lemma BlackEndWord()
    ensures KeyValue("black_end:7.007") == Some(("black_end", "7.007"))
  {
    assert "black_end:7.007" == "black_end" + ":" + "7.007";
    KeyValueFields("black_end", "7.007", "");
  }

  lemma DigitsOf007()
    ensures DigitsValue("007") == 7
  {
    assert "007"[..2] == "00" && "00"[..1] == "0" && "0"[..0] == "";
    assert DigitsValue("0") == 0;
    assert DigitsValue("00") == 0;
  }

  lemma ThousandthsScale()
    ensures Pow10(3) == 1000
  {
  }

  lemma DecimalOf7007()
    ensures DecimalValue("7", "007") == 7.007
  {
    DigitsOf007();
    assert DigitsValue("7") == 7 by { assert "7"[..0] == ""; }
    ThousandthsScale();
  }

  lemma ParseBlackEnd()
    ensures ParseFloat("7.007") == Some(7.007)
  {
    assert "7" + "." + "007" == "7.007";
    ParseDecimal("7", "007");
    DecimalOf7007();
  }

  lemma BlackdetectLookup()
    ensures FilterValue(Unwords(BlackdetectWords()), "black_end") == ParseFloat("7.007")
  {
    var ws := BlackdetectWords();
    BlackdetectWordsAreWords();
    forall j | 0 <= j < 1 ensures PassesOver(ws[j], "black_end") {
      BlackStartWord();
      PassedOver(ws[0], "black_end", "black_start", "4.97163");
    }
    assert KeyValue(ws[1]) == Some(("black_end", "7.007")) by {
      BlackEndWord();
    }
    FilterValueOfWords(ws, 1, "black_end", "7.007");
  }

  /** `black_end` is read from the second word of the payload. */
  lemma LookupBlackEndVector()
    ensures FilterValue("black_start:4.97163" + " " + "black_end:7.007" + " " + "black_duration:2.03537", "black_end") == Some(7.007)
  {
    BlackdetectLookup();
    BlackdetectPayload();
    ParseBlackEnd();
  }

  // ---- get_filter_value on the blackframe payload ----

  function BlackframeWords(): seq<string> {
    ["frame:720", "pblack:100", "pts:720", "t:24.024000", "type:I", "last_keyframe:720"]
  }

  lemma BlackframePayload()
    ensures Unwords(BlackframeWords()) == "frame:720" + " " + "pblack:100" + " " + "pts:720" + " " + "t:24.024000" + " " + "type:I" + " " + "last_keyframe:720"
  {
    Unwords6("frame:720", "pblack:100", "pts:720", "t:24.024000", "type:I", "last_keyframe:720");
  }

  lemma BlackframeWordsAreWords()
    ensures forall k :: 0 <= k < |BlackframeWords()| ==> IsWord(BlackframeWords()[k])
  {
    PrintableWord("frame:720");
    PrintableWord("pblack:100");
    PrintableWord("pts:720");
    PrintableWord("t:24.024000");
    PrintableWord("type:I");
    PrintableWord("last_keyframe:720");
  }

  lemma FrameWord()
    ensures KeyValue("frame:720") == Some(("frame", "720"))
  {
    assert "frame:720" == "frame" + ":" + "720";
    KeyValueFields("frame", "720", "");
  }

  lemma ParseFrameValue()
    ensures ParseFloat("720") == Some(720.0)
  {
    assert "720"[..2] == "72" && "72"[..1] == "7" && "7"[..0] == "";
    ParseInteger("720");
  }

  /** `frame` is read from the first word of the payload. */
  lemma LookupFrameVector()
    ensures FilterValue("frame:720" + " " + "pblack:100" + " " + "pts:720" + " " + "t:24.024000" + " " + "type:I" + " " + "last_keyframe:720", "frame") == Some(720.0)
  {
    BlackframeWordsAreWords();
    FrameWord();
    FilterValueOfWords(BlackframeWords(), 0, "frame", "720");
    BlackframePayload();
    ParseFrameValue();
  }

  /** A `k:v` word whose key is not `key` is passed over. */
  lemma OtherKeyWord(k: string, v: string, key: string)
    requires ':' !in k && ':' !in v && k != key
    ensures PassesOver(k + ":" + v, key)
  {
    KeyValueFields(k, v, "");
    PassedOver(k + ":" + v, key, k, v);
  }

  lemma BlackframePassesOver(j: nat)
    requires j < |BlackframeWords()|
    ensures PassesOver(BlackframeWords()[j], "nothing")
  {
    if j == 0 {
      assert BlackframeWords()[0] == "frame" + ":" + "720";
      OtherKeyWord("frame", "720", "nothing");
    } else if j == 1 {
      assert BlackframeWords()[1] == "pblack" + ":" + "100";
      OtherKeyWord("pblack", "100", "nothing");
    } else if j == 2 {
      assert BlackframeWords()[2] == "pts" + ":" + "720";
      OtherKeyWord("pts", "720", "nothing");
    } else if j == 3 {
      assert BlackframeWords()[3] == "t" + ":" + "24.024000";
      OtherKeyWord("t", "24.024000", "nothing");
    } else if j == 4 {
      assert BlackframeWords()[4] == "type" + ":" + "I";
      OtherKeyWord("type", "I", "nothing");
    } else {
      assert BlackframeWords()[5] == "last_keyframe" + ":" + "720";
      OtherKeyWord("last_keyframe", "720", "nothing");
    }
  }

  lemma BlackframeLookupNothing()
    ensures FilterValue(Unwords(BlackframeWords()), "nothing") == None
  {
    var ws := BlackframeWords();
    BlackframeWordsAreWords();
    forall j | 0 <= j < |ws| ensures PassesOver(ws[j], "nothing") {
      BlackframePassesOver(j);
    }
    TokensOfUnwords(ws);
    LookupDecided(ws, "nothing", |ws|);
  }

  /** A key that no word carries is not found. */
  lemma LookupNothingVector()
    ensures FilterValue("frame:720" + " " + "pblack:100" + " " + "pts:720" + " " + "t:24.024000" + " " + "type:I" + " " + "last_keyframe:720", "nothing") == None
  {
    BlackframeLookupNothing();
    BlackframePayload();
  }

  // ---- get_value_from_string ----

  lemma DurationLineShape()
    ensures "Duration: " + "00:00:39.04" + "," + " start: 0.000000, bitrate: 60024 kb/s"
      == [] + "Duration" + ":" + " " + "00:00:39.04" + "," + " start: 0.000000, bitrate: 60024 kb/s"
  {
    assert "Duration: " == [] + "Duration" + ":" + " ";
  }

  lemma ClockHasNoSpace()
    ensures ' ' !in "00:00:39.04"
  {
    var v := "00:00:39.04";
    assert forall k :: 0 <= k < |v| ==> v[k] != ' ';
  }

  lemma DurationLabelFirst()
    ensures !Contains([] + "Duration", "Duration" + ":")
  {
    assert [] + "Duration" == "Duration";
    assert ("Duration" + ":")[8] == ':';
    MissingCharNoMatch("Duration", "Duration" + ":", 8);
  }

  lemma DurationLineLayout()
    ensures FieldLayout("Duration", "Duration: " + "00:00:39.04" + "," + " start: 0.000000, bitrate: 60024 kb/s",
      [], " ", "00:00:39.04", ",", " start: 0.000000, bitrate: 60024 kb/s")
  {
    DurationLineShape();
    DurationLabelFirst();
    ClockHasNoSpace();
    assert ("00:00:39.04" + "," + " start: 0.000000, bitrate: 60024 kb/s")[0] == '0';
  }

  /** The `Duration` field of ffmpeg's header line, cut at the comma. */
  lemma DurationFieldVector()
    ensures GetValueFromString("Duration", "Duration: " + "00:00:39.04" + "," + " start: 0.000000, bitrate: 60024 kb/s") == Some("00:00:39.04")
  {
    DurationLineLayout();
    FieldLayoutDetermines("Duration", "Duration: " + "00:00:39.04" + "," + " start: 0.000000, bitrate: 60024 kb/s",
      [], " ", "00:00:39.04", ",", " start: 0.000000, bitrate: 60024 kb/s");
  }

  lemma BlackStartLineShape()
    ensures "[blackdetect @ 0x12ce05c50] " + "black_start:" + "37.037" + " black_end:39.0056 black_duration:1.96863"
      == "[blackdetect @ 0x12ce05c50] " + "black_start" + ":" + [] + "37.037" + [] + " black_end:39.0056 black_duration:1.96863"
  {
    assert "black_start:" == "black_start" + ":";
  }

  lemma BlackStartLabelFirst()
    ensures !Contains("[blackdetect @ 0x12ce05c50] " + "black_start", "black_start" + ":")
  {
    var head := "[blackdetect @ 0x12ce05c50] " + "black_start";
    assert forall k :: 0 <= k < |head| ==> head[k] != ':';
    assert ("black_start" + ":")[11] == ':';
    MissingCharNoMatch(head, "black_start" + ":", 11);
  }

  lemma BlackStartLineLayout()
    ensures FieldLayout("black_start", "[blackdetect @ 0x12ce05c50] " + "black_start:" + "37.037" + " black_end:39.0056 black_duration:1.96863",
      "[blackdetect @ 0x12ce05c50] ", [], "37.037", [], " black_end:39.0056 black_duration:1.96863")
  {
    BlackStartLineShape();
    BlackStartLabelFirst();
    assert ("37.037" + [] + " black_end:39.0056 black_duration:1.96863")[0] == '3';
  }

  /** The `black_start` field of a blackdetect line, cut at the space. */
  lemma BlackStartFieldVector()
    ensures GetValueFromString("black_start", "[blackdetect @ 0x12ce05c50] " + "black_start:" + "37.037" + " black_end:39.0056 black_duration:1.96863")
      == Some("37.037")
  {
    BlackStartLineLayout();
    FieldLayoutDetermines("black_start", "[blackdetect @ 0x12ce05c50] " + "black_start:" + "37.037" + " black_end:39.0056 black_duration:1.96863",
      "[blackdetect @ 0x12ce05c50] ", [], "37.037", [], " black_end:39.0056 black_duration:1.96863");
  }

  // ---- convert_video_ffmpeg_duration ----

  lemma TwoDigitValues()
    ensures DigitsValue("00") == 0 && DigitsValue("01") == 1 && DigitsValue("04") == 4 && DigitsValue("39") == 39
  {
    assert "00"[..1] == "0" && "01"[..1] == "0" && "04"[..1] == "0" && "39"[..1] == "3";
    assert "0"[..0] == "" && "3"[..0] == "";
  }

  lemma ClockTexts()
    ensures "00" + ":" + "00" + ":" + "39" + "." + "04" == "00:00:39.04"
    ensures "00" + ":" + "01" + ":" + "39" + "." + "04" == "00:01:39.04"
  {
  }

  lemma ClockValues()
    ensures ClockSeconds(DigitsValue("00") as real, DigitsValue("00") as real, DigitsValue("39") as real, DigitsValue("04") as real) == 39.04
    ensures ClockSeconds(DigitsValue("00") as real, DigitsValue("01") as real, DigitsValue("39") as real, DigitsValue("04") as real) == 99.04
  {
    TwoDigitValues();
  }

  /** `00:00:39.04` is 39.04 seconds. */
  lemma ConvertVectorShort()
    ensures ConvertDuration("00:00:39.04") == Ok(39.04)
  {
    ClockTexts();
    ConvertClock("00", "00", "39", "04");
    ClockValues();
  }

  /** `00:01:39.04` is 99.04 seconds. */
  lemma ConvertVectorMinute()
    ensures ConvertDuration("00:01:39.04") == Ok(99.04)
  {
    ClockTexts();
    ConvertClock("00", "01", "39", "04");
    ClockValues();
  }

  // ---- get_som_eom, end to end ----

  function LeadingBlackWords(): seq<string> {
    ["black_start:0", "black_end:3.003", "black_duration:3.003"]
  }

  lemma LeadingBlackPayload()
    ensures Unwords(LeadingBlackWords()) == "black_start:0" + " " + "black_end:3.003" + " " + "black_duration:3.003"
  {
    Unwords3("black_start:0", "black_end:3.003", "black_duration:3.003");
  }

  lemma LeadingBlackLine()
    ensures "[" + "blackdetect @ 0x13e00d040" + "] " + Unwords(LeadingBlackWords())
      == "[blackdetect @ 0x13e00d040] " + ("black_start:0" + " " + "black_end:3.003" + " " + "black_duration:3.003")
  {
    LeadingBlackPayload();
    BlackdetectTag();
  }

  lemma DigitsOf003()
    ensures DigitsValue("003") == 3
  {
    assert "003"[..2] == "00" && "00"[..1] == "0" && "0"[..0] == "";
    assert DigitsValue("0") == 0;
    assert DigitsValue("00") == 0;
  }

  lemma DecimalOf3003()
    ensures DecimalValue("3", "003") == 3.003
  {
    DigitsOf003();
    assert DigitsValue("3") == 3 by { assert "3"[..0] == ""; }
    ThousandthsScale();
  }

  lemma ParseLeadingBlackEnd()
    ensures ParseFloat("3.003") == Some(3.003)
  {
    assert "3" + "." + "003" == "3.003";
    ParseDecimal("3", "003");
    DecimalOf3003();
  }

  lemma LeadingBlackWordsAreWords()
    ensures forall k :: 0 <= k < |LeadingBlackWords()| ==> IsWord(LeadingBlackWords()[k])
  {
    PrintableWord("black_start:0");
    PrintableWord("black_end:3.003");
    PrintableWord("black_duration:3.003");
  }

  lemma LeadingBlackStartWord()
    ensures PassesOver("black_start:0", "black_end")
  {
    assert "black_start:0" == "black_start" + ":" + "0";
    KeyValueFields("black_start", "0", "");
    PassedOver("black_start:0", "black_end", "black_start", "0");
  }

  lemma LeadingBlackEndWord()
    ensures KeyValue("black_end:3.003") == Some(("black_end", "3.003"))
  {
    assert "black_end:3.003" == "black_end" + ":" + "3.003";
    KeyValueFields("black_end", "3.003", "");
  }

  lemma EndToEndFrames()
    ensures FrameForTimestamp(3.003) == 90
    ensures FrameForTimestamp(39.04) == 1170
  {
  }

  /** The leading black ends at 3.003 s: SOM is frame 89. */
  lemma LeadingBlackSom()
    ensures MarkFrame("[blackdetect @ 0x13e00d040] " + ("black_start:0" + " " + "black_end:3.003" + " " + "black_duration:3.003"), "black_end") == Ok(89)
  {
    BlackdetectTagFree();
    LeadingBlackWordsAreWords();
    ParseLeadingBlackEnd();
    EndToEndFrames();
    var ws := LeadingBlackWords();
    forall j | 0 <= j < 1 ensures PassesOver(ws[j], "black_end") {
      LeadingBlackStartWord();
    }
    assert KeyValue(ws[1]) == Some(("black_end", "3.003")) by {
      LeadingBlackEndWord();
    }
    MarkFrameOfLine("blackdetect @ 0x13e00d040", ws, 1, "black_end", "3.003");
    LeadingBlackLine();
  }

  /** A 39.04 s video ends on frame 1169. */
  lemma VideoEndEom()
    ensures DurationFrame(Some("Duration: " + "00:00:39.04" + "," + " start: 0.000000, bitrate: 60024 kb/s")) == Ok(1169)
  {
    DurationLineLayout();
    ClockTexts();
    DurationFrameOfClock("Duration: " + "00:00:39.04" + "," + " start: 0.000000, bitrate: 60024 kb/s",
      [], " ", "00", "00", "39", "04", ",", " start: 0.000000, bitrate: 60024 kb/s");
    ClockValues();
    EndToEndFrames();
  }

  /**
   * A single blackdetect line whose black ends at 3.003 s, in a video of
   * 39.04 s: SOM is frame 89, EOM is frame 1169, and EOM is an advisory.
   */
  lemma SingleBlackEndToEnd()
    ensures SomEom(["[blackdetect @ 0x13e00d040] " + ("black_start:0" + " " + "black_end:3.003" + " " + "black_duration:3.003")],
                   Some("Duration: " + "00:00:39.04" + "," + " start: 0.000000, bitrate: 60024 kb/s"))
      == Ok(Boundaries(89, 1169, true))
  {
    LeadingBlackSom();
    VideoEndEom();
    SomEomSucceeds(["[blackdetect @ 0x13e00d040] " + ("black_start:0" + " " + "black_end:3.003" + " " + "black_duration:3.003")],
                   Some("Duration: " + "00:00:39.04" + "," + " start: 0.000000, bitrate: 60024 kb/s"));
  }
}
