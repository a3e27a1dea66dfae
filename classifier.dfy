/**
 * The scan over ffmpeg's stderr: every line holding `"Duration: "` replaces
 * the remembered duration line, and every other line holding `black_start`
 * is appended to the list of blackdetect lines.
 */
module Classifier {
  import opened Wrappers
  import opened Text
  import Duration

  predicate IsDurationLine(line: string) {
    Contains(line, "Duration: ")
  }

  /** A duration line is never taken as a blackdetect line, even if it mentions `black_start`. */
  predicate IsBlackdetectLine(line: string) {
    !IsDurationLine(line) && Contains(line, "black_start")
  }

  /** The blackdetect lines among `lines`, in the order they came. */
  function BlackdetectLines(lines: seq<string>): seq<string> {
    if lines == [] then []
    else
      var last := lines[|lines| - 1];
      BlackdetectLines(lines[..|lines| - 1]) + (if IsBlackdetectLine(last) then [last] else [])
  }

  /** The last duration line among `lines`, if there is one. */
  function LastDurationLine(lines: seq<string>): Option<string> {
    if lines == [] then None
    else
      var last := lines[|lines| - 1];
      if IsDurationLine(last) then Some(last) else LastDurationLine(lines[..|lines| - 1])
  }

  /** The classification loop over the lines read from ffmpeg's stderr. */
  method Classify(lines: seq<string>) returns (blackdetects: seq<string>, rawDurationLine: Option<string>)
    ensures blackdetects == BlackdetectLines(lines)
    ensures rawDurationLine == LastDurationLine(lines)
  {
    blackdetects := [];
    rawDurationLine := None;
    for i := 0 to |lines|
      invariant blackdetects == BlackdetectLines(lines[..i])
      invariant rawDurationLine == LastDurationLine(lines[..i])
    {
      var line := lines[i];
      assert lines[..i + 1][..i] == lines[..i];
      if Contains(line, "Duration: ") {
        rawDurationLine := Some(line);
      } else if Contains(line, "black_start") {
        blackdetects := blackdetects + [line];
      }
    }
    assert lines[..|lines|] == lines;
  }

  /** A line is kept as a blackdetect line exactly when it is one. */
  lemma {:induction false} BlackdetectMembers(lines: seq<string>, line: string)
    ensures line in BlackdetectLines(lines) <==> line in lines && IsBlackdetectLine(line)
  {
    if lines != [] {
      var init := lines[..|lines| - 1];
      BlackdetectMembers(init, line);
      assert lines == init + [lines[|lines| - 1]];
    }
  }

  /** Classifying two runs of lines one after the other keeps both lists in order. */
  lemma {:induction false} BlackdetectAppend(a: seq<string>, b: seq<string>)
    ensures BlackdetectLines(a + b) == BlackdetectLines(a) + BlackdetectLines(b)
  {
    if b != [] {
      var init := b[..|b| - 1];
      var last := b[|b| - 1];
      assert (a + b)[..|a + b| - 1] == a + init;
      BlackdetectAppend(a, init);
    } else {
      assert a + b == a;
    }
  }

  /** The positions of the lines that qualify as blackdetect lines. */
  function BlackdetectIndices(lines: seq<string>): set<nat> {
    set i: nat | i < |lines| && IsBlackdetectLine(lines[i])
  }

  /** One more line adds its position when it qualifies, and nothing else. */
  lemma BlackdetectIndicesStep(lines: seq<string>)
    requires lines != []
    ensures var n := |lines| - 1;
      BlackdetectIndices(lines) == BlackdetectIndices(lines[..n]) + (if IsBlackdetectLine(lines[n]) then {n} else {})
  {
    var n := |lines| - 1;
    var init := lines[..n];
    assert forall i :: 0 <= i < n ==> init[i] == lines[i];
  }

  /** No blackdetect line is lost: there are as many as lines that qualify. */
  lemma {:induction false} BlackdetectCount(lines: seq<string>)
    ensures |BlackdetectLines(lines)| == |BlackdetectIndices(lines)|
  {
    if lines != [] {
      var n := |lines| - 1;
      BlackdetectCount(lines[..n]);
      BlackdetectIndicesStep(lines);
      assert n !in BlackdetectIndices(lines[..n]);
    }
  }

  /** There is no duration line to remember exactly when no line is one. */
  lemma {:induction false} NoDurationLine(lines: seq<string>)
    ensures LastDurationLine(lines).None? <==> forall i :: 0 <= i < |lines| ==> !IsDurationLine(lines[i])
  {
    if lines != [] {
      var init := lines[..|lines| - 1];
      NoDurationLine(init);
      assert forall i :: 0 <= i < |init| ==> init[i] == lines[i];
    }
  }

  /** `lines[i]` is a duration line and no line after it is one. */
  predicate LastDurationAt(lines: seq<string>, i: int) {
    && 0 <= i < |lines|
    && IsDurationLine(lines[i])
    && forall j :: i < j < |lines| ==> !IsDurationLine(lines[j])
  }

  /** The remembered duration line is a duration line with none after it. */
  lemma {:induction false} LastDurationWins(lines: seq<string>)
    requires LastDurationLine(lines).Some?
    ensures exists i :: LastDurationAt(lines, i) && lines[i] == LastDurationLine(lines).value
  {
    var n := |lines| - 1;
    if IsDurationLine(lines[n]) {
      assert LastDurationAt(lines, n);
    } else {
      var init := lines[..n];
      LastDurationWins(init);
      var i :| LastDurationAt(init, i) && init[i] == LastDurationLine(init).value;
      assert lines[i] == init[i];
      assert forall j :: i < j < n ==> lines[j] == init[j];
      assert LastDurationAt(lines, i);
    }
  }

  /** A duration line always yields a value for the `Duration` label. */
  lemma DurationLineHasValue(line: string)
    requires IsDurationLine(line)
    ensures Duration.GetValueFromString("Duration", line).Some?
  {
    assert "Duration: " == "Duration:" + " ";
    ContainsPrefixOfPattern(line, "Duration:", " ");
    assert "Duration" + ":" == "Duration:";
  }
}
