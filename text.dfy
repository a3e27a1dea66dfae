/**
 * The Rust `str` operations the blackdetect pipeline relies on, over
 * `string` (a sequence of chars): `find`, `contains`, `trim_start`,
 * `trim_end_matches`, `split` on a char and `split_whitespace`.
 */
module Text {
  import opened Wrappers

  /** Rust's `char::is_whitespace`: the Unicode White_Space property. */
  predicate IsWhitespace(c: char) {
    || ('\t' <= c <= '\r')
    || c == ' '
    || c == '\U{85}'
    || c == '\U{A0}'
    || c == '\U{1680}'
    || ('\U{2000}' <= c <= '\U{200A}')
    || c == '\U{2028}'
    || c == '\U{2029}'
    || c == '\U{202F}'
    || c == '\U{205F}'
    || c == '\U{3000}'
  }

  predicate OccursAt(s: string, pat: string, i: nat) {
    i + |pat| <= |s| && s[i..i + |pat|] == pat
  }

  /** `s.contains(pat)`: only a text at least as long holds a pattern, and every text holds `""`. */
  predicate Contains(s: string, pat: string)
    ensures Contains(s, pat) ==> |pat| <= |s|
    ensures pat == [] ==> Contains(s, pat)
  {
    assert pat == [] ==> OccursAt(s, pat, 0);
    exists i: nat :: i <= |s| && OccursAt(s, pat, i)
  }

  /** The first position at or after `from` where `pat` occurs. */
  function IndexOfFrom(s: string, pat: string, from: nat): (r: Option<nat>)
    decreases |s| - from
    ensures r.Some? ==> from <= r.value && OccursAt(s, pat, r.value)
    ensures r.Some? ==> forall j: nat :: from <= j < r.value ==> !OccursAt(s, pat, j)
    ensures r.None? ==> forall j: nat :: from <= j ==> !OccursAt(s, pat, j)
  {
    if from + |pat| > |s| then None
    else if s[from..from + |pat|] == pat then Some(from)
    else IndexOfFrom(s, pat, from + 1)
  }

  /** `s.find(pat)`: the first occurrence of `pat`, if any. */
  function IndexOf(s: string, pat: string): (r: Option<nat>)
    ensures r.None? <==> !Contains(s, pat)
    ensures r.Some? ==> OccursAt(s, pat, r.value)
    ensures r.Some? ==> forall j: nat :: j < r.value ==> !OccursAt(s, pat, j)
  {
    IndexOfFrom(s, pat, 0)
  }

  /** `find` returns the one position that is an occurrence with none before it. */
  lemma IndexOfIsFirst(s: string, pat: string, i: nat)
    requires OccursAt(s, pat, i)
    requires forall j: nat :: j < i ==> !OccursAt(s, pat, j)
    ensures IndexOf(s, pat) == Some(i)
  {
    assert i <= |s|;
  }

  /** An occurrence in a suffix is an occurrence in the whole text, shifted. */
  lemma OccursInSuffix(s: string, pat: string, k: nat, j: nat)
    requires k <= |s|
    ensures OccursAt(s[k..], pat, j) <==> OccursAt(s, pat, k + j)
  {
    if j + |pat| <= |s| - k {
      assert s[k..][j..j + |pat|] == s[k + j..k + j + |pat|];
    }
  }

  /** An occurrence inside a prefix is an occurrence in the whole text. */
  lemma OccursInPrefix(p: string, q: string, pat: string, j: nat)
    requires j + |pat| <= |p|
    ensures OccursAt(p + q, pat, j) <==> OccursAt(p, pat, j)
  {
    assert (p + q)[j..j + |pat|] == p[j..j + |pat|];
  }

  /** A one-char pattern occurs exactly where that char stands. */
  lemma OccursChar(s: string, c: char, j: nat)
    ensures OccursAt(s, [c], j) <==> j < |s| && s[j] == c
  {
    if j < |s| {
      assert s[j..j + 1] == [s[j]];
    }
  }

  /** A text that holds `p + q` holds `p`. */
  lemma ContainsPrefixOfPattern(s: string, p: string, q: string)
    requires Contains(s, p + q)
    ensures Contains(s, p)
  {
    var i: nat :| i <= |s| && OccursAt(s, p + q, i);
    assert s[i..i + |p|] == (p + q)[..|p|];
    assert OccursAt(s, p, i);
  }

  /** `s.trim_start()`: drops the leading whitespace and nothing else. */
  function TrimStart(s: string): (r: string)
    ensures |r| <= |s| && r == s[|s| - |r|..]
    ensures r == [] || !IsWhitespace(r[0])
    ensures forall i :: 0 <= i < |s| - |r| ==> IsWhitespace(s[i])
  {
    if s != [] && IsWhitespace(s[0]) then TrimStart(s[1..]) else s
  }

  /** `s.trim_end_matches(c)`: drops every trailing copy of `c` and nothing else. */
  function TrimEndMatches(s: string, c: char): (r: string)
    ensures |r| <= |s| && r == s[..|r|]
    ensures r == [] || r[|r| - 1] != c
    ensures forall i :: |r| <= i < |s| ==> s[i] == c
  {
    if s != [] && s[|s| - 1] == c then TrimEndMatches(s[..|s| - 1], c) else s
  }

  /**
   * `s.split(c)` collected: the pieces between the separators, in order,
   * always at least one (`"".split(c)` yields `[""]`).
   */
  function Split(s: string, c: char): (parts: seq<string>)
    ensures |parts| >= 1
    ensures forall k :: 0 <= k < |parts| ==> c !in parts[k]
  {
    if s == [] then [[]]
    else
      var rest := Split(s[1..], c);
      if s[0] == c then [[]] + rest
      else [[s[0]] + rest[0]] + rest[1..]
  }

  /** The inverse of `Split`: the pieces glued back with the separator. */
  function Join(parts: seq<string>, c: char): string
    requires |parts| >= 1
  {
    if |parts| == 1 then parts[0] else parts[0] + [c] + Join(parts[1..], c)
  }

  lemma {:induction false} SplitJoin(s: string, c: char)
    ensures Join(Split(s, c), c) == s
  {
    if s != [] {
      var rest := Split(s[1..], c);
      SplitJoin(s[1..], c);
      if s[0] == c {
        assert Split(s, c)[1..] == rest;
      } else {
        var parts := Split(s, c);
        if |rest| == 1 {
          assert parts == [[s[0]] + rest[0]];
        } else {
          assert parts[1..] == rest[1..];
          assert Join(rest, c) == rest[0] + [c] + Join(rest[1..], c);
        }
      }
    }
  }

  /** Splitting at the first separator: the head is the text before it. */
  lemma {:induction false} SplitAtFirst(a: string, c: char, b: string)
    requires c !in a
    ensures Split(a + [c] + b, c) == [a] + Split(b, c)
  {
    if a == [] {
      assert a + [c] + b == [c] + b;
      assert ([c] + b)[1..] == b;
    } else {
      assert (a + [c] + b)[1..] == a[1..] + [c] + b;
      SplitAtFirst(a[1..], c, b);
      assert [a[0]] + a[1..] == a;
    }
  }

  /** A text free of the separator is a single piece. */
  lemma {:induction false} SplitNoSeparator(a: string, c: char)
    requires c !in a
    ensures Split(a, c) == [a]
  {
    if a != [] {
      SplitNoSeparator(a[1..], c);
      assert [a[0]] + a[1..] == a;
    }
  }

  predicate IsWord(w: string) {
    w != [] && forall k :: 0 <= k < |w| ==> !IsWhitespace(w[k])
  }

  /** Length of the run of non-whitespace chars at the head of `s`. */
  function WordLength(s: string): (n: nat)
    ensures n <= |s|
    ensures forall k :: 0 <= k < n ==> !IsWhitespace(s[k])
    ensures n == |s| || IsWhitespace(s[n])
  {
    if s == [] || IsWhitespace(s[0]) then 0 else 1 + WordLength(s[1..])
  }

  /**
   * `s.split_whitespace()` collected: the maximal runs of non-whitespace
   * chars, in order; empty pieces are never produced.
   */
  function Tokens(s: string): (words: seq<string>)
    ensures words == [] <==> forall k :: 0 <= k < |s| ==> IsWhitespace(s[k])
    ensures s != [] && !IsWhitespace(s[0]) ==> words != [] && words[0] == s[..WordLength(s)]
    decreases |s|
  {
    var t := TrimStart(s);
    if t == [] then []
    else
      var n := WordLength(t);
      assert n >= 1;
      [t[..n]] + Tokens(t[n..])
  }

  /** `split_whitespace` never yields an empty piece or one holding whitespace. */
  lemma {:induction false} TokensAreWords(s: string)
    decreases |s|
    ensures forall k :: 0 <= k < |Tokens(s)| ==> IsWord(Tokens(s)[k])
  {
    var t := TrimStart(s);
    if t != [] {
      var n := WordLength(t);
      var w, rest := t[..n], Tokens(t[n..]);
      WordHeadIsWord(t);
      TokensAreWords(t[n..]);
      assert Tokens(s) == [w] + rest;
      forall k | 0 < k < |Tokens(s)| ensures IsWord(Tokens(s)[k]) {
        assert Tokens(s)[k] == rest[k - 1];
      }
    }
  }

  /** The run at the head of a text that starts with a visible char is a word. */
  lemma WordHeadIsWord(t: string)
    requires t != [] && !IsWhitespace(t[0])
    ensures IsWord(t[..WordLength(t)])
  {
    var n := WordLength(t);
    assert n >= 1;
    forall k | 0 <= k < n ensures !IsWhitespace(t[..n][k]) {
      assert t[..n][k] == t[k];
    }
  }

  /** The non-whitespace chars of `s`, in order: what the tokens are cut from. */
  function Visible(s: string): string {
    if s == [] then []
    else if IsWhitespace(s[0]) then Visible(s[1..])
    else [s[0]] + Visible(s[1..])
  }

  function Concat(ws: seq<string>): string {
    if ws == [] then [] else ws[0] + Concat(ws[1..])
  }

  lemma {:induction false} VisibleAppend(a: string, b: string)
    ensures Visible(a + b) == Visible(a) + Visible(b)
  {
    if a != [] {
      assert (a + b)[1..] == a[1..] + b;
      VisibleAppend(a[1..], b);
    } else {
      assert a + b == b;
    }
  }

  lemma {:induction false} VisibleOfWord(w: string)
    requires forall k :: 0 <= k < |w| ==> !IsWhitespace(w[k])
    ensures Visible(w) == w
  {
    if w != [] {
      VisibleOfWord(w[1..]);
      assert [w[0]] + w[1..] == w;
    }
  }

  lemma {:induction false} VisibleTrimStart(s: string)
    ensures Visible(TrimStart(s)) == Visible(s)
  {
    if s != [] && IsWhitespace(s[0]) {
      VisibleTrimStart(s[1..]);
    }
  }

  /** One step of `split_whitespace`: the first token, and the text left after it. */
  lemma TokensStep(s: string) returns (w: string, rest: string)
    requires TrimStart(s) != []
    ensures |rest| < |s|
    ensures Tokens(s) == [w] + Tokens(rest)
    ensures Visible(s) == w + Visible(rest)
  {
    var t := TrimStart(s);
    var n := WordLength(t);
    w, rest := t[..n], t[n..];
    WordHeadIsWord(t);
    VisibleTrimStart(s);
    assert t == w + rest by { CutAt(t, n); }
    VisibleAppend(w, rest);
    VisibleOfWord(w);
  }

  lemma CutAt(t: string, n: nat)
    requires n <= |t|
    ensures t == t[..n] + t[n..]
  {
  }

  lemma ConcatCons(w: string, ws: seq<string>)
    ensures Concat([w] + ws) == w + Concat(ws)
  {
    assert ([w] + ws)[1..] == ws;
  }

  /** Gluing the tokens back together gives every non-whitespace char of the text. */
  lemma {:induction false} TokensCoverText(s: string)
    decreases |s|
    ensures Concat(Tokens(s)) == Visible(s)
  {
    if TrimStart(s) == [] {
      VisibleTrimStart(s);
    } else {
      var w, rest := TokensStep(s);
      TokensCoverText(rest);
      ConcatCons(w, Tokens(rest));
    }
  }

  /** Words joined by single spaces: the shape of a detector payload. */
  function Unwords(ws: seq<string>): string {
    if ws == [] then []
    else if |ws| == 1 then ws[0]
    else ws[0] + " " + Unwords(ws[1..])
  }

  /** Joining two runs of words is joining each and putting a space between. */
  lemma {:induction false} UnwordsAppend(a: seq<string>, b: seq<string>)
    requires a != [] && b != []
    ensures Unwords(a + b) == Unwords(a) + " " + Unwords(b)
  {
    if |a| == 1 {
      assert (a + b)[1..] == b;
    } else {
      assert (a + b)[1..] == a[1..] + b;
      UnwordsAppend(a[1..], b);
    }
  }

  lemma TrimStartIdempotent(s: string)
    ensures TrimStart(TrimStart(s)) == TrimStart(s)
  {
  }

  lemma {:induction false} WordLengthOfWord(w: string, s: string)
    requires forall k :: 0 <= k < |w| ==> !IsWhitespace(w[k])
    requires s == [] || IsWhitespace(s[0])
    ensures WordLength(w + s) == |w|
  {
    if w != [] {
      assert (w + s)[1..] == w[1..] + s;
      WordLengthOfWord(w[1..], s);
    } else {
      assert w + s == s;
    }
  }

  /** A word followed by whitespace (or by nothing) is the first token. */
  lemma TokensOfWordThen(w: string, rest: string)
    requires IsWord(w)
    requires rest == [] || IsWhitespace(rest[0])
    ensures Tokens(w + rest) == [w] + Tokens(rest)
  {
    var s := w + rest;
    assert s[0] == w[0];
    assert TrimStart(s) == s;
    WordLengthOfWord(w, rest);
    assert s[..|w|] == w;
    assert s[|w|..] == rest;
  }

  /** Leading whitespace, of any kind and length, does not change the tokens. */
  lemma TokensSkipWhitespace(s: string)
    ensures Tokens(s) == Tokens(TrimStart(s))
  {
    TrimStartIdempotent(s);
  }

  /** A run of whitespace in front of `rest` is dropped by `trim_start` as a whole. */
  lemma {:induction false} TrimStartPastGap(gap: string, rest: string)
    requires forall k :: 0 <= k < |gap| ==> IsWhitespace(gap[k])
    ensures TrimStart(gap + rest) == TrimStart(rest)
  {
    if gap == [] {
      assert gap + rest == rest;
    } else {
      assert (gap + rest)[1..] == gap[1..] + rest;
      TrimStartPastGap(gap[1..], rest);
    }
  }

  /** A word, then any non-empty run of whitespace: the word is the first token and the run is skipped. */
  lemma TokensOfWordAndGap(w: string, gap: string, rest: string)
    requires IsWord(w)
    requires gap != [] && forall k :: 0 <= k < |gap| ==> IsWhitespace(gap[k])
    ensures Tokens(w + gap + rest) == [w] + Tokens(rest)
  {
    assert w + gap + rest == w + (gap + rest);
    TokensOfWordThen(w, gap + rest);
    TokensSkipWhitespace(gap + rest);
    TrimStartPastGap(gap, rest);
    TokensSkipWhitespace(rest);
  }

  /** Joining a word onto a non-empty list puts one space between them. */
  lemma UnwordsCons(w: string, tail: seq<string>)
    requires tail != []
    ensures Unwords([w] + tail) == w + " " + Unwords(tail)
  {
    assert ([w] + tail)[1..] == tail;
  }

  lemma TokensOfUnwordsStep(w: string, tail: seq<string>)
    requires IsWord(w) && tail != []
    requires Tokens(Unwords(tail)) == tail
    ensures Tokens(Unwords([w] + tail)) == [w] + tail
  {
    UnwordsCons(w, tail);
    TokensOfWordAndGap(w, " ", Unwords(tail));
  }

  /** Splitting space-joined words on whitespace gives the words back. */
  lemma {:induction false} TokensOfUnwords(ws: seq<string>)
    requires forall k :: 0 <= k < |ws| ==> IsWord(ws[k])
    ensures Tokens(Unwords(ws)) == ws
  {
    if |ws| == 1 {
      TokensOfWordThen(ws[0], []);
      assert ws[0] + [] == ws[0];
    } else if |ws| > 1 {
      var tail := ws[1..];
      assert ws == [ws[0]] + tail;
      assert forall k :: 0 <= k < |tail| ==> tail[k] == ws[k + 1];
      TokensOfUnwords(tail);
      TokensOfUnwordsStep(ws[0], tail);
    }
  }
}
