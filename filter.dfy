/**
 * Reading one blackdetect log line such as
 *   [blackdetect @ 0x13e00d040] black_start:4.97163 black_end:7.007 black_duration:2.03537
 * `extract_filter_prefix` strips the bracketed filter tag and `get_filter_value`
 * looks a key up among the whitespace-separated `key:value` tokens that remain.
 */
module Filter {
  import opened Wrappers
  import opened Text
  import opened FloatParse

  /** The two ways `delimited(tag("["), take_until("] "), tag("] "))` fails. */
  datatype PrefixError = MissingOpenBracket | MissingCloseBracket

  /**
   * `extract_filter_prefix`: the line must open with `[`; the payload is
   * everything after the first `"] "`.
   */
  function ExtractFilterPrefix(line: string): (r: Result<string, PrefixError>)
    ensures r == Err(MissingOpenBracket) <==> line == [] || line[0] != '['
    ensures r.Ok? ==> |r.value| + 3 <= |line| && r.value == line[|line| - |r.value|..]
  {
    if line == [] || line[0] != '[' then Err(MissingOpenBracket)
    else
      match IndexOf(line[1..], "] ")
      case None => Err(MissingCloseBracket)
      case Some(i) => Ok(line[1 + i + 2..])
  }

  /** A line is accepted exactly when it opens with `[` and holds `"] "`. */
  lemma ExtractAccepts(line: string)
    ensures ExtractFilterPrefix(line).Ok? <==> line != [] && line[0] == '[' && Contains(line, "] ")
  {
    if line != [] && line[0] == '[' {
      if Contains(line[1..], "] ") {
        var i: nat :| i <= |line[1..]| && OccursAt(line[1..], "] ", i);
        OccursInSuffix(line, "] ", 1, i);
        assert OccursAt(line, "] ", 1 + i);
      }
      if Contains(line, "] ") {
        var i: nat :| i <= |line| && OccursAt(line, "] ", i);
        assert i >= 1 by {
          assert line[i] == ']';
        }
        OccursInSuffix(line, "] ", 1, i - 1);
        assert OccursAt(line[1..], "] ", i - 1);
      }
    }
  }

  /**
   * Every accepted line is `"[" + tag + "] " + payload` for a tag free of
   * `"] "`, and the payload is what is returned.
   */
  lemma ExtractShape(line: string)
    requires ExtractFilterPrefix(line).Ok?
    ensures exists tag :: !Contains(tag, "] ") && line == "[" + tag + "] " + ExtractFilterPrefix(line).value
  {
    var rest := line[1..];
    var i := IndexOf(rest, "] ").value;
    var tag := rest[..i];
    assert rest[i..i + 2] == "] ";
    assert line == "[" + tag + "] " + ExtractFilterPrefix(line).value;
    forall j: nat | j <= |tag| ensures !OccursAt(tag, "] ", j) {
      if j + 2 <= |tag| {
        OccursInPrefix(tag, rest[i..], "] ", j);
        assert tag + rest[i..] == rest;
      }
    }
  }

  /** Building a line from a tag and a payload and extracting it gives the payload back. */
  lemma ExtractRoundTrip(tag: string, payload: string)
    requires !Contains(tag, "] ")
    ensures ExtractFilterPrefix("[" + tag + "] " + payload) == Ok(payload)
  {
    var line := "[" + tag + "] " + payload;
    var rest := line[1..];
    assert rest == tag + "] " + payload;
    assert rest[|tag|..|tag| + 2] == "] ";
    forall j: nat | j < |tag| ensures !OccursAt(rest, "] ", j) {
      if j + 2 <= |tag| {
        OccursInPrefix(tag, "] " + payload, "] ", j);
        assert tag + ("] " + payload) == rest;
        assert !OccursAt(tag, "] ", j) by { assert j <= |tag|; }
      } else {
        assert rest[j + 1] == ']';
      }
    }
    IndexOfIsFirst(rest, "] ", |tag|);
    assert line[1 + |tag| + 2..] == payload;
  }

  /**
   * One token split on `:` as `str::split` does: the key is the text before
   * the first `:`, the value the text between the first and the second `:`
   * (or to the end). A token without `:` has no value.
   */
  function KeyValue(token: string): (r: Option<(string, string)>)
    ensures r.Some? <==> ':' in token
    ensures r.Some? ==> ':' !in r.value.0 && ':' !in r.value.1
  {
    var fields := Split(token, ':');
    SplitJoin(token, ':');
    if |fields| < 2 then
      assert token == fields[0];
      None
    else
      assert token == fields[0] + [':'] + Join(fields[1..], ':');
      assert token[|fields[0]|] == ':';
      Some((fields[0], fields[1]))
  }

  /** The token is `key:value` with a value that parses as `v`. */
  predicate Carries(token: string, key: string, v: real) {
    KeyValue(token).Some? && KeyValue(token).value.0 == key && ParseFloat(KeyValue(token).value.1) == Some(v)
  }

  /** The loop of `get_filter_value` over already split tokens: a value found is carried by one of them. */
  function Lookup(tokens: seq<string>, key: string): (r: Option<real>)
    ensures r.Some? ==> exists t :: t in tokens && Carries(t, key, r.value)
  {
    if tokens == [] then None
    else
      match KeyValue(tokens[0])
      case None => None
      case Some((k, v)) =>
        if k == key then
          assert tokens[0] in tokens;
          ParseFloat(v)
        else
          assert forall t :: t in tokens[1..] ==> t in tokens;
          Lookup(tokens[1..], key)
  }

  /** What `get_filter_value(payload, key)` returns: a value carried by one of the payload's words. */
  function FilterValue(payload: string, key: string): (r: Option<real>)
    ensures r.Some? ==> exists t :: t in Tokens(payload) && Carries(t, key, r.value)
  {
    Lookup(Tokens(payload), key)
  }

  /** `get_filter_value`: a scan of the tokens that returns at the first decisive one. */
  method GetFilterValue(payload: string, key: string) returns (r: Option<real>)
    ensures r == FilterValue(payload, key)
  {
    var tokens := Tokens(payload);
    var i := 0;
    while i < |tokens|
      invariant 0 <= i <= |tokens|
      invariant Lookup(tokens[i..], key) == Lookup(tokens, key)
    {
      LookupAt(tokens, i, key);
      var fields := Split(tokens[i], ':');
      if |fields| < 2 {
        return None;
      }
      if fields[0] == key {
        return ParseFloat(fields[1]);
      }
      i := i + 1;
    }
    return None;
  }

  /** The scan at token `i`: stop on a token without `:`, answer on the key, else go on. */
  lemma LookupAt(tokens: seq<string>, i: nat, key: string)
    requires i < |tokens|
    ensures var fields := Split(tokens[i], ':');
      Lookup(tokens[i..], key) ==
        if |fields| < 2 then None
        else if fields[0] == key then ParseFloat(fields[1])
        else Lookup(tokens[i + 1..], key)
  {
    assert tokens[i..][0] == tokens[i] && tokens[i..][1..] == tokens[i + 1..];
  }

  /** The token has a `:` and a key other than `key`: the scan goes past it. */
  predicate PassesOver(token: string, key: string) {
    KeyValue(token).Some? && KeyValue(token).value.0 != key
  }

  /** The scan goes past a token it passes over. */
  lemma LookupPassesOver(tokens: seq<string>, i: nat, key: string)
    requires i < |tokens| && PassesOver(tokens[i], key)
    ensures Lookup(tokens[i..], key) == Lookup(tokens[i + 1..], key)
  {
    assert tokens[i..][0] == tokens[i] && tokens[i..][1..] == tokens[i + 1..];
  }

  /**
   * The lookup is decided by the first token the scan does not pass over:
   * none left gives `None`, one without `:` gives `None`, and one with the
   * key gives its parsed value, whatever follows.
   */
  lemma {:induction false} LookupDecided(tokens: seq<string>, key: string, i: nat)
    requires i <= |tokens|
    requires forall j :: 0 <= j < i ==> PassesOver(tokens[j], key)
    ensures i == |tokens| ==> Lookup(tokens, key) == None
    ensures i < |tokens| && KeyValue(tokens[i]).None? ==> Lookup(tokens, key) == None
    ensures i < |tokens| && KeyValue(tokens[i]).Some? && KeyValue(tokens[i]).value.0 == key ==>
      Lookup(tokens, key) == ParseFloat(KeyValue(tokens[i]).value.1)
  {
    LookupSkipsPassed(tokens, key, i);
    if i < |tokens| {
      assert tokens[i..][0] == tokens[i];
    }
  }

  /** Words the scan passes over do not change its outcome. */
  lemma {:induction false} LookupSkipsPassed(tokens: seq<string>, key: string, i: nat)
    requires i <= |tokens|
    requires forall j :: 0 <= j < i ==> PassesOver(tokens[j], key)
    ensures Lookup(tokens, key) == Lookup(tokens[i..], key)
  {
    if i == 0 {
      assert tokens[0..] == tokens;
    } else {
      assert PassesOver(tokens[i - 1], key);
      LookupPassesOver(tokens, i - 1, key);
      LookupSkipsPassed(tokens, key, i - 1);
    }
  }

  /** The key ends at the first `:` and the value at the second. */
  lemma KeyValueFields(key: string, value: string, more: string)
    requires ':' !in key && ':' !in value
    ensures KeyValue(key + ":" + value) == Some((key, value))
    ensures KeyValue(key + ":" + value + ":" + more) == Some((key, value))
  {
    assert key + ":" + value == key + [':'] + value;
    SplitAtFirst(key, ':', value);
    SplitNoSeparator(value, ':');
    assert key + ":" + value + ":" + more == key + [':'] + (value + [':'] + more);
    SplitAtFirst(key, ':', value + [':'] + more);
    SplitAtFirst(value, ':', more);
  }

  /**
   * In a payload of space-separated words, the value of `key` is the parsed
   * value of the first word that the scan does not pass over, when that word
   * is `key:value`.
   */
  lemma FilterValueOfWords(ws: seq<string>, i: nat, key: string, value: string)
    requires forall k :: 0 <= k < |ws| ==> IsWord(ws[k])
    requires i < |ws| && forall j :: 0 <= j < i ==> PassesOver(ws[j], key)
    requires KeyValue(ws[i]) == Some((key, value))
    ensures FilterValue(Unwords(ws), key) == ParseFloat(value)
  {
    TokensOfUnwords(ws);
    LookupDecided(ws, key, i);
  }
}
