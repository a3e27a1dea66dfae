/**
 * `str::parse::<f32>` on exact decimals. The grammar is Rust's:
 *   Float    ::= Sign? Number
 *   Number   ::= ( Digit+ | Digit+ '.' Digit* | Digit* '.' Digit+ ) Exp?
 *   Exp      ::= ('e' | 'E') Sign? Digit+
 *   Sign     ::= '+' | '-'
 * and the value is the exact rational the text denotes, not its f32 rounding.
 */
module FloatParse {
  import opened Wrappers
  import opened Text

  predicate IsDigit(c: char) {
    '0' <= c <= '9'
  }

  predicate AllDigits(s: string) {
    forall k :: 0 <= k < |s| ==> IsDigit(s[k])
  }

  /** The number a run of decimal digits denotes, most significant first. */
  function DigitsValue(s: string): nat
    requires AllDigits(s)
  {
    if s == [] then 0 else 10 * DigitsValue(s[..|s| - 1]) + (s[|s| - 1] as int - '0' as int)
  }

  function Pow10(n: nat): (r: nat)
    ensures r >= 1
  {
    if n == 0 then 1 else 10 * Pow10(n - 1)
  }

  /** The number `intDigits.fracDigits` denotes. */
  function DecimalValue(intDigits: string, fracDigits: string): real
    requires AllDigits(intDigits) && AllDigits(fracDigits)
  {
    DigitsValue(intDigits) as real + DigitsValue(fracDigits) as real / Pow10(|fracDigits|) as real
  }

  /** `x * 10^e` for a signed exponent. */
  function ScaleByPow10(x: real, e: int): real {
    if e >= 0 then x * Pow10(e) as real else x / Pow10(-e) as real
  }

  predicate IsExponentMarker(c: char) {
    c == 'e' || c == 'E'
  }

  function FirstExponentMarker(s: string): (r: Option<nat>)
    ensures r.Some? ==> r.value < |s| && IsExponentMarker(s[r.value])
    ensures r.Some? ==> forall k :: 0 <= k < r.value ==> !IsExponentMarker(s[k])
    ensures r.None? ==> forall k :: 0 <= k < |s| ==> !IsExponentMarker(s[k])
  {
    if s == [] then None
    else if IsExponentMarker(s[0]) then Some(0)
    else match FirstExponentMarker(s[1..])
      case None => None
      case Some(i) => Some(i + 1)
  }

  /** Digit+ | Digit+ '.' Digit* | Digit* '.' Digit+ */
  function ParseMantissa(s: string): Option<real> {
    var parts := Split(s, '.');
    if |parts| == 1 then
      if parts[0] != [] && AllDigits(parts[0]) then Some(DigitsValue(parts[0]) as real) else None
    else if |parts| == 2 && AllDigits(parts[0]) && AllDigits(parts[1]) && |parts[0]| + |parts[1]| > 0 then
      Some(DecimalValue(parts[0], parts[1]))
    else None
  }

  /** Sign? Digit+ */
  function ParseExponent(s: string): Option<int> {
    if s != [] && (s[0] == '+' || s[0] == '-') then
      var digits := s[1..];
      if digits != [] && AllDigits(digits) then
        var magnitude: int := DigitsValue(digits);
        Some(if s[0] == '-' then -magnitude else magnitude)
      else None
    else if s != [] && AllDigits(s) then Some(DigitsValue(s))
    else None
  }

  /** Number */
  function ParseUnsigned(s: string): Option<real> {
    match FirstExponentMarker(s)
    case None => ParseMantissa(s)
    case Some(i) =>
      match (ParseMantissa(s[..i]), ParseExponent(s[i + 1..]))
      case (Some(m), Some(e)) => Some(ScaleByPow10(m, e))
      case _ => None
  }

  /**
   * `s.parse::<f32>().ok()`, idealised to exact reals: only a non-empty
   * text of digits, signs, points and exponent markers parses.
   */
  function ParseFloat(s: string): (r: Option<real>)
    ensures r.Some? ==> s != [] && forall k :: 0 <= k < |s| ==> IsNumberChar(s[k])
  {
    if s != [] && (s[0] == '+' || s[0] == '-') then
      match ParseUnsigned(s[1..])
      case None => None
      case Some(v) =>
        SignedAlphabet(s);
        Some(if s[0] == '-' then -v else v)
    else
      ParseUnsignedAlphabet(s);
      ParseUnsigned(s)
  }

  /** The canonical decimal rendering of a natural number. */
  function NatToDigits(n: nat): (s: string)
    ensures AllDigits(s) && s != []
  {
    if n < 10 then [('0' as int + n) as char]
    else NatToDigits(n / 10) + [('0' as int + n % 10) as char]
  }

  lemma {:induction false} DigitsValueOfRendering(n: nat)
    ensures DigitsValue(NatToDigits(n)) == n
  {
    if n >= 10 {
      var s := NatToDigits(n);
      assert s[..|s| - 1] == NatToDigits(n / 10);
      DigitsValueOfRendering(n / 10);
    }
  }

  lemma {:induction false} DigitsHaveNoExponentMarker(a: string)
    requires AllDigits(a)
    ensures FirstExponentMarker(a).None?
  {
    if a != [] {
      DigitsHaveNoExponentMarker(a[1..]);
    }
  }

  lemma DigitsHaveNoPoint(a: string)
    requires AllDigits(a)
    ensures '.' !in a
  {
    assert forall k :: 0 <= k < |a| ==> a[k] != '.';
  }

  /** A run of digits without a point parses as the integer it spells. */
  lemma ParseInteger(a: string)
    requires a != [] && AllDigits(a)
    ensures ParseFloat(a) == Some(DigitsValue(a) as real)
  {
    DigitsHaveNoPoint(a);
    SplitNoSeparator(a, '.');
    DigitsHaveNoExponentMarker(a);
    assert IsDigit(a[0]);
  }

  /** Printing a natural number in decimal and parsing it back gives the number. */
  lemma ParseRendering(n: nat)
    ensures ParseFloat(NatToDigits(n)) == Some(n as real)
  {
    ParseInteger(NatToDigits(n));
    DigitsValueOfRendering(n);
  }

  lemma {:induction false} DecimalHasNoExponentMarker(a: string, b: string)
    requires AllDigits(a) && AllDigits(b)
    ensures FirstExponentMarker(a + "." + b).None?
  {
    if a == [] {
      assert ("." + b)[1..] == b;
      DigitsHaveNoExponentMarker(b);
    } else {
      assert (a + "." + b)[1..] == a[1..] + "." + b;
      DecimalHasNoExponentMarker(a[1..], b);
    }
  }

  lemma MantissaOfDecimal(a: string, b: string)
    requires AllDigits(a) && AllDigits(b) && |a| + |b| > 0
    ensures ParseMantissa(a + "." + b) == Some(DecimalValue(a, b))
  {
    DigitsHaveNoPoint(a);
    DigitsHaveNoPoint(b);
    var s := a + "." + b;
    assert s == a + ['.'] + b;
    SplitAtFirst(a, '.', b);
    SplitNoSeparator(b, '.');
    var parts := Split(s, '.');
    assert parts == [a, b];
    assert |parts| == 2 && parts[0] == a && parts[1] == b;
  }

  /** `a.b` parses as `a + b / 10^|b|`: the fraction is read digit for digit. */
  lemma ParseDecimal(a: string, b: string)
    requires AllDigits(a) && AllDigits(b) && |a| + |b| > 0
    ensures ParseFloat(a + "." + b) == Some(DecimalValue(a, b))
  {
    var s := a + "." + b;
    MantissaOfDecimal(a, b);
    DecimalHasNoExponentMarker(a, b);
    assert ParseUnsigned(s) == ParseMantissa(s);
    assert s[0] == '.' || IsDigit(s[0]) by {
      if a == [] { assert s[0] == '.'; } else { assert s[0] == a[0]; }
    }
  }

  /** A leading minus negates the parsed value. */
  lemma ParseNegated(s: string)
    requires s != [] && s[0] != '+' && s[0] != '-'
    ensures ParseFloat("-" + s) ==
      match ParseFloat(s) case None => None case Some(v) => Some(-v)
  {
    assert ("-" + s)[1..] == s;
  }

  /** A digit, a sign, a point or an exponent marker. */
  predicate IsNumberChar(c: char) {
    IsDigit(c) || c == '+' || c == '-' || c == '.' || IsExponentMarker(c)
  }

  /** A sign followed by a parsable unsigned number holds only number chars. */
  lemma SignedAlphabet(s: string)
    requires s != [] && (s[0] == '+' || s[0] == '-')
    requires ParseUnsigned(s[1..]).Some?
    ensures forall k :: 0 <= k < |s| ==> IsNumberChar(s[k])
  {
    ParseUnsignedAlphabet(s[1..]);
    forall k | 1 <= k < |s| ensures IsNumberChar(s[k]) {
      assert s[k] == s[1..][k - 1];
    }
  }

  lemma ParseUnsignedAlphabet(s: string)
    ensures ParseUnsigned(s).Some? ==> s != [] && forall k :: 0 <= k < |s| ==> IsNumberChar(s[k])
  {
    if ParseUnsigned(s).Some? {
      match FirstExponentMarker(s)
      case None =>
        ParseMantissaAlphabet(s);
      case Some(i) =>
        ParseMantissaAlphabet(s[..i]);
        var e := s[i + 1..];
        forall k | 0 <= k < |s| ensures IsNumberChar(s[k]) {
          if k < i { assert s[k] == s[..i][k]; }
          else if k > i {
            assert s[k] == e[k - i - 1];
            if e != [] && (e[0] == '+' || e[0] == '-') {
              if k > i + 1 { assert e[k - i - 1] == e[1..][k - i - 2]; }
            }
          }
        }
    }
  }

  lemma ParseMantissaAlphabet(s: string)
    requires ParseMantissa(s).Some?
    ensures s != [] && forall k :: 0 <= k < |s| ==> IsNumberChar(s[k])
  {
    var parts := Split(s, '.');
    SplitJoin(s, '.');
    if |parts| == 1 {
      assert s == parts[0];
    } else {
      assert Join(parts[1..], '.') == parts[1];
      assert s == parts[0] + ['.'] + parts[1];
      forall k | 0 <= k < |s| ensures IsNumberChar(s[k]) {
        if k < |parts[0]| { assert s[k] == parts[0][k]; }
        else if k > |parts[0]| { assert s[k] == parts[1][k - |parts[0]| - 1]; }
      }
    }
  }

  // The grammar of the module comment, written over character positions
  // rather than through `Split`, and the proof that the parser accepts
  // exactly the texts it describes.

  /** Digit+ | Digit* '.' Digit* with at least one digit. */
  predicate MantissaText(s: string) {
    || (s != [] && AllDigits(s))
    || exists i :: 0 <= i < |s| && s[i] == '.' && |s| > 1 && AllDigits(s[..i]) && AllDigits(s[i + 1..])
  }

  /** Sign? Digit+ */
  predicate ExponentText(s: string) {
    || (s != [] && AllDigits(s))
    || (|s| > 1 && (s[0] == '+' || s[0] == '-') && AllDigits(s[1..]))
  }

  /** Mantissa ( ('e' | 'E') Exponent )? */
  predicate NumberText(s: string) {
    || MantissaText(s)
    || exists i :: 0 <= i < |s| && IsExponentMarker(s[i]) && MantissaText(s[..i]) && ExponentText(s[i + 1..])
  }

  /** Sign? Number */
  predicate FloatText(s: string) {
    || NumberText(s)
    || (s != [] && (s[0] == '+' || s[0] == '-') && NumberText(s[1..]))
  }

  /** The mantissa parser accepts exactly the mantissa texts. */
  lemma MantissaGrammar(s: string)
    ensures ParseMantissa(s).Some? <==> MantissaText(s)
  {
    if ParseMantissa(s).Some? {
      MantissaSound(s);
    }
    if MantissaText(s) {
      MantissaComplete(s);
    }
  }

  /** What the mantissa parser accepts is a digit run, or digit runs around one point. */
  lemma MantissaSound(s: string)
    requires ParseMantissa(s).Some?
    ensures MantissaText(s)
  {
    var parts := Split(s, '.');
    SplitJoin(s, '.');
    if |parts| == 2 {
      assert Join(parts[1..], '.') == parts[1];
      assert s == parts[0] + ['.'] + parts[1];
      var i := |parts[0]|;
      assert s[i] == '.' && s[..i] == parts[0] && s[i + 1..] == parts[1];
    }
  }

  /** Every mantissa text is accepted by the mantissa parser. */
  lemma MantissaComplete(s: string)
    requires MantissaText(s)
    ensures ParseMantissa(s).Some?
  {
    if s != [] && AllDigits(s) {
      MantissaOfDigits(s);
    } else {
      var i :| 0 <= i < |s| && s[i] == '.' && |s| > 1 && AllDigits(s[..i]) && AllDigits(s[i + 1..]);
      var a, b := s[..i], s[i + 1..];
      assert s == a + "." + b;
      MantissaOfDecimal(a, b);
    }
  }

  /** A mantissa text holds no exponent marker. */
  lemma MantissaHasNoMarker(s: string)
    ensures MantissaText(s) ==> forall k :: 0 <= k < |s| ==> !IsExponentMarker(s[k])
  {
    if MantissaText(s) && !(s != [] && AllDigits(s)) {
      var i :| 0 <= i < |s| && s[i] == '.' && |s| > 1 && AllDigits(s[..i]) && AllDigits(s[i + 1..]);
      forall k | 0 <= k < |s| ensures !IsExponentMarker(s[k]) {
        if k < i { assert s[k] == s[..i][k]; }
        else if k > i { assert s[k] == s[i + 1..][k - i - 1]; }
      }
    }
  }

  /** A mantissa text starts with a digit or a point. */
  lemma MantissaStart(s: string)
    ensures MantissaText(s) ==> s != [] && (IsDigit(s[0]) || s[0] == '.')
  {
    if MantissaText(s) && !(s != [] && AllDigits(s)) {
      var i :| 0 <= i < |s| && s[i] == '.' && |s| > 1 && AllDigits(s[..i]) && AllDigits(s[i + 1..]);
      if i > 0 { assert s[0] == s[..i][0]; }
    }
  }

  /** The unsigned parser accepts exactly the number texts. */
  lemma NumberGrammar(s: string)
    ensures ParseUnsigned(s).Some? <==> NumberText(s)
  {
    if ParseUnsigned(s).Some? {
      NumberSound(s);
    }
    if NumberText(s) {
      NumberComplete(s);
    }
  }

  /** What the unsigned parser accepts is a mantissa, followed by an exponent after the first marker if any. */
  lemma NumberSound(s: string)
    requires ParseUnsigned(s).Some?
    ensures NumberText(s)
  {
    match FirstExponentMarker(s)
    case None =>
      MantissaSound(s);
    case Some(i) =>
      MantissaSound(s[..i]);
      assert ParseExponent(s[i + 1..]).Some?;
      assert IsExponentMarker(s[i]) && MantissaText(s[..i]) && ExponentText(s[i + 1..]);
  }

  /** Every number text is accepted by the unsigned parser. */
  lemma NumberComplete(s: string)
    requires NumberText(s)
    ensures ParseUnsigned(s).Some?
  {
    if MantissaText(s) {
      UnsignedOfMantissa(s);
    } else {
      var j :| 0 <= j < |s| && IsExponentMarker(s[j]) && MantissaText(s[..j]) && ExponentText(s[j + 1..]);
      UnsignedOfExponentForm(s, j);
    }
  }

  /** A mantissa alone is a number. */
  lemma UnsignedOfMantissa(s: string)
    requires MantissaText(s)
    ensures ParseUnsigned(s).Some?
  {
    MantissaHasNoMarker(s);
    assert FirstExponentMarker(s).None?;
    MantissaComplete(s);
  }

  /** A mantissa, a marker and an exponent are a number. */
  lemma UnsignedOfExponentForm(s: string, j: nat)
    requires j < |s| && IsExponentMarker(s[j]) && MantissaText(s[..j]) && ExponentText(s[j + 1..])
    ensures ParseUnsigned(s).Some?
  {
    var m := s[..j];
    MantissaHasNoMarker(m);
    forall k | 0 <= k < j ensures !IsExponentMarker(s[k]) {
      assert s[k] == m[k];
    }
    FirstMarkerAt(s, j);
    MantissaComplete(m);
    assert ParseExponent(s[j + 1..]).Some?;
  }

  /** A marker with none before it is the first one. */
  lemma {:induction false} FirstMarkerAt(s: string, j: nat)
    requires j < |s| && IsExponentMarker(s[j])
    requires forall k :: 0 <= k < j ==> !IsExponentMarker(s[k])
    ensures FirstExponentMarker(s) == Some(j)
  {
    if j > 0 {
      assert !IsExponentMarker(s[0]);
      assert forall k :: 0 <= k < j - 1 ==> s[1..][k] == s[k + 1];
      FirstMarkerAt(s[1..], j - 1);
    }
  }

  /** `s.parse::<f32>()` succeeds exactly on the texts of the grammar `Sign? Number`. */
  lemma ParseFloatGrammar(s: string)
    ensures ParseFloat(s).Some? <==> FloatText(s)
  {
    if s != [] && (s[0] == '+' || s[0] == '-') {
      NumberGrammar(s[1..]);
      MantissaStart(s);
      if NumberText(s) && !MantissaText(s) {
        var j :| 0 <= j < |s| && IsExponentMarker(s[j]) && MantissaText(s[..j]) && ExponentText(s[j + 1..]);
        MantissaStart(s[..j]);
      }
    } else {
      NumberGrammar(s);
    }
  }

  /** The first exponent marker of `a + [marker] + rest`, for digits `a`, is the one after `a`. */
  lemma MarkerAfterDigits(a: string, marker: char, rest: string)
    requires AllDigits(a) && IsExponentMarker(marker)
    ensures FirstExponentMarker(a + [marker] + rest) == Some(|a|)
  {
    var s := a + [marker] + rest;
    assert s[|a|] == marker;
    assert forall k :: 0 <= k < |a| ==> s[k] == a[k];
  }

  /** A signed or unsigned run of exponent digits denotes that many powers of ten. */
  lemma ExponentOfDigits(sign: string, d: string)
    requires sign == "" || sign == "+" || sign == "-"
    requires d != [] && AllDigits(d)
    ensures ParseExponent(sign + d) == Some(if sign == "-" then -(DigitsValue(d) as int) else DigitsValue(d))
  {
    if sign == "" {
      assert sign + d == d;
      assert IsDigit(d[0]);
    } else {
      assert (sign + d)[0] == sign[0] && (sign + d)[1..] == d;
    }
  }

  /** A digit run is a mantissa worth its integer value. */
  lemma MantissaOfDigits(a: string)
    requires a != [] && AllDigits(a)
    ensures ParseMantissa(a) == Some(DigitsValue(a) as real)
  {
    DigitsHaveNoPoint(a);
    SplitNoSeparator(a, '.');
  }

  /** After a digit run and a marker, the exponent text alone decides. */
  lemma UnsignedScientific(a: string, marker: char, rest: string)
    requires a != [] && AllDigits(a) && IsExponentMarker(marker)
    ensures ParseUnsigned(a + [marker] + rest) ==
      match ParseExponent(rest) case None => None case Some(e) => Some(ScaleByPow10(DigitsValue(a) as real, e))
  {
    var s := a + [marker] + rest;
    MarkerAfterDigits(a, marker, rest);
    assert s[..|a|] == a && s[|a| + 1..] == rest;
    MantissaOfDigits(a);
  }

  /**
   * The exponent form: `a e d` and `a e+d` multiply the integer `a` by ten
   * to the power `d`, and `a e-d` divides it (`1e-05` is 0.00001).
   */
  lemma ParseScientific(a: string, marker: char, sign: string, d: string)
    requires a != [] && AllDigits(a) && IsExponentMarker(marker)
    requires sign == "" || sign == "+" || sign == "-"
    requires d != [] && AllDigits(d)
    ensures sign != "-" ==>
      ParseFloat(a + [marker] + sign + d) == Some((DigitsValue(a) * Pow10(DigitsValue(d))) as real)
    ensures sign == "-" ==>
      ParseFloat(a + [marker] + sign + d) == Some(DigitsValue(a) as real / Pow10(DigitsValue(d)) as real)
  {
    assert a + [marker] + sign + d == a + [marker] + (sign + d);
    ExponentOfDigits(sign, d);
    if sign == "-" {
      ParseScientificScaled(a, marker, sign + d, -(DigitsValue(d) as int));
      ScaleBySign(DigitsValue(a), true, DigitsValue(d));
    } else {
      ParseScientificScaled(a, marker, sign + d, DigitsValue(d));
      ScaleBySign(DigitsValue(a), false, DigitsValue(d));
    }
  }

  /** After digits and a marker, an exponent `e` scales the digits' value by `10^e`. */
  lemma ParseScientificScaled(a: string, marker: char, rest: string, e: int)
    requires a != [] && AllDigits(a) && IsExponentMarker(marker)
    requires ParseExponent(rest) == Some(e)
    ensures ParseFloat(a + [marker] + rest) == Some(ScaleByPow10(DigitsValue(a) as real, e))
  {
    UnsignedScientific(a, marker, rest);
    assert (a + [marker] + rest)[0] == a[0] && IsDigit(a[0]);
  }

  /** Scaling an integer `k` by `10^n` multiplies it; by `10^-n`, also when `n` is 0, divides it. */
  lemma ScaleBySign(k: nat, negative: bool, n: nat)
    ensures ScaleByPow10(k as real, if negative then -(n as int) else n) ==
      if negative then k as real / Pow10(n) as real else (k * Pow10(n)) as real
  {
    if negative && n == 0 {
      assert Pow10(0) as real == 1.0;
    }
  }

  /** A second point makes the text unparsable: `7.0.7` is rejected. */
  lemma ParseRejectsSecondPoint(a: string, b: string, c: string)
    requires AllDigits(a) && AllDigits(b) && AllDigits(c)
    ensures ParseFloat(a + "." + b + "." + c) == None
  {
    var s := a + ['.'] + (b + ['.'] + c);
    assert a + "." + b + "." + c == s;
    DigitsHaveNoPoint(a);
    DigitsHaveNoPoint(b);
    DigitsHaveNoPoint(c);
    SplitAtFirst(a, '.', b + ['.'] + c);
    SplitAtFirst(b, '.', c);
    SplitNoSeparator(c, '.');
    assert |Split(s, '.')| == 3;
    assert forall k :: 0 <= k < |s| ==> IsDigit(s[k]) || s[k] == '.';
    assert FirstExponentMarker(s).None?;
    assert s[0] == '.' || IsDigit(s[0]);
  }

  /** An exponent marker with no digits after it is rejected: `1e` does not parse. */
  lemma ParseRejectsBareMarker(a: string, marker: char)
    requires a != [] && AllDigits(a) && IsExponentMarker(marker)
    ensures ParseFloat(a + [marker]) == None
  {
    var s := a + [marker];
    assert s == a + [marker] + [];
    UnsignedScientific(a, marker, []);
    assert s[0] == a[0] && IsDigit(a[0]);
  }

  /** A point needs a digit on one side: `.` alone does not parse, nor do the signs alone. */
  lemma ParseRejectsNoDigits()
    ensures ParseFloat(".") == None
    ensures ParseFloat("+") == None && ParseFloat("-") == None && ParseFloat("") == None
  {
    assert "." == [] + ['.'] + [];
    SplitAtFirst([], '.', []);
    SplitNoSeparator([], '.');
    assert "+"[1..] == [] && "-"[1..] == [];
  }
}
