/**
 * The column transformer for PostgreSQL range values written `[lower,upper)`
 * (the half-open form of the range input/output syntax, section 8.17.5 of
 * the PostgreSQL manual).
 *
 * `From` reads a stored range with the pattern /\[(.*),(.*)\)/u and
 * `parseFloat`; `To` writes one with a template string. Numbers are modelled
 * as the integers plus NaN and the two infinities; fractions and exponents
 * are not modelled.
 */
module RangeTransformer {
  import opened Wrappers

  const InvalidRangeFormat := "Invalid range format"

  // ---------------------------------------------------------------------------
  // JavaScript numbers: rendering and parseFloat
  // ---------------------------------------------------------------------------

  datatype Number = Int(value: int) | NaN | PosInfinity | NegInfinity

  datatype Range = Range(minimum: Number, maximum: Number)

  predicate IsDigit(c: char) {
    '0' <= c <= '9'
  }

  predicate AllDigits(s: string) {
    forall k :: 0 <= k < |s| ==> IsDigit(s[k])
  }

  function DigitChar(d: nat): (c: char)
    requires d < 10
    ensures IsDigit(c) && (c == '0' <==> d == 0)
  {
    ('0' as int + d) as char
  }

  /** Decimal notation of a natural number, without leading zeros. */
  function NatToString(n: nat): (s: string)
    ensures |s| >= 1 && AllDigits(s)
    ensures |s| > 1 ==> s[0] != '0'
    decreases n
  {
    if n < 10 then [DigitChar(n)] else NatToString(n / 10) + [DigitChar(n % 10)]
  }

  /** The value of a string of decimal digits. */
  function DigitsValue(s: string): nat
    requires AllDigits(s)
  {
    if |s| == 0 then 0 else DigitsValue(s[..|s| - 1]) * 10 + (s[|s| - 1] as int - '0' as int)
  }

  lemma {:induction false} NatToStringRoundTrip(n: nat)
    ensures DigitsValue(NatToString(n)) == n
    decreases n
  {
    if n >= 10 {
      var s := NatToString(n);
      assert s[..|s| - 1] == NatToString(n / 10);
      NatToStringRoundTrip(n / 10);
    }
  }

  /** `String(x)` (and `${x}`) for the modelled numbers; it never writes an empty string. */
  function NumberToString(x: Number): (s: string)
    ensures |s| >= 1
  {
    match x
    case Int(n) => if n < 0 then "-" + NatToString(-n) else NatToString(n)
    case NaN => "NaN"
    case PosInfinity => "Infinity"
    case NegInfinity => "-Infinity"
  }

  /** The characters `parseFloat` skips at the start: white space and line terminators. */
  predicate IsWhiteSpace(c: char) {
    || c == '\t' || c == '\n' || c == '\U{000B}' || c == '\U{000C}' || c == '\r' || c == ' '
    || c == '\U{00A0}' || c == '\U{1680}' || ('\U{2000}' <= c <= '\U{200A}')
    || c == '\U{2028}' || c == '\U{2029}' || c == '\U{202F}' || c == '\U{205F}'
    || c == '\U{3000}' || c == '\U{FEFF}'
  }

  function TrimStart(s: string): (t: string)
    ensures |t| <= |s| && t == s[|s| - |t|..]
    ensures |t| > 0 ==> !IsWhiteSpace(t[0])
    decreases |s|
  {
    if |s| > 0 && IsWhiteSpace(s[0]) then TrimStart(s[1..]) else s
  }

  /** The longest prefix made of decimal digits. */
  function LeadingDigits(s: string): (d: string)
    ensures |d| <= |s| && d == s[..|d|] && AllDigits(d)
    ensures |d| < |s| ==> !IsDigit(s[|d|])
    decreases |s|
  {
    if |s| > 0 && IsDigit(s[0]) then [s[0]] + LeadingDigits(s[1..]) else []
  }

  predicate StartsWithInfinity(s: string) {
    |s| >= 8 && s[..8] == "Infinity"
  }

  /** `parseFloat` after the optional sign: "Infinity", or the leading digits, or NaN when there are none. */
  function ParseUnsigned(s: string, negative: bool): Number {
    if StartsWithInfinity(s) then
      if negative then NegInfinity else PosInfinity
    else
      var digits := LeadingDigits(s);
      if digits == "" then NaN
      else if negative then Int(-(DigitsValue(digits) as int))
      else Int(DigitsValue(digits))
  }

  /**
   * `parseFloat`: skip leading white space, read an optional sign, then the
   * longest numeric prefix; whatever follows is ignored.
   */
  function ParseFloat(s: string): Number {
    var t := TrimStart(s);
    if |t| > 0 && t[0] == '-' then ParseUnsigned(t[1..], true)
    else if |t| > 0 && t[0] == '+' then ParseUnsigned(t[1..], false)
    else ParseUnsigned(t, false)
  }


  lemma LeadingDigitsOfDigits(s: string)
    requires AllDigits(s)
    ensures LeadingDigits(s) == s
  {
  }

  lemma DigitsAreNotInfinity(s: string)
    requires |s| >= 1 && IsDigit(s[0])
    ensures !StartsWithInfinity(s)
  {
    if |s| >= 8 {
      assert s[..8][0] == s[0];
    }
  }

  lemma ParseAllDigits(s: string, negative: bool)
    requires |s| >= 1 && AllDigits(s)
    ensures ParseUnsigned(s, negative) == if negative then Int(-(DigitsValue(s) as int)) else Int(DigitsValue(s))
  {
    LeadingDigitsOfDigits(s);
    DigitsAreNotInfinity(s);
  }

  lemma TrimStartKeeps(s: string)
    requires |s| > 0 && !IsWhiteSpace(s[0])
    ensures TrimStart(s) == s
  {
  }

  /** Nothing but white space reads as NaN. */
  lemma ParseFloatOfBlank(s: string)
    requires forall k :: 0 <= k < |s| ==> IsWhiteSpace(s[k])
    ensures ParseFloat(s) == NaN
  {
    assert TrimStart(s) == "" by { TrimStartBlank(s); }
  }

  lemma {:induction false} TrimStartBlank(s: string)
    requires forall k :: 0 <= k < |s| ==> IsWhiteSpace(s[k])
    ensures TrimStart(s) == ""
    decreases |s|
  {
    if |s| > 0 {
      assert forall k :: 0 <= k < |s[1..]| ==> IsWhiteSpace(s[1..][k]) by {
        forall k | 0 <= k < |s[1..]| ensures IsWhiteSpace(s[1..][k]) { assert s[1..][k] == s[k + 1]; }
      }
      TrimStartBlank(s[1..]);
    }
  }

  lemma ParseFloatOfNegative(n: nat)
    requires n > 0
    ensures ParseFloat("-" + NatToString(n)) == Int(-(n as int))
  {
    var digits := NatToString(n);
    var s := "-" + digits;
    TrimStartKeeps(s);
    assert s[1..] == digits;
    ParseAllDigits(digits, true);
    NatToStringRoundTrip(n);
  }

  /** A non-empty string of decimal digits reads as its value. */
  lemma ParseFloatOfDigits(digits: string)
    requires |digits| >= 1 && AllDigits(digits)
    ensures ParseFloat(digits) == Int(DigitsValue(digits))
  {
    assert IsDigit(digits[0]);
    TrimStartKeeps(digits);
    ParseAllDigits(digits, false);
  }

  lemma ParseFloatOfNatural(n: nat)
    ensures ParseFloat(NatToString(n)) == Int(n)
  {
    ParseFloatOfDigits(NatToString(n));
    NatToStringRoundTrip(n);
  }

  lemma ParseFloatOfSpecial(x: Number)
    requires !x.Int?
    ensures ParseFloat(NumberToString(x)) == x
  {
    var s := NumberToString(x);
    TrimStartKeeps(s);
    match x
    case NaN =>
      assert !StartsWithInfinity(s);
      assert LeadingDigits(s) == "";
    case PosInfinity =>
      assert StartsWithInfinity(s);
    case NegInfinity =>
      assert s[1..] == "Infinity";
      assert StartsWithInfinity(s[1..]);
  }

  /** Reading back what `String(x)` wrote gives `x` again. */
  lemma ParseFloatOfNumberToString(x: Number)
    ensures ParseFloat(NumberToString(x)) == x
  {
    if x.Int? {
      ParseFloatOfInt(x.value);
    } else {
      ParseFloatOfSpecial(x);
    }
  }

  lemma ParseFloatOfInt(n: int)
    ensures ParseFloat(NumberToString(Int(n))) == Int(n)
  {
    if n < 0 {
      var m: nat := -n;
      ParseFloatOfNegative(m);
      assert NumberToString(Int(n)) == "-" + NatToString(m);
    } else {
      ParseFloatOfNatural(n);
      assert NumberToString(Int(n)) == NatToString(n);
    }
  }

  // ---------------------------------------------------------------------------
  // The pattern /\[(.*),(.*)\)/u
  // ---------------------------------------------------------------------------

  /** `.` matches every character except these. */
  predicate IsLineTerminator(c: char) {
    c == '\n' || c == '\r' || c == '\U{2028}' || c == '\U{2029}'
  }

  predicate NoLineTerminator(s: string, lo: int, hi: int)
    requires 0 <= lo <= hi <= |s|
  {
    forall m :: lo <= m < hi ==> !IsLineTerminator(s[m])
  }

  /** The pattern matches at `open` with the comma at `comma` and the parenthesis at `close`. */
  predicate MatchesWith(s: string, open: int, comma: int, close: int) {
    && 0 <= open < comma < close < |s|
    && s[open] == '[' && s[comma] == ',' && s[close] == ')'
    && NoLineTerminator(s, open + 1, close)
  }

  /** Some match of the pattern starts at `open`. */
  ghost predicate CanMatchAt(s: string, open: int) {
    exists comma, close :: MatchesWith(s, open, comma, close)
  }

  /** Positions of the bracket, the separating comma and the closing parenthesis of a match. */
  datatype Match = Match(open: nat, comma: nat, close: nat)

  /** The first line terminator at or after `i`, or the end of the string. */
  function LineEnd(s: string, i: nat): (e: nat)
    requires i <= |s|
    ensures i <= e <= |s| && NoLineTerminator(s, i, e)
    ensures e < |s| ==> IsLineTerminator(s[e])
    decreases |s| - i
  {
    if i == |s| || IsLineTerminator(s[i]) then i else LineEnd(s, i + 1)
  }

  /** The last position in `[lo, hi)` holding `c`. */
  function LastIndexIn(s: string, c: char, lo: nat, hi: nat): (r: Option<nat>)
    requires lo <= hi <= |s|
    ensures r.Some? ==> lo <= r.value < hi && s[r.value] == c && forall m :: r.value < m < hi ==> s[m] != c
    ensures r.None? ==> forall m :: lo <= m < hi ==> s[m] != c
    decreases hi - lo
  {
    if lo == hi then None
    else if s[hi - 1] == c then Some(hi - 1)
    else LastIndexIn(s, c, lo, hi - 1)
  }

  /**
   * Matching at one start position, with the backtracking of the two greedy
   * groups resolved: the closing parenthesis is the last one on the line and
   * the comma is the last one before it.
   */
  function MatchAt(s: string, open: nat): (r: Option<Match>)
    requires open < |s|
    ensures r.Some? ==> r.value.open == open && MatchesWith(s, open, r.value.comma, r.value.close)
    ensures r.None? ==> !CanMatchAt(s, open)
    ensures r.Some? ==> forall comma, close :: MatchesWith(s, open, comma, close) ==>
                          comma <= r.value.comma && close <= r.value.close
  {
    if s[open] != '[' then None
    else
      var end := LineEnd(s, open + 1);
      match LastIndexIn(s, ')', open + 1, end)
      case None => None
      case Some(close) =>
        match LastIndexIn(s, ',', open + 1, close)
        case None => None
        case Some(comma) => Some(Match(open, comma, close))
  }

  /** `regex.exec(value)`: try each start position from `from` onward; the leftmost match wins. */
  function Exec(s: string, from: nat): (r: Option<Match>)
    requires from <= |s|
    ensures r.None? <==> forall i :: from <= i < |s| ==> !CanMatchAt(s, i)
    ensures r.Some? ==> && from <= r.value.open
                        && MatchesWith(s, r.value.open, r.value.comma, r.value.close)
                        && (forall i :: from <= i < r.value.open ==> !CanMatchAt(s, i))
                        && (forall comma, close :: MatchesWith(s, r.value.open, comma, close) ==>
                              comma <= r.value.comma && close <= r.value.close)
    decreases |s| - from
  {
    if from == |s| then None
    else
      match MatchAt(s, from)
      case Some(m) =>
        assert CanMatchAt(s, from) by { assert MatchesWith(s, from, m.comma, m.close); }
        Some(m)
      case None => Exec(s, from + 1)
  }

  /** The two captured groups of a match. */
  function Lower(s: string, m: Match): string
    requires m.open < m.comma < m.close <= |s|
  {
    s[m.open + 1..m.comma]
  }

  function Upper(s: string, m: Match): string
    requires m.open < m.comma < m.close <= |s|
  {
    s[m.comma + 1..m.close]
  }

  // ---------------------------------------------------------------------------
  // The transformer
  // ---------------------------------------------------------------------------

  /**
   * `from`: a value with no match, or whose match captured an empty bound,
   * is an error; otherwise both captured bounds go through `parseFloat`.
   */
  function From(value: string): (r: Result<Range, string>)
    ensures r.Err? ==> r.error == InvalidRangeFormat
    ensures Exec(value, 0).None? ==> r.Err?
    ensures Exec(value, 0).Some? ==>
      var m := Exec(value, 0).value;
      var lower, upper := Lower(value, m), Upper(value, m);
      && (r.Err? <==> lower == "" || upper == "")
      && (r.Ok? ==> r.value == Range(ParseFloat(lower), ParseFloat(upper)))
  {
    match Exec(value, 0)
    case None => Err(InvalidRangeFormat)
    case Some(m) =>
      var lower := Lower(value, m);
      var upper := Upper(value, m);
      if lower == "" || upper == "" then Err(InvalidRangeFormat)
      else Ok(Range(ParseFloat(lower), ParseFloat(upper)))
  }

  /** A rendered number holds none of the pattern's delimiters and no line terminator. */
  lemma NumberToStringIsPlain(x: Number)
    ensures forall k :: 0 <= k < |NumberToString(x)| ==>
      var c := NumberToString(x)[k]; c != ',' && c != ')' && !IsLineTerminator(c)
  {
    match x
    case Int(n) =>
      var digits := NatToString(if n < 0 then -n else n);
      assert forall k :: 0 <= k < |digits| ==> IsDigit(digits[k]);
    case _ =>
  }

  /** `to`: the template `[${minimum},${maximum})`. */
  function To(value: Range): (s: string)
    ensures |s| >= 5 && s[0] == '[' && s[|s| - 1] == ')'
  {
    "[" + NumberToString(value.minimum) + "," + NumberToString(value.maximum) + ")"
  }

  /**
   * The pattern `From` uses finds the bracket, comma and parenthesis `To`
   * wrote, and its two groups capture exactly the two written bounds.
   */
  lemma ToCaptures(value: Range)
    ensures var s := To(value);
      var m := Match(0, 1 + |NumberToString(value.minimum)|, |s| - 1);
      && m.open < m.comma < m.close <= |s|
      && Exec(s, 0) == Some(m)
      && Lower(s, m) == NumberToString(value.minimum)
      && Upper(s, m) == NumberToString(value.maximum)
  {
    NumberToStringIsPlain(value.minimum);
    NumberToStringIsPlain(value.maximum);
    BracketedFound(To(value), NumberToString(value.minimum), NumberToString(value.maximum));
  }

  /** A value that is exactly one bracketed range: the match spans it all and captures its two bounds. */
  lemma BracketedFound(s: string, lower: string, upper: string)
    requires s == "[" + lower + "," + upper + ")"
    requires forall k :: 0 <= k < |lower| ==> !IsLineTerminator(lower[k])
    requires forall k :: 0 <= k < |upper| ==> upper[k] != ',' && !IsLineTerminator(upper[k])
    ensures var m := Match(0, 1 + |lower|, |s| - 1);
      && m.open < m.comma < m.close <= |s|
      && Exec(s, 0) == Some(m) && Lower(s, m) == lower && Upper(s, m) == upper
  {
    var comma, close := 1 + |lower|, |s| - 1;
    assert s[0] == '[' && s[comma] == ',' && s[close] == ')';
    assert forall k :: 0 < k < comma ==> s[k] == lower[k - 1];
    assert forall k :: comma < k < close ==> s[k] == upper[k - comma - 1];
    ExecFinds(s, 0, comma, close);
    assert s[1..comma] == lower;
    assert s[comma + 1..close] == upper;
  }



  /**
   * What `From` reads out of a value holding one bracketed range: text before
   * the bracket (with no other bracket in it) and after the parenthesis (with
   * no other parenthesis in it) is ignored, and the lower bound runs to the
   * last comma, so it may itself hold commas.
   */
  lemma FromEmbedded(prefix: string, lower: string, upper: string, suffix: string)
    requires '[' !in prefix && ')' !in suffix
    requires ',' !in upper && ')' !in upper
    requires forall k :: 0 <= k < |lower| ==> !IsLineTerminator(lower[k])
    requires forall k :: 0 <= k < |upper| ==> !IsLineTerminator(upper[k])
    ensures From(prefix + "[" + lower + "," + upper + ")" + suffix)
         == if lower == "" || upper == "" then Err(InvalidRangeFormat)
            else Ok(Range(ParseFloat(lower), ParseFloat(upper)))
  {
    var s := prefix + "[" + lower + "," + upper + ")" + suffix;
    EmbeddedFound(prefix, lower, upper, suffix);
    FromMatch(s, Match(|prefix|, |prefix| + 1 + |lower|, |prefix| + 2 + |lower| + |upper|));
  }

  /** The leftmost match in a laid-out value, and the bounds it captures. */
  lemma EmbeddedFound(prefix: string, lower: string, upper: string, suffix: string)
    requires '[' !in prefix && ')' !in suffix
    requires ',' !in upper && ')' !in upper
    requires forall k :: 0 <= k < |lower| ==> !IsLineTerminator(lower[k])
    requires forall k :: 0 <= k < |upper| ==> !IsLineTerminator(upper[k])
    ensures var s := prefix + "[" + lower + "," + upper + ")" + suffix;
      var m := Match(|prefix|, |prefix| + 1 + |lower|, |prefix| + 2 + |lower| + |upper|);
      && m.open < m.comma < m.close <= |s|
      && Exec(s, 0) == Some(m) && Lower(s, m) == lower && Upper(s, m) == upper
  {
    var s := prefix + "[" + lower + "," + upper + ")" + suffix;
    EmbeddedLayout(prefix, lower, upper, suffix);
    EmbeddedMatch(s, prefix, lower, upper, suffix);
    EmbeddedBounds(s, prefix, lower, upper, suffix);
  }

  /** `From` on a value whose leftmost match is `m` depends only on the two bounds `m` delimits. */
  lemma FromMatch(s: string, m: Match)
    requires m.open < m.comma < m.close <= |s|
    requires Exec(s, 0) == Some(m)
    ensures From(s) == if Lower(s, m) == "" || Upper(s, m) == "" then Err(InvalidRangeFormat)
                       else Ok(Range(ParseFloat(Lower(s, m)), ParseFloat(Upper(s, m))))
  {
  }

  /** The two bounds of a laid-out value are the pieces it was laid out from. */
  lemma EmbeddedBounds(s: string, prefix: string, lower: string, upper: string, suffix: string)
    requires var open, comma := |prefix|, |prefix| + 1 + |lower|;
      var close := comma + 1 + |upper|;
      && |s| == close + 1 + |suffix|
      && (forall k :: open < k < comma ==> s[k] == lower[k - open - 1])
      && (forall k :: comma < k < close ==> s[k] == upper[k - comma - 1])
    ensures var m := Match(|prefix|, |prefix| + 1 + |lower|, |prefix| + 2 + |lower| + |upper|);
      Lower(s, m) == lower && Upper(s, m) == upper
  {
  }

  /** Where each piece of `prefix + "[" + lower + "," + upper + ")" + suffix` sits. */
  lemma EmbeddedLayout(prefix: string, lower: string, upper: string, suffix: string)
    ensures var s := prefix + "[" + lower + "," + upper + ")" + suffix;
      var open, comma := |prefix|, |prefix| + 1 + |lower|;
      var close := comma + 1 + |upper|;
      && |s| == close + 1 + |suffix|
      && s[open] == '[' && s[comma] == ',' && s[close] == ')'
      && (forall k :: 0 <= k < open ==> s[k] == prefix[k])
      && (forall k :: open < k < comma ==> s[k] == lower[k - open - 1])
      && (forall k :: comma < k < close ==> s[k] == upper[k - comma - 1])
      && (forall k :: close < k < |s| ==> s[k] == suffix[k - close - 1])
  {
  }

  /** The match found in a laid-out value: its own bracket, its last comma and its last parenthesis. */
  lemma EmbeddedMatch(s: string, prefix: string, lower: string, upper: string, suffix: string)
    requires '[' !in prefix && ')' !in suffix
    requires ',' !in upper && ')' !in upper
    requires forall k :: 0 <= k < |lower| ==> !IsLineTerminator(lower[k])
    requires forall k :: 0 <= k < |upper| ==> !IsLineTerminator(upper[k])
    requires var open, comma := |prefix|, |prefix| + 1 + |lower|;
      var close := comma + 1 + |upper|;
      && |s| == close + 1 + |suffix|
      && s[open] == '[' && s[comma] == ',' && s[close] == ')'
      && (forall k :: 0 <= k < open ==> s[k] == prefix[k])
      && (forall k :: open < k < comma ==> s[k] == lower[k - open - 1])
      && (forall k :: comma < k < close ==> s[k] == upper[k - comma - 1])
      && (forall k :: close < k < |s| ==> s[k] == suffix[k - close - 1])
    ensures Exec(s, 0) == Some(Match(|prefix|, |prefix| + 1 + |lower|, |prefix| + 2 + |lower| + |upper|))
  {
    ExecFinds(s, |prefix|, |prefix| + 1 + |lower|, |prefix| + 2 + |lower| + |upper|);
  }

  /**
   * The leftmost match, when no bracket comes before it, no comma sits
   * between its comma and its parenthesis, and no parenthesis follows it.
   */
  lemma ExecFinds(s: string, open: nat, comma: nat, close: nat)
    requires MatchesWith(s, open, comma, close)
    requires forall k :: 0 <= k < open ==> s[k] != '['
    requires forall k :: comma < k < close ==> s[k] != ','
    requires forall k :: close < k < |s| ==> s[k] != ')'
    ensures Exec(s, 0) == Some(Match(open, comma, close))
  {
    assert CanMatchAt(s, open);
    var m := Exec(s, 0).value;
    assert m.open == open;
  }

  /** Every range survives being written and read back. */
  lemma FromTo(r: Range)
    ensures From(To(r)) == Ok(r)
  {
    var s := To(r);
    var m := Match(0, 1 + |NumberToString(r.minimum)|, |s| - 1);
    ToCaptures(r);
    assert Lower(s, m) != "" && Upper(s, m) != "";
    FromMatch(s, m);
    ParseFloatOfNumberToString(r.minimum);
    ParseFloatOfNumberToString(r.maximum);
  }

  /** Without a `[ ... , ... )` on one line the value is refused. */
  lemma FromRejectsNoMatch(value: string)
    requires forall i :: 0 <= i < |value| ==> !CanMatchAt(value, i)
    ensures From(value) == Err(InvalidRangeFormat)
  {
  }

  /** An empty bound is refused even though the pattern matches. */
  lemma FromRejectsEmptyBounds()
    ensures From("[,5)") == Err(InvalidRangeFormat)
    ensures From("[1,)") == Err(InvalidRangeFormat)
  {
    assert "[,5)" == "" + "[" + "" + "," + "5" + ")" + "";
    FromEmbedded("", "", "5", "");
    assert "[1,)" == "" + "[" + "1" + "," + "" + ")" + "";
    FromEmbedded("", "1", "", "");
  }

  /**
   * The first group is greedy: in "[1,2,3)" it captures "1,2", which
   * `parseFloat` reads as 1, so the range read is 1 to 3.
   */
  lemma FromIsGreedy(low: string, mid: string, high: string)
    requires |low| >= 1 && AllDigits(low) && AllDigits(mid) && |high| >= 1 && AllDigits(high)
    ensures From("[" + (low + "," + mid) + "," + high + ")") == Ok(Range(Int(DigitsValue(low)), Int(DigitsValue(high))))
  {
    var lower := low + "," + mid;
    var s := "[" + lower + "," + high + ")";
    DigitsAroundComma(low, mid);
    assert forall k :: 0 <= k < |high| ==> IsDigit(high[k]);
    BracketedFound(s, lower, high);
    FromMatch(s, Match(0, 1 + |lower|, |s| - 1));
    ParseFloatStopsAtComma(low, mid);
    ParseFloatOfDigits(high);
  }

  lemma DigitsAroundComma(low: string, mid: string)
    requires AllDigits(low) && AllDigits(mid)
    ensures forall k :: 0 <= k < |low + "," + mid| ==> !IsLineTerminator((low + "," + mid)[k])
  {
    var lower := low + "," + mid;
    forall k | 0 <= k < |lower| ensures !IsLineTerminator(lower[k]) {
      if k < |low| { assert lower[k] == low[k]; }
      else if k > |low| { assert lower[k] == mid[k - |low| - 1]; }
    }
  }


  /** `parseFloat` reads the digits before a comma and ignores the comma and everything after it. */
  lemma ParseFloatStopsAtComma(digits: string, rest: string)
    requires |digits| >= 1 && AllDigits(digits)
    ensures ParseFloat(digits + "," + rest) == Int(DigitsValue(digits))
  {
    var s := digits + "," + rest;
    assert IsDigit(s[0]);
    TrimStartKeeps(s);
    DigitsAreNotInfinity(s);
    LeadingDigitsBeforeComma(digits, rest);
  }

  lemma {:induction false} LeadingDigitsBeforeComma(digits: string, rest: string)
    requires AllDigits(digits)
    ensures LeadingDigits(digits + "," + rest) == digits
    decreases |digits|
  {
    if |digits| > 0 {
      assert (digits + "," + rest)[1..] == digits[1..] + "," + rest;
      LeadingDigitsBeforeComma(digits[1..], rest);
    }
  }
}
