/**
  Models of the two .NET parsers used on numeric literal text:
  `int.TryParse(string)` (NumberStyles.Integer) and `decimal.TryParse(string)`
  (NumberStyles.Number), with an invariant culture: `-` and `+` as signs and
  `.` as the decimal point.
*/
module NumberParsing {
  import opened Wrappers
  import Text

  const MinInt32: int := -0x8000_0000
  const MaxInt32: int := 0x7FFF_FFFF

  /** The white space NumberStyles.AllowLeadingWhite / AllowTrailingWhite accept. */
  const NumberWhite: set<char> := {'\t', '\n', '\U{B}', '\U{C}', '\r', ' '}

  /** A .NET `decimal` as it is built from text: `unscaled / 10^scale`, keeping the scale written. */
  datatype Decimal = Decimal(unscaled: int, scale: nat)

  predicate IsDigit(c: char) {
    '0' <= c <= '9'
  }

  predicate AllDigits(s: string) {
    forall k :: 0 <= k < |s| ==> IsDigit(s[k])
  }

  /** The number an all-digit string spells in base ten. */
  function DigitsValue(s: string): nat
    requires AllDigits(s)
  {
    if s == [] then 0
    else DigitsValue(s[..|s| - 1]) * 10 + ((s[|s| - 1] as int) - ('0' as int))
  }

  /** The shortest decimal numeral of `n`: the inverse of `DigitsValue`. */
  function NatText(n: nat): (s: string)
    ensures s != [] && AllDigits(s)
    ensures s[0] != '0' || n == 0
  {
    var d := [('0' as int + n % 10) as char];
    if n < 10 then d else NatText(n / 10) + d
  }

  /** An optional leading sign: whether it is `-`, and the text after it. */
  function SplitSign(s: string): (bool, string) {
    if s != [] && s[0] == '-' then (true, s[1..])
    else if s != [] && s[0] == '+' then (false, s[1..])
    else (false, s)
  }

  function Signed(negative: bool, n: int): int {
    if negative then -n else n
  }

  /**
    `int.TryParse`: optional white space, an optional sign, one or more ASCII
    digits, optional white space, and a value that fits in 32 bits.
  */
  function ParseInt32(text: string): (r: Option<int>)
    ensures r.Some? ==> MinInt32 <= r.value <= MaxInt32
  {
    ParseTrimmedInt32(Text.Trim(text, NumberWhite))
  }

  /** `int.TryParse` once the surrounding white space is gone. */
  function ParseTrimmedInt32(t: string): (r: Option<int>)
    ensures r.Some? ==> MinInt32 <= r.value <= MaxInt32
  {
    var (negative, digits) := SplitSign(t);
    if digits != [] && AllDigits(digits) && MinInt32 <= Signed(negative, DigitsValue(digits)) <= MaxInt32
    then Some(Signed(negative, DigitsValue(digits)))
    else None
  }

  /** The position of the first `.` in `s`, if there is one. */
  function IndexOfPoint(s: string): (r: Option<nat>)
    ensures r.Some? ==> r.value < |s| && s[r.value] == '.'
    ensures r.Some? ==> forall k :: 0 <= k < r.value ==> s[k] != '.'
    ensures r.None? ==> forall k :: 0 <= k < |s| ==> s[k] != '.'
  {
    if s == [] then None
    else if s[0] == '.' then Some(0)
    else match IndexOfPoint(s[1..])
      case None => None
      case Some(i) => Some(i + 1)
  }

  /**
    `s` without its first `.`, and how many characters followed that point
    (zero when there is none): the digits of a decimal and its scale.
  */
  function RemovePoint(s: string): (r: (string, nat))
    ensures r.1 <= |r.0|
    ensures (r.0 == s && r.1 == 0)
            || (|s| == |r.0| + 1 && s == r.0[..|r.0| - r.1] + "." + r.0[|r.0| - r.1..])
  {
    match IndexOfPoint(s)
    case None => (s, 0)
    case Some(p) =>
      DropAtSplits(s, p);
      (s[..p] + s[p + 1..], |s| - p - 1)
  }

  /** Dropping the point at `p` and putting it back at `p` restores `s`. */
  lemma DropAtSplits(s: string, p: nat)
    requires p < |s| && s[p] == '.'
    ensures var d := s[..p] + s[p + 1..];
            |d| + 1 == |s| && s == d[..p] + "." + d[p..]
  {
    var d := s[..p] + s[p + 1..];
    assert d[..p] == s[..p] && d[p..] == s[p + 1..];
    assert s == s[..p] + "." + s[p + 1..];
  }

  /**
    `decimal.TryParse`: optional white space, an optional sign, digits with at
    most one `.` among them and at least one digit, optional white space. The
    scale is the number of digits after the point.
  */
  function ParseDecimal(text: string): (r: Option<Decimal>)
    ensures r.Some? ==> r.value.scale < |text|
  {
    ParseTrimmedDecimal(Text.Trim(text, NumberWhite))
  }

  /** `decimal.TryParse` once the surrounding white space is gone; the scale counts digits written after the point. */
  function ParseTrimmedDecimal(t: string): (r: Option<Decimal>)
    ensures r.Some? ==> r.value.scale < |t|
  {
    var (negative, body) := SplitSign(t);
    var (digits, scale) := RemovePoint(body);
    if digits != [] && AllDigits(digits)
    then Some(Decimal(Signed(negative, DigitsValue(digits)), scale))
    else None
  }

  /** `DigitsValue` reads back exactly the number `NatText` wrote. */
  lemma {:induction false} NatTextRoundTrip(n: nat)
    ensures DigitsValue(NatText(n)) == n
  {
    var d := [('0' as int + n % 10) as char];
    if n >= 10 {
      NatTextRoundTrip(n / 10);
      var s := NatText(n / 10) + d;
      assert s[..|s| - 1] == NatText(n / 10);
    }
  }

  /** No digit, sign or point is number white space, so trimming keeps such text whole. */
  lemma TrimKeepsNumeral(s: string)
    requires s != [] && !(s[0] in NumberWhite) && !(s[|s| - 1] in NumberWhite)
    ensures Text.Trim(s, NumberWhite) == s
  {
    Text.TrimKeeps(s, NumberWhite);
  }

  /** A string of digits parses as an `int` exactly when its value fits in 32 bits. */
  lemma ParseInt32Digits(s: string)
    requires s != [] && AllDigits(s)
    ensures ParseInt32(s) == if DigitsValue(s) <= MaxInt32 then Some(DigitsValue(s)) else None
  {
    TrimKeepsNumeral(s);
    TrimmedInt32Digits(s);
  }

  lemma TrimmedInt32Digits(s: string)
    requires s != [] && AllDigits(s)
    ensures ParseTrimmedInt32(s) == if DigitsValue(s) <= MaxInt32 then Some(DigitsValue(s)) else None
  {
    assert SplitSign(s) == (false, s);
  }

  /** A string of digits parses as a `decimal` of scale zero, with no upper bound. */
  lemma ParseDecimalDigits(s: string)
    requires s != [] && AllDigits(s)
    ensures ParseDecimal(s) == Some(Decimal(DigitsValue(s), 0))
  {
    TrimKeepsNumeral(s);
    TrimmedDecimalDigits(s);
  }

  lemma TrimmedDecimalDigits(s: string)
    requires s != [] && AllDigits(s)
    ensures ParseTrimmedDecimal(s) == Some(Decimal(DigitsValue(s), 0))
  {
    assert SplitSign(s) == (false, s);
    IndexOfPointNone(s);
    assert RemovePoint(s) == (s, 0);
  }

  /** `whole.fraction` with a digit in front is kept whole by trimming. */
  lemma TrimKeepsPointed(whole: string, fraction: string)
    requires whole != [] && AllDigits(whole) && AllDigits(fraction)
    ensures Text.Trim(whole + "." + fraction, NumberWhite) == whole + "." + fraction
    ensures SplitSign(whole + "." + fraction) == (false, whole + "." + fraction)
  {
    var s := whole + "." + fraction;
    assert s[0] == whole[0];
    assert s[|s| - 1] == if fraction == [] then '.' else fraction[|fraction| - 1];
    TrimKeepsNumeral(s);
  }

  /** `whole.fraction` parses as the decimal whose scale is the number of fraction digits. */
  lemma ParseDecimalPoint(whole: string, fraction: string)
    requires whole != [] && AllDigits(whole) && AllDigits(fraction)
    ensures AllDigits(whole + fraction)
    ensures ParseDecimal(whole + "." + fraction)
            == Some(Decimal(DigitsValue(whole + fraction), |fraction|))
  {
    TrimKeepsPointed(whole, fraction);
    RemoveFirstPoint(whole, fraction);
  }

  /** Removing the point from `whole.fraction` leaves `whole + fraction`, of scale `|fraction|`. */
  lemma RemoveFirstPoint(whole: string, fraction: string)
    requires AllDigits(whole)
    ensures RemovePoint(whole + "." + fraction) == (whole + fraction, |fraction|)
  {
    var s := whole + "." + fraction;
    assert forall k :: 0 <= k < |whole| ==> s[k] == whole[k];
    IndexOfPointAt(s, |whole|);
    assert s[..|whole|] == whole;
    assert s[|whole| + 1..] == fraction;
  }

  /** Digits hold no point. */
  lemma {:induction false} IndexOfPointNone(s: string)
    requires AllDigits(s)
    ensures IndexOfPoint(s) == None
  {
    if s != [] {
      IndexOfPointNone(s[1..]);
    }
  }

  /** A point makes a numeral something `int.TryParse` rejects. */
  lemma ParseInt32RejectsPoint(whole: string, fraction: string)
    requires whole != [] && AllDigits(whole) && AllDigits(fraction)
    ensures ParseInt32(whole + "." + fraction).None?
  {
    var s := whole + "." + fraction;
    TrimKeepsPointed(whole, fraction);
    assert !IsDigit(s[|whole|]);
  }

  /** The first point is found where it is. */
  lemma {:induction false} IndexOfPointAt(s: string, p: nat)
    requires p < |s| && s[p] == '.'
    requires forall k :: 0 <= k < p ==> s[k] != '.'
    ensures IndexOfPoint(s) == Some(p)
  {
    if p > 0 {
      IndexOfPointAt(s[1..], p - 1);
    }
  }

  /**
    Text holding a character that is neither a digit, a sign, a point, number
    white space, a group separator `,` nor a NUL is rejected by both parsers:
    suffixes such as `L`, `m` or `f`, hexadecimal `0x`, exponents and `_`
    separators all fail to parse. (`,` and trailing NULs are excluded because
    .NET accepts some placements of them, which this model does not cover.)
  */
  predicate HasForeignChar(text: string) {
    exists k :: 0 <= k < |text| && ForeignChar(text[k])
  }

  predicate ForeignChar(c: char) {
    !IsDigit(c) && c != '+' && c != '-' && c != '.' && c != ',' && c != '\0' && c !in NumberWhite
  }

  lemma ForeignCharRejected(text: string)
    requires HasForeignChar(text)
    ensures ParseInt32(text).None? && ParseDecimal(text).None?
  {
    var t := Text.Trim(text, NumberWhite);
    ForeignCharSurvivesTrim(text);
    ForeignCharSurvivesSign(t);
    var body := SplitSign(t).1;
    ForeignCharNotDigits(body);
    ForeignCharSurvivesPoint(body);
  }

  lemma ForeignCharSurvivesSign(t: string)
    requires HasForeignChar(t)
    ensures HasForeignChar(SplitSign(t).1)
  {
    var m :| 0 <= m < |t| && ForeignChar(t[m]);
    var body := SplitSign(t).1;
    if body != t {
      assert body[m - 1] == t[m];
    }
  }

  lemma ForeignCharNotDigits(s: string)
    requires HasForeignChar(s)
    ensures !AllDigits(s)
  {
  }

  lemma ForeignCharSurvivesPoint(body: string)
    requires HasForeignChar(body)
    ensures !AllDigits(RemovePoint(body).0)
  {
    var b :| 0 <= b < |body| && ForeignChar(body[b]);
    var (digits, scale) := RemovePoint(body);
    if digits == body {
      assert digits[b] == body[b];
    } else {
      var m := |digits| - scale;
      assert body == digits[..m] + "." + digits[m..];
      if b < m {
        assert digits[b] == body[b];
      } else {
        assert digits[b - 1] == body[b];
      }
    }
  }

  /** A foreign character is never number white space, so trimming cannot remove it. */
  lemma ForeignCharSurvivesTrim(text: string)
    requires HasForeignChar(text)
    ensures HasForeignChar(Text.Trim(text, NumberWhite))
  {
    var k :| 0 <= k < |text| && ForeignChar(text[k]);
    var e := Text.TrimEnd(text, NumberWhite);
    assert k < |e|;
    assert e[k] == text[k];
    var t := Text.TrimStart(e, NumberWhite);
    var i := |e| - |t|;
    assert k >= i;
    assert t[k - i] == e[k];
    assert ForeignChar(t[k - i]);
  }

  /**
    Whatever `int.TryParse` accepts, `decimal.TryParse` accepts too, as the
    same number with scale zero.
  */
  lemma Int32ParseAgreesWithDecimal(text: string)
    ensures ParseInt32(text).Some? ==> ParseDecimal(text) == Some(Decimal(ParseInt32(text).value, 0))
  {
    TrimmedInt32AgreesWithDecimal(Text.Trim(text, NumberWhite));
  }

  lemma TrimmedInt32AgreesWithDecimal(t: string)
    ensures ParseTrimmedInt32(t).Some? ==> ParseTrimmedDecimal(t) == Some(Decimal(ParseTrimmedInt32(t).value, 0))
  {
    var (negative, digits) := SplitSign(t);
    if ParseTrimmedInt32(t).Some? {
      IndexOfPointNone(digits);
      assert RemovePoint(digits) == (digits, 0);
    }
  }

  /** Number white space around a digit string is trimmed away before parsing. */
  lemma TrimPaddedNumeral(w1: string, s: string, w2: string)
    requires Text.AllIn(w1, NumberWhite) && Text.AllIn(w2, NumberWhite)
    requires s != [] && s[0] !in NumberWhite && s[|s| - 1] !in NumberWhite
    ensures Text.Trim(w1 + s + w2, NumberWhite) == s
  {
    Text.TrimSurrounded(w1, s, w2, NumberWhite);
  }

  /**
    Digits with any leading zeros and any number white space around them
    parse as an `int` exactly when their value fits in 32 bits.
  */
  lemma ParseInt32Padded(w1: string, s: string, w2: string)
    requires Text.AllIn(w1, NumberWhite) && Text.AllIn(w2, NumberWhite)
    requires s != [] && AllDigits(s)
    ensures ParseInt32(w1 + s + w2) == if DigitsValue(s) <= MaxInt32 then Some(DigitsValue(s)) else None
  {
    TrimPaddedNumeral(w1, s, w2);
    TrimmedInt32Digits(s);
  }

  /** Padded digits parse as the scale-zero `decimal` of their value. */
  lemma ParseDecimalPadded(w1: string, s: string, w2: string)
    requires Text.AllIn(w1, NumberWhite) && Text.AllIn(w2, NumberWhite)
    requires s != [] && AllDigits(s)
    ensures ParseDecimal(w1 + s + w2) == Some(Decimal(DigitsValue(s), 0))
  {
    TrimPaddedNumeral(w1, s, w2);
    TrimmedDecimalDigits(s);
  }

  /** Padded `whole.fraction` parses as the `decimal` of scale `|fraction|` and is no `int`. */
  lemma ParsePointedPadded(w1: string, whole: string, fraction: string, w2: string)
    requires Text.AllIn(w1, NumberWhite) && Text.AllIn(w2, NumberWhite)
    requires whole != [] && AllDigits(whole) && AllDigits(fraction)
    ensures AllDigits(whole + fraction)
    ensures var s := whole + "." + fraction;
            && ParseDecimal(w1 + s + w2) == Some(Decimal(DigitsValue(whole + fraction), |fraction|))
            && ParseInt32(w1 + s + w2).None?
  {
    var s := whole + "." + fraction;
    assert s[0] == whole[0];
    assert s[|s| - 1] == if fraction == [] then '.' else fraction[|fraction| - 1];
    TrimPaddedNumeral(w1, s, w2);
    ParseDecimalPoint(whole, fraction);
    ParseInt32RejectsPoint(whole, fraction);
  }
}
