/**
 The loosely typed values the entity layer moves around, and the PHP 7
 conversions and comparisons the layer relies on: truthiness (`if ($x)`),
 emptiness (`$x != ''`), `trim($x) == ''`, string interpolation, numeric
 conversion and loose equality (`==`, `in_array`).
 */
module PhpValue {

  datatype Option<T> = None | Some(value: T)

  /** A field, column default or configuration value. */
  datatype Value = Null | Int(i: int) | Str(s: string) | Bool(b: bool)

  /** PHP truthiness: `null`, `false`, `0`, `""` and `"0"` are false. */
  predicate Truthy(v: Value) {
    match v
    case Null => false
    case Bool(b) => b
    case Int(i) => i != 0
    case Str(s) => s != "" && s != "0"
  }

  // ---------------------------------------------------------------- text

  function DigitChar(d: nat): (c: char)
    requires d < 10
    ensures IsDigit(c) && DigitValue(c) == d
  {
    ('0' as int + d) as char
  }

  predicate IsDigit(c: char) {
    '0' <= c <= '9'
  }

  function DigitValue(c: char): nat
    requires IsDigit(c)
  {
    (c as int - '0' as int) as nat
  }

  /** Decimal digits of a natural number, most significant first. */
  function NatToString(n: nat): (r: string)
    ensures |r| > 0
    ensures forall k :: 0 <= k < |r| ==> IsDigit(r[k])
    decreases n
  {
    if n < 10 then [DigitChar(n)] else NatToString(n / 10) + [DigitChar(n % 10)]
  }

  function IntToString(i: int): (r: string)
    ensures |r| > 0
  {
    if i < 0 then "-" + NatToString(-i) else NatToString(i)
  }

  /** The text PHP substitutes for a value inside a double-quoted string. */
  function Text(v: Value): string {
    match v
    case Null => ""
    case Bool(b) => if b then "1" else ""
    case Int(i) => IntToString(i)
    case Str(s) => s
  }

  // ------------------------------------------------------ numeric strings

  predicate AllDigits(s: string) {
    forall k :: 0 <= k < |s| ==> IsDigit(s[k])
  }

  /** Value of a digit string, most significant digit first. */
  function ParseDigits(s: string): nat
    requires AllDigits(s)
  {
    if |s| == 0 then 0 else ParseDigits(s[..|s| - 1]) * 10 + DigitValue(s[|s| - 1])
  }

  /** The whitespace PHP 7 skips before the digits of a numeric string. */
  predicate IsNumericSpace(c: char) {
    c == ' ' || c == '\t' || c == '\n' || c == '\r' || c == 11 as char || c == 12 as char
  }

  /** Length of the longest prefix of `s` made of that whitespace. */
  function SpacePrefixLength(s: string): (n: nat)
    ensures n <= |s|
    ensures forall k :: 0 <= k < n ==> IsNumericSpace(s[k])
    ensures n < |s| ==> !IsNumericSpace(s[n])
  {
    if |s| == 0 || !IsNumericSpace(s[0]) then 0 else 1 + SpacePrefixLength(s[1..])
  }

  /** `s` without its leading whitespace. */
  function SkipSpace(s: string): string {
    s[SpacePrefixLength(s)..]
  }

  /** An optional sign followed by at least one digit, and nothing else. */
  predicate IsSignedDigits(s: string) {
    if |s| > 0 && (s[0] == '-' || s[0] == '+') then |s| > 1 && AllDigits(s[1..])
    else |s| > 0 && AllDigits(s)
  }

  /** An integer numeric string: leading whitespace, then an optional sign and digits. */
  predicate IsIntString(s: string) {
    IsSignedDigits(SkipSpace(s))
  }

  function ParseSigned(s: string): int
    requires IsSignedDigits(s)
  {
    if s[0] == '-' then -(ParseDigits(s[1..]) as int)
    else if s[0] == '+' then ParseDigits(s[1..])
    else ParseDigits(s)
  }

  function ParseInt(s: string): int
    requires IsIntString(s)
  {
    ParseSigned(SkipSpace(s))
  }

  /** Length of the longest all-digit prefix of `s`. */
  function DigitPrefixLength(s: string): (n: nat)
    ensures n <= |s|
    ensures AllDigits(s[..n])
    ensures n < |s| ==> !IsDigit(s[n])
  {
    if |s| == 0 || !IsDigit(s[0]) then 0
    else
      var n := 1 + DigitPrefixLength(s[1..]);
      assert s[..n] == [s[0]] + s[1..][..n - 1];
      n
  }

  /** The leading signed digit run of `s`, 0 when there is none. */
  function LeadingInt(s: string): int {
    if |s| > 0 && (s[0] == '-' || s[0] == '+') then
      var t := s[1..];
      var m := ParseDigits(t[..DigitPrefixLength(t)]);
      if s[0] == '-' then -(m as int) else m
    else
      ParseDigits(s[..DigitPrefixLength(s)])
  }

  /**
   PHP 7 conversion of a string to an integer in arithmetic and in comparisons
   with an integer: leading whitespace is skipped, then the leading signed
   digit run is read, 0 when there is none.
   */
  function ToNumber(s: string): int {
    LeadingInt(SkipSpace(s))
  }

  /** The integer a value stands for in PHP arithmetic. */
  function AsNumber(v: Value): int {
    match v
    case Null => 0
    case Bool(b) => if b then 1 else 0
    case Int(i) => i
    case Str(s) => ToNumber(s)
  }

  // ---------------------------------------------------- loose comparison

  /**
   PHP 7 loose equality `a == b`: booleans (and `null` against a non-string)
   compare as booleans, `null` against a string compares with `""`, an integer
   against a string compares numerically, and two strings compare numerically
   only when both are numeric.
   */
  predicate LooseEq(a: Value, b: Value) {
    match (a, b)
    case (Bool(x), _) => x == Truthy(b)
    case (_, Bool(y)) => Truthy(a) == y
    case (Null, Null) => true
    case (Null, Str(t)) => t == ""
    case (Str(s), Null) => s == ""
    case (Null, Int(j)) => j == 0
    case (Int(i), Null) => i == 0
    case (Int(i), Int(j)) => i == j
    case (Int(i), Str(t)) => i == ToNumber(t)
    case (Str(s), Int(j)) => ToNumber(s) == j
    case (Str(s), Str(t)) =>
      if IsIntString(s) && IsIntString(t) then ParseInt(s) == ParseInt(t) else s == t
  }

  /** `$v == ''`: the emptiness test the layer applies to keys and fields. */
  predicate IsBlank(v: Value) {
    LooseEq(v, Str(""))
  }

  /** The characters `trim` removes by default. */
  predicate IsTrimmed(c: char) {
    c == ' ' || c == '\t' || c == '\n' || c == '\r' || c == '\0' || c == 11 as char
  }

  /** `!isset($v) || trim($v) == ''`: no value, or nothing but blanks once trimmed. */
  predicate BlankAfterTrim(v: Value) {
    match v
    case Null => true
    case Bool(b) => !b
    case Int(_) => false
    case Str(s) => forall k :: 0 <= k < |s| ==> IsTrimmed(s[k])
  }

  /** `$v < $n` for an integer bound `$n`, with PHP 7 conversions. */
  predicate LooseLess(v: Value, n: int) {
    match v
    case Null => n != 0
    case Bool(b) => !b && n != 0
    case Int(i) => i < n
    case Str(s) => ToNumber(s) < n
  }

  /** `$v > $n` for an integer bound `$n`, with PHP 7 conversions. */
  predicate LooseGreater(v: Value, n: int) {
    match v
    case Null => false
    case Bool(b) => b && n == 0
    case Int(i) => i > n
    case Str(s) => ToNumber(s) > n
  }

  /** `in_array($v, $list)`: loose membership. */
  predicate LooseIn(v: Value, list: seq<Value>) {
    exists k :: 0 <= k < |list| && LooseEq(v, list[k])
  }

  // -------------------------------------------------------------- lemmas

  /** Exactly four values are blank; `"0"` is falsy but not blank. */
  lemma BlankValues(v: Value)
    ensures IsBlank(v) <==> v == Null || v == Str("") || v == Int(0) || v == Bool(false)
  {
    assert ToNumber("") == 0 by {
      assert ""[..DigitPrefixLength("")] == "";
    }
  }

  lemma ParseDigitsAppend(s: string, c: char)
    requires AllDigits(s) && IsDigit(c)
    ensures AllDigits(s + [c])
    ensures ParseDigits(s + [c]) == ParseDigits(s) * 10 + DigitValue(c)
  {
    assert (s + [c])[..|s|] == s;
  }

  lemma {:induction false} ParseNatToString(n: nat)
    ensures AllDigits(NatToString(n))
    ensures ParseDigits(NatToString(n)) == n
    decreases n
  {
    if n < 10 {
      assert NatToString(n) == [] + [DigitChar(n)];
      ParseDigitsAppend([], DigitChar(n));
    } else {
      ParseNatToString(n / 10);
      ParseDigitsAppend(NatToString(n / 10), DigitChar(n % 10));
    }
  }

  /** Truthiness is decided by the interpolated text alone: it is neither `""` nor `"0"`. */
  lemma TruthyByText(v: Value)
    ensures Truthy(v) <==> Text(v) != "" && Text(v) != "0"
  {
    if v.Int? && v.i > 0 {
      ParseNatToString(v.i);
      assert ParseDigits("0") == 0 by {
        assert "0"[..0] == "";
      }
    }
  }

  /** A value whose text is that of a truthy value is not blank. */
  lemma SameTextAsTruthyNotBlank(v: Value, w: Value)
    requires Truthy(v) && Text(w) == Text(v)
    ensures !IsBlank(w)
  {
    TruthyByText(v);
    BlankValues(w);
  }

  /** Skipping whitespace is unaffected by more whitespace in front. */
  lemma {:induction false} SkipSpaceOfPadded(w: string, s: string)
    requires forall k :: 0 <= k < |w| ==> IsNumericSpace(w[k])
    ensures SkipSpace(w + s) == SkipSpace(s)
  {
    if |w| > 0 {
      var t := w + s;
      assert t[1..] == w[1..] + s;
      assert IsNumericSpace(t[0]);
      assert SpacePrefixLength(t) == 1 + SpacePrefixLength(t[1..]);
      assert SkipSpace(t) == SkipSpace(t[1..]);
      SkipSpaceOfPadded(w[1..], s);
    } else {
      assert w + s == s;
    }
  }

  /** Leading whitespace changes neither numeric-ness nor the number read. */
  lemma PaddedNumber(w: string, s: string)
    requires forall k :: 0 <= k < |w| ==> IsNumericSpace(w[k])
    ensures ToNumber(w + s) == ToNumber(s)
    ensures IsIntString(w + s) <==> IsIntString(s)
    ensures IsIntString(s) ==> ParseInt(w + s) == ParseInt(s)
  {
    SkipSpaceOfPadded(w, s);
  }

  /** `" 15"` is the number 15, and loosely equal to it. */
  lemma PaddedFifteen()
    ensures ToNumber(" 15") == 15
    ensures LooseEq(Str(" 15"), Int(15))
  {
    PaddedNumber(" ", "15");
    assert " " + "15" == " 15";
    assert SkipSpace("15") == "15";
    assert "15"[..DigitPrefixLength("15")] == "15";
    ParseDigitsAppend("1", '5');
    assert "1" + ['5'] == "15";
    assert ParseDigits("1") == 1 by {
      assert "1"[..0] == "";
    }
  }
}
