/** Character classes, blank tests and decimal rendering of integers, as the
    services use them through StringUtils and String.format. */
module Text {
  import opened Results

  /** A Java String reference. */
  type NullableString = Option<string>

  /** java.lang.Character.isWhitespace: the Unicode space, line and paragraph
      separators other than the non-breaking spaces, plus the ASCII controls
      U+0009..U+000D and U+001C..U+001F. */
  predicate IsWhitespace(c: char) {
    var u := c as int;
    || 0x09 <= u <= 0x0D
    || 0x1C <= u <= 0x20
    || u == 0x1680
    || 0x2000 <= u <= 0x2006
    || 0x2008 <= u <= 0x200A
    || u == 0x2028 || u == 0x2029
    || u == 0x205F || u == 0x3000
  }

  /** StringUtils.isBlank: null, empty, or whitespace only. */
  predicate IsBlank(s: NullableString) {
    s.None? || forall i :: 0 <= i < |s.value| ==> IsWhitespace(s.value[i])
  }

  /** StringUtils.isNotBlank: non-null with at least one non-whitespace character. */
  predicate IsNotBlank(s: NullableString) {
    !IsBlank(s)
  }

  /** The edges where Java's whitespace differs from a naive reading: null and
      the empty string are blank, the information separators U+001C..U+001F
      count as whitespace, and the non-breaking spaces U+00A0, U+2007 and
      U+202F do not, so a string of them is not blank. */
  lemma JavaWhitespaceEdges()
    ensures IsBlank(None) && IsBlank(Some(""))
    ensures IsBlank(Some(" \t\n")) && !IsBlank(Some(" x "))
    ensures IsBlank(Some("\U{001C}\U{001D}\U{001E}\U{001F}"))
    ensures IsBlank(Some("\U{2000}\U{2028}\U{3000}"))
    ensures !IsBlank(Some("\U{00A0}")) && !IsBlank(Some("\U{2007}")) && !IsBlank(Some("\U{202F}"))
    ensures !IsBlank(Some("\U{0085}")) && !IsBlank(Some("\U{200B}"))
  {
    var tabbed := " \t\n";
    assert IsWhitespace(tabbed[0]) && IsWhitespace(tabbed[1]) && IsWhitespace(tabbed[2]);
    var framed := " x ";
    assert !IsWhitespace(framed[1]);
    var separators := "\U{001C}\U{001D}\U{001E}\U{001F}";
    assert forall i :: 0 <= i < 4 ==> 0x1C <= separators[i] as int <= 0x1F;
    var spaces := "\U{2000}\U{2028}\U{3000}";
    assert IsWhitespace(spaces[0]) && IsWhitespace(spaces[1]) && IsWhitespace(spaces[2]);
    var nbsp, figure, narrow := "\U{00A0}", "\U{2007}", "\U{202F}";
    assert !IsWhitespace(nbsp[0]) && !IsWhitespace(figure[0]) && !IsWhitespace(narrow[0]);
    var nextLine, zeroWidth := "\U{0085}", "\U{200B}";
    assert !IsWhitespace(nextLine[0]) && !IsWhitespace(zeroWidth[0]);
  }

  predicate IsDigit(c: char) {
    '0' <= c <= '9'
  }

  predicate AllDigits(s: string) {
    forall i :: 0 <= i < |s| ==> IsDigit(s[i])
  }

  function DigitValue(c: char): (d: nat)
    requires IsDigit(c)
    ensures d < 10
  {
    c as int - '0' as int
  }

  function DigitChar(d: nat): (c: char)
    requires d < 10
    ensures IsDigit(c) && DigitValue(c) == d
  {
    ('0' as int + d) as char
  }

  /** Decimal rendering of a natural number, most significant digit first,
      without leading zeros. */
  function NatToString(n: nat): (s: string)
    ensures |s| > 0 && AllDigits(s)
    ensures |s| > 1 ==> s[0] != '0'
    decreases n
  {
    if n < 10 then [DigitChar(n)] else NatToString(n / 10) + [DigitChar(n % 10)]
  }

  /** The value of a string of decimal digits. */
  function ParseNat(s: string): nat
    requires AllDigits(s)
    decreases |s|
  {
    if |s| == 0 then 0 else 10 * ParseNat(s[..|s| - 1]) + DigitValue(s[|s| - 1])
  }

  /** Rendering of an int by %d (and of an Integer by %s): a minus sign for
      negative values, then the decimal digits of the magnitude. */
  function IntToString(n: int): (s: string)
    ensures |s| > 0
    ensures n < 0 <==> s[0] == '-'
  {
    if n < 0 then "-" + NatToString(-n) else NatToString(n)
  }

  /** Reads back what IntToString writes; None for anything else. */
  function ParseInt(s: string): Option<int> {
    if |s| > 1 && s[0] == '-' && AllDigits(s[1..]) then Some(0 - ParseNat(s[1..]) as int)
    else if |s| > 0 && AllDigits(s) then Some(ParseNat(s))
    else None
  }

  lemma {:induction false} NatToStringRoundTrip(n: nat)
    ensures ParseNat(NatToString(n)) == n
    decreases n
  {
    if n >= 10 {
      var s := NatToString(n);
      assert s[..|s| - 1] == NatToString(n / 10);
      NatToStringRoundTrip(n / 10);
    }
  }

  /** The decimal rendering of an int can be read back: no two ints print alike. */
  lemma IntToStringRoundTrip(n: int)
    ensures ParseInt(IntToString(n)) == Some(n)
  {
    var s := IntToString(n);
    if n < 0 {
      assert s[1..] == NatToString(-n);
      NatToStringRoundTrip(-n);
    } else {
      NatToStringRoundTrip(n);
    }
  }

  lemma IntToStringInjective(a: int, b: int)
    requires IntToString(a) == IntToString(b)
    ensures a == b
  {
    IntToStringRoundTrip(a);
    IntToStringRoundTrip(b);
  }

  /** A message built as prefix + rendered id + suffix names exactly one id. */
  lemma FramedIntInjective(prefix: string, suffix: string, a: int, b: int)
    requires prefix + IntToString(a) + suffix == prefix + IntToString(b) + suffix
    ensures a == b
  {
    var x, y := IntToString(a), IntToString(b);
    var m := prefix + x + suffix;
    assert |x| == |y|;
    assert m[|prefix|..|prefix| + |x|] == x;
    assert (prefix + y + suffix)[|prefix|..|prefix| + |y|] == y;
    IntToStringInjective(a, b);
  }
}
