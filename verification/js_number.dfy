/**
 * The two JavaScript number conversions the draw cursor goes through: a
 * non-negative integer is written with `toString()` and read back with
 * `parseInt(text, 10)`. A cursor read from storage is an integer or NaN.
 */
module JsNumber {

  /** The values `parseInt(_, 10)` can produce, apart from precision loss:
      an integer (a parsed `-0` behaves as `0` everywhere the cursor is used)
      or NaN. */
  datatype Num = NaN | Int(v: int)

  predicate IsDigit(c: char)
  {
    '0' <= c <= '9'
  }

  /** ECMAScript StrWhiteSpaceChar: WhiteSpace (TAB, VT, FF, ZWNBSP and every
      Space_Separator) and LineTerminator (LF, CR, LS, PS). */
  predicate IsJsWhiteSpace(c: char)
  {
    || c == '\t' || c == '\U{000B}' || c == '\U{000C}' || c == '\U{FEFF}'
    || c == ' ' || c == '\U{00A0}' || c == '\U{1680}'
    || ('\U{2000}' <= c <= '\U{200A}')
    || c == '\U{202F}' || c == '\U{205F}' || c == '\U{3000}'
    || c == '\n' || c == '\r' || c == '\U{2028}' || c == '\U{2029}'
  }

  function DigitValue(c: char): (d: nat)
    requires IsDigit(c)
    ensures d < 10
  {
    (c as int) - ('0' as int)
  }

  function DigitChar(d: nat): (c: char)
    requires d < 10
    ensures IsDigit(c) && DigitValue(c) == d
  {
    (('0' as int) + d) as char
  }

  /** Drops leading white space. */
  function TrimStart(s: string): (r: string)
    ensures |r| <= |s| && r == s[|s| - |r|..]
    ensures r != [] ==> !IsJsWhiteSpace(r[0])
    ensures forall k :: 0 <= k < |s| - |r| ==> IsJsWhiteSpace(s[k])
  {
    if s != [] && IsJsWhiteSpace(s[0]) then TrimStart(s[1..]) else s
  }

  /** The length of the longest prefix of decimal digits. */
  function DigitRun(s: string): (n: nat)
    ensures n <= |s|
    ensures forall k :: 0 <= k < n ==> IsDigit(s[k])
    ensures n < |s| ==> !IsDigit(s[n])
  {
    if s != [] && IsDigit(s[0]) then 1 + DigitRun(s[1..]) else 0
  }

  /** The value of a string of decimal digits, most significant first. */
  function DigitsValue(d: string): nat
    requires forall k :: 0 <= k < |d| ==> IsDigit(d[k])
  {
    if d == [] then 0 else DigitsValue(d[..|d| - 1]) * 10 + DigitValue(d[|d| - 1])
  }

  /** `parseInt(s, 10)`: skip white space, take an optional sign, then the
      longest run of decimal digits; no digits gives NaN. */
  function ParseInt(s: string): (n: Num)
    ensures n.Int? <==> (var t := TrimStart(s);
                         var u := if t != [] && (t[0] == '+' || t[0] == '-') then t[1..] else t;
                         u != [] && IsDigit(u[0]))
    ensures s != [] && IsDigit(s[0]) ==> n.Int? && n.v >= 0
  {
    var t := TrimStart(s);
    var negative := t != [] && t[0] == '-';
    var u := if t != [] && (t[0] == '+' || t[0] == '-') then t[1..] else t;
    var k := DigitRun(u);
    var magnitude: int := if k == 0 then 0 else DigitsValue(u[..k]);
    if k == 0 then NaN
    else if negative then Int(-magnitude)
    else Int(magnitude)
  }

  /** `n.toString()` for a non-negative integer: its decimal digits, with no
      leading zero. */
  function NatToString(n: nat): (s: string)
    ensures s != []
    ensures forall k :: 0 <= k < |s| ==> IsDigit(s[k])
    ensures |s| > 1 ==> s[0] != '0'
  {
    if n < 10 then [DigitChar(n)] else NatToString(n / 10) + [DigitChar(n % 10)]
  }

  lemma {:induction false} DigitsOfNatToString(n: nat)
    ensures DigitsValue(NatToString(n)) == n
  {
    if n >= 10 {
      DigitsOfNatToString(n / 10);
      var s := NatToString(n);
      assert s[..|s| - 1] == NatToString(n / 10);
    }
  }

  /** The cursor round trip: writing a non-negative integer and parsing the
      text back yields the same integer. */
  lemma ParseIntNatToString(n: nat)
    ensures ParseInt(NatToString(n)) == Int(n)
  {
    var s := NatToString(n);
    assert !IsJsWhiteSpace(s[0]);
    assert TrimStart(s) == s;
    assert DigitRun(s) == |s|;
    assert s[..|s|] == s;
    DigitsOfNatToString(n);
  }

  /** The other direction: canonical decimal text (digits, no leading zero)
      is exactly what `toString` writes for the value it parses to. */
  lemma {:induction false} NatToStringDigitsValue(d: string)
    requires d != [] && forall k :: 0 <= k < |d| ==> IsDigit(d[k])
    requires |d| > 1 ==> d[0] != '0'
    ensures NatToString(DigitsValue(d)) == d
  {
    var init := d[..|d| - 1];
    if |d| > 1 {
      NatToStringDigitsValue(init);
      LeadingDigitPositive(init);
      assert d == init + [d[|d| - 1]];
    } else {
      assert DigitsValue(d) == DigitValue(d[0]);
    }
  }

  /** A digit string not starting with `0` has a positive value. */
  lemma {:induction false} LeadingDigitPositive(d: string)
    requires d != [] && forall k :: 0 <= k < |d| ==> IsDigit(d[k])
    requires d[0] != '0'
    ensures DigitsValue(d) >= 1
  {
    if |d| > 1 {
      LeadingDigitPositive(d[..|d| - 1]);
    }
  }
}
