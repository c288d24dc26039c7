/**
  The two string-to-number conversions the services use, on mathematical
  integers: the global `parseInt(s)` with no radix argument (gateway), and the
  unary plus `+s` (project lookup). `None` stands for NaN.
 */
module JsNumbers {
  import opened Wrappers

  /** The characters ECMAScript trims: WhiteSpace and LineTerminator. */
  predicate IsJsSpace(c: char) {
    c == '\t' || c == '\n' || c == '\U{000B}' || c == '\U{000C}' || c == '\r' || c == ' '
    || c == '\U{00A0}' || c == '\U{1680}' || ('\U{2000}' <= c <= '\U{200A}')
    || c == '\U{2028}' || c == '\U{2029}' || c == '\U{202F}' || c == '\U{205F}'
    || c == '\U{3000}' || c == '\U{FEFF}'
  }

  function TrimStart(s: string): string {
    if |s| > 0 && IsJsSpace(s[0]) then TrimStart(s[1..]) else s
  }

  function TrimEnd(s: string): string {
    if |s| > 0 && IsJsSpace(s[|s| - 1]) then TrimEnd(s[..|s| - 1]) else s
  }

  /** TrimStart drops the leading white space and nothing else. */
  lemma {:induction false} TrimStartDrops(s: string)
    ensures var r := TrimStart(s);
      && |r| <= |s| && r == s[|s| - |r|..]
      && (|r| > 0 ==> !IsJsSpace(r[0]))
      && forall i :: 0 <= i < |s| - |r| ==> IsJsSpace(s[i])
    decreases |s|
  {
    if |s| > 0 && IsJsSpace(s[0]) {
      TrimStartDrops(s[1..]);
      var r := TrimStart(s);
      assert s[1..][|s| - 1 - |r|..] == s[|s| - |r|..];
    }
  }

  /** TrimEnd drops the trailing white space and nothing else. */
  lemma {:induction false} TrimEndDrops(s: string)
    ensures var r := TrimEnd(s);
      && |r| <= |s| && r == s[..|r|]
      && (|r| > 0 ==> !IsJsSpace(r[|r| - 1]))
      && forall i :: |r| <= i < |s| ==> IsJsSpace(s[i])
    decreases |s|
  {
    if |s| > 0 && IsJsSpace(s[|s| - 1]) {
      TrimEndDrops(s[..|s| - 1]);
      var r := TrimEnd(s);
      assert s[..|s| - 1][..|r|] == s[..|r|];
    }
  }

  /** The value of a letter-or-digit as a digit in radix 36. */
  function DigitValue(c: char): (r: Option<nat>)
    ensures r.Some? ==> r.value < 36
  {
    if '0' <= c <= '9' then Some(c as int - '0' as int)
    else if 'a' <= c <= 'z' then Some(c as int - 'a' as int + 10)
    else if 'A' <= c <= 'Z' then Some(c as int - 'A' as int + 10)
    else None
  }

  predicate IsDigit(c: char, radix: nat) {
    DigitValue(c).Some? && DigitValue(c).value < radix
  }

  predicate AllDigits(s: string, radix: nat) {
    forall i :: 0 <= i < |s| ==> IsDigit(s[i], radix)
  }

  /** Length of the longest prefix made of digits of `radix`. */
  function DigitRun(s: string, radix: nat): (n: nat)
    ensures n <= |s| && AllDigits(s[..n], radix)
    ensures n < |s| ==> !IsDigit(s[n], radix)
  {
    if |s| == 0 || !IsDigit(s[0], radix) then 0
    else
      var n := 1 + DigitRun(s[1..], radix);
      assert forall i :: 1 <= i < n ==> s[..n][i] == s[1..][..n - 1][i - 1];
      n
  }

  /** The number a string of digits denotes, most significant digit first. */
  function DigitsValue(ds: string, radix: nat): nat
    requires AllDigits(ds, radix)
  {
    if |ds| == 0 then 0
    else DigitsValue(ds[..|ds| - 1], radix) * radix + DigitValue(ds[|ds| - 1]).value
  }

  /** `s` after its sign, with the sign's factor. */
  function SplitSign(s: string): (int, string) {
    if |s| > 0 && s[0] == '-' then (-1, s[1..])
    else if |s| > 0 && s[0] == '+' then (1, s[1..])
    else (1, s)
  }

  predicate HasHexPrefix(s: string) {
    |s| >= 2 && s[0] == '0' && (s[1] == 'x' || s[1] == 'X')
  }

  /** The digits after the sign, in radix 16 behind a `0x`/`0X` prefix and radix 10 otherwise. */
  function ParseUnsigned(u: string): Option<nat> {
    var radix := if HasHexPrefix(u) then 16 else 10;
    var body := if HasHexPrefix(u) then u[2..] else u;
    var n := DigitRun(body, radix);
    if n == 0 then None else Some(DigitsValue(body[..n], radix))
  }

  /**
    `parseInt(s)`: skip leading white space, read an optional sign, then the
    longest run of digits (radix 16 after `0x`); text after the run is ignored,
    and an empty run is NaN.
   */
  function ParseInt(s: string): (r: Option<int>)
    ensures TrimStart(s) == "" ==> r.None?
  {
    var signed := SplitSign(TrimStart(s));
    match ParseUnsigned(signed.1)
    case Some(v) => Some(signed.0 * v)
    case None => None
  }

  lemma DecimalDigit(c: char)
    requires IsDigit(c, 10)
    ensures '0' <= c <= '9' && !IsJsSpace(c) && c != '-' && c != '+'
    ensures c != 'x' && c != 'X' && c != 'o' && c != 'O' && c != 'b' && c != 'B'
  {
  }

  /** Decimal text of a natural number, without leading zeros. */
  function NatText(n: nat): (r: string)
    ensures |r| > 0 && AllDigits(r, 10)
    decreases n
  {
    var d := ['0' + (n % 10) as char];
    if n < 10 then d else NatText(n / 10) + d
  }

  /** Decimal text of an integer, `-` first when it is negative (as `String(n)` writes it). */
  function DecimalText(n: int): string {
    if n < 0 then "-" + NatText(-n) else NatText(n)
  }

  lemma {:induction false} NatTextValue(n: nat)
    ensures DigitsValue(NatText(n), 10) == n
    decreases n
  {
    var t := NatText(n);
    if n >= 10 {
      NatTextValue(n / 10);
      assert t[..|t| - 1] == NatText(n / 10);
    }
  }

  lemma {:induction false} DigitRunOf(t: string, rest: string)
    requires AllDigits(t, 10)
    requires |rest| > 0 ==> !IsDigit(rest[0], 10)
    ensures DigitRun(t + rest, 10) == |t|
    decreases |t|
  {
    if |t| > 0 {
      assert (t + rest)[1..] == t[1..] + rest;
      DigitRunOf(t[1..], rest);
    } else {
      assert t + rest == rest;
    }
  }

  /** A decimal digit run followed by a non-digit reads as the run's value. */
  lemma ParseUnsignedDecimal(t: string, rest: string)
    requires |t| > 0 && AllDigits(t, 10)
    requires |rest| > 0 ==> !IsDigit(rest[0], 10) && rest[0] != 'x' && rest[0] != 'X'
    ensures ParseUnsigned(t + rest) == Some(DigitsValue(t, 10))
  {
    var u := t + rest;
    assert !HasHexPrefix(u) by {
      if |t| >= 2 {
        assert u[1] == t[1];
        DecimalDigit(t[1]);
      } else if |u| >= 2 {
        assert u[1] == rest[0];
      }
    }
    DigitRunOf(t, rest);
    assert u[..|t|] == t;
  }

  /**
    parseInt reads a natural number's decimal text back and ignores what follows
    the digits, unless that is an `x` turning a lone `0` into a hex prefix.
   */
  lemma ParseNatTextPrefix(n: nat, rest: string)
    requires |rest| > 0 ==> !IsDigit(rest[0], 10) && rest[0] != 'x' && rest[0] != 'X'
    ensures ParseInt(NatText(n) + rest) == Some(n)
  {
    var t := NatText(n);
    var s := t + rest;
    DecimalDigit(t[0]);
    assert s[0] == t[0];
    assert TrimStart(s) == s;
    assert SplitSign(s) == (1, s);
    ParseUnsignedDecimal(t, rest);
    NatTextValue(n);
  }

  /** parseInt reads back every integer written in decimal. */
  lemma ParseDecimalText(n: int)
    ensures ParseInt(DecimalText(n)) == Some(n)
  {
    var m: nat := if n < 0 then -n else n;
    var t := NatText(m);
    assert t + "" == t;
    if n >= 0 {
      ParseNatTextPrefix(m, "");
    } else {
      var s := DecimalText(n);
      assert s[0] == '-' && !IsJsSpace(s[0]);
      assert TrimStart(s) == s;
      assert SplitSign(s) == (-1, t);
      ParseUnsignedDecimal(t, "");
      NatTextValue(m);
    }
  }

  predicate IsRadixLetter(c: char) {
    c == 'x' || c == 'X' || c == 'o' || c == 'O' || c == 'b' || c == 'B'
  }

  function RadixOf(c: char): nat {
    if c == 'x' || c == 'X' then 16 else if c == 'o' || c == 'O' then 8 else 2
  }

  /** A trimmed, non-empty numeric literal that denotes an integer. */
  function IntegerLiteral(t: string): Option<int> {
    if |t| >= 2 && t[0] == '0' && IsRadixLetter(t[1]) then
      var body := t[2..];
      if |body| > 0 && AllDigits(body, RadixOf(t[1])) then Some(DigitsValue(body, RadixOf(t[1]))) else None
    else
      var signed := SplitSign(t);
      if |signed.1| > 0 && AllDigits(signed.1, 10) then Some(signed.0 * DigitsValue(signed.1, 10)) else None
  }

  /**
    The unary plus `+s` on strings, for the strings that denote integers: white
    space around is trimmed, the empty string is 0, a decimal literal may carry a
    sign, and `0x`, `0o`, `0b` literals are unsigned. Every other string is NaN
    here (see the README for the decimal forms with a fraction or an exponent).
   */
  function ToNumber(s: string): Option<int> {
    var t := TrimStart(TrimEnd(s));
    if t == "" then Some(0) else IntegerLiteral(t)
  }

  /** A string that neither starts nor ends with white space is its own trim. */
  lemma NothingToTrim(s: string)
    requires |s| > 0 && !IsJsSpace(s[0]) && !IsJsSpace(s[|s| - 1])
    ensures TrimStart(TrimEnd(s)) == s
  {
    assert TrimEnd(s) == s;
  }

  /** Decimal text has no white space to trim. */
  lemma DecimalTextTrimmed(n: int)
    ensures TrimStart(TrimEnd(DecimalText(n))) == DecimalText(n)
  {
    var m: nat := if n < 0 then -n else n;
    var t := NatText(m);
    var s := DecimalText(n);
    assert s == (if n < 0 then "-" else "") + t;
    DecimalDigit(t[|t| - 1]);
    DecimalDigit(t[0]);
    assert s[|s| - 1] == t[|t| - 1];
    assert s[0] == '-' || s[0] == t[0];
    NothingToTrim(s);
  }

  /** A run of decimal digits is a literal. */
  lemma DigitsLiteral(t: string)
    requires |t| > 0 && AllDigits(t, 10)
    ensures IntegerLiteral(t) == Some(DigitsValue(t, 10))
  {
    DecimalDigit(t[0]);
    if |t| >= 2 {
      DecimalDigit(t[1]);
      assert !IsRadixLetter(t[1]);
    }
    assert SplitSign(t) == (1, t);
  }

  /** A run of decimal digits behind a minus sign is a negative literal. */
  lemma NegativeDigitsLiteral(s: string)
    requires |s| >= 2 && s[0] == '-' && AllDigits(s[1..], 10)
    ensures IntegerLiteral(s) == Some(-(DigitsValue(s[1..], 10) as int))
  {
    assert SplitSign(s) == (-1, s[1..]);
  }

  /** Decimal text is a literal that denotes its own number. */
  lemma DecimalTextLiteral(n: int)
    ensures IntegerLiteral(DecimalText(n)) == Some(n)
  {
    var m: nat := if n < 0 then -n else n;
    if n < 0 {
      assert DecimalText(n)[1..] == NatText(m);
      NegativeDigitsLiteral(DecimalText(n));
    } else {
      DigitsLiteral(NatText(m));
    }
    NatTextValue(m);
  }

  /** `+s` reads back every integer written in decimal. */
  lemma ToNumberDecimalText(n: int)
    ensures ToNumber(DecimalText(n)) == Some(n)
  {
    DecimalTextTrimmed(n);
    DecimalTextLiteral(n);
  }

  /** `+s` of a string made only of white space (or empty) is 0. */
  lemma BlankIsZero(s: string)
    requires forall i :: 0 <= i < |s| ==> IsJsSpace(s[i])
    ensures ToNumber(s) == Some(0)
  {
    TrimEndDrops(s);
  }
}
