/** Number conversions: `stringToTime` and `stringToVolts` (src/battery.cpp:120-138), which read a
    field with `stol` / `stod` and fall back to 0 when the field does not start with a number, and
    the decimal notation the logger writes (src/battery.cpp:303-304), which they read back. */
module Numbers {
  import opened Text

  predicate IsDigit(c: char) {
    '0' <= c <= '9'
  }

  function DigitValue(c: char): nat
    requires IsDigit(c)
  {
    (c as int) - ('0' as int)
  }

  function DigitChar(d: nat): (c: char)
    requires d < 10
    ensures IsDigit(c) && DigitValue(c) == d
  {
    ((('0' as int) + d) as char)
  }

  predicate AllDigits(s: string) {
    forall k :: 0 <= k < |s| ==> IsDigit(s[k])
  }

  /** The length of the longest prefix of `s` made of decimal digits. */
  function DigitRun(s: string): (n: nat)
    ensures n <= |s|
    ensures AllDigits(s[..n])
    ensures n == |s| || !IsDigit(s[n])
  {
    if s != [] && IsDigit(s[0]) then
      var n := 1 + DigitRun(s[1..]);
      assert forall k :: 1 <= k < n ==> s[..n][k] == s[1..][..n - 1][k - 1];
      n
    else 0
  }

  /** The number a string of decimal digits denotes, most significant digit first. */
  function DigitsValue(ds: string): nat
    requires AllDigits(ds)
  {
    if ds == [] then 0 else 10 * DigitsValue(ds[..|ds| - 1]) + DigitValue(ds[|ds| - 1])
  }

  /** The value of the digits `ds` written after a decimal point. */
  function FractionValue(ds: string): real
    requires AllDigits(ds)
  {
    if ds == [] then 0.0 else (DigitValue(ds[0]) as real + FractionValue(ds[1..])) / 10.0
  }

  /** The text after optional leading white space and an optional sign, as `strtol` and `strtod`
      see it, and whether that sign was a minus. */
  function Unsigned(s: string): (bool, string) {
    var u := TrimLeft(s);
    if u != [] && (u[0] == '-' || u[0] == '+') then (u[0] == '-', u[1..]) else (false, u)
  }

  /** `stringToTime`: `stol` reads optional white space, an optional sign and the longest run of
      decimal digits; a field with no digits there makes `stol` throw `invalid_argument`, which
      `stringToTime` turns into 0. */
  function ParseTime(s: string): int {
    var (negative, body) := Unsigned(s);
    var n := DigitRun(body);
    if n == 0 then 0
    else if negative then -(DigitsValue(body[..n]) as int)
    else DigitsValue(body[..n])
  }

  /** The digits of the fraction of a decimal number whose integer digits have been read: the run
      of digits after a leading '.', if there is one. */
  function FractionDigits(rest: string): (ds: string)
    ensures AllDigits(ds)
  {
    if rest != [] && rest[0] == '.' then rest[1..][..DigitRun(rest[1..])] else []
  }

  /** `stringToVolts`: `stod` in decimal notation reads optional white space, an optional sign,
      digits, and optionally a '.' followed by more digits; it needs a digit on one side of the
      point, and without one it throws `invalid_argument`, which `stringToVolts` turns into 0.
      Reading stops at the first other character, such as the unit in "20.00V". */
  function ParseVolts(s: string): real {
    var (negative, body) := Unsigned(s);
    var n := DigitRun(body);
    var frac := FractionDigits(body[n..]);
    if n == 0 && frac == [] then 0.0
    else
      var magnitude := DigitsValue(body[..n]) as real + FractionValue(frac);
      if negative then -magnitude else magnitude
  }

  /** How an output stream writes a non-negative integer in decimal. */
  function Decimal(n: nat): (s: string)
    ensures |s| >= 1 && AllDigits(s)
  {
    if n < 10 then [DigitChar(n)] else Decimal(n / 10) + [DigitChar(n % 10)]
  }

  /** Writing a number in decimal and reading the digits back gives the number. */
  lemma {:induction false} DecimalValue(n: nat)
    ensures DigitsValue(Decimal(n)) == n
  {
    if n >= 10 {
      DecimalValue(n / 10);
      var s := Decimal(n);
      assert s[..|s| - 1] == Decimal(n / 10);
    }
  }

  /** The digit run of digits followed by something that is not a digit is those digits. */
  lemma {:induction false} DigitRunPrefix(ds: string, rest: string)
    requires AllDigits(ds)
    requires rest == [] || !IsDigit(rest[0])
    ensures DigitRun(ds + rest) == |ds|
  {
    if ds != [] {
      assert (ds + rest)[1..] == ds[1..] + rest;
      DigitRunPrefix(ds[1..], rest);
    } else {
      assert ds + rest == rest;
    }
  }

  /** The timestamps the logger writes (`time(0)`, src/battery.cpp:303) read back as themselves. */
  lemma ParseTimeOfDecimal(n: nat)
    ensures ParseTime(Decimal(n)) == n
  {
    var s := Decimal(n);
    assert LeadingSpaces(s) == 0;
    assert TrimLeft(s) == s;
    DigitRunPrefix(s, []);
    assert s + [] == s;
    assert s[..|s|] == s;
    DecimalValue(n);
  }

  /** How the logger writes a voltage of `centivolts` hundredths of a volt with `fixed` and
      `setprecision(2)`: the integer part, a point, and exactly two fraction digits. */
  function Fixed2(centivolts: nat): string {
    Decimal(centivolts / 100) + "." + [DigitChar(centivolts % 100 / 10), DigitChar(centivolts % 100 % 10)]
  }

  /** A voltage field as the logger writes it ("20.00V", src/battery.cpp:304) reads back as the
      voltage it was written from. */
  lemma ParseVoltsOfFixed2(centivolts: nat)
    ensures ParseVolts(Fixed2(centivolts) + "V") == centivolts as real / 100.0
  {
    var whole := Decimal(centivolts / 100);
    var d1, d2 := DigitChar(centivolts % 100 / 10), DigitChar(centivolts % 100 % 10);
    var rest := "." + [d1, d2] + "V";
    var s := Fixed2(centivolts) + "V";
    assert s == whole + rest;
    assert LeadingSpaces(s) == 0;
    assert TrimLeft(s) == s;
    assert Unsigned(s) == (false, s);
    DigitRunPrefix(whole, rest);
    assert s[..|whole|] == whole;
    assert s[|whole|..] == rest;
    var afterPoint := rest[1..];
    assert afterPoint == [d1, d2] + "V";
    DigitRunPrefix([d1, d2], "V");
    assert FractionDigits(rest) == [d1, d2];
    assert [d1, d2][1..] == [d2];
    assert [d2][1..] == [];
    var a, b := centivolts % 100 / 10, centivolts % 100 % 10;
    assert FractionValue([d2]) == b as real / 10.0;
    assert FractionValue([d1, d2]) == (a as real + b as real / 10.0) / 10.0;
    DecimalValue(centivolts / 100);
    var q := centivolts / 100;
    CentivoltDigits(centivolts);
    assert q as real + (a as real + b as real / 10.0) / 10.0 == centivolts as real / 100.0;
  }

  /** A number of hundredths split into its whole part and its two fraction digits. */
  lemma CentivoltDigits(c: nat)
    ensures c == 100 * (c / 100) + 10 * (c % 100 / 10) + c % 100 % 10
  {
    var r := c % 100;
    assert c == 100 * (c / 100) + r;
    assert r == 10 * (r / 10) + r % 10;
  }
}
