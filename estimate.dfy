/** The charge-time estimate: `getVoltageTime` (src/battery.cpp:224-245), which looks a voltage up
    in the history, and `getDurationEstimate` (src/battery.cpp:247-258), which formats the time
    found as hours, minutes and seconds. */
module Estimate {
  import opened History
  import opened Numbers

  /** `getVoltageTime`: the time stored for `key` if there is one; otherwise, with `near` the
      first key above `key`, the time of `near` when it is the smallest key, of the key before it
      when that one is strictly closer, and of `near` otherwise (ties go to `near`); 0 when no key
      is above `key`. */
  function VoltageTime(vt: seq<Pair>, key: real): int
    requires Ascending(vt)
  {
    var it := Find(vt, key);
    if it < |vt| then vt[it].timeDiff
    else
      var near := LowerBound(vt, key);
      if near == |vt| then 0
      else if near == 0 then vt[near].timeDiff
      else
        var previous := near - 1;
        if key - vt[previous].voltage < vt[near].voltage - key then vt[previous].timeDiff
        else vt[near].timeDiff
  }

  function Dist(a: real, b: real): real {
    if a >= b then a - b else b - a
  }

  /** A voltage with a stored time gets that time. */
  lemma VoltageTimeExact(vt: seq<Pair>, key: real)
    requires Ascending(vt) && key in ToMap(vt)
    ensures VoltageTime(vt, key) == ToMap(vt)[key]
  {
    ToMapKeys(vt);
    ToMapAscending(vt);
    var p :| p in vt && p.voltage == key;
    var i :| 0 <= i < |vt| && vt[i] == p;
  }

  /** No key above the voltage (in particular an empty history): the estimate is 0. */
  lemma VoltageTimeAbove(vt: seq<Pair>, key: real)
    requires Ascending(vt)
    requires forall v :: v in ToMap(vt) ==> v < key
    ensures VoltageTime(vt, key) == 0
  {
    ToMapAscending(vt);
  }

  /** Below the smallest key: the time of the smallest key. */
  lemma VoltageTimeBelow(vt: seq<Pair>, key: real)
    requires Ascending(vt) && vt != [] && key < vt[0].voltage
    ensures VoltageTime(vt, key) == vt[0].timeDiff
  {
    forall i | 0 < i < |vt| ensures key < vt[i].voltage {
      assert Key(vt, 0) < Key(vt, i);
    }
    assert LowerBound(vt, key) == 0;
  }

  /** Between two neighbouring keys: the time of the strictly nearer one, the upper one on a tie. */
  lemma VoltageTimeBetween(vt: seq<Pair>, key: real, j: nat)
    requires Ascending(vt) && 0 < j < |vt|
    requires vt[j - 1].voltage < key < vt[j].voltage
    ensures VoltageTime(vt, key) ==
      if key - vt[j - 1].voltage < vt[j].voltage - key then vt[j - 1].timeDiff else vt[j].timeDiff
  {
    forall i | 0 <= i < |vt| ensures (i < j ==> vt[i].voltage < key) && (j <= i ==> key < vt[i].voltage) {
      if i < j - 1 {
        assert Key(vt, i) < Key(vt, j - 1);
      } else if j < i {
        assert Key(vt, j) < Key(vt, i);
      }
    }
    var near := LowerBound(vt, key);
    assert near == j;
  }

  /** `vt[j]` is a key nearest to `key`, and the larger one of two equally near keys. */
  predicate Nearest(vt: seq<Pair>, key: real, j: nat)
    requires j < |vt|
  {
    forall i :: 0 <= i < |vt| ==>
      Dist(key, vt[j].voltage) < Dist(key, vt[i].voltage) ||
      (Dist(key, vt[j].voltage) == Dist(key, vt[i].voltage) && vt[i].voltage <= vt[j].voltage)
  }

  /** Whenever some key is not below the voltage, the estimate is the time of a nearest key, where
      of two equally near keys the larger one is taken. */
  lemma VoltageTimeNearest(vt: seq<Pair>, key: real)
    requires Ascending(vt) && vt != [] && key <= vt[|vt| - 1].voltage
    ensures exists j: nat :: j < |vt| && VoltageTime(vt, key) == vt[j].timeDiff && Nearest(vt, key, j)
  {
    var it := Find(vt, key);
    var near := LowerBound(vt, key);
    var j: nat;
    if it < |vt| {
      j := it;
    } else if near == 0 {
      j := 0;
    } else if key - vt[near - 1].voltage < vt[near].voltage - key {
      j := near - 1;
    } else {
      j := near;
    }
    assert near < |vt|;
    forall i | 0 <= i < |vt|
      ensures Dist(key, vt[j].voltage) < Dist(key, vt[i].voltage) ||
        (Dist(key, vt[j].voltage) == Dist(key, vt[i].voltage) && vt[i].voltage <= vt[j].voltage)
    {
      if i < j {
        assert Key(vt, i) < Key(vt, j);
      } else if j < i {
        assert Key(vt, j) < Key(vt, i);
      }
      if near > 0 && i < near - 1 {
        assert Key(vt, i) < Key(vt, near - 1);
      }
      if near < i {
        assert Key(vt, near) < Key(vt, i);
      }
    }
  }

  /** The estimate is 0 or one of the stored times. */
  lemma VoltageTimeStored(vt: seq<Pair>, key: real)
    requires Ascending(vt)
    ensures VoltageTime(vt, key) == 0 || exists i :: 0 <= i < |vt| && VoltageTime(vt, key) == vt[i].timeDiff
  {
  }

  // ---------------------------------------------------------------------------------------------
  // Formatting

  /** C++ integer division: the quotient is truncated toward zero, so `b * q` lies between 0 and
      `a` and is less than `b` away from `a`. */
  function CppDiv(a: int, b: int): (q: int)
    requires b > 0
    ensures a >= 0 ==> 0 <= b * q <= a && a - b * q < b
    ensures a < 0 ==> a <= b * q <= 0 && b * q - a < b
  {
    if a >= 0 then
      WholeMultiple(a, b);
      a / b
    else
      WholeMultiple(-a, b);
      -((-a) / b)
  }

  /** The multiple of `b` that division of a natural number leaves is at most that number, and less
      than `b` below it. */
  lemma WholeMultiple(n: nat, b: int)
    requires b > 0
    ensures 0 <= b * (n / b) <= n && n - b * (n / b) < b
  {
    var q, r := n / b, n % b;
    assert n == b * q + r && 0 <= r < b;
    assert q >= 0;
  }

  /** C++ `%`: the remainder of the truncating division, with the sign of `a`. */
  function CppMod(a: int, b: int): (r: int)
    requires b > 0
    ensures a == b * CppDiv(a, b) + r
    ensures a >= 0 ==> 0 <= r < b
    ensures a < 0 ==> -b < r <= 0
  {
    a - b * CppDiv(a, b)
  }

  /** `setw(2) << setfill('0') << n` for an `int`: the decimal digits of `n`, after a '-' when it
      is negative, padded on the left with '0' to two characters. */
  function Pad2(n: int): string {
    if n < 0 then "-" + Decimal(-n)
    else if n < 10 then "0" + Decimal(n)
    else Decimal(n)
  }

  /** The fields `getDurationEstimate` prints. */
  function Seconds(e: int): int { CppMod(e, 60) }
  function Minutes(e: int): int { CppMod(CppDiv(e, 60), 60) }
  function Hours(e: int): int { CppMod(CppDiv(CppDiv(e, 60), 60), 60) }

  /** The text `getDurationEstimate` builds for an estimate of `e` seconds. */
  function FormatDuration(e: int): string {
    Pad2(Hours(e)) + ":" + Pad2(Minutes(e)) + ":" + Pad2(Seconds(e))
  }

  /** `getDurationEstimate`. */
  function DurationEstimate(vt: seq<Pair>, volts: real): string
    requires Ascending(vt)
  {
    FormatDuration(VoltageTime(vt, volts))
  }

  /** The number two decimal digits at `i` denote. */
  function TwoDigits(s: string, i: nat): nat
    requires i + 1 < |s| && IsDigit(s[i]) && IsDigit(s[i + 1])
  {
    10 * DigitValue(s[i]) + DigitValue(s[i + 1])
  }

  /** A field below 60 prints as exactly two digits that read back as the field. */
  lemma Pad2Digits(n: int)
    requires 0 <= n < 60
    ensures |Pad2(n)| == 2 && IsDigit(Pad2(n)[0]) && IsDigit(Pad2(n)[1])
    ensures TwoDigits(Pad2(n), 0) == n
  {
    if n >= 10 {
      assert Decimal(n) == Decimal(n / 10) + [DigitChar(n % 10)];
      assert Decimal(n / 10) == [DigitChar(n / 10)];
    }
  }

  /** For an estimate that is not negative the text is "HH:MM:SS": two zero-padded digits for
      each field, where seconds and minutes are below 60 and hours are counted modulo 60; reading
      the clock back gives the estimate modulo 60 hours. */
  lemma FormatDurationClock(e: int)
    requires e >= 0
    ensures var s := FormatDuration(e);
      && |s| == 8 && s[2] == ':' && s[5] == ':'
      && (forall i :: i in {0, 1, 3, 4, 6, 7} ==> IsDigit(s[i]))
      && TwoDigits(s, 0) == (e / 3600) % 60
      && TwoDigits(s, 3) == (e / 60) % 60
      && TwoDigits(s, 6) == e % 60
      && 3600 * TwoDigits(s, 0) + 60 * TwoDigits(s, 3) + TwoDigits(s, 6) == e % 216000
  {
    var h, m, sec := Hours(e), Minutes(e), Seconds(e);
    assert e / 60 / 60 == e / 3600;
    Pad2Digits(h);
    Pad2Digits(m);
    Pad2Digits(sec);
    var s := FormatDuration(e);
    assert s == Pad2(h) + ":" + Pad2(m) + ":" + Pad2(sec);
    assert s[0..2] == Pad2(h) && s[3..5] == Pad2(m) && s[6..8] == Pad2(sec);
    ClockArithmetic(e);
  }

  lemma ClockArithmetic(e: int)
    requires e >= 0
    ensures 3600 * ((e / 3600) % 60) + 60 * ((e / 60) % 60) + e % 60 == e % 216000
  {
    var sec, minutes := e % 60, e / 60;
    var mm, hours := minutes % 60, minutes / 60;
    var hh, days := hours % 60, hours / 60;
    assert e == 60 * minutes + sec;
    assert minutes == 60 * hours + mm;
    assert hours == 60 * days + hh;
    assert e == 3600 * hours + (60 * mm + sec);
    assert e / 3600 == hours;
    assert e == 216000 * days + (3600 * hh + 60 * mm + sec);
    assert 0 <= 3600 * hh + 60 * mm + sec < 216000;
  }

  /** Worked examples: 3723 s, 90 s and 0 s. */
  lemma FormatDurationExamples()
    ensures FormatDuration(3723) == "01:02:03"
    ensures FormatDuration(90) == "00:01:30"
    ensures FormatDuration(0) == "00:00:00"
  {
    HourMinuteSecond();
    MinuteAndAHalf();
    NoTime();
  }

  /** A field from 0 to 9 is printed as '0' and its digit. */
  lemma Pad2Single(n: nat)
    requires n < 10
    ensures Pad2(n) == ['0', DigitChar(n)]
  {
  }

  /** A field from 10 to 99 is printed as its two digits. */
  lemma Pad2Double(n: nat)
    requires 10 <= n < 100
    ensures Pad2(n) == [DigitChar(n / 10), DigitChar(n % 10)]
  {
    assert Decimal(n / 10) == [DigitChar(n / 10)];
  }

  /** A field from -9 to -1 is printed as '-' and one digit. */
  lemma Pad2NegativeSingle(n: int)
    requires -10 < n < 0
    ensures Pad2(n) == ['-', DigitChar(-n)]
  {
  }

  /** A field from -99 to -10 is printed as '-' and two digits. */
  lemma Pad2NegativeDouble(n: int)
    requires -100 < n <= -10
    ensures Pad2(n) == ['-', DigitChar(-n / 10), DigitChar(-n % 10)]
  {
    assert Decimal(-n / 10) == [DigitChar(-n / 10)];
  }

  /** The text from its three fields. */
  lemma FormatFields(e: int, h: int, m: int, sec: int)
    requires Hours(e) == h && Minutes(e) == m && Seconds(e) == sec
    ensures FormatDuration(e) == Pad2(h) + ":" + Pad2(m) + ":" + Pad2(sec)
  {
  }

  /** -90 seconds: C++'s division truncates the minutes to -1, and the remainders keep the sign. */
  lemma NegativeMinutesFields()
    ensures Hours(-90) == 0 && Minutes(-90) == -1 && Seconds(-90) == -30
  {
    assert CppDiv(-90, 60) == -1 && CppDiv(-1, 60) == 0;
  }

  /** The characters of the text when each field takes two characters. */
  lemma Layout(h: string, m: string, sec: string)
    requires |h| == 2 && |m| == 2 && |sec| == 2
    ensures h + ":" + m + ":" + sec == [h[0], h[1], ':', m[0], m[1], ':', sec[0], sec[1]]
  {
  }

  /** The characters of the text when the seconds take three characters. */
  lemma LayoutLong(h: string, m: string, sec: string)
    requires |h| == 2 && |m| == 2 && |sec| == 3
    ensures h + ":" + m + ":" + sec == [h[0], h[1], ':', m[0], m[1], ':', sec[0], sec[1], sec[2]]
  {
  }

  lemma HourMinuteSecond()
    ensures FormatDuration(3723) == "01:02:03"
  {
    assert CppDiv(3723, 60) == 62 && CppDiv(62, 60) == 1;
    FormatFields(3723, 1, 2, 3);
    Pad2Single(1);
    Pad2Single(2);
    Pad2Single(3);
    assert DigitChar(1) == '1' && DigitChar(2) == '2' && DigitChar(3) == '3';
    Layout(Pad2(1), Pad2(2), Pad2(3));
  }

  lemma MinuteAndAHalf()
    ensures FormatDuration(90) == "00:01:30"
  {
    assert CppDiv(90, 60) == 1 && CppDiv(1, 60) == 0;
    FormatFields(90, 0, 1, 30);
    Pad2Single(0);
    Pad2Single(1);
    Pad2Double(30);
    assert DigitChar(0) == '0' && DigitChar(1) == '1' && DigitChar(3) == '3';
    Layout(Pad2(0), Pad2(1), Pad2(30));
  }

  lemma NoTime()
    ensures FormatDuration(0) == "00:00:00"
  {
    FormatFields(0, 0, 0, 0);
    Pad2Single(0);
    assert DigitChar(0) == '0';
    Layout(Pad2(0), Pad2(0), Pad2(0));
  }

  /** A negative estimate keeps C++'s truncating division and signed remainders: the fields come
      out negative and are printed with their sign, so the text is not a clock. */
  lemma FormatDurationNegative()
    ensures FormatDuration(-5) == "00:00:-5"
    ensures FormatDuration(-90) == "00:-1:-30"
  {
    NegativeSeconds();
    NegativeMinutes();
  }

  lemma NegativeSeconds()
    ensures FormatDuration(-5) == "00:00:-5"
  {
    assert CppDiv(-5, 60) == 0 && CppDiv(0, 60) == 0;
    FormatFields(-5, 0, 0, -5);
    Pad2Single(0);
    Pad2NegativeSingle(-5);
    assert DigitChar(0) == '0' && DigitChar(5) == '5';
    Layout(Pad2(0), Pad2(0), Pad2(-5));
  }

  lemma NegativeMinutes()
    ensures FormatDuration(-90) == "00:-1:-30"
  {
    NegativeMinutesFields();
    FormatFields(-90, 0, -1, -30);
    Pad2Single(0);
    Pad2NegativeSingle(-1);
    Pad2NegativeDouble(-30);
    assert DigitChar(0) == '0' && DigitChar(1) == '1' && DigitChar(3) == '3';
    LayoutLong(Pad2(0), Pad2(-1), Pad2(-30));
  }

  /** With no negative time stored, the estimate prints as a clock. */
  lemma DurationEstimateClock(vt: seq<Pair>, volts: real)
    requires Ascending(vt)
    requires forall i :: 0 <= i < |vt| ==> vt[i].timeDiff >= 0
    ensures var s := DurationEstimate(vt, volts);
      |s| == 8 && s[2] == ':' && s[5] == ':' && (forall i :: i in {0, 1, 3, 4, 6, 7} ==> IsDigit(s[i]))
  {
    VoltageTimeStored(vt, volts);
    FormatDurationClock(VoltageTime(vt, volts));
  }
}
