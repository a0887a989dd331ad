/**
 `formatTime`, shared word for word by the two Timer components: milliseconds
 to an `m:ss` string. JavaScript semantics are kept for every integer:
 `Math.floor` of a division by a positive constant (Dafny's `/` agrees), the
 truncating `%` (sign of the dividend), and the string `'0' + seconds`.
 */
module TimeFormat {
  import opened Common

  /** Every character is a decimal digit (read from the right, as `DigitsValue` reads it). */
  predicate IsDigits(s: string)
    decreases |s|
  {
    |s| == 0 || (IsDigits(s[..|s| - 1]) && '0' <= s[|s| - 1] <= '9')
  }

  function DigitChar(d: nat): (c: char)
    requires d < 10
    ensures '0' <= c <= '9'
    ensures c as int - '0' as int == d
  {
    ('0' as int + d) as char
  }

  /** How JavaScript prints a non-negative integer: its decimal numeral without leading zeros. */
  function NatToString(n: nat): (s: string)
    ensures IsDigits(s)
    ensures |s| == 1 <==> n < 10
    ensures 10 <= n < 100 ==> |s| == 2
    ensures |s| >= 1
    ensures s[0] == '0' <==> n == 0
    decreases n
  {
    if n < 10 then [DigitChar(n)]
    else
      var front := NatToString(n / 10);
      assert (front + [DigitChar(n % 10)])[0] == front[0];
      front + [DigitChar(n % 10)]
  }

  /** The value of a decimal numeral (the inverse of `NatToString`). */
  function DigitsValue(s: string): nat
    requires IsDigits(s)
    decreases |s|
  {
    if |s| == 0 then 0
    else DigitsValue(s[..|s| - 1]) * 10 + (s[|s| - 1] as int - '0' as int)
  }

  /** Reading back a printed number gives the number. */
  lemma {:induction false} NatToStringRoundTrip(n: nat)
    ensures DigitsValue(NatToString(n)) == n
    decreases n
  {
    var s := NatToString(n);
    if n >= 10 {
      NatToStringRoundTrip(n / 10);
      assert s[..|s| - 1] == NatToString(n / 10);
    }
  }

  /** How JavaScript prints any integer: a minus sign before the numeral of a negative one. */
  function IntToString(n: int): (s: string)
    ensures n >= 0 ==> IsDigits(s) && DigitsValue(s) == n
    ensures n >= 0 ==> |s| >= 1 && (s[0] == '0' <==> n == 0)
    ensures n < 0 ==> |s| >= 2 && s[0] == '-' && IsDigits(s[1..]) && DigitsValue(s[1..]) == -n
    ensures n < 0 ==> s[1] != '0'
  {
    if n < 0 then
      NatToStringRoundTrip(-n);
      assert ("-" + NatToString(-n))[1..] == NatToString(-n);
      assert ("-" + NatToString(-n))[1] == NatToString(-n)[0];
      "-" + NatToString(-n)
    else
      NatToStringRoundTrip(n);
      NatToString(n)
  }

  /** Taking away the remainder of either sign leaves a multiple of the divisor. */
  lemma MultipleRemainder(a: int, b: int)
    requires b > 0
    ensures a >= 0 ==> (a - a % b) % b == 0
    ensures a < 0 ==> (a + (-a) % b) % b == 0
  {
    var c := if a >= 0 then a else -a;
    var q := c / b;
    assert c - c % b == q * b;
    MultipleHasNoRemainder(q, b);
    MultipleHasNoRemainder(-q, b);
    assert a < 0 ==> a + (-a) % b == (-q) * b;
  }

  /** A non-zero multiple of a positive `b` is at least `b` away from zero. */
  lemma MultipleIsFar(k: int, b: int)
    requires b > 0
    ensures k >= 1 ==> k * b >= b
    ensures k <= -1 ==> k * b <= -b
  {
    if k >= 1 {
      var j := k - 1;
      assert k * b == j * b + b;
      assert j * b >= 0;
    } else if k <= -1 {
      var j := -k - 1;
      assert k * b == -(j * b) - b;
      assert j * b >= 0;
    }
  }

  /** A multiple of `b`, of either sign, leaves remainder zero. */
  lemma MultipleHasNoRemainder(q: int, b: int)
    requires b > 0
    ensures (q * b) % b == 0
  {
    var x := q * b;
    var d := x / b;
    var m := x % b;
    assert x == d * b + m;
    assert m == (q - d) * b;
    MultipleIsFar(q - d, b);
  }

  /** JavaScript's `a % b` for a positive `b`: the remainder takes the sign of `a`. */
  function JsRem(a: int, b: int): (r: int)
    requires b > 0
    ensures a >= 0 ==> 0 <= r < b
    ensures a < 0 ==> -b < r <= 0
    ensures a >= 0 ==> r == a % b
    ensures (a - r) % b == 0
  {
    MultipleRemainder(a, b);
    if a >= 0 then a % b else -((-a) % b)
  }

  /**
   The seconds part of the template: `'0' + seconds` below ten, else the
   number as it is. Seconds below sixty give two digits that read back as
   the seconds; anything below ten, a negative remainder included, gets the
   '0' in front.
   */
  function PadSeconds(secs: int): (r: string)
    ensures 0 <= secs < 60 ==> |r| == 2 && IsDigits(r) && DigitsValue(r) == secs
    ensures 0 <= secs < 60 ==> (secs < 10 <==> r[0] == '0')
    ensures secs < 10 ==> |r| >= 2 && r[0] == '0'
  {
    if secs < 10 then
      assert 0 <= secs ==> ("0" + IntToString(secs))[..1] == "0";
      "0" + IntToString(secs)
    else
      assert secs < 60 ==> IntToString(secs)[..1] == NatToString(secs / 10) by {
        if secs < 60 { NatToStringRoundTrip(secs / 10); }
      }
      IntToString(secs)
  }

  /**
   `formatTime(ms)`: whole seconds by `Math.floor`, whole minutes of those,
   and the seconds left over by JavaScript's `%`. What the string says is
   stated by the lemmas below; a negative time starts with a minus sign.
   */
  function FormatTime(ms: int): (r: string)
    ensures ms < 0 ==> |r| > 0 && r[0] == '-'
  {
    var seconds := ms / 1000;
    var minutes := seconds / 60;
    IntToString(minutes) + ":" + PadSeconds(JsRem(seconds, 60))
  }

  /** Reads an `m:ss` display back: at least one minute digit, a colon, exactly two second digits. */
  function ParseClock(s: string): Option<(nat, nat)> {
    if |s| >= 4 && s[|s| - 3] == ':' && IsDigits(s[..|s| - 3]) && IsDigits(s[|s| - 2..]) then
      Some((DigitsValue(s[..|s| - 3]), DigitsValue(s[|s| - 2..])))
    else
      None
  }

  /** Flooring by 1000 and then by 60 is flooring by 60000. */
  lemma MinutesOfMilliseconds(ms: nat)
    ensures ms / 1000 / 60 == ms / 60000
  {
    var s := ms / 1000;
    var m := s / 60;
    assert ms == 60000 * m + (1000 * (s % 60) + ms % 1000);
  }

  /** A numeral, a colon and a two-digit field read back as the two numbers. */
  lemma ParseJoin(m: string, p: string)
    requires |m| >= 1 && IsDigits(m)
    requires |p| == 2 && IsDigits(p)
    ensures ParseClock(m + ":" + p) == Some((DigitsValue(m), DigitsValue(p)))
  {
    var s := m + ":" + p;
    assert s[..|s| - 3] == m;
    assert s[|s| - 2..] == p;
  }

  /**
   For a non-negative time, the display reads back as the whole minutes and
   the seconds below sixty that together make up the whole seconds of `ms`.
   */
  lemma FormatTimeRoundTrip(ms: int)
    requires ms >= 0
    ensures ParseClock(FormatTime(ms)) == Some((ms / 60000, (ms / 1000) % 60))
    ensures var (m, s) := ParseClock(FormatTime(ms)).value;
            s <= 59 && m * 60 + s == ms / 1000
  {
    var secs := (ms / 1000) % 60;
    MinutesOfMilliseconds(ms);
    ParseJoin(IntToString(ms / 60000), PadSeconds(secs));
  }

  /** The seconds are always shown with two digits, zero-padded below ten. */
  lemma SecondsTwoDigits(ms: int)
    requires ms >= 0
    ensures var s := FormatTime(ms);
            && |s| >= 4 && s[|s| - 3] == ':'
            && IsDigits(s[|s| - 2..])
            && ((ms / 1000) % 60 < 10 <==> s[|s| - 2] == '0')
  {
    var secs := (ms / 1000) % 60;
    FormatTimeRoundTrip(ms);
    var s := FormatTime(ms);
    var p := PadSeconds(secs);
    assert s[|s| - 2..] == p;
    assert s[|s| - 2] == p[0];
  }

  /** The five-minute budget shows as "5:00". */
  lemma FormatInitialBudget()
    ensures FormatTime(300000) == "5:00"
  {
    assert JsRem(300, 60) == 0;
    assert IntToString(5) == "5";
    assert IntToString(0) == "0";
  }

  /** No time left shows as "0:00". */
  lemma FormatZero()
    ensures FormatTime(0) == "0:00"
  {
    assert JsRem(0, 60) == 0;
    assert IntToString(0) == "0";
  }

  /** One millisecond past zero, the JavaScript arithmetic shows "-1:0-1". */
  lemma FormatJustExpired()
    ensures FormatTime(-1) == "-1:0-1"
  {
    assert -1 / 1000 == -1;
    assert -1 / 60 == -1;
    assert JsRem(-1, 60) == -1;
    assert IntToString(-1) == "-1";
  }
}
