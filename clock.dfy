/**
 * `formatTime`: the `MM:SS` rendering of the remaining seconds, with the
 * JavaScript semantics of `Math.floor`, `%` (truncating), `Number.toString`
 * and `padStart(2, '0')`, and a decoder that reads such a rendering back.
 */
module Clock {
  import opened Wrappers

  function DigitChar(d: nat): (c: char)
    requires d < 10
    ensures '0' <= c <= '9' && DigitValue(c) == d
  {
    "0123456789"[d]
  }

  function DigitValue(c: char): int
  {
    c as int - '0' as int
  }

  predicate IsDigit(c: char)
  {
    '0' <= c <= '9'
  }

  /** Decimal digits of a natural number, most significant first, no leading zero
      (`NatStringValue`, `NatStringNoLeadingZero`). */
  function NatString(n: nat): (s: string)
    ensures |s| >= 1
    ensures n < 10 <==> |s| == 1
    ensures 10 <= n < 100 <==> |s| == 2
  {
    if n < 10 then [DigitChar(n)] else NatString(n / 10) + [DigitChar(n % 10)]
  }

  /** `Number.prototype.toString()` on an integer: a minus sign, then the digits. */
  function IntString(n: int): string
  {
    if n < 0 then "-" + NatString(-n) else NatString(n)
  }

  /** `padStart(width, fill)`: fill characters in front until the string is `width` long. */
  function PadStart(s: string, width: nat, fill: char): (r: string)
    ensures |r| == if |s| >= width then |s| else width
    decreases width - |s|
  {
    if |s| >= width then s else PadStart([fill] + s, width, fill)
  }

  /** JavaScript's `%`: the remainder takes the sign of the dividend. */
  function JsRem(a: int, b: int): (r: int)
    requires b > 0
    ensures a >= 0 ==> 0 <= r < b
    ensures a < 0 ==> -b < r <= 0
    ensures a >= 0 ==> r == a % b
  {
    if a >= 0 then a % b else -((-a) % b)
  }

  /** The number a string of decimal digits spells. */
  function Value(s: string): int
  {
    if s == [] then 0 else Value(s[..|s| - 1]) * 10 + DigitValue(s[|s| - 1])
  }

  /** `toString` of a natural number consists of digits that spell that number. */
  lemma {:induction false} NatStringValue(n: nat)
    ensures forall i :: 0 <= i < |NatString(n)| ==> IsDigit(NatString(n)[i])
    ensures Value(NatString(n)) == n
  {
    if n >= 10 {
      NatStringValue(n / 10);
      var s := NatString(n);
      assert s[..|s| - 1] == NatString(n / 10);
    }
  }

  /** `toString` of a number of two or more digits does not start with '0'. */
  lemma {:induction false} NatStringNoLeadingZero(n: nat)
    ensures n >= 10 ==> NatString(n)[0] != '0'
  {
    if n >= 10 {
      NatStringNoLeadingZero(n / 10);
      assert NatString(n)[0] == NatString(n / 10)[0];
    }
  }

  /** `toString` of an integer: the digits of a non-negative number, or a
      minus sign followed by the digits of its magnitude. */
  lemma IntStringValue(n: int)
    ensures n >= 0 ==> IntString(n) == NatString(n) && Value(IntString(n)) == n
    ensures n < 0 ==> IntString(n) == "-" + NatString(-n) && Value(IntString(n)[1..]) == -n
  {
    NatStringValue(if n < 0 then -n else n);
    if n < 0 {
      assert IntString(n)[1..] == NatString(-n);
    }
  }

  /** `padStart` leaves a string of at least `width` characters alone, and
      otherwise puts exactly `width - |s|` fill characters in front of it. */
  lemma {:induction false} PadStartContents(s: string, width: nat, fill: char)
    ensures |s| >= width ==> PadStart(s, width, fill) == s
    ensures |s| < width ==> PadStart(s, width, fill) == seq(width - |s|, _ => fill) + s
    decreases width - |s|
  {
    if |s| < width {
      PadStartContents([fill] + s, width, fill);
      assert seq(width - |s|, _ => fill) == seq(width - |s| - 1, _ => fill) + [fill];
    }
  }

  /** On a negative dividend JavaScript's `%` truncates: the quotient is rounded
      toward zero, where Dafny's Euclidean `%` would round it down. */
  lemma JsRemTruncates(a: int, b: int)
    requires b > 0
    ensures a < 0 ==> JsRem(a, b) == a + b * ((-a) / b)
    ensures JsRem(-a, b) == -JsRem(a, b)
  {
    if a < 0 {
      assert -a == b * ((-a) / b) + (-a) % b;
    } else if a > 0 {
      assert JsRem(-a, b) == -(a % b);
    }
  }

  function Pad2(n: int): string
  {
    PadStart(IntString(n), 2, '0')
  }

  /** `formatTime(seconds)`; `Math.floor(seconds / 60)` is Dafny's `/` since the divisor is positive. */
  function FormatTime(seconds: int): string
  {
    Pad2(seconds / 60) + ":" + Pad2(JsRem(seconds, 60))
  }

  /** Reads an `MM:SS` string back into seconds; anything else is rejected. */
  function ParseTime(t: string): (r: Option<int>)
    ensures r.Some? ==> 0 <= r.value < 6000
  {
    if |t| == 5 && IsDigit(t[0]) && IsDigit(t[1]) && t[2] == ':' && IsDigit(t[3]) && IsDigit(t[4])
       && DigitValue(t[3]) < 6
    then Some((DigitValue(t[0]) * 10 + DigitValue(t[1])) * 60 + DigitValue(t[3]) * 10 + DigitValue(t[4]))
    else None
  }

  /** A number below 100, padded to two digits, spells its tens and units. */
  lemma Pad2Digits(n: nat)
    requires n < 100
    ensures Pad2(n) == [DigitChar(n / 10), DigitChar(n % 10)]
  {
    if n >= 10 {
      assert NatString(n) == NatString(n / 10) + [DigitChar(n % 10)];
    } else {
      assert PadStart(IntString(n), 2, '0') == PadStart([DigitChar(n)], 2, '0');
    }
  }

  /** For every time below 100 minutes the rendering is the two digits of the
      minutes, a colon and the two digits of the seconds. */
  lemma FormatSpelled(s: int)
    requires 0 <= s < 6000
    ensures FormatTime(s) == [DigitChar(s / 60 / 10), DigitChar(s / 60 % 10), ':',
                              DigitChar(s % 60 / 10), DigitChar(s % 60 % 10)]
  {
    var m, sec := s / 60, JsRem(s, 60);
    assert 0 <= m < 100 && 0 <= m / 10 < 10;
    assert sec == s % 60;
    assert FormatTime(s) == Pad2(m) + ":" + Pad2(sec);
    Pad2Digits(m);
    Pad2Digits(sec);
    Joined(Pad2(m), Pad2(sec));
  }

  lemma Joined(x: string, y: string)
    requires |x| == 2 && |y| == 2
    ensures x + ":" + y == [x[0], x[1], ':', y[0], y[1]]
  {
  }

  /** For every time below 100 minutes the rendering is five characters,
      digits around a colon, and decoding it gives the seconds back. */
  lemma {:induction false} FormatRoundTrip(s: int)
    requires 0 <= s < 6000
    ensures |FormatTime(s)| == 5 && FormatTime(s)[2] == ':'
    ensures forall i :: 0 <= i < 5 && i != 2 ==> IsDigit(FormatTime(s)[i])
    ensures ParseTime(FormatTime(s)) == Some(s)
  {
    FormatSpelled(s);
    var m, sec := s / 60, s % 60;
    var d0, d1, d3, d4 := m / 10, m % 10, sec / 10, sec % 10;
    assert s == (d0 * 10 + d1) * 60 + d3 * 10 + d4 && d3 < 6;
    ParseDigits(d0, d1, d3, d4);
  }

  lemma ParseDigits(d0: nat, d1: nat, d3: nat, d4: nat)
    requires d0 < 10 && d1 < 10 && d3 < 6 && d4 < 10
    ensures ParseTime([DigitChar(d0), DigitChar(d1), ':', DigitChar(d3), DigitChar(d4)])
            == Some((d0 * 10 + d1) * 60 + d3 * 10 + d4)
  {
  }

  /** The other direction: every string the decoder accepts is exactly what
      `formatTime` renders for the decoded seconds. */
  lemma {:induction false} ParseRoundTrip(t: string)
    requires ParseTime(t).Some?
    ensures FormatTime(ParseTime(t).value) == t
  {
    var s := ParseTime(t).value;
    var m := DigitValue(t[0]) * 10 + DigitValue(t[1]);
    var sec := DigitValue(t[3]) * 10 + DigitValue(t[4]);
    assert s == m * 60 + sec && 0 <= sec < 60;
    assert s / 60 == m && s % 60 == sec;
    assert m / 10 == DigitValue(t[0]) && m % 10 == DigitValue(t[1]);
    assert sec / 10 == DigitValue(t[3]) && sec % 10 == DigitValue(t[4]);
    FormatSpelled(s);
  }

  /** Distinct times within the interview render differently. */
  lemma FormatInjective(a: int, b: int)
    requires 0 <= a < 6000 && 0 <= b < 6000 && FormatTime(a) == FormatTime(b)
    ensures a == b
  {
    FormatRoundTrip(a);
    FormatRoundTrip(b);
  }

  /** The renderings at the boundaries of the countdown. */
  lemma FormatExamples()
    ensures FormatTime(600) == "10:00" && FormatTime(599) == "09:59"
    ensures FormatTime(60) == "01:00" && FormatTime(0) == "00:00"
  {
    assert NatString(10) == "10";
    assert NatString(59) == "59";
  }

  /** Outside the countdown's range the JavaScript operators show through:
      one second below zero renders as two negative fields. */
  lemma FormatNegative()
    ensures FormatTime(-1) == "-1:-1"
  {
  }
}
