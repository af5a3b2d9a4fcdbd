/**
 * The countdown to the wedding: the milliseconds left are split into days,
 * hours, minutes and seconds, and each field is shown as a decimal string
 * padded on the left with "0" to at least two characters. Once the time
 * has run out every field shows "00".
 */
module Countdown {
  import Arithmetic

  const MsPerSecond: int := 1000
  const MsPerMinute: int := 1000 * 60
  const MsPerHour: int := 1000 * 60 * 60
  const MsPerDay: int := 1000 * 60 * 60 * 24

  /** new Date("2025-11-29T10:00:00+07:00").getTime(), in milliseconds since the epoch. */
  const WeddingDate: int := 1764385200000

  datatype Parts = Parts(days: nat, hours: nat, minutes: nat, seconds: nat)

  /** The four strings written into the days, hours, minutes and seconds elements. */
  datatype Display = Display(days: string, hours: string, minutes: string, seconds: string)

  /**
   * The Math.floor / % arithmetic of updateCountdown. With a positive
   * timeLeft every operand is positive, so floor division and the JavaScript
   * remainder coincide with Dafny's / and %.
   */
  function Decompose(timeLeft: int): (p: Parts)
    requires timeLeft > 0
    ensures p.hours < 24 && p.minutes < 60 && p.seconds < 60
    ensures p.days * MsPerDay + p.hours * MsPerHour + p.minutes * MsPerMinute
            + p.seconds * MsPerSecond + timeLeft % MsPerSecond == timeLeft
  {
    var p := Parts(timeLeft / MsPerDay,
                   (timeLeft % MsPerDay) / MsPerHour,
                   (timeLeft % MsPerHour) / MsPerMinute,
                   (timeLeft % MsPerMinute) / MsPerSecond);
    Recompose(timeLeft);
    p
  }

  lemma Recompose(t: int)
    requires t > 0
    ensures (t % MsPerDay) / MsPerHour < 24
    ensures (t % MsPerHour) / MsPerMinute < 60
    ensures (t % MsPerMinute) / MsPerSecond < 60
    ensures (t / MsPerDay) * MsPerDay + ((t % MsPerDay) / MsPerHour) * MsPerHour
            + ((t % MsPerHour) / MsPerMinute) * MsPerMinute
            + ((t % MsPerMinute) / MsPerSecond) * MsPerSecond + t % MsPerSecond == t
  {
    var d, r1 := t / 86400000, t % 86400000;
    var h, r2 := r1 / 3600000, r1 % 3600000;
    Arithmetic.DivModOf(t, d * 24 + h, r2, 3600000);
    var m, r3 := r2 / 60000, r2 % 60000;
    Arithmetic.DivModOf(t, (d * 24 + h) * 60 + m, r3, 60000);
    var s, r4 := r3 / 1000, r3 % 1000;
    Arithmetic.DivModOf(t, ((d * 24 + h) * 60 + m) * 60 + s, r4, 1000);
  }

  /**
   * The decomposition is the only one with hours < 24, minutes < 60 and
   * seconds < 60 that adds back up to the time left.
   */
  lemma DecomposeUnique(timeLeft: int, p: Parts)
    requires timeLeft > 0
    requires p.hours < 24 && p.minutes < 60 && p.seconds < 60
    requires p.days * MsPerDay + p.hours * MsPerHour + p.minutes * MsPerMinute
             + p.seconds * MsPerSecond + timeLeft % MsPerSecond == timeLeft
    ensures p == Decompose(timeLeft)
  {
    var q := Decompose(timeLeft);
    var ms := timeLeft % 1000;
    var sp, sq := p.seconds * 1000 + ms, q.seconds * 1000 + ms;
    var mp, mq := p.minutes * 60000 + sp, q.minutes * 60000 + sq;
    var hp, hq := p.hours * 3600000 + mp, q.hours * 3600000 + mq;
    Arithmetic.UniqueQuotient(p.days, q.days, hp, hq, 86400000);
    Arithmetic.UniqueQuotient(p.hours, q.hours, mp, mq, 3600000);
    Arithmetic.UniqueQuotient(p.minutes, q.minutes, sp, sq, 60000);
    Arithmetic.UniqueQuotient(p.seconds, q.seconds, ms, ms, 1000);
  }

  // ---- decimal rendering: Number.prototype.toString and padStart(2, "0") ----

  predicate IsDigit(c: char) { '0' <= c <= '9' }

  predicate AllDigits(s: string) {
    forall i :: 0 <= i < |s| ==> IsDigit(s[i])
  }

  function DigitChar(d: nat): (c: char)
    requires d < 10
    ensures IsDigit(c) && c as int - '0' as int == d
  {
    ('0' as int + d) as char
  }

  /** n.toString() for a non-negative integer. */
  function Decimal(n: nat): (s: string)
    ensures |s| >= 1 && AllDigits(s)
    ensures n < 10 <==> |s| == 1
    ensures n < 100 <==> |s| <= 2
    ensures s[0] == '0' <==> n == 0
  {
    if n < 10 then [DigitChar(n)] else Decimal(n / 10) + [DigitChar(n % 10)]
  }

  /** The number a string of decimal digits denotes. */
  function ValueOf(s: string): nat
    requires AllDigits(s)
  {
    if s == [] then 0 else ValueOf(s[..|s| - 1]) * 10 + (s[|s| - 1] as int - '0' as int)
  }

  /** Reading back the decimal string gives the number. */
  lemma {:induction false} DecimalValue(n: nat)
    ensures ValueOf(Decimal(n)) == n
  {
    if n >= 10 {
      var s := Decimal(n);
      DecimalValue(n / 10);
      assert s[..|s| - 1] == Decimal(n / 10);
    }
  }

  /** s.padStart(width, "0") */
  function PadStart(s: string, width: nat): (r: string)
    ensures |r| == if |s| >= width then |s| else width
    ensures r[|r| - |s|..] == s
    ensures forall i :: 0 <= i < |r| - |s| ==> r[i] == '0'
    decreases width - |s|
  {
    if |s| >= width then s else seq(width - |s|, _ => '0') + s
  }

  lemma {:induction false} LeadingZeros(s: string, k: nat)
    requires AllDigits(s) && k <= |s|
    requires forall i :: 0 <= i < k ==> s[i] == '0'
    ensures AllDigits(s[k..]) && ValueOf(s) == ValueOf(s[k..])
    decreases |s|
  {
    if k < |s| {
      var init := s[..|s| - 1];
      LeadingZeros(init, k);
      assert init[k..] == s[k..][..|s[k..]| - 1];
    } else {
      LeadingZerosValue(s);
    }
  }

  lemma {:induction false} LeadingZerosValue(s: string)
    requires forall i :: 0 <= i < |s| ==> s[i] == '0'
    ensures AllDigits(s) && ValueOf(s) == 0
  {
    if s != [] {
      LeadingZerosValue(s[..|s| - 1]);
    }
  }

  /** Padding a digit string with zeros keeps it a digit string of the same value. */
  lemma PadStartValue(d: string, width: nat)
    requires AllDigits(d)
    ensures AllDigits(PadStart(d, width)) && ValueOf(PadStart(d, width)) == ValueOf(d)
  {
    var r := PadStart(d, width);
    var k := |r| - |d|;
    forall i | 0 <= i < |r| ensures IsDigit(r[i]) {
      if i >= k {
        assert r[i] == r[k..][i - k];
      }
    }
    LeadingZeros(r, k);
  }

  /** A digit string that does not start with "0" denotes at least 1. */
  lemma {:induction false} ValuePositive(s: string)
    requires AllDigits(s) && s != [] && s[0] != '0'
    ensures ValueOf(s) >= 1
  {
    if |s| > 1 {
      ValuePositive(s[..|s| - 1]);
    }
  }

  /** toString is the only digit string without a superfluous leading zero that denotes its value. */
  lemma {:induction false} DecimalCanonical(s: string)
    requires AllDigits(s) && s != [] && (s[0] == '0' ==> |s| == 1)
    ensures s == Decimal(ValueOf(s))
  {
    var n := ValueOf(s);
    var last := s[|s| - 1];
    var d := last as int - '0' as int;
    var init := s[..|s| - 1];
    assert n == ValueOf(init) * 10 + d;
    if |s| == 1 {
      assert init == [];
      assert DigitChar(d) == last;
    } else {
      assert init[0] == s[0];
      DecimalCanonical(init);
      ValuePositive(init);
      Arithmetic.DivModOf(n, ValueOf(init), d, 10);
      assert DigitChar(n % 10) == last;
      assert s == init + [last];
    }
  }

  /** A countdown field: the value in decimal, padded with zeros to two characters. */
  function Field(n: nat): (s: string)
    ensures |s| >= 2 && AllDigits(s)
    ensures n < 100 ==> |s| == 2
    ensures s[0] == '0' ==> |s| == 2
    ensures ValueOf(s) == n
  {
    DecimalValue(n);
    PadStartValue(Decimal(n), 2);
    PadStart(Decimal(n), 2)
  }

  /**
   * The properties Field states fix the string: any digit string of at
   * least two characters with value n, and with a leading "0" only when it
   * has exactly two, is Field(n).
   */
  lemma FieldUnique(n: nat, s: string)
    requires AllDigits(s) && |s| >= 2 && (s[0] == '0' ==> |s| == 2) && ValueOf(s) == n
    ensures s == Field(n)
  {
    if s[0] == '0' {
      LeadingZeros(s, 1);
      DecimalCanonical(s[1..]);
      assert s == "0" + s[1..];
    } else {
      DecimalCanonical(s);
    }
  }

  /** The text updateCountdown writes for a given number of milliseconds left. */
  function Render(timeLeft: int): (d: Display)
    ensures timeLeft <= 0 ==> d == Display("00", "00", "00", "00")
    ensures |d.days| >= 2 && |d.hours| == 2 && |d.minutes| == 2 && |d.seconds| == 2
    ensures AllDigits(d.days) && AllDigits(d.hours) && AllDigits(d.minutes) && AllDigits(d.seconds)
    ensures d.days[0] == '0' ==> |d.days| == 2
    ensures timeLeft > 0 ==>
      var p := Decompose(timeLeft);
      ValueOf(d.days) == p.days && ValueOf(d.hours) == p.hours &&
      ValueOf(d.minutes) == p.minutes && ValueOf(d.seconds) == p.seconds
  {
    if timeLeft > 0 then
      var p := Decompose(timeLeft);
      Display(Field(p.days), Field(p.hours), Field(p.minutes), Field(p.seconds))
    else
      Display("00", "00", "00", "00")
  }

  /**
   * One tick of the countdown at the clock reading now (milliseconds since
   * the epoch): the shown fields add back up to the time left, to the second.
   */
  function UpdateCountdown(now: int): (d: Display)
    ensures now >= WeddingDate ==> d == Display("00", "00", "00", "00")
    ensures AllDigits(d.days) && AllDigits(d.hours) && AllDigits(d.minutes) && AllDigits(d.seconds)
    ensures |d.days| >= 2 && (d.days[0] == '0' ==> |d.days| == 2)
    ensures |d.hours| == 2 && |d.minutes| == 2 && |d.seconds| == 2
    ensures now < WeddingDate ==>
      ValueOf(d.days) * MsPerDay + ValueOf(d.hours) * MsPerHour
      + ValueOf(d.minutes) * MsPerMinute + ValueOf(d.seconds) * MsPerSecond
      == (WeddingDate - now) - (WeddingDate - now) % MsPerSecond
  {
    Render(WeddingDate - now)
  }
}
