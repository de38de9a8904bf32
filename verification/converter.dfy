/** The conversions of src/Converter.cpp: `toDigitTime`, which renders a
    duration in milliseconds as "hh:mm:ss", and the degree/radian
    conversions, with `toString` on unsigned integers as the decimal
    rendering it relies on. */
module Converters {
  import opened ZMath

  /** The character of a decimal digit. */
  function DigitChar(d: nat): (c: char)
    requires d < 10
    ensures '0' <= c <= '9'
  {
    (48 + d) as char
  }

  /** The value of a decimal digit character. */
  function DigitValue(c: char): (d: nat)
    requires '0' <= c <= '9'
    ensures d < 10
  {
    c as nat - 48
  }

  predicate AllDigits(s: string)
  {
    forall i :: 0 <= i < |s| ==> '0' <= s[i] <= '9'
  }

  /** `toString` on an unsigned integer: its decimal digits, most
      significant first, without leading zeros. */
  function Decimal(n: nat): (s: string)
    ensures |s| >= 1 && AllDigits(s)
    ensures n < 10 <==> |s| == 1
    ensures 10 <= n < 100 ==> |s| == 2
    decreases n
  {
    if n < 10 then [DigitChar(n)] else Decimal(n / 10) + [DigitChar(n % 10)]
  }

  /** The number a string of decimal digits stands for. */
  function ValueOf(s: string): nat
    requires AllDigits(s)
    decreases |s|
  {
    if |s| == 0 then 0 else 10 * ValueOf(s[..|s| - 1]) + DigitValue(s[|s| - 1])
  }

  /** Reading back the decimal rendering gives the number. */
  lemma {:induction false} DecimalRoundTrip(n: nat)
    ensures ValueOf(Decimal(n)) == n
    decreases n
  {
    if n >= 10 {
      var s := Decimal(n);
      assert s[..|s| - 1] == Decimal(n / 10);
      DecimalRoundTrip(n / 10);
    }
  }

  /** One field of the time: a leading '0' below 10, then the decimal
      rendering. Below 100 it is the two digits of the value. */
  function Field(v: nat): (s: string)
    ensures AllDigits(s)
    ensures v < 100 ==> s == [DigitChar(v / 10), DigitChar(v % 10)]
    ensures v < 100 ==> ValueOf(s) == v
  {
    var s := (if v < 10 then "0" else "") + Decimal(v);
    if v < 100 then
      assert v >= 10 ==> Decimal(v) == Decimal(v / 10) + [DigitChar(v % 10)];
      DecimalRoundTrip(v);
      s
    else s
  }

  /** Three two-character fields joined by colons. */
  lemma Layout(a: string, b: string, c: string)
    requires |a| == 2 && |b| == 2 && |c| == 2
    ensures var r := a + ":" + b + ":" + c;
      |r| == 8 && r[2] == ':' && r[5] == ':' && r[0..2] == a && r[3..5] == b && r[6..8] == c
  {
  }

  /** Successive divisions by 1000, 60 and 60 are divisions by the
      products. */
  lemma DivisionChain(ms: nat)
    ensures (ms / 1000) / 60 == ms / 60000
    ensures ((ms / 1000) / 60) / 60 == ms / 3600000
  {
  }

  /** The hour field wraps at 99: hours are counted modulo 99. */
  const HourWrap: nat := 99

  /** `toDigitTime(ms)`: whole seconds, minutes and hours by successive
      integer division, rendered as hours modulo 99, minutes modulo 60 and
      seconds modulo 60, each on two digits, separated by colons. */
  function DigitTime(ms: Uint32): (r: string)
    ensures |r| == 8 && r[2] == ':' && r[5] == ':'
    ensures AllDigits(r[0..2]) && AllDigits(r[3..5]) && AllDigits(r[6..8])
    ensures ValueOf(r[0..2]) == (ms / 3600000) % HourWrap
    ensures ValueOf(r[3..5]) == (ms / 60000) % 60
    ensures ValueOf(r[6..8]) == (ms / 1000) % 60
  {
    var s := ms / 1000;
    var m := s / 60;
    var h := m / 60;
    DivisionChain(ms);
    Layout(Field(h % HourWrap), Field(m % 60), Field(s % 60));
    Field(h % HourWrap) + ":" + Field(m % 60) + ":" + Field(s % 60)
  }

  /** The three fields read back determine the string: two durations
      render alike exactly when their hours modulo 99, minutes modulo 60
      and seconds modulo 60 agree. */
  lemma DigitTimeAlike(a: Uint32, b: Uint32)
    ensures DigitTime(a) == DigitTime(b) <==>
      (a / 3600000) % HourWrap == (b / 3600000) % HourWrap &&
      (a / 60000) % 60 == (b / 60000) % 60 &&
      (a / 1000) % 60 == (b / 1000) % 60
  {
    DivisionChain(a);
    DivisionChain(b);
  }

  /** The milliseconds below a second are discarded. */
  lemma DigitTimeDropsMillis(ms: Uint32)
    ensures DigitTime(ms) == DigitTime(ms - ms % 1000)
  {
    var q := ms / 1000;
    assert ms == 1000 * q + ms % 1000;
    assert (ms - ms % 1000) / 1000 == q;
  }

  /** Zero renders as "00:00:00". */
  lemma DigitTimeZero()
    ensures DigitTime(0) == "00:00:00"
  {
    assert 0 / 1000 == 0 && 0 / 60 == 0;
    assert Field(0) == "00";
  }

  /** 99 hours render as "00:00:00": the hour field wraps at 99, not 100,
      while 98 hours still render as "98". */
  lemma DigitTimeWrapsAt99Hours()
    ensures DigitTime(356400000) == "00:00:00"
    ensures DigitTime(352800000) == "98:00:00"
  {
    assert 356400000 / 1000 == 356400 && 356400 / 60 == 5940 && 5940 / 60 == 99;
    assert 352800000 / 1000 == 352800 && 352800 / 60 == 5880 && 5880 / 60 == 98;
    assert Field(0) == "00";
    assert Field(98) == "98";
  }

  /** The single-precision literal `3.141592654f` both conversions use:
      the float nearest to it, exactly. */
  const PiF: real := 3.1415927410125732421875

  /** `toRads`. */
  function ToRads(degrees: real): (r: real)
    ensures degrees == 180.0 ==> r == PiF
    ensures degrees == 0.0 ==> r == 0.0
  {
    degrees * PiF / 180.0
  }

  /** `toDegres`. */
  function ToDegrees(rads: real): (r: real)
    ensures rads == PiF ==> r == 180.0
  {
    rads * 180.0 / PiF
  }

  /** Over the reals the two conversions undo each other; both use the
      same constant, so only rounding, which is not modelled, could tell
      them apart. */
  lemma RadsRoundTrip(x: real)
    ensures ToDegrees(ToRads(x)) == x
    ensures ToRads(ToDegrees(x)) == x
  {
  }
}
