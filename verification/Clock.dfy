/** Wall-clock text. "HH:MM" is compared as a string by the timetable queries
    and read as minutes by everything else. */
module Clock {
  import opened Prelude
  import Text

  predicate IsDigit(c: char) {
    '0' <= c <= '9'
  }

  function Digit(c: char): (d: nat)
    requires IsDigit(c)
  {
    c as int - '0' as int
  }

  /** Minutes past midnight; None when the text is not a clock. One or two hour
      digits are accepted, and surrounding blanks are ignored. */
  function ClockMinutes(value: string): Option<nat> {
    var t := Text.Trim(value);
    if |t| == 5 && IsDigit(t[0]) && IsDigit(t[1]) && t[2] == ':' && IsDigit(t[3]) && IsDigit(t[4]) then
      Checked(10 * Digit(t[0]) + Digit(t[1]), 10 * Digit(t[3]) + Digit(t[4]))
    else if |t| == 4 && IsDigit(t[0]) && t[1] == ':' && IsDigit(t[2]) && IsDigit(t[3]) then
      Checked(Digit(t[0]), 10 * Digit(t[2]) + Digit(t[3]))
    else None
  }

  function Checked(hour: nat, minute: nat): Option<nat> {
    if hour > 23 || minute > 59 then None else Some(hour * 60 + minute)
  }

  /** What the schedule validator lets through: zero-padded 24-hour time. */
  predicate IsHHMM(s: string) {
    && |s| == 5 && s[2] == ':'
    && IsDigit(s[0]) && IsDigit(s[1]) && IsDigit(s[3]) && IsDigit(s[4])
    && 10 * Digit(s[0]) + Digit(s[1]) <= 23 && 10 * Digit(s[3]) + Digit(s[4]) <= 59
  }

  function Minutes(s: string): (m: nat)
    requires IsHHMM(s)
    ensures m < 24 * 60
  {
    60 * (10 * Digit(s[0]) + Digit(s[1])) + 10 * Digit(s[3]) + Digit(s[4])
  }

  lemma ValidClocksAreRead(s: string)
    requires IsHHMM(s)
    ensures ClockMinutes(s) == Some(Minutes(s))
  {
  }

  function DigitChar(d: nat): char
    requires d < 10
  {
    ('0' as int + d) as char
  }

  function TwoDigits(n: nat): string
    requires n < 100
  {
    [DigitChar(n / 10), DigitChar(n % 10)]
  }

  /** A clock's text: zero-padded, or with a bare hour below ten. */
  predicate Spells(t: string, hour: nat, minute: nat) {
    && hour < 24 && minute < 60
    && (t == TwoDigits(hour) + ":" + TwoDigits(minute)
        || (hour < 10 && t == [DigitChar(hour)] + ":" + TwoDigits(minute)))
  }

  /** The text, blanks around it aside, is that many minutes past midnight. */
  ghost predicate Says(value: string, minutes: int) {
    exists hour: nat, minute: nat :: Spells(Text.Trim(value), hour, minute) && minutes == 60 * hour + minute
  }

  lemma DigitsRoundTrip(c: char, d: nat)
    requires d < 10
    ensures IsDigit(DigitChar(d)) && Digit(DigitChar(d)) == d
    ensures IsDigit(c) ==> DigitChar(Digit(c)) == c
  {
  }

  lemma TwoDigitsRoundTrip(t: string, n: nat)
    requires n < 100
    ensures IsDigit(TwoDigits(n)[0]) && IsDigit(TwoDigits(n)[1])
    ensures 10 * Digit(TwoDigits(n)[0]) + Digit(TwoDigits(n)[1]) == n
    ensures |t| == 2 && IsDigit(t[0]) && IsDigit(t[1]) ==> TwoDigits(10 * Digit(t[0]) + Digit(t[1])) == t
  {
  }

  lemma SpelledIsRead(value: string, hour: nat, minute: nat)
    requires Spells(Text.Trim(value), hour, minute)
    ensures ClockMinutes(value) == Some(60 * hour + minute)
  {
    var t := Text.Trim(value);
    TwoDigitsRoundTrip(t, hour);
    TwoDigitsRoundTrip(t, minute);
    if t == TwoDigits(hour) + ":" + TwoDigits(minute) {
      assert t[0] == TwoDigits(hour)[0] && t[1] == TwoDigits(hour)[1];
      assert t[3] == TwoDigits(minute)[0] && t[4] == TwoDigits(minute)[1];
    } else {
      DigitsRoundTrip(t[0], hour);
      assert t[2] == TwoDigits(minute)[0] && t[3] == TwoDigits(minute)[1];
    }
  }

  lemma ReadIsSpelled(value: string)
    requires ClockMinutes(value).Some?
    ensures Says(value, ClockMinutes(value).value)
  {
    var t := Text.Trim(value);
    var n := |t|;
    var minute := 10 * Digit(t[n - 2]) + Digit(t[n - 1]);
    TwoDigitsRoundTrip(t[n - 2..], 0);
    if n == 5 {
      var hour := 10 * Digit(t[0]) + Digit(t[1]);
      TwoDigitsRoundTrip(t[..2], 0);
      assert t == t[..2] + ":" + t[3..];
      assert Spells(t, hour, minute);
    } else {
      DigitsRoundTrip(t[0], 0);
      assert t == [t[0]] + ":" + t[2..];
      assert Spells(t, Digit(t[0]), minute);
    }
  }

  /** A clock is read exactly when it is spelled in one of the two ways, and as
      what it says. */
  lemma ClockIsReadIff(value: string, minutes: nat)
    ensures ClockMinutes(value) == Some(minutes) <==> Says(value, minutes)
  {
    if ClockMinutes(value).Some? {
      ReadIsSpelled(value);
    }
    if hour: nat, minute: nat :| Spells(Text.Trim(value), hour, minute) && minutes == 60 * hour + minute {
      SpelledIsRead(value, hour, minute);
    }
  }

  lemma PaddedIsValid(s: string, hour: nat, minute: nat)
    requires hour < 24 && minute < 60 && s == TwoDigits(hour) + ":" + TwoDigits(minute)
    ensures IsHHMM(s) && Minutes(s) == 60 * hour + minute
  {
    TwoDigitsRoundTrip(s, hour);
    TwoDigitsRoundTrip(s, minute);
    assert s[0] == TwoDigits(hour)[0] && s[1] == TwoDigits(hour)[1];
    assert s[3] == TwoDigits(minute)[0] && s[4] == TwoDigits(minute)[1];
  }

  lemma ValidIsPadded(s: string, hour: nat, minute: nat)
    requires hour < 24 && minute < 60 && IsHHMM(s) && Minutes(s) == 60 * hour + minute
    ensures s == TwoDigits(hour) + ":" + TwoDigits(minute)
  {
    SameClock(10 * Digit(s[0]) + Digit(s[1]), 10 * Digit(s[3]) + Digit(s[4]), hour, minute);
    TwoDigitsRoundTrip(s[..2], 0);
    TwoDigitsRoundTrip(s[3..], 0);
    assert s == s[..2] + ":" + s[3..];
  }

  /** The validator lets through exactly the zero-padded spellings, and they say what
      Minutes makes of them. */
  lemma ZeroPaddedIff(s: string, hour: nat, minute: nat)
    requires hour < 24 && minute < 60
    ensures IsHHMM(s) && Minutes(s) == 60 * hour + minute <==> s == TwoDigits(hour) + ":" + TwoDigits(minute)
  {
    if s == TwoDigits(hour) + ":" + TwoDigits(minute) {
      PaddedIsValid(s, hour, minute);
    }
    if IsHHMM(s) && Minutes(s) == 60 * hour + minute {
      ValidIsPadded(s, hour, minute);
    }
  }

  lemma SameClock(h: nat, m: nat, hour: nat, minute: nat)
    requires m < 60 && minute < 60 && 60 * h + m == 60 * hour + minute
    ensures h == hour && m == minute
  {
  }

  /** The order of strings, code unit by code unit. */
  predicate Before(a: string, b: string) {
    if b == "" then false
    else if a == "" then true
    else a[0] < b[0] || (a[0] == b[0] && Before(a[1..], b[1..]))
  }

  lemma {:induction false} FirstDifferenceDecides(a: string, b: string, k: nat)
    requires k < |a| && k < |b| && a[..k] == b[..k] && a[k] != b[k]
    ensures Before(a, b) <==> a[k] < b[k]
  {
    if k > 0 {
      assert a[0] == a[..k][0] == b[..k][0] == b[0];
      assert a[1..][..k - 1] == a[..k][1..] == b[..k][1..] == b[1..][..k - 1];
      FirstDifferenceDecides(a[1..], b[1..], k - 1);
    }
  }

  lemma {:induction false} NotBeforeItself(a: string)
    ensures !Before(a, a)
  {
    if a != "" {
      NotBeforeItself(a[1..]);
    }
  }

  /** Zero padding makes string order time order. */
  lemma StringOrderIsTimeOrder(a: string, b: string)
    requires IsHHMM(a) && IsHHMM(b)
    ensures Before(a, b) <==> Minutes(a) < Minutes(b)
  {
    if k: nat :| k < 5 && a[k] != b[k] && a[..k] == b[..k] {
      FirstDifferenceDecides(a, b, k);
      assert forall j :: 0 <= j < k ==> a[j] == a[..k][j] == b[..k][j] == b[j];
    } else {
      assert a[0] == b[0] by { assert a[..0] == b[..0]; }
      assert a[1] == b[1] by { assert a[..1] == b[..1]; }
      assert a[3] == b[3] by { assert a[..3] == b[..3]; }
      assert a[4] == b[4] by { assert a[..4] == b[..4]; }
      assert a == b;
      NotBeforeItself(a);
    }
  }
}
