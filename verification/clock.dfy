/**
 * A wall-clock reading and its rendering with Go's time layout
 * "02/01/2006 15:04" (day/month/year hour:minute, 24-hour clock).
 */
module Clock {
  import opened Wrappers
  import opened Digits

  datatype Moment = Moment(year: nat, month: nat, day: nat, hour: nat, minute: nat)

  predicate Valid(t: Moment) {
    1 <= t.month <= 12 && 1 <= t.day <= 31 && t.hour < 24 && t.minute < 60
  }

  /** Go's Format with layout "02/01/2006 15:04". */
  function Format(t: Moment): string {
    Padded(t.day, 2) + "/" + Padded(t.month, 2) + "/" + Padded(t.year, 4)
      + " " + Padded(t.hour, 2) + ":" + Padded(t.minute, 2)
  }

  /** Reads a "DD/MM/YYYY HH:MM" rendering back; the year may be wider than four digits. */
  function Parse(s: string): Option<Moment> {
    var n := |s|;
    if n >= 16 && s[2] == '/' && s[5] == '/' && s[n - 6] == ' ' && s[n - 3] == ':'
       && AllDigits(s[..2]) && AllDigits(s[3..5]) && AllDigits(s[6..n - 6])
       && AllDigits(s[n - 5..n - 3]) && AllDigits(s[n - 2..])
    then Some(Moment(Value(s[6..n - 6]), Value(s[3..5]), Value(s[..2]),
                     Value(s[n - 5..n - 3]), Value(s[n - 2..])))
    else None
  }

  /** A field below 100 prints as exactly two digits that read back as it. */
  lemma TwoDigits(n: nat)
    requires n < 100
    ensures |Padded(n, 2)| == 2 && AllDigits(Padded(n, 2)) && Value(Padded(n, 2)) == n
  {
    DecimalLength(n, Pow10(2), 2);
    PaddedRoundTrip(n, 2);
  }

  /** The rendering is sixteen characters for any year below 10000. */
  lemma FormatLength(t: Moment)
    requires Valid(t) && t.year < 10000
    ensures |Format(t)| == 16
  {
    TwoDigits(t.day);
    TwoDigits(t.month);
    TwoDigits(t.hour);
    TwoDigits(t.minute);
    DecimalLength(t.year, Pow10(4), 4);
  }

  /** Parse undoes Format on every valid reading. */
  lemma ParseFormat(t: Moment)
    requires Valid(t)
    ensures Parse(Format(t)) == Some(t)
  {
    var d, m, y, h, mi := Padded(t.day, 2), Padded(t.month, 2), Padded(t.year, 4),
                          Padded(t.hour, 2), Padded(t.minute, 2);
    TwoDigits(t.day);
    TwoDigits(t.month);
    TwoDigits(t.hour);
    TwoDigits(t.minute);
    PaddedRoundTrip(t.year, 4);
    assert |y| >= 4;
    Fields(d, m, y, h, mi);
  }

  /** Where each field of a "DD/MM/YYYY HH:MM" layout sits, for a year of any width. */
  lemma Fields(d: string, m: string, y: string, h: string, mi: string)
    requires |d| == 2 && |m| == 2 && |y| >= 4 && |h| == 2 && |mi| == 2
    ensures var s := d + "/" + m + "/" + y + " " + h + ":" + mi;
      var n := |s|;
      n == 12 + |y| && s[..2] == d && s[2] == '/' && s[3..5] == m && s[5] == '/'
      && s[6..n - 6] == y && s[n - 6] == ' ' && s[n - 5..n - 3] == h
      && s[n - 3] == ':' && s[n - 2..] == mi
  {
  }
}
