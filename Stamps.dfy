/**
 * Calendar time stamps: the `yyyy-MM-dd HH:mm:ss` text the converters write, and
 * the fixed-width EXIF form `YYYY:MM:DD HH:MM:SS` read by `datetime.strptime`.
 */
module Stamps {
  import opened Wrappers
  import opened Text

  datatype Stamp = Stamp(year: nat, month: nat, day: nat, hour: nat, minute: nat, second: nat)

  /** `strftime('%Y-%m-%d %H:%M:%S')`, equally `QDateTime.toString("yyyy-MM-dd HH:mm:ss")`. */
  function FormatStamp(st: Stamp): string
  {
    Padded(st.year, 4) + "-" + Padded(st.month, 2) + "-" + Padded(st.day, 2) + " "
    + Padded(st.hour, 2) + ":" + Padded(st.minute, 2) + ":" + Padded(st.second, 2)
  }

  predicate IsLeapYear(y: nat)
  {
    y % 4 == 0 && (y % 100 != 0 || y % 400 == 0)
  }

  function DaysInMonth(y: nat, m: nat): nat
    requires 1 <= m <= 12
  {
    if m == 2 then (if IsLeapYear(y) then 29 else 28)
    else if m == 4 || m == 6 || m == 9 || m == 11 then 30
    else 31
  }

  /** The fields Python's `datetime` constructor accepts. */
  predicate ValidStamp(st: Stamp)
  {
    1 <= st.year && 1 <= st.month <= 12 && 1 <= st.day <= DaysInMonth(st.year, st.month)
    && st.hour < 24 && st.minute < 60 && st.second < 60
  }

  /** Text of the fixed-width shape `DDDD:DD:DD DD:DD:DD`. */
  predicate ExifShaped(s: string)
  {
    |s| == 19 && s[4] == ':' && s[7] == ':' && s[10] == ' ' && s[13] == ':' && s[16] == ':'
    && IsDigits(s[..4]) && IsDigits(s[5..7]) && IsDigits(s[8..10])
    && IsDigits(s[11..13]) && IsDigits(s[14..16]) && IsDigits(s[17..])
  }

  /** The numbers written in a fixed-width EXIF stamp. */
  function ExifFields(s: string): Stamp
    requires ExifShaped(s)
  {
    Stamp(DigitsValue(s[..4]), DigitsValue(s[5..7]), DigitsValue(s[8..10]),
          DigitsValue(s[11..13]), DigitsValue(s[14..16]), DigitsValue(s[17..]))
  }

  /** `datetime.strptime(s, '%Y:%m:%d %H:%M:%S')` on fixed-width input; None where it raises. */
  function ParseExifStamp(s: string): (r: Option<Stamp>)
    ensures r.Some? ==> ExifShaped(s) && ValidStamp(r.value)
    ensures ExifShaped(s) && ValidStamp(ExifFields(s)) ==> r.Some?
  {
    if ExifShaped(s) && ValidStamp(ExifFields(s)) then Some(ExifFields(s)) else None
  }

  lemma Reprint(ds: string)
    requires |ds| >= 1 && IsDigits(ds)
    ensures Padded(DigitsValue(ds), |ds|) == ds
  {
    DigitsRoundTrip(ds);
    PaddedFixed(DigitsValue(ds), |ds|);
  }

  /**
   * A parsed EXIF stamp prints back as the same text with the two date colons
   * turned into hyphens.
   */
  lemma {:induction false} ReformatExifStamp(s: string)
    requires ParseExifStamp(s).Some?
    ensures FormatStamp(ParseExifStamp(s).value) == s[..4] + "-" + s[5..7] + "-" + s[8..]
  {
    Reprint(s[..4]);
    Reprint(s[5..7]);
    Reprint(s[8..10]);
    Reprint(s[11..13]);
    Reprint(s[14..16]);
    Reprint(s[17..]);
    assert s[8..] == s[8..10] + " " + s[11..13] + ":" + s[14..16] + ":" + s[17..];
  }
}
