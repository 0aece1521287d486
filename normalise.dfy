/**
 * The date and time rewriting of the upload handler (index.js:44-51): the date
 * capture is split day-first and written `year-MM-DD`, the time capture is turned
 * into a 24-hour `HH:MM:00`.
 */
module Normaliser {
  import opened Wrappers
  import opened Text
  import opened LineGrammar

  /** The four values one INSERT stores (index.js:53-56). */
  datatype Entry = Entry(date: string, time: string, sender: string, message: string)

  /** `date.split('/')` yields exactly day, month and year (index.js:44). */
  lemma SplitDateCapture(f: Fields)
    requires WellFormed(f)
    ensures Split(DateCapture(f), '/') == [f.day, f.month, f.year]
  {
    var parts := [f.day, f.month, f.year];
    assert Join(parts, '/') == DateCapture(f) by {
      assert parts[1..][1..] == [f.year];
      assert Join(parts[1..], '/') == f.month + "/" + f.year;
      assert Join(parts, '/') == f.day + "/" + (f.month + "/" + f.year);
    }
    forall k | 0 <= k < 3 ensures '/' !in parts[k] {
      assert AllDigits(parts[k]);
    }
    SplitJoin(parts, '/');
  }

  /** `time.split(':')` yields exactly hour and minute (index.js:47). */
  lemma SplitTimeCapture(f: Fields)
    requires WellFormed(f)
    ensures Split(TimeCapture(f), ':') == [f.hour, f.minute]
  {
    var parts := [f.hour, f.minute];
    assert Join(parts, ':') == TimeCapture(f) by {
      assert parts[1..] == [f.minute];
    }
    forall k | 0 <= k < 2 ensures ':' !in parts[k] {
      assert AllDigits(parts[k]);
    }
    SplitJoin(parts, ':');
  }

  /**
   * `year-MM-DD`: the year exactly as written (no century is added to a two-digit
   * year), then the month and the day as two digits of unchanged value.  No calendar
   * check is made.
   */
  function IsoDate(year: string, month: string, day: string): (r: string)
    requires DigitsBetween(month, 1, 2) && DigitsBetween(day, 1, 2)
    ensures var y := |year|;
      && |r| == y + 6
      && r[..y] == year
      && r[y] == '-' && r[y + 3] == '-'
      && AllDigits(r[y + 1..y + 3]) && DecimalValue(r[y + 1..y + 3]) == DecimalValue(month)
      && AllDigits(r[y + 4..]) && DecimalValue(r[y + 4..]) == DecimalValue(day)
  {
    var mm, dd := PadStart(month, 2, '0'), PadStart(day, 2, '0');
    PadTwoDigits(month);
    PadTwoDigits(day);
    DateLayout(year, mm, dd);
    year + "-" + mm + "-" + dd
  }

  lemma DateLayout(year: string, mm: string, dd: string)
    requires |mm| == 2 && |dd| == 2
    ensures var r, y := year + "-" + mm + "-" + dd, |year|;
      && |r| == y + 6 && r[..y] == year && r[y] == '-' && r[y + 3] == '-'
      && r[y + 1..y + 3] == mm && r[y + 4..] == dd
  {
  }

  /**
   * The date of index.js:44-45: the date capture is split at `/` and read day first,
   * month second, year third.
   */
  function FormatDate(f: Fields): (r: string)
    requires WellFormed(f)
    ensures r == IsoDate(f.year, f.month, f.day)
  {
    var parts := Split(DateCapture(f), '/');
    SplitDateCapture(f);
    var day, month, year := parts[0], parts[1], parts[2];
    IsoDate(year, month, day)
  }

  /** `meridiem?.toLowerCase() === 'pm'` */
  predicate IsPm(meridiem: Option<string>) {
    meridiem.Some? && LowerText(meridiem.value) == "pm"
  }

  /** `meridiem?.toLowerCase() === 'am'` */
  predicate IsAm(meridiem: Option<string>) {
    meridiem.Some? && LowerText(meridiem.value) == "am"
  }

  /**
   * The hour rule of index.js:48-50: pm before noon adds twelve, 12 am becomes 0,
   * and every other hour (no meridiem, am other than 12, pm from 12 on) is kept.
   */
  function ConvertHour(hour: nat, meridiem: Option<string>): (h: nat)
    ensures IsPm(meridiem) && hour < 12 ==> h == hour + 12
    ensures IsAm(meridiem) && hour == 12 ==> h == 0
    ensures !(IsPm(meridiem) && hour < 12) && !(IsAm(meridiem) && hour == 12) ==> h == hour
  {
    var lower := if meridiem.Some? then Some(LowerText(meridiem.value)) else None;
    var h1 := if lower == Some("pm") && hour < 12 then hour + 12 else hour;
    if lower == Some("am") && h1 == 12 then 0 else h1
  }

  /**
   * On a genuine 12-hour reading (1 to 12 with am or pm) the result is a 24-hour
   * clock hour, in the morning exactly for am, and equal to the reading modulo 12.
   */
  lemma TwelveHourReading(hour: nat, meridiem: Option<string>)
    requires 1 <= hour <= 12 && meridiem.Some? && IsMeridiem(meridiem.value)
    ensures ConvertHour(hour, meridiem) < 24
    ensures ConvertHour(hour, meridiem) < 12 <==> IsAm(meridiem)
    ensures ConvertHour(hour, meridiem) % 12 == hour % 12
  {
    var m := meridiem.value;
    assert LowerText(m) == [Lower(m[0]), Lower(m[1])];
    assert IsAm(meridiem) || IsPm(meridiem);
  }

  /** The 12-hour reading of a 24-hour clock hour. */
  function TwelveHour(h: nat): (r: (nat, string))
    requires h < 24
    ensures 1 <= r.0 <= 12 && IsMeridiem(r.1)
  {
    var hh := if h % 12 == 0 then 12 else h % 12;
    (hh, if h < 12 then "am" else "pm")
  }

  /** Converting the 12-hour reading of any 24-hour hour gives that hour back. */
  lemma TwelveHourRoundTrip(h: nat)
    requires h < 24
    ensures ConvertHour(TwelveHour(h).0, Some(TwelveHour(h).1)) == h
  {
    assert LowerText("am") == "am" && LowerText("pm") == "pm";
  }

  /** The hour field of the time: `h.toString().padStart(2, '0')` for an hour below 100. */
  lemma HourField(h: nat)
    requires h < 100
    ensures var hh := PadStart(Decimal(h), 2, '0'); |hh| == 2 && AllDigits(hh) && DecimalValue(hh) == h
  {
    DecimalRoundTrip(h);
    PadTwoDigits(Decimal(h));
  }

  lemma TimeLayout(hh: string, minute: string)
    requires |hh| == 2 && |minute| == 2
    ensures var r := hh + ":" + minute + ":00";
      && |r| == 8 && r[..2] == hh && r[2] == ':' && r[3..5] == minute && r[5..] == ":00"
  {
  }

  /**
   * `HH:MM:00` (index.js:47-51): always eight characters; the converted hour as two
   * digits, the minute exactly as written, and the seconds the literal `00`.
   */
  function FormatTime(f: Fields): (r: string)
    requires WellFormed(f)
    ensures |r| == 8 && r[2] == ':' && r[5..] == ":00"
    ensures r[3..5] == f.minute
    ensures AllDigits(r[..2]) && DecimalValue(r[..2]) == ConvertHour(DecimalValue(f.hour), f.meridiem)
  {
    var parts := Split(TimeCapture(f), ':');
    SplitTimeCapture(f);
    var hourText, minute := parts[0], parts[1];
    var hour := DecimalValue(hourText);
    TwoDigitsBelowHundred(hourText);
    var h := ConvertHour(hour, f.meridiem);
    HourField(h);
    var hh := PadStart(Decimal(h), 2, '0');
    TimeLayout(hh, minute);
    hh + ":" + minute + ":00"
  }

  /** The record stored for a matched line: the four values of the INSERT of index.js:53-55. */
  function Normalise(f: Fields): (e: Entry)
    requires WellFormed(f)
    ensures e.sender == f.sender && e.message == f.message
    ensures e.date == IsoDate(f.year, f.month, f.day)
    ensures |e.time| == 8 && e.time[2] == ':' && e.time[5..] == ":00" && e.time[3..5] == f.minute
    ensures AllDigits(e.time[..2])
    ensures DecimalValue(e.time[..2]) == ConvertHour(DecimalValue(f.hour), f.meridiem)
  {
    Entry(FormatDate(f), FormatTime(f), f.sender, f.message)
  }

  /** One line through the matcher and the normaliser: the record it yields, if any. */
  function Ingest(line: string): (r: Option<Entry>)
    ensures r.Some? <==> Parse(line).Some?
  {
    match Parse(line)
    case None => None
    case Some(f) =>
      ParseSound(line);
      Some(Normalise(f))
  }

  /** The date of `12/5/23`: the two-digit year is kept as `23`, not widened to 2023. */
  lemma TwoDigitYearKept()
    ensures IsoDate("23", "5", "12") == "23-05-12"
  {
    assert PadStart("5", 2, '0') == "05";
  }
}
