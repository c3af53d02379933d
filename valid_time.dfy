/** The date parse of `process`: `pd.to_datetime(text, utc=True, format="%m/%d/%Y %H:%M")`
    on the zero-padded shape `MM/DD/YYYY HH:MM`. */
module ValidTime {
  import opened Wrappers
  import Digits
  import Calendar

  /** The parsed instant, or `None` where pandas raises: a text not of the shape
      `MM/DD/YYYY HH:MM`, or fields that name no `datetime` (month 13, 30 February,
      hour 24, minute 60, year 0). */
  function Parse(text: string): (r: Option<Calendar.DateTime>)
    ensures r.Some? ==> |text| == 16 && OnTheMinute(r.value)
  {
    if |text| != 16 || text[2] != '/' || text[5] != '/' || text[10] != ' ' || text[13] != ':'
    then None
    else
      match (Digits.NumberAt(text, 0, 2), Digits.NumberAt(text, 3, 5), Digits.NumberAt(text, 6, 10),
             Digits.NumberAt(text, 11, 13), Digits.NumberAt(text, 14, 16))
      case (Some(month), Some(day), Some(year), Some(hour), Some(minute)) =>
        var dt := Calendar.DateTime(year, month, day, hour, minute, 0, 0);
        if Calendar.Valid(dt) then Some(dt) else None
      case _ => None
  }

  /** A `datetime` the parse can produce: valid, with no seconds or microseconds. */
  predicate OnTheMinute(dt: Calendar.DateTime) {
    Calendar.Valid(dt) && dt.second == 0 && dt.microsecond == 0
  }

  /** The zero-padded `MM/DD/YYYY HH:MM` text the parse reads; the year always takes four
      digits, which is what `strftime("%m/%d/%Y %H:%M")` writes from year 1000 on. */
  function Format(dt: Calendar.DateTime): (text: string)
    requires Calendar.Valid(dt)
    ensures |text| == 16
  {
    Digits.Pad(dt.month, 2) + "/" + Digits.Pad(dt.day, 2) + "/" + Digits.Pad(dt.year, 4)
      + " " + Digits.Pad(dt.hour, 2) + ":" + Digits.Pad(dt.minute, 2)
  }

  /** Where each field of the formatted text lies. */
  lemma FormatFields(dt: Calendar.DateTime)
    requires Calendar.Valid(dt)
    ensures var text := Format(dt);
      && text[2] == '/' && text[5] == '/' && text[10] == ' ' && text[13] == ':'
      && text[0..2] == Digits.Pad(dt.month, 2) && text[3..5] == Digits.Pad(dt.day, 2)
      && text[6..10] == Digits.Pad(dt.year, 4) && text[11..13] == Digits.Pad(dt.hour, 2)
      && text[14..16] == Digits.Pad(dt.minute, 2)
  {
    var mo, d, y, h, mi := Digits.Pad(dt.month, 2), Digits.Pad(dt.day, 2),
      Digits.Pad(dt.year, 4), Digits.Pad(dt.hour, 2), Digits.Pad(dt.minute, 2);
    var date := mo + "/" + d + "/" + y;
    var time := h + ":" + mi;
    assert Format(dt) == date + " " + time;
    assert date[0..2] == mo && date[3..5] == d && date[6..10] == y;
    assert time[0..2] == h && time[3..5] == mi;
  }

  /** Parsing the text of an on-the-minute `datetime` gives it back. */
  lemma ParseOfFormat(dt: Calendar.DateTime)
    requires OnTheMinute(dt)
    ensures Parse(Format(dt)) == Some(dt)
  {
    FormatFields(dt);
    Digits.ValueOfPad(dt.month, 2);
    Digits.ValueOfPad(dt.day, 2);
    Digits.ValueOfPad(dt.year, 4);
    Digits.ValueOfPad(dt.hour, 2);
    Digits.ValueOfPad(dt.minute, 2);
  }

  /** Every text the parse accepts is the zero-padded text of what it returns, so two
      different texts never parse to the same instant. */
  lemma FormatOfParse(text: string)
    requires Parse(text).Some?
    ensures OnTheMinute(Parse(text).value)
    ensures Format(Parse(text).value) == text
  {
    var dt := Parse(text).value;
    Digits.PadOfValue(text[0..2]);
    Digits.PadOfValue(text[3..5]);
    Digits.PadOfValue(text[6..10]);
    Digits.PadOfValue(text[11..13]);
    Digits.PadOfValue(text[14..16]);
    assert text[2..3] == "/" && text[5..6] == "/" && text[10..11] == " " && text[13..14] == ":";
    Digits.SliceSplit(text, 0, 2, 3);
    Digits.SliceSplit(text, 0, 3, 5);
    Digits.SliceSplit(text, 0, 5, 6);
    Digits.SliceSplit(text, 0, 6, 10);
    Digits.SliceSplit(text, 0, 10, 11);
    Digits.SliceSplit(text, 0, 11, 13);
    Digits.SliceSplit(text, 0, 13, 14);
    Digits.SliceSplit(text, 0, 14, 16);
    assert text == text[0..16];
  }
}
