/** `format_hourly_data`: the archive address of one hour's observation file,
    `<prefix>/<YYYY>/<YYYYMMDD>/HourlyAQObs_<YYYYMMDDHH>.dat`. */
module ArchiveUrl {
  import Digits
  import Calendar
  import opened Wrappers

  /** The `strftime` directives the encoder uses: `%Y`, `%m`, `%d`, `%H`. */
  datatype Directive = Year | Month | Day | Hour

  /** The part of a `datetime` the address depends on. */
  datatype DateHour = DateHour(year: int, month: int, day: int, hour: int)

  const ArchivePrefix: string := "https://s3-us-west-1.amazonaws.com//files.airnowtech.org/airnow"
  const FileStem: string := "/HourlyAQObs_"
  const FileSuffix: string := ".dat"

  /** `%Y` is written with four digits here only from year 1000 on; below that the
      platform's `strftime` decides. */
  predicate Encodable(dt: Calendar.DateTime) {
    Calendar.Valid(dt) && 1000 <= dt.year
  }

  function DateHourOf(dt: Calendar.DateTime): DateHour {
    DateHour(dt.year, dt.month, dt.day, dt.hour)
  }

  function Width(d: Directive): nat {
    if d == Year then 4 else 2
  }

  function Field(dt: Calendar.DateTime, d: Directive): (s: string)
    requires Encodable(dt)
    ensures |s| == Width(d) && Digits.AllDigits(s)
  {
    match d
    case Year => Digits.Pad(dt.year, 4)
    case Month => Digits.Pad(dt.month, 2)
    case Day => Digits.Pad(dt.day, 2)
    case Hour => Digits.Pad(dt.hour, 2)
  }

  /** `dt.strftime(fmt)` for a format made only of the directives above. */
  function Strftime(dt: Calendar.DateTime, fmt: seq<Directive>): (s: string)
    requires Encodable(dt)
    ensures |s| == FormatWidth(fmt) && Digits.AllDigits(s)
  {
    if fmt == [] then "" else Field(dt, fmt[0]) + Strftime(dt, fmt[1..])
  }

  function FormatWidth(fmt: seq<Directive>): nat {
    if fmt == [] then 0 else Width(fmt[0]) + FormatWidth(fmt[1..])
  }

  /** A format's output is the outputs of its two halves, one after the other. */
  lemma {:induction false} StrftimeAppend(dt: Calendar.DateTime, f: seq<Directive>, g: seq<Directive>)
    requires Encodable(dt)
    ensures Strftime(dt, f + g) == Strftime(dt, f) + Strftime(dt, g)
  {
    if f == [] {
      assert f + g == g;
    } else {
      assert (f + g)[0] == f[0] && (f + g)[1..] == f[1..] + g;
      StrftimeAppend(dt, f[1..], g);
    }
  }

  /** `format_hourly_data(dt)`. */
  function HourlyDataUrl(dt: Calendar.DateTime): (url: string)
    requires Encodable(dt)
    ensures |url| == |ArchivePrefix| + 41
    ensures url[..|ArchivePrefix|] == ArchivePrefix
    ensures url[|url| - 4..] == FileSuffix
  {
    var year := Strftime(dt, [Year]);
    var date := Strftime(dt, [Year, Month, Day]);
    var dateHour := Strftime(dt, [Year, Month, Day, Hour]);
    ArchivePrefix + "/" + year + "/" + date + FileStem + dateHour + FileSuffix
  }

  /** The year segment is a prefix of the date segment, which is a prefix of the
      date-hour segment. */
  lemma SegmentsNest(dt: Calendar.DateTime)
    requires Encodable(dt)
    ensures Strftime(dt, [Year, Month, Day])[..4] == Strftime(dt, [Year])
    ensures Strftime(dt, [Year, Month, Day, Hour])[..8] == Strftime(dt, [Year, Month, Day])
  {
    StrftimeAppend(dt, [Year], [Month, Day]);
    assert [Year] + [Month, Day] == [Year, Month, Day];
    StrftimeAppend(dt, [Year, Month, Day], [Hour]);
    assert [Year, Month, Day] + [Hour] == [Year, Month, Day, Hour];
  }

  /** The inverse of `format_hourly_data`: the date-hour an archive address names,
      or `None` when the text is not one the encoder can produce. */
  function ParseHourlyDataUrl(url: string): Option<DateHour>
  {
    var p := |ArchivePrefix|;
    if |url| != p + 41 || url[..p] != ArchivePrefix || url[p] != '/' || url[p + 5] != '/'
      || url[p + 14..p + 27] != FileStem || url[p + 37..] != FileSuffix
      // the year repeats in both later segments, the date in the last one
      || url[p + 1..p + 5] != url[p + 6..p + 10] || url[p + 6..p + 14] != url[p + 27..p + 35]
    then None
    else
      match (Digits.NumberAt(url, p + 1, p + 5), Digits.NumberAt(url, p + 10, p + 12),
             Digits.NumberAt(url, p + 12, p + 14), Digits.NumberAt(url, p + 35, p + 37))
      case (Some(y), Some(m), Some(d), Some(h)) =>
        if 1000 <= y && 1 <= m <= 12 && 1 <= d <= Calendar.DaysInMonth(y, m) && h < 24
        then Some(DateHour(y, m, d, h))
        else None
      case _ => None
  }

  /** The three `strftime` results, field by field. */
  lemma StrftimeSegments(dt: Calendar.DateTime)
    requires Encodable(dt)
    ensures Strftime(dt, [Year]) == Digits.Pad(dt.year, 4)
    ensures Strftime(dt, [Year, Month, Day])
         == Digits.Pad(dt.year, 4) + Digits.Pad(dt.month, 2) + Digits.Pad(dt.day, 2)
    ensures Strftime(dt, [Year, Month, Day, Hour])
         == Digits.Pad(dt.year, 4) + Digits.Pad(dt.month, 2) + Digits.Pad(dt.day, 2)
            + Digits.Pad(dt.hour, 2)
  {
    var y, m, d, h := Digits.Pad(dt.year, 4), Digits.Pad(dt.month, 2),
      Digits.Pad(dt.day, 2), Digits.Pad(dt.hour, 2);
    assert [Year][1..] == [];
    assert [Day][1..] == [] && [Hour][1..] == [];
    assert Strftime(dt, [Day]) == d;
    assert Strftime(dt, [Hour]) == h;
    assert [Month, Day][1..] == [Day] && [Day, Hour][1..] == [Hour];
    assert Strftime(dt, [Month, Day]) == m + d;
    assert Strftime(dt, [Day, Hour]) == d + h;
    assert [Month, Day, Hour][1..] == [Day, Hour];
    assert Strftime(dt, [Month, Day, Hour]) == m + (d + h);
    assert [Year, Month, Day][1..] == [Month, Day];
    assert Strftime(dt, [Year, Month, Day]) == y + (m + d);
    assert [Year, Month, Day, Hour][1..] == [Month, Day, Hour];
    assert Strftime(dt, [Year, Month, Day, Hour]) == y + (m + (d + h));
  }

  /** An address laid out from its four text fields. */
  function Assemble(y: string, m: string, d: string, h: string): string {
    ArchivePrefix + "/" + y + "/" + (y + m + d) + FileStem + (y + m + d + h) + FileSuffix
  }

  lemma UrlAssembled(dt: Calendar.DateTime)
    requires Encodable(dt)
    ensures HourlyDataUrl(dt) == Assemble(Digits.Pad(dt.year, 4), Digits.Pad(dt.month, 2),
      Digits.Pad(dt.day, 2), Digits.Pad(dt.hour, 2))
  {
    StrftimeSegments(dt);
  }

  /** Where each text field sits after a prefix `pre`. */
  lemma LayoutFields(pre: string, y: string, m: string, d: string, h: string)
    requires |y| == 4 && |m| == 2 && |d| == 2 && |h| == 2
    ensures var url, p := pre + "/" + y + "/" + (y + m + d) + FileStem + (y + m + d + h) + FileSuffix, |pre|;
      && |url| == p + 41
      && url[p] == '/' && url[p + 5] == '/'
      && url[p + 14..p + 27] == FileStem
      && url[p + 1..p + 5] == y && url[p + 6..p + 10] == y
      && url[p + 10..p + 12] == m && url[p + 12..p + 14] == d
      && url[p + 6..p + 14] == y + m + d && url[p + 27..p + 35] == y + m + d
      && url[p + 35..p + 37] == h
  {
    var p := |pre|;
    var head := pre + "/" + y + "/";
    var date := y + m + d;
    var tail := FileStem + (date + h) + FileSuffix;
    var url := head + date + tail;
    assert pre + "/" + y + "/" + date + FileStem + (date + h) + FileSuffix == url;
    assert |head| == p + 6 && head[p] == '/' && head[p + 5] == '/' && head[p + 1..p + 5] == y;
    assert date[0..4] == y && date[4..6] == m && date[6..8] == d;
    assert tail[0..13] == FileStem && tail[13..21] == date && tail[21..23] == h;
  }

  /** Where each text field sits in an assembled address. */
  lemma AssembleFields(y: string, m: string, d: string, h: string)
    requires |y| == 4 && |m| == 2 && |d| == 2 && |h| == 2
    ensures var url, p := Assemble(y, m, d, h), |ArchivePrefix|;
      && |url| == p + 41
      && url[p] == '/' && url[p + 5] == '/'
      && url[p + 14..p + 27] == FileStem
      && url[p + 1..p + 5] == y && url[p + 6..p + 10] == y
      && url[p + 10..p + 12] == m && url[p + 12..p + 14] == d
      && url[p + 6..p + 14] == y + m + d && url[p + 27..p + 35] == y + m + d
      && url[p + 35..p + 37] == h
  {
    LayoutFields(ArchivePrefix, y, m, d, h);
  }

  /** Where each field sits in the address: after the prefix come `/`, the year, `/`,
      the year again with the zero-padded month and day, `/HourlyAQObs_`, that date
      again with the zero-padded 24-hour clock hour, and `.dat`. */
  lemma UrlFields(dt: Calendar.DateTime)
    requires Encodable(dt)
    ensures var url, p := HourlyDataUrl(dt), |ArchivePrefix|;
      && url[p] == '/' && url[p + 5] == '/'
      && url[p + 14..p + 27] == FileStem
      && url[p + 1..p + 5] == url[p + 6..p + 10]
      && url[p + 6..p + 14] == url[p + 27..p + 35]
      && Digits.NumberAt(url, p + 1, p + 5) == Some(dt.year)
      && Digits.NumberAt(url, p + 10, p + 12) == Some(dt.month)
      && Digits.NumberAt(url, p + 12, p + 14) == Some(dt.day)
      && Digits.NumberAt(url, p + 35, p + 37) == Some(dt.hour)
  {
    UrlAssembled(dt);
    AssembleFields(Digits.Pad(dt.year, 4), Digits.Pad(dt.month, 2),
      Digits.Pad(dt.day, 2), Digits.Pad(dt.hour, 2));
    Digits.ValueOfPad(dt.year, 4);
    Digits.ValueOfPad(dt.month, 2);
    Digits.ValueOfPad(dt.day, 2);
    Digits.ValueOfPad(dt.hour, 2);
  }

  /** Decoding an address gives back the date and hour it was made from. */
  lemma ParseOfUrl(dt: Calendar.DateTime)
    requires Encodable(dt)
    ensures ParseHourlyDataUrl(HourlyDataUrl(dt)) == Some(DateHourOf(dt))
  {
    UrlFields(dt);
  }

  /** A text the decoder accepts is laid out from its own digit fields. */
  lemma ParsedUrlAssembled(url: string)
    requires ParseHourlyDataUrl(url).Some?
    ensures var p := |ArchivePrefix|;
      url == Assemble(url[p + 1..p + 5], url[p + 10..p + 12], url[p + 12..p + 14], url[p + 35..p + 37])
  {
    var p := |ArchivePrefix|;
    var y, m, d, h := url[p + 1..p + 5], url[p + 10..p + 12], url[p + 12..p + 14], url[p + 35..p + 37];
    Digits.SliceSplit(url, p + 6, p + 10, p + 12);
    Digits.SliceSplit(url, p + 6, p + 12, p + 14);
    assert url[p + 6..p + 14] == y + m + d;
    Digits.SliceSplit(url, p + 27, p + 35, p + 37);
    assert url[p + 27..p + 37] == y + m + d + h;
    assert url[p..p + 1] == "/" && url[p + 5..p + 6] == "/";
    Digits.SliceSplit(url, 0, p, p + 1);
    Digits.SliceSplit(url, 0, p + 1, p + 5);
    Digits.SliceSplit(url, 0, p + 5, p + 6);
    Digits.SliceSplit(url, 0, p + 6, p + 14);
    Digits.SliceSplit(url, 0, p + 14, p + 27);
    Digits.SliceSplit(url, 0, p + 27, p + 37);
    Digits.SliceSplit(url, 0, p + 37, |url|);
    assert url == url[0..|url|];
  }

  /** The text fields of an accepted address are the numerals of the date and hour it
      decodes to. */
  lemma ParsedFields(url: string)
    requires ParseHourlyDataUrl(url).Some?
    ensures var r, p := ParseHourlyDataUrl(url).value, |ArchivePrefix|;
      && Digits.NumberAt(url, p + 1, p + 5) == Some(r.year)
      && Digits.NumberAt(url, p + 10, p + 12) == Some(r.month)
      && Digits.NumberAt(url, p + 12, p + 14) == Some(r.day)
      && Digits.NumberAt(url, p + 35, p + 37) == Some(r.hour)
  {
  }

  /** A digit field of `url` holding `n` is the `w`-digit numeral of `n`. */
  lemma FieldIsPad(url: string, lo: int, w: nat, n: nat)
    requires 0 <= lo && lo + w <= |url|
    requires Digits.NumberAt(url, lo, lo + w) == Some(n)
    ensures n < Digits.Pow10(w) && url[lo..lo + w] == Digits.Pad(n, w)
  {
    Digits.PadOfValue(url[lo..lo + w]);
  }

  /** Every text the decoder accepts is the address of each `datetime` in that hour. */
  lemma UrlOfParse(url: string, dt: Calendar.DateTime)
    requires Encodable(dt)
    requires ParseHourlyDataUrl(url) == Some(DateHourOf(dt))
    ensures HourlyDataUrl(dt) == url
  {
    var p := |ArchivePrefix|;
    ParsedUrlAssembled(url);
    ParsedFields(url);
    FieldIsPad(url, p + 1, 4, dt.year);
    FieldIsPad(url, p + 10, 2, dt.month);
    FieldIsPad(url, p + 12, 2, dt.day);
    FieldIsPad(url, p + 35, 2, dt.hour);
    UrlAssembled(dt);
  }

  /** Two `datetime`s get the same address exactly when they share year, month, day and
      hour: minutes and finer fields do not matter, and distinct hours never collide. */
  lemma UrlIdentifiesHour(a: Calendar.DateTime, b: Calendar.DateTime)
    requires Encodable(a) && Encodable(b)
    ensures HourlyDataUrl(a) == HourlyDataUrl(b) <==> DateHourOf(a) == DateHourOf(b)
  {
    ParseOfUrl(a);
    ParseOfUrl(b);
    if DateHourOf(a) == DateHourOf(b) {
      UrlOfParse(HourlyDataUrl(a), b);
    }
  }
}
