/** `parse_time`: the hour of a clock-in string, read with the format `%H:%M`
    and, if that raises, with `%H:%M:%S`; a string neither format accepts has
    no hour.  Each format is applied as pandas' `to_datetime(s, format=...)`
    does: the whole string must match, `%H` is one or two digits up to 23,
    `%M` and `%S` one or two digits up to 59, and the strings pandas reads as
    "not a time" give a missing value instead of an error. */
module TimeParse {
  import opened Tables
  import opened Text

  /** The strings `to_datetime` turns into `NaT` rather than rejecting. */
  predicate IsNaTString(s: string)
  {
    s == "" || s == "NaT" || s == "nat" || s == "NAT" || s == "nan" || s == "NaN" || s == "NAN"
  }

  /** One numeric field of a format: one or two digits whose value is at most `max`. */
  predicate Field(f: string, max: nat)
  {
    1 <= |f| <= 2 && AllDigits(f) && DigitsValue(f) <= max
  }

  /** The outcome of `to_datetime(s, format=...).hour`. */
  datatype Attempt =
    | Hour(hour: nat)   // the string matches the format
    | NotATime          // `NaT`: the hour is missing, no exception
    | Mismatch          // `ValueError`

  /** `pd.to_datetime(s, format="%H:%M")` (`withSeconds` false) or
      `format="%H:%M:%S"` (`withSeconds` true), then `.hour`. */
  function TryFormat(s: string, withSeconds: bool): (r: Attempt)
    ensures r.Hour? ==> r.hour <= 23
    ensures r.NotATime? <==> IsNaTString(s)
    ensures r.Hour? ==> ':' in s && !IsNaTString(s)
  {
    if IsNaTString(s) then NotATime
    else
      var parts := Split(s, ':');
      if !withSeconds && |parts| == 2 && Field(parts[0], 23) && Field(parts[1], 59) then
        HoursField(s, parts);
        Hour(DigitsValue(parts[0]))
      else if withSeconds && |parts| == 3 && Field(parts[0], 23) && Field(parts[1], 59) && Field(parts[2], 59) then
        HoursField(s, parts);
        Hour(DigitsValue(parts[0]))
      else Mismatch
  }

  lemma HoursField(s: string, parts: seq<string>)
    requires parts == Split(s, ':') && |parts| >= 2
    ensures ':' in s
  {
    if ':' !in s {
      NoSeparator(s, ':');
    }
  }

  /** `parse_time(s)`: the hour from `%H:%M` if that format accepts `s`; otherwise,
      unless `s` is a "not a time" string, the hour from `%H:%M:%S`; otherwise
      missing. */
  function ParseTime(s: string): (r: Option<nat>)
    ensures r.Some? ==> r.value <= 23
    ensures TryFormat(s, false).Hour? ==> r == Some(TryFormat(s, false).hour)
    ensures TryFormat(s, false).Mismatch? && TryFormat(s, true).Hour? ==> r == Some(TryFormat(s, true).hour)
    ensures r.None? <==> !TryFormat(s, false).Hour? && !TryFormat(s, true).Hour?
  {
    match TryFormat(s, false)
    case Hour(h) => Some(h)
    case NotATime => None
    case Mismatch =>
      match TryFormat(s, true)
      case Hour(h) => Some(h)
      case _ => None
  }

  /** No string matches both formats, so the order in which they are tried decides
      nothing about the hour. */
  lemma FormatsExclusive(s: string)
    ensures !(TryFormat(s, false).Hour? && TryFormat(s, true).Hour?)
  {
  }

  /** A field of digits holds no colon. */
  lemma FieldHasNoColon(f: string, max: nat)
    requires Field(f, max)
    ensures ':' !in f
  {
  }

  /** A time written `H:M` or `HH:MM`, with an hour of at most 23 and a minute of at
      most 59, reads back as its hour through the first format. */
  lemma ParsesHourMinute(hh: string, mm: string)
    requires Field(hh, 23) && Field(mm, 59)
    ensures TryFormat(hh + ":" + mm, false) == Hour(DigitsValue(hh))
    ensures ParseTime(hh + ":" + mm) == Some(DigitsValue(hh))
  {
    var s := hh + ":" + mm;
    FieldHasNoColon(hh, 23);
    FieldHasNoColon(mm, 59);
    assert Join([hh, mm], ':') == s by {
      assert Join([mm], ':') == mm;
      assert [hh, mm][1..] == [mm];
    }
    SplitJoin([hh, mm], ':');
    assert s[|hh|] == ':';
  }

  /** A time written with seconds (`H:M:S` up to `HH:MM:SS`) fails the first format
      and reads back as its hour through the second. */
  lemma ParsesHourMinuteSecond(hh: string, mm: string, ss: string)
    requires Field(hh, 23) && Field(mm, 59) && Field(ss, 59)
    ensures TryFormat(hh + ":" + mm + ":" + ss, false) == Mismatch
    ensures ParseTime(hh + ":" + mm + ":" + ss) == Some(DigitsValue(hh))
  {
    var s := hh + ":" + mm + ":" + ss;
    FieldHasNoColon(hh, 23);
    FieldHasNoColon(mm, 59);
    FieldHasNoColon(ss, 59);
    assert Join([hh, mm, ss], ':') == s by {
      assert Join([ss], ':') == ss;
      assert [hh, mm, ss][1..] == [mm, ss] && [mm, ss][1..] == [ss];
    }
    SplitJoin([hh, mm, ss], ':');
    assert s[|hh|] == ':';
  }

  /** Conversely, every string that gets an hour is two or three fields separated by
      colons (`%H:%M` or `%H:%M:%S`), hour first, and the hour is the value of its
      hour field. */
  lemma HourComesFromFields(s: string)
    requires ParseTime(s).Some?
    ensures var p := Split(s, ':');
      Field(p[0], 23) && Field(p[1], 59)
      && ParseTime(s) == Some(DigitsValue(p[0]))
      && ((|p| == 2 && s == p[0] + ":" + p[1])
          || (|p| == 3 && Field(p[2], 59) && s == p[0] + ":" + p[1] + ":" + p[2]))
  {
    var p := Split(s, ':');
    JoinSplit(s, ':');
    if |p| == 2 {
      assert Join(p, ':') == p[0] + [':'] + Join(p[1..], ':');
      assert Join(p[1..], ':') == p[1];
    } else if |p| == 3 {
      assert Join(p, ':') == p[0] + [':'] + Join(p[1..], ':');
      assert Join(p[1..], ':') == p[1] + [':'] + Join(p[2..], ':');
      assert Join(p[2..], ':') == p[2];
    }
  }

  /** A missing `time_in` cell becomes the text `"nan"`, which has no hour. */
  lemma MissingTimeHasNoHour()
    ensures ParseTime("nan") == None
  {
  }

  /** An hour of 24 or more is rejected by both formats. */
  lemma HourOutOfRange()
    ensures ParseTime("24:00") == None
  {
    var s := "24:00";
    assert s == "24" + [':'] + "00";
    SplitAround("24", "00", ':');
    NoSeparator("00", ':');
    assert Split(s, ':') == ["24", "00"];
    assert DigitsValue("24") == 24 by {
      assert "24"[..1] == "2";
      assert "2"[..0] == "";
    }
  }
}
