/** Concrete calls worked through the model. */
module Scenarios {
  import opened Wrappers
  import opened JavaInts
  import opened Decimal
  import opened Calendar
  import opened HttpDate
  import opened HeaderUtility

  /** 2024-01-01 is day 19723 after the epoch, a Monday. */
  lemma NewYear2024()
    ensures DaysFromCivil(Date(2024, 1, 1)) == 19723
    ensures DayOfWeek(19723) == 1
  {
  }

  /** `createHeaders(3600, 60)` at 2024-01-01T00:00:00Z. */
  lemma CreateHeadersAtNewYear2024()
    ensures CreateHeaders(None, 1_704_067_200_000, 3600, 60).0
         == [Header("Cache-Control", "max-age=3600"), Header("X-Next-Refresh", "Mon, 01 Jan 2024 00:01:00 GMT")]
  {
    MaxAge3600();
    RefreshAtNewYear2024();
  }

  lemma MaxAge3600()
    ensures CreateMaxAgeHeaderValue(3600) == "max-age=3600"
  {
    assert NatToDecimal(3) == "3";
    assert NatToDecimal(36) == "36";
    assert NatToDecimal(360) == "360";
    assert NatToDecimal(3600) == "3600";
  }

  /** One minute after midnight on 2024-01-01, in IMF-fixdate form. */
  lemma RefreshAtNewYear2024()
    ensures FormatHttpDate(1_704_067_260_000) == "Mon, 01 Jan 2024 00:01:00 GMT"
  {
    var t := DateTime(Date(2024, 1, 1), 1, TimeOfDay(0, 1, 0));
    DecomposeAtNewYear2024();
    HeaderPatternIsImfFixdate(t);
    ImfFixdateAtNewYear2024();
  }

  lemma DecomposeAtNewYear2024()
    ensures InFormatRange(1_704_067_260_000)
    ensures Decompose(1_704_067_260_000) == DateTime(Date(2024, 1, 1), 1, TimeOfDay(0, 1, 0))
  {
    var t := DateTime(Date(2024, 1, 1), 1, TimeOfDay(0, 1, 0));
    NewYear2024();
    assert InstantOf(t) == 1_704_067_260_000;
    DecomposeOfInstant(t);
  }

  lemma ImfFixdateAtNewYear2024()
    ensures ImfFixdate(DateTime(Date(2024, 1, 1), 1, TimeOfDay(0, 1, 0))) == "Mon, 01 Jan 2024 00:01:00 GMT"
  {
    Date1AtNewYear2024();
    TimeOfDayTextAtMinuteOne();
    assert ShortWeekdays[1] == "Mon";
    Concat("Mon", "01 Jan 2024", "00:01:00");
  }

  lemma Date1AtNewYear2024()
    ensures Date1(Date(2024, 1, 1)) == "01 Jan 2024"
  {
    assert ZeroPad(1, 2) == "01";
    Decimal2024();
    assert ShortMonths[0] == "Jan";
  }

  lemma Decimal2024()
    ensures ZeroPad(2024, 4) == "2024"
  {
    assert NatToDecimal(20) == "20";
    assert NatToDecimal(202) == "202";
    assert NatToDecimal(2024) == "2024";
  }

  lemma TimeOfDayTextAtMinuteOne()
    ensures TimeOfDayText(TimeOfDay(0, 1, 0)) == "00:01:00"
  {
    assert ZeroPad(0, 2) == "00" && ZeroPad(1, 2) == "01";
  }

  lemma Concat(w: string, d: string, tm: string)
    requires w == "Mon" && d == "01 Jan 2024" && tm == "00:01:00"
    ensures w + ", " + d + " " + tm + " GMT" == "Mon, 01 Jan 2024 00:01:00 GMT"
  {
  }

  /** A negative max-age is printed with its sign. */
  lemma NegativeMaxAge()
    ensures CreateMaxAgeHeaderValue(-5) == "max-age=-5"
  {
    assert IntToDecimal(-5) == "-5";
  }

  /** At the very end of the long range the addition wraps, as Java's does. */
  lemma RefreshInstantWrapsAtLongMax()
    ensures RefreshInstant(LongMax, 1) == LongMin + 999
  {
  }
}
