/** HTTP dates: the date pattern language of `SimpleDateFormat` restricted to
    the letters the header pattern uses, rendered with the US English name
    tables in GMT, together with the IMF-fixdate form of section 7.1.1.1 of
    RFC 7231 and a parser for that form. */
module HttpDate {
  import opened Wrappers
  import opened Decimal
  import opened Calendar

  const ShortWeekdays: seq<string> := ["Sun", "Mon", "Tue", "Wed", "Thu", "Fri", "Sat"]
  const LongWeekdays: seq<string> :=
    ["Sunday", "Monday", "Tuesday", "Wednesday", "Thursday", "Friday", "Saturday"]
  const ShortMonths: seq<string> :=
    ["Jan", "Feb", "Mar", "Apr", "May", "Jun", "Jul", "Aug", "Sep", "Oct", "Nov", "Dec"]
  const LongMonths: seq<string> :=
    ["January", "February", "March", "April", "May", "June", "July", "August",
     "September", "October", "November", "December"]

  /** The fields of an instant as the formatter prints them. */
  datatype DateTime = DateTime(date: Date, weekday: nat, time: TimeOfDay)

  predicate ValidDateTime(t: DateTime) {
    ValidDate(t.date) && t.weekday < 7 && ValidTime(t.time)
  }

  /** The instant (whole seconds) the fields denote. */
  function InstantOf(t: DateTime): int
    requires ValidDate(t.date)
  {
    DaysFromCivil(t.date) * MillisPerDay + MillisOfDay(t.time)
  }

  /** Instants whose GMT calendar date lies in years 1583 through 9999. */
  predicate InFormatRange(millis: int) {
    InCalendarRange(EpochDay(millis))
  }

  /** Splits an instant into its GMT calendar fields. */
  function Decompose(millis: int): (t: DateTime)
    requires InFormatRange(millis)
    ensures ValidDateTime(t)
    ensures t.weekday == DayOfWeek(DaysFromCivil(t.date))
    ensures InstantOf(t) == millis - millis % MillisPerSecond
  {
    var days := EpochDay(millis);
    DateTime(CivilFromDays(days), DayOfWeek(days), TimeOfDayOf(millis))
  }

  /** Fields that agree with their weekday are exactly the decomposition of
      the instant they denote. */
  lemma DecomposeOfInstant(t: DateTime)
    requires ValidDateTime(t) && t.weekday == DayOfWeek(DaysFromCivil(t.date))
    ensures InFormatRange(InstantOf(t))
    ensures Decompose(InstantOf(t)) == t
  {
    var days := DaysFromCivil(t.date);
    var x := InstantOf(t);
    InstantFields(days, t.time);
    assert EpochDay(x) == days && TimeOfDayOf(x) == t.time;
    CivilFromDaysOfCivil(t.date);
    assert CivilFromDays(EpochDay(x)) == t.date;
  }

  // ---------------------------------------------------------------------------
  // Pattern language

  /** The calendar fields a pattern letter can print. */
  datatype Field =
    | DayOfWeekField      // E
    | DayOfMonthField     // d
    | MonthField          // M
    | YearField           // y
    | HourOfDayField      // H
    | MinuteField         // m
    | SecondField         // s
    | ZoneField           // z

  /** A compiled pattern item: a literal character, or a field together with
      the number of times its letter is repeated. */
  datatype PatternItem = Literal(c: char) | Run(field: Field, width: nat)

  predicate IsPatternLetter(c: char) {
    'a' <= c <= 'z' || 'A' <= c <= 'Z'
  }

  function FieldOfLetter(c: char): (r: Option<Field>)
    ensures r.Some? ==> IsPatternLetter(c) && LetterOf(r.value) == c
  {
    match c
    case 'E' => Some(DayOfWeekField)
    case 'd' => Some(DayOfMonthField)
    case 'M' => Some(MonthField)
    case 'y' => Some(YearField)
    case 'H' => Some(HourOfDayField)
    case 'm' => Some(MinuteField)
    case 's' => Some(SecondField)
    case 'z' => Some(ZoneField)
    case _ => None
  }

  function LetterOf(f: Field): char {
    match f
    case DayOfWeekField => 'E'
    case DayOfMonthField => 'd'
    case MonthField => 'M'
    case YearField => 'y'
    case HourOfDayField => 'H'
    case MinuteField => 'm'
    case SecondField => 's'
    case ZoneField => 'z'
  }

  /** Characters this model cannot compile: pattern letters outside the eight
      above, and the quote that starts quoted text. */
  predicate Unsupported(c: char) {
    (IsPatternLetter(c) && FieldOfLetter(c).None?) || c == '\''
  }

  function Repeat(c: char, n: nat): (s: string)
    ensures |s| == n && forall i :: 0 <= i < n ==> s[i] == c
  {
    if n == 0 then "" else [c] + Repeat(c, n - 1)
  }

  /** The pattern text a compiled pattern came from. */
  function PatternText(items: seq<PatternItem>): string {
    if |items| == 0 then ""
    else
      var head := match items[0]
        case Literal(c) => [c]
        case Run(f, w) => Repeat(LetterOf(f), w);
      head + PatternText(items[1..])
  }

  /** Length of the run of `c` at the start of `s`. */
  function RunLength(s: string, c: char): (n: nat)
    ensures n <= |s|
    ensures forall i :: 0 <= i < n ==> s[i] == c
    ensures n < |s| ==> s[n] != c
  {
    if |s| == 0 || s[0] != c then 0 else 1 + RunLength(s[1..], c)
  }

  /** Compiles pattern text into items, one run per maximal block of a
      repeated letter, every other character a literal; fails on the first
      unsupported character. */
  function Compile(text: string): (r: Option<seq<PatternItem>>)
    ensures r.Some? ==> PatternText(r.value) == text
    ensures r.None? <==> exists i :: 0 <= i < |text| && Unsupported(text[i])
    decreases |text|
  {
    if |text| == 0 then Some([])
    else if text[0] == '\'' then None
    else if IsPatternLetter(text[0]) then
      var n := RunLength(text, text[0]);
      var rest := Compile(text[n..]);
      match FieldOfLetter(text[0])
      case None => None
      case Some(f) =>
        if rest.None? then
          var j :| 0 <= j < |text[n..]| && Unsupported(text[n..][j]);
          assert Unsupported(text[n + j]);
          None
        else
          var items := [Run(f, n)] + rest.value;
          assert items[1..] == rest.value;
          assert text == Repeat(text[0], n) + text[n..];
          assert !Unsupported(text[0]);
          Some(items)
    else
      var rest := Compile(text[1..]);
      if rest.None? then
        var j :| 0 <= j < |text[1..]| && Unsupported(text[1..][j]);
        assert Unsupported(text[1 + j]);
        None
      else
        var items := [Literal(text[0])] + rest.value;
        assert items[1..] == rest.value;
        assert text == [text[0]] + text[1..];
        Some(items)
  }

  /** What one field prints with its letter repeated `width` times: names
      from the US tables (long names from four letters on), numbers padded
      with zeros to `width` digits, `yy` the last two digits of the year, and
      the GMT zone's name. */
  function RenderField(f: Field, width: nat, t: DateTime): string
    requires ValidDateTime(t)
  {
    match f
    case DayOfWeekField =>
      if width >= 4 then LongWeekdays[t.weekday] else ShortWeekdays[t.weekday]
    case DayOfMonthField => ZeroPad(t.date.day, width)
    case MonthField =>
      if width >= 4 then LongMonths[t.date.month - 1]
      else if width == 3 then ShortMonths[t.date.month - 1]
      else ZeroPad(t.date.month, width)
    case YearField =>
      if width == 2 then ZeroPad(t.date.year % 100, 2) else ZeroPad(t.date.year, width)
    case HourOfDayField => ZeroPad(t.time.hour, width)
    case MinuteField => ZeroPad(t.time.minute, width)
    case SecondField => ZeroPad(t.time.second, width)
    case ZoneField => if width >= 4 then "Greenwich Mean Time" else "GMT"
  }

  /** `r` is the number `n` in decimal digits, at least `width` of them. */
  predicate PrintsNumber(r: string, width: nat, n: nat) {
    AllDigits(r) && |r| >= width && DigitsValue(r) == n
  }

  /** What each letter prints can be read back: a numeric field is its
      number in at least `width` digits (`yy` in exactly two, the year modulo
      100), and a name finds its weekday or month back in the table it was
      taken from, since the names of a table are distinct. */
  lemma RenderFieldReadsBack(f: Field, width: nat, t: DateTime)
    requires ValidDateTime(t)
    ensures var r := RenderField(f, width, t);
      && (f == DayOfMonthField ==> PrintsNumber(r, width, t.date.day))
      && (f == MonthField && width < 3 ==> PrintsNumber(r, width, t.date.month))
      && (f == YearField && width != 2 ==> PrintsNumber(r, width, t.date.year))
      && (f == YearField && width == 2 ==> |r| == 2 && AllDigits(r) && DigitsValue(r) == t.date.year % 100)
      && (f == HourOfDayField ==> PrintsNumber(r, width, t.time.hour))
      && (f == MinuteField ==> PrintsNumber(r, width, t.time.minute))
      && (f == SecondField ==> PrintsNumber(r, width, t.time.second))
    ensures f == DayOfWeekField ==>
      IndexOf(if width >= 4 then LongWeekdays else ShortWeekdays, RenderField(f, width, t)) == Some(t.weekday)
    ensures f == MonthField && width >= 3 ==>
      IndexOf(if width >= 4 then LongMonths else ShortMonths, RenderField(f, width, t)) == Some(t.date.month - 1)
  {
    TablesDistinct();
    LongTablesDistinct();
    if f == DayOfWeekField {
      IndexOfDistinct(if width >= 4 then LongWeekdays else ShortWeekdays, t.weekday);
    } else if f == MonthField && width >= 3 {
      IndexOfDistinct(if width >= 4 then LongMonths else ShortMonths, t.date.month - 1);
    } else if f == YearField && width == 2 {
      ZeroPadLength(t.date.year % 100, 2);
    }
  }

  function RenderItem(item: PatternItem, t: DateTime): string
    requires ValidDateTime(t)
  {
    match item
    case Literal(c) => [c]
    case Run(f, w) => RenderField(f, w, t)
  }

  /** Prints the fields `t` as the compiled pattern says, item after item. */
  function Render(items: seq<PatternItem>, t: DateTime): string
    requires ValidDateTime(t)
  {
    if |items| == 0 then "" else RenderItem(items[0], t) + Render(items[1..], t)
  }

  /** The date pattern the header formatter is built with. */
  const HeaderPatternText: string := "EEE, dd MMM yyyy HH:mm:ss z"

  /** The header pattern, compiled, in four parts: weekday, date, time and zone. */
  const WeekdayItems: seq<PatternItem> := [Run(DayOfWeekField, 3), Literal(','), Literal(' ')]
  const DateItems: seq<PatternItem> :=
    [Run(DayOfMonthField, 2), Literal(' '), Run(MonthField, 3), Literal(' '), Run(YearField, 4), Literal(' ')]
  const TimeItems: seq<PatternItem> :=
    [Run(HourOfDayField, 2), Literal(':'), Run(MinuteField, 2), Literal(':'), Run(SecondField, 2), Literal(' ')]
  const ZoneItems: seq<PatternItem> := [Run(ZoneField, 1)]
  const HeaderPattern: seq<PatternItem> := WeekdayItems + DateItems + TimeItems + ZoneItems

  /** Patterns `Compile` can produce: literals are neither letters nor
      quotes, runs are non-empty, and two adjacent runs print different
      letters (otherwise they would be one run). */
  predicate WellFormedPattern(items: seq<PatternItem>) {
    && (forall i :: 0 <= i < |items| ==> ItemWellFormed(items[i]))
    && (forall i :: 0 <= i < |items| - 1 ==> !SameRunField(items[i], items[i + 1]))
  }

  predicate ItemWellFormed(item: PatternItem) {
    match item
    case Literal(c) => !IsPatternLetter(c) && c != '\''
    case Run(_, w) => w >= 1
  }

  predicate SameRunField(a: PatternItem, b: PatternItem) {
    a.Run? && b.Run? && a.field == b.field
  }

  /** Compiling a pattern's text gives the pattern back. */
  lemma {:induction false} CompileOfPatternText(items: seq<PatternItem>)
    requires WellFormedPattern(items)
    ensures Compile(PatternText(items)) == Some(items)
  {
    if |items| > 0 {
      var rest := items[1..];
      var tail := PatternText(rest);
      var text := PatternText(items);
      assert WellFormedPattern(rest) by {
        forall i | 0 <= i < |rest| - 1
          ensures !SameRunField(rest[i], rest[i + 1])
        {
          assert rest[i] == items[i + 1] && rest[i + 1] == items[i + 2];
        }
      }
      CompileOfPatternText(rest);
      assert items == [items[0]] + rest;
      match items[0]
      case Literal(c) =>
        assert text == [c] + tail;
        assert text[1..] == tail;
      case Run(f, w) =>
        var letter := LetterOf(f);
        LetterRoundTrip(f);
        assert text == Repeat(letter, w) + tail;
        assert text[0] == letter;
        if |rest| > 0 {
          FirstCharOfPatternText(rest);
          assert !SameRunField(items[0], items[1]);
          NextItemStartsWithOtherLetter(f, rest[0]);
          assert text[w] == tail[0];
        }
        assert text[w..] == tail;
    }
  }

  /** `Compile` produces only well-formed patterns: every run is maximal, so
      the letter count of each block sets the width of one field. With
      `CompileOfPatternText` this makes the compiled form of a text unique. */
  lemma {:induction false} CompileWellFormed(text: string)
    requires Compile(text).Some?
    ensures WellFormedPattern(Compile(text).value)
    decreases |text|
  {
    if |text| > 0 {
      var items := Compile(text).value;
      if IsPatternLetter(text[0]) {
        var n := RunLength(text, text[0]);
        var f := FieldOfLetter(text[0]).value;
        var rest := Compile(text[n..]).value;
        CompileWellFormed(text[n..]);
        assert items == [Run(f, n)] + rest;
        if |rest| > 0 {
          FirstCharOfPatternText(rest);
          assert PatternText(rest)[0] == text[n];
          assert FirstChar(rest[0]) != LetterOf(f);
        }
        WellFormedCons(Run(f, n), rest);
      } else {
        var rest := Compile(text[1..]).value;
        CompileWellFormed(text[1..]);
        assert items == [Literal(text[0])] + rest;
        WellFormedCons(Literal(text[0]), rest);
      }
    }
  }

  lemma WellFormedCons(x: PatternItem, rest: seq<PatternItem>)
    requires ItemWellFormed(x) && WellFormedPattern(rest)
    requires |rest| > 0 ==> !SameRunField(x, rest[0])
    ensures WellFormedPattern([x] + rest)
  {
    var items := [x] + rest;
    forall i | 0 <= i < |items| - 1
      ensures !SameRunField(items[i], items[i + 1])
    {
      if i > 0 {
        assert items[i] == rest[i - 1] && items[i + 1] == rest[i];
      }
    }
  }

  lemma LetterRoundTrip(f: Field)
    ensures IsPatternLetter(LetterOf(f)) && FieldOfLetter(LetterOf(f)) == Some(f)
    ensures LetterOf(f) != '\''
  {
  }

  lemma NextItemStartsWithOtherLetter(f: Field, next: PatternItem)
    requires ItemWellFormed(next)
    requires !SameRunField(Run(f, 1), next)
    ensures FirstChar(next) != LetterOf(f)
  {
  }

  /** The first character an item prints in pattern text. */
  function FirstChar(item: PatternItem): char {
    match item
    case Literal(c) => c
    case Run(f, _) => LetterOf(f)
  }

  lemma FirstCharOfPatternText(items: seq<PatternItem>)
    requires |items| > 0 && ItemWellFormed(items[0])
    ensures |PatternText(items)| > 0 && PatternText(items)[0] == FirstChar(items[0])
  {
  }

  lemma {:induction false} PatternTextAppend(a: seq<PatternItem>, b: seq<PatternItem>)
    ensures PatternText(a + b) == PatternText(a) + PatternText(b)
  {
    if |a| > 0 {
      assert (a + b)[0] == a[0];
      assert (a + b)[1..] == a[1..] + b;
      PatternTextAppend(a[1..], b);
    } else {
      assert a + b == b;
    }
  }

  lemma HeaderPatternWellFormed()
    ensures WellFormedPattern(HeaderPattern)
  {
  }

  lemma CompileHeaderPattern()
    ensures Compile(HeaderPatternText) == Some(HeaderPattern)
  {
    HeaderPatternTextOf();
    HeaderPatternWellFormed();
    CompileOfPatternText(HeaderPattern);
  }

  lemma HeaderPatternTextOf()
    ensures PatternText(HeaderPattern) == HeaderPatternText
  {
    PartTexts();
    PatternTextAppend(WeekdayItems, DateItems);
    PatternTextAppend(WeekdayItems + DateItems, TimeItems);
    PatternTextAppend(WeekdayItems + DateItems + TimeItems, ZoneItems);
  }

  lemma PartTexts()
    ensures PatternText(WeekdayItems) == "EEE, "
    ensures PatternText(DateItems) == "dd MMM yyyy "
    ensures PatternText(TimeItems) == "HH:mm:ss "
    ensures PatternText(ZoneItems) == "z"
  {
  }

  /** The IMF-fixdate form of section 7.1.1.1 of RFC 7231:
      `day-name "," SP date1 SP time-of-day SP "GMT"`. */
  function ImfFixdate(t: DateTime): string
    requires ValidDateTime(t)
  {
    ShortWeekdays[t.weekday] + ", " + Date1(t.date) + " " + TimeOfDayText(t.time) + " GMT"
  }

  /** `date1 = day SP month SP year`: two-digit day, short month name and
      four-digit year. */
  function Date1(d: Date): string
    requires ValidDate(d)
  {
    ZeroPad(d.day, 2) + " " + ShortMonths[d.month - 1] + " " + ZeroPad(d.year, 4)
  }

  /** `time-of-day = hour ":" minute ":" second`, each two digits. */
  function TimeOfDayText(t: TimeOfDay): string
    requires ValidTime(t)
  {
    ZeroPad(t.hour, 2) + ":" + ZeroPad(t.minute, 2) + ":" + ZeroPad(t.second, 2)
  }

  /** The header pattern prints exactly the IMF-fixdate form. */
  lemma HeaderPatternIsImfFixdate(t: DateTime)
    requires ValidDateTime(t)
    ensures Render(HeaderPattern, t) == ImfFixdate(t)
  {
    RenderParts(t);
    RenderFour(WeekdayItems, DateItems, TimeItems, ZoneItems, t);
    Regroup(ShortWeekdays[t.weekday], Date1(t.date), TimeOfDayText(t.time));
  }

  lemma Regroup(w: string, d: string, tm: string)
    ensures w + ", " + d + " " + tm + " GMT" == (w + ", ") + (d + " ") + (tm + " ") + "GMT"
  {
  }

  lemma RenderFour(a: seq<PatternItem>, b: seq<PatternItem>, c: seq<PatternItem>, d: seq<PatternItem>, t: DateTime)
    requires ValidDateTime(t)
    ensures Render(a + b + c + d, t) == Render(a, t) + Render(b, t) + Render(c, t) + Render(d, t)
  {
    RenderAppend(a, b, t);
    RenderAppend(a + b, c, t);
    RenderAppend(a + b + c, d, t);
  }

  lemma RenderParts(t: DateTime)
    requires ValidDateTime(t)
    ensures Render(WeekdayItems, t) == ShortWeekdays[t.weekday] + ", "
    ensures Render(DateItems, t) == Date1(t.date) + " "
    ensures Render(TimeItems, t) == TimeOfDayText(t.time) + " "
    ensures Render(ZoneItems, t) == "GMT"
  {
    RenderWeekdayPart(t);
    RenderDatePart(t);
    RenderTimePart(t);
    assert ZoneItems[1..] == [];
  }

  lemma RenderWeekdayPart(t: DateTime)
    requires ValidDateTime(t)
    ensures Render(WeekdayItems, t) == ShortWeekdays[t.weekday] + ", "
  {
    RenderThree(Run(DayOfWeekField, 3), Literal(','), Literal(' '), t);
  }

  lemma RenderDatePart(t: DateTime)
    requires ValidDateTime(t)
    ensures Render(DateItems, t) == Date1(t.date) + " "
  {
    var a := [Run(DayOfMonthField, 2), Literal(' '), Run(MonthField, 3)];
    var b := [Literal(' '), Run(YearField, 4), Literal(' ')];
    var day, month, year := ZeroPad(t.date.day, 2), ShortMonths[t.date.month - 1], ZeroPad(t.date.year, 4);
    RenderThree(a[0], a[1], a[2], t);
    assert Render(a, t) == day + " " + month;
    RenderThree(b[0], b[1], b[2], t);
    assert Render(b, t) == " " + year + " ";
    assert DateItems == a + b;
    RenderAppend(a, b, t);
  }

  lemma RenderTimePart(t: DateTime)
    requires ValidDateTime(t)
    ensures Render(TimeItems, t) == TimeOfDayText(t.time) + " "
  {
    var a := [Run(HourOfDayField, 2), Literal(':'), Run(MinuteField, 2)];
    var b := [Literal(':'), Run(SecondField, 2), Literal(' ')];
    var hour, minute, second := ZeroPad(t.time.hour, 2), ZeroPad(t.time.minute, 2), ZeroPad(t.time.second, 2);
    RenderThree(a[0], a[1], a[2], t);
    assert Render(a, t) == hour + ":" + minute;
    RenderThree(b[0], b[1], b[2], t);
    assert Render(b, t) == ":" + second + " ";
    assert TimeItems == a + b;
    RenderAppend(a, b, t);
  }

  lemma RenderThree(a: PatternItem, b: PatternItem, c: PatternItem, t: DateTime)
    requires ValidDateTime(t)
    ensures Render([a, b, c], t) == RenderItem(a, t) + RenderItem(b, t) + RenderItem(c, t)
  {
    RenderCons(a, [b, c], t);
    RenderCons(b, [c], t);
    RenderCons(c, [], t);
  }

  lemma RenderCons(a: PatternItem, rest: seq<PatternItem>, t: DateTime)
    requires ValidDateTime(t)
    ensures Render([a] + rest, t) == RenderItem(a, t) + Render(rest, t)
  {
    assert ([a] + rest)[0] == a;
    assert ([a] + rest)[1..] == rest;
  }

  lemma {:induction false} RenderAppend(a: seq<PatternItem>, b: seq<PatternItem>, t: DateTime)
    requires ValidDateTime(t)
    ensures Render(a + b, t) == Render(a, t) + Render(b, t)
  {
    if |a| > 0 {
      assert (a + b)[0] == a[0];
      assert (a + b)[1..] == a[1..] + b;
      RenderAppend(a[1..], b, t);
    } else {
      assert a + b == b;
    }
  }

  // ---------------------------------------------------------------------------
  // The formatter's output and its inverse

  /** What the header formatter prints for an instant: the header pattern
      applied to the instant's GMT fields. */
  function FormatHttpDate(millis: int): (r: string)
    requires InFormatRange(millis)
    ensures r == ImfFixdate(Decompose(millis))
  {
    var t := Decompose(millis);
    HeaderPatternIsImfFixdate(t);
    Render(HeaderPattern, t)
  }

  /** Position of `name` in a name table. */
  function IndexOf(names: seq<string>, name: string): (r: Option<nat>)
    ensures r.Some? ==> r.value < |names| && names[r.value] == name
    ensures r.None? ==> name !in names
  {
    if |names| == 0 then None
    else if names[0] == name then Some(0)
    else
      match IndexOf(names[1..], name)
      case None => None
      case Some(i) => Some(i + 1)
  }

  predicate DistinctNames(names: seq<string>) {
    forall i, j :: 0 <= i < j < |names| ==> names[i] != names[j]
  }

  lemma TablesDistinct()
    ensures DistinctNames(ShortWeekdays) && DistinctNames(ShortMonths)
    ensures forall i :: 0 <= i < |ShortWeekdays| ==> |ShortWeekdays[i]| == 3
    ensures forall i :: 0 <= i < |ShortMonths| ==> |ShortMonths[i]| == 3
  {
  }

  lemma LongTablesDistinct()
    ensures DistinctNames(LongWeekdays) && DistinctNames(LongMonths)
  {
  }

  lemma IndexOfDistinct(names: seq<string>, i: nat)
    requires DistinctNames(names) && i < |names|
    ensures IndexOf(names, names[i]) == Some(i)
  {
  }

  function ParseTimeOfDay(s: string): (r: Option<TimeOfDay>)
    ensures r.Some? ==> ValidTime(r.value)
  {
    if |s| == 8 && s[2] == ':' && s[5] == ':'
       && AllDigits(s[..2]) && AllDigits(s[3..5]) && AllDigits(s[6..])
    then
      var t := TimeOfDay(DigitsValue(s[..2]), DigitsValue(s[3..5]), DigitsValue(s[6..]));
      if ValidTime(t) then Some(t) else None
    else None
  }

  function ParseDate1(s: string): (r: Option<Date>)
    ensures r.Some? ==> ValidDate(r.value)
  {
    if |s| == 11 && s[2] == ' ' && s[6] == ' ' && AllDigits(s[..2]) && AllDigits(s[7..]) then
      match IndexOf(ShortMonths, s[3..6])
      case None => None
      case Some(m) =>
        var d := Date(DigitsValue(s[7..]), m + 1, DigitsValue(s[..2]));
        if ValidDate(d) then Some(d) else None
    else None
  }

  /** Reads an IMF-fixdate back into the instant (whole seconds) it names;
      rejects any text the header formatter cannot print, including a
      weekday that does not match the date. */
  function ParseImfFixdate(s: string): (r: Option<int>)
  {
    if |s| != 29 || s[3..5] != ", " || s[16] != ' ' || s[25..] != " GMT" then None
    else
      match (IndexOf(ShortWeekdays, s[..3]), ParseDate1(s[5..16]), ParseTimeOfDay(s[17..25]))
      case (Some(w), Some(d), Some(t)) =>
        if w == DayOfWeek(DaysFromCivil(d)) then Some(InstantOf(DateTime(d, w, t))) else None
      case _ => None
  }

  lemma TimeOfDayTextShape(t: TimeOfDay)
    requires ValidTime(t)
    ensures var s := TimeOfDayText(t);
      && |s| == 8 && s[2] == ':' && s[5] == ':'
      && s[..2] == ZeroPad(t.hour, 2) && s[3..5] == ZeroPad(t.minute, 2) && s[6..] == ZeroPad(t.second, 2)
  {
    var h, m, sec := ZeroPad(t.hour, 2), ZeroPad(t.minute, 2), ZeroPad(t.second, 2);
    ZeroPadLength(t.hour, 2);
    ZeroPadLength(t.minute, 2);
    ZeroPadLength(t.second, 2);
    var s := TimeOfDayText(t);
    assert s == h + ":" + m + ":" + sec;
    assert s[..2] == h;
    assert s[3..5] == m;
    assert s[6..] == sec;
  }

  lemma Date1Shape(d: Date)
    requires ValidDate(d)
    ensures var s := Date1(d);
      && |s| == 11 && s[2] == ' ' && s[6] == ' '
      && s[..2] == ZeroPad(d.day, 2) && s[3..6] == ShortMonths[d.month - 1] && s[7..] == ZeroPad(d.year, 4)
  {
    ZeroPadLength(d.day, 2);
    ZeroPadLength(d.year, 4);
    TablesDistinct();
  }

  lemma SplitImf(w: string, d: string, tm: string)
    requires |w| == 3 && |d| == 11 && |tm| == 8
    ensures var s := w + ", " + d + " " + tm + " GMT";
      && |s| == 29 && s[..3] == w && s[3..5] == ", " && s[5..16] == d
      && s[16] == ' ' && s[17..25] == tm && s[25..] == " GMT"
  {
  }

  lemma JoinImf(s: string)
    requires |s| == 29 && s[3..5] == ", " && s[16] == ' ' && s[25..] == " GMT"
    ensures s == s[..3] + ", " + s[5..16] + " " + s[17..25] + " GMT"
  {
  }

  /** Layout of every date the header formatter prints: 29 characters, a
      weekday and a month from the English tables, every number zero-padded
      to its width, and the zone GMT at the end. */
  lemma HttpDateShape(millis: int)
    requires InFormatRange(millis)
    ensures var s := FormatHttpDate(millis);
      var t := Decompose(millis);
      && |s| == 29
      && s[..3] == ShortWeekdays[t.weekday] && s[3..5] == ", "
      && s[5..7] == ZeroPad(t.date.day, 2) && s[7] == ' '
      && s[8..11] == ShortMonths[t.date.month - 1] && s[11] == ' '
      && s[12..16] == ZeroPad(t.date.year, 4) && s[16] == ' '
      && s[17..19] == ZeroPad(t.time.hour, 2) && s[19] == ':'
      && s[20..22] == ZeroPad(t.time.minute, 2) && s[22] == ':'
      && s[23..25] == ZeroPad(t.time.second, 2)
      && s[25..] == " GMT"
  {
    var t := Decompose(millis);
    assert FormatHttpDate(millis) == ImfFixdate(t);
    ImfFixdateShape(t);
  }

  lemma ImfFixdateShape(t: DateTime)
    requires ValidDateTime(t)
    ensures var s := ImfFixdate(t);
      && |s| == 29
      && s[..3] == ShortWeekdays[t.weekday] && s[3..5] == ", "
      && s[5..7] == ZeroPad(t.date.day, 2) && s[7] == ' '
      && s[8..11] == ShortMonths[t.date.month - 1] && s[11] == ' '
      && s[12..16] == ZeroPad(t.date.year, 4) && s[16] == ' '
      && s[17..19] == ZeroPad(t.time.hour, 2) && s[19] == ':'
      && s[20..22] == ZeroPad(t.time.minute, 2) && s[22] == ':'
      && s[23..25] == ZeroPad(t.time.second, 2)
      && s[25..] == " GMT"
  {
    TablesDistinct();
    Date1Shape(t.date);
    TimeOfDayTextShape(t.time);
    var s := ImfFixdate(t);
    SplitImf(ShortWeekdays[t.weekday], Date1(t.date), TimeOfDayText(t.time));
    assert s[5..7] == s[5..16][..2];
    assert s[8..11] == s[5..16][3..6];
    assert s[12..16] == s[5..16][7..];
    assert s[17..19] == s[17..25][..2];
    assert s[20..22] == s[17..25][3..5];
    assert s[23..25] == s[17..25][6..];
  }

  lemma ParseTimeOfDayText(t: TimeOfDay)
    requires ValidTime(t)
    ensures ParseTimeOfDay(TimeOfDayText(t)) == Some(t)
  {
    TimeOfDayTextShape(t);
  }

  lemma TimeOfDayTextOfParse(s: string)
    requires ParseTimeOfDay(s).Some?
    ensures TimeOfDayText(ParseTimeOfDay(s).value) == s
  {
    ZeroPadOfValue(s[..2]);
    ZeroPadOfValue(s[3..5]);
    ZeroPadOfValue(s[6..]);
    JoinTimeOfDay(s);
  }

  lemma JoinTimeOfDay(s: string)
    requires |s| == 8 && s[2] == ':' && s[5] == ':'
    ensures s == s[..2] + ":" + s[3..5] + ":" + s[6..]
  {
  }

  lemma ParseDate1Text(d: Date)
    requires ValidDate(d)
    ensures ParseDate1(Date1(d)) == Some(d)
  {
    Date1Shape(d);
    TablesDistinct();
    IndexOfDistinct(ShortMonths, d.month - 1);
  }

  lemma Date1OfParse(s: string)
    requires ParseDate1(s).Some?
    ensures Date1(ParseDate1(s).value) == s
  {
    ZeroPadOfValue(s[..2]);
    ZeroPadOfValue(s[7..]);
    JoinDate1(s);
  }

  lemma JoinDate1(s: string)
    requires |s| == 11 && s[2] == ' ' && s[6] == ' '
    ensures s == s[..2] + " " + s[3..6] + " " + s[7..]
  {
  }

  /** Parsing what the formatter prints recovers the instant, truncated to
      whole seconds. */
  lemma ParseFormatHttpDate(millis: int)
    requires InFormatRange(millis)
    ensures ParseImfFixdate(FormatHttpDate(millis)).Some?
    ensures ParseImfFixdate(FormatHttpDate(millis)).value == millis - millis % MillisPerSecond
  {
    var t := Decompose(millis);
    HeaderPatternIsImfFixdate(t);
    ParseImfFixdateOf(t);
    var r := ParseImfFixdate(ImfFixdate(t));
    assert r == Some(InstantOf(t));
    assert r.value == millis - millis % MillisPerSecond;
  }

  lemma ParseImfFixdateOf(t: DateTime)
    requires ValidDateTime(t) && t.weekday == DayOfWeek(DaysFromCivil(t.date))
    ensures ParseImfFixdate(ImfFixdate(t)) == Some(InstantOf(t))
  {
    var s := ImfFixdate(t);
    TablesDistinct();
    Date1Shape(t.date);
    TimeOfDayTextShape(t.time);
    SplitImf(ShortWeekdays[t.weekday], Date1(t.date), TimeOfDayText(t.time));
    IndexOfDistinct(ShortWeekdays, t.weekday);
    ParseDate1Text(t.date);
    ParseTimeOfDayText(t.time);
    assert s[..3] == ShortWeekdays[t.weekday];
    assert s[5..16] == Date1(t.date);
    assert s[17..25] == TimeOfDayText(t.time);
  }

  /** Every text the parser accepts is exactly what the formatter prints for
      the instant parsed. */
  lemma FormatParseImfFixdate(s: string)
    requires ParseImfFixdate(s).Some?
    ensures InFormatRange(ParseImfFixdate(s).value)
    ensures FormatHttpDate(ParseImfFixdate(s).value) == s
  {
    var w := IndexOf(ShortWeekdays, s[..3]).value;
    var d := ParseDate1(s[5..16]).value;
    var tm := ParseTimeOfDay(s[17..25]).value;
    var t := DateTime(d, w, tm);
    DecomposeOfInstant(t);
    HeaderPatternIsImfFixdate(t);
    Date1OfParse(s[5..16]);
    TimeOfDayTextOfParse(s[17..25]);
    JoinImf(s);
  }
}
