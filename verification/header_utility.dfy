/** The response headers a handler attaches: a `Cache-Control: max-age=N`
    directive and an `X-Next-Refresh` HTTP date, `nextRefreshSeconds` after
    the current time. The wall clock is the parameter `now` (epoch
    milliseconds), and the worker's formatter cache is an explicit optional
    cell threaded through the calls. */
module HeaderUtility {
  import opened Wrappers
  import opened JavaInts
  import opened Decimal
  import opened Calendar
  import opened HttpDate

  const CacheControl: string := "Cache-Control"
  const NextRefresh: string := "X-Next-Refresh"
  const MaxAge: string := "max-age"

  /** One response header; the header set keeps its entries in the order
      they were added. */
  datatype Header = Header(name: string, value: string)

  /** `max-age=` followed by the decimal form of the argument; a negative
      argument is passed through with its minus sign. */
  function CreateMaxAgeHeaderValue(maxAgeSeconds: Int32): (r: string)
    ensures |r| > 8 && r[..8] == "max-age="
    ensures CanonicalInt(r[8..]) && ParseInt(r[8..]) == Some(maxAgeSeconds as int)
    ensures r[8] == '-' <==> maxAgeSeconds < 0
  {
    var digits := IntToDecimal(maxAgeSeconds);
    ParseIntOfDecimal(maxAgeSeconds);
    var r := MaxAge + "=" + digits;
    assert r[8..] == digits;
    r
  }

  // ---------------------------------------------------------------------------
  // The refresh instant

  /** `nextRefreshSeconds * 1000L`: the int operand is widened to long first,
      and no 32-bit value times 1000 leaves the long range. */
  function RefreshOffsetMillis(nextRefreshSeconds: Int32): (r: Int64)
    ensures r % MillisPerSecond == 0 && r / MillisPerSecond == nextRefreshSeconds as int
  {
    nextRefreshSeconds as int * 1000
  }

  /** `getDate`: the clock reading plus an offset, added in long arithmetic. */
  function GetDate(now: Int64, millis: Int64): (r: Int64)
    ensures (r - (now as int + millis as int)) % LongModulus == 0
    ensures InLongRange(now as int + millis as int) ==> r == now as int + millis as int
  {
    WrapLong(now as int + millis as int)
  }

  /** The instant `createHeaders` announces: `nextRefreshSeconds` after the
      clock reading, in Java's long arithmetic. */
  function RefreshInstant(now: Int64, nextRefreshSeconds: Int32): (r: Int64)
    ensures (r - (now as int + nextRefreshSeconds as int * 1000)) % LongModulus == 0
    ensures InLongRange(now as int + nextRefreshSeconds as int * 1000) ==>
      r == now as int + nextRefreshSeconds as int * 1000
  {
    GetDate(now, RefreshOffsetMillis(nextRefreshSeconds))
  }

  /** Clock readings for which no int offset makes the long sum wrap. */
  predicate SafeNow(now: int) {
    LongMin - IntMin * 1000 <= now <= LongMax - IntMax * 1000
  }

  /** For a clock reading at least 2^31 seconds away from the ends of the long
      range, the refresh instant is the exact sum for every int offset. */
  lemma RefreshInstantExact(now: Int64, nextRefreshSeconds: Int32)
    requires SafeNow(now)
    ensures RefreshInstant(now, nextRefreshSeconds) == now as int + nextRefreshSeconds as int * 1000
  {
  }

  /** Outside that band some int offset does make the sum wrap, so the band is
      exactly the set of clock readings for which the addition never wraps. */
  lemma RefreshInstantWraps(now: Int64)
    requires !SafeNow(now)
    ensures RefreshInstant(now, IntMin) != now as int + IntMin * 1000
         || RefreshInstant(now, IntMax) != now as int + IntMax * 1000
  {
    if now < LongMin - IntMin * 1000 {
      assert !InLongRange(now as int + IntMin * 1000);
    } else {
      assert !InLongRange(now as int + IntMax * 1000);
    }
  }

  /** Every clock reading from the epoch to the end of year 9999 is safe. */
  lemma RealisticNowIsSafe(now: Int64)
    requires 0 <= now < DaysBeforeYear(MaxYear + 1) * MillisPerDay
    ensures SafeNow(now)
  {
    DaysBeforeYearMonotone(1970, MaxYear + 1);
    assert DaysBeforeYear(MaxYear + 1) <= 3_000_000;
  }

  /** With a safe clock reading, a later refresh (in seconds) gives a later
      instant, by exactly 1000 ms per second. */
  lemma RefreshInstantMonotone(now: Int64, a: Int32, b: Int32)
    requires SafeNow(now) && a <= b
    ensures RefreshInstant(now, a) <= RefreshInstant(now, b)
    ensures RefreshInstant(now, b) - RefreshInstant(now, a) == (b - a) * 1000
  {
    RefreshInstantExact(now, a);
    RefreshInstantExact(now, b);
  }

  /** Every call made with a clock reading from the epoch to the start of
      year 9931 can be formatted: no int count of seconds (about 68 years
      either way) moves the refresh instant out of years 1583 to 9999. */
  lemma RealisticCallFormattable(now: Int64, nextRefreshSeconds: Int32)
    requires 0 <= now < DaysBeforeYear(9931) * MillisPerDay
    ensures Formattable(now, nextRefreshSeconds)
  {
    assert DaysBeforeYear(9931) == 2907695;
    assert DaysBeforeYear(MaxYear + 1) == 2932897;
    assert DaysBeforeYear(MinYear) == -141349;
    RealisticNowIsSafe(now);
    RefreshInstantExact(now, nextRefreshSeconds);
  }

  // ---------------------------------------------------------------------------
  // The per-worker formatter cache

  /** A date formatter: the compiled pattern it prints. The US locale and the
      GMT zone it is set up with are fixed in `HttpDate.Render`. */
  datatype Formatter = Formatter(pattern: seq<PatternItem>)

  /** The formatter built on first use: the header date pattern. */
  function NewHeaderFormatter(): (f: Formatter)
    ensures Compile(HeaderPatternText) == Some(f.pattern)
  {
    CompileHeaderPattern();
    Formatter(HeaderPattern)
  }

  /** A worker's cache cell: empty, or holding the header formatter. */
  predicate CellInvariant(cell: Option<Formatter>) {
    cell == None || cell == Some(NewHeaderFormatter())
  }

  function Format(f: Formatter, millis: int): string
    requires InFormatRange(millis)
  {
    Render(f.pattern, Decompose(millis))
  }

  /** `formatHeaderDate`: takes the worker's formatter from its cell, building
      and storing one if the cell is empty, and formats the instant with it.
      Returns the text and the cell afterwards. */
  function FormatHeaderDate(cell: Option<Formatter>, date: int): (r: (string, Option<Formatter>))
    requires CellInvariant(cell)
    requires InFormatRange(date)
    ensures r.1 == Some(NewHeaderFormatter())
    ensures cell.Some? ==> r.1 == cell
    ensures r.0 == FormatHttpDate(date)
  {
    var f := if cell.Some? then cell.value else NewHeaderFormatter();
    (Format(f, date), Some(f))
  }

  /** The text does not depend on whether the cell was filled beforehand. */
  lemma FormatHeaderDateCacheTransparent(date: int)
    requires InFormatRange(date)
    ensures FormatHeaderDate(None, date).0 == FormatHeaderDate(Some(NewHeaderFormatter()), date).0
    ensures FormatHeaderDate(FormatHeaderDate(None, date).1, date) == FormatHeaderDate(Some(NewHeaderFormatter()), date)
  {
  }

  // ---------------------------------------------------------------------------
  // The header set

  /** The calls whose refresh instant the formatter can print. */
  predicate Formattable(now: Int64, nextRefreshSeconds: Int32) {
    InFormatRange(RefreshInstant(now, nextRefreshSeconds))
  }

  /** `createHeaders`: exactly two entries, `Cache-Control` then
      `X-Next-Refresh`; returns the headers and the worker's cell afterwards. */
  function CreateHeaders(cell: Option<Formatter>, now: Int64, maxAgeSeconds: Int32, nextRefreshSeconds: Int32)
    : (r: (seq<Header>, Option<Formatter>))
    requires CellInvariant(cell)
    requires Formattable(now, nextRefreshSeconds)
    ensures |r.0| == 2
    ensures r.0[0] == Header(CacheControl, CreateMaxAgeHeaderValue(maxAgeSeconds))
    ensures r.0[1] == Header(NextRefresh, FormatHttpDate(RefreshInstant(now, nextRefreshSeconds)))
    ensures ParseImfFixdate(r.0[1].value).Some?
    ensures ParseImfFixdate(r.0[1].value).value == RefreshInstant(now, nextRefreshSeconds) as int
                                                  - RefreshInstant(now, nextRefreshSeconds) as int % MillisPerSecond
    ensures r.1 == Some(NewHeaderFormatter())
  {
    var instant := GetDate(now, RefreshOffsetMillis(nextRefreshSeconds));
    var (date, cell') := FormatHeaderDate(cell, instant);
    ParseFormatHttpDate(instant);
    ([Header(CacheControl, CreateMaxAgeHeaderValue(maxAgeSeconds)), Header(NextRefresh, date)], cell')
  }

  /** The `Cache-Control` entry depends on the max-age alone, and the
      `X-Next-Refresh` entry on the clock and the refresh seconds alone; the
      cell's contents affect neither. */
  lemma CreateHeadersIndependence(
    cell1: Option<Formatter>, cell2: Option<Formatter>, now: Int64,
    maxAge1: Int32, maxAge2: Int32, next1: Int32, next2: Int32)
    requires CellInvariant(cell1) && CellInvariant(cell2)
    requires Formattable(now, next1) && Formattable(now, next2)
    ensures maxAge1 == maxAge2 ==>
      CreateHeaders(cell1, now, maxAge1, next1).0[0] == CreateHeaders(cell2, now, maxAge2, next2).0[0]
    ensures next1 == next2 ==>
      CreateHeaders(cell1, now, maxAge1, next1).0[1] == CreateHeaders(cell2, now, maxAge2, next2).0[1]
  {
  }

  // ---------------------------------------------------------------------------
  // One worker serving a sequence of calls

  datatype Call = Call(now: Int64, maxAgeSeconds: Int32, nextRefreshSeconds: Int32)

  predicate AllFormattable(calls: seq<Call>) {
    forall i :: 0 <= i < |calls| ==> Formattable(calls[i].now, calls[i].nextRefreshSeconds)
  }

  lemma AllFormattableTail(calls: seq<Call>)
    requires |calls| > 0 && AllFormattable(calls)
    ensures AllFormattable(calls[1..])
  {
    forall i | 0 <= i < |calls| - 1
      ensures Formattable(calls[1..][i].now, calls[1..][i].nextRefreshSeconds)
    {
      assert calls[1..][i] == calls[i + 1];
    }
  }

  /** A worker handling `calls` in order, its cell carried from each call to
      the next. */
  function Serve(cell: Option<Formatter>, calls: seq<Call>): (r: (seq<seq<Header>>, Option<Formatter>))
    requires CellInvariant(cell) && AllFormattable(calls)
    ensures |r.0| == |calls|
    ensures CellInvariant(r.1)
    ensures r.1 == (if |calls| == 0 then cell else Some(NewHeaderFormatter()))
    decreases |calls|
  {
    if |calls| == 0 then ([], cell)
    else
      var c := calls[0];
      var (headers, cell') := CreateHeaders(cell, c.now, c.maxAgeSeconds, c.nextRefreshSeconds);
      AllFormattableTail(calls);
      var (rest, cell'') := Serve(cell', calls[1..]);
      ([headers] + rest, cell'')
  }

  /** The headers a fresh worker (empty cell) produces for one call. */
  function FreshHeaders(c: Call): seq<Header>
    requires Formattable(c.now, c.nextRefreshSeconds)
  {
    CreateHeaders(None, c.now, c.maxAgeSeconds, c.nextRefreshSeconds).0
  }

  /** The header sets fresh workers produce, one worker per call. */
  function FreshAll(calls: seq<Call>): (r: seq<seq<Header>>)
    requires AllFormattable(calls)
    ensures |r| == |calls|
    decreases |calls|
  {
    if |calls| == 0 then []
    else
      AllFormattableTail(calls);
      [FreshHeaders(calls[0])] + FreshAll(calls[1..])
  }

  /** Each call's headers are those a fresh worker would produce for that
      call alone: the cache carries nothing from one call into the next. */
  lemma {:induction false} ServeIsPerCall(cell: Option<Formatter>, calls: seq<Call>)
    requires CellInvariant(cell) && AllFormattable(calls)
    ensures Serve(cell, calls).0 == FreshAll(calls)
    decreases |calls|
  {
    if |calls| > 0 {
      var c := calls[0];
      var (first, cell') := CreateHeaders(cell, c.now, c.maxAgeSeconds, c.nextRefreshSeconds);
      AllFormattableTail(calls);
      CreateHeadersIgnoresCell(cell, c.now, c.maxAgeSeconds, c.nextRefreshSeconds);
      ServeIsPerCall(cell', calls[1..]);
    }
  }

  /** The headers do not depend on the worker's cell. */
  lemma CreateHeadersIgnoresCell(cell: Option<Formatter>, now: Int64, maxAgeSeconds: Int32, nextRefreshSeconds: Int32)
    requires CellInvariant(cell) && Formattable(now, nextRefreshSeconds)
    ensures CreateHeaders(cell, now, maxAgeSeconds, nextRefreshSeconds).0
         == CreateHeaders(None, now, maxAgeSeconds, nextRefreshSeconds).0
  {
  }
}
