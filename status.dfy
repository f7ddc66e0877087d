/**
 * The frontend's per-prayer status: `getStatus` classifies an iqamah time
 * against the current time as available, finished or default, and
 * `formatTime` shows a missing time as "None".
 *
 * JavaScript's `Date` parsing is a parameter, `parse`, from a string to an
 * epoch time in milliseconds, or `None` where JavaScript yields NaN. Both
 * `new Date(s)` and `Date.parse(s)` use it, as both run the same parser.
 */
module PrayerStatus {
  import opened Common
  import opened PrayerTimesModel

  /** The three statuses; a value of this type is always exactly one of them. */
  datatype Status = Available | Finished | Default

  type Millis = m: nat | m < 1000

  /** A JavaScript `Date`: its epoch time and the local wall-clock time it shows. */
  datatype Instant = Instant(epochMillis: int, hours: Hour, minutes: Minute, seconds: Second, millis: Millis)

  /** `new Date(s).getTime()` and `Date.parse(s)`: `None` stands for NaN. */
  type DateParser = string -> Option<int>

  const DatePrefix: string := "1970-01-01T"
  const FallbackPrefix: string := "1970-01-01 "

  /** `currentTime.toTimeString().slice(0, 8)`: the local time as zero-padded `HH:MM:SS`. */
  function ClockText(now: Instant): (s: string)
    ensures |s| == 8
    ensures ParseTime(s) == Some(TimeOfDay(now.hours, now.minutes, now.seconds, 0))
  {
    var t := TimeOfDay(now.hours, now.minutes, now.seconds, 0);
    WholeSecondTimeText(t);
    TimeRoundTrip(t);
    TimeToString(t)
  }

  /** JavaScript's `<` on two dates: false when either is NaN. */
  predicate Before(a: Option<int>, b: Option<int>) {
    a.Some? && b.Some? && a.value < b.value
  }

  /**
   * `getStatus`. A missing or empty iqamah time gives `Default`. Otherwise
   * the time is read on 1970-01-01; when that fails, a second reading with a
   * space separator is compared with the current absolute time, and when
   * that fails too the result is `Default`. A successful first reading is
   * compared with the current wall-clock time, truncated to the second and
   * read on the same day.
   */
  function GetStatus(iqamah: Option<string>, now: Instant, parse: DateParser): (st: Status)
    ensures st == Default <==>
      || iqamah.None? || iqamah.value == ""
      || (parse(DatePrefix + iqamah.value).None? && parse(FallbackPrefix + iqamah.value).None?)
  {
    if iqamah.None? || iqamah.value == "" then Default
    else
      var parsed := parse(DatePrefix + iqamah.value);
      if parsed.None? then
        var tryParse := parse(FallbackPrefix + iqamah.value);
        if tryParse.None? then Default
        else if now.epochMillis < tryParse.value then Available
        else Finished
      else
        var current := parse(DatePrefix + ClockText(now));
        if Before(current, parsed) then Available else Finished
  }

  /** Position of a whole-second time within its day, in seconds. */
  function SecondsOfDay(t: TimeOfDay): nat {
    (t.hour * 60 + t.minute) * 60 + t.second
  }

  /** The current local wall-clock time within its day, in whole seconds. */
  function ClockSeconds(now: Instant): nat {
    SecondsOfDay(TimeOfDay(now.hours, now.minutes, now.seconds, 0))
  }

  /**
   * The meaning JavaScript gives a local date-time on 1970-01-01 written in
   * the canonical `HH:MM:SS` form: that many seconds after local midnight,
   * where local midnight is `offset` milliseconds from the epoch.
   */
  ghost predicate ReadsWallClock(parse: DateParser, offset: int) {
    forall t: TimeOfDay :: t.microsecond == 0 ==>
      parse(DatePrefix + TimeToString(t)) == Some(offset + 1000 * SecondsOfDay(t))
  }

  /** A reader of exactly the canonical 1970-01-01 date-times, and nothing else. */
  function CanonicalParser(offset: int): DateParser {
    s =>
      if |s| == |DatePrefix| + 8 && s[..|DatePrefix|] == DatePrefix then
        match ParseTime(s[|DatePrefix|..])
        case Some(t) => Some(offset + 1000 * SecondsOfDay(t))
        case None => None
      else None
  }

  /** The wall-clock reading is a consistent hypothesis: the canonical reader has it. */
  lemma CanonicalParserReadsWallClock(offset: int)
    ensures ReadsWallClock(CanonicalParser(offset), offset)
  {
    forall t: TimeOfDay | t.microsecond == 0
      ensures CanonicalParser(offset)(DatePrefix + TimeToString(t)) == Some(offset + 1000 * SecondsOfDay(t))
    {
      var s := DatePrefix + TimeToString(t);
      WholeSecondTimeText(t);
      assert s[..|DatePrefix|] == DatePrefix;
      assert s[|DatePrefix|..] == TimeToString(t);
      TimeRoundTrip(t);
    }
  }

  /**
   * For any iqamah text the first reading accepts, the status is `Available`
   * exactly when the current wall-clock second, read on 1970-01-01, is
   * strictly before that reading, and `Finished` otherwise.
   */
  lemma AvailableIffBeforeReading(iqamah: string, now: Instant, parse: DateParser, offset: int)
    requires ReadsWallClock(parse, offset)
    requires iqamah != "" && parse(DatePrefix + iqamah).Some?
    ensures GetStatus(Some(iqamah), now, parse)
      == if offset + 1000 * ClockSeconds(now) < parse(DatePrefix + iqamah).value then Available else Finished
  {
    var c := TimeOfDay(now.hours, now.minutes, now.seconds, 0);
    assert parse(DatePrefix + TimeToString(c)) == Some(offset + 1000 * SecondsOfDay(c));
  }

  /**
   * For an iqamah time written as the backend writes a whole-second time,
   * the status is `Available` exactly when the current wall-clock second is
   * strictly earlier in the day, and `Finished` otherwise, equality included.
   */
  lemma AvailableIffEarlier(t: TimeOfDay, now: Instant, parse: DateParser, offset: int)
    requires ReadsWallClock(parse, offset)
    requires t.microsecond == 0
    ensures GetStatus(Some(TimeToString(t)), now, parse) == if ClockSeconds(now) < SecondsOfDay(t) then Available else Finished
  {
    WholeSecondTimeText(t);
    assert parse(DatePrefix + TimeToString(t)) == Some(offset + 1000 * SecondsOfDay(t));
    AvailableIffBeforeReading(TimeToString(t), now, parse, offset);
  }

  /** The same wall-clock time as the iqamah counts as finished. */
  lemma AtIqamahIsFinished(t: TimeOfDay, now: Instant, parse: DateParser, offset: int)
    requires ReadsWallClock(parse, offset)
    requires t.microsecond == 0
    requires now.hours == t.hour && now.minutes == t.minute && now.seconds == t.second
    ensures GetStatus(Some(TimeToString(t)), now, parse) == Finished
  {
    AvailableIffEarlier(t, now, parse, offset);
  }

  /** Later in the same day, a prayer whose time the first reading accepts stays finished once finished. */
  lemma FinishedStaysFinished(iqamah: string, now: Instant, later: Instant, parse: DateParser, offset: int)
    requires ReadsWallClock(parse, offset)
    requires iqamah != "" && parse(DatePrefix + iqamah).Some?
    requires ClockSeconds(now) <= ClockSeconds(later)
    requires GetStatus(Some(iqamah), now, parse) == Finished
    ensures GetStatus(Some(iqamah), later, parse) == Finished
  {
    AvailableIffBeforeReading(iqamah, now, parse, offset);
    AvailableIffBeforeReading(iqamah, later, parse, offset);
  }

  /**
   * Once the first reading succeeds, the milliseconds and the absolute time
   * of the current instant play no part: only its wall-clock second does.
   */
  lemma SubsecondIrrelevant(iqamah: string, now: Instant, other: Instant, parse: DateParser)
    requires parse(DatePrefix + iqamah).Some?
    requires now.hours == other.hours && now.minutes == other.minutes && now.seconds == other.seconds
    ensures GetStatus(Some(iqamah), now, parse) == GetStatus(Some(iqamah), other, parse)
  {
    assert ClockText(now) == ClockText(other);
  }

  /**
   * The fallback reading is an instant on 1970-01-01, so from the end of
   * that local day on, any string only the fallback accepts is `Finished`.
   */
  lemma FallbackFinishedAfterEpochDay(iqamah: string, now: Instant, parse: DateParser, offset: int)
    requires ReadsWallClock(parse, offset)
    requires iqamah != ""
    requires parse(DatePrefix + iqamah).None?
    requires parse(FallbackPrefix + iqamah).Some?
    requires parse(FallbackPrefix + iqamah).value < offset + 86400000
    requires offset + 86400000 <= now.epochMillis
    ensures GetStatus(Some(iqamah), now, parse) == Finished
  {
  }

  // ---------------------------------------------------------------------------
  // One table row per prayer

  /** `prayerTime.prayer_times[key]` as a string, or `None` for null or a missing key. */
  function FieldText(pt: Dict, f: Field): (r: Option<string>)
    ensures r.Some? <==> FieldName(f) in pt && pt[FieldName(f)].Str?
    ensures r.Some? ==> r.value == pt[FieldName(f)].s
  {
    ReadString(pt, TimeKey(f))
  }

  /**
   * What the frontend reads for a column of a stored row is what `to_dict`
   * wrote: nothing for an empty column, otherwise `str(time)`.
   */
  lemma StoredFieldText(r: PrayerRecord, f: Field)
    ensures FieldText(ToDict(r), f)
      == if TimeOf(r, f).None? then None else Some(TimeToString(TimeOf(r, f).value))
  {
    ToDictFields(r, f);
  }

  /** `formatTime`: "None" for a missing or empty time; otherwise the locale's rendering, `locale`. */
  function FormatTime(time: Option<string>, locale: string -> string): (r: string)
    ensures time.None? || time.value == "" ==> r == "None"
    ensures time.Some? && time.value != "" ==> r == locale(DatePrefix + time.value)
  {
    if time.None? || time.value == "" then "None" else locale(DatePrefix + time.value)
  }

  /** The cells of one prayer's row: begins, jamaat and status. */
  datatype PrayerRow = PrayerRow(begins: string, jamaat: string, status: Status)

  /** The status cell: taken from the iqamah column alone. */
  function RowStatus(pt: Dict, p: Prayer, now: Instant, parse: DateParser): Status {
    GetStatus(FieldText(pt, Field(p, Iqamah)), now, parse)
  }

  function Row(pt: Dict, p: Prayer, now: Instant, parse: DateParser, locale: string -> string): (row: PrayerRow)
    ensures row.status == RowStatus(pt, p, now, parse)
    ensures FieldText(pt, Field(p, Start)).None? ==> row.begins == "None"
    ensures FieldText(pt, Field(p, Iqamah)).None? ==> row.jamaat == "None" && row.status == Default
  {
    PrayerRow(
      FormatTime(FieldText(pt, Field(p, Start)), locale),
      FormatTime(FieldText(pt, Field(p, Iqamah)), locale),
      RowStatus(pt, p, now, parse))
  }

  /** A prayer's start and iqamah columns have different names. */
  lemma StartIqamahNamesDiffer(p: Prayer)
    ensures FieldName(Field(p, Start)) != FieldName(Field(p, Iqamah))
  {
    KeyNameInjective();
    assert KeyOfName(KeyName(TimeKey(Field(p, Start)))) == Some(TimeKey(Field(p, Start)));
    assert KeyOfName(KeyName(TimeKey(Field(p, Iqamah)))) == Some(TimeKey(Field(p, Iqamah)));
  }

  /** Whatever the start column holds, the status is the same. */
  lemma StatusIgnoresStart(pt: Dict, p: Prayer, v: Value, now: Instant, parse: DateParser)
    ensures RowStatus(pt[FieldName(Field(p, Start)) := v], p, now, parse) == RowStatus(pt, p, now, parse)
  {
    StartIqamahNamesDiffer(p);
  }

  /**
   * From the backend's serialized row to the status cell: no iqamah gives
   * `Default`, and a whole-second iqamah gives `Available` exactly while the
   * current wall-clock second is earlier.
   */
  lemma StoredRowStatus(r: PrayerRecord, p: Prayer, now: Instant, parse: DateParser, offset: int)
    requires ReadsWallClock(parse, offset)
    ensures TimeOf(r, Field(p, Iqamah)).None? ==> RowStatus(ToDict(r), p, now, parse) == Default
    ensures TimeOf(r, Field(p, Iqamah)).Some? && TimeOf(r, Field(p, Iqamah)).value.microsecond == 0 ==>
      RowStatus(ToDict(r), p, now, parse)
        == if ClockSeconds(now) < SecondsOfDay(TimeOf(r, Field(p, Iqamah)).value) then Available else Finished
  {
    ToDictFields(r, Field(p, Iqamah));
    if TimeOf(r, Field(p, Iqamah)).Some? && TimeOf(r, Field(p, Iqamah)).value.microsecond == 0 {
      AvailableIffEarlier(TimeOf(r, Field(p, Iqamah)).value, now, parse, offset);
    }
  }
}
