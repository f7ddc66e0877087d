/**
 * The `prayer_times` table row (`PrayerTimes`) and its `to_dict` serializer.
 *
 * A row is keyed by the mosque's name, has a required calendar date, sixteen
 * optional times of day and a last-updated timestamp. `to_dict` turns a row
 * into a dictionary of 19 keys: absent times become null, present ones the
 * text `str(time)` gives, and the date and timestamp their ISO-8601 forms.
 */
module PrayerTimesModel {
  import opened Common
  import opened Digits

  // ---------------------------------------------------------------------------
  // Python's datetime.time, datetime.date and datetime.datetime values

  type Hour = h: nat | h < 24
  type Minute = m: nat | m < 60
  type Second = s: nat | s < 60
  type Microsecond = u: nat | u < 1000000

  /** A `datetime.time` without time zone. */
  datatype TimeOfDay = TimeOfDay(hour: Hour, minute: Minute, second: Second, microsecond: Microsecond)

  type Year = y: nat | 1 <= y <= 9999 witness 1
  type Month = m: nat | 1 <= m <= 12 witness 1

  datatype CalendarDate = CalendarDate(year: Year, month: Month, day: nat)

  predicate IsLeapYear(y: Year) {
    y % 4 == 0 && (y % 100 != 0 || y % 400 == 0)
  }

  function DaysInMonth(y: Year, m: Month): nat {
    if m == 2 then (if IsLeapYear(y) then 29 else 28)
    else if m == 4 || m == 6 || m == 9 || m == 11 then 30
    else 31
  }

  /** A `datetime.date`: the day must exist in its month. */
  type Date = d: CalendarDate | 1 <= d.day <= DaysInMonth(d.year, d.month)
    witness CalendarDate(1970, 1, 1)

  /** A naive `datetime.datetime`. */
  datatype DateTime = DateTime(date: Date, time: TimeOfDay)

  /** Position of a time within its day, in microseconds; Python orders `time` values by it. */
  function MicrosOfDay(t: TimeOfDay): nat {
    ((t.hour * 60 + t.minute) * 60 + t.second) * 1000000 + t.microsecond
  }

  // ---------------------------------------------------------------------------
  // The table row

  /** The prayers that have columns, in the order of the frontend's `PRAYER_TIME_KEYS` table. */
  datatype Prayer = Fajr | Zuhr | Asr | Maghrib | Isha | Jummah1 | Jummah2 | Jummah3

  /** The two columns each prayer has. */
  datatype Slot = Start | Iqamah

  /** One of the sixteen nullable time columns, `{prayer}_start` or `{prayer}_iqamah`. */
  datatype Field = Field(prayer: Prayer, slot: Slot)

  /**
   * One row of `prayer_times`. `mosqueName` is the primary key and `date` is
   * required; every time column may be absent and is absent unless given.
   */
  datatype PrayerRecord = PrayerRecord(
    mosqueName: string,
    date: Date,
    updatedAt: DateTime,
    fajrStart: Option<TimeOfDay> := None,
    fajrIqamah: Option<TimeOfDay> := None,
    zuhrStart: Option<TimeOfDay> := None,
    zuhrIqamah: Option<TimeOfDay> := None,
    asrStart: Option<TimeOfDay> := None,
    asrIqamah: Option<TimeOfDay> := None,
    maghribStart: Option<TimeOfDay> := None,
    maghribIqamah: Option<TimeOfDay> := None,
    ishaStart: Option<TimeOfDay> := None,
    ishaIqamah: Option<TimeOfDay> := None,
    jummah1Start: Option<TimeOfDay> := None,
    jummah1Iqamah: Option<TimeOfDay> := None,
    jummah2Start: Option<TimeOfDay> := None,
    jummah2Iqamah: Option<TimeOfDay> := None,
    jummah3Start: Option<TimeOfDay> := None,
    jummah3Iqamah: Option<TimeOfDay> := None)

  /** The value of one time column. */
  function TimeOf(r: PrayerRecord, f: Field): Option<TimeOfDay> {
    match f
    case Field(Fajr, Start) => r.fajrStart
    case Field(Fajr, Iqamah) => r.fajrIqamah
    case Field(Zuhr, Start) => r.zuhrStart
    case Field(Zuhr, Iqamah) => r.zuhrIqamah
    case Field(Asr, Start) => r.asrStart
    case Field(Asr, Iqamah) => r.asrIqamah
    case Field(Maghrib, Start) => r.maghribStart
    case Field(Maghrib, Iqamah) => r.maghribIqamah
    case Field(Isha, Start) => r.ishaStart
    case Field(Isha, Iqamah) => r.ishaIqamah
    case Field(Jummah1, Start) => r.jummah1Start
    case Field(Jummah1, Iqamah) => r.jummah1Iqamah
    case Field(Jummah2, Start) => r.jummah2Start
    case Field(Jummah2, Iqamah) => r.jummah2Iqamah
    case Field(Jummah3, Start) => r.jummah3Start
    case Field(Jummah3, Iqamah) => r.jummah3Iqamah
  }

  /** The column name of a time column, which is also its dictionary key. */
  function FieldName(f: Field): string {
    match f
    case Field(Fajr, Start) => "fajr_start"
    case Field(Fajr, Iqamah) => "fajr_iqamah"
    case Field(Zuhr, Start) => "zuhr_start"
    case Field(Zuhr, Iqamah) => "zuhr_iqamah"
    case Field(Asr, Start) => "asr_start"
    case Field(Asr, Iqamah) => "asr_iqamah"
    case Field(Maghrib, Start) => "maghrib_start"
    case Field(Maghrib, Iqamah) => "maghrib_iqamah"
    case Field(Isha, Start) => "isha_start"
    case Field(Isha, Iqamah) => "isha_iqamah"
    case Field(Jummah1, Start) => "jummah1_start"
    case Field(Jummah1, Iqamah) => "jummah1_iqamah"
    case Field(Jummah2, Start) => "jummah2_start"
    case Field(Jummah2, Iqamah) => "jummah2_iqamah"
    case Field(Jummah3, Start) => "jummah3_start"
    case Field(Jummah3, Iqamah) => "jummah3_iqamah"
  }

  // ---------------------------------------------------------------------------
  // Text forms: str(time), date.isoformat(), datetime.isoformat()

  /** `str(t)`: `HH:MM:SS`, followed by `.ffffff` only when there are microseconds. */
  function TimeToString(t: TimeOfDay): string {
    ZeroPad(t.hour, 2) + ":" + ZeroPad(t.minute, 2) + ":" + ZeroPad(t.second, 2)
      + (if t.microsecond == 0 then "" else "." + ZeroPad(t.microsecond, 6))
  }

  /** `d.isoformat()`: `YYYY-MM-DD`. */
  function DateToIso(d: Date): string {
    ZeroPad(d.year, 4) + "-" + ZeroPad(d.month, 2) + "-" + ZeroPad(d.day, 2)
  }

  /** `dt.isoformat()` for a naive datetime: the date, `T`, then the time as `str` writes it. */
  function DateTimeToIso(dt: DateTime): string {
    DateToIso(dt.date) + "T" + TimeToString(dt.time)
  }

  /** Reads `HH:MM:SS` back into a time with the given microsecond. */
  function ParseClock(s: string, us: Microsecond): (r: Option<TimeOfDay>)
    requires |s| == 8
  {
    if !(s[2] == ':' && s[5] == ':' && AllDigits(s[0..2]) && AllDigits(s[3..5]) && AllDigits(s[6..8])) then None
    else
      var h, m, sec := DigitsValue(s[0..2]), DigitsValue(s[3..5]), DigitsValue(s[6..8]);
      if h < 24 && m < 60 && sec < 60 then Some(TimeOfDay(h, m, sec, us)) else None
  }

  /** Reads `HH:MM:SS` or `HH:MM:SS.ffffff` back into a time. */
  function ParseTime(s: string): (r: Option<TimeOfDay>)
    ensures r.Some? ==> |s| == 8 || |s| == 15
  {
    if |s| == 8 then ParseClock(s, 0)
    else if |s| == 15 && s[8] == '.' && AllDigits(s[9..15]) then
      assert Pow10(6) == 1000000;
      ParseClock(s[..8], DigitsValue(s[9..15]))
    else None
  }

  /** Reads `YYYY-MM-DD` back into a date, refusing days that do not exist. */
  function ParseDate(s: string): (r: Option<Date>)
    ensures r.Some? ==> |s| == 10
  {
    if !(|s| == 10 && s[4] == '-' && s[7] == '-' && AllDigits(s[0..4]) && AllDigits(s[5..7]) && AllDigits(s[8..10])) then None
    else
      var y, m, d := DigitsValue(s[0..4]), DigitsValue(s[5..7]), DigitsValue(s[8..10]);
      if 1 <= y <= 9999 && 1 <= m <= 12 && 1 <= d <= DaysInMonth(y, m) then Some(CalendarDate(y, m, d)) else None
  }

  /** Reads `YYYY-MM-DDTHH:MM:SS[.ffffff]` back into a datetime. */
  function ParseDateTime(s: string): (r: Option<DateTime>) {
    if |s| < 11 || s[10] != 'T' then None
    else
      match (ParseDate(s[..10]), ParseTime(s[11..]))
      case (Some(d), Some(t)) => Some(DateTime(d, t))
      case _ => None
  }

  /** `str(time)` is read back to the same hour, minute, second and microsecond. */
  lemma TimeRoundTrip(t: TimeOfDay)
    ensures ParseTime(TimeToString(t)) == Some(t)
  {
    var clock := TimeOfDay(t.hour, t.minute, t.second, 0);
    WholeSecondTimeText(clock);
    assert ParseClock(TimeToString(clock), t.microsecond) == Some(t);
    if t.microsecond != 0 {
      var s := TimeToString(t);
      assert s == TimeToString(clock) + "." + ZeroPad(t.microsecond, 6);
      assert s[..8] == TimeToString(clock);
      assert s[9..15] == ZeroPad(t.microsecond, 6);
      assert Pow10(6) == 1000000;
      ZeroPadRoundTrip(t.microsecond, 6);
    }
  }

  /** For a whole-second time, `str(time)` is exactly the eight characters `HH:MM:SS`. */
  lemma WholeSecondTimeText(t: TimeOfDay)
    requires t.microsecond == 0
    ensures var s := TimeToString(t);
      |s| == 8 && s[2] == ':' && s[5] == ':'
      && AllDigits(s[0..2]) && DigitsValue(s[0..2]) == t.hour
      && AllDigits(s[3..5]) && DigitsValue(s[3..5]) == t.minute
      && AllDigits(s[6..8]) && DigitsValue(s[6..8]) == t.second
  {
    var s := TimeToString(t);
    assert s[0..2] == ZeroPad(t.hour, 2) && s[3..5] == ZeroPad(t.minute, 2) && s[6..8] == ZeroPad(t.second, 2);
    ZeroPadRoundTrip(t.hour, 2);
    ZeroPadRoundTrip(t.minute, 2);
    ZeroPadRoundTrip(t.second, 2);
  }

  /** `date.isoformat()` is read back to the same date. */
  lemma DateRoundTrip(d: Date)
    ensures ParseDate(DateToIso(d)) == Some(d)
  {
    var s := DateToIso(d);
    assert s[0..4] == ZeroPad(d.year, 4) && s[5..7] == ZeroPad(d.month, 2) && s[8..10] == ZeroPad(d.day, 2);
    ZeroPadRoundTrip(d.year, 4);
    ZeroPadRoundTrip(d.month, 2);
    ZeroPadRoundTrip(d.day, 2);
  }

  /** `datetime.isoformat()` is read back to the same datetime. */
  lemma DateTimeRoundTrip(dt: DateTime)
    ensures ParseDateTime(DateTimeToIso(dt)) == Some(dt)
  {
    var s := DateTimeToIso(dt);
    assert s[..10] == DateToIso(dt.date);
    assert s[11..] == TimeToString(dt.time);
    DateRoundTrip(dt.date);
    TimeRoundTrip(dt.time);
  }

  // ---------------------------------------------------------------------------
  // Dictionary keys

  /** The keys of a serialized row: the name, the date, the sixteen time columns and the timestamp. */
  datatype RecordKey = MosqueNameKey | DateKey | TimeKey(field: Field) | UpdatedAtKey

  function KeyName(k: RecordKey): string {
    match k
    case MosqueNameKey => "mosque_name"
    case DateKey => "date"
    case TimeKey(f) => FieldName(f)
    case UpdatedAtKey => "updated_at"
  }

  /** The key a name stands for, if any. */
  function KeyOfName(s: string): Option<RecordKey> {
    if s == "mosque_name" then Some(MosqueNameKey)
    else if s == "date" then Some(DateKey)
    else if s == "updated_at" then Some(UpdatedAtKey)
    else if s == "fajr_start" then Some(TimeKey(Field(Fajr, Start)))
    else if s == "fajr_iqamah" then Some(TimeKey(Field(Fajr, Iqamah)))
    else if s == "zuhr_start" then Some(TimeKey(Field(Zuhr, Start)))
    else if s == "zuhr_iqamah" then Some(TimeKey(Field(Zuhr, Iqamah)))
    else if s == "asr_start" then Some(TimeKey(Field(Asr, Start)))
    else if s == "asr_iqamah" then Some(TimeKey(Field(Asr, Iqamah)))
    else if s == "maghrib_start" then Some(TimeKey(Field(Maghrib, Start)))
    else if s == "maghrib_iqamah" then Some(TimeKey(Field(Maghrib, Iqamah)))
    else if s == "isha_start" then Some(TimeKey(Field(Isha, Start)))
    else if s == "isha_iqamah" then Some(TimeKey(Field(Isha, Iqamah)))
    else if s == "jummah1_start" then Some(TimeKey(Field(Jummah1, Start)))
    else if s == "jummah1_iqamah" then Some(TimeKey(Field(Jummah1, Iqamah)))
    else if s == "jummah2_start" then Some(TimeKey(Field(Jummah2, Start)))
    else if s == "jummah2_iqamah" then Some(TimeKey(Field(Jummah2, Iqamah)))
    else if s == "jummah3_start" then Some(TimeKey(Field(Jummah3, Start)))
    else if s == "jummah3_iqamah" then Some(TimeKey(Field(Jummah3, Iqamah)))
    else None
  }

  lemma StartKeyNameInverse(p: Prayer)
    ensures KeyOfName(FieldName(Field(p, Start))) == Some(TimeKey(Field(p, Start)))
  {
    match p {
      case Fajr => case Zuhr => case Asr => case Maghrib =>
      case Isha => case Jummah1 => case Jummah2 => case Jummah3 =>
    }
  }

  lemma IqamahKeyNameInverse(p: Prayer)
    ensures KeyOfName(FieldName(Field(p, Iqamah))) == Some(TimeKey(Field(p, Iqamah)))
  {
    match p {
      case Fajr => case Zuhr => case Asr => case Maghrib =>
      case Isha => case Jummah1 => case Jummah2 => case Jummah3 =>
    }
  }

  /** Every key name reads back to its key. */
  lemma KeyNameInverse(k: RecordKey)
    ensures KeyOfName(KeyName(k)) == Some(k)
  {
    match k {
      case TimeKey(Field(p, Start)) => StartKeyNameInverse(p);
      case TimeKey(Field(p, Iqamah)) => IqamahKeyNameInverse(p);
      case _ =>
    }
  }

  /** No two keys share a name: every name reads back to the one key it names. */
  lemma KeyNameInjective()
    ensures forall k :: KeyOfName(KeyName(k)) == Some(k)
  {
    forall k
      ensures KeyOfName(KeyName(k)) == Some(k)
    {
      KeyNameInverse(k);
    }
  }

  const AllKeys: set<RecordKey> := {
    MosqueNameKey, DateKey,
    TimeKey(Field(Fajr, Start)), TimeKey(Field(Fajr, Iqamah)),
    TimeKey(Field(Zuhr, Start)), TimeKey(Field(Zuhr, Iqamah)),
    TimeKey(Field(Asr, Start)), TimeKey(Field(Asr, Iqamah)),
    TimeKey(Field(Maghrib, Start)), TimeKey(Field(Maghrib, Iqamah)),
    TimeKey(Field(Isha, Start)), TimeKey(Field(Isha, Iqamah)),
    TimeKey(Field(Jummah1, Start)), TimeKey(Field(Jummah1, Iqamah)),
    TimeKey(Field(Jummah2, Start)), TimeKey(Field(Jummah2, Iqamah)),
    TimeKey(Field(Jummah3, Start)), TimeKey(Field(Jummah3, Iqamah)),
    UpdatedAtKey}

  lemma AllKeysComplete(k: RecordKey)
    ensures k in AllKeys
  {
    match k {
      case TimeKey(Field(p, Start)) =>
        match p {
          case Fajr => case Zuhr => case Asr => case Maghrib =>
          case Isha => case Jummah1 => case Jummah2 => case Jummah3 =>
        }
      case TimeKey(Field(p, Iqamah)) =>
        match p {
          case Fajr => case Zuhr => case Asr => case Maghrib =>
          case Isha => case Jummah1 => case Jummah2 => case Jummah3 =>
        }
      case _ =>
    }
  }

  // ---------------------------------------------------------------------------
  // to_dict

  /** One time column's dictionary value: null when absent, `str(time)` otherwise. */
  function SerializeTime(o: Option<TimeOfDay>): Value {
    match o
    case None => Null
    case Some(t) => Str(TimeToString(t))
  }

  /** The value `to_dict` writes under key `k`. */
  function KeyValue(r: PrayerRecord, k: RecordKey): Value {
    match k
    case MosqueNameKey => Str(r.mosqueName)
    case DateKey => Str(DateToIso(r.date))
    case TimeKey(f) => SerializeTime(TimeOf(r, f))
    case UpdatedAtKey => Str(DateTimeToIso(r.updatedAt))
  }

  /** `PrayerTimes.to_dict`: one entry per key, named by the key's name. */
  function ToDict(r: PrayerRecord): Dict {
    KeyNameInjective();
    map k | k in AllKeys :: KeyName(k) := KeyValue(r, k)
  }

  /** Every key is present, holding the value written for it. */
  lemma ToDictAt(r: PrayerRecord, k: RecordKey)
    ensures KeyName(k) in ToDict(r) && ToDict(r)[KeyName(k)] == KeyValue(r, k)
  {
    KeyNameInjective();
    AllKeysComplete(k);
  }

  /** A serialized row is filed under its mosque's name. */
  lemma ToDictName(r: PrayerRecord)
    ensures "mosque_name" in ToDict(r) && ToDict(r)["mosque_name"] == Str(r.mosqueName)
  {
    ToDictAt(r, MosqueNameKey);
  }

  /**
   * The name passes through, the date and timestamp are written in ISO-8601,
   * and each time column's entry depends on that column alone: null when it
   * is absent and `str(time)` when it is present.
   */
  lemma ToDictFields(r: PrayerRecord, f: Field)
    ensures "mosque_name" in ToDict(r) && ToDict(r)["mosque_name"] == Str(r.mosqueName)
    ensures "date" in ToDict(r) && ToDict(r)["date"] == Str(DateToIso(r.date))
    ensures "updated_at" in ToDict(r) && ToDict(r)["updated_at"] == Str(DateTimeToIso(r.updatedAt))
    ensures FieldName(f) in ToDict(r)
    ensures TimeOf(r, f).None? ==> ToDict(r)[FieldName(f)] == Null
    ensures TimeOf(r, f).Some? ==> ToDict(r)[FieldName(f)] == Str(TimeToString(TimeOf(r, f).value))
  {
    ToDictAt(r, MosqueNameKey);
    ToDictAt(r, DateKey);
    ToDictAt(r, UpdatedAtKey);
    ToDictAt(r, TimeKey(f));
  }

  lemma {:induction false} InjectiveImageSize(s: set<RecordKey>)
    requires forall k :: KeyOfName(KeyName(k)) == Some(k)
    ensures |set k | k in s :: KeyName(k)| == |s|
  {
    if s != {} {
      var k :| k in s;
      InjectiveImageSize(s - {k});
      assert (set x | x in s :: KeyName(x)) == (set x | x in s - {k} :: KeyName(x)) + {KeyName(k)};
    }
  }

  // ---------------------------------------------------------------------------
  // Reading a serialized row back

  /** Reads a serialized time column back: null is an absent time, a string must parse. */
  function DeserializeTime(v: Value): Option<Option<TimeOfDay>> {
    match v
    case Null => Some(None)
    case Str(s) => (match ParseTime(s) case Some(t) => Some(Some(t)) case None => None)
    case _ => None
  }

  /** Each time column serializes to null exactly when it is absent, and to text that reads back to it. */
  lemma SerializeTimeRoundTrip(o: Option<TimeOfDay>)
    ensures SerializeTime(o) == Null <==> o.None?
    ensures DeserializeTime(SerializeTime(o)) == Some(o)
  {
    if o.Some? {
      TimeRoundTrip(o.value);
    }
  }

  function ReadString(d: Dict, k: RecordKey): Option<string> {
    if KeyName(k) in d && d[KeyName(k)].Str? then Some(d[KeyName(k)].s) else None
  }

  function ReadTime(d: Dict, f: Field): Option<Option<TimeOfDay>> {
    if KeyName(TimeKey(f)) in d then DeserializeTime(d[KeyName(TimeKey(f))]) else None
  }

  /** The time columns in declaration order. */
  const FieldOrder: seq<Field> := [
    Field(Fajr, Start), Field(Fajr, Iqamah), Field(Zuhr, Start), Field(Zuhr, Iqamah),
    Field(Asr, Start), Field(Asr, Iqamah), Field(Maghrib, Start), Field(Maghrib, Iqamah),
    Field(Isha, Start), Field(Isha, Iqamah), Field(Jummah1, Start), Field(Jummah1, Iqamah),
    Field(Jummah2, Start), Field(Jummah2, Iqamah), Field(Jummah3, Start), Field(Jummah3, Iqamah)]

  /** The sixteen time columns of a dictionary, in declaration order, if all of them read back. */
  function ReadTimes(d: Dict): (ts: Option<seq<Option<TimeOfDay>>>)
    ensures ts.Some? ==> |ts.value| == 16
  {
    if forall i :: 0 <= i < 16 ==> ReadTime(d, FieldOrder[i]).Some? then
      Some(seq(16, i requires 0 <= i < 16 => ReadTime(d, FieldOrder[i]).value))
    else None
  }

  function RecordOf(name: string, date: Date, updatedAt: DateTime, ts: seq<Option<TimeOfDay>>): PrayerRecord
    requires |ts| == 16
  {
    PrayerRecord(name, date, updatedAt,
      ts[0], ts[1], ts[2], ts[3], ts[4], ts[5], ts[6], ts[7],
      ts[8], ts[9], ts[10], ts[11], ts[12], ts[13], ts[14], ts[15])
  }

  /** Reads a serialized row back into a row, or fails. */
  function FromDict(d: Dict): Option<PrayerRecord> {
    var name :- ReadString(d, MosqueNameKey);
    var dateText :- ReadString(d, DateKey);
    var date :- ParseDate(dateText);
    var updatedText :- ReadString(d, UpdatedAtKey);
    var updatedAt :- ParseDateTime(updatedText);
    var ts :- ReadTimes(d);
    Some(RecordOf(name, date, updatedAt, ts))
  }

  lemma ReadTimeOfDict(r: PrayerRecord, f: Field)
    ensures ReadTime(ToDict(r), f) == Some(TimeOf(r, f))
  {
    ToDictAt(r, TimeKey(f));
    SerializeTimeRoundTrip(TimeOf(r, f));
  }

  lemma ReadTimesOfDict(r: PrayerRecord)
    ensures ReadTimes(ToDict(r)) == Some(seq(16, i requires 0 <= i < 16 => TimeOf(r, FieldOrder[i])))
  {
    var d := ToDict(r);
    var expected := seq(16, i requires 0 <= i < 16 => TimeOf(r, FieldOrder[i]));
    forall i | 0 <= i < 16
      ensures ReadTime(d, FieldOrder[i]) == Some(expected[i])
    {
      ReadTimeOfDict(r, FieldOrder[i]);
    }
    var ts := seq(16, i requires 0 <= i < 16 => ReadTime(d, FieldOrder[i]).value);
    assert ts == expected;
  }

  lemma ReadHeaderOfDict(r: PrayerRecord)
    ensures ReadString(ToDict(r), MosqueNameKey) == Some(r.mosqueName)
    ensures ReadString(ToDict(r), DateKey) == Some(DateToIso(r.date))
    ensures ReadString(ToDict(r), UpdatedAtKey) == Some(DateTimeToIso(r.updatedAt))
  {
    ToDictAt(r, MosqueNameKey);
    ToDictAt(r, DateKey);
    ToDictAt(r, UpdatedAtKey);
  }

  lemma RecordOfTimes(r: PrayerRecord)
    ensures RecordOf(r.mosqueName, r.date, r.updatedAt, seq(16, i requires 0 <= i < 16 => TimeOf(r, FieldOrder[i]))) == r
  {}

  /** `to_dict` loses nothing: the row can be read back from its dictionary. */
  lemma ToDictRoundTrip(r: PrayerRecord)
    ensures FromDict(ToDict(r)) == Some(r)
  {
    ReadHeaderOfDict(r);
    DateRoundTrip(r.date);
    DateTimeRoundTrip(r.updatedAt);
    ReadTimesOfDict(r);
    RecordOfTimes(r);
  }

  const HeaderKeys: set<RecordKey> := {MosqueNameKey, DateKey, UpdatedAtKey}
  const DailyKeys: set<RecordKey> := {
    TimeKey(Field(Fajr, Start)), TimeKey(Field(Fajr, Iqamah)),
    TimeKey(Field(Zuhr, Start)), TimeKey(Field(Zuhr, Iqamah)),
    TimeKey(Field(Asr, Start)), TimeKey(Field(Asr, Iqamah))}
  const EveningKeys: set<RecordKey> := {
    TimeKey(Field(Maghrib, Start)), TimeKey(Field(Maghrib, Iqamah)),
    TimeKey(Field(Isha, Start)), TimeKey(Field(Isha, Iqamah))}
  const JummahKeys: set<RecordKey> := {
    TimeKey(Field(Jummah1, Start)), TimeKey(Field(Jummah1, Iqamah)),
    TimeKey(Field(Jummah2, Start)), TimeKey(Field(Jummah2, Iqamah)),
    TimeKey(Field(Jummah3, Start)), TimeKey(Field(Jummah3, Iqamah))}

  lemma KeyGroupSizes()
    ensures |HeaderKeys| == 3 && |DailyKeys| == 6 && |EveningKeys| == 4 && |JummahKeys| == 6
  {}

  lemma KeyGroupsPartition()
    ensures AllKeys == HeaderKeys + DailyKeys + EveningKeys + JummahKeys
    ensures HeaderKeys !! DailyKeys && HeaderKeys + DailyKeys !! EveningKeys
    ensures HeaderKeys + DailyKeys + EveningKeys !! JummahKeys
  {}

  lemma AllKeysCount()
    ensures |AllKeys| == 19
  {
    KeyGroupSizes();
    KeyGroupsPartition();
  }

  /** The names of a set of record keys. */
  function KeyNames(ks: set<RecordKey>): set<string> {
    set k | k in ks :: KeyName(k)
  }

  /** The keys of a serialized row are the names of the record keys. */
  lemma ToDictKeySet(r: PrayerRecord)
    ensures ToDict(r).Keys == KeyNames(AllKeys)
  {
    KeyNameInjective();
  }

  lemma KeyNamesUnion(a: set<RecordKey>, b: set<RecordKey>)
    ensures KeyNames(a + b) == KeyNames(a) + KeyNames(b)
  {
  }

  lemma HeaderKeyNames()
    ensures KeyNames(HeaderKeys) == {"mosque_name", "date", "updated_at"}
  {
  }

  lemma DailyKeyNames()
    ensures KeyNames(DailyKeys) == {"fajr_start", "fajr_iqamah", "zuhr_start", "zuhr_iqamah", "asr_start", "asr_iqamah"}
  {
  }

  lemma EveningKeyNames()
    ensures KeyNames(EveningKeys) == {"maghrib_start", "maghrib_iqamah", "isha_start", "isha_iqamah"}
  {
  }

  lemma JummahKeyNames()
    ensures KeyNames(JummahKeys) == {
      "jummah1_start", "jummah1_iqamah", "jummah2_start", "jummah2_iqamah", "jummah3_start", "jummah3_iqamah"}
  {
  }

  /** The 19 key names the dictionary literal writes, grouped as above. */
  const ToDictKeyNames: set<string> := {
    "mosque_name", "date",
    "fajr_start", "fajr_iqamah", "zuhr_start", "zuhr_iqamah", "asr_start", "asr_iqamah",
    "maghrib_start", "maghrib_iqamah", "isha_start", "isha_iqamah",
    "jummah1_start", "jummah1_iqamah", "jummah2_start", "jummah2_iqamah", "jummah3_start", "jummah3_iqamah",
    "updated_at"}

  lemma KeyNameGroupsCover()
    ensures ToDictKeyNames ==
      {"mosque_name", "date", "updated_at"}
      + {"fajr_start", "fajr_iqamah", "zuhr_start", "zuhr_iqamah", "asr_start", "asr_iqamah"}
      + {"maghrib_start", "maghrib_iqamah", "isha_start", "isha_iqamah"}
      + {"jummah1_start", "jummah1_iqamah", "jummah2_start", "jummah2_iqamah", "jummah3_start", "jummah3_iqamah"}
  {
  }

  /** The keys of a serialized row are exactly the 19 names the dictionary literal writes. */
  lemma ToDictKeys(r: PrayerRecord)
    ensures ToDict(r).Keys == ToDictKeyNames
  {
    ToDictKeySet(r);
    KeyGroupsPartition();
    KeyNamesUnion(HeaderKeys, DailyKeys);
    KeyNamesUnion(HeaderKeys + DailyKeys, EveningKeys);
    KeyNamesUnion(HeaderKeys + DailyKeys + EveningKeys, JummahKeys);
    HeaderKeyNames();
    DailyKeyNames();
    EveningKeyNames();
    JummahKeyNames();
    KeyNameGroupsCover();
  }

  /** A serialized row has exactly 19 keys. */
  lemma ToDictKeyCount(r: PrayerRecord)
    ensures |ToDict(r)| == 19
  {
    KeyNameInjective();
    ToDictKeySet(r);
    InjectiveImageSize(AllKeys);
    AllKeysCount();
    assert |ToDict(r).Keys| == |AllKeys|;
  }
}
