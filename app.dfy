/**
 * The backend's two operations on the table: the `GET /prayer-times`
 * endpoint, which joins the stored rows with the mosque registry, and the
 * scheduled mock job, which empties the table and merges two fixed rows.
 */
module App {
  import opened Common
  import opened PrayerTimesModel
  import opened Table

  // ---------------------------------------------------------------------------
  // Looking a mosque up in the registry

  /**
   * The outcome of `next((m for m in MOSQUES if m["name"] == key), None)`:
   * the first entry whose name is `key`, no such entry, or the first entry
   * without a `"name"` key, where the generator raises `KeyError`.
   */
  datatype Lookup = Found(index: nat) | NotFound | MissingName(index: nat)

  /** Every entry in `registry[lo..hi]` has a name, and none of them is `key`. */
  predicate NamedOtherThan(registry: seq<Dict>, key: Value, lo: nat, hi: nat)
    requires lo <= hi <= |registry|
  {
    forall j :: lo <= j < hi ==> "name" in registry[j] && registry[j]["name"] != key
  }

  /** Every registry entry has a `"name"` key. */
  predicate HasNames(registry: seq<Dict>) {
    forall j :: 0 <= j < |registry| ==> "name" in registry[j]
  }

  /** The generator's scan, from entry `i` on. */
  function FindFrom(registry: seq<Dict>, key: Value, i: nat): (l: Lookup)
    requires i <= |registry|
    ensures l.Found? ==>
      && i <= l.index < |registry|
      && "name" in registry[l.index] && registry[l.index]["name"] == key
      && NamedOtherThan(registry, key, i, l.index)
    ensures l.NotFound? ==> NamedOtherThan(registry, key, i, |registry|)
    ensures l.MissingName? ==>
      && i <= l.index < |registry|
      && "name" !in registry[l.index]
      && NamedOtherThan(registry, key, i, l.index)
    decreases |registry| - i
  {
    if i == |registry| then NotFound
    else if "name" !in registry[i] then MissingName(i)
    else if registry[i]["name"] == key then Found(i)
    else FindFrom(registry, key, i + 1)
  }

  /** The first registry entry named `key`. */
  function FindMosque(registry: seq<Dict>, key: Value): (l: Lookup)
    ensures l.Found? ==>
      && l.index < |registry|
      && "name" in registry[l.index] && registry[l.index]["name"] == key
      && NamedOtherThan(registry, key, 0, l.index)
    ensures l.NotFound? <==> NamedOtherThan(registry, key, 0, |registry|)
    ensures l.MissingName? ==>
      && l.index < |registry|
      && "name" !in registry[l.index]
      && NamedOtherThan(registry, key, 0, l.index)
  {
    FindFrom(registry, key, 0)
  }

  /** When every entry has a name, the lookup finds the lowest-indexed entry named `key` and raises nothing. */
  lemma FindMosqueFirst(registry: seq<Dict>, key: Value, i: nat)
    requires HasNames(registry)
    requires i < |registry| && registry[i]["name"] == key
    requires forall j :: 0 <= j < i ==> registry[j]["name"] != key
    ensures FindMosque(registry, key) == Found(i)
  {
  }

  // ---------------------------------------------------------------------------
  // The join (backend/app.py, get_prayer_times)

  /**
   * `{**mosque, "prayer_times": t}`: every registry field of the entry, with
   * `"prayer_times"` set to the serialized row (replacing any registry field
   * of that name).
   */
  function Merged(mosque: Dict, t: Dict): Dict {
    mosque["prayer_times" := Obj(t)]
  }

  /**
   * The merged entry keeps every registry field except `"prayer_times"`,
   * which holds the serialized row, and has no other keys.
   */
  lemma MergedFields(mosque: Dict, t: Dict)
    ensures Merged(mosque, t).Keys == mosque.Keys + {"prayer_times"}
    ensures Merged(mosque, t)["prayer_times"] == Obj(t)
    ensures forall k :: k in mosque && k != "prayer_times" ==> Merged(mosque, t)[k] == mosque[k]
  {
  }

  /** Every serialized row has a `"mosque_name"` key. */
  predicate NamedRows(ts: seq<Dict>) {
    forall i :: 0 <= i < |ts| ==> "mosque_name" in ts[i]
  }

  /** `[t.to_dict() for t in times]`. */
  function Serialize(rs: seq<PrayerRecord>): (ts: seq<Dict>)
    ensures |ts| == |rs|
    ensures forall i :: 0 <= i < |rs| ==> ts[i] == ToDict(rs[i])
  {
    seq(|rs|, i requires 0 <= i < |rs| => ToDict(rs[i]))
  }

  /** Each serialized row is keyed by its record's name. */
  lemma SerializeNames(rs: seq<PrayerRecord>)
    ensures NamedRows(Serialize(rs))
    ensures forall i :: 0 <= i < |rs| ==> Serialize(rs)[i]["mosque_name"] == Str(rs[i].mosqueName)
  {
    forall i | 0 <= i < |rs|
      ensures "mosque_name" in Serialize(rs)[i] && Serialize(rs)[i]["mosque_name"] == Str(rs[i].mosqueName)
    {
      ToDictName(rs[i]);
    }
  }

  /** The registry lookup for one serialized row. */
  function LookupRow(registry: seq<Dict>, t: Dict): Lookup
    requires "mosque_name" in t
  {
    FindMosque(registry, t["mosque_name"])
  }

  /**
   * What one serialized row adds to the response: its merged entry, nothing
   * when no registry entry has its name, or `None` when the lookup raises.
   */
  function Contribution(registry: seq<Dict>, t: Dict): Option<seq<Dict>>
    requires "mosque_name" in t
  {
    match LookupRow(registry, t)
    case Found(m) => Some([Merged(registry[m], t)])
    case NotFound => Some([])
    case MissingName(_) => None
  }

  /** The response for serialized rows `ts`, in their order; `None` when a lookup raises `KeyError`. */
  function Join(ts: seq<Dict>, registry: seq<Dict>): Option<seq<Dict>>
    requires NamedRows(ts)
  {
    if ts == [] then Some([])
    else
      var prev :- Join(ts[..|ts| - 1], registry);
      var more :- Contribution(registry, ts[|ts| - 1]);
      Some(prev + more)
  }

  /** One more row: the response so far, extended by that row's contribution. */
  lemma JoinStep(ts: seq<Dict>, registry: seq<Dict>, i: nat)
    requires NamedRows(ts) && i < |ts|
    ensures Join(ts[..i + 1], registry) ==
      if Join(ts[..i], registry).None? || Contribution(registry, ts[i]).None? then None
      else Some(Join(ts[..i], registry).value + Contribution(registry, ts[i]).value)
  {
    assert ts[..i + 1][..i] == ts[..i];
  }

  /** Once a prefix of the rows raises, the whole request raises. */
  lemma {:induction false} JoinPrefixFails(ts: seq<Dict>, registry: seq<Dict>, n: nat)
    requires NamedRows(ts) && n <= |ts|
    requires Join(ts[..n], registry).None?
    ensures Join(ts, registry).None?
    decreases |ts| - n
  {
    if n < |ts| {
      var init := ts[..|ts| - 1];
      assert init[..n] == ts[..n];
      JoinPrefixFails(init, registry, n);
    } else {
      assert ts[..n] == ts;
    }
  }

  /** With a name on every registry entry, the request never raises. */
  lemma {:induction false} JoinTotal(ts: seq<Dict>, registry: seq<Dict>)
    requires NamedRows(ts) && HasNames(registry)
    ensures Join(ts, registry).Some?
  {
    if ts != [] {
      JoinTotal(ts[..|ts| - 1], registry);
      assert !LookupRow(registry, ts[|ts| - 1]).MissingName?;
    }
  }

  /** The response never has more entries than there are stored rows. */
  lemma {:induction false} JoinLength(ts: seq<Dict>, registry: seq<Dict>)
    requires NamedRows(ts) && Join(ts, registry).Some?
    ensures |Join(ts, registry).value| <= |ts|
  {
    if ts != [] {
      JoinLength(ts[..|ts| - 1], registry);
    }
  }

  /** The positions of the rows that some registry entry names, in increasing order. */
  function Kept(ts: seq<Dict>, registry: seq<Dict>): (ix: seq<nat>)
    requires NamedRows(ts)
    ensures forall k :: 0 <= k < |ix| ==> ix[k] < |ts| && LookupRow(registry, ts[ix[k]]).Found?
    ensures forall k, l :: 0 <= k < l < |ix| ==> ix[k] < ix[l]
    ensures forall i :: 0 <= i < |ts| && LookupRow(registry, ts[i]).Found? ==> i in ix
  {
    if ts == [] then []
    else
      var prev := Kept(ts[..|ts| - 1], registry);
      if LookupRow(registry, ts[|ts| - 1]).Found? then prev + [|ts| - 1] else prev
  }

  /** The entry a kept row produces: its first registry entry, merged with the row. */
  function EntryFor(registry: seq<Dict>, t: Dict): Dict
    requires "mosque_name" in t && LookupRow(registry, t).Found?
  {
    Merged(registry[LookupRow(registry, t).index], t)
  }

  lemma JoinIsFilterKeep(ts: seq<Dict>, registry: seq<Dict>)
    requires NamedRows(ts) && ts != [] && Join(ts, registry).Some?
    requires LookupRow(registry, ts[|ts| - 1]).Found?
    requires var init := ts[..|ts| - 1];
      && |Join(init, registry).value| == |Kept(init, registry)|
      && forall k :: 0 <= k < |Kept(init, registry)| ==>
        Join(init, registry).value[k] == EntryFor(registry, ts[Kept(init, registry)[k]])
    ensures |Join(ts, registry).value| == |Kept(ts, registry)|
    ensures forall k :: 0 <= k < |Kept(ts, registry)| ==>
      Join(ts, registry).value[k] == EntryFor(registry, ts[Kept(ts, registry)[k]])
  {
    var init := ts[..|ts| - 1];
    var prev := Join(init, registry).value;
    var ix := Kept(init, registry);
    assert Join(ts, registry).value == prev + [EntryFor(registry, ts[|ts| - 1])];
    assert Kept(ts, registry) == ix + [|ts| - 1];
  }

  lemma JoinIsFilterDrop(ts: seq<Dict>, registry: seq<Dict>)
    requires NamedRows(ts) && ts != [] && Join(ts, registry).Some?
    requires !LookupRow(registry, ts[|ts| - 1]).Found?
    requires var init := ts[..|ts| - 1];
      && |Join(init, registry).value| == |Kept(init, registry)|
      && forall k :: 0 <= k < |Kept(init, registry)| ==>
        Join(init, registry).value[k] == EntryFor(registry, ts[Kept(init, registry)[k]])
    ensures |Join(ts, registry).value| == |Kept(ts, registry)|
    ensures forall k :: 0 <= k < |Kept(ts, registry)| ==>
      Join(ts, registry).value[k] == EntryFor(registry, ts[Kept(ts, registry)[k]])
  {
    var init := ts[..|ts| - 1];
    assert Join(ts, registry).value == Join(init, registry).value;
    assert Kept(ts, registry) == Kept(init, registry);
  }

  /**
   * The join is a filter: the response lists, in row order, one entry per
   * row whose name is in the registry, merged from the first registry entry
   * of that name, and nothing for the other rows.
   */
  lemma {:induction false} JoinIsFilter(ts: seq<Dict>, registry: seq<Dict>)
    requires NamedRows(ts) && Join(ts, registry).Some?
    ensures |Join(ts, registry).value| == |Kept(ts, registry)|
    ensures forall k :: 0 <= k < |Kept(ts, registry)| ==>
      Join(ts, registry).value[k] == EntryFor(registry, ts[Kept(ts, registry)[k]])
  {
    if ts != [] {
      var init := ts[..|ts| - 1];
      JoinIsFilter(init, registry);
      assert forall k :: 0 <= k < |Kept(init, registry)| ==> init[Kept(init, registry)[k]] == ts[Kept(init, registry)[k]];
      if LookupRow(registry, ts[|ts| - 1]).Found? {
        JoinIsFilterKeep(ts, registry);
      } else {
        JoinIsFilterDrop(ts, registry);
      }
    }
  }

  /** `e` is named after `r`'s mosque and carries `r` serialized. */
  predicate EntryOfRow(e: Dict, r: PrayerRecord) {
    && "name" in e && e["name"] == Str(r.mosqueName)
    && "prayer_times" in e && e["prayer_times"] == Obj(ToDict(r))
  }

  /**
   * Every response entry names a stored row's mosque and carries that row's
   * serialized form; a registry entry with no stored row never appears.
   */
  lemma JoinEntriesFromRows(rs: seq<PrayerRecord>, registry: seq<Dict>, k: nat)
    requires NamedRows(Serialize(rs)) && Join(Serialize(rs), registry).Some?
    requires k < |Join(Serialize(rs), registry).value|
    ensures exists i :: 0 <= i < |rs| && EntryOfRow(Join(Serialize(rs), registry).value[k], rs[i])
  {
    var ts := Serialize(rs);
    SerializeNames(rs);
    JoinIsFilter(ts, registry);
    var i := Kept(ts, registry)[k];
    MergedFields(registry[LookupRow(registry, ts[i]).index], ts[i]);
    assert EntryOfRow(Join(ts, registry).value[k], rs[i]);
  }

  /** The `k`-th response entry is named after the row at the `k`-th kept position. */
  lemma ResponseEntryName(rs: seq<PrayerRecord>, registry: seq<Dict>, k: nat)
    requires NamedRows(Serialize(rs)) && Join(Serialize(rs), registry).Some?
    requires k < |Join(Serialize(rs), registry).value|
    ensures k < |Kept(Serialize(rs), registry)|
    ensures "name" in Join(Serialize(rs), registry).value[k]
    ensures Join(Serialize(rs), registry).value[k]["name"]
      == Str(rs[Kept(Serialize(rs), registry)[k]].mosqueName)
  {
    var ts := Serialize(rs);
    SerializeNames(rs);
    JoinIsFilter(ts, registry);
    var i := Kept(ts, registry)[k];
    MergedFields(registry[LookupRow(registry, ts[i]).index], ts[i]);
  }

  /**
   * With the table keyed by mosque name, no two response entries carry the
   * same `"name"`: each site appears at most once.
   */
  lemma ResponseNamesDistinct(t: TableState, registry: seq<Dict>, k: nat, l: nat)
    requires Keyed(t)
    requires NamedRows(Serialize(Records(t))) && Join(Serialize(Records(t)), registry).Some?
    requires k < l < |Join(Serialize(Records(t)), registry).value|
    ensures var resp := Join(Serialize(Records(t)), registry).value;
      "name" in resp[k] && "name" in resp[l] && resp[k]["name"] != resp[l]["name"]
  {
    var ts := Serialize(Records(t));
    ResponseEntryName(Records(t), registry, k);
    ResponseEntryName(Records(t), registry, l);
    var i, j := Kept(ts, registry)[k], Kept(ts, registry)[l];
    RecordsAt(t, i);
    RecordsAt(t, j);
    assert t.order[i] != t.order[j];
  }

  /**
   * A stored site whose name is in the registry appears in the response:
   * together with `ResponseNamesDistinct`, exactly once.
   */
  lemma ResponseHasSite(t: TableState, registry: seq<Dict>, i: nat)
    requires Keyed(t) && i < |t.order|
    requires NamedRows(Serialize(Records(t))) && Join(Serialize(Records(t)), registry).Some?
    requires FindMosque(registry, Str(t.order[i])).Found?
    ensures var resp := Join(Serialize(Records(t)), registry).value;
      exists k :: 0 <= k < |resp| && "name" in resp[k] && resp[k]["name"] == Str(t.order[i])
  {
    var ts := Serialize(Records(t));
    SerializeNames(Records(t));
    RecordsAt(t, i);
    JoinIsFilter(ts, registry);
    assert LookupRow(registry, ts[i]).Found?;
    var ix := Kept(ts, registry);
    assert i in ix;
    var k :| 0 <= k < |ix| && ix[k] == i;
    ResponseEntryName(Records(t), registry, k);
  }

  /** Serves `GET /prayer-times`: `None` when the registry lookup raises `KeyError`. */
  method GetPrayerTimes(table: PrayerTimesTable, registry: seq<Dict>) returns (result: Option<seq<Dict>>)
    requires table.Valid()
    ensures NamedRows(Serialize(table.All()))
    ensures result == Join(Serialize(table.All()), registry)
  {
    var times := table.All();
    var serialized := Serialize(times);
    SerializeNames(times);
    var acc: seq<Dict> := [];
    for i := 0 to |serialized|
      invariant Join(serialized[..i], registry) == Some(acc)
    {
      var t := serialized[i];
      var mosque := FindMosque(registry, t["mosque_name"]);
      JoinStep(serialized, registry, i);
      match mosque
      case MissingName(_) =>
        assert Contribution(registry, t).None?;
        JoinPrefixFails(serialized, registry, i + 1);
        return None;
      case NotFound =>
        assert Contribution(registry, t) == Some([]);
        assert acc + [] == acc;
      case Found(m) =>
        // a matched entry holds "name", so the dict is never empty (falsy)
        assert Contribution(registry, t) == Some([Merged(registry[m], t)]);
        acc := acc + [Merged(registry[m], t)];
    }
    assert serialized[..|serialized|] == serialized;
    return Some(acc);
  }

  // ---------------------------------------------------------------------------
  // The mock job (backend/app.py, mock_scrape_and_update)

  /** A present whole-minute time. */
  function At(h: Hour, m: Minute): Option<TimeOfDay> {
    Some(TimeOfDay(h, m, 0, 0))
  }

  /**
   * The two hard-coded rows, each dated by its own `date.today()` reading and
   * stamped with its own `datetime.now()` reading; Jummah 2 and 3 are left
   * absent.
   */
  function MockRecords(amanToday: Date, amanNow: DateTime, mukarramToday: Date, mukarramNow: DateTime): seq<PrayerRecord> {
    [
      PrayerRecord(
        mosqueName := "Baitul Aman", date := amanToday, updatedAt := amanNow,
        fajrStart := At(5, 0), fajrIqamah := At(5, 30),
        zuhrStart := At(13, 0), zuhrIqamah := At(13, 30),
        asrStart := At(17, 0), asrIqamah := At(17, 30),
        maghribStart := At(20, 15), maghribIqamah := At(20, 20),
        ishaStart := At(21, 30), ishaIqamah := At(22, 0),
        jummah1Start := At(13, 15), jummah1Iqamah := At(13, 30)),
      PrayerRecord(
        mosqueName := "Baitul Mukarram", date := mukarramToday, updatedAt := mukarramNow,
        fajrStart := At(5, 5), fajrIqamah := At(5, 35),
        zuhrStart := At(13, 5), zuhrIqamah := At(13, 35),
        asrStart := At(17, 5), asrIqamah := At(17, 35),
        maghribStart := At(20, 20), maghribIqamah := At(20, 25),
        ishaStart := At(21, 35), ishaIqamah := At(22, 5),
        jummah1Start := At(13, 20), jummah1Iqamah := At(13, 40))
    ]
  }

  /** Both the start and the iqamah of `p` are recorded, and the start is strictly earlier. */
  predicate StartsBeforeIqamah(r: PrayerRecord, p: Prayer) {
    && TimeOf(r, Field(p, Start)).Some?
    && TimeOf(r, Field(p, Iqamah)).Some?
    && MicrosOfDay(TimeOf(r, Field(p, Start)).value) < MicrosOfDay(TimeOf(r, Field(p, Iqamah)).value)
  }

  /**
   * In each fixture row, the five daily prayers and Jummah 1 start strictly
   * before their iqamah, and Jummah 2 and 3 are absent.
   */
  lemma MockStartsBeforeIqamah(amanToday: Date, amanNow: DateTime, mukarramToday: Date, mukarramNow: DateTime, i: nat, p: Prayer)
    requires i < 2
    ensures p in {Fajr, Zuhr, Asr, Maghrib, Isha, Jummah1} ==> StartsBeforeIqamah(MockRecords(amanToday, amanNow, mukarramToday, mukarramNow)[i], p)
    ensures p in {Jummah2, Jummah3} ==>
      && TimeOf(MockRecords(amanToday, amanNow, mukarramToday, mukarramNow)[i], Field(p, Start)).None?
      && TimeOf(MockRecords(amanToday, amanNow, mukarramToday, mukarramNow)[i], Field(p, Iqamah)).None?
  {
  }

  /**
   * After the job, the table holds exactly the two fixture rows in merge
   * order, whatever it held before.
   */
  lemma MockJobResult(amanToday: Date, amanNow: DateTime, mukarramToday: Date, mukarramNow: DateTime)
    ensures Keyed(UpsertAll(Empty, MockRecords(amanToday, amanNow, mukarramToday, mukarramNow)))
    ensures Records(UpsertAll(Empty, MockRecords(amanToday, amanNow, mukarramToday, mukarramNow))) == MockRecords(amanToday, amanNow, mukarramToday, mukarramNow)
    ensures UpsertAll(Empty, MockRecords(amanToday, amanNow, mukarramToday, mukarramNow)).rows.Keys == {"Baitul Aman", "Baitul Mukarram"}
  {
    var rs := MockRecords(amanToday, amanNow, mukarramToday, mukarramNow);
    UpsertAllIntoEmpty(rs);
    assert rs[..1][..0] == [];
    assert UpsertAll(Empty, rs[..1]) == Upsert(Empty, rs[0]);
    assert UpsertAll(Empty, rs) == Upsert(Upsert(Empty, rs[0]), rs[1]);
  }

  /**
   * The job: delete every row, merge the fixtures one at a time, commit.
   * `amanToday`, `amanNow`, `mukarramToday` and `mukarramNow` are the four
   * clock readings the job takes, one date and one timestamp per row.
   */
  method MockScrapeAndUpdate(table: PrayerTimesTable, amanToday: Date, amanNow: DateTime, mukarramToday: Date, mukarramNow: DateTime)
    requires table.Valid()
    modifies table
    ensures table.Valid()
    ensures table.State() == UpsertAll(Empty, MockRecords(amanToday, amanNow, mukarramToday, mukarramNow))
    ensures table.All() == MockRecords(amanToday, amanNow, mukarramToday, mukarramNow)
    ensures table.rows.Keys == {"Baitul Aman", "Baitul Mukarram"}
  {
    table.DeleteAll();
    var records := MockRecords(amanToday, amanNow, mukarramToday, mukarramNow);
    for i := 0 to |records|
      invariant table.Valid()
      invariant table.State() == UpsertAll(Empty, records[..i])
    {
      assert records[..i + 1][..i] == records[..i];
      table.Merge(records[i]);
    }
    assert records[..|records|] == records;
    MockJobResult(amanToday, amanNow, mukarramToday, mukarramNow);
  }
}
