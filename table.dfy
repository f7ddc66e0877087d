/**
 * The `prayer_times` table as the backend uses it: rows keyed by
 * `mosque_name`, a bulk delete, `session.merge` (insert a new row or
 * overwrite the row with the same key) and `query.all()`.
 */
module Table {
  import opened PrayerTimesModel

  /**
   * The rows by primary key, and the order in which `query.all()` returns
   * them (the order in which the keys were first inserted).
   */
  datatype TableState = TableState(rows: map<string, PrayerRecord>, order: seq<string>)

  const Empty: TableState := TableState(map[], [])

  predicate NoDuplicates(s: seq<string>) {
    forall i, j :: 0 <= i < j < |s| ==> s[i] != s[j]
  }

  /**
   * The primary-key invariant: each key is listed once, the listed keys are
   * exactly the stored ones, and each row is filed under its own name.
   */
  predicate Keyed(t: TableState) {
    && NoDuplicates(t.order)
    && (forall k :: k in t.rows ==> k in t.order)
    && (forall i :: 0 <= i < |t.order| ==> t.order[i] in t.rows)
    && (forall k :: k in t.rows ==> t.rows[k].mosqueName == k)
  }

  /** The rows named by `order`, in that order. */
  function RecordsOf(rows: map<string, PrayerRecord>, order: seq<string>): (rs: seq<PrayerRecord>)
    requires forall k :: k in order ==> k in rows
    ensures |rs| == |order|
  {
    if order == [] then []
    else RecordsOf(rows, order[..|order| - 1]) + [rows[order[|order| - 1]]]
  }

  /** `query.all()`. */
  function Records(t: TableState): seq<PrayerRecord>
    requires Keyed(t)
  {
    RecordsOf(t.rows, t.order)
  }

  /**
   * `session.merge(r)`: overwrite the row with `r`'s key, or insert `r` as a
   * new last row. Replacing the whole row is exact for an insert and for an
   * object that sets every column; SQLAlchemy keeps a stored column that the
   * merged object leaves unset.
   */
  function Upsert(t: TableState, r: PrayerRecord): TableState {
    if r.mosqueName in t.rows then TableState(t.rows[r.mosqueName := r], t.order)
    else TableState(t.rows[r.mosqueName := r], t.order + [r.mosqueName])
  }

  /** Merging each record of `rs` in turn. */
  function UpsertAll(t: TableState, rs: seq<PrayerRecord>): TableState {
    if rs == [] then t else Upsert(UpsertAll(t, rs[..|rs| - 1]), rs[|rs| - 1])
  }

  /** No two records share a name. */
  predicate DistinctNames(rs: seq<PrayerRecord>) {
    forall i, j :: 0 <= i < j < |rs| ==> rs[i].mosqueName != rs[j].mosqueName
  }

  /** The number of records named `name`. */
  function CountNamed(rs: seq<PrayerRecord>, name: string): nat {
    if rs == [] then 0
    else CountNamed(rs[..|rs| - 1], name) + (if rs[|rs| - 1].mosqueName == name then 1 else 0)
  }

  /** A merge keeps the primary-key invariant, and stores `r` under its name without touching other rows. */
  lemma UpsertKeyed(t: TableState, r: PrayerRecord)
    requires Keyed(t)
    ensures Keyed(Upsert(t, r))
    ensures Upsert(t, r).rows == t.rows[r.mosqueName := r]
  {
  }

  /** Merging any sequence of records keeps the primary-key invariant. */
  lemma {:induction false} UpsertAllKeyed(t: TableState, rs: seq<PrayerRecord>)
    requires Keyed(t)
    ensures Keyed(UpsertAll(t, rs))
  {
    if rs != [] {
      UpsertAllKeyed(t, rs[..|rs| - 1]);
      UpsertKeyed(UpsertAll(t, rs[..|rs| - 1]), rs[|rs| - 1]);
    }
  }

  /**
   * After merging `rs`, a key is stored exactly when it was stored before or
   * some record in `rs` has it.
   */
  lemma {:induction false} UpsertAllKeys(t: TableState, rs: seq<PrayerRecord>, k: string)
    ensures k in UpsertAll(t, rs).rows <==> k in t.rows || exists i :: 0 <= i < |rs| && rs[i].mosqueName == k
  {
    if rs != [] {
      var init := rs[..|rs| - 1];
      UpsertAllKeys(t, init, k);
      if exists i :: 0 <= i < |init| && init[i].mosqueName == k {
        var i :| 0 <= i < |init| && init[i].mosqueName == k;
        assert rs[i] == init[i];
      }
      if exists i :: 0 <= i < |rs| && rs[i].mosqueName == k {
        var i :| 0 <= i < |rs| && rs[i].mosqueName == k;
        if i < |init| {
          assert init[i] == rs[i];
        }
      }
    }
  }

  /** For a name that occurs in `rs`, the last record with that name is the one stored. */
  lemma {:induction false} UpsertAllLaterWins(t: TableState, rs: seq<PrayerRecord>, i: nat)
    requires i < |rs|
    requires forall j :: i < j < |rs| ==> rs[j].mosqueName != rs[i].mosqueName
    ensures rs[i].mosqueName in UpsertAll(t, rs).rows
    ensures UpsertAll(t, rs).rows[rs[i].mosqueName] == rs[i]
  {
    var init := rs[..|rs| - 1];
    if i < |rs| - 1 {
      UpsertAllLaterWins(t, init, i);
    }
  }

  /** A row whose name no merged record has is left as it was. */
  lemma {:induction false} UpsertAllKeepsOthers(t: TableState, rs: seq<PrayerRecord>, k: string)
    requires k in t.rows
    requires forall i :: 0 <= i < |rs| ==> rs[i].mosqueName != k
    ensures k in UpsertAll(t, rs).rows && UpsertAll(t, rs).rows[k] == t.rows[k]
  {
    if rs != [] {
      UpsertAllKeepsOthers(t, rs[..|rs| - 1], k);
    }
  }

  lemma {:induction false} RecordsOfAt(rows: map<string, PrayerRecord>, order: seq<string>, i: nat)
    requires forall k :: k in order ==> k in rows
    requires i < |order|
    ensures RecordsOf(rows, order)[i] == rows[order[i]]
  {
    if i < |order| - 1 {
      RecordsOfAt(rows, order[..|order| - 1], i);
    }
  }

  lemma {:induction false} CountNamedOf(rows: map<string, PrayerRecord>, order: seq<string>, name: string)
    requires forall k :: k in order ==> k in rows && rows[k].mosqueName == k
    requires NoDuplicates(order)
    ensures CountNamed(RecordsOf(rows, order), name) == if name in order then 1 else 0
  {
    if order != [] {
      var init := order[..|order| - 1];
      var last := order[|order| - 1];
      CountNamedOf(rows, init, name);
      assert order == init + [last];
      assert last !in init;
      assert RecordsOf(rows, order)[..|order| - 1] == RecordsOf(rows, init);
    }
  }

  /**
   * The primary key at work: `query.all()` returns exactly one row for each
   * stored name and none for any other.
   */
  lemma PrimaryKeyUnique(t: TableState, name: string)
    requires Keyed(t)
    ensures CountNamed(Records(t), name) == if name in t.rows then 1 else 0
  {
    CountNamedOf(t.rows, t.order, name);
  }

  /** The `i`-th row returned is the row stored under the `i`-th key, and carries that key. */
  lemma RecordsAt(t: TableState, i: nat)
    requires Keyed(t)
    requires i < |t.order|
    ensures Records(t)[i] == t.rows[t.order[i]] && Records(t)[i].mosqueName == t.order[i]
  {
    RecordsOfAt(t.rows, t.order, i);
  }

  /** A name that neither the table nor any merged record has stays absent. */
  lemma UpsertAllAbsent(t: TableState, rs: seq<PrayerRecord>, k: string)
    requires k !in t.rows
    requires forall i :: 0 <= i < |rs| ==> rs[i].mosqueName != k
    ensures k !in UpsertAll(t, rs).rows
  {
    UpsertAllKeys(t, rs, k);
  }

  /** Merging a record under a new name appends it to what `query.all()` returns. */
  lemma UpsertNewAppends(t: TableState, r: PrayerRecord)
    requires Keyed(t)
    requires r.mosqueName !in t.rows
    ensures Keyed(Upsert(t, r))
    ensures Records(Upsert(t, r)) == Records(t) + [r]
  {
    UpsertKeyed(t, r);
    var u := Upsert(t, r);
    assert u.order[..|u.order| - 1] == t.order;
    RecordsOfFrame(t.rows, u.rows, t.order);
  }

  /** Into an empty table, records with distinct names are stored and returned in merge order. */
  lemma {:induction false} UpsertAllIntoEmpty(rs: seq<PrayerRecord>)
    requires DistinctNames(rs)
    ensures Keyed(UpsertAll(Empty, rs))
    ensures Records(UpsertAll(Empty, rs)) == rs
  {
    if rs != [] {
      var init := rs[..|rs| - 1];
      var last := rs[|rs| - 1];
      assert rs == init + [last];
      assert DistinctNames(init) by {
        forall i, j | 0 <= i < j < |init|
          ensures init[i].mosqueName != init[j].mosqueName
        {
          assert init[i] == rs[i] && init[j] == rs[j];
        }
      }
      assert forall i :: 0 <= i < |init| ==> init[i].mosqueName != last.mosqueName by {
        forall i | 0 <= i < |init|
          ensures init[i].mosqueName != last.mosqueName
        {
          assert init[i] == rs[i];
        }
      }
      UpsertAllIntoEmpty(init);
      var t := UpsertAll(Empty, init);
      assert UpsertAll(Empty, rs) == Upsert(t, last);
      UpsertAllAbsent(Empty, init, last.mosqueName);
      UpsertNewAppends(t, last);
    }
  }

  lemma {:induction false} RecordsOfFrame(rows: map<string, PrayerRecord>, rows': map<string, PrayerRecord>, order: seq<string>)
    requires forall k :: k in order ==> k in rows && k in rows' && rows'[k] == rows[k]
    ensures RecordsOf(rows', order) == RecordsOf(rows, order)
  {
    if order != [] {
      RecordsOfFrame(rows, rows', order[..|order| - 1]);
    }
  }

  /** The table itself: its fields are reassigned by the bulk delete and by each merge. */
  class PrayerTimesTable {
    var rows: map<string, PrayerRecord>
    var order: seq<string>

    function State(): TableState
      reads this
    {
      TableState(rows, order)
    }

    ghost predicate Valid()
      reads this
    {
      Keyed(State())
    }

    /** A table `db.create_all()` creates because it did not exist yet: empty. */
    constructor ()
      ensures Valid() && State() == Empty
    {
      rows := map[];
      order := [];
    }

    /** `PrayerTimes.query.delete()`: removes every row. */
    method DeleteAll()
      modifies this
      ensures Valid() && State() == Empty
    {
      rows := map[];
      order := [];
    }

    /** `db.session.merge(r)`: insert or update by `mosque_name`. */
    method Merge(r: PrayerRecord)
      requires Valid()
      modifies this
      ensures Valid()
      ensures State() == Upsert(old(State()), r)
    {
      UpsertKeyed(State(), r);
      if r.mosqueName !in rows {
        order := order + [r.mosqueName];
      }
      rows := rows[r.mosqueName := r];
    }

    /** `PrayerTimes.query.all()`. */
    function All(): seq<PrayerRecord>
      reads this
      requires Valid()
    {
      Records(State())
    }
  }
}
