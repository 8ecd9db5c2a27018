/**
 * The temperature-record service of app.js: the series validator, the
 * selector entry point with its argument check, and the decision logic of the
 * create, read, update, delete and summary handlers over a table of records.
 * The SQLite table becomes a map from id to record, AUTOINCREMENT a counter,
 * and CURRENT_TIMESTAMP a logical clock that advances on every write.
 */
module App {
  import opened Wrappers
  import opened JsText
  import Selector

  /** An element of a request's `temperatureSeries` as JSON delivers it: a
      number, NaN, or a value of another type (a string, null, an object). */
  datatype Sample = Num(value: real) | NaN | NotNumber

  /** A request field that should hold an array: absent (`undefined`),
      present but not an array (`null`, a string, an object), or an array. */
  datatype Arg<T> = Missing | NotArray | Array(items: seq<T>)

  /** The `personName` field of a request body. */
  datatype NameArg = Absent | Null | Text(text: string)

  /** The errors the handlers report, one per message in app.js. */
  datatype Error =
    | InvalidTemperatureSeries          // "Invalid temperature series"
    | SeriesMustBeNonEmptyArray         // "Temperature series must be a non-empty array"
    | InvalidTemperatureAt(index: nat)  // "Invalid temperature at index i: ..."
    | PersonNameRequired                // "Person name is required"
    | SeriesRequired                    // "Temperature series is required and must be ..."
    | RecordNotFound                    // "Temperature record not found"
    | PersonNameEmpty                   // "Person name cannot be empty"
    | NoValidFields                     // "No valid fields to update"

  /** A row of `temperature_records`, with the series already parsed. */
  datatype Record = Record(
    id: nat,
    personName: string,
    temperatureSeries: seq<real>,
    closestToZero: real,
    recordedAt: nat,
    createdAt: nat,
    updatedAt: nat)

  /** What every stored row satisfies: a non-empty series whose derived
      value is in step with it, and timestamps in order. */
  predicate Consistent(rec: Record)
  {
    && |rec.temperatureSeries| > 0
    && rec.closestToZero == Selector.ClosestToZero(rec.temperatureSeries)
    && rec.recordedAt == rec.createdAt <= rec.updatedAt
  }

  predicate IsNumeric(items: seq<Sample>)
  {
    forall i :: 0 <= i < |items| ==> items[i].Num?
  }

  /** `i` is the lowest index whose element is not a usable number. */
  predicate FirstInvalid(items: seq<Sample>, i: nat)
  {
    i < |items| && !items[i].Num? && forall j :: 0 <= j < i ==> items[j].Num?
  }

  /** The numbers of a series that passed validation. */
  function Values(items: seq<Sample>): (r: seq<real>)
    requires IsNumeric(items)
    ensures |r| == |items| && forall i :: 0 <= i < |items| ==> items[i] == Num(r[i])
  {
    seq(|items|, i requires 0 <= i < |items| => items[i].value)
  }

  /** `findClosestToZero`: refuses a non-array or an empty array, and
      otherwise runs the shared scan. */
  method FindClosestToZero(temperatures: Arg<real>) returns (r: Result<real, Error>)
    ensures !temperatures.Array? || temperatures.items == [] ==> r == Failure(InvalidTemperatureSeries)
    ensures temperatures.Array? && temperatures.items != [] ==>
              r.Success? && Selector.IsClosestToZero(temperatures.items, r.value)
  {
    if !temperatures.Array? || |temperatures.items| == 0 {
      return Failure(InvalidTemperatureSeries);
    }
    var closest := Selector.Scan(temperatures.items);
    return Success(closest);
  }

  /** The position of the first element that is not a usable number, if
      there is one. */
  function FirstInvalidIndex(items: seq<Sample>): (r: Option<nat>)
    ensures r == None <==> IsNumeric(items)
    ensures r.Some? ==> FirstInvalid(items, r.value)
  {
    if items == [] then None
    else if !items[0].Num? then Some(0)
    else
      match FirstInvalidIndex(items[1..])
      case None => None
      case Some(i) => Some(i + 1)
  }

  /** What `validateTemperatureSeries` decides about its argument. */
  function Validation(temperatureSeries: Arg<Sample>): Outcome<Error>
  {
    if !NonEmptyArray(temperatureSeries) then Fail(SeriesMustBeNonEmptyArray)
    else
      match FirstInvalidIndex(temperatureSeries.items)
      case None => Pass
      case Some(i) => Fail(InvalidTemperatureAt(i))
  }

  /** The validator accepts exactly the non-empty arrays of numbers; it
      refuses anything else as not a non-empty array, or names the lowest
      index holding NaN or a non-number. */
  lemma ValidationMeaning(temperatureSeries: Arg<Sample>)
    ensures Validation(temperatureSeries) == Pass <==>
              NonEmptyArray(temperatureSeries) && IsNumeric(temperatureSeries.items)
    ensures !NonEmptyArray(temperatureSeries) ==> Validation(temperatureSeries) == Fail(SeriesMustBeNonEmptyArray)
    ensures NonEmptyArray(temperatureSeries) && Validation(temperatureSeries).Fail? ==>
              && Validation(temperatureSeries).error.InvalidTemperatureAt?
              && FirstInvalid(temperatureSeries.items, Validation(temperatureSeries).error.index)
  {
  }

  /** `validateTemperatureSeries`: the checks in order, the elements scanned
      from index 0 with an early exit at the first bad one. */
  method ValidateTemperatureSeries(temperatureSeries: Arg<Sample>) returns (r: Outcome<Error>)
    ensures r == Validation(temperatureSeries)
    ensures r == Pass <==>
              temperatureSeries.Array? && temperatureSeries.items != [] && IsNumeric(temperatureSeries.items)
    ensures r.Fail? && NonEmptyArray(temperatureSeries) ==>
              r.error.InvalidTemperatureAt? && FirstInvalid(temperatureSeries.items, r.error.index)
  {
    if !temperatureSeries.Array? || |temperatureSeries.items| == 0 {
      return Fail(SeriesMustBeNonEmptyArray);
    }
    var items := temperatureSeries.items;
    for i := 0 to |items|
      invariant forall j :: 0 <= j < i ==> items[j].Num?
    {
      if !items[i].Num? {
        FirstInvalidUnique(items, i, FirstInvalidIndex(items).value);
        return Fail(InvalidTemperatureAt(i));
      }
    }
    return Pass;
  }

  lemma FirstInvalidUnique(items: seq<Sample>, i: nat, j: nat)
    requires FirstInvalid(items, i) && FirstInvalid(items, j)
    ensures i == j
  {
  }

  /** One entry of the PUT handler's `updateFields`/`updateValues` lists. */
  datatype Assignment =
    | SetPersonName(name: string)
    | SetTemperatureSeries(series: seq<real>)
    | SetClosestToZero(value: real)
    | SetUpdatedAt(at: nat)

  /** The row after `SET` of one field. */
  function ApplyOne(rec: Record, field: Assignment): Record
  {
    match field
    case SetPersonName(n) => rec.(personName := n)
    case SetTemperatureSeries(s) => rec.(temperatureSeries := s)
    case SetClosestToZero(c) => rec.(closestToZero := c)
    case SetUpdatedAt(t) => rec.(updatedAt := t)
  }

  /** The row after `UPDATE ... SET <fields>`, the fields taken in order. */
  function Apply(rec: Record, fields: seq<Assignment>): Record
    decreases |fields|
  {
    if fields == [] then rec else Apply(ApplyOne(rec, fields[0]), fields[1..])
  }

  /** Pushing one more field onto the list sets it after the others. */
  lemma {:induction false} ApplyPush(rec: Record, fields: seq<Assignment>, field: Assignment)
    ensures Apply(rec, fields + [field]) == ApplyOne(Apply(rec, fields), field)
    decreases |fields|
  {
    if fields == [] {
      assert [field][1..] == [];
    } else {
      assert (fields + [field])[1..] == fields[1..] + [field];
      ApplyPush(ApplyOne(rec, fields[0]), fields[1..], field);
    }
  }

  /** The POST handler accepts a name that is a string and not blank. */
  predicate NameGiven(personName: NameArg)
  {
    personName.Text? && Trim(personName.text) != []
  }

  /** The PUT handler rejects a supplied name that is null or blank. */
  predicate NameRejected(personName: NameArg)
  {
    personName.Null? || (personName.Text? && Trim(personName.text) == [])
  }

  predicate NonEmptyArray<T>(a: Arg<T>)
  {
    a.Array? && a.items != []
  }

  /** What the POST handler answers, `id` and `now` being the id and the
      timestamp the insert takes. */
  function CreateOutcome(personName: NameArg, temperatureSeries: Arg<Sample>, id: nat, now: nat): Result<Record, Error>
  {
    if !NameGiven(personName) then Failure(PersonNameRequired)
    else if !NonEmptyArray(temperatureSeries) then Failure(SeriesRequired)
    else
      match Validation(temperatureSeries)
      case Fail(e) => Failure(e)
      case Pass =>
        var values := Values(temperatureSeries.items);
        Success(Record(id, Trim(personName.text), values, Selector.ClosestToZero(values), now, now, now))
  }

  /** What the PUT handler answers for an existing row `rec`, `now` being
      the timestamp the write takes. */
  function UpdateOutcome(rec: Record, personName: NameArg, temperatureSeries: Arg<Sample>, now: nat): Result<Record, Error>
  {
    if NameRejected(personName) then Failure(PersonNameEmpty)
    else if !temperatureSeries.Missing? && !NonEmptyArray(temperatureSeries) then Failure(SeriesMustBeNonEmptyArray)
    else if !temperatureSeries.Missing? && Validation(temperatureSeries).Fail? then Failure(Validation(temperatureSeries).error)
    else if personName.Absent? && temperatureSeries.Missing? then Failure(NoValidFields)
    else
      var rec' := if personName.Text? then rec.(personName := Trim(personName.text)) else rec;
      var rec'' :=
        if temperatureSeries.Array? then
          var values := Values(temperatureSeries.items);
          rec'.(temperatureSeries := values, closestToZero := Selector.ClosestToZero(values))
        else rec';
      Success(rec''.(updatedAt := now))
  }

  /** The POST handler refuses a missing or blank name before it looks at
      the series, a missing, non-array or empty series before it looks at the
      elements, and otherwise stores the trimmed name, the numbers in order
      and their closest-to-zero value, with every timestamp set to now. */
  lemma CreateOutcomeMeaning(personName: NameArg, temperatureSeries: Arg<Sample>, id: nat, now: nat)
    ensures !NameGiven(personName) ==>
              CreateOutcome(personName, temperatureSeries, id, now) == Failure(PersonNameRequired)
    ensures NameGiven(personName) && !NonEmptyArray(temperatureSeries) ==>
              CreateOutcome(personName, temperatureSeries, id, now) == Failure(SeriesRequired)
    ensures NameGiven(personName) && NonEmptyArray(temperatureSeries) && !IsNumeric(temperatureSeries.items) ==>
              && CreateOutcome(personName, temperatureSeries, id, now).Failure?
              && CreateOutcome(personName, temperatureSeries, id, now).error.InvalidTemperatureAt?
              && FirstInvalid(temperatureSeries.items, CreateOutcome(personName, temperatureSeries, id, now).error.index)
    ensures CreateOutcome(personName, temperatureSeries, id, now).Success? <==>
              NameGiven(personName) && NonEmptyArray(temperatureSeries) && IsNumeric(temperatureSeries.items)
    ensures CreateOutcome(personName, temperatureSeries, id, now).Success? ==>
              var rec := CreateOutcome(personName, temperatureSeries, id, now).value;
              && Consistent(rec) && rec.id == id && rec.createdAt == rec.updatedAt == now
              && rec.personName == Trim(personName.text)
              && rec.personName != [] && Trim(rec.personName) == rec.personName
              && rec.temperatureSeries == Values(temperatureSeries.items)
              && Selector.IsClosestToZero(rec.temperatureSeries, rec.closestToZero)
  {
    ValidationMeaning(temperatureSeries);
    if NameGiven(personName) {
      TrimIdempotent(personName.text);
    }
  }

  /** The PUT handler checks a supplied name, then a supplied series, then
      that something was supplied. On success only the supplied fields
      change: a new series always brings its own closest-to-zero value,
      `updatedAt` becomes now, and id, `recordedAt` and `createdAt` stay. */
  lemma UpdateOutcomeMeaning(rec: Record, personName: NameArg, temperatureSeries: Arg<Sample>, now: nat)
    ensures NameRejected(personName) ==>
              UpdateOutcome(rec, personName, temperatureSeries, now) == Failure(PersonNameEmpty)
    ensures !NameRejected(personName) && !temperatureSeries.Missing? && !NonEmptyArray(temperatureSeries) ==>
              UpdateOutcome(rec, personName, temperatureSeries, now) == Failure(SeriesMustBeNonEmptyArray)
    ensures !NameRejected(personName) && NonEmptyArray(temperatureSeries) && !IsNumeric(temperatureSeries.items) ==>
              && UpdateOutcome(rec, personName, temperatureSeries, now).Failure?
              && UpdateOutcome(rec, personName, temperatureSeries, now).error.InvalidTemperatureAt?
              && FirstInvalid(temperatureSeries.items, UpdateOutcome(rec, personName, temperatureSeries, now).error.index)
    ensures personName.Absent? && temperatureSeries.Missing? ==>
              UpdateOutcome(rec, personName, temperatureSeries, now) == Failure(NoValidFields)
    ensures UpdateOutcome(rec, personName, temperatureSeries, now).Success? <==>
              && !NameRejected(personName)
              && (temperatureSeries.Missing? || (NonEmptyArray(temperatureSeries) && IsNumeric(temperatureSeries.items)))
              && !(personName.Absent? && temperatureSeries.Missing?)
    ensures UpdateOutcome(rec, personName, temperatureSeries, now).Success? ==>
              var rec' := UpdateOutcome(rec, personName, temperatureSeries, now).value;
              && rec'.id == rec.id && rec'.recordedAt == rec.recordedAt && rec'.createdAt == rec.createdAt
              && rec'.updatedAt == now
              && (personName.Text? ==> rec'.personName == Trim(personName.text) && rec'.personName != [])
              && (!personName.Text? ==> rec'.personName == rec.personName)
              && (temperatureSeries.Array? ==>
                    rec'.temperatureSeries == Values(temperatureSeries.items)
                    && Selector.IsClosestToZero(rec'.temperatureSeries, rec'.closestToZero))
              && (!temperatureSeries.Array? ==>
                    rec'.temperatureSeries == rec.temperatureSeries && rec'.closestToZero == rec.closestToZero)
  {
    ValidationMeaning(temperatureSeries);
  }

  /** The checks of the PUT handler and the `updateFields` list it pushes
      onto, applied to the existing row `rec` in one `UPDATE` stamped `now`. */
  method BuildUpdate(rec: Record, personName: NameArg, temperatureSeries: Arg<Sample>, now: nat)
    returns (r: Result<Record, Error>)
    ensures r == UpdateOutcome(rec, personName, temperatureSeries, now)
  {
    var updateFields: seq<Assignment> := [];
    ghost var pending := rec;
    if !personName.Absent? {
      if personName.Null? || Trim(personName.text) == [] {
        return Failure(PersonNameEmpty);
      }
      ApplyPush(rec, updateFields, SetPersonName(Trim(personName.text)));
      updateFields := updateFields + [SetPersonName(Trim(personName.text))];
      pending := pending.(personName := Trim(personName.text));
    }
    assert Apply(rec, updateFields) == pending;
    if !temperatureSeries.Missing? {
      if !temperatureSeries.Array? || |temperatureSeries.items| == 0 {
        return Failure(SeriesMustBeNonEmptyArray);
      }
      var valid := ValidateTemperatureSeries(temperatureSeries);
      if valid.Fail? {
        return Failure(valid.error);
      }
      var values := Values(temperatureSeries.items);
      var closest := FindClosestToZero(Array(values));
      Selector.ClosestToZeroUnique(values, closest.value, Selector.ClosestToZero(values));
      ApplyPush(rec, updateFields, SetTemperatureSeries(values));
      updateFields := updateFields + [SetTemperatureSeries(values)];
      ApplyPush(rec, updateFields, SetClosestToZero(closest.value));
      updateFields := updateFields + [SetClosestToZero(closest.value)];
      pending := pending.(temperatureSeries := values, closestToZero := closest.value);
    }
    assert Apply(rec, updateFields) == pending;
    if |updateFields| == 0 {
      return Failure(NoValidFields);
    }
    ApplyPush(rec, updateFields, SetUpdatedAt(now));
    updateFields := updateFields + [SetUpdatedAt(now)];
    r := Success(Apply(rec, updateFields));
  }

  /** A successful update keeps the row's id and creation times, keeps its
      derived value in step with its series, and moves `updatedAt` to `now`. */
  lemma UpdateKeepsRow(rec: Record, personName: NameArg, temperatureSeries: Arg<Sample>, now: nat)
    requires Consistent(rec) && rec.updatedAt <= now
    requires UpdateOutcome(rec, personName, temperatureSeries, now).Success?
    ensures var rec' := UpdateOutcome(rec, personName, temperatureSeries, now).value;
      && Consistent(rec')
      && rec'.id == rec.id && rec'.createdAt == rec.createdAt && rec'.recordedAt == rec.recordedAt
      && rec'.updatedAt == now
  {
  }

  /** A record of a seed script's data: a name and its series. */
  datatype Entry = Entry(personName: string, temperatureSeries: seq<real>)

  /** The table holds exactly one row per entry, inserted in order from
      `firstId`, each with the closest-to-zero value of its own series. */
  ghost predicate Loaded(records: map<nat, Record>, firstId: nat, entries: seq<Entry>)
  {
    && (forall id :: id in records <==> firstId <= id < firstId + |entries|)
    && forall k :: 0 <= k < |entries| ==>
         && firstId + k in records
         && records[firstId + k].personName == entries[k].personName
         && records[firstId + k].temperatureSeries == entries[k].temperatureSeries
         && |entries[k].temperatureSeries| > 0
         && records[firstId + k].closestToZero == Selector.ClosestToZero(entries[k].temperatureSeries)
  }

  /** Inserting the next entry under the next id extends the loaded prefix
      by that entry. */
  lemma LoadedPush(records: map<nat, Record>, firstId: nat, entries: seq<Entry>, entry: Entry, rec: Record)
    requires Loaded(records, firstId, entries)
    requires rec.id == firstId + |entries|
    requires rec.personName == entry.personName && rec.temperatureSeries == entry.temperatureSeries
    requires |entry.temperatureSeries| > 0 && rec.closestToZero == Selector.ClosestToZero(entry.temperatureSeries)
    ensures Loaded(records[rec.id := rec], firstId, entries + [entry])
  {
    var entries' := entries + [entry];
    forall k | 0 <= k < |entries'|
      ensures && firstId + k in records[rec.id := rec]
              && records[rec.id := rec][firstId + k].personName == entries'[k].personName
              && records[rec.id := rec][firstId + k].temperatureSeries == entries'[k].temperatureSeries
              && |entries'[k].temperatureSeries| > 0
              && records[rec.id := rec][firstId + k].closestToZero == Selector.ClosestToZero(entries'[k].temperatureSeries)
    {
      if k < |entries| {
        assert entries'[k] == entries[k];
      }
    }
  }

  /** The names that occur in a table. */
  function DistinctNames(m: map<nat, Record>): set<string>
  {
    set id | id in m :: m[id].personName
  }

  /** There are never more distinct names than rows, and there is a name
      as soon as there is a row. */
  lemma {:induction false} DistinctNamesBounded(m: map<nat, Record>)
    ensures |DistinctNames(m)| <= |m|
    ensures |m| == 0 <==> |DistinctNames(m)| == 0
  {
    if |m| > 0 {
      var k :| k in m;
      var m' := m - {k};
      DistinctNamesBounded(m');
      forall n | n in DistinctNames(m) ensures n in DistinctNames(m') + {m[k].personName} {
        var id :| id in m && m[id].personName == n;
        if id != k {
          assert id in m';
        }
      }
      assert DistinctNames(m) == DistinctNames(m') + {m[k].personName};
      if m[k].personName in DistinctNames(m') {
        assert DistinctNames(m) == DistinctNames(m');
      }
      assert |m'| == |m| - 1;
    }
  }

  /** The invariant of the table: every row sits under its own id, below
      the next id to be handed out, is consistent, and was last written no
      later than the clock. */
  ghost predicate TableValid(records: map<nat, Record>, nextId: nat, clock: nat)
  {
    forall id :: id in records ==>
      && records[id].id == id
      && id < nextId
      && Consistent(records[id])
      && records[id].updatedAt <= clock
  }

  /** Rewriting one existing row with a consistent record stamped now keeps
      the invariant once the clock reaches now. */
  lemma WriteKeepsValid(records: map<nat, Record>, nextId: nat, clock: nat, rec: Record, now: nat)
    requires TableValid(records, nextId, clock) && rec.id in records && clock <= now
    requires Consistent(rec) && rec.updatedAt <= now
    ensures TableValid(records[rec.id := rec], nextId, now)
  {
  }

  class Store {
    /** The table, keyed by id. */
    var records: map<nat, Record>
    /** The id AUTOINCREMENT hands out next; never reused. */
    var nextId: nat
    /** The logical clock standing for CURRENT_TIMESTAMP. */
    var clock: nat

    ghost predicate Valid()
      reads this
    {
      TableValid(records, nextId, clock)
    }

    /** An empty table. */
    constructor ()
      ensures Valid() && records == map[] && nextId == 1 && clock == 0
    {
      records := map[];
      nextId := 1;
      clock := 0;
    }

    /** `INSERT INTO temperature_records (personName, temperatureSeries,
        closestToZero)`: a fresh id, and every timestamp set to now. */
    method Insert(personName: string, temperatureSeries: seq<real>, closestToZero: real) returns (rec: Record)
      requires Valid()
      requires |temperatureSeries| > 0 && closestToZero == Selector.ClosestToZero(temperatureSeries)
      modifies this
      ensures Valid()
      ensures nextId == old(nextId) + 1 && clock == old(clock) + 1
      ensures rec == Record(old(nextId), personName, temperatureSeries, closestToZero, clock, clock, clock)
      ensures rec.id !in old(records) && records == old(records)[rec.id := rec]
    {
      clock := clock + 1;
      rec := Record(nextId, personName, temperatureSeries, closestToZero, clock, clock, clock);
      records := records[nextId := rec];
      nextId := nextId + 1;
    }

    /** `DELETE FROM temperature_records`: every row goes, and AUTOINCREMENT
        still never reuses an id. */
    method Clear()
      requires Valid()
      modifies this
      ensures Valid()
      ensures records == map[] && nextId == old(nextId) && clock == old(clock)
    {
      records := map[];
    }

    /** GET /api/temperature-records/:id */
    method Get(id: nat) returns (r: Result<Record, Error>)
      requires Valid()
      ensures id in records <==> r.Success?
      ensures r.Success? ==> r.value == records[id] && r.value.id == id && Consistent(r.value)
      ensures r.Failure? ==> r.error == RecordNotFound
    {
      if id !in records {
        return Failure(RecordNotFound);
      }
      return Success(records[id]);
    }

    /** POST /api/temperature-records: the name first, then the series, then
        its elements; only then one insert with the trimmed name and the
        derived value. */
    method Create(personName: NameArg, temperatureSeries: Arg<Sample>) returns (r: Result<Record, Error>)
      requires Valid()
      modifies this
      ensures Valid()
      ensures r == CreateOutcome(personName, temperatureSeries, old(nextId), old(clock) + 1)
      ensures r.Failure? ==> records == old(records) && nextId == old(nextId) && clock == old(clock)
      ensures r.Success? ==>
                && r.value.id !in old(records)
                && records == old(records)[r.value.id := r.value]
                && nextId == old(nextId) + 1 && clock == old(clock) + 1
    {
      if personName.Absent? || personName.Null? || Trim(personName.text) == [] {
        return Failure(PersonNameRequired);
      }
      if !temperatureSeries.Array? || |temperatureSeries.items| == 0 {
        return Failure(SeriesRequired);
      }
      var valid := ValidateTemperatureSeries(temperatureSeries);
      if valid.Fail? {
        return Failure(valid.error);
      }
      var values := Values(temperatureSeries.items);
      var closest := FindClosestToZero(Array(values));
      Selector.ClosestToZeroUnique(values, closest.value, Selector.ClosestToZero(values));
      var rec := Insert(Trim(personName.text), values, closest.value);
      return Success(rec);
    }

    /** PUT /api/temperature-records/:id: existence first, then the checks
        and the field list of `BuildUpdate`; only when they pass, the one
        write to the row. */
    method Update(id: nat, personName: NameArg, temperatureSeries: Arg<Sample>) returns (r: Result<Record, Error>)
      requires Valid()
      modifies this
      ensures Valid()
      ensures id !in old(records) ==> r == Failure(RecordNotFound)
      ensures id in old(records) ==> r == UpdateOutcome(old(records)[id], personName, temperatureSeries, old(clock) + 1)
      ensures r.Failure? ==> records == old(records) && nextId == old(nextId) && clock == old(clock)
      ensures r.Success? ==>
                records == old(records)[id := r.value] && nextId == old(nextId) && clock == old(clock) + 1
    {
      if id !in records {
        return Failure(RecordNotFound);
      }
      var rec := records[id];
      var now := clock + 1;
      r := BuildUpdate(rec, personName, temperatureSeries, now);
      if r.Success? {
        UpdateKeepsRow(rec, personName, temperatureSeries, now);
        WriteKeepsValid(records, nextId, clock, r.value, now);
        clock := now;
        records := records[id := r.value];
      }
    }

    /** DELETE /api/temperature-records/:id: answers with the row as it was
        before it went. */
    method Delete(id: nat) returns (r: Result<Record, Error>)
      requires Valid()
      modifies this
      ensures Valid()
      ensures id !in old(records) ==> r == Failure(RecordNotFound) && records == old(records)
      ensures id in old(records) ==> r == Success(old(records)[id]) && records == old(records) - {id}
      ensures id !in records && nextId == old(nextId) && clock == old(clock)
    {
      if id !in records {
        return Failure(RecordNotFound);
      }
      var deleted := records[id];
      records := records - {id};
      return Success(deleted);
    }

    /** GET /api/temperature-records/stats/summary: `COUNT(*)` and
        `COUNT(DISTINCT personName)`, zero for an empty table. */
    method Summary() returns (totalRecords: nat, uniquePeopleCount: nat)
      ensures totalRecords == |records| && uniquePeopleCount == |DistinctNames(records)|
      ensures uniquePeopleCount <= totalRecords
      ensures totalRecords == 0 <==> uniquePeopleCount == 0
    {
      totalRecords := |records|;
      uniquePeopleCount := |DistinctNames(records)|;
      DistinctNamesBounded(records);
    }
  }

  /** The validator cases of the unit tests. */
  lemma TestedValidations()
    ensures Validation(Array([Num(37.2), Num(36.8), Num(37.5)])) == Pass
    ensures Validation(Array([Num(0.0), Num(-5.3), Num(100.5)])) == Pass
    ensures Validation(Array([])) == Fail(SeriesMustBeNonEmptyArray)
    ensures Validation(NotArray) == Fail(SeriesMustBeNonEmptyArray)
    ensures Validation(Missing) == Fail(SeriesMustBeNonEmptyArray)
    ensures Validation(Array([Num(37.2), NotNumber, Num(36.8)])) == Fail(InvalidTemperatureAt(1))
    ensures Validation(Array([Num(37.2), NaN, Num(36.8)])) == Fail(InvalidTemperatureAt(1))
  {
  }

  /** The name used by the API tests is not blank. */
  lemma TestUserGiven()
    ensures NameGiven(Text("Test User"))
  {
    TrimEmptyIffBlank("Test User");
    assert !IsWhitespace("Test User"[0]);
  }

  /** The series of the API tests' create request passes validation. */
  lemma TestSeriesValid()
    ensures Validation(Array([Num(36.8), Num(37.1), Num(36.9)])) == Pass
  {
    assert FirstInvalidIndex([Num(36.8), Num(37.1), Num(36.9)]) == None;
  }

  /** The name used by the API tests has no whitespace to trim. */
  lemma TestUserTrimmed()
    ensures Trim("Test User") == "Test User"
  {
    var name := "Test User";
    assert name[0] == 'T' && name[|name| - 1] == 'r';
    TrimKeepsUnpadded(name);
  }

  /** The series of the API tests' create request is read as sent, and
      its sample nearest to zero is 36.8. */
  lemma TestSeriesClosest()
    ensures Values([Num(36.8), Num(37.1), Num(36.9)]) == [36.8, 37.1, 36.9]
    ensures Selector.ClosestToZero([36.8, 37.1, 36.9]) == 36.8
  {
    var created := [36.8, 37.1, 36.9];
    assert Values([Num(36.8), Num(37.1), Num(36.9)]) == created;
    Selector.ClosestToZeroUnique(created, 36.8, Selector.ClosestToZero(created));
  }

  /** A request with a given name and a valid series is stored. */
  lemma CreateStored(personName: NameArg, temperatureSeries: Arg<Sample>, id: nat, now: nat)
    requires NameGiven(personName) && Validation(temperatureSeries) == Pass
    ensures IsNumeric(temperatureSeries.items)
    ensures CreateOutcome(personName, temperatureSeries, id, now)
              == Success(Record(id, Trim(personName.text), Values(temperatureSeries.items),
                                Selector.ClosestToZero(Values(temperatureSeries.items)), now, now, now))
  {
  }

  /** The create request of the API tests stores the record with 36.8 as
      its sample nearest to zero. */
  lemma TestedCreateStored(id: nat, now: nat)
    ensures CreateOutcome(Text("Test User"), Array([Num(36.8), Num(37.1), Num(36.9)]), id, now)
              == Success(Record(id, "Test User", [36.8, 37.1, 36.9], 36.8, now, now, now))
  {
    TestUserGiven();
    TestUserTrimmed();
    TestSeriesValid();
    TestSeriesClosest();
    CreateStored(Text("Test User"), Array([Num(36.8), Num(37.1), Num(36.9)]), id, now);
  }

  /** A create request with an empty name is refused for the name. */
  lemma TestedCreateEmptyName(id: nat, now: nat)
    ensures CreateOutcome(Text(""), Array([]), id, now) == Failure(PersonNameRequired)
  {
  }

  /** A create request without a name is refused for the name. */
  lemma TestedCreateMissingName(id: nat, now: nat)
    ensures CreateOutcome(Absent, Array([Num(36.8), Num(37.1)]), id, now) == Failure(PersonNameRequired)
  {
  }

  /** An update of the series alone, with a valid series, replaces the
      series and its closest-to-zero value and keeps the name. */
  lemma UpdateSeriesOnly(rec: Record, temperatureSeries: Arg<Sample>, now: nat)
    requires Validation(temperatureSeries) == Pass
    ensures IsNumeric(temperatureSeries.items)
    ensures UpdateOutcome(rec, Absent, temperatureSeries, now)
              == Success(rec.(temperatureSeries := Values(temperatureSeries.items),
                              closestToZero := Selector.ClosestToZero(Values(temperatureSeries.items)),
                              updatedAt := now))
  {
  }

  /** The series of the series-only update passes validation, and its
      samples nearest to zero are -2 and 2, of which 2 is kept. */
  lemma UpdateSeriesClosest()
    ensures Validation(Array([Num(10.0), Num(-2.0), Num(2.0)])) == Pass
    ensures Values([Num(10.0), Num(-2.0), Num(2.0)]) == [10.0, -2.0, 2.0]
    ensures Selector.ClosestToZero([10.0, -2.0, 2.0]) == 2.0
  {
    var updated := [10.0, -2.0, 2.0];
    assert FirstInvalidIndex([Num(10.0), Num(-2.0), Num(2.0)]) == None;
    assert Values([Num(10.0), Num(-2.0), Num(2.0)]) == updated;
    Selector.ClosestToZeroUnique(updated, 2.0, Selector.ClosestToZero(updated));
  }

  /** An update of the series alone, whose samples nearest to zero are -2
      and 2, stores 2 and keeps the name. */
  lemma TestedUpdateSeries(rec: Record, now: nat)
    ensures UpdateOutcome(rec, Absent, Array([Num(10.0), Num(-2.0), Num(2.0)]), now)
              == Success(rec.(temperatureSeries := [10.0, -2.0, 2.0], closestToZero := 2.0, updatedAt := now))
  {
    UpdateSeriesClosest();
    UpdateSeriesOnly(rec, Array([Num(10.0), Num(-2.0), Num(2.0)]), now);
  }

  /** An update that supplies no field is refused. */
  lemma TestedUpdateNothing(rec: Record, now: nat)
    ensures UpdateOutcome(rec, Absent, Missing, now) == Failure(NoValidFields)
  {
  }
}
