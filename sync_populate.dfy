/**
 * scripts/sync-populate.js: its own copy of the selector and the reset of
 * the table to the built-in sample data (`resetToInitial`).
 */
module SyncPopulate {
  import opened Wrappers
  import Selector
  import App

  /** "No temperatures provided" */
  datatype SelectError = NoTemperatures

  /** `findClosestToZero` of this script: only an empty series is refused.
      A one-sample series gives that sample back. */
  method FindClosestToZero(temperatures: seq<real>) returns (r: Result<real, SelectError>)
    ensures temperatures == [] ==> r == Failure(NoTemperatures)
    ensures temperatures != [] ==> r.Success? && Selector.IsClosestToZero(temperatures, r.value)
    ensures |temperatures| == 1 ==> r == Success(temperatures[0])
  {
    if |temperatures| == 0 {
      return Failure(NoTemperatures);
    }
    var closest := Selector.Scan(temperatures);
    return Success(closest);
  }

  /** `initialSampleData` */
  const InitialSampleData: seq<App.Entry> := [
    App.Entry("John Doe",
      [7.0, -10.0, 13.0, -7.2, 8.0, -12.0, 4.0, -3.7, 3.5, -9.6, 6.5, -1.7, -6.2, 7.0]),
    App.Entry("Jane Smith",
      [15.0, -5.0, 22.0, -3.0, 18.0, -8.0, 12.0, -2.5, 9.0, -4.2, 11.0, -1.8, 14.0, -6.5]),
    App.Entry("Mike Johnson",
      [3.0, -15.0, 8.0, -12.0, 5.0, -9.0, 2.0, -7.8, 4.0, -11.2, 6.0, -5.4, 7.0, -8.9]),
    App.Entry("Sarah Wilson",
      [20.0, -2.0, 25.0, -1.0, 18.0, -3.0, 22.0, -0.5, 19.0, -2.8, 21.0, -1.2, 23.0, -4.1]),
    App.Entry("David Brown",
      [1.0, -20.0, 6.0, -18.0, 3.0, -16.0, 4.0, -14.5, 2.0, -17.2, 5.0, -13.4, 7.0, -15.9])
  ]

  /** `resetToInitial`: empties the table, then inserts every sample in
      order with the closest-to-zero value of its own series. */
  method ResetToInitial(store: App.Store)
    requires store.Valid()
    modifies store
    ensures store.Valid()
    ensures App.Loaded(store.records, old(store.nextId), InitialSampleData)
  {
    store.Clear();
    SamplesNonEmpty();
    InsertAll(store, InitialSampleData);
  }

  /** No sample series is empty, so the selector never throws during a reset. */
  lemma SamplesNonEmpty()
    ensures forall k :: 0 <= k < |InitialSampleData| ==> InitialSampleData[k].temperatureSeries != []
  {
  }

  /** The insertion loop of `resetToInitial`, over samples that all carry a
      non-empty series. */
  method InsertAll(store: App.Store, samples: seq<App.Entry>)
    requires store.Valid() && store.records == map[]
    requires forall k :: 0 <= k < |samples| ==> samples[k].temperatureSeries != []
    modifies store
    ensures store.Valid()
    ensures App.Loaded(store.records, old(store.nextId), samples)
  {
    var i := 0;
    while i < |samples|
      invariant 0 <= i <= |samples|
      invariant store.Valid()
      invariant store.nextId == old(store.nextId) + i
      invariant App.Loaded(store.records, old(store.nextId), samples[..i])
    {
      var record := samples[i];
      var closest := FindClosestToZero(record.temperatureSeries);
      Selector.ClosestToZeroUnique(record.temperatureSeries, closest.value, Selector.ClosestToZero(record.temperatureSeries));
      ghost var before := store.records;
      var inserted := store.Insert(record.personName, record.temperatureSeries, closest.value);
      App.LoadedPush(before, old(store.nextId), samples[..i], record, inserted);
      assert samples[..i + 1] == samples[..i] + [record];
      i := i + 1;
    }
    assert samples[..i] == samples;
  }

  /** The values `resetToInitial` stores for the samples: -1.7 for John Doe,
      -1.8 for Jane Smith, 2 for Mike Johnson, -0.5 for Sarah Wilson and 1
      for David Brown. Stated through `IsClosestToZero`, which by
      `Selector.ClosestToZeroUnique` pins the selected value. */
  lemma InitialSampleClosest()
    ensures Selector.IsClosestToZero(InitialSampleData[0].temperatureSeries, -1.7)
    ensures Selector.IsClosestToZero(InitialSampleData[1].temperatureSeries, -1.8)
    ensures Selector.IsClosestToZero(InitialSampleData[2].temperatureSeries, 2.0)
    ensures Selector.IsClosestToZero(InitialSampleData[3].temperatureSeries, -0.5)
    ensures Selector.IsClosestToZero(InitialSampleData[4].temperatureSeries, 1.0)
  {
    JohnDoeClosest();
    JaneSmithClosest();
    MikeJohnsonClosest();
    SarahWilsonClosest();
    DavidBrownClosest();
  }

  lemma JohnDoeClosest()
    ensures Selector.IsClosestToZero(InitialSampleData[0].temperatureSeries, -1.7)
  {
    Checked(InitialSampleData[0].temperatureSeries, -1.7);
  }

  lemma JaneSmithClosest()
    ensures Selector.IsClosestToZero(InitialSampleData[1].temperatureSeries, -1.8)
  {
    Checked(InitialSampleData[1].temperatureSeries, -1.8);
  }

  lemma MikeJohnsonClosest()
    ensures Selector.IsClosestToZero(InitialSampleData[2].temperatureSeries, 2.0)
  {
    Checked(InitialSampleData[2].temperatureSeries, 2.0);
  }

  lemma SarahWilsonClosest()
    ensures Selector.IsClosestToZero(InitialSampleData[3].temperatureSeries, -0.5)
  {
    Checked(InitialSampleData[3].temperatureSeries, -0.5);
  }

  lemma DavidBrownClosest()
    ensures Selector.IsClosestToZero(InitialSampleData[4].temperatureSeries, 1.0)
  {
    Checked(InitialSampleData[4].temperatureSeries, 1.0);
  }

  /** `c` is the selection from `s` once it beats every position of `s`. */
  lemma Checked(s: seq<real>, c: real)
    requires c in s
    requires forall i :: 0 <= i < |s| ==> Selector.AtLeastAsClose(c, s[i])
    ensures Selector.IsClosestToZero(s, c)
  {
  }
}
