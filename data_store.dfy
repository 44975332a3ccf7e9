/** The host's measurement store (class SensorDataStore in
    src/Master/data_store.py): for every sensor name, a list of time stamps
    and a list of values, appended to in step. */
module DataStore {

  /** The inner {"times": [...], "values": [...]} dictionary of one sensor:
      two lists that add appends to in place. */
  class Series {
    var times: seq<string>
    var values: seq<real>

    /** The entry the default factory creates: two empty lists. */
    constructor ()
      ensures times == [] && values == []
    {
      times := [];
      values := [];
    }
  }

  /** The contents of one sensor's entry. */
  datatype Entry = Entry(times: seq<string>, values: seq<real>)

  /** The contents of the whole store. */
  type Table = map<string, Entry>

  /** Every entry has as many values as time stamps. */
  predicate Balanced(t: Table)
  {
    forall s :: s in t ==> |t[s].times| == |t[s].values|
  }

  /** The entry of s, or the empty one the default factory would create. */
  function EntryOf(t: Table, s: string): (r: Entry)
    ensures s in t ==> r == t[s]
    ensures s !in t ==> r == Entry([], [])
  {
    if s in t then t[s] else Entry([], [])
  }

  /** The table after add(sensor, time, value): the sensor's entry (an
      empty one if it had none) gets time and value at its end. */
  function Appended(t: Table, sensor: string, time: string, value: real): (r: Table)
    ensures r.Keys == t.Keys + {sensor}
    ensures sensor in t ==> r[sensor] == Entry(t[sensor].times + [time], t[sensor].values + [value])
    ensures forall s :: s in t && s != sensor ==> r[s] == t[s]
  {
    var e := EntryOf(t, sensor);
    t[sensor := Entry(e.times + [time], e.values + [value])]
  }

  /** A sensor seen for the first time gets the entry [time], [value]. */
  lemma AppendedNew(t: Table, sensor: string, time: string, value: real)
    requires sensor !in t
    ensures Appended(t, sensor, time, value)[sensor] == Entry([time], [value])
  {
  }

  /** add appends exactly one element to each list of the sensor. */
  lemma AppendedGrows(t: Table, sensor: string, time: string, value: real)
    ensures var before := EntryOf(t, sensor);
            var after := Appended(t, sensor, time, value)[sensor];
            |after.times| == |before.times| + 1 && |after.values| == |before.values| + 1
            && after.times[..|before.times|] == before.times
            && after.values[..|before.values|] == before.values
            && after.times[|before.times|] == time && after.values[|before.values|] == value
  {
    var before := EntryOf(t, sensor);
    var after := Appended(t, sensor, time, value)[sensor];
    assert after == Entry(before.times + [time], before.values + [value]);
    assert after.times[..|before.times|] == before.times;
    assert after.values[..|before.values|] == before.values;
  }

  /** add keeps the two lists of every sensor the same length. */
  lemma AppendedBalanced(t: Table, sensor: string, time: string, value: real)
    requires Balanced(t)
    ensures Balanced(Appended(t, sensor, time, value))
  {
  }

  /** One call of add. */
  datatype Sample = Sample(sensor: string, time: string, value: real)

  /** The table after a run of add calls on a new store. */
  function Replay(adds: seq<Sample>): (r: Table)
    decreases |adds|
  {
    if adds == [] then map[]
    else
      var x := adds[|adds| - 1];
      Appended(Replay(adds[..|adds| - 1]), x.sensor, x.time, x.value)
  }

  /** The time stamps added for sensor s, in call order. */
  function TimesOf(adds: seq<Sample>, s: string): (r: seq<string>)
    ensures |r| <= |adds|
    decreases |adds|
  {
    if adds == [] then []
    else
      var x := adds[|adds| - 1];
      TimesOf(adds[..|adds| - 1], s) + if x.sensor == s then [x.time] else []
  }

  /** The values added for sensor s, in call order. */
  function ValuesOf(adds: seq<Sample>, s: string): (r: seq<real>)
    ensures |r| <= |adds|
    decreases |adds|
  {
    if adds == [] then []
    else
      var x := adds[|adds| - 1];
      ValuesOf(adds[..|adds| - 1], s) + if x.sensor == s then [x.value] else []
  }

  /** Some call in adds added to sensor s. */
  predicate AddedTo(adds: seq<Sample>, s: string)
  {
    exists i :: 0 <= i < |adds| && adds[i].sensor == s
  }

  /** A call added to s iff an earlier one did or the last one does. */
  lemma AddedToSnoc(adds: seq<Sample>, s: string)
    requires adds != []
    ensures AddedTo(adds, s) <==> AddedTo(adds[..|adds| - 1], s) || adds[|adds| - 1].sensor == s
  {
    var prefix := adds[..|adds| - 1];
    if AddedTo(adds, s) {
      var i :| 0 <= i < |adds| && adds[i].sensor == s;
      if i < |prefix| {
        assert prefix[i].sensor == s;
      }
    }
    if AddedTo(prefix, s) {
      var i :| 0 <= i < |prefix| && prefix[i].sensor == s;
      assert adds[i].sensor == s;
    }
  }

  /** Replay builds an entry exactly for the sensors that were added to. */
  lemma {:induction false} ReplayKeys(adds: seq<Sample>, s: string)
    ensures s in Replay(adds) <==> AddedTo(adds, s)
    decreases |adds|
  {
    if adds != [] {
      ReplayKeys(adds[..|adds| - 1], s);
      AddedToSnoc(adds, s);
    }
  }

  /** After any run of add calls, each sensor's entry lists that sensor's
      time stamps and values in the order of the calls, none lost and none
      from another sensor. */
  lemma {:induction false} ReplayEntry(adds: seq<Sample>, s: string)
    ensures EntryOf(Replay(adds), s) == Entry(TimesOf(adds, s), ValuesOf(adds, s))
    decreases |adds|
  {
    if adds != [] {
      ReplayEntry(adds[..|adds| - 1], s);
    }
  }

  /** So the two lists of every entry stay the same length. */
  lemma {:induction false} ReplayBalanced(adds: seq<Sample>)
    ensures Balanced(Replay(adds))
  {
    forall s | s in Replay(adds)
      ensures |Replay(adds)[s].times| == |Replay(adds)[s].values|
    {
      ReplayEntry(adds, s);
      TimesValuesSameLength(adds, s);
    }
  }

  /** Every add contributes one time stamp and one value. */
  lemma {:induction false} TimesValuesSameLength(adds: seq<Sample>, s: string)
    ensures |TimesOf(adds, s)| == |ValuesOf(adds, s)|
    decreases |adds|
  {
    if adds != [] {
      TimesValuesSameLength(adds[..|adds| - 1], s);
    }
  }

  /** A second update of the same key overrides the first. */
  lemma UpdateTwice(t: Table, k: string, a: Entry, b: Entry)
    ensures t[k := a][k := b] == t[k := b]
  {
  }

  /** SensorDataStore: the defaultdict of entries. Each sensor name maps
      to its own Series object; dump hands out those same objects. */
  class SensorDataStore {
    var data: map<string, Series>
    ghost var Repr: set<Series>

    /** Every entry is tracked in Repr, no two names share an entry, and
        every entry is balanced. */
    ghost predicate Valid()
      reads this, Repr
    {
      (forall s :: s in data ==> data[s] in Repr)
      && (forall a, b :: a in data && b in data && a != b ==> data[a] != data[b])
      && (forall s :: s in data ==> |data[s].times| == |data[s].values|)
    }

    /** The contents of the store. */
    ghost function Contents(): (r: Table)
      reads this, Repr
      requires Valid()
      ensures r.Keys == data.Keys
    {
      map s | s in data :: Entry(data[s].times, data[s].values)
    }

    /** A new store is empty. */
    constructor ()
      ensures Valid() && Contents() == map[]
    {
      data := map[];
      Repr := {};
    }

    /** add: append time and value to the sensor's lists, creating an empty
        entry first when the sensor is new. Entries already present stay
        the same objects, so an earlier dump sees the new sample too. */
    method Add(sensor: string, time: string, value: real)
      requires Valid()
      modifies this, Repr
      ensures Valid() && Contents() == Appended(old(Contents()), sensor, time, value)
      ensures forall s :: s in old(data) ==> s in data && data[s] == old(data[s])
    {
      ghost var before := Contents();
      var series := Lookup(sensor);
      ghost var e := EntryOf(before, sensor);
      assert series.times == e.times && series.values == e.values;
      AppendTo(series, sensor, time, value);
      UpdateTwice(before, sensor, e, Entry(e.times + [time], e.values + [value]));
    }

    /** self.data[sensor] on the defaultdict: the sensor's entry, inserted
        empty when missing. */
    method Lookup(sensor: string) returns (series: Series)
      requires Valid()
      modifies this
      ensures Valid() && sensor in data && series == data[sensor]
      ensures Repr == old(Repr) + {series} && (series in old(Repr) || fresh(series))
      ensures Contents() == old(Contents())[sensor := EntryOf(old(Contents()), sensor)]
      ensures forall s :: s in old(data) ==> s in data && data[s] == old(data[s])
    {
      if sensor in data {
        series := data[sensor];
      } else {
        series := new Series();
        data := data[sensor := series];
        Repr := Repr + {series};
      }
    }

    /** The two appends to an entry's lists. */
    method AppendTo(series: Series, sensor: string, time: string, value: real)
      requires Valid() && sensor in data && series == data[sensor]
      modifies series
      ensures Valid()
      ensures Contents() == old(Contents())[sensor := Entry(old(series.times) + [time], old(series.values) + [value])]
    {
      series.times := series.times + [time];
      series.values := series.values + [value];
    }

    /** dump: a new dictionary holding the same entries (a shallow copy).
        The store is not changed. */
    method Dump() returns (r: map<string, Series>)
      requires Valid()
      ensures r.Keys == data.Keys
      ensures forall s :: s in r ==> r[s] == data[s]
    {
      r := map s | s in data :: data[s];
    }
  }
}
