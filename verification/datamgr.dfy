/** The data manager's sensor registry (datamgr.c): a generic list of sensor records
    built from the room/sensor map, a five-slot circular buffer of readings per
    sensor, and the threshold rule on the average of its non-zero slots.
    Temperatures are reals, an idealisation of the source's doubles. */
module DataMgr {
  import opened Base
  import opened Config
  import DpList

  /** The fixed array `double running_avg[RUN_AVG_LENGTH]`. */
  type Slots = s: seq<real> | |s| == RUN_AVG_LENGTH witness [0.0, 0.0, 0.0, 0.0, 0.0]

  const ZERO_SLOTS: Slots := [0.0, 0.0, 0.0, 0.0, 0.0]

  /** One registry element. The map parser never writes `last_modified`, so it is
      None (indeterminate) until the sensor's first reading. */
  datatype SensorRecord = SensorRecord(
    sensorId: U16,
    roomId: U16,
    runningAvg: Slots,
    currentIdx: int,
    lastModified: Option<int>)

  /** One `room_id sensor_id` line of the map file. */
  datatype MapEntry = MapEntry(roomId: U16, sensorId: U16)

  type Registry = DpList.Handle<SensorRecord>

  /** The messages the data manager hands to the log. */
  datatype LogEvent =
    | InvalidSensor(id: U16)
    | TooHot(id: U16, avg: real)
    | TooCold(id: U16, avg: real)

  /** Every record's next-slot index lies in [0, RUN_AVG_LENGTH). */
  ghost predicate WellFormed(reg: Registry)
  {
    reg.Live? ==> forall i :: 0 <= i < |reg.elems| ==> 0 <= reg.elems[i].currentIdx < RUN_AVG_LENGTH
  }

  function NewRecord(e: MapEntry): SensorRecord
  {
    SensorRecord(e.sensorId, e.roomId, ZERO_SLOTS, 0, None)
  }

  function Records(pairs: seq<MapEntry>): (r: seq<SensorRecord>)
    ensures |r| == |pairs|
    ensures forall i :: 0 <= i < |pairs| ==> r[i] == NewRecord(pairs[i])
  {
    seq(|pairs|, i requires 0 <= i < |pairs| => NewRecord(pairs[i]))
  }

  /** The parser's loop: each pair becomes a zeroed record inserted at index 0, so
      the list ends up holding the pairs' records in reverse order, in front of
      whatever it held before. */
  function InsertPairs(list: Registry, pairs: seq<MapEntry>): (r: Registry)
    ensures list.Null? ==> r.Null?
    ensures list.Live? ==> r.Live? && r.elems == Reverse(Records(pairs)) + list.elems
    decreases |pairs|
  {
    if |pairs| == 0 then list
    else
      var front := DpList.InsertAt(list, NewRecord(pairs[0]), 0);
      PushFront(list, NewRecord(pairs[0]));
      ReverseRecords(pairs);
      InsertPairs(front, pairs[1..])
  }

  lemma PushFront(list: Registry, rec: SensorRecord)
    ensures list.Live? ==> DpList.InsertAt(list, rec, 0).elems == [rec] + list.elems
  {
  }

  lemma ReverseRecords(pairs: seq<MapEntry>)
    requires |pairs| > 0
    ensures Reverse(Records(pairs)) == Reverse(Records(pairs[1..])) + [NewRecord(pairs[0])]
  {
    var rs := Records(pairs);
    assert rs[1..] == Records(pairs[1..]);
    assert Reverse(rs) == Reverse(rs[1..]) + [rs[0]];
  }

  /** parse_sensor_map, given the file's pairs (None when the file cannot be
      opened): -1 and the list untouched, or 0 and the list filled. */
  function ParseSensorMap(list: Registry, file: Option<seq<MapEntry>>): (r: (int, Registry))
    ensures file.None? ==> r == (-1, list)
    ensures file.Some? && list.Live? ==>
              && r.0 == 0
              && r.1.Live?
              && |r.1.elems| == |file.value| + |list.elems|
              && forall i :: 0 <= i < |file.value| ==>
                   r.1.elems[i] == NewRecord(file.value[|file.value| - 1 - i])
    ensures WellFormed(list) ==> WellFormed(r.1)
  {
    match file
    case None => (-1, list)
    case Some(pairs) => (0, InsertPairs(list, pairs))
  }

  /** element_compare: the difference of the two sensor ids. */
  function ElementCompare(x: SensorRecord, y: SensorRecord): (r: int)
    ensures r == 0 <==> x.sensorId == y.sensorId
    ensures r < 0 <==> x.sensorId < y.sensorId
  {
    x.sensorId - y.sensorId
  }

  /** The lookup key process_sensor_data builds: only the id is set. */
  function Probe(id: U16): SensorRecord
  {
    SensorRecord(id, 0, ZERO_SLOTS, 0, None)
  }

  /** `k` is the front-most record with sensor id `id`. */
  ghost predicate IsFirstWithId(s: seq<SensorRecord>, id: U16, k: int)
  {
    && 0 <= k < |s|
    && s[k].sensorId == id
    && forall i :: 0 <= i < k ==> s[i].sensorId != id
  }

  ghost predicate Registered(reg: Registry, id: U16)
  {
    reg.Live? && exists i :: 0 <= i < |reg.elems| && reg.elems[i].sensorId == id
  }

  /** The registry lookup: dpl_get_index_of_element with element_compare. */
  function FindSensor(reg: Registry, id: U16): (k: int)
    ensures k == -1 <==> !Registered(reg, id)
    ensures k != -1 ==> IsFirstWithId(reg.elems, id, k)
  {
    var k := DpList.GetIndexOf(reg, Probe(id), ElementCompare);
    assert reg.Live? ==> DpList.IsFirstMatch(reg.elems, Probe(id), ElementCompare, k);
    k
  }

  /** There is only one front-most record with a given id. */
  lemma FirstWithIdUnique(s: seq<SensorRecord>, id: U16, k: int)
    requires IsFirstWithId(s, id, k)
    ensures forall k' :: IsFirstWithId(s, id, k') ==> k' == k
  {
  }

  /** In a list holding the records of `pairs` in reverse, the record of pair `j` is
      the front-most with its id when no later pair repeats that id. */
  lemma ReversedFirst(pairs: seq<MapEntry>, elems: seq<SensorRecord>, j: int)
    requires |elems| == |pairs|
    requires forall i :: 0 <= i < |elems| ==> elems[i] == NewRecord(pairs[|pairs| - 1 - i])
    requires 0 <= j < |pairs|
    requires forall j' :: j < j' < |pairs| ==> pairs[j'].sensorId != pairs[j].sensorId
    ensures IsFirstWithId(elems, pairs[j].sensorId, |pairs| - 1 - j)
  {
    var k := |pairs| - 1 - j;
    assert elems[k] == NewRecord(pairs[j]);
    forall i | 0 <= i < k
      ensures elems[i].sensorId != pairs[j].sensorId
    {
      assert elems[i] == NewRecord(pairs[|pairs| - 1 - i]);
    }
  }

  /** Parsing a map in which a sensor id occurs more than once: lookup finds the
      record of the pair parsed last. */
  lemma LastPairWins(pairs: seq<MapEntry>, j: int)
    requires 0 <= j < |pairs|
    requires forall j' :: j < j' < |pairs| ==> pairs[j'].sensorId != pairs[j].sensorId
    ensures var reg := ParseSensorMap(DpList.Create(), Some(pairs)).1;
            var k := FindSensor(reg, pairs[j].sensorId);
            k == |pairs| - 1 - j && reg.elems[k].roomId == pairs[j].roomId
  {
    var reg := ParseSensorMap(DpList.Create(), Some(pairs)).1;
    var id := pairs[j].sensorId;
    ReversedFirst(pairs, reg.elems, j);
    FirstWithIdUnique(reg.elems, id, |pairs| - 1 - j);
  }

  /** The readings stored in a record's slot, the next-slot index advanced with wrap
      and the timestamp taken; nothing else changes. */
  function Update(rec: SensorRecord, d: Reading): (r: SensorRecord)
    requires 0 <= rec.currentIdx < RUN_AVG_LENGTH
    ensures r.sensorId == rec.sensorId && r.roomId == rec.roomId
    ensures r.runningAvg[rec.currentIdx] == d.value
    ensures forall i :: 0 <= i < RUN_AVG_LENGTH && i != rec.currentIdx ==> r.runningAvg[i] == rec.runningAvg[i]
    ensures 0 <= r.currentIdx < RUN_AVG_LENGTH
    ensures r.currentIdx == if rec.currentIdx == RUN_AVG_LENGTH - 1 then 0 else rec.currentIdx + 1
    ensures r.lastModified == Some(d.ts)
  {
    rec.(runningAvg := rec.runningAvg[rec.currentIdx := d.value],
         currentIdx := (rec.currentIdx + 1) % RUN_AVG_LENGTH,
         lastModified := Some(d.ts))
  }

  /** The slots that hold a non-zero value, in slot order. */
  function NonZero(s: seq<real>): (r: seq<real>)
    ensures |r| <= |s|
    ensures |r| == 0 <==> forall i :: 0 <= i < |s| ==> s[i] == 0.0
    ensures forall i :: 0 <= i < |r| ==> r[i] != 0.0
  {
    if |s| == 0 then []
    else
      var init := NonZero(s[..|s| - 1]);
      if s[|s| - 1] != 0.0 then init + [s[|s| - 1]] else init
  }

  /** Whatever holds of every non-zero slot holds of every value NonZero keeps. */
  lemma {:induction false} NonZeroKeeps(s: seq<real>, P: real -> bool)
    requires forall i :: 0 <= i < |s| && s[i] != 0.0 ==> P(s[i])
    ensures forall i :: 0 <= i < |NonZero(s)| ==> P(NonZero(s)[i])
  {
    if |s| > 0 {
      NonZeroKeeps(s[..|s| - 1], P);
    }
  }

  function Sum(s: seq<real>): real
  {
    if |s| == 0 then 0.0 else Sum(s[..|s| - 1]) + s[|s| - 1]
  }

  lemma DivMul(a: real, n: real)
    requires n > 0.0
    ensures (a / n) * n == a
  {
  }

  /** The average the alert rule uses: the mean of the non-zero slots, or None when
      every slot is zero. */
  function RunningAverage(slots: seq<real>): (r: Option<real>)
    ensures r.None? <==> forall i :: 0 <= i < |slots| ==> slots[i] == 0.0
  {
    var nz := NonZero(slots);
    if |nz| == 0 then None
    else Some(Sum(nz) / (|nz| as real))
  }

  /** The summing loop of check_sensor_limits: the sum and count of the non-zero
      slots. */
  method SumValidReadings(slots: Slots) returns (sum: real, valid: int)
    ensures sum == Sum(NonZero(slots))
    ensures valid == |NonZero(slots)|
  {
    sum := 0.0;
    valid := 0;
    var i := 0;
    while i < RUN_AVG_LENGTH
      invariant 0 <= i <= RUN_AVG_LENGTH
      invariant sum == Sum(NonZero(slots[..i]))
      invariant valid == |NonZero(slots[..i])|
    {
      assert slots[..i + 1][..i] == slots[..i];
      if slots[i] != 0.0 {
        sum := sum + slots[i];
        valid := valid + 1;
      }
      i := i + 1;
    }
    assert slots[..RUN_AVG_LENGTH] == slots;
  }

  /** check_sensor_limits: at most one alert. Too hot when the average exceeds
      SET_MAX_TEMP, too cold when it is below SET_MIN_TEMP, nothing when it lies in
      between or when every slot is zero. */
  function CheckSensorLimits(rec: SensorRecord): (r: seq<LogEvent>)
    ensures |r| <= 1
    ensures RunningAverage(rec.runningAvg).None? ==> r == []
    ensures forall avg :: RunningAverage(rec.runningAvg) == Some(avg) ==>
              && (avg > SET_MAX_TEMP <==> r == [TooHot(rec.sensorId, avg)])
              && (avg < SET_MIN_TEMP <==> r == [TooCold(rec.sensorId, avg)])
              && (SET_MIN_TEMP <= avg <= SET_MAX_TEMP <==> r == [])
  {
    match RunningAverage(rec.runningAvg)
    case None => []
    case Some(avg) =>
      if avg > SET_MAX_TEMP then [TooHot(rec.sensorId, avg)]
      else if avg < SET_MIN_TEMP then [TooCold(rec.sensorId, avg)]
      else []
  }

  lemma {:induction false} SumBounds(s: seq<real>, lo: real, hi: real)
    requires forall i :: 0 <= i < |s| ==> lo <= s[i] <= hi
    ensures lo * (|s| as real) <= Sum(s) <= hi * (|s| as real)
  {
    if |s| > 0 {
      SumBounds(s[..|s| - 1], lo, hi);
    }
  }

  lemma {:induction false} SumAbove(s: seq<real>, lo: real)
    requires |s| > 0
    requires forall i :: 0 <= i < |s| ==> lo < s[i]
    ensures lo * (|s| as real) < Sum(s)
  {
    if |s| > 1 {
      SumAbove(s[..|s| - 1], lo);
    }
  }

  lemma {:induction false} SumBelow(s: seq<real>, hi: real)
    requires |s| > 0
    requires forall i :: 0 <= i < |s| ==> s[i] < hi
    ensures Sum(s) < hi * (|s| as real)
  {
    if |s| > 1 {
      SumBelow(s[..|s| - 1], hi);
    }
  }

  /** A quotient compares with a constant as the dividend compares with the scaled
      constant. */
  lemma DivOrder(a: real, n: real, c: real)
    requires n > 0.0
    ensures c * n <= a ==> c <= a / n
    ensures a <= c * n ==> a / n <= c
    ensures c * n < a ==> c < a / n
    ensures a < c * n ==> a / n < c
  {
    DivMul(a, n);
  }

  /** The mean of values within [lo, hi] lies within [lo, hi]. */
  lemma MeanBetween(s: seq<real>, lo: real, hi: real)
    requires |s| > 0
    requires forall i :: 0 <= i < |s| ==> lo <= s[i] <= hi
    ensures lo <= Sum(s) / (|s| as real) <= hi
  {
    SumBounds(s, lo, hi);
    DivOrder(Sum(s), |s| as real, lo);
    DivOrder(Sum(s), |s| as real, hi);
  }

  lemma MeanAbove(s: seq<real>, lo: real)
    requires |s| > 0
    requires forall i :: 0 <= i < |s| ==> lo < s[i]
    ensures lo < Sum(s) / (|s| as real)
  {
    SumAbove(s, lo);
    DivOrder(Sum(s), |s| as real, lo);
  }

  lemma MeanBelow(s: seq<real>, hi: real)
    requires |s| > 0
    requires forall i :: 0 <= i < |s| ==> s[i] < hi
    ensures Sum(s) / (|s| as real) < hi
  {
    SumBelow(s, hi);
    DivOrder(Sum(s), |s| as real, hi);
  }

  /** The average lies between any bounds on the non-zero slots. */
  lemma AverageWithinBounds(slots: seq<real>, lo: real, hi: real)
    requires forall i :: 0 <= i < |slots| && slots[i] != 0.0 ==> lo <= slots[i] <= hi
    ensures forall avg :: RunningAverage(slots) == Some(avg) ==> lo <= avg <= hi
  {
    var nz := NonZero(slots);
    if |nz| > 0 {
      NonZeroKeeps(slots, x => lo <= x <= hi);
      MeanBetween(nz, lo, hi);
    }
  }

  /** All non-zero slots hotter than SET_MAX_TEMP (and at least one of them): the
      reading is reported too hot. */
  lemma AllHotGivesTooHot(rec: SensorRecord)
    requires exists i :: 0 <= i < RUN_AVG_LENGTH && rec.runningAvg[i] != 0.0
    requires forall i :: 0 <= i < RUN_AVG_LENGTH && rec.runningAvg[i] != 0.0 ==> rec.runningAvg[i] > SET_MAX_TEMP
    ensures |CheckSensorLimits(rec)| == 1 && CheckSensorLimits(rec)[0].TooHot?
  {
    var nz := NonZero(rec.runningAvg);
    NonZeroKeeps(rec.runningAvg, x => x > SET_MAX_TEMP);
    MeanAbove(nz, SET_MAX_TEMP);
  }

  /** All non-zero slots colder than SET_MIN_TEMP (and at least one of them): the
      reading is reported too cold. */
  lemma AllColdGivesTooCold(rec: SensorRecord)
    requires exists i :: 0 <= i < RUN_AVG_LENGTH && rec.runningAvg[i] != 0.0
    requires forall i :: 0 <= i < RUN_AVG_LENGTH && rec.runningAvg[i] != 0.0 ==> rec.runningAvg[i] < SET_MIN_TEMP
    ensures |CheckSensorLimits(rec)| == 1 && CheckSensorLimits(rec)[0].TooCold?
  {
    var nz := NonZero(rec.runningAvg);
    NonZeroKeeps(rec.runningAvg, x => x < SET_MIN_TEMP);
    MeanBelow(nz, SET_MIN_TEMP);
  }

  /** All non-zero slots within the thresholds: no alert. */
  lemma AllWithinGivesNoAlert(rec: SensorRecord)
    requires forall i :: 0 <= i < RUN_AVG_LENGTH && rec.runningAvg[i] != 0.0 ==>
               SET_MIN_TEMP <= rec.runningAvg[i] <= SET_MAX_TEMP
    ensures CheckSensorLimits(rec) == []
  {
    AverageWithinBounds(rec.runningAvg, SET_MIN_TEMP, SET_MAX_TEMP);
  }

  /** The outcome of handling one reading: the registry afterwards and what was
      logged. */
  datatype Processed = Processed(registry: Registry, log: seq<LogEvent>)

  /** process_sensor_data: an unknown id logs "invalid sensor node ID" and changes
      nothing; a known id updates the front-most record with that id in place (the
      list hands out a pointer to its element) and runs the threshold rule on it. */
  function ProcessSensorData(reg: Registry, d: Reading): (out: Processed)
    requires WellFormed(reg)
    ensures WellFormed(out.registry)
    ensures DpList.Size(out.registry) == DpList.Size(reg)
    ensures !Registered(reg, d.id) ==> out == Processed(reg, [InvalidSensor(d.id)])
    ensures forall k :: reg.Live? && IsFirstWithId(reg.elems, d.id, k) ==>
              && out.registry == DpList.Live(reg.elems[k := Update(reg.elems[k], d)])
              && out.log == CheckSensorLimits(Update(reg.elems[k], d))
    ensures |out.log| <= 1
  {
    var idx := FindSensor(reg, d.id);
    if idx == -1 then Processed(reg, [InvalidSensor(d.id)])
    else
      var rec := DpList.GetElementAt(reg, idx).value;
      assert rec == reg.elems[idx];
      FirstWithIdUnique(reg.elems, d.id, idx);
      var updated := Update(rec, d);
      Processed(DpList.Live(reg.elems[idx := updated]), CheckSensorLimits(updated))
  }

  /** The data manager's loop over the readings its stage is handed. */
  function ProcessAll(reg: Registry, ds: seq<Reading>): (out: Processed)
    requires WellFormed(reg)
    ensures WellFormed(out.registry)
    ensures DpList.Size(out.registry) == DpList.Size(reg)
    ensures |out.log| <= |ds|
    decreases |ds|
  {
    if |ds| == 0 then Processed(reg, [])
    else
      var first := ProcessSensorData(reg, ds[0]);
      var rest := ProcessAll(first.registry, ds[1..]);
      Processed(rest.registry, first.log + rest.log)
  }

  /** One more reading runs process_sensor_data on the registry the earlier readings
      left and appends what it logs (at most one message) after their messages. */
  lemma {:induction false} ProcessAllSnoc(reg: Registry, ds: seq<Reading>, d: Reading)
    requires WellFormed(reg)
    ensures var before := ProcessAll(reg, ds);
            var last := ProcessSensorData(before.registry, d);
            && ProcessAll(reg, ds + [d]) == Processed(last.registry, before.log + last.log)
            && |last.log| <= 1
    decreases |ds|
  {
    if |ds| == 0 {
      assert [] + [d] == [d];
      assert [d][1..] == [];
    } else {
      var first := ProcessSensorData(reg, ds[0]);
      assert (ds + [d])[0] == ds[0];
      assert (ds + [d])[1..] == ds[1..] + [d];
      ProcessAllSnoc(first.registry, ds[1..], d);
      var rest := ProcessAll(first.registry, ds[1..]);
      var last := ProcessSensorData(rest.registry, d);
      assert first.log + (rest.log + last.log) == (first.log + rest.log) + last.log;
    }
  }

  lemma NonZeroSnoc(s: seq<real>, v: real)
    ensures NonZero(s + [v]) == if v != 0.0 then NonZero(s) + [v] else NonZero(s)
  {
    assert (s + [v])[..|s|] == s;
  }

  /** A record that has had one non-zero reading averages that reading. */
  lemma FirstSlotOnly(x: real)
    requires x != 0.0
    ensures RunningAverage([x, 0.0, 0.0, 0.0, 0.0]) == Some(x)
  {
    assert [] + [x] == [x];
    NonZeroSnoc([], x);
    assert [x] + [0.0] == [x, 0.0];
    NonZeroSnoc([x], 0.0);
    assert [x, 0.0] + [0.0] == [x, 0.0, 0.0];
    NonZeroSnoc([x, 0.0], 0.0);
    assert [x, 0.0, 0.0] + [0.0] == [x, 0.0, 0.0, 0.0];
    NonZeroSnoc([x, 0.0, 0.0], 0.0);
    assert [x, 0.0, 0.0, 0.0] + [0.0] == [x, 0.0, 0.0, 0.0, 0.0];
    NonZeroSnoc([x, 0.0, 0.0, 0.0], 0.0);
    assert [x][..0] == [];
    assert Sum([x]) == x;
    assert x / 1.0 == x;
  }

  /** The first reading of a sensor whose last map pair is `pairs[j]`: its record
      then holds the value in slot 0 and zeros elsewhere, and the threshold rule runs
      on that record. */
  lemma FirstReadingLog(pairs: seq<MapEntry>, j: int, d: Reading)
    requires 0 <= j < |pairs|
    requires forall j' :: j < j' < |pairs| ==> pairs[j'].sensorId != pairs[j].sensorId
    requires d.id == pairs[j].sensorId
    ensures var reg := ParseSensorMap(DpList.Create(), Some(pairs)).1;
            var u := Update(NewRecord(pairs[j]), d);
            && u.runningAvg == [d.value, 0.0, 0.0, 0.0, 0.0]
            && ProcessSensorData(reg, d).log == CheckSensorLimits(u)
  {
    var reg := ParseSensorMap(DpList.Create(), Some(pairs)).1;
    var k := |pairs| - 1 - j;
    ReversedFirst(pairs, reg.elems, j);
    assert reg.elems[k] == NewRecord(pairs[j]);
    var u := Update(NewRecord(pairs[j]), d);
    assert u.runningAvg == [d.value, 0.0, 0.0, 0.0, 0.0];
  }

  /** Every mapped sensor whose first reading is hotter than SET_MAX_TEMP is
      reported too hot at once, with that reading as its average. */
  lemma HotOnFirstReading(pairs: seq<MapEntry>, j: int, v: real, ts: int)
    requires 0 <= j < |pairs|
    requires forall j' :: j < j' < |pairs| ==> pairs[j'].sensorId != pairs[j].sensorId
    requires v > SET_MAX_TEMP
    ensures var reg := ParseSensorMap(DpList.Create(), Some(pairs)).1;
            ProcessSensorData(reg, Reading(pairs[j].sensorId, v, ts)).log == [TooHot(pairs[j].sensorId, v)]
  {
    FirstReadingLog(pairs, j, Reading(pairs[j].sensorId, v, ts));
    FirstSlotOnly(v);
  }

  /** Every mapped sensor whose first reading is non-zero and colder than
      SET_MIN_TEMP is reported too cold at once. */
  lemma ColdOnFirstReading(pairs: seq<MapEntry>, j: int, v: real, ts: int)
    requires 0 <= j < |pairs|
    requires forall j' :: j < j' < |pairs| ==> pairs[j'].sensorId != pairs[j].sensorId
    requires v < SET_MIN_TEMP && v != 0.0
    ensures var reg := ParseSensorMap(DpList.Create(), Some(pairs)).1;
            ProcessSensorData(reg, Reading(pairs[j].sensorId, v, ts)).log == [TooCold(pairs[j].sensorId, v)]
  {
    FirstReadingLog(pairs, j, Reading(pairs[j].sensorId, v, ts));
    FirstSlotOnly(v);
  }

  /** A first reading of exactly 0.0 degrees raises no alert, however cold: a zero
      slot counts as unwritten. */
  lemma ZeroFirstReadingIgnored(pairs: seq<MapEntry>, j: int, ts: int)
    requires 0 <= j < |pairs|
    requires forall j' :: j < j' < |pairs| ==> pairs[j'].sensorId != pairs[j].sensorId
    ensures var reg := ParseSensorMap(DpList.Create(), Some(pairs)).1;
            ProcessSensorData(reg, Reading(pairs[j].sensorId, 0.0, ts)).log == []
  {
    FirstReadingLog(pairs, j, Reading(pairs[j].sensorId, 0.0, ts));
    AllZeroNoAverage();
  }

  lemma AllZeroNoAverage()
    ensures RunningAverage(ZERO_SLOTS) == None
  {
    assert forall i :: 0 <= i < |ZERO_SLOTS| ==> ZERO_SLOTS[i] == 0.0;
  }

  /** A fresh sensor fed 25 degrees is reported too hot from its first reading. */
  lemma HotFromFirstReading()
    ensures var reg := ParseSensorMap(DpList.Create(), Some([MapEntry(1, 15)])).1;
            var p := ProcessSensorData(reg, Reading(15, 25.0, 1));
            p.log == [TooHot(15, 25.0)]
  {
    HotOnFirstReading([MapEntry(1, 15)], 0, 25.0, 1);
  }

  /** A reading from a sensor missing from the map is logged as invalid and leaves the
      number of sensors unchanged. */
  lemma UnknownSensorChangesNothing(pairs: seq<MapEntry>, d: Reading)
    requires forall i :: 0 <= i < |pairs| ==> pairs[i].sensorId != d.id
    ensures var reg := ParseSensorMap(DpList.Create(), Some(pairs)).1;
            var p := ProcessSensorData(reg, d);
            && p.log == [InvalidSensor(d.id)]
            && p.registry == reg
            && DpList.Size(p.registry) == |pairs|
  {
    var reg := ParseSensorMap(DpList.Create(), Some(pairs)).1;
    AbsentFromReversed(pairs, reg.elems, d.id);
  }

  lemma AbsentFromReversed(pairs: seq<MapEntry>, elems: seq<SensorRecord>, id: U16)
    requires |elems| == |pairs|
    requires forall i :: 0 <= i < |elems| ==> elems[i] == NewRecord(pairs[|pairs| - 1 - i])
    requires forall i :: 0 <= i < |pairs| ==> pairs[i].sensorId != id
    ensures forall i :: 0 <= i < |elems| ==> elems[i].sensorId != id
  {
    forall i | 0 <= i < |elems|
      ensures elems[i].sensorId != id
    {
      assert elems[i] == NewRecord(pairs[|pairs| - 1 - i]);
    }
  }
}
