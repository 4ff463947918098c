/** The measurement scan of `DataManipulator.measurements`: per cell, with a
    `measure` counter restarting at 1, each row is compared with its successor's
    time. The last row and every row whose successor time is NaN are skipped; a
    strict increase keeps the counter (and, when the row's IF is valid, replaces
    the current bucket by that row alone), anything else (including a NaN time
    of the row itself, since Python's `<` with NaN is false) closes the bucket
    with the row and moves the counter on. */
module Measures {
  import opened Values

  /** The loop variables of the scan of one cell: the bucket map and `measure`. */
  datatype MeasureState = MeasureState(buckets: Buckets, measure: int)

  /** Row idx is compared with its successor: it is not the last row and the
      successor's time is not NaN. */
  predicate Examined(c: Cell, idx: nat)
    requires idx < |c.times|
  {
    idx < |c.times| - 1 && c.times[idx + 1].Num?
  }

  /** An examined row whose time is strictly below its successor's. */
  predicate Rises(c: Cell, idx: nat)
    requires idx < |c.times|
  {
    Examined(c, idx) && Less(c.times[idx], c.times[idx + 1])
  }

  /** An examined row that does not rise: the `else` branch. */
  predicate Falls(c: Cell, idx: nat)
    requires idx < |c.times|
  {
    Examined(c, idx) && !Less(c.times[idx], c.times[idx + 1])
  }

  /** One pass of the loop body (src/datamanipulator.py:100-128). */
  function MeasureStep(st: MeasureState, c: Cell, idx: nat): MeasureState
    requires idx < |c.times|
  {
    var k := st.measure;
    var b := Lookup(st.buckets, k);
    var t, f := c.times[idx], c.ifs[idx];
    if !Examined(c, idx) then st
    else if Rises(c, idx) then
      MeasureState(st.buckets[k := if f.Num? then Bucket([t], [f]) else Bucket(b.times + [t], b.ifs)], k)
    else
      MeasureState(st.buckets[k := if f.Num? then Append(b, t, f) else Bucket(b.times + [t], b.ifs)], k + 1)
  }

  /** The state after the first i rows; the counter starts at 1 for every cell. */
  function MeasureRows(c: Cell, i: nat): MeasureState
    requires i <= |c.times|
  {
    if i == 0 then MeasureState(map[], 1) else MeasureStep(MeasureRows(c, i - 1), c, i - 1)
  }

  /** `measure_dict[name]` once the cell has been scanned. */
  function MeasureDict(c: Cell): Buckets
  {
    MeasureRows(c, |c.times|).buckets
  }

  /** Number of falling rows among the first i. */
  function FallCount(c: Cell, i: nat): nat
    requires i <= |c.times|
  {
    if i == 0 then 0 else FallCount(c, i - 1) + (if Falls(c, i - 1) then 1 else 0)
  }

  /** Number of examined rows among the first i. */
  function ExaminedCount(c: Cell, i: nat): (r: nat)
    requires i <= |c.times|
    ensures FallCount(c, i) <= r <= i
    ensures i == |c.times| && i > 0 ==> r < i
  {
    if i == 0 then 0 else ExaminedCount(c, i - 1) + (if Examined(c, i - 1) then 1 else 0)
  }

  /** The counter moves only on a falling row, and the labels in use are 1 up to
      the counter: all below it, and the counter itself once a row rose since. */
  lemma {:induction false} MeasureLabels(c: Cell, i: nat)
    requires i <= |c.times|
    ensures MeasureRows(c, i).measure == 1 + FallCount(c, i)
    ensures forall k :: k in MeasureRows(c, i).buckets ==> 1 <= k <= MeasureRows(c, i).measure
    ensures forall k :: 1 <= k < MeasureRows(c, i).measure ==> k in MeasureRows(c, i).buckets
  {
    if i > 0 {
      MeasureLabels(c, i - 1);
    }
  }

  /** Measure labels are dense: the labels of a cell's measurement map are
      exactly 1..M, where M is the number of falling rows, plus one when a row
      rose after the last fall. So the count loop over range(1, M + 1) finds
      every key. */
  lemma MeasureLabelsDense(c: Cell)
    ensures Dense(MeasureDict(c)) && LabelsDense(MeasureDict(c))
    ensures FallCount(c, |c.times|) <= |MeasureDict(c)| <= FallCount(c, |c.times|) + 1
    ensures |MeasureDict(c)| ==
      FallCount(c, |c.times|) + (if MeasureRows(c, |c.times|).measure in MeasureDict(c) then 1 else 0)
  {
    var st := MeasureRows(c, |c.times|);
    MeasureLabels(c, |c.times|);
    if st.measure in st.buckets {
      RangeKeys(st.buckets, st.measure);
    } else {
      RangeKeys(st.buckets, st.measure - 1);
    }
  }

  /** The shape of a measurement bucket: at least one time, IF entries only
      from valid rows, no more IF entries than times, and at most `most` of them. */
  predicate Shaped(b: Bucket, most: nat)
  {
    && 1 <= |b.times|
    && |b.ifs| <= |b.times|
    && |b.ifs| <= most
    && forall j :: 0 <= j < |b.ifs| ==> b.ifs[j].Num?
  }

  /** A bucket keeps at most two IF values: the last valid rising row (each one
      replaces the bucket) and the valid row that closes it; the open bucket has
      at most one. */
  lemma {:induction false} MeasureBucketShape(c: Cell, i: nat)
    requires i <= |c.times|
    ensures forall k :: k in MeasureRows(c, i).buckets ==>
      Shaped(MeasureRows(c, i).buckets[k], if k == MeasureRows(c, i).measure then 1 else 2)
  {
    if i > 0 {
      MeasureBucketShape(c, i - 1);
      MeasureLabels(c, i - 1);
    }
  }

  /** The IF of a row that is not examined (the last row, or a row followed by a
      NaN time) never reaches a bucket: two cells with the same times that agree
      on the IF of every examined row give the same buckets. */
  lemma {:induction false} MeasureIgnoresUnexamined(c1: Cell, c2: Cell, i: nat)
    requires c1.times == c2.times && i <= |c1.times|
    requires forall idx :: 0 <= idx < |c1.times| && Examined(c1, idx) ==> c1.ifs[idx] == c2.ifs[idx]
    ensures MeasureRows(c1, i) == MeasureRows(c2, i)
  {
    if i > 0 {
      MeasureIgnoresUnexamined(c1, c2, i - 1);
    }
  }

  /** Each examined row adds at most one time entry to the buckets (a valid
      rising row may drop the ones before it), so the buckets hold at most as
      many times as there were examined rows. */
  lemma {:induction false} MeasureSizeBound(c: Cell, i: nat)
    requires i <= |c.times|
    ensures Size(MeasureRows(c, i).buckets, MeasureRows(c, i).measure) <= ExaminedCount(c, i)
  {
    if i == 0 {
      SizeEmpty(1);
    } else {
      MeasureSizeBound(c, i - 1);
      MeasureLabels(c, i - 1);
      MeasureLabels(c, i);
      var st := MeasureRows(c, i - 1);
      var st' := MeasureRows(c, i);
      var k := st.measure;
      if Examined(c, i - 1) {
        SizeUpdate(st.buckets, k, st'.buckets[k], k);
        if Falls(c, i - 1) {
          SizeBeyond(st'.buckets, k, k + 1);
        }
      }
    }
  }

  /** The last row is never recorded: a cell's measurement buckets hold fewer
      time entries than the cell has rows (none for an empty cell). */
  lemma MeasureDropsLastRow(c: Cell)
    ensures KeysWithin(MeasureDict(c), |c.times|)
    ensures Size(MeasureDict(c), |c.times|) <= ExaminedCount(c, |c.times|)
    ensures |c.times| > 0 ==> Size(MeasureDict(c), |c.times|) < |c.times|
  {
    var st := MeasureRows(c, |c.times|);
    MeasureLabels(c, |c.times|);
    MeasureSizeBound(c, |c.times|);
    if |c.times| == 0 {
      SizeEmpty(0);
    } else {
      SizeBeyond(st.buckets, st.measure, |c.times|);
    }
  }

  /** `measure_dict` after the first n cells: each name holds its cell's map. */
  function MeasureDicts(cells: seq<Cell>, n: nat): map<string, Buckets>
    requires n <= |cells|
  {
    if n == 0 then map[] else MeasureDicts(cells, n - 1)[cells[n - 1].name := MeasureDict(cells[n - 1])]
  }

  /** `measure_dict` holds no name but the cells'. */
  lemma {:induction false} MeasureDictsNames(cells: seq<Cell>, n: nat)
    requires n <= |cells|
    ensures forall name :: name in MeasureDicts(cells, n) ==> exists i :: 0 <= i < n && cells[i].name == name
  {
    if n > 0 {
      MeasureDictsNames(cells, n - 1);
      forall name | name in MeasureDicts(cells, n)
        ensures exists i :: 0 <= i < n && cells[i].name == name
      {
        if name == cells[n - 1].name {
          assert cells[n - 1].name == name;
        } else {
          assert name in MeasureDicts(cells, n - 1);
        }
      }
    }
  }

  /** With distinct names, every cell's name is in `measure_dict` and holds the
      map computed from that cell alone. */
  lemma {:induction false} MeasureDictsValues(cells: seq<Cell>, n: nat)
    requires n <= |cells| && DistinctNames(cells)
    ensures forall i {:trigger MeasureDict(cells[i])} :: 0 <= i < n ==>
      cells[i].name in MeasureDicts(cells, n) && MeasureDicts(cells, n)[cells[i].name] == MeasureDict(cells[i])
  {
    if n > 0 {
      MeasureDictsValues(cells, n - 1);
      var prev := MeasureDicts(cells, n - 1);
      var last := cells[n - 1];
      assert MeasureDicts(cells, n) == prev[last.name := MeasureDict(last)];
      forall i | 0 <= i < n - 1
        ensures cells[i].name in MeasureDicts(cells, n) && MeasureDicts(cells, n)[cells[i].name] == MeasureDict(cells[i])
      {
        var m := MeasureDict(cells[i]);
        assert cells[i].name != last.name;
        assert cells[i].name in prev && prev[cells[i].name] == m;
      }
    }
  }
}
