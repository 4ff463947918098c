/** The class `DataManipulator` (src/datamanipulator.py): built once from the
    input frame, it fills `dict` (per-cell spike buckets) and `all_in_one_dict`
    (spike buckets of all cells merged), lists the cell names, and answers
    `create_frame`, `measurements` and `create_spike_frame` from them. The
    frame's cells are given in column order; pandas itself is not modelled. */
module Manipulator {
  import opened Values
  import opened Spikes
  import opened Measures
  import opened Frames
  import opened Tables

  /** The first level of the frame's two-level column index: each cell names
      its "relative firing time" column and then its "IF" column. */
  function ColumnLevel0(cells: seq<Cell>): (r: seq<string>)
    ensures |r| == 2 * |cells|
    ensures forall i :: 0 <= i < |cells| ==> r[2 * i] == cells[i].name && r[2 * i + 1] == cells[i].name
  {
    if cells == [] then [] else [cells[0].name, cells[0].name] + ColumnLevel0(cells[1..])
  }

  /** Python's `s[::2]`: the entries at even positions, in order. */
  function EveryOther<T>(s: seq<T>): (r: seq<T>)
    ensures |r| == (|s| + 1) / 2
    ensures forall i :: 0 <= i < |r| ==> r[i] == s[2 * i]
    decreases |s|
  {
    if |s| <= 1 then s else [s[0]] + EveryOther(s[2..])
  }

  /** `[x[0] for x in data.columns][::2]` lists every cell's name once, in
      column order. */
  lemma NamesFromColumns(cells: seq<Cell>)
    ensures EveryOther(ColumnLevel0(cells)) == CellNames(cells)
  {
  }

  /** Measurement labels never miss a key: every cell name is in
      `measure_dict` with labels exactly 1..len(map), so the count loops of
      `measurements` complete on every frame. */
  lemma MeasureTableDefined(cells: seq<Cell>)
    requires DistinctNames(cells)
    ensures forall i :: 0 <= i < |cells| ==>
      CellNames(cells)[i] in MeasureDicts(cells, |cells|) && LabelsDense(MeasureDicts(cells, |cells|)[CellNames(cells)[i]])
    ensures CountTableOf(MeasureDicts(cells, |cells|), CellNames(cells)).Ok?
  {
    MeasureDictsValues(cells, |cells|);
    forall i | 0 <= i < |cells|
      ensures CellNames(cells)[i] in MeasureDicts(cells, |cells|)
      ensures LabelsDense(MeasureDicts(cells, |cells|)[CellNames(cells)[i]])
    {
      MeasureLabelsDense(cells[i]);
    }
  }

  /** Every bucket of the map is paired. */
  ghost predicate AllPaired(m: Buckets)
  {
    forall k :: k in m ==> Paired(m[k])
  }

  /** Buckets stay paired, in the merged map and in every per-cell map. */
  lemma {:induction false} DictsPaired(cells: seq<Cell>)
    requires DistinctNames(cells)
    ensures AllPaired(MergedDict(cells))
    ensures forall name :: name in CellDict(cells) ==> AllPaired(CellDict(cells)[name])
  {
    MergedIsConcatenation(cells);
    CellScanFacts(cells, |cells|);
    forall i | 0 <= i < |cells|
      ensures AllPaired(CellMap(cells, i))
    {
      CellBucketsPaired(cells[i], Entry(cells, i));
    }
    forall k | k in MergedDict(cells)
      ensures Paired(MergedDict(cells)[k])
    {
      assert Lookup(MergedDict(cells), k) == ConcatLabel(cells, k, |cells|);
      ConcatLabelPaired(cells, k, |cells|);
    }
    forall name | name in CellDict(cells)
      ensures AllPaired(CellDict(cells)[name])
    {
      var i :| 0 <= i < |cells| && cells[i].name == name;
      assert CellDict(cells)[cells[i].name] == CellMap(cells, i);
    }
  }

  lemma {:induction false} ConcatLabelPaired(cells: seq<Cell>, k: int, n: nat)
    requires n <= |cells|
    requires forall i :: 0 <= i < n ==> AllPaired(CellMap(cells, i))
    ensures Paired(ConcatLabel(cells, k, n))
  {
    if n > 0 {
      ConcatLabelPaired(cells, k, n - 1);
      assert Paired(Lookup(CellMap(cells, n - 1), k));
    }
  }

  class DataManipulator {
    /** `self.data`: the cells of the input frame, in column order. */
    const data: seq<Cell>
    /** `self.dict`: cell name -> spike label -> bucket. */
    var dict: map<string, Buckets>
    /** `self.all_in_one_dict`: spike label -> bucket, all cells merged. */
    var allInOneDict: Buckets
    /** `self.names`: the cell names in column order. */
    var names: seq<string>

    ghost predicate Valid()
      reads this
    {
      && DistinctNames(data)
      && dict == CellDict(data)
      && allInOneDict == MergedDict(data)
      && names == CellNames(data)
      && AllPaired(allInOneDict)
      && (forall name :: name in dict ==> AllPaired(dict[name]))
    }

    /** `__init__`: both dictionaries start empty and are filled by
        `__create_dict`; then the names are read off the column index. */
    constructor (data: seq<Cell>)
      requires DistinctNames(data)
      ensures Valid() && this.data == data
    {
      this.data := data;
      dict := map[];
      allInOneDict := map[];
      names := [];
      new;
      CreateDict();
      names := EveryOther(ColumnLevel0(data));
      NamesFromColumns(data);
      DictsPaired(data);
    }

    /** `__create_dict`: fills the merged map, then the per-cell maps, each
        from what the field held before. */
    method CreateDict()
      modifies this
      ensures allInOneDict == MergedScan(ScanState(old(allInOneDict), 1), data, |data|).buckets
      ensures dict == CellScan(CellScanState(old(dict), 1), data, |data|).dict
      ensures names == old(names)
    {
      allInOneDict := AllInOneDictCreating(allInOneDict);
      dict := CreateCellDict(dict);
    }

    /** `all_in_one_dict_creating`: scans every cell into the one map `gbz`,
        with a counter set to 1 once, before the loop over cells. */
    method AllInOneDictCreating(gbz: Buckets) returns (r: Buckets)
      ensures r == MergedScan(ScanState(gbz, 1), data, |data|).buckets
    {
      r := gbz;
      var spike := 1;
      for n := 0 to |data|
        invariant ScanState(r, spike) == MergedScan(ScanState(gbz, 1), data, n)
      {
        var cell := data[n];
        for idx := 0 to |cell.ifs|
          invariant ScanState(r, spike) == ScanRows(MergedScan(ScanState(gbz, 1), data, n), cell, idx)
        {
          if cell.ifs[idx].NaN? {
            spike := 1;
          } else {
            if spike !in r {
              r := r[spike := Bucket([], [])];
            }
            r := r[spike := Bucket(r[spike].times + [cell.times[idx]], r[spike].ifs + [cell.ifs[idx]])];
            spike := spike + 1;
          }
        }
      }
    }

    /** `create_cell_dict`: gives every cell a fresh map in `gbz` and scans the
        cell into it, with the counter carried over from the previous cell. */
    method CreateCellDict(gbz: map<string, Buckets>) returns (r: map<string, Buckets>)
      ensures r == CellScan(CellScanState(gbz, 1), data, |data|).dict
    {
      r := gbz;
      var spike := 1;
      for n := 0 to |data|
        invariant CellScanState(r, spike) == CellScan(CellScanState(gbz, 1), data, n)
      {
        var cell := data[n];
        var name := cell.name;
        r := r[name := map[]];
        ghost var before := CellScan(CellScanState(gbz, 1), data, n);
        for idx := 0 to |cell.ifs|
          invariant name in r
          invariant r == before.dict[name := r[name]]
          invariant ScanState(r[name], spike) == ScanRows(ScanState(map[], before.spike), cell, idx)
        {
          if cell.ifs[idx].NaN? {
            spike := 1;
          } else {
            var m := r[name];
            if spike !in m {
              m := m[spike := Bucket([], [])];
            }
            m := m[spike := Bucket(m[spike].times + [cell.times[idx]], m[spike].ifs + [cell.ifs[idx]])];
            r := r[name := m];
            spike := spike + 1;
          }
        }
      }
    }

    /** `create_frame`: the rows of one bucket (from the merged map when
        `doAll`, otherwise from cell `cellName`), sorted in descending order by
        IF when `y`, otherwise by time; KeyError for an absent cell or label. */
    function CreateFrame(cellName: string, spike: int, y: bool, doAll: bool): (r: Result<seq<Row>>)
      reads this
      requires Valid()
      ensures r.Ok? <==> if doAll then spike in allInOneDict else cellName in dict && spike in dict[cellName]
      ensures r.Ok? && doAll ==>
        SortedDesc(r.value, y) && multiset(r.value) == multiset(BucketRows(allInOneDict[spike]))
      ensures r.Ok? && !doAll ==>
        SortedDesc(r.value, y) && multiset(r.value) == multiset(BucketRows(dict[cellName][spike]))
    {
      if doAll then
        if spike in allInOneDict then Ok(SortDesc(BucketRows(allInOneDict[spike]), y)) else KeyError
      else if cellName in dict && spike in dict[cellName] then
        Ok(SortDesc(BucketRows(dict[cellName][spike]), y))
      else
        KeyError
    }

    /** `measurements`: scans every cell into its own measurement map (the
        counter restarting at 1 per cell), then counts the time entries under
        labels 1..len(map) and pads the table with 0. Measure labels are
        always dense, so the KeyError path of the count loop is never taken. */
    method Measurements() returns (table: Table)
      requires Valid()
      ensures forall i :: 0 <= i < |names| ==> names[i] in MeasureDicts(data, |data|)
      ensures table == Pad(CountRows(MeasureDicts(data, |data|), names))
    {
      var measureDict: map<string, Buckets> := map[];
      for n := 0 to |data|
        invariant measureDict == MeasureDicts(data, n)
      {
        var m := ScanMeasures(data[n]);
        measureDict := measureDict[data[n].name := m];
      }
      MeasureTableDefined(data);
      var r := CountTable(measureDict, names);
      table := r.value;
    }

    /** `create_spike_frame`: counts the time entries of every cell under its
        labels 1..len(map), and raises KeyError at the first missing label;
        otherwise pads the table with 0. */
    method CreateSpikeFrame() returns (r: Result<Table>)
      requires Valid()
      ensures r == CountTableOf(dict, names)
    {
      MergedIsConcatenation(data);
      forall i | 0 <= i < |names|
        ensures names[i] in dict
      {
        assert names[i] == data[i].name;
        ghost var cm := CellMap(data, i);
      }
      r := CountTable(dict, names);
    }
  }

  /** The count loops of `measurements` and `create_spike_frame`: for each name
      in order, the lengths of the time lists under labels 1..len(map), KeyError
      at the first label missing, and the padded table otherwise. */
  method CountTable(d: map<string, Buckets>, names: seq<string>) returns (r: Result<Table>)
    requires forall i :: 0 <= i < |names| ==> names[i] in d
    ensures r == CountTableOf(d, names)
  {
    var nDict: Table := map[];
    for n := 0 to |names|
      invariant forall i :: 0 <= i < n ==> LabelsDense(d[names[i]])
      invariant nDict == CountRows(d, names[..n])
    {
      var name := names[n];
      var row, dense := CountLabels(d[name]);
      if !dense {
        return KeyError;
      }
      assert names[..n + 1] == names[..n] + [name];
      CountRowsSnoc(d, names[..n], name);
      nDict := nDict[name := row];
    }
    assert names[..|names|] == names;
    r := Ok(Pad(nDict));
  }

  /** The inner loop of `measurements` over the rows of one cell: its
      measurement map. */
  method ScanMeasures(cell: Cell) returns (m: Buckets)
    ensures m == MeasureDict(cell)
  {
    m := map[];
    var measure := 1;
    for idx := 0 to |cell.times|
      invariant MeasureState(m, measure) == MeasureRows(cell, idx)
    {
      if idx == |cell.times| - 1 {
        continue;
      } else if cell.times[idx + 1].NaN? {
        continue;
      } else if Less(cell.times[idx], cell.times[idx + 1]) {
        if measure !in m {
          m := m[measure := Bucket([], [])];
        }
        if cell.ifs[idx].Num? {
          m := m[measure := Bucket([cell.times[idx]], [cell.ifs[idx]])];
        } else {
          m := m[measure := Bucket(m[measure].times + [cell.times[idx]], m[measure].ifs)];
        }
      } else {
        if measure !in m {
          m := m[measure := Bucket([], [])];
        }
        if cell.ifs[idx].Num? {
          m := m[measure := Bucket(m[measure].times + [cell.times[idx]], m[measure].ifs + [cell.ifs[idx]])];
        } else {
          m := m[measure := Bucket(m[measure].times + [cell.times[idx]], m[measure].ifs)];
        }
        measure := measure + 1;
      }
    }
  }

  /** The count loop shared by `measurements` and `create_spike_frame`:
      `for k in range(1, len(m) + 1)` reads `m[k]`, so it completes exactly when
      every label 1..len(m) is present (`dense`), and then holds the length of
      each label's time list. */
  method CountLabels(m: Buckets) returns (row: map<int, nat>, dense: bool)
    ensures dense <==> LabelsDense(m)
    ensures dense ==> row == Counts(m)
  {
    row := map[];
    for k := 1 to |m| + 1
      invariant forall j :: 1 <= j < k ==> j in m
      invariant row == map j | 1 <= j < k :: |Lookup(m, j).times|
    {
      if k !in m {
        return row, false;
      }
      row := row[k := |m[k].times|];
    }
    return row, true;
  }
}
