/** The spike counter of `create_cell_dict` is not reset between cells. A cell
    that ends without a NaN IF (in a frame padded with NaN, one of the longest
    cells) hands its counter to the next cell, whose labels then start above 1;
    `create_spike_frame`, which reads labels 1..len(map) of every cell, then
    raises KeyError. A per-cell counter, which the `range(1, len+1)` loop of
    `create_spike_frame` presumes, restarts at 1, and with it every cell's
    labels are dense. */
module CounterCarry {
  import opened Values
  import opened Spikes
  import opened Tables

  /** As written: a first cell with rows and no NaN IF followed by a second one
      of the same kind (two full-length cells, say) makes `create_spike_frame`
      fail. */
  lemma CarriedCounterBreaksSpikeFrame(cells: seq<Cell>)
    requires DistinctNames(cells) && |cells| >= 2
    requires |cells[0].ifs| > 0 && forall j :: 0 <= j < |cells[0].ifs| ==> cells[0].ifs[j].Num?
    requires |cells[1].ifs| > 0 && forall j :: 0 <= j < |cells[1].ifs| ==> cells[1].ifs[j].Num?
    ensures cells[1].name in CellDict(cells) && 1 !in CellDict(cells)[cells[1].name]
    ensures CountTableOf(CellDict(cells), CellNames(cells)) == KeyError
  {
    CellScanFacts(cells, |cells|);
    CarryOver(cells[0], 1);
    assert Entry(cells, 1) == 1 + |cells[0].ifs|;
    var m := CellMap(cells, 1);
    CellNotDenseAfterCarry(cells[1], Entry(cells, 1));
    LabelRule(cells[1], Entry(cells, 1), |cells[1].ifs|);
    NoResetLabels(cells[1], Entry(cells, 1), 1, |cells[1].ifs|);
    assert CellNames(cells)[1] == cells[1].name;
  }

  /** The smallest such frame: two cells "A" and "B" of one valid row each. */
  lemma TwoFullCells()
    ensures var cells: seq<Cell> := [Column("A", [Num(0.0)], [Num(1.0)]), Column("B", [Num(0.0)], [Num(1.0)])];
      && CellDict(cells)["B"].Keys == {2}
      && CountTableOf(CellDict(cells), CellNames(cells)) == KeyError
      && 2 in MergedDict(cells)
  {
    var cells: seq<Cell> := [Column("A", [Num(0.0)], [Num(1.0)]), Column("B", [Num(0.0)], [Num(1.0)])];
    CarriedCounterBreaksSpikeFrame(cells);
    CellScanFacts(cells, 2);
    assert Entry(cells, 1) == 2 by {
      assert ScanRows(ScanState(map[], 1), cells[0], 1).spike == 2;
    }
    assert CellMap(cells, 1) == map[2 := Bucket([Num(0.0)], [Num(1.0)])] by {
      var row := Bucket([Num(0.0)], [Num(1.0)]);
      assert Append(Empty, Num(0.0), Num(1.0)) == row by {
        assert [] + [Num(0.0)] == [Num(0.0)] && [] + [Num(1.0)] == [Num(1.0)];
      }
      assert ScanRows(ScanState(map[], 2), cells[1], 1).buckets == map[][2 := row];
    }
    assert cells[1].name == "B";
    MergedIsConcatenation(cells);
    assert 2 in CellMap(cells, 1);
  }

  /** Corrected: the per-cell dictionary with the counter restarting at 1 for
      every cell. */
  function ResetCellDict(cells: seq<Cell>, n: nat): map<string, Buckets>
    requires n <= |cells|
  {
    if n == 0 then map[]
    else ResetCellDict(cells, n - 1)[cells[n - 1].name := ScanCell(ScanState(map[], 1), cells[n - 1]).buckets]
  }

  /** With the reset, every cell name is present and every cell's labels are
      1..len(map), so `create_spike_frame` succeeds on every frame. */
  lemma {:induction false} ResetCellDictDense(cells: seq<Cell>, n: nat)
    requires n <= |cells|
    ensures forall i :: 0 <= i < n ==> cells[i].name in ResetCellDict(cells, n)
    ensures forall name :: name in ResetCellDict(cells, n) ==> Dense(ResetCellDict(cells, n)[name])
  {
    if n > 0 {
      ResetCellDictDense(cells, n - 1);
      CellDenseFromOne(cells[n - 1]);
    }
  }

  lemma ResetSpikeFrameSucceeds(cells: seq<Cell>)
    ensures CountTableOf(ResetCellDict(cells, |cells|), CellNames(cells)).Ok?
  {
    ResetCellDictDense(cells, |cells|);
  }

  /** The reset changes nothing when every cell ends with a NaN IF (every cell
      shorter than the longest, in a padded frame): the source's dictionary is
      then the corrected one. */
  lemma {:induction false} ResetAgreesAfterNaN(cells: seq<Cell>, n: nat)
    requires n <= |cells|
    requires forall i :: 0 <= i < |cells| ==> |cells[i].ifs| > 0 && cells[i].ifs[|cells[i].ifs| - 1].NaN?
    ensures CellScan(CellScanState(map[], 1), cells, n) == CellScanState(ResetCellDict(cells, n), 1)
  {
    if n > 0 {
      ResetAgreesAfterNaN(cells, n - 1);
      CarryOver(cells[n - 1], 1);
    }
  }
}
