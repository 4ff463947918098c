/** The spike segmentation of `DataManipulator`: `all_in_one_dict_creating`
    (one bucket map shared by all cells) and `create_cell_dict` (one bucket map
    per cell). Both scan every cell's rows in column order with a single `spike`
    counter that is set to 1 once, before the loop over cells: a NaN IF resets it
    to 1 and is dropped, any other row is appended to bucket `spike`, which then
    increases by one. The scans are written here as folds over prefixes, so that
    the loops of the class are proved equal to them. */
module Spikes {
  import opened Values

  /** The loop variables of both scans: the bucket map being filled and `spike`. */
  datatype ScanState = ScanState(buckets: Buckets, spike: int)

  /** One pass of the inner loop body (src/datamanipulator.py:26-34 and :42-51). */
  function Step(st: ScanState, t: Val, f: Val): ScanState
  {
    if f.NaN? then ScanState(st.buckets, 1)
    else ScanState(st.buckets[st.spike := Append(Lookup(st.buckets, st.spike), t, f)], st.spike + 1)
  }

  /** The state after the first i rows of cell c. */
  function ScanRows(st: ScanState, c: Cell, i: nat): ScanState
    requires i <= |c.ifs|
  {
    if i == 0 then st else Step(ScanRows(st, c, i - 1), c.times[i - 1], c.ifs[i - 1])
  }

  function ScanCell(st: ScanState, c: Cell): ScanState
  {
    ScanRows(st, c, |c.ifs|)
  }

  /** `all_in_one_dict_creating`: the state after the first n cells, all written
      into one bucket map. */
  function MergedScan(st: ScanState, cells: seq<Cell>, n: nat): ScanState
    requires n <= |cells|
  {
    if n == 0 then st else ScanCell(MergedScan(st, cells, n - 1), cells[n - 1])
  }

  /** The merged map the constructor stores in `all_in_one_dict`. */
  function MergedDict(cells: seq<Cell>): Buckets
  {
    MergedScan(ScanState(map[], 1), cells, |cells|).buckets
  }

  /** The loop variables of `create_cell_dict`: the dictionary of cells and `spike`. */
  datatype CellScanState = CellScanState(dict: map<string, Buckets>, spike: int)

  /** `create_cell_dict`: each cell gets a new bucket map, but the counter is
      the one left by the previous cell. */
  function CellScan(st: CellScanState, cells: seq<Cell>, n: nat): CellScanState
    requires n <= |cells|
  {
    if n == 0 then st
    else
      var prev := CellScan(st, cells, n - 1);
      var s := ScanCell(ScanState(map[], prev.spike), cells[n - 1]);
      CellScanState(prev.dict[cells[n - 1].name := s.buckets], s.spike)
  }

  /** The per-cell dictionary the constructor stores in `dict`. */
  function CellDict(cells: seq<Cell>): map<string, Buckets>
  {
    CellScan(CellScanState(map[], 1), cells, |cells|).dict
  }

  // ---------------------------------------------------------------------------
  // Reference definitions: which row lands in which bucket.
  // ---------------------------------------------------------------------------

  /** The index of the last NaN IF before row j, or -1 when there is none. */
  function LastNaN(ifs: seq<Val>, j: nat): (r: int)
    requires j <= |ifs|
    ensures -1 <= r < j
    ensures r >= 0 ==> ifs[r].NaN?
    ensures forall i :: r < i < j ==> ifs[i].Num?
  {
    if j == 0 then -1 else if ifs[j - 1].NaN? then j - 1 else LastNaN(ifs, j - 1)
  }

  /** The label of row j of a cell that the scan enters with counter c0: c0 plus
      the number of rows before j when no NaN row precedes it; otherwise 1 plus
      the number of rows since the last NaN row. For j == |ifs| it is the value
      of the counter once the cell is done. */
  function Label(ifs: seq<Val>, c0: int, j: nat): int
    requires j <= |ifs|
  {
    var last := LastNaN(ifs, j);
    if last < 0 then c0 + j else j - last
  }

  /** The rows before i with a valid IF and label k, in source order. */
  function Select(c: Cell, c0: int, k: int, i: nat): (b: Bucket)
    requires i <= |c.ifs|
    ensures Paired(b)
    ensures forall j :: 0 <= j < |b.ifs| ==> b.ifs[j].Num?
  {
    if i == 0 then Empty
    else
      var b := Select(c, c0, k, i - 1);
      if c.ifs[i - 1].Num? && Label(c.ifs, c0, i - 1) == k then Append(b, c.times[i - 1], c.ifs[i - 1]) else b
  }

  /** Label rule: scanning a cell from an empty map with counter c0 leaves the
      counter at Label(.., i) and puts under each label k exactly the rows of
      label k, paired and in source order; a label is present iff it got a row. */
  lemma {:induction false} LabelRule(c: Cell, c0: int, i: nat)
    requires i <= |c.ifs|
    ensures ScanRows(ScanState(map[], c0), c, i).spike == Label(c.ifs, c0, i)
    ensures forall k :: Lookup(ScanRows(ScanState(map[], c0), c, i).buckets, k) == Select(c, c0, k, i)
    ensures forall k :: k in ScanRows(ScanState(map[], c0), c, i).buckets <==> Select(c, c0, k, i).times != []
  {
    if i > 0 {
      LabelRule(c, c0, i - 1);
      var prev := ScanRows(ScanState(map[], c0), c, i - 1);
      var cur := ScanRows(ScanState(map[], c0), c, i);
      if c.ifs[i - 1].NaN? {
        assert LastNaN(c.ifs, i) == i - 1;
      } else {
        assert LastNaN(c.ifs, i) == LastNaN(c.ifs, i - 1);
        forall k
          ensures Lookup(cur.buckets, k) == Select(c, c0, k, i)
          ensures k in cur.buckets <==> Select(c, c0, k, i).times != []
        {
          if k == prev.spike {
            assert Lookup(cur.buckets, k) == Append(Lookup(prev.buckets, k), c.times[i - 1], c.ifs[i - 1]);
          }
        }
      }
    }
  }

  /** Buckets stay paired and never hold a NaN IF, in every bucket of a cell scan. */
  lemma CellBucketsPaired(c: Cell, c0: int)
    ensures forall k :: k in ScanCell(ScanState(map[], c0), c).buckets ==>
      var b := ScanCell(ScanState(map[], c0), c).buckets[k];
      Paired(b) && b.times != [] && forall j :: 0 <= j < |b.ifs| ==> b.ifs[j].Num?
  {
    LabelRule(c, c0, |c.ifs|);
  }

  /** Counter carry-over: a cell without a NaN IF hands the next cell the counter
      it received plus its number of rows; a cell ending on a NaN IF hands it 1. */
  lemma CarryOver(c: Cell, c0: int)
    ensures (forall j :: 0 <= j < |c.ifs| ==> c.ifs[j].Num?) ==> ScanCell(ScanState(map[], c0), c).spike == c0 + |c.ifs|
    ensures |c.ifs| > 0 && c.ifs[|c.ifs| - 1].NaN? ==> ScanCell(ScanState(map[], c0), c).spike == 1
  {
    LabelRule(c, c0, |c.ifs|);
  }

  // ---------------------------------------------------------------------------
  // The merged map is the per-cell maps concatenated label by label.
  // ---------------------------------------------------------------------------

  /** Scanning into a non-empty map gives what scanning into an empty map gives,
      laid after the existing buckets label by label; the counter does not
      depend on the map. */
  lemma {:induction false} ScanIntoMap(m: Buckets, s: int, c: Cell, i: nat)
    requires i <= |c.ifs|
    ensures ScanRows(ScanState(m, s), c, i).spike == ScanRows(ScanState(map[], s), c, i).spike
    ensures forall k :: k in ScanRows(ScanState(m, s), c, i).buckets <==>
      k in m || k in ScanRows(ScanState(map[], s), c, i).buckets
    ensures forall k ::
      Lookup(ScanRows(ScanState(m, s), c, i).buckets, k) == Join(Lookup(m, k), Lookup(ScanRows(ScanState(map[], s), c, i).buckets, k))
  {
    if i == 0 {
      forall k
        ensures Lookup(m, k) == Join(Lookup(m, k), Empty)
      {
        assert Lookup(m, k).times + [] == Lookup(m, k).times;
        assert Lookup(m, k).ifs + [] == Lookup(m, k).ifs;
      }
    } else {
      ScanIntoMap(m, s, c, i - 1);
      var into := ScanRows(ScanState(m, s), c, i - 1);
      var alone := ScanRows(ScanState(map[], s), c, i - 1);
      var t, f := c.times[i - 1], c.ifs[i - 1];
      if f.Num? {
        var sp := alone.spike;
        forall k
          ensures Lookup(ScanRows(ScanState(m, s), c, i).buckets, k) == Join(Lookup(m, k), Lookup(ScanRows(ScanState(map[], s), c, i).buckets, k))
        {
          if k == sp {
            var x, y := Lookup(m, k), Lookup(alone.buckets, k);
            assert x.times + y.times + [t] == x.times + (y.times + [t]);
            assert x.ifs + y.ifs + [f] == x.ifs + (y.ifs + [f]);
          }
        }
      }
    }
  }

  /** The counter on entering cell n; both scans agree on it. */
  function Entry(cells: seq<Cell>, n: nat): int
    requires n <= |cells|
  {
    if n == 0 then 1 else ScanCell(ScanState(map[], Entry(cells, n - 1)), cells[n - 1]).spike
  }

  /** The bucket map `create_cell_dict` builds for cell i. */
  function CellMap(cells: seq<Cell>, i: nat): Buckets
    requires i < |cells|
  {
    ScanCell(ScanState(map[], Entry(cells, i)), cells[i]).buckets
  }

  /** The buckets under label k of the first n per-cell maps, concatenated in
      column order. */
  function ConcatLabel(cells: seq<Cell>, k: int, n: nat): Bucket
    requires n <= |cells|
  {
    if n == 0 then Empty else Join(ConcatLabel(cells, k, n - 1), Lookup(CellMap(cells, n - 1), k))
  }

  /** `create_cell_dict` after n cells: the counter is Entry(cells, n), the
      dictionary has exactly the names of those cells, and each name holds its
      cell's map. */
  lemma {:induction false} CellScanFacts(cells: seq<Cell>, n: nat)
    requires n <= |cells| && DistinctNames(cells)
    ensures CellScan(CellScanState(map[], 1), cells, n).spike == Entry(cells, n)
    ensures forall name :: name in CellScan(CellScanState(map[], 1), cells, n).dict ==>
      exists i :: 0 <= i < n && cells[i].name == name
    ensures forall i {:trigger CellMap(cells, i)} :: 0 <= i < n ==>
      && cells[i].name in CellScan(CellScanState(map[], 1), cells, n).dict
      && CellScan(CellScanState(map[], 1), cells, n).dict[cells[i].name] == CellMap(cells, i)
  {
    if n > 0 {
      CellScanFacts(cells, n - 1);
      var prev := CellScan(CellScanState(map[], 1), cells, n - 1);
      var name' := cells[n - 1].name;
      var s := ScanCell(ScanState(map[], prev.spike), cells[n - 1]);
      var d := prev.dict[name' := s.buckets];
      assert CellScan(CellScanState(map[], 1), cells, n) == CellScanState(d, s.spike);
      assert s == ScanCell(ScanState(map[], Entry(cells, n - 1)), cells[n - 1]);
      forall i | 0 <= i < n
        ensures cells[i].name in d && d[cells[i].name] == CellMap(cells, i)
      {
        if i < n - 1 {
          assert cells[i].name != name';
          var m := CellMap(cells, i);
          assert cells[i].name in prev.dict && m == prev.dict[cells[i].name];
        }
      }
      forall name | name in d
        ensures exists i :: 0 <= i < n && cells[i].name == name
      {
        if name == name' {
          assert cells[n - 1].name == name;
        } else {
          assert name in prev.dict;
        }
      }
    }
  }

  /** `all_in_one_dict_creating` after n cells: the counter is Entry(cells, n),
      and under each label is the concatenation of that label's per-cell
      buckets; a label is present iff one of the cells has it. */
  lemma {:induction false} MergedFacts(cells: seq<Cell>, n: nat)
    requires n <= |cells|
    ensures MergedScan(ScanState(map[], 1), cells, n).spike == Entry(cells, n)
    ensures forall k :: Lookup(MergedScan(ScanState(map[], 1), cells, n).buckets, k) == ConcatLabel(cells, k, n)
    ensures forall k :: k in MergedScan(ScanState(map[], 1), cells, n).buckets <==>
      exists i :: 0 <= i < n && k in CellMap(cells, i)
  {
    if n > 0 {
      MergedFacts(cells, n - 1);
      var prev := MergedScan(ScanState(map[], 1), cells, n - 1);
      ScanIntoMap(prev.buckets, prev.spike, cells[n - 1], |cells[n - 1].ifs|);
      var m := MergedScan(ScanState(map[], 1), cells, n).buckets;
      forall k | k in m
        ensures exists i :: 0 <= i < n && k in CellMap(cells, i)
      {
        if k !in prev.buckets {
          assert k in CellMap(cells, n - 1);
        }
      }
    }
  }

  /** Merged map is the concatenation: for every label k, the merged map holds
      the concatenation, in column order, of the per-cell buckets under k, and
      has k iff some cell's map has k. */
  lemma MergedIsConcatenation(cells: seq<Cell>)
    requires DistinctNames(cells)
    ensures forall i {:trigger CellMap(cells, i)} :: 0 <= i < |cells| ==>
      cells[i].name in CellDict(cells) && CellDict(cells)[cells[i].name] == CellMap(cells, i)
    ensures forall k :: Lookup(MergedDict(cells), k) == ConcatLabel(cells, k, |cells|)
    ensures forall k :: k in MergedDict(cells) <==> exists i :: 0 <= i < |cells| && k in CellMap(cells, i)
  {
    MergedFacts(cells, |cells|);
    CellScanFacts(cells, |cells|);
    var d := CellScan(CellScanState(map[], 1), cells, |cells|).dict;
    assert CellDict(cells) == d;
    forall i | 0 <= i < |cells|
      ensures cells[i].name in CellDict(cells) && CellDict(cells)[cells[i].name] == CellMap(cells, i)
    {
      var m := CellMap(cells, i);
      assert cells[i].name in d && d[cells[i].name] == m;
    }
  }

  // ---------------------------------------------------------------------------
  // Rows are conserved.
  // ---------------------------------------------------------------------------

  /** Scanning i rows from counter s >= 1 stores every valid row once, under a
      label below s + i, and drops every NaN row. */
  lemma {:induction false} ScanSize(st: ScanState, c: Cell, i: nat, hi: int)
    requires i <= |c.ifs|
    requires st.spike >= 1 && KeysWithin(st.buckets, hi) && st.spike + i <= hi + 1
    ensures KeysWithin(ScanRows(st, c, i).buckets, hi)
    ensures 1 <= ScanRows(st, c, i).spike <= st.spike + i
    ensures Size(ScanRows(st, c, i).buckets, hi) == Size(st.buckets, hi) + CountValid(c.ifs[..i])
  {
    if i > 0 {
      ScanSize(st, c, i - 1, hi);
      var prev := ScanRows(st, c, i - 1);
      assert c.ifs[..i][..i - 1] == c.ifs[..i - 1];
      if c.ifs[i - 1].Num? {
        SizeUpdate(prev.buckets, prev.spike, Append(Lookup(prev.buckets, prev.spike), c.times[i - 1], c.ifs[i - 1]), hi);
      }
    }
  }

  /** Both scans enter cell n with a counter between 1 and 1 + the rows before it. */
  lemma {:induction false} EntryBound(cells: seq<Cell>, n: nat)
    requires n <= |cells|
    ensures 1 <= Entry(cells, n) <= 1 + Rows(cells, n)
  {
    if n > 0 {
      EntryBound(cells, n - 1);
      ScanSize(ScanState(map[], Entry(cells, n - 1)), cells[n - 1], |cells[n - 1].ifs|, Entry(cells, n - 1) + |cells[n - 1].ifs|);
    }
  }

  /** Rows are conserved per cell: the map of cell i holds, over all its labels
      (all of which lie in 1..Rows(cells, |cells|)), exactly as many rows as the
      cell has valid IF entries. */
  lemma CellRowsConserved(cells: seq<Cell>, i: nat)
    requires i < |cells|
    ensures KeysWithin(CellMap(cells, i), Rows(cells, |cells|))
    ensures Size(CellMap(cells, i), Rows(cells, |cells|)) == CountValid(cells[i].ifs)
  {
    EntryBound(cells, i);
    RowsMonotone(cells, i + 1, |cells|);
    assert cells[i].ifs[..|cells[i].ifs|] == cells[i].ifs;
    SizeEmpty(Rows(cells, |cells|));
    ScanSize(ScanState(map[], Entry(cells, i)), cells[i], |cells[i].ifs|, Rows(cells, |cells|));
  }

  lemma {:induction false} RowsMonotone(cells: seq<Cell>, n: nat, n': nat)
    requires n <= n' <= |cells|
    ensures Rows(cells, n) <= Rows(cells, n')
    decreases n' - n
  {
    if n < n' {
      RowsMonotone(cells, n, n' - 1);
    }
  }

  /** Rows are conserved in the merged map: its labels lie in 1..Rows(cells, n)
      and it holds as many rows as all the cells have valid IF entries. */
  lemma {:induction false} MergedRowsConserved(cells: seq<Cell>, n: nat)
    requires n <= |cells|
    ensures KeysWithin(MergedScan(ScanState(map[], 1), cells, n).buckets, Rows(cells, n))
    ensures MergedScan(ScanState(map[], 1), cells, n).spike <= 1 + Rows(cells, n)
    ensures Size(MergedScan(ScanState(map[], 1), cells, n).buckets, Rows(cells, n)) == ValidRows(cells, n)
  {
    if n > 0 {
      MergedRowsConserved(cells, n - 1);
      var prev := MergedScan(ScanState(map[], 1), cells, n - 1);
      var c := cells[n - 1];
      MergedFacts(cells, n - 1);
      EntryBound(cells, n - 1);
      SizeBeyond(prev.buckets, Rows(cells, n - 1), Rows(cells, n));
      assert c.ifs[..|c.ifs|] == c.ifs;
      ScanSize(prev, c, |c.ifs|, Rows(cells, n));
    }
  }

  // ---------------------------------------------------------------------------
  // Dense labels.
  // ---------------------------------------------------------------------------

  /** A scan started on a map labelled 1..|m| with a counter in 1..|m| + 1 keeps
      both properties. */
  lemma {:induction false} ScanKeepsDense(st: ScanState, c: Cell, i: nat)
    requires i <= |c.ifs|
    requires Dense(st.buckets) && 1 <= st.spike <= |st.buckets| + 1
    ensures Dense(ScanRows(st, c, i).buckets)
    ensures 1 <= ScanRows(st, c, i).spike <= |ScanRows(st, c, i).buckets| + 1
  {
    if i > 0 {
      ScanKeepsDense(st, c, i - 1);
      var prev := ScanRows(st, c, i - 1);
      if c.ifs[i - 1].Num? && prev.spike !in prev.buckets {
        var m := ScanRows(st, c, i).buckets;
        assert prev.spike == |prev.buckets| + 1;
        assert |m| == |prev.buckets| + 1;
      }
    }
  }

  /** Merged labels are dense: the merged map's labels are exactly 1..|map|. */
  lemma {:induction false} MergedDense(cells: seq<Cell>, n: nat)
    requires n <= |cells|
    ensures Dense(MergedScan(ScanState(map[], 1), cells, n).buckets)
    ensures 1 <= MergedScan(ScanState(map[], 1), cells, n).spike <= |MergedScan(ScanState(map[], 1), cells, n).buckets| + 1
  {
    if n > 0 {
      MergedDense(cells, n - 1);
      ScanKeepsDense(MergedScan(ScanState(map[], 1), cells, n - 1), cells[n - 1], |cells[n - 1].ifs|);
    }
  }

  /** A per-cell map is dense when the counter is 1 on entering the cell. */
  lemma CellDenseFromOne(c: Cell)
    ensures Dense(ScanCell(ScanState(map[], 1), c).buckets)
  {
    ScanKeepsDense(ScanState(map[], 1), c, |c.ifs|);
  }

  /** ...and is not when the cell is entered with a counter above 1 and has at
      least one row and no NaN IF: its labels start at the carried counter, so
      label 1 is missing. */
  lemma CellNotDenseAfterCarry(c: Cell, c0: int)
    requires c0 > 1 && |c.ifs| > 0
    requires forall j :: 0 <= j < |c.ifs| ==> c.ifs[j].Num?
    ensures 1 !in ScanCell(ScanState(map[], c0), c).buckets
    ensures !LabelsDense(ScanCell(ScanState(map[], c0), c).buckets)
  {
    var m := ScanCell(ScanState(map[], c0), c).buckets;
    LabelRule(c, c0, |c.ifs|);
    NoResetLabels(c, c0, 1, |c.ifs|);
    assert Label(c.ifs, c0, 0) == c0;
    assert Select(c, c0, c0, |c.ifs|).times != [] by {
      SelectKeeps(c, c0, c0, 1, |c.ifs|);
    }
    assert |m| >= 1;
    assert 1 !in m;
  }

  /** In a cell without NaN IF, row j has label c0 + j, so no label is below c0. */
  lemma {:induction false} NoResetLabels(c: Cell, c0: int, k: int, i: nat)
    requires i <= |c.ifs| && k < c0
    requires forall j :: 0 <= j < |c.ifs| ==> c.ifs[j].Num?
    ensures Select(c, c0, k, i).times == []
  {
    if i > 0 {
      NoResetLabels(c, c0, k, i - 1);
      assert LastNaN(c.ifs, i - 1) == -1;
    }
  }

  /** Select never forgets a row: the rows of label k before i stay there. */
  lemma {:induction false} SelectKeeps(c: Cell, c0: int, k: int, i: nat, i': nat)
    requires i <= i' <= |c.ifs|
    ensures |Select(c, c0, k, i).times| <= |Select(c, c0, k, i').times|
    decreases i' - i
  {
    if i < i' {
      SelectKeeps(c, c0, k, i, i' - 1);
    }
  }
}
