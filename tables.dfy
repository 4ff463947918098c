/** The count tables of `create_spike_frame` and `measurements`: for each cell
    name, the number of time entries under each label, built from a nested dict
    whose rows pandas aligns on the union of labels, padding the gaps with 0. */
module Tables {
  import opened Values

  /** A count table: for each cell name, a count per label. */
  type Table = map<string, map<int, nat>>

  /** `for k in range(1, len(m) + 1): row[f"{k}..."] = len(m[k]["relative firing
      time"])` when no key is missing (Lookup only fills in what cannot happen
      then). */
  function Counts(m: Buckets): map<int, nat>
  {
    map k | 1 <= k <= |m| :: |Lookup(m, k).times|
  }

  /** Every label that occurs in some row of the nested dict. */
  function Columns(n: Table): set<int>
  {
    set name, k | name in n && k in n[name] :: k
  }

  /** `pd.DataFrame(n).transpose().fillna(0)`: one row per name, one column per
      label of any row, and 0 where a row lacks that label. */
  function Pad(n: Table): (r: Table)
    ensures r.Keys == n.Keys
    ensures forall name :: name in r ==> r[name].Keys == Columns(n)
    ensures forall name, k :: name in n && k in n[name] ==> k in r[name] && r[name][k] == n[name][k]
    ensures forall name, k :: name in n && k in Columns(n) && k !in n[name] ==> r[name][k] == 0
  {
    var r := map name | name in n :: map k | k in Columns(n) :: if k in n[name] then n[name][k] else 0;
    assert forall name, k :: name in n && k in n[name] ==> k in Columns(n);
    r
  }

  /** The nested dict of counts for the given names (every one must be in d). */
  function CountRows(d: map<string, Buckets>, names: seq<string>): Table
    requires forall i :: 0 <= i < |names| ==> names[i] in d
  {
    map name | name in names :: Counts(d[name])
  }

  /** Counting one more name adds its row to the nested dict. */
  lemma CountRowsSnoc(d: map<string, Buckets>, names: seq<string>, name: string)
    requires forall i :: 0 <= i < |names| ==> names[i] in d
    requires name in d
    ensures CountRows(d, names + [name]) == CountRows(d, names)[name := Counts(d[name])]
  {
  }

  /** Count tables: when every label 1..|m| is present, the count row reports for
      each label of m exactly the number of its time entries, and nothing else. */
  lemma CountsOfDense(m: Buckets)
    requires LabelsDense(m)
    ensures Counts(m).Keys == m.Keys
    ensures forall k :: k in m ==> Counts(m)[k] == |m[k].times|
  {
    DenseKeys(m);
  }

  /** `create_spike_frame` over the per-cell dictionary d and the cell names in
      column order: KeyError as soon as a cell lacks one of the labels 1..|map|. */
  function CountTableOf(d: map<string, Buckets>, names: seq<string>): Result<Table>
  {
    if forall i :: 0 <= i < |names| ==> names[i] in d && LabelsDense(d[names[i]])
    then Ok(Pad(CountRows(d, names)))
    else KeyError
  }

  /** Count tables: a table built from dense rows has one row per name, the
      same columns in every row, the bucket length of every label the cell has,
      and 0 for every other column. */
  lemma {:induction false} PaddedCounts(d: map<string, Buckets>, names: seq<string>)
    requires forall i :: 0 <= i < |names| ==> names[i] in d && LabelsDense(d[names[i]])
    ensures Pad(CountRows(d, names)).Keys == set i | 0 <= i < |names| :: names[i]
    ensures forall i :: 0 <= i < |names| ==>
      Pad(CountRows(d, names))[names[i]].Keys == Columns(CountRows(d, names))
    ensures forall i, k :: 0 <= i < |names| && k in d[names[i]] ==>
      k in Pad(CountRows(d, names))[names[i]] && Pad(CountRows(d, names))[names[i]][k] == |d[names[i]][k].times|
    ensures forall i, k :: 0 <= i < |names| && k in Columns(CountRows(d, names)) && k !in d[names[i]] ==>
      Pad(CountRows(d, names))[names[i]][k] == 0
  {
    var n := CountRows(d, names);
    assert n.Keys == set i | 0 <= i < |names| :: names[i] by {
      forall name | name in n
        ensures name in set i | 0 <= i < |names| :: names[i]
      {
        var i :| 0 <= i < |names| && names[i] == name;
      }
    }
    forall i | 0 <= i < |names|
      ensures n[names[i]].Keys == d[names[i]].Keys
      ensures forall k :: k in d[names[i]] ==> n[names[i]][k] == |d[names[i]][k].times|
    {
      CountsOfDense(d[names[i]]);
    }
  }

  /** Count consistency of `create_spike_frame`: when it succeeds, the entry of
      cell i under label k is the length of that cell's time list under k, and 0
      for a label only other cells have. */
  lemma CountTableEntries(d: map<string, Buckets>, names: seq<string>)
    requires CountTableOf(d, names).Ok?
    ensures forall i, k :: 0 <= i < |names| && k in d[names[i]] ==>
      k in CountTableOf(d, names).value[names[i]] && CountTableOf(d, names).value[names[i]][k] == |d[names[i]][k].times|
    ensures forall i, k :: 0 <= i < |names| && k in Columns(CountRows(d, names)) && k !in d[names[i]] ==>
      CountTableOf(d, names).value[names[i]][k] == 0
  {
    PaddedCounts(d, names);
  }
}
