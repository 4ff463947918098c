/** Values shared by the whole model: the float samples pandas holds (which may be
    NaN), the cells of the input frame, the label buckets the scans fill, and the
    bookkeeping functions over bucket maps. */
module Values {

  /** A float cell of the input frame: a real number or NaN. */
  datatype Val = NaN | Num(r: real)

  /** Python's `<` on floats: a comparison with NaN on either side is false. */
  predicate Less(a: Val, b: Val)
  {
    a.Num? && b.Num? && a.r < b.r
  }

  /** One cell of the input frame: the first level of its two columns (the cell's
      name), its "relative firing time" column and its "IF" column. */
  datatype Column = Column(name: string, times: seq<Val>, ifs: seq<Val>)

  /** The two columns of a frame always have the same number of rows. */
  type Cell = c: Column | |c.times| == |c.ifs| witness Column([], [], [])

  /** The column index of a frame names each cell once. */
  predicate DistinctNames(cells: seq<Cell>)
  {
    forall i, j :: 0 <= i < j < |cells| ==> cells[i].name != cells[j].name
  }

  /** The cell names in column order. */
  function CellNames(cells: seq<Cell>): (names: seq<string>)
    ensures |names| == |cells|
    ensures forall i :: 0 <= i < |cells| ==> names[i] == cells[i].name
  {
    seq(|cells|, i requires 0 <= i < |cells| => cells[i].name)
  }

  /** Total number of rows of the first n cells. */
  function Rows(cells: seq<Cell>, n: nat): nat
    requires n <= |cells|
  {
    if n == 0 then 0 else Rows(cells, n - 1) + |cells[n - 1].ifs|
  }

  /** Total number of rows with a valid IF in the first n cells. */
  function ValidRows(cells: seq<Cell>, n: nat): nat
    requires n <= |cells|
  {
    if n == 0 then 0 else ValidRows(cells, n - 1) + CountValid(cells[n - 1].ifs)
  }

  /** The entry `{"relative firing time": [...], "IF": [...]}` stored under one label. */
  datatype Bucket = Bucket(times: seq<Val>, ifs: seq<Val>)

  /** A label ("k.spike", "m.measure") is modelled by its integer k. */
  type Buckets = map<int, Bucket>

  /** A missing key raises KeyError in the source. */
  datatype Result<T> = Ok(value: T) | KeyError

  const Empty: Bucket := Bucket([], [])

  function Lookup(m: Buckets, k: int): Bucket
  {
    if k in m then m[k] else Empty
  }

  /** Two buckets one after the other, list by list. */
  function Join(a: Bucket, b: Bucket): Bucket
  {
    Bucket(a.times + b.times, a.ifs + b.ifs)
  }

  /** The bucket after appending one row to both of its lists. */
  function Append(b: Bucket, t: Val, f: Val): Bucket
  {
    Bucket(b.times + [t], b.ifs + [f])
  }

  /** Both lists of a bucket have the same length. */
  predicate Paired(b: Bucket)
  {
    |b.times| == |b.ifs|
  }

  /** Number of entries of `s` that are not NaN. */
  function CountValid(s: seq<Val>): nat
  {
    if s == [] then 0 else CountValid(s[..|s| - 1]) + (if s[|s| - 1].Num? then 1 else 0)
  }

  /** Every label of `m` lies in 1..hi. */
  ghost predicate KeysWithin(m: Buckets, hi: int)
  {
    forall k :: k in m ==> 1 <= k <= hi
  }

  /** The number of time entries stored under the labels 1..hi. */
  function Size(m: Buckets, hi: int): nat
    decreases hi
  {
    if hi < 1 then 0 else Size(m, hi - 1) + |Lookup(m, hi).times|
  }

  /** The labels of `m` are exactly 1..|m|. */
  ghost predicate Dense(m: Buckets)
  {
    forall k :: k in m <==> 1 <= k <= |m|
  }

  /** What `for k in range(1, len(m) + 1): m[k]` needs: every label 1..|m| is present. */
  predicate LabelsDense(m: Buckets)
  {
    forall k :: 1 <= k <= |m| ==> k in m
  }

  /** The set 1..top has top elements. */
  lemma {:induction false} RangeCard(s: set<int>, top: nat)
    requires forall k :: k in s <==> 1 <= k <= top
    ensures |s| == top
  {
    if top == 0 {
      assert forall k :: k !in s;
      assert s == {};
    } else {
      var s' := s - {top};
      RangeCard(s', top - 1);
      assert s == s' + {top};
    }
  }

  /** A map whose labels are exactly 1..top has top entries. */
  lemma RangeKeys(m: Buckets, top: nat)
    requires forall k :: k in m <==> 1 <= k <= top
    ensures |m| == top && Dense(m) && LabelsDense(m)
  {
    RangeCard(m.Keys, top);
  }

  /** A map whose labels include 1..|m| has no other label. */
  lemma {:induction false} DenseKeys(m: Buckets)
    requires LabelsDense(m)
    ensures Dense(m)
  {
    var r := set k | k in m.Keys && 1 <= k <= |m|;
    RangeCard(r, |m|);
    forall k | k in m
      ensures 1 <= k <= |m|
    {
      if k !in r {
        SubsetCard(r + {k}, m.Keys);
      }
    }
  }

  lemma SubsetCard(a: set<int>, b: set<int>)
    requires a <= b
    ensures |a| <= |b|
  {
    assert b == a + (b - a);
  }

  /** Changing the bucket under one label in 1..hi changes the total by the
      difference of the two bucket lengths. */
  lemma {:induction false} SizeUpdate(m: Buckets, k: int, b: Bucket, hi: int)
    requires 1 <= k
    ensures Size(m[k := b], hi) + (if k <= hi then |Lookup(m, k).times| else 0)
         == Size(m, hi) + (if k <= hi then |b.times| else 0)
    decreases hi
  {
    if hi >= 1 {
      SizeUpdate(m, k, b, hi - 1);
    }
  }

  lemma {:induction false} SizeEmpty(hi: int)
    ensures Size(map[], hi) == 0
    decreases hi
  {
    if hi >= 1 {
      SizeEmpty(hi - 1);
    }
  }

  /** Labels above hi do not count towards Size(m, hi), and none exist beyond lo. */
  lemma {:induction false} SizeBeyond(m: Buckets, lo: int, hi: int)
    requires KeysWithin(m, lo) && lo <= hi
    ensures Size(m, hi) == Size(m, lo)
    decreases hi - lo
  {
    if lo < hi {
      SizeBeyond(m, lo, hi - 1);
      assert hi !in m;
    }
  }
}
