/** The frame `create_frame` returns: the rows of one bucket, sorted in
    descending order by time or by IF. pandas' `sort_values` places NaN keys
    last even when sorting in descending order, and its default sort is not
    stable, so only the order of the keys is promised, not the order of ties. */
module Frames {
  import opened Values

  /** One row of the frame: (relative firing time, IF). */
  datatype Row = Row(time: Val, freq: Val)

  /** The sort key: the IF column when `byIF`, otherwise the time column. */
  function Key(r: Row, byIF: bool): Val
  {
    if byIF then r.freq else r.time
  }

  /** `a` may stand before `b` in a descending sort with NaN last. */
  predicate Precedes(a: Val, b: Val)
  {
    b.NaN? || (a.Num? && a.r >= b.r)
  }

  /** Non-increasing by key, NaN keys at the end. */
  predicate SortedDesc(s: seq<Row>, byIF: bool)
  {
    forall i, j :: 0 <= i < j < |s| ==> Precedes(Key(s[i], byIF), Key(s[j], byIF))
  }

  /** The rows of a bucket, position j of both lists making row j. */
  function BucketRows(b: Bucket): (s: seq<Row>)
    requires Paired(b)
    ensures |s| == |b.times|
    ensures forall j :: 0 <= j < |s| ==> s[j] == Row(b.times[j], b.ifs[j])
  {
    seq(|b.times|, j requires 0 <= j < |b.times| => Row(b.times[j], b.ifs[j]))
  }

  /** Puts x into a sorted sequence, before the first row it may precede. */
  function Insert(x: Row, s: seq<Row>, byIF: bool): (r: seq<Row>)
    requires SortedDesc(s, byIF)
    ensures SortedDesc(r, byIF)
    ensures multiset(r) == multiset(s) + multiset{x}
  {
    if s == [] then [x]
    else if Precedes(Key(x, byIF), Key(s[0], byIF)) then
      assert forall j :: 0 <= j < |s| ==> Precedes(Key(x, byIF), Key(s[j], byIF));
      [x] + s
    else
      var rest := Insert(x, s[1..], byIF);
      assert s == [s[0]] + s[1..];
      assert forall j :: 0 <= j < |rest| ==> Precedes(Key(s[0], byIF), Key(rest[j], byIF)) by {
        forall j | 0 <= j < |rest|
          ensures Precedes(Key(s[0], byIF), Key(rest[j], byIF))
        {
          assert rest[j] in multiset(rest);
          if rest[j] != x {
            assert rest[j] in multiset(s[1..]);
            var m :| 0 <= m < |s[1..]| && s[1..][m] == rest[j];
            assert s[m + 1] == rest[j];
          }
        }
      }
      [s[0]] + rest
  }

  /** The rows of s sorted in descending order by key, NaN keys last. */
  function SortDesc(s: seq<Row>, byIF: bool): (r: seq<Row>)
    ensures SortedDesc(r, byIF)
    ensures multiset(r) == multiset(s)
  {
    if s == [] then []
    else
      assert s == s[..|s| - 1] + [s[|s| - 1]];
      Insert(s[|s| - 1], SortDesc(s[..|s| - 1], byIF), byIF)
  }
}
