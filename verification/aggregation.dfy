/**
 * The table handling of `csv_to_xr`: positional binding of columns, the
 * group-by-mean over (time, height) pairs and the pivot of every statistic
 * into a time x height grid.
 */
module Aggregation {
  import opened Wrappers
  import opened Unique
  import Registry

  /** A table as the CSV reader delivers it: `width` columns per row. */
  datatype Frame = Frame(width: nat, rows: seq<seq<real>>)

  /** Every row has exactly `width` cells. */
  predicate Rectangular(f: Frame) {
    forall i :: 0 <= i < |f.rows| ==> |f.rows[i]| == f.width
  }

  /** One row once its columns are labelled: the first column is the time, the
      second the height, the rest are the statistics in registry order. */
  datatype Record = Record(time: real, height: real, values: seq<real>)

  /** A (time, height) pair: the key rows are grouped by. */
  type Key = (real, real)

  /** A pivoted statistic: rows follow the time axis, columns the height axis;
      `None` is a cell no input row provides (a NaN in the source). */
  type Grid = seq<seq<Option<real>>>

  /** All statistics of one conversion, sharing one time axis and one height axis. */
  datatype Table = Table(times: seq<real>, heights: seq<real>, data: map<string, Grid>)

  /** `g` has `rows` rows of `cols` cells each. */
  predicate HasShape(g: Grid, rows: nat, cols: nat) {
    |g| == rows && forall i :: 0 <= i < rows ==> |g[i]| == cols
  }

  /** Every grid has one row per time and one column per height. */
  predicate WellShaped(t: Table) {
    forall n :: n in t.data ==> HasShape(t.data[n], |t.times|, |t.heights|)
  }

  /**
   * Binds `values[i]` to `names[i]`, as assigning column labels to a frame
   * does; when a name repeats, the later position wins, as in a Python dict.
   */
  function Label<T>(names: seq<string>, values: seq<T>): (m: map<string, T>)
    requires |names| == |values|
    ensures forall n :: n in m <==> n in names
    ensures forall n :: n in m ==> m[n] in values
    ensures forall i :: 0 <= i < |names| && names[i] !in names[i + 1..] ==> m[names[i]] == values[i]
    decreases |names|
  {
    if |names| == 0 then map[]
    else
      var rest := Label(names[1..], values[1..]);
      LabelCons(names, values, rest);
      map[names[0] := values[0]] + rest
  }

  /**
   * One step of `Label`: binding the first name in front of the bindings of
   * the others keeps every name, takes every value from `values`, and lets
   * any repeat of the first name win over it.
   */
  lemma LabelCons<T>(names: seq<string>, values: seq<T>, rest: map<string, T>)
    requires |names| == |values| > 0
    requires forall n :: n in rest <==> n in names[1..]
    requires forall n :: n in rest ==> rest[n] in values[1..]
    requires forall i :: 0 <= i < |names| - 1 && names[1..][i] !in names[1..][i + 1..] ==>
               rest[names[1..][i]] == values[1..][i]
    ensures var m := map[names[0] := values[0]] + rest;
            (forall n :: n in m <==> n in names) &&
            (forall n :: n in m ==> m[n] in values) &&
            forall i :: 0 <= i < |names| && names[i] !in names[i + 1..] ==> m[names[i]] == values[i]
  {
    var m := map[names[0] := values[0]] + rest;
    assert forall n :: n in names <==> n == names[0] || n in names[1..];
    assert forall x :: x in values[1..] ==> x in values;
    forall i | 0 <= i < |names| && names[i] !in names[i + 1..] ensures names[i] in m && m[names[i]] == values[i] {
      if i > 0 {
        assert names[1..][i - 1] == names[i] && values[1..][i - 1] == values[i];
        assert names[1..][i..] == names[i + 1..];
        assert names[1..][i - 1] !in names[1..][i - 1 + 1..];
      }
    }
  }

  /** Splits every row of a frame into time, height and statistic values. */
  function Bind(f: Frame): (recs: seq<Record>)
    requires f.width >= 2 && Rectangular(f)
    ensures |recs| == |f.rows|
    ensures forall r :: r in recs ==> |r.values| == f.width - 2
    ensures forall i :: 0 <= i < |recs| ==> recs[i].time == f.rows[i][0] && recs[i].height == f.rows[i][1]
    ensures forall i, v :: 0 <= i < |recs| && 0 <= v < f.width - 2 ==> recs[i].values[v] == f.rows[i][v + 2]
  {
    seq(|f.rows|, i requires 0 <= i < |f.rows| =>
      Record(f.rows[i][0], f.rows[i][1], f.rows[i][2..]))
  }

  /** Every record carries `n` statistic values. */
  predicate Uniform(recs: seq<Record>, n: nat) {
    forall r :: r in recs ==> |r.values| == n
  }

  function KeyOf(r: Record): Key {
    (r.time, r.height)
  }

  /** The (time, height) pairs that occur in the table. */
  function Keys(recs: seq<Record>): set<Key> {
    set r | r in recs :: KeyOf(r)
  }

  function Times(recs: seq<Record>): seq<real> {
    seq(|recs|, i requires 0 <= i < |recs| => recs[i].time)
  }

  function Heights(recs: seq<Record>): seq<real> {
    seq(|recs|, i requires 0 <= i < |recs| => recs[i].height)
  }

  /** The records whose (time, height) pair is exactly `k`, in table order. */
  function Group(recs: seq<Record>, k: Key): (g: seq<Record>)
    ensures forall r :: r in g <==> r in recs && KeyOf(r) == k
    ensures |g| > 0 <==> k in Keys(recs)
    ensures forall r :: multiset(g)[r] == if KeyOf(r) == k then multiset(recs)[r] else 0
    decreases |recs|
  {
    if |recs| == 0 then []
    else
      var last := recs[|recs| - 1];
      assert recs == recs[..|recs| - 1] + [last];
      assert multiset(recs) == multiset(recs[..|recs| - 1]) + multiset([last]);
      Group(recs[..|recs| - 1], k) + (if KeyOf(last) == k then [last] else [])
  }

  /** Sum of statistic `v` over the records of `g`. */
  function Sum(g: seq<Record>, v: nat): real
    requires forall r :: r in g ==> v < |r.values|
    decreases |g|
  {
    if |g| == 0 then 0.0
    else Sum(g[..|g| - 1], v) + g[|g| - 1].values[v]
  }

  /** Arithmetic mean of statistic `v` over a non-empty group. */
  function Mean(g: seq<Record>, v: nat): real
    requires |g| > 0
    requires forall r :: r in g ==> v < |r.values|
  {
    Sum(g, v) / (|g| as real)
  }

  lemma {:induction false} SumOfConstant(g: seq<Record>, v: nat, c: real)
    requires forall r :: r in g ==> v < |r.values| && r.values[v] == c
    ensures Sum(g, v) == (|g| as real) * c
    decreases |g|
  {
    if |g| > 0 {
      SumOfConstant(g[..|g| - 1], v, c);
    }
  }

  /** A group whose rows all agree on a statistic averages to that value. */
  lemma MeanOfConstant(g: seq<Record>, v: nat, c: real)
    requires |g| > 0
    requires forall r :: r in g ==> v < |r.values| && r.values[v] == c
    ensures Mean(g, v) == c
  {
    SumOfConstant(g, v, c);
  }

  /** `x` added up `n` times. */
  function Copies(n: nat, x: real): real {
    if n == 0 then 0.0 else Copies(n - 1, x) + x
  }

  /** Adding `x` up `n` times is multiplying it by `n`. */
  lemma {:induction false} CopiesIsProduct(n: nat, x: real)
    ensures Copies(n, x) == (n as real) * x
  {
    if n > 0 {
      CopiesIsProduct(n - 1, x);
      assert (n as real) * x == ((n - 1) as real) * x + x;
    }
  }

  /** A sum of values no smaller than `lo` is at least `lo` added up `|g|` times. */
  lemma {:induction false} SumAtLeast(g: seq<Record>, v: nat, lo: real)
    requires forall r :: r in g ==> v < |r.values| && lo <= r.values[v]
    ensures Copies(|g|, lo) <= Sum(g, v)
    decreases |g|
  {
    if |g| > 0 {
      var n := |g| - 1;
      assert forall r :: r in g[..n] ==> r in g;
      SumAtLeast(g[..n], v, lo);
      assert g[n] in g;
    }
  }

  /** A sum of values no larger than `hi` is at most `hi` added up `|g|` times. */
  lemma {:induction false} SumAtMost(g: seq<Record>, v: nat, hi: real)
    requires forall r :: r in g ==> v < |r.values| && r.values[v] <= hi
    ensures Sum(g, v) <= Copies(|g|, hi)
    decreases |g|
  {
    if |g| > 0 {
      var n := |g| - 1;
      assert forall r :: r in g[..n] ==> r in g;
      SumAtMost(g[..n], v, hi);
      assert g[n] in g;
    }
  }

  /** Dividing by a positive count keeps a bound: `c * lo <= s <= c * hi` gives `lo <= s / c <= hi`. */
  lemma DivideBetween(s: real, c: real, lo: real, hi: real)
    requires c > 0.0 && c * lo <= s <= c * hi
    ensures lo <= s / c <= hi
  {
    assert s / c * c == s;
  }

  /** A group mean lies between the smallest and the largest value averaged. */
  lemma MeanBetween(g: seq<Record>, v: nat, lo: real, hi: real)
    requires |g| > 0
    requires forall r :: r in g ==> v < |r.values| && lo <= r.values[v] <= hi
    ensures lo <= Mean(g, v) <= hi
  {
    SumAtLeast(g, v, lo);
    SumAtMost(g, v, hi);
    CopiesIsProduct(|g|, lo);
    CopiesIsProduct(|g|, hi);
    DivideBetween(Sum(g, v), |g| as real, lo, hi);
  }

  /**
   * One row per (time, height) pair present, holding the mean of every
   * statistic over the records with exactly that pair.
   */
  function GroupMeans(recs: seq<Record>, n: nat): (m: map<Key, seq<real>>)
    requires Uniform(recs, n)
    ensures m.Keys == Keys(recs)
    ensures forall k :: k in m ==> |m[k]| == n
    ensures forall k :: k in m ==> |Group(recs, k)| > 0
    ensures forall k, v :: k in m && 0 <= v < n ==> m[k][v] == Mean(Group(recs, k), v)
  {
    map k | k in Keys(recs) :: seq(n, v requires 0 <= v < n => Mean(Group(recs, k), v))
  }

  /** Statistic `v` laid out on the time x height grid; pairs no record has are `None`. */
  function Column(means: map<Key, seq<real>>, times: seq<real>, heights: seq<real>, v: nat): Grid
    requires forall k :: k in means ==> v < |means[k]|
  {
    seq(|times|, i requires 0 <= i < |times| =>
      seq(|heights|, j requires 0 <= j < |heights| =>
        if (times[i], heights[j]) in means then Some(means[(times[i], heights[j])][v]) else None))
  }

  /**
   * Groups the records by (time, height), averages each group, and pivots every
   * statistic into a grid whose axes are the distinct times and heights in
   * ascending order.
   */
  function Pivot(recs: seq<Record>, names: seq<string>): (t: Table)
    requires Uniform(recs, |names|)
    ensures WellShaped(t)
    ensures forall n :: n in t.data <==> n in names
    ensures StrictlyIncreasing(t.times) && Elems(t.times) == Elems(Times(recs))
    ensures StrictlyIncreasing(t.heights) && Elems(t.heights) == Elems(Heights(recs))
  {
    var means := GroupMeans(recs, |names|);
    var times := SortedDistinct(Times(recs));
    var heights := SortedDistinct(Heights(recs));
    var columns := seq(|names|, v requires 0 <= v < |names| => Column(means, times, heights, v));
    var t := Table(times, heights, Label(names, columns));
    assert forall g :: g in columns ==> HasShape(g, |times|, |heights|);
    t
  }

  /**
   * Each cell of a pivoted statistic is the mean over exactly the records with
   * that cell's (time, height) pair, or `None` when there are none.
   */
  lemma PivotCell(recs: seq<Record>, names: seq<string>, v: nat, i: nat, j: nat)
    requires Uniform(recs, |names|)
    requires v < |names| && names[v] !in names[v + 1..]
    requires i < |Pivot(recs, names).times| && j < |Pivot(recs, names).heights|
    ensures var t := Pivot(recs, names);
            var k := (t.times[i], t.heights[j]);
            t.data[names[v]][i][j] ==
              if k in Keys(recs) then Some(Mean(Group(recs, k), v)) else None
  {
  }

  /** `PivotCell` for a name of a duplicate-free registry: the cell is the name's group mean. */
  lemma PivotCellByName(recs: seq<Record>, names: seq<string>, n: string, i: nat, j: nat)
    requires Uniform(recs, |names|) && Registry.Distinct(names)
    requires n in names
    requires i < |Pivot(recs, names).times| && j < |Pivot(recs, names).heights|
    ensures var t := Pivot(recs, names);
            var k := (t.times[i], t.heights[j]);
            n in t.data &&
            t.data[n][i][j] == if k in Keys(recs) then Some(Label(names, GroupMeans(recs, |names|)[k])[n]) else None
  {
    var w :| 0 <= w < |names| && names[w] == n;
    assert names[w] !in names[w + 1..];
    PivotCell(recs, names, w, i, j);
  }

  /**
   * The shape of a freshly pivoted table at cell (i, j): its statistics are
   * exactly `names`, and each holds its mean from `m` where the cell's pair
   * occurs (`present`) and is missing elsewhere.
   */
  predicate CellsFrom(t: Table, names: seq<string>, i: nat, j: nat, m: map<string, real>, present: bool)
    requires WellShaped(t) && i < |t.times| && j < |t.heights|
  {
    (forall x :: x in names ==> x in t.data) &&
    forall x :: x in t.data ==>
      x in names && if present then x in m && t.data[x][i][j] == Some(m[x]) else t.data[x][i][j] == None
  }

  /** The pivot of a duplicate-free registry has the cell shape `CellsFrom` describes. */
  lemma PivotCellsFrom(recs: seq<Record>, names: seq<string>, i: nat, j: nat)
    requires Uniform(recs, |names|) && Registry.Distinct(names)
    requires i < |Pivot(recs, names).times| && j < |Pivot(recs, names).heights|
    ensures var t := Pivot(recs, names);
            var k := (t.times[i], t.heights[j]);
            CellsFrom(t, names, i, j, CellMeans(recs, names, k), k in Keys(recs))
  {
    var t := Pivot(recs, names);
    var k := (t.times[i], t.heights[j]);
    var m := CellMeans(recs, names, k);
    var present := k in Keys(recs);
    forall x | x in t.data
      ensures x in names && if present then x in m && t.data[x][i][j] == Some(m[x]) else t.data[x][i][j] == None
    {
      PivotCellByName(recs, names, x, i, j);
    }
    assert CellsFrom(t, names, i, j, m, present);
  }

  /** The statistics' means over the rows whose pair is `k`, by name; empty when no row has it. */
  function CellMeans(recs: seq<Record>, names: seq<string>, k: Key): map<string, real>
    requires Uniform(recs, |names|)
  {
    if k in Keys(recs) then Label(names, GroupMeans(recs, |names|)[k]) else map[]
  }

  /** No record is lost by the pivot: each pair present in the table is a cell of the grid. */
  lemma PivotKeepsEveryPair(recs: seq<Record>, names: seq<string>, k: Key)
    requires Uniform(recs, |names|)
    requires k in Keys(recs)
    ensures var t := Pivot(recs, names);
            exists i, j :: 0 <= i < |t.times| && 0 <= j < |t.heights| &&
              t.times[i] == k.0 && t.heights[j] == k.1
  {
    var t := Pivot(recs, names);
    PairOnAxes(recs, t.times, t.heights, k);
  }

  /** A pair that occurs has its time on any axis holding the same times, and its height likewise. */
  lemma PairOnAxes(recs: seq<Record>, times: seq<real>, heights: seq<real>, k: Key)
    requires k in Keys(recs)
    requires Elems(times) == Elems(Times(recs)) && Elems(heights) == Elems(Heights(recs))
    ensures exists i, j :: 0 <= i < |times| && 0 <= j < |heights| && times[i] == k.0 && heights[j] == k.1
  {
    var r :| r in recs && KeyOf(r) == k;
    var p :| 0 <= p < |recs| && recs[p] == r;
    assert Times(recs)[p] == k.0 && Heights(recs)[p] == k.1;
    assert k.0 in Elems(times) && k.1 in Elems(heights);
    var i :| 0 <= i < |times| && times[i] == k.0;
    var j :| 0 <= j < |heights| && heights[j] == k.1;
  }
}
