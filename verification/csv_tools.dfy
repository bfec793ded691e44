/**
 * `csv_to_xr`: a Neko statistics table becomes one time x height grid per
 * statistic, with the mean products removed from the higher-order ones.
 */
module CsvTools {
  import opened Wrappers
  import opened Unique
  import opened Aggregation
  import opened Lookups
  import opened Moments
  import Registry

  /** Why a conversion stops without a dataset. */
  datatype CsvError =
    /** Assigning the column labels fails: the table does not have one column per label. */
    | LengthMismatch(expected: nat, actual: nat)
    /** Grouping by `time` and the height label fails: the label names more than one column. */
    | DuplicateLabel(name: string)
    /** The correction loop looks up a variable the dataset does not have. */
    | UnknownVariable(name: string)

  /** The converted dataset: every statistic on the shared (time, height) axes. */
  datatype Dataset = Dataset(height: string, times: seq<real>, heights: seq<real>, data: map<string, Grid>)

  /** The column labels: `time`, the height name, then the registry in order. */
  function ColumnNames(height: string, names: seq<string>): seq<string> {
    ["time", height] + names
  }

  /**
   * The conversion: choose the registry, label the columns by position, average
   * rows sharing a (time, height) pair, pivot, then correct the moments under
   * guard `g` (`AsWritten` for the source's loop).
   */
  function CsvToXr(f: Frame, basic: bool, height: string, g: Guard): (r: Result<Dataset, CsvError>)
    requires Rectangular(f)
    ensures r.Failure? && r.error.LengthMismatch? <==>
              f.width != |ColumnNames(height, Registry.Select(basic, f.width))|
    ensures r.Success? ==>
              var names := Registry.Select(basic, f.width);
              && f.width == |names| + 2
              && r.value.height == height
              && (forall n :: n in r.value.data <==> n in names)
              && WellShaped(Table(r.value.times, r.value.heights, r.value.data))
              && r.value.times == SortedDistinct(Times(Bind(f)))
              && r.value.heights == SortedDistinct(Heights(Bind(f)))
  {
    var names := Registry.Select(basic, f.width);
    var labels := ColumnNames(height, names);
    if f.width != |labels| then Failure(LengthMismatch(|labels|, f.width))
    else if height == "time" || height in names then Failure(DuplicateLabel(height))
    else
      Convert(Pivot(Bind(f), names), height, names, g)
  }

  /**
   * The conversion once the labels fit: the correction loop over the pivoted
   * table, whose lookups also see the coordinates, then the data variables.
   */
  function Convert(t: Table, height: string, names: seq<string>, g: Guard): (r: Result<Dataset, CsvError>)
    requires WellShaped(t) && height != "time" && "time" !in t.data && height !in t.data
    ensures r.Success? <==> forall n :: n in names ==> Resolvable(t.data.Keys + {"time", height}, n, g)
    ensures r.Failure? ==> r.error.UnknownVariable?
    ensures r.Success? ==> && r.value.height == height
                           && r.value.times == t.times && r.value.heights == t.heights
                           && r.value.data.Keys == t.data.Keys
                           && WellShaped(Table(r.value.times, r.value.heights, r.value.data))
  {
    Finish(height, CorrectAll(WithCoordinates(t, height), names, g))
  }

  /** `ds["time"]` as the loop's arithmetic uses it: the time of row `i` in every cell of that row. */
  function TimeGrid(times: seq<real>, heights: seq<real>): (c: Grid)
    ensures HasShape(c, |times|, |heights|)
  {
    seq(|times|, i requires 0 <= i < |times| => seq(|heights|, j => Some(times[i])))
  }

  /** `ds[height]` as the loop's arithmetic uses it: the height of column `j` in every cell of that column. */
  function HeightGrid(times: seq<real>, heights: seq<real>): (c: Grid)
    ensures HasShape(c, |times|, |heights|)
  {
    seq(|times|, i => seq(|heights|, j requires 0 <= j < |heights| => Some(heights[j])))
  }

  /**
   * The dataset as the loop's lookups `ds[key]` see it: besides the statistics,
   * the two coordinates `time` and the height label answer a lookup, each
   * broadcast over the other axis.
   */
  function WithCoordinates(t: Table, height: string): (v: Table)
    requires WellShaped(t) && height != "time" && "time" !in t.data && height !in t.data
    ensures WellShaped(v) && v.times == t.times && v.heights == t.heights
    ensures v.data.Keys == t.data.Keys + {"time", height}
    ensures forall n :: n in t.data ==> v.data[n] == t.data[n]
  {
    Table(t.times, t.heights, t.data["time" := TimeGrid(t.times, t.heights)][height := HeightGrid(t.times, t.heights)])
  }

  /**
   * The dataset a finished correction loop yields, its data variables being
   * everything but the two coordinates; or the failed lookup as a `KeyError`.
   */
  function Finish(height: string, r: Result<Table, string>): (d: Result<Dataset, CsvError>)
    ensures r.Failure? ==> d == Failure(UnknownVariable(r.error))
    ensures r.Success? ==> d.Success? && d.value.height == height &&
                           d.value.times == r.value.times && d.value.heights == r.value.heights
    ensures r.Success? ==> forall n :: n in d.value.data <==> n in r.value.data && n != "time" && n != height
    ensures r.Success? ==> forall n :: n in d.value.data ==> d.value.data[n] == r.value.data[n]
  {
    match r
    case Failure(missing) => Failure(UnknownVariable(missing))
    case Success(c) => Success(Dataset(height, c.times, c.heights, map n | n in c.data && n != "time" && n != height :: c.data[n]))
  }

  /**
   * Positional binding agrees with labelling the columns: when the labels are
   * distinct, `time`, the height label and each statistic name of a labelled
   * row hold what `Bind` puts in the record's time, height and values.
   */
  lemma LabelledRow(f: Frame, height: string, names: seq<string>, i: nat)
    requires Rectangular(f) && f.width == |names| + 2 && i < |f.rows|
    requires Registry.Distinct(ColumnNames(height, names))
    ensures var row := Label(ColumnNames(height, names), f.rows[i]);
            var rec := Bind(f)[i];
            && "time" in row && row["time"] == rec.time
            && height in row && row[height] == rec.height
            && forall v :: 0 <= v < |names| ==> names[v] in row && row[names[v]] == rec.values[v]
  {
    var labels := ColumnNames(height, names);
    forall p | 0 <= p < |labels| ensures labels[p] !in labels[p + 1..] {
      var rest := labels[p + 1..];
      forall q | 0 <= q < |rest| ensures rest[q] != labels[p] {
        assert rest[q] == labels[p + 1 + q];
      }
    }
    assert labels[0] == "time" && labels[1] == height;
    forall v | 0 <= v < |names| ensures labels[v + 2] == names[v] {
    }
  }

  /** The conversion of a table whose labels fit is the loop over its pivot. */
  lemma CsvToXrUnfold(f: Frame, basic: bool, height: string, g: Guard, names: seq<string>)
    requires Rectangular(f) && names == Registry.Select(basic, f.width)
    requires f.width == |names| + 2 && height != "time" && height !in names
    ensures Uniform(Bind(f), |names|)
    ensures CsvToXr(f, basic, height, g) == Convert(Pivot(Bind(f), names), height, names, g)
  {
  }

  /** A name whose lookups are all statistics is corrected alike with or without the coordinates. */
  lemma CorrectOneWithCoordinates(t: Table, height: string, n: string, g: Guard)
    requires WellShaped(t) && height != "time" && "time" !in t.data && height !in t.data
    requires Resolvable(t.data.Keys, n, g)
    ensures CorrectOne(t, n, g).Success?
    ensures CorrectOne(WithCoordinates(t, height), n, g) == Success(WithCoordinates(CorrectOne(t, n, g).value, height))
  {
    var v := WithCoordinates(t, height);
    if IsCorrected(g, n) {
      assert ReadsPresent(v.data.Keys, n);
      CorrectedGridFrame(v, t, n);
      var t1 := CorrectOne(t, n, g).value;
      assert v.data[n := CorrectedGrid(v, n)] == WithCoordinates(t1, height).data;
    }
  }

  /**
   * The coordinates change nothing for names whose lookups are all statistics:
   * no such lookup reads them and the loop writes only statistics.
   */
  lemma {:induction false} CorrectAllWithCoordinates(t: Table, height: string, names: seq<string>, g: Guard)
    requires WellShaped(t) && height != "time" && "time" !in t.data && height !in t.data
    requires forall n :: n in names ==> Resolvable(t.data.Keys, n, g)
    ensures CorrectAll(t, names, g).Success?
    ensures CorrectAll(WithCoordinates(t, height), names, g) ==
              Success(WithCoordinates(CorrectAll(t, names, g).value, height))
    decreases |names|
  {
    if |names| > 0 {
      assert forall n :: n in names[1..] ==> n in names;
      CorrectOneWithCoordinates(t, height, names[0], g);
      CorrectAllWithCoordinates(CorrectOne(t, names[0], g).value, height, names[1..], g);
    }
  }

  /** When every lookup is a statistic, the conversion holds the loop's statistics, coordinates aside. */
  lemma ConvertResolved(t: Table, height: string, names: seq<string>, g: Guard)
    requires WellShaped(t) && height != "time" && "time" !in t.data && height !in t.data
    requires forall n :: n in names ==> Resolvable(t.data.Keys, n, g)
    ensures CorrectAll(t, names, g).Success?
    ensures var c := CorrectAll(t, names, g).value;
            Convert(t, height, names, g) == Success(Dataset(height, c.times, c.heights, c.data))
  {
    CorrectAllWithCoordinates(t, height, names, g);
    var c := CorrectAll(t, names, g).value;
    var v := WithCoordinates(c, height);
    var d := Finish(height, Success(v)).value;
    assert forall n :: n in d.data <==> n in c.data;
    assert forall n :: n in d.data ==> d.data[n] == c.data[n];
    assert d.data == c.data;
  }

  // ---------------------------------------------------------------------------
  // Facts about the registries that decide whether the correction loop can run.

  /** Every fourth moment in either registry repeats one letter, so `x ** 4` is
      the product of its letters. */
  lemma QuadsRepeated(names: seq<string>)
    requires names == Registry.Basic || names == Registry.Extended
    ensures forall n :: n in names && |n| == 4 ==> Repeated(n)
  {
  }

  /** Every statistic of the basic registry is corrected from basic variables. */
  lemma BasicResolvable(keys: set<string>, g: Guard)
    requires forall n :: n in Registry.Basic ==> n in keys
    ensures forall n :: n in Registry.Basic ==> Resolvable(keys, n, g)
  {
  }

  lemma ExtendedHeadResolvable(keys: set<string>, g: Guard)
    requires forall n :: n in Registry.Extended ==> n in keys
    ensures forall n :: n in Registry.ExtendedLine1 ==> Resolvable(keys, n, g)
    ensures forall n :: n in Registry.ExtendedLine2 ==> Resolvable(keys, n, g)
    ensures forall n :: n in Registry.ExtendedLine3 ==> Resolvable(keys, n, g)
  {
    Registry.ExtendedHoldsLines();
    assert Registry.ExtendedLine1[0] == "p" && Registry.ExtendedLine1[1] == "u";
    assert Registry.ExtendedLine1[2] == "v" && Registry.ExtendedLine1[3] == "w";
    Line1Resolvable(keys, g);
    Line2Resolvable(keys, g);
    Line3Resolvable(keys, g);
  }

  lemma Line1Resolvable(keys: set<string>, g: Guard)
    requires forall n :: n in Registry.ExtendedLine1 ==> n in keys
    ensures forall n :: n in Registry.ExtendedLine1 ==> Resolvable(keys, n, g)
  {
  }

  lemma Line2Resolvable(keys: set<string>, g: Guard)
    requires "p" in keys && "u" in keys && "v" in keys && "w" in keys
    requires forall n :: n in Registry.ExtendedLine2 ==> n in keys
    ensures forall n :: n in Registry.ExtendedLine2 ==> Resolvable(keys, n, g)
  {
  }

  lemma Line3Resolvable(keys: set<string>, g: Guard)
    requires "p" in keys && "u" in keys && "v" in keys && "w" in keys
    requires forall n :: n in Registry.ExtendedLine3 ==> n in keys
    ensures forall n :: n in Registry.ExtendedLine3 ==> Resolvable(keys, n, g)
  {
  }

  /**
   * A name with a `d` is never corrected, under either guard; the nine
   * pressure-strain names `pdudx` ... `pdwdz` all have one.
   */
  lemma PressureStrainNotCorrected(g: Guard)
    ensures forall n :: 'd' in n ==> !IsCorrected(g, n)
    ensures forall i :: 4 <= i < 10 ==> 'd' in Registry.ExtendedLine3[i]
    ensures forall i :: 0 <= i < 3 ==> 'd' in Registry.ExtendedLine4[i]
  {
    assert forall i :: 4 <= i < 10 ==> Registry.ExtendedLine3[i][1] == 'd';
    assert forall i :: 0 <= i < 3 ==> Registry.ExtendedLine4[i][1] == 'd';
  }

  /** The intended guard leaves the dissipation names alone, so they never fail a lookup. */
  lemma DissipationSkipped(keys: set<string>)
    ensures forall i :: 3 <= i < 9 ==> Resolvable(keys, Registry.ExtendedLine4[i], Intended)
  {
    assert forall i :: 3 <= i < 9 ==> Registry.ExtendedLine4[i][0] == 'e';
  }

  /**
   * Under the source's guard the dissipation names look up `e` and then a digit.
   * Among the statistics and the two coordinates at most one of these exists
   * (`e` only as the height label), so each of these names fails; `e11` fails
   * on `e`, or on `1` when the height label is `e`.
   */
  lemma DissipationLookups(stats: set<string>, height: string)
    requires height != "time" && height !in Registry.Extended
    requires forall n :: n in stats <==> n in Registry.Extended
    ensures var keys := stats + {"time", height};
            && FirstMissing(keys, Reads("e11")) == Some(if height == "e" then "1" else "e")
            && (forall i :: 3 <= i < 9 ==> !Resolvable(keys, Registry.ExtendedLine4[i], AsWritten))
            && "e11" in Registry.Extended && !Resolvable(keys, "e11", AsWritten)
  {
    DissipationLetters(stats, height);
    E11Lookups(stats, height);
    DissipationFails(stats, height);
  }

  /** Among the statistics and the coordinates, `e`, `1`, `2` and `3` can only be the height label. */
  lemma DissipationLetters(stats: set<string>, height: string)
    requires forall n :: n in stats <==> n in Registry.Extended
    ensures var keys := stats + {"time", height};
            && ("e" in keys <==> height == "e") && ("1" in keys <==> height == "1")
            && ("2" in keys <==> height == "2") && ("3" in keys <==> height == "3")
  {
    Registry.NoDissipationLetters();
    assert "e"[0] != "time"[0] && "1"[0] != "time"[0] && "2"[0] != "time"[0] && "3"[0] != "time"[0];
  }

  /** `e11` reads `e11`, `e`, `1`, `1`: the first of these missing is `e`, or `1` when the height is `e`. */
  lemma E11Lookups(stats: set<string>, height: string)
    requires forall n :: n in stats <==> n in Registry.Extended
    requires var keys := stats + {"time", height};
             && ("e" in keys <==> height == "e") && ("1" in keys <==> height == "1")
    ensures "e11" in Registry.Extended
    ensures FirstMissing(stats + {"time", height}, Reads("e11")) == Some(if height == "e" then "1" else "e")
  {
    Registry.ExtendedHoldsLines();
    assert "e11" == Registry.ExtendedLine4[3];
    assert Reads("e11") == ["e11", "e", "1", "1"];
    assert "e"[0] != "1"[0];
  }

  /** Every dissipation name reads `e` and a digit, which cannot both be the height label. */
  lemma DissipationFails(stats: set<string>, height: string)
    requires var keys := stats + {"time", height};
             && ("e" in keys <==> height == "e") && ("1" in keys <==> height == "1")
             && ("2" in keys <==> height == "2") && ("3" in keys <==> height == "3")
    ensures forall i :: 3 <= i < 9 ==> !Resolvable(stats + {"time", height}, Registry.ExtendedLine4[i], AsWritten)
    ensures !Resolvable(stats + {"time", height}, "e11", AsWritten)
  {
    var keys := stats + {"time", height};
    assert "e"[0] != "1"[0] && "e"[0] != "2"[0] && "e"[0] != "3"[0];
    forall i | 3 <= i < 9 ensures !Resolvable(keys, Registry.ExtendedLine4[i], AsWritten) {
      var n := Registry.ExtendedLine4[i];
      assert n[0] == 'e' && (n[1] == '1' || n[1] == '2' || n[1] == '3') && |n| == 3 && 'd' !in n;
      assert [n[1]] == "1" || [n[1]] == "2" || [n[1]] == "3";
      DissipationName(keys, n);
    }
    assert "e11" == Registry.ExtendedLine4[3];
  }

  /** One dissipation name: `e`, two digits, no `d`; it fails when `e` or its first digit is no variable. */
  lemma DissipationName(keys: set<string>, n: string)
    requires |n| == 3 && n[0] == 'e' && 'd' !in n
    requires "e" !in keys || [n[1]] !in keys
    ensures !Resolvable(keys, n, AsWritten)
  {
    assert Letter(n, 0) == "e" && Letter(n, 0) in Reads(n);
    assert Letter(n, 1) == [n[1]] && Letter(n, 1) in Reads(n);
  }

  /** Under the source's guard the loop gets through the first 38 extended names. */
  lemma ExtendedPrefixResolvable(keys: set<string>)
    requires forall n :: n in Registry.Extended ==> n in keys
    ensures forall i :: 0 <= i < 38 ==> Resolvable(keys, Registry.Extended[i], AsWritten)
    ensures Registry.Extended[38] == "e11"
  {
    ExtendedHeadResolvable(keys, AsWritten);
    PressureStrainNotCorrected(AsWritten);
    var e := Registry.Extended;
    var l1, l2, l3, l4 := Registry.ExtendedLine1, Registry.ExtendedLine2, Registry.ExtendedLine3, Registry.ExtendedLine4;
    forall i | 0 <= i < 38 ensures Resolvable(keys, e[i], AsWritten) {
      if i < 14 {
        assert e[i] == l1[i];
      } else if i < 25 {
        assert e[i] == l2[i - 14];
      } else if i < 35 {
        assert e[i] == l3[i - 25];
      } else {
        assert e[i] == l4[i - 35];
      }
    }
    assert e[38] == l4[3];
  }

  /** With the intended guard, every extended name is resolvable. */
  lemma ExtendedResolvableIntended(keys: set<string>)
    requires forall n :: n in Registry.Extended ==> n in keys
    ensures forall n :: n in Registry.Extended ==> Resolvable(keys, n, Intended)
  {
    ExtendedHeadResolvable(keys, Intended);
    PressureStrainNotCorrected(Intended);
    DissipationSkipped(keys);
    forall n | n in Registry.Extended ensures Resolvable(keys, n, Intended) {
      if n in Registry.ExtendedLine4 {
        var i :| 0 <= i < 9 && Registry.ExtendedLine4[i] == n;
      }
    }
  }

  // ---------------------------------------------------------------------------
  // What a conversion returns.

  /** The pivoted table of a frame whose width matches its registry. */
  lemma PivotOfFrame(f: Frame, names: seq<string>)
    requires Rectangular(f) && f.width == |names| + 2
    ensures Uniform(Bind(f), |names|)
    ensures var t := Pivot(Bind(f), names);
            WellShaped(t) && forall n :: n in t.data.Keys <==> n in names
  {
  }

  /** A conversion succeeds exactly when the labels fit and the loop gets through every name. */
  lemma CsvSuccessIff(f: Frame, basic: bool, height: string, g: Guard, names: seq<string>)
    requires Rectangular(f) && names == Registry.Select(basic, f.width)
    ensures CsvToXr(f, basic, height, g).Success? <==>
              && f.width == |names| + 2 && height != "time" && height !in names
              && forall n :: n in names ==> Resolvable(Pivot(Bind(f), names).data.Keys + {"time", height}, n, g)
  {
    if f.width == |names| + 2 && height != "time" && height !in names {
      CsvToXrUnfold(f, basic, height, g, names);
    }
  }

  /**
   * When a conversion succeeds: the table has 13 columns (the basic registry,
   * whatever `basic` says), or it has 46 columns, the extended registry was
   * requested and the dissipation names are skipped as intended; and the height
   * label clashes with no other column label. Under the source's guard the
   * extended registry therefore never converts.
   */
  lemma CsvOutcome(f: Frame, basic: bool, height: string, g: Guard)
    requires Rectangular(f)
    ensures CsvToXr(f, basic, height, g).Success? <==>
              && (f.width == 13 || (f.width == 46 && !basic && g == Intended))
              && height != "time"
              && height !in Registry.Select(basic, f.width)
  {
    var names := Registry.Select(basic, f.width);
    CsvSuccessIff(f, basic, height, g, names);
    var fits := f.width == |names| + 2;
    assert fits <==> (f.width == 13 || (f.width == 46 && !basic)) by {
      assert |Registry.Basic| == 11 && |Registry.Extended| == 44;
    }
    if fits && height != "time" && height !in names {
      PivotOfFrame(f, names);
      var keys := Pivot(Bind(f), names).data.Keys + {"time", height};
      var all := forall n :: n in names ==> Resolvable(keys, n, g);
      if names == Registry.Basic {
        BasicResolvable(keys, g);
        assert all;
      } else if g == Intended {
        ExtendedResolvableIntended(keys);
        assert all;
      } else {
        DissipationLookups(Pivot(Bind(f), names).data.Keys, height);
        assert !all;
      }
    }
  }

  /**
   * The defect in the source's loop: an extended table that is otherwise well
   * formed fails at `e11`, whose first letter `e` is no variable; when the
   * height label is `e` that lookup finds the height coordinate, and `1` fails.
   */
  lemma ExtendedFailsAsWritten(f: Frame, height: string)
    requires Rectangular(f) && f.width == 46
    requires height != "time" && height !in Registry.Extended
    ensures CsvToXr(f, false, height, AsWritten) == Failure(UnknownVariable(if height == "e" then "1" else "e"))
  {
    var names := Registry.Select(false, f.width);
    assert names == Registry.Extended;
    PivotOfFrame(f, names);
    CsvToXrUnfold(f, false, height, AsWritten, names);
    var t := Pivot(Bind(f), names);
    var v := WithCoordinates(t, height);
    ExtendedPrefixResolvable(v.data.Keys);
    DissipationLookups(t.data.Keys, height);
    assert !Resolvable(v.data.Keys, names[38], AsWritten) by {
      assert names[38] == Registry.ExtendedLine4[3];
    }
    CorrectAllFirstFailure(v, names, AsWritten, 38);
  }

  /** With the intended guard the same extended table converts. */
  lemma ExtendedSucceedsIntended(f: Frame, height: string)
    requires Rectangular(f) && f.width == 46
    requires height != "time" && height !in Registry.Extended
    ensures CsvToXr(f, false, height, Intended).Success?
  {
    CsvOutcome(f, false, height, Intended);
  }

  /** Guards that agree on which names are corrected give the same loop. */
  lemma {:induction false} CorrectAllGuardsAgree(t: Table, names: seq<string>, g1: Guard, g2: Guard)
    requires WellShaped(t)
    requires forall n :: n in names ==> IsCorrected(g1, n) == IsCorrected(g2, n)
    ensures CorrectAll(t, names, g1) == CorrectAll(t, names, g2)
    decreases |names|
  {
    if |names| > 0 {
      assert forall n :: n in names[1..] ==> n in names;
      var r1 := CorrectOne(t, names[0], g1);
      assert r1 == CorrectOne(t, names[0], g2);
      if r1.Success? {
        CorrectAllGuardsAgree(r1.value, names[1..], g1, g2);
      }
    }
  }

  /** Guards that agree on the registry's names give the same conversion. */
  lemma CsvToXrGuardsAgree(f: Frame, basic: bool, height: string, g1: Guard, g2: Guard)
    requires Rectangular(f)
    requires forall n :: n in Registry.Select(basic, f.width) ==> IsCorrected(g1, n) == IsCorrected(g2, n)
    ensures CsvToXr(f, basic, height, g1) == CsvToXr(f, basic, height, g2)
  {
    var names := Registry.Select(basic, f.width);
    if f.width == |names| + 2 && height != "time" && height !in names {
      CsvToXrUnfold(f, basic, height, g1, names);
      CsvToXrUnfold(f, basic, height, g2, names);
      PivotOfFrame(f, names);
      CorrectAllGuardsAgree(WithCoordinates(Pivot(Bind(f), names), height), names, g1, g2);
    }
  }

  lemma BasicNoDissipation()
    ensures forall n :: n in Registry.Basic ==> IsCorrected(AsWritten, n) == IsCorrected(Intended, n)
  {
  }

  /** In basic mode the defect is invisible: no basic name starts with `e`. */
  lemma BasicGuardsAgree(f: Frame, basic: bool, height: string)
    requires Rectangular(f) && f.width == 13
    ensures CsvToXr(f, basic, height, AsWritten) == CsvToXr(f, basic, height, Intended)
  {
    var names := Registry.Select(basic, f.width);
    assert names == Registry.Basic;
    BasicNoDissipation();
    CsvToXrGuardsAgree(f, basic, height, AsWritten, Intended);
  }

  /**
   * A conversion that succeeds looked up statistics only: every name of its
   * registry resolves among the pivoted statistics, without the coordinates.
   */
  lemma SuccessResolvesStatistics(f: Frame, basic: bool, height: string, g: Guard)
    requires Rectangular(f)
    requires CsvToXr(f, basic, height, g).Success?
    ensures var names := Registry.Select(basic, f.width);
            && f.width == |names| + 2 && height != "time" && height !in names
            && Uniform(Bind(f), |names|)
            && forall n :: n in names ==> Resolvable(Pivot(Bind(f), names).data.Keys, n, g)
  {
    CsvOutcome(f, basic, height, g);
    var names := Registry.Select(basic, f.width);
    assert |Registry.Basic| == 11 && |Registry.Extended| == 44;
    PivotOfFrame(f, names);
    var keys := Pivot(Bind(f), names).data.Keys;
    if names == Registry.Basic {
      BasicResolvable(keys, g);
    } else {
      ExtendedResolvableIntended(keys);
    }
  }

  /**
   * Every cell of a converted statistic: where some rows have the cell's
   * (time, height) pair, the central statistic of the group means of those rows
   * (the raw mean for a name that is not corrected, the mean minus the product
   * of its letters' means otherwise); elsewhere a missing value.
   */
  lemma CsvToXrCells(f: Frame, basic: bool, height: string, g: Guard, v: nat, i: nat, j: nat)
    requires Rectangular(f)
    requires CsvToXr(f, basic, height, g).Success?
    requires v < |Registry.Select(basic, f.width)|
    requires i < |CsvToXr(f, basic, height, g).value.times|
    requires j < |CsvToXr(f, basic, height, g).value.heights|
    ensures var names := Registry.Select(basic, f.width);
            var recs := Bind(f);
            var ds := CsvToXr(f, basic, height, g).value;
            var k := (ds.times[i], ds.heights[j]);
            var m := CellMeans(recs, names, k);
            if k in Keys(recs) then
              CentralDefined(m, names[v], g) && ds.data[names[v]][i][j] == Some(Central(m, names[v], g))
            else
              ds.data[names[v]][i][j] == None
  {
    var names := Registry.Select(basic, f.width);
    var recs := Bind(f);
    SuccessResolvesStatistics(f, basic, height, g);
    CsvToXrUnfold(f, basic, height, g, names);
    var t := Pivot(recs, names);
    ConvertResolved(t, height, names, g);
    if names == Registry.Basic {
      Registry.BasicDistinct();
    } else {
      Registry.ExtendedDistinct();
    }
    QuadsRepeated(names);
    SequentialIsSimultaneous(t, names, g);
    PivotCellsFrom(recs, names, i, j);
    var k := (t.times[i], t.heights[j]);
    SimultaneousCellFrom(t, names, g, names[v], i, j, CellMeans(recs, names, k), k in Keys(recs));
  }
}
