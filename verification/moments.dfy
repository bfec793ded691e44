/**
 * The moment-correction loop of `csv_to_xr`: every higher-order statistic has
 * the product of the means of its constituent quantities subtracted, the
 * constituents being read off the statistic's name letter by letter.
 */
module Moments {
  import opened Wrappers
  import opened Lookups
  import opened Aggregation
  import Registry

  /**
   * Which names the loop corrects. `AsWritten` is the guard of the source: a
   * name of length 2 to 4 without the gradient marker `d`. `Intended` also
   * leaves the dissipation names `e11` ... `e23` alone, as the comment on the
   * loop says it does.
   */
  datatype Guard = AsWritten | Intended

  predicate IsCorrected(g: Guard, name: string) {
    2 <= |name| <= 4 && 'd' !in name && (g == AsWritten || name[0] != 'e')
  }

  /** The one-letter name of the `i`-th constituent of `name`. */
  function Letter(name: string, i: nat): string
    requires i < |name|
  {
    [name[i]]
  }

  /**
   * The names the correction of `name` reads, in evaluation order: the
   * statistic itself, then its constituents (for a fourth moment only the
   * first letter, which is raised to the fourth power).
   */
  function Reads(name: string): (r: seq<string>)
    requires 2 <= |name| <= 4
    ensures |r| == if |name| == 4 then 2 else |name| + 1
    ensures r[0] == name
    ensures forall k :: 1 <= k < |r| ==> r[k] == [name[k - 1]]
  {
    if |name| == 2 then [name, Letter(name, 0), Letter(name, 1)]
    else if |name| == 3 then [name, Letter(name, 0), Letter(name, 1), Letter(name, 2)]
    else [name, Letter(name, 0)]
  }

  /** Every lookup the correction of `name` makes finds a variable. */
  predicate ReadsPresent(keys: set<string>, name: string)
    requires 2 <= |name| <= 4
  {
    forall r :: r in Reads(name) ==> r in keys
  }

  /** The loop gets past `name`: either it leaves the name alone or every lookup succeeds. */
  predicate Resolvable(keys: set<string>, name: string, g: Guard) {
    !IsCorrected(g, name) || ReadsPresent(keys, name)
  }

  /** Cell-wise arithmetic of two aligned grids; a missing cell (NaN) stays missing. */
  datatype Op = Subtract | Multiply

  function Apply(op: Op, x: real, y: real): real {
    match op
    case Subtract => x - y
    case Multiply => x * y
  }

  function Combine(op: Op, a: Grid, b: Grid): (c: Grid)
    requires |a| == |b| && forall i :: 0 <= i < |a| ==> |a[i]| == |b[i]|
    ensures forall rows, cols :: HasShape(a, rows, cols) ==> HasShape(c, rows, cols)
  {
    seq(|a|, i requires 0 <= i < |a| =>
      seq(|a[i]|, j requires 0 <= j < |a[i]| =>
        if a[i][j].Some? && b[i][j].Some? then Some(Apply(op, a[i][j].value, b[i][j].value)) else None))
  }

  /** Where both operands hold a number, the cell holds the operation's result. */
  lemma CombineCell(op: Op, a: Grid, b: Grid, i: nat, j: nat, x: real, y: real)
    requires |a| == |b| && forall k :: 0 <= k < |a| ==> |a[k]| == |b[k]|
    requires i < |a| && j < |a[i]|
    requires a[i][j] == Some(x) && b[i][j] == Some(y)
    ensures Combine(op, a, b)[i][j] == Some(Apply(op, x, y))
  {
  }

  /** Where either operand is missing, so is the result, as NaN propagates. */
  lemma CombineMissing(op: Op, a: Grid, b: Grid, i: nat, j: nat)
    requires |a| == |b| && forall k :: 0 <= k < |a| ==> |a[k]| == |b[k]|
    requires i < |a| && j < |a[i]|
    requires a[i][j] == None || b[i][j] == None
    ensures Combine(op, a, b)[i][j] == None
  {
  }

  /** The product of means the source subtracts from `name`. */
  function Correction(t: Table, name: string): (c: Grid)
    requires WellShaped(t) && 2 <= |name| <= 4 && ReadsPresent(t.data.Keys, name)
    ensures HasShape(c, |t.times|, |t.heights|)
  {
    var x := t.data[Letter(name, 0)];
    if |name| == 2 then
      Combine(Multiply, x, t.data[Letter(name, 1)])
    else if |name| == 3 then
      Combine(Multiply, Combine(Multiply, x, t.data[Letter(name, 1)]), t.data[Letter(name, 2)])
    else
      Combine(Multiply, Combine(Multiply, Combine(Multiply, x, x), x), x)
  }

  /** `name` with its mean product removed. */
  function CorrectedGrid(t: Table, name: string): (c: Grid)
    requires WellShaped(t) && 2 <= |name| <= 4 && ReadsPresent(t.data.Keys, name)
    ensures HasShape(c, |t.times|, |t.heights|)
  {
    Combine(Subtract, t.data[name], Correction(t, name))
  }

  /** One turn of the loop: the lookup that fails, or the table with `name` corrected. */
  function CorrectOne(t: Table, name: string, g: Guard): (r: Result<Table, string>)
    requires WellShaped(t)
    ensures r.Success? <==> Resolvable(t.data.Keys, name, g)
    ensures r.Failure? ==> r.error !in t.data && r.error in Reads(name)
    ensures r.Success? ==> WellShaped(r.value) && r.value.times == t.times &&
                           r.value.heights == t.heights && r.value.data.Keys == t.data.Keys
    ensures r.Success? ==> forall n :: n in t.data && n != name ==> r.value.data[n] == t.data[n]
    ensures r.Success? && name in t.data ==>
              r.value.data[name] == if IsCorrected(g, name) then CorrectedGrid(t, name) else t.data[name]
  {
    if !IsCorrected(g, name) then Success(t)
    else match FirstMissing(t.data.Keys, Reads(name))
      case Some(missing) => Failure(missing)
      case None => Success(t.(data := t.data[name := CorrectedGrid(t, name)]))
  }

  /**
   * The whole loop, in registry order; the first failed lookup aborts it. It
   * gets through exactly when every name is resolvable, and it never changes a
   * variable it does not correct.
   */
  function CorrectAll(t: Table, names: seq<string>, g: Guard): (r: Result<Table, string>)
    requires WellShaped(t)
    ensures r.Success? <==> forall n :: n in names ==> Resolvable(t.data.Keys, n, g)
    ensures r.Success? ==> WellShaped(r.value) && r.value.times == t.times &&
                           r.value.heights == t.heights && r.value.data.Keys == t.data.Keys
    ensures r.Success? ==> forall n :: n in t.data && !(n in names && IsCorrected(g, n)) ==>
                             r.value.data[n] == t.data[n]
    decreases |names|
  {
    if |names| == 0 then Success(t)
    else
      assert forall i :: 0 < i < |names| ==> names[i] == names[1..][i - 1];
      assert forall n :: n in names[1..] ==> n in names;
      match CorrectOne(t, names[0], g)
      case Failure(missing) => Failure(missing)
      case Success(t1) => CorrectAll(t1, names[1..], g)
  }

  /** The loop's result when every statistic is corrected against the table as pivoted. */
  function Simultaneous(t: Table, names: seq<string>, g: Guard): (s: Table)
    requires WellShaped(t)
    requires forall n :: n in names ==> Resolvable(t.data.Keys, n, g)
  {
    Table(t.times, t.heights, map n | n in t.data :: SimultaneousGrid(t, names, g, n))
  }

  function SimultaneousGrid(t: Table, names: seq<string>, g: Guard, n: string): Grid
    requires WellShaped(t) && n in t.data
    requires forall x :: x in names ==> Resolvable(t.data.Keys, x, g)
  {
    if n in names && IsCorrected(g, n) then
      assert Resolvable(t.data.Keys, n, g);
      CorrectedGrid(t, n)
    else t.data[n]
  }

  /** A correction depends only on the grids it reads. */
  lemma CorrectedGridFrame(t: Table, u: Table, name: string)
    requires WellShaped(t) && WellShaped(u) && 2 <= |name| <= 4
    requires ReadsPresent(t.data.Keys, name) && ReadsPresent(u.data.Keys, name)
    requires forall r :: r in Reads(name) ==> t.data[r] == u.data[r]
    ensures CorrectedGrid(t, name) == CorrectedGrid(u, name)
  {
  }

  /** Apart from the statistic itself, a correction reads only one-letter names. */
  lemma ReadsAreLetters(name: string)
    requires 2 <= |name| <= 4
    ensures forall r :: r in Reads(name) ==> r == name || |r| == 1
  {
  }

  /** After the head is corrected, every other name still sees the grids it reads unchanged. */
  lemma SimultaneousStepAt(t: Table, names: seq<string>, g: Guard, n: string)
    requires WellShaped(t) && |names| > 0
    requires names[0] !in names[1..]
    requires forall x :: x in names ==> Resolvable(t.data.Keys, x, g)
    requires n in t.data
    ensures CorrectOne(t, names[0], g).Success?
    ensures var t1 := CorrectOne(t, names[0], g).value;
            (forall x :: x in names[1..] ==> Resolvable(t1.data.Keys, x, g)) &&
            Simultaneous(t1, names[1..], g).data[n] == Simultaneous(t, names, g).data[n]
  {
    var n0 := names[0];
    assert forall x :: x in names[1..] ==> x in names;
    var t1 := CorrectOne(t, n0, g).value;
    if n != n0 && n in names[1..] && IsCorrected(g, n) {
      ReadsAreLetters(n);
      CorrectedGridFrame(t1, t, n);
    }
  }

  /** Correcting the head first and the rest against the result matches correcting all at once. */
  lemma SimultaneousStep(t: Table, names: seq<string>, g: Guard)
    requires WellShaped(t) && |names| > 0
    requires names[0] !in names[1..]
    requires forall n :: n in names ==> Resolvable(t.data.Keys, n, g)
    ensures CorrectOne(t, names[0], g).Success?
    ensures var t1 := CorrectOne(t, names[0], g).value;
            (forall n :: n in names[1..] ==> Resolvable(t1.data.Keys, n, g)) &&
            Simultaneous(t1, names[1..], g) == Simultaneous(t, names, g)
  {
    var t1 := CorrectOne(t, names[0], g).value;
    assert forall x :: x in names[1..] ==> x in names;
    var s := Simultaneous(t, names, g);
    var s1 := Simultaneous(t1, names[1..], g);
    forall n | n in t.data ensures s1.data[n] == s.data[n] {
      SimultaneousStepAt(t, names, g, n);
    }
    assert s1.data == s.data;
  }

  /**
   * Order does not matter: since every constituent read is a one-letter name and
   * one-letter names are never corrected, running the loop in sequence gives the
   * same table as correcting every statistic against the uncorrected table.
   */
  lemma {:induction false} SequentialIsSimultaneous(t: Table, names: seq<string>, g: Guard)
    requires WellShaped(t)
    requires Registry.Distinct(names)
    requires forall n :: n in names ==> Resolvable(t.data.Keys, n, g)
    ensures CorrectAll(t, names, g) == Success(Simultaneous(t, names, g))
    decreases |names|
  {
    if |names| > 0 {
      assert forall i :: 0 <= i < |names| - 1 ==> names[1..][i] == names[i + 1];
      assert names[0] !in names[1..];
      assert Registry.Distinct(names[1..]);
      SimultaneousStep(t, names, g);
      SequentialIsSimultaneous(CorrectOne(t, names[0], g).value, names[1..], g);
    } else {
      assert Simultaneous(t, names, g).data == t.data;
    }
  }

  /**
   * The first name whose lookup fails decides the error: the loop aborts on it
   * with the first key it cannot find.
   */
  lemma {:induction false} CorrectAllFirstFailure(t: Table, names: seq<string>, g: Guard, k: nat)
    requires WellShaped(t)
    requires k < |names|
    requires forall i :: 0 <= i < k ==> Resolvable(t.data.Keys, names[i], g)
    requires !Resolvable(t.data.Keys, names[k], g)
    ensures CorrectAll(t, names, g) == Failure(FirstMissing(t.data.Keys, Reads(names[k])).value)
    decreases k
  {
    if k > 0 {
      var t1 := CorrectOne(t, names[0], g).value;
      assert forall i :: 0 <= i < k - 1 ==> names[1..][i] == names[i + 1];
      CorrectAllFirstFailure(t1, names[1..], g, k - 1);
    }
  }

  /** The product of the means of the letters of `s`. */
  function LetterProduct(m: map<string, real>, s: string): real
    requires forall c :: c in s ==> [c] in m
    decreases |s|
  {
    if |s| == 0 then 1.0
    else m[[s[0]]] * LetterProduct(m, s[1..])
  }

  lemma LetterProductStep(m: map<string, real>, s: string, k: nat)
    requires k < |s|
    requires forall c :: c in s ==> [c] in m
    ensures LetterProduct(m, s[k..]) == m[[s[k]]] * LetterProduct(m, s[k + 1..])
  {
    assert s[k..][1..] == s[k + 1..];
  }

  /** All letters of `name` are the same one, as in `uuuu`. */
  predicate Repeated(name: string) {
    forall i :: 0 <= i < |name| ==> name[i] == name[0]
  }

  /**
   * The central statistic a cell should hold, given the means `m` of the raw
   * statistics there: the raw moment minus the product of its constituents'
   * means, or the raw mean for a name that is not corrected.
   */
  function Central(m: map<string, real>, name: string, g: Guard): real
    requires name in m
    requires IsCorrected(g, name) ==> forall c :: c in name ==> [c] in m
  {
    if IsCorrected(g, name) then m[name] - LetterProduct(m, name) else m[name]
  }

  /** The facts the cell lemmas share: every letter's grid holds its mean at (i, j). */
  predicate LettersAt(t: Table, name: string, i: nat, j: nat, m: map<string, real>)
    requires WellShaped(t) && i < |t.times| && j < |t.heights|
  {
    forall c :: c in name ==> [c] in t.data && [c] in m && t.data[[c]][i][j] == Some(m[[c]])
  }

  lemma CorrectionCell2(t: Table, name: string, i: nat, j: nat, m: map<string, real>)
    requires WellShaped(t) && |name| == 2 && i < |t.times| && j < |t.heights|
    requires LettersAt(t, name, i, j, m) && name in t.data
    ensures ReadsPresent(t.data.Keys, name)
    ensures Correction(t, name)[i][j] == Some(LetterProduct(m, name))
  {
    var s := name;
    assert s[0] in s && s[1] in s;
    var a, b := t.data[[s[0]]], t.data[[s[1]]];
    var x, y := m[[s[0]]], m[[s[1]]];
    assert HasShape(a, |t.times|, |t.heights|) && HasShape(b, |t.times|, |t.heights|);
    assert s[|s|..] == [] && s[0..] == s;
    LetterProductStep(m, s, 1);
    LetterProductStep(m, s, 0);
    assert Apply(Multiply, x, y) == x * y;
    CombineCell(Multiply, a, b, i, j, x, y);
    assert Letter(s, 0) == [s[0]] && Letter(s, 1) == [s[1]];
    assert Correction(t, s) == Combine(Multiply, a, b);
    assert LetterProduct(m, s) == x * (y * 1.0);
  }

  lemma CorrectionCell3(t: Table, name: string, i: nat, j: nat, m: map<string, real>)
    requires WellShaped(t) && |name| == 3 && i < |t.times| && j < |t.heights|
    requires LettersAt(t, name, i, j, m) && name in t.data
    ensures ReadsPresent(t.data.Keys, name)
    ensures Correction(t, name)[i][j] == Some(LetterProduct(m, name))
  {
    var s := name;
    assert s[0] in s && s[1] in s && s[2] in s;
    var a, b, c := t.data[[s[0]]], t.data[[s[1]]], t.data[[s[2]]];
    var x, y, z := m[[s[0]]], m[[s[1]]], m[[s[2]]];
    var rows, cols := |t.times|, |t.heights|;
    assert HasShape(a, rows, cols) && HasShape(b, rows, cols) && HasShape(c, rows, cols);
    LetterProduct3(m, s);
    assert x * y * z == x * (y * (z * 1.0));
    assert Apply(Multiply, x, y) == x * y && Apply(Multiply, x * y, z) == x * y * z;
    CombineCell(Multiply, a, b, i, j, x, y);
    CombineCell(Multiply, Combine(Multiply, a, b), c, i, j, x * y, z);
    assert Letter(s, 0) == [s[0]] && Letter(s, 1) == [s[1]] && Letter(s, 2) == [s[2]];
    assert Correction(t, s) == Combine(Multiply, Combine(Multiply, a, b), c);
    assert Correction(t, s)[i][j] == Some(x * y * z);
    assert LetterProduct(m, s) == x * (y * (z * 1.0));
  }

  lemma LetterProduct3(m: map<string, real>, s: string)
    requires |s| == 3 && forall c :: c in s ==> [c] in m
    ensures LetterProduct(m, s) == m[[s[0]]] * (m[[s[1]]] * (m[[s[2]]] * 1.0))
  {
    assert s[|s|..] == [] && s[0..] == s;
    LetterProductStep(m, s, 2);
    LetterProductStep(m, s, 1);
    LetterProductStep(m, s, 0);
  }

  lemma CorrectionCell4(t: Table, name: string, i: nat, j: nat, m: map<string, real>)
    requires WellShaped(t) && |name| == 4 && Repeated(name) && i < |t.times| && j < |t.heights|
    requires LettersAt(t, name, i, j, m) && name in t.data
    ensures ReadsPresent(t.data.Keys, name)
    ensures Correction(t, name)[i][j] == Some(LetterProduct(m, name))
  {
    var s := name;
    assert s[0] in s;
    var a := t.data[[s[0]]];
    var x := m[[s[0]]];
    assert HasShape(a, |t.times|, |t.heights|);
    LetterProduct4(m, s);
    assert x * x * x * x == x * (x * (x * (x * 1.0)));
    assert Apply(Multiply, x, x) == x * x && Apply(Multiply, x * x, x) == x * x * x;
    assert Apply(Multiply, x * x * x, x) == x * x * x * x;
    CombineCell(Multiply, a, a, i, j, x, x);
    CombineCell(Multiply, Combine(Multiply, a, a), a, i, j, x * x, x);
    CombineCell(Multiply, Combine(Multiply, Combine(Multiply, a, a), a), a, i, j, x * x * x, x);
    assert Letter(s, 0) == [s[0]];
    assert Correction(t, s) == Combine(Multiply, Combine(Multiply, Combine(Multiply, a, a), a), a);
    assert Correction(t, s)[i][j] == Some(x * x * x * x);
    assert LetterProduct(m, s) == x * (x * (x * (x * 1.0)));
  }

  lemma LetterProduct4(m: map<string, real>, s: string)
    requires |s| == 4 && Repeated(s) && forall c :: c in s ==> [c] in m
    ensures LetterProduct(m, s) == m[[s[0]]] * (m[[s[0]]] * (m[[s[0]]] * (m[[s[0]]] * 1.0)))
  {
    assert s[|s|..] == [] && s[0..] == s;
    assert s[1] == s[0] && s[2] == s[0] && s[3] == s[0];
    LetterProductStep(m, s, 3);
    LetterProductStep(m, s, 2);
    LetterProductStep(m, s, 1);
    LetterProductStep(m, s, 0);
  }

  /**
   * Where every grid a correction reads holds a number, the corrected cell is the
   * central statistic of those numbers; a fourth moment must be a repeated
   * letter, the only case the source's `x ** 4` covers.
   */
  lemma CorrectedCell(t: Table, name: string, i: nat, j: nat, m: map<string, real>)
    requires WellShaped(t) && 2 <= |name| <= 4
    requires |name| == 4 ==> Repeated(name)
    requires i < |t.times| && j < |t.heights|
    requires name in t.data && name in m && t.data[name][i][j] == Some(m[name])
    requires LettersAt(t, name, i, j, m)
    ensures ReadsPresent(t.data.Keys, name)
    ensures CorrectedGrid(t, name)[i][j] == Some(m[name] - LetterProduct(m, name))
  {
    if |name| == 2 {
      CorrectionCell2(t, name, i, j, m);
    } else if |name| == 3 {
      CorrectionCell3(t, name, i, j, m);
    } else {
      CorrectionCell4(t, name, i, j, m);
    }
    var corr := Correction(t, name);
    assert HasShape(t.data[name], |t.times|, |t.heights|);
    assert Apply(Subtract, m[name], LetterProduct(m, name)) == m[name] - LetterProduct(m, name);
    CombineCell(Subtract, t.data[name], corr, i, j, m[name], LetterProduct(m, name));
  }

  /** A statistic missing at a cell stays missing after its correction. */
  lemma MissingCellStaysMissing(t: Table, name: string, i: nat, j: nat)
    requires WellShaped(t) && 2 <= |name| <= 4
    requires ReadsPresent(t.data.Keys, name)
    requires i < |t.times| && j < |t.heights|
    requires t.data[name][i][j] == None
    ensures CorrectedGrid(t, name)[i][j] == None
  {
  }

  /** The means `m` hold everything the central statistic of `name` needs. */
  predicate CentralDefined(m: map<string, real>, name: string, g: Guard) {
    name in m && (IsCorrected(g, name) ==> forall c :: c in name ==> [c] in m)
  }

  /** Letters of a resolvable corrected name are statistics, so they hold their means. */
  lemma LettersFromCells(t: Table, names: seq<string>, g: Guard, n: string, i: nat, j: nat, m: map<string, real>)
    requires WellShaped(t) && i < |t.times| && j < |t.heights|
    requires CellsFrom(t, names, i, j, m, true)
    requires IsCorrected(g, n) && (|n| == 4 ==> Repeated(n))
    requires Resolvable(t.data.Keys, n, g)
    ensures LettersAt(t, n, i, j, m)
  {
    forall c | c in n ensures [c] in t.data && [c] in m && t.data[[c]][i][j] == Some(m[[c]]) {
      assert Letter(n, 0) in Reads(n);
      var p :| 0 <= p < |n| && n[p] == c;
      if |n| < 4 {
        assert Letter(n, p) in Reads(n);
      } else {
        assert n[p] == n[0];
      }
      assert [c] == Letter(n, p);
    }
  }

  /**
   * Correcting every statistic of such a table at once leaves, at (i, j), the
   * central statistic of the means, or a missing value where the pair is absent.
   */
  lemma SimultaneousCellFrom(t: Table, names: seq<string>, g: Guard, n: string, i: nat, j: nat,
                             m: map<string, real>, present: bool)
    requires WellShaped(t) && i < |t.times| && j < |t.heights|
    requires CellsFrom(t, names, i, j, m, present)
    requires forall x :: x in names ==> Resolvable(t.data.Keys, x, g)
    requires n in names && (|n| == 4 ==> Repeated(n))
    ensures n in Simultaneous(t, names, g).data
    ensures var c := Simultaneous(t, names, g).data[n][i][j];
            if present then CentralDefined(m, n, g) && c == Some(Central(m, n, g)) else c == None
  {
    assert n in t.data;
    SimultaneousGridCell(t, names, g, n, i, j, m, present);
  }

  lemma SimultaneousGridCell(t: Table, names: seq<string>, g: Guard, n: string, i: nat, j: nat,
                             m: map<string, real>, present: bool)
    requires WellShaped(t) && i < |t.times| && j < |t.heights|
    requires CellsFrom(t, names, i, j, m, present)
    requires forall x :: x in names ==> Resolvable(t.data.Keys, x, g)
    requires n in names && n in t.data && (|n| == 4 ==> Repeated(n))
    ensures var c := SimultaneousGrid(t, names, g, n)[i][j];
            if present then CentralDefined(m, n, g) && c == Some(Central(m, n, g)) else c == None
  {
    assert Resolvable(t.data.Keys, n, g);
    if !IsCorrected(g, n) {
      UncorrectedGridCell(t, names, g, n, i, j, m, present);
    } else if present {
      LettersFromCells(t, names, g, n, i, j, m);
      CorrectedGridCell(t, names, g, n, i, j, m);
    } else {
      MissingCellStaysMissing(t, n, i, j);
      assert SimultaneousGrid(t, names, g, n) == CorrectedGrid(t, n);
    }
  }

  lemma UncorrectedGridCell(t: Table, names: seq<string>, g: Guard, n: string, i: nat, j: nat,
                            m: map<string, real>, present: bool)
    requires WellShaped(t) && i < |t.times| && j < |t.heights|
    requires CellsFrom(t, names, i, j, m, present)
    requires forall x :: x in names ==> Resolvable(t.data.Keys, x, g)
    requires n in t.data && !IsCorrected(g, n)
    ensures var c := SimultaneousGrid(t, names, g, n)[i][j];
            if present then CentralDefined(m, n, g) && c == Some(Central(m, n, g)) else c == None
  {
  }

  lemma CorrectedGridCell(t: Table, names: seq<string>, g: Guard, n: string, i: nat, j: nat, m: map<string, real>)
    requires WellShaped(t) && i < |t.times| && j < |t.heights|
    requires forall x :: x in names ==> Resolvable(t.data.Keys, x, g)
    requires n in names && n in t.data && (|n| == 4 ==> Repeated(n)) && IsCorrected(g, n)
    requires n in m && t.data[n][i][j] == Some(m[n])
    requires LettersAt(t, n, i, j, m)
    ensures CentralDefined(m, n, g) && SimultaneousGrid(t, names, g, n)[i][j] == Some(Central(m, n, g))
  {
    CorrectedCell(t, n, i, j, m);
  }
}
