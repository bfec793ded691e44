/**
 * The fixed, ordered registries of statistics names that `csv_to_xr`
 * binds to the data columns of a Neko statistics table.
 */
module Registry {

  /** The 11 "basic" statistics: means, variances and velocity covariances. */
  const Basic: seq<string> := ["p", "u", "v", "w", "pp", "uu", "vv", "ww", "uv", "uw", "vw"]

  /** The 44 "extended" statistics, laid out in the four source lines that list
      them: the basic ones and the third moments, the remaining third and the
      fourth moments, pressure-velocity and pressure-strain terms, and the last
      pressure-strain terms with the dissipation terms `e11` ... `e23`. */
  const ExtendedLine1: seq<string> :=
    ["p", "u", "v", "w", "pp", "uu", "vv", "ww", "uv", "uw", "vw", "uuu", "vvv", "www"]
  const ExtendedLine2: seq<string> :=
    ["uuv", "uuw", "uvv", "uvw", "vvw", "uww", "vww", "uuuu", "vvvv", "wwww", "ppp"]
  const ExtendedLine3: seq<string> :=
    ["pppp", "pu", "pv", "pw", "pdudx", "pdudy", "pdudz", "pdvdx", "pdvdy", "pdvdz"]
  const ExtendedLine4: seq<string> :=
    ["pdwdx", "pdwdy", "pdwdz", "e11", "e22", "e33", "e12", "e13", "e23"]

  const Extended: seq<string> := ExtendedLine1 + ExtendedLine2 + ExtendedLine3 + ExtendedLine4

  /** No name occurs twice. */
  predicate Distinct(names: seq<string>) {
    forall i, j :: 0 <= i < j < |names| ==> names[i] != names[j]
  }

  /**
   * The registry used for a table with `columns` columns: the basic one when it
   * is requested or when the table has exactly 11 data columns, the extended one
   * otherwise.
   */
  function Select(basic: bool, columns: nat): (names: seq<string>)
    ensures names == Basic <==> basic || columns as int - 2 == 11
    ensures names == Extended <==> !basic && columns as int - 2 != 11
    ensures "time" !in names
  {
    NoTimeName();
    if basic || columns as int - 2 == 11 then Basic else Extended
  }

  lemma BasicDistinct()
    ensures Distinct(Basic)
  {
  }

  /** Every name of the four lines is an extended name. */
  lemma ExtendedHoldsLines()
    ensures forall n :: n in ExtendedLine1 || n in ExtendedLine2 || n in ExtendedLine3 || n in ExtendedLine4 ==>
              n in Extended
  {
  }

  /** Two duplicate-free sequences with no common name concatenate to a duplicate-free one. */
  lemma DistinctConcat(a: seq<string>, b: seq<string>)
    requires Distinct(a) && Distinct(b)
    requires forall x :: x in a ==> x !in b
    ensures Distinct(a + b)
  {
    forall i, j | 0 <= i < j < |a + b| ensures (a + b)[i] != (a + b)[j] {
      if j < |a| {
      } else if i >= |a| {
        assert (a + b)[i] == b[i - |a|] && (a + b)[j] == b[j - |a|];
      } else {
        assert (a + b)[i] in a && (a + b)[j] == b[j - |a|];
      }
    }
  }

  lemma ExtendedLinesDistinct()
    ensures Distinct(ExtendedLine1) && Distinct(ExtendedLine2)
    ensures Distinct(ExtendedLine3) && Distinct(ExtendedLine4)
  {
  }

  lemma ExtendedLines12Disjoint()
    ensures forall x :: x in ExtendedLine1 ==> x !in ExtendedLine2
  {
  }

  lemma ExtendedLines3Disjoint()
    ensures forall x :: x in ExtendedLine1 + ExtendedLine2 ==> x !in ExtendedLine3
  {
  }

  lemma ExtendedLines4Disjoint()
    ensures forall x :: x in ExtendedLine1 + ExtendedLine2 + ExtendedLine3 ==> x !in ExtendedLine4
  {
    Line4DisjointFrom1();
    Line4DisjointFrom2();
    Line4DisjointFrom3();
  }

  lemma Line4DisjointFrom1()
    ensures forall x :: x in ExtendedLine1 ==> x !in ExtendedLine4
  {
  }

  lemma Line4DisjointFrom2()
    ensures forall x :: x in ExtendedLine2 ==> x !in ExtendedLine4
  {
  }

  lemma Line4DisjointFrom3()
    ensures forall x :: x in ExtendedLine3 ==> x !in ExtendedLine4
  {
  }

  /**
   * No statistic is named `e`, `1`, `2` or `3`: the dissipation terms `e11` ...
   * `e23` are spelled with these characters, but none of them names a variable.
   */
  lemma NoDissipationLetters()
    ensures "e" !in Extended && "1" !in Extended && "2" !in Extended && "3" !in Extended
  {
    NotALetterName('e');
    NotALetterName('1');
    NotALetterName('2');
    NotALetterName('3');
  }

  /** A one-character name other than `p`, `u`, `v` and `w` is no statistic. */
  lemma NotALetterName(c: char)
    requires c != 'p' && c != 'u' && c != 'v' && c != 'w'
    ensures [c] !in Extended
  {
    OneLetterNames();
    assert |[c]| == 1 && [c][0] == c;
  }

  /** The only one-letter statistics are the means `p`, `u`, `v` and `w`. */
  lemma OneLetterNames()
    ensures forall x :: x in Extended && |x| == 1 ==> x[0] == 'p' || x[0] == 'u' || x[0] == 'v' || x[0] == 'w'
  {
    assert forall x :: x in Extended ==> x in ExtendedLine1 || x in ExtendedLine2 || x in ExtendedLine3 || x in ExtendedLine4;
    Line1Letters();
    LaterLinesLonger();
  }

  lemma Line1Letters()
    ensures forall x :: x in ExtendedLine1 && |x| == 1 ==> x[0] == 'p' || x[0] == 'u' || x[0] == 'v' || x[0] == 'w'
  {
  }

  lemma LaterLinesLonger()
    ensures forall x :: x in ExtendedLine2 || x in ExtendedLine3 || x in ExtendedLine4 ==> |x| >= 2
  {
  }

  /** No statistic is called `time`, the label of the first column. */
  lemma NoTimeName()
    ensures "time" !in Basic && "time" !in Extended
  {
    assert forall x :: x in Extended ==> x in ExtendedLine1 || x in ExtendedLine2 || x in ExtendedLine3 || x in ExtendedLine4;
    assert forall x :: x in Basic ==> x in ExtendedLine1;
    NoLineStartsWithT();
    assert "time"[0] == 't';
  }

  lemma NoLineStartsWithT()
    ensures forall x :: x in ExtendedLine1 || x in ExtendedLine2 || x in ExtendedLine3 || x in ExtendedLine4 ==> x[0] != 't'
  {
  }

  /** No statistic is listed twice, so positional binding gives every column its own name. */
  lemma ExtendedDistinct()
    ensures Distinct(Extended)
  {
    ExtendedLinesDistinct();
    ExtendedLines12Disjoint();
    DistinctConcat(ExtendedLine1, ExtendedLine2);
    ExtendedLines3Disjoint();
    DistinctConcat(ExtendedLine1 + ExtendedLine2, ExtendedLine3);
    ExtendedLines4Disjoint();
    DistinctConcat(ExtendedLine1 + ExtendedLine2 + ExtendedLine3, ExtendedLine4);
  }

}
