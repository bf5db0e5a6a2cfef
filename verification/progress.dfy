/** The fractions handed to the host's progress bar, kept exact as numerator/denominator
    pairs: 0 before the first row, `(y + 1) / height` after row `y`, and 1 at the end. */
module Progress {

  import opened Arith

  datatype Fraction = Fraction(num: nat, den: nat)

  ghost predicate Valid(f: Fraction)
  {
    0 < f.den
  }

  /** `a <= b` for fractions with positive denominators, by cross-multiplication. */
  predicate AtMost(a: Fraction, b: Fraction)
  {
    a.num * b.den <= b.num * a.den
  }

  /** The fraction denotes a value in [0, 1]. */
  ghost predicate InUnit(f: Fraction)
  {
    Valid(f) && f.num <= f.den
  }

  /** The fraction denotes exactly 1. */
  predicate IsOne(f: Fraction)
  {
    0 < f.den && f.num == f.den
  }

  /** The report made after finishing row `y` of `height`: `float(y + 1) / height`. */
  function RowDone(y: nat, height: nat): (f: Fraction)
    requires y < height
    ensures InUnit(f)
    ensures y + 1 == height ==> IsOne(f)
  {
    Fraction(y + 1, height)
  }

  /** Every value reported during one run, in order: the initial 0, one report per row, and
      the closing 1. */
  function Reports(height: nat): (r: seq<Fraction>)
    ensures |r| == height + 2
    ensures r[0].num == 0 && IsOne(r[|r| - 1])
    ensures forall i :: 0 <= i < |r| ==> InUnit(r[i])
  {
    [Fraction(0, 1)] + seq(height, y requires 0 <= y < height => RowDone(y, height)) + [Fraction(1, 1)]
  }

  /** The reports sent once `rows` rows are done: the initial 0 and one report per row. */
  function Progressed(rows: nat, height: nat): (r: seq<Fraction>)
    requires rows <= height
    ensures |r| == rows + 1
  {
    if rows == 0 then [Fraction(0, 1)] else Progressed(rows - 1, height) + [RowDone(rows - 1, height)]
  }

  /** After `rows` rows the reports are the initial 0 and `(y + 1) / height` for each row `y`. */
  lemma {:induction false} ProgressedRows(rows: nat, height: nat)
    requires rows <= height
    ensures Progressed(rows, height)
      == [Fraction(0, 1)] + seq(rows, y requires 0 <= y < rows => RowDone(y, height))
  {
    if rows > 0 {
      ProgressedRows(rows - 1, height);
      var r := Progressed(rows, height);
      assert forall i :: 0 <= i < |r| ==>
        r[i] == ([Fraction(0, 1)] + seq(rows, y requires 0 <= y < rows => RowDone(y, height)))[i];
    }
  }

  /** The reports gathered row by row over the whole image, closed with 1, are `Reports`. */
  lemma ProgressedComplete(height: nat)
    ensures Progressed(height, height) + [Fraction(1, 1)] == Reports(height)
  {
    ProgressedRows(height, height);
  }

  /** Reports only ever grow. */
  lemma ReportsMonotone(height: nat)
    ensures var r := Reports(height);
      forall i, j :: 0 <= i <= j < |r| ==> AtMost(r[i], r[j])
  {
    var r := Reports(height);
    forall i, j | 0 <= i <= j < |r|
      ensures AtMost(r[i], r[j])
    {
      if i == 0 {
      } else if j == |r| - 1 {
      } else {
        assert r[i] == Fraction(i, height) && r[j] == Fraction(j, height);
        MulMonotone(i, j, height);
      }
    }
  }

  /** When the image has rows, the last row already reports completion, so the closing 1
      repeats the value just shown. */
  lemma LastRowCompletes(height: nat)
    requires 0 < height
    ensures IsOne(Reports(height)[height])
  {
  }
}
