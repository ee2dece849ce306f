/**
 * Where the rows and cells of a width x height grid lie in a flat buffer
 * whose row 0 starts at `offset` (rtengine/array2D.h, lines 96, 115, 138),
 * and the facts about that layout the rest of the model relies on: every
 * cell lies in [offset, offset + width * height), distinct cells lie at
 * distinct places, and every place in that range is a cell.
 */
module RowLayout {

  /** a * n written as n additions of a. Products appear in the layout only
    * through this function, which the verifier unfolds one step at a time,
    * so the grid's contracts stay linear; MulIsProduct ties it back to `*`. */
  function Mul(a: nat, n: nat): nat
  {
    if n == 0 then 0 else Mul(a, n - 1) + a
  }

  lemma {:induction false} MulIsProduct(a: nat, n: nat)
    ensures Mul(a, n) == a * n
  {
    if n > 0 {
      MulIsProduct(a, n - 1);
      assert a * (n - 1) + a == a * n;
    }
  }

  lemma {:induction false} MulMonotonic(a: nat, i: nat, n: nat)
    requires i <= n
    ensures Mul(a, i) <= Mul(a, n)
  {
    if i < n {
      MulMonotonic(a, i, n - 1);
    }
  }

  lemma {:induction false} MulPositive(a: nat, n: nat)
    requires Mul(a, n) > 0
    ensures a > 0
  {
    if n > 0 && Mul(a, n - 1) > 0 {
      MulPositive(a, n - 1);
    }
  }

  /** Division by a positive width splits d into whole rows and a remainder. */
  lemma QuotientRow(d: nat, width: nat)
    requires width > 0
    ensures Mul(width, d / width) + d % width == d
  {
    MulIsProduct(width, d / width);
  }

  /** Flat index of the first element of row i. */
  function RowStart(offset: nat, width: nat, i: nat): nat
  {
    offset + Mul(width, i)
  }

  /** Flat index of element j of row i. */
  function CellIndex(offset: nat, width: nat, i: nat, j: nat): nat
  {
    RowStart(offset, width, i) + j
  }

  /** Row i, width elements long, ends inside the grid's footprint. */
  lemma RowInFootprint(offset: nat, width: nat, height: nat, i: nat)
    requires i < height
    ensures offset <= RowStart(offset, width, i)
    ensures RowStart(offset, width, i) + width <= offset + Mul(width, height)
  {
    MulMonotonic(width, i + 1, height);
  }

  lemma CellInFootprint(offset: nat, width: nat, height: nat, i: nat, j: nat)
    requires i < height && j < width
    ensures offset <= CellIndex(offset, width, i, j) < offset + Mul(width, height)
  {
    RowInFootprint(offset, width, height, i);
  }

  lemma AllCellsInFootprint(offset: nat, width: nat, height: nat)
    ensures forall i, j :: 0 <= i < height && 0 <= j < width ==>
              offset <= CellIndex(offset, width, i, j) < offset + Mul(width, height)
  {
    forall i, j | 0 <= i < height && 0 <= j < width
      ensures offset <= CellIndex(offset, width, i, j) < offset + Mul(width, height)
    {
      CellInFootprint(offset, width, height, i, j);
    }
  }

  /** Every cell of a row before row i lies before row i starts. */
  lemma CellBeforeRow(offset: nat, width: nat, k: nat, i: nat, j: nat)
    requires k < i && j < width
    ensures CellIndex(offset, width, k, j) < RowStart(offset, width, i)
  {
    MulMonotonic(width, k + 1, i);
  }

  /** Distinct cells never share a flat index: rows do not overlap. */
  lemma CellIndexInjective(offset: nat, width: nat, i: nat, j: nat, i2: nat, j2: nat)
    requires j < width && j2 < width
    requires CellIndex(offset, width, i, j) == CellIndex(offset, width, i2, j2)
    ensures i == i2 && j == j2
  {
    if i < i2 {
      CellBeforeRow(offset, width, i, i2, j);
    } else if i2 < i {
      CellBeforeRow(offset, width, i2, i, j2);
    }
  }

  /** Every flat index of the footprint is the index of exactly the cell
    * given by its quotient and remainder by the width. */
  lemma CellIndexCovers(offset: nat, width: nat, height: nat, k: nat)
    requires offset <= k < offset + Mul(width, height)
    ensures width > 0
    ensures (k - offset) / width < height
    ensures CellIndex(offset, width, (k - offset) / width, (k - offset) % width) == k
  {
    MulPositive(width, height);
    var d := k - offset;
    var i, j := d / width, d % width;
    QuotientRow(d, width);
    if height <= i {
      MulMonotonic(width, height, i);
    }
  }

  /** Writing one cell of a flat buffer and reading any cell back gives the
    * value written exactly at that cell and the old value everywhere else. */
  lemma WriteThenReadCell<T>(s: seq<T>, offset: nat, width: nat, height: nat,
                             i: nat, j: nat, i2: nat, j2: nat, v: T)
    requires offset + Mul(width, height) <= |s|
    requires i < height && j < width && i2 < height && j2 < width
    ensures CellIndex(offset, width, i, j) < |s| && CellIndex(offset, width, i2, j2) < |s|
    ensures s[CellIndex(offset, width, i, j) := v][CellIndex(offset, width, i2, j2)]
            == if i == i2 && j == j2 then v else s[CellIndex(offset, width, i2, j2)]
  {
    CellInFootprint(offset, width, height, i, j);
    CellInFootprint(offset, width, height, i2, j2);
    if CellIndex(offset, width, i, j) == CellIndex(offset, width, i2, j2) {
      CellIndexInjective(offset, width, i, j, i2, j2);
    }
  }

  /** Setting the flat prefix [0, width * height) reaches every cell of a
    * non-empty grid exactly when the grid starts at offset 0. */
  lemma PrefixReachesEveryCellIffNoOffset(offset: nat, width: nat, height: nat)
    requires width > 0 && height > 0
    ensures (forall i, j :: 0 <= i < height && 0 <= j < width ==>
               CellIndex(offset, width, i, j) < Mul(width, height))
            <==> offset == 0
  {
    if offset == 0 {
      forall i, j | 0 <= i < height && 0 <= j < width
        ensures CellIndex(offset, width, i, j) < Mul(width, height)
      {
        CellInFootprint(offset, width, height, i, j);
      }
    } else {
      assert CellIndex(offset, width, height - 1, width - 1) >= Mul(width, height);
    }
  }
}
