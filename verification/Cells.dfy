// Row-major cell indices. The index of row i, column j is i * width + j; it is defined by
// counting rows, and `RowMajor` gives the closed form.
module Cells {

  function Cell(width: nat, i: nat, j: nat): nat {
    if i == 0 then j else width + Cell(width, i - 1, j)
  }

  function Count(width: nat, height: nat): nat {
    Cell(width, height, 0)
  }

  function Row(width: nat, c: nat): nat
    requires width > 0
  {
    if c < width then 0 else 1 + Row(width, c - width)
  }

  function Col(width: nat, c: nat): (j: nat)
    requires width > 0
    ensures j < width
  {
    if c < width then c else Col(width, c - width)
  }

  lemma {:induction false} RowMajor(width: nat, i: nat, j: nat)
    ensures Cell(width, i, j) == i * width + j
  {
    if i > 0 {
      RowMajor(width, i - 1, j);
      assert (i - 1) * width == i * width - width;
    }
  }

  lemma {:induction false} Shift(width: nat, i: nat, j: nat)
    ensures Cell(width, i, j + 1) == Cell(width, i, j) + 1
    ensures Cell(width, i + 1, j) == Cell(width, i, j) + width
    ensures Cell(width, i, width) == Cell(width, i + 1, 0)
    ensures j <= Cell(width, i, j)
  {
    if i > 0 {
      Shift(width, i - 1, j);
    }
  }

  lemma {:induction false} InGrid(width: nat, height: nat, i: nat, j: nat)
    requires i < height && j < width
    ensures Cell(width, i, j) < Count(width, height)
  {
    if i > 0 {
      InGrid(width, height - 1, i - 1, j);
    }
  }

  lemma {:induction false} RowColOfCell(width: nat, i: nat, j: nat)
    requires j < width
    ensures Row(width, Cell(width, i, j)) == i && Col(width, Cell(width, i, j)) == j
  {
    if i > 0 {
      RowColOfCell(width, i - 1, j);
    }
  }

  lemma {:induction false} CellOfRowCol(width: nat, height: nat, c: nat)
    requires c < Count(width, height)
    ensures width > 0 && Row(width, c) < height
    ensures Cell(width, Row(width, c), Col(width, c)) == c
  {
    if c >= width {
      CellOfRowCol(width, height - 1, c - width);
    }
  }

  lemma MulMonotone(a: int, b: int, width: nat)
    requires a <= b
    ensures a * width <= b * width
  {
  }

  lemma DivMod(width: nat, height: nat, c: nat)
    requires c < Count(width, height)
    ensures width > 0 && Row(width, c) == c / width && Col(width, c) == c % width
  {
    CellOfRowCol(width, height, c);
    var i, j := Row(width, c), Col(width, c);
    RowMajor(width, i, j);
    if c / width < i {
      MulMonotone(c / width + 1, i, width);
    } else if c / width > i {
      MulMonotone(i + 1, c / width, width);
    }
  }
}
