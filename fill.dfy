/** The loop shape shared by `advect` and the two non-iterative phases of
    `project`: a double loop over the interior, column by column and bottom to
    top inside a column, that writes each interior cell of one buffer once
    with a value computed from other buffers (or from the cell's own old
    value). Such a loop leaves every interior cell (x, y) equal to f(x, y) and
    every ghost cell as it was, whatever the order of the writes. */
module CellFill {
  import opened Layout
  import opened Walls

  /** Column i after its cells (i, 1) .. (i, j) were written with f. */
  ghost function FillColumn(w: nat, h: nat, t: seq<real>, f: (int, int) -> real, i: int, j: nat): (r: seq<real>)
    requires |t| == Size(w, h) && 1 <= i <= w && j <= h
    ensures |r| == |t|
    decreases j
  {
    if j == 0 then t
    else
      IndexInRange(w, h, i, j);
      FillColumn(w, h, t, f, i, j - 1)[Index(w, i, j) := f(i, j)]
  }

  /** The buffer after columns 1 .. i were written with f. */
  ghost function FillColumns(w: nat, h: nat, t: seq<real>, f: (int, int) -> real, i: nat): (r: seq<real>)
    requires |t| == Size(w, h) && i <= w
    ensures |r| == |t|
    decreases i
  {
    if i == 0 then t else FillColumn(w, h, FillColumns(w, h, t, f, i - 1), f, i, h)
  }

  /** The buffer after the whole double loop. */
  ghost function Filled(w: nat, h: nat, t: seq<real>, f: (int, int) -> real): (r: seq<real>)
    requires |t| == Size(w, h)
    ensures |r| == |t|
  {
    FillColumns(w, h, t, f, w)
  }

  /** Inside column i, the cells up to row j hold f; every other cell is kept. */
  lemma {:induction false} FillColumnCells(w: nat, h: nat, t: seq<real>, f: (int, int) -> real, i: int, j: nat)
    requires |t| == Size(w, h) && 1 <= i <= w && j <= h
    ensures forall x, y :: InGrid(w, h, x, y) ==>
      0 <= Index(w, x, y) < |t| &&
      FillColumn(w, h, t, f, i, j)[Index(w, x, y)] ==
        (if x == i && 1 <= y <= j then f(x, y) else t[Index(w, x, y)])
    decreases j
  {
    IndexRange(w, h);
    if j > 0 {
      FillColumnCells(w, h, t, f, i, j - 1);
      IndexDistinct(w, h);
    }
  }

  /** Columns 1..i hold f on rows 1..h; every other cell is kept. */
  lemma {:induction false} FillColumnsCells(w: nat, h: nat, t: seq<real>, f: (int, int) -> real, i: nat)
    requires |t| == Size(w, h) && i <= w
    ensures forall x, y :: InGrid(w, h, x, y) ==>
      0 <= Index(w, x, y) < |t| &&
      FillColumns(w, h, t, f, i)[Index(w, x, y)] ==
        (if 1 <= x <= i && 1 <= y <= h then f(x, y) else t[Index(w, x, y)])
    decreases i
  {
    IndexRange(w, h);
    if i > 0 {
      FillColumnsCells(w, h, t, f, i - 1);
      FillColumnCells(w, h, FillColumns(w, h, t, f, i - 1), f, i, h);
    }
  }

  /** The double loop writes f on exactly the interior. */
  lemma FilledCells(w: nat, h: nat, t: seq<real>, f: (int, int) -> real)
    requires |t| == Size(w, h)
    ensures forall x, y :: InGrid(w, h, x, y) ==>
      0 <= Index(w, x, y) < |t| &&
      Filled(w, h, t, f)[Index(w, x, y)] == (if Inside(w, h, x, y) then f(x, y) else t[Index(w, x, y)])
  {
    FillColumnsCells(w, h, t, f, w);
  }

  /** When the loop reaches cell (i, j), that cell still holds its value
      from before the loop. */
  lemma FillAhead(w: nat, h: nat, t: seq<real>, f: (int, int) -> real, i: int, j: int)
    requires |t| == Size(w, h) && 1 <= i <= w && 1 <= j <= h
    ensures 0 <= Index(w, i, j) < |t|
    ensures FillColumn(w, h, FillColumns(w, h, t, f, i - 1), f, i, j - 1)[Index(w, i, j)] == t[Index(w, i, j)]
  {
    FillColumnsCells(w, h, t, f, i - 1);
    FillColumnCells(w, h, FillColumns(w, h, t, f, i - 1), f, i, j - 1);
  }

  /** The cell function of a loop that writes the constant c. */
  function Constant(c: real): (int, int) -> real
  {
    (x, y) => c
  }

  /** Writing zeros into the interior and then setting the border of any
      kind leaves an all-zero buffer, whatever the buffer held before. */
  lemma WalledFillZeros(w: nat, h: nat, b: int, t: seq<real>, f: (int, int) -> real)
    requires w >= 1 && h >= 1 && |t| == Size(w, h)
    requires forall x, y :: Inside(w, h, x, y) ==> f(x, y) == 0.0
    ensures Walled(w, h, b, Filled(w, h, t, f)) == Zeros(Size(w, h))
  {
    var z := Zeros(Size(w, h));
    FilledCells(w, h, t, f);
    IndexRange(w, h);
    assert SameInterior(w, h, Filled(w, h, t, f), z);
    WalledReadsInterior(w, h, b, Filled(w, h, t, f), z);
    WalledZeros(w, h, b);
  }
}
