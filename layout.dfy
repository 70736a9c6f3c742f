/** Grid layout of the fluid solver: a W x H simulation grid stored as one flat
    array of (W+2)*(H+2) cells, with a one-cell ghost border on every side.
    Cell (x, y) lives at position x + y*(W+2); columns 0 and W+1 and rows 0 and
    H+1 are the ghost border, columns 1..W and rows 1..H the interior. */
module Layout {

  /** Position of cell (0, y): y rows of w + 2 cells. It is a repeated sum
      rather than a product so that the solver meets no nonlinear arithmetic
      in the proofs about positions; RowStartIsProduct gives the product. */
  function RowStart(w: nat, y: int): (r: int)
    ensures 0 <= y ==> 0 <= r
    decreases if y < 0 then -y else y
  {
    if y == 0 then 0
    else if y > 0 then RowStart(w, y - 1) + (w + 2)
    else RowStart(w, y + 1) - (w + 2)
  }

  lemma {:induction false} RowStartIsProduct(w: nat, y: int)
    ensures RowStart(w, y) == y * (w + 2)
    decreases if y < 0 then -y else y
  {
    if y > 0 {
      RowStartIsProduct(w, y - 1);
    } else if y < 0 {
      RowStartIsProduct(w, y + 1);
    }
  }

  /** Number of cells of every buffer: the solver's `arrSize`, (w + 2) * (h + 2). */
  function Size(w: nat, h: nat): nat
  {
    RowStart(w, h + 2)
  }

  /** The solver's `index(x, y)`, x + y * (w + 2). */
  function Index(w: nat, x: int, y: int): int
  {
    x + RowStart(w, y)
  }

  /** Column and row of a flat position: the inverse of `Index`. */
  function Col(w: nat, k: int): int
  {
    k % (w + 2)
  }

  function Row(w: nat, k: int): int
  {
    k / (w + 2)
  }

  /** (x, y) is a cell of the bordered grid. */
  predicate InGrid(w: nat, h: nat, x: int, y: int)
  {
    0 <= x <= w + 1 && 0 <= y <= h + 1
  }

  /** A buffer of n zeros, as `new Array(n).fill(0)` allocates it. */
  function Zeros(n: nat): (r: seq<real>)
    ensures |r| == n && forall k :: 0 <= k < n ==> r[k] == 0.0
  {
    seq(n, _ => 0.0)
  }

  /** (x, y) is a simulation cell, not a ghost. */
  predicate Inside(w: nat, h: nat, x: int, y: int)
  {
    1 <= x <= w && 1 <= y <= h
  }

  lemma MulLeft(a: int, b: int, m: int)
    requires a <= b && 0 <= m
    ensures a * m <= b * m
  {
    assert b * m - a * m == (b - a) * m;
  }

  /** Euclidean division is unique: q and r are the quotient and remainder of
      k by m whenever k = q * m + r with 0 <= r < m. */
  lemma DivModUnique(k: int, m: int, q: int, r: int)
    requires m > 0 && 0 <= r < m && k == q * m + r
    ensures k / m == q && k % m == r
  {
    var q', r' := k / m, k % m;
    assert q' * m + r' == q * m + r;
    if q' > q {
      assert (q + 1) * m == q * m + m;
      MulLeft(q + 1, q', m);
    } else if q' < q {
      assert (q' + 1) * m == q' * m + m;
      MulLeft(q' + 1, q, m);
    }
  }

  /** The position of a cell of the bordered grid is inside the buffer. */
  lemma IndexInRange(w: nat, h: nat, x: int, y: int)
    requires InGrid(w, h, x, y)
    ensures 0 <= Index(w, x, y) < Size(w, h)
  {
    var m := w + 2;
    RowStartIsProduct(w, y);
    RowStartIsProduct(w, h + 2);
    assert (h + 1) * m + m == (h + 2) * m;
    MulLeft(0, y, m);
    MulLeft(y, h + 1, m);
  }

  /** One cell: its position is in range and decodes back to (x, y). */
  lemma IndexCell(w: nat, h: nat, x: int, y: int)
    requires InGrid(w, h, x, y)
    ensures 0 <= Index(w, x, y) < Size(w, h)
    ensures Col(w, Index(w, x, y)) == x && Row(w, Index(w, x, y)) == y
  {
    IndexInRange(w, h, x, y);
    RowStartIsProduct(w, y);
    DivModUnique(Index(w, x, y), w + 2, y, x);
  }

  /** Every cell of the bordered grid has its position inside the buffer. */
  lemma IndexRange(w: nat, h: nat)
    ensures forall x, y {:trigger Index(w, x, y)} :: InGrid(w, h, x, y) ==> 0 <= Index(w, x, y) < Size(w, h)
  {
    forall x, y | InGrid(w, h, x, y)
      ensures 0 <= Index(w, x, y) < Size(w, h)
    {
      IndexInRange(w, h, x, y);
    }
  }

  /** Every pair of the bordered grid maps to a position inside the buffer, and
      distinct pairs to distinct positions (the position decodes back to the pair). */
  lemma IndexLayout(w: nat, h: nat)
    ensures forall x, y {:trigger Index(w, x, y)} :: InGrid(w, h, x, y) ==>
      0 <= Index(w, x, y) < Size(w, h) &&
      Col(w, Index(w, x, y)) == x && Row(w, Index(w, x, y)) == y
  {
    forall x, y | InGrid(w, h, x, y)
      ensures 0 <= Index(w, x, y) < Size(w, h)
      ensures Col(w, Index(w, x, y)) == x && Row(w, Index(w, x, y)) == y
    {
      IndexCell(w, h, x, y);
    }
  }

  /** `index` is injective on the bordered grid. */
  lemma IndexInjective(w: nat, h: nat, x1: int, y1: int, x2: int, y2: int)
    requires InGrid(w, h, x1, y1) && InGrid(w, h, x2, y2)
    ensures Index(w, x1, y1) == Index(w, x2, y2) <==> x1 == x2 && y1 == y2
  {
    IndexCell(w, h, x1, y1);
    IndexCell(w, h, x2, y2);
  }

  /** Distinct cells of the bordered grid have distinct positions. */
  lemma IndexDistinct(w: nat, h: nat)
    ensures forall x1, y1, x2, y2 {:trigger Index(w, x1, y1), Index(w, x2, y2)} ::
      InGrid(w, h, x1, y1) && InGrid(w, h, x2, y2) && (x1 != x2 || y1 != y2) ==>
      Index(w, x1, y1) != Index(w, x2, y2)
  {
    forall x1, y1, x2, y2 | InGrid(w, h, x1, y1) && InGrid(w, h, x2, y2) && (x1 != x2 || y1 != y2)
      ensures Index(w, x1, y1) != Index(w, x2, y2)
    {
      IndexInjective(w, h, x1, y1, x2, y2);
    }
  }

  /** Every position of the buffer is the index of exactly one pair of the
      bordered grid: the layout is a bijection onto [0, Size). */
  lemma Decode(w: nat, h: nat, k: int)
    requires 0 <= k < Size(w, h)
    ensures InGrid(w, h, Col(w, k), Row(w, k))
    ensures Index(w, Col(w, k), Row(w, k)) == k
  {
    var m := w + 2;
    RowStartIsProduct(w, h + 2);
    var q, r := k / m, k % m;
    RowStartIsProduct(w, q);
    assert k == q * m + r;
    if q > h + 1 {
      assert (h + 2) * m == Size(w, h);
      MulLeft(h + 2, q, m);
    }
    MulLeft(0, q, m);
    if q < 0 {
      MulLeft(q, -1, m);
    }
  }
}
