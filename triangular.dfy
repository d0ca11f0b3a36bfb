/** `ind2sub4up`: subscripts from a linear index into the cells strictly
    above the diagonal of a square matrix.  The cells are enumerated column by
    column, top to bottom: (1,2), (1,3), (2,3), (1,4), (2,4), (3,4), ...
    Everything is 1-based, as in the notebook routine. */
module Triangular {

  /** Number of cells strictly above the diagonal of an m-by-m matrix, that is
      the number of unordered pairs of m items. */
  function Pairs(m: nat): nat
  {
    if m == 0 then 0 else Pairs(m - 1) + (m - 1)
  }

  /** The closed form the notebook uses, `m * (m - 1) / 2`. */
  lemma {:induction false} PairsClosedForm(m: nat)
    ensures 2 * Pairs(m) == m * (m - 1)
    ensures Pairs(m) == m * (m - 1) / 2
  {
    if m > 0 {
      PairsClosedForm(m - 1);
    }
  }

  lemma {:induction false} PairsMonotone(a: nat, b: nat)
    requires a <= b
    ensures Pairs(a) <= Pairs(b)
    decreases b - a
  {
    if a < b {
      PairsMonotone(a, b - 1);
    }
  }

  /** Integer square root: the largest r with r * r <= n.  This is the exact
      value that `floor(sqrt(.))` is meant to compute on the float path. */
  function ISqrt(n: nat): (r: nat)
    ensures r * r <= n < (r + 1) * (r + 1)
    decreases n
  {
    if n == 0 then 0
    else
      var s := 2 * ISqrt(n / 4);
      ISqrtDouble(n, s / 2);
      if (s + 1) * (s + 1) <= n then s + 1 else s
  }

  /** Doubling the root of n / 4 gives s with s * s <= n < (s + 2) * (s + 2). */
  lemma ISqrtDouble(n: nat, h: nat)
    requires h * h <= n / 4 < (h + 1) * (h + 1)
    ensures (2 * h) * (2 * h) <= n < (2 * h + 2) * (2 * h + 2)
  {
    assert (2 * h) * (2 * h) == 4 * (h * h);
    assert (2 * h + 2) * (2 * h + 2) == 4 * ((h + 1) * (h + 1));
  }

  /** A 1-based (row, column) subscript. */
  datatype Cell = Cell(i: int, j: int)

  /** `ind2sub4up(IND)`: J = floor(-1/2 + sqrt(1 + 8 (IND - 1)) / 2) + 2 and
      I = J (3 - J) / 2 + IND - 1, with the floor of the square root taken
      exactly.  The result is the cell of column J whose position within
      that column is I, where columns 1 .. J-1 hold Pairs(J - 1) cells. */
  function Ind2Sub4Up(ind: int): (c: Cell)
    requires ind >= 1
    ensures 1 <= c.i < c.j
    ensures Pairs(c.j - 1) < ind <= Pairs(c.j)
    ensures c.i == ind - Pairs(c.j - 1)
  {
    var s := ISqrt(1 + 8 * (ind - 1));
    var j := (s - 1) / 2 + 2;
    var i := j * (3 - j) / 2 + ind - 1;
    SubscriptsOfIndex(ind, s);
    Cell(i, j)
  }

  /** The subscripts computed from the root s of 1 + 8 (IND - 1) are those
      of the cell at position IND. */
  lemma SubscriptsOfIndex(ind: int, s: nat)
    requires ind >= 1
    requires s * s <= 1 + 8 * (ind - 1) < (s + 1) * (s + 1)
    ensures var j := (s - 1) / 2 + 2;
      var i := j * (3 - j) / 2 + ind - 1;
      && 1 <= i < j
      && Pairs(j - 1) < ind <= Pairs(j)
      && i == ind - Pairs(j - 1)
  {
    ColumnOfIndex(ind - 1, s);
  }

  /** The root s of 1 + 8 t determines p = (s - 1) / 2 as the column offset
      p with Pairs(p + 1) <= t < Pairs(p + 2). */
  lemma ColumnOfIndex(t: nat, s: nat)
    requires s * s <= 1 + 8 * t < (s + 1) * (s + 1)
    ensures s >= 1
    ensures var p := (s - 1) / 2;
      var j := p + 2;
      && Pairs(j - 1) <= t < Pairs(j)
      && j * (3 - j) / 2 + t == t - Pairs(j - 1) + 1
  {
    RootPositive(t, s);
    var p := (s - 1) / 2;
    RootColumn(t, s, p);
    PairsOfOffset(p);
  }

  lemma RootPositive(t: nat, s: nat)
    requires 1 + 8 * t < (s + 1) * (s + 1)
    ensures s >= 1
  {
  }

  /** In terms of p * p: p (p + 1) <= 2 t < (p + 1) (p + 2). */
  lemma RootColumn(t: nat, s: nat, p: nat)
    requires s * s <= 1 + 8 * t < (s + 1) * (s + 1)
    requires s >= 1 && p == (s - 1) / 2
    ensures p * p + p <= 2 * t < p * p + 3 * p + 2
  {
    if s % 2 == 1 {
      SquareOdd(s, p);
    } else {
      SquareEven(s, p);
    }
  }

  /** Pairs(p + 1), Pairs(p + 2) and the row offset of column p + 2, in terms of p * p. */
  lemma PairsOfOffset(p: nat)
    ensures 2 * Pairs(p + 1) == p * p + p
    ensures 2 * Pairs(p + 2) == p * p + 3 * p + 2
    ensures (p + 2) * (3 - (p + 2)) == 2 - 2 * Pairs(p + 1)
  {
    PairsClosedForm(p + 1);
    PairsClosedForm(p + 2);
    assert (p + 1) * p == p * p + p;
    assert (p + 2) * (p + 1) == p * p + 3 * p + 2;
    assert (p + 2) * (1 - p) == 2 - p * p - p;
  }

  lemma SquareOdd(s: nat, p: nat)
    requires s == 2 * p + 1
    ensures s * s == 4 * (p * p) + 4 * p + 1
    ensures (s + 1) * (s + 1) == 4 * (p * p) + 8 * p + 4
  {
  }

  lemma SquareEven(s: nat, p: nat)
    requires s == 2 * p + 2
    ensures s * s == 4 * (p * p) + 8 * p + 4
    ensures (s + 1) * (s + 1) == 4 * (p * p) + 12 * p + 9
  {
  }

  /** The inverse map: the linear index of cell (i, j). */
  function Sub2Ind4Up(i: int, j: int): (ind: int)
    requires 1 <= i < j
    ensures ind >= 1
  {
    Pairs(j - 1) + i
  }

  /** The first linear index names the first cell above the diagonal. */
  lemma Ind2Sub4UpFirst()
    ensures Ind2Sub4Up(1) == Cell(1, 2)
  {
  }

  lemma Sub2IndInd2Sub(ind: int)
    requires ind >= 1
    ensures var c := Ind2Sub4Up(ind); Sub2Ind4Up(c.i, c.j) == ind
  {
  }

  /** Each column j holds exactly the indices Pairs(j-1)+1 .. Pairs(j), so the
      round trip from a cell (i, j) with i < j comes back to that cell. */
  lemma Ind2SubSub2Ind(i: int, j: int)
    requires 1 <= i < j
    ensures Ind2Sub4Up(Sub2Ind4Up(i, j)) == Cell(i, j)
  {
    var ind := Sub2Ind4Up(i, j);
    var c := Ind2Sub4Up(ind);
    PairsClosedForm(j - 1);
    PairsClosedForm(j);
    if c.j < j {
      PairsMonotone(c.j, j - 1);
    } else if c.j > j {
      PairsMonotone(j, c.j - 1);
    }
  }

  /** The cell of any index written as Pairs(j - 1) + i with 1 <= i < j. */
  lemma Ind2Sub4UpAt(ind: int, i: int, j: int)
    requires 1 <= i < j && ind == Pairs(j - 1) + i
    ensures Ind2Sub4Up(ind) == Cell(i, j)
  {
    Ind2SubSub2Ind(i, j);
  }

  /** Distinct linear indices name distinct cells. */
  lemma Ind2Sub4UpInjective(a: int, b: int)
    requires a >= 1 && b >= 1
    requires Ind2Sub4Up(a) == Ind2Sub4Up(b)
    ensures a == b
  {
    Sub2IndInd2Sub(a);
    Sub2IndInd2Sub(b);
  }

  /** For an m-by-m matrix: an index lies in 1 .. m(m-1)/2 exactly when its
      cell lies in the matrix (column at most m). */
  lemma Ind2Sub4UpInMatrix(ind: int, m: nat)
    requires ind >= 1
    ensures ind <= Pairs(m) <==> Ind2Sub4Up(ind).j <= m
  {
    var c := Ind2Sub4Up(ind);
    if c.j <= m {
      PairsMonotone(c.j, m);
    } else {
      PairsMonotone(m, c.j - 1);
    }
  }

  /** Every cell (i, j) with 1 <= i < j <= m has an index in 1 .. m(m-1)/2:
      together with the lemmas above, Ind2Sub4Up restricted to that range
      is a bijection onto the cells above the diagonal. */
  lemma Sub2Ind4UpInMatrix(i: int, j: int, m: nat)
    requires 1 <= i < j <= m
    ensures 1 <= Sub2Ind4Up(i, j) <= Pairs(m)
  {
    PairsMonotone(j, m);
  }
}
