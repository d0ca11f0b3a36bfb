/** `AR_index(c1, c2)`: the adjusted Rand index of Hubert and Arabie (1985)
    between two labellings of the same n items.  The integer core is the
    contingency table of label pairs and its row and column totals; the
    closed form on top of them is stated over exact reals. */
module AdjustedRand {
  import opened Sums

  /** The value of `AR_index`.  `np.min` of an empty array raises, hence
      EmptyLabels; a second labelling whose length is neither n nor 1 cannot
      be broadcast into the n-by-2 array `C`, hence LengthMismatch; a single
      item makes the expected index 0 / 0, hence NotANumber. */
  datatype Ari = Score(value: real) | EmptyLabels | LengthMismatch | NotANumber

  // ---------------------------------------------------------------------
  // Labels

  function Min(c: seq<int>): (m: int)
    requires |c| > 0
    ensures forall i :: 0 <= i < |c| ==> m <= c[i]
    ensures exists i :: 0 <= i < |c| && c[i] == m
  {
    if |c| == 1 then c[0]
    else
      var m' := Min(c[..|c| - 1]);
      if c[|c| - 1] < m' then c[|c| - 1] else m'
  }

  function Max(c: seq<int>): (m: int)
    requires |c| > 0
    ensures forall i :: 0 <= i < |c| ==> c[i] <= m
    ensures exists i :: 0 <= i < |c| && c[i] == m
  {
    if |c| == 1 then c[0]
    else
      var m' := Max(c[..|c| - 1]);
      if c[|c| - 1] > m' then c[|c| - 1] else m'
  }

  /** `c - np.min(c)`: labels that start at 0. */
  function Shift(c: seq<int>): (s: seq<nat>)
    requires |c| > 0
    ensures |s| == |c|
    ensures exists i :: 0 <= i < |s| && s[i] == 0
  {
    var m := Min(c);
    var s: seq<nat> := seq(|c|, i requires 0 <= i < |c| => c[i] - m);
    assert forall i :: 0 <= i < |c| ==> s[i] + m == c[i];
    s
  }

  /** The shift groups the items exactly as the original labels do. */
  lemma ShiftKeepsGroups(c: seq<int>, i: nat, j: nat)
    requires i < |c| && j < |c|
    ensures Shift(c)[i] == Shift(c)[j] <==> c[i] == c[j]
  {
  }

  // ---------------------------------------------------------------------
  // Contingency table

  /** Number of items labelled x by c1 and y by c2. */
  function Count(c1: seq<nat>, c2: seq<nat>, x: nat, y: nat): nat
    requires |c1| == |c2|
  {
    if c1 == [] then 0
    else
      var k := |c1| - 1;
      Count(c1[..k], c2[..k], x, y) + (if c1[k] == x && c2[k] == y then 1 else 0)
  }

  /** The table whose cell (x, y) is Count(c1, c2, x, y). */
  function Contingency(c1: seq<nat>, c2: seq<nat>, rows: nat, cols: nat): (t: seq<seq<nat>>)
    requires |c1| == |c2|
    ensures |t| == rows && forall x :: 0 <= x < rows ==> |t[x]| == cols
  {
    seq(rows, x requires 0 <= x < rows => seq(cols, y requires 0 <= y < cols => Count(c1, c2, x, y)))
  }

  /** `C[:, 1] = c2`: numpy copies c2 into the column when it has n entries
      and broadcasts its single entry when it has one. */
  function Fit(s: seq<nat>, n: nat): (r: seq<nat>)
    requires |s| == n || |s| == 1
    ensures |r| == n
    ensures |s| == n ==> r == s
    ensures |s| == 1 ==> forall i :: 0 <= i < n ==> r[i] == s[0]
  {
    if |s| == n then s else seq(n, i requires 0 <= i < n => s[0])
  }

  /** Inputs `AR_index` accepts without raising. */
  predicate Accepted(c1: seq<int>, c2: seq<int>)
  {
    |c1| > 0 && |c2| > 0 && (|c2| == |c1| || |c2| == 1)
  }

  /** `confmat`: the ng1-by-ng2 table of the shifted label pairs. */
  function LabelTable(c1: seq<int>, c2: seq<int>): (t: seq<seq<nat>>)
    requires Accepted(c1, c2)
    ensures |t| == Max(Shift(c1)) + 1 && Rect(t, Max(Shift(c2)) + 1)
  {
    var s1, s2 := Shift(c1), Shift(c2);
    Contingency(s1, Fit(s2, |s1|), Max(s1) + 1, Max(s2) + 1)
  }

  predicate Rect(t: seq<seq<nat>>, w: nat)
  {
    forall x :: 0 <= x < |t| ==> |t[x]| == w
  }

  /** `np.sum(confmat.T, axis=0)`: one total per row. */
  function RowTotals(t: seq<seq<nat>>): (r: seq<nat>)
    ensures |r| == |t|
  {
    seq(|t|, x requires 0 <= x < |t| => Sum(t[x]))
  }

  function Column(t: seq<seq<nat>>, w: nat, y: nat): (c: seq<nat>)
    requires Rect(t, w) && y < w
    ensures |c| == |t|
  {
    seq(|t|, x requires 0 <= x < |t| => t[x][y])
  }

  /** `np.sum(confmat, axis=0)`: one total per column. */
  function ColTotals(t: seq<seq<nat>>, w: nat): (r: seq<nat>)
    requires Rect(t, w)
    ensures |r| == w
  {
    seq(w, y requires 0 <= y < w => Sum(Column(t, w, y)))
  }

  function Transpose(t: seq<seq<nat>>, w: nat): (u: seq<seq<nat>>)
    requires Rect(t, w)
    ensures |u| == w && Rect(u, |t|)
  {
    seq(w, y requires 0 <= y < w => Column(t, w, y))
  }

  function Squares(s: seq<nat>): (r: seq<nat>)
    ensures |r| == |s|
  {
    seq(|s|, i requires 0 <= i < |s| => s[i] * s[i])
  }

  function SquareTable(t: seq<seq<nat>>): (u: seq<seq<nat>>)
    ensures |u| == |t| && forall x :: 0 <= x < |t| ==> |u[x]| == |t[x]|
  {
    seq(|t|, x requires 0 <= x < |t| => Squares(t[x]))
  }

  /** `nis`, `njs`: the sum of squares of a list of totals. */
  function SumSquares(s: seq<nat>): nat
  {
    Sum(Squares(s))
  }

  /** `t2`: the sum over all cells of the squared count. */
  function CellSquares(t: seq<seq<nat>>): nat
  {
    Sum(RowTotals(SquareTable(t)))
  }

  // ---------------------------------------------------------------------
  // The closed form

  /** `t1 = comb(n, 2)`: the number of pairs of items. */
  function PairCount(n: nat): real
  {
    (n as real) * (n as real - 1.0) / 2.0
  }

  /** `nc`: the expected number of agreeing pairs given the totals. */
  function Expected(n: nat, nis: nat, njs: nat): real
    requires n >= 2
  {
    var m, a, b := n as real, nis as real, njs as real;
    (m * (m * m + 1.0) - (m + 1.0) * a - (m + 1.0) * b + 2.0 * (a * b) / m) / (2.0 * (m - 1.0))
  }

  /** `A = t1 + t2 - t3`: the number of agreeing pairs. */
  function Agreements(n: nat, nis: nat, njs: nat, t2: nat): real
  {
    PairCount(n) + t2 as real - 0.5 * (nis + njs) as real
  }

  /** The index from n, the two sums of squared totals and t2; 0 where the
      denominator t1 - nc vanishes. */
  function AriFromTotals(n: nat, nis: nat, njs: nat, t2: nat): Ari
    requires n >= 1
  {
    if n == 1 then NotANumber
    else if PairCount(n) == Expected(n, nis, njs) then Score(0.0)
    else Score((Agreements(n, nis, njs, t2) - Expected(n, nis, njs)) / (PairCount(n) - Expected(n, nis, njs)))
  }

  /** The adjusted Rand index of two labellings, from the contingency table of
      their shifted labels. */
  function AdjustedRandIndex(c1: seq<int>, c2: seq<int>): Ari
  {
    if |c1| == 0 || |c2| == 0 then EmptyLabels
    else if !Accepted(c1, c2) then LengthMismatch
    else
      var t := LabelTable(c1, c2);
      var ng2 := Max(Shift(c2)) + 1;
      AriFromTotals(|c1|, SumSquares(RowTotals(t)), SumSquares(ColTotals(t, ng2)), CellSquares(t))
  }

  // ---------------------------------------------------------------------
  // The routine

  lemma CountStep(c1: seq<nat>, c2: seq<nat>, i: nat, x: nat, y: nat)
    requires |c1| == |c2| && i < |c1|
    ensures Count(c1[..i + 1], c2[..i + 1], x, y)
      == Count(c1[..i], c2[..i], x, y) + (if c1[i] == x && c2[i] == y then 1 else 0)
  {
    assert c1[..i + 1][..i] == c1[..i];
    assert c2[..i + 1][..i] == c2[..i];
  }

  /** The counting loop of `AR_index`: `d[(c1[i], c2[i])] += 1` over all
      items, so that d maps exactly the label pairs that occur to their
      counts. */
  method CountPairs(s1: seq<nat>, s2: seq<nat>, ng1: nat, ng2: nat) returns (d: map<(nat, nat), nat>)
    requires |s1| == |s2|
    requires forall i :: 0 <= i < |s1| ==> s1[i] < ng1 && s2[i] < ng2
    ensures forall t :: t in d ==> t.0 < ng1 && t.1 < ng2 && d[t] == Count(s1, s2, t.0, t.1)
    ensures forall x: nat, y: nat :: (x, y) !in d ==> Count(s1, s2, x, y) == 0
  {
    d := map[];
    var i := 0;
    while i < |s1|
      invariant i <= |s1|
      invariant forall t :: t in d ==> t.0 < ng1 && t.1 < ng2 && d[t] == Count(s1[..i], s2[..i], t.0, t.1)
      invariant forall x: nat, y: nat :: (x, y) !in d ==> Count(s1[..i], s2[..i], x, y) == 0
    {
      var t := (s1[i], s2[i]);
      if t in d {
        d := d[t := d[t] + 1];
      } else {
        d := d[t := 1];
      }
      forall x: nat, y: nat
        ensures Count(s1[..i + 1], s2[..i + 1], x, y)
          == Count(s1[..i], s2[..i], x, y) + (if s1[i] == x && s2[i] == y then 1 else 0)
      {
        CountStep(s1, s2, i, x, y);
      }
      i := i + 1;
    }
    assert s1[..i] == s1 && s2[..i] == s2;
  }

  /** The filling loop of `AR_index`: a zero `ng1` by `ng2` array whose cell
      (x, y) receives `d[(x, y)]` for every key, in whatever order the keys
      are visited. */
  method FillTable(d: map<(nat, nat), nat>, ng1: nat, ng2: nat) returns (table: seq<seq<nat>>)
    requires forall t :: t in d ==> t.0 < ng1 && t.1 < ng2
    ensures |table| == ng1 && Rect(table, ng2)
    ensures forall x, y :: 0 <= x < ng1 && 0 <= y < ng2 ==>
      table[x][y] == if (x, y) in d then d[(x, y)] else 0
  {
    var confmat := new nat[ng1, ng2]((x, y) => 0);
    var todo := d.Keys;
    while todo != {}
      invariant todo <= d.Keys
      invariant forall x, y :: 0 <= x < ng1 && 0 <= y < ng2 ==>
        confmat[x, y] == if (x, y) in d && (x, y) !in todo then d[(x, y)] else 0
      decreases todo
    {
      var key :| key in todo;
      confmat[key.0, key.1] := d[key];
      todo := todo - {key};
    }
    table := seq(ng1, x requires 0 <= x < ng1 reads confmat =>
      seq(ng2, y requires 0 <= y < ng2 reads confmat => confmat[x, y]));
  }

  /** The counts of CountPairs laid out by FillTable form the contingency table. */
  lemma TableOfCounts(s1: seq<nat>, s2: seq<nat>, ng1: nat, ng2: nat, d: map<(nat, nat), nat>, table: seq<seq<nat>>)
    requires |s1| == |s2|
    requires forall t :: t in d ==> d[t] == Count(s1, s2, t.0, t.1)
    requires forall x: nat, y: nat :: (x, y) !in d ==> Count(s1, s2, x, y) == 0
    requires |table| == ng1 && Rect(table, ng2)
    requires forall x, y :: 0 <= x < ng1 && 0 <= y < ng2 ==>
      table[x][y] == if (x, y) in d then d[(x, y)] else 0
    ensures table == Contingency(s1, s2, ng1, ng2)
  {
    var t := Contingency(s1, s2, ng1, ng2);
    forall x | 0 <= x < ng1
      ensures table[x] == t[x]
    {
      forall y | 0 <= y < ng2
        ensures table[x][y] == t[x][y]
      {
        if (x, y) !in d {
          assert Count(s1, s2, x, y) == 0;
        }
      }
    }
  }

  /** `perf = AR_index(c1, c2)`: shift the labels to start at 0, count the
      label pairs, fill the contingency table and evaluate the closed form on
      its totals. */
  method ARIndex(c1: seq<int>, c2: seq<int>) returns (res: Ari)
    ensures res == AdjustedRandIndex(c1, c2)
  {
    if |c1| == 0 || |c2| == 0 {
      return EmptyLabels;
    }
    if |c2| != |c1| && |c2| != 1 {
      return LengthMismatch;
    }
    var s1 := Shift(c1);
    var s2 := Shift(c2);
    var ng1: nat := Max(s1) + 1;
    var ng2: nat := Max(s2) + 1;
    var col := Fit(s2, |s1|);
    LabelsBelow(c1, c2);
    var d := CountPairs(s1, col, ng1, ng2);
    var table := FillTable(d, ng1, ng2);
    TableOfCounts(s1, col, ng1, ng2, d, table);
    assert table == LabelTable(c1, c2);
    var rowtot := RowTotals(table);
    var coltot := ColTotals(table, ng2);
    res := AriFromTotals(|s1|, SumSquares(rowtot), SumSquares(coltot), CellSquares(table));
  }

  // ---------------------------------------------------------------------
  // Properties

  /** Swapping the labellings swaps the roles of x and y. */
  lemma {:induction false} CountSwap(c1: seq<nat>, c2: seq<nat>, x: nat, y: nat)
    requires |c1| == |c2|
    ensures Count(c2, c1, y, x) == Count(c1, c2, x, y)
    decreases |c1|
  {
    if c1 != [] {
      var k := |c1| - 1;
      CountSwap(c1[..k], c2[..k], x, y);
    }
  }

  /** The table of (c2, c1) is the transpose of the table of (c1, c2). */
  lemma ContingencySwap(c1: seq<nat>, c2: seq<nat>, rows: nat, cols: nat)
    requires |c1| == |c2|
    ensures Contingency(c2, c1, cols, rows) == Transpose(Contingency(c1, c2, rows, cols), cols)
  {
    var t := Contingency(c1, c2, rows, cols);
    var u := Contingency(c2, c1, cols, rows);
    var v := Transpose(t, cols);
    forall y | 0 <= y < cols
      ensures u[y] == v[y]
    {
      forall x | 0 <= x < rows
        ensures u[y][x] == v[y][x]
      {
        CountSwap(c1, c2, x, y);
      }
    }
  }

  /** Transposing exchanges row totals and column totals. */
  lemma TransposeTotals(t: seq<seq<nat>>, w: nat)
    requires Rect(t, w)
    ensures RowTotals(Transpose(t, w)) == ColTotals(t, w)
    ensures ColTotals(Transpose(t, w), |t|) == RowTotals(t)
  {
    var u := Transpose(t, w);
    forall x | 0 <= x < |t|
      ensures Column(u, |t|, x) == t[x]
    {
    }
  }

  /** Summing a table by rows or by columns gives the same grand total. */
  lemma {:induction false} GrandTotal(t: seq<seq<nat>>, w: nat)
    requires Rect(t, w)
    ensures Sum(RowTotals(t)) == Sum(ColTotals(t, w))
    decreases |t|
  {
    if t == [] {
      SumZero(ColTotals(t, w));
    } else {
      var k := |t| - 1;
      var t' := t[..k];
      assert RowTotals(t)[..k] == RowTotals(t');
      forall y | 0 <= y < w
        ensures ColTotals(t, w)[y] == ColTotals(t', w)[y] + t[k][y]
      {
        assert Column(t, w, y)[..k] == Column(t', w, y);
      }
      assert ColTotals(t, w) == Add(ColTotals(t', w), t[k]);
      SumAdd(ColTotals(t', w), t[k]);
      GrandTotal(t', w);
    }
  }

  /** t2 does not depend on the orientation of the table. */
  lemma CellSquaresTranspose(t: seq<seq<nat>>, w: nat)
    requires Rect(t, w)
    ensures CellSquares(Transpose(t, w)) == CellSquares(t)
  {
    var q := SquareTable(t);
    forall y | 0 <= y < w
      ensures SquareTable(Transpose(t, w))[y] == Transpose(q, w)[y]
    {
    }
    assert SquareTable(Transpose(t, w)) == Transpose(q, w);
    TransposeTotals(q, w);
    GrandTotal(q, w);
  }

  /** The closed form is symmetric in the two sums of squared totals. */
  lemma AriFromTotalsSymmetric(n: nat, nis: nat, njs: nat, t2: nat)
    requires n >= 1
    ensures AriFromTotals(n, nis, njs, t2) == AriFromTotals(n, njs, nis, t2)
  {
    if n >= 2 {
      assert Expected(n, nis, njs) == Expected(n, njs, nis);
      assert Agreements(n, nis, njs, t2) == Agreements(n, njs, nis, t2);
    }
  }

  /** Swapping the labellings swaps the row and column totals of the table
      and keeps t2. */
  lemma SwapTotals(s1: seq<nat>, s2: seq<nat>, ng1: nat, ng2: nat)
    requires |s1| == |s2|
    ensures var t, u := Contingency(s1, s2, ng1, ng2), Contingency(s2, s1, ng2, ng1);
      && RowTotals(u) == ColTotals(t, ng2)
      && ColTotals(u, ng1) == RowTotals(t)
      && CellSquares(u) == CellSquares(t)
  {
    var t := Contingency(s1, s2, ng1, ng2);
    ContingencySwap(s1, s2, ng1, ng2);
    TransposeTotals(t, ng2);
    CellSquaresTranspose(t, ng2);
  }

  /** The adjusted Rand index is symmetric: AR_index(c1, c2) == AR_index(c2, c1). */
  lemma AdjustedRandSymmetric(c1: seq<int>, c2: seq<int>)
    requires |c1| == |c2|
    ensures AdjustedRandIndex(c1, c2) == AdjustedRandIndex(c2, c1)
  {
    if |c1| > 0 {
      var s1, s2 := Shift(c1), Shift(c2);
      var ng1, ng2 := Max(s1) + 1, Max(s2) + 1;
      var t := Contingency(s1, s2, ng1, ng2);
      assert LabelTable(c1, c2) == t;
      assert LabelTable(c2, c1) == Contingency(s2, s1, ng2, ng1);
      SwapTotals(s1, s2, ng1, ng2);
      AriFromTotalsSymmetric(|c1|, SumSquares(RowTotals(t)), SumSquares(ColTotals(t, ng2)), CellSquares(t));
    }
  }

  /** Appending one item whose labels (x, y) lie inside the table adds one
      to cell (x, y) and to nothing else. */
  lemma ContingencyStep(c1: seq<nat>, c2: seq<nat>, rows: nat, cols: nat)
    requires |c1| == |c2| && |c1| > 0
    requires c1[|c1| - 1] < rows && c2[|c1| - 1] < cols
    ensures var k := |c1| - 1;
      var x, y := c1[k], c2[k];
      var t' := Contingency(c1[..k], c2[..k], rows, cols);
      Contingency(c1, c2, rows, cols) == t'[x := t'[x][y := t'[x][y] + 1]]
  {
    var k := |c1| - 1;
    var x, y := c1[k], c2[k];
    var t := Contingency(c1, c2, rows, cols);
    var t' := Contingency(c1[..k], c2[..k], rows, cols);
    var u := t'[x := t'[x][y := t'[x][y] + 1]];
    forall a | 0 <= a < rows
      ensures t[a] == u[a]
    {
      forall b | 0 <= b < cols
        ensures t[a][b] == u[a][b]
      {
        assert t[a][b] == Count(c1[..k], c2[..k], a, b) + (if x == a && y == b then 1 else 0);
      }
    }
  }

  lemma RowTotalsIncrement(t: seq<seq<nat>>, x: nat, y: nat)
    requires x < |t| && y < |t[x]|
    ensures RowTotals(t[x := t[x][y := t[x][y] + 1]]) == RowTotals(t)[x := RowTotals(t)[x] + 1]
  {
    SumIncrement(t[x], y);
  }

  lemma RowTotalsZero(t: seq<seq<nat>>)
    requires forall x, y :: 0 <= x < |t| && 0 <= y < |t[x]| ==> t[x][y] == 0
    ensures Sum(RowTotals(t)) == 0
  {
    forall x | 0 <= x < |t|
      ensures Sum(t[x]) == 0
    {
      SumZero(t[x]);
    }
    SumZero(RowTotals(t));
  }

  /** Every item is counted in exactly one cell: with all labels inside the
      table, the row totals and the column totals both sum to n. */
  lemma {:induction false} ContingencyTotal(c1: seq<nat>, c2: seq<nat>, rows: nat, cols: nat)
    requires |c1| == |c2|
    requires forall i :: 0 <= i < |c1| ==> c1[i] < rows && c2[i] < cols
    ensures Sum(RowTotals(Contingency(c1, c2, rows, cols))) == |c1|
    ensures Sum(ColTotals(Contingency(c1, c2, rows, cols), cols)) == |c1|
    decreases |c1|
  {
    var t := Contingency(c1, c2, rows, cols);
    if c1 == [] {
      RowTotalsZero(t);
    } else {
      var k := |c1| - 1;
      var x, y := c1[k], c2[k];
      var t' := Contingency(c1[..k], c2[..k], rows, cols);
      ContingencyTotal(c1[..k], c2[..k], rows, cols);
      ContingencyStep(c1, c2, rows, cols);
      RowTotalsIncrement(t', x, y);
      SumIncrement(RowTotals(t'), x);
    }
    GrandTotal(t, cols);
  }

  /** With the same labelling on both sides, items only meet on the diagonal. */
  lemma {:induction false} CountOffDiagonal(c: seq<nat>, x: nat, y: nat)
    requires x != y
    ensures Count(c, c, x, y) == 0
    decreases |c|
  {
    if c != [] {
      CountOffDiagonal(c[..|c| - 1], x, y);
    }
  }

  /** The closed form for a labelling compared with itself, where every total
      is a group size and S is the sum of squared group sizes:
      (t1 - nc) * 2 n (n - 1) == -2 (S - n) (S - n^2), so the denominator
      vanishes exactly when S == n (all groups singletons) or S == n^2 (one
      group), and otherwise A == t1 and the index is 1. */
  lemma AriIdentical(n: nat, sq: nat)
    requires n >= 2
    ensures AriFromTotals(n, sq, sq, sq) == if sq == n || sq == n * n then Score(0.0) else Score(1.0)
  {
    DenominatorVanishes(n, sq);
    var p, e := PairCount(n), Expected(n, sq, sq);
    assert Agreements(n, sq, sq, sq) == p;
    if p != e {
      assert (p - e) / (p - e) == 1.0;
    }
  }

  /** t1 == nc exactly when S == n or S == n^2. */
  lemma DenominatorVanishes(n: nat, sq: nat)
    requires n >= 2
    ensures PairCount(n) == Expected(n, sq, sq) <==> sq == n || sq == n * n
  {
    VanishReal(n, sq);
    RootsOfIdentical(n, sq);
  }

  lemma VanishReal(n: nat, sq: nat)
    requires n >= 2
    ensures var m, a := n as real, sq as real;
      PairCount(n) == Expected(n, sq, sq) <==> (a - m) * (a - m * m) == 0.0
  {
    var m, a := n as real, sq as real;
    ExpectedTimesDenominator(n, sq, sq);
    DivMul(a * a, m);
    VanishCore(m, a, a * a / m, PairCount(n), Expected(n, sq, sq));
  }

  lemma VanishCore(m: real, a: real, q: real, p: real, e: real)
    requires m >= 2.0
    requires q * m == a * a
    requires p == m * (m - 1.0) / 2.0
    requires e * (2.0 * (m - 1.0)) == m * (m * m + 1.0) - (m + 1.0) * a - (m + 1.0) * a + 2.0 * q
    ensures p == e <==> (a - m) * (a - m * m) == 0.0
  {
    ExpectedIdentical(m, a, q, e);
    PositiveProduct(m);
    VanishIff(p, e, 2.0 * m * (m - 1.0), (a - m) * (a - m * m));
  }

  lemma RootsOfIdentical(n: nat, sq: nat)
    ensures var m, a := n as real, sq as real;
      (a - m) * (a - m * m) == 0.0 <==> sq == n || sq == n * n
  {
    var m, a := n as real, sq as real;
    ProductZero(a - m, a - m * m);
    CastSquare(n);
  }

  lemma PositiveProduct(m: real)
    requires m >= 2.0
    ensures 2.0 * m * (m - 1.0) != 0.0
  {
    assert m * (m - 1.0) >= m;
  }

  lemma VanishIff(p: real, e: real, k: real, x: real)
    requires k != 0.0
    requires (p - e) * k == -2.0 * x
    ensures p == e <==> x == 0.0
  {
    ProductZero(p - e, k);
  }

  /** nc times its denominator 2 (n - 1). */
  lemma ExpectedTimesDenominator(n: nat, nis: nat, njs: nat)
    requires n >= 2
    ensures var m, a, b := n as real, nis as real, njs as real;
      Expected(n, nis, njs) * (2.0 * (m - 1.0))
        == m * (m * m + 1.0) - (m + 1.0) * a - (m + 1.0) * b + 2.0 * (a * b / m)
  {
    var m, a, b := n as real, nis as real, njs as real;
    DivMul(m * (m * m + 1.0) - (m + 1.0) * a - (m + 1.0) * b + 2.0 * (a * b) / m, 2.0 * (m - 1.0));
  }

  lemma DivMul(x: real, y: real)
    requires y != 0.0
    ensures (x / y) * y == x
  {
  }

  lemma ProductZero(x: real, y: real)
    ensures x * y == 0.0 <==> x == 0.0 || y == 0.0
  {
  }

  lemma CastSquare(n: nat)
    ensures (n * n) as real == (n as real) * (n as real)
  {
  }

  /** The polynomial identity behind AriIdentical, with q standing for S^2 / n. */
  lemma ExpectedIdentical(m: real, a: real, q: real, e: real)
    requires q * m == a * a
    requires e * (2.0 * (m - 1.0)) == m * (m * m + 1.0) - (m + 1.0) * a - (m + 1.0) * a + 2.0 * q
    ensures (m * (m - 1.0) / 2.0 - e) * (2.0 * m * (m - 1.0)) == -2.0 * ((a - m) * (a - m * m))
  {
    assert (m * (m - 1.0) / 2.0) * (2.0 * m * (m - 1.0)) == m * m * (m - 1.0) * (m - 1.0);
    assert e * (2.0 * m * (m - 1.0)) == m * (m * (m * m + 1.0) - 2.0 * (m + 1.0) * a) + 2.0 * (a * a);
  }

  /** For a labelling compared with itself, row x of the table is zero off the
      diagonal, so the row total, the column total and the sum of squares of
      row x are all determined by the diagonal cell. */
  lemma DiagonalTotals(s: seq<nat>, g: nat, x: nat)
    requires x < g
    ensures var t := Contingency(s, s, g, g);
      && RowTotals(t)[x] == t[x][x]
      && ColTotals(t, g)[x] == t[x][x]
      && RowTotals(SquareTable(t))[x] == t[x][x] * t[x][x]
  {
    var t := Contingency(s, s, g, g);
    forall y | 0 <= y < g && y != x
      ensures t[x][y] == 0 && t[y][x] == 0
    {
      CountOffDiagonal(s, x, y);
      CountOffDiagonal(s, y, x);
    }
    SumSingle(t[x], x);
    SumSingle(Column(t, g, x), x);
    SumSingle(Squares(t[x]), x);
  }

  /** For a labelling compared with itself, the column totals are the row
      totals and t2 is the sum of their squares. */
  lemma IdenticalTotals(s: seq<nat>, g: nat)
    ensures var t := Contingency(s, s, g, g);
      && ColTotals(t, g) == RowTotals(t)
      && CellSquares(t) == SumSquares(RowTotals(t))
  {
    var t := Contingency(s, s, g, g);
    var r := RowTotals(t);
    forall x | 0 <= x < g
      ensures ColTotals(t, g)[x] == r[x]
      ensures RowTotals(SquareTable(t))[x] == Squares(r)[x]
    {
      DiagonalTotals(s, g, x);
    }
    assert ColTotals(t, g) == r;
    assert RowTotals(SquareTable(t)) == Squares(r);
  }

  /** Comparing a labelling with itself: the index is 1, except that it is 0
      when the groups are all singletons or there is a single group, where S
      is the sum of squared group sizes (the row totals of the table). */
  lemma AdjustedRandIdentical(c: seq<int>)
    requires |c| >= 2
    ensures var sq := SumSquares(RowTotals(LabelTable(c, c)));
      AdjustedRandIndex(c, c) == if sq == |c| || sq == |c| * |c| then Score(0.0) else Score(1.0)
  {
    var s := Shift(c);
    var g := Max(s) + 1;
    assert LabelTable(c, c) == Contingency(s, s, g, g);
    IdenticalTotals(s, g);
    AriIdentical(|c|, SumSquares(RowTotals(Contingency(s, s, g, g))));
  }

  /** Every pair of labels the routine counts lies inside the table. */
  lemma LabelsBelow(c1: seq<int>, c2: seq<int>)
    requires Accepted(c1, c2)
    ensures var s1, s2 := Shift(c1), Shift(c2);
      forall i :: 0 <= i < |s1| ==> s1[i] < Max(s1) + 1 && Fit(s2, |s1|)[i] < Max(s2) + 1
  {
    var s1, s2 := Shift(c1), Shift(c2);
    FitBelow(s2, |s1|, Max(s2) + 1);
  }

  /** Every item of the table `AR_index` builds is counted once: the row
      totals and the column totals both sum to n. */
  lemma LabelTableTotals(c1: seq<int>, c2: seq<int>)
    requires Accepted(c1, c2)
    ensures Sum(RowTotals(LabelTable(c1, c2))) == |c1|
    ensures Sum(ColTotals(LabelTable(c1, c2), Max(Shift(c2)) + 1)) == |c1|
  {
    var s1, s2 := Shift(c1), Shift(c2);
    var col := Fit(s2, |s1|);
    var ng1, ng2 := Max(s1) + 1, Max(s2) + 1;
    LabelsBelow(c1, c2);
    assert LabelTable(c1, c2) == Contingency(s1, col, ng1, ng2);
    ContingencyTotal(s1, col, ng1, ng2);
  }

  lemma FitBelow(s: seq<nat>, n: nat, b: nat)
    requires |s| == n || |s| == 1
    requires forall i :: 0 <= i < |s| ==> s[i] < b
    ensures forall i :: 0 <= i < n ==> Fit(s, n)[i] < b
  {
  }

  /** A table with a single column: its one column total is n, and t2 is the
      sum of squared row totals. */
  lemma SingleColumnTotals(s1: seq<nat>, col: seq<nat>, ng1: nat)
    requires |s1| == |col|
    requires forall i :: 0 <= i < |s1| ==> s1[i] < ng1 && col[i] == 0
    ensures var t := Contingency(s1, col, ng1, 1);
      && ColTotals(t, 1) == [|s1|]
      && CellSquares(t) == SumSquares(RowTotals(t))
  {
    var t := Contingency(s1, col, ng1, 1);
    ContingencyTotal(s1, col, ng1, 1);
    forall x | 0 <= x < ng1
      ensures RowTotals(t)[x] == t[x][0]
      ensures RowTotals(SquareTable(t))[x] == t[x][0] * t[x][0]
    {
      SumOne(t[x]);
      SumOne(SquareTable(t)[x]);
    }
    assert Column(t, 1, 0) == RowTotals(t);
    assert RowTotals(SquareTable(t)) == Squares(RowTotals(t));
  }

  lemma SumOne(s: seq<nat>)
    requires |s| == 1
    ensures Sum(s) == s[0]
  {
    assert s[..0] == [];
  }

  /** The closed form when the second labelling is a single group
      (njs == n^2, t2 == nis): nc == (nis - n) / 2 == A, so the index is 0
      whether or not t1 == nc. */
  lemma AriSingleGroup(n: nat, nis: nat)
    requires n >= 2
    ensures AriFromTotals(n, nis, n * n, nis) == Score(0.0)
  {
    var m, a := n as real, nis as real;
    CastSquare(n);
    ExpectedSingle(n, nis, n * n);
    assert Agreements(n, nis, n * n, nis) == (a - m) / 2.0;
  }

  lemma ExpectedSingle(n: nat, nis: nat, njs: nat)
    requires n >= 2 && njs == n * n
    ensures Expected(n, nis, njs) == (nis as real - n as real) / 2.0
  {
    var m, a, b := n as real, nis as real, njs as real;
    var e := Expected(n, nis, njs);
    ExpectedTimesDenominator(n, nis, njs);
    CastSquare(n);
    DivExact(a * b, m, a * m);
    assert e * (2.0 * (m - 1.0)) == ((a - m) / 2.0) * (2.0 * (m - 1.0));
    Cancel(e, (a - m) / 2.0, 2.0 * (m - 1.0));
  }

  lemma Cancel(x: real, y: real, k: real)
    requires k != 0.0 && x * k == y * k
    ensures x == y
  {
    assert (x - y) * k == 0.0;
    ProductZero(x - y, k);
  }

  lemma DivExact(x: real, y: real, z: real)
    requires y != 0.0 && z * y == x
    ensures x / y == z
  {
  }

  /** A constant labelling shifts to all zeros. */
  lemma ShiftConstant(c: seq<int>)
    requires |c| > 0
    requires forall i :: 0 <= i < |c| ==> c[i] == c[0]
    ensures forall i :: 0 <= i < |c| ==> Shift(c)[i] == 0
    ensures Max(Shift(c)) == 0
  {
    var s := Shift(c);
    forall i | 0 <= i < |c|
      ensures s[i] == s[0]
    {
      ShiftKeepsGroups(c, i, 0);
    }
  }

  /** When the second labelling puts every item in one group the index is 0:
      the adjustment removes all agreement, as the `k = 1` case of the
      routine intends. */
  lemma AdjustedRandSingleGroup(c1: seq<int>, c2: seq<int>)
    requires Accepted(c1, c2) && |c1| >= 2
    requires forall i :: 0 <= i < |c2| ==> c2[i] == c2[0]
    ensures AdjustedRandIndex(c1, c2) == Score(0.0)
  {
    var s1, s2 := Shift(c1), Shift(c2);
    ShiftConstant(c2);
    var col := Fit(s2, |s1|);
    var ng1 := Max(s1) + 1;
    var t := Contingency(s1, col, ng1, 1);
    assert LabelTable(c1, c2) == t;
    SingleColumnTotals(s1, col, ng1);
    SquareOfOne(|c1|);
    AriSingleGroup(|c1|, SumSquares(RowTotals(t)));
  }

  lemma SquareOfOne(n: nat)
    ensures SumSquares([n]) == n * n
  {
    assert Squares([n]) == [n * n];
    SumOne([n * n]);
  }
}
