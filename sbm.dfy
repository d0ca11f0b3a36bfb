/** `create_SBM`: a Stochastic Block Model graph with planted communities.
    The random draws (the binomial edge counts and the `random.sample`
    choices) are inputs: for every community k a list of distinct pair
    indices in 0 .. Pairs(size_k) - 1, and for every community k but the
    last a list of distinct indices into the size_k-by-(sizes after k) grid
    of "k against every later community" cells.  What is left is the index
    bookkeeping: contiguous community ranges, the ground-truth labels, the
    shift of local subscripts to global (row, column) pairs, and the
    symmetric assembly A + A^T. */
module Sbm {
  import opened Sums
  import opened Triangular

  /** The one error the routine raises: `com_size.sum() != N`. */
  datatype SbmError = SizeMismatch

  datatype Result<T> = Success(value: T) | Failure(error: SbmError)

  /** A 0-based (row, column) entry of the sparse adjacency matrix. */
  datatype Pair = Pair(row: int, col: int)

  /** The adjacency matrix as the multiset of its COO entries (an entry that
      occurs twice has weight 2), with the ground-truth label vector. */
  datatype Graph = Graph(adjacency: multiset<Pair>, truth: seq<int>)

  // ---------------------------------------------------------------------
  // Community layout

  /** First node of community k: `com_size[:k].sum()`. */
  function Start(sizes: seq<nat>, k: nat): nat
    requires k <= |sizes|
  {
    Sum(sizes[..k])
  }

  /** Number of nodes in the communities after k: `com_size[k+1:].sum()`. */
  function Rest(sizes: seq<nat>, k: nat): nat
    requires k < |sizes|
  {
    Sum(sizes[k + 1..])
  }

  /** The community that contiguous layout puts node i in. */
  function Label(sizes: seq<nat>, i: int): (k: nat)
    requires 0 <= i < Sum(sizes)
    ensures k < |sizes|
    decreases |sizes|
  {
    var p := sizes[..|sizes| - 1];
    if i >= Sum(p) then |sizes| - 1 else Label(p, i)
  }

  lemma StartStep(sizes: seq<nat>, k: nat)
    requires k < |sizes|
    ensures Start(sizes, k + 1) == Start(sizes, k) + sizes[k]
    ensures Start(sizes, k + 1) + Rest(sizes, k) == Sum(sizes)
  {
    SumPrefixStep(sizes, k);
    SumSplit(sizes, k + 1);
  }

  lemma StartMonotone(sizes: seq<nat>, i: nat, j: nat)
    requires i <= j <= |sizes|
    ensures Start(sizes, i) <= Start(sizes, j) <= Sum(sizes)
  {
    PrefixSumMonotone(sizes, i, j);
    PrefixSumMonotone(sizes, j, |sizes|);
    assert sizes[..|sizes|] == sizes;
  }

  /** Node i has label k exactly when it lies in community k's range
      Start(k) .. Start(k) + sizes[k] - 1. */
  lemma {:induction false} LabelRange(sizes: seq<nat>, i: int, k: nat)
    requires 0 <= i < Sum(sizes) && k < |sizes|
    ensures Label(sizes, i) == k <==> Start(sizes, k) <= i < Start(sizes, k) + sizes[k]
    decreases |sizes|
  {
    var last := |sizes| - 1;
    var p := sizes[..last];
    StartStep(sizes, k);
    assert Start(sizes, last) == Sum(p);
    if k < last {
      assert p[..k] == sizes[..k];
      assert p[..k + 1] == sizes[..k + 1];
    }
    if i >= Sum(p) {
      if k < last {
        StartMonotone(sizes, k + 1, last);
      }
    } else if k < last {
      LabelRange(p, i, k);
      StartStep(p, k);
    }
  }

  // ---------------------------------------------------------------------
  // The sampled cells and where they land

  predicate Distinct<T(==)>(s: seq<T>)
  {
    forall a, b :: 0 <= a < b < |s| ==> s[a] != s[b]
  }

  /** What `random.sample(range(m), count)` returns: distinct values in 0 .. m-1. */
  predicate IsSample(sample: seq<int>, m: int)
  {
    && (forall e :: 0 <= e < |sample| ==> 0 <= sample[e] < m)
    && Distinct(sample)
  }

  /** One sample per community, drawn from its Pairs(size) = size(size-1)/2
      possible internal pairs. */
  predicate IntraSamples(sizes: seq<nat>, intra: seq<seq<int>>)
  {
    && |intra| == |sizes|
    && forall k :: 0 <= k < |sizes| ==> IsSample(intra[k], Pairs(sizes[k]))
  }

  /** One sample per community k < q - 1, drawn from the size_k * Rest(k)
      cells between community k and all later ones. */
  predicate InterSamples(sizes: seq<nat>, inter: seq<seq<int>>)
  {
    && |inter| == (if |sizes| == 0 then 0 else |sizes| - 1)
    && forall k :: 0 <= k < |inter| ==> IsSample(inter[k], sizes[k] * Rest(sizes, k))
  }

  /** Pair index s of community k: `ind2sub4up(s + 1)`, both subscripts
      less one, shifted by the community's first node. */
  function IntraCell(sizes: seq<nat>, k: nat, s: int): Pair
    requires k < |sizes| && s >= 0
  {
    var c := Ind2Sub4Up(s + 1);
    Pair(c.i - 1 + Start(sizes, k), c.j - 1 + Start(sizes, k))
  }

  /** Grid index s of block k: row-major `unravel_index` over a
      (size_k, Rest(k)) grid, the row shifted by Start(k) and the column by
      Start(k + 1). */
  function InterCell(sizes: seq<nat>, k: nat, s: int): Pair
    requires k < |sizes| && Rest(sizes, k) > 0
  {
    var w := Rest(sizes, k);
    Pair(s / w + Start(sizes, k), s % w + Start(sizes, k + 1))
  }

  function IntraBlock(sizes: seq<nat>, intra: seq<seq<int>>, k: nat): (ps: seq<Pair>)
    requires IntraSamples(sizes, intra) && k < |sizes|
    ensures |ps| == |intra[k]|
  {
    seq(|intra[k]|, e requires 0 <= e < |intra[k]| => IntraCell(sizes, k, intra[k][e]))
  }

  /** The intra-community pairs of communities 0 .. k-1, in loop order. */
  function IntraPairs(sizes: seq<nat>, intra: seq<seq<int>>, k: nat): seq<Pair>
    requires IntraSamples(sizes, intra) && k <= |sizes|
  {
    if k == 0 then [] else IntraPairs(sizes, intra, k - 1) + IntraBlock(sizes, intra, k - 1)
  }

  /** A grid index below size * w unravels to a row below size. */
  lemma DivBound(s: int, size: nat, w: nat)
    requires 0 <= s < size * w
    ensures w > 0 && 0 <= s / w < size && 0 <= s % w < w
  {
  }

  lemma SampleBound(sample: seq<int>, size: nat, w: nat, e: nat)
    requires IsSample(sample, size * w) && e < |sample|
    ensures w > 0 && sample[e] / w < size
  {
    DivBound(sample[e], size, w);
  }

  function InterBlock(sizes: seq<nat>, inter: seq<seq<int>>, k: nat): (ps: seq<Pair>)
    requires InterSamples(sizes, inter) && k < |inter|
    ensures |ps| == |inter[k]|
  {
    seq(|inter[k]|, e requires 0 <= e < |inter[k]| =>
      SampleBound(inter[k], sizes[k], Rest(sizes, k), e);
      InterCell(sizes, k, inter[k][e]))
  }

  /** The inter-community pairs of blocks 0 .. k-1, in loop order. */
  function InterPairs(sizes: seq<nat>, inter: seq<seq<int>>, k: nat): seq<Pair>
    requires InterSamples(sizes, inter) && k <= |inter|
  {
    if k == 0 then [] else InterPairs(sizes, inter, k - 1) + InterBlock(sizes, inter, k - 1)
  }

  /** Every (I, J) entry the routine collects, in collection order. */
  function DirectedPairs(sizes: seq<nat>, intra: seq<seq<int>>, inter: seq<seq<int>>): seq<Pair>
    requires IntraSamples(sizes, intra) && InterSamples(sizes, inter)
  {
    IntraPairs(sizes, intra, |sizes|) + InterPairs(sizes, inter, |inter|)
  }

  // ---------------------------------------------------------------------
  // Assembly: coo_matrix((ones, (I, J))) + its transpose

  function Zip(rows: seq<int>, cols: seq<int>): (ps: seq<Pair>)
    requires |rows| == |cols|
    ensures |ps| == |rows|
  {
    seq(|rows|, e requires 0 <= e < |rows| => Pair(rows[e], cols[e]))
  }

  lemma ZipAppend(r1: seq<int>, c1: seq<int>, r2: seq<int>, c2: seq<int>)
    requires |r1| == |c1| && |r2| == |c2|
    ensures Zip(r1 + r2, c1 + c2) == Zip(r1, c1) + Zip(r2, c2)
  {
  }

  /** The entries of the transpose. */
  function Mirror(ps: seq<Pair>): (ms: seq<Pair>)
    ensures |ms| == |ps|
  {
    if ps == [] then [] else [Pair(ps[0].col, ps[0].row)] + Mirror(ps[1..])
  }

  /** A + A^T, where duplicate COO entries add up. */
  function Assemble(ps: seq<Pair>): multiset<Pair>
  {
    multiset(ps) + multiset(Mirror(ps))
  }

  /** Entry (a, b) of A^T is entry (b, a) of A. */
  lemma {:induction false} MirrorCount(ps: seq<Pair>, a: int, b: int)
    ensures multiset(Mirror(ps))[Pair(a, b)] == multiset(ps)[Pair(b, a)]
    decreases |ps|
  {
    if ps != [] {
      assert ps == [ps[0]] + ps[1..];
      MirrorCount(ps[1..], a, b);
    }
  }

  /** A + A^T is symmetric whatever the collected pairs are. */
  lemma AssembleSymmetric(ps: seq<Pair>, a: int, b: int)
    ensures Assemble(ps)[Pair(a, b)] == Assemble(ps)[Pair(b, a)]
  {
    MirrorCount(ps, a, b);
    MirrorCount(ps, b, a);
  }

  lemma {:induction false} DistinctCount(ps: seq<Pair>, x: Pair)
    requires Distinct(ps)
    ensures multiset(ps)[x] <= 1
    decreases |ps|
  {
    if ps != [] {
      assert ps == [ps[0]] + ps[1..];
      assert Distinct(ps[1..]);
      if ps[0] == x {
        assert x !in ps[1..];
      }
      DistinctCount(ps[1..], x);
    }
  }

  /** All pairs strictly above the diagonal, inside an n-by-n matrix. */
  predicate UpperEntries(ps: seq<Pair>, n: int)
  {
    forall e :: 0 <= e < |ps| ==> 0 <= ps[e].row < ps[e].col < n
  }

  /** A symmetric 0/1 matrix of shape n-by-n with zero diagonal. */
  ghost predicate SimpleGraph(adj: multiset<Pair>, n: int)
  {
    && (forall p :: p in adj ==> 0 <= p.row < n && 0 <= p.col < n)
    && (forall a, b :: adj[Pair(a, b)] == adj[Pair(b, a)])
    && (forall a :: adj[Pair(a, a)] == 0)
    && (forall p :: adj[p] <= 1)
  }

  lemma UpperCount(ps: seq<Pair>, n: int, a: int, b: int)
    requires UpperEntries(ps, n) && b <= a
    ensures multiset(ps)[Pair(a, b)] == 0
  {
  }

  lemma UpperInRange(ps: seq<Pair>, n: int, p: Pair)
    requires UpperEntries(ps, n) && p in ps
    ensures 0 <= p.row < n && 0 <= p.col < n
  {
    var e :| 0 <= e < |ps| && ps[e] == p;
  }

  /** Weight of entry p of A + A^T when the collected pairs are distinct and
      above the diagonal: 1 on a collected pair or its mirror, 0 elsewhere. */
  lemma AssembleWeight(ps: seq<Pair>, n: int, p: Pair)
    requires Distinct(ps) && UpperEntries(ps, n)
    ensures Assemble(ps)[p] <= 1
    ensures p.row == p.col ==> Assemble(ps)[p] == 0
    ensures p in Assemble(ps) ==> 0 <= p.row < n && 0 <= p.col < n
  {
    var m := Pair(p.col, p.row);
    MirrorCount(ps, p.row, p.col);
    DistinctCount(ps, p);
    DistinctCount(ps, m);
    if p.row >= p.col {
      UpperCount(ps, n, p.row, p.col);
    }
    if p.col >= p.row {
      UpperCount(ps, n, p.col, p.row);
    }
    if p in ps {
      UpperInRange(ps, n, p);
    } else if m in ps {
      UpperInRange(ps, n, m);
    }
  }

  /** Distinct pairs above the diagonal assemble into a simple graph: the
      mirror of an entry never meets a collected entry, so no weight 2. */
  lemma AssembleSimple(ps: seq<Pair>, n: int)
    requires Distinct(ps) && UpperEntries(ps, n)
    ensures SimpleGraph(Assemble(ps), n)
  {
    forall p | p in Assemble(ps)
      ensures 0 <= p.row < n && 0 <= p.col < n
    {
      AssembleWeight(ps, n, p);
    }
    forall a, b
      ensures Assemble(ps)[Pair(a, b)] == Assemble(ps)[Pair(b, a)]
    {
      AssembleSymmetric(ps, a, b);
    }
    forall p
      ensures Assemble(ps)[p] <= 1
    {
      AssembleWeight(ps, n, p);
    }
    forall a
      ensures Assemble(ps)[Pair(a, a)] == 0
    {
      AssembleWeight(ps, n, Pair(a, a));
    }
  }

  // ---------------------------------------------------------------------
  // Where the sampled pairs land

  lemma DistinctConcat<T>(a: seq<T>, b: seq<T>)
    requires Distinct(a) && Distinct(b)
    requires forall i, j :: 0 <= i < |a| && 0 <= j < |b| ==> a[i] != b[j]
    ensures Distinct(a + b)
  {
  }

  /** Pair index s of community k lands strictly above the diagonal, with
      both endpoints in community k. */
  lemma IntraCellInCommunity(sizes: seq<nat>, k: nat, s: int)
    requires k < |sizes| && 0 <= s < Pairs(sizes[k])
    ensures var p := IntraCell(sizes, k, s);
      Start(sizes, k) <= p.row < p.col < Start(sizes, k + 1)
  {
    Ind2Sub4UpInMatrix(s + 1, sizes[k]);
    StartStep(sizes, k);
  }

  /** Grid index s of block k lands in row range of community k and in the
      column range of the communities after k. */
  lemma InterCellAcross(sizes: seq<nat>, k: nat, s: int)
    requires k < |sizes| && 0 <= s < sizes[k] * Rest(sizes, k)
    ensures Rest(sizes, k) > 0
    ensures var p := InterCell(sizes, k, s);
      && Start(sizes, k) <= p.row < Start(sizes, k + 1) <= p.col < Sum(sizes)
  {
    var w := Rest(sizes, k);
    DivBound(s, sizes[k], w);
    StartStep(sizes, k);
    var p := InterCell(sizes, k, s);
    assert p.row == s / w + Start(sizes, k);
    assert p.col == s % w + Start(sizes, k + 1);
  }

  lemma IntraBlockFacts(sizes: seq<nat>, intra: seq<seq<int>>, k: nat)
    requires IntraSamples(sizes, intra) && k < |sizes|
    ensures Distinct(IntraBlock(sizes, intra, k))
    ensures forall e :: 0 <= e < |intra[k]| ==>
      Start(sizes, k) <= IntraBlock(sizes, intra, k)[e].row < IntraBlock(sizes, intra, k)[e].col < Start(sizes, k + 1)
  {
    var ps := IntraBlock(sizes, intra, k);
    forall e | 0 <= e < |intra[k]|
      ensures Start(sizes, k) <= ps[e].row < ps[e].col < Start(sizes, k + 1)
    {
      IntraCellInCommunity(sizes, k, intra[k][e]);
    }
    forall a, b | 0 <= a < b < |ps|
      ensures ps[a] != ps[b]
    {
      if ps[a] == ps[b] {
        Ind2Sub4UpInjective(intra[k][a] + 1, intra[k][b] + 1);
      }
    }
  }

  lemma InterBlockFacts(sizes: seq<nat>, inter: seq<seq<int>>, k: nat)
    requires InterSamples(sizes, inter) && k < |inter|
    ensures Distinct(InterBlock(sizes, inter, k))
    ensures forall e :: 0 <= e < |inter[k]| ==>
      Start(sizes, k) <= InterBlock(sizes, inter, k)[e].row < Start(sizes, k + 1) <= InterBlock(sizes, inter, k)[e].col < Sum(sizes)
  {
    var ps := InterBlock(sizes, inter, k);
    forall e | 0 <= e < |inter[k]|
      ensures Start(sizes, k) <= ps[e].row < Start(sizes, k + 1) <= ps[e].col < Sum(sizes)
    {
      InterCellAcross(sizes, k, inter[k][e]);
    }
    forall a, b | 0 <= a < b < |ps|
      ensures ps[a] != ps[b]
    {
      var x, y := inter[k][a], inter[k][b];
      InterCellAcross(sizes, k, x);
      assert ps[a] == InterCell(sizes, k, x) && ps[b] == InterCell(sizes, k, y);
      if ps[a] == ps[b] {
        UnravelInjective(x, y, Rest(sizes, k));
      }
    }
  }

  /** Row-major unravelling loses nothing: quotient and remainder give back
      the grid index. */
  lemma UnravelInjective(x: int, y: int, w: int)
    requires w > 0 && x / w == y / w && x % w == y % w
    ensures x == y
  {
  }

  /** The intra-community pairs of communities 0 .. k-1 are distinct, above the
      diagonal, before node Start(k), and join two nodes of one community. */
  lemma {:induction false} IntraPairsFacts(sizes: seq<nat>, intra: seq<seq<int>>, k: nat)
    requires IntraSamples(sizes, intra) && k <= |sizes|
    ensures Distinct(IntraPairs(sizes, intra, k))
    ensures forall e :: 0 <= e < |IntraPairs(sizes, intra, k)| ==>
      var p := IntraPairs(sizes, intra, k)[e];
      && 0 <= p.row < p.col < Start(sizes, k) <= Sum(sizes)
      && Label(sizes, p.row) == Label(sizes, p.col)
  {
    StartMonotone(sizes, k, |sizes|);
    if k > 0 {
      var prev := IntraPairs(sizes, intra, k - 1);
      var block := IntraBlock(sizes, intra, k - 1);
      IntraPairsFacts(sizes, intra, k - 1);
      IntraBlockFacts(sizes, intra, k - 1);
      StartStep(sizes, k - 1);
      DistinctConcat(prev, block);
      assert IntraPairs(sizes, intra, k) == prev + block;
      forall e | 0 <= e < |block|
        ensures 0 <= block[e].row < block[e].col < Start(sizes, k)
        ensures Label(sizes, block[e].row) == Label(sizes, block[e].col)
      {
        LabelRange(sizes, block[e].row, k - 1);
        LabelRange(sizes, block[e].col, k - 1);
      }
      StartMonotone(sizes, k - 1, k);
    }
  }

  /** The inter-community pairs of blocks 0 .. k-1 are distinct, above the
      diagonal, start before node Start(k), and join a community to a later one. */
  lemma {:induction false} InterPairsFacts(sizes: seq<nat>, inter: seq<seq<int>>, k: nat)
    requires InterSamples(sizes, inter) && k <= |inter|
    ensures Distinct(InterPairs(sizes, inter, k))
    ensures forall e :: 0 <= e < |InterPairs(sizes, inter, k)| ==>
      var p := InterPairs(sizes, inter, k)[e];
      && 0 <= p.row < Start(sizes, k) && p.row < p.col < Sum(sizes)
      && Label(sizes, p.row) < Label(sizes, p.col)
  {
    if k > 0 {
      var prev := InterPairs(sizes, inter, k - 1);
      var block := InterBlock(sizes, inter, k - 1);
      InterPairsFacts(sizes, inter, k - 1);
      InterBlockFacts(sizes, inter, k - 1);
      StartStep(sizes, k - 1);
      DistinctConcat(prev, block);
      assert InterPairs(sizes, inter, k) == prev + block;
      forall e | 0 <= e < |block|
        ensures 0 <= block[e].row < Start(sizes, k) && block[e].row < block[e].col < Sum(sizes)
        ensures Label(sizes, block[e].row) < Label(sizes, block[e].col)
      {
        AcrossLabels(sizes, k - 1, block[e].row, block[e].col);
      }
      StartMonotone(sizes, k - 1, k);
    }
  }

  /** A node of community k and a node after community k's range have labels
      k and some later community. */
  lemma AcrossLabels(sizes: seq<nat>, k: nat, row: int, col: int)
    requires k < |sizes|
    requires Start(sizes, k) <= row < Start(sizes, k + 1) <= col < Sum(sizes)
    ensures Label(sizes, row) == k < Label(sizes, col)
  {
    StartStep(sizes, k);
    LabelRange(sizes, row, k);
    var lc := Label(sizes, col);
    LabelRange(sizes, col, lc);
    if lc <= k {
      StartMonotone(sizes, lc + 1, k + 1);
      StartStep(sizes, lc);
    }
  }

  /** All collected pairs are distinct and strictly above the diagonal of the
      N-by-N matrix; intra pairs never repeat inter pairs since the former
      join a community to itself and the latter to a later one. */
  lemma DirectedPairsFacts(sizes: seq<nat>, intra: seq<seq<int>>, inter: seq<seq<int>>)
    requires IntraSamples(sizes, intra) && InterSamples(sizes, inter)
    ensures Distinct(DirectedPairs(sizes, intra, inter))
    ensures UpperEntries(DirectedPairs(sizes, intra, inter), Sum(sizes))
  {
    var a := IntraPairs(sizes, intra, |sizes|);
    var b := InterPairs(sizes, inter, |inter|);
    IntraPairsFacts(sizes, intra, |sizes|);
    InterPairsFacts(sizes, inter, |inter|);
    DistinctConcat(a, b);
  }

  // ---------------------------------------------------------------------
  // The numpy array steps of the routine, elementwise

  /** Broadcast addition `s + d`. */
  function Plus(s: seq<int>, d: int): (r: seq<int>)
    ensures |r| == |s| && forall e :: 0 <= e < |s| ==> r[e] == s[e] + d
  {
    seq(|s|, e requires 0 <= e < |s| => s[e] + d)
  }

  /** `ind2sub4up` applied to an index array: each index is decoded to a
      cell above the diagonal whose linear index it is. */
  function Ind2Sub4UpArray(inds: seq<int>): (r: (seq<int>, seq<int>))
    requires forall e :: 0 <= e < |inds| ==> inds[e] >= 1
    ensures |r.0| == |inds| && |r.1| == |inds|
    ensures forall e :: 0 <= e < |inds| ==> 1 <= r.0[e] < r.1[e] && Sub2Ind4Up(r.0[e], r.1[e]) == inds[e]
  {
    (seq(|inds|, e requires 0 <= e < |inds| => Ind2Sub4Up(inds[e]).i),
     seq(|inds|, e requires 0 <= e < |inds| => Ind2Sub4Up(inds[e]).j))
  }

  /** `np.unravel_index(inds, (h, w))`, row-major: each index is row * w +
      column with the column below w, and an index inside the shape has its
      row below h. */
  function UnravelIndex(inds: seq<int>, h: nat, w: int): (r: (seq<int>, seq<int>))
    requires w > 0
    ensures |r.0| == |inds| && |r.1| == |inds|
    ensures forall e :: 0 <= e < |inds| ==> r.0[e] * w + r.1[e] == inds[e] && 0 <= r.1[e] < w
    ensures forall e :: 0 <= e < |inds| && 0 <= inds[e] < h * w ==> 0 <= r.0[e] < h
  {
    UnravelFacts(inds, h, w);
    (seq(|inds|, e requires 0 <= e < |inds| => inds[e] / w),
     seq(|inds|, e requires 0 <= e < |inds| => inds[e] % w))
  }

  lemma UnravelFacts(inds: seq<int>, h: nat, w: int)
    requires w > 0
    ensures forall e :: 0 <= e < |inds| ==>
      && (inds[e] / w) * w + inds[e] % w == inds[e] && 0 <= inds[e] % w < w
      && (0 <= inds[e] < h * w ==> 0 <= inds[e] / w < h)
  {
    forall e | 0 <= e < |inds|
      ensures (inds[e] / w) * w + inds[e] % w == inds[e] && 0 <= inds[e] % w < w
      ensures 0 <= inds[e] < h * w ==> 0 <= inds[e] / w < h
    {
      if 0 <= inds[e] < h * w {
        DivBound(inds[e], h, w);
      }
    }
  }

  /** Quotient and remainder are the only such decomposition. */
  lemma DivModUnique(x: int, w: int, a: int, b: int)
    requires w > 0 && a * w + b == x && 0 <= b < w
    ensures a == x / w && b == x % w
  {
    var q, r := x / w, x % w;
    assert (a - q) * w == r - b;
    if a - q >= 1 {
      MulAtLeast(a - q, w);
    } else if a - q <= -1 {
      MulAtLeast(q - a, w);
    }
  }

  lemma MulAtLeast(d: int, w: int)
    requires d >= 1 && w > 0
    ensures d * w >= w
  {
  }

  /** Cells above the diagonal whose linear indices are `inds` are the
      cells `ind2sub4up` decodes them to. */
  lemma DecodedCells(inds: seq<int>, inew: seq<int>, jnew: seq<int>)
    requires |inew| == |inds| && |jnew| == |inds|
    requires forall e :: 0 <= e < |inds| ==> 1 <= inew[e] < jnew[e] && Sub2Ind4Up(inew[e], jnew[e]) == inds[e]
    ensures forall e :: 0 <= e < |inds| ==> inds[e] >= 1 && Ind2Sub4Up(inds[e]) == Cell(inew[e], jnew[e])
  {
    forall e | 0 <= e < |inds|
      ensures inds[e] >= 1 && Ind2Sub4Up(inds[e]) == Cell(inew[e], jnew[e])
    {
      Ind2Sub4UpAt(inds[e], inew[e], jnew[e]);
    }
  }

  /** A row-major decomposition of `inds` over width w is quotient and remainder. */
  lemma UnravelledCells(inds: seq<int>, w: int, inew: seq<int>, jnew: seq<int>)
    requires w > 0 && |inew| == |inds| && |jnew| == |inds|
    requires forall e :: 0 <= e < |inds| ==> inew[e] * w + jnew[e] == inds[e] && 0 <= jnew[e] < w
    ensures forall e :: 0 <= e < |inds| ==> inew[e] == inds[e] / w && jnew[e] == inds[e] % w
  {
    forall e | 0 <= e < |inds|
      ensures inew[e] == inds[e] / w && jnew[e] == inds[e] % w
    {
      DivModUnique(inds[e], w, inew[e], jnew[e]);
    }
  }

  /** The arrays appended for community k are exactly its intra block. */
  lemma IntraBlockArrays(sizes: seq<nat>, intra: seq<seq<int>>, k: nat, rowsNew: seq<int>, colsNew: seq<int>)
    requires IntraSamples(sizes, intra) && k < |sizes|
    requires |rowsNew| == |intra[k]| && |colsNew| == |intra[k]|
    requires forall e :: 0 <= e < |intra[k]| ==>
      && rowsNew[e] == Ind2Sub4Up(intra[k][e] + 1).i - 1 + Start(sizes, k)
      && colsNew[e] == Ind2Sub4Up(intra[k][e] + 1).j - 1 + Start(sizes, k)
    ensures Zip(rowsNew, colsNew) == IntraBlock(sizes, intra, k)
  {
  }

  /** The arrays appended for block k are exactly its inter block. */
  lemma InterBlockArrays(sizes: seq<nat>, inter: seq<seq<int>>, k: nat, rowsNew: seq<int>, colsNew: seq<int>)
    requires InterSamples(sizes, inter) && k < |inter| && Rest(sizes, k) > 0
    requires |rowsNew| == |inter[k]| && |colsNew| == |inter[k]|
    requires forall e :: 0 <= e < |inter[k]| ==>
      && rowsNew[e] == inter[k][e] / Rest(sizes, k) + Start(sizes, k)
      && colsNew[e] == inter[k][e] % Rest(sizes, k) + Start(sizes, k + 1)
    ensures Zip(rowsNew, colsNew) == InterBlock(sizes, inter, k)
  {
  }

  /** Community k's step of the first loop: `edges = sample + 1`, the
      subscripts of `ind2sub4up(edges)` shifted to 0-based and then by the
      community's first node; the arrays pair up into k's intra block. */
  function IntraArrays(sizes: seq<nat>, intra: seq<seq<int>>, k: nat): (r: (seq<int>, seq<int>))
    requires IntraSamples(sizes, intra) && k < |sizes|
    ensures |r.0| == |r.1| && Zip(r.0, r.1) == IntraBlock(sizes, intra, k)
  {
    var lo := Start(sizes, k);
    var edges := Plus(intra[k], 1);
    var (inew, jnew) := Ind2Sub4UpArray(edges);
    DecodedCells(edges, inew, jnew);
    var rowsNew := Plus(Plus(inew, -1), lo);
    var colsNew := Plus(Plus(jnew, -1), lo);
    IntraBlockArrays(sizes, intra, k, rowsNew, colsNew);
    (rowsNew, colsNew)
  }

  /** Block k's step of the second loop for a non-empty draw: the sample
      unravelled over the block's `size_k` by `w` shape, rows shifted by the
      first node of community k and columns by the first node after it; the
      arrays pair up into block k. */
  function InterArrays(sizes: seq<nat>, inter: seq<seq<int>>, k: nat): (r: (seq<int>, seq<int>))
    requires InterSamples(sizes, inter) && k < |inter| && |inter[k]| != 0
    ensures |r.0| == |r.1| && Zip(r.0, r.1) == InterBlock(sizes, inter, k)
  {
    var w := Rest(sizes, k);
    SampleBound(inter[k], sizes[k], w, 0);
    var (inew, jnew) := UnravelIndex(inter[k], sizes[k], w);
    UnravelledCells(inter[k], w, inew, jnew);
    var rowsNew := Plus(inew, Start(sizes, k));
    var colsNew := Plus(jnew, Start(sizes, k + 1));
    InterBlockArrays(sizes, inter, k, rowsNew, colsNew);
    (rowsNew, colsNew)
  }

  /** Every node of community k's range gets label k. */
  lemma LabelOnRange(sizes: seq<nat>, k: nat)
    requires k < |sizes|
    ensures Start(sizes, k) <= Start(sizes, k + 1) <= Sum(sizes)
    ensures forall i :: Start(sizes, k) <= i < Start(sizes, k + 1) ==> Label(sizes, i) == k
  {
    StartMonotone(sizes, k + 1, |sizes|);
    StartStep(sizes, k);
    forall i | Start(sizes, k) <= i < Start(sizes, k + 1)
      ensures Label(sizes, i) == k
    {
      LabelRange(sizes, i, k);
    }
  }

  // ---------------------------------------------------------------------
  // The routine

  /** The first loop of `create_SBM`: for each community k, write label k
      over its node range of `truth` (zeros initially) and append the
      shifted subscripts of its sampled pairs to I and J. */
  method IntraCommunityLinks(n: nat, comSize: seq<nat>, intra: seq<seq<int>>)
    returns (labels: seq<int>, rows: seq<int>, cols: seq<int>)
    requires Sum(comSize) == n
    requires IntraSamples(comSize, intra)
    ensures |labels| == n && forall i :: 0 <= i < n ==> labels[i] == Label(comSize, i)
    ensures |rows| == |cols| && Zip(rows, cols) == IntraPairs(comSize, intra, |comSize|)
  {
    var q := |comSize|;
    rows, cols := [], [];
    var truth := new int[n](_ => 0);
    var k: nat := 0;
    while k < q
      invariant k <= q
      invariant Start(comSize, k) <= n
      invariant forall i :: 0 <= i < n ==> truth[i] == if i < Start(comSize, k) then Label(comSize, i) else 0
      invariant |rows| == |cols| && Zip(rows, cols) == IntraPairs(comSize, intra, k)
    {
      var lo := Start(comSize, k);
      var hi := Start(comSize, k + 1);
      LabelOnRange(comSize, k);
      forall i | lo <= i < hi {
        truth[i] := k;
      }
      var (rowsNew, colsNew) := IntraArrays(comSize, intra, k);
      ZipAppend(rows, cols, rowsNew, colsNew);
      rows := rows + rowsNew;
      cols := cols + colsNew;
      k := k + 1;
    }
    assert comSize[..q] == comSize;
    labels := truth[..];
  }

  /** The second loop of `create_SBM`: for each community k but the last,
      append the unravelled, shifted cells of block k (nothing when the
      drawn count is 0). */
  method InterCommunityLinks(comSize: seq<nat>, inter: seq<seq<int>>, rows0: seq<int>, cols0: seq<int>)
    returns (rows: seq<int>, cols: seq<int>)
    requires InterSamples(comSize, inter) && |rows0| == |cols0|
    ensures |rows| == |cols| && Zip(rows, cols) == Zip(rows0, cols0) + InterPairs(comSize, inter, |inter|)
  {
    var q := |comSize|;
    rows, cols := rows0, cols0;
    var k: nat := 0;
    while k < q - 1
      invariant k <= |inter|
      invariant |rows| == |cols|
      invariant Zip(rows, cols) == Zip(rows0, cols0) + InterPairs(comSize, inter, k)
    {
      if |inter[k]| != 0 {
        var (rowsNew, colsNew) := InterArrays(comSize, inter, k);
        AppendStep(rows, cols, rowsNew, colsNew, Zip(rows0, cols0), InterPairs(comSize, inter, k));
        rows := rows + rowsNew;
        cols := cols + colsNew;
      } else {
        assert InterBlock(comSize, inter, k) == [];
        assert InterPairs(comSize, inter, k + 1) == InterPairs(comSize, inter, k);
      }
      k := k + 1;
    }
  }

  /** Appending a block's arrays appends the block's pairs. */
  lemma AppendStep(rows: seq<int>, cols: seq<int>, rowsNew: seq<int>, colsNew: seq<int>, base: seq<Pair>, done: seq<Pair>)
    requires |rows| == |cols| && |rowsNew| == |colsNew|
    requires Zip(rows, cols) == base + done
    ensures Zip(rows + rowsNew, cols + colsNew) == base + (done + Zip(rowsNew, colsNew))
  {
    ZipAppend(rows, cols, rowsNew, colsNew);
    assert (base + done) + Zip(rowsNew, colsNew) == base + (done + Zip(rowsNew, colsNew));
  }

  /** `A, truth = create_SBM(N, q, c, epsi, com_size)` with the draws given:
      `intra[k]` is `random.sample(range(size_k (size_k - 1) / 2), E_k)` and
      `inter[k]` is the sample of block k (empty when its count is 0). */
  method CreateSbm(n: int, q: nat, comSize: seq<nat>, intra: seq<seq<int>>, inter: seq<seq<int>>)
    returns (r: Result<Graph>)
    requires |comSize| == q
    requires IntraSamples(comSize, intra) && InterSamples(comSize, inter)
    ensures r.Failure? <==> Sum(comSize) != n
    ensures r.Failure? ==> r.error == SizeMismatch
    ensures r.Success? ==> |r.value.truth| == n
    ensures r.Success? ==> forall i :: 0 <= i < n ==> r.value.truth[i] == Label(comSize, i)
    ensures r.Success? ==> r.value.adjacency == Assemble(DirectedPairs(comSize, intra, inter))
    ensures r.Success? ==> SimpleGraph(r.value.adjacency, n)
  {
    if Sum(comSize) != n {
      return Failure(SizeMismatch);
    }
    var truth, rows, cols := IntraCommunityLinks(n, comSize, intra);
    rows, cols := InterCommunityLinks(comSize, inter, rows, cols);
    var pairs := Zip(rows, cols);
    DirectedPairsFacts(comSize, intra, inter);
    AssembleSimple(pairs, n);
    r := Success(Graph(Assemble(pairs), truth));
  }

  /** A community of three nodes whose draw is every pair index, in order,
      contributes the triangle on its three nodes. */
  lemma TriangleBlock(sizes: seq<nat>, intra: seq<seq<int>>, k: nat)
    requires IntraSamples(sizes, intra) && k < |sizes|
    requires intra[k] == [0, 1, 2]
    ensures var s := Start(sizes, k);
      IntraBlock(sizes, intra, k) == [Pair(s, s + 1), Pair(s, s + 2), Pair(s + 1, s + 2)]
  {
    var ps := IntraBlock(sizes, intra, k);
    assert ps == [IntraCell(sizes, k, 0), IntraCell(sizes, k, 1), IntraCell(sizes, k, 2)];
    TriangleCells(sizes, k);
  }

  /** Pair indices 0, 1 and 2 are the cells (1,2), (1,3) and (2,3). */
  lemma TriangleCells(sizes: seq<nat>, k: nat)
    requires k < |sizes|
    ensures var s := Start(sizes, k);
      && IntraCell(sizes, k, 0) == Pair(s, s + 1)
      && IntraCell(sizes, k, 1) == Pair(s, s + 2)
      && IntraCell(sizes, k, 2) == Pair(s + 1, s + 2)
  {
    assert Pairs(1) == 0 && Pairs(2) == 1;
    IntraCellAt(sizes, k, 0, 1, 2);
    IntraCellAt(sizes, k, 1, 1, 3);
    IntraCellAt(sizes, k, 2, 2, 3);
  }

  lemma IntraCellAt(sizes: seq<nat>, k: nat, x: int, i: int, j: int)
    requires k < |sizes| && x >= 0 && 1 <= i < j && x + 1 == Pairs(j - 1) + i
    ensures IntraCell(sizes, k, x) == Pair(i - 1 + Start(sizes, k), j - 1 + Start(sizes, k))
  {
    Ind2Sub4UpAt(x + 1, i, j);
  }

  /** Two communities of three nodes with every intra pair drawn and no
      cross pair: the collected pairs are the two triangles. */
  lemma TwoTriangles(sizes: seq<nat>, intra: seq<seq<int>>, inter: seq<seq<int>>)
    requires sizes == [3, 3] && intra == [[0, 1, 2], [0, 1, 2]] && inter == [[]]
    ensures IntraSamples(sizes, intra) && InterSamples(sizes, inter)
    ensures DirectedPairs(sizes, intra, inter)
      == [Pair(0, 1), Pair(0, 2), Pair(1, 2), Pair(3, 4), Pair(3, 5), Pair(4, 5)]
  {
    TwoTrianglesSamples(sizes, intra, inter);
    TwoTrianglesStarts(sizes);
    TriangleBlock(sizes, intra, 0);
    TriangleBlock(sizes, intra, 1);
    IntraPairsOfTwo(sizes, intra);
    NoInterPairs(sizes, inter);
  }

  /** Two communities and an empty draw between them: no inter pairs. */
  lemma NoInterPairs(sizes: seq<nat>, inter: seq<seq<int>>)
    requires InterSamples(sizes, inter) && inter == [[]]
    ensures InterPairs(sizes, inter, |inter|) == []
  {
    assert InterBlock(sizes, inter, 0) == [];
  }

  lemma TwoTrianglesSamples(sizes: seq<nat>, intra: seq<seq<int>>, inter: seq<seq<int>>)
    requires sizes == [3, 3] && intra == [[0, 1, 2], [0, 1, 2]] && inter == [[]]
    ensures IntraSamples(sizes, intra) && InterSamples(sizes, inter)
  {
    assert Pairs(3) == 3;
    assert IsSample([0, 1, 2], 3);
  }

  lemma TwoTrianglesStarts(sizes: seq<nat>)
    requires sizes == [3, 3]
    ensures Start(sizes, 0) == 0 && Start(sizes, 1) == 3
  {
    StartStep(sizes, 0);
  }

  /** With two communities the intra pairs are the two blocks, in order. */
  lemma IntraPairsOfTwo(sizes: seq<nat>, intra: seq<seq<int>>)
    requires IntraSamples(sizes, intra) && |sizes| == 2
    ensures IntraPairs(sizes, intra, 2) == IntraBlock(sizes, intra, 0) + IntraBlock(sizes, intra, 1)
  {
    assert IntraPairs(sizes, intra, 1) == IntraBlock(sizes, intra, 0);
  }

  /** The ground truth of the same graph is 0, 0, 0, 1, 1, 1. */
  lemma TwoTrianglesLabels()
    ensures forall i :: 0 <= i < 6 ==> Label([3, 3], i) == if i < 3 then 0 else 1
  {
    var sizes := [3, 3];
    assert Start(sizes, 1) == 3 && Start(sizes, 2) == 6;
    forall i | 0 <= i < 6
      ensures Label(sizes, i) == if i < 3 then 0 else 1
    {
      LabelRange(sizes, i, if i < 3 then 0 else 1);
    }
  }
}
