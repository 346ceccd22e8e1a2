/** The three grid comparisons: shape, presence of values, and cell-wise similarity. */
module Metrics {
  import opened Wrappers
  import opened Grids

  /** Every row as long as the first: what NumPy can turn into a 2-D array. */
  predicate Rectangular(g: Grid) {
    forall i :: 0 <= i < |g| ==> |g[i]| == |g[0]|
  }

  /** Same number of rows, and row by row the same length. */
  predicate SameShape(a: Grid, b: Grid) {
    |a| == |b| && forall i :: 0 <= i < |a| ==> |a[i]| == |b[i]|
  }

  /** `np.asarray(g).shape`: `(0,)` for the empty list, `(rows, columns)` for a
      rectangular grid, and no shape (a `ValueError`, NumPy 1.24 and later) for a ragged one. */
  function ArrayShape(g: Grid): Option<seq<nat>> {
    if !Rectangular(g) then None
    else if g == [] then Some([0])
    else Some([|g|, |g[0]|])
  }

  /** `compute_shape`: 1.0 when the two array shapes agree, 0.0 when they differ,
      and None when either grid is ragged and `np.asarray` raises. */
  function ComputeShape(a: Grid, b: Grid): (score: Option<real>)
    ensures score.None? <==> !Rectangular(a) || !Rectangular(b)
    ensures score == Some(1.0) <==> Rectangular(a) && Rectangular(b) && SameShape(a, b)
    ensures score == Some(0.0) <==> Rectangular(a) && Rectangular(b) && !SameShape(a, b)
  {
    match (ArrayShape(a), ArrayShape(b))
    case (Some(sa), Some(sb)) =>
      assert Rectangular(a) && Rectangular(b);
      assert sa == sb <==> SameShape(a, b) by {
        if |a| == |b| && |a| > 0 && |a[0]| == |b[0]| {
          assert forall i :: 0 <= i < |a| ==> |a[i]| == |a[0]| == |b[0]| == |b[i]|;
        }
        if sa == sb && a != [] { assert |a| == |b|; }
      }
      Some(if sa == sb then 1.0 else 0.0)
    case _ => None
  }

  /** `{val for row in g for val in row}`. */
  function Values(g: Grid): set<int> {
    set row, v | row in g && v in row :: v
  }

  /** Every value that occurs in one grid occurs in the other. */
  ghost predicate SameValues(a: Grid, b: Grid) {
    forall v :: v in Flatten(a) <==> v in Flatten(b)
  }

  /** `compute_presence`: 1.0 exactly when both grids hold the same distinct values. */
  function ComputePresence(a: Grid, b: Grid): (score: real)
    ensures score == 0.0 || score == 1.0
    ensures score == 1.0 <==> SameValues(a, b)
  {
    ValuesFlatten(a);
    ValuesFlatten(b);
    assert Values(a) == Values(b) <==> SameValues(a, b) by {
      if SameValues(a, b) {
        assert forall v :: v in Values(a) <==> v in Values(b);
      }
    }
    if Values(a) == Values(b) then 1.0 else 0.0
  }

  lemma {:induction false} ValuesFlatten(g: Grid)
    ensures forall v :: v in Values(g) <==> v in Flatten(g)
    decreases |g|
  {
    if g != [] {
      ValuesFlatten(g[1..]);
      forall v ensures v in Values(g) <==> v in g[0] || v in Values(g[1..]) {
        if v in Values(g) {
          var row :| row in g && v in row;
          if row != g[0] {
            assert row in g[1..];
          }
        }
        if v in Values(g[1..]) {
          var row :| row in g[1..] && v in row;
          assert row in g;
        }
      }
    }
  }

  lemma {:induction false} FlattenAppend(a: Grid, row: seq<int>)
    ensures Flatten(a + [row]) == Flatten(a) + row
    decreases |a|
  {
    if a == [] {
      assert [] + [row] == [row];
    } else {
      assert (a + [row])[1..] == a[1..] + [row];
      FlattenAppend(a[1..], row);
    }
  }

  /** Presence ignores how the cells are arranged: a permutation of the cells changes nothing. */
  lemma PresenceIgnoresArrangement(a: Grid, a2: Grid, b: Grid)
    requires multiset(Flatten(a)) == multiset(Flatten(a2))
    ensures ComputePresence(a, b) == ComputePresence(a2, b)
  {
    forall v ensures v in Flatten(a) <==> v in Flatten(a2) {
      assert v in Flatten(a) <==> v in multiset(Flatten(a));
      assert v in Flatten(a2) <==> v in multiset(Flatten(a2));
    }
  }

  /** Presence ignores duplicates: a further row of values already present changes nothing. */
  lemma PresenceIgnoresDuplicates(a: Grid, row: seq<int>, b: Grid)
    requires forall v :: v in row ==> v in Flatten(a)
    ensures ComputePresence(a + [row], b) == ComputePresence(a, b)
  {
    FlattenAppend(a, row);
  }

  /** How many positions of two equally long rows hold equal values. */
  function Agreements(x: seq<int>, y: seq<int>): (n: nat)
    requires |x| == |y|
    ensures n <= |x|
    ensures n == |x| <==> x == y
    ensures n == 0 <==> forall i :: 0 <= i < |x| ==> x[i] != y[i]
  {
    if x == [] then 0
    else
      var rest := Agreements(x[1..], y[1..]);
      assert x == y <==> x[0] == y[0] && x[1..] == y[1..] by {
        if x[0] == y[0] && x[1..] == y[1..] { assert x == [x[0]] + x[1..] && y == [y[0]] + y[1..]; }
      }
      assert (forall i :: 0 <= i < |x| ==> x[i] != y[i])
        <==> x[0] != y[0] && forall i :: 0 <= i < |x| - 1 ==> x[1..][i] != y[1..][i] by {
        if x[0] != y[0] && forall i :: 0 <= i < |x| - 1 ==> x[1..][i] != y[1..][i] {
          forall i | 0 < i < |x| ensures x[i] != y[i] { assert x[i] == x[1..][i - 1]; }
        }
      }
      (if x[0] == y[0] then 1 else 0) + rest
  }

  lemma AppendCancel(p: seq<int>, q: seq<int>, x: seq<int>, y: seq<int>)
    requires |p| == |q|
    ensures p + x == q + y <==> p == q && x == y
  {
    if p + x == q + y {
      assert p == (p + x)[..|p|] == (q + y)[..|q|] == q;
      assert x == (p + x)[|p|..] == (q + y)[|q|..] == y;
    }
  }

  /** Grids of the same shape have as many cells, and flatten equally only when they are equal. */
  lemma {:induction false} FlattenSameShape(a: Grid, b: Grid)
    requires SameShape(a, b)
    ensures |Flatten(a)| == |Flatten(b)|
    ensures Flatten(a) == Flatten(b) <==> a == b
    decreases |a|
  {
    if a != [] {
      assert SameShape(a[1..], b[1..]) by {
        forall i | 0 <= i < |a| - 1 ensures |a[1..][i]| == |b[1..][i]| { assert a[1..][i] == a[i + 1]; }
      }
      FlattenSameShape(a[1..], b[1..]);
      AppendCancel(a[0], b[0], Flatten(a[1..]), Flatten(b[1..]));
      assert a == b <==> a[0] == b[0] && a[1..] == b[1..] by {
        if a[0] == b[0] && a[1..] == b[1..] { assert a == [a[0]] + a[1..] && b == [b[0]] + b[1..]; }
      }
    }
  }

  lemma Fraction(n: nat, c: nat)
    requires n <= c && c > 0
    ensures 0.0 <= n as real / c as real <= 1.0
    ensures n as real / c as real == 1.0 <==> n == c
    ensures n as real / c as real == 0.0 <==> n == 0
  {
    var r := n as real / c as real;
    assert r * c as real == n as real;
  }

  /** `fast_similarity_2d` on grids of equal shape: the mean over all cells of
      "the two cells are equal". */
  function Similarity(a: Grid, b: Grid): (r: real)
    requires SameShape(a, b) && |Flatten(a)| > 0
    ensures 0.0 <= r <= 1.0
    ensures r == 1.0 <==> a == b
  {
    FlattenSameShape(a, b);
    var n := Agreements(Flatten(a), Flatten(b));
    Fraction(n, |Flatten(a)|);
    n as real / |Flatten(a)| as real
  }

  /** The positions from `k` on where two rows agree. */
  function AgreeingFrom(x: seq<int>, y: seq<int>, k: nat): set<nat> {
    set i: nat | k <= i < |x| && i < |y| && x[i] == y[i]
  }

  /** `Agreements` counts exactly the agreeing positions of the suffixes from `k`. */
  lemma {:induction false} AgreementsFrom(x: seq<int>, y: seq<int>, k: nat)
    requires |x| == |y| && k <= |x|
    ensures Agreements(x[k..], y[k..]) == |AgreeingFrom(x, y, k)|
    decreases |x| - k
  {
    if k == |x| {
      assert AgreeingFrom(x, y, k) == {};
    } else {
      AgreementsFrom(x, y, k + 1);
      assert x[k..][1..] == x[k + 1..] && y[k..][1..] == y[k + 1..];
      var here: set<nat> := if x[k] == y[k] then {k} else {};
      assert AgreeingFrom(x, y, k) == here + AgreeingFrom(x, y, k + 1);
      assert here !! AgreeingFrom(x, y, k + 1);
    }
  }

  /** The similarity of two grids of equal shape is the number of cells, in row-major
      order, that agree with the other grid's cell, over the number of cells. */
  lemma SimilarityCountsAgreeingCells(a: Grid, b: Grid)
    requires SameShape(a, b) && |Flatten(a)| > 0
    ensures Similarity(a, b) == |AgreeingFrom(Flatten(a), Flatten(b), 0)| as real / |Flatten(a)| as real
  {
    FlattenSameShape(a, b);
    AgreementsFrom(Flatten(a), Flatten(b), 0);
    assert Flatten(a)[0..] == Flatten(a) && Flatten(b)[0..] == Flatten(b);
  }
}
