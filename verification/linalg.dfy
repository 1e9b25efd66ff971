/**
 * The null space of an integer matrix, and the first basis vector of it that
 * `sympy.Matrix.nullspace` returns.
 *
 * sympy brings the matrix to reduced row echelon form; the columns without a
 * pivot are the free columns, and the first basis vector has a 1 in the first
 * free column `f`, zeros in the other free columns, and in each pivot column
 * the negated entry of column `f` in that pivot's row. Because every column
 * before `f` holds a pivot, that vector is characterised without reference to
 * any elimination: it is the null vector with a 1 at `f` and zeros after `f`,
 * where `f` is the first column that depends on the columns before it
 * (`IsFirstBasis`). `FirstNull` computes it by fraction-free Gauss-Jordan
 * elimination over the integers.
 */
module LinAlg {
  import opened Wrappers
  import opened Numbers

  type Matrix = seq<seq<int>>

  /** Every row has `n` entries. */
  predicate Rect(M: Matrix, n: nat)
  {
    forall i :: 0 <= i < |M| ==> |M[i]| == n
  }

  /** The rows of a two-dimensional array. */
  function Rows(A: array2<int>): (M: Matrix)
    reads A
    ensures |M| == A.Length0 && Rect(M, A.Length1)
    ensures forall i, j :: 0 <= i < A.Length0 && 0 <= j < A.Length1 ==> M[i][j] == A[i, j]
  {
    seq(A.Length0, i requires 0 <= i < A.Length0 reads A =>
      seq(A.Length1, j requires 0 <= j < A.Length1 reads A => A[i, j]))
  }

  /** The sum of the first `k` products `row[j] * x[j]`. */
  function DotTo(row: seq<int>, x: seq<real>, k: nat): real
    requires k <= |row| && k <= |x|
  {
    if k == 0 then 0.0 else DotTo(row, x, k - 1) + row[k - 1] as real * x[k - 1]
  }

  /** The product of an integer row with a real vector of the same length. */
  function Dot(row: seq<int>, x: seq<real>): real
    requires |row| == |x|
  {
    DotTo(row, x, |row|)
  }

  /** `x` is in the null space of `M`: every row's product with it is zero. */
  ghost predicate IsNull(M: Matrix, x: seq<real>)
  {
    forall i :: 0 <= i < |M| ==> |M[i]| == |x| && Dot(M[i], x) == 0.0
  }

  /** Every entry of `x` at or after index `f` is zero. */
  predicate ZeroFrom(x: seq<real>, f: nat)
  {
    forall j :: f <= j < |x| ==> x[j] == 0.0
  }

  predicate IsZero(x: seq<real>)
  {
    forall j :: 0 <= j < |x| ==> x[j] == 0.0
  }

  /** The first `f` columns of `M` are linearly independent: no non-zero null vector lives on them. */
  ghost predicate Independent(M: Matrix, n: nat, f: nat)
  {
    forall x {:trigger IsNull(M, x)} {:trigger ZeroFrom(x, f)} {:trigger IsZero(x)} ::
      |x| == n && IsNull(M, x) && ZeroFrom(x, f) ==> IsZero(x)
  }

  /** The null space of `M` holds the zero vector only, so `nullspace()` returns `[]`. */
  ghost predicate NullTrivial(M: Matrix, n: nat)
  {
    Independent(M, n, n)
  }

  /**
   * `v` is the first vector of `M.nullspace()`: the null vector with a 1 at
   * the first free column `f` and zeros after it, every column before `f`
   * being a pivot column.
   */
  ghost predicate IsFirstBasis(M: Matrix, n: nat, f: nat, v: seq<real>)
  {
    && f < n && |v| == n
    && IsNull(M, v)
    && v[f] == 1.0
    && (forall j :: f < j < n ==> v[j] == 0.0)
    && Independent(M, n, f)
  }

  // ---------------------------------------------------------------------------
  // Vectors and the linearity of the product

  function Sub(x: seq<real>, y: seq<real>): (d: seq<real>)
    requires |x| == |y|
    ensures |d| == |x| && forall j :: 0 <= j < |x| ==> d[j] == x[j] - y[j]
  {
    seq(|x|, j requires 0 <= j < |x| => x[j] - y[j])
  }

  function Scale(t: real, x: seq<real>): (s: seq<real>)
    ensures |s| == |x| && forall j :: 0 <= j < |x| ==> s[j] == t * x[j]
  {
    seq(|x|, j requires 0 <= j < |x| => t * x[j])
  }

  lemma {:induction false} DotToSub(row: seq<int>, x: seq<real>, y: seq<real>, k: nat)
    requires |x| == |y| && k <= |row| && k <= |x|
    ensures DotTo(row, Sub(x, y), k) == DotTo(row, x, k) - DotTo(row, y, k)
  {
    if k > 0 {
      DotToSub(row, x, y, k - 1);
      var a := row[k - 1] as real;
      assert a * (x[k - 1] - y[k - 1]) == a * x[k - 1] - a * y[k - 1];
    }
  }

  lemma {:induction false} DotToScale(row: seq<int>, t: real, x: seq<real>, k: nat)
    requires k <= |row| && k <= |x|
    ensures DotTo(row, Scale(t, x), k) == t * DotTo(row, x, k)
  {
    if k > 0 {
      DotToScale(row, t, x, k - 1);
      var a := row[k - 1] as real;
      assert a * (t * x[k - 1]) == t * (a * x[k - 1]);
    }
  }

  /** The difference of two null vectors is a null vector. */
  lemma SubNull(M: Matrix, x: seq<real>, y: seq<real>)
    requires |x| == |y| && IsNull(M, x) && IsNull(M, y)
    ensures IsNull(M, Sub(x, y))
  {
    forall i | 0 <= i < |M| ensures |M[i]| == |x| && Dot(M[i], Sub(x, y)) == 0.0 {
      DotToSub(M[i], x, y, |x|);
    }
  }

  /** A multiple of a null vector is a null vector. */
  lemma ScaleNull(M: Matrix, t: real, x: seq<real>)
    requires IsNull(M, x)
    ensures IsNull(M, Scale(t, x))
  {
    forall i | 0 <= i < |M| ensures |M[i]| == |x| && Dot(M[i], Scale(t, x)) == 0.0 {
      DotToScale(M[i], t, x, |x|);
    }
  }

  /**
   * When every product except those at indices `p` and `q` vanishes, the
   * partial sum consists of those two products (each only once it is reached).
   */
  lemma {:induction false} DotToTwoTerms(row: seq<int>, x: seq<real>, k: nat, p: nat, q: nat)
    requires k <= |row| && k <= |x| && p != q
    requires forall j :: 0 <= j < k && j != p && j != q ==> row[j] as real * x[j] == 0.0
    ensures DotTo(row, x, k)
         == (if p < k then row[p] as real * x[p] else 0.0)
          + (if q < k then row[q] as real * x[q] else 0.0)
  {
    if k > 0 {
      DotToTwoTerms(row, x, k - 1, p, q);
    }
  }

  // ---------------------------------------------------------------------------
  // The first basis vector is unique

  /**
   * At most one first column and one vector meet `IsFirstBasis`, so the
   * predicate pins down what `nullspace()[0]` is.
   */
  lemma FirstBasisUnique(M: Matrix, n: nat, f: nat, v: seq<real>, f': nat, v': seq<real>)
    requires IsFirstBasis(M, n, f, v) && IsFirstBasis(M, n, f', v')
    ensures f == f' && v == v'
  {
    assert ZeroFrom(v, f') ==> IsZero(v);
    assert ZeroFrom(v', f) ==> IsZero(v');
    assert f' <= f by {
      assert v[f] != 0.0;
    }
    assert f <= f' by {
      assert v'[f'] != 0.0;
    }
    var d := Sub(v, v');
    SubNull(M, v, v');
    assert ZeroFrom(d, f);
    assert IsZero(d);
    assert forall j :: 0 <= j < n ==> v[j] == v'[j];
  }

  /** A first basis vector is a non-zero null vector, so the null space is not trivial. */
  lemma FirstBasisNonTrivial(M: Matrix, n: nat, f: nat, v: seq<real>)
    requires IsFirstBasis(M, n, f, v)
    ensures !NullTrivial(M, n)
  {
    assert ZeroFrom(v, n);
    assert !IsZero(v) by {
      assert v[f] == 1.0;
    }
  }

  // ---------------------------------------------------------------------------
  // Row operations keep the null space

  /** `M` and `R` have the same null vectors of length `n`. */
  ghost predicate SameNull(M: Matrix, R: Matrix, n: nat)
  {
    forall x {:trigger IsNull(M, x)} {:trigger IsNull(R, x)} :: |x| == n ==> (IsNull(M, x) <==> IsNull(R, x))
  }

  /** `a * rk - b * rr`, entry by entry. */
  function Combine(a: int, rk: seq<int>, b: int, rr: seq<int>): (r: seq<int>)
    requires |rk| == |rr|
    ensures |r| == |rk| && forall j :: 0 <= j < |rk| ==> r[j] == a * rk[j] - b * rr[j]
  {
    seq(|rk|, j requires 0 <= j < |rk| => a * rk[j] - b * rr[j])
  }

  lemma {:induction false} DotToCombine(a: int, rk: seq<int>, b: int, rr: seq<int>, x: seq<real>, k: nat)
    requires |rk| == |rr| && k <= |rk| && k <= |x|
    ensures DotTo(Combine(a, rk, b, rr), x, k)
         == a as real * DotTo(rk, x, k) - b as real * DotTo(rr, x, k)
  {
    if k > 0 {
      DotToCombine(a, rk, b, rr, x, k - 1);
      var j := k - 1;
      assert (a * rk[j] - b * rr[j]) as real * x[j]
          == a as real * (rk[j] as real * x[j]) - b as real * (rr[j] as real * x[j]);
    }
  }

  /**
   * Replacing row `k` by `a * R[k] - b * R[r]`, with `a` non-zero and `r`
   * another row, changes no null vector.
   */
  lemma CombineNull(R: Matrix, n: nat, k: nat, r: nat, a: int, b: int)
    requires Rect(R, n) && k < |R| && r < |R| && k != r && a != 0
    ensures SameNull(R, R[k := Combine(a, R[k], b, R[r])], n)
  {
    var R' := R[k := Combine(a, R[k], b, R[r])];
    forall x {:trigger IsNull(R, x)} {:trigger IsNull(R', x)} | |x| == n ensures IsNull(R, x) <==> IsNull(R', x) {
      DotToCombine(a, R[k], b, R[r], x, n);
      if IsNull(R', x) {
        assert Dot(R'[r], x) == 0.0 && Dot(R'[k], x) == 0.0;
        assert a as real != 0.0;
        assert a as real * Dot(R[k], x) == 0.0;
        assert Dot(R[k], x) == 0.0;
        forall i | 0 <= i < |R| ensures Dot(R[i], x) == 0.0 {
          if i != k {
            assert R[i] == R'[i];
          }
        }
      }
    }
  }

  /** Swapping two rows changes no null vector. */
  lemma SwapNull(R: Matrix, n: nat, c: nat, p: nat)
    requires Rect(R, n) && c < |R| && p < |R|
    ensures SameNull(R, R[c := R[p]][p := R[c]], n)
  {
    var R' := R[c := R[p]][p := R[c]];
    forall x {:trigger IsNull(R, x)} {:trigger IsNull(R', x)} | |x| == n ensures IsNull(R, x) <==> IsNull(R', x) {
      if IsNull(R, x) {
        forall i | 0 <= i < |R'| ensures Dot(R'[i], x) == 0.0 {
          var s := if i == p then c else if i == c then p else i;
          assert R'[i] == R[s];
        }
      }
      if IsNull(R', x) {
        forall i | 0 <= i < |R| ensures Dot(R[i], x) == 0.0 {
          var s := if i == p then c else if i == c then p else i;
          assert R[i] == R'[s];
        }
      }
    }
  }

  // ---------------------------------------------------------------------------
  // The reduced form the elimination keeps

  /**
   * Columns `0..c-1` are done: column `i` has its non-zero pivot in row `i`
   * and zeros in every other row.
   */
  predicate Reduced(R: Matrix, n: nat, c: nat)
    requires Rect(R, n)
  {
    && c <= |R| && c <= n
    && (forall i :: 0 <= i < c ==> R[i][i] != 0)
    && (forall k, i :: 0 <= k < |R| && 0 <= i < c && k != i ==> R[k][i] == 0)
  }

  /** In reduced form the first `c` columns are independent. */
  lemma ReducedIndependent(R: Matrix, n: nat, c: nat)
    requires Rect(R, n) && Reduced(R, n, c)
    ensures Independent(R, n, c)
  {
    forall x {:trigger IsNull(R, x)} | |x| == n && IsNull(R, x) && ZeroFrom(x, c) ensures IsZero(x) {
      forall i | 0 <= i < c ensures x[i] == 0.0 {
        DotToTwoTerms(R[i], x, n, i, n);
        assert R[i][i] as real * x[i] == 0.0;
      }
    }
  }

  /** The real values the first basis vector takes once column `c` is found to be free. */
  ghost function BasisReals(R: Matrix, n: nat, c: nat): (v: seq<real>)
    requires Rect(R, n) && Reduced(R, n, c) && c < n
    ensures |v| == n
  {
    seq(n, j requires 0 <= j < n =>
      if j < c then -(R[j][c] as real) / (R[j][j] as real)
      else if j == c then 1.0
      else 0.0)
  }

  /** When no row from `c` on has an entry in column `c`, the basis vector is a null vector. */
  lemma BasisRealsNull(R: Matrix, n: nat, c: nat)
    requires Rect(R, n) && Reduced(R, n, c) && c < n
    requires forall k :: c <= k < |R| ==> R[k][c] == 0
    ensures IsNull(R, BasisReals(R, n, c))
  {
    forall k | 0 <= k < |R| ensures Dot(R[k], BasisReals(R, n, c)) == 0.0 {
      BasisRowNull(R, n, c, k);
    }
  }

  /** One row of `BasisRealsNull`: a pivot row meets `-q/p` and `1`, any other row only zeros. */
  lemma BasisRowNull(R: Matrix, n: nat, c: nat, k: nat)
    requires Rect(R, n) && Reduced(R, n, c) && c < n && k < |R|
    requires forall k :: c <= k < |R| ==> R[k][c] == 0
    ensures Dot(R[k], BasisReals(R, n, c)) == 0.0
  {
    if k < c {
      PivotRowNull(R, n, c, k);
    } else {
      OtherRowNull(R, n, c, k);
    }
  }

  lemma PivotRowNull(R: Matrix, n: nat, c: nat, k: nat)
    requires Rect(R, n) && Reduced(R, n, c) && c < n && k < c
    ensures Dot(R[k], BasisReals(R, n, c)) == 0.0
  {
    var v := BasisReals(R, n, c);
    forall j | 0 <= j < n && j != k && j != c ensures R[k][j] as real * v[j] == 0.0 {
      if j < c {
        assert R[k][j] == 0;
      } else {
        assert v[j] == 0.0;
      }
    }
    DotToTwoTerms(R[k], v, n, k, c);
    var p, q := R[k][k] as real, R[k][c] as real;
    assert v[k] == -q / p && v[c] == 1.0;
    RatioCancels(p, q);
  }

  lemma OtherRowNull(R: Matrix, n: nat, c: nat, k: nat)
    requires Rect(R, n) && Reduced(R, n, c) && c < n && c <= k < |R| && R[k][c] == 0
    ensures Dot(R[k], BasisReals(R, n, c)) == 0.0
  {
    var v := BasisReals(R, n, c);
    forall j | 0 <= j < n ensures R[k][j] as real * v[j] == 0.0 {
      if j <= c {
        assert R[k][j] == 0;
      } else {
        assert v[j] == 0.0;
      }
    }
    DotToTwoTerms(R[k], v, n, n, n + 1);
  }

  lemma RatioCancels(p: real, q: real)
    requires p != 0.0
    ensures p * (-q / p) + q * 1.0 == 0.0
  {
  }

  /** The exact rationals of the basis vector: `-R[j][c] / R[j][j]` before `c`, 1 at `c`, 0 after. */
  function BasisVector(R: Matrix, n: nat, c: nat): (v: seq<Rat>)
    requires Rect(R, n) && Reduced(R, n, c) && c < n
    ensures |v| == n && forall j :: 0 <= j < n ==> v[j].Normal()
  {
    seq(n, j requires 0 <= j < n =>
      if j < c then MakeRat(-R[j][c], R[j][j])
      else if j == c then Rat(1, 1)
      else Rat(0, 1))
  }

  /** The real values of a list of rationals. */
  function Values(v: seq<Rat>): (x: seq<real>)
    requires forall j :: 0 <= j < |v| ==> v[j].Normal()
    ensures |x| == |v| && forall j :: 0 <= j < |v| ==> x[j] == v[j].Value()
  {
    seq(|v|, j requires 0 <= j < |v| => v[j].Value())
  }

  lemma BasisVectorValues(R: Matrix, n: nat, c: nat)
    requires Rect(R, n) && Reduced(R, n, c) && c < n
    ensures Values(BasisVector(R, n, c)) == BasisReals(R, n, c)
  {
    var v, x := BasisVector(R, n, c), BasisReals(R, n, c);
    forall j | 0 <= j < n ensures v[j].Value() == x[j] {
      if j < c {
        assert (-R[j][c]) as real == -(R[j][c] as real);
      }
    }
  }

  // ---------------------------------------------------------------------------
  // The elimination

  /** The first free column and the first basis vector, as exact rationals. */
  datatype Basis = Basis(free: nat, vec: seq<Rat>)

  /**
   * `M.nullspace()[0]`, or `None` when the null space is trivial. Columns are
   * processed from the left; a column with a non-zero entry at or below the
   * diagonal gets a pivot, which is swapped into place and cleared from every
   * other row; the first column without one is the first free column.
   */
  method FirstNull(M: Matrix, n: nat) returns (r: Option<Basis>)
    requires Rect(M, n)
    ensures r.None? <==> NullTrivial(M, n)
    ensures r.Some? ==> |r.value.vec| == n && forall j :: 0 <= j < n ==> r.value.vec[j].Normal()
    ensures r.Some? ==> r.value.free < n && r.value.vec[r.value.free] == Rat(1, 1)
    ensures r.Some? ==> IsFirstBasis(M, n, r.value.free, Values(r.value.vec))
  {
    var R := M;
    var m := |M|;
    var c := 0;
    while c < n
      invariant |R| == m && Rect(R, n)
      invariant Reduced(R, n, c)
      invariant SameNull(M, R, n)
    {
      var p := c;
      while p < m && R[p][c] == 0
        invariant c <= p <= m
        invariant forall k :: c <= k < p ==> R[k][c] == 0
      {
        p := p + 1;
      }
      if p == m {
        var vec := BasisVector(R, n, c);
        BasisVectorValues(R, n, c);
        BasisRealsNull(R, n, c);
        ReducedIndependent(R, n, c);
        FreeColumnBasis(M, R, n, c);
        r := Some(Basis(c, vec));
        FirstBasisNonTrivial(M, n, c, Values(vec));
        return;
      }
      SwapNull(R, n, c, p);
      R := R[c := R[p]][p := R[c]];
      R := ClearColumn(M, R, n, c);
      c := c + 1;
    }
    ReducedIndependent(R, n, n);
    TransferIndependent(M, R, n, n);
    r := None;
  }

  /** Independence of the first `f` columns carries over between matrices with the same null space. */
  lemma TransferIndependent(M: Matrix, R: Matrix, n: nat, f: nat)
    requires SameNull(M, R, n) && Independent(R, n, f)
    ensures Independent(M, n, f)
  {
  }

  lemma FreeColumnBasis(M: Matrix, R: Matrix, n: nat, c: nat)
    requires Rect(R, n) && Reduced(R, n, c) && c < n
    requires SameNull(M, R, n) && IsNull(R, BasisReals(R, n, c)) && Independent(R, n, c)
    ensures IsFirstBasis(M, n, c, BasisReals(R, n, c))
  {
    TransferIndependent(M, R, n, c);
  }

  /**
   * With the pivot of column `c` in row `c`, every other row `k` becomes
   * `R[c][c] * R[k] - R[k][c] * R[c]`, which clears column `c` outside the
   * pivot row and keeps the columns already done.
   */
  method ClearColumn(ghost M: Matrix, R0: Matrix, n: nat, c: nat) returns (R: Matrix)
    requires Rect(R0, n) && Reduced(R0, n, c) && c < n && c < |R0| && R0[c][c] != 0
    requires SameNull(M, R0, n)
    ensures |R| == |R0| && Rect(R, n) && Reduced(R, n, c + 1) && SameNull(M, R, n)
  {
    R := R0;
    var m := |R0|;
    var piv := R0[c][c];
    for k := 0 to m
      invariant |R| == m && Rect(R, n) && SameNull(M, R, n)
      invariant R[c] == R0[c]
      invariant Reduced(R, n, c)
      invariant forall k' :: 0 <= k' < k && k' != c ==> R[k'][c] == 0
    {
      if k != c {
        CombineNull(R, n, k, c, piv, R[k][c]);
        var row := Combine(piv, R[k], R[k][c], R[c]);
        CombineKeepsReduced(R, n, c, k, row);
        R := R[k := row];
      }
    }
  }

  lemma CombineKeepsReduced(R: Matrix, n: nat, c: nat, k: nat, row: seq<int>)
    requires Rect(R, n) && Reduced(R, n, c) && c < n && c < |R| && R[c][c] != 0
    requires k < |R| && k != c && row == Combine(R[c][c], R[k], R[k][c], R[c])
    ensures Rect(R[k := row], n) && Reduced(R[k := row], n, c)
    ensures row[c] == 0
  {
    var piv, b := R[c][c], R[k][c];
    assert row[c] == piv * b - b * piv;
    forall i | 0 <= i < c ensures row[i] == (if i == k then piv * R[k][k] else 0) {
      assert R[c][i] == 0;
    }
    if k < c {
      assert piv * R[k][k] != 0;
    }
  }
}
