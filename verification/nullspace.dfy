/**
 * `nullspace_integer`: the first null-space basis vector of the conservation
 * matrix, scaled to integers by the lcm of its denominators, signed so that
 * its first non-zero entry is positive, and divided by the gcd of its
 * absolute values.
 */
module Nullspace {
  import opened Wrappers
  import opened Numbers
  import opened LinAlg

  /**
   * How `nullspace_integer` fails: the `ValueError` it raises itself for a
   * trivial null space, or the `TypeError` of `sympy.ilcm` called with fewer
   * than two denominators.
   */
  datatype NullspaceError = NoSolution | ArityError

  /** The sum of the first `k` products `row[j] * w[j]` over the integers. */
  function IntDotTo(row: seq<int>, w: seq<int>, k: nat): int
    requires k <= |row| && k <= |w|
  {
    if k == 0 then 0 else IntDotTo(row, w, k - 1) + row[k - 1] * w[k - 1]
  }

  /** `A · w = 0` for an integer vector `w`. */
  predicate IntNull(M: Matrix, w: seq<int>)
  {
    forall i :: 0 <= i < |M| ==> |M[i]| == |w| && IntDotTo(M[i], w, |w|) == 0
  }

  function Reals(w: seq<int>): (x: seq<real>)
    ensures |x| == |w| && forall j :: 0 <= j < |w| ==> x[j] == w[j] as real
  {
    seq(|w|, j requires 0 <= j < |w| => w[j] as real)
  }

  lemma {:induction false} IntDotToReals(row: seq<int>, w: seq<int>, k: nat)
    requires k <= |row| && k <= |w|
    ensures DotTo(row, Reals(w), k) == IntDotTo(row, w, k) as real
  {
    if k > 0 {
      IntDotToReals(row, w, k - 1);
    }
  }

  /** An integer vector whose real values are a null vector is an integer null vector. */
  lemma IntNullOfReals(M: Matrix, w: seq<int>)
    requires IsNull(M, Reals(w))
    ensures IntNull(M, w)
  {
    forall i | 0 <= i < |M| ensures |M[i]| == |w| && IntDotTo(M[i], w, |w|) == 0 {
      IntDotToReals(M[i], w, |w|);
    }
  }

  /** Index of the first non-zero entry, or the length when there is none. */
  function FirstNonzero(w: seq<int>): (i: nat)
    ensures i <= |w| && (i < |w| ==> w[i] != 0)
    ensures forall j :: 0 <= j < i ==> w[j] == 0
  {
    if w == [] then 0
    else if w[0] != 0 then 0
    else 1 + FirstNonzero(w[1..])
  }

  function AbsAll(w: seq<int>): (a: seq<nat>)
    ensures |a| == |w| && forall j :: 0 <= j < |w| ==> a[j] == Abs(w[j])
  {
    seq(|w|, j requires 0 <= j < |w| => Abs(w[j]))
  }

  /** The denominators of a vector of rationals in lowest terms. */
  function Denoms(v: seq<Rat>): (d: seq<nat>)
    requires forall j :: 0 <= j < |v| ==> v[j].Normal()
    ensures |d| == |v| && forall j :: 0 <= j < |v| ==> d[j] == v[j].den && d[j] > 0
  {
    seq(|v|, j requires 0 <= j < |v| => Denom(v[j]))
  }

  /** `vec * lcm` once simplified: entry `num / den` becomes the integer `num * (L / den)`. */
  function ScaleBy(vec: seq<Rat>, L: nat): (s: seq<int>)
    requires forall j :: 0 <= j < |vec| ==> vec[j].Normal()
    ensures |s| == |vec|
  {
    seq(|vec|, j requires 0 <= j < |vec| => vec[j].num * (L / Denom(vec[j])))
  }

  /** `vec * sign`. */
  function Times(s: seq<int>, sign: int): (r: seq<int>)
    ensures |r| == |s| && forall j :: 0 <= j < |s| ==> r[j] == s[j] * sign
  {
    seq(|s|, j requires 0 <= j < |s| => s[j] * sign)
  }

  /** Every entry floor-divided by `g`. */
  function DivideAll(s: seq<int>, g: nat): (r: seq<int>)
    requires g > 0
    ensures |r| == |s| && forall j :: 0 <= j < |s| ==> r[j] == FloorDiv(s[j], g)
  {
    seq(|s|, j requires 0 <= j < |s| => FloorDiv(s[j], g))
  }

  /**
   * `w` is a non-zero multiple of every vector that meets `IsFirstBasis`,
   * that is, of `M.nullspace()[0]`.
   */
  ghost predicate MultipleOfFirstBasis(M: Matrix, n: nat, w: seq<int>)
  {
    |w| == n &&
    forall f: nat, v: seq<real> {:trigger IsFirstBasis(M, n, f, v)} :: IsFirstBasis(M, n, f, v) ==>
      w[f] != 0 && forall j :: 0 <= j < |v| ==> w[j] as real == w[f] as real * v[j]
  }

  /**
   * `nullspace_integer(A)` for the `n`-column matrix `M`. It fails with `NoSolution` exactly when the null
   * space is trivial, and with `ArityError` when it is not but `A` has a
   * single column. Otherwise it returns an integer vector `w` with `A · w = 0`,
   * whose first non-zero entry is positive and whose absolute values have gcd
   * 1, and which is a non-zero multiple of sympy's first basis vector.
   */
  method NullspaceInteger(M: Matrix, n: nat) returns (r: Result<seq<int>, NullspaceError>)
    requires Rect(M, n)
    ensures r == Err(NoSolution) <==> NullTrivial(M, n)
    ensures r == Err(ArityError) <==> !NullTrivial(M, n) && n < 2
    ensures r.Ok? ==> |r.value| == n && IntNull(M, r.value)
    ensures r.Ok? ==> FirstNonzero(r.value) < |r.value| && r.value[FirstNonzero(r.value)] > 0
    ensures r.Ok? ==> GcdAll(AbsAll(r.value)) == 1
    ensures r.Ok? ==> MultipleOfFirstBasis(M, n, r.value)
  {
    var ns := FirstNull(M, n);
    if ns.None? {
      return Err(NoSolution);
    }
    var f, vec := ns.value.free, ns.value.vec;
    FirstBasisNonTrivial(M, n, f, Values(vec));
    var lcm := Ilcm(Denoms(vec));
    if lcm.Err? {
      return Err(ArityError);
    }
    IlcmMultiple(Denoms(vec));
    var w := Normalize(vec, f, lcm.value);
    ProportionalBasis(M, n, f, vec, w);
    r := Ok(w);
  }

  /**
   * The part of `nullspace_integer` after the lcm: multiply by it, flip the
   * sign so that the first non-zero entry is positive, divide by the gcd of
   * the absolute values. Every entry stays in proportion to the rational
   * vector, whose entry at `f` is 1.
   */
  method Normalize(vec: seq<Rat>, f: nat, L: nat) returns (w: seq<int>)
    requires forall j :: 0 <= j < |vec| ==> vec[j].Normal() && Divides(vec[j].den, L)
    requires f < |vec| && vec[f] == Rat(1, 1) && |vec| >= 2 && L > 0
    ensures |w| == |vec| && w[f] != 0
    ensures forall j :: 0 <= j < |vec| ==> w[j] * vec[j].den == w[f] * vec[j].num
    ensures FirstNonzero(w) < |w| && w[FirstNonzero(w)] > 0
    ensures GcdAll(AbsAll(w)) == 1
  {
    var scaled := ScaleBy(vec, L);
    assert scaled[f] == L by {
      assert Denom(vec[f]) == 1;
    }
    var sign := FirstSign(scaled);
    var signed := Times(scaled, sign);
    // divide by the gcd of the absolute values
    var g := Igcd(AbsAll(signed)).value;
    assert AbsAll(signed)[f] > 0;
    GcdAllDivides(AbsAll(signed));
    w := DivideAll(signed, g);
    NormalizedCross(vec, L, sign, g, f);
    QuotientSign(signed, g, FirstNonzero(scaled));
    QuotientGcd(signed, g, f);
  }

  /**
   * The loop of `nullspace_integer` that picks the sign: that of the first
   * non-zero entry, or 1 when there is none.
   */
  method FirstSign(s: seq<int>) returns (sign: int)
    ensures sign == 1 || sign == -1
    ensures FirstNonzero(s) < |s| ==> s[FirstNonzero(s)] * sign > 0
    ensures FirstNonzero(s) == |s| ==> sign == 1
  {
    sign := 1;
    for i := 0 to |s|
      invariant sign == 1 && forall j :: 0 <= j < i ==> s[j] == 0
    {
      if s[i] != 0 {
        sign := if s[i] > 0 then 1 else -1;
        FirstNonzeroAt(s, i);
        return;
      }
    }
  }

  /**
   * Signing by the first non-zero entry and dividing exactly keeps that
   * entry first and makes it positive.
   */
  lemma QuotientSign(signed: seq<int>, g: nat, i: nat)
    requires g > 0 && i < |signed| && signed[i] > 0
    requires forall j :: 0 <= j < i ==> signed[j] == 0
    requires forall j :: 0 <= j < |signed| ==> Divides(g, AbsAll(signed)[j])
    ensures FirstNonzero(DivideAll(signed, g)) == i && DivideAll(signed, g)[i] > 0
  {
    var w := DivideAll(signed, g);
    assert AbsAll(signed)[i] == Abs(signed[i]);
    ExactQuotient(signed[i], g);
    forall j | 0 <= j < i ensures w[j] == 0 {
      assert signed[j] == 0;
    }
    FirstNonzeroAt(w, i);
  }

  /** After scaling, signing and the exact division, every entry is in proportion to the rational vector. */
  lemma NormalizedCross(vec: seq<Rat>, L: nat, sign: int, g: nat, f: nat)
    requires forall j :: 0 <= j < |vec| ==> vec[j].Normal() && Divides(vec[j].den, L)
    requires f < |vec| && vec[f] == Rat(1, 1) && L > 0 && (sign == 1 || sign == -1) && g > 0
    requires forall j :: 0 <= j < |vec| ==> Divides(g, AbsAll(Times(ScaleBy(vec, L), sign))[j])
    ensures DivideAll(Times(ScaleBy(vec, L), sign), g)[f] != 0
    ensures forall j :: 0 <= j < |vec| ==>
      DivideAll(Times(ScaleBy(vec, L), sign), g)[j] * vec[j].den
        == DivideAll(Times(ScaleBy(vec, L), sign), g)[f] * vec[j].num
  {
    var scaled := ScaleBy(vec, L);
    var signed := Times(scaled, sign);
    var w := DivideAll(signed, g);
    assert scaled[f] == L;
    assert AbsAll(signed)[f] == Abs(signed[f]);
    ExactQuotient(signed[f], g);
    forall j | 0 <= j < |vec| ensures w[j] * vec[j].den == w[f] * vec[j].num {
      assert AbsAll(signed)[j] == Abs(signed[j]);
      ExactQuotient(signed[j], g);
      ScaledCross(vec[j].num, vec[j].den, L);
      ProportionalEntry(scaled[j], vec[j].num, vec[j].den, L, sign, g, w[j], w[f]);
    }
  }

  /** `num * (L / den)` times `den` is `num * L`, when `den` divides `L`. */
  lemma ScaledCross(num: int, den: int, L: nat)
    requires Divides(den, L)
    ensures (num * (L / den)) * den == num * L
  {
    Cofactor(den, L);
    var q := L / den;
    assert (num * q) * den == num * (den * q);
  }

  /**
   * One entry of the chain: `s * den == num * L`, then `s * sign == g * wj`
   * and `sign * L == g * wf` give `wj * den == wf * num`.
   */
  lemma ProportionalEntry(s: int, num: int, den: int, L: int, sign: int, g: int, wj: int, wf: int)
    requires g > 0 && s * den == num * L
    requires s * sign == g * wj && L * sign == g * wf
    ensures wj * den == wf * num
  {
    assert g * (wj * den) == (s * sign) * den;
    assert (s * sign) * den == sign * (num * L);
    assert sign * (num * L) == num * (L * sign);
    assert num * (g * wf) == g * (wf * num);
    MulCancel(g, wj * den, wf * num);
  }

  lemma MulCancel(g: int, a: int, b: int)
    requires g > 0 && g * a == g * b
    ensures a == b
  {
    assert g * (a - b) == 0;
    MulBounds(g, a - b);
  }

  /**
   * An integer vector that is a non-zero multiple of the first basis vector is
   * an integer null vector, and a multiple of every vector meeting
   * `IsFirstBasis`.
   */
  lemma ProportionalBasis(M: Matrix, n: nat, f: nat, vec: seq<Rat>, w: seq<int>)
    requires forall j :: 0 <= j < |vec| ==> vec[j].Normal()
    requires IsFirstBasis(M, n, f, Values(vec)) && |w| == n && w[f] != 0
    requires forall j :: 0 <= j < n ==> w[j] * vec[j].den == w[f] * vec[j].num
    ensures IntNull(M, w) && MultipleOfFirstBasis(M, n, w)
  {
    var V := Values(vec);
    RealsProportional(vec, w, f);
    ScaleNull(M, w[f] as real, V);
    IntNullOfReals(M, w);
    forall f': nat, v' {:trigger IsFirstBasis(M, n, f', v')} | IsFirstBasis(M, n, f', v')
      ensures w[f'] != 0 && forall j :: 0 <= j < |v'| ==> w[j] as real == w[f'] as real * v'[j]
    {
      FirstBasisUnique(M, n, f, V, f', v');
    }
  }

  lemma RealsProportional(vec: seq<Rat>, w: seq<int>, f: nat)
    requires forall j :: 0 <= j < |vec| ==> vec[j].Normal()
    requires |w| == |vec| && f < |w|
    requires forall j :: 0 <= j < |w| ==> w[j] * vec[j].den == w[f] * vec[j].num
    ensures Reals(w) == Scale(w[f] as real, Values(vec))
  {
    var V := Values(vec);
    var S := Scale(w[f] as real, V);
    forall j | 0 <= j < |w| ensures Reals(w)[j] == S[j] {
      CrossToReal(w[j], w[f], vec[j].num, vec[j].den);
    }
  }

  lemma CrossToReal(a: int, b: int, num: int, den: int)
    requires den > 0 && a * den == b * num
    ensures a as real == b as real * (num as real / den as real)
  {
    assert (a as real) * (den as real) == (b as real) * (num as real);
  }

  /** Dividing an exact multiple of `g` keeps its sign. */
  lemma ExactQuotient(a: int, g: nat)
    requires Divides(g, Abs(a))
    ensures a == g * (a / g)
    ensures a / g == 0 <==> a == 0
    ensures a / g > 0 <==> a > 0
  {
    Cofactor(g, Abs(a));
    var q := Abs(a) / g;
    if a < 0 {
      assert a == g * -q;
      MulMod(g, -q);
    }
    MulBounds(g, a / g);
  }

  lemma FirstNonzeroAt(w: seq<int>, i: nat)
    requires i < |w| && w[i] != 0 && forall j :: 0 <= j < i ==> w[j] == 0
    ensures FirstNonzero(w) == i
  {
  }

  /** Dividing every entry by the gcd of the absolute values leaves entries whose gcd is 1. */
  lemma QuotientGcd(s: seq<int>, g: nat, j0: nat)
    requires g == GcdAll(AbsAll(s)) && g > 0
    requires forall j :: 0 <= j < |s| ==> Divides(g, AbsAll(s)[j])
    requires j0 < |s| && s[j0] != 0
    ensures GcdAll(AbsAll(DivideAll(s, g))) == 1
  {
    var w := DivideAll(s, g);
    var a := AbsAll(w);
    forall j | 0 <= j < |s| ensures a[j] == Abs(s[j]) / g {
      AbsQuotient(s[j], g);
    }
    assert a[j0] > 0 by {
      ExactQuotient(s[j0], g);
    }
    GcdAllDivides(a);
    var h := GcdAll(a);
    forall j | 0 <= j < |s| ensures Divides(h * g, AbsAll(s)[j]) {
      DividesQuotient(h, g, Abs(s[j]));
    }
    GcdAllGreatest(AbsAll(s), h * g);
    OnlyUnitDividesDown(h, g);
  }

  lemma AbsQuotient(a: int, g: nat)
    requires Divides(g, Abs(a))
    ensures Abs(a / g) == Abs(a) / g
  {
    Cofactor(g, Abs(a));
    var q := Abs(a) / g;
    if a < 0 {
      assert a == g * -q;
      MulMod(g, -q);
    }
  }
}
