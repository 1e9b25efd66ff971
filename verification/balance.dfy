/**
 * `balance_equation` and `format_balanced`, and what a balanced result
 * means: with the coefficients found, every element occurs as often among
 * the reactants as among the products.
 */
module Balance {
  import opened Wrappers
  import opened Text
  import opened Formula
  import opened Numbers
  import opened LinAlg
  import opened Equation
  import opened Nullspace

  /** Why `balance_equation` raises: the unpacking of the `=` split, or the null space step. */
  datatype BalanceError = Unpack | Unsolvable(reason: NullspaceError)

  /** The triple `balance_equation` returns: all coefficients, then the names of each side. */
  datatype Balanced = Balanced(coeffs: seq<int>, lhsNames: seq<string>, rhsNames: seq<string>)

  // ---------------------------------------------------------------------------
  // Conservation of atoms

  /** Atoms of `e` in the first `k` species when species `j` is taken `coef[j]` times. */
  function Atoms(sps: seq<Species>, coef: seq<int>, e: string, k: nat): int
    requires k <= |sps| && k <= |coef|
  {
    if k == 0 then 0 else Atoms(sps, coef, e, k - 1) + coef[k - 1] * Get(sps[k - 1].counts, e)
  }

  /** Every element occurs as often on the left as on the right. */
  ghost predicate Conserves(lhs: seq<Species>, rhs: seq<Species>, coef: seq<int>)
    requires |coef| == |lhs| + |rhs|
  {
    forall e :: Atoms(lhs, coef, e, |lhs|) == Atoms(rhs, coef[|lhs|..], e, |rhs|)
  }

  /** Species without `e` contribute no atoms of it. */
  lemma {:induction false} AtomsAbsent(sps: seq<Species>, coef: seq<int>, e: string, k: nat)
    requires k <= |sps| && k <= |coef|
    requires forall j :: 0 <= j < k ==> e !in sps[j].counts.vals
    ensures Atoms(sps, coef, e, k) == 0
  {
    if k > 0 {
      AtomsAbsent(sps, coef, e, k - 1);
    }
  }

  /** Over the reactant columns, a row's product with `w` counts the reactant atoms. */
  lemma {:induction false} RowDotLeft(lhs: seq<Species>, rhs: seq<Species>, e: string, w: seq<int>, k: nat)
    requires |w| == |lhs| + |rhs| && k <= |lhs|
    ensures IntDotTo(ElementRow(lhs, rhs, e), w, k) == Atoms(lhs, w, e, k)
  {
    if k > 0 {
      RowDotLeft(lhs, rhs, e, w, k - 1);
    }
  }

  /** Over all columns, a row's product with `w` is reactant atoms minus product atoms. */
  lemma {:induction false} RowDotRight(lhs: seq<Species>, rhs: seq<Species>, e: string, w: seq<int>, k: nat)
    requires |w| == |lhs| + |rhs| && |lhs| <= k <= |w|
    ensures IntDotTo(ElementRow(lhs, rhs, e), w, k) == Atoms(lhs, w, e, |lhs|) - Atoms(rhs, w[|lhs|..], e, k - |lhs|)
  {
    if k == |lhs| {
      RowDotLeft(lhs, rhs, e, w, k);
    } else {
      RowDotRight(lhs, rhs, e, w, k - 1);
      assert w[|lhs|..][k - 1 - |lhs|] == w[k - 1];
    }
  }

  /** The product of the row for `e` with `w` is zero exactly when `e` is conserved. */
  lemma RowDot(lhs: seq<Species>, rhs: seq<Species>, e: string, w: seq<int>)
    requires |w| == |lhs| + |rhs|
    ensures IntDotTo(ElementRow(lhs, rhs, e), w, |w|) == 0 <==>
      Atoms(lhs, w, e, |lhs|) == Atoms(rhs, w[|lhs|..], e, |rhs|)
  {
    RowDotRight(lhs, rhs, e, w, |w|);
  }

  /**
   * A vector is in the integer null space of the conservation matrix exactly
   * when taking each species that many times conserves every element.
   */
  lemma NullIffConserves(lhs: seq<Species>, rhs: seq<Species>, w: seq<int>)
    requires |w| == |lhs| + |rhs|
    ensures IntNull(ConservationMatrix(lhs, rhs), w) <==> Conserves(lhs, rhs, w)
  {
    var M := ConservationMatrix(lhs, rhs);
    var els := Elements(lhs, rhs);
    if IntNull(M, w) {
      forall e ensures Atoms(lhs, w, e, |lhs|) == Atoms(rhs, w[|lhs|..], e, |rhs|) {
        ElementsHas(lhs, rhs, e);
        if e in els {
          var r :| 0 <= r < |els| && els[r] == e;
          assert M[r] == ElementRow(lhs, rhs, e);
          RowDot(lhs, rhs, e, w);
        } else {
          AtomsAbsent(lhs, w, e, |lhs|);
          AtomsAbsent(rhs, w[|lhs|..], e, |rhs|);
        }
      }
    }
    if Conserves(lhs, rhs, w) {
      forall r | 0 <= r < |M| ensures |M[r]| == |w| && IntDotTo(M[r], w, |w|) == 0 {
        RowDot(lhs, rhs, els[r], w);
      }
    }
  }

  // ---------------------------------------------------------------------------
  // balance_equation

  /** The reactants: the species of the stripped text before the `=`. */
  ghost function Lhs(equation: string): seq<Species>
    requires |Split(equation, '=')| == 2
  {
    Side(Strip(Split(equation, '=')[0]))
  }

  /** The products: the species of the stripped text after the `=`. */
  ghost function Rhs(equation: string): seq<Species>
    requires |Split(equation, '=')| == 2
  {
    Side(Strip(Split(equation, '=')[1]))
  }

  /**
   * The coefficients `nullspace_integer` promises: one per species, every
   * element conserved, the first non-zero one positive, no common factor, and
   * all in proportion to the first basis vector of the null space.
   */
  ghost predicate CoefficientsFor(lhs: seq<Species>, rhs: seq<Species>, w: seq<int>)
  {
    && |w| == |lhs| + |rhs|
    && Conserves(lhs, rhs, w)
    && FirstNonzero(w) < |w| && w[FirstNonzero(w)] > 0
    && GcdAll(AbsAll(w)) == 1
    && MultipleOfFirstBasis(ConservationMatrix(lhs, rhs), |lhs| + |rhs|, w)
  }

  /** A successful result: the names of each side in input order, and the coefficients. */
  ghost predicate Solves(lhs: seq<Species>, rhs: seq<Species>, b: Balanced)
  {
    b.lhsNames == Names(lhs) && b.rhsNames == Names(rhs) && CoefficientsFor(lhs, rhs, b.coeffs)
  }

  /**
   * `balance_equation`: split on `=` and unpack into two stripped sides,
   * parse both, build the matrix, find the integer null vector, and return
   * it with the names of both sides. It fails on the unpacking unless there
   * is exactly one `=`, and otherwise only when no non-zero choice of
   * coefficients conserves every element.
   */
  method BalanceEquation(equation: string) returns (r: Result<Balanced, BalanceError>)
    ensures r == Err(Unpack) <==> |Split(equation, '=')| != 2
    ensures r.Ok? <==> (|Split(equation, '=')| == 2 &&
      !NullTrivial(ConservationMatrix(Lhs(equation), Rhs(equation)), |Lhs(equation)| + |Rhs(equation)|))
    ensures r.Err? ==> r == Err(Unpack) || r == Err(Unsolvable(NoSolution))
    ensures r.Ok? ==> Solves(Lhs(equation), Rhs(equation), r.value)
  {
    var sides := Split(equation, '=');
    var stripped := seq(|sides|, k requires 0 <= k < |sides| => Strip(sides[k]));
    if |stripped| != 2 {
      assert |Split(equation, '=')| != 2;
      return Err(Unpack);
    }
    var left, right := stripped[0], stripped[1];
    assert Side(left) == Lhs(equation) && Side(right) == Rhs(equation);
    r := BalanceSides(left, right);
  }

  /** `balance_equation` after the unpacking, on the two stripped sides. */
  method BalanceSides(left: string, right: string) returns (r: Result<Balanced, BalanceError>)
    ensures r.Ok? <==> !NullTrivial(ConservationMatrix(Side(left), Side(right)), |Side(left)| + |Side(right)|)
    ensures r.Err? ==> r == Err(Unsolvable(NoSolution))
    ensures r.Ok? ==> Solves(Side(left), Side(right), r.value)
  {
    var lhsTerms := ParseSide(left);
    var rhsTerms := ParseSide(right);
    var coeffs := Solve(lhsTerms, rhsTerms);
    if coeffs.Err? {
      return Err(Unsolvable(coeffs.error));
    }
    // `lhs_coeffs + rhs_coeffs` puts the two slices of `coeffs` back together.
    r := Ok(Balanced(coeffs.value, Names(lhsTerms), Names(rhsTerms)));
  }

  /**
   * The middle of `balance_equation`: `build_matrix`, then
   * `nullspace_integer`. With at least one species per side there are at
   * least two columns, so only an empty null space makes it fail.
   */
  method Solve(lhs: seq<Species>, rhs: seq<Species>) returns (r: Result<seq<int>, NullspaceError>)
    requires |lhs| >= 1 && |rhs| >= 1
    ensures r.Ok? <==> !NullTrivial(ConservationMatrix(lhs, rhs), |lhs| + |rhs|)
    ensures r.Err? ==> r.error == NoSolution
    ensures r.Ok? ==> CoefficientsFor(lhs, rhs, r.value)
  {
    var A := BuildMatrix(lhs, rhs);
    var M := Rows(A);
    r := NullspaceInteger(M, A.Length1);
    NullspaceOutcome(M, A.Length1, r);
    if r.Ok? {
      NullVectorCoefficients(lhs, rhs, r.value);
    }
  }

  /**
   * With at least two columns `nullspace_integer` fails only on a trivial
   * null space, and then with `NoSolution`.
   */
  lemma NullspaceOutcome(M: Matrix, n: nat, r: Result<seq<int>, NullspaceError>)
    requires n >= 2
    requires r == Err(NoSolution) <==> NullTrivial(M, n)
    requires r == Err(ArityError) <==> !NullTrivial(M, n) && n < 2
    ensures r.Ok? <==> !NullTrivial(M, n)
    ensures r.Err? ==> r.error == NoSolution
  {
    if r.Err? {
      assert r == Err(r.error) && r != Err(ArityError);
      assert r.error == NoSolution;
    }
  }

  /** What `nullspace_integer` promises about its vector makes it a set of coefficients. */
  lemma NullVectorCoefficients(lhs: seq<Species>, rhs: seq<Species>, w: seq<int>)
    requires |w| == |lhs| + |rhs| && IntNull(ConservationMatrix(lhs, rhs), w)
    requires FirstNonzero(w) < |w| && w[FirstNonzero(w)] > 0
    requires GcdAll(AbsAll(w)) == 1
    requires MultipleOfFirstBasis(ConservationMatrix(lhs, rhs), |lhs| + |rhs|, w)
    ensures CoefficientsFor(lhs, rhs, w)
  {
    NullIffConserves(lhs, rhs, w);
  }

  // ---------------------------------------------------------------------------
  // format_balanced

  /** `fmt(c, n)`: the coefficient and a space before the name, unless it is 1. */
  function Fmt(c: int, n: string): string
  {
    (if c != 1 then IntToString(c) + " " else "") + n
  }

  /** A name is left bare exactly when its coefficient is 1. */
  lemma FmtOmitsOne(c: int, n: string)
    ensures Fmt(c, n) == n <==> c == 1
  {
    if c != 1 {
      assert |Fmt(c, n)| > |n|;
    }
  }

  /** `zip(cs, ns)` formatted pairwise; `zip` stops at the shorter list. */
  function FmtAll(cs: seq<int>, ns: seq<string>): (parts: seq<string>)
    ensures |parts| == if |cs| < |ns| then |cs| else |ns|
  {
    var n := if |cs| < |ns| then |cs| else |ns|;
    seq(n, k requires 0 <= k < n => Fmt(cs[k], ns[k]))
  }

  /** `sep.join(parts)` for a string separator. */
  function JoinWith(parts: seq<string>, sep: string): string
  {
    if parts == [] then []
    else if |parts| == 1 then parts[0]
    else parts[0] + sep + JoinWith(parts[1..], sep)
  }

  /** A character in neither the parts nor the separator is not in the joined text. */
  lemma {:induction false} JoinWithout(parts: seq<string>, sep: string, ch: char)
    requires ch !in sep && forall k :: 0 <= k < |parts| ==> ch !in parts[k]
    ensures ch !in JoinWith(parts, sep)
  {
    if |parts| > 1 {
      JoinWithout(parts[1..], sep, ch);
    }
  }

  /** `format_balanced`: the two sides joined by ` + `, with ` = ` between them. */
  function FormatBalanced(lc: seq<int>, ln: seq<string>, rc: seq<int>, rn: seq<string>): string
  {
    JoinWith(FmtAll(lc, ln), " + ") + " = " + JoinWith(FmtAll(rc, rn), " + ")
  }

  /** When no name holds `=`, the formatted equation holds exactly one. */
  lemma FormatOneEquals(lc: seq<int>, ln: seq<string>, rc: seq<int>, rn: seq<string>)
    requires forall k :: 0 <= k < |ln| ==> '=' !in ln[k]
    requires forall k :: 0 <= k < |rn| ==> '=' !in rn[k]
    ensures Count('=', FormatBalanced(lc, ln, rc, rn)) == 1
  {
    var l, rr := FmtAll(lc, ln), FmtAll(rc, rn);
    JoinWithout(l, " + ", '=');
    JoinWithout(rr, " + ", '=');
    CountZero('=', JoinWith(l, " + "));
    CountZero('=', JoinWith(rr, " + "));
    CountAppend('=', JoinWith(l, " + "), " = ");
    CountAppend('=', JoinWith(l, " + ") + " = ", JoinWith(rr, " + "));
  }

  /**
   * The result of `balance_equation`, sliced and formatted as the command
   * does, splits on `=` into exactly two parts again.
   */
  lemma FormattedSplitsInTwo(equation: string, b: Balanced)
    requires |Split(equation, '=')| == 2 && Solves(Lhs(equation), Rhs(equation), b)
    ensures |Split(FormatBalanced(b.coeffs[..|b.lhsNames|], b.lhsNames, b.coeffs[|b.lhsNames|..], b.rhsNames), '=')| == 2
  {
    var parts := Split(equation, '=');
    SplitShape(equation, '=');
    StripIn(parts[0], '=');
    StripIn(parts[1], '=');
    forall k | 0 <= k < |b.lhsNames| ensures '=' !in b.lhsNames[k] {
      SideNamesWithout(Strip(parts[0]), '=', k);
    }
    forall k | 0 <= k < |b.rhsNames| ensures '=' !in b.rhsNames[k] {
      SideNamesWithout(Strip(parts[1]), '=', k);
    }
    var s := FormatBalanced(b.coeffs[..|b.lhsNames|], b.lhsNames, b.coeffs[|b.lhsNames|..], b.rhsNames);
    FormatOneEquals(b.coeffs[..|b.lhsNames|], b.lhsNames, b.coeffs[|b.lhsNames|..], b.rhsNames);
    SplitShape(s, '=');
  }
}
