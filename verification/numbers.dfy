/**
 * Integer helpers behind `nullspace_integer`: `math.gcd` / `sympy.igcd`,
 * `sympy.ilcm`, Python's `//`, and the normalised rationals whose
 * denominator `sympy.denom` reads.
 */
module Numbers {
  import opened Wrappers

  /** `d` is a positive divisor of `a`. */
  predicate Divides(d: int, a: int)
  {
    d > 0 && a % d == 0
  }

  function Abs(a: int): nat
  {
    if a < 0 then -a else a
  }

  lemma MulBounds(d: int, z: int)
    requires d > 0
    ensures z >= 1 ==> d * z >= d
    ensures z <= -1 ==> d * z <= -d
  {
  }

  /** A multiple of `d` leaves no remainder. */
  lemma MulMod(d: int, q: int)
    requires d > 0
    ensures (d * q) % d == 0 && (d * q) / d == q
  {
    var t := d * q;
    var r := t / d;
    assert t == d * r + t % d;
    assert d * (q - r) == t % d;
    MulBounds(d, q - r);
  }

  /** A number is its divisor times the quotient. */
  lemma Cofactor(d: int, a: int)
    requires Divides(d, a)
    ensures a == d * (a / d)
  {
  }

  /** Divisibility is closed under `k * x + y`. */
  lemma DividesLinear(d: int, x: int, y: int, k: int)
    requires Divides(d, x) && Divides(d, y)
    ensures Divides(d, k * x + y)
  {
    var p, q := x / d, y / d;
    assert x == d * p && y == d * q;
    assert k * x + y == d * (k * p + q);
    MulMod(d, k * p + q);
  }

  lemma DividesSelf(a: int)
    requires a > 0
    ensures Divides(a, a) && Divides(a, 0)
  {
  }

  /** A positive divisor of a positive number is at most that number. */
  lemma DividesBound(d: int, a: int)
    requires Divides(d, a) && a > 0
    ensures d <= a
  {
    var q := a / d;
    assert a == d * q;
    assert q >= 1;
    assert d * q >= d * 1;
  }

  lemma DividesTrans(d: int, e: int, a: int)
    requires Divides(d, e) && Divides(e, a)
    ensures Divides(d, a)
  {
    var p, q := e / d, a / e;
    assert a == e * q && e == d * p;
    assert a == d * (p * q);
    MulMod(d, p * q);
  }

  /** `d * e` divides `a` when `e` divides `a` and `d` divides the quotient. */
  lemma DividesQuotient(d: int, e: int, a: int)
    requires Divides(e, a) && Divides(d, a / e)
    ensures Divides(d * e, a)
  {
    var q := a / e;
    var p := q / d;
    assert a == e * q && q == d * p;
    assert a == (d * e) * p;
    MulMod(d * e, p);
  }

  /** Euclid's algorithm, as `math.gcd` computes it on two naturals. */
  function Gcd(a: nat, b: nat): nat
    decreases b
  {
    if b == 0 then a else Gcd(b, a % b)
  }

  /** The gcd divides both arguments, and every common divisor divides it. */
  lemma {:induction false} GcdDivides(a: nat, b: nat)
    requires a > 0 || b > 0
    ensures Gcd(a, b) > 0 && Divides(Gcd(a, b), a) && Divides(Gcd(a, b), b)
    decreases b
  {
    if b == 0 {
      DividesSelf(a);
    } else {
      GcdDivides(b, a % b);
      var g := Gcd(b, a % b);
      DividesLinear(g, b, a % b, a / b);
      assert a == (a / b) * b + a % b;
    }
  }

  lemma {:induction false} GcdGreatest(a: nat, b: nat, d: int)
    requires Divides(d, a) && Divides(d, b)
    ensures Divides(d, Gcd(a, b))
    decreases b
  {
    if b != 0 {
      DividesLinear(d, b, a, -(a / b));
      assert a % b == -(a / b) * b + a;
      GcdGreatest(b, a % b, d);
    }
  }

  lemma GcdZero(a: nat, b: nat)
    ensures Gcd(a, b) == 0 <==> a == 0 && b == 0
  {
    if a > 0 || b > 0 {
      GcdDivides(a, b);
    }
  }

  /** Dividing two numbers by their gcd leaves numbers whose gcd is 1. */
  lemma GcdOfQuotients(a: nat, b: nat, g: nat, a': nat, b': nat)
    requires (a > 0 || b > 0) && g == Gcd(a, b)
    requires a == g * a' && b == g * b'
    ensures Gcd(a', b') == 1
  {
    GcdDivides(a, b);
    MulMod(g, a');
    MulMod(g, b');
    assert a' > 0 || b' > 0;
    GcdDivides(a', b');
    forall d | Divides(d, a) && Divides(d, b) ensures Divides(d, g) {
      GcdGreatest(a, b, d);
    }
    CoprimeQuotients(a, b, g, Gcd(a', b'));
  }

  lemma CoprimeQuotients(a: nat, b: nat, g: nat, h: nat)
    requires (a > 0 || b > 0) && g > 0 && Divides(g, a) && Divides(g, b)
    requires forall d :: Divides(d, a) && Divides(d, b) ==> Divides(d, g)
    requires h > 0 && Divides(h, a / g) && Divides(h, b / g)
    ensures h == 1
  {
    DividesQuotient(h, g, a);
    DividesQuotient(h, g, b);
    assert Divides(h * g, g);
    OnlyUnitDividesDown(h, g);
  }

  lemma QuotientsNotBothZero(a: nat, b: nat, g: int)
    requires (a > 0 || b > 0) && Divides(g, a) && Divides(g, b)
    ensures a / g > 0 || b / g > 0
  {
    Cofactor(g, a);
    Cofactor(g, b);
  }

  /** If `h * g` divides `g`, then `h` is 1. */
  lemma OnlyUnitDividesDown(h: int, g: int)
    requires h > 0 && g > 0 && Divides(h * g, g)
    ensures h == 1
  {
    DividesBound(h * g, g);
    MulBounds(g, h - 1);
    assert g * (h - 1) == h * g - g;
  }

  // ---------------------------------------------------------------------------
  // sympy.igcd and sympy.ilcm over a list

  /** Why a call into sympy's integer helpers raises. */
  datatype ArgError = TooFewArguments

  /** The gcd of all the numbers in a list, folded from the front. */
  function GcdAll(xs: seq<nat>): nat
  {
    if xs == [] then 0 else Gcd(GcdAll(xs[..|xs| - 1]), xs[|xs| - 1])
  }

  /** The gcd of a list divides every member, as soon as one member is non-zero. */
  lemma {:induction false} GcdAllDivides(xs: seq<nat>)
    requires exists i :: 0 <= i < |xs| && xs[i] > 0
    ensures GcdAll(xs) > 0
    ensures forall i :: 0 <= i < |xs| ==> Divides(GcdAll(xs), xs[i])
  {
    var init, last := xs[..|xs| - 1], xs[|xs| - 1];
    if exists i :: 0 <= i < |init| && init[i] > 0 {
      GcdAllDivides(init);
      GcdDivides(GcdAll(init), last);
      forall i | 0 <= i < |init| ensures Divides(GcdAll(xs), xs[i]) {
        DividesTrans(GcdAll(xs), GcdAll(init), init[i]);
      }
    } else {
      GcdAllZero(init);
      GcdDivides(0, last);
    }
  }

  /** A list of zeros has gcd 0. */
  lemma {:induction false} GcdAllZero(xs: seq<nat>)
    requires forall i :: 0 <= i < |xs| ==> xs[i] == 0
    ensures GcdAll(xs) == 0
  {
    if xs != [] {
      GcdAllZero(xs[..|xs| - 1]);
    }
  }

  /** Every common divisor of a list divides its gcd. */
  lemma {:induction false} GcdAllGreatest(xs: seq<nat>, d: int)
    requires d > 0 && forall i :: 0 <= i < |xs| ==> Divides(d, xs[i])
    ensures Divides(d, GcdAll(xs))
  {
    if xs == [] {
      assert 0 % d == 0;
    } else {
      GcdAllGreatest(xs[..|xs| - 1], d);
      GcdGreatest(GcdAll(xs[..|xs| - 1]), xs[|xs| - 1], d);
    }
  }

  /** `sympy.igcd(*xs)`: at least two arguments, absolute values taken by the caller. */
  function Igcd(xs: seq<nat>): (r: Result<nat, ArgError>)
    ensures r.Err? <==> |xs| < 2
    ensures r.Ok? ==> r.value == GcdAll(xs)
  {
    if |xs| < 2 then Err(TooFewArguments) else Ok(GcdAll(xs))
  }

  /** One step of `ilcm`: `a // igcd(a, b) * b`. */
  function Lcm(a: nat, b: nat): nat
  {
    if a == 0 && b == 0 then 0
    else
      GcdZero(a, b);
      a / Gcd(a, b) * b
  }

  /** For positive arguments the step is a positive common multiple. */
  lemma LcmMultiple(a: nat, b: nat)
    requires a > 0 && b > 0
    ensures Lcm(a, b) > 0 && Divides(a, Lcm(a, b)) && Divides(b, Lcm(a, b))
  {
    GcdDivides(a, b);
    var g := Gcd(a, b);
    var p, q := a / g, b / g;
    assert a == g * p && b == g * q;
    assert p > 0;
    assert Lcm(a, b) == p * b;
    assert p * b == a * q;
    MulMod(a, q);
    MulMod(b, p);
  }

  /** The fold `ilcm` performs: the running value combined with each later argument. */
  function LcmAll(xs: seq<nat>): nat
  {
    if xs == [] then 1 else Lcm(LcmAll(xs[..|xs| - 1]), xs[|xs| - 1])
  }

  /** With positive arguments the fold is a positive multiple of each one. */
  lemma {:induction false} LcmAllMultiple(xs: seq<nat>)
    requires forall i :: 0 <= i < |xs| ==> xs[i] > 0
    ensures LcmAll(xs) > 0
    ensures forall i :: 0 <= i < |xs| ==> Divides(xs[i], LcmAll(xs))
  {
    if xs != [] {
      var init, last := xs[..|xs| - 1], xs[|xs| - 1];
      LcmAllMultiple(init);
      LcmMultiple(LcmAll(init), last);
      forall i | 0 <= i < |init| ensures Divides(xs[i], LcmAll(xs)) {
        DividesTrans(init[i], LcmAll(init), LcmAll(xs));
      }
    }
  }

  /** `sympy.ilcm(*xs)`: at least two arguments, 0 as soon as one of them is 0. */
  function Ilcm(xs: seq<nat>): (r: Result<nat, ArgError>)
    ensures r.Err? <==> |xs| < 2
  {
    if |xs| < 2 then Err(TooFewArguments)
    else if 0 in xs then Ok(0)
    else Ok(Lcm(LcmAll(xs[..|xs| - 1]), xs[|xs| - 1]))
  }

  /** With at least two positive arguments, `ilcm` is a positive common multiple. */
  lemma IlcmMultiple(xs: seq<nat>)
    requires |xs| >= 2 && forall i :: 0 <= i < |xs| ==> xs[i] > 0
    ensures Ilcm(xs).Ok? && Ilcm(xs).value > 0
    ensures forall i :: 0 <= i < |xs| ==> Divides(xs[i], Ilcm(xs).value)
  {
    LcmAllMultiple(xs);
    assert 0 !in xs;
  }

  /** Python's `a // b` for `b > 0`: the floor of the quotient. */
  function FloorDiv(a: int, b: int): (q: int)
    requires b > 0
    ensures q * b <= a < q * b + b
  {
    a / b
  }

  // ---------------------------------------------------------------------------
  // Rationals in lowest terms

  /** A rational in lowest terms with a positive denominator, as sympy keeps `Rational`. */
  datatype Rat = Rat(num: int, den: int)
  {
    predicate Normal() { den > 0 && Gcd(Abs(num), den) == 1 }
    function Value(): real requires Normal() { num as real / den as real }
  }

  /** `p / q` brought to lowest terms with a positive denominator. */
  function MakeRat(p: int, q: int): (r: Rat)
    requires q != 0
    ensures r.Normal()
    ensures r.Value() == p as real / q as real
  {
    var g := Gcd(Abs(p), Abs(q));
    RatCross(p, q, g);
    var a, b := Abs(p) / g, Abs(q) / g;
    GcdOfQuotients(Abs(p), Abs(q), g, a, b);
    var r := Rat(if (p < 0) == (q < 0) then a else -a, b);
    CrossValue(r.num, r.den, p, q);
    r
  }

  /** The reduced numerator and denominator are in the same ratio as `p` and `q`. */
  lemma RatCross(p: int, q: int, g: nat)
    requires q != 0 && g == Gcd(Abs(p), Abs(q))
    ensures g > 0 && Abs(q) / g > 0
    ensures Abs(p) == g * (Abs(p) / g) && Abs(q) == g * (Abs(q) / g)
    ensures (if (p < 0) == (q < 0) then Abs(p) / g else -(Abs(p) / g)) * q == p * (Abs(q) / g)
  {
    GcdDivides(Abs(p), Abs(q));
    var a, b := Abs(p) / g, Abs(q) / g;
    Cofactor(g, Abs(p));
    Cofactor(g, Abs(q));
    assert Abs(p) == g * a && Abs(q) == g * b;
    assert a * Abs(q) == a * (g * b) == (g * a) * b;
    SignCross(p, q, a, b);
  }

  lemma SignCross(p: int, q: int, a: int, b: int)
    requires a * Abs(q) == Abs(p) * b
    ensures (if (p < 0) == (q < 0) then a else -a) * q == p * b
  {
    if q < 0 {
      assert a * q == -(a * Abs(q));
    }
    if p < 0 {
      assert p * b == -(Abs(p) * b);
    }
  }

  /** Equal cross products give equal quotients. */
  lemma CrossValue(n: int, d: int, p: int, q: int)
    requires d != 0 && q != 0 && n * q == p * d
    ensures n as real / d as real == p as real / q as real
  {
    assert (n as real) * (q as real) == (p as real) * (d as real);
  }

  /** `sympy.denom` of a rational in lowest terms. */
  function Denom(r: Rat): (d: nat)
    requires r.Normal()
    ensures d > 0
  {
    r.den
  }
}
