/**
 * One side of an equation and the conservation matrix: `parse_side`,
 * `collect_elements` and `build_matrix`.
 */
module Equation {
  import opened Text
  import opened Formula
  import opened Ordering
  import opened LinAlg

  /** A term of one side: its trimmed text and the element counts of that formula. */
  datatype Species = Species(name: string, counts: Counts)

  /**
   * `parse_side`: split on `+`, strip each term, and parse each one in order,
   * appending to the result.
   */
  method ParseSide(side: string) returns (out: seq<Species>)
    ensures out == Side(side)
  {
    var parts := Split(side, '+');
    out := [];
    for k := 0 to |parts|
      invariant |out| == k
      invariant forall i :: 0 <= i < k ==> out[i] == Side(side)[i]
    {
      var sp := ParseTerm(parts[k]);
      out := out + [sp];
    }
  }

  /** One term of `parse_side`: stripped, then parsed. */
  method ParseTerm(part: string) returns (sp: Species)
    ensures sp == Species(Strip(part), FormulaCounts(Strip(part)))
  {
    var name := Strip(part);
    var counts := ParseFormula(name);
    sp := Species(name, counts);
  }

  /** The species `parse_side` returns for a side: each stripped term with its counts. */
  ghost function Side(side: string): (sps: seq<Species>)
    ensures |sps| == |Split(side, '+')|
  {
    var parts := Split(side, '+');
    seq(|parts|, k requires 0 <= k < |parts| => Species(Strip(parts[k]), FormulaCounts(Strip(parts[k]))))
  }

  /** The names of a list of species, in order. */
  function Names(sps: seq<Species>): (ns: seq<string>)
    ensures |ns| == |sps| && forall k :: 0 <= k < |sps| ==> ns[k] == sps[k].name
  {
    seq(|sps|, k requires 0 <= k < |sps| => sps[k].name)
  }

  /**
   * One species per `+`-separated term, in input order: its name is the
   * stripped term, which holds no `+`, and its counts are that formula's.
   */
  lemma SideShape(side: string)
    ensures |Side(side)| == |Split(side, '+')| == Count('+', side) + 1
    ensures forall k :: 0 <= k < |Side(side)| ==>
      && Side(side)[k].name == Strip(Split(side, '+')[k])
      && '+' !in Side(side)[k].name
      && Side(side)[k].counts == FormulaCounts(Side(side)[k].name)
  {
    SplitShape(side, '+');
    var parts := Split(side, '+');
    forall k | 0 <= k < |parts| ensures '+' !in Side(side)[k].name {
      StripIn(parts[k], '+');
    }
  }

  /** A name `parse_side` returns never holds a character its side did not hold. */
  lemma SideNamesWithout(side: string, ch: char, k: nat)
    requires ch !in side && k < |Side(side)|
    ensures ch !in Side(side)[k].name
  {
    var parts := Split(side, '+');
    SplitPartWithout(side, '+', ch, k);
    StripIn(parts[k], ch);
  }

  /** The elements named by a list of species: the union of their dictionaries' keys. */
  ghost function KeysOf(terms: seq<Species>): set<string>
  {
    if terms == [] then {} else KeysOf(terms[..|terms| - 1]) + terms[|terms| - 1].counts.vals.Keys
  }

  /** An element is in the union exactly when some species has it as a key. */
  lemma {:induction false} KeysOfHas(terms: seq<Species>, e: string)
    ensures e in KeysOf(terms) <==> exists k :: 0 <= k < |terms| && e in terms[k].counts.vals
  {
    if terms != [] {
      var init := terms[..|terms| - 1];
      KeysOfHas(init, e);
      if e in KeysOf(init) {
        var k :| 0 <= k < |init| && e in init[k].counts.vals;
        assert terms[k] == init[k];
      }
      if exists k :: 0 <= k < |terms| && e in terms[k].counts.vals {
        var k :| 0 <= k < |terms| && e in terms[k].counts.vals;
        if k < |init| {
          assert init[k] == terms[k];
        }
      }
    }
  }

  /**
   * `collect_elements`: the union of the species' keys, then `sorted`. The
   * result is strictly increasing and holds exactly the elements that occur.
   */
  method CollectElements(terms: seq<Species>) returns (els: seq<string>)
    ensures els == SortedOf(KeysOf(terms))
    ensures StrictlySorted(els)
    ensures forall e :: e in els <==> exists k :: 0 <= k < |terms| && e in terms[k].counts.vals
  {
    var s: set<string> := {};
    for i := 0 to |terms|
      invariant s == KeysOf(terms[..i])
    {
      assert terms[..i + 1][..i] == terms[..i];
      s := s + terms[i].counts.vals.Keys;
    }
    assert terms[..|terms|] == terms;
    els := Sorted(s);
    forall e ensures e in els <==> exists k :: 0 <= k < |terms| && e in terms[k].counts.vals {
      KeysOfHas(terms, e);
    }
  }

  /** The row labels of the matrix: every element of either side, in increasing order. */
  ghost function Elements(lhs: seq<Species>, rhs: seq<Species>): seq<string>
  {
    SortedOf(KeysOf(lhs) + KeysOf(rhs))
  }

  /** The rows are strictly increasing and hold exactly the elements of either side. */
  lemma ElementsHas(lhs: seq<Species>, rhs: seq<Species>, e: string)
    ensures StrictlySorted(Elements(lhs, rhs))
    ensures e in Elements(lhs, rhs) <==>
      (exists k :: 0 <= k < |lhs| && e in lhs[k].counts.vals) || (exists k :: 0 <= k < |rhs| && e in rhs[k].counts.vals)
  {
    KeysOfHas(lhs, e);
    KeysOfHas(rhs, e);
  }

  /**
   * Entry of the conservation matrix for element `e` and column `c`: the
   * count of `e` in reactant `c`, or minus its count in product `c - |lhs|`.
   */
  function Entry(lhs: seq<Species>, rhs: seq<Species>, e: string, c: int): int
    requires 0 <= c < |lhs| + |rhs|
  {
    if c < |lhs| then Get(lhs[c].counts, e) else -(Get(rhs[c - |lhs|].counts, e) as int)
  }

  /** The row of the matrix for element `e`: one entry per column. */
  function ElementRow(lhs: seq<Species>, rhs: seq<Species>, e: string): (row: seq<int>)
    ensures |row| == |lhs| + |rhs|
  {
    seq(|lhs| + |rhs|, c requires 0 <= c < |lhs| + |rhs| => Entry(lhs, rhs, e, c))
  }

  /** The matrix `build_matrix` fills: row `r` is the row for the `r`-th element. */
  ghost function ConservationMatrix(lhs: seq<Species>, rhs: seq<Species>): (M: seq<seq<int>>)
  {
    var els := Elements(lhs, rhs);
    seq(|els|, r requires 0 <= r < |els| => ElementRow(lhs, rhs, els[r]))
  }

  /**
   * `build_matrix`: one row per element of either side in sorted order, one
   * column per species (reactants, then products), filled in place.
   */
  method BuildMatrix(lhs: seq<Species>, rhs: seq<Species>) returns (A: array2<int>)
    ensures fresh(A)
    ensures A.Length0 == |Elements(lhs, rhs)| && A.Length1 == |lhs| + |rhs|
    ensures Rows(A) == ConservationMatrix(lhs, rhs)
  {
    var l := CollectElements(lhs);
    var rr := CollectElements(rhs);
    var both := (set e | e in l) + (set e | e in rr);
    assert both == KeysOf(lhs) + KeysOf(rhs) by {
      forall e ensures e in both <==> e in KeysOf(lhs) + KeysOf(rhs) {
        KeysOfHas(lhs, e);
        KeysOfHas(rhs, e);
      }
    }
    var elements := Sorted(both);
    var cols := |lhs| + |rhs|;
    A := new int[|elements|, cols]((i, j) => 0);
    for r := 0 to |elements|
      invariant forall r', c :: 0 <= r' < r && 0 <= c < cols ==> A[r', c] == Entry(lhs, rhs, elements[r'], c)
    {
      FillRow(A, r, elements[r], lhs, rhs);
    }
    MatrixRows(A, lhs, rhs);
  }

  /** The array `build_matrix` fills holds the conservation matrix. */
  lemma MatrixRows(A: array2<int>, lhs: seq<Species>, rhs: seq<Species>)
    requires A.Length0 == |Elements(lhs, rhs)| && A.Length1 == |lhs| + |rhs|
    requires forall r, c :: 0 <= r < A.Length0 && 0 <= c < A.Length1 ==>
      A[r, c] == Entry(lhs, rhs, Elements(lhs, rhs)[r], c)
    ensures Rows(A) == ConservationMatrix(lhs, rhs)
  {
    var M := ConservationMatrix(lhs, rhs);
    forall r | 0 <= r < A.Length0 ensures Rows(A)[r] == M[r] {
      forall c | 0 <= c < A.Length1 ensures Rows(A)[r][c] == M[r][c] {
      }
    }
  }

  /** One row of `build_matrix`: the reactant columns, then the product columns. */
  method FillRow(A: array2<int>, r: nat, el: string, lhs: seq<Species>, rhs: seq<Species>)
    requires r < A.Length0 && A.Length1 == |lhs| + |rhs|
    modifies A
    ensures forall c :: 0 <= c < A.Length1 ==> A[r, c] == Entry(lhs, rhs, el, c)
    ensures forall r', c :: 0 <= r' < A.Length0 && r' != r && 0 <= c < A.Length1 ==> A[r', c] == old(A[r', c])
  {
    for c := 0 to |lhs|
      invariant forall c' :: 0 <= c' < c ==> A[r, c'] == Entry(lhs, rhs, el, c')
      invariant forall r', c' :: 0 <= r' < A.Length0 && r' != r && 0 <= c' < A.Length1 ==> A[r', c'] == old(A[r', c'])
    {
      A[r, c] := Get(lhs[c].counts, el);
    }
    var offset := |lhs|;
    for c := 0 to |rhs|
      invariant forall c' :: 0 <= c' < offset + c ==> A[r, c'] == Entry(lhs, rhs, el, c')
      invariant forall r', c' :: 0 <= r' < A.Length0 && r' != r && 0 <= c' < A.Length1 ==> A[r', c'] == old(A[r', c'])
    {
      A[r, offset + c] := -(Get(rhs[c].counts, el) as int);
    }
  }
}
