/**
 * The formula parser of the chemistry cog: the element tokenizer (`_elem_pat`),
 * the atom tally of a flat formula (`_count_atoms_basic`), the bracket-group
 * search (`_group_pat`), the group-expansion loop (`_expand_groups`) and
 * `parse_formula`, which runs the last two in turn.
 */
module Formula {
  import opened Text
  import opened Wrappers

  /** An element symbol as `[A-Z][a-z]?` matches it. */
  predicate IsSymbol(e: string)
  {
    (|e| == 1 && IsUpper(e[0])) || (|e| == 2 && IsUpper(e[0]) && IsLower(e[1]))
  }

  // ---------------------------------------------------------------------------
  // The tokenizer: _elem_pat.findall

  /** An element symbol. */
  type Symbol = e: string | IsSymbol(e) witness "H"

  /** A run of ASCII digits, possibly empty. */
  type Digits = d: string | AllDigits(d)

  /** One match of `([A-Z][a-z]?)(\d*)`: the symbol and its (possibly empty) digit run. */
  datatype Token = Token(symbol: Symbol, digits: Digits)

  /** The number of atoms a token stands for: the value of its digits, or 1 when it has none. */
  function TokenValue(t: Token): nat
  {
    if t.digits == [] then 1 else DigitsValue(t.digits)
  }

  /** The first index at or after `a` that does not hold a digit, or `|s|`: a greedy `\d*` from `a`. */
  function DigitsEnd(s: string, a: nat): (j: nat)
    requires a <= |s|
    ensures a <= j <= |s| && (forall m :: a <= m < j ==> IsDigit(s[m]))
    ensures j < |s| ==> !IsDigit(s[j])
    decreases |s| - a
  {
    if a < |s| && IsDigit(s[a]) then DigitsEnd(s, a + 1) else a
  }

  /** Length of the symbol `[A-Z][a-z]?` that starts `s`. */
  function SymbolLength(s: string): (n: nat)
    requires s != [] && IsUpper(s[0])
    ensures 1 <= n <= |s| && IsSymbol(s[..n])
    ensures n == 2 <==> |s| > 1 && IsLower(s[1])
  {
    if |s| > 1 && IsLower(s[1]) then 2 else 1
  }

  /**
   * `_elem_pat.findall(s)`: scanning left to right, an upper-case letter starts
   * a token that takes one optional lower-case letter and then every digit
   * that follows; any other character is skipped.
   */
  function Tokens(s: string): seq<Token>
    decreases |s|
  {
    if s == [] then []
    else if IsUpper(s[0]) then
      var n := SymbolLength(s);
      var e := DigitsEnd(s, n);
      [Token(s[..n], s[n..e])] + Tokens(s[e..])
    else Tokens(s[1..])
  }

  /** The digit run does not look past the end of `a` when `b` does not start with a digit. */
  lemma {:induction false} DigitsEndAppend(a: string, b: string, i: nat)
    requires i <= |a| && (b == [] || !IsDigit(b[0]))
    ensures DigitsEnd(a + b, i) == DigitsEnd(a, i)
    decreases |a| - i
  {
    if i < |a| {
      assert (a + b)[i] == a[i];
      DigitsEndAppend(a, b, i + 1);
    }
  }

  /** Characters that cannot start a token contribute nothing: `s[i..j]` is skipped. */
  lemma {:induction false} TokensDrop(s: string, i: nat, j: nat)
    requires i <= j <= |s|
    requires forall m :: i <= m < j ==> !IsUpper(s[m])
    ensures Tokens(s[i..]) == Tokens(s[j..])
    decreases j - i
  {
    if i < j {
      assert s[i..][0] == s[i];
      assert s[i..][1..] == s[i + 1..];
      TokensDrop(s, i + 1, j);
    }
  }

  /**
   * A symbol followed by its digits is read as one token, provided that what
   * comes next can neither extend the digit run nor (after a one-letter symbol
   * without digits) the symbol.
   */
  lemma TokensCons(sym: Symbol, d: Digits, rest: string)
    requires rest == [] || !IsDigit(rest[0])
    requires |sym| == 1 && d == [] ==> rest == [] || !IsLower(rest[0])
    ensures Tokens(sym + d + rest) == [Token(sym, d)] + Tokens(rest)
  {
    var s := sym + d + rest;
    var n, e := |sym|, |sym| + |d|;
    assert s[..n] == sym;
    assert |sym| == 1 && |s| > 1 ==> s[1] == (d + rest)[0];
    assert SymbolLength(s) == n;
    assert forall m :: n <= m < e ==> s[m] == d[m - n];
    assert e < |s| ==> s[e] == rest[0];
    DigitsEndAt(s, n, e);
    assert s[n..e] == d;
    assert s[e..] == rest;
  }

  /** The greedy digit run from `a` ends at `b` when `s[a..b]` are digits and `s[b]` is not. */
  lemma {:induction false} DigitsEndAt(s: string, a: nat, b: nat)
    requires a <= b <= |s|
    requires forall m :: a <= m < b ==> IsDigit(s[m])
    requires b == |s| || !IsDigit(s[b])
    ensures DigitsEnd(s, a) == b
    decreases b - a
  {
    if a < b {
      DigitsEndAt(s, a + 1, b);
    }
  }

  /**
   * Tokenizing splits over a boundary that an element token cannot cross:
   * the second part starts with neither a lower-case letter nor a digit.
   */
  lemma {:induction false} TokensAppend(a: string, b: string)
    requires b == [] || (!IsLower(b[0]) && !IsDigit(b[0]))
    ensures Tokens(a + b) == Tokens(a) + Tokens(b)
    decreases |a|
  {
    var s := a + b;
    if a == [] {
      assert s == b;
    } else if IsUpper(a[0]) {
      var n := SymbolLength(a);
      assert SymbolLength(s) == n;
      DigitsEndAppend(a, b, n);
      var e := DigitsEnd(a, n);
      assert s[..n] == a[..n];
      assert s[n..e] == a[n..e];
      assert s[e..] == a[e..] + b;
      TokensAppend(a[e..], b);
    } else {
      assert s[1..] == a[1..] + b;
      TokensAppend(a[1..], b);
    }
  }

  /** Tokenizing `s[i..]` splits at `j` when `s[j]` can neither extend a symbol nor a digit run. */
  lemma TokensSplit(s: string, i: nat, j: nat)
    requires i <= j <= |s|
    requires j == |s| || (!IsLower(s[j]) && !IsDigit(s[j]))
    ensures Tokens(s[i..]) == Tokens(s[i..j]) + Tokens(s[j..])
  {
    assert s[i..] == s[i..j] + s[j..];
    TokensAppend(s[i..j], s[j..]);
  }

  // ---------------------------------------------------------------------------
  // The tally: a Python dict keyed by element symbol

  /** A `dict[str, int]`: its entries, and its keys in insertion order. */
  datatype Counts = Counts(keys: seq<string>, vals: map<string, nat>)
  {
    ghost predicate Valid()
    {
      (forall i, j :: 0 <= i < j < |keys| ==> keys[i] != keys[j])
      && (forall e :: e in vals <==> e in keys)
    }
  }

  const Empty: Counts := Counts([], map[])

  /** Every key is an element symbol. */
  predicate SymbolKeys(c: Counts) { forall e :: e in c.vals ==> IsSymbol(e) }

  /** `d.get(e, 0)`. */
  function Get(c: Counts, e: string): nat
  {
    if e in c.vals then c.vals[e] else 0
  }

  /** Adding `n` to the entry of `e`, which starts from 0 when absent: a new key goes to the end of the insertion order. */
  function Add(c: Counts, e: string, n: nat): (r: Counts)
    ensures Get(r, e) == Get(c, e) + n
    ensures forall x :: x != e ==> Get(r, x) == Get(c, x)
    ensures r.keys == if e in c.vals then c.keys else c.keys + [e]
    ensures r.vals.Keys == c.vals.Keys + {e}
  {
    Counts(if e in c.vals then c.keys else c.keys + [e], c.vals[e := Get(c, e) + n])
  }

  /** Adding to a well-formed dictionary keeps it well-formed, and keyed by symbols when `e` is one. */
  lemma AddValid(c: Counts, e: string, n: nat)
    requires c.Valid()
    ensures Add(c, e, n).Valid()
    ensures SymbolKeys(c) && IsSymbol(e) ==> SymbolKeys(Add(c, e, n))
  {
  }

  /** The dictionary the counting loop of `_count_atoms_basic` builds from `c` and a token list. */
  function TallyInto(c: Counts, ts: seq<Token>): Counts
    decreases |ts|
  {
    if ts == [] then c
    else TallyInto(Add(c, ts[0].symbol, TokenValue(ts[0])), ts[1..])
  }

  /** The dictionary `_count_atoms_basic` returns for a token list. */
  function Tally(ts: seq<Token>): Counts
  {
    TallyInto(Empty, ts)
  }

  /** Tallying keeps the dictionary well-formed and keyed by element symbols. */
  lemma {:induction false} TallyIntoValid(c: Counts, ts: seq<Token>)
    requires c.Valid() && SymbolKeys(c)
    ensures TallyInto(c, ts).Valid() && SymbolKeys(TallyInto(c, ts))
    decreases |ts|
  {
    if ts != [] {
      AddValid(c, ts[0].symbol, TokenValue(ts[0]));
      TallyIntoValid(Add(c, ts[0].symbol, TokenValue(ts[0])), ts[1..]);
    }
  }

  /** The tally is a well-formed dictionary keyed by element symbols: every key matches `[A-Z][a-z]?`. */
  lemma TallyValid(ts: seq<Token>)
    ensures Tally(ts).Valid() && SymbolKeys(Tally(ts))
  {
    TallyIntoValid(Empty, ts);
  }

  /** Reference meaning of a token list: the atoms the tokens naming `e` add up to. */
  function SumFor(ts: seq<Token>, e: string): nat
  {
    if ts == [] then 0
    else (if ts[0].symbol == e then TokenValue(ts[0]) else 0) + SumFor(ts[1..], e)
  }

  lemma {:induction false} SumForAppend(a: seq<Token>, b: seq<Token>, e: string)
    ensures SumFor(a + b, e) == SumFor(a, e) + SumFor(b, e)
  {
    if a == [] {
      assert a + b == b;
    } else {
      assert (a + b)[1..] == a[1..] + b;
      SumForAppend(a[1..], b, e);
    }
  }

  /**
   * Tallying adds, for each symbol, exactly the atoms its tokens add up to:
   * a symbol without digits adds 1, a symbol with digits adds their value, and
   * repeated symbols sum.
   */
  lemma {:induction false} TallyIntoGet(c: Counts, ts: seq<Token>, e: string)
    ensures Get(TallyInto(c, ts), e) == Get(c, e) + SumFor(ts, e)
    decreases |ts|
  {
    if ts != [] {
      TallyIntoGet(Add(c, ts[0].symbol, TokenValue(ts[0])), ts[1..], e);
    }
  }

  /** The symbols of a token list, in order. */
  function Symbols(ts: seq<Token>): seq<string>
  {
    if ts == [] then [] else [ts[0].symbol] + Symbols(ts[1..])
  }

  /** Tallying adds exactly the symbols that occur among the tokens as keys. */
  lemma {:induction false} TallyIntoHas(c: Counts, ts: seq<Token>, e: string)
    ensures e in TallyInto(c, ts).vals <==> e in c.vals || e in Symbols(ts)
    decreases |ts|
  {
    if ts != [] {
      TallyIntoHas(Add(c, ts[0].symbol, TokenValue(ts[0])), ts[1..], e);
    }
  }

  /** The tally holds, for each symbol, the atoms its tokens add up to. */
  lemma TallyGet(ts: seq<Token>, e: string)
    ensures Get(Tally(ts), e) == SumFor(ts, e)
  {
    TallyIntoGet(Empty, ts, e);
  }

  /** The keys of the tally are exactly the symbols that occur among the tokens. */
  lemma TallyHas(ts: seq<Token>, e: string)
    ensures e in Tally(ts).vals <==> e in Symbols(ts)
  {
    TallyIntoHas(Empty, ts, e);
  }

  /**
   * `_count_atoms_basic`: the loop over the tokens that `findall` returns adds
   * each token's number to its symbol's entry.
   */
  method CountAtomsBasic(formula: string) returns (counts: Counts)
    ensures counts == Tally(Tokens(formula)) && counts.Valid() && SymbolKeys(counts)
    ensures forall e :: Get(counts, e) == SumFor(Tokens(formula), e)
  {
    var found := Tokens(formula);
    counts := Empty;
    for i := 0 to |found|
      invariant TallyInto(counts, found[i..]) == Tally(found)
    {
      var el, num := found[i].symbol, found[i].digits;
      var n := if num != [] then DigitsValue(num) else 1;
      assert found[i..][1..] == found[i + 1..];
      counts := Add(counts, el, n);
    }
    TallyValid(found);
    forall e ensures Get(counts, e) == SumFor(found, e) {
      TallyGet(found, e);
    }
  }

  // ---------------------------------------------------------------------------
  // The bracket group: _group_pat.search

  /** One match of `\(([^()]+)\)(\d+)`: where it starts and ends, the bracketed text and the multiplier's digits. */
  datatype Group = Group(start: nat, inner: string, digits: string, end: nat)
  {
    /** Index of the closing bracket. */
    function Close(): nat { start + 1 + |inner| }
  }

  /** No bracket in `s`. */
  predicate ParenFree(s: string) { '(' !in s && ')' !in s }

  /** No bracket among `s[a..b]`. */
  ghost predicate NoBracket(s: string, a: int, b: int)
  {
    forall m :: a <= m < b && 0 <= m < |s| ==> s[m] != '(' && s[m] != ')'
  }

  /** The first index at or after `a` that holds a bracket, or `|s|`: the greedy `[^()]+` from `a`. */
  function BracketFrom(s: string, a: nat): (j: nat)
    requires a <= |s|
    ensures a <= j <= |s| && NoBracket(s, a, j)
    ensures j < |s| ==> s[j] == '(' || s[j] == ')'
    decreases |s| - a
  {
    if a == |s| || s[a] == '(' || s[a] == ')' then a else BracketFrom(s, a + 1)
  }

  /**
   * `g` is a match of the group pattern in `s`: `(`, a non-empty bracket-free
   * text, `)`, and the longest non-empty run of digits after it.
   */
  ghost predicate IsGroup(s: string, g: Group)
  {
    && g.Close() + 1 < g.end <= |s|
    && s[g.start] == '(' && s[g.Close()] == ')'
    && g.inner == s[g.start + 1..g.Close()] && g.digits == s[g.Close() + 1..g.end]
    && g.inner != [] && NoBracket(s, g.start + 1, g.Close())
    && g.digits != [] && AllDigits(g.digits)
    && (forall m :: g.Close() < m < g.end ==> IsDigit(s[m]))
    && (g.end < |s| ==> !IsDigit(s[g.end]))
  }

  /**
   * Whether the group pattern matches at index `i`, and the match. It matches
   * exactly when `(` is followed by a non-empty bracket-free text, `)` and at
   * least one digit.
   */
  function GroupAt(s: string, i: nat): (g: Option<Group>)
    requires i <= |s|
    ensures g.Some? ==> g.value.start == i && IsGroup(s, g.value)
    ensures g.None? ==>
              forall k :: i + 1 < k && k + 1 < |s| && s[i] == '(' && s[k] == ')' && IsDigit(s[k + 1])
                          ==> !NoBracket(s, i + 1, k)
  {
    if i < |s| && s[i] == '(' then
      var close := BracketFrom(s, i + 1);
      if close < |s| && s[close] == ')' && close > i + 1 then
        var end := DigitsEnd(s, close + 1);
        if end > close + 1 then
          Some(Group(i, s[i + 1..close], s[close + 1..end], end))
        else
          None
      else
        None
    else
      None
  }

  /** `_group_pat.search(s[from:])`: the leftmost match at or after `from`. */
  function FindGroup(s: string, from: nat): (g: Option<Group>)
    requires from <= |s|
    ensures g.Some? ==> from <= g.value.start < |s| && GroupAt(s, g.value.start) == g && IsGroup(s, g.value)
    ensures forall i :: from <= i <= |s| && (g.Some? ==> i < g.value.start) ==> GroupAt(s, i).None?
    decreases |s| - from
  {
    if from == |s| then None
    else if GroupAt(s, from).Some? then GroupAt(s, from)
    else FindGroup(s, from + 1)
  }

  // ---------------------------------------------------------------------------
  // Expansion of one group

  /** The digits an entry's product is written with: none for a product of 1. */
  function ProductDigits(p: nat): (d: string)
    ensures AllDigits(d) && ParenFree(d)
    ensures d == [] <==> p == 1
  {
    if p != 1 then NatToString(p) else []
  }

  /** The symbols of `keys`, all of them entries of `vals`. */
  ghost predicate SymbolEntries(keys: seq<string>, vals: map<string, nat>)
  {
    forall k :: 0 <= k < |keys| ==> keys[k] in vals && IsSymbol(keys[k])
  }

  lemma KeysAreEntries(c: Counts)
    requires c.Valid() && SymbolKeys(c)
    ensures SymbolEntries(c.keys, c.vals)
  {
    forall k | 0 <= k < |c.keys| ensures c.keys[k] in c.vals && IsSymbol(c.keys[k]) {
      assert c.keys[k] in c.keys;
    }
  }

  function Render(keys: seq<string>, vals: map<string, nat>, mult: nat): (r: string)
    requires SymbolEntries(keys, vals)
    ensures ParenFree(r) && (r == [] <==> keys == []) && (r != [] ==> IsUpper(r[0]))
  {
    if keys == [] then []
    else
      assert keys[0] in vals && IsSymbol(keys[0]);
      var p := keys[0] + ProductDigits(mult * vals[keys[0]]);
      assert p[0] == keys[0][0];
      p + Render(keys[1..], vals, mult)
  }

  /**
   * The expanded text of a group: every entry in insertion order, written as
   * its symbol followed by its count times `mult`, the number left out when
   * that product is 1.
   */
  function ExpandedText(c: Counts, mult: nat): (r: string)
    requires c.Valid() && SymbolKeys(c)
    ensures ParenFree(r) && (r == [] || IsUpper(r[0]))
  {
    KeysAreEntries(c);
    Render(c.keys, c.vals, mult)
  }

  lemma ProductDigitsValue(p: nat)
    ensures TokenValue(Token("H", ProductDigits(p))) == p
  {
    if p != 1 {
      DigitsValueOfNatToString(p);
    }
  }

  /**
   * Reading the rendered entries back: each symbol's tokens add up to its
   * count times `mult` (a product of 1 reads back as a bare symbol, worth 1).
   */
  lemma {:induction false} RenderSum(keys: seq<string>, vals: map<string, nat>, mult: nat, e: string)
    requires SymbolEntries(keys, vals)
    requires forall i, j :: 0 <= i < j < |keys| ==> keys[i] != keys[j]
    ensures SumFor(Tokens(Render(keys, vals, mult)), e) == if e in keys then mult * vals[e] else 0
  {
    if keys != [] {
      var sym := keys[0];
      assert sym in vals && IsSymbol(sym);
      var p := mult * vals[sym];
      var d := ProductDigits(p);
      var rest := Render(keys[1..], vals, mult);
      assert Render(keys, vals, mult) == sym + d + rest;
      TokensCons(sym, d, rest);
      var ts := Tokens(Render(keys, vals, mult));
      assert ts[0] == Token(sym, d) && ts[1..] == Tokens(rest);
      ProductDigitsValue(p);
      assert TokenValue(Token(sym, d)) == p;
      RenderSum(keys[1..], vals, mult, e);
      assert e in keys <==> e == sym || e in keys[1..];
      assert sym !in keys[1..];
    }
  }

  /**
   * Reading the expansion back gives, for every element, its count in the
   * bracketed text times the group's multiplier.
   */
  lemma ExpandedTextSum(c: Counts, mult: nat, e: string)
    requires c.Valid() && SymbolKeys(c)
    ensures SumFor(Tokens(ExpandedText(c, mult)), e) == mult * Get(c, e)
  {
    KeysAreEntries(c);
    assert ExpandedText(c, mult) == Render(c.keys, c.vals, mult);
    RenderSum(c.keys, c.vals, mult, e);
    if e in c.keys {
      assert Get(c, e) == c.vals[e];
    } else {
      assert Get(c, e) == 0;
    }
  }

  /** The multiplier of a group: the value of the digits after its closing bracket. */
  function Multiplier(g: Group): nat
    requires AllDigits(g.digits)
  {
    DigitsValue(g.digits)
  }

  /** The text a group is replaced with: its atoms tallied, every count multiplied. */
  function Expansion(g: Group): (x: string)
    requires AllDigits(g.digits)
    ensures ParenFree(x) && (x == [] || IsUpper(x[0]))
  {
    TallyValid(Tokens(g.inner));
    ExpandedText(Tally(Tokens(g.inner)), Multiplier(g))
  }

  /** The formula with the group `g` found in it replaced by the group's expansion. */
  function Substitute(f: string, g: Group): (r: string)
    requires IsGroup(f, g)
  {
    f[..g.start] + Expansion(g) + f[g.end..]
  }

  /** A bracket-free group text holds exactly one `(`: the one it starts with. */
  lemma GroupTextBrackets(f: string, g: Group)
    requires IsGroup(f, g)
    ensures Count('(', f[g.start..g.end]) == 1
  {
    var t := f[g.start + 1..g.end];
    assert f[g.start..g.end] == [f[g.start]] + t;
    assert '(' !in t by {
      forall k | 0 <= k < |t| ensures t[k] != '(' {
        assert t[k] == f[g.start + 1 + k];
      }
    }
    CountZero('(', t);
    CountAppend('(', [f[g.start]], t);
  }

  /** Each substitution removes exactly one `(`: the loop of `_expand_groups` terminates. */
  lemma SubstituteRemovesBracket(f: string, g: Group)
    requires IsGroup(f, g)
    ensures Count('(', Substitute(f, g)) == Count('(', f) - 1
  {
    var pre, x, post := f[..g.start], Expansion(g), f[g.end..];
    CountSplit3('(', f, g.start, g.end);
    GroupTextBrackets(f, g);
    CountAppend('(', pre + x, post);
    CountAppend('(', pre, x);
    CountZero('(', x);
  }

  /** The tokens from a group's `(` on are those inside it and those after it. */
  lemma GroupTailTokens(f: string, g: Group)
    requires IsGroup(f, g)
    ensures Tokens(f[g.start..]) == Tokens(g.inner) + Tokens(f[g.end..])
  {
    var close := g.Close();
    TokensDrop(f, g.start, g.start + 1);
    TokensSplit(f, g.start + 1, close);
    TokensDrop(f, close, g.end);
  }

  /** The tokens of a formula are those before the group, those inside it and those after it. */
  lemma GroupTokens(f: string, g: Group)
    requires IsGroup(f, g)
    ensures Tokens(f) == Tokens(f[..g.start]) + Tokens(g.inner) + Tokens(f[g.end..])
  {
    GroupTailTokens(f, g);
    TokensSplit(f, 0, g.start);
    assert f[0..] == f && f[0..g.start] == f[..g.start];
  }

  /**
   * After the substitution, the tokens are those before the group, those of
   * the expansion and those after it, as long as the text after the multiplier
   * does not start with a lower-case letter.
   */
  lemma SubstituteTokens(f: string, g: Group)
    requires IsGroup(f, g)
    requires g.end == |f| || !IsLower(f[g.end])
    ensures Tokens(Substitute(f, g)) == Tokens(f[..g.start]) + Tokens(Expansion(g)) + Tokens(f[g.end..])
  {
    var pre, x, post := f[..g.start], Expansion(g), f[g.end..];
    assert post == [] || (!IsLower(post[0]) && !IsDigit(post[0]));
    TokensAppend(pre + x, post);
    TokensAppend(pre, x);
  }

  /**
   * Expanding one group multiplies the atoms inside the brackets by the
   * multiplier and leaves the rest of the formula's atoms as they were, as
   * long as the text after the multiplier does not start with a lower-case
   * letter that could glue onto the last symbol of the expansion.
   */
  lemma SubstituteScalesGroup(f: string, g: Group, e: string)
    requires IsGroup(f, g)
    requires g.end == |f| || !IsLower(f[g.end])
    ensures SumFor(Tokens(f), e)
            == SumFor(Tokens(f[..g.start]), e) + SumFor(Tokens(g.inner), e) + SumFor(Tokens(f[g.end..]), e)
    ensures SumFor(Tokens(Substitute(f, g)), e)
            == SumFor(Tokens(f[..g.start]), e) + Multiplier(g) * SumFor(Tokens(g.inner), e)
               + SumFor(Tokens(f[g.end..]), e)
  {
    var pre, inner, post := Tokens(f[..g.start]), Tokens(g.inner), Tokens(f[g.end..]);
    var x := Tokens(Expansion(g));
    GroupTokens(f, g);
    SumForAppend(pre + inner, post, e);
    SumForAppend(pre, inner, e);
    SubstituteTokens(f, g);
    SumForAppend(pre + x, post, e);
    SumForAppend(pre, x, e);
    TallyGet(inner, e);
    TallyValid(inner);
    ExpandedTextSum(Tally(inner), Multiplier(g), e);
  }

  // ---------------------------------------------------------------------------
  // _expand_groups and parse_formula

  /**
   * What `_expand_groups` returns: groups are substituted, leftmost first,
   * until the pattern no longer matches anywhere.
   */
  function Expand(f: string): (r: string)
    ensures FindGroup(r, 0).None?
    decreases Count('(', f)
  {
    match FindGroup(f, 0)
    case None => f
    case Some(g) =>
      SubstituteRemovesBracket(f, g);
      Expand(Substitute(f, g))
  }

  /**
   * `_expand_groups`: a `while True` loop that rewrites the leftmost group
   * until none is left. Each pass removes one `(`, so the loop ends; on
   * return no bracket-free group followed by digits remains.
   */
  method ExpandGroups(formula: string) returns (r: string)
    ensures r == Expand(formula)
    ensures FindGroup(r, 0).None?
    ensures Count('(', r) <= Count('(', formula)
  {
    r := formula;
    while true
      invariant Expand(r) == Expand(formula)
      invariant Count('(', r) <= Count('(', formula)
      decreases Count('(', r)
    {
      var m := FindGroup(r, 0);
      if m.None? {
        return;
      }
      var g := m.value;
      var inside, mult := g.inner, DigitsValue(g.digits);
      var counts := CountAtomsBasic(inside);
      var expanded := ExpandedText(counts, mult);
      assert expanded == Expansion(g);
      SubstituteRemovesBracket(r, g);
      r := r[..g.start] + expanded + r[g.end..];
    }
  }

  /** The element counts of a formula: the tally of its expansion. */
  function FormulaCounts(f: string): (c: Counts)
    ensures c.Valid() && SymbolKeys(c)
  {
    TallyValid(Tokens(Expand(f)));
    Tally(Tokens(Expand(f)))
  }

  /** `parse_formula`: expand the groups, then count the atoms. */
  method ParseFormula(formula: string) returns (counts: Counts)
    ensures counts == FormulaCounts(formula)
    ensures forall e :: Get(counts, e) == SumFor(Tokens(Expand(formula)), e)
  {
    var f := ExpandGroups(formula);
    counts := CountAtomsBasic(f);
  }

  // ---------------------------------------------------------------------------
  // Worked example

  /** Without an opening bracket there is no group to expand. */
  lemma {:induction false} NoGroupWithoutBracket(s: string, from: nat)
    requires from <= |s| && '(' !in s
    ensures FindGroup(s, from).None?
    decreases |s| - from
  {
    if from < |s| {
      assert s[from] != '(';
      NoGroupWithoutBracket(s, from + 1);
    }
  }

  lemma SulfateGroup()
    ensures FindGroup("Al2(SO4)3", 0) == Some(Group(3, "SO4", "3", 9))
  {
    var f := "Al2(SO4)3";
    assert f[0] == 'A' && f[1] == 'l' && f[2] == '2' && f[3] == '(' && f[4] == 'S';
    assert f[5] == 'O' && f[6] == '4' && f[7] == ')' && f[8] == '3' && |f| == 9;
    assert BracketFrom(f, 4) == 7;
    assert DigitsEnd(f, 8) == 9;
    assert f[4..7] == "SO4" && f[8..9] == "3";
  }

  lemma SulfateTokens()
    ensures Tokens("SO4") == [Token("S", ""), Token("O", "4")]
  {
    TokensCons("O", "4", "");
    assert "O" + "4" + "" == "O4";
    TokensCons("S", "", "O4");
    assert "S" + "" + "O4" == "SO4";
  }

  lemma SmallNumbers()
    ensures DigitsValue("2") == 2 && DigitsValue("3") == 3 && DigitsValue("4") == 4 && DigitsValue("12") == 12
    ensures NatToString(3) == "3" && NatToString(12) == "12"
  {
    assert NatToString(1) == "1" && NatToString(2) == "2";
  }

  lemma SulfateTally()
    ensures Tally([Token("S", ""), Token("O", "4")]).keys == ["S", "O"]
    ensures Get(Tally([Token("S", ""), Token("O", "4")]), "S") == 1
    ensures Get(Tally([Token("S", ""), Token("O", "4")]), "O") == 4
  {
    SmallNumbers();
    var ts := [Token("S", ""), Token("O", "4")];
    TallyIntoNewKeys(Empty, ts);
    assert Symbols(ts) == ["S", "O"];
    TallyGet(ts, "S");
    TallyGet(ts, "O");
  }

  lemma SulfateRender(vals: map<string, nat>)
    requires "S" in vals && "O" in vals && vals["S"] == 1 && vals["O"] == 4
    ensures Render(["S", "O"], vals, 3) == "S3O12"
  {
    SmallNumbers();
    assert ProductDigits(3 * 4) == "12";
    assert Render(["O"], vals, 3) == "O12";
    assert ["S", "O"][1..] == ["O"];
    assert ProductDigits(3 * 1) == "3";
  }

  lemma SulfateExpansion()
    ensures Expansion(Group(3, "SO4", "3", 9)) == "S3O12"
  {
    SulfateTokens();
    SulfateTally();
    SmallNumbers();
    var c := Tally(Tokens("SO4"));
    assert c.vals["S"] == 1 && c.vals["O"] == 4;
    SulfateRender(c.vals);
  }

  lemma SulfateSubstitute()
    ensures IsGroup("Al2(SO4)3", Group(3, "SO4", "3", 9))
    ensures Substitute("Al2(SO4)3", Group(3, "SO4", "3", 9)) == "Al2S3O12"
  {
    var f := "Al2(SO4)3";
    var x := f[..3];
    var y := f[9..];
    assert x == "Al2";
    assert y == [];
    assert x + "S3O12" + y == "Al2S3O12";
    SulfateGroup();
    SulfateExpansion();
  }

  /** Three symbols, each followed by a non-empty digit run, read as three tokens. */
  lemma ThreeTokens(s1: Symbol, d1: Digits, s2: Symbol, d2: Digits, s3: Symbol, d3: Digits)
    requires d1 != [] && d2 != [] && d3 != []
    ensures Tokens(s1 + d1 + (s2 + d2 + (s3 + d3 + []))) == [Token(s1, d1), Token(s2, d2), Token(s3, d3)]
  {
    var r3 := s3 + d3 + [];
    TokensCons(s3, d3, []);
    assert Tokens(r3) == [Token(s3, d3)];
    var r2 := s2 + d2 + r3;
    assert r3[0] == s3[0];
    TokensCons(s2, d2, r3);
    assert Tokens(r2) == [Token(s2, d2), Token(s3, d3)];
    assert r2[0] == s2[0];
    TokensCons(s1, d1, r2);
  }

  lemma AluminiumSulfateTokens()
    ensures Tokens("Al2S3O12") == [Token("Al", "2"), Token("S", "3"), Token("O", "12")]
  {
    assert "Al" + "2" + ("S" + "3" + ("O" + "12" + [])) == "Al2S3O12";
    ThreeTokens("Al", "2", "S", "3", "O", "12");
  }

  /**
   * The symbols of a token list in the order they first occur, leaving out
   * those in `seen` and repeats: the key order of a dictionary that already
   * holds the keys `seen` when the symbols are added in turn.
   */
  function FirstOccurrences(seen: set<string>, ts: seq<Token>): seq<string>
    decreases |ts|
  {
    if ts == [] then []
    else if ts[0].symbol in seen then FirstOccurrences(seen, ts[1..])
    else [ts[0].symbol] + FirstOccurrences(seen + {ts[0].symbol}, ts[1..])
  }

  /** Every symbol not in `seen` appears once, and nothing else appears. */
  lemma {:induction false} FirstOccurrencesShape(seen: set<string>, ts: seq<Token>)
    ensures forall x :: x in FirstOccurrences(seen, ts) <==> x !in seen && x in Symbols(ts)
    ensures forall i, j :: 0 <= i < j < |FirstOccurrences(seen, ts)| ==>
      FirstOccurrences(seen, ts)[i] != FirstOccurrences(seen, ts)[j]
    decreases |ts|
  {
    if ts != [] {
      var e := ts[0].symbol;
      assert Symbols(ts) == [e] + Symbols(ts[1..]);
      if e in seen {
        FirstOccurrencesShape(seen, ts[1..]);
      } else {
        FirstOccurrencesShape(seen + {e}, ts[1..]);
        var rest := FirstOccurrences(seen + {e}, ts[1..]);
        assert FirstOccurrences(seen, ts) == [e] + rest;
        assert e !in rest;
      }
    }
  }

  /**
   * Insertion order: tallying appends each symbol as a key the first time it
   * occurs, and a repeated symbol leaves the order as it was.
   */
  lemma {:induction false} TallyIntoKeys(c: Counts, ts: seq<Token>)
    ensures TallyInto(c, ts).keys == c.keys + FirstOccurrences(c.vals.Keys, ts)
    decreases |ts|
  {
    if ts != [] {
      var e := ts[0].symbol;
      var c' := Add(c, e, TokenValue(ts[0]));
      assert TallyInto(c, ts) == TallyInto(c', ts[1..]);
      TallyIntoKeys(c', ts[1..]);
      if e in c.vals {
        assert c'.vals.Keys == c.vals.Keys;
        assert FirstOccurrences(c.vals.Keys, ts) == FirstOccurrences(c'.vals.Keys, ts[1..]);
      } else {
        assert FirstOccurrences(c.vals.Keys, ts) == [e] + FirstOccurrences(c'.vals.Keys, ts[1..]);
        assert c.keys + [e] + FirstOccurrences(c.vals.Keys + {e}, ts[1..])
          == c.keys + ([e] + FirstOccurrences(c.vals.Keys + {e}, ts[1..]));
      }
    }
  }

  /** The keys of `_count_atoms_basic`'s dictionary are the symbols in first-occurrence order. */
  lemma TallyKeys(ts: seq<Token>)
    ensures Tally(ts).keys == FirstOccurrences({}, ts)
  {
    assert Empty.vals.Keys == {};
    TallyIntoKeys(Empty, ts);
  }

  lemma AceticAcidTail(ts: seq<Token>)
    requires |ts| == 3 && ts[0].symbol == "O" && ts[1].symbol == "O" && ts[2].symbol == "H"
    ensures FirstOccurrences({"C", "H"}, ts) == ["O"]
  {
    var cho: set<string> := {"C", "H", "O"};
    assert "O" != "C" && "O" != "H" && "O" in cho && "H" in cho;
    assert {"C", "H"} + {"O"} == cho;
    assert FirstOccurrences(cho, ts[1..][1..][1..]) == [];
    assert FirstOccurrences(cho, ts[1..][1..]) == [];
    assert FirstOccurrences(cho, ts[1..]) == [];
    assert FirstOccurrences({"C", "H"}, ts) == ["O"] + FirstOccurrences(cho, ts[1..]);
  }

  /**
   * The tokens of acetic acid, `CH3COOH`: repeated symbols keep the place of
   * their first occurrence, so the keys are C, H, O.
   */
  lemma AceticAcidKeys(ts: seq<Token>)
    requires |ts| == 6 && ts[0].symbol == "C" && ts[1].symbol == "H" && ts[2].symbol == "C"
    requires ts[3].symbol == "O" && ts[4].symbol == "O" && ts[5].symbol == "H"
    ensures Tally(ts).keys == ["C", "H", "O"]
  {
    TallyKeys(ts);
    AceticAcidTail(ts[3..]);
    var ch: set<string> := {"C", "H"};
    assert "C" in ch && "H" != "C" && {"C"} + {"H"} == ch && {} + {"C"} == {"C"};
    assert ts[2..][1..] == ts[3..];
    assert FirstOccurrences(ch, ts[2..]) == ["O"];
    assert FirstOccurrences({"C"}, ts[1..]) == ["H"] + FirstOccurrences(ch, ts[2..]);
    assert FirstOccurrences({}, ts) == ["C"] + FirstOccurrences({"C"}, ts[1..]);
  }

  /** Each token's symbol is in neither `seen` nor any earlier token. */
  predicate AllNew(seen: set<string>, ts: seq<Token>)
    decreases |ts|
  {
    ts == [] || (ts[0].symbol !in seen && AllNew(seen + {ts[0].symbol}, ts[1..]))
  }

  /** When every symbol is new, the tally's keys are the symbols in the order they come. */
  lemma {:induction false} TallyIntoNewKeys(c: Counts, ts: seq<Token>)
    requires AllNew(c.vals.Keys, ts)
    ensures TallyInto(c, ts).keys == c.keys + Symbols(ts)
    decreases |ts|
  {
    if ts != [] {
      var c' := Add(c, ts[0].symbol, TokenValue(ts[0]));
      assert c'.keys == c.keys + [ts[0].symbol];
      TallyIntoNewKeys(c', ts[1..]);
      assert c.keys + [ts[0].symbol] + Symbols(ts[1..]) == c.keys + Symbols(ts);
    }
  }

  lemma AluminiumSulfateTally()
    ensures Tally([Token("Al", "2"), Token("S", "3"), Token("O", "12")]).keys == ["Al", "S", "O"]
    ensures Get(Tally([Token("Al", "2"), Token("S", "3"), Token("O", "12")]), "Al") == 2
    ensures Get(Tally([Token("Al", "2"), Token("S", "3"), Token("O", "12")]), "S") == 3
    ensures Get(Tally([Token("Al", "2"), Token("S", "3"), Token("O", "12")]), "O") == 12
  {
    SmallNumbers();
    var ts := [Token("Al", "2"), Token("S", "3"), Token("O", "12")];
    TallyIntoNewKeys(Empty, ts);
    assert Symbols(ts) == ["Al", "S", "O"];
    TallyGet(ts, "Al");
    TallyGet(ts, "S");
    TallyGet(ts, "O");
  }

  lemma AluminiumSulfateFlat()
    ensures FindGroup("Al2S3O12", 0).None?
  {
    var r := "Al2S3O12";
    assert forall k :: 0 <= k < |r| ==> r[k] != '(';
    NoGroupWithoutBracket(r, 0);
  }

  /** `_expand_groups("Al2(SO4)3")` is `"Al2S3O12"`. */
  lemma AluminiumSulfateExpand()
    ensures Expand("Al2(SO4)3") == "Al2S3O12"
  {
    SulfateGroup();
    SulfateSubstitute();
    AluminiumSulfateFlat();
    ExpandOnce("Al2(SO4)3", Group(3, "SO4", "3", 9), "Al2S3O12");
  }

  /** A formula with one group whose substitution leaves no group expands to that substitution. */
  lemma ExpandOnce(f: string, g: Group, r: string)
    requires FindGroup(f, 0) == Some(g) && IsGroup(f, g) && Substitute(f, g) == r && FindGroup(r, 0).None?
    ensures Expand(f) == r
  {
  }

  /** `parse_formula("Al2(SO4)3")` is `{"Al": 2, "S": 3, "O": 12}`, in that order. */
  lemma AluminiumSulfate()
    ensures FormulaCounts("Al2(SO4)3").keys == ["Al", "S", "O"]
    ensures Get(FormulaCounts("Al2(SO4)3"), "Al") == 2
    ensures Get(FormulaCounts("Al2(SO4)3"), "S") == 3
    ensures Get(FormulaCounts("Al2(SO4)3"), "O") == 12
  {
    AluminiumSulfateExpand();
    AluminiumSulfateTokens();
    AluminiumSulfateTally();
  }

  /**
   * A lower-case letter right after a multiplier glues onto a bare symbol in
   * front of the group once the group is gone: in `H(x)2e` the group holds
   * no element, so it expands to nothing and `H` meets `e`.
   */
  lemma GlueGroup()
    ensures FindGroup("H(x)2e", 0) == Some(Group(1, "x", "2", 5))
  {
    var f := "H(x)2e";
    assert f[0] == 'H' && f[1] == '(' && f[2] == 'x' && f[3] == ')' && f[4] == '2' && f[5] == 'e' && |f| == 6;
    assert BracketFrom(f, 2) == 3;
    assert DigitsEnd(f, 5) == 5;
    assert f[2..3] == "x" && f[4..5] == "2";
  }

  lemma GlueSubstitute()
    ensures Substitute("H(x)2e", Group(1, "x", "2", 5)) == "He"
  {
    GlueGroup();
    assert Tokens("x") == [];
    assert Tally([]) == Empty;
    assert Expansion(Group(1, "x", "2", 5)) == [];
    assert "H(x)2e"[..1] == "H" && "H(x)2e"[5..] == "e";
  }

  lemma GlueExpand()
    ensures Expand("H(x)2e") == "He"
  {
    GlueGroup();
    GlueSubstitute();
    NoGroupWithoutBracket("He", 0);
    ExpandOnce("H(x)2e", Group(1, "x", "2", 5), "He");
  }

  /**
   * `parse_formula("H(x)2e")` counts one helium atom and no hydrogen, though
   * the text before expansion reads as a bare `H`.
   */
  lemma LowerCaseGlues()
    ensures Tokens("H(x)2e") == [Token("H", "")]
    ensures FormulaCounts("H(x)2e").keys == ["He"]
    ensures Get(FormulaCounts("H(x)2e"), "He") == 1 && Get(FormulaCounts("H(x)2e"), "H") == 0
  {
    GlueExpand();
    GlueTokens();
    TallyKeys([Token("He", "")]);
    TallyGet([Token("He", "")], "He");
    TallyGet([Token("He", "")], "H");
  }

  lemma GlueTokens()
    ensures Tokens("H(x)2e") == [Token("H", "")]
    ensures Tokens("He") == [Token("He", "")]
  {
    TokensCons("He", "", "");
    assert "He" + "" + "" == "He";
    var rest := "(x)2e";
    TokensDrop(rest, 0, |rest|);
    assert rest[0..] == rest && rest[|rest|..] == [];
    TokensCons("H", "", rest);
    assert "H" + "" + rest == "H(x)2e";
  }
}
