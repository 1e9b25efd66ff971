/**
 * The text front end of the ODE solver: `_strip_outer_quotes`, the rewrite
 * of `y''`, `y'` and `y` into SymPy's `Derivative(F(x), x, x)`,
 * `Derivative(F(x), x)` and `F(x)` done by `_prepare_ode_equation_text`,
 * and the arity checks on the initial conditions of `dsolve_first_order`
 * and `dsolve_second_order`.
 *
 * Each `re.sub` is modelled as a left-to-right scanner: at every position
 * the pattern is tried once; a match is replaced and scanning resumes after
 * it, otherwise one character is copied. The lookbehind and the lookahead
 * look at the string the substitution started from.
 */
module OdeText {
  import opened Wrappers
  import opened Text

  // ---------------------------------------------------------------------------
  // _strip_outer_quotes

  /** The trimmed text starts and ends with `"`, or starts and ends with `'`. */
  predicate Quoted(t: string)
  {
    |t| >= 1 && ((t[0] == '"' && t[|t| - 1] == '"') || (t[0] == '\'' && t[|t| - 1] == '\''))
  }

  /**
   * `_strip_outer_quotes(s)`: the stripped text, without its first and last
   * characters when it is quoted. Python's `t[1:-1]` on a one-character
   * text is empty.
   */
  function StripOuterQuotes(s: string): (r: string)
    ensures |r| <= |s|
  {
    var t := Strip(s);
    if Quoted(t) then (if |t| >= 2 then t[1..|t| - 1] else []) else t
  }

  /**
   * The stripped text comes back unchanged exactly when it is not quoted;
   * when it is, what comes back is what lay between the two quotes.
   */
  lemma StripOuterQuotesShape(s: string)
    ensures StripOuterQuotes(s) != Strip(s) <==> Quoted(Strip(s))
    ensures Quoted(Strip(s)) && |Strip(s)| >= 2 ==>
      Strip(s) == [Strip(s)[0]] + StripOuterQuotes(s) + [Strip(s)[0]]
    ensures Quoted(Strip(s)) && |Strip(s)| == 1 ==> StripOuterQuotes(s) == []
  {
    var t := Strip(s);
    if Quoted(t) && |t| >= 2 {
      assert t == [t[0]] + t[1..|t| - 1] + [t[|t| - 1]];
    }
  }

  /** Only one layer of quotes goes, whatever lies inside it, quotes included. */
  lemma OneLayer(q: char, u: string)
    requires q == '"' || q == '\''
    ensures StripOuterQuotes([q] + u + [q]) == u
  {
    var t := [q] + u + [q];
    StripStripped(t);
    assert t[1..|t| - 1] == u;
  }

  // ---------------------------------------------------------------------------
  // re.sub(r"\s+", " ", eq).strip()

  /** `re.sub(r"\s+", " ", s)`: every maximal run of whitespace becomes one space. */
  function CollapseSpaces(s: string): string
    decreases |s|
  {
    if s == [] then []
    else if IsSpace(s[0]) then " " + CollapseSpaces(s[StripStart(s, 0)..])
    else [s[0]] + CollapseSpaces(s[1..])
  }

  /** The only whitespace is the plain space, and no two whitespace characters touch. */
  predicate SpacesCollapsed(r: string)
  {
    && (forall k :: 0 <= k < |r| && IsSpace(r[k]) ==> r[k] == ' ')
    && (forall k :: 0 <= k < |r| - 1 ==> !(IsSpace(r[k]) && IsSpace(r[k + 1])))
  }

  /** `s` with every whitespace character removed. */
  function Squeeze(s: string): string
  {
    if s == [] then [] else (if IsSpace(s[0]) then [] else [s[0]]) + Squeeze(s[1..])
  }

  lemma {:induction false} SqueezeAppend(a: string, b: string)
    ensures Squeeze(a + b) == Squeeze(a) + Squeeze(b)
  {
    if a == [] {
      assert a + b == b;
    } else {
      var h := if IsSpace(a[0]) then [] else [a[0]];
      assert (a + b)[0] == a[0] && (a + b)[1..] == a[1..] + b;
      SqueezeAppend(a[1..], b);
    }
  }

  lemma {:induction false} SqueezeSpaces(s: string)
    requires forall k :: 0 <= k < |s| ==> IsSpace(s[k])
    ensures Squeeze(s) == []
  {
    if s != [] {
      SqueezeSpaces(s[1..]);
    }
  }

  /** Removing whitespace keeps the count of every other character. */
  lemma {:induction false} SqueezeCount(ch: char, s: string)
    requires !IsSpace(ch)
    ensures Count(ch, Squeeze(s)) == Count(ch, s)
  {
    if s != [] {
      SqueezeCount(ch, s[1..]);
      CountAppend(ch, if IsSpace(s[0]) then [] else [s[0]], Squeeze(s[1..]));
    }
  }

  /**
   * Collapsing leaves whitespace only as single plain spaces, keeps every
   * other character in its order, and starts with whitespace exactly when
   * the input did.
   */
  lemma {:induction false} CollapseShape(s: string)
    ensures SpacesCollapsed(CollapseSpaces(s))
    ensures Squeeze(CollapseSpaces(s)) == Squeeze(s)
    ensures s != [] ==> CollapseSpaces(s) != [] && (IsSpace(CollapseSpaces(s)[0]) <==> IsSpace(s[0]))
    decreases |s|
  {
    if s != [] {
      var r := CollapseSpaces(s);
      if IsSpace(s[0]) {
        var a := StripStart(s, 0);
        var rest := CollapseSpaces(s[a..]);
        CollapseShape(s[a..]);
        assert r == " " + rest;
        assert s == s[..a] + s[a..];
        SqueezeAppend(s[..a], s[a..]);
        SqueezeSpaces(s[..a]);
        SqueezeAppend(" ", rest);
        forall k | 0 <= k < |r| - 1 ensures !(IsSpace(r[k]) && IsSpace(r[k + 1])) {
          if k > 0 {
            assert r[k] == rest[k - 1] && r[k + 1] == rest[k];
          }
        }
      } else {
        var rest := CollapseSpaces(s[1..]);
        CollapseShape(s[1..]);
        assert s == [s[0]] + s[1..];
        SqueezeAppend([s[0]], s[1..]);
        SqueezeAppend([s[0]], rest);
        forall k | 0 <= k < |r| - 1 ensures !(IsSpace(r[k]) && IsSpace(r[k + 1])) {
          if k > 0 {
            assert r[k] == rest[k - 1] && r[k + 1] == rest[k];
          }
        }
      }
    }
  }

  lemma {:induction false} SqueezeDropFront(s: string, i: nat)
    requires i <= |s| && forall k :: 0 <= k < i ==> IsSpace(s[k])
    ensures Squeeze(s[i..]) == Squeeze(s)
    decreases i
  {
    if i > 0 {
      SqueezeDropFront(s[1..], i - 1);
      assert s[1..][i - 1..] == s[i..];
    }
  }

  lemma SqueezeDropBack(s: string, j: nat)
    requires j <= |s| && forall k :: j <= k < |s| ==> IsSpace(s[k])
    ensures Squeeze(s[..j]) == Squeeze(s)
  {
    SqueezeSpaces(s[j..]);
    assert s == s[..j] + s[j..];
    SqueezeAppend(s[..j], s[j..]);
    assert Squeeze(s[..j]) + [] == Squeeze(s[..j]);
  }

  /** Cutting whitespace off both ends removes whitespace only. */
  lemma SqueezePadded(s: string, i: nat, j: nat)
    requires i <= j <= |s|
    requires forall k :: 0 <= k < i ==> IsSpace(s[k])
    requires forall k :: j <= k < |s| ==> IsSpace(s[k])
    ensures Squeeze(s[i..j]) == Squeeze(s)
  {
    SqueezeDropBack(s, j);
    SqueezeDropFront(s[..j], i);
    assert s[..j][i..] == s[i..j];
  }

  /** Stripping removes whitespace only. */
  lemma StripSqueeze(s: string)
    ensures Squeeze(Strip(s)) == Squeeze(s)
  {
    var i, j :| PaddedAt(s, Strip(s), i, j);
    SqueezePadded(s, i, j);
  }

  /** Stripping keeps the count of every character that is not whitespace. */
  lemma StripCount(ch: char, s: string)
    requires !IsSpace(ch)
    ensures Count(ch, Strip(s)) == Count(ch, s)
  {
    StripSqueeze(s);
    SqueezeCount(ch, s);
    SqueezeCount(ch, Strip(s));
  }

  /** A slice of a collapsed text is collapsed. */
  lemma CollapsedSlice(r: string, i: nat, j: nat)
    requires SpacesCollapsed(r) && i <= j <= |r|
    ensures SpacesCollapsed(r[i..j])
  {
    var t := r[i..j];
    forall k | 0 <= k < |t| - 1 ensures !(IsSpace(t[k]) && IsSpace(t[k + 1])) {
      assert t[k] == r[i + k] && t[k + 1] == r[i + k + 1];
    }
  }

  /** The whitespace run that starts at `i` ends at the first character after it that is not whitespace. */
  lemma {:induction false} StripStartAt(s: string, i: nat, k: nat)
    requires i <= k <= |s| && (forall m :: i <= m < k ==> IsSpace(s[m]))
    requires k == |s| || !IsSpace(s[k])
    ensures StripStart(s, i) == k
    decreases k - i
  {
    if i < k {
      StripStartAt(s, i + 1, k);
    }
  }

  /** A whitespace run that ends inside `a` ends at the same place in `a + b`. */
  lemma StripStartPrefix(a: string, b: string)
    requires StripStart(a, 0) < |a|
    ensures StripStart(a + b, 0) == StripStart(a, 0)
  {
    var k := StripStart(a, 0);
    assert forall m :: 0 <= m <= k ==> (a + b)[m] == a[m];
    StripStartAt(a + b, 0, k);
  }

  /** A non-empty whitespace run before a character that is not whitespace becomes one space. */
  lemma CollapseRun(w: string, t: string)
    requires w != [] && forall m :: 0 <= m < |w| ==> IsSpace(w[m])
    requires t == [] || !IsSpace(t[0])
    ensures CollapseSpaces(w + t) == " " + CollapseSpaces(t)
  {
    var s := w + t;
    assert forall m :: 0 <= m < |w| ==> s[m] == w[m];
    StripStartAt(s, 0, |w|);
    assert s[|w|..] == t;
  }

  /** A character that is not whitespace is copied. */
  lemma CollapseKeep(c: char, t: string)
    requires !IsSpace(c)
    ensures CollapseSpaces([c] + t) == [c] + CollapseSpaces(t)
  {
    assert ([c] + t)[1..] == t;
  }

  /**
   * Collapsing works piece by piece when the cut does not fall inside a
   * whitespace run: `a` ends, or `b` starts, with a character that is not
   * whitespace.
   */
  lemma {:induction false} CollapseAppend(a: string, b: string)
    requires a == [] || b == [] || !IsSpace(a[|a| - 1]) || !IsSpace(b[0])
    ensures CollapseSpaces(a + b) == CollapseSpaces(a) + CollapseSpaces(b)
    decreases |a|
  {
    var s := a + b;
    if a == [] {
      assert s == b;
    } else if b == [] {
      assert s == a;
    } else if !IsSpace(a[0]) {
      assert s[0] == a[0] && s[1..] == a[1..] + b;
      CollapseAppend(a[1..], b);
    } else {
      var k := StripStart(a, 0);
      if k < |a| {
        StripStartPrefix(a, b);
        assert s[k..] == a[k..] + b;
        CollapseAppend(a[k..], b);
      } else {
        CollapseRun(a, b);
        assert a[k..] == [];
      }
    }
  }

  /** Collapsing keeps a last character that is not whitespace. */
  lemma CollapseLast(b: string)
    requires b != [] && !IsSpace(b[|b| - 1])
    ensures CollapseSpaces(b) != [] && CollapseSpaces(b)[|CollapseSpaces(b)| - 1] == b[|b| - 1]
  {
    var x := b[|b| - 1];
    assert b == b[..|b| - 1] + [x];
    CollapseAppend(b[..|b| - 1], [x]);
    CollapseKeep(x, []);
    assert [x] + [] == [x];
  }

  /** Lines 107-108: quotes off, whitespace runs collapsed, ends trimmed. */
  function Normalize(eq: string): string
  {
    Strip(CollapseSpaces(StripOuterQuotes(eq)))
  }

  /**
   * The normalised text holds whitespace only as single inner spaces, and
   * apart from whitespace it is the quote-stripped input, character for
   * character.
   */
  lemma NormalizeShape(eq: string)
    ensures SpacesCollapsed(Normalize(eq))
    ensures Normalize(eq) != [] ==> Normalize(eq)[0] != ' ' && Normalize(eq)[|Normalize(eq)| - 1] != ' '
    ensures Squeeze(Normalize(eq)) == Squeeze(StripOuterQuotes(eq))
  {
    var c := CollapseSpaces(StripOuterQuotes(eq));
    CollapseShape(StripOuterQuotes(eq));
    var i, j :| PaddedAt(c, Strip(c), i, j);
    CollapsedSlice(c, i, j);
    StripSqueeze(c);
  }

  /**
   * A whitespace run between two pieces of text survives as exactly one
   * space: it is neither deleted nor kept as it was.
   */
  lemma NormalizeSeparates(a: string, w: string, b: string)
    requires a != [] && !IsSpace(a[0]) && !IsSpace(a[|a| - 1]) && a[0] != '"' && a[0] != '\''
    requires b != [] && !IsSpace(b[0]) && !IsSpace(b[|b| - 1])
    requires w != [] && forall m :: 0 <= m < |w| ==> IsSpace(w[m])
    ensures Normalize(a + w + b) == CollapseSpaces(a) + " " + CollapseSpaces(b)
  {
    var s := a + w + b;
    assert s[0] == a[0] && s[|s| - 1] == b[|b| - 1];
    UnquotedUnchanged(s);
    CollapseBetween(a, w, b);
    CollapseShape(a);
    CollapseLast(b);
    SpacedStripped(CollapseSpaces(a), CollapseSpaces(b));
  }

  /** The whitespace run between `a` and `b` becomes one space and the pieces collapse on their own. */
  lemma CollapseBetween(a: string, w: string, b: string)
    requires a != [] && !IsSpace(a[|a| - 1]) && b != [] && !IsSpace(b[0])
    requires w != [] && forall m :: 0 <= m < |w| ==> IsSpace(w[m])
    ensures CollapseSpaces(a + w + b) == CollapseSpaces(a) + " " + CollapseSpaces(b)
  {
    assert a + w + b == a + (w + b);
    CollapseAppend(a, w + b);
    CollapseRun(w, b);
  }

  /** A text with no whitespace at its ends and no quote in front comes through quote removal unchanged. */
  lemma UnquotedUnchanged(s: string)
    requires s != [] && !IsSpace(s[0]) && !IsSpace(s[|s| - 1]) && s[0] != '"' && s[0] != '\''
    ensures StripOuterQuotes(s) == s
  {
    StripStripped(s);
  }

  /** Two pieces joined by a space are left alone by `strip` when the outer ends are not whitespace. */
  lemma SpacedStripped(x: string, y: string)
    requires x != [] && y != [] && !IsSpace(x[0]) && !IsSpace(y[|y| - 1])
    ensures Strip(x + " " + y) == x + " " + y
  {
    var r := x + " " + y;
    assert r[0] == x[0] && r[|r| - 1] == y[|y| - 1];
    StripStripped(r);
  }

  /** Quote removal keeps the count of any character that is neither whitespace nor a quote. */
  lemma StripOuterQuotesCount(ch: char, s: string)
    requires !IsSpace(ch) && ch != '"' && ch != '\''
    ensures Count(ch, StripOuterQuotes(s)) == Count(ch, s)
  {
    var t := Strip(s);
    StripCount(ch, s);
    if Quoted(t) {
      if |t| >= 2 {
        CountSplit3(ch, t, 1, |t| - 1);
        assert t[..1] == [t[0]] && t[|t| - 1..] == [t[|t| - 1]];
      } else {
        assert t == [t[0]];
      }
    }
  }

  /** Normalisation keeps the count of any character that is neither whitespace nor a quote. */
  lemma NormalizeCount(ch: char, eq: string)
    requires !IsSpace(ch) && ch != '"' && ch != '\''
    ensures Count(ch, Normalize(eq)) == Count(ch, eq)
  {
    var u := StripOuterQuotes(eq);
    var c := CollapseSpaces(u);
    StripOuterQuotesCount(ch, eq);
    CollapseShape(u);
    SqueezeCount(ch, c);
    SqueezeCount(ch, u);
    StripCount(ch, c);
  }

  // ---------------------------------------------------------------------------
  // The rewrite patterns

  /** The prime class `['’′]`: the ASCII apostrophe, U+2019 and U+2032. */
  predicate IsPrime(c: char)
  {
    c == '\'' || c == '’' || c == '′'
  }

  /**
   * What the lookbehind refuses before the name: `(?<!\w)` refuses any word
   * character; `NotLetter` is the corrected boundary that lets a digit
   * coefficient through.
   */
  datatype Lookbehind = NotWord | NotLetter

  /**
   * `(?<!\w)WORD(?!\w)` when `primes` is 0, and
   * `(?<!\w)WORD\s*P...P(?!\w)` with `primes` copies of the prime class otherwise.
   */
  datatype Pattern = Pattern(word: string, primes: nat, look: Lookbehind)

  predicate Blocks(look: Lookbehind, c: char)
  {
    match look
    case NotWord => IsWordChar(c)
    case NotLetter => IsWordChar(c) && !IsDigit(c)
  }

  /** The lookbehind holds at `i`. */
  predicate LeftOk(s: string, i: nat, look: Lookbehind)
    requires i <= |s|
  {
    i == 0 || !Blocks(look, s[i - 1])
  }

  /** `(?!\w)` holds at `j`. */
  predicate RightOk(s: string, j: nat)
    requires j <= |s|
  {
    j == |s| || !IsWordChar(s[j])
  }

  /** `w[k..]` occurs in `s` at `i + k`. */
  predicate WordAt(s: string, i: nat, w: string, k: nat)
    requires i <= |s| && k <= |w|
    ensures WordAt(s, i, w, k) ==> i + |w| <= |s|
    decreases |w| - k
  {
    if k == |w| then i + k <= |s|
    else i + k < |s| && s[i + k] == w[k] && WordAt(s, i, w, k + 1)
  }

  lemma {:induction false} WordAtChars(s: string, i: nat, w: string, k: nat)
    requires i <= |s| && k <= |w| && WordAt(s, i, w, k)
    ensures forall m :: k <= m < |w| ==> s[i + m] == w[m]
    decreases |w| - k
  {
    if k < |w| {
      WordAtChars(s, i, w, k + 1);
    }
  }

  /** `n` prime characters follow one another from `k`. */
  predicate PrimesAt(s: string, k: nat, n: nat)
    requires k <= |s|
    decreases n
  {
    n == 0 || (k < |s| && IsPrime(s[k]) && PrimesAt(s, k + 1, n - 1))
  }

  lemma {:induction false} PrimesAtChars(s: string, k: nat, n: nat)
    requires k <= |s| && PrimesAt(s, k, n)
    ensures k + n <= |s| && forall m :: k <= m < k + n ==> IsPrime(s[m])
    decreases n
  {
    if n > 0 {
      PrimesAtChars(s, k + 1, n - 1);
    }
  }

  /** Where a match of `p` tried at `i` ends, if it matches there. */
  function MatchEnd(s: string, i: nat, p: Pattern): (m: Option<nat>)
    requires i <= |s|
    ensures m.Some? ==> i + |p.word| <= m.value <= |s|
    ensures m.Some? ==> LeftOk(s, i, p.look) && WordAt(s, i, p.word, 0) && RightOk(s, m.value)
  {
    if LeftOk(s, i, p.look) && WordAt(s, i, p.word, 0) then
      var k := if p.primes == 0 then i + |p.word| else StripStart(s, i + |p.word|);
      if k + p.primes <= |s| && PrimesAt(s, k, p.primes) && RightOk(s, k + p.primes) then
        Some(k + p.primes)
      else None
    else None
  }

  /** A match covers the name, then whitespace and primes, nothing else. */
  lemma MatchedChars(s: string, i: nat, p: Pattern)
    requires i <= |s| && MatchEnd(s, i, p).Some?
    ensures forall k :: i <= k < MatchEnd(s, i, p).value ==>
      s[k] in p.word || IsSpace(s[k]) || IsPrime(s[k])
  {
    WordAtChars(s, i, p.word, 0);
    var k := if p.primes == 0 then i + |p.word| else StripStart(s, i + |p.word|);
    PrimesAtChars(s, k, p.primes);
    forall m | i <= m < MatchEnd(s, i, p).value
      ensures s[m] in p.word || IsSpace(s[m]) || IsPrime(s[m])
    {
      if m < i + |p.word| {
        assert s[i + (m - i)] == p.word[m - i];
      }
    }
  }

  /**
   * The reason `y''` is rewritten first: wherever the two-prime pattern
   * matches, the one-prime pattern matches too and stops one character
   * short, so running it first would leave the second prime behind.
   */
  lemma DoublePrimeAlsoSinglePrime(s: string, i: nat, w: string, look: Lookbehind)
    requires i <= |s| && MatchEnd(s, i, Pattern(w, 2, look)).Some?
    ensures MatchEnd(s, i, Pattern(w, 1, look)) == Some(MatchEnd(s, i, Pattern(w, 2, look)).value - 1)
    ensures IsPrime(s[MatchEnd(s, i, Pattern(w, 2, look)).value - 1])
  {
    var k := StripStart(s, i + |w|);
    PrimesAtChars(s, k, 2);
  }

  // ---------------------------------------------------------------------------
  // re.sub

  /**
   * What `re.sub(p, repl, s)` emits from position `i` on. An empty match
   * (possible only with an empty name and no primes) is replaced and then
   * one character is copied, as Python 3.7 and later do.
   */
  function SubFrom(s: string, p: Pattern, repl: string, i: nat): string
    requires i <= |s|
    decreases |s| - i
  {
    match MatchEnd(s, i, p)
    case Some(j) =>
      if j > i then repl + SubFrom(s, p, repl, j)
      else if i < |s| then repl + [s[i]] + SubFrom(s, p, repl, i + 1)
      else repl
    case None =>
      if i < |s| then [s[i]] + SubFrom(s, p, repl, i + 1) else []
  }

  /** `re.sub(p, repl, s)`. */
  function Sub(p: Pattern, repl: string, s: string): string
  {
    SubFrom(s, p, repl, 0)
  }

  lemma CountSkip(ch: char, s: string, i: nat, j: nat)
    requires i <= j <= |s| && forall k :: i <= k < j ==> s[k] != ch
    ensures Count(ch, s[i..]) == Count(ch, s[j..])
  {
    assert ch !in s[i..j];
    CountZero(ch, s[i..j]);
    assert s[i..] == s[i..j] + s[j..];
    CountAppend(ch, s[i..j], s[j..]);
  }

  lemma CountFrom(ch: char, s: string, i: nat)
    requires i < |s|
    ensures Count(ch, s[i..]) == Count(ch, [s[i]]) + Count(ch, s[i + 1..])
  {
    assert s[i..] == [s[i]] + s[i + 1..];
    CountAppend(ch, [s[i]], s[i + 1..]);
  }

  /**
   * A character that is neither in the name nor in the replacement, nor
   * whitespace, nor a prime, occurs as often after the substitution as before.
   */
  lemma {:induction false} SubFromCount(s: string, p: Pattern, repl: string, i: nat, ch: char)
    requires i <= |s|
    requires ch !in p.word && ch !in repl && !IsSpace(ch) && !IsPrime(ch)
    ensures Count(ch, SubFrom(s, p, repl, i)) == Count(ch, s[i..])
    decreases |s| - i
  {
    CountZero(ch, repl);
    var m := MatchEnd(s, i, p);
    if m.Some? {
      var j := m.value;
      MatchedChars(s, i, p);
      CountSkip(ch, s, i, j);
      if j > i {
        SubFromCount(s, p, repl, j, ch);
        CountAppend(ch, repl, SubFrom(s, p, repl, j));
      } else if i < |s| {
        SubFromCount(s, p, repl, i + 1, ch);
        CountAppend(ch, repl + [s[i]], SubFrom(s, p, repl, i + 1));
        CountAppend(ch, repl, [s[i]]);
        CountFrom(ch, s, i);
      }
    } else if i < |s| {
      SubFromCount(s, p, repl, i + 1, ch);
      CountAppend(ch, [s[i]], SubFrom(s, p, repl, i + 1));
      CountFrom(ch, s, i);
    }
  }

  lemma SubCount(p: Pattern, repl: string, s: string, ch: char)
    requires ch !in p.word && ch !in repl && !IsSpace(ch) && !IsPrime(ch)
    ensures Count(ch, Sub(p, repl, s)) == Count(ch, s)
  {
    SubFromCount(s, p, repl, 0, ch);
    assert s[0..] == s;
  }

  /** Where nothing matches, the text comes back unchanged. */
  lemma {:induction false} SubFromNoMatch(s: string, p: Pattern, repl: string, i: nat)
    requires i <= |s|
    requires forall k :: i <= k <= |s| ==> MatchEnd(s, k, p).None?
    ensures SubFrom(s, p, repl, i) == s[i..]
    decreases |s| - i
  {
    if i < |s| {
      SubFromNoMatch(s, p, repl, i + 1);
      assert s[i..] == [s[i]] + s[i + 1..];
    }
  }

  /** A text in which the name's first character never occurs comes back unchanged. */
  lemma SubAbsent(p: Pattern, repl: string, s: string)
    requires p.word != [] && p.word[0] !in s
    ensures Sub(p, repl, s) == s
  {
    forall k | 0 <= k <= |s| ensures MatchEnd(s, k, p).None? {
      assert !WordAt(s, k, p.word, 0);
    }
    SubFromNoMatch(s, p, repl, 0);
    assert s[0..] == s;
  }

  /**
   * Replacing a bare name by itself changes nothing, so skipping the
   * rename when the independent variable is already `x` gives what running
   * it would.
   */
  lemma {:induction false} SubFromSelf(s: string, w: string, look: Lookbehind, i: nat)
    requires i <= |s|
    ensures SubFrom(s, Pattern(w, 0, look), w, i) == s[i..]
    decreases |s| - i
  {
    var m := MatchEnd(s, i, Pattern(w, 0, look));
    if m.Some? && m.value > i {
      var j := m.value;
      WordAtChars(s, i, w, 0);
      assert s[i..j] == w;
      SubFromSelf(s, w, look, j);
      assert s[i..] == s[i..j] + s[j..];
    } else if i < |s| {
      SubFromSelf(s, w, look, i + 1);
      assert s[i..] == [s[i]] + s[i + 1..];
    }
  }

  // ---------------------------------------------------------------------------
  // _prepare_ode_equation_text

  const SecondDerivative: string := "Derivative(F(x), x, x)"
  const FirstDerivative: string := "Derivative(F(x), x)"
  const Unknown: string := "F(x)"

  /** Lines 114-122: the three rewrites of `dep`, then the rename of `indep` to `x`. */
  function Rewrite(t: string, dep: string, indep: string, look: Lookbehind): string
  {
    var t2 := Sub(Pattern(dep, 2, look), SecondDerivative, t);
    var t1 := Sub(Pattern(dep, 1, look), FirstDerivative, t2);
    var t0 := Sub(Pattern(dep, 0, look), Unknown, t1);
    if indep != "x" then Sub(Pattern(indep, 0, look), "x", t0) else t0
  }

  /** The whole preparation, with the given lookbehind. */
  function PrepareWith(eq: string, dep: string, indep: string, look: Lookbehind): (r: string)
    ensures '=' in r
  {
    var t := Rewrite(Normalize(eq), dep, indep, look);
    if '=' !in t then t + " = 0" else t
  }

  /** `_prepare_ode_equation_text(eq, dep, indep)` as written. */
  function PrepareOdeEquationText(eq: string, dep: string, indep: string): (r: string)
    ensures '=' in r
  {
    PrepareWith(eq, dep, indep, NotWord)
  }

  /** The same preparation with a lookbehind that lets a digit coefficient through. */
  function PrepareOdeEquationTextCorrected(eq: string, dep: string, indep: string): (r: string)
    ensures '=' in r
  {
    PrepareWith(eq, dep, indep, NotLetter)
  }

  /** The rewrites neither add nor remove an `=` unless the names hold one. */
  lemma RewriteCount(t: string, dep: string, indep: string, look: Lookbehind)
    requires '=' !in dep && '=' !in indep
    ensures Count('=', Rewrite(t, dep, indep, look)) == Count('=', t)
  {
    var t2 := Sub(Pattern(dep, 2, look), SecondDerivative, t);
    var t1 := Sub(Pattern(dep, 1, look), FirstDerivative, t2);
    var t0 := Sub(Pattern(dep, 0, look), Unknown, t1);
    SubCount(Pattern(dep, 2, look), SecondDerivative, t, '=');
    SubCount(Pattern(dep, 1, look), FirstDerivative, t2, '=');
    SubCount(Pattern(dep, 0, look), Unknown, t1, '=');
    if indep != "x" {
      SubCount(Pattern(indep, 0, look), "x", t0, '=');
    }
  }

  /**
   * The prepared text holds as many `=` as the input, and one when the
   * input held none; in that case it is the rewritten text followed by
   * ` = 0`, and otherwise the rewritten text alone.
   */
  lemma PrepareEquals(eq: string, dep: string, indep: string, look: Lookbehind)
    requires '=' !in dep && '=' !in indep
    ensures Count('=', PrepareWith(eq, dep, indep, look)) == if Count('=', eq) == 0 then 1 else Count('=', eq)
    ensures Count('=', eq) == 0 ==>
      PrepareWith(eq, dep, indep, look) == Rewrite(Normalize(eq), dep, indep, look) + " = 0"
    ensures Count('=', eq) > 0 ==>
      PrepareWith(eq, dep, indep, look) == Rewrite(Normalize(eq), dep, indep, look)
  {
    var t := Rewrite(Normalize(eq), dep, indep, look);
    NormalizeCount('=', eq);
    RewriteCount(Normalize(eq), dep, indep, look);
    CountZero('=', t);
    if '=' !in t {
      CountAppend('=', t, " = 0");
    }
  }

  /** With `indep == "x"` the rename would change nothing. */
  lemma RenameToXUnneeded(t: string, dep: string, look: Lookbehind)
    ensures Rewrite(t, dep, "x", look)
         == Sub(Pattern("x", 0, look), "x",
              Sub(Pattern(dep, 0, look), Unknown,
                Sub(Pattern(dep, 1, look), FirstDerivative,
                  Sub(Pattern(dep, 2, look), SecondDerivative, t))))
  {
    var t0 := Sub(Pattern(dep, 0, look), Unknown,
                Sub(Pattern(dep, 1, look), FirstDerivative,
                  Sub(Pattern(dep, 2, look), SecondDerivative, t)));
    SubFromSelf(t0, "x", look, 0);
    assert t0[0..] == t0;
  }

  // ---------------------------------------------------------------------------
  // Initial conditions

  /** The initial-condition text without its quotes, cut at every comma, each part stripped. */
  function IcParts(ics: string): (parts: seq<string>)
    ensures |parts| == Count(',', StripOuterQuotes(ics)) + 1
    ensures forall k :: 0 <= k < |parts| ==> ',' !in parts[k]
  {
    var ps := Split(StripOuterQuotes(ics), ',');
    SplitShape(StripOuterQuotes(ics), ',');
    assert forall k :: 0 <= k < |ps| ==> ',' !in Strip(ps[k]) by {
      forall k | 0 <= k < |ps| ensures ',' !in Strip(ps[k]) {
        StripIn(ps[k], ',');
      }
    }
    seq(|ps|, k requires 0 <= k < |ps| => Strip(ps[k]))
  }

  /**
   * Lines 149-154 of `dsolve_first_order`: `(x0, y0)` as text, used only
   * when `ics` is a non-empty string of exactly two comma-separated parts.
   */
  function FirstOrderIcs(ics: Option<string>): (ic: Option<(string, string)>)
    ensures ic.Some? <==> ics.Some? && ics.value != [] && Count(',', StripOuterQuotes(ics.value)) == 1
    ensures ic.Some? ==> [ic.value.0, ic.value.1] == IcParts(ics.value)
  {
    if ics.Some? && ics.value != [] then
      var parts := IcParts(ics.value);
      if |parts| == 2 then Some((parts[0], parts[1])) else None
    else None
  }

  /**
   * Lines 163-168 of `dsolve_second_order`: `(x0, y0, y'0)` as text, used
   * only when `ics` is a non-empty string of exactly three parts.
   */
  function SecondOrderIcs(ics: Option<string>): (ic: Option<(string, string, string)>)
    ensures ic.Some? <==> ics.Some? && ics.value != [] && Count(',', StripOuterQuotes(ics.value)) == 2
    ensures ic.Some? ==> [ic.value.0, ic.value.1, ic.value.2] == IcParts(ics.value)
  {
    if ics.Some? && ics.value != [] then
      var parts := IcParts(ics.value);
      if |parts| == 3 then Some((parts[0], parts[1], parts[2])) else None
    else None
  }

  // ---------------------------------------------------------------------------
  // Examples and the digit-coefficient finding

  /** A text already in collapsed form is left as it is. */
  lemma {:induction false} CollapseCollapsed(t: string)
    requires SpacesCollapsed(t)
    ensures CollapseSpaces(t) == t
    decreases |t|
  {
    if t != [] {
      CollapsedSlice(t, 1, |t|);
      CollapseCollapsed(t[1..]);
      if IsSpace(t[0]) {
        assert StripStart(t, 0) == 1 by {
          assert |t| > 1 ==> !IsSpace(t[1]);
          assert StripStart(t, 1) == 1;
        }
      }
      assert t == [t[0]] + t[1..];
    }
  }

  /** A trimmed, collapsed, unquoted text is its own normal form. */
  lemma NormalizeNormal(t: string)
    requires SpacesCollapsed(t) && !Quoted(t)
    requires t == [] || (!IsSpace(t[0]) && !IsSpace(t[|t| - 1]))
    ensures Normalize(t) == t
  {
    StripStripped(t);
    CollapseCollapsed(t);
  }

  /** The preparation, pass by pass, for a given input. */
  lemma PrepareByPasses(eq: string, dep: string, look: Lookbehind, t: string, t2: string, t1: string, t0: string)
    requires Normalize(eq) == t
    requires Sub(Pattern(dep, 2, look), SecondDerivative, t) == t2
    requires Sub(Pattern(dep, 1, look), FirstDerivative, t2) == t1
    requires Sub(Pattern(dep, 0, look), Unknown, t1) == t0
    ensures PrepareWith(eq, dep, "x", look) == if '=' in t0 then t0 else t0 + " = 0"
  {
  }

  lemma NoYInReplacements()
    ensures 'y' !in SecondDerivative && 'y' !in FirstDerivative && 'y' !in Unknown
    ensures '=' !in SecondDerivative && '=' !in FirstDerivative
  {
  }

  lemma DoublePrimeNormal()
    ensures Normalize("y''") == "y''"
  {
    NormalizeNormal("y''");
  }

  lemma DoublePrimePass()
    ensures Sub(Pattern("y", 2, NotWord), SecondDerivative, "y''") == SecondDerivative
  {
  }

  /** `y''` becomes the second derivative, and the later passes leave it alone. */
  lemma DoublePrimeExample()
    ensures PrepareOdeEquationText("y''", "y", "x") == SecondDerivative + " = 0"
  {
    DoublePrimeNormal();
    DoublePrimePass();
    NoYInReplacements();
    SubAbsent(Pattern("y", 1, NotWord), FirstDerivative, SecondDerivative);
    SubAbsent(Pattern("y", 0, NotWord), Unknown, SecondDerivative);
    PrepareByPasses("y''", "y", NotWord, "y''", SecondDerivative, SecondDerivative, SecondDerivative);
  }

  /** Rewriting `y'` first would read `y''` as `y'` and a stray prime. */
  lemma SinglePrimeFirstExample()
    ensures Sub(Pattern("y", 1, NotWord), FirstDerivative, "y''") == FirstDerivative + "'"
  {
  }

  /**
   * As written, a name only counts on its own: a word character right before
   * it, a digit included, refuses the match, and so does one right after a
   * name without primes.
   */
  lemma WordBlocksName(s: string, i: nat, p: Pattern)
    requires i <= |s| && p.look == NotWord
    requires (0 < i && IsWordChar(s[i - 1]))
      || (p.primes == 0 && i + |p.word| < |s| && IsWordChar(s[i + |p.word|]))
    ensures MatchEnd(s, i, p) == None
  {
  }

  lemma CoefficientNormal()
    ensures Normalize("3y'") == "3y'"
  {
    NormalizeNormal("3y'");
  }

  lemma CoefficientPassesAsWritten()
    ensures Sub(Pattern("y", 2, NotWord), SecondDerivative, "3y'") == "3y'"
    ensures Sub(Pattern("y", 1, NotWord), FirstDerivative, "3y'") == "3y'"
    ensures Sub(Pattern("y", 0, NotWord), Unknown, "3y'") == "3y'"
  {
  }

  /**
   * As written, `3y'` (the `3y'` of the docstring's `y'' - 3y' + 2y = 0`)
   * is not rewritten at all: the `3` is a word character.
   */
  lemma CoefficientNotRewritten()
    ensures PrepareOdeEquationText("3y'", "y", "x") == "3y'" + " = 0"
  {
    CoefficientNormal();
    CoefficientPassesAsWritten();
    PrepareByPasses("3y'", "y", NotWord, "3y'", "3y'", "3y'", "3y'");
  }

  lemma CoefficientPassesCorrected()
    ensures Sub(Pattern("y", 2, NotLetter), SecondDerivative, "3y'") == "3y'"
    ensures Sub(Pattern("y", 1, NotLetter), FirstDerivative, "3y'") == "3" + FirstDerivative
  {
  }

  lemma CoefficientRest()
    ensures 'y' !in "3" + FirstDerivative && '=' !in "3" + FirstDerivative
  {
  }

  /** With the corrected lookbehind `3y'` becomes `3Derivative(F(x), x)`. */
  lemma CoefficientRewritten()
    ensures PrepareOdeEquationTextCorrected("3y'", "y", "x") == "3" + FirstDerivative + " = 0"
  {
    CoefficientNormal();
    CoefficientPassesCorrected();
    CoefficientRest();
    SubAbsent(Pattern("y", 0, NotLetter), Unknown, "3" + FirstDerivative);
    PrepareByPasses("3y'", "y", NotLetter, "3y'", "3y'", "3" + FirstDerivative, "3" + FirstDerivative);
  }

  // A match is decided by the text from its start on, and by the one
  // character before it.

  /** `s` and `t` have the same length and agree from `i` on. */
  ghost predicate SameFrom(s: string, t: string, i: nat)
  {
    |s| == |t| && forall k :: i <= k < |s| ==> s[k] == t[k]
  }

  lemma {:induction false} StripStartFrom(s: string, t: string, i: nat, k: nat)
    requires SameFrom(s, t, i) && i <= k <= |s|
    ensures StripStart(s, k) == StripStart(t, k)
    decreases |s| - k
  {
    if k < |s| {
      StripStartFrom(s, t, i, k + 1);
    }
  }

  lemma {:induction false} WordAtFrom(s: string, t: string, i: nat, w: string, k: nat)
    requires SameFrom(s, t, i) && i <= |s| && k <= |w|
    ensures WordAt(s, i, w, k) == WordAt(t, i, w, k)
    decreases |w| - k
  {
    if k < |w| {
      WordAtFrom(s, t, i, w, k + 1);
    }
  }

  lemma {:induction false} PrimesAtFrom(s: string, t: string, i: nat, k: nat, n: nat)
    requires SameFrom(s, t, i) && i <= k <= |s|
    ensures PrimesAt(s, k, n) == PrimesAt(t, k, n)
    decreases n
  {
    if n > 0 && k < |s| {
      PrimesAtFrom(s, t, i, k + 1, n - 1);
    }
  }

  /** What follows the name is decided by the text from `i` on. */
  lemma AfterWordFrom(s: string, t: string, i: nat, w: string, n: nat)
    requires SameFrom(s, t, i) && i + |w| <= |s|
    ensures var k := if n == 0 then i + |w| else StripStart(s, i + |w|);
      k == (if n == 0 then i + |w| else StripStart(t, i + |w|)) &&
      (k + n <= |s| && PrimesAt(s, k, n) && RightOk(s, k + n)
       <==> k + n <= |t| && PrimesAt(t, k, n) && RightOk(t, k + n))
  {
    StripStartFrom(s, t, i, i + |w|);
    var k := if n == 0 then i + |w| else StripStart(s, i + |w|);
    PrimesAtFrom(s, t, i, k, n);
  }

  lemma MatchEndFrom(s: string, t: string, i: nat, p: Pattern, q: Pattern)
    requires SameFrom(s, t, i) && i <= |s|
    requires p.word == q.word && p.primes == q.primes && LeftOk(s, i, p.look) == LeftOk(t, i, q.look)
    ensures MatchEnd(s, i, p) == MatchEnd(t, i, q)
  {
    WordAtFrom(s, t, i, p.word, 0);
    if WordAt(s, i, p.word, 0) {
      AfterWordFrom(s, t, i, p.word, p.primes);
    }
  }

  /**
   * With the corrected lookbehind a digit coefficient in front of the name
   * counts as a separator: the match is the one the written pattern finds
   * when a space stands in its place.
   */
  lemma CoefficientLikeSpace(s: string, i: nat, w: string, n: nat)
    requires 0 < i <= |s| && IsDigit(s[i - 1])
    ensures MatchEnd(s, i, Pattern(w, n, NotLetter)) == MatchEnd(s[i - 1 := ' '], i, Pattern(w, n, NotWord))
  {
    MatchEndFrom(s, s[i - 1 := ' '], i, Pattern(w, n, NotLetter), Pattern(w, n, NotWord));
  }
}
