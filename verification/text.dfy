/**
 * Character classes and the few Python `str` operations the bot relies on:
 * `str.isspace`, `str.strip`, `str.split(sep)`, `int(digits)` and `str(n)`.
 */
module Text {

  /** Python's `str.isspace()`, which is also what `\s` matches in a `str` regex. */
  predicate IsSpace(c: char)
  {
    ('\t' <= c <= '\r') || ('\U{1C}' <= c <= '\U{1F}') || c == ' '
    || c == '\U{85}' || c == '\U{A0}' || c == '\U{1680}'
    || ('\U{2000}' <= c <= '\U{200A}') || c == '\U{2028}' || c == '\U{2029}'
    || c == '\U{202F}' || c == '\U{205F}' || c == '\U{3000}'
  }

  predicate IsUpper(c: char) { 'A' <= c <= 'Z' }
  predicate IsLower(c: char) { 'a' <= c <= 'z' }
  predicate IsDigit(c: char) { '0' <= c <= '9' }

  /** `\w` restricted to ASCII: letters, digits and the underscore. */
  predicate IsWordChar(c: char) { IsUpper(c) || IsLower(c) || IsDigit(c) || c == '_' }

  predicate AllDigits(s: string) { forall i :: 0 <= i < |s| ==> IsDigit(s[i]) }

  /** Number of occurrences of `c` in `s`. */
  function Count(c: char, s: string): nat
  {
    if s == [] then 0 else (if s[0] == c then 1 else 0) + Count(c, s[1..])
  }

  lemma {:induction false} CountAppend(c: char, a: string, b: string)
    ensures Count(c, a + b) == Count(c, a) + Count(c, b)
  {
    if a == [] {
      assert a + b == b;
    } else {
      assert (a + b)[1..] == a[1..] + b;
      CountAppend(c, a[1..], b);
    }
  }

  lemma {:induction false} CountZero(c: char, s: string)
    ensures Count(c, s) == 0 <==> c !in s
  {
    if s != [] {
      CountZero(c, s[1..]);
      assert s == [s[0]] + s[1..];
    }
  }

  /** Counting over a string cut in three. */
  lemma CountSplit3(c: char, s: string, i: nat, j: nat)
    requires i <= j <= |s|
    ensures Count(c, s) == Count(c, s[..i]) + Count(c, s[i..j]) + Count(c, s[j..])
  {
    assert s == s[..i] + s[i..j] + s[j..];
    CountAppend(c, s[..i] + s[i..j], s[j..]);
    CountAppend(c, s[..i], s[i..j]);
  }

  // ---------------------------------------------------------------------------
  // str.strip()

  /** Index of the first character at or after `i` that is not whitespace, or `|s|`. */
  function StripStart(s: string, i: nat): (a: nat)
    requires i <= |s|
    ensures i <= a <= |s| && (a < |s| ==> !IsSpace(s[a]))
    ensures forall k :: i <= k < a ==> IsSpace(s[k])
    decreases |s| - i
  {
    if i < |s| && IsSpace(s[i]) then StripStart(s, i + 1) else i
  }

  /** One past the last character before `j` that is not whitespace, but at least `a`. */
  function StripEnd(s: string, a: nat, j: nat): (b: nat)
    requires a <= j <= |s|
    ensures a <= b <= j && (b > a ==> !IsSpace(s[b - 1]))
    ensures forall k :: b <= k < j ==> IsSpace(s[k])
    decreases j
  {
    if j > a && IsSpace(s[j - 1]) then StripEnd(s, a, j - 1) else j
  }

  /** `r` is `s[i..j]`, and everything outside that slice is whitespace. */
  ghost predicate PaddedAt(s: string, r: string, i: int, j: int)
  {
    && 0 <= i <= j <= |s| && r == s[i..j]
    && (forall k :: 0 <= k < i ==> IsSpace(s[k]))
    && (forall k :: j <= k < |s| ==> IsSpace(s[k]))
  }

  /**
   * `s.strip()`: `s` is the result padded on both sides with whitespace only,
   * and the result neither starts nor ends with whitespace.
   */
  function Strip(s: string): (r: string)
    ensures exists i, j :: PaddedAt(s, r, i, j)
    ensures r != [] ==> !IsSpace(r[0]) && !IsSpace(r[|r| - 1])
  {
    var a := StripStart(s, 0);
    var b := StripEnd(s, a, |s|);
    assert PaddedAt(s, s[a..b], a, b);
    s[a..b]
  }

  /** Stripping only removes characters: whatever the result holds, the input held. */
  lemma StripIn(s: string, c: char)
    requires c !in s
    ensures c !in Strip(s)
  {
    var i, j :| PaddedAt(s, Strip(s), i, j);
    forall k | 0 <= k < |Strip(s)| ensures Strip(s)[k] != c {
      assert Strip(s)[k] == s[i + k];
    }
  }

  /** Stripping is idempotent. */
  lemma StripStripped(s: string)
    requires s == [] || (!IsSpace(s[0]) && !IsSpace(s[|s| - 1]))
    ensures Strip(s) == s
  {
  }

  // ---------------------------------------------------------------------------
  // str.split(sep) and sep.join(parts)

  /** `s.split(sep)` for a one-character separator: never empty. */
  function Split(s: string, sep: char): (parts: seq<string>)
    ensures |parts| >= 1
  {
    if s == [] then [[]]
    else
      var rest := Split(s[1..], sep);
      if s[0] == sep then [[]] + rest else [[s[0]] + rest[0]] + rest[1..]
  }

  /** `sep.join(parts)`. */
  function Join(parts: seq<string>, sep: char): string
  {
    if parts == [] then []
    else if |parts| == 1 then parts[0]
    else parts[0] + [sep] + Join(parts[1..], sep)
  }

  /** Splitting then joining gives back the input. */
  lemma {:induction false} JoinSplit(s: string, sep: char)
    ensures Join(Split(s, sep), sep) == s
  {
    if s != [] {
      var rest := Split(s[1..], sep);
      JoinSplit(s[1..], sep);
      if s[0] == sep {
        assert Split(s, sep) == [[]] + rest;
        assert ([[]] + rest)[1..] == rest;
      } else {
        var parts := [[s[0]] + rest[0]] + rest[1..];
        if |rest| == 1 {
          assert Join(parts, sep) == [s[0]] + rest[0];
        } else {
          assert parts[1..] == rest[1..];
          assert Join(rest, sep) == rest[0] + [sep] + Join(rest[1..], sep);
          assert s == [s[0]] + s[1..];
        }
      }
    }
  }

  /** There is one part more than there are separators, and no part holds one. */
  lemma {:induction false} SplitShape(s: string, sep: char)
    ensures |Split(s, sep)| == Count(sep, s) + 1
    ensures forall k :: 0 <= k < |Split(s, sep)| ==> sep !in Split(s, sep)[k]
  {
    if s != [] {
      SplitShape(s[1..], sep);
      var rest := Split(s[1..], sep);
      if s[0] != sep {
        var parts := [[s[0]] + rest[0]] + rest[1..];
        assert forall k :: 1 <= k < |parts| ==> parts[k] == rest[k];
      }
    }
  }

  /** A part holds no character the whole string does not hold. */
  lemma {:induction false} SplitPartWithout(s: string, sep: char, ch: char, k: nat)
    requires ch !in s && k < |Split(s, sep)|
    ensures ch !in Split(s, sep)[k]
  {
    if s != [] {
      assert ch !in s[1..];
      if s[0] == sep {
        if k > 0 {
          SplitPartWithout(s[1..], sep, ch, k - 1);
        }
      } else {
        SplitPartWithout(s[1..], sep, ch, k);
      }
    }
  }

  /** A string without the separator is split into itself alone. */
  lemma SplitNoSep(s: string, sep: char)
    requires sep !in s
    ensures Split(s, sep) == [s]
  {
    SplitShape(s, sep);
    CountZero(sep, s);
    JoinSplit(s, sep);
  }

  // ---------------------------------------------------------------------------
  // int(digits) and str(n)

  /** Python's `int(d)` for a string of ASCII decimal digits. */
  function DigitsValue(d: string): nat
    requires AllDigits(d)
  {
    if d == [] then 0
    else 10 * DigitsValue(d[..|d| - 1]) + (d[|d| - 1] as int - '0' as int)
  }

  function DigitChar(k: nat): (c: char)
    requires k < 10
    ensures IsDigit(c) && c as int - '0' as int == k
  {
    ('0' as int + k) as char
  }

  /** Python's `str(n)` for a natural number. */
  function NatToString(n: nat): (s: string)
    ensures s != [] && AllDigits(s)
    ensures '=' !in s && '(' !in s && ')' !in s
  {
    if n < 10 then [DigitChar(n)] else NatToString(n / 10) + [DigitChar(n % 10)]
  }

  /** `int(str(n)) == n`. */
  lemma {:induction false} DigitsValueOfNatToString(n: nat)
    ensures DigitsValue(NatToString(n)) == n
  {
    var s := NatToString(n);
    if n >= 10 {
      DigitsValueOfNatToString(n / 10);
      assert s[..|s| - 1] == NatToString(n / 10);
    }
  }

  /** Python's `str(n)` for any integer. */
  function IntToString(n: int): (s: string)
    ensures s != [] && '=' !in s && ' ' !in s
  {
    if n < 0 then "-" + NatToString(-n) else NatToString(n)
  }
}
