# Chemistry balancer and ODE text front end of a math chat bot, in Dafny

This project models two pieces of a Discord bot.

The first is the chemical equation balancer of the chemistry cog (`cogs/chemistry.py`). It takes a
reaction written as `reactants = products`, for example `Fe + O2 = Fe2O3`, and works in these steps:

- It splits the reaction at `=` and then at `+`.
- It parses each formula into element counts, first expanding bracket groups such as `(SO4)3`.
- It builds the conservation matrix. Each row is an element, taken in sorted order. Each column is
  a species. Reactant counts enter as they are and product counts enter negated.
- It takes the first null-space basis vector, exactly as SymPy computes it, and scales that vector by
  the least common multiple of its denominators.
- It makes the first non-zero entry positive and divides by the greatest common divisor.
- It can render the result as text, dropping every coefficient equal to 1.

The second is the text front end of the ODE solver (`utils/safe_sympy.py`):

- `_strip_outer_quotes` removes one layer of matching quotes.
- `_prepare_ode_equation_text` collapses whitespace. It then rewrites `y''`, `y'` and `y` into
  `Derivative(F(x), x, x)`, `Derivative(F(x), x)` and `F(x)`, renames the independent variable to
  `x`, and appends ` = 0` when the text holds no `=`.
- The first-order and second-order solvers check the arity of their initial conditions.

The model is organised in these files:

- `text.dfy`: the Python `str` operations the code relies on (`isspace`, `strip`, `split`, `int`, `str`).
- `formula.dfy`: the tokenizer, the atom tally, the group search and expansion loop, and `parse_formula`.
- `ordering.dfy`: Python's order on `str` and `sorted` over a set.
- `equation.dfy`: `parse_side`, `collect_elements` and `build_matrix`. The matrix is an `array2<int>`,
  filled in place.
- `numbers.dfy`: gcd, lcm, `igcd` and `ilcm` with their arity errors, Python's `//`, and exact rationals.
- `linalg.dfy`: the null space, and a fraction-free Gauss–Jordan elimination that yields SymPy's first
  basis vector.
- `nullspace.dfy`: `nullspace_integer`.
- `balance.dfy`: `balance_equation`, conservation of atoms, and `format_balanced`.
- `odetext.dfy`: the ODE text helpers. Each `re.sub` is modelled as a scanner that goes left to right
  and replaces the leftmost match first, with no overlaps.

SymPy's `nullspace()` is not reimplemented. `LinAlg.FirstNull` computes a basis vector by elimination.
`LinAlg.FirstBasisUnique` proves that only one vector meets that description: the vector has 1 in
the first free column, 0 in every later free column, and lies in the null space. So the vector is
the one SymPy returns, whatever elimination order produced it.

Three behaviours of the code are worth stating plainly, and the model follows them:

- Parsing never fails. A term with no element tokens parses to an empty count, and no error is
  raised. An unmatched bracket stays in the text, and the tokenizer skips it.
- Expanding a group can change the symbols around it. The expansion is spliced into the text and the
  whole text is tokenized again. So a lower-case letter right after the multiplier glues onto a bare
  symbol before it. That symbol is the expansion's last one, when its product is 1. If the expansion
  is empty, it is the symbol in front of the group. For example, `H(x)2e` expands to `He`, and
  `parse_formula` counts He 1 and no H (`Formula.LowerCaseGlues`). `(OH)1e` gives O 1 and He 1.
  `Formula.SubstituteTokens` and `Formula.SubstituteScalesGroup` are stated for a multiplier not
  followed by a lower-case letter. `Formula.ParseFormula` holds without that condition, because it
  counts the tokens of the text after expansion.
- Only the first non-zero coefficient is made positive. Any later coefficient can be 0 or negative,
  whatever the dimension of the null space: `H2 + H2O = O2` gives `[2, -2, -1]`. `Balance.BalanceEquation`
  promises only what the code does.

## Model

| member | source | states |
|---|---|---|
| Text.Strip | cogs/chemistry.py:57 | `t.strip()` is the input with only whitespace cut from its two ends, and it neither starts nor ends with whitespace |
| Text.StripStripped | utils/safe_sympy.py:42 | stripping a text that neither starts nor ends with whitespace changes nothing |
| Text.StripIn | cogs/chemistry.py:57 | stripping adds no character |
| Text.SplitShape | cogs/chemistry.py:111 | `s.split(sep)` has one part more than `s` has separators, and no part holds the separator |
| Text.JoinSplit | cogs/chemistry.py:57 | joining the parts of `s.split(sep)` with `sep` gives back `s` |
| Text.Split | cogs/chemistry.py:57 | `str.split` on one character always returns at least one part; the parts are pinned down by `Text.SplitShape` and `Text.JoinSplit` |
| Text.Join | cogs/chemistry.py:57 | definition (no contract): joining with one separator character, the inverse of `Text.Split` by `Text.JoinSplit` |
| Text.SplitPartWithout | cogs/chemistry.py:57 | no part of a split holds a character that the whole text lacks |
| Text.DigitsValueOfNatToString | cogs/chemistry.py:39 | `int(str(n)) == n` for the rendered multiplied counts |
| Text.IntToString | cogs/chemistry.py:124 | `str(c)` of a coefficient is non-empty and holds neither `=` nor a space |
| Formula.DigitsEnd | cogs/chemistry.py:26 | `\d*` runs over exactly the maximal digit run |
| Formula.SymbolLength | cogs/chemistry.py:26 | `[A-Z][a-z]?` takes one upper-case letter, then the lower-case letter that follows it whenever there is one (the `?` is greedy) |
| Formula.TokensAppend | cogs/chemistry.py:26 | `findall` on `a + b` is `findall(a) + findall(b)` when `b` starts with neither a lower-case letter nor a digit |
| Formula.TokensSplit | cogs/chemistry.py:26 | the same, for a cut inside one text |
| Formula.TokensDrop | cogs/chemistry.py:26 | characters that are not upper-case letters before the next symbol produce no token |
| Formula.TokenValue | cogs/chemistry.py:45 | definition (no contract): a token stands for the value of its digits, or 1 when it has none |
| Formula.Tokens | cogs/chemistry.py:44 | definition (no contract): `findall` scans left to right; an upper-case letter starts a token of symbol and digits, and any other character is skipped; its properties are in `Formula.TokensAppend`, `Formula.TokensSplit` and `Formula.TokensDrop` |
| Formula.Add | cogs/chemistry.py:46 | `counts[el] = counts.get(el, 0) + n` raises that element's count by `n` and leaves the others alone; a new key goes last, in insertion order |
| Formula.Get | cogs/chemistry.py:46 | definition (no contract): `get(el, 0)`, the entry or 0 when the key is absent |
| Formula.AddValid | cogs/chemistry.py:46 | the keys stay duplicate-free and match the map's domain |
| Formula.TallyValid | cogs/chemistry.py:42-47 | the tally is a well-formed ordered dictionary keyed by element symbols |
| Formula.TallyGet | cogs/chemistry.py:44-46 | the tally of an element is the sum of its tokens' numbers, where an absent number counts 1 |
| Formula.TallyHas | cogs/chemistry.py:44-46 | an element is a key exactly when one of its symbols occurs |
| Formula.TallyIntoKeys | cogs/chemistry.py:44-46 | the loop appends each symbol as a key the first time it occurs; a repeated symbol keeps its first place |
| Formula.FirstOccurrences | cogs/chemistry.py:46 | definition (no contract): the symbols in the order they first occur, minus those already present; its properties are in `Formula.FirstOccurrencesShape` |
| Formula.FirstOccurrencesShape | cogs/chemistry.py:46 | the first-occurrence list holds every new symbol exactly once and nothing else |
| Formula.TallyKeys | cogs/chemistry.py:42-47 | the keys of `_count_atoms_basic`'s dictionary are the symbols in first-occurrence order |
| Formula.AceticAcidKeys | cogs/chemistry.py:42-47 | the tokens of `CH3COOH` (C, H3, C, O, O, H) give the keys C, H, O in that order |
| Formula.TallyInto | cogs/chemistry.py:44-46 | definition (no contract): the loop's dictionary, started from a given one; its keys are in `Formula.TallyIntoKeys` and its counts in `Formula.TallyGet` |
| Formula.Tally | cogs/chemistry.py:43-47 | definition (no contract): the loop started from an empty dictionary |
| Formula.CountAtomsBasic | cogs/chemistry.py:42-47 | the loop over the tokens builds exactly the tally, and every element's count is the sum of its tokens |
| Formula.BracketFrom | cogs/chemistry.py:27 | finds the next bracket; none lies in between |
| Formula.GroupAt | cogs/chemistry.py:27 | a group matched at `i` is `(` + bracket-free text + `)` + digits; when none matches, no bracket-free closing `)` followed by a digit exists |
| Formula.FindGroup | cogs/chemistry.py:34 | `search` returns the leftmost group; no group starts before it |
| Formula.ProductDigits | cogs/chemistry.py:39 | the rendered multiplied count is empty exactly when the product is 1 |
| Formula.ProductDigitsValue | cogs/chemistry.py:39 | the rendered count parses back to the product |
| Formula.Render | cogs/chemistry.py:39 | the expansion is bracket-free, empty exactly when the group has no elements, and otherwise starts with an upper-case letter |
| Formula.ExpandedText | cogs/chemistry.py:39 | the joined text of the group's entries is bracket-free and empty or starts with an upper-case letter; read back in `Formula.ExpandedTextSum` |
| Formula.Multiplier | cogs/chemistry.py:37 | definition (no contract): the value of the digits after the closing bracket |
| Formula.Expansion | cogs/chemistry.py:37-39 | the text a group is replaced with is bracket-free and empty or starts with an upper-case letter |
| Formula.Substitute | cogs/chemistry.py:40 | definition (no contract): the formula with the group replaced by its expansion; its effect is in `Formula.SubstituteTokens` and `Formula.SubstituteScalesGroup` |
| Formula.RenderSum | cogs/chemistry.py:39 | re-parsing the expansion gives `mult` times each count |
| Formula.ExpandedTextSum | cogs/chemistry.py:38-39 | re-parsing a group's expansion gives `mult` times each of its counts |
| Formula.GroupTokens | cogs/chemistry.py:34-40 | the tokens of a formula are those before the group, inside it, and after it |
| Formula.SubstituteRemovesBracket | cogs/chemistry.py:40 | each substitution removes exactly one `(`, so the loop ends |
| Formula.SubstituteTokens | cogs/chemistry.py:40 | when no lower-case letter follows the multiplier, splicing the expansion in replaces the group's tokens by the expansion's and keeps the tokens around it |
| Formula.SubstituteScalesGroup | cogs/chemistry.py:37-40 | when no lower-case letter follows the multiplier, one expansion step multiplies the group's atoms by its multiplier and keeps everything else |
| Formula.Expand | cogs/chemistry.py:29-40 | the fully expanded formula holds no group |
| Formula.ExpandGroups | cogs/chemistry.py:29-40 | the `while True` loop returns the full expansion, holds no group, and never adds brackets |
| Formula.FormulaCounts | cogs/chemistry.py:49-51 | the parsed counts form a well-formed dictionary keyed by element symbols |
| Formula.ParseFormula | cogs/chemistry.py:49-51 | `parse_formula` counts each element over the tokens of the expanded formula |
| Formula.NoGroupWithoutBracket | cogs/chemistry.py:34-36 | a formula with no `(` holds no group, so the loop stops at once |
| Formula.SulfateExpansion | cogs/chemistry.py:31 | `(SO4)3` expands to `S3O12` |
| Formula.AluminiumSulfateExpand | cogs/chemistry.py:29-40 | `Al2(SO4)3` expands to `Al2S3O12` |
| Formula.AluminiumSulfate | cogs/chemistry.py:49-51 | `Al2(SO4)3` parses to Al 2, S 3, O 12, in that key order |
| Formula.GlueGroup | cogs/chemistry.py:27 | in `H(x)2e` the group pattern finds `(x)2` |
| Formula.GlueSubstitute | cogs/chemistry.py:37-40 | the element-free group expands to nothing, so the substitution gives `He` |
| Formula.GlueExpand | cogs/chemistry.py:29-40 | `_expand_groups("H(x)2e")` is `He` |
| Formula.GlueTokens | cogs/chemistry.py:26 | `H(x)2e` tokenizes to a bare `H`, and `He` to one `He` token |
| Formula.LowerCaseGlues | cogs/chemistry.py:49-51 | `parse_formula("H(x)2e")` counts He 1 and H 0: a lower-case letter after a multiplier glues onto the symbol before it |
| Ordering.LexTransitive | cogs/chemistry.py:67 | Python's order on `str` is transitive |
| Ordering.LexTotal | cogs/chemistry.py:67 | two different strings are ordered one way or the other |
| Ordering.LexAsymmetric | cogs/chemistry.py:67 | the order is asymmetric |
| Ordering.Insert | cogs/chemistry.py:67 | inserting into a strictly sorted list keeps it strictly sorted, with exactly the added member |
| Ordering.SortedUnique | cogs/chemistry.py:67 | two strictly sorted lists with the same members are equal, so `sorted(set)` is determined by the set |
| Ordering.Sorted | cogs/chemistry.py:67 | `sorted(els)` is strictly increasing and holds exactly the set's members |
| Ordering.LexLess | cogs/chemistry.py:67 | definition (no contract): Python's `<` on `str`, by code point, with a proper prefix first; its order properties are in `Ordering.LexTotal`, `Ordering.LexTransitive` and `Ordering.LexAsymmetric` |
| Ordering.SortedOf | cogs/chemistry.py:67 | `sorted` of a set is strictly increasing and holds exactly the set's members |
| Numbers.GcdDivides | cogs/chemistry.py:103 | the gcd of two numbers that are not both 0 is positive and divides both |
| Numbers.GcdGreatest | cogs/chemistry.py:103 | every common divisor divides the gcd |
| Numbers.GcdAllDivides | cogs/chemistry.py:103 | the gcd of a list with a non-zero entry is positive and divides every entry |
| Numbers.GcdAllGreatest | cogs/chemistry.py:103 | every common divisor of the list divides its gcd |
| Numbers.GcdAllZero | cogs/chemistry.py:103 | the gcd of an all-zero list is 0 |
| Numbers.Gcd | cogs/chemistry.py:103 | definition (no contract): Euclid's gcd of two naturals; its properties are in `Numbers.GcdDivides` and `Numbers.GcdGreatest` |
| Numbers.GcdAll | cogs/chemistry.py:103 | definition (no contract): the gcd of a list; its properties are in `Numbers.GcdAllDivides`, `Numbers.GcdAllGreatest` and `Numbers.GcdAllZero` |
| Numbers.LcmAll | cogs/chemistry.py:93 | definition (no contract): the lcm of a list; its property is in `Numbers.LcmAllMultiple` |
| Numbers.Igcd | cogs/chemistry.py:103 | `igcd(*xs)` fails exactly when there are fewer than two arguments, and is otherwise the gcd of all of them |
| Numbers.Ilcm | cogs/chemistry.py:93 | `ilcm(*xs)` fails exactly when there are fewer than two arguments |
| Numbers.IlcmMultiple | cogs/chemistry.py:93 | with at least two positive arguments, `ilcm` is a positive common multiple |
| Numbers.LcmAllMultiple | cogs/chemistry.py:93 | the lcm of positive numbers is a positive multiple of each |
| Numbers.FloorDiv | cogs/chemistry.py:104 | Python's `//` by a positive divisor is the floor quotient |
| Numbers.MakeRat | cogs/chemistry.py:88 | a SymPy rational is kept in lowest terms with a positive denominator, and has the value `p/q` |
| Numbers.Denom | cogs/chemistry.py:93 | `denom` of a rational is positive |
| LinAlg.Rows | cogs/chemistry.py:76-84 | the rows read off the matrix have its dimensions and entries |
| LinAlg.SubNull | cogs/chemistry.py:88 | the null space is closed under subtraction |
| LinAlg.ScaleNull | cogs/chemistry.py:88 | the null space is closed under scaling |
| LinAlg.FirstBasisUnique | cogs/chemistry.py:88-91 | the first basis vector (1 in the first free column, 0 in later free columns, in the null space) is unique, so `ns[0]` is determined by the matrix |
| LinAlg.FirstBasisNonTrivial | cogs/chemistry.py:89-91 | when a first basis vector exists, the null space is not trivial |
| LinAlg.CombineNull | cogs/chemistry.py:88 | replacing a row by `a*row_k - b*row_r` with `a != 0` keeps the null space |
| LinAlg.SwapNull | cogs/chemistry.py:88 | swapping two rows keeps the null space |
| LinAlg.ReducedIndependent | cogs/chemistry.py:88 | in reduced form, a null vector that is zero from column `c` on is zero |
| LinAlg.BasisRealsNull | cogs/chemistry.py:88-91 | the candidate vector read off the reduced rows lies in their null space |
| LinAlg.BasisVectorValues | cogs/chemistry.py:91 | its exact rationals have the same values |
| LinAlg.ClearColumn | cogs/chemistry.py:88 | one elimination step clears a pivot column and keeps the null space |
| LinAlg.FreeColumnBasis | cogs/chemistry.py:88-91 | the candidate at a free column is the first basis vector of the original matrix |
| LinAlg.FirstNull | cogs/chemistry.py:88-91 | there is no vector exactly when the null space is trivial; otherwise the result is the first basis vector, with 1 at its free column, in lowest-terms rationals |
| Nullspace.IntNullOfReals | cogs/chemistry.py:94 | an integer vector that is null over the reals is null over the integers |
| Nullspace.FirstNonzero | cogs/chemistry.py:97-100 | the index of the first non-zero entry, where all earlier entries are zero |
| Nullspace.Denoms | cogs/chemistry.py:93 | the denominators of the basis vector, one per entry, each positive |
| Nullspace.ScaleBy | cogs/chemistry.py:94 | scaling by the lcm gives one integer per entry |
| Nullspace.Times | cogs/chemistry.py:101 | multiplying by the sign multiplies every entry and keeps the length |
| Nullspace.DivideAll | cogs/chemistry.py:104 | every entry is floor-divided by the gcd, as `//` does |
| Nullspace.FirstSign | cogs/chemistry.py:95-101 | the sign loop returns ±1; multiplying by it makes the first non-zero entry positive; it is 1 for a zero vector |
| Nullspace.QuotientSign | cogs/chemistry.py:101-104 | dividing by the gcd keeps the position of the first non-zero entry and keeps it positive |
| Nullspace.QuotientGcd | cogs/chemistry.py:103-104 | after division by the gcd of the absolute values, the gcd is 1 |
| Nullspace.NormalizedCross | cogs/chemistry.py:92-104 | after scaling, signing and dividing, every entry stays proportional to the basis vector |
| Nullspace.ProportionalBasis | cogs/chemistry.py:91-104 | an integer vector proportional to the first basis vector is null and a non-zero multiple of it |
| Nullspace.Normalize | cogs/chemistry.py:92-104 | the lcm scaling, the sign and the gcd division give a vector proportional to the basis vector, with positive first non-zero entry and gcd 1 |
| Nullspace.NullspaceInteger | cogs/chemistry.py:87-105 | "No non-trivial solution" exactly when the null space is trivial; an arity error exactly when it is non-trivial with one column; otherwise an integer null vector that is a multiple of the first basis vector, with positive first non-zero entry and gcd 1 |
| Equation.ParseTerm | cogs/chemistry.py:57-60 | a term is its stripped name with that name's parsed counts |
| Equation.ParseSide | cogs/chemistry.py:53-61 | the loop builds exactly the list of parsed terms of the side |
| Equation.SideShape | cogs/chemistry.py:53-61 | a side has one term more than it has `+`; each term's name is the stripped part, holds no `+`, and carries that name's parsed counts |
| Equation.Side | cogs/chemistry.py:53-61 | one term per `+` part of the side |
| Equation.SideNamesWithout | cogs/chemistry.py:57 | a name holds no character the side lacks |
| Equation.Names | cogs/chemistry.py:119-120 | the names are the terms' names, in order |
| Equation.KeysOfHas | cogs/chemistry.py:64-66 | the union of the terms' keys holds exactly the elements of some term |
| Equation.CollectElements | cogs/chemistry.py:63-67 | `collect_elements` is the sorted list of every element occurring in some term |
| Equation.ElementsHas | cogs/chemistry.py:74 | the matrix's element list is strictly sorted and holds exactly the elements of either side |
| Equation.ElementRow | cogs/chemistry.py:79-84 | one row has one entry per species |
| Equation.Entry | cogs/chemistry.py:80-84 | definition (no contract): a reactant's count of the element, or the negated count for a product |
| Equation.ConservationMatrix | cogs/chemistry.py:74-85 | definition (no contract): one row per sorted element, one column per species; `Equation.BuildMatrix` fills exactly this matrix |
| Equation.FillRow | cogs/chemistry.py:77-84 | the two inner loops set row `r` to reactant counts then negated product counts, and leave other rows alone |
| Equation.MatrixRows | cogs/chemistry.py:76-85 | entry-wise agreement gives the conservation matrix |
| Equation.BuildMatrix | cogs/chemistry.py:69-85 | a fresh matrix, elements by species, equal to the conservation matrix |
| Balance.AtomsAbsent | cogs/chemistry.py:80 | an element missing from all terms contributes no atoms |
| Balance.RowDot | cogs/chemistry.py:71-72 | a row times a vector is zero exactly when the element's atoms on the left equal those on the right |
| Balance.NullIffConserves | cogs/chemistry.py:71-72 | a vector is in the matrix's null space exactly when it conserves every element's atoms |
| Balance.NullspaceOutcome | cogs/chemistry.py:89-93 | with at least two species, the only failure is "no non-trivial solution" |
| Balance.NullVectorCoefficients | cogs/chemistry.py:115 | a normalised null vector is a set of coefficients that conserves atoms |
| Balance.Solve | cogs/chemistry.py:114-115 | solving succeeds exactly when the null space is non-trivial; the result conserves atoms, has positive first non-zero entry and gcd 1, and is a multiple of the first basis vector |
| Balance.BalanceSides | cogs/chemistry.py:112-121 | the balance of two sides is the coefficients with the terms' names, or "no non-trivial solution" |
| Balance.BalanceEquation | cogs/chemistry.py:107-121 | an unpacking error exactly when the text does not split into two at `=`; otherwise success exactly when the null space is non-trivial, and then coefficients that conserve atoms, with gcd 1 and positive first non-zero entry, and names of both sides |
| Balance.FmtOmitsOne | cogs/chemistry.py:124 | a coefficient is left out of the text exactly when it is 1 |
| Balance.FmtAll | cogs/chemistry.py:125-126 | `zip` stops at the shorter list |
| Balance.JoinWithout | cogs/chemistry.py:125-126 | joining adds no character the parts and the separator lack |
| Balance.FormatOneEquals | cogs/chemistry.py:123-127 | the formatted equation holds exactly one `=` when no name holds one |
| Balance.FormattedSplitsInTwo | cogs/chemistry.py:142-146 | the formatted result of a balanced equation splits at `=` into two sides again |
| Balance.Fmt | cogs/chemistry.py:124 | definition (no contract): the coefficient and a space before the name, or the name alone when the coefficient is 1; its property is in `Balance.FmtOmitsOne` |
| Balance.JoinWith | cogs/chemistry.py:125-126 | definition (no contract): `str.join` with a text separator; its property is in `Balance.JoinWithout` |
| Balance.FormatBalanced | cogs/chemistry.py:123-127 | definition (no contract): the two joined sides with ` = ` between them; its properties are in `Balance.FormatOneEquals` and `Balance.FormattedSplitsInTwo` |
| OdeText.StripOuterQuotes | utils/safe_sympy.py:41-45 | the result is never longer than the input |
| OdeText.StripOuterQuotesShape | utils/safe_sympy.py:41-45 | the stripped text comes back unchanged exactly when it is not quoted; when quoted, exactly its first and last characters go |
| OdeText.OneLayer | utils/safe_sympy.py:41-45 | only one layer of quotes goes: `q + u + q` gives `u`, even when `u` is quoted itself |
| OdeText.StripOuterQuotesCount | utils/safe_sympy.py:41-45 | characters other than whitespace and quotes keep their count |
| OdeText.CollapseShape | utils/safe_sympy.py:108 | after collapsing, the only whitespace is single plain spaces, the other characters are kept in order, and the text starts with whitespace exactly when the input did |
| OdeText.CollapseSpaces | utils/safe_sympy.py:108 | definition (no contract): `re.sub(r"\s+", " ", s)`; pinned down by `OdeText.CollapseRun`, `OdeText.CollapseKeep` and `OdeText.CollapseAppend` |
| OdeText.CollapseRun | utils/safe_sympy.py:108 | any non-empty whitespace run followed by a character that is not whitespace, or by nothing, becomes exactly one space |
| OdeText.CollapseKeep | utils/safe_sympy.py:108 | a character that is not whitespace is copied |
| OdeText.CollapseAppend | utils/safe_sympy.py:108 | collapsing works piece by piece when the cut does not fall inside a whitespace run |
| OdeText.CollapseLast | utils/safe_sympy.py:108 | a last character that is not whitespace stays last |
| OdeText.CollapseBetween | utils/safe_sympy.py:108 | a whitespace run between two pieces becomes one space, and the pieces collapse on their own |
| OdeText.StripSqueeze | utils/safe_sympy.py:108 | `.strip()` removes whitespace only |
| OdeText.CollapseCollapsed | utils/safe_sympy.py:108 | a text already collapsed is left as it is |
| OdeText.NormalizeShape | utils/safe_sympy.py:107-108 | the normalised text has single inner spaces only and is otherwise the quote-stripped input |
| OdeText.Normalize | utils/safe_sympy.py:107-108 | definition (no contract): quotes off, whitespace runs collapsed, ends stripped |
| OdeText.NormalizeSeparates | utils/safe_sympy.py:107-108 | a whitespace run between two unquoted pieces ends up as exactly one space: `a   b` becomes `a b`, never `ab` |
| OdeText.UnquotedUnchanged | utils/safe_sympy.py:41-45 | a text with no whitespace at its ends and no quote in front comes through quote removal unchanged |
| OdeText.NormalizeCount | utils/safe_sympy.py:107-108 | normalisation keeps the count of every character other than whitespace and quotes |
| OdeText.MatchEnd | utils/safe_sympy.py:114-122 | a match covers the whole name and ends within the text, with the lookbehind holding before it and no word character right after it |
| OdeText.MatchedChars | utils/safe_sympy.py:111-118 | a match covers the name, then whitespace and primes, nothing else |
| OdeText.DoublePrimeAlsoSinglePrime | utils/safe_sympy.py:113-115 | wherever `y''` matches, the `y'` pattern matches one character shorter, which is why `y''` is rewritten first |
| OdeText.SubCount | utils/safe_sympy.py:114-122 | a substitution keeps the count of any character absent from the name and the replacement that is neither whitespace nor a prime |
| OdeText.SubFromNoMatch | utils/safe_sympy.py:114-122 | where no position matches, the substitution changes nothing |
| OdeText.SubAbsent | utils/safe_sympy.py:114-122 | a text without the name's first letter comes back unchanged |
| OdeText.SubFromSelf | utils/safe_sympy.py:121-122 | replacing a name by itself changes nothing |
| OdeText.SubFrom | utils/safe_sympy.py:114-122 | definition (no contract): what `re.sub` emits from a position on, leftmost match first, no overlaps; its properties are in `OdeText.SubCount`, `OdeText.SubFromNoMatch` and `OdeText.SubFromSelf` |
| OdeText.Sub | utils/safe_sympy.py:114-122 | definition (no contract): `re.sub` over the whole text |
| OdeText.Rewrite | utils/safe_sympy.py:113-122 | definition (no contract): the `y''`, `y'` and `y` passes in that order, then the rename of `indep`; its properties are in `OdeText.RewriteCount` and `OdeText.RenameToXUnneeded` |
| OdeText.RenameToXUnneeded | utils/safe_sympy.py:121-122 | skipping the rename when `indep == "x"` gives what running it would |
| OdeText.RewriteCount | utils/safe_sympy.py:114-122 | the rewrites keep the number of `=` when the names hold none |
| OdeText.PrepareWith | utils/safe_sympy.py:97-128 | the prepared text always holds an `=` |
| OdeText.PrepareOdeEquationText | utils/safe_sympy.py:97-128 | the prepared text always holds an `=` |
| OdeText.PrepareEquals | utils/safe_sympy.py:124-128 | the prepared text holds as many `=` as the input, or one when it held none; in that case it is the rewritten text with ` = 0` appended |
| OdeText.DoublePrimeExample | utils/safe_sympy.py:113-118 | `y''` becomes `Derivative(F(x), x, x) = 0` |
| OdeText.SinglePrimeFirstExample | utils/safe_sympy.py:113-115 | rewriting `y'` first would turn `y''` into `Derivative(F(x), x)'` |
| OdeText.WordBlocksName | utils/safe_sympy.py:114-118 | as written, a word character right before the name (letter, digit or `_`) refuses the match, and so does one right after a name without primes |
| OdeText.CoefficientNotRewritten | utils/safe_sympy.py:114-118 | as written, `3y'` comes out as `3y' = 0` |
| OdeText.PrepareOdeEquationTextCorrected | utils/safe_sympy.py:97-128 | the corrected preparation always holds an `=` |
| OdeText.CoefficientRewritten | utils/safe_sympy.py:114-118 | with the corrected lookbehind, `3y'` comes out as `3Derivative(F(x), x) = 0` |
| OdeText.CoefficientLikeSpace | utils/safe_sympy.py:114-118 | with the corrected lookbehind, a digit before the name matches as a space would under the written one |
| OdeText.MatchEndFrom | utils/safe_sympy.py:114-118 | whether a rewrite matches at a position depends only on the text from there on and on the lookbehind |
| OdeText.IcParts | utils/safe_sympy.py:151 | there is one part more than there are commas, and no part holds a comma |
| OdeText.FirstOrderIcs | utils/safe_sympy.py:149-154 | initial conditions are used exactly when `ics` is non-empty and has exactly one comma after quote removal; they are its two stripped parts |
| OdeText.SecondOrderIcs | utils/safe_sympy.py:163-168 | initial conditions are used exactly when `ics` is non-empty and has exactly two commas after quote removal; they are its three stripped parts |

## Left out

- The Discord layer is not modelled: command registration, replies, embeds and the `try`/`except`
  that turns any exception into a message (`cogs/chemistry.py:129-150`). This includes the cog's own
  `=` check and its slicing of the coefficients.
- SymPy is not modelled. Its `nullspace` is replaced by an elimination that provably yields the same
  first basis vector. Its `simplify`, `sign`, `Eq`, `parse_expr` and `dsolve` are left out. The model
  ends with the prepared equation text and the split initial-condition text.
- `float(...)` on the initial-condition parts is not modelled. Floating point is out of scope, so
  `FirstOrderIcs` and `SecondOrderIcs` return the stripped part texts. A `ValueError` from `float`
  is not modelled.
- Formula.DigitsEnd: `\d` is taken as the ASCII digits `0`-`9`, and `int()` is modelled on them
  only. Python's `\d` also matches every other Unicode decimal digit, and `int()` reads them. So for
  `H２O`, with a fullwidth `２`, the source counts H 2 and O 1, while the model skips the `２` and
  counts H 1 and O 1. The same holds for group multipliers.
- `\w` is taken as ASCII letters, digits and `_`. Python's `\w` also matches non-ASCII letters and
  digits. `\s` and `str.strip` use Python's whitespace set exactly.
- `dep` and `indep` are matched as literal text. The source interpolates them into the regex
  unescaped, so a name holding regex metacharacters would act as a pattern. The cog always passes
  `y` and `x`.
- Numbers.Ilcm: the model proves that `ilcm` gives a positive common multiple. It does not prove
  that this is the least one. The normalisation needs only a common multiple.
- Balance.BalanceSides returns the coefficient list directly. The source slices it at the number of
  reactants and concatenates the two slices again (`cogs/chemistry.py:116-121`), which gives back
  the same list.
- A null space of dimension above 1 is handled as the source handles it: only the first basis vector
  is used. No other balance is searched for.

## Findings

| source | as written | input that shows it | evidently intended | confidence | as-written member | corrected member |
|---|---|---|---|---|---|---|
| utils/safe_sympy.py:114-118 | the lookbehind `(?<!\w)` refuses a digit before `y`, so a coefficient written directly before the variable blocks the rewrite | `3y'` comes out as `3y' = 0`; the docstring's own example `y'' - 3y' + 2y = 0`, which the `dsolve2` command also shows, leaves `3y'` and `2y` unrewritten | a digit coefficient counts as a separator: `3y'` becomes `3Derivative(F(x), x)`, which the parser's implicit multiplication reads as `3*y'` | high (not executed) | OdeText.CoefficientNotRewritten | OdeText.CoefficientRewritten |
