# APN-Repository core, modelled in Dafny

This project models the computational core of the APN-Repository tool. The tool is a database and command line for vectorial Boolean functions F: GF(2^n) -> GF(2^n), and for almost perfect nonlinear (APN) functions in particular. Each function is held either as a truth table or as a univariate polynomial, written as a list of terms (c, m) that stand for g^c * x^m. The tool computes and compares invariants of these functions.

The model covers six areas.

- **Field arithmetic and interpolation.** The shift-and-XOR product of GF(2^n) modulo a reduction polynomial, its inverse, and powers of a generator (`GaloisField`). The tables built from them (`FieldTables`). Lagrange interpolation from a truth table to a coefficient list, and its conversion to terms (`Lagrange`, `Conversion`). The proof that evaluating the interpolated polynomial gives back the table whenever the reduction polynomial makes the lookups a field (`FieldLaws`, `LagrangeProofs`).
- **Truth-table invariants in Python.** The difference distribution table and differential uniformity (`Ddt`, `ApnTest`), the Möbius transform and algebraic degree (`Anf`, `ApnIsQuadratic`), the k-to-1 rule (`KToOne`), the properties of a polynomial (`ApnProperties`), and the matrices whose GF(2) ranks are the Gamma and Delta ranks (`GammaRank`, `DeltaRank`).
- **The C invariant library and its bindings.**
  - The `Function` record and its creators, the flat DDT loop, the in-place ANF and degree scan, the field context with log/antilog tables, and the monomial test (`CppFunction`, `CppAnf`, `CppField`, `CppMonomial`, `CppExterns`).
  - The ortho-derivative spectra (`Spectra`).
  - The canonical-triplicate scan (`Triplicate`, `VbfTruthTable`).
  - The ctypes conversion of Python ints to 32-bit C values (`InvariantBindings`).
  - Undefined behaviour in the C code (a write or read outside a table) is a `None` result. No value is claimed for it.
- **Text codecs.** Reduction polynomial texts to bitmasks and back (`PolyText`). The lenient polynomial reader (`ApnInvariants`). The printers of term lists (`TermFormat`, `InterpolationText`). The `bulk-import` line grammar and the argument list it hands to `add-input` (`BulkImport`). All of these rest on a small model of Python `str` operations (`Text`).
- **Objects and their state.** The APN and VBF objects with their representations and invariant dictionaries (`ApnObject`, `VbfObject`, `Representations`, `Dicts`). The parser that turns user input into an APN object (`UserInputParser`). The registry of invariant computations (`Registries`) and the driver that fills missing invariants through it (`InvariantDriver`, `ApnInvariants`).
- **Storage and comparison.** The Parquet tables of APN and VBF functions with their duplicate gates and row decoding (`ApnStorage`, `VbfStorage`). The invariant-matching rule of `compare` and the saving of its match lists (`Compare`). The filters that drop inputs or matches after equivalence, CCZ and 3-to-1 tests (`Equivalence`, `MatchFilters`).

Integers are unbounded. Where the C code works in 32-bit unsigned arithmetic and the width matters, the wrap is written out: the `sz*sz` table length, the DDT cell index, and the ctypes `uint32_t` conversion.

## Model

| member | source | states |
|---|---|---|
| Bits.Pow2 | computations/interpolation_helpers.py:16 | `1 << n` is at least 1, and at least 2 once n >= 1 |
| Bits.Pow2Values | c_src/invariants_computations.cpp:130 | the table sizes 2^1 .. 2^33 that the 32-bit arithmetic of the C code is compared with |
| Bits.Pow2Monotone | computations/interpolation_helpers.py:16 | 2^a <= 2^b for a <= b, and 2^b is at least twice 2^a for a < b |
| Bits.XorComm | computations/interpolation_helpers.py:117-119 | field addition `a ^ b` is commutative |
| Bits.XorAssoc | computations/interpolation_helpers.py:117-119 | field addition `a ^ b` is associative |
| Bits.XorSelf | computations/interpolation_helpers.py:117-119 | every element is its own additive inverse: `a ^ a == 0` |
| Bits.XorZeroRight | computations/interpolation_helpers.py:117-119 | 0 is the unit of field addition |
| Bits.XorBound | apn_test.py:43-44 | XOR of two n-bit words is an n-bit word, so `tt[x ^ a]` stays inside the table |
| Bits.Low | computations/interpolation_helpers.py:144 | the mask `a & ((1 << n) - 1)` is an n-bit word |
| Bits.LowOfSmall | computations/interpolation_helpers.py:144 | masking leaves an n-bit word unchanged |
| Bits.XorLow | computations/interpolation_helpers.py:144-146 | masking commutes with XOR |
| Bits.BitTop | c_src/invariants_computations.cpp:358 | for a value below 2^(k+1), bit k is set exactly when the value reaches 2^k |
| Bits.BitOfXor | c_src/invariants_computations.cpp:358-359 | bit k of `a ^ b` is set exactly when the bits k of a and b differ |
| Bits.BitsDetermine | c_src/invariants_computations.cpp:246-262 | two numbers with the same bits are equal |
| Bits.PopcountBound | c_src/invariants_computations.cpp:246-262 | a value below 2^k has at most k set bits |
| Bits.BitLength | apn_is_quadratic.py:7 | `int.bit_length()`: a < 2^r, and 2^(r-1) <= a for a > 0 |
| Ddt.CountBelow | apn_test.py:39-45 | the count of x below k with `tt[x] ^ tt[x ^ a] == b` is at most k |
| Ddt.RowMax | apn_test.py:38-47 | the row maximum bounds every entry of row a below k and is one of them |
| Ddt.MaxBelow | apn_test.py:36-47 | the running maximum over the rows 1 .. k-1 bounds every entry and is one of them when k > 1 |
| Ddt.Uniformity | apn_test.py:33-50 | the differential uniformity bounds every DDT entry with a != 0, is one of them for n >= 1, is at most 2^n, and is 0 for n == 0 |
| Ddt.RowSum | apn_test.py:36-45 | for a map on n-bit words every DDT row sums to 2^n |
| Ddt.RowSumCounts | apn_test.py:42-45 | every x counts exactly once in its row |
| Ddt.EntryZeroZero | apn_test.py:42-45 | the entry at a == 0, b == 0 is 2^n, which is why the loop starts at a == 1 |
| Ddt.ZeroRowBelow | apn_test.py:42-45 | along a == 0 every x has difference 0 |
| GaloisField.XTime | computations/interpolation_helpers.py:141-146 | one doubling-and-reduction step of `_gf_mul_slow` yields an n-bit word |
| GaloisField.GfMulSlow | computations/interpolation_helpers.py:132-147 | the Russian-peasant loop returns the shift-and-XOR product `MulSlow(a, b, n, p)` |
| GaloisField.XTimeXor | computations/interpolation_helpers.py:141-146 | the reduction step is linear over XOR |
| GaloisField.XTimeDouble | computations/interpolation_helpers.py:142-144 | without a carry out of bit n-1 the step is a plain doubling |
| GaloisField.MulLoopXTime | computations/interpolation_helpers.py:138-146 | multiplying a stepped operand is stepping the product |
| GaloisField.MulLoopExtend | computations/interpolation_helpers.py:138 | loop rounds beyond the bit length of b add nothing |
| GaloisField.MulBound | computations/interpolation_helpers.py:132-147 | the product of an n-bit word is an n-bit word |
| GaloisField.MulZero | computations/interpolation_helpers.py:132-147 | 0 annihilates the product on either side |
| GaloisField.MulXorLeft | computations/interpolation_helpers.py:132-147 | the product distributes over XOR on the left |
| GaloisField.MulXorRight | computations/interpolation_helpers.py:132-147 | the product distributes over XOR on the right |
| GaloisField.MulHalf | computations/interpolation_helpers.py:139-146 | peeling the lowest bit of b: `a*b == (b odd ? a : 0) ^ xtime(a*(b/2))` |
| GaloisField.MulOneRight | computations/interpolation_helpers.py:132-147 | 1 is a right unit of the product on n-bit words |
| GaloisField.MulOneLeft | computations/interpolation_helpers.py:132-147 | 1 is a left unit of the product on n-bit words |
| GaloisField.MulComm | computations/interpolation_helpers.py:132-147 | the product is commutative on n-bit words, for every polynomial |
| GaloisField.MulAssoc | computations/interpolation_helpers.py:132-147 | the product is associative on n-bit words, for every polynomial |
| GaloisField.InverseFrom | computations/interpolation_helpers.py:155-158 | the search from `from` returns 0 or the least x from there with a*x == 1, and 0 only when there is none |
| GaloisField.FindInverseSpec | computations/interpolation_helpers.py:150-158 | `_gf_find_inverse` is 0 for a == 0, else the least inverse of a, or 0 when a has none |
| GaloisField.GfFindInverse | computations/interpolation_helpers.py:150-158 | the brute-force loop returns the specified inverse `FindInverse(a, n, p)` |
| GaloisField.GPowBound | computations/interpolation_helpers.py:167-169 | every power of the generator is an n-bit word |
| FieldLaws.GFIsField | computations/interpolation_helpers.py:122-158 | the shift-and-XOR product with the brute-force inverse satisfies the field laws once every nonzero element has an inverse |
| FieldLaws.GFRingAt | computations/interpolation_helpers.py:132-147 | unit, zero, commutativity, associativity and distributivity hold at every triple of elements |
| FieldLaws.Inverse | computations/interpolation_helpers.py:127-129 | in a field every nonzero a times `inv(a)` is 1 |
| FieldLaws.DistRight | computations/interpolation_helpers.py:98-100 | the product distributes over XOR on the right |
| FieldLaws.XorZeroMeansEqual | computations/interpolation_helpers.py:117-119 | `a ^ b == 0` only for a == b |
| FieldTables.LogSearch | computations/interpolation_helpers.py:171-175 | the log entry of c is the last k below the bound with antilog entry c, or 0 when there is none |
| FieldTables.AlogOfLog | computations/interpolation_helpers.py:161-175 | when g generates the nonzero elements, the antilog of the log of c is c, and the log is below 2^n - 1 |
| FieldTables.LogOfAlog | computations/interpolation_helpers.py:161-175 | when the powers g^0 .. g^(2^n-2) are distinct, `log[alog[k]] == k` |
| FieldTables.BuildMulTable | computations/interpolation_helpers.py:57-64 | a fresh 2^n x 2^n table holding `_gf_mul_slow(x, y)` at every cell |
| FieldTables.BuildInverseTable | computations/interpolation_helpers.py:58-68 | a fresh table holding `_gf_find_inverse(x)` at every x, 0 at 0 |
| FieldTables.AlogNext | computations/interpolation_helpers.py:168-169 | antilog entry k is entry k - 1 times the generator |
| FieldTables.BuildLogTables | computations/interpolation_helpers.py:161-175 | two fresh distinct tables holding the antilog and log entries |
| FieldTables.FillAntilog | computations/interpolation_helpers.py:167-169 | every antilog entry is written as specified |
| FieldTables.FillLog | computations/interpolation_helpers.py:171-175 | every log entry is the last write the loop makes to it |
| FieldTables.Field.BuildAllTables | computations/interpolation_helpers.py:49-70 | the object holds n, the polynomial and the generator, and its four tables agree with their specifications |
| Lagrange.BuiltTablesHold | computations/interpolation_helpers.py:49-70 | the tables `_build_all_tables` fills are the lookups of the shift-and-XOR product and the brute-force inverse, and they stay inside the field |
| Lagrange.GFClosed | computations/interpolation_helpers.py:122-129 | the product and the inverse of field elements are field elements |
| Lagrange.UnitPoly | computations/interpolation_helpers.py:83-84 | `L = [0]*size; L[0] = 1` is the constant polynomial 1 |
| Lagrange.AccumulatedNoneStays | computations/interpolation_helpers.py:110-112 | once a table lookup has raised, the interpolation stays failed |
| Lagrange.StepBound | computations/interpolation_helpers.py:90-107 | one beta pass keeps every coefficient a field element |
| Lagrange.BasisBound | computations/interpolation_helpers.py:82-107 | every coefficient of L_alpha is a field element |
| Lagrange.BasisStart | computations/interpolation_helpers.py:83-84 | before any pass L_alpha is the constant 1 |
| Lagrange.BasisNext | computations/interpolation_helpers.py:85-107 | a pass with beta != alpha multiplies by (x + beta) and by `inv(alpha ^ beta)` |
| Lagrange.BasisSkip | computations/interpolation_helpers.py:86-87 | the pass with beta == alpha leaves L_alpha unchanged |
| Lagrange.ShiftInto | computations/interpolation_helpers.py:90-97 | the shift loop leaves in a fresh list exactly the shifted coefficients |
| Lagrange.AddMultipleInto | computations/interpolation_helpers.py:98-100 | the beta loop adds `L[i] * beta` to every coefficient and keeps them in the field |
| Lagrange.ScaleInPlace | computations/interpolation_helpers.py:103-105 | the scaling loop multiplies every coefficient by the denominator |
| Lagrange.MultiplyLinear | computations/interpolation_helpers.py:88-107 | the three inner loops compute `(L * (x + beta)) * d` in a fresh list |
| Lagrange.NextBasis | computations/interpolation_helpers.py:85-107 | one pass with beta != alpha advances L_alpha to the next specified list |
| Lagrange.BasisPass | computations/interpolation_helpers.py:85-107 | one pass of the beta loop, skipping beta == alpha, advances L_alpha |
| Lagrange.NewUnit | computations/interpolation_helpers.py:83-84 | a fresh list holding the constant polynomial 1 |
| Lagrange.BuildBasis | computations/interpolation_helpers.py:82-107 | the beta loop leaves the specified basis polynomial L_alpha |
| Lagrange.AccumulateInto | computations/interpolation_helpers.py:110-112 | the accumulation succeeds exactly when no table lookup leaves the table, and then adds `y * L_alpha` to the result |
| Lagrange.SampleInto | computations/interpolation_helpers.py:77-112 | one alpha pass adds `y * L_alpha` unless y is 0, and fails exactly where Python raises IndexError |
| Lagrange.LagrangeInterpolation | computations/interpolation_helpers.py:73-114 | `_lagrange_interpolation` returns the specified coefficient list, or None where Python raises IndexError |
| LagrangeProofs.AddScaledBound | computations/interpolation_helpers.py:110-112 | adding `L * c` to field coefficients keeps them in the field |
| LagrangeProofs.EvalAddScaled | computations/interpolation_helpers.py:110-112 | evaluation is linear: `(A + L*c)(x) == A(x) + L(x)*c` |
| LagrangeProofs.EvalScaled | computations/interpolation_helpers.py:103-105 | `(L*d)(x) == L(x)*d` |
| LagrangeProofs.EvalShifted | computations/interpolation_helpers.py:95-97 | the shift multiplies the value by x when the top coefficient is 0 |
| LagrangeProofs.EvalStep | computations/interpolation_helpers.py:88-107 | one beta pass multiplies the value by (x + beta) and by the denominator |
| LagrangeProofs.BasisDegree | computations/interpolation_helpers.py:85-107 | L_alpha has degree at most the number of passes done, so the shift never drops a coefficient |
| LagrangeProofs.EvalBasis | computations/interpolation_helpers.py:82-107 | L_alpha evaluates to the product of `(x + beta) / (alpha + beta)` over the passes done |
| LagrangeProofs.EvalBasisStep | computations/interpolation_helpers.py:85-107 | each pass multiplies the value of L_alpha by `(x + beta) * inv(alpha + beta)` |
| LagrangeProofs.BasisValueAtAlpha | computations/interpolation_helpers.py:85-107 | the basis product is 1 at alpha |
| LagrangeProofs.BasisValueElsewhere | computations/interpolation_helpers.py:85-107 | the basis product is 0 at every other point already passed |
| LagrangeProofs.BasisAtPoints | computations/interpolation_helpers.py:82-107 | L_alpha is 1 at alpha and 0 at every other field element |
| LagrangeProofs.BasisNonzero | computations/interpolation_helpers.py:110-112 | L_alpha has a nonzero coefficient, so a nonzero sample always reads the multiplication table |
| LagrangeProofs.AddSampleValue | computations/interpolation_helpers.py:110-112 | adding `y * L_alpha` changes the value at alpha by y and nowhere else |
| LagrangeProofs.AddSampleInField | computations/interpolation_helpers.py:110-112 | a sample accumulated without IndexError is a field element |
| LagrangeProofs.AccumulatedValues | computations/interpolation_helpers.py:77-112 | after k samples the list takes the values `tt[a]` at a < k and 0 elsewhere |
| LagrangeProofs.AccumulatedBound | computations/interpolation_helpers.py:77-112 | a successful interpolation has field coefficients and field samples |
| LagrangeProofs.AccumulatedSucceeds | computations/interpolation_helpers.py:77-112 | for n >= 1 interpolation succeeds whenever every sample is a field element |
| LagrangeProofs.RoundTrip | computations/interpolation_helpers.py:73-114 | the interpolated polynomial takes the value `tt[x]` at every x |
| LagrangeProofs.InterpolationSucceedsIff | computations/interpolation_helpers.py:73-114 | over a field, interpolation raises IndexError exactly when some sample is not a field element |
| LagrangeProofs.GFRoundTrip | computations/interpolation_helpers.py:49-114 | with the tables `_build_all_tables` fills, every table of n-bit words interpolates, and the result evaluates back to the table |
| LagrangeProofs.ZeroTable | computations/interpolation_helpers.py:79-80 | the all-zero table interpolates to the all-zero list |
| LagrangeProofs.DimensionZero | computations/interpolation_helpers.py:73-114 | for n == 0 the one-entry table interpolates exactly when its entry is 0 |
| InterpolationText.ExpMaskRange | apn_interpolation.py:8-40 | the bitmask of a descending exponent list lies in [2^top, 2^(top+1)) and is odd exactly when the list ends in exponent 0 |
| InterpolationText.DegreeBits | apn_interpolation.py:8-40 | a polynomial written as x^n + ... + 1 has bit n and bit 0 set and nothing above bit n |
| InterpolationText.CommentedFrom2 | apn_interpolation.py:9-12 | the defaults for n = 2..5 have degree n, constant term 1 and equal the polynomial written in their comment |
| InterpolationText.CommentedFrom6 | apn_interpolation.py:13-16 | the same for n = 6..9 |
| InterpolationText.CommentedFrom10 | apn_interpolation.py:17-20 | the same for n = 10..13 |
| InterpolationText.CommentedFrom14 | apn_interpolation.py:21-24 | the same for n = 14..17 |
| InterpolationText.CommentedFrom18 | apn_interpolation.py:25-26 | the same for n = 18, 19 |
| InterpolationText.CommentedFrom20 | apn_interpolation.py:27-28 | the same for n = 20, 21 |
| InterpolationText.CommentedFrom22 | apn_interpolation.py:29-30 | the same for n = 22, 23 |
| InterpolationText.CommentedFrom24 | apn_interpolation.py:31-32 | the same for n = 24, 25 |
| InterpolationText.CommentedFrom26 | apn_interpolation.py:33-34 | the same for n = 26, 27 |
| InterpolationText.CommentedFrom28 | apn_interpolation.py:35-36 | the same for n = 28, 29 |
| InterpolationText.CommentedFrom30 | apn_interpolation.py:37-38 | the same for n = 30, 31 |
| InterpolationText.CommentedFrom32 | apn_interpolation.py:39 | the same for n = 32 |
| InterpolationText.AllCommented | apn_interpolation.py:8-40 | every default irreducible polynomial for 2 <= n <= 32 has degree n and constant term 1 |
| InterpolationText.DefaultTables | apn_interpolation.py:8-76 | both default tables have an entry exactly for 2 <= n <= 32, every generator is 2, and every polynomial has the degree its key names |
| InterpolationText.PolynomialToStringGLoop | apn_interpolation.py:221-247 | the loop over i from SIZE-1 down to 0 builds the same text as the term-list specification, failing where `gf_log[c]` is out of range |
| InterpolationText.TermTextsErrUp | apn_interpolation.py:222-243 | once a higher term fails to render, the whole rendering fails with that error |
| InterpolationText.TermTextsStart | apn_interpolation.py:228-242 | every rendered term starts with '1', 'x' or 'g' |
| InterpolationText.TermTextsEmpty | apn_interpolation.py:226-227 | no term is rendered exactly when every coefficient from k up is 0 |
| InterpolationText.JoinStarts | apn_interpolation.py:247 | `" + ".join(terms)` starts with the first term's first character |
| InterpolationText.ZeroRendersAsZero | apn_interpolation.py:245-247 | the text is "0" exactly for the all-zero polynomial, and rendering fails exactly when a coefficient other than 0 and 1 has no `gf_log` entry |
| InterpolationText.TermTextsFails | apn_interpolation.py:215-219 | rendering terms k.. fails exactly when one of them has a coefficient > 1 outside `gf_log` |
| InterpolationText.TermTextFails | apn_interpolation.py:215-219 | one nonzero coefficient fails exactly when it is > 1 and outside `gf_log` |
| InterpolationText.NonBlank | apn_interpolation.py:259 | `[p for p in parts if p]` keeps only non-empty pieces |
| InterpolationText.ParseInts | apn_interpolation.py:262 | `list(map(int, parts))` succeeds with one integer per piece |
| InterpolationText.ParseSboxLine | apn_interpolation.py:253-262 | a parsed S-box line has exactly SIZE values |
| InterpolationText.NumberTexts | apn_interpolation.py:253-262 | the decimal texts of the values, one per value |
| InterpolationText.SboxLineRoundTrip | apn_interpolation.py:253-262 | an S-box written as `{v0,v1,...},` parses back to the same values when it has SIZE of them, and to the ValueError otherwise |
| InterpolationText.SboxLineInner | apn_interpolation.py:254-257 | stripping, dropping the trailing comma and stripping braces leaves exactly the comma-joined numbers |
| InterpolationText.TrimComma | apn_interpolation.py:255-256 | `line[:-1]` removes exactly the trailing comma |
| InterpolationText.StripBraces | apn_interpolation.py:257 | `strip("{}")` removes exactly the outer braces of a digits-and-commas body |
| InterpolationText.StripLineEnds | apn_interpolation.py:254 | `line.strip()` leaves a brace-delimited line unchanged |
| InterpolationText.SboxLinePieces | apn_interpolation.py:258-259 | splitting the joined numbers on ',' and dropping blanks gives back the number texts |
| InterpolationText.ParseNumberTexts | apn_interpolation.py:262 | the decimal texts of values parse back to the values |
| PolyText.TokenExpOfExpText | computations/poly_parse_utils.py:17-29 | the token written for exponent e (`1`, `x` or `x^e`) reads back as exponent e |
| PolyText.ExpTextChars | computations/poly_parse_utils.py:52-57 | an exponent token uses only 'x', '^' and digits |
| PolyText.Tokens | computations/poly_parse_utils.py:12 | splitting on '+' gives at least one token |
| PolyText.MaskOfBits | computations/poly_parse_utils.py:16-33 | bit j of a parsed mask is set exactly when some token names exponent j |
| PolyText.MaskOfNonzero | computations/poly_parse_utils.py:38-41 | a successful parse of at least one token gives a nonzero mask |
| PolyText.ParseIrreduciblePolyStr | computations/poly_parse_utils.py:4-41 | the token loop with its early `return 0` computes the whole-string parse |
| PolyText.OrToken | computations/poly_parse_utils.py:17-36 | one token ORs in bit e, and fails for a malformed token or an exponent above 2000 |
| PolyText.MaskOfStep | computations/poly_parse_utils.py:16-36 | the mask after token i is the mask before it with that token's bit ORed in |
| PolyText.BadPrefixFails | computations/poly_parse_utils.py:30-36 | once a token fails, the whole parse fails |
| PolyText.ParseZeroIffFails | computations/poly_parse_utils.py:9-41 | the result is 0 exactly for the empty string or a string with a bad token |
| PolyText.ParseBits | computations/poly_parse_utils.py:4-41 | bit j of the result is set exactly when some token names exponent j |
| PolyText.BitmaskToPolyStrLoop | computations/poly_parse_utils.py:44-58 | the loop from the highest power down builds the specified text |
| PolyText.TermsFromExps | computations/poly_parse_utils.py:50-57 | the terms written for a mask name exactly its set bits |
| PolyText.TermsFromClean | computations/poly_parse_utils.py:50-57 | each written term is non-empty, lower-case, without '+' or whitespace |
| PolyText.TermsFromNonempty | computations/poly_parse_utils.py:46-58 | a nonzero mask is written with at least one term |
| PolyText.TermsFromHasTop | computations/poly_parse_utils.py:49-51 | the highest set bit contributes a term |
| PolyText.WriteThenRead | computations/poly_parse_utils.py:4-58 | `parse_irreducible_poly_str(bitmask_to_poly_str(m)) == m` for every nonzero m of degree at most 2000 |
| PolyText.TokensOfJoin | computations/poly_parse_utils.py:12-58 | splitting `" + ".join(terms)` on '+' and stripping gives back the terms |
| PolyText.MaskOfTerms | computations/poly_parse_utils.py:16-57 | the written terms of m parse to m |
| PolyText.JoinLength | computations/poly_parse_utils.py:58 | the joined text is at least as long as its first term |
| PolyText.DetermineChoosesReadable | computations/poly_parse_utils.py:61-79 | a readable user text is kept stripped; otherwise the result is "0" without a default and otherwise reads back as the default polynomial, the same text `default_poly_str_for_n` gives |
| Text.LowerChar | registry.py:19-20 | `str.lower` on one character maps 'A'..'Z' to 'a'..'z' and keeps every other character |
| Text.Lower | computations/poly_parse_utils.py:12 | `lower()` keeps the length and lowers each character |
| Text.LowerIdempotent | registry.py:19-35 | lowering twice is lowering once, so keys stored lowered are found by a lowered lookup |
| Text.StripLeft | computations/poly_parse_utils.py:12 | the left strip removes a prefix made only of stripped characters and stops at the first other one |
| Text.StripRight | computations/poly_parse_utils.py:12 | the right strip keeps a prefix, removes a suffix of stripped characters and stops at the last other one |
| Text.StripKeeps | apn_interpolation.py:257 | `strip(chars)` never removes a character outside `chars` |
| Text.StripEach | apn_interpolation.py:258 | `[p.strip() for p in ...]` strips each piece and keeps their number |
| Text.LowerEach | computations/poly_parse_utils.py:12 | lowering each token keeps their number |
| Text.StripPadded | apn_interpolation.py:254 | stripping padding made of stripped characters leaves the text between |
| Text.StripEnds | apn_interpolation.py:254-257 | stripping leaves a text whose ends are not stripped characters |
| Text.StripAllIn | apn_interpolation.py:259 | a text made only of stripped characters strips to "" |
| Text.Find | vbf_object.py:35 | `str.find` gives -1 exactly when the character is absent, and otherwise its first position |
| Text.RFind | cli_commands/bulk_import_cmd.py:82-83 | `str.rfind` gives -1 exactly when the character is absent, and otherwise its last position |
| Text.Split | computations/poly_parse_utils.py:12 | `split(sep)` gives at least one piece and no piece contains the separator |
| Text.JoinSplit | apn_interpolation.py:258 | joining the pieces of `split(sep)` with sep gives back the text |
| Text.SplitJoin | computations/poly_parse_utils.py:12-58 | splitting a join of separator-free pieces gives back the pieces |
| Text.SplitPaddedJoin | computations/poly_parse_utils.py:12-58 | splitting a `" + "`-join on '+' and stripping each piece gives back the pieces |
| Text.RemoveChar | apn_invariants.py:21 | `replace(" ", "")` leaves no space and changes nothing in a text without one |
| Text.DigitChar | apn_interpolation.py:219 | each digit value has a digit character that reads back as it |
| Text.NatToString | apn_interpolation.py:219 | the decimal text of a natural number is all digits |
| Text.DigitsValueOfNatToString | apn_interpolation.py:262 | `int(str(k)) == k` for every natural k |
| Text.IntToString | apn_storage_pandas.py:29 | the text of an integer is non-empty and starts with '-' exactly for a negative one |
| Text.IntToStringInjective | storage_pandas.py:22-36 | distinct integers have distinct texts |
| Text.StrLessIrreflexive | registry.py:40 | Python's string order: no string is below itself |
| Text.StrLessTrans | registry.py:40 | Python's string order is transitive |
| Text.StrLessTotal | registry.py:40 | Python's string order is total |
| Text.LeastExists | registry.py:40 | every non-empty set of strings has a least element |
| Text.LeastUnique | registry.py:40 | that least element is unique |
| Text.SortedList | registry.py:40-48 | `sorted(keys)` lists every key once, and only keys, in strictly increasing order |
| Terms.Insert | storage_pandas.py:22 | inserting a term into a sorted list keeps it sorted and adds exactly that term |
| Terms.SortByKey | storage_pandas.py:22 | `sorted(terms, key=(t[0], t[1]))` is sorted by (coefficient exponent, monomial exponent) and a permutation of its input |
| Terms.SortedUnique | storage_pandas.py:22-36 | two sorted lists with the same terms are equal |
| Terms.HeadIsLeast | storage_pandas.py:22 | the head of a sorted list is its least term |
| Terms.SameHeads | storage_pandas.py:22-36 | sorted permutations of each other share their head |
| Terms.SameTails | storage_pandas.py:22-36 | and their tails are again sorted permutations of each other |
| Terms.TailSorted | storage_pandas.py:22 | the tail of a sorted list is sorted |
| Terms.SortByKeyIffPermutation | storage_pandas.py:22-36 | two term lists sort to the same list exactly when one is a permutation of the other, so the duplicate test compares polynomials as multisets of terms |
| Anf.FlipBits | c_src/invariants_computations.cpp:243-244 | `j ^ step` flips exactly bit i of j |
| Anf.XorCancelRight | c_src/invariants_computations.cpp:244 | `f[j] ^= v` applied twice with the same v restores f[j] |
| Anf.FlipFlip | c_src/invariants_computations.cpp:244 | flipping the same bit twice gives back the index |
| Anf.FlipCommute | c_src/invariants_computations.cpp:241-244 | flips of two bits commute |
| Anf.FlipBound | c_src/invariants_computations.cpp:244 | `j ^ step` stays below 2^n, so `f[j ^ step]` stays in the vector |
| Anf.FlipDown | c_src/invariants_computations.cpp:243-244 | when bit i of j is set, `j ^ step` is j - 2^i, an index the pass has not yet changed |
| Anf.XorSwapMiddle | c_src/invariants_computations.cpp:244 | XOR of four values may be regrouped |
| Anf.Pass | c_src/invariants_computations.cpp:242-246 | one pass of the butterfly with step 2^i keeps the length and sets entry m to its specified value |
| Anf.Transform | c_src/invariants_computations.cpp:238-248 | the first k passes keep the length |
| Anf.Dim | c_src/invariants_computations.cpp:240-241 | the number of passes n is the one with 2^n <= size < 2^(n+1) |
| Anf.Mobius | c_src/invariants_computations.cpp:238-248 | the ANF transform keeps the length |
| Anf.PassInvolution | c_src/invariants_computations.cpp:242-246 | one pass undoes itself |
| Anf.PassCommuteAt | c_src/invariants_computations.cpp:241-246 | passes with different steps agree entrywise in either order |
| Anf.PassCommute | c_src/invariants_computations.cpp:241-246 | passes with different steps commute |
| Anf.TransformPassCommute | c_src/invariants_computations.cpp:241-246 | a later pass commutes with the first k passes |
| Anf.TransformInvolution | c_src/invariants_computations.cpp:238-248 | the first k passes applied twice are the identity |
| Anf.MobiusInvolution | c_src/invariants_computations.cpp:238-248 | the ANF transform is its own inverse: truth table to ANF and back |
| Anf.TransformBits | c_src/invariants_computations.cpp:238-248 | the transform of a 0/1 vector is a 0/1 vector |
| Anf.MaxWeight | c_src/invariants_computations.cpp:268-286 | the largest weight of an index with a nonzero coefficient bounds every such weight and is attained |
| Anf.TopWeight | c_src/invariants_computations.cpp:270-284 | the weight of the highest index holding a 1, as the scan from the top finds it |
| Anf.Component | c_src/invariants_computations.cpp:258-263 | coordinate c of the LUT is the 0/1 vector of bit c of each output |
| Anf.MaxWeightBound | c_src/invariants_computations.cpp:250-288 | no index below 2^n has weight above n |
| Anf.DimOfPow2 | c_src/invariants_computations.cpp:240-241 | a vector of size 2^n gets n passes |
| Anf.BitLengthOfPow2 | c_src/invariants_computations.cpp:241 | 2^n has bit length n + 1 |
| Anf.TransformZero | c_src/invariants_computations.cpp:238-248 | the all-zero vector transforms to itself |
| Anf.Largest | c_src/invariants_computations.cpp:268-286 | the maximum of the coordinate degrees bounds each and is one of them (0 for none) |
| Anf.CoordDegrees | c_src/invariants_computations.cpp:258-286 | the degree of each coordinate, one per coordinate |
| Anf.AlgebraicDegreeBound | c_src/invariants_computations.cpp:250-288 | the algebraic degree of an n-bit function is at most n |
| Anf.ZeroDegree | c_src/invariants_computations.cpp:250-288 | the zero function has degree 0 |
| CppAnf.PassInPlace | c_src/invariants_computations.cpp:242-246 | the in-place pass over j with step 2^i leaves the array equal to the specified pass of its old contents |
| CppAnf.ComputeAnfInPlace | c_src/invariants_computations.cpp:238-248 | `compute_anf_bool_inplace` leaves the array equal to the ANF transform of its old contents |
| CppAnf.FillCoordinate | c_src/invariants_computations.cpp:258-263 | `anf[c]` is filled with bit c of each LUT output |
| CppAnf.Bitcount | c_src/invariants_computations.cpp:274-279 | the shift-and-add loop computes the popcount |
| CppAnf.ScanHighestOne | c_src/invariants_computations.cpp:270-284 | the scan from i = sz-1 down finds a 1 exactly when the coordinate has one, and gives the weight of the highest such index |
| CppAnf.RaiseToCoordinate | c_src/invariants_computations.cpp:280-282 | `max_deg` becomes the larger of itself and the coordinate's weight |
| CppAnf.TopCoordDegrees | c_src/invariants_computations.cpp:268-286 | the weights the C scan takes, one per coordinate |
| CppAnf.LargestSnoc | c_src/invariants_computations.cpp:268-286 | the running maximum over one more coordinate |
| CppAnf.HighestWeights | c_src/invariants_computations.cpp:268-286 | the scanned weight of each coordinate's ANF |
| CppAnf.WeightsStep | c_src/invariants_computations.cpp:268-286 | one more coordinate raises the maximum to its weight |
| CppAnf.WeightsAreTopDegrees | c_src/invariants_computations.cpp:250-286 | the weights of the computed ANFs are the C scan's weights of the LUT's coordinates |
| CppAnf.CoordinateAnfs | c_src/invariants_computations.cpp:256-265 | `anf[c]` is the ANF of coordinate c for every c < n |
| CppAnf.MaxHighestWeight | c_src/invariants_computations.cpp:267-287 | the second loop returns the largest scanned weight |
| CppAnf.AlgebraicDegreeMv | c_src/invariants_computations.cpp:250-288 | `compute_algebraic_degree_mv` as written: the largest weight of each coordinate's highest ANF index |
| CppAnf.IsQuadratic | c_src/invariants_computations.cpp:301-305 | `is_quadratic` is true exactly when that value is 2 |
| CppAnf.HighestBelowHeaviest | c_src/invariants_computations.cpp:270-284 | the weight of the highest index is at most the true degree of the coordinate |
| CppAnf.LargestMonotone | c_src/invariants_computations.cpp:268-286 | the maximum is monotone entrywise |
| CppAnf.CppDegreeBelow | c_src/invariants_computations.cpp:250-288 | the C value never exceeds the true algebraic degree |
| CppAnf.PassFromEntries | c_src/invariants_computations.cpp:242-246 | a pass is determined by its entries |
| CppAnf.QuadraticLutPass0 | c_src/invariants_computations.cpp:242-246 | pass 1 on coordinate 0 of the worked example LUT [0,0,0,1,1,1,1,0] |
| CppAnf.QuadraticLutPass1 | c_src/invariants_computations.cpp:242-246 | pass 2 of the worked example |
| CppAnf.QuadraticLutPass2 | c_src/invariants_computations.cpp:242-246 | pass 3 of the worked example |
| CppAnf.QuadraticLutAnf | c_src/invariants_computations.cpp:238-248 | coordinate 0 of the example has ANF x0*x1 + x2, with ones at indices 3 and 4 |
| CppAnf.QuadraticLutZeroCoordinates | c_src/invariants_computations.cpp:238-248 | the other coordinates of the example have zero ANF |
| CppAnf.QuadraticLutWeights | c_src/invariants_computations.cpp:270-284 | the highest 1 of that ANF (index 4) has weight 1 while its degree is 2 |
| CppAnf.ZeroWeights | c_src/invariants_computations.cpp:270-284 | a zero ANF has weight and degree 0 |
| CppAnf.QuadraticLutCoordinate0 | c_src/invariants_computations.cpp:268-286 | coordinate 0 scans to 1 but has degree 2 |
| CppAnf.QuadraticLutOtherCoordinates | c_src/invariants_computations.cpp:268-286 | the other coordinates scan to 0 and have degree 0 |
| CppAnf.DegreesOfQuadraticLut | c_src/invariants_computations.cpp:250-288 | a function with those coordinates gets 1 from the C code but has degree 2 |
| CppAnf.HighestIndexMissesDegree | c_src/invariants_computations.cpp:270-284 | the quadratic example: the C code returns 1, the algebraic degree is 2, so `is_quadratic` answers false |
| CppAnf.ScanHeaviestOne | c_src/invariants_computations.cpp:268-286 | corrected scan: visits every index and keeps the heaviest weight holding a 1 |
| CppAnf.Degrees | c_src/invariants_computations.cpp:268-286 | the true degree of each coordinate's ANF |
| CppAnf.DegreesStep | c_src/invariants_computations.cpp:268-286 | one more coordinate raises the maximum to its degree |
| CppAnf.MaxHeaviestWeight | c_src/invariants_computations.cpp:267-287 | the corrected second loop returns the largest coordinate degree |
| CppAnf.DegreesAreCoordDegrees | c_src/invariants_computations.cpp:250-286 | the degrees of the computed ANFs are the coordinate degrees of the LUT |
| CppAnf.AnfsAreBits | c_src/invariants_computations.cpp:238-265 | every computed ANF is a 0/1 vector |
| CppAnf.AlgebraicDegreeMvCorrected | c_src/invariants_computations.cpp:250-288 | the corrected computation returns the algebraic degree |
| CppAnf.AffineQuadraticTestsDisagree | c_src/invariants_computations.cpp:301-305 | on functions of degree at most 1 the two computations cannot claim quadratic |
| CppField.StepBound | c_src/invariants_computations.cpp:355-360 | for a polynomial of degree n, one antilog step keeps an n-bit value n-bit |
| CppField.AlogBound | c_src/invariants_computations.cpp:353-362 | for a polynomial of degree n every antilog entry is below 2^n |
| CppField.DegreeFits | c_src/invariants_computations.cpp:353-367 | for a polynomial of degree n every `logtbl[v]` write lands inside the table |
| CppField.UndefinedContext | c_src/invariants_computations.cpp:353-367 | with n = 2 and poly = 1 the antilog reaches 4 and the log loop writes `logtbl[4]` past a 4-entry vector: the build is undefined |
| CppField.LastLog | c_src/invariants_computations.cpp:364-367 | the log entry of v is the last i with `alogtbl[i] == v`, or 0 |
| CppField.MulOfBound | c_src/invariants_computations.cpp:371-379 | `gf_mul` of a well-built context is below 2^n |
| CppField.PowOfBound | c_src/invariants_computations.cpp:380-389 | `gf_pow` of a well-built context is below 2^n |
| CppField.GF2nCtx.constructor | c_src/invariants_computations.cpp:342-346 | the context has n, poly and size 2^n, the antilog table as specified, and is well defined exactly when every log write stays inside the table |
| CppField.GF2nCtx.FillAntilog | c_src/invariants_computations.cpp:353-362 | after the first loop of `build_tables` every `alogtbl[i]` holds its specified value, 0 past size - 2 |
| CppField.GF2nCtx.WriteNext | c_src/invariants_computations.cpp:355-361 | one step writes the next antilog entry |
| CppField.GF2nCtx.FillLog | c_src/invariants_computations.cpp:364-367 | the second loop completes exactly when every antilog entry indexes the log table, and then leaves the tables consistent |
| CppField.GF2nCtx.Mul | c_src/invariants_computations.cpp:371-379 | `gf_mul` through the tables returns the specified product |
| CppField.GF2nCtx.Pow | c_src/invariants_computations.cpp:380-389 | `gf_pow` through the tables returns the specified power, with 0^0 = 1 and 0^d = 0 |
| CppField.StepIsXTime | c_src/invariants_computations.cpp:355-360 | the shift-and-reduce step is multiplication by x in GF(2)[x]/(poly) |
| CppField.MulByTwo | c_src/invariants_computations.cpp:351 | multiplying by the element 0x2 is that same step |
| CppField.AlogIsGeneratorPower | c_src/invariants_computations.cpp:353-362 | `alogtbl[i]` is 2^i in the field |
| CppField.PrimitiveExample | c_src/invariants_computations.cpp:349-352 | x^2 + x + 1 is primitive: its antilog table runs through every nonzero element |
| CppField.LastLogKeeps | c_src/invariants_computations.cpp:364-367 | for a primitive polynomial a later write never overwrites an earlier log entry |
| CppField.LogOfAlog | c_src/invariants_computations.cpp:364-367 | for a primitive polynomial `logtbl[alogtbl[i]] == i` |
| CppField.AlogOfLog | c_src/invariants_computations.cpp:364-367 | for a primitive polynomial `alogtbl[logtbl[v]] == v` for every nonzero v |
| CppField.MulOfOne | c_src/invariants_computations.cpp:371-379 | 1 is the unit of `gf_mul` for a primitive polynomial |
| CppField.PowOfOne | c_src/invariants_computations.cpp:380-389 | 1^d = 1 |
| CppField.PowOfZero | c_src/invariants_computations.cpp:380-389 | 0^d for d > 0 annihilates in `gf_mul` |
| CppField.CandidateSolves | c_src/invariants_computations.cpp:420-440 | the candidate coefficient a = diff * x^(size-1-d) satisfies a * x^d = diff for a primitive polynomial |
| CppField.PowOfLog | c_src/invariants_computations.cpp:386-388 | `gf_pow` is the antilog of lx * d mod (size - 1) |
| CppField.PowersCancel | c_src/invariants_computations.cpp:371-389 | products of antilog entries whose exponents sum back to ld give the antilog of ld |
| CppField.MulOfPowers | c_src/invariants_computations.cpp:371-379 | `gf_mul` of two antilog entries adds their exponents mod size - 1 |
| CppField.ExponentsCancel | c_src/invariants_computations.cpp:371-389 | the exponent arithmetic behind the candidate check: (size-1-d) and d add to a multiple of size - 1 |
| CppField.RemaindersCancel | c_src/invariants_computations.cpp:371-389 | exponents that add to a multiple of m cancel modulo m |
| CppMonomial.FirstPowHit | c_src/invariants_computations.cpp:422-424 | the first x from the given start with x^d != 0, or none when every later power is 0 |
| CppMonomial.AllSame | c_src/invariants_computations.cpp:403-416 | the constant-function loop answers true exactly when every LUT entry equals `LUT[0]` |
| CppMonomial.CheckCandidate | c_src/invariants_computations.cpp:435-447 | the check over all xx succeeds exactly when `LUT[xx] == b ^ a * xx^d` for every xx |
| CppMonomial.TryExponent | c_src/invariants_computations.cpp:419-458 | one pass of the d loop returns its specified outcome: a verdict, or undefined |
| CppMonomial.SolveAndCheck | c_src/invariants_computations.cpp:425-448 | solving at x and checking is defined exactly when the `logtbl[diff]` read is in range, and then says whether the candidate fits |
| CppMonomial.SolveCoefficient | c_src/invariants_computations.cpp:426-433 | the candidate a is 0 when diff = 0, is `diff * x^(sz-1-d)` otherwise, and is undefined when diff indexes past the log table |
| CppMonomial.TryExponents | c_src/invariants_computations.cpp:419-460 | the d loop returns its specified outcome over d = 0 .. sz-2 |
| CppMonomial.IsMonomialImpl | c_src/invariants_computations.cpp:391-461 | `is_monomial_impl` returns the specified verdict: false for poly 0 or n > 16, undefined when the tables or a read fall outside their vectors, and otherwise the affine monomial test |
| CppMonomial.MapOutcome | c_src/invariants_computations.cpp:419-458 | for a LUT whose values are n-bit no read is out of range, and the outcome of exponent d is whether it fits |
| CppMonomial.MapExponents | c_src/invariants_computations.cpp:419-460 | for such a LUT the d loop is defined and says whether some exponent from d up fits |
| CppMonomial.FitsFromStep | c_src/invariants_computations.cpp:419-460 | some exponent from d up fits exactly when d fits or one from d+1 up fits |
| CppMonomial.MapVerdict | c_src/invariants_computations.cpp:391-461 | for an n-bit LUT and a well-built context the verdict is defined and equals the monomial test |
| CppMonomial.UndefinedRead | c_src/invariants_computations.cpp:426-433 | the LUT [0,5,0,0] with n = 2 and poly 7 reaches `logtbl[5]` on a 4-entry vector |
| CppMonomial.MonomialSound | c_src/invariants_computations.cpp:391-461 | a LUT the test accepts is F(x) = b + a * x^d with a != 0 in the field of poly |
| CppMonomial.MonomialComplete | c_src/invariants_computations.cpp:391-461 | for a primitive polynomial every F(x) = c + a * x^d with a != 0 and 1 <= d < 2^n - 1 is accepted |
| CppFunction.Pow2IsPow2 | c_src/invariants_computations.cpp:50-59 | every 2^e is a power of two |
| CppFunction.LutDimension | c_src/invariants_computations.cpp:50-59 | `lut_dimension` returns log2 of a power of two and 0 for every other length |
| CppFunction.Halve | c_src/invariants_computations.cpp:53-56 | halving the length while counting n keeps rest * 2^n fixed |
| CppFunction.Table | c_src/invariants_computations.cpp:34-40 | the first 2^n LUT entries, the part the computations read |
| CppFunction.CreateFunctionFromTruthTableAndPoly | c_src/invariants_computations.cpp:87-106 | no handle for a missing or empty table; otherwise the LUT and polynomial are stored and n is log2 of a power-of-two length and 0 otherwise |
| CppFunction.CreateFunctionFromTruthTable | c_src/invariants_computations.cpp:64-85 | the same with polynomial 0 |
| CppFunction.CreatedCovers | c_src/invariants_computations.cpp:64-106 | every created function has at least 2^n LUT entries |
| CppFunction.NonPowerOfTwoAccepted | c_src/invariants_computations.cpp:71-75 | the `(1U << n) == 0` guard never fires: a 3-entry table is accepted as a 1-entry function |
| CppFunction.CreateFunctionChecked | c_src/invariants_computations.cpp:64-106 | corrected creation: no handle exactly for a missing table or a length that is not a power of two, and the stored LUT is exactly 2^n long |
| CppFunction.Cell | c_src/invariants_computations.cpp:130-137 | `a * sz + b` is inside the sz * sz table for a, b < sz |
| CppFunction.CellDistinct | c_src/invariants_computations.cpp:130-137 | distinct (a, b) give distinct cells |
| CppFunction.NarrowLength | c_src/invariants_computations.cpp:127 | for n <= 15 the 32-bit `sz * sz` does not wrap |
| CppFunction.WideLength | c_src/invariants_computations.cpp:127 | for n >= 16 the 32-bit `sz * sz` wraps to 0 |
| CppFunction.WrittenRowMax | c_src/invariants_computations.cpp:136-141 | the maximum over b of the counts the loop reads for row a, attained |
| CppFunction.WrittenMax | c_src/invariants_computations.cpp:135-142 | the maximum over a >= 1 and b, attained |
| CppFunction.WrittenUniformity | c_src/invariants_computations.cpp:123-148 | what `differential_uniformity` returns from the table it wrote: the attained maximum over a != 0, and 0 for n = 0 |
| CppFunction.SpotsFitNarrow | c_src/invariants_computations.cpp:127-131 | when every write lands inside the table, n <= 15 |
| CppFunction.SpotsFitZero | c_src/invariants_computations.cpp:125 | n = 0 writes nothing |
| CppFunction.CountedStep | c_src/invariants_computations.cpp:130 | one increment counts one more a for input x |
| CppFunction.AddInputFlat | c_src/invariants_computations.cpp:128-132 | the inner loop for x stays inside the table exactly when every cell it writes exists, and then counts x |
| CppFunction.FlatDdt | c_src/invariants_computations.cpp:127-133 | the table is allocated with the 32-bit product sz * sz cells; the counting loops finish exactly when every write lands inside it, and then each cell counts its hits |
| CppFunction.FillFlat | c_src/invariants_computations.cpp:128-133 | the loop over x runs to the end exactly when every increment of every input lands inside the table, and then each cell counts the hits of all inputs |
| CppFunction.FlatMax | c_src/invariants_computations.cpp:136-145 | the reading loops return the largest written cell over the rows a != 0 |
| CppFunction.FlatRowMax | c_src/invariants_computations.cpp:136-141 | the inner max loop raises `max_count` to the row's maximum |
| CppFunction.DifferentialUniformity | c_src/invariants_computations.cpp:123-148 | defined exactly when every write lands inside the 32-bit-sized table, then the maximum the loop reads; for n-bit LUT values and n <= 15 that is the differential uniformity |
| CppFunction.RowsRead | c_src/invariants_computations.cpp:135-142 | the filled table holds each row's counts |
| CppFunction.IsApn | c_src/invariants_computations.cpp:149-152 | `is_apn` is defined where the DU is and says it equals 2; for n-bit values and n <= 15, APN means uniformity 2 |
| CppFunction.RowHitsCell | c_src/invariants_computations.cpp:128-131 | for n-bit values, input x adds 1 to cell (a, b) exactly when `LUT[x] ^ LUT[x ^ a] == b` |
| CppFunction.SpotIsCell | c_src/invariants_computations.cpp:129-130 | for n-bit values the written index is the cell (a, out_diff) inside the table |
| CppFunction.HitsCount | c_src/invariants_computations.cpp:127-133 | for n-bit values cell (a, b) ends holding the DDT entry |
| CppFunction.WrittenRowMatches | c_src/invariants_computations.cpp:136-141 | the read row maximum is the DDT row maximum |
| CppFunction.WrittenMaxMatches | c_src/invariants_computations.cpp:135-142 | the read maximum is the DDT maximum over a != 0 |
| CppFunction.WrittenIsUniformity | c_src/invariants_computations.cpp:123-148 | for n-bit values and n <= 15 the C result is the differential uniformity |
| CppFunction.WideUndefined | c_src/invariants_computations.cpp:127-130 | for n >= 16 the zero-length table makes the first write undefined |
| Triplicate.DefaultsDifferFromPrimitive | c_src/check_lin_eq_2x_uniform_3to1.c:66-89 | the field the triplicate check uses is not the interpolation's default field for n = 3, 6 and 10 (13, 67, 1033 against 0xB, 0x5B, 0x46F), while for n = 8 both use 0x11D |
| Triplicate.PrimitivePolynomialDegree | c_src/check_lin_eq_2x_uniform_3to1.c:66-95 | for 1 <= d <= 20 the table's polynomial has degree d, and the lookup gives 0 outside that range |
| Triplicate.FfMul | c_src/check_lin_eq_2x_uniform_3to1.c:97-112 | the masked product is below 2^dimension |
| Triplicate.FfStepIsXTime | c_src/check_lin_eq_2x_uniform_3to1.c:106-108 | the carry-shift-reduce step is multiplication by x modulo pp |
| Triplicate.FfLoopAgrees | c_src/check_lin_eq_2x_uniform_3to1.c:101-109 | the first k rounds of the C loop agree with the Python slow multiplication's loop |
| Triplicate.FfMulAgrees | c_src/check_lin_eq_2x_uniform_3to1.c:97-112 | `vbf_tt_ff_multiply` computes the same product as `_gf_mul_slow` for a reduced a and a polynomial of that degree |
| Triplicate.FfMultiply | c_src/check_lin_eq_2x_uniform_3to1.c:97-112 | the loop returns the specified product, which is the field product for a reduced a |
| Triplicate.Beta | c_src/check_lin_eq_2x_uniform_3to1.c:114-156 | the beta for each accepted dimension is an element of the field |
| Triplicate.Start | c_src/check_lin_eq_2x_uniform_3to1.c:137-165 | the scan starts with every nonzero input pending, an empty output table and no triples |
| Triplicate.Partner | c_src/check_lin_eq_2x_uniform_3to1.c:182 | k = i * beta is an element of the field |
| Triplicate.Third | c_src/check_lin_eq_2x_uniform_3to1.c:191-194 | k ^ i is an element of the field |
| Triplicate.Record | c_src/check_lin_eq_2x_uniform_3to1.c:177-196 | recording a triple keeps the scan state's shape |
| Triplicate.CanonicalVerdict | c_src/check_lin_eq_2x_uniform_3to1.c:119-207 | the verdict is true exactly for a canonical triplicate |
| Triplicate.OutcomeVerdict | c_src/check_lin_eq_2x_uniform_3to1.c:167-206 | an accepted scan answers true, a rejected one false, and an output indexing past `ol` is undefined |
| Triplicate.StartTracked | c_src/check_lin_eq_2x_uniform_3to1.c:163-166 | the scan invariant holds before i = 1 |
| Triplicate.SkipKeeps | c_src/check_lin_eq_2x_uniform_3to1.c:168 | skipping an input already in a triple keeps the invariant |
| Triplicate.RecordKeeps | c_src/check_lin_eq_2x_uniform_3to1.c:169-196 | recording the triple of input i keeps the invariant |
| Triplicate.ScanKeeps | c_src/check_lin_eq_2x_uniform_3to1.c:167-198 | an accepted scan ends with the invariant at 2^n |
| Triplicate.TriplicateSound | c_src/check_lin_eq_2x_uniform_3to1.c:119-207 | when the check succeeds, each recorded triple {i, k, k^i} shares one output, the triples are disjoint, they cover every nonzero input, and 0 is the only input mapped to 0 |
| Triplicate.TriplicatedAdmits | c_src/check_lin_eq_2x_uniform_3to1.c:169-190 | for a triplicated function every pending input passes the three tests |
| Triplicate.TriplicatedStep | c_src/check_lin_eq_2x_uniform_3to1.c:167-197 | for such a function each step keeps the invariant |
| Triplicate.ScanTotal | c_src/check_lin_eq_2x_uniform_3to1.c:167-198 | for such a function the scan is accepted |
| Triplicate.TriplicateComplete | c_src/check_lin_eq_2x_uniform_3to1.c:119-207 | every function whose nonzero inputs fall into beta-triples {i, i*beta, i*beta^i} sharing one output, with 0 alone mapped to 0, passes the check |
| Triplicate.CountPending | c_src/check_lin_eq_2x_uniform_3to1.c:163-165 | the number of pending inputs is at most the table size |
| Triplicate.CountClear | c_src/check_lin_eq_2x_uniform_3to1.c:180-195 | clearing a pending input lowers the count by one |
| Triplicate.CountNone | c_src/check_lin_eq_2x_uniform_3to1.c:198 | nothing pending counts 0 |
| Triplicate.AllSettled | c_src/check_lin_eq_2x_uniform_3to1.c:167-198 | after the scan nothing is pending |
| Triplicate.CountStart | c_src/check_lin_eq_2x_uniform_3to1.c:163-165 | 2^n - 1 inputs are pending at the start |
| Triplicate.Pow2Mod3 | c_src/check_lin_eq_2x_uniform_3to1.c:124-137 | for even n, 2^n - 1 is divisible by 3, so tN = (N-1)/3 is exact |
| Triplicate.StartTallied | c_src/check_lin_eq_2x_uniform_3to1.c:163-166 | the counting invariant holds at the start |
| Triplicate.XorOfDistinct | c_src/check_lin_eq_2x_uniform_3to1.c:194 | for distinct nonzero k and i, k ^ i is nonzero and differs from both |
| Triplicate.AdmittedPartner | c_src/check_lin_eq_2x_uniform_3to1.c:182-190 | when F(0) = 0 and input i passes, its partner k is neither 0 nor i |
| Triplicate.AdmittedArePending | c_src/check_lin_eq_2x_uniform_3to1.c:182-195 | the three members of an admitted triple are distinct and all still pending |
| Triplicate.RecordTallied | c_src/check_lin_eq_2x_uniform_3to1.c:177-196 | recording a triple clears three pending inputs and adds one triple |
| Triplicate.RoomForTriple | c_src/check_lin_eq_2x_uniform_3to1.c:137-179 | while an input is pending, j < tN, so the writes to `t` stay inside it |
| Triplicate.TalliedStep | c_src/check_lin_eq_2x_uniform_3to1.c:167-197 | each step of an accepted scan keeps the counting invariant |
| Triplicate.ScanTallies | c_src/check_lin_eq_2x_uniform_3to1.c:167-198 | an accepted scan ends with the counting invariant |
| Triplicate.TriplicateCount | c_src/check_lin_eq_2x_uniform_3to1.c:137-197 | a canonical triplicate has exactly (2^n - 1)/3 triples |
| Triplicate.CanonicalIsMap | c_src/check_lin_eq_2x_uniform_3to1.c:167-198 | an accepted table maps into the field |
| Triplicate.ScanInTable | c_src/check_lin_eq_2x_uniform_3to1.c:171-176 | for an n-bit table no `ol[Fi]` read leaves the table |
| Triplicate.MapVerdict | c_src/check_lin_eq_2x_uniform_3to1.c:119-207 | for an n-bit table the verdict is defined and says whether it is a canonical triplicate |
| Triplicate.Advance | c_src/check_lin_eq_2x_uniform_3to1.c:167-197 | one step keeps the state's shape |
| Triplicate.Rejects | c_src/check_lin_eq_2x_uniform_3to1.c:170-190 | a pending input that fails a test rejects the table |
| Triplicate.Leaves | c_src/check_lin_eq_2x_uniform_3to1.c:170-176 | a pending input with a nonzero output at or past N reads outside `ol` |
| Triplicate.AdvanceKeeps | c_src/check_lin_eq_2x_uniform_3to1.c:167-197 | a step that does not reject keeps the counting invariant |
| Triplicate.ScanEnds | c_src/check_lin_eq_2x_uniform_3to1.c:167 | the scan accepts at i = N |
| Triplicate.ScanAccepts | c_src/check_lin_eq_2x_uniform_3to1.c:119-207 | an accepted scan makes the table a canonical triplicate with (2^n - 1)/3 triples |
| Triplicate.LaidRecord | c_src/check_lin_eq_2x_uniform_3to1.c:177-195 | the four writes `t[m*tN + j]` lay out the new triple in column m |
| Triplicate.LaidExtend | c_src/check_lin_eq_2x_uniform_3to1.c:177-195 | the layout of triples in `t` extends by one |
| Triplicate.TriplicateTables.constructor | c_src/check_lin_eq_2x_uniform_3to1.c:227-229 | a fresh `triplicate` holds no tables |
| Triplicate.TriplicateTables.Visit | c_src/check_lin_eq_2x_uniform_3to1.c:168-196 | one iteration of the loop: rejects, faults or advances exactly as the scan specifies |
| Triplicate.TriplicateTables.Step | c_src/check_lin_eq_2x_uniform_3to1.c:168-196 | faults exactly for an output at or past N, rejects exactly when a test fails, and otherwise advances the state |
| Triplicate.TriplicateTables.OpenTriple | c_src/check_lin_eq_2x_uniform_3to1.c:177-195 | writes the triple of input i and rejects exactly when the partner test fails |
| Triplicate.TriplicateTables.WriteHead | c_src/check_lin_eq_2x_uniform_3to1.c:177-180 | `ol[Fi] = j+1`, the first two columns and `c[i] = 0` |
| Triplicate.TriplicateTables.WriteTail | c_src/check_lin_eq_2x_uniform_3to1.c:191-195 | the last two columns and `c[k] = c[k^i] = 0` |
| Triplicate.TriplicateTables.IsCanonicalTriplicateInternal | c_src/check_lin_eq_2x_uniform_3to1.c:119-207 | `is_canonical_triplicate_internal` returns the verdict, touches nothing for a rejected dimension or F(0) != 0, and on success leaves `ol` and `t` holding the scan's tables |
| Triplicate.TriplicateTables.Build | c_src/check_lin_eq_2x_uniform_3to1.c:137-206 | allocates the tables and returns the verdict for an accepted dimension with F(0) = 0 |
| Triplicate.TriplicateTables.ScanAll | c_src/check_lin_eq_2x_uniform_3to1.c:163-198 | the loop over i returns the verdict of the specified scan |
| Triplicate.CheckIsCanonicalTriplicate | c_src/check_lin_eq_2x_uniform_3to1.c:213-233 | `check_is_canonical_triplicate` returns the verdict; for an n-bit table, whether it is a canonical triplicate |
| Triplicate.RunAlg1EquivalenceTest | c_src/check_lin_eq_2x_uniform_3to1.c:625-699 | false for different dimensions or when either function is not a canonical triplicate, and otherwise the search's answer |
| KToOne.Count | c_src/invariants_computations.cpp:188-197 | the number of inputs below k mapped to v is at most k |
| KToOne.CountPositive | c_src/invariants_computations.cpp:188-197 | v is counted at least once exactly when some input below k maps to it |
| KToOne.CountSumStep | c_src/invariants_computations.cpp:188-197 | counting one more input adds 1 to the sum exactly when its output is below s |
| KToOne.CountSumAll | c_src/invariants_computations.cpp:188-197 | when every output is below s, the counts below s add up to the number of inputs |
| KToOne.CountSumNone | c_src/invariants_computations.cpp:188-197 | no input counts 0 |
| KToOne.CountSumOfUniform | c_src/invariants_computations.cpp:205-222 | when every nonzero output hit has count j, the counts add up to the count of 0 plus j per output hit |
| KToOne.CountOutputs | c_src/invariants_computations.cpp:188-197 | the frequency loop runs to the end exactly when every output is below 2^n, and then `freq[v]` is the number of preimages of v |
| KToOne.FirstHit | c_src/invariants_computations.cpp:205-212 | k is -1 exactly when no nonzero output is hit, and otherwise the count of the first output hit |
| KToOne.AllCountsAre | c_src/invariants_computations.cpp:218-222 | the check succeeds exactly when every nonzero output hit has count k |
| KToOne.ComputeKToOne | c_src/invariants_computations.cpp:173-225 | for n = 0 the answer is 1 or -1 by `LUT[0]`; otherwise a k != -1 is positive and the function is k-to-1 with 0 mapped once, and -1 means no k fits |
| KToOne.KToOneDivides | c_src/invariants_computations.cpp:173-225 | a k the C code answers divides 2^n - 1 |
| KToOne.Divides | c_src/invariants_computations.cpp:173-225 | x = k * h is divisible by k |
| KToOne.NonzeroFrom | apn_properties.py:51-54 | the first index from i with a nonzero output, or none when all later outputs are 0 |
| KToOne.CountsFrom | apn_properties.py:58-59 | every nonzero output from i on occurs k times |
| KToOne.KToOneLabelMeans | apn_properties.py:49-68 | the label is "non-uniform" exactly when no k makes every nonzero output occur k times with one occurring, and otherwise "<k>-to-1" for that k |
| KToOne.CppKToOneIsUniform | apn_properties.py:49-68 | where the C code answers k, the Python rule answers "<k>-to-1" |
| KToOne.ZeroTwiceDisagrees | c_src/invariants_computations.cpp:199-202 | the converse fails on output 0: [0, 0, 1, 1] is "2-to-1" for the Python rule and -1 for the C code, which requires 0 to have one preimage |
| Spectra.DotStep | c_src/spectra_computations.c:21-31 | the dot product is the XOR of the low bits' product and the dot product of the rest |
| Spectra.DotBits | c_src/spectra_computations.c:21-31 | the `dot_bits` loop computes the GF(2) dot product of the two bit vectors |
| Spectra.DotZero | c_src/spectra_computations.c:21-31 | the dot product with 0 is false |
| Spectra.DotComm | c_src/spectra_computations.c:21-31 | the dot product is symmetric |
| Spectra.DotXor | c_src/spectra_computations.c:21-31 | the dot product is linear: v . (x ^ y) = v . x ^ v . y |
| Spectra.FirstOrthogonal | c_src/spectra_computations.c:56-73 | the first candidate from v0 orthogonal to every derivative at a, with every smaller candidate not orthogonal, or 0 when none is |
| Spectra.OdEntry | c_src/spectra_computations.c:54-78 | each orthoderivative entry is an n-bit word |
| Spectra.Orthoderivative | c_src/spectra_computations.c:38-81 | the orthoderivative maps n-bit words to n-bit words |
| Spectra.OrthoderivativeMeans | c_src/spectra_computations.c:38-81 | od(0) = 0; for a != 0 a nonzero od(a) is the least v with v . (F(0)^F(a)^F(x)^F(x^a)) = 0 for every x, and od(a) = 0 exactly when no v >= 1 is |
| Spectra.IsOrthogonal | c_src/spectra_computations.c:57-67 | the x loop succeeds exactly when the candidate is orthogonal to every derivative at a |
| Spectra.FindOrthogonal | c_src/spectra_computations.c:55-77 | the candidate loop finds the specified entry |
| Spectra.ComputeOrthoderivative | c_src/spectra_computations.c:38-81 | `compute_orthoderivative` returns a fresh table holding the orthoderivative |
| Spectra.Spectrum | c_src/spectra_computations.c:112-117 | the tally has one counter per value 0..N |
| Spectra.TotalOfSpectrum | c_src/spectra_computations.c:101-118 | the counters add up to the number of tallied values |
| Spectra.HistogramSumRow | c_src/spectra_computations.c:112-117 | tallying one more row adds that row's values |
| Spectra.HistogramSumAll | c_src/spectra_computations.c:112-117 | rows of L values, all in range, tally to r * L |
| Spectra.HistogramSumNone | c_src/spectra_computations.c:92 | no row tallies 0 |
| Spectra.SpectrumTotal | c_src/spectra_computations.c:101-118 | the spectrum of rows of L in-range values totals rows * L |
| Spectra.Hits | c_src/spectra_computations.c:106-109 | the number of x below k with `od[x] ^ od[x^a] == c` is at most k |
| Spectra.Solutions | c_src/spectra_computations.c:103-109 | `solutions` has N counters, each at most N |
| Spectra.SolutionRows | c_src/spectra_computations.c:101-118 | one row of solutions per a = 1 .. N-1 |
| Spectra.DifferentialSpectrum | c_src/spectra_computations.c:86-122 | the ODDS has N + 1 counters |
| Spectra.DifferentialSpectrumTotal | c_src/spectra_computations.c:86-122 | the ODDS counters add up to (2^n - 1) * 2^n: no value is dropped by the `freq <= N` guard |
| Spectra.ZeroPrefix | c_src/spectra_computations.c:92-103 | `memset` zeroes the first k counters and keeps the rest |
| Spectra.CountSolutions | c_src/spectra_computations.c:103-109 | the x loop fills `solutions` with the number of x hitting each value |
| Spectra.TallyRow | c_src/spectra_computations.c:112-117 | the tally loop adds one row's counts to `spectrum_counts[0..N]` and nothing else |
| Spectra.ComputeDifferentialSpectrum | c_src/spectra_computations.c:86-122 | `compute_differential_spectrum` leaves the ODDS of the orthoderivative in `spectrum_counts[0..N]` and the rest unchanged |
| Spectra.TallyAllRows | c_src/spectra_computations.c:101-118 | the a loop leaves each counter equal to the histogram over all rows |
| Spectra.Walsh | c_src/spectra_computations.c:125-132 | a sum of k terms of +1 and -1 lies in [-k, k] |
| Spectra.NegativeCount | c_src/spectra_computations.c:128-129 | the number of -1 terms below k is at most k |
| Spectra.WalshBalance | c_src/spectra_computations.c:125-132 | the sum is k minus twice the number of -1 terms |
| Spectra.WalshAtZero | c_src/spectra_computations.c:125-132 | at a = b = 0 every term is +1 |
| Spectra.WalshTransform | c_src/spectra_computations.c:125-132 | the `walsh_transform` loop computes the Walsh coefficient |
| Spectra.AbsWalsh | c_src/spectra_computations.c:150-151 | the absolute coefficient is at most N, so the `abs_wc <= N` warning never fires |
| Spectra.AbsWalshRow | c_src/spectra_computations.c:149-157 | for one a, N - 1 absolute coefficients, each at most N |
| Spectra.WalshRows | c_src/spectra_computations.c:148-158 | one row per a = 0 .. N-1 |
| Spectra.ExtendedWalshSpectrum | c_src/spectra_computations.c:137-161 | the ODWS has N + 1 counters |
| Spectra.ExtendedWalshSpectrumTotal | c_src/spectra_computations.c:137-161 | the ODWS counters add up to N * (N - 1) |
| Spectra.TallyWalshRow | c_src/spectra_computations.c:149-157 | the b loop adds one row's absolute coefficients to the counters and nothing else |
| Spectra.ComputeExtendedWalshSpectrum | c_src/spectra_computations.c:137-161 | `compute_extended_walsh_spectrum` leaves the ODWS of the orthoderivative in `spectrum_counts[0..N]` and the rest unchanged |
| ApnTest.BasicResult | apn_test.py:20-50 | `BasicDUMethod.compute` fails (IndexError) exactly when the table is shorter than 2^n for n >= 1; otherwise it returns 0 for n = 0 and a value at most 2^n bounding every DDT entry with a != 0 |
| ApnTest.CountSolutions | apn_test.py:39-45 | the x loop counts the solutions of f(x) ^ f(x ^ a) = b: the DDT entry |
| ApnTest.MaxSolutions | apn_test.py:34-50 | the a and b loops return the differential uniformity |
| ApnTest.RowSolutions | apn_test.py:38-47 | the b loop raises `max_solutions` to the row's maximum |
| ApnTest.RowMaxStep | apn_test.py:46-47 | one more b raises the maximum to that entry |
| ApnTest.Compute | apn_test.py:20-50 | `compute(apn)` works on the APN's truth table, converting a polynomial first |
| ApnTest.DifferentialUniformityComputer.constructor | apn_test.py:53-57 | with no methods given, the computer holds `[BasicDUMethod()]` |
| ApnTest.DifferentialUniformityComputer.ComputeDu | apn_test.py:59-65 | with no method, the ValueError; otherwise the first (always usable) method's result |
| ApnTest.PolynomialTableComputes | apn_test.py:20-50 | for a polynomial APN the table has 2^n entries and the result is its differential uniformity |
| ApnObject.GetOr | apn_invariants.py:195-224 | `d.get(k, default)`: the stored value when k is present, the default otherwise |
| ApnObject.Apn.constructor | apn_object.py:5-14 | a new APN holds a fresh polynomial representation of the given terms, n, the polynomial text, no invariants and no `properties` attribute |
| ApnObject.Apn.WithEmptyProperties | apn_object.py:5-14 | the constructor with `properties` initialised to an empty dictionary |
| ApnObject.Apn.SetLoaded | main.py:142-143 | a loaded object's `properties` and `invariants` are the stored dictionaries, or empty when absent; nothing else changes |
| ApnObject.Apn.FromFields | apn_object.py:17-33 | an APN built from a representation holds exactly it, n, the text, no invariants and no `properties` attribute |
| ApnObject.Apn.FromRepresentation | apn_object.py:17-33 | TypeError exactly when the argument is not a representation; otherwise a fresh APN holding it |
| ApnObject.Apn.GetTruthTableList | apn_object.py:40-46 | the truth table list: the stored table, or the polynomial's evaluated table of 2^n entries |
| ApnObject.Apn.GetTruthTable | apn_object.py:35-38 | a fresh APN with a truth-table representation of the same function, same n and text, no invariants and no `properties` attribute |
| Representations.TruthTableRepresentation.ToTruthTable | representations/truth_table_representation.py:16-18 | `to_truth_table` returns the same table |
| Representations.TruthTableRepresentation.ToUnivariatePolynomial | representations/truth_table_representation.py:12-14 | `to_univariate_polynomial` always raises NotImplementedError |
| Representations.IntOf | representations/univariate_polynomial_representation.py:18 | `int(irr_poly)` on a text succeeds only for a (stripped) digit string |
| Representations.FieldPolyOf | representations/univariate_polynomial_representation.py:15-22 | the field is the library default when `int()` fails; any other choice is the parsed integer, accepted by the library |
| Representations.PolynomialTextSelectsDefault | representations/univariate_polynomial_representation.py:17-22 | a polynomial text such as "x^3 + x + 1" never parses as an integer, so the default field is used |
| Representations.PolyValueAppend | representations/univariate_polynomial_representation.py:36-38 | the value of a concatenation of term lists is the XOR of their values |
| Representations.PolyValueSwap | representations/univariate_polynomial_representation.py:36-38 | the order of the terms does not matter |
| Representations.SameMonomialAdds | representations/univariate_polynomial_representation.py:36-38 | two terms with one monomial add their coefficients |
| Representations.PolyValueBound | representations/univariate_polynomial_representation.py:34-39 | each table value is an n-bit field element |
| Representations.UnivariatePolynomialRepresentation.constructor | representations/univariate_polynomial_representation.py:8-9 | the representation holds the given terms |
| Representations.UnivariatePolynomialRepresentation.ToUnivariatePolynomial | representations/univariate_polynomial_representation.py:11-12 | returns itself |
| Representations.UnivariatePolynomialRepresentation.ToTruthTable | representations/univariate_polynomial_representation.py:14-42 | the table has 2^n entries, entry x is the sum of g^c * x^m over the terms in the chosen field, and an empty polynomial gives the zero table |
| Representations.CoefficientsOf | representations/univariate_polynomial_representation.py:26-29 | one coefficient g^c per term |
| Representations.ValuesOf | representations/univariate_polynomial_representation.py:32-40 | the x loop builds 2^n values, each the polynomial's value |
| Representations.ValueAt | representations/univariate_polynomial_representation.py:35-39 | the term loop for one x computes the polynomial's value |
| Conversion.TermsOf | computations/interpolation_helpers.py:39-44 | each term (log c, i) comes from a nonzero coefficient c at i, in increasing i |
| Conversion.TermsCoverNonzero | computations/interpolation_helpers.py:39-44 | every nonzero coefficient gives a term |
| Conversion.TermsRecoverCoefficients | computations/interpolation_helpers.py:39-44 | for a generator g, g^(log c) gives back each coefficient |
| Conversion.CoefficientsToTerms | computations/interpolation_helpers.py:38-44 | the loop over i builds the specified term list |
| Conversion.PowIsPower | representations/univariate_polynomial_representation.py:38 | the interpolator's powers are the evaluator's `x ** m` |
| Conversion.TermMatchesCoefficient | computations/interpolation_helpers.py:39-44 | a term evaluates to its coefficient times x^i |
| Conversion.TermsValue | computations/interpolation_helpers.py:39-44 | the term list evaluates like the coefficient list |
| Conversion.EvalPrefixOfPrefix | computations/interpolation_helpers.py:73-114 | evaluating a prefix only reads that prefix |
| Conversion.AccumulatedBelow | computations/interpolation_helpers.py:73-114 | the interpolated coefficients are field elements |
| Conversion.TruthTableToUnivariatePoly | computations/interpolation_helpers.py:11-46 | succeeds exactly when the table has 2^n entries, a polynomial is given or defaulted, a generator is defaulted and interpolation stays in the tables; then returns the terms of the interpolated coefficients and the polynomial used |
| Conversion.ConversionRoundTrip | computations/interpolation_helpers.py:11-46 | over a field generated by g, every table of field elements converts, and evaluating the terms gives back the table |
| UserInputParser.ParsedIrr | user_input_parser.py:12-15 | a polynomial text that is not blank is kept; a blank one becomes the text of the library's default polynomial |
| UserInputParser.ParseUnivariatePolynomial | user_input_parser.py:8-17 | ValueError exactly for a field size of at most 1; otherwise a fresh APN over the terms with the kept or defaulted polynomial text, no invariants and no `properties` attribute |
| UserInputParser.BlankReadsAsDefault | user_input_parser.py:12-15 | the text that replaces a blank one reads back as the library's default polynomial |
| ApnInvariants.LenientTokens | apn_invariants.py:21-22 | the text loses its spaces, "^+" becomes "^", and is cut at '+' into at least one token |
| ApnInvariants.ParseIrreduciblePolyStrLenient | apn_invariants.py:18-34 | the token loop returns exactly the reading of the text, raising at the first bad exponent |
| ApnInvariants.ApplyToken | apn_invariants.py:25-33 | '1' sets bit 0, 'x' bit 1, 'x^k' bit k, a bad 'x^' exponent raises, every other token changes nothing |
| ApnInvariants.LenientErrSticks | apn_invariants.py:24-33 | once a token raises, the whole read raises with that error |
| ApnInvariants.LenientRaises | apn_invariants.py:24-33 | a read raises exactly when some token is an 'x^' with an exponent `int()` refuses |
| ApnInvariants.LenientBits | apn_invariants.py:24-34 | when the read succeeds, bit j of the mask is set exactly when some token names x^j |
| ApnInvariants.IgnoredTokenDrops | apn_invariants.py:31-33 | a token that is neither '1', 'x' nor 'x^k' can be removed from anywhere without changing the read |
| ApnInvariants.LenientTokenOfExpText | apn_invariants.py:25-33 | the writer's token for x^e sets bit e |
| ApnInvariants.LenientTokenOfPower | apn_invariants.py:31-33 | "x^" followed by the decimal of e >= 2 sets bit e |
| ApnInvariants.XCaretDigits | apn_invariants.py:31-33 | "x^" followed by digits sets the bit the digits name |
| ApnInvariants.LenientOfTerms | apn_invariants.py:18-34 | on the terms `bitmask_to_poly_str` writes, the lenient and the strict reader set the same bits and neither fails |
| ApnInvariants.RemoveSpacesOfJoin | apn_invariants.py:21 | removing the spaces of a " + " join of space-free terms gives their "+" join |
| ApnInvariants.JoinNoCaretPlus | apn_invariants.py:21 | a "+" join of terms that contain no '+' and do not end in '^' has no "^+" to replace |
| ApnInvariants.LenientReadsWriter | apn_invariants.py:18-34 | every text the strict writer produces for a nonzero mask reads back as that mask, with the lenient and with the strict reader |
| ApnInvariants.ExampleReadsAs0x5B | apn_invariants.py:19-20 | the documented example 'x^6 + x^4 + x^3 + x + 1' is 0x5B for both readers |
| ApnInvariants.ExampleIsWritten | apn_invariants.py:19-20 | 'x^6 + x^4 + x^3 + x + 1' is the writer's text for 0x5B |
| ApnInvariants.LenientSkipsJunk | apn_invariants.py:31-33 | a token such as 'y' is passed over: ["x^6", "y", "1"] reads as 0x41 where the strict reader fails |
| ApnInvariants.FuncPoly | apn_invariants.py:37-45 | no bitmask for a blank polynomial text, the lenient reading of the stripped text otherwise, and its error when that reading raises |
| ApnInvariants.KToOneTextReads | apn_invariants.py:93-96 | "not uniform" is written for -1 alone, and for k >= 0 the digits before "-to-1" read back as k |
| ApnInvariants.CreateFuncPtrFromApn | apn_invariants.py:37-45 | the handle is made over the object's truth table, with no bitmask for a blank polynomial text and the lenient reading otherwise; it fails exactly when that reading raises |
| ApnInvariants.ComputeIsApn | apn_invariants.py:48-62 | an existing "is_apn" is kept; otherwise "is_apn" becomes whether the C differential uniformity of the handle is 2, and nothing is written when the polynomial text raises or the C code is undefined; only the invariants map is written: representation, field size, irreducible polynomial and properties stay unchanged |
| ApnInvariants.IsApnOfMap | apn_invariants.py:48-62 | on a table of n-bit outputs, n <= 15, the C answer behind "is_apn" is the differential uniformity of the table |
| ApnInvariants.ComputeAnfInvariants | apn_invariants.py:65-82 | when all three keys exist nothing changes; otherwise "algebraic_degree", "is_monomial" and "is_quadratic" are (re)written from the C answers on the handle, with "is_quadratic" true exactly for degree 2; only the invariants map is written: representation, field size, irreducible polynomial and properties stay unchanged |
| ApnInvariants.AnfInvariantsOfMap | apn_invariants.py:65-82 | on a table of n-bit outputs the "algebraic_degree" written is at most the table's algebraic degree, and "is_monomial" is the monomial test whenever the bitmask builds a defined field context |
| ApnInvariants.ComputeKToOne | apn_invariants.py:84-96 | an existing "k_to_1" is kept; otherwise it becomes "not uniform" for the C answer -1 and "<k>-to-1" for any other k; only the invariants map is written: representation, field size, irreducible polynomial and properties stay unchanged |
| ApnInvariants.KToOneOfMap | apn_invariants.py:84-96 | on a table of n-bit outputs the "k_to_1" text is either "not uniform" or the Python label of the table, and it is "not uniform" exactly when the table is k-to-1 for no k |
| ApnInvariants.ReorderInvariants | apn_invariants.py:201-224 | the nine listed keys come first in list order, the other keys follow in their old order, and every key keeps its value; only the invariants map is written: representation, field size, irreducible polynomial and properties stay unchanged |
| CppExterns.HandleUniformityOfMap | c_src/invariants_computations.cpp:162-168 | on a created function over n-bit outputs the answer is the differential uniformity for n <= 15 and undefined for n >= 16 |
| CppExterns.FunctionDifferentialUniformity | c_src/invariants_computations.cpp:162-168 | 0 for a null handle, otherwise what `differential_uniformity` returns, undefined where its counting writes outside the table |
| CppExterns.KToOneUnique | c_src/invariants_computations.cpp:205-222 | a function is k-to-1 for at most one k |
| CppExterns.HandleKToOneMeans | c_src/invariants_computations.cpp:227-233 | on n >= 1 an answer other than -1 is a k >= 1 for which the table is k-to-1 with 0 mapped once, and -1 means no such k |
| CppExterns.FunctionKToOne | c_src/invariants_computations.cpp:227-233 | -1 for a null handle, otherwise the answer of `compute_k_to_1` |
| CppExterns.HandleDegree | c_src/invariants_computations.cpp:290-296 | 0 for a null handle, otherwise the C degree, which is at most the algebraic degree of the table |
| CppExterns.FunctionAlgebraicDegree | c_src/invariants_computations.cpp:290-296 | 0 for a null handle, otherwise what `compute_algebraic_degree_mv` returns |
| CppExterns.FunctionIsQuadratic | c_src/invariants_computations.cpp:298-313 | true exactly when the degree answer is 2, so false for a null handle |
| CppExterns.HandleMonomialOfMap | c_src/invariants_computations.cpp:463-469 | on a created function over n-bit outputs whose polynomial builds a defined context, the answer is defined and is the monomial test |
| CppExterns.FunctionIsMonomial | c_src/invariants_computations.cpp:463-469 | false for a null handle, otherwise the verdict of `is_monomial_impl`, undefined where it reads outside its tables |
| InvariantBindings.CArray | c_invariants_bindings.py:53-64 | the C side reads `len(tt)` mod 2^32 entries, each entry mod 2^32, as the `c_uint32` array and `c_uint` length keep |
| InvariantBindings.CArrayIntact | c_invariants_bindings.py:53-64 | a list of fewer than 2^32 entries, each below 2^32, crosses unchanged |
| InvariantBindings.Log2 | c_src/invariants_computations.cpp:50-59 | the exponent e of a power of two k, with 2^e = k |
| InvariantBindings.Pow2Injective | c_src/invariants_computations.cpp:50-59 | equal powers of two have equal exponents |
| InvariantBindings.CreatedOfMap | c_invariants_bindings.py:53-64 | a table of n-bit outputs, n < 32, crosses as the n-bit function over the same table |
| InvariantBindings.CreateFunction | c_invariants_bindings.py:53-64 | null for an empty array, otherwise the array, the bitmask mod 2^32 (0 without one) and the dimension `lut_dimension` finds |
| InvariantBindings.Created | c_invariants_bindings.py:53-64 | the handle the bindings yield always covers 2^n entries of its table |
| ApnIsQuadratic.PassLoop | apn_is_quadratic.py:10-12 | one pass of the transform loop over all masks computes the butterfly step for bit i |
| ApnIsQuadratic.MobiusTransform | apn_is_quadratic.py:5-13 | `mobius_transform` returns the Möbius transform of the list, on a copy |
| ApnIsQuadratic.GetDegree | apn_is_quadratic.py:15-23 | the result is the largest weight of a mask with a nonzero coefficient, attained, and 0 when there is none |
| ApnIsQuadratic.FirstBadEntry | apn_is_quadratic.py:35-39 | no error exactly when every entry is an int between 0 and 2^n - 1 |
| ApnIsQuadratic.FirstBadStays | apn_is_quadratic.py:35-39 | once an entry is rejected, scanning further entries reports the same first error |
| ApnIsQuadratic.CheckOutputs | apn_is_quadratic.py:35-39 | the scan reports the ValueError of the first entry that is not an n-bit int |
| ApnIsQuadratic.Outputs | apn_is_quadratic.py:35-44 | the ints of a list of non-negative ints, in order |
| ApnIsQuadratic.DegreeAtMostTwo | apn_is_quadratic.py:41-52 | the component loop with its early exit answers exactly whether the algebraic degree is at most 2 |
| ApnIsQuadratic.IsQuadraticApn | apn_is_quadratic.py:25-52 | TypeError for a non-sequence, ValueError with the expected length for a list that is not 2^n long, the ValueError of the first bad entry, and otherwise whether the algebraic degree is at most 2 |
| ApnProperties.PyInts | apn_properties.py:44-45 | the truth table handed to `is_quadratic_apn` is the list of its ints |
| ApnProperties.ThreeToOneLabel | apn_properties.py:70-76 | the label is "3-to-1" exactly when every nonzero output occurs 3 times |
| ApnProperties.LabelNamesThree | apn_properties.py:72 | only the count 3 is written "3-to-1" |
| ApnProperties.QuadraticOrFalse | apn_properties.py:42-47 | the quadratic property is true exactly for a 2^n-long table of n-bit ints of algebraic degree at most 2, and False where `is_quadratic_apn` raises |
| ApnProperties.ComputeApnProperties | apn_properties.py:9-81 | nothing happens without a univariate polynomial; an APN without a `properties` attribute raises AttributeError and keeps none; otherwise its `properties` gain exactly the seven entries that PolynomialProperties computes |
| ApnProperties.PolynomialProperties | apn_properties.py:9-81 | no properties without a univariate polynomial; otherwise the given degree, the number of terms, a single term as the monomial test, uniformity 2 of the function's table as `is_apn`, the quadratic test, the "k_to_1" label and the triplicate answer only for "3-to-1" |
| ApnProperties.ParsedApnRaises | apn_properties.py:26 | as written: computing the properties of any parsed APN fails, with AttributeError whenever the field size is above 1 |
| ApnProperties.InitializedApnComputes | apn_properties.py:9-81 | corrected: an APN constructed with empty `properties` gets all seven properties of its function |
| ApnProperties.TableProperties | apn_properties.py:24-78 | steps 3 to 9 write exactly the properties the table, the term count and the APN answer determine |
| ApnStorage.ParquetFilenameInjective | apn_storage_pandas.py:22-24 | different field sizes get different file names |
| ApnStorage.PolyToKey | apn_storage_pandas.py:26-30 | the key is the terms sorted by (coefficient exponent, monomial exponent), with the same terms |
| ApnStorage.PolyToKeyIffPermutation | apn_storage_pandas.py:26-30 | two term lists get the same key exactly when one is a rearrangement of the other |
| ApnStorage.AnyWithKey | apn_storage_pandas.py:197-202 | the duplicate mask selects a row exactly when some row has the same field size, polynomial text and key |
| ApnStorage.ApnDatabase.constructor | apn_storage_pandas.py:37-43 | no file is stored yet, so every field reads as an empty table |
| ApnStorage.ApnDatabase.StoreApn | apn_storage_pandas.py:75-91 | as written: a field size of at most 1 stores nothing and returns; every other input raises AttributeError at the properties step; no table changes either way |
| ApnStorage.ApnDatabase.StoreApnWithProperties | apn_storage_pandas.py:93-216 | corrected: nothing is stored when parsing or conversion fails, when `is_apn` is not set, or when the key is taken; otherwise exactly the new row is appended to its field's table and nothing else changes |
| ApnStorage.StoreKeepsKeysDistinct | apn_storage_pandas.py:193-215 | a store keeps a table free of rows with equal keys |
| ApnStorage.StoredBlocksPermutations | apn_storage_pandas.py:177-204 | after a store, the same function with its terms in any order is reported as a duplicate |
| ApnStorage.LoadedInvariants | apn_storage_pandas.py:243-256 | the invariants a loaded row gets form a well-formed dictionary |
| ApnStorage.LoadApnObjects | apn_storage_pandas.py:223-264 | the loop yields the objects of the rows that reconstruct, in table order, each with the parser's polynomial text (a blank one replaced by the library default's) |
| ApnStorage.NonQuadraticLoadsLower | apn_storage_pandas.py:244-247 | "Non-quadratic" in either column loads as "non-quadratic" in both invariants |
| ApnStorage.StoreThenLoad | apn_storage_pandas.py:177-256 | a stored row of a field size above 1 loads back with the same terms, the same polynomial text unless blank (then the library default's text), the spectra or "non-quadratic", the ranks (None when missing) and the citation, under the keys in the loader's order |
| ApnStorage.LoadedFromRows | apn_storage_pandas.py:236-261 | loading keeps table order: every loaded object comes from a row, and every row that reconstructs is loaded |
| BulkImport.ExtractCitation | cli_commands/bulk_import_cmd.py:79-90 | a line without both brackets comes back whole, with no citation |
| BulkImport.CitationRoundTrip | cli_commands/bulk_import_cmd.py:79-90 | "poly[cit]tail", brackets only around the citation, splits back into the stripped polynomial and the stripped citation |
| BulkImport.DocstringExample | cli_commands/bulk_import_cmd.py:17-18 | the docstring's example line splits into its polynomial and citation and reads as (15,48),(16,33),(16,18),(0,17),(0,3) |
| BulkImport.PowerParses | cli_commands/bulk_import_cmd.py:137-158 | "g^k" and "x^k" read back as k |
| BulkImport.BaseParses | cli_commands/bulk_import_cmd.py:137-158 | a bare "g" or "x" reads as exponent 1 |
| BulkImport.ProductParses | cli_commands/bulk_import_cmd.py:116-123 | a coefficient text, '*' and a monomial text read as (c, m) |
| BulkImport.AloneCoefficient | cli_commands/bulk_import_cmd.py:124-130 | a bare coefficient text reads as (c, 0) |
| BulkImport.AloneMonomial | cli_commands/bulk_import_cmd.py:131-134 | a bare monomial text reads as (0, m) |
| BulkImport.TermSourceParses | cli_commands/bulk_import_cmd.py:109-158 | every term written in the grammar reads back as itself |
| BulkImport.ParseTerms | cli_commands/bulk_import_cmd.py:98-103 | a successful read has one pair per term text |
| BulkImport.ParseTermsEach | cli_commands/bulk_import_cmd.py:98-103 | a successful read holds each term's own reading, in order |
| BulkImport.ParseTermsOk | cli_commands/bulk_import_cmd.py:98-103 | the read succeeds when every term reads |
| BulkImport.ParseLineToUnivListLiteral | cli_commands/bulk_import_cmd.py:93-106 | the loop builds exactly the list literal of the line's terms, or the first term's error |
| BulkImport.LineRoundTrip | cli_commands/bulk_import_cmd.py:93-134 | terms joined by " + " read back as the same term list, in order |
| BulkImport.RenderedTermParses | apn_interpolation.py:215-247 | a term as polynomial_to_string_g writes it reads as (log of its coefficient, its exponent) |
| BulkImport.RenderedLineParses | apn_interpolation.py:215-247 | a nonzero polynomial rendered by polynomial_to_string_g reads back as its nonzero terms, highest exponent first |
| BulkImport.ZeroLineRejected | apn_interpolation.py:245-247 | the renderer's "0" for the zero polynomial does not read as a line |
| BulkImport.ParseIntToString | cli_commands/bulk_import_cmd.py:28-31 | `int(str(d)) == d`, so the dimension crosses to add-input unchanged |
| BulkImport.CleanLine | cli_commands/bulk_import_cmd.py:38 | the cleaned line is no longer than the line and does not end in ',' |
| BulkImport.CleanPadded | cli_commands/bulk_import_cmd.py:38 | cleaning removes surrounding whitespace and trailing commas and nothing of the text |
| BulkImport.LineParts | cli_commands/bulk_import_cmd.py:42-46 | with --citation-all every line gets that citation stripped; otherwise `_extract_citation` |
| BulkImport.CommonCitationDropsBrackets | cli_commands/bulk_import_cmd.py:42-44 | with --citation-all no bracket reaches the polynomial text |
| BulkImport.ReadLineCases | cli_commands/bulk_import_cmd.py:37-55 | a line is blank exactly when cleaned empty, fails exactly when its polynomial does not parse (with that error), and carries the common citation |
| BulkImport.ReadLinesAt | cli_commands/bulk_import_cmd.py:37-55 | each line is read on its own |
| BulkImport.GatherUpTo | cli_commands/bulk_import_cmd.py:37-55 | as many literals as citations, one per non-blank line |
| BulkImport.GatherOkIff | cli_commands/bulk_import_cmd.py:37-55 | the lines gather without error exactly when none fails to parse |
| BulkImport.GatherFirstBad | cli_commands/bulk_import_cmd.py:48-52 | the error names the first bad line, counted from 1, with its parse error |
| BulkImport.GatherErrUp | cli_commands/bulk_import_cmd.py:48-52 | after the first bad line nothing else is read |
| BulkImport.GatherIn | cli_commands/bulk_import_cmd.py:37-55 | every gathered literal and citation comes from a non-blank line after the first |
| BulkImport.CommonCitation | cli_commands/bulk_import_cmd.py:42-44 | with --citation-all every gathered citation is that citation |
| BulkImport.GatherLines | cli_commands/bulk_import_cmd.py:37-55 | the loop returns what GatherUpTo describes for all lines |
| BulkImport.ReadOneLine | cli_commands/bulk_import_cmd.py:38-55 | one turn of the loop reads the line as ReadLine does |
| BulkImport.GatherStep | cli_commands/bulk_import_cmd.py:37-55 | one more line extends the gathering by its reading, or stops it with that line's error |
| BulkImport.BulkImportCli | cli_commands/bulk_import_cmd.py:14-76 | the command echoes the empty-file, dimension, line or no-polynomial message, or invokes add-input, as BulkImportOutcome says |
| BulkImport.OutcomeAfterGather | cli_commands/bulk_import_cmd.py:48-72 | a gathering error is echoed, no lines gives the no-polynomial message, otherwise add-input runs on the base and line options |
| BulkImport.InvokeArgs | cli_commands/bulk_import_cmd.py:61-72 | the argument list is --field-n, --irr-poly when given, then --poly and --citation per line |
| BulkImport.PolyArgsRead | cli_commands/bulk_import_cmd.py:68-72 | the line options give back every literal and every non-empty citation in order, and no --field-n or --irr-poly |
| BulkImport.InvokeReadsBack | cli_commands/bulk_import_cmd.py:61-72 | an invocation gives the dimension once, the stripped --irr-poly when given, and each literal and citation in line order |
| BulkImport.ArgsReadBack | cli_commands/bulk_import_cmd.py:61-72 | the base and line options read back option by option |
| BulkImport.OptionValuesAppend | cli_commands/bulk_import_cmd.py:61-72 | reading options of joined argument lists joins the readings |
| BulkImport.ExampleFile | cli_commands/bulk_import_cmd.py:14-76 | the file "8" plus the docstring line invokes add-input with --field-n 8, its literal and its citation |
| BulkImport.OneLineFile | cli_commands/bulk_import_cmd.py:14-76 | a dimension and one good line invoke add-input on that line |
| BulkImport.UndeclaredRejected | cli_commands/add_input_cmd.py:11-16 | an option given a value that the command does not declare makes the argument list fail |
| BulkImport.CitationRejected | cli_commands/bulk_import_cmd.py:69-72 | any invocation that passes a citation uses an option add-input does not declare |
| BulkImport.ExampleFileRejected | cli_commands/bulk_import_cmd.py:69-72 | the docstring's own example file is refused by add-input |
| BulkImport.InvokeArgsDeclared | cli_commands/bulk_import_cmd.py:61-72 | with --citation declared, every invocation uses only declared options |
| Compare.IsMatch | main.py:384-407 | the inner loop finds a match exactly when the stored APN agrees on every relevant aspect |
| Compare.FindKey | main.py:415 | the position found holds the key; none means no entry has it |
| Compare.MatchesFor | main.py:355-420 | the new match list of one input is the old list indexed by key and merged with every stored APN that matches |
| Compare.SaveMatchList | main.py:150-168 | the lists are written exactly when every entry carries `properties`; otherwise AttributeError and nothing is written |
| Compare.CompareApns | main.py:333-428 | with no input or no stored APN it returns before saving; an input without `properties` raises; otherwise the save raises exactly when some merged entry lacks `properties`, and when it succeeds every input index gets its merged list and the other indices keep theirs |
| Compare.StoredStep | main.py:351-420 | storing the next input's list keeps the lists already stored |
| Compare.StoredExactly | main.py:351-420 | the lists the loop leaves are those of every input index merged and every other index unchanged |
| Compare.NonQuadraticOddsMatchesAll | main.py:370-375 | a non-quadratic input compared by odds or odws compares nothing, so every stored APN matches |
| Compare.NonQuadraticAllComparesRanks | main.py:370-373 | a non-quadratic input compared by all compares only the gamma and delta ranks |
| Compare.QuadraticAllComparesFour | main.py:378-382 | a quadratic input compared by all compares odds, odws, gamma and delta; a single type compares itself |
| Compare.RankComparedAlone | main.py:370-382 | a single rank type is compared whatever the input's quadraticity |
| Compare.IndexedDistinct | main.py:355-362 | the dictionary built from a stored list has distinct keys |
| Compare.IndexedOfDistinct | main.py:355-362 | a list with distinct keys, as the command writes it, is read back unchanged |
| Compare.IndexedKeys | main.py:355-362 | the dictionary has exactly the keys of the stored list |
| Compare.IndexedFrom | main.py:355-362 | every entry of the dictionary is an entry of the stored list |
| Compare.MergedDistinct | main.py:409-420 | merging keeps the keys distinct |
| Compare.MergedKeepsOld | main.py:415-417 | no old match is removed or moved; its compare types gain the new type exactly when a stored APN with its key matched |
| Compare.MergedNewEntries | main.py:418-420 | every new entry is a matching stored APN under a new key, with just the new compare type |
| Compare.MergedKeepsOldKeys | main.py:409-420 | the old entries keep their keys |
| Compare.MergedRecordsEveryMatch | main.py:409-420 | every matching stored APN is in the result under its key with the compare type recorded |
| Compare.MergedStepKeeps | main.py:409-420 | one more stored APN keeps every entry's key and compare types |
| Compare.RecordedKeeps | main.py:415-420 | recording a match keeps every entry's key and compare types |
| Compare.MergedSavable | main.py:409-420 | with old entries carrying `properties` and stored APNs not, the merged list can be saved exactly when no matching stored APN was new to it |
| Compare.MergedKeepsProperties | main.py:409-420 | with old entries and stored APNs carrying `properties`, every merged entry does |
| Compare.IndexedHasProperties | main.py:355-362 | the dictionary of a saved list has distinct keys and entries with `properties` |
| Compare.NewMatchNotSaved | main.py:150-168 | as written: the save succeeds exactly when no input matched a stored APN whose key was not yet in its list |
| Compare.MatchesSavedWithProperties | main.py:150-168 | corrected: with stored APNs carrying `properties`, the save always writes every merged list |
| Dicts.Empty | invariants.py:42 | `{}` is a well-formed dict with no keys |
| Dicts.Put | invariants.py:46 | `d[k] = v` maps k to v; an existing key keeps its place, a new key goes last; well-formedness is kept |
| Dicts.Present | invariants.py:44-46 | the listed keys kept are exactly those listed and held by the dict |
| Dicts.Leftover | invariants.py:49-51 | the leftover keys are exactly the dict's keys that are not listed |
| Dicts.CopyListed | invariants.py:44-46 | the first loop builds the dict of the listed keys present, in list order |
| Dicts.ReorderBy | cli_commands/cli_utils.py:23-33 | the result is well formed, has the same mapping, the listed keys first in list order and every other key after in its old order |
| Dicts.CopyUnlisted | cli_commands/cli_utils.py:30-32 | the second loop copies every unlisted key in dict order |
| Dicts.ReorderByCopied | invariants.py:26-53 | the variant that skips keys already copied gives the same well-formed reordering |
| Dicts.CopyUncopied | invariants.py:49-51 | its second loop copies every key not yet copied, in dict order |
| Dicts.CopiedIsPartial | invariants.py:44-51 | key by key, the loops build the listed keys followed by the leftovers so far |
| Dicts.CopiedHas | invariants.py:49-51 | the next key is already copied exactly when it is listed, so both variants copy the same keys |
| Dicts.NextLeftover | invariants.py:49-51 | one step of the second loop copies the next key exactly when it is unlisted, and exactly when it is not yet copied |
| Dicts.ReorderedSub | invariants.py:41-53 | the listed keys followed by the leftovers form a valid reordering |
| Dicts.ReorderIdempotent | invariants.py:26-53 | reordering a reordered dict changes nothing |
| Dicts.LeftoverTwice | invariants.py:49-51 | taking the leftovers twice gives the leftovers |
| Dicts.ReorderValid | invariants.py:26-53 | a reordering has no key twice and the same key set |
| InvariantDriver.PutAll | invariants.py:68 | the writes of a computation keep the dict well formed, keep the old key order as a prefix, and add exactly the written keys |
| InvariantDriver.ComputeMissing | invariants.py:63-68 | a present key changes nothing and looks nothing up; otherwise the registered computation's writes, or KeyError when none is registered |
| InvariantDriver.ComputeEach | invariants.py:20-21 | the loop runs compute_missing for each name in order and stops at the first error |
| InvariantDriver.ComputedAllStep | invariants.py:57-58 | one more name extends the run by that name's compute_missing unless the run already failed |
| InvariantDriver.SameLookups | invariants.py:67 | the lookups of the loop see the registry it started from |
| InvariantDriver.FailureSticks | invariants.py:57-58 | once a run fails, the later names are not looked at |
| InvariantDriver.ReorderInvariants | invariants.py:26-53 | the ten listed keys first in list order, the rest in their old order, every key with its value |
| InvariantDriver.ComputeSelected | invariants.py:56-60 | the named invariants that are missing, computed in list order, then the reordering |
| InvariantDriver.ComputeAllInvariants | invariants.py:6-23 | the ten invariants, each computed only when missing, then the reordering |
| InvariantDriver.ComputedValid | invariants.py:20-21 | a run keeps the dict well formed and the old key order is a prefix of the new one |
| InvariantDriver.AllPresentNoOp | invariants.py:63-65 | when every name is already a key a run changes nothing and looks nothing up |
| InvariantDriver.FailureHasCause | invariants.py:63-68 | a run fails only on a name missing at its turn under which nothing is registered |
| InvariantDriver.RegisteredNeverFails | invariants.py:63-68 | with every name registered a run cannot fail |
| Registries.WithEntry | registry.py:22-24 | storing a target makes it the entry under the category and key and leaves every other entry |
| Registries.Touched | registry.py:35 | a read through the defaultdict creates the category and changes no entry |
| Registries.Registry.constructor | registry.py:13-15 | a new registry has no categories |
| Registries.Registry.Register | registry.py:18-26 | with an object, it is stored under the lower-cased names and handed back; without, a decorator for those names is returned and nothing changes |
| Registries.Registry.Decorate | registry.py:22-24 | the decorator stores the target under its names and hands it back |
| Registries.Registry.Get | registry.py:33-35 | the object under the lower-cased names, or KeyError; an unknown category is left behind empty |
| Registries.Registry.ListKeys | registry.py:38-40 | the category's keys in sorted order; an unknown category is left behind empty |
| Registries.Registry.Keys | registry.py:43-48 | the same sorted keys, but an unknown category gives [] and is not created |
| Registries.RegisterThenLookup | registry.py:18-35 | after registering, any spelling of the same names finds the object |
| Registries.RegisterKeepsOthers | registry.py:22-24 | registering touches no other (category, key) pair |
| Registries.LookupIgnoresCase | registry.py:33-35 | the lookup ignores case |
| Registries.TouchKeepsLookups | registry.py:35 | a read through the defaultdict changes no lookup |
| Equivalence.Positions | cli_commands/equivalence_runner.py:81-85 | the accepted positions below n, increasing |
| Equivalence.PositionsExact | cli_commands/equivalence_runner.py:81-85 | every accepted position below n is listed |
| Equivalence.SelectAtPositions | cli_commands/equivalence_runner.py:81-85 | nothing but the dropped elements is removed and nothing is reordered |
| Equivalence.WorkerVerdict | cli_commands/equivalence_runner.py:10-22 | a verdict exists exactly when the future did not fail, the test is registered and it ran without exception, and it is the test's answer |
| Equivalence.AsSet | cli_commands/equivalence_runner.py:79 | `set(xs)` holds exactly the elements of xs |
| Equivalence.PyIndex | cli_commands/equivalence_runner.py:65-66 | Python list indexing: negative indices count from the end, anything out of range raises IndexError |
| Equivalence.RunEquivalenceOnMatches | cli_commands/equivalence_runner.py:25-95 | no task returns the list as is; otherwise the result is the surviving inputs with one record per input with an equivalent match, or an error after the records that resolved |
| Equivalence.GroupOutcomes | cli_commands/equivalence_runner.py:53-55 | each input index gets its (match, verdict) pairs in completion order, keys in first-occurrence order |
| Equivalence.ClassifyInputs | cli_commands/equivalence_runner.py:57-71 | an input with an equivalent match is recorded and removed; the others get their inequivalent matches |
| Equivalence.ClassifyStep | cli_commands/equivalence_runner.py:61-71 | what the second loop has built after each key |
| Equivalence.ClassifiedExact | cli_commands/equivalence_runner.py:61-71 | every key lands on exactly one side |
| Equivalence.FilterInputs | cli_commands/equivalence_runner.py:73-95 | the inputs not removed, in order, each without its inequivalent matches and marked no_more_matches when none is left |
| Equivalence.GroupStep | cli_commands/equivalence_runner.py:54-55 | one more outcome appends its pair to its input's list |
| Equivalence.PairsOfAbsent | cli_commands/equivalence_runner.py:53 | an input index that never occurs has no pairs |
| Equivalence.KeysCoverResults | cli_commands/equivalence_runner.py:53-55 | the keys are exactly the input indices that occur |
| Equivalence.IndicesWithExact | cli_commands/equivalence_runner.py:62-70 | a match is listed with a verdict exactly when some outcome says so |
| Equivalence.IndicesWithAppend | cli_commands/equivalence_runner.py:62-70 | filtering distributes over concatenation |
| Equivalence.TrueIffRemoved | cli_commands/equivalence_runner.py:62-67 | an input is removed exactly when one of its outcomes is True |
| Equivalence.FalseIffInequivalent | cli_commands/equivalence_runner.py:69-71 | the inequivalent matches are exactly those with a False outcome |
| Equivalence.RecordsStopAt | cli_commands/equivalence_runner.py:61-67 | when a record does not resolve, the records stored are the resolving prefix before it |
| Equivalence.SurvivorsExact | cli_commands/equivalence_runner.py:73-92 | an input survives exactly when none of its outcomes is True; survivors keep their order |
| Equivalence.RefreshedExact | cli_commands/equivalence_runner.py:79-90 | in a survivor a match is dropped exactly when an outcome says False; kept ones keep their order; an empty list sets no_more_matches |
| Equivalence.OrderIrrelevant | cli_commands/equivalence_runner.py:44-95 | the filtered list does not depend on the completion order of the futures |
| Equivalence.SameOutcomes | cli_commands/equivalence_runner.py:44-71 | rearranged outcomes give the same removed set and inequivalent sets |
| Equivalence.SurvivorsOfSameSets | cli_commands/equivalence_runner.py:73-92 | the survivors depend on the outcomes only through those sets |
| Equivalence.FirstTrueInOrder | cli_commands/equivalence_runner.py:62-66 | the record of an input is its first equivalent match in completion order |
| MatchFilters.CczFilter | main.py:466-480 | the loop drops exactly the matches whose result is true, counts them, and keeps the others in order |
| MatchFilters.CczEquivalenceCheck | main.py:436-487 | an index outside the input list or without matches changes nothing; otherwise its match list is filtered and the other lists are kept |
| MatchFilters.ThreeToOneFilter | main.py:517-540 | over matches that carry `properties`, the loop keeps every non-3-to-1 match and every 3-to-1 match whose test raised or said no, in order |
| MatchFilters.ThreeToOneEquivalenceCheck | main.py:495-547 | nothing happens for a bad index, no matches, an input that is not 3-to-1, or an input or match without `properties` (AttributeError); otherwise its list is filtered |
| MatchFilters.CczExact | main.py:466-482 | the CCZ filter removes exactly the matches found equivalent and keeps the others in order |
| MatchFilters.ThreeToOneExact | main.py:524-542 | the 3-to-1 filter removes exactly the 3-to-1 matches found equivalent |
| TermFormat.TermTexts | cli_commands/cli_utils.py:11-20 | one text per term, term i's text at position i |
| TermFormat.TermParts | cli_commands/cli_utils.py:10-21 | the loop both printers share builds one part per term, in order |
| TermFormat.PolynomialToStrCli | cli_commands/cli_utils.py:6-21 | the cli_utils.py printer: its placeholder for an empty list, else the parts joined by " + " |
| TermFormat.PolynomialToStrMain | main.py:55-83 | the main.py printer: "0" for an empty list, else the parts joined by " + " |
| TermFormat.ReadTermText | cli_commands/cli_utils.py:11-20 | every printed term reads back as itself |
| TermFormat.ReadProduct | cli_commands/cli_utils.py:14-15 | "a^c*x^m" reads back as (c, m) |
| TermFormat.ReadSingle | cli_commands/cli_utils.py:16-19 | "a^c" or "x^m" alone reads back as (c, 0) or (0, m) |
| TermFormat.JoinedReadsBack | cli_commands/cli_utils.py:10-21 | a non-empty list prints to a text that reads back as the list |
| TermFormat.CliEmptyUnreadable | cli_commands/cli_utils.py:8-9 | the empty-list placeholder reads as no list at all |
| TermFormat.MainEmptyUnreadable | main.py:64-65 | main.py's "0" reads as no list at all |
| TermFormat.CliRoundTrip | cli_commands/cli_utils.py:6-21 | a non-empty list reads back from its text; the empty list's text reads as nothing |
| TermFormat.MainRoundTrip | main.py:55-83 | the same for main.py's printer |
| TermFormat.PrintersInjective | main.py:55-83 | each printer tells every two term lists apart |
| TermFormat.PrintersAgree | main.py:55-83 | the two printers agree exactly on the non-empty lists |
| TermFormat.MainDocstringFirst | main.py:60 | [(0,3)] prints as "x^3" |
| TermFormat.MainDocstringSecond | main.py:61 | [(1,9),(11,6),(0,3)] prints as "a^1*x^9 + a^11*x^6 + x^3" |
| TermFormat.ReorderInvariantsCli | cli_commands/cli_utils.py:23-33 | odds, odws, gamma_rank, delta_rank, citation first, then the other keys in their old order, every key with its value |
| TermFormat.ReorderInvariantsMain | main.py:85-98 | the same with k_to_1 added after citation |
| VbfObject.FallbackReadsBack | vbf_object.py:17-18 | the fallback text reads back as the default polynomial for n, and is "" when n has no default |
| VbfObject.KeptIrrPolyReadable | vbf_object.py:16-42 | the kept text is the user's text verbatim or the fallback, and reads as a polynomial unless it is "" for want of a default; a non-reducibility error propagates |
| VbfObject.Vbf.FromFields | vbf_object.py:44-52 | the object has the settled text, no invariants, no cached table, and a representation exactly for a non-empty term list |
| VbfObject.Vbf.Create | vbf_object.py:12-52 | construction fails exactly when a non-empty text reads as a polynomial and the field check raises an error not saying "is reducible"; otherwise the object has the kept text, no invariants, no cache, and a representation exactly for a non-empty term list |
| VbfObject.Vbf.FromRepresentation | vbf_object.py:54-85 | only a polynomial representation gives an object; a truth table fails in its conversion and anything else is rejected |
| VbfObject.Vbf.FromCachedTt | vbf_object.py:87-90 | always fails, since it goes through the truth-table path |
| VbfObject.Vbf.GetTruthTableList | vbf_object.py:92-99 | a non-empty cache is returned unchanged; otherwise the representation is converted once and cached; with neither, ValueError |
| VbfObject.Vbf.GetTruthTable | vbf_object.py:138-146 | the same cache filling, the table wrapped in a truth-table representation |
| VbfObject.Vbf.GetRepresentation | vbf_object.py:101-114 | the stored representation, and an error exactly when there is none |
| VbfObject.Vbf.SetRepresentation | vbf_object.py:116-136 | a polynomial is stored and an empty text replaced by the fallback; anything else fails and changes nothing |
| VbfObject.FromPolyWithoutText | vbf_object.py:16-19 | a polynomial given without a text, for an n with a default, ends with the default polynomial's text |
| VbfObject.FromPolyWithoutDefault | vbf_object.py:16-19 | without a text and without a default the object ends with no text |
| VbfObject.ZeroTextUnreadable | vbf_object.py:22-23 | the text "0" reads as no polynomial |
| VbfStorage.ParquetFilenameInjective | storage_pandas.py:8-16 | different (dimension, is_apn) pairs go to different files |
| VbfStorage.IsDuplicateCandidate | storage_pandas.py:19-42 | true exactly when some row has the same field, the same polynomial text and the same terms in any order |
| VbfStorage.DropDuplicates | storage_pandas.py:193 | the rows kept are exactly the rows of the table |
| VbfStorage.DropDuplicatesDistinct | storage_pandas.py:193 | no two rows left are equal |
| VbfStorage.DropDuplicatesOfDistinct | storage_pandas.py:193 | a table without equal rows is left as it is |
| VbfStorage.VbfDatabase.constructor | storage_pandas.py:49-60 | no file is stored yet, so every table reads as empty |
| VbfStorage.VbfDatabase.StoreVbf | storage_pandas.py:111-199 | a construction that raised stores nothing; otherwise the row goes to the APN or VBF table of its dimension unless that table holds the same function; otherwise that table becomes the old rows plus the row without duplicates and no other file changes |
| VbfStorage.StoreAppendsOne | storage_pandas.py:186-194 | when the table had no equal rows a store appends exactly the new row |
| VbfStorage.StoredIsDuplicate | storage_pandas.py:19-42 | after a store, the same function with its terms in any order is a duplicate |
| DeltaRank.MapDiffsFit | computations/rank/delta_rank.py:17-20 | for a map on n-bit words every difference f[x] ^ f[x ^ a] is an n-bit word, so it indexes a row of the table |
| DeltaRank.AddInput | computations/rank/delta_rank.py:18-20 | the loop over a for input x raises IndexError exactly when some difference f[x] ^ f[x ^ a] is at least 2^n; otherwise every cell then counts the inputs up to x |
| DeltaRank.MidwayStart | computations/rank/delta_rank.py:17-18 | before the a loop for input x no row has counted x yet |
| DeltaRank.MidwayStep | computations/rank/delta_rank.py:19-20 | `table[a][diff] += 1` counts input x in row a and in no other row |
| DeltaRank.MidwayEnd | computations/rank/delta_rank.py:17-20 | after the a loop every row has counted input x |
| DeltaRank.DdtTable | computations/rank/delta_rank.py:8-22 | `ddt(f)` raises IndexError exactly when some difference is not an n-bit word; otherwise cell (a, b) is the number of x with f[x] ^ f[x ^ a] == b |
| DeltaRank.DiffOutsideTable | computations/rank/delta_rank.py:19-20 | a difference of at least 2^n at one input means not every difference fits |
| DeltaRank.CountedAll | computations/rank/delta_rank.py:17-22 | with every input counted the table is the DDT |
| DeltaRank.RowPairs | computations/rank/delta_rank.py:36-38 | the b loop for row a appends `(a << n) \| b` exactly for the entries equal to 2, in increasing order |
| DeltaRank.PackIsPair | computations/rank/delta_rank.py:37-38 | `(a << n) \| b` is a * 2^n + b, and it is a delta pair exactly when `table[a][b] == 2` |
| DeltaRank.PairsBelowExtend | computations/rank/delta_rank.py:35-38 | moving past one packed number adds it exactly when it is a delta pair |
| DeltaRank.DeltaPairs | computations/rank/delta_rank.py:33-38 | the collected list is strictly increasing, holds exactly the packed (a, b) with a != 0 and DDT entry 2, and each is a 2n-bit word |
| DeltaRank.NoPairBelowSize | computations/rank/delta_rank.py:35 | no delta pair lies below 2^n, because a starts at 1 |
| DeltaRank.PairsBelowSquare | computations/rank/delta_rank.py:28-38 | every delta pair is below 2^(2n), the matrix dimension |
| DeltaRank.DeltaMatrix | computations/rank/delta_rank.py:25-46 | fails exactly when `ddt(f)` raises; otherwise the sorted delta pairs and the 2^(2n) x 2^(2n) matrix whose row x has a one exactly at x ^ y for each pair y |
| DeltaRank.PairsFit | computations/rank/delta_rank.py:42-45 | a list of 2n-bit words never makes `row[x ^ y]` leave the row |
| GammaRank.Oplus | computations/rank/gamma_rank.py:18-20 | `oplus(x, y)` is XOR: commutative and undone by XOR with y |
| GammaRank.PackAdds | computations/rank/gamma_rank.py:30 | `(hi << n) \| lo` with lo below 2^n is hi * 2^n + lo |
| GammaRank.PackUnpack | computations/rank/gamma_rank.py:30 | a packed pair decodes back to its high and low parts, so packing is one to one |
| GammaRank.PackLess | computations/rank/gamma_rank.py:30 | packing orders pairs lexicographically |
| GammaRank.PackBound | computations/rank/gamma_rank.py:27-30 | two n-bit words pack into a 2n-bit word, below the matrix dimension |
| GammaRank.Gamma | computations/rank/gamma_rank.py:30 | the gamma set has 2^n entries, entry x being `(x << n) \| f[x]` |
| GammaRank.GammaOfMap | computations/rank/gamma_rank.py:30 | for a map on n-bit words entry x decodes to (x, f[x]), is a 2n-bit word, and the entries are strictly increasing, hence distinct |
| GammaRank.MapGammaFits | computations/rank/gamma_rank.py:27-30 | for a map on n-bit words every gamma entry is below the matrix dimension |
| GammaRank.XorCancel | computations/rank/gamma_rank.py:37 | `x ^ a == x ^ b` only for a == b, so distinct words set distinct columns |
| GammaRank.ShiftedSize | computations/rank/gamma_rank.py:36-37 | k distinct words give k distinct columns x ^ y |
| GammaRank.ShiftedStep | computations/rank/gamma_rank.py:36-37 | one more word adds its column |
| GammaRank.ShiftedFresh | computations/rank/gamma_rank.py:36-37 | the column of a word differs from those of the words before it |
| GammaRank.RowOnes | computations/rank/gamma_rank.py:35-37 | a row over pairwise distinct words that all land inside it has exactly as many ones as words |
| GammaRank.GammaRowOnes | computations/rank/gamma_rank.py:33-38 | every row of the gamma matrix of a map on n-bit words has exactly 2^n ones |
| GammaRank.BuildRow | computations/rank/gamma_rank.py:35-37 | `row = [0]*dim` then `row[x ^ y] = 1`: IndexError exactly when some x ^ y is at least dim; otherwise a row of dim entries with a one exactly at the columns x ^ y |
| GammaRank.MatrixContent | computations/rank/gamma_rank.py:33-38 | the x loop fails exactly when some word is at least 2^k; otherwise 2^k rows, row x having a one exactly at x ^ y for each word y |
| GammaRank.RowFailsOnlyOnLargeWord | computations/rank/gamma_rank.py:34-37 | below 2^k, x ^ y leaves the row only when y itself does |
| GammaRank.GammaMatrix | computations/rank/gamma_rank.py:24-38 | fails exactly when some `(x << n) \| f[x]` is at least 2^(2n), never for a map on n-bit words; otherwise the 2^(2n) rows over the gamma set |

## Left out

- Text.Strip, Text.Lower and Text.IsDigits: only ASCII whitespace, ASCII case folding and ASCII digits are modelled. Python's `str.strip`, `str.lower` and `str.isdigit` also act on other Unicode characters, so the model says nothing about inputs that contain them.
- InterpolationText.ParseInts, BulkImport.ParseInt, ApnInvariants.LenientToken and Representations.IntOf: a number is an unsigned run of ASCII decimal digits. Python's `int()` also accepts a sign, `_` separators and Unicode digits. Such texts are reported as unparsable here, where Python would read a number.
- ApnStorage.StoreThenLoad: the spectra reload as count maps with integer keys. The source writes them with `json.dumps` and reads them with `json.loads`, which gives back string keys. The model does not distinguish the two key types.
- CppField.GF2nCtx.constructor: requires n <= 16. `is_monomial_impl` returns before building the context for larger n (invariants_computations.cpp:396), and that is the only caller.
- CppField.GF2nCtx.FillAntilog: `prev << 1` is taken on unbounded integers, not 32-bit unsigned ones. The shift can only overflow after an earlier entry has left the n-bit range. Such an entry already makes the log loop write outside its table, so the context is undefined either way.
- Representations.GaloisLib: the `galois` library is not modelled. Three things come in as parameters: its default irreducible polynomial per field size, the polynomials it accepts for GF(2^n), and its primitive element. Polynomial evaluation uses the interpolator's own product.
- ApnProperties.ComputeApnProperties: the polynomial degree that `galois` reports and the canonical-triplicate verdict are parameters. The differential uniformity is computed.
- Triplicate.RunAlg1EquivalenceTest: the outcome of the linear-equivalence search in `check_lin_eq_2x_uniform_3to1.c` is a parameter. Only the canonical-triplicate checks in front of it are modelled.
- `default_polynomials.py` is not part of this model. Its table is a map parameter of PolyText and VbfObject.
- ApnStorage.ApnDatabase.StoreApnWithProperties: takes the computations that fill a row as a parameter: truth table, properties, spectra and ranks.
- UserInputParser.DefaultIrrText: `str()` of a `galois` polynomial is modelled as the text "x^k + ... + x + 1" of its bitmask. The default polynomial itself is a library parameter.
- Compare: `cli_commands/compare_cmd.py` imports `load_match_list` and `save_match_list` from `apn_storage_pandas.py`, which defines neither, so that module cannot be loaded. The model follows the `compare` command of main.py.
- Compare.CompareApns: the JSON file is not modelled. A successful result is the content that `save_match_list` writes; an error means the file keeps its old content.
- MatchFilters.ThreeToOneFilter: requires every match to carry `properties`. The match-list loader always sets it (main.py:187), and MatchFilters.ThreeToOneEquivalenceCheck returns the AttributeError before filtering when a match lacks it.
- VbfStorage.StoreVbf: takes two parameters. One is the outcome of building the object, where an exception means nothing is stored. The other is the invariants that were computed.
- VbfStorage.DropDuplicates and the loaders: rows are values. Parquet files, pandas frames and file I/O are not modelled.
- DeltaRank.DeltaMatrix and GammaRank.GammaMatrix: only the matrices are modelled. Their rank over GF(2) is computed by Sage, which is not part of this model.
- Equivalence.Survivors and the MatchFilters members: the outcomes of the equivalence, CCZ and 3-to-1 tests are parameters. The worker pools that run those tests are not modelled.
- ApnInvariants.ComputeIsApn, ApnInvariants.ComputeAnfInvariants and ApnInvariants.ComputeKToOne: where the C code would have undefined behaviour, the model reports an error and writes nothing. C gives no defined value there.
- CppFunction.CreateFunctionChecked: the corrected creator is proved separately. The bindings keep the creator as written.
- Registries: plugin modules are registered by explicit calls. The automatic import of every module in the computations package is not modelled.
- InterpolationText: the field size is an explicit parameter. The module's header shifts by a global that is still `None` when it is read, so it would stop on import.
- Click option parsing, printing, progress output, threads and process pools, HTML export and the remaining commands are not modelled. Each modelled command is reduced to the rule it applies to its inputs and stored data.
- Terms.Term: exponents are natural numbers. The source reads terms with `ast.literal_eval` (add_input_cmd.py:73) and evaluates `a ** coeff_exp` and `x ** m_exp` (univariate_polynomial_representation.py:28, 38), so a negative exponent is accepted there and `0 ** -k` raises ZeroDivisionError at x = 0; neither is modelled.

## Findings

| source | as written | input that shows it | evidently intended | confidence | as-written member | corrected member |
|---|---|---|---|---|---|---|
| c_src/invariants_computations.cpp:250-288 | the degree of each coordinate is the weight of the highest index holding a 1 in its ANF | n = 3, table [0,0,0,1,1,1,1,0] (coordinate 0 is x0 x1 + x2): the scan gives 1, the algebraic degree is 2, so `is_quadratic` answers false | the largest weight of any index holding a 1 | not executed | CppAnf.HighestIndexMissesDegree | CppAnf.AlgebraicDegreeMvCorrected |
| c_src/invariants_computations.cpp:71-75 | the guard `(1U << n) == 0` never fires, so a table whose length is not a power of two is accepted | table [0,1,2]: accepted as a function of 0 bits whose computations see only entry 0 | refuse a table whose length is not 2^n | not executed | CppFunction.NonPowerOfTwoAccepted | CppFunction.CreateFunctionChecked |
| cli_commands/bulk_import_cmd.py:69-72 | a line with a citation adds `--citation` to the `add-input` call, and `add-input` (cli_commands/add_input_cmd.py:11-16) declares no such option | the example file of the command's own help text, "8" followed by one polynomial with a bracketed citation: the call has an undeclared option, so no polynomial is added | `add-input` accepts `--citation` | not executed | BulkImport.CitationRejected | BulkImport.InvokeArgsDeclared |
| apn_object.py:5-33 | neither constructor sets `properties`, and `compute_apn_properties` writes into it (apn_properties.py:26) | any parsed APN, for example n = 3 with terms [(0, 3)]: the first write raises AttributeError | `properties` starts as an empty dictionary | not executed | ApnProperties.ParsedApnRaises | ApnProperties.InitializedApnComputes |
| apn_storage_pandas.py:91 | `store_apn_pandas` calls `compute_apn_properties` on the freshly parsed object | any field size above 1, for example n = 3 with terms [(0, 3)]: AttributeError, so no APN is ever stored | the row is built and stored with the computed properties | not executed | ApnStorage.ApnDatabase.StoreApn | ApnStorage.ApnDatabase.StoreApnWithProperties |
| main.py:150-168 | `save_match_list` reads `properties` of every match, and the stored APNs that `compare` adds are parser-built objects without it | an empty match list, one input APN and one stored APN with equal invariants under `compare --compare-type gamma`: the save raises AttributeError and no match list is written | the new matches are saved with empty properties | not executed | Compare.NewMatchNotSaved | Compare.MatchesSavedWithProperties |
