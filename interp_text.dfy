/** The parts of `apn_interpolation.py` that the shared interpolation code
    does not cover: its tables of default reduction polynomials and
    generators, the `g^k*x^i` renderer of a coefficient list and the S-box
    line reader. That module keeps the field size in globals that are never
    set before use (`1 << None` at import); here the size is a parameter.
    Its field arithmetic, tables and interpolation are the ones of
    `GaloisField`, `FieldTables` and `Lagrange`. */
module InterpolationText {
  import opened Bits
  import opened Outcomes
  import opened Text

  // ---------------------------------------------------------------
  // DEFAULT_IRREDUCIBLE and DEFAULT_GENERATOR

  /** `DEFAULT_IRREDUCIBLE.get(n)`. */
  function DefaultIrreducible(n: nat): Option<nat>
  {
    match n
    case 2 => Some(0x7)
    case 3 => Some(0xB)
    case 4 => Some(0x13)
    case 5 => Some(0x25)
    case 6 => Some(0x5B)
    case 7 => Some(0x83)
    case 8 => Some(0x11D)
    case 9 => Some(0x211)
    case 10 => Some(0x46F)
    case 11 => Some(0x805)
    case 12 => Some(0x10EB)
    case 13 => Some(0x201B)
    case 14 => Some(0x40A9)
    case 15 => Some(0x8035)
    case 16 => Some(0x1002D)
    case 17 => Some(0x20009)
    case 18 => Some(0x41403)
    case 19 => Some(0x80027)
    case 20 => Some(0x1006F3)
    case 21 => Some(0x200065)
    case 22 => Some(0x401F61)
    case 23 => Some(0x800021)
    case 24 => Some(0x101E6A9)
    case 25 => Some(0x2000145)
    case 26 => Some(0x40045D3)
    case 27 => Some(0x80016AD)
    case 28 => Some(0x100020E5)
    case 29 => Some(0x20000005)
    case 30 => Some(0x400328AF)
    case 31 => Some(0x80000009)
    case 32 => Some(0x100008299)
    case _ => None
  }

  /** `DEFAULT_GENERATOR.get(n)`: 0x02 for every n the table lists. */
  function DefaultGenerator(n: nat): Option<nat>
  {
    if 2 <= n <= 32 then Some(2) else None
  }

  /** The exponents the comment beside each DEFAULT_IRREDUCIBLE entry
      writes, from the highest down. */
  function CommentExponents(n: nat): seq<nat>
  {
    match n
    case 2 => [2, 1, 0]
    case 3 => [3, 1, 0]
    case 4 => [4, 1, 0]
    case 5 => [5, 2, 0]
    case 6 => [6, 4, 3, 1, 0]
    case 7 => [7, 1, 0]
    case 8 => [8, 4, 3, 2, 0]
    case 9 => [9, 4, 0]
    case 10 => [10, 6, 5, 3, 2, 1, 0]
    case 11 => [11, 2, 0]
    case 12 => [12, 7, 6, 5, 3, 1, 0]
    case 13 => [13, 4, 3, 1, 0]
    case 14 => [14, 7, 5, 3, 0]
    case 15 => [15, 5, 4, 2, 0]
    case 16 => [16, 5, 3, 2, 0]
    case 17 => [17, 3, 0]
    case 18 => [18, 12, 10, 1, 0]
    case 19 => [19, 5, 2, 1, 0]
    case 20 => [20, 10, 9, 7, 6, 5, 4, 1, 0]
    case 21 => [21, 6, 5, 2, 0]
    case 22 => [22, 12, 11, 10, 9, 8, 6, 5, 0]
    case 23 => [23, 5, 0]
    case 24 => [24, 16, 15, 14, 13, 10, 9, 7, 5, 3, 0]
    case 25 => [25, 8, 6, 2, 0]
    case 26 => [26, 14, 10, 8, 7, 6, 4, 1, 0]
    case 27 => [27, 12, 10, 9, 7, 5, 3, 2, 0]
    case 28 => [28, 13, 7, 6, 5, 2, 0]
    case 29 => [29, 2, 0]
    case 30 => [30, 17, 16, 13, 11, 7, 5, 3, 2, 1, 0]
    case 31 => [31, 3, 0]
    case 32 => [32, 15, 9, 7, 4, 3, 0]
    case _ => []
  }

  /** The sum of 2^e over the exponents from position i on. */
  function ExpMask(es: seq<nat>, i: nat): nat
    decreases |es| - i
  {
    if i >= |es| then 0 else Pow2(es[i]) + ExpMask(es, i + 1)
  }

  /** The exponents from position i on strictly decrease. */
  predicate Descending(es: seq<nat>, i: nat)
    decreases |es| - i
  {
    i + 1 >= |es| || (es[i] > es[i + 1] && Descending(es, i + 1))
  }

  /** The comment of entry n writes x^n first and the constant 1 last,
      with exponents strictly decreasing, and the entry is its value. */
  predicate Commented(n: nat)
  {
    var es := CommentExponents(n);
    && |es| >= 2 && es[0] == n && es[|es| - 1] == 0 && Descending(es, 0)
    && DefaultIrreducible(n) == Some(ExpMask(es, 0))
  }

  /** Entry n exists, has bit n and bit 0 set and no bit above n, and is
      the polynomial its comment writes. */
  predicate DefaultEntryOk(n: nat)
  {
    && DefaultIrreducible(n).Some?
    && var p := DefaultIrreducible(n).value;
    && p < Pow2(n + 1) && Bit(p, n) == 1 && Bit(p, 0) == 1
    && p == ExpMask(CommentExponents(n), 0)
  }

  /** A strictly decreasing list of exponents headed by e gives a value of
      degree e, odd exactly when the list ends with 0. */
  lemma {:induction false} ExpMaskRange(es: seq<nat>, i: nat)
    requires i < |es| && Descending(es, i)
    ensures Pow2(es[i]) <= ExpMask(es, i) < Pow2(es[i] + 1)
    ensures ExpMask(es, i) % 2 == (if es[|es| - 1] == 0 then 1 else 0)
    decreases |es| - i
  {
    var p := Pow2(es[i]);
    if i + 1 < |es| {
      ExpMaskRange(es, i + 1);
      Pow2Monotone(es[i + 1] + 1, es[i]);
      var m := ExpMask(es, i + 1);
      assert ExpMask(es, i) == p + m;
      assert Pow2(es[i] + 1) == 2 * p;
      assert p == 2 * Pow2(es[i] - 1);
      EvenPlus(p, Pow2(es[i] - 1), m);
      assert ExpMask(es, i) % 2 == m % 2;
    } else {
      assert ExpMask(es, i) == p + 0;
      if es[i] > 0 {
        assert p == 2 * Pow2(es[i] - 1);
      }
    }
  }

  /** Adding an even number keeps the parity. */
  lemma EvenPlus(p: nat, h: nat, m: nat)
    requires p == 2 * h
    ensures (p + m) % 2 == m % 2
  {
  }

  /** The top and bottom bits of a value written by such a comment. */
  lemma DegreeBits(p: nat, es: seq<nat>, n: nat)
    requires |es| >= 2 && es[0] == n && es[|es| - 1] == 0 && Descending(es, 0)
    requires p == ExpMask(es, 0)
    ensures p < Pow2(n + 1) && Bit(p, n) == 1 && Bit(p, 0) == 1
  {
    ExpMaskRange(es, 0);
    BitTop(p, n);
  }

  lemma CommentedFrom2(n: nat)
    requires 2 <= n <= 5
    ensures DefaultEntryOk(n)
  {
    Pow2Values();
    if n == 2 {
      DegreeBits(0x7, [2, 1, 0], 2);
    } else if n == 3 {
      DegreeBits(0xB, [3, 1, 0], 3);
    } else if n == 4 {
      DegreeBits(0x13, [4, 1, 0], 4);
    } else if n == 5 {
      DegreeBits(0x25, [5, 2, 0], 5);
    }
  }

  lemma CommentedFrom6(n: nat)
    requires 6 <= n <= 9
    ensures DefaultEntryOk(n)
  {
    Pow2Values();
    if n == 6 {
      DegreeBits(0x5B, [6, 4, 3, 1, 0], 6);
    } else if n == 7 {
      DegreeBits(0x83, [7, 1, 0], 7);
    } else if n == 8 {
      DegreeBits(0x11D, [8, 4, 3, 2, 0], 8);
    } else if n == 9 {
      DegreeBits(0x211, [9, 4, 0], 9);
    }
  }

  lemma CommentedFrom10(n: nat)
    requires 10 <= n <= 13
    ensures DefaultEntryOk(n)
  {
    Pow2Values();
    if n == 10 {
      DegreeBits(0x46F, [10, 6, 5, 3, 2, 1, 0], 10);
    } else if n == 11 {
      DegreeBits(0x805, [11, 2, 0], 11);
    } else if n == 12 {
      DegreeBits(0x10EB, [12, 7, 6, 5, 3, 1, 0], 12);
    } else if n == 13 {
      DegreeBits(0x201B, [13, 4, 3, 1, 0], 13);
    }
  }

  lemma CommentedFrom14(n: nat)
    requires 14 <= n <= 17
    ensures DefaultEntryOk(n)
  {
    Pow2Values();
    if n == 14 {
      DegreeBits(0x40A9, [14, 7, 5, 3, 0], 14);
    } else if n == 15 {
      DegreeBits(0x8035, [15, 5, 4, 2, 0], 15);
    } else if n == 16 {
      DegreeBits(0x1002D, [16, 5, 3, 2, 0], 16);
    } else if n == 17 {
      DegreeBits(0x20009, [17, 3, 0], 17);
    }
  }

  lemma CommentedFrom18(n: nat)
    requires 18 <= n <= 19
    ensures DefaultEntryOk(n)
  {
    Pow2Values();
    if n == 18 {
      DegreeBits(0x41403, [18, 12, 10, 1, 0], 18);
    } else if n == 19 {
      DegreeBits(0x80027, [19, 5, 2, 1, 0], 19);
    }
  }

  lemma CommentedFrom20(n: nat)
    requires 20 <= n <= 21
    ensures DefaultEntryOk(n)
  {
    Pow2Values();
    if n == 20 {
      DegreeBits(0x1006F3, [20, 10, 9, 7, 6, 5, 4, 1, 0], 20);
    } else if n == 21 {
      DegreeBits(0x200065, [21, 6, 5, 2, 0], 21);
    }
  }

  lemma CommentedFrom22(n: nat)
    requires 22 <= n <= 23
    ensures DefaultEntryOk(n)
  {
    Pow2Values();
    if n == 22 {
      DegreeBits(0x401F61, [22, 12, 11, 10, 9, 8, 6, 5, 0], 22);
    } else if n == 23 {
      DegreeBits(0x800021, [23, 5, 0], 23);
    }
  }

  lemma CommentedFrom24(n: nat)
    requires 24 <= n <= 25
    ensures DefaultEntryOk(n)
  {
    Pow2Values();
    if n == 24 {
      DegreeBits(0x101E6A9, [24, 16, 15, 14, 13, 10, 9, 7, 5, 3, 0], 24);
    } else if n == 25 {
      DegreeBits(0x2000145, [25, 8, 6, 2, 0], 25);
    }
  }

  lemma CommentedFrom26(n: nat)
    requires 26 <= n <= 27
    ensures DefaultEntryOk(n)
  {
    Pow2Values();
    if n == 26 {
      DegreeBits(0x40045D3, [26, 14, 10, 8, 7, 6, 4, 1, 0], 26);
    } else if n == 27 {
      DegreeBits(0x80016AD, [27, 12, 10, 9, 7, 5, 3, 2, 0], 27);
    }
  }

  lemma CommentedFrom28(n: nat)
    requires 28 <= n <= 29
    ensures DefaultEntryOk(n)
  {
    Pow2Values();
    if n == 28 {
      DegreeBits(0x100020E5, [28, 13, 7, 6, 5, 2, 0], 28);
    } else if n == 29 {
      DegreeBits(0x20000005, [29, 2, 0], 29);
    }
  }

  lemma CommentedFrom30(n: nat)
    requires 30 <= n <= 31
    ensures DefaultEntryOk(n)
  {
    Pow2Values();
    if n == 30 {
      DegreeBits(0x400328AF, [30, 17, 16, 13, 11, 7, 5, 3, 2, 1, 0], 30);
    } else if n == 31 {
      DegreeBits(0x80000009, [31, 3, 0], 31);
    }
  }

  lemma CommentedFrom32(n: nat)
    requires 32 <= n <= 32
    ensures DefaultEntryOk(n)
  {
    Pow2Values();
    if n == 32 {
      DegreeBits(0x100008299, [32, 15, 9, 7, 4, 3, 0], 32);
    }
  }

  /** Each entry is well formed and matches its comment. */
  lemma AllCommented(n: nat)
    requires 2 <= n <= 32
    ensures DefaultEntryOk(n)
  {
    if n <= 5 {
      CommentedFrom2(n);
    } else if n <= 9 {
      CommentedFrom6(n);
    } else if n <= 13 {
      CommentedFrom10(n);
    } else if n <= 17 {
      CommentedFrom14(n);
    } else if n <= 19 {
      CommentedFrom18(n);
    } else if n <= 21 {
      CommentedFrom20(n);
    } else if n <= 23 {
      CommentedFrom22(n);
    } else if n <= 25 {
      CommentedFrom24(n);
    } else if n <= 27 {
      CommentedFrom26(n);
    } else if n <= 29 {
      CommentedFrom28(n);
    } else if n <= 31 {
      CommentedFrom30(n);
    } else {
      CommentedFrom32(n);
    }
  }

  /** Every entry of DEFAULT_IRREDUCIBLE has bit n and bit 0 set, no bit
      above n, and is the polynomial its comment writes; every generator is
      0x02; both tables cover exactly n = 2 .. 32. */
  lemma DefaultTables(n: nat)
    ensures DefaultIrreducible(n).Some? <==> 2 <= n <= 32
    ensures DefaultGenerator(n).Some? <==> 2 <= n <= 32
    ensures DefaultGenerator(n).Some? ==> DefaultGenerator(n).value == 2
    ensures 2 <= n <= 32 ==> DefaultEntryOk(n)
  {
    if 2 <= n <= 32 {
      AllCommented(n);
    }
  }

  // ---------------------------------------------------------------
  // coefficient_to_g_power and polynomial_to_string_g

  /** `coefficient_to_g_power(c)`: "1" for c == 1, else "g^" followed by
      the log table's entry for c; an index past the table raises. */
  function CoefficientToGPower(c: nat, log: seq<nat>): Result<string>
  {
    if c == 1 then Ok("1")
    else if c < |log| then Ok("g^" + NatToString(log[c]))
    else Err("IndexError: list index out of range")
  }

  /** The text of the nonzero coefficient c of x^i. */
  function TermText(c: nat, i: nat, log: seq<nat>): Result<string>
  {
    if c == 1 then Ok(if i == 0 then "1" else if i == 1 then "x" else "x^" + NatToString(i))
    else match CoefficientToGPower(c, log)
      case Err(e) => Err(e)
      case Ok(g) => Ok(if i == 0 then g else if i == 1 then g + "*x" else g + "*x^" + NatToString(i))
  }

  /** The texts of the nonzero coefficients among positions k .. size - 1,
      the highest exponent first: what the loop has collected once it has
      come down to k. */
  function TermTexts(coeffs: seq<nat>, log: seq<nat>, k: nat, size: nat): Result<seq<string>>
    requires size <= |coeffs|
    decreases size - k
  {
    if k >= size then Ok([])
    else match TermTexts(coeffs, log, k + 1, size)
      case Err(e) => Err(e)
      case Ok(ts) =>
        if coeffs[k] == 0 then Ok(ts)
        else match TermText(coeffs[k], k, log)
          case Err(e) => Err(e)
          case Ok(t) => Ok(ts + [t])
  }

  /** `polynomial_to_string_g(coeffs)` for a field of `size` elements: the
      term texts joined by " + ", or "0" when there is none. */
  function PolynomialToStringG(coeffs: seq<nat>, log: seq<nat>, size: nat): Result<string>
  {
    if size > |coeffs| then Err("IndexError: list index out of range")
    else match TermTexts(coeffs, log, 0, size)
      case Err(e) => Err(e)
      case Ok(ts) => Ok(if |ts| == 0 then "0" else Join(ts, " + "))
  }

  /** The loop of `polynomial_to_string_g`, from the highest exponent down,
      appending one text per nonzero coefficient. */
  method PolynomialToStringGLoop(coeffs: seq<nat>, log: seq<nat>, size: nat) returns (r: Result<string>)
    ensures r == PolynomialToStringG(coeffs, log, size)
  {
    if size > |coeffs| {
      return Err("IndexError: list index out of range");
    }
    var terms: seq<string> := [];
    var i := size;
    while i > 0
      invariant 0 <= i <= size
      invariant TermTexts(coeffs, log, i, size) == Ok(terms)
    {
      i := i - 1;
      var c := coeffs[i];
      if c != 0 {
        var term := TermText(c, i, log);
        if term.Err? {
          TermTextsErrUp(coeffs, log, 0, i, size);
          return Err(term.error);
        }
        terms := terms + [term.value];
      }
    }
    if |terms| == 0 {
      return Ok("0");
    }
    return Ok(Join(terms, " + "));
  }

  /** An index error at k is the error of the whole collection. */
  lemma {:induction false} TermTextsErrUp(coeffs: seq<nat>, log: seq<nat>, j: nat, k: nat, size: nat)
    requires size <= |coeffs| && j <= k && TermTexts(coeffs, log, k, size).Err?
    ensures TermTexts(coeffs, log, j, size) == TermTexts(coeffs, log, k, size)
    decreases k - j
  {
    if j < k {
      TermTextsErrUp(coeffs, log, j + 1, k, size);
    }
  }

  /** Every collected text is nonempty and starts with '1', 'x' or 'g'. */
  lemma {:induction false} TermTextsStart(coeffs: seq<nat>, log: seq<nat>, k: nat, size: nat)
    requires size <= |coeffs| && TermTexts(coeffs, log, k, size).Ok?
    ensures forall j :: 0 <= j < |TermTexts(coeffs, log, k, size).value| ==>
      var t := TermTexts(coeffs, log, k, size).value[j];
      |t| > 0 && t[0] in {'1', 'x', 'g'}
    decreases size - k
  {
    if k < size {
      TermTextsStart(coeffs, log, k + 1, size);
    }
  }

  /** The collection is empty exactly when every coefficient in range is 0. */
  lemma {:induction false} TermTextsEmpty(coeffs: seq<nat>, log: seq<nat>, k: nat, size: nat)
    requires size <= |coeffs| && TermTexts(coeffs, log, k, size).Ok?
    ensures |TermTexts(coeffs, log, k, size).value| == 0 <==> forall i :: k <= i < size ==> coeffs[i] == 0
    decreases size - k
  {
    if k < size {
      TermTextsEmpty(coeffs, log, k + 1, size);
    }
  }

  /** A join starts with its first part. */
  lemma {:induction false} JoinStarts(parts: seq<string>, sep: string)
    requires |parts| >= 1 && |parts[0]| > 0
    ensures |Join(parts, sep)| > 0 && Join(parts, sep)[0] == parts[0][0]
  {
  }

  /** The renderer gives "0" exactly for an all-zero coefficient list, and
      fails only on an index error: a too short list, or a coefficient other
      than 0 and 1 beyond the log table. */
  lemma ZeroRendersAsZero(coeffs: seq<nat>, log: seq<nat>, size: nat)
    ensures PolynomialToStringG(coeffs, log, size) == Ok("0") <==>
      size <= |coeffs| && forall i :: 0 <= i < size ==> coeffs[i] == 0
    ensures PolynomialToStringG(coeffs, log, size).Err? <==>
      size > |coeffs| || exists i :: 0 <= i < size && coeffs[i] > 1 && coeffs[i] >= |log|
  {
    if size <= |coeffs| {
      TermTextsFails(coeffs, log, 0, size);
      var r := TermTexts(coeffs, log, 0, size);
      if r.Ok? {
        TermTextsEmpty(coeffs, log, 0, size);
        if |r.value| > 0 {
          TermTextsStart(coeffs, log, 0, size);
          JoinStarts(r.value, " + ");
        }
      }
    }
  }

  /** The collection fails exactly on a coefficient beyond the log table. */
  lemma {:induction false} TermTextsFails(coeffs: seq<nat>, log: seq<nat>, k: nat, size: nat)
    requires size <= |coeffs|
    ensures TermTexts(coeffs, log, k, size).Err? <==>
      exists i :: k <= i < size && coeffs[i] > 1 && coeffs[i] >= |log|
    decreases size - k
  {
    if k < size {
      TermTextsFails(coeffs, log, k + 1, size);
      TermTextFails(coeffs[k], k, log);
      if TermTexts(coeffs, log, k + 1, size).Err? {
        var i :| k + 1 <= i < size && coeffs[i] > 1 && coeffs[i] >= |log|;
        assert k <= i < size;
      } else if coeffs[k] > 1 && coeffs[k] >= |log| {
        assert TermTexts(coeffs, log, k, size).Err?;
      } else {
        forall i | k <= i < size
          ensures !(coeffs[i] > 1 && coeffs[i] >= |log|)
        {
          if i > k {
            assert k + 1 <= i < size;
          }
        }
        assert TermTexts(coeffs, log, k, size).Ok?;
      }
    }
  }

  /** One term fails exactly on a coefficient beyond the log table. */
  lemma TermTextFails(c: nat, i: nat, log: seq<nat>)
    ensures c != 0 ==> (TermText(c, i, log).Err? <==> c > 1 && c >= |log|)
  {
  }

  // ---------------------------------------------------------------
  // parse_sbox_line

  /** `[p for p in parts if p]`. */
  function NonBlank(parts: seq<string>): (r: seq<string>)
    ensures forall j :: 0 <= j < |r| ==> |r[j]| > 0
  {
    if |parts| == 0 then []
    else (if |parts[0]| > 0 then [parts[0]] else []) + NonBlank(parts[1..])
  }

  /** `list(map(int, parts))` for unsigned decimal texts. */
  function ParseInts(parts: seq<string>): (r: Result<seq<nat>>)
    ensures r.Ok? ==> |r.value| == |parts|
  {
    if |parts| == 0 then Ok([])
    else if !IsDigits(parts[0]) then Err("ValueError: invalid literal for int()")
    else match ParseInts(parts[1..])
      case Err(e) => Err(e)
      case Ok(rest) => Ok([DigitsValue(parts[0])] + rest)
  }

  /** `parse_sbox_line(line)` for a field of `size` elements: strip, drop
      one trailing comma, strip braces, split on commas, strip and drop the
      blank pieces, and require exactly `size` numbers. */
  function ParseSboxLine(line: string, size: nat): (r: Result<seq<nat>>)
    ensures r.Ok? ==> |r.value| == size
  {
    var stripped := Strip(line);
    var trimmed := if EndsWith(stripped, ",") then stripped[..|stripped| - 1] else stripped;
    var inner := StripChars(trimmed, {'{', '}'});
    var parts := NonBlank(StripEach(Split(inner, ',')));
    if |parts| != size then Err("ValueError: Expected " + NatToString(size) + " decimal values")
    else ParseInts(parts)
  }

  /** The decimal texts of the values. */
  function NumberTexts(vals: seq<nat>): (r: seq<string>)
    ensures |r| == |vals|
    ensures forall i :: 0 <= i < |vals| ==> r[i] == NatToString(vals[i])
  {
    seq(|vals|, i requires 0 <= i < |vals| => NatToString(vals[i]))
  }

  /** An S-box line as the input files hold it: `{v0,v1,...},`. */
  function SboxLine(vals: seq<nat>): string
  {
    "{" + Join(NumberTexts(vals), ",") + "},"
  }

  /** Reading a written S-box line gives back the values, and any other
      size is refused. */
  lemma SboxLineRoundTrip(vals: seq<nat>, size: nat)
    ensures ParseSboxLine(SboxLine(vals), size) == if size == |vals| then Ok(vals) else
      Err("ValueError: Expected " + NatToString(size) + " decimal values")
  {
    var texts := NumberTexts(vals);
    var body := Join(texts, ",");
    SboxLineInner(texts, body, SboxLine(vals));
    SboxLinePieces(texts, body);
    ParseNumberTexts(vals);
  }

  /** Stripping, dropping the comma and stripping the braces leave the body. */
  lemma SboxLineInner(texts: seq<string>, body: string, line: string)
    requires forall j :: 0 <= j < |texts| ==> IsDigits(texts[j])
    requires body == Join(texts, ",") && line == "{" + body + "},"
    ensures var stripped := Strip(line);
      && EndsWith(stripped, ",")
      && StripChars(stripped[..|stripped| - 1], {'{', '}'}) == body
  {
    DigitsAllIn(texts);
    JoinAllIn(texts, ",", NumberChars);
    StripLineEnds(body, line);
    TrimComma(body, line);
    StripBraces(body);
  }

  /** Dropping the final comma of a line leaves the braced body. */
  lemma TrimComma(body: string, line: string)
    requires line == "{" + body + "},"
    ensures EndsWith(line, ",") && line[..|line| - 1] == "{" + body + "}"
  {
    var braced := "{" + body + "}";
    assert line == braced + ",";
    assert line[..|line| - 1] == braced;
  }

  /** Stripping the braces off a braced list of numbers gives the list. */
  lemma StripBraces(body: string)
    requires AllIn(body, NumberChars)
    ensures StripChars("{" + body + "}", {'{', '}'}) == body
  {
    NoBraces(body);
    StripPadded("{", body, "}", {'{', '}'});
  }

  lemma StripLineEnds(body: string, line: string)
    requires line == "{" + body + "},"
    ensures Strip(line) == line
  {
    assert line[0] == '{' && line[|line| - 1] == ',';
    assert '{' !in Whitespace && ',' !in Whitespace;
    StripUnpadded(line, Whitespace);
  }

  /** The body splits back into the number texts. */
  lemma SboxLinePieces(texts: seq<string>, body: string)
    requires forall j :: 0 <= j < |texts| ==> IsDigits(texts[j])
    requires body == Join(texts, ",")
    ensures NonBlank(StripEach(Split(body, ','))) == texts
  {
    if |texts| == 0 {
      assert Split(body, ',') == [""];
      assert StripEach([""]) == [""];
    } else {
      DigitsAllIn(texts);
      assert forall j :: 0 <= j < |texts| ==> ',' !in texts[j] by {
        forall j | 0 <= j < |texts| ensures ',' !in texts[j] {
          assert AllIn(texts[j], NumberChars);
        }
      }
      SplitJoin(texts, ',');
      StripDigits(texts);
      NonBlankKeeps(texts);
    }
  }

  /** The characters of a written line's body: digits and commas. */
  const NumberChars: set<char> := {'0', '1', '2', '3', '4', '5', '6', '7', '8', '9', ','}

  lemma DigitsAllIn(texts: seq<string>)
    requires forall j :: 0 <= j < |texts| ==> IsDigits(texts[j])
    ensures forall j :: 0 <= j < |texts| ==> AllIn(texts[j], NumberChars)
  {
    forall j, i | 0 <= j < |texts| && 0 <= i < |texts[j]| ensures texts[j][i] in NumberChars {
      var c := texts[j][i];
      assert IsDigit(c);
    }
  }

  /** A join keeps to the characters of its parts and separator. */
  lemma {:induction false} JoinAllIn(parts: seq<string>, sep: string, chars: set<char>)
    requires forall j :: 0 <= j < |parts| ==> AllIn(parts[j], chars)
    requires AllIn(sep, chars)
    ensures AllIn(Join(parts, sep), chars)
    decreases |parts|
  {
    if |parts| > 1 {
      JoinAllIn(parts[1..], sep, chars);
      var s := parts[0] + sep + Join(parts[1..], sep);
      assert forall i :: 0 <= i < |s| ==> s[i] in chars by {
        forall i | 0 <= i < |s| ensures s[i] in chars {
          if i < |parts[0]| {
          } else if i < |parts[0]| + |sep| {
            assert s[i] == sep[i - |parts[0]|];
          } else {
            assert s[i] == Join(parts[1..], sep)[i - |parts[0]| - |sep|];
          }
        }
      }
    }
  }

  lemma NoBraces(s: string)
    requires AllIn(s, NumberChars)
    ensures NoneIn(s, {'{', '}'})
  {
  }

  /** Stripping leaves a text alone whose ends are not stripped. */
  lemma StripUnpadded(s: string, chars: set<char>)
    requires |s| > 0 && s[0] !in chars && s[|s| - 1] !in chars
    ensures StripChars(s, chars) == s
  {
  }

  lemma StripDigits(texts: seq<string>)
    requires forall j :: 0 <= j < |texts| ==> IsDigits(texts[j])
    ensures StripEach(texts) == texts
  {
    forall j | 0 <= j < |texts| ensures Strip(texts[j]) == texts[j] {
      StripNumber(texts[j]);
    }
  }

  lemma StripNumber(t: string)
    requires IsDigits(t)
    ensures Strip(t) == t
  {
    assert !IsSpace(t[0]) && !IsSpace(t[|t| - 1]);
    StripUnpadded(t, Whitespace);
  }

  lemma {:induction false} NonBlankKeeps(parts: seq<string>)
    requires forall j :: 0 <= j < |parts| ==> |parts[j]| > 0
    ensures NonBlank(parts) == parts
    decreases |parts|
  {
    if |parts| > 0 {
      NonBlankKeeps(parts[1..]);
    }
  }

  /** Reading the decimal texts gives back the values. */
  lemma {:induction false} ParseNumberTexts(vals: seq<nat>)
    ensures ParseInts(NumberTexts(vals)) == Ok(vals)
    decreases |vals|
  {
    if |vals| > 0 {
      var texts := NumberTexts(vals);
      assert texts[1..] == NumberTexts(vals[1..]);
      ParseNumberTexts(vals[1..]);
      DigitsValueOfNatToString(vals[0]);
      assert IsDigits(texts[0]);
      assert vals == [vals[0]] + vals[1..];
    }
  }
}
