/** The `bulk-import` command of cli_commands/bulk_import_cmd.py. The first
    line of the file is the dimension n; every further line is one
    polynomial in the grammar `g^k*x^m + ... + x^m [citation]`. Each
    polynomial becomes the list literal "[(k,m),...]" that `add-input`
    reads, and the command ends by running `add-input` with one `--poly`
    (and `--citation`) per line. Reading the file and running `add-input`
    are outside the model: it takes the file's lines and yields either the
    message the command echoes or the argument list it passes on. */
module BulkImport {
  import opened Outcomes
  import opened Text
  import opened Terms
  import InterpolationText

  // ---------------------------------------------------------------
  // Citations

  /** `_extract_citation(line)`: the stripped text before the last '[' and
      the stripped text between the last '[' and the last ']'; the line
      itself and no citation when either bracket is missing or the last
      ']' comes before the last '['. */
  function ExtractCitation(line: string): (r: (string, string))
    ensures '[' !in line || ']' !in line ==> r == (line, "")
  {
    var open := RFind(line, '[');
    var close := RFind(line, ']');
    if open != -1 && close != -1 && close > open then
      (Strip(line[..open]), Strip(line[open + 1..close]))
    else
      (line, "")
  }

  /** The last occurrence of c is at i when s[i] is c and none follows. */
  lemma RFindAt(s: string, i: nat, c: char)
    requires i < |s| && s[i] == c && c !in s[i + 1..]
    ensures RFind(s, c) == i
  {
  }

  /** A polynomial followed by a bracketed citation (and bracket-free text
      after it) splits back into the two, each stripped. */
  lemma CitationRoundTrip(poly: string, cit: string, tail: string)
    requires '[' !in cit && ']' !in cit && '[' !in tail && ']' !in tail
    ensures ExtractCitation(poly + "[" + cit + "]" + tail) == (Strip(poly), Strip(cit))
  {
    var line := poly + "[" + cit + "]" + tail;
    var open := |poly|;
    var close := |poly| + 1 + |cit|;
    assert line[open + 1..] == cit + "]" + tail;
    RFindAt(line, open, '[');
    assert line[close + 1..] == tail;
    RFindAt(line, close, ']');
    assert line[..open] == poly;
    assert line[open + 1..close] == cit;
  }

  // ---------------------------------------------------------------
  // Terms

  /** `_parse_coefficient` (base 'g') and `_parse_monomial` (base 'x'): after
      stripping, the bare base is exponent 1 and the base, '^' and decimal
      digits (stripped once more) is that exponent; anything else is a
      ValueError naming the kind of segment. */
  function ParsePower(segment: string, base: char, name: string): Result<nat>
  {
    var s := Strip(segment);
    if s == [base] then Ok(1)
    else if StartsWith(s, [base, '^']) then
      var e := Strip(s[2..]);
      if IsDigits(e) then Ok(DigitsValue(e))
      else Err("Unrecognized " + name + " '" + s + "'. Expected '" + [base] + "^<int>'.")
    else
      Err("Unrecognized " + name + " '" + s + "'. Expected '" + [base] + "' or '" + [base] + "^<int>'.")
  }

  function ParseCoefficient(segment: string): Result<nat>
  {
    ParsePower(segment, 'g', "alpha coefficient")
  }

  function ParseMonomial(segment: string): Result<nat>
  {
    ParsePower(segment, 'x', "monomial")
  }

  /** `_parse_single_term`: "1" is (0, 0); a term with '*' is a product and
      any other a bare power. The term is stripped and lower-cased first. */
  function ParseSingleTerm(term: string): Result<Term>
  {
    var t := Lower(Strip(term));
    if t == "1" then Ok(Term(0, 0))
    else if '*' in t then ParseProduct(t)
    else ParseBare(t)
  }

  /** A product must have exactly two '*'-separated parts, a coefficient and
      a monomial. */
  function ParseProduct(t: string): Result<Term>
  {
    var parts := StripEach(Split(t, '*'));
    if |parts| != 2 then
      Err("Unrecognized polynomial term '" + t + "'. Expected 2 parts separated by '*'.")
    else match ParseCoefficient(parts[0])
      case Err(e) => Err(e)
      case Ok(c) =>
        match ParseMonomial(parts[1])
        case Err(e) => Err(e)
        case Ok(m) => Ok(Term(c, m))
  }

  /** A term without '*' starting with 'g' is a bare coefficient (c, 0),
      any other a bare monomial (0, m). */
  function ParseBare(t: string): Result<Term>
  {
    if StartsWith(t, "g") then
      match ParseCoefficient(t)
      case Err(e) => Err(e)
      case Ok(c) => Ok(Term(c, 0))
    else
      match ParseMonomial(t)
      case Err(e) => Err(e)
      case Ok(m) => Ok(Term(0, m))
  }

  /** The terms of a list of term texts, in order; the first bad term's
      error otherwise. */
  function ParseTerms(terms: seq<string>): (r: Result<seq<Term>>)
    ensures r.Ok? ==> |r.value| == |terms|
  {
    if |terms| == 0 then Ok([])
    else
      var front := terms[..|terms| - 1];
      match ParseTerms(front)
      case Err(e) => Err(e)
      case Ok(ts) =>
        match ParseSingleTerm(terms[|terms| - 1])
        case Err(e) => Err(e)
        case Ok(t) => Ok(ts + [t])
  }

  /** A successful read holds each term's own reading, in order. */
  lemma {:induction false} ParseTermsEach(terms: seq<string>)
    requires ParseTerms(terms).Ok?
    ensures forall j :: 0 <= j < |terms| ==> ParseSingleTerm(terms[j]) == Ok(ParseTerms(terms).value[j])
    decreases |terms|
  {
    if |terms| > 0 {
      var front := terms[..|terms| - 1];
      assert ParseTerms(front).Ok?;
      ParseTermsEach(front);
      var rest := ParseTerms(front).value;
      var last := ParseSingleTerm(terms[|terms| - 1]);
      assert last.Ok?;
      var all := ParseTerms(terms).value;
      assert all == rest + [last.value];
      forall j | 0 <= j < |terms|
        ensures ParseSingleTerm(terms[j]) == Ok(all[j])
      {
        if j < |front| {
          assert terms[j] == front[j] && all[j] == rest[j];
        } else {
          assert j == |terms| - 1 && all[j] == last.value;
        }
      }
    }
  }

  /** The read succeeds when every term reads. */
  lemma {:induction false} ParseTermsOk(terms: seq<string>)
    requires forall j :: 0 <= j < |terms| ==> ParseSingleTerm(terms[j]).Ok?
    ensures ParseTerms(terms).Ok?
    decreases |terms|
  {
    if |terms| > 0 {
      var front := terms[..|terms| - 1];
      assert forall j :: 0 <= j < |front| ==> front[j] == terms[j];
      ParseTermsOk(front);
    }
  }

  /** The terms of a polynomial line: its '+'-separated pieces, stripped. */
  function ParseLine(line: string): Result<seq<Term>>
  {
    ParseTerms(StripEach(Split(line, '+')))
  }

  /** "(c,m)". */
  function TupleText(t: Term): string
  {
    "(" + NatToString(t.coeffExp) + "," + NatToString(t.monExp) + ")"
  }

  function TupleTexts(ts: seq<Term>): (r: seq<string>)
    ensures |r| == |ts|
    ensures forall j :: 0 <= j < |ts| ==> r[j] == TupleText(ts[j])
  {
    seq(|ts|, j requires 0 <= j < |ts| => TupleText(ts[j]))
  }

  /** "[(c,m),...]", without spaces. */
  function ListLiteral(ts: seq<Term>): string
  {
    "[" + Join(TupleTexts(ts), ",") + "]"
  }

  /** What `_parse_line_to_univ_list_literal` returns or raises. */
  function ParseLineLiteral(line: string): Result<string>
  {
    match ParseLine(line)
    case Err(e) => Err(e)
    case Ok(ts) => Ok(ListLiteral(ts))
  }

  /** `_parse_line_to_univ_list_literal`: one pair per term, in input order. */
  method ParseLineToUnivListLiteral(line: string) returns (r: Result<string>)
    ensures r == ParseLineLiteral(line)
  {
    var terms := StripEach(Split(line, '+'));
    var tupleList: seq<Term> := [];
    var i := 0;
    while i < |terms|
      invariant 0 <= i <= |terms|
      invariant ParseTerms(terms[..i]) == Ok(tupleList)
    {
      var p := ParseSingleTerm(terms[i]);
      ParseTermsNext(terms, i, tupleList, p);
      if p.Err? {
        ParseTermsErrUp(terms, i + 1, |terms|);
        assert terms[..|terms|] == terms;
        return Err(p.error);
      }
      tupleList := tupleList + [p.value];
      i := i + 1;
    }
    assert terms[..|terms|] == terms;
    return Ok(ListLiteral(tupleList));
  }

  /** Reading one more term extends the read of the prefix before it. */
  lemma ParseTermsNext(terms: seq<string>, i: nat, acc: seq<Term>, p: Result<Term>)
    requires i < |terms| && ParseTerms(terms[..i]) == Ok(acc) && p == ParseSingleTerm(terms[i])
    ensures p.Ok? ==> ParseTerms(terms[..i + 1]) == Ok(acc + [p.value])
    ensures p.Err? ==> ParseTerms(terms[..i + 1]) == Err(p.error)
  {
    assert terms[..i + 1][..i] == terms[..i];
  }

  /** Once a prefix of the terms fails, every longer prefix fails alike. */
  lemma {:induction false} ParseTermsErrUp(terms: seq<string>, k: nat, j: nat)
    requires k <= j <= |terms| && ParseTerms(terms[..k]).Err?
    ensures ParseTerms(terms[..j]) == ParseTerms(terms[..k])
    decreases j - k
  {
    if k < j {
      assert terms[..k + 1][..k] == terms[..k];
      assert ParseTerms(terms[..k + 1]) == ParseTerms(terms[..k]);
      ParseTermsErrUp(terms, k + 1, j);
    }
  }

  // ---------------------------------------------------------------
  // Writing terms in the grammar, and reading them back

  /** The characters of a term text without '*'. */
  const TermChars: set<char> := {'0', '1', '2', '3', '4', '5', '6', '7', '8', '9', 'g', 'x', '^'}

  /** base^k. */
  function PowerText(base: char, k: nat): string
  {
    [base, '^'] + NatToString(k)
  }

  /** The shortest text of a term in the grammar: "1", "g^c", "x^m" or
      "g^c*x^m". */
  function TermSource(t: Term): string
  {
    if t.coeffExp == 0 && t.monExp == 0 then "1"
    else if t.monExp == 0 then PowerText('g', t.coeffExp)
    else if t.coeffExp == 0 then PowerText('x', t.monExp)
    else PowerText('g', t.coeffExp) + "*" + PowerText('x', t.monExp)
  }

  function TermSources(ts: seq<Term>): (r: seq<string>)
    ensures |r| == |ts|
    ensures forall j :: 0 <= j < |ts| ==> r[j] == TermSource(ts[j])
  {
    seq(|ts|, j requires 0 <= j < |ts| => TermSource(ts[j]))
  }

  lemma AllInConcat(a: string, b: string, chars: set<char>)
    requires AllIn(a, chars) && AllIn(b, chars)
    ensures AllIn(a + b, chars)
  {
    assert forall i :: 0 <= i < |a + b| ==> (a + b)[i] == if i < |a| then a[i] else b[i - |a|];
  }

  lemma DigitsTermChars(s: string)
    requires IsDigits(s)
    ensures AllIn(s, TermChars)
  {
    forall i | 0 <= i < |s| ensures s[i] in TermChars {
      assert IsDigit(s[i]);
    }
  }

  /** What a text made of term characters is free of. */
  lemma PlainFacts(s: string)
    requires |s| > 0 && AllIn(s, TermChars)
    ensures NoneIn(s, Whitespace) && '*' !in s && '+' !in s
    ensures Strip(s) == s && Lower(s) == s
  {
    PlainFree(s);
    PlainStrip(s);
    PlainLower(s);
  }

  lemma PlainFree(s: string)
    requires AllIn(s, TermChars)
    ensures NoneIn(s, Whitespace) && '*' !in s && '+' !in s
  {
    assert forall i :: 0 <= i < |s| ==> s[i] !in Whitespace && s[i] != '*' && s[i] != '+';
  }

  lemma PlainStrip(s: string)
    requires |s| > 0 && AllIn(s, TermChars)
    ensures Strip(s) == s
  {
    InterpolationText.StripUnpadded(s, Whitespace);
  }

  lemma PlainLower(s: string)
    requires AllIn(s, TermChars)
    ensures Lower(s) == s
  {
  }

  lemma PowerTextChars(base: char, k: nat)
    requires base in {'g', 'x'}
    ensures |PowerText(base, k)| >= 3 && AllIn(PowerText(base, k), TermChars)
    ensures PowerText(base, k)[0] == base
  {
    DigitsTermChars(NatToString(k));
    AllInConcat([base, '^'], NatToString(k), TermChars);
  }

  /** base^k reads back as k. */
  lemma PowerParses(base: char, name: string, k: nat)
    requires base in {'g', 'x'}
    ensures ParsePower(PowerText(base, k), base, name) == Ok(k)
  {
    var s := PowerText(base, k);
    PowerTextChars(base, k);
    PlainStrip(s);
    assert s[2..] == NatToString(k);
    InterpolationText.StripNumber(NatToString(k));
    DigitsValueOfNatToString(k);
  }

  /** The bare base reads as exponent 1. */
  lemma BaseParses(base: char, name: string)
    requires base in {'g', 'x'}
    ensures ParsePower([base], base, name) == Ok(1)
  {
    PlainStrip([base]);
  }

  /** A bare coefficient text reads as (c, 0). */
  lemma AloneCoefficient(p: string, c: nat)
    requires |p| > 0 && AllIn(p, TermChars) && p[0] == 'g' && ParseCoefficient(p) == Ok(c)
    ensures ParseSingleTerm(p) == Ok(Term(c, 0))
  {
    PlainFacts(p);
    assert p != "1";
    assert ParseBare(p) == Ok(Term(c, 0)) by {
      assert StartsWith(p, "g");
    }
  }

  /** A bare monomial text reads as (0, m). */
  lemma AloneMonomial(q: string, m: nat)
    requires |q| > 0 && AllIn(q, TermChars) && q[0] == 'x' && ParseMonomial(q) == Ok(m)
    ensures ParseSingleTerm(q) == Ok(Term(0, m))
  {
    PlainFacts(q);
    assert q != "1";
    assert ParseBare(q) == Ok(Term(0, m)) by {
      assert !StartsWith(q, "g");
    }
  }

  /** The characters of a product text. */
  const ProductChars: set<char> := TermChars + {'*'}

  lemma ProductTextChars(p: string, q: string)
    requires AllIn(p, TermChars) && AllIn(q, TermChars)
    ensures AllIn(p + "*" + q, ProductChars)
  {
    AllInConcat(p, "*", ProductChars);
    AllInConcat(p + "*", q, ProductChars);
  }

  lemma ProductFree(s: string)
    requires AllIn(s, ProductChars)
    ensures NoneIn(s, Whitespace) && '+' !in s && Lower(s) == s
  {
    assert forall i :: 0 <= i < |s| ==> s[i] !in Whitespace && s[i] != '+';
  }

  lemma ProductStrip(p: string, q: string)
    requires |p| > 0 && AllIn(p, TermChars) && |q| > 0 && AllIn(q, TermChars)
    ensures Strip(p + "*" + q) == p + "*" + q
  {
    var t := p + "*" + q;
    assert t[0] == p[0] && t[|t| - 1] == q[|q| - 1];
    InterpolationText.StripUnpadded(t, Whitespace);
  }

  /** A coefficient text, '*' and a monomial text split into the two. */
  lemma ProductSplit(p: string, q: string)
    requires |p| > 0 && AllIn(p, TermChars) && |q| > 0 && AllIn(q, TermChars)
    ensures StripEach(Split(p + "*" + q, '*')) == [p, q]
  {
    PlainFree(p);
    PlainFree(q);
    SplitProduct(p, q);
    PlainStrip(p);
    PlainStrip(q);
    assert StripEach([p, q]) == [p, q];
  }

  lemma SplitProduct(p: string, q: string)
    requires '*' !in p && '*' !in q
    ensures Split(p + "*" + q, '*') == [p, q]
  {
    assert p + "*" + q == p + (['*'] + q);
    SplitFirst(p, q, '*');
    assert Split(q, '*') == [q];
  }

  /** A coefficient text, '*' and a monomial text read as (c, m). */
  lemma ProductParses(p: string, q: string, c: nat, m: nat)
    requires |p| > 0 && AllIn(p, TermChars) && ParseCoefficient(p) == Ok(c)
    requires |q| > 0 && AllIn(q, TermChars) && ParseMonomial(q) == Ok(m)
    ensures ParseSingleTerm(p + "*" + q) == Ok(Term(c, m))
  {
    var t := p + "*" + q;
    ProductTextChars(p, q);
    ProductFree(t);
    ProductStrip(p, q);
    assert t[|p|] == '*';
    ProductSplit(p, q);
    assert ParseProduct(t) == Ok(Term(c, m));
  }

  /** Every term written in the grammar reads back as itself. */
  lemma TermSourceParses(t: Term)
    ensures ParseSingleTerm(TermSource(t)) == Ok(t)
  {
    PowerTextChars('g', t.coeffExp);
    PowerTextChars('x', t.monExp);
    PowerParses('g', "alpha coefficient", t.coeffExp);
    PowerParses('x', "monomial", t.monExp);
    if t.coeffExp == 0 && t.monExp == 0 {
      PlainFacts("1");
    } else if t.monExp == 0 {
      AloneCoefficient(PowerText('g', t.coeffExp), t.coeffExp);
    } else if t.coeffExp == 0 {
      AloneMonomial(PowerText('x', t.monExp), t.monExp);
    } else {
      ProductParses(PowerText('g', t.coeffExp), PowerText('x', t.monExp), t.coeffExp, t.monExp);
    }
  }

  /** Term texts are free of '+' and of whitespace. */
  lemma TermSourceFree(t: Term)
    ensures '+' !in TermSource(t) && NoneIn(TermSource(t), Whitespace) && |TermSource(t)| > 0
  {
    PowerTextChars('g', t.coeffExp);
    PowerTextChars('x', t.monExp);
    if t.coeffExp == 0 && t.monExp == 0 {
      PlainFree("1");
    } else if t.monExp == 0 {
      PlainFree(PowerText('g', t.coeffExp));
    } else if t.coeffExp == 0 {
      PlainFree(PowerText('x', t.monExp));
    } else {
      ProductTextChars(PowerText('g', t.coeffExp), PowerText('x', t.monExp));
      ProductFree(TermSource(t));
    }
  }

  /** Reading the texts of a term list gives the list back. */
  lemma {:induction false} TermSourcesParse(ts: seq<Term>)
    ensures ParseTerms(TermSources(ts)) == Ok(ts)
    decreases |ts|
  {
    if |ts| > 0 {
      var front := ts[..|ts| - 1];
      assert TermSources(ts)[..|ts| - 1] == TermSources(front);
      TermSourcesParse(front);
      TermSourceParses(ts[|ts| - 1]);
      assert ts == front + [ts[|ts| - 1]];
    }
  }

  /** A polynomial written as its terms joined by " + " reads back as its
      term list, in order. */
  lemma LineRoundTrip(ts: seq<Term>)
    requires |ts| >= 1
    ensures ParseLine(Join(TermSources(ts), " + ")) == Ok(ts)
  {
    var parts := TermSources(ts);
    forall j | 0 <= j < |parts|
      ensures '+' !in parts[j] && NoneIn(parts[j], Whitespace)
    {
      TermSourceFree(ts[j]);
    }
    assert "" + Join(parts, [' ', '+', ' ']) == Join(parts, " + ");
    SplitPaddedJoin(parts, '+', "");
    TermSourcesParse(ts);
  }

  // ---------------------------------------------------------------
  // The texts of polynomial_to_string_g, read back

  /** The coefficient exponent bulk import reads for the coefficient c as
      the renderer writes it: 1 has no "g^" part and reads as g^0. */
  function RenderedExponent(c: nat, log: seq<nat>): nat
  {
    if c == 1 || c >= |log| then 0 else log[c]
  }

  /** The terms the renderer writes for positions k .. size - 1, highest
      exponent first, as bulk import reads them. */
  function RenderedTerms(coeffs: seq<nat>, log: seq<nat>, k: nat, size: nat): seq<Term>
    requires size <= |coeffs|
    decreases size - k
  {
    if k >= size then []
    else
      var rest := RenderedTerms(coeffs, log, k + 1, size);
      if coeffs[k] == 0 then rest
      else rest + [Term(RenderedExponent(coeffs[k], log), k)]
  }

  /** One rendered term reads back as its coefficient's exponent and its
      position, and holds no '+' and no whitespace. */
  lemma RenderedTermParses(c: nat, i: nat, log: seq<nat>)
    requires c != 0 && InterpolationText.TermText(c, i, log).Ok?
    ensures var t := InterpolationText.TermText(c, i, log).value;
      && ParseSingleTerm(t) == Ok(Term(RenderedExponent(c, log), i))
      && |t| > 0 && '+' !in t && NoneIn(t, Whitespace)
  {
    if c == 1 {
      RenderedMonomial(i);
    } else {
      assert c < |log|;
      RenderedScaled(c, i, log);
    }
  }

  /** The coefficient 1: "1", "x" or "x^i". */
  lemma RenderedMonomial(i: nat)
    ensures var t := InterpolationText.TermText(1, i, []).value;
      && ParseSingleTerm(t) == Ok(Term(0, i))
      && |t| > 0 && '+' !in t && NoneIn(t, Whitespace)
  {
    if i == 0 {
      PlainFacts("1");
    } else if i == 1 {
      BaseParses('x', "monomial");
      PlainFacts("x");
      AloneMonomial("x", 1);
    } else {
      assert InterpolationText.TermText(1, i, []).value == PowerText('x', i);
      RenderedPower('x', "monomial", i);
      AloneMonomial(PowerText('x', i), i);
    }
  }

  /** Any other coefficient: "g^k", "g^k*x" or "g^k*x^i". */
  lemma RenderedScaled(c: nat, i: nat, log: seq<nat>)
    requires 1 < c < |log|
    ensures var t := InterpolationText.TermText(c, i, log).value;
      && ParseSingleTerm(t) == Ok(Term(log[c], i))
      && |t| > 0 && '+' !in t && NoneIn(t, Whitespace)
  {
    var g := PowerText('g', log[c]);
    assert InterpolationText.CoefficientToGPower(c, log) == Ok(g);
    if i == 0 {
      RenderedPower('g', "alpha coefficient", log[c]);
      AloneCoefficient(g, log[c]);
    } else if i == 1 {
      assert InterpolationText.TermText(c, i, log).value == g + "*x";
      RenderedTimesX(log[c]);
    } else {
      assert InterpolationText.TermText(c, i, log).value == g + "*" + PowerText('x', i);
      RenderedTimesPower(log[c], i);
    }
  }

  lemma RenderedTimesX(k: nat)
    ensures var t := PowerText('g', k) + "*x";
      && ParseSingleTerm(t) == Ok(Term(k, 1)) && |t| > 0 && '+' !in t && NoneIn(t, Whitespace)
  {
    var g := PowerText('g', k);
    RenderedPower('g', "alpha coefficient", k);
    XFacts();
    RenderedProduct(g, "x", k, 1);
    assert g + "*" + "x" == g + "*x";
  }

  lemma XFacts()
    ensures AllIn("x", TermChars) && ParseMonomial("x") == Ok(1)
  {
    BaseParses('x', "monomial");
  }

  lemma RenderedTimesPower(k: nat, i: nat)
    ensures var t := PowerText('g', k) + "*" + PowerText('x', i);
      && ParseSingleTerm(t) == Ok(Term(k, i)) && |t| > 0 && '+' !in t && NoneIn(t, Whitespace)
  {
    RenderedPower('g', "alpha coefficient", k);
    RenderedPower('x', "monomial", i);
    RenderedProduct(PowerText('g', k), PowerText('x', i), k, i);
  }

  /** base^k is a plain power text that reads as k. */
  lemma RenderedPower(base: char, name: string, k: nat)
    requires base in {'g', 'x'}
    ensures var s := PowerText(base, k);
      && |s| > 0 && AllIn(s, TermChars) && s[0] == base && ParsePower(s, base, name) == Ok(k)
      && '+' !in s && NoneIn(s, Whitespace)
  {
    PowerTextChars(base, k);
    PowerParses(base, name, k);
    PlainFree(PowerText(base, k));
  }

  /** A product of plain power texts reads as the pair and holds no '+' and
      no whitespace. */
  lemma RenderedProduct(p: string, q: string, c: nat, m: nat)
    requires |p| > 0 && AllIn(p, TermChars) && ParseCoefficient(p) == Ok(c)
    requires |q| > 0 && AllIn(q, TermChars) && ParseMonomial(q) == Ok(m)
    ensures ParseSingleTerm(p + "*" + q) == Ok(Term(c, m))
    ensures '+' !in p + "*" + q && NoneIn(p + "*" + q, Whitespace)
  {
    ProductParses(p, q, c, m);
    ProductTextChars(p, q);
    ProductFree(p + "*" + q);
  }

  /** The texts the renderer collects read back as the rendered terms. */
  lemma {:induction false} RenderedTextsParse(coeffs: seq<nat>, log: seq<nat>, k: nat, size: nat)
    requires size <= |coeffs| && InterpolationText.TermTexts(coeffs, log, k, size).Ok?
    ensures ParseTerms(InterpolationText.TermTexts(coeffs, log, k, size).value)
      == Ok(RenderedTerms(coeffs, log, k, size))
    decreases size - k
  {
    if k < size {
      RenderedTextsParse(coeffs, log, k + 1, size);
      var rest := InterpolationText.TermTexts(coeffs, log, k + 1, size).value;
      if coeffs[k] != 0 {
        RenderedTermParses(coeffs[k], k, log);
        var t := InterpolationText.TermText(coeffs[k], k, log).value;
        assert (rest + [t])[..|rest|] == rest;
      }
    }
  }

  /** The texts the renderer collects hold no '+' and no whitespace. */
  lemma {:induction false} RenderedTextsFree(coeffs: seq<nat>, log: seq<nat>, k: nat, size: nat)
    requires size <= |coeffs| && InterpolationText.TermTexts(coeffs, log, k, size).Ok?
    ensures var ts := InterpolationText.TermTexts(coeffs, log, k, size).value;
      forall j :: 0 <= j < |ts| ==> '+' !in ts[j] && NoneIn(ts[j], Whitespace)
    decreases size - k
  {
    if k < size {
      RenderedTextsFree(coeffs, log, k + 1, size);
      var rest := InterpolationText.TermTexts(coeffs, log, k + 1, size).value;
      if coeffs[k] != 0 {
        RenderedTermParses(coeffs[k], k, log);
        var t := InterpolationText.TermText(coeffs[k], k, log).value;
        assert forall j :: 0 <= j < |rest| ==> (rest + [t])[j] == rest[j];
      }
    }
  }

  /** Bulk import reads what polynomial_to_string_g writes: the nonzero
      coefficients from the highest exponent down, each as the log of its
      coefficient (0 for the coefficient 1) and its exponent. */
  lemma RenderedLineParses(coeffs: seq<nat>, log: seq<nat>, size: nat)
    requires InterpolationText.PolynomialToStringG(coeffs, log, size).Ok?
    ensures |RenderedTerms(coeffs, log, 0, size)| > 0 ==>
      ParseLine(InterpolationText.PolynomialToStringG(coeffs, log, size).value)
        == Ok(RenderedTerms(coeffs, log, 0, size))
  {
    var ts := InterpolationText.TermTexts(coeffs, log, 0, size).value;
    if |ts| > 0 {
      var line := InterpolationText.PolynomialToStringG(coeffs, log, size).value;
      assert line == Join(ts, " + ");
      assert StripEach(Split(line, '+')) == ts by {
        RenderedTextsFree(coeffs, log, 0, size);
        assert "" + Join(ts, [' ', '+', ' ']) == Join(ts, " + ");
        SplitPaddedJoin(ts, '+', "");
      }
    }
    RenderedTextsParse(coeffs, log, 0, size);
  }

  /** The renderer's text for the zero polynomial, "0", does not read. */
  lemma ZeroLineRejected()
    ensures ParseLine("0").Err?
  {
    assert Split("0", '+') == ["0"];
    PlainFacts("0");
    assert StripEach(["0"]) == ["0"];
    assert ["0"][..0] == [];
  }

  // ---------------------------------------------------------------
  // The docstring's example line

  /** The docstring's example, written out term by term. */
  const ExamplePolynomial := "g^15*x^48" + " + " + "g^16*x^33" + " + " + "g^16*x^18" + " + " + "x^17" + " + " + "x^3"
  const ExampleCitation := "L. Budaghyan, C. Carlet & G. Leander (2009)"
  const ExampleLine := ExamplePolynomial + " " + "[" + ExampleCitation + "]"
  const ExampleLiteralText := "[" + ("(15,48)" + "," + "(16,33)" + "," + "(16,18)" + "," + "(0,17)" + "," + "(0,3)") + "]"
  const ExampleTerms := [Term(15, 48), Term(16, 33), Term(16, 18), Term(0, 17), Term(0, 3)]

  /** The example line reads as the five terms (15,48), (16,33), (16,18),
      (0,17), (0,3) and the citation in brackets. */
  lemma DocstringExample(line: string, poly: string, citation: string, terms: seq<Term>)
    requires line == ExampleLine && poly == ExamplePolynomial
    requires citation == ExampleCitation && terms == ExampleTerms
    ensures ExtractCitation(line) == (poly, citation)
    ensures ParseLine(poly) == Ok(terms)
  {
    DocstringCitation(line, poly, citation);
    ExampleSources(poly, terms);
    LineRoundTrip(terms);
  }

  lemma DocstringCitation(line: string, poly: string, citation: string)
    requires line == ExampleLine && poly == ExamplePolynomial && citation == ExampleCitation
    ensures ExtractCitation(line) == (poly, citation)
  {
    ExampleEnds(poly, citation);
    CitationAfterSpace(poly, citation);
  }

  /** "poly [citation]" splits back into the two when neither has
      whitespace at its ends. */
  lemma CitationAfterSpace(poly: string, citation: string)
    requires |poly| > 0 && poly[0] !in Whitespace && poly[|poly| - 1] !in Whitespace
    requires |citation| > 0 && citation[0] !in Whitespace && citation[|citation| - 1] !in Whitespace
    requires '[' !in citation && ']' !in citation
    ensures ExtractCitation(poly + " " + "[" + citation + "]") == (poly, citation)
  {
    PaddedCitation(poly + " ", citation);
    StripTrailingSpace(poly);
    StripUnpadded(citation);
  }

  lemma PaddedCitation(head: string, citation: string)
    requires '[' !in citation && ']' !in citation
    ensures ExtractCitation(head + "[" + citation + "]") == (Strip(head), Strip(citation))
  {
    assert head + "[" + citation + "]" == head + "[" + citation + "]" + "";
    CitationRoundTrip(head, citation, "");
  }

  lemma StripTrailingSpace(s: string)
    requires |s| > 0 && s[0] !in Whitespace && s[|s| - 1] !in Whitespace
    ensures Strip(s + " ") == s
  {
    StripEnds("", s, " ", Whitespace);
    assert "" + s + " " == s + " ";
  }

  lemma StripUnpadded(s: string)
    requires |s| > 0 && s[0] !in Whitespace && s[|s| - 1] !in Whitespace
    ensures Strip(s) == s
  {
    StripEnds("", s, "", Whitespace);
    assert "" + s + "" == s;
  }

  lemma ExampleEnds(poly: string, citation: string)
    requires poly == ExamplePolynomial && citation == ExampleCitation
    ensures |poly| > 0 && poly[0] == 'g' && poly[|poly| - 1] == '3'
    ensures |citation| > 0 && citation[0] == 'L' && citation[|citation| - 1] == ')'
    ensures '[' !in citation && ']' !in citation
  {
  }

  lemma ExampleSources(poly: string, terms: seq<Term>)
    requires poly == ExamplePolynomial && terms == ExampleTerms
    ensures Join(TermSources(terms), " + ") == poly
  {
    var ts := TermSources(terms);
    SourceText(15, 48, "g^15*x^48");
    SourceText(16, 33, "g^16*x^33");
    SourceText(16, 18, "g^16*x^18");
    SourceText(0, 17, "x^17");
    SourceText(0, 3, "x^3");
    Join5(ts, " + ");
  }

  /** The grammar text of each example term. */
  lemma SourceText(c: nat, m: nat, text: string)
    requires (c, m, text) in {(15, 48, "g^15*x^48"), (16, 33, "g^16*x^33"), (16, 18, "g^16*x^18"),
                              (0, 17, "x^17"), (0, 3, "x^3")}
    ensures TermSource(Term(c, m)) == text
  {
    ExampleNumbers();
  }

  /** The list-literal text of each example term. */
  lemma TupleTextOf(c: nat, m: nat, text: string)
    requires (c, m, text) in {(15, 48, "(15,48)"), (16, 33, "(16,33)"), (16, 18, "(16,18)"),
                              (0, 17, "(0,17)"), (0, 3, "(0,3)")}
    ensures TupleText(Term(c, m)) == text
  {
    ExampleNumbers();
  }

  lemma ExampleNumbers()
    ensures NatToString(0) == "0" && NatToString(3) == "3"
    ensures NatToString(15) == "15" && NatToString(16) == "16" && NatToString(17) == "17"
    ensures NatToString(18) == "18" && NatToString(33) == "33" && NatToString(48) == "48"
  {
  }

  /** Joining five texts. */
  lemma Join5(ts: seq<string>, sep: string)
    requires |ts| == 5
    ensures Join(ts, sep) == ts[0] + sep + ts[1] + sep + ts[2] + sep + ts[3] + sep + ts[4]
  {
    assert Join(ts[4..], sep) == ts[4];
    assert Join(ts[3..], sep) == ts[3] + sep + ts[4] by { assert ts[3..][1..] == ts[4..]; }
    assert Join(ts[2..], sep) == ts[2] + sep + Join(ts[3..], sep) by { assert ts[2..][1..] == ts[3..]; }
    assert Join(ts[1..], sep) == ts[1] + sep + Join(ts[2..], sep) by { assert ts[1..][1..] == ts[2..]; }
  }

  // ---------------------------------------------------------------
  // The lines of the file

  /** `int(s)` for a stripped string: an optional sign and decimal digits;
      None where `int` raises ValueError. */
  function ParseInt(s: string): Option<int>
  {
    if |s| > 0 && (s[0] == '+' || s[0] == '-') then
      if IsDigits(s[1..]) then
        var v: int := DigitsValue(s[1..]);
        Some(if s[0] == '-' then -v else v)
      else None
    else if IsDigits(s) then Some(DigitsValue(s))
    else None
  }

  /** `int(str(i)) == i`. */
  lemma ParseIntToString(i: int)
    ensures ParseInt(IntToString(i)) == Some(i)
  {
    if i < 0 {
      assert IntToString(i)[1..] == NatToString(-i);
      DigitsValueOfNatToString(-i);
    } else {
      assert IsDigit(IntToString(i)[0]);
      DigitsValueOfNatToString(i);
    }
  }

  /** `line.strip().rstrip(',')`. */
  function CleanLine(line: string): (r: string)
    ensures |r| <= |line|
    ensures |r| > 0 ==> r[|r| - 1] != ','
  {
    StripRight(Strip(line), {','})
  }

  /** Cleaning takes off the surrounding whitespace and the trailing
      commas of a line, and nothing of its text. */
  lemma CleanPadded(a: string, t: string, commas: string, b: string)
    requires AllIn(a, Whitespace) && AllIn(b, Whitespace) && AllIn(commas, {','})
    requires |t| > 0 && t[0] !in Whitespace && t[|t| - 1] !in Whitespace && t[|t| - 1] != ','
    ensures CleanLine(a + t + commas + b) == t
  {
    var tc := t + commas;
    assert tc[0] == t[0];
    assert tc[|tc| - 1] !in Whitespace by {
      if |commas| > 0 {
        assert tc[|tc| - 1] == commas[|commas| - 1];
      }
    }
    assert a + t + commas + b == a + tc + b;
    StripEnds(a, tc, b, Whitespace);
    StripRightAt(t, commas, tc, {','});
    assert StripRight(tc, {','}) == t;
  }

  /** The polynomial text and the citation of a cleaned line: with a
      common citation, the stripped text before the first '[' and the
      stripped common citation; otherwise `_extract_citation`. */
  function LineParts(line: string, citationAll: string): (r: (string, string))
    ensures citationAll != "" ==> r.1 == Strip(citationAll)
    ensures citationAll == "" ==> r == ExtractCitation(line)
  {
    if citationAll != "" then (Strip(Split(line, '[')[0]), Strip(citationAll))
    else ExtractCitation(line)
  }

  /** With a common citation, nothing from a bracket on reaches the
      polynomial text. */
  lemma CommonCitationDropsBrackets(line: string, citationAll: string)
    requires citationAll != ""
    ensures '[' !in LineParts(line, citationAll).0
  {
    var head := Split(line, '[')[0];
    if '[' in Strip(head) {
      var i :| 0 <= i < |Strip(head)| && Strip(head)[i] == '[';
      StripInside(head, i);
    }
  }

  /** Every character of a stripped text comes from the text. */
  lemma StripInside(s: string, i: nat)
    requires i < |Strip(s)|
    ensures Strip(s)[i] in s
  {
    var l := StripLeft(s, Whitespace);
    StripLeftIndex(s, Whitespace, i);
  }

  /** How one line of the file reads: blank once cleaned, a polynomial
      text that fails to parse (with the parse error), or the list literal
      and the citation to pass on. */
  datatype LineRead = Blank | Bad(error: string) | Poly(literal: string, citation: string)

  /** One turn of the line loop of `bulk_import_cli`. */
  function ReadLine(line: string, citationAll: string): LineRead
  {
    var cleaned := CleanLine(line);
    if cleaned == "" then Blank
    else
      var parts := LineParts(cleaned, citationAll);
      match ParseLineLiteral(parts.0)
      case Err(e) => Bad(e)
      case Ok(literal) => Poly(literal, parts.1)
  }

  /** A line is read as failing exactly when it is not blank and its
      polynomial text does not parse, and then with that parse error; with
      a common citation, a good line carries that citation, stripped. */
  lemma ReadLineCases(line: string, citationAll: string)
    ensures ReadLine(line, citationAll).Blank? <==> CleanLine(line) == ""
    ensures ReadLine(line, citationAll).Bad?
      <==> CleanLine(line) != "" && ParseLine(LineParts(CleanLine(line), citationAll).0).Err?
    ensures ReadLine(line, citationAll).Bad? ==>
      ReadLine(line, citationAll).error == ParseLine(LineParts(CleanLine(line), citationAll).0).error
    ensures ReadLine(line, citationAll).Poly? && citationAll != "" ==>
      ReadLine(line, citationAll).citation == Strip(citationAll)
  {
  }

  /** Every line of the file, read. */
  function ReadLines(lines: seq<string>, citationAll: string): (r: seq<LineRead>)
    ensures |r| == |lines|
    decreases |lines|
  {
    if |lines| == 0 then []
    else ReadLines(lines[..|lines| - 1], citationAll) + [ReadLine(lines[|lines| - 1], citationAll)]
  }

  /** Line j of the file reads as ReadLine says. */
  lemma {:induction false} ReadLinesAt(lines: seq<string>, citationAll: string, j: nat)
    requires j < |lines|
    ensures ReadLines(lines, citationAll)[j] == ReadLine(lines[j], citationAll)
    decreases |lines|
  {
    if j < |lines| - 1 {
      ReadLinesAt(lines[..|lines| - 1], citationAll, j);
    }
  }

  lemma ReadLinesEach(lines: seq<string>, citationAll: string)
    ensures forall j {:trigger ReadLine(lines[j], citationAll)} ::
      0 <= j < |lines| ==> ReadLines(lines, citationAll)[j] == ReadLine(lines[j], citationAll)
  {
    forall j | 0 <= j < |lines|
      ensures ReadLines(lines, citationAll)[j] == ReadLine(lines[j], citationAll)
    {
      ReadLinesAt(lines, citationAll, j);
    }
  }

  datatype Gathered = Gathered(polys: seq<string>, citations: seq<string>)

  /** The message for a line that does not parse; lines count from 1. */
  function LineError(lineNo: nat, e: string): string
  {
    "Error on line " + NatToString(lineNo) + ": " + e
  }

  /** The number of non-blank reads among rs[1..k]. */
  function FilledCount(rs: seq<LineRead>, k: nat): nat
    requires 1 <= k <= |rs|
  {
    if k == 1 then 0
    else FilledCount(rs, k - 1) + if rs[k - 1].Blank? then 0 else 1
  }

  /** What the loop over rs[1..k] has collected, or the message it
      stops with: rs[k - 1] is line k of the file. */
  function GatherUpTo(rs: seq<LineRead>, k: nat): (r: Result<Gathered>)
    requires 1 <= k <= |rs|
    ensures r.Ok? ==> |r.value.polys| == |r.value.citations| == FilledCount(rs, k)
    decreases k
  {
    if k == 1 then Ok(Gathered([], []))
    else
      match GatherUpTo(rs, k - 1)
      case Err(e) => Err(e)
      case Ok(g) =>
        match rs[k - 1]
        case Blank => Ok(g)
        case Bad(e) => Err(LineError(k, e))
        case Poly(literal, citation) => Ok(Gathered(g.polys + [literal], g.citations + [citation]))
  }

  /** The lines gather without error exactly when none of them fails. */
  lemma {:induction false} GatherOkIff(rs: seq<LineRead>, k: nat)
    requires 1 <= k <= |rs|
    ensures GatherUpTo(rs, k).Ok? <==> forall j :: 1 <= j < k ==> !rs[j].Bad?
    decreases k
  {
    if k > 1 {
      GatherOkIff(rs, k - 1);
      assert (forall j :: 1 <= j < k ==> !rs[j].Bad?)
        <==> (forall j :: 1 <= j < k - 1 ==> !rs[j].Bad?) && !rs[k - 1].Bad?;
    }
  }

  /** The message names the first line that fails, and repeats its parse
      error. */
  lemma {:induction false} GatherFirstBad(rs: seq<LineRead>, k: nat, j: nat)
    requires 1 <= j < k <= |rs| && rs[j].Bad?
    requires forall i :: 1 <= i < j ==> !rs[i].Bad?
    ensures GatherUpTo(rs, k) == Err(LineError(j + 1, rs[j].error))
    decreases k
  {
    if k == j + 1 {
      GatherOkIff(rs, j);
    } else {
      GatherFirstBad(rs, k - 1, j);
    }
  }

  /** Once the gathering fails, the later lines change nothing. */
  lemma {:induction false} GatherErrUp(rs: seq<LineRead>, k: nat, j: nat)
    requires 1 <= k <= j <= |rs| && GatherUpTo(rs, k).Err?
    ensures GatherUpTo(rs, j) == GatherUpTo(rs, k)
    decreases j - k
  {
    if k < j {
      GatherErrUp(rs, k + 1, j);
    }
  }

  /** The gathered literals and citations are those of the non-blank
      lines, in file order. */
  lemma {:induction false} GatherIn(rs: seq<LineRead>, k: nat, i: nat)
    requires 1 <= k <= |rs| && GatherUpTo(rs, k).Ok?
    requires i < |GatherUpTo(rs, k).value.polys|
    ensures exists j :: 1 <= j < k && rs[j] == Poly(GatherUpTo(rs, k).value.polys[i],
                                                      GatherUpTo(rs, k).value.citations[i])
    decreases k
  {
    var g := GatherUpTo(rs, k - 1).value;
    if i < |g.polys| {
      GatherIn(rs, k - 1, i);
    } else {
      assert rs[k - 1].Poly?;
    }
  }

  /** With a common citation every gathered citation is that citation,
      stripped. */
  lemma CommonCitation(lines: seq<string>, citationAll: string, i: nat)
    requires |lines| >= 1 && citationAll != ""
    requires GatherUpTo(ReadLines(lines, citationAll), |lines|).Ok?
    requires i < |GatherUpTo(ReadLines(lines, citationAll), |lines|).value.citations|
    ensures GatherUpTo(ReadLines(lines, citationAll), |lines|).value.citations[i] == Strip(citationAll)
  {
    var rs := ReadLines(lines, citationAll);
    GatherIn(rs, |lines|, i);
    var j :| 1 <= j < |lines| && rs[j] == Poly(GatherUpTo(rs, |lines|).value.polys[i],
                                                GatherUpTo(rs, |lines|).value.citations[i]);
    ReadLinesAt(lines, citationAll, j);
    ReadLineCases(lines[j], citationAll);
  }

  // ---------------------------------------------------------------
  // The command

  /** What `bulk_import_cli` does: echo a message, or run `add-input` with
      these arguments. */
  datatype Outcome = Echo(message: string) | Invoke(args: seq<string>)

  const EmptyFileMessage := "The file is empty."
  const DimensionMessage := "First line of file must be an integer dimension (e.g. '8')."
  const NoPolynomialsMessage := "No polynomial lines found after the first line (dimension)."

  /** The options every invocation starts with. */
  function BaseArgs(dimension: int, irrPoly: string): seq<string>
  {
    ["--field-n", IntToString(dimension)]
      + (if Strip(irrPoly) != "" then ["--irr-poly", Strip(irrPoly)] else [])
  }

  /** `--poly` and, when there is one, `--citation` for one line. */
  function PolyOption(poly: string, citation: string): seq<string>
  {
    ["--poly", poly] + (if citation != "" then ["--citation", citation] else [])
  }

  /** The options for the gathered lines, in order. */
  function PolyArgs(polys: seq<string>, citations: seq<string>): seq<string>
    requires |polys| == |citations|
    decreases |polys|
  {
    if |polys| == 0 then []
    else
      PolyArgs(polys[..|polys| - 1], citations[..|citations| - 1])
        + PolyOption(polys[|polys| - 1], citations[|citations| - 1])
  }

  /** The outcome of the command on the file's lines; an absent option is
      the empty string, as both are false in Python. */
  function BulkImportOutcome(lines: seq<string>, irrPoly: string, citationAll: string): Outcome
  {
    if |lines| == 0 then Echo(EmptyFileMessage)
    else
      match ParseInt(Strip(lines[0]))
      case None => Echo(DimensionMessage)
      case Some(dimension) =>
        match GatherUpTo(ReadLines(lines, citationAll), |lines|)
        case Err(e) => Echo(e)
        case Ok(g) =>
          if |g.polys| == 0 then Echo(NoPolynomialsMessage)
          else Invoke(BaseArgs(dimension, irrPoly) + PolyArgs(g.polys, g.citations))
  }

  /** `bulk_import_cli`, the file read into its lines and `add-input`
      left to the caller. */
  method BulkImportCli(lines: seq<string>, irrPoly: string, citationAll: string) returns (r: Outcome)
    ensures r == BulkImportOutcome(lines, irrPoly, citationAll)
  {
    if |lines| == 0 {
      return Echo(EmptyFileMessage);
    }
    var dimension := ParseInt(Strip(lines[0]));
    if dimension.None? {
      return Echo(DimensionMessage);
    }
    ghost var rs := ReadLines(lines, citationAll);
    ReadLinesEach(lines, citationAll);
    var gathered := GatherLines(lines, citationAll, rs);
    OutcomeAfterGather(lines, irrPoly, citationAll, dimension.value, rs);
    if gathered.Err? {
      return Echo(gathered.error);
    }
    if |gathered.value.polys| == 0 {
      return Echo(NoPolynomialsMessage);
    }
    var args := InvokeArgs(dimension.value, irrPoly, gathered.value.polys, gathered.value.citations);
    return Invoke(args);
  }

  /** The loop over the lines after the first: each non-blank line gives a
      literal and a citation, and the first line that fails ends it. */
  method GatherLines(lines: seq<string>, citationAll: string, ghost rs: seq<LineRead>)
    returns (r: Result<Gathered>)
    requires |lines| > 0 && |rs| == |lines|
    requires forall j {:trigger ReadLine(lines[j], citationAll)} ::
      0 <= j < |lines| ==> rs[j] == ReadLine(lines[j], citationAll)
    ensures r == GatherUpTo(rs, |lines|)
  {
    var polys: seq<string> := [];
    var citations: seq<string> := [];
    var k := 1;
    while k < |lines|
      invariant 1 <= k <= |lines|
      invariant GatherUpTo(rs, k) == Ok(Gathered(polys, citations))
    {
      GatherStep(rs, k, Gathered(polys, citations));
      var read := ReadOneLine(lines, k, citationAll, rs);
      if read.Bad? {
        GatherErrUp(rs, k + 1, |lines|);
        return Err(LineError(k + 1, read.error));
      } else if read.Poly? {
        polys := polys + [read.literal];
        citations := citations + [read.citation];
      }
      k := k + 1;
    }
    return Ok(Gathered(polys, citations));
  }

  /** One turn of the line loop: clean the line, skip it when blank, split
      off the citation and parse the polynomial text. */
  method ReadOneLine(lines: seq<string>, k: nat, citationAll: string, ghost rs: seq<LineRead>)
    returns (r: LineRead)
    requires k < |lines| == |rs|
    requires forall j {:trigger ReadLine(lines[j], citationAll)} ::
      0 <= j < |lines| ==> rs[j] == ReadLine(lines[j], citationAll)
    ensures r == rs[k]
  {
    assert rs[k] == ReadLine(lines[k], citationAll);
    var cleaned := CleanLine(lines[k]);
    if cleaned == "" {
      return Blank;
    }
    var parts := LineParts(cleaned, citationAll);
    var literal := ParseLineToUnivListLiteral(parts.0);
    if literal.Err? {
      return Bad(literal.error);
    }
    return Poly(literal.value, parts.1);
  }

  /** One more line read extends the gathering by what it reads as. */
  lemma GatherStep(rs: seq<LineRead>, k: nat, g: Gathered)
    requires 1 <= k < |rs| && GatherUpTo(rs, k) == Ok(g)
    ensures rs[k].Blank? ==> GatherUpTo(rs, k + 1) == Ok(g)
    ensures rs[k].Bad? ==> GatherUpTo(rs, k + 1) == Err(LineError(k + 1, rs[k].error))
    ensures rs[k].Poly? ==>
      GatherUpTo(rs, k + 1) == Ok(Gathered(g.polys + [rs[k].literal], g.citations + [rs[k].citation]))
  {
  }

  /** The argument list: the dimension, the irreducible polynomial when
      given, then each literal with its citation when it has one. */
  method InvokeArgs(dimension: int, irrPoly: string, polys: seq<string>, citations: seq<string>)
    returns (args: seq<string>)
    requires |polys| == |citations|
    ensures args == BaseArgs(dimension, irrPoly) + PolyArgs(polys, citations)
  {
    args := ["--field-n", IntToString(dimension)];
    if Strip(irrPoly) != "" {
      args := args + ["--irr-poly", Strip(irrPoly)];
    }
    var j := 0;
    while j < |polys|
      invariant 0 <= j <= |polys|
      invariant args == BaseArgs(dimension, irrPoly) + PolyArgs(polys[..j], citations[..j])
    {
      InvokeArgsStep(BaseArgs(dimension, irrPoly), polys, citations, j, args);
      ghost var before := args;
      args := args + ["--poly", polys[j]];
      if citations[j] != "" {
        args := args + ["--citation", citations[j]];
      }
      assert args == before + PolyOption(polys[j], citations[j]);
      j := j + 1;
    }
    assert polys[..j] == polys && citations[..j] == citations;
  }

  /** The outcome once the dimension is read and the lines gathered. */
  lemma OutcomeAfterGather(lines: seq<string>, irrPoly: string, citationAll: string,
                           dimension: int, rs: seq<LineRead>)
    requires |lines| > 0 && ParseInt(Strip(lines[0])) == Some(dimension)
    requires rs == ReadLines(lines, citationAll)
    ensures GatherUpTo(rs, |lines|).Err? ==>
      BulkImportOutcome(lines, irrPoly, citationAll) == Echo(GatherUpTo(rs, |lines|).error)
    ensures GatherUpTo(rs, |lines|).Ok? && |GatherUpTo(rs, |lines|).value.polys| == 0 ==>
      BulkImportOutcome(lines, irrPoly, citationAll) == Echo(NoPolynomialsMessage)
    ensures GatherUpTo(rs, |lines|).Ok? && |GatherUpTo(rs, |lines|).value.polys| > 0 ==>
      var g := GatherUpTo(rs, |lines|).value;
      BulkImportOutcome(lines, irrPoly, citationAll)
        == Invoke(BaseArgs(dimension, irrPoly) + PolyArgs(g.polys, g.citations))
  {
  }

  /** Appending the options of line j to the arguments for the lines
      before it gives the arguments for the lines up to j. */
  lemma InvokeArgsStep(base: seq<string>, polys: seq<string>, citations: seq<string>, j: nat, args: seq<string>)
    requires |polys| == |citations| && j < |polys|
    requires args == base + PolyArgs(polys[..j], citations[..j])
    ensures args + PolyOption(polys[j], citations[j]) == base + PolyArgs(polys[..j + 1], citations[..j + 1])
  {
    PolyArgsStep(polys, citations, j);
  }

  /** The options for one more line follow those for the lines before. */
  lemma PolyArgsStep(polys: seq<string>, citations: seq<string>, j: nat)
    requires |polys| == |citations| && j < |polys|
    ensures PolyArgs(polys[..j + 1], citations[..j + 1])
      == PolyArgs(polys[..j], citations[..j]) + PolyOption(polys[j], citations[j])
  {
    assert polys[..j + 1][..j] == polys[..j] && citations[..j + 1][..j] == citations[..j];
  }

  // ---------------------------------------------------------------
  // Reading the arguments back

  /** The values given to option `name`, reading args as option/value
      pairs, as `add-input` does for its multiple options. */
  function OptionValues(args: seq<string>, name: string): seq<string>
    decreases |args|
  {
    if |args| < 2 then []
    else (if args[0] == name then [args[1]] else []) + OptionValues(args[2..], name)
  }

  lemma {:induction false} OptionValuesAppend(a: seq<string>, b: seq<string>, name: string)
    requires |a| % 2 == 0
    ensures OptionValues(a + b, name) == OptionValues(a, name) + OptionValues(b, name)
    decreases |a|
  {
    if |a| > 0 {
      var ab := a + b;
      assert ab[0] == a[0] && ab[1] == a[1];
      assert ab[2..] == a[2..] + b;
      OptionValuesAppend(a[2..], b, name);
    } else {
      assert a + b == b;
    }
  }

  /** The non-empty citations, in order. */
  function GivenCitations(citations: seq<string>): seq<string>
    decreases |citations|
  {
    if |citations| == 0 then []
    else
      GivenCitations(citations[..|citations| - 1])
        + if citations[|citations| - 1] != "" then [citations[|citations| - 1]] else []
  }

  lemma OptionValuesPair(option: string, value: string, rest: seq<string>, name: string)
    ensures OptionValues([option, value] + rest, name)
      == (if option == name then [value] else []) + OptionValues(rest, name)
  {
    assert ([option, value] + rest)[2..] == rest;
  }

  lemma PolyOptionRead(poly: string, citation: string)
    ensures |PolyOption(poly, citation)| % 2 == 0
    ensures OptionValues(PolyOption(poly, citation), "--poly") == [poly]
    ensures OptionValues(PolyOption(poly, citation), "--citation")
      == if citation != "" then [citation] else []
    ensures OptionValues(PolyOption(poly, citation), "--field-n") == []
    ensures OptionValues(PolyOption(poly, citation), "--irr-poly") == []
  {
    PolyOptionValues(poly, citation, "--poly");
    PolyOptionValues(poly, citation, "--citation");
    PolyOptionValues(poly, citation, "--field-n");
    PolyOptionValues(poly, citation, "--irr-poly");
  }

  /** The values one line's options give for one option name. */
  lemma PolyOptionValues(poly: string, citation: string, name: string)
    ensures OptionValues(PolyOption(poly, citation), name)
      == (if name == "--poly" then [poly] else []) + (if citation != "" && name == "--citation" then [citation] else [])
  {
    var tail: seq<string> := if citation != "" then ["--citation", citation] else [];
    OptionValuesPair("--poly", poly, tail, name);
    if citation != "" {
      assert tail == ["--citation", citation] + [];
      OptionValuesPair("--citation", citation, [], name);
    }
  }

  /** The options for the lines give back every polynomial literal and
      every non-empty citation, in order. */
  lemma {:induction false} PolyArgsRead(polys: seq<string>, citations: seq<string>)
    requires |polys| == |citations|
    ensures |PolyArgs(polys, citations)| % 2 == 0
    ensures OptionValues(PolyArgs(polys, citations), "--poly") == polys
    ensures OptionValues(PolyArgs(polys, citations), "--citation") == GivenCitations(citations)
    ensures OptionValues(PolyArgs(polys, citations), "--field-n") == []
    ensures OptionValues(PolyArgs(polys, citations), "--irr-poly") == []
    decreases |polys|
  {
    if |polys| > 0 {
      var n := |polys| - 1;
      PolyArgsRead(polys[..n], citations[..n]);
      var front := PolyArgs(polys[..n], citations[..n]);
      var last := PolyOption(polys[n], citations[n]);
      PolyOptionRead(polys[n], citations[n]);
      OptionValuesAppend(front, last, "--poly");
      OptionValuesAppend(front, last, "--citation");
      OptionValuesAppend(front, last, "--field-n");
      OptionValuesAppend(front, last, "--irr-poly");
      assert polys[..n] + [polys[n]] == polys;
    }
  }

  /** An invocation passes the dimension once, the irreducible polynomial
      once when given, and each gathered literal and non-empty citation in
      line order. */
  lemma InvokeReadsBack(lines: seq<string>, irrPoly: string, citationAll: string)
    requires BulkImportOutcome(lines, irrPoly, citationAll).Invoke?
    ensures var args := BulkImportOutcome(lines, irrPoly, citationAll).args;
      var g := GatherUpTo(ReadLines(lines, citationAll), |lines|).value;
      && ParseInt(Strip(lines[0])).Some?
      && GatherUpTo(ReadLines(lines, citationAll), |lines|).Ok?
      && OptionValues(args, "--field-n") == [IntToString(ParseInt(Strip(lines[0])).value)]
      && OptionValues(args, "--irr-poly") == (if Strip(irrPoly) != "" then [Strip(irrPoly)] else [])
      && OptionValues(args, "--poly") == g.polys && |g.polys| > 0
      && OptionValues(args, "--citation") == GivenCitations(g.citations)
  {
    var dimension := ParseInt(Strip(lines[0])).value;
    var rs := ReadLines(lines, citationAll);
    OutcomeAfterGather(lines, irrPoly, citationAll, dimension, rs);
    var g := GatherUpTo(rs, |lines|).value;
    ArgsReadBack(dimension, irrPoly, g.polys, g.citations);
  }

  /** The argument list gives back the dimension, the irreducible
      polynomial when given, the literals and the non-empty citations. */
  lemma ArgsReadBack(dimension: int, irrPoly: string, polys: seq<string>, citations: seq<string>)
    requires |polys| == |citations|
    ensures var args := BaseArgs(dimension, irrPoly) + PolyArgs(polys, citations);
      && OptionValues(args, "--field-n") == [IntToString(dimension)]
      && OptionValues(args, "--irr-poly") == (if Strip(irrPoly) != "" then [Strip(irrPoly)] else [])
      && OptionValues(args, "--poly") == polys
      && OptionValues(args, "--citation") == GivenCitations(citations)
  {
    var base := BaseArgs(dimension, irrPoly);
    var rest := PolyArgs(polys, citations);
    BaseArgsRead(dimension, irrPoly);
    PolyArgsRead(polys, citations);
    OptionValuesAppend(base, rest, "--field-n");
    OptionValuesAppend(base, rest, "--irr-poly");
    OptionValuesAppend(base, rest, "--poly");
    OptionValuesAppend(base, rest, "--citation");
  }

  lemma BaseArgsRead(dimension: int, irrPoly: string)
    ensures var base := BaseArgs(dimension, irrPoly);
      && |base| % 2 == 0
      && OptionValues(base, "--field-n") == [IntToString(dimension)]
      && OptionValues(base, "--irr-poly") == (if Strip(irrPoly) != "" then [Strip(irrPoly)] else [])
      && OptionValues(base, "--poly") == []
      && OptionValues(base, "--citation") == []
  {
    BaseArgsValues(dimension, irrPoly, "--field-n");
    BaseArgsValues(dimension, irrPoly, "--irr-poly");
    BaseArgsValues(dimension, irrPoly, "--poly");
    BaseArgsValues(dimension, irrPoly, "--citation");
  }

  /** The values the base options give for one option name. */
  lemma BaseArgsValues(dimension: int, irrPoly: string, name: string)
    ensures OptionValues(BaseArgs(dimension, irrPoly), name)
      == (if name == "--field-n" then [IntToString(dimension)] else [])
         + (if Strip(irrPoly) != "" && name == "--irr-poly" then [Strip(irrPoly)] else [])
  {
    var irr: seq<string> := if Strip(irrPoly) != "" then ["--irr-poly", Strip(irrPoly)] else [];
    OptionValuesPair("--field-n", IntToString(dimension), irr, name);
    if Strip(irrPoly) != "" {
      assert irr == ["--irr-poly", Strip(irrPoly)] + [];
      OptionValuesPair("--irr-poly", Strip(irrPoly), [], name);
    }
  }

  /** A file holding "8" and the docstring's example line runs `add-input`
      with dimension 8, the five pairs and the citation. */
  lemma ExampleFile(lines: seq<string>)
    requires lines == ["8", ExampleLine]
    ensures BulkImportOutcome(lines, "", "")
      == Invoke(["--field-n", "8", "--poly", ListLiteral(ExampleTerms), "--citation", ExampleCitation])
  {
    ExampleDimension();
    ExampleRead(lines[1], ExampleTerms);
    OneLineFile(lines, "", "", 8, ListLiteral(ExampleTerms), ExampleCitation);
    assert BaseArgs(8, "") == ["--field-n", "8"] by {
      StripAllIn("", Whitespace);
    }
    ConcatArgs("--field-n", "8", "--poly", ListLiteral(ExampleTerms), "--citation", ExampleCitation);
  }

  lemma ConcatArgs(a: string, b: string, c: string, d: string, e: string, f: string)
    ensures [a, b] + [c, d, e, f] == [a, b, c, d, e, f]
  {
  }

  /** A file of a dimension and one good line runs `add-input` on that line. */
  lemma OneLineFile(lines: seq<string>, irrPoly: string, citationAll: string,
                    dimension: int, literal: string, citation: string)
    requires |lines| == 2 && ParseInt(Strip(lines[0])) == Some(dimension)
    requires ReadLine(lines[1], citationAll) == Poly(literal, citation) && citation != ""
    ensures BulkImportOutcome(lines, irrPoly, citationAll)
      == Invoke(BaseArgs(dimension, irrPoly) + ["--poly", literal, "--citation", citation])
  {
    var rs := ReadLines(lines, citationAll);
    ReadLinesAt(lines, citationAll, 1);
    GatherOne(rs);
    assert PolyArgs([literal], [citation]) == ["--poly", literal, "--citation", citation];
  }

  lemma ExampleDimension()
    ensures ParseInt(Strip("8")) == Some(8) && IntToString(8) == "8"
  {
    StripEnds("", "8", "", Whitespace);
    assert "" + "8" + "" == "8";
  }

  /** The example line reads as its literal and its citation. */
  lemma ExampleRead(line: string, terms: seq<Term>)
    requires line == ExampleLine && terms == ExampleTerms
    ensures ReadLine(line, "") == Poly(ListLiteral(terms), ExampleCitation)
  {
    assert CleanLine(line) == line by {
      assert "" + line + "" + "" == line;
      CleanPadded("", line, "", "");
    }
    DocstringExample(line, ExamplePolynomial, ExampleCitation, terms);
    GoodLine(line, ExamplePolynomial, ExampleCitation, terms);
  }

  /** A clean line whose polynomial text parses reads as its literal. */
  lemma GoodLine(line: string, poly: string, citation: string, terms: seq<Term>)
    requires CleanLine(line) == line != ""
    requires ExtractCitation(line) == (poly, citation) && ParseLine(poly) == Ok(terms)
    ensures ReadLine(line, "") == Poly(ListLiteral(terms), citation)
  {
  }

  /** A single good line after the dimension gathers as itself. */
  lemma GatherOne(rs: seq<LineRead>)
    requires |rs| == 2 && rs[1].Poly?
    ensures GatherUpTo(rs, 2) == Ok(Gathered([rs[1].literal], [rs[1].citation]))
  {
    var g := Gathered([], []);
    assert GatherUpTo(rs, 1) == Ok(g);
    assert g.polys + [rs[1].literal] == [rs[1].literal];
    assert g.citations + [rs[1].citation] == [rs[1].citation];
  }

  lemma ExampleLiteral()
    ensures ListLiteral(ExampleTerms) == ExampleLiteralText
  {
    var ts := TupleTexts(ExampleTerms);
    TupleTextOf(15, 48, "(15,48)");
    TupleTextOf(16, 33, "(16,33)");
    TupleTextOf(16, 18, "(16,18)");
    TupleTextOf(0, 17, "(0,17)");
    TupleTextOf(0, 3, "(0,3)");
    Join5(ts, ",");
  }

  // ---------------------------------------------------------------
  // The options `add-input` declares

  /** The options `add_input_cli` declares: `--poly`, `--poly-file`,
      `--field-n` and `--irr-poly`. */
  const AddInputOptions: set<string> := {"--poly", "--poly-file", "--field-n", "--irr-poly"}

  /** The declared options with the `--citation` option that `bulk_import_cli`
      passes for every non-empty citation. */
  const AddInputOptionsWithCitation: set<string> := AddInputOptions + {"--citation"}

  /** `--citation` is none of the options `add-input` declares. */
  lemma CitationUndeclared()
    ensures "--citation" !in AddInputOptions
  {
    var c := "--citation";
    assert c != "--poly" by { assert |c| != |"--poly"|; }
    assert c != "--poly-file" by { assert |c| != |"--poly-file"|; }
    assert c != "--field-n" by { assert |c| != |"--field-n"|; }
    assert c != "--irr-poly" by { assert c[2] != "--irr-poly"[2]; }
  }

  /** Every option name of args, read as option/value pairs, is declared;
      click stops with a usage error on the first one that is not. */
  predicate Declared(args: seq<string>, declared: set<string>)
    decreases |args|
  {
    |args| < 2 || (args[0] in declared && Declared(args[2..], declared))
  }

  /** An option that is given a value and is not declared makes the
      argument list fail. */
  lemma {:induction false} UndeclaredRejected(args: seq<string>, name: string, declared: set<string>)
    requires OptionValues(args, name) != [] && name !in declared
    ensures !Declared(args, declared)
    decreases |args|
  {
    if args[0] != name {
      assert OptionValues(args, name) == OptionValues(args[2..], name);
      UndeclaredRejected(args[2..], name, declared);
    }
  }

  /** Two declared argument lists of option/value pairs stay declared
      when joined. */
  lemma {:induction false} DeclaredAppend(a: seq<string>, b: seq<string>, declared: set<string>)
    requires |a| % 2 == 0 && Declared(a, declared) && Declared(b, declared)
    ensures Declared(a + b, declared)
    decreases |a|
  {
    if |a| > 0 {
      var ab := a + b;
      assert ab[0] == a[0];
      assert ab[2..] == a[2..] + b;
      DeclaredAppend(a[2..], b, declared);
    } else {
      assert a + b == b;
    }
  }

  /** The options for the lines use only `--poly` and `--citation`. */
  lemma {:induction false} PolyArgsDeclared(polys: seq<string>, citations: seq<string>)
    requires |polys| == |citations|
    ensures Declared(PolyArgs(polys, citations), AddInputOptionsWithCitation)
    decreases |polys|
  {
    if |polys| > 0 {
      var n := |polys| - 1;
      PolyArgsDeclared(polys[..n], citations[..n]);
      PolyArgsRead(polys[..n], citations[..n]);
      var last := PolyOption(polys[n], citations[n]);
      var tail: seq<string> := if citations[n] != "" then ["--citation", citations[n]] else [];
      assert last[2..] == tail;
      assert Declared(tail, AddInputOptionsWithCitation);
      DeclaredAppend(PolyArgs(polys[..n], citations[..n]), last, AddInputOptionsWithCitation);
    }
  }

  /** As written: whenever a gathered line has a citation, the invocation
      gives `--citation`, which `add-input` does not declare, so the whole
      invocation fails and no polynomial is added. */
  lemma CitationRejected(lines: seq<string>, irrPoly: string, citationAll: string)
    requires BulkImportOutcome(lines, irrPoly, citationAll).Invoke?
    requires OptionValues(BulkImportOutcome(lines, irrPoly, citationAll).args, "--citation") != []
    ensures !Declared(BulkImportOutcome(lines, irrPoly, citationAll).args, AddInputOptions)
  {
    CitationUndeclared();
    UndeclaredRejected(BulkImportOutcome(lines, irrPoly, citationAll).args, "--citation", AddInputOptions);
  }

  /** The docstring's own example file is one such input. */
  lemma ExampleFileRejected(lines: seq<string>)
    requires lines == ["8", ExampleLine]
    ensures BulkImportOutcome(lines, "", "").Invoke?
    ensures !Declared(BulkImportOutcome(lines, "", "").args, AddInputOptions)
  {
    ExampleFile(lines);
    var args := BulkImportOutcome(lines, "", "").args;
    assert args[4] == "--citation" && args[5] == ExampleCitation;
    assert args[2..][2..] == args[4..];
    assert OptionValues(args[4..], "--citation") == [ExampleCitation];
    CitationUndeclared();
    UndeclaredRejected(args, "--citation", AddInputOptions);
  }

  /** Corrected: with `--citation` declared, every invocation the command
      makes uses only declared options. */
  lemma InvokeArgsDeclared(lines: seq<string>, irrPoly: string, citationAll: string)
    requires BulkImportOutcome(lines, irrPoly, citationAll).Invoke?
    ensures Declared(BulkImportOutcome(lines, irrPoly, citationAll).args, AddInputOptionsWithCitation)
  {
    var dimension := ParseInt(Strip(lines[0])).value;
    var rs := ReadLines(lines, citationAll);
    InvokeReadsBack(lines, irrPoly, citationAll);
    OutcomeAfterGather(lines, irrPoly, citationAll, dimension, rs);
    var g := GatherUpTo(rs, |lines|).value;
    var base := BaseArgs(dimension, irrPoly);
    BaseArgsRead(dimension, irrPoly);
    assert base[2..] == (if Strip(irrPoly) != "" then ["--irr-poly", Strip(irrPoly)] else []);
    assert Declared(base, AddInputOptionsWithCitation);
    PolyArgsDeclared(g.polys, g.citations);
    DeclaredAppend(base, PolyArgs(g.polys, g.citations), AddInputOptionsWithCitation);
  }

}
