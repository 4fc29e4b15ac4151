/** The two printers of a term list, `polynomial_to_str` in
    cli_commands/cli_utils.py and in main.py, and the invariant orders the
    two files put first. A term (c, m) prints as "a^c*x^m", a zero exponent
    dropping its half, and (0, 0) as "1"; the printers differ only on the
    empty list. */
module TermFormat {
  import opened Outcomes
  import opened Text
  import opened Terms
  import opened Dicts

  // ---------------------------------------------------------------
  // Printing

  /** The text of one term. Exponent 1 is printed like any other. */
  function TermText(t: Term): string
  {
    var alpha := if t.coeffExp != 0 then "a^" + NatToString(t.coeffExp) else "";
    var xPart := if t.monExp != 0 then "x^" + NatToString(t.monExp) else "";
    if alpha != "" && xPart != "" then alpha + "*" + xPart
    else if alpha + xPart == "" then "1"
    else alpha + xPart
  }

  function TermTexts(terms: seq<Term>): (r: seq<string>)
    ensures |r| == |terms| && forall i :: 0 <= i < |terms| ==> r[i] == TermText(terms[i])
  {
    seq(|terms|, i requires 0 <= i < |terms| => TermText(terms[i]))
  }

  /** What cli_utils.py prints for an empty list. */
  const CliEmptyText: string := "Not available. See cli_utils.py"

  /** What cli_utils.py prints: one part per term, in list order. */
  function CliText(terms: seq<Term>): string
  {
    if |terms| == 0 then CliEmptyText else Join(TermTexts(terms), " + ")
  }

  /** What main.py prints: the same, but "0" for an empty list. */
  function MainText(terms: seq<Term>): string
  {
    if |terms| == 0 then "0" else Join(TermTexts(terms), " + ")
  }

  /** The loop both printers share: one part per term, in input order. */
  method TermParts(univPoly: seq<Term>) returns (parts: seq<string>)
    ensures parts == TermTexts(univPoly)
  {
    parts := [];
    var i := 0;
    while i < |univPoly|
      invariant 0 <= i <= |univPoly|
      invariant parts == TermTexts(univPoly[..i])
    {
      var coeffExp, monExp := univPoly[i].coeffExp, univPoly[i].monExp;
      var alphaPart := if coeffExp != 0 then "a^" + NatToString(coeffExp) else "";
      var xPart := if monExp != 0 then "x^" + NatToString(monExp) else "";
      var partStr;
      if alphaPart != "" && xPart != "" {
        partStr := alphaPart + "*" + xPart;
      } else {
        partStr := alphaPart + xPart;
        if partStr == "" {
          partStr := "1";
        }
      }
      assert univPoly[..i + 1] == univPoly[..i] + [univPoly[i]];
      parts := parts + [partStr];
      i := i + 1;
    }
    assert univPoly[..i] == univPoly;
  }

  /** `polynomial_to_str` of cli_utils.py. */
  method PolynomialToStrCli(univPoly: seq<Term>) returns (s: string)
    ensures s == CliText(univPoly)
  {
    if |univPoly| == 0 {
      return CliEmptyText;
    }
    var parts := TermParts(univPoly);
    s := Join(parts, " + ");
  }

  /** `polynomial_to_str` of main.py. */
  method PolynomialToStrMain(univPoly: seq<Term>) returns (s: string)
    ensures s == MainText(univPoly)
  {
    if |univPoly| == 0 {
      return "0";
    }
    var parts := TermParts(univPoly);
    s := Join(parts, " + ");
  }

  // ---------------------------------------------------------------
  // Reading a printed list back

  /** "v^digits", read as the number. */
  function ReadPower(s: string, v: char): Option<nat>
  {
    if |s| >= 3 && s[0] == v && s[1] == '^' && IsDigits(s[2..]) then Some(DigitsValue(s[2..])) else None
  }

  /** One printed term read back. */
  function ReadTerm(s: string): Option<Term>
  {
    if s == "1" then Some(Term(0, 0))
    else
      var star := Find(s, '*');
      if star >= 0 then
        match (ReadPower(s[..star], 'a'), ReadPower(s[star + 1..], 'x'))
        case (Some(c), Some(m)) => Some(Term(c, m))
        case _ => None
      else if ReadPower(s, 'a').Some? then Some(Term(ReadPower(s, 'a').value, 0))
      else if ReadPower(s, 'x').Some? then Some(Term(0, ReadPower(s, 'x').value))
      else None
  }

  /** Each part read back. */
  function ReadEach(parts: seq<string>): (r: seq<Option<Term>>)
    ensures |r| == |parts| && forall i :: 0 <= i < |parts| ==> r[i] == ReadTerm(parts[i])
  {
    seq(|parts|, i requires 0 <= i < |parts| => ReadTerm(parts[i]))
  }

  /** The terms, when every part was read. */
  function Collect(rd: seq<Option<Term>>): Option<seq<Term>>
  {
    if |rd| == 0 then Some([])
    else match (Collect(rd[..|rd| - 1]), rd[|rd| - 1])
      case (Some(front), Some(t)) => Some(front + [t])
      case _ => None
  }

  /** A printed list read back: split on '+', strip, read each part. */
  function ReadPolynomialStr(s: string): Option<seq<Term>>
  {
    Collect(ReadEach(StripEach(Split(s, '+'))))
  }

  /** "v^" followed by digits has no whitespace, '+' or '*', and reads as
      the digits' value. */
  lemma PowerTextClean(v: char, d: string, s: string)
    requires v == 'a' || v == 'x'
    requires IsDigits(d) && s == [v, '^'] + d
    ensures NoneIn(s, Whitespace) && '+' !in s && '*' !in s && ReadPower(s, v) == Some(DigitsValue(d))
    ensures v == 'x' ==> ReadPower(s, 'a') == None
  {
    assert s[2..] == d;
    assert forall i :: 2 <= i < |s| ==> s[i] == d[i - 2];
  }

  /** The texts of the two halves of a term. */
  lemma PowerTexts(c: nat, m: nat)
    ensures var a, x := "a^" + NatToString(c), "x^" + NatToString(m);
      && NoneIn(a, Whitespace) && '+' !in a && '*' !in a && ReadPower(a, 'a') == Some(c)
      && NoneIn(x, Whitespace) && '+' !in x && '*' !in x && ReadPower(x, 'x') == Some(m) && ReadPower(x, 'a') == None
  {
    DigitsValueOfNatToString(c);
    DigitsValueOfNatToString(m);
    assert "a^" == ['a', '^'] && "x^" == ['x', '^'];
    PowerTextClean('a', NatToString(c), "a^" + NatToString(c));
    PowerTextClean('x', NatToString(m), "x^" + NatToString(m));
  }

  /** "a^c*x^m" reads back as (c, m). */
  lemma ReadProduct(a: string, x: string, c: nat, m: nat)
    requires NoneIn(a, Whitespace) && '+' !in a && '*' !in a && ReadPower(a, 'a') == Some(c)
    requires NoneIn(x, Whitespace) && '+' !in x && '*' !in x && ReadPower(x, 'x') == Some(m)
    ensures var s := a + "*" + x; NoneIn(s, Whitespace) && '+' !in s && ReadTerm(s) == Some(Term(c, m))
  {
    var s := a + "*" + x;
    FindAfterFree(a, "*" + x, '*');
    assert s[..|a|] == a && s[|a| + 1..] == x;
    assert forall i :: 0 <= i < |s| ==> s[i] == if i < |a| then a[i] else if i == |a| then '*' else x[i - |a| - 1];
  }

  /** "a^c" or "x^m" alone reads back as (c, 0) or (0, m). */
  lemma ReadSingle(s: string, v: char, k: nat)
    requires v == 'a' || v == 'x'
    requires NoneIn(s, Whitespace) && '*' !in s && ReadPower(s, v) == Some(k)
    requires v == 'x' ==> ReadPower(s, 'a') == None
    ensures ReadTerm(s) == Some(if v == 'a' then Term(k, 0) else Term(0, k))
  {
    assert Find(s, '*') == -1;
  }

  /** Every printed term reads back as itself. */
  lemma ReadTermText(t: Term)
    ensures var s := TermText(t); NoneIn(s, Whitespace) && '+' !in s && ReadTerm(s) == Some(t)
  {
    var c, m := t.coeffExp, t.monExp;
    var a, x := "a^" + NatToString(c), "x^" + NatToString(m);
    PowerTexts(c, m);
    if c != 0 && m != 0 {
      ReadProduct(a, x, c, m);
    } else if c != 0 {
      assert TermText(t) == a;
      ReadSingle(a, 'a', c);
    } else if m != 0 {
      assert TermText(t) == x;
      ReadSingle(x, 'x', m);
    }
  }

  /** Reads that all succeeded collect into the terms read. */
  lemma {:induction false} CollectAll(rd: seq<Option<Term>>, terms: seq<Term>)
    requires |rd| == |terms| && forall i :: 0 <= i < |terms| ==> rd[i] == Some(terms[i])
    ensures Collect(rd) == Some(terms)
    decreases |terms|
  {
    if |terms| > 0 {
      var k := |terms| - 1;
      CollectAll(rd[..k], terms[..k]);
      assert terms[..k] + [terms[k]] == terms;
    }
  }

  /** A failed read of the only part collects to nothing. */
  lemma CollectFails(r: Option<Term>)
    requires r.None?
    ensures Collect([r]) == None
  {
    assert [r][..0] == [];
  }

  /** A non-empty list prints to a text that reads back as the list. */
  lemma JoinedReadsBack(terms: seq<Term>)
    requires |terms| > 0
    ensures ReadPolynomialStr(Join(TermTexts(terms), " + ")) == Some(terms)
  {
    var parts := TermTexts(terms);
    forall i | 0 <= i < |parts|
      ensures '+' !in parts[i] && NoneIn(parts[i], Whitespace) && ReadTerm(parts[i]) == Some(terms[i])
    {
      ReadTermText(terms[i]);
    }
    assert " + " == [' ', '+', ' '];
    SplitPaddedJoin(parts, '+', "");
    assert "" + Join(parts, " + ") == Join(parts, " + ");
    CollectAll(ReadEach(parts), terms);
  }

  /** A separator-free text splits into itself. */
  lemma SplitNone(s: string, sep: char)
    requires sep !in s
    ensures Split(s, sep) == [s]
  {
    assert Find(s, sep) == -1;
  }

  /** A text without '+' that no term prints as reads as nothing. */
  lemma UnreadableWord(s: string)
    requires |s| > 0 && s != "1" && '+' !in s && '*' !in s && s[0] != 'a' && s[0] != 'x'
    requires !IsSpace(s[0]) && !IsSpace(s[|s| - 1])
    ensures ReadPolynomialStr(s) == None
  {
    SplitNone(s, '+');
    StripEnds("", s, "", Whitespace);
    assert "" + s + "" == s;
    assert Find(s, '*') == -1;
    assert ReadTerm(s) == None;
    assert ReadEach(StripEach([s])) == [ReadTerm(s)];
    CollectFails(ReadTerm(s));
  }

  /** The empty-list text of cli_utils.py reads as no list at all. */
  lemma CliEmptyUnreadable(s: string)
    requires s == CliEmptyText
    ensures ReadPolynomialStr(s) == None
  {
    CliEmptyWord(s);
    UnreadableWord(s);
  }

  lemma CliEmptyWord(s: string)
    requires s == CliEmptyText
    ensures |s| > 0 && s != "1" && '+' !in s && '*' !in s && s[0] != 'a' && s[0] != 'x'
    ensures !IsSpace(s[0]) && !IsSpace(s[|s| - 1])
  {
  }

  /** The empty-list text of main.py reads as no list at all. */
  lemma MainEmptyUnreadable(s: string)
    requires s == "0"
    ensures ReadPolynomialStr(s) == None
  {
    UnreadableWord(s);
  }

  /** cli_utils.py: a non-empty list reads back from its text; the empty
      list's text reads as nothing. */
  lemma CliRoundTrip(terms: seq<Term>)
    ensures ReadPolynomialStr(CliText(terms)) == if |terms| == 0 then None else Some(terms)
  {
    if |terms| == 0 {
      CliEmptyUnreadable(CliText(terms));
    } else {
      JoinedReadsBack(terms);
    }
  }

  /** main.py: the same, with "0" for the empty list. */
  lemma MainRoundTrip(terms: seq<Term>)
    ensures ReadPolynomialStr(MainText(terms)) == if |terms| == 0 then None else Some(terms)
  {
    if |terms| == 0 {
      MainEmptyUnreadable(MainText(terms));
    } else {
      JoinedReadsBack(terms);
    }
  }

  /** Hence each printer tells every two term lists apart. */
  lemma PrintersInjective(a: seq<Term>, b: seq<Term>)
    ensures CliText(a) == CliText(b) ==> a == b
    ensures MainText(a) == MainText(b) ==> a == b
  {
    CliRoundTrip(a);
    CliRoundTrip(b);
    MainRoundTrip(a);
    MainRoundTrip(b);
  }

  /** The two printers agree exactly on the non-empty lists. */
  lemma PrintersAgree(terms: seq<Term>)
    ensures CliText(terms) == MainText(terms) <==> |terms| > 0
  {
    if |terms| == 0 {
      assert CliText(terms)[0] == 'N';
    }
  }

  /** The text of a term whose exponents print as the given digits. */
  lemma TermTextOf(t: Term, cd: string, md: string)
    requires cd == NatToString(t.coeffExp) && md == NatToString(t.monExp)
    ensures t.coeffExp != 0 && t.monExp != 0 ==> TermText(t) == "a^" + cd + "*" + "x^" + md
    ensures t.coeffExp == 0 && t.monExp != 0 ==> TermText(t) == "x^" + md
    ensures t.coeffExp != 0 && t.monExp == 0 ==> TermText(t) == "a^" + cd
  {
    PowerTexts(t.coeffExp, t.monExp);
  }

  /** The first example in main.py's docstring. */
  lemma MainDocstringFirst(t: Term)
    requires t == Term(0, 3)
    ensures MainText([t]) == "x^3"
  {
    TermTextOf(t, "0", "3");
    assert "x^" + "3" == "x^3";
    assert TermTexts([t]) == ["x^3"];
  }

  /** The second example in main.py's docstring: exponent 1 of the
      coefficient is printed, not dropped. */
  lemma MainDocstringSecond(t1: Term, t2: Term, t3: Term)
    requires t1 == Term(1, 9) && t2 == Term(11, 6) && t3 == Term(0, 3)
    ensures MainText([t1, t2, t3]) == "a^1*x^9 + a^11*x^6 + x^3"
  {
    SecondExampleParts(t1, t2, t3);
    JoinThree("a^1*x^9", "a^11*x^6", "x^3", " + ");
  }

  lemma JoinThree(a: string, b: string, c: string, sep: string)
    ensures Join([a, b, c], sep) == a + sep + b + sep + c
  {
    JoinCons(a, [b, c], sep);
    JoinCons(b, [c], sep);
    assert [a, b, c][1..] == [b, c];
  }

  lemma SecondExampleParts(t1: Term, t2: Term, t3: Term)
    requires t1 == Term(1, 9) && t2 == Term(11, 6) && t3 == Term(0, 3)
    ensures TermTexts([t1, t2, t3]) == ["a^1*x^9", "a^11*x^6", "x^3"]
  {
    TermTextOf(t1, "1", "9");
    TermTextOf(t2, "11", "6");
    TermTextOf(t3, "0", "3");
    assert "a^" + "1" + "*" + "x^" + "9" == "a^1*x^9";
    assert "a^" + "11" + "*" + "x^" + "6" == "a^11*x^6";
    assert "x^" + "3" == "x^3";
  }

  // ---------------------------------------------------------------
  // Invariant orders

  /** The keys `reorder_invariants` of cli_utils.py puts first. */
  const CliOrder: seq<string> := ["odds", "odws", "gamma_rank", "delta_rank", "citation"]

  /** The keys `reorder_invariants` of main.py puts first. */
  const MainOrder: seq<string> := CliOrder + ["k_to_1"]

  /** `reorder_invariants` of cli_utils.py. */
  method ReorderInvariantsCli<V>(invariants: Dict<V>) returns (r: Dict<V>)
    requires Valid(invariants)
    ensures Valid(r) && IsReordering(r, invariants, CliOrder)
  {
    r := ReorderBy(invariants, CliOrder);
  }

  /** `reorder_invariants` of main.py. */
  method ReorderInvariantsMain<V>(invariants: Dict<V>) returns (r: Dict<V>)
    requires Valid(invariants)
    ensures Valid(r) && IsReordering(r, invariants, MainOrder)
  {
    assert Distinct(MainOrder);
    r := ReorderBy(invariants, MainOrder);
  }
}
