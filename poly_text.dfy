/** `computations/poly_parse_utils.py`: the strict reader of reduction
    polynomial texts such as "x^6 + x^4 + x^3 + x + 1" into bitmasks, the
    writer back to text, and the two fallbacks to the default polynomial of
    a field size. The table of default polynomials is a parameter. */
module PolyText {
  import opened Bits
  import opened Outcomes
  import opened Text

  // ---------------------------------------------------------------
  // Tokens

  /** The exponent a token stands for: '1' is x^0, 'x' is x^1, and
      'x^<digits>' is x^k; None for every other token. */
  function TokenExp(t: string): Option<nat>
  {
    if t == "1" then Some(0)
    else if t == "x" then Some(1)
    else if |t| >= 3 && t[..2] == "x^" && IsDigits(t[2..]) then Some(DigitsValue(t[2..]))
    else None
  }

  /** The largest exponent the reader accepts. */
  const MaxExp: nat := 2000

  /** The text the writer uses for x^e. */
  function ExpText(e: nat): string
  {
    if e == 0 then "1" else if e == 1 then "x" else "x^" + NatToString(e)
  }

  /** The writer's text for x^e reads back as e. */
  lemma TokenExpOfExpText(e: nat)
    ensures TokenExp(ExpText(e)) == Some(e)
  {
    if e >= 2 {
      var t := ExpText(e);
      assert t[2..] == NatToString(e);
      assert t[..2] == "x^";
      DigitsValueOfNatToString(e);
      if e >= 10 {
        assert t != "1" && t != "x" by { assert |NatToString(e)| >= 2; }
      }
    }
  }

  /** The writer's texts hold only 'x', '^' and digits. */
  lemma ExpTextChars(e: nat)
    ensures forall i :: 0 <= i < |ExpText(e)| ==> var c := ExpText(e)[i]; c == 'x' || c == '^' || IsDigit(c)
  {
    if e >= 2 {
      var d := NatToString(e);
      assert IsDigits(d);
      assert forall i :: 2 <= i < |ExpText(e)| ==> ExpText(e)[i] == d[i - 2];
    }
  }

  /** The tokens of a text: split on '+', each stripped and lower-cased. */
  function Tokens(s: string): (r: seq<string>)
    ensures |r| >= 1
  {
    LowerEach(StripEach(Split(s, '+')))
  }

  /** The mask the reader builds from the tokens, bit by bit; None as soon
      as one token is not '1', 'x' or 'x^k' with k <= 2000. */
  function MaskOf(tokens: seq<string>): Option<nat>
  {
    if |tokens| == 0 then Some(0)
    else
      match MaskOf(tokens[..|tokens| - 1])
      case None => None
      case Some(m) =>
        match TokenExp(tokens[|tokens| - 1])
        case None => None
        case Some(e) => if e > MaxExp then None else Some(Or(m, Pow2(e)))
  }

  /** The exponents the tokens name. */
  function ExpSet(tokens: seq<string>): set<nat>
  {
    if |tokens| == 0 then {}
    else
      ExpSet(tokens[..|tokens| - 1])
        + match TokenExp(tokens[|tokens| - 1]) case None => {} case Some(e) => {e}
  }

  /** A successful read sets exactly the named bits. */
  lemma {:induction false} MaskOfBits(tokens: seq<string>, j: nat)
    requires MaskOf(tokens).Some?
    ensures Bit(MaskOf(tokens).value, j) == 1 <==> j in ExpSet(tokens)
    decreases |tokens|
  {
    if |tokens| == 0 {
      BitOfZero(j);
    } else {
      var front := tokens[..|tokens| - 1];
      var m := MaskOf(front).value;
      var e := TokenExp(tokens[|tokens| - 1]).value;
      MaskOfBits(front, j);
      BitOfOr(m, Pow2(e), j);
      BitOfPow2(e, j);
    }
  }

  /** A successful read of a nonempty token list is never 0. */
  lemma {:induction false} MaskOfNonzero(tokens: seq<string>)
    requires |tokens| >= 1 && MaskOf(tokens).Some?
    ensures MaskOf(tokens).value != 0
  {
    var e := TokenExp(tokens[|tokens| - 1]).value;
    assert e in ExpSet(tokens);
    MaskOfBits(tokens, e);
    BitOfZero(e);
  }

  // ---------------------------------------------------------------
  // Reading

  /** `parse_irreducible_poly_str`: 0 for the empty text and for every text
      with a bad token, else the OR of 1 << k over its tokens. */
  function ParsePolyStr(s: string): nat
  {
    if |s| == 0 then 0
    else match MaskOf(Tokens(s)) case None => 0 case Some(m) => m
  }

  /** The reader, token by token. The `valid` flag of the source is set by
      every accepted token, so it is false only before the first one. */
  method ParseIrreduciblePolyStr(s: string) returns (mask: nat)
    ensures mask == ParsePolyStr(s)
  {
    if |s| == 0 {
      return 0;
    }
    var tokens := Tokens(s);
    mask := 0;
    var valid := false;
    var i := 0;
    while i < |tokens|
      invariant 0 <= i <= |tokens|
      invariant MaskOf(tokens[..i]) == Some(mask)
      invariant valid <==> i > 0
    {
      MaskOfStep(tokens, i, mask);
      var next := OrToken(tokens[i], mask);
      if next.None? {
        BadPrefixFails(tokens, i + 1);
        return 0;
      }
      mask := next.value;
      valid := true;
      i := i + 1;
    }
    assert tokens[..i] == tokens;
    if !valid {
      // The source returns 0 here; there is always a token, and each one
      // either set `valid` or ended the read, so this branch is dead.
      assert false;
    }
  }

  /** The body of the reader's loop for one token: or in its bit, or stop
      the whole read (None, where the source returns 0). */
  method OrToken(token: string, mask: nat) returns (r: Option<nat>)
    ensures r == match TokenExp(token)
      case None => None
      case Some(e) => if e > MaxExp then None else Some(Or(mask, Pow2(e)))
  {
    if token == "1" {
      return Some(Or(mask, 1));
    } else if token == "x" {
      return Some(Or(mask, Pow2(1)));
    } else if |token| >= 3 && token[..2] == "x^" && IsDigits(token[2..]) {
      var expVal := DigitsValue(token[2..]);
      if expVal > MaxExp {
        return None;
      }
      return Some(Or(mask, Pow2(expVal)));
    } else {
      return None;
    }
  }

  /** One more token: its bit is or-ed in, or the read fails. */
  lemma MaskOfStep(tokens: seq<string>, i: nat, m: nat)
    requires i < |tokens| && MaskOf(tokens[..i]) == Some(m)
    ensures MaskOf(tokens[..i + 1]) ==
      match TokenExp(tokens[i])
      case None => None
      case Some(e) => if e > MaxExp then None else Some(Or(m, Pow2(e)))
  {
    assert tokens[..i + 1][..i] == tokens[..i];
  }

  /** Once a prefix fails, the whole token list fails. */
  lemma {:induction false} BadPrefixFails(tokens: seq<string>, k: nat)
    requires k <= |tokens| && MaskOf(tokens[..k]).None?
    ensures MaskOf(tokens).None?
    decreases |tokens| - k
  {
    if k < |tokens| {
      assert tokens[..k + 1][..k] == tokens[..k];
      BadPrefixFails(tokens, k + 1);
    } else {
      assert tokens[..k] == tokens;
    }
  }

  /** The reader returns 0 exactly when it fails: on the empty text or on a
      bad token; any success has a bit set. */
  lemma ParseZeroIffFails(s: string)
    ensures ParsePolyStr(s) == 0 <==> |s| == 0 || MaskOf(Tokens(s)).None?
  {
    if |s| > 0 && MaskOf(Tokens(s)).Some? {
      MaskOfNonzero(Tokens(s));
    }
  }

  /** Each bit of a successful read is set iff some token names it; naming
      an exponent twice sets it once. */
  lemma ParseBits(s: string, j: nat)
    requires |s| > 0 && MaskOf(Tokens(s)).Some?
    ensures Bit(ParsePolyStr(s), j) == 1 <==> j in ExpSet(Tokens(s))
  {
    MaskOfBits(Tokens(s), j);
  }

  // ---------------------------------------------------------------
  // Writing

  /** The writer's terms for the set bits of m in [lo, hi), highest first. */
  function TermsFrom(m: nat, lo: nat, hi: nat): seq<string>
    decreases hi - lo
  {
    if lo >= hi then []
    else TermsFrom(m, lo + 1, hi) + (if Bit(m, lo) == 1 then [ExpText(lo)] else [])
  }

  /** `bitmask_to_poly_str`: "0" for 0, else the terms of the set bits from
      the top one down, joined by " + ". */
  function BitmaskToPolyStr(m: nat): string
  {
    if m == 0 then "0" else Join(TermsFrom(m, 0, BitLength(m)), " + ")
  }

  /** The writer's loop over exp = highest .. 0. */
  method BitmaskToPolyStrLoop(m: nat) returns (s: string)
    ensures s == BitmaskToPolyStr(m)
  {
    if m == 0 {
      return "0";
    }
    var bits: seq<string> := [];
    var hi := BitLength(m);
    var exp := hi;
    while exp > 0
      invariant 0 <= exp <= hi
      invariant bits == TermsFrom(m, exp, hi)
    {
      exp := exp - 1;
      if Bit(m, exp) == 1 {
        bits := bits + [ExpText(exp)];
      }
    }
    return Join(bits, " + ");
  }

  /** The writer's terms name exactly the set bits in range. */
  lemma {:induction false} TermsFromExps(m: nat, lo: nat, hi: nat)
    requires hi <= MaxExp + 1
    ensures MaskOf(TermsFrom(m, lo, hi)).Some?
    ensures forall j :: j in ExpSet(TermsFrom(m, lo, hi)) <==> lo <= j < hi && Bit(m, j) == 1
    decreases hi - lo
  {
    if lo < hi {
      var front := TermsFrom(m, lo + 1, hi);
      TermsFromExps(m, lo + 1, hi);
      var t := TermsFrom(m, lo, hi);
      if Bit(m, lo) == 1 {
        assert t == front + [ExpText(lo)];
        assert t[..|t| - 1] == front;
        TokenExpOfExpText(lo);
      } else {
        assert t == front;
      }
    }
  }

  /** The terms are free of '+' and whitespace, and lower case. */
  lemma {:induction false} TermsFromClean(m: nat, lo: nat, hi: nat)
    ensures forall i :: 0 <= i < |TermsFrom(m, lo, hi)| ==>
      var t := TermsFrom(m, lo, hi)[i];
      |t| > 0 && '+' !in t && NoneIn(t, Whitespace) && Lower(t) == t
    decreases hi - lo
  {
    if lo < hi {
      TermsFromClean(m, lo + 1, hi);
      ExpTextChars(lo);
      var t := ExpText(lo);
      assert Lower(t) == t;
    }
  }

  /** Nonzero masks have at least one term: the top bit. */
  lemma TermsFromNonempty(m: nat)
    requires m > 0
    ensures |TermsFrom(m, 0, BitLength(m))| >= 1
  {
    var hi := BitLength(m);
    BitTop(m, hi - 1);
    TermsFromHasTop(m, 0, hi);
  }

  lemma {:induction false} TermsFromHasTop(m: nat, lo: nat, hi: nat)
    requires lo < hi && Bit(m, hi - 1) == 1
    ensures |TermsFrom(m, lo, hi)| >= 1
    decreases hi - lo
  {
    if lo + 1 < hi {
      TermsFromHasTop(m, lo + 1, hi);
    }
  }

  /** Reading back a written mask gives the mask, for every mask with no
      bit above x^2000. */
  lemma WriteThenRead(m: nat)
    requires 0 < m && BitLength(m) <= MaxExp + 1
    ensures ParsePolyStr(BitmaskToPolyStr(m)) == m
  {
    var hi := BitLength(m);
    var terms := TermsFrom(m, 0, hi);
    TermsFromNonempty(m);
    TokensOfJoin(m, hi);
    JoinLength(terms);
    MaskOfTerms(m, hi);
  }

  /** The tokens of the written text are the written terms. */
  lemma TokensOfJoin(m: nat, hi: nat)
    requires |TermsFrom(m, 0, hi)| >= 1
    ensures Tokens(Join(TermsFrom(m, 0, hi), " + ")) == TermsFrom(m, 0, hi)
  {
    var terms := TermsFrom(m, 0, hi);
    TermsFromClean(m, 0, hi);
    var s := Join(terms, " + ");
    assert "" + s == s;
    SplitPaddedJoin(terms, '+', "");
  }

  /** The written terms read back as the bits of m. */
  lemma MaskOfTerms(m: nat, hi: nat)
    requires m > 0 && hi == BitLength(m) && hi <= MaxExp + 1
    ensures MaskOf(TermsFrom(m, 0, hi)) == Some(m)
  {
    var terms := TermsFrom(m, 0, hi);
    TermsFromExps(m, 0, hi);
    var r := MaskOf(terms).value;
    forall j: nat
      ensures Bit(r, j) == Bit(m, j)
    {
      MaskOfBits(terms, j);
      if j >= hi {
        BitAboveOne(m, hi, j);
      }
    }
    BitsDetermine(r, m);
  }

  lemma {:induction false} JoinLength(parts: seq<string>)
    requires |parts| >= 1
    ensures |Join(parts, " + ")| >= |parts[0]|
  {
    if |parts| >= 2 {
      JoinFirst(parts, " + ");
    }
  }

  // ---------------------------------------------------------------
  // Fallbacks

  /** `determine_irr_poly_str_for_polynomial`: the stripped user text when
      it reads, else the default polynomial's text, else "0". */
  function DetermineIrrPolyStr(fieldN: nat, userIrr: string, defaults: map<nat, nat>): string
  {
    if ParsePolyStr(userIrr) == 0 then
      if fieldN !in defaults then "0" else BitmaskToPolyStr(defaults[fieldN])
    else Strip(userIrr)
  }

  /** `default_poly_str_for_n`: the default polynomial's text, or "0". */
  function DefaultPolyStrForN(fieldN: nat, defaults: map<nat, nat>): string
  {
    if fieldN !in defaults then "0" else BitmaskToPolyStr(defaults[fieldN])
  }

  /** The chosen text is the user's (stripped) when it reads, and otherwise
      reads back as the default polynomial. */
  lemma DetermineChoosesReadable(fieldN: nat, userIrr: string, defaults: map<nat, nat>)
    requires fieldN in defaults ==> 0 < defaults[fieldN] && BitLength(defaults[fieldN]) <= MaxExp + 1
    ensures var r := DetermineIrrPolyStr(fieldN, userIrr, defaults);
      && (ParsePolyStr(userIrr) != 0 ==> r == Strip(userIrr))
      && (ParsePolyStr(userIrr) == 0 && fieldN in defaults ==> ParsePolyStr(r) == defaults[fieldN])
      && (ParsePolyStr(userIrr) == 0 && fieldN !in defaults ==> r == "0")
      && (ParsePolyStr(userIrr) == 0 ==> r == DefaultPolyStrForN(fieldN, defaults))
  {
    if ParsePolyStr(userIrr) == 0 && fieldN in defaults {
      WriteThenRead(defaults[fieldN]);
    }
  }
}
