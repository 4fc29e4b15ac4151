/** `apn_invariants.py`: the lenient reader of reduction polynomial texts
    that feeds the C invariant code, the skip-if-present bookkeeping of the
    invariants that code computes, and the reordering of the invariant
    dictionary, over the C functions through their bindings. */
module ApnInvariants {
  import opened Bits
  import opened Outcomes
  import opened Text
  import opened PolyText
  import opened Dicts
  import opened ApnObject
  import opened Ddt
  import opened Anf
  import opened Representations
  import opened CppFunction
  import opened CppField
  import opened CppMonomial
  import opened KToOne
  import opened CppExterns
  import opened InvariantBindings

  // ---------------------------------------------------------------
  // The lenient reader

  /** What one token does: set bit k, nothing, or make `int()` or the
      shift raise ValueError. */
  datatype TokenEffect = SetBit(k: nat) | Ignored | Raises

  /** '1' sets bit 0, 'x' bit 1, 'x^' followed by a decimal number (with
      surrounding whitespace, as `int()` allows) bit k; any other 'x^' text
      raises; every other token is passed over. */
  function LenientToken(t: string): TokenEffect
  {
    if t == "1" then SetBit(0)
    else if t == "x" then SetBit(1)
    else if StartsWith(t, "x^") then
      var digits := Strip(t[2..]);
      if IsDigits(digits) then SetBit(DigitsValue(digits)) else Raises
    else Ignored
  }

  /** The tokens: all spaces removed, "^+" turned into "^", split on '+'. */
  function LenientTokens(s: string): (r: seq<string>)
    ensures |r| >= 1
  {
    Split(ReplaceCaretPlus(RemoveChar(s, ' ')), '+')
  }

  /** The mask after the tokens, or the error of the first raising one. */
  function LenientMaskOf(tokens: seq<string>): Result<nat>
  {
    if |tokens| == 0 then Ok(0)
    else
      match LenientMaskOf(tokens[..|tokens| - 1])
      case Err(e) => Err(e)
      case Ok(m) =>
        match LenientToken(tokens[|tokens| - 1])
        case SetBit(k) => Ok(Or(m, Pow2(k)))
        case Ignored => Ok(m)
        case Raises => Err("ValueError: invalid literal for int()")
  }

  /** `parse_irreducible_poly_str` of apn_invariants.py. */
  function LenientParse(s: string): Result<nat>
  {
    LenientMaskOf(LenientTokens(s))
  }

  /** The reader's loop over the tokens. */
  method ParseIrreduciblePolyStrLenient(s: string) returns (r: Result<nat>)
    ensures r == LenientParse(s)
  {
    var terms := LenientTokens(s);
    var bitmask := 0;
    var i := 0;
    while i < |terms|
      invariant 0 <= i <= |terms|
      invariant LenientMaskOf(terms[..i]) == Ok(bitmask)
    {
      assert terms[..i + 1][..i] == terms[..i];
      var next := ApplyToken(terms[i], bitmask);
      if next.Err? {
        LenientErrSticks(terms, i + 1);
        return next;
      }
      bitmask := next.value;
      i := i + 1;
    }
    assert terms[..i] == terms;
    return Ok(bitmask);
  }

  /** The body of the reader's loop for one token. */
  method ApplyToken(t: string, bitmask: nat) returns (r: Result<nat>)
    ensures r == match LenientToken(t)
      case SetBit(k) => Ok(Or(bitmask, Pow2(k)))
      case Ignored => Ok(bitmask)
      case Raises => Err("ValueError: invalid literal for int()")
  {
    if t == "1" {
      return Ok(Or(bitmask, Pow2(0)));
    } else if t == "x" {
      return Ok(Or(bitmask, Pow2(1)));
    } else if StartsWith(t, "x^") {
      var digits := Strip(t[2..]);
      if !IsDigits(digits) {
        return Err("ValueError: invalid literal for int()");
      }
      return Ok(Or(bitmask, Pow2(DigitsValue(digits))));
    }
    return Ok(bitmask);
  }

  /** Once a token raises, the whole read raises. */
  lemma {:induction false} LenientErrSticks(tokens: seq<string>, k: nat)
    requires k <= |tokens| && LenientMaskOf(tokens[..k]).Err?
    ensures LenientMaskOf(tokens) == LenientMaskOf(tokens[..k])
    decreases |tokens| - k
  {
    if k < |tokens| {
      assert tokens[..k + 1][..k] == tokens[..k];
      LenientErrSticks(tokens, k + 1);
    } else {
      assert tokens[..k] == tokens;
    }
  }

  /** The bits the tokens set. */
  function SetBits(tokens: seq<string>): set<nat>
  {
    if |tokens| == 0 then {}
    else
      SetBits(tokens[..|tokens| - 1])
        + match LenientToken(tokens[|tokens| - 1]) case SetBit(k) => {k} case _ => {}
  }

  /** A read fails exactly when some token raises. */
  lemma {:induction false} LenientRaises(tokens: seq<string>)
    ensures LenientMaskOf(tokens).Err? <==> exists i :: 0 <= i < |tokens| && LenientToken(tokens[i]) == Raises
    decreases |tokens|
  {
    if |tokens| > 0 {
      var front := tokens[..|tokens| - 1];
      LenientRaises(front);
      var effect := LenientToken(tokens[|tokens| - 1]);
      if LenientMaskOf(front).Err? {
        var i :| 0 <= i < |front| && LenientToken(front[i]) == Raises;
        assert tokens[i] == front[i];
      } else if effect == Raises {
      } else {
        forall i | 0 <= i < |tokens|
          ensures LenientToken(tokens[i]) != Raises
        {
          if i < |front| {
            assert tokens[i] == front[i];
          }
        }
      }
    }
  }

  /** When a read succeeds, bit j is set exactly when some token names it. */
  lemma {:induction false} LenientBits(tokens: seq<string>, j: nat)
    ensures LenientMaskOf(tokens).Ok? ==> (Bit(LenientMaskOf(tokens).value, j) == 1 <==> j in SetBits(tokens))
    decreases |tokens|
  {
    if |tokens| == 0 {
      BitOfZero(j);
    } else {
      var front := tokens[..|tokens| - 1];
      var last := tokens[|tokens| - 1];
      LenientBits(front, j);
      if LenientMaskOf(front).Ok? {
        var m := LenientMaskOf(front).value;
        match LenientToken(last)
        case SetBit(k) =>
          BitOfOr(m, Pow2(k), j);
          BitOfPow2(k, j);
        case Ignored =>
        case Raises =>
      }
    }
  }

  /** A token the reader passes over may be dropped from anywhere. */
  lemma {:induction false} IgnoredTokenDrops(a: seq<string>, t: string, b: seq<string>)
    requires LenientToken(t) == Ignored
    ensures LenientMaskOf(a + [t] + b) == LenientMaskOf(a + b)
    decreases |b|
  {
    if |b| == 0 {
      assert (a + [t] + b)[..|a|] == a;
      assert a + b == a;
    } else {
      var b' := b[..|b| - 1];
      IgnoredTokenDrops(a, t, b');
      assert (a + [t] + b)[..|a + [t] + b| - 1] == a + [t] + b';
      assert (a + b)[..|a + b| - 1] == a + b';
    }
  }

  // ---------------------------------------------------------------
  // The lenient reader on the strict writer's texts

  /** The writer's token for x^e sets bit e. */
  lemma LenientTokenOfExpText(e: nat)
    ensures LenientToken(ExpText(e)) == SetBit(e)
  {
    if e >= 2 {
      LenientTokenOfPower(e);
    }
  }

  lemma LenientTokenOfPower(e: nat)
    requires e >= 2
    ensures LenientToken("x^" + NatToString(e)) == SetBit(e)
  {
    var d := NatToString(e);
    XCaretDigits(d);
    DigitsValueOfNatToString(e);
  }

  /** 'x^' followed by digits sets the bit the digits name. */
  lemma XCaretDigits(d: string)
    requires IsDigits(d)
    ensures LenientToken("x^" + d) == SetBit(DigitsValue(d))
  {
    var t := "x^" + d;
    assert t[..2] == "x^" && t[2..] == d;
    assert t != "1" && t != "x" by { assert |t| >= 3; }
    StripDigits(d);
  }

  /** Digits have no whitespace to strip. */
  lemma StripDigits(d: string)
    requires IsDigits(d)
    ensures Strip(d) == d
  {
    forall i | 0 <= i < |d|
      ensures d[i] !in Whitespace
    {
      assert IsDigit(d[i]);
    }
    assert "" + d + "" == d;
    StripPadded("", d, "", Whitespace);
  }

  /** On the writer's terms both readers set the same bits. */
  lemma {:induction false} LenientOfTerms(m: nat, lo: nat, hi: nat)
    requires hi <= MaxExp + 1
    ensures MaskOf(TermsFrom(m, lo, hi)).Some?
    ensures LenientMaskOf(TermsFrom(m, lo, hi)) == Ok(MaskOf(TermsFrom(m, lo, hi)).value)
    decreases hi - lo
  {
    TermsFromExps(m, lo, hi);
    if lo < hi {
      var front := TermsFrom(m, lo + 1, hi);
      LenientOfTerms(m, lo + 1, hi);
      var t := TermsFrom(m, lo, hi);
      if Bit(m, lo) == 1 {
        assert t == front + [ExpText(lo)];
        assert t[..|t| - 1] == front;
        TokenExpOfExpText(lo);
        LenientTokenOfExpText(lo);
      } else {
        assert t == front;
      }
    }
  }

  /** Removing the spaces of a " + " join gives the "+" join. */
  lemma {:induction false} RemoveSpacesOfJoin(parts: seq<string>)
    requires forall i :: 0 <= i < |parts| ==> ' ' !in parts[i]
    ensures RemoveChar(Join(parts, " + "), ' ') == Join(parts, "+")
    decreases |parts|
  {
    if |parts| == 1 {
      assert ' ' !in parts[0];
    } else if |parts| > 1 {
      var p, tail := parts[0], parts[1..];
      var rest := Join(tail, " + ");
      assert [p] + tail == parts;
      JoinCons(p, tail, " + ");
      JoinCons(p, tail, "+");
      assert ' ' !in p;
      RemoveSpacesOfJoin(tail);
      RemoveCharAppend(p + " + ", rest, ' ');
      RemoveCharAppend(p, " + ", ' ');
      RemoveSpacePlus();
    }
  }

  lemma RemoveSpacePlus()
    ensures RemoveChar(" + ", ' ') == "+"
  {
    assert " + "[1..] == "+ ";
    assert "+ "[1..] == " ";
    assert RemoveChar(" ", ' ') == "" by { assert " "[1..] == ""; }
  }

  lemma {:induction false} RemoveCharAppend(a: string, b: string, c: char)
    ensures RemoveChar(a + b, c) == RemoveChar(a, c) + RemoveChar(b, c)
    decreases |a|
  {
    if |a| == 0 {
      assert a + b == b;
    } else {
      assert (a + b)[1..] == a[1..] + b;
      RemoveCharAppend(a[1..], b, c);
    }
  }

  /** No '^' directly before a '+'. */
  predicate NoCaretPlus(s: string)
  {
    forall i :: 0 <= i < |s| - 1 ==> !(s[i] == '^' && s[i + 1] == '+')
  }

  lemma {:induction false} ReplaceCaretPlusKeeps(s: string)
    requires NoCaretPlus(s)
    ensures ReplaceCaretPlus(s) == s
    decreases |s|
  {
    if |s| >= 2 {
      assert NoCaretPlus(s[1..]);
      ReplaceCaretPlusKeeps(s[1..]);
    }
  }

  /** A "+" join of parts that hold no '+' and do not end in '^' has no "^+". */
  lemma {:induction false} JoinNoCaretPlus(parts: seq<string>)
    requires forall i :: 0 <= i < |parts| ==> |parts[i]| > 0 && '+' !in parts[i] && parts[i][|parts[i]| - 1] != '^'
    ensures NoCaretPlus(Join(parts, "+"))
    decreases |parts|
  {
    if |parts| > 1 {
      JoinCons(parts[0], parts[1..], "+");
      JoinNoCaretPlus(parts[1..]);
      var p, rest := parts[0], Join(parts[1..], "+");
      var s := p + "+" + rest;
      forall i | 0 <= i < |s| - 1
        ensures !(s[i] == '^' && s[i + 1] == '+')
      {
        if i < |p| - 1 {
          assert s[i + 1] == p[i + 1];
          assert p[i + 1] in p;
        } else if i == |p| - 1 {
          assert s[i] == p[|p| - 1];
        } else if i == |p| {
          assert s[i] == '+';
        } else {
          assert s[i] == rest[i - |p| - 1] && s[i + 1] == rest[i - |p|];
        }
      }
    }
  }

  /** The writer's terms end in a digit, 'x' or '1'. */
  lemma {:induction false} TermsFromEnds(m: nat, lo: nat, hi: nat)
    ensures forall i :: 0 <= i < |TermsFrom(m, lo, hi)| ==>
      var t := TermsFrom(m, lo, hi)[i]; |t| > 0 && t[|t| - 1] != '^'
    decreases hi - lo
  {
    if lo < hi {
      TermsFromEnds(m, lo + 1, hi);
      ExpTextChars(lo);
      if lo >= 2 {
        var d := NatToString(lo);
        assert ExpText(lo)[|ExpText(lo)| - 1] == d[|d| - 1];
        assert IsDigit(d[|d| - 1]);
      }
    }
  }

  /** The lenient reader reads every text of the strict writer back to its
      mask, as the strict reader does. */
  lemma LenientReadsWriter(m: nat)
    requires 0 < m && BitLength(m) <= MaxExp + 1
    ensures LenientParse(BitmaskToPolyStr(m)) == Ok(m)
    ensures ParsePolyStr(BitmaskToPolyStr(m)) == m
  {
    var hi := BitLength(m);
    var terms := TermsFrom(m, 0, hi);
    TermsFromNonempty(m);
    TermsFromClean(m, 0, hi);
    TermsFromEnds(m, 0, hi);
    forall i | 0 <= i < |terms|
      ensures ' ' !in terms[i]
    {
      assert NoneIn(terms[i], Whitespace);
    }
    RemoveSpacesOfJoin(terms);
    JoinNoCaretPlus(terms);
    ReplaceCaretPlusKeeps(Join(terms, "+"));
    SplitJoin(terms, '+');
    assert LenientTokens(BitmaskToPolyStr(m)) == terms;
    LenientOfTerms(m, 0, hi);
    MaskOfTerms(m, hi);
    WriteThenRead(m);
  }

  // ---------------------------------------------------------------
  // The examples

  /** The source's example, 'x^6 + x^4 + x^3 + x + 1', is 0x5B for both
      readers. */
  lemma ExampleReadsAs0x5B()
    ensures LenientParse("x^6 + x^4 + x^3 + x + 1") == Ok(0x5B)
    ensures ParsePolyStr("x^6 + x^4 + x^3 + x + 1") == 0x5B
  {
    ExampleIsWritten();
    LenientReadsWriter(0x5B);
  }

  /** 'x^6 + x^4 + x^3 + x + 1' is the writer's text for 0x5B. */
  lemma ExampleIsWritten()
    ensures BitLength(0x5B) == 7
    ensures BitmaskToPolyStr(0x5B) == "x^6 + x^4 + x^3 + x + 1"
  {
    BitsOf0x5B();
    ExampleTerms();
    ExampleJoin();
  }

  lemma ExampleTerms()
    ensures TermsFrom(0x5B, 0, 7) == ["x^6", "x^4", "x^3", "x", "1"]
  {
    var m := 0x5B;
    BitsOf0x5B();
    SmallExpTexts();
    assert TermsFrom(m, 7, 7) == [];
    assert TermsFrom(m, 6, 7) == TermsFrom(m, 7, 7) + [ExpText(6)];
    assert TermsFrom(m, 5, 7) == TermsFrom(m, 6, 7);
    assert TermsFrom(m, 4, 7) == TermsFrom(m, 5, 7) + [ExpText(4)];
    assert TermsFrom(m, 3, 7) == TermsFrom(m, 4, 7) + [ExpText(3)];
    assert TermsFrom(m, 2, 7) == TermsFrom(m, 3, 7);
    assert TermsFrom(m, 1, 7) == TermsFrom(m, 2, 7) + [ExpText(1)];
    assert TermsFrom(m, 0, 7) == TermsFrom(m, 1, 7) + [ExpText(0)];
  }

  lemma ExampleJoin()
    ensures Join(["x^6", "x^4", "x^3", "x", "1"], " + ") == "x^6 + x^4 + x^3 + x + 1"
  {
    var parts := ["x^6", "x^4", "x^3", "x", "1"];
    assert parts[4..] == ["1"];
    JoinCons("x", ["1"], " + ");
    assert parts[3..] == ["x"] + ["1"];
    JoinCons("x^3", parts[3..], " + ");
    assert parts[2..] == ["x^3"] + parts[3..];
    JoinCons("x^4", parts[2..], " + ");
    assert parts[1..] == ["x^4"] + parts[2..];
    JoinCons("x^6", parts[1..], " + ");
    assert parts == ["x^6"] + parts[1..];
  }

  lemma SmallExpTexts()
    ensures ExpText(6) == "x^6" && ExpText(4) == "x^4" && ExpText(3) == "x^3"
    ensures ExpText(1) == "x" && ExpText(0) == "1"
  {
    assert NatToString(6) == "6" && NatToString(4) == "4" && NatToString(3) == "3";
    assert "x^" + "6" == "x^6" && "x^" + "4" == "x^4" && "x^" + "3" == "x^3";
  }

  lemma BitsOf0x5B()
    ensures BitLength(0x5B) == 7
    ensures Bit(0x5B, 0) == 1 && Bit(0x5B, 1) == 1 && Bit(0x5B, 2) == 0 && Bit(0x5B, 3) == 1
    ensures Bit(0x5B, 4) == 1 && Bit(0x5B, 5) == 0 && Bit(0x5B, 6) == 1
  {
    assert BitLength(0) == 0;
    assert BitLength(1) == 1 && BitLength(2) == 2 && BitLength(5) == 3;
    assert BitLength(11) == 4 && BitLength(22) == 5 && BitLength(45) == 6;
    assert Bit(1, 0) == 1 && Bit(2, 1) == 1 && Bit(5, 2) == 1;
  }

  /** A token that is neither '1', 'x' nor 'x^k' is passed over: where the
      strict reader fails, the lenient one still reads the other terms. */
  lemma LenientSkipsJunk()
    ensures LenientMaskOf(["x^6", "y", "1"]) == Ok(0x41)
    ensures MaskOf(["x^6", "y", "1"]).None?
  {
    var tokens := ["x^6", "y", "1"];
    assert tokens == ["x^6"] + ["y"] + ["1"];
    IgnoredTokenDrops(["x^6"], "y", ["1"]);
    assert ["x^6"] + ["1"] == ["x^6", "1"];
    LenientSixAndOne();
    StrictFailsOnY();
  }

  lemma LenientSixAndOne()
    ensures LenientMaskOf(["x^6", "1"]) == Ok(0x41)
  {
    var tokens := ["x^6", "1"];
    assert "x^6" == "x^" + NatToString(6);
    LenientTokenOfPower(6);
    assert tokens[..1] == ["x^6"] && ["x^6"][..0] == [];
    assert LenientMaskOf(["x^6"]) == Ok(Or(0, 64));
    OrSmall();
  }

  lemma OrSmall()
    ensures Or(0, 64) == 64 && Or(64, 1) == 0x41
  {
    assert Or(0, 1) == 1 && Or(0, 2) == 2 && Or(0, 4) == 4 && Or(0, 8) == 8;
    assert Or(0, 16) == 16 && Or(0, 32) == 32;
    assert Or(1, 0) == 1 && Or(2, 0) == 2 && Or(4, 0) == 4 && Or(8, 0) == 8;
    assert Or(16, 0) == 16 && Or(32, 0) == 32;
  }

  lemma StrictFailsOnY()
    ensures MaskOf(["x^6", "y", "1"]).None?
  {
    var tokens := ["x^6", "y", "1"];
    assert TokenExp("y").None?;
    assert tokens[..2][..1] == tokens[..1];
    assert MaskOf(tokens[..2]).None?;
    BadPrefixFails(tokens, 2);
  }

  // ---------------------------------------------------------------
  // Invariants computed on the C side

  /** The reduction polynomial handed to the C side: none for a blank text,
      else the lenient reading of the stripped text. */
  function FuncPoly(irrPoly: string): (r: Result<Option<nat>>)
    ensures r.Err? <==> |Strip(irrPoly)| > 0 && LenientParse(Strip(irrPoly)).Err?
    ensures r.Ok? && r.value.Some? ==> LenientParse(Strip(irrPoly)) == Ok(r.value.value)
  {
    var s := Strip(irrPoly);
    if |s| == 0 then Ok(None)
    else match LenientParse(s) case Err(e) => Err(e) case Ok(bits) => Ok(Some(bits))
  }

  /** The text stored under "k_to_1" for the C result k. */
  function KToOneText(k: int): string
  {
    if k == -1 then "not uniform"
    else if k < 0 then "-" + NatToString(-k) + "-to-1"
    else NatToString(k) + "-to-1"
  }

  /** "not uniform" stands for -1 alone, and the number in front of "-to-1"
      reads back as k. */
  lemma KToOneTextReads(k: int)
    ensures KToOneText(k) == "not uniform" <==> k == -1
    ensures k >= 0 ==>
      var r := KToOneText(k);
      && EndsWith(r, "-to-1") && IsDigits(r[..|r| - 5]) && DigitsValue(r[..|r| - 5]) == k
  {
    if k >= 0 {
      var d := NatToString(k);
      var r := d + "-to-1";
      assert r[..|r| - 5] == d;
      DigitsValueOfNatToString(k);
      assert r[|r| - 5] == '-' && !IsDigit('-');
      assert "not uniform"[6] == 'i';
    } else if k < -1 {
      var r := "-" + NatToString(-k) + "-to-1";
      assert r[0] == '-';
    }
  }

  // ---------------------------------------------------------------
  // The C-backed invariants

  /** The handle `_create_func_ptr_from_apn` makes: the bindings over the
      truth table, with no bitmask for a blank polynomial text, or the
      error of the lenient reader. */
  ghost function ApnHandle(representation: Repr, fieldN: nat, irrPoly: string, lib: GaloisLib)
    : Result<Option<CFunction>>
    reads if representation.PolyRepr? then {representation.poly} else {}
  {
    match FuncPoly(irrPoly)
    case Err(e) => Err(e)
    case Ok(poly) => Ok(Created(TableOf(representation, fieldN, irrPoly, lib), poly))
  }

  /** `_create_func_ptr_from_apn`. */
  method CreateFuncPtrFromApn(apn: Apn, lib: GaloisLib) returns (r: Result<Option<CFunction>>)
    ensures r == old(ApnHandle(apn.representation, apn.fieldN, apn.irrPoly, lib))
    ensures r.Err? <==> |Strip(apn.irrPoly)| > 0 && LenientParse(Strip(apn.irrPoly)).Err?
  {
    var tt := apn.GetTruthTableList(lib);
    var irr := Strip(apn.irrPoly);
    if |irr| == 0 {
      var fh := CreateFunction(tt, None);
      return Ok(fh);
    }
    var polyBits := ParseIrreduciblePolyStrLenient(irr);
    if polyBits.Err? {
      return Err(polyBits.error);
    }
    var fh := CreateFunction(tt, Some(polyBits.value));
    return Ok(fh);
  }

  /** The message for a C call whose behaviour is undefined. */
  const UndefinedBehaviour: string := "undefined behaviour in the C code"

  /** `compute_is_apn`: nothing happens when "is_apn" is there; otherwise
      "is_apn" becomes whether the C differential uniformity is 2. */
  method ComputeIsApn(apn: Apn, lib: GaloisLib) returns (r: Result<()>)
    requires Valid(apn.invariants)
    modifies apn`invariants
    ensures Valid(apn.invariants)
    ensures unchanged(apn`representation, apn`fieldN, apn`irrPoly, apn`properties)
    ensures "is_apn" in old(apn.invariants.vals) ==> r.Ok? && apn.invariants == old(apn.invariants)
    ensures "is_apn" !in old(apn.invariants.vals) ==>
      var h := old(ApnHandle(apn.representation, apn.fieldN, apn.irrPoly, lib));
      var du := if h.Err? then None else HandleUniformity(h.value);
      && (r.Err? <==> du.None?)
      && apn.invariants == if du.None? then old(apn.invariants) else Put(old(apn.invariants), "is_apn", BoolV(du.value == 2))
  {
    if "is_apn" in apn.invariants.vals {
      return Ok(());
    }
    var funcPtr := CreateFuncPtrFromApn(apn, lib);
    if funcPtr.Err? {
      return Err(funcPtr.error);
    }
    var diffUni := FunctionDifferentialUniformity(funcPtr.value);
    if diffUni.None? {
      return Err(UndefinedBehaviour);
    }
    if diffUni.value == 2 {
      apn.invariants := Put(apn.invariants, "is_apn", BoolV(true));
    } else {
      apn.invariants := Put(apn.invariants, "is_apn", BoolV(false));
    }
    return Ok(());
  }

  /** On a truth table that maps n-bit words to n-bit words, n <= 15,
      "is_apn" is written, and is true exactly when the differential
      uniformity of the table is 2. */
  lemma IsApnOfMap(tt: seq<nat>, n: nat, poly: Option<nat>)
    requires IsMap(tt, n) && n <= 15
    ensures HandleUniformity(Created(tt, poly)) == Some(Uniformity(tt, n))
  {
    CreatedOfMap(tt, n, poly);
    HandleUniformityOfMap(Created(tt, poly));
  }

  /** `compute_anf_invariants`: nothing happens when all three keys are
      there; otherwise the C degree, monomial test and quadratic test are
      (re)written. */
  method ComputeAnfInvariants(apn: Apn, lib: GaloisLib) returns (r: Result<()>)
    requires Valid(apn.invariants)
    modifies apn`invariants
    ensures Valid(apn.invariants)
    ensures unchanged(apn`representation, apn`fieldN, apn`irrPoly, apn`properties)
    ensures AnfKeys <= old(apn.invariants.vals.Keys) ==> r.Ok? && apn.invariants == old(apn.invariants)
    ensures !(AnfKeys <= old(apn.invariants.vals.Keys)) ==>
      var h := old(ApnHandle(apn.representation, apn.fieldN, apn.irrPoly, lib));
      var w := if h.Err? then None else AnfWrites(old(apn.invariants), HandleDegree(h.value), HandleMonomial(h.value));
      && (r.Err? <==> w.None?)
      && apn.invariants == if w.None? then old(apn.invariants) else w.value
  {
    if "algebraic_degree" in apn.invariants.vals && "is_monomial" in apn.invariants.vals
      && "is_quadratic" in apn.invariants.vals {
      return Ok(());
    }
    var funcPtr := CreateFuncPtrFromApn(apn, lib);
    if funcPtr.Err? {
      return Err(funcPtr.error);
    }
    var degree := FunctionAlgebraicDegree(funcPtr.value);
    var monomialFlag := FunctionIsMonomial(funcPtr.value);
    var quadraticFlag := FunctionIsQuadratic(funcPtr.value);
    if monomialFlag.None? {
      return Err(UndefinedBehaviour);
    }
    var d0 := apn.invariants;
    var d1 := Put(d0, "algebraic_degree", IntV(degree));
    var d2 := Put(d1, "is_monomial", BoolV(monomialFlag.value));
    var d3 := Put(d2, "is_quadratic", BoolV(quadraticFlag));
    apn.invariants := d3;
    return Ok(());
  }

  /** The dictionary with a degree, a monomial answer and the quadratic
      answer (degree 2) written, undefined (None) where the monomial answer
      is. */
  function AnfWrites(d: Dict<InvValue>, degree: nat, monomial: Option<bool>): Option<Dict<InvValue>>
  {
    match monomial
    case None => None
    case Some(mono) =>
      Some(Put(Put(Put(d, "algebraic_degree", IntV(degree)), "is_monomial", BoolV(mono)),
               "is_quadratic", BoolV(degree == 2)))
  }

  const AnfKeys: set<string> := {"algebraic_degree", "is_monomial", "is_quadratic"}

  /** On a map on n < 32 bits, the "algebraic_degree" written is at most
      the algebraic degree of the table, and "is_monomial" is defined and
      is the monomial test whenever the antilog table of the bitmask stays
      in range. */
  lemma AnfInvariantsOfMap(tt: seq<nat>, n: nat, poly: nat)
    requires IsMap(tt, n) && n < 32
    ensures HandleDegree(Created(tt, Some(poly))) <= AlgebraicDegree(tt, n)
    ensures AlogFits(n, poly % UintRange) ==>
      HandleMonomial(Created(tt, Some(poly))) ==
        Some(poly % UintRange != 0 && n <= 16 && MonomialTest(tt, n, poly % UintRange))
  {
    CreatedOfMap(tt, n, Some(poly));
    if AlogFits(n, poly % UintRange) {
      HandleMonomialOfMap(Created(tt, Some(poly)));
    }
  }

  /** `compute_k_to_1`: nothing happens when "k_to_1" is there; otherwise
      it becomes the text of the C answer k. */
  method ComputeKToOne(apn: Apn, lib: GaloisLib) returns (r: Result<()>)
    requires Valid(apn.invariants)
    modifies apn`invariants
    ensures Valid(apn.invariants)
    ensures unchanged(apn`representation, apn`fieldN, apn`irrPoly, apn`properties)
    ensures "k_to_1" in old(apn.invariants.vals) ==> r.Ok? && apn.invariants == old(apn.invariants)
    ensures "k_to_1" !in old(apn.invariants.vals) ==>
      var h := old(ApnHandle(apn.representation, apn.fieldN, apn.irrPoly, lib));
      && (r.Err? <==> h.Err?)
      && apn.invariants == if h.Err? then old(apn.invariants) else
        Put(old(apn.invariants), "k_to_1", TextV(KToOneText(HandleKToOne(h.value))))
  {
    if "k_to_1" in apn.invariants.vals {
      return Ok(());
    }
    var funcPtr := CreateFuncPtrFromApn(apn, lib);
    if funcPtr.Err? {
      return Err(funcPtr.error);
    }
    var kValue := FunctionKToOne(funcPtr.value);
    if kValue == -1 {
      apn.invariants := Put(apn.invariants, "k_to_1", TextV("not uniform"));
    } else {
      apn.invariants := Put(apn.invariants, "k_to_1", TextV(KToOneText(kValue)));
    }
    return Ok(());
  }

  /** On a map on 1 <= n < 32 bits the "k_to_1" text is "not uniform" or
      the label of the table's nonzero outputs, which the C test finds only
      when 0 has a single preimage. */
  lemma KToOneOfMap(tt: seq<nat>, n: nat, poly: Option<nat>)
    requires IsMap(tt, n) && 1 <= n < 32
    ensures var t := KToOneText(HandleKToOne(Created(tt, poly)));
      t == "not uniform" || t == KToOneLabel(tt)
    ensures KToOneText(HandleKToOne(Created(tt, poly))) == "not uniform" <==> forall j :: !KToOneMap(tt, n, j)
  {
    var fh := Created(tt, poly);
    CreatedOfMap(tt, n, poly);
    HandleKToOneMeans(fh);
    var k := HandleKToOne(fh);
    KToOneTextReads(k);
    if k != -1 {
      CppKToOneIsUniform(tt, n, k);
    }
  }

  // ---------------------------------------------------------------
  // Reordering

  /** The order `reorder_invariants` puts first. */
  const ApnOrder: seq<string> := ["odds", "odws", "delta_rank", "gamma_rank", "algebraic_degree",
                                  "is_quadratic", "is_apn", "is_monomial", "k_to_1"]

  /** `reorder_invariants`: the listed keys first, in list order, then the
      rest in their old order; every key keeps its value. */
  method ReorderInvariants(apn: Apn)
    requires Valid(apn.invariants)
    modifies apn`invariants
    ensures Valid(apn.invariants) && IsReordering(apn.invariants, old(apn.invariants), ApnOrder)
    ensures unchanged(apn`representation, apn`fieldN, apn`irrPoly, apn`properties)
  {
    assert Distinct(ApnOrder);
    var reordered := ReorderByCopied(apn.invariants, ApnOrder);
    apn.invariants := reordered;
  }
}
