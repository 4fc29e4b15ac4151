/** A univariate polynomial as the repository stores it: a list of
    `(coefficient exponent, monomial exponent)` pairs, the pair (c, m)
    standing for g^c * x^m with g the field's generator. */
module Terms {

  datatype Term = Term(coeffExp: nat, monExp: nat)

  /** Python's tuple order on (coeff_exp, mon_exp): the key `sorted` uses. */
  predicate TermLess(a: Term, b: Term)
  {
    a.coeffExp < b.coeffExp || (a.coeffExp == b.coeffExp && a.monExp < b.monExp)
  }

  predicate TermLessEq(a: Term, b: Term)
  {
    a == b || TermLess(a, b)
  }

  /** The list is in nondecreasing (coeff_exp, mon_exp) order. */
  predicate SortedTerms(s: seq<Term>)
  {
    forall i, j :: 0 <= i < j < |s| ==> TermLessEq(s[i], s[j])
  }

  /** A term put into place in a sorted list. */
  function Insert(t: Term, s: seq<Term>): (r: seq<Term>)
    requires SortedTerms(s)
    ensures SortedTerms(r) && multiset(r) == multiset(s) + multiset{t}
    decreases |s|
  {
    if |s| == 0 then [t]
    else if TermLessEq(t, s[0]) then [t] + s
    else
      var rest := Insert(t, s[1..]);
      InsertBelow(t, s, rest);
      assert s == [s[0]] + s[1..];
      [s[0]] + rest
  }

  /** The head of a sorted list that t does not go before is below every
      term of the insertion into its tail. */
  lemma InsertBelow(t: Term, s: seq<Term>, rest: seq<Term>)
    requires SortedTerms(s) && |s| > 0 && !TermLessEq(t, s[0])
    requires SortedTerms(rest) && multiset(rest) == multiset(s[1..]) + multiset{t}
    ensures SortedTerms([s[0]] + rest)
  {
    forall j | 0 <= j < |rest|
      ensures TermLessEq(s[0], rest[j])
    {
      assert rest[j] in multiset(rest);
      if rest[j] != t {
        assert rest[j] in multiset(s[1..]);
        var k :| 0 <= k < |s[1..]| && s[1..][k] == rest[j];
        assert s[k + 1] == rest[j];
      }
    }
    var r := [s[0]] + rest;
    forall i, j | 0 <= i < j < |r|
      ensures TermLessEq(r[i], r[j])
    {
      if i > 0 {
        assert r[i] == rest[i - 1] && r[j] == rest[j - 1];
      } else {
        assert r[j] == rest[j - 1];
      }
    }
  }

  /** `sorted(poly, key=lambda t: (t[0], t[1]))`. */
  function SortByKey(ts: seq<Term>): (r: seq<Term>)
    ensures SortedTerms(r) && multiset(r) == multiset(ts)
    decreases |ts|
  {
    if |ts| == 0 then []
    else
      assert ts == ts[..|ts| - 1] + [ts[|ts| - 1]];
      Insert(ts[|ts| - 1], SortByKey(ts[..|ts| - 1]))
  }

  /** Two sorted lists with the same terms are the same list. */
  lemma {:induction false} SortedUnique(a: seq<Term>, b: seq<Term>)
    requires SortedTerms(a) && SortedTerms(b) && multiset(a) == multiset(b)
    ensures a == b
    decreases |a|
  {
    if |a| > 0 {
      assert |b| == |multiset(b)| == |multiset(a)| == |a|;
      SameHeads(a, b);
      SameTails(a, b);
      SortedUnique(a[1..], b[1..]);
      assert a == [a[0]] + a[1..] && b == [b[0]] + b[1..];
    } else {
      assert |multiset(b)| == 0;
    }
  }

  /** The head of a sorted list is its least term. */
  lemma HeadIsLeast(a: seq<Term>, x: Term)
    requires SortedTerms(a) && x in multiset(a)
    ensures TermLessEq(a[0], x)
  {
    var k :| 0 <= k < |a| && a[k] == x;
  }

  /** Sorted lists with the same terms start alike. */
  lemma SameHeads(a: seq<Term>, b: seq<Term>)
    requires SortedTerms(a) && SortedTerms(b) && multiset(a) == multiset(b) && |a| > 0 && |b| > 0
    ensures a[0] == b[0]
  {
    assert a[0] in multiset(a) && b[0] in multiset(b);
    HeadIsLeast(a, b[0]);
    HeadIsLeast(b, a[0]);
  }

  /** Dropping equal heads leaves the same terms, still sorted. */
  lemma SameTails(a: seq<Term>, b: seq<Term>)
    requires SortedTerms(a) && SortedTerms(b) && multiset(a) == multiset(b) && |a| > 0 && |b| > 0 && a[0] == b[0]
    ensures multiset(a[1..]) == multiset(b[1..]) && SortedTerms(a[1..]) && SortedTerms(b[1..])
  {
    assert a == [a[0]] + a[1..] && b == [b[0]] + b[1..];
    assert multiset(a) == multiset{a[0]} + multiset(a[1..]);
    assert multiset(b) == multiset{b[0]} + multiset(b[1..]);
    assert multiset(a[1..]) == multiset(a) - multiset{a[0]};
    assert multiset(b[1..]) == multiset(b) - multiset{b[0]};
    TailSorted(a);
    TailSorted(b);
  }

  /** The tail of a sorted list is sorted. */
  lemma TailSorted(a: seq<Term>)
    requires SortedTerms(a) && |a| > 0
    ensures SortedTerms(a[1..])
  {
    forall i, j | 0 <= i < j < |a[1..]|
      ensures TermLessEq(a[1..][i], a[1..][j])
    {
      assert a[1..][i] == a[i + 1] && a[1..][j] == a[j + 1];
    }
  }

  /** Sorting by the key forgets exactly the order: two term lists sort
      alike iff they hold the same terms, counted with multiplicity. */
  lemma SortByKeyIffPermutation(a: seq<Term>, b: seq<Term>)
    ensures SortByKey(a) == SortByKey(b) <==> multiset(a) == multiset(b)
  {
    if multiset(a) == multiset(b) {
      SortedUnique(SortByKey(a), SortByKey(b));
    }
  }
}
