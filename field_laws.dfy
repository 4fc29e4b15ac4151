/** The field laws the interpolation proof relies on, stated over the
    table lookups, and the proof that the lookups of GF(2^n) obey them. */
module FieldLaws {
  import opened Bits
  import opened GaloisField
  import opened Lagrange

  /** The ring laws at a, b and c: zero absorbs, and multiplication is
      commutative, associative and distributes over XOR. */
  ghost predicate RingAt(o: Ops, a: nat, b: nat, c: nat)
  {
    && o.mul(0, a) == 0 && o.mul(a, 0) == 0
    && o.mul(a, b) == o.mul(b, a)
    && o.mul(o.mul(a, b), c) == o.mul(a, o.mul(b, c))
    && o.mul(Xor(a, b), c) == Xor(o.mul(a, c), o.mul(b, c))
  }

  /** One is neutral for a, and a nonzero a has an inverse. */
  ghost predicate UnitAt(o: Ops, a: nat)
  {
    && o.mul(1, a) == a && o.mul(a, 1) == a
    && (a != 0 ==> o.mul(a, o.inv(a)) == 1)
  }

  /** The lookups make 0 .. 2^n - 1, with XOR as addition, a field with
      at least two elements (closure is the separate `Closed`). The laws are quantified over named instances,
      so a proof uses exactly the instances it names. */
  ghost predicate IsField(o: Ops)
  {
    && o.n >= 1
    && (forall a: nat, b: nat, c: nat :: RingAt(o, a, b, c))
    && (forall a: nat :: a < o.Size() ==> UnitAt(o, a))
  }

  /** Lookups that obey the field laws; GF(2), multiplying lowest bits,
      is one. */
  type FieldOps = o: Ops | IsField(o)
    ghost witness Ops(1, (a: nat, b: nat) => if a % 2 == 1 && b % 2 == 1 then 1 else 0, (a: nat) => a)

  /** The shift-and-XOR product and the brute-force inverse satisfy the
      field laws as soon as every nonzero element has an inverse. */
  lemma GFIsField(n: nat, p: nat)
    requires n >= 1 && HasInverses(n, p)
    ensures IsField(GF(n, p))
  {
    var o := GF(n, p);
    forall a: nat, b: nat, c: nat
      ensures RingAt(o, a, b, c)
    {
      GFRingAt(n, p, a, b, c);
    }
    forall a: nat | a < o.Size()
      ensures UnitAt(o, a)
    {
      LowOfSmall(a, n);
      LowOfSmall(1, n);
      MulOneLeft(a, n, p);
      MulOneRight(a, n, p);
      if a != 0 {
        FindInverseSpec(a, n, p);
        LowOfSmall(FindInverse(a, n, p), n);
      }
    }
  }

  lemma GFRingAt(n: nat, p: nat, a: nat, b: nat, c: nat)
    ensures RingAt(GF(n, p), a, b, c)
  {
    var la, lb, lc := Low(a, n), Low(b, n), Low(c, n);
    LowOfSmall(0, n);
    MulZero(la, n, p);
    MulComm(la, lb, n, p);
    var ab, bc := MulSlow(la, lb, n, p), MulSlow(lb, lc, n, p);
    MulBound(la, lb, n, p);
    MulBound(lb, lc, n, p);
    LowOfSmall(ab, n);
    LowOfSmall(bc, n);
    MulAssoc(la, lb, lc, n, p);
    XorLow(a, b, n);
    MulXorLeft(la, lb, lc, n, p);
  }

  lemma Zero(o: FieldOps, a: nat)
    ensures o.mul(0, a) == 0 && o.mul(a, 0) == 0
  {
    assert RingAt(o, a, 0, 0);
  }

  lemma One(o: FieldOps, a: nat)
    requires a < o.Size()
    ensures o.mul(1, a) == a && o.mul(a, 1) == a
  {
    assert UnitAt(o, a);
  }

  lemma Inverse(o: FieldOps, a: nat)
    requires 0 < a < o.Size()
    ensures o.mul(a, o.inv(a)) == 1
  {
    assert UnitAt(o, a);
  }

  lemma Comm(o: FieldOps, a: nat, b: nat)
    ensures o.mul(a, b) == o.mul(b, a)
  {
    assert RingAt(o, a, b, 0);
  }

  lemma Assoc(o: FieldOps, a: nat, b: nat, c: nat)
    ensures o.mul(o.mul(a, b), c) == o.mul(a, o.mul(b, c))
  {
    assert RingAt(o, a, b, c);
  }

  lemma Dist(o: FieldOps, a: nat, b: nat, c: nat)
    ensures o.mul(Xor(a, b), c) == Xor(o.mul(a, c), o.mul(b, c))
  {
    assert RingAt(o, a, b, c);
  }

  /** Distributivity on the right, from the left law and commutativity. */
  lemma DistRight(o: FieldOps, a: nat, b: nat, c: nat)
    ensures o.mul(a, Xor(b, c)) == Xor(o.mul(a, b), o.mul(a, c))
  {
    Comm(o, a, Xor(b, c));
    Dist(o, b, c, a);
    Comm(o, b, a);
    Comm(o, c, a);
  }

  lemma SwapRight(o: FieldOps, a: nat, b: nat, c: nat)
    ensures o.mul(o.mul(a, b), c) == o.mul(o.mul(a, c), b)
  {
    Assoc(o, a, b, c);
    Comm(o, b, c);
    Assoc(o, a, c, b);
  }

  lemma SwapLeft(o: FieldOps, a: nat, b: nat, c: nat)
    ensures o.mul(a, o.mul(b, c)) == o.mul(b, o.mul(a, c))
  {
    Assoc(o, a, b, c);
    Comm(o, a, b);
    Assoc(o, b, a, c);
  }

  lemma XorZeroMeansEqual(a: nat, b: nat)
    requires Xor(a, b) == 0
    ensures a == b
  {
    XorAssoc(a, b, b);
    XorSelf(b);
    XorZeroRight(a);
  }
}
