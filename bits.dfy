/** Bit-level helpers on unbounded naturals, the way Python's `int` (and the
    C `unsigned` values that never overflow in the modelled code) treat them:
    powers of two, bitwise XOR, single bits, population count and the
    parity dot product. */
module Bits {

  /** 2^k, Python's `1 << k`. */
  function Pow2(k: nat): (r: nat)
    ensures r >= 1
    ensures k >= 1 ==> r >= 2
  {
    if k == 0 then 1 else 2 * Pow2(k - 1)
  }

  /** The powers of two up to 2^33. */
  lemma Pow2Values()
    ensures Pow2(1) == 2
    ensures Pow2(2) == 4
    ensures Pow2(3) == 8
    ensures Pow2(4) == 16
    ensures Pow2(5) == 32
    ensures Pow2(6) == 64
    ensures Pow2(7) == 128
    ensures Pow2(8) == 256
    ensures Pow2(9) == 512
    ensures Pow2(10) == 1024
    ensures Pow2(11) == 2048
    ensures Pow2(12) == 4096
    ensures Pow2(13) == 8192
    ensures Pow2(14) == 16384
    ensures Pow2(15) == 32768
    ensures Pow2(16) == 65536
    ensures Pow2(17) == 131072
    ensures Pow2(18) == 262144
    ensures Pow2(19) == 524288
    ensures Pow2(20) == 1048576
    ensures Pow2(21) == 2097152
    ensures Pow2(22) == 4194304
    ensures Pow2(23) == 8388608
    ensures Pow2(24) == 16777216
    ensures Pow2(25) == 33554432
    ensures Pow2(26) == 67108864
    ensures Pow2(27) == 134217728
    ensures Pow2(28) == 268435456
    ensures Pow2(29) == 536870912
    ensures Pow2(30) == 1073741824
    ensures Pow2(31) == 2147483648
    ensures Pow2(32) == 4294967296
    ensures Pow2(33) == 8589934592
  {
  }

  lemma {:induction false} Pow2Monotone(a: nat, b: nat)
    requires a <= b
    ensures Pow2(a) <= Pow2(b)
    ensures a < b ==> 2 * Pow2(a) <= Pow2(b)
  {
    if a < b {
      Pow2Monotone(a, b - 1);
    }
  }

  /** Bitwise exclusive or, `a ^ b`. */
  function Xor(a: nat, b: nat): nat
    decreases a
  {
    if a == 0 then b
    else if b == 0 then a
    else 2 * Xor(a / 2, b / 2) + (if a % 2 == b % 2 then 0 else 1)
  }

  /** The recursive equation of Xor, valid for zero arguments too. */
  lemma {:induction false} XorDef(a: nat, b: nat)
    ensures Xor(a, b) == 2 * Xor(a / 2, b / 2) + (if a % 2 == b % 2 then 0 else 1)
  {
    if a == 0 {
      assert Xor(0, b / 2) == b / 2;
      assert b == 2 * (b / 2) + b % 2;
    } else if b == 0 {
      XorZeroRight(a / 2);
      assert a == 2 * (a / 2) + a % 2;
    }
  }

  lemma XorZeroRight(a: nat)
    ensures Xor(a, 0) == a
  {
    if a != 0 {
      assert Xor(a, 0) == a;
    }
  }

  lemma {:induction false} XorComm(a: nat, b: nat)
    ensures Xor(a, b) == Xor(b, a)
    decreases a + b
  {
    if a != 0 && b != 0 {
      XorComm(a / 2, b / 2);
    } else {
      XorZeroRight(a);
      XorZeroRight(b);
    }
  }

  lemma {:induction false} XorSelf(a: nat)
    ensures Xor(a, a) == 0
  {
    if a != 0 {
      XorSelf(a / 2);
    }
  }

  /** The halves of `a ^ b`: its high part and its low bit. */
  lemma XorHalf(a: nat, b: nat)
    ensures Xor(a, b) / 2 == Xor(a / 2, b / 2)
    ensures Xor(a, b) % 2 == if a % 2 == b % 2 then 0 else 1
  {
    XorDef(a, b);
  }

  /** A natural is determined by its half and its low bit. */
  lemma HalvesEqual(x: nat, y: nat)
    requires x / 2 == y / 2 && x % 2 == y % 2
    ensures x == y
  {
  }

  lemma {:induction false} XorAssoc(a: nat, b: nat, c: nat)
    ensures Xor(Xor(a, b), c) == Xor(a, Xor(b, c))
    decreases a + b + c
  {
    if a + b + c != 0 {
      var ab, bc := Xor(a, b), Xor(b, c);
      var l, r := Xor(ab, c), Xor(a, bc);
      XorHalf(a, b);
      XorHalf(b, c);
      XorHalf(ab, c);
      XorHalf(a, bc);
      XorAssoc(a / 2, b / 2, c / 2);
      assert l / 2 == r / 2;
      assert l % 2 == r % 2;
      HalvesEqual(l, r);
    }
  }

  /** `a ^ b` stays below 2^k when both operands do. */
  lemma {:induction false} XorBound(a: nat, b: nat, k: nat)
    requires a < Pow2(k) && b < Pow2(k)
    ensures Xor(a, b) < Pow2(k)
  {
    if k > 0 {
      XorDef(a, b);
      XorBound(a / 2, b / 2, k - 1);
    } else {
      assert a == 0 && b == 0;
    }
  }

  lemma XorDouble(a: nat, b: nat)
    ensures Xor(2 * a, 2 * b) == 2 * Xor(a, b)
  {
    XorDef(2 * a, 2 * b);
  }

  /** Bit k of a: `(a >> k) & 1`. */
  function Bit(a: nat, k: nat): (r: nat)
    ensures r < 2
  {
    if k == 0 then a % 2 else Bit(a / 2, k - 1)
  }

  /** The low k bits of a: `a & ((1 << k) - 1)`. */
  function Low(a: nat, k: nat): (r: nat)
    ensures r < Pow2(k)
  {
    if k == 0 then 0 else 2 * Low(a / 2, k - 1) + a % 2
  }

  /** Masking leaves a value that already fits unchanged. */
  lemma {:induction false} LowOfSmall(a: nat, k: nat)
    requires a < Pow2(k)
    ensures Low(a, k) == a
  {
    if k > 0 {
      LowOfSmall(a / 2, k - 1);
    }
  }

  /** Masking commutes with XOR. */
  lemma {:induction false} XorLow(a: nat, b: nat, k: nat)
    ensures Low(Xor(a, b), k) == Xor(Low(a, k), Low(b, k))
  {
    if k > 0 {
      var la, lb := Low(a, k), Low(b, k);
      var l, r := Low(Xor(a, b), k), Xor(la, lb);
      XorHalf(a, b);
      XorHalf(la, lb);
      XorLow(a / 2, b / 2, k - 1);
      assert la / 2 == Low(a / 2, k - 1) && la % 2 == a % 2;
      assert lb / 2 == Low(b / 2, k - 1) && lb % 2 == b % 2;
      assert l / 2 == Low(Xor(a, b) / 2, k - 1) && l % 2 == Xor(a, b) % 2;
      HalvesEqual(l, r);
    }
  }

  lemma {:induction false} BitOfXor(a: nat, b: nat, k: nat)
    ensures Bit(Xor(a, b), k) == if Bit(a, k) == Bit(b, k) then 0 else 1
  {
    XorHalf(a, b);
    if k > 0 {
      BitOfXor(a / 2, b / 2, k - 1);
    }
  }

  /** The top bit of a value below 2^(k+1) decides whether it reaches 2^k. */
  lemma {:induction false} BitTop(a: nat, k: nat)
    requires a < Pow2(k + 1)
    ensures Bit(a, k) == 1 <==> a >= Pow2(k)
  {
    if k > 0 {
      BitTop(a / 2, k - 1);
    }
  }

  /** Bitwise and, `a & b`. */
  function And(a: nat, b: nat): nat
    decreases a
  {
    if a == 0 || b == 0 then 0
    else 2 * And(a / 2, b / 2) + (if a % 2 == 1 && b % 2 == 1 then 1 else 0)
  }

  /** Bitwise or, `a | b`. */
  function Or(a: nat, b: nat): nat
    decreases a
  {
    if a == 0 then b
    else if b == 0 then a
    else 2 * Or(a / 2, b / 2) + (if a % 2 == 1 || b % 2 == 1 then 1 else 0)
  }

  /** Bit k of `a | b` is set iff it is set in a or in b. */
  lemma {:induction false} BitOfOr(a: nat, b: nat, k: nat)
    ensures Bit(Or(a, b), k) == if Bit(a, k) == 1 || Bit(b, k) == 1 then 1 else 0
  {
    if a != 0 && b != 0 {
      var h := Or(a / 2, b / 2);
      assert Or(a, b) / 2 == h && Or(a, b) % 2 == if a % 2 == 1 || b % 2 == 1 then 1 else 0;
      if k > 0 {
        BitOfOr(a / 2, b / 2, k - 1);
      }
    } else if k > 0 {
      BitOfZero(k - 1);
      BitOfZero(k);
    }
  }

  /** `1 << k` has exactly bit k set. */
  lemma {:induction false} BitOfPow2(k: nat, j: nat)
    ensures Bit(Pow2(k), j) == if j == k then 1 else 0
  {
    if k > 0 && j > 0 {
      BitOfPow2(k - 1, j - 1);
    } else if k > 0 {
      assert Pow2(k) % 2 == 0;
    } else if j > 0 {
      BitOfZero(j - 1);
    }
  }

  lemma {:induction false} BitOfZero(j: nat)
    ensures Bit(0, j) == 0
  {
    if j > 0 {
      BitOfZero(j - 1);
    }
  }

  /** Two numbers with the same bits are equal. */
  lemma {:induction false} BitsDetermine(a: nat, b: nat)
    requires forall k :: Bit(a, k) == Bit(b, k)
    ensures a == b
    decreases a + b
  {
    assert Bit(a, 0) == Bit(b, 0);
    if a != 0 || b != 0 {
      forall k: nat
        ensures Bit(a / 2, k) == Bit(b / 2, k)
      {
        assert Bit(a, k + 1) == Bit(b, k + 1);
      }
      if a / 2 == a || b / 2 == b {
        BitOfZero(0);
      }
      BitsDetermine(a / 2, b / 2);
    }
  }

  /** No bit at or above the bit length is set. */
  lemma {:induction false} BitAbove(a: nat, k: nat)
    requires a < Pow2(k)
    ensures forall j :: j >= k ==> Bit(a, j) == 0
  {
    forall j | j >= k
      ensures Bit(a, j) == 0
    {
      BitAboveOne(a, k, j);
    }
  }

  lemma {:induction false} BitAboveOne(a: nat, k: nat, j: nat)
    requires a < Pow2(k) && j >= k
    ensures Bit(a, j) == 0
    decreases k
  {
    if k == 0 {
      assert a == 0;
      BitOfZero(j);
    } else {
      BitAboveOne(a / 2, k - 1, j - 1);
    }
  }

  /** Number of set bits, `bin(a).count('1')`. */
  function Popcount(a: nat): nat
  {
    if a == 0 then 0 else a % 2 + Popcount(a / 2)
  }

  /** A value below 2^k has at most k set bits. */
  lemma {:induction false} PopcountBound(a: nat, k: nat)
    requires a < Pow2(k)
    ensures Popcount(a) <= k
  {
    if a != 0 {
      assert k > 0;
      PopcountBound(a / 2, k - 1);
    }
  }

  /** Python's `int.bit_length()`. */
  function BitLength(a: nat): (r: nat)
    ensures a < Pow2(r)
    ensures a > 0 ==> r >= 1 && Pow2(r - 1) <= a
  {
    if a == 0 then 0 else 1 + BitLength(a / 2)
  }

  /** Parity of `popcount(a & b)`, the bitwise dot product of the spectra code. */
  function DotBits(a: nat, b: nat): bool
    decreases a + b
  {
    if a == 0 && b == 0 then false
    else (a % 2 == 1 && b % 2 == 1) != DotBits(a / 2, b / 2)
  }
}
