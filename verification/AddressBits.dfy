/** Bitwise operations on unbounded naturals, and their relation to page arithmetic. */
module AddressBits {

  function Xor(a: nat, b: nat): nat
    decreases a + b
  {
    if a == 0 && b == 0 then 0 else (if a % 2 != b % 2 then 1 else 0) + 2 * Xor(a / 2, b / 2)
  }

  function Or(a: nat, b: nat): nat
    decreases a + b
  {
    if a == 0 && b == 0 then 0 else (if a % 2 == 1 || b % 2 == 1 then 1 else 0) + 2 * Or(a / 2, b / 2)
  }

  function Shr(a: nat, k: nat): nat
  {
    if k == 0 then a else Shr(a / 2, k - 1)
  }

  function Pow2(k: nat): (p: nat)
    ensures p > 0
  {
    if k == 0 then 1 else 2 * Pow2(k - 1)
  }

  lemma {:induction false} XorXor(a: nat, m: nat)
    ensures Xor(Xor(a, m), m) == a
    decreases a + m
  {
    if a != 0 || m != 0 {
      XorXor(a / 2, m / 2);
      var x := Xor(a, m);
      assert x % 2 == (if a % 2 != m % 2 then 1 else 0) && x / 2 == Xor(a / 2, m / 2);
    }
  }

  lemma XorInjective(a: nat, b: nat, m: nat)
    requires Xor(a, m) == Xor(b, m)
    ensures a == b
  {
    XorXor(a, m);
    XorXor(b, m);
  }

  lemma {:induction false} XorShr(a: nat, m: nat, k: nat)
    ensures Shr(Xor(a, m), k) == Xor(Shr(a, k), Shr(m, k))
    decreases k
  {
    if k > 0 {
      assert Xor(a, m) / 2 == Xor(a / 2, m / 2);
      XorShr(a / 2, m / 2, k - 1);
    }
  }

  lemma {:induction false} XorBound(a: nat, m: nat, k: nat)
    requires a < Pow2(k) && m < Pow2(k)
    ensures Xor(a, m) < Pow2(k)
    decreases k
  {
    if k > 0 {
      XorBound(a / 2, m / 2, k - 1);
    }
  }

  /** Flipping the low k bits counts down from the largest number that has them. */
  lemma {:induction false} XorOnes(a: nat, k: nat)
    ensures Xor(a, Pow2(k) - 1) == Shr(a, k) * Pow2(k) + (Pow2(k) - 1 - Low(a, k))
    decreases k
  {
    if k == 0 {
      XorZero(a);
    } else {
      var p := Pow2(k - 1);
      XorOnes(a / 2, k - 1);
      assert (2 * p - 1) / 2 == p - 1 && (2 * p - 1) % 2 == 1;
      DoubleProduct(Shr(a, k), p);
    }
  }

  lemma {:induction false} XorZero(a: nat)
    ensures Xor(a, 0) == a
  {
    if a != 0 {
      XorZero(a / 2);
    }
  }

  /** Flipping only higher bits keeps the low k bits. */
  lemma {:induction false} XorLow(a: nat, m: nat, k: nat)
    requires Low(m, k) == 0
    ensures Low(Xor(a, m), k) == Low(a, k)
    decreases k
  {
    if k > 0 {
      assert Xor(a, m) / 2 == Xor(a / 2, m / 2);
      XorLow(a / 2, m / 2, k - 1);
    }
  }

  /** The low k bits. */
  function Low(a: nat, k: nat): nat
  {
    if k == 0 then 0 else a % 2 + 2 * Low(a / 2, k - 1)
  }

  lemma {:induction false} LowShr(a: nat, k: nat)
    ensures a == Shr(a, k) * Pow2(k) + Low(a, k)
    ensures Low(a, k) < Pow2(k)
    decreases k
  {
    if k > 0 {
      LowShr(a / 2, k - 1);
      DoubleProduct(Shr(a, k), Pow2(k - 1));
    }
  }

  lemma DoubleProduct(q: nat, p: nat)
    ensures 2 * (q * p) == q * (2 * p)
  {
  }

  /** Or-ing a low part into an address affects only its low bits. */
  lemma {:induction false} OrLow(b: nat, o: nat, k: nat)
    requires o < Pow2(k)
    ensures Shr(Or(b, o), k) == Shr(b, k)
    ensures Low(Or(b, o), k) == Or(Low(b, k), o)
    decreases k
  {
    if k > 0 {
      OrLow(b / 2, o / 2, k - 1);
      OrHalf(b, o);
      LowHalf(b, k);
      OrHalf(Low(b, k), o);
      LowHalf(Or(b, o), k);
      SameHalves(Low(Or(b, o), k), Or(Low(b, k), o));
    } else {
      OrZero(b);
    }
  }

  lemma OrHalf(a: nat, b: nat)
    ensures Or(a, b) / 2 == Or(a / 2, b / 2)
    ensures Or(a, b) % 2 == if a % 2 == 1 || b % 2 == 1 then 1 else 0
  {
  }

  lemma LowHalf(a: nat, k: nat)
    requires k > 0
    ensures Low(a, k) / 2 == Low(a / 2, k - 1) && Low(a, k) % 2 == a % 2
  {
  }

  lemma SameHalves(a: nat, b: nat)
    requires a / 2 == b / 2 && a % 2 == b % 2
    ensures a == b
  {
  }

  lemma {:induction false} OrZero(a: nat)
    ensures Or(a, 0) == a && Or(0, a) == a
  {
    if a != 0 {
      OrZero(a / 2);
    }
  }

  /** Or-ing an offset into an aligned address adds it. */
  lemma OrAligned(b: nat, o: nat, k: nat)
    requires o < Pow2(k) && Low(b, k) == 0
    ensures Or(b, o) == b + o
  {
    OrLow(b, o, k);
    OrZero(o);
    LowShr(b, k);
    LowShr(Or(b, o), k);
  }

  lemma {:induction false} ShrShr(a: nat, j: nat, k: nat)
    ensures Shr(Shr(a, j), k) == Shr(a, j + k)
  {
    if j > 0 {
      ShrShr(a / 2, j - 1, k);
    }
  }

  lemma Shr3(a: nat)
    ensures Shr(a, 3) == a / 8
  {
    assert Shr(a, 1) == a / 2;
    assert Shr(a / 2, 2) == Shr(a / 2 / 2, 1);
    assert Shr(a, 3) == a / 2 / 2 / 2;
  }

  lemma Shr9(a: nat)
    ensures Shr(a, 9) == a / 512
  {
    Shr3(a);
    Shr3(a / 8);
    Shr3(a / 8 / 8);
    ShrShr(a, 3, 3);
    ShrShr(a, 6, 3);
  }

  lemma Shr12(a: nat)
    ensures Shr(a, 12) == a / 4096
  {
    Shr9(a);
    Shr3(a / 512);
    ShrShr(a, 9, 3);
  }

  /** Adding a low part to an aligned number. */
  lemma {:induction false} AddLow(a: nat, o: nat, k: nat)
    requires Low(a, k) == 0 && o < Pow2(k)
    ensures Shr(a + o, k) == Shr(a, k) && Low(a + o, k) == o
    decreases k
  {
    if k > 0 {
      assert (a + o) / 2 == a / 2 + o / 2 && (a + o) % 2 == o % 2;
      AddLow(a / 2, o / 2, k - 1);
    }
  }

  /** Clearing the low part. */
  lemma {:induction false} SubLow(a: nat, k: nat)
    ensures Low(a, k) <= a
    ensures Shr(a - Low(a, k), k) == Shr(a, k) && Low(a - Low(a, k), k) == 0
    decreases k
  {
    if k > 0 {
      SubLow(a / 2, k - 1);
      var b := a - Low(a, k);
      assert b == 2 * (a / 2 - Low(a / 2, k - 1));
    }
  }

  /** A number is determined by its high and low parts. */
  lemma {:induction false} HighLow(a: nat, b: nat, k: nat)
    requires Shr(a, k) == Shr(b, k) && Low(a, k) == Low(b, k)
    ensures a == b
    decreases k
  {
    if k > 0 {
      HighLow(a / 2, b / 2, k - 1);
    }
  }

  lemma {:induction false} LowBound(a: nat, k: nat)
    ensures Low(a, k) < Pow2(k)
  {
    if k > 0 {
      LowBound(a / 2, k - 1);
    }
  }

  lemma {:induction false} ShrMono(a: nat, b: nat, k: nat)
    requires a <= b
    ensures Shr(a, k) <= Shr(b, k)
    decreases k
  {
    if k > 0 {
      ShrMono(a / 2, b / 2, k - 1);
    }
  }

  lemma {:induction false} ShrNext(a: nat, k: nat)
    ensures Shr(a + Pow2(k), k) == Shr(a, k) + 1
    decreases k
  {
    if k > 0 {
      assert (a + Pow2(k)) / 2 == a / 2 + Pow2(k - 1);
      ShrNext(a / 2, k - 1);
    }
  }

  /** Clear low bits include fewer clear low bits. */
  lemma {:induction false} LowLess(a: nat, j: nat, k: nat)
    requires Low(a, k) == 0 && j <= k
    ensures Low(a, j) == 0
    decreases k
  {
    if j > 0 {
      LowLess(a / 2, j - 1, k - 1);
    }
  }

  lemma {:induction false} PowAdd(j: nat, k: nat)
    ensures Pow2(j + k) == Pow2(j) * Pow2(k)
    decreases j
  {
    if j > 0 {
      PowAdd(j - 1, k);
      DoubleProduct(Pow2(k), Pow2(j - 1));
    }
  }

  /** A multiple of a power of two. */
  lemma {:induction false} LowOfShifted(m: nat, k: nat)
    ensures Low(m * Pow2(k), k) == 0 && Shr(m * Pow2(k), k) == m
    decreases k
  {
    if k > 0 {
      DoubleProduct(m, Pow2(k - 1));
      LowOfShifted(m, k - 1);
    }
  }
}
