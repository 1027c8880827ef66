/** Bitwise operations of the source's unsigned words, on natural numbers, bit by bit. */
module Words {

  function Pow2(k: nat): (p: nat)
    ensures p > 0
  {
    if k == 0 then 1 else 2 * Pow2(k - 1)
  }

  /** Bit k, counted from the least significant. */
  predicate Bit(x: nat, k: nat) {
    if k == 0 then x % 2 == 1 else Bit(x / 2, k - 1)
  }

  function Or(x: nat, y: nat): nat {
    if x == 0 && y == 0 then 0 else 2 * Or(x / 2, y / 2) + (if x % 2 == 1 || y % 2 == 1 then 1 else 0)
  }

  function And(x: nat, y: nat): nat {
    if x == 0 || y == 0 then 0 else 2 * And(x / 2, y / 2) + (if x % 2 == 1 && y % 2 == 1 then 1 else 0)
  }

  /** x & ~y */
  function AndNot(x: nat, y: nat): nat {
    if x == 0 then 0 else 2 * AndNot(x / 2, y / 2) + (if x % 2 == 1 && y % 2 == 0 then 1 else 0)
  }

  function Shr(x: nat, s: nat): nat {
    if s == 0 then x else Shr(x / 2, s - 1)
  }

  /** x << s, before any truncation */
  function Shl(x: nat, s: nat): nat {
    if s == 0 then x else 2 * Shl(x, s - 1)
  }

  // ---------------------------------------------------------------- what each does to single bits

  lemma {:induction false} ZeroBit(k: nat)
    ensures !Bit(0, k)
  {
    if k == 0 {
    } else {
      ZeroBit(k - 1);
    }
  }

  lemma {:induction false} OrBit(x: nat, y: nat, k: nat)
    ensures Bit(Or(x, y), k) == (Bit(x, k) || Bit(y, k))
  {
    if x == 0 && y == 0 {
      ZeroBit(k);
    } else if k > 0 {
      OrBit(x / 2, y / 2, k - 1);
    }
  }

  lemma {:induction false} AndNotBit(x: nat, y: nat, k: nat)
    ensures Bit(AndNot(x, y), k) == (Bit(x, k) && !Bit(y, k))
  {
    if x == 0 {
      ZeroBit(k);
    } else if k > 0 {
      AndNotBit(x / 2, y / 2, k - 1);
    }
  }

  lemma {:induction false} ShrBit(x: nat, s: nat, k: nat)
    ensures Bit(Shr(x, s), k) == Bit(x, k + s)
  {
    if s == 0 {
    } else {
      ShrBit(x / 2, s - 1, k);
    }
  }

  lemma {:induction false} ShlBit(x: nat, s: nat, k: nat)
    ensures Bit(Shl(x, s), k) == (k >= s && Bit(x, k - s))
  {
    if s == 0 {
    } else {
      var half := Shl(x, s - 1);
      assert 2 * half / 2 == half && 2 * half % 2 == 0;
      if k > 0 {
        ShlBit(x, s - 1, k - 1);
      }
    }
  }

  lemma {:induction false} Pow2Bit(j: nat, k: nat)
    ensures Bit(Pow2(j), k) == (j == k)
  {
    if j > 0 {
      assert Pow2(j) / 2 == Pow2(j - 1) && Pow2(j) % 2 == 0;
      if k > 0 {
        Pow2Bit(j - 1, k - 1);
      }
    } else if k > 0 {
      ZeroBit(k - 1);
    }
  }

  /** A number below 2^n has no bit from n on. */
  lemma {:induction false} HighBit(x: nat, n: nat, k: nat)
    requires x < Pow2(n) && k >= n
    ensures !Bit(x, k)
  {
    if n == 0 {
      ZeroBit(k);
    } else {
      HighBit(x / 2, n - 1, k - 1);
    }
  }

  /** Numbers with the same bits are equal. */
  lemma {:induction false} SameBits(x: nat, y: nat, n: nat)
    requires x < Pow2(n) && y < Pow2(n)
    requires forall k: nat :: k < n ==> Bit(x, k) == Bit(y, k)
    ensures x == y
  {
    if n == 0 {
    } else {
      assert Bit(x, 0) == Bit(y, 0);
      forall k: nat | k < n - 1 ensures Bit(x / 2, k) == Bit(y / 2, k) {
        assert Bit(x, k + 1) == Bit(y, k + 1);
      }
      SameBits(x / 2, y / 2, n - 1);
    }
  }

  lemma {:induction false} OrBound(x: nat, y: nat, n: nat)
    requires x < Pow2(n) && y < Pow2(n)
    ensures Or(x, y) < Pow2(n)
  {
    if n == 0 || (x == 0 && y == 0) {
    } else {
      OrBound(x / 2, y / 2, n - 1);
    }
  }

  /** The test x & (1 << k) in a condition is the test of bit k. */
  lemma {:induction false} AndTestsBit(x: nat, k: nat)
    ensures And(x, Pow2(k)) != 0 <==> Bit(x, k)
  {
    if k > 0 {
      assert Pow2(k) / 2 == Pow2(k - 1) && Pow2(k) % 2 == 0;
      AndTestsBit(x / 2, k - 1);
      if x == 0 {
        ZeroBit(k);
      }
    } else if x != 0 {
      assert And(x, 1) == 2 * And(x / 2, 0) + (if x % 2 == 1 then 1 else 0);
    }
  }

  /** Writing bit k, the way the bit set does it, leaves every other bit alone. */
  lemma WriteBit(x: nat, k: nat, j: nat)
    ensures Bit(Or(x, Pow2(k)), j) == (j == k || Bit(x, j))
    ensures Bit(AndNot(x, Pow2(k)), j) == (j != k && Bit(x, j))
  {
    OrBit(x, Pow2(k), j);
    AndNotBit(x, Pow2(k), j);
    Pow2Bit(k, j);
  }

  // ---------------------------------------------------------------- 32-bit words

  type word32 = x: nat | x < 0x1_0000_0000

  lemma Pow32()
    ensures Pow2(31) == 0x8000_0000 && Pow2(32) == 0x1_0000_0000
  {
    assert Pow2(4) == 16;
    assert Pow2(8) == 256;
    Pow2Add(8, 8);
    Pow2Add(16, 8);
    Pow2Add(24, 7);
  }

  lemma {:induction false} Pow2Add(a: nat, b: nat)
    ensures Pow2(a + b) == Pow2(a) * Pow2(b)
  {
    if b == 0 {
    } else {
      Pow2Add(a, b - 1);
      assert 2 * (Pow2(a) * Pow2(b - 1)) == Pow2(a) * (2 * Pow2(b - 1));
    }
  }

  /** (x << 1) + carry in 32 bits */
  function ShiftIn(x: word32, carry: bool): word32 {
    (if x < 0x8000_0000 then 2 * x else 2 * x - 0x1_0000_0000) + (if carry then 1 else 0)
  }

  /** 0x80000000 & x, as a condition */
  predicate TopBit(x: word32) { And(0x8000_0000, x) != 0 }

  lemma {:induction false} ClearTop(x: nat, n: nat, k: nat)
    requires Pow2(n) <= x < 2 * Pow2(n)
    ensures Bit(x, n)
    ensures k < n ==> Bit(x - Pow2(n), k) == Bit(x, k)
  {
    if n == 0 {
    } else {
      assert (x - Pow2(n)) / 2 == x / 2 - Pow2(n - 1) && (x - Pow2(n)) % 2 == x % 2;
      ClearTop(x / 2, n - 1, if k > 0 then k - 1 else 0);
    }
  }

  /** Shifting moves every bit up one place and puts the carry at the bottom; the top bit falls out. */
  lemma ShiftInBit(x: word32, carry: bool, k: nat)
    requires k < 32
    ensures Bit(ShiftIn(x, carry), k) == if k == 0 then carry else Bit(x, k - 1)
  {
    Pow32();
    if k > 0 && x >= 0x8000_0000 {
      ClearTop(x, 31, k - 1);
    }
  }

  lemma TopBitIsBit31(x: word32)
    ensures TopBit(x) == Bit(x, 31)
  {
    Pow32();
    AndTestsBit(x, 31);
    AndCommutes(x, Pow2(31));
  }

  lemma {:induction false} AndCommutes(x: nat, y: nat)
    ensures And(x, y) == And(y, x)
  {
    if x == 0 || y == 0 {
    } else {
      AndCommutes(x / 2, y / 2);
    }
  }
}
