/**
  Unsigned 64-bit words and their exclusive or. A word is an integer in
  [0, 2^64); XOR is defined bit by bit, lowest bit first, and its algebraic
  laws (identity 0, self-inverse, commutative, associative) are proved by
  induction on the operands.
 */
module Words {

  /** 2^64, one more than the largest word. */
  const WORD_LIMIT: nat := 0x1_0000_0000_0000_0000

  newtype u64 = x: int | 0 <= x < 0x1_0000_0000_0000_0000

  /** 2 to the power k. */
  function Pow2(k: nat): (p: nat)
    ensures p >= 1
  {
    if k == 0 then 1 else 2 * Pow2(k - 1)
  }

  /** Bit k of `a`, counting from the least significant bit. */
  function Bit(a: nat, k: nat): (b: nat)
    ensures b < 2
  {
    if k == 0 then a % 2 else Bit(a / 2, k - 1)
  }

  /** Bitwise exclusive or of two naturals: the low bits differ-or-not, the rest recursively. */
  function XorNat(a: nat, b: nat): nat
    decreases a + b
  {
    if a == 0 && b == 0 then 0 else 2 * XorNat(a / 2, b / 2) + (a + b) % 2
  }

  /** The defining recursion also holds when both operands are zero. */
  lemma XorStep(a: nat, b: nat)
    ensures XorNat(a, b) == 2 * XorNat(a / 2, b / 2) + (a + b) % 2
    ensures XorNat(a, b) / 2 == XorNat(a / 2, b / 2) && XorNat(a, b) % 2 == (a + b) % 2
  {
  }

  /** Bit k of a XOR is the exclusive or of the operands' bit k. */
  lemma {:induction false} XorBit(a: nat, b: nat, k: nat)
    ensures Bit(XorNat(a, b), k) == (Bit(a, k) + Bit(b, k)) % 2
  {
    var x := XorNat(a, b);
    XorStep(a, b);
    if k > 0 {
      assert Bit(x, k) == Bit(x / 2, k - 1);
      XorBit(a / 2, b / 2, k - 1);
    }
  }

  lemma {:induction false} XorNatZero(a: nat)
    ensures XorNat(a, 0) == a
  {
    if a != 0 {
      XorNatZero(a / 2);
    }
  }

  lemma {:induction false} XorNatSelf(a: nat)
    ensures XorNat(a, a) == 0
  {
    if a != 0 {
      XorNatSelf(a / 2);
    }
  }

  lemma {:induction false} XorNatComm(a: nat, b: nat)
    ensures XorNat(a, b) == XorNat(b, a)
    decreases a + b
  {
    if a != 0 || b != 0 {
      XorNatComm(a / 2, b / 2);
    }
  }

  lemma {:induction false} XorNatAssoc(a: nat, b: nat, c: nat)
    ensures XorNat(XorNat(a, b), c) == XorNat(a, XorNat(b, c))
    decreases a + b + c
  {
    if a != 0 || b != 0 || c != 0 {
      var x, y := XorNat(a, b), XorNat(b, c);
      XorStep(a, b);
      XorStep(b, c);
      XorStep(x, c);
      XorStep(a, y);
      XorNatAssoc(a / 2, b / 2, c / 2);
      SumParity(a, b, c, x, y);
    }
  }

  lemma SumParity(a: nat, b: nat, c: nat, x: nat, y: nat)
    requires x % 2 == (a + b) % 2 && y % 2 == (b + c) % 2
    ensures (x + c) % 2 == (a + y) % 2
  {
    AddParity(a, b);
    AddParity(b, c);
    AddParity(x, c);
    AddParity(a, y);
  }

  lemma AddParity(m: nat, n: nat)
    ensures (m + n) % 2 == (m % 2 + n % 2) % 2
  {
    assert m == 2 * (m / 2) + m % 2 && n == 2 * (n / 2) + n % 2;
    assert m + n == 2 * (m / 2 + n / 2) + (m % 2 + n % 2);
  }

  /** XOR of two k-bit numbers is a k-bit number. */
  lemma {:induction false} XorNatBelow(a: nat, b: nat, k: nat)
    requires a < Pow2(k) && b < Pow2(k)
    ensures XorNat(a, b) < Pow2(k)
  {
    if k > 0 {
      XorStep(a, b);
      XorNatBelow(a / 2, b / 2, k - 1);
    }
  }

  lemma {:induction false} Pow2Add(j: nat, k: nat)
    ensures Pow2(j + k) == Pow2(j) * Pow2(k)
  {
    if j > 0 {
      Pow2Add(j - 1, k);
      assert Pow2(j + k) == 2 * Pow2(j - 1 + k);
    }
  }

  lemma Pow2Word()
    ensures Pow2(64) == WORD_LIMIT
  {
    assert Pow2(2) == 4;
    Pow2Add(2, 2);
    assert Pow2(4) == 16;
    Pow2Add(4, 4);
    assert Pow2(8) == 0x100;
    Pow2Add(8, 8);
    assert Pow2(16) == 0x1_0000;
    Pow2Add(16, 16);
    assert Pow2(32) == 0x1_0000_0000;
    Pow2Add(32, 32);
  }

  /** Exclusive or of two words; it is again a word. */
  function Xor(a: u64, b: u64): u64 {
    Pow2Word();
    XorNatBelow(a as nat, b as nat, 64);
    XorNat(a as nat, b as nat) as u64
  }

  /** Bit k of `Xor(a, b)` is set exactly when bit k is set in one of `a`, `b` but not both. */
  lemma XorIsBitwise(a: u64, b: u64, k: nat)
    ensures Bit(Xor(a, b) as nat, k) == 1 <==> (Bit(a as nat, k) == 1) != (Bit(b as nat, k) == 1)
  {
    XorBit(a as nat, b as nat, k);
  }

  /** 0 is the identity of XOR. */
  lemma XorZero(a: u64)
    ensures Xor(a, 0) == a
  {
    XorNatZero(a as nat);
  }

  /** Every word is its own inverse. */
  lemma XorSelf(a: u64)
    ensures Xor(a, a) == 0
  {
    XorNatSelf(a as nat);
  }

  lemma XorComm(a: u64, b: u64)
    ensures Xor(a, b) == Xor(b, a)
  {
    XorNatComm(a as nat, b as nat);
  }

  lemma XorAssoc(a: u64, b: u64, c: u64)
    ensures Xor(Xor(a, b), c) == Xor(a, Xor(b, c))
  {
    XorNatAssoc(a as nat, b as nat, c as nat);
  }
}
