/** Powers of two and bitwise exclusive or, on numbers. */
module Binary {
  import opened Bytes

  function Pow2(k: nat): nat {
    if k == 0 then 1 else 2 * Pow2(k - 1)
  }

  /** Bitwise exclusive or of two numbers. */
  function Xor(x: nat, y: nat): nat {
    if x == 0 && y == 0 then 0
    else 2 * Xor(x / 2, y / 2) + if x % 2 == y % 2 then 0 else 1
  }

  lemma {:induction false} XorBound(x: nat, y: nat, k: nat)
    requires x < Pow2(k) && y < Pow2(k)
    ensures Xor(x, y) < Pow2(k)
  {
    if k != 0 && (x != 0 || y != 0) {
      XorBound(x / 2, y / 2, k - 1);
    }
  }

  lemma WordPow()
    ensures Pow2(31) == 0x8000_0000 && Pow2(32) == 0x1_0000_0000
  {
    assert Pow2(8) == 0x100;
    assert Pow2(16) == 0x1_0000;
    assert Pow2(24) == 0x100_0000;
  }

  function XorWord(x: u32, y: u32): u32 {
    WordPow();
    XorBound(x, y, 32);
    Xor(x, y)
  }

  lemma {:induction false} XorCancel(x: nat, y: nat, z: nat)
    ensures Xor(x, z) == Xor(y, z) <==> x == y
    ensures Xor(x, z) == Xor(z, x)
    decreases x + y + z
  {
    if x + y + z != 0 {
      XorCancel(x / 2, y / 2, z / 2);
    }
  }

  /** A bit above all of x shows in the result exactly when it was applied. */
  lemma {:induction false} XorTopBit(x: nat, p: nat, k: nat)
    requires x < Pow2(k)
    ensures Pow2(k) <= p < Pow2(k + 1) ==> Xor(x, p) >= Pow2(k)
    ensures Xor(x, 0) == x
  {
    if k != 0 {
      XorTopBit(x / 2, p / 2, k - 1);
    }
  }

  /** The number without its k lowest bits. */
  function Shifted(x: nat, k: nat): nat {
    if k == 0 then x else Shifted(x / 2, k - 1)
  }

  /** Bit by bit: a bit of the result is set exactly when it is set in one of the two numbers and not in the other. */
  lemma {:induction false} XorBits(x: nat, y: nat, k: nat)
    ensures Shifted(Xor(x, y), k) % 2 == 1 <==> Shifted(x, k) % 2 != Shifted(y, k) % 2
    decreases k
  {
    if k == 0 {
      assert Xor(x, y) % 2 == if x % 2 == y % 2 then 0 else 1;
    } else {
      assert Xor(x, y) / 2 == Xor(x / 2, y / 2);
      XorBits(x / 2, y / 2, k - 1);
    }
  }
}
