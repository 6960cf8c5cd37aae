/** Bytes, machine words as bounded integers, and exclusive or on them. */
module Words {

  type byte = x: int | 0 <= x < 0x100
  type uint32 = x: int | 0 <= x < 0x1_0000_0000
  type uint64 = x: int | 0 <= x < 0x1_0000_0000_0000_0000

  const TWO_32: int := 0x1_0000_0000
  const TWO_64: int := 0x1_0000_0000_0000_0000

  function Pow2(k: nat): (p: nat)
    ensures p > 0
  {
    if k == 0 then 1 else 2 * Pow2(k - 1)
  }

  lemma {:induction false} Pow2Adds(j: nat, k: nat)
    ensures Pow2(j + k) == Pow2(j) * Pow2(k)
  {
    if j > 0 {
      Pow2Adds(j - 1, k);
      assert Pow2(j) == 2 * Pow2(j - 1) && Pow2(j + k) == 2 * Pow2(j - 1 + k);
      hide Pow2;
      Associate(2, Pow2(j - 1), Pow2(k));
    }
  }

  lemma Associate(a: int, b: int, c: int)
    ensures a * (b * c) == a * b * c
  {
  }

  lemma Pow2Values()
    ensures Pow2(8) == 0x100 && Pow2(16) == 0x1_0000
    ensures Pow2(32) == TWO_32 && Pow2(64) == TWO_64
  {
    assert Pow2(8) == 0x100;
    hide Pow2;
    Pow2Adds(8, 8);
    Pow2Adds(16, 16);
    Pow2Adds(32, 32);
  }

  /** Bitwise exclusive or. */
  function Xor(a: nat, b: nat): nat
    decreases a + b
  {
    if a == 0 && b == 0 then 0
    else (if a % 2 == b % 2 then 0 else 1) + 2 * Xor(a / 2, b / 2)
  }

  lemma {:induction false} XorZero(a: nat)
    ensures Xor(a, 0) == a && Xor(0, a) == a
  {
    if a > 0 {
      XorZero(a / 2);
    }
  }

  lemma {:induction false} XorBound(a: nat, b: nat, k: nat)
    requires a < Pow2(k) && b < Pow2(k)
    ensures Xor(a, b) < Pow2(k)
  {
    if k > 0 {
      XorBound(a / 2, b / 2, k - 1);
    }
  }

  lemma XorStep(a: nat, b: nat)
    ensures Xor(a, b) / 2 == Xor(a / 2, b / 2)
    ensures Xor(a, b) % 2 == if a % 2 == b % 2 then 0 else 1
  {
    XorZero(0);
  }

  lemma {:induction false} XorUndo(a: nat, b: nat)
    ensures Xor(Xor(a, b), b) == a
    ensures Xor(a, Xor(a, b)) == b
    decreases a + b
  {
    if a != 0 || b != 0 {
      XorUndo(a / 2, b / 2);
      XorStep(a, b);
      XorStep(Xor(a, b), b);
      XorStep(a, Xor(a, b));
    }
  }

  /** `a` without its `k` low bits. */
  function Shr(a: nat, k: nat): nat {
    if k == 0 then a else Shr(a / 2, k - 1)
  }

  lemma {:induction false} ShrDivides(a: nat, k: nat)
    ensures Shr(a, k) == a / Pow2(k)
  {
    if k > 0 {
      ShrDivides(a / 2, k - 1);
      DivDouble(a, Pow2(k - 1));
    }
  }

  /** Exclusive or commutes with dropping the low bits. */
  lemma {:induction false} XorShr(a: nat, b: nat, k: nat)
    ensures Shr(Xor(a, b), k) == Xor(Shr(a, k), Shr(b, k))
  {
    if k > 0 {
      XorStep(a, b);
      XorShr(a / 2, b / 2, k - 1);
    }
  }

  lemma {:induction false} ShrAdds(a: nat, j: nat, k: nat)
    ensures Shr(Shr(a, j), k) == Shr(a, j + k)
  {
    if j > 0 {
      ShrAdds(a / 2, j - 1, k);
    }
  }

  lemma {:induction false} ShrVanishes(a: nat, k: nat)
    requires a < Pow2(k)
    ensures Shr(a, k) == 0
  {
    if k > 0 {
      ShrVanishes(a / 2, k - 1);
    }
  }

  /** Exclusive or commutes with keeping the low bit group only. */
  lemma {:induction false} XorLowBits(a: nat, b: nat, k: nat)
    ensures Xor(a, b) % Pow2(k) == Xor(a % Pow2(k), b % Pow2(k))
  {
    if k == 0 {
      XorZero(0);
    } else {
      var p := Pow2(k - 1);
      var x, y := a % (2 * p), b % (2 * p);
      ModDouble(Xor(a, b), p);
      ModDouble(a, p);
      ModDouble(b, p);
      XorLowBits(a / 2, b / 2, k - 1);
      XorStep(a, b);
      XorStep(x, y);
      assert x / 2 == a / 2 % p && y / 2 == b / 2 % p;
    }
  }

  /** On disjoint bit groups exclusive or is addition. */
  lemma {:induction false} XorDisjoint(a: nat, b: nat, k: nat)
    requires b < Pow2(k)
    ensures Xor(a * Pow2(k), b) == a * Pow2(k) + b
  {
    if k == 0 {
      XorZero(a);
    } else {
      assert a * Pow2(k) == 2 * (a * Pow2(k - 1));
      XorDisjoint(a, b / 2, k - 1);
    }
  }

  lemma DivDouble(x: nat, m: nat)
    requires m > 0
    ensures x / (2 * m) == x / 2 / m
  {
    var q, r := x / 2 / m, x / 2 % m;
    assert x == 2 * (q * m + r) + x % 2;
    assert x == q * (2 * m) + (2 * r + x % 2);
    DivModUnique(x, 2 * m, q, 2 * r + x % 2);
  }

  lemma ModDouble(x: nat, m: nat)
    requires m > 0
    ensures x % (2 * m) == 2 * (x / 2 % m) + x % 2
  {
    var q, r := x / 2 / m, x / 2 % m;
    assert x == q * (2 * m) + (2 * r + x % 2);
    DivModUnique(x, 2 * m, q, 2 * r + x % 2);
  }

  lemma DivModUnique(x: int, m: int, q: int, r: int)
    requires 0 <= r < m && x == q * m + r
    ensures x / m == q && x % m == r
  {
    assert (x / m - q) * m == r - x % m;
    MulAtLeast(x / m - q, m);
  }

  lemma MulAtLeast(k: int, m: int)
    requires m > 0
    ensures k >= 1 ==> k * m >= m
    ensures k <= -1 ==> k * m <= -m
  {
  }

  lemma ModOfMultiple(a: int, q: int, m: int)
    requires m > 0
    ensures (a + q * m) % m == a % m
  {
    assert a + q * m == (a / m + q) * m + a % m;
    DivModUnique(a + q * m, m, a / m + q, a % m);
  }

  lemma ModSubtract(a: int, b: int, m: int)
    requires m > 0
    ensures (a % m - b % m) % m == (a - b) % m
  {
    assert a - b == a % m - b % m + (a / m - b / m) * m;
    ModOfMultiple(a % m - b % m, a / m - b / m, m);
  }

  /** Multiplying by a number that has an inverse modulo `m` loses nothing. */
  lemma OddMultiplierUndone(x: int, c: int, inverse: int, q: int, m: int)
    requires 0 <= x < m && c * inverse == 1 + q * m
    ensures ((x * c) % m * inverse) % m == x
  {
    var d := (x * c) / m;
    calc {
      (x * c) % m * inverse;
      (x * c - d * m) * inverse;
      x * (c * inverse) - d * m * inverse;
      x * (1 + q * m) - d * m * inverse;
      x + (x * q - d * inverse) * m;
    }
    DivModUnique(x + (x * q - d * inverse) * m, m, x * q - d * inverse, x);
  }
}
