/** Unsigned machine integers, seen as the sequence of their bits.

    The C operators of the accessor macros (&, |, ~, <<, >>) are defined here on
    naturals, and each is characterised by what it does to every single bit.
    Bit 0 is the least significant one. */
module Bits {

  function Pow2(n: nat): (r: nat)
    ensures r > 0
  {
    if n == 0 then 1 else 2 * Pow2(n - 1)
  }

  predicate Bit(x: nat, i: nat) {
    if i == 0 then x % 2 == 1 else Bit(x / 2, i - 1)
  }

  function And(x: nat, y: nat): nat {
    if x == 0 || y == 0 then 0
    else 2 * And(x / 2, y / 2) + (if x % 2 == 1 && y % 2 == 1 then 1 else 0)
  }

  function Or(x: nat, y: nat): nat
    decreases x + y
  {
    if x == 0 && y == 0 then 0
    else 2 * Or(x / 2, y / 2) + (if x % 2 == 1 || y % 2 == 1 then 1 else 0)
  }

  // The n low bits of x, all set.
  function Mask(n: nat): nat {
    Pow2(n) - 1
  }

  // ~x on n bits
  function Not(n: nat, x: nat): nat
    requires x < Pow2(n)
  {
    Pow2(n) - 1 - x
  }

  function ShiftLeft(x: nat, k: nat): nat
    decreases k
  {
    if k == 0 then x else ShiftLeft(2 * x, k - 1)
  }

  function ShiftRight(x: nat, k: nat): nat
    decreases k
  {
    if k == 0 then x else ShiftRight(x / 2, k - 1)
  }

  // Truncation of x to n bits
  function Low(x: nat, n: nat): (r: nat)
    ensures r < Pow2(n)
    decreases n
  {
    if n == 0 then 0 else 2 * Low(x / 2, n - 1) + x % 2
  }

  lemma {:induction false} ZeroBits(i: nat)
    ensures !Bit(0, i)
  {
    if i > 0 { ZeroBits(i - 1); }
  }

  lemma AndHalf(x: nat, y: nat)
    ensures And(x, y) / 2 == And(x / 2, y / 2)
    ensures And(x, y) % 2 == 1 <==> x % 2 == 1 && y % 2 == 1
  {
  }

  lemma {:induction false} AndBit(x: nat, y: nat, i: nat)
    ensures Bit(And(x, y), i) <==> Bit(x, i) && Bit(y, i)
    decreases i
  {
    hide And;
    AndHalf(x, y);
    if i > 0 { AndBit(x / 2, y / 2, i - 1); }
  }

  lemma OrHalf(x: nat, y: nat)
    ensures Or(x, y) / 2 == Or(x / 2, y / 2)
    ensures Or(x, y) % 2 == 1 <==> x % 2 == 1 || y % 2 == 1
  {
  }

  lemma {:induction false} OrBit(x: nat, y: nat, i: nat)
    ensures Bit(Or(x, y), i) <==> Bit(x, i) || Bit(y, i)
    decreases i
  {
    hide Or;
    OrHalf(x, y);
    if i > 0 { OrBit(x / 2, y / 2, i - 1); }
  }

  lemma {:induction false} MaskBit(n: nat, i: nat)
    ensures Bit(Mask(n), i) <==> i < n
  {
    if n == 0 {
      ZeroBits(i);
    } else if i > 0 {
      assert Mask(n) / 2 == Mask(n - 1);
      MaskBit(n - 1, i - 1);
    }
  }

  lemma {:induction false} NotBit(n: nat, x: nat, i: nat)
    requires x < Pow2(n) && i < n
    ensures Bit(Not(n, x), i) <==> !Bit(x, i)
  {
    if i > 0 {
      assert Not(n, x) / 2 == Not(n - 1, x / 2);
      NotBit(n - 1, x / 2, i - 1);
    }
  }

  lemma {:induction false} ShiftLeftBit(x: nat, k: nat, i: nat)
    ensures Bit(ShiftLeft(x, k), i) <==> i >= k && Bit(x, i - k)
    decreases k
  {
    if k > 0 {
      ShiftLeftBit(2 * x, k - 1, i);
    }
  }

  lemma {:induction false} ShiftRightBit(x: nat, k: nat, i: nat)
    ensures Bit(ShiftRight(x, k), i) <==> Bit(x, i + k)
    decreases k
  {
    if k > 0 {
      ShiftRightBit(x / 2, k - 1, i);
    }
  }

  lemma {:induction false} LowBit(x: nat, n: nat, i: nat)
    ensures Bit(Low(x, n), i) <==> i < n && Bit(x, i)
    decreases n
  {
    if n == 0 {
      ZeroBits(i);
    } else if i > 0 {
      LowBit(x / 2, n - 1, i - 1);
      assert Low(x, n) / 2 == Low(x / 2, n - 1);
    }
  }

  // Numbers of at most n bits are determined by those bits.
  lemma {:induction false} SameBits(x: nat, y: nat, n: nat)
    requires x < Pow2(n) && y < Pow2(n)
    requires forall i: nat :: i < n ==> (Bit(x, i) <==> Bit(y, i))
    ensures x == y
    decreases n
  {
    if n > 0 {
      assert Bit(x, 0) <==> Bit(y, 0);
      forall i: nat | i < n - 1
        ensures Bit(x / 2, i) <==> Bit(y / 2, i)
      {
        assert Bit(x, i + 1) <==> Bit(y, i + 1);
      }
      SameBits(x / 2, y / 2, n - 1);
    }
  }

  lemma {:induction false} LowIsMod(x: nat, n: nat)
    ensures Low(x, n) == x % Pow2(n)
    decreases n
  {
    if n > 0 {
      LowIsMod(x / 2, n - 1);
      ModTwice(x, Pow2(n - 1));
    }
  }

  lemma ModTwice(x: nat, p: nat)
    requires p > 0
    ensures x % (2 * p) == 2 * (x / 2 % p) + x % 2
  {
    var q := x / 2 / p;
    assert x / 2 == q * p + x / 2 % p;
    assert q * (2 * p) == 2 * (q * p);
    DivModUnique(x, 2 * p, q, 2 * (x / 2 % p) + x % 2);
  }

  lemma DivModUnique(x: int, d: int, q: int, r: int)
    requires d > 0 && 0 <= r < d && x == q * d + r
    ensures x / d == q && x % d == r
  {
    var p := x / d;
    assert x == p * d + x % d;
    assert (p - q) * d == r - x % d;
    if p > q {
      Scaled(p - q, d);
    } else if p < q {
      Scaled(q - p, d);
    }
  }

  lemma Scaled(e: int, d: int)
    requires e >= 1 && d > 0
    ensures e * d >= d
  {
    assert (e - 1) * d >= 0;
    assert e * d == (e - 1) * d + d;
  }

  lemma {:induction false} AndMaskIsLow(x: nat, n: nat)
    ensures And(x, Mask(n)) == Low(x, n)
    decreases n
  {
    if x != 0 && n != 0 {
      assert Mask(n) / 2 == Mask(n - 1) && Mask(n) % 2 == 1;
      AndMaskIsLow(x / 2, n - 1);
    } else if n > 0 {
      LowOfZero(n);
    }
  }

  lemma {:induction false} LowOfZero(n: nat)
    ensures Low(0, n) == 0
  {
    if n > 0 { LowOfZero(n - 1); }
  }

  lemma {:induction false} LowOfSmall(x: nat, n: nat)
    requires x < Pow2(n)
    ensures Low(x, n) == x
    decreases n
  {
    if n > 0 { LowOfSmall(x / 2, n - 1); }
  }

  lemma {:induction false} Pow2Monotone(m: nat, n: nat)
    requires m <= n
    ensures Pow2(m) <= Pow2(n)
    decreases n
  {
    if m < n { Pow2Monotone(m, n - 1); }
  }

  lemma {:induction false} PowProduct(a: nat, b: nat)
    ensures Pow2(a + b) == Pow2(a) * Pow2(b)
    decreases a
  {
    if a > 0 {
      PowProduct(a - 1, b);
      DoubleProduct(Pow2(a - 1), Pow2(b));
    }
  }

  lemma DoubleProduct(p: int, q: int)
    ensures (2 * p) * q == 2 * (p * q)
  {
  }

  lemma PowersOfTwo()
    ensures Pow2(1) == 2 && Pow2(2) == 4 && Pow2(4) == 16 && Pow2(8) == 256
    ensures Pow2(16) == 0x1_0000 && Pow2(24) == 0x100_0000
    ensures Pow2(32) == 0x1_0000_0000 && Pow2(64) == 0x1_0000_0000_0000_0000
  {
    assert Pow2(1) == 2 && Pow2(2) == 4;
    assert Pow2(4) == 16 by { hide Pow2; PowProduct(2, 2); }
    assert Pow2(8) == 256 by { hide Pow2; PowProduct(4, 4); }
    assert Pow2(16) == 0x1_0000 by { hide Pow2; PowProduct(8, 8); }
    assert Pow2(24) == 0x100_0000 by { hide Pow2; PowProduct(8, 16); }
    assert Pow2(32) == 0x1_0000_0000 by { hide Pow2; PowProduct(16, 16); }
    assert Pow2(64) == 0x1_0000_0000_0000_0000 by { hide Pow2; PowProduct(32, 32); }
  }

  lemma ModOfMod(v: int, m: nat, n: nat)
    requires n <= m
    ensures v % Pow2(m) % Pow2(n) == v % Pow2(n)
  {
    PowProduct(m - n, n);
    ModOfMultiple(v, Pow2(n), Pow2(m - n));
  }

  lemma ModOfMultiple(v: int, p: int, c: int)
    requires p > 0 && c > 0 && c * p > 0
    ensures v % (c * p) % p == v % p
  {
    var q, r := v / (c * p), v % (c * p);
    Regroup(v, q, c, p, r);
    DivModUnique(v, p, q * c + r / p, r % p);
  }

  lemma Regroup(v: int, q: int, c: int, p: int, r: int)
    requires p > 0 && v == q * (c * p) + r
    ensures v == (q * c + r / p) * p + r % p
  {
    assert q * (c * p) == (q * c) * p;
    assert r == (r / p) * p + r % p;
    assert (q * c + r / p) * p == (q * c) * p + (r / p) * p;
  }

  // x & ~mask drops the k low bits of x.
  lemma {:induction false} ClearLow(x: nat, k: nat, n: nat)
    requires k <= n && x < Pow2(n)
    ensures Mask(k) < Pow2(n)
    ensures And(x, Not(n, Mask(k))) == x - Low(x, k)
    decreases k
  {
    Pow2Monotone(k, n);
    var m := Not(n, Mask(k));
    if k == 0 {
      AndMaskIsLow(x, n);
      LowOfSmall(x, n);
    } else {
      ClearLow(x / 2, k - 1, n - 1);
      assert m / 2 == Not(n - 1, Mask(k - 1)) && m % 2 == 0;
      AndHalf(x, m);
    }
  }

  lemma {:induction false} ShiftLeftIsProduct(x: nat, k: nat)
    ensures ShiftLeft(x, k) == x * Pow2(k)
    decreases k
  {
    if k > 0 {
      ShiftLeftIsProduct(2 * x, k - 1);
      DoubleProduct(x, Pow2(k - 1));
      assert x * Pow2(k) == 2 * (x * Pow2(k - 1));
    }
  }

  lemma {:induction false} ShiftRightIsQuotient(x: nat, k: nat)
    ensures ShiftRight(x, k) == x / Pow2(k)
    decreases k
  {
    if k > 0 {
      ShiftRightIsQuotient(x / 2, k - 1);
      HalfQuotient(x, Pow2(k - 1));
    }
  }

  lemma HalfQuotient(x: nat, p: nat)
    requires p > 0
    ensures x / 2 / p == x / (2 * p)
  {
    var q := x / 2 / p;
    assert x / 2 == q * p + x / 2 % p;
    assert q * (2 * p) == 2 * (q * p);
    DivModUnique(x, 2 * p, q, 2 * (x / 2 % p) + x % 2);
  }

  lemma OrZero(x: nat)
    ensures Or(0, x) == x
    decreases x
  {
    if x != 0 { OrZero(x / 2); }
  }
}
