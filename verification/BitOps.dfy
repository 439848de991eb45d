// Exclusive or and powers of two on natural numbers, the arithmetic under every codec here.
module BitOps {

  function Pow2(n: nat): (r: nat)
    ensures r > 0
  {
    if n == 0 then 1 else 2 * Pow2(n - 1)
  }

  /** The bitwise exclusive or of two non-negative integers. */
  function Xor(a: nat, b: nat): nat
    decreases a + b
  {
    if a == 0 && b == 0 then 0 else (a % 2 + b % 2) % 2 + 2 * Xor(a / 2, b / 2)
  }

  lemma XorDigits(a: nat, b: nat)
    ensures Xor(a, b) % 2 == (a % 2 + b % 2) % 2
    ensures Xor(a, b) / 2 == Xor(a / 2, b / 2)
  {
  }

  lemma SameDigits(a: nat, b: nat)
    requires a % 2 == b % 2 && a / 2 == b / 2
    ensures a == b
  {
  }

  lemma {:induction false} XorComm(a: nat, b: nat)
    ensures Xor(a, b) == Xor(b, a)
    decreases a + b
  {
    if a != 0 || b != 0 {
      XorComm(a / 2, b / 2);
    }
  }

  lemma {:induction false} XorZero(a: nat)
    ensures Xor(a, 0) == a
    ensures Xor(0, a) == a
  {
    if a != 0 {
      XorZero(a / 2);
    }
  }

  lemma {:induction false} XorSelf(a: nat)
    ensures Xor(a, a) == 0
  {
    if a != 0 {
      XorSelf(a / 2);
    }
  }

  lemma {:induction false} XorAssoc(a: nat, b: nat, c: nat)
    ensures Xor(Xor(a, b), c) == Xor(a, Xor(b, c))
    decreases a + b + c
  {
    hide Xor;
    XorDigits(a, b);
    XorDigits(b, c);
    XorDigits(Xor(a, b), c);
    XorDigits(a, Xor(b, c));
    if a == 0 && b == 0 && c == 0 {
      XorZero(0);
    } else {
      XorAssoc(a / 2, b / 2, c / 2);
      ParityAssoc(a % 2, b % 2, c % 2);
      SameDigits(Xor(Xor(a, b), c), Xor(a, Xor(b, c)));
    }
  }

  lemma ParityAssoc(x: nat, y: nat, z: nat)
    requires x < 2 && y < 2 && z < 2
    ensures ((x + y) % 2 + z) % 2 == (x + (y + z) % 2) % 2
  {
  }

  /** The exchange law, which is all the reordering the polynomial proofs need. */
  lemma XorExchange(a: nat, b: nat, c: nat, d: nat)
    ensures Xor(Xor(a, b), Xor(c, d)) == Xor(Xor(a, c), Xor(b, d))
  {
    hide Xor;
    XorAssoc(Xor(a, b), c, d);
    XorAssoc(a, b, c);
    XorComm(b, c);
    XorAssoc(a, c, b);
    XorAssoc(Xor(a, c), b, d);
  }

  lemma XorCancel(a: nat, b: nat)
    ensures Xor(Xor(a, b), b) == a
    ensures Xor(b, Xor(b, a)) == a
    ensures Xor(a, b) == 0 <==> a == b
  {
    hide Xor;
    XorAssoc(a, b, b);
    XorAssoc(b, b, a);
    XorSelf(b);
    XorZero(a);
    XorZero(b);
  }

  lemma {:induction false} XorBound(a: nat, b: nat, m: nat)
    requires a < Pow2(m) && b < Pow2(m)
    ensures Xor(a, b) < Pow2(m)
  {
    if m != 0 {
      XorBound(a / 2, b / 2, m - 1);
      XorDigits(a, b);
    }
  }

  lemma XorDouble(a: nat, b: nat)
    ensures Xor(2 * a, 2 * b) == 2 * Xor(a, b)
  {
  }

  lemma ModPow2(a: nat, m: nat)
    requires m > 0
    ensures a % Pow2(m) % 2 == a % 2
    ensures a % Pow2(m) / 2 == a / 2 % Pow2(m - 1)
  {
    hide Pow2;
    Pow2Next(m - 1);
    ModTwice(a, Pow2(m - 1));
  }

  lemma ModTwice(a: nat, p: nat)
    requires p > 0
    ensures a % (2 * p) % 2 == a % 2
    ensures a % (2 * p) / 2 == a / 2 % p
  {
    var q, r := a / 2 / p, a / 2 % p;
    assert a / 2 == q * p + r by {
      DivMod(a / 2, p);
    }
    assert q * (2 * p) == 2 * (q * p);
    ModUnique(a, 2 * p, q, 2 * r + a % 2);
  }

  lemma ModUnique(a: nat, n: nat, q: int, r: nat)
    requires n > 0 && r < n && a == q * n + r
    ensures a % n == r && a / n == q
  {
    var d := a / n - q;
    assert a == (a / n) * n + a % n;
    assert d * n == r - a % n by {
      assert d * n == (a / n) * n - q * n;
    }
    SmallMultiple(d, n);
  }

  lemma SmallMultiple(d: int, n: int)
    requires -n < d * n < n
    ensures d == 0
  {
    if d >= 1 {
      MulMonotone(1, d, n);
      assert false;
    } else if d <= -1 {
      MulMonotone(d, -1, n);
      assert false;
    }
  }

  lemma MulMonotone(x: int, y: int, n: int)
    requires x <= y && n >= 0
    ensures x * n <= y * n
  {
  }

  lemma {:induction false} XorMod(a: nat, b: nat, m: nat)
    ensures Xor(a, b) % Pow2(m) == Xor(a % Pow2(m), b % Pow2(m))
  {
    if m == 0 {
      assert Xor(0, 0) == 0;
    } else {
      var p := Pow2(m);
      XorMod(a / 2, b / 2, m - 1);
      assert Xor(a, b) % p % 2 == Xor(a % p, b % p) % 2 by {
        hide Xor;
        ModPow2(a, m);
        ModPow2(b, m);
        ModPow2(Xor(a, b), m);
        XorDigits(a, b);
        XorDigits(a % p, b % p);
      }
      assert Xor(a, b) % p / 2 == Xor(a % p, b % p) / 2 by {
        hide Xor;
        ModPow2(a, m);
        ModPow2(b, m);
        ModPow2(Xor(a, b), m);
        XorDigits(a, b);
        XorDigits(a % p, b % p);
      }
      SameDigits(Xor(a, b) % p, Xor(a % p, b % p));
    }
  }

  // ----- the bitwise or, and single bits

  /** The bitwise or of two non-negative integers. */
  function Or(a: nat, b: nat): nat
    decreases a + b
  {
    if a == 0 && b == 0 then 0
    else (if a % 2 == 1 || b % 2 == 1 then 1 else 0) + 2 * Or(a / 2, b / 2)
  }

  /** Or is a sum when the operands share no bit. */
  lemma {:induction false} OrDisjoint(low: nat, high: nat, n: nat)
    requires low < Pow2(n)
    ensures Or(low, high * Pow2(n)) == low + high * Pow2(n)
    decreases n
  {
    if n == 0 {
      OrZero(high);
    } else {
      var p, q := Pow2(n - 1), high * Pow2(n - 1);
      assert high * Pow2(n) == 2 * q by {
        assert high * (2 * p) == 2 * (high * p);
      }
      OrDisjoint(low / 2, high, n - 1);
      OrStep(low, q);
    }
  }

  lemma OrStep(low: nat, q: nat)
    ensures Or(low, 2 * q) == low % 2 + 2 * Or(low / 2, q)
  {
  }

  lemma {:induction false} OrComm(a: nat, b: nat)
    ensures Or(a, b) == Or(b, a)
    decreases a + b
  {
    if a != 0 || b != 0 {
      OrComm(a / 2, b / 2);
    }
  }

  lemma {:induction false} OrZero(a: nat)
    ensures Or(0, a) == a
  {
    if a > 0 {
      OrZero(a / 2);
    }
  }

  /** Bit n of x: the test x & (1 << n). */
  predicate BitSet(x: nat, n: nat) {
    x / Pow2(n) % 2 == 1
  }

  lemma BitSplits(x: nat, n: nat)
    ensures x % Pow2(n + 1) == x % Pow2(n) + (if BitSet(x, n) then Pow2(n) else 0)
  {
    var p := Pow2(n);
    var d := x / p;
    var h := d / 2;
    assert x == p * d + x % p;
    assert p * (2 * h) == h * (2 * p);
    assert d == 2 * h + d % 2;
    if BitSet(x, n) {
      assert p * d == p * (2 * h) + p;
      ModUnique(x, 2 * p, h, x % p + p);
    } else {
      ModUnique(x, 2 * p, h, x % p);
    }
  }

  lemma {:induction false} Pow2Add(m: nat, n: nat)
    ensures Pow2(m + n) == Pow2(m) * Pow2(n)
    decreases m
  {
    if m > 0 {
      Pow2Add(m - 1, n);
      MulAssoc3(2, Pow2(m - 1), Pow2(n));
    }
  }

  lemma {:induction false} OrBound(a: nat, b: nat, n: nat)
    requires a < Pow2(n) && b < Pow2(n)
    ensures Or(a, b) < Pow2(n)
    decreases n
  {
    if n > 0 {
      OrBound(a / 2, b / 2, n - 1);
    }
  }

  // ----- arithmetic steps

  lemma SplitProduct(x: nat, p: nat, s: nat, low: nat)
    requires p > 0 && s > 0 && x < p * s && low < p
    ensures x * p % (p * s) == x % s * p
    ensures x * p / (p * s) == x / s < p
    ensures low + x % s * p < p * s
  {
    var q, rem := x / s, x % s;
    var base := p * s;
    assert x * p == q * base + rem * p by {
      assert x == q * s + rem;
      Distribute(q * s, rem, p);
      MulAssoc3(q, s, p);
    }
    assert rem * p + p <= base by {
      MulMonotone(rem + 1, s, p);
    }
    ModUnique(x * p, base, q, rem * p);
    assert q * s < p * s;
    MulCancel(q, p, s);
  }

  lemma MulCancel(a: int, b: int, c: nat)
    requires a * c < b * c
    ensures a < b
  {
    if a >= b {
      MulMonotone(b, a, c);
      assert false;
    }
  }

  lemma DivMod(x: nat, d: nat)
    requires d > 0
    ensures x == x % d + d * (x / d)
  {
  }

  lemma Distribute(a: int, b: int, c: int)
    ensures (a + b) * c == a * c + b * c
  {
  }

  lemma DivBound(x: nat, d: nat)
    requires d > 0
    ensures 0 <= x / d <= x
  {
    MulMonotone(1, d, x / d);
  }

  lemma MulAssoc3(a: int, b: int, c: int)
    ensures a * (b * c) == (a * b) * c
  {
  }

  lemma Pow2Next(n: nat)
    ensures Pow2(n + 1) == 2 * Pow2(n)
  {
  }

  lemma {:induction false} Pow2AtMost(m: nat, n: nat)
    requires m <= n
    ensures Pow2(m) <= Pow2(n)
    decreases n
  {
    if m < n {
      Pow2AtMost(m, n - 1);
    }
  }

  lemma ProductAtMost(a: nat, b: nat, c: nat, d: nat)
    requires a <= b && c <= d
    ensures a * c <= b * d
  {
    assert b * d == a * c + a * (d - c) + (b - a) * d;
  }

  lemma Pow2Positive(n: nat)
    ensures Pow2(n) > 0
  {
  }

  lemma Pow2Zero()
    ensures Pow2(0) == 1
  {
  }

  lemma SmallPowers()
    ensures Pow2(0) == 1 && Pow2(1) == 2 && Pow2(2) == 4 && Pow2(3) == 8
    ensures Pow2(4) == 16 && Pow2(5) == 32 && Pow2(6) == 64 && Pow2(7) == 128
    ensures Pow2(8) == 256 && Pow2(9) == 512 && Pow2(10) == 1024 && Pow2(11) == 2048
    ensures Pow2(12) == 4096 && Pow2(13) == 8192 && Pow2(14) == 16384 && Pow2(15) == 32768 && Pow2(16) == 65536
  {
  }
}
