/** Powers of two, and division by a fixed modulus. */
module Powers {

  function Pow2(n: nat): (p: nat)
    ensures p >= 1
  {
    if n == 0 then 1 else 2 * Pow2(n - 1)
  }

  lemma {:induction false} Pow2Add(a: nat, b: nat)
    ensures Pow2(a + b) == Pow2(a) * Pow2(b)
  {
    if a > 0 {
      Pow2Add(a - 1, b);
      assert Pow2(a) * Pow2(b) == 2 * (Pow2(a - 1) * Pow2(b));
    }
  }

  lemma {:induction false} Pow2Monotone(a: nat, b: nat)
    requires a <= b
    ensures Pow2(a) <= Pow2(b)
    decreases b
  {
    if a < b { Pow2Monotone(a, b - 1); }
  }

  /** Quotient and remainder are the only pair that fits. */
  lemma DivModUnique(x: int, q: int, r: int, m: int)
    requires m > 0 && 0 <= r < m
    requires x == q * m + r
    ensures x / m == q && x % m == r
  {
    var q', r' := x / m, x % m;
    assert x == q' * m + r';
    if q > q' {
      AtLeastOnce(q - q', m);
    } else if q < q' {
      AtLeastOnce(q' - q, m);
    }
  }

  lemma {:induction false} AtLeastOnce(a: int, m: int)
    requires a >= 1 && m > 0
    ensures a * m >= m
    decreases a
  {
    if a > 1 {
      AtLeastOnce(a - 1, m);
      assert a * m == (a - 1) * m + m;
    }
  }

  /** Whole multiples of the modulus do not matter. */
  lemma ModDropMultiple(x: int, q: int, m: int)
    requires m > 0
    ensures (x + q * m) % m == x % m
  {
    assert x + q * m == (x / m + q) * m + x % m by {
      assert x == (x / m) * m + x % m;
      assert (x / m + q) * m == (x / m) * m + q * m;
    }
    DivModUnique(x + q * m, x / m + q, x % m, m);
  }

  /** Reducing a summand first does not matter. */
  lemma ModAdd(x: int, y: int, m: int)
    requires m > 0
    ensures (x % m + y) % m == (x + y) % m
  {
    assert x + y == (x % m + y) + (x / m) * m;
    ModDropMultiple(x % m + y, x / m, m);
  }

  /** Reducing modulo a multiple of `m` first does not matter. */
  lemma ModMod(x: int, k: int, m: int)
    requires m > 0 && k > 0
    ensures k * m > 0
    ensures (x % (k * m)) % m == x % m
  {
    AtLeastOnce(k, m);
    var n := k * m;
    assert x == (x / n) * n + x % n;
    assert (x / n) * n == ((x / n) * k) * m by { assert (x / n) * (k * m) == ((x / n) * k) * m; }
    ModDropMultiple(x % n, (x / n) * k, m);
  }

  /** Two numbers less than a modulus apart are equal when their remainders are. */
  lemma SameResidue(x: int, y: int, m: int)
    requires m > 0 && x <= y < x + m
    requires x % m == y % m
    ensures x == y
  {
    assert x == (x / m) * m + x % m;
    assert y == (y / m) * m + y % m;
    assert y - x == (y / m - x / m) * m;
    if y / m > x / m { AtLeastOnce(y / m - x / m, m); }
  }

  lemma ModAtMost(x: nat, m: nat)
    requires m > 0
    ensures x % m <= x
  {
  }

  /** Taking part of the remainder away leaves the quotient alone. */
  lemma SubtractFromRemainder(x: int, e: int, m: int)
    requires m > 0 && 0 <= e <= x % m
    ensures (x - e) % m == x % m - e && (x - e) / m == x / m
  {
    assert x == (x / m) * m + x % m;
    DivModUnique(x - e, x / m, x % m - e, m);
  }

  lemma TimesMonotone(a: nat, b: nat, m: nat)
    requires a >= b
    ensures a * m >= b * m
  {
    assert a * m == b * m + (a - b) * m;
  }

  /** Reducing modulo a larger power of two first does not matter. */
  lemma ModPow2(x: nat, a: nat, b: nat)
    requires a <= b
    ensures x % Pow2(b) % Pow2(a) == x % Pow2(a)
    ensures x % Pow2(a) <= x % Pow2(b)
  {
    Pow2Add(b - a, a);
    ModMod(x, Pow2(b - a), Pow2(a));
    ModAtMost(x % Pow2(b), Pow2(a));
  }

  /** A block that starts below `n` blocks ends there too. */
  lemma BlockFits(x: nat, w: nat, n: nat)
    requires w > 0 && x < n * w
    ensures x - x % w + w <= n * w
  {
    var q := x / w;
    assert x == q * w + x % w;
    if q >= n {
      TimesMonotone(q, n, w);
    } else {
      TimesMonotone(n, q + 1, w);
      assert (q + 1) * w == q * w + w;
    }
  }

  lemma MultipleHasNoRemainder(i: int, m: int)
    requires m > 0
    ensures i * m % m == 0
  {
    DivModUnique(i * m, i, 0, m);
  }

  lemma NoRemainderAdds(x: int, y: int, m: int)
    requires m > 0 && x % m == 0 && y % m == 0
    ensures (x + y) % m == 0 && (x - y) % m == 0
  {
    ModAdd(x, y, m);
    ModAdd(x - y, y, m);
    assert x - y == (x / m) * m - (y / m) * m;
    assert (x / m - y / m) * m == (x / m) * m - (y / m) * m;
    MultipleHasNoRemainder(x / m - y / m, m);
  }

  /** Factors with equal remainders have products with equal remainders. */
  lemma ModProduct(x: int, y: int, a: int, b: int, m: int)
    requires m > 0
    requires x % m == a % m && y % m == b % m
    ensures x * y % m == a * b % m
  {
    ModFactor(x, a, y, m);
    ModFactor(y, b, a, m);
    assert a * y == y * a && a * b == b * a;
  }

  lemma ModFactor(x: int, a: int, y: int, m: int)
    requires m > 0 && x % m == a % m
    ensures x * y % m == a * y % m
  {
    var s := x / m - a / m;
    Remainders(x, a, s, m);
    FactorExpands(a, s, y, m);
    ModDropMultiple(a * y, s * y, m);
  }

  lemma Remainders(x: int, a: int, s: int, m: int)
    requires m > 0 && x % m == a % m && s == x / m - a / m
    ensures x == a + s * m
  {
    assert x == (x / m) * m + x % m && a == (a / m) * m + a % m;
    assert s * m == (x / m) * m - (a / m) * m;
  }

  lemma FactorExpands(a: int, s: int, y: int, m: int)
    ensures (a + s * m) * y == a * y + (s * y) * m
  {
    assert (s * m) * y == (s * y) * m;
  }

  /** The divisors of a power of two are the powers of two up to it. */
  lemma {:induction false} DivisorOfPow2(d: nat, n: nat) returns (k: nat)
    requires d > 0 && Pow2(n) % d == 0
    ensures k <= n && d == Pow2(k)
    decreases n
  {
    if d == 1 {
      k := 0;
    } else if d % 2 == 0 {
      assert n > 0;
      var e := d / 2;
      assert d == 2 * e;
      HalfDivides(Pow2(n), d, e);
      k := DivisorOfPow2(e, n - 1);
      k := k + 1;
    } else {
      assert n > 0;
      OddDivides(Pow2(n), d);
      k := DivisorOfPow2(d, n - 1);
    }
  }

  lemma HalfDivides(x: nat, d: nat, e: nat)
    requires e > 0 && d == 2 * e && x % d == 0 && x % 2 == 0
    ensures x / 2 % e == 0
  {
    var q, y := x / d, x / 2;
    assert x == q * d && x == 2 * y;
    Regrouped(q, d, e);
    MultipleHasNoRemainder(q, e);
  }

  lemma Regrouped(q: int, d: int, e: int)
    requires d == 2 * e
    ensures q * d == 2 * (q * e)
  {
  }

  lemma EvenFactor(q: nat, d: nat, y: nat)
    requires d % 2 == 1 && q * d == 2 * y
    ensures q % 2 == 0
  {
    Regrouped(q, d - 1, d / 2);
    assert q * d == q * (d - 1) + q;
  }

  /** An odd number that divides an even one divides its half. */
  lemma OddDivides(x: nat, d: nat)
    requires d % 2 == 1 && x % d == 0 && x % 2 == 0
    ensures x / 2 % d == 0
  {
    var q, y, p := x / d, x / 2, x / d / 2;
    assert x == q * d && x == 2 * y;
    EvenFactor(q, d, y);
    Regrouped(d, q, p);
    MultipleHasNoRemainder(p, d);
  }

  lemma Pow2Divides(k: nat, n: nat)
    requires k <= n
    ensures Pow2(n) % Pow2(k) == 0
  {
    Pow2Add(n - k, k);
    MultipleHasNoRemainder(Pow2(n - k), Pow2(k));
  }

  lemma Pow2Doubled(n: nat, m: nat, p: nat)
    requires m == n + n && Pow2(n) == p
    ensures Pow2(m) == p * p
  {
    Pow2Add(n, n);
  }
}
