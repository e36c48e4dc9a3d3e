/** Shared by the models: an option type, explicit truncation to 32 and 64 bits, powers of two, and
    the few facts about division that the proofs need. */
module Prelude {
  datatype Option<+T> = None | Some(value: T)

  const TWO_32: nat := 0x1_0000_0000
  const TWO_64: nat := 0x1_0000_0000_0000_0000

  /** The value a `uint32_t` keeps of `x`. */
  function U32(x: int): nat {
    x % TWO_32
  }

  /** The value a `uint64_t` keeps of `x`: the arithmetic wraps around. */
  function U64(x: int): (u: nat)
    ensures u < TWO_64
    decreases if x < 0 then TWO_64 - x else x
  {
    if x < 0 then U64(x + TWO_64) else if x < TWO_64 then x else U64(x - TWO_64)
  }

  lemma {:induction false} U64IsModulo(x: int)
    ensures U64(x) == x % TWO_64
    decreases if x < 0 then TWO_64 - x else x
  {
    if x < 0 {
      U64IsModulo(x + TWO_64);
      ModPlusMultiple(x, 1, TWO_64);
    } else if x >= TWO_64 {
      U64IsModulo(x - TWO_64);
      ModPlusMultiple(x, -1, TWO_64);
    }
  }

  function Pow2(n: nat): (p: nat)
    ensures p > 0
  {
    if n == 0 then 1 else 2 * Pow2(n - 1)
  }

  function Min(a: int, b: int): int {
    if a <= b then a else b
  }

  function Max(a: int, b: int): int {
    if a <= b then b else a
  }

  lemma {:induction false} Pow2Adds(a: nat, b: nat)
    ensures Pow2(a + b) == Pow2(a) * Pow2(b)
  {
    if a > 0 {
      Pow2Adds(a - 1, b);
      assert Pow2(a + b) == 2 * Pow2(a - 1 + b);
      assert 2 * (Pow2(a - 1) * Pow2(b)) == (2 * Pow2(a - 1)) * Pow2(b);
    }
  }

  lemma NoMultipleBetween(k: int, d: int)
    requires -d < k * d < d
    ensures k == 0
  {
    if k >= 1 {
      MulLe(1, k, d);
    } else if k <= -1 {
      MulLe(1, -k, d);
    }
  }

  /** Quotient and remainder are determined by their defining equation. */
  lemma DivModUnique(n: int, d: int, q: int, r: int)
    requires n == q * d + r && 0 <= r < d
    ensures n / d == q && n % d == r
  {
    var k := q - n / d;
    assert k * d == n % d - r by {
      assert n == (n / d) * d + n % d;
      assert k * d == q * d - (n / d) * d;
    }
    NoMultipleBetween(k, d);
  }

  lemma ModPlusMultiple(x: int, k: int, m: int)
    requires m > 0
    ensures (x + k * m) % m == x % m
    ensures (x + k * m) / m == x / m + k
  {
    assert x + k * m == (x / m + k) * m + x % m by {
      assert x == (x / m) * m + x % m;
      assert (x / m + k) * m == (x / m) * m + k * m;
    }
    DivModUnique(x + k * m, m, x / m + k, x % m);
  }

  /** Reducing an addend first does not change a sum modulo `m`. */
  lemma ModAdd(a: int, b: int, m: int)
    requires m > 0
    ensures (a % m + b) % m == (a + b) % m
  {
    assert a % m + b == (a + b) + (-(a / m)) * m by {
      assert a == (a / m) * m + a % m;
      assert (-(a / m)) * m == -((a / m) * m);
    }
    ModPlusMultiple(a + b, -(a / m), m);
  }

  /** Reducing both operands of a subtraction first does not change it modulo `m`. */
  lemma ModSub(a: int, b: int, m: int)
    requires m > 0
    ensures (a % m - b % m) % m == (a - b) % m
  {
    ModAdd(a, -(b % m), m);
    assert a - b % m == (a - b) + (b / m) * m by {
      assert b == (b / m) * m + b % m;
    }
    ModPlusMultiple(a - b, b / m, m);
  }

  /** Truncating to a multiple of `m` first does not change a value modulo `m`. */
  lemma ModMod(x: int, m: int, k: int)
    requires m > 0 && k > 0
    ensures (x % (k * m)) % m == x % m
  {
    var big := k * m;
    assert big > 0 by { assert k * m >= m; }
    assert x == (x / big) * big + x % big;
    assert x % big == x + (-(x / big) * k) * m by {
      assert (x / big) * (k * m) == ((x / big) * k) * m;
      assert (-(x / big) * k) * m == -(((x / big) * k) * m);
    }
    ModPlusMultiple(x, -(x / big) * k, m);
  }

  lemma MulLe(a: int, b: int, c: int)
    requires a <= b && 0 <= c
    ensures a * c <= b * c
  {
    assert (b - a) * c >= 0;
  }

  /** Floor division is the greatest quotient whose multiple still fits. */
  lemma DivBounds(n: int, d: int)
    requires d > 0
    ensures (n / d) * d <= n < (n / d) * d + d
  {
    assert n == (n / d) * d + n % d;
  }

  lemma DivMonotone(a: int, b: int, d: int)
    requires a <= b && d > 0
    ensures a / d <= b / d
  {
    DivBounds(a, d);
    DivBounds(b, d);
    if a / d > b / d {
      MulLe(b / d + 1, a / d, d);
    }
  }

  /** Dividing a sum: the remainder of one part is carried into the other. */
  lemma DivCarry(n: int, m: int, d: int)
    requires d > 0
    ensures (n + m) / d == n / d + (m + n % d) / d
    ensures (n + m) % d == (m + n % d) % d
  {
    ModPlusMultiple(m + n % d, n / d, d);
    assert n == (n / d) * d + n % d;
  }

  lemma SmallDivMod(n: int, d: int)
    requires 0 <= n < d
    ensures n / d == 0 && n % d == n
  {
    DivModUnique(n, d, 0, n);
  }

  /** `n / d >= q` exactly when `n >= q * d`. */
  lemma DivAtLeast(n: int, d: int, q: int)
    requires d > 0
    ensures n / d >= q <==> n >= q * d
  {
    DivBounds(n, d);
    if n / d >= q {
      MulLe(q, n / d, d);
    } else {
      MulLe(n / d + 1, q, d);
    }
  }

  lemma DivModRebuilds(n: int, d: int)
    requires d > 0
    ensures n == (n / d) * d + n % d
  {
  }

  lemma DivDiv(x: nat, a: nat, b: nat)
    requires a > 0 && b > 0
    ensures x / a / b == x / (a * b)
  {
    var q, r, s := x / a / b, x / a % b, x % a;
    DivModRebuilds(x, a);
    DivModRebuilds(x / a, b);
    assert x == q * (a * b) + (r * a + s) by {
      assert (q * b + r) * a == q * (a * b) + r * a;
    }
    assert 0 <= r * a + s < a * b by {
      MulLe(r + 1, b, a);
      assert (r + 1) * a == r * a + a;
    }
    DivModUnique(x, a * b, q, r * a + s);
  }

  lemma ModAtMost(x: nat, m: nat)
    requires m > 0
    ensures 0 <= x % m <= x
  {
    DivAtLeast(x, m, 0);
    DivModRebuilds(x, m);
    MulLe(0, x / m, m);
  }

  lemma FitsU32(x: nat)
    requires x < TWO_32
    ensures U32(x) == x
  {
  }

  lemma FitsU64(x: nat)
    requires x < TWO_64
    ensures U64(x) == x
  {
  }
}
