/** Modular arithmetic of the cipher engine: the `mod` helper, the linear
    inverse search with its sentinel result, and the congruence facts the
    round-trip proofs rest on. */
module ModArith {

  /** JavaScript's `%` on integers: the quotient truncates toward zero, so the
      remainder takes the sign of the dividend. */
  function JsRem(n: int, m: int): (r: int)
    requires m > 0
    ensures n == m * JsQuot(n, m) + r
    ensures -m < r < m
    ensures n >= 0 ==> 0 <= r
    ensures n <= 0 ==> r <= 0
  {
    if n >= 0 then n % m else -((-n) % m)
  }

  /** The quotient of JavaScript's division, truncated toward zero. */
  function JsQuot(n: int, m: int): int
    requires m > 0
  {
    if n >= 0 then n / m else -((-n) / m)
  }

  /** Division with remainder is unique: any decomposition n == m*q + r with
      0 <= r < m is Dafny's Euclidean one. */
  lemma ModUnique(n: int, m: int, q: int, r: int)
    requires m > 0 && 0 <= r < m && n == m * q + r
    ensures n % m == r
  {
    var q', r' := n / m, n % m;
    assert m * (q - q') == r' - r by {
      assert m * (q - q') == m * q - m * q';
    }
    if q - q' >= 1 {
      MulAtLeast(m, q - q');
    } else if q' - q >= 1 {
      MulAtLeast(m, q' - q);
    }
  }

  lemma MulAtLeast(m: int, k: int)
    requires m > 0 && k >= 1
    ensures m * k >= m
  {
    assert m * k == m + m * (k - 1);
  }

  /** `mod(n, m) = ((n % m) + m) % m` with JavaScript's `%`: the result is the
      representative of n modulo m in [0, m). */
  function Mod(n: int, m: int): (r: int)
    requires m > 0
    ensures 0 <= r < m
    ensures r == n % m
  {
    var t := JsRem(n, m);
    ModArithLemma(n, m);
    JsRem(t + m, m)
  }

  lemma ModArithLemma(n: int, m: int)
    requires m > 0
    ensures JsRem(JsRem(n, m) + m, m) == n % m
  {
    var t := JsRem(n, m);
    if n >= 0 {
      ModUnique(t + m, m, 1, t);
      ModUnique(n, m, n / m, t);
    } else {
      var q, s := (-n) / m, (-n) % m;
      assert -n == m * q + s;
      if s == 0 {
        ModUnique(t + m, m, 1, 0);
        assert n == m * (-q) + 0;
        ModUnique(n, m, -q, 0);
      } else {
        ModUnique(t + m, m, 0, m - s);
        assert n == m * (-q - 1) + (m - s);
        ModUnique(n, m, -q - 1, m - s);
      }
    }
  }

  /** x is an inverse of a modulo m in the sense the source tests it:
      `(a * x) % m === 1` with JavaScript's truncating `%`. */
  predicate IsInverse(a: int, x: int, m: int)
    requires m > 0
  {
    JsRem(a * x, m) == 1
  }

  /** The `for (x = 1; x < m; x++)` search of `modInverse`, from candidate x on. */
  function InverseSearch(a: int, m: int, x: int): (r: int)
    requires m > 0 && 1 <= x <= m
    ensures (exists y :: x <= y < m && IsInverse(a, y, m)) ==>
              x <= r < m && IsInverse(a, r, m) &&
              forall y :: x <= y < r ==> !IsInverse(a, y, m)
    ensures (forall y :: x <= y < m ==> !IsInverse(a, y, m)) ==> r == 1
    decreases m - x
  {
    if x == m then 1
    else if IsInverse(a, x, m) then x
    else InverseSearch(a, m, x + 1)
  }

  /** `modInverse(a, m)`: the least x in [1, m) with `(a * x) % m === 1`, or
      the sentinel 1 when there is none. */
  function ModInverse(a: int, m: int): (r: int)
    requires m > 0
    ensures 1 <= r
    ensures (exists y :: 1 <= y < m && IsInverse(a, y, m)) ==>
              r < m && IsInverse(a, r, m) &&
              forall y :: 1 <= y < r ==> !IsInverse(a, y, m)
    ensures (forall y :: 1 <= y < m ==> !IsInverse(a, y, m)) ==> r == 1
  {
    InverseSearch(a, m, 1)
  }

  /** A non-positive `a` never passes the truncating test: `a * x <= 0` for
      every candidate, so its remainder is never 1 and the sentinel comes back. */
  lemma NonPositiveHasNoInverse(a: int, m: int)
    requires m > 0 && a <= 0
    ensures ModInverse(a, m) == 1
  {
    forall y | 1 <= y < m
      ensures !IsInverse(a, y, m)
    {
      assert a * y <= 0;
    }
  }

  /** The source's rejection test, shared by Affine and Hill: the search
      returned the sentinel and the value is not 1 itself. */
  predicate SentinelRejects(v: int) {
    ModInverse(v, 26) == 1 && v != 1
  }

  /** When the sentinel test passes, the value the search returned really is
      an inverse modulo 26. */
  lemma AcceptedHasInverse(v: int)
    requires !SentinelRejects(v)
    ensures (v * ModInverse(v, 26)) % 26 == 1
  {
    var r := ModInverse(v, 26);
    if v == 1 {
      assert IsInverse(1, 1, 26);
    } else {
      assert IsInverse(v, r, 26);
    }
  }

  /** Euclid's greatest common divisor on naturals. */
  function Gcd(a: nat, b: nat): nat
    decreases b
  {
    if b == 0 then a else Gcd(b, a % b)
  }

  /** On the residues 0..25 the sentinel test rejects exactly the values that
      share a factor with 26: it is a correct invertibility test there. */
  lemma SentinelRejectsIffNotCoprime(v: int)
    requires 0 <= v < 26
    ensures SentinelRejects(v) <==> Gcd(v, 26) != 1
  {
    if v % 2 == 0 || v == 13 {
      var d := if v == 13 then 13 else 2;
      forall y | 1 <= y < 26
        ensures !IsInverse(v, y, 26)
      {
        CommonFactorBlocksInverse(v, y, d);
      }
      GcdCommonFactor(v, d);
    } else {
      CoprimeResidue(v);
    }
  }

  /** A factor d > 1 shared by a and 26 divides every a * y - 26 * q, so that
      difference is never 1. */
  lemma CommonFactorBlocksInverse(a: int, y: int, d: int)
    requires a >= 0 && y >= 1 && (d == 2 || d == 13) && a % d == 0
    ensures (a * y) % 26 != 1
  {
    var k := a / d;
    assert a == d * k;
    assert a * y == d * (k * y);
  }

  lemma GcdCommonFactor(v: int, d: int)
    requires 0 <= v < 26 && (d == 2 || d == 13) && v % d == 0
    ensures Gcd(v, 26) != 1
  {
    if v < 13 {
      LowGcdCommonFactor(v);
    } else {
      HighGcdCommonFactor(v);
    }
  }

  lemma LowGcdCommonFactor(v: int)
    requires 0 <= v < 13 && v % 2 == 0
    ensures Gcd(v, 26) != 1
  {
    if v == 0 {} else if v == 2 {} else if v == 4 {} else if v == 6 {}
    else if v == 8 {} else if v == 10 {} else if v == 12 {}
  }

  lemma HighGcdCommonFactor(v: int)
    requires 13 <= v < 26 && (v % 2 == 0 || v == 13)
    ensures Gcd(v, 26) != 1
  {
    if v == 13 {} else if v == 14 {} else if v == 16 {} else if v == 18 {}
    else if v == 20 {} else if v == 22 {} else if v == 24 {}
  }

  /** The inverse modulo 26 of each residue coprime to 26. */
  function InverseWitness(v: int): (w: int)
    requires 0 <= v < 26 && v % 2 == 1 && v != 13
    ensures 1 <= w < 26 && (v * w) % 26 == 1
  {
    if v == 1 then 1 else if v == 3 then 9 else if v == 5 then 21
    else if v == 7 then 15 else if v == 9 then 3 else if v == 11 then 19
    else if v == 15 then 7 else if v == 17 then 23 else if v == 19 then 11
    else if v == 21 then 5 else if v == 23 then 17 else 25
  }

  /** The twelve odd residues other than 13 are coprime to 26 and each has an
      inverse in [1, 26), which the search therefore finds. */
  lemma CoprimeResidue(v: int)
    requires 0 <= v < 26 && v % 2 == 1 && v != 13
    ensures Gcd(v, 26) == 1
    ensures !SentinelRejects(v)
  {
    var w := InverseWitness(v);
    assert IsInverse(v, w, 26);
    if v != 1 {
      assert !IsInverse(v, 1, 26);
    }
    OddResidueGcd(v);
  }

  lemma OddResidueGcd(v: int)
    requires 0 <= v < 26 && v % 2 == 1 && v != 13
    ensures Gcd(v, 26) == 1
  {
    if v < 13 {
      LowOddResidueGcd(v);
    } else {
      HighOddResidueGcd(v);
    }
  }

  lemma LowOddResidueGcd(v: int)
    requires v == 1 || v == 3 || v == 5 || v == 7 || v == 9 || v == 11
    ensures Gcd(v, 26) == 1
  {
    if v == 1 { assert Gcd(1, 26) == 1; }
    else if v == 3 { assert Gcd(3, 26) == 1; }
    else if v == 5 { assert Gcd(5, 26) == 1; }
    else if v == 7 { assert Gcd(7, 26) == 1; }
    else if v == 9 { assert Gcd(9, 26) == 1; }
    else { assert Gcd(11, 26) == 1; }
  }

  lemma HighOddResidueGcd(v: int)
    requires v == 15 || v == 17 || v == 19 || v == 21 || v == 23 || v == 25
    ensures Gcd(v, 26) == 1
  {
    if v == 15 { assert Gcd(15, 26) == 1; }
    else if v == 17 { assert Gcd(17, 26) == 1; }
    else if v == 19 { assert Gcd(19, 26) == 1; }
    else if v == 21 { assert Gcd(21, 26) == 1; }
    else if v == 23 { assert Gcd(23, 26) == 1; }
    else { assert Gcd(25, 26) == 1; }
  }

  lemma ModShiftUp(x: int, k: int, m: int)
    requires m > 0 && 0 <= x < m
    ensures Mod(Mod(x + k, m) - k, m) == x
  {
    var q := (x + k) / m;
    assert Mod(x + k, m) - k == x + m * (-q) by {
      assert x + k == m * q + (x + k) % m;
    }
    ModUnique(x + m * (-q), m, -q, x);
  }

  lemma ModShiftDown(x: int, k: int, m: int)
    requires m > 0 && 0 <= x < m
    ensures Mod(Mod(x - k, m) + k, m) == x
  {
    ModShiftUp(x, -k, m);
    assert x + -k == x - k && Mod(x - k, m) - -k == Mod(x - k, m) + k;
  }

  /** Adding then subtracting the same amount modulo m returns a residue. */
  lemma ModShiftBack(x: int, k: int, m: int)
    requires m > 0 && 0 <= x < m
    ensures Mod(Mod(x + k, m) - k, m) == x
    ensures Mod(Mod(x - k, m) + k, m) == x
  {
    ModShiftUp(x, k, m);
    ModShiftDown(x, k, m);
  }

  /** Multiplying both sides of a congruence modulo 26 keeps it. */
  lemma CongMul(c: int, x: int, y: int)
    requires x % 26 == y % 26
    ensures (c * x) % 26 == (c * y) % 26
  {
    var k := x / 26 - y / 26;
    assert x == y + 26 * k;
    var cy, ck := c * y, c * k;
    assert c * x == cy + 26 * ck by {
      assert c * (y + 26 * k) == c * y + 26 * (c * k);
    }
    ModAddMultiple(cy, ck);
  }

  /** Adding a multiple of 26 does not change the residue. */
  lemma ModAddMultiple(a: int, b: int)
    ensures (a + 26 * b) % 26 == a % 26
  {
    ModUnique(a + 26 * b, 26, a / 26 + b, a % 26);
  }

  /** Adding three congruences modulo 26 termwise keeps them. */
  lemma CongSum3(x0: int, x1: int, x2: int, y0: int, y1: int, y2: int)
    requires x0 % 26 == y0 % 26 && x1 % 26 == y1 % 26 && x2 % 26 == y2 % 26
    ensures (x0 + x1 + x2) % 26 == (y0 + y1 + y2) % 26
  {
    var k0, k1, k2 := x0 / 26 - y0 / 26, x1 / 26 - y1 / 26, x2 / 26 - y2 / 26;
    assert x0 + x1 + x2 == y0 + y1 + y2 + 26 * (k0 + k1 + k2);
    ModAddMultiple(y0 + y1 + y2, k0 + k1 + k2);
  }
}
