// Result types and powers of two, shared by every module.
module Common {

  datatype Option<+T> = None | Some(value: T)

  datatype Result<+T> = Ok(value: T) | Err(error: string)

  function Pow2(n: nat): (p: nat)
    ensures p > 0
  {
    if n == 0 then 1 else 2 * Pow2(n - 1)
  }

  lemma {:induction false} Pow2Add(a: nat, b: nat)
    ensures Pow2(a + b) == Pow2(a) * Pow2(b)
  {
    if a == 0 {
    } else {
      Pow2Add(a - 1, b);
      assert Pow2(a + b) == 2 * Pow2((a - 1) + b);
    }
  }

  lemma {:induction false} Pow2Byte(n: nat)
    ensures Pow2(n + 8) == 256 * Pow2(n)
  {
    Pow2Add(n, 8);
    assert Pow2(8) == 256 by { assert Pow2(4) == 16; Pow2Add(4, 4); }
  }

  lemma {:induction false} Pow2Monotone(a: nat, b: nat)
    requires a <= b
    ensures Pow2(a) <= Pow2(b)
  {
    if a < b {
      Pow2Monotone(a, b - 1);
    }
  }

  lemma {:induction false} Pow2StrictlyMonotone(a: nat, b: nat)
    requires a < b
    ensures Pow2(a) < Pow2(b)
  {
    Pow2Monotone(a + 1, b);
  }

  lemma {:induction false} Pow2At16()
    ensures Pow2(16) == 65536
  {
    assert Pow2(8) == 256 by { Pow2Byte(0); }
    Pow2Byte(8);
  }

  lemma {:induction false} ModSmall(x: nat, m: nat)
    requires x < m
    ensures x % m == x
  {
  }

  lemma {:induction false} ModSelf(m: nat)
    requires m > 0
    ensures m % m == 0
  {
  }

  // Quotient and remainder are determined by x == q * m + r with r < m.
  lemma {:induction false} DivModUnique(x: int, m: int, q: int, r: int)
    requires 0 <= r < m && x == q * m + r
    ensures x / m == q && x % m == r
  {
    var d := x / m - q;
    assert d * m == r - x % m by { assert x == (x / m) * m + x % m; }
    assert d >= 1 ==> d * m >= m;
    assert d <= -1 ==> d * m <= -m;
  }

  lemma {:induction false} DivideTwice(n: nat, k: nat, p: nat)
    requires k > 0 && p > 0
    ensures k * p > 0 && n / (k * p) == n / k / p
  {
    var q, r, s := n / k / p, n / k % p, n % k;
    assert k * p > 0;
    assert n / k == q * p + r;
    assert n == (q * p + r) * k + s;
    assert n == q * (k * p) + (r * k + s);
    assert r * k + s < k * p by { assert (r + 1) * k <= p * k; }
    DivModUnique(n, k * p, q, r * k + s);
  }

  lemma {:induction false} ModAddMultiple(x: int, q: int, m: int)
    requires m > 0
    ensures (x + q * m) % m == x % m && (x + q * m) / m == x / m + q
  {
    assert x + q * m == (x / m + q) * m + x % m;
    DivModUnique(x + q * m, m, x / m + q, x % m);
  }

  // Rounding down to a multiple of p keeps the quotient and nothing else.
  lemma {:induction false} RoundedEqualIffQuotientsEqual(x: nat, y: nat, p: nat)
    requires p > 0
    ensures x - x % p == y - y % p <==> x / p == y / p
  {
    DivModUnique(x - x % p, p, x / p, 0);
    DivModUnique(y - y % p, p, y / p, 0);
  }

  lemma {:induction false} SameQuotientIffInRange(x: nat, v: nat, p: nat)
    requires p > 0
    ensures x / p == v / p <==> v - v % p <= x < v - v % p + p
  {
    var q := v / p;
    assert v - v % p == q * p;
    if q * p <= x < q * p + p {
      DivModUnique(x, p, q, x - q * p);
    }
  }

  lemma {:induction false} RoundedFits(v: nat, p: nat, r: nat)
    requires p > 0 && v < r * p
    ensures v - v % p + p <= r * p
  {
    var q := v / p;
    assert v - v % p == q * p;
    assert q >= r ==> q * p >= r * p;
    assert q + 1 <= r;
    assert (q + 1) * p <= r * p;
  }
}
