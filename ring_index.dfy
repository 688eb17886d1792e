/** Index arithmetic shared by the three ring buffers: powers of two, the
    bitwise AND that the power-of-two rings use as a mask, and the fact that
    two cursor positions closer together than the ring size fall into
    different slots. */
module RingIndex {

  /** 2 to the power k. */
  function Pow2(k: nat): (r: nat)
    ensures r >= 1
  {
    if k == 0 then 1 else 2 * Pow2(k - 1)
  }

  lemma {:induction false} Pow2Monotone(i: nat, j: nat)
    requires i <= j
    ensures Pow2(i) <= Pow2(j)
  {
    if i < j {
      Pow2Monotone(i, j - 1);
    }
  }

  /** The exponent of the smallest power of two that is at least n; 0 when n is 0 or 1. */
  function CeilLog2(n: nat): nat
  {
    if n <= 1 then 0 else 1 + CeilLog2((n + 1) / 2)
  }

  /** 2^CeilLog2(n) reaches n, and the next smaller power of two does not. */
  lemma {:induction false} CeilLog2Bounds(n: nat)
    ensures Pow2(CeilLog2(n)) >= n
    ensures CeilLog2(n) > 0 ==> Pow2(CeilLog2(n) - 1) < n
  {
    if n > 1 {
      CeilLog2Bounds((n + 1) / 2);
    }
  }

  /** No power of two below 2^CeilLog2(n) reaches n. */
  lemma {:induction false} CeilLog2Least(n: nat, j: nat)
    requires Pow2(j) >= n
    ensures CeilLog2(n) <= j
  {
    if n > 1 {
      assert j > 0;
      CeilLog2Least((n + 1) / 2, j - 1);
    }
  }

  lemma {:induction false} Pow2Below(n: nat, k: nat)
    requires Pow2(k) < n
    ensures k < CeilLog2(n)
  {
    if k > 0 {
      Pow2Below((n + 1) / 2, k - 1);
    }
  }

  /** Bitwise AND of two naturals, taken bit by bit from the least significant end. */
  function And(a: nat, b: nat): nat
  {
    if a == 0 || b == 0 then 0
    else 2 * And(a / 2, b / 2) + (if a % 2 == 1 && b % 2 == 1 then 1 else 0)
  }

  lemma {:induction false} MulAtLeast(d: nat, k: nat)
    requires k >= 1
    ensures d * k >= d
  {
    if k > 1 {
      MulAtLeast(d, k - 1);
      assert d * k == d * (k - 1) + d;
    }
  }

  /** Quotient and remainder are unique: a decomposition x == d * q + r with 0 <= r < d is Euclidean division. */
  lemma DivModUnique(x: int, d: int, q: int, r: int)
    requires d > 0 && 0 <= r < d && x == d * q + r
    ensures x / d == q && x % d == r
  {
    var q', r' := x / d, x % d;
    assert x == d * q' + r';
    if q > q' {
      MulAtLeast(d, q - q');
    } else if q < q' {
      MulAtLeast(d, q' - q);
    }
  }

  lemma ModOfDouble(x: nat, m: nat)
    requires m > 0
    ensures x % (2 * m) == 2 * ((x / 2) % m) + x % 2
  {
    var q, r := (x / 2) / m, (x / 2) % m;
    assert x / 2 == m * q + r;
    assert x == (2 * m) * q + (2 * r + x % 2);
    DivModUnique(x, 2 * m, q, 2 * r + x % 2);
  }

  /** Masking with 2^k - 1 keeps the remainder modulo 2^k: `x & (2^k - 1) == x % 2^k`. */
  lemma {:induction false} MaskIsMod(x: nat, k: nat)
    ensures And(x, Pow2(k) - 1) == x % Pow2(k)
  {
    if k > 0 && x > 0 {
      var m := Pow2(k - 1);
      var mask := Pow2(k) - 1;
      assert Pow2(k) == 2 * m;
      DivModUnique(mask, 2, m - 1, 1);
      var low := if x % 2 == 1 then 1 else 0;
      assert And(x, mask) == 2 * And(x / 2, m - 1) + low;
      MaskIsMod(x / 2, k - 1);
      assert And(x / 2, m - 1) == (x / 2) % m;
      ModOfDouble(x, m);
      assert low == x % 2;
    } else if k == 0 {
      assert Pow2(k) == 1;
    } else {
      DivModUnique(x, Pow2(k), 0, 0);
    }
  }

  /** A power of two shares no bit with its predecessor: `c & (c - 1) == 0`. */
  lemma PowerOfTwoAnd(k: nat)
    ensures And(Pow2(k), Pow2(k) - 1) == 0
  {
    MaskIsMod(Pow2(k), k);
  }

  /** A product with a positive factor c is either at most 0 or at least c: no multiple of c lies strictly between. */
  lemma MulGap(c: nat, k: int)
    requires c > 0
    ensures c * k <= 0 || c * k >= c
  {
    if k >= 1 {
      MulAtLeast(c, k);
    }
  }

  /** The remainder of an x within one lap of [0, c), as a case split. */
  lemma ModNear(x: int, c: nat)
    requires c > 0 && 0 <= x + c && x < 2 * c
    ensures x % c == if x < 0 then x + c else if x < c then x else x - c
  {
    if x < 0 {
      DivModUnique(x, c, -1, x + c);
    } else if x < c {
      DivModUnique(x, c, 0, x);
    } else {
      DivModUnique(x, c, 1, x - c);
    }
  }

  /** Two different positions fewer than c apart fall into different slots of a ring of c slots. */
  lemma ModDistinct(p: nat, q: nat, c: nat)
    requires c > 0 && q <= p < q + c && p != q
    ensures p % c != q % c
  {
    assert p == c * (p / c) + p % c && q == c * (q / c) + q % c;
    MulGap(c, p / c - q / c);
  }

  /** Advancing a position by a whole lap returns to the same slot. */
  lemma ModLap(p: nat, c: nat)
    requires c > 0
    ensures (p + c) % c == p % c
  {
    DivModUnique(p + c, c, p / c + 1, p % c);
  }

  lemma {:induction false} Pow2Add(i: nat, j: nat)
    ensures Pow2(i + j) == Pow2(i) * Pow2(j)
  {
    if j > 0 {
      Pow2Add(i, j - 1);
      assert Pow2(i + j) == 2 * Pow2(i + (j - 1));
    }
  }

  /** Reducing modulo a multiple of c first does not change the remainder modulo c. */
  lemma ModOfMultiple(t: nat, c: nat, m: nat)
    requires c > 0 && m > 0
    ensures (t % (c * m)) % c == t % c
  {
    var q, r := t / (c * m), t % (c * m);
    assert t == (c * m) * q + r;
    assert r == c * (r / c) + r % c;
    var a, b := m * q, r / c;
    assert c * (a + b) == c * a + c * b;
    assert c * (m * q) == (c * m) * q;
    DivModUnique(t, c, a + b, r % c);
  }

  /** 2^64: size_t arithmetic is taken modulo this. */
  const WORD: nat := Pow2(64)

  /** 2^63, the largest power of two a size_t can hold, and so the largest
      capacity either power-of-two ring can round a request up to. */
  const MAX_CAPACITY: nat := Pow2(63)
}
