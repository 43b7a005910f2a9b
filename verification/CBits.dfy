/** Unsigned C bit operations on natural numbers, defined bit by bit. */
module CBits {

  function Pow2(k: nat): (r: nat)
    ensures r >= 1
  {
    if k == 0 then 1 else 2 * Pow2(k - 1)
  }

  function Shr(x: nat, k: nat): nat {
    if k == 0 then x else Shr(x / 2, k - 1)
  }

  function And(x: nat, y: nat): nat {
    if x == 0 || y == 0 then 0 else (x % 2) * (y % 2) + 2 * And(x / 2, y / 2)
  }

  function Or(x: nat, y: nat): nat {
    if x == 0 then y
    else if y == 0 then x
    else (if x % 2 == 1 || y % 2 == 1 then 1 else 0) + 2 * Or(x / 2, y / 2)
  }

  lemma {:induction false} Pow2Add(j: nat, k: nat)
    ensures Pow2(j + k) == Pow2(j) * Pow2(k)
  {
    if j > 0 {
      Pow2Add(j - 1, k);
    }
  }

  lemma {:induction false} Pow2Monotone(j: nat, k: nat)
    requires j < k
    ensures 2 * Pow2(j) <= Pow2(k)
    decreases k
  {
    if j < k - 1 {
      Pow2Monotone(j, k - 1);
    }
  }

  lemma MulAtLeast(a: int, d: int)
    requires a >= 1 && d >= 0
    ensures a * d >= d
  {
  }

  lemma DivUnique(x: int, d: int, q: int, r: int)
    requires d > 0 && x == q * d + r && 0 <= r < d
    ensures x / d == q && x % d == r
  {
    var p, s := x / d, x % d;
    assert x == p * d + s;
    assert (q - p) * d == q * d - p * d && (p - q) * d == p * d - q * d;
    if q > p {
      MulAtLeast(q - p, d);
    } else if q < p {
      MulAtLeast(p - q, d);
    }
  }

  /** Dividing by 2p is halving and then dividing by p. */
  lemma HalfDiv(x: nat, p: nat)
    requires p > 0
    ensures x / (2 * p) == (x / 2) / p && x % (2 * p) == 2 * ((x / 2) % p) + x % 2
  {
    var h := x / 2;
    var q, m := h / p, h % p;
    assert h == q * p + m && q * (2 * p) == 2 * (q * p);
    DivUnique(x, 2 * p, q, 2 * m + x % 2);
  }

  /** Shifting right by k divides by 2^k. */
  lemma {:induction false} ShrIsDiv(x: nat, k: nat)
    ensures Shr(x, k) == x / Pow2(k)
  {
    if k > 0 {
      ShrIsDiv(x / 2, k - 1);
      HalfDiv(x, Pow2(k - 1));
    }
  }

  lemma AndOnes(x: nat, p: nat)
    requires p > 0
    ensures And(x, 2 * p - 1) == x % 2 + 2 * And(x / 2, p - 1)
  {
    assert (2 * p - 1) / 2 == p - 1 && (2 * p - 1) % 2 == 1;
  }

  /** Masking with 2^k - 1 takes the remainder modulo 2^k. */
  lemma {:induction false} MaskIsMod(x: nat, k: nat)
    ensures And(x, Pow2(k) - 1) == x % Pow2(k)
  {
    hide And;
    if k > 0 {
      var p := Pow2(k - 1);
      MaskIsMod(x / 2, k - 1);
      HalfDiv(x, p);
      AndOnes(x, p);
    } else {
      AndZero(x);
    }
  }

  lemma AndZero(x: nat)
    ensures And(x, 0) == 0
  {
  }

  /** VG_(log2): the exponent of a power of two below 2^32, and -1 for anything else. */
  method Log2(x: nat) returns (r: int)
    ensures r == -1 || (0 <= r < 32 && Pow2(r) == x)
    ensures r == -1 ==> forall k :: 0 <= k < 32 ==> Pow2(k) != x
  {
    for i := 0 to 32
      invariant forall k :: 0 <= k < i ==> Pow2(k) != x
    {
      if Pow2(i) == x {
        return i;
      }
    }
    return -1;
  }

  // ---------------------------------------------------------------------------
  // Smearing the top bit downwards

  lemma {:induction false} ShrShr(x: nat, a: nat, b: nat)
    ensures Shr(Shr(x, a), b) == Shr(x, a + b)
  {
    if a > 0 {
      ShrShr(x / 2, a - 1, b);
    }
  }

  lemma OrHalf(x: nat, y: nat)
    ensures Or(x, y) / 2 == Or(x / 2, y / 2)
  {
  }

  lemma {:induction false} OrShr(x: nat, y: nat, k: nat)
    ensures Shr(Or(x, y), k) == Or(Shr(x, k), Shr(y, k))
  {
    hide Or;
    if k > 0 {
      OrHalf(x, y);
      OrShr(x / 2, y / 2, k - 1);
    }
  }

  lemma {:induction false} OrBound(x: nat, y: nat, n: nat)
    requires x < Pow2(n) && y < Pow2(n)
    ensures Or(x, y) < Pow2(n)
  {
    if n > 0 {
      OrBound(x / 2, y / 2, n - 1);
    }
  }

  lemma OrWithOnes(z: nat, p: nat)
    requires p > 0
    ensures Or(z, 2 * p - 1) == 1 + 2 * Or(z / 2, p - 1)
  {
    assert (2 * p - 1) / 2 == p - 1 && (2 * p - 1) % 2 == 1;
  }

  /** Or-ing s ones into the low bits. */
  lemma {:induction false} OrOnes(z: nat, s: nat)
    ensures Or(z, Pow2(s) - 1) == Shr(z, s) * Pow2(s) + Pow2(s) - 1
  {
    hide Or;
    if s > 0 {
      var p, h := Pow2(s - 1), Shr(z / 2, s - 1);
      OrOnes(z / 2, s - 1);
      OrWithOnes(z, p);
      OnesBelow(h, p, Or(z / 2, p - 1), Or(z, 2 * p - 1));
    } else {
      OrZero(z);
    }
  }

  lemma OnesBelow(h: nat, p: nat, half: nat, whole: nat)
    requires p > 0 && half == h * p + p - 1 && whole == 1 + 2 * half
    ensures whole == h * (2 * p) + 2 * p - 1
  {
    Doubled(h, p);
  }

  lemma OrZero(a: nat)
    ensures Or(a, 0) == a
  {
  }

  lemma Doubled(a: nat, p: nat)
    ensures a * (2 * p) == 2 * (a * p)
  {
  }

  lemma {:induction false} ShrOnes(s: nat, j: nat)
    requires j <= s
    ensures Shr(Pow2(s) - 1, j) == Pow2(s - j) - 1
  {
    if j > 0 {
      var p := Pow2(s - 1);
      assert (2 * p - 1) / 2 == p - 1;
      ShrOnes(s - 1, j - 1);
    }
  }

  /** The topmost s of n bits are ones. */
  predicate TopOnes(x: nat, n: nat, s: nat)
    requires s <= n
  {
    x < Pow2(n) && Shr(x, n - s) == Pow2(s) - 1
  }

  function Min(a: nat, b: nat): nat { if a <= b then a else b }

  lemma {:induction false} ShrEnds(x: nat, n: nat)
    ensures Shr(x, 0) == x && (x < Pow2(n) ==> Shr(x, n) == 0)
  {
    if n > 0 {
      ShrEnds(x / 2, n - 1);
    }
  }

  /** Or-ing a number with itself shifted by s doubles its run of s leading ones. */
  lemma {:induction false} SmearStep(x: nat, n: nat, s: nat)
    requires TopOnes(x, n, Min(s, n))
    ensures TopOnes(Or(x, Shr(x, s)), n, Min(2 * s, n))
  {
    hide Or, Pow2, Shr;
    var y := Shr(x, s);
    ShrSmaller(x, s);
    OrBound(x, y, n);
    if s >= n {
      ShrEnds(x, n);
      ShrEnds(y, n);
      ShrEnds(Or(x, y), n);
      OrCommutes(x, y);
      OrOnes(y, n);
    } else {
      SmearRun(x, n, s, Min(2 * s, n));
    }
  }

  lemma {:induction false} SmearRun(x: nat, n: nat, s: nat, w: nat)
    requires s <= w <= n && w <= 2 * s && TopOnes(x, n, s)
    ensures Shr(Or(x, Shr(x, s)), n - w) == Pow2(w) - 1
  {
    hide Or, Pow2, Shr;
    var m, t := n - w, w - s;
    var z, ones := Shr(x, m), Pow2(t) - 1;
    OrShr(x, Shr(x, s), m);
    assert Shr(Shr(x, s), m) == ones by {
      ShrShr(x, s, m);
      ShrShr(x, n - s, s - t);
      ShrOnes(s, s - t);
    }
    OrOnes(z, t);
    ShrShr(x, m, t);
    Pow2Add(s, t);
    assert (Pow2(s) - 1) * Pow2(t) == Pow2(s) * Pow2(t) - Pow2(t);
  }

  lemma {:induction false} ShrSmaller(x: nat, s: nat)
    ensures Shr(x, s) <= x
  {
    if s > 0 {
      ShrSmaller(x / 2, s - 1);
    }
  }

  lemma {:induction false} OrCommutes(x: nat, y: nat)
    ensures Or(x, y) == Or(y, x)
  {
    if x > 0 && y > 0 {
      OrCommutes(x / 2, y / 2);
    }
  }
}
