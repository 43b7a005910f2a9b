/** Machine words: the size of a 64-bit word and sums that wrap. */
module MachineWords {

  const W64: nat := 0x1_0000_0000_0000_0000

  /** Reducing a summand first changes nothing. */
  lemma ModAdd(x: nat, y: nat, m: nat)
    requires m > 0
    ensures (x % m + y) % m == (x + y) % m
  {
    var r, q := x % m, x / m;
    Division(x, m);
    ModMultiple(r + y, q, m);
  }

  lemma Division(x: nat, m: nat)
    requires m > 0
    ensures x == x % m + x / m * m
  {
  }

  lemma {:induction false} ModMultiple(x: nat, k: nat, m: nat)
    requires m > 0
    ensures (x + k * m) % m == x % m
  {
    if k > 0 {
      ModMultiple(x, k - 1, m);
      assert k * m == (k - 1) * m + m;
      ModOnce(x + (k - 1) * m, m);
    }
  }

  lemma ModOnce(x: nat, m: nat)
    requires m > 0
    ensures (x + m) % m == x % m
  {
    var q, r := x / m, x % m;
    assert x + m == (q + 1) * m + r by {
      assert (q + 1) * m == q * m + m;
    }
    var p, s := (x + m) / m, (x + m) % m;
    assert p * m + s == (q + 1) * m + r;
    if p > q + 1 {
      Apart(p, q + 1, m);
    } else if p < q + 1 {
      Apart(q + 1, p, m);
    }
  }

  lemma Apart(a: nat, b: nat, m: nat)
    requires a > b
    ensures a * m >= b * m + m
  {
    assert a * m == b * m + (a - b) * m;
    assert (a - b) * m >= m by {
      assert (a - b) * m == (a - b - 1) * m + m;
    }
  }
}
