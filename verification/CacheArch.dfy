/** Cache geometry: cg_arch.c's validity check and its adjustment of last-level caches whose
    set count is not a power of two. */
module CacheArch {
  import opened CBits

  const U32 := 0x1_0000_0000
  const MIN_LINE_SIZE := 16

  datatype Config = Config(size: int, assoc: int, lineSize: int)

  /** How many bits a number takes. */
  ghost function BitLength(x: nat): (n: nat)
    ensures x < Pow2(n) && (x > 0 ==> n > 0 && Pow2(n - 1) <= x)
  {
    if x == 0 then 0 else BitLength(x / 2) + 1
  }

  lemma {:induction false} TopBit(x: nat)
    requires x > 0
    ensures TopOnes(x, BitLength(x), 1)
  {
    if x > 1 {
      TopBit(x / 2);
    }
    assert Pow2(1) == 2;
  }

  lemma {:induction false} BitLengthBelow(x: nat, k: nat)
    requires x < Pow2(k)
    ensures BitLength(x) <= k
  {
    if x > 0 {
      BitLengthBelow(x / 2, k - 1);
    }
  }

  lemma BitLengthOf32(x: nat)
    requires 0 < x < U32
    ensures BitLength(x) <= 32 && TopOnes(x, BitLength(x), 1)
  {
    assert Pow2(16) == 0x1_0000;
    Pow2Add(16, 16);
    hide Pow2, BitLength, TopOnes;
    BitLengthBelow(x, 32);
    TopBit(x);
  }

  function Spread(x: nat, s: nat): nat {
    Or(x, Shr(x, s))
  }

  lemma SpreadZero(x: nat, s: nat)
    requires x == 0
    ensures Spread(x, s) == 0
  {
    ShrSmaller(x, s);
  }

  function Smear(x: nat): nat {
    Spread(Spread(Spread(Spread(Spread(x, 1), 2), 4), 8), 16)
  }

  lemma {:induction false} Smeared(x: nat)
    requires x < U32
    ensures Smear(x) == Pow2(BitLength(x)) - 1 && (x > 0 ==> Smear(x) - Shr(Smear(x), 1) == Pow2(BitLength(x) - 1))
  {
    if x == 0 {
      SmearZero(x);
    } else {
      var n := BitLength(x);
      BitLengthOf32(x);
      SpreadRun(x, n, 1);
      var y := Spread(x, 1);
      SpreadRun(y, n, 2);
      var y2 := Spread(y, 2);
      SpreadRun(y2, n, 4);
      var y4 := Spread(y2, 4);
      SpreadRun(y4, n, 8);
      var y8 := Spread(y4, 8);
      SpreadRun(y8, n, 16);
      hide TopOnes, Spread, BitLength, Pow2, Shr;
      AllOnes(Spread(y8, 16), n);
    }
  }

  lemma SpreadRun(x: nat, n: nat, s: nat)
    requires TopOnes(x, n, Min(s, n))
    ensures TopOnes(Spread(x, s), n, Min(2 * s, n))
  {
    SmearStep(x, n, s);
  }

  lemma SmearZero(x: nat)
    requires x == 0
    ensures Smear(x) == 0
  {
    hide Spread;
    SpreadZero(x, 1);
    SpreadZero(x, 2);
    SpreadZero(x, 4);
    SpreadZero(x, 8);
    SpreadZero(x, 16);
  }

  lemma AllOnes(y: nat, n: nat)
    requires TopOnes(y, n, n) && n > 0
    ensures y == Pow2(n) - 1 && y - Shr(y, 1) == Pow2(n - 1)
  {
    hide Shr;
    ShrEnds(y, 0);
    ShrOnes(n, 1);
  }

  /** floor_power_of_2: the largest power of two not above x. */
  method FloorPowerOf2(x: nat) returns (r: nat)
    requires x < U32
    ensures x == 0 ==> r == 0
    ensures x > 0 ==> exists k :: 0 <= k < 32 && r == Pow2(k) && Pow2(k) <= x < Pow2(k + 1)
  {
    hide Or, Shr;
    Smeared(x);
    var y := Or(x, Shr(x, 1));
    y := Or(y, Shr(y, 2));
    y := Or(y, Shr(y, 4));
    y := Or(y, Shr(y, 8));
    y := Or(y, Shr(y, 16));
    ShrSmaller(y, 1);
    r := y - Shr(y, 1);
    if x > 0 {
      BitLengthOf32(x);
    }
  }

  /** The set count is 2^k and the size divides exactly between the sets. */
  ghost predicate ExactSets(c: Config, k: nat) {
    c.size == c.lineSize * c.assoc * Pow2(k)
  }

  /** The set-count test of check_cache. */
  method SetCountLog(c: Config) returns (lg: int)
    requires 0 <= c.size && 0 < c.assoc && 0 < c.lineSize
    ensures lg == -1 || (0 <= lg < 32 && ExactSets(c, lg))
    ensures lg == -1 ==> forall k :: 0 <= k < 32 ==> !ExactSets(c, k)
  {
    SetsDivide(c.size, c.lineSize, c.assoc);
    lg := Log2(c.size / c.lineSize / c.assoc);
    if c.size % (c.lineSize * c.assoc) != 0 || lg == -1 {
      forall k | 0 <= k < 32
        ensures !ExactSets(c, k)
      {
        if ExactSets(c, k) {
          DivUnique(c.size, c.lineSize * c.assoc, Pow2(k), 0);
        }
      }
      lg := -1;
    }
  }

  /** How the check ends: with a geometry the simulator can handle, with an error, or in a division by zero */
  datatype Verdict = Accepted | Refused | DividesByZero

  /** check_cache accepts exactly the geometries the simulator can handle. */
  method CheckCache(c: Config) returns (v: Verdict)
    requires 0 <= c.size < U32 / 2 && 0 <= c.assoc && 0 <= c.lineSize && c.lineSize * c.assoc < U32 / 2
    ensures v == DividesByZero <==> c.lineSize == 0 || c.assoc == 0
    ensures v == Accepted <==>
      && c.lineSize >= MIN_LINE_SIZE && c.size > c.lineSize
      && (exists j :: 0 <= j < 32 && Pow2(j) == c.lineSize)
      && (exists k :: 0 <= k < 32 && ExactSets(c, k))
  {
    if c.lineSize == 0 || c.assoc == 0 {
      NothingHolds(c);
      return DividesByZero;
    }
    var lg := SetCountLog(c);
    hide Pow2;
    if lg == -1 {
      return Refused;
    }
    LinesEnough(c.lineSize, c.assoc, Pow2(lg));
    var lgLine := Log2(c.lineSize);
    if lgLine == -1 {
      return Refused;
    }
    if c.lineSize < MIN_LINE_SIZE {
      return Refused;
    }
    if c.size <= c.lineSize {
      return Refused;
    }
    if c.assoc > c.size / c.lineSize {
      return Refused;
    }
    return Accepted;
  }

  lemma NothingHolds(c: Config)
    requires c.lineSize == 0 || c.assoc == 0
    ensures forall k :: 0 <= k < 32 && ExactSets(c, k) ==> c.size == 0
  {
  }

  lemma Regroup(z: int, a: int, t: int, l: int)
    ensures (z * a + t) * l == z * (l * a) + t * l
  {
    assert (z * a + t) * l == (z * a) * l + t * l;
    assert (z * a) * l == z * (l * a);
  }

  lemma MulMonotone(a: int, b: int, c: int)
    requires a <= b && c >= 0
    ensures a * c <= b * c
  {
  }

  lemma SetsDivide(size: nat, line: nat, assoc: nat)
    requires line > 0 && assoc > 0
    ensures line * assoc > 0 && size / line / assoc == size / (line * assoc)
  {
    var y, r := size / line, size % line;
    var z, t := y / assoc, y % assoc;
    assert size == y * line + r && y == z * assoc + t;
    Regroup(z, assoc, t, line);
    MulMonotone(t + 1, assoc, line);
    assert (t + 1) * line == t * line + line && assoc * line == line * assoc;
    MulAtLeast(assoc, line);
    DivUnique(size, line * assoc, z, t * line + r);
  }

  lemma LinesEnough(line: nat, assoc: nat, sets: nat)
    requires line > 0 && sets > 0
    ensures line * assoc * sets / line >= assoc
  {
    var m := assoc * sets;
    assert line * assoc * sets == m * line;
    DivUnique(m * line, line, m, 0);
    MulAtLeast(sets, assoc);
  }

  lemma RealMonotone(x: real, y: real, m: real)
    requires m > 0.0
    ensures x <= y ==> x * m <= y * m
  {
  }

  lemma Cleared(x: real, y: real, m: real)
    requires m > 0.0
    ensures (x <= y / m ==> x * m <= y) && (y / m < x ==> y < x * m)
  {
  }

  lemma IntProduct(x: int, y: int)
    ensures (x as real) * (y as real) == (x * y) as real
  {
  }

  /** Whole numbers compared with a quotient */
  lemma Quotient(x: int, y: int, m: int)
    requires m > 0
    ensures (x as real <= y as real / m as real ==> x * m <= y) && (y as real / m as real < x as real ==> y < x * m)
  {
    Cleared(x as real, y as real, m as real);
    IntProduct(x, m);
  }

  lemma ShareIs(n: real, m: real, a: real)
    requires m > 0.0
    ensures 2.0 * ((n / m) * a) == (2.0 * (n * a)) / m
  {
    assert (n / m) * a * m == n * a by {
      assert (n / m) * m == n;
    }
  }

  /** n/m of a */
  function Share(n: nat, m: nat, a: nat): real
    requires m > 0
  {
    n as real / m as real * a as real
  }

  /** Twice a share is a quotient of whole numbers. */
  lemma ShareTwice(n: nat, m: nat, a: nat)
    requires m > 0
    ensures 2.0 * Share(n, m, a) == (2 * (n * a)) as real / m as real
  {
    ShareIs(n as real, m as real, a as real);
    IntProduct(n, a);
  }

  /** Rounding n/m of a to the nearest whole number misses by at most half. */
  lemma RoundedShare(n: nat, m: nat, a: nat, r: int)
    requires m > 0 && r == (0.5 + Share(n, m, a)).Floor
    ensures 0 - m <= 2 * (r * m - n * a) <= m
  {
    hide Share;
    ShareTwice(n, m, a);
    var w: int := 2 * (n * a);
    Quotient(2 * r - 1, w, m);
    Quotient(2 * r + 1, w, m);
    assert (2 * r - 1) * m == 2 * (r * m) - m && (2 * r + 1) * m == 2 * (r * m) + m;
  }

  /** Conversion of an unsigned 32-bit value to a signed one. */
  function ToInt32(x: nat): int {
    if x % U32 < U32 / 2 then x % U32 else x % U32 - U32
  }

  /** What the adjustment turns n sets of `c` into: 2^k sets of `assoc` lines each. */
  ghost predicate Tweaked(c: Config, n: nat, k: nat, assoc: nat) {
    && Pow2(k) <= n < 2 * Pow2(k)
    && assoc >= c.assoc && (n == Pow2(k) ==> assoc == c.assoc)
    && 0 - Pow2(k) <= 2 * (assoc * Pow2(k) - n * c.assoc) <= Pow2(k)
  }

  lemma {:induction false} TweakedFits(c: Config, n: nat, k: nat, assoc: nat)
    requires Tweaked(c, n, k, assoc) && c.lineSize > 0 && c.assoc > 0 && c.lineSize * c.assoc * n <= c.size
    ensures 2 * (c.lineSize * assoc * Pow2(k)) <= 3 * c.size
    ensures 0 - c.lineSize * Pow2(k) <= 2 * (c.lineSize * assoc * Pow2(k) - c.lineSize * c.assoc * n) <=
      c.lineSize * Pow2(k)
  {
    hide Pow2;
    var l, p := c.lineSize, Pow2(k);
    var x, y := assoc * p, n * c.assoc;
    FitScaled(l, p, x, y);
    Permute(l, assoc, p);
    Permute(l, c.assoc, n);
    LineSets(l, p, n, c.assoc);
  }

  lemma FitScaled(l: int, p: int, x: int, y: int)
    requires l > 0 && 0 - p <= 2 * (x - y) <= p
    ensures 0 - l * p <= 2 * (l * x - l * y) <= l * p
  {
    MulMonotone(2 * (x - y), p, l);
    MulMonotone(0 - p, 2 * (x - y), l);
    assert 2 * (x - y) * l == 2 * (l * x - l * y);
    assert (0 - p) * l == 0 - l * p && p * l == l * p;
  }

  lemma Permute(l: int, a: int, p: int)
    ensures l * (a * p) == l * a * p && l * (p * a) == l * a * p
  {
    assert a * p == p * a;
  }

  lemma LineSets(l: int, p: int, n: int, a: int)
    requires l > 0 && a > 0 && 0 <= p <= n
    ensures l * p <= l * (n * a)
  {
    MulAtLeast(a, n);
    assert a * n == n * a;
    MulMonotone(p, n * a, l);
    assert p * l == l * p && (n * a) * l == l * (n * a);
  }

  function Mul32(x: nat, y: nat): nat {
    x * y % U32
  }

  lemma RecomputedSize(c: Config, k: nat, assoc: nat)
    requires c.lineSize >= 0
    ensures Config(ToInt32(Mul32(Mul32(c.lineSize, assoc), Pow2(k))), assoc, c.lineSize) == TweakResult(c, k, assoc)
  {
    hide Pow2;
    ModProduct(c.lineSize * assoc, Pow2(k));
  }

  /** Bytes in one way's worth of lines. */
  function WayBytes(c: Config): int {
    c.assoc * c.lineSize
  }

  lemma WayBytesFit(c: Config)
    requires 0 < c.size && 0 < c.assoc && 0 < c.lineSize && WayBytes(c) < U32
    ensures 0 < WayBytes(c) == Mul32(c.assoc, c.lineSize)
    ensures c.size / WayBytes(c) == 0 <==> c.size < WayBytes(c)
  {
    MulAtLeast(c.assoc, c.lineSize);
    if c.size < WayBytes(c) {
      DivUnique(c.size, WayBytes(c), 0, c.size);
    }
  }

  method ScaledAssoc(n: nat, newSets: nat, assoc: nat) returns (a: nat)
    requires 0 < newSets <= n
    ensures a >= assoc && 0 - newSets <= 2 * (a * newSets - n * assoc) <= newSets
  {
    hide Share;
    var scaled := Share(n, newSets, assoc);
    ScaledAtLeast(n, newSets, assoc);
    a := Rounded(scaled, assoc);
    RoundedShare(n, newSets, assoc, a);
  }

  function Rounded(x: real, a: nat): (r: nat)
    requires x >= a as real
    ensures r == (0.5 + x).Floor && r >= a
  {
    (0.5 + x).Floor
  }

  ghost function TweakResult(c: Config, k: nat, assoc: nat): Config
    requires c.lineSize >= 0
  {
    Config(ToInt32(c.lineSize * assoc * Pow2(k)), assoc, c.lineSize)
  }

  /** The two ways of recomputing associativity and size. */
  method Adjust(c: Config, n: nat) returns (newSize: nat, newAssoc: nat, ghost k: nat)
    requires 0 < c.assoc && 0 < c.lineSize && 0 < n < U32
    ensures Tweaked(c, n, k, newAssoc)
    ensures Config(ToInt32(newSize), newAssoc, c.lineSize) == TweakResult(c, k, newAssoc)
  {
    hide Mul32, ToInt32, TweakResult;
    var lg := Log2(n);
    if lg != -1 {
      newAssoc, k := c.assoc, lg;
      newSize := Mul32(Mul32(c.lineSize, c.assoc), n);
      RecomputedSize(c, k, newAssoc);
    } else {
      var newSets := FloorPowerOf2(n);
      k :| 0 <= k < 32 && newSets == Pow2(k) && Pow2(k) <= n < Pow2(k + 1);
      newAssoc := ScaledAssoc(n, newSets, c.assoc);
      newSize := Mul32(Mul32(c.lineSize, newAssoc), newSets);
      RecomputedSize(c, k, newAssoc);
    }
  }

  /** What the assertion at the start demands: nothing negative, unless something is zero */
  predicate Sane(c: Config) {
    c.size == 0 || c.assoc == 0 || c.lineSize == 0 || (c.size > 0 && c.assoc > 0 && c.lineSize > 0)
  }

  /** There is at least one whole set. */
  predicate HasSets(c: Config) {
    c.size > 0 && c.assoc > 0 && c.lineSize > 0 && 0 < WayBytes(c) <= c.size
  }

  /** maybe_tweak_LLc: make the set count a power of two, keeping line size and (nearly) total size.  `ok` tells
      whether the assertion at the start holds. */
  method MaybeTweakLLc(c: Config) returns (ok: bool, d: Config)
    requires c.size < U32 / 2 && c.assoc < U32 / 2 && c.lineSize < U32 / 2
    requires c.assoc > 0 && c.lineSize > 0 ==> WayBytes(c) < U32
    ensures ok <==> Sane(c)
    ensures !HasSets(c) ==> d == c
    ensures HasSets(c) ==>
      exists k: nat, assoc: nat ::
        && Tweaked(c, c.size / WayBytes(c), k, assoc)
        && d == TweakResult(c, k, assoc)
  {
    if c.size == 0 || c.assoc == 0 || c.lineSize == 0 {
      return true, c;
    }
    if !(c.size > 0 && c.assoc > 0 && c.lineSize > 0) {
      return false, c;
    }
    ok := true;
    WayBytesFit(c);
    assert ToInt32(c.size) == c.size;
    hide Mul32, WayBytes, Tweaked, Pow2, TweakResult, ToInt32;
    var n := c.size / Mul32(c.assoc, c.lineSize);
    if n == 0 {
      return ok, c;
    }
    assert n <= c.size by { DivAtMost(c.size, WayBytes(c)); }
    var newSize, newAssoc;
    ghost var k;
    newSize, newAssoc, k := Adjust(c, n);
    if newSize == c.size && newAssoc == c.assoc {
      d := c;
    } else {
      d := Config(ToInt32(newSize), newAssoc, c.lineSize);
    }
  }

  lemma DivAtMost(x: nat, d: nat)
    requires d > 0
    ensures x / d <= x
  {
    MulAtLeast(d, x / d);
  }

  lemma ScaledAtLeast(n: nat, m: nat, a: nat)
    requires 0 < m <= n
    ensures Share(n, m, a) >= a as real
  {
    AtLeastOne(n as real, m as real);
    if a > 0 {
      RealMonotone(1.0, n as real / m as real, a as real);
    }
  }

  lemma AtLeastOne(n: real, m: real)
    requires 0.0 < m <= n
    ensures n / m >= 1.0
  {
  }

  /** Reducing a factor modulo 2^32 first changes nothing. */
  lemma ModProduct(x: nat, y: nat)
    ensures x % U32 * y % U32 == x * y % U32
  {
    var q, r := x / U32, x % U32;
    var q', r' := (r * y) / U32, (r * y) % U32;
    assert x * y == (q * U32 + r) * y == q * y * U32 + r * y;
    assert x * y == (q * y + q') * U32 + r';
    DivUnique(x * y, U32, q * y + q', r');
  }

  /** The adjusted geometry is exact as soon as its size still fits a signed integer, and it always
      does for caches up to two thirds of 2^31 bytes. */
  lemma {:induction false} TweakExact(c: Config, k: nat, assoc: nat)
    requires 0 < c.size < U32 / 2 && 0 < c.assoc && 0 < c.lineSize && WayBytes(c) <= c.size
    requires Tweaked(c, c.size / WayBytes(c), k, assoc)
    ensures ExactSets(TweakResult(c, k, assoc), k) <==> c.lineSize * assoc * Pow2(k) < U32 / 2
    ensures 3 * c.size < U32 ==> ExactSets(TweakResult(c, k, assoc), k)
  {
    hide Pow2;
    SetsTimesWay(c);
    TweakedFits(c, c.size / WayBytes(c), k, assoc);
    hide WayBytes, Tweaked;
    var z := c.lineSize * assoc * Pow2(k);
    assert 2 * z <= 3 * c.size && z >= 0;
  }

  lemma SetsTimesWay(c: Config)
    requires 0 < c.size && 0 < c.assoc && 0 < c.lineSize
    ensures 0 < WayBytes(c) && c.lineSize * c.assoc * (c.size / WayBytes(c)) <= c.size
  {
    MulAtLeast(c.assoc, c.lineSize);
    var w := WayBytes(c);
    assert c.size == (c.size / w) * w + c.size % w;
    assert (c.size / w) * w == c.lineSize * c.assoc * (c.size / w);
  }

  /** A geometry that is already exact is left alone, so adjusting twice is adjusting once. */
  lemma {:induction false} TweakStable(c: Config, k: nat, j: nat, assoc: nat)
    requires 0 < c.size < U32 / 2 && 0 < c.assoc && 0 < c.lineSize
    requires ExactSets(c, k) && Tweaked(c, c.size / WayBytes(c), j, assoc)
    ensures TweakResult(c, j, assoc) == c
  {
    hide Pow2;
    var w := WayBytes(c);
    MulAtLeast(c.assoc, c.lineSize);
    assert w * Pow2(k) == Pow2(k) * w;
    DivUnique(c.size, w, Pow2(k), 0);
    if j < k {
      Pow2Monotone(j, k);
    } else if k < j {
      Pow2Monotone(k, j);
    }
  }

  /** Adjusting is idempotent: a second adjustment finds nothing to do, or stops at its assertion.  It gets past
      that exactly if the adjusted size fits a signed 32-bit integer. */
  method TweakTwice(c: Config) returns (once: Config, again: bool, twice: Config)
    requires 0 <= c.size < U32 / 2 && 0 <= c.assoc < U32 / 2 && 0 <= c.lineSize < U32 / 2 && WayBytes(c) < U32
    ensures twice == once
    ensures !HasSets(c) ==> again && once == c
    ensures HasSets(c) ==>
      exists k: nat, assoc: nat ::
        && Tweaked(c, c.size / WayBytes(c), k, assoc) && once == TweakResult(c, k, assoc)
        && (again <==> c.lineSize * assoc * Pow2(k) < U32 / 2)
  {
    hide Tweaked, TweakResult, WayBytes, ExactSets, Pow2;
    var ok;
    ok, once := MaybeTweakLLc(c);
    if !HasSets(c) {
      again, twice := MaybeTweakLLc(once);
      return;
    }
    ghost var k: nat, assoc: nat :| Tweaked(c, c.size / WayBytes(c), k, assoc) && once == TweakResult(c, k, assoc);
    TweakBounds(c, k, assoc);
    again, twice := MaybeTweakLLc(once);
    if c.lineSize * assoc * Pow2(k) < U32 / 2 {
      ghost var j: nat, a: nat :| Tweaked(once, once.size / WayBytes(once), j, a) && twice == TweakResult(once, j, a);
      TweakStable(once, k, j, a);
    }
  }

  /** What an adjustment results in: an exact geometry, or a negative size */
  lemma TweakBounds(c: Config, k: nat, assoc: nat)
    requires c.size < U32 / 2 && HasSets(c) && c.assoc < U32 / 2 && c.lineSize < U32 / 2
    requires Tweaked(c, c.size / WayBytes(c), k, assoc)
    ensures var d := TweakResult(c, k, assoc);
      && 0 < d.assoc < U32 / 2 && 0 < d.lineSize < U32 / 2 && WayBytes(d) < U32
      && if c.lineSize * assoc * Pow2(k) < U32 / 2 then ExactSets(d, k) && HasSets(d) && d.size < U32 / 2
        else d.size < 0
  {
    hide WayBytes, ExactSets, Pow2, Tweaked;
    var z := c.lineSize * assoc * Pow2(k);
    SetsTimesWay(c);
    TweakedFits(c, c.size / WayBytes(c), k, assoc);
    AssocFits(c, c.size / WayBytes(c), k, assoc);
    WayOf(c, k, assoc);
    if z < U32 / 2 {
      TweakExact(c, k, assoc);
      ExactBounds(TweakResult(c, k, assoc), k);
    }
  }

  lemma WayOf(c: Config, k: nat, assoc: nat)
    requires c.lineSize > 0
    ensures WayBytes(TweakResult(c, k, assoc)) == assoc * c.lineSize
    ensures c.lineSize * assoc * Pow2(k) < U32 ==>
      (TweakResult(c, k, assoc).size >= 0 <==> c.lineSize * assoc * Pow2(k) < U32 / 2)
    ensures TweakResult(c, k, assoc).size < U32 / 2
  {
    hide Pow2;
  }

  /** The associativity stays below 2^31 even where the size does not. */
  lemma AssocFits(c: Config, n: nat, k: nat, assoc: nat)
    requires Tweaked(c, n, k, assoc) && 0 < c.assoc < U32 / 2 && 0 < c.lineSize
    requires c.lineSize * assoc * Pow2(k) < 3 * (U32 / 4)
    ensures 0 < assoc < U32 / 2 && assoc * c.lineSize < U32
  {
    Grown(c, n, k, assoc);
    hide Pow2, Tweaked;
    ProductParts(c.lineSize, assoc, Pow2(k));
  }

  /** Only a set count that is halved at least once makes for a larger associativity. */
  lemma Grown(c: Config, n: nat, k: nat, assoc: nat)
    requires Tweaked(c, n, k, assoc)
    ensures assoc >= c.assoc && (assoc == c.assoc || Pow2(k) >= 2) && Pow2(k) >= 1
  {
  }

  lemma ProductParts(l: nat, a: nat, p: nat)
    requires l > 0 && p > 0
    ensures a * l == l * a && a <= l * a <= l * a * p && (p >= 2 ==> 2 * a <= l * a * p)
  {
    var w := l * a;
    MulAtLeast(l, a);
    MulAtLeast(p, w);
    if p >= 2 {
      MulMonotone(2, p, w);
      assert p * w == w * p;
    }
  }

  /** What an exact geometry of positive parts below 2^31 bytes satisfies */
  lemma ExactBounds(c: Config, k: nat)
    requires ExactSets(c, k) && 0 < c.assoc && 0 < c.lineSize && c.size < U32 / 2
    ensures 0 < WayBytes(c) <= c.size && c.assoc <= c.size && c.lineSize <= c.size
  {
    hide Pow2;
    MulAtLeast(c.assoc, c.lineSize);
    MulAtLeast(c.lineSize, c.assoc);
    MulAtLeast(Pow2(k), WayBytes(c));
  }
}
