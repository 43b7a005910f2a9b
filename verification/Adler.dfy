/** The checksum of the debuginfo server (valgrind-di-server.c, adler32): sums whose reduction modulo 65521 is
    put off as long as 32 bits allow, and is done by subtraction only. */
module Adler {
  import opened MachineWords
  import opened Wrappers

  type byte = x: int | 0 <= x < 256
  type UInt = x: int | 0 <= x < 0x1_0000_0000

  const BASE: nat := 65521
  const NMAX: nat := 5552

  // ---------------------------------------------------------------------------
  // The definition of RFC 1950: both sums are reduced after every byte.

  datatype Sums = Sums(s1: nat, s2: nat)

  function Rfc(s: Sums, bytes: seq<byte>): Sums {
    if bytes == [] then s
    else
      var r := Rfc(s, bytes[..|bytes| - 1]);
      var s1 := (r.s1 + bytes[|bytes| - 1]) % BASE;
      Sums(s1, (r.s2 + s1) % BASE)
  }

  predicate Reduced(s: Sums) {
    s.s1 < BASE && s.s2 < BASE
  }

  function Halves(adler: nat): Sums {
    Sums(adler % 0x1_0000, adler / 0x1_0000)
  }

  function Join(s: Sums): nat {
    s.s1 + s.s2 * 0x1_0000
  }

  function Adler32Of(adler: nat, bytes: seq<byte>): nat {
    Join(Rfc(Halves(adler), bytes))
  }

  lemma HalvesJoin(s: Sums)
    requires Reduced(s)
    ensures Halves(Join(s)) == s && Join(s) < 0x1_0000_0000
  {
  }

  lemma {:induction false} RfcReduced(s: Sums, bytes: seq<byte>)
    requires Reduced(s)
    ensures Reduced(Rfc(s, bytes))
  {
  }

  lemma {:induction false} RfcConcat(s: Sums, x: seq<byte>, y: seq<byte>)
    ensures Rfc(s, x + y) == Rfc(Rfc(s, x), y)
  {
    if y == [] {
      assert x + y == x;
    } else {
      assert (x + y)[..|x + y| - 1] == x + y[..|y| - 1];
      RfcConcat(s, x, y[..|y| - 1]);
    }
  }

  /** Two calls accumulate to one on the concatenation. */
  lemma Accumulates(adler: nat, x: seq<byte>, y: seq<byte>)
    requires Reduced(Halves(adler))
    ensures Adler32Of(Adler32Of(adler, x), y) == Adler32Of(adler, x + y)
    ensures Reduced(Halves(Adler32Of(adler, x)))
  {
    RfcReduced(Halves(adler), x);
    HalvesJoin(Rfc(Halves(adler), x));
    RfcConcat(Halves(adler), x, y);
  }

  // ---------------------------------------------------------------------------
  // Putting off the reduction

  function Sum1(a: nat, bytes: seq<byte>): nat {
    if bytes == [] then a else Sum1(a, bytes[..|bytes| - 1]) + bytes[|bytes| - 1]
  }

  function Sum2(a: nat, s: nat, bytes: seq<byte>): nat {
    if bytes == [] then s else Sum2(a, s, bytes[..|bytes| - 1]) + Sum1(a, bytes)
  }

  lemma OneByteDeferred(u: nat, w: nat, b: byte)
    ensures (u % BASE + b) % BASE == (u + b) % BASE
    ensures (w % BASE + (u + b) % BASE) % BASE == (w + (u + b)) % BASE
  {
    ModAdd(u, b, BASE);
    ModAdd(w, (u + b) % BASE, BASE);
    ModAdd(u + b, w, BASE);
  }

  lemma {:induction false} Deferred(a: nat, s: nat, bytes: seq<byte>)
    requires a < BASE && s < BASE
    ensures Rfc(Sums(a, s), bytes) == Sums(Sum1(a, bytes) % BASE, Sum2(a, s, bytes) % BASE)
  {
    if bytes != [] {
      var init, b := bytes[..|bytes| - 1], bytes[|bytes| - 1];
      Deferred(a, s, init);
      OneByteDeferred(Sum1(a, init), Sum2(a, s, init), b);
    }
  }

  lemma {:induction false} Bounds(a: nat, s: nat, bytes: seq<byte>)
    ensures Sum1(a, bytes) <= a + 255 * |bytes|
    ensures 2 * Sum2(a, s, bytes) <= 2 * s + 2 * (|bytes| * a) + 255 * (|bytes| * (|bytes| + 1))
  {
    if bytes != [] {
      var n := |bytes|;
      Bounds(a, s, bytes[..n - 1]);
      assert n * a == (n - 1) * a + a;
      assert n * (n + 1) == (n - 1) * n + 2 * n;
    }
  }

  /** NMAX bytes fit in 32 bits. */
  lemma BlockFits(a: nat, s: nat, bytes: seq<byte>)
    requires a < BASE && s < BASE && |bytes| <= NMAX
    ensures Sum1(a, bytes) < 0x1_0000_0000 && Sum2(a, s, bytes) < 0x1_0000_0000
  {
    var n := |bytes|;
    Bounds(a, s, bytes);
    Products(n, a, NMAX, 65520);
    Products(n, n + 1, NMAX, NMAX + 1);
  }

  /** and NMAX is the largest such number. */
  lemma {:induction false} NmaxIsLargest(a: nat, s: nat, bytes: seq<byte>)
    requires a == s == BASE - 1 && |bytes| == NMAX + 1 && forall i :: 0 <= i < |bytes| ==> bytes[i] == 255
    ensures Sum2(a, s, bytes) >= 0x1_0000_0000
  {
    AllOnes(a, s, bytes);
  }

  lemma {:induction false} AllOnes(a: nat, s: nat, bytes: seq<byte>)
    requires forall i :: 0 <= i < |bytes| ==> bytes[i] == 255
    ensures Sum1(a, bytes) == a + 255 * |bytes|
    ensures 2 * Sum2(a, s, bytes) == 2 * s + 2 * (|bytes| * a) + 255 * (|bytes| * (|bytes| + 1))
  {
    if bytes != [] {
      var n := |bytes|;
      AllOnes(a, s, bytes[..n - 1]);
      assert n * a == (n - 1) * a + a;
      assert n * (n + 1) == (n - 1) * n + 2 * n;
    }
  }

  lemma Products(x: nat, y: nat, u: nat, v: nat)
    requires x <= u && y <= v
    ensures x * y <= u * v
  {
    assert x * y <= u * y by { if y > 0 { assert (u - x) * y >= 0; } }
    assert u * y <= u * v by { assert u * (v - y) >= 0; }
  }

  // ---------------------------------------------------------------------------
  // Reduction by subtraction

  function Doubled(k: nat): nat {
    if k == 0 then BASE else 2 * Doubled(k - 1)
  }

  /** The chain of conditional subtractions of BASE << k, …, BASE << 1, BASE */
  function SubtractFrom(a: nat, k: nat): nat {
    var b := if a >= Doubled(k) then a - Doubled(k) else a;
    if k == 0 then b else SubtractFrom(b, k - 1)
  }

  lemma {:induction false} DoubledMultiple(k: nat, a: nat)
    requires a >= Doubled(k)
    ensures (a - Doubled(k)) % BASE == a % BASE && Doubled(k) > 0
  {
    if k > 0 {
      DoubledMultiple(k - 1, a);
      DoubledMultiple(k - 1, a - Doubled(k - 1));
    }
  }

  lemma {:induction false} SubtractIsMod(a: nat, k: nat)
    requires a < 2 * Doubled(k)
    ensures SubtractFrom(a, k) == a % BASE
  {
    var b := if a >= Doubled(k) then a - Doubled(k) else a;
    if a >= Doubled(k) {
      DoubledMultiple(k, a);
    }
    if k > 0 {
      SubtractIsMod(b, k - 1);
    }
  }

  /** MOD: exact for every 32-bit value */
  function Mod(a: UInt): (r: UInt)
    ensures r == a % BASE
  {
    assert Doubled(4) == 16 * BASE;
    assert Doubled(8) == 256 * BASE;
    assert Doubled(12) == 4096 * BASE;
    assert Doubled(16) == 65536 * BASE;
    SubtractIsMod(a, 16);
    SubtractFrom(a, 16)
  }

  /** MOD4: exact below 32 * BASE */
  function Mod4(a: UInt): (r: nat)
    ensures a < 32 * BASE ==> r == a % BASE
  {
    assert Doubled(4) == 16 * BASE;
    if a < 32 * BASE then SubtractIsMod(a, 4); SubtractFrom(a, 4) else SubtractFrom(a, 4)
  }

  // ---------------------------------------------------------------------------
  // The algorithm

  /** The rest of a block of bytes[p..]: `n` more bytes added to the running sums. */
  method AddBytes(bytes: seq<byte>, p: nat, i: nat, n: nat, adler: UInt, sum2: UInt, ghost a: nat, ghost s: nat)
    returns (adler': UInt, sum2': UInt)
    requires p <= i && i + n <= |bytes| && i + n - p <= NMAX && a < BASE && s < BASE
    requires adler == Sum1(a, bytes[p..i]) && sum2 == Sum2(a, s, bytes[p..i])
    ensures adler' == Sum1(a, bytes[p..i + n]) && sum2' == Sum2(a, s, bytes[p..i + n])
  {
    adler', sum2' := adler, sum2;
    for k := 0 to n
      invariant adler' == Sum1(a, bytes[p..i + k]) && sum2' == Sum2(a, s, bytes[p..i + k])
    {
      ghost var block := bytes[p..i + k + 1];
      assert block[..|block| - 1] == bytes[p..i + k];
      BlockFits(a, s, block);
      adler' := adler' + bytes[i + k];
      sum2' := sum2' + adler';
    }
  }

  method OneByte(b: byte, adler: UInt, sum2: UInt) returns (r: UInt)
    requires adler < BASE && sum2 < BASE
    ensures r == Join(Rfc(Sums(adler, sum2), [b]))
  {
    var a: UInt := adler + b;
    if a >= BASE {
      a := a - BASE;
    }
    var s: UInt := sum2 + a;
    if s >= BASE {
      s := s - BASE;
    }
    assert Rfc(Sums(adler, sum2), [b][..0]) == Sums(adler, sum2);
    r := a + s * 0x1_0000;
  }

  method FewBytes(bytes: seq<byte>, adler: UInt, sum2: UInt) returns (r: UInt)
    requires adler < BASE && sum2 < BASE && |bytes| < 16
    ensures r == Join(Rfc(Sums(adler, sum2), bytes))
  {
    hide Rfc, Sum1, Sum2;
    EmptySums(adler, sum2, bytes[0..0]);
    var a, s := AddBytes(bytes, 0, 0, |bytes|, adler, sum2, adler, sum2);
    assert bytes[0..|bytes|] == bytes;
    ShortFits(adler, sum2, bytes);
    if a >= BASE {
      a := a - BASE;
    }
    s := Mod4(s);
    r := a + s * 0x1_0000;
  }

  lemma NothingSummed(start: Sums, bytes: seq<byte>)
    requires bytes == []
    ensures Rfc(start, bytes) == start
  {
  }

  lemma EmptySums(a: nat, s: nat, bytes: seq<byte>)
    requires bytes == []
    ensures Sum1(a, bytes) == a && Sum2(a, s, bytes) == s
  {
  }

  /** Update a running checksum with a buffer; without a buffer, the initial value. */
  method Adler32(adler0: UInt, buf: Option<seq<byte>>) returns (r: UInt)
    requires Reduced(Halves(adler0)) && (buf.Some? ==> |buf.value| < 0x1_0000_0000)
    ensures r == if buf.None? then 1 else Adler32Of(adler0, buf.value)
  {
    hide Rfc;
    var sum2: UInt := adler0 / 0x1_0000;
    var adler: UInt := adler0 % 0x1_0000;
    if buf.None? {
      return 1;
    }
    var bytes := buf.value;
    ghost var start := Sums(adler, sum2);
    RfcReduced(start, bytes);
    if |bytes| == 1 {
      r := OneByte(bytes[0], adler, sum2);
      assert bytes == [bytes[0]];
      return;
    }
    if |bytes| < 16 {
      r := FewBytes(bytes, adler, sum2);
      return;
    }
    var pos := 0;
    NothingSummed(start, bytes[..0]);
    while |bytes| - pos >= NMAX
      invariant pos <= |bytes| && Sums(adler, sum2) == Rfc(start, bytes[..pos]) && adler < BASE && sum2 < BASE
    {
      adler, sum2 := AddBlock(bytes, pos, NMAX, adler, sum2, start);
      pos := pos + NMAX;
    }
    if pos < |bytes| {
      adler, sum2 := AddBlock(bytes, pos, |bytes| - pos, adler, sum2, start);
    }
    assert bytes[..|bytes|] == bytes;
    return adler + sum2 * 0x1_0000;
  }

  lemma ShortFits(a: nat, s: nat, bytes: seq<byte>)
    requires a < BASE && s < BASE && |bytes| < 16
    ensures Sum1(a, bytes) < 2 * BASE && Sum2(a, s, bytes) < 32 * BASE
    ensures Rfc(Sums(a, s), bytes) == Sums(Sum1(a, bytes) % BASE, Sum2(a, s, bytes) % BASE)
  {
    var n := |bytes|;
    Bounds(a, s, bytes);
    Products(n, a, 15, 65520);
    Products(n, n + 1, 15, 16);
    Deferred(a, s, bytes);
  }

  /** A block of at most NMAX bytes, sixteen at a time and then singly, with one reduction at its end. */
  method AddBlock(bytes: seq<byte>, pos: nat, n: nat, adler: UInt, sum2: UInt, ghost start: Sums)
    returns (adler': UInt, sum2': UInt)
    requires pos + n <= |bytes| && n <= NMAX && adler < BASE && sum2 < BASE
    requires Sums(adler, sum2) == Rfc(start, bytes[..pos])
    ensures adler' < BASE && sum2' < BASE && Sums(adler', sum2') == Rfc(start, bytes[..pos + n])
  {
    hide Rfc, Sum1, Sum2;
    ghost var a, s := adler, sum2;
    EmptySums(a, s, bytes[pos..pos]);
    adler', sum2' := adler, sum2;
    var i := pos;
    while pos + n - i >= 16
      invariant pos <= i <= pos + n
      invariant adler' == Sum1(a, bytes[pos..i]) && sum2' == Sum2(a, s, bytes[pos..i])
    {
      adler', sum2' := AddBytes(bytes, pos, i, 16, adler', sum2', a, s);
      i := i + 16;
    }
    adler', sum2' := AddBytes(bytes, pos, i, pos + n - i, adler', sum2', a, s);
    Deferred(a, s, bytes[pos..pos + n]);
    RfcConcat(start, bytes[..pos], bytes[pos..pos + n]);
    assert bytes[..pos] + bytes[pos..pos + n] == bytes[..pos + n];
    adler' := Mod(adler');
    sum2' := Mod(sum2');
  }

  // ---------------------------------------------------------------------------
  // What the checksum notices

  lemma {:induction false} Sum1Append(a: nat, x: seq<byte>, y: seq<byte>)
    ensures Sum1(a, x + y) == Sum1(Sum1(a, x), y)
  {
    if y == [] {
      assert x + y == x;
    } else {
      assert (x + y)[..|x + y| - 1] == x + y[..|y| - 1];
      Sum1Append(a, x, y[..|y| - 1]);
    }
  }

  lemma {:induction false} Sum1Shift(a: nat, d: nat, y: seq<byte>)
    ensures Sum1(a + d, y) == Sum1(a, y) + d
  {
    if y != [] {
      Sum1Shift(a, d, y[..|y| - 1]);
    }
  }

  lemma {:induction false} Sum2Append(a: nat, s: nat, x: seq<byte>, y: seq<byte>)
    ensures Sum2(a, s, x + y) == Sum2(Sum1(a, x), Sum2(a, s, x), y)
  {
    if y == [] {
      assert x + y == x;
    } else {
      assert (x + y)[..|x + y| - 1] == x + y[..|y| - 1];
      Sum1Append(a, x, y);
      Sum2Append(a, s, x, y[..|y| - 1]);
    }
  }

  lemma {:induction false} Sum2Shift(a: nat, s: nat, d: nat, y: seq<byte>)
    ensures Sum2(a, s + d, y) == Sum2(a, s, y) + d
  {
    if y != [] {
      Sum2Shift(a, s, d, y[..|y| - 1]);
    }
  }

  /** Numbers less than BASE apart are told apart by their remainders. */
  lemma CloseDiffer(u: nat, d: nat)
    requires 0 < d < BASE
    ensures (u + d) % BASE != u % BASE
  {
  }

  /** One changed byte always changes the first sum. */
  lemma OneByteNoticed(adler: nat, x: seq<byte>, b: byte, c: byte, y: seq<byte>)
    requires Reduced(Halves(adler)) && b != c
    ensures Adler32Of(adler, x + [b] + y) != Adler32Of(adler, x + [c] + y)
  {
    hide Rfc, Join, Sum1, Sum2;
    var lo, hi := if b < c then b else c, if b < c then c else b;
    var h := Halves(adler);
    var u := Sum1(h.s1, x);
    OneByteSum(h.s1, x, lo, y);
    OneByteSum(h.s1, x, hi, y);
    Sum1Shift(u + lo, hi - lo, y);
    CloseDiffer(Sum1(u + lo, y), hi - lo);
    Distinguished(h, x + [lo] + y, x + [hi] + y);
  }

  lemma OneByteSum(a: nat, x: seq<byte>, b: byte, y: seq<byte>)
    ensures Sum1(a, x + [b] + y) == Sum1(Sum1(a, x) + b, y)
  {
    Sum1Append(a, x + [b], y);
    assert (x + [b])[..|x|] == x;
  }

  /** Different remainders make different checksums. */
  lemma Distinguished(h: Sums, p: seq<byte>, q: seq<byte>)
    requires Reduced(h)
    requires Sum1(h.s1, p) % BASE != Sum1(h.s1, q) % BASE || Sum2(h.s1, h.s2, p) % BASE != Sum2(h.s1, h.s2, q) % BASE
    ensures Join(Rfc(h, p)) != Join(Rfc(h, q))
  {
    Deferred(h.s1, h.s2, p);
    Deferred(h.s1, h.s2, q);
    RfcReduced(h, p);
    RfcReduced(h, q);
    HalvesJoin(Rfc(h, p));
    HalvesJoin(Rfc(h, q));
  }

  /** Two neighbouring bytes exchanged keep the first sum and always change the second. */
  lemma ExchangeNoticed(adler: nat, x: seq<byte>, b: byte, c: byte, y: seq<byte>)
    requires Reduced(Halves(adler)) && b != c
    ensures Adler32Of(adler, x + [b, c] + y) != Adler32Of(adler, x + [c, b] + y)
  {
    hide Rfc, Join, Sum1, Sum2;
    var lo, hi := if b < c then b else c, if b < c then c else b;
    var h := Halves(adler);
    PairSum(h.s1, h.s2, x, lo, hi, y);
    PairSum(h.s1, h.s2, x, hi, lo, y);
    var u, w := Sum1(h.s1, x), Sum2(h.s1, h.s2, x);
    var same := w + 2 * u + hi;
    Sum2Shift(u + lo + hi, same + 2 * lo, hi - lo, y);
    CloseDiffer(Sum2(u + lo + hi, same + 2 * lo, y), hi - lo);
    Distinguished(h, x + [lo, hi] + y, x + [hi, lo] + y);
  }

  lemma PairSum(a: nat, s: nat, x: seq<byte>, b: byte, c: byte, y: seq<byte>)
    ensures Sum2(a, s, x + [b, c] + y) == Sum2(Sum1(a, x) + b + c, Sum2(a, s, x) + 2 * Sum1(a, x) + 2 * b + c, y)
  {
    Sum2Append(a, s, x + [b, c], y);
    assert (x + [b, c])[..|x| + 1] == x + [b];
    assert (x + [b])[..|x|] == x;
  }
}
