/** The frames of the debuginfo server (valgrind-di-server.c): checksum, length and data, little-endian. */
module DiFrames {
  import opened Wrappers
  import opened Adler

  // ---------------------------------------------------------------------------
  // Little-endian numbers

  function Pow256(k: nat): (r: nat)
    ensures r > 0
  {
    if k == 0 then 1 else 256 * Pow256(k - 1)
  }

  function LeBytes(n: nat, k: nat): (r: seq<byte>)
    ensures |r| == k
  {
    if k == 0 then [] else [n % 256] + LeBytes(n / 256, k - 1)
  }

  function LeValue(bytes: seq<byte>): nat {
    if bytes == [] then 0 else bytes[0] + 256 * LeValue(bytes[1..])
  }

  lemma {:induction false} LeBytesValue(n: nat, k: nat)
    requires n < Pow256(k)
    ensures LeValue(LeBytes(n, k)) == n
  {
    if k > 0 {
      assert LeBytes(n, k)[1..] == LeBytes(n / 256, k - 1);
      LeBytesValue(n / 256, k - 1);
    }
  }

  lemma {:induction false} LeValueBytes(bytes: seq<byte>)
    ensures LeValue(bytes) < Pow256(|bytes|) && LeBytes(LeValue(bytes), |bytes|) == bytes
  {
    if bytes != [] {
      LeValueBytes(bytes[1..]);
      var v := LeValue(bytes[1..]);
      assert LeValue(bytes) % 256 == bytes[0] && LeValue(bytes) / 256 == v;
    }
  }

  /** Writing k bytes of n in place, lowest first */
  method WriteLe(dst: array<byte>, off: nat, n: nat, k: nat)
    requires off + k <= dst.Length
    modifies dst
    ensures dst[off..off + k] == LeBytes(n, k)
    ensures dst[..off] == old(dst[..off]) && dst[off + k..] == old(dst[off + k..])
  {
    var m := n;
    for i := 0 to k
      invariant dst[off..off + i] + LeBytes(m, k - i) == LeBytes(n, k)
      invariant dst[..off] == old(dst[..off]) && dst[off + k..] == old(dst[off + k..])
    {
      ghost var done := dst[off..off + i];
      assert LeBytes(m, k - i) == [m % 256] + LeBytes(m / 256, k - i - 1);
      dst[off + i] := m % 256;
      m := m / 256;
      assert dst[off..off + i + 1] == done + [dst[off + i]];
    }
    assert dst[off..off + k] + LeBytes(m, 0) == dst[off..off + k];
  }

  /** Reading them back, highest first */
  method ReadLe(src: seq<byte>) returns (r: nat)
    ensures r == LeValue(src)
  {
    r := 0;
    var i := |src|;
    while i > 0
      invariant 0 <= i <= |src| && r == LeValue(src[i..])
    {
      i := i - 1;
      assert src[i..][1..] == src[i + 1..];
      r := 256 * r;
      r := r + src[i];
    }
    assert src[0..] == src;
  }

  // ---------------------------------------------------------------------------
  // Frames

  const MAX_FRAME: nat := 4 * 1024 * 1024

  /** What goes on the wire for `data` */
  function Wire(data: seq<byte>): (w: seq<byte>)
    ensures |w| == 8 + |data|
  {
    LeBytes(Checksum(data), 4) + LeBytes(|data|, 4) + data
  }

  /** The checksum covers the length as well as the data. */
  function Checksum(data: seq<byte>): nat {
    Adler32Of(1, LeBytes(|data|, 4) + data)
  }

  lemma LeFour(n: nat)
    ensures LeBytes(n, 4) == [n % 256, n / 256 % 256, n / 65536 % 256, n / 16777216 % 256]
  {
    var a := n / 256;
    var b := a / 256;
    assert LeBytes(n, 4) == [n % 256] + LeBytes(a, 3) && LeBytes(a, 3) == [a % 256] + LeBytes(b, 2);
    assert LeBytes(b, 2) == [b % 256, b / 256 % 256];
  }

  /** The bytes of a frame: four of the checksum, four of the length, lowest first, and the data */
  lemma WireBytes(data: seq<byte>, j: nat)
    requires j < |data|
    ensures var w, c, n := Wire(data), Checksum(data), |data|;
      && w[0] == c % 256 && w[1] == c / 256 % 256 && w[2] == c / 65536 % 256 && w[3] == c / 16777216 % 256
      && w[4] == n % 256 && w[5] == n / 256 % 256 && w[6] == n / 65536 % 256 && w[7] == n / 16777216 % 256
      && w[8 + j] == data[j]
  {
    hide LeBytes, Adler32Of, Checksum;
    LeFour(Checksum(data));
    LeFour(|data|);
  }

  datatype Received = Closed | Fail | Got(data: seq<byte>, rest: seq<byte>)

  lemma ChecksumFits(data: seq<byte>)
    ensures Checksum(data) < Pow256(4) && Reduced(Halves(1))
  {
    RfcReduced(Halves(1), LeBytes(|data|, 4) + data);
    HalvesJoin(Rfc(Halves(1), LeBytes(|data|, 4) + data));
    assert Pow256(4) == 0x1_0000_0000;
  }

  /** The two-call checksum both sides compute */
  method SumFrame(lenBytes: seq<byte>, data: seq<byte>) returns (adler: UInt)
    requires |lenBytes| == 4 && |data| < 0x1_0000_0000
    ensures adler == Adler32Of(1, lenBytes + data)
  {
    hide Adler32Of;
    adler := Adler32(0, None);
    Accumulates(1, lenBytes, data);
    adler := Adler32(adler, Some(lenBytes));
    if |data| > 0 {
      adler := Adler32(adler, Some(data));
    } else {
      assert lenBytes + data == lenBytes;
    }
  }

  /** Sending a frame: the eight header bytes are filled in place. */
  method SendFrame(data: seq<byte>) returns (wire: seq<byte>)
    requires 4 <= |data| < 0x1_0000_0000
    ensures wire == Wire(data)
  {
    hide LeBytes, Adler32Of;
    var first8 := new byte[8](_ => 0);
    WriteLe(first8, 4, |data|, 4);
    var lenBytes := first8[4..8];
    var adler := SumFrame(lenBytes, data);
    WriteLe(first8, 0, adler, 4);
    assert first8[4..] == lenBytes;
    assert first8[..] == first8[0..4] + first8[4..];
    wire := first8[..] + data;
  }

  /** Receiving a frame from a stream that ends after `input`. */
  method ReceiveFrame(input: seq<byte>) returns (r: Received)
    ensures r.Closed? <==> input == []
    ensures forall data, rest :: r == Got(data, rest) <==> |data| <= MAX_FRAME && input == Wire(data) + rest
  {
    hide LeBytes, LeValue, Adler32Of, Wire;
    if |input| == 0 {
      NoWire(input);
      return Closed;
    }
    if |input| < 8 {
      NoWire(input);
      return Fail;
    }
    var sum := ReadLe(input[0..4]);
    var len := ReadLe(input[4..8]);
    LeValueBytes(input[0..4]);
    LeValueBytes(input[4..8]);
    if len > MAX_FRAME || |input| - 8 < len {
      forall data, rest | |data| <= MAX_FRAME && input == Wire(data) + rest
        ensures false
      {
        WireFields(data, rest);
      }
      return Fail;
    }
    var data := input[8..8 + len];
    var adler := SumFrame(input[4..8], data);
    forall d, rest | |d| <= MAX_FRAME && input == Wire(d) + rest
      ensures d == data && rest == input[8 + len..] && sum == adler
    {
      WireFields(d, rest);
    }
    if adler != sum {
      return Fail;
    }
    WireOf(input, data);
    return Got(data, input[8 + len..]);
  }

  lemma NoWire(input: seq<byte>)
    requires |input| < 8
    ensures forall data, rest: seq<byte> :: input != Wire(data) + rest
  {
  }

  /** The fields of a stream that begins with a frame */
  lemma WireFields(data: seq<byte>, rest: seq<byte>)
    requires |data| <= MAX_FRAME
    ensures var input := Wire(data) + rest;
      && LeValue(input[0..4]) == Checksum(data) && input[4..8] == LeBytes(|data|, 4) && LeValue(input[4..8]) == |data|
      && input[8..8 + |data|] == data && input[8 + |data|..] == rest
  {
    hide LeBytes, LeValue, Adler32Of, Checksum, Pow256;
    FieldValues(data);
    Slices(LeBytes(Checksum(data), 4), LeBytes(|data|, 4), data, rest);
  }

  lemma FieldValues(data: seq<byte>)
    requires |data| <= MAX_FRAME
    ensures LeValue(LeBytes(Checksum(data), 4)) == Checksum(data) && LeValue(LeBytes(|data|, 4)) == |data|
  {
    hide LeBytes, LeValue, Adler32Of, Checksum;
    ChecksumFits(data);
    LeBytesValue(Checksum(data), 4);
    assert Pow256(4) == 0x1_0000_0000;
    LeBytesValue(|data|, 4);
  }

  lemma Slices(a: seq<byte>, b: seq<byte>, c: seq<byte>, d: seq<byte>)
    requires |a| == |b| == 4
    ensures var s := a + b + c + d;
      s[0..4] == a && s[4..8] == b && s[8..8 + |c|] == c && s[8 + |c|..] == d
  {
  }

  /** A stream whose fields agree begins with a frame. */
  lemma WireOf(input: seq<byte>, data: seq<byte>)
    requires 8 + |data| <= |input| && input[8..8 + |data|] == data && LeValue(input[4..8]) == |data|
    requires LeValue(input[0..4]) == Adler32Of(1, input[4..8] + data)
    ensures input == Wire(data) + input[8 + |data|..]
  {
    hide LeBytes, LeValue, Adler32Of;
    LeValueBytes(input[0..4]);
    LeValueBytes(input[4..8]);
    assert LeBytes(|data|, 4) == input[4..8];
    assert LeBytes(Checksum(data), 4) == input[0..4];
    assert input == input[0..4] + input[4..8] + input[8..8 + |data|] + input[8 + |data|..];
  }

  /** Every frame of at most 4 MB that is written is read back, however the stream goes on; a longer one is
      refused. */
  method RoundTrip(data: seq<byte>, rest: seq<byte>) returns (r: Received)
    requires 4 <= |data| < 0x1_0000_0000
    ensures |data| <= MAX_FRAME ==> r == Got(data, rest)
    ensures |data| > MAX_FRAME ==> r.Fail?
  {
    var wire := SendFrame(data);
    r := ReceiveFrame(wire + rest);
    if r.Got? && |data| > MAX_FRAME {
      SameLength(data, rest, r.data, r.rest);
    }
  }

  lemma SameLength(d1: seq<byte>, r1: seq<byte>, d2: seq<byte>, r2: seq<byte>)
    requires |d1| < 0x1_0000_0000 && |d2| < 0x1_0000_0000 && Wire(d1) + r1 == Wire(d2) + r2
    ensures |d1| == |d2|
  {
    hide LeBytes, LeValue, Adler32Of;
    assert (Wire(d1) + r1)[4..8] == LeBytes(|d1|, 4);
    assert (Wire(d2) + r2)[4..8] == LeBytes(|d2|, 4);
    assert Pow256(4) == 0x1_0000_0000;
    LeBytesValue(|d1|, 4);
    LeBytesValue(|d2|, 4);
  }

  /** One data byte corrupted in transit is always noticed. */
  method CorruptByte(x: seq<byte>, b: byte, c: byte, y: seq<byte>, rest: seq<byte>) returns (r: Received)
    requires b != c && |x| + 1 + |y| <= MAX_FRAME
    ensures r.Fail?
  {
    hide LeBytes, LeValue, Adler32Of;
    var sent, got := x + [b] + y, x + [c] + y;
    var wire := Wire(sent)[..8] + got + rest;
    r := ReceiveFrame(wire);
    ChecksumFits(sent);
    OneByteNoticed(1, LeBytes(|sent|, 4) + x, b, c, y);
    assert LeBytes(|sent|, 4) + x + [b] + y == LeBytes(|sent|, 4) + sent;
    assert LeBytes(|sent|, 4) + x + [c] + y == LeBytes(|sent|, 4) + got;
    if r.Got? {
      Mismatch(sent, got, rest, r.data, r.rest);
    }
  }

  /** Two neighbouring data bytes exchanged in transit are always noticed. */
  method CorruptOrder(x: seq<byte>, b: byte, c: byte, y: seq<byte>, rest: seq<byte>) returns (r: Received)
    requires b != c && |x| + 2 + |y| <= MAX_FRAME
    ensures r.Fail?
  {
    hide LeBytes, LeValue, Adler32Of;
    var sent, got := x + [b, c] + y, x + [c, b] + y;
    var wire := Wire(sent)[..8] + got + rest;
    r := ReceiveFrame(wire);
    ChecksumFits(sent);
    ExchangeNoticed(1, LeBytes(|sent|, 4) + x, b, c, y);
    assert LeBytes(|sent|, 4) + x + [b, c] + y == LeBytes(|sent|, 4) + sent;
    assert LeBytes(|sent|, 4) + x + [c, b] + y == LeBytes(|sent|, 4) + got;
    if r.Got? {
      Mismatch(sent, got, rest, r.data, r.rest);
    }
  }

  /** Data under a header made for other data of the same length is accepted only if the checksums agree. */
  lemma Mismatch(sent: seq<byte>, got: seq<byte>, rest: seq<byte>, data: seq<byte>, tail: seq<byte>)
    requires |sent| == |got| <= MAX_FRAME && |data| <= MAX_FRAME
    requires Wire(sent)[..8] + got + rest == Wire(data) + tail
    ensures Checksum(sent) == Checksum(got)
  {
    hide LeBytes, LeValue, Adler32Of;
    WireFields(data, tail);
    WireFields(sent, []);
    var input := Wire(data) + tail;
    assert (Wire(sent) + [])[0..4] == input[0..4];
    assert (Wire(sent) + [])[4..8] == input[4..8];
    assert input[8..8 + |data|] == got;
  }
}
