/** The odd/even MFM coding of Amiga tracks (adf/amiga_sectors.cpp): data bits in the even bit
    positions of each byte, checksums over 32-bit longs. */
module AmigaMfm {
  const MFM_MASK: bv32 := 0x5555_5555

  /** The long stored at a byte offset (the byte order does not matter). */
  function LongAt(s: seq<bv8>, at: nat): bv32
    requires at + 4 <= |s|
  {
    Long(s[at], s[at + 1], s[at + 2], s[at + 3])
  }

  function Long(a: bv8, b: bv8, c: bv8, d: bv8): bv32 {
    (a as bv32) | ((b as bv32) << 8) | ((c as bv32) << 16) | ((d as bv32) << 24)
  }

  function Bytes(x: bv32): (r: seq<bv8>)
    ensures |r| == 4
  {
    [(x & 0xFF) as bv8, ((x >> 8) & 0xFF) as bv8, ((x >> 16) & 0xFF) as bv8, (x >> 24) as bv8]
  }

  lemma {:induction false} BytesLong(x: bv32)
    ensures LongAt(Bytes(x), 0) == x
  {
  }

  function Even(b: bv8): bv8 {
    b & 0x55
  }

  function Odd(b: bv8): bv8 {
    (b >> 1) & 0x55
  }

  function Join(odd: bv8, even: bv8): bv8 {
    (even & 0x55) | ((odd & 0x55) << 1)
  }

  function EvenLong(x: bv32): bv32 {
    x & MFM_MASK
  }

  function OddLong(x: bv32): bv32 {
    (x >> 1) & MFM_MASK
  }

  function JoinLong(odd: bv32, even: bv32): bv32 {
    (even & MFM_MASK) | ((odd & MFM_MASK) << 1)
  }

  function Xor(x: bv32, y: bv32): bv32 {
    x ^ y
  }

  /** Masking and shifting a long masks and shifts each of its bytes. */
  lemma {:induction false} LongHalves(a: bv8, b: bv8, c: bv8, d: bv8)
    ensures Bytes(EvenLong(Long(a, b, c, d))) == [Even(a), Even(b), Even(c), Even(d)]
    ensures Bytes(OddLong(Long(a, b, c, d))) == [Odd(a), Odd(b), Odd(c), Odd(d)]
  {
  }

  lemma {:induction false} LongJoin(a: bv8, b: bv8, c: bv8, d: bv8, e: bv8, f: bv8, g: bv8, h: bv8)
    ensures Bytes(JoinLong(Long(a, b, c, d), Long(e, f, g, h))) == [Join(a, e), Join(b, f), Join(c, g), Join(d, h)]
  {
  }

  lemma {:induction false} JoinHalves(b: bv8, odd: bv8, even: bv8)
    requires odd & 0x55 == Odd(b) && even & 0x55 == Even(b)
    ensures Join(odd, even) == b
  {
  }

  // ---------------------------------------------------------------------
  // Whole buffers

  /** The MFM data bits of a buffer: all odd halves, then all even halves. */
  function Encoded(data: seq<bv8>): (r: seq<bv8>)
    ensures |r| == 2 * |data| && (|data| % 4 == 0 ==> |r| % 4 == 0)
  {
    seq(|data|, i requires 0 <= i < |data| => Odd(data[i])) + seq(|data|, i requires 0 <= i < |data| => Even(data[i]))
  }

  function Decoded(raw: seq<bv8>): (r: seq<bv8>)
    requires |raw| % 2 == 0
    ensures |r| == |raw| / 2
  {
    seq(|raw| / 2, i requires 0 <= i < |raw| / 2 => Join(raw[i], raw[|raw| / 2 + i]))
  }

  function XorLongs(raw: seq<bv8>, n: nat): bv32
    requires 4 * n <= |raw|
  {
    if n == 0 then 0 else Xor(XorLongs(raw, n - 1), LongAt(raw, 4 * (n - 1)))
  }

  function Checksum(raw: seq<bv8>): bv32
    requires |raw| % 4 == 0
  {
    EvenLong(XorLongs(raw, |raw| / 4))
  }

  /** The two buffers differ in clock bits at most. */
  ghost predicate SameData(x: seq<bv8>, y: seq<bv8>) {
    |x| == |y| && forall i :: 0 <= i < |x| ==> Even(x[i]) == Even(y[i])
  }

  lemma {:induction false} EvenTwice(b: bv8)
    ensures Even(Even(b)) == Even(b) && Even(Odd(b)) == Odd(b)
  {
  }

  /** Whatever the clock bits are, decoding gives back what was encoded. */
  lemma {:induction false} DecodedEncoded(data: seq<bv8>, raw: seq<bv8>)
    requires SameData(raw, Encoded(data))
    ensures Decoded(raw) == data
  {
    forall i | 0 <= i < |data|
      ensures Decoded(raw)[i] == data[i]
    {
      assert Even(raw[i]) == Even(Encoded(data)[i]) && Even(raw[|data| + i]) == Even(Encoded(data)[|data| + i]);
      EvenTwice(data[i]);
      JoinHalves(data[i], raw[i], raw[|data| + i]);
    }
  }

  lemma {:induction false} MaskedLong(a: bv8, b: bv8, c: bv8, d: bv8, a': bv8, b': bv8, c': bv8, d': bv8)
    requires Even(a) == Even(a') && Even(b) == Even(b') && Even(c) == Even(c') && Even(d) == Even(d')
    ensures EvenLong(Long(a, b, c, d)) == EvenLong(Long(a', b', c', d'))
  {
  }

  lemma {:induction false} MaskedXor(x: bv32, y: bv32, x': bv32, y': bv32)
    requires EvenLong(x) == EvenLong(x') && EvenLong(y) == EvenLong(y')
    ensures EvenLong(Xor(x, y)) == EvenLong(Xor(x', y'))
  {
  }

  lemma {:induction false} XorSame(x: seq<bv8>, y: seq<bv8>, n: nat)
    requires SameData(x, y) && 4 * n <= |x|
    ensures EvenLong(XorLongs(x, n)) == EvenLong(XorLongs(y, n))
  {
    hide EvenLong, Xor, Long, Even;
    if n > 0 {
      XorSame(x, y, n - 1);
      var k := 4 * (n - 1);
      MaskedLong(x[k], x[k + 1], x[k + 2], x[k + 3], y[k], y[k + 1], y[k + 2], y[k + 3]);
      MaskedXor(XorLongs(x, n - 1), LongAt(x, k), XorLongs(y, n - 1), LongAt(y, k));
    }
  }

  /** Clock bits do not count in a checksum. */
  lemma {:induction false} ChecksumSame(x: seq<bv8>, y: seq<bv8>)
    requires SameData(x, y) && |x| % 4 == 0
    ensures Checksum(x) == Checksum(y)
  {
    XorSame(x, y, |x| / 4);
  }

  method WriteLong(output: array<bv8>, at: nat, x: bv32)
    requires at + 4 <= output.Length
    modifies output
    ensures forall i :: 0 <= i < output.Length ==> output[i] == if at <= i < at + 4 then Bytes(x)[i - at] else old(output[i])
  {
    var b := Bytes(x);
    output[at], output[at + 1], output[at + 2], output[at + 3] := b[0], b[1], b[2], b[3];
  }

  /** Writes the data bits of a buffer, without clock bits, and returns their checksum. */
  method EncodeMFMdata(input: seq<bv8>, output: array<bv8>, at: nat) returns (chksum: bv32)
    requires |input| % 4 == 0 && at + 2 * |input| <= output.Length
    modifies output
    ensures output[..] == old(output[..])[..at] + Encoded(input) + old(output[..])[at + 2 * |input|..]
    ensures chksum == Checksum(Encoded(input))
  {
    hide LongAt, EvenLong, Encoded, XorLongs;
    SplitHalves(input, output, at);
    assert output[..][at..at + 2 * |input|] == Encoded(input);
    chksum := XorOf(output[..], at, Encoded(input), |input| / 4);
    chksum := EvenLong(chksum);
  }

  /** The exclusive or of the longs of a buffer. */
  method XorOf(output: seq<bv8>, at: nat, ghost raw: seq<bv8>, n: nat) returns (chksum: bv32)
    requires |raw| == 8 * n && at + |raw| <= |output| && output[at..at + |raw|] == raw
    ensures chksum == XorLongs(raw, 2 * n)
  {
    hide LongAt, Xor;
    chksum := 0;
    var count := 0;
    while count < n * 2
      invariant 0 <= count <= n * 2 && chksum == XorLongs(raw, count)
    {
      SameLong(output, at, raw, 4 * count);
      chksum := Xor(chksum, LongAt(output, at + 4 * count));
      count := count + 1;
    }
  }

  lemma {:induction false} SameLong(s: seq<bv8>, at: nat, x: seq<bv8>, k: nat)
    requires at + |x| <= |s| && s[at..at + |x|] == x && k + 4 <= |x|
    ensures LongAt(s, at + k) == LongAt(x, k)
  {
    hide Long;
    assert s[at + k] == x[k] && s[at + k + 1] == x[k + 1] && s[at + k + 2] == x[k + 2] && s[at + k + 3] == x[k + 3];
  }

  lemma {:induction false} HalvesAt(s: seq<bv8>, k: nat)
    requires k + 4 <= |s|
    ensures forall j :: 0 <= j < 4 ==> Bytes(EvenLong(LongAt(s, k)))[j] == Even(s[k + j])
    ensures forall j :: 0 <= j < 4 ==> Bytes(OddLong(LongAt(s, k)))[j] == Odd(s[k + j])
  {
    hide Bytes, Even, Odd, OddLong, EvenLong, Long;
    LongHalves(s[k], s[k + 1], s[k + 2], s[k + 3]);
  }

  method SplitHalves(input: seq<bv8>, output: array<bv8>, at: nat)
    requires |input| % 4 == 0 && at + 2 * |input| <= output.Length
    modifies output
    ensures output[..] == old(output[..])[..at] + Encoded(input) + old(output[..])[at + 2 * |input|..]
  {
    hide Bytes, LongAt, Even, Odd, OddLong, EvenLong;
    var n := |input|;
    var count := 0;
    while count < n / 4
      invariant 0 <= count <= n / 4
      invariant forall i :: 0 <= i < output.Length && !(at <= i < at + 4 * count) && !(at + n <= i < at + n + 4 * count) ==> output[i] == old(output[i])
      invariant forall i :: at <= i < at + 4 * count ==> output[i] == Odd(input[i - at])
      invariant forall i :: at + n <= i < at + n + 4 * count ==> output[i] == Even(input[i - at - n])
    {
      var k := 4 * count;
      HalvesAt(input, k);
      WriteLong(output, at + n + k, EvenLong(LongAt(input, k)));
      WriteLong(output, at + k, OddLong(LongAt(input, k)));
      count := count + 1;
    }
  }

  /** Reads the data bits of a buffer of 2 * size bytes, and returns them and their checksum. */
  method DecodeMFMdata(input: seq<bv8>, at: nat, size: nat) returns (output: seq<bv8>, chksum: bv32)
    requires size % 4 == 0 && at + 2 * size <= |input|
    ensures output == Decoded(input[at..at + 2 * size])
    ensures chksum == Checksum(input[at..at + 2 * size])
  {
    hide Bytes, LongAt, JoinLong, EvenLong, Xor, Decoded;
    var raw := input[at..at + 2 * size];
    output, chksum := [], 0;
    var count := 0;
    assert output == Decoded(raw)[..0];
    while count < size / 4
      invariant 0 <= count <= size / 4 && output == Decoded(raw)[..4 * count]
      invariant chksum == PairXor(raw, size / 4, count)
    {
      var odd, even := LongAt(raw, 4 * count), LongAt(raw, 4 * count + size);
      chksum := Xor(chksum, odd);
      chksum := Xor(chksum, even);
      FourMore(raw, 4 * count);
      output := output + Bytes(JoinLong(odd, even));
      count := count + 1;
    }
    PairXorAll(raw, size / 4, size / 4);
    chksum := EvenLong(chksum);
  }

  lemma {:induction false} FourMore(raw: seq<bv8>, k: nat)
    requires |raw| % 2 == 0 && k + 4 <= |raw| / 2
    ensures Decoded(raw)[..k + 4] == Decoded(raw)[..k] + Bytes(JoinLong(LongAt(raw, k), LongAt(raw, |raw| / 2 + k)))
  {
    hide Join, Bytes, JoinLong, Long;
    var n := |raw| / 2;
    LongJoin(raw[k], raw[k + 1], raw[k + 2], raw[k + 3], raw[n + k], raw[n + k + 1], raw[n + k + 2], raw[n + k + 3]);
  }

  /** The checksum as it is summed up in pairs, an odd and an even long at a time. */
  function PairXor(raw: seq<bv8>, n: nat, k: nat): bv32
    requires k <= n && 8 * n <= |raw|
  {
    if k == 0 then 0 else Xor(Xor(PairXor(raw, n, k - 1), LongAt(raw, 4 * (k - 1))), LongAt(raw, 4 * n + 4 * (k - 1)))
  }

  function XorFrom(raw: seq<bv8>, from: nat, k: nat): bv32
    requires 4 * (from + k) <= |raw|
  {
    if k == 0 then 0 else Xor(XorFrom(raw, from, k - 1), LongAt(raw, 4 * (from + k - 1)))
  }

  lemma {:induction false} XorAssoc(a: bv32, b: bv32, c: bv32)
    ensures Xor(a, Xor(b, c)) == Xor(Xor(a, b), c)
  {
  }

  lemma {:induction false} XorComm(a: bv32, b: bv32)
    ensures Xor(a, b) == Xor(b, a) && Xor(a, 0) == a
  {
  }

  lemma {:induction false} XorTwist(a: bv32, b: bv32, x: bv32, y: bv32)
    ensures Xor(Xor(Xor(a, b), x), y) == Xor(Xor(a, x), Xor(b, y)) && Xor(a, Xor(b, x)) == Xor(Xor(a, b), x) && Xor(a, 0) == a
  {
    hide Xor;
    XorAssoc(a, b, x);
    XorComm(b, x);
    XorAssoc(a, x, b);
    XorAssoc(Xor(a, x), b, y);
    XorComm(a, 0);
  }

  lemma {:induction false} XorSplit(raw: seq<bv8>, n: nat, k: nat)
    requires 4 * (n + k) <= |raw|
    ensures XorLongs(raw, n + k) == Xor(XorLongs(raw, n), XorFrom(raw, n, k))
  {
    hide Xor, Long;
    if k > 0 {
      XorSplit(raw, n, k - 1);
      XorTwist(XorLongs(raw, n), XorFrom(raw, n, k - 1), LongAt(raw, 4 * (n + k - 1)), 0);
    } else {
      XorTwist(XorLongs(raw, n), 0, 0, 0);
    }
  }

  lemma {:induction false} PairXorParts(raw: seq<bv8>, n: nat, k: nat)
    requires k <= n && 8 * n <= |raw|
    ensures PairXor(raw, n, k) == Xor(XorLongs(raw, k), XorFrom(raw, n, k))
  {
    hide Xor, Long;
    if k == 0 {
      XorTwist(0, 0, 0, 0);
    } else {
      PairXorParts(raw, n, k - 1);
      XorTwist(XorLongs(raw, k - 1), XorFrom(raw, n, k - 1), LongAt(raw, 4 * (k - 1)), LongAt(raw, 4 * (n + k - 1)));
    }
  }

  /** The order in which the longs are summed up does not matter. */
  lemma {:induction false} PairXorAll(raw: seq<bv8>, n: nat, k: nat)
    requires k == n && |raw| == 8 * n
    ensures PairXor(raw, n, k) == XorLongs(raw, 2 * n)
  {
    PairXorParts(raw, n, n);
    XorSplit(raw, n, n);
  }
}
