/** A track as a ring of bits, most significant bit of each byte first. */
module BitStreams {
  import opened Arithmetic

  /** Bit k of a byte, counted from the top. */
  function BitOf(b: bv8, k: nat): bool
    requires k < 8
  {
    b & ((1 as bv8) << (7 - k)) != 0
  }

  lemma {:induction false} BitTable(b: bv8)
    ensures BitOf(b, 0) == (b & 0x80 != 0) && BitOf(b, 1) == (b & 0x40 != 0)
    ensures BitOf(b, 2) == (b & 0x20 != 0) && BitOf(b, 3) == (b & 0x10 != 0)
    ensures BitOf(b, 4) == (b & 0x08 != 0) && BitOf(b, 5) == (b & 0x04 != 0)
    ensures BitOf(b, 6) == (b & 0x02 != 0) && BitOf(b, 7) == (b & 0x01 != 0)
  {
  }

  /** The bits of a byte buffer. */
  function BitsOf(bytes: seq<bv8>): (r: seq<bool>)
    ensures |r| == 8 * |bytes|
  {
    seq(8 * |bytes|, i requires 0 <= i < 8 * |bytes| => BitOf(bytes[i / 8], i % 8))
  }

  /** Bit p of the ring; before the start of the reading there are zeros. */
  function BitAt(t: seq<bool>, p: int): bool
    requires |t| > 0
  {
    p >= 0 && t[p % |t|]
  }

  function Flag(b: bool, x: bv8): bv8 {
    if b then x else 0
  }

  function Pack(b0: bool, b1: bool, b2: bool, b3: bool, b4: bool, b5: bool, b6: bool, b7: bool): bv8 {
    Flag(b0, 0x80) | Flag(b1, 0x40) | Flag(b2, 0x20) | Flag(b3, 0x10) | Flag(b4, 0x08) | Flag(b5, 0x04) | Flag(b6, 0x02) | Flag(b7, 0x01)
  }

  /** The eight bits from p on, as a byte. */
  function ByteAt(t: seq<bool>, p: int): bv8
    requires |t| > 0
  {
    Pack(BitAt(t, p), BitAt(t, p + 1), BitAt(t, p + 2), BitAt(t, p + 3),
         BitAt(t, p + 4), BitAt(t, p + 5), BitAt(t, p + 6), BitAt(t, p + 7))
  }

  function Word(a: bv8, b: bv8, c: bv8, d: bv8): bv32 {
    ((a as bv32) << 24) | ((b as bv32) << 16) | ((c as bv32) << 8) | (d as bv32)
  }

  /** The 32 bits from p on. */
  function WordAt(t: seq<bool>, p: int): bv32
    requires |t| > 0
  {
    Word(ByteAt(t, p), ByteAt(t, p + 8), ByteAt(t, p + 16), ByteAt(t, p + 24))
  }

  function Shifted(b: bv8, bit: bool): bv8 {
    (b << 1) | Flag(bit, 1)
  }

  /** The search register after one more bit. */
  function ShiftedWord(w: bv32, bit: bool): bv32 {
    (w << 1) | (if bit then 1 else 0)
  }

  function TopBit(b: bv8): bool {
    b & 0x80 != 0
  }

  lemma {:induction false} PackShift(b0: bool, b1: bool, b2: bool, b3: bool, b4: bool, b5: bool, b6: bool, b7: bool, b8: bool)
    ensures Pack(b1, b2, b3, b4, b5, b6, b7, b8) == Shifted(Pack(b0, b1, b2, b3, b4, b5, b6, b7), b8)
    ensures TopBit(Pack(b0, b1, b2, b3, b4, b5, b6, b7)) == b0
  {
  }

  lemma {:induction false} ByteShift(t: seq<bool>, p: int)
    requires |t| > 0
    ensures ByteAt(t, p + 1) == Shifted(ByteAt(t, p), BitAt(t, p + 8))
    ensures TopBit(ByteAt(t, p)) == BitAt(t, p)
  {
    hide BitAt, Pack, Flag, Shifted, TopBit;
    PackShift(BitAt(t, p), BitAt(t, p + 1), BitAt(t, p + 2), BitAt(t, p + 3), BitAt(t, p + 4),
              BitAt(t, p + 5), BitAt(t, p + 6), BitAt(t, p + 7), BitAt(t, p + 8));
  }

  function Carried(b: bv8, c: bv8): bv8 {
    (b << 1) | (c >> 7)
  }

  lemma {:induction false} CarryIn(b: bv8, c: bv8)
    ensures Shifted(b, TopBit(c)) == Carried(b, c) && Shifted(b, false) == Carried(b, 0)
  {
  }

  function Doubled(w: bv32): bv32 {
    w << 1
  }

  lemma {:induction false} CarriedWord(a: bv8, b: bv8, c: bv8, d: bv8)
    ensures Doubled(Word(a, b, c, d)) == Word((a << 1) | (b >> 7), (b << 1) | (c >> 7), (c << 1) | (d >> 7), d << 1)
  {
  }

  lemma {:induction false} CarriedBytes(b: bv8, c: bv8)
    ensures Carried(b, c) == (b << 1) | (c >> 7) && Carried(b, 0) == b << 1
  {
  }

  lemma {:induction false} ShiftedDoubled(w: bv32)
    ensures ShiftedWord(w, false) == Doubled(w)
  {
  }

  lemma {:induction false} DoubledWord(a: bv8, b: bv8, c: bv8, d: bv8)
    ensures Word(Shifted(a, TopBit(b)), Shifted(b, TopBit(c)), Shifted(c, TopBit(d)), Shifted(d, false)) == ShiftedWord(Word(a, b, c, d), false)
  {
    CarriedBytes(a, b);
    CarriedBytes(b, c);
    CarriedBytes(c, d);
    CarriedBytes(d, d);
    CarriedWord(a, b, c, d);
    hide Word, Shifted, TopBit, ShiftedWord, Carried, Doubled;
    ShiftedDoubled(Word(a, b, c, d));
    CarryIn(a, b);
    CarryIn(b, c);
    CarryIn(c, d);
    CarryIn(d, d);
  }

  lemma {:induction false} LastBit(a: bv8, b: bv8, c: bv8, d: bv8, w: bv32, x: bool)
    requires Word(a, b, c, Shifted(d, false)) == ShiftedWord(w, false)
    ensures Word(a, b, c, Shifted(d, x)) == ShiftedWord(w, x)
  {
  }

  lemma {:induction false} WordCarry(a: bv8, b: bv8, c: bv8, d: bv8, x: bool)
    ensures Word(Shifted(a, TopBit(b)), Shifted(b, TopBit(c)), Shifted(c, TopBit(d)), Shifted(d, x)) == ShiftedWord(Word(a, b, c, d), x)
  {
    hide Word, Shifted, TopBit, ShiftedWord;
    DoubledWord(a, b, c, d);
    LastBit(Shifted(a, TopBit(b)), Shifted(b, TopBit(c)), Shifted(c, TopBit(d)), d, Word(a, b, c, d), x);
  }

  /** Shifting in one more bit. */
  lemma {:induction false} WordShift(t: seq<bool>, p: int)
    requires |t| > 0
    ensures WordAt(t, p + 1) == ShiftedWord(WordAt(t, p), BitAt(t, p + 32))
  {
    hide Word, BitAt, ByteAt, Flag, Shifted, ShiftedWord, TopBit;
    ByteShift(t, p);
    ByteShift(t, p + 8);
    ByteShift(t, p + 16);
    ByteShift(t, p + 24);
    WordCarry(ByteAt(t, p), ByteAt(t, p + 8), ByteAt(t, p + 16), ByteAt(t, p + 24), BitAt(t, p + 32));
  }

  lemma {:induction false} BitOfBits(bytes: seq<bv8>, j: nat, k: nat)
    requires j < |bytes| && k < 8
    ensures BitAt(BitsOf(bytes), 8 * j + k) == BitOf(bytes[j], k)
  {
    var n := |BitsOf(bytes)|;
    DivUnique(8 * j + k, n, 0, 8 * j + k);
    DivUnique(8 * j + k, 8, j, k);
  }

  /** Reading bytes back from the bits of a buffer. */
  lemma {:induction false} ByteOfBits(bytes: seq<bv8>, j: nat)
    requires j < |bytes|
    ensures ByteAt(BitsOf(bytes), 8 * j) == bytes[j]
  {
    hide BitAt, BitsOf, BitOf, Pack;
    BitOfBits(bytes, j, 0);
    BitOfBits(bytes, j, 1);
    BitOfBits(bytes, j, 2);
    BitOfBits(bytes, j, 3);
    BitOfBits(bytes, j, 4);
    BitOfBits(bytes, j, 5);
    BitOfBits(bytes, j, 6);
    BitOfBits(bytes, j, 7);
    Unpacked(bytes[j]);
  }

  lemma {:induction false} Unpacked(b: bv8)
    ensures Pack(BitOf(b, 0), BitOf(b, 1), BitOf(b, 2), BitOf(b, 3), BitOf(b, 4), BitOf(b, 5), BitOf(b, 6), BitOf(b, 7)) == b
  {
    BitTable(b);
    FromBits(b);
  }

  lemma {:induction false} FromBits(b: bv8)
    ensures b == Pack(b & 0x80 != 0, b & 0x40 != 0, b & 0x20 != 0, b & 0x10 != 0, b & 0x08 != 0, b & 0x04 != 0, b & 0x02 != 0, b & 0x01 != 0)
  {
  }

  // ---------------------------------------------------------------------
  // Rotation

  /** t is s, read from bit r on, round and round. */
  ghost predicate Rotated(s: seq<bool>, r: nat, t: seq<bool>) {
    |t| == |s| && forall i :: 0 <= i < |t| ==> t[i] == s[(i + r) % |s|]
  }

  lemma {:induction false} RotatedBit(s: seq<bool>, r: nat, t: seq<bool>, p: nat)
    requires |s| > 0 && Rotated(s, r, t)
    ensures BitAt(t, p) == BitAt(s, p + r)
  {
    ModAdd(p, r, |s|);
  }

  lemma {:induction false} RotatedByte(s: seq<bool>, r: nat, t: seq<bool>, p: nat)
    requires |s| > 0 && Rotated(s, r, t) && |t| == |s|
    ensures ByteAt(t, p) == ByteAt(s, p + r)
  {
    hide BitAt, Rotated, Pack;
    RotatedBit(s, r, t, p);
    RotatedBit(s, r, t, p + 1);
    RotatedBit(s, r, t, p + 2);
    RotatedBit(s, r, t, p + 3);
    RotatedBit(s, r, t, p + 4);
    RotatedBit(s, r, t, p + 5);
    RotatedBit(s, r, t, p + 6);
    RotatedBit(s, r, t, p + 7);
  }

  // ---------------------------------------------------------------------
  // Reading a track

  /** A position on a ring of n bits. */
  function Ring(p: nat, n: nat): (r: nat)
    requires n > 0
    ensures r < n
  {
    p % n
  }

  lemma {:induction false} RingAdd(p: nat, d: nat, n: nat)
    requires n > 0
    ensures Ring(Ring(p, n) + d, n) == Ring(p + d, n)
  {
    ModAdd(p, d, n);
  }

  /** The bit of a track at a position, counted round and round. */
  lemma {:induction false} TrackBit(inTrack: seq<bv8>, n: nat, p: nat)
    requires 0 < n <= 8 * |inTrack|
    ensures var r := Ring(p, n);
            r / 8 < |inTrack| && BitAt(BitsOf(inTrack)[..n], p) == BitOf(inTrack[r / 8], r % 8)
  {
    hide BitOf;
    assert BitsOf(inTrack)[..n][p % n] == BitsOf(inTrack)[p % n];
  }

  lemma {:induction false} EightShifts(s: bv8, b0: bool, b1: bool, b2: bool, b3: bool, b4: bool, b5: bool, b6: bool, b7: bool)
    ensures Shifted(Shifted(Shifted(Shifted(Shifted(Shifted(Shifted(Shifted(s, b0), b1), b2), b3), b4), b5), b6), b7)
         == Pack(b0, b1, b2, b3, b4, b5, b6, b7)
  {
  }

  /** Trims a number to a byte. */
  function Byte(n: nat): bv8 {
    (n % 0x100) as bv8
  }

  lemma {:induction false} ByteValue(n: nat)
    requires n < 0x100
    ensures Byte(n) as nat == n
  {
    assert n % 0x100 == n;
  }
}
