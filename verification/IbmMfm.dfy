/** The MFM coding of IBM tracks (adf/ibm_sectors.cpp): every data bit behind its clock bit. */
module IbmMfm {
  import opened BitStreams
  import opened ClockRule

  /** Four data bits, in the data positions of a byte. */
  function Spread(x: bv8): bv8 {
    ((x & 8) << 3) | ((x & 4) << 2) | ((x & 2) << 1) | (x & 1)
  }

  /** The two bytes that encode b behind a byte that ends in the lowest bit of `last`. */
  function MfmPair(last: bv8, b: bv8): (r: seq<bv8>)
    ensures |r| == 2
  {
    [WithClocks(last, Spread(b >> 4)), WithClocks(b >> 4, Spread(b & 0xF))]
  }

  function MfmOf(last: bv8, data: seq<bv8>): (r: seq<bv8>)
    ensures |r| == 2 * |data|
  {
    if data == [] then [] else
      MfmOf(last, data[..|data| - 1]) + MfmPair(if |data| == 1 then last else data[|data| - 2], data[|data| - 1])
  }

  lemma {:induction false} PairEnds(last: bv8, b: bv8)
    ensures MfmPair(last, b)[1] & 1 == b & 1
  {
  }

  lemma {:induction false} PairNoGap(last: bv8, prev: bv8, b: bv8)
    requires prev & 1 == last & 1
    ensures NoGap(prev, MfmPair(last, b)[0]) && NoGap(MfmPair(last, b)[0], MfmPair(last, b)[1])
  {
    FirstOfPair(last, prev, b);
    SecondOfPair(last, b);
  }

  lemma {:induction false} FirstOfPair(last: bv8, prev: bv8, b: bv8)
    requires prev & 1 == last & 1
    ensures NoGap(prev, WithClocks(last, Spread(b >> 4)))
  {
  }

  lemma {:induction false} SecondOfPair(last: bv8, b: bv8)
    ensures NoGap(WithClocks(last, Spread(b >> 4)), WithClocks(b >> 4, Spread(b & 0xF)))
  {
  }

  /** Only the lowest bit of what comes before matters. */
  lemma {:induction false} SameLast(last: bv8, prev: bv8, b: bv8)
    requires prev & 1 == last & 1
    ensures MfmPair(last, b) == MfmPair(prev, b)
  {
  }

  lemma {:induction false} MfmSameLast(last: bv8, prev: bv8, data: seq<bv8>)
    requires prev & 1 == last & 1
    ensures MfmOf(last, data) == MfmOf(prev, data)
  {
    hide MfmPair;
    if data != [] {
      MfmSameLast(last, prev, data[..|data| - 1]);
      SameLast(last, prev, data[|data| - 1]);
    }
  }

  /** Byte k of the data is in bytes 2k and 2k + 1. */
  lemma {:induction false} MfmAt(last: bv8, data: seq<bv8>, k: nat)
    requires k < |data|
    ensures MfmOf(last, data)[2 * k..2 * k + 2] == MfmPair(if k == 0 then last else data[k - 1], data[k])
  {
    hide MfmPair;
    var d := data[..|data| - 1];
    if k < |d| {
      MfmAt(last, d, k);
      assert MfmOf(last, data)[2 * k..2 * k + 2] == MfmOf(last, d)[2 * k..2 * k + 2];
    }
  }

  /** Within encoded data, and where it meets what comes before, the clock rule holds. */
  lemma {:induction false} MfmNoGap(last: bv8, prev: bv8, data: seq<bv8>, j: nat)
    requires prev & 1 == last & 1 && j < 2 * |data|
    ensures NoGap(if j == 0 then prev else MfmOf(last, data)[j - 1], MfmOf(last, data)[j])
  {
    hide MfmPair, NoGap, MfmOf;
    var k, x := j / 2, MfmOf(last, data);
    MfmAt(last, data, k);
    var before := if k == 0 then last else data[k - 1];
    var pair := MfmPair(before, data[k]);
    assert x[2 * k] == x[2 * k..2 * k + 2][0] == pair[0] && x[2 * k + 1] == x[2 * k..2 * k + 2][1] == pair[1];
    if j == 2 * k {
      if k > 0 {
        MfmAt(last, data, k - 1);
        var b := if k == 1 then last else data[k - 2];
        assert x[j - 1] == x[2 * (k - 1)..2 * (k - 1) + 2][1];
        PairEnds(b, data[k - 1]);
      }
      PairNoGap(before, if j == 0 then prev else x[j - 1], data[k]);
    } else {
      PairNoGap(before, before, data[k]);
    }
  }

  lemma {:induction false} MfmEnds(last: bv8, data: seq<bv8>)
    requires data != []
    ensures MfmOf(last, data)[2 * |data| - 1] & 1 == data[|data| - 1] & 1
  {
    hide MfmPair;
    PairEnds(if |data| == 1 then last else data[|data| - 2], data[|data| - 1]);
  }

  // ---------------------------------------------------------------------
  // Encoding

  function NibbleStep(output: bv8, lastBit: bool, bit: bool): bv8 {
    (output << 2) | (if bit then 1 else if lastBit then 0 else 2)
  }

  lemma {:induction false} FourSteps(g: bv8, last: bv8, x: bv8)
    ensures var b3, b2, b1, b0 := x & 8 != 0, x & 4 != 0, x & 2 != 0, x & 1 != 0;
            NibbleStep(NibbleStep(NibbleStep(NibbleStep(g, last & 1 != 0, b3), b3, b2), b2, b1), b1, b0) == WithClocks(last, Spread(x))
  {
  }

  function LastOf(last: bool, byte: bv8, n: nat): bool
    requires n <= 4
  {
    if n == 0 then last else BitOf(byte, n - 1)
  }

  function PartNibble(g: bv8, last: bool, byte: bv8, n: nat): bv8
    requires n <= 4
  {
    if n == 0 then g else NibbleStep(PartNibble(g, last, byte, n - 1), LastOf(last, byte, n - 1), BitOf(byte, n - 1))
  }

  lemma {:induction false} PartNext(g: bv8, last: bool, byte: bv8, n: nat)
    requires n < 4
    ensures PartNibble(g, last, byte, n + 1) == NibbleStep(PartNibble(g, last, byte, n), LastOf(last, byte, n), BitOf(byte, n))
    ensures PartNibble(g, last, byte, 0) == g && LastOf(last, byte, 0) == last && LastOf(last, byte, n + 1) == BitOf(byte, n)
  {
  }

  lemma {:induction false} UpperBits(byte: bv8)
    ensures var x := byte >> 4;
            && BitOf(byte, 0) == (x & 8 != 0) && BitOf(byte, 1) == (x & 4 != 0)
            && BitOf(byte, 2) == (x & 2 != 0) && BitOf(byte, 3) == (x & 1 != 0)
  {
    BitTable(byte);
  }

  lemma {:induction false} WholeNibble(g: bv8, last: bv8, byte: bv8)
    ensures PartNibble(g, last & 1 != 0, byte, 4) == WithClocks(last, Spread(byte >> 4))
  {
    hide NibbleStep, BitOf, Spread, WithClocks;
    UpperBits(byte);
    FourSteps(g, last, byte >> 4);
    hide PartNibble;
    PartNext(g, last & 1 != 0, byte, 0);
    PartNext(g, last & 1 != 0, byte, 1);
    PartNext(g, last & 1 != 0, byte, 2);
    PartNext(g, last & 1 != 0, byte, 3);
  }

  function Shl(byte: bv8, n: nat): bv8 {
    if n == 0 then byte else Shl(byte, n - 1) << 1
  }

  lemma {:induction false} NextBit(byte: bv8, n: nat)
    requires n < 4
    ensures (Shl(byte, n) & 0x80 != 0) == BitOf(byte, n)
    ensures Shl(byte, n + 1) == Shl(byte, n) << 1 && Shl(byte, 0) == byte && Shl(byte, 4) == byte << 4
  {
    BitTable(byte);
    assert Shl(byte, 1) == byte << 1;
    assert Shl(byte, 2) == Shl(byte, 1) << 1;
    assert Shl(byte, 3) == Shl(byte, 2) << 1;
    assert Shl(byte, 4) == Shl(byte, 3) << 1;
    if n == 0 {} else if n == 1 {} else if n == 2 {} else {}
  }

  /** Encodes the upper four bits of a byte. */
  method EncodeNibble(byte0: bv8, last: bv8, garbage: bv8) returns (output: bv8, byte: bv8, lastBit: bool)
    ensures output == WithClocks(last, Spread(byte0 >> 4))
    ensures byte == byte0 << 4 && lastBit == BitOf(byte0, 3)
  {
    hide NibbleStep, BitOf, Spread, WithClocks, Shl, PartNibble, LastOf;
    NextBit(byte0, 0);
    output, byte, lastBit := garbage, byte0, last & 1 != 0;
    ghost var first := lastBit;
    PartNext(garbage, first, byte0, 0);
    for bit := 0 to 4
      invariant output == PartNibble(garbage, first, byte0, bit)
      invariant byte == Shl(byte0, bit) && lastBit == LastOf(first, byte0, bit)
    {
      NextBit(byte0, bit);
      PartNext(garbage, first, byte0, bit);
      var one := byte & 0x80 != 0;
      output := NibbleStep(output, lastBit, one);
      lastBit := one;
      byte := byte << 1;
    }
    PartNext(garbage, first, byte0, 3);
    WholeNibble(garbage, last, byte0);
  }

  lemma {:induction false} LowerNibble(byte: bv8)
    ensures (byte << 4) >> 4 == byte & 0xF
    ensures (if BitOf(byte, 3) then 1 as bv8 else 0) & 1 == (byte >> 4) & 1
    ensures BitOf(byte << 4, 3) == (byte & 1 != 0)
  {
    BitTable(byte);
    BitTable(byte << 4);
  }

  /** Encodes one byte into two. */
  method EncodeByte(byte: bv8, last: bv8) returns (hi: bv8, lo: bv8)
    ensures [hi, lo] == MfmPair(last, byte)
  {
    hide Spread, WithClocks, BitOf;
    var garbage := *;
    var rest, lastBit;
    hi, rest, lastBit := EncodeNibble(byte, last, garbage);
    garbage := *;
    LowerNibble(byte);
    var lastByte: bv8 := if lastBit then 1 else 0;
    lo, rest, lastBit := EncodeNibble(rest, lastByte, garbage);
    ClocksSameLast(lastByte, byte >> 4, Spread(byte & 0xF));
  }

  lemma {:induction false} ClocksSameLast(last: bv8, prev: bv8, x: bv8)
    requires prev & 1 == last & 1
    ensures WithClocks(last, x) == WithClocks(prev, x)
  {
  }

  /** Encodes data into memory up to memOverflow; returns how many bytes were written. */
  method EncodeMFMdata(input: seq<bv8>, memory: array<bv8>, mem: nat, lastByte: bv8, memOverflow: nat)
    returns (written: nat, last: bv8)
    requires input != [] && mem <= memOverflow <= memory.Length
    modifies memory
    ensures forall i :: 0 <= i < memory.Length && !(mem <= i < memOverflow) ==> memory[i] == old(memory[i])
    ensures written <= memOverflow - mem
    ensures mem + 2 * |input| <= memOverflow ==>
              written == 2 * |input| && last == input[|input| - 1] && memory[mem..mem + written] == MfmOf(lastByte, input)
  {
    hide MfmPair;
    var output := mem;
    last := lastByte;
    var b := 0;
    while b < |input|
      invariant 0 <= b <= |input| && output == mem + 2 * b <= memOverflow
      invariant last == if b == 0 then lastByte else input[b - 1]
      invariant forall i :: 0 <= i < memory.Length && !(mem <= i < memOverflow) ==> memory[i] == old(memory[i])
      invariant memory[mem..output] == MfmOf(lastByte, input[..b])
    {
      if output >= memOverflow {
        return if b > 1 then (b - 1) * 2 else 0, lastByte;
      }
      var hi, lo := EncodeByte(input[b], last);
      ghost var done := memory[mem..output];
      memory[output] := hi;
      if output + 1 >= memOverflow {
        return b * 2, lastByte;
      }
      memory[output + 1] := lo;
      assert memory[mem..output] == done;
      assert memory[mem..output + 2] == done + [hi, lo];
      assert input[..b + 1][..b] == input[..b];
      output := output + 2;
      last := input[b];
      b := b + 1;
    }
    assert input[..b] == input;
    written := 2 * |input|;
  }

  /** Writes a value that is encoded already, its clock bit adapted to what comes before. */
  method WriteRawMFM(memory: array<bv8>, mem: nat, size: nat, value: bv8, lastByte: bv8, memOverflow: nat)
    returns (written: nat, last: bv8)
    requires mem <= memOverflow <= memory.Length && 0 < size
    modifies memory
    ensures forall i :: 0 <= i < memory.Length && !(mem <= i < memOverflow) ==> memory[i] == old(memory[i])
    ensures written <= memOverflow - mem
    ensures mem + size <= memOverflow ==>
              written == size && last == value && memory[mem..mem + written] == RawOf(lastByte, value, size)
  {
    if mem >= memOverflow {
      return 0, lastByte;
    }
    memory[mem] := if lastByte & 1 != 0 && value & 0x80 != 0 then value & 0x7F else value;
    var i := 1;
    while i < size
      invariant 1 <= i <= size && mem + i <= memOverflow
      invariant memory[mem] == RawOf(lastByte, value, size)[0]
      invariant forall k :: mem + 1 <= k < mem + i ==> memory[k] == value
      invariant forall k :: 0 <= k < memory.Length && !(mem <= k < memOverflow) ==> memory[k] == old(memory[k])
    {
      if mem + i >= memOverflow {
        return i, lastByte;
      }
      memory[mem + i] := value;
      i := i + 1;
    }
    written, last := size, value;
  }

  function RawOf(lastByte: bv8, value: bv8, size: nat): (r: seq<bv8>)
    requires size > 0
    ensures |r| == size
  {
    [if lastByte & 1 != 0 && value & 0x80 != 0 then value & 0x7F else value] + seq(size - 1, i => value)
  }

  // ---------------------------------------------------------------------
  // Decoding

  /** The data bits of two bytes. */
  function DataOf(hi: bv8, lo: bv8): bv8 {
    Pack(BitOf(hi, 1), BitOf(hi, 3), BitOf(hi, 5), BitOf(hi, 7), BitOf(lo, 1), BitOf(lo, 3), BitOf(lo, 5), BitOf(lo, 7))
  }

  lemma {:induction false} PairData(last: bv8, b: bv8)
    ensures DataOf(MfmPair(last, b)[0], MfmPair(last, b)[1]) == b
  {
    var hi, lo := MfmPair(last, b)[0], MfmPair(last, b)[1];
    BitTable(hi);
    BitTable(lo);
    PairBits(last, b);
  }

  lemma {:induction false} PairBits(last: bv8, b: bv8)
    ensures var hi, lo := WithClocks(last, Spread(b >> 4)), WithClocks(b >> 4, Spread(b & 0xF));
            Pack(hi & 0x40 != 0, hi & 0x10 != 0, hi & 0x04 != 0, hi & 0x01 != 0, lo & 0x40 != 0, lo & 0x10 != 0, lo & 0x04 != 0, lo & 0x01 != 0) == b
  {
    HalfBits(last, b >> 4);
    HalfBits(b >> 4, b & 0xF);
    Nibbles(b);
  }

  lemma {:induction false} HalfBits(last: bv8, x: bv8)
    ensures var h := WithClocks(last, Spread(x));
            && (h & 0x40 != 0) == (x & 8 != 0) && (h & 0x10 != 0) == (x & 4 != 0)
            && (h & 0x04 != 0) == (x & 2 != 0) && (h & 0x01 != 0) == (x & 1 != 0)
  {
  }

  lemma {:induction false} Nibbles(b: bv8)
    ensures Pack((b >> 4) & 8 != 0, (b >> 4) & 4 != 0, (b >> 4) & 2 != 0, (b >> 4) & 1 != 0,
                 (b & 0xF) & 8 != 0, (b & 0xF) & 4 != 0, (b & 0xF) & 2 != 0, (b & 0xF) & 1 != 0) == b
  {
  }
}
