/** The clock rule of MFM: a clock bit is set if the data bits on both sides of it are zero. */
module ClockRule {
  import opened BitStreams

  /** A byte of data bits with a clock bit wherever both neighbours are zero. */
  function WithClocks(prev: bv8, b: bv8): bv8 {
    b | (!((b << 1) | (b >> 1) | ((prev & 1) << 7)) & 0xAA)
  }

  /** Every clock bit of b is set, or one of its neighbours is. */
  predicate NoGap(prev: bv8, b: bv8) {
    (b | (b << 1) | (b >> 1) | ((prev & 1) << 7)) & 0xAA == 0xAA
  }

  lemma {:induction false} ClockedNoGap(p: bv8, prev: bv8, b: bv8)
    ensures NoGap(WithClocks(p, prev), WithClocks(prev, b))
  {
  }

  /** The bits at a position and on both sides of it are zero. */
  ghost predicate Gap(s: seq<bool>, p: nat)
    requires |s| > 0
  {
    p > 0 && !BitAt(s, p - 1) && !BitAt(s, p) && !BitAt(s, p + 1)
  }

  lemma {:induction false} NoGapBits(prev: bv8, b: bv8)
    requires NoGap(prev, b)
    ensures BitOf(prev, 7) || BitOf(b, 0) || BitOf(b, 1)
    ensures BitOf(b, 1) || BitOf(b, 2) || BitOf(b, 3)
    ensures BitOf(b, 3) || BitOf(b, 4) || BitOf(b, 5)
    ensures BitOf(b, 5) || BitOf(b, 6) || BitOf(b, 7)
  {
    BitTable(prev);
    BitTable(b);
  }

  lemma {:induction false} SameBit(s: seq<bool>, a: nat, b: nat)
    requires |s| > 0 && a % |s| == b % |s|
    ensures BitAt(s, a) == BitAt(s, b)
  {
  }
}
