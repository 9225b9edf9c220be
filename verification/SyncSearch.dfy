/** The search pattern, two sync words, is found at the sync words of an Amiga track only. */
module SyncSearch {
  import opened AmigaFormat
  import opened AmigaSectors
  import opened AmigaRoundTrip
  import opened Arithmetic
  import opened BitStreams
  import opened ClockRule

  lemma {:induction false} SyncByteBits()
    ensures BitOf(0x89, 0) && BitOf(0x89, 4) && BitOf(0x89, 7) && BitOf(0x44, 1)
  {
    BitTable(0x89);
    BitTable(0x44);
  }

  /** The gap at p, moved to the first round of the ring, or to the second if it is right at the start. */
  lemma {:induction false} GapOnRing(s: seq<bool>, p: nat)
    requires |s| > 0 && Gap(s, p)
    ensures Gap(s, p % |s| + |s|)
  {
    hide BitAt;
    var n := |s|;
    var y := p % n;
    ModAdd(p, n - 1, n);
    ModOnce(p - 1, n);
    SameBit(s, y + n - 1, p - 1);
    ModAdd(p, n, n);
    ModOnce(p, n);
    SameBit(s, y + n, p);
    ModAdd(p, n + 1, n);
    ModOnce(p + 1, n);
    SameBit(s, y + n + 1, p + 1);
  }

  lemma {:induction false} RingByteBit(e: seq<bv8>, j: nat, m: nat)
    requires j < |e| && m < 8
    ensures BitAt(BitsOf(e), 8 * j + m + 8 * |e|) == BitOf(e[j], m)
  {
    hide BitAt, BitsOf, BitOf;
    BitOfBits(e, j, m);
    ModOnce(8 * j + m, 8 * |e|);
    SameBit(BitsOf(e), 8 * j + m + 8 * |e|, 8 * j + m);
  }

  /** The last bit of the byte before byte j. */
  lemma {:induction false} BitBefore(e: seq<bv8>, j: nat)
    requires j < |e|
    ensures BitAt(BitsOf(e), 8 * j + 8 * |e| - 1) == BitOf(Prev(e, j), 7)
  {
    hide BitAt, BitsOf, BitOf;
    if j == 0 {
      BitOfBits(e, |e| - 1, 7);
    } else {
      RingByteBit(e, j - 1, 7);
    }
  }

  /** On a track a gap around a clock bit marks a sync word. */
  lemma {:induction false} GapPlace(e: seq<bv8>, start: nat, n: nat, y: nat)
    requires Layout(e, start, n) && y < 8 * |e| && y % 2 == 0 && Gap(BitsOf(e), y + 8 * |e|)
    ensures InSync(start, n, y / 8) && y % 8 == 2
  {
    hide BitAt, BitsOf, BitOf, NoGap, InSync;
    var j, m := y / 8, y % 8;
    BitBefore(e, j);
    RingByteBit(e, j, 0);
    RingByteBit(e, j, 1);
    RingByteBit(e, j, 2);
    RingByteBit(e, j, 3);
    RingByteBit(e, j, 4);
    RingByteBit(e, j, 5);
    RingByteBit(e, j, 6);
    RingByteBit(e, j, 7);
    if !InSync(start, n, j) {
      NoGapBits(Prev(e, j), e[j]);
    }
    SyncByteBits();
    assert m == 0 || m == 2 || m == 4 || m == 6;
  }

  /** Two gaps, 16 bits apart, around clock bits: the first is in a first sync word. */
  lemma {:induction false} TwoGaps(e: seq<bv8>, start: nat, n: nat, p: nat) returns (k: nat)
    requires Layout(e, start, n) && p % 2 == 0 && Gap(BitsOf(e), p) && Gap(BitsOf(e), p + 16)
    ensures k < n && p % (8 * |e|) == 8 * (start + RAW_SECTOR_SIZE * k + 5) + 2
  {
    hide BitAt, BitsOf, Gap, Layout, InSync;
    var s := BitsOf(e);
    LayoutSize(e, start, n);
    GapOnRing(s, p);
    EvenOnRing(p, 4 * |e|);
    var y := p % |s|;
    GapPlace(e, start, n, y);
    var j := y / 8;
    InSyncPlace(start, n, j);
    Inside(y, j, |e|);
    GapOnRing(s, p + 16);
    ModAdd(p, 16, |s|);
    ModSmall(y + 16, |s|);
    GapPlace(e, start, n, y + 16);
    k := (j - start) / RAW_SECTOR_SIZE;
    BothInSync(start, n, j);
  }

  lemma {:induction false} Inside(y: nat, j: nat, size: nat)
    requires j == y / 8 && y % 8 == 2 && j + 8 < size
    ensures y == 8 * j + 2 && y + 16 < 8 * size && (y + 16) / 8 == j + 2 && (y + 16) % 8 == 2 && (y + 16) % 2 == 0
  {
    assert y == 8 * j + 2;
    DivUnique(y + 16, 8, j + 2, 2);
    DivUnique(y + 16, 2, 4 * j + 9, 0);
  }

  lemma {:induction false} LayoutSize(e: seq<bv8>, start: nat, n: nat)
    requires Layout(e, start, n)
    ensures |e| == start + RAW_SECTOR_SIZE * n + 8 && start > 8
  {
    hide InSync, NoGap;
  }

  lemma {:induction false} EvenOnRing(p: nat, half: nat)
    requires half > 0
    ensures (p % (2 * half)) % 2 == p % 2
  {
    var n := 2 * half;
    var q := p / n;
    assert p == q * n + p % n;
    assert q * n == 2 * (q * half);
  }

  lemma {:induction false} InSyncPlace(start: nat, n: nat, j: nat)
    requires InSync(start, n, j)
    ensures start <= j && j + RAW_SECTOR_SIZE - 7 <= start + RAW_SECTOR_SIZE * n && (j - start) / RAW_SECTOR_SIZE < n
    ensures j == start + RAW_SECTOR_SIZE * ((j - start) / RAW_SECTOR_SIZE) + (j - start) % RAW_SECTOR_SIZE
  {
  }

  lemma {:induction false} BothInSync(start: nat, n: nat, j: nat)
    requires InSync(start, n, j) && InSync(start, n, j + 2)
    ensures (j - start) % RAW_SECTOR_SIZE == 5
    ensures j == start + RAW_SECTOR_SIZE * ((j - start) / RAW_SECTOR_SIZE) + 5
  {
  }

  // ---------------------------------------------------------------------

  /** The search pattern from bit p on, its first bit aside. */
  ghost predicate Pattern(s: seq<bool>, p: nat)
    requires |s| > 0
  {
    Gap(s, p + 3) && Gap(s, p + 10) && Gap(s, p + 19) && Gap(s, p + 26)
  }

  /** The search pattern is found nowhere but at a pair of sync words. */
  lemma {:induction false} OnlyAtSync(e: seq<bv8>, start: nat, n: nat, p: nat) returns (k: nat)
    requires Layout(e, start, n) && Pattern(BitsOf(e), p)
    ensures k < n && p % (8 * |e|) == 8 * (start + RAW_SECTOR_SIZE * k + 4)
  {
    hide BitAt, BitsOf, BitOf, Layout, Gap;
    var s := BitsOf(e);
    LayoutSize(e, start, n);
    if p % 2 == 0 {
      k := TwoGaps(e, start, n, p + 10);
      Back(p, 10, |s|);
    } else {
      k := TwoGaps(e, start, n, p + 3);
      Back(p, 3, |s|);
      NotOdd(e, start, n, p, k);
    }
  }

  lemma {:induction false} Back(p: nat, d: nat, n: nat)
    requires n > 0 && d <= (p + d) % n
    ensures p % n == (p + d) % n - d
  {
    var q, r := (p + d) / n, (p + d) % n;
    assert p + d == q * n + r;
    DivUnique(p, n, q, r - d);
  }

  /** The second sync word has a one where the pattern would need a gap. */
  lemma {:induction false} NotOdd(e: seq<bv8>, start: nat, n: nat, p: nat, k: nat)
    requires Layout(e, start, n) && k < n && p % (8 * |e|) == 8 * (start + RAW_SECTOR_SIZE * k + 4) + 7
    ensures !Gap(BitsOf(e), p + 10)
  {
    hide BitAt, BitsOf, BitOf, InSync, NoGap;
    var s, j := BitsOf(e), start + RAW_SECTOR_SIZE * k + 4;
    assert SyncAt(e, j);
    SyncByteBits();
    BitOfBits(e, j + 2, 1);
    ModAdd(p, 10, |s|);
    SameBit(s, p + 10, 8 * (j + 2) + 1);
  }

  /** The 16 bits of a sync word from bit p on. */
  ghost predicate SyncWord(s: seq<bool>, p: nat)
    requires |s| > 0
  {
    ByteAt(s, p) == 0x44 && ByteAt(s, p + 8) == 0x89
  }

  lemma {:induction false} PackedSync(b0: bool, b1: bool, b2: bool, b3: bool, b4: bool, b5: bool, b6: bool, b7: bool)
    ensures Pack(b0, b1, b2, b3, b4, b5, b6, b7) == 0x44 ==> !b2 && !b3 && !b4
    ensures Pack(b0, b1, b2, b3, b4, b5, b6, b7) == 0x89 ==> !b1 && !b2 && !b3
  {
  }

  /** Bits that obey the clock rule, clock bits at even places, contain no sync word, neither in step
      with the clock bits nor out of step. */
  lemma {:induction false} NoSyncWord(s: seq<bool>, p: nat)
    requires |s| > 0 && forall q: nat :: q % 2 == 0 ==> !Gap(s, q)
    ensures !SyncWord(s, p)
  {
    hide BitAt, Pack, Gap;
    if SyncWord(s, p) {
      SyncWordGaps(s, p);
    }
  }

  /** A sync word has one gap in each phase. */
  lemma {:induction false} SyncWordGaps(s: seq<bool>, p: nat)
    requires |s| > 0 && SyncWord(s, p)
    ensures Gap(s, p + 3) && Gap(s, p + 10)
  {
    hide BitAt, Pack;
    PackedSync(BitAt(s, p), BitAt(s, p + 1), BitAt(s, p + 2), BitAt(s, p + 3), BitAt(s, p + 4), BitAt(s, p + 5), BitAt(s, p + 6), BitAt(s, p + 7));
    PackedSync(BitAt(s, p + 8), BitAt(s, p + 9), BitAt(s, p + 10), BitAt(s, p + 11), BitAt(s, p + 12), BitAt(s, p + 13), BitAt(s, p + 14), BitAt(s, p + 15));
  }
}
