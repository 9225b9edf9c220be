/** The search patterns of an IBM track are found at its marks only. */
module IbmMarks {
  import opened Arithmetic
  import opened BitStreams
  import opened ClockRule
  import opened IbmFormat
  import opened IbmSectors
  import opened IbmFinding

  datatype Mark = Mark(pos: nat, kind: Kind)

  /** Byte j is one that breaks the clock rule in this mark. */
  predicate Breaks(m: Mark, j: nat) {
    j >= m.pos && (j - m.pos == 1 || j - m.pos == 3 || j - m.pos == 5)
  }

  /** Where in such a byte the rule is broken. */
  function GapBit(k: Kind): nat {
    if k == TrackHeader then 0 else 2
  }

  ghost predicate Sorted(marks: seq<Mark>) {
    forall i, j :: 0 <= i < j < |marks| ==> marks[i].pos + 24 <= marks[j].pos
  }

  ghost predicate MarkHere(e: seq<bv8>, m: Mark) {
    24 <= m.pos && m.pos + 8 <= |e| && e[m.pos..m.pos + 8] == MarkBytes(m.kind) && e[m.pos - 1] == 0xAA
  }

  ghost predicate Covered(marks: seq<Mark>, j: nat) {
    exists i :: 0 <= i < |marks| && Breaks(marks[i], j)
  }

  function Prev(e: seq<bv8>, j: nat): bv8
    requires j < |e|
  {
    if j == 0 then 0x55 else e[j - 1]
  }

  /** A track with these marks; outside of them the clock rule holds. */
  ghost predicate Laid(e: seq<bv8>, marks: seq<Mark>) {
    hide NoGap, MarkHere;
    && Sorted(marks)
    && (forall i :: 0 <= i < |marks| ==> MarkHere(e, marks[i]))
    && (forall j :: 0 <= j < |e| ==> Covered(marks, j) || NoGap(Prev(e, j), e[j]))
  }

  // ---------------------------------------------------------------------

  lemma {:induction false} MarkBits()
    ensures BitOf(0x89, 0) && BitOf(0x89, 4) && BitOf(0x89, 7) && !BitOf(0x89, 6) && !BitOf(0x89, 1) && !BitOf(0x89, 2) && !BitOf(0x89, 3)
    ensures BitOf(0x24, 2) && BitOf(0x24, 5) && !BitOf(0x24, 0) && !BitOf(0x24, 1) && !BitOf(0x24, 6) && !BitOf(0x24, 7)
    ensures BitOf(0x44, 1) && !BitOf(0x44, 2) && !BitOf(0x44, 3) && !BitOf(0x44, 4)
    ensures BitOf(0x52, 1) && BitOf(0x52, 3) && !BitOf(0x52, 5) && !BitOf(0x52, 7) && !BitOf(0x52, 0)
    ensures !BitOf(0xAA, 7) && BitOf(0xAA, 6) && !BitOf(0x55, 0) && !BitOf(0x89, 5)
  {
    BitTable(0x89);
    BitTable(0x24);
    BitTable(0x44);
    BitTable(0x52);
    BitTable(0xAA);
    BitTable(0x55);
  }

  lemma {:induction false} BrokenByte(e: seq<bv8>, m: Mark, j: nat)
    requires MarkHere(e, m) && Breaks(m, j)
    ensures j < |e| && e[j] == if m.kind == TrackHeader then 0x24 else 0x89
  {
    assert e[j] == e[m.pos..m.pos + 8][j - m.pos];
  }

  lemma {:induction false} LaidAt(e: seq<bv8>, marks: seq<Mark>, i: nat)
    requires Laid(e, marks) && i < |marks|
    ensures MarkHere(e, marks[i])
  {
    hide NoGap, MarkHere;
  }

  /** A gap around a clock bit lies in a mark. */
  lemma {:induction false} GapPlace(e: seq<bv8>, marks: seq<Mark>, p: nat) returns (i: nat)
    requires Laid(e, marks) && p % 2 == 0 && p + 1 < 8 * |e| && Gap(BitsOf(e), p)
    ensures i < |marks| && Breaks(marks[i], p / 8) && p % 8 == GapBit(marks[i].kind)
  {
    hide BitAt, BitsOf, BitOf, NoGap, MarkHere, Breaks, Sorted;
    var j, m := p / 8, p % 8;
    BitOfBits(e, j, 0);
    BitOfBits(e, j, 1);
    BitOfBits(e, j, 2);
    BitOfBits(e, j, 3);
    BitOfBits(e, j, 4);
    BitOfBits(e, j, 5);
    BitOfBits(e, j, 6);
    BitOfBits(e, j, 7);
    if j > 0 { BitOfBits(e, j - 1, 7); }
    assert m == 0 || m == 2 || m == 4 || m == 6;
    if !Covered(marks, j) {
      NoGapBits(Prev(e, j), e[j]);
      assert false;
    }
    i :| 0 <= i < |marks| && Breaks(marks[i], j);
    BrokenByte(e, marks[i], j);
    MarkBits();
  }

  /** Two gaps 32 bits apart: the first is in the first word of a mark. */
  lemma {:induction false} TwoGaps(e: seq<bv8>, marks: seq<Mark>, p: nat) returns (i: nat)
    requires Laid(e, marks) && p % 2 == 0 && p + 33 < 8 * |e| && Gap(BitsOf(e), p) && Gap(BitsOf(e), p + 32)
    ensures i < |marks| && p == 8 * (marks[i].pos + 1) + GapBit(marks[i].kind)
  {
    hide Gap, BitsOf, NoGap, MarkHere;
    i := GapPlace(e, marks, p);
    var i2 := GapPlace(e, marks, p + 32);
    DivUnique(p + 32, 8, p / 8 + 4, p % 8);
    Spaced(e, marks, i, i2);
    Spaced(e, marks, i2, i);
  }

  lemma {:induction false} Spaced(e: seq<bv8>, marks: seq<Mark>, i: nat, j: nat)
    requires Laid(e, marks) && i < |marks| && j < |marks|
    ensures i < j ==> marks[i].pos + 24 <= marks[j].pos
  {
    hide NoGap, MarkHere;
  }

  // ---------------------------------------------------------------------
  // The register

  lemma {:induction false} WideBytes(a: bv8, b: bv8, c: bv8, d: bv8, e: bv8, f: bv8, g: bv8, h: bv8, k: Kind)
    ensures Wide(Word(a, b, c, d), Word(e, f, g, h)) == MarkValue(k) <==> [a, b, c, d, e, f, g, h] == MarkBytes(k)
  {
    var x, y := [a, b, c, d, e, f, g, h], MarkBytes(k);
    if x == y {
      assert x[0] == y[0] && x[1] == y[1] && x[2] == y[2] && x[3] == y[3] && x[4] == y[4] && x[5] == y[5] && x[6] == y[6] && x[7] == y[7];
    }
  }

  function EightBytes(t: seq<bool>, w: int): seq<bv8>
    requires |t| > 0
  {
    [ByteAt(t, w), ByteAt(t, w + 8), ByteAt(t, w + 16), ByteAt(t, w + 24), ByteAt(t, w + 32), ByteAt(t, w + 40), ByteAt(t, w + 48), ByteAt(t, w + 56)]
  }

  lemma {:induction false} RegisterBytes(t: seq<bool>, w: int, k: Kind)
    requires |t| > 0
    ensures Register(t, w) == MarkValue(k) <==> EightBytes(t, w) == MarkBytes(k)
  {
    hide ByteAt, Wide, Word, MarkValue, MarkBytes;
    WideBytes(ByteAt(t, w), ByteAt(t, w + 8), ByteAt(t, w + 16), ByteAt(t, w + 24),
              ByteAt(t, w + 32), ByteAt(t, w + 40), ByteAt(t, w + 48), ByteAt(t, w + 56), k);
  }

  lemma {:induction false} BitIn(t: seq<bool>, p: int)
    requires |t| > 0
    ensures var b := ByteAt(t, p);
            && BitOf(b, 0) == BitAt(t, p) && BitOf(b, 1) == BitAt(t, p + 1) && BitOf(b, 2) == BitAt(t, p + 2) && BitOf(b, 3) == BitAt(t, p + 3)
            && BitOf(b, 4) == BitAt(t, p + 4) && BitOf(b, 5) == BitAt(t, p + 5) && BitOf(b, 6) == BitAt(t, p + 6) && BitOf(b, 7) == BitAt(t, p + 7)
  {
    hide BitAt, BitOf, Pack;
    PackBits(BitAt(t, p), BitAt(t, p + 1), BitAt(t, p + 2), BitAt(t, p + 3), BitAt(t, p + 4), BitAt(t, p + 5), BitAt(t, p + 6), BitAt(t, p + 7));
  }

  lemma {:induction false} PackBits(b0: bool, b1: bool, b2: bool, b3: bool, b4: bool, b5: bool, b6: bool, b7: bool)
    ensures var b := Pack(b0, b1, b2, b3, b4, b5, b6, b7);
            && BitOf(b, 0) == b0 && BitOf(b, 1) == b1 && BitOf(b, 2) == b2 && BitOf(b, 3) == b3
            && BitOf(b, 4) == b4 && BitOf(b, 5) == b5 && BitOf(b, 6) == b6 && BitOf(b, 7) == b7
  {
    BitTable(Pack(b0, b1, b2, b3, b4, b5, b6, b7));
  }

  /** What a match of a sector mark says about the bits. */
  ghost predicate SectorPattern(t: seq<bool>, w: int)
    requires |t| > 0
  {
    && w >= -1 && Gap(t, w + 3) && Gap(t, w + 10) && Gap(t, w + 35) && Gap(t, w + 42)
    && BitAt(t, w + 1) && !BitAt(t, w + 10) && !BitAt(t, w + 14)
  }

  ghost predicate TrackPattern(t: seq<bool>, w: int)
    requires |t| > 0
  {
    && w >= -1 && Gap(t, w + 8) && Gap(t, w + 40) && Gap(t, w + 15) && Gap(t, w + 47)
    && BitAt(t, w + 1) && BitAt(t, w + 19) && !BitAt(t, w + 5)
  }

  lemma {:induction false} SectorMatch(t: seq<bool>, w: int)
    requires |t| > 0 && ByteAt(t, w) == 0x44 && ByteAt(t, w + 8) == 0x89 && ByteAt(t, w + 32) == 0x44 && ByteAt(t, w + 40) == 0x89
    ensures SectorPattern(t, w)
  {
    hide ByteAt, BitOf, BitAt;
    MarkBits();
    BitIn(t, w);
    BitIn(t, w + 8);
    BitIn(t, w + 32);
    BitIn(t, w + 40);
    if w < -1 { NegativeBit(t, w + 1); }
  }

  lemma {:induction false} TrackMatch(t: seq<bool>, w: int)
    requires |t| > 0 && ByteAt(t, w) == 0x52 && ByteAt(t, w + 8) == 0x24 && ByteAt(t, w + 16) == 0x52
    requires ByteAt(t, w + 32) == 0x52 && ByteAt(t, w + 40) == 0x24 && ByteAt(t, w + 48) == 0x55
    ensures TrackPattern(t, w)
  {
    hide ByteAt, BitOf, BitAt;
    MarkBits();
    BitIn(t, w);
    BitIn(t, w + 8);
    BitIn(t, w + 16);
    BitIn(t, w + 32);
    BitIn(t, w + 40);
    BitIn(t, w + 48);
    if w < -1 { NegativeBit(t, w + 1); }
  }

  lemma {:induction false} MatchPattern(t: seq<bool>, w: int, k: Kind)
    requires |t| > 0 && EightBytes(t, w) == MarkBytes(k)
    ensures if k == TrackHeader then TrackPattern(t, w) else SectorPattern(t, w)
  {
    hide ByteAt, SectorPattern, TrackPattern;
    var x, y := EightBytes(t, w), MarkBytes(k);
    assert x[0] == y[0] && x[1] == y[1] && x[2] == y[2] && x[4] == y[4] && x[5] == y[5] && x[6] == y[6];
    if k == TrackHeader { TrackMatch(t, w); } else { SectorMatch(t, w); }
  }

  // ---------------------------------------------------------------------

  /** Bits of a mark and of the byte before it. */
  lemma {:induction false} BitsOfMark(e: seq<bv8>, m: Mark)
    requires MarkHere(e, m)
    ensures var t, q := BitsOf(e), 8 * m.pos;
            && !BitAt(t, q - 1) && BitAt(t, q - 2)
            && (m.kind == TrackHeader ==> BitAt(t, q + 19))
            && (m.kind != TrackHeader ==> !BitAt(t, q + 3) && !BitAt(t, q + 14) && BitAt(t, q + 17))
  {
    hide BitAt, BitsOf, BitOf;
    MarkBits();
    var x := e[m.pos..m.pos + 8];
    assert e[m.pos] == x[0] && e[m.pos + 1] == x[1] && e[m.pos + 2] == x[2];
    BitOfBits(e, m.pos - 1, 7);
    BitOfBits(e, m.pos - 1, 6);
    BitOfBits(e, m.pos, 3);
    BitOfBits(e, m.pos + 1, 6);
    BitOfBits(e, m.pos + 2, 3);
    BitOfBits(e, m.pos + 2, 1);
  }

  /** A match of a sector mark, even only from its second bit on, starts where a mark starts. */
  lemma {:induction false} SectorAligned(e: seq<bv8>, marks: seq<Mark>, w: int) returns (i: nat)
    requires Laid(e, marks) && |e| > 0 && w + 64 <= 8 * |e| && SectorPattern(BitsOf(e), w)
    ensures i < |marks| && w == 8 * marks[i].pos && marks[i].kind != TrackHeader
  {
    hide BitAt, BitsOf, Laid, Gap, MarkHere;
    if w % 2 == 0 {
      i := TwoGaps(e, marks, w + 10);
    } else {
      i := TwoGaps(e, marks, w + 3);
    }
    LaidAt(e, marks, i);
    BitsOfMark(e, marks[i]);
  }

  lemma {:induction false} TrackAligned(e: seq<bv8>, marks: seq<Mark>, w: int) returns (i: nat)
    requires Laid(e, marks) && |e| > 0 && w + 64 <= 8 * |e| && TrackPattern(BitsOf(e), w)
    ensures i < |marks| && w == 8 * marks[i].pos && marks[i].kind == TrackHeader
  {
    hide BitAt, BitsOf, Laid, Gap, MarkHere;
    if w % 2 == 0 {
      i := TwoGaps(e, marks, w + 8);
    } else {
      i := TwoGaps(e, marks, w + 15);
    }
    LaidAt(e, marks, i);
    BitsOfMark(e, marks[i]);
  }

  lemma {:induction false} BytesHere(e: seq<bv8>, m: Mark)
    requires MarkHere(e, m)
    ensures EightBytes(BitsOf(e), 8 * m.pos) == MarkBytes(m.kind) && |e| > 0
  {
    hide ByteAt, BitsOf, MarkBytes;
    var x := e[m.pos..m.pos + 8];
    ByteOfBits(e, m.pos);
    ByteOfBits(e, m.pos + 1);
    ByteOfBits(e, m.pos + 2);
    ByteOfBits(e, m.pos + 3);
    ByteOfBits(e, m.pos + 4);
    ByteOfBits(e, m.pos + 5);
    ByteOfBits(e, m.pos + 6);
    ByteOfBits(e, m.pos + 7);
    assert x == [e[m.pos], e[m.pos + 1], e[m.pos + 2], e[m.pos + 3], e[m.pos + 4], e[m.pos + 5], e[m.pos + 6], e[m.pos + 7]];
  }

  lemma {:induction false} KindsDiffer(a: Kind, b: Kind)
    requires MarkBytes(a) == MarkBytes(b) || MarkValue(a) == MarkValue(b)
    ensures a == b
  {
    assert MarkBytes(a) == MarkBytes(b) ==> MarkBytes(a)[7] == MarkBytes(b)[7];
  }

  /** The register holds the value of a mark exactly when such a mark has just been read. */
  lemma {:induction false} MatchIsMark(e: seq<bv8>, marks: seq<Mark>, w: int, k: Kind) returns (i: nat)
    requires Laid(e, marks) && |e| > 0 && w + 64 <= 8 * |e| && Register(BitsOf(e), w) == MarkValue(k)
    ensures i < |marks| && w == 8 * marks[i].pos && marks[i].kind == k
  {
    hide BitsOf, Laid, Register, MarkValue, EightBytes, SectorPattern, TrackPattern, MarkHere;
    RegisterBytes(BitsOf(e), w, k);
    MatchPattern(BitsOf(e), w, k);
    if k == TrackHeader {
      i := TrackAligned(e, marks, w);
    } else {
      i := SectorAligned(e, marks, w);
    }
    LaidAt(e, marks, i);
    BytesHere(e, marks[i]);
    KindsDiffer(marks[i].kind, k);
  }

  lemma {:induction false} MarkIsMatch(e: seq<bv8>, m: Mark)
    requires MarkHere(e, m)
    ensures |e| > 0 && Register(BitsOf(e), 8 * m.pos) == MarkValue(m.kind)
  {
    hide BitsOf, Register, MarkValue, EightBytes;
    BytesHere(e, m);
    RegisterBytes(BitsOf(e), 8 * m.pos, m.kind);
  }
}
