/** Round trip of whole IBM tracks. */
module IbmTrack {
  import opened Arithmetic
  import opened BitStreams
  import opened ClockRule
  import opened SectorCommon
  import opened Crcs
  import opened IbmMfm
  import opened IbmFormat
  import opened IbmSectors
  import opened IbmFinding
  import opened IbmMarks

  // ---------------------------------------------------------------------
  // A track is laid out piece by piece

  function Before(last: bv8, x: seq<bv8>, j: nat): bv8
    requires j <= |x|
  {
    if j == 0 then last else x[j - 1]
  }

  lemma {:induction false} LaidMore(t: seq<bv8>, marks: seq<Mark>, x: seq<bv8>)
    requires Laid(t, marks)
    requires forall j :: 0 <= j < |x| ==> NoGap(Before(Tail(t), x, j), x[j])
    ensures Laid(t + x, marks)
  {
    hide NoGap;
    var e := t + x;
    forall i | 0 <= i < |marks|
      ensures MarkHere(e, marks[i])
    {
      var m := marks[i];
      assert e[m.pos..m.pos + 8] == t[m.pos..m.pos + 8];
    }
    forall j | 0 <= j < |e|
      ensures Covered(marks, j) || NoGap(IbmMarks.Prev(e, j), e[j])
    {
      if j < |t| {
        assert e[j] == t[j] && IbmMarks.Prev(e, j) == IbmMarks.Prev(t, j);
      } else {
        var k := j - |t|;
        assert e[j] == x[k] && IbmMarks.Prev(e, j) == Before(Tail(t), x, k);
      }
    }
  }

  lemma {:induction false} LaidMfm(t: seq<bv8>, marks: seq<Mark>, data: seq<bv8>)
    requires Laid(t, marks)
    ensures Laid(Mfm(t, data), marks)
  {
    hide NoGap, Laid, MfmOf;
    var x := MfmOf(Tail(t), data);
    forall j | 0 <= j < |x|
      ensures NoGap(Before(Tail(t), x, j), x[j])
    {
      MfmNoGap(Tail(t), Tail(t), data, j);
    }
    LaidMore(t, marks, x);
  }

  lemma {:induction false} RawNoGap(last: bv8)
    ensures forall j :: 0 <= j < 24 ==> NoGap(Before(last, RawOf(last, 0xAA, 24), j), RawOf(last, 0xAA, 24)[j])
  {
    hide NoGap;
    FillNoGap(last);
    FillNoGap(0xAA);
    FillNoGap(0x2A);
    var r := RawOf(last, 0xAA, 24);
    assert (0xAA as bv8) & 0x7F == 0x2A && (0xAA as bv8) & 0x80 != 0;
    assert r[0] == if last & 1 != 0 then 0x2A else 0xAA;
    forall j | 0 <= j < 24
      ensures NoGap(Before(last, r, j), r[j])
    {
      if j > 1 { assert r[j - 1] == 0xAA; }
      if j > 0 { assert r[j] == 0xAA; }
    }
  }

  lemma {:induction false} FillNoGap(prev: bv8)
    ensures NoGap(prev, 0xAA) && (prev & 1 != 0 ==> NoGap(prev, 0x2A))
  {
  }

  lemma {:induction false} MarkNoGap(k: Kind, j: nat)
    requires j < 8 && j != 1 && j != 3 && j != 5
    ensures NoGap(if j == 0 then 0xAA else MarkBytes(k)[j - 1], MarkBytes(k)[j])
  {
    if j == 0 {} else if j == 2 {} else if j == 4 {} else if j == 6 {} else {}
  }

  lemma {:induction false} LaidRaw(t: seq<bv8>, marks: seq<Mark>)
    requires Laid(t, marks)
    ensures Laid(Raw(t), marks) && Tail(Raw(t)) == 0xAA
  {
    hide NoGap, Laid;
    RawNoGap(Tail(t));
    LaidMore(t, marks, RawOf(Tail(t), 0xAA, 24));
  }

  lemma {:induction false} LaidMark(t: seq<bv8>, marks: seq<Mark>, k: Kind)
    requires Laid(t, marks)
    ensures Laid(Marked(t, k), marks + [Mark(|t| + 24, k)])
  {
    hide NoGap, MarkBytes, RawOf, Raw, Marked, Covered, MarkHere;
    LaidRaw(t, marks);
    var e, marks' := Marked(t, k), marks + [Mark(|t| + 24, k)];
    forall i | 0 <= i < |marks'|
      ensures MarkHere(e, marks'[i])
    {
      MarkedHere(t, marks, k, i);
    }
    forall j | 0 <= j < |e|
      ensures Covered(marks', j) || NoGap(IbmMarks.Prev(e, j), e[j])
    {
      MarkedByte(t, marks, k, j);
    }
    MarkedSorted(t, marks, k);
  }

  lemma {:induction false} MarkedHere(t: seq<bv8>, marks: seq<Mark>, k: Kind, i: nat)
    requires Laid(Raw(t), marks) && Tail(Raw(t)) == 0xAA && i <= |marks|
    ensures MarkHere(Marked(t, k), (marks + [Mark(|t| + 24, k)])[i])
  {
    hide NoGap, MarkBytes, RawOf, Raw, Laid;
    var r, e, m := Raw(t), Marked(t, k), Mark(|t| + 24, k);
    assert e[m.pos..m.pos + 8] == MarkBytes(k);
    if i < |marks| {
      LaidAt(r, marks, i);
      assert e[marks[i].pos..marks[i].pos + 8] == r[marks[i].pos..marks[i].pos + 8];
    }
  }

  lemma {:induction false} MarkedByte(t: seq<bv8>, marks: seq<Mark>, k: Kind, j: nat)
    requires Laid(Raw(t), marks) && Tail(Raw(t)) == 0xAA && j < |Marked(t, k)|
    ensures var e := Marked(t, k);
            Covered(marks + [Mark(|t| + 24, k)], j) || NoGap(IbmMarks.Prev(e, j), e[j])
  {
    hide NoGap, MarkBytes, RawOf, Raw, MarkHere;
    var r, e, m := Raw(t), Marked(t, k), Mark(|t| + 24, k);
    if j < |r| {
      assert e[j] == r[j] && IbmMarks.Prev(e, j) == IbmMarks.Prev(r, j);
      StillCovered(marks, m, j);
    } else if Breaks(m, j) {
      assert (marks + [m])[|marks|] == m;
    } else {
      MarkNoGap(k, j - |r|);
      assert e[j] == MarkBytes(k)[j - |r|];
    }
  }

  lemma {:induction false} MarkedSorted(t: seq<bv8>, marks: seq<Mark>, k: Kind)
    requires Laid(t, marks)
    ensures Sorted(marks + [Mark(|t| + 24, k)])
  {
    hide NoGap, MarkBytes;
    forall i | 0 <= i < |marks|
      ensures marks[i].pos <= |t|
    {
      LaidAt(t, marks, i);
    }
  }

  lemma {:induction false} StillCovered(marks: seq<Mark>, m: Mark, j: nat)
    ensures Covered(marks, j) ==> Covered(marks + [m], j)
  {
    if Covered(marks, j) {
      var i :| 0 <= i < |marks| && Breaks(marks[i], j);
      assert (marks + [m])[i] == marks[i];
    }
  }

  lemma {:induction false} LaidEmpty()
    ensures Laid([], [])
  {
  }

  // ---------------------------------------------------------------------
  // The marks of a track

  function SectorMarks(t: seq<bv8>, g: Gaps, track: nat, sec: nat, size: nat): seq<Mark> {
    [Mark(|t| + 24, SectorHeader), Mark(|WithHeader(t, g, track, sec, size)| + 24, SectorData)]
  }

  function StartMarks(g: Gaps): seq<Mark> {
    if g.atari then [] else [Mark(184, TrackHeader)]
  }

  function MarksUpTo(sectors: seq<seq<bv8>>, g: Gaps, track: nat, n: nat): (r: seq<Mark>)
    requires n <= |sectors|
    ensures |r| == |StartMarks(g)| + 2 * n
  {
    if n == 0 then StartMarks(g) else
      MarksUpTo(sectors, g, track, n - 1) + SectorMarks(SectorsUpTo(sectors, g, track, n - 1), g, track, n - 1, |sectors[n - 1]|)
  }

  lemma {:induction false} LaidSector(t: seq<bv8>, marks: seq<Mark>, g: Gaps, track: nat, sec: nat, data: seq<bv8>)
    requires Laid(t, marks)
    ensures Laid(WithSector(t, g, track, sec, data), marks + SectorMarks(t, g, track, sec, |data|))
  {
    hide Laid, Mfm, Marked, Fill, HeaderBytes, DataCrc;
    var header := HeaderBytes(track, sec, |data|)[4..];
    LaidMark(t, marks, SectorHeader);
    var x, m := Marked(t, SectorHeader), marks + [Mark(|t| + 24, SectorHeader)];
    LaidMfm(x, m, header);
    LaidMfm(Mfm(x, header), m, Fill(g.gap2));
    var h := WithHeader(t, g, track, sec, |data|);
    LaidMark(h, m, SectorData);
    var y, m' := Marked(h, SectorData), m + [Mark(|h| + 24, SectorData)];
    LaidMfm(y, m', data);
    LaidMfm(Mfm(y, data), m', DataCrc(data));
    LaidMfm(Mfm(Mfm(y, data), DataCrc(data)), m', Fill(g.gap3));
    assert m' == marks + SectorMarks(t, g, track, sec, |data|);
  }

  lemma {:induction false} LaidUpTo(sectors: seq<seq<bv8>>, g: Gaps, track: nat, n: nat)
    requires n <= |sectors|
    ensures Laid(SectorsUpTo(sectors, g, track, n), MarksUpTo(sectors, g, track, n))
  {
    hide Laid, WithSector, Mfm, Marked, SectorMarks;
    if n == 0 {
      LaidEmpty();
      var t: seq<bv8> := [];
      var m: seq<Mark> := [];
      if !g.atari {
        LaidMfm(t, m, Fill(80));
        t := Mfm(t, Fill(80));
        LaidMark(t, m, TrackHeader);
        m := m + [Mark(|t| + 24, TrackHeader)];
        t := Marked(t, TrackHeader);
      }
      LaidMfm(t, m, Fill(g.gap1));
      assert Mfm(t, Fill(g.gap1)) == TrackStart(g);
      assert m == StartMarks(g);
    } else {
      LaidUpTo(sectors, g, track, n - 1);
      LaidSector(SectorsUpTo(sectors, g, track, n - 1), MarksUpTo(sectors, g, track, n - 1), g, track, n - 1, sectors[n - 1]);
    }
  }

  // ---------------------------------------------------------------------
  // The search goes from mark to mark

  /** The search after the first c marks. */
  function Fold(t: seq<bool>, marks: seq<Mark>, c: nat, track: nat, s: Search): (r: Search)
    requires |t| > 0 && c <= |marks| && Proper(s)
    ensures Proper(r)
  {
    hide AtMark, Proper;
    if c == 0 then s else AtMark(Fold(t, marks, c - 1, track, s), marks[c - 1].kind, t, 8 * marks[c - 1].pos, track)
  }

  function End(m: Mark): nat {
    8 * m.pos + 64
  }

  lemma {:induction false} SeenMark(e: seq<bv8>, marks: seq<Mark>, i: nat)
    requires Laid(e, marks) && i < |marks|
    ensures |e| > 0 && End(marks[i]) <= 8 * |e| && MarkIn(BitsOf(e), End(marks[i])) == [marks[i].kind]
  {
    hide BitsOf, Laid, Register, MarkValue;
    LaidAt(e, marks, i);
    MarkIsMatch(e, marks[i]);
    KindsApart();
  }

  lemma {:induction false} SeenOnlyMarks(e: seq<bv8>, marks: seq<Mark>, n: nat) returns (i: nat)
    requires Laid(e, marks) && |e| > 0 && 0 < n <= 8 * |e| && MarkIn(BitsOf(e), n) != []
    ensures i < |marks| && n == End(marks[i])
  {
    hide BitsOf, Laid, Register, MarkValue;
    i := MatchIsMark(e, marks, n - 64, MarkIn(BitsOf(e), n)[0]);
  }

  /** At n bits the first c marks have been read completely, and no others. */
  ghost predicate Between(marks: seq<Mark>, n: nat, c: nat) {
    c <= |marks| && (c > 0 ==> End(marks[c - 1]) <= n) && (c < |marks| ==> n < End(marks[c]))
  }

  lemma {:induction false} MarkOrder(e: seq<bv8>, marks: seq<Mark>, i: nat, c: nat)
    requires Laid(e, marks) && i < |marks| && c <= |marks|
    ensures c > 0 && i < c ==> End(marks[i]) <= End(marks[c - 1])
    ensures c < |marks| && c <= i ==> End(marks[c]) <= End(marks[i])
    ensures c > 1 ==> End(marks[c - 2]) < End(marks[c - 1])
  {
    hide Laid;
    if c > 0 && i < c - 1 { Spaced(e, marks, i, c - 1); }
    if c < i { Spaced(e, marks, c, i); }
    if c > 1 { Spaced(e, marks, c - 2, c - 1); }
  }

  lemma {:induction false} ScanIsFold(e: seq<bv8>, marks: seq<Mark>, n: nat, c: nat, track: nat, s: Search)
    requires Laid(e, marks) && |e| > 0 && n <= 8 * |e| && Between(marks, n, c) && Proper(s)
    ensures Scanned(BitsOf(e), n, track, s) == Fold(BitsOf(e), marks, c, track, s)
  {
    hide BitsOf, Laid, AtMark, MarkIn, Proper;
    if n > 0 {
      if c > 0 && End(marks[c - 1]) == n {
        MarkOrder(e, marks, c - 1, c);
        SeenMark(e, marks, c - 1);
        ScanIsFold(e, marks, n - 1, c - 1, track, s);
      } else {
        NotSeen(e, marks, n, c);
        ScanIsFold(e, marks, n - 1, c, track, s);
      }
    }
  }

  lemma {:induction false} NotSeen(e: seq<bv8>, marks: seq<Mark>, n: nat, c: nat)
    requires Laid(e, marks) && |e| > 0 && 0 < n <= 8 * |e| && Between(marks, n, c) && !(c > 0 && End(marks[c - 1]) == n)
    ensures MarkIn(BitsOf(e), n) == []
  {
    hide BitsOf, Laid, MarkIn;
    if MarkIn(BitsOf(e), n) != [] {
      var i := SeenOnlyMarks(e, marks, n);
      MarkOrder(e, marks, i, c);
    }
  }

  // ---------------------------------------------------------------------
  // Reading back what a mark announces

  lemma {:induction false} DataByteAt(e: seq<bv8>, q: nat)
    requires q + 2 <= |e|
    ensures DataByte(BitsOf(e), 8 * q) == DataOf(e[q], e[q + 1])
  {
    hide BitAt, BitsOf, BitOf, Pack;
    BitOfBits(e, q, 1);
    BitOfBits(e, q, 3);
    BitOfBits(e, q, 5);
    BitOfBits(e, q, 7);
    BitOfBits(e, q + 1, 1);
    BitOfBits(e, q + 1, 3);
    BitOfBits(e, q + 1, 5);
    BitOfBits(e, q + 1, 7);
  }

  /** Encoded data is read back. */
  lemma {:induction false} MfmBack(e: seq<bv8>, q: nat, last: bv8, data: seq<bv8>)
    requires q + 2 * |data| <= |e| && e[q..q + 2 * |data|] == MfmOf(last, data) && |e| > 0
    ensures DataBytes(BitsOf(e), 8 * q, |data|) == data
  {
    hide DataByte, BitsOf, MfmOf, MfmPair, DataOf;
    var x := MfmOf(last, data);
    forall k | 0 <= k < |data|
      ensures DataByte(BitsOf(e), 8 * q + 16 * k) == data[k]
    {
      MfmAt(last, data, k);
      var prev := if k == 0 then last else data[k - 1];
      assert e[q + 2 * k] == x[2 * k] == x[2 * k..2 * k + 2][0];
      assert e[q + 2 * k + 1] == x[2 * k + 1] == x[2 * k..2 * k + 2][1];
      PairData(prev, data[k]);
      DataByteAt(e, q + 2 * k);
    }
  }

  function MarkData(k: Kind): seq<bv8> {
    if k == SectorHeader then HEADER_MARK else DATA_MARK
  }

  lemma {:induction false} MarkBack(e: seq<bv8>, q: nat, k: Kind)
    requires q + 8 <= |e| && e[q..q + 8] == MarkBytes(k) && (k == SectorHeader || k == SectorData)
    ensures DataBytes(BitsOf(e), 8 * q, 4) == MarkData(k)
  {
    hide DataByte, BitsOf, DataOf;
    var x := e[q..q + 8];
    assert e[q] == x[0] && e[q + 1] == x[1] && e[q + 2] == x[2] && e[q + 3] == x[3];
    assert e[q + 4] == x[4] && e[q + 5] == x[5] && e[q + 6] == x[6] && e[q + 7] == x[7];
    MarkDataBytes();
    DataByteAt(e, q);
    DataByteAt(e, q + 2);
    DataByteAt(e, q + 4);
    DataByteAt(e, q + 6);
    var d := DataBytes(BitsOf(e), 8 * q, 4);
    assert d == [d[0], d[1], d[2], d[3]];
  }

  lemma {:induction false} DataSplit(t: seq<bool>, p: int, a: nat, b: nat)
    requires |t| > 0
    ensures DataBytes(t, p, a + b) == DataBytes(t, p, a) + DataBytes(t, p + 16 * a, b)
  {
    hide DataByte;
  }

  // ---------------------------------------------------------------------
  // One sector

  /** x stands in e from byte q on. */
  ghost predicate Has(e: seq<bv8>, q: nat, x: seq<bv8>) {
    q + |x| <= |e| && e[q..q + |x|] == x
  }

  /** The header mark and header at hp, the data mark, data and CRC at dp. */
  ghost predicate SectorHere(e: seq<bv8>, hp: nat, dp: nat, header: seq<bv8>, data: seq<bv8>)
    requires |header| == 10
  {
    && Has(e, hp, MarkBytes(SectorHeader)) && Has(e, hp + 8, MfmOf(0x54, header[4..]))
    && Has(e, dp, MarkBytes(SectorData)) && Has(e, dp + 8, MfmOf(0x45, data))
    && data != [] && Has(e, dp + 8 + 2 * |data|, MfmOf(data[|data| - 1], DataCrc(data)))
  }

  function SectorSize(code: nat): nat {
    Pow2(7 + code)
  }

  /** The size is 128 bytes or a larger power of two. */
  ghost predicate Sized(data: seq<bv8>) {
    exists l: nat :: l < 0x100 && |data| == SectorSize(l)
  }

  lemma {:induction false} SizedOf(data: seq<bv8>)
    requires Sized(data)
    ensures |data| > 0 && LengthCode(|data|) < 0x100 && Pow2(7 + LengthCode(|data|)) == |data|
  {
    var l: nat :| l < 0x100 && |data| == SectorSize(l);
    LogPow(7 + l);
  }

  /** A header that was written is read without errors. */
  lemma {:induction false} HeaderRight(s: Search, track: nat, sec: nat, data: seq<bv8>)
    requires track < 0x200 && sec < 22 && Sized(data)
    ensures var header := HeaderBytes(track, sec, |data|);
            && HeaderRead(s, header, track) == Search(true, header, 0, s.sectors)
            && header[6] as nat == sec + 1 && SizeOf(header) == |data|
  {
    hide Crc, CrcBytes, Byte, LengthCode, Pow2;
    var header := HeaderBytes(track, sec, |data|);
    SizedOf(data);
    ByteValue(track / 2);
    ByteValue(sec + 1);
    ByteValue(LengthCode(|data|));
    var fields := HeaderFields(track, sec, |data|);
    assert header[..8] == fields;
    assert header[8..] == CrcBytes(Crc(fields, 0xFFFF));
    assert header[4] == Byte(track / 2) && header[6] == Byte(sec + 1) && header[7] == Byte(LengthCode(|data|));
    NotBelowOne(sec + 1);
  }

  lemma {:induction false} NotBelowOne(n: nat)
    requires 1 <= n < 0x100
    ensures !(Byte(n) < 1)
  {
    assert n % 0x100 == n;
  }

  lemma {:induction false} HeaderBack(e: seq<bv8>, hp: nat, dp: nat, header: seq<bv8>, data: seq<bv8>)
    requires |header| == 10 && header[..4] == HEADER_MARK && SectorHere(e, hp, dp, header, data)
    ensures DataBytes(BitsOf(e), 8 * hp, 10) == header
  {
    hide DataBytes, BitsOf, MfmOf;
    MarkBack(e, hp, SectorHeader);
    MfmBack(e, hp + 8, 0x54, header[4..]);
    DataSplit(BitsOf(e), 8 * hp, 4, 6);
  }

  lemma {:induction false} DataBack(e: seq<bv8>, hp: nat, dp: nat, header: seq<bv8>, data: seq<bv8>)
    requires |header| == 10 && SectorHere(e, hp, dp, header, data)
    ensures DataBytes(BitsOf(e), 8 * dp, 4) == DATA_MARK && DataBytes(BitsOf(e), 8 * dp + 64, |data|) == data
    ensures DataBytes(BitsOf(e), 8 * dp + 64 + 16 * |data|, 2) == DataCrc(data)
  {
    hide DataBytes, BitsOf, MfmOf, DataCrc;
    MarkBack(e, dp, SectorData);
    MfmBack(e, dp + 8, 0x45, data);
    MfmBack(e, dp + 8 + 2 * |data|, data[|data| - 1], DataCrc(data));
  }

  /** The two marks of a sector add it to what was found. */
  lemma {:induction false} SectorRead(e: seq<bv8>, hp: nat, dp: nat, s: Search, track: nat, sec: nat, data: seq<bv8>)
    requires |e| > 0 && Proper(s) && track < 0x200 && sec < 22 && Sized(data) && sec !in s.sectors
    requires SectorHere(e, hp, dp, HeaderBytes(track, sec, |data|), data)
    ensures var t := BitsOf(e);
            var r := AtMark(AtMark(s, SectorHeader, t, 8 * hp, track), SectorData, t, 8 * dp, track);
            !r.headerFound && r.sectors == s.sectors[sec := DecodedSector(data, 0)]
  {
    hide DataBytes, BitsOf, SectorHere, DataCrc, HeaderBytes, SizeOf, HeaderRead;
    var header := HeaderBytes(track, sec, |data|);
    HeaderStart(track, sec, |data|);
    HeaderBack(e, hp, dp, header, data);
    HeaderRight(s, track, sec, data);
    DataBack(e, hp, dp, header, data);
    CrcRight(data);
  }

  lemma {:induction false} HeaderStart(track: nat, sec: nat, size: nat)
    ensures HeaderBytes(track, sec, size)[..4] == HEADER_MARK
  {
    hide Crc, CrcBytes;
  }

  lemma {:induction false} CrcRight(data: seq<bv8>)
    ensures CrcBytes(Crc(data, Crc(DATA_MARK, 0xFFFF))) == DataCrc(data)
  {
  }

  // ---------------------------------------------------------------------
  // All sectors

  lemma {:induction false} HasAppended(x: seq<bv8>, y: seq<bv8>)
    ensures Has(x + y, |x|, y)
  {
    assert (x + y)[|x|..|x| + |y|] == y;
  }

  lemma {:induction false} HasMore(x: seq<bv8>, e: seq<bv8>, q: nat, y: seq<bv8>)
    requires Has(x, q, y) && x <= e
    ensures Has(e, q, y)
  {
    assert e[q..q + |y|] == x[q..q + |y|];
  }

  lemma {:induction false} PrefixOf(x: seq<bv8>, y: seq<bv8>, z: seq<bv8>)
    requires x <= y && y <= z
    ensures x <= z
  {
  }

  lemma {:induction false} MarkedHas(t: seq<bv8>, k: Kind)
    ensures Has(Marked(t, k), |t| + 24, MarkBytes(k)) && Tail(Marked(t, k)) == MarkBytes(k)[7] && t <= Marked(t, k)
  {
    hide MarkBytes, RawOf;
    HasAppended(Raw(t), MarkBytes(k));
  }

  lemma {:induction false} MfmHas(t: seq<bv8>, data: seq<bv8>)
    ensures Has(Mfm(t, data), |t|, MfmOf(Tail(t), data)) && t <= Mfm(t, data)
    ensures data != [] ==> Tail(Mfm(t, data)) & 1 == data[|data| - 1] & 1
  {
    hide MfmOf;
    HasAppended(t, MfmOf(Tail(t), data));
    if data != [] {
      MfmEnds(Tail(t), data);
    }
  }

  lemma {:induction false} HeaderPart(t: seq<bv8>, g: Gaps, track: nat, sec: nat, size: nat)
    ensures var h, header := WithHeader(t, g, track, sec, size), HeaderBytes(track, sec, size);
            && t <= h && Has(h, |t| + 24, MarkBytes(SectorHeader)) && Has(h, |t| + 32, MfmOf(0x54, header[4..]))
  {
    hide Marked, Mfm, MfmOf, HeaderBytes, Fill, Has;
    var x, header, h := Marked(t, SectorHeader), HeaderBytes(track, sec, size)[4..], WithHeader(t, g, track, sec, size);
    var y := Mfm(x, header);
    MarkedHas(t, SectorHeader);
    MfmHas(x, header);
    MfmHas(y, Fill(g.gap2));
    PrefixOf(x, y, h);
    PrefixOf(t, x, h);
    HasMore(x, h, |t| + 24, MarkBytes(SectorHeader));
    HasMore(y, h, |t| + 32, MfmOf(0x54, header));
  }

  lemma {:induction false} DataPart(h: seq<bv8>, g: Gaps, data: seq<bv8>)
    requires data != []
    ensures var w, q := WithData(h, g, data), |h| + 24;
            && h <= w && Has(w, q, MarkBytes(SectorData)) && Has(w, q + 8, MfmOf(0x45, data))
            && Has(w, q + 8 + 2 * |data|, MfmOf(data[|data| - 1], DataCrc(data)))
  {
    hide Marked, Mfm, MfmOf, DataCrc, Fill, Has;
    var z, w, q := Marked(h, SectorData), WithData(h, g, data), |h| + 24;
    var u := Mfm(z, data);
    var v := Mfm(u, DataCrc(data));
    MarkedHas(h, SectorData);
    MfmHas(z, data);
    MfmHas(u, DataCrc(data));
    MfmHas(v, Fill(g.gap3));
    PrefixOf(u, v, w);
    PrefixOf(z, u, w);
    PrefixOf(h, z, w);
    HasMore(z, w, q, MarkBytes(SectorData));
    HasMore(u, w, q + 8, MfmOf(0x45, data));
    MfmSameLast(Tail(u), data[|data| - 1], DataCrc(data));
    HasMore(v, w, q + 8 + 2 * |data|, MfmOf(Tail(u), DataCrc(data)));
  }

  lemma {:induction false} UpToPrefix(sectors: seq<seq<bv8>>, g: Gaps, track: nat, k: nat, n: nat)
    requires k <= n <= |sectors|
    ensures SectorsUpTo(sectors, g, track, k) <= SectorsUpTo(sectors, g, track, n)
    decreases n - k
  {
    hide WithHeader, WithData, HeaderBytes, DataCrc, TrackStart;
    if k < n {
      UpToPrefix(sectors, g, track, k, n - 1);
      var t := SectorsUpTo(sectors, g, track, n - 1);
      HeaderPrefix(t, g, track, n - 1, |sectors[n - 1]|);
      DataPrefix(WithHeader(t, g, track, n - 1, |sectors[n - 1]|), g, sectors[n - 1]);
    }
  }

  lemma {:induction false} HeaderPrefix(t: seq<bv8>, g: Gaps, track: nat, sec: nat, size: nat)
    ensures t <= WithHeader(t, g, track, sec, size)
  {
    HeaderPart(t, g, track, sec, size);
  }

  lemma {:induction false} DataPrefix(h: seq<bv8>, g: Gaps, data: seq<bv8>)
    ensures h <= WithData(h, g, data)
  {
    hide MfmOf, RawOf, MarkBytes, DataCrc, Fill;
  }

  /** Sector k on the finished track. */
  lemma {:induction false} SectorOnTrack(sectors: seq<seq<bv8>>, forceAtariTiming: bool, track: nat, k: nat)
    requires k < |sectors| && sectors[k] != []
    ensures var e, g := TrackBytes(sectors, forceAtariTiming, track), GapsFor(|sectors|, forceAtariTiming);
            var t := SectorsUpTo(sectors, g, track, k);
            SectorHere(e, |t| + 24, |WithHeader(t, g, track, k, |sectors[k]|)| + 24, HeaderBytes(track, k, |sectors[k]|), sectors[k])
  {
    hide Has, WithHeader, WithData, HeaderBytes, DataCrc, MfmOf, Mfm, SectorsUpTo, Fill;
    var e, g := TrackBytes(sectors, forceAtariTiming, track), GapsFor(|sectors|, forceAtariTiming);
    var t, data := SectorsUpTo(sectors, g, track, k), sectors[k];
    var h := WithHeader(t, g, track, k, |data|);
    var w, all := WithData(h, g, data), SectorsUpTo(sectors, g, track, |sectors|);
    HeaderPart(t, g, track, k, |data|);
    DataPart(h, g, data);
    NextUpTo(sectors, g, track, k);
    UpToPrefix(sectors, g, track, k + 1, |sectors|);
    MfmHas(all, Fill(g.gap4b / 2));
    PrefixOf(w, all, e);
    PrefixOf(h, w, e);
    HasMore(h, e, |t| + 24, MarkBytes(SectorHeader));
    HasMore(h, e, |t| + 32, MfmOf(0x54, HeaderBytes(track, k, |data|)[4..]));
    HasMore(w, e, |h| + 24, MarkBytes(SectorData));
    HasMore(w, e, |h| + 32, MfmOf(0x45, data));
    HasMore(w, e, |h| + 32 + 2 * |data|, MfmOf(data[|data| - 1], DataCrc(data)));
  }

  lemma {:induction false} NextUpTo(sectors: seq<seq<bv8>>, g: Gaps, track: nat, k: nat)
    requires k < |sectors|
    ensures var t := SectorsUpTo(sectors, g, track, k);
            SectorsUpTo(sectors, g, track, k + 1) == WithData(WithHeader(t, g, track, k, |sectors[k]|), g, sectors[k])
  {
    hide WithHeader, WithData;
  }

  lemma {:induction false} MarksAt(sectors: seq<seq<bv8>>, g: Gaps, track: nat, k: nat, n: nat)
    requires k < n <= |sectors|
    ensures var m, c := MarksUpTo(sectors, g, track, n), |StartMarks(g)| + 2 * k;
            var t := SectorsUpTo(sectors, g, track, k);
            m[c] == Mark(|t| + 24, SectorHeader) && m[c + 1] == Mark(|WithHeader(t, g, track, k, |sectors[k]|)| + 24, SectorData)
  {
    hide WithHeader, SectorsUpTo;
    if k < n - 1 {
      MarksAt(sectors, g, track, k, n - 1);
    }
  }

  ghost function Recovered(sectors: seq<seq<bv8>>, n: nat): DecodedTrack
    requires n <= |sectors|
  {
    map k: nat | k < n :: DecodedSector(sectors[k], 0)
  }

  ghost predicate Writable(sectors: seq<seq<bv8>>, track: nat) {
    |sectors| <= 21 && track < 0x200 && forall k :: 0 <= k < |sectors| ==> Sized(sectors[k])
  }

  /** After the marks of the first n sectors, these have been found. */
  lemma {:induction false} FoldSectors(sectors: seq<seq<bv8>>, forceAtariTiming: bool, track: nat, n: nat, s: Search)
    requires Writable(sectors, track) && n <= |sectors| && Proper(s) && !s.headerFound && s.sectors == map[]
    requires |TrackBytes(sectors, forceAtariTiming, track)| > 0
    ensures var e, g := TrackBytes(sectors, forceAtariTiming, track), GapsFor(|sectors|, forceAtariTiming);
            var r := Fold(BitsOf(e), MarksUpTo(sectors, g, track, |sectors|), |StartMarks(g)| + 2 * n, track, s);
            !r.headerFound && r.sectors == Recovered(sectors, n)
  {
    hide TrackBytes, BitsOf, SectorHere, Sized, SectorsUpTo, WithHeader, HeaderBytes, GapsFor, MarksUpTo, AtMark, Fold, StartMarks, Proper;
    var e, g := TrackBytes(sectors, forceAtariTiming, track), GapsFor(|sectors|, forceAtariTiming);
    var marks, base := MarksUpTo(sectors, g, track, |sectors|), |StartMarks(g)|;
    if n == 0 {
      FoldStart(BitsOf(e), sectors, g, track, s);
    } else {
      FoldSectors(sectors, forceAtariTiming, track, n - 1, s);
      var k, data := n - 1, sectors[n - 1];
      var before := Fold(BitsOf(e), marks, base + 2 * k, track, s);
      MarksAt(sectors, g, track, k, |sectors|);
      SizedOf(data);
      SectorOnTrack(sectors, forceAtariTiming, track, k);
      var t := SectorsUpTo(sectors, g, track, k);
      SectorRead(e, |t| + 24, |WithHeader(t, g, track, k, |data|)| + 24, before, track, k, data);
      TwoMore(BitsOf(e), marks, base + 2 * k, track, s);
      assert Recovered(sectors, n) == Recovered(sectors, k)[k := DecodedSector(data, 0)];
    }
  }

  /** The track header, if there is one, finds nothing. */
  lemma {:induction false} FoldStart(t: seq<bool>, sectors: seq<seq<bv8>>, g: Gaps, track: nat, s: Search)
    requires |t| > 0 && Proper(s) && !s.headerFound && s.sectors == map[]
    ensures var r := Fold(t, MarksUpTo(sectors, g, track, |sectors|), |StartMarks(g)|, track, s);
            !r.headerFound && r.sectors == Recovered(sectors, 0)
  {
    hide MarksUpTo;
    var marks := MarksUpTo(sectors, g, track, |sectors|);
    assert Recovered(sectors, 0) == map[];
    if !g.atari {
      FirstMark(sectors, g, track, |sectors|);
      assert Fold(t, marks, 0, track, s) == s;
    }
  }

  lemma {:induction false} FirstMark(sectors: seq<seq<bv8>>, g: Gaps, track: nat, n: nat)
    requires n <= |sectors| && !g.atari
    ensures MarksUpTo(sectors, g, track, n)[0] == Mark(184, TrackHeader)
  {
    hide SectorMarks, SectorsUpTo;
    if n > 0 { FirstMark(sectors, g, track, n - 1); }
  }

  lemma {:induction false} TwoMore(t: seq<bool>, marks: seq<Mark>, c: nat, track: nat, s: Search)
    requires |t| > 0 && Proper(s) && c + 2 <= |marks|
    ensures Fold(t, marks, c + 2, track, s) ==
              AtMark(AtMark(Fold(t, marks, c, track, s), marks[c].kind, t, 8 * marks[c].pos, track), marks[c + 1].kind, t, 8 * marks[c + 1].pos, track)
  {
    hide AtMark;
    assert Fold(t, marks, c + 1, track, s) == AtMark(Fold(t, marks, c, track, s), marks[c].kind, t, 8 * marks[c].pos, track);
  }

  /** Every sector of a written track is found, with its data and without errors. */
  lemma {:induction false} AllFound(sectors: seq<seq<bv8>>, forceAtariTiming: bool, track: nat, s: Search)
    requires Writable(sectors, track) && Proper(s) && !s.headerFound && s.sectors == map[]
    ensures var e := TrackBytes(sectors, forceAtariTiming, track);
            |e| > 0 && Scanned(BitsOf(e), 8 * |e|, track, s).sectors == Recovered(sectors, |sectors|)
  {
    hide BitsOf, Laid, TrackBytes, MarksUpTo, Scanned, Fold, GapsFor, Proper, StartMarks, Writable, Recovered, Between, MarkIn, AtMark, Register;
    var e, g := TrackBytes(sectors, forceAtariTiming, track), GapsFor(|sectors|, forceAtariTiming);
    var marks := MarksUpTo(sectors, g, track, |sectors|);
    LaidTrack(sectors, forceAtariTiming, track);
    AllRead(e, marks);
    ScanIsFold(e, marks, 8 * |e|, |marks|, track, s);
    FoldSectors(sectors, forceAtariTiming, track, |sectors|, s);
  }

  lemma {:induction false} AllRead(e: seq<bv8>, marks: seq<Mark>)
    requires Laid(e, marks)
    ensures Between(marks, 8 * |e|, |marks|)
  {
    hide Laid, BitsOf, MarkIn;
    if |marks| > 0 { SeenMark(e, marks, |marks| - 1); }
  }

  lemma {:induction false} LaidTrack(sectors: seq<seq<bv8>>, forceAtariTiming: bool, track: nat)
    ensures var g := GapsFor(|sectors|, forceAtariTiming);
            Laid(TrackBytes(sectors, forceAtariTiming, track), MarksUpTo(sectors, g, track, |sectors|))
    ensures |TrackBytes(sectors, forceAtariTiming, track)| > 0
  {
    hide Laid, MarksUpTo, SectorsUpTo, GapsFor, Fill;
    var g := GapsFor(|sectors|, forceAtariTiming);
    LaidUpTo(sectors, g, track, |sectors|);
    LaidMfm(SectorsUpTo(sectors, g, track, |sectors|), MarksUpTo(sectors, g, track, |sectors|), Fill(g.gap4b / 2));
    FirstGap(|sectors|, forceAtariTiming);
    NotEmpty(sectors, g, track, |sectors|);
  }

  lemma {:induction false} NotEmpty(sectors: seq<seq<bv8>>, g: Gaps, track: nat, n: nat)
    requires n <= |sectors| && g.gap1 > 0
    ensures |SectorsUpTo(sectors, g, track, n)| > 0
  {
    hide WithSector;
    if n > 0 { NotEmpty(sectors, g, track, n - 1); }
  }

  lemma {:induction false} FirstGap(n: nat, forceAtariTiming: bool)
    ensures GapsFor(n, forceAtariTiming).gap1 > 0
  {
  }

  /** The round trip: writing a track and reading it back. If the number of sectors is given, the
      ones that were not written are reported as empty, with 0xFFFF errors. */
  method WriteAndFind(forceAtariTiming: bool, sectors: seq<seq<bv8>>, track: nat, isHD: bool, expectedNumSectors: nat,
                      bufferSize: nat, memory: array<bv8>, stale: seq<bv8>)
    returns (found: DecodedTrack, sectorsWithErrors: nat)
    requires Writable(sectors, track) && bufferSize <= memory.Length && |stale| == 10
    requires |TrackBytes(sectors, forceAtariTiming, track)| <= bufferSize
    modifies memory
    ensures forall k :: 0 <= k < |sectors| ==> k in found && found[k] == DecodedSector(sectors[k], 0)
    ensures forall k :: k in found && k >= |sectors| ==> k < expectedNumSectors && found[k].numErrors == 0xFFFF
    ensures expectedNumSectors <= |sectors| ==> sectorsWithErrors == 0
  {
    hide TrackBytes, BitsOf, Sized, Scanned, Filled, BadSectors;
    forall k | 0 <= k < |sectors| ensures sectors[k] != [] { SizedOf(sectors[k]); }
    var s := Search(false, stale, 0xFFFF, map[]);
    AllFound(sectors, forceAtariTiming, track, s);
    var bytes := EncodeSectorsIntoMFM(forceAtariTiming, sectors, track, bufferSize, memory);
    var input := memory[..bytes];
    assert BitsOf(input)[..8 * bytes] == BitsOf(input);
    found, sectorsWithErrors := FindSectors(input, 8 * bytes, isHD, track, expectedNumSectors, map[], stale);
    var expected := IbmFinding.ExpectedSectors(expectedNumSectors, isHD);
    FilledWith(Recovered(sectors, |sectors|), expected, SizeOf(Scanned(BitsOf(input), 8 * bytes, track, s).header));
    if expectedNumSectors <= |sectors| {
      NoBadSectors(found, expected);
    }
  }
}
