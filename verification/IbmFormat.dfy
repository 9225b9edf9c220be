/** IBM tracks as bytes (adf/ibm_sectors.cpp), and what is on them between the clock bits. */
module IbmFormat {
  import opened Arithmetic
  import opened BitStreams
  import opened ClockRule
  import opened Crcs
  import opened IbmMfm

  /** The marks of a track: three sync words and an encoded byte that tells which it is. */
  datatype Kind = TrackHeader | SectorHeader | SectorData | DeletedData

  function MarkBytes(k: Kind): (r: seq<bv8>)
    ensures |r| == 8
  {
    match k
    case TrackHeader => [0x52, 0x24, 0x52, 0x24, 0x52, 0x24, 0x55, 0x52]
    case SectorHeader => [0x44, 0x89, 0x44, 0x89, 0x44, 0x89, 0x55, 0x54]
    case SectorData => [0x44, 0x89, 0x44, 0x89, 0x44, 0x89, 0x55, 0x45]
    case DeletedData => [0x44, 0x89, 0x44, 0x89, 0x44, 0x89, 0x55, 0x4A]
  }

  /** How large the gaps are; the sizes follow from the number of sectors. */
  datatype Gaps = Gaps(atari: bool, gap1: nat, gap2: nat, gap3: nat, gap4b: nat)

  function GapsFor(sectors: nat, forceAtariTiming: bool): Gaps {
    var g := if forceAtariTiming then Gaps(true, 60, 22, 40, 60) else Gaps(false, 50, 22, 84, 182);
    if sectors == 10 then g.(gap3 := 40, atari := true)
    else if sectors == 11 then g.(gap1 := 10, gap3 := 1, gap4b := 0, atari := true)
    else if sectors == 19 then g.(gap3 := 26, atari := true)
    else if sectors == 20 then g.(gap3 := 20, atari := true)
    else if sectors == 21 then g.(gap1 := 10, gap3 := 1, gap4b := 1, atari := true)
    else g
  }

  function Log2(n: nat): nat {
    if n <= 1 then 0 else 1 + Log2(n / 2)
  }

  lemma {:induction false} LogPow(n: nat)
    ensures Log2(Pow2(n)) == n
  {
    if n > 0 { LogPow(n - 1); }
  }

  /** The length code of a sector. */
  function LengthCode(size: nat): nat {
    if Log2(size) < 7 then 0 else Log2(size) - 7
  }

  /** 128 bytes have length code 0, 256 have 1, and so on. */
  lemma {:induction false} LengthCodeIs(n: nat)
    ensures LengthCode(128 * Pow2(n)) == n
  {
    PowSum(7, n);
    assert Pow2(7) == 128;
    LogPow(7 + n);
  }

  /** A CRC as stored, high byte first. */
  function CrcBytes(c: bv16): (r: seq<bv8>)
    ensures |r| == 2
  {
    [(c >> 8) as bv8, (c & 0xFF) as bv8]
  }

  const HEADER_MARK: seq<bv8> := [0xA1, 0xA1, 0xA1, 0xFE]
  const DATA_MARK: seq<bv8> := [0xA1, 0xA1, 0xA1, 0xFB]

  /** Mark, cylinder, head, number and length of a sector. */
  function HeaderFields(track: nat, sec: nat, size: nat): (r: seq<bv8>)
    ensures |r| == 8
  {
    HEADER_MARK + [Byte(track / 2), if track % 2 == 1 then 1 else 0, Byte(sec + 1), Byte(LengthCode(size))]
  }

  function HeaderBytes(track: nat, sec: nat, size: nat): (r: seq<bv8>)
    ensures |r| == 10
  {
    HeaderFields(track, sec, size) + CrcBytes(Crc(HeaderFields(track, sec, size), 0xFFFF))
  }

  function DataCrc(data: seq<bv8>): (r: seq<bv8>)
    ensures |r| == 2
  {
    CrcBytes(Crc(data, Crc(DATA_MARK, 0xFFFF)))
  }

  // ---------------------------------------------------------------------
  // A track, piece by piece

  /** What the next piece joins on to. */
  function Tail(t: seq<bv8>): bv8 {
    if t == [] then 0x55 else t[|t| - 1]
  }

  function Fill(n: nat): seq<bv8> {
    seq(n, i => 0x4E)
  }

  function Mfm(t: seq<bv8>, data: seq<bv8>): (r: seq<bv8>)
    ensures |r| == |t| + 2 * |data|
  {
    t + MfmOf(Tail(t), data)
  }

  function Raw(t: seq<bv8>): (r: seq<bv8>)
    ensures |r| == |t| + 24
  {
    t + RawOf(Tail(t), 0xAA, 24)
  }

  function Marked(t: seq<bv8>, k: Kind): (r: seq<bv8>)
    ensures |r| == |t| + 32
  {
    Raw(t) + MarkBytes(k)
  }

  function WithHeader(t: seq<bv8>, g: Gaps, track: nat, sec: nat, size: nat): (r: seq<bv8>)
    ensures |r| == |t| + 44 + 2 * g.gap2
  {
    Mfm(Mfm(Marked(t, SectorHeader), HeaderBytes(track, sec, size)[4..]), Fill(g.gap2))
  }

  function WithData(t: seq<bv8>, g: Gaps, data: seq<bv8>): (r: seq<bv8>)
    ensures |r| == |t| + 36 + 2 * |data| + 2 * g.gap3
  {
    Mfm(Mfm(Mfm(Marked(t, SectorData), data), DataCrc(data)), Fill(g.gap3))
  }

  function WithSector(t: seq<bv8>, g: Gaps, track: nat, sec: nat, data: seq<bv8>): (r: seq<bv8>)
    ensures |r| == |t| + 80 + 2 * g.gap2 + 2 * |data| + 2 * g.gap3
  {
    WithData(WithHeader(t, g, track, sec, |data|), g, data)
  }

  function TrackStart(g: Gaps): seq<bv8> {
    Mfm(if g.atari then [] else Marked(Mfm([], Fill(80)), TrackHeader), Fill(g.gap1))
  }

  /** The first n sectors. */
  function SectorsUpTo(sectors: seq<seq<bv8>>, g: Gaps, track: nat, n: nat): seq<bv8>
    requires n <= |sectors|
  {
    if n == 0 then TrackStart(g) else WithSector(SectorsUpTo(sectors, g, track, n - 1), g, track, n - 1, sectors[n - 1])
  }

  function TrackBytes(sectors: seq<seq<bv8>>, forceAtariTiming: bool, track: nat): seq<bv8> {
    var g := GapsFor(|sectors|, forceAtariTiming);
    Mfm(SectorsUpTo(sectors, g, track, |sectors|), Fill(g.gap4b / 2))
  }

  // ---------------------------------------------------------------------
  // The data on a track

  /** The data bytes of a track that starts with a clock bit. */
  function DataIn(t: seq<bv8>): (r: seq<bv8>)
    ensures |r| == |t| / 2
  {
    seq(|t| / 2, i requires 0 <= i < |t| / 2 => DataOf(t[2 * i], t[2 * i + 1]))
  }

  function Times(x: bv8, n: nat): seq<bv8> {
    seq(n, i => x)
  }

  /** The data of a mark. */
  function MarkIs(k: Kind): seq<bv8> {
    match k
    case TrackHeader => [0xC2, 0xC2, 0xC2, 0xFC]
    case SectorHeader => [0xA1, 0xA1, 0xA1, 0xFE]
    case SectorData => [0xA1, 0xA1, 0xA1, 0xFB]
    case DeletedData => [0xA1, 0xA1, 0xA1, 0xF8]
  }

  function Id(track: nat, sec: nat, size: nat): seq<bv8> {
    [Byte(track / 2), Byte(track % 2), Byte(sec + 1), Byte(LengthCode(size))]
  }

  /** The CRC of a mark and what follows it. */
  function Check(mark: seq<bv8>, data: seq<bv8>): seq<bv8> {
    CrcBytes(Crc(mark + data, 0xFFFF))
  }

  function SectorStream(g: Gaps, track: nat, sec: nat, data: seq<bv8>): seq<bv8> {
    var id := Id(track, sec, |data|);
    Times(0, 12) + [0xA1, 0xA1, 0xA1, 0xFE] + id + Check([0xA1, 0xA1, 0xA1, 0xFE], id) + Times(0x4E, g.gap2) +
    Times(0, 12) + [0xA1, 0xA1, 0xA1, 0xFB] + data + Check([0xA1, 0xA1, 0xA1, 0xFB], data) + Times(0x4E, g.gap3)
  }

  function SectorStreams(g: Gaps, track: nat, sectors: seq<seq<bv8>>, n: nat): seq<bv8>
    requires n <= |sectors|
  {
    if n == 0 then [] else SectorStreams(g, track, sectors, n - 1) + SectorStream(g, track, n - 1, sectors[n - 1])
  }

  /** The data of a whole track: a header, unless it is for an Atari, and the sectors, each with an address and
      a data field, with gaps in between. */
  function TrackStream(sectors: seq<seq<bv8>>, forceAtariTiming: bool, track: nat): seq<bv8> {
    var g := GapsFor(|sectors|, forceAtariTiming);
    (if g.atari then [] else Times(0x4E, 80) + Times(0, 12) + [0xC2, 0xC2, 0xC2, 0xFC]) + Times(0x4E, g.gap1) +
    SectorStreams(g, track, sectors, |sectors|) + Times(0x4E, g.gap4b / 2)
  }

  /** A CRC is stored with its high byte first. */
  lemma {:induction false} HighFirst(c: bv16)
    ensures var b := CrcBytes(c); ((b[0] as bv16) << 8) | (b[1] as bv16) == c
  {
  }

  lemma {:induction false} DataSum(t: seq<bv8>, x: seq<bv8>)
    requires |t| % 2 == 0
    ensures DataIn(t + x) == DataIn(t) + DataIn(x)
  {
    hide DataOf;
    var n := |t| / 2;
    forall i | 0 <= i < |t + x| / 2
      ensures DataIn(t + x)[i] == (DataIn(t) + DataIn(x))[i]
    {
      if i < n {
        assert (t + x)[2 * i] == t[2 * i] && (t + x)[2 * i + 1] == t[2 * i + 1];
      } else {
        assert (t + x)[2 * i] == x[2 * (i - n)] && (t + x)[2 * i + 1] == x[2 * (i - n) + 1];
      }
    }
  }

  lemma {:induction false} DataMfm(t: seq<bv8>, data: seq<bv8>)
    requires |t| % 2 == 0
    ensures DataIn(Mfm(t, data)) == DataIn(t) + data
  {
    hide DataOf, MfmOf, MfmPair;
    var x := MfmOf(Tail(t), data);
    DataSum(t, x);
    forall k | 0 <= k < |data|
      ensures DataIn(x)[k] == data[k]
    {
      MfmAt(Tail(t), data, k);
      var prev := if k == 0 then Tail(t) else data[k - 1];
      assert x[2 * k] == x[2 * k..2 * k + 2][0] && x[2 * k + 1] == x[2 * k..2 * k + 2][1];
      PairData(prev, data[k]);
    }
  }

  lemma {:induction false} SyncData()
    ensures DataOf(0xAA, 0xAA) == 0 && DataOf(0x2A, 0xAA) == 0
  {
    BitTable(0xAA);
    BitTable(0x2A);
  }

  lemma {:induction false} DataMark(t: seq<bv8>, k: Kind)
    requires |t| % 2 == 0
    ensures DataIn(Marked(t, k)) == DataIn(t) + Times(0, 12) + MarkIs(k)
  {
    hide DataOf, MarkBytes;
    var x := RawOf(Tail(t), 0xAA, 24);
    DataSum(t, x);
    DataSum(Raw(t), MarkBytes(k));
    SyncData();
    RawBytes(Tail(t));
    assert DataIn(x) == Times(0, 12);
    MarkIn8(k);
  }

  lemma {:induction false} RawBytes(last: bv8)
    ensures var x := RawOf(last, 0xAA, 24); (x[0] == 0xAA || x[0] == 0x2A) && forall i :: 0 < i < 24 ==> x[i] == 0xAA
  {
    assert (0xAA as bv8) & 0x7F == 0x2A;
  }

  lemma {:induction false} MarkIn8(k: Kind)
    ensures DataIn(MarkBytes(k)) == MarkIs(k)
  {
    hide DataOf;
    MarkDataBytes();
    var x := MarkBytes(k);
    assert DataIn(x) == [DataOf(x[0], x[1]), DataOf(x[2], x[3]), DataOf(x[4], x[5]), DataOf(x[6], x[7])];
  }

  lemma {:induction false} MarkDataBytes()
    ensures DataOf(0x52, 0x24) == 0xC2 && DataOf(0x55, 0x52) == 0xFC && DataOf(0x55, 0x4A) == 0xF8
    ensures DataOf(0x44, 0x89) == 0xA1 && DataOf(0x55, 0x54) == 0xFE && DataOf(0x55, 0x45) == 0xFB
  {
    BitTable(0x52);
    BitTable(0x24);
    BitTable(0x4A);
    BitTable(0x44);
    BitTable(0x89);
    BitTable(0x55);
    BitTable(0x54);
    BitTable(0x45);
  }

  /** Mark, fields and CRC are what a reader computes with one CRC over the mark and the fields. */
  lemma {:induction false} Checks(track: nat, sec: nat, data: seq<bv8>)
    ensures HeaderBytes(track, sec, |data|)[4..] == Id(track, sec, |data|) + Check([0xA1, 0xA1, 0xA1, 0xFE], Id(track, sec, |data|))
    ensures DataCrc(data) == Check([0xA1, 0xA1, 0xA1, 0xFB], data)
  {
    hide Crc, CrcBytes, Byte, LengthCode;
    CrcChain(DATA_MARK, data, 0xFFFF);
    HeadByte(track);
    assert HeaderFields(track, sec, |data|) == [0xA1, 0xA1, 0xA1, 0xFE] + Id(track, sec, |data|);
    assert HeaderFields(track, sec, |data|)[4..] == Id(track, sec, |data|);
  }

  lemma {:induction false} HeadByte(track: nat)
    ensures Byte(track % 2) == if track % 2 == 1 then 1 else 0
  {
  }

  lemma {:induction false} DataSector(t: seq<bv8>, g: Gaps, track: nat, sec: nat, data: seq<bv8>)
    requires |t| % 2 == 0
    ensures DataIn(WithSector(t, g, track, sec, data)) == DataIn(t) + SectorStream(g, track, sec, data)
  {
    hide DataIn, Mfm, Marked, HeaderBytes, DataCrc, Check, Id, Fill, Times;
    Checks(track, sec, data);
    FillIs(g.gap2);
    FillIs(g.gap3);
    var header := HeaderBytes(track, sec, |data|)[4..];
    var x := Marked(t, SectorHeader);
    DataMark(t, SectorHeader);
    DataMfm(x, header);
    DataMfm(Mfm(x, header), Fill(g.gap2));
    var h := WithHeader(t, g, track, sec, |data|);
    DataMark(h, SectorData);
    var y := Marked(h, SectorData);
    DataMfm(y, data);
    DataMfm(Mfm(y, data), DataCrc(data));
    DataMfm(Mfm(Mfm(y, data), DataCrc(data)), Fill(g.gap3));
    var id := Id(track, sec, |data|);
    Grouped(DataIn(t), Times(0, 12), [0xA1, 0xA1, 0xA1, 0xFE], id, Check([0xA1, 0xA1, 0xA1, 0xFE], id), Times(0x4E, g.gap2),
            [0xA1, 0xA1, 0xA1, 0xFB], data, Check([0xA1, 0xA1, 0xA1, 0xFB], data), Times(0x4E, g.gap3));
  }

  lemma {:induction false} FillIs(n: nat)
    ensures Fill(n) == Times(0x4E, n)
  {
  }

  lemma {:induction false} Grouped(t: seq<bv8>, s: seq<bv8>, m: seq<bv8>, id: seq<bv8>, c: seq<bv8>, g: seq<bv8>,
                                   n: seq<bv8>, d: seq<bv8>, e: seq<bv8>, h: seq<bv8>)
    ensures t + s + m + (id + c) + g + s + n + d + e + h == t + (s + m + id + c + g + s + n + d + e + h)
  {
  }

  lemma {:induction false} DataUpTo(sectors: seq<seq<bv8>>, g: Gaps, track: nat, n: nat)
    requires n <= |sectors|
    ensures |SectorsUpTo(sectors, g, track, n)| % 2 == 0
    ensures DataIn(SectorsUpTo(sectors, g, track, n)) == DataIn(TrackStart(g)) + SectorStreams(g, track, sectors, n)
  {
    hide DataIn, WithSector, SectorStream, TrackStart;
    if n == 0 {
      StartEven(g);
    } else {
      DataUpTo(sectors, g, track, n - 1);
      DataSector(SectorsUpTo(sectors, g, track, n - 1), g, track, n - 1, sectors[n - 1]);
    }
  }

  lemma {:induction false} StartEven(g: Gaps)
    ensures |TrackStart(g)| % 2 == 0
  {
    hide MfmOf, Marked;
  }

  lemma {:induction false} DataStart(g: Gaps)
    ensures DataIn(TrackStart(g)) ==
              (if g.atari then [] else Times(0x4E, 80) + Times(0, 12) + [0xC2, 0xC2, 0xC2, 0xFC]) + Times(0x4E, g.gap1)
  {
    hide DataIn, Mfm, Marked, Fill, Times;
    FillIs(80);
    FillIs(g.gap1);
    NoData();
    if g.atari {
      DataMfm([], Fill(g.gap1));
    } else {
      DataMfm([], Fill(80));
      DataMark(Mfm([], Fill(80)), TrackHeader);
      DataMfm(Marked(Mfm([], Fill(80)), TrackHeader), Fill(g.gap1));
    }
  }

  lemma {:induction false} NoData()
    ensures DataIn([]) == []
  {
  }

  /** What a track holds between its clock bits. */
  lemma {:induction false} TrackHolds(sectors: seq<seq<bv8>>, forceAtariTiming: bool, track: nat)
    ensures DataIn(TrackBytes(sectors, forceAtariTiming, track)) == TrackStream(sectors, forceAtariTiming, track)
  {
    hide DataIn, Mfm, SectorsUpTo, GapsFor, Fill, Times, SectorStreams;
    var g := GapsFor(|sectors|, forceAtariTiming);
    DataUpTo(sectors, g, track, |sectors|);
    DataStart(g);
    DataMfm(SectorsUpTo(sectors, g, track, |sectors|), Fill(g.gap4b / 2));
    FillIs(g.gap4b / 2);
  }
}
