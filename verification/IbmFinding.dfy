/** Finding and decoding the sectors of IBM tracks (adf/ibm_sectors.cpp). */
module IbmFinding {
  import opened Arithmetic
  import opened BitStreams
  import opened SectorCommon
  import opened Crcs
  import opened IbmFormat
  import opened IbmSectors

  const IBM_DD_SECTORS := 9
  const IBM_HD_SECTORS := 18

  // ---------------------------------------------------------------------
  // The 64-bit search register

  function Wide(hi: bv32, lo: bv32): bv64 {
    ((hi as bv64) << 32) | (lo as bv64)
  }

  function ShiftedWide(w: bv64, bit: bool): bv64 {
    (w << 1) | (if bit then 1 else 0)
  }

  /** The 64 bits from p on. */
  function Register(t: seq<bool>, p: int): bv64
    requires |t| > 0
  {
    Wide(WordAt(t, p), WordAt(t, p + 32))
  }

  function TopOfWord(w: bv32): bool {
    w & 0x8000_0000 != 0
  }

  function Doubled64(w: bv64): bv64 {
    w << 1
  }

  function Doubled32(w: bv32): bv32 {
    w << 1
  }

  function Carried32(hi: bv32, lo: bv32): bv32 {
    (hi << 1) | (lo >> 31)
  }

  lemma {:induction false} WideBits(hi: bv32, lo: bv32)
    ensures Wide(hi, lo) << 1 == Wide((hi << 1) | (lo >> 31), lo << 1)
  {
  }

  lemma {:induction false} CarryBits(hi: bv32, lo: bv32)
    ensures ShiftedWord(hi, TopOfWord(lo)) == (hi << 1) | (lo >> 31)
  {
    if TopOfWord(lo) {} else {}
  }

  lemma {:induction false} Wrappers(w: bv64, hi: bv32, lo: bv32)
    ensures Doubled64(w) == w << 1 && Doubled32(lo) == lo << 1 && Carried32(hi, lo) == (hi << 1) | (lo >> 31)
  {
  }

  lemma {:induction false} DoubledWide(hi: bv32, lo: bv32)
    ensures Doubled64(Wide(hi, lo)) == Wide(Carried32(hi, lo), Doubled32(lo))
    ensures ShiftedWord(hi, TopOfWord(lo)) == Carried32(hi, lo)
  {
    hide Wide, ShiftedWord, TopOfWord, Doubled64, Doubled32, Carried32;
    WideBits(hi, lo);
    CarryBits(hi, lo);
    Wrappers(Wide(hi, lo), hi, lo);
  }

  lemma {:induction false} AddOne(hi: bv32, lo: bv32, w: bv64)
    requires w == Wide(hi, Doubled32(lo))
    ensures Wide(hi, Doubled32(lo) | 1) == w | 1
  {
  }

  lemma {:induction false} ShiftedIn(hi: bv32, lo: bv32, w: bv64, bit: bool)
    requires Doubled64(w) == Wide(hi, Doubled32(lo))
    ensures ShiftedWide(w, bit) == Wide(hi, ShiftedWord(lo, bit))
  {
    AddOne(hi, lo, Doubled64(w));
    Shifted64Is(w);
    Shifted32Is(lo);
    hide Wide, Doubled64, Doubled32, ShiftedWide, ShiftedWord;
  }

  lemma {:induction false} Shifted64Is(w: bv64)
    ensures ShiftedWide(w, true) == Doubled64(w) | 1 && ShiftedWide(w, false) == Doubled64(w)
  {
  }

  lemma {:induction false} Shifted32Is(w: bv32)
    ensures ShiftedWord(w, true) == Doubled32(w) | 1 && ShiftedWord(w, false) == Doubled32(w)
  {
  }

  lemma {:induction false} WideShift(hi: bv32, lo: bv32, bit: bool)
    ensures ShiftedWide(Wide(hi, lo), bit) == Wide(ShiftedWord(hi, TopOfWord(lo)), ShiftedWord(lo, bit))
  {
    hide Wide, ShiftedWord, ShiftedWide, TopOfWord, Doubled64, Doubled32, Carried32;
    DoubledWide(hi, lo);
    ShiftedIn(Carried32(hi, lo), lo, Wide(hi, lo), bit);
  }

  lemma {:induction false} WordTop(a: bv8, b: bv8, c: bv8, d: bv8)
    ensures TopOfWord(Word(a, b, c, d)) == TopBit(a)
  {
  }

  lemma {:induction false} RegisterShift(t: seq<bool>, p: int)
    requires |t| > 0
    ensures Register(t, p + 1) == ShiftedWide(Register(t, p), BitAt(t, p + 64))
  {
    hide Wide, ShiftedWide, ShiftedWord, TopOfWord, Word, BitAt, ByteAt, TopBit;
    WordShift(t, p);
    WordShift(t, p + 32);
    WordTop(ByteAt(t, p + 32), ByteAt(t, p + 40), ByteAt(t, p + 48), ByteAt(t, p + 56));
    ByteShift(t, p + 32);
    WideShift(WordAt(t, p), WordAt(t, p + 32), BitAt(t, p + 64));
  }

  // ---------------------------------------------------------------------
  // What the search makes of a track

  /** The data bits of the 16 bits from p on. */
  function DataByte(t: seq<bool>, p: int): bv8
    requires |t| > 0
  {
    Pack(BitAt(t, p + 1), BitAt(t, p + 3), BitAt(t, p + 5), BitAt(t, p + 7),
         BitAt(t, p + 9), BitAt(t, p + 11), BitAt(t, p + 13), BitAt(t, p + 15))
  }

  function DataBytes(t: seq<bool>, p: int, n: nat): (r: seq<bv8>)
    requires |t| > 0
    ensures |r| == n
  {
    seq(n, j requires 0 <= j < n => DataByte(t, p + 16 * j))
  }

  /** Where the search is: the last header, if it waits for its data, and the sectors so far. */
  datatype Search = Search(headerFound: bool, header: seq<bv8>, headerErrors: nat, sectors: DecodedTrack)

  function HeaderRead(s: Search, header: seq<bv8>, track: nat): Search
    requires |header| == 10
  {
    var badCrc := CrcBytes(Crc(header[..8], 0xFFFF)) != header[8..];
    var errors := Count(header[6] < 1) + Count(badCrc) + Count(header[4] as nat != track / 2)
                  + Count(header[5] != if track % 2 == 1 then 1 else 0);
    Search(true, if header[6] < 1 then header[6 := 1] else header, errors, s.sectors)
  }

  /** A header has no errors exactly if its CRC is right and it names a sector, from 1 on, of this cylinder and side;
      it is taken as it is, but for a sector 0, which becomes 1. */
  lemma {:induction false} HeaderClean(s: Search, header: seq<bv8>, track: nat)
    requires |header| == 10
    ensures var r := HeaderRead(s, header, track);
            && (r.headerErrors == 0 <==> CrcBytes(Crc(header[..8], 0xFFFF)) == header[8..] && header[6] >= 1
                                         && header[4] as nat == track / 2 && header[5] as nat == track % 2)
            && r.headerFound && r.sectors == s.sectors
            && (forall i :: 0 <= i < 10 ==> r.header[i] == if i == 6 && header[6] == 0 then 1 else header[i])
  {
    hide CrcBytes, Crc;
    if track % 2 == 1 {} else {}
  }

  /** The size a header announces. */
  function SizeOf(header: seq<bv8>): nat
    requires |header| == 10
  {
    Pow2(7 + header[7] as nat)
  }

  /** An existing sector is replaced by one with fewer errors; numbers above 22 are not filed. */
  function Filed(m: DecodedTrack, number: nat, s: DecodedSector): DecodedTrack {
    if number !in m then if number < 22 then m[number := s] else m
    else if m[number].numErrors > s.numErrors then m[number := s] else m
  }

  predicate DataValid(mark: seq<bv8>, data: seq<bv8>, crc: seq<bv8>) {
    CrcBytes(Crc(data, Crc(mark, 0xFFFF))) == crc
  }

  /** The errors a sector is filed with. */
  function Grade(headerErrors: nat, dataValid: bool): nat {
    if headerErrors + Count(dataValid) != 0 then 0 else 1
  }

  function DataRead(s: Search, mark: seq<bv8>, data: seq<bv8>, crc: seq<bv8>): Search
    requires |s.header| == 10 && s.header[6] >= 1
  {
    var numErrors := Grade(s.headerErrors, DataValid(mark, data, crc));
    Search(false, s.header, s.headerErrors, Filed(s.sectors, s.header[6] as nat - 1, DecodedSector(data, numErrors)))
  }

  /** A sector that is filed for the first time is filed without errors exactly if its data is good or
      its header is bad. */
  lemma {:induction false} FiledClean(s: Search, mark: seq<bv8>, data: seq<bv8>, crc: seq<bv8>)
    requires |s.header| == 10 && 1 <= s.header[6] <= 22 && s.header[6] as nat - 1 !in s.sectors
    ensures var m, number := DataRead(s, mark, data, crc).sectors, s.header[6] as nat - 1;
            && number in m && m[number].data == data
            && (m[number].numErrors == 0 <==> s.headerErrors > 0 || DataValid(mark, data, crc))
  {
  }

  /** The errors filed tell good data from bad, whatever the data and the CRC behind it, exactly if the
      header had no errors. */
  lemma {:induction false} GradeTells(headerErrors: nat, mark: seq<bv8>, size: nat)
    ensures (forall data, crc :: |data| == size && |crc| == 2 ==>
              (Grade(headerErrors, DataValid(mark, data, crc)) == 0 <==> DataValid(mark, data, crc))) <==> headerErrors == 0
  {
    if headerErrors > 0 {
      var data := seq(size, i => 0 as bv8);
      var crc := Spoilt(CrcBytes(Crc(data, Crc(mark, 0xFFFF))));
      assert Grade(headerErrors, DataValid(mark, data, crc)) == 0 && !DataValid(mark, data, crc);
    }
  }

  /** The last byte inverted. */
  function Spoilt(bytes: seq<bv8>): (r: seq<bv8>)
    requires bytes != []
    ensures |r| == |bytes| && r != bytes
  {
    var last := bytes[|bytes| - 1];
    assert last ^ 0xFF != last;
    bytes[|bytes| - 1 := last ^ 0xFF]
  }

  /** The header of sector 1 on track 0 with a wrong CRC, and 512 bytes with a wrong CRC behind it: the
      sector is filed without errors. Behind the right header it would be filed with one. */
  lemma {:induction false} BadHeaderHides(s: Search)
    requires s.sectors == map[]
    ensures var header, data := HeaderBytes(0, 0, 512), seq(512, i => 0 as bv8);
            var crc := Spoilt(DataCrc(data));
            && HeaderRead(s, Spoilt(header), 0).headerErrors == 1 && HeaderRead(s, header, 0).headerErrors == 0
            && header[6] == 1
            && DataRead(HeaderRead(s, Spoilt(header), 0), DATA_MARK, data, crc).sectors == map[0 := DecodedSector(data, 0)]
            && DataRead(HeaderRead(s, header, 0), DATA_MARK, data, crc).sectors == map[0 := DecodedSector(data, 1)]
  {
    hide CrcBytes, Crc;
  }

  ghost predicate Proper(s: Search) {
    |s.header| == 10 && (s.headerFound ==> s.header[6] >= 1)
  }

  /** What the mark at bit w does. */
  function AtMark(s: Search, k: Kind, t: seq<bool>, w: int, track: nat): (r: Search)
    requires |t| > 0 && Proper(s)
    ensures Proper(r)
  {
    match k
    case TrackHeader => s.(headerFound := false)
    case SectorHeader => HeaderRead(s, DataBytes(t, w, 10), track)
    case SectorData => AtData(s, t, w)
    case DeletedData => AtData(s, t, w)
  }

  function AtData(s: Search, t: seq<bool>, w: int): (r: Search)
    requires |t| > 0 && Proper(s)
    ensures Proper(r)
  {
    if !s.headerFound then s else
      var size := SizeOf(s.header);
      DataRead(s, DataBytes(t, w, 4), DataBytes(t, w + 64, size), DataBytes(t, w + 64 + 16 * size, 2))
  }

  datatype Reading = NoReading | Reading(number: nat, sector: DecodedSector)

  /** What is read when the last bit of a mark is bit n - 1: the sector the last header announced, with its data
      and errors; a deleted sector is read like any other. */
  function ReadEndingAt(t: seq<bool>, n: nat, s: Search): Reading
    requires |t| > 0 && Proper(s)
  {
    hide MarkValue, Register;
    var x, w := Register(t, n - 64), n - 64;
    if (x == MarkValue(SectorData) || x == MarkValue(DeletedData)) && s.headerFound then
      var size := SizeOf(s.header);
      var data, valid := DataBytes(t, w + 64, size), DataValid(DataBytes(t, w, 4), DataBytes(t, w + 64, size), DataBytes(t, w + 64 + 16 * size, 2));
      Reading(s.header[6] as nat - 1, DecodedSector(data, if s.headerErrors > 0 || valid then 0 else 1))
    else NoReading
  }

  /** Every reading is filed, if its number is below 22, unless there is one with as few errors; other sectors
      stay; and sectors change at readings only. */
  lemma {:induction false} ReadingFiled(t: seq<bool>, n: nat, track: nat, s0: Search)
    requires |t| > 0 && n > 0 && Proper(s0)
    ensures var p, r := Scanned(t, n - 1, track, s0), Scanned(t, n, track, s0).sectors;
            match ReadEndingAt(t, n, p) {
              case NoReading => r == p.sectors
              case Reading(k, sector) =>
                && (forall j :: j != k ==> (j in r <==> j in p.sectors) && (j in r ==> r[j] == p.sectors[j]))
                && (k in r <==> k in p.sectors || k < 22)
                && (k in r ==> if k in p.sectors && p.sectors[k].numErrors <= sector.numErrors then r[k] == p.sectors[k] else r[k] == sector)
            }
  {
    hide Proper, Register, MarkValue, DataBytes, DataValid, SizeOf, HeaderRead, MarkIn, AtMark;
    var p, m := Scanned(t, n - 1, track, s0), MarkIn(t, n);
    assert Scanned(t, n, track, s0) == if m != [] then AtMark(p, m[0], t, n - 64, track) else p;
    hide Scanned;
    OneMark(t, n, track, p);
  }

  lemma {:induction false} OneMark(t: seq<bool>, n: nat, track: nat, p: Search)
    requires |t| > 0 && Proper(p)
    ensures var m := MarkIn(t, n);
            var r := (if m != [] then AtMark(p, m[0], t, n - 64, track) else p).sectors;
            match ReadEndingAt(t, n, p) {
              case NoReading => r == p.sectors
              case Reading(k, sector) => r == Filed(p.sectors, k, sector)
            }
  {
    hide Register, MarkValue, DataBytes, DataValid, SizeOf;
    KindsApart();
  }

  lemma {:induction false} KindsApart()
    ensures MarkValue(TrackHeader) != MarkValue(SectorHeader) && MarkValue(TrackHeader) != MarkValue(SectorData)
    ensures MarkValue(TrackHeader) != MarkValue(DeletedData) && MarkValue(SectorHeader) != MarkValue(SectorData)
    ensures MarkValue(SectorHeader) != MarkValue(DeletedData) && MarkValue(SectorData) != MarkValue(DeletedData)
  {
  }

  /** The mark whose last bit is bit n - 1, if there is one. */
  function MarkIn(t: seq<bool>, n: nat): (r: seq<Kind>)
    requires |t| > 0
  {
    var x := Register(t, n - 64);
    if x == MarkValue(SectorHeader) then [SectorHeader]
    else if x == MarkValue(DeletedData) then [DeletedData]
    else if x == MarkValue(SectorData) then [SectorData]
    else if x == MarkValue(TrackHeader) then [TrackHeader]
    else []
  }

  function Scanned(t: seq<bool>, n: nat, track: nat, s: Search): (r: Search)
    requires |t| > 0 && Proper(s)
    ensures Proper(r)
  {
    hide AtMark, MarkIn, Proper;
    if n == 0 then s else
      var before := Scanned(t, n - 1, track, s);
      var m := MarkIn(t, n);
      if m != [] then AtMark(before, m[0], t, n - 64, track) else before
  }

  // ---------------------------------------------------------------------

  lemma {:induction false} StartOfPattern(x: bv64, a: bv8, b: bv32, c: bv8, d: bv8, e: bv8)
    requires x == Wide(Word(a, c, d, e), b)
    requires x == MarkValue(TrackHeader) || x == MarkValue(SectorHeader) || x == MarkValue(SectorData) || x == MarkValue(DeletedData)
    ensures a & 0x40 != 0
  {
  }

  /** A mark is not seen before its second bit, a one, has been read. */
  lemma {:induction false} MarkNotEarly(t: seq<bool>, n: nat)
    requires |t| > 0 && MarkIn(t, n) != []
    ensures n >= 63
  {
    hide BitAt, Wide, MarkValue, Word;
    var p := n - 64;
    StartOfPattern(Register(t, p), ByteAt(t, p), WordAt(t, p + 32), ByteAt(t, p + 8), ByteAt(t, p + 16), ByteAt(t, p + 24));
    SecondBit(t, p);
    if n < 63 { NegativeBit(t, p + 1); }
  }

  lemma {:induction false} NegativeBit(t: seq<bool>, p: int)
    requires |t| > 0 && p < 0
    ensures !BitAt(t, p)
  {
  }

  lemma {:induction false} SecondBit(t: seq<bool>, p: int)
    requires |t| > 0
    ensures (ByteAt(t, p) & 0x40 != 0) == BitAt(t, p + 1)
  {
    hide BitAt;
  }

  /** Where the track is read next; the reading goes on at the start of the track. */
  method ExtractByte(inTrack: seq<bv8>, dataLengthInBits: nat, realBitPos0: nat, ghost p: int) returns (memOut: bv8, realBitPos: nat)
    requires 0 < dataLengthInBits <= 8 * |inTrack| && p >= -1 && realBitPos0 == Ring(p + 1, dataLengthInBits)
    ensures memOut == DataByte(BitsOf(inTrack)[..dataLengthInBits], p) && realBitPos == Ring(p + 17, dataLengthInBits)
  {
    hide Shifted, BitOf, PartByte, BitAt, BitsOf, Ring, DataByte;
    ghost var t := BitsOf(inTrack)[..dataLengthInBits];
    memOut := *;
    ghost var garbage := memOut;
    PartStep(t, p, 0, garbage);
    realBitPos := realBitPos0;
    for bit := 0 to 8
      invariant realBitPos == Ring(p + 1 + 2 * bit, dataLengthInBits)
      invariant memOut == PartByte(t, p, bit, garbage)
    {
      TrackBit(inTrack, dataLengthInBits, p + 1 + 2 * bit);
      PartStep(t, p, bit, garbage);
      memOut := Shifted(memOut, BitOf(inTrack[realBitPos / 8], realBitPos % 8));
      RingAdd(p + 1 + 2 * bit, 2, dataLengthInBits);
      realBitPos := Ring(realBitPos + 2, dataLengthInBits);
    }
    WholeByte(t, p, garbage);
  }

  function PartByte(t: seq<bool>, p: int, n: nat, start: bv8): bv8
    requires |t| > 0
  {
    if n == 0 then start else Shifted(PartByte(t, p, n - 1, start), BitAt(t, p + 2 * n - 1))
  }

  lemma {:induction false} PartStep(t: seq<bool>, p: int, n: nat, start: bv8)
    requires |t| > 0
    ensures PartByte(t, p, n + 1, start) == Shifted(PartByte(t, p, n, start), BitAt(t, p + 2 * n + 1))
    ensures PartByte(t, p, 0, start) == start
  {
  }

  lemma {:induction false} WholeByte(t: seq<bool>, p: int, start: bv8)
    requires |t| > 0
    ensures PartByte(t, p, 8, start) == DataByte(t, p)
  {
    hide BitAt, Shifted, Pack, PartByte;
    PartStep(t, p, 0, start);
    PartStep(t, p, 1, start);
    PartStep(t, p, 2, start);
    PartStep(t, p, 3, start);
    PartStep(t, p, 4, start);
    PartStep(t, p, 5, start);
    PartStep(t, p, 6, start);
    PartStep(t, p, 7, start);
    EightShifts(start, BitAt(t, p + 1), BitAt(t, p + 3), BitAt(t, p + 5), BitAt(t, p + 7),
                BitAt(t, p + 9), BitAt(t, p + 11), BitAt(t, p + 13), BitAt(t, p + 15));
  }

  /** Copies the data bits of a part of the track. */
  method ExtractMFMDecodeRaw(inTrack: seq<bv8>, dataLengthInBits: nat, bitPos: int, outputBytes: nat) returns (output: seq<bv8>)
    requires 0 < dataLengthInBits <= 8 * |inTrack| && bitPos >= -1
    ensures output == DataBytes(BitsOf(inTrack)[..dataLengthInBits], bitPos, outputBytes)
  {
    hide DataByte, BitsOf, Ring;
    ghost var t := BitsOf(inTrack)[..dataLengthInBits];
    var realBitPos := Ring(bitPos + 1, dataLengthInBits);
    output := [];
    while |output| < outputBytes
      invariant |output| <= outputBytes && output == DataBytes(t, bitPos, outputBytes)[..|output|]
      invariant realBitPos == Ring(bitPos + 16 * |output| + 1, dataLengthInBits)
    {
      var memOut;
      memOut, realBitPos := ExtractByte(inTrack, dataLengthInBits, realBitPos, bitPos + 16 * |output|);
      output := output + [memOut];
    }
  }

  method ReadHeader(s: Search, inTrack: seq<bv8>, n: nat, w: int, track: nat) returns (r: Search)
    requires 0 < n <= 8 * |inTrack| && w >= -1
    ensures r == HeaderRead(s, DataBytes(BitsOf(inTrack)[..n], w, 10), track)
  {
    hide DataBytes, BitsOf, CrcBytes, Crc;
    var header := ExtractMFMDecodeRaw(inTrack, n, w, 10);
    var crc := Crc16(header[..8], 0xFFFF);
    StartValue();
    var badCrc := CrcBytes(crc) != header[8..];
    var headerErrors := 0;
    if header[6] < 1 { headerErrors := headerErrors + 1; }
    if badCrc { headerErrors := headerErrors + 1; }
    if header[4] as nat != track / 2 { headerErrors := headerErrors + 1; }
    if header[5] != (if track % 2 == 1 then 1 else 0) { headerErrors := headerErrors + 1; }
    if header[6] < 1 { header := header[6 := 1]; }
    r := Search(true, header, headerErrors, s.sectors);
  }

  method ReadData(s: Search, inTrack: seq<bv8>, n: nat, w: int) returns (r: Search)
    requires 0 < n <= 8 * |inTrack| && w >= -1 && Proper(s)
    ensures r == AtData(s, BitsOf(inTrack)[..n], w)
  {
    hide DataBytes, BitsOf, CrcBytes, Crc, SizeOf, Low;
    if !s.headerFound {
      return s;
    }
    var sectorDataSize := SizeOf(s.header);
    var mark := ExtractMFMDecodeRaw(inTrack, n, w, 4);
    var data := ExtractMFMDecodeRaw(inTrack, n, w + 64, sectorDataSize);
    var stored := ExtractMFMDecodeRaw(inTrack, n, w + 64 + 16 * sectorDataSize, 2);
    StartValue();
    var crc := Crc16(mark, 0xFFFF);
    Widened(crc);
    crc := Crc16(data, crc as bv32);
    var dataValid := CrcBytes(crc) == stored;
    var sectors := FileSector(s.sectors, s.headerErrors, s.header[6] as nat, data, dataValid);
    r := Search(false, s.header, s.headerErrors, sectors);
  }

  /** Files a sector under the number in the last header. */
  method FileSector(decodedTrack: DecodedTrack, headerErrors: nat, sector: nat, data: seq<bv8>, dataValid: bool) returns (sectors: DecodedTrack)
    requires sector > 0
    ensures sectors == Filed(decodedTrack, sector - 1, DecodedSector(data, if headerErrors + Count(dataValid) != 0 then 0 else 1))
  {
    var numErrors := if headerErrors + (if dataValid then 1 else 0) != 0 then 0 else 1;
    var sec := DecodedSector(data, numErrors);
    sectors := decodedTrack;
    if sector - 1 !in sectors {
      if sector <= 22 {
        sectors := sectors[sector - 1 := sec];
      }
    } else if sectors[sector - 1].numErrors > sec.numErrors {
      sectors := sectors[sector - 1 := sec];
    }
  }

  function ExpectedSectors(expectedNumSectors: nat, isHD: bool): nat {
    if expectedNumSectors > 0 then expectedNumSectors else if isHD then 18 else 9
  }

  /** Reads a track and files every sector on it. Where a sector is cut off by the end of the track,
      the reading goes on at its start. */
  method FindSectors(track: seq<bv8>, dataLengthInBits: nat, isHD: bool, trackNumber: nat, expectedNumSectors: nat,
                     decodedTrack: DecodedTrack, stale: seq<bv8>)
    returns (found: DecodedTrack, sectorsWithErrors: nat)
    requires 0 < dataLengthInBits <= 8 * |track| && |stale| == 10
    ensures var expected := ExpectedSectors(expectedNumSectors, isHD);
            var s0 := Search(false, stale, 0xFFFF, decodedTrack);
            var s := Scanned(BitsOf(track)[..dataLengthInBits], dataLengthInBits, trackNumber, s0);
            && found == (if expectedNumSectors > 0 then Filled(s.sectors, expected, SizeOf(s.header)) else s.sectors)
            && sectorsWithErrors == BadSectors(found, expected)
  {
    hide Register, ShiftedWide, BitOf, MarkIn, AtMark, Proper, SizeOf;
    ghost var t := BitsOf(track)[..dataLengthInBits];
    var decoded: bv64 := 0;
    var s := Search(false, stale, 0xFFFF, decodedTrack);
    ghost var s0 := s;
    NothingRead(t);
    StartProper(s);
    for bit := 0 to dataLengthInBits
      invariant Proper(s) && decoded == Register(t, bit - 64)
      invariant s == Scanned(t, bit, trackNumber, s0)
    {
      var realBitPos := bit % dataLengthInBits;
      RegisterShift(t, bit - 64);
      decoded := ShiftedWide(decoded, BitOf(track[realBitPos / 8], realBitPos % 8));
      s := LookAt(s, track, dataLengthInBits, decoded, bit + 1, trackNumber);
    }
    ProperHeader(s);
    var expectedSectors := if expectedNumSectors > 0 then expectedNumSectors else if isHD then IBM_HD_SECTORS else IBM_DD_SECTORS;
    found, sectorsWithErrors := FillIn(s.sectors, expectedSectors, expectedNumSectors > 0, SizeOf(s.header));
  }

  lemma {:induction false} StartProper(s: Search)
    requires |s.header| == 10 && !s.headerFound
    ensures Proper(s)
  {
  }

  lemma {:induction false} ProperHeader(s: Search)
    requires Proper(s)
    ensures |s.header| == 10
  {
  }

  /** What is done when the register holds a mark. */
  method LookAt(s: Search, track: seq<bv8>, n: nat, decoded: bv64, read: nat, trackNumber: nat) returns (r: Search)
    requires 0 < n <= 8 * |track| && Proper(s) && decoded == Register(BitsOf(track)[..n], read - 64)
    ensures var t := BitsOf(track)[..n]; var m := MarkIn(t, read);
            r == if m != [] then AtMark(s, m[0], t, read - 64, trackNumber) else s
    ensures Proper(r)
  {
    hide Register, HeaderRead, AtData, MarkValue, BitsOf;
    if MarkIn(BitsOf(track)[..n], read) != [] { MarkNotEarly(BitsOf(track)[..n], read); }
    r := s;
    if decoded == MarkValue(SectorHeader) {
      r := ReadHeader(s, track, n, read - 64, trackNumber);
    } else if decoded == MarkValue(DeletedData) || decoded == MarkValue(SectorData) {
      r := ReadData(s, track, n, read - 64);
    } else if decoded == MarkValue(TrackHeader) {
      r := s.(headerFound := false);
    }
  }

  lemma {:induction false} NothingRead(t: seq<bool>)
    requires |t| > 0
    ensures Register(t, -64) == 0
  {
  }
}
