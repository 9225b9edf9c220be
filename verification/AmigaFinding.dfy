/** Finding and decoding the sectors of an Amiga track (adf/amiga_sectors.cpp). */
module AmigaFinding {
  import opened AmigaMfm
  import opened AmigaFormat
  import opened AmigaSectors
  import opened BitStreams
  import opened SectorCommon

  /** What the bytes behind a sync turn out to be. */
  datatype Find = Rubbish | Sector(number: nat, sector: DecodedSector)

  /** The bytes of a sector that starts at bit p. */
  function RawSector(t: seq<bool>, p: nat): (r: seq<bv8>)
    requires |t| > 0
    ensures |r| == RAW_SECTOR_SIZE
  {
    seq(RAW_SECTOR_SIZE, j requires 0 <= j < RAW_SECTOR_SIZE => ByteAt(t, p + 8 * j))
  }

  function HeaderErrors(header: seq<bv8>, track: nat, expected: nat): nat
    requires |header| == 4
  {
    Count(header[1] > 166) + Count(header[3] as nat > expected) + Count(header[3] < 1) + Count(header[1] as nat != track)
  }

  function Judged(raw: seq<bv8>, track: nat, expected: nat): Find
    requires |raw| == RAW_SECTOR_SIZE && expected > 0
  {
    var header := Decoded(raw[0..8]);
    if header[0] != 0xFF || header[2] as nat > expected - 1 then Rubbish else
      var headerChecksum := Xor(Checksum(raw[0..8]), Checksum(raw[8..40]));
      var badHeader := LongAt(Decoded(raw[40..48]), 0) != headerChecksum;
      var badData := LongAt(Decoded(raw[48..56]), 0) != Checksum(raw[56..1080]);
      Sector(header[2] as nat,
             DecodedSector(Decoded(raw[56..1080]), (if badHeader then 10 else 0) + HeaderErrors(header, track, expected) + Count(badData)))
  }

  /** Of two readings of a sector, the one with fewer errors counts. */
  function Kept(m: DecodedTrack, f: Find): DecodedTrack {
    match f
    case Rubbish => m
    case Sector(n, s) => if n !in m || s.numErrors < m[n].numErrors then m[n := s] else m
  }

  /** A sector counts as read without errors exactly if its header and its data have the right checksums, and the
      header names the track and a plausible number of sectors to come; and a sector whose header has
      a wrong checksum has more errors than any whose header has the right one. */
  lemma {:induction false} ErrorsTell(raw: seq<bv8>, track: nat, expected: nat)
    requires |raw| == RAW_SECTOR_SIZE && expected > 0 && Judged(raw, track, expected).Sector?
    ensures var header, errors := Decoded(raw[0..8]), Judged(raw, track, expected).sector.numErrors;
            var headerRight := LongAt(Decoded(raw[40..48]), 0) == Xor(Checksum(raw[0..8]), Checksum(raw[8..40]));
            && header[0] == 0xFF && (header[2] as nat) < expected && Judged(raw, track, expected).number == header[2] as nat
            && (errors == 0 <==> headerRight && LongAt(Decoded(raw[48..56]), 0) == Checksum(raw[56..1080])
                                 && header[1] as nat == track && header[1] <= 166 && 1 <= header[3] as nat <= expected)
            && (headerRight <==> errors < 10)
  {
    hide Decoded, Checksum, Xor, LongAt;
  }

  /** One of the readings in the first n bits gives sector s for that number. */
  ghost predicate ReadAs(t: seq<bool>, n: nat, track: nat, expected: nat, number: nat, s: DecodedSector)
    requires |t| > 0 && expected > 0
  {
    exists i: nat :: 0 < i <= n && ReadEndingAt(t, i, track, expected) == Sector(number, s)
  }

  /** What is read when the last bit of a sync is bit i - 1. */
  function ReadEndingAt(t: seq<bool>, i: nat, track: nat, expected: nat): Find
    requires |t| > 0 && expected > 0
  {
    if WordAt(t, i - 32) == SEARCH then Judged(RawSector(t, i % |t|), track, expected) else Rubbish
  }

  /** Once filed, a sector stays as it is until it is read with fewer errors. */
  lemma {:induction false} StaysUnlessBetter(t: seq<bool>, a: nat, b: nat, track: nat, expected: nat, m: DecodedTrack)
    requires |t| > 0 && expected > 0 && a <= b
    ensures var p, r := Scanned(t, a, track, expected, m), Scanned(t, b, track, expected, m);
            forall k :: k in p ==> k in r && r[k].numErrors <= p[k].numErrors && (r[k].numErrors == p[k].numErrors ==> r[k] == p[k])
    decreases b
  {
    hide WordAt, RawSector, Judged;
    if a < b { StaysUnlessBetter(t, a, b - 1, track, expected, m); }
  }

  /** Of all readings of a sector, and what there was of it before, one with the fewest errors is kept. */
  lemma {:induction false} BestKept(t: seq<bool>, n: nat, track: nat, expected: nat, m: DecodedTrack)
    requires |t| > 0 && expected > 0
    ensures var r := Scanned(t, n, track, expected, m);
            && (forall k :: k in m ==> k in r && r[k].numErrors <= m[k].numErrors)
            && (forall i: nat {:trigger ReadEndingAt(t, i, track, expected)} :: 0 < i <= n && ReadEndingAt(t, i, track, expected).Sector? ==>
                  var f := ReadEndingAt(t, i, track, expected); f.number in r && r[f.number].numErrors <= f.sector.numErrors)
            && (forall k :: k in r ==> (k in m && r[k] == m[k]) || ReadAs(t, n, track, expected, k, r[k]))
  {
    hide WordAt, RawSector, Judged;
    if n > 0 {
      BestKept(t, n - 1, track, expected, m);
      var before, r, f := Scanned(t, n - 1, track, expected, m), Scanned(t, n, track, expected, m), ReadEndingAt(t, n, track, expected);
      assert r == Kept(before, f);
      forall k | k in r
        ensures (k in m && r[k] == m[k]) || ReadAs(t, n, track, expected, k, r[k])
      {
        if k in before && r[k] == before[k] {
          if ReadAs(t, n - 1, track, expected, k, r[k]) { MoreRead(t, n, track, expected, k, r[k]); }
        } else {
          assert f == Sector(k, r[k]);
        }
      }
    }
  }

  lemma {:induction false} MoreRead(t: seq<bool>, n: nat, track: nat, expected: nat, k: nat, s: DecodedSector)
    requires |t| > 0 && expected > 0 && n > 0 && ReadAs(t, n - 1, track, expected, k, s)
    ensures ReadAs(t, n, track, expected, k, s)
  {
    hide ReadEndingAt;
    var i: nat :| 0 < i <= n - 1 && ReadEndingAt(t, i, track, expected) == Sector(k, s);
  }

  /** What is found in the first n bits read. */
  function Scanned(t: seq<bool>, n: nat, track: nat, expected: nat, m: DecodedTrack): DecodedTrack
    requires |t| > 0 && expected > 0
  {
    if n == 0 then m else
      var before := Scanned(t, n - 1, track, expected, m);
      if WordAt(t, n - 32) == SEARCH then Kept(before, Judged(RawSector(t, n % |t|), track, expected)) else before
  }

  // ---------------------------------------------------------------------

  /** Copies a sector out of the track, bit by bit. */
  method ExtractRawSector(inTrack: seq<bv8>, dataLengthInBits: nat, bitPos: nat) returns (outSector: seq<bv8>)
    requires 0 < dataLengthInBits <= 8 * |inTrack| && bitPos < dataLengthInBits
    ensures outSector == RawSector(BitsOf(inTrack)[..dataLengthInBits], bitPos)
  {
    hide ByteAt, BitsOf, BitOf;
    ghost var t := BitsOf(inTrack)[..dataLengthInBits];
    var realBitPos := bitPos;
    outSector := [];
    while |outSector| < RAW_SECTOR_SIZE
      invariant |outSector| <= RAW_SECTOR_SIZE && outSector == RawSector(t, bitPos)[..|outSector|]
      invariant realBitPos == Ring(bitPos + 8 * |outSector|, dataLengthInBits)
    {
      var byteOut;
      byteOut, realBitPos := ExtractByte(inTrack, dataLengthInBits, realBitPos, bitPos + 8 * |outSector|);
      outSector := outSector + [byteOut];
    }
  }

  function PartByte(t: seq<bool>, p: nat, n: nat, start: bv8): bv8
    requires |t| > 0
  {
    if n == 0 then start else Shifted(PartByte(t, p, n - 1, start), BitAt(t, p + n - 1))
  }

  lemma {:induction false} PartStep(t: seq<bool>, p: nat, n: nat, start: bv8)
    requires |t| > 0
    ensures PartByte(t, p, n + 1, start) == Shifted(PartByte(t, p, n, start), BitAt(t, p + n))
    ensures PartByte(t, p, 0, start) == start
  {
  }

  lemma {:induction false} WholeByte(t: seq<bool>, p: nat, start: bv8)
    requires |t| > 0
    ensures PartByte(t, p, 8, start) == ByteAt(t, p)
  {
    hide BitAt, Shifted, Pack, PartByte;
    PartStep(t, p, 0, start);
    PartStep(t, p, 1, start);
    PartStep(t, p, 2, start);
    PartStep(t, p, 3, start);
    PartStep(t, p, 4, start);
    PartStep(t, p, 5, start);
    PartStep(t, p, 6, start);
    PartStep(t, p, 7, start);
    var b0, b1, b2, b3 := BitAt(t, p), BitAt(t, p + 1), BitAt(t, p + 2), BitAt(t, p + 3);
    var b4, b5, b6, b7 := BitAt(t, p + 4), BitAt(t, p + 5), BitAt(t, p + 6), BitAt(t, p + 7);
    EightShifts(start, b0, b1, b2, b3, b4, b5, b6, b7);
  }

  method ExtractByte(inTrack: seq<bv8>, dataLengthInBits: nat, realBitPos0: nat, ghost p: nat) returns (byteOut: bv8, realBitPos: nat)
    requires 0 < dataLengthInBits <= 8 * |inTrack| && realBitPos0 == Ring(p, dataLengthInBits)
    ensures byteOut == ByteAt(BitsOf(inTrack)[..dataLengthInBits], p) && realBitPos == Ring(p + 8, dataLengthInBits)
  {
    hide Shifted, BitOf, ByteAt, PartByte, BitAt, BitsOf, Ring;
    ghost var t := BitsOf(inTrack)[..dataLengthInBits];
    byteOut := *;
    ghost var garbage := byteOut;
    PartStep(t, p, 0, garbage);
    realBitPos := realBitPos0;
    for bit := 0 to 8
      invariant realBitPos == Ring(p + bit, dataLengthInBits)
      invariant byteOut == PartByte(t, p, bit, garbage)
    {
      TrackBit(inTrack, dataLengthInBits, p + bit);
      PartStep(t, p, bit, garbage);
      byteOut := Shifted(byteOut, BitOf(inTrack[realBitPos / 8], realBitPos % 8));
      RingAdd(p + bit, 1, dataLengthInBits);
      realBitPos := Ring(realBitPos + 1, dataLengthInBits);
    }
    WholeByte(t, p, garbage);
  }

  /** Decodes a sector and files it. */
  method DecodeSector(raw: seq<bv8>, track: nat, expected: nat, decodedTrack: DecodedTrack) returns (r: DecodedTrack)
    requires |raw| == RAW_SECTOR_SIZE && expected > 0
    ensures r == Kept(decodedTrack, Judged(raw, track, expected))
  {
    hide Decoded, Checksum, Xor, LongAt, HeaderErrors;
    var numErrors := 0;
    var header, badHeader := DecodeHeader(raw);
    if badHeader { numErrors := numErrors + 10; }
    if header[0] != 0xFF { return decodedTrack; }
    if header[2] as nat > expected - 1 { return decodedTrack; }
    var fieldErrors := CheckFields(header, track, expected);
    numErrors := numErrors + fieldErrors;
    var data, badData := DecodeData(raw);
    if badData { numErrors := numErrors + 1; }
    var sector, number := DecodedSector(data, numErrors), header[2] as nat;
    r := decodedTrack;
    if number !in decodedTrack {
      r := r[number := sector];
    } else if sector.numErrors < decodedTrack[number].numErrors {
      r := r[number := sector];
    }
  }

  method CheckFields(header: seq<bv8>, track: nat, expected: nat) returns (numErrors: nat)
    requires |header| == 4
    ensures numErrors == HeaderErrors(header, track, expected)
  {
    numErrors := 0;
    if header[1] > 166 { numErrors := numErrors + 1; }
    if header[3] as nat > expected { numErrors := numErrors + 1; }
    if header[3] < 1 { numErrors := numErrors + 1; }
    if header[1] as nat != track { numErrors := numErrors + 1; }
  }

  method DecodeHeader(raw: seq<bv8>) returns (header: seq<bv8>, bad: bool)
    requires |raw| == RAW_SECTOR_SIZE
    ensures header == Decoded(raw[0..8])
    ensures bad <==> LongAt(Decoded(raw[40..48]), 0) != Xor(Checksum(raw[0..8]), Checksum(raw[8..40]))
  {
    hide Decoded, Checksum, Xor, LongAt;
    var headerChecksumCalculated;
    header, headerChecksumCalculated := DecodeMFMdata(raw, 0, 4);
    var sectorLabel, labelChecksum := DecodeMFMdata(raw, 8, 16);
    headerChecksumCalculated := Xor(headerChecksumCalculated, labelChecksum);
    var headerChecksum, _ := DecodeMFMdata(raw, 40, 4);
    bad := LongAt(headerChecksum, 0) != headerChecksumCalculated;
  }

  method DecodeData(raw: seq<bv8>) returns (data: seq<bv8>, bad: bool)
    requires |raw| == RAW_SECTOR_SIZE
    ensures data == Decoded(raw[56..1080])
    ensures bad <==> LongAt(Decoded(raw[48..56]), 0) != Checksum(raw[56..1080])
  {
    hide Decoded, Checksum, Xor, LongAt;
    var dataChecksum, _ := DecodeMFMdata(raw, 48, 4);
    var dataChecksumCalculated;
    data, dataChecksumCalculated := DecodeMFMdata(raw, 56, SECTOR_BYTES);
    bad := LongAt(dataChecksum, 0) != dataChecksumCalculated;
  }

  function ExpectedSectors(expectedNumSectors: nat, isHD: bool): nat {
    if expectedNumSectors > 0 then expectedNumSectors else if isHD then 22 else 11
  }

  /** Reads a track, and a bit of it again, and files every sector behind a sync. */
  method FindSectors(track: seq<bv8>, dataLengthInBits: nat, isHD: bool, trackNumber: nat, expectedNumSectors: nat, decodedTrack: DecodedTrack)
    returns (found: DecodedTrack, sectorsWithErrors: nat)
    requires 0 < dataLengthInBits <= 8 * |track|
    ensures var expected := ExpectedSectors(expectedNumSectors, isHD);
            var scanned := Scanned(BitsOf(track)[..dataLengthInBits], dataLengthInBits + RAW_SECTOR_SIZE * 8 * 3, trackNumber, expected, decodedTrack);
            && found == (if expectedNumSectors > 0 then Filled(scanned, expected, SECTOR_BYTES) else scanned)
            && sectorsWithErrors == BadSectors(found, expected)
  {
    hide WordAt, ShiftedWord, BitOf, Judged, Kept;
    ghost var t := BitsOf(track)[..dataLengthInBits];
    var decoded: bv32 := 0;
    var totalBitsToSearch := dataLengthInBits + RAW_SECTOR_SIZE * 8 * 3;
    var expectedSectors := if expectedNumSectors > 0 then expectedNumSectors else if isHD then NUM_SECTORS_PER_TRACK_HD else NUM_SECTORS_PER_TRACK_DD;
    found := decodedTrack;
    NothingRead(t);
    for bit := 0 to totalBitsToSearch
      invariant decoded == WordAt(t, bit - 32)
      invariant found == Scanned(t, bit, trackNumber, expectedSectors, decodedTrack)
    {
      var realBitPos := bit % dataLengthInBits;
      WordShift(t, bit - 32);
      decoded := ShiftedWord(decoded, BitOf(track[realBitPos / 8], realBitPos % 8));
      if decoded == SEARCH {
        var alignedSector := ExtractRawSector(track, dataLengthInBits, (bit + 1) % dataLengthInBits);
        found := DecodeSector(alignedSector, trackNumber, expectedSectors, found);
      }
    }
    found, sectorsWithErrors := FillIn(found, expectedSectors, expectedNumSectors > 0, SECTOR_BYTES);
  }

  lemma {:induction false} NothingRead(t: seq<bool>)
    requires |t| > 0
    ensures WordAt(t, -32) == 0
  {
  }
}
