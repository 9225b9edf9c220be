/** What is written to an Amiga track is found again, wherever the reading starts. */
module AmigaRoundTrip {
  import opened AmigaMfm
  import opened AmigaFormat
  import opened AmigaSectors
  import opened AmigaFinding
  import opened BitStreams
  import opened ClockRule
  import opened SectorCommon

  // ---------------------------------------------------------------------
  // One sector

  /** A sector that was written is read back with its data and without errors. */
  lemma {:induction false} JudgedRight(raw: seq<bv8>, track: nat, sector: nat, total: nat, data: seq<bv8>, expected: nat)
    requires |raw| == RAW_SECTOR_SIZE && |data| == SECTOR_BYTES
    requires raw[0..1080] == Clocked(0x89, Body(track, sector, total, data))
    requires track <= 166 && sector < total <= expected && total < 0x100
    ensures Judged(raw, track, expected) == Sector(sector, DecodedSector(data, 0))
  {
    hide Encoded, Bytes, Checksum, Body, HeaderChecksum, Clocked, Decoded, LongAt, SameData, Xor, Byte;
    var b := Body(track, sector, total, data);
    BodyParts(track, sector, total, data);
    ReadPart(raw, b, 0, 8, Header(track, sector, total));
    ReadPart(raw, b, 8, 40, seq(16, i => 0));
    ReadPart(raw, b, 40, 48, Bytes(HeaderChecksum(track, sector, total)));
    ReadPart(raw, b, 48, 56, Bytes(Checksum(Encoded(data))));
    ReadPart(raw, b, 56, 1080, data);
    BytesLong(HeaderChecksum(track, sector, total));
    BytesLong(Checksum(Encoded(data)));
    ChecksumIs(track, sector, total);
    assert (total - sector) % 0x100 == total - sector;
    ByteValue(track);
    ByteValue(sector);
    ByteValue(total - sector);
    ByteCompare(track);
  }

  lemma {:induction false} ByteCompare(track: nat)
    requires track <= 166
    ensures !(Byte(track) > 166)
  {
  }

  lemma {:induction false} ChecksumIs(track: nat, sector: nat, total: nat)
    ensures HeaderChecksum(track, sector, total) == Xor(Checksum(Encoded(Header(track, sector, total))), Checksum(Encoded(seq(16, i => 0))))
  {
  }

  // ---------------------------------------------------------------------
  // The bytes of a track

  lemma {:induction false} FixedNoGap(prev: bv8)
    ensures NoGap(prev, 0xAA) && NoGap(0xAA, 0x44) && NoGap(0x89, 0x44)
    ensures prev & 1 != 0 ==> NoGap(prev, 0x2A) && NoGap(prev, 0x2F)
  {
  }

  lemma {:induction false} FirstNoGap(b: bv8)
    ensures NoGap(0x89, WithClocks(0x89, b))
  {
  }

  /** Whether byte j is the second byte of a sync word. */
  predicate InSync(start: nat, n: nat, j: nat) {
    j >= start && (j - start) / RAW_SECTOR_SIZE < n && ((j - start) % RAW_SECTOR_SIZE == 5 || (j - start) % RAW_SECTOR_SIZE == 7)
  }

  function Prev(e: seq<bv8>, j: nat): bv8
    requires j < |e|
  {
    e[if j == 0 then |e| - 1 else j - 1]
  }

  /** n sectors from byte `start` on; outside their sync words the clock rule holds, all around. */
  ghost predicate Layout(e: seq<bv8>, start: nat, n: nat) {
    hide NoGap, InSync;
    && |e| == start + RAW_SECTOR_SIZE * n + 8 && start > 8
    && (forall j :: 0 <= j < |e| ==> if InSync(start, n, j) then e[j] == 0x89 else NoGap(Prev(e, j), e[j]))
    && (forall k :: 0 <= k < n ==> SyncAt(e, start + RAW_SECTOR_SIZE * k + 4))
  }

  ghost predicate SyncAt(e: seq<bv8>, j: nat) {
    j + 4 <= |e| && e[j] == 0x44 && e[j + 1] == 0x89 && e[j + 2] == 0x44 && e[j + 3] == 0x89
  }

  /** Byte o of a sector, and the byte before it, which for the first one is lastByte. */
  lemma {:induction false} SectorByte(track: nat, sector: nat, total: nat, data: seq<bv8>, lastByte: bv8, o: nat)
    requires |data| == SECTOR_BYTES && o < RAW_SECTOR_SIZE
    ensures var s := SectorBytes(track, sector, total, data, lastByte);
            && s[4] == 0x44 && s[5] == 0x89 && s[6] == 0x44 && s[7] == 0x89
            && (o != 5 && o != 7 ==> NoGap(if o == 0 then lastByte else s[o - 1], s[o]))
  {
    hide WithClocks, NoGap, Body;
    FixedNoGap(lastByte);
    FixedNoGap(0xAA);
    FixedNoGap(0x2A);
    var b := Body(track, sector, total, data);
    if o == 0 {} else if o == 1 {} else if o == 2 {} else if o == 3 {} else if o == 4 {} else if o == 6 {} else if o == 8 {
      FirstNoGap(b[0]);
    } else if o > 8 {
      ClockedNoGap(if o == 9 then 0x89 else b[o - 10], b[o - 9], b[o - 8]);
    }
  }

  /** Where a byte of the run is. */
  lemma {:induction false} Split(j: nat)
    ensures j == RAW_SECTOR_SIZE * (j / RAW_SECTOR_SIZE) + j % RAW_SECTOR_SIZE && j % RAW_SECTOR_SIZE < RAW_SECTOR_SIZE
  {
  }

  lemma {:induction false} RunByte(run: seq<bv8>, k: nat, o: nat, track: nat, sector: nat, total: nat, data: seq<bv8>)
    requires |data| == SECTOR_BYTES && HasSector(run, k, track, sector, total, data) && o < RAW_SECTOR_SIZE
    ensures var b := RAW_SECTOR_SIZE * k;
            && b + RAW_SECTOR_SIZE <= |run|
            && run[b + 4] == 0x44 && run[b + 5] == 0x89 && run[b + 6] == 0x44 && run[b + 7] == 0x89
            && (o != 5 && o != 7 ==> NoGap(if b + o == 0 then 0xAA else run[b + o - 1], run[b + o]))
  {
    hide SectorBytes, NoGap;
    var b := RAW_SECTOR_SIZE * k;
    var last := if k == 0 then 0xAA else run[b - 1];
    var s := SectorBytes(track, sector, total, data, last);
    SectorByte(track, sector, total, data, last, o);
    assert run[b..b + RAW_SECTOR_SIZE] == s;
    assert run[b + 4] == s[4] && run[b + 5] == s[5] && run[b + 6] == s[6] && run[b + 7] == s[7];
    assert run[b + o] == s[o] && (o > 0 ==> run[b + o - 1] == s[o - 1]);
  }

  lemma {:induction false} PaddingNoGap(lastByte: bv8, o: nat)
    requires o < 8
    ensures NoGap(if o == 0 then lastByte else Padding(lastByte)[o - 1], Padding(lastByte)[o])
  {
    hide NoGap;
    FixedNoGap(lastByte);
    FixedNoGap(0xAA);
    FixedNoGap(0x2F);
    if o == 0 {} else if o == 1 {} else {}
  }

  /** The track is laid out as it should be. */
  lemma {:induction false} TrackLayout(sectors: Sectors, order: seq<nat>, track: nat, isHD: bool)
    requires FullSize(sectors) && Numbers(sectors, order)
    ensures Layout(TrackBytes(sectors, order, track, isHD), FillerSize(isHD), |order|)
  {
    hide NoGap, SectorRun, Padding, InSync, HasSector;
    var e, start, n := TrackBytes(sectors, order, track, isHD), FillerSize(isHD), |order|;
    var run := SectorRun(sectors, order, track, |sectors|);
    forall j | 0 <= j < |e|
      ensures if InSync(start, n, j) then e[j] == 0x89 else NoGap(Prev(e, j), e[j])
    {
      TrackByte(sectors, order, track, isHD, j);
    }
    forall k | 0 <= k < n
      ensures SyncAt(e, start + RAW_SECTOR_SIZE * k + 4)
    {
      RunAt(sectors, order, track, |sectors|, k);
      RunByte(run, k, 0, track, order[k], |sectors|, sectors[order[k]]);
      InTrack(e, start, run, LastByte(run), RAW_SECTOR_SIZE * k + 4);
      InTrack(e, start, run, LastByte(run), RAW_SECTOR_SIZE * k + 5);
      InTrack(e, start, run, LastByte(run), RAW_SECTOR_SIZE * k + 6);
      InTrack(e, start, run, LastByte(run), RAW_SECTOR_SIZE * k + 7);
    }
  }

  lemma {:induction false} TrackByte(sectors: Sectors, order: seq<nat>, track: nat, isHD: bool, j: nat)
    requires FullSize(sectors) && Numbers(sectors, order)
    requires j < |TrackBytes(sectors, order, track, isHD)|
    ensures var e, start := TrackBytes(sectors, order, track, isHD), FillerSize(isHD);
            if InSync(start, |order|, j) then e[j] == 0x89 else NoGap(Prev(e, j), e[j])
  {
    hide NoGap, SectorRun, Padding, HasSector, InSync;
    var e, start := TrackBytes(sectors, order, track, isHD), FillerSize(isHD);
    var run := SectorRun(sectors, order, track, |sectors|);
    if j < start {
      FixedNoGap(Prev(e, j));
      assert e[j] == Filler(start)[j];
      NotInSync(start, |order|, j);
    } else if j < start + |run| {
      RunTrackByte(sectors, order, track, isHD, j - start);
    } else {
      PaddingNoGap(LastByte(run), j - start - |run|);
      assert e[j] == Padding(LastByte(run))[j - start - |run|];
      assert j == start + |run| ==> Prev(e, j) == LastByte(run);
      NotInSync(start, |order|, j);
    }
  }

  lemma {:induction false} NotInSync(start: nat, n: nat, j: nat)
    requires j < start || j >= start + RAW_SECTOR_SIZE * n
    ensures !InSync(start, n, j)
  {
    if j >= start { Split(j - start); }
  }

  /** Byte i of the sector run, as a byte of the track. */
  lemma {:induction false} RunTrackByte(sectors: Sectors, order: seq<nat>, track: nat, isHD: bool, i: nat)
    requires FullSize(sectors) && Numbers(sectors, order) && i < RAW_SECTOR_SIZE * |order|
    ensures var e, j := TrackBytes(sectors, order, track, isHD), FillerSize(isHD) + i;
            if InSync(FillerSize(isHD), |order|, j) then e[j] == 0x89 else NoGap(Prev(e, j), e[j])
  {
    hide NoGap, SectorRun, Padding, HasSector;
    var e, start := TrackBytes(sectors, order, track, isHD), FillerSize(isHD);
    var run := SectorRun(sectors, order, track, |sectors|);
    Split(i);
    var k, o := i / RAW_SECTOR_SIZE, i % RAW_SECTOR_SIZE;
    RunAt(sectors, order, track, |sectors|, k);
    RunByte(run, k, o, track, order[k], |sectors|, sectors[order[k]]);
    InTrack(e, start, run, LastByte(run), i);
    assert Prev(e, start + i) == if i == 0 then 0xAA else run[i - 1];
  }
}
