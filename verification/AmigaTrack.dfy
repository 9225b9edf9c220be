/** Round trip of whole Amiga tracks under rotation. */
module AmigaTrack {
  import opened AmigaMfm
  import opened AmigaFormat
  import opened AmigaSectors
  import opened AmigaFinding
  import opened AmigaRoundTrip
  import opened SyncSearch
  import opened Arithmetic
  import opened BitStreams
  import opened SectorCommon
  import opened ClockRule

  lemma {:induction false} SearchBytes(a: bv8, b: bv8, c: bv8, d: bv8)
    ensures Word(a, b, c, d) == SEARCH <==> a == 0x44 && b == 0x89 && c == 0x44 && d == 0x89
  {
  }

  lemma {:induction false} SyncBits(b0: bool, b1: bool, b2: bool, b3: bool, b4: bool, b5: bool, b6: bool, b7: bool)
    ensures Pack(b0, b1, b2, b3, b4, b5, b6, b7) == 0x44 ==> b1 && !b2 && !b3 && !b4
    ensures Pack(b0, b1, b2, b3, b4, b5, b6, b7) == 0x89 ==> !b1 && !b2 && !b3
  {
  }

  lemma {:induction false} ByteSyncBits(t: seq<bool>, p: int)
    requires |t| > 0
    ensures ByteAt(t, p) == 0x44 ==> BitAt(t, p + 1) && !BitAt(t, p + 2) && !BitAt(t, p + 3) && !BitAt(t, p + 4)
    ensures ByteAt(t, p) == 0x89 ==> !BitAt(t, p + 1) && !BitAt(t, p + 2) && !BitAt(t, p + 3)
  {
    hide BitAt, Pack;
    SyncBits(BitAt(t, p), BitAt(t, p + 1), BitAt(t, p + 2), BitAt(t, p + 3), BitAt(t, p + 4), BitAt(t, p + 5), BitAt(t, p + 6), BitAt(t, p + 7));
  }

  /** Bit p of the rotated ring, p perhaps before the start, on the original ring. */
  lemma {:induction false} OnOriginal(s: seq<bool>, r: nat, t: seq<bool>, p: int)
    requires |s| > 0 && Rotated(s, r, t) && |t| == |s| && p >= 0
    ensures BitAt(t, p) == BitAt(s, p + r + |s|)
  {
    hide BitAt;
    RotatedBit(s, r, t, p);
    ModOnce(p + r, |s|);
    SameBit(s, p + r + |s|, p + r);
  }

  lemma {:induction false} OriginalGap(s: seq<bool>, r: nat, t: seq<bool>, p: int)
    requires |s| > 0 && Rotated(s, r, t) && |t| == |s| && p > 0
    requires !BitAt(t, p - 1) && !BitAt(t, p) && !BitAt(t, p + 1)
    ensures Gap(s, p + r + |s|)
  {
    hide BitAt;
    OnOriginal(s, r, t, p - 1);
    OnOriginal(s, r, t, p);
    OnOriginal(s, r, t, p + 1);
  }

  /** What the search register holds when it matches, even if the reading has hardly begun. */
  lemma {:induction false} MatchIsPattern(s: seq<bool>, r: nat, t: seq<bool>, p: int)
    requires |s| > 0 && Rotated(s, r, t) && |t| == |s| && WordAt(t, p) == SEARCH
    ensures p >= -1 && Pattern(s, p + r + |s|)
  {
    SearchBytes(ByteAt(t, p), ByteAt(t, p + 8), ByteAt(t, p + 16), ByteAt(t, p + 24));
    hide ByteAt, Word, Rotated, Gap;
    ByteSyncBits(t, p);
    ByteSyncBits(t, p + 8);
    ByteSyncBits(t, p + 16);
    ByteSyncBits(t, p + 24);
    assert p >= -1 by { assert BitAt(t, p + 1); }
    OriginalGap(s, r, t, p + 3);
    OriginalGap(s, r, t, p + 10);
    OriginalGap(s, r, t, p + 19);
    OriginalGap(s, r, t, p + 26);
  }

  // ---------------------------------------------------------------------

  lemma {:induction false} SameByte(s: seq<bool>, a: nat, b: nat)
    requires |s| > 0 && a % |s| == b % |s|
    ensures ByteAt(s, a) == ByteAt(s, b)
  {
    hide BitAt, Pack;
    SameBitOn(s, a, b, 0);
    SameBitOn(s, a, b, 1);
    SameBitOn(s, a, b, 2);
    SameBitOn(s, a, b, 3);
    SameBitOn(s, a, b, 4);
    SameBitOn(s, a, b, 5);
    SameBitOn(s, a, b, 6);
    SameBitOn(s, a, b, 7);
  }

  lemma {:induction false} SameBitOn(s: seq<bool>, a: nat, b: nat, d: nat)
    requires |s| > 0 && a % |s| == b % |s|
    ensures BitAt(s, a + d) == BitAt(s, b + d)
  {
    ModAdd(a, d, |s|);
    ModAdd(b, d, |s|);
  }

  /** Byte j of the original bytes, read from the rotated ring. */
  lemma {:induction false} ReadByte(e: seq<bv8>, r: nat, t: seq<bool>, p: nat, base: nat, j: nat)
    requires |e| > 0 && Rotated(BitsOf(e), r, t) && (p + r) % (8 * |e|) == 8 * base && base + j < |e|
    ensures |t| == 8 * |e| && ByteAt(t, p + 8 * j) == e[base + j]
  {
    hide ByteAt, BitsOf;
    var s := BitsOf(e);
    RotatedByte(s, r, t, p + 8 * j);
    ModAdd(p + r, 8 * j, |s|);
    SameByte(s, p + 8 * j + r, 8 * (base + j));
    ByteOfBits(e, base + j);
  }

  lemma {:induction false} LayoutSync(e: seq<bv8>, start: nat, n: nat, k: nat)
    requires Layout(e, start, n) && k < n
    ensures SyncAt(e, start + RAW_SECTOR_SIZE * k + 4)
  {
    hide NoGap, InSync, SyncAt;
  }

  /** The register matches behind every pair of sync words. */
  lemma {:induction false} MatchAt(e: seq<bv8>, start: nat, n: nat, r: nat, t: seq<bool>, k: nat, p: nat)
    requires Layout(e, start, n) && k < n && Rotated(BitsOf(e), r, t)
    requires (p + r) % (8 * |e|) == 8 * (start + RAW_SECTOR_SIZE * k + 4)
    ensures |t| > 0 && WordAt(t, p) == SEARCH
  {
    hide ByteAt, BitsOf, Word, Layout, Rotated;
    var j := start + RAW_SECTOR_SIZE * k + 4;
    LayoutSync(e, start, n, k);
    ReadByte(e, r, t, p, j, 0);
    ReadByte(e, r, t, p, j, 1);
    ReadByte(e, r, t, p, j, 2);
    ReadByte(e, r, t, p, j, 3);
    SearchBytes(0x44, 0x89, 0x44, 0x89);
  }

  /** A written track, read from bit r on. */
  datatype Reading = Reading(sectors: Sectors, order: seq<nat>, track: nat, isHD: bool, r: nat, t: seq<bool>) {
    ghost function Bytes(): seq<bv8>
      requires FullSize(sectors) && Numbers(sectors, order)
    {
      TrackBytes(sectors, order, track, isHD)
    }

    /** Sectors 0 to n - 1, at most `expected` of them. */
    ghost predicate Valid(expected: nat) {
      && FullSize(sectors) && Ordering(sectors, order) && Numbers(sectors, order)
      && |order| <= expected && |order| < 0x100 && expected > 0 && track <= 166
      && (forall k :: k in sectors ==> k < |sectors|)
      && Rotated(BitsOf(Bytes()), r, t) && |t| == 8 * |Bytes()|
    }

    /** Where in the track bytes the sync words of the k-th sector start. */
    function Sync(k: nat): nat {
      FillerSize(isHD) + RAW_SECTOR_SIZE * k + 4
    }
  }

  lemma {:induction false} ReadingLayout(d: Reading, expected: nat)
    requires d.Valid(expected)
    ensures Layout(d.Bytes(), FillerSize(d.isHD), |d.order|)
    ensures |d.Bytes()| == FillerSize(d.isHD) + RAW_SECTOR_SIZE * |d.order| + 8
  {
    hide Layout, BitsOf, Rotated;
    TrackLayout(d.sectors, d.order, d.track, d.isHD);
  }

  /** The sector bytes of a track. */
  lemma {:induction false} BodyInTrack(d: Reading, expected: nat, k: nat, j: nat)
    requires d.Valid(expected) && k < |d.order| && j < 1080
    ensures d.Sync(k) + 4 + j < |d.Bytes()|
    ensures d.Bytes()[d.Sync(k) + 4 + j] == Clocked(0x89, Body(d.track, d.order[k], |d.sectors|, d.sectors[d.order[k]]))[j]
  {
    hide SectorRun, Padding, Body, Clocked, BitsOf, Rotated;
    var run, b := SectorRun(d.sectors, d.order, d.track, |d.sectors|), RAW_SECTOR_SIZE * k;
    RunAt(d.sectors, d.order, d.track, |d.sectors|, k);
    InTrack(d.Bytes(), FillerSize(d.isHD), run, LastByte(run), b + 8 + j);
    assert run[b + 8 + j] == run[b..b + RAW_SECTOR_SIZE][8 + j];
  }

  /** Sector k is read right from bit q on. */
  ghost predicate RightAt(d: Reading, expected: nat, k: nat, q: nat) {
    hide Judged, RawSector;
    && |d.t| > 0 && expected > 0 && k < |d.order| && d.order[k] in d.sectors
    && Judged(RawSector(d.t, q), d.track, expected) == Sector(d.order[k], DecodedSector(d.sectors[d.order[k]], 0))
  }

  /** Behind a match lies a sector, and it is decoded without errors. */
  lemma {:induction false} SectorRead(d: Reading, expected: nat, k: nat, q: nat)
    requires d.Valid(expected) && k < |d.order|
    requires |d.t| > 0 && (q + d.r) % |d.t| == 8 * (d.Sync(k) + 4)
    ensures RightAt(d, expected, k, q)
  {
    hide ByteAt, BitsOf, Rotated, Body, Clocked, TrackBytes, Judged;
    var raw := RawSector(d.t, q);
    var body := Clocked(0x89, Body(d.track, d.order[k], |d.sectors|, d.sectors[d.order[k]]));
    forall j | 0 <= j < 1080
      ensures raw[j] == body[j]
    {
      BodyInTrack(d, expected, k, j);
      ReadByte(d.Bytes(), d.r, d.t, q, d.Sync(k) + 4, j);
    }
    assert raw[0..1080] == body;
    JudgedRight(raw, d.track, d.order[k], |d.sectors|, d.sectors[d.order[k]], expected);
  }

  /** A match of the register after n bits: which sector it announces. */
  lemma {:induction false} MatchMeans(d: Reading, expected: nat, n: nat) returns (k: nat)
    requires d.Valid(expected) && n > 0 && |d.t| > 0 && WordAt(d.t, n - 32) == SEARCH
    ensures k < |d.order| && RightAt(d, expected, k, n % |d.t|)
  {
    hide Layout, WordAt, BitsOf, Rotated, TrackBytes, Pattern, Judged, RawSector;
    var e := d.Bytes();
    ReadingLayout(d, expected);
    MatchIsPattern(BitsOf(e), d.r, d.t, n - 32);
    k := OnlyAtSync(e, FillerSize(d.isHD), |d.order|, n - 32 + d.r + |d.t|);
    var p := n - 32 + d.r + |d.t|;
    ModAdd(p, 32, |d.t|);
    ModSmall(8 * d.Sync(k) + 32, |d.t|);
    ModOnce(n + d.r, |d.t|);
    ModAdd(n, d.r, |d.t|);
    SectorRead(d, expected, k, n % |d.t|);
  }

  ghost function Recovered(sectors: Sectors): DecodedTrack {
    map k | k in sectors :: DecodedSector(sectors[k], 0)
  }

  /** Nothing is ever filed that was not written. */
  lemma {:induction false} OnlyWritten(d: Reading, expected: nat, n: nat)
    requires d.Valid(expected)
    ensures var m := Scanned(d.t, n, d.track, expected, map[]);
            forall k :: k in m ==> k in d.sectors && m[k] == DecodedSector(d.sectors[k], 0)
  {
    hide WordAt, BitsOf, Rotated, TrackBytes, Judged, RawSector;
    if n > 0 {
      OnlyWritten(d, expected, n - 1);
      if WordAt(d.t, n - 32) == SEARCH {
        var k := MatchMeans(d, expected, n);
        assert d.order[k] in d.order;
      }
    }
  }

  /** Once its sync words have been read, a sector is there to stay. */
  lemma {:induction false} StaysFiled(d: Reading, expected: nat, k: nat, n0: nat, n: nat)
    requires d.Valid(expected) && k < |d.order| && 32 <= n0 <= n
    requires (n0 - 32 + d.r) % |d.t| == 8 * d.Sync(k)
    ensures d.order[k] in Scanned(d.t, n, d.track, expected, map[])
    decreases n
  {
    hide WordAt, BitsOf, Rotated, TrackBytes, Judged, RawSector, Layout;
    if n > n0 {
      StaysFiled(d, expected, k, n0, n - 1);
    } else {
      var e := d.Bytes();
      ReadingLayout(d, expected);
      MatchAt(e, FillerSize(d.isHD), |d.order|, d.r, d.t, k, n0 - 32);
      var p := n0 - 32 + d.r;
      ModAdd(p, 32, |d.t|);
      ModSmall(8 * d.Sync(k) + 32, |d.t|);
      ModAdd(n0, d.r, |d.t|);
      SectorRead(d, expected, k, n0 % |d.t|);
    }
  }

  lemma {:induction false} Reached(at: nat, r: nat, n: nat) returns (n0: nat)
    requires at < n
    ensures 32 <= n0 < n + 32 && (n0 - 32 + r) % n == at
  {
    var x, q := at + n - r % n, r / n;
    n0 := 32 + x % n;
    ModAdd(x, r, n);
    assert x + r == at + (q + 1) * n by { assert r == q * n + r % n; }
    ModShift(at, q + 1, n);
    ModSmall(at, n);
  }

  /** Wherever the reading of a written track starts, exactly the sectors written are found, with
      their data and without errors. */
  lemma {:induction false} AllFound(d: Reading, expected: nat, n: nat)
    requires d.Valid(expected) && n >= |d.t| + 32
    ensures Scanned(d.t, n, d.track, expected, map[]) == Recovered(d.sectors)
  {
    hide BitsOf, Rotated, TrackBytes, Scanned;
    var m := Scanned(d.t, n, d.track, expected, map[]);
    OnlyWritten(d, expected, n);
    ReadingLayout(d, expected);
    forall k | k in d.sectors
      ensures k in m
    {
      OneFound(d, expected, n, k);
    }
  }

  lemma {:induction false} OneFound(d: Reading, expected: nat, n: nat, k: nat)
    requires d.Valid(expected) && n >= |d.t| + 32 && k in d.sectors
    ensures k in Scanned(d.t, n, d.track, expected, map[])
  {
    hide BitsOf, Rotated, TrackBytes, Scanned;
    ReadingLayout(d, expected);
    var i :| 0 <= i < |d.order| && d.order[i] == k;
    var n0 := Reached(8 * d.Sync(i), d.r, |d.t|);
    StaysFiled(d, expected, i, n0, n);
  }

  lemma {:induction false} AllNumbers(d: Reading, expected: nat, k: nat)
    requires d.Valid(expected) && k < |d.sectors|
    ensures k in d.sectors
  {
    hide BitsOf, Rotated, TrackBytes;
    AllBelow(d.sectors.Keys, |d.sectors|);
  }

  /** The round trip: whatever the order of the sectors and wherever the reading starts, the sectors
      come back as they were. If the number of sectors is given, the ones that were not written
      are reported as empty, with 0xFFFF errors. */
  method FindWritten(ghost d: Reading, track: seq<bv8>, dataLengthInBits: nat, isHD: bool, trackNumber: nat, expectedNumSectors: nat)
    returns (found: DecodedTrack, sectorsWithErrors: nat)
    requires d.isHD == isHD && d.track == trackNumber && d.Valid(ExpectedSectors(expectedNumSectors, isHD))
    requires 0 < dataLengthInBits <= 8 * |track| && BitsOf(track)[..dataLengthInBits] == d.t
    ensures forall k :: k in d.sectors ==> k in found && found[k] == DecodedSector(d.sectors[k], 0)
    ensures expectedNumSectors == 0 || expectedNumSectors == |d.sectors| ==> found == Recovered(d.sectors) && sectorsWithErrors == 0
    ensures forall k :: k in found && k !in d.sectors ==> k < expectedNumSectors && found[k].numErrors == 0xFFFF
  {
    hide BitsOf, Rotated, TrackBytes, Scanned, Filled, BadSectors;
    var expected := ExpectedSectors(expectedNumSectors, isHD);
    AllFound(d, expected, dataLengthInBits + RAW_SECTOR_SIZE * 8 * 3);
    FilledWith(Recovered(d.sectors), expected, SECTOR_BYTES);
    found, sectorsWithErrors := FindSectors(track, dataLengthInBits, isHD, trackNumber, expectedNumSectors, map[]);
    ghost var all := expectedNumSectors > 0 && expectedNumSectors == |d.sectors|;
    if all {
      forall k: nat | k < expected ensures k in d.sectors { AllNumbers(d, expected, k); }
    }
    if expectedNumSectors == 0 || expectedNumSectors == |d.sectors| {
      NoBadSectors(found, expected);
    }
  }
}
