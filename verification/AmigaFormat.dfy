/** The sectors of an Amiga track as bytes, and how a reader finds their fields (adf/amiga_sectors.cpp). */
module AmigaFormat {
  import opened AmigaMfm
  import opened BitStreams
  import opened ClockRule

  const SECTOR_BYTES := 512
  const RAW_SECTOR_SIZE := 8 + 56 + SECTOR_BYTES + SECTOR_BYTES

  function Clocked(prev: bv8, bytes: seq<bv8>): (r: seq<bv8>)
    ensures |r| == |bytes|
  {
    seq(|bytes|, i requires 0 <= i < |bytes| => WithClocks(if i == 0 then prev else bytes[i - 1], bytes[i]))
  }

  // ---------------------------------------------------------------------
  // What a sector looks like on a track

  function Header(track: nat, sector: nat, total: nat): (r: seq<bv8>)
    ensures |r| == 4
  {
    [0xFF, Byte(track), Byte(sector), Byte((total - sector) % 0x100)]
  }

  function HeaderChecksum(track: nat, sector: nat, total: nat): bv32 {
    Xor(Checksum(Encoded(Header(track, sector, total))), Checksum(Encoded(seq(16, i => 0))))
  }

  /** Header, label, checksums and data, without clock bits. */
  function Body(track: nat, sector: nat, total: nat, data: seq<bv8>): (r: seq<bv8>)
    requires |data| == SECTOR_BYTES
    ensures |r| == RAW_SECTOR_SIZE - 8
  {
    Encoded(Header(track, sector, total)) + Encoded(seq(16, i => 0)) + Encoded(Bytes(HeaderChecksum(track, sector, total))) +
    Encoded(Bytes(Checksum(Encoded(data)))) + Encoded(data)
  }

  function Start(lastByte: bv8): (r: seq<bv8>)
    ensures |r| == 8
  {
    [if lastByte & 1 != 0 then 0x2A else 0xAA, 0xAA, 0xAA, 0xAA, 0x44, 0x89, 0x44, 0x89]
  }

  function SectorBytes(track: nat, sector: nat, total: nat, data: seq<bv8>, lastByte: bv8): (r: seq<bv8>)
    requires |data| == SECTOR_BYTES
    ensures |r| == RAW_SECTOR_SIZE
  {
    Start(lastByte) + Clocked(0x89, Body(track, sector, total, data))
  }

  lemma {:induction false} DataBitsOnly(data: seq<bv8>)
    ensures forall i :: 0 <= i < |Encoded(data)| ==> Encoded(data)[i] & 0xAA == 0
  {
    forall i | 0 <= i < |Encoded(data)|
      ensures Encoded(data)[i] & 0xAA == 0
    {
      HalfBits(data[if i < |data| then i else i - |data|]);
    }
  }

  lemma {:induction false} HalfBits(b: bv8)
    ensures Even(b) & 0xAA == 0 && Odd(b) & 0xAA == 0
  {
  }

  ghost predicate DataOnly(bytes: seq<bv8>) {
    forall i :: 0 <= i < |bytes| ==> bytes[i] & 0xAA == 0
  }

  lemma {:induction false} BodyDataOnly(track: nat, sector: nat, total: nat, data: seq<bv8>)
    requires |data| == SECTOR_BYTES
    ensures DataOnly(Body(track, sector, total, data))
  {
    hide Encoded, Checksum, Xor, Bytes;
    DataBitsOnly(Header(track, sector, total));
    DataBitsOnly(seq(16, i => 0));
    DataBitsOnly(Bytes(HeaderChecksum(track, sector, total)));
    DataBitsOnly(Bytes(Checksum(Encoded(data))));
    DataBitsOnly(data);
  }

  lemma {:induction false} LowBitKept(prev: bv8, p: bv8, b: bv8)
    ensures WithClocks(WithClocks(p, prev), b) == WithClocks(prev, b)
  {
  }

  // ---------------------------------------------------------------------
  // The parts of a sector

  lemma {:induction false} ClockedData(prev: bv8, b: bv8)
    ensures Even(WithClocks(prev, b)) == Even(b)
  {
  }

  lemma {:induction false} ClockedSame(prev: bv8, body: seq<bv8>, lo: nat, part: seq<bv8>)
    requires lo + |part| <= |body| && body[lo..lo + |part|] == part
    ensures SameData(Clocked(prev, body)[lo..lo + |part|], part)
  {
    hide WithClocks, Even;
    forall i | 0 <= i < |part|
      ensures Even(Clocked(prev, body)[lo + i]) == Even(part[i])
    {
      assert part[i] == body[lo + i];
      ClockedData(if lo + i == 0 then prev else body[lo + i - 1], body[lo + i]);
    }
  }

  lemma {:induction false} BodyParts(track: nat, sector: nat, total: nat, data: seq<bv8>)
    requires |data| == SECTOR_BYTES
    ensures var b := Body(track, sector, total, data);
            && b[0..8] == Encoded(Header(track, sector, total)) && b[8..40] == Encoded(seq(16, i => 0))
            && b[40..48] == Encoded(Bytes(HeaderChecksum(track, sector, total)))
            && b[48..56] == Encoded(Bytes(Checksum(Encoded(data)))) && b[56..1080] == Encoded(data)
  {
    hide Encoded, Bytes, Checksum, Header, HeaderChecksum;
    Apart(Encoded(Header(track, sector, total)), Encoded(seq(16, i => 0)), Encoded(Bytes(HeaderChecksum(track, sector, total))),
          Encoded(Bytes(Checksum(Encoded(data)))), Encoded(data));
  }

  lemma {:induction false} Apart(h: seq<bv8>, l: seq<bv8>, hc: seq<bv8>, dc: seq<bv8>, d: seq<bv8>)
    requires |h| == 8 && |l| == 32 && |hc| == 8 && |dc| == 8 && |d| == 1024
    ensures var b := h + l + hc + dc + d;
            b[0..8] == h && b[8..40] == l && b[40..48] == hc && b[48..56] == dc && b[56..1080] == d
  {
    var b := h + l + hc + dc + d;
    assert b == h + (l + (hc + (dc + d)));
    assert b[56..1080] == d;
  }

  lemma {:induction false} Within(raw: seq<bv8>, n: nat, lo: nat, hi: nat)
    requires lo <= hi <= n <= |raw|
    ensures raw[0..n][lo..hi] == raw[lo..hi]
  {
  }

  lemma {:induction false} ReadPart(raw: seq<bv8>, body: seq<bv8>, lo: nat, hi: nat, part: seq<bv8>)
    requires |raw| >= 1080 && |body| == 1080 && raw[0..1080] == Clocked(0x89, body)
    requires lo <= hi <= 1080 && hi - lo == 2 * |part| && body[lo..hi] == Encoded(part) && |part| % 4 == 0
    ensures Decoded(raw[lo..hi]) == part && Checksum(raw[lo..hi]) == Checksum(Encoded(part))
  {
    hide Encoded, Checksum, Clocked, Decoded, SameData;
    Within(raw, 1080, lo, hi);
    ClockedSame(0x89, body, lo, Encoded(part));
    DecodedEncoded(part, raw[lo..hi]);
    ChecksumSame(raw[lo..hi], Encoded(part));
  }

  // ---------------------------------------------------------------------
  // Where the fields are, and what is in them

  /** The i-th byte of a field of n bytes: the odd bits of all its bytes come first, then the even bits. */
  function FieldByte(o: seq<bv8>, at: nat, n: nat, i: nat): bv8
    requires i < n && at + 2 * n <= |o|
  {
    ((o[at + i] & 0x55) << 1) | (o[at + n + i] & 0x55)
  }

  function XorByte(x: bv8, y: bv8): bv8 {
    x ^ y
  }

  /** The exclusive or of the data bits of every fourth byte. */
  function Parity(o: seq<bv8>, at: nat, n: nat): bv8
    requires at + 4 * n <= |o| + 3
  {
    if n == 0 then 0 else XorByte(Parity(o, at, n - 1), Even(o[at + 4 * (n - 1)]))
  }

  /** Each clock bit of b is set if and only if the data bits on both sides of it are zero. */
  predicate Clocks(prev: bv8, b: bv8) {
    && (BitOf(b, 0) <==> !BitOf(prev, 7) && !BitOf(b, 1))
    && (BitOf(b, 2) <==> !BitOf(b, 1) && !BitOf(b, 3))
    && (BitOf(b, 4) <==> !BitOf(b, 3) && !BitOf(b, 5))
    && (BitOf(b, 6) <==> !BitOf(b, 5) && !BitOf(b, 7))
  }

  /** What is in the header of a sector: format, track, number, and how many sectors there are from this
      one on, in a byte each; then an empty label. */
  ghost predicate HeaderStands(o: seq<bv8>, track: nat, sector: nat, total: nat)
    requires |o| == RAW_SECTOR_SIZE
  {
    && FieldByte(o, 8, 4, 0) == 0xFF
    && FieldByte(o, 8, 4, 1) as int == track % 0x100
    && FieldByte(o, 8, 4, 2) as int == sector % 0x100
    && FieldByte(o, 8, 4, 3) as int == (total - sector) % 0x100
    && forall i :: 0 <= i < 16 ==> FieldByte(o, 16, 16, i) == 0
  }

  /** The checksums of header and label, and of the data. */
  ghost predicate ChecksumsStand(o: seq<bv8>)
    requires |o| == RAW_SECTOR_SIZE
  {
    && (forall j :: 0 <= j < 4 ==> FieldByte(o, 48, 4, j) == Parity(o, 8 + j, 10))
    && (forall j :: 0 <= j < 4 ==> FieldByte(o, 56, 4, j) == Parity(o, 64 + j, 256))
  }

  ghost predicate DataStands(o: seq<bv8>, data: seq<bv8>)
    requires |o| == RAW_SECTOR_SIZE && |data| == SECTOR_BYTES
  {
    forall i :: 0 <= i < SECTOR_BYTES ==> FieldByte(o, 64, SECTOR_BYTES, i) == data[i]
  }

  ghost predicate ClocksStand(o: seq<bv8>)
    requires |o| == RAW_SECTOR_SIZE
  {
    forall i :: 8 <= i < RAW_SECTOR_SIZE ==> Clocks(o[i - 1], o[i])
  }

  /** A sector on a track, byte by byte. */
  ghost predicate Stands(o: seq<bv8>, track: nat, sector: nat, total: nat, data: seq<bv8>, lastByte: bv8) {
    && |o| == RAW_SECTOR_SIZE && |data| == SECTOR_BYTES
    && o[..8] == [if lastByte & 1 != 0 then 0x2A else 0xAA, 0xAA, 0xAA, 0xAA, 0x44, 0x89, 0x44, 0x89]
    && HeaderStands(o, track, sector, total) && ChecksumsStand(o) && DataStands(o, data) && ClocksStand(o)
  }

  /** That is what a sector consists of. */
  lemma {:induction false} SectorStands(track: nat, sector: nat, total: nat, data: seq<bv8>, lastByte: bv8)
    requires |data| == SECTOR_BYTES
    ensures Stands(SectorBytes(track, sector, total, data, lastByte), track, sector, total, data, lastByte)
  {
    hide Body, Clocked, HeaderStands, ChecksumsStand, DataStands, ClocksStand, Encoded, Bytes, Checksum, Xor, Decoded, Header, HeaderChecksum;
    var b, o := Body(track, sector, total, data), SectorBytes(track, sector, total, data, lastByte);
    var raw := Clocked(0x89, b);
    assert o[8..] == raw && raw[0..1080] == raw;
    BodyParts(track, sector, total, data);
    ReadPart(raw, b, 0, 8, Header(track, sector, total));
    ReadPart(raw, b, 8, 40, seq(16, i => 0));
    ReadPart(raw, b, 40, 48, Bytes(HeaderChecksum(track, sector, total)));
    ReadPart(raw, b, 48, 56, Bytes(Checksum(Encoded(data))));
    ReadPart(raw, b, 56, 1080, data);
    HeaderFields(o, raw, track, sector, total);
    ChecksumFields(o, raw, HeaderChecksum(track, sector, total), Checksum(Encoded(data))) by { HeaderSum(track, sector, total); }
    DataFields(o, raw, data);
    BodyDataOnly(track, sector, total, data);
    ClockFields(o, b);
  }

  lemma {:induction false} HeaderSum(track: nat, sector: nat, total: nat)
    ensures HeaderChecksum(track, sector, total) == Xor(Checksum(Encoded(Header(track, sector, total))), Checksum(Encoded(seq(16, i => 0))))
  {
    hide Xor, Checksum, Encoded, Header;
  }

  /** A field as it is decoded. */
  lemma {:induction false} FieldIs(o: seq<bv8>, raw: seq<bv8>, lo: nat, n: nat, i: nat)
    requires |raw| == 1080 && |o| == 1088 && o[8..] == raw && lo + 2 * n <= 1080 && i < n
    ensures FieldByte(o, 8 + lo, n, i) == Decoded(raw[lo..lo + 2 * n])[i]
  {
    var part := raw[lo..lo + 2 * n];
    assert part[i] == o[8 + lo + i] && part[n + i] == o[8 + lo + n + i];
    Joined(part[i], part[n + i]);
  }

  lemma {:induction false} Joined(odd: bv8, even: bv8)
    ensures Join(odd, even) == ((odd & 0x55) << 1) | (even & 0x55)
  {
  }

  lemma {:induction false} HeaderFields(o: seq<bv8>, raw: seq<bv8>, track: nat, sector: nat, total: nat)
    requires |raw| == 1080 && |o| == RAW_SECTOR_SIZE && o[8..] == raw
    requires Decoded(raw[0..8]) == Header(track, sector, total) && Decoded(raw[8..40]) == seq(16, i => 0)
    ensures HeaderStands(o, track, sector, total)
  {
    hide Decoded, FieldByte, Header;
    HeaderValues(track, sector, total);
    FieldIs(o, raw, 0, 4, 0);
    FieldIs(o, raw, 0, 4, 1);
    FieldIs(o, raw, 0, 4, 2);
    FieldIs(o, raw, 0, 4, 3);
    forall i | 0 <= i < 16 ensures FieldByte(o, 16, 16, i) == 0 { FieldIs(o, raw, 8, 16, i); }
  }

  lemma {:induction false} HeaderValues(track: nat, sector: nat, total: nat)
    ensures var h := Header(track, sector, total);
            && h[0] == 0xFF && h[1] as int == track % 0x100 && h[2] as int == sector % 0x100
            && h[3] as int == (total - sector) % 0x100
  {
    hide Byte;
    ByteIs(track);
    ByteIs(sector);
    var n := (total - sector) % 0x100;
    ByteValue(n);
  }

  lemma {:induction false} ByteIs(n: nat)
    ensures Byte(n) as int == n % 0x100
  {
    var m := n % 0x100;
    assert m % 0x100 == m;
    assert Byte(m) == Byte(n);
    hide Byte;
    ByteValue(m);
  }

  lemma {:induction false} DataFields(o: seq<bv8>, raw: seq<bv8>, data: seq<bv8>)
    requires |raw| == 1080 && |o| == RAW_SECTOR_SIZE && o[8..] == raw && |data| == SECTOR_BYTES
    requires Decoded(raw[56..1080]) == data
    ensures DataStands(o, data)
  {
    hide Decoded, FieldByte;
    forall i | 0 <= i < SECTOR_BYTES ensures FieldByte(o, 64, SECTOR_BYTES, i) == data[i] { FieldIs(o, raw, 56, SECTOR_BYTES, i); }
  }

  lemma {:induction false} ClockFields(o: seq<bv8>, b: seq<bv8>)
    requires |o| == RAW_SECTOR_SIZE && |b| == 1080 && o[7] == 0x89 && o[8..] == Clocked(0x89, b) && DataOnly(b)
    ensures ClocksStand(o)
  {
    hide WithClocks, Clocks;
    forall i | 8 <= i < RAW_SECTOR_SIZE
      ensures Clocks(o[i - 1], o[i])
    {
      assert o[i] == Clocked(0x89, b)[i - 8];
      ClocksExact(if i == 8 then 0x89 else b[i - 9], b[i - 8]);
      if i > 8 {
        assert o[i - 1] == Clocked(0x89, b)[i - 9];
        LowBitKept(b[i - 9], if i == 9 then 0x89 else b[i - 10], b[i - 8]);
        ClocksExact(o[i - 1], b[i - 8]);
      }
    }
  }

  lemma {:induction false} ClocksExact(prev: bv8, b: bv8)
    requires b & 0xAA == 0
    ensures Clocks(prev, WithClocks(prev, b))
  {
    BitTable(prev);
    BitTable(WithClocks(prev, b));
  }

  // ---------------------------------------------------------------------
  // Checksums byte by byte

  lemma {:induction false} ChecksumFields(o: seq<bv8>, raw: seq<bv8>, header: bv32, data: bv32)
    requires |raw| == 1080 && |o| == RAW_SECTOR_SIZE && o[8..] == raw
    requires Decoded(raw[40..48]) == Bytes(header) && Decoded(raw[48..56]) == Bytes(data)
    requires header == Xor(Checksum(raw[0..8]), Checksum(raw[8..40])) && data == Checksum(raw[56..1080])
    ensures ChecksumsStand(o)
  {
    hide Decoded, FieldByte, Bytes, Xor, Checksum, Parity;
    forall j | 0 <= j < 4
      ensures FieldByte(o, 48, 4, j) == Parity(o, 8 + j, 10)
    {
      FieldIs(o, raw, 40, 4, j);
      ChecksumByte(raw[0..8], j);
      ChecksumByte(raw[8..40], j);
      XorBytes(Checksum(raw[0..8]), Checksum(raw[8..40]), j);
      SameParity(o, 8 + j, raw[0..8], j, 2);
      SameParity(o, 16 + j, raw[8..40], j, 8);
      ParitySum(o, 8 + j, 2, 8);
    }
    forall j | 0 <= j < 4
      ensures FieldByte(o, 56, 4, j) == Parity(o, 64 + j, 256)
    {
      FieldIs(o, raw, 48, 4, j);
      ChecksumByte(raw[56..1080], j);
      SameParity(o, 64 + j, raw[56..1080], j, 256);
    }
  }

  lemma {:induction false} SameParity(o: seq<bv8>, at: nat, part: seq<bv8>, j: nat, n: nat)
    requires j < 4 && j + 4 * n <= |part| + 3 && at >= j && at - j + |part| <= |o| && o[at - j..at - j + |part|] == part
    ensures Parity(o, at, n) == Parity(part, j, n)
  {
    hide XorByte, Even;
    if n > 0 {
      SameParity(o, at, part, j, n - 1);
      assert part[j + 4 * (n - 1)] == o[at + 4 * (n - 1)];
    }
  }

  lemma {:induction false} ParitySum(o: seq<bv8>, at: nat, m: nat, n: nat)
    requires at + 4 * (m + n) <= |o| + 3
    ensures Parity(o, at, m + n) == XorByte(Parity(o, at, m), Parity(o, at + 4 * m, n))
  {
    hide XorByte, Even;
    if n == 0 {
      XorByteLaws(Parity(o, at, m), 0, 0);
    } else {
      ParitySum(o, at, m, n - 1);
      XorByteLaws(Parity(o, at, m), Parity(o, at + 4 * m, n - 1), Even(o[at + 4 * (m + n - 1)]));
    }
  }

  lemma {:induction false} XorByteLaws(x: bv8, y: bv8, z: bv8)
    ensures XorByte(XorByte(x, y), z) == XorByte(x, XorByte(y, z)) && XorByte(x, 0) == x
  {
  }

  lemma {:induction false} XorBytes(x: bv32, y: bv32, j: nat)
    requires j < 4
    ensures Bytes(Xor(x, y))[j] == XorByte(Bytes(x)[j], Bytes(y)[j])
  {
    hide Bytes, Xor, XorByte, Long;
    var p, q := Bytes(x), Bytes(y);
    BytesLong(x);
    BytesLong(y);
    LongXor(p[0], p[1], p[2], p[3], q[0], q[1], q[2], q[3]);
  }

  lemma {:induction false} LongXor(a: bv8, b: bv8, c: bv8, d: bv8, e: bv8, f: bv8, g: bv8, h: bv8)
    ensures Bytes(Xor(Long(a, b, c, d), Long(e, f, g, h))) == [XorByte(a, e), XorByte(b, f), XorByte(c, g), XorByte(d, h)]
  {
  }

  lemma {:induction false} EvenXor(x: bv32, y: bv32, j: nat)
    requires j < 4
    ensures Bytes(EvenLong(Xor(x, y)))[j] == XorByte(Bytes(EvenLong(x))[j], Bytes(EvenLong(y))[j])
  {
    hide Bytes, Xor, XorByte, EvenLong, Even;
    EvenByte(Xor(x, y), j);
    EvenByte(x, j);
    EvenByte(y, j);
    XorBytes(x, y, j);
    EvenXorByte(Bytes(x)[j], Bytes(y)[j]);
  }

  lemma {:induction false} EvenByte(x: bv32, j: nat)
    requires j < 4
    ensures Bytes(EvenLong(x))[j] == Even(Bytes(x)[j])
  {
    hide Bytes, Long, EvenLong, Even;
    var p := Bytes(x);
    BytesLong(x);
    LongHalves(p[0], p[1], p[2], p[3]);
  }

  lemma {:induction false} EvenXorByte(x: bv8, y: bv8)
    ensures Even(XorByte(x, y)) == XorByte(Even(x), Even(y))
  {
  }

  lemma {:induction false} NoBits()
    ensures Bytes(EvenLong(0)) == [0, 0, 0, 0]
  {
  }

  /** The j-th byte of a checksum. */
  lemma {:induction false} ChecksumByte(part: seq<bv8>, j: nat)
    requires |part| % 4 == 0 && j < 4
    ensures Bytes(Checksum(part))[j] == Parity(part, j, |part| / 4)
  {
    hide EvenLong, XorLongs, Bytes;
    LaneParity(part, |part| / 4, j);
  }

  lemma {:induction false} LaneParity(part: seq<bv8>, n: nat, j: nat)
    requires 4 * n <= |part| && j < 4
    ensures Bytes(EvenLong(XorLongs(part, n)))[j] == Parity(part, j, n)
  {
    hide EvenLong, Xor, Bytes, Long, Even, XorByte;
    if n == 0 {
      NoBits();
    } else {
      LaneParity(part, n - 1, j);
      EvenXor(XorLongs(part, n - 1), LongAt(part, 4 * (n - 1)), j);
      LongHalves(part[4 * (n - 1)], part[4 * (n - 1) + 1], part[4 * (n - 1) + 2], part[4 * (n - 1) + 3]);
    }
  }

  // ---------------------------------------------------------------------
  // Whole tracks

  const PRE_FILLER := 1654

  type Sectors = map<nat, seq<bv8>>

  ghost predicate FullSize(sectors: Sectors) {
    forall k :: k in sectors ==> |sectors[k]| == SECTOR_BYTES
  }

  ghost predicate Numbers(sectors: Sectors, order: seq<nat>) {
    forall k :: k in order ==> k in sectors
  }

  /** The sectors with these numbers, one behind the other, behind filler. */
  ghost function SectorRun(sectors: Sectors, order: seq<nat>, track: nat, total: nat): (r: seq<bv8>)
    requires FullSize(sectors) && Numbers(sectors, order)
    ensures |r| == RAW_SECTOR_SIZE * |order|
  {
    hide SectorBytes;
    if order == [] then [] else
      var n := order[|order| - 1];
      var before := SectorRun(sectors, order[..|order| - 1], track, total);
      before + SectorBytes(track, n, total, sectors[n], LastByte(before))
  }

  function LastByte(run: seq<bv8>): bv8 {
    if run == [] then 0xAA else run[|run| - 1]
  }

  /** The filler at both ends fits the clock bits. */
  function Padding(lastByte: bv8): (r: seq<bv8>)
    ensures |r| == 8
  {
    [if lastByte & 1 != 0 then 0x2F else 0xAA, 0xAA, 0xAA, 0xAA, 0xAA, 0xAA, 0xAA, 0xAA]
  }

  function FillerSize(isHD: bool): nat {
    if isHD then 2 * PRE_FILLER else PRE_FILLER
  }

  function Filler(n: nat): seq<bv8> {
    seq(n, i => 0xAA)
  }

  ghost function TrackBytes(sectors: Sectors, order: seq<nat>, track: nat, isHD: bool): (r: seq<bv8>)
    requires FullSize(sectors) && Numbers(sectors, order)
    ensures |r| == FillerSize(isHD) + RAW_SECTOR_SIZE * |order| + 8
  {
    var run := SectorRun(sectors, order, track, |sectors|);
    Filler(FillerSize(isHD)) + run + Padding(LastByte(run))
  }

  /** The k-th sector of a run, and the byte before it. */
  ghost predicate HasSector(run: seq<bv8>, k: nat, track: nat, sector: nat, total: nat, data: seq<bv8>)
    requires |data| == SECTOR_BYTES
  {
    hide SectorBytes;
    && RAW_SECTOR_SIZE * k + RAW_SECTOR_SIZE <= |run|
    && run[RAW_SECTOR_SIZE * k..RAW_SECTOR_SIZE * k + RAW_SECTOR_SIZE] ==
         SectorBytes(track, sector, total, data, if k == 0 then 0xAA else run[RAW_SECTOR_SIZE * k - 1])
  }

  lemma {:induction false} RunAt(sectors: Sectors, order: seq<nat>, track: nat, total: nat, k: nat)
    requires FullSize(sectors) && Numbers(sectors, order) && k < |order|
    ensures HasSector(SectorRun(sectors, order, track, total), k, track, order[k], total, sectors[order[k]])
  {
    hide SectorBytes;
    var d := order[..|order| - 1];
    if k < |d| {
      RunAt(sectors, d, track, total, k);
      var run, r := SectorRun(sectors, order, track, total), SectorRun(sectors, d, track, total);
      assert run[..|r|] == r;
      Prefix(run, r, RAW_SECTOR_SIZE * k, RAW_SECTOR_SIZE * k + RAW_SECTOR_SIZE);
    }
  }

  lemma {:induction false} Prefix(run: seq<bv8>, r: seq<bv8>, lo: nat, hi: nat)
    requires |r| <= |run| && run[..|r|] == r && lo <= hi <= |r|
    ensures run[lo..hi] == r[lo..hi] && forall i :: 0 <= i < |r| ==> run[i] == r[i]
  {
    forall i | 0 <= i < |r|
      ensures run[i] == r[i]
    {
      assert run[..|r|][i] == r[i];
    }
  }

  lemma {:induction false} InTrack(e: seq<bv8>, start: nat, run: seq<bv8>, lastByte: bv8, j: nat)
    requires e == Filler(start) + run + Padding(lastByte) && j < |run|
    ensures |Filler(start)| == start && e[start + j] == run[j]
  {
    hide Padding;
  }

  /** A whole track, byte by byte: filler, the sectors, and eight bytes that end it. */
  ghost predicate TrackStands(e: seq<bv8>, sectors: Sectors, order: seq<nat>, track: nat, isHD: bool)
    requires Numbers(sectors, order)
  {
    var first := if isHD then 3308 else 1654;
    && |e| == first + RAW_SECTOR_SIZE * |order| + 8
    && (forall i :: 0 <= i < first ==> e[i] == 0xAA)
    && (forall k :: 0 <= k < |order| ==> SectorAt(e, first + RAW_SECTOR_SIZE * k, track, order[k], |sectors|, sectors[order[k]]))
    && e[|e| - 8..] == [if e[|e| - 9] & 1 != 0 then 0x2F else 0xAA, 0xAA, 0xAA, 0xAA, 0xAA, 0xAA, 0xAA, 0xAA]
  }

  ghost predicate SectorAt(e: seq<bv8>, at: nat, track: nat, sector: nat, total: nat, data: seq<bv8>) {
    0 < at <= at + RAW_SECTOR_SIZE <= |e| && Stands(e[at..at + RAW_SECTOR_SIZE], track, sector, total, data, e[at - 1])
  }

  lemma {:induction false} TrackBytesStand(sectors: Sectors, order: seq<nat>, track: nat, isHD: bool)
    requires FullSize(sectors) && Numbers(sectors, order)
    ensures TrackStands(TrackBytes(sectors, order, track, isHD), sectors, order, track, isHD)
  {
    hide SectorRun, SectorAt, Padding, HasSector;
    var e, first := TrackBytes(sectors, order, track, isHD), FillerSize(isHD);
    var run := SectorRun(sectors, order, track, |sectors|);
    assert e == Filler(first) + run + Padding(LastByte(run));
    forall k | 0 <= k < |order|
      ensures SectorAt(e, first + RAW_SECTOR_SIZE * k, track, order[k], |sectors|, sectors[order[k]])
    {
      RunAt(sectors, order, track, |sectors|, k);
      SectorInTrack(e, Filler(first), run, Padding(LastByte(run)), k, track, order[k], |sectors|, sectors[order[k]]);
    }
    assert forall i :: 0 <= i < first ==> e[i] == Filler(first)[i];
    TrackEnd(e, Filler(first), run);
  }

  lemma {:induction false} TrackEnd(e: seq<bv8>, filler: seq<bv8>, run: seq<bv8>)
    requires |filler| > 0 && filler[|filler| - 1] == 0xAA && e == filler + run + Padding(LastByte(run))
    ensures e[|e| - 8..] == [if e[|e| - 9] & 1 != 0 then 0x2F else 0xAA, 0xAA, 0xAA, 0xAA, 0xAA, 0xAA, 0xAA, 0xAA]
  {
    assert e[|e| - 9] == LastByte(run);
    assert e[|e| - 8..] == Padding(LastByte(run));
  }

  lemma {:induction false} SectorInTrack(e: seq<bv8>, filler: seq<bv8>, run: seq<bv8>, end: seq<bv8>, k: nat,
                                         track: nat, sector: nat, total: nat, data: seq<bv8>)
    requires |data| == SECTOR_BYTES && HasSector(run, k, track, sector, total, data)
    requires |filler| > 0 && filler[|filler| - 1] == 0xAA && e == filler + run + end
    ensures SectorAt(e, |filler| + RAW_SECTOR_SIZE * k, track, sector, total, data)
  {
    hide SectorBytes, Stands;
    var first, p := |filler|, RAW_SECTOR_SIZE * k;
    SectorStands(track, sector, total, data, if k == 0 then 0xAA else run[p - 1]);
    assert e[first + p..first + p + RAW_SECTOR_SIZE] == run[p..p + RAW_SECTOR_SIZE];
    assert e[first + p - 1] == if k == 0 then 0xAA else run[p - 1];
  }

  /** What a buffer for a full track has to hold. */
  lemma {:induction false} BufferNeeded(sectors: Sectors, order: seq<nat>, track: nat, isHD: bool)
    requires FullSize(sectors) && Numbers(sectors, order) && |order| == if isHD then 22 else 11
    ensures |TrackBytes(sectors, order, track, isHD)| == if isHD then 27252 else 13630
  {
  }
}
