/** Writing and finding the sectors of Amiga tracks (adf/amiga_sectors.cpp). */
module AmigaSectors {
  import opened AmigaMfm
  import opened AmigaFormat
  import opened BitStreams
  import opened ClockRule

  const NUM_SECTORS_PER_TRACK_DD := 11
  const NUM_SECTORS_PER_TRACK_HD := 22
  /** Two sync words. */
  const SEARCH: bv32 := 0x4489_4489

  // ---------------------------------------------------------------------
  // Clock bits

  /** Clock bits set so far, above bit `bit`. */
  function ClockMask(bit: int): bv8 {
    if bit >= 7 then 0 else if bit >= 5 then 0x80 else if bit >= 3 then 0xA0 else if bit >= 1 then 0xA8 else 0xAA
  }

  function PartClocks(prev: bv8, b: bv8, bit: int): bv8 {
    b | (!((b << 1) | (b >> 1) | ((prev & 1) << 7)) & ClockMask(bit))
  }

  /** Bit number `bit`, counted from the bottom. */
  function IsSet(b: bv8, bit: nat): bool
    requires bit < 8
  {
    b & ((1 as bv8) << bit) != 0
  }

  function SetBit(b: bv8, bit: nat): bv8
    requires bit < 8
  {
    b | ((1 as bv8) << bit)
  }

  lemma {:induction false} ClockStep(prev: bv8, b: bv8, bit: nat)
    requires b & 0xAA == 0 && (bit == 7 || bit == 5 || bit == 3 || bit == 1)
    ensures var r := PartClocks(prev, b, bit);
            var last := if bit == 7 then IsSet(prev, 0) else IsSet(r, bit + 1);
            PartClocks(prev, b, bit - 2) == if last || IsSet(r, bit - 1) then r else SetBit(r, bit)
    ensures IsSet(PartClocks(prev, b, bit - 2), bit - 1) == IsSet(PartClocks(prev, b, bit), bit - 1)
    ensures PartClocks(prev, b, 7) == b && PartClocks(prev, b, -1) == WithClocks(prev, b)
  {
    if bit == 7 {} else if bit == 5 {} else if bit == 3 {} else {}
  }

  /** Sets the clock bits of one byte; the lowest bit of `prev` is the data bit before it. */
  method ClockByte(b: bv8, prev: bv8) returns (r: bv8)
    requires b & 0xAA == 0
    ensures r == WithClocks(prev, b)
  {
    hide IsSet, SetBit, PartClocks, WithClocks;
    r := b;
    var thisBit := IsSet(prev, 0);
    var bit := 7;
    ClockStep(prev, b, 7);
    while bit >= 1
      invariant bit == 7 || bit == 5 || bit == 3 || bit == 1 || bit == -1
      invariant r == PartClocks(prev, b, bit)
      invariant thisBit == if bit == 7 then IsSet(prev, 0) else IsSet(r, bit + 1)
      decreases bit
    {
      ClockStep(prev, b, bit);
      var lastBit := thisBit;
      thisBit := IsSet(r, bit - 1);
      if !(lastBit || thisBit) {
        r := SetBit(r, bit);
      }
      bit := bit - 2;
    }
  }

  // ---------------------------------------------------------------------
  // One sector

  /** Encodes into a slice of the buffer and leaves the rest alone. */
  method EncodeAt(input: seq<bv8>, output: array<bv8>, at: nat) returns (chksum: bv32)
    requires |input| % 4 == 0 && at + 2 * |input| <= output.Length
    modifies output
    ensures output[at..at + 2 * |input|] == Encoded(input) && chksum == Checksum(Encoded(input))
    ensures forall i :: 0 <= i < output.Length && !(at <= i < at + 2 * |input|) ==> output[i] == old(output[i])
  {
    hide Encoded, Checksum;
    chksum := EncodeMFMdata(input, output, at);
  }

  /** Writes everything behind the sync words, without clock bits. */
  method EncodeBody(track: nat, sector: nat, total: nat, input: seq<bv8>, output: array<bv8>, base: nat)
    requires |input| == SECTOR_BYTES && base + RAW_SECTOR_SIZE <= output.Length
    modifies output
    ensures output[base + 8..base + RAW_SECTOR_SIZE] == Body(track, sector, total, input)
    ensures forall i :: 0 <= i < output.Length && !(base + 8 <= i < base + RAW_SECTOR_SIZE) ==> output[i] == old(output[i])
  {
    hide Encoded, Checksum, Xor, Bytes;
    var sectorLabel: seq<bv8> := seq(16, i => 0);
    var headerChecksum := EncodeAt(Header(track, sector, total), output, base + 8);
    ghost var s1 := output[..];
    var labelChecksum := EncodeAt(sectorLabel, output, base + 16);
    ghost var s2 := output[..];
    headerChecksum := Xor(headerChecksum, labelChecksum);
    var _ := EncodeAt(Bytes(headerChecksum), output, base + 48);
    ghost var s3 := output[..];
    var dataChecksum := EncodeAt(input, output, base + 64);
    ghost var s4 := output[..];
    var _ := EncodeAt(Bytes(dataChecksum), output, base + 56);
    SameSlice(s1, output[..], base + 8, base + 16);
    SameSlice(s2, output[..], base + 16, base + 48);
    SameSlice(s3, output[..], base + 48, base + 56);
    SameSlice(s4, output[..], base + 64, base + 1088);
    Pieces(output[..], base, Encoded(Header(track, sector, total)), Encoded(sectorLabel), Encoded(Bytes(headerChecksum)),
           Encoded(Bytes(dataChecksum)), Encoded(input));
  }

  lemma {:induction false} SameSlice(s: seq<bv8>, t: seq<bv8>, lo: nat, hi: nat)
    requires |s| == |t| && lo <= hi <= |s| && forall i :: lo <= i < hi ==> t[i] == s[i]
    ensures t[lo..hi] == s[lo..hi]
  {
  }

  lemma {:induction false} Pieces(s: seq<bv8>, base: nat, h: seq<bv8>, l: seq<bv8>, hc: seq<bv8>, dc: seq<bv8>, d: seq<bv8>)
    requires base + RAW_SECTOR_SIZE <= |s|
    requires |h| == 8 && |l| == 32 && |hc| == 8 && |dc| == 8 && |d| == 1024
    requires s[base + 8..base + 16] == h && s[base + 16..base + 48] == l && s[base + 48..base + 56] == hc
    requires s[base + 56..base + 64] == dc && s[base + 64..base + 1088] == d
    ensures s[base + 8..base + RAW_SECTOR_SIZE] == h + l + hc + dc + d
  {
  }

  /** Fills in the clock bits behind the sync words. */
  method FillClocks(output: array<bv8>, base: nat, ghost body: seq<bv8>)
    requires base + RAW_SECTOR_SIZE <= output.Length && output[base + 7] == 0x89
    requires output[base + 8..base + RAW_SECTOR_SIZE] == body && DataOnly(body)
    modifies output
    ensures output[base + 8..base + RAW_SECTOR_SIZE] == Clocked(0x89, body)
    ensures forall i :: 0 <= i < output.Length && !(base + 8 <= i < base + RAW_SECTOR_SIZE) ==> output[i] == old(output[i])
  {
    hide WithClocks, Clocked, DataOnly;
    var count := 8;
    ghost var first := base + 8;
    assert forall i :: first <= i < base + RAW_SECTOR_SIZE ==> output[i] == body[i - first];
    while count < RAW_SECTOR_SIZE
      invariant 8 <= count <= RAW_SECTOR_SIZE
      invariant forall i :: 0 <= i < output.Length && !(first <= i < base + count) ==> output[i] == old(output[i])
      invariant forall i :: first <= i < base + count ==> output[i] == Clocked(0x89, body)[i - first]
    {
      assert output[base + count] == body[count - 8];
      ClockedNext(body, count - 8, output[base + count - 1]);
      var b := ClockByte(output[base + count], output[base + count - 1]);
      output[base + count] := b;
      count := count + 1;
    }
  }

  lemma {:induction false} ClockedNext(body: seq<bv8>, k: nat, prev: bv8)
    requires DataOnly(body) && k < |body| && prev == if k == 0 then 0x89 else Clocked(0x89, body)[k - 1]
    ensures body[k] & 0xAA == 0 && WithClocks(prev, body[k]) == Clocked(0x89, body)[k]
  {
    hide WithClocks;
    if k > 0 {
      LowBitKept(body[k - 1], if k == 1 then 0x89 else body[k - 2], body[k]);
    }
  }

  /** Writes one sector; lastByte is the byte before it, and the result is its own last byte. Of data
      that is not the size of a sector only the start is written. */
  method EncodeSector(track: nat, sector: nat, total: nat, input: seq<bv8>, output: array<bv8>, base: nat, lastByte: bv8)
    returns (last: bv8)
    requires base + RAW_SECTOR_SIZE <= output.Length
    modifies output
    ensures |input| == SECTOR_BYTES ==>
              && output[base..base + RAW_SECTOR_SIZE] == SectorBytes(track, sector, total, input, lastByte)
              && Stands(output[base..base + RAW_SECTOR_SIZE], track, sector, total, input, lastByte)
              && last == output[base + RAW_SECTOR_SIZE - 1]
    ensures |input| != SECTOR_BYTES ==>
              && output[base..base + 8] == Start(lastByte) && last == lastByte
              && forall i :: base + 8 <= i < base + RAW_SECTOR_SIZE ==> output[i] == old(output[i])
    ensures forall i :: 0 <= i < output.Length && !(base <= i < base + RAW_SECTOR_SIZE) ==> output[i] == old(output[i])
  {
    hide Body, Clocked, DataOnly, Stands;
    output[base] := if lastByte & 1 != 0 then 0x2A else 0xAA;
    output[base + 1] := 0xAA;
    output[base + 2] := 0xAA;
    output[base + 3] := 0xAA;
    output[base + 4] := 0x44;
    output[base + 5] := 0x89;
    output[base + 6] := 0x44;
    output[base + 7] := 0x89;
    assert output[base..base + 8] == Start(lastByte);
    if |input| != SECTOR_BYTES {
      return lastByte;
    }
    EncodeBody(track, sector, total, input, output, base);
    BodyDataOnly(track, sector, total, input);
    FillClocks(output, base, Body(track, sector, total, input));
    assert output[base..base + 8] == Start(lastByte);
    SectorStands(track, sector, total, input, lastByte);
    last := output[base + RAW_SECTOR_SIZE - 1];
  }

  // ---------------------------------------------------------------------
  // Whole tracks

  /** The numbers of all sectors, each once. */
  ghost predicate Ordering(sectors: Sectors, order: seq<nat>) {
    && (forall k :: k in order <==> k in sectors)
    && (forall i, j :: 0 <= i < j < |order| ==> order[i] != order[j])
    && |order| == |sectors|
  }

  /** Writes a track, the sectors in whatever order they come. */
  method EncodeSectorsIntoMFM(isHD: bool, sectors: Sectors, track: nat, bufferSize: nat, memBuffer: array<bv8>)
    returns (bytes: nat, ghost order: seq<nat>)
    requires FullSize(sectors) && bufferSize <= memBuffer.Length
    modifies memBuffer
    ensures Ordering(sectors, order)
    ensures bytes == if bufferSize < |TrackBytes(sectors, order, track, isHD)| then 0 else |TrackBytes(sectors, order, track, isHD)|
    ensures bytes == 0 ==> memBuffer[..] == old(memBuffer[..])
    ensures bytes > 0 ==> bytes <= memBuffer.Length && memBuffer[..bytes] == TrackBytes(sectors, order, track, isHD)
    ensures bytes > 0 ==> TrackStands(memBuffer[..bytes], sectors, order, track, isHD)
  {
    hide SectorRun, Filler, Padding, LastByte, FullSize, Ordering, Numbers, TrackStands;
    var fillerSize := PRE_FILLER + if isHD then PRE_FILLER else 0;
    var bytesRequired := RAW_SECTOR_SIZE * |sectors| + fillerSize + 8;
    if bufferSize < bytesRequired {
      order := SomeOrdering(sectors);
      OrderingNumbers(sectors, order);
      return 0, order;
    }
    Memset(memBuffer, 0, fillerSize);
    var lastByte: bv8;
    lastByte, order := EncodeAll(sectors, track, memBuffer, fillerSize);
    OrderingNumbers(sectors, order);
    ghost var filler := Filler(fillerSize);
    ghost var run := SectorRun(sectors, order, track, |sectors|);
    ghost var output: nat := fillerSize + RAW_SECTOR_SIZE * |sectors|;
    assert memBuffer[..fillerSize] == filler;
    ghost var before := memBuffer[..];
    PutPadding(memBuffer, fillerSize + RAW_SECTOR_SIZE * |sectors|, lastByte);
    Assembled(before, memBuffer[..], fillerSize, output, filler, run, Padding(lastByte));
    bytes := bytesRequired;
    TrackBytesStand(sectors, order, track, isHD);
  }

  lemma {:induction false} Assembled(before: seq<bv8>, s: seq<bv8>, lo: nat, hi: nat, x: seq<bv8>, y: seq<bv8>, z: seq<bv8>)
    requires lo <= hi <= hi + |z| <= |s| == |before| && before[..lo] == x && before[lo..hi] == y && s[hi..hi + |z|] == z
    requires forall i :: 0 <= i < hi ==> s[i] == before[i]
    ensures s[..hi + |z|] == x + y + z
  {
    assert s[..lo] == before[..lo] && s[lo..hi] == before[lo..hi];
    assert s[..hi + |z|] == s[..lo] + s[lo..hi] + s[hi..hi + |z|];
  }

  /** The filler behind the last sector. */
  method PutPadding(memBuffer: array<bv8>, output: nat, lastByte: bv8)
    requires output + 8 <= memBuffer.Length
    modifies memBuffer
    ensures memBuffer[output..output + 8] == Padding(lastByte)
    ensures forall i :: 0 <= i < memBuffer.Length && !(output <= i < output + 8) ==> memBuffer[i] == old(memBuffer[i])
  {
    Memset(memBuffer, output, 8);
    if lastByte & 1 != 0 {
      memBuffer[output] := 0x2F;
    }
  }

  /** Writes all sectors from offset `start` on. */
  method EncodeAll(sectors: Sectors, track: nat, memBuffer: array<bv8>, start: nat) returns (lastByte: bv8, ghost order: seq<nat>)
    requires FullSize(sectors) && start + RAW_SECTOR_SIZE * |sectors| <= memBuffer.Length
    modifies memBuffer
    ensures Ordering(sectors, order)
    ensures forall i :: 0 <= i < memBuffer.Length && !(start <= i < start + RAW_SECTOR_SIZE * |sectors|) ==> memBuffer[i] == old(memBuffer[i])
    ensures memBuffer[start..start + RAW_SECTOR_SIZE * |sectors|] == SectorRun(sectors, order, track, |sectors|)
    ensures lastByte == LastByte(SectorRun(sectors, order, track, |sectors|))
  {
    hide SectorRun, OrderedSoFar, Ordering, FullSize, LastByte;
    order := [];
    lastByte := 0xAA;
    var output, left := start, sectors.Keys;
    NoRun(sectors, track, |sectors|);
    while left != {}
      invariant left <= sectors.Keys && OrderedSoFar(sectors, order, left) && Numbers(sectors, order)
      invariant output == start + RAW_SECTOR_SIZE * |order| && |order| + |left| == |sectors|
      invariant lastByte == LastByte(SectorRun(sectors, order, track, |sectors|))
      invariant memBuffer[start..output] == SectorRun(sectors, order, track, |sectors|)
      invariant forall i :: 0 <= i < memBuffer.Length && !(start <= i < output) ==> memBuffer[i] == old(memBuffer[i])
    {
      var sec :| sec in left;
      OrderNext(sectors, order, left, sec);
      Room(|order|, |left|, |sectors|);
      lastByte := EncodeNext(sectors, order, track, memBuffer, start, output, sec, lastByte);
      order := order + [sec];
      output := output + RAW_SECTOR_SIZE;
      left := left - {sec};
    }
    AllOrdered(sectors, order, left);
  }

  lemma {:induction false} OrderNext(sectors: Sectors, order: seq<nat>, left: set<nat>, sec: nat)
    requires OrderedSoFar(sectors, order, left) && sec in left && left <= sectors.Keys
    ensures OrderedSoFar(sectors, order + [sec], left - {sec}) && Numbers(sectors, order + [sec])
    ensures |order| + |left| == |sectors|
  {
  }

  lemma {:induction false} OrderingNumbers(sectors: Sectors, order: seq<nat>)
    requires Ordering(sectors, order)
    ensures Numbers(sectors, order) && |order| == |sectors|
  {
  }

  lemma {:induction false} AllOrdered(sectors: Sectors, order: seq<nat>, left: set<nat>)
    requires OrderedSoFar(sectors, order, left) && left == {}
    ensures Ordering(sectors, order)
  {
  }

  /** Writes one more sector behind those written so far. */
  method EncodeNext(sectors: Sectors, ghost order: seq<nat>, track: nat, memBuffer: array<bv8>, start: nat, output: nat, sec: nat, lastByte: bv8)
    returns (last: bv8)
    requires FullSize(sectors) && sec in sectors && Numbers(sectors, order)
    requires start <= output && output + RAW_SECTOR_SIZE <= memBuffer.Length
    requires memBuffer[start..output] == SectorRun(sectors, order, track, |sectors|)
    requires lastByte == LastByte(SectorRun(sectors, order, track, |sectors|))
    modifies memBuffer
    ensures memBuffer[start..output + RAW_SECTOR_SIZE] == SectorRun(sectors, order + [sec], track, |sectors|)
    ensures last == LastByte(SectorRun(sectors, order + [sec], track, |sectors|))
    ensures forall i :: 0 <= i < memBuffer.Length && !(output <= i < output + RAW_SECTOR_SIZE) ==> memBuffer[i] == old(memBuffer[i])
  {
    hide SectorBytes, SectorRun;
    ghost var run := memBuffer[start..output];
    RunSnoc(sectors, order, track, |sectors|, sec);
    last := EncodeSector(track, sec, |sectors|, sectors[sec], memBuffer, output, lastByte);
    assert memBuffer[start..output] == run;
    assert memBuffer[start..output + RAW_SECTOR_SIZE] == run + memBuffer[output..output + RAW_SECTOR_SIZE];
  }

  lemma {:induction false} Room(done: nat, left: nat, all: nat)
    requires done + left == all && left > 0
    ensures RAW_SECTOR_SIZE * done + RAW_SECTOR_SIZE <= RAW_SECTOR_SIZE * all
  {
  }

  lemma {:induction false} NoRun(sectors: Sectors, track: nat, total: nat)
    requires FullSize(sectors)
    ensures SectorRun(sectors, [], track, total) == [] && LastByte([]) == 0xAA && Numbers(sectors, [])
    ensures OrderedSoFar(sectors, [], sectors.Keys)
  {
  }

  lemma {:induction false} RunSnoc(sectors: Sectors, order: seq<nat>, track: nat, total: nat, sec: nat)
    requires FullSize(sectors) && sec in sectors && Numbers(sectors, order)
    ensures var before := SectorRun(sectors, order, track, total);
            SectorRun(sectors, order + [sec], track, total) == before + SectorBytes(track, sec, total, sectors[sec], LastByte(before))
  {
    hide SectorBytes;
    assert (order + [sec])[..|order|] == order;
  }

  ghost predicate OrderedSoFar(sectors: Sectors, order: seq<nat>, left: set<nat>) {
    && (forall k :: k in order ==> k in sectors && k !in left)
    && (forall k :: k in sectors ==> k in order || k in left)
    && (forall i, j :: 0 <= i < j < |order| ==> order[i] != order[j])
    && |order| + |left| == |sectors|
  }

  ghost method SomeOrdering(sectors: Sectors) returns (order: seq<nat>)
    ensures Ordering(sectors, order)
  {
    order := [];
    var left := sectors.Keys;
    while left != {}
      invariant left <= sectors.Keys && OrderedSoFar(sectors, order, left)
    {
      var sec :| sec in left;
      order := order + [sec];
      left := left - {sec};
    }
  }

  method Memset(output: array<bv8>, at: nat, n: nat)
    requires at + n <= output.Length
    modifies output
    ensures output[at..at + n] == Filler(n)
    ensures forall i :: 0 <= i < output.Length && !(at <= i < at + n) ==> output[i] == old(output[i])
  {
    for k := 0 to n
      invariant forall i :: at <= i < at + k ==> output[i] == 0xAA
      invariant forall i :: 0 <= i < output.Length && !(at <= i < at + n) ==> output[i] == old(output[i])
    {
      output[at + k] := 0xAA;
    }
  }
}
