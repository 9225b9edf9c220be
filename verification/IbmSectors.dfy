/** Writing IBM tracks (adf/ibm_sectors.cpp). */
module IbmSectors {
  import opened Arithmetic
  import opened BitStreams
  import opened ClockRule
  import opened Crcs
  import opened IbmMfm
  import opened IbmFormat

  // ---------------------------------------------------------------------
  // Writing

  function MarkValue(k: Kind): bv64 {
    match k
    case TrackHeader => 0x5224_5224_5224_5552
    case SectorHeader => 0x4489_4489_4489_5554
    case SectorData => 0x4489_4489_4489_5545
    case DeletedData => 0x4489_4489_4489_554A
  }

  function Up(v: bv64): bv64 {
    v << 8
  }

  function Shl8(v: bv64, n: nat): bv64 {
    if n == 0 then v else Up(Shl8(v, n - 1))
  }

  function TopByte(v: bv64): bv8 {
    (v >> 56) as bv8
  }

  lemma {:induction false} ShlSteps(v: bv64)
    ensures Shl8(v, 0) == v && Shl8(v, 1) == Up(v) && Shl8(v, 2) == Up(Up(v)) && Shl8(v, 3) == Up(Up(Up(v)))
    ensures Shl8(v, 4) == Up(Up(Up(Up(v)))) && Shl8(v, 5) == Up(Up(Up(Up(Up(v)))))
    ensures Shl8(v, 6) == Up(Up(Up(Up(Up(Up(v)))))) && Shl8(v, 7) == Up(Up(Up(Up(Up(Up(Up(v)))))))
  {
    hide Up;
    assert Shl8(v, 1) == Up(Shl8(v, 0)) && Shl8(v, 2) == Up(Shl8(v, 1)) && Shl8(v, 3) == Up(Shl8(v, 2));
    assert Shl8(v, 4) == Up(Shl8(v, 3)) && Shl8(v, 5) == Up(Shl8(v, 4)) && Shl8(v, 6) == Up(Shl8(v, 5));
  }

  lemma {:induction false} MarkByte(k: Kind, j: nat)
    requires j < 8
    ensures TopByte(Shl8(MarkValue(k), j)) == MarkBytes(k)[j]
  {
    hide Shl8;
    ShlSteps(MarkValue(k));
    if j == 0 {} else if j == 1 {} else if j == 2 {} else if j == 3 {} else if j == 4 {} else if j == 5 {} else if j == 6 {} else {}
  }

  /** Writes a mark as it stands. */
  method WriteMarkerMFM(memory: array<bv8>, mem: nat, ghost k: Kind, value: bv64, lastByte: bv8, memOverflow: nat)
    returns (written: nat, last: bv8)
    requires mem <= memOverflow <= memory.Length && value == MarkValue(k)
    modifies memory
    ensures forall i :: 0 <= i < memory.Length && !(mem <= i < memOverflow) ==> memory[i] == old(memory[i])
    ensures written <= memOverflow - mem
    ensures mem + 8 <= memOverflow ==> written == 8 && last == MarkBytes(k)[7] && memory[mem..mem + 8] == MarkBytes(k)
  {
    hide TopByte, Shl8, MarkBytes, MarkValue, Up;
    ghost var v0 := value;
    var v, i := value, 0;
    ShlStart(v);
    last := lastByte;
    while i < 8
      invariant 0 <= i <= 8 && mem + i <= memOverflow && v == Shl8(v0, i)
      invariant i > 0 ==> last == MarkBytes(k)[i - 1]
      invariant forall j :: mem <= j < mem + i ==> memory[j] == MarkBytes(k)[j - mem]
      invariant forall j :: 0 <= j < memory.Length && !(mem <= j < memOverflow) ==> memory[j] == old(memory[j])
    {
      if mem + i >= memOverflow {
        return i, lastByte;
      }
      MarkByte(k, i);
      ShlNext(v0, i);
      last := TopByte(v);
      memory[mem + i] := last;
      v := Up(v);
      i := i + 1;
    }
    written := 8;
  }

  lemma {:induction false} ShlStart(v: bv64)
    ensures Shl8(v, 0) == v
  {
  }

  lemma {:induction false} ShlNext(v: bv64, n: nat)
    ensures Shl8(v, n + 1) == Up(Shl8(v, n))
  {
  }

  /** If t fits, it has been written, and the next piece can join on to it. */
  ghost predicate Holds(memory: seq<bv8>, mem: nat, lastByte: bv8, t: seq<bv8>, memOverflow: nat) {
    && mem <= memOverflow <= |memory|
    && (|t| <= memOverflow ==> mem == |t| && memory[..mem] == t && lastByte & 1 == Tail(t) & 1)
  }

  lemma {:induction false} Appended(before: seq<bv8>, memory: seq<bv8>, mem: nat, t: seq<bv8>, x: seq<bv8>)
    requires mem == |t| <= |before| == |memory| && before[..mem] == t
    requires mem + |x| <= |memory| && memory[mem..mem + |x|] == x
    requires forall i :: 0 <= i < mem ==> memory[i] == before[i]
    ensures memory[..mem + |x|] == t + x
  {
    assert memory[..mem] == t;
    assert memory[..mem + |x|] == memory[..mem] + memory[mem..mem + |x|];
  }

  method PutMfm(memory: array<bv8>, mem: nat, lastByte: bv8, data: seq<bv8>, ghost t: seq<bv8>, memOverflow: nat)
    returns (mem': nat, last: bv8)
    requires data != [] && Holds(memory[..], mem, lastByte, t, memOverflow)
    modifies memory
    ensures Holds(memory[..], mem', last, Mfm(t, data), memOverflow)
    ensures forall i :: memOverflow <= i < memory.Length ==> memory[i] == old(memory[i])
  {
    hide MfmOf;
    ghost var before := memory[..];
    var written;
    written, last := EncodeMFMdata(data, memory, mem, lastByte, memOverflow);
    mem' := mem + written;
    if |t| + 2 * |data| <= memOverflow {
      MfmSameLast(lastByte, Tail(t), data);
      Appended(before, memory[..], mem, t, MfmOf(lastByte, data));
      MfmEnds(lastByte, data);
    }
  }

  /** A gap; one of size 0 is not written at all. */
  method GapFillMFM(memory: array<bv8>, mem: nat, lastByte: bv8, size: nat, ghost t: seq<bv8>, memOverflow: nat)
    returns (mem': nat, last: bv8)
    requires Holds(memory[..], mem, lastByte, t, memOverflow)
    modifies memory
    ensures Holds(memory[..], mem', last, Mfm(t, Fill(size)), memOverflow)
    ensures forall i :: memOverflow <= i < memory.Length ==> memory[i] == old(memory[i])
  {
    if size < 1 {
      assert Mfm(t, Fill(0)) == t;
      return mem, lastByte;
    }
    mem', last := PutMfm(memory, mem, lastByte, Fill(size), t, memOverflow);
  }

  method PutMark(memory: array<bv8>, mem: nat, lastByte: bv8, k: Kind, ghost t: seq<bv8>, memOverflow: nat)
    returns (mem': nat, last: bv8)
    requires Holds(memory[..], mem, lastByte, t, memOverflow)
    modifies memory
    ensures Holds(memory[..], mem', last, Marked(t, k), memOverflow)
    ensures forall i :: memOverflow <= i < memory.Length ==> memory[i] == old(memory[i])
  {
    hide RawOf, MarkBytes, MarkValue;
    ghost var before := memory[..];
    var written;
    written, last := WriteRawMFM(memory, mem, 24, 0xAA, lastByte, memOverflow);
    mem' := mem + written;
    ghost var between := memory[..];
    if |t| + 24 <= memOverflow {
      RawSameLast(lastByte, Tail(t));
      Appended(before, between, mem, t, RawOf(lastByte, 0xAA, 24));
    }
    written, last := WriteMarkerMFM(memory, mem', k, MarkValue(k), last, memOverflow);
    if |t| + 32 <= memOverflow {
      Appended(between, memory[..], mem', Raw(t), MarkBytes(k));
    }
    mem' := mem' + written;
  }

  lemma {:induction false} RawSameLast(last: bv8, prev: bv8)
    requires prev & 1 == last & 1
    ensures RawOf(last, 0xAA, 24) == RawOf(prev, 0xAA, 24)
  {
    assert last & 1 != 0 <==> prev & 1 != 0;
  }

  method PutSector(memory: array<bv8>, mem0: nat, lastByte: bv8, g: Gaps, track: nat, sec: nat, data: seq<bv8>, ghost t: seq<bv8>, memOverflow: nat)
    returns (mem: nat, last: bv8)
    requires data != [] && Holds(memory[..], mem0, lastByte, t, memOverflow)
    modifies memory
    ensures Holds(memory[..], mem, last, WithSector(t, g, track, sec, data), memOverflow)
    ensures forall i :: memOverflow <= i < memory.Length ==> memory[i] == old(memory[i])
  {
    hide Holds, Mfm, Marked, Fill;
    mem, last := PutMark(memory, mem0, lastByte, SectorHeader, t, memOverflow);
    ghost var x := Marked(t, SectorHeader);
    var fields := [0xA1, 0xA1, 0xA1, 0xFE, Byte(track / 2), if track % 2 == 1 then 1 else 0, Byte(sec + 1), Byte(LengthCode(|data|))];
    assert fields == HeaderFields(track, sec, |data|);
    var crc := Crc16(fields, 0xFFFF);
    var header := fields + CrcBytes(crc);
    assert header == HeaderBytes(track, sec, |data|) by { StartValue(); }
    mem, last := PutMfm(memory, mem, last, header[4..], x, memOverflow);
    x := Mfm(x, header[4..]);
    mem, last := GapFillMFM(memory, mem, last, g.gap2, x, memOverflow);
    x := Mfm(x, Fill(g.gap2));
    mem, last := PutMark(memory, mem, last, SectorData, x, memOverflow);
    x := Marked(x, SectorData);
    crc := Crc16([0xA1, 0xA1, 0xA1, 0xFB], 0xFFFF);
    crc := Crc16(data, crc as bv32);
    assert CrcBytes(crc) == DataCrc(data) by { StartValue(); Widened(Crc(DATA_MARK, 0xFFFF)); }
    mem, last := PutMfm(memory, mem, last, data, x, memOverflow);
    x := Mfm(x, data);
    mem, last := PutMfm(memory, mem, last, CrcBytes(crc), x, memOverflow);
    x := Mfm(x, DataCrc(data));
    mem, last := GapFillMFM(memory, mem, last, g.gap3, x, memOverflow);
  }

  lemma {:induction false} StartValue()
    ensures Low(0xFFFF) == 0xFFFF
  {
  }

  lemma {:induction false} Widened(c: bv16)
    ensures Low(c as bv32) == c
  {
  }

  /** Writes a track; if the buffer is large enough, all of it. */
  method EncodeSectorsIntoMFM(forceAtariTiming: bool, sectors: seq<seq<bv8>>, track: nat, bufferSize: nat, memory: array<bv8>)
    returns (bytes: nat)
    requires bufferSize <= memory.Length && forall k :: 0 <= k < |sectors| ==> sectors[k] != []
    modifies memory
    ensures bytes <= bufferSize && forall i :: bufferSize <= i < memory.Length ==> memory[i] == old(memory[i])
    ensures |sectors| > 21 ==> bytes == 0 && memory[..] == old(memory[..])
    ensures |sectors| <= 21 && |TrackBytes(sectors, forceAtariTiming, track)| <= bufferSize ==>
              && bytes == |TrackBytes(sectors, forceAtariTiming, track)| && memory[..bytes] == TrackBytes(sectors, forceAtariTiming, track)
              && DataIn(memory[..bytes]) == TrackStream(sectors, forceAtariTiming, track)
  {
    hide Mfm, Marked, Fill, WithSector, TrackStart, DataIn, TrackStream, GapsFor;
    TrackHolds(sectors, forceAtariTiming, track);
    if |sectors| > 21 {
      return 0;
    }
    var g := ChooseGaps(|sectors|, forceAtariTiming);
    var last: bv8;
    bytes, last := PutStart(memory, g, bufferSize);
    for sec := 0 to |sectors|
      invariant Holds(memory[..], bytes, last, SectorsUpTo(sectors, g, track, sec), bufferSize)
      invariant forall i :: bufferSize <= i < memory.Length ==> memory[i] == old(memory[i])
    {
      bytes, last := PutSector(memory, bytes, last, g, track, sec, sectors[sec], SectorsUpTo(sectors, g, track, sec), bufferSize);
    }
    bytes, last := GapFillMFM(memory, bytes, last, g.gap4b / 2, SectorsUpTo(sectors, g, track, |sectors|), bufferSize);
  }

  /** The gaps that fit the sectors on a track. */
  method ChooseGaps(sectors: nat, forceAtariTiming0: bool) returns (g: Gaps)
    ensures sectors <= 21 ==> g == GapsFor(sectors, forceAtariTiming0)
  {
    var forceAtariTiming := forceAtariTiming0;
    var gap1Size, gap2Size, gap3Size, gap4bSize := 50, 22, 84, 182;
    if forceAtariTiming {
      gap1Size, gap2Size, gap3Size, gap4bSize := 60, 22, 40, 60;
    }
    match sectors {
      case 10 =>
        gap3Size, forceAtariTiming := 40, true;
      case 11 =>
        gap1Size, gap3Size, gap4bSize, forceAtariTiming := 10, 1, 0, true;
      case 19 =>
        gap3Size, forceAtariTiming := 26, true;
      case 20 =>
        gap3Size, forceAtariTiming := 20, true;
      case 21 =>
        gap1Size, gap3Size, gap4bSize, forceAtariTiming := 10, 1, 1, true;
      case 22 =>
        gap1Size, gap2Size, gap3Size, gap4bSize, forceAtariTiming := 1, 4, 1, 1, true;
      case _ =>
    }
    g := Gaps(forceAtariTiming, gap1Size, gap2Size, gap3Size, gap4bSize);
  }

  method PutStart(memory: array<bv8>, g: Gaps, memOverflow: nat) returns (mem: nat, last: bv8)
    requires memOverflow <= memory.Length
    modifies memory
    ensures Holds(memory[..], mem, last, TrackStart(g), memOverflow)
    ensures forall i :: memOverflow <= i < memory.Length ==> memory[i] == old(memory[i])
  {
    hide Mfm, Marked, Fill;
    mem, last := 0, 0x55;
    ghost var t: seq<bv8> := [];
    if !g.atari {
      mem, last := GapFillMFM(memory, mem, last, 80, t, memOverflow);
      t := Mfm(t, Fill(80));
      mem, last := PutMark(memory, mem, last, TrackHeader, t, memOverflow);
      t := Marked(t, TrackHeader);
    }
    mem, last := GapFillMFM(memory, mem, last, g.gap1, t, memOverflow);
  }
}
