/** The phase-locked loop that turns flux times into MFM bits (adf/pll.cpp). */
module Plls {
  import opened Arithmetic

  type Byte = b: nat | b < 0x100

  const CLOCK_CENTRE := 2000
  const CLOCK_MIN := 1800
  const CLOCK_MAX := 2200

  /** Division that rounds towards zero. */
  function Div(a: int, b: int): (q: int)
    requires b > 0
    ensures a >= 0 ==> q >= 0
  {
    if a >= 0 then a / b else -((-a) / b)
  }

  lemma {:induction false} DivBounds(a: int, b: int)
    requires b > 0
    ensures a >= 0 ==> 0 <= a - b * Div(a, b) < b
    ensures a <= 0 ==> -b < a - b * Div(a, b) <= 0
  {
  }

  // ---------------------------------------------------------------------
  // The loop without its output

  /** The clock period and the time left over from the fluxes so far, in nanoseconds. */
  datatype Timing = Timing(clock: int, residual: int)

  function Clamped(clock: int): (c: int)
    ensures CLOCK_MIN <= c <= CLOCK_MAX
  {
    if clock < CLOCK_MIN then CLOCK_MIN else if clock > CLOCK_MAX then CLOCK_MAX else clock
  }

  ghost predicate Runs(p: Timing) {
    CLOCK_MIN <= p.clock <= CLOCK_MAX
  }

  /** Whether a flux completes a bit cell. */
  function Ends(p: Timing, flux: nat): bool {
    p.residual + flux >= Div(p.clock, 2)
  }

  /** How many bit cells without a flux change came before this one. */
  function Zeros(p: Timing, flux: nat): (z: int)
    requires Runs(p)
    ensures Ends(p, flux) ==> z >= 0
  {
    Div(p.residual + flux - Div(p.clock, 2), p.clock)
  }

  /** How far the flux is from where the clock expects it. */
  function Mismatch(p: Timing, flux: nat): int
    requires Runs(p)
  {
    p.residual + flux - (Zeros(p, flux) + 1) * p.clock
  }

  /** The clock period before it is clamped. */
  function Adjusted(p: Timing, flux: nat): int
    requires Runs(p)
  {
    var zeros := Zeros(p, flux);
    if 1 <= zeros <= 3 then p.clock + Div(Div(Mismatch(p, flux), zeros + 1), 10)
    else p.clock + Div(CLOCK_CENTRE - p.clock, 10)
  }

  function Step(p: Timing, flux: nat): (q: Timing)
    requires Runs(p)
    ensures Runs(q)
  {
    if !Ends(p, flux) then Timing(p.clock, p.residual + flux)
    else Timing(Clamped(Adjusted(p, flux)), Div(Mismatch(p, flux), 2))
  }

  // ---------------------------------------------------------------------
  // Jitter tolerance

  /** The region the loop stays in; d is how far the clock is from its centre. */
  ghost predicate Locked(p: Timing) {
    InRegion(p.residual, p.clock - CLOCK_CENTRE)
  }

  /** How far, in nanoseconds, a flux may be from a whole number of bit cells. */
  const JITTER := 200

  /** The whole numbers of bit cells between two flux changes of an MFM track. */
  type Interval = n: nat | 2 <= n <= 4 witness 2

  ghost predicate Near(flux: nat, cells: Interval) {
    -JITTER <= flux - CLOCK_CENTRE * cells <= JITTER
  }

  /** The clock never gets near its limits. */
  lemma {:induction false} LockedClock(p: Timing)
    requires Locked(p)
    ensures -108 <= p.clock - CLOCK_CENTRE <= 108 && Runs(p)
  {
  }

  ghost predicate InRegion(r: int, d: int) {
    && -810 <= r - 5 * d <= 810
    && -2192 <= r - 20 * d <= 2192
    && -410 <= r + 2 * d <= 410
    && -670 <= r + 6 * d <= 670
    && -1718 <= r + 16 * d <= 1718
  }

  lemma {:induction false} MismatchBound(r: int, d: int, e: int, cells: Interval)
    requires InRegion(r, d) && -JITTER <= e <= JITTER
    ensures 2 * (r + e - cells * d) <= 1998 + d && -2 * (r + e - cells * d) <= 1998 + d
  {
    if cells == 2 {} else if cells == 3 {} else {}
  }

  lemma {:induction false} Scale(x: int, y: int, b: int)
    requires x <= y && b > 0
    ensures x * b <= y * b
  {
  }

  lemma {:induction false} Quotient(n: int, b: int, q: int)
    requires b > 0 && q >= 0 && q * b <= n < q * b + b
    ensures Div(n, b) == q
  {
    var x := n / b;
    if x < q { Scale(x + 1, q, b); }
    if x > q { Scale(q + 1, x, b); }
  }

  lemma {:induction false} Expand(cells: nat, clock: int)
    ensures cells * (clock - CLOCK_CENTRE) == cells * clock - CLOCK_CENTRE * cells
    ensures (cells - 1) * clock == cells * clock - clock
  {
  }

  /** Within the region a flux is counted as the right number of cells. */
  lemma {:induction false} RightCount(p: Timing, flux: nat, cells: Interval)
    requires Locked(p) && Near(flux, cells)
    ensures Runs(p) && Ends(p, flux) && Zeros(p, flux) == cells - 1
    ensures Mismatch(p, flux) == p.residual + (flux - CLOCK_CENTRE * cells) - cells * (p.clock - CLOCK_CENTRE)
  {
    hide Div;
    LockedClock(p);
    var half := Div(p.clock, 2);
    DivBounds(p.clock, 2);
    var m := p.residual + (flux - CLOCK_CENTRE * cells) - cells * (p.clock - CLOCK_CENTRE);
    MismatchBound(p.residual, p.clock - CLOCK_CENTRE, flux - CLOCK_CENTRE * cells, cells);
    Expand(cells, p.clock);
    Quotient(p.residual + flux - half, p.clock, cells - 1);
  }

  /** q is m divided by n, rounded towards zero. */
  ghost predicate Rounded(m: int, n: int, q: int) {
    if m >= 0 then 0 <= m - n * q < n else -n < m - n * q <= 0
  }

  lemma {:induction false} DivTwice(m: int, n: int)
    requires 2 <= n <= 4
    ensures Rounded(m, 2, Div(m, 2)) && Rounded(m, 10 * n, Div(Div(m, n), 10))
  {
    if n == 2 {} else if n == 3 {} else {}
  }

  /** c is the number between 1800 and 2200 that is nearest to x. */
  ghost predicate Nearest(x: int, c: int) {
    1800 <= c <= 2200 && (x < 1800 ==> c == 1800) && (x > 2200 ==> c == 2200) && (1800 <= x <= 2200 ==> c == x)
  }

  /** What is added to the clock: for 1 to 3 zeros a tenth of the mismatch a cell, else a tenth of the way to
      the centre. */
  ghost predicate Added(clock: int, m: int, z: int, a: int) {
    if 1 <= z <= 3 then Rounded(m, 10 * (z + 1), a) else Rounded(2000 - clock, 10, a)
  }

  /** What a flux that completes a bit cell does: it ends in the cell after z others, up to half a cell late;
      the part by which it misses the clock is halved; the clock is adjusted, within its limits. */
  ghost predicate Follows(p: Timing, flux: nat, q: Timing, z: int) {
    var m := p.residual + flux - (z + 1) * p.clock;
    && z >= 0 && z * p.clock <= p.residual + flux - p.clock / 2 < (z + 1) * p.clock
    && Rounded(m, 2, q.residual)
    && exists a :: Added(p.clock, m, z, a) && Nearest(p.clock + a, q.clock)
  }

  lemma {:induction false} StepFollows(p: Timing, flux: nat)
    requires Runs(p)
    ensures Ends(p, flux) <==> p.residual + flux >= p.clock / 2
    ensures if Ends(p, flux) then Follows(p, flux, Step(p, flux), Zeros(p, flux)) else Step(p, flux) == Timing(p.clock, p.residual + flux)
  {
    if Ends(p, flux) {
      Cells(p.residual + flux - p.clock / 2, p.clock);
      hide Div, Rounded, Adjusted, Zeros, Added, Clamped;
      Halved(Mismatch(p, flux));
      var a := Addend(p, flux);
    }
  }

  lemma {:induction false} Addend(p: Timing, flux: nat) returns (a: int)
    requires Runs(p) && Ends(p, flux)
    ensures Added(p.clock, Mismatch(p, flux), Zeros(p, flux), a) && Nearest(p.clock + a, Clamped(Adjusted(p, flux)))
  {
    hide Div, Rounded, Zeros, Mismatch, Ends;
    var z, m := Zeros(p, flux), Mismatch(p, flux);
    if 1 <= z <= 3 {
      a := Div(Div(m, z + 1), 10);
      DivTwice(m, z + 1);
    } else {
      a := Div(CLOCK_CENTRE - p.clock, 10);
      Tenth(CLOCK_CENTRE - p.clock);
    }
  }

  lemma {:induction false} Cells(n: nat, c: nat)
    requires c > 0
    ensures Div(n, c) * c <= n < (Div(n, c) + 1) * c
  {
  }

  lemma {:induction false} Halved(m: int)
    ensures Rounded(m, 2, Div(m, 2))
  {
  }

  lemma {:induction false} Tenth(m: int)
    ensures Rounded(m, 10, Div(m, 10))
  {
  }

  /** After a flux of 1 cell, or of more than 4, the clock is nearer to its centre, on the same side, or as near
      as it was. */
  lemma {:induction false} OutOfSync(p: Timing, flux: nat)
    requires Runs(p) && Ends(p, flux) && !(1 <= Zeros(p, flux) <= 3)
    ensures var c, d := p.clock - 2000, Step(p, flux).clock - 2000;
            && (c >= 0 ==> 0 <= d <= c && 10 * (c - d) <= c < 10 * (c - d) + 10)
            && (c <= 0 ==> c <= d <= 0 && 10 * (d - c) <= -c < 10 * (d - c) + 10)
  {
    hide Zeros;
    Tenth(CLOCK_CENTRE - p.clock);
  }

  lemma {:induction false} RegionStep2(r: int, d: int, e: int, h: int, q: int)
    requires InRegion(r, d) && -JITTER <= e <= JITTER
    requires Rounded(r + e - 2 * d, 2, h) && Rounded(r + e - 2 * d, 20, q)
    ensures InRegion(h, d + q)
  {
  }

  lemma {:induction false} RegionStep3(r: int, d: int, e: int, h: int, q: int)
    requires InRegion(r, d) && -JITTER <= e <= JITTER
    requires Rounded(r + e - 3 * d, 2, h) && Rounded(r + e - 3 * d, 30, q)
    ensures InRegion(h, d + q)
  {
  }

  lemma {:induction false} RegionStep4(r: int, d: int, e: int, h: int, q: int)
    requires InRegion(r, d) && -JITTER <= e <= JITTER
    requires Rounded(r + e - 4 * d, 2, h) && Rounded(r + e - 4 * d, 40, q)
    ensures InRegion(h, d + q)
  {
  }

  lemma {:induction false} RegionStep(r: int, d: int, e: int, cells: Interval, m: int)
    requires InRegion(r, d) && -JITTER <= e <= JITTER && m == r + e - cells * d
    ensures InRegion(Div(m, 2), d + Div(Div(m, cells), 10))
  {
    hide Div, InRegion, Rounded;
    DivTwice(m, cells);
    var h, q := Div(m, 2), Div(Div(m, cells), 10);
    if cells == 2 {
      RegionStep2(r, d, e, h, q);
    } else if cells == 3 {
      RegionStep3(r, d, e, h, q);
    } else {
      RegionStep4(r, d, e, h, q);
    }
  }

  /** A flux near a whole number of cells is counted right, keeps the loop in the region, and leaves
      the clock inside its limits. */
  lemma {:induction false} StaysLocked(p: Timing, flux: nat, cells: Interval)
    requires Locked(p) && Near(flux, cells)
    ensures Runs(p) && Ends(p, flux) && Zeros(p, flux) == cells - 1 && Locked(Step(p, flux))
    ensures CLOCK_MIN < Adjusted(p, flux) < CLOCK_MAX
  {
    hide Div, InRegion, Mismatch, Zeros, Ends;
    RightCount(p, flux, cells);
    var m := Mismatch(p, flux);
    RegionStep(p.residual, p.clock - CLOCK_CENTRE, flux - CLOCK_CENTRE * cells, cells, m);
    var c := p.clock + Div(Div(m, cells), 10);
    assert Adjusted(p, flux) == c;
    LockedClock(Timing(c, Div(m, 2)));
  }

  lemma {:induction false} StartLocked()
    ensures Locked(Timing(CLOCK_CENTRE, 0))
  {
  }

  // ---------------------------------------------------------------------
  // Whole tracks

  type Bit = b: nat | b < 2

  function Blank(n: nat): (r: seq<Bit>)
    ensures |r| == n
  {
    seq(n, i => 0)
  }

  /** The bits of one flux: zeros and a one. */
  function Cell(zeros: nat): (r: seq<Bit>)
    ensures |r| == zeros + 1
  {
    Blank(zeros) + [1]
  }

  function Track(cells: seq<Interval>): seq<Bit>
  {
    if cells == [] then [] else var n: nat := cells[|cells| - 1];
      Track(cells[..|cells| - 1]) + Cell(n - 1)
  }

  function Length(cells: seq<Interval>): nat {
    if cells == [] then 0 else var n: nat := cells[|cells| - 1]; Length(cells[..|cells| - 1]) + n
  }

  ghost predicate EndsAt(cells: seq<Interval>, p: nat) {
    exists k {:trigger cells[..k]} :: 0 < k <= |cells| && p == Length(cells[..k])
  }

  /** There is a one at the end of each interval, and nowhere else. */
  lemma {:induction false} TrackOnes(cells: seq<Interval>, p: nat)
    requires p < |Track(cells)|
    ensures |Track(cells)| == Length(cells)
    ensures Track(cells)[p] == 1 <==> EndsAt(cells, p + 1)
    decreases |cells|
  {
    if cells != [] {
      var d := cells[..|cells| - 1];
      TrackLength(d);
      assert cells[..|cells|] == cells;
      if p < |Track(d)| {
        TrackOnes(d, p);
        if EndsAt(cells, p + 1) {
          var k :| 0 < k <= |cells| && p + 1 == Length(cells[..k]);
          assert k < |cells| && d[..k] == cells[..k];
        }
        if EndsAt(d, p + 1) {
          var k :| 0 < k <= |d| && p + 1 == Length(d[..k]);
          assert d[..k] == cells[..k];
        }
      } else if EndsAt(cells, p + 1) {
        var k :| 0 < k <= |cells| && p + 1 == Length(cells[..k]);
        if k < |cells| {
          assert d[..k] == cells[..k];
          LengthMono(d, k);
        }
      }
    }
  }

  lemma {:induction false} TrackLength(cells: seq<Interval>)
    ensures |Track(cells)| == Length(cells)
  {
    if cells != [] { TrackLength(cells[..|cells| - 1]); }
  }

  lemma {:induction false} LengthMono(cells: seq<Interval>, k: nat)
    requires k <= |cells|
    ensures Length(cells[..k]) <= Length(cells)
  {
    if k < |cells| {
      var d := cells[..|cells| - 1];
      assert d[..k] == cells[..k];
      LengthMono(d, k);
    } else {
      assert cells[..k] == cells;
    }
  }

  /** The n lowest bits of b, the highest of them first. */
  function LowBits(b: nat, n: nat): (r: seq<Bit>)
    ensures |r| == n
  {
    if n == 0 then [] else LowBits(b / 2, n - 1) + [b % 2]
  }

  function AllBits(data: seq<Byte>): (r: seq<Bit>)
    ensures |r| == 8 * |data|
  {
    if data == [] then [] else AllBits(data[..|data| - 1]) + LowBits(data[|data| - 1], 8)
  }

  lemma {:induction false} ShiftedBits(b: nat, n: nat, s: nat)
    ensures LowBits(b * Pow2(s), n + s) == LowBits(b, n) + seq(s, i => 0)
  {
    if s > 0 {
      assert b * Pow2(s) == 2 * (b * Pow2(s - 1));
      ShiftedBits(b, n, s - 1);
    }
  }

  class PLL {
    var clock: int
    var nFluxSoFar: int
    var mfmData: seq<Byte>
    var bitsRemaining: nat

    /** The last byte holds 8 - bitsRemaining bits so far, lowest bit last. */
    ghost predicate Valid()
      reads this
    {
      && Runs(Timing(clock, nFluxSoFar)) && bitsRemaining < 8
      && (mfmData == [] ==> bitsRemaining == 0)
      && (mfmData != [] ==> mfmData[|mfmData| - 1] < Pow2(8 - bitsRemaining))
    }

    /** The bits decoded so far. */
    ghost function Bits(): seq<Bit>
      reads this`mfmData, this`bitsRemaining
      requires bitsRemaining < 8
    {
      if mfmData == [] then [] else
        AllBits(mfmData[..|mfmData| - 1]) + LowBits(mfmData[|mfmData| - 1], 8 - bitsRemaining)
    }

    ghost function State(): Timing
      reads this`clock, this`nFluxSoFar
    {
      Timing(clock, nFluxSoFar)
    }

    constructor ()
      ensures Valid() && Bits() == [] && State() == Timing(CLOCK_CENTRE, 0)
    {
      clock, nFluxSoFar, mfmData, bitsRemaining := CLOCK_CENTRE, 0, [], 0;
    }

    method Reset()
      modifies this
      ensures Valid() && Bits() == [] && State() == Timing(CLOCK_CENTRE, 0)
    {
      clock, nFluxSoFar := CLOCK_CENTRE, 0;
      NewTrack();
    }

    method NewTrack()
      modifies this`bitsRemaining, this`mfmData
      ensures mfmData == [] && bitsRemaining == 0
    {
      bitsRemaining := 0;
      mfmData := [];
    }

    method AddBit(bit: Bit)
      requires Valid()
      modifies this`bitsRemaining, this`mfmData
      ensures Valid() && Bits() == old(Bits()) + [bit]
    {
      hide LowBits, AllBits, Pow2, Div;
      if bitsRemaining == 0 {
        FirstBit(mfmData, bit);
        mfmData := mfmData + [bit];
        bitsRemaining := 7;
      } else {
        NextBit(mfmData[|mfmData| - 1], 8 - bitsRemaining, bit);
        bitsRemaining := bitsRemaining - 1;
        var last := mfmData[|mfmData| - 1] * 2 % 0x100;
        mfmData := mfmData[|mfmData| - 1 := last + bit];
      }
    }

    lemma {:induction false} FirstBit(data: seq<Byte>, bit: Bit)
      ensures LowBits(bit, 1) == [bit] && Pow2(1) == 2
      ensures data == [] ==> AllBits(data) == []
      ensures data != [] ==> AllBits(data) == AllBits(data[..|data| - 1]) + LowBits(data[|data| - 1], 8)
      ensures (data + [bit])[..|data|] == data
    {
      assert LowBits(bit / 2, 0) == [];
    }

    lemma {:induction false} NextBit(b: nat, n: nat, bit: Bit)
      requires b < Pow2(n) && 0 < n < 8
      ensures b * 2 % 0x100 == b * 2 && b * 2 + bit < Pow2(n + 1) <= 0x100
      ensures LowBits(b * 2 + bit, n + 1) == LowBits(b, n) + [bit]
    {
      PowSum(n + 1, 7 - n);
      assert Pow2(8) == 0x100;
      assert Pow2(n + 1) <= Pow2(n + 1) * Pow2(7 - n);
      assert (b * 2 + bit) / 2 == b;
    }

    /** Takes in the time to the next flux change. */
    method DecodeFlux(fluxTime: nat)
      requires Valid()
      modifies this
      ensures Valid() && State() == Step(old(State()), fluxTime)
      ensures if old(State()).residual + fluxTime >= old(State()).clock / 2
              then Follows(old(State()), fluxTime, State(), Zeros(old(State()), fluxTime))
              else State() == Timing(old(State()).clock, old(State()).residual + fluxTime)
      ensures Bits() == if Ends(old(State()), fluxTime) then old(Bits()) + Cell(Zeros(old(State()), fluxTime)) else old(Bits())
    {
      hide Div, AllBits, LowBits, Pow2, Follows;
      StepFollows(State(), fluxTime);
      nFluxSoFar := nFluxSoFar + fluxTime;
      if nFluxSoFar < Div(clock, 2) {
        return;
      }
      var clockedZeros := Div(nFluxSoFar - Div(clock, 2), clock);
      assert clockedZeros == Zeros(old(State()), fluxTime);
      nFluxSoFar := nFluxSoFar - (clockedZeros + 1) * clock;
      if clockedZeros >= 1 && clockedZeros <= 3 {
        clock := clock + Div(Div(nFluxSoFar, clockedZeros + 1), 10);
      } else {
        clock := clock + Div(CLOCK_CENTRE - clock, 10);
      }
      clock := if clock < CLOCK_MIN then CLOCK_MIN else if clock > CLOCK_MAX then CLOCK_MAX else clock;
      nFluxSoFar := Div(nFluxSoFar, 2);
      AddCell(clockedZeros);
    }

    method AddCell(zeros: nat)
      requires Valid()
      modifies this`bitsRemaining, this`mfmData
      ensures Valid() && Bits() == old(Bits()) + Cell(zeros)
    {
      hide Div, AllBits, LowBits, Pow2, Blank;
      var clockedZeros := zeros;
      ghost var start := Bits();
      assert start + Blank(0) == start;
      while clockedZeros > 0
        invariant Valid() && 0 <= clockedZeros <= zeros
        invariant Bits() == start + Blank(zeros - clockedZeros)
      {
        AddBit(0);
        OneMore(start, zeros - clockedZeros);
        clockedZeros := clockedZeros - 1;
      }
      AddBit(1);
      assert start + Blank(zeros) + [1] == start + (Blank(zeros) + [1]);
    }

    lemma {:induction false} OneMore(start: seq<Bit>, n: nat)
      ensures start + Blank(n) + [0] == start + Blank(n + 1)
    {
      assert Blank(n + 1) == Blank(n) + [0];
    }

    /** Moves the bits of an unfinished byte to its top and returns the number of bits. */
    method FinaliseTrack() returns (size: nat, buffer: seq<Byte>)
      requires Valid()
      modifies this`mfmData
      ensures size == |old(Bits())| && size <= |AllBits(buffer)| && AllBits(buffer)[..size] == old(Bits())
      ensures mfmData == buffer
    {
      hide LowBits, Pow2;
      if bitsRemaining > 0 {
        var n := |mfmData| - 1;
        TopBits(mfmData[n], 8 - bitsRemaining);
        var last := mfmData[n] * Pow2(bitsRemaining) % 0x100;
        assert mfmData[n := last][..n] == mfmData[..n];
        mfmData := mfmData[n := last];
      }
      buffer := mfmData;
      size := |mfmData| * 8 - bitsRemaining;
    }

    lemma {:induction false} TopBits(b: nat, n: nat)
      requires b < Pow2(n) && 0 < n <= 8
      ensures b * Pow2(8 - n) < 0x100 && b * Pow2(8 - n) % 0x100 == b * Pow2(8 - n)
      ensures LowBits(b * Pow2(8 - n), 8)[..n] == LowBits(b, n)
    {
      hide LowBits;
      ShiftedBits(b, n, 8 - n);
      PowSum(n, 8 - n);
      assert Pow2(8) == 0x100;
      Product(b, Pow2(n), Pow2(8 - n));
    }

    lemma {:induction false} Product(a: nat, b: nat, c: nat)
      requires a < b && c > 0
      ensures a * c < b * c
    {
    }
  }

  lemma {:induction false} TrackMore(cells: seq<Interval>, i: nat)
    requires i < |cells|
    ensures var n: nat := cells[i]; Track(cells[..i + 1]) == Track(cells[..i]) + Cell(n - 1)
  {
    assert cells[..i + 1][..i] == cells[..i];
  }

  lemma {:induction false} NoTrack()
    ensures Track([]) == []
  {
  }

  /** However long the track: from reset, fluxes within 200 ns of 2, 3 or 4 bit cells decode to
      exactly those cells. */
  method DecodeTrack(pll: PLL, fluxes: seq<nat>, cells: seq<Interval>) returns (size: nat, buffer: seq<Byte>)
    requires |fluxes| == |cells| && forall k :: 0 <= k < |cells| ==> Near(fluxes[k], cells[k])
    modifies pll
    ensures size == |Track(cells)| <= |AllBits(buffer)| && AllBits(buffer)[..size] == Track(cells)
  {
    hide Div, InRegion, Step, Zeros, Ends, AllBits, LowBits, Pow2, Follows, Track, Cell;
    StartLocked();
    NoTrack();
    pll.Reset();
    var i := 0;
    while i < |fluxes|
      invariant 0 <= i <= |fluxes| && pll.Valid()
      invariant Locked(pll.State())
      invariant pll.Bits() == Track(cells[..i])
    {
      StaysLocked(pll.State(), fluxes[i], cells[i]);
      pll.DecodeFlux(fluxes[i]);
      TrackMore(cells, i);
      i := i + 1;
    }
    assert cells[..i] == cells;
    size, buffer := pll.FinaliseTrack();
  }
}
