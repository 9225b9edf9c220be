/** The CRC of IBM sectors (adf/ibm_sectors.cpp): generator x^16 + x^12 + x^5 + 1, section 2 of
    ITU-T V.41, computed in a 32-bit accumulator. */
module Crcs {
  import opened Arithmetic
  import opened BitStreams

  // ---------------------------------------------------------------------
  // The 16-bit register

  function Step(c: bv16): bv16 {
    if c & 0x8000 != 0 then (c << 1) ^ 0x1021 else c << 1
  }

  function Steps(c: bv16, n: nat): bv16 {
    if n == 0 then c else Step(Steps(c, n - 1))
  }

  function Add(a: bv16, b: bv16): bv16 {
    a ^ b
  }

  function OfByte(b: bv8): bv16 {
    (b as bv16) << 8
  }

  /** The CRC of a message, starting from register c. */
  function Crc(data: seq<bv8>, c: bv16): bv16 {
    if data == [] then c else Steps(Add(Crc(data[..|data| - 1], c), OfByte(data[|data| - 1])), 8)
  }

  lemma {:induction false} EightSteps(c: bv16)
    ensures Steps(c, 8) == Step(Step(Step(Step(Step(Step(Step(Step(c))))))))
  {
    hide Step;
    assert Steps(c, 2) == Step(Steps(c, 1)) && Steps(c, 1) == Step(Steps(c, 0));
    assert Steps(c, 4) == Step(Steps(c, 3)) && Steps(c, 3) == Step(Steps(c, 2));
    assert Steps(c, 6) == Step(Steps(c, 5)) && Steps(c, 5) == Step(Steps(c, 4));
    assert Steps(c, 8) == Step(Steps(c, 7)) && Steps(c, 7) == Step(Steps(c, 6));
  }

  lemma {:induction false} Digit(d: seq<bv8>, k: nat, c: bv16, r: bv16)
    requires k < |d| && Crc(d[..k], 0xFFFF) == c
    requires Step(Step(Step(Step(Step(Step(Step(Step(Add(c, OfByte(d[k])))))))))) == r
    ensures Crc(d[..k + 1], 0xFFFF) == r
  {
    hide Step, Add, OfByte, Steps;
    assert d[..k + 1][..k] == d[..k];
    EightSteps(Add(c, OfByte(d[k])));
  }

  /** The CRC of the digits 1 to 9, started with all ones: the value by which this CRC is known. */
  lemma {:induction false} CheckValue()
    ensures Crc([0x31, 0x32, 0x33, 0x34, 0x35, 0x36, 0x37, 0x38, 0x39], 0xFFFF) == 0x29B1
  {
    hide Steps, Crc;
    var d: seq<bv8> := [0x31, 0x32, 0x33, 0x34, 0x35, 0x36, 0x37, 0x38, 0x39];
    NoData(0xFFFF);
    Digit(d, 0, 0xFFFF, 0xC782);
    Digit(d, 1, 0xC782, 0x3DBA);
    Digit(d, 2, 0x3DBA, 0x5BCE);
    Digit(d, 3, 0x5BCE, 0x5349);
    Digit(d, 4, 0x5349, 0x4560);
    Digit(d, 5, 0x4560, 0x2EF4);
    Digit(d, 6, 0x2EF4, 0x7718);
    Digit(d, 7, 0x7718, 0xA12B);
    Digit(d, 8, 0xA12B, 0x29B1);
    assert d[..9] == d;
  }

  lemma {:induction false} NoData(c: bv16)
    ensures Crc([], c) == c
  {
  }

  // ---------------------------------------------------------------------
  // The 32-bit accumulator

  function WideStep(w: bv32): bv32 {
    if w & 0x8000 != 0 then (w << 1) ^ 0x1021 else w << 1
  }

  function Low(w: bv32): bv16 {
    (w & 0xFFFF) as bv16
  }

  lemma {:induction false} LowStep(w: bv32)
    ensures Low(WideStep(w)) == Step(Low(w))
  {
    if w & 0x8000 != 0 {
      assert Low(w) & 0x8000 != 0;
      LowFeedback(w);
    } else {
      assert Low(w) & 0x8000 == 0;
      LowShift(w);
    }
  }

  lemma {:induction false} LowShift(w: bv32)
    ensures Low(w << 1) == Low(w) << 1
  {
  }

  lemma {:induction false} LowFeedback(w: bv32)
    ensures Low((w << 1) ^ 0x1021) == (Low(w) << 1) ^ 0x1021
  {
  }

  lemma {:induction false} LowByte(w: bv32, b: bv8)
    ensures Low(w ^ ((b as bv32) << 8)) == Add(Low(w), OfByte(b))
  {
  }

  /** The accumulator's upper half never matters. */
  method Crc16(data: seq<bv8>, start: bv32) returns (crc: bv16)
    ensures crc == Crc(data, Low(start))
  {
    hide Low, WideStep, Step, Add, OfByte;
    var wCrc := start;
    var k := 0;
    while k < |data|
      invariant 0 <= k <= |data| && Low(wCrc) == Crc(data[..k], Low(start))
    {
      LowByte(wCrc, data[k]);
      assert data[..k + 1][..k] == data[..k];
      wCrc := wCrc ^ ((data[k] as bv32) << 8);
      ghost var c := Low(wCrc);
      for i := 0 to 8
        invariant Low(wCrc) == Steps(c, i)
      {
        LowStep(wCrc);
        wCrc := WideStep(wCrc);
      }
      k := k + 1;
    }
    assert data[..k] == data;
    crc := Low(wCrc);
  }

  /** The CRC of a message in two parts. */
  lemma {:induction false} CrcChain(x: seq<bv8>, y: seq<bv8>, c: bv16)
    ensures Crc(x + y, c) == Crc(y, Crc(x, c))
  {
    if y == [] {
      assert x + y == x;
    } else {
      CrcChain(x, y[..|y| - 1], c);
      assert (x + y)[..|x + y| - 1] == x + y[..|y| - 1];
    }
  }

  // ---------------------------------------------------------------------
  // Bit by bit

  function Top(bit: bool): bv16 {
    if bit then 0x8000 else 0
  }

  function CrcBits(bits: seq<bool>, c: bv16): bv16 {
    if bits == [] then c else Step(Add(CrcBits(bits[..|bits| - 1], c), Top(bits[|bits| - 1])))
  }

  lemma {:induction false} CrcBitsChain(x: seq<bool>, y: seq<bool>, c: bv16)
    ensures CrcBits(x + y, c) == CrcBits(y, CrcBits(x, c))
  {
    hide Step, Add, Top;
    if y == [] {
      assert x + y == x;
    } else {
      CrcBitsChain(x, y[..|y| - 1], c);
      assert (x + y)[..|x + y| - 1] == x + y[..|y| - 1];
    }
  }

  function Shl(r: bv16): bv16 {
    r << 1
  }

  function TopOf(r: bv16): bool {
    r & 0x8000 != 0
  }

  function Feedback(bit: bool): bv16 {
    if bit then 0x1021 else 0
  }

  lemma {:induction false} StepForm(c: bv16)
    ensures Step(c) == Add(Shl(c), Feedback(TopOf(c)))
  {
    AddZero(Shl(c));
  }

  lemma {:induction false} AddZero(x: bv16)
    ensures Add(x, 0) == x && Add(0, x) == x && Add(x, x) == 0
  {
  }

  lemma {:induction false} AddComm(x: bv16, y: bv16)
    ensures Add(x, y) == Add(y, x)
  {
  }

  lemma {:induction false} AddAssoc(x: bv16, y: bv16, z: bv16)
    ensures Add(Add(x, y), z) == Add(x, Add(y, z))
  {
  }

  lemma {:induction false} AddSwap(x: bv16, y: bv16, u: bv16, v: bv16)
    ensures Add(Add(x, y), Add(u, v)) == Add(Add(x, u), Add(y, v))
  {
    hide Add;
    AddAssoc(x, y, Add(u, v));
    AddAssoc(y, u, v);
    AddComm(y, u);
    AddAssoc(u, y, v);
    AddAssoc(x, u, Add(y, v));
  }

  lemma {:induction false} ShlAdd(x: bv16, y: bv16)
    ensures Shl(Add(x, y)) == Add(Shl(x), Shl(y))
  {
  }

  lemma {:induction false} TopAdd(x: bv16, y: bv16)
    ensures TopOf(Add(x, y)) == (TopOf(x) != TopOf(y))
  {
  }

  lemma {:induction false} FeedbackAdd(a: bool, b: bool)
    ensures Feedback(a != b) == Add(Feedback(a), Feedback(b))
  {
    AddZero(Feedback(a));
    AddZero(Feedback(b));
  }

  /** The zero-input step is linear. */
  lemma {:induction false} StepLinear(x: bv16, y: bv16)
    ensures Step(Add(x, y)) == Add(Step(x), Step(y))
  {
    hide Step, Add, Shl, TopOf, Feedback;
    StepForm(Add(x, y));
    StepForm(x);
    StepForm(y);
    ShlAdd(x, y);
    TopAdd(x, y);
    FeedbackAdd(TopOf(x), TopOf(y));
    AddSwap(Shl(x), Shl(y), Feedback(TopOf(x)), Feedback(TopOf(y)));
  }

  lemma {:induction false} TopOfTop(bit: bool)
    ensures TopOf(Top(bit)) == bit && Shl(Top(bit)) == 0
  {
  }

  /** Bits that are not at the top yet can as well be added later. */
  lemma {:induction false} StepAdd(x: bv16, r: bv16)
    ensures Step(Add(x, r)) == Add(Step(Add(x, Top(TopOf(r)))), Shl(r))
  {
    hide Step, Add, Shl, TopOf, Feedback, Top;
    var t := Top(TopOf(r));
    StepLinear(x, r);
    StepLinear(x, t);
    StepForm(r);
    StepForm(t);
    TopOfTop(TopOf(r));
    AddZero(Feedback(TopOf(r)));
    AddComm(Shl(r), Feedback(TopOf(r)));
    AddAssoc(Step(x), Feedback(TopOf(r)), Shl(r));
  }

  function Shls(r: bv16, n: nat): bv16 {
    if n == 0 then r else Shl(Shls(r, n - 1))
  }

  lemma {:induction false} TopBits(b: bv8)
    ensures var r := OfByte(b);
            && TopOf(r) == BitOf(b, 0) && TopOf(Shl(r)) == BitOf(b, 1) && TopOf(Shl(Shl(r))) == BitOf(b, 2)
            && TopOf(Shl(Shl(Shl(r)))) == BitOf(b, 3) && TopOf(Shl(Shl(Shl(Shl(r))))) == BitOf(b, 4)
            && TopOf(Shl(Shl(Shl(Shl(Shl(r)))))) == BitOf(b, 5) && TopOf(Shl(Shl(Shl(Shl(Shl(Shl(r))))))) == BitOf(b, 6)
            && TopOf(Shl(Shl(Shl(Shl(Shl(Shl(Shl(r)))))))) == BitOf(b, 7)
            && Shl(Shl(Shl(Shl(Shl(Shl(Shl(Shl(r)))))))) == 0
  {
    BitTable(b);
  }

  lemma {:induction false} ShlsUnfold(r: bv16)
    ensures Shls(r, 0) == r && Shls(r, 1) == Shl(r) && Shls(r, 2) == Shl(Shl(r)) && Shls(r, 3) == Shl(Shl(Shl(r)))
    ensures Shls(r, 4) == Shl(Shl(Shl(Shl(r)))) && Shls(r, 5) == Shl(Shl(Shl(Shl(Shl(r)))))
    ensures Shls(r, 6) == Shl(Shl(Shl(Shl(Shl(Shl(r)))))) && Shls(r, 7) == Shl(Shl(Shl(Shl(Shl(Shl(Shl(r)))))))
    ensures Shls(r, 8) == Shl(Shl(Shl(Shl(Shl(Shl(Shl(Shl(r))))))))
  {
    hide Shl;
    assert Shls(r, 1) == Shl(Shls(r, 0)) && Shls(r, 2) == Shl(Shls(r, 1)) && Shls(r, 3) == Shl(Shls(r, 2));
    assert Shls(r, 4) == Shl(Shls(r, 3)) && Shls(r, 5) == Shl(Shls(r, 4)) && Shls(r, 6) == Shl(Shls(r, 5));
  }

  /** Eight bits of a byte, one after the other. */
  function EightBits(b: bv8): (r: seq<bool>)
    ensures |r| == 8
  {
    [BitOf(b, 0), BitOf(b, 1), BitOf(b, 2), BitOf(b, 3), BitOf(b, 4), BitOf(b, 5), BitOf(b, 6), BitOf(b, 7)]
  }

  lemma {:induction false} BitN(b: bv8, n: nat)
    requires n < 8
    ensures EightBits(b)[n] == BitOf(b, n) == TopOf(Shls(OfByte(b), n)) && Shls(OfByte(b), 8) == 0
  {
    hide Shl, TopOf, OfByte, BitOf, Shls;
    TopBits(b);
    ShlsUnfold(OfByte(b));
    if n == 0 {} else if n == 1 {} else if n == 2 {} else if n == 3 {} else if n == 4 {} else if n == 5 {} else if n == 6 {} else {}
  }

  /** Part of a byte has been taken in bit by bit; the rest of it waits in r. */
  lemma {:induction false} PartOfByte(b: bv8, c: bv16, n: nat)
    requires n <= 8
    ensures Steps(Add(c, OfByte(b)), n) == Add(CrcBits(EightBits(b)[..n], c), Shls(OfByte(b), n))
  {
    hide Step, Add, TopOf, Top, Shl, OfByte, EightBits;
    if n > 0 {
      PartOfByte(b, c, n - 1);
      BitN(b, n - 1);
      StepAdd(CrcBits(EightBits(b)[..n - 1], c), Shls(OfByte(b), n - 1));
      assert EightBits(b)[..n][..n - 1] == EightBits(b)[..n - 1];
    }
  }

  /** A byte at a time is eight bits at a time. */
  lemma {:induction false} ByteIsBits(b: bv8, c: bv16)
    ensures Steps(Add(c, OfByte(b)), 8) == CrcBits(EightBits(b), c)
  {
    hide Step, Add, TopOf, Top, Shl, OfByte, EightBits, Steps, CrcBits, Shls;
    PartOfByte(b, c, 8);
    BitN(b, 0);
    assert EightBits(b)[..8] == EightBits(b);
    AddZero(CrcBits(EightBits(b), c));
  }

  lemma {:induction false} BitsSnoc(data: seq<bv8>, b: bv8)
    ensures BitsOf(data + [b]) == BitsOf(data) + EightBits(b)
  {
    hide BitOf, EightBits, TopOf, Shls;
    var x, y := BitsOf(data + [b]), BitsOf(data) + EightBits(b);
    forall i | 0 <= i < |x|
      ensures x[i] == y[i]
    {
      if i >= 8 * |data| {
        DivUnique(i, 8, |data|, i - 8 * |data|);
        BitN(b, i - 8 * |data|);
      }
    }
  }

  lemma {:induction false} CrcIsBits(data: seq<bv8>, c: bv16)
    ensures Crc(data, c) == CrcBits(BitsOf(data), c)
  {
    hide Step, Add, Top, OfByte, BitsOf, EightBits;
    if data == [] {
      assert BitsOf(data) == [];
    } else {
      var d, b := data[..|data| - 1], data[|data| - 1];
      CrcIsBits(d, c);
      assert data == d + [b];
      BitsSnoc(d, b);
      CrcBitsChain(BitsOf(d), EightBits(b), c);
      ByteIsBits(b, CrcBits(BitsOf(d), c));
    }
  }

  // ---------------------------------------------------------------------
  // Error detection

  /** Bitwise difference of two messages. */
  function Differences(x: seq<bool>, y: seq<bool>): (r: seq<bool>)
    requires |x| == |y|
    ensures |r| == |x|
  {
    seq(|x|, i requires 0 <= i < |x| => x[i] != y[i])
  }

  lemma {:induction false} TopDiffers(a: bool, b: bool)
    ensures Top(a != b) == Add(Top(a), Top(b))
  {
    AddZero(Top(a));
    AddZero(Top(b));
  }

  /** The CRC is affine: the difference of two CRCs is the CRC of the difference, from register 0. */
  lemma {:induction false} CrcAffine(x: seq<bool>, y: seq<bool>, c: bv16, d: bv16)
    requires |x| == |y|
    ensures Add(CrcBits(x, c), CrcBits(y, d)) == CrcBits(Differences(x, y), Add(c, d))
  {
    hide Step, Add, Top;
    if x != [] {
      var u, v, a, b := x[..|x| - 1], y[..|y| - 1], x[|x| - 1], y[|y| - 1];
      CrcAffine(u, v, c, d);
      assert Differences(x, y)[..|x| - 1] == Differences(u, v);
      TopDiffers(a, b);
      AddSwap(CrcBits(u, c), Top(a), CrcBits(v, d), Top(b));
      StepLinear(Add(CrcBits(u, c), Top(a)), Add(CrcBits(v, d), Top(b)));
    }
  }

  /** Undoes a step. */
  function Unstep(c: bv16): bv16 {
    if c & 1 != 0 then ((c ^ 0x1021) >> 1) | 0x8000 else c >> 1
  }

  function Half(c: bv16): bv16 {
    c >> 1
  }

  lemma {:induction false} UnstepEven(d: bv16)
    requires d & 1 == 0
    ensures Unstep(d) == Half(d)
  {
  }

  lemma {:induction false} UnstepOdd(c: bv16)
    requires TopOf(c)
    ensures Unstep((c << 1) ^ 0x1021) == c && Step(c) == (c << 1) ^ 0x1021
  {
    OddStep(c);
  }

  lemma {:induction false} OddStep(c: bv16)
    requires TopOf(c)
    ensures ((c << 1) ^ 0x1021) & 1 != 0 && ((((c << 1) ^ 0x1021) ^ 0x1021) >> 1) | 0x8000 == c
  {
  }

  lemma {:induction false} EvenStep(c: bv16)
    requires !TopOf(c)
    ensures Step(c) == Shl(c) && Shl(c) & 1 == 0 && Half(Shl(c)) == c
  {
  }

  lemma {:induction false} UnstepStep(c: bv16)
    ensures Unstep(Step(c)) == c
  {
    hide Unstep, Step, TopOf, Half, Shl;
    if TopOf(c) {
      UnstepOdd(c);
    } else {
      EvenStep(c);
      UnstepEven(Shl(c));
    }
  }

  /** The register before a run of bits, from the register behind them. */
  function Before(bits: seq<bool>, d: bv16): bv16 {
    if bits == [] then d else Before(bits[..|bits| - 1], Add(Unstep(d), Top(bits[|bits| - 1])))
  }

  lemma {:induction false} AddTwice(x: bv16, y: bv16)
    ensures Add(Add(x, y), y) == x
  {
  }

  lemma {:induction false} BeforeCrc(bits: seq<bool>, c: bv16)
    ensures Before(bits, CrcBits(bits, c)) == c
  {
    hide Step, Add, Top, Unstep;
    if bits != [] {
      var s := CrcBits(bits[..|bits| - 1], c);
      UnstepStep(Add(s, Top(bits[|bits| - 1])));
      AddTwice(s, Top(bits[|bits| - 1]));
      BeforeCrc(bits[..|bits| - 1], c);
    }
  }

  /** n ones at the bottom. */
  function Ones(n: nat): bv16 {
    if n == 0 then 0 else (Ones(n - 1) << 1) | 1
  }

  lemma {:induction false} OnesSmall(n: nat)
    requires n <= 15
    ensures n > 0 ==> Ones(n) & 1 == 1 && Half(Ones(n)) == Ones(n - 1)
  {
    if n == 0 {} else {
      OnesValues();
      if n <= 4 {} else if n <= 8 {} else if n <= 12 {} else {}
    }
  }

  lemma {:induction false} OnesValues()
    ensures Ones(0) == 0 && Ones(1) == 1 && Ones(2) == 3 && Ones(3) == 7 && Ones(4) == 0xF
    ensures Ones(5) == 0x1F && Ones(6) == 0x3F && Ones(7) == 0x7F && Ones(8) == 0xFF
    ensures Ones(9) == 0x1FF && Ones(10) == 0x3FF && Ones(11) == 0x7FF && Ones(12) == 0xFFF
    ensures Ones(13) == 0x1FFF && Ones(14) == 0x3FFF && Ones(15) == 0x7FFF
  {
    assert Ones(4) == 0xF;
    assert Ones(8) == 0xFF;
    assert Ones(12) == 0xFFF;
  }

  /** The lowest n bits are zero, but not all of them. */
  ghost predicate HighOnly(s: bv16, n: nat) {
    s != 0 && Clear(s, Ones(n))
  }

  ghost predicate Clear(s: bv16, m: bv16) {
    s & m == 0
  }

  lemma {:induction false} HighStep(s: bv16, m: bv16, bit: bool)
    requires s != 0 && Clear(s, m) && m & 1 == 1
    ensures Add(Unstep(s), Top(bit)) != 0 && Clear(Add(Unstep(s), Top(bit)), Half(m))
  {
    hide Unstep, Add, Half, Clear;
    LowestZero(s, m);
    UnstepEven(s);
    Halved(s, m);
    AddZero(Half(s));
    WithTop(Half(s), Half(m));
  }

  lemma {:induction false} LowestZero(s: bv16, m: bv16)
    requires Clear(s, m) && m & 1 == 1
    ensures s & 1 == 0
  {
  }

  lemma {:induction false} Halved(s: bv16, m: bv16)
    requires s != 0 && Clear(s, m) && s & 1 == 0
    ensures Half(s) != 0 && Clear(Half(s), Half(m)) && !TopOf(Half(s)) && !TopOf(Half(m))
  {
  }

  lemma {:induction false} WithTop(h: bv16, m: bv16)
    requires Clear(h, m) && !TopOf(h) && !TopOf(m)
    ensures Add(h, 0x8000) != 0 && Clear(Add(h, 0x8000), m)
  {
  }

  /** Going back, a register that is not zero stays so as long as no bit reaches its end. */
  lemma {:induction false} StaysHigh(bits: seq<bool>, s: bv16, n: nat)
    requires HighOnly(s, n) && |bits| <= n <= 15
    ensures Before(bits, s) != 0
  {
    hide Add, Top, Unstep, Ones, Half, Clear;
    if bits != [] {
      OnesSmall(n);
      HighStep(s, Ones(n), bits[|bits| - 1]);
      StaysHigh(bits[..|bits| - 1], Add(Unstep(s), Top(bits[|bits| - 1])), n - 1);
    }
  }

  lemma {:induction false} FirstBack(bit: bool)
    ensures Add(Unstep(0), Top(bit)) == Top(bit) && Top(true) != 0 && Clear(Top(true), Ones(15)) && Top(false) == 0
  {
    OnesValues();
  }

  /** At most 16 bits, not all zero, leave a register that is not zero. */
  lemma {:induction false} BurstShows(bits: seq<bool>)
    requires |bits| <= 16 && true in bits
    ensures Before(bits, 0) != 0 && CrcBits(bits, 0) != 0
  {
    hide Add, Top, Unstep, Ones, Step;
    var d, last := bits[..|bits| - 1], bits[|bits| - 1];
    FirstBack(last);
    if last {
      StaysHigh(d, Top(true), 15);
    } else {
      BurstShows(d);
    }
    BeforeCrc(bits, 0);
  }

  lemma {:induction false} StepZero(c: bv16)
    ensures Step(c) == 0 <==> c == 0
  {
    if c & 0x8000 != 0 {} else {}
  }

  /** Zeros leave a zero register zero, and any other register not zero. */
  lemma {:induction false} ZerosKeep(bits: seq<bool>, c: bv16)
    requires true !in bits
    ensures CrcBits(bits, c) == 0 <==> c == 0
  {
    hide Step, Add;
    if bits != [] {
      var d := bits[..|bits| - 1];
      assert !bits[|bits| - 1];
      ZerosKeep(d, c);
      AddZero(CrcBits(d, c));
      StepZero(CrcBits(d, c));
    }
  }

  /** In messages of any length every burst of at most 16 wrong bits is detected. */
  lemma {:induction false} BurstDetected(x: seq<bv8>, y: seq<bv8>, c: bv16, from: nat, len: nat)
    requires |x| == |y| && len <= 16 && from + len <= 8 * |x|
    requires forall i :: 0 <= i < 8 * |x| && !(from <= i < from + len) ==> BitsOf(x)[i] == BitsOf(y)[i]
    requires exists i :: 0 <= i < 8 * |x| && BitsOf(x)[i] != BitsOf(y)[i]
    ensures Crc(x, c) != Crc(y, c)
  {
    hide Step, Add, BitsOf, Crc;
    var u, v := BitsOf(x), BitsOf(y);
    CrcIsBits(x, c);
    CrcIsBits(y, c);
    BitBurst(u, v, c, from, len);
  }

  lemma {:induction false} BitBurst(u: seq<bool>, v: seq<bool>, c: bv16, from: nat, len: nat)
    requires |u| == |v| && len <= 16 && from + len <= |u|
    requires forall i :: 0 <= i < |u| && !(from <= i < from + len) ==> u[i] == v[i]
    requires exists i :: 0 <= i < |u| && u[i] != v[i]
    ensures CrcBits(u, c) != CrcBits(v, c)
  {
    hide Step, Add, CrcBits;
    var e := Differences(u, v);
    CrcAffine(u, v, c, c);
    AddZero(c);
    var head, burst, tail := e[..from], e[from..from + len], e[from + len..];
    assert e == head + burst + tail;
    var i :| 0 <= i < |u| && u[i] != v[i];
    assert burst[i - from] == e[i];
    assert true !in head && true !in tail;
    CrcBitsChain(head + burst, tail, 0);
    CrcBitsChain(head, burst, 0);
    ZerosKeep(head, 0);
    BurstShows(burst);
    ZerosKeep(tail, CrcBits(burst, 0));
    AddZero(CrcBits(u, c));
  }
}
