/** In which order free blocks are found: round and round through the bitmap from a starting bit on
    (PFS3lib/allocation.cpp). */
module ScanOrder {
  import opened Bitmaps

  /** The free blocks in [lo, hi) are in bits below `low` of their longwords. */
  ghost predicate Gone(bits: Bits, limit: nat, lo: nat, hi: nat, low: nat) {
    forall q :: lo <= q < hi && q < |bits| && q < limit && bits[q] ==> q % 32 < low
  }

  /** So are those from `from` on up to cur, round the end of the bitmap if cur is before it. */
  ghost predicate Passed(bits: Bits, limit: nat, from: nat, cur: nat, low: nat) {
    if from <= cur then Gone(bits, limit, from, cur, low)
    else Gone(bits, limit, from, |bits|, low) && Gone(bits, limit, 0, cur, low)
  }

  /** The bitmap without the blocks taken. */
  function Minus(bits: Bits, takes: seq<nat>): (r: Bits)
    ensures |r| == |bits|
  {
    seq(|bits|, q requires 0 <= q < |bits| => bits[q] && q !in takes)
  }

  /** Where the search for the next block starts: behind the last one taken. */
  function From(start: nat, takes: seq<nat>): nat {
    if takes == [] then start else takes[|takes| - 1] + 1
  }

  /** Before the first block is found, bits below that of the start are not looked at in the first longword
      that is not zero. */
  function Low(start: nat, takes: seq<nat>): nat {
    if takes == [] then start % 32 else 0
  }

  /** The k-th block taken is the next free one. */
  ghost predicate Next(bits: Bits, takes: seq<nat>, start: nat, limit: nat, k: nat)
    requires k < |takes|
  {
    var b, t := Minus(bits, takes[..k]), takes[k];
    t < |bits| && t < limit && b[t] && Passed(b, limit, From(start, takes[..k]), t, Low(start, takes[..k]))
  }

  /** So is each of them; with online updates, which free blocks in between, this is said of the first only. */
  ghost predicate InOrder(bits: Bits, takes: seq<nat>, start: nat, limit: nat, online: bool) {
    forall k :: 0 <= k < |takes| && (k == 0 || !online) ==> Next(bits, takes, start, limit, k)
  }

  /** The scan is at bit cur of the bitmap `bits`, which was bits0 at the start. */
  ghost predicate Scanning(bits: Bits, bits0: Bits, takes: seq<nat>, start: nat, limit: nat, online: bool, cur: nat) {
    && |bits| == |bits0| && InOrder(bits0, takes, start, limit, online)
    && (takes == [] || !online ==> bits == Minus(bits0, takes) && Passed(bits, limit, From(start, takes), cur, Low(start, takes)))
  }

  lemma {:induction false} ScanStart(bits: Bits, start: nat, limit: nat, online: bool)
    ensures Scanning(bits, bits, [], start, limit, online, start)
  {
    assert Minus(bits, []) == bits;
  }

  lemma {:induction false} ScanInOrder(bits: Bits, bits0: Bits, takes: seq<nat>, start: nat, limit: nat, online: bool, cur: nat)
    requires Scanning(bits, bits0, takes, start, limit, online, cur)
    ensures InOrder(bits0, takes, start, limit, online)
  {
  }

  /** The scan goes on if there is nothing to take up to a bit. */
  lemma {:induction false} ScanOn(bits: Bits, bits0: Bits, takes: seq<nat>, start: nat, limit: nat, online: bool, cur: nat, next: nat)
    requires Scanning(bits, bits0, takes, start, limit, online, cur) && cur <= next <= |bits|
    requires (takes == [] || !online) ==> Gone(bits, limit, cur, next, Low(start, takes))
    ensures Scanning(bits, bits0, takes, start, limit, online, next)
  {
    hide Minus, InOrder;
  }

  /** Behind the last bit comes the first. */
  lemma {:induction false} ScanRound(bits: Bits, bits0: Bits, takes: seq<nat>, start: nat, limit: nat, online: bool)
    requires Scanning(bits, bits0, takes, start, limit, online, |bits|) && start <= |bits|
    ensures Scanning(bits, bits0, takes, start, limit, online, 0)
  {
    hide Minus;
    if takes != [] && !online { assert Next(bits0, takes, start, limit, |takes| - 1); }
  }

  /** A block is taken. */
  lemma {:induction false} ScanTakes(bits: Bits, bits0: Bits, takes: seq<nat>, start: nat, limit: nat, online: bool, cur: nat)
    requires Scanning(bits, bits0, takes, start, limit, online, cur) && cur < |bits| && cur < limit && bits[cur]
    ensures Scanning(bits[cur := false], bits0, takes + [cur], start, limit, online, cur + 1)
  {
    var takes' := takes + [cur];
    forall k | 0 <= k < |takes'| && (k == 0 || !online)
      ensures Next(bits0, takes', start, limit, k)
    {
      if k < |takes| {
        assert takes'[..k] == takes[..k];
        assert Next(bits0, takes, start, limit, k);
      } else {
        assert takes'[..k] == takes;
      }
    }
    if !online { assert bits[cur := false] == Minus(bits0, takes'); }
  }

  /** An online update may free any blocks. */
  lemma {:induction false} ScanUpdated(bits: Bits, bits0: Bits, takes: seq<nat>, start: nat, limit: nat, cur: nat, bits': Bits)
    requires Scanning(bits, bits0, takes, start, limit, true, cur) && takes != [] && |bits'| == |bits|
    ensures Scanning(bits', bits0, takes, start, limit, true, cur)
  {
  }

  /** If the search starts at a free block, that is the first one taken. */
  lemma {:induction false} StartTaken(bits: Bits, takes: seq<nat>, start: nat, limit: nat, online: bool)
    requires InOrder(bits, takes, start, limit, online) && takes != [] && start < |bits| && start < limit && bits[start]
    ensures takes[0] == start
  {
    assert Next(bits, takes, start, limit, 0);
    assert Minus(bits, takes[..0]) == bits;
  }

  /** Without online updates the blocks taken are determined by the bitmap and the start, if that is free, or
      bit 0 of its longword. */
  lemma {:induction false} TakesUnique(bits: Bits, s: seq<nat>, t: seq<nat>, start: nat, limit: nat)
    requires InOrder(bits, s, start, limit, false) && InOrder(bits, t, start, limit, false) && |s| == |t|
    requires start % 32 == 0 || (start < |bits| && start < limit && bits[start])
    ensures s == t
  {
    var k := 0;
    while k < |s|
      invariant k <= |s| && s[..k] == t[..k]
    {
      assert Next(bits, s, start, limit, k) && Next(bits, t, start, limit, k);
      assert s[..k + 1] == s[..k] + [s[k]] && t[..k + 1] == t[..k] + [t[k]];
      if k == 0 && start % 32 != 0 {
        StartTaken(bits, s, start, limit, false);
        StartTaken(bits, t, start, limit, false);
      } else {
        NextUnique(Minus(bits, s[..k]), limit, From(start, s[..k]), s[k], t[k]);
      }
      k := k + 1;
    }
    assert s[..k] == s && t[..k] == t;
  }

  lemma {:induction false} NextUnique(bits: Bits, limit: nat, from: nat, s: nat, t: nat)
    requires Passed(bits, limit, from, s, 0) && Passed(bits, limit, from, t, 0)
    requires s < |bits| && s < limit && bits[s] && t < |bits| && t < limit && bits[t]
    ensures s == t
  {
  }
}
