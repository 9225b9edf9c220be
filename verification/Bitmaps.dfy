/** The block bitmap as one flat run of bits (a set bit is a free block) and the list of
    runs that are to be freed at the next commit. */
module Bitmaps {
  import opened Extents

  type Bits = seq<bool>

  /** A tobefreed entry: a first block and a length. */
  datatype Extent = Extent(blocknr: nat, size: nat)

  /** The bitmap after setting the bits of the blocks in s; bit i is block start + i. */
  function Mark(bits: Bits, start: nat, s: set<nat>): (r: Bits)
    ensures |r| == |bits|
    ensures forall i :: 0 <= i < |bits| ==> r[i] == (bits[i] || start + i in s)
  {
    seq(|bits|, i requires 0 <= i < |bits| => bits[i] || start + i in s)
  }

  /** Every block free in bits is free in the committed bitmap too. */
  ghost predicate Within(bits: Bits, committed: Bits) {
    |bits| == |committed| && forall i :: 0 <= i < |bits| ==> bits[i] ==> committed[i]
  }

  /** No bit in [lo, hi) is a free block below limit. */
  ghost predicate NoneFree(bits: Bits, limit: nat, lo: nat, hi: nat) {
    forall q :: lo <= q < hi && q < |bits| && q < limit ==> !bits[q]
  }

  lemma {:induction false} ZeroField(bits: Bits, limit: nat, w: nat)
    requires w + 32 <= |bits| && true !in bits[w..w + 32]
    ensures NoneFree(bits, limit, w, w + 32)
  {
    forall q | w <= q < w + 32 && q < limit ensures !bits[q] { assert bits[w..w + 32][q - w] == bits[q]; }
  }

  function PendingSet(p: seq<Extent>): set<nat> {
    if p == [] then {} else
      PendingSet(p[..|p| - 1]) + RunSet(p[|p| - 1].blocknr, p[|p| - 1].size)
  }

  function PendingCount(p: seq<Extent>): nat {
    if p == [] then 0 else PendingCount(p[..|p| - 1]) + p[|p| - 1].size
  }

  function PendingFlat(p: seq<Extent>): seq<nat> {
    if p == [] then [] else
      PendingFlat(p[..|p| - 1]) + Run(p[|p| - 1].blocknr, p[|p| - 1].size)
  }

  lemma {:induction false} PendingSnoc(p: seq<Extent>, e: Extent)
    ensures PendingSet(p + [e]) == PendingSet(p) + RunSet(e.blocknr, e.size)
    ensures PendingCount(p + [e]) == PendingCount(p) + e.size
    ensures PendingFlat(p + [e]) == PendingFlat(p) + Run(e.blocknr, e.size)
  {
    assert (p + [e])[..|p|] == p;
  }

  lemma {:induction false} MarkMark(bits: Bits, start: nat, s: set<nat>, u: set<nat>)
    ensures Mark(Mark(bits, start, s), start, u) == Mark(bits, start, s + u)
  {
  }

  lemma {:induction false} MarkNone(bits: Bits, start: nat)
    ensures Mark(bits, start, {}) == bits
  {
  }

  lemma {:induction false} MarkOne(bits: Bits, start: nat, s: set<nat>, b: nat)
    requires start <= b < start + |bits|
    ensures Mark(bits, start, s)[b - start := true] == Mark(bits, start, s + {b})
  {
  }

  /** Blocks that end up set anyway may as well be set early. */
  lemma {:induction false} MarkAbsorb(bits: Bits, start: nat, p: set<nat>, q: set<nat>, u: set<nat>, v: set<nat>)
    requires p <= q
    requires Mark(bits, start, q + v) == Mark(bits, start, p + u)
    ensures Mark(bits, start, q + u) == Mark(bits, start, p + u)
  {
    var a, b := Mark(bits, start, q + u), Mark(bits, start, p + u);
    forall i | 0 <= i < |bits|
      ensures a[i] == b[i]
    {
      assert Mark(bits, start, q + v)[i] == b[i];
    }
  }
}
