/** Conservation of user blocks: the free bits, the runs waiting to be freed and the blocks of
    chains always add up to the same multiset, in which no block occurs twice. */
module Ledger {
  import opened Extents
  import opened Bitmaps

  /** The free blocks of the user area [start, end). */
  ghost function FreeRange(bits: Bits, start: nat, end: nat): set<nat> {
    set b | start <= b < end && IsFree(bits, start, b)
  }

  predicate IsFree(bits: Bits, start: nat, b: nat) {
    start <= b < start + |bits| && bits[b - start]
  }

  ghost function LedgerOf(bits: Bits, start: nat, end: nat, p: seq<Extent>, flat: seq<nat>): multiset<nat> {
    multiset(FreeRange(bits, start, end)) + multiset(PendingFlat(p)) + multiset(flat)
  }

  /** Every block of the ledger lies in the user area and has exactly one owner, and the
      counter of free blocks agrees with the bitmap. */
  ghost predicate Balanced(bits: Bits, start: nat, end: nat, p: seq<Extent>, clean: int, flat: seq<nat>, ledger: multiset<nat>) {
    && end <= start + |bits|
    && clean == |FreeRange(bits, start, end)|
    && LedgerOf(bits, start, end, p, flat) == ledger
    && forall b :: b in ledger ==> ledger[b] == 1 && start <= b < end
  }

  ghost predicate NoDup(s: seq<nat>) {
    forall b :: b in s ==> multiset(s)[b] == 1
  }

  lemma {:induction false} NoDupSet(s: seq<nat>)
    requires NoDup(s)
    ensures |SetOf(s)| == |s| && multiset(SetOf(s)) == multiset(s)
  {
    if s != [] {
      var d, x := s[..|s| - 1], s[|s| - 1];
      assert s == d + [x];
      assert x !in d by { assert multiset(s)[x] == 1; }
      assert NoDup(d) by {
        forall b | b in d ensures multiset(d)[b] == 1 { assert b in s && b != x; }
      }
      NoDupSet(d);
      assert SetOf(s) == SetOf(d) + {x};
    } else {
      assert SetOf(s) == {};
    }
  }

  lemma {:induction false} PendingFlatSet(p: seq<Extent>)
    ensures SetOf(PendingFlat(p)) == PendingSet(p) && |PendingFlat(p)| == PendingCount(p)
  {
    if p != [] {
      var d, e := p[..|p| - 1], p[|p| - 1];
      PendingFlatSet(d);
      RunIsRunSet(e.blocknr, e.size);
    }
  }

  lemma {:induction false} DisjointUnion(f: set<nat>, s: set<nat>)
    requires f !! s
    ensures multiset(f + s) == multiset(f) + multiset(s) && |f + s| == |f| + |s|
  {
  }

  /** The pending runs do not overlap each other or the free blocks. */
  lemma {:induction false} PendingDistinct(f: set<nat>, s: seq<nat>, c: multiset<nat>, ledger: multiset<nat>)
    requires multiset(f) + multiset(s) + c == ledger
    requires forall b :: b in ledger ==> ledger[b] == 1
    ensures NoDup(s) && f !! SetOf(s)
  {
    forall b | b in s
      ensures multiset(s)[b] == 1 && b !in f
    {
      assert multiset(s)[b] > 0;
      assert ledger[b] == multiset(f)[b] + multiset(s)[b] + c[b];
      assert b in ledger;
    }
  }

  lemma {:induction false} PendingInArea(s: seq<nat>, f: multiset<nat>, c: multiset<nat>, ledger: multiset<nat>, start: nat, end: nat)
    requires f + multiset(s) + c == ledger
    requires forall b :: b in ledger ==> start <= b < end
    ensures forall b :: b in SetOf(s) ==> start <= b < end
  {
    forall b | b in SetOf(s) ensures start <= b < end { assert b in multiset(s) && b in ledger; }
  }

  lemma {:induction false} PendingFlatEmpty()
    ensures PendingFlat([]) == []
  {
  }

  /** A commit moves the pending runs into the bitmap. */
  lemma {:induction false} CommitBalanced(bits: Bits, start: nat, end: nat, p: seq<Extent>, clean: int, flat: seq<nat>, ledger: multiset<nat>)
    requires Balanced(bits, start, end, p, clean, flat, ledger)
    ensures Balanced(Mark(bits, start, PendingSet(p)), start, end, [], clean + PendingCount(p), flat, ledger)
  {
    hide PendingSet, PendingCount, PendingFlat, Mark, FreeRange, NoDup, SetOf;
    var f := FreeRange(bits, start, end);
    var s := PendingFlat(p);
    PendingDistinct(f, s, multiset(flat), ledger);
    NoDupSet(s);
    PendingFlatSet(p);
    PendingInArea(s, multiset(f), multiset(flat), ledger, start, end);
    FreeAfterMark(bits, start, end, PendingSet(p));
    DisjointUnion(f, SetOf(s));
    PendingFlatEmpty();
  }

  lemma {:induction false} FreeAfterMark(bits: Bits, start: nat, end: nat, s: set<nat>)
    requires end <= start + |bits| && forall b :: b in s ==> start <= b < end
    ensures FreeRange(Mark(bits, start, s), start, end) == FreeRange(bits, start, end) + s
  {
  }

  /** Queueing the last run of a chain moves its blocks to the pending list. */
  lemma {:induction false} QueueBalanced(bits: Bits, start: nat, end: nat, p: seq<Extent>, clean: int, rest: seq<nat>, e: Extent, ledger: multiset<nat>)
    requires Balanced(bits, start, end, p, clean, rest + Run(e.blocknr, e.size), ledger)
    ensures Balanced(bits, start, end, p + [e], clean, rest, ledger)
  {
    PendingSnoc(p, e);
  }

  /** Taking a free block moves it to the chain. */
  lemma {:induction false} TakeBalanced(bits: Bits, start: nat, end: nat, p: seq<Extent>, clean: int, flat: seq<nat>, b: nat, ledger: multiset<nat>)
    requires Balanced(bits, start, end, p, clean, flat, ledger)
    requires start <= b < end && IsFree(bits, start, b)
    ensures Balanced(bits[b - start := false], start, end, p, clean - 1, flat + [b], ledger)
  {
    hide FreeRange, PendingFlat;
    FreeAfterTake(bits, start, end, b);
    var f' := FreeRange(bits[b - start := false], start, end);
    DisjointUnion(f', {b});
    assert multiset(flat + [b]) == multiset(flat) + multiset{b};
    assert multiset({b}) == multiset{b};
  }

  lemma {:induction false} FreeAfterTake(bits: Bits, start: nat, end: nat, b: nat)
    requires start <= b < end && IsFree(bits, start, b)
    ensures var f' := FreeRange(bits[b - start := false], start, end);
            b !in f' && FreeRange(bits, start, end) == f' + {b}
  {
  }

  /** Some free block of the user area; the same one as long as the bitmap is the same. */
  ghost function SomeFree(bits: Bits, start: nat, end: nat): (b: nat)
    requires FreeRange(bits, start, end) != {}
    ensures start <= b < end && IsFree(bits, start, b)
  {
    var b :| b in FreeRange(bits, start, end); b
  }

  lemma {:induction false} InLedger(bits: Bits, start: nat, end: nat, p: seq<Extent>, clean: int, flat: seq<nat>,
                                    ledger: multiset<nat>, b: nat)
    requires Balanced(bits, start, end, p, clean, flat, ledger) && b in flat
    ensures start <= b < end && !IsFree(bits, start, b)
  {
    assert b in multiset(flat) && b in ledger;
    assert ledger[b] == 1;
    assert multiset(FreeRange(bits, start, end))[b] == 0;
  }
}
