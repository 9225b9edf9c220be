/** The bitmap of reserved blocks (PFS3lib/allocation.cpp); a set bit is a free block. */
module ReservedBitmaps {
  import opened Arithmetic

  /** How many of the first n blocks are free, not counting bits behind the last reserved block. */
  function FreeCount(bits: seq<bool>, usable: nat, n: nat): (c: nat)
    requires n <= |bits|
    ensures c <= n
  {
    if n == 0 then 0 else FreeCount(bits, usable, n - 1) + if bits[n - 1] && n - 1 < usable then 1 else 0
  }

  lemma {:induction false} CountChange(bits: seq<bool>, usable: nat, n: nat, t: nat, bit: bool)
    requires n <= |bits| && t < |bits|
    ensures var d := if t < n && t < usable then (if bit then 1 else 0) - (if bits[t] then 1 else 0) else 0;
            FreeCount(bits[t := bit], usable, n) == FreeCount(bits, usable, n) + d
  {
    if n > 0 { CountChange(bits, usable, n - 1, t, bit); }
  }

  lemma {:induction false} CountZero(bits: seq<bool>, usable: nat, n: nat)
    requires n <= |bits|
    ensures FreeCount(bits, usable, n) == 0 <==> forall t :: 0 <= t < n && t < usable ==> !bits[t]
  {
    if n > 0 { CountZero(bits, usable, n - 1); }
  }

  /** The first free block from `from` on. */
  ghost predicate FirstFrom(bits: seq<bool>, usable: nat, from: nat, t: nat) {
    from <= t < |bits| && t < usable && bits[t] && forall s :: from <= s < t ==> !bits[s]
  }

  ghost predicate NoneFrom(bits: seq<bool>, usable: nat, from: nat) {
    forall s :: from <= s < |bits| && s < usable ==> !bits[s]
  }

  class ReservedBitmap {
    const firstreserved: nat
    const lastreserved: nat
    const rescluster: nat
    // the bitmap, 32 bits a longword
    var bitmap: seq<bool>
    var reservedFree: nat
    var resRoving: nat

    /** How many bits stand for a reserved block. */
    function Usable(): nat
      requires rescluster > 0 && firstreserved <= lastreserved
    {
      (lastreserved - firstreserved) / rescluster + 1
    }

    function BlockNr(t: nat): nat {
      firstreserved + t * rescluster
    }

    ghost predicate Valid()
      reads this
    {
      && rescluster > 0 && 0 < firstreserved <= lastreserved
      && |bitmap| % 32 == 0 && |bitmap| == ((lastreserved - firstreserved + 1) / rescluster + 31) / 32 * 32
      && reservedFree == FreeCount(bitmap, Usable(), |bitmap|)
    }

    constructor (firstreserved: nat, lastreserved: nat, rescluster: nat, bitmap: seq<bool>, roving: nat, free: nat)
      requires rescluster > 0 && 0 < firstreserved <= lastreserved
      requires |bitmap| == ((lastreserved - firstreserved + 1) / rescluster + 31) / 32 * 32
      requires free == FreeCount(bitmap, (lastreserved - firstreserved) / rescluster + 1, |bitmap|)
      ensures Valid() && this.bitmap == bitmap && resRoving == roving
    {
      this.firstreserved, this.lastreserved, this.rescluster := firstreserved, lastreserved, rescluster;
      this.bitmap, resRoving, reservedFree := bitmap, roving, free;
    }

    /** The bits that stand for a block are those up to the last reserved block. */
    lemma {:induction false} UsableIs(t: nat)
      requires rescluster > 0 && firstreserved <= lastreserved
      ensures BlockNr(t) <= lastreserved <==> t < Usable()
    {
      var d, q := lastreserved - firstreserved, (lastreserved - firstreserved) / rescluster;
      assert d == q * rescluster + d % rescluster;
      if t <= q {
        MulMono(t, q, rescluster);
      } else {
        MulMono(q + 1, t, rescluster);
      }
    }

    /** Looks for a free block from bit `from` on. */
    method Search(from: nat) returns (found: bool, t: nat)
      requires Valid()
      ensures found ==> FirstFrom(bitmap, Usable(), from, t)
      ensures !found ==> NoneFrom(bitmap, Usable(), from)
    {
      var i, j: int := from / 32, 31 - from % 32;
      found, t := false, 0;
      while i < |bitmap| / 32
        invariant j == 31 || (i == from / 32 && j == 31 - from % 32)
        invariant from <= 32 * i + 31 - j
        invariant forall s :: from <= s < 32 * i + 31 - j && s < |bitmap| && s < Usable() ==> !bitmap[s]
      {
        while j >= 0
          invariant -1 <= j <= 31 && from <= 32 * i + 31 - j
          invariant forall s :: from <= s < 32 * i + 31 - j && s < |bitmap| && s < Usable() ==> !bitmap[s]
        {
          if bitmap[32 * i + 31 - j] {
            UsableIs(32 * i + 31 - j);
            if BlockNr(32 * i + 31 - j) <= lastreserved {
              return true, 32 * i + 31 - j;
            }
          }
          j := j - 1;
        }
        i, j := i + 1, 31;
      }
    }

    /** Takes the first free block from the roving pointer on, or if there is none, the first of all;
        0 if no block is free. */
    method AllocReservedBlock() returns (blocknr: nat)
      requires Valid()
      modifies this`bitmap, this`reservedFree, this`resRoving
      ensures Valid()
      ensures blocknr == 0 <==> old(reservedFree) == 0
      ensures blocknr == 0 ==> bitmap == old(bitmap)
      ensures blocknr != 0 ==>
                && blocknr == BlockNr(resRoving) <= lastreserved
                && (FirstFrom(old(bitmap), Usable(), old(resRoving), resRoving) ||
                    (NoneFrom(old(bitmap), Usable(), old(resRoving)) && FirstFrom(old(bitmap), Usable(), 0, resRoving)))
                && bitmap == old(bitmap)[resRoving := false] && reservedFree == old(reservedFree) - 1
      decreases resRoving
    {
      hide FreeCount;
      if reservedFree == 0 {
        return 0;
      }
      var found, t := Search(resRoving);
      if found {
        UsableIs(t);
        CountChange(bitmap, Usable(), |bitmap|, t, false);
        blocknr := BlockNr(t);
        bitmap := bitmap[t := false];
        NotZero(t);
        reservedFree := reservedFree - 1;
        resRoving := t;
      } else {
        blocknr := 0;
        CountZero(bitmap, Usable(), |bitmap|);
        if resRoving > 0 {
          resRoving := 0;
          blocknr := AllocReservedBlock();
        }
      }
    }

    lemma {:induction false} NotZero(t: nat)
      ensures BlockNr(t) >= firstreserved
    {
    }

    /** Frees a reserved block, or does nothing for block 0. The count stays right exactly if the
        block was not free. */
    method FreeReservedBlock(blocknr: nat, ghost t: nat)
      requires Valid() && (blocknr != 0 && blocknr <= lastreserved ==> blocknr == BlockNr(t) && t < |bitmap|)
      modifies this`bitmap, this`reservedFree
      ensures blocknr == 0 || blocknr > lastreserved ==> bitmap == old(bitmap) && reservedFree == old(reservedFree)
      ensures 0 < blocknr <= lastreserved ==> bitmap == old(bitmap)[t := true] && reservedFree == old(reservedFree) + 1
      ensures 0 < blocknr <= lastreserved ==> (Valid() <==> !old(bitmap)[t])
    {
      hide FreeCount;
      if blocknr != 0 && blocknr <= lastreserved {
        var n := (blocknr - firstreserved) / rescluster;
        Exact(t, rescluster);
        UsableIs(t);
        CountChange(bitmap, Usable(), |bitmap|, t, true);
        bitmap := bitmap[n := true];
        reservedFree := reservedFree + 1;
      }
    }

    lemma {:induction false} Exact(t: nat, n: nat)
      requires n > 0
      ensures (t * n) / n == t
    {
      var q := (t * n) / n;
      assert t * n == q * n + (t * n) % n;
      if q < t { MulMono(q + 1, t, n); }
      if t < q { MulMono(t + 1, q, n); }
    }
  }
}
