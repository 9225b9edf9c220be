/** All files of a volume at once: whatever is done to one chain, free blocks, blocks waiting to be
    freed and the blocks of all live chains partition the user area. */
module Stores {
  import opened Extents
  import opened Bitmaps
  import opened Ledger
  import opened Postponement
  import opened Volumes

  function AllFlat(chains: seq<Chain>): seq<nat> {
    if chains == [] then [] else AllFlat(chains[..|chains| - 1]) + Flat(chains[|chains| - 1])
  }

  function UserArea(start: nat, end: nat): (s: set<nat>)
    ensures forall b {:trigger b in s} :: b in s <==> start <= b < end
  {
    RunSet(start, if start <= end then end - start else 0)
  }

  /** No anode belongs to two chains. */
  ghost predicate Separate(chains: seq<Chain>) {
    forall f, g, j, k :: 0 <= f < g < |chains| && 0 <= j < |chains[f]| && 0 <= k < |chains[g]| ==>
      chains[f][j].nr != chains[g][k].nr
  }

  ghost predicate ChainOk(t: Table, c: Chain, start: nat, n: nat) {
    OnTable(t, c) && Allocatable(c) && Inside(c, start, n)
  }

  ghost predicate AllOk(t: Table, chains: seq<Chain>, start: nat, n: nat) {
    Separate(chains) && forall f :: 0 <= f < |chains| ==> ChainOk(t, chains[f], start, n)
  }

  ghost predicate HasAnode(c: Chain, nr: nat) {
    exists k :: 0 <= k < |c| && c[k].nr == nr
  }

  /** The anodes of every chain but the f-th. */
  ghost function Foreign(t: Table, chains: seq<Chain>, f: nat): Table {
    map nr | nr in t && exists g :: 0 <= g < |chains| && g != f && HasAnode(chains[g], nr) :: t[nr]
  }

  lemma {:induction false} ForeignOk(t: Table, chains: seq<Chain>, f: nat, start: nat, n: nat)
    requires AllOk(t, chains, start, n) && f < |chains|
    ensures forall nr :: nr in Foreign(t, chains, f) ==> nr in t && t[nr] == Foreign(t, chains, f)[nr] != FREEANODE
    ensures forall k :: 0 <= k < |chains[f]| ==> chains[f][k].nr !in Foreign(t, chains, f)
  {
    forall nr | nr in Foreign(t, chains, f)
      ensures t[nr] != FREEANODE
    {
      var g :| 0 <= g < |chains| && g != f && HasAnode(chains[g], nr);
      var k :| 0 <= k < |chains[g]| && chains[g][k].nr == nr;
      assert ChainOk(t, chains[g], start, n);
    }
    forall k | 0 <= k < |chains[f]|
      ensures chains[f][k].nr !in Foreign(t, chains, f)
    {
      var nr := chains[f][k].nr;
      forall g | 0 <= g < |chains| && g != f ensures !HasAnode(chains[g], nr) {}
    }
  }

  /** Replacing one chain, and touching only its own or unused anodes, keeps the others in order. */
  lemma {:induction false} ReplaceOk(t: Table, chains: seq<Chain>, f: nat, t': Table, c: Chain, start: nat, n: nat)
    requires AllOk(t, chains, start, n) && f < |chains| && ChainOk(t', c, start, n)
    requires forall nr :: nr in Foreign(t, chains, f) ==> nr in t' && t'[nr] == Foreign(t, chains, f)[nr]
    requires forall k :: 0 <= k < |c| ==> c[k].nr !in Foreign(t, chains, f)
    ensures AllOk(t', chains[f := c], start, n)
  {
    forall g, k | 0 <= g < |chains| && g != f && 0 <= k < |chains[g]|
      ensures chains[g][k].nr in Foreign(t, chains, f)
    {
      assert ChainOk(t, chains[g], start, n) && HasAnode(chains[g], chains[g][k].nr);
    }
    forall g | 0 <= g < |chains| && g != f
      ensures ChainOk(t', chains[g], start, n)
    {
      assert ChainOk(t, chains[g], start, n);
    }
  }

  /** No block of these files is free in the bitmap. */
  ghost predicate InUse(chains: seq<Chain>, bits: Bits, start: nat) {
    forall f, b :: 0 <= f < |chains| && b in Flat(chains[f]) ==> !IsFree(bits, start, b)
  }

  lemma {:induction false} OtherAnode(t: Table, c: Chain, nr: nat, start: nat, n: nat)
    requires ChainOk(t, c, start, n) && (nr !in t || t[nr] == FREEANODE)
    ensures ChainOk(t[nr := Anode(0, NOBLOCK, 0)], c, start, n) && forall k :: 0 <= k < |c| ==> c[k].nr != nr
  {
  }

  lemma {:induction false} NewChainOk(t: Table, nr: nat, start: nat, n: nat)
    requires nr in t && t[nr] == Anode(0, NOBLOCK, 0)
    ensures ChainOk(t, [EmptyHead(nr)], start, n) && Flat([EmptyHead(nr)]) == []
  {
    assert [EmptyHead(nr)][..0] == [];
  }

  /** Adding a chain of one unused anode. */
  lemma {:induction false} NewOk(t: Table, chains: seq<Chain>, nr: nat, start: nat, n: nat)
    requires AllOk(t, chains, start, n) && nr != 0 && (nr !in t || t[nr] == FREEANODE)
    ensures var c := [EmptyHead(nr)];
            && AllOk(t[nr := Anode(0, NOBLOCK, 0)], chains + [c], start, n)
            && Flat(c) == [] && AllFlat(chains + [c]) == AllFlat(chains)
  {
    hide Allocatable, Inside, Flat;
    var c, t' := [EmptyHead(nr)], t[nr := Anode(0, NOBLOCK, 0)];
    var d := chains + [c];
    assert d[..|d| - 1] == chains;
    forall f | 0 <= f < |chains|
      ensures ChainOk(t', chains[f], start, n) && forall k :: 0 <= k < |chains[f]| ==> chains[f][k].nr != nr
    {
      OtherAnode(t, chains[f], nr, start, n);
    }
    NewChainOk(t', nr, start, n);
    assert forall f :: 0 <= f < |chains| ==> d[f] == chains[f];
  }

  lemma {:induction false} RemoveOk(t: Table, chains: seq<Chain>, f: nat, start: nat, n: nat)
    requires AllOk(t, chains, start, n) && f < |chains|
    ensures AllOk(t, chains[..f] + chains[f + 1..], start, n)
  {
  }

  lemma {:induction false} AllFlatAt(chains: seq<Chain>, f: nat)
    requires f < |chains|
    ensures multiset(AllFlat(chains)) == multiset(AllFlat(chains[..f] + chains[f + 1..])) + multiset(Flat(chains[f]))
  {
    hide Flat;
    var d, r, last := chains[..|chains| - 1], chains[..f] + chains[f + 1..], chains[|chains| - 1];
    assert AllFlat(chains) == AllFlat(d) + Flat(last);
    if f == |chains| - 1 {
      assert r == d;
    } else {
      AllFlatAt(d, f);
      assert r[..|r| - 1] == d[..f] + d[f + 1..] && r[|r| - 1] == last;
      assert AllFlat(r) == AllFlat(d[..f] + d[f + 1..]) + Flat(last);
    }
  }

  /** The share of one chain in a balanced volume, and back. */
  lemma {:induction false} BalancedShare(bits: Bits, start: nat, end: nat, p: seq<Extent>, clean: int,
                                         all: seq<nat>, one: seq<nat>, others: multiset<nat>, area: multiset<nat>)
    requires multiset(all) == others + multiset(one)
    requires forall b :: b in area ==> area[b] == 1 && start <= b < end
    requires others <= area
    ensures Balanced(bits, start, end, p, clean, all, area) <==> Balanced(bits, start, end, p, clean, one, area - others)
  {
    var l := multiset(FreeRange(bits, start, end)) + multiset(PendingFlat(p));
    if l + multiset(all) == area {
      assert l + multiset(one) == area - others;
    }
    if l + multiset(one) == area - others {
      assert l + multiset(all) == (area - others) + others == area;
    }
  }

  lemma {:induction false} LastBlock(c: Chain)
    requires |c| > 0 && Last(c).size > 0
    ensures Last(c).blocknr + Last(c).size - 1 in Flat(c)
  {
    assert Flat(c)[|Flat(c)| - 1] == Last(c).blocknr + Last(c).size - 1;
  }

  lemma {:induction false} AllOkAt(t: Table, chains: seq<Chain>, f: nat, start: nat, n: nat)
    requires AllOk(t, chains, start, n) && f < |chains|
    ensures ChainOk(t, chains[f], start, n)
  {
  }

  lemma {:induction false} InUserArea(start: nat, end: nat, b: nat)
    requires b in UserArea(start, end)
    ensures start <= b < end
  {
  }

  /** A block of another chain is among what the other chains own. */
  lemma {:induction false} InOthers(chains: seq<Chain>, f: nat, g: nat, b: nat)
    requires f < |chains| && g < |chains| && g != f && b in Flat(chains[g])
    ensures b in multiset(AllFlat(chains[..f] + chains[f + 1..]))
  {
    var r := chains[..f] + chains[f + 1..];
    var h := if g < f then g else g - 1;
    assert r[h] == chains[g];
    AllFlatAt(r, h);
    assert multiset(Flat(r[h]))[b] > 0;
  }

  /** Parts of a set: no element is in two of them, or twice in one. */
  lemma {:induction false} Pieces(rest: multiset<nat>, one: seq<nat>, others: multiset<nat>, area: set<nat>)
    requires others <= multiset(area) && rest + multiset(one) == multiset(area) - others
    ensures NoDup(one) && forall b :: b in one ==> b in area && b !in others
  {
    forall b | b in one
      ensures multiset(one)[b] == 1 && b in area && b !in others
    {
      assert multiset(one)[b] > 0;
      assert (multiset(area) - others)[b] == rest[b] + multiset(one)[b];
    }
  }

  lemma {:induction false} ChainLinked(t: Table, c: Chain)
    requires OnTable(t, c)
    ensures Linked(c) && Prolongs(c, c)
  {
  }

  lemma {:induction false} Emptied(c: Chain, size: nat)
    requires |c| > 0 && size >= BlockCount(c)
    ensures Flat(Trunc(c, size)) == []
  {
    TruncFlat(c, size);
  }

  class Store {
    const vol: Volume
    var chains: seq<Chain>
    // the files as they were committed last by Sync, and what that commit wrote
    ghost var synced: seq<Chain>
    ghost var syncedDisk: Disk

    ghost predicate Valid()
      reads this, vol
    {
      && vol.Valid() && vol.ValidGeometry() && vol.NoReuse()
      && AllOk(vol.anodes, chains, vol.bitmapstart, |vol.bitmap|)
      && vol.BalancedWith(AllFlat(chains), multiset(UserArea(vol.bitmapstart, vol.numblocks)))
      && InUse(synced, syncedDisk.bits, vol.bitmapstart)
    }

    /** What the other chains own. */
    ghost function Others(f: nat): multiset<nat>
      requires f < |chains|
      reads this`chains
    {
      multiset(AllFlat(chains[..f] + chains[f + 1..]))
    }

    constructor (vol: Volume, chains: seq<Chain>)
      requires vol.Valid() && vol.ValidGeometry() && vol.NoReuse()
      requires AllOk(vol.anodes, chains, vol.bitmapstart, |vol.bitmap|)
      requires vol.BalancedWith(AllFlat(chains), multiset(UserArea(vol.bitmapstart, vol.numblocks)))
      ensures Valid() && this.vol == vol && this.chains == chains
    {
      this.vol, this.chains := vol, chains;
      synced, syncedDisk := [], vol.disk;
    }

    /** Splits the ledger into the share of chain f and the rest. */
    lemma {:induction false} Share(f: nat)
      requires Valid() && f < |chains|
      ensures var area := multiset(UserArea(vol.bitmapstart, vol.numblocks));
              && Others(f) <= area
              && vol.BalancedWith(Flat(chains[f]), area - Others(f))
    {
      var area := multiset(UserArea(vol.bitmapstart, vol.numblocks));
      AllFlatAt(chains, f);
      assert Others(f) <= multiset(AllFlat(chains)) <= area;
      BalancedShare(vol.bitmap, vol.bitmapstart, vol.numblocks, vol.tobefreed, vol.cleanBlocksfree,
                    AllFlat(chains), Flat(chains[f]), Others(f), area);
    }

    /** Puts the ledger together again after chain f became c. */
    lemma {:induction false} Merge(f: nat, c: Chain, others: multiset<nat>)
      requires f < |chains| && others == Others(f)
      requires others <= multiset(UserArea(vol.bitmapstart, vol.numblocks))
      requires vol.BalancedWith(Flat(c), multiset(UserArea(vol.bitmapstart, vol.numblocks)) - others)
      ensures vol.BalancedWith(AllFlat(chains[f := c]), multiset(UserArea(vol.bitmapstart, vol.numblocks)))
    {
      hide Flat, AllFlat, Balanced;
      AllFlatAt(chains[f := c], f);
      assert chains[f := c][..f] + chains[f := c][f + 1..] == chains[..f] + chains[f + 1..];
      BalancedShare(vol.bitmap, vol.bitmapstart, vol.numblocks, vol.tobefreed, vol.cleanBlocksfree,
                    AllFlat(chains[f := c]), Flat(c), others, multiset(UserArea(vol.bitmapstart, vol.numblocks)));
    }

    lemma {:induction false} EndInArea(f: nat)
      requires Valid() && f < |chains|
      ensures Last(chains[f]).size > 0 ==> Last(chains[f]).blocknr + Last(chains[f]).size <= vol.numblocks
      ensures vol.AtBitmapEnd(Last(chains[f])) ==> vol.numblocks == vol.bitmapstart + |vol.bitmap|
    {
      hide Flat, AllFlat, Inside, Others, UserArea, Balanced, AllOk;
      AllOkAt(vol.anodes, chains, f, vol.bitmapstart, |vol.bitmap|);
      var n := Last(chains[f]);
      if n.size > 0 {
        LastBlock(chains[f]);
        Share(f);
        InLedger(vol.bitmap, vol.bitmapstart, vol.numblocks, vol.tobefreed, vol.cleanBlocksfree, Flat(chains[f]),
                 multiset(UserArea(vol.bitmapstart, vol.numblocks)) - Others(f), n.blocknr + n.size - 1);
      }
    }

    /** The blocks of a file lie in the user area, are all different, and belong to no other file. */
    lemma {:induction false} BlocksApart(f: nat)
      requires Valid() && f < |chains|
      ensures forall b :: b in Flat(chains[f]) ==> vol.bitmapstart <= b < vol.numblocks
      ensures NoDup(Flat(chains[f]))
      ensures forall g, b :: 0 <= g < |chains| && g != f && b in Flat(chains[g]) ==> b !in Flat(chains[f])
    {
      hide AllOk, Flat, AllFlat, UserArea;
      var area := UserArea(vol.bitmapstart, vol.numblocks);
      Share(f);
      Pieces(LedgerOf(vol.bitmap, vol.bitmapstart, vol.numblocks, vol.tobefreed, []), Flat(chains[f]), Others(f), area);
      forall b | b in Flat(chains[f])
        ensures vol.bitmapstart <= b < vol.numblocks
      {
        assert b in UserArea(vol.bitmapstart, vol.numblocks);
        InUserArea(vol.bitmapstart, vol.numblocks, b);
      }
      forall g, b | 0 <= g < |chains| && g != f && b in Flat(chains[g])
        ensures b !in Flat(chains[f])
      {
        InOthers(chains, f, g, b);
      }
    }

    /** A block handed out since the last Sync, and before any other commit, belongs to no file that
        was committed then, whatever has been freed in the meantime. */
    lemma {:induction false} HandedSince(k: nat, f: nat)
      requires Valid() && k < |vol.handed| && f < |synced|
      requires vol.handed[k].committed == syncedDisk
      ensures vol.handed[k].blocknr !in Flat(synced[f])
    {
      hide Flat, Balanced;
    }

    /** Starts a file: a chain of one new anode without blocks. Fails, with nothing changed, if no anode
        can be had. */
    method NewFile(available: bool) returns (ok: bool, f: nat)
      requires Valid()
      modifies this`chains, vol
      ensures Valid() && ok == available
      ensures !ok ==> chains == old(chains) && vol.anodes == old(vol.anodes)
      ensures ok ==> f == |old(chains)| && |chains| == f + 1 && chains[..f] == old(chains)
      ensures ok ==> Flat(chains[f]) == [] && |chains[f]| == 1
      ensures vol.disk == old(vol.disk) && vol.bitmap == old(vol.bitmap) && vol.tobefreed == old(vol.tobefreed)
    {
      hide Flat, AllFlat, Balanced, UserArea, AllOk, IsFree, PendingSet, Within;
      if !available {
        return false, 0;
      }
      ghost var t := vol.anodes;
      var nr := vol.AllocAnode();
      ok, f := true, |chains|;
      NewOk(t, chains, nr, vol.bitmapstart, |vol.bitmap|);
      chains := chains + [[EmptyHead(nr)]];
    }

    /** Appends n blocks to file f. Faults exactly if the file ends in the last block of the volume and the
        volume fills its bitmap. */
    method Extend(f: nat, n: nat, online: bool) returns (ok: bool, fault: bool)
      requires Valid() && f < |chains|
      modifies this`chains, vol
      ensures Valid()
      ensures |chains| == |old(chains)| && chains == old(chains)[f := chains[f]]
      ensures ok ==> |Flat(chains[f])| == |Flat(old(chains[f]))| + n && Flat(old(chains[f])) <= Flat(chains[f])
      ensures !ok ==> Flat(chains[f]) == Flat(old(chains[f]))
      ensures Prolongs(old(chains[f]), chains[f])
      ensures fault <==> old(vol.allocAvailable) >= n && old(vol.AtBitmapEnd(Last(chains[f])))
      ensures fault ==> !ok && chains == old(chains) && vol.numblocks == vol.bitmapstart + |vol.bitmap|
      ensures old(vol.allocAvailable) >= n && !online && !fault ==> ok
    {
      hide Flat, Balanced, Separate, OnTable, Inside, Allocatable, Foreign, UserArea, AllFlat, Others;
      ghost var others := Others(f);
      ghost var area := multiset(UserArea(vol.bitmapstart, vol.numblocks));
      ghost var base := Origin(chains[f], Flat(chains[f]), Foreign(vol.anodes, chains, f));
      ghost var t := vol.anodes;
      Share(f);
      ForeignOk(t, chains, f, vol.bitmapstart, |vol.bitmap|);
      EndInArea(f);
      ChainLinked(t, chains[f]);
      var chain;
      ghost var takes;
      ok, fault, chain, takes := vol.AllocateBlocksAC(chains[f], n, online, base, area - others);
      ReplaceOk(t, chains, f, vol.anodes, chain, vol.bitmapstart, |vol.bitmap|);
      Merge(f, chain, others);
      chains := chains[f := chain];
    }

    /** Frees the last n blocks of file f. */
    method Shrink(f: nat, n: nat)
      requires Valid() && f < |chains|
      modifies this`chains, vol
      ensures Valid()
      ensures |chains| == |old(chains)| && chains == old(chains)[f := Trunc(old(chains[f]), n)]
    {
      hide Flat, Balanced, Separate, OnTable, Inside, Allocatable, Foreign, UserArea, AllFlat, Others, Trunc, TruncTable,
        TailBlocks, Mark, PendingSet, CompletesTo;
      ghost var others := Others(f);
      ghost var t := vol.anodes;
      Share(f);
      ForeignOk(t, chains, f, vol.bitmapstart, |vol.bitmap|);
      var chain := vol.FreeBlocksAC(chains[f], n, FreeAnodes);
      TruncUntouched(t, chains[f], n, Foreign(t, chains, f));
      TruncAllocatable(chains[f], n, vol.bitmapstart, |vol.bitmap|);
      ReplaceOk(t, chains, f, vol.anodes, chain, vol.bitmapstart, |vol.bitmap|);
      Merge(f, chain, others);
      chains := chains[f := chain];
    }

    /** Frees all blocks of file f but keeps its anodes for the list of deleted files. */
    method Discard(f: nat)
      requires Valid() && f < |chains|
      modifies this`chains, vol
      ensures Valid() && chains == old(chains[..f] + chains[f + 1..])
      ensures vol.anodes == old(vol.anodes)
    {
      hide Flat, Balanced, Separate, OnTable, Inside, Allocatable, UserArea, AllFlat, Trunc, TruncTable,
        TailBlocks, Mark, PendingSet, CompletesTo, AllOk;
      ghost var area := multiset(UserArea(vol.bitmapstart, vol.numblocks));
      ghost var others := Others(f);
      AllOkAt(vol.anodes, chains, f, vol.bitmapstart, |vol.bitmap|);
      Share(f);
      assert others <= area;
      RemoveOk(vol.anodes, chains, f, vol.bitmapstart, |vol.bitmap|);
      var chain := vol.FreeBlocksAC(chains[f], BlockCount(chains[f]), KeepAnodes);
      ghost var r := chains[..f] + chains[f + 1..];
      Emptied(chains[f], BlockCount(chains[f]));
      assert others == others + multiset([]);
      BalancedShare(vol.bitmap, vol.bitmapstart, vol.numblocks, vol.tobefreed, vol.cleanBlocksfree,
                    AllFlat(r), [], others, area);
      chains := chains[..f] + chains[f + 1..];
    }

    /** Commits. */
    method Sync()
      requires Valid()
      modifies this`synced, this`syncedDisk, vol
      ensures Valid() && vol.tobefreed == [] && vol.disk.bits == vol.bitmap
      ensures synced == chains && syncedDisk == vol.disk
    {
      hide Flat, Balanced, Separate, OnTable, Inside, Allocatable, UserArea, AllFlat, Others, Mark, PendingSet, IsFree;
      CommitBalanced(vol.bitmap, vol.bitmapstart, vol.numblocks, vol.tobefreed, vol.cleanBlocksfree, AllFlat(chains),
                     multiset(UserArea(vol.bitmapstart, vol.numblocks)));
      vol.UpdateDisk();
      forall f, b | 0 <= f < |chains| && b in Flat(chains[f])
        ensures !IsFree(vol.disk.bits, vol.bitmapstart, b)
      {
        Share(f);
        InLedger(vol.bitmap, vol.bitmapstart, vol.numblocks, vol.tobefreed, vol.cleanBlocksfree, Flat(chains[f]),
                 multiset(UserArea(vol.bitmapstart, vol.numblocks)) - Others(f), b);
      }
      synced, syncedDisk := chains, vol.disk;
    }
  }

  lemma {:induction false} RunCount(first: nat, n: nat)
    ensures |RunSet(first, n)| == n
  {
    if n > 0 {
      RunCount(first, n - 1);
      assert first + n - 1 !in RunSet(first, n - 1);
    }
  }

  /** A volume of 288 blocks that fills its only bitmap block; its last block is the only one in use. */
  function FullBits(): Bits {
    seq(288, i => i < 287)
  }

  lemma {:induction false} FullBitsFree()
    ensures FreeRange(FullBits(), 2, 290) == RunSet(2, 287)
  {
  }

  lemma {:induction false} FullSize()
    ensures |FullBits()| == 288
  {
  }

  const FULL_CHAIN: Chain := [Node(6, 289, 1, 0)]

  lemma {:induction false} FullFlat()
    ensures Flat(FULL_CHAIN) == [289] && AllFlat([FULL_CHAIN]) == [289]
    ensures AllOk(map[6 := Anode(1, 289, 0)], [FULL_CHAIN], 2, 288)
  {
    assert FULL_CHAIN[..0] == [] && [FULL_CHAIN][..0] == [];
    assert Run(289, 1) == [289];
  }

  lemma {:induction false} FullBalanced()
    ensures Balanced(FullBits(), 2, 290, [], 287, [289], multiset(UserArea(2, 290)))
  {
    hide RunSet, FullBits, FreeRange;
    FullBitsFree();
    RunCount(2, 287);
    var f := FreeRange(FullBits(), 2, 290);
    assert 289 !in f;
    DisjointUnion(f, {289});
    assert UserArea(2, 290) == f + {289};
    PendingFlatEmpty();
    assert multiset({289}) == multiset([289]);
  }

  /** There a file cannot grow, though all the other blocks are free. */
  method LastBlockFaults() returns (ok: bool, fault: bool)
    ensures fault && !ok
  {
    hide FullBits, Flat, AllFlat, AllOk, Balanced, UserArea, IsFree;
    var d := Disk(map[6 := Anode(1, 289, 0)], FullBits(), 287, Nothing);
    var vol := new Volume.Mount(d, Geometry(2, 290, 0, 9, 1));
    FullFlat();
    FullBalanced();
    assert |FullBits()| == 288 by { FullSize(); }
    var store := new Store(vol, [FULL_CHAIN]);
    ok, fault := store.Extend(0, 1, false);
  }
}
