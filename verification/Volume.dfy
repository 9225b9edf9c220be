/** User-block allocation and freeing on a mounted volume (PFS3lib/allocation.cpp), and the
    postponed operations finished at mount (PFS3lib/init.cpp). */
module Volumes {
  import opened Arithmetic
  import opened Extents
  import opened Bitmaps
  import opened Ledger
  import opened Postponement
  import opened ScanOrder

  /** The layout of a volume: first block covered by the bitmap, number of blocks, blocks kept
      free, longwords in a bitmap block, number of bitmap blocks. */
  datatype Geometry = Geometry(bitmapstart: nat, numblocks: nat, alwaysfree: nat, longsperbmb: nat, nobmb: nat)

  datatype HandedOut = HandedOut(blocknr: nat, committed: Disk)

  /** What an allocation starts from: the chain, the blocks it has, and the anodes of other chains. */
  datatype Origin = Origin(start: Chain, flat: seq<nat>, foreign: Table)

  /** How the scan of a longword or a bitmap block ends. */
  datatype Outcome = GoOn | Filled | Aborted

  function Blocknrs(h: seq<HandedOut>): (s: seq<nat>)
    ensures |s| == |h|
  {
    seq(|h|, i requires 0 <= i < |h| => h[i].blocknr)
  }

  /** An anode from the n-th on starts only where the blocks of the file are not consecutive. */
  ghost predicate Broken(c: Chain, n: nat) {
    forall k :: 0 < k < |c| && k >= n ==> c[k].blocknr != c[k - 1].blocknr + c[k - 1].size
  }

  /** The last anode grows, or gets its first block. */
  lemma {:induction false} BrokenMore(t: Table, c: Chain, b: nat, n: nat)
    requires |c| > 0 && Open(t, c)
    ensures var m := Last(c);
            if m.blocknr == NOBLOCK then Broken(c[|c| - 1 := Node(m.nr, b, 1, 0)], n)
            else Broken(c, n) ==> Broken(c[|c| - 1 := m.(size := m.size + 1)], n)
  {
  }

  lemma {:induction false} BrokenNew(c: Chain, b: nat, nr: nat, n: nat)
    requires |c| > 0 && Last(c).blocknr + Last(c).size != b
    ensures Broken(c, n) ==> Broken(c[|c| - 1 := Last(c).(next := nr)] + [Node(nr, b, 1, 0)], n)
  {
    var m := Last(c).(next := nr);
    var g := c[|c| - 1 := m] + [Node(nr, b, 1, 0)];
    if Broken(c, n) {
      forall k | 0 < k < |g| && k >= n
        ensures g[k].blocknr != g[k - 1].blocknr + g[k - 1].size
      {
        if k < |c| { assert c[k].blocknr != c[k - 1].blocknr + c[k - 1].size; }
      }
    }
  }

  class Volume {
    const bitmapstart: nat
    const numblocks: nat
    const alwaysfree: nat
    const longsperbmb: nat
    const nobmb: nat

    // alloc_data
    var bitmap: Bits
    var cleanBlocksfree: int
    var allocAvailable: int
    var tobefreed: seq<Extent>
    // the anode table and the root block extension, as cached
    var anodes: Table
    var tobedone: Postponed
    // where the next search for free blocks starts: a longword and a bit in it
    var rovingPtr: nat
    var rovingBit: nat
    // what the last commit wrote, and every commit so far
    var disk: Disk
    var commits: seq<Disk>
    // every block handed out so far, with the state that was on disk at that moment
    ghost var handed: seq<HandedOut>

    /** Mounts a volume (InitAllocation and the reading of the anode table and root block extension). */
    constructor Mount(d: Disk, geo: Geometry)
      ensures bitmapstart == geo.bitmapstart && numblocks == geo.numblocks && alwaysfree == geo.alwaysfree
      ensures longsperbmb == geo.longsperbmb && nobmb == geo.nobmb
      ensures Valid() && tobefreed == [] && commits == [] && disk == d
      ensures bitmap == d.bits && anodes == d.anodes && tobedone == d.todo && cleanBlocksfree == d.blocksfree
      ensures rovingPtr == 0 && rovingBit == 0 && handed == []
    {
      bitmapstart, numblocks, alwaysfree := geo.bitmapstart, geo.numblocks, geo.alwaysfree;
      longsperbmb, nobmb := geo.longsperbmb, geo.nobmb;
      bitmap, anodes, tobedone := d.bits, d.anodes, d.todo;
      cleanBlocksfree := d.blocksfree;
      allocAvailable := d.blocksfree - geo.alwaysfree;
      tobefreed := [];
      rovingPtr, rovingBit := 0, 0;
      disk, commits, handed := d, [], [];
    }

    ghost predicate Valid()
      reads this`bitmap, this`tobefreed, this`cleanBlocksfree, this`allocAvailable, this`disk
    {
      && |tobefreed| < TBF_CACHE_SIZE
      && PendingInside(tobefreed, bitmapstart, |bitmap|)
      && allocAvailable == cleanBlocksfree + PendingCount(tobefreed) - alwaysfree
      && Within(bitmap, disk.bits)
    }

    /** The bitmap once everything that is to be freed has been freed. */
    ghost function EventualBits(): Bits
      reads this`bitmap, this`tobefreed
    {
      Mark(bitmap, bitmapstart, PendingSet(tobefreed))
    }

    ghost function EventualFree(): int
      reads this`tobefreed, this`cleanBlocksfree
    {
      cleanBlocksfree + PendingCount(tobefreed)
    }

    /** Of the chains, one holds the blocks flat; together with the free and the pending blocks
        these are exactly the blocks of the ledger. */
    ghost predicate BalancedWith(flat: seq<nat>, ledger: multiset<nat>)
      reads this`bitmap, this`tobefreed, this`cleanBlocksfree
    {
      Balanced(bitmap, bitmapstart, numblocks, tobefreed, cleanBlocksfree, flat, ledger)
    }

    /** What a commit would write now. */
    ghost function Snapshot(): Disk
      reads this`bitmap, this`tobefreed, this`cleanBlocksfree, this`anodes, this`tobedone
    {
      Disk(anodes, EventualBits(), EventualFree(), tobedone)
    }

    method UpdateFreeList()
      requires PendingInside(tobefreed, bitmapstart, |bitmap|)
      modifies this`bitmap, this`cleanBlocksfree, this`tobefreed
      ensures bitmap == old(EventualBits()) && cleanBlocksfree == old(EventualFree())
      ensures tobefreed == []
    {
      ghost var before := bitmap;
      MarkNone(bitmap, bitmapstart);
      var i := 0;
      while i < |tobefreed|
        invariant 0 <= i <= |tobefreed| && tobefreed == old(tobefreed)
        invariant bitmap == Mark(before, bitmapstart, PendingSet(tobefreed[..i]))
        invariant cleanBlocksfree == old(cleanBlocksfree) + PendingCount(tobefreed[..i])
      {
        var run := tobefreed[i];
        FreeRun(run, before, PendingSet(tobefreed[..i]));
        cleanBlocksfree := cleanBlocksfree + run.size;
        assert tobefreed[..i + 1] == tobefreed[..i] + [run];
        PendingSnoc(tobefreed[..i], run);
        i := i + 1;
      }
      assert tobefreed[..i] == tobefreed;
      tobefreed := [];
    }

    method FreeRun(run: Extent, ghost before: Bits, ghost s: set<nat>)
      requires bitmapstart <= run.blocknr && run.blocknr + run.size <= bitmapstart + |bitmap|
      requires bitmap == Mark(before, bitmapstart, s)
      modifies this`bitmap
      ensures bitmap == Mark(before, bitmapstart, s + RunSet(run.blocknr, run.size))
    {
      var blocknr := run.blocknr;
      assert s + RunSet(run.blocknr, 0) == s;
      while blocknr < run.blocknr + run.size
        invariant run.blocknr <= blocknr <= run.blocknr + run.size
        invariant bitmap == Mark(before, bitmapstart, s + RunSet(run.blocknr, blocknr - run.blocknr))
      {
        var done := blocknr - run.blocknr;
        MarkOne(before, bitmapstart, s + RunSet(run.blocknr, done), blocknr);
        assert s + RunSet(run.blocknr, done + 1) == s + RunSet(run.blocknr, done) + {blocknr};
        bitmap := bitmap[blocknr - bitmapstart := true];
        blocknr := blocknr + 1;
      }
    }

    /** Commits the cached state. */
    method UpdateDisk()
      requires PendingInside(tobefreed, bitmapstart, |bitmap|)
      modifies this`bitmap, this`cleanBlocksfree, this`tobefreed, this`disk, this`commits
      ensures disk == old(Snapshot())
      ensures commits == old(commits) + [disk]
      ensures bitmap == disk.bits && cleanBlocksfree == disk.blocksfree && tobefreed == []
    {
      UpdateFreeList();
      disk := Disk(anodes, bitmap, cleanBlocksfree, tobedone);
      commits := commits + [disk];
    }

    /** Whether reserved blocks run low; nothing is assumed about the answer. */
    method IsUpdateNeeded() returns (needed: bool) {
      needed := *;
    }

    /** Adds a run to the tobefreed list. */
    method AddToBeFreed(blocknr: nat, freeing: nat)
      requires |tobefreed| < TBF_CACHE_SIZE
      requires PendingInside(tobefreed, bitmapstart, |bitmap|)
      requires bitmapstart <= blocknr && blocknr + freeing <= bitmapstart + |bitmap|
      modifies this`tobefreed, this`allocAvailable
      ensures tobefreed == old(tobefreed) + [Extent(blocknr, freeing)]
      ensures PendingInside(tobefreed, bitmapstart, |bitmap|)
      ensures PendingSet(tobefreed) == old(PendingSet(tobefreed)) + RunSet(blocknr, freeing)
      ensures PendingCount(tobefreed) == old(PendingCount(tobefreed)) + freeing
      ensures allocAvailable == old(allocAvailable) + freeing
    {
      PendingSnoc(tobefreed, Extent(blocknr, freeing));
      tobefreed := tobefreed + [Extent(blocknr, freeing)];
      allocAvailable := allocAvailable + freeing;
    }

    /** Saves the last anode of what remains, with its link cut; an emptied head is reset. */
    method RestoreAnodeChain(live: Chain, empty: bool) returns (chain: Chain)
      requires if empty then |live| == 1 else OnTableButTail(anodes, live)
      modifies this`anodes
      ensures empty ==> chain == [EmptyHead(live[0].nr)]
      ensures empty ==> anodes == old(anodes)[live[0].nr := Stored(EmptyHead(live[0].nr))]
      ensures !empty ==> chain == Trunc(live, 0)
      ensures !empty ==> anodes == old(TruncTable(anodes, live, 0))
      ensures OnTable(anodes, chain)
    {
      if empty {
        chain := [EmptyHead(live[0].nr)];
        anodes := anodes[live[0].nr := Stored(EmptyHead(live[0].nr))];
      } else {
        TruncOnTable(anodes, live, 0);
        var n := Last(live);
        chain := live[|live| - 1 := n.(next := 0)];
        anodes := anodes[n.nr := Anode(n.size, n.blocknr, 0)];
      }
    }

    /** Takes the last anode, or its last `size` blocks, off the chain. */
    method DropFromLast(live: Chain, size: nat, freetype: FreeType, ghost fin: Disk, ghost finChain: Chain)
      returns (rest: Chain, freeing: nat, empty: bool)
      requires size > 0 && ChainToGo(anodes, live, size, false, freetype, fin, finChain)
      modifies this`anodes
      ensures freetype == KeepAnodes ==> anodes == old(anodes)
      ensures freeing <= size && ChainToGo(anodes, rest, size - freeing, empty, freetype, fin, finChain)
      ensures freeing == if Last(live).size <= size then Last(live).size else size
      ensures empty <==> Last(live).size <= size && |live| == 1
      ensures rest == if empty then [Last(live).(size := 0)]
                      else if Last(live).size <= size then live[..|live| - 1]
                      else Trunc(live, size)
    {
      hide Trunc, TruncTable;
      var n := Last(live);
      empty := |live| == 1 && n.size <= size;
      TruncOnce(anodes, live, size);
      if n.size > size {
        freeing := size;
        rest := live[|live| - 1 := n.(size := n.size - size, next := 0)];
        TruncTwice(live, size, 0);
        if freetype == FreeAnodes {
          TruncOnTable(anodes, live, size);
          TruncTableTwice(anodes, live, size, 0);
          anodes := anodes[n.nr := Anode(n.size - size, n.blocknr, 0)];
        }
      } else {
        freeing := n.size;
        rest := if empty then [n.(size := 0)] else live[..|live| - 1];
        if !empty && freetype == FreeAnodes {
          DropOnTable(anodes, live);
          anodes := anodes[n.nr := Cleared(n.nr)];
        }
      }
    }

    /** Queues the run just taken off the chain. */
    method QueueRun(live: Chain, size: nat, rest: Chain, left: nat, ghost fin: Disk)
      requires size > 0 && |live| > 0 && |tobefreed| < TBF_CACHE_SIZE
      requires BlocksToGo(bitmap, bitmapstart, tobefreed, EventualFree(), live, size, fin)
      requires TookLast(live, size, rest, left)
      modifies this`tobefreed, this`allocAvailable
      ensures BlocksToGo(bitmap, bitmapstart, tobefreed, EventualFree(), rest, left, fin)
      ensures old(PendingSet(tobefreed)) <= PendingSet(tobefreed) && |tobefreed| <= TBF_CACHE_SIZE
      ensures tobefreed == Queued(old(tobefreed), live, size - left)
      ensures allocAvailable - PendingCount(tobefreed) == old(allocAvailable - PendingCount(tobefreed))
    {
      hide Trunc, TailBlocks, TruncTable, TailCount, PendingSet, PendingCount, RunSet, Mark;
      var n := Last(live);
      var freeing := size - left;
      StepBlocks(live, size, rest, left);
      StepInside(live, size, rest, left, bitmapstart, |bitmap|);
      ghost var p := PendingSet(tobefreed);
      ghost var f := RunSet(n.blocknr + n.size - freeing, freeing);
      if freeing > 0 {
        AddToBeFreed(n.blocknr + n.size - freeing, freeing);
      }
      assert p + f + TailBlocks(rest, left) == p + TailBlocks(live, size);
    }

    /** One round of the reverse-order free loop. */
    method FreeFromLast(live: Chain, size: nat, freetype: FreeType, ghost fin: Disk, ghost finChain: Chain)
      returns (rest: Chain, left: nat, empty: bool)
      requires size > 0 && |tobefreed| < TBF_CACHE_SIZE
      requires ChainToGo(anodes, live, size, false, freetype, fin, finChain) && BlocksToGo(bitmap, bitmapstart, tobefreed, EventualFree(), live, size, fin)
      modifies this`tobefreed, this`allocAvailable, this`anodes
      ensures ChainToGo(anodes, rest, left, empty, freetype, fin, finChain) && BlocksToGo(bitmap, bitmapstart, tobefreed, EventualFree(), rest, left, fin)
      ensures left <= size && TookLast(live, size, rest, left)
      ensures freetype == KeepAnodes ==> anodes == old(anodes)
      ensures |rest| <= |live| && (|rest| < |live| || empty || left == 0)
      ensures old(PendingSet(tobefreed)) <= PendingSet(tobefreed) && |tobefreed| <= TBF_CACHE_SIZE
      ensures tobefreed == Queued(old(tobefreed), live, size - left)
      ensures allocAvailable - PendingCount(tobefreed) == old(allocAvailable - PendingCount(tobefreed))
    {
      hide Trunc, TailBlocks, TruncTable, TailCount, PendingSet, PendingCount, RunSet, Mark;
      var freeing;
      rest, freeing, empty := DropFromLast(live, size, freetype, fin, finChain);
      left := size - freeing;
      QueueRun(live, size, rest, left, fin);
    }

    /** The intermediate commit of the free loop: makes the chain consistent, or records how much
        is done, and commits. Whatever is committed completes to fin. */
    method IntermediateUpdate(live: Chain, size: nat, empty: bool, done: nat, achain: Chain, size0: nat,
                              freetype: FreeType, ghost fin: Disk, ghost finChain: Chain)
      returns (rest: Chain)
      requires ChainToGo(anodes, live, size, empty, freetype, fin, finChain)
      requires BlocksToGo(bitmap, bitmapstart, tobefreed, EventualFree(), live, size, fin)
      requires |achain| > 0 && live[0].nr == achain[0].nr && fin.todo == Nothing
      requires freetype == KeepAnodes ==> OnTable(anodes, achain) && Inside(achain, bitmapstart, |bitmap|)
      requires Repeatable(bitmap, bitmapstart, tobefreed, achain, size0, done + TailCount(live, size), fin)
      modifies this`bitmap, this`cleanBlocksfree, this`tobefreed, this`anodes, this`tobedone, this`disk, this`commits
      ensures ChainToGo(anodes, rest, size, empty, freetype, fin, finChain)
      ensures BlocksToGo(bitmap, bitmapstart, tobefreed, EventualFree(), rest, size, fin)
      ensures TailCount(rest, size) == TailCount(live, size) && |rest| == |live| && rest[0].nr == live[0].nr
      ensures Repeatable(bitmap, bitmapstart, tobefreed, achain, size0, done + TailCount(rest, size), fin)
      ensures tobefreed == [] && |bitmap| == old(|bitmap|)
      ensures bitmap == disk.bits == old(EventualBits()) && cleanBlocksfree == old(EventualFree())
      ensures Flat(rest) == Flat(live)
      ensures freetype == KeepAnodes ==> anodes == old(anodes)
      ensures EventualFree() == old(EventualFree())
      ensures commits == old(commits) + [disk] && CompletesTo(disk, bitmapstart, fin)
    {
      hide Trunc, TruncTable, TailBlocks, TailCount, Complete, Names, Repeatable, Mark, PendingSet, Flat;
      rest := live;
      if freetype == FreeAnodes {
        RestorePre(anodes, live, size, empty, fin, finChain);
        ghost var t := anodes;
        rest := RestoreAnodeChain(live, empty);
        RestoredToGo(t, live, size, empty, fin, finChain, anodes, rest);
        RestoredBlocks(bitmap, bitmapstart, tobefreed, EventualFree(), live, size, fin, rest, empty);
        tobedone := FreeBlocksFree(achain[0].nr, size);
      } else {
        tobedone := FreeBlocksKeep(achain[0].nr, size0, done);
      }
      CommittedBlocks(bitmap, bitmapstart, tobefreed, EventualFree(), rest, size, fin, achain, size0, done);
      UpdateDisk();
      if freetype == FreeAnodes {
        CommitFreeCompletes(disk, bitmapstart, rest, size, empty, fin, finChain);
      } else {
        CommitKeepCompletes(disk, bitmapstart, rest, size, achain, size0, done, fin, finChain, empty);
      }
    }

    /** The invariant of the free loop. */
    ghost predicate FreeLoop(live: Chain, size: nat, empty: bool, done: nat, achain: Chain, size0: nat,
                             freetype: FreeType, fin: Disk, finChain: Chain, whole: bool, ledger: multiset<nat>)
      reads this
    {
      && Valid() && fin.todo == Nothing && |bitmap| == |fin.bits|
      && ChainToGo(anodes, live, size, empty, freetype, fin, finChain)
      && BlocksToGo(bitmap, bitmapstart, tobefreed, EventualFree(), live, size, fin)
      && Repeatable(bitmap, bitmapstart, tobefreed, achain, size0, done + TailCount(live, size), fin)
      && |live| > 0 && |achain| > 0 && live[0].nr == achain[0].nr
      && (freetype == KeepAnodes ==> OnTable(anodes, achain) && Inside(achain, bitmapstart, |bitmap|))
      && (whole ==> BalancedWith(Flat(live), ledger))
    }

    /** One round of the free loop, with its intermediate commit if one is due. */
    method FreeRound(live: Chain, size: nat, done: nat, achain: Chain, size0: nat, freetype: FreeType,
                     ghost fin: Disk, ghost finChain: Chain, ghost whole: bool, ghost ledger: multiset<nat>)
      returns (rest: Chain, left: nat, empty: bool, done': nat)
      requires size > 0 && FreeLoop(live, size, false, done, achain, size0, freetype, fin, finChain, whole, ledger)
      modifies this`bitmap, this`cleanBlocksfree, this`allocAvailable, this`tobefreed, this`anodes,
               this`tobedone, this`disk, this`commits
      ensures FreeLoop(rest, left, empty, done', achain, size0, freetype, fin, finChain, whole, ledger)
      ensures left <= size && |rest| <= |live| && (|rest| < |live| || empty || left < size)
      ensures old(commits) <= commits
      ensures forall k :: |old(commits)| <= k < |commits| ==> CompletesTo(commits[k], bitmapstart, fin)
    {
      hide Trunc, TruncTable, TailBlocks, TailCount, Complete, Mark, PendingSet, Names, CompletesTo,
        Repeatable, Flat, ChainToGo, Balanced, LedgerOf, Queued, Inside, OnTable;
      ghost var p := tobefreed;
      rest, left, empty := FreeFromLast(live, size, freetype, fin, finChain);
      StepBlocks(live, size, rest, left);
      StepInside(live, size, rest, left, bitmapstart, |bitmap|);
      RoundRepeatable(bitmap, bitmapstart, p, tobefreed, EventualFree(), rest, left, achain, size0,
                      done + TailCount(live, size), fin);
      if whole { RoundBalanced(bitmap, bitmapstart, numblocks, p, cleanBlocksfree, live, size, rest, left, ledger); }
      done' := done + (size - left);
      var needed := IsUpdateNeeded();
      if |tobefreed| >= TBF_CACHE_SIZE || needed {
        if whole { CommitBalanced(bitmap, bitmapstart, numblocks, tobefreed, cleanBlocksfree, Flat(rest), ledger); }
        rest := IntermediateUpdate(rest, left, empty, done', achain, size0, freetype, fin, finChain);
      }
    }

    /** Records the operation; commits first if the tobefreed list might not hold the chain. */
    method StartFreeing(achain: Chain, size0: nat, freetype: FreeType, ghost ledger: multiset<nat>)
      requires Valid()
      requires OnTable(anodes, achain) && Inside(achain, bitmapstart, |bitmap|)
      modifies this`bitmap, this`cleanBlocksfree, this`tobefreed, this`tobedone, this`disk, this`commits
      ensures var fin := Complete(old(Snapshot().(todo := Record(achain, size0, freetype))), achain, bitmapstart);
              && FreeLoop(achain, size0, false, 0, achain, size0, freetype, fin, Trunc(achain, size0),
                          old(BalancedWith(Flat(achain), ledger)), ledger)
              && |fin.bits| == old(|bitmap|)
              && forall k :: |old(commits)| <= k < |commits| ==> CompletesTo(commits[k], bitmapstart, fin)
      ensures old(commits) <= commits
    {
      hide Trunc, TruncTable, TailBlocks, TailCount, Complete, Mark, PendingSet, Names, CompletesTo,
        Repeatable, Flat, ChainToGo, Balanced, LedgerOf;
      ghost var whole := BalancedWith(Flat(achain), ledger);
      tobedone := Record(achain, size0, freetype);
      ghost var fin := Complete(Snapshot(), achain, bitmapstart);
      StartFree(Snapshot(), bitmap, bitmapstart, tobefreed, EventualFree(), achain, size0, freetype, fin);
      if |tobefreed| > 0 && |achain| - 1 + |tobefreed| >= TBF_CACHE_SIZE - 1 {
        CommittedBlocks(bitmap, bitmapstart, tobefreed, EventualFree(), achain, size0, fin, achain, size0, 0);
        if whole { CommitBalanced(bitmap, bitmapstart, numblocks, tobefreed, cleanBlocksfree, Flat(achain), ledger); }
        UpdateDisk();
      }
    }

    /** Frees `size0` blocks from the end of a chain (all of them if there are fewer). The
        blocks go to the tobefreed list; when that list is full, or reserved blocks run
        low, the loop commits what it has done so far together with what is left to do. */
    method FreeBlocksAC(achain: Chain, size0: nat, freetype: FreeType) returns (live: Chain)
      requires Valid()
      requires OnTable(anodes, achain) && Inside(achain, bitmapstart, |bitmap|)
      modifies this`bitmap, this`cleanBlocksfree, this`allocAvailable, this`tobefreed, this`anodes,
               this`tobedone, this`disk, this`commits
      ensures Valid() && tobedone == Nothing && |bitmap| == old(|bitmap|)
      ensures Snapshot() == Complete(old(Snapshot().(todo := Record(achain, size0, freetype))), achain, bitmapstart)
      ensures freetype == FreeAnodes ==> live == Trunc(achain, size0) && OnTable(anodes, live)
      ensures |live| > 0 && Flat(live) == Flat(Trunc(achain, size0))
      ensures forall ledger :: old(BalancedWith(Flat(achain), ledger)) ==> BalancedWith(Flat(live), ledger)
      ensures old(commits) <= commits
      ensures forall k :: |old(commits)| <= k < |commits| ==> CompletesTo(commits[k], bitmapstart, Snapshot())
      ensures Freed(old(Snapshot()), Snapshot(), bitmapstart, achain, live, size0, freetype)
    {
      hide Trunc, TruncTable, TailBlocks, TailCount, Complete, Mark, PendingSet, Names, CompletesTo,
        Repeatable, Flat, ChainToGo, Balanced, LedgerOf, BlocksToGo, Inside, Freed;
      ghost var fin := Complete(Snapshot().(todo := Record(achain, size0, freetype)), achain, bitmapstart);
      ghost var finChain := Trunc(achain, size0);
      ghost var ledger := LedgerOf(bitmap, bitmapstart, numblocks, tobefreed, Flat(achain));
      ghost var whole := BalancedWith(Flat(achain), ledger);
      LedgerUnique(bitmap, bitmapstart, numblocks, tobefreed, cleanBlocksfree, Flat(achain));
      StartFreeing(achain, size0, freetype, ledger);
      live := achain;
      var size, empty, done: nat := size0, false, 0;
      while size > 0 && !empty
        invariant FreeLoop(live, size, empty, done, achain, size0, freetype, fin, finChain, whole, ledger)
        invariant old(commits) <= commits
        invariant forall k :: |old(commits)| <= k < |commits| ==> CompletesTo(commits[k], bitmapstart, fin)
        decreases if empty then 0 else |live|, size
      {
        live, size, empty, done := FreeRound(live, size, done, achain, size0, freetype, fin, finChain, whole, ledger);
      }
      EndFree(anodes, bitmap, bitmapstart, tobefreed, EventualFree(), live, size, empty, freetype, fin, finChain);
      if freetype == FreeAnodes {
        live := RestoreAnodeChain(live, empty);
      }
      tobedone := Nothing;
      CompleteFrees(old(Snapshot()), bitmapstart, achain, live, size0, freetype);
    }

    // ---------------------------------------------------------------------
    // Allocation

    ghost predicate ValidGeometry()
      reads this`bitmap, this`rovingPtr, this`rovingBit
    {
      && |bitmap| == nobmb * longsperbmb * 32
      && longsperbmb > 8 && bitmapstart > 0
      && bitmapstart <= numblocks <= bitmapstart + |bitmap| && numblocks <= NOBLOCK
      && rovingPtr < nobmb * longsperbmb && rovingBit < 32
    }

    /** Every block handed out so far was free in the committed state of that moment. */
    ghost predicate NoReuse()
      reads this`handed
    {
      forall k :: 0 <= k < |handed| ==> IsFree(handed[k].committed.bits, bitmapstart, handed[k].blocknr)
    }

    /** A chain under construction: saved except for its last anode. It holds the blocks it had,
        `base`, followed by the last `done` blocks handed out. */
    ghost predicate Growing(chain: Chain, done: nat, base: Origin, ledger: multiset<nat>)
      reads this
    {
      && |chain| > 0 && NoReuse()
      && Valid() && ValidGeometry()
      && Open(anodes, chain) && Allocatable(chain)
      && Inside(chain, bitmapstart, |bitmap|)
      && BalancedWith(Flat(chain), ledger)
      && done <= |handed|
      && Flat(chain) == base.flat + Blocknrs(handed[|handed| - done..])
      && Untouched(chain, base) && Broken(chain, |base.start|)
    }

    /** The anodes of other chains are as they were, and those the chain had are still there. */
    ghost predicate Untouched(chain: Chain, base: Origin)
      reads this`anodes
    {
      && Prolongs(base.start, chain) && Linked(base.start)
      && base.flat == Flat(base.start)
      && (forall nr :: nr in base.foreign ==> nr in anodes && anodes[nr] == base.foreign[nr] != FREEANODE)
      && forall k :: 0 <= k < |chain| ==> chain[k].nr !in base.foreign
    }

    /** Picks a free anode and marks it as used. */
    method AllocAnode() returns (nr: nat)
      modifies this`anodes
      ensures Unused(old(anodes), nr)
      ensures anodes == old(anodes)[nr := Anode(0, NOBLOCK, 0)]
    {
      FreeAnodeExists(anodes);
      nr :| Unused(anodes, nr);
      anodes := anodes[nr := Anode(0, NOBLOCK, 0)];
    }

    method SaveAnode(n: Node)
      modifies this`anodes
      ensures anodes == old(anodes)[n.nr := Stored(n)]
    {
      anodes := anodes[n.nr := Stored(n)];
    }

    /** Takes a free block and appends it to the chain. */
    method TakeBlock(chain: Chain, blocknr: nat, ghost done: nat, ghost base: Origin, ghost ledger: multiset<nat>)
      returns (grown: Chain)
      requires Growing(chain, done, base, ledger)
      requires blocknr < numblocks && IsFree(bitmap, bitmapstart, blocknr)
      modifies this`bitmap, this`anodes, this`cleanBlocksfree, this`allocAvailable, this`handed
      ensures Growing(grown, done + 1, base, ledger)
      ensures Flat(grown) == Flat(chain) + [blocknr] && |grown| > 0 && grown[0].nr == chain[0].nr
      ensures Last(grown).size > 0 && ValidGeometry()
      ensures bitmap == old(bitmap)[blocknr - bitmapstart := false]
      ensures cleanBlocksfree == old(cleanBlocksfree) - 1
      ensures handed == old(handed) + [HandedOut(blocknr, disk)] && IsFree(disk.bits, bitmapstart, blocknr)
    {
      hide Balanced, Flat, PendingCount, Linked, Open, Untouched, Allocatable;
      grown := ConnectBlock(chain, blocknr, base);
      TakeBalanced(bitmap, bitmapstart, numblocks, tobefreed, cleanBlocksfree, Flat(chain), blocknr, ledger);
      bitmap := bitmap[blocknr - bitmapstart := false];
      cleanBlocksfree := cleanBlocksfree - 1;
      allocAvailable := allocAvailable - 1;
      ghost var given := handed[|handed| - done..];
      handed := handed + [HandedOut(blocknr, disk)];
      assert handed[|handed| - (done + 1)..] == given + [HandedOut(blocknr, disk)];
      assert Blocknrs(given + [HandedOut(blocknr, disk)]) == Blocknrs(given) + [blocknr];
      assert base.flat + Blocknrs(given) + [blocknr] == base.flat + (Blocknrs(given) + [blocknr]);
    }

    /** Extends the last anode by blocknr if that is the next block, else starts a new anode. */
    method ConnectBlock(chain: Chain, blocknr: nat, ghost base: Origin) returns (grown: Chain)
      requires Untouched(chain, base)
      requires |chain| > 0 && Open(anodes, chain) && Allocatable(chain) && Inside(chain, bitmapstart, |bitmap|)
      requires 0 < bitmapstart <= blocknr < bitmapstart + |bitmap| && blocknr < NOBLOCK
      modifies this`anodes
      ensures Open(anodes, grown) && |grown| > 0 && grown[0].nr == chain[0].nr && Last(grown).size > 0
      ensures Flat(grown) == Flat(chain) + [blocknr]
      ensures |grown| == if Last(chain).blocknr == NOBLOCK || Last(chain).blocknr + Last(chain).size == blocknr then |chain| else |chain| + 1
      ensures Broken(chain, |base.start|) ==> Broken(grown, |base.start|)
      ensures Inside(grown, bitmapstart, |bitmap|) && Untouched(grown, base) && Allocatable(grown)
    {
      hide Flat, Open, Inside, Allocatable, Linked, Broken;
      BrokenMore(anodes, chain, blocknr, |base.start|);
      var n := Last(chain);
      GrowLast(chain, blocknr);
      GrownLast(anodes, chain, blocknr, bitmapstart, |bitmap|);
      if n.blocknr == NOBLOCK {
        grown := chain[|chain| - 1 := Node(n.nr, blocknr, 1, 0)];
      } else if n.blocknr + n.size != blocknr {
        ghost var t := anodes;
        var anodenr := AllocAnode();
        SaveAnode(n.(next := anodenr));
        GrowNew(chain, blocknr, anodenr);
        GrownNew(t, chain, blocknr, anodenr, bitmapstart, |bitmap|);
        BrokenNew(chain, blocknr, anodenr, |base.start|);
        grown := chain[|chain| - 1 := n.(next := anodenr)] + [Node(anodenr, blocknr, 1, 0)];
      } else {
        grown := chain[|chain| - 1 := n.(size := n.size + 1)];
      }
      assert forall k :: 0 <= k < |chain| ==> grown[k].nr == chain[k].nr;
    }

    /** Makes the state of a chain under construction valid and commits it. */
    method Checkpoint(chain: Chain, ghost done: nat, ghost base: Origin, ghost ledger: multiset<nat>)
      requires Growing(chain, done, base, ledger) && Last(chain).size > 0
      modifies this`bitmap, this`cleanBlocksfree, this`tobefreed, this`anodes, this`disk, this`commits
      ensures Growing(chain, done, base, ledger) && OnTable(anodes, chain)
      ensures cleanBlocksfree >= old(cleanBlocksfree) && Within(old(bitmap), bitmap)
    {
      hide Flat, Balanced, Inside, Blocknrs, OnTable, Open, IsFree, PendingSet, Linked, Allocatable;
      CloseChain(anodes, chain);
      SaveAnode(Last(chain));
      CommitBalanced(bitmap, bitmapstart, numblocks, tobefreed, cleanBlocksfree, Flat(chain), ledger);
      UpdateDisk();
    }

    /** Online update: if reserved blocks run low, commits; if they are still low then, gives back
        the `done` blocks taken so far. */
    method OnlineUpdate(chain: Chain, done: nat, ghost base: Origin, ghost ledger: multiset<nat>)
      returns (abort: bool, rest: Chain)
      requires Growing(chain, done, base, ledger) && Last(chain).size > 0
      modifies this`bitmap, this`cleanBlocksfree, this`allocAvailable, this`tobefreed, this`anodes,
               this`tobedone, this`disk, this`commits
      ensures ValidGeometry()
      ensures !abort ==> rest == chain && Growing(chain, done, base, ledger)
      ensures !abort ==> cleanBlocksfree >= old(cleanBlocksfree) && Within(old(bitmap), bitmap)
      ensures abort ==> Released(rest, base, ledger)
    {
      hide Flat, Balanced, Inside, OnTable, IsFree, Untouched;
      abort, rest := false, chain;
      var needed := IsUpdateNeeded();
      if needed {
        Checkpoint(chain, done, base, ledger);
        abort := *;
        if abort {
          rest := GiveBack(chain, done, base, ledger);
        }
      }
    }

    /** Frees the `done` blocks taken so far. */
    method GiveBack(chain: Chain, done: nat, ghost base: Origin, ghost ledger: multiset<nat>) returns (rest: Chain)
      requires Growing(chain, done, base, ledger) && OnTable(anodes, chain)
      modifies this`bitmap, this`cleanBlocksfree, this`allocAvailable, this`tobefreed, this`anodes,
               this`tobedone, this`disk, this`commits
      ensures Released(rest, base, ledger)
    {
      hide Flat, Balanced, Inside, OnTable, IsFree, Trunc, TruncTable, TailBlocks, Mark, PendingSet, CompletesTo, Allocatable, Freed, FreedFrom, Unused;
      TruncFlat(chain, done);
      assert Flat(chain)[..|Flat(chain)| - done] == base.flat;
      assert TailCount(chain, done) == done;
      ghost var t := anodes;
      rest := FreeBlocksAC(chain, done, FreeAnodes);
      TruncUntouched(t, chain, done, base.foreign);
      assert BlockCount(chain) == |Flat(chain)| && BlockCount(base.start) == |base.flat|;
      ProlongsTrunc(base.start, chain, done);
      TruncAllocatable(chain, done, bitmapstart, |bitmap|);
    }

    /** An allocation that was undone: the chain holds the blocks it had, nothing is lost. */
    ghost predicate Released(chain: Chain, base: Origin, ledger: multiset<nat>)
      reads this
    {
      && Valid() && ValidGeometry()
      && OnTable(anodes, chain) && Allocatable(chain) && Inside(chain, bitmapstart, |bitmap|)
      && Flat(chain) == base.flat
      && BalancedWith(base.flat, ledger)
      && Untouched(chain, base)
      && NoReuse()
    }

    /** The bit of position i in longword bmoffset of bitmap block bmseqnr. */
    function Bit(bmseqnr: nat, bmoffset: nat, i: nat): nat {
      (bmseqnr * longsperbmb + bmoffset) * 32 + i
    }

    lemma {:induction false} BitInRange(bmseqnr: nat, bmoffset: nat)
      requires bmseqnr < nobmb && bmoffset < longsperbmb
      ensures Bit(bmseqnr, bmoffset, 32) == Bit(bmseqnr, bmoffset + 1, 0) <= Bit(bmseqnr, longsperbmb, 0)
      ensures Bit(bmseqnr, longsperbmb, 0) == Bit(bmseqnr + 1, 0, 0) <= nobmb * longsperbmb * 32
    {
      assert bmseqnr * longsperbmb + longsperbmb == (bmseqnr + 1) * longsperbmb;
      assert (bmseqnr + 1) * longsperbmb <= nobmb * longsperbmb;
    }

    /** The last blocks handed out are those at these bits of the bitmap. */
    ghost predicate Tracks(takes: seq<nat>)
      reads this`handed
    {
      |takes| <= |handed| && forall k :: 0 <= k < |takes| ==> handed[|handed| - |takes| + k].blocknr == bitmapstart + takes[k]
    }

    /** The bits of blocks that exist. */
    ghost function Limit(): nat {
      if numblocks < bitmapstart then 0 else numblocks - bitmapstart
    }

    /** The scan is at bit cur, with these blocks taken since it started at bit `start` of bits0. */
    ghost predicate At(cur: nat, takes: seq<nat>, bits0: Bits, start: nat, online: bool)
      reads this`bitmap, this`handed
    {
      Tracks(takes) && Scanning(bitmap, bits0, takes, start, Limit(), online, cur)
    }

    lemma {:induction false} NothingTaken(start: nat, online: bool)
      ensures At(start, [], bitmap, start, online)
    {
      ScanStart(bitmap, start, Limit(), online);
    }

    /** Takes the free block at bit pos; an online update may follow. */
    method TakeNext(chain0: Chain, pos: nat, online: bool, ghost takes0: seq<nat>, ghost bits0: Bits, ghost start: nat,
                    done0: nat, ghost base: Origin, ghost ledger: multiset<nat>)
      returns (abort: bool, chain: Chain, ghost takes: seq<nat>)
      requires Growing(chain0, done0, base, ledger) && ValidGeometry()
      requires pos < |bitmap| && bitmap[pos] && bitmapstart + pos < numblocks
      requires At(pos, takes0, bits0, start, online)
      modifies this`bitmap, this`cleanBlocksfree, this`allocAvailable, this`tobefreed, this`anodes,
               this`tobedone, this`disk, this`commits, this`handed
      ensures ValidGeometry() && takes == takes0 + [pos]
      ensures abort ==> online && Released(chain, base, ledger)
      ensures !abort ==> Growing(chain, done0 + 1, base, ledger) && cleanBlocksfree >= old(cleanBlocksfree) - 1
      ensures !abort ==> |chain| > 0 && Last(chain).size > 0 && At(pos + 1, takes, bits0, start, online)
      ensures !abort ==> Within(old(bitmap)[pos := false], bitmap) && (!online ==> bitmap == old(bitmap)[pos := false])
    {
      hide Growing, Released, Scanning;
      ghost var before := handed;
      chain := TakeBlock(chain0, bitmapstart + pos, done0, base, ledger);
      takes := takes0 + [pos];
      TracksMore(before, takes0, pos);
      ScanTakes(old(bitmap), bits0, takes0, start, Limit(), online, pos);
      abort := false;
      if online {
        ghost var taken := bitmap;
        abort, chain := OnlineUpdate(chain, done0 + 1, base, ledger);
        if !abort { ScanUpdated(taken, bits0, takes, start, Limit(), pos + 1, bitmap); }
      }
    }

    lemma {:induction false} TracksMore(before: seq<HandedOut>, takes: seq<nat>, pos: nat)
      requires |takes| <= |before| && |handed| == |before| + 1 && handed[..|before|] == before && handed[|before|].blocknr == bitmapstart + pos
      requires forall k :: 0 <= k < |takes| ==> before[|before| - |takes| + k].blocknr == bitmapstart + takes[k]
      ensures Tracks(takes + [pos])
    {
      var all := takes + [pos];
      forall k | 0 <= k < |all|
        ensures handed[|handed| - |all| + k].blocknr == bitmapstart + all[k]
      {
        if k < |takes| { assert handed[..|before|][|before| - |takes| + k] == before[|before| - |takes| + k]; }
      }
    }

    /** Nothing is to be taken at a bit. */
    lemma {:induction false} StepOver(cur: nat, takes: seq<nat>, bits0: Bits, start: nat, online: bool)
      requires At(cur, takes, bits0, start, online) && cur < |bitmap|
      requires takes == [] || !online ==> !bitmap[cur] || bitmapstart + cur >= numblocks
      ensures At(cur + 1, takes, bits0, start, online)
    {
      hide Scanning;
      ScanOn(bitmap, bits0, takes, start, Limit(), online, cur, cur + 1);
    }

    /** Behind the last block nothing is to be taken. */
    lemma {:induction false} StepBeyond(cur: nat, next: nat, takes: seq<nat>, bits0: Bits, start: nat, online: bool)
      requires At(cur, takes, bits0, start, online) && cur <= next <= |bitmap| && bitmapstart + cur >= numblocks
      ensures At(next, takes, bits0, start, online)
    {
      hide Scanning;
      ScanOn(bitmap, bits0, takes, start, Limit(), online, cur, next);
    }

    /** Nor in the first bits of the first longword that is not zero. */
    lemma {:induction false} StepIn(w: nat, i: nat, takes: seq<nat>, bits0: Bits, start: nat, online: bool)
      requires At(w, takes, bits0, start, online) && w % 32 == 0 && w + 32 <= |bitmap| && i < 32
      requires i > 0 ==> takes == [] && i == start % 32
      ensures At(w + i, takes, bits0, start, online)
    {
      hide Scanning;
      if i > 0 { ScanOn(bitmap, bits0, takes, start, Limit(), online, w, w + i); }
    }

    /** Nor in a longword that is zero. */
    lemma {:induction false} StepOverZero(w: nat, cur: nat, takes: seq<nat>, bits0: Bits, start: nat, online: bool)
      requires At(cur, takes, bits0, start, online) && w <= cur < w + 32 <= |bitmap| && true !in bitmap[w..w + 32]
      ensures At(w + 32, takes, bits0, start, online)
    {
      hide Scanning;
      forall q | cur <= q < w + 32 ensures !bitmap[q] { assert bitmap[w..w + 32][q - w] == bitmap[q]; }
      ScanOn(bitmap, bits0, takes, start, Limit(), online, cur, w + 32);
    }

    /** Takes free blocks out of one longword, from bit i0 on, until `size0` are taken. */
    method ScanField(chain0: Chain, size0: nat, done0: nat, bmseqnr: nat, bmoffset0: nat, i0: nat, online: bool,
                     ghost takes0: seq<nat>, ghost bits0: Bits, ghost start: nat, ghost base: Origin, ghost ledger: multiset<nat>)
      returns (outcome: Outcome, chain: Chain, size: nat, done: nat, bmoffset: nat, i: nat, ghost takes: seq<nat>)
      requires Growing(chain0, done0, base, ledger) && cleanBlocksfree >= size0 > 0
      requires bmseqnr < nobmb && bmoffset0 < longsperbmb && i0 < 32
      requires ValidGeometry() && |takes0| == done0 && At(Bit(bmseqnr, bmoffset0, i0), takes0, bits0, start, online)
      modifies this`bitmap, this`cleanBlocksfree, this`allocAvailable, this`tobefreed, this`anodes,
               this`tobedone, this`disk, this`commits, this`handed
      ensures ValidGeometry()
      ensures outcome == Aborted ==> online && Released(chain, base, ledger)
      ensures outcome != Aborted ==> Growing(chain, done, base, ledger) && cleanBlocksfree >= size
      ensures outcome != Aborted ==> done + size == done0 + size0 && |takes| == done
      ensures outcome == Filled ==> size == 0 && |chain| > 0 && Last(chain).size > 0 && bmoffset == bmoffset0 && i < 32
      ensures outcome == Filled ==> takes != [] && takes[|takes| - 1] == Bit(bmseqnr, bmoffset, i)
      ensures outcome == Filled ==> At(Bit(bmseqnr, bmoffset, i) + 1, takes, bits0, start, online)
      ensures outcome == GoOn ==> 0 < size <= size0 && i == 0 && (bmoffset == bmoffset0 || bmoffset == longsperbmb)
      ensures outcome == GoOn ==>
                At(if bmoffset == bmoffset0 then Bit(bmseqnr, bmoffset0, 32) else Bit(bmseqnr, longsperbmb, 0), takes, bits0, start, online)
      ensures outcome == GoOn && size == size0 ==> bitmap == old(bitmap) && chain == chain0 && done == done0 && takes == takes0
      ensures outcome == GoOn && size == size0 ==>
                NoneFree(bitmap, Limit(), Bit(bmseqnr, bmoffset0, i0),
                         if bmoffset == bmoffset0 then Bit(bmseqnr, bmoffset0, 32) else Bit(bmseqnr, longsperbmb, 0))
    {
      hide Growing, Released, At;
      chain, size, done, bmoffset, i, takes := chain0, size0, done0, bmoffset0, i0, takes0;
      BitInRange(bmseqnr, bmoffset0);
      var w := Bit(bmseqnr, bmoffset0, 0);
      var field := bitmap[w..w + 32];
      while i < 32
        invariant i0 <= i <= 32 && 0 < size <= size0
        invariant Growing(chain, done, base, ledger) && cleanBlocksfree >= size && done + size == done0 + size0
        invariant ValidGeometry() && |bitmap| == old(|bitmap|)
        invariant |takes| == done && At(w + i, takes, bits0, start, online)
        invariant bmoffset == bmoffset0 || bmoffset == longsperbmb
        invariant bmoffset == bmoffset0 ==> forall k :: i <= k < 32 && field[k] ==> bitmap[w + k]
        invariant takes == [] || !online ==> forall k :: i <= k < 32 ==> bitmap[w + k] == field[k]
        invariant bmoffset == longsperbmb ==> bitmapstart + w + i > numblocks
        invariant size == size0 ==> bitmap == old(bitmap) && chain == chain0 && done == done0 && takes == takes0
        invariant size == size0 ==> NoneFree(bitmap, Limit(), w + i0, w + i)
      {
        if field[i] {
          var blocknr := Bit(bmseqnr, bmoffset, i) + bitmapstart;
          if blocknr >= numblocks {
            bmoffset := longsperbmb;
            StepOver(w + i, takes, bits0, start, online);
          } else {
            var abort;
            abort, chain, takes := TakeNext(chain, w + i, online, takes, bits0, start, done, base, ledger);
            done := done + 1;
            if abort {
              return Aborted, chain, size, done, bmoffset, i, takes;
            }
            size := size - 1;
            if size == 0 {
              return Filled, chain, size, done, bmoffset, i, takes;
            }
          }
        } else {
          StepOver(w + i, takes, bits0, start, online);
        }
        i := i + 1;
      }
      if bmoffset == longsperbmb { StepBeyond(w + 32, Bit(bmseqnr, longsperbmb, 0), takes, bits0, start, online); }
      i := 0;
      outcome := GoOn;
    }

    /** Takes free blocks out of one bitmap block, from longword bmoffset0 on. Bit i0 applies to the
        first longword that is not zero; if that skips free bits, the scan goes on with bit 0. */
    method ScanBlock(chain0: Chain, size0: nat, done0: nat, bmseqnr: nat, bmoffset0: nat, i0: nat, online: bool, ghost cur0: nat,
                     ghost takes0: seq<nat>, ghost bits0: Bits, ghost start: nat, ghost base: Origin, ghost ledger: multiset<nat>)
      returns (outcome: Outcome, chain: Chain, size: nat, done: nat, bmoffset: nat, i: nat, ghost takes: seq<nat>)
      requires Growing(chain0, done0, base, ledger) && cleanBlocksfree >= size0 > 0
      requires bmseqnr < nobmb && bmoffset0 < longsperbmb && i0 < 32
      requires ValidGeometry() && |takes0| == done0 && At(cur0, takes0, bits0, start, online)
      requires cur0 == Bit(bmseqnr, bmoffset0, 0) || cur0 == Bit(bmseqnr, bmoffset0, i0)
      requires i0 > 0 ==> takes0 == [] && i0 == start % 32
      modifies this`bitmap, this`cleanBlocksfree, this`allocAvailable, this`tobefreed, this`anodes,
               this`tobedone, this`disk, this`commits, this`handed
      ensures ValidGeometry()
      ensures outcome == Aborted ==> online && Released(chain, base, ledger)
      ensures outcome != Aborted ==> Growing(chain, done, base, ledger) && cleanBlocksfree >= size
      ensures outcome != Aborted ==> done + size == done0 + size0 && |takes| == done
      ensures outcome == Filled ==> size == 0 && |chain| > 0 && Last(chain).size > 0 && bmoffset < longsperbmb && i < 32
      ensures outcome == Filled ==> takes != [] && takes[|takes| - 1] == Bit(bmseqnr, bmoffset, i)
      ensures outcome == Filled ==> At(Bit(bmseqnr, bmoffset, i) + 1, takes, bits0, start, online)
      ensures outcome == GoOn ==> 0 < size <= size0 && (i == 0 || i == i0) && (i > 0 ==> takes == [])
      ensures outcome == GoOn ==> At(Bit(bmseqnr, longsperbmb, 0), takes, bits0, start, online)
      ensures outcome == GoOn && size == size0 && (i0 == 0 || i > 0) ==>
                bitmap == old(bitmap) &&
                NoneFree(bitmap, Limit(), Bit(bmseqnr, bmoffset0, 0), Bit(bmseqnr, longsperbmb, 0))
      ensures outcome == GoOn && size == size0 ==> bitmap == old(bitmap)
    {
      hide Growing, Released, Bit, At;
      chain, size, done, bmoffset, i, takes := chain0, size0, done0, bmoffset0, i0, takes0;
      ghost var cur: nat := cur0;
      BitInRange(bmseqnr, bmoffset0);
      while bmoffset < longsperbmb
        invariant bmoffset0 <= bmoffset <= longsperbmb + 1 && (i == 0 || i == i0)
        invariant Growing(chain, done, base, ledger) && cleanBlocksfree >= size && done + size == done0 + size0
        invariant 0 < size <= size0 && ValidGeometry()
        invariant |takes| == done && At(cur, takes, bits0, start, online) && (i > 0 ==> takes == [])
        invariant if bmoffset < longsperbmb then cur == Bit(bmseqnr, bmoffset, 0) || cur == Bit(bmseqnr, bmoffset, i)
                  else cur == Bit(bmseqnr, longsperbmb, 0)
        invariant size == size0 ==> bitmap == old(bitmap)
        invariant size == size0 && (i0 == 0 || i > 0) ==>
                    NoneFree(bitmap, Limit(), Bit(bmseqnr, bmoffset0, 0),
                             Bit(bmseqnr, if bmoffset < longsperbmb then bmoffset else longsperbmb, 0))
      {
        BitInRange(bmseqnr, bmoffset);
        BitStep(bmseqnr, bmoffset);
        BitWord(bmseqnr, bmoffset);
        var w := Bit(bmseqnr, bmoffset, 0);
        var field := bitmap[w..w + 32];
        if true in field {
          if cur == w { StepIn(w, i, takes, bits0, start, online); }
          ghost var here := bmoffset;
          outcome, chain, size, done, bmoffset, i, takes :=
            ScanField(chain, size, done, bmseqnr, bmoffset, i, online, takes, bits0, start, base, ledger);
          if outcome != GoOn {
            return;
          }
          cur := if bmoffset == here then Bit(bmseqnr, here, 32) else Bit(bmseqnr, longsperbmb, 0);
        } else {
          ZeroField(bitmap, Limit(), w);
          StepOverZero(w, cur, takes, bits0, start, online);
          cur := w + 32;
        }
        bmoffset := bmoffset + 1;
      }
      outcome := GoOn;
    }

    lemma {:induction false} BitWord(bmseqnr: nat, bmoffset: nat)
      ensures Bit(bmseqnr, bmoffset, 0) % 32 == 0
    {
    }

    lemma {:induction false} BitStep(bmseqnr: nat, bmoffset: nat)
      ensures forall i: nat {:trigger Bit(bmseqnr, bmoffset, i)} :: Bit(bmseqnr, bmoffset, i) == Bit(bmseqnr, bmoffset, 0) + i
    {
    }

    /** The last run of the chain ends where the bitmap ends: the bit behind it is in a bitmap block
        that does not exist. */
    predicate AtBitmapEnd(n: Node)
      reads this`bitmap
    {
      n.blocknr != 0 && n.blocknr != NOBLOCK && n.blocknr + n.size == bitmapstart + |bitmap|
    }

    /** Where the search starts: right behind the chain if that block is free, else at the roving
        pointer. The roving pointer is not to be moved if the search starts somewhere else. The bit
        behind the chain is looked up without asking whether it exists. */
    method StartPosition(n: Node) returns (fault: bool, extend: bool, updateroving: bool, bmseqnr: nat, bmoffset: nat, i: nat)
      requires ValidGeometry()
      requires n.blocknr != 0 && n.blocknr != NOBLOCK ==>
                 bitmapstart <= n.blocknr && n.blocknr + n.size <= bitmapstart + |bitmap|
      ensures fault <==> AtBitmapEnd(n)
      ensures !fault ==> bmseqnr < nobmb && bmoffset < longsperbmb && i < 32
      ensures !fault && extend ==> n.blocknr != NOBLOCK && Bit(bmseqnr, bmoffset, i) + bitmapstart == n.blocknr + n.size
      ensures !fault ==> (extend <==> n.blocknr != 0 && n.blocknr != NOBLOCK && IsFree(bitmap, bitmapstart, n.blocknr + n.size))
      ensures !fault && !extend ==> (bmseqnr * longsperbmb + bmoffset, i) == (rovingPtr, rovingBit) && Bit(bmseqnr, bmoffset, i) == Roving()
      ensures !fault ==> (updateroving <==> !extend || bmseqnr * longsperbmb + bmoffset == rovingPtr)
    {
      hide Volume.Bit;
      updateroving := true;
      if n.blocknr != 0 && n.blocknr != NOBLOCK {
        var pos := n.blocknr + n.size - bitmapstart;
        if pos == |bitmap| {
          return true, false, false, 0, 0, 0;
        }
        if bitmap[pos] {
          Longwords();
          bmseqnr, bmoffset := Word(pos / 32);
          BitOfWord(bmseqnr, bmoffset, pos);
          return false, true, pos / 32 == rovingPtr, bmseqnr, bmoffset, pos % 32;
        }
      }
      fault, extend := false, false;
      bmseqnr, bmoffset := Word(rovingPtr);
      i := rovingBit;
      BitSplit(bmseqnr, bmoffset, i);
    }

    lemma {:induction false} Longwords()
      requires ValidGeometry()
      ensures |bitmap| == (nobmb * longsperbmb) * 32
    {
    }

    /** The bitmap block and the offset in it of a longword. */
    method Word(nr: nat) returns (bmseqnr: nat, bmoffset: nat)
      requires longsperbmb > 0 && nr < nobmb * longsperbmb
      ensures bmseqnr < nobmb && bmoffset < longsperbmb && nr == bmseqnr * longsperbmb + bmoffset
    {
      WordSplit(nr);
      bmseqnr, bmoffset := nr / longsperbmb, nr % longsperbmb;
    }

    lemma {:induction false} WordSplit(nr: nat)
      requires longsperbmb > 0 && nr < nobmb * longsperbmb
      ensures nr / longsperbmb < nobmb && nr == (nr / longsperbmb) * longsperbmb + nr % longsperbmb
    {
      if nr / longsperbmb >= nobmb { MulMono(nobmb, nr / longsperbmb, longsperbmb); }
    }

    lemma {:induction false} BitOfWord(bmseqnr: nat, bmoffset: nat, pos: nat)
      requires pos / 32 == bmseqnr * longsperbmb + bmoffset
      ensures Bit(bmseqnr, bmoffset, pos % 32) == pos
    {
    }

    /** The bit the next search starts at. */
    function Roving(): nat
      reads this`rovingPtr, this`rovingBit
    {
      rovingPtr * 32 + rovingBit
    }

    /** Moves the roving pointer to the last block taken; behind an extended file it leaves room. */
    method UpdateRoving(extend: bool, extra: nat, bmseqnr: nat, bmoffset: nat, i: nat)
      requires ValidGeometry() && extra <= 256 && bmseqnr < nobmb && bmoffset < longsperbmb && i < 32
      modifies this`rovingPtr, this`rovingBit
      ensures ValidGeometry()
      ensures Roving() == if extend then (Bit(bmseqnr, bmoffset, i) + extra) % |bitmap| else Bit(bmseqnr, bmoffset, i)
    {
      hide Volume.Bit;
      var seqnr, offset := bmseqnr, bmoffset;
      if extend {
        var j := i + extra;
        rovingBit := j % 32;
        offset := offset + j / 32;
        if offset >= longsperbmb {
          offset := offset - longsperbmb;
          NextSeqnr(seqnr);
          seqnr := (seqnr + 1) % nobmb;
        }
        RovingAhead(bmseqnr, bmoffset, i, extra, seqnr, offset);
      } else {
        rovingBit := i;
        BitSplit(bmseqnr, bmoffset, i);
      }
      WordBelow(seqnr, offset);
      rovingPtr := seqnr * longsperbmb + offset;
    }

    lemma {:induction false} WordBelow(seqnr: nat, offset: nat)
      requires seqnr < nobmb && offset < longsperbmb
      ensures seqnr * longsperbmb + offset < nobmb * longsperbmb
    {
      MulMono(seqnr + 1, nobmb, longsperbmb);
    }

    lemma {:induction false} WordOf(bmseqnr: nat, bmoffset: nat, i: nat)
      requires i < 32
      ensures Bit(bmseqnr, bmoffset, i) / 32 == bmseqnr * longsperbmb + bmoffset
    {
    }

    lemma {:induction false} BitSplit(bmseqnr: nat, bmoffset: nat, i: nat)
      ensures Bit(bmseqnr, bmoffset, i) == (bmseqnr * longsperbmb + bmoffset) * 32 + i
    {
    }

    /** A number of bits on, round the end of the bitmap. */
    lemma {:induction false} RovingAhead(bmseqnr: nat, bmoffset: nat, i: nat, extra: nat, seqnr: nat, offset: nat)
      requires ValidGeometry() && extra <= 256 && bmseqnr < nobmb && bmoffset < longsperbmb && i < 32 && offset < longsperbmb
      requires var o := bmoffset + (i + extra) / 32;
               if o >= longsperbmb then offset == o - longsperbmb && seqnr == (if bmseqnr + 1 == nobmb then 0 else bmseqnr + 1)
               else offset == o && seqnr == bmseqnr
      ensures (seqnr * longsperbmb + offset) * 32 + (i + extra) % 32 == (Bit(bmseqnr, bmoffset, i) + extra) % |bitmap|
    {
      var o, k := bmoffset + (i + extra) / 32, (i + extra) % 32;
      var p := Bit(bmseqnr, bmoffset, i) + extra;
      assert p == (bmseqnr * longsperbmb + o) * 32 + k;
      Carry(bmseqnr, longsperbmb);
      if o >= longsperbmb && bmseqnr + 1 == nobmb {
        assert p == |bitmap| + (offset * 32 + k);
        MulMono(1, nobmb, longsperbmb);
        DivUnique(p, |bitmap|, 1, offset * 32 + k);
      } else {
        BelowEnd(seqnr, offset, k);
      }
    }

    lemma {:induction false} Carry(a: nat, n: nat)
      ensures (a + 1) * n == a * n + n
    {
    }

    lemma {:induction false} BelowEnd(seqnr: nat, offset: nat, i: nat)
      requires ValidGeometry() && seqnr < nobmb && offset < longsperbmb && i < 32
      ensures var p := (seqnr * longsperbmb + offset) * 32 + i; p < |bitmap| && p % |bitmap| == p
    {
      MulMono(seqnr + 1, nobmb, longsperbmb);
      assert (seqnr + 1) * longsperbmb == seqnr * longsperbmb + longsperbmb;
      ModSmall((seqnr * longsperbmb + offset) * 32 + i, |bitmap|);
    }

    /** The bitmap block of some free block. */
    ghost function FreeSeqnr(bits: Bits): nat
      requires longsperbmb > 0 && FreeRange(bits, bitmapstart, numblocks) != {}
    {
      (SomeFree(bits, bitmapstart, numblocks) - bitmapstart) / 32 / longsperbmb
    }

    lemma {:induction false} FreeSeqnrInRange()
      requires ValidGeometry() && FreeRange(bitmap, bitmapstart, numblocks) != {}
      ensures FreeSeqnr(bitmap) < nobmb
      ensures !NoneFree(bitmap, Limit(), Bit(FreeSeqnr(bitmap), 0, 0), Bit(FreeSeqnr(bitmap), longsperbmb, 0))
    {
      hide Bit;
      var q := SomeFree(bitmap, bitmapstart, numblocks) - bitmapstart;
      WordSplit(q / 32);
      var seqnr := q / 32 / longsperbmb;
      assert bitmap[q] && q < numblocks - bitmapstart;
      BitSplit(seqnr, 0, 0);
      BitSplit(seqnr, longsperbmb, 0);
    }

    /** How many bitmap blocks the scan still visits before that of a free block. */
    ghost function Distance(bits: Bits, bmseqnr: nat): int
      requires longsperbmb > 0 && FreeRange(bits, bitmapstart, numblocks) != {}
    {
      if bmseqnr <= FreeSeqnr(bits) then FreeSeqnr(bits) - bmseqnr else FreeSeqnr(bits) + nobmb - bmseqnr
    }

    lemma {:induction false} NextSeqnr(bmseqnr: nat)
      requires bmseqnr < nobmb
      ensures (bmseqnr + 1) % nobmb == if bmseqnr + 1 == nobmb then 0 else bmseqnr + 1
    {
      if bmseqnr + 1 < nobmb { ModSmall(bmseqnr + 1, nobmb); }
    }

    /** Scans the bitmap, round and round, until `size0` blocks are taken. A first lap may miss free
        bits below bit i0 of the first longword that is not zero; a second lap finds them. */
    method FillChain(chain0: Chain, size0: nat, bmseqnr0: nat, bmoffset0: nat, i0: nat, online: bool,
                     ghost base: Origin, ghost ledger: multiset<nat>)
      returns (ok: bool, chain: Chain, bmseqnr: nat, bmoffset: nat, i: nat, ghost takes: seq<nat>)
      requires Growing(chain0, 0, base, ledger) && ValidGeometry() && cleanBlocksfree >= size0
      requires bmseqnr0 < nobmb && bmoffset0 < longsperbmb && i0 < 32
      modifies this`bitmap, this`cleanBlocksfree, this`allocAvailable, this`tobefreed, this`anodes,
               this`tobedone, this`disk, this`commits, this`handed
      ensures !ok ==> online && Released(chain, base, ledger)
      ensures ok ==> Growing(chain, size0, base, ledger) && ValidGeometry()
      ensures ok ==> bmseqnr < nobmb && bmoffset < longsperbmb && i < 32
      ensures if size0 == 0 then ok && chain == chain0 else ok ==> |chain| > 0 && Last(chain).size > 0
      ensures ok ==> |takes| == size0 && Tracks(takes) && InOrder(old(bitmap), takes, Bit(bmseqnr0, bmoffset0, i0), Limit(), online)
      ensures ok ==> Bit(bmseqnr, bmoffset, i) == if takes == [] then Bit(bmseqnr0, bmoffset0, i0) else takes[|takes| - 1]
    {
      hide Growing, Released, Bit, NoneFree, FreeRange, FreeSeqnr, At;
      var size, done := size0, 0;
      chain, bmseqnr, bmoffset, i, takes := chain0, bmseqnr0, bmoffset0, i0, [];
      ghost var bits0, start := bitmap, Bit(bmseqnr0, bmoffset0, i0);
      ghost var cur: nat := start;
      NothingTaken(start, online);
      BitIndex(bmseqnr0, bmoffset0, i0);
      BitBelow(bmseqnr0, bmoffset0, i0);
      while size > 0
        invariant Growing(chain, done, base, ledger) && ValidGeometry()
        invariant cleanBlocksfree >= size && done + size == size0
        invariant size > 0 ==> bmseqnr < nobmb && bmoffset < longsperbmb && i < 32
        invariant size == 0 ==> bmseqnr < nobmb && bmoffset < longsperbmb && i < 32 && (size0 > 0 ==> |chain| > 0 && Last(chain).size > 0)
        invariant size0 == 0 ==> chain == chain0
        invariant |takes| == done && At(cur, takes, bits0, start, online) && (i > 0 && size > 0 ==> takes == [] && i == start % 32)
        invariant start <= |bitmap|
        invariant size > 0 ==> cur == Bit(bmseqnr, bmoffset, 0) || cur == Bit(bmseqnr, bmoffset, i)
        invariant size == 0 ==> Bit(bmseqnr, bmoffset, i) == if takes == [] then start else takes[|takes| - 1]
        decreases size, if i == 0 then 0 else 1,
                  if size == 0 || FreeRange(bitmap, bitmapstart, numblocks) == {} then 0
                  else if bmoffset != 0 then nobmb else Distance(bitmap, bmseqnr)
      {
        SomeIsFree(chain, done, base, ledger);
        FreeSeqnrInRange();
        var outcome;
        outcome, chain, size, done, bmoffset, i, takes :=
          ScanBlock(chain, size, done, bmseqnr, bmoffset, i, online, cur, takes, bits0, start, base, ledger);
        if outcome == Aborted {
          return false, chain, bmseqnr, bmoffset, i, takes;
        }
        if outcome == GoOn {
          NextSeqnr(bmseqnr);
          cur := NextBitmapBlock(bmseqnr, takes, bits0, start, online);
          bmseqnr := (bmseqnr + 1) % nobmb;
          bmoffset := 0;
        } else {
          cur := Bit(bmseqnr, bmoffset, i) + 1;
        }
      }
      Finished(cur, takes, bits0, start, online);
      ok := true;
    }

    lemma {:induction false} BitBelow(bmseqnr: nat, bmoffset: nat, i: nat)
      requires ValidGeometry() && bmseqnr < nobmb && bmoffset < longsperbmb && i < 32
      ensures Bit(bmseqnr, bmoffset, i) < |bitmap|
    {
      BelowEnd(bmseqnr, bmoffset, i);
    }

    lemma {:induction false} BitIndex(bmseqnr: nat, bmoffset: nat, i: nat)
      requires i < 32
      ensures Bit(bmseqnr, bmoffset, i) % 32 == i
    {
    }

    lemma {:induction false} Finished(cur: nat, takes: seq<nat>, bits0: Bits, start: nat, online: bool)
      requires At(cur, takes, bits0, start, online)
      ensures Tracks(takes) && InOrder(bits0, takes, start, Limit(), online)
    {
      ScanInOrder(bitmap, bits0, takes, start, Limit(), online, cur);
    }

    /** The scan goes on with the next bitmap block, or the first. */
    lemma {:induction false} NextBitmapBlock(bmseqnr: nat, takes: seq<nat>, bits0: Bits, start: nat, online: bool) returns (cur: nat)
      requires ValidGeometry() && bmseqnr < nobmb && At(Bit(bmseqnr, longsperbmb, 0), takes, bits0, start, online)
      requires start <= |bitmap|
      ensures cur == Bit((bmseqnr + 1) % nobmb, 0, 0) && At(cur, takes, bits0, start, online)
    {
      hide Scanning;
      NextSeqnr(bmseqnr);
      BitInRange(bmseqnr, 0);
      cur := Bit(bmseqnr, longsperbmb, 0);
      if bmseqnr + 1 == nobmb {
        ScanRound(bitmap, bits0, takes, start, Limit(), online);
        cur := 0;
      }
    }

    lemma {:induction false} SomeIsFree(chain: Chain, done: nat, base: Origin, ledger: multiset<nat>)
      requires Growing(chain, done, base, ledger) && cleanBlocksfree > 0
      ensures FreeRange(bitmap, bitmapstart, numblocks) != {}
    {
    }

    lemma {:induction false} StartGrowing(achain: Chain, base: Origin, ledger: multiset<nat>)
      requires Valid() && ValidGeometry() && NoReuse()
      requires OnTable(anodes, achain) && Allocatable(achain) && Inside(achain, bitmapstart, |bitmap|)
      requires BalancedWith(Flat(achain), ledger)
      requires base.flat == Flat(achain) && Untouched(achain, base) && |base.start| == |achain|
      ensures Growing(achain, 0, base, ledger) && |achain| > 0
      ensures Last(achain).blocknr == NOBLOCK <==> Last(achain).size == 0
      ensures Last(achain).size > 0 ==>
                bitmapstart <= Last(achain).blocknr && Last(achain).blocknr + Last(achain).size <= bitmapstart + |bitmap|
      ensures |achain| == 1 || Last(achain).size > 0
    {
      hide Flat, Balanced;
      assert handed[|handed|..] == [];
    }

    /** The bitmap that is searched: blocks still to be freed become free first if there are too few. */
    ghost function BitsFor(size: nat): Bits
      reads this`bitmap, this`tobefreed, this`cleanBlocksfree
    {
      if cleanBlocksfree < size then EventualBits() else bitmap
    }

    /** The block behind the chain is free. */
    predicate Extends(bits: Bits, n: Node) {
      && n.blocknr != 0 && n.blocknr != NOBLOCK && n.blocknr + n.size >= bitmapstart
      && var pos := n.blocknr + n.size - bitmapstart; pos < |bits| && bits[pos]
    }

    /** The search starts there, and else at the roving pointer. */
    function StartBit(bits: Bits, n: Node): nat
      reads this`rovingPtr, this`rovingBit
    {
      if Extends(bits, n) then n.blocknr + n.size - bitmapstart else Roving()
    }

    /** Where the roving pointer will be: at the last block taken; some way behind it if a file was extended; and
        where it was if a file was extended elsewhere. */
    function NewRoving(bits: Bits, c: Chain, takes: seq<nat>): nat
      requires |c| > 0 && |bits| > 0
      reads this`rovingPtr, this`rovingBit
    {
      var start := StartBit(bits, Last(c));
      var last := if takes == [] then start else takes[|takes| - 1];
      if !Extends(bits, Last(c)) then last
      else if start / 32 != rovingPtr then Roving()
      else (last + if |c| <= 33 then 8 * (|c| - 1) else 256) % |bits|
    }

    /** Blocks that are still to be freed become free at a commit. */
    method CommitIfShort(size: nat, ghost flat: seq<nat>, ghost ledger: multiset<nat>)
      requires Valid() && ValidGeometry() && BalancedWith(flat, ledger) && allocAvailable >= size
      modifies this`bitmap, this`cleanBlocksfree, this`tobefreed, this`disk, this`commits
      ensures Valid() && ValidGeometry() && BalancedWith(flat, ledger)
      ensures cleanBlocksfree >= size && |bitmap| == old(|bitmap|) && bitmap == old(BitsFor(size))
      ensures Snapshot() == old(Snapshot())
    {
      hide Balanced, Mark, PendingSet;
      if cleanBlocksfree < size {
        CommitBalanced(bitmap, bitmapstart, numblocks, tobefreed, cleanBlocksfree, flat, ledger);
        UpdateDisk();
        MountedSnapshot(bitmap, bitmapstart);
      }
    }

    /** Appends `size0` free blocks to a chain, starting right behind it if that block is free and
        at the roving pointer if not, and going on from there. Succeeds if that many blocks are available, unless online
        updates find that reserved blocks run out; then everything taken is given back. Faults, with
        nothing changed, exactly if the chain ends where the bitmap ends. */
    method AllocateBlocksAC(achain: Chain, size0: nat, online: bool, ghost base: Origin, ghost ledger: multiset<nat>)
      returns (ok: bool, fault: bool, chain: Chain, ghost takes: seq<nat>)
      requires Valid() && ValidGeometry() && NoReuse()
      requires OnTable(anodes, achain) && Allocatable(achain) && Inside(achain, bitmapstart, |bitmap|)
      requires BalancedWith(Flat(achain), ledger)
      requires base.flat == Flat(achain) && Untouched(achain, base) && |base.start| == |achain|
      modifies this`bitmap, this`cleanBlocksfree, this`allocAvailable, this`tobefreed, this`anodes,
               this`tobedone, this`disk, this`commits, this`handed, this`rovingPtr, this`rovingBit
      ensures Valid() && ValidGeometry() && NoReuse() && OnTable(anodes, chain)
      ensures BalancedWith(Flat(chain), ledger) && Untouched(chain, base)
      ensures Allocatable(chain) && Inside(chain, bitmapstart, |bitmap|)
      ensures old(allocAvailable) < size0 || fault ==> !ok && chain == achain && Snapshot() == old(Snapshot())
      ensures fault <==> old(allocAvailable) >= size0 && old(AtBitmapEnd(Last(achain)))
      ensures old(allocAvailable) >= size0 && !online && !fault ==> ok
      ensures ok ==> size0 <= |handed| && Flat(chain) == Flat(achain) + Blocknrs(handed[|handed| - size0..])
      ensures ok ==> Broken(chain, |achain|)
      ensures !ok ==> Flat(chain) == Flat(achain) && Roving() == old(Roving())
      ensures ok ==> |takes| == size0 && Tracks(takes)
      ensures ok ==> InOrder(old(BitsFor(size0)), takes, old(StartBit(BitsFor(size0), Last(achain))), Limit(), online)
      ensures ok ==> Roving() == old(NewRoving(BitsFor(size0), achain, takes))
    {
      hide Bit, Flat, Balanced, NoReuse, Mark, PendingSet, Untouched, OnTable, Inside, Allocatable, InOrder, Tracks, Broken, Volume.StartBit, Volume.NewRoving;
      chain, takes := achain, [];
      ok, fault := false, false;
      if allocAvailable < size0 {
        return;
      }
      CommitIfShort(size0, Flat(achain), ledger);
      ok, fault, chain, takes := Search(achain, size0, online, base, ledger);
    }

    /** Does that once there are enough free blocks. */
    method Search(achain: Chain, size0: nat, online: bool, ghost base: Origin, ghost ledger: multiset<nat>)
      returns (ok: bool, fault: bool, chain: Chain, ghost takes: seq<nat>)
      requires Valid() && ValidGeometry() && NoReuse() && cleanBlocksfree >= size0
      requires OnTable(anodes, achain) && Allocatable(achain) && Inside(achain, bitmapstart, |bitmap|)
      requires BalancedWith(Flat(achain), ledger)
      requires base.flat == Flat(achain) && Untouched(achain, base) && |base.start| == |achain|
      modifies this`bitmap, this`cleanBlocksfree, this`allocAvailable, this`tobefreed, this`anodes,
               this`tobedone, this`disk, this`commits, this`handed, this`rovingPtr, this`rovingBit
      ensures Valid() && ValidGeometry() && NoReuse() && OnTable(anodes, chain)
      ensures BalancedWith(Flat(chain), ledger) && Untouched(chain, base)
      ensures Allocatable(chain) && Inside(chain, bitmapstart, |bitmap|)
      ensures fault <==> old(AtBitmapEnd(Last(achain)))
      ensures fault ==> !ok && chain == achain && Snapshot() == old(Snapshot())
      ensures !online && !fault ==> ok
      ensures ok ==> size0 <= |handed| && Flat(chain) == Flat(achain) + Blocknrs(handed[|handed| - size0..])
      ensures ok ==> Broken(chain, |achain|)
      ensures !ok ==> Flat(chain) == Flat(achain) && Roving() == old(Roving())
      ensures ok ==> |takes| == size0 && Tracks(takes)
      ensures ok ==> InOrder(old(bitmap), takes, old(StartBit(bitmap, Last(achain))), Limit(), online)
      ensures ok ==> Roving() == old(NewRoving(bitmap, achain, takes))
    {
      hide Bit, Flat, Balanced, NoReuse, NoneFree, Blocknrs, Mark, Growing, Untouched, OnTable, Inside, Allocatable, Released, InOrder, Tracks, Broken, Volume.Roving;
      chain, takes := achain, [];
      var extra := if (|chain| - 1) * 8 < 256 then (|chain| - 1) * 8 else 256;
      StartGrowing(achain, base, ledger);
      var extend, updateroving, bmseqnr, bmoffset, i;
      fault, extend, updateroving, bmseqnr, bmoffset, i := StartPosition(Last(chain));
      if fault {
        return false, true, achain, takes;
      }
      WordOf(bmseqnr, bmoffset, i);
      ok, chain, bmseqnr, bmoffset, i, takes := FillChain(chain, size0, bmseqnr, bmoffset, i, online, base, ledger);
      if ok {
        FinishChain(chain, size0, base, ledger);
        MoveRoving(updateroving, extend, extra, bmseqnr, bmoffset, i);
      } else {
        ReleasedChain(chain, base, ledger);
      }
    }

    method MoveRoving(updateroving: bool, extend: bool, extra: nat, bmseqnr: nat, bmoffset: nat, i: nat)
      requires ValidGeometry() && extra <= 256 && bmseqnr < nobmb && bmoffset < longsperbmb && i < 32
      modifies this`rovingPtr, this`rovingBit
      ensures ValidGeometry()
      ensures Roving() == if !updateroving then old(Roving())
                          else if extend then (Bit(bmseqnr, bmoffset, i) + extra) % |bitmap| else Bit(bmseqnr, bmoffset, i)
    {
      if updateroving {
        UpdateRoving(extend, extra, bmseqnr, bmoffset, i);
      }
    }

    lemma {:induction false} ReleasedChain(chain: Chain, base: Origin, ledger: multiset<nat>)
      requires Released(chain, base, ledger)
      ensures Valid() && ValidGeometry() && NoReuse() && OnTable(anodes, chain)
      ensures BalancedWith(Flat(chain), ledger) && Untouched(chain, base)
      ensures Allocatable(chain) && Inside(chain, bitmapstart, |bitmap|) && Flat(chain) == base.flat
    {
    }

    /** Saves the last anode of a chain that has its blocks. */
    method FinishChain(chain: Chain, ghost done: nat, ghost base: Origin, ghost ledger: multiset<nat>)
      requires Growing(chain, done, base, ledger) && ValidGeometry() && (Last(chain).size > 0 || |chain| == 1)
      modifies this`anodes
      ensures Valid() && NoReuse() && OnTable(anodes, chain) && BalancedWith(Flat(chain), ledger)
      ensures done <= |handed| && Flat(chain) == base.flat + Blocknrs(handed[|handed| - done..])
      ensures Untouched(chain, base) && Allocatable(chain) && Inside(chain, bitmapstart, |bitmap|) && Broken(chain, |base.start|)
    {
      hide Flat, Balanced, NoReuse, Linked, Blocknrs, Allocatable, Inside, Broken;
      CloseChain(anodes, chain);
      SaveAnode(Last(chain));
    }

    /** Reads an anode; one that does not exist reads as empty. */
    function GetAnode(nr: nat): Node
      reads this`anodes
    {
      if nr in anodes then Node(nr, anodes[nr].blocknr, anodes[nr].size, anodes[nr].next) else Node(nr, NOBLOCK, 0, 0)
    }

    /** Reads the chain that starts at anodenr. */
    method MakeAnodeChain(anodenr: nat, ghost c: Chain) returns (chain: Chain)
      requires OnTable(anodes, c) && c[0].nr == anodenr
      ensures chain == c
    {
      var node := GetAnode(anodenr);
      chain := [node];
      while node.next != 0
        invariant 0 < |chain| <= |c| && chain == c[..|chain|] && node == c[|chain| - 1]
        decreases |c| - |chain|
      {
        node := GetAnode(node.next);
        chain := chain + [node];
      }
      if |chain| < |c| { NextNonzero(c, |chain| - 1); }
    }

    /** Clears every anode of a chain from its head on; a commit in between records where it is. */
    method FreeAnodesInChain(anodenr: nat, ghost c: Chain)
      requires Valid()
      requires OnTable(anodes, c) && c[0].nr == anodenr != 0
      modifies this`bitmap, this`cleanBlocksfree, this`tobefreed, this`anodes, this`tobedone, this`disk, this`commits
      ensures Valid() && tobedone == Nothing && |bitmap| == old(|bitmap|)
      ensures Snapshot() == old(Snapshot()).(anodes := ClearChain(old(anodes), c), todo := Nothing)
      ensures FreedFrom(old(anodes), anodes, c, 0)
      ensures old(commits) <= commits
      ensures forall k :: |old(commits)| <= k < |commits| ==> CompletesTo(commits[k], bitmapstart, Snapshot())
    {
      hide OnTable, CompletesTo, PendingSet, FreedFrom, ClearChain, Mark;
      ghost var fin := Snapshot().(anodes := ClearChain(anodes, c), todo := Nothing);
      ClearChainFrees(anodes, c);
      var anode := GetAnode(anodenr);
      ghost var rest := c;
      ChainHead(anodes, rest);
      while anode.nr != 0
        invariant if anode.nr == 0 then rest == []
                  else |rest| > 0 && OnTable(anodes, rest) && anode == rest[0]
        invariant ClearChain(anodes, rest) == fin.anodes
        invariant EventualBits() == fin.bits && EventualFree() == fin.blocksfree && fin.todo == Nothing
        invariant Valid() && |bitmap| == old(|bitmap|)
        invariant old(commits) <= commits
        invariant forall k :: |old(commits)| <= k < |commits| ==> CompletesTo(commits[k], bitmapstart, fin)
        decreases |rest|
      {
        var needed := IsUpdateNeeded();
        if needed {
          tobedone := FreeAnodeChain(anode.nr);
          UpdateDisk();
          MountedSnapshot(bitmap, bitmapstart);
          CommitClearCompletes(disk, bitmapstart, rest, fin);
        }
        ClearHead(anodes, rest);
        anodes := anodes[anode.nr := Cleared(anode.nr)];
        anode := GetAnode(anode.next);
        rest := rest[1..];
        if rest != [] { ChainHead(anodes, rest); }
      }
      ClearNone(anodes);
      tobedone := Nothing;
    }

    /** Finishes, at mount, the operation recorded on disk. */
    method DoPostponed(ghost c: Chain)
      requires Valid() && tobefreed == [] && Snapshot() == disk
      requires Names(disk, c, bitmapstart)
      modifies this`bitmap, this`cleanBlocksfree, this`allocAvailable, this`tobefreed, this`anodes,
               this`tobedone, this`disk, this`commits
      ensures Valid() && |bitmap| == old(|bitmap|)
      ensures Snapshot() == Complete(old(disk), c, bitmapstart)
      ensures old(commits) <= commits
      ensures forall k :: |old(commits)| <= k < |commits| ==> CompletesTo(commits[k], bitmapstart, Snapshot())
    {
      hide TailBlocks, TailCount, TruncTable, Trunc, CompletesTo, Mark, Flat;
      match tobedone
      case FreeBlocksFree(head, size) =>
        var achain := MakeAnodeChain(head, c);
        var _ := FreeBlocksAC(achain, size, FreeAnodes);
      case FreeBlocksKeep(head, size, done) =>
        var achain := MakeAnodeChain(head, c);
        cleanBlocksfree := cleanBlocksfree - done;
        allocAvailable := allocAvailable - done;
        var _ := FreeBlocksAC(achain, size, KeepAnodes);
      case FreeAnodeChain(head) =>
        FreeAnodesInChain(head, c);
      case Nothing =>
    }
  }


  /** The i-th mount of disks[i] wrote the commits writes[i]; where it lost power after crashes[i] of them, the
      next mount finds what the last of these wrote, and else the same disk. */
  ghost predicate Crashed(disks: seq<Disk>, writes: seq<seq<Disk>>, crashes: seq<nat>) {
    && |disks| == |crashes| + 1 && |writes| == |crashes|
    && forall i :: 0 <= i < |crashes| ==> disks[i + 1] == if 0 < crashes[i] <= |writes[i]| then writes[i][crashes[i] - 1] else disks[i]
  }

  /** Mounts d again and again; the i-th mount loses power after crashes[i] of its own commits
      (or before the first, or after its last). Once a mount gets through, the disk holds the
      completed operation, the same for every schedule of crashes. */
  method MountUntilDone(d0: Disk, crashes: seq<nat>, geo: Geometry, ghost c: Chain)
    returns (final: Disk, ghost disks: seq<Disk>, ghost writes: seq<seq<Disk>>)
    requires Names(d0, c, geo.bitmapstart)
    ensures Crashed(disks, writes, crashes) && disks[0] == d0
    ensures final == Complete(d0, c, geo.bitmapstart)
  {
    hide OnTable, Complete, Mark, PendingSet;
    var d := d0;
    ghost var fin := Complete(d0, c, geo.bitmapstart);
    var i := 0;
    disks, writes := [d], [];
    while i < |crashes|
      invariant 0 <= i <= |crashes|
      invariant CompletesTo(d, geo.bitmapstart, fin)
      invariant Crashed(disks, writes, crashes[..i]) && disks[0] == d0 && disks[i] == d
    {
      var vol := MountAndFinish(d, geo, fin);
      if 0 < crashes[i] <= |vol.commits| {
        d := vol.commits[crashes[i] - 1];
      }
      disks, writes := disks + [d], writes + [vol.commits];
      i := i + 1;
    }
    assert crashes[..i] == crashes;
    var vol := MountAndFinish(d, geo, fin);
    vol.UpdateDisk();
    final := vol.disk;
  }

  /** A free that loses power at its k-th commit (if there is one), and the mounts that follow, leave
      on disk what the free leaves there when nothing interrupts it. */
  method FreeAcrossCrashes(vol: Volume, achain: Chain, size: nat, freetype: FreeType, k: nat, crashes: seq<nat>, geo: Geometry)
    returns (interrupted: Disk, ghost disks: seq<Disk>, ghost writes: seq<seq<Disk>>)
    requires vol.Valid() && geo.bitmapstart == vol.bitmapstart
    requires OnTable(vol.anodes, achain) && Inside(achain, vol.bitmapstart, |vol.bitmap|)
    modifies vol
    ensures k > 0 && old(|vol.commits|) + k < |vol.commits| ==>
              Crashed(disks, writes, crashes) && disks[0] == vol.commits[old(|vol.commits|) + k - 1]
    ensures interrupted == vol.disk
    ensures vol.disk == Complete(old(vol.Snapshot().(todo := Record(achain, size, freetype))), achain, vol.bitmapstart)
  {
    hide Complete, Mark, PendingSet, Trunc, TruncTable, OnTable, Inside;
    var before := |vol.commits|;
    var _ := vol.FreeBlocksAC(achain, size, freetype);
    vol.UpdateDisk();
    interrupted, disks, writes := vol.disk, [], [];
    if k > 0 && before + k < |vol.commits| {
      var d := vol.commits[before + k - 1];
      ghost var c :| Names(d, c, vol.bitmapstart) && Complete(d, c, vol.bitmapstart) == vol.disk;
      interrupted, disks, writes := MountUntilDone(d, crashes, geo, c);
    }
  }

  method MountAndFinish(d: Disk, geo: Geometry, ghost fin: Disk) returns (vol: Volume)
    requires CompletesTo(d, geo.bitmapstart, fin)
    ensures fresh(vol) && vol.Valid() && vol.bitmapstart == geo.bitmapstart && vol.Snapshot() == fin
    ensures forall k :: 0 <= k < |vol.commits| ==> CompletesTo(vol.commits[k], geo.bitmapstart, fin)
  {
    hide OnTable, Complete, Mark, PendingSet;
    ghost var c :| Names(d, c, geo.bitmapstart) && Complete(d, c, geo.bitmapstart) == fin;
    vol := new Volume.Mount(d, geo);
    MountedSnapshot(d.bits, geo.bitmapstart);
    vol.DoPostponed(c);
  }
}
