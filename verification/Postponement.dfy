/** Freeing blocks in committed steps: what a commit leaves on disk, what a mount makes of it,
    and what each round of the free loop keeps (PFS3lib/allocation.cpp, PFS3lib/init.cpp). */
module Postponement {
  import opened Extents
  import opened Bitmaps
  import opened Ledger

  const TBF_CACHE_SIZE: nat := 256

  datatype FreeType = KeepAnodes | FreeAnodes

  /** The tobedone record of the root block extension. */
  datatype Postponed =
    | Nothing
    | FreeBlocksFree(head: nat, size: nat)
    | FreeBlocksKeep(head: nat, size: nat, blocksdone: nat)
    | FreeAnodeChain(head: nat)

  /** What one commit leaves on disk. */
  datatype Disk = Disk(anodes: Table, bits: Bits, blocksfree: int, todo: Postponed)

  /** The table after clearing every anode of a chain, head first. */
  function ClearChain(t: Table, c: Chain): Table
    decreases |c|
  {
    if c == [] then t else ClearChain(t[c[0].nr := Cleared(c[0].nr)], c[1..])
  }

  /** The state in which the operation recorded on disk is complete; c is the chain it names. */
  function Complete(d: Disk, c: Chain, start: nat): Disk
    requires |c| > 0
  {
    match d.todo
    case Nothing => d
    case FreeBlocksFree(_, size) =>
      Disk(TruncTable(d.anodes, c, size), Mark(d.bits, start, TailBlocks(c, size)),
           d.blocksfree + TailCount(c, size), Nothing)
    case FreeBlocksKeep(_, size, done) =>
      Disk(d.anodes, Mark(d.bits, start, TailBlocks(c, size)),
           d.blocksfree - done + TailCount(c, size), Nothing)
    case FreeAnodeChain(_) =>
      Disk(ClearChain(d.anodes, c), d.bits, d.blocksfree, Nothing)
  }

  /** The anodes of the chain from the k-th on are free to be handed out again, and others are as they were. */
  ghost predicate FreedFrom(t: Table, t': Table, c: Chain, k: nat) {
    && (forall j :: k <= j < |c| ==> Returned(t', c[j].nr))
    && forall nr :: (forall j :: 0 <= j < |c| ==> c[j].nr != nr) ==> (nr in t' <==> nr in t) && (nr in t ==> t'[nr] == t[nr])
  }

  /** What freeing `size` blocks does to a volume: live, the chain that remains, keeps the leading blocks, on the
      same anodes; the other anodes of the chain are free again, unless anodes are kept; the trailing
      blocks are free and counted; all else is as it was. */
  ghost predicate Freed(d: Disk, out: Disk, start: nat, c: Chain, live: Chain, size: nat, freetype: FreeType) {
    var f, kept := Flat(c), if size < |Flat(c)| then |Flat(c)| - size else 0;
    && |out.bits| == |d.bits| && (forall i :: 0 <= i < |d.bits| ==> (out.bits[i] <==> d.bits[i] || start + i in f[kept..]))
    && out.blocksfree == d.blocksfree + |f| - kept && out.todo == Nothing
    && Flat(live) == f[..kept]
    && if freetype == KeepAnodes then out.anodes == d.anodes
       else
         && 0 < |live| <= |c| && OnTable(out.anodes, live)
         && (forall k :: 0 <= k < |live| ==> live[k].nr == c[k].nr)
         && FreedFrom(d.anodes, out.anodes, c, |live|)
  }

  /** The completed state of a free is that. */
  lemma {:induction false} CompleteFrees(d: Disk, start: nat, c: Chain, live: Chain, size: nat, freetype: FreeType)
    requires OnTable(d.anodes, c) && Flat(live) == Flat(Trunc(c, size)) && (freetype == FreeAnodes ==> live == Trunc(c, size))
    ensures Freed(d, Complete(d.(todo := Record(c, size, freetype)), c, start), start, c, live, size, freetype)
  {
    hide Flat, Trunc, TruncTable, TailBlocks, OnTable, BlockCount;
    ChainHead(d.anodes, c);
    TailMembers(c, size);
    TruncFlat(c, size);
    if freetype == FreeAnodes {
      TruncNumbers(c, size);
      TruncOnTable(d.anodes, c, size) by { WithTail(d.anodes, c); }
      TruncEmpties(d.anodes, c, size);
    }
  }

  lemma {:induction false} WithTail(t: Table, c: Chain)
    requires OnTable(t, c)
    ensures OnTableButTail(t, c)
  {
  }

  lemma {:induction false} TailMembers(c: Chain, size: nat)
    ensures forall b :: b in TailBlocks(c, size) <==> b in Flat(c)[|Flat(c)| - TailCount(c, size)..]
  {
    hide Flat, TailBlocks, BlockCount;
    TailBlocksFlat(c, size);
  }

  lemma {:induction false} TruncEmpties(t: Table, c: Chain, size: nat)
    requires OnTable(t, c)
    ensures FreedFrom(t, TruncTable(t, c, size), c, |Trunc(c, size)|)
  {
    hide Trunc, TruncTable, Returned;
    forall j | |Trunc(c, size)| <= j < |c|
      ensures Returned(TruncTable(t, c, size), c[j].nr)
    {
      TruncClears(t, c, size, j);
    }
    var r := TruncTable(t, c, size);
    forall nr | forall j :: 0 <= j < |c| ==> c[j].nr != nr
      ensures (nr in r <==> nr in t) && (nr in t ==> r[nr] == t[nr])
    {
      TruncOthers(t, c, size, nr);
    }
  }

  ghost predicate Apart(c: Chain) {
    forall i, j :: 0 <= i < j < |c| ==> c[i].nr != c[j].nr
  }

  lemma {:induction false} ClearNone(t: Table)
    ensures ClearChain(t, []) == t
  {
  }

  /** Clearing a chain frees all its anodes and touches no other. */
  lemma {:induction false} ClearChainFrees(t: Table, c: Chain)
    requires OnTable(t, c)
    ensures FreedFrom(t, ClearChain(t, c), c, 0)
  {
    hide ClearChain, FreedFrom;
    assert Apart(c);
    ClearChainEmpties(t, c);
  }

  lemma {:induction false} ClearChainEmpties(t: Table, c: Chain)
    requires Apart(c)
    ensures FreedFrom(t, ClearChain(t, c), c, 0)
    decreases |c|
  {
    if c != [] {
      var t1, rest, r := t[c[0].nr := Cleared(c[0].nr)], c[1..], ClearChain(t, c);
      ClearChainEmpties(t1, rest);
      assert forall j :: 0 <= j < |rest| ==> rest[j] == c[j + 1];
      assert (c[0].nr in r <==> c[0].nr in t1) && r[c[0].nr] == t1[c[0].nr];
      forall j | 0 <= j < |c| ensures Returned(r, c[j].nr) { assert j > 0 ==> c[j] == rest[j - 1]; }
      forall nr | forall j :: 0 <= j < |c| ==> c[j].nr != nr
        ensures (nr in r <==> nr in t) && (nr in t ==> r[nr] == t[nr])
      {
        assert c[0].nr != nr;
        assert forall j :: 0 <= j < |rest| ==> rest[j].nr != nr;
      }
    }
  }

  /** Every run of the chain lies in [start, start + n). */
  ghost predicate Inside(c: Chain, start: nat, n: nat) {
    forall k :: 0 <= k < |c| ==> c[k].size > 0 ==> start <= c[k].blocknr && c[k].blocknr + c[k].size <= start + n
  }

  /** c is the chain the recorded operation works on. */
  ghost predicate Names(d: Disk, c: Chain, start: nat) {
    && |c| > 0
    && (d.todo != Nothing ==> OnTable(d.anodes, c) && c[0].nr == d.todo.head)
    && (d.todo.FreeBlocksFree? || d.todo.FreeBlocksKeep? ==> Inside(c, start, |d.bits|))
    && (d.todo.FreeAnodeChain? ==> d.todo.head != 0)
  }

  /** A mount of d, with its postponed operation done, gives out. */
  ghost predicate CompletesTo(d: Disk, start: nat, out: Disk) {
    exists c :: Names(d, c, start) && Complete(d, c, start) == out
  }

  /** The record FreeBlocksAC stores before it starts. */
  function Record(c: Chain, size: nat, freetype: FreeType): Postponed
    requires |c| > 0
  {
    if freetype == FreeAnodes then FreeBlocksFree(c[0].nr, size) else FreeBlocksKeep(c[0].nr, size, 0)
  }

  lemma {:induction false} TruncAllocatable(c: Chain, size: nat, start: nat, n: nat)
    requires |c| > 0 && Allocatable(c) && Inside(c, start, n)
    ensures Allocatable(Trunc(c, size)) && Inside(Trunc(c, size), start, n)
    decreases |c|
  {
    if !(size == 0 || size < Last(c).size || |c| == 1) {
      TruncAllocatable(c[..|c| - 1], size - Last(c).size, start, n);
    }
  }

  /** A chain whose last anode grows by one block, or gets its first. */
  lemma {:induction false} GrownLast(t: Table, c: Chain, b: nat, start: nat, n: nat)
    requires |c| > 0 && Open(t, c) && Allocatable(c) && Inside(c, start, n)
    requires 0 < start <= b < start + n && b < NOBLOCK
    ensures var m := Last(c);
            if m.blocknr == NOBLOCK then m.size == 0 &&
              var g := c[|c| - 1 := Node(m.nr, b, 1, 0)]; Open(t, g) && Allocatable(g) && Inside(g, start, n)
            else m.blocknr + m.size == b ==>
              var g := c[|c| - 1 := m.(size := m.size + 1)]; Open(t, g) && Allocatable(g) && Inside(g, start, n)
  {
  }

  /** A chain that gets a new last anode. */
  lemma {:induction false} GrownNew(t: Table, c: Chain, b: nat, nr: nat, start: nat, n: nat)
    requires |c| > 0 && Open(t, c) && Allocatable(c) && Inside(c, start, n) && Last(c).blocknr != NOBLOCK
    requires 0 < start <= b < start + n && b < NOBLOCK
    requires nr != 0 && (nr !in t || t[nr] == FREEANODE)
    ensures var m := Last(c).(next := nr);
            var g := c[|c| - 1 := m] + [Node(nr, b, 1, 0)];
            Open(t[nr := Anode(0, NOBLOCK, 0)][m.nr := Stored(m)], g) && Allocatable(g) && Inside(g, start, n)
  {
    var m := Last(c).(next := nr);
    var g := c[|c| - 1 := m] + [Node(nr, b, 1, 0)];
    assert forall k :: 0 <= k < |c| - 1 ==> g[k] == c[k];
    assert forall k :: 0 <= k < |c| ==> g[k].nr == c[k].nr != nr;
  }

  lemma {:induction false} TailBlocksInside(c: Chain, size: nat, start: nat, n: nat)
    requires Inside(c, start, n)
    ensures forall b :: b in TailBlocks(c, size) ==> start <= b < start + n
    decreases |c|
  {
    if c != [] && size > 0 && size >= Last(c).size {
      TailBlocksInside(c[..|c| - 1], size - Last(c).size, start, n);
    }
  }

  ghost predicate PendingInside(p: seq<Extent>, start: nat, n: nat) {
    forall k :: 0 <= k < |p| ==> start <= p[k].blocknr && p[k].blocknr + p[k].size <= start + n
  }

  lemma {:induction false} ChainHead(t: Table, c: Chain)
    requires OnTable(t, c)
    ensures |c| > 0 && c[0].nr in t && t[c[0].nr] == Stored(c[0])
  {
  }

  /** Clearing the head leaves the rest of the chain as it was. */
  lemma {:induction false} ClearHead(t: Table, c: Chain)
    requires OnTable(t, c)
    ensures var t' := t[c[0].nr := Cleared(c[0].nr)];
            ClearChain(t, c) == ClearChain(t', c[1..]) &&
            if c[0].next == 0 then c[1..] == [] else c[1..] != [] && OnTable(t', c[1..]) && c[1].nr == c[0].next
  {
    if |c| > 1 { NextNonzero(c, 0); }
  }

  lemma {:induction false} CommitClearCompletes(d: Disk, start: nat, rest: Chain, fin: Disk)
    requires OnTable(d.anodes, rest) && rest[0].nr != 0 && d.todo == FreeAnodeChain(rest[0].nr)
    requires fin == Disk(ClearChain(d.anodes, rest), d.bits, d.blocksfree, Nothing)
    ensures CompletesTo(d, start, fin)
  {
    assert Names(d, rest, start);
    assert Complete(d, rest, start) == fin;
  }

  /** What a disk completes to is determined by the disk alone. */
  lemma {:induction false} CompleteUnique(d: Disk, start: nat, a: Disk, b: Disk)
    requires CompletesTo(d, start, a) && CompletesTo(d, start, b)
    ensures a == b
  {
    hide TailBlocks, TailCount, TruncTable, OnTable;
    var c :| Names(d, c, start) && Complete(d, c, start) == a;
    var e :| Names(d, e, start) && Complete(d, e, start) == b;
    if d.todo != Nothing {
      ChainUnique(d.anodes, c, e);
    }
  }

  lemma {:induction false} MountedSnapshot(bits: Bits, start: nat)
    ensures Mark(bits, start, PendingSet([])) == bits && PendingCount([]) == 0
  {
  }

  lemma {:induction false} StartFree(snap: Disk, bits: Bits, start: nat, p: seq<Extent>, free: int, achain: Chain, size0: nat,
                  freetype: FreeType, fin: Disk)
    requires OnTable(snap.anodes, achain) && Inside(achain, start, |bits|) && PendingInside(p, start, |bits|)
    requires snap.bits == Mark(bits, start, PendingSet(p)) && snap.blocksfree == free
    requires snap.todo == Record(achain, size0, freetype)
    requires fin == Complete(snap, achain, start)
    ensures ChainToGo(snap.anodes, achain, size0, false, freetype, fin, Trunc(achain, size0))
    ensures BlocksToGo(bits, start, p, free, achain, size0, fin)
    ensures Repeatable(bits, start, p, achain, size0, TailCount(achain, size0), fin)
    ensures CompletesTo(snap, start, fin) && fin.todo == Nothing && |fin.bits| == |bits|
  {
    hide TailBlocks, TailCount, Trunc, TruncTable;
    MarkMark(bits, start, PendingSet(p), TailBlocks(achain, size0));
    assert Names(snap, achain, start);
  }

  lemma {:induction false} LedgerUnique(bits: Bits, start: nat, end: nat, p: seq<Extent>, clean: int, flat: seq<nat>)
    ensures forall ledger :: Balanced(bits, start, end, p, clean, flat, ledger) ==> ledger == LedgerOf(bits, start, end, p, flat)
  {
  }

  lemma {:induction false} RoundBalanced(bits: Bits, start: nat, end: nat, p: seq<Extent>, clean: int, live: Chain, size: nat,
                      rest: Chain, left: nat, ledger: multiset<nat>)
    requires |live| > 0 && size > 0 && TookLast(live, size, rest, left) && left <= size && size - left <= Last(live).size
    requires Balanced(bits, start, end, p, clean, Flat(live), ledger)
    ensures Balanced(bits, start, end, Queued(p, live, size - left), clean, Flat(rest), ledger)
  {
    hide Balanced, Flat;
    var freeing := size - left;
    var e := Extent(Last(live).blocknr + Last(live).size - freeing, freeing);
    RoundFlat(live, size, rest, left);
    if freeing > 0 {
      QueueBalanced(bits, start, end, p, clean, Flat(rest), e, ledger);
    } else {
      assert Flat(live) == Flat(rest);
    }
  }

  /** One round takes the last `size - left` blocks off the file. */
  lemma {:induction false} RoundFlat(live: Chain, size: nat, rest: Chain, left: nat)
    requires |live| > 0 && size > 0 && TookLast(live, size, rest, left) && left <= size && size - left <= Last(live).size
    ensures Flat(live) == Flat(rest) + Run(Last(live).blocknr + Last(live).size - (size - left), size - left)
  {
    var n := Last(live);
    if n.size > size {
      assert rest[..|rest| - 1] == live[..|live| - 1];
      assert Run(n.blocknr, n.size) == Run(n.blocknr, n.size - size) + Run(n.blocknr + n.size - size, size);
    } else if |live| == 1 {
      TailOfEmptyHead(rest[0], left);
      assert live[..0] == [] && rest == [rest[0]];
    }
  }

  lemma {:induction false} RoundRepeatable(bits: Bits, start: nat, p: seq<Extent>, q: seq<Extent>, free: int, rest: Chain, left: nat,
                        achain: Chain, size0: nat, count: int, fin: Disk)
    requires Repeatable(bits, start, p, achain, size0, count, fin)
    requires BlocksToGo(bits, start, q, free, rest, left, fin)
    requires PendingSet(p) <= PendingSet(q)
    ensures Repeatable(bits, start, q, achain, size0, count, fin)
  {
    hide TailBlocks, TailCount, PendingSet, Mark;
    MarkAbsorb(bits, start, PendingSet(p), PendingSet(q), TailBlocks(achain, size0), TailBlocks(rest, left));
  }

  lemma {:induction false} EndFree(t: Table, bits: Bits, start: nat, p: seq<Extent>, free: int, live: Chain, size: nat, empty: bool,
                freetype: FreeType, fin: Disk, finChain: Chain)
    requires ChainToGo(t, live, size, empty, freetype, fin, finChain)
    requires BlocksToGo(bits, start, p, free, live, size, fin)
    requires size == 0 || empty
    ensures Mark(bits, start, PendingSet(p)) == fin.bits && free == fin.blocksfree
    ensures freetype == KeepAnodes ==> t == fin.anodes
    ensures freetype == FreeAnodes ==>
              if empty then |live| == 1 && fin.anodes == t[live[0].nr := Stored(EmptyHead(live[0].nr))]
              else OnTableButTail(t, live) && fin.anodes == TruncTable(t, live, 0)
    ensures finChain == if empty then [EmptyHead(live[0].nr)] else Trunc(live, 0)
    ensures Flat(live) == Flat(finChain)
  {
    hide TruncTable, Mark, PendingSet;
    if empty {
      TailOfEmptyHead(live[0], size);
      TailOfEmptyHead(finChain[0], size);
      assert live == [live[0]];
    } else {
      CutKeeps(live, 0);
    }
    assert TailBlocks(live, size) == {} && TailCount(live, size) == 0;
    assert PendingSet(p) + {} == PendingSet(p);
  }

  /** Where the chain of an unfinished free stands: freeing `size` more blocks of `live` gives
      finChain, and in FreeAnodes mode the anode table of fin. */
  ghost predicate ChainToGo(t: Table, live: Chain, size: nat, empty: bool, freetype: FreeType, fin: Disk, finChain: Chain) {
    && |live| > 0
    && (freetype == KeepAnodes ==> t == fin.anodes)
    && if empty then
         && |live| == 1 && live[0].size == 0
         && finChain == [EmptyHead(live[0].nr)]
         && (freetype == FreeAnodes ==> fin.anodes == t[live[0].nr := Stored(EmptyHead(live[0].nr))])
       else
         && Trunc(live, size) == finChain
         && (freetype == FreeAnodes ==> OnTableButTail(t, live) && TruncTable(t, live, size) == fin.anodes)
  }

  /** Where the bitmap and the free count stand: once the pending runs and `size` more blocks of
      `live` are free, they are those of fin. */
  ghost predicate BlocksToGo(bits: Bits, start: nat, p: seq<Extent>, free: int, live: Chain, size: nat, fin: Disk) {
    && Inside(live, start, |bits|)
    && PendingInside(p, start, |bits|)
    && Mark(bits, start, PendingSet(p) + TailBlocks(live, size)) == fin.bits
    && free + TailCount(live, size) == fin.blocksfree
  }

  /** Freeing the whole tail of achain, whatever part of it is free already, gives the bitmap of fin. */
  ghost predicate Repeatable(bits: Bits, start: nat, p: seq<Extent>, achain: Chain, size0: nat, count: int, fin: Disk) {
    && Mark(bits, start, PendingSet(p) + TailBlocks(achain, size0)) == fin.bits
    && count == TailCount(achain, size0)
  }

  lemma {:induction false} RestorePre(t: Table, live: Chain, size: nat, empty: bool, fin: Disk, finChain: Chain)
    requires ChainToGo(t, live, size, empty, FreeAnodes, fin, finChain)
    ensures if empty then |live| == 1 else OnTableButTail(t, live)
  {
  }

  lemma {:induction false} RestoredToGo(t: Table, live: Chain, size: nat, empty: bool, fin: Disk, finChain: Chain, t': Table, rest: Chain)
    requires ChainToGo(t, live, size, empty, FreeAnodes, fin, finChain)
    requires if empty then rest == [EmptyHead(live[0].nr)] && t' == t[live[0].nr := Stored(EmptyHead(live[0].nr))]
             else rest == Trunc(live, 0) && t' == TruncTable(t, live, 0)
    ensures ChainToGo(t', rest, size, empty, FreeAnodes, fin, finChain)
    ensures |rest| == |live| && rest[0].nr == live[0].nr && OnTable(t', rest)
  {
    hide TruncTable;
    if !empty {
      TruncTwice(live, 0, size);
      TruncTableTwice(t, live, 0, size);
      TruncOnTable(t, live, 0);
    }
  }

  lemma {:induction false} RestoredBlocks(bits: Bits, start: nat, p: seq<Extent>, free: int, live: Chain, size: nat, fin: Disk,
                       rest: Chain, empty: bool)
    requires |live| > 0 && BlocksToGo(bits, start, p, free, live, size, fin)
    requires if empty then |live| == 1 && live[0].size == 0 && rest == [EmptyHead(live[0].nr)] else rest == Trunc(live, 0)
    ensures BlocksToGo(bits, start, p, free, rest, size, fin)
    ensures TailCount(rest, size) == TailCount(live, size) && Flat(rest) == Flat(live)
  {
    if empty {
      assert live == [live[0]];
      TailOfEmptyHead(live[0], size);
      TailOfEmptyHead(rest[0], size);
    } else {
      CutKeeps(live, size);
    }
  }

  /** A commit turns pending runs into free blocks and changes nothing else. */
  lemma {:induction false} CommittedBlocks(bits: Bits, start: nat, p: seq<Extent>, free: int, live: Chain, size: nat, fin: Disk,
                        achain: Chain, size0: nat, done: int)
    requires BlocksToGo(bits, start, p, free, live, size, fin)
    requires Repeatable(bits, start, p, achain, size0, done + TailCount(live, size), fin)
    ensures BlocksToGo(Mark(bits, start, PendingSet(p)), start, [], free, live, size, fin)
    ensures Repeatable(Mark(bits, start, PendingSet(p)), start, [], achain, size0, done + TailCount(live, size), fin)
  {
    hide TailBlocks, TailCount;
    MarkMark(bits, start, PendingSet(p), TailBlocks(live, size));
    MarkMark(bits, start, PendingSet(p), TailBlocks(achain, size0));
    assert PendingSet([]) + TailBlocks(live, size) == TailBlocks(live, size);
    assert PendingSet([]) + TailBlocks(achain, size0) == TailBlocks(achain, size0);
  }

  /** The commit of a FreeAnodes run: the remaining chain, with the remaining size. */
  lemma {:induction false} CommitFreeCompletes(d: Disk, start: nat, rest: Chain, size: nat, empty: bool, fin: Disk, finChain: Chain)
    requires OnTable(d.anodes, rest) && ChainToGo(d.anodes, rest, size, empty, FreeAnodes, fin, finChain)
    requires empty ==> rest == [EmptyHead(rest[0].nr)]
    requires BlocksToGo(d.bits, start, [], d.blocksfree, rest, size, fin)
    requires d.todo == FreeBlocksFree(rest[0].nr, size) && fin.todo == Nothing
    ensures CompletesTo(d, start, fin)
  {
    hide TailBlocks, TailCount;
    assert PendingSet([]) + TailBlocks(rest, size) == TailBlocks(rest, size);
    assert Names(d, rest, start);
    if empty {
      assert TruncTable(d.anodes, rest, size) == fin.anodes;
    }
    assert Complete(d, rest, start) == fin;
  }

  /** The commit of a KeepAnodes run: the whole operation, with the blocks already counted. */
  lemma {:induction false} CommitKeepCompletes(d: Disk, start: nat, rest: Chain, size: nat, achain: Chain, size0: nat, done: nat,
                            fin: Disk, finChain: Chain, empty: bool)
    requires OnTable(d.anodes, achain) && ChainToGo(d.anodes, rest, size, empty, KeepAnodes, fin, finChain)
    requires BlocksToGo(d.bits, start, [], d.blocksfree, rest, size, fin)
    requires Repeatable(d.bits, start, [], achain, size0, done + TailCount(rest, size), fin)
    requires Inside(achain, start, |d.bits|)
    requires d.todo == FreeBlocksKeep(achain[0].nr, size0, done) && fin.todo == Nothing
    ensures CompletesTo(d, start, fin)
  {
    hide TailBlocks, TailCount, Trunc;
    assert PendingSet([]) + TailBlocks(achain, size0) == TailBlocks(achain, size0);
    assert Names(d, achain, start);
    assert Complete(d, achain, start) == fin;
  }

  function Queued(p: seq<Extent>, live: Chain, freeing: nat): seq<Extent>
    requires |live| > 0 && freeing <= Last(live).size
  {
    if freeing == 0 then p else p + [Extent(Last(live).blocknr + Last(live).size - freeing, freeing)]
  }

  /** rest and left are live and size after one round of the free loop. */
  ghost predicate TookLast(live: Chain, size: nat, rest: Chain, left: nat)
    requires |live| > 0
  {
    var n := Last(live);
    if n.size > size then rest == Trunc(live, size) && left == 0
    else left == size - n.size && rest == if |live| == 1 then [n.(size := 0)] else live[..|live| - 1]
  }

  lemma {:induction false} StepInside(live: Chain, size: nat, rest: Chain, left: nat, start: nat, n: nat)
    requires |live| > 0 && size > 0 && TookLast(live, size, rest, left) && Inside(live, start, n)
    ensures Inside(rest, start, n)
    ensures size - left > 0 ==> start <= Last(live).blocknr && Last(live).blocknr + Last(live).size <= start + n
    ensures 0 <= size - left <= Last(live).size
  {
  }

  lemma {:induction false} TruncOnce(t: Table, live: Chain, size: nat)
    requires |live| > 0 && size > 0
    ensures var n := Last(live);
            if n.size > size then
              && Trunc(live, size) == live[|live| - 1 := n.(size := n.size - size, next := 0)]
              && TruncTable(t, live, size) == t[n.nr := Anode(n.size - size, n.blocknr, 0)]
            else if |live| == 1 then
              && Trunc(live, size) == [EmptyHead(n.nr)]
              && TruncTable(t, live, size) == t[n.nr := Stored(EmptyHead(n.nr))]
            else
              && Trunc(live, size) == Trunc(live[..|live| - 1], size - n.size)
              && TruncTable(t, live, size) == TruncTable(t[n.nr := Cleared(n.nr)], live[..|live| - 1], size - n.size)
  {
  }

  lemma {:induction false} DropOnTable(t: Table, c: Chain)
    requires |c| > 1 && OnTableButTail(t, c)
    ensures OnTableButTail(t[Last(c).nr := Cleared(Last(c).nr)], c[..|c| - 1])
  {
    var d := c[..|c| - 1];
    assert t[Last(d).nr] == Stored(Last(d));
    assert forall k :: 0 <= k < |d| ==> d[k].nr != Last(c).nr;
  }

  /** What one round frees, and what it leaves to free. */
  lemma {:induction false} StepBlocks(live: Chain, size: nat, rest: Chain, left: nat)
    requires |live| > 0 && size > 0
    requires TookLast(live, size, rest, left)
    ensures var n := Last(live);
            var freeing := size - left;
            && TailBlocks(live, size) == RunSet(n.blocknr + n.size - freeing, freeing) + TailBlocks(rest, left)
            && TailCount(live, size) == freeing + TailCount(rest, left)
  {
    FreeStep(live, size);
    if |live| == 1 && Last(live).size <= size {
      TailOfEmptyHead(rest[0], left);
      TailOfNothing(left);
    }
  }
}
