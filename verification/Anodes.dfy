/** Allocation of anodes (PFS3lib/anodes.cpp), in split mode: an anode number is an anode block and
    a slot in it. A bitmap in memory says lazily which blocks may have free slots. */
module AnodeAllocation {
  import opened Extents

  const RESERVEDANODES := 6

  /** A slot of an anode block that has been taken but not saved yet. */
  const TAKEN := Anode(0, NOBLOCK, 0)

  datatype AnodeNr = AnodeNr(seqnr: nat, offset: nat)

  type Blocks = map<nat, seq<Anode>>

  /** No slot that new chains may use is free. */
  predicate Full(nodes: seq<Anode>, reserved: nat) {
    forall k :: 0 <= k < reserved && k < |nodes| ==> nodes[k] != FREEANODE
  }

  /** These blocks exist and have no slot free for new chains. */
  ghost predicate AllFull(blocks: Blocks, first: nat, end: nat, reserved: nat) {
    forall s :: first <= s < end ==> s in blocks && Full(blocks[s], reserved)
  }

  /** The flags of these blocks are cleared, the others as they were. */
  ghost predicate FlagsCleared(before: seq<bool>, flags: seq<bool>, first: nat, end: nat) {
    |flags| == |before| && forall s :: 0 <= s < |flags| ==> flags[s] == (before[s] && !(first <= s < end))
  }

  ghost predicate NoneFlagged(flags: seq<bool>, first: nat, end: nat) {
    forall s :: first <= s < end && s < |flags| ==> !flags[s]
  }

  lemma {:induction false} ClearedFlags(before: seq<bool>, flags: seq<bool>, first: nat, end: nat)
    requires FlagsCleared(before, flags, first, end)
    ensures NoneFlagged(flags, first, end)
  {
  }

  lemma {:induction false} LongerFlags(flags: seq<bool>, flags': seq<bool>, first: nat, end: nat)
    requires NoneFlagged(flags, first, end) && flags <= flags' && (end <= |flags| || flags' == flags)
    ensures NoneFlagged(flags', first, end)
  {
  }

  lemma {:induction false} FewerFull(blocks: Blocks, flags: seq<bool>, first: nat, end: nat, reserved: nat)
    requires AllFull(blocks, 0, end, reserved) && NoneFlagged(flags, 0, end)
    ensures AllFull(blocks, first, end, reserved) && NoneFlagged(flags, first, end)
  {
  }

  /** The k-th slot is the first free one, of those that new chains may use. */
  predicate IsFirstFree(nodes: seq<Anode>, k: nat) {
    k < |nodes| - RESERVEDANODES && nodes[k] == FREEANODE && forall j :: 0 <= j < k ==> nodes[j] != FREEANODE
  }

  predicate IsLastFree(nodes: seq<Anode>, k: nat) {
    k < |nodes| && nodes[k] == FREEANODE && forall j :: k < j < |nodes| ==> nodes[j] != FREEANODE
  }

  /** A cleared flag means that the block exists and is full. */
  ghost predicate FlagsOk(flags: seq<bool>, blocks: Blocks, reserved: nat) {
    forall s :: 0 <= s < |flags| && !flags[s] ==> s in blocks && Full(blocks[s], reserved)
  }

  ghost predicate BlocksOk(blocks: Blocks, maxanseqnr: nat, anodesperblock: nat) {
    forall s :: s in blocks ==> s <= maxanseqnr && |blocks[s]| == anodesperblock
  }

  class Anodes {
    const anodesperblock: nat
    const indexperblock: nat
    // the anode blocks that exist, by sequence number
    var blocks: Blocks
    // anblkbitmap, flag by flag
    var anblkbitmap: seq<bool>
    var maxanseqnr: nat
    var curranseqnr: nat

    ghost predicate Valid()
      reads this
    {
      && anodesperblock > RESERVEDANODES && indexperblock > 0
      && |anblkbitmap| % 32 == 0 && maxanseqnr < |anblkbitmap|
      && curranseqnr <= maxanseqnr
      && BlocksOk(blocks, maxanseqnr, anodesperblock)
      && FlagsOk(anblkbitmap, blocks, anodesperblock - RESERVEDANODES)
    }

    /** Starts with every flag set. */
    constructor (blocks: Blocks, maxanseqnr: nat, curranseqnr: nat, anodesperblock: nat, indexperblock: nat)
      requires anodesperblock > RESERVEDANODES && indexperblock > 0 && curranseqnr <= maxanseqnr
      requires BlocksOk(blocks, maxanseqnr, anodesperblock)
      ensures Valid() && this.blocks == blocks && this.anodesperblock == anodesperblock && this.indexperblock == indexperblock
      ensures this.maxanseqnr == maxanseqnr && this.curranseqnr == curranseqnr
      ensures maxanseqnr < |anblkbitmap| <= maxanseqnr + 32 && forall s :: 0 <= s < |anblkbitmap| ==> anblkbitmap[s]
    {
      this.anodesperblock, this.indexperblock := anodesperblock, indexperblock;
      this.blocks, this.maxanseqnr, this.curranseqnr := blocks, maxanseqnr, curranseqnr;
      anblkbitmap := seq(32 * (maxanseqnr / 32 + 1), i => true);
    }

    /** Finds the first free slot among those for new chains. */
    method FirstFree(nodes: seq<Anode>) returns (found: bool, k: nat)
      requires anodesperblock > RESERVEDANODES && |nodes| == anodesperblock
      ensures found ==> IsFirstFree(nodes, k)
      ensures !found ==> Full(nodes, anodesperblock - RESERVEDANODES)
    {
      found, k := false, 0;
      while k < anodesperblock - RESERVEDANODES && !found
        invariant k <= anodesperblock - RESERVEDANODES
        invariant found ==> k > 0 && IsFirstFree(nodes, k - 1)
        invariant !found ==> forall j :: 0 <= j < k ==> nodes[j] != FREEANODE
        decreases anodesperblock - k, !found
      {
        found := nodes[k].size == 0 && nodes[k].blocknr == 0 && nodes[k].next == 0;
        k := k + 1;
      }
      if found { k := k - 1; }
    }

    /** Finds the last free slot of a block, for an anode that continues a chain there. */
    method LastFree(nodes: seq<Anode>) returns (found: bool, k: nat)
      requires |nodes| == anodesperblock
      ensures found ==> IsLastFree(nodes, k)
      ensures !found ==> FREEANODE !in nodes
    {
      var i: int := anodesperblock - 1;
      found := false;
      while i > -1 && !found
        invariant -1 <= i < anodesperblock
        invariant found ==> i + 1 < anodesperblock && IsLastFree(nodes, i + 1)
        invariant !found ==> forall j :: i < j < |nodes| ==> nodes[j] != FREEANODE
      {
        found := nodes[i].size == 0 && nodes[i].blocknr == 0 && nodes[i].next == 0;
        i := i - 1;
      }
      k := i + 1;
    }

    /** Looks through the blocks whose flag is set, from the word of the current block on. Stops at a
        free slot or at a block that does not exist; blocks that turn out to be full lose their flag. */
    method Scan() returns (found: bool, seqnr: nat, k: nat)
      requires Valid()
      modifies this`anblkbitmap
      ensures Valid() && |anblkbitmap| == old(|anblkbitmap|)
      ensures found ==> seqnr in blocks && IsFirstFree(blocks[seqnr], k)
      ensures !found ==> seqnr !in blocks
      ensures AllFull(blocks, FirstSearched(), seqnr, anodesperblock - RESERVEDANODES)
      ensures FlagsCleared(old(anblkbitmap), anblkbitmap, FirstSearched(), seqnr)
      ensures FirstSearched() <= seqnr <= |anblkbitmap|
    {
      var i := curranseqnr / 32;
      found, k := false, 0;
      while i < maxanseqnr / 32 + 1
        invariant curranseqnr / 32 <= i <= maxanseqnr / 32 + 1
        invariant Valid() && |anblkbitmap| == old(|anblkbitmap|) && 32 * (maxanseqnr / 32 + 1) <= |anblkbitmap|
        invariant AllFull(blocks, FirstSearched(), 32 * i, anodesperblock - RESERVEDANODES)
        invariant FlagsCleared(old(anblkbitmap), anblkbitmap, FirstSearched(), 32 * i)
        invariant !found
      {
        var stop;
        stop, found, seqnr, k := ScanWord(i);
        if stop {
          return;
        }
        i := i + 1;
      }
      seqnr := maxanseqnr + 1;
    }

    /** Looks through the 32 blocks of one word of flags. */
    method ScanWord(i: nat) returns (stop: bool, found: bool, seqnr: nat, k: nat)
      requires Valid() && 32 * i + 32 <= |anblkbitmap|
      modifies this`anblkbitmap
      ensures Valid() && |anblkbitmap| == old(|anblkbitmap|)
      ensures stop && found ==> seqnr in blocks && IsFirstFree(blocks[seqnr], k)
      ensures stop && !found ==> seqnr !in blocks
      ensures if stop then 32 * i <= seqnr < 32 * i + 32 else !found
      ensures AllFull(blocks, 32 * i, (if stop then seqnr else 32 * i + 32), anodesperblock - RESERVEDANODES)
      ensures FlagsCleared(old(anblkbitmap), anblkbitmap, 32 * i, if stop then seqnr else 32 * i + 32)
    {
      var field := anblkbitmap[32 * i..32 * i + 32];
      found, seqnr, k := false, 32 * i, 0;
      var j := 31;
      while j >= 0
        invariant -1 <= j <= 31 && !found && Valid() && |anblkbitmap| == old(|anblkbitmap|)
        invariant forall s :: 32 * i + 31 - j <= s < 32 * i + 32 ==> anblkbitmap[s] == field[s - 32 * i]
        invariant AllFull(blocks, 32 * i, 32 * i + 31 - j, anodesperblock - RESERVEDANODES)
        invariant FlagsCleared(old(anblkbitmap), anblkbitmap, 32 * i, 32 * i + 31 - j)
      {
        if field[31 - j] {
          seqnr := 32 * i + 31 - j;
          if seqnr in blocks {
            found, k := FirstFree(blocks[seqnr]);
            if found {
              return true, found, seqnr, k;
            }
            anblkbitmap := anblkbitmap[seqnr := false];
          } else {
            return true, false, seqnr, 0;
          }
        }
        j := j - 1;
      }
      stop := false;
    }

    /** Where the search starts: the first block in the current word of flags. */
    function FirstSearched(): nat
      reads this`curranseqnr
    {
      32 * (curranseqnr / 32)
    }

    /** The block of the anode to connect to has a free slot. */
    predicate OwnBlock(connect: AnodeNr)
      reads this`blocks
    {
      connect != AnodeNr(0, 0) && connect.seqnr in blocks && FREEANODE in blocks[connect.seqnr]
    }

    /** Takes a free slot and marks it as used: the last one of the block of the chain to be connected to,
        if there is one; else the first one of the first block that is not full, from the current word of
        flags on, and then from the first block on. If all blocks before the first missing one are full, that
        one is created; fails exactly if it cannot be had. */
    method AllocAnode(connect: AnodeNr, available: bool) returns (ok: bool, nr: AnodeNr)
      requires Valid()
      modifies this
      ensures Valid()
      ensures ok <==> nr.seqnr in old(blocks) || available
      ensures !ok ==> blocks == old(blocks)
      ensures ok ==> nr.seqnr in blocks && nr.offset < |blocks[nr.seqnr]| && curranseqnr == nr.seqnr
      ensures ok && nr.seqnr in old(blocks) ==>
                && old(blocks)[nr.seqnr][nr.offset] == FREEANODE
                && blocks == old(blocks)[nr.seqnr := old(blocks)[nr.seqnr][nr.offset := TAKEN]]
      ensures ok && nr.seqnr !in old(blocks) ==>
                && nr.offset == 0 && |blocks[nr.seqnr]| == anodesperblock
                && blocks == old(blocks)[nr.seqnr := blocks[nr.seqnr]] && blocks[nr.seqnr][0] == TAKEN
                && forall j :: 0 < j < anodesperblock ==> blocks[nr.seqnr][j] == FREEANODE
      ensures old(OwnBlock(connect)) ==> nr.seqnr == connect.seqnr && IsLastFree(old(blocks)[nr.seqnr], nr.offset)
      ensures !old(OwnBlock(connect)) && nr.seqnr in old(blocks) ==> IsFirstFree(old(blocks)[nr.seqnr], nr.offset)
      ensures !old(OwnBlock(connect)) ==>
                var first := if nr.seqnr in old(blocks) && nr.seqnr >= old(FirstSearched()) then old(FirstSearched()) else 0;
                && AllFull(old(blocks), first, nr.seqnr, anodesperblock - RESERVEDANODES)
                && NoneFlagged(anblkbitmap, first, nr.seqnr)
      decreases if connect != AnodeNr(0, 0) then 2 else if curranseqnr > 0 then 1 else 0
    {
      hide FlagsOk, BlocksOk, AllFull, NoneFlagged, IsFirstFree, IsLastFree;
      var found, seqnr, k;
      if connect != AnodeNr(0, 0) {
        found, seqnr, k := false, connect.seqnr, 0;
        if seqnr in blocks {
          NodesPerBlock(seqnr);
          found, k := LastFree(blocks[seqnr]);
        }
      } else {
        ghost var flags := anblkbitmap;
        found, seqnr, k := Scan();
        ClearedFlags(flags, anblkbitmap, FirstSearched(), seqnr);
      }
      ghost var flags := anblkbitmap;
      if !found {
        if connect != AnodeNr(0, 0) {
          ok, nr := AllocAnode(AnodeNr(0, 0), available);
          return;
        }
        if curranseqnr > 0 {
          ghost var first := FirstSearched();
          curranseqnr := 0;
          ok, nr := AllocAnode(AnodeNr(0, 0), available);
          FewerFull(old(blocks), anblkbitmap, first, nr.seqnr, anodesperblock - RESERVEDANODES);
          return;
        }
        ok := NewAnodeBlock(seqnr, available);
        if !ok {
          return false, AnodeNr(seqnr, 0);
        }
        k := 0;
      }
      ok, nr := true, AnodeNr(seqnr, k);
      if connect == AnodeNr(0, 0) { LongerFlags(flags, anblkbitmap, FirstSearched(), seqnr); }
      Take(nr);
      curranseqnr := seqnr;
    }

    lemma {:induction false} NodesPerBlock(s: nat)
      requires Valid() && s in blocks
      ensures |blocks[s]| == anodesperblock && s <= maxanseqnr
    {
    }

    method Take(nr: AnodeNr)
      requires Valid() && nr.seqnr in blocks && nr.offset < |blocks[nr.seqnr]|
      modifies this`blocks
      ensures Valid() && blocks == old(blocks)[nr.seqnr := old(blocks)[nr.seqnr][nr.offset := TAKEN]]
      ensures nr.seqnr <= maxanseqnr
    {
      blocks := blocks[nr.seqnr := blocks[nr.seqnr][nr.offset := TAKEN]];
    }

    /** Creates an anode block; fails if there is no reserved block for it. */
    method NewAnodeBlock(seqnr: nat, available: bool) returns (ok: bool)
      requires Valid() && seqnr !in blocks
      modifies this`blocks, this`anblkbitmap, this`maxanseqnr
      ensures Valid() && ok == available && old(anblkbitmap) <= anblkbitmap && (!ok ==> anblkbitmap == old(anblkbitmap))
      ensures maxanseqnr == if ok && seqnr > old(maxanseqnr) then seqnr else old(maxanseqnr)
      ensures blocks == if ok then old(blocks)[seqnr := seq(anodesperblock, i => FREEANODE)] else old(blocks)
    {
      ok := available;
      if ok {
        blocks := blocks[seqnr := seq(anodesperblock, i => FREEANODE)];
        ReallocAnodeBitmap(seqnr);
      }
    }

    /** Makes room in the bitmap for a new block; new flags are set. */
    method ReallocAnodeBitmap(newseqnr: nat)
      requires |anblkbitmap| % 32 == 0 && maxanseqnr < |anblkbitmap| && indexperblock > 0
      modifies this`anblkbitmap, this`maxanseqnr
      ensures maxanseqnr == if newseqnr > old(maxanseqnr) then newseqnr else old(maxanseqnr)
      ensures |anblkbitmap| % 32 == 0 && maxanseqnr < |anblkbitmap|
      ensures old(anblkbitmap) <= anblkbitmap
      ensures forall s :: |old(anblkbitmap)| <= s < |anblkbitmap| ==> anblkbitmap[s]
      ensures |anblkbitmap| > |old(anblkbitmap)| ==> |anblkbitmap| < (newseqnr / indexperblock + 1) * indexperblock + 39
    {
      if newseqnr > maxanseqnr {
        maxanseqnr := newseqnr;
        var newsize := ((newseqnr / indexperblock + 1) * indexperblock + 7) / 8;
        Room(newseqnr, newsize);
        if newsize > |anblkbitmap| / 8 {
          newsize := (newsize + 3) / 4 * 4;
          anblkbitmap := anblkbitmap + seq(8 * newsize - |anblkbitmap|, i => true);
        }
      }
    }

    lemma {:induction false} Room(newseqnr: nat, newsize: nat)
      requires indexperblock > 0 && newsize == ((newseqnr / indexperblock + 1) * indexperblock + 7) / 8
      ensures newseqnr < 8 * newsize
    {
      var q := newseqnr / indexperblock;
      assert newseqnr < (q + 1) * indexperblock;
    }

    /** Frees an anode: it becomes zero, unless it is one of the first few, and its block may have
        free slots again. */
    method FreeAnode(nr: AnodeNr)
      requires Valid() && nr.seqnr in blocks && nr.offset < |blocks[nr.seqnr]|
      modifies this`blocks, this`anblkbitmap
      ensures Valid()
      ensures blocks == old(blocks)[nr.seqnr := old(blocks)[nr.seqnr][nr.offset :=
                          if nr.seqnr == 0 && nr.offset < ANODE_USERFIRST then TAKEN else FREEANODE]]
      ensures anblkbitmap == old(anblkbitmap)[nr.seqnr := true]
    {
      var blocknr := if nr.seqnr == 0 && nr.offset < ANODE_USERFIRST then NOBLOCK else 0;
      blocks := blocks[nr.seqnr := blocks[nr.seqnr][nr.offset := Anode(0, blocknr, 0)]];
      anblkbitmap := anblkbitmap[nr.seqnr := true];
    }
  }

  // ---------------------------------------------------------------------
  // Taking an anode out of a chain

  lemma {:induction false} FlatSum(c: Chain, d: Chain)
    ensures Flat(c + d) == Flat(c) + Flat(d)
  {
    if d == [] {
      assert c + d == c;
    } else {
      FlatSum(c, d[..|d| - 1]);
      assert (c + d)[..|c + d| - 1] == c + d[..|d| - 1];
    }
  }

  lemma {:induction false} FlatOne(n: Node)
    ensures Flat([n]) == Run(n.blocknr, n.size)
  {
    assert [n][..0] == [];
  }

  /** The chain without its k-th anode; if that is the head, the next one moves there. */
  function Without(c: Chain, k: nat): Chain
    requires k < |c| && |c| > 1
  {
    if k > 0 then c[..k - 1] + [c[k - 1].(next := c[k].next)] + c[k + 1..]
    else [c[1].(nr := c[0].nr)] + c[2..]
  }

  /** Exactly the blocks of the k-th anode are gone from the file. */
  lemma {:induction false} WithoutFlat(c: Chain, k: nat)
    requires k < |c| && |c| > 1
    ensures Flat(Without(c, k)) == Flat(c[..k]) + Flat(c[k + 1..])
  {
    if k > 0 {
      var n := c[k - 1].(next := c[k].next);
      FlatSum(c[..k - 1] + [n], c[k + 1..]);
      FlatSum(c[..k - 1], [n]);
      FlatSum(c[..k - 1], [c[k - 1]]);
      FlatOne(n);
      FlatOne(c[k - 1]);
      assert c[..k] == c[..k - 1] + [c[k - 1]];
    } else {
      var n := c[1].(nr := c[0].nr);
      FlatSum([n], c[2..]);
      FlatSum([c[1]], c[2..]);
      FlatOne(n);
      FlatOne(c[1]);
      assert c[1..] == [c[1]] + c[2..] && c[..0] == [];
    }
  }

  /** Removes the k-th anode from a chain on the anode table. */
  method RemoveFromAnodeChain(t: Table, anode: Node, previous: nat, head: nat, ghost c: Chain, ghost k: nat) returns (t': Table)
    requires OnTable(t, c) && k < |c| && anode == c[k] && head == c[0].nr != 0
    requires previous == if k > 0 then c[k - 1].nr else 0
    ensures if |c| == 1 then Returned(t', head)
            else
              && OnTable(t', Without(c, k)) && Flat(Without(c, k)) == Flat(c[..k]) + Flat(c[k + 1..])
              && Without(c, k)[0].nr == head && Returned(t', if k > 0 then c[k].nr else c[1].nr)
    ensures forall nr :: nr in t && (forall j :: 0 <= j < |c| ==> c[j].nr != nr) ==> nr in t' && t'[nr] == t[nr]
  {
    hide OnTable, Flat, Without;
    if |c| > 1 { WithoutFlat(c, k); }
    OnlyChain(t, c, k);
    if previous != 0 {
      t' := t[previous := t[previous].(next := anode.next)];
      t' := t'[anode.nr := Cleared(anode.nr)];
      RemovedLater(t, c, k, t');
    } else if anode.next != 0 {
      t' := t[head := t[anode.next]];
      t' := t'[anode.next := Cleared(anode.next)];
      RemovedHead(t, c, t');
    } else {
      t' := t[head := Cleared(head)];
    }
  }

  /** What the table says about the k-th anode and its neighbours. */
  lemma {:induction false} OnlyChain(t: Table, c: Chain, k: nat)
    requires OnTable(t, c) && k < |c| && c[0].nr != 0
    ensures |c| > 0 && c[k].nr in t && c[0].nr in t && t[c[k].nr] == Stored(c[k])
    ensures k > 0 ==> c[k - 1].nr in t && c[k - 1].nr != 0 && t[c[k - 1].nr] == Stored(c[k - 1])
    ensures k + 1 < |c| ==> c[k].next == c[k + 1].nr != 0 && c[k + 1].nr in t && t[c[k + 1].nr] == Stored(c[k + 1])
    ensures k + 1 == |c| ==> c[k].next == 0
    ensures |c| > 1 ==> Without(c, k)[0].nr == c[0].nr
  {
  }

  lemma {:induction false} WithoutAt(c: Chain, k: nat, j: nat)
    requires 0 < k < |c| && j < |c| - 1
    ensures |Without(c, k)| == |c| - 1
    ensures Without(c, k)[j] == if j < k - 1 then c[j] else if j == k - 1 then c[k - 1].(next := c[k].next) else c[j + 1]
  {
  }

  lemma {:induction false} RemovedLater(t: Table, c: Chain, k: nat, t': Table)
    requires OnTable(t, c) && 0 < k < |c|
    requires t' == t[c[k - 1].nr := Stored(c[k - 1]).(next := c[k].next)][c[k].nr := Cleared(c[k].nr)]
    ensures OnTable(t', Without(c, k))
  {
    hide Without;
    var d := Without(c, k);
    WithoutAt(c, k, 0);
    assert Linked(d) by { LinkedWithout(c, k); }
    WithoutAt(c, k, |c| - 2);
    forall j | 0 <= j < |d|
      ensures d[j].nr in t' && t'[d[j].nr] == Stored(d[j])
    {
      WithoutAt(c, k, j);
      assert j < k ==> c[j].nr != c[k].nr;
      assert j < k - 1 ==> c[j].nr != c[k - 1].nr;
      assert j >= k ==> c[k].nr != c[j + 1].nr && c[k - 1].nr != c[j + 1].nr;
    }
  }

  lemma {:induction false} LinkedWithout(c: Chain, k: nat)
    requires Linked(c) && 0 < k < |c|
    ensures Linked(Without(c, k))
  {
    hide Without;
    var d := Without(c, k);
    WithoutAt(c, k, 0);
    forall j | 0 <= j < |d| - 1
      ensures d[j].next == d[j + 1].nr
    {
      WithoutAt(c, k, j);
      WithoutAt(c, k, j + 1);
    }
    forall j | 1 <= j < |d|
      ensures d[j].nr != 0 && d[j].size > 0
    {
      WithoutAt(c, k, j);
    }
    forall i, j | 0 <= i < j < |d|
      ensures d[i].nr != d[j].nr
    {
      WithoutAt(c, k, i);
      WithoutAt(c, k, j);
      assert c[if i < k then i else i + 1].nr != c[if j < k then j else j + 1].nr;
    }
  }

  lemma {:induction false} RemovedHead(t: Table, c: Chain, t': Table)
    requires OnTable(t, c) && |c| > 1
    requires t' == t[c[0].nr := Stored(c[1])][c[1].nr := Cleared(c[1].nr)]
    ensures OnTable(t', Without(c, 0))
  {
    var d := Without(c, 0);
    forall j | 0 <= j < |d|
      ensures d[j] == if j == 0 then c[1].(nr := c[0].nr) else c[j + 1]
    {
    }
  }
}
