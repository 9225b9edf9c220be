/** Reading, writing and seeking in an open file (PFS3lib/disk.cpp). */
module Files {
  import opened Extents
  import opened DataCaches
  import opened Positions
  import opened Contents
  import opened Ledger
  import opened Stores

  /** From this many blocks on, whole blocks go to disk straight from the caller's buffer. */
  const DIRECTSIZE: Positive

  /** The cache works, and the blocks of the chain are different blocks of the disk. */
  ghost predicate Ready(cache: DataCache, c: Chain)
    reads cache, cache.blocknr, cache.dirty, cache.data
  {
    && cache.Valid() && |c| > 0
    && |cache.view| == |cache.disk|
    && OnDisk(cache.view, Flat(c)) && Distinct(Flat(c))
  }

  ghost function FileBytes(cache: DataCache, c: Chain): seq<bv8>
    requires OnDisk(cache.view, Flat(c))
    reads cache
  {
    BytesOf(cache.view, Flat(c))
  }

  /** The blocks of a run that starts at a position. */
  lemma {:induction false} RunAt(v: seq<Block>, c: Chain, k: nat, a: nat, t: nat)
    requires OnDisk(v, Flat(c)) && k < |c| && 0 < t && a + t <= c[k].size
    ensures var p, b := BlockIndex(c, k, a), c[k].blocknr + a;
            && Consecutive(Flat(c), p, b, t) && 0 < b && b + t <= |v|
  {
    FlatRun(c, k, a, t);
    var p, b := BlockIndex(c, k, a), c[k].blocknr + a;
    assert Flat(c)[p] == b && Flat(c)[p + t - 1] == b + (t - 1);
  }

  /** Going on behind a run. */
  lemma {:induction false} AfterRun(c: Chain, k: nat, a: nat, t: nat, k': nat, a': nat)
    requires k < |c| && Position(k', a') == Corrected(c, k, a + t)
    ensures k' < |c| && InAnode(c, Position(k', a')) && BlockIndex(c, k', a') == BlockIndex(c, k, a) + t
    ensures Position(k', a') == Corrected(c, 0, BlockIndex(c, k, a) + t)
  {
    CorrectedKeeps(c, k, a + t);
    CorrectedFromHead(c, k, a + t);
  }

  /** The block number that reading at a position starts from. */
  function Address(c: Chain, k: nat, a: nat): nat
    requires k < |c|
  {
    c[k].blocknr + a
  }

  /** The position is right behind its anode, and the next anode lies somewhere else. */
  predicate Elsewhere(c: Chain, k: nat, a: nat) {
    k + 1 < |c| && a >= c[k].size && c[k + 1].blocknr != c[k].blocknr + a
  }

  lemma {:induction false} NotElsewhere(c: Chain, k: nat, a: nat)
    ensures InAnode(c, Position(k, a)) ==> !Elsewhere(c, k, a)
  {
  }

  /** That is the number of the file's block there exactly if the position is not right behind an anode, or the
      next anode follows. */
  lemma {:induction false} AddressExact(c: Chain, k: nat, a: nat)
    requires k < |c| && a <= c[k].size && BlockIndex(c, k, a) < BlockCount(c)
    requires k + 1 < |c| ==> c[k + 1].size > 0
    ensures Flat(c)[BlockIndex(c, k, a)] == Address(c, k, a) <==> !Elsewhere(c, k, a)
  {
    hide Flat;
    if a < c[k].size {
      FlatAt(c, k, a);
    } else {
      CountSnoc(c, k);
      assert c[..|c|] == c;
      if k + 1 < |c| { FlatAt(c, k + 1, 0); }
    }
  }

  /** The block at a corrected position. */
  lemma {:induction false} BlockHere(v: seq<Block>, c: Chain, k: nat, a: nat)
    requires OnDisk(v, Flat(c)) && k < |c| && a < c[k].size
    ensures var p, b := BlockIndex(c, k, a), Address(c, k, a);
            && 0 < b < |v| && At(p + 1) == At(p) + BLOCKSIZE <= |BytesOf(v, Flat(c))|
            && v[b] == BytesOf(v, Flat(c))[At(p)..At(p + 1)]
  {
    hide Flat, Distinct, OnDisk, Concat, At;
    var p, b := BlockIndex(c, k, a), Address(c, k, a);
    RunAt(v, c, k, a, 1);
    ReadRun(v, Flat(c), p, b, 1);
    assert v[b..b + 1] == [v[b]];
    ConcatOne(v[b]);
    AtSum(p, 1);
  }

  method ReadBlock(cache: DataCache, c: Chain, k: nat, a: nat) returns (data: Block)
    requires Ready(cache, c) && k < |c| && a < c[k].size
    modifies cache, cache.blocknr, cache.dirty, cache.data
    ensures Ready(cache, c) && cache.view == old(cache.view) && |cache.disk| == old(|cache.disk|)
    ensures var p := BlockIndex(c, k, a);
            At(p + 1) <= |FileBytes(cache, c)| && At(p + 1) == At(p) + BLOCKSIZE && data == FileBytes(cache, c)[At(p)..At(p + 1)]
  {
    hide Flat, Distinct, OnDisk, At, BytesOf, BlockIndex;
    BlockHere(cache.view, c, k, a);
    var _, blocks := cache.DiskRead(1, Address(c, k, a));
    data := blocks[0];
  }

  /** A position that is corrected, or right behind its anode. */
  predicate Standing(c: Chain, k: nat, a: nat) {
    InAnode(c, Position(k, a)) || (k < |c| && a == c[k].size)
  }

  /** Reads n whole blocks, run by run. Fails only from where there is no block number. */
  method ReadBlocks(cache: DataCache, c: Chain, k0: nat, a0: nat, n: nat) returns (error: bool, out: seq<bv8>, k: nat, a: nat)
    requires Ready(cache, c) && Standing(c, k0, a0) && BlockIndex(c, k0, a0) + n <= BlockCount(c)
    modifies cache, cache.blocknr, cache.dirty, cache.data
    ensures Ready(cache, c) && cache.view == old(cache.view) && |cache.disk| == old(|cache.disk|)
    ensures error <==> n > 0 && Address(c, k0, a0) == NOBLOCK
    ensures var p := BlockIndex(c, k0, a0);
            At(p) <= At(p + n) <= |FileBytes(cache, c)| && (!error ==> out == FileBytes(cache, c)[At(p)..At(p + n)])
    ensures !error ==> k < |c| && BlockIndex(c, k, a) == BlockIndex(c, k0, a0) + n
    ensures !error ==> if n > 0 then InAnode(c, Position(k, a)) else k == k0 && a == a0
  {
    hide Flat, Distinct, OnDisk, Concat, At, BytesOf, BlockIndex;
    var blockstoread := n;
    ghost var p := BlockIndex(c, k0, a0);
    FileBounds(cache.view, c, p, p + n);
    FileBounds(cache.view, c, p, p);
    error, out, k, a := false, [], k0, a0;
    while blockstoread > 0
      invariant Ready(cache, c) && cache.view == old(cache.view) && |cache.disk| == old(|cache.disk|)
      invariant Standing(c, k, a) && (InAnode(c, Position(k, a)) || (blockstoread == n && k == k0 && a == a0))
      invariant n == 0 ==> k == k0 && a == a0
      invariant blockstoread < n ==> Address(c, k0, a0) != NOBLOCK
      invariant 0 <= blockstoread <= n && BlockIndex(c, k, a) == p + n - blockstoread && !error
      invariant At(p) <= At(p + n - blockstoread) <= |FileBytes(cache, c)|
      invariant out == FileBytes(cache, c)[At(p)..At(p + n - blockstoread)]
      invariant InAnode(c, Position(k, a)) && !InAnode(c, Position(k0, a0)) ==> Address(c, k0, a0) != NOBLOCK
      invariant blockstoread == n && InAnode(c, Position(k0, a0)) ==> k == k0 && a == a0
      decreases blockstoread, if InAnode(c, Position(k, a)) then 0 else 1
    {
      var data, t;
      error, data, t, k, a := ReadRound(cache, c, k, a, blockstoread);
      if error {
        return;
      }
      out := out + data;
      blockstoread := blockstoread - t;
    }
  }

  /** One round of the read loop: at most n blocks, all of one run; none behind an anode. */
  method ReadRound(cache: DataCache, c: Chain, k0: nat, a0: nat, n: nat) returns (error: bool, data: seq<bv8>, t: nat, k: nat, a: nat)
    requires Ready(cache, c) && Standing(c, k0, a0) && BlockIndex(c, k0, a0) + n <= BlockCount(c) && n > 0
    modifies cache, cache.blocknr, cache.dirty, cache.data
    ensures Ready(cache, c) && cache.view == old(cache.view) && |cache.disk| == old(|cache.disk|)
    ensures error <==> Address(c, k0, a0) == NOBLOCK
    ensures InAnode(c, Position(k0, a0)) ==> !error
    ensures t <= n && (InAnode(c, Position(k0, a0)) ==> 0 < t)
    ensures var p := BlockIndex(c, k0, a0);
            At(p) <= At(p + t) <= |FileBytes(cache, c)| && (!error ==> data == FileBytes(cache, c)[At(p)..At(p + t)])
    ensures k < |c| && InAnode(c, Position(k, a)) && BlockIndex(c, k, a) == BlockIndex(c, k0, a0) + t
  {
    hide Flat, Distinct, OnDisk, Concat, At, BytesOf;
    if InAnode(c, Position(k0, a0)) { InsideAnode(c, Position(k0, a0)); }
    t := if n + a0 >= c[k0].size then c[k0].size - a0 else n;
    if t > 0 { RunAt(cache.view, c, k0, a0, t); }
    var code, blocks := cache.DiskRead(t, Address(c, k0, a0));
    error := code != 0;
    FileBounds(cache.view, c, BlockIndex(c, k0, a0), BlockIndex(c, k0, a0) + t);
    if t > 0 { ReadRun(cache.view, Flat(c), BlockIndex(c, k0, a0), Address(c, k0, a0), t); } else if !error { ConcatNone(blocks); }
    data := Concat(blocks);
    var _, k', a' := CorrectAnodeAC(c, k0, a0 + t);
    AfterRun(c, k0, a0, t, k', a');
    k, a := k', a';
  }

  lemma {:induction false} FileBounds(v: seq<Block>, c: Chain, p: nat, q: nat)
    requires OnDisk(v, Flat(c)) && p <= q <= BlockCount(c)
    ensures At(p) <= At(q) <= |BytesOf(v, Flat(c))| == At(BlockCount(c))
  {
    AtMono(p, q);
    AtMono(q, BlockCount(c));
    ConcatSize(Pick(v, Flat(c)));
  }

  /** The first `bytesleft` bytes of the block with the number at a position, if there are any to read. */
  method ReadLastPart(cache: DataCache, c: Chain, k: nat, a: nat, bytesleft: nat) returns (error: bool, out: seq<bv8>)
    requires Ready(cache, c) && k < |c| && (bytesleft > 0 ==> Address(c, k, a) > 0) && bytesleft < BLOCKSIZE
    modifies cache, cache.blocknr, cache.dirty, cache.data
    ensures Ready(cache, c) && cache.view == old(cache.view) && |cache.disk| == old(|cache.disk|)
    ensures error <==> bytesleft > 0 && Address(c, k, a) >= |cache.view|
    ensures !error ==> out == if bytesleft > 0 then cache.view[Address(c, k, a)][..bytesleft] else []
  {
    hide Flat, Distinct, OnDisk;
    error, out := false, [];
    if bytesleft > 0 {
      var data;
      error, data := cache.CachedReadD(Address(c, k, a));
      out := data[..bytesleft];
    }
  }

  /** How much of a block is wanted from blockoffset on. */
  function PartLength(blockoffset: nat, size: nat): nat
    requires blockoffset < BLOCKSIZE
  {
    if size < BLOCKSIZE - blockoffset then size else BLOCKSIZE - blockoffset
  }

  /** The rest of the block with the number at a position, from blockoffset on, or the part of it that is
      wanted. */
  method ReadFirstPart(cache: DataCache, c: Chain, k0: nat, a0: nat, blockoffset: nat, size: nat)
    returns (error: bool, out: seq<bv8>, k: nat, a: nat)
    requires Ready(cache, c) && k0 < |c| && Address(c, k0, a0) > 0 && blockoffset < BLOCKSIZE
    modifies cache, cache.blocknr, cache.dirty, cache.data
    ensures Ready(cache, c) && cache.view == old(cache.view) && |cache.disk| == old(|cache.disk|)
    ensures error <==> Address(c, k0, a0) >= |cache.view|
    ensures k < |c| && InAnode(c, Position(k, a)) && BlockIndex(c, k, a) == BlockIndex(c, k0, a0) + 1
    ensures !error ==> out == cache.view[Address(c, k0, a0)][blockoffset..blockoffset + PartLength(blockoffset, size)]
  {
    hide Flat, Distinct, OnDisk, BlockIndex;
    var data;
    error, data := cache.CachedReadD(Address(c, k0, a0));
    out := data[blockoffset..blockoffset + PartLength(blockoffset, size)];
    var _, k', a' := NextBlockAC(c, k0, a0);
    AfterRun(c, k0, a0, 1, k', a');
    k, a := k', a';
  }

  /** Whether whole blocks are read to where they belong, without a buffer of their own. */
  predicate Direct(blockoffset: nat, size: nat, maskok: bool) {
    var fullblks, bytesleft := Shift(blockoffset + size), Mask(blockoffset + size);
    maskok && !(fullblks < 2 * DIRECTSIZE && blockoffset + size > BLOCKSIZE &&
                (blockoffset > 0 || (bytesleft > 0 && fullblks < DIRECTSIZE)))
  }

  method ChooseDirect(blockoffset: nat, size: nat, maskok: bool) returns (direct: bool)
    ensures direct == Direct(blockoffset, size, maskok)
  {
    var fullblks, bytesleft := Shift(blockoffset + size), Mask(blockoffset + size);
    if !maskok {
      return false;
    }
    var small := fullblks < 2 * DIRECTSIZE && blockoffset + size > BLOCKSIZE;
    direct := !(small && (blockoffset != 0 || (bytesleft != 0 && fullblks < DIRECTSIZE)));
  }

  /** The first block is read on its own, before any whole blocks. */
  predicate PartFirst(blockoffset: nat, size: nat, maskok: bool) {
    Direct(blockoffset, size, maskok) && (blockoffset > 0 || Shift(blockoffset + size) == 0)
  }

  /** Reading fails: there is no block number to start from, or it is behind the end of the device. */
  predicate Unreadable(blocks: nat, c: Chain, k: nat, a: nat, blockoffset: nat, size: nat, maskok: bool)
    requires k < |c|
  {
    Address(c, k, a) == NOBLOCK || (PartFirst(blockoffset, size, maskok) && Address(c, k, a) >= blocks)
  }

  /** What is read: the bytes of the file, but where the first block is read on its own, what is in the block
      with the number at the position. */
  ghost function Wanted(v: seq<Block>, c: Chain, k: nat, a: nat, blockoffset: nat, size: nat, maskok: bool): seq<bv8>
    requires k < |c| && OnDisk(v, Flat(c)) && blockoffset < BLOCKSIZE
    requires At(BlockIndex(c, k, a)) + blockoffset + size <= |BytesOf(v, Flat(c))|
    requires PartFirst(blockoffset, size, maskok) ==> Address(c, k, a) < |v|
  {
    var f, at, t := BytesOf(v, Flat(c)), At(BlockIndex(c, k, a)) + blockoffset, PartLength(blockoffset, size);
    if PartFirst(blockoffset, size, maskok) then v[Address(c, k, a)][blockoffset..blockoffset + t] + f[at + t..at + size]
    else f[at..at + size]
  }

  /** From where the number at the position is that of the file's block, these are the bytes of the file. */
  lemma {:induction false} WantedRight(v: seq<Block>, c: Chain, k: nat, a: nat, blockoffset: nat, size: nat, maskok: bool)
    requires k < |c| && a <= c[k].size && OnDisk(v, Flat(c)) && blockoffset < BLOCKSIZE && size > 0
    requires At(BlockIndex(c, k, a)) + blockoffset + size <= |BytesOf(v, Flat(c))|
    requires PartFirst(blockoffset, size, maskok) ==> Address(c, k, a) < |v|
    requires k + 1 < |c| ==> c[k + 1].size > 0
    requires !(PartFirst(blockoffset, size, maskok) && Elsewhere(c, k, a))
    ensures var at := At(BlockIndex(c, k, a)) + blockoffset;
            Wanted(v, c, k, a, blockoffset, size, maskok) == BytesOf(v, Flat(c))[at..at + size]
  {
    hide Flat, Distinct, OnDisk, Concat, At, BytesOf, BlockIndex, PartFirst, Elsewhere;
    var p := BlockIndex(c, k, a);
    if PartFirst(blockoffset, size, maskok) {
      NotAtEnd(v, c, p, blockoffset + size);
      OwnBlock(v, c, k, a);
      PartAndRest(BytesOf(v, Flat(c)), At(p), v[Address(c, k, a)], blockoffset, PartLength(blockoffset, size), size);
    }
  }

  lemma {:induction false} PartAndRest(f: seq<bv8>, at: nat, block: Block, n: nat, t: nat, size: nat)
    requires at + BLOCKSIZE <= |f| && block == f[at..at + BLOCKSIZE]
    requires n + t <= BLOCKSIZE && t <= size && at + n + size <= |f|
    ensures block[n..n + t] + f[at + n + t..at + n + size] == f[at + n..at + n + size]
  {
    SubSlice(f, at, at + BLOCKSIZE, n, t);
    Join(f, at + n, at + n + t, at + n + size);
  }

  lemma {:induction false} NotAtEnd(v: seq<Block>, c: Chain, p: nat, t: nat)
    requires OnDisk(v, Flat(c)) && t > 0 && At(p) + t <= |BytesOf(v, Flat(c))|
    ensures p < BlockCount(c)
  {
    hide Flat, At, BytesOf;
    FileBounds(v, c, 0, BlockCount(c));
    AtStrict(p, BlockCount(c));
  }

  lemma {:induction false} OwnBlock(v: seq<Block>, c: Chain, k: nat, a: nat)
    requires k < |c| && a <= c[k].size && OnDisk(v, Flat(c)) && BlockIndex(c, k, a) < BlockCount(c)
    requires (k + 1 < |c| ==> c[k + 1].size > 0) && !Elsewhere(c, k, a)
    ensures var p, b := BlockIndex(c, k, a), Address(c, k, a);
            && 0 < b < |v| && At(p + 1) == At(p) + BLOCKSIZE <= |BytesOf(v, Flat(c))|
            && v[b] == BytesOf(v, Flat(c))[At(p)..At(p + 1)]
  {
    hide Flat, Distinct, OnDisk, Concat, At, BytesOf, BlockIndex;
    if a < c[k].size { BlockHere(v, c, k, a); } else { BehindIsNext(v, c, k, a); }
  }

  /** The block behind an anode is the first of the next one, should that follow. */
  lemma {:induction false} BehindIsNext(v: seq<Block>, c: Chain, k: nat, a: nat)
    requires k < |c| && a == c[k].size && OnDisk(v, Flat(c)) && BlockIndex(c, k, a) < BlockCount(c)
    requires (k + 1 < |c| ==> c[k + 1].size > 0) && !Elsewhere(c, k, a)
    ensures var p, b := BlockIndex(c, k, a), Address(c, k, a);
            && 0 < b < |v| && At(p + 1) == At(p) + BLOCKSIZE <= |BytesOf(v, Flat(c))|
            && v[b] == BytesOf(v, Flat(c))[At(p)..At(p + 1)]
  {
    hide Flat, Distinct, OnDisk, Concat, At, BytesOf;
    CountSnoc(c, k);
    assert c[..|c|] == c;
    if k + 1 < |c| { BlockHere(v, c, k + 1, 0); }
  }

  /** Reads `size` bytes, blockoffset bytes into the block at a position: whole blocks into a
      buffer of their own (indirect) or, but for the first and the last, to where they belong. */
  method ReadAt(cache: DataCache, c: Chain, k0: nat, a0: nat, blockoffset: nat, size: nat, maskok: bool)
    returns (error: bool, buffer: seq<bv8>)
    requires Ready(cache, c) && Standing(c, k0, a0) && Address(c, k0, a0) > 0 && blockoffset < BLOCKSIZE && size > 0
    requires At(BlockIndex(c, k0, a0)) + blockoffset + size <= |FileBytes(cache, c)|
    modifies cache, cache.blocknr, cache.dirty, cache.data
    ensures Ready(cache, c) && cache.view == old(cache.view) && |cache.disk| == old(|cache.disk|)
    ensures error <==> Unreadable(|cache.view|, c, k0, a0, blockoffset, size, maskok)
    ensures !error ==> buffer == Wanted(cache.view, c, k0, a0, blockoffset, size, maskok)
  {
    hide Flat, Distinct, OnDisk, Concat, At, BytesOf, BlockIndex;
    var direct := ChooseDirect(blockoffset, size, maskok);
    if direct {
      error, buffer := ReadDirect(cache, c, k0, a0, blockoffset, size);
    } else {
      error, buffer := ReadIndirect(cache, c, k0, a0, blockoffset, size);
    }
  }

  lemma {:induction false} Join(f: seq<bv8>, x: nat, y: nat, z: nat)
    requires x <= y <= z <= |f|
    ensures f[x..y] + f[y..z] == f[x..z]
  {
  }

  lemma {:induction false} SubSlice(f: seq<bv8>, x: nat, y: nat, i: nat, n: nat)
    requires x <= y <= |f| && i + n <= y - x
    ensures f[x..y][i..i + n] == f[x + i..x + i + n]
  {
    var g, h := f[x..y][i..i + n], f[x + i..x + i + n];
    forall k | 0 <= k < n
      ensures g[k] == h[k]
    {
    }
  }

  /** Indirect reading: all blocks into a buffer, and the wanted part from there. */
  method ReadIndirect(cache: DataCache, c: Chain, k0: nat, a0: nat, blockoffset: nat, size: nat) returns (error: bool, buffer: seq<bv8>)
    requires Ready(cache, c) && Standing(c, k0, a0) && blockoffset < BLOCKSIZE && size > 0
    requires At(BlockIndex(c, k0, a0)) + blockoffset + size <= |FileBytes(cache, c)|
    modifies cache, cache.blocknr, cache.dirty, cache.data
    ensures Ready(cache, c) && cache.view == old(cache.view) && |cache.disk| == old(|cache.disk|)
    ensures error <==> Address(c, k0, a0) == NOBLOCK
    ensures var at := At(BlockIndex(c, k0, a0)) + blockoffset;
            at + size <= |FileBytes(cache, c)| && (!error ==> buffer == FileBytes(cache, c)[at..at + size])
  {
    hide Flat, Distinct, OnDisk, Concat, At, BytesOf, BlockIndex;
    ghost var p := BlockIndex(c, k0, a0);
    var fullblks, bytesleft := Shift(blockoffset + size), Mask(blockoffset + size);
    WithinChain(cache.view, c, p, blockoffset + size);
    var n := fullblks + if bytesleft > 0 then 1 else 0;
    var data, k, a;
    error, data, k, a := ReadBlocks(cache, c, k0, a0, n);
    if error {
      return true, [];
    }
    SubSlice(FileBytes(cache, c), At(p), At(p + n), blockoffset, size);
    buffer := data[blockoffset..blockoffset + size];
  }

  /** Direct reading: the rest of the first block through the cache, then whole blocks, then the
      beginning of the last block through the cache. */
  method ReadDirect(cache: DataCache, c: Chain, k0: nat, a0: nat, blockoffset: nat, size: nat) returns (error: bool, buffer: seq<bv8>)
    requires Ready(cache, c) && Standing(c, k0, a0) && Address(c, k0, a0) > 0 && blockoffset < BLOCKSIZE && size > 0
    requires At(BlockIndex(c, k0, a0)) + blockoffset + size <= |FileBytes(cache, c)| && Direct(blockoffset, size, true)
    modifies cache, cache.blocknr, cache.dirty, cache.data
    ensures Ready(cache, c) && cache.view == old(cache.view) && |cache.disk| == old(|cache.disk|)
    ensures error <==> Unreadable(|cache.view|, c, k0, a0, blockoffset, size, true)
    ensures !error ==> buffer == Wanted(cache.view, c, k0, a0, blockoffset, size, true)
  {
    hide Flat, Distinct, OnDisk, Concat, At, BytesOf, BlockIndex, Direct, Wanted;
    var fullblks, bytesleft := Shift(blockoffset + size), Mask(blockoffset + size);
    ghost var p := BlockIndex(c, k0, a0);
    WithinChain(cache.view, c, p, blockoffset + size);
    if !Unreadable(|cache.view|, c, k0, a0, blockoffset, size, true) { WantedForm(cache.view, c, k0, a0, blockoffset, size); }
    if blockoffset > 0 {
      var k, a;
      error, buffer, k, a := ReadFirstPart(cache, c, k0, a0, blockoffset, size);
      if !error && fullblks > 0 {
        var rest := ReadOn(cache, c, k, a, fullblks - 1, bytesleft);
        buffer := buffer + rest;
      }
    } else {
      error, buffer := ReadRest(cache, c, k0, a0, fullblks, bytesleft);
    }
  }

  /** The same bytes, as they are read. */
  lemma {:induction false} WantedForm(v: seq<Block>, c: Chain, k: nat, a: nat, n: nat, size: nat)
    requires k < |c| && OnDisk(v, Flat(c)) && n < BLOCKSIZE && size > 0 && Direct(n, size, true)
    requires At(BlockIndex(c, k, a)) + n + size <= |BytesOf(v, Flat(c))|
    requires PartFirst(n, size, true) ==> Address(c, k, a) < |v|
    ensures var f, p, b, q, r := BytesOf(v, Flat(c)), BlockIndex(c, k, a), Address(c, k, a), Shift(n + size), Mask(n + size);
            var w := Wanted(v, c, k, a, n, size, true);
            && (n > 0 && q == 0 ==> size == PartLength(n, size) && w == v[b][n..n + size])
            && (n > 0 && q > 0 ==>
                  && At(p + 1) <= At(p + 1 + (q - 1)) + r <= |f|
                  && w == v[b][n..n + PartLength(n, size)] + f[At(p + 1)..At(p + 1 + (q - 1)) + r])
            && (n == 0 && q == 0 ==> r > 0 && w == v[b][..r])
            && (n == 0 && q > 0 ==> At(p) <= At(p + q) + r <= |f| && w == f[At(p)..At(p + q) + r])
  {
    hide Flat, Distinct, OnDisk, Concat, At, BytesOf, BlockIndex, Direct;
    var f, p, q, t := BytesOf(v, Flat(c)), BlockIndex(c, k, a), Shift(n + size), PartLength(n, size);
    WithinChain(v, c, p, n + size);
    Parts(n + size);
    AtSum(0, 0);
    if q == 0 {
      assert t == size && f[At(p) + n + t..At(p) + n + size] == [];
    } else if n > 0 {
      AtSum(p + 1, q - 1);
      assert At(p) + n + t == At(p + 1);
    }
  }

  /** Going on from a corrected position. */
  method ReadOn(cache: DataCache, c: Chain, k: nat, a: nat, blockstoread: nat, bytesleft: nat) returns (out: seq<bv8>)
    requires Ready(cache, c) && InAnode(c, Position(k, a)) && bytesleft < BLOCKSIZE
    requires BlockIndex(c, k, a) + blockstoread <= BlockCount(c)
    requires bytesleft > 0 ==> BlockIndex(c, k, a) + blockstoread < BlockCount(c)
    modifies cache, cache.blocknr, cache.dirty, cache.data
    ensures Ready(cache, c) && cache.view == old(cache.view) && |cache.disk| == old(|cache.disk|)
    ensures var p := BlockIndex(c, k, a);
            && At(p) <= At(p + blockstoread) + bytesleft <= |FileBytes(cache, c)|
            && out == FileBytes(cache, c)[At(p)..At(p + blockstoread) + bytesleft]
  {
    hide Flat, Distinct, OnDisk, Concat, At, BytesOf, BlockIndex;
    if blockstoread > 0 || bytesleft > 0 { CorrectedHere(cache.view, c, k, a, 0, bytesleft); }
    var error;
    error, out := ReadRest(cache, c, k, a, blockstoread, bytesleft);
  }

  method ReadRest(cache: DataCache, c: Chain, k0: nat, a0: nat, blockstoread: nat, bytesleft: nat) returns (error: bool, out: seq<bv8>)
    requires Ready(cache, c) && Standing(c, k0, a0) && bytesleft < BLOCKSIZE
    requires blockstoread == 0 && bytesleft > 0 ==> Address(c, k0, a0) > 0
    requires BlockIndex(c, k0, a0) + blockstoread <= BlockCount(c)
    requires bytesleft > 0 ==> BlockIndex(c, k0, a0) + blockstoread < BlockCount(c)
    modifies cache, cache.blocknr, cache.dirty, cache.data
    ensures Ready(cache, c) && cache.view == old(cache.view) && |cache.disk| == old(|cache.disk|)
    ensures error <==> if blockstoread > 0 then Address(c, k0, a0) == NOBLOCK
                       else bytesleft > 0 && Address(c, k0, a0) >= |cache.view|
    ensures var p := BlockIndex(c, k0, a0);
            && At(p) <= At(p + blockstoread) + bytesleft <= |FileBytes(cache, c)|
            && (!error ==> out == if blockstoread == 0 && bytesleft > 0 then cache.view[Address(c, k0, a0)][..bytesleft]
                                  else FileBytes(cache, c)[At(p)..At(p + blockstoread) + bytesleft])
  {
    hide Flat, Distinct, OnDisk, Concat, At, BytesOf, BlockIndex;
    ghost var p := BlockIndex(c, k0, a0);
    LastPart(cache.view, c, p, blockstoread, bytesleft);
    var middle, last, k, a;
    error, middle, k, a := ReadBlocks(cache, c, k0, a0, blockstoread);
    if error {
      return true, [];
    }
    if blockstoread > 0 && bytesleft > 0 {
      CorrectedHere(cache.view, c, k, a, 0, bytesleft);
    }
    error, last := ReadLastPart(cache, c, k, a, bytesleft);
    out := middle + last;
  }

  /** Part of the block at a corrected position that is not at the end of the chain. */
  lemma {:induction false} CorrectedHere(v: seq<Block>, c: Chain, k: nat, a: nat, i: nat, n: nat)
    requires OnDisk(v, Flat(c)) && InAnode(c, Position(k, a)) && BlockIndex(c, k, a) < BlockCount(c) && i + n <= BLOCKSIZE
    ensures 0 < Address(c, k, a) < |v|
    ensures var at := At(BlockIndex(c, k, a)) + i;
            at + n <= |BytesOf(v, Flat(c))| && v[Address(c, k, a)][i..i + n] == BytesOf(v, Flat(c))[at..at + n]
  {
    hide Flat, OnDisk, At, BytesOf, BlockIndex;
    InsideAnode(c, Position(k, a));
    BlockHere(v, c, k, a);
    var p := BlockIndex(c, k, a);
    SubSlice(BytesOf(v, Flat(c)), At(p), At(p + 1), i, n);
  }

  lemma {:induction false} LastPart(v: seq<Block>, c: Chain, p: nat, n: nat, r: nat)
    requires OnDisk(v, Flat(c)) && p + n <= BlockCount(c) && r < BLOCKSIZE && (r > 0 ==> p + n < BlockCount(c))
    ensures At(p) <= At(p + n) && At(p + n) + r <= |BytesOf(v, Flat(c))|
  {
    hide Flat;
    FileBounds(v, c, p, p + n);
    if r > 0 {
      FileBounds(v, c, p + n, p + n + 1);
      AtSum(p + n, 1);
    }
  }

  lemma {:induction false} WithinChain(v: seq<Block>, c: Chain, p: nat, t: nat)
    requires OnDisk(v, Flat(c)) && At(p) + t <= |BytesOf(v, Flat(c))|
    ensures var q, r := Shift(t), Mask(t);
            && At(p + q) + r == At(p) + t && r < BLOCKSIZE
            && p + q <= BlockCount(c) && (r > 0 ==> p + q < BlockCount(c))
            && At(p + q + 1) == At(p + q) + BLOCKSIZE
            && (q > 0 ==> At(p + q) == At(p + 1) + At(q - 1)) && (q == 0 <==> t < BLOCKSIZE)
            && At(p + 1) == At(p) + BLOCKSIZE
  {
    hide At, Flat;
    var q, r := Shift(t), Mask(t);
    Parts(t);
    AtSum(p, q);
    AtSum(p + q, 1);
    AtSum(p, 1);
    if q > 0 { AtSum(p + 1, q - 1); AtMono(1, q); AtSum(0, 0); }
    ConcatSize(Pick(v, Flat(c)));
    if r > 0 { AtStrict(p + q, BlockCount(c)); } else if p + q > BlockCount(c) { AtMono(BlockCount(c) + 1, p + q); AtSum(BlockCount(c), 1); }
  }

  // ---------------------------------------------------------------------
  // Writing

  /** Only the chain's own blocks differ from v. */
  ghost predicate Kept(cache: DataCache, c: Chain, v: seq<Block>)
    reads cache, cache.blocknr, cache.dirty, cache.data
  {
    Ready(cache, c) && OnlyBlocks(v, cache.view, Flat(c))
  }

  /** Writes whole blocks of one run. */
  method WriteWhole(cache: DataCache, c: Chain, k: nat, a: nat, data: seq<bv8>, t: nat)
    requires Ready(cache, c) && k < |c| && 0 < t && a + t <= c[k].size && |data| == At(t)
    modifies cache, cache.blocknr, cache.dirty, cache.data
    ensures Kept(cache, c, old(cache.view)) && |cache.disk| == old(|cache.disk|)
    ensures var at := At(BlockIndex(c, k, a));
            at + |data| <= |old(FileBytes(cache, c))| && FileBytes(cache, c) == Splice(old(FileBytes(cache, c)), at, data)
  {
    hide Flat, Distinct, Concat, At, OnDisk;
    RunAt(cache.view, c, k, a, t);
    ghost var p, b := BlockIndex(c, k, a), c[k].blocknr + a;
    var blocks := Chop(data, t);
    ChopConcat(data, t);
    WriteRun(cache.view, Flat(c), p, b, blocks);
    RunOnlyBlocks(cache.view, Flat(c), p, b, blocks);
    WrittenOnDisk(cache.view, Flat(c), b, blocks);
    var _ := cache.DiskWrite(blocks, c[k].blocknr + a);
  }

  lemma {:induction false} WrittenOnDisk(v: seq<Block>, flat: seq<nat>, b: nat, y: seq<Block>)
    requires OnDisk(v, flat) && b + |y| <= |v|
    ensures OnDisk(Splice(v, b, y), flat)
  {
  }

  /** Writes part of a block through the cache. With `fake` the rest of the block is not kept. */
  method WritePart(cache: DataCache, c: Chain, k: nat, a: nat, at: nat, bytes: seq<bv8>, fake: bool) returns (ghost pad: seq<bv8>)
    requires Ready(cache, c) && k < |c| && a < c[k].size && at + |bytes| <= BLOCKSIZE && (fake ==> at == 0)
    modifies cache, cache.blocknr, cache.dirty, cache.data
    ensures Kept(cache, c, old(cache.view)) && |cache.disk| == old(|cache.disk|)
    ensures if fake then at + |bytes| + |pad| == BLOCKSIZE else pad == []
    ensures var q := At(BlockIndex(c, k, a)) + at;
            && q + |bytes| + |pad| <= |old(FileBytes(cache, c))|
            && FileBytes(cache, c) == Splice(old(FileBytes(cache, c)), q, bytes + pad)
  {
    hide Flat, Distinct, Concat, At, OnDisk, BytesOf, OnlyBlocks, BlockIndex, Splice;
    RunAt(cache.view, c, k, a, 1);
    ghost var v, p, b := cache.view, BlockIndex(c, k, a), c[k].blocknr + a;
    var slot := cache.CachedRead(c[k].blocknr + a, fake);
    ghost var block := cache.data[slot];
    cache.WriteInSlot(slot, at, bytes);
    assert cache.view == v[b := Splice(block, at, bytes)];
    pad := if fake then block[|bytes|..] else [];
    PartWritten(v, Flat(c), p, b, block, at, bytes, fake, pad);
  }

  lemma {:induction false} PartWritten(v: seq<Block>, flat: seq<nat>, p: nat, b: nat, block: Block, at: nat, bytes: seq<bv8>,
                                       fake: bool, pad: seq<bv8>)
    requires OnDisk(v, flat) && Consecutive(flat, p, b, 1) && b < |v| && Distinct(flat)
    requires at + |bytes| <= BLOCKSIZE && (if fake then at == 0 && pad == block[|bytes|..] else pad == [] && block == v[b])
    ensures var v' := v[b := Splice(block, at, bytes)];
            && OnDisk(v', flat) && OnlyBlocks(v, v', flat)
            && At(p) + at + |bytes| + |pad| <= |BytesOf(v, flat)|
            && BytesOf(v', flat) == Splice(BytesOf(v, flat), At(p) + at, bytes + pad)
  {
    hide At, OnDisk, Distinct, BytesOf, OnlyBlocks;
    var x: Block := Splice(block, at, bytes);
    OneBlock(v, flat, p, b, x);
    if fake {
      assert x == bytes + pad;
    } else {
      PartOfBlock(BytesOf(v, flat), At(p), block, at, bytes);
      assert bytes + pad == bytes;
    }
  }

  /** Replacing one block of a file. */
  lemma {:induction false} OneBlock(v: seq<Block>, flat: seq<nat>, p: nat, b: nat, x: Block)
    requires OnDisk(v, flat) && Consecutive(flat, p, b, 1) && b < |v| && Distinct(flat)
    ensures OnDisk(v[b := x], flat) && OnlyBlocks(v, v[b := x], flat)
    ensures At(p) + BLOCKSIZE <= |BytesOf(v, flat)| && BytesOf(v, flat)[At(p)..At(p) + BLOCKSIZE] == v[b]
    ensures BytesOf(v[b := x], flat) == Splice(BytesOf(v, flat), At(p), x)
  {
    hide At, Concat;
    assert v[b := x] == Splice(v, b, [x]);
    ConcatOne(x);
    WriteRun(v, flat, p, b, [x]);
    RunOnlyBlocks(v, flat, p, b, [x]);
    WrittenOnDisk(v, flat, b, [x]);
    ReadRun(v, flat, p, b, 1);
    assert v[b..b + 1] == [v[b]];
    ConcatOne(v[b]);
    AtSum(p, 1);
  }

  lemma {:induction false} PartOfBlock(s: seq<bv8>, q: nat, block: seq<bv8>, at: nat, bytes: seq<bv8>)
    requires q + |block| <= |s| && s[q..q + |block|] == block && at + |bytes| <= |block|
    ensures Splice(s, q, Splice(block, at, bytes)) == Splice(s, q + at, bytes)
  {
    var x, y := Splice(s, q, Splice(block, at, bytes)), Splice(s, q + at, bytes);
    forall i | 0 <= i < |s|
      ensures x[i] == y[i]
    {
      if q <= i < q + |block| { assert block[i - q] == s[i]; }
    }
  }

  /** What is left to write: n blocks, of which the last may be partly filled (growing), or n blocks
      and less than one more (not growing). */
  ghost predicate Remaining(growing: bool, n: nat, len: nat) {
    if growing then len <= At(n) && (n > 0 ==> At(n - 1) < len)
    else At(n) <= len < At(n) + BLOCKSIZE
  }

  lemma {:induction false} RemainingStep(growing: bool, n: nat, len: nat, t: nat)
    requires Remaining(growing, n, len) && 0 < t <= n
    ensures growing && t == n && Mask(len) != 0 ==> len < At(t)
    ensures At(t) <= len || (growing && t == n && Mask(len) != 0)
    ensures growing && t == n && Mask(len) != 0 && t > 1 ==> At(t - 1) <= len
    ensures At(t) <= len ==> Remaining(growing, n - t, len - At(t))
    ensures len < At(t) ==> At(t) - len < BLOCKSIZE
  {
    hide At;
    AtSum(n - t, t);
    AtMono(t, n);
    AtSum(n - 1, 1);
    if growing && t == n && At(n - 1) < len < At(n) {
      PartsUnique(len, n - 1, len - At(n - 1));
    }
    if t > 1 { AtSum(t - 1, 1); }
    if t == n && len == At(n) { PartsUnique(len, n, 0); }
    if growing && t < n { AtMono(t, n - 1); AtSum(n - 1 - t, t); }
    if growing && t == n && Mask(len) == 0 { Parts(len); WholeBlocks(n, len); }
  }

  lemma {:induction false} WholeBlocks(n: nat, len: nat)
    requires n > 0 && At(n - 1) < len <= At(n) && Mask(len) == 0
    ensures len == At(n)
  {
    hide At;
    Parts(len);
    AtSum(n - 1, 1);
    AtStrict(n - 1, Shift(len));
    AtMono(n, Shift(len));
  }

  /** One round of the write loop: t blocks of one run, the last of them perhaps filled up with
      whatever was in memory. */
  method WriteRound(cache: DataCache, c: Chain, k: nat, a: nat, src: seq<bv8>, n: nat, growing: bool)
    returns (rest: seq<bv8>, left: nat, k': nat, a': nat, ghost pad: seq<bv8>)
    requires Ready(cache, c) && InAnode(c, Position(k, a)) && BlockIndex(c, k, a) + n <= BlockCount(c) && n > 0
    requires Remaining(growing, n, |src|)
    modifies cache, cache.blocknr, cache.dirty, cache.data
    ensures Kept(cache, c, old(cache.view)) && |cache.disk| == old(|cache.disk|)
    ensures left < n && Remaining(growing, left, |rest|) && |rest| <= |src|
    ensures InAnode(c, Position(k', a')) && BlockIndex(c, k', a') == BlockIndex(c, k, a) + n - left
    ensures pad != [] ==> growing && rest == [] && left == 0 && |src| < At(n)
    ensures pad == [] ==> At(n - left) == |src| - |rest|
    ensures rest == src[|src| - |rest|..]
    ensures var at, x := At(BlockIndex(c, k, a)), src[..|src| - |rest|] + pad;
            && at + |x| <= |old(FileBytes(cache, c))|
            && FileBytes(cache, c) == Splice(old(FileBytes(cache, c)), at, x)
  {
    hide Flat, Distinct, OnDisk, Concat, At, BytesOf, BlockIndex, Remaining, OnlyBlocks;
    InsideAnode(c, Position(k, a));
    var t := if n + a >= c[k].size then c[k].size - a else n;
    RemainingStep(growing, n, |src|, t);
    pad := [];
    var indirect := t == n && Mask(|src|) != 0 && growing;
    if indirect && t > 2 * DIRECTSIZE {
      t := t - 1;
      indirect := false;
      RemainingStep(growing, n, |src|, t);
    }
    if indirect {
      var room := At(t) - |src|;
      var garbage := Memory(room);
      pad := garbage;
      WriteWhole(cache, c, k, a, src + garbage, t);
      rest := [];
      NothingRemains(growing);
    } else {
      WriteWhole(cache, c, k, a, src[..At(t)], t);
      rest := src[At(t)..];
      assert src[..At(t)] + [] == src[..At(t)];
    }
    left := n - t;
    var found;
    found, k', a' := CorrectAnodeAC(c, k, a + t);
    AfterRun(c, k, a, t, k', a');
  }

  /** Memory that was never written to. */
  method Memory(n: nat) returns (m: seq<bv8>)
    ensures |m| == n
  {
    ghost var w: seq<bv8> := seq(n, i => 0);
    assert |w| == n;
    m :| |m| == n;
  }

  lemma {:induction false} NothingRemains(growing: bool)
    ensures Remaining(growing, 0, 0)
  {
    AtSum(0, 0);
  }

  /** Writes src from a position on: whole blocks, and what is left of it through the cache. */
  method WriteRest(cache: DataCache, c: Chain, k0: nat, a0: nat, src: seq<bv8>, n: nat, growing: bool)
    returns (ghost pad: seq<bv8>)
    requires Ready(cache, c) && InAnode(c, Position(k0, a0)) && BlockIndex(c, k0, a0) + n <= BlockCount(c)
    requires Remaining(growing, n, |src|)
    requires !growing && |src| > At(n) ==> BlockIndex(c, k0, a0) + n < BlockCount(c)
    modifies cache, cache.blocknr, cache.dirty, cache.data
    ensures Kept(cache, c, old(cache.view)) && |cache.disk| == old(|cache.disk|)
    ensures pad != [] ==> growing && n > 0 && |src| < At(n)
    ensures var at := At(BlockIndex(c, k0, a0));
            && at + |src| + |pad| <= |old(FileBytes(cache, c))|
            && FileBytes(cache, c) == Splice(old(FileBytes(cache, c)), at, src + pad)
  {
    hide Flat, Distinct, OnDisk, Concat, At, BytesOf, BlockIndex, Remaining, Splice, Progress, OnlyBlocks;
    var k, a, rest, left := k0, a0, src, n;
    ghost var p, f, v := BlockIndex(c, k, a), FileBytes(cache, c), cache.view;
    pad := [];
    StartProgress(v, c, p, src);
    while left > 0
      invariant Kept(cache, c, v) && |cache.disk| == old(|cache.disk|)
      invariant InAnode(c, Position(k, a)) && 0 <= left <= n && BlockIndex(c, k, a) == p + n - left
      invariant Remaining(growing, left, |rest|) && |rest| <= |src| && rest == src[|src| - |rest|..]
      invariant pad != [] ==> growing && n > 0 && rest == [] && left == 0 && |src| < At(n)
      invariant pad == [] ==> At(p + n - left) == At(p) + |src| - |rest|
      invariant Progress(f, FileBytes(cache, c), At(p), src, |src| - |rest|, pad)
    {
      ghost var was, v1, d := FileBytes(cache, c), cache.view, |src| - |rest|;
      var r, l, k', a';
      r, l, k', a', pad := WriteRound(cache, c, k, a, rest, left, growing);
      OnlyBlocksTwice(v, v1, cache.view, Flat(c));
      MoreProgress(f, was, FileBytes(cache, c), At(p), src, d, |src| - |r|, pad);
      AtSum(p + n - left, left - l);
      AtSum(p + n - left, left);
      AtSum(p, n);
      rest, left, k, a := r, l, k', a';
    }
    if |rest| > 0 {
      LastPartOnly(growing, |rest|);
      AtSum(p, n);
      ghost var was, v1 := FileBytes(cache, c), cache.view;
      ghost var none := WriteLastPart(cache, c, k, a, rest);
      OnlyBlocksTwice(v, v1, cache.view, Flat(c));
      MoreProgress(f, was, FileBytes(cache, c), At(p), src, |src| - |rest|, |src|, none);
    }
    AllProgress(f, FileBytes(cache, c), At(p), src, pad);
  }

  method WriteLastPart(cache: DataCache, c: Chain, k: nat, a: nat, bytes: seq<bv8>) returns (ghost pad: seq<bv8>)
    requires Ready(cache, c) && InAnode(c, Position(k, a)) && BlockIndex(c, k, a) < BlockCount(c) && |bytes| <= BLOCKSIZE
    modifies cache, cache.blocknr, cache.dirty, cache.data
    ensures Kept(cache, c, old(cache.view)) && |cache.disk| == old(|cache.disk|) && pad == []
    ensures var at := At(BlockIndex(c, k, a));
            && at + |bytes| <= |old(FileBytes(cache, c))|
            && FileBytes(cache, c) == Splice(old(FileBytes(cache, c)), at, bytes + pad)
  {
    InsideAnode(c, Position(k, a));
    pad := WritePart(cache, c, k, a, 0, bytes, false);
  }

  /** f' is f with the first d bytes of src, and pad behind them, written at `at`. */
  ghost predicate Progress(f: seq<bv8>, f': seq<bv8>, at: nat, src: seq<bv8>, d: nat, pad: seq<bv8>) {
    && d <= |src| && at + d + |pad| <= |f|
    && f' == Splice(f, at, src[..d] + pad)
  }

  lemma {:induction false} StartProgress(v: seq<Block>, c: Chain, p: nat, src: seq<bv8>)
    requires OnDisk(v, Flat(c)) && p <= BlockCount(c)
    ensures Progress(BytesOf(v, Flat(c)), BytesOf(v, Flat(c)), At(p), src, 0, []) && OnlyBlocks(v, v, Flat(c))
  {
    FileBounds(v, c, p, p);
    SpliceNothing(BytesOf(v, Flat(c)), At(p));
    assert src[..0] + [] == [];
  }

  lemma {:induction false} MoreProgress(f: seq<bv8>, f': seq<bv8>, f'': seq<bv8>, at: nat, src: seq<bv8>, d: nat, d': nat, pad: seq<bv8>)
    requires Progress(f, f', at, src, d, []) && d <= d' <= |src|
    requires at + d' + |pad| <= |f'| && f'' == Splice(f', at + d, src[d..][..d' - d] + pad)
    ensures Progress(f, f'', at, src, d', pad)
  {
    var x := src[d..][..d' - d] + pad;
    assert src[..d] + [] == src[..d];
    assert src[..d] + x == src[..d'] + pad;
    SpliceTwice(f, at, src[..d], x);
  }

  lemma {:induction false} AllProgress(f: seq<bv8>, f': seq<bv8>, at: nat, src: seq<bv8>, pad: seq<bv8>)
    requires Progress(f, f', at, src, |src|, pad)
    ensures at + |src| + |pad| <= |f| && f' == Splice(f, at, src + pad)
  {
    assert src[..|src|] == src;
  }

  lemma {:induction false} LastPartOnly(growing: bool, len: nat)
    requires Remaining(growing, 0, len) && len > 0
    ensures !growing && len < BLOCKSIZE
  {
    AtSum(0, 0);
  }

  /** How many blocks the write loop fills. */
  function BlocksToFill(growing: bool, totalblocks: nat, bytestowrite: nat): nat {
    if growing then totalblocks else Shift(bytestowrite)
  }

  lemma {:induction false} FillPlan(growing: bool, len: nat)
    ensures var n := BlocksToFill(growing, BlocksFor(len), len);
            && Remaining(growing, n, len) && n <= BlocksFor(len)
            && (!growing && len > At(n) ==> n < BlocksFor(len))
  {
    hide At, BlocksFor;
    Parts(len);
    var q := Shift(len);
    if BlocksFor(len) < q { AtMono(BlocksFor(len), q - 1); AtSum(q - 1, 1); }
    if len > At(q) { AtStrict(q, BlocksFor(len)); }
  }

  /** Indirect writing: the whole change goes through a buffer of its own, which starts with the old
      beginning of the first block. */
  method WriteIndirect(cache: DataCache, c: Chain, k: nat, a: nat, blockoffset: nat, buffer: seq<bv8>, growing: bool)
    returns (ghost pad: seq<bv8>)
    requires Ready(cache, c) && InAnode(c, Position(k, a)) && blockoffset < BLOCKSIZE && |buffer| > 0
    requires BlockIndex(c, k, a) + BlocksFor(blockoffset + |buffer|) <= BlockCount(c)
    modifies cache, cache.blocknr, cache.dirty, cache.data
    ensures Kept(cache, c, old(cache.view)) && |cache.disk| == old(|cache.disk|)
    ensures pad != [] ==> growing
    ensures var at := At(BlockIndex(c, k, a)) + blockoffset;
            && at + |buffer| + |pad| <= |old(FileBytes(cache, c))|
            && FileBytes(cache, c) == Splice(old(FileBytes(cache, c)), at, buffer + pad)
  {
    hide Flat, Distinct, OnDisk, Concat, At, BytesOf, BlockIndex, Remaining, OnlyBlocks, Splice;
    ghost var f, at := FileBytes(cache, c), At(BlockIndex(c, k, a));
    var totalblocks, data := BlocksFor(blockoffset + |buffer|), buffer;
    if blockoffset > 0 {
      InsideAnode(c, Position(k, a));
      var block := ReadBlock(cache, c, k, a);
      data := block[..blockoffset] + buffer;
      if |data| < BLOCKSIZE {
        data := data + block[|data|..];
        AtSum(0, 1);
        BlocksForUnique(|data|, 1);
        BlocksForUnique(blockoffset + |buffer|, 1);
      }
      FillPlan(growing, |data|);
      pad := WriteRest(cache, c, k, a, data, BlocksToFill(growing, totalblocks, |data|), growing);
      FirstBlockBack(f, at, block, blockoffset, buffer, data, pad);
    } else {
      FillPlan(growing, |data|);
      pad := WriteRest(cache, c, k, a, data, BlocksToFill(growing, totalblocks, |data|), growing);
    }
  }

  /** Writing back the rest of the first block together with the change amounts to the change. */
  lemma {:induction false} FirstBlockBack(f: seq<bv8>, at: nat, block: Block, n: nat, buffer: seq<bv8>, data: seq<bv8>, pad: seq<bv8>)
    requires at + BLOCKSIZE <= |f| && block == f[at..at + BLOCKSIZE] && n < BLOCKSIZE
    requires data == block[..n] + buffer + if n + |buffer| < BLOCKSIZE then block[n + |buffer|..] else []
    requires at + |data| + |pad| <= |f| && (n + |buffer| < BLOCKSIZE ==> pad == [])
    ensures at + n + |buffer| + |pad| <= |f| && Splice(f, at, data + pad) == Splice(f, at + n, buffer + pad)
  {
    hide Splice;
    if n + |buffer| < BLOCKSIZE {
      var r := at + n + |buffer|;
      HeadAndTail(f, at, block, n, |buffer|);
      assert data + pad == f[at..at + n] + (buffer + f[r..r + (BLOCKSIZE - n - |buffer|)]);
      SpliceOwnHead(f, at, n, buffer + f[r..r + (BLOCKSIZE - n - |buffer|)]);
      SpliceOwnTail(f, at + n, buffer, BLOCKSIZE - n - |buffer|);
      assert buffer + pad == buffer;
    } else {
      assert block[..n] == f[at..at + n];
      assert data + pad == f[at..at + n] + (buffer + pad);
      SpliceOwnHead(f, at, n, buffer + pad);
    }
  }

  lemma {:induction false} HeadAndTail(f: seq<bv8>, at: nat, block: Block, n: nat, size: nat)
    requires at + BLOCKSIZE <= |f| && block == f[at..at + BLOCKSIZE] && n + size < BLOCKSIZE
    ensures block[..n] == f[at..at + n] && block[n + size..] == f[at + n + size..at + BLOCKSIZE]
  {
  }

  /** Direct writing: what falls into the first block through the cache, the rest from the buffer. */
  method WriteDirect(cache: DataCache, c: Chain, k0: nat, a0: nat, blockoffset: nat, buffer: seq<bv8>, growing: bool)
    returns (ghost pad: seq<bv8>)
    requires Ready(cache, c) && InAnode(c, Position(k0, a0)) && blockoffset < BLOCKSIZE && |buffer| > 0
    requires BlockIndex(c, k0, a0) + BlocksFor(blockoffset + |buffer|) <= BlockCount(c)
    modifies cache, cache.blocknr, cache.dirty, cache.data
    ensures Kept(cache, c, old(cache.view)) && |cache.disk| == old(|cache.disk|)
    ensures pad != [] ==> growing
    ensures var at := At(BlockIndex(c, k0, a0)) + blockoffset;
            && at + |buffer| + |pad| <= |old(FileBytes(cache, c))|
            && FileBytes(cache, c) == Splice(old(FileBytes(cache, c)), at, buffer + pad)
  {
    hide Flat, Distinct, OnDisk, Concat, At, BytesOf, BlockIndex, Remaining, OnlyBlocks, Splice, BlocksFor;
    var totalblocks := BlocksFor(blockoffset + |buffer|);
    if blockoffset > 0 || (totalblocks == 1 && growing) {
      ghost var v, f, p := cache.view, FileBytes(cache, c), BlockIndex(c, k0, a0);
      var fbp := if |buffer| < BLOCKSIZE - blockoffset then |buffer| else BLOCKSIZE - blockoffset;
      FirstPartPlan(blockoffset, |buffer|);
      var k, a; ghost var pad1;
      k, a, pad1 := WriteFirstPart(cache, c, k0, a0, blockoffset, buffer[..fbp]);
      ghost var v1 := cache.view;
      FillPlan(growing, |buffer| - fbp);
      ghost var pad2 := WriteRest(cache, c, k, a, buffer[fbp..], BlocksToFill(growing, totalblocks - 1, |buffer| - fbp), growing);
      OnlyBlocksTwice(v, v1, cache.view, Flat(c));
      AtSum(p, 1);
      FirstThenRest(f, At(p), blockoffset, buffer, fbp, pad1, pad2);
      pad := pad1 + pad2;
    } else {
      FillPlan(growing, |buffer|);
      pad := WriteRest(cache, c, k0, a0, buffer, BlocksToFill(growing, totalblocks, |buffer|), growing);
    }
  }

  method WriteFirstPart(cache: DataCache, c: Chain, k0: nat, a0: nat, blockoffset: nat, bytes: seq<bv8>)
    returns (k: nat, a: nat, ghost pad: seq<bv8>)
    requires Ready(cache, c) && InAnode(c, Position(k0, a0)) && blockoffset + |bytes| <= BLOCKSIZE
    requires BlockIndex(c, k0, a0) < BlockCount(c)
    modifies cache, cache.blocknr, cache.dirty, cache.data
    ensures Kept(cache, c, old(cache.view)) && |cache.disk| == old(|cache.disk|)
    ensures pad != [] ==> blockoffset == 0
    ensures InAnode(c, Position(k, a)) && BlockIndex(c, k, a) == BlockIndex(c, k0, a0) + 1
    ensures var at := At(BlockIndex(c, k0, a0)) + blockoffset;
            && at + |bytes| + |pad| <= |old(FileBytes(cache, c))|
            && FileBytes(cache, c) == Splice(old(FileBytes(cache, c)), at, bytes + pad)
  {
    InsideAnode(c, Position(k0, a0));
    pad := WritePart(cache, c, k0, a0, blockoffset, bytes, blockoffset == 0);
    var found, k', a' := NextBlockAC(c, k0, a0);
    AfterRun(c, k0, a0, 1, k', a');
    k, a := k', a';
  }

  lemma {:induction false} FirstPartPlan(blockoffset: nat, size: nat)
    requires blockoffset < BLOCKSIZE && size > 0
    ensures var n, fbp := BlocksFor(blockoffset + size), if size < BLOCKSIZE - blockoffset then size else BLOCKSIZE - blockoffset;
            && n > 0 && BlocksFor(size - fbp) == n - 1 && (n == 1 <==> fbp == size) && 0 < fbp
            && (fbp < size ==> blockoffset + fbp == BLOCKSIZE)
            && BlocksFor(0) == 0
  {
    hide At;
    var n := BlocksFor(blockoffset + size);
    var fbp := if size < BLOCKSIZE - blockoffset then size else BLOCKSIZE - blockoffset;
    AtSum(n - 1, 1);
    if n > 1 { AtSum(n - 2, 1); AtMono(1, n - 1); }
    AtSum(0, 0);
    BlocksForUnique(size - fbp, n - 1);
  }

  /** The first part (with pad1 behind it) and then the rest (with pad2). */
  lemma {:induction false} FirstThenRest(f: seq<bv8>, at: nat, n: nat, buffer: seq<bv8>, fbp: nat, pad1: seq<bv8>, pad2: seq<bv8>)
    requires 0 < fbp <= |buffer| && at + n + fbp + |pad1| <= |f| && at + BLOCKSIZE + (|buffer| - fbp) + |pad2| <= |f|
    requires fbp < |buffer| ==> pad1 == [] && n + fbp == BLOCKSIZE
    requires fbp == |buffer| ==> pad2 == []
    ensures at + n + |buffer| + |pad1| + |pad2| <= |f|
    ensures var f1 := Splice(f, at + n, buffer[..fbp] + pad1);
            Splice(f1, at + BLOCKSIZE, buffer[fbp..] + pad2) == Splice(f, at + n, buffer + (pad1 + pad2))
  {
    var f1 := Splice(f, at + n, buffer[..fbp] + pad1);
    if fbp < |buffer| {
      SpliceTwice(f, at + n, buffer[..fbp] + pad1, buffer[fbp..] + pad2);
      assert buffer[..fbp] + pad1 + (buffer[fbp..] + pad2) == buffer + (pad1 + pad2);
    } else {
      assert buffer[fbp..] + pad2 == [];
      SpliceNothing(f1, at + BLOCKSIZE);
      assert buffer[..fbp] + pad1 == buffer + (pad1 + pad2);
    }
  }

  /** Writes the buffer, blockoffset bytes into the block at a position. When the file grows, what
      lies behind the buffer in its last block is not kept. */
  method WriteAt(cache: DataCache, c: Chain, k: nat, a: nat, blockoffset: nat, buffer: seq<bv8>, growing: bool, maskok: bool)
    returns (ghost pad: seq<bv8>)
    requires Ready(cache, c) && InAnode(c, Position(k, a)) && blockoffset < BLOCKSIZE && |buffer| > 0
    requires BlockIndex(c, k, a) + BlocksFor(blockoffset + |buffer|) <= BlockCount(c)
    modifies cache, cache.blocknr, cache.dirty, cache.data
    ensures Kept(cache, c, old(cache.view)) && |cache.disk| == old(|cache.disk|)
    ensures pad != [] ==> growing
    ensures var at := At(BlockIndex(c, k, a)) + blockoffset;
            && at + |buffer| + |pad| <= |old(FileBytes(cache, c))|
            && FileBytes(cache, c) == Splice(old(FileBytes(cache, c)), at, buffer + pad)
  {
    var totalblocks := BlocksFor(blockoffset + |buffer|);
    if !maskok || (totalblocks < 2 * DIRECTSIZE && blockoffset + |buffer| > BLOCKSIZE * 2 &&
                   (blockoffset > 0 || totalblocks < DIRECTSIZE)) {
      pad := WriteIndirect(cache, c, k, a, blockoffset, buffer, growing);
    } else {
      pad := WriteDirect(cache, c, k, a, blockoffset, buffer, growing);
    }
  }

  // ---------------------------------------------------------------------
  // Open files

  /** The number of blocks of a file, in 32-bit arithmetic. */
  function Blocks32(n: nat): nat {
    Shift((n + BLOCKSIZE - 1) % 0x1_0000_0000)
  }

  /** 32 bits are too few exactly when the file ends less than a block short of 4 GB; it then seems
      to need no blocks. */
  lemma {:induction false} Blocks32Exact(n: nat)
    requires n < 0x1_0000_0000
    ensures Blocks32(n) == BlocksFor(n) <==> n + BLOCKSIZE <= 0x1_0000_0000
    ensures Blocks32(n) == (if n + BLOCKSIZE <= 0x1_0000_0000 then BlocksFor(n) else 0)
  {
    var m := n + BLOCKSIZE - 1;
    if m >= 0x1_0000_0000 {
      var r := m % 0x1_0000_0000;
      assert r == m - 0x1_0000_0000 < BLOCKSIZE;
      AtSum(0, 0);
      PartsUnique(r, 0, r);
    }
  }

  /** How a write ends. A fault is a reference to a bitmap block that does not exist; in an overrun the
      file lacks blocks for the write, or the write is too long for the number of its blocks. */
  datatype WriteResult = Done | Refused | Fault | Overrun

  /** How a read ends. Failed: there is no block on the device to start from. TooLong: the size of the
      buffer for an indirect read does not fit in 32 bits. */
  datatype ReadResult = Success | Failed | TooLong

  /** The buffer for n bytes in whole blocks comes out too small exactly if 32 bits are too few for its size. */
  lemma {:induction false} BufferSize(n: nat)
    ensures At(BlocksFor(n)) % 0x1_0000_0000 < At(BlocksFor(n)) <==> At(BlocksFor(n)) >= 0x1_0000_0000
    ensures n + BLOCKSIZE <= 0x1_0000_0000 ==> At(BlocksFor(n)) < 0x1_0000_0000
  {
    AtSum(0, 0);
    if n > 0 { AtSum(BlocksFor(n) - 1, 1); }
  }

  /** How a change of length ends. */
  datatype ResizeResult = Resized | BadEnd | NoBlocks | BitmapEnd

  lemma {:induction false} NoDupDistinct(s: seq<nat>)
    requires NoDup(s)
    ensures Distinct(s)
  {
    forall i, j | 0 <= i < j < |s|
      ensures s[i] != s[j]
    {
      assert s == s[..j] + s[j..];
      assert s[i] in multiset(s[..j]) && s[j] in multiset(s[j..]);
      assert multiset(s)[s[i]] == 1;
    }
  }

  /** Moving a position on by `size` bytes. */
  lemma {:induction false} Moved(c: Chain, k: nat, a: nat, offset: nat, size: nat)
    requires k < |c| && BlockIndex(c, k, a) == Shift(offset)
    ensures var p := Corrected(c, k, a + Shift(Mask(offset) + size));
            && p == Corrected(c, 0, Shift(offset + size))
            && p.currnode < |c| && BlockIndex(c, p.currnode, p.anodeoffset) == Shift(offset + size)
    ensures Mask(Mask(offset) + size) == Mask(offset + size)
  {
    hide Corrected, At, Shift, Mask;
    var t := Mask(offset) + size;
    Parts(offset);
    Parts(t);
    AtSum(Shift(offset), Shift(t));
    PartsUnique(offset + size, Shift(offset) + Shift(t), Mask(t));
    AfterRun(c, k, a, Shift(t), Corrected(c, k, a + Shift(t)).currnode, Corrected(c, k, a + Shift(t)).anodeoffset);
  }

  /** The first `size` bytes of a chain. */
  ghost function ContentOf(c: Chain, v: seq<Block>, size: nat): seq<bv8> {
    if OnDisk(v, Flat(c)) && size <= |BytesOf(v, Flat(c))| then BytesOf(v, Flat(c))[..size] else []
  }

  lemma {:induction false} SameContent(c: Chain, v: seq<Block>, v': seq<Block>, own: seq<nat>, size: nat)
    requires OnlyBlocks(v, v', own) && forall b :: b in Flat(c) ==> b !in own
    ensures ContentOf(c, v', size) == ContentOf(c, v, size)
  {
    hide BytesOf, Flat;
    if OnDisk(v, Flat(c)) {
      OtherFile(v, v', own, Flat(c));
    }
  }

  lemma {:induction false} PrefixBytes(v: seq<Block>, s: seq<nat>, t: seq<nat>, size: nat)
    requires OnDisk(v, s) && OnDisk(v, t) && s <= t && size <= |BytesOf(v, s)|
    ensures size <= |BytesOf(v, t)| && BytesOf(v, t)[..size] == BytesOf(v, s)[..size]
  {
    hide Concat;
    var r := t[|s|..];
    assert t == s + r;
    assert Pick(v, t)[..|s|] == Pick(v, s);
    ConcatSum(Pick(v, s), Pick(v, t)[|s|..]);
    assert Pick(v, t) == Pick(v, s) + Pick(v, t)[|s|..];
  }

  /** Of what was written, the file keeps what lies before its end. */
  lemma {:induction false} WrittenPrefix(f: seq<bv8>, size: nat, at: nat, buffer: seq<bv8>, pad: seq<bv8>)
    requires at <= size <= |f| && at + |buffer| + |pad| <= |f| && (pad != [] ==> at + |buffer| > size)
    ensures var n := if size < at + |buffer| then at + |buffer| else size;
            Splice(f, at, buffer + pad)[..n] == Written(f[..size], at, buffer)
  {
  }

  lemma {:induction false} WrittenNothing(content: seq<bv8>, at: nat)
    requires at <= |content|
    ensures Written(content, at, []) == content
  {
  }

  lemma {:induction false} Plan(offset: nat, size: nat)
    requires size > 0
    ensures offset == At(Shift(offset)) + Mask(offset)
    ensures BlocksFor(offset + size) == Shift(offset) + BlocksFor(Mask(offset) + size)
  {
    hide At;
    Parts(offset);
    var p, n := Shift(offset), BlocksFor(Mask(offset) + size);
    AtSum(p, n);
    AtSum(p, n - 1);
    BlocksForUnique(offset + size, p + n);
  }

  lemma {:induction false} Corrected0(c: Chain, k: nat, a: nat)
    requires k < |c|
    ensures var p := Corrected(c, k, a); p.currnode < |c| && InAnode(c, p) && BlockIndex(c, p.currnode, p.anodeoffset) == BlockIndex(c, k, a)
  {
    CorrectedKeeps(c, k, a);
  }

  /** Every file of a store has its own blocks, all within the device. */
  lemma {:induction false} ReadyAgain(store: Store, cache: DataCache, f: nat)
    requires store.Valid() && f < |store.chains| && |store.chains[f]| > 0 && store.vol.numblocks <= |cache.disk|
    requires cache.Valid() && |cache.view| == |cache.disk|
    ensures Ready(cache, store.chains[f])
  {
    hide Flat;
    var flat := Flat(store.chains[f]);
    store.BlocksApart(f);
    NoDupDistinct(flat);
    forall i | 0 <= i < |flat|
      ensures 0 < flat[i] < |cache.view|
    {
      assert flat[i] in flat;
    }
  }

  // ---------------------------------------------------------------------
  // Seeking, in signed 32-bit numbers

  type Long = x: int | -0x8000_0000 <= x < 0x8000_0000

  datatype SeekMode = FromBeginning | FromCurrent | FromEnd | NoMode

  /** The lowest 32 bits of a number, read as a signed number. */
  function Signed32(n: int): Long {
    var m := n % 0x1_0000_0000;
    if m < 0x8000_0000 then m else m - 0x1_0000_0000
  }

  /** Where a seek leads. */
  function Target(mode: SeekMode, move: int, offset: nat, size: nat): int {
    match mode
    case FromBeginning => move
    case FromCurrent => offset + move
    case FromEnd => size + move
    case NoMode => -1
  }

  predicate Accepted(mode: SeekMode, move: Long, offset: nat, size: nat) {
    mode != NoMode && 0 <= Signed32(Target(mode, move, offset, size)) <= size
  }

  lemma {:induction false} SignedSum(n: int, move: Long)
    ensures Signed32(Signed32(n) + move) == Signed32(n + move)
    ensures Signed32(move) == move
  {
    assert (n % 0x1_0000_0000 - 0x1_0000_0000 + move) % 0x1_0000_0000 == (n + move) % 0x1_0000_0000;
    assert (n % 0x1_0000_0000 + move) % 0x1_0000_0000 == (n + move) % 0x1_0000_0000;
  }

  /** A seek gets where it should exactly if that is in the file and below 2 GB. A target outside the
      file is accepted exactly if it is past 4 GB by no more than the file has bytes. */
  lemma {:induction false} SeekExact(mode: SeekMode, move: Long, offset: nat, size: nat)
    requires mode != NoMode && offset <= size < 0x1_0000_0000
    ensures var target := Target(mode, move, offset, size);
            && (Accepted(mode, move, offset, size) && Signed32(target) == target <==> 0 <= target <= size && target < 0x8000_0000)
            && (0 <= target <= size ==> (Accepted(mode, move, offset, size) <==> target < 0x8000_0000))
            && (Accepted(mode, move, offset, size) && Signed32(target) != target <==> 0x1_0000_0000 <= target <= 0x1_0000_0000 + size)
  {
  }

  /** In a file of 2 GB a seek to the end is refused, however it is asked for, and one to the byte
      before is not. */
  lemma {:induction false} SeekEndRefused(offset: nat)
    requires offset <= 0x8000_0000
    ensures !Accepted(FromEnd, 0, offset, 0x8000_0000)
    ensures !Accepted(FromBeginning, Signed32(0x8000_0000), offset, 0x8000_0000)
    ensures !Accepted(FromCurrent, Signed32(0x8000_0000 - offset), offset, 0x8000_0000)
    ensures Accepted(FromEnd, -1, offset, 0x8000_0000)
    ensures Signed32(0x8000_0000) < 0
  {
  }

  /** d is the chain c with n more blocks at its end. */
  ghost predicate Grown(c: Chain, d: Chain, n: nat) {
    Prolongs(c, d) && Flat(c) <= Flat(d) && BlockCount(d) == BlockCount(c) + n
  }

  /** The chain for another number of blocks: it grows at its end; or loses its last blocks, and no others;
      or stays. */
  ghost predicate Refitted(c: Chain, d: Chain, oldblocks: nat, newblocks: nat) {
    if newblocks > oldblocks then Grown(c, d, newblocks - oldblocks)
    else if newblocks == oldblocks then d == c
    else |c| > 0 && d == Trunc(c, oldblocks - newblocks) && Flat(d) <= Flat(c) && |Flat(d)| == |Flat(c)| - (oldblocks - newblocks)
  }

  /** What is left of a file when n blocks are freed. */
  lemma {:induction false} Shrunk(v: seq<Block>, c: Chain, n: nat, size: nat)
    requires |c| > 0 && OnDisk(v, Flat(c)) && BlocksFor(size) + n <= BlockCount(c)
    ensures var d := Trunc(c, n);
            && OnDisk(v, Flat(d)) && BlocksFor(size) <= BlockCount(d)
            && size <= |BytesOf(v, Flat(d))| <= |BytesOf(v, Flat(c))|
            && BytesOf(v, Flat(d))[..size] == BytesOf(v, Flat(c))[..size]
            && Flat(d) <= Flat(c) && |Flat(d)| == |Flat(c)| - n
  {
    hide Flat, BlocksFor, BytesOf, At, Trunc;
    TruncFlat(c, n);
    var d := Trunc(c, n);
    assert |Flat(c)| == BlockCount(c) && |Flat(d)| == BlockCount(d);
    assert OnDisk(v, Flat(d)) && Flat(d) <= Flat(c);
    FileBounds(v, d, 0, BlocksFor(size));
    FileBounds(v, c, BlockCount(d), BlockCount(c));
    PrefixBytes(v, Flat(d), Flat(c), size);
  }

  /** What a read returns: bytes of the file; or, gone astray, what is in `first` for its first part. */
  ghost predicate IsRead(buffer: seq<bv8>, content: seq<bv8>, offset: nat, astray: bool, blockoffset: nat, first: seq<bv8>) {
    && offset + |buffer| <= |content| && blockoffset < BLOCKSIZE
    && if !astray then buffer == content[offset..offset + |buffer|]
       else
         var t := PartLength(blockoffset, |buffer|);
         blockoffset + t <= |first| && buffer == first[blockoffset..blockoffset + t] + content[offset + t..offset + |buffer|]
  }

  /** An open file: chain f of the store, its size, and the current position. */
  class File {
    const store: Store
    const cache: DataCache
    const f: nat
    var filesize: nat
    var currnode: nat
    var anodeoffset: nat
    var blockoffset: nat
    var offset: nat

    function AnodeChain(): Chain
      requires f < |store.chains|
      reads store
    {
      store.chains[f]
    }

    /** The store is in order, and the chain is long enough for the file. */
    ghost predicate Allocated()
      reads this`filesize, store, store.vol
    {
      && store.Valid() && f < |store.chains| && |AnodeChain()| > 0
      && BlocksFor(filesize) <= BlockCount(AnodeChain()) && filesize < 0x1_0000_0000
    }

    /** So is the cache; the device is large enough for the volume. */
    ghost predicate Sound()
      reads this`filesize, store, store.vol, cache, cache.blocknr, cache.dirty, cache.data
    {
      && f < |store.chains|
      && Allocated() && store.vol.numblocks <= |cache.disk| && Ready(cache, AnodeChain())
    }

    /** The stored position denotes the current offset. */
    ghost predicate Located()
      reads this, store
    {
      && f < |store.chains| && currnode < |AnodeChain()| && offset <= filesize
      && BlockIndex(AnodeChain(), currnode, anodeoffset) == Shift(offset) && blockoffset == Mask(offset)
    }

    /** What SeekInFile computes for the current offset. */
    ghost predicate Sought()
      requires f < |store.chains| && |AnodeChain()| > 0
      reads this, store
    {
      Position(currnode, anodeoffset) == Corrected(AnodeChain(), 0, Shift(offset)) && blockoffset == Mask(offset)
    }

    constructor (store: Store, cache: DataCache, f: nat, filesize: nat)
      requires store.Valid() && f < |store.chains| && store.vol.numblocks <= |cache.disk| && Ready(cache, store.chains[f])
      requires BlocksFor(filesize) <= BlockCount(store.chains[f]) && filesize < 0x1_0000_0000
      ensures Sound() && Located() && offset == 0
      ensures this.store == store && this.cache == cache && this.f == f && this.filesize == filesize
    {
      this.store, this.cache, this.f, this.filesize := store, cache, f, filesize;
      currnode, anodeoffset, blockoffset, offset := 0, 0, 0, 0;
      new;
      PartsUnique(0, 0, 0);
      assert store.chains[f][..0] == [];
    }

    ghost function Content(): seq<bv8>
      requires f < |store.chains|
      reads this`filesize, store, cache
    {
      ContentOf(AnodeChain(), cache.view, filesize)
    }

    /** Sets the position. The result is the old offset, or -1 after an error, as a signed 32-bit number. */
    method SeekInFile(move: Long, mode: SeekMode) returns (result: Long, error: bool)
      requires Sound() && Located()
      modifies this`currnode, this`anodeoffset, this`blockoffset, this`offset
      ensures error <==> !Accepted(mode, move, old(offset), filesize)
      ensures result == if error then -1 else Signed32(old(offset))
      ensures error ==> Position(currnode, anodeoffset) == old(Position(currnode, anodeoffset)) && offset == old(offset)
      ensures !error ==> offset == Signed32(Target(mode, move, old(offset), filesize)) && Sought()
      ensures Sound() && Located()
    {
      hide File.Located, File.Sound, File.Sought, InAnode, BlockIndex;
      SizeLimit();
      var oldoffset, newoffset := Signed32(offset), -1;
      match mode {
        case FromBeginning => newoffset := move;
        case FromEnd => newoffset := Signed32(filesize + move);
        case FromCurrent => newoffset := Signed32(oldoffset + move);
        case NoMode => return -1, true;
      }
      SignedSum(offset, move);
      if newoffset > filesize || newoffset < 0 {
        return -1, true;
      }
      MoveTo(newoffset);
      return oldoffset, false;
    }

    /** Sets the position, whatever it was. */
    method MoveTo(newoffset: nat)
      requires Sound() && newoffset <= filesize
      modifies this`currnode, this`anodeoffset, this`blockoffset, this`offset
      ensures Sound() && Located() && offset == newoffset && Sought()
    {
      hide Flat, BlockIndex, Corrected, Ready, BlocksFor, BlockCount, Sound, InAnode;
      NotEmpty();
      var found, k, a := CorrectAnodeAC(AnodeChain(), 0, Shift(newoffset));
      AtHead(AnodeChain(), Shift(newoffset));
      currnode, anodeoffset := k, a;
      blockoffset := Mask(newoffset);
      offset := newoffset;
    }

    /** The call from outside: takes a 64-bit number, and takes a negative result for an error. So it
        reports an error, with the position moved, exactly if the old position was 2 GB or more. */
    method Seekfile(move: nat, mode: SeekMode) returns (ok: bool)
      requires Sound() && Located()
      modifies this`currnode, this`anodeoffset, this`blockoffset, this`offset
      ensures Sound() && Located()
      ensures ok <==> Accepted(mode, Signed32(move), old(offset), filesize) && old(offset) < 0x8000_0000
      ensures if Accepted(mode, Signed32(move), old(offset), filesize)
              then offset == Signed32(Target(mode, Signed32(move), old(offset), filesize)) && Sought()
              else offset == old(offset) && Position(currnode, anodeoffset) == old(Position(currnode, anodeoffset))
    {
      hide File.Sound, File.Sought, BlockIndex;
      SizeLimit();
      var result, error := SeekInFile(Signed32(move), mode);
      ok := result >= 0;
    }

    lemma {:induction false} SizeLimit()
      requires Sound() && Located()
      ensures f < |store.chains| && |AnodeChain()| > 0 && offset <= filesize < 0x1_0000_0000
    {
    }

    lemma {:induction false} ContentSize()
      requires Sound()
      ensures f < |store.chains| && OnDisk(cache.view, Flat(AnodeChain()))
      ensures filesize <= |FileBytes(cache, AnodeChain())| && Content() == FileBytes(cache, AnodeChain())[..filesize]
    {
      hide Flat;
      FileBounds(cache.view, AnodeChain(), 0, BlocksFor(filesize));
    }

    /** What was written to this file alone does not show in any other. */
    lemma {:induction false} OtherContents(v: seq<Block>)
      requires Sound() && OnlyBlocks(v, cache.view, Flat(AnodeChain()))
      ensures forall g: nat, size: nat {:trigger ContentOf(store.chains[g], cache.view, size)} ::
                g < |store.chains| && g != f ==> ContentOf(store.chains[g], cache.view, size) == ContentOf(store.chains[g], v, size)
    {
      hide Flat, ContentOf, OnlyBlocks;
      forall g: nat, size: nat | g < |store.chains| && g != f
        ensures ContentOf(store.chains[g], cache.view, size) == ContentOf(store.chains[g], v, size)
      {
        store.BlocksApart(f);
        SameContent(store.chains[g], v, cache.view, Flat(AnodeChain()), size);
      }
    }

    lemma {:induction false} NotEmpty()
      requires Sound()
      ensures f < |store.chains| && |AnodeChain()| > 0
    {
    }

    lemma {:induction false} AtHead(c: Chain, n: nat)
      requires |c| > 0
      ensures var p := Corrected(c, 0, n); p.currnode < |c| && BlockIndex(c, p.currnode, p.anodeoffset) == n
      ensures InAnode(c, Corrected(c, 0, n))
    {
      CorrectedKeeps(c, 0, n);
      assert c[..0] == [];
    }

    /** How much of what is asked for there is to read. */
    function Readable(size: nat): nat
      requires offset <= filesize
      reads this`filesize, this`offset
    {
      if filesize - offset < size then filesize - offset else size
    }

    /** The read goes astray: it starts with part of a block, and the position is right behind an anode with
        the next anode somewhere else, as it can be when the file has grown. */
    predicate Astray(size: nat, maskok: bool)
      requires f < |store.chains| && currnode < |AnodeChain()|
      reads this, store
    {
      PartFirst(blockoffset, size, maskok) && Elsewhere(AnodeChain(), currnode, anodeoffset)
    }

    /** What is in the block with the number at the position. */
    ghost function FirstBlock(): seq<bv8>
      requires f < |store.chains| && currnode < |AnodeChain()|
      reads this, store, cache
    {
      var b := Address(AnodeChain(), currnode, anodeoffset);
      if b < |cache.view| then cache.view[b] else []
    }

    /** There is something to read, and no block on the device to start from. */
    ghost predicate Failing(size: nat, maskok: bool)
      requires f < |store.chains| && currnode < |AnodeChain()| && offset <= filesize
      reads this, store, cache
    {
      Readable(size) > 0 && Unreadable(|cache.view|, AnodeChain(), currnode, anodeoffset, blockoffset, Readable(size), maskok)
    }

    /** The position is corrected, or right behind its anode; and there is room for it on the device. */
    ghost predicate Reading(size: nat, maskok: bool)
      reads this, store, store.vol, cache, cache.blocknr, cache.dirty, cache.data
    {
      && Sound() && Located() && Standing(AnodeChain(), currnode, anodeoffset)
      && 0 < size <= filesize - offset
      && !Unreadable(|cache.view|, AnodeChain(), currnode, anodeoffset, blockoffset, size, maskok)
    }

    /** Unless a read goes astray, it starts from a block of the file, the one at the offset; and if it does,
        it does not. */
    lemma {:induction false} AstrayExact(size: nat, maskok: bool)
      requires Reading(size, maskok) && PartFirst(blockoffset, size, maskok)
      ensures var c := AnodeChain(); Shift(offset) < |Flat(c)| && Address(c, currnode, anodeoffset) < |cache.view|
      ensures var c := AnodeChain(); Flat(c)[Shift(offset)] == Address(c, currnode, anodeoffset) <==> !Astray(size, maskok)
    {
      hide Flat, PartFirst, BlockIndex, Distinct, OnDisk, Ready;
      InFile(size);
      NextNotEmpty(currnode);
      AddressExact(AnodeChain(), currnode, anodeoffset);
    }

    lemma {:induction false} InFile(size: nat)
      requires Sound() && Located() && 0 < size <= filesize - offset && Standing(AnodeChain(), currnode, anodeoffset)
      ensures Shift(offset) < BlockCount(AnodeChain()) && anodeoffset <= AnodeChain()[currnode].size
      ensures At(Shift(offset)) + blockoffset == offset
      ensures OnDisk(cache.view, Flat(AnodeChain())) && offset + size <= |FileBytes(cache, AnodeChain())|
      ensures |cache.view| <= NOBLOCK
    {
      hide Flat, BlocksFor, BlockIndex, At, Distinct, OnDisk, BytesOf;
      ContentSize();
      Parts(offset);
      WithinChain(cache.view, AnodeChain(), Shift(offset), blockoffset + size);
      if InAnode(AnodeChain(), Position(currnode, anodeoffset)) {
        InsideAnode(AnodeChain(), Position(currnode, anodeoffset));
      }
    }

    lemma {:induction false} FromCorrected(size: nat, maskok: bool)
      requires Sound() && Located() && 0 < size <= filesize - offset && InAnode(AnodeChain(), Position(currnode, anodeoffset))
      ensures !Unreadable(|cache.view|, AnodeChain(), currnode, anodeoffset, blockoffset, size, maskok) && !Astray(size, maskok)
    {
      hide Flat, BlocksFor, BlockIndex, At, Distinct, OnDisk, BytesOf, PartFirst;
      InFile(size);
      InsideAnode(AnodeChain(), Position(currnode, anodeoffset));
      BlockHere(cache.view, AnodeChain(), currnode, anodeoffset);
    }

    lemma {:induction false} NextNotEmpty(k: nat)
      requires Sound() && k < |AnodeChain()|
      ensures k + 1 < |AnodeChain()| ==> AnodeChain()[k + 1].size > 0
      ensures AnodeChain()[k].blocknr > 0
    {
      AllOkAt(store.vol.anodes, store.chains, f, store.vol.bitmapstart, |store.vol.bitmap|);
    }

    /** Reads up to `size` bytes; the position moves behind them. Fails only from where there is no block
        on the device. What is read are the bytes of the file unless the read goes astray; then the first part
        is from another block. */
    method ReadFromFile(size0: nat, maskok: bool) returns (r: ReadResult, buffer: seq<bv8>)
      requires Sound() && Located() && Standing(AnodeChain(), currnode, anodeoffset)
      modifies this`currnode, this`anodeoffset, this`blockoffset, this`offset,
               cache, cache.blocknr, cache.dirty, cache.data
      ensures Sound() && Located()
      ensures Content() == old(Content()) && |Content()| == filesize && cache.view == old(cache.view)
      ensures r == TooLong <==> old(Readable(size0) > 0 && !Direct(blockoffset, Readable(size0), maskok)
                                    && At(BlocksFor(blockoffset + Readable(size0))) >= 0x1_0000_0000)
      ensures r == Failed <==> r != TooLong && old(Failing(size0, maskok))
      ensures r != Success ==> offset == old(offset)
      ensures r == Success ==> |buffer| == (if size0 <= old(filesize - offset) then size0 else old(filesize - offset)) && offset == old(offset) + |buffer|
      ensures r == Success && buffer != [] ==>
                Sought() && IsRead(buffer, Content(), old(offset), old(Astray(Readable(size0), maskok)), old(blockoffset), old(FirstBlock()))
      ensures old(InAnode(AnodeChain(), Position(currnode, anodeoffset))) ==> r != Failed
      ensures old(InAnode(AnodeChain(), Position(currnode, anodeoffset))) ==> !old(Astray(Readable(size0), maskok))
      ensures old(InAnode(AnodeChain(), Position(currnode, anodeoffset))) && r == Success ==> Sought()
    {
      hide Allocated, Flat, BlockIndex, Corrected, Distinct, OnDisk, BlocksFor, At, BytesOf, PartFirst, Unreadable, Elsewhere, Ready, Direct, File.FirstBlock, Store.Valid, IsRead;
      ContentSize();
      r, buffer := Success, [];
      var size := size0;
      if offset + size > filesize { size := filesize - offset; }
      NotElsewhere(AnodeChain(), currnode, anodeoffset);
      if size == 0 {
        if InAnode(AnodeChain(), Position(currnode, anodeoffset)) { StaysPut(AnodeChain(), currnode, anodeoffset); }
        return;
      }
      r, buffer := ReadBytes(size, maskok);
      if r == Success {
        Advance(size);
      }
    }

    /** Reads `size` bytes that are there; the position stays. */
    method ReadBytes(size: nat, maskok: bool) returns (r: ReadResult, buffer: seq<bv8>)
      requires Sound() && Located() && Standing(AnodeChain(), currnode, anodeoffset) && 0 < size <= filesize - offset
      modifies cache, cache.blocknr, cache.dirty, cache.data
      ensures Sound() && Located() && cache.view == old(cache.view) && Content() == old(Content()) && |Content()| == filesize
      ensures r == TooLong <==> !Direct(blockoffset, size, maskok) && At(BlocksFor(blockoffset + size)) >= 0x1_0000_0000
      ensures r == Failed <==> r != TooLong && Unreadable(|cache.view|, AnodeChain(), currnode, anodeoffset, blockoffset, size, maskok)
      ensures r != Success ==> buffer == []
      ensures InAnode(AnodeChain(), Position(currnode, anodeoffset)) ==> r != Failed
      ensures r == Success ==> |buffer| == size && IsRead(buffer, Content(), offset, Astray(size, maskok), blockoffset, old(FirstBlock()))
    {
      hide Allocated, Flat, BlockIndex, Corrected, Distinct, OnDisk, BlocksFor, At, BytesOf, PartFirst, Unreadable, Elsewhere, Wanted, Ready, Direct, File.Astray, Store.Valid, IsRead;
      ContentSize();
      InFile(size);
      NextNotEmpty(currnode);
      if InAnode(AnodeChain(), Position(currnode, anodeoffset)) { FromCorrected(size, maskok); }
      var direct := ChooseDirect(blockoffset, size, maskok);
      if !direct {
        var blockstoread := BlocksFor(blockoffset + size);
        var buffersize := At(blockstoread) % 0x1_0000_0000;
        BufferSize(blockoffset + size);
        if buffersize < At(blockstoread) {
          return TooLong, [];
        }
      }
      var error;
      error, buffer := ReadAt(cache, AnodeChain(), currnode, anodeoffset, blockoffset, size, maskok);
      if error {
        return Failed, [];
      }
      WhatIsRead(size, maskok, buffer);
      r := Success;
    }

    /** What is read, compared with what is in the file. */
    lemma {:induction false} WhatIsRead(size: nat, maskok: bool, buffer: seq<bv8>)
      requires Reading(size, maskok)
      requires var c := AnodeChain();
               && At(BlockIndex(c, currnode, anodeoffset)) + blockoffset + size <= |FileBytes(cache, c)|
               && buffer == Wanted(cache.view, c, currnode, anodeoffset, blockoffset, size, maskok)
      ensures |Content()| == filesize && |buffer| == size
      ensures IsRead(buffer, Content(), offset, Astray(size, maskok), blockoffset, FirstBlock())
    {
      hide Allocated, Flat, BlockIndex, Corrected, Distinct, OnDisk, BlocksFor, At, BytesOf, PartFirst, Elsewhere;
      ContentSize();
      InFile(size);
      NextNotEmpty(currnode);
      var g, t := FileBytes(cache, AnodeChain()), PartLength(blockoffset, size);
      assert Content()[offset..offset + size] == g[offset..offset + size];
      assert Content()[offset + t..offset + size] == g[offset + t..offset + size];
      if !Astray(size, maskok) {
        WantedRight(cache.view, AnodeChain(), currnode, anodeoffset, blockoffset, size, maskok);
      } else {
        assert buffer == FirstBlock()[blockoffset..blockoffset + t] + g[offset + t..offset + size];
      }
    }

    method Advance(size: nat)
      requires Sound() && Located() && offset + size <= filesize
      modifies this`currnode, this`anodeoffset, this`blockoffset, this`offset
      ensures Sound() && Located() && Sought()
      ensures offset == old(offset) + size
    {
      hide Flat, BlockIndex, Corrected, Ready, BlocksFor, BlockCount, Sound, InAnode;
      NotEmpty();
      Moved(AnodeChain(), currnode, anodeoffset, offset, size);
      var found, k, a := CorrectAnodeAC(AnodeChain(), currnode, anodeoffset + Shift(blockoffset + size));
      currnode, anodeoffset := k, a;
      blockoffset := Mask(blockoffset + size);
      offset := offset + size;
    }

    /** How many blocks are asked for. */
    function More(newfileoffset: nat): nat
      reads this`filesize
    {
      if Blocks32(newfileoffset) > Blocks32(filesize) then Blocks32(newfileoffset) - Blocks32(filesize) else 0
    }

    /** More blocks are asked for and available, but the file ends where the bitmap ends. */
    predicate FaultsGrowing(newfileoffset: nat)
      requires f < |store.chains| && |AnodeChain()| > 0
      reads this`filesize, store, store.vol
    {
      && Blocks32(newfileoffset) > Blocks32(filesize)
      && store.vol.allocAvailable >= Blocks32(newfileoffset) - Blocks32(filesize)
      && store.vol.AtBitmapEnd(Last(AnodeChain()))
    }

    /** Allocates the blocks the file needs to reach a new end; what is in the file stays. Unless the
        file had them already, it then has these blocks exactly if 32 bits were enough to count them. */
    method Grow(newfileoffset: nat, online: bool) returns (ok: bool, fault: bool)
      requires Sound() && Located() && newfileoffset < 0x1_0000_0000
      modifies store, store.vol
      ensures Sound() && Located() && Content() == old(Content())
      ensures |store.chains| == old(|store.chains|) && store.chains == old(store.chains)[f := store.chains[f]]
      ensures ok ==> (BlocksFor(newfileoffset) <= BlockCount(AnodeChain()) <==>
                newfileoffset + BLOCKSIZE <= 0x1_0000_0000 || BlocksFor(newfileoffset) <= old(BlockCount(AnodeChain())))
      ensures newfileoffset + BLOCKSIZE > 0x1_0000_0000 ==> ok && store.chains == old(store.chains)
      ensures ok ==> Grown(old(AnodeChain()), AnodeChain(), More(newfileoffset))
      ensures fault <==> old(FaultsGrowing(newfileoffset))
      ensures fault ==> !ok && store.chains == old(store.chains)
      ensures !ok ==> Flat(AnodeChain()) == Flat(old(AnodeChain()))
      ensures old(store.vol.allocAvailable) >= BlocksFor(newfileoffset) && !online && !fault ==> ok
    {
      hide Store.Valid;
      hide Flat, BlockIndex, Distinct, OnDisk, BlocksFor, At, BytesOf;
      ContentSize();
      Blocks32Exact(filesize);
      Blocks32Exact(newfileoffset);
      var oldblocksinfile, newblocksinfile := Blocks32(filesize), Blocks32(newfileoffset);
      ok, fault := true, false;
      if newblocksinfile > oldblocksinfile {
        ghost var c := AnodeChain();
        ok, fault := store.Extend(f, newblocksinfile - oldblocksinfile, online);
        ReadyAgain(store, cache, f);
        ProlongsIndex(c, AnodeChain(), currnode, anodeoffset);
        PrefixBytes(cache.view, Flat(c), Flat(AnodeChain()), filesize);
      }
    }

    method SetFileSize(size: nat)
      requires Sound() && Located() && offset <= size
      requires BlocksFor(size) <= BlockCount(AnodeChain()) && size < 0x1_0000_0000
      modifies this`filesize
      ensures Sound() && Located() && filesize == size
    {
      hide Flat, BlocksFor, BlockCount, Ready;
      filesize := size;
    }

    lemma {:induction false} HoldsFile()
      requires Sound()
      ensures BlocksFor(filesize) <= BlockCount(AnodeChain()) && filesize < 0x1_0000_0000
    {
    }

    /** Writes into blocks the file has. */
    method PutData(buffer: seq<bv8>, maskok: bool)
      requires Sound() && Located() && buffer != [] && offset + |buffer| < 0x1_0000_0000
      requires BlocksFor(offset + |buffer|) <= BlockCount(AnodeChain()) && |Content()| == filesize
      modifies this`filesize, this`currnode, this`anodeoffset, this`blockoffset, this`offset,
               cache, cache.blocknr, cache.dirty, cache.data
      ensures Sound() && Located() && Sought() && Kept(cache, AnodeChain(), old(cache.view))
      ensures Content() == Written(old(Content()), old(offset), buffer) && filesize == |Content()|
      ensures offset == old(offset) + |buffer|
    {
      hide Flat, BlockIndex, Distinct, OnDisk, BlocksFor, At, BytesOf, Splice, OnlyBlocks, Written, Allocated, Ready, Prolongs, Corrected, Store.Valid;
      ContentSize();
      var newfileoffset := offset + |buffer|;
      HoldsFile();
      ghost var f := FileBytes(cache, AnodeChain());
      ghost var pad := PutBytes(buffer, maskok);
      WrittenPrefix(f, filesize, offset, buffer, pad);
      SetFileSize(if filesize < newfileoffset then newfileoffset else filesize);
      ContentSize();
      Advance(|buffer|);
    }

    /** Writes into blocks the file has; size and position stay. What follows the buffer, if the file
        ends there, may be filled up to the end of a block. */
    method PutBytes(buffer: seq<bv8>, maskok: bool) returns (ghost pad: seq<bv8>)
      requires Sound() && Located() && buffer != []
      requires BlocksFor(offset + |buffer|) <= BlockCount(AnodeChain())
      modifies cache, cache.blocknr, cache.dirty, cache.data
      ensures Sound() && Located() && Kept(cache, AnodeChain(), old(cache.view))
      ensures pad != [] ==> offset + |buffer| > filesize
      ensures var g := old(FileBytes(cache, AnodeChain()));
              offset + |buffer| + |pad| <= |g| && FileBytes(cache, AnodeChain()) == Splice(g, offset, buffer + pad)
    {
      hide Flat, BlockIndex, Distinct, OnDisk, BlocksFor, At, BytesOf, Splice, OnlyBlocks, Allocated, Prolongs, Store.Valid;
      var found, k, a := CorrectAnodeAC(AnodeChain(), currnode, anodeoffset);
      Corrected0(AnodeChain(), currnode, anodeoffset);
      Plan(offset, |buffer|);
      pad := WriteAt(cache, AnodeChain(), k, a, blockoffset, buffer, offset + |buffer| > filesize, maskok);
    }

    /** What 32 bits can count: the blocks up to the new end, unless the file has them already, and
        those the buffer covers. */
    predicate Countable(size: nat)
      requires f < |store.chains|
      reads this, store
    {
      || offset + size + BLOCKSIZE <= 0x1_0000_0000
      || (BlocksFor(offset + size) <= BlockCount(AnodeChain()) && Mask(offset) + size + BLOCKSIZE <= 0x1_0000_0000)
    }

    lemma {:induction false} MaskBelow(n: nat)
      ensures Mask(n) <= n
    {
      Parts(n);
    }

    /** Writes the buffer at the current position and moves the position behind it. Refused only if
        the file would reach 4 GB, or if the blocks it needs cannot be had; then nothing changes. The
        model stops before an overrun: the file lacks blocks for the write, or the number of blocks to
        write comes out as 0. */
    method WriteToFile(buffer: seq<bv8>, maskok: bool, online: bool) returns (r: WriteResult)
      requires Sound() && Located() && |buffer| < 0x1_0000_0000
      modifies this, store, store.vol, cache, cache.blocknr, cache.dirty, cache.data
      ensures Sound() && Located() && old(offset) <= |old(Content())| == old(filesize)
      ensures r == Done ==> Content() == Written(old(Content()), old(offset), buffer) && filesize == |Content()|
      ensures r == Done ==> offset == old(offset) + |buffer| && (buffer != [] ==> Sought())
      ensures r == Done && buffer != [] ==> Grown(old(AnodeChain()), AnodeChain(), old(More(offset + |buffer|)))
      ensures r == Refused || r == Fault ==> Flat(AnodeChain()) == Flat(old(AnodeChain()))
      ensures r == Done && buffer != [] ==> Mask(old(offset)) + |buffer| + BLOCKSIZE <= 0x1_0000_0000
      ensures r != Done ==> Content() == old(Content()) && filesize == old(filesize) && offset == old(offset)
      ensures r == Overrun <==> buffer != [] && old(offset) + |buffer| < 0x1_0000_0000 && old(!Countable(|buffer|))
      ensures r == Overrun ==> BlockCount(AnodeChain()) < BlocksFor(old(offset) + |buffer|) || Blocks32(Mask(old(offset)) + |buffer|) == 0
      ensures r == Fault <==> buffer != [] && old(offset) + |buffer| < 0x1_0000_0000 && old(FaultsGrowing(offset + |buffer|))
      ensures r == Refused ==> old(offset) + |buffer| >= 0x1_0000_0000 || online || old(store.vol.allocAvailable) < BlocksFor(old(offset) + |buffer|)
      ensures |store.chains| == old(|store.chains|) && store.chains == old(store.chains)[f := store.chains[f]]
      ensures forall g: nat, size: nat {:trigger ContentOf(store.chains[g], cache.view, size)} ::
                g < |store.chains| && g != f ==> ContentOf(store.chains[g], cache.view, size) == ContentOf(old(store.chains)[g], old(cache.view), size)
    {
      hide Store.Valid;
      hide Flat, BlockIndex, Distinct, OnDisk, BlocksFor, At, BytesOf, ContentOf, Allocated, Ready, Written, OnlyBlocks, BlockCount,
        File.FaultsGrowing, Blocks32, InAnode, Corrected, Grown, File.More, File.Sought;
      ContentSize();
      if buffer == [] {
        WrittenNothing(Content(), offset);
        return Done;
      }
      r := Enlarge(|buffer|, online);
      if r == Done {
        ContentSize();
        PutAlone(buffer, maskok);
      }
    }

    /** Gets the blocks for a write of this size at the current position. */
    method Enlarge(size: nat, online: bool) returns (r: WriteResult)
      requires Sound() && Located() && 0 < size < 0x1_0000_0000
      modifies store, store.vol
      ensures Sound() && Located() && Content() == old(Content())
      ensures |store.chains| == old(|store.chains|) && store.chains == old(store.chains)[f := store.chains[f]]
      ensures r == Done ==> offset + size < 0x1_0000_0000 && BlocksFor(offset + size) <= BlockCount(AnodeChain())
      ensures r == Done ==> Grown(old(AnodeChain()), AnodeChain(), old(More(offset + size))) && Mask(offset) + size + BLOCKSIZE <= 0x1_0000_0000
      ensures r == Overrun <==> offset + size < 0x1_0000_0000 && old(!Countable(size))
      ensures r == Overrun ==> BlockCount(AnodeChain()) < BlocksFor(offset + size) || Blocks32(Mask(offset) + size) == 0
      ensures r == Fault <==> offset + size < 0x1_0000_0000 && old(FaultsGrowing(offset + size))
      ensures r == Refused ==> offset + size >= 0x1_0000_0000 || online || old(store.vol.allocAvailable) < BlocksFor(offset + size)
      ensures r == Refused || r == Fault ==> Flat(AnodeChain()) == Flat(old(AnodeChain()))
    {
      hide Store.Valid;
      hide Flat, BlockIndex, Distinct, OnDisk, BlocksFor, At, BytesOf, ContentOf, Allocated, Ready, Written, OnlyBlocks, BlockCount,
        File.FaultsGrowing, Blocks32, InAnode, Corrected, Grown, File.More, File.Sought;
      ContentSize();
      var newfileoffset := (offset + size) % 0x1_0000_0000;
      if newfileoffset < offset {
        return Refused;
      }
      MaskBelow(offset);
      Blocks32Exact(blockoffset + size);
      var ok, fault := Grow(newfileoffset, online);
      if !ok {
        return if fault then Fault else Refused;
      }
      var totalblocks := Blocks32(blockoffset + size);
      if BlocksFor(newfileoffset) > BlockCount(AnodeChain()) || BlocksFor(blockoffset + size) > totalblocks {
        return Overrun;
      }
      r := Done;
    }

    /** No other file changes. */
    method PutAlone(buffer: seq<bv8>, maskok: bool)
      requires Sound() && Located() && buffer != [] && offset + |buffer| < 0x1_0000_0000
      requires BlocksFor(offset + |buffer|) <= BlockCount(AnodeChain()) && |Content()| == filesize
      modifies this`filesize, this`currnode, this`anodeoffset, this`blockoffset, this`offset,
               cache, cache.blocknr, cache.dirty, cache.data
      ensures Sound() && Located() && Sought()
      ensures Content() == Written(old(Content()), old(offset), buffer) && filesize == |Content()|
      ensures offset == old(offset) + |buffer|
      ensures forall g: nat, size: nat {:trigger ContentOf(store.chains[g], cache.view, size)} ::
                g < |store.chains| && g != f ==> ContentOf(store.chains[g], cache.view, size) == ContentOf(store.chains[g], old(cache.view), size)
    {
      hide Flat, BlockIndex, Distinct, OnDisk, BlocksFor, BlockCount, At, BytesOf, ContentOf, Allocated, Ready, Written, OnlyBlocks, Corrected, InAnode,
        Store.Valid, File.Sought, File.Located;
      ghost var v := cache.view;
      PutData(buffer, maskok);
      OtherContents(v);
    }

    lemma {:induction false} Whole()
      requires Sound() && Located()
      ensures |Content()| == filesize
    {
      ContentSize();
    }

    /** Enough blocks for a new end, and not more than were there if that is less; and the position is still a
        position if it is before that end. */
    ghost predicate Fitted(abseof: nat, v: seq<Block>, content: seq<bv8>)
      reads this, store, store.vol, cache, cache.blocknr, cache.dirty, cache.data
    {
      && store.Valid() && f < |store.chains| && |AnodeChain()| > 0 && store.vol.numblocks <= |cache.disk|
      && Ready(cache, AnodeChain()) && BlocksFor(abseof) <= BlockCount(AnodeChain()) && cache.view == v
      && abseof <= |FileBytes(cache, AnodeChain())|
      && (forall i :: 0 <= i < abseof && i < |content| ==> FileBytes(cache, AnodeChain())[i] == content[i])
      && (offset < abseof ==>
            currnode < |AnodeChain()| && BlockIndex(AnodeChain(), currnode, anodeoffset) == Shift(offset) && blockoffset == Mask(offset))
    }

    /** Allocates or frees blocks for a new end. */
    method Allot(abseof: nat, online: bool) returns (fault: bool, bad: bool)
      requires Sound() && Located() && abseof < 0x8000_0000
      modifies store, store.vol
      ensures |store.chains| == old(|store.chains|) && store.chains == old(store.chains)[f := store.chains[f]]
      ensures fault <==> old(FaultsGrowing(abseof))
      ensures fault || bad ==> Sound() && Located() && Content() == old(Content()) && Flat(AnodeChain()) == Flat(old(AnodeChain()))
      ensures bad ==> online || old(store.vol.allocAvailable) < BlocksFor(abseof)
      ensures !fault && !bad ==> Fitted(abseof, old(cache.view), old(Content()))
      ensures !fault && !bad ==> Refitted(old(AnodeChain()), AnodeChain(), Blocks32(filesize), Blocks32(abseof))
    {
      hide Store.Valid;
      hide Flat, BlockIndex, Distinct, OnDisk, At, BytesOf, Ready, BlockCount, InAnode, Corrected, Blocks32, Grown, Trunc, Flat, BlocksFor, File.Fitted, OnlyBlocks, File.Content;
      SizeLimit();
      Blocks32Exact(filesize);
      Blocks32Exact(abseof);
      var oldblocksinfile, newblocksinfile := Blocks32(filesize), Blocks32(abseof);
      fault, bad := false, false;
      if newblocksinfile > oldblocksinfile {
        var ok;
        ok, fault := Grow(abseof, online);
        bad := !ok && !fault;
        if ok { KeepsContent(abseof); }
      } else if oldblocksinfile > newblocksinfile {
        FewerBlocks(abseof, filesize);
        ShrinkBy(oldblocksinfile - newblocksinfile, abseof);
      } else {
        LongEnough(abseof);
        KeepsContent(abseof);
      }
    }

    lemma {:induction false} LongEnough(abseof: nat)
      requires Sound() && abseof < 0x8000_0000 && Blocks32(abseof) == Blocks32(filesize)
      ensures BlocksFor(abseof) <= BlockCount(AnodeChain())
    {
      hide BlocksFor, BlockCount;
      Blocks32Exact(filesize);
      Blocks32Exact(abseof);
    }

    lemma {:induction false} KeepsContent(abseof: nat)
      requires Sound() && Located() && BlocksFor(abseof) <= BlockCount(AnodeChain())
      ensures Fitted(abseof, cache.view, Content())
    {
      hide Flat, BlockIndex, Distinct, At;
      ContentSize();
      FileBounds(cache.view, AnodeChain(), 0, BlocksFor(abseof));
    }

    /** Frees blocks from the end, of a file that keeps the first abseof bytes. */
    method ShrinkBy(n: nat, abseof: nat)
      requires Sound() && Located() && n + BlocksFor(abseof) <= BlocksFor(filesize) && abseof <= filesize
      modifies store, store.vol
      ensures |store.chains| == old(|store.chains|) && store.chains == old(store.chains)[f := store.chains[f]]
      ensures Fitted(abseof, old(cache.view), old(Content()))
      ensures var c, d := old(AnodeChain()), AnodeChain(); d == Trunc(c, n) && Flat(d) <= Flat(c) && |Flat(d)| == |Flat(c)| - n
    {
      hide Store.Valid;
      hide Flat, BlockIndex, Distinct, OnDisk, At, BytesOf, BlockCount, InAnode, Corrected, BlocksFor, Trunc, Prolongs, OnlyBlocks;
      ghost var c := AnodeChain();
      ContentSize();
      Shrunk(cache.view, c, n, abseof);
      if offset < abseof {
        ShiftBelow(offset, abseof);
        TruncPosition(c, n, currnode, anodeoffset);
      }
      store.Shrink(f, n);
      ReadyAgain(store, cache, f);
    }

    lemma {:induction false} ShiftBelow(m: nat, n: nat)
      requires m < n
      ensures Shift(m) < BlocksFor(n)
    {
      hide At;
      Parts(m);
      AtStrict(Shift(m), BlocksFor(n));
    }

    /** Sets the length; a position behind it moves there. */
    method SetEnd(abseof: nat, ghost content: seq<bv8>)
      requires abseof < 0x8000_0000 && Fitted(abseof, cache.view, content)
      modifies this
      ensures Sound() && Located() && filesize == abseof == |Content()|
      ensures forall i :: 0 <= i < abseof && i < |content| ==> Content()[i] == content[i]
      ensures if old(offset) < abseof then offset == old(offset) && currnode == old(currnode) && anodeoffset == old(anodeoffset)
              else offset == abseof && Sought()
    {
      hide Flat, BlockIndex, Distinct, OnDisk, At, BytesOf, BlockCount, InAnode, Corrected, BlocksFor, Ready;
      filesize := abseof;
      if offset >= abseof {
        MoveTo(abseof);
      }
      ContentSize();
    }

    /** The end that is asked for; negative if there is none. */
    function NewEnd(releof: Long, mode: SeekMode): Long
      reads this`offset, this`filesize
    {
      if mode == NoMode then -1 else Signed32(Target(mode, releof, offset, filesize))
    }

    method EndOf(releof: Long, mode: SeekMode) returns (abseof: Long)
      ensures abseof == NewEnd(releof, mode)
    {
      abseof := -1;
      match mode {
        case FromBeginning => abseof := releof;
        case FromEnd => abseof := Signed32(filesize + releof);
        case FromCurrent => abseof := Signed32(offset + releof);
        case NoMode =>
      }
      SignedSum(0, releof);
    }

    /** Changes the length of the file. What lies before the new end stays; what is added is whatever is in
        the new blocks. A position behind the new end moves there; any other stays as it is stored. */
    method ChangeFileSize(releof: Long, mode: SeekMode, online: bool) returns (r: ResizeResult)
      requires Sound() && Located()
      modifies this, store, store.vol
      ensures Sound() && Located() && cache.view == old(cache.view)
      ensures |store.chains| == old(|store.chains|) && store.chains == old(store.chains)[f := store.chains[f]]
      ensures r == BadEnd <==> old(NewEnd(releof, mode)) < 0
      ensures r == BitmapEnd <==> old(NewEnd(releof, mode) >= 0 && FaultsGrowing(NewEnd(releof, mode)))
      ensures r == NoBlocks ==> old(NewEnd(releof, mode)) >= 0
      ensures r == NoBlocks ==> online || old(NewEnd(releof, mode) >= 0 && store.vol.allocAvailable < BlocksFor(NewEnd(releof, mode)))
      ensures r != Resized ==> Content() == old(Content()) && filesize == old(filesize) && offset == old(offset)
      ensures r != Resized ==> Flat(AnodeChain()) == Flat(old(AnodeChain()))
      ensures r == Resized ==> filesize == old(NewEnd(releof, mode)) == |Content()| && |old(Content())| == old(filesize)
      ensures r == Resized ==> forall i :: 0 <= i < filesize && i < old(filesize) ==> Content()[i] == old(Content())[i]
      ensures r == Resized ==> if old(offset) < filesize
                               then offset == old(offset) && currnode == old(currnode) && anodeoffset == old(anodeoffset)
                               else offset == filesize && Sought()
      ensures r == Resized ==> Refitted(old(AnodeChain()), AnodeChain(), Blocks32(old(filesize)), Blocks32(filesize))
    {
      hide Store.Valid;
      hide Flat, BlockIndex, Distinct, OnDisk, BlocksFor, At, BytesOf, Allocated, Ready, BlockCount, File.FaultsGrowing, InAnode, Corrected, Blocks32, Refitted,
        File.More, File.Content, Signed32, Target, File.Sought;
      SizeLimit();
      Whole();
      var abseof := EndOf(releof, mode);
      if abseof < 0 {
        return BadEnd;
      }
      var fault, bad := Allot(abseof, online);
      if fault || bad {
        return if fault then BitmapEnd else NoBlocks;
      }
      SetEnd(abseof, old(Content()));
      r := Resized;
    }

    lemma {:induction false} SoughtInAnode()
      requires f < |store.chains| && |AnodeChain()| > 0 && Sought()
      ensures InAnode(AnodeChain(), Position(currnode, anodeoffset))
    {
      CorrectedKeeps(AnodeChain(), 0, Shift(offset));
    }
  }

  method ReadAgain(file: File, at: nat, n: nat, maskok: bool) returns (back: seq<bv8>)
    requires file.Sound() && file.Located() && at + n <= file.filesize == |file.Content()|
    requires at < 0x8000_0000 && Mask(at) + n + BLOCKSIZE <= 0x1_0000_0000
    modifies file, file.cache, file.cache.blocknr, file.cache.dirty, file.cache.data
    ensures back == old(file.Content())[at..at + n]
  {
    hide Flat, BlockIndex, Distinct, OnDisk, BlocksFor, At, BytesOf, ContentOf, Ready, Corrected, InAnode;
    hide File.Allocated, File.Sound, File.Located;
    file.SizeLimit();
    SeekExact(FromBeginning, at, file.offset, file.filesize);
    BufferSize(Mask(at) + n);
    var result, error := file.SeekInFile(at, FromBeginning);
    file.NotEmpty();
    file.SoughtInAnode();
    var r;
    r, back := file.ReadFromFile(n, maskok);
  }

  /** What was written somewhere is read there again. */
  method WriteAndReadBack(file: File, at: nat, buffer: seq<bv8>, maskok: bool, online: bool) returns (ok: bool, back: seq<bv8>)
    requires file.Sound() && file.Located() && at <= file.filesize && |buffer| < 0x1_0000_0000
    requires at < 0x8000_0000
    modifies file, file.store, file.store.vol, file.cache, file.cache.blocknr, file.cache.dirty, file.cache.data
    ensures ok ==> back == buffer
  {
    hide Flat, BlockIndex, Distinct, OnDisk, BlocksFor, At, BytesOf, ContentOf, Ready, Corrected, InAnode;
    hide File.Allocated, File.Sound, File.Located, File.Content, File.Countable, File.FaultsGrowing, File.Sought, Blocks32, BlockCount;
    file.SizeLimit();
    SeekExact(FromBeginning, at, file.offset, file.filesize);
    var result, error := file.SeekInFile(at, FromBeginning);
    var r := file.WriteToFile(buffer, maskok, online);
    ok := r == Done;
    back := [];
    if ok {
      file.NotEmpty();
      ghost var content := file.Content();
      back := ReadAgain(file, at, |buffer|, maskok);
      assert content[at..at + |buffer|] == buffer;
    }
  }

  /** An empty file that is to grow to the largest size there is: no block is allocated for it, and it
      cannot hold its contents. */
  method GrowLost(file: File, online: bool) returns (ok: bool)
    requires file.Sound() && file.Located() && file.filesize == 0 && BlockCount(file.AnodeChain()) == 0
    requires BLOCKSIZE > 1
    modifies file.store, file.store.vol
    ensures ok && file.f < |file.store.chains| && Flat(file.AnodeChain()) == [] && BlocksFor(0xFFFF_FFFF) > 0
    ensures !file.Countable(0xFFFF_FFFF)
  {
    hide File.Sound, Flat;
    file.SizeLimit();
    var fault;
    ok, fault := file.Grow(0xFFFF_FFFF, online);
    assert |Flat(file.AnodeChain())| == BlockCount(file.AnodeChain());
  }
}
