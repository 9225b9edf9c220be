/** A small volume on which a read returns a byte of another file (PFS3lib/disk.cpp). */
module FileFaults {
  import opened Extents
  import opened Bitmaps
  import opened Ledger
  import opened Postponement
  import opened Volumes
  import opened Stores
  import opened DataCaches
  import opened Positions
  import opened Contents
  import opened Files

  /** The bitmap of a volume of 288 blocks from block 2 on, with 100 and 101 in use. */
  function TwoBits(): Bits {
    seq(288, i => i != 98 && i != 99)
  }

  /** Two files of one block each. */
  const FIRST: Chain := [Node(6, 100, 1, 0)]
  const SECOND: Chain := [Node(7, 101, 1, 0)]

  lemma {:induction false} OneFlat()
    ensures Flat(FIRST) == [100] && Flat(SECOND) == [101] && BlockCount(FIRST) == 1
  {
    assert FIRST[..0] == [] && SECOND[..0] == [];
    assert Run(100, 1) == [100] && Run(101, 1) == [101];
  }

  lemma {:induction false} TwoFlat()
    ensures AllFlat([FIRST, SECOND]) == [100, 101]
    ensures AllOk(map[6 := Anode(1, 100, 0), 7 := Anode(1, 101, 0)], [FIRST, SECOND], 2, 288)
  {
    OneFlat();
    assert [FIRST, SECOND][..1] == [FIRST] && [FIRST][..0] == [];
    assert AllFlat([FIRST]) == [100];
  }

  lemma {:induction false} TwoFree()
    ensures FreeRange(TwoBits(), 2, 290) == UserArea(2, 290) - {100, 101} && |TwoBits()| == 288
  {
  }

  lemma {:induction false} AreaIsRun()
    ensures UserArea(2, 290) == RunSet(2, 288)
  {
  }

  lemma {:induction false} TwoBalanced()
    ensures Balanced(TwoBits(), 2, 290, [], 286, [100, 101], multiset(UserArea(2, 290)))
  {
    hide RunSet, TwoBits, FreeRange, UserArea;
    var area, f := UserArea(2, 290), FreeRange(TwoBits(), 2, 290);
    TwoFree();
    AreaIsRun();
    RunCount(2, 288);
    assert 100 in area && 101 in area;
    DisjointUnion(f, {100, 101});
    assert f + {100, 101} == area;
    PendingFlatEmpty();
    assert multiset({100, 101}) == multiset([100, 101]);
  }

  /** The volume with these two files. */
  method TwoFiles() returns (store: Store)
    ensures fresh(store) && fresh(store.vol) && store.Valid() && store.chains == [FIRST, SECOND]
    ensures store.vol.numblocks == 290 && store.vol.bitmapstart == 2 && |store.vol.bitmap| == 288 && store.vol.allocAvailable == 286
  {
    hide TwoBits, Flat, AllFlat, AllOk, Balanced, UserArea, IsFree, BlockCount;
    var d := Disk(map[6 := Anode(1, 100, 0), 7 := Anode(1, 101, 0)], TwoBits(), 286, Nothing);
    TwoFree();
    var vol := new Volume.Mount(d, Geometry(2, 290, 0, 9, 1));
    TwoFlat();
    TwoBalanced();
    store := new Store(vol, [FIRST, SECOND]);
  }

  /** What is in the block of the second file. */
  function Other(): Block {
    seq(BLOCKSIZE, i => 0x11)
  }

  function SectorAt(b: nat): Block {
    if b == 101 then Other() else Fill()
  }

  /** The device. */
  function Sectors(): seq<Block> {
    seq(290, b requires 0 <= b < 290 => SectorAt(b))
  }

  /** The first file, with the position at its end. */
  method AtEndOfFirst() returns (file: File)
    requires 1 < BLOCKSIZE <= 0x1_0000
    ensures fresh(file) && fresh(file.store) && fresh(file.store.vol) && fresh(file.cache)
    ensures fresh(file.cache.blocknr) && fresh(file.cache.dirty) && fresh(file.cache.data)
    ensures file.Sound() && file.Located() && file.store.chains == [FIRST, SECOND] && file.f == 0 && file.cache.view == Sectors()
    ensures file.store.vol.bitmapstart == 2 && |file.store.vol.bitmap| == 288 && file.store.vol.allocAvailable == 286
    ensures file.offset == file.filesize == BLOCKSIZE && file.currnode == 0 && file.anodeoffset == 1 && file.blockoffset == 0
  {
    hide Flat, AllFlat, AllOk, Balanced, UserArea, IsFree, BlockCount, BlocksFor, BytesOf, BlockIndex, At, Sectors, Store.Valid;
    hide File.Sound, File.Located, Ready;
    var store := TwoFiles();
    assert |Sectors()| == 290 by { SectorCount(); }
    var cache := new DataCache(32, Sectors());
    OneFlat();
    ReadyAgain(store, cache, 0);
    AtSum(0, 1);
    BlocksForUnique(BLOCKSIZE, 1);
    file := new File(store, cache, 0, BLOCKSIZE);
    var _, _ := file.SeekInFile(0, FromEnd);
    PartsUnique(BLOCKSIZE, 1, 0);
  }

  lemma {:induction false} SectorCount()
    ensures |Sectors()| == 290 && Sectors()[101] == Other()
    ensures forall b :: 0 <= b < 290 && b != 101 ==> Sectors()[b] == Fill()
  {
  }

  /** If the file gets a block that is not the next one, it gets it as a new anode. */
  lemma {:induction false} SecondRun(d: Chain)
    requires Grown(FIRST, d, 1) && Linked(d) && 101 !in Flat(d)
    ensures |d| > 1 && d[0].blocknr == 100 && d[0].size == 1 && d[1].size > 0 && d[1].blocknr in Flat(d)
    ensures BlockIndex(d, 1, 0) == 1
  {
    hide Flat;
    OneFlat();
    CountSnoc(d, 0);
    assert d[..0] == [];
    FlatAt(d, 0, 0);
    assert Flat(d)[0] == Flat(FIRST)[0];
    assert d[..|d|] == d;
    if d[0].size > 1 { FlatAt(d, 0, 1); }
    FlatAt(d, 1, 0);
  }

  /** The first file is made longer by a block, with no update due meanwhile. Its position is then right behind
      an anode, with the next one elsewhere. */
  method Lengthen(file: File)
    requires 1 < BLOCKSIZE <= 0x1_0000
    requires file.Sound() && file.Located() && file.store.chains == [FIRST, SECOND] && file.f == 0
    requires file.store.vol.bitmapstart == 2 && |file.store.vol.bitmap| == 288 && file.store.vol.allocAvailable == 286
    requires file.offset == file.filesize == BLOCKSIZE && file.currnode == 0 && file.anodeoffset == 1
    modifies file, file.store, file.store.vol
    ensures file.Sound() && file.Located() && file.filesize == 2 * BLOCKSIZE && file.cache.view == old(file.cache.view)
    ensures file.offset == BLOCKSIZE && file.currnode == 0 && file.anodeoffset == 1
    ensures var d := file.AnodeChain();
            |d| > 1 && d[0].blocknr == 100 && d[0].size == 1 && d[1].size > 0 && d[1].blocknr != 101 && BlockIndex(d, 1, 0) == 1
  {
    hide Flat, BlockCount, BlocksFor, BytesOf, BlockIndex, At, Grown, Linked, Blocks32, OnTable;
    hide File.Sound, File.Located, File.Content, File.Sought, Ready, Store.Valid;
    OneFlat();
    AtSum(1, 1);
    AtSum(0, 1);
    BlocksForUnique(BLOCKSIZE, 1);
    BlocksForUnique(2 * BLOCKSIZE, 2);
    Blocks32Exact(BLOCKSIZE);
    Blocks32Exact(2 * BLOCKSIZE);
    var r := file.ChangeFileSize(2 * BLOCKSIZE, FromBeginning, false);
    assert r == Resized;
    Apart(file);
    SecondRun(file.AnodeChain());
  }

  lemma {:induction false} Apart(file: File)
    requires file.Sound() && file.f == 0 && |file.store.chains| == 2 && file.store.chains[1] == SECOND
    ensures 101 !in Flat(file.AnodeChain()) && Linked(file.AnodeChain())
  {
    hide Flat;
    OneFlat();
    file.store.BlocksApart(0);
    AllOkAt(file.store.vol.anodes, file.store.chains, 0, file.store.vol.bitmapstart, |file.store.vol.bitmap|);
  }

  /** What the file has at its second block. */
  lemma {:induction false} SecondByte(file: File)
    requires 1 < BLOCKSIZE && file.Sound() && file.filesize == 2 * BLOCKSIZE && file.cache.view == Sectors()
    requires var d := file.AnodeChain(); |d| > 1 && d[1].size > 0 && d[1].blocknr != 101 && BlockIndex(d, 1, 0) == 1
    ensures |file.Content()| == 2 * BLOCKSIZE && file.Content()[BLOCKSIZE] == 0xAA
  {
    hide Flat, At, BytesOf, BlockIndex, Sectors;
    var d, v := file.AnodeChain(), file.cache.view;
    file.ContentSize();
    BlockHere(v, d, 1, 0);
    SectorCount();
    AtSum(0, 1);
    assert v[d[1].blocknr][0] == BytesOf(v, Flat(d))[At(1)..At(2)][0];
  }

  lemma {:induction false} OneByte(file: File)
    requires 1 < BLOCKSIZE && file.Sound() && file.Located() && file.cache.view == Sectors()
    requires file.offset == BLOCKSIZE < file.filesize && file.currnode == 0 && file.anodeoffset == 1
    requires var d := file.AnodeChain(); |d| > 1 && d[0].blocknr == 100 && d[0].size == 1 && d[1].blocknr != 101
    ensures file.blockoffset == 0 && file.Astray(1, true) && file.Readable(1) == 1 && !file.Failing(1, true) && Direct(0, 1, true) && file.FirstBlock() == Other()
  {
    hide At, Sectors, File.Sound;
    SectorCount();
    AtSum(0, 0);
    AtSum(0, 1);
    PartsUnique(BLOCKSIZE, 1, 0);
    PartsUnique(1, 0, 1);
  }

  /** The first file is sought to its end and made longer. A read of one byte then returns one of the second
      file, which is not what the first has there. */
  method ReadGoesAstray() returns (file: File, buffer: seq<bv8>)
    requires 1 < BLOCKSIZE <= 0x1_0000
    ensures file.f < |file.store.chains| && |file.Content()| > BLOCKSIZE
    ensures buffer == [0x11] && file.Content()[BLOCKSIZE] == 0xAA
  {
    hide Flat, BlockCount, BlocksFor, BytesOf, BlockIndex, At, Sectors, Store.Valid, Linked;
    hide File.Sound, File.Located, File.Content, Ready, OnDisk;
    file := AtEndOfFirst();
    Lengthen(file);
    SecondByte(file);
    OneByte(file);
    var r;
    r, buffer := file.ReadFromFile(1, true);
    file.NotEmpty();
  }
}
