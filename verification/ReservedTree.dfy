/** The metadata blocks of a volume as a tree of reserved blocks below the root block: how a reader
    finds a block, and when writing a block is invisible to such a reader. */
module ReservedTree {
  import opened Arithmetic

  datatype Option<T> = None | Some(value: T)

  function Get<K, V>(m: map<K, V>, k: K): Option<V> {
    if k in m then Some(m[k]) else None
  }

  /** A metadata block by what it is, not by where it is stored. A directory block is named by the
      anode that points to it. */
  datatype Id =
    | DirBlock(anodenr: nat)
    | AnodeBlock(seqnr: nat)
    | IndexBlock(seqnr: nat)
    | BitmapBlock(seqnr: nat)
    | BitmapIndexBlock(seqnr: nat)
    | DeldirBlock(seqnr: nat)
    | RootExtension

  type Positive = n: nat | n > 0 witness 1

  /** Entries in an index block, which depends on the size of a reserved block. */
  const INDEXPERBLOCK: Positive

  /** The block that holds the number of this one; None for the root block (small-index mode). */
  function Parent(id: Id): Option<Id> {
    match id
    case DirBlock(anodenr) => Some(AnodeBlock(anodenr / 0x1_0000))
    case AnodeBlock(seqnr) => Some(IndexBlock(seqnr / INDEXPERBLOCK))
    case IndexBlock(_) => None
    case BitmapBlock(seqnr) => Some(BitmapIndexBlock(seqnr / INDEXPERBLOCK))
    case BitmapIndexBlock(_) => None
    case DeldirBlock(_) => Some(RootExtension)
    case RootExtension => None
  }

  function Level(id: Id): (l: nat)
    ensures match Parent(id) case None => l == 1 case Some(p) => l > 1
  {
    match id
    case DirBlock(_) => 3
    case AnodeBlock(_) => 2
    case BitmapBlock(_) => 2
    case DeldirBlock(_) => 2
    case _ => 1
  }

  lemma {:induction false} ParentLevel(id: Id)
    requires Parent(id).Some?
    ensures Level(Parent(id).value) == Level(id) - 1
  {
  }

  /** A directory block is found in the anode block that its anode number names in the upper 16 bits, and that,
      like a bitmap block, in the index block its number falls in. */
  lemma {:induction false} ParentNumber(seqnr: nat, offset: nat, i: nat, r: nat)
    requires offset < 0x1_0000 && r < INDEXPERBLOCK
    ensures Parent(DirBlock(seqnr * 0x1_0000 + offset)) == Some(AnodeBlock(seqnr))
    ensures Parent(AnodeBlock(i * INDEXPERBLOCK + r)) == Some(IndexBlock(i))
    ensures Parent(BitmapBlock(i * INDEXPERBLOCK + r)) == Some(BitmapIndexBlock(i))
  {
    DivUnique(i * INDEXPERBLOCK + r, INDEXPERBLOCK, i, r);
  }

  /** The contents of a block: the numbers of the blocks below it, and everything else. */
  datatype Content = Content(ptrs: map<Id, nat>, data: int)

  type Blocks = map<nat, Content>
  type Ptrs = map<Id, nat>
  type Tree = map<Id, Content>

  /** Where a reader that starts at the root block finds a block. */
  function Locate(blocks: Blocks, root: Ptrs, id: Id): Option<nat>
    decreases Level(id), 0
  {
    match Parent(id)
    case None => Get(root, id)
    case Some(p) =>
      match Lookup(blocks, root, p)
      case None => None
      case Some(c) => Get(c.ptrs, id)
  }

  /** What the reader reads there. */
  function Lookup(blocks: Blocks, root: Ptrs, id: Id): Option<Content>
    decreases Level(id), 1
  {
    match Locate(blocks, root, id)
    case None => None
    case Some(n) => Get(blocks, n)
  }

  /** The reader sees exactly this tree, stored at these places. */
  ghost predicate ReadsAs(blocks: Blocks, root: Ptrs, loc: Ptrs, tree: Tree) {
    forall id :: Locate(blocks, root, id) == Get(loc, id) && Lookup(blocks, root, id) == Get(tree, id)
  }

  /** Writing a block that is not part of the tree does not change what the reader sees. */
  lemma {:induction false} WriteElsewhere(blocks: Blocks, root: Ptrs, loc: Ptrs, tree: Tree, n: nat, c: Content)
    requires ReadsAs(blocks, root, loc, tree) && n !in loc.Values
    ensures ReadsAs(blocks[n := c], root, loc, tree)
  {
    forall id ensures Locate(blocks[n := c], root, id) == Get(loc, id) && Lookup(blocks[n := c], root, id) == Get(tree, id) {
      ReadElsewhere(blocks, root, loc, tree, n, c, id);
    }
  }

  lemma {:induction false} ReadElsewhere(blocks: Blocks, root: Ptrs, loc: Ptrs, tree: Tree, n: nat, c: Content, id: Id)
    requires ReadsAs(blocks, root, loc, tree) && n !in loc.Values
    ensures Locate(blocks[n := c], root, id) == Get(loc, id)
    ensures Lookup(blocks[n := c], root, id) == Get(tree, id)
    decreases Level(id)
  {
    assert Locate(blocks, root, id) == Get(loc, id) && Lookup(blocks, root, id) == Get(tree, id);
    if Parent(id).Some? {
      ParentLevel(id);
      var p := Parent(id).value;
      ReadElsewhere(blocks, root, loc, tree, n, c, p);
      assert Lookup(blocks, root, p) == Get(tree, p);
    }
    if id in loc { assert loc[id] in loc.Values; }
  }

  /** Exactly the writes that change a block of the tree are seen. */
  lemma {:induction false} WriteSeen(blocks: Blocks, root: Ptrs, loc: Ptrs, tree: Tree, n: nat, c: Content)
    requires ReadsAs(blocks, root, loc, tree)
    ensures ReadsAs(blocks[n := c], root, loc, tree) <==> n !in loc.Values || (n in blocks && blocks[n] == c)
  {
    if n !in loc.Values {
      WriteElsewhere(blocks, root, loc, tree, n, c);
    } else {
      var id :| id in loc && loc[id] == n;
      assert Locate(blocks, root, id) == Get(loc, id) && Lookup(blocks, root, id) == Get(tree, id);
      if n in blocks && blocks[n] == c {
        assert blocks[n := c] == blocks;
      } else {
        assert Locate(blocks[n := c], root, id) == Get(loc, id) ==> Lookup(blocks[n := c], root, id) == Some(c);
      }
    }
  }

  /** Where the block's number is recorded in memory: in its parent's contents, or in the root. */
  function Recorded(root: Ptrs, view: Tree, id: Id): Option<nat> {
    match Parent(id)
    case None => Get(root, id)
    case Some(p) => if p in view then Get(view[p].ptrs, id) else None
  }

  /** Every block's place is recorded where a reader looks for it, and nothing else is. */
  ghost predicate Consistent(root: Ptrs, loc: Ptrs, view: Tree) {
    && loc.Keys == view.Keys
    && forall id :: Recorded(root, view, id) == Get(loc, id)
  }

  /** If every block is stored where it is recorded, a reader sees the tree that is in memory. */
  lemma {:induction false} StoredReads(blocks: Blocks, root: Ptrs, loc: Ptrs, view: Tree)
    requires Consistent(root, loc, view)
    requires forall id :: id in loc ==> loc[id] in blocks && blocks[loc[id]] == view[id]
    ensures ReadsAs(blocks, root, loc, view)
  {
    forall id ensures Locate(blocks, root, id) == Get(loc, id) && Lookup(blocks, root, id) == Get(view, id) {
      StoredRead(blocks, root, loc, view, id);
    }
  }

  lemma {:induction false} StoredRead(blocks: Blocks, root: Ptrs, loc: Ptrs, view: Tree, id: Id)
    requires Consistent(root, loc, view)
    requires forall id :: id in loc ==> loc[id] in blocks && blocks[loc[id]] == view[id]
    ensures Locate(blocks, root, id) == Get(loc, id) && Lookup(blocks, root, id) == Get(view, id)
    decreases Level(id)
  {
    assert Recorded(root, view, id) == Get(loc, id);
    if Parent(id).Some? {
      ParentLevel(id);
      StoredRead(blocks, root, loc, view, Parent(id).value);
    }
  }
}
