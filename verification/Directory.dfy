/** Changing entries of a directory (PFS3lib/directory.cpp), with every open file's reference to its
    entry kept up to date. */
module Directories {
  import opened Extents
  import opened Arithmetic
  import opened Entries
  import opened Spills

  /** A reference to an entry: a block and a position in it (struct fileinfo). */
  datatype Info = Info(dirblock: nat, direntry: int)

  type Blocks = map<nat, seq<bv8>>
  type Contents = map<nat, seq<Entry>>

  ghost predicate Unique(chain: seq<nat>) {
    forall i, j :: 0 <= i < j < |chain| ==> chain[i] != chain[j]
  }

  /** Every block of the directory can be read: entries and an end mark. */
  ghost predicate DirOk(chain: seq<nat>, blocks: Blocks, contents: Contents) {
    hide Holds;
    && Unique(chain)
    && forall b :: b in chain ==> b in blocks && b in contents && Holds(blocks[b], contents[b])
  }

  /** A reference into the directory denotes an entry of it. */
  ghost predicate HandleOk(chain: seq<nat>, contents: Contents, h: Info) {
    hide Boundary;
    h.dirblock in chain ==> h.direntry >= 0 && h.dirblock in contents && Boundary(contents[h.dirblock], h.direntry)
  }

  /** The entry a reference denotes. */
  function EntryOf(blocks: Blocks, h: Info): Entry {
    if h.dirblock in blocks && h.direntry >= 0 then At(blocks[h.dirblock], h.direntry) else []
  }

  /** What UpdateChangedRef makes of a reference. */
  function Updated(h: Info, from: Info, to: Info, diff: int): Info {
    if h.dirblock != from.dirblock then h
    else if h.direntry == from.direntry then to
    else if h.direntry > from.direntry then Info(h.dirblock, h.direntry + diff)
    else h
  }

  /** All entries of the directory. */
  ghost function All(chain: seq<nat>, contents: Contents): multiset<Entry> {
    if chain == [] then multiset{} else
      var b := chain[|chain| - 1];
      All(chain[..|chain| - 1], contents) + if b in contents then multiset(contents[b]) else multiset{}
  }

  lemma {:induction false} AllSame(chain: seq<nat>, c: Contents, d: Contents)
    requires forall b :: b in chain ==> b in c && b in d && c[b] == d[b]
    ensures All(chain, c) == All(chain, d)
  {
    if chain != [] {
      assert chain[|chain| - 1] in chain;
      AllSame(chain[..|chain| - 1], c, d);
    }
  }

  lemma {:induction false} AllUpdate(chain: seq<nat>, c: Contents, b: nat, x: seq<Entry>)
    requires Unique(chain) && b in chain && forall a :: a in chain ==> a in c
    ensures All(chain, c[b := x]) + multiset(c[b]) == All(chain, c) + multiset(x)
  {
    var d, last := chain[..|chain| - 1], chain[|chain| - 1];
    assert last in chain;
    var c' := c[b := x];
    assert All(chain, c) == All(d, c) + multiset(c[last]) && All(chain, c') == All(d, c') + multiset(c'[last]);
    if last == b {
      forall a | a in d ensures a != b { var i :| 0 <= i < |d| && d[i] == a; }
      AllSame(d, c, c');
    } else {
      assert b in d by { var i :| 0 <= i < |chain| && chain[i] == b; assert d[i] == b; }
      AllUpdate(d, c, b, x);
      Exchange(All(d, c'), multiset(c[b]), All(d, c), multiset(x), multiset(c[last]));
    }
  }

  lemma {:induction false} Exchange(a: multiset<Entry>, e: multiset<Entry>, b: multiset<Entry>, f: multiset<Entry>, l: multiset<Entry>)
    requires a + e == b + f
    ensures (a + l) + e == (b + l) + f
  {
    assert (a + l) + e == (a + e) + l;
  }

  lemma {:induction false} CancelOne(a: multiset<Entry>, b: multiset<Entry>, t: multiset<Entry>)
    requires a + t == b + t
    ensures a == b
  {
    assert (a + t) - t == a && (b + t) - t == b;
  }

  lemma {:induction false} Cancel(a: multiset<Entry>, b: multiset<Entry>, x: multiset<Entry>, t: multiset<Entry>)
    requires a + x == b + (x + t)
    ensures a == b + t
  {
    assert (a + x) - x == a && (b + (x + t)) - x == b + t;
  }

  /** A new block put in front of the i-th block. */
  function Inserted(chain: seq<nat>, i: nat, b: nat): seq<nat>
    requires i <= |chain|
  {
    chain[..i] + [b] + chain[i..]
  }

  lemma {:induction false} AllInsert(chain: seq<nat>, c: Contents, i: nat, b: nat, x: seq<Entry>)
    requires i <= |chain| && b !in chain && forall a :: a in chain ==> a in c
    ensures forall a :: a in Inserted(chain, i, b) <==> a == b || a in chain
    ensures All(Inserted(chain, i, b), c[b := x]) == All(chain, c) + multiset(x)
  {
    hide All, Inserted;
    var e, c' := Inserted(chain, i, b), c[b := x];
    InsertedHas(chain, i, b);
    InsertedEnd(chain, i, b);
    AllStep(e, c');
    if i == |chain| {
      AllSame(chain, c, c');
    } else {
      var d, last := chain[..|chain| - 1], chain[|chain| - 1];
      assert last in chain;
      AllStep(chain, c);
      AllInsert(d, c, i, b, x);
      Reorder(All(d, c), multiset(x), multiset(c[last]));
    }
  }

  lemma {:induction false} AllStep(chain: seq<nat>, c: Contents)
    requires chain != [] && chain[|chain| - 1] in c
    ensures All(chain, c) == All(chain[..|chain| - 1], c) + multiset(c[chain[|chain| - 1]])
  {
  }

  lemma {:induction false} InsertedEnd(chain: seq<nat>, i: nat, b: nat)
    requires i <= |chain|
    ensures var e := Inserted(chain, i, b);
            && |e| == |chain| + 1
            && (i == |chain| ==> e[..|e| - 1] == chain && e[|e| - 1] == b)
            && (i < |chain| ==> e[..|e| - 1] == Inserted(chain[..|chain| - 1], i, b) && e[|e| - 1] == chain[|chain| - 1])
  {
  }

  lemma {:induction false} Reorder(a: multiset<Entry>, x: multiset<Entry>, l: multiset<Entry>)
    ensures (a + x) + l == (a + l) + x
  {
  }

  lemma {:induction false} InsertedHas(chain: seq<nat>, i: nat, b: nat)
    requires i <= |chain|
    ensures forall a :: a in Inserted(chain, i, b) <==> a == b || a in chain
  {
    assert chain == chain[..i] + chain[i..];
  }

  lemma {:induction false} InsertUnique(chain: seq<nat>, i: nat, b: nat)
    requires Unique(chain) && i <= |chain| && b !in chain
    ensures Unique(Inserted(chain, i, b))
  {
  }

  // ---------------------------------------------------------------------
  // References after an edit

  lemma {:induction false} HandleIs(chain: seq<nat>, blocks: Blocks, contents: Contents, h: Info) returns (j: nat)
    requires DirOk(chain, blocks, contents) && HandleOk(chain, contents, h) && h.dirblock in chain
    ensures h.dirblock in blocks && h.dirblock in contents && Holds(blocks[h.dirblock], contents[h.dirblock])
    ensures j < |contents[h.dirblock]| && h.direntry == Off(contents[h.dirblock], j)
    ensures EntryOf(blocks, h) == contents[h.dirblock][j]
  {
    hide Holds, At, Off;
    j := BoundaryIs(blocks[h.dirblock], contents[h.dirblock], h.direntry);
  }

  lemma {:induction false} HandleMade(chain: seq<nat>, blocks: Blocks, contents: Contents, b: nat, j: nat)
    requires b in blocks && b in contents && Holds(blocks[b], contents[b]) && j < |contents[b]|
    ensures HandleOk(chain, contents, Info(b, Off(contents[b], j))) && EntryOf(blocks, Info(b, Off(contents[b], j))) == contents[b][j]
  {
    hide Holds, At, Off;
    AtIs(blocks[b], contents[b], j);
  }

  /** After the k-th entry of block b is shifted out, references to other entries, updated, denote
      what they denoted. */
  lemma {:induction false} HandleRemoved(chain: seq<nat>, blocks: Blocks, contents: Contents, b: nat, k: nat, to: Info, h: Info)
    requires DirOk(chain, blocks, contents) && b in chain && k < |contents[b]| && HandleOk(chain, contents, h)
    requires h != Info(b, Off(contents[b], k)) && h.dirblock in chain
    ensures var p, n := Off(contents[b], k), |contents[b][k]|;
            && p + n <= |blocks[b]|
            && var blocks', contents' := blocks[b := Removed(blocks[b], p, n)], contents[b := Without(contents[b], k)];
               var h' := Updated(h, Info(b, p), to, -n);
               HandleOk(chain, contents', h') && EntryOf(blocks', h') == EntryOf(blocks, h) && h'.dirblock == h.dirblock
  {
    hide Holds, At, Off, Removed, Without, Boundary;
    var x := contents[b];
    RemoveHolds(blocks[b], x, k);
    var j := HandleIs(chain, blocks, contents, h);
    var p, n := Off(x, k), |x[k]|;
    var blocks', contents' := blocks[b := Removed(blocks[b], p, n)], contents[b := Without(x, k)];
    if h.dirblock == b {
      RemoveOff(x, k, j);
      WithoutSize(x, k);
      HoldsOk(blocks[b], x);
      if j < k {
        OffOrder(x, j, k);
        HandleMade(chain, blocks', contents', b, j);
      } else {
        OffOrder(x, k, j);
        HandleMade(chain, blocks', contents', b, j - 1);
      }
    }
  }

  lemma {:induction false} WithoutFirst(x: seq<Entry>)
    requires |x| > 0
    ensures Without(x, 0) == x[1..]
  {
  }

  lemma {:induction false} WithoutSize(x: seq<Entry>, k: nat)
    requires k < |x|
    ensures |Without(x, k)| == |x| - 1
  {
  }

  lemma {:induction false} HoldsOk(b: seq<bv8>, x: seq<Entry>)
    requires Holds(b, x)
    ensures AllOk(x) && |Enc(x)| < |b| == DB_ENTRYSPACE
  {
  }

  lemma {:induction false} HandleAppended(chain: seq<nat>, blocks: Blocks, contents: Contents, b: nat, e: Entry, h: Info)
    requires DirOk(chain, blocks, contents) && b in chain && HandleOk(chain, contents, h) && h.dirblock in chain
    requires EntryOk(e) && |Enc(contents[b])| + |e| < |blocks[b]|
    ensures var blocks' := blocks[b := Copied(blocks[b], |Enc(contents[b])|, e + [0])];
            var contents' := contents[b := contents[b] + [e]];
            HandleOk(chain, contents', h) && EntryOf(blocks', h) == EntryOf(blocks, h)
  {
    hide Holds, At, Off, Enc, Copied, Boundary;
    var x := contents[b];
    AppendHolds(blocks[b], x, e);
    var j := HandleIs(chain, blocks, contents, h);
    if h.dirblock == b {
      AppendOff(x, e, j);
      var blocks' := blocks[b := Copied(blocks[b], |Enc(x)|, e + [0])];
      HandleMade(chain, blocks', contents[b := x + [e]], b, j);
    }
  }

  /** All references after an entry has been copied elsewhere and then shifted out. */
  lemma {:induction false} HandleShifted(chain: seq<nat>, blocks: Blocks, contents: Contents, b: nat, k: nat, to: Info, e: Entry, h: Info)
    requires DirOk(chain, blocks, contents) && b in chain && k < |contents[b]| && HandleOk(chain, contents, h)
    requires to.dirblock in chain && to.dirblock != b && HandleOk(chain, contents, to) && EntryOf(blocks, to) == e
    ensures var p, n := Off(contents[b], k), |contents[b][k]|;
            && p + n <= |blocks[b]|
            && var blocks', contents' := blocks[b := Removed(blocks[b], p, n)], contents[b := Without(contents[b], k)];
               var h' := Updated(h, Info(b, p), to, -n);
               && HandleOk(chain, contents', h') && HandleOk(chain, contents', to) && EntryOf(blocks', to) == e
               && (h.dirblock in chain ==> EntryOf(blocks', h') == if h == Info(b, p) then e else EntryOf(blocks, h))
               && (h.dirblock !in chain ==> h' == h) && (h'.dirblock == h.dirblock || h' == to)
  {
    hide Holds, At, Off, Removed, Without, Boundary, HandleOk, EntryOf, DirOk;
    RemoveFits(chain, blocks, contents, b, k);
    HandleRemoved(chain, blocks, contents, b, k, to, to);
    var p, n := Off(contents[b], k), |contents[b][k]|;
    if h.dirblock in chain && h != Info(b, p) {
      HandleRemoved(chain, blocks, contents, b, k, to, h);
    } else if h.dirblock !in chain {
      Elsewhere(chain, contents[b := Without(contents[b], k)], h);
    }
  }

  lemma {:induction false} Elsewhere(chain: seq<nat>, contents: Contents, h: Info)
    requires h.dirblock !in chain
    ensures HandleOk(chain, contents, h)
  {
  }

  lemma {:induction false} RemoveFits(chain: seq<nat>, blocks: Blocks, contents: Contents, b: nat, k: nat)
    requires DirOk(chain, blocks, contents) && b in chain && k < |contents[b]|
    ensures b in blocks && b in contents && Off(contents[b], k) + |contents[b][k]| <= |blocks[b]|
    ensures Off(contents[b], k) < |blocks[b]| && blocks[b][Off(contents[b], k)] as nat == |contents[b][k]|
    ensures DirOk(chain, blocks[b := Removed(blocks[b], Off(contents[b], k), |contents[b][k]|)], contents[b := Without(contents[b], k)])
  {
    hide Holds, Off, Removed, Without;
    RemoveHolds(blocks[b], contents[b], k);
    AtIs(blocks[b], contents[b], k);
  }

  /** After the k-th entry of block b is replaced, references to other entries, updated, denote
      what they denoted. */
  lemma {:induction false} HandleReplaced(chain: seq<nat>, blocks: Blocks, contents: Contents, b: nat, k: nat, e: Entry, h: Info)
    requires DirOk(chain, blocks, contents) && b in chain && k < |contents[b]| && HandleOk(chain, contents, h) && h.dirblock in chain
    requires EntryOk(e) && |Enc(contents[b])| - |contents[b][k]| + |e| < |blocks[b]|
    ensures var p, n := Off(contents[b], k), |contents[b][k]|;
            && p + n <= |blocks[b]| && p + |e| <= |blocks[b]|
            && var blocks', contents' := blocks[b := Replaced(blocks[b], p, n, e)], contents[b := contents[b][k := e]];
               var h' := Updated(h, Info(b, p), Info(b, p), |e| - n);
               HandleOk(chain, contents', h') && EntryOf(blocks', h') == (if h == Info(b, p) then e else EntryOf(blocks, h))
  {
    hide Holds, At, Off, Replaced, Enc, Boundary;
    var x := contents[b];
    ReplaceHolds(blocks[b], x, k, e);
    var j := HandleIs(chain, blocks, contents, h);
    var p, n := Off(x, k), |x[k]|;
    var blocks', contents' := blocks[b := Replaced(blocks[b], p, n, e)], contents[b := x[k := e]];
    if h.dirblock == b {
      ReplaceOff(x, k, e, j);
      HoldsOk(blocks[b], x);
      if j < k { OffOrder(x, j, k); } else if k < j { OffOrder(x, k, j); }
      HandleMade(chain, blocks', contents', b, j);
    }
  }

  /** Every reference into the directory denotes the entry it denoted, except that references to
      `from` now denote `to`; other references are as they were. */
  ghost predicate Follow(chain: seq<nat>, blocks: Blocks, handles: seq<Info>, blocks': Blocks, handles': seq<Info>, from: Info, to: Entry) {
    && |handles'| == |handles|
    && forall i :: 0 <= i < |handles| ==>
         if handles[i].dirblock in chain then
           EntryOf(blocks', handles'[i]) == if handles[i] == from then to else EntryOf(blocks, handles[i])
         else handles'[i] == handles[i]
  }

  lemma {:induction false} FreeNumber(blocks: Blocks) returns (b: nat)
    ensures b !in blocks
  {
    b := Bounded(blocks.Keys);
    assert b !in blocks.Keys;
  }

  lemma {:induction false} EmptyBlock()
    ensures Holds(Zeros(DB_ENTRYSPACE), [])
  {
  }

  lemma {:induction false} NewBlockHolds(e: Entry)
    requires EntryOk(e)
    ensures |e| + 1 <= DB_ENTRYSPACE && Holds(Copied(Zeros(DB_ENTRYSPACE), 0, e + [0]), [e])
  {
    hide Holds, Copied;
    var none: seq<Entry> := [];
    var space: BlockSpace := DB_ENTRYSPACE;
    EmptyBlock();
    assert |Enc(none)| == 0;
    AppendHolds(Zeros(DB_ENTRYSPACE), none, e);
    assert none + [e] == [e];
  }

  lemma {:induction false} DirInserted(chain: seq<nat>, blocks: Blocks, contents: Contents, i: nat, nb: nat, b: seq<bv8>, x: seq<Entry>)
    requires DirOk(chain, blocks, contents) && i <= |chain| && nb !in blocks && Holds(b, x)
    ensures DirOk(Inserted(chain, i, nb), blocks[nb := b], contents[nb := x])
    ensures forall a :: a in Inserted(chain, i, nb) <==> a == nb || a in chain
    ensures nb !in chain
  {
    hide Holds;
    InsertUnique(chain, i, nb);
    assert chain == chain[..i] + chain[i..];
  }

  lemma {:induction false} HandleStays(chain: seq<nat>, contents: Contents, i: nat, nb: nat, x: seq<Entry>, h: Info)
    requires i <= |chain| && HandleOk(chain, contents, h) && h.dirblock != nb
    ensures HandleOk(Inserted(chain, i, nb), contents[nb := x], h)
  {
    hide Boundary;
    assert chain == chain[..i] + chain[i..];
  }

  // ---------------------------------------------------------------------

  /** How a rename ends. Unchanged: the directory has the entries it had. OtherRenamed: the first entry of
      the block was replaced and is lost. Astray: the search for the entry has left the block. */
  datatype Renaming = Renamed(result: Info) | Unchanged | OtherRenamed(result: Info, lost: Entry) | Astray

  /** How a rename ends when no block can be had, in terms of what was in the block, of how much was taken in
      the block before, and of the sizes of the entry. */
  ghost predicate EndsAs(outcome: Renaming, x: seq<Entry>, used: nat, k: nat, size: nat)
    requires k < |x|
  {
    && (outcome.Renamed? <==> Renames(x, used, k, size))
    && (Moves(x, used, k) ==> outcome.Renamed? || outcome.Unchanged?)
    && forall j :: 0 <= j < k && StopsAt(x, used, k, j) && !Renames(x, used, k, size) ==> StopsAs(outcome, x, used, k, size, j)
  }

  /** How it ends if the j-th entry is the first that cannot be moved. */
  ghost predicate StopsAs(outcome: Renaming, x: seq<Entry>, used: nat, k: nat, size: nat, j: nat)
    requires j < k < |x|
  {
    && |x[j]| > 0
    && (outcome.Astray? <==> (Off(x, k) - Off(x, j)) % |x[j]| != 0)
    && (outcome.OtherRenamed? <==> (Off(x, k) - Off(x, j)) % |x[j]| == 0 && Off(x, j) + size + used + 1 <= DB_ENTRYSPACE)
    && (outcome.OtherRenamed? ==> outcome.lost == x[j])
  }

  /** After j moves there is room. */
  lemma {:induction false} EndedFit(outcome: Renaming, x: seq<Entry>, used: nat, k: nat, size: nat, j: nat)
    requires j <= k < |x| && outcome.Renamed? && Moves(x, used, j) && Fits(x, k, size, j)
    ensures EndsAs(outcome, x, used, k, size)
  {
    hide Off, Enc;
  }

  /** All entries before it have been moved. */
  lemma {:induction false} EndedLast(outcome: Renaming, x: seq<Entry>, used: nat, k: nat, size: nat)
    requires AllOk(x) && k < |x| && Moves(x, used, k) && forall i :: 0 <= i <= k ==> !Fits(x, k, size, i)
    requires if MovesLast(x, used, k, size) then outcome.Renamed? else outcome.Unchanged?
    ensures EndsAs(outcome, x, used, k, size)
  {
    hide Off, Enc, Fits, Moves, MovesLast, StopsAs;
    if !MovesLast(x, used, k, size) { NoRename(x, used, k, size, k); }
    forall j | 0 <= j < k && StopsAt(x, used, k, j)
      ensures false
    {
      StopUnique(x, used, k, j, k);
    }
  }

  lemma {:induction false} GoneOn(outcome: Renaming, x: seq<Entry>, used: nat, k: nat, size: nat, j: nat, d: int, room: bool)
    requires j < k < |x| && |x[j]| > 0 && d == Off(x, k) - Off(x, j)
    requires room <==> Off(x, j) + size + used + 1 <= DB_ENTRYSPACE
    requires outcome.Astray? <==> d % |x[j]| != 0
    requires (outcome.OtherRenamed? <==> d % |x[j]| == 0 && room) && (outcome.OtherRenamed? ==> outcome.lost == x[j])
    ensures StopsAs(outcome, x, used, k, size, j)
  {
    hide Off;
  }

  /** The j-th entry cannot be moved. */
  lemma {:induction false} EndedStop(outcome: Renaming, x: seq<Entry>, used: nat, k: nat, size: nat, j: nat)
    requires AllOk(x) && j < k < |x| && StopsAt(x, used, k, j) && forall i :: 0 <= i <= j ==> !Fits(x, k, size, i)
    requires !outcome.Renamed? && StopsAs(outcome, x, used, k, size, j)
    ensures EndsAs(outcome, x, used, k, size)
  {
    hide Off, Enc, Fits, Moves, MovesLast, StopsAs;
    NoRename(x, used, k, size, j);
    if Moves(x, used, k) { MovesFewer(x, used, j + 1, k); }
    forall i | 0 <= i < k && StopsAt(x, used, k, i)
      ensures i == j
    {
      StopUnique(x, used, k, i, j);
    }
  }

  /** Where b is first in s. */
  function IndexOf(s: seq<nat>, b: nat): (i: nat)
    requires b in s
    ensures i < |s| && s[i] == b
  {
    if s[0] == b then 0 else 1 + IndexOf(s[1..], b)
  }

  lemma {:induction false} FirstIndex(s: seq<nat>, b: nat, i: nat)
    requires i < |s| && s[i] == b && b !in s[..i]
    ensures IndexOf(s, b) == i
  {
    if i > 0 {
      assert s[0] == s[..i][0];
      assert s[1..][..i - 1] == s[..i][1..];
      FirstIndex(s[1..], b, i - 1);
    }
  }

  class Directory {
    // the directory blocks, in the order of the directory's anode chain
    var chain: seq<nat>
    // all cached directory blocks, those of other directories included
    var blocks: Blocks
    // the entries open files and locks refer to
    var handles: seq<Info>
    // whether reserved blocks have run out
    var full: bool
    ghost var contents: Contents

    constructor (chain: seq<nat>, blocks: Blocks, handles: seq<Info>, full: bool, ghost contents: Contents)
      requires DirOk(chain, blocks, contents)
      requires forall i :: 0 <= i < |handles| ==> HandleOk(chain, contents, handles[i]) && handles[i].dirblock in blocks
      ensures Valid() && this.chain == chain && this.blocks == blocks && this.handles == handles
      ensures this.full == full && this.contents == contents
    {
      this.chain, this.blocks, this.handles, this.full, this.contents := chain, blocks, handles, full, contents;
    }

    /** Whether a reserved block can be had; once that fails, it does not succeed again. */
    method BlockAvailable() returns (ok: bool)
      modifies this`full
      ensures ok <==> !full
      ensures old(full) ==> full
    {
      var used := *;
      full := full || used;
      ok := !full;
    }

    ghost predicate Valid()
      reads this
    {
      && DirOk(chain, blocks, contents)
      && (forall i :: 0 <= i < |handles| ==> HandleOk(chain, contents, handles[i]))
      && (forall i :: 0 <= i < |handles| ==> handles[i].dirblock in blocks)
    }

    /** from denotes the k-th entry of its block. */
    ghost predicate Denotes(from: Info, k: nat)
      reads this`chain, this`contents
    {
      && from.dirblock in chain && from.dirblock in contents
      && k < |contents[from.dirblock]| && from.direntry == Off(contents[from.dirblock], k)
    }

    ghost function Entries(): multiset<Entry>
      reads this`chain, this`contents
    {
      All(chain, contents)
    }

    lemma {:induction false} BlockOk(b: nat)
      requires Valid() && b in chain
      ensures b in blocks && b in contents && Holds(blocks[b], contents[b]) && |blocks[b]| == DB_ENTRYSPACE
    {
      hide Boundary, Enc;
    }

    /** Goes from entry to entry to the end of a block. */
    method EndOfBlock(blok: nat) returns (i: nat)
      requires Valid() && blok in chain
      ensures i == |Enc(contents[blok])| < DB_ENTRYSPACE
    {
      hide Enc, Off, DirOk, HandleOk;
      BlockOk(blok);
      ghost var x := contents[blok];
      var b := blocks[blok];
      i := 0;
      ghost var k := 0;
      OffEnd(x);
      AtEnd(b, x, 0);
      while b[i] != 0
        invariant k <= |x| && i == Off(x, k) < |b|
        decreases |x| - k
      {
        AtEnd(b, x, k);
        i := i + b[i] as nat;
        k := k + 1;
        AtEnd(b, x, k);
      }
      AtEnd(b, x, k);
    }

    /** Where an entry can be put that needs so many bytes more, or -1. */
    method CheckFit(blok: nat, needed: int) returns (entry: int)
      requires Valid() && blok in chain
      ensures entry == if needed + |Enc(contents[blok])| + 1 <= DB_ENTRYSPACE then |Enc(contents[blok])| else -1
    {
      var i := EndOfBlock(blok);
      entry := if needed + i + 1 <= DB_ENTRYSPACE then i else -1;
    }

    lemma {:induction false} AtEnd(b: seq<bv8>, x: seq<Entry>, k: nat)
      requires Holds(b, x) && k <= |x|
      ensures Off(x, k) < |b| && (b[Off(x, k)] == 0 <==> k == |x|)
      ensures k == |x| ==> Off(x, k) == |Enc(x)|
      ensures k < |x| ==> Off(x, k + 1) == Off(x, k) + b[Off(x, k)] as nat
    {
      hide Enc;
      OffEnd(x);
      if k < |x| {
        AtIs(b, x, k);
        EncAt(x, k);
      }
    }

    /** Adjusts the references into a block after an edit at `from`. */
    method UpdateChangedRef(from: Info, to: Info, diff: int)
      modifies this`handles
      ensures |handles| == |old(handles)|
      ensures forall i :: 0 <= i < |handles| ==> handles[i] == Updated(old(handles)[i], from, to, diff)
    {
      var i := 0;
      while i < |handles|
        invariant 0 <= i <= |handles| == |old(handles)|
        invariant forall j :: 0 <= j < i ==> handles[j] == Updated(old(handles)[j], from, to, diff)
        invariant forall j :: i <= j < |handles| ==> handles[j] == old(handles)[j]
      {
        var fe := handles[i];
        if fe.dirblock == from.dirblock {
          if fe.direntry == from.direntry {
            handles := handles[i := to];
          } else if fe.direntry > from.direntry {
            handles := handles[i := Info(fe.dirblock, fe.direntry + diff)];
          }
        }
        i := i + 1;
      }
    }

    /** Shifts out n bytes, and clears as many at the end if an entry follows. */
    method ShiftOut(b: seq<bv8>, pos: nat, n: nat) returns (r: seq<bv8>)
      requires pos + n < |b|
      ensures r == Removed(b, pos, n)
    {
      r := Copied(b, pos, b[pos + n..]);
      if r[pos] != 0 {
        r := Copied(r, |b| - n, Zeros(n));
      }
    }

    /** Shifts an entry out of its block. References are not corrected. */
    method RemoveDirEntry(info: Info, ghost k: nat)
      requires DirOk(chain, blocks, contents) && Denotes(info, k)
      modifies this`blocks, this`contents
      ensures var b := info.dirblock;
              && info.direntry + |old(contents)[b][k]| <= |old(blocks)[b]|
              && blocks == old(blocks)[b := Removed(old(blocks)[b], info.direntry, |old(contents)[b][k]|)]
              && contents == old(contents)[b := Without(old(contents)[b], k)]
    {
      hide Enc, Off, Removed, Without;
      var b := info.dirblock;
      AtIs(blocks[b], contents[b], k);
      var n := blocks[b][info.direntry] as nat;
      var block := ShiftOut(blocks[b], info.direntry, n);
      blocks := blocks[b := block];
      contents := contents[b := Without(contents[b], k)];
    }

    /** Copies an entry to the end of a block that has room for it. */
    method PutAtEnd(b: nat, dest: nat, to: Entry) returns (result: Info)
      requires Valid() && b in chain && EntryOk(to)
      requires dest == |Enc(contents[b])| && |to| + dest + 1 <= DB_ENTRYSPACE
      modifies this`blocks, this`contents
      ensures Valid() && result == Info(b, dest) && HandleOk(chain, contents, result) && EntryOf(blocks, result) == to
      ensures b in old(blocks) && contents == old(contents)[b := old(contents)[b] + [to]] && blocks == old(blocks)[b := blocks[b]]
      ensures Entries() == old(Entries()) + multiset{to}
      ensures forall i :: 0 <= i < |handles| && handles[i].dirblock in chain ==> EntryOf(blocks, handles[i]) == EntryOf(old(blocks), handles[i])
    {
      hide Enc, Off, Holds, At, EntryOf, Copied, Boundary, HandleOk;
      BlockOk(b);
      ghost var x := contents[b];
      forall i | 0 <= i < |handles| && handles[i].dirblock in chain
        ensures var blocks' := blocks[b := Copied(blocks[b], |Enc(x)|, to + [0])];
                HandleOk(chain, contents[b := x + [to]], handles[i]) && EntryOf(blocks', handles[i]) == EntryOf(blocks, handles[i])
      {
        HandleAppended(chain, blocks, contents, b, to, handles[i]);
      }
      AppendHolds(blocks[b], x, to);
      AllUpdate(chain, contents, b, x + [to]);
      assert multiset(x + [to]) == multiset(x) + multiset{to};
      Cancel(All(chain, contents[b := x + [to]]), All(chain, contents), multiset(x), multiset{to});
      NotHere(chain, contents, contents[b := x + [to]]);
      blocks := blocks[b := Copied(blocks[b], dest, to + [0])];
      contents := contents[b := x + [to]];
      AppendOff(x, to, |x|);
      OffEnd(x);
      HandleMade(chain, blocks, contents, b, |x|);
      result := Info(b, dest);
    }

    lemma {:induction false} NotHere(chain: seq<nat>, c: Contents, d: Contents)
      ensures forall h: Info :: h.dirblock !in chain ==> HandleOk(chain, d, h)
    {
    }

    /** Makes a new directory block in front of the i-th one, with one entry. */
    method PutInNewBlock(i: nat, to: Entry) returns (result: Info)
      requires Valid() && i <= |chain| && EntryOk(to)
      modifies this`chain, this`blocks, this`contents
      ensures Valid() && result.dirblock !in old(chain) && HandleOk(chain, contents, result) && EntryOf(blocks, result) == to
      ensures result.dirblock !in old(blocks) && blocks == old(blocks)[result.dirblock := blocks[result.dirblock]]
      ensures contents == old(contents)[result.dirblock := [to]] && chain == Inserted(old(chain), i, result.dirblock)
      ensures forall b :: b in chain <==> b == result.dirblock || b in old(chain)
      ensures Entries() == old(Entries()) + multiset{to}
      ensures forall j :: 0 <= j < |handles| ==> EntryOf(blocks, handles[j]) == EntryOf(old(blocks), handles[j])
    {
      hide Enc, Off, Holds, At, Copied, Boundary, EntryOk, DirOk, HandleOk, Inserted, All, Zeros;
      var nb :| nb !in blocks by { var _ := FreeNumber(blocks); }
      NewBlockHolds(to);
      InChain();
      AllInsert(chain, contents, i, nb, [to]);
      DirInserted(chain, blocks, contents, i, nb, Copied(Zeros(DB_ENTRYSPACE), 0, to + [0]), [to]);
      forall j | 0 <= j < |handles|
        ensures HandleOk(Inserted(chain, i, nb), contents[nb := [to]], handles[j])
      {
        HandleStays(chain, contents, i, nb, [to], handles[j]);
      }
      blocks := blocks[nb := Copied(Zeros(DB_ENTRYSPACE), 0, to + [0])];
      contents := contents[nb := [to]];
      chain := Inserted(chain, i, nb);
      result := Info(nb, 0);
      FirstOff(contents[nb]);
      HandleMade(chain, blocks, contents, nb, 0);
    }

    lemma {:induction false} DirUnique()
      requires Valid()
      ensures Unique(chain)
    {
      hide Holds;
    }

    lemma {:induction false} InChain()
      requires Valid()
      ensures forall b :: b in chain ==> b in blocks && b in contents
    {
      hide Holds;
    }

    lemma {:induction false} FirstOff(x: seq<Entry>)
      ensures Off(x, 0) == 0
    {
      OffEnd(x);
    }

    /** Where a block of the directory is in its chain. */
    method FindBlock(dirblock: nat) returns (i: nat)
      requires dirblock in chain
      ensures i == IndexOf(chain, dirblock)
    {
      i := 0;
      while chain[i] != dirblock && i + 1 < |chain|
        invariant i < |chain| && dirblock !in chain[..i]
        decreases |chain| - i
      {
        i := i + 1;
      }
      FirstIndex(chain, dirblock, i);
    }

    /** Whether a block has room for so many bytes more. */
    ghost predicate Room(contents: Contents, b: nat, needed: int) {
      b in contents && needed + |Enc(contents[b])| + 1 <= DB_ENTRYSPACE
    }

    /** How many bytes are taken in the block before; one that is not there counts as full. */
    ghost function UsedBefore(chain: seq<nat>, contents: Contents, dirblock: nat): nat {
      if dirblock in chain then
        var i := IndexOf(chain, dirblock);
        if i > 0 && chain[i - 1] in contents then |Enc(contents[chain[i - 1]])| else DB_ENTRYSPACE
      else DB_ENTRYSPACE
    }

    /** The block before has room for so many bytes more. */
    ghost predicate RoomBefore(chain: seq<nat>, contents: Contents, dirblock: nat, needed: nat) {
      needed + UsedBefore(chain, contents, dirblock) + 1 <= DB_ENTRYSPACE
    }

    /** Puts an entry at the end of the block before a given one, or if that has no room, in a new
        block between the two. Fails, with nothing changed, if no block can be had for that. */
    method PutBefore(dirblock: nat, to: Entry) returns (ok: bool, result: Info)
      requires Valid() && dirblock in chain && EntryOk(to)
      modifies this`chain, this`blocks, this`contents, this`full
      ensures Valid() && (old(full) ==> full)
      ensures RoomBefore(old(chain), old(contents), dirblock, |to|) ==> ok && chain == old(chain) && full == old(full)
      ensures !ok ==> full && chain == old(chain) && blocks == old(blocks) && contents == old(contents)
      ensures old(full) && !RoomBefore(old(chain), old(contents), dirblock, |to|) ==> !ok
      ensures ok ==> result.dirblock in chain && result.dirblock != dirblock
      ensures ok ==> HandleOk(chain, contents, result) && EntryOf(blocks, result) == to
      ensures forall b :: b in old(chain) ==> b in chain
      ensures forall b :: b in chain && b !in old(chain) ==> b !in old(blocks)
      ensures dirblock in contents && dirblock in old(contents) && contents[dirblock] == old(contents)[dirblock]
      ensures ok ==> Entries() == old(Entries()) + multiset{to}
      ensures RoomBefore(old(chain), old(contents), dirblock, |to|) ==>
                var i := IndexOf(chain, dirblock);
                i > 0 && result.dirblock == chain[i - 1] && chain[i - 1] in old(contents)
                && contents == old(contents)[chain[i - 1] := old(contents)[chain[i - 1]] + [to]]
      ensures ok && !RoomBefore(old(chain), old(contents), dirblock, |to|) ==>
                chain == Inserted(old(chain), IndexOf(old(chain), dirblock), result.dirblock) && contents == old(contents)[result.dirblock := [to]]
      ensures forall j :: 0 <= j < |handles| && handles[j].dirblock in old(chain) ==> EntryOf(blocks, handles[j]) == EntryOf(old(blocks), handles[j])
    {
      hide Enc, HandleOk, DirOk, EntryOf, Inserted, All;
      InChain();
      DirUnique();
      var i := FindBlock(dirblock);
      if i > 0 {
        var prevblock := chain[i - 1];
        assert prevblock in chain && prevblock != dirblock by { Neighbours(i); }
        var dest := CheckFit(prevblock, |to|);
        if dest >= 0 {
          result := PutAtEnd(prevblock, dest, to);
          return true, result;
        }
      }
      ok := BlockAvailable();
      result := Info(0, 0);
      if ok {
        result := PutInNewBlock(i, to);
      }
    }

    lemma {:induction false} MoreUsed(chain: seq<nat>, c: Contents, d: Contents, b: nat, e: Entry)
      requires b in chain && RoomBefore(chain, c, b, |e|)
      requires var i := IndexOf(chain, b); i > 0 && chain[i - 1] in c && chain[i - 1] in d && d[chain[i - 1]] == c[chain[i - 1]] + [e]
      ensures UsedBefore(chain, d, b) == UsedBefore(chain, c, b) + |e|
    {
      hide Enc;
      EncSum(c[chain[IndexOf(chain, b) - 1]], [e]);
      EncOne(e);
    }

    lemma {:induction false} Neighbours(i: nat)
      requires Valid() && 0 < i < |chain|
      ensures chain[i - 1] != chain[i]
    {
      hide Holds;
    }

    /** Moves an entry to the block before, changing it to `to`. Fails, with nothing changed, if that
        takes a new block and none can be had. */
    method MoveToPrevious(de: Info, to: Entry, ghost k: nat) returns (ok: bool, result: Info)
      requires Valid() && Denotes(de, k) && EntryOk(to)
      modifies this
      ensures Valid() && (old(full) ==> full)
      ensures RoomBefore(old(chain), old(contents), de.dirblock, |to|) ==> ok && full == old(full)
      ensures !ok ==> full && chain == old(chain) && blocks == old(blocks) && contents == old(contents) && handles == old(handles)
      ensures old(full) && !RoomBefore(old(chain), old(contents), de.dirblock, |to|) ==> !ok
      ensures forall b :: b in old(chain) ==> b in chain
      ensures forall b :: b in chain && b !in old(chain) ==> b !in old(blocks)
      ensures ok ==> result.dirblock in chain && result.dirblock != de.dirblock
      ensures ok ==> HandleOk(chain, contents, result) && EntryOf(blocks, result) == to
      ensures ok ==> de.dirblock in contents && contents[de.dirblock] == Without(old(contents)[de.dirblock], k)
      ensures RoomBefore(old(chain), old(contents), de.dirblock, |to|) ==>
                chain == old(chain) && UsedBefore(chain, contents, de.dirblock) == UsedBefore(old(chain), old(contents), de.dirblock) + |to|
      ensures ok ==>
                var b, was := result.dirblock, old(contents);
                var more := (if RoomBefore(old(chain), was, de.dirblock, |to|) && b in was then was[b] else []) + [to];
                contents == was[b := more][de.dirblock := Without(was[de.dirblock], k)]
      ensures ok && !RoomBefore(old(chain), old(contents), de.dirblock, |to|) ==>
                chain == Inserted(old(chain), IndexOf(old(chain), de.dirblock), result.dirblock)
      ensures ok ==> Entries() + multiset{old(contents)[de.dirblock][k]} == old(Entries()) + multiset{to}
      ensures ok ==> Follow(old(chain), old(blocks), old(handles), blocks, handles, de, to)
      ensures ok ==> |handles| == |old(handles)|
      ensures ok ==> forall i :: 0 <= i < |handles| ==> handles[i] == Updated(old(handles)[i], de, result, -|old(contents)[de.dirblock][k]|)
    {
      hide Enc, Off, HandleOk, EntryOf, All, Without, Removed, Holds, Boundary, Updated, DirOk, At, Directory.RoomBefore;
      ok, result := PutBefore(de.dirblock, to);
      if ok {
        assert [] + [to] == [to];
        TakeOut(de, k, result, to);
        if RoomBefore(old(chain), old(contents), de.dirblock, |to|) {
          MoreUsed(old(chain), old(contents), contents, de.dirblock, to);
        }
      }
    }

    /** As much of that as its callers need. */
    method MoveAway(de: Info, to: Entry, ghost k: nat) returns (ok: bool, result: Info)
      requires Valid() && Denotes(de, k) && EntryOk(to)
      modifies this
      ensures Valid() && (old(full) ==> full)
      ensures RoomBefore(old(chain), old(contents), de.dirblock, |to|) ==> ok && full == old(full)
      ensures !ok ==> full && chain == old(chain) && blocks == old(blocks) && contents == old(contents) && handles == old(handles)
      ensures old(full) && !RoomBefore(old(chain), old(contents), de.dirblock, |to|) ==> !ok
      ensures forall b :: b in old(chain) ==> b in chain
      ensures forall b :: b in chain && b !in old(chain) ==> b !in old(blocks)
      ensures ok ==> result.dirblock in chain && result.dirblock != de.dirblock
      ensures ok ==> HandleOk(chain, contents, result) && EntryOf(blocks, result) == to
      ensures ok ==> de.dirblock in contents && contents[de.dirblock] == Without(old(contents)[de.dirblock], k)
      ensures RoomBefore(old(chain), old(contents), de.dirblock, |to|) ==>
                chain == old(chain) && UsedBefore(chain, contents, de.dirblock) == UsedBefore(old(chain), old(contents), de.dirblock) + |to|
      ensures ok ==> Entries() + multiset{old(contents)[de.dirblock][k]} == old(Entries()) + multiset{to}
      ensures ok ==> Follow(old(chain), old(blocks), old(handles), blocks, handles, de, to)
      ensures ok ==> |handles| == |old(handles)|
      ensures ok ==> forall i :: 0 <= i < |handles| ==> handles[i] == Updated(old(handles)[i], de, result, -|old(contents)[de.dirblock][k]|)
    {
      hide *;
      ok, result := MoveToPrevious(de, to, k);
    }

    /** Shifts out an entry that has been copied to `to`, and adjusts all references. */
    method TakeOut(de: Info, ghost k: nat, to: Info, ghost e: Entry)
      requires Valid() && Denotes(de, k)
      requires to.dirblock in chain && to.dirblock != de.dirblock && HandleOk(chain, contents, to) && EntryOf(blocks, to) == e
      modifies this`blocks, this`contents, this`handles
      ensures Valid() && HandleOk(chain, contents, to) && EntryOf(blocks, to) == e
      ensures de.dirblock in old(contents) && contents == old(contents)[de.dirblock := Without(old(contents)[de.dirblock], k)]
      ensures Entries() + multiset{old(contents)[de.dirblock][k]} == old(Entries())
      ensures Follow(chain, old(blocks), old(handles), blocks, handles, de, e)
      ensures |handles| == |old(handles)|
      ensures forall i :: 0 <= i < |handles| ==> handles[i] == Updated(old(handles)[i], de, to, -|old(contents)[de.dirblock][k]|)
    {
      hide Enc, Off, HandleOk, EntryOf, All, Without, Removed, Holds, Boundary, Updated, DirOk, At, Shifted, Follow;
      ghost var b, x, n, old_handles := de.dirblock, contents[de.dirblock], |contents[de.dirblock][k]|, handles;
      InChain();
      DirUnique();
      RemoveFits(chain, blocks, contents, b, k);
      ShiftAll(de, k, to, e);
      AllWithout(chain, contents, b, x, k);
      var removedlen: int := blocks[de.dirblock][de.direntry] as int;
      ghost var blocks0 := blocks;
      RemoveDirEntry(de, k);
      UpdateChangedRef(de, to, -removedlen);
      AfterShift(chain, blocks0, old_handles, blocks, contents, de, to, n, e, handles);
    }

    lemma {:induction false} ShiftAll(de: Info, k: nat, to: Info, e: Entry)
      requires Valid() && Denotes(de, k)
      requires to.dirblock in chain && to.dirblock != de.dirblock && HandleOk(chain, contents, to) && EntryOf(blocks, to) == e
      ensures de.dirblock in blocks && de.direntry + |contents[de.dirblock][k]| <= |blocks[de.dirblock]|
      ensures var b, n := de.dirblock, |contents[de.dirblock][k]|;
              var blocks', contents' := blocks[b := Removed(blocks[b], de.direntry, n)], contents[b := Without(contents[b], k)];
              && Shifted(chain, blocks, handles, blocks', contents', de, to, n, e)
              && DirOk(chain, blocks', contents') && HandleOk(chain, contents', to) && EntryOf(blocks', to) == e
    {
      hide Enc, Off, HandleOk, EntryOf, All, Without, Removed, Holds, Boundary, Updated, DirOk, At;
      InChain();
      RemoveFits(chain, blocks, contents, de.dirblock, k);
      forall i | 0 <= i < |handles|
        ensures var b, n := de.dirblock, |contents[de.dirblock][k]|;
                ShiftedOne(chain, blocks, handles[i], blocks[b := Removed(blocks[b], de.direntry, n)], contents[b := Without(contents[b], k)], de, to, n, e)
      {
        HandleShifted(chain, blocks, contents, de.dirblock, k, to, e, handles[i]);
      }
      HandleShifted(chain, blocks, contents, de.dirblock, k, to, e, to);
    }

    /** Moves what follows an entry, and copies another one over it. */
    method Overwrite(b: seq<bv8>, pos: nat, n: nat, to: Entry) returns (r: seq<bv8>)
      requires pos + n <= |b| && pos + |to| <= |b|
      ensures r == Replaced(b, pos, n, to)
    {
      var diff: int := |to| - n;
      var dest, start := pos + |to|, pos + n;
      var movelen := if diff > 0 then |b| - dest else |b| - start;
      MovedIsReplaced(b, pos, n, to);
      r := Copied(b, dest, b[start..start + movelen]);
      r := Copied(r, pos, to);
    }

    /** Replaces an entry where it is; there has to be enough room. */
    method RenameInPlace(from: Info, to: Entry, ghost k: nat) returns (result: Info)
      requires Valid() && Denotes(from, k) && EntryOk(to)
      requires |Enc(contents[from.dirblock])| - |contents[from.dirblock][k]| + |to| < DB_ENTRYSPACE
      modifies this`blocks, this`contents, this`handles
      ensures Valid() && result == from && HandleOk(chain, contents, result) && EntryOf(blocks, result) == to
      ensures from.dirblock in old(contents) && contents == old(contents)[from.dirblock := old(contents)[from.dirblock][k := to]]
      ensures Entries() + multiset{old(contents)[from.dirblock][k]} == old(Entries()) + multiset{to}
      ensures Follow(chain, old(blocks), old(handles), blocks, handles, from, to)
    {
      hide Enc, Off, HandleOk, EntryOf, All, Replaced, Holds, Boundary, Updated, DirOk, At, Copied, Shifted, Follow, EntryOk, Removed, Without;
      ghost var blocks0, n := blocks, |contents[from.dirblock][k]|;
      ghost var blk, x := from.dirblock, contents[from.dirblock];
      InChain();
      DirUnique();
      RemoveFits(chain, blocks, contents, blk, k);
      ReplaceAll(from, to, k);
      AllReplaced(chain, contents, blk, x, k, to);
      var b := blocks[from.dirblock];
      var next := b[from.direntry] as nat;
      var diff: int := |to| - next;
      b := Overwrite(b, from.direntry, next, to);
      blocks := blocks[from.dirblock := b];
      contents := contents[blk := x[k := to]];
      result := from;
      ghost var h := handles;
      UpdateChangedRef(from, result, diff);
      AfterShift(chain, blocks0, h, blocks, contents, from, from, n - |to|, to, handles);
    }

    /** All references after an entry is replaced. */
    lemma {:induction false} ReplaceAll(from: Info, to: Entry, k: nat)
      requires Valid() && Denotes(from, k) && EntryOk(to)
      requires |Enc(contents[from.dirblock])| - |contents[from.dirblock][k]| + |to| < DB_ENTRYSPACE
      ensures from.dirblock in blocks
      ensures var b, n := from.dirblock, |contents[from.dirblock][k]|;
              && from.direntry + n <= |blocks[b]| && from.direntry + |to| <= |blocks[b]|
              && var blocks', contents' := blocks[b := Replaced(blocks[b], from.direntry, n, to)], contents[b := contents[b][k := to]];
                 && Shifted(chain, blocks, handles, blocks', contents', from, from, n - |to|, to)
                 && DirOk(chain, blocks', contents') && HandleOk(chain, contents', from) && EntryOf(blocks', from) == to
    {
      hide Enc, Off, HandleOk, EntryOf, All, Replaced, Holds, Boundary, Updated, At;
      var b, x := from.dirblock, contents[from.dirblock];
      var n := |x[k]|;
      BlockOk(b);
      ReplaceHolds(blocks[b], x, k, to);
      DenotedOk(from, k);
      var blocks', contents' := blocks[b := Replaced(blocks[b], from.direntry, n, to)], contents[b := x[k := to]];
      forall i | 0 <= i < |handles|
        ensures ShiftedOne(chain, blocks, handles[i], blocks', contents', from, from, n - |to|, to)
      {
        if handles[i].dirblock in chain {
          HandleReplaced(chain, blocks, contents, b, k, to, handles[i]);
        } else {
          Elsewhere(chain, contents', handles[i]);
        }
        SameBlock(handles[i], from, |to| - n);
      }
      HandleReplaced(chain, blocks, contents, b, k, to, from);
      SameBlock(from, from, |to| - n);
    }

    lemma {:induction false} DenotedOk(from: Info, k: nat)
      requires Denotes(from, k)
      ensures HandleOk(chain, contents, from)
    {
    }

    lemma {:induction false} SameBlock(h: Info, from: Info, diff: int)
      ensures Updated(h, from, from, diff).dirblock == h.dirblock && Updated(from, from, from, diff) == from
      ensures h.dirblock != from.dirblock ==> Updated(h, from, from, diff) == h
    {
    }

    /** The first j entries of what was x in a block have been moved to the block before, and nothing else. */
    ghost predicate Moved(b: nat, x: seq<Entry>, used: nat, j: nat, chain0: seq<nat>)
      requires j <= |x|
      reads this`chain, this`contents, this`full
    {
      && full && chain == chain0 && b in contents && contents[b] == x[j..]
      && UsedBefore(chain, contents, b) == used + Off(x, j) && Moves(x, used, j)
    }

    lemma {:induction false} EntriesOk(b: nat)
      requires Valid() && b in chain
      ensures b in contents && AllOk(contents[b])
    {
      hide Enc;
      BlockOk(b);
      HoldsOk(blocks[b], contents[b]);
    }

    /** Where a rename stands: the entry was the k0-th and is the k-th, and there was not enough room yet. */
    ghost predicate Going(wasFull: bool, b: nat, x: seq<Entry>, used: nat, k0: nat, k: nat, size: nat, chain0: seq<nat>)
      reads this`chain, this`contents, this`full
    {
      k <= k0 < |x| && (wasFull ==> Moved(b, x, used, k0 - k, chain0) && forall i :: 0 <= i < k0 - k ==> !Fits(x, k0, size, i))
    }

    lemma {:induction false} StillGoing(b: nat, x: seq<Entry>, used: nat, k0: nat, k: nat, size: nat, chain0: seq<nat>)
      requires Going(true, b, x, used, k0, k, size, chain0)
      ensures k <= k0 < |x| && Moves(x, used, k0 - k) && forall i :: 0 <= i < k0 - k ==> !Fits(x, k0, size, i)
      ensures b in contents && (Fits(x, k0, size, k0 - k) <==> size - |x[k0]| + |Enc(contents[b])| + 1 <= DB_ENTRYSPACE)
      ensures RoomBefore(chain, contents, b, size) <==> Off(x, k0 - k) + size + used + 1 <= DB_ENTRYSPACE
      ensures full && chain == chain0
    {
      hide Enc, Off, Fits, Moves;
      FitsNow(b, x, used, k0, size, k0 - k, chain0);
    }

    /** One step of the spilling: an entry is moved, or the rename ends otherwise. */
    method SpillOrStop(from: Info, mover: Info, to: Entry, ghost k: nat, ghost c0: seq<nat>, ghost b0: Blocks, ghost h0: seq<Info>, ghost f0: Info,
                       ghost wasFull: bool, ghost x: seq<Entry>, ghost used: nat, ghost k0: nat)
      returns (stopped: bool, outcome: Renaming, next: Info, ghost j: nat)
      requires Valid() && Denotes(from, k) && mover == Info(from.dirblock, 0) && from.direntry != 0 && EntryOk(to) && AllOk(x)
      requires Tracking(c0, b0, h0, f0, chain, blocks, handles, from)
      requires Going(wasFull, from.dirblock, x, used, k0, k, |to|, c0)
      requires |to| - |x[k0]| + |Enc(contents[from.dirblock])| + 1 > DB_ENTRYSPACE
      modifies this
      ensures Valid() && (old(full) ==> full) && (forall b :: b in old(chain) ==> b in chain)
      ensures !stopped ==>
                && Denotes(next, j) && j == k - 1 && next.dirblock == from.dirblock && Entries() == old(Entries())
                && contents[next.dirblock][j] == old(contents)[from.dirblock][k]
                && Tracking(c0, b0, h0, f0, chain, blocks, handles, next)
                && Going(wasFull, from.dirblock, x, used, k0, j, |to|, c0)
      ensures stopped ==> full && !outcome.Renamed?
      ensures stopped && (outcome.Unchanged? || outcome.Astray?) ==> Entries() == old(Entries()) && StillDenote(c0, b0, h0, blocks, handles)
      ensures stopped && outcome.OtherRenamed? ==> Entries() + multiset{outcome.lost} == old(Entries()) + multiset{to}
      ensures stopped && wasFull ==> EndsAs(outcome, x, used, k0, |to|)
    {
      hide Enc, Off, HandleOk, EntryOf, All, Holds, Boundary, Updated, DirOk, At, Follow, Without, Tracking, StillDenote, Directory.RoomBefore, Directory.UsedBefore,
        Moves, Fits, Renames, EndsAs, StopsAs;
      outcome, j := Unchanged, 0;
      if wasFull { StillGoing(from.dirblock, x, used, k0, k, |to|, c0); }
      ghost var chain1, contents1 := chain, contents;
      StillTracked(c0, b0, h0, f0, chain, blocks, handles, from);
      var ok;
      ok, next, j := SpillFirst(from, mover, k, c0, b0, h0, f0);
      stopped := !ok;
      if stopped {
        if wasFull { Stopping(from, k, x, used, k0, k0 - k, c0, |to|); }
        ghost var room := RoomBefore(chain, contents, from.dirblock, |to|);
        outcome := GoOn(from, to, k);
        if wasFull {
          GoneOn(outcome, x, used, k0, |to|, k0 - k, from.direntry, room);
          EndedStop(outcome, x, used, k0, |to|, k0 - k);
        }
      } else if wasFull {
        OneMore(from.dirblock, x, used, k0 - k, chain1, contents1);
      }
    }

    lemma {:induction false} NoneMoved(b: nat, k: nat, size: nat)
      requires b in chain && b in contents && k < |contents[b]|
      ensures Going(full, b, contents[b], UsedBefore(chain, contents, b), k, k, size, chain)
    {
      hide Enc;
      FirstOff(contents[b]);
      assert contents[b][0..] == contents[b];
    }

    /** Whether there is room now, as seen from the start. */
    lemma {:induction false} FitsNow(b: nat, x: seq<Entry>, used: nat, k: nat, size: nat, j: nat, chain0: seq<nat>)
      requires j <= k < |x| && Moved(b, x, used, j, chain0)
      ensures b in contents
      ensures Fits(x, k, size, j) <==> size - |x[k]| + |Enc(contents[b])| + 1 <= DB_ENTRYSPACE
    {
      hide Enc;
      Rest(x, j, k);
    }

    /** The first entry that is left cannot be moved. */
    lemma {:induction false} Stopping(from: Info, k: nat, x: seq<Entry>, used: nat, k0: nat, j: nat, chain0: seq<nat>, size: nat)
      requires Denotes(from, k) && 0 < k && j + k == k0 < |x| && AllOk(x) && Moved(from.dirblock, x, used, j, chain0)
      requires !RoomBefore(chain, contents, from.dirblock, |contents[from.dirblock][0]|)
      ensures StopsAt(x, used, k0, j) && contents[from.dirblock][0] == x[j] && |x[j]| > 0
      ensures from.direntry == Off(x, k0) - Off(x, j)
      ensures RoomBefore(chain, contents, from.dirblock, size) <==> Off(x, j) + size + used + 1 <= DB_ENTRYSPACE
    {
      hide Enc, Off;
      Rest(x, j, k0);
      NextOff(x, j);
    }

    /** One more entry has been moved. */
    lemma {:induction false} OneMore(b: nat, x: seq<Entry>, used: nat, j: nat, chain1: seq<nat>, contents1: Contents)
      requires j < |x| && b in contents1 && contents1[b] == x[j..] && UsedBefore(chain1, contents1, b) == used + Off(x, j)
      requires full && chain == chain1 && b in contents && contents[b] == contents1[b][1..]
      requires RoomBefore(chain1, contents1, b, |x[j]|) && UsedBefore(chain, contents, b) == UsedBefore(chain1, contents1, b) + |x[j]|
      ensures Moved(b, x, used, j + 1, chain1)
    {
      hide Enc, Off, Directory.UsedBefore;
      NextOff(x, j);
      assert x[j..][1..] == x[j + 1..];
    }

    lemma {:induction false} NoneBefore(from: Info, k: nat)
      requires Valid() && Denotes(from, k) && from.direntry == 0
      ensures k == 0
    {
      hide Off, Enc;
      BlockOk(from.dirblock);
      HoldsOk(blocks[from.dirblock], contents[from.dirblock]);
      FirstOff(contents[from.dirblock]);
      if k > 0 { OffOrder(contents[from.dirblock], 0, k); }
    }

    /** Changes an entry to `to`. If its block has no room for that, entries are moved, from the first
        one on, to the block before, until there is room or the entry is the first one and can be
        moved itself. If a move takes a new block and none can be had, the entry is not renamed. */
    method RenameWithinDir(from0: Info, to: Entry, ghost k0: nat) returns (outcome: Renaming)
      requires Valid() && Denotes(from0, k0) && EntryOk(to)
      modifies this
      ensures Valid() && (old(full) ==> full) && (forall b :: b in old(chain) ==> b in chain)
      ensures !full ==> outcome.Renamed?
      ensures Room(old(contents), from0.dirblock, |to| - |old(contents)[from0.dirblock][k0]|) ==> outcome.Renamed?
      ensures outcome.Renamed? ==>
                && HandleOk(chain, contents, outcome.result) && EntryOf(blocks, outcome.result) == to
                && Entries() + multiset{old(contents)[from0.dirblock][k0]} == old(Entries()) + multiset{to}
                && Follow(old(chain), old(blocks), old(handles), blocks, handles, from0, to)
      ensures outcome.Unchanged? || outcome.Astray? ==>
                Entries() == old(Entries()) && StillDenote(old(chain), old(blocks), old(handles), blocks, handles)
      ensures outcome.OtherRenamed? ==> Entries() + multiset{outcome.lost} == old(Entries()) + multiset{to}
      ensures old(full) && |to| > |old(contents)[from0.dirblock][k0]| ==>
                EndsAs(outcome, old(contents)[from0.dirblock], UsedBefore(old(chain), old(contents), from0.dirblock), k0, |to|)
      ensures Room(old(contents), from0.dirblock, |to| - |old(contents)[from0.dirblock][k0]|) ==>
                && outcome.result == from0 && chain == old(chain)
                && contents == old(contents)[from0.dirblock := old(contents)[from0.dirblock][k0 := to]]
    {
      hide Enc, Off, HandleOk, EntryOf, All, Holds, Boundary, Updated, DirOk, At, Follow, Without, Tracking, StillDenote, Directory.RoomBefore, Directory.UsedBefore, Moves, Fits, Renames, EndsAs, StopsAs, Directory.Going;
      var from, mover := from0, Info(from0.dirblock, 0);
      ghost var k: nat := k0;
      ghost var entry := contents[from0.dirblock][k0];
      ghost var wasFull, x, used := full, contents[from0.dirblock], UsedBefore(chain, contents, from0.dirblock);
      EntriesOk(from0.dirblock);
      NoneMoved(from0.dirblock, k0, |to|);
      ghost var chain0, blocks0, handles0 := chain, blocks, handles;
      InChain();
      EntryLength(from, k);
      var spaceneeded: int := |to| - blocks[from.dirblock][from.direntry] as int;
      if spaceneeded <= 0 {
        RoomFor(from.dirblock, k);
        var result := RenameInPlace(from, to, k);
        return Renamed(result);
      }
      StartTracking(from);
      var fit := CheckFit(from.dirblock, spaceneeded);
      while fit < 0 && from.direntry != mover.direntry
        invariant Valid() && Denotes(from, k) && from.dirblock == from0.dirblock && contents[from.dirblock][k] == entry
        invariant forall b :: b in chain0 ==> b in chain
        invariant Entries() == old(Entries()) && (old(full) ==> full)
        invariant Tracking(chain0, blocks0, handles0, from0, chain, blocks, handles, from)
        invariant fit == if spaceneeded + |Enc(contents[from.dirblock])| + 1 <= DB_ENTRYSPACE then |Enc(contents[from.dirblock])| else -1
        invariant Going(wasFull, from0.dirblock, x, used, k0, k, |to|, chain0)
        invariant Room(old(contents), from0.dirblock, spaceneeded) ==> fit >= 0 && from == from0 && k == k0 && chain == chain0 && contents == old(contents)
        decreases k
      {
        var stopped, next;
        ghost var j;
        stopped, outcome, next, j := SpillOrStop(from, mover, to, k, chain0, blocks0, handles0, from0, wasFull, x, used, k0);
        if stopped {
          return;
        }
        from, k := next, j;
        fit := CheckFit(from.dirblock, spaceneeded);
      }
      ghost var chain1, blocks1, handles1 := chain, blocks, handles;
      StillTracked(chain0, blocks0, handles0, from0, chain, blocks, handles, from);
      if wasFull { StillGoing(from0.dirblock, x, used, k0, k, |to|, chain0); }
      if fit >= 0 {
        RoomFor(from.dirblock, k);
        var result := RenameInPlace(from, to, k);
        Tracked(chain0, blocks0, handles0, from0, chain1, blocks1, handles1, from, blocks, handles, to);
        outcome := Renamed(result);
        if wasFull { EndedFit(outcome, x, used, k0, |to|, k0 - k); }
        return;
      }
      NoneBefore(from, k);
      ghost var last := RoomBefore(chain, contents, from.dirblock, |to|);
      var ok, result := MoveToPrevious(from, to, k);
      outcome := if ok then Renamed(result) else Unchanged;
      if wasFull { EndedLast(outcome, x, used, k0, |to|); }
      if ok {
        Tracked(chain0, blocks0, handles0, from0, chain1, blocks1, handles1, from, blocks, handles, to);
      }
    }

    /** What becomes of a rename when the first entry cannot be moved: each further attempt fails too,
        and `from` goes down by the length of the first entry all the same. If it gets to the first
        entry, that one is moved in its stead, should the block before have room for `to`; if it does
        not, it leaves the block. */
    method GoOn(from: Info, to: Entry, ghost k: nat) returns (outcome: Renaming)
      requires Valid() && full && Denotes(from, k) && from.direntry != 0 && EntryOk(to)
      modifies this
      ensures Valid() && full && !outcome.Renamed? && (forall b :: b in old(chain) ==> b in chain)
      ensures |old(contents)[from.dirblock]| > 0 && |old(contents)[from.dirblock][0]| > 0
      ensures var first := old(contents)[from.dirblock][0];
              && (outcome.Astray? <==> from.direntry % |first| != 0)
              && (outcome.OtherRenamed? <==> from.direntry % |first| == 0 && RoomBefore(old(chain), old(contents), from.dirblock, |to|))
              && (outcome.OtherRenamed? ==> outcome.lost == first && Entries() + multiset{first} == old(Entries()) + multiset{to})
      ensures !outcome.OtherRenamed? ==> chain == old(chain) && blocks == old(blocks) && contents == old(contents) && handles == old(handles)
    {
      hide Enc, HandleOk, EntryOf, All, Holds, Boundary, Updated, DirOk, Follow, Without, At, Off, Directory.RoomBefore;
      ghost var x := contents[from.dirblock];
      FirstOff(x);
      BlockOk(from.dirblock);
      HoldsOk(blocks[from.dirblock], x);
      FirstDenotes(from.dirblock);
      EntryLength(Info(from.dirblock, 0), 0);
      var pos := GoDown(from.direntry, blocks[from.dirblock][0] as nat);
      if pos < 0 {
        return Astray;
      }
      var first := At(blocks[from.dirblock], 0);
      AtIs(blocks[from.dirblock], x, 0);
      var ok, result := MoveToPrevious(Info(from.dirblock, 0), to, 0);
      outcome := if ok then OtherRenamed(result, first) else Unchanged;
    }

    /** Goes down by `length` until that is no longer above 0. */
    method GoDown(start: nat, length: nat) returns (pos: int)
      requires start > 0 && length > 0
      ensures pos <= 0 && (pos == 0 <==> start % length == 0)
    {
      pos := start - length;
      ghost var m := 1;
      assert m * length == length;
      while pos > 0
        invariant m > 0 && pos == start - m * length && pos + length > 0
        decreases pos
      {
        pos := pos - length;
        m := m + 1;
      }
      if pos == 0 {
        DivUnique(start, length, m, 0);
      } else {
        assert (m - 1) * length == m * length - length;
        DivUnique(start, length, m - 1, length + pos);
      }
    }

    lemma {:induction false} EntryLength(from: Info, k: nat)
      requires Valid() && Denotes(from, k)
      ensures from.dirblock in blocks && 0 <= from.direntry < |blocks[from.dirblock]|
      ensures blocks[from.dirblock][from.direntry] as nat == |contents[from.dirblock][k]|
    {
      hide Off, Holds, Removed, Without, Enc;
      RemoveFits(chain, blocks, contents, from.dirblock, k);
    }

    lemma {:induction false} RoomFor(b: nat, k: nat)
      requires Valid() && b in chain
      ensures b in contents && |Enc(contents[b])| < DB_ENTRYSPACE
    {
      hide Enc;
      BlockOk(b);
      HoldsOk(blocks[b], contents[b]);
    }

    /** Moves the first entry of the block to the block before, and `from` down accordingly. If the move
        fails, nothing has changed but `from`. */
    method SpillFirst(from0: Info, mover: Info, ghost k: nat, ghost c0: seq<nat>, ghost b0: Blocks, ghost h0: seq<Info>, ghost f0: Info)
      returns (ok: bool, from: Info, ghost j: nat)
      requires Valid() && Denotes(from0, k) && mover == Info(from0.dirblock, 0) && from0.direntry != 0
      requires Tracking(c0, b0, h0, f0, chain, blocks, handles, from0)
      modifies this
      ensures Valid() && from.dirblock == from0.dirblock && (old(full) ==> full)
      ensures !ok ==> full && chain == old(chain) && blocks == old(blocks) && contents == old(contents) && handles == old(handles)
      ensures from0.dirblock in old(contents) && |old(contents)[from0.dirblock]| > 0
      ensures old(full) && !RoomBefore(old(chain), old(contents), from0.dirblock, |old(contents)[from0.dirblock][0]|) ==> !ok
      ensures RoomBefore(old(chain), old(contents), from0.dirblock, |old(contents)[from0.dirblock][0]|) ==>
                && ok && full == old(full) && chain == old(chain)
                && UsedBefore(chain, contents, from0.dirblock) == UsedBefore(old(chain), old(contents), from0.dirblock) + |old(contents)[from0.dirblock][0]|
      ensures ok ==> from.dirblock in contents && contents[from.dirblock] == old(contents)[from.dirblock][1..]
      ensures k > 0 && (ok ==> Denotes(from, j) && j == k - 1)
      ensures ok ==> from0.dirblock in old(contents) && contents[from.dirblock][j] == old(contents)[from0.dirblock][k]
      ensures forall b :: b in old(chain) ==> b in chain
      ensures Entries() == old(Entries())
      ensures ok ==> Tracking(c0, b0, h0, f0, chain, blocks, handles, from)
    {
      hide Enc, Off, HandleOk, EntryOf, All, Holds, Boundary, Updated, DirOk, At, Follow, Without, Tracking, Directory.UsedBefore, Directory.RoomBefore;
      ghost var b, x := from0.dirblock, contents[from0.dirblock];
      FirstOff(x);
      assert k > 0;
      BlockOk(b);
      HoldsOk(blocks[b], x);
      RemoveOff(x, 0, k);
      WithoutSize(x, 0);
      WithoutFirst(x);
      AtIs(blocks[b], x, 0);
      FirstDenotes(b);
      var first := At(blocks[mover.dirblock], mover.direntry);
      from, j := Info(from0.dirblock, from0.direntry - |first|), k - 1;
      ghost var chain1, blocks1, contents1, handles1 := chain, blocks, contents, handles;
      var result;
      ok, result := MoveAway(mover, first, 0);
      if !ok {
        return;
      }
      CancelOne(Entries(), old(Entries()), multiset{first});
      StepTracking(c0, b0, h0, f0, chain1, blocks1, contents1, handles1, from0, chain, blocks, handles, from, mover, result, first);
    }

    lemma {:induction false} FirstDenotes(b: nat)
      requires Valid() && b in chain && b in contents && |contents[b]| > 0
      ensures Denotes(Info(b, 0), 0) && EntryOk(contents[b][0]) && EntryOf(blocks, Info(b, 0)) == contents[b][0]
    {
      hide Enc, EntryOk, At, Off;
      BlockOk(b);
      HoldsOk(blocks[b], contents[b]);
      FirstOff(contents[b]);
      HandleMade(chain, blocks, contents, b, 0);
    }

    /** The n-th block, b, is the first with room for an entry, an end mark and a byte to spare. */
    ghost predicate FirstRoom(chain: seq<nat>, contents: Contents, size: nat, n: nat, b: nat) {
      && n < |chain| && chain[n] == b
      && (forall i :: 0 <= i <= n ==> chain[i] in contents && (|Enc(contents[chain[i]])| + size + 1 < DB_ENTRYSPACE <==> i == n))
    }

    /** Adds an entry to the first block that has room for it and a byte to spare, or to a new block
        at the start of the directory. Fails, with nothing changed, if that takes a new block and none
        can be had. */
    method AddDirectoryEntry(newentry: Entry) returns (ok: bool, newinfo: Info)
      requires Valid() && EntryOk(newentry)
      modifies this`chain, this`blocks, this`contents, this`full
      ensures Valid() && (old(full) ==> full)
      ensures ok ==> HandleOk(chain, contents, newinfo) && EntryOf(blocks, newinfo) == newentry && newinfo.dirblock in chain
      ensures ok ==> Entries() == old(Entries()) + multiset{newentry}
      ensures !ok ==> full && chain == old(chain) && blocks == old(blocks) && contents == old(contents)
      ensures (exists b :: b in old(chain) && b in old(contents) && |Enc(old(contents)[b])| + |newentry| + 1 < DB_ENTRYSPACE) ==> ok
      ensures forall b :: b in old(chain) ==> b in chain
      ensures forall j :: 0 <= j < |handles| && handles[j].dirblock in old(chain) ==> EntryOf(blocks, handles[j]) == EntryOf(old(blocks), handles[j])
      ensures ok ==> newinfo.dirblock in contents && (newinfo.dirblock in old(chain) ==> newinfo.dirblock in old(contents))
      ensures ok ==> contents == old(contents)[newinfo.dirblock :=
                       (if newinfo.dirblock in old(chain) then old(contents)[newinfo.dirblock] else []) + [newentry]]
      ensures ok && chain == old(chain) ==> exists n :: FirstRoom(old(chain), old(contents), |newentry|, n, newinfo.dirblock)
      ensures ok && chain != old(chain) ==> newinfo.dirblock == chain[0] && newinfo.dirblock !in old(chain)
      ensures chain != old(chain) ==>
                chain[1..] == old(chain) && forall b :: b in old(chain) ==> b in old(contents) && |Enc(old(contents)[b])| + |newentry| + 1 >= DB_ENTRYSPACE
    {
      hide Enc, HandleOk, DirOk, EntryOf, All, Off;
      var n := 0;
      InChain();
      while n < |chain|
        invariant 0 <= n <= |chain| && chain == old(chain) && blocks == old(blocks) && contents == old(contents) && full == old(full) && Valid()
        invariant forall i :: 0 <= i < n ==> |Enc(contents[chain[i]])| + |newentry| + 1 >= DB_ENTRYSPACE
      {
        var blok := chain[n];
        var i := EndOfBlock(blok);
        if i + |newentry| + 1 < DB_ENTRYSPACE {
          newinfo := PutAtEnd(blok, i, newentry);
          assert FirstRoom(old(chain), old(contents), |newentry|, n, newinfo.dirblock);
          return true, newinfo;
        }
        n := n + 1;
      }
      ok := BlockAvailable();
      newinfo := Info(0, 0);
      if ok {
        newinfo := PutInNewBlock(0, newentry);
        assert [] + [newentry] == [newentry];
      }
    }

    lemma {:induction false} StartTracking(from: Info)
      ensures Tracking(chain, blocks, handles, from, chain, blocks, handles, from)
    {
    }
  }

  /** While entries are moved about: every reference denotes what it denoted at the start, and
      references to the entry to be renamed are those that equal `from`. */
  ghost predicate Tracking(chain0: seq<nat>, blocks0: Blocks, handles0: seq<Info>, from0: Info,
                           chain: seq<nat>, blocks: Blocks, handles: seq<Info>, from: Info) {
    && |handles| == |handles0|
    && forall i :: 0 <= i < |handles| ==>
         if handles0[i].dirblock in chain0 then
           && handles[i].dirblock in chain && EntryOf(blocks, handles[i]) == EntryOf(blocks0, handles0[i])
           && (handles[i] == from <==> handles0[i] == from0)
         else handles[i] == handles0[i] && handles[i].dirblock !in chain
  }

  /** Every reference into the directory denotes what it denoted; other references are as they were. */
  ghost predicate StillDenote(chain: seq<nat>, blocks: Blocks, handles: seq<Info>, blocks': Blocks, handles': seq<Info>) {
    && |handles'| == |handles|
    && forall i :: 0 <= i < |handles| ==>
         if handles[i].dirblock in chain then EntryOf(blocks', handles'[i]) == EntryOf(blocks, handles[i])
         else handles'[i] == handles[i]
  }

  lemma {:induction false} StillTracked(c0: seq<nat>, b0: Blocks, h0: seq<Info>, f0: Info,
                                        chain: seq<nat>, blocks: Blocks, handles: seq<Info>, from: Info)
    requires Tracking(c0, b0, h0, f0, chain, blocks, handles, from)
    ensures StillDenote(c0, b0, h0, blocks, handles)
  {
    hide EntryOf;
  }

  lemma {:induction false} StepTracking(c0: seq<nat>, b0: Blocks, h0: seq<Info>, f0: Info,
                                        chain: seq<nat>, blocks: Blocks, contents: Contents, handles: seq<Info>, from: Info,
                                        chain': seq<nat>, blocks': Blocks, handles': seq<Info>, from': Info,
                                        mover: Info, result: Info, first: Entry)
    requires Tracking(c0, b0, h0, f0, chain, blocks, handles, from)
    requires forall i :: 0 <= i < |handles| ==> HandleOk(chain, contents, handles[i]) && handles[i].dirblock in blocks
    requires forall b :: b in chain ==> b in chain'
    requires forall b :: b in chain' && b !in chain ==> b !in blocks
    requires mover == Info(from.dirblock, 0) && from.direntry != 0 && result.dirblock in chain' && result.dirblock != mover.dirblock
    requires from' == Info(from.dirblock, from.direntry - |first|) && mover.dirblock in chain && EntryOf(blocks, mover) == first
    requires Follow(chain, blocks, handles, blocks', handles', mover, first)
    requires |handles'| == |handles| && forall i :: 0 <= i < |handles| ==> handles'[i] == Updated(handles[i], mover, result, -|first|)
    ensures Tracking(c0, b0, h0, f0, chain', blocks', handles', from')
  {
    hide EntryOf, Boundary;
  }

  /** What the last step does, seen from the start. */
  lemma {:induction false} Tracked(c0: seq<nat>, b0: Blocks, h0: seq<Info>, f0: Info,
                                   chain: seq<nat>, blocks: Blocks, handles: seq<Info>, from: Info,
                                   blocks': Blocks, handles': seq<Info>, to: Entry)
    requires Tracking(c0, b0, h0, f0, chain, blocks, handles, from)
    requires Follow(chain, blocks, handles, blocks', handles', from, to)
    ensures Follow(c0, b0, h0, blocks', handles', f0, to)
  {
    hide EntryOf;
  }

  lemma {:induction false} AllReplaced(chain: seq<nat>, c: Contents, b: nat, x: seq<Entry>, k: nat, e: Entry)
    requires Unique(chain) && b in chain && (forall a :: a in chain ==> a in c) && c[b] == x && k < |x|
    ensures All(chain, c[b := x[k := e]]) + multiset{x[k]} == All(chain, c) + multiset{e}
  {
    hide All;
    AllUpdate(chain, c, b, x[k := e]);
    assert x == x[..k] + [x[k]] + x[k + 1..] && x[k := e] == x[..k] + [e] + x[k + 1..];
    var r := multiset(x[..k]) + multiset(x[k + 1..]);
    assert multiset(x) == multiset{x[k]} + r && multiset(x[k := e]) == multiset{e} + r;
    Swap(All(chain, c[b := x[k := e]]), All(chain, c), r, multiset{x[k]}, multiset{e});
  }

  lemma {:induction false} Swap(a: multiset<Entry>, b: multiset<Entry>, r: multiset<Entry>, u: multiset<Entry>, v: multiset<Entry>)
    requires a + (u + r) == b + (v + r)
    ensures a + u == b + v
  {
    assert (a + (u + r)) - r == a + u && (b + (v + r)) - r == b + v;
  }

  /** Moving what follows and copying the new entry is replacing the entry. */
  lemma {:induction false} MovedIsReplaced(b: seq<bv8>, pos: nat, n: nat, e: Entry)
    requires pos + n <= |b| && pos + |e| <= |b|
    ensures var dest, start := pos + |e|, pos + n;
            var movelen := if |e| > n then |b| - dest else |b| - start;
            && start + movelen <= |b| && dest + movelen <= |b|
            && Replaced(b, pos, n, e) == Copied(Copied(b, dest, b[start..start + movelen]), pos, e)
  {
    hide Copied;
    assert b[pos + n..] == b[pos + n..|b|];
  }

  ghost predicate ShiftedOne(chain: seq<nat>, blocks: Blocks, h: Info, blocks': Blocks, contents': Contents, de: Info, to: Info, n: int, e: Entry) {
    var h' := Updated(h, de, to, -n);
    && HandleOk(chain, contents', h') && h'.dirblock in blocks'
    && (h.dirblock in chain ==> EntryOf(blocks', h') == if h == de then e else EntryOf(blocks, h))
    && (h.dirblock !in chain ==> h' == h)
  }

  ghost predicate Shifted(chain: seq<nat>, blocks: Blocks, handles: seq<Info>, blocks': Blocks, contents': Contents, de: Info, to: Info, n: int, e: Entry) {
    forall i :: 0 <= i < |handles| ==> ShiftedOne(chain, blocks, handles[i], blocks', contents', de, to, n, e)
  }

  lemma {:induction false} AfterShift(chain: seq<nat>, blocks: Blocks, handles: seq<Info>, blocks': Blocks, contents': Contents,
                                      de: Info, to: Info, n: int, e: Entry, handles': seq<Info>)
    requires Shifted(chain, blocks, handles, blocks', contents', de, to, n, e)
    requires |handles'| == |handles| && forall i :: 0 <= i < |handles| ==> handles'[i] == Updated(handles[i], de, to, -n)
    ensures Follow(chain, blocks, handles, blocks', handles', de, e)
    ensures forall i :: 0 <= i < |handles'| ==> HandleOk(chain, contents', handles'[i]) && handles'[i].dirblock in blocks'
  {
    hide HandleOk, EntryOf, Updated;
    forall i | 0 <= i < |handles|
      ensures ShiftedOne(chain, blocks, handles[i], blocks', contents', de, to, n, e)
    {
    }
  }

  lemma {:induction false} AllWithout(chain: seq<nat>, c: Contents, b: nat, x: seq<Entry>, k: nat)
    requires Unique(chain) && b in chain && (forall a :: a in chain ==> a in c) && c[b] == x && k < |x|
    ensures All(chain, c[b := Without(x, k)]) + multiset{x[k]} == All(chain, c)
  {
    hide All;
    AllUpdate(chain, c, b, Without(x, k));
    var y := Without(x, k);
    assert x == x[..k] + [x[k]] + x[k + 1..];
    assert multiset(x) == multiset(y) + multiset{x[k]};
    Cancel(All(chain, c), All(chain, c[b := y]), multiset(y), multiset{x[k]});
  }

  // ---------------------------------------------------------------------
  // A directory in which a rename hits another entry

  /** n entries of one byte each. */
  function Ones(n: nat): seq<Entry> {
    seq(n, i => [1])
  }

  /** An entry of n bytes. */
  function Sized(n: bv8): (e: Entry)
    requires n > 0
    ensures EntryOk(e) && |e| == n as nat
  {
    SizedOk(n);
    [n] + Zeros(n as nat - 1)
  }

  lemma {:induction false} SizedOk(n: bv8)
    requires n > 0
    ensures 0 < n as nat < 0x100
  {
    assert n != 0;
  }

  lemma {:induction false} OnesOk(n: nat)
    ensures AllOk(Ones(n)) && |Enc(Ones(n))| == n
  {
    if n > 0 {
      OnesOk(n - 1);
      assert Ones(n)[..n - 1] == Ones(n - 1);
    }
  }

  /** A block that holds these entries. */
  function BlockWith(x: seq<Entry>): (b: seq<bv8>)
    requires |Enc(x)| < DB_ENTRYSPACE
    ensures |b| == DB_ENTRYSPACE && b[..|Enc(x)|] == Enc(x) && b[|Enc(x)|] == 0
  {
    Enc(x) + Zeros(DB_ENTRYSPACE - |Enc(x)|)
  }

  lemma {:induction false} TwoThenOnes(a: Entry, b: Entry, n: nat)
    requires EntryOk(a) && EntryOk(b)
    ensures var x := [a, b] + Ones(n); AllOk(x) && |Enc(x)| == |a| + |b| + n && Off(x, 1) == |a|
  {
    hide Enc;
    OnesOk(n);
    var x := [a, b] + Ones(n);
    EncSum([a, b], Ones(n));
    EncSum([a], [b]);
    assert [a] + [b] == [a, b] && x[..1] == [a];
    EncOne(a);
    EncOne(b);
  }

  /** The entries of the first block, and of the second. */
  function FirstEntries(): seq<Entry> {
    Ones(DB_ENTRYSPACE - 30)
  }

  function SecondEntries(): seq<Entry> {
    [Sized(40), Sized(20)] + Ones(DB_ENTRYSPACE - 62)
  }

  lemma {:induction false} BothOk()
    ensures var x, y := FirstEntries(), SecondEntries();
            && AllOk(x) && |Enc(x)| == DB_ENTRYSPACE - 30
            && AllOk(y) && |Enc(y)| == DB_ENTRYSPACE - 2 && Off(y, 1) == 40
            && |y| > 1 && y[0] == Sized(40) && y[1] == Sized(20)
  {
    hide Enc, EntryOk, Off;
    OnesOk(DB_ENTRYSPACE - 30);
    TwoThenOnes(Sized(40), Sized(20), DB_ENTRYSPACE - 62);
  }

  /** The second entry of the second block cannot get 22 bytes, because the first one cannot be moved. */
  lemma {:induction false} CannotRename()
    ensures var y := SecondEntries(); |y| > 1 && StopsAt(y, DB_ENTRYSPACE - 30, 1, 0) && !Renames(y, DB_ENTRYSPACE - 30, 1, 22)
  {
    hide Enc, EntryOk, Off, SecondEntries;
    BothOk();
    var y := SecondEntries();
    OffEnd(y);
    NoRename(y, DB_ENTRYSPACE - 30, 1, 22, 0);
  }

  method TwoBlocks() returns (dir: Directory)
    ensures fresh(dir) && dir.Valid() && dir.full && dir.chain == [1, 2] && dir.Denotes(Info(2, 40), 1)
    ensures 2 in dir.contents && dir.contents[2] == SecondEntries() && dir.UsedBefore(dir.chain, dir.contents, 2) == DB_ENTRYSPACE - 30
  {
    hide Enc, EntryOk, Holds, Off, Boundary, At, FirstEntries, SecondEntries, Sized;
    BothOk();
    var x, y := FirstEntries(), SecondEntries();
    var b, c := BlockWith(x), BlockWith(y);
    HoldsMade(b, x);
    HoldsMade(c, y);
    ghost var contents := map[1 := x, 2 := y];
    dir := new Directory([1, 2], map[1 := b, 2 := c], [], true, contents);
    FirstIndex([1, 2], 2, 1);
  }

  /** Two blocks, of which the first has room for 29 bytes more and the second for none; the second starts with an
      entry of 40 bytes and the one to be renamed, of 20 bytes, which is to have 22. With no block to
      be had the entry of 40 bytes is lost, and the one to be renamed stays. */
  method RenameHitsOther() returns (outcome: Renaming)
    ensures outcome.OtherRenamed? && outcome.lost == Sized(40)
  {
    hide Enc, EntryOk, Holds, Off, Boundary, At, SecondEntries, StopsAt, Renames, Directory.Valid;
    var dir := TwoBlocks();
    BothOk();
    CannotRename();
    OffEnd(SecondEntries());
    outcome := dir.RenameWithinDir(Info(2, 40), Sized(22), 1);
    assert StopsAs(outcome, SecondEntries(), DB_ENTRYSPACE - 30, 1, 22, 0);
  }

  lemma {:induction false} HoldsMade(b: seq<bv8>, x: seq<Entry>)
    requires |b| == DB_ENTRYSPACE && AllOk(x) && |Enc(x)| < |b| && b[..|Enc(x)|] == Enc(x) && b[|Enc(x)|] == 0
    ensures Holds(b, x)
  {
  }
}
