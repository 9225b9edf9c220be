/** The invariants of copy-on-write metadata: what every step of MakeBlockDirty, of evicting a cached
    block and of UpdateDisk keeps (PFS3lib/update.cpp, PFS3lib/lru.cpp). */
module CommitSteps {
  import opened ReservedTree

  /** A cached block; oldblocknr is 0 unless it is dirty and was stored elsewhere before. */
  datatype Cached = Cached(blocknr: nat, oldblocknr: nat, dirty: bool, content: Content)

  type Cache = map<Id, Cached>

  /** The file system in memory and the disk under it: the block cache, the root block, the free
      reserved blocks, the numbers to be freed at the next commit; the blocks on disk and the
      pointers of the root block on disk. */
  datatype State = State(cache: Cache, root: Ptrs, free: set<nat>, rtbf: seq<nat>, blocks: Blocks, diskroot: Ptrs)

  /** What the state stands for: the tree in memory and its places; the tree last committed and its places;
      and the numbers of the reserved area. */
  datatype Meaning = Meaning(area: set<nat>, loc: Ptrs, view: Tree, comloc: Ptrs, committed: Tree)

  /** A cached block is what the tree in memory says it is. A block `moving` to a new place has its
      new number already, but the tree records the old one. */
  ghost predicate CacheOk(cache: Cache, loc: Ptrs, view: Tree, moving: Option<Id>) {
    forall id :: id in cache ==>
      && id in loc && id in view && cache[id].content == view[id]
      && (moving == Some(id) || cache[id].blocknr == loc[id])
      && (cache[id].oldblocknr != 0 ==> cache[id].dirty)
  }

  /** Every block that is not cached dirty is on disk where it belongs; `changed` is a block whose
      contents just changed and which is about to be made dirty. */
  ghost predicate StoredOk(cache: Cache, loc: Ptrs, view: Tree, blocks: Blocks, changed: Option<Id>) {
    forall id :: id in loc ==>
      || (id in cache && (cache[id].dirty || changed == Some(id)))
      || (id in view && loc[id] in blocks && blocks[loc[id]] == view[id])
  }

  ghost predicate Injective(loc: Ptrs) {
    forall a, b :: a in loc && b in loc && a != b ==> loc[a] != loc[b]
  }

  /** Free blocks and blocks to be freed are not in use. */
  ghost predicate FreeOk(cache: Cache, loc: Ptrs, free: set<nat>, rtbf: seq<nat>, moving: Option<Id>) {
    && 0 !in free
    && (forall id :: id in loc ==> loc[id] !in free && loc[id] !in rtbf && loc[id] != 0)
    && (forall n :: n in rtbf ==> n !in free)
    && (forall id :: id in cache && cache[id].oldblocknr != 0 ==> cache[id].oldblocknr !in free)
    && (forall id, a :: id in cache && a in loc && cache[id].oldblocknr == loc[a] ==> moving == Some(id) && a == id)
  }

  /** No number is to be freed twice. */
  ghost predicate LimboOk(cache: Cache, rtbf: seq<nat>) {
    && 0 !in rtbf
    && (forall i, j :: 0 <= i < j < |rtbf| ==> rtbf[i] != rtbf[j])
    && (forall id :: id in cache ==> cache[id].oldblocknr !in rtbf)
    && (forall a, b :: a in cache && b in cache && a != b && cache[a].oldblocknr != 0 ==>
          cache[a].oldblocknr != cache[b].oldblocknr)
  }

  /** The block being moved has a number of its own. */
  ghost predicate MovingOk(cache: Cache, loc: Ptrs, free: set<nat>, rtbf: seq<nat>, moving: Option<Id>) {
    moving.Some? ==>
      var id := moving.value;
      && id in cache && cache[id].dirty && cache[id].blocknr != 0
      && cache[id].blocknr !in free && cache[id].blocknr !in rtbf
      && id in loc && cache[id].oldblocknr == loc[id]
      && (forall a :: a in loc ==> loc[a] != cache[id].blocknr)
      && (forall a :: a in cache ==> cache[a].oldblocknr != cache[id].blocknr)
  }

  /** What the number n of a reserved block stands for: it is free, or waits to be freed, or a block
      of the tree is stored there. */
  ghost predicate HasUse(cache: Cache, loc: Ptrs, free: set<nat>, rtbf: seq<nat>, moving: Option<Id>, n: nat) {
    || n in free || n in rtbf || n in loc.Values
    || (exists id :: id in cache && cache[id].oldblocknr == n)
    || (moving.Some? && moving.value in cache && cache[moving.value].blocknr == n)
  }

  /** No reserved block is lost. */
  ghost predicate NoLeak(cache: Cache, loc: Ptrs, free: set<nat>, rtbf: seq<nat>, moving: Option<Id>, area: set<nat>) {
    0 !in area && forall n :: n in area ==> HasUse(cache, loc, free, rtbf, moving, n)
  }

  /** No dirty block will be written over a block of the committed tree. */
  ghost predicate Protected(cache: Cache, comloc: Ptrs) {
    forall id :: id in cache && cache[id].dirty ==> cache[id].blocknr !in comloc.Values
  }

  /** Holds between any two steps while nothing is being freed. */
  ghost predicate Inv(s: State, g: Meaning, moving: Option<Id>, changed: Option<Id>) {
    && InvFlush(s, g, moving, changed)
    && forall n :: n in g.comloc.Values ==> n !in s.free
  }

  /** Holds during UpdateDisk too, when numbers of the committed tree have been freed already. */
  ghost predicate InvFlush(s: State, g: Meaning, moving: Option<Id>, changed: Option<Id>) {
    && Consistent(s.root, g.loc, g.view)
    && CacheOk(s.cache, g.loc, g.view, moving)
    && StoredOk(s.cache, g.loc, g.view, s.blocks, changed)
    && Injective(g.loc)
    && FreeOk(s.cache, g.loc, s.free, s.rtbf, moving)
    && LimboOk(s.cache, s.rtbf)
    && NoLeak(s.cache, g.loc, s.free, s.rtbf, moving, g.area)
    && MovingOk(s.cache, g.loc, s.free, s.rtbf, moving)
    && Protected(s.cache, g.comloc)
    && ReadsAs(s.blocks, s.diskroot, g.comloc, g.committed)
  }

  // ---------------------------------------------------------------------
  // Reading a block into the cache

  lemma {:induction false} ReadStep(s: State, g: Meaning, moving: Option<Id>, id: Id)
    requires Inv(s, g, moving, None) && id in g.loc && id !in s.cache
    ensures id in g.view && g.loc[id] in s.blocks && s.blocks[g.loc[id]] == g.view[id]
    ensures Inv(s.(cache := s.cache[id := Cached(g.loc[id], 0, false, g.view[id])]), g, moving, None)
  {
    hide ReadsAs, Consistent, Injective, MovingOk, FreeOk, NoLeak, LimboOk;
    ReadLimbo(s, g, moving, id);
    var c := s.cache[id := Cached(g.loc[id], 0, false, g.view[id])];
    ReadFree(s.cache, g.loc, s.free, s.rtbf, moving, id, c);
    ReadMoving(s.cache, g.loc, s.free, s.rtbf, moving, id, c);
  }

  lemma {:induction false} ReadFree(cache: Cache, loc: Ptrs, free: set<nat>, rtbf: seq<nat>, moving: Option<Id>, id: Id, c: Cache)
    requires FreeOk(cache, loc, free, rtbf, moving) && id in loc && id !in cache
    requires exists x :: c == cache[id := Cached(loc[id], 0, false, x)]
    ensures FreeOk(c, loc, free, rtbf, moving)
  {
  }

  lemma {:induction false} ReadMoving(cache: Cache, loc: Ptrs, free: set<nat>, rtbf: seq<nat>, moving: Option<Id>, id: Id, c: Cache)
    requires MovingOk(cache, loc, free, rtbf, moving) && id in loc && id !in cache
    requires exists x :: c == cache[id := Cached(loc[id], 0, false, x)]
    ensures MovingOk(c, loc, free, rtbf, moving)
  {
  }

  lemma {:induction false} ReadLimbo(s: State, g: Meaning, moving: Option<Id>, id: Id)
    requires LimboOk(s.cache, s.rtbf) && id in g.loc && id !in s.cache && id in g.view
    requires NoLeak(s.cache, g.loc, s.free, s.rtbf, moving, g.area)
    ensures var c := s.cache[id := Cached(g.loc[id], 0, false, g.view[id])];
            LimboOk(c, s.rtbf) && NoLeak(c, g.loc, s.free, s.rtbf, moving, g.area)
  {
    var c := s.cache[id := Cached(g.loc[id], 0, false, g.view[id])];
    forall n | n in g.area ensures HasUse(c, g.loc, s.free, s.rtbf, moving, n) {
      assert HasUse(s.cache, g.loc, s.free, s.rtbf, moving, n);
      if x :| x in s.cache && s.cache[x].oldblocknr == n { assert x in c && c[x].oldblocknr == n; }
    }
  }

  // ---------------------------------------------------------------------
  // Evicting a block from the cache; if it is dirty it is written first

  function Evicted(s: State, id: Id): State
    requires id in s.cache
  {
    var c := s.cache[id];
    if c.dirty then
      s.(cache := s.cache - {id}, rtbf := if c.oldblocknr == 0 then s.rtbf else s.rtbf + [c.oldblocknr],
         blocks := s.blocks[c.blocknr := c.content])
    else s.(cache := s.cache - {id})
  }

  lemma {:induction false} EvictStep(s: State, g: Meaning, moving: Option<Id>, id: Id)
    requires Inv(s, g, moving, None) && id in s.cache && moving != Some(id)
    ensures Inv(Evicted(s, id), g, moving, None)
  {
    hide ReadsAs, Consistent, Injective, FreeOk, MovingOk, StoredOk, LimboOk, NoLeak, CacheOk, Protected, Evicted;
    EvictCache(s, g, moving, id);
    EvictLimbo(s, id);
    EvictNoLeak(s, g, moving, id);
    EvictStored(s, g, moving, id);
    EvictFree(s, g, moving, id);
    EvictMoving(s, g, moving, id);
  }

  /** What stays as it is, and what is on disk. */
  lemma {:induction false} EvictCache(s: State, g: Meaning, moving: Option<Id>, id: Id)
    requires CacheOk(s.cache, g.loc, g.view, moving) && Protected(s.cache, g.comloc) && id in s.cache
    requires ReadsAs(s.blocks, s.diskroot, g.comloc, g.committed)
    ensures var s' := Evicted(s, id);
            && s'.root == s.root && s'.free == s.free
            && CacheOk(s'.cache, g.loc, g.view, moving) && Protected(s'.cache, g.comloc)
            && ReadsAs(s'.blocks, s'.diskroot, g.comloc, g.committed)
  {
    hide ReadsAs;
    if s.cache[id].dirty {
      WriteElsewhere(s.blocks, s.diskroot, g.comloc, g.committed, s.cache[id].blocknr, s.cache[id].content);
    }
  }

  lemma {:induction false} EvictStored(s: State, g: Meaning, moving: Option<Id>, id: Id)
    requires CacheOk(s.cache, g.loc, g.view, moving) && StoredOk(s.cache, g.loc, g.view, s.blocks, None) && Injective(g.loc)
    requires id in s.cache && moving != Some(id)
    ensures StoredOk(Evicted(s, id).cache, g.loc, g.view, Evicted(s, id).blocks, None)
  {
    var s' := Evicted(s, id);
    forall x | x in g.loc
      ensures (x in s'.cache && s'.cache[x].dirty) || (x in g.view && g.loc[x] in s'.blocks && s'.blocks[g.loc[x]] == g.view[x])
    {
      if x != id {
        assert g.loc[x] != g.loc[id];
      }
    }
  }

  lemma {:induction false} EvictFree(s: State, g: Meaning, moving: Option<Id>, id: Id)
    requires FreeOk(s.cache, g.loc, s.free, s.rtbf, moving) && id in s.cache && moving != Some(id)
    ensures FreeOk(Evicted(s, id).cache, g.loc, s.free, Evicted(s, id).rtbf, moving)
  {
  }

  lemma {:induction false} EvictLimbo(s: State, id: Id)
    requires LimboOk(s.cache, s.rtbf) && id in s.cache
    ensures LimboOk(Evicted(s, id).cache, Evicted(s, id).rtbf)
  {
  }

  lemma {:induction false} EvictNoLeak(s: State, g: Meaning, moving: Option<Id>, id: Id)
    requires NoLeak(s.cache, g.loc, s.free, s.rtbf, moving, g.area) && id in s.cache && moving != Some(id)
    requires CacheOk(s.cache, g.loc, g.view, moving)
    ensures NoLeak(Evicted(s, id).cache, g.loc, s.free, Evicted(s, id).rtbf, moving, g.area)
  {
    var s' := Evicted(s, id);
    forall n | n in g.area ensures HasUse(s'.cache, g.loc, s.free, s'.rtbf, moving, n) {
      assert HasUse(s.cache, g.loc, s.free, s.rtbf, moving, n);
      if x :| x in s.cache && s.cache[x].oldblocknr == n {
        if x == id { assert n == s'.rtbf[|s'.rtbf| - 1]; } else { assert x in s'.cache; }
      }
    }
  }

  lemma {:induction false} EvictMoving(s: State, g: Meaning, moving: Option<Id>, id: Id)
    requires MovingOk(s.cache, g.loc, s.free, s.rtbf, moving) && id in s.cache && moving != Some(id)
    ensures MovingOk(Evicted(s, id).cache, g.loc, s.free, Evicted(s, id).rtbf, moving)
  {
  }

  // ---------------------------------------------------------------------
  // Giving a clean block a new place: first the block itself ...

  function Moved(s: State, id: Id, n: nat): State
    requires id in s.cache
  {
    s.(free := s.free - {n}, cache := s.cache[id := s.cache[id].(blocknr := n, oldblocknr := s.cache[id].blocknr, dirty := true)])
  }

  lemma {:induction false} MoveStep(s: State, g: Meaning, id: Id, n: nat)
    requires Inv(s, g, None, Some(id)) && id in s.cache && !s.cache[id].dirty && n in s.free
    ensures Inv(Moved(s, id, n), g, Some(id), None)
  {
    hide ReadsAs, Consistent, Injective, FreeOk, MovingOk, LimboOk, NoLeak;
    MoveNoLeak(s, g, id, n);
    MoveLimbo(s, g, id, n);
    MoveFree(s, g, id, n);
    MoveMoving(s, g, id, n);
  }

  lemma {:induction false} MoveFree(s: State, g: Meaning, id: Id, n: nat)
    requires FreeOk(s.cache, g.loc, s.free, s.rtbf, None) && CacheOk(s.cache, g.loc, g.view, None) && Injective(g.loc)
    requires id in s.cache && !s.cache[id].dirty && n in s.free
    ensures FreeOk(Moved(s, id, n).cache, g.loc, s.free - {n}, s.rtbf, Some(id))
  {
  }

  lemma {:induction false} MoveLimbo(s: State, g: Meaning, id: Id, n: nat)
    requires LimboOk(s.cache, s.rtbf) && FreeOk(s.cache, g.loc, s.free, s.rtbf, None)
    requires CacheOk(s.cache, g.loc, g.view, None)
    requires id in s.cache && !s.cache[id].dirty
    ensures LimboOk(Moved(s, id, n).cache, s.rtbf)
  {
  }

  lemma {:induction false} MoveNoLeak(s: State, g: Meaning, id: Id, n: nat)
    requires NoLeak(s.cache, g.loc, s.free, s.rtbf, None, g.area) && CacheOk(s.cache, g.loc, g.view, None)
    requires id in s.cache && !s.cache[id].dirty
    ensures NoLeak(Moved(s, id, n).cache, g.loc, s.free - {n}, s.rtbf, Some(id), g.area)
  {
    var s' := Moved(s, id, n);
    forall m | m in g.area ensures HasUse(s'.cache, g.loc, s'.free, s.rtbf, Some(id), m) {
      assert HasUse(s.cache, g.loc, s.free, s.rtbf, None, m);
      if x :| x in s.cache && s.cache[x].oldblocknr == m { assert x in s'.cache && s'.cache[x].oldblocknr == m; }
    }
  }

  lemma {:induction false} MoveMoving(s: State, g: Meaning, id: Id, n: nat)
    requires FreeOk(s.cache, g.loc, s.free, s.rtbf, None) && CacheOk(s.cache, g.loc, g.view, None)
    requires id in s.cache && !s.cache[id].dirty && n in s.free
    ensures MovingOk(Moved(s, id, n).cache, g.loc, s.free - {n}, s.rtbf, Some(id))
  {
  }

  // ---------------------------------------------------------------------
  // ... then the place where its number is recorded: the root block, or its parent

  function WithPtr(c: Content, id: Id, n: nat): Content {
    c.(ptrs := c.ptrs[id := n])
  }

  function Relinked(s: State, id: Id): State
    requires id in s.cache
    requires Parent(id).Some? ==> Parent(id).value in s.cache
  {
    var n := s.cache[id].blocknr;
    match Parent(id)
    case None => s.(root := s.root[id := n])
    case Some(p) => s.(cache := s.cache[p := s.cache[p].(content := WithPtr(s.cache[p].content, id, n))])
  }

  function RelinkedMeaning(s: State, g: Meaning, id: Id): Meaning
    requires id in s.cache
    requires Parent(id).Some? ==> Parent(id).value in g.view
  {
    var n := s.cache[id].blocknr;
    match Parent(id)
    case None => g.(loc := g.loc[id := n])
    case Some(p) => g.(loc := g.loc[id := n], view := g.view[p := WithPtr(g.view[p], id, n)])
  }

  lemma {:induction false} RelinkStep(s: State, g: Meaning, id: Id)
    requires Inv(s, g, Some(id), None) && id in s.cache
    requires Parent(id).Some? ==> Parent(id).value in s.cache && Parent(id).value in g.view
    ensures Inv(Relinked(s, id), RelinkedMeaning(s, g, id), None, Parent(id))
  {
    hide ReadsAs, Consistent, Injective, FreeOk, MovingOk, StoredOk, Protected, LimboOk, NoLeak, Relinked, RelinkedMeaning;
    if Parent(id).Some? { ParentLevel(id); }
    RelinkConsistent(s, g, id);
    RelinkCache(s, g, id);
    RelinkStored(s, g, id);
    RelinkInjective(s, g, id);
    RelinkFree(s, g, id);
    RelinkNoLeak(s, g, id);
    RelinkRest(s, g, id);
  }

  lemma {:induction false} RelinkConsistent(s: State, g: Meaning, id: Id)
    requires Consistent(s.root, g.loc, g.view) && id in s.cache && id in g.loc
    requires Parent(id).Some? ==> Parent(id).value in s.cache && Parent(id).value in g.view
    ensures var s', g' := Relinked(s, id), RelinkedMeaning(s, g, id); Consistent(s'.root, g'.loc, g'.view)
  {
    if Parent(id) == None {
      RelinkInRoot(s.root, g.loc, g.view, id, s.cache[id].blocknr);
    } else {
      RelinkInParent(s.root, g.loc, g.view, id, s.cache[id].blocknr);
    }
  }

  lemma {:induction false} RelinkInRoot(root: Ptrs, loc: Ptrs, view: Tree, id: Id, n: nat)
    requires Consistent(root, loc, view) && id in loc && Parent(id) == None
    ensures Consistent(root[id := n], loc[id := n], view)
  {
    var r, l := root[id := n], loc[id := n];
    forall x ensures Recorded(r, view, x) == Get(l, x) {
      assert Recorded(root, view, x) == Get(loc, x);
    }
  }

  lemma {:induction false} RelinkInParent(root: Ptrs, loc: Ptrs, view: Tree, id: Id, n: nat)
    requires Consistent(root, loc, view) && id in loc && Parent(id).Some? && Parent(id).value in view
    ensures Consistent(root, loc[id := n], view[Parent(id).value := WithPtr(view[Parent(id).value], id, n)])
  {
    var p := Parent(id).value;
    var l, v := loc[id := n], view[p := WithPtr(view[p], id, n)];
    forall x ensures Recorded(root, v, x) == Get(l, x) {
      assert Recorded(root, view, x) == Get(loc, x);
    }
  }

  /** What recording the new number changes. */
  lemma {:induction false} RelinkShape(s: State, g: Meaning, id: Id)
    requires id in s.cache
    requires Parent(id).Some? ==> Parent(id).value in s.cache && Parent(id).value in g.view && Parent(id).value != id
    ensures var s', g' := Relinked(s, id), RelinkedMeaning(s, g, id);
            && s'.free == s.free && s'.rtbf == s.rtbf && s'.blocks == s.blocks && g'.loc == g.loc[id := s.cache[id].blocknr]
    ensures var c, v := Relinked(s, id).cache, RelinkedMeaning(s, g, id).view;
            && (forall x :: x in c <==> x in s.cache) && (forall x :: x in v <==> x in g.view)
            && (Parent(id).Some? ==> var p := Parent(id).value;
                  s.cache[p].content == g.view[p] ==> c[p].content == v[p])
    ensures var c := Relinked(s, id).cache;
            forall x :: x in s.cache ==>
              && c[x].blocknr == s.cache[x].blocknr && c[x].oldblocknr == s.cache[x].oldblocknr && c[x].dirty == s.cache[x].dirty
              && (Some(x) != Parent(id) ==> c[x] == s.cache[x])
    ensures var v := RelinkedMeaning(s, g, id).view; forall x :: x in g.view && Some(x) != Parent(id) ==> v[x] == g.view[x]
  {
  }

  lemma {:induction false} RelinkCache(s: State, g: Meaning, id: Id)
    requires CacheOk(s.cache, g.loc, g.view, Some(id)) && id in s.cache
    requires Parent(id).Some? ==> Parent(id).value in s.cache && Parent(id).value in g.view && Parent(id).value != id
    ensures var s', g' := Relinked(s, id), RelinkedMeaning(s, g, id); CacheOk(s'.cache, g'.loc, g'.view, None)
  {
    hide Relinked, RelinkedMeaning;
    RelinkShape(s, g, id);
  }

  lemma {:induction false} RelinkStored(s: State, g: Meaning, id: Id)
    requires StoredOk(s.cache, g.loc, g.view, s.blocks, None) && MovingOk(s.cache, g.loc, s.free, s.rtbf, Some(id))
    requires id in s.cache
    requires Parent(id).Some? ==> Parent(id).value in s.cache && Parent(id).value in g.view && Parent(id).value != id
    ensures var s', g' := Relinked(s, id), RelinkedMeaning(s, g, id);
            StoredOk(s'.cache, g'.loc, g'.view, s'.blocks, Parent(id))
  {
    hide Relinked, RelinkedMeaning;
    RelinkShape(s, g, id);
  }

  lemma {:induction false} RelinkInjective(s: State, g: Meaning, id: Id)
    requires Injective(g.loc) && MovingOk(s.cache, g.loc, s.free, s.rtbf, Some(id)) && id in s.cache
    requires Parent(id).Some? ==> Parent(id).value in s.cache && Parent(id).value in g.view
    ensures Injective(RelinkedMeaning(s, g, id).loc)
  {
  }

  lemma {:induction false} RelinkFree(s: State, g: Meaning, id: Id)
    requires FreeOk(s.cache, g.loc, s.free, s.rtbf, Some(id)) && MovingOk(s.cache, g.loc, s.free, s.rtbf, Some(id))
    requires id in s.cache
    requires Parent(id).Some? ==> Parent(id).value in s.cache && Parent(id).value in g.view
    ensures var s', g' := Relinked(s, id), RelinkedMeaning(s, g, id); FreeOk(s'.cache, g'.loc, s'.free, s'.rtbf, None)
  {
    hide Relinked, RelinkedMeaning;
    if Parent(id).Some? { ParentLevel(id); }
    RelinkShape(s, g, id);
  }

  lemma {:induction false} RelinkNoLeak(s: State, g: Meaning, id: Id)
    requires NoLeak(s.cache, g.loc, s.free, s.rtbf, Some(id), g.area)
    requires MovingOk(s.cache, g.loc, s.free, s.rtbf, Some(id)) && id in s.cache
    requires Parent(id).Some? ==> Parent(id).value in s.cache && Parent(id).value in g.view
    ensures var s', g' := Relinked(s, id), RelinkedMeaning(s, g, id);
            g'.area == g.area && NoLeak(s'.cache, g'.loc, s'.free, s'.rtbf, None, g.area)
  {
    var s', g' := Relinked(s, id), RelinkedMeaning(s, g, id);
    assert id in g'.loc && g'.loc[id] == s.cache[id].blocknr;
    forall n | n in g.area ensures HasUse(s'.cache, g'.loc, s'.free, s'.rtbf, None, n) {
      assert HasUse(s.cache, g.loc, s.free, s.rtbf, Some(id), n);
      if x :| x in s.cache && s.cache[x].oldblocknr == n { assert x in s'.cache && s'.cache[x].oldblocknr == n; }
      if x :| x in g.loc && g.loc[x] == n {
        if x == id { assert s'.cache[id].oldblocknr == n; } else { assert x in g'.loc && g'.loc[x] == n; }
      }
    }
  }

  lemma {:induction false} RelinkRest(s: State, g: Meaning, id: Id)
    requires Protected(s.cache, g.comloc) && ReadsAs(s.blocks, s.diskroot, g.comloc, g.committed) && id in s.cache
    requires LimboOk(s.cache, s.rtbf)
    requires Parent(id).Some? ==> Parent(id).value in s.cache && Parent(id).value in g.view
    ensures var s', g' := Relinked(s, id), RelinkedMeaning(s, g, id);
            && LimboOk(s'.cache, s'.rtbf) && Protected(s'.cache, g'.comloc) && ReadsAs(s'.blocks, s'.diskroot, g'.comloc, g'.committed)
            && g'.comloc == g.comloc && s'.free == s.free && g'.committed == g.committed && MovingOk(s'.cache, g'.loc, s'.free, s'.rtbf, None)
  {
  }

  // ---------------------------------------------------------------------
  // A new block: it gets a number and an entry in its parent, which is in the cache

  function Created(s: State, id: Id, data: int, n: nat): State
    requires Parent(id).Some? ==> Parent(id).value in s.cache
  {
    var s1 := s.(free := s.free - {n}, cache := s.cache[id := Cached(n, 0, true, Content(map[], data))]);
    match Parent(id)
    case None => s1.(root := s.root[id := n])
    case Some(p) => s1.(cache := s1.cache[p := s.cache[p].(content := WithPtr(s.cache[p].content, id, n))])
  }

  function CreatedMeaning(g: Meaning, id: Id, data: int, n: nat): Meaning
    requires Parent(id).Some? ==> Parent(id).value in g.view
  {
    var g1 := g.(loc := g.loc[id := n], view := g.view[id := Content(map[], data)]);
    match Parent(id)
    case None => g1
    case Some(p) => g1.(view := g1.view[p := WithPtr(g.view[p], id, n)])
  }

  lemma {:induction false} CreateStep(s: State, g: Meaning, id: Id, data: int, n: nat)
    requires Inv(s, g, None, None) && id !in g.loc && n in s.free
    requires Parent(id).Some? ==> Parent(id).value in s.cache && Parent(id).value in g.view
    ensures Inv(Created(s, id, data, n), CreatedMeaning(g, id, data, n), None, Parent(id))
  {
    hide ReadsAs, Consistent, Injective, FreeOk, StoredOk, Protected, LimboOk, NoLeak, Created, CreatedMeaning;
    if Parent(id).Some? { ParentLevel(id); }
    CreateConsistent(s, g, id, data, n);
    CreateCache(s, g, id, data, n);
    CreateStored(s, g, id, data, n);
    CreateFree(s, g, id, data, n);
    CreateNoLeak(s, g, id, data, n);
    CreateRest(s, g, id, data, n);
  }

  lemma {:induction false} CreateConsistent(s: State, g: Meaning, id: Id, data: int, n: nat)
    requires Consistent(s.root, g.loc, g.view) && id !in g.loc
    requires Parent(id).Some? ==> Parent(id).value in s.cache && Parent(id).value in g.view && Parent(id).value != id
    ensures var s', g' := Created(s, id, data, n), CreatedMeaning(g, id, data, n); Consistent(s'.root, g'.loc, g'.view)
  {
    var s', g' := Created(s, id, data, n), CreatedMeaning(g, id, data, n);
    forall x ensures Recorded(s'.root, g'.view, x) == Get(g'.loc, x) {
      assert Recorded(s.root, g.view, x) == Get(g.loc, x);
      CreateRecorded(s, g, id, data, n, x);
    }
  }

  lemma {:induction false} CreateRecorded(s: State, g: Meaning, id: Id, data: int, n: nat, x: Id)
    requires g.loc.Keys == g.view.Keys && Recorded(s.root, g.view, x) == Get(g.loc, x) && id !in g.loc
    requires Parent(id).Some? ==> Parent(id).value in s.cache && Parent(id).value in g.view && Parent(id).value != id
    ensures var s', g' := Created(s, id, data, n), CreatedMeaning(g, id, data, n); Recorded(s'.root, g'.view, x) == Get(g'.loc, x)
  {
  }

  lemma {:induction false} CreateCache(s: State, g: Meaning, id: Id, data: int, n: nat)
    requires CacheOk(s.cache, g.loc, g.view, None) && id !in g.loc
    requires Parent(id).Some? ==> Parent(id).value in s.cache && Parent(id).value in g.view && Parent(id).value != id
    ensures var s', g' := Created(s, id, data, n), CreatedMeaning(g, id, data, n); CacheOk(s'.cache, g'.loc, g'.view, None)
  {
    hide Created, CreatedMeaning;
    CreatedShape(s, g, id, data, n);
  }

  /** What creating a block changes. */
  lemma {:induction false} CreatedShape(s: State, g: Meaning, id: Id, data: int, n: nat)
    requires Parent(id).Some? ==> Parent(id).value in s.cache && Parent(id).value in g.view && Parent(id).value != id
    ensures var s', g' := Created(s, id, data, n), CreatedMeaning(g, id, data, n);
            && s'.free == s.free - {n} && s'.rtbf == s.rtbf && s'.blocks == s.blocks && s'.diskroot == s.diskroot
            && g'.loc == g.loc[id := n] && g'.comloc == g.comloc && g'.committed == g.committed && g'.area == g.area
    ensures var c, v := Created(s, id, data, n).cache, CreatedMeaning(g, id, data, n).view;
            && (forall x :: x in c <==> x in s.cache || x == id) && (forall x :: x in v <==> x in g.view || x == id)
            && c[id].blocknr == n && c[id].oldblocknr == 0 && c[id].dirty && c[id].content == v[id]
            && (Parent(id).Some? ==> var p := Parent(id).value; s.cache[p].content == g.view[p] ==> c[p].content == v[p])
    ensures var c := Created(s, id, data, n).cache;
            forall x :: x in s.cache && x != id ==>
              && c[x].blocknr == s.cache[x].blocknr && c[x].oldblocknr == s.cache[x].oldblocknr && c[x].dirty == s.cache[x].dirty
              && (Some(x) != Parent(id) ==> c[x] == s.cache[x])
    ensures var v := CreatedMeaning(g, id, data, n).view;
            forall x :: x in g.view && x != id && Some(x) != Parent(id) ==> v[x] == g.view[x]
  {
  }

  lemma {:induction false} CreateStored(s: State, g: Meaning, id: Id, data: int, n: nat)
    requires StoredOk(s.cache, g.loc, g.view, s.blocks, None) && id !in g.loc
    requires Parent(id).Some? ==> Parent(id).value in s.cache && Parent(id).value in g.view && Parent(id).value != id
    ensures var s', g' := Created(s, id, data, n), CreatedMeaning(g, id, data, n);
            StoredOk(s'.cache, g'.loc, g'.view, s'.blocks, Parent(id))
  {
    hide Created, CreatedMeaning;
    CreatedShape(s, g, id, data, n);
  }

  lemma {:induction false} CreateFree(s: State, g: Meaning, id: Id, data: int, n: nat)
    requires FreeOk(s.cache, g.loc, s.free, s.rtbf, None) && Injective(g.loc) && id !in g.loc && n in s.free
    requires Parent(id).Some? ==> Parent(id).value in s.cache && Parent(id).value in g.view && Parent(id).value != id
    ensures var s', g' := Created(s, id, data, n), CreatedMeaning(g, id, data, n);
            FreeOk(s'.cache, g'.loc, s'.free, s'.rtbf, None) && Injective(g'.loc)
  {
    hide Created, CreatedMeaning, FreeOk;
    CreatedShape(s, g, id, data, n);
    CreatedFree(s.cache, g.loc, s.free, s.rtbf, id, n, Created(s, id, data, n).cache);
    FreePlaces(s.cache, g.loc, s.free, s.rtbf);
  }

  lemma {:induction false} FreePlaces(cache: Cache, loc: Ptrs, free: set<nat>, rtbf: seq<nat>)
    requires FreeOk(cache, loc, free, rtbf, None)
    ensures forall x :: x in loc ==> loc[x] !in free
  {
  }

  lemma {:induction false} CreatedFree(cache: Cache, loc: Ptrs, free: set<nat>, rtbf: seq<nat>, id: Id, n: nat, c: Cache)
    requires FreeOk(cache, loc, free, rtbf, None) && id !in loc && n in free
    requires id in c && c[id].oldblocknr == 0 && forall x :: x in c <==> x in cache || x == id
    requires forall x :: x in cache && x != id ==> c[x].oldblocknr == cache[x].oldblocknr
    ensures FreeOk(c, loc[id := n], free - {n}, rtbf, None)
  {
  }

  lemma {:induction false} CreateNoLeak(s: State, g: Meaning, id: Id, data: int, n: nat)
    requires NoLeak(s.cache, g.loc, s.free, s.rtbf, None, g.area) && CacheOk(s.cache, g.loc, g.view, None) && id !in g.loc
    requires Parent(id).Some? ==> Parent(id).value in s.cache && Parent(id).value in g.view
    ensures var s', g' := Created(s, id, data, n), CreatedMeaning(g, id, data, n);
            g'.area == g.area && NoLeak(s'.cache, g'.loc, s'.free, s'.rtbf, None, g.area)
  {
    var s', g' := Created(s, id, data, n), CreatedMeaning(g, id, data, n);
    assert id in g'.loc && g'.loc[id] == n;
    forall m | m in g.area ensures HasUse(s'.cache, g'.loc, s'.free, s'.rtbf, None, m) {
      assert HasUse(s.cache, g.loc, s.free, s.rtbf, None, m);
      if x :| x in s.cache && s.cache[x].oldblocknr == m { assert x in s'.cache && s'.cache[x].oldblocknr == m; }
      if x :| x in g.loc && g.loc[x] == m { assert x in g'.loc && g'.loc[x] == m; }
    }
  }

  lemma {:induction false} CreateRest(s: State, g: Meaning, id: Id, data: int, n: nat)
    requires Protected(s.cache, g.comloc) && ReadsAs(s.blocks, s.diskroot, g.comloc, g.committed)
    requires n !in g.comloc.Values && LimboOk(s.cache, s.rtbf)
    requires Parent(id).Some? ==> Parent(id).value in s.cache && Parent(id).value in g.view && Parent(id).value != id
    ensures var s', g' := Created(s, id, data, n), CreatedMeaning(g, id, data, n);
            && LimboOk(s'.cache, s'.rtbf) && Protected(s'.cache, g'.comloc) && ReadsAs(s'.blocks, s'.diskroot, g'.comloc, g'.committed)
            && g'.comloc == g.comloc && s'.free == s.free - {n} && MovingOk(s'.cache, g'.loc, s'.free, s'.rtbf, None)
  {
    hide Created, CreatedMeaning, ReadsAs;
    CreatedShape(s, g, id, data, n);
  }

  // ---------------------------------------------------------------------
  // Changing the data of a cached block

  lemma {:induction false} ChangeStep(s: State, g: Meaning, id: Id, data: int)
    requires Inv(s, g, None, None) && id in s.cache && id in g.view
    ensures Inv(s.(cache := s.cache[id := s.cache[id].(content := s.cache[id].content.(data := data))]),
                g.(view := g.view[id := g.view[id].(data := data)]), None, Some(id))
  {
    hide ReadsAs, Injective, FreeOk, Consistent, MovingOk, NoLeak, LimboOk;
    ChangeConsistent(s.root, g.loc, g.view, id, data);
    ChangeFree(s, g, id, data);
  }

  lemma {:induction false} ChangeConsistent(root: Ptrs, loc: Ptrs, view: Tree, id: Id, data: int)
    requires Consistent(root, loc, view) && id in view
    ensures Consistent(root, loc, view[id := view[id].(data := data)])
  {
    forall x ensures Recorded(root, view[id := view[id].(data := data)], x) == Get(loc, x) {
      assert Recorded(root, view, x) == Get(loc, x);
    }
  }

  lemma {:induction false} ChangeFree(s: State, g: Meaning, id: Id, data: int)
    requires FreeOk(s.cache, g.loc, s.free, s.rtbf, None) && LimboOk(s.cache, s.rtbf) && id in s.cache
    requires NoLeak(s.cache, g.loc, s.free, s.rtbf, None, g.area)
    ensures var c := s.cache[id := s.cache[id].(content := s.cache[id].content.(data := data))];
            && FreeOk(c, g.loc, s.free, s.rtbf, None) && LimboOk(c, s.rtbf)
            && NoLeak(c, g.loc, s.free, s.rtbf, None, g.area) && MovingOk(c, g.loc, s.free, s.rtbf, None)
  {
    var c := s.cache[id := s.cache[id].(content := s.cache[id].content.(data := data))];
    forall n | n in g.area ensures HasUse(c, g.loc, s.free, s.rtbf, None, n) {
      assert HasUse(s.cache, g.loc, s.free, s.rtbf, None, n);
      if x :| x in s.cache && s.cache[x].oldblocknr == n { assert x in c && c[x].oldblocknr == n; }
    }
  }

  // ---------------------------------------------------------------------
  // No reserved block is free: the block is marked dirty where it is

  function InPlace(s: State, id: Id): State
    requires id in s.cache
  {
    s.(cache := s.cache[id := s.cache[id].(dirty := true)])
  }

  /** This is as good as a move exactly if the committed tree has no block there. */
  lemma {:induction false} InPlaceStep(s: State, g: Meaning, id: Id, changed: Option<Id>)
    requires Inv(s, g, None, changed) && (changed == None || changed == Some(id))
    requires id in s.cache && !s.cache[id].dirty
    ensures Inv(InPlace(s, id), g, None, None) <==> s.cache[id].blocknr !in g.comloc.Values
  {
    hide ReadsAs, Injective, FreeOk, Consistent, MovingOk, NoLeak, LimboOk;
    InPlaceFree(s, g, id);
  }

  lemma {:induction false} InPlaceFree(s: State, g: Meaning, id: Id)
    requires FreeOk(s.cache, g.loc, s.free, s.rtbf, None) && LimboOk(s.cache, s.rtbf) && id in s.cache
    requires NoLeak(s.cache, g.loc, s.free, s.rtbf, None, g.area)
    ensures var c := InPlace(s, id).cache;
            && FreeOk(c, g.loc, s.free, s.rtbf, None) && LimboOk(c, s.rtbf)
            && NoLeak(c, g.loc, s.free, s.rtbf, None, g.area) && MovingOk(c, g.loc, s.free, s.rtbf, None)
  {
    var c := InPlace(s, id).cache;
    forall n | n in g.area ensures HasUse(c, g.loc, s.free, s.rtbf, None, n) {
      assert HasUse(s.cache, g.loc, s.free, s.rtbf, None, n);
      if x :| x in s.cache && s.cache[x].oldblocknr == n { assert x in c && c[x].oldblocknr == n; }
    }
  }

  /** Writing such a block out, before the root is written, leaves the committed tree readable exactly
      if that tree has no block there, or the one that was there with the same contents. */
  lemma {:induction false} InPlaceWritten(s: State, g: Meaning, id: Id, changed: Option<Id>)
    requires Inv(s, g, None, changed) && id in s.cache && !s.cache[id].dirty
    ensures var n, c := s.cache[id].blocknr, s.cache[id].content;
            ReadsAs(s.blocks[n := c], s.diskroot, g.comloc, g.committed) <==>
              n !in g.comloc.Values || (n in s.blocks && s.blocks[n] == c)
  {
    hide Consistent, StoredOk, FreeOk, LimboOk, MovingOk, Protected, Injective, NoLeak, CacheOk, ReadsAs;
    WriteSeen(s.blocks, s.diskroot, g.comloc, g.committed, s.cache[id].blocknr, s.cache[id].content);
  }

  /** A volume with one index block, stored in block 1, whose data has just changed from 0 to 1 while no
      reserved block is free. Marked dirty where it is, and written before the root is, it shows in the
      committed tree. */
  lemma {:induction false} InPlaceSeen()
    ensures var id, was, now := IndexBlock(0), Content(map[], 0), Content(map[], 1);
            var root := map[id := 1];
            var s := State(map[id := Cached(1, 0, false, now)], root, {}, [], map[1 := was], root);
            var g := Meaning({1}, root, map[id := now], root, map[id := was]);
            && Inv(s, g, None, Some(id)) && !Inv(InPlace(s, id), g, None, None)
            && !ReadsAs(s.blocks[1 := now], s.diskroot, g.comloc, g.committed)
  {
    var id, was, now := IndexBlock(0), Content(map[], 0), Content(map[], 1);
    var root := map[id := 1];
    var s := State(map[id := Cached(1, 0, false, now)], root, {}, [], map[1 := was], root);
    var g := Meaning({1}, root, map[id := now], root, map[id := was]);
    OneBlock(id, was, 1);
    OneBlock(id, now, 1);
    assert root[id] == 1 && 1 in root.Values;
    assert HasUse(s.cache, g.loc, s.free, s.rtbf, None, 1);
    InPlaceStep(s, g, id, Some(id));
    InPlaceWritten(s, g, id, Some(id));
  }

  lemma {:induction false} OneBlock(id: Id, c: Content, n: nat)
    requires Parent(id) == None && c.ptrs == map[]
    ensures ReadsAs(map[n := c], map[id := n], map[id := n], map[id := c])
    ensures Consistent(map[id := n], map[id := n], map[id := c])
  {
    forall x ensures Recorded(map[id := n], map[id := c], x) == Get(map[id := n], x) {}
    StoredReads(map[n := c], map[id := n], map[id := n], map[id := c]);
  }

  // ---------------------------------------------------------------------
  // UpdateDisk: writing the dirty blocks and freeing what they replace

  function Flushed(s: State, id: Id): State
    requires id in s.cache
  {
    var c := s.cache[id];
    s.(free := if c.oldblocknr == 0 then s.free else s.free + {c.oldblocknr},
       cache := s.cache[id := c.(oldblocknr := 0, dirty := false)],
       blocks := s.blocks[c.blocknr := c.content])
  }

  lemma {:induction false} FlushStep(s: State, g: Meaning, id: Id)
    requires InvFlush(s, g, None, None) && id in s.cache && s.cache[id].dirty
    ensures InvFlush(Flushed(s, id), g, None, None)
  {
    hide ReadsAs, Consistent, Injective, FreeOk, StoredOk, LimboOk, NoLeak;
    FlushNoLeak(s, g, id);
    FlushStored(s, g, id);
    FlushFree(s, g, id);
    WriteElsewhere(s.blocks, s.diskroot, g.comloc, g.committed, s.cache[id].blocknr, s.cache[id].content);
  }

  lemma {:induction false} FlushStored(s: State, g: Meaning, id: Id)
    requires CacheOk(s.cache, g.loc, g.view, None) && StoredOk(s.cache, g.loc, g.view, s.blocks, None) && Injective(g.loc)
    requires id in s.cache
    ensures StoredOk(Flushed(s, id).cache, g.loc, g.view, Flushed(s, id).blocks, None)
  {
  }

  lemma {:induction false} FlushNoLeak(s: State, g: Meaning, id: Id)
    requires NoLeak(s.cache, g.loc, s.free, s.rtbf, None, g.area) && id in s.cache
    ensures NoLeak(Flushed(s, id).cache, g.loc, Flushed(s, id).free, s.rtbf, None, g.area)
  {
    var s' := Flushed(s, id);
    forall n | n in g.area ensures HasUse(s'.cache, g.loc, s'.free, s.rtbf, None, n) {
      assert HasUse(s.cache, g.loc, s.free, s.rtbf, None, n);
      if x :| x in s.cache && s.cache[x].oldblocknr == n {
        if x != id { assert x in s'.cache && s'.cache[x].oldblocknr == n; }
      }
    }
  }

  lemma {:induction false} FlushFree(s: State, g: Meaning, id: Id)
    requires FreeOk(s.cache, g.loc, s.free, s.rtbf, None) && LimboOk(s.cache, s.rtbf) && id in s.cache
    ensures LimboOk(Flushed(s, id).cache, s.rtbf)
    ensures FreeOk(Flushed(s, id).cache, g.loc, Flushed(s, id).free, s.rtbf, None)
  {
  }

  /** The numbers of evicted blocks are freed too. */
  lemma {:induction false} FreeStep(s: State, g: Meaning)
    requires InvFlush(s, g, None, None) && s.rtbf != []
    ensures s.rtbf[0] !in s.free && s.rtbf[0] != 0
    ensures InvFlush(s.(free := s.free + {s.rtbf[0]}, rtbf := s.rtbf[1..]), g, None, None)
  {
    hide ReadsAs, Consistent, Injective, StoredOk, CacheOk;
    var n, r := s.rtbf[0], s.rtbf[1..];
    assert forall x :: x in r ==> x in s.rtbf;
    assert n !in r;
    forall m | m in g.area ensures HasUse(s.cache, g.loc, s.free + {n}, r, None, m) {
      assert HasUse(s.cache, g.loc, s.free, s.rtbf, None, m);
    }
  }

  /** With nothing left to free, every reserved block is free or part of the tree. */
  lemma {:induction false} NothingWaits(s: State, g: Meaning)
    requires InvFlush(s, g, None, None) && s.rtbf == []
    requires forall id :: id in s.cache ==> !s.cache[id].dirty
    ensures g.area <= s.free + g.loc.Values
    ensures s.free !! g.loc.Values
  {
    hide ReadsAs, Consistent, Injective, StoredOk;
    forall n | n in g.area ensures n in s.free + g.loc.Values {
      assert HasUse(s.cache, g.loc, s.free, s.rtbf, None, n);
    }
    forall n | n in g.loc.Values ensures n !in s.free {
      var id :| id in g.loc && g.loc[id] == n;
    }
  }

  /** The root block is written last; from then on a reader sees the tree that is in memory. */
  lemma {:induction false} RootStep(s: State, g: Meaning)
    requires InvFlush(s, g, None, None) && forall id :: id in s.cache ==> !s.cache[id].dirty
    ensures Inv(s.(diskroot := s.root), g.(comloc := g.loc, committed := g.view), None, None)
  {
    hide ReadsAs;
    StoredReads(s.blocks, s.root, g.loc, g.view);
    forall n | n in g.loc.Values ensures n !in s.free {
      var id :| id in g.loc && g.loc[id] == n;
    }
  }
}
