/** The metadata of a mounted volume: cached blocks that are given a new place when they change, are
    written early when the cache is full, and become the volume's state when the root is written
    (PFS3lib/update.cpp, PFS3lib/lru.cpp). */
module MetadataCache {
  import opened ReservedTree
  import opened CommitSteps

  /** A state the disk has been in, and the tree that was committed then. */
  datatype Reached = Reached(blocks: Blocks, diskroot: Ptrs, comloc: Ptrs, committed: Tree)

  /** A mount after a crash in this state finds the committed tree. */
  ghost predicate Atomic(r: Reached) {
    ReadsAs(r.blocks, r.diskroot, r.comloc, r.committed)
  }

  /** The states between two commits: all of them read as the tree of the first commit. */
  ghost predicate OnlyAppends(before: seq<Reached>, after: seq<Reached>, committed: Tree) {
    && before <= after
    && forall k :: |before| <= k < |after| ==> Atomic(after[k]) && after[k].committed == committed
  }

  /** The same blocks with the same data; only block numbers may differ. */
  ghost predicate SameData(v: Tree, w: Tree) {
    v.Keys == w.Keys && forall id :: id in v ==> v[id].data == w[id].data
  }

  /** The data of the blocks, without the numbers of the blocks below them. */
  ghost function DataOf(t: Tree): (d: map<Id, int>)
    ensures d.Keys == t.Keys && forall id :: id in t ==> d[id] == t[id].data
  {
    map id | id in t :: t[id].data
  }

  ghost predicate LastFor(changes: seq<(nat, int)>, k: nat)
    requires k < |changes|
  {
    forall j :: k < j < |changes| ==> changes[j].0 != changes[k].0
  }

  ghost predicate Named(changes: seq<(nat, int)>, id: Id) {
    exists k :: 0 <= k < |changes| && id == BitmapBlock(changes[k].0)
  }

  /** Each bitmap block named has the contents given last for it; all other data is as before. */
  ghost predicate Entered(d: map<Id, int>, d': map<Id, int>, changes: seq<(nat, int)>) {
    && d'.Keys == d.Keys
    && (forall k :: 0 <= k < |changes| && LastFor(changes, k) ==>
          BitmapBlock(changes[k].0) in d' && d'[BitmapBlock(changes[k].0)] == changes[k].1)
    && (forall id :: id in d && !Named(changes, id) ==> d'[id] == d[id])
  }

  lemma {:induction false} NothingEntered(d: map<Id, int>, changes: seq<(nat, int)>)
    requires changes == []
    ensures Entered(d, d, changes)
  {
  }

  lemma {:induction false} EnteredMore(d: map<Id, int>, d': map<Id, int>, changes: seq<(nat, int)>, c: (nat, int))
    requires Entered(d, d', changes) && BitmapBlock(c.0) in d'
    ensures Entered(d, d'[BitmapBlock(c.0) := c.1], changes + [c])
  {
    var all, e := changes + [c], d'[BitmapBlock(c.0) := c.1];
    forall k | 0 <= k < |all| && LastFor(all, k)
      ensures BitmapBlock(all[k].0) in e && e[BitmapBlock(all[k].0)] == all[k].1
    {
      if k < |changes| {
        assert all[|changes|].0 != all[k].0;
        LastBefore(changes, c, k);
      }
    }
    forall id | id in d && !Named(all, id)
      ensures e[id] == d[id]
    {
      NotNamed(changes, c, id);
    }
  }

  lemma {:induction false} LastBefore(changes: seq<(nat, int)>, c: (nat, int), k: nat)
    requires k < |changes| && LastFor(changes + [c], k)
    ensures LastFor(changes, k)
  {
    forall j | k < j < |changes| ensures changes[j].0 != changes[k].0 { assert (changes + [c])[j] == changes[j]; }
  }

  lemma {:induction false} NotNamed(changes: seq<(nat, int)>, c: (nat, int), id: Id)
    requires !Named(changes + [c], id)
    ensures !Named(changes, id) && id != BitmapBlock(c.0)
  {
    assert (changes + [c])[|changes|] == c;
    forall k | 0 <= k < |changes| ensures id != BitmapBlock(changes[k].0) { assert (changes + [c])[k] == changes[k]; }
  }

  /** How many cached blocks are in the pool of buffers; the root extension has one of its own. */
  function Buffered(cache: Cache): nat {
    |cache.Keys - {RootExtension}|
  }

  lemma {:induction false} BufferedLess(c: Cache, id: Id)
    requires id in c
    ensures Buffered(c - {id}) == if id == RootExtension then Buffered(c) else Buffered(c) - 1
  {
    if id == RootExtension {
      assert (c - {id}).Keys - {RootExtension} == c.Keys - {RootExtension};
    } else {
      assert c.Keys - {RootExtension} == ((c - {id}).Keys - {RootExtension}) + {id};
    }
  }

  lemma {:induction false} BufferedMore(c: Cache, id: Id, x: Cached)
    ensures Buffered(c[id := x]) <= Buffered(c) + if id == RootExtension || id in c then 0 else 1
  {
    var k, k' := c.Keys - {RootExtension}, c[id := x].Keys - {RootExtension};
    if id == RootExtension || id in c {
      assert k' == k;
    } else {
      assert id !in k && k' == k + {id};
      assert |k + {id}| == |k| + 1;
    }
  }

  lemma {:induction false} BufferedSame(c: Cache, d: Cache)
    requires c.Keys == d.Keys
    ensures Buffered(c) == Buffered(d)
  {
  }

  /** How many buffers are added at a time. */
  const NEW_LRU_ENTRIES: Positive

  class Metadata {
    var cache: Cache
    var root: Ptrs
    var free: set<nat>
    var reservedFree: nat
    var rtbf: seq<nat>
    var locked: set<Id>
    var buffers: nat
    var blocks: Blocks
    var diskroot: Ptrs
    var diskfree: set<nat>
    ghost var g: Meaning
    ghost var history: seq<Reached>

    ghost function S(): State
      reads this`cache, this`root, this`free, this`rtbf, this`blocks, this`diskroot
    {
      State(cache, root, free, rtbf, blocks, diskroot)
    }

    ghost predicate Holds(moving: Option<Id>, changed: Option<Id>)
      reads this`cache, this`root, this`free, this`rtbf, this`blocks, this`diskroot, this`g, this`reservedFree, this`buffers
    {
      && Inv(S(), g, moving, changed)
      && reservedFree == |free| && Buffered(cache) <= buffers
    }

    ghost predicate Valid()
      reads this`cache, this`root, this`free, this`rtbf, this`blocks, this`diskroot, this`g, this`reservedFree, this`buffers
    {
      Holds(None, None) && (RootExtension in g.loc ==> RootExtension in cache)
    }

    /** Takes a free reserved block; 0 if there is none. */
    method AllocReservedBlock() returns (blocknr: nat)
      requires 0 !in free && reservedFree == |free|
      modifies this`free, this`reservedFree
      ensures if old(free) == {} then blocknr == 0 && free == {} else blocknr in old(free) && free == old(free) - {blocknr}
      ensures reservedFree == |free|
    {
      if reservedFree == 0 {
        return 0;
      }
      blocknr :| blocknr in free;
      free := free - {blocknr};
      reservedFree := reservedFree - 1;
    }

    /** Frees a reserved block, or does nothing for 0. */
    method FreeReservedBlock(blocknr: nat)
      requires reservedFree == |free| && blocknr !in free
      modifies this`free, this`reservedFree
      ensures free == if blocknr == 0 then old(free) else old(free) + {blocknr}
      ensures reservedFree == |free|
    {
      if blocknr != 0 {
        free := free + {blocknr};
        reservedFree := reservedFree + 1;
      }
    }

    /** Writes one block to disk. */
    method RawWrite(blocknr: nat, content: Content)
      modifies this`blocks, this`history
      ensures blocks == old(blocks)[blocknr := content]
      ensures history == old(history) + [Reached(blocks, diskroot, g.comloc, g.committed)]
    {
      blocks := blocks[blocknr := content];
      history := history + [Reached(blocks, diskroot, g.comloc, g.committed)];
    }

    /** Takes a block out of the cache, writing it first if it is dirty. */
    method Evict(id: Id, ghost moving: Option<Id>)
      requires Holds(moving, None) && id in cache && moving != Some(id)
      modifies this`cache, this`rtbf, this`blocks, this`history
      ensures Holds(moving, None) && cache == old(cache) - {id}
      ensures OnlyAppends(old(history), history, g.committed)
    {
      hide ReadsAs, Consistent, CacheOk, StoredOk, FreeOk, LimboOk, MovingOk, Protected, Injective, NoLeak, Buffered;
      EvictStep(S(), g, moving, id);
      var c := cache[id];
      if c.dirty {
        if c.oldblocknr != 0 {
          rtbf := rtbf + [c.oldblocknr];
        }
        RawWrite(c.blocknr, c.content);
      }
      BufferedLess(cache, id);
      cache := cache - {id};
    }

    /** Makes room for a block: if no buffer is free, some block that is not locked is evicted, and if
        there is none, there will be more buffers. */
    method AllocLRU(ghost moving: Option<Id>)
      requires Holds(moving, None) && (moving.Some? ==> moving.value in locked)
      modifies this`cache, this`rtbf, this`blocks, this`history, this`buffers
      ensures Holds(moving, None) && Buffered(cache) < buffers
      ensures cache.Keys <= old(cache.Keys) && Buffered(cache) >= old(Buffered(cache)) - 1
      ensures cache != old(cache) || buffers != old(buffers) ==> old(Buffered(cache) == buffers)
      ensures forall id :: id in locked + {RootExtension} && id in old(cache) ==> id in cache
      ensures forall id :: id in cache ==> cache[id] == old(cache)[id]
      ensures OnlyAppends(old(history), history, g.committed)
    {
      hide Inv, OnlyAppends, Buffered;
      NoAppend(history, g.committed);
      if Buffered(cache) == buffers {
        var victims := set id | id in cache && id !in locked && id != RootExtension;
        if victims != {} {
          var victim :| victim in victims;
          BufferedLess(cache, victim);
          Evict(victim, moving);
        } else {
          buffers := buffers + NEW_LRU_ENTRIES;
        }
      }
    }

    /** Gets a block into the cache, and with it the blocks above it. */
    method Fetch(id: Id, ghost moving: Option<Id>)
      requires Holds(moving, None) && id in g.loc && (moving.Some? ==> moving.value in locked)
      modifies this`cache, this`rtbf, this`blocks, this`history, this`buffers
      ensures Holds(moving, None) && id in cache
      ensures forall x :: x in locked + {RootExtension} && x in old(cache) ==> x in cache && cache[x] == old(cache)[x]
      ensures forall x :: x in cache ==> x in old(cache) || Level(x) <= Level(id)
      ensures OnlyAppends(old(history), history, g.committed)
      decreases Level(id)
    {
      hide Inv, Buffered, OnlyAppends, Metadata.Holds;
      NoAppend(history, g.committed);
      if id in cache {
        return;
      }
      var blocknr;
      FoundBy(moving, id);
      match Parent(id) {
        case None =>
          blocknr := root[id];
        case Some(p) =>
          ParentLevel(id);
          Fetch(p, moving);
          FoundBy(moving, id);
          blocknr := cache[p].content.ptrs[id];
      }
      ghost var h1 := history;
      AllocLRU(moving);
      Chain(old(history), h1, history, g.committed);
      ReadBlock(id, blocknr, moving);
    }

    /** Where the number of a block is found. */
    lemma {:induction false} FoundBy(moving: Option<Id>, id: Id)
      requires Holds(moving, None) && id in g.loc
      ensures match Parent(id)
              case None => id in root && root[id] == g.loc[id]
              case Some(p) =>
                && p in g.loc && p in g.view
                && (p in cache ==> id in cache[p].content.ptrs && cache[p].content.ptrs[id] == g.loc[id])
    {
      hide Inv;
      InMemory(S(), g, moving, id);
    }

    method ReadBlock(id: Id, blocknr: nat, ghost moving: Option<Id>)
      requires Holds(moving, None) && id in g.loc && blocknr == g.loc[id] && id !in cache && Buffered(cache) < buffers
      modifies this`cache
      ensures Holds(moving, None) && cache.Keys == old(cache.Keys) + {id}
      ensures forall x :: x in old(cache) ==> cache[x] == old(cache)[x]
    {
      hide Inv, Buffered;
      ReadStep(S(), g, moving, id);
      BufferedMore(cache, id, Cached(blocknr, 0, false, blocks[blocknr]));
      cache := cache[id := Cached(blocknr, 0, false, blocks[blocknr])];
    }

    /** Whether a block is in the tree in memory, found as a reader finds it. */
    method Exists(id: Id) returns (found: bool)
      requires Valid()
      modifies this`cache, this`rtbf, this`blocks, this`history, this`buffers
      ensures Valid() && (found <==> id in g.loc)
      ensures OnlyAppends(old(history), history, g.committed)
      decreases Level(id)
    {
      hide Inv, OnlyAppends, Buffered;
      NoAppend(history, g.committed);
      match Parent(id)
      case None =>
        InTree(S(), g, id);
        found := id in root;
      case Some(p) =>
        ParentLevel(id);
        found := Exists(p);
        InTree(S(), g, id);
        if found {
          ghost var h1 := history;
          Fetch(p, None);
          Chain(old(history), h1, history, g.committed);
          InTree(S(), g, id);
          found := id in cache[p].content.ptrs;
        }
    }

    /** Gives a clean block a new place in the cache; its place in the tree is still the old one. */
    method Move(id: Id)
      requires Holds(None, Some(id)) && id in cache && !cache[id].dirty && free != {}
      modifies this`cache, this`free, this`reservedFree
      ensures Holds(Some(id), None) && |free| == old(|free|) - 1
      ensures cache.Keys == old(cache.Keys) && cache[id].dirty
      ensures forall x :: x in cache && x != id ==> cache[x] == old(cache)[x]
    {
      hide Buffered;
      hide ReadsAs, Consistent, CacheOk, StoredOk, LimboOk, MovingOk, Protected, Injective;
      ghost var s := S();
      var n := AllocReservedBlock();
      MoveStep(s, g, id, n);
      cache := cache[id := cache[id].(blocknr := n, oldblocknr := cache[id].blocknr, dirty := true)];
      BufferedSame(old(cache), cache);
    }

    /** Records the new number of a block where a reader looks for it. */
    method Relink(id: Id)
      requires Holds(Some(id), None) && id in cache && id in g.view
      requires Parent(id).Some? ==> Parent(id).value in cache && Parent(id).value in g.view
      modifies this`cache, this`root, this`g
      ensures Holds(None, Parent(id)) && cache.Keys == old(cache.Keys)
      ensures SameData(old(g).view, g.view) && g.comloc == old(g).comloc && g.committed == old(g).committed && g.area == old(g).area
      ensures g.loc.Keys == old(g).loc.Keys + {id}
      ensures forall x :: x in cache && Some(x) != Parent(id) ==> cache[x] == old(cache)[x]
    {
      hide Inv, Buffered;
      RelinkStep(S(), g, id);
      g := RelinkedMeaning(S(), g, id);
      var n := cache[id].blocknr;
      match Parent(id) {
        case None => root := root[id := n];
        case Some(p) => cache := cache[p := cache[p].(content := WithPtr(cache[p].content, id, n))];
      }
      BufferedSame(old(cache), cache);
    }

    /** The block x was marked dirty where it is, in an otherwise sound state. */
    ghost predicate LeftInPlace(x: Id)
      reads this`cache, this`root, this`free, this`rtbf, this`blocks, this`diskroot, this`g, this`reservedFree, this`buffers
    {
      && x in cache && cache[x].dirty && free == {} && reservedFree == |free|
      && Inv(S().(cache := cache[x := cache[x].(dirty := false)]), g, None, Some(x))
    }

    /** The state is sound, or would be but for the block marked dirty where it is; and that does no
        harm exactly if the committed tree has no block there. */
    ghost predicate Settled(inPlace: Option<Id>)
      reads this`cache, this`root, this`free, this`rtbf, this`blocks, this`diskroot, this`g, this`reservedFree, this`buffers
    {
      && (RootExtension in g.loc ==> RootExtension in cache)
      && match inPlace
         case None => Valid()
         case Some(x) => LeftInPlace(x) && (Valid() <==> cache[x].blocknr !in g.comloc.Values)
    }

    /** Marks a block dirty. A clean block gets a new place first, and so do the blocks above it; the
        first for which no reserved block is free is marked dirty where it is. */
    method MakeBlockDirty(id: Id, ghost changed: Option<Id>) returns (inPlace: Option<Id>)
      requires Holds(None, changed) && id in cache && (changed.Some? ==> changed.value == id)
      requires RootExtension in g.loc ==> RootExtension in cache
      modifies this`cache, this`root, this`free, this`reservedFree, this`rtbf, this`blocks, this`locked, this`g, this`history, this`buffers
      ensures Settled(inPlace) && locked == old(locked)
      ensures old(|free|) >= Level(id) ==> inPlace == None
      ensures |free| >= old(|free|) - Level(id)
      ensures SameData(old(g).view, g.view) && g.comloc == old(g).comloc && g.committed == old(g).committed && g.area == old(g).area
      ensures g.loc.Keys == old(g).loc.Keys
      ensures OnlyAppends(old(history), history, g.committed)
      decreases Level(id), 1
    {
      hide Inv, SameData, OnlyAppends, Metadata.Settled, Buffered;
      SameDataRefl(g.view);
      NoAppend(history, g.committed);
      inPlace := None;
      if cache[id].dirty {
        DirtyAlready(S(), g, id);
        NoneInPlace();
        return;
      }
      if free == {} {
        inPlace := Some(id);
        MarkInPlace(id, changed);
        return;
      }
      var wasLocked := id in locked;
      locked := locked + {id};
      inPlace := MoveUp(id, changed);
      if !wasLocked {
        locked := locked - {id};
      }
    }

    /** Moves a clean, locked block, and marks the one above it dirty. */
    method MoveUp(id: Id, ghost changed: Option<Id>) returns (inPlace: Option<Id>)
      requires Holds(None, changed) && id in cache && (changed.Some? ==> changed.value == id)
      requires id in locked && !cache[id].dirty && free != {} && (RootExtension in g.loc ==> RootExtension in cache)
      modifies this`cache, this`root, this`free, this`reservedFree, this`rtbf, this`blocks, this`locked, this`g, this`history, this`buffers
      ensures Settled(inPlace) && locked == old(locked)
      ensures old(|free|) >= Level(id) ==> inPlace == None
      ensures |free| >= old(|free|) - Level(id)
      ensures SameData(old(g).view, g.view) && g.comloc == old(g).comloc && g.committed == old(g).committed && g.area == old(g).area
      ensures g.loc.Keys == old(g).loc.Keys
      ensures OnlyAppends(old(history), history, g.committed)
      decreases Level(id), 0
    {
      hide Inv, SameData, OnlyAppends, Metadata.Settled, Buffered;
      ghost var h, v := history, g.view;
      Reallocate(id, changed);
      ghost var h1, v1 := history, g.view;
      NoAppend(h1, g.committed);
      SameDataRefl(v1);
      inPlace := None;
      if Parent(id).Some? {
        ParentLevel(id);
        inPlace := MakeBlockDirty(Parent(id).value, Parent(id));
      } else {
        NoneInPlace();
      }
      Chain(h, h1, history, g.committed);
      SameDataTwice(v, v1, g.view);
    }

    lemma {:induction false} NoneInPlace()
      requires Valid()
      ensures Settled(None)
    {
      hide Inv;
    }

    lemma {:induction false} NothingInPlace()
      requires Settled(None)
      ensures Valid()
    {
      hide Inv;
    }

    method MarkInPlace(id: Id, ghost changed: Option<Id>)
      requires Holds(None, changed) && id in cache && (changed.Some? ==> changed.value == id)
      requires !cache[id].dirty && free == {} && (RootExtension in g.loc ==> RootExtension in cache)
      modifies this`cache
      ensures Settled(Some(id)) && cache.Keys == old(cache.Keys)
    {
      hide Inv, Buffered;
      ghost var s := S();
      if changed == None { NothingChanged(s, g, id); }
      InPlaceStep(s, g, id, changed);
      cache := cache[id := cache[id].(dirty := true)];
      BufferedSame(s.cache, cache);
      assert cache[id := cache[id].(dirty := false)] == s.cache;
    }

    /** Moves a clean, locked block and records its new number. */
    method Reallocate(id: Id, ghost changed: Option<Id>)
      requires Holds(None, changed) && id in cache && id in locked && !cache[id].dirty
      requires changed.Some? ==> changed.value == id
      requires free != {} && (RootExtension in g.loc ==> RootExtension in cache)
      modifies this`cache, this`root, this`free, this`reservedFree, this`rtbf, this`blocks, this`g, this`history, this`buffers
      ensures Holds(None, Parent(id)) && (RootExtension in g.loc ==> RootExtension in cache)
      ensures Parent(id).Some? ==> Parent(id).value in cache
      ensures |free| >= old(|free|) - 1
      ensures SameData(old(g).view, g.view) && g.comloc == old(g).comloc && g.committed == old(g).committed && g.area == old(g).area
      ensures g.loc.Keys == old(g).loc.Keys
      ensures OnlyAppends(old(history), history, g.committed)
    {
      hide Inv, SameData, OnlyAppends, Buffered;
      NoAppend(history, g.committed);
      InView(S(), g, id);
      if changed == None { NothingChanged(S(), g, id); }
      Move(id);
      GetParent(id);
      Relink(id);
    }

    /** Gets the block that records the number of a block being moved. */
    method GetParent(id: Id)
      requires Holds(Some(id), None) && id in g.loc && id in locked && id in cache
      modifies this`cache, this`rtbf, this`blocks, this`history, this`buffers
      ensures Holds(Some(id), None) && id in cache && cache[id] == old(cache)[id]
      ensures Parent(id).Some? ==> Parent(id).value in cache && Parent(id).value in g.view
      ensures RootExtension in old(cache) ==> RootExtension in cache
      ensures OnlyAppends(old(history), history, g.committed)
    {
      hide Inv, OnlyAppends;
      NoAppend(history, g.committed);
      if Parent(id).Some? {
        ParentLevel(id);
        InMemory(S(), g, Some(id), id);
        Fetch(Parent(id).value, Some(id));
      }
    }

    /** Changes the data of an existing block. */
    method Change(id: Id, data: int) returns (inPlace: Option<Id>)
      requires Valid() && id in g.loc
      modifies this
      ensures Settled(inPlace) && (old(|free|) >= Level(id) ==> inPlace == None)
      ensures |free| >= old(|free|) - Level(id) && locked == old(locked)
      ensures id in old(g).view && g.view.Keys == old(g).view.Keys && g.view[id].data == data
      ensures forall x :: x in old(g).view && x != id ==> g.view[x].data == old(g).view[x].data
      ensures g.comloc == old(g).comloc && g.committed == old(g).committed && g.area == old(g).area && diskroot == old(diskroot)
      ensures g.loc.Keys == old(g).loc.Keys
      ensures OnlyAppends(old(history), history, g.committed)
    {
      hide Inv, SameData, OnlyAppends, Buffered, Metadata.Settled;
      ghost var h, v := history, g.view;
      Fetch(id, None);
      ghost var h1, c1 := history, cache;
      InView(S(), g, id);
      ChangeStep(S(), g, id, data);
      g := g.(view := g.view[id := g.view[id].(data := data)]);
      cache := cache[id := cache[id].(content := cache[id].content.(data := data))];
      BufferedSame(c1, cache);
      ghost var v1 := g.view;
      inPlace := MakeBlockDirty(id, Some(id));
      Chain(h, h1, history, g.committed);
      SameDataAt(v1, g.view);
    }

    /** Adds a new block: a new anode, directory, index or bitmap block. Fails if no reserved block
        is free. */
    method Create(id: Id, data: int) returns (ok: bool, inPlace: Option<Id>)
      requires Valid() && id !in g.loc && id != RootExtension
      requires Parent(id).Some? ==> Parent(id).value in g.loc
      modifies this
      ensures Settled(inPlace) && (old(|free|) >= Level(id) || !ok ==> inPlace == None)
      ensures ok <==> old(free) != {}
      ensures |free| >= old(|free|) - Level(id) && locked == old(locked)
      ensures !ok ==> g == old(g)
      ensures ok ==> g.view.Keys == old(g).view.Keys + {id} && g.view[id].data == data
      ensures forall x :: x in old(g).view ==> g.view[x].data == old(g).view[x].data
      ensures g.comloc == old(g).comloc && g.committed == old(g).committed && g.area == old(g).area && diskroot == old(diskroot)
      ensures OnlyAppends(old(history), history, g.committed)
    {
      hide Inv, SameData, OnlyAppends, Metadata.Holds, Metadata.Settled, Buffered;
      ghost var h := history;
      var wasLocked := Parent(id).Some? && Parent(id).value in locked;
      PinParent(id);
      ghost var h2 := history;
      inPlace := None;
      ok := free != {};
      if !ok {
        if Parent(id).Some? && !wasLocked {
          locked := locked - {Parent(id).value};
        }
        NoneInPlace();
        return;
      }
      inPlace := AddToTree(id, data);
      if Parent(id).Some? && !wasLocked {
        locked := locked - {Parent(id).value};
      }
      Chain(h, h2, history, g.committed);
    }

    /** Puts a new block in the tree, and marks the block dirty that records its number. */
    method AddToTree(id: Id, data: int) returns (inPlace: Option<Id>)
      requires Holds(None, None) && id !in g.loc && free != {} && id != RootExtension && Buffered(cache) < buffers
      requires (Parent(id).Some? ==> Parent(id).value in cache) && (RootExtension in g.loc ==> RootExtension in cache)
      modifies this`cache, this`root, this`free, this`reservedFree, this`rtbf, this`blocks, this`locked, this`g, this`history, this`buffers
      ensures Settled(inPlace) && (old(|free|) >= Level(id) ==> inPlace == None)
      ensures |free| >= old(|free|) - Level(id) && locked == old(locked)
      ensures g.view.Keys == old(g).view.Keys + {id} && g.view[id].data == data
      ensures forall x :: x in old(g).view ==> g.view[x].data == old(g).view[x].data
      ensures g.comloc == old(g).comloc && g.committed == old(g).committed && g.area == old(g).area
      ensures OnlyAppends(old(history), history, g.committed)
    {
      hide Inv, SameData, OnlyAppends, Metadata.Holds, Metadata.Settled, Buffered;
      Enter(id, data);
      ghost var v := g.view;
      inPlace := DirtyParent(id);
      SameDataAt(v, g.view);
    }

    /** Marks the block dirty that records the number of a new block. */
    method DirtyParent(id: Id) returns (inPlace: Option<Id>)
      requires Holds(None, Parent(id)) && (Parent(id).Some? ==> Parent(id).value in cache)
      requires RootExtension in g.loc ==> RootExtension in cache
      modifies this`cache, this`root, this`free, this`reservedFree, this`rtbf, this`blocks, this`locked, this`g, this`history, this`buffers
      ensures Settled(inPlace) && locked == old(locked)
      ensures old(|free|) >= Level(id) - 1 ==> inPlace == None
      ensures |free| >= old(|free|) - (Level(id) - 1)
      ensures SameData(old(g).view, g.view) && g.comloc == old(g).comloc && g.committed == old(g).committed && g.area == old(g).area
      ensures g.loc.Keys == old(g).loc.Keys
      ensures OnlyAppends(old(history), history, g.committed)
    {
      hide Inv, SameData, OnlyAppends, Metadata.Settled, Buffered;
      NoAppend(history, g.committed);
      SameDataRefl(g.view);
      inPlace := None;
      if Parent(id).Some? {
        ParentLevel(id);
        inPlace := MakeBlockDirty(Parent(id).value, Parent(id));
      } else {
        NoneInPlace();
      }
    }

    /** Gets the parent of a block into the cache and keeps it there while a buffer is found. */
    method PinParent(id: Id)
      requires Valid() && (Parent(id).Some? ==> Parent(id).value in g.loc)
      modifies this`cache, this`rtbf, this`blocks, this`history, this`buffers, this`locked
      ensures Valid() && (Parent(id).Some? ==> Parent(id).value in cache && Parent(id).value in g.view)
      ensures Buffered(cache) < buffers
      ensures locked == old(locked) + if Parent(id).Some? then {Parent(id).value} else {}
      ensures OnlyAppends(old(history), history, g.committed)
    {
      hide Inv, SameData, OnlyAppends, Metadata.Holds, Buffered, Level;
      NoAppend(history, g.committed);
      if Parent(id).Some? {
        Fetch(Parent(id).value, None);
        ParentInView(Parent(id).value);
        locked := locked + {Parent(id).value};
      }
      ghost var h1 := history;
      AllocLRU(None);
      Chain(old(history), h1, history, g.committed);
    }

    lemma {:induction false} ParentInView(p: Id)
      requires Holds(None, None) && p in cache
      ensures p in g.view
    {
      hide Inv;
      InView(S(), g, p);
    }

    lemma {:induction false} ZeroNotFree(s: State, g: Meaning)
      requires Inv(s, g, None, None)
      ensures 0 !in s.free
    {
      hide ReadsAs, Consistent, CacheOk, StoredOk, LimboOk, MovingOk, Protected, Injective, NoLeak;
    }

    /** Gives a new block a number and an entry in its parent. */
    method Enter(id: Id, data: int)
      requires Holds(None, None) && id !in g.loc && free != {} && id != RootExtension && Buffered(cache) < buffers
      requires Parent(id).Some? ==> Parent(id).value in cache
      modifies this`cache, this`root, this`free, this`reservedFree, this`g
      ensures Holds(None, Parent(id)) && |free| == old(|free|) - 1
      ensures forall x :: x in old(cache) ==> x in cache
      ensures g.loc.Keys == old(g).loc.Keys + {id}
      ensures g.view.Keys == old(g).view.Keys + {id} && g.view[id].data == data
      ensures forall x :: x in old(g).view ==> g.view[x].data == old(g).view[x].data
      ensures g.comloc == old(g).comloc && g.committed == old(g).committed && g.area == old(g).area
    {
      hide Inv, Created, CreatedMeaning, WithPtr, Buffered;
      ghost var s := S();
      ZeroNotFree(s, g);
      InvToFlush(s, g);
      var n := AllocReservedBlock();
      assert S() == s.(free := s.free - {n});
      if Parent(id).Some? { InView(s, g, Parent(id).value); ParentLevel(id); }
      CreateStep(s, g, id, data, n);
      CreatedData(s, g, id, data, n);
      PutInTree(id, data, n, s);
      g := CreatedMeaning(g, id, data, n);
    }

    /** The new block in the cache, and its number in the parent or the root block. */
    method PutInTree(id: Id, data: int, n: nat, ghost s: State)
      requires Parent(id).Some? ==> Parent(id).value in cache && Parent(id).value != id
      requires S() == s.(free := s.free - {n})
      modifies this`cache, this`root
      ensures S() == Created(s, id, data, n) && id in cache && forall x :: x in old(cache) ==> x in cache
      ensures Buffered(cache) <= old(Buffered(cache)) + 1
    {
      hide WithPtr, Buffered;
      match Parent(id) {
        case None => root := root[id := n];
        case Some(p) =>
          cache := cache[p := cache[p].(content := WithPtr(cache[p].content, id, n))];
      }
      BufferedSame(old(cache), cache);
      BufferedMore(cache, id, Cached(n, 0, true, Content(map[], data)));
      cache := cache[id := Cached(n, 0, true, Content(map[], data))];
      CreatedState(s, id, data, n);
    }

    // ---------------------------------------------------------------------
    // UpdateDisk

    /** Holds while UpdateDisk writes: numbers of the committed tree may be free already. */
    ghost predicate Flushing()
      reads this`cache, this`root, this`free, this`rtbf, this`blocks, this`diskroot, this`g, this`reservedFree
    {
      InvFlush(S(), g, None, None) && reservedFree == |free|
    }

    /** Writes one dirty block, freeing the number it had in the committed tree. */
    method UpdateBlock(id: Id)
      requires Flushing() && id in cache && cache[id].dirty
      modifies this`cache, this`free, this`reservedFree, this`blocks, this`history
      ensures Flushing() && cache.Keys == old(cache.Keys) && old(free) <= free
      ensures !cache[id].dirty && forall x :: x in cache && x != id ==> cache[x] == old(cache)[x]
      ensures OnlyAppends(old(history), history, g.committed)
    {
      hide InvFlush, OnlyAppends, ReadsAs;
      FlushStep(S(), g, id);
      FlushFacts(S(), g, id);
      var c := cache[id];
      FreeReservedBlock(c.oldblocknr);
      RawWrite(c.blocknr, c.content);
      OneWrite(old(history), history[|history| - 1], g.committed);
      cache := cache[id := c.(oldblocknr := 0, dirty := false)];
    }

    lemma {:induction false} FlushFacts(s: State, g: Meaning, id: Id)
      requires InvFlush(s, g, None, None) && id in s.cache && InvFlush(Flushed(s, id), g, None, None)
      ensures s.cache[id].oldblocknr !in s.free
      ensures ReadsAs(Flushed(s, id).blocks, Flushed(s, id).diskroot, g.comloc, g.committed)
    {
      hide ReadsAs, Consistent, CacheOk, StoredOk, LimboOk, MovingOk, Protected, Injective, NoLeak;
    }

    lemma {:induction false} OneWrite(h: seq<Reached>, r: Reached, committed: Tree)
      requires Atomic(r) && r.committed == committed
      ensures OnlyAppends(h, h + [r], committed)
    {
      hide Atomic;
    }

    /** Writes every dirty block of a list of cached blocks. */
    method UpdateList(list: set<Id>)
      requires Flushing()
      modifies this`cache, this`free, this`reservedFree, this`blocks, this`history
      ensures Flushing() && cache.Keys == old(cache.Keys) && old(free) <= free
      ensures forall x :: x in cache ==> cache[x] == old(cache)[x] || !cache[x].dirty
      ensures forall x :: x in cache && x in list ==> !cache[x].dirty
      ensures OnlyAppends(old(history), history, g.committed)
    {
      hide InvFlush, OnlyAppends;
      NoAppend(history, g.committed);
      var todo := list;
      while todo != {}
        invariant Flushing() && cache.Keys == old(cache.Keys) && todo <= list && old(free) <= free
        invariant forall x :: x in cache ==> cache[x] == old(cache)[x] || !cache[x].dirty
        invariant forall x :: x in cache && x in list && x !in todo ==> !cache[x].dirty
        invariant OnlyAppends(old(history), history, g.committed)
        decreases todo
      {
        var id :| id in todo;
        if id in cache && cache[id].dirty {
          ghost var h := history;
          UpdateBlock(id);
          Chain(old(history), h, history, g.committed);
        }
        todo := todo - {id};
      }
    }

    /** Frees the numbers that evicted blocks had in the committed tree. */
    method CommitReservedToBeFreed()
      requires Flushing()
      modifies this`free, this`reservedFree, this`rtbf
      ensures Flushing() && rtbf == [] && old(free) <= free
    {
      hide InvFlush;
      while rtbf != []
        invariant Flushing() && old(free) <= free
        decreases |rtbf|
      {
        FreeStep(S(), g);
        FreeReservedBlock(rtbf[0]);
        rtbf := rtbf[1..];
      }
    }

    /** Marks dirty what UpdateFreeList changes: bitmap blocks with their new contents. The model stops
        at a block that is marked dirty where it is. */
    method UpdateFreeList(changes: seq<(nat, int)>) returns (inPlace: Option<Id>)
      requires Valid()
      requires forall k :: 0 <= k < |changes| ==> BitmapBlock(changes[k].0) in g.loc
      modifies this
      ensures Settled(inPlace) && (old(|free|) >= 2 * |changes| ==> inPlace == None)
      ensures g.loc.Keys == old(g).loc.Keys && |free| >= old(|free|) - 2 * |changes|
      ensures OnlyAppends(old(history), history, g.committed)
      ensures g.comloc == old(g).comloc && g.committed == old(g).committed && g.area == old(g).area
      ensures forall x :: x in old(g).view ==> x in g.view && (x.BitmapBlock? || g.view[x].data == old(g).view[x].data)
      ensures inPlace == None ==> Entered(DataOf(old(g).view), DataOf(g.view), changes)
    {
      hide Inv, OnlyAppends, Entered, Metadata.Settled;
      NoAppend(history, g.committed);
      NothingEntered(DataOf(g.view), changes[..0]);
      var i := 0;
      while i < |changes|
        invariant 0 <= i <= |changes| && Valid() && |free| >= old(|free|) - 2 * i
        invariant g.loc.Keys == old(g).loc.Keys
        invariant OnlyAppends(old(history), history, g.committed)
        invariant g.comloc == old(g).comloc && g.committed == old(g).committed && g.area == old(g).area
        invariant forall x :: x in old(g).view ==> x in g.view && (x.BitmapBlock? || g.view[x].data == old(g).view[x].data)
        invariant Entered(DataOf(old(g).view), DataOf(g.view), changes[..i])
      {
        ghost var h := history;
        inPlace := ChangeBitmap(changes[i], DataOf(old(g).view), changes[..i]);
        Chain(old(history), h, history, g.committed);
        if inPlace.Some? {
          return;
        }
        assert changes[..i + 1] == changes[..i] + [changes[i]];
        i := i + 1;
      }
      inPlace := None;
      assert changes[..i] == changes;
      NoneInPlace();
    }

    /** One more bitmap block has its new contents. */
    method ChangeBitmap(change: (nat, int), ghost d: map<Id, int>, ghost done: seq<(nat, int)>) returns (inPlace: Option<Id>)
      requires Valid() && BitmapBlock(change.0) in g.loc && Entered(d, DataOf(g.view), done)
      modifies this
      ensures Settled(inPlace) && (old(|free|) >= 2 ==> inPlace == None) && (inPlace == None ==> Valid())
      ensures |free| >= old(|free|) - 2 && g.loc.Keys == old(g).loc.Keys
      ensures g.comloc == old(g).comloc && g.committed == old(g).committed && g.area == old(g).area
      ensures forall x :: x in old(g).view ==> x in g.view && (x.BitmapBlock? || g.view[x].data == old(g).view[x].data)
      ensures Entered(d, DataOf(g.view), done + [change])
      ensures OnlyAppends(old(history), history, g.committed)
    {
      hide Inv, OnlyAppends, Entered, Metadata.Settled, Metadata.Valid;
      ghost var e := DataOf(g.view);
      inPlace := Change(BitmapBlock(change.0), change.1);
      EnteredMore(d, e, done, change);
      assert DataOf(g.view) == e[BitmapBlock(change.0) := change.1];
      if inPlace == None { NothingInPlace(); }
    }

    /** Writes the root block; the tree in memory becomes the committed tree. */
    method WriteRoot()
      requires Flushing() && forall id :: id in cache ==> !cache[id].dirty
      modifies this`diskroot, this`diskfree, this`g, this`history
      ensures Inv(S(), g, None, None) && reservedFree == |free|
      ensures diskroot == root && diskfree == free
      ensures g == old(g).(comloc := old(g).loc, committed := old(g).view)
      ensures history == old(history) + [Reached(blocks, diskroot, g.comloc, g.committed)]
    {
      hide InvFlush;
      RootStep(S(), g);
      diskroot, diskfree := root, free;
      g := g.(comloc := g.loc, committed := g.view);
      history := history + [Reached(blocks, diskroot, g.comloc, g.committed)];
    }

    /** Writes the dirty blocks of several lists, one list after the other. */
    method UpdateLists(lists: seq<set<Id>>)
      requires Flushing()
      modifies this`cache, this`free, this`reservedFree, this`blocks, this`history
      ensures Flushing() && cache.Keys == old(cache.Keys) && old(free) <= free
      ensures forall x :: x in cache ==> cache[x] == old(cache)[x] || !cache[x].dirty
      ensures forall k, x :: 0 <= k < |lists| && x in lists[k] && x in cache ==> !cache[x].dirty
      ensures OnlyAppends(old(history), history, g.committed)
    {
      hide InvFlush, OnlyAppends;
      NoAppend(history, g.committed);
      var i := 0;
      while i < |lists|
        invariant 0 <= i <= |lists| && Flushing() && cache.Keys == old(cache.Keys) && old(free) <= free
        invariant forall x :: x in cache ==> cache[x] == old(cache)[x] || !cache[x].dirty
        invariant forall k, x :: 0 <= k < i && x in lists[k] && x in cache ==> !cache[x].dirty
        invariant OnlyAppends(old(history), history, g.committed)
      {
        ghost var h := history;
        UpdateList(lists[i]);
        Chain(old(history), h, history, g.committed);
        i := i + 1;
      }
    }

    /** Writes all dirty blocks: directory, anode and index blocks and the root extension first, then,
        with the waiting numbers freed, the bitmap. */
    method WriteDirty()
      requires Flushing()
      modifies this`cache, this`free, this`reservedFree, this`rtbf, this`blocks, this`history
      ensures Flushing() && rtbf == [] && old(free) <= free && forall id :: id in cache ==> !cache[id].dirty
      ensures cache.Keys == old(cache.Keys)
      ensures OnlyAppends(old(history), history, g.committed)
    {
      hide InvFlush, OnlyAppends;
      WriteTree();
      ghost var h1 := history;
      CommitReservedToBeFreed();
      WriteBitmap();
      Chain(old(history), h1, history, g.committed);
    }

    method WriteTree()
      requires Flushing()
      modifies this`cache, this`free, this`reservedFree, this`blocks, this`history
      ensures Flushing() && cache.Keys == old(cache.Keys) && old(free) <= free
      ensures forall x :: x in cache && !x.BitmapBlock? && !x.BitmapIndexBlock? ==> !cache[x].dirty
      ensures OnlyAppends(old(history), history, g.committed)
    {
      hide InvFlush, OnlyAppends;
      var dirs := set x | x in cache && x.DirBlock?;
      var anodes := set x | x in cache && x.AnodeBlock?;
      var indices := set x | x in cache && x.IndexBlock?;
      var deldirs := set x | x in cache && x.DeldirBlock?;
      var lists := [dirs, anodes, indices, deldirs, {RootExtension}];
      UpdateLists(lists);
      assert lists[0] == dirs && lists[1] == anodes && lists[2] == indices && lists[3] == deldirs && lists[4] == {RootExtension};
    }

    method WriteBitmap()
      requires Flushing()
      modifies this`cache, this`free, this`reservedFree, this`blocks, this`history
      ensures Flushing() && cache.Keys == old(cache.Keys) && old(free) <= free
      ensures forall x :: x in cache ==> cache[x] == old(cache)[x] || !cache[x].dirty
      ensures forall x :: x in cache && (x.BitmapBlock? || x.BitmapIndexBlock?) ==> !cache[x].dirty
      ensures OnlyAppends(old(history), history, g.committed)
    {
      hide InvFlush, OnlyAppends;
      var bitmaps := set x | x in cache && x.BitmapBlock?;
      var bitmapIndices := set x | x in cache && x.BitmapIndexBlock?;
      var lists := [bitmaps, bitmapIndices];
      UpdateLists(lists);
      assert lists[0] == bitmaps && lists[1] == bitmapIndices;
    }

    /** Marks the root extension and what UpdateFreeList changes as dirty. */
    method PrepareUpdate(changes: seq<(nat, int)>) returns (inPlace: Option<Id>)
      requires Valid()
      requires forall k :: 0 <= k < |changes| ==> BitmapBlock(changes[k].0) in g.loc
      modifies this
      ensures Settled(inPlace) && (old(|free|) >= 2 * |changes| + 1 ==> inPlace == None)
      ensures |free| >= old(|free|) - 2 * |changes| - 1
      ensures inPlace == None ==> g.view.Keys == old(g).view.Keys
      ensures OnlyAppends(old(history), history, old(g).committed)
      ensures g.committed == old(g).committed && g.area == old(g).area
      ensures forall x :: x in old(g).view ==> x in g.view && (x.BitmapBlock? || g.view[x].data == old(g).view[x].data)
      ensures inPlace == None ==> Entered(DataOf(old(g).view), DataOf(g.view), changes)
    {
      hide Inv, OnlyAppends, SameData, Entered, Metadata.Holds, Metadata.Settled;
      ghost var h0 := history;
      SameKeys();
      inPlace := TouchRootExtension();
      if inPlace.Some? {
        return;
      }
      NothingInPlace();
      ghost var h1 := history;
      assert DataOf(g.view) == DataOf(old(g).view);
      inPlace := UpdateFreeList(changes);
      Chain(h0, h1, history, g.committed);
      if inPlace == None {
        NothingInPlace();
        SameKeys();
      }
    }

    /** Makes sure that the root extension is written to a new place. */
    method TouchRootExtension() returns (inPlace: Option<Id>)
      requires Valid()
      modifies this
      ensures Settled(inPlace) && (old(|free|) >= 1 ==> inPlace == None)
      ensures |free| >= old(|free|) - 1 && g.loc.Keys == old(g).loc.Keys
      ensures old(g).view.Keys == old(g).loc.Keys && SameData(old(g).view, g.view)
      ensures g.view.Keys == old(g).view.Keys && forall x :: x in old(g).view ==> g.view[x].data == old(g).view[x].data
      ensures g.committed == old(g).committed && g.comloc == old(g).comloc && g.area == old(g).area
      ensures OnlyAppends(old(history), history, g.committed) && locked == old(locked)
    {
      hide Inv, OnlyAppends, SameData, Metadata.Holds, Metadata.Settled;
      ghost var v0 := g.view;
      SameKeys();
      NoAppend(history, g.committed);
      SameDataRefl(g.view);
      if RootExtension in cache {
        inPlace := MakeBlockDirty(RootExtension, None);
      } else {
        inPlace := None;
        NoneInPlace();
      }
      SameDataAt(v0, g.view);
    }

    lemma {:induction false} Fewer(a: set<nat>, b: set<nat>)
      requires a <= b
      ensures |a| <= |b|
    {
      assert b == a + (b - a);
    }

    lemma {:induction false} SameKeys()
      requires Valid()
      ensures g.view.Keys == g.loc.Keys
    {
      hide Inv;
      InvToFlush(S(), g);
    }

    /** Commits. Every state the disk goes through reads as the tree committed before, up to the last
        one, written with the root, which reads as the tree in memory. Afterwards every reserved
        block is either free or part of that tree. The model stops before any of these writes if a block
        had to be marked dirty where it is. */
    method UpdateDisk(changes: seq<(nat, int)>) returns (inPlace: Option<Id>)
      requires Valid()
      requires forall k :: 0 <= k < |changes| ==> BitmapBlock(changes[k].0) in g.loc
      modifies this
      ensures |free| >= old(|free|) - 2 * |changes| - 1 && (old(|free|) >= 2 * |changes| + 1 ==> inPlace == None)
      ensures inPlace.Some? ==>
                Settled(inPlace) && g.committed == old(g).committed && OnlyAppends(old(history), history, g.committed)
      ensures forall x :: x in old(g).view ==> x in g.view && (x.BitmapBlock? || g.view[x].data == old(g).view[x].data)
      ensures inPlace == None ==>
                && Valid() && g.committed == g.view && g.comloc == g.loc && ReadsAs(blocks, diskroot, g.loc, g.view)
                && Entered(DataOf(old(g).view), DataOf(g.committed), changes)
                && |history| > |old(history)| && OnlyAppends(old(history), history[..|history| - 1], old(g).committed)
                && history[|history| - 1] == Reached(blocks, diskroot, g.loc, g.view)
                && (forall id :: id in cache ==> !cache[id].dirty)
                && old(g).area <= free + g.loc.Values && free !! g.loc.Values && diskfree == free
    {
      hide Inv, InvFlush, OnlyAppends, ReadsAs, Entered, Metadata.Settled, Metadata.Valid;
      ghost var h0, committed := history, g.committed;
      inPlace := PrepareUpdate(changes);
      if inPlace.Some? {
        return;
      }
      NothingInPlace();
      ghost var f := free;
      FlushAll(h0, committed);
      Fewer(f, free);
    }

    /** The writes of a commit. */
    method FlushAll(ghost h0: seq<Reached>, ghost committed: Tree)
      requires Valid() && g.committed == committed && OnlyAppends(h0, history, committed)
      modifies this`cache, this`free, this`reservedFree, this`rtbf, this`blocks, this`diskroot, this`diskfree, this`g, this`history
      ensures Valid() && g.committed == g.view && g.comloc == g.loc && ReadsAs(blocks, diskroot, g.loc, g.view)
      ensures g == old(g).(comloc := old(g).loc, committed := old(g).view)
      ensures |history| > |h0| && OnlyAppends(h0, history[..|history| - 1], committed)
      ensures history[|history| - 1] == Reached(blocks, diskroot, g.loc, g.view)
      ensures old(free) <= free && forall id :: id in cache ==> !cache[id].dirty
      ensures g.area <= free + g.loc.Values && free !! g.loc.Values && diskfree == free
    {
      hide Inv, InvFlush, OnlyAppends, ReadsAs, Buffered;
      ghost var h1 := history;
      InvToFlush(S(), g);
      WriteDirty();
      BufferedSame(old(cache), cache);
      Chain(h0, h1, history, committed);
      NothingWaits(S(), g);
      Longer(h0, history, committed);
      WriteRoot();
      Committed(S(), g);
    }
  }

  // ---------------------------------------------------------------------
  // Whole runs

  datatype Request =
    | ChangeData(id: Id, data: int)
    | AddBlock(id: Id, data: int)
    | EvictBlock(id: Id)
    | Commit(changes: seq<(nat, int)>)

  ghost predicate ReachedAs(r: Reached, tree: Tree) {
    Atomic(r) && r.committed == tree
  }

  /** The states that were added to the history: each reads as one of the trees, first as the first one
      and never again as one before. */
  ghost predicate Trace(before: seq<Reached>, after: seq<Reached>, trees: seq<Tree>, at: seq<nat>) {
    && before <= after && |at| == |after| - |before|
    && (forall k :: 0 <= k < |at| ==> at[k] < |trees| && ReachedAs(after[|before| + k], trees[at[k]]))
    && (forall j, k :: 0 <= j < k < |at| ==> at[j] <= at[k])
  }

  lemma {:induction false} TraceMore(a: seq<Reached>, b: seq<Reached>, c: seq<Reached>, trees: seq<Tree>, at: seq<nat>)
    requires Trace(a, b, trees, at) && trees != [] && OnlyAppends(b, c, trees[|trees| - 1])
    ensures Trace(a, c, trees, at + seq(|c| - |b|, i => |trees| - 1))
  {
    hide Atomic;
    var at' := at + seq(|c| - |b|, i => |trees| - 1);
    assert a <= c && |at'| == |c| - |a|;
    forall k | 0 <= k < |at'|
      ensures at'[k] < |trees| && ReachedAs(c[|a| + k], trees[at'[k]])
    {
      if k < |at| {
        assert c[|a| + k] == b[|a| + k] && at'[k] == at[k] && ReachedAs(b[|a| + k], trees[at[k]]);
      } else {
        assert at'[k] == |trees| - 1 && |b| <= |a| + k < |c|;
      }
    }
    forall j, k | 0 <= j < k < |at'|
      ensures at'[j] <= at'[k]
    {
      assert j < |at| ==> at'[j] == at[j];
      assert k < |at| ==> at'[k] == at[k];
    }
  }

  lemma {:induction false} TraceCommit(a: seq<Reached>, b: seq<Reached>, last: Reached, trees: seq<Tree>, at: seq<nat>)
    requires Trace(a, b, trees, at) && Atomic(last)
    ensures Trace(a, b + [last], trees + [last.committed], at + [|trees|])
  {
    hide Atomic;
    var c, trees', at' := b + [last], trees + [last.committed], at + [|trees|];
    assert a <= c && |at'| == |c| - |a|;
    forall k | 0 <= k < |at'|
      ensures at'[k] < |trees'| && ReachedAs(c[|a| + k], trees'[at'[k]])
    {
      if k < |at| {
        assert c[|a| + k] == b[|a| + k] && at'[k] == at[k] && ReachedAs(b[|a| + k], trees[at[k]]);
      }
    }
    forall j, k | 0 <= j < k < |at'|
      ensures at'[j] <= at'[k]
    {
      assert j < |at| ==> at'[j] == at[j];
      assert k < |at| ==> at'[k] == at[k];
    }
  }

  /** Whether all the bitmap blocks to be changed exist. */
  method BitmapsExist(m: Metadata, changes: seq<(nat, int)>) returns (all: bool)
    requires m.Valid()
    modifies m`cache, m`rtbf, m`blocks, m`history, m`buffers
    ensures m.Valid() && OnlyAppends(old(m.history), m.history, m.g.committed)
    ensures all <==> forall k :: 0 <= k < |changes| ==> BitmapBlock(changes[k].0) in m.g.loc
  {
    hide Metadata.Valid, OnlyAppends;
    NoAppend(m.history, m.g.committed);
    all := true;
    var i := 0;
    while i < |changes|
      invariant 0 <= i <= |changes| && m.Valid() && OnlyAppends(old(m.history), m.history, m.g.committed)
      invariant all <==> forall k :: 0 <= k < i ==> BitmapBlock(changes[k].0) in m.g.loc
    {
      ghost var h := m.history;
      var found := m.Exists(BitmapBlock(changes[i].0));
      Chain(old(m.history), h, m.history, m.g.committed);
      all := all && found;
      i := i + 1;
    }
  }

  /** A request can be served: the blocks it needs exist, and enough reserved blocks are free. */
  ghost predicate Servable(r: Request, d: map<Id, int>, free: nat) {
    match r
    case ChangeData(id, _) => id in d && free >= Level(id)
    case AddBlock(id, _) =>
      id !in d && (Parent(id).Some? ==> Parent(id).value in d) && id != RootExtension && free >= Level(id)
    case EvictBlock(_) => true
    case Commit(changes) =>
      (forall k :: 0 <= k < |changes| ==> BitmapBlock(changes[k].0) in d) && free >= 2 * |changes| + 1
  }

  /** What a request makes of the data in memory. */
  ghost predicate Serves(r: Request, d: map<Id, int>, d': map<Id, int>) {
    match r
    case ChangeData(id, data) => d' == d[id := data]
    case AddBlock(id, data) => d' == d[id := data]
    case EvictBlock(_) => d' == d
    case Commit(changes) => Entered(d, d', changes)
  }

  /** How many reserved blocks a request takes at most. */
  function Takes(r: Request): nat {
    match r
    case ChangeData(id, _) => Level(id)
    case AddBlock(id, _) => Level(id)
    case EvictBlock(_) => 0
    case Commit(changes) => 2 * |changes| + 1
  }

  /** How many reserved blocks are free, the data in memory, and the trees committed so far. */
  datatype Stage = Stage(free: nat, data: map<Id, int>, trees: seq<Tree>)

  /** One request: it is served if it can be, and then a commit makes the data in memory that of one more tree. */
  ghost predicate Step(r: Request, s: Stage, s': Stage) {
    && s.trees != []
    && (if Servable(r, s.data, s.free) then Serves(r, s.data, s'.data) && s'.free >= s.free - Takes(r)
        else s'.data == s.data && s'.free == s.free)
    && if r.Commit? && Servable(r, s.data, s.free) then
         |s'.trees| == |s.trees| + 1 && s'.trees[..|s.trees|] == s.trees && DataOf(s'.trees[|s.trees|]) == s'.data
       else s'.trees == s.trees
  }

  /** One request, if it can be served. */
  method ServeOne(m: Metadata, r: Request, ghost h0: seq<Reached>, ghost trees: seq<Tree>, ghost at: seq<nat>)
    returns (ghost trees': seq<Tree>, ghost at': seq<nat>)
    requires m.Valid() && trees != [] && trees[|trees| - 1] == m.g.committed && Trace(h0, m.history, trees, at)
    modifies m
    ensures m.Valid() && trees' != [] && trees'[|trees'| - 1] == m.g.committed && Trace(h0, m.history, trees', at')
    ensures Step(r, Stage(old(|m.free|), DataOf(old(m.g).view), trees), Stage(|m.free|, DataOf(m.g.view), trees'))
  {
    hide Metadata.Valid, OnlyAppends, Trace, Atomic, Entered;
    ghost var h := m.history;
    trees' := trees;
    match r {
      case ChangeData(id, data) =>
        ChangeIf(m, id, data);
      case AddBlock(id, data) =>
        AddIf(m, id, data);
      case EvictBlock(id) =>
        EvictIf(m, id);
      case Commit(changes) =>
        trees', at' := CommitIf(m, changes, h0, trees, at);
        return;
    }
    TraceMore(h0, h, m.history, trees, at);
    Longer(h, m.history, m.g.committed);
    at' := at + seq(|m.history| - |h|, i => |trees| - 1);
  }

  method CommitIf(m: Metadata, changes: seq<(nat, int)>, ghost h0: seq<Reached>, ghost trees: seq<Tree>, ghost at: seq<nat>)
    returns (ghost trees': seq<Tree>, ghost at': seq<nat>)
    requires m.Valid() && trees != [] && trees[|trees| - 1] == m.g.committed && Trace(h0, m.history, trees, at)
    modifies m
    ensures m.Valid() && trees' != [] && trees'[|trees'| - 1] == m.g.committed && Trace(h0, m.history, trees', at')
    ensures Step(Commit(changes), Stage(old(|m.free|), DataOf(old(m.g).view), trees), Stage(|m.free|, DataOf(m.g.view), trees'))
  {
    hide Metadata.Valid, OnlyAppends, Trace, Atomic, Entered;
    ghost var h := m.history;
    m.SameKeys();
    var all := BitmapsExist(m, changes);
    ghost var h1 := m.history;
    TraceMore(h0, h, h1, trees, at);
    Longer(h, h1, m.g.committed);
    trees', at' := trees, at + seq(|h1| - |h|, i => |trees| - 1);
    if all && |m.free| >= 2 * |changes| + 1 {
      trees', at' := CommitNow(m, changes, h0, trees, at');
    }
  }

  method CommitNow(m: Metadata, changes: seq<(nat, int)>, ghost h0: seq<Reached>, ghost trees: seq<Tree>, ghost at: seq<nat>)
    returns (ghost trees': seq<Tree>, ghost at': seq<nat>)
    requires m.Valid() && trees != [] && trees[|trees| - 1] == m.g.committed && Trace(h0, m.history, trees, at)
    requires (forall k :: 0 <= k < |changes| ==> BitmapBlock(changes[k].0) in m.g.loc) && |m.free| >= 2 * |changes| + 1
    modifies m
    ensures m.Valid() && trees' == trees + [m.g.committed] && Trace(h0, m.history, trees', at')
    ensures m.g.committed == m.g.view && Entered(DataOf(old(m.g).view), DataOf(m.g.view), changes)
    ensures |m.free| >= old(|m.free|) - 2 * |changes| - 1
  {
    hide Metadata.Valid, OnlyAppends, Trace, Atomic, Entered;
    ghost var h := m.history;
    var _ := m.UpdateDisk(changes);
    ghost var last := |m.history| - 1;
    TraceMore(h0, h, m.history[..last], trees, at);
    at' := at + seq(last - |h|, i => |trees| - 1);
    CommittedAtomic(m);
    TraceCommit(h0, m.history[..last], m.history[last], trees, at');
    assert m.history[..last] + [m.history[last]] == m.history;
    at', trees' := at' + [|trees|], trees + [m.g.committed];
  }

  lemma {:induction false} CommittedAtomic(m: Metadata)
    requires ReadsAs(m.blocks, m.diskroot, m.g.loc, m.g.view)
    ensures Atomic(Reached(m.blocks, m.diskroot, m.g.loc, m.g.view))
  {
  }

  method ChangeIf(m: Metadata, id: Id, data: int)
    requires m.Valid()
    modifies m
    ensures m.Valid() && m.g.committed == old(m.g).committed && OnlyAppends(old(m.history), m.history, m.g.committed)
    ensures var d := DataOf(old(m.g).view);
            if Servable(ChangeData(id, data), d, old(|m.free|)) then DataOf(m.g.view) == d[id := data] && |m.free| >= old(|m.free|) - Level(id)
            else DataOf(m.g.view) == d && |m.free| == old(|m.free|)
  {
    hide Metadata.Valid, OnlyAppends;
    ghost var h := m.history;
    m.SameKeys();
    var found := m.Exists(id);
    ghost var h1 := m.history;
    NoAppend(h1, m.g.committed);
    if found && |m.free| >= Level(id) {
      var _ := m.Change(id, data);
      m.NothingInPlace();
    }
    Chain(h, h1, m.history, m.g.committed);
  }

  method AddIf(m: Metadata, id: Id, data: int)
    requires m.Valid()
    modifies m
    ensures m.Valid() && m.g.committed == old(m.g).committed && OnlyAppends(old(m.history), m.history, m.g.committed)
    ensures var d := DataOf(old(m.g).view);
            if Servable(AddBlock(id, data), d, old(|m.free|)) then DataOf(m.g.view) == d[id := data] && |m.free| >= old(|m.free|) - Level(id)
            else DataOf(m.g.view) == d && |m.free| == old(|m.free|)
  {
    hide Metadata.Valid, OnlyAppends;
    ghost var h := m.history;
    m.SameKeys();
    var found := m.Exists(id);
    ghost var h1 := m.history;
    var below := true;
    if Parent(id).Some? { below := m.Exists(Parent(id).value); }
    ghost var h2 := m.history;
    NoAppend(h1, m.g.committed);
    NoAppend(h2, m.g.committed);
    Chain(h, h1, h2, m.g.committed);
    if !found && below && id != RootExtension && |m.free| >= Level(id) {
      var _, _ := m.Create(id, data);
      m.NothingInPlace();
    }
    Chain(h, h2, m.history, m.g.committed);
  }

  method EvictIf(m: Metadata, id: Id)
    requires m.Valid()
    modifies m
    ensures m.Valid() && m.g == old(m.g) && m.free == old(m.free) && OnlyAppends(old(m.history), m.history, m.g.committed)
  {
    hide OnlyAppends, Inv;
    NoAppend(m.history, m.g.committed);
    if id in m.cache && id !in m.locked && id != RootExtension {
      m.Evict(id, None);
    }
  }

  ghost predicate Stages(run: seq<Request>, s: seq<Stage>) {
    && |s| == |run| + 1
    && forall k :: 0 <= k < |run| ==> Step(run[k], s[k], s[k + 1])
  }

  lemma {:induction false} OneStage(run: seq<Request>, s: seq<Stage>, r: Request, t: Stage)
    requires Stages(run, s) && Step(r, s[|run|], t)
    ensures Stages(run + [r], s + [t])
  {
    hide Step;
    var run', s' := run + [r], s + [t];
    forall k | 0 <= k < |run'|
      ensures Step(run'[k], s'[k], s'[k + 1])
    {
      if k < |run| { assert Step(run[k], s[k], s[k + 1]); }
    }
  }

  /** Whatever is changed, added, evicted and committed, in whatever order: each request that can be served
      does to the data what it says, and each commit adds a tree with that data; after every single write a
      reader of the disk sees a tree as committed, first the one of the start, then each commit's in
      turn, and at the end the last. */
  method Serve(m: Metadata, run: seq<Request>) returns (ghost stages: seq<Stage>, ghost at: seq<nat>)
    requires m.Valid()
    modifies m
    ensures m.Valid() && Stages(run, stages)
    ensures stages[0] == Stage(old(|m.free|), DataOf(old(m.g).view), [old(m.g).committed])
    ensures var last := stages[|run|];
            && last.free == |m.free| && last.data == DataOf(m.g.view)
            && last.trees != [] && last.trees[|last.trees| - 1] == m.g.committed
            && Trace(old(m.history), m.history, last.trees, at)
  {
    hide Metadata.Valid, Trace, Step;
    ghost var trees: seq<Tree>;
    trees, at := [m.g.committed], [];
    stages := [Stage(|m.free|, DataOf(m.g.view), trees)];
    NoTrace(m.history, trees);
    for i := 0 to |run|
      invariant m.Valid() && trees != [] && trees[|trees| - 1] == m.g.committed
      invariant Trace(old(m.history), m.history, trees, at)
      invariant Stages(run[..i], stages) && stages[0] == Stage(old(|m.free|), DataOf(old(m.g).view), [old(m.g).committed])
      invariant stages[i] == Stage(|m.free|, DataOf(m.g.view), trees)
    {
      trees, at := ServeOne(m, run[i], old(m.history), trees, at);
      OneStage(run[..i], stages, run[i], Stage(|m.free|, DataOf(m.g.view), trees));
      stages := stages + [Stage(|m.free|, DataOf(m.g.view), trees)];
      assert run[..i + 1] == run[..i] + [run[i]];
    }
    assert run[..|run|] == run;
  }

  lemma {:induction false} NoTrace(h: seq<Reached>, trees: seq<Tree>)
    ensures Trace(h, h, trees, [])
  {
  }

  /** The number of a block is where the tree in memory records it. */
  lemma {:induction false} InMemory(s: State, g: Meaning, moving: Option<Id>, id: Id)
    requires Inv(s, g, moving, None) && id in g.loc
    ensures match Parent(id)
            case None => id in s.root && s.root[id] == g.loc[id]
            case Some(p) =>
              && p in g.loc && p in g.view
              && (p in s.cache ==> id in s.cache[p].content.ptrs && s.cache[p].content.ptrs[id] == g.loc[id])
  {
    hide ReadsAs, StoredOk, FreeOk, LimboOk, MovingOk, Protected, Injective;
    assert Recorded(s.root, g.view, id) == Get(g.loc, id);
  }

  lemma {:induction false} InTree(s: State, g: Meaning, id: Id)
    requires Inv(s, g, None, None)
    ensures match Parent(id)
            case None => id in g.loc <==> id in s.root
            case Some(p) =>
              && (id in g.loc ==> p in g.loc)
              && (p in s.cache ==> (id in g.loc <==> id in s.cache[p].content.ptrs))
  {
    hide ReadsAs, StoredOk, FreeOk, LimboOk, MovingOk, Protected, Injective, NoLeak;
    assert Recorded(s.root, g.view, id) == Get(g.loc, id);
  }

  lemma {:induction false} InView(s: State, g: Meaning, id: Id)
    requires id in s.cache && exists changed :: Inv(s, g, None, changed)
    ensures id in g.view && id in g.loc
  {
    hide ReadsAs, StoredOk, FreeOk, LimboOk, MovingOk, Protected, Injective, Consistent;
  }

  lemma {:induction false} DirtyAlready(s: State, g: Meaning, id: Id)
    requires Inv(s, g, None, Some(id)) || Inv(s, g, None, None)
    requires id in s.cache && s.cache[id].dirty
    ensures Inv(s, g, None, None)
  {
    hide ReadsAs, FreeOk, LimboOk, MovingOk, Protected, Injective, Consistent, CacheOk;
  }

  lemma {:induction false} NothingChanged(s: State, g: Meaning, id: Id)
    requires Inv(s, g, None, None)
    ensures Inv(s, g, None, Some(id))
  {
    hide ReadsAs, FreeOk, LimboOk, MovingOk, Protected, Injective, Consistent, CacheOk;
  }

  lemma {:induction false} Chain(a: seq<Reached>, b: seq<Reached>, c: seq<Reached>, committed: Tree)
    requires OnlyAppends(a, b, committed) && OnlyAppends(b, c, committed)
    ensures OnlyAppends(a, c, committed)
  {
    hide Atomic;
  }

  lemma {:induction false} NoAppend(a: seq<Reached>, committed: Tree)
    ensures OnlyAppends(a, a, committed)
  {
  }

  lemma {:induction false} SameDataTwice(u: Tree, v: Tree, w: Tree)
    requires SameData(u, v) && SameData(v, w)
    ensures SameData(u, w)
  {
  }

  lemma {:induction false} SameDataRefl(u: Tree)
    ensures SameData(u, u)
  {
  }

  lemma {:induction false} SameDataAt(u: Tree, v: Tree)
    requires SameData(u, v)
    ensures u.Keys == v.Keys && forall x :: x in u ==> u[x].data == v[x].data
  {
  }

  lemma {:induction false} CreatedData(s: State, g: Meaning, id: Id, data: int, n: nat)
    requires Parent(id).Some? ==> Parent(id).value in g.view && Parent(id).value in s.cache && Parent(id).value != id
    requires id !in g.view
    ensures var g' := CreatedMeaning(g, id, data, n);
            && g'.view.Keys == g.view.Keys + {id} && g'.view[id].data == data
            && (forall x :: x in g.view ==> g'.view[x].data == g.view[x].data)
            && g'.comloc == g.comloc && g'.committed == g.committed && g'.area == g.area && g'.loc.Keys == g.loc.Keys + {id}
  {
  }

  lemma {:induction false} CreatedState(s: State, id: Id, data: int, n: nat)
    requires Parent(id).Some? ==> Parent(id).value in s.cache && Parent(id).value != id
    ensures match Parent(id)
            case None =>
              Created(s, id, data, n) == State(s.cache[id := Cached(n, 0, true, Content(map[], data))], s.root[id := n],
                                               s.free - {n}, s.rtbf, s.blocks, s.diskroot)
            case Some(p) =>
              Created(s, id, data, n) ==
                State(s.cache[p := s.cache[p].(content := WithPtr(s.cache[p].content, id, n))][id := Cached(n, 0, true, Content(map[], data))],
                      s.root, s.free - {n}, s.rtbf, s.blocks, s.diskroot)
    ensures RootExtension in s.cache ==> RootExtension in Created(s, id, data, n).cache
    ensures Parent(id).Some? ==> Parent(id).value in Created(s, id, data, n).cache
  {
  }

  lemma {:induction false} InvToFlush(s: State, g: Meaning)
    requires Inv(s, g, None, None)
    ensures InvFlush(s, g, None, None) && g.view.Keys == g.loc.Keys
  {
    hide ReadsAs, StoredOk, FreeOk, LimboOk, MovingOk, Protected, Injective, NoLeak, CacheOk;
  }

  lemma {:induction false} Committed(s: State, g: Meaning)
    requires Inv(s, g, None, None) && g.comloc == g.loc && g.committed == g.view
    ensures ReadsAs(s.blocks, s.diskroot, g.loc, g.view)
  {
  }

  lemma {:induction false} Longer(a: seq<Reached>, b: seq<Reached>, committed: Tree)
    requires OnlyAppends(a, b, committed)
    ensures |a| <= |b| && forall x {:trigger b + [x]} :: (b + [x])[..|b + [x]| - 1] == b
  {
  }
}
