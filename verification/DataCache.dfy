/** The write-back cache of user data blocks (PFS3lib/disk.cpp): round-robin slots between the
    callers and the disk. The logical contents of the disk, as callers see it, is `view`. */
module DataCaches {
  type Positive = n: nat | n > 0 witness 1

  type BlockBytes = n: nat | 0 < n <= 0x8000_0000 witness 512

  /** Bytes in a block. */
  const BLOCKSIZE: BlockBytes

  type Block = s: seq<bv8> | |s| == BLOCKSIZE witness seq(BLOCKSIZE, i => 0)

  import opened Extents

  function Fill(): Block {
    seq(BLOCKSIZE, i => 0xAA)
  }

  /** s with the elements from `at` on replaced by x. */
  function Splice<T>(s: seq<T>, at: nat, x: seq<T>): (r: seq<T>)
    requires at + |x| <= |s|
    ensures |r| == |s|
    ensures forall i :: 0 <= i < |s| ==> r[i] == if at <= i < at + |x| then x[i - at] else s[i]
  {
    s[..at] + x + s[at + |x|..]
  }

  /** A block is in one slot at most; tag 0 marks an empty slot. */
  ghost predicate TagsOk(tag: seq<nat>, blocks: nat) {
    && (forall i :: 0 <= i < |tag| ==> tag[i] < blocks)
    && forall i, j :: 0 <= i < j < |tag| && tag[i] == tag[j] ==> tag[i] == 0
  }

  /** Slots that are not dirty hold what is on disk; slot `but` may be an exception. */
  ghost predicate CleanOk(tag: seq<nat>, dirty: seq<bool>, data: seq<Block>, disk: seq<Block>, but: int) {
    && |tag| == |dirty| == |data|
    && forall i :: 0 <= i < |tag| && i != but && tag[i] != 0 && !dirty[i] ==> tag[i] < |disk| && data[i] == disk[tag[i]]
  }

  /** v is what callers see: a cached block as in its slot, any other block as on disk. */
  ghost predicate IsView(tag: seq<nat>, data: seq<Block>, disk: seq<Block>, v: seq<Block>) {
    && |v| == |disk| && |tag| == |data|
    && (forall i :: 0 <= i < |tag| && tag[i] != 0 ==> tag[i] < |v| && v[tag[i]] == data[i])
    && forall b {:trigger v[b]} :: 0 <= b < |v| && (b == 0 || b !in tag) ==> v[b] == disk[b]
  }

  lemma {:induction false} ViewUnique(tag: seq<nat>, data: seq<Block>, disk: seq<Block>, v: seq<Block>, w: seq<Block>)
    requires IsView(tag, data, disk, v) && IsView(tag, data, disk, w)
    ensures v == w
  {
    forall b | 0 <= b < |v|
      ensures v[b] == w[b]
    {
      if b != 0 && b in tag {
        var i :| 0 <= i < |tag| && tag[i] == b;
      }
    }
  }

  /** Slots [slot, slot + n) hold consecutive blocks. */
  ghost predicate Adjacent(tag: seq<nat>, slot: nat, n: nat) {
    && slot + n <= |tag|
    && forall k :: slot <= k < slot + n ==> tag[k] == tag[slot] + (k - slot)
  }

  lemma {:induction false} AdjacentFits(tag: seq<nat>, slot: nat, n: nat)
    requires Adjacent(tag, slot, n)
    ensures slot + n <= |tag|
  {
  }

  /** Writing the blocks of adjacent slots to disk changes neither the view nor other clean slots. */
  lemma {:induction false} WriteBack(tag: seq<nat>, dirty: seq<bool>, data: seq<Block>, disk: seq<Block>, v: seq<Block>,
                                     slot: nat, n: nat, dirty': seq<bool>)
    requires TagsOk(tag, |disk|) && CleanOk(tag, dirty, data, disk, -1) && IsView(tag, data, disk, v)
    requires n > 0 && Adjacent(tag, slot, n) && tag[slot] != 0
    requires |dirty'| == |dirty| && forall k :: 0 <= k < |dirty| && !(slot <= k < slot + n) ==> dirty'[k] == dirty[k]
    ensures tag[slot] + n <= |disk|
    ensures var disk' := Splice(disk, tag[slot], data[slot..slot + n]);
            CleanOk(tag, dirty', data, disk', -1) && IsView(tag, data, disk', v)
  {
    assert tag[slot + n - 1] == tag[slot] + (n - 1);
    var disk' := Splice(disk, tag[slot], data[slot..slot + n]);
    forall i | 0 <= i < |tag| && tag[i] != 0 && !dirty'[i]
      ensures data[i] == disk'[tag[i]]
    {
      if !(slot <= i < slot + n) && tag[slot] <= tag[i] < tag[slot] + n {
        var j := slot + (tag[i] - tag[slot]);
        assert tag[j] == tag[i];
      }
    }
    forall b: nat | tag[slot] <= b < tag[slot] + n
      ensures b in tag
    {
      assert tag[slot + (b - tag[slot])] == b;
    }
  }

  /** A slot whose contents are on disk, or that is empty, can be given to another block. */
  lemma {:induction false} Retag(tag: seq<nat>, dirty: seq<bool>, data: seq<Block>, disk: seq<Block>, v: seq<Block>,
                                 slot: nat, b: nat, x: Block, d: bool)
    requires TagsOk(tag, |disk|) && CleanOk(tag, dirty, data, disk, -1) && IsView(tag, data, disk, v)
    requires slot < |tag| && (dirty[slot] ==> tag[slot] == 0) && b !in tag && 0 < b < |disk|
    ensures TagsOk(tag[slot := b], |disk|)
    ensures IsView(tag[slot := b], data[slot := x], disk, v[b := x])
    ensures CleanOk(tag[slot := b], dirty[slot := d], data[slot := x], disk, slot)
    ensures d || x == disk[b] ==> CleanOk(tag[slot := b], dirty[slot := d], data[slot := x], disk, -1)
    ensures v[b] == disk[b]
  {
    var tag', data', v' := tag[slot := b], data[slot := x], v[b := x];
    forall i | 0 <= i < |tag| && i != slot ensures tag'[i] == tag[i] != b && tag[i] in tag' { assert tag'[i] in tag'; }
    forall a | 0 <= a < |v| && (a == 0 || a !in tag')
      ensures v'[a] == disk[a]
    {
      assert tag'[slot] == b;
      if a != 0 && a in tag {
        var i :| 0 <= i < |tag| && tag[i] == a;
      }
    }
  }

  /** Storing x in the slot of its block. */
  lemma {:induction false} Restore(tag: seq<nat>, dirty: seq<bool>, data: seq<Block>, disk: seq<Block>, v: seq<Block>,
                                   slot: nat, x: Block, d: bool, but: int)
    requires TagsOk(tag, |disk|) && CleanOk(tag, dirty, data, disk, but) && IsView(tag, data, disk, v)
    requires slot < |tag| && tag[slot] != 0 && (but == -1 || but == slot)
    requires d || x == disk[tag[slot]]
    ensures IsView(tag, data[slot := x], disk, v[tag[slot] := x])
    ensures CleanOk(tag, dirty[slot := d], data[slot := x], disk, -1)
  {
    var data' := data[slot := x];
    assert tag[slot] in tag;
  }

  /** Emptying slots in the range [b, b + n) gives up what they hold. */
  ghost predicate Emptied(tag: seq<nat>, tag': seq<nat>, lo: nat, b: nat, n: nat) {
    && |tag'| == |tag| && lo <= |tag|
    && forall i :: 0 <= i < |tag| ==> tag'[i] == if i < lo && b <= tag[i] < b + n then 0 else tag[i]
  }

  lemma {:induction false} EmptyRange(tag: seq<nat>, dirty: seq<bool>, data: seq<Block>, disk: seq<Block>, v: seq<Block>,
                                      tag': seq<nat>, b: nat, n: nat, x: seq<Block>)
    requires TagsOk(tag, |disk|) && CleanOk(tag, dirty, data, disk, -1) && IsView(tag, data, disk, v)
    requires Emptied(tag, tag', |tag|, b, n) && 0 < b && b + n <= |disk| && |x| == n
    ensures TagsOk(tag', |disk|) && CleanOk(tag', dirty, data, Splice(disk, b, x), -1)
    ensures IsView(tag', data, Splice(disk, b, x), Splice(v, b, x))
  {
    var v', disk' := Splice(v, b, x), Splice(disk, b, x);
    forall a | 0 <= a < |v| && (a == 0 || a !in tag')
      ensures v'[a] == disk'[a]
    {
      if a != 0 && a in tag {
        var i :| 0 <= i < |tag| && tag[i] == a;
        assert tag'[i] in tag';
      }
    }
  }

  lemma {:induction false} NotCached(tag: seq<nat>, tag': seq<nat>, b: nat, n: nat)
    requires Emptied(tag, tag', |tag|, b, n) && 0 < b
    ensures forall i :: b <= i < b + n ==> i !in tag'
  {
  }

  /** Where every slot in a range is clean, disk and view agree. */
  lemma {:induction false} CleanRange(tag: seq<nat>, dirty: seq<bool>, data: seq<Block>, disk: seq<Block>, v: seq<Block>,
                                      b: nat, n: nat)
    requires CleanOk(tag, dirty, data, disk, -1) && IsView(tag, data, disk, v)
    requires forall i :: 0 <= i < |tag| && dirty[i] ==> tag[i] == 0 || !(b <= tag[i] < b + n)
    requires b + n <= |disk|
    ensures disk[b..b + n] == v[b..b + n]
  {
    forall a | b <= a < b + n
      ensures disk[a] == v[a]
    {
      if a != 0 && a in tag {
        var i :| 0 <= i < |tag| && tag[i] == a;
      }
    }
  }

  lemma {:induction false} ViewSize(tag: seq<nat>, data: seq<Block>, disk: seq<Block>, v: seq<Block>)
    requires IsView(tag, data, disk, v)
    ensures |v| == |disk| && forall i :: 0 <= i < |tag| && tag[i] != 0 ==> tag[i] < |v| && v[tag[i]] == data[i]
    ensures forall b {:trigger v[b]} :: 0 < b < |v| && b !in tag ==> v[b] == disk[b]
  {
  }

  lemma {:induction false} Except(tag: seq<nat>, dirty: seq<bool>, data: seq<Block>, disk: seq<Block>, but: int)
    requires CleanOk(tag, dirty, data, disk, -1)
    ensures CleanOk(tag, dirty, data, disk, but)
  {
  }

  class DataCache {
    const size: Positive
    const blocknr: array<nat>
    const dirty: array<bool>
    const data: array<Block>
    var roving: nat
    // the device, one element a sector
    var disk: seq<Block>
    ghost var view: seq<Block>

    ghost predicate ValidBut(but: int)
      reads this, blocknr, dirty, data
    {
      && blocknr.Length == dirty.Length == data.Length == size && roving < size
      && |disk| <= NOBLOCK
      && TagsOk(blocknr[..], |disk|)
      && CleanOk(blocknr[..], dirty[..], data[..], disk, but)
      && IsView(blocknr[..], data[..], disk, view)
    }

    ghost predicate Valid()
      reads this, blocknr, dirty, data
    {
      ValidBut(-1)
    }

    constructor (size: Positive, disk: seq<Block>)
      requires 0 < |disk| <= NOBLOCK
      ensures Valid() && this.size == size && this.disk == disk && view == disk
      ensures fresh(blocknr) && fresh(dirty) && fresh(data)
    {
      this.size := size;
      blocknr := new nat[size](i => 0);
      dirty := new bool[size](i => false);
      data := new Block[size](i => Fill());
      roving := 0;
      this.disk, view := disk, disk;
    }

    /** The slot that holds a block, or -1. */
    method CheckDataCache(b: nat) returns (slot: int)
      ensures -1 <= slot < blocknr.Length
      ensures if slot == -1 then b !in blocknr[..] else blocknr[slot] == b
    {
      slot := 0;
      while slot < blocknr.Length
        invariant 0 <= slot <= blocknr.Length
        invariant b !in blocknr[..slot]
      {
        if blocknr[slot] == b {
          return;
        }
        slot := slot + 1;
      }
      slot := -1;
    }

    method RawWrite(buffer: seq<Block>, b: nat)
      requires b + |buffer| <= |disk|
      modifies this`disk
      ensures disk == Splice(old(disk), b, buffer)
    {
      var i := 0;
      while i < |buffer|
        invariant 0 <= i <= |buffer|
        invariant disk == Splice(old(disk), b, buffer[..i])
      {
        disk := disk[b + i := buffer[i]];
        i := i + 1;
      }
      assert buffer[..i] == buffer;
    }

    method RawRead(blocks: nat, b: nat) returns (buffer: seq<Block>)
      requires b + blocks <= |disk|
      ensures buffer == disk[b..b + blocks]
    {
      buffer := [];
      while |buffer| < blocks
        invariant |buffer| <= blocks && buffer == disk[b..b + |buffer|]
      {
        buffer := buffer + [disk[b + |buffer|]];
      }
    }

    /** Marks a slot clean, together with the slots after it that hold the blocks after it. */
    method MarkAdjacent(slot: nat) returns (n: nat)
      requires size == blocknr.Length == dirty.Length && slot < size
      modifies dirty
      ensures n > 0 && Adjacent(blocknr[..], slot, n)
      ensures forall k :: 0 <= k < size ==> dirty[k] == if slot <= k < slot + n then false else old(dirty[k])
    {
      var b, i := blocknr[slot], slot;
      while i < size
        invariant slot <= i <= size && b == blocknr[slot] + (i - slot) && (i == slot ==> b == blocknr[i])
        invariant forall k :: slot <= k < i ==> blocknr[k] == blocknr[slot] + (k - slot) && !dirty[k]
        invariant forall k :: 0 <= k < size && !(slot <= k < i) ==> dirty[k] == old(dirty[k])
      {
        b := b + 1;
        if blocknr[i] != b - 1 {
          break;
        }
        dirty[i] := false;
        i := i + 1;
      }
      n := i - slot;
    }

    /** Writes a slot to disk, together with the slots after it that hold the blocks after it. */
    method UpdateSlot(slot: nat)
      requires Valid() && slot < size && blocknr[slot] != 0
      modifies this`disk, dirty
      ensures Valid() && |disk| == old(|disk|)
      ensures !dirty[slot] && forall i :: 0 <= i < size && dirty[i] ==> old(dirty[i])
    {
      hide TagsOk, CleanOk, IsView, Adjacent;
      ghost var d := dirty[..];
      var n := MarkAdjacent(slot);
      AdjacentFits(blocknr[..], slot, n);
      WriteBack(blocknr[..], d, data[..], disk, view, slot, n, dirty[..]);
      RawWrite(data[slot..slot + n], blocknr[slot]);
      assert data[slot..slot + n] == data[..][slot..slot + n];
    }

    /** Writes the slot out if it holds something that is not yet on disk. */
    method CleanSlot(slot: nat)
      requires Valid() && slot < size
      modifies this`disk, dirty
      ensures Valid() && |disk| == old(|disk|)
      ensures !dirty[slot] || blocknr[slot] == 0
      ensures forall i :: 0 <= i < size && dirty[i] ==> old(dirty[i])
    {
      if dirty[slot] && blocknr[slot] != 0 {
        UpdateSlot(slot);
      }
    }

    /** Finds a block in the cache or puts it there. A fake read does not touch the disk: a block
        that was not cached then holds the fill pattern, to be overwritten by the caller. */
    method CachedRead(b: nat, fake: bool) returns (slot: nat)
      requires Valid() && 0 < b < |disk|
      modifies this, blocknr, dirty, data
      ensures slot < size && ValidBut(slot) && |disk| == old(|disk|)
      ensures blocknr[slot] == b && data[slot] == view[b]
      ensures view == old(view)[b := view[b]]
      ensures !fake ==> Valid() && view == old(view)
      ensures b in old(blocknr[..]) ==> view == old(view)
      ensures fake && b !in old(blocknr[..]) ==> forall i :: 0 <= i < BLOCKSIZE ==> view[b][i] == 0xAA
      ensures if b in old(blocknr[..]) then roving == old(roving) else slot == old(roving) && roving == (slot + 1) % size
    {
      hide TagsOk, CleanOk, IsView;
      ViewSize(blocknr[..], data[..], disk, view);
      var i := CheckDataCache(b);
      if i != -1 {
        Except(blocknr[..], dirty[..], data[..], disk, i);
        return i;
      }
      slot := roving;
      CleanSlot(slot);
      var sector := [Fill()];
      if !fake {
        sector := RawRead(1, b);
      }
      Retag(blocknr[..], dirty[..], data[..], disk, view, slot, b, sector[0], false);
      data[slot] := sector[0];
      roving := (roving + 1) % size;
      dirty[slot] := false;
      blocknr[slot] := b;
      view := view[b := sector[0]];
    }

    /** The contents of a block; fails behind the end of the device. */
    method CachedReadD(b: nat) returns (error: bool, block: Block)
      requires Valid() && 0 < b && |view| == |disk|
      modifies this, blocknr, dirty, data
      ensures Valid() && |disk| == old(|disk|) && view == old(view) && |view| == |disk|
      ensures error <==> b >= |view|
      ensures !error ==> block == view[b]
    {
      if b >= |disk| {
        return true, Fill();
      }
      var slot := CachedRead(b, false);
      return false, data[slot];
    }

    /** Overwrites part of a cached block. */
    method WriteInSlot(slot: nat, at: nat, bytes: seq<bv8>)
      requires slot < size && ValidBut(slot) && blocknr[slot] != 0 && at + |bytes| <= BLOCKSIZE
      modifies this`view, dirty, data
      ensures Valid() && view == old(view)[blocknr[slot] := Splice(old(data[slot]), at, bytes)]
    {
      hide TagsOk, CleanOk, IsView;
      var x := Splice(data[slot], at, bytes);
      ViewSize(blocknr[..], data[..], disk, view);
      Restore(blocknr[..], dirty[..], data[..], disk, view, slot, x, true, slot);
      data[slot] := x;
      dirty[slot] := true;
      view := view[blocknr[slot] := x];
    }

    method SetSlot(slot: nat, b: nat, buffer: Block)
      requires slot < size == blocknr.Length == dirty.Length == data.Length && b < |view|
      modifies this`view, blocknr, dirty, data
      ensures blocknr[..] == old(blocknr[..])[slot := b] && dirty[..] == old(dirty[..])[slot := true]
      ensures data[..] == old(data[..])[slot := buffer]
      ensures view == old(view)[b := buffer]
    {
      data[slot] := buffer;
      dirty[slot] := true;
      blocknr[slot] := b;
      view := view[b := buffer];
    }

    /** Puts a block in the cache, over its old contents if it was there. */
    method CachedWrite(buffer: Block, b: nat) returns (slot: nat)
      requires Valid() && 0 < b < |disk|
      modifies this, blocknr, dirty, data
      ensures slot < size && Valid() && blocknr[slot] == b && data[slot] == buffer
      ensures |disk| == old(|disk|) == |view| && view == old(view)[b := buffer]
      ensures b !in old(blocknr[..]) ==> disk[b] == old(disk[b])
      ensures if b in old(blocknr[..]) then roving == old(roving) else slot == old(roving) && roving == (slot + 1) % size
    {
      hide TagsOk, CleanOk, IsView;
      ViewSize(blocknr[..], data[..], disk, view);
      var i := CheckDataCache(b);
      assert b !in blocknr[..] ==> view[b] == disk[b];
      if i == -1 {
        slot := roving;
        roving := (roving + 1) % size;
        CleanSlot(slot);
        Retag(blocknr[..], dirty[..], data[..], disk, view, slot, b, buffer, true);
      } else {
        slot := i;
        assert blocknr[..][slot := b] == blocknr[..];
        Restore(blocknr[..], dirty[..], data[..], disk, view, slot, buffer, true, -1);
      }
      SetSlot(slot, b, buffer);
    }

    /** Before the disk is accessed directly: writes out what the range holds (reading), or gives it
        up (writing). */
    method ValidateCache(b: nat, n: nat, reading: bool)
      requires Valid() && 0 < b && b + n <= |disk|
      modifies this`disk, this`view, blocknr, dirty
      ensures |disk| == old(|disk|) && roving == old(roving)
      ensures reading ==> Valid() && view == old(view) && disk[b..b + n] == view[b..b + n] && blocknr[..] == old(blocknr[..])
      ensures !reading ==> disk == old(disk) && Emptied(old(blocknr[..]), blocknr[..], size, b, n)
      ensures !reading ==> dirty[..] == old(dirty[..]) && view == old(view)
    {
      hide TagsOk, CleanOk, IsView;
      var i := 0;
      while i < size
        invariant 0 <= i <= size && |disk| == old(|disk|) && view == old(view)
        invariant blocknr.Length == dirty.Length == size
        invariant reading ==> Valid() && blocknr[..] == old(blocknr[..])
        invariant reading ==> forall k :: 0 <= k < i && dirty[k] ==> !(b <= blocknr[k] < b + n)
        invariant !reading ==> disk == old(disk) && Emptied(old(blocknr[..]), blocknr[..], i, b, n) && dirty[..] == old(dirty[..])
      {
        if b <= blocknr[i] < b + n {
          if reading {
            if dirty[i] {
              UpdateSlot(i);
            }
          } else {
            blocknr[i] := 0;
          }
        }
        i := i + 1;
      }
      if reading {
        CleanRange(blocknr[..], dirty[..], data[..], disk, view, b, n);
      }
    }

    /** Writes all dirty blocks to disk. */
    method UpdateDataCache()
      requires Valid()
      modifies this`disk, dirty
      ensures Valid() && disk == view
    {
      hide TagsOk, CleanOk, IsView;
      var i := 0;
      while i < size
        invariant 0 <= i <= size && Valid() && |disk| == old(|disk|)
        invariant forall k :: 0 <= k < i && dirty[k] ==> blocknr[k] == 0
      {
        CleanSlot(i);
        i := i + 1;
      }
      ViewSize(blocknr[..], data[..], disk, view);
      CleanRange(blocknr[..], dirty[..], data[..], disk, view, 0, |disk|);
      assert disk[0..|disk|] == disk && view[0..|view|] == view;
    }

    /** Empties the cache without writing anything: callers then see what is on disk. */
    method FlushDataCache()
      requires Valid()
      modifies this`view, blocknr
      ensures Valid() && view == disk
    {
      for i := 0 to size
        invariant blocknr.Length == size
        invariant forall k :: 0 <= k < i ==> blocknr[k] == 0
      {
        blocknr[i] := 0;
      }
      view := disk;
    }

    /** Reads n blocks from block b on; 0 is success. */
    method DiskRead(n: nat, b: nat) returns (error: nat, buffer: seq<Block>)
      requires Valid() && (b == NOBLOCK || n == 0 || (0 < b && b + n <= |disk|))
      modifies this, blocknr, dirty, data
      ensures Valid() && |disk| == old(|disk|) && view == old(view) && |view| == |disk|
      ensures error == if b == NOBLOCK then 1 else 0
      ensures error == 0 ==> |buffer| == n && (b + n <= |disk| ==> buffer == view[b..b + n])
    {
      hide TagsOk, CleanOk, IsView;
      ViewSize(blocknr[..], data[..], disk, view);
      error, buffer := 0, [];
      if b == NOBLOCK {
        error := 1;
      } else if n == 1 {
        var slot := CachedRead(b, false);
        buffer := [data[slot]];
      } else if n > 1 {
        ValidateCache(b, n, true);
        buffer := RawRead(n, b);
      }
    }

    /** Writes the blocks of the buffer from block b on; 0 is success. The last of several blocks
        stays in the cache. */
    method DiskWrite(buffer: seq<Block>, b: nat) returns (error: nat)
      requires Valid() && (b == NOBLOCK || buffer == [] || (0 < b && b + |buffer| <= |disk|))
      modifies this, blocknr, dirty, data
      ensures Valid() && |disk| == old(|disk|) == |view| == |old(view)|
      ensures error == if b == NOBLOCK then 1 else 0
      ensures error == 0 && b + |buffer| <= |disk| ==> view == Splice(old(view), b, buffer)
      ensures error != 0 || buffer == [] ==> view == old(view)
    {
      hide TagsOk, CleanOk, IsView;
      ViewSize(blocknr[..], data[..], disk, view);
      error := 0;
      if b == NOBLOCK {
        error := 1;
      } else if |buffer| == 1 {
        var _ := CachedWrite(buffer[0], b);
      } else if |buffer| > 1 {
        var n := |buffer|;
        ValidateCache(b, n, false);
        EmptyRange(old(blocknr[..]), dirty[..], data[..], disk, view, blocknr[..], b, n, buffer);
        RawWrite(buffer, b);
        view := Splice(view, b, buffer);
        NotCached(old(blocknr[..]), blocknr[..], b, n);
        var slot := CachedWrite(buffer[n - 1], b + n - 1);
        Restore(blocknr[..], dirty[..], data[..], disk, view, slot, data[slot], false, -1);
        assert data[..][slot := data[slot]] == data[..];
        dirty[slot] := false;
        assert Splice(old(view), b, buffer)[b + n - 1 := buffer[n - 1]] == Splice(old(view), b, buffer);
        assert view[blocknr[slot] := data[slot]] == view;
      }
    }
  }

  // ---------------------------------------------------------------------
  // Any run of requests behaves as on a plain disk

  datatype Request = Read(n: nat, b: nat) | Write(buffer: seq<Block>, b: nat) | Update

  predicate InRange(r: Request, blocks: nat) {
    match r
    case Read(n, b) => 0 < b < blocks && b + n <= blocks
    case Write(buffer, b) => 0 < b < blocks && b + |buffer| <= blocks
    case Update => true
  }

  function PlainStep(d: seq<Block>, r: Request): (d': seq<Block>)
    requires InRange(r, |d|)
    ensures |d'| == |d|
  {
    match r
    case Read(n, b) => d
    case Write(buffer, b) => Splice(d, b, buffer)
    case Update => d
  }

  function PlainOutput(d: seq<Block>, r: Request): seq<Block>
    requires InRange(r, |d|)
  {
    match r
    case Read(n, b) => d[b..b + n]
    case Write(buffer, b) => []
    case Update => []
  }

  ghost predicate AllInRange(run: seq<Request>, blocks: nat) {
    forall k :: 0 <= k < |run| ==> InRange(run[k], blocks)
  }

  /** A plain disk after a run of requests. */
  ghost function PlainDisk(d: seq<Block>, run: seq<Request>): (r: seq<Block>)
    requires AllInRange(run, |d|)
    ensures |r| == |d|
  {
    if run == [] then d else PlainStep(PlainDisk(d, run[..|run| - 1]), run[|run| - 1])
  }

  /** What the requests of a run return on a plain disk. */
  ghost function PlainOutputs(d: seq<Block>, run: seq<Request>): seq<seq<Block>>
    requires AllInRange(run, |d|)
  {
    if run == [] then [] else
      var before := run[..|run| - 1];
      PlainOutputs(d, before) + [PlainOutput(PlainDisk(d, before), run[|run| - 1])]
  }

  method ServeOne(cache: DataCache, r: Request) returns (output: seq<Block>)
    requires cache.Valid() && |cache.view| == |cache.disk| && InRange(r, |cache.view|)
    modifies cache, cache.blocknr, cache.dirty, cache.data
    ensures cache.Valid() && |cache.disk| == |cache.view| == old(|cache.view|)
    ensures cache.view == PlainStep(old(cache.view), r) && output == PlainOutput(old(cache.view), r)
    ensures r == Update ==> cache.disk == cache.view
  {
    hide TagsOk, CleanOk, IsView;
    output := [];
    match r {
      case Read(n, b) =>
        var _, buffer := cache.DiskRead(n, b);
        output := buffer;
      case Write(buffer, b) =>
        var _ := cache.DiskWrite(buffer, b);
      case Update =>
        cache.UpdateDataCache();
    }
  }

  /** Serves a run of requests. Each read returns what a plain disk would return at that point; at
      an update the disk is what the plain disk would be. */
  method Serve(cache: DataCache, run: seq<Request>) returns (outputs: seq<seq<Block>>)
    requires cache.Valid() && AllInRange(run, |cache.disk|) && |cache.view| == |cache.disk|
    modifies cache, cache.blocknr, cache.dirty, cache.data
    ensures cache.Valid()
    ensures cache.view == PlainDisk(old(cache.view), run)
    ensures outputs == PlainOutputs(old(cache.view), run)
    ensures |run| > 0 && run[|run| - 1] == Update ==> cache.disk == PlainDisk(old(cache.view), run)
  {
    hide TagsOk, CleanOk, IsView, PlainStep, PlainOutput, InRange;
    outputs := [];
    ghost var d0 := cache.view;
    var i := 0;
    while i < |run|
      invariant 0 <= i <= |run| && cache.Valid()
      invariant |cache.disk| == |d0|
      invariant cache.view == PlainDisk(d0, run[..i])
      invariant outputs == PlainOutputs(d0, run[..i])
      invariant i > 0 && run[i - 1] == Update ==> cache.disk == cache.view
    {
      assert run[..i + 1][..i] == run[..i];
      var output := ServeOne(cache, run[i]);
      outputs := outputs + [output];
      i := i + 1;
    }
    assert run[..i] == run;
  }
}
