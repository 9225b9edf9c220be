/** Positions in a file: an anode of its chain and a block offset in it (PFS3lib/anodes.cpp). */
module Positions {
  import opened Extents

  /** The file block that offset a from the k-th anode denotes; a may reach past that anode. */
  function BlockIndex(c: Chain, k: nat, a: nat): nat
    requires k < |c|
  {
    BlockCount(c[..k]) + a
  }

  datatype Position = Position(currnode: nat, anodeoffset: nat)

  /** The same position with an offset inside the anode, or in the last anode. */
  function Corrected(c: Chain, k: nat, a: nat): (p: Position)
    requires k < |c|
    ensures p.currnode < |c|
    decreases |c| - k
  {
    if a < c[k].size || k + 1 == |c| then Position(k, a) else Corrected(c, k + 1, a - c[k].size)
  }

  predicate InAnode(c: Chain, p: Position) {
    p.currnode < |c| && (p.anodeoffset < c[p.currnode].size || p.currnode + 1 == |c|)
  }

  lemma {:induction false} CountSnoc(c: Chain, k: nat)
    requires k < |c|
    ensures BlockCount(c[..k + 1]) == BlockCount(c[..k]) + c[k].size
  {
    assert c[..k + 1][..k] == c[..k];
  }

  lemma {:induction false} CountMono(c: Chain, j: nat, k: nat)
    requires j <= k <= |c|
    ensures BlockCount(c[..j]) <= BlockCount(c[..k])
    decreases k - j
  {
    if j < k {
      CountMono(c, j, k - 1);
      CountSnoc(c, k - 1);
    }
  }

  /** Correcting a position does not move it. */
  lemma {:induction false} CorrectedKeeps(c: Chain, k: nat, a: nat)
    requires k < |c|
    ensures var p := Corrected(c, k, a);
            BlockIndex(c, p.currnode, p.anodeoffset) == BlockIndex(c, k, a) && InAnode(c, p)
    decreases |c| - k
  {
    if !(a < c[k].size || k + 1 == |c|) {
      CountSnoc(c, k);
      CorrectedKeeps(c, k + 1, a - c[k].size);
    }
  }

  /** A corrected position is determined by the block it denotes. */
  lemma {:induction false} PositionUnique(c: Chain, p: Position, q: Position)
    requires InAnode(c, p) && InAnode(c, q)
    requires BlockIndex(c, p.currnode, p.anodeoffset) == BlockIndex(c, q.currnode, q.anodeoffset)
    ensures p == q
  {
    if p.currnode < q.currnode {
      CountSnoc(c, p.currnode);
      CountMono(c, p.currnode + 1, q.currnode);
    } else if q.currnode < p.currnode {
      CountSnoc(c, q.currnode);
      CountMono(c, q.currnode + 1, p.currnode);
    }
  }

  /** Correcting any description of a block gives what a walk from the head of the chain gives. */
  lemma {:induction false} CorrectedFromHead(c: Chain, k: nat, a: nat)
    requires k < |c|
    ensures Corrected(c, k, a) == Corrected(c, 0, BlockIndex(c, k, a))
  {
    hide Corrected;
    var n := BlockIndex(c, k, a);
    CorrectedKeeps(c, k, a);
    CorrectedKeeps(c, 0, n);
    PositionUnique(c, Corrected(c, k, a), Corrected(c, 0, n));
  }

  lemma {:induction false} StaysPut(c: Chain, k: nat, a: nat)
    requires InAnode(c, Position(k, a))
    ensures Corrected(c, 0, BlockIndex(c, k, a)) == Position(k, a)
  {
    CorrectedFromHead(c, k, a);
  }

  lemma {:induction false} FlatAt(c: Chain, k: nat, a: nat)
    requires k < |c| && a < c[k].size
    ensures BlockIndex(c, k, a) < |Flat(c)| && Flat(c)[BlockIndex(c, k, a)] == c[k].blocknr + a
  {
    var d := c[..|c| - 1];
    if k == |d| {
      assert c[..k] == d;
    } else {
      FlatAt(d, k, a);
      assert d[..k] == c[..k];
    }
  }

  /** The blocks from a corrected position on are consecutive as far as the anode reaches. */
  lemma {:induction false} FlatRun(c: Chain, k: nat, a: nat, t: nat)
    requires k < |c| && a + t <= c[k].size
    ensures BlockIndex(c, k, a) + t <= |Flat(c)|
    ensures var p := BlockIndex(c, k, a); forall j :: p <= j < p + t ==> Flat(c)[j] == c[k].blocknr + a + (j - p)
  {
    CountSnoc(c, k);
    CountMono(c, k + 1, |c|);
    assert c[..|c|] == c;
    var p := BlockIndex(c, k, a);
    forall j | p <= j < p + t
      ensures Flat(c)[j] == c[k].blocknr + a + (j - p)
    {
      FlatAt(c, k, a + (j - p));
    }
  }

  /** Short of the end of the chain, a corrected position lies inside its anode. */
  lemma {:induction false} InsideAnode(c: Chain, p: Position)
    requires InAnode(c, p) && BlockIndex(c, p.currnode, p.anodeoffset) < BlockCount(c)
    ensures p.anodeoffset < c[p.currnode].size
  {
    if p.currnode + 1 == |c| {
      CountSnoc(c, p.currnode);
      assert c[..|c|] == c;
    }
  }

  /** A position stays where it is when the chain grows. */
  lemma {:induction false} ProlongsIndex(c: Chain, d: Chain, k: nat, a: nat)
    requires Prolongs(c, d) && k < |c|
    ensures BlockIndex(d, k, a) == BlockIndex(c, k, a)
  {
    SameSizes(c[..k], d[..k]);
  }

  /** After the chain has grown, a corrected position is corrected still, or right behind an anode that
      was the last one. */
  lemma {:induction false} ProlongsPosition(c: Chain, d: Chain, k: nat, a: nat)
    requires Prolongs(c, d) && InAnode(c, Position(k, a)) && BlockIndex(c, k, a) <= BlockCount(c)
    ensures InAnode(d, Position(k, a)) <==> !(k == |c| - 1 < |d| - 1 && a == c[k].size == d[k].size)
    ensures InAnode(d, Position(k, a)) || a == d[k].size
  {
    CountSnoc(c, |c| - 1);
    assert c[..|c|] == c;
  }

  /** Freeing from the end leaves the anodes before the last one that remains, and shortens that. */
  lemma {:induction false} TruncShape(c: Chain, size: nat)
    requires |c| > 0
    ensures var d := Trunc(c, size);
            d[..|d| - 1] == c[..|d| - 1] && d[|d| - 1].size <= c[|d| - 1].size
    decreases |c|
  {
    var n := Last(c);
    var e := c[..|c| - 1];
    if size == 0 || size < n.size {
      assert Trunc(c, size) == e + [n.(size := n.size - size, next := 0)];
      hide Trunc;
    } else if |c| > 1 {
      var d := Trunc(e, size - n.size);
      assert Trunc(c, size) == d;
      hide Trunc;
      TruncShape(e, size - n.size);
      assert e[..|d| - 1] == c[..|d| - 1];
    } else {
      assert Trunc(c, size) == [EmptyHead(n.nr)];
      hide Trunc;
    }
  }

  /** A position in what remains stays where it is. */
  lemma {:induction false} TruncPosition(c: Chain, size: nat, k: nat, a: nat)
    requires k < |c| && BlockIndex(c, k, a) < BlockCount(Trunc(c, size))
    ensures var d := Trunc(c, size); k < |d| && BlockIndex(d, k, a) == BlockIndex(c, k, a)
  {
    hide Trunc;
    var d := Trunc(c, size);
    TruncShape(c, size);
    CountSnoc(c, |d| - 1);
    if k < |d| {
      assert d[..|d| - 1][..k] == d[..k] && c[..|d| - 1][..k] == c[..k];
    } else {
      CountMono(c, |d|, k);
    }
  }

  /** Moves an offset that is past its anode on to the anode it falls in; false if there is none. */
  method CorrectAnodeAC(c: Chain, k0: nat, a0: nat) returns (found: bool, k: nat, a: nat)
    requires k0 < |c|
    ensures Position(k, a) == Corrected(c, k0, a0)
    ensures found <==> BlockIndex(c, k0, a0) < BlockCount(c)
  {
    CorrectedKeeps(c, k0, a0);
    k, a := k0, a0;
    while a >= c[k].size
      invariant k < |c| && Corrected(c, k, a) == Corrected(c, k0, a0)
      invariant BlockIndex(c, k, a) == BlockIndex(c, k0, a0)
      decreases |c| - k
    {
      if k + 1 == |c| {
        CountSnoc(c, k);
        assert c[..|c|] == c;
        return false, k, a;
      }
      CountSnoc(c, k);
      a := a - c[k].size;
      k := k + 1;
    }
    FlatAt(c, k, a);
    found := true;
  }

  method NextBlockAC(c: Chain, k0: nat, a0: nat) returns (found: bool, k: nat, a: nat)
    requires k0 < |c|
    ensures Position(k, a) == Corrected(c, k0, a0 + 1)
    ensures found <==> BlockIndex(c, k0, a0) + 1 < BlockCount(c)
  {
    found, k, a := CorrectAnodeAC(c, k0, a0 + 1);
  }

  lemma {:induction false} ZeroIsLast(t: Table, c: Chain, k: nat)
    requires OnTable(t, c) && k < |c|
    ensures c[k].next == 0 <==> k + 1 == |c|
  {
    if k + 1 < |c| { NextNonzero(c, k); }
  }

  /** The same on the anode table, without a chain in memory; it arrives at the same anode. */
  method CorrectAnode(t: Table, anode0: Node, a0: nat, ghost c: Chain, ghost k0: nat) returns (found: bool, anode: Node, a: nat)
    requires OnTable(t, c) && k0 < |c| && anode0 == c[k0]
    ensures var p := Corrected(c, k0, a0); anode == c[p.currnode] && a == p.anodeoffset
    ensures found <==> BlockIndex(c, k0, a0) < BlockCount(c)
  {
    CorrectedKeeps(c, k0, a0);
    anode, a := anode0, a0;
    ghost var k := k0;
    while a >= anode.size
      invariant k < |c| && anode == c[k] && Corrected(c, k, a) == Corrected(c, k0, a0)
      invariant BlockIndex(c, k, a) == BlockIndex(c, k0, a0)
      decreases |c| - k
    {
      CountSnoc(c, k);
      if anode.next == 0 {
        ZeroIsLast(t, c, k);
        assert c[..|c|] == c;
        return false, anode, a;
      }
      a := a - anode.size;
      anode := Node(anode.next, t[anode.next].blocknr, t[anode.next].size, t[anode.next].next);
      k := k + 1;
    }
    FlatAt(c, k, a);
    found := true;
  }
}
