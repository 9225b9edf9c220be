/** Anode chains: the extents of a file, the anode table that stores them on disk,
    and what freeing `size` blocks from the end of a chain means. */
module Extents {

  /** blocknr of an anode that has no block yet (~0). */
  const NOBLOCK: nat := 0xFFFF_FFFF
  /** Anodes below this number are reserved and are never cleared. */
  const ANODE_USERFIRST: nat := 6

  /** An anode as stored in the anode table. */
  datatype Anode = Anode(size: nat, blocknr: nat, next: nat)

  /** A cached anode of a chain: its number and its contents. */
  datatype Node = Node(nr: nat, blocknr: nat, size: nat, next: nat)

  type Table = map<nat, Anode>
  type Chain = seq<Node>

  function Stored(n: Node): Anode {
    Anode(n.size, n.blocknr, n.next)
  }

  /** What an anode looks like that may be handed out. */
  const FREEANODE := Anode(0, 0, 0)

  /** The contents FreeAnode leaves behind. */
  function Cleared(nr: nat): Anode {
    Anode(0, if nr < ANODE_USERFIRST then NOBLOCK else 0, 0)
  }

  /** The anode may be handed out by AllocAnode. */
  predicate Unused(t: Table, nr: nat) {
    nr >= ANODE_USERFIRST && (nr !in t || t[nr] == FREEANODE)
  }

  /** A freed anode may be handed out again, unless it is a reserved one: that stays marked as taken. */
  predicate Returned(t: Table, nr: nat) {
    nr in t && if nr < ANODE_USERFIRST then t[nr] == Anode(0, NOBLOCK, 0) else Unused(t, nr)
  }

  function Run(first: nat, n: nat): (r: seq<nat>)
    ensures |r| == n
  {
    seq(n, i requires 0 <= i < n => first + i)
  }

  function RunSet(first: nat, n: nat): (s: set<nat>)
    ensures forall b {:trigger b in s} :: b in s <==> first <= b < first + n
  {
    if n == 0 then {} else RunSet(first, n - 1) + {first + n - 1}
  }

  function SetOf(s: seq<nat>): set<nat> {
    set b | b in s
  }

  /** All blocks of a chain, in file order. */
  function Flat(c: Chain): seq<nat> {
    if c == [] then [] else
      var n := c[|c| - 1];
      Flat(c[..|c| - 1]) + Run(n.blocknr, n.size)
  }

  function BlockCount(c: Chain): (n: nat)
    ensures n == |Flat(c)|
  {
    if c == [] then 0 else BlockCount(c[..|c| - 1]) + c[|c| - 1].size
  }

  // ---------------------------------------------------------------------
  // What a chain looks like in the anode table

  ghost predicate Linked(c: Chain) {
    && |c| > 0
    && (forall k :: 0 <= k < |c| - 1 ==> c[k].next == c[k + 1].nr)
    && (forall k :: 1 <= k < |c| ==> c[k].nr != 0 && c[k].size > 0)
    && (forall j, k :: 0 <= j < k < |c| ==> c[j].nr != c[k].nr)
  }

  /** The table holds exactly chain c. */
  ghost predicate OnTable(t: Table, c: Chain) {
    && Linked(c)
    && c[|c| - 1].next == 0
    && forall k :: 0 <= k < |c| ==> c[k].nr in t && t[c[k].nr] == Stored(c[k])
  }

  /** As OnTable, except that the link of the last node is not yet cut. */
  ghost predicate OnTableButTail(t: Table, c: Chain) {
    && Linked(c)
    && (forall k :: 0 <= k < |c| ==> c[k].nr in t)
    && (forall k :: 0 <= k < |c| - 1 ==> t[c[k].nr] == Stored(c[k]))
    && var n := c[|c| - 1]; t[n.nr].size == n.size && t[n.nr].blocknr == n.blocknr
  }

  lemma {:induction false} NextNonzero(c: Chain, k: nat)
    requires Linked(c) && k < |c| - 1
    ensures c[k].next != 0
  {
    assert c[k].next == c[k + 1].nr;
  }

  /** A chain is determined by its head anode. */
  lemma {:induction false} ChainUnique(t: Table, c: Chain, d: Chain)
    requires OnTable(t, c) && OnTable(t, d) && c[0].nr == d[0].nr
    ensures c == d
  {
    var k := 0;
    while k < |c| && k < |d|
      invariant k <= |c| && k <= |d|
      invariant forall j :: 0 <= j < k ==> c[j] == d[j]
    {
      if k > 0 {
        assert c[k].nr == c[k - 1].next == d[k - 1].next == d[k].nr;
      }
      assert Stored(c[k]) == Stored(d[k]);
      k := k + 1;
    }
    if k < |d| {
      NextNonzero(d, k - 1);
    } else if k < |c| {
      NextNonzero(c, k - 1);
    }
  }

  // ---------------------------------------------------------------------
  // Freeing `size` blocks from the end of a chain

  function Last(c: Chain): Node
    requires |c| > 0
  {
    c[|c| - 1]
  }

  function EmptyHead(nr: nat): Node {
    Node(nr, NOBLOCK, 0, 0)
  }

  /** The chain that remains. */
  function Trunc(c: Chain, size: nat): (r: Chain)
    requires |c| > 0
    ensures 0 < |r| <= |c| && r[0].nr == c[0].nr
  {
    var n := Last(c);
    if size == 0 || size < n.size then c[..|c| - 1] + [n.(size := n.size - size, next := 0)]
    else if |c| == 1 then [EmptyHead(n.nr)]
    else Trunc(c[..|c| - 1], size - n.size)
  }

  /** The anode table that remains. */
  function TruncTable(t: Table, c: Chain, size: nat): Table
    requires |c| > 0
    decreases |c|
  {
    var n := Last(c);
    if size == 0 || size < n.size then t[n.nr := Anode(n.size - size, n.blocknr, 0)]
    else if |c| == 1 then t[n.nr := Stored(EmptyHead(n.nr))]
    else TruncTable(t[n.nr := Cleared(n.nr)], c[..|c| - 1], size - n.size)
  }

  /** How many blocks are freed: all there are, at most `size`. */
  function TailCount(c: Chain, size: nat): nat {
    if size < BlockCount(c) then size else BlockCount(c)
  }

  /** Which blocks are freed. */
  function TailBlocks(c: Chain, size: nat): set<nat>
    decreases |c|
  {
    if c == [] || size == 0 then {} else
      var n := Last(c);
      if size < n.size then RunSet(n.blocknr + n.size - size, size)
      else RunSet(n.blocknr, n.size) + TailBlocks(c[..|c| - 1], size - n.size)
  }

  /** The blocks that remain are the leading ones, in the same order. */
  lemma {:induction false} TruncFlat(c: Chain, size: nat)
    requires |c| > 0
    ensures Flat(Trunc(c, size)) == Flat(c)[..|Flat(c)| - TailCount(c, size)]
    decreases |c|
  {
    var n := Last(c);
    var d := c[..|c| - 1];
    if size == 0 || size < n.size {
      var m := n.(size := n.size - size, next := 0);
      assert Trunc(c, size)[..|c| - 1] == d;
      assert Run(n.blocknr, n.size)[..n.size - size] == Run(m.blocknr, m.size);
    } else if |c| == 1 {
      assert d == [];
      assert Flat(Trunc(c, size)) == [] by { assert Trunc(c, size)[..0] == []; }
    } else {
      TruncFlat(d, size - n.size);
    }
  }

  lemma {:induction false} RunIsRunSet(first: nat, n: nat)
    ensures SetOf(Run(first, n)) == RunSet(first, n)
  {
    forall b | b in RunSet(first, n)
      ensures b in Run(first, n)
    {
      assert Run(first, n)[b - first] == b;
    }
  }

  lemma {:induction false} SetOfConcat(a: seq<nat>, b: seq<nat>)
    ensures SetOf(a + b) == SetOf(a) + SetOf(b)
  {
  }

  /** The blocks freed are the trailing ones. */
  lemma {:induction false} TailBlocksFlat(c: Chain, size: nat)
    ensures TailBlocks(c, size) == SetOf(Flat(c)[|Flat(c)| - TailCount(c, size)..])
    decreases |c|
  {
    hide SetOf, RunSet, Run;
    var cut := |Flat(c)| - TailCount(c, size);
    if c == [] || size == 0 {
      assert Flat(c)[cut..] == [];
      SetOfNothing();
    } else {
      var n := Last(c);
      var d := c[..|c| - 1];
      if size < n.size {
        var first := n.blocknr + n.size - size;
        RunSuffix(n.blocknr, n.size, size);
        assert Flat(c)[cut..] == Run(first, size);
        RunIsRunSet(first, size);
      } else {
        TailBlocksFlat(d, size - n.size);
        RunIsRunSet(n.blocknr, n.size);
        assert Flat(c)[cut..] == Flat(d)[cut..] + Run(n.blocknr, n.size);
        SetOfConcat(Flat(d)[cut..], Run(n.blocknr, n.size));
      }
    }
  }

  lemma {:induction false} SetOfNothing()
    ensures SetOf([]) == {}
  {
  }

  lemma {:induction false} RunSuffix(first: nat, n: nat, size: nat)
    requires size <= n
    ensures Run(first, n)[n - size..] == Run(first + n - size, size)
  {
  }

  lemma {:induction false} Overwrite(t: Table, nr: nat, x: Anode)
    ensures forall y {:trigger t[nr := y]} :: t[nr := x][nr := y] == t[nr := y]
  {
  }

  /** Freeing a blocks and then b more is freeing a + b. */
  lemma {:induction false} TruncTwice(c: Chain, a: nat, b: nat)
    requires |c| > 0
    ensures Trunc(Trunc(c, a), b) == Trunc(c, a + b)
    decreases |c|
  {
    var n := Last(c);
    var d := c[..|c| - 1];
    if a == 0 || a < n.size {
      var ca := Trunc(c, a);
      assert Last(ca) == n.(size := n.size - a, next := 0) && ca[..|c| - 1] == d;
    } else if |c| > 1 {
      TruncTwice(d, a - n.size, b);
    }
  }

  lemma {:induction false} TruncTableTwice(t: Table, c: Chain, a: nat, b: nat)
    requires |c| > 0
    ensures TruncTable(TruncTable(t, c, a), Trunc(c, a), b) == TruncTable(t, c, a + b)
    decreases |c|
  {
    var n := Last(c);
    var d := c[..|c| - 1];
    if a == 0 || a < n.size {
      TruncTableStep(t, c, a, b);
    } else if |c| == 1 {
      Overwrite(t, n.nr, Stored(EmptyHead(n.nr)));
    } else {
      TruncTableTwice(t[n.nr := Cleared(n.nr)], d, a - n.size, b);
    }
  }

  lemma {:induction false} TruncTableStep(t: Table, c: Chain, a: nat, b: nat)
    requires |c| > 0 && (a == 0 || a < Last(c).size)
    ensures TruncTable(TruncTable(t, c, a), Trunc(c, a), b) == TruncTable(t, c, a + b)
  {
    var n := Last(c);
    var x := Anode(n.size - a, n.blocknr, 0);
    var ca := Trunc(c, a);
    assert Last(ca) == n.(size := n.size - a, next := 0) && ca[..|c| - 1] == c[..|c| - 1];
    Overwrite(t, n.nr, x);
    assert TruncTable(t, c, a) == t[n.nr := x];
    var m := Last(ca);
    if b == 0 || b < m.size {
      assert TruncTable(t[n.nr := x], ca, b) == t[n.nr := Anode(n.size - a - b, n.blocknr, 0)];
    } else if |c| > 1 {
      assert TruncTable(t[n.nr := x], ca, b) == TruncTable(t[n.nr := Cleared(n.nr)], ca[..|c| - 1], b - m.size);
    }
  }

  /** Anodes outside the chain are not touched. */
  lemma {:induction false} TruncOthers(t: Table, c: Chain, size: nat, nr: nat)
    requires |c| > 0
    requires forall k :: 0 <= k < |c| ==> c[k].nr != nr
    ensures var r := TruncTable(t, c, size);
            (nr in r <==> nr in t) && (nr in t ==> r[nr] == t[nr])
    decreases |c|
  {
    var n := Last(c);
    if !(size == 0 || size < n.size || |c| == 1) {
      TruncOthers(t[n.nr := Cleared(n.nr)], c[..|c| - 1], size - n.size, nr);
    }
  }

  lemma {:induction false} TruncNumbers(c: Chain, size: nat)
    requires |c| > 0
    ensures forall k :: 0 <= k < |Trunc(c, size)| ==> Trunc(c, size)[k].nr == c[k].nr
    decreases |c|
  {
    var n := Last(c);
    if !(size == 0 || size < n.size || |c| == 1) {
      TruncNumbers(c[..|c| - 1], size - n.size);
    }
  }

  /** Freeing touches no anode of another chain. */
  lemma {:induction false} TruncUntouched(t: Table, c: Chain, size: nat, foreign: Table)
    requires |c| > 0
    requires forall nr :: nr in foreign ==> nr in t && t[nr] == foreign[nr] != FREEANODE
    requires forall k :: 0 <= k < |c| ==> c[k].nr !in foreign
    ensures var r := TruncTable(t, c, size); forall nr :: nr in foreign ==> nr in r && r[nr] == foreign[nr] != FREEANODE
    ensures forall k :: 0 <= k < |Trunc(c, size)| ==> Trunc(c, size)[k].nr !in foreign
  {
    hide Trunc, TruncTable;
    TruncNumbers(c, size);
    forall nr | nr in foreign
      ensures nr in TruncTable(t, c, size) && TruncTable(t, c, size)[nr] == foreign[nr]
    {
      TruncOthers(t, c, size, nr);
    }
  }

  /** Every anode dropped from the chain is free to be handed out again. */
  lemma {:induction false} TruncClears(t: Table, c: Chain, size: nat, k: nat)
    requires Linked(c) && |Trunc(c, size)| <= k < |c|
    ensures var r := TruncTable(t, c, size); Returned(r, c[k].nr)
    decreases |c|
  {
    var n := Last(c);
    var d := c[..|c| - 1];
    if !(size == 0 || size < n.size || |c| == 1) {
      var t' := t[n.nr := Cleared(n.nr)];
      if k == |d| {
        TruncOthers(t', d, size - n.size, n.nr);
      } else {
        TruncClears(t', d, size - n.size, k);
      }
    }
  }

  /** What remains on the table is exactly the remaining chain. */
  lemma {:induction false} TruncOnTable(t: Table, c: Chain, size: nat)
    requires OnTableButTail(t, c)
    ensures OnTable(TruncTable(t, c, size), Trunc(c, size))
    decreases |c|
  {
    var n := Last(c);
    var d := c[..|c| - 1];
    if size == 0 || size < n.size {
      var r := Trunc(c, size);
      assert forall k :: 0 <= k < |d| ==> r[k] == c[k];
    } else if |c| > 1 {
      var t' := t[n.nr := Cleared(n.nr)];
      assert OnTableButTail(t', d) by {
        assert t[Last(d).nr] == Stored(Last(d));
        assert forall k :: 0 <= k < |d| ==> d[k].nr != n.nr;
      }
      TruncOnTable(t', d, size - n.size);
    }
  }

  /** Cutting the link of the last node changes neither the blocks nor what is freed next. */
  lemma {:induction false} CutKeeps(c: Chain, size: nat)
    requires |c| > 0
    ensures TailBlocks(Trunc(c, 0), size) == TailBlocks(c, size)
    ensures TailCount(Trunc(c, 0), size) == TailCount(c, size)
    ensures Flat(Trunc(c, 0)) == Flat(c)
  {
    var r := Trunc(c, 0);
    assert r[..|r| - 1] == c[..|c| - 1];
  }

  /** One step of freeing from the end: the whole last run, or part of it. */
  lemma {:induction false} FreeStep(c: Chain, size: nat)
    requires |c| > 0 && size > 0
    ensures var n := Last(c);
            if n.size <= size then
              && TailBlocks(c, size) == RunSet(n.blocknr, n.size) + TailBlocks(c[..|c| - 1], size - n.size)
              && TailCount(c, size) == n.size + TailCount(c[..|c| - 1], size - n.size)
            else
              && TailBlocks(c, size) == RunSet(n.blocknr + n.size - size, size)
              && TailCount(c, size) == size
  {
  }

  lemma {:induction false} TailOfEmptyHead(n: Node, size: nat)
    requires n.size == 0
    ensures TailBlocks([n], size) == {} && TailCount([n], size) == 0 && Flat([n]) == []
  {
    assert [n][..0] == [];
  }

  lemma {:induction false} TailOfNothing(size: nat)
    ensures TailBlocks([], size) == {} && TailCount([], size) == 0
  {
  }

  // ---------------------------------------------------------------------
  // A chain under construction

  /** Every node but the last is on the table; the last is there but perhaps out of date. */
  ghost predicate Open(t: Table, c: Chain) {
    && Linked(c)
    && Last(c).next == 0
    && (Last(c).blocknr == NOBLOCK ==> Last(c).size == 0)
    && (forall k :: 0 <= k < |c| ==> c[k].nr in t && t[c[k].nr] != FREEANODE)
    && (forall k :: 0 <= k < |c| - 1 ==> t[c[k].nr] == Stored(c[k]))
  }

  lemma {:induction false} GrowLast(c: Chain, b: nat)
    requires |c| > 0
    ensures var n := Last(c);
            && (n.size == 0 ==> Flat(c[|c| - 1 := Node(n.nr, b, 1, 0)]) == Flat(c) + [b])
            && (n.blocknr + n.size == b ==> Flat(c[|c| - 1 := n.(size := n.size + 1)]) == Flat(c) + [b])
  {
    var n := Last(c);
    var d, e := c[|c| - 1 := Node(n.nr, b, 1, 0)], c[|c| - 1 := n.(size := n.size + 1)];
    assert d[..|c| - 1] == c[..|c| - 1] == e[..|c| - 1];
    assert Run(b, 1) == [b];
    if n.blocknr + n.size == b {
      assert Run(n.blocknr, n.size + 1) == Run(n.blocknr, n.size) + [b];
    }
  }

  lemma {:induction false} GrowNew(c: Chain, b: nat, nr: nat)
    requires |c| > 0
    ensures Flat(c[|c| - 1 := Last(c).(next := nr)] + [Node(nr, b, 1, 0)]) == Flat(c) + [b]
  {
    var d := c[|c| - 1 := Last(c).(next := nr)];
    assert d[..|c| - 1] == c[..|c| - 1];
    assert Flat(d) == Flat(c);
    assert (d + [Node(nr, b, 1, 0)])[..|c|] == d;
    assert Run(b, 1) == [b];
  }

  /** d starts with the anodes of c; only the last of them may have grown. A position in c, given
      as an anode and an offset, is the same position in d. */
  ghost predicate Prolongs(c: Chain, d: Chain) {
    && 0 < |c| <= |d|
    && (forall k :: 0 <= k < |c| ==> d[k].nr == c[k].nr)
    && (forall k :: 0 <= k < |c| - 1 ==> d[k].size == c[k].size)
    && d[|c| - 1].size >= c[|c| - 1].size
  }

  lemma {:induction false} SameSizes(c: Chain, d: Chain)
    requires |c| == |d| && forall k :: 0 <= k < |c| ==> d[k].size == c[k].size
    ensures BlockCount(c) == BlockCount(d)
  {
    if c != [] {
      SameSizes(c[..|c| - 1], d[..|d| - 1]);
    }
  }

  /** Taking off again what was added leaves positions in place. */
  lemma {:induction false} ProlongsTrunc(c: Chain, d: Chain, size: nat)
    requires Prolongs(c, d) && BlockCount(d) == BlockCount(c) + size
    requires Linked(c) && Linked(d)
    ensures Prolongs(c, Trunc(d, size))
    decreases |d|
  {
    var n := Last(d);
    if |c| == |d| {
      SameSizes(c[..|c| - 1], d[..|d| - 1]);
    } else if size >= n.size {
      ProlongsTrunc(c, d[..|d| - 1], size - n.size);
    }
  }

  lemma {:induction false} Bounded(s: set<nat>) returns (m: nat)
    ensures forall x :: x in s ==> x < m
    decreases s
  {
    m := 0;
    if s != {} {
      var x :| x in s;
      var k := Bounded(s - {x});
      m := if x < k then k else x + 1;
      forall y | y in s ensures y < m { assert y == x || y in s - {x}; }
    }
  }

  lemma {:induction false} FreeAnodeExists(t: Table)
    ensures exists nr: nat :: Unused(t, nr)
  {
    var m := Bounded(t.Keys);
    var nr := if m < ANODE_USERFIRST then ANODE_USERFIRST else m;
    assert nr !in t.Keys && Unused(t, nr);
  }

  /** Saving the last node completes the chain on the table. */
  lemma {:induction false} CloseChain(t: Table, c: Chain)
    requires Open(t, c) && (Last(c).size > 0 || |c| == 1)
    ensures OnTable(t[Last(c).nr := Stored(Last(c))], c)
    ensures Stored(Last(c)) != FREEANODE ==> Open(t[Last(c).nr := Stored(Last(c))], c)
  {
  }

  /** No anode of the chain looks like a free one, and one without a block has no length. */
  ghost predicate Allocatable(c: Chain) {
    forall k :: 0 <= k < |c| ==> c[k].blocknr != 0 && (c[k].blocknr == NOBLOCK <==> c[k].size == 0)
  }
}
