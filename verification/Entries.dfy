/** Directory blocks (PFS3lib/directory.cpp): entries of different lengths, packed one behind the
    other. The first byte of an entry is its length; a zero ends the block. */
module Entries {
  type BlockSpace = n: nat | n > 256 witness 1004

  /** Bytes for entries in a directory block. */
  const DB_ENTRYSPACE: BlockSpace

  type Entry = seq<bv8>

  predicate EntryOk(e: Entry) {
    0 < |e| < 0x100 && e[0] as nat == |e|
  }

  /** Entries as they stand in a block. */
  function Enc(x: seq<Entry>): seq<bv8> {
    if x == [] then [] else Enc(x[..|x| - 1]) + x[|x| - 1]
  }

  /** Where the k-th entry starts. */
  function Off(x: seq<Entry>, k: nat): nat
    requires k <= |x|
  {
    |Enc(x[..k])|
  }

  ghost predicate AllOk(x: seq<Entry>) {
    forall k :: 0 <= k < |x| ==> EntryOk(x[k])
  }

  /** The block holds exactly these entries. */
  ghost predicate Holds(b: seq<bv8>, x: seq<Entry>) {
    && |b| == DB_ENTRYSPACE && AllOk(x)
    && |Enc(x)| < |b| && b[..|Enc(x)|] == Enc(x) && b[|Enc(x)|] == 0
  }

  /** The entry at a position. */
  function At(b: seq<bv8>, pos: nat): Entry {
    if pos < |b| && pos + b[pos] as nat <= |b| then b[pos..pos + b[pos] as nat] else []
  }

  /** An entry starts here. */
  ghost predicate Boundary(x: seq<Entry>, pos: nat) {
    exists k :: 0 <= k < |x| && Off(x, k) == pos
  }

  lemma {:induction false} EncSum(x: seq<Entry>, y: seq<Entry>)
    ensures Enc(x + y) == Enc(x) + Enc(y)
  {
    if y == [] {
      assert x + y == x;
    } else {
      EncSum(x, y[..|y| - 1]);
      assert (x + y)[..|x + y| - 1] == x + y[..|y| - 1];
    }
  }

  lemma {:induction false} EncOne(e: Entry)
    ensures Enc([e]) == e
  {
    assert [e][..0] == [];
  }

  /** The k-th entry within the encoding. */
  lemma {:induction false} EncAt(x: seq<Entry>, k: nat)
    requires k < |x|
    ensures Enc(x) == Enc(x[..k]) + x[k] + Enc(x[k + 1..])
    ensures Off(x, k + 1) == Off(x, k) + |x[k]| <= |Enc(x)|
  {
    hide Enc;
    EncSum(x[..k], x[k..]);
    EncSum([x[k]], x[k + 1..]);
    EncOne(x[k]);
    assert x == x[..k] + x[k..];
    assert x[k..] == [x[k]] + x[k + 1..];
    EncSum(x[..k], [x[k]]);
    assert x[..k + 1] == x[..k] + [x[k]];
    EncSum(x[..k + 1], x[k + 1..]);
    assert x == x[..k + 1] + x[k + 1..];
  }

  lemma {:induction false} OffOrder(x: seq<Entry>, j: nat, k: nat)
    requires AllOk(x) && j < k <= |x|
    ensures Off(x, j) < Off(x, k) && Off(x, j) + |x[j]| <= Off(x, k)
    decreases k - j
  {
    hide Enc, Off;
    EncAt(x, k - 1);
    if j < k - 1 {
      OffOrder(x, j, k - 1);
    }
  }

  lemma {:induction false} OffEnd(x: seq<Entry>)
    ensures Off(x, |x|) == |Enc(x)| && Off(x, 0) == 0
  {
    assert x[..|x|] == x && x[..0] == [];
  }

  /** What stands where the k-th entry starts. */
  lemma {:induction false} AtIs(b: seq<bv8>, x: seq<Entry>, k: nat)
    requires Holds(b, x) && k < |x|
    ensures At(b, Off(x, k)) == x[k] && Off(x, k) + |x[k]| <= |Enc(x)| < |b| && b[Off(x, k)] as nat == |x[k]|
  {
    hide Enc;
    EncAt(x, k);
    var p, n := Off(x, k), |x[k]|;
    SliceOfPrefix(b, |Enc(x)|, p, n);
    SliceOfParts(Enc(x[..k]), x[k], Enc(x[k + 1..]));
    assert b[p] == x[k][0];
  }

  lemma {:induction false} SliceOfPrefix(b: seq<bv8>, m: nat, p: nat, n: nat)
    requires p + n <= m <= |b|
    ensures b[..m][p..p + n] == b[p..p + n]
    ensures n > 0 ==> b[p..p + n][0] == b[p]
  {
  }

  lemma {:induction false} SliceOfParts(a: seq<bv8>, e: seq<bv8>, c: seq<bv8>)
    ensures (a + e + c)[|a|..|a| + |e|] == e
  {
  }

  lemma {:induction false} BoundaryIs(b: seq<bv8>, x: seq<Entry>, pos: nat) returns (k: nat)
    requires Holds(b, x) && Boundary(x, pos)
    ensures k < |x| && Off(x, k) == pos && At(b, pos) == x[k] && |x[k]| > 0
  {
    hide Enc;
    k :| 0 <= k < |x| && Off(x, k) == pos;
    AtIs(b, x, k);
  }

  /** A block can be read in one way only. */
  lemma {:induction false} OneReading(b: seq<bv8>, x: seq<Entry>, y: seq<Entry>)
    requires Holds(b, x) && Holds(b, y)
    ensures x == y
  {
    var k := 0;
    while k < |x| && k < |y|
      invariant k <= |x| && k <= |y| && x[..k] == y[..k]
    {
      AtIs(b, x, k);
      AtIs(b, y, k);
      assert x[..k + 1] == x[..k] + [x[k]] && y[..k + 1] == y[..k] + [y[k]];
      k := k + 1;
    }
    assert x[..|x|] == x && y[..|y|] == y;
    if k == |y| { NotEnd(b, x, y); } else { NotEnd(b, y, x); }
  }

  lemma {:induction false} NotEnd(b: seq<bv8>, x: seq<Entry>, y: seq<Entry>)
    requires Holds(b, x) && Holds(b, y) && |y| <= |x| && x[..|y|] == y
    ensures |x| == |y|
  {
    hide Enc;
    if |y| < |x| {
      AtIs(b, x, |y|);
      OffEnd(y);
    }
  }

  // ---------------------------------------------------------------------
  // Edits

  /** memmove(b + dest, b + start, len), and the like. */
  function Copied(b: seq<bv8>, dest: nat, bytes: seq<bv8>): (r: seq<bv8>)
    requires dest + |bytes| <= |b|
    ensures |r| == |b|
  {
    b[..dest] + bytes + b[dest + |bytes|..]
  }

  function Zeros(n: nat): (r: seq<bv8>)
    ensures |r| == n
  {
    seq(n, i => 0)
  }

  /** The entry at pos shifted out. The space gained is cleared only if an entry follows; else the end
      of the block stays as it was. */
  function Removed(b: seq<bv8>, pos: nat, n: nat): (r: seq<bv8>)
    requires pos + n <= |b|
    ensures |r| == |b|
  {
    var moved := Copied(b, pos, b[pos + n..]);
    if pos < |b| - n && moved[pos] == 0 then moved else Copied(moved, |b| - n, Zeros(n))
  }

  function Without(x: seq<Entry>, k: nat): seq<Entry>
    requires k < |x|
  {
    x[..k] + x[k + 1..]
  }

  lemma {:induction false} RemoveHolds(b: seq<bv8>, x: seq<Entry>, k: nat)
    requires Holds(b, x) && k < |x|
    ensures Off(x, k) + |x[k]| <= |b| && Holds(Removed(b, Off(x, k), |x[k]|), Without(x, k))
  {
    hide Enc, EntryOk, Removed, Off;
    EncWithout(x, k);
    RemovedTail(b, Off(x, k), |x[k]|, Enc(x));
    assert AllOk(Without(x, k));
  }

  lemma {:induction false} EncWithout(x: seq<Entry>, k: nat)
    requires k < |x|
    ensures Off(x, k) + |x[k]| <= |Enc(x)|
    ensures Enc(Without(x, k)) == Enc(x)[..Off(x, k)] + Enc(x)[Off(x, k) + |x[k]|..]
  {
    hide Enc;
    EncAt(x, k);
    EncSum(x[..k], x[k + 1..]);
  }

  lemma {:induction false} RemovedAt(b: seq<bv8>, p: nat, n: nat, i: nat)
    requires p + n <= |b| && i < |b| - n
    ensures Removed(b, p, n)[i] == if i < p then b[i] else b[i + n]
  {
  }

  /** What a block that starts with e and an end mark starts with afterwards. */
  lemma {:induction false} RemovedTail(b: seq<bv8>, p: nat, n: nat, e: seq<bv8>)
    requires p + n <= |e| < |b| && b[..|e|] == e && b[|e|] == 0
    ensures var r := Removed(b, p, n); r[..|e| - n] == e[..p] + e[p + n..] && r[|e| - n] == 0
  {
    var r := Removed(b, p, n);
    var x, y := r[..|e| - n], b[..p] + b[p + n..|e|];
    forall i | 0 <= i < |e| - n
      ensures x[i] == y[i]
    {
      RemovedAt(b, p, n, i);
    }
    assert b[..|e|][..p] == b[..p] && b[..|e|][p + n..] == b[p + n..|e|];
  }

  /** Entries before the removed one stay, entries behind it move down. */
  lemma {:induction false} RemoveOff(x: seq<Entry>, k: nat, j: nat)
    requires k < |x| && j <= |x| && j != k
    ensures if j < k then Off(Without(x, k), j) == Off(x, j) && (j < |x| ==> Without(x, k)[j] == x[j])
            else Off(Without(x, k), j - 1) == Off(x, j) - |x[k]| && (j < |x| ==> Without(x, k)[j - 1] == x[j])
  {
    hide Enc;
    var y := Without(x, k);
    if j < k {
      assert y[..j] == x[..j];
    } else {
      assert y[..j - 1] == x[..k] + x[k + 1..j];
      EncSum(x[..k], x[k + 1..j]);
      EncAt(x[..j], k);
      assert x[..j][..k] == x[..k] && x[..j][k + 1..] == x[k + 1..j];
    }
  }

  /** An entry and a new end mark behind the last entry. */
  lemma {:induction false} AppendHolds(b: seq<bv8>, x: seq<Entry>, e: Entry)
    requires Holds(b, x) && EntryOk(e) && |Enc(x)| + |e| < |b|
    ensures Holds(Copied(b, |Enc(x)|, e + [0]), x + [e])
  {
    hide Enc, EntryOk;
    EncSum(x, [e]);
    EncOne(e);
    var r, q := Copied(b, |Enc(x)|, e + [0]), |Enc(x)|;
    assert r[..q + |e|] == Enc(x) + e;
  }

  lemma {:induction false} AppendOff(x: seq<Entry>, e: Entry, j: nat)
    requires j <= |x|
    ensures Off(x + [e], j) == Off(x, j) && (j < |x| ==> (x + [e])[j] == x[j])
  {
    assert (x + [e])[..j] == x[..j];
  }

  /** The entry at pos replaced by e, what follows moved up or down. */
  function Replaced(b: seq<bv8>, pos: nat, n: nat, e: Entry): (r: seq<bv8>)
    requires pos + n <= |b| && pos + |e| <= |b|
    ensures |r| == |b|
  {
    var moved := if |e| > n then Copied(b, pos + |e|, b[pos + n..|b| - (|e| - n)])
                 else Copied(b, pos + |e|, b[pos + n..]);
    Copied(moved, pos, e)
  }

  lemma {:induction false} ReplaceHolds(b: seq<bv8>, x: seq<Entry>, k: nat, e: Entry)
    requires Holds(b, x) && k < |x| && EntryOk(e) && |Enc(x)| - |x[k]| + |e| < |b|
    ensures Off(x, k) + |x[k]| <= |b| && Off(x, k) + |e| <= |b|
    ensures Holds(Replaced(b, Off(x, k), |x[k]|, e), x[k := e])
  {
    hide Enc, EntryOk, Replaced;
    EncAt(x, k);
    var y := x[k := e];
    EncAt(y, k);
    assert y[..k] == x[..k] && y[k + 1..] == x[k + 1..];
    var p, n, enc, tail := Off(x, k), |x[k]|, Enc(x), Enc(x[k + 1..]);
    var m := |enc| - n + |e|;
    assert enc[p + n..] == tail && enc[..p] == Enc(x[..k]);
    ReplacedTail(b, p, n, e, enc);
    var r := Replaced(b, p, n, e);
    assert Enc(y) == enc[..p] + e + enc[p + n..];
  }

  /** What a block that starts with enc and an end mark starts with afterwards. */
  lemma {:induction false} ReplacedTail(b: seq<bv8>, p: nat, n: nat, e: Entry, enc: seq<bv8>)
    requires p + n <= |enc| < |b| && |enc| - n + |e| < |b| && b[..|enc|] == enc && b[|enc|] == 0
    ensures p + |e| <= |b|
    ensures var r, m := Replaced(b, p, n, e), |enc| - n + |e|;
            r[..m] == enc[..p] + e + enc[p + n..] && r[m] == 0
  {
    hide Replaced;
    var r, m, z := Replaced(b, p, n, e), |enc| - n + |e|, enc[..p] + e + enc[p + n..];
    forall i | 0 <= i <= m
      ensures r[i] == if i < m then z[i] else 0
    {
      ReplacedAt(b, p, n, e, i);
      if i < p {
        assert b[i] == b[..|enc|][i];
      } else if p + |e| <= i < m {
        assert b[i - |e| + n] == b[..|enc|][i - |e| + n];
      }
    }
  }

  lemma {:induction false} ReplacedAt(b: seq<bv8>, p: nat, n: nat, e: Entry, i: nat)
    requires p + n <= |b| && p + |e| <= |b| && i < |b| && (i >= p + |e| ==> i - |e| + n < |b|)
    ensures Replaced(b, p, n, e)[i] == if i < p then b[i] else if i < p + |e| then e[i - p] else b[i - |e| + n]
  {
  }

  lemma {:induction false} ReplaceOff(x: seq<Entry>, k: nat, e: Entry, j: nat)
    requires k < |x| && j <= |x|
    ensures Off(x[k := e], j) == if j <= k then Off(x, j) else Off(x, j) - |x[k]| + |e|
  {
    hide Enc;
    var y := x[k := e];
    if j <= k {
      assert y[..j] == x[..j];
    } else {
      EncAt(x[..j], k);
      EncAt(y[..j], k);
      assert x[..j][..k] == x[..k] && y[..j][..k] == x[..k] && x[..j][k + 1..] == y[..j][k + 1..];
    }
  }
}
