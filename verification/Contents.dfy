/** The bytes of a file: the blocks of its chain, in order, cut to the file size. */
module Contents {
  import opened DataCaches

  /** Where file block p starts. */
  function At(p: nat): nat {
    p * BLOCKSIZE
  }

  /** The file block a byte is in, and where in it (shift and mask by the block size). */
  function Shift(n: nat): nat {
    n / BLOCKSIZE
  }

  function Mask(n: nat): (r: nat)
    ensures r < BLOCKSIZE
  {
    n % BLOCKSIZE
  }

  lemma {:induction false} AtSum(p: nat, q: nat)
    ensures At(p + q) == At(p) + At(q) && At(0) == 0 && At(1) == BLOCKSIZE
  {
  }

  lemma {:induction false} AtMono(p: nat, q: nat)
    requires p <= q
    ensures At(p) <= At(q)
  {
    var d := q - p;
    AtSum(p, d);
  }

  lemma {:induction false} AtStrict(p: nat, q: nat)
    requires At(p) < At(q)
    ensures p < q
  {
    if q <= p { AtMono(q, p); }
  }

  lemma {:induction false} Parts(n: nat)
    ensures n == At(Shift(n)) + Mask(n)
  {
  }

  /** The block and the offset of a byte are determined. */
  lemma {:induction false} PartsUnique(n: nat, q: nat, r: nat)
    requires n == At(q) + r && r < BLOCKSIZE
    ensures Shift(n) == q && Mask(n) == r
  {
    Parts(n);
    var p := Shift(n);
    if p < q { AtMono(p + 1, q); AtSum(p, 1); }
    if q < p { AtMono(q + 1, p); AtSum(q, 1); }
  }

  function Concat(buffer: seq<Block>): seq<bv8> {
    if buffer == [] then [] else Concat(buffer[..|buffer| - 1]) + buffer[|buffer| - 1]
  }

  lemma {:induction false} ConcatSize(buffer: seq<Block>)
    ensures |Concat(buffer)| == At(|buffer|)
  {
    if buffer == [] { AtSum(0, 0); } else {
      ConcatSize(buffer[..|buffer| - 1]);
      AtSum(|buffer| - 1, 1);
    }
  }

  lemma {:induction false} ConcatNone(buffer: seq<Block>)
    requires buffer == []
    ensures Concat(buffer) == []
  {
  }

  lemma {:induction false} ConcatSum(x: seq<Block>, y: seq<Block>)
    ensures Concat(x + y) == Concat(x) + Concat(y)
  {
    if y == [] {
      assert x + y == x;
    } else {
      ConcatSum(x, y[..|y| - 1]);
      assert (x + y)[..|x + y| - 1] == x + y[..|y| - 1];
    }
  }

  lemma {:induction false} ConcatSlice(x: seq<Block>, i: nat, j: nat)
    requires i <= j <= |x|
    ensures At(i) <= At(j) <= |Concat(x)| && Concat(x)[At(i)..At(j)] == Concat(x[i..j])
  {
    hide At, Concat;
    AtMono(i, j);
    AtMono(j, |x|);
    ConcatSize(x);
    ConcatSize(x[..i]);
    ConcatSize(x[..j]);
    assert x == x[..j] + x[j..];
    ConcatSum(x[..j], x[j..]);
    assert x[..j] == x[..i] + x[i..j];
    ConcatSum(x[..i], x[i..j]);
  }

  lemma {:induction false} ConcatOne(b: Block)
    ensures Concat([b]) == b
  {
    assert [b][..0] == [];
  }

  lemma {:induction false} ConcatSplice(x: seq<Block>, i: nat, y: seq<Block>)
    requires i + |y| <= |x|
    ensures At(i) + |Concat(y)| <= |Concat(x)| && Concat(Splice(x, i, y)) == Splice(Concat(x), At(i), Concat(y))
  {
    hide At, Concat;
    var j := i + |y|;
    ConcatSize(x);
    ConcatSize(y);
    AtSum(i, |y|);
    ConcatSlice(x, 0, i);
    ConcatSlice(x, j, |x|);
    AtSum(0, 0);
    assert x[0..i] == x[..i] && x[j..|x|] == x[j..];
    ConcatSum(x[..i] + y, x[j..]);
    ConcatSum(x[..i], y);
  }

  /** The n blocks that make up bytes. */
  function Chop(bytes: seq<bv8>, n: nat): (r: seq<Block>)
    requires |bytes| == At(n)
    ensures |r| == n
  {
    if n == 0 then [] else
      AtSum(n - 1, 1);
      Chop(bytes[..At(n - 1)], n - 1) + [bytes[At(n - 1)..]]
  }

  lemma {:induction false} ChopConcat(bytes: seq<bv8>, n: nat)
    requires |bytes| == At(n)
    ensures Concat(Chop(bytes, n)) == bytes
  {
    if n == 0 { AtSum(0, 0); } else {
      AtSum(n - 1, 1);
      ChopConcat(bytes[..At(n - 1)], n - 1);
    }
  }

  // ---------------------------------------------------------------------
  // The blocks of a file on a disk

  ghost predicate OnDisk(v: seq<Block>, flat: seq<nat>) {
    forall i :: 0 <= i < |flat| ==> 0 < flat[i] < |v|
  }

  function Pick(v: seq<Block>, flat: seq<nat>): (r: seq<Block>)
    requires forall i :: 0 <= i < |flat| ==> flat[i] < |v|
    ensures |r| == |flat|
  {
    seq(|flat|, i requires 0 <= i < |flat| => v[flat[i]])
  }

  /** All bytes in the blocks of a file. */
  ghost function BytesOf(v: seq<Block>, flat: seq<nat>): seq<bv8>
    requires OnDisk(v, flat)
  {
    Concat(Pick(v, flat))
  }

  ghost predicate Distinct(flat: seq<nat>) {
    forall i, j :: 0 <= i < j < |flat| ==> flat[i] != flat[j]
  }

  ghost predicate Consecutive(flat: seq<nat>, p: nat, b: nat, n: nat) {
    p + n <= |flat| && forall i :: p <= i < p + n ==> flat[i] == b + (i - p)
  }

  /** Reading consecutive blocks of a file reads its bytes from there on. */
  lemma {:induction false} ReadRun(v: seq<Block>, flat: seq<nat>, p: nat, b: nat, n: nat)
    requires OnDisk(v, flat) && Consecutive(flat, p, b, n) && b + n <= |v|
    ensures At(p) <= At(p + n) <= |BytesOf(v, flat)|
    ensures Concat(v[b..b + n]) == BytesOf(v, flat)[At(p)..At(p + n)]
  {
    hide At, Concat;
    assert Pick(v, flat)[p..p + n] == v[b..b + n] by {
      forall i | p <= i < p + n
        ensures Pick(v, flat)[i] == v[b..b + n][i - p]
      {
      }
    }
    ConcatSlice(Pick(v, flat), p, p + n);
  }

  lemma {:induction false} OnlyRun(flat: seq<nat>, p: nat, b: nat, n: nat, i: nat)
    requires Consecutive(flat, p, b, n) && Distinct(flat) && i < |flat|
    ensures b <= flat[i] < b + n ==> p <= i < p + n
  {
    if b <= flat[i] < b + n {
      assert flat[p + (flat[i] - b)] == flat[i];
    }
  }

  /** Writing consecutive blocks of a file replaces its bytes there and nothing else. */
  lemma {:induction false} WriteRun(v: seq<Block>, flat: seq<nat>, p: nat, b: nat, y: seq<Block>)
    requires OnDisk(v, flat) && Consecutive(flat, p, b, |y|) && b + |y| <= |v| && Distinct(flat)
    ensures At(p) + |Concat(y)| <= |BytesOf(v, flat)|
    ensures BytesOf(Splice(v, b, y), flat) == Splice(BytesOf(v, flat), At(p), Concat(y))
  {
    hide At, Concat;
    var x := Pick(v, flat);
    assert Pick(Splice(v, b, y), flat) == Splice(x, p, y) by {
      forall i | 0 <= i < |flat|
        ensures Splice(v, b, y)[flat[i]] == Splice(x, p, y)[i]
      {
        OnlyRun(flat, p, b, |y|, i);
      }
    }
    ConcatSplice(x, p, y);
  }

  /** What a write of x at offset `at` makes of a file with these bytes. */
  function Written(content: seq<bv8>, at: nat, x: seq<bv8>): (r: seq<bv8>)
    requires at <= |content|
    ensures |r| == if at + |x| > |content| then at + |x| else |content|
  {
    content[..at] + x + if at + |x| < |content| then content[at + |x|..] else []
  }

  lemma {:induction false} SpliceTwice(s: seq<bv8>, at: nat, x: seq<bv8>, y: seq<bv8>)
    requires at + |x| + |y| <= |s|
    ensures Splice(Splice(s, at, x), at + |x|, y) == Splice(s, at, x + y)
  {
  }

  lemma {:induction false} SpliceNothing(s: seq<bv8>, at: nat)
    requires at <= |s|
    ensures Splice(s, at, []) == s
  {
  }

  lemma {:induction false} SpliceOwnHead(s: seq<bv8>, at: nat, n: nat, x: seq<bv8>)
    requires at + n + |x| <= |s|
    ensures Splice(s, at, s[at..at + n] + x) == Splice(s, at + n, x)
  {
  }

  lemma {:induction false} SpliceOwnTail(s: seq<bv8>, at: nat, x: seq<bv8>, n: nat)
    requires at + |x| + n <= |s|
    ensures Splice(s, at, x + s[at + |x|..at + |x| + n]) == Splice(s, at, x)
  {
  }

  /** How many blocks hold n bytes. */
  function BlocksFor(n: nat): (q: nat)
    ensures n <= At(q) && (n == 0 ==> q == 0) && (n > 0 ==> q > 0 && At(q - 1) < n)
  {
    var q := Shift(n + BLOCKSIZE - 1);
    Parts(n + BLOCKSIZE - 1);
    if n == 0 then
      AtSum(0, 0);
      PartsUnique(BLOCKSIZE - 1, 0, BLOCKSIZE - 1);
      q
    else
      AtSum(if q > 0 then q - 1 else 0, 1);
      AtSum(0, 0);
      q
  }

  lemma {:induction false} BlocksForUnique(n: nat, q: nat)
    requires n <= At(q) && (q > 0 ==> At(q - 1) < n)
    ensures BlocksFor(n) == q
  {
    hide At;
    var p := BlocksFor(n);
    if p < q { AtMono(p, q - 1); }
    if q < p { AtMono(q, p - 1); }
  }

  lemma {:induction false} FewerBlocks(m: nat, n: nat)
    requires BlocksFor(m) < BlocksFor(n)
    ensures m < n
  {
    hide At;
    AtMono(BlocksFor(m), BlocksFor(n) - 1);
  }

  /** Outside these blocks the disk is as it was. */
  ghost predicate OnlyBlocks(v: seq<Block>, v': seq<Block>, flat: seq<nat>) {
    |v'| == |v| && forall b {:trigger v'[b]} :: 0 <= b < |v| && b !in flat ==> v'[b] == v[b]
  }

  lemma {:induction false} OnlyBlocksTwice(v: seq<Block>, v': seq<Block>, v'': seq<Block>, flat: seq<nat>)
    requires OnlyBlocks(v, v', flat) && OnlyBlocks(v', v'', flat)
    ensures OnlyBlocks(v, v'', flat)
  {
  }

  lemma {:induction false} RunOnlyBlocks(v: seq<Block>, flat: seq<nat>, p: nat, b: nat, y: seq<Block>)
    requires Consecutive(flat, p, b, |y|) && b + |y| <= |v|
    ensures OnlyBlocks(v, Splice(v, b, y), flat)
  {
    forall i | b <= i < b + |y|
      ensures i in flat
    {
      assert flat[p + (i - b)] == i;
    }
  }

  /** A file none of whose blocks was written has the bytes it had. */
  lemma {:induction false} OtherFile(v: seq<Block>, v': seq<Block>, flat: seq<nat>, other: seq<nat>)
    requires OnlyBlocks(v, v', flat) && OnDisk(v, other) && forall b :: b in other ==> b !in flat
    ensures OnDisk(v', other) && BytesOf(v', other) == BytesOf(v, other)
  {
    forall i | 0 <= i < |other|
      ensures v'[other[i]] == v[other[i]]
    {
      assert other[i] in other;
    }
    assert Pick(v', other) == Pick(v, other);
  }
}
