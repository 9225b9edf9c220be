/** When a directory entry can be given a new length without a new block: its block may move entries, from
    the first one on, to the block before (PFS3lib/directory.cpp). */
module Spills {
  import opened Entries

  /** The first j entries of x can be moved to a block in which `used` bytes are taken. */
  ghost predicate Moves(x: seq<Entry>, used: nat, j: nat)
    requires j <= |x|
  {
    j == 0 || Off(x, j) + used + 1 <= DB_ENTRYSPACE
  }

  /** Without the first j entries the block has room for the k-th in `size` bytes. */
  ghost predicate Fits(x: seq<Entry>, k: nat, size: nat, j: nat)
    requires j <= k < |x|
  {
    |Enc(x)| - Off(x, j) - |x[k]| + size + 1 <= DB_ENTRYSPACE
  }

  /** With all entries before it moved, the k-th can be moved too, in `size` bytes. */
  ghost predicate MovesLast(x: seq<Entry>, used: nat, k: nat, size: nat)
    requires k < |x|
  {
    Off(x, k) + size + used + 1 <= DB_ENTRYSPACE
  }

  /** The k-th entry can be given `size` bytes. */
  ghost predicate Renames(x: seq<Entry>, used: nat, k: nat, size: nat)
    requires k < |x|
  {
    exists j :: 0 <= j <= k && Moves(x, used, j) && (Fits(x, k, size, j) || (j == k && MovesLast(x, used, k, size)))
  }

  /** The j-th entry is the first that cannot be moved. */
  ghost predicate StopsAt(x: seq<Entry>, used: nat, k: nat, j: nat)
    requires k < |x|
  {
    j < k && Moves(x, used, j) && !Moves(x, used, j + 1)
  }

  lemma {:induction false} MovesFewer(x: seq<Entry>, used: nat, i: nat, j: nat)
    requires AllOk(x) && i <= j <= |x| && Moves(x, used, j)
    ensures Moves(x, used, i)
  {
    hide Off;
    if 0 < i < j { OffOrder(x, i, j); }
  }

  /** After j moves there is no room yet, and no further move: the entry cannot be given that length. */
  lemma {:induction false} NoRename(x: seq<Entry>, used: nat, k: nat, size: nat, j: nat)
    requires AllOk(x) && j <= k < |x| && forall i :: 0 <= i <= j ==> !Fits(x, k, size, i)
    requires if j == k then !MovesLast(x, used, k, size) else !Moves(x, used, j + 1)
    ensures !Renames(x, used, k, size)
  {
    hide Off, Enc;
    forall i | 0 <= i <= k && Moves(x, used, i)
      ensures i <= j
    {
      if i > j { MovesFewer(x, used, j + 1, i); }
    }
  }

  lemma {:induction false} StopUnique(x: seq<Entry>, used: nat, k: nat, i: nat, j: nat)
    requires AllOk(x) && k < |x| && StopsAt(x, used, k, i) && j <= k && Moves(x, used, j) && (j == k || !Moves(x, used, j + 1))
    ensures i == j
  {
    hide Off;
    if i < j { MovesFewer(x, used, i + 1, j); }
    if j < i { MovesFewer(x, used, j + 1, i); }
  }

  /** If all entries before the k-th can be moved, none stops that; else exactly one does. */
  lemma {:induction false} SomeStop(x: seq<Entry>, used: nat, k: nat) returns (j: nat)
    requires k < |x|
    ensures Moves(x, used, k) || StopsAt(x, used, k, j)
  {
    hide Off;
    j := 0;
    while j < k && Moves(x, used, j + 1)
      invariant j <= k && Moves(x, used, j)
    {
      j := j + 1;
    }
  }

  /** What is where when the first j entries are gone. */
  lemma {:induction false} Rest(x: seq<Entry>, j: nat, k: nat)
    requires j <= k <= |x|
    ensures Off(x, k) == Off(x, j) + Off(x[j..], k - j) && |Enc(x)| == Off(x, j) + |Enc(x[j..])|
  {
    hide Enc;
    EncSum(x[..j], x[j..]);
    EncSum(x[..j], x[j..k]);
    assert x == x[..j] + x[j..] && x[..k] == x[..j] + x[j..k] && x[j..][..k - j] == x[j..k];
  }

  lemma {:induction false} NextOff(x: seq<Entry>, j: nat)
    requires j < |x|
    ensures Off(x, j + 1) == Off(x, j) + |x[j]|
  {
    EncAt(x, j);
  }
}
