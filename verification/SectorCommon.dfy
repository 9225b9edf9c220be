/** Decoded tracks, whatever their format (adf/sectorCommon.h). */
module SectorCommon {
  datatype DecodedSector = DecodedSector(data: seq<bv8>, numErrors: nat)

  type DecodedTrack = map<nat, DecodedSector>

  function Count(b: bool): nat {
    if b then 1 else 0
  }

  /** Missing sectors are replaced by empty ones if their number is known. */
  function Filled(m: DecodedTrack, n: nat, size: nat): DecodedTrack {
    if n == 0 then m else
      var f := Filled(m, n - 1, size);
      if n - 1 in f then f else f[n - 1 := DecodedSector(seq(size, i => 0), 0xFFFF)]
  }

  function BadSectors(m: DecodedTrack, n: nat): nat {
    if n == 0 then 0 else BadSectors(m, n - 1) + Count(n - 1 in m && m[n - 1].numErrors != 0)
  }

  /** Replaces missing sectors if asked to, and counts those with errors. */
  method FillIn(found0: DecodedTrack, expectedSectors: nat, known: bool, size: nat) returns (found: DecodedTrack, sectorsWithErrors: nat)
    ensures found == if known then Filled(found0, expectedSectors, size) else found0
    ensures sectorsWithErrors == BadSectors(found, expectedSectors) == |Bad(found, expectedSectors)|
    ensures forall k :: k in found <==> k in found0 || (known && 0 <= k < expectedSectors)
    ensures forall k :: k in found ==> found[k] == if k in found0 then found0[k] else DecodedSector(seq(size, i => 0), 0xFFFF)
  {
    found, sectorsWithErrors := found0, 0;
    for sec := 0 to expectedSectors
      invariant found == if known then Filled(found0, sec, size) else found0
      invariant sectorsWithErrors == BadSectors(found, sec)
    {
      ghost var was := found;
      if sec !in found {
        if known {
          found := found[sec := DecodedSector(seq(size, i => 0), 0xFFFF)];
          sectorsWithErrors := sectorsWithErrors + 1;
        }
      } else if found[sec].numErrors != 0 {
        sectorsWithErrors := sectorsWithErrors + 1;
      }
      SameBelow(was, found, sec);
    }
    FilledWith(found0, expectedSectors, size);
    BadCount(found, expectedSectors);
  }

  /** The numbers below n of sectors with errors. */
  ghost function Bad(m: DecodedTrack, n: nat): set<nat> {
    set k | 0 <= k < n && k in m && m[k].numErrors != 0
  }

  lemma {:induction false} BadCount(m: DecodedTrack, n: nat)
    ensures BadSectors(m, n) == |Bad(m, n)|
  {
    if n > 0 {
      BadCount(m, n - 1);
      assert Bad(m, n) == Bad(m, n - 1) + if n - 1 in m && m[n - 1].numErrors != 0 then {n - 1} else {};
    }
  }

  lemma {:induction false} SameBelow(m: DecodedTrack, m': DecodedTrack, n: nat)
    requires forall k :: 0 <= k < n ==> (k in m <==> k in m') && (k in m ==> m[k] == m'[k])
    ensures BadSectors(m, n) == BadSectors(m', n)
  {
    if n > 0 { SameBelow(m, m', n - 1); }
  }

  lemma {:induction false} FilledWith(m: DecodedTrack, n: nat, size: nat)
    ensures var f := Filled(m, n, size);
            && (forall k :: k in f <==> k in m || 0 <= k < n)
            && (forall k :: k in f ==> f[k] == if k in m then m[k] else DecodedSector(seq(size, i => 0), 0xFFFF))
  {
    if n > 0 { FilledWith(m, n - 1, size); }
  }

  lemma {:induction false} NoBadSectors(m: DecodedTrack, n: nat)
    requires forall k :: k in m ==> m[k].numErrors == 0
    ensures BadSectors(m, n) == 0
  {
    if n > 0 { NoBadSectors(m, n - 1); }
  }

  lemma {:induction false} AllBelow(s: set<nat>, n: nat)
    requires |s| == n && forall k :: k in s ==> k < n
    ensures forall k: nat :: k < n ==> k in s
  {
    if n > 0 {
      if n - 1 !in s {
        Fewer(s, n - 1);
      }
      AllBelow(s - {n - 1}, n - 1);
    }
  }

  lemma {:induction false} Fewer(s: set<nat>, n: nat)
    requires forall k :: k in s ==> k < n
    ensures |s| <= n
  {
    if n > 0 {
      Fewer(s - {n - 1}, n - 1);
    } else {
      assert s == {};
    }
  }
}
