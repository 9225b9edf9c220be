/** The extra fields behind the name and comment of a directory entry (PFS3lib/directory.cpp): only
    fields that are not zero are stored, last one first, followed by a word that says which. */
module ExtraFields {
  /** sizeof(struct direntry), and where its members are. */
  const DIRENTRYSIZE := 20
  const NEXT := 0
  const PROTECTION := NEXT + 1 + 1 + 4 + 4 + 2 + 2 + 2
  const NLENGTH := PROTECTION + 1
  const STARTOFNAME := NLENGTH + 1
  /** Words in struct extrafields. */
  const FIELDS := 11
  /** Space for a name and for a comment, and what all entries are built in. */
  const FNSIZE := 108
  const CMSIZE := 80
  const MAX_ENTRYSIZE := DIRENTRYSIZE + FNSIZE + CMSIZE + 34

  datatype Fields = Fields(link: bv32, uid: bv16, gid: bv16, prot: bv32, virtualsize: bv32, rollpointer: bv32, fsizex: bv16)

  function Lo(x: bv32): bv16 {
    (x & 0xFFFF) as bv16
  }

  function Hi(x: bv32): bv16 {
    (x >> 16) as bv16
  }

  function Both(lo: bv16, hi: bv16): bv32 {
    (lo as bv32) | ((hi as bv32) << 16)
  }

  lemma {:induction false} BothHalves(x: bv32)
    ensures Both(Lo(x), Hi(x)) == x
  {
  }

  /** The fields as words in memory order. */
  function WordsOf(f: Fields): (r: seq<bv16>)
    ensures |r| == FIELDS
  {
    [Lo(f.link), Hi(f.link), f.uid, f.gid, Lo(f.prot), Hi(f.prot), Lo(f.virtualsize), Hi(f.virtualsize),
     Lo(f.rollpointer), Hi(f.rollpointer), f.fsizex]
  }

  function FieldsOf(w: seq<bv16>): Fields
    requires |w| == FIELDS
  {
    Fields(Both(w[0], w[1]), w[2], w[3], Both(w[4], w[5]), Both(w[6], w[7]), Both(w[8], w[9]), w[10])
  }

  lemma {:induction false} WordsBack(f: Fields)
    ensures FieldsOf(WordsOf(f)) == f
  {
    hide Both, Lo, Hi;
    BothHalves(f.link);
    BothHalves(f.prot);
    BothHalves(f.virtualsize);
    BothHalves(f.rollpointer);
  }

  // ---------------------------------------------------------------------
  // Packing

  function Or(x: bv16, y: bv16): bv16 {
    x | y
  }

  function And(x: bv16, y: bv16): bv16 {
    x & y
  }

  function Flag(i: nat): bv16
    requires i < 16
  {
    (1 as bv16) << i
  }

  function Has(flags: bv16, i: nat): bool
    requires i < 16
  {
    And(flags, Flag(i)) != 0
  }

  function With(flags: bv16, i: nat): bv16
    requires i < 16
  {
    Or(flags, Flag(i))
  }

  /** The words among the first n that are not zero. */
  function NonZero(w: seq<bv16>, n: nat): (r: seq<bv16>)
    requires n <= |w|
    ensures |r| <= n
  {
    if n == 0 then [] else if w[n - 1] != 0 then NonZero(w, n - 1) + [w[n - 1]] else NonZero(w, n - 1)
  }

  function FlagsOf(w: seq<bv16>, n: nat): bv16
    requires n <= |w| <= 16
  {
    if n == 0 then 0 else if w[n - 1] != 0 then With(FlagsOf(w, n - 1), n - 1) else FlagsOf(w, n - 1)
  }

  lemma {:induction false} FlagBits(flags: bv16, i: nat, k: nat)
    requires i < 16 && k < 16
    ensures Has(With(flags, k), i) == (i == k || Has(flags, i))
    ensures !Has(0, i)
  {
    if i == k {
      SameFlag(flags, i);
    } else {
      OtherFlag(flags, i, k);
    }
  }

  lemma {:induction false} SameFlag(flags: bv16, i: nat)
    requires i < 16
    ensures Has(With(flags, i), i)
  {
    FlagTable(i);
  }

  lemma {:induction false} FlagTable(i: nat)
    requires i < 16
    ensures Flag(i) != 0
    ensures Flag(i) == if i == 0 then 0x1 else if i == 1 then 0x2 else if i == 2 then 0x4 else if i == 3 then 0x8
                  else if i == 4 then 0x10 else if i == 5 then 0x20 else if i == 6 then 0x40 else if i == 7 then 0x80
                  else if i == 8 then 0x100 else if i == 9 then 0x200 else if i == 10 then 0x400 else if i == 11 then 0x800
                  else if i == 12 then 0x1000 else if i == 13 then 0x2000 else if i == 14 then 0x4000 else 0x8000
  {
  }

  lemma {:induction false} OtherFlag(flags: bv16, i: nat, k: nat)
    requires i < 16 && k < 16 && i != k
    ensures Has(With(flags, k), i) == Has(flags, i)
  {
    hide Flag, And, Or;
    Apart(i, k);
    Distribute(flags, Flag(k), Flag(i));
  }

  lemma {:induction false} Apart(i: nat, k: nat)
    requires i < 16 && k < 16 && i != k
    ensures And(Flag(k), Flag(i)) == 0
  {
    FlagTable(i);
    FlagTable(k);
  }

  lemma {:induction false} Distribute(a: bv16, b: bv16, c: bv16)
    requires And(b, c) == 0
    ensures And(Or(a, b), c) == And(a, c)
  {
  }

  /** The flags tell exactly which words are not zero. */
  lemma {:induction false} FlagsTell(w: seq<bv16>, n: nat, i: nat)
    requires n <= |w| <= 16 && i < 16
    ensures Has(FlagsOf(w, n), i) <==> i < n && w[i] != 0
  {
    hide Has, With;
    if n > 0 {
      FlagsTell(w, n - 1, i);
      FlagBits(FlagsOf(w, n - 1), i, n - 1);
    } else {
      FlagBits(0, i, 0);
    }
  }

  // ---------------------------------------------------------------------
  // Words in memory

  function WordAt(m: seq<bv8>, p: nat): bv16
    requires p + 2 <= |m|
  {
    (m[p] as bv16) | ((m[p + 1] as bv16) << 8)
  }

  method PutWord(m: array<bv8>, p: nat, x: bv16)
    requires p + 2 <= m.Length
    modifies m
    ensures WordAt(m[..], p) == x
    ensures forall i :: 0 <= i < m.Length && !(p <= i < p + 2) ==> m[i] == old(m[i])
  {
    m[p], m[p + 1] := (x & 0xFF) as bv8, (x >> 8) as bv8;
    Split(x);
  }

  lemma {:induction false} Split(x: bv16)
    ensures (((x & 0xFF) as bv8) as bv16) | ((((x >> 8) as bv8) as bv16) << 8) == x
  {
  }

  /** How many fields from the i-th on are stored. */
  function Stored(flags: bv16, i: nat): nat
    requires i <= FIELDS
    decreases FIELDS - i
  {
    if i == FIELDS then 0 else Stored(flags, i + 1) + if Has(flags, i) then 1 else 0
  }

  /** The fields from the i-th on, read downwards from p. */
  function ReadDown(m: seq<bv8>, p: nat, flags: bv16, i: nat): (r: seq<bv16>)
    requires i <= FIELDS && 2 * Stored(flags, i) <= p <= |m|
    ensures |r| == FIELDS - i
    decreases FIELDS - i
  {
    if i == FIELDS then []
    else if Has(flags, i) then [WordAt(m, p - 2)] + ReadDown(m, p - 2, flags, i + 1)
    else [0] + ReadDown(m, p, flags, i + 1)
  }

  /** Where an entry ends. */
  function EntryEnd(m: seq<bv8>, base: nat): nat
    requires base + DIRENTRYSIZE <= |m|
  {
    base + m[base + NEXT] as nat
  }

  /** The entry at `base` ends in a word of flags, and there is room for the fields it announces. */
  ghost predicate Packed(m: seq<bv8>, base: nat) {
    hide WordAt, Stored, EntryEnd;
    && base + DIRENTRYSIZE <= |m|
    && 2 <= EntryEnd(m, base) <= |m|
    && 2 * Stored(WordAt(m, EntryEnd(m, base) - 2), 0) <= EntryEnd(m, base) - 2
  }

  function FieldsAt(m: seq<bv8>, base: nat): Fields
    requires Packed(m, base)
  {
    hide WordAt, Stored, EntryEnd;
    var end := EntryEnd(m, base);
    var f := FieldsOf(ReadDown(m, end - 2, WordAt(m, end - 2), 0));
    f.(prot := f.prot | (m[base + PROTECTION] as bv32))
  }

  function Double(x: bv16): bv16 {
    x << 1
  }

  function Half(x: bv16): bv16 {
    x >> 1
  }

  function Lowest(x: bv16): bool {
    x & 1 != 0
  }

  function Shr(x: bv16, n: nat): bv16
    decreases n
  {
    if n == 0 then x else Shr(Half(x), n - 1)
  }

  lemma {:induction false} HalfMask(x: bv16, m: bv16)
    requires m & 0x8000 == 0
    ensures (And(x, Double(m)) != 0) == (And(Half(x), m) != 0)
  {
  }

  lemma {:induction false} HalfHas(x: bv16, i: nat)
    requires i < 15
    ensures Has(Half(x), i) == Has(x, i + 1)
  {
    NextFlag(i);
    HalfMask(x, Flag(i));
  }

  /** Shifting right by i brings flag i to the bottom. */
  lemma {:induction false} LowestFlag(flags: bv16, i: nat)
    requires i < 16
    ensures Lowest(Shr(flags, i)) == Has(flags, i)
    decreases i
  {
    if i == 0 {
      FirstFlag();
    } else {
      hide Has, Half;
      LowestFlag(Half(flags), i - 1);
      HalfHas(flags, i - 1);
    }
  }

  lemma {:induction false} ShrNext(x: bv16, n: nat)
    ensures Half(Shr(x, n)) == Shr(x, n + 1)
    decreases n
  {
    hide Half;
    if n > 0 { ShrNext(Half(x), n - 1); }
  }

  lemma {:induction false} ShrNone(x: bv16)
    ensures Shr(x, 0) == x
  {
  }

  method GetExtraFields(direntry: seq<bv8>, base: nat) returns (extra: Fields)
    requires Packed(direntry, base)
    ensures extra == FieldsAt(direntry, base)
  {
    hide Has, WordAt, FieldsOf, ReadDown, Stored;
    var end := EntryEnd(direntry, base);
    var words := ReadWords(direntry, end - 2, WordAt(direntry, end - 2));
    extra := FieldsOf(words);
    extra := extra.(prot := extra.prot | (direntry[base + PROTECTION] as bv32));
  }

  /** Reads the stored fields, downwards from p. */
  method ReadWords(m: seq<bv8>, p: nat, flags0: bv16) returns (words: seq<bv16>)
    requires 2 * Stored(flags0, 0) <= p <= |m|
    ensures words == ReadDown(m, p, flags0, 0)
  {
    hide Has, WordAt, Shr, Half, Lowest, ReadDown, Stored;
    var fields, flags := p, flags0;
    words := [];
    ShrNone(flags0);
    while |words| < FIELDS
      invariant |words| <= FIELDS && fields <= p && flags == Shr(flags0, |words|)
      invariant 2 * Stored(flags0, |words|) <= fields
      invariant words + ReadDown(m, fields, flags0, |words|) == ReadDown(m, p, flags0, 0)
    {
      var i := |words|;
      LowestFlag(flags0, i);
      ShrNext(flags0, i);
      ReadNext(m, fields, flags0, i);
      ghost var before := words;
      if Lowest(flags) {
        fields := fields - 2;
        words := words + [WordAt(m, fields)];
      } else {
        words := words + [0];
      }
      flags := Half(flags);
      Joined(before, words[i..], ReadDown(m, fields, flags0, i + 1));
    }
    assert |ReadDown(m, fields, flags0, FIELDS)| == 0;
  }

  lemma {:induction false} Joined(a: seq<bv16>, b: seq<bv16>, c: seq<bv16>)
    ensures (a + b) + c == a + (b + c)
  {
  }

  lemma {:induction false} ReadNext(m: seq<bv8>, p: nat, flags: bv16, i: nat)
    requires i < FIELDS && 2 * Stored(flags, i) <= p <= |m|
    ensures 2 * Stored(flags, i + 1) <= if Has(flags, i) then p - 2 else p
    ensures ReadDown(m, p, flags, i) == if Has(flags, i) then [WordAt(m, p - 2)] + ReadDown(m, p - 2, flags, i + 1)
                                        else [0] + ReadDown(m, p, flags, i + 1)
  {
    hide Has, WordAt;
  }

  function Long(b0: bv8, b1: bv8, b2: bv8, b3: bv8): bv32 {
    (b0 as bv32) | ((b1 as bv32) << 8) | ((b2 as bv32) << 16) | ((b3 as bv32) << 24)
  }

  /** Words that lie in memory, lower byte first, and that are these fields: link, user, group, protection, virtual
      size, roll pointer and the upper bits of the size, in this order. */
  lemma {:induction false} InMemory(m: seq<bv8>, f: Fields)
    requires |m| == 22 && forall i :: 0 <= i < FIELDS ==> WordAt(m, 2 * i) == WordsOf(f)[i]
    ensures Long(m[0], m[1], m[2], m[3]) == f.link
    ensures (m[4] as bv16) | ((m[5] as bv16) << 8) == f.uid && (m[6] as bv16) | ((m[7] as bv16) << 8) == f.gid
    ensures Long(m[8], m[9], m[10], m[11]) == f.prot && Long(m[12], m[13], m[14], m[15]) == f.virtualsize
    ensures Long(m[16], m[17], m[18], m[19]) == f.rollpointer && (m[20] as bv16) | ((m[21] as bv16) << 8) == f.fsizex
  {
    hide Long, Lo, Hi, Both, WordAt;
    var w := WordsOf(f);
    assert WordAt(m, 0) == w[0] && WordAt(m, 2) == w[1] && WordAt(m, 4) == w[2] && WordAt(m, 6) == w[3];
    assert WordAt(m, 8) == w[4] && WordAt(m, 10) == w[5] && WordAt(m, 12) == w[6] && WordAt(m, 14) == w[7];
    assert WordAt(m, 16) == w[8] && WordAt(m, 18) == w[9] && WordAt(m, 20) == w[10];
    LongIn(m, 0);
    LongIn(m, 8);
    LongIn(m, 12);
    LongIn(m, 16);
    BothHalves(f.link);
    BothHalves(f.prot);
    BothHalves(f.virtualsize);
    BothHalves(f.rollpointer);
    WordIs(m, 4);
    WordIs(m, 6);
    WordIs(m, 20);
  }

  lemma {:induction false} WordIs(m: seq<bv8>, p: nat)
    requires p + 2 <= |m|
    ensures WordAt(m, p) == (m[p] as bv16) | ((m[p + 1] as bv16) << 8)
  {
  }

  lemma {:induction false} LongIn(m: seq<bv8>, p: nat)
    requires p + 4 <= |m|
    ensures Both(WordAt(m, p), WordAt(m, p + 2)) == Long(m[p], m[p + 1], m[p + 2], m[p + 3])
  {
    TwoWords(m[p], m[p + 1], m[p + 2], m[p + 3]);
  }

  lemma {:induction false} TwoWords(b0: bv8, b1: bv8, b2: bv8, b3: bv8)
    ensures Both((b0 as bv16) | ((b1 as bv16) << 8), (b2 as bv16) | ((b3 as bv16) << 8)) == Long(b0, b1, b2, b3)
  {
  }

  // ---------------------------------------------------------------------
  // Writing

  /** Where the fields start: behind name and comment, at an even offset. */
  function Offset(nlength: nat, clength: nat): nat {
    (DIRENTRYSIZE + nlength + clength) / 2 * 2
  }

  /** How long the entry becomes. */
  function EntryLength(nlength: nat, clength: nat, stored: nat): nat {
    Offset(nlength, clength) + 2 * stored + 2
  }

  function Patched(f: Fields): Fields {
    f.(prot := f.prot & 0xFFFF_FF00)
  }

  /** Name and comment of an entry lie in the buffer. */
  predicate Named(m: seq<bv8>, base: nat) {
    && base + DIRENTRYSIZE <= |m|
    && base + STARTOFNAME + m[base + NLENGTH] as nat < |m|
  }

  function NameLength(m: seq<bv8>, base: nat): nat
    requires Named(m, base)
  {
    m[base + NLENGTH] as nat
  }

  function CommentLength(m: seq<bv8>, base: nat): nat
    requires Named(m, base)
  {
    m[base + STARTOFNAME + NameLength(m, base)] as nat
  }

  /** Where the words end up: w from p on, the last one first, and the flags. */
  ghost predicate Written(m: seq<bv8>, p: nat, w: seq<bv16>, flags: bv16) {
    && p + 2 * |w| + 2 <= |m|
    && (forall k :: 0 <= k < |w| ==> WordAt(m, p + 2 * (|w| - 1 - k)) == w[k])
    && WordAt(m, p + 2 * |w|) == flags
  }

  /** An entry under construction: name and comment are no longer than the file system takes them,
      and the buffer is as long as callers make it. */
  predicate Receivable(m: seq<bv8>, base: nat) {
    && Named(m, base) && base + MAX_ENTRYSIZE <= |m|
    && NameLength(m, base) < FNSIZE && CommentLength(m, base) <= CMSIZE
  }

  lemma {:induction false} NonZeroCount(w: seq<bv16>, n: nat)
    requires n <= |w|
    ensures |NonZero(w, n)| <= n
  {
    if n > 0 { NonZeroCount(w, n - 1); }
  }

  /** Whatever the fields are, the entry fits in its buffer, and its length in a byte. */
  lemma {:induction false} EntryFits(m: seq<bv8>, base: nat, w: seq<bv16>)
    requires Receivable(m, base) && |w| == FIELDS
    ensures var offset := Offset(NameLength(m, base), CommentLength(m, base));
            var length := EntryLength(NameLength(m, base), CommentLength(m, base), |NonZero(w, FIELDS)|);
            && length == offset + 2 * |NonZero(w, FIELDS)| + 2 <= MAX_ENTRYSIZE && length < 0x100 && base + length <= |m|
            && DIRENTRYSIZE <= offset && offset % 0x100 == offset && offset % 2 == 0 && NEXT < base + offset
            && STARTOFNAME + NameLength(m, base) + 1 + CommentLength(m, base) <= offset
  {
    hide NonZero, NameLength, CommentLength;
    NonZeroCount(w, FIELDS);
    Fits(NameLength(m, base), CommentLength(m, base), |NonZero(w, FIELDS)|);
  }

  lemma {:induction false} Fits(nlength: nat, clength: nat, stored: nat)
    requires nlength < FNSIZE && clength <= CMSIZE && stored <= FIELDS
    ensures var offset := Offset(nlength, clength);
            && offset + 2 * stored + 2 <= MAX_ENTRYSIZE && offset + 2 * stored + 2 < 0x100
            && DIRENTRYSIZE <= offset && offset % 0x100 == offset && offset % 2 == 0
            && STARTOFNAME + nlength + 1 + clength <= offset
  {
  }

  /** An entry that ends at `end` holds these words: its last word has bit i set if and only if word i is not zero;
      before it are the words that are not zero, the first one last. */
  ghost predicate Stands(m: seq<bv8>, end: nat, w: seq<bv16>)
    requires |w| == FIELDS
  {
    && 2 * |NonZero(w, FIELDS)| + 2 <= end <= |m|
    && (forall i :: 0 <= i < 16 ==> (Has(WordAt(m, end - 2), i) <==> i < FIELDS && w[i] != 0))
    && (forall i :: 0 <= i < FIELDS && w[i] != 0 ==> StandsAt(m, end, w, i))
  }

  ghost predicate StandsAt(m: seq<bv8>, end: nat, w: seq<bv16>, i: nat)
    requires i < |w|
  {
    2 * |NonZero(w, i)| + 4 <= end <= |m| && WordAt(m, end - 4 - 2 * |NonZero(w, i)|) == w[i]
  }

  lemma {:induction false} WrittenStands(m: seq<bv8>, p: nat, w: seq<bv16>)
    requires |w| == FIELDS && Written(m, p, NonZero(w, FIELDS), FlagsOf(w, FIELDS))
    ensures Stands(m, p + 2 * |NonZero(w, FIELDS)| + 2, w)
  {
    hide Has, WordAt, NonZero, FlagsOf, Written;
    var packed := NonZero(w, FIELDS);
    WrittenFits(m, p, packed, FlagsOf(w, FIELDS));
    forall i | 0 <= i < 16
      ensures Has(FlagsOf(w, FIELDS), i) <==> i < FIELDS && w[i] != 0
    {
      FlagsTell(w, FIELDS, i);
    }
    forall i | 0 <= i < FIELDS && w[i] != 0
      ensures StandsAt(m, p + 2 * |packed| + 2, w, i)
    {
      NonZeroAt(w, i, FIELDS);
      WrittenAt(m, p, packed, FlagsOf(w, FIELDS), |NonZero(w, i)|);
    }
  }

  /** Packs the fields behind name and comment and sets the length of the entry. */
  method AddExtraFields(direntry: array<bv8>, base: nat, extra0: Fields) returns (extra: Fields)
    requires Receivable(direntry[..], base)
    modifies direntry
    ensures extra == Patched(extra0)
    ensures var w := WordsOf(extra);
            var offset := Offset(NameLength(old(direntry[..]), base), CommentLength(old(direntry[..]), base));
            && Written(direntry[..], base + offset, NonZero(w, FIELDS), FlagsOf(w, FIELDS))
            && direntry[base + NEXT] as nat == offset + 2 * |NonZero(w, FIELDS)| + 2
            && Stands(direntry[..], base + direntry[base + NEXT] as nat, w)
            && forall i :: 0 <= i < direntry.Length && i != base + NEXT && !(base + offset <= i < base + direntry[base + NEXT] as nat) ==>
                 direntry[i] == old(direntry[i])
  {
    hide WordsOf, WordAt, NonZero, FlagsOf, Patched, NameLength, CommentLength, Offset, Named, Written, Stands;
    extra := Patched(extra0);
    var nlength := NameLength(direntry[..], base);
    var clength := CommentLength(direntry[..], base);
    var offset := Offset(nlength, clength);
    EntryFits(direntry[..], base, WordsOf(extra));
    var dirext := base + offset % 0x100;
    var words := WordsOf(extra);
    var packed, flags := PackWords(words);
    PutWords(direntry, dirext, packed, flags);
    ghost var before := direntry[..];
    SetNext(direntry, base, offset + 2 * |packed| + 2);
    WrittenStays(before, direntry[..], dirext, packed, flags);
    WrittenStands(direntry[..], dirext, words);
  }

  lemma {:induction false} WrittenStays(m: seq<bv8>, m': seq<bv8>, p: nat, w: seq<bv16>, flags: bv16)
    requires Written(m, p, w, flags) && |m'| == |m| && forall i :: p <= i < |m| ==> m'[i] == m[i]
    ensures Written(m', p, w, flags)
  {
    hide WordAt;
    forall k | 0 <= k < |w|
      ensures WordAt(m', p + 2 * (|w| - 1 - k)) == w[k]
    {
      SameWord(m, m', p + 2 * (|w| - 1 - k));
    }
    SameWord(m, m', p + 2 * |w|);
  }

  method SetNext(direntry: array<bv8>, base: nat, next: nat)
    requires base + NEXT < direntry.Length && next < 0x100
    modifies direntry
    ensures direntry[base + NEXT] as nat == next
    ensures forall i :: 0 <= i < direntry.Length && i != base + NEXT ==> direntry[i] == old(direntry[i])
  {
    direntry[base + NEXT] := (next % 0x100) as bv8;
  }

  /** Collects the words that are not zero. */
  method PackWords(fields: seq<bv16>) returns (packed: seq<bv16>, flags: bv16)
    requires |fields| == FIELDS
    ensures packed == NonZero(fields, FIELDS) && flags == FlagsOf(fields, FIELDS)
  {
    hide Flag, With, Double, Or;
    packed, flags := [], 0;
    var orvalue: bv16 := 1;
    FirstFlag();
    for i := 0 to FIELDS
      invariant packed == NonZero(fields, i) && flags == FlagsOf(fields, i) && orvalue == Flag(i)
    {
      if fields[i] != 0 {
        packed := packed + [fields[i]];
        WithFlag(flags, i);
        flags := Or(flags, orvalue);
      }
      NextFlag(i);
      orvalue := Double(orvalue);
    }
  }

  lemma {:induction false} WithFlag(flags: bv16, i: nat)
    requires i < 16
    ensures With(flags, i) == Or(flags, Flag(i))
  {
  }

  lemma {:induction false} FirstFlag()
    ensures Flag(0) == 1
  {
  }

  lemma {:induction false} NextFlag(i: nat)
    requires i < 15
    ensures Double(Flag(i)) == Flag(i + 1) && Flag(i) & 0x8000 == 0
  {
    FlagTable(i);
    FlagTable(i + 1);
  }

  method PutWords(m: array<bv8>, p: nat, w: seq<bv16>, flags: bv16)
    requires p + 2 * |w| + 2 <= m.Length
    modifies m
    ensures Written(m[..], p, w, flags)
    ensures forall i :: 0 <= i < m.Length && !(p <= i < p + 2 * |w| + 2) ==> m[i] == old(m[i])
  {
    hide WordAt;
    var i := |w|;
    while i > 0
      invariant 0 <= i <= |w|
      invariant forall k :: i <= k < |w| ==> WordAt(m[..], p + 2 * (|w| - 1 - k)) == w[k]
      invariant forall j :: 0 <= j < m.Length && !(p <= j < p + 2 * (|w| - i)) ==> m[j] == old(m[j])
    {
      i := i - 1;
      ghost var before := m[..];
      PutWord(m, p + 2 * (|w| - 1 - i), w[i]);
      forall k | i < k < |w| ensures WordAt(m[..], p + 2 * (|w| - 1 - k)) == w[k] {
        SameWord(before, m[..], p + 2 * (|w| - 1 - k));
      }
    }
    ghost var before := m[..];
    PutWord(m, p + 2 * |w|, flags);
    forall k | 0 <= k < |w| ensures WordAt(m[..], p + 2 * (|w| - 1 - k)) == w[k] {
      SameWord(before, m[..], p + 2 * (|w| - 1 - k));
    }
  }

  lemma {:induction false} SameWord(m: seq<bv8>, m': seq<bv8>, p: nat)
    requires p + 2 <= |m| == |m'| && m[p] == m'[p] && m[p + 1] == m'[p + 1]
    ensures WordAt(m', p) == WordAt(m, p)
  {
  }

  // ---------------------------------------------------------------------
  // Round trip

  lemma {:induction false} StoredCount(w: seq<bv16>, i: nat)
    requires |w| == FIELDS && i <= FIELDS
    ensures Stored(FlagsOf(w, FIELDS), i) + |NonZero(w, i)| == |NonZero(w, FIELDS)|
    decreases FIELDS - i
  {
    hide Has, FlagsOf;
    if i < FIELDS {
      StoredCount(w, i + 1);
      FlagsTell(w, FIELDS, i);
    }
  }

  lemma {:induction false} NonZeroAt(w: seq<bv16>, i: nat, n: nat)
    requires i < n <= |w| && w[i] != 0
    ensures |NonZero(w, i)| < |NonZero(w, n)| && NonZero(w, n)[|NonZero(w, i)|] == w[i]
  {
    if i < n - 1 { NonZeroAt(w, i, n - 1); }
  }

  /** Reading what was written gives the words back, zeros included. */
  lemma {:induction false} ReadWritten(m: seq<bv8>, p: nat, w: seq<bv16>, i: nat)
    requires |w| == FIELDS && i <= FIELDS && Written(m, p, NonZero(w, FIELDS), FlagsOf(w, FIELDS))
    ensures Stored(FlagsOf(w, FIELDS), i) + |NonZero(w, i)| == |NonZero(w, FIELDS)|
    ensures ReadDown(m, p + 2 * (|NonZero(w, FIELDS)| - |NonZero(w, i)|), FlagsOf(w, FIELDS), i) == w[i..]
    decreases FIELDS - i
  {
    hide Has, FlagsOf, WordAt, NonZero, ReadDown, Stored, Written;
    StoredCount(w, i);
    WrittenFits(m, p, NonZero(w, FIELDS), FlagsOf(w, FIELDS));
    var q := p + 2 * (|NonZero(w, FIELDS)| - |NonZero(w, i)|);
    if i < FIELDS {
      FlagsTell(w, FIELDS, i);
      ReadNext(m, q, FlagsOf(w, FIELDS), i);
      ReadWritten(m, p, w, i + 1);
      NonZeroNext(w, i);
      if w[i] != 0 {
        NonZeroAt(w, i, FIELDS);
        WrittenAt(m, p, NonZero(w, FIELDS), FlagsOf(w, FIELDS), |NonZero(w, i)|);
      }
      assert w[i..] == [w[i]] + w[i + 1..];
    } else {
      assert |ReadDown(m, q, FlagsOf(w, FIELDS), i)| == 0;
    }
  }

  lemma {:induction false} NonZeroNext(w: seq<bv16>, i: nat)
    requires i < |w|
    ensures |NonZero(w, i + 1)| == |NonZero(w, i)| + if w[i] != 0 then 1 else 0
  {
  }

  lemma {:induction false} WrittenFits(m: seq<bv8>, p: nat, w: seq<bv16>, flags: bv16)
    requires Written(m, p, w, flags)
    ensures p + 2 * |w| + 2 <= |m| && WordAt(m, p + 2 * |w|) == flags
  {
    hide WordAt;
  }

  lemma {:induction false} WrittenAt(m: seq<bv8>, p: nat, w: seq<bv16>, flags: bv16, k: nat)
    requires Written(m, p, w, flags) && k < |w|
    ensures p + 2 * (|w| - k) <= |m| && WordAt(m, p + 2 * (|w| - k) - 2) == w[k]
  {
    hide WordAt;
    assert WordAt(m, p + 2 * (|w| - 1 - k)) == w[k];
  }

  /** The lowest byte replaced. */
  function WithLow(prot: bv32, low: bv8): bv32 {
    (prot & 0xFFFF_FF00) | (low as bv32)
  }

  function PatchedWith(f: Fields, low: bv8): Fields {
    f.(prot := WithLow(f.prot, low))
  }

  /** An entry has an even length. */
  lemma {:induction false} LengthEven(nlength: nat, clength: nat, stored: nat)
    ensures EntryLength(nlength, clength, stored) % 2 == 0
    ensures STARTOFNAME + nlength + 1 + clength <= Offset(nlength, clength)
  {
  }

  /** What is added is read back, with the lowest protection byte from the entry; name and comment
      stay as they are; the entry has an even length that ends right behind the flags. */
  method AddAndGet(direntry: array<bv8>, base: nat, extra: Fields) returns (back: Fields)
    requires Receivable(direntry[..], base)
    modifies direntry
    ensures back == extra.(prot := (extra.prot & 0xFFFF_FF00) | (old(direntry[base + 16]) as bv32))
    ensures var nlength := old(direntry[base + 17]) as nat;
            var clength := old(direntry[base + 18 + direntry[base + 17] as nat]) as nat;
            && direntry[base] as nat == (20 + nlength + clength) / 2 * 2 + 2 * |NonZero(WordsOf(Patched(extra)), FIELDS)| + 2
            && Stands(direntry[..], base + direntry[base] as nat, WordsOf(Patched(extra)))
            && forall i :: base < i < direntry.Length && i <= base + 18 + nlength + clength ==> direntry[i] == old(direntry[i])
  {
    hide WordsOf, FlagsOf, NonZero, WordAt, ReadDown, FieldsOf, Stored, Named, NameLength, CommentLength, Offset, Patched, Written, Packed, FieldsAt, Stands;
    ghost var m := direntry[..];
    NameAndComment(m, base);
    EntryFits(m, base, WordsOf(Patched(extra)));
    var e := AddExtraFields(direntry, base, extra);
    BackAgain(direntry[..], base, Offset(NameLength(m, base), CommentLength(m, base)), extra);
    back := GetExtraFields(direntry[..], base);
  }

  /** Where the lengths of name and comment are. */
  lemma {:induction false} NameAndComment(m: seq<bv8>, base: nat)
    requires Named(m, base)
    ensures base + 20 <= |m| && base + 18 + m[base + 17] as nat < |m|
    ensures NameLength(m, base) == m[base + 17] as nat && CommentLength(m, base) == m[base + 18 + m[base + 17] as nat] as nat
    ensures Offset(NameLength(m, base), CommentLength(m, base)) == (20 + NameLength(m, base) + CommentLength(m, base)) / 2 * 2
  {
  }

  lemma {:induction false} BackAgain(m: seq<bv8>, base: nat, offset: nat, extra: Fields)
    requires base + DIRENTRYSIZE <= |m|
    requires Written(m, base + offset, NonZero(WordsOf(Patched(extra)), FIELDS), FlagsOf(WordsOf(Patched(extra)), FIELDS))
    requires m[base + NEXT] as nat == offset + 2 * |NonZero(WordsOf(Patched(extra)), FIELDS)| + 2
    ensures Packed(m, base)
    ensures FieldsAt(m, base) == PatchedWith(extra, m[base + PROTECTION])
  {
    hide WordsOf, FlagsOf, NonZero, WordAt, FieldsOf, Patched, Written, Packed, FieldsAt, PatchedWith;
    var w := WordsOf(Patched(extra));
    ReadBack(m, base, offset, w);
    WordsBack(Patched(extra));
    PatchedIs(extra, m[base + PROTECTION]);
  }

  lemma {:induction false} PatchedIs(f: Fields, low: bv8)
    ensures var e := Patched(f); e.(prot := e.prot | (low as bv32)) == PatchedWith(f, low)
  {
  }

  /** The entry, once written, is packed and holds the words. */
  lemma {:induction false} ReadBack(m: seq<bv8>, base: nat, offset: nat, w: seq<bv16>)
    requires |w| == FIELDS && base + DIRENTRYSIZE <= |m|
    requires Written(m, base + offset, NonZero(w, FIELDS), FlagsOf(w, FIELDS))
    requires m[base + NEXT] as nat == offset + 2 * |NonZero(w, FIELDS)| + 2
    ensures Packed(m, base)
    ensures var f := FieldsOf(w); FieldsAt(m, base) == f.(prot := f.prot | (m[base + PROTECTION] as bv32))
  {
    hide FlagsOf, NonZero, WordAt, ReadDown, FieldsOf, Stored, Written, EntryEnd, Packed, FieldsAt;
    var p, n := base + offset, |NonZero(w, FIELDS)|;
    EndIs(m, base, offset + 2 * n + 2);
    NoneBefore(w);
    ReadWritten(m, p, w, 0);
    WrittenFits(m, p, NonZero(w, FIELDS), FlagsOf(w, FIELDS));
    assert w[0..] == w;
    FieldsBack(m, base, p + 2 * n + 2, w);
  }

  lemma {:induction false} FieldsBack(m: seq<bv8>, base: nat, end: nat, w: seq<bv16>)
    requires base + DIRENTRYSIZE <= |m| && EntryEnd(m, base) == end && 2 <= end <= |m| && |w| == FIELDS
    requires 2 * Stored(WordAt(m, end - 2), 0) <= end - 2 && ReadDown(m, end - 2, WordAt(m, end - 2), 0) == w
    ensures Packed(m, base)
    ensures var f := FieldsOf(w); FieldsAt(m, base) == f.(prot := f.prot | (m[base + PROTECTION] as bv32))
  {
    hide WordAt, ReadDown, FieldsOf, Stored, EntryEnd;
  }

  lemma {:induction false} EndIs(m: seq<bv8>, base: nat, n: nat)
    requires base + DIRENTRYSIZE <= |m| && m[base + NEXT] as nat == n
    ensures EntryEnd(m, base) == base + n
  {
  }

  lemma {:induction false} NoneBefore(w: seq<bv16>)
    ensures NonZero(w, 0) == []
  {
  }
}
