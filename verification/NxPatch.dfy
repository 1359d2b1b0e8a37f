/** memdump/modify-mem-dump.c: the page-table walk in C pointer arithmetic, and the
    in-place clearing of one execute-disable bit. */
module NxPatch {
  import opened Bits
  import opened PhysMem
  import opened Paging

  const PTRS_PER_TABLE: nat := 512
  const PAGE_SHIFT: nat := 12
  const PMD_SHIFT: nat := PAGE_SHIFT + (PAGE_SHIFT - 3)
  const PUD_SHIFT: nat := PMD_SHIFT + (PAGE_SHIFT - 3)
  const PGDIR_SHIFT: nat := PUD_SHIFT + (PAGE_SHIFT - 3)
  const PHYSICAL_MASK: nat := TWO52 - 1
  const PAGE_PSE: nat := 0x80
  const PAGE_NX: nat := TWO63

  function PgdIndex(address: nat): nat { And(Shr(address, PGDIR_SHIFT), PTRS_PER_TABLE - 1) }
  function PudIndex(address: nat): nat { And(Shr(address, PUD_SHIFT), PTRS_PER_TABLE - 1) }
  function PmdIndex(address: nat): nat { And(Shr(address, PMD_SHIFT), PTRS_PER_TABLE - 1) }
  function PteIndex(address: nat): nat { And(Shr(address, PAGE_SHIFT), PTRS_PER_TABLE - 1) }

  function PtePfnMask(): nat { And(Not64(TWO12 - 1), PHYSICAL_MASK) }
  function PmdPfnMask(pmd: nat): nat {
    if And(pmd, PAGE_PSE) != 0 then And(Not64(TWO21 - 1), PHYSICAL_MASK) else PtePfnMask()
  }
  function PudPfnMask(pud: nat): nat {
    if And(pud, PAGE_PSE) != 0 then And(Not64(TWO30 - 1), PHYSICAL_MASK) else PtePfnMask()
  }

  function PgdPageVaddr(pgd: nat): nat { And(pgd, PtePfnMask()) }
  function PudPageVaddr(pud: nat): nat { And(pud, PudPfnMask(pud)) }
  function PmdPageVaddr(pmd: nat): nat { And(pmd, PmdPfnMask(pmd)) }

  /** The C index macro and the C table-address helper used at each level. */
  function TableIndex(va: nat, level: nat): nat
    requires 1 <= level <= 4
  {
    match level case 4 => PgdIndex(va) case 3 => PudIndex(va) case 2 => PmdIndex(va) case _ => PteIndex(va)
  }

  function PageVaddr(e: nat, level: nat): nat
    requires 2 <= level <= 4
  {
    match level case 4 => PgdPageVaddr(e) case 3 => PudPageVaddr(e) case _ => PmdPageVaddr(e)
  }

  /** Where the C walk arrives: a page-table entry, an error return, or an address outside the
      mapped file, where the C program has no defined behaviour. */
  datatype Target = Pte(slot: nat) | Error(rc: int) | Wild

  /** The rest of the C walk, from the level-`level` table at byte `base` of the image. */
  function FindFrom(m: seq<Byte>, base: nat, va: nat, level: nat): (t: Target)
    requires 1 <= level <= 4
    ensures t.Pte? ==> t.slot + 8 <= |m|
    ensures t.Error? ==> -3 <= t.rc <= level - 5
    decreases level
  {
    var entry := base + 8 * TableIndex(va, level);
    if entry + 8 > |m| then Wild
    else if level == 1 then Pte(entry)
    else if Word(m, entry) == 0 then Error(level - 5)
    else FindFrom(m, PageVaddr(Word(m, entry), level), va, level - 1)
  }

  function FindPte(m: seq<Byte>, pgdBase: nat, va: nat): (t: Target)
    ensures t.Pte? ==> t.slot + 8 <= |m|
  {
    FindFrom(m, pgdBase, va, 4)
  }

  /** The image with execute-disable cleared in the entry at `slot`. */
  function Patched(m: seq<Byte>, slot: nat): (r: seq<Byte>)
    requires slot + 8 <= |m|
    ensures |r| == |m|
  {
    Put(m, slot, Word(m, slot) % TWO63)
  }

  method ClearPageNXFlag(physmem: array<Byte>, pgdBase: nat, va: nat) returns (rc: int)
    requires !FindPte(physmem[..], pgdBase, va).Wild?
    modifies physmem
    ensures var t := FindPte(old(physmem[..]), pgdBase, va);
      match t
      case Pte(slot) => rc == 0 && physmem[..] == Patched(old(physmem[..]), slot)
      case Error(code) => rc == code && physmem[..] == old(physmem[..])
      case Wild => false
  {
    hide And, Index, Pow2, Bytes, Value;
    ghost var m := physmem[..];
    var pgd := pgdBase + 8 * PgdIndex(va);
    if Word(physmem[..], pgd) == 0 { return -1; }
    var pud := PgdPageVaddr(Word(physmem[..], pgd)) + 8 * PudIndex(va);
    assert FindPte(m, pgdBase, va) == FindFrom(m, PgdPageVaddr(Word(m, pgd)), va, 3);
    if Word(physmem[..], pud) == 0 { return -2; }
    var pmd := PudPageVaddr(Word(physmem[..], pud)) + 8 * PmdIndex(va);
    assert FindPte(m, pgdBase, va) == FindFrom(m, PudPageVaddr(Word(m, pud)), va, 2);
    if Word(physmem[..], pmd) == 0 { return -3; }
    var ptep := PmdPageVaddr(Word(physmem[..], pmd)) + 8 * PteIndex(va);
    assert FindPte(m, pgdBase, va) == Pte(ptep);
    ClearBit63(Word(physmem[..], ptep));
    StoreWord(physmem, ptep, And(Word(physmem[..], ptep), Not64(PAGE_NX)));
    rc := 0;
  }

  // The C arithmetic against the paging structures.

  lemma Indices(va: nat)
    ensures forall level :: 1 <= level <= 4 ==> TableIndex(va, level) == Index(va, level)
  {
    hide And, Shr;
    PowerValues();
    ShrIsQuotient(va, 39);
    ShrIsQuotient(va, 30);
    ShrIsQuotient(va, 21);
    ShrIsQuotient(va, 12);
    AndMask(va / TWO39, 9, 0);
    AndMask(va / TWO30, 9, 0);
    AndMask(va / TWO21, 9, 0);
    AndMask(va / TWO12, 9, 0);
  }

  lemma SpanMask(n: nat)
    requires n <= 52
    ensures Pow2(n) <= Pow2(52)
    ensures And(Pow2(64) - Pow2(n), Pow2(52) - 1) == Pow2(52) - Pow2(n)
  {
    hide And;
    var p := Pow2(n);
    Pow2Monotone(n, 52);
    PowerValues();
    AndMask(TWO64 - p, 52, 0);
    RemainderUnique(TWO64 - p, TWO52, 0x1000 - 1, TWO52 - p);
  }

  lemma PfnMasks(e: nat)
    ensures PtePfnMask() == TWO52 - TWO12
    ensures PudPfnMask(e) == if LargePage(e) then TWO52 - TWO30 else TWO52 - TWO12
    ensures PmdPfnMask(e) == if LargePage(e) then TWO52 - TWO21 else TWO52 - TWO12
  {
    hide And;
    PowerValues();
    SpanMask(12);
    SpanMask(21);
    SpanMask(30);
    AndOneBit(e, 7);
  }

  lemma FrameBytes(e: nat, d: nat)
    requires d > 0 && TWO52 % d == 0
    ensures e % TWO52 - e % d == e % TWO52 / d * d
  {
    var j := TWO52 / d;
    var q, r := e / TWO52, e % TWO52;
    assert e == q * TWO52 + r && r == r / d * d + r % d;
    assert q * TWO52 == q * j * d by { assert TWO52 == j * d; }
    assert e == (q * j + r / d) * d + r % d;
    RemainderUnique(e, d, q * j + r / d, r % d);
  }

  /** An entry without PSE leads the C code to the table it points to. */
  lemma TableAddress(e: nat, level: nat)
    requires 2 <= level <= 4 && (level == 4 || !LargePage(e))
    ensures PageVaddr(e, level) == Frame(e) * TWO12
  {
    hide And;
    PfnMasks(e);
    PowerValues();
    AndMask(e, 52, 12);
    FrameBytes(e, TWO12);
  }

  lemma MaskedFrame(e: nat, n: nat, d: nat)
    requires 12 <= n <= 52 && d == Pow2(n) && TWO52 % d == 0 && d == TWO12 * (d / TWO12)
    ensures And(e, TWO52 - d) == e % TWO52 / TWO12 / (d / TWO12) * (d / TWO12) * TWO12
  {
    hide And, Pow2;
    PowerValues();
    AndMask(e, 52, n);
    FrameBytes(e, d);
    DivDiv(e % TWO52, TWO12, d / TWO12);
    var q := e % TWO52 / d;
    assert q * (d / TWO12) * TWO12 == q * d;
  }

  /** With PSE the C code takes the mapped 2 MB or 1 GB page itself for a table. */
  lemma LargeTarget(e: nat, level: nat)
    requires LargePage(e) && 2 <= level <= 3
    ensures PageVaddr(e, level) == FirstFrame(e, level) * TWO12
  {
    hide And, Pow2, LargePage;
    PfnMasks(e);
    PowerValues();
    if level == 2 {
      MaskedFrame(e, 21, TWO21);
    } else {
      MaskedFrame(e, 30, TWO30);
    }
  }

  function LastEntry(m: seq<Byte>, slots: seq<nat>): nat
    requires InImage(m, slots) && slots != []
  {
    assert slots[|slots| - 1] in slots;
    Word(m, slots[|slots| - 1])
  }

  /** What the C walk has to do with a processor walk of up to `level` entries.  It finds the 4 KB
      leaf entry when there is one, and it leaves the image when the processor does.  If the
      processor stops at an upper entry, the C code stops there, with the error that names the
      level, only when that entry is zero; any other entry it follows. */
  ghost predicate Refines(m: seq<Byte>, w: Walked, t: Target, level: nat)
    requires InImage(m, w.slots)
  {
    var n := |w.slots|;
    && (n == level > 0 ==> t == Pte(w.slots[n - 1]))
    && (w.end.OutOfImage? ==> t == Wild)
    && (1 <= n < level && !w.end.OutOfImage? ==>
          && (LastEntry(m, w.slots) == 0 ==> w.end.NotPresent?)
          && (t == Error(level - 4 - n) <==> LastEntry(m, w.slots) == 0))
  }

  /** One step of both walks to the next table. */
  lemma BothGoOn(m: seq<Byte>, table: nat, va: nat, level: nat)
    requires 1 <= level <= 4
    requires var slot := Slot(table, va, level); slot + 8 <= |m| && Decode(Word(m, slot), va, level).Next?
    ensures level > 1
    ensures var slot := Slot(table, va, level);
      var next := Decode(Word(m, slot), va, level).table;
      var w, rest := Walk(m, table, va, level), Walk(m, next, va, level - 1);
      && w == Walked([slot] + rest.slots, rest.end)
      && (rest.slots != [] ==> LastEntry(m, w.slots) == LastEntry(m, rest.slots))
      && (rest.slots == [] ==> LastEntry(m, w.slots) != 0)
      && FindFrom(m, table * TWO12, va, level) == FindFrom(m, next * TWO12, va, level - 1)
  {
    hide TableIndex, PageVaddr, Index, Frame, LeafAddress, Word;
    Indices(va);
    TableAddress(Word(m, Slot(table, va, level)), level);
  }

  /** The last step of the processor's walk, and the C walk there. */
  lemma WalkStops(m: seq<Byte>, table: nat, va: nat, level: nat)
    requires 1 <= level <= 4
    requires var slot := Slot(table, va, level);
      slot + 8 <= |m| ==> Decode(Word(m, slot), va, level).Stop?
    ensures var slot := Slot(table, va, level);
      var w, t := Walk(m, table, va, level), FindFrom(m, table * TWO12, va, level);
      if slot + 8 > |m| then w == Walked([], OutOfImage) && t == Wild
      else
        var e := Word(m, slot);
        && w == Walked([slot], Decode(e, va, level).end)
        && LastEntry(m, w.slots) == e
        && t == (if level == 1 then Pte(slot)
                 else if e == 0 then Error(level - 5)
                 else FindFrom(m, PageVaddr(e, level), va, level - 1))
  {
    hide TableIndex, PageVaddr, Index, Frame, LeafAddress, Word;
    Indices(va);
  }

  lemma {:induction false} WalkRefinementFrom(m: seq<Byte>, table: nat, va: nat, level: nat)
    requires 1 <= level <= 4
    ensures Refines(m, Walk(m, table, va, level), FindFrom(m, table * TWO12, va, level), level)
    decreases level
  {
    hide TableIndex, PageVaddr, Index, Frame, LeafAddress, Word, Walk, FindFrom, Slot, LastEntry;
    var slot := Slot(table, va, level);
    if slot + 8 <= |m| && Decode(Word(m, slot), va, level).Next? {
      BothGoOn(m, table, va, level);
      WalkRefinementFrom(m, Decode(Word(m, slot), va, level).table, va, level - 1);
    } else {
      WalkStops(m, table, va, level);
    }
  }

  lemma AlignedFrame(cr3: nat)
    requires cr3 % TWO12 == 0 && cr3 < TWO52
    ensures Frame(cr3) * TWO12 == cr3
  {
  }

  /** For a page-aligned base, the C walk refines the processor's walk from CR3. */
  lemma WalkRefinement(m: seq<Byte>, cr3: nat, va: nat)
    requires cr3 % TWO12 == 0 && cr3 < TWO52
    ensures Refines(m, Translate(m, cr3, va), FindPte(m, cr3, va), 4)
  {
    AlignedFrame(cr3);
    WalkRefinementFrom(m, Frame(cr3), va, 4);
  }

  /** The two walks end alike: at the same leaf entry, at the same absent upper entry, or both
      outside the image. */
  predicate EndAlike(w: Walked, t: Target) {
    match t
    case Pte(slot) => |w.slots| == 4 && slot == w.slots[3]
    case Error(rc) => w.end.NotPresent? && rc == -|w.slots|
    case Wild => w.end.OutOfImage?
  }

  /** When they do.  The C code tests upper entries for zero and not for the present bit, and does
      not test PSE: the walks part at a last upper entry that is neither. */
  lemma WalksEndAlike(m: seq<Byte>, cr3: nat, va: nat)
    requires cr3 % TWO12 == 0 && cr3 < TWO52
    ensures var w := Translate(m, cr3, va);
      EndAlike(w, FindPte(m, cr3, va)) <==>
        |w.slots| == 4 || w.end.OutOfImage? || LastEntry(m, w.slots) == 0
  {
    hide Walk, FindFrom, Word;
    WalkRefinement(m, cr3, va);
  }

  /** CR3 is passed on unmasked: the top-level entry is the right one iff its low bits are zero. */
  lemma UnmaskedCr3(cr3: nat, va: nat)
    requires cr3 < TWO52
    ensures cr3 + 8 * PgdIndex(va) == Slot(Frame(cr3), va, 4) <==> cr3 % TWO12 == 0
  {
    Indices(va);
    assert TableIndex(va, 4) == Index(va, 4);
  }

  // What patching one entry does to every address.

  lemma PatchAgrees(m: seq<Byte>, slot: nat, slots: seq<nat>)
    requires slot + 8 <= |m| && slot % 8 == 0 && InImage(m, slots)
    ensures AgreeOn(m, Patched(m, slot), slots)
    ensures forall s :: s in slots ==>
      (NoExecute(Word(Patched(m, slot), s)) <==> s != slot && NoExecute(Word(m, s)))
  {
    forall s | s in slots
      ensures EqualButNX(Word(m, s), Word(Patched(m, slot), s))
      ensures NoExecute(Word(Patched(m, slot), s)) <==> s != slot && NoExecute(Word(m, s))
    {
      if s == slot {
        WordOfPut(m, slot, Word(m, slot) % TWO63);
      } else {
        AlignedApart(s, slot);
        WordFrame(m, slot, Word(m, slot) % TWO63, s);
      }
    }
  }

  lemma AlignedApart(s: nat, t: nat)
    requires s % 8 == 0 && t % 8 == 0 && s != t
    ensures s + 8 <= t || t + 8 <= s
  {
  }

  /** Clearing execute-disable in any aligned word leaves the walk of every address as it was,
      however the tables are shared: same entries, same physical address or fault, same write
      and user rights.  An address is executable afterwards iff every entry it reads other than
      the patched one has execute-disable clear. */
  lemma PatchFrame(m: seq<Byte>, slot: nat, cr3: nat, va: nat)
    requires slot + 8 <= |m| && slot % 8 == 0
    ensures var m' := Patched(m, slot);
      var w := Translate(m, cr3, va);
      && Translate(m', cr3, va) == w
      && MayWrite(m', w.slots) == MayWrite(m, w.slots)
      && MayUser(m', w.slots) == MayUser(m, w.slots)
      && (MayExecute(m', w.slots) <==>
          forall s :: s in w.slots && s != slot ==> !NoExecute(Word(m, s)))
  {
    var m' := Patched(m, slot);
    var w := Translate(m, cr3, va);
    PatchAgrees(m, slot, w.slots);
    WalkDecidedBySlots(m, m', Frame(cr3), va, 4);
    RightsDecidedBySlots(m, m', w.slots);
  }

  lemma FindAligned(m: seq<Byte>, base: nat, va: nat, level: nat)
    requires 1 <= level <= 4 && base % 8 == 0
    ensures var t := FindFrom(m, base, va, level); t.Pte? ==> t.slot % 8 == 0
    decreases level
  {
    hide TableIndex, PageVaddr, Word;
    var entry := base + 8 * TableIndex(va, level);
    if entry + 8 <= |m| && level > 1 {
      var e := Word(m, entry);
      PageVaddrAligned(e, level);
      FindAligned(m, PageVaddr(e, level), va, level - 1);
    }
  }

  lemma MaskedAligned(e: nat, n: nat, d: nat)
    requires 3 <= n <= 52 && d == Pow2(n) && d % 8 == 0 && TWO52 % d == 0
    ensures And(e, TWO52 - d) % 8 == 0
  {
    hide And, Pow2;
    PowerValues();
    AndMask(e, 52, n);
    FrameBytes(e, d);
    MultipleAligned(e % TWO52 / d, d / 8);
  }

  lemma MultipleAligned(q: nat, c: nat)
    ensures q * (8 * c) % 8 == 0
  {
    assert q * (8 * c) == (q * c) * 8;
    RemainderUnique(q * (8 * c), 8, q * c, 0);
  }

  lemma PageVaddrAligned(e: nat, level: nat)
    requires 2 <= level <= 4
    ensures PageVaddr(e, level) % 8 == 0
  {
    hide And;
    PfnMasks(e);
    PowerValues();
    MaskedAligned(e, 12, TWO12);
    MaskedAligned(e, 21, TWO21);
    MaskedAligned(e, 30, TWO30);
  }

  /** What a return value of 0 means, for every address `va` and not only the requested one: the
      result of `PatchFrame`, and an address whose execute right changes reads the patched entry. */
  lemma ClearedForOne(m: seq<Byte>, cr3: nat, va0: nat, va: nat)
    requires cr3 % TWO12 == 0 && FindPte(m, cr3, va0).Pte?
    ensures var slot := FindPte(m, cr3, va0).slot;
      var m' := Patched(m, slot);
      var w := Translate(m, cr3, va);
      && Translate(m', cr3, va) == w
      && MayWrite(m', w.slots) == MayWrite(m, w.slots)
      && MayUser(m', w.slots) == MayUser(m, w.slots)
      && (MayExecute(m, w.slots) ==> MayExecute(m', w.slots))
      && (MayExecute(m', w.slots) != MayExecute(m, w.slots) ==> slot in w.slots)
      && (|Translate(m, cr3, va0).slots| == 4 && cr3 < TWO52 ==> slot == Translate(m, cr3, va0).slots[3])
  {
    hide FindPte, Translate, Patched, Word, NoExecute;
    FindPteAligned(m, cr3, va0);
    PatchFrame(m, FindPte(m, cr3, va0).slot, cr3, va);
    if cr3 < TWO52 {
      WalkRefinement(m, cr3, va0);
    }
  }

  lemma FindPteAligned(m: seq<Byte>, cr3: nat, va: nat)
    requires cr3 % TWO12 == 0
    ensures var t := FindPte(m, cr3, va); t.Pte? ==> t.slot % 8 == 0
  {
    hide FindFrom;
    assert cr3 % 8 == 0;
    FindAligned(m, cr3, va, 4);
  }

  /** The number of the 4 KB page of a 48-bit linear address. */
  function PageNumber(va: nat): nat
  {
    va % TWO48 / TWO12
  }

  /** The bits of `va` that select the first `i + 1` entries of its walk. */
  function Prefix(va: nat, i: nat): nat
    requires i < 4
  {
    va % TWO48 / Span(4 - i)
  }

  /** The tables under `cr3` form a tree: no entry is read along two different index paths. */
  ghost predicate TreeShaped(m: seq<Byte>, cr3: nat)
  {
    forall va: nat, va': nat, i: nat, j: nat ::
      var w, w' := Translate(m, cr3, va).slots, Translate(m, cr3, va').slots;
      i < |w| && j < |w'| && w[i] == w'[j] ==> i == j && Prefix(va, i) == Prefix(va', j)
  }

  lemma {:induction false} SamePageSameWalk(m: seq<Byte>, table: nat, va: nat, va': nat, level: nat)
    requires 1 <= level <= 4
    requires forall k :: 1 <= k <= 4 ==> Index(va, k) == Index(va', k)
    ensures Walk(m, table, va, level).slots == Walk(m, table, va', level).slots
    decreases level
  {
    hide LeafAddress, Frame, Index, Word;
    var slot := Slot(table, va, level);
    if slot + 8 <= |m| {
      var d := Decode(Word(m, slot), va, level);
      if d.Next? {
        SamePageSameWalk(m, d.table, va, va', level - 1);
      }
    }
  }

  lemma PageDecidesIndex(va: nat, level: nat)
    requires 1 <= level <= 4
    ensures Index(va, level) == PageNumber(va) / (Span(level) / TWO12) % 512
  {
    var d := Span(level);
    var j := TWO48 / (512 * d);
    assert TWO48 == j * (512 * d);
    var q, r := va / TWO48, va % TWO48;
    assert va == r + q * j * (512 * d) by {
      assert va == q * TWO48 + r;
      assert q * TWO48 == q * j * (512 * d);
    }
    FieldOfSum(r, d, 512, q * j);
    DivDiv(r, TWO12, d / TWO12);
  }

  lemma SamePageSameSlots(m: seq<Byte>, cr3: nat, va: nat, va': nat)
    requires PageNumber(va) == PageNumber(va')
    ensures Translate(m, cr3, va).slots == Translate(m, cr3, va').slots
  {
    forall k | 1 <= k <= 4 ensures Index(va, k) == Index(va', k) {
      PageDecidesIndex(va, k);
      PageDecidesIndex(va', k);
    }
    SamePageSameWalk(m, Frame(cr3), va, va', 4);
  }

  lemma OtherPageOtherSlots(m: seq<Byte>, cr3: nat, va: nat, va0: nat)
    requires TreeShaped(m, cr3) && PageNumber(va) != PageNumber(va0)
    requires |Translate(m, cr3, va0).slots| == 4
    ensures Translate(m, cr3, va0).slots[3] !in Translate(m, cr3, va).slots
  {
    hide Walk, Word, Index, Frame;
    var slots0, slots := Translate(m, cr3, va0).slots, Translate(m, cr3, va).slots;
    forall i | 0 <= i < |slots| ensures slots[i] != slots0[3] {
      assert slots[i] == slots0[3] ==> i == 3 && Prefix(va, i) == Prefix(va0, 3);
    }
  }

  lemma LeafSlotReadOnce(m: seq<Byte>, cr3: nat, va0: nat)
    requires TreeShaped(m, cr3)
    requires |Translate(m, cr3, va0).slots| == 4
    ensures var slots0 := Translate(m, cr3, va0).slots;
      UpperExecute(m, slots0) <==> forall s :: s in slots0 && s != slots0[3] ==> !NoExecute(Word(m, s))
  {
    hide Walk, Word, Index, Frame, NoExecute;
    var slots0 := Translate(m, cr3, va0).slots;
    assert forall i: nat :: i < 3 ==> slots0[i] != slots0[3];
  }

  /** All entries of a walk but the last allow execution. */
  ghost predicate UpperExecute(m: seq<Byte>, slots: seq<nat>)
    requires InImage(m, slots)
  {
    forall i :: 0 <= i < |slots| - 1 ==>
      assert slots[i] in slots;
      !NoExecute(Word(m, slots[i]))
  }

  /** In a tree, a return value of 0 for a 4 KB mapping makes executable only addresses in that
      page, and the page is executable afterwards iff its three upper entries allow it. */
  lemma TreePatch(m: seq<Byte>, cr3: nat, va0: nat, va: nat)
    requires TreeShaped(m, cr3) && cr3 % TWO12 == 0 && cr3 < TWO52
    requires |Translate(m, cr3, va0).slots| == 4
    ensures var t := FindPte(m, cr3, va0);
      var slots0 := Translate(m, cr3, va0).slots;
      var slots := Translate(m, cr3, va).slots;
      && t.Pte? && t.slot in slots0
      && (PageNumber(va) != PageNumber(va0) ==>
            MayExecute(Patched(m, t.slot), slots) == MayExecute(m, slots))
      && (PageNumber(va) == PageNumber(va0) ==>
            (MayExecute(Patched(m, t.slot), slots) <==> UpperExecute(m, slots0)))
  {
    hide Translate, FindPte, Word, Patched, NoExecute, PageNumber, TreeShaped;
    var slots0, slots := Translate(m, cr3, va0).slots, Translate(m, cr3, va).slots;
    var slot := slots0[3];
    WalkRefinement(m, cr3, va0);
    assert slot in slots0;
    PatchFrame(m, slot, cr3, va);
    if PageNumber(va) == PageNumber(va0) {
      SamePageSameSlots(m, cr3, va, va0);
      LeafSlotReadOnce(m, cr3, va0);
    } else {
      OtherPageOtherSlots(m, cr3, va, va0);
    }
  }

  /** A walk that ends in a large page mapped at level `k`: the C walk goes on with the page itself
      as the table of level `k - 1`. */
  lemma {:induction false} LargePageFrom(m: seq<Byte>, table: nat, va: nat, level: nat)
    requires 1 <= level <= 4
    requires var w := Walk(m, table, va, level); |w.slots| < level && w.end.Leaf?
    ensures var w := Walk(m, table, va, level);
      var k := level + 1 - |w.slots|;
      && 2 <= k <= 3
      && FindFrom(m, table * TWO12, va, level)
         == FindFrom(m, FirstFrame(LastEntry(m, w.slots), k) * TWO12, va, k - 1)
    decreases level
  {
    hide TableIndex, PageVaddr, Index, Frame, FirstFrame, LeafAddress, Word, Walk, FindFrom, Slot, LastEntry;
    var slot := Slot(table, va, level);
    if slot + 8 <= |m| && Decode(Word(m, slot), va, level).Next? {
      BothGoOn(m, table, va, level);
      LargePageFrom(m, Decode(Word(m, slot), va, level).table, va, level - 1);
    } else {
      WalkStops(m, table, va, level);
      var e := Word(m, slot);
      assert e != 0 && LargePage(e);
      LargeTarget(e, level);
    }
  }

  lemma LargePageWalk(m: seq<Byte>, cr3: nat, va: nat)
    requires cr3 % TWO12 == 0 && cr3 < TWO52
    requires var w := Translate(m, cr3, va); |w.slots| < 4 && w.end.Leaf?
    ensures var w := Translate(m, cr3, va);
      var k := 5 - |w.slots|;
      && 2 <= k <= 3
      && FindPte(m, cr3, va) == FindFrom(m, FirstFrame(LastEntry(m, w.slots), k) * TWO12, va, k - 1)
  {
    hide Walk, FindFrom, FirstFrame, Word;
    AlignedFrame(cr3);
    LargePageFrom(m, Frame(cr3), va, 4);
  }

  /** The C code does not look for large pages: for an address in a 2 MB page it returns 0 having
      changed a word of the page itself, and the address stays as executable as it was unless
      that word happens to be one of the three entries of its walk. */
  lemma LargePageMissed(m: seq<Byte>, cr3: nat, va: nat)
    requires cr3 % TWO12 == 0 && cr3 < TWO52
    requires var w := Translate(m, cr3, va); |w.slots| == 3 && w.end.Leaf?
    requires FindPte(m, cr3, va) != Wild
    ensures var w := Translate(m, cr3, va);
      var t := FindPte(m, cr3, va);
      && t.Pte?
      && (var first := FirstFrame(LastEntry(m, w.slots), 2) * TWO12; first <= t.slot < first + TWO12)
      && (t.slot !in w.slots ==> MayExecute(Patched(m, t.slot), w.slots) == MayExecute(m, w.slots))
  {
    hide Walk, Frame, FirstFrame, Index, Word, Put, NoExecute, Shr, And;
    LargePageWalk(m, cr3, va);
    Indices(va);
    var t := FindPte(m, cr3, va);
    FindPteAligned(m, cr3, va);
    PatchFrame(m, t.slot, cr3, va);
  }

  /** For an address in a 1 GB page it takes a word of the page for the next entry: -3 if the word is
      zero, and otherwise the entry patched is the one that the word leads to; again the address
      stays as executable as it was unless that is one of the two entries of its walk. */
  lemma HugePageMissed(m: seq<Byte>, cr3: nat, va: nat)
    requires cr3 % TWO12 == 0 && cr3 < TWO52
    requires var w := Translate(m, cr3, va); |w.slots| == 2 && w.end.Leaf?
    ensures var w := Translate(m, cr3, va);
      var t := FindPte(m, cr3, va);
      var data := FirstFrame(LastEntry(m, w.slots), 3) * TWO12 + 8 * Index(va, 2);
      && (data + 8 > |m| ==> t == Wild)
      && (data + 8 <= |m| && Word(m, data) == 0 ==> t == Error(-3))
      && (data + 8 <= |m| && Word(m, data) != 0 ==>
            var slot := PmdPageVaddr(Word(m, data)) + 8 * Index(va, 1);
            t == if slot + 8 <= |m| then Pte(slot) else Wild)
      && (t.Pte? && t.slot !in w.slots ==>
            MayExecute(Patched(m, t.slot), w.slots) == MayExecute(m, w.slots))
  {
    hide Walk, Frame, FirstFrame, Index, Word, Put, NoExecute, TableIndex, PmdPageVaddr;
    LargePageWalk(m, cr3, va);
    Indices(va);
    assert TableIndex(va, 2) == Index(va, 2) && TableIndex(va, 1) == Index(va, 1);
    var t := FindPte(m, cr3, va);
    if t.Pte? {
      FindPteAligned(m, cr3, va);
      PatchFrame(m, t.slot, cr3, va);
    }
  }
}
