/** 4-level paging as the processor performs it (Intel SDM Vol. 3A, sections 4.5 and 4.6.1),
    over a memory image that starts at physical address 0. */
module Paging {
  import opened Bits
  import opened PhysMem

  predicate Present(e: nat) { e % 2 == 1 }
  predicate Writable(e: nat) { e / 2 % 2 == 1 }
  predicate UserPage(e: nat) { e / 4 % 2 == 1 }
  predicate LargePage(e: nat) { e / 128 % 2 == 1 }
  predicate NoExecute(e: nat) { e / TWO63 % 2 == 1 }

  /** The bytes one entry of a level-`level` table maps: 4 KB, 2 MB, 1 GB, 512 GB. */
  function Span(level: nat): (n: nat)
    requires 1 <= level <= 4
    ensures n > 0
  {
    match level case 1 => TWO12 case 2 => TWO21 case 3 => TWO30 case _ => TWO39
  }

  /** The nine bits of a linear address that select an entry at `level`. */
  function Index(va: nat, level: nat): (i: nat)
    requires 1 <= level <= 4
    ensures i < 512
  {
    va / Span(level) % 512
  }

  /** The page frame number in an entry (bits 51 to 12). */
  function Frame(e: nat): nat
  {
    e % TWO52 / TWO12
  }

  /** The frame of the first byte that a leaf entry at `level` maps (bits 51 down to its span). */
  function FirstFrame(e: nat, level: nat): nat
    requires 1 <= level <= 3
  {
    Frame(e) / (Span(level) / TWO12) * (Span(level) / TWO12)
  }

  /** The address of the entry for `va` in the level-`level` table in page frame `table`. */
  function Slot(table: nat, va: nat, level: nat): (s: nat)
    requires 1 <= level <= 4
    ensures s % 8 == 0
  {
    table * TWO12 + 8 * Index(va, level)
  }

  /** The physical address of `va` under a leaf entry. */
  function LeafAddress(e: nat, va: nat, level: nat): nat
    requires 1 <= level <= 3
  {
    FirstFrame(e, level) * TWO12 + va % Span(level)
  }

  /** The translated address keeps the offset below the span and takes the rest from the entry. */
  lemma LeafAddressFields(e: nat, va: nat, level: nat)
    requires 1 <= level <= 3
    ensures LeafAddress(e, va, level) % Span(level) == va % Span(level)
    ensures LeafAddress(e, va, level) / Span(level) == e % TWO52 / Span(level)
  {
    var c := Span(level) / TWO12;
    var f := e % TWO52 / TWO12;
    DivDiv(e % TWO52, TWO12, c);
    assert f / c * c * TWO12 == f / c * Span(level);
    AddQuotient(va % Span(level), Span(level), f / c);
  }

  /** How a walk ends. */
  datatype End =
    | Leaf(pa: nat)      // translated
    | NotPresent         // an entry with P = 0
    | ReservedBit        // a PML4 entry with PS = 1
    | OutOfImage         // the next entry lies outside the image

  /** The entries a walk reads, by physical address and in order, and its end. */
  datatype Walked = Walked(slots: seq<nat>, end: End)

  ghost predicate InImage(m: seq<Byte>, slots: seq<nat>)
  {
    forall s :: s in slots ==> s + 8 <= |m| && s % 8 == 0
  }

  /** What an entry read at `level` makes of the walk. */
  datatype Decoded = Stop(end: End) | Next(table: nat)

  function Decode(e: nat, va: nat, level: nat): Decoded
    requires 1 <= level <= 4
  {
    if !Present(e) then Stop(NotPresent)
    else if level == 1 then Stop(Leaf(LeafAddress(e, va, 1)))
    else if !LargePage(e) then Next(Frame(e))
    else if level == 4 then Stop(ReservedBit)
    else Stop(Leaf(LeafAddress(e, va, level)))
  }

  /** The walk of `va` from the level-`level` table in page frame `table`. */
  function Walk(m: seq<Byte>, table: nat, va: nat, level: nat): (w: Walked)
    requires 1 <= level <= 4
    ensures InImage(m, w.slots) && |w.slots| <= level
    ensures w.end.OutOfImage? || w.slots != []
    decreases level
  {
    var slot := Slot(table, va, level);
    if slot + 8 > |m| then Walked([], OutOfImage)
    else
      match Decode(Word(m, slot), va, level)
      case Stop(end) => Walked([slot], end)
      case Next(table') =>
        var rest := Walk(m, table', va, level - 1);
        Walked([slot] + rest.slots, rest.end)
  }

  /** The walk from the top-level table that CR3 selects. */
  function Translate(m: seq<Byte>, cr3: nat, va: nat): (w: Walked)
    ensures InImage(m, w.slots) && |w.slots| <= 4
    ensures w.end.OutOfImage? || w.slots != []
  {
    Walk(m, Frame(cr3), va, 4)
  }

  // Access rights are the conjunction over all entries read.

  ghost predicate MayWrite(m: seq<Byte>, slots: seq<nat>)
    requires InImage(m, slots)
  {
    forall s :: s in slots ==> Writable(Word(m, s))
  }

  ghost predicate MayUser(m: seq<Byte>, slots: seq<nat>)
    requires InImage(m, slots)
  {
    forall s :: s in slots ==> UserPage(Word(m, s))
  }

  ghost predicate MayExecute(m: seq<Byte>, slots: seq<nat>)
    requires InImage(m, slots)
  {
    forall s :: s in slots ==> !NoExecute(Word(m, s))
  }

  /** Two entries equal in every bit but execute-disable. */
  predicate EqualButNX(e: nat, e': nat) {
    e % TWO63 == e' % TWO63
  }

  lemma FieldsEqual(e: nat, e': nat)
    requires e < TWO64 && e' < TWO64 && EqualButNX(e, e')
    ensures Present(e) == Present(e') && Writable(e) == Writable(e') && UserPage(e) == UserPage(e')
    ensures LargePage(e) == LargePage(e')
    ensures Frame(e) == Frame(e')
  {
    if e < e' {
      FieldsIgnoreBit63(e);
      assert e' == e + TWO63;
    } else if e' < e {
      FieldsIgnoreBit63(e');
      assert e == e' + TWO63;
    }
  }

  lemma FieldsIgnoreBit63(e: nat)
    ensures var e' := e + TWO63;
      Present(e) == Present(e') && Writable(e) == Writable(e') && UserPage(e) == UserPage(e')
      && LargePage(e) == LargePage(e') && Frame(e) == Frame(e')
  {
    AddMultiple(e, 1, TWO63 / 2);
    AddMultiple(e, 2, TWO63 / 4);
    AddMultiple(e, 4, TWO63 / 8);
    AddMultiple(e, 128, TWO63 / 256);
    AddMultiple(e, TWO52, TWO63 / TWO52 / 2);
  }

  ghost predicate AgreeOn(m: seq<Byte>, m': seq<Byte>, slots: seq<nat>)
    requires |m| <= |m'| && InImage(m, slots)
  {
    forall s :: s in slots ==> EqualButNX(Word(m, s), Word(m', s))
  }

  lemma DecodeIgnoresNX(e: nat, e': nat, va: nat, level: nat)
    requires e < TWO64 && e' < TWO64 && EqualButNX(e, e') && 1 <= level <= 4
    ensures Decode(e, va, level) == Decode(e', va, level)
  {
    FieldsEqual(e, e');
  }

  /** A walk is decided by the entries it reads, and not by their execute-disable bits. */
  lemma {:induction false} WalkDecidedBySlots(m: seq<Byte>, m': seq<Byte>, table: nat, va: nat, level: nat)
    requires 1 <= level <= 4
    requires |m| <= |m'|
    requires AgreeOn(m, m', Walk(m, table, va, level).slots)
    requires Walk(m, table, va, level).end.OutOfImage? ==> |m| == |m'|
    ensures Walk(m', table, va, level) == Walk(m, table, va, level)
    decreases level
  {
    var slot := Slot(table, va, level);
    if slot + 8 <= |m| {
      assert slot in Walk(m, table, va, level).slots;
      DecodeIgnoresNX(Word(m, slot), Word(m', slot), va, level);
      var d := Decode(Word(m, slot), va, level);
      if d.Next? {
        var rest := Walk(m, d.table, va, level - 1);
        assert forall s :: s in rest.slots ==> s in Walk(m, table, va, level).slots;
        WalkDecidedBySlots(m, m', d.table, va, level - 1);
      }
    }
  }

  lemma RightsDecidedBySlots(m: seq<Byte>, m': seq<Byte>, slots: seq<nat>)
    requires |m| <= |m'| && InImage(m, slots) && AgreeOn(m, m', slots)
    ensures InImage(m', slots)
    ensures MayWrite(m', slots) == MayWrite(m, slots) && MayUser(m', slots) == MayUser(m, slots)
  {
    forall s | s in slots
      ensures Writable(Word(m, s)) == Writable(Word(m', s)) && UserPage(Word(m, s)) == UserPage(Word(m', s))
    {
      FieldsEqual(Word(m, s), Word(m', s));
    }
  }
}
