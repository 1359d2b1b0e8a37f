/** snap-vm-qmp.py, the rest of memdump/modify-mem-dump.c, and reload-saved-memory-qmp.py:
    dump, patch, cut around a hole of three pages, and load over another machine's memory. */
module Restore {
  import opened Bits
  import opened PhysMem
  import opened Paging
  import opened NxPatch

  const GB: nat := TWO30
  const BLOCK: nat := 4096
  const HOLE_START: nat := 0x80b * BLOCK
  const HOLE_END: nat := 0x80e * BLOCK
  const FLAG: nat := 0x80df08
  const GDT: nat := 0x3d00b000
  const TSS_DESCRIPTOR: nat := GDT + 0x40
  const TRAMPOLINE_VA: nat := 0xffff88800080c000
  const TRAMPOLINE_PA: nat := 0x80c000

  // modify_mem_dump

  function GdtPatched(m: seq<Byte>): (r: seq<Byte>)
    requires TSS_DESCRIPTOR + 8 <= |m|
    ensures |r| == |m|
  {
    Put(m, TSS_DESCRIPTOR, And(Word(m, TSS_DESCRIPTOR), Not64(TWO41)))
  }

  function PatchedDump(m: seq<Byte>, cr3: nat, va: nat): (r: seq<Byte>)
    requires TSS_DESCRIPTOR + 8 <= |m|
    ensures |r| == |m|
  {
    var t := FindPte(m, cr3, va);
    GdtPatched(if t.Pte? then Patched(m, t.slot) else m)
  }

  /** The descriptor is patched whether or not the page-table walk succeeded. */
  method ModifyMemDump(file: array<Byte>, cr3: nat, va: nat)
    requires TSS_DESCRIPTOR + 8 <= file.Length
    requires !FindPte(file[..], cr3, va).Wild?
    modifies file
    ensures file[..] == PatchedDump(old(file[..]), cr3, va)
    ensures Word(file[..], TSS_DESCRIPTOR) / TWO41 % 2 == 0
  {
    hide And, FindPte;
    DescriptorAvailable(file[..], cr3, va);
    var rc := ClearPageNXFlag(file, cr3, va);
    StoreWord(file, TSS_DESCRIPTOR, And(Word(file[..], TSS_DESCRIPTOR), Not64(TWO41)));
  }

  /** Clearing bit 41 turns a busy TSS descriptor into an available one and keeps every other bit. */
  lemma TssAvailable(m: seq<Byte>)
    requires TSS_DESCRIPTOR + 8 <= |m|
    ensures var before, after := Word(m, TSS_DESCRIPTOR), Word(GdtPatched(m), TSS_DESCRIPTOR);
      && after / TWO41 % 2 == 0
      && after % TWO41 == before % TWO41
      && after / (2 * TWO41) == before / (2 * TWO41)
  {
    var before := Word(m, TSS_DESCRIPTOR);
    hide And;
    ClearBit41(before);
    if before / TWO41 % 2 == 1 {
      ClearedBit(before, TWO41);
    }
    WordOfPut(m, TSS_DESCRIPTOR, And(before, Not64(TWO41)));
  }

  /** In every dump, whether or not the page-table walk succeeded: the busy bit is clear, and the other
      bits of the descriptor are those before that patch; with a page-aligned CR3 they are the source's,
      but for the execute-disable bit if the page-table patch hit that word. */
  lemma DescriptorAvailable(m: seq<Byte>, cr3: nat, va: nat)
    requires TSS_DESCRIPTOR + 8 <= |m|
    ensures var t := FindPte(m, cr3, va);
      var before := Word(if t.Pte? then Patched(m, t.slot) else m, TSS_DESCRIPTOR);
      var after := Word(PatchedDump(m, cr3, va), TSS_DESCRIPTOR);
      var w := Word(m, TSS_DESCRIPTOR);
      && after / TWO41 % 2 == 0
      && after % TWO41 == before % TWO41 && after / (2 * TWO41) == before / (2 * TWO41)
      && (cr3 % TWO12 == 0 ==> before == if t == Pte(TSS_DESCRIPTOR) then w % TWO63 else w)
  {
    hide And, FindPte, GdtPatched;
    var t := FindPte(m, cr3, va);
    var w := Word(m, TSS_DESCRIPTOR);
    TssAvailable(if t.Pte? then Patched(m, t.slot) else m);
    if t.Pte? && cr3 % TWO12 == 0 {
      FindPteAligned(m, cr3, va);
      if t.slot == TSS_DESCRIPTOR {
        WordOfPut(m, t.slot, w % TWO63);
      } else {
        AlignedApart(TSS_DESCRIPTOR, t.slot);
        WordFrame(m, t.slot, Word(m, t.slot) % TWO63, TSS_DESCRIPTOR);
      }
    }
  }

  /** Every byte of the dump outside the two patched words is the source's. */
  lemma DumpFrame(m: seq<Byte>, cr3: nat, va: nat, i: nat)
    requires TSS_DESCRIPTOR + 8 <= |m| && i < |m|
    ensures var t := FindPte(m, cr3, va);
      TSS_DESCRIPTOR <= i < TSS_DESCRIPTOR + 8 || (t.Pte? && t.slot <= i < t.slot + 8)
      || PatchedDump(m, cr3, va)[i] == m[i]
  {
    hide And, FindPte, Word;
  }

  // snap-vm-qmp.py

  function Min(a: nat, b: nat): nat { if a < b then a else b }

  /** `dd bs=4096 skip=skip count=count`. */
  function Dd(file: seq<Byte>, skip: nat, count: nat): seq<Byte>
  {
    var from := Min(skip * BLOCK, |file|);
    file[from..Min(from + count * BLOCK, |file|)]
  }

  /** The two `dd` commands leave out the hole and nothing else. */
  lemma DdAroundHole(file: seq<Byte>)
    requires |file| == GB
    ensures Dd(file, 0, 0x80b) == file[..HOLE_START] && Dd(file, 0x80e, 0x3f7f2) == file[HOLE_END..]
  {
  }

  method SnapVm(ram: array<Byte>, cr3: nat) returns (part1: seq<Byte>, part2: seq<Byte>)
    requires GB <= ram.Length
    requires !FindPte(ram[..GB], cr3, TRAMPOLINE_VA).Wild?
    ensures var dump := PatchedDump(ram[..GB], cr3, TRAMPOLINE_VA);
      part1 == dump[..HOLE_START] && part2 == dump[HOLE_END..]
  {
    hide PatchedDump, FindPte, Dd, Word;
    var memDump := new Byte[GB](i requires 0 <= i < GB reads ram => ram[i]);
    assert memDump[..] == ram[..GB];
    ModifyMemDump(memDump, cr3, TRAMPOLINE_VA);
    DdAroundHole(memDump[..]);
    part1 := Dd(memDump[..], 0, 0x80b);
    part2 := Dd(memDump[..], 0x80e, 0x3f7f2);
  }

  // reload-saved-memory-qmp.py

  /** `m` with `file` loaded at `val`. */
  function Loaded(m: seq<Byte>, val: nat, file: seq<Byte>): (r: seq<Byte>)
    requires val + |file| <= |m|
    ensures |r| == |m|
    ensures forall i :: 0 <= i < |m| ==> r[i] == if val <= i < val + |file| then file[i - val] else m[i]
  {
    m[..val] + file + m[val + |file|..]
  }

  method PMemLoad(ram: array<Byte>, val: nat, size: nat, file: seq<Byte>)
    requires val + size <= ram.Length && size <= |file|
    modifies ram
    ensures ram[..] == Loaded(old(ram[..]), val, file[..size])
  {
    forall i | 0 <= i < size {
      ram[val + i] := file[i];
    }
    assert ram[val..val + size] == file[..size];
  }

  /** The target memory after the three loads. */
  function Reloaded(target: seq<Byte>, dump: seq<Byte>, flag: seq<Byte>): (r: seq<Byte>)
    requires |dump| == GB <= |target| && |flag| == 8
    ensures |r| == |target|
  {
    dump[..HOLE_START] + target[HOLE_START..FLAG] + flag + target[FLAG + 8..HOLE_END] + dump[HOLE_END..]
    + target[GB..]
  }

  /** `dump` is the patched image the two files were cut from. */
  method ReloadSavedMemory(ram: array<Byte>, part1: seq<Byte>, part2: seq<Byte>, flag: seq<Byte>,
                           ghost dump: seq<Byte>)
    requires GB == |dump| <= ram.Length && |flag| == 8
    requires part1 == dump[..HOLE_START] && part2 == dump[HOLE_END..]
    modifies ram
    ensures ram[..] == Reloaded(old(ram[..]), dump, flag)
  {
    hide Loaded, Reloaded;
    ghost var target := ram[..];
    assert part1[..0x80b000] == dump[..HOLE_START] && part2[..0x3F7F2000] == dump[HOLE_END..] && flag[..8] == flag;
    PMemLoad(ram, 0, 0x80b000, part1);
    PMemLoad(ram, 0x80e000, 0x3F7F2000, part2);
    PMemLoad(ram, FLAG, 8, flag);
    LoadsCompose(target, dump, flag);
  }

  lemma LoadsCompose(target: seq<Byte>, dump: seq<Byte>, flag: seq<Byte>)
    requires |dump| == GB <= |target| && |flag| == 8
    ensures Loaded(Loaded(Loaded(target, 0, dump[..HOLE_START]), HOLE_END, dump[HOLE_END..]), FLAG, flag)
         == Reloaded(target, dump, flag)
  {
    var r := Loaded(Loaded(Loaded(target, 0, dump[..HOLE_START]), HOLE_END, dump[HOLE_END..]), FLAG, flag);
    forall i | 0 <= i < |target| ensures r[i] == Reloaded(target, dump, flag)[i] {
      ReloadedBytes(target, dump, flag, i);
    }
  }

  /** Both scripts in turn. */
  method SnapAndReload(source: array<Byte>, cr3: nat, target: array<Byte>, flag: seq<Byte>)
    requires GB <= source.Length && GB <= target.Length && |flag| == 8 && source != target
    requires !FindPte(source[..GB], cr3, TRAMPOLINE_VA).Wild?
    modifies target
    ensures target[..] ==
      Reloaded(old(target[..]), PatchedDump(source[..GB], cr3, TRAMPOLINE_VA), flag)
  {
    var part1, part2 := SnapVm(source, cr3);
    ReloadSavedMemory(target, part1, part2, flag, PatchedDump(source[..GB], cr3, TRAMPOLINE_VA));
  }

  // What survives.

  predicate InHole(a: nat) { HOLE_START <= a < HOLE_END }

  /** Byte by byte: the dump outside the hole, the target inside it, but for the flag. */
  lemma ReloadedBytes(target: seq<Byte>, dump: seq<Byte>, flag: seq<Byte>, i: nat)
    requires |dump| == GB <= |target| && |flag| == 8 && i < |target|
    ensures Reloaded(target, dump, flag)[i] ==
      if FLAG <= i < FLAG + 8 then flag[i - FLAG]
      else if InHole(i) || GB <= i then target[i]
      else dump[i]
  {
  }

  /** So the target finds an available TSS descriptor in its GDT. */
  lemma DescriptorReloaded(source: seq<Byte>, target: seq<Byte>, flag: seq<Byte>, cr3: nat, va: nat)
    requires |source| == GB <= |target| && |flag| == 8
    ensures var after := Word(Reloaded(target, PatchedDump(source, cr3, va), flag), TSS_DESCRIPTOR);
      after / TWO41 % 2 == 0 && after == Word(PatchedDump(source, cr3, va), TSS_DESCRIPTOR)
  {
    hide And, FindPte, Word, PatchedDump, Reloaded;
    var dump := PatchedDump(source, cr3, va);
    forall i | TSS_DESCRIPTOR <= i < TSS_DESCRIPTOR + 8 ensures Reloaded(target, dump, flag)[i] == dump[i] {
      ReloadedBytes(target, dump, flag, i);
    }
    SameBytesSameWord(Reloaded(target, dump, flag), dump, TSS_DESCRIPTOR);
    DescriptorAvailable(source, cr3, va);
  }

  /** The entries of a walk lie outside the hole and are not the patched descriptor. */
  ghost predicate Survives(slots: seq<nat>)
  {
    forall s :: s in slots ==> !InHole(s) && s != TSS_DESCRIPTOR
  }

  lemma SurvivingWord(m: seq<Byte>, target: seq<Byte>, flag: seq<Byte>, cr3: nat, va0: nat, s: nat)
    requires |m| == GB <= |target| && |flag| == 8
    requires s % 8 == 0 && s + 8 <= GB && !InHole(s) && s != TSS_DESCRIPTOR
    ensures var t := FindPte(m, cr3, va0);
      var kept := if t.Pte? then Patched(m, t.slot) else m;
      Word(Reloaded(target, PatchedDump(m, cr3, va0), flag), s) == Word(kept, s)
  {
    hide And, FindPte, Bytes, Value, Reloaded;
    var t := FindPte(m, cr3, va0);
    var kept := if t.Pte? then Patched(m, t.slot) else m;
    var dump := PatchedDump(m, cr3, va0);
    var r := Reloaded(target, dump, flag);
    AlignedApart(s, TSS_DESCRIPTOR);
    WordFrame(kept, TSS_DESCRIPTOR, And(Word(kept, TSS_DESCRIPTOR), Not64(TWO41)), s);
    forall i | s <= i < s + 8 ensures r[i] == dump[i] {
      ReloadedBytes(target, dump, flag, i);
    }
    SameBytesSameWord(r, dump, s);
  }

  /** The theorem the scripts exist for.  Take any address whose walk over the source stays in the
      image and reads neither the hole nor the patched descriptor.  Over the reloaded target the
      same CR3 gives the same entries, the same physical address or fault, and the same write and
      user rights; it may be executed iff no entry other than the patched one forbids it. */
  lemma RestoreEndToEnd(source: seq<Byte>, target: seq<Byte>, flag: seq<Byte>, cr3: nat, va0: nat, va: nat)
    requires |source| == GB <= |target| && |flag| == 8
    requires cr3 % TWO12 == 0
    requires !Translate(source, cr3, va).end.OutOfImage?
    requires Survives(Translate(source, cr3, va).slots)
    ensures var r := Reloaded(target, PatchedDump(source, cr3, va0), flag);
      var w := Translate(source, cr3, va);
      var t := FindPte(source, cr3, va0);
      && Translate(r, cr3, va) == w
      && MayWrite(r, w.slots) == MayWrite(source, w.slots)
      && MayUser(r, w.slots) == MayUser(source, w.slots)
      && (MayExecute(r, w.slots) <==>
            forall s :: s in w.slots && t != Pte(s) ==> !NoExecute(Word(source, s)))
  {
    hide FindPte, Reloaded, PatchedDump, Walk, Word, NoExecute, Patched, EqualButNX;
    var r := Reloaded(target, PatchedDump(source, cr3, va0), flag);
    var w := Translate(source, cr3, va);
    var t := FindPte(source, cr3, va0);
    forall s | s in w.slots
      ensures EqualButNX(Word(source, s), Word(r, s))
      ensures NoExecute(Word(r, s)) <==> t != Pte(s) && NoExecute(Word(source, s))
    {
      SurvivingEntry(source, target, flag, cr3, va0, s);
    }
    WalkDecidedBySlots(source, r, Frame(cr3), va, 4);
    RightsDecidedBySlots(source, r, w.slots);
  }

  lemma SurvivingEntry(m: seq<Byte>, target: seq<Byte>, flag: seq<Byte>, cr3: nat, va0: nat, s: nat)
    requires |m| == GB <= |target| && |flag| == 8 && cr3 % TWO12 == 0
    requires s % 8 == 0 && s + 8 <= GB && !InHole(s) && s != TSS_DESCRIPTOR
    ensures var r := Reloaded(target, PatchedDump(m, cr3, va0), flag);
      && EqualButNX(Word(m, s), Word(r, s))
      && (NoExecute(Word(r, s)) <==> FindPte(m, cr3, va0) != Pte(s) && NoExecute(Word(m, s)))
  {
    hide Reloaded, PatchedDump, Word, NoExecute, Patched;
    SurvivingWord(m, target, flag, cr3, va0, s);
    FindAligned(m, cr3, va0, 4);
    var t := FindPte(m, cr3, va0);
    if t.Pte? {
      assert s in [s];
      PatchAgrees(m, t.slot, [s]);
    }
  }

  /** The page the firmware returns through.  If the source maps the trampoline address to its
      frame in the hole by a 4 KB page, the target reaches that frame through the source CR3,
      executable iff the three upper entries allow it, and finds the target's own bytes there. */
  lemma TrampolineRuns(source: seq<Byte>, target: seq<Byte>, flag: seq<Byte>, cr3: nat, i: nat)
    requires |source| == GB <= |target| && |flag| == 8
    requires cr3 % TWO12 == 0 && cr3 < TWO52
    requires Survives(Translate(source, cr3, TRAMPOLINE_VA).slots)
    requires |Translate(source, cr3, TRAMPOLINE_VA).slots| == 4
    requires Translate(source, cr3, TRAMPOLINE_VA).end == Leaf(TRAMPOLINE_PA)
    requires i < TWO12
    ensures var r := Reloaded(target, PatchedDump(source, cr3, TRAMPOLINE_VA), flag);
      var w := Translate(source, cr3, TRAMPOLINE_VA);
      && Translate(r, cr3, TRAMPOLINE_VA).end == Leaf(TRAMPOLINE_PA)
      && r[TRAMPOLINE_PA + i] == target[TRAMPOLINE_PA + i]
      && (MayExecute(r, w.slots) <==>
            forall s :: s in w.slots && s != w.slots[3] ==> !NoExecute(Word(source, s)))
  {
    hide FindPte, Translate, PatchedDump, Walk, Word, NoExecute, Patched;
    var w := Translate(source, cr3, TRAMPOLINE_VA);
    WalkRefinement(source, cr3, TRAMPOLINE_VA);
    RestoreEndToEnd(source, target, flag, cr3, TRAMPOLINE_VA, TRAMPOLINE_VA);
  }

  /** What a virtual read sees: the patched dump's byte, or in the hole the target's; and the patched
      dump's is the source's unless the address maps onto one of the two patched words. */
  lemma ReadThrough(source: seq<Byte>, target: seq<Byte>, flag: seq<Byte>, cr3: nat, va0: nat, va: nat)
    requires |source| == GB <= |target| && |flag| == 8
    requires cr3 % TWO12 == 0
    requires Survives(Translate(source, cr3, va).slots)
    requires var end := Translate(source, cr3, va).end; end.Leaf? && end.pa < GB
    ensures var r := Reloaded(target, PatchedDump(source, cr3, va0), flag);
      var pa := Translate(source, cr3, va).end.pa;
      var t := FindPte(source, cr3, va0);
      && Translate(r, cr3, va).end == Leaf(pa)
      && (!InHole(pa) ==> r[pa] == PatchedDump(source, cr3, va0)[pa])
      && (r[pa] == source[pa] || InHole(pa) || TSS_DESCRIPTOR <= pa < TSS_DESCRIPTOR + 8
          || (t.Pte? && t.slot <= pa < t.slot + 8))
      && (InHole(pa) && !(FLAG <= pa < FLAG + 8) ==> r[pa] == target[pa])
  {
    hide FindPte, Translate, Walk, Word, NoExecute, And;
    RestoreEndToEnd(source, target, flag, cr3, va0, va);
    ReloadedBytes(target, PatchedDump(source, cr3, va0), flag, Translate(source, cr3, va).end.pa);
  }
}
