/** Reservation of AMD extended LVT offsets (arch/x86/kernel/apic/apic.c): the lock-free loop
    of `reserve_eilvt_offset` and its caller `setup_APIC_eilvt`, run by any number of CPUs
    whose atomic reads, compare-and-swaps and register accesses interleave freely. */
module Eilvt {

  const MASKED: bv32 := 0x1_0000
  const NR_MAX: nat := 4

  /** Everything in an entry but its mask bit. */
  function Unmasked(entry: bv32): bv32 { entry & !MASKED }

  predicate Changeable(current: bv32, requested: bv32) {
    current & MASKED != 0 || requested == MASKED || requested & !MASKED == current
  }

  /** The loop gives up: the slot is assigned and `requested` may not replace it. */
  predicate Conflict(rsvd: bv32, requested: bv32) {
    Unmasked(rsvd) != 0 && !Changeable(Unmasked(rsvd), requested)
  }

  lemma ConflictExact(rsvd: bv32, requested: bv32)
    ensures Conflict(rsvd, requested) <==>
      Unmasked(rsvd) != 0 && requested != MASKED && Unmasked(requested) != Unmasked(rsvd)
    ensures Conflict(rsvd, requested) ==> rsvd != requested
  {
  }

  function Entry(vector: bv8, msgType: bv8, mask: bv8): bv32 {
    (mask as bv32 << 16) | (msgType as bv32 << 8) | vector as bv32
  }

  /** A shared slot.  `history` is an auxiliary record of what the slot held between releases:
      one element for each release so far and one for now, 0 while unassigned. */
  datatype Slot = Slot(value: bv32, history: seq<bv32>)

  /** A CPU's register: left by the firmware, or written under the `epoch`-th reservation. */
  datatype Register = Firmware(value: bv32) | Written(value: bv32, epoch: nat)

  datatype Outcome = None | Success | Invalid | Busy

  /** Where a CPU is: outside the call, before the atomic read, at the head of the loop, before
      the compare-and-swap, or past the loop with `new` reserved. */
  datatype Pc = Idle | Read | Test | Swap | Reserved

  datatype Cpu = Cpu(
    pc: Pc,
    offset: nat,
    entry: bv32,
    previous: bv32,          // the register as it was read
    rsvd: bv32,
    epoch: nat,              // of the slot when the loop was left
    regs: seq<Register>,
    outcome: Outcome,
    swaps: nat,              // compare-and-swaps of this call
    disturbances: nat)       // changes other CPUs made to the slot since this call's atomic read

  datatype State = State(slots: seq<Slot>, cpus: seq<Cpu>)

  datatype Action = Call(cpu: nat, offset: bv8, vector: bv8, msgType: bv8, mask: bv8) | Go(cpu: nat)

  predicate CpuShape(c: Cpu) { |c.regs| == NR_MAX && c.offset < NR_MAX }

  /** The slot after this CPU's next step: only a compare-and-swap that finds what it expects
      changes it. */
  function NextSlot(slot: Slot, c: Cpu): (slot': Slot)
    requires slot.history != []
    ensures slot'.history != []
  {
    if !c.pc.Swap? || slot.value != c.rsvd then slot
    else if c.entry == MASKED then Slot(c.entry, slot.history + [0])
    else Slot(c.entry, slot.history[|slot.history| - 1 := Unmasked(c.entry)])
  }

  /** The CPU after its next step. */
  function NextCpu(slot: Slot, c: Cpu): (c': Cpu)
    requires slot.history != [] && CpuShape(c)
    ensures CpuShape(c') && c'.offset == c.offset && c'.entry == c.entry
    ensures c.pc.Idle? ==> c' == c
    ensures c'.pc.Idle? || (c'.regs == c.regs && c'.previous == c.previous)
  {
    hide Unmasked, Conflict, Changeable, NextSlot;
    match c.pc
    case Idle => c
    case Read => c.(pc := Test, rsvd := slot.value, swaps := 0, disturbances := 0)
    case Test =>
      if Conflict(c.rsvd, c.entry) then c.(pc := Idle, outcome := if c.rsvd != c.entry then Invalid else Success)
      else c.(pc := Swap)
    case Swap =>
      c.(pc := if slot.value == c.entry then Reserved else Test, rsvd := slot.value, swaps := c.swaps + 1,
         epoch := |NextSlot(slot, c).history| - 1)
    case Reserved =>
      if !Changeable(c.previous, c.entry) then c.(pc := Idle, outcome := Busy)
      else c.(pc := Idle, outcome := Success, regs := c.regs[c.offset := Written(c.entry, c.epoch)])
  }

  /** A CPU in its loop takes note when another CPU changes its slot. */
  function Disturbed(c: Cpu, offset: nat): (c': Cpu)
    ensures CpuShape(c) ==> CpuShape(c')
    ensures c' == c.(disturbances := c'.disturbances)
  {
    if (c.pc.Test? || c.pc.Swap?) && c.offset == offset then c.(disturbances := c.disturbances + 1) else c
  }

  function AllDisturbed(cpus: seq<Cpu>, offset: nat): (cpus': seq<Cpu>)
    ensures |cpus'| == |cpus|
    ensures forall j :: 0 <= j < |cpus| ==> cpus'[j] == Disturbed(cpus[j], offset)
  {
    seq(|cpus|, j requires 0 <= j < |cpus| => Disturbed(cpus[j], offset))
  }

  /** One atomic step of CPU `i`, which is inside the call. */
  function StepCpu(s: State, i: nat): (s': State)
    requires WellFormed(s) && i < |s.cpus|
    ensures WellFormed(s') && |s'.cpus| == |s.cpus|
  {
    var c := s.cpus[i];
    var slot := s.slots[c.offset];
    var slot' := NextSlot(slot, c);
    var others := if slot'.value != slot.value then AllDisturbed(s.cpus, c.offset) else s.cpus;
    State(s.slots[c.offset := slot'], others[i := NextCpu(slot, c)])
  }

  /** `setup_APIC_eilvt` is entered; an offset out of range is refused at once. */
  function Enter(c: Cpu, offset: nat, entry: bv32): Cpu
    requires |c.regs| == NR_MAX
  {
    if offset >= NR_MAX then
      c.(outcome := if 0xFFFF_FFFF != entry then Invalid else Success)
    else c.(pc := Read, offset := offset, entry := entry, previous := c.regs[offset].value)
  }

  function Step(s: State, a: Action): (s': State)
    requires WellFormed(s)
    ensures WellFormed(s') && |s'.cpus| == |s.cpus|
  {
    if a.cpu >= |s.cpus| then s
    else
      match a
      case Go(i) => StepCpu(s, i)
      case Call(i, offset, vector, msgType, mask) =>
        if !s.cpus[i].pc.Idle? then s
        else s.(cpus := s.cpus[i := Enter(s.cpus[i], offset as nat, Entry(vector, msgType, mask))])
  }

  function Run(s: State, actions: seq<Action>): (s': State)
    requires WellFormed(s)
    ensures WellFormed(s') && |s'.cpus| == |s.cpus|
    decreases |actions|
  {
    if actions == [] then s else Run(Step(s, actions[0]), actions[1..])
  }

  predicate WellFormed(s: State) {
    && |s.slots| == NR_MAX
    && (forall o :: 0 <= o < NR_MAX ==> s.slots[o].history != [])
    && (forall i :: 0 <= i < |s.cpus| ==> CpuShape(s.cpus[i]))
  }

  /** All slots unassigned and no CPU in the call, whatever the firmware left in the registers. */
  predicate Initial(s: State) {
    && WellFormed(s)
    && (forall o :: 0 <= o < NR_MAX ==> s.slots[o] == Slot(0, [0]))
    && (forall i :: 0 <= i < |s.cpus| ==> s.cpus[i].pc.Idle?)
    && (forall i, o :: 0 <= i < |s.cpus| && 0 <= o < NR_MAX ==> s.cpus[i].regs[o].Firmware?)
  }

  // The invariant.

  predicate SlotOk(slot: Slot) {
    slot.history != [] && slot.history[|slot.history| - 1] == Unmasked(slot.value)
  }

  /** A value under the `epoch`-th reservation carries no vector or that reservation's. */
  predicate Agrees(slot: Slot, value: bv32, epoch: nat) {
    epoch < |slot.history| && (Unmasked(value) == 0 || slot.history[epoch] == Unmasked(value))
  }

  /** Compare-and-swaps the loop still needs if nobody disturbs it. */
  function Remaining(slot: Slot, c: Cpu): nat {
    if slot.value == c.entry then 1 else if slot.value == c.rsvd then 2 else 3
  }

  predicate RegsOk(slots: seq<Slot>, regs: seq<Register>)
    requires |slots| == |regs| == NR_MAX
  {
    forall o :: 0 <= o < NR_MAX && regs[o].Written? ==> Agrees(slots[o], regs[o].value, regs[o].epoch)
  }

  predicate LoopOk(slot: Slot, c: Cpu)
  {
    && (c.pc.Swap? ==> !Conflict(c.rsvd, c.entry))
    && (c.pc.Test? || c.pc.Swap? ==> c.swaps + Remaining(slot, c) <= 2 + 2 * c.disturbances)
    && (c.pc.Reserved? ==> c.swaps <= 2 + 2 * c.disturbances && Agrees(slot, c.entry, c.epoch))
  }

  /** Throughout a call the register holds what was read from it. */
  predicate PreviousOk(c: Cpu)
    requires CpuShape(c)
  {
    c.pc.Idle? || c.previous == c.regs[c.offset].value
  }

  predicate CpuOk(slots: seq<Slot>, c: Cpu)
    requires |slots| == NR_MAX && CpuShape(c)
  {
    RegsOk(slots, c.regs) && LoopOk(slots[c.offset], c) && PreviousOk(c)
  }

  predicate Inv(s: State) {
    && WellFormed(s)
    && (forall o :: 0 <= o < NR_MAX ==> SlotOk(s.slots[o]))
    && (forall i :: 0 <= i < |s.cpus| ==> CpuOk(s.slots, s.cpus[i]))
  }

  /** How a slot's record may develop: past reservations stay, the present one may be filled in. */
  predicate Extends(slot: Slot, slot': Slot) {
    && |slot.history| <= |slot'.history|
    && (forall e :: 0 <= e < |slot.history| ==> slot.history[e] == 0 || slot'.history[e] == slot.history[e])
  }

  lemma MaskedUnassigned()
    ensures Unmasked(MASKED) == Unmasked(0) == 0
  {
  }

  lemma NextSlotExtends(slot: Slot, c: Cpu)
    requires SlotOk(slot) && LoopOk(slot, c)
    ensures var slot' := NextSlot(slot, c);
      && SlotOk(slot') && Extends(slot, slot')
      && (c.pc.Swap? && slot'.value == c.entry ==> Agrees(slot', c.entry, |slot'.history| - 1))
  {
    hide Unmasked, Conflict;
    ConflictExact(c.rsvd, c.entry);
    MaskedUnassigned();
  }

  lemma RegsKept(slots: seq<Slot>, slots': seq<Slot>, regs: seq<Register>)
    requires |slots| == |slots'| == |regs| == NR_MAX && RegsOk(slots, regs)
    requires forall o :: 0 <= o < NR_MAX ==> Extends(slots[o], slots'[o])
    ensures RegsOk(slots', regs)
  {
    hide Unmasked;
  }

  /** A loop is not hurt by another CPU's step on its slot. */
  lemma OtherLoopOk(slot: Slot, slot': Slot, c: Cpu)
    requires LoopOk(slot, c) && Extends(slot, slot')
    ensures LoopOk(slot', if slot'.value != slot.value then Disturbed(c, c.offset) else c)
  {
    hide Unmasked, Conflict;
  }

  lemma OwnSwapOk(slot: Slot, c: Cpu)
    requires SlotOk(slot) && CpuShape(c) && LoopOk(slot, c) && c.pc.Swap?
    ensures LoopOk(NextSlot(slot, c), NextCpu(slot, c))
  {
    hide Unmasked, Conflict, Agrees, Extends;
    NextSlotExtends(slot, c);
    var c' := NextCpu(slot, c);
    var slot' := NextSlot(slot, c);
    if slot.value == c.entry {
      assert slot'.value == c.entry;
    } else {
      assert Remaining(slot', c') + 1 == Remaining(slot, c);
    }
  }

  lemma OwnReadOk(slot: Slot, c: Cpu)
    requires SlotOk(slot) && CpuShape(c) && c.pc.Read?
    ensures LoopOk(slot, NextCpu(slot, c))
  {
    hide Unmasked, Conflict, Agrees, Changeable, NextSlot;
  }

  lemma OwnTestOk(slot: Slot, c: Cpu)
    requires SlotOk(slot) && CpuShape(c) && LoopOk(slot, c) && c.pc.Test?
    ensures LoopOk(slot, NextCpu(slot, c))
  {
    hide Unmasked, Conflict, Agrees, Changeable, NextSlot;
    var c' := NextCpu(slot, c);
    if c'.pc.Swap? {
      hide NextCpu;
      assert Remaining(slot, c') == Remaining(slot, c);
    }
  }

  lemma OwnOtherStepOk(slot: Slot, c: Cpu)
    requires SlotOk(slot) && CpuShape(c) && LoopOk(slot, c) && !c.pc.Swap?
    ensures LoopOk(slot, NextCpu(slot, c))
  {
    hide Unmasked, Conflict, Agrees, Changeable, NextSlot, Remaining;
    if c.pc.Read? {
      OwnReadOk(slot, c);
    } else if c.pc.Test? {
      OwnTestOk(slot, c);
    }
  }

  lemma OwnRegsOk(slots: seq<Slot>, c: Cpu)
    requires |slots| == NR_MAX && CpuShape(c) && CpuOk(slots, c) && slots[c.offset].history != []
    ensures RegsOk(slots, NextCpu(slots[c.offset], c).regs)
  {
    hide Unmasked, Conflict;
  }

  lemma StepCpuKeepsInv(s: State, i: nat)
    requires Inv(s) && i < |s.cpus|
    ensures Inv(StepCpu(s, i))
    ensures forall o :: 0 <= o < NR_MAX ==> Extends(s.slots[o], StepCpu(s, i).slots[o])
  {
    hide RegsOk, LoopOk, Extends, Unmasked, Agrees;
    var s' := StepCpu(s, i);
    var c := s.cpus[i];
    NextSlotExtends(s.slots[c.offset], c);
    forall o | 0 <= o < NR_MAX ensures Extends(s.slots[o], s'.slots[o]) {
      ExtendsReflexive(s.slots[o]);
    }
    forall j | 0 <= j < |s.cpus| ensures CpuOk(s'.slots, s'.cpus[j]) {
      if j == i {
        if c.pc.Swap? {
          OwnSwapOk(s.slots[c.offset], c);
        } else {
          OwnOtherStepOk(s.slots[c.offset], c);
        }
        OwnRegsOk(s.slots, c);
        RegsKept(s.slots, s'.slots, s'.cpus[i].regs);
      } else {
        var d := s.cpus[j];
        RegsKept(s.slots, s'.slots, d.regs);
        OtherLoopOk(s.slots[d.offset], s'.slots[d.offset], d);
      }
    }
  }

  lemma ExtendsReflexive(slot: Slot)
    ensures Extends(slot, slot)
  {
  }

  lemma CallKeepsInv(s: State, a: Action)
    requires Inv(s) && a.Call?
    ensures Inv(Step(s, a)) && Step(s, a).slots == s.slots
    ensures forall o :: 0 <= o < NR_MAX ==> Extends(s.slots[o], s.slots[o])
  {
    hide Unmasked, Conflict, Entry, RegsOk, Remaining, Agrees;
    forall o | 0 <= o < NR_MAX ensures Extends(s.slots[o], s.slots[o]) {
      ExtendsReflexive(s.slots[o]);
    }
    if a.cpu < |s.cpus| {
      assert CpuOk(s.slots, s.cpus[a.cpu]);
    }
  }

  lemma StepKeepsInv(s: State, a: Action)
    requires Inv(s)
    ensures Inv(Step(s, a))
    ensures forall o :: 0 <= o < NR_MAX ==> Extends(s.slots[o], Step(s, a).slots[o])
  {
    hide Inv, Extends, StepCpu;
    InvShape(s);
    if a.Call? {
      CallKeepsInv(s, a);
    } else if a.cpu < |s.cpus| {
      StepCpuKeepsInv(s, a.cpu);
    } else {
      forall o | 0 <= o < NR_MAX ensures Extends(s.slots[o], s.slots[o]) {
        ExtendsReflexive(s.slots[o]);
      }
    }
  }

  lemma InitialInv(s: State)
    requires Initial(s)
    ensures Inv(s)
  {
    MaskedUnassigned();
  }

  lemma {:induction false} RunKeepsInv(s: State, actions: seq<Action>)
    requires Inv(s)
    ensures Inv(Run(s, actions))
    decreases |actions|
  {
    if actions != [] {
      StepKeepsInv(s, actions[0]);
      RunKeepsInv(Step(s, actions[0]), actions[1..]);
    }
  }

  // Results over all runs.

  /** The CPU has written `value` to its register for `offset`, or is past the loop and about to. */
  ghost predicate Holds(c: Cpu, offset: nat, value: bv32, epoch: nat)
    requires CpuShape(c) && offset < NR_MAX
  {
    || c.regs[offset] == Written(value, epoch)
    || (c.pc.Reserved? && c.offset == offset && c.entry == value && c.epoch == epoch)
  }

  lemma HeldAgrees(s: State, i: nat, offset: nat, value: bv32, epoch: nat)
    requires Inv(s) && i < |s.cpus| && offset < NR_MAX && Holds(s.cpus[i], offset, value, epoch)
    ensures Agrees(s.slots[offset], value, epoch)
  {
    hide Unmasked, Conflict;
    assert CpuOk(s.slots, s.cpus[i]);
  }

  /** Cross-CPU agreement, in every interleaving of any calls on any CPUs.  Values held under one
      reservation carry the same vector on all CPUs, and under the present reservation it is the
      shared slot's. */
  lemma CrossCpuAgreement(s0: State, actions: seq<Action>, o: nat,
                          i: nat, v: bv32, j: nat, w: bv32, epoch: nat)
    requires Initial(s0) && o < NR_MAX && i < |s0.cpus| && j < |s0.cpus|
    requires var s := Run(s0, actions); Holds(s.cpus[i], o, v, epoch) && Holds(s.cpus[j], o, w, epoch)
    ensures var slot := Run(s0, actions).slots[o];
      && (Unmasked(v) == 0 || Unmasked(w) == 0 || Unmasked(v) == Unmasked(w))
      && (epoch == |slot.history| - 1 ==> Unmasked(v) == 0 || Unmasked(v) == Unmasked(slot.value))
  {
    hide Unmasked, Conflict;
    hide Inv, Run, Initial, Holds;
    InitialInv(s0);
    RunKeepsInv(s0, actions);
    InvShape(Run(s0, actions));
    HeldAgrees(Run(s0, actions), i, o, v, epoch);
    HeldAgrees(Run(s0, actions), j, o, w, epoch);
  }

  /** The step is a compare-and-swap that releases the slot. */
  predicate Releases(s: State, a: Action, o: nat)
    requires WellFormed(s) && o < NR_MAX
  {
    && a.Go? && a.cpu < |s.cpus|
    && var c := s.cpus[a.cpu];
       c.pc.Swap? && c.offset == o && c.entry == MASKED && s.slots[o].value == c.rsvd
  }

  function ReleaseCount(s: State, actions: seq<Action>, o: nat): nat
    requires WellFormed(s) && o < NR_MAX
    decreases |actions|
  {
    if actions == [] then 0
    else (if Releases(s, actions[0], o) then 1 else 0) + ReleaseCount(Step(s, actions[0]), actions[1..], o)
  }

  /** The length of the record counts the releases, and past reservations are never rewritten. */
  lemma {:induction false} HistoryOfRun(s: State, actions: seq<Action>, o: nat)
    requires Inv(s) && o < NR_MAX
    ensures Extends(s.slots[o], Run(s, actions).slots[o])
    ensures |Run(s, actions).slots[o].history| == |s.slots[o].history| + ReleaseCount(s, actions, o)
    decreases |actions|
  {
    if actions != [] {
      hide Unmasked, Conflict, Inv;
      StepKeepsInv(s, actions[0]);
      InvShape(s);
      HistoryOfRun(Step(s, actions[0]), actions[1..], o);
    }
  }

  lemma InvShape(s: State)
    requires Inv(s)
    ensures WellFormed(s)
    ensures forall o :: 0 <= o < NR_MAX ==> SlotOk(s.slots[o])
  {
  }

  /** A slot assigned to one vector is assigned to another one only after a release. */
  lemma ReassignedOnlyByRelease(s0: State, before: seq<Action>, actions: seq<Action>, o: nat)
    requires Initial(s0) && o < NR_MAX
    ensures var s := Run(s0, before);
      var v, w := Unmasked(s.slots[o].value), Unmasked(Run(s, actions).slots[o].value);
      v != 0 && w != v ==> ReleaseCount(s, actions, o) > 0
  {
    hide Unmasked, Inv, Run, ReleaseCount, Initial;
    InitialInv(s0);
    RunKeepsInv(s0, before);
    var s := Run(s0, before);
    InvShape(s);
    RunKeepsInv(s, actions);
    InvShape(Run(s, actions));
    HistoryOfRun(s, actions, o);
  }

  // When all CPUs agree with the shared slot.

  /** Every value held for the offset carries no vector or the shared slot's. */
  ghost predicate Agreed(s: State, o: nat)
    requires WellFormed(s) && o < NR_MAX
  {
    forall i, v, epoch :: 0 <= i < |s.cpus| && Holds(s.cpus[i], o, v, epoch) ==>
      Unmasked(v) == 0 || Unmasked(v) == Unmasked(s.slots[o].value)
  }

  /** Some CPU holds a value that carries a vector. */
  ghost predicate InUse(s: State, o: nat)
    requires WellFormed(s) && o < NR_MAX
  {
    exists i, v, epoch :: 0 <= i < |s.cpus| && Holds(s.cpus[i], o, v, epoch) && Unmasked(v) != 0
  }

  /** The step releases an offset that is in use. */
  ghost predicate Careless(s: State, a: Action, o: nat)
    requires WellFormed(s) && o < NR_MAX
  {
    Releases(s, a, o) && InUse(s, o)
  }

  /** What a CPU comes to hold in its own step is what it has just reserved. */
  lemma OwnHolds(slot: Slot, c: Cpu, o: nat, v: bv32, epoch: nat)
    requires slot.history != [] && CpuShape(c) && o < NR_MAX
    ensures Holds(NextCpu(slot, c), o, v, epoch) ==>
      Holds(c, o, v, epoch) || (c.pc.Swap? && c.offset == o && v == c.entry == slot.value)
    ensures c.pc.Swap? && Holds(c, o, v, epoch) ==> Holds(NextCpu(slot, c), o, v, epoch)
  {
    hide Unmasked, Conflict, Changeable, NextSlot;
  }

  lemma OtherHolds(c: Cpu, offset: nat, o: nat, v: bv32, epoch: nat)
    requires CpuShape(c) && o < NR_MAX
    ensures Holds(Disturbed(c, offset), o, v, epoch) == Holds(c, o, v, epoch)
  {
  }

  /** The vector of a slot changes from none or by a release. */
  lemma SlotVector(slot: Slot, c: Cpu)
    requires slot.history != [] && LoopOk(slot, c)
    ensures var slot' := NextSlot(slot, c);
      && (c.pc.Swap? && slot.value == c.rsvd && c.entry == MASKED ==> Unmasked(slot'.value) == 0)
      && (!(c.pc.Swap? && slot.value == c.rsvd && c.entry == MASKED) ==>
            Unmasked(slot'.value) == Unmasked(slot.value) || Unmasked(slot.value) == 0)
      && (c.pc.Swap? && c.entry == slot.value ==> slot'.value == slot.value)
  {
    hide Unmasked, Conflict;
    ConflictExact(c.rsvd, c.entry);
    MaskedUnassigned();
  }

  /** What a CPU holds after a step: what it held, or for the CPU that steps what it reserved. */
  lemma StepHolds(s: State, i: nat, j: nat, o: nat, v: bv32, epoch: nat)
    requires WellFormed(s) && i < |s.cpus| && j < |s.cpus| && o < NR_MAX
    ensures var c, slot := s.cpus[i], s.slots[s.cpus[i].offset];
      && (Holds(StepCpu(s, i).cpus[j], o, v, epoch) ==>
            Holds(s.cpus[j], o, v, epoch) || (c.pc.Swap? && c.offset == o && v == c.entry == slot.value))
      && (c.pc.Swap? && Holds(s.cpus[j], o, v, epoch) ==> Holds(StepCpu(s, i).cpus[j], o, v, epoch))
  {
    hide NextCpu, NextSlot, Disturbed, Holds;
    OwnHolds(s.slots[s.cpus[i].offset], s.cpus[i], o, v, epoch);
    OtherHolds(s.cpus[j], s.cpus[i].offset, o, v, epoch);
  }

  lemma StepKeepsAgreed(s: State, i: nat, o: nat)
    requires Inv(s) && i < |s.cpus| && o < NR_MAX && Agreed(s, o) && !Careless(s, Go(i), o)
    ensures Agreed(StepCpu(s, i), o)
  {
    hide Unmasked, Conflict, NextCpu, NextSlot, StepCpu, Holds;
    var s' := StepCpu(s, i);
    forall j, v, epoch | 0 <= j < |s'.cpus| && Holds(s'.cpus[j], o, v, epoch)
      ensures Unmasked(v) == 0 || Unmasked(v) == Unmasked(s'.slots[o].value)
    {
      StepHolds(s, i, j, o, v, epoch);
      StepSlotVector(s, i, o);
    }
  }

  lemma StepSlotVector(s: State, i: nat, o: nat)
    requires Inv(s) && i < |s.cpus| && o < NR_MAX
    ensures var c, before, after := s.cpus[i], s.slots[o].value, StepCpu(s, i).slots[o].value;
      && (Releases(s, Go(i), o) ==> Unmasked(after) == 0)
      && (!Releases(s, Go(i), o) ==> Unmasked(after) == Unmasked(before) || Unmasked(before) == 0)
      && (c.pc.Swap? && c.offset == o && c.entry == before ==> after == before)
  {
    hide Unmasked, Conflict, NextCpu, NextSlot;
    assert CpuOk(s.slots, s.cpus[i]);
    SlotVector(s.slots[s.cpus[i].offset], s.cpus[i]);
  }

  lemma CarelessEndsAgreed(s: State, i: nat, o: nat)
    requires Inv(s) && i < |s.cpus| && o < NR_MAX && Careless(s, Go(i), o)
    ensures !Agreed(StepCpu(s, i), o)
  {
    hide Unmasked, Conflict, NextCpu, NextSlot, StepCpu, Holds;
    var j, v, epoch :| 0 <= j < |s.cpus| && Holds(s.cpus[j], o, v, epoch) && Unmasked(v) != 0;
    StepHolds(s, i, j, o, v, epoch);
    StepSlotVector(s, i, o);
    assert Holds(StepCpu(s, i).cpus[j], o, v, epoch);
  }

  lemma CallHolds(c: Cpu, offset: nat, entry: bv32, o: nat, v: bv32, epoch: nat)
    requires CpuShape(c) && c.pc.Idle? && o < NR_MAX
    ensures Holds(Enter(c, offset, entry), o, v, epoch) == Holds(c, o, v, epoch)
  {
  }

  lemma CallKeepsAgreed(s: State, a: Action, o: nat)
    requires WellFormed(s) && a.Call? && o < NR_MAX && Agreed(s, o)
    ensures Agreed(Step(s, a), o)
  {
    hide Unmasked, Entry, Holds, Enter;
    var s' := Step(s, a);
    forall j, v, epoch | 0 <= j < |s'.cpus| && Holds(s'.cpus[j], o, v, epoch)
      ensures Unmasked(v) == 0 || Unmasked(v) == Unmasked(s'.slots[o].value)
    {
      if a.cpu == j && s.cpus[j].pc.Idle? {
        CallHolds(s.cpus[j], a.offset as nat, Entry(a.vector, a.msgType, a.mask), o, v, epoch);
      }
      assert Holds(s.cpus[j], o, v, epoch);
    }
  }

  /** One step keeps agreement exactly if it does not release an offset in use. */
  lemma AgreedExactly(s: State, a: Action, o: nat)
    requires Inv(s) && o < NR_MAX && Agreed(s, o)
    ensures Agreed(Step(s, a), o) <==> !Careless(s, a, o)
  {
    hide Agreed, InUse, StepCpu, Inv;
    InvShape(s);
    if a.Call? {
      CallKeepsAgreed(s, a, o);
    } else if a.cpu < |s.cpus| {
      if Careless(s, a, o) {
        CarelessEndsAgreed(s, a.cpu, o);
      } else {
        StepKeepsAgreed(s, a.cpu, o);
      }
    }
  }

  /** Agreement at every point of a run. */
  ghost predicate AgreedThroughout(s: State, actions: seq<Action>, o: nat)
    requires WellFormed(s) && o < NR_MAX
    decreases |actions|
  {
    Agreed(s, o) && (actions != [] ==> AgreedThroughout(Step(s, actions[0]), actions[1..], o))
  }

  /** No action of a run releases the offset while it is in use. */
  ghost predicate Careful(s: State, actions: seq<Action>, o: nat)
    requires WellFormed(s) && o < NR_MAX
    decreases |actions|
  {
    actions != [] ==> !Careless(s, actions[0], o) && Careful(Step(s, actions[0]), actions[1..], o)
  }

  lemma {:induction false} AgreementExactlyFrom(s: State, actions: seq<Action>, o: nat)
    requires Inv(s) && o < NR_MAX && Agreed(s, o)
    ensures AgreedThroughout(s, actions, o) <==> Careful(s, actions, o)
    decreases |actions|
  {
    if actions != [] {
      hide Agreed, Careless, Step, Inv;
      InvShape(s);
      StepKeepsInv(s, actions[0]);
      AgreedExactly(s, actions[0], o);
      if Agreed(Step(s, actions[0]), o) {
        AgreementExactlyFrom(Step(s, actions[0]), actions[1..], o);
      } else {
        NotThroughout(Step(s, actions[0]), actions[1..], o);
      }
    }
  }

  lemma NotThroughout(s: State, actions: seq<Action>, o: nat)
    requires WellFormed(s) && o < NR_MAX && !Agreed(s, o)
    ensures !AgreedThroughout(s, actions, o)
  {
  }

  /** In every run from an initial state, all CPUs agree with the shared slot at every point exactly if
      the offset is never released while some CPU holds a vector for it. */
  lemma AgreementExactly(s0: State, actions: seq<Action>, o: nat)
    requires Initial(s0) && o < NR_MAX
    ensures AgreedThroughout(s0, actions, o) <==> Careful(s0, actions, o)
  {
    hide AgreedThroughout, Careful, Inv;
    InitialInv(s0);
    AgreementExactlyFrom(s0, actions, o);
  }

  /** No call asks for a release, in the actions and among the CPUs already in a call. */
  predicate NoRelease(s: State, actions: seq<Action>) {
    && (forall a :: a in actions && a.Call? ==> Entry(a.vector, a.msgType, a.mask) != MASKED)
    && (forall i :: 0 <= i < |s.cpus| && !s.cpus[i].pc.Idle? ==> s.cpus[i].entry != MASKED)
  }

  lemma StepKeepsEntry(s: State, i: nat, j: nat)
    requires WellFormed(s) && i < |s.cpus| && j < |s.cpus|
    ensures var c, c' := s.cpus[j], StepCpu(s, i).cpus[j];
      c'.entry == c.entry && (c.pc.Idle? ==> c'.pc.Idle?)
  {
    hide NextCpu, NextSlot, Disturbed;
  }

  lemma NoReleaseStep(s: State, actions: seq<Action>, o: nat)
    requires WellFormed(s) && o < NR_MAX && actions != [] && NoRelease(s, actions)
    ensures !Releases(s, actions[0], o)
    ensures NoRelease(Step(s, actions[0]), actions[1..])
  {
    hide Unmasked, Conflict, Entry, Changeable, NextSlot, NextCpu, StepCpu;
    var s' := Step(s, actions[0]);
    forall i | 0 <= i < |s'.cpus| && !s'.cpus[i].pc.Idle? ensures s'.cpus[i].entry != MASKED {
      if actions[0].Go? && actions[0].cpu < |s.cpus| {
        StepKeepsEntry(s, actions[0].cpu, i);
      }
    }
  }

  lemma {:induction false} NoReleaseCareful(s: State, actions: seq<Action>, o: nat)
    requires WellFormed(s) && o < NR_MAX && NoRelease(s, actions)
    ensures Careful(s, actions, o)
    decreases |actions|
  {
    if actions != [] {
      hide Step, NoRelease, Releases, InUse;
      NoReleaseStep(s, actions, o);
      NoReleaseCareful(Step(s, actions[0]), actions[1..], o);
    }
  }

  lemma {:induction false} ThroughoutEnds(s: State, actions: seq<Action>, o: nat)
    requires WellFormed(s) && o < NR_MAX && AgreedThroughout(s, actions, o)
    ensures Agreed(Run(s, actions), o)
    decreases |actions|
  {
    if actions != [] {
      hide Step, Agreed;
      ThroughoutEnds(Step(s, actions[0]), actions[1..], o);
    }
  }

  /** In particular, while nobody releases, every value written or about to be written carries no
      vector or the vector in the shared slot. */
  lemma AgreementWithoutRelease(s0: State, actions: seq<Action>, i: nat, o: nat, v: bv32, epoch: nat)
    requires Initial(s0) && NoRelease(s0, actions) && o < NR_MAX && i < |s0.cpus|
    requires Holds(Run(s0, actions).cpus[i], o, v, epoch)
    ensures Unmasked(v) == 0 || Unmasked(v) == Unmasked(Run(s0, actions).slots[o].value)
  {
    hide Unmasked, Careful, AgreedThroughout, Run, Holds;
    NoReleaseCareful(s0, actions, o);
    AgreementExactly(s0, actions, o);
    ThroughoutEnds(s0, actions, o);
  }

  // A run that loses the agreement.

  /** No CPU but `i` is in a call. */
  predicate Alone(s: State, i: nat) {
    && WellFormed(s) && i < |s.cpus|
    && forall j :: 0 <= j < |s.cpus| && j != i ==> s.cpus[j].pc.Idle?
  }

  function Gos(i: nat, n: nat): (actions: seq<Action>) {
    if n == 0 then [] else [Go(i)] + Gos(i, n - 1)
  }

  /** The slot and the CPU after `n` steps of this CPU only. */
  function Solo(slot: Slot, c: Cpu, n: nat): (r: (Slot, Cpu))
    requires slot.history != [] && CpuShape(c)
    ensures r.0.history != [] && CpuShape(r.1) && r.1.offset == c.offset
    decreases n
  {
    if n == 0 then (slot, c) else Solo(NextSlot(slot, c), NextCpu(slot, c), n - 1)
  }

  lemma StepAlone(s: State, i: nat)
    requires Alone(s, i)
    ensures var c := s.cpus[i];
      var slot := s.slots[c.offset];
      StepCpu(s, i) == State(s.slots[c.offset := NextSlot(slot, c)], s.cpus[i := NextCpu(slot, c)])
  {
    hide NextSlot, NextCpu;
    var c := s.cpus[i];
    var others := AllDisturbed(s.cpus, c.offset);
    assert forall j :: 0 <= j < |s.cpus| && j != i ==> others[j] == s.cpus[j];
    var c' := NextCpu(s.slots[c.offset], c);
    assert others[i := c'] == s.cpus[i := c'];
  }

  lemma {:induction false} SoloRun(s: State, i: nat, n: nat)
    requires Alone(s, i)
    ensures var c := s.cpus[i];
      var (slot', c') := Solo(s.slots[c.offset], c, n);
      Run(s, Gos(i, n)) == State(s.slots[c.offset := slot'], s.cpus[i := c'])
    decreases n
  {
    hide NextSlot, NextCpu, StepCpu;
    if n > 0 {
      StepAlone(s, i);
      assert Gos(i, n)[0] == Go(i) && Gos(i, n)[1..] == Gos(i, n - 1);
      SoloRun(StepCpu(s, i), i, n - 1);
    }
  }

  /** A call on its own that meets no conflict takes two compare-and-swaps to reserve the slot. */
  lemma SoloCall(slot: Slot, c: Cpu)
    requires slot.history != [] && CpuShape(c) && c.pc.Read? && slot.value != c.entry
    requires !Conflict(slot.value, c.entry) && Changeable(c.previous, c.entry)
    ensures var (slot', c') := Solo(slot, c, 6);
      && slot'.value == c.entry
      && |slot'.history| == |slot.history| + (if c.entry == MASKED then 1 else 0)
      && c'.pc.Idle? && c'.outcome == Success && c'.swaps == 2
      && c'.regs == c.regs[c.offset := Written(c.entry, |slot'.history| - 1)]
  {
    hide Conflict, Changeable, Unmasked;
    var c1 := NextCpu(slot, c);
    var c2 := NextCpu(slot, c1);
    var slot3, c3 := NextSlot(slot, c2), NextCpu(slot, c2);
    assert slot3.value == c.entry && c3.pc.Test? && c3.rsvd == slot.value;
    var c4 := NextCpu(slot3, c3);
    assert NextSlot(slot3, c4) == slot3;
    var c5 := NextCpu(slot3, c4);
    assert c5.pc.Reserved? && c5.epoch == |slot3.history| - 1;
    assert Solo(slot, c, 6) == Solo(slot, c1, 5) == Solo(slot, c2, 4) == Solo(slot3, c3, 3) == Solo(slot3, c4, 2);
    assert Solo(slot3, c4, 2) == Solo(slot3, c5, 1) == (slot3, NextCpu(slot3, c5));
  }

  /** A whole call for message type 0. */
  function WholeCall(i: nat, offset: bv8, vector: bv8, mask: bv8): seq<Action> {
    [Call(i, offset, vector, 0, mask)] + Gos(i, 6)
  }

  lemma CallAlone(s: State, i: nat, offset: bv8, vector: bv8, mask: bv8)
    requires Alone(s, i) && s.cpus[i].pc.Idle? && offset as nat < NR_MAX
    requires var entry := Entry(vector, 0, mask);
      var slot := s.slots[offset as nat];
      slot.value != entry && !Conflict(slot.value, entry) && Changeable(s.cpus[i].regs[offset as nat].value, entry)
    ensures var entry := Entry(vector, 0, mask);
      var s' := Run(s, WholeCall(i, offset, vector, mask));
      var slot' := s'.slots[offset as nat];
      && Alone(s', i) && s'.cpus[i].pc.Idle? && slot'.value == entry
      && |slot'.history| == |s.slots[offset as nat].history| + (if entry == MASKED then 1 else 0)
      && s'.cpus[i].regs[offset as nat] == Written(entry, |slot'.history| - 1)
      && (forall j :: 0 <= j < |s.cpus| && j != i ==> s'.cpus[j] == s.cpus[j])
  {
    hide Entry, Conflict, Changeable, NextCpu, NextSlot, Solo, StepCpu;
    var actions := WholeCall(i, offset, vector, mask);
    var s1 := Step(s, actions[0]);
    assert actions[1..] == Gos(i, 6);
    SoloCall(s1.slots[offset as nat], s1.cpus[i]);
    SoloRun(s1, i, 6);
  }

  lemma {:induction false} RunJoined(s: State, before: seq<Action>, after: seq<Action>)
    requires WellFormed(s)
    ensures Run(s, before + after) == Run(Run(s, before), after)
    decreases |before|
  {
    hide Step;
    if before == [] {
      assert before + after == after;
    } else {
      assert (before + after)[1..] == before[1..] + after;
      RunJoined(Step(s, before[0]), before[1..], after);
    }
  }

  lemma EntryFacts(v: bv8, w: bv8)
    requires v != 0 && v != w
    ensures Entry(0, 0, 1) == MASKED
    ensures var e := Entry(v, 0, 0); e != 0 && e != MASKED && Unmasked(e) == e && e != Entry(w, 0, 0)
  {
  }

  /** One CPU reserves the offset for `v` and writes it, another CPU releases the offset and then
      reserves it for `w`: from any initial state with masked registers that run ends with the first
      CPU's register in use for another vector than the shared slot's. */
  lemma ReleaseEndsAgreement(s0: State, i: nat, j: nat, offset: bv8, v: bv8, w: bv8)
    requires Initial(s0) && i < |s0.cpus| && j < |s0.cpus| && i != j && offset as nat < NR_MAX
    requires v != 0 && w != 0 && v != w
    requires s0.cpus[i].regs[offset as nat].value == s0.cpus[j].regs[offset as nat].value == MASKED
    ensures var s := Run(s0, WholeCall(i, offset, v, 0) + (WholeCall(j, offset, 0, 1) + WholeCall(j, offset, w, 0)));
      var held, shared := Entry(v, 0, 0), s.slots[offset as nat].value;
      && Holds(s.cpus[i], offset as nat, held, 0)
      && shared == Entry(w, 0, 0)
      && Unmasked(held) != 0 && Unmasked(held) != Unmasked(shared)
  {
    hide Run, WholeCall, Entry, Unmasked;
    EntryFacts(v, w);
    EntryFacts(w, v);
    MaskedUnassigned();
    var s1 := Run(s0, WholeCall(i, offset, v, 0));
    CallAlone(s0, i, offset, v, 0);
    var s2 := Run(s1, WholeCall(j, offset, 0, 1));
    CallAlone(s1, j, offset, 0, 1);
    CallAlone(s2, j, offset, w, 0);
    RunJoined(s0, WholeCall(i, offset, v, 0), WholeCall(j, offset, 0, 1) + WholeCall(j, offset, w, 0));
    RunJoined(s1, WholeCall(j, offset, 0, 1), WholeCall(j, offset, w, 0));
  }

  /** The loop makes at most two compare-and-swaps and two more for each change another CPU makes
      to the slot meanwhile; inside the loop it still has one to spare. */
  lemma SwapBound(s0: State, actions: seq<Action>, i: nat)
    requires Initial(s0) && i < |s0.cpus|
    ensures var c := Run(s0, actions).cpus[i];
      && (c.pc.Test? || c.pc.Swap? ==> c.swaps < 2 * c.disturbances + 2)
      && (c.pc.Reserved? ==> c.swaps <= 2 * c.disturbances + 2)
  {
    hide Unmasked, Conflict;
    InitialInv(s0);
    RunKeepsInv(s0, actions);
    assert CpuOk(Run(s0, actions).slots, Run(s0, actions).cpus[i]);
  }

  /** Linearization: the loop is left with `new` reserved exactly when the slot holds `new` at that
      compare-and-swap.  It is left with a conflict exactly when the value last read carries another
      vector and `new` is no release, and then the value returned differs from `new`. */
  lemma LoopExits(s: State, i: nat)
    requires Inv(s) && i < |s.cpus|
    ensures var c, c' := s.cpus[i], StepCpu(s, i).cpus[i];
      && (c.pc.Swap? ==> (c'.pc.Reserved? <==> s.slots[c.offset].value == c.entry))
      && (c.pc.Swap? && c'.pc.Reserved? ==> StepCpu(s, i).slots[c.offset].value == c.entry)
      && (c.pc.Test? ==> (c'.pc.Idle? <==> Unmasked(c.rsvd) != 0 && c.entry != MASKED
                                            && Unmasked(c.entry) != Unmasked(c.rsvd)))
      && (c.pc.Test? && c'.pc.Idle? ==> c'.outcome == Invalid && c'.regs == c.regs)
  {
    hide Unmasked, Conflict, Changeable, Inv;
    InvShape(s);
    ConflictExact(s.cpus[i].rsvd, s.cpus[i].entry);
  }

  /** What the call does after the loop.  It refuses with -EBUSY exactly if this CPU's register is unmasked
      and the entry neither masks it nor keeps what it holds, and then it leaves the register alone;
      otherwise it writes the entry, to this register only, and succeeds. */
  lemma BusyExactly(s: State, i: nat)
    requires Inv(s) && i < |s.cpus| && s.cpus[i].pc.Reserved?
    ensures var c, s' := s.cpus[i], StepCpu(s, i);
      var c' := s'.cpus[i];
      var held := c.regs[c.offset].value;
      && c'.pc.Idle? && s'.slots == s.slots
      && (c'.outcome == Busy <==> held & MASKED == 0 && c.entry != MASKED && Unmasked(c.entry) != held)
      && (c'.outcome == Busy ==> c'.regs == c.regs)
      && (c'.outcome != Busy ==>
            c'.outcome == Success && c'.regs == c.regs[c.offset := Written(c.entry, c.epoch)])
  {
    hide RegsOk, LoopOk, Conflict, NextSlot;
    assert CpuOk(s.slots, s.cpus[i]);
    NoSwapNoChange(s.slots[s.cpus[i].offset], s.cpus[i]);
  }

  lemma NoSwapNoChange(slot: Slot, c: Cpu)
    requires slot.history != [] && !c.pc.Swap?
    ensures NextSlot(slot, c) == slot
  {
  }

  /** The first steps of a call: the slot is read, and the counts that `SwapBound` speaks of start at 0.
      After that one counts the CPU's own compare-and-swaps, and the other the changes of the slot by
      other CPUs. */
  lemma Counting(s: State, i: nat, j: nat)
    requires WellFormed(s) && i < |s.cpus| && j < |s.cpus|
    ensures var c, c', slot := s.cpus[i], StepCpu(s, i).cpus[i], s.slots[s.cpus[i].offset];
      && (c.pc.Read? ==> c'.pc.Test? && c'.rsvd == slot.value && c'.swaps == c'.disturbances == 0)
      && (!c.pc.Read? ==> c'.disturbances == c.disturbances)
      && (!c.pc.Read? ==> c'.swaps == c.swaps + (if c.pc.Swap? then 1 else 0))
    ensures var o := s.cpus[i].offset;
      var d, d' := s.cpus[j], StepCpu(s, i).cpus[j];
      j != i ==>
        d' == d.(disturbances := d.disturbances +
                   if (d.pc.Test? || d.pc.Swap?) && d.offset == o && StepCpu(s, i).slots[o].value != s.slots[o].value
                   then 1 else 0)
  {
    hide Unmasked, Conflict, Changeable, NextSlot;
  }

  /** The entry's three fields, as the caller passed them. */
  lemma EntryFields(vector: bv8, msgType: bv8, mask: bv8)
    ensures var e := Entry(vector, msgType, mask);
      e & 0xFF == vector as bv32 && (e >> 8) & 0xFF == msgType as bv32 && e >> 16 == mask as bv32
  {
  }

  /** An offset out of range is always refused: no entry can equal the returned ~0. */
  lemma BadOffset(c: Cpu, offset: nat, vector: bv8, msgType: bv8, mask: bv8)
    requires |c.regs| == NR_MAX && offset >= NR_MAX
    ensures Enter(c, offset, Entry(vector, msgType, mask)) == c.(outcome := Invalid)
  {
    assert Entry(vector, msgType, mask) & 0xFF00_0000 == 0;
  }
}
