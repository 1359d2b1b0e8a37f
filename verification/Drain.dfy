/** Draining stale interrupts (arch/x86/kernel/apic/apic.c): `apic_check_and_ack` and
    `apic_pending_intr_clear`, with the local APIC free to act before every register access. */
module Drain {
  import opened Bits

  type Vector = v: nat | v < 256

  const IR_REGS: nat := 8
  const ROUNDS: nat := 512
  const READS: nat := 2 * IR_REGS

  // The hardware.

  /** Pending and in-service vectors, the number of register accesses so far, and what was
      counted: EOIs issued, vectors they retired, new arrivals. */
  datatype Hw = Hw(irr: set<Vector>, isr: set<Vector>, now: nat, eois: nat, retired: nat, arrived: nat)

  /** What the APIC does before an access: vectors it moves from IRR to ISR, and vectors it accepts. */
  datatype Activity = Activity(promote: set<Vector>, arrive: set<Vector>)

  /** Any behaviour in time that may depend on the registers. */
  type Env = (nat, set<Vector>, set<Vector>) -> Activity

  // Assumptions on the environment; each result names those it needs.

  ghost predicate NoArrivals(env: Env) {
    forall t, irr, isr :: env(t, irr, isr).arrive == {}
  }

  /** The task priority 0x10 set just before keeps vectors below 32 pending. */
  ghost predicate RespectsTpr(env: Env) {
    forall t, irr, isr, v :: v in env(t, irr, isr).promote ==> v >= 32
  }

  /** With nothing in service, a deliverable vector is promoted within the time of 16 accesses. */
  ghost predicate Delivers(env: Env) {
    forall t, irr: set<Vector> {:trigger Promotes(env, t, irr)} ::
      (exists v :: v in irr && v >= 32) ==> Promotes(env, t, irr)
  }

  ghost predicate Promotes(env: Env, t: nat, irr: set<Vector>) {
    exists u :: t <= u < t + READS && env(u, irr, {}).promote * irr != {}
  }

  /** One activity: only pending vectors that are not in service move. */
  function Tick(env: Env, h: Hw): Hw {
    var a := env(h.now, h.irr, h.isr);
    var moved := a.promote * h.irr - h.isr;
    var left := h.irr - moved;
    h.(irr := left + a.arrive, isr := h.isr + moved, now := h.now + 1,
       arrived := h.arrived + |a.arrive - left|)
  }

  /** The highest member. */
  function Highest(s: set<Vector>, below: nat): (v: Vector)
    requires below <= 256 && exists x :: x in s && x < below
    ensures v < below && v in s && forall x :: x in s && x < below ==> x <= v
  {
    if below - 1 in s then below - 1 else Highest(s, below - 1)
  }

  /** An end-of-interrupt retires the highest vector in service, if any. */
  function Eoi(h: Hw): Hw {
    if h.isr == {} then h.(eois := h.eois + 1)
    else h.(isr := h.isr - {Highest(h.isr, 256)}, eois := h.eois + 1, retired := h.retired + 1)
  }

  function Outstanding(h: Hw): nat { |h.irr| + |h.isr| }

  lemma TickCounts(env: Env, h: Hw)
    ensures var h' := Tick(env, h);
      && Outstanding(h') - h'.arrived == Outstanding(h) - h.arrived
      && h.isr <= h'.isr && h.irr <= h'.irr + h'.isr
      && |h'.isr| >= |h.isr| && |h'.irr| - h'.arrived <= |h.irr| - h.arrived
      && h'.eois == h.eois && h'.retired == h.retired && h'.arrived >= h.arrived
      && (NoArrivals(env) ==> h'.arrived == h.arrived && h'.irr <= h.irr && h'.isr <= h.isr + h.irr)
      && (RespectsTpr(env) ==> forall v :: v in h.irr && v < 32 ==> v in h'.irr)
  {
    var a := env(h.now, h.irr, h.isr);
    var moved := a.promote * h.irr - h.isr;
    var left := h.irr - moved;
    assert left + moved == h.irr && left !! moved && moved !! h.isr;
    assert left + a.arrive == left + (a.arrive - left);
  }

  lemma EoiCounts(h: Hw)
    requires h.isr != {}
    ensures var h' := Eoi(h);
      && |h'.isr| == |h.isr| - 1 && h'.isr < h.isr
      && (forall v :: v in h.isr && v !in h'.isr ==> forall x :: x in h.isr ==> x <= v)
  {
  }

  /** The 32 bits of one register. */
  function RegBits(s: set<Vector>, i: nat): set<Vector> { set v | v in s && 32 * i <= v < 32 * (i + 1) }

  /** The register whose first bit stands for vector `base`, as a word; its lowest `n` bits. */
  function RegWord(bits: set<Vector>, base: nat, n: nat): nat {
    if n == 0 then 0 else RegWord(bits, base, n - 1) + (if base + n - 1 in bits then Pow2(n - 1) else 0)
  }

  lemma {:induction false} RegWordBits(bits: set<Vector>, base: nat, n: nat, k: nat)
    ensures RegWord(bits, base, n) < Pow2(n)
    ensures k < n ==> (Bit(RegWord(bits, base, n), k) <==> base + k in bits)
  {
    if n > 0 {
      RegWordBits(bits, base, n - 1, k);
      var low := RegWord(bits, base, n - 1);
      if k + 1 < n {
        Pow2Split(k, n - 1);
        AddMultiple(low, Pow2(k), Pow2(n - 2 - k));
      } else if k + 1 == n {
        RemainderUnique(low, Pow2(k), 0, low);
        AddQuotient(low, Pow2(k), 1);
      }
    }
  }

  function Below(s: set<Vector>, n: nat): set<Vector> { set v | v in s && v < n }

  lemma BelowNext(s: set<Vector>, n: nat)
    requires n < 256
    ensures |Below(s, n + 1)| == |Below(s, n)| + (if n in s then 1 else 0)
  {
    assert Below(s, n + 1) == Below(s, n) + (if n in s then {n} else {});
  }

  lemma {:induction false} BelowSize(s: set<Vector>, n: nat)
    requires 32 <= n <= 256 && forall v :: v in s ==> v >= 32
    ensures |Below(s, n)| <= n - 32
  {
    if n == 32 {
      assert Below(s, n) == {};
    } else {
      BelowSize(s, n - 1);
      BelowNext(s, n - 1);
    }
  }

  /** What register accesses do to the APIC, whatever the environment does meanwhile: every vector
      that arrived is outstanding or was retired, and every EOI retired one. */
  ghost predicate Accounted(env: Env, h0: Hw, h: Hw) {
    && h.arrived >= h0.arrived
    && Outstanding(h) + (h.eois - h0.eois) - h.arrived == Outstanding(h0) - h0.arrived
    && h.eois - h0.eois == h.retired - h0.retired >= 0
    && (NoArrivals(env) ==> h.arrived == h0.arrived)
    && (RespectsTpr(env) ==> forall v :: v in h0.irr && v < 32 ==> v in h.irr)
  }

  /** The environment promotes nothing from `irr` in the given time. */
  ghost predicate Idle(env: Env, from: nat, to: nat, irr: set<Vector>) {
    forall u :: from <= u < to ==> env(u, irr, {}).promote * irr == {}
  }

  /** Reads only, since `h0`. */
  ghost predicate ReadsSince(env: Env, h0: Hw, h: Hw) {
    && Accounted(env, h0, h) && h.eois == h0.eois && h.now >= h0.now
    && h0.isr <= h.isr && h0.irr <= h.irr + h.isr
    && (NoArrivals(env) ==> h.irr <= h0.irr && h.isr <= h0.irr + h0.isr)
    && (h0.isr == {} && NoArrivals(env) && h.isr == {} ==> h.irr == h0.irr && Idle(env, h0.now, h.now, h0.irr))
  }

  lemma ReadsTick(env: Env, h0: Hw, h: Hw)
    requires ReadsSince(env, h0, h)
    ensures ReadsSince(env, h0, Tick(env, h)) && Tick(env, h).now == h.now + 1
  {
    hide RespectsTpr;
    TickCounts(env, h);
    var h' := Tick(env, h);
    if h0.isr == {} && NoArrivals(env) && h'.isr == {} {
      assert h.isr == {} && h.irr == h0.irr;
      var p := env(h.now, h.irr, h.isr).promote;
      assert p * h.irr == p * h.irr - h.isr <= h'.isr;
    }
  }

  /** Reading IRR: a vector pending at the start is in the snapshot once its register is read,
      or has moved to ISR. */
  ghost predicate IrrPhase(env: Env, h0: Hw, h: Hw, irrMap: set<Vector>, i: nat) {
    && ReadsSince(env, h0, h) && h.now == h0.now + i
    && (forall v :: v in h0.irr && v < 32 * i ==> v in irrMap || v in h.isr)
    && (NoArrivals(env) ==> irrMap <= h0.irr)
  }

  lemma IrrPhaseStep(env: Env, h0: Hw, h: Hw, irrMap: set<Vector>, i: nat)
    requires IrrPhase(env, h0, h, irrMap, i)
    ensures IrrPhase(env, h0, Tick(env, h), irrMap + RegBits(Tick(env, h).irr, i), i + 1)
  {
    hide Accounted, Idle;
    ReadsTick(env, h0, h);
    TickCounts(env, h);
  }

  /** Reading ISR, from `h1` on: nothing in service is missed. */
  ghost predicate IsrPhase(env: Env, h0: Hw, h1: Hw, h: Hw, isrMap: set<Vector>, i: nat) {
    && ReadsSince(env, h0, h) && h.now == h0.now + IR_REGS + i
    && h1.isr <= h.isr && isrMap <= h.isr
    && (forall v :: v in h1.isr && v < 32 * i ==> v in isrMap)
  }

  lemma IsrPhaseStep(env: Env, h0: Hw, h1: Hw, h: Hw, isrMap: set<Vector>, i: nat)
    requires IsrPhase(env, h0, h1, h, isrMap, i)
    ensures IsrPhase(env, h0, h1, Tick(env, h), isrMap + RegBits(Tick(env, h).isr, i), i + 1)
  {
    hide Accounted, Idle;
    ReadsTick(env, h0, h);
    TickCounts(env, h);
  }

  /** Acknowledging: each EOI retires one vector as long as snapshot bits are left. */
  ghost predicate AckPhase(env: Env, h0: Hw, h: Hw, isrMap: set<Vector>, acked: nat) {
    && Accounted(env, h0, h)
    && h.eois == h0.eois + acked
    && acked <= |isrMap| <= |h.isr| + acked
    && (NoArrivals(env) ==> h.irr <= h0.irr)
  }

  lemma AckStep(env: Env, h0: Hw, h: Hw, isrMap: set<Vector>, acked: nat)
    requires AckPhase(env, h0, h, isrMap, acked) && acked < |isrMap|
    ensures AckPhase(env, h0, Eoi(Tick(env, h)), isrMap, acked + 1)
  {
    hide RespectsTpr, Tick, Eoi;
    TickCounts(env, h);
    var h1 := Tick(env, h);
    EoiCounts(h1);
    EoiKeepsIrr(h1);
  }

  lemma EoiKeepsIrr(h: Hw)
    ensures var h' := Eoi(h);
      && h'.irr == h.irr && h'.arrived == h.arrived && h'.eois == h.eois + 1
      && h'.retired == h.retired + (if h.isr == {} then 0 else 1)
  {
  }

  /** What a caller of `apic_check_and_ack` may rely on. */
  ghost predicate Checked(env: Env, h0: Hw, h: Hw, more: bool) {
    && Accounted(env, h0, h)
    && (!more ==> h0.irr == {} && h0.isr == {})
    && (NoArrivals(env) && more ==> h0.irr != {} || h0.isr != {})
    && (NoArrivals(env) ==> h.irr <= h0.irr)
    && h.eois - h0.eois >= |h0.isr|
    && (NoArrivals(env) && h0.isr == {} && Promotes(env, h0.now, h0.irr) ==> h.eois > h0.eois || h.isr != {})
  }

  lemma SnapshotChecked(env: Env, h0: Hw, h1: Hw, h2: Hw, irrMap: set<Vector>, isrMap: set<Vector>)
    requires IrrPhase(env, h0, h1, irrMap, IR_REGS) && IsrPhase(env, h0, h1, h2, isrMap, IR_REGS)
    ensures AckPhase(env, h0, h2, isrMap, 0)
    ensures |isrMap| >= |h0.isr|
    ensures isrMap == {} ==> Checked(env, h0, h2, irrMap != {})
    ensures isrMap != {} ==> NoArrivals(env) ==> h0.irr != {} || h0.isr != {}
  {
    hide Accounted;
    SubsetSize(h0.isr, isrMap);
    SubsetSize(isrMap, h2.isr);
  }

  lemma SubsetSize(s: set<Vector>, t: set<Vector>)
    requires s <= t
    ensures |s| <= |t|
  {
    assert s + (t - s) == t;
  }

  class LocalApic {
    const env: Env
    var hw: Hw

    constructor (env: Env, irr: set<Vector>, isr: set<Vector>)
      ensures this.env == env && hw == Hw(irr, isr, 0, 0, 0, 0)
    {
      this.env := env;
      hw := Hw(irr, isr, 0, 0, 0, 0);
    }

    /** `apic_read(APIC_IRR + i * 0x10)` */
    method ReadIrr(i: nat) returns (bits: set<Vector>)
      modifies this
      ensures hw == Tick(env, old(hw)) && bits == RegBits(hw.irr, i)
    {
      hw := Tick(env, hw);
      bits := RegBits(hw.irr, i);
    }

    /** `apic_read(APIC_ISR + i * 0x10)` */
    method ReadIsr(i: nat) returns (bits: set<Vector>)
      modifies this
      ensures hw == Tick(env, old(hw)) && bits == RegBits(hw.isr, i)
    {
      hw := Tick(env, hw);
      bits := RegBits(hw.isr, i);
    }

    /** `ack_APIC_irq()` */
    method AckIrq()
      modifies this
      ensures hw == Eoi(Tick(env, old(hw)))
    {
      hw := Eoi(Tick(env, hw));
    }

    /** `lapic_vector_set_in_irr` */
    method VectorSetInIrr(vector: Vector) returns (isSet: bool)
      modifies this
      ensures hw == Tick(env, old(hw)) && (isSet <==> vector in hw.irr)
    {
      hide Tick, Pow2, And, Bit;
      var bits := ReadIrr(vector / 32);
      var irr := RegWord(bits, 32 * (vector / 32), 32);
      RegWordBits(bits, 32 * (vector / 32), 32, vector % 32);
      AndOneBit(irr, vector % 32);
      isSet := And(irr, Pow2(vector % 32)) != 0;
    }

    /** `apic_check_and_ack`: all IRR registers are read before any ISR register, and then one EOI
        is issued for each bit of the ISR snapshot. */
    method CheckAndAck() returns (more: bool, irrMap: set<Vector>, isrMap: set<Vector>)
      modifies this
      ensures Checked(env, old(hw), hw, more)
      ensures !more ==> old(hw).irr == {} && old(hw).isr == {}
      ensures NoArrivals(env) && more ==> old(hw).irr != {} || old(hw).isr != {}
      ensures hw.eois - old(hw.eois) == |isrMap|
    {
      irrMap, isrMap := {}, {};
      for i := 0 to IR_REGS
        invariant IrrPhase(env, old(hw), hw, irrMap, i)
      {
        IrrPhaseStep(env, old(hw), hw, irrMap, i);
        var bits := ReadIrr(i);
        irrMap := irrMap + bits;
      }
      ghost var h1 := hw;
      for i := 0 to IR_REGS
        invariant IsrPhase(env, old(hw), h1, hw, isrMap, i)
      {
        IsrPhaseStep(env, old(hw), h1, hw, isrMap, i);
        var bits := ReadIsr(i);
        isrMap := isrMap + bits;
      }
      SnapshotChecked(env, old(hw), h1, hw, irrMap, isrMap);
      if isrMap != {} {
        for bit := 0 to 256
          invariant AckPhase(env, old(hw), hw, isrMap, |Below(isrMap, bit)|)
        {
          BelowNext(isrMap, bit);
          if bit in isrMap {
            SubsetSize(Below(isrMap, bit + 1), isrMap);
            AckStep(env, old(hw), hw, isrMap, |Below(isrMap, bit)|);
            AckIrq();
          }
        }
        assert Below(isrMap, 256) == isrMap;
        return true, irrMap, isrMap;
      }
      more := irrMap != {};
    }

    /** `apic_pending_intr_clear`: up to 512 rounds.  `clean` is false when it gives up and warns. */
    method PendingIntrClear() returns (clean: bool, rounds: nat)
      modifies this
      ensures Accounted(env, old(hw), hw)
      ensures hw.eois - old(hw.eois) == hw.retired - old(hw.retired)
              <= Outstanding(old(hw)) + (hw.arrived - old(hw.arrived))
      ensures rounds <= 512 && (!clean ==> rounds == 512)
      ensures NoArrivals(env) ==> hw.eois - old(hw.eois) <= Outstanding(old(hw))
      ensures NoArrivals(env) && clean ==> hw.irr == {} && hw.isr == {}
      ensures NoArrivals(env) && RespectsTpr(env) && Delivers(env) ==>
        (clean <==> Deliverable(old(hw.irr))) && (clean ==> rounds <= 450)
    {
      rounds := 0;
      while rounds < ROUNDS
        invariant rounds <= ROUNDS
        invariant Accounted(env, old(hw), hw)
        invariant NoArrivals(env) ==> hw.irr <= old(hw.irr)
        invariant NoArrivals(env) && Delivers(env) && Deliverable(old(hw.irr)) && rounds >= 1 ==>
          rounds + Needed(hw) <= 450
      {
        ghost var before := hw;
        var more, irrMap, isrMap := CheckAndAck();
        rounds := rounds + 1;
        AccountedChain(env, old(hw), before, hw);
        RoundProgress(env, before, hw, more);
        FirstRound(env, before, hw, more);
        if !more {
          return true, rounds;
        }
      }
      clean := false;
    }
  }

  ghost predicate Deliverable(irr: set<Vector>) { forall v :: v in irr ==> v >= 32 }

  /** Rounds that suffice: two for each outstanding vector and a last one that finds none. */
  function Needed(h: Hw): nat { 2 * Outstanding(h) + (if h.isr == {} then 1 else 0) }

  lemma AccountedChain(env: Env, h0: Hw, h1: Hw, h2: Hw)
    requires Accounted(env, h0, h1) && Accounted(env, h1, h2)
    ensures Accounted(env, h0, h2)
  {
    hide NoArrivals, RespectsTpr;
  }

  lemma RoundProgress(env: Env, h0: Hw, h: Hw, more: bool)
    requires Checked(env, h0, h, more)
    ensures NoArrivals(env) && !more ==> h.irr == {} && h.isr == {}
    ensures NoArrivals(env) && Delivers(env) && Deliverable(h0.irr) && more ==> Needed(h) < Needed(h0)
  {
    hide NoArrivals, RespectsTpr, Promotes;
    if NoArrivals(env) && Delivers(env) && Deliverable(h0.irr) && more && h0.isr == {} {
      var v :| v in h0.irr;
      assert v >= 32;
      assert Promotes(env, h0.now, h0.irr);
    }
  }

  lemma FirstRound(env: Env, h0: Hw, h: Hw, more: bool)
    requires Checked(env, h0, h, more)
    ensures NoArrivals(env) && Deliverable(h0.irr) ==> 1 + Needed(h) <= 450
  {
    hide NoArrivals, RespectsTpr, Promotes;
    if Deliverable(h0.irr) {
      BelowSize(h0.irr, 256);
      assert Below(h0.irr, 256) == h0.irr;
    }
  }

  /** The assumptions can be met together: an APIC that promotes all it may at every access. */
  lemma AssumptionsConsistent()
    ensures exists env: Env :: NoArrivals(env) && RespectsTpr(env) && Delivers(env)
  {
    var env: Env := (t, irr: set<Vector>, isr) => Activity(set v | v in irr && v >= 32, {});
    forall t: nat, irr: set<Vector> | exists v :: v in irr && v >= 32 ensures Promotes(env, t, irr) {
      var v :| v in irr && v >= 32;
      assert v in env(t, irr, {}).promote * irr;
    }
    assert NoArrivals(env) && RespectsTpr(env) && Delivers(env);
  }
}
