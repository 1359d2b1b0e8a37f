/** Shutting down, suspending and resuming the local APIC (arch/x86/kernel/apic/apic.c and
    arch/x86/include/asm/apic.h): `clear_local_APIC`, `apic_soft_disable`, `lapic_suspend`,
    `lapic_resume`, over a model of the registers that includes what writes do to each other. */
module LapicPower {
  import opened Bits

  datatype Reg =
    | ID | LVR | TASKPRI | LDR | DFR | SPIV | ESR
    | LVTT | LVTTHMR | LVTPC | LVT0 | LVT1 | LVTERR | LVTCMCI
    | TMICT | TDCR

  const LVT_MASKED: nat := 0x1_0000
  const SPIV_ENABLED: nat := 0x100
  const ERROR_VECTOR: nat := 0xFE

  predicate IsLvt(r: Reg) {
    r.LVTT? || r.LVTTHMR? || r.LVTPC? || r.LVT0? || r.LVT1? || r.LVTERR? || r.LVTCMCI?
  }

  // The hardware.

  datatype Regs = Regs(
    id: nat, lvr: nat, taskpri: nat, ldr: nat, dfr: nat, spiv: nat, esr: nat,
    lvtt: nat, lvtthmr: nat, lvtpc: nat, lvt0: nat, lvt1: nat, lvterr: nat, lvtcmci: nat,
    tmict: nat, tdcr: nat)
  {
    function Get(r: Reg): nat {
      match r
      case ID => id case LVR => lvr case TASKPRI => taskpri case LDR => ldr case DFR => dfr
      case SPIV => spiv case ESR => esr case LVTT => lvtt case LVTTHMR => lvtthmr case LVTPC => lvtpc
      case LVT0 => lvt0 case LVT1 => lvt1 case LVTERR => lvterr case LVTCMCI => lvtcmci
      case TMICT => tmict case TDCR => tdcr
    }

    function Set(r: Reg, v: nat): Regs {
      match r
      case ID => this.(id := v) case LVR => this.(lvr := v) case TASKPRI => this.(taskpri := v)
      case LDR => this.(ldr := v) case DFR => this.(dfr := v) case SPIV => this.(spiv := v)
      case ESR => this.(esr := v) case LVTT => this.(lvtt := v) case LVTTHMR => this.(lvtthmr := v)
      case LVTPC => this.(lvtpc := v) case LVT0 => this.(lvt0 := v) case LVT1 => this.(lvt1 := v)
      case LVTERR => this.(lvterr := v) case LVTCMCI => this.(lvtcmci := v) case TMICT => this.(tmict := v)
      case TDCR => this.(tdcr := v)
    }

    /** All LVT entries masked. */
    function MaskAll(): Regs {
      this.(lvtt := WithMask(lvtt), lvtthmr := WithMask(lvtthmr), lvtpc := WithMask(lvtpc),
            lvt0 := WithMask(lvt0), lvt1 := WithMask(lvt1), lvterr := WithMask(lvterr),
            lvtcmci := WithMask(lvtcmci))
    }
  }

  /** The registers, and the number of error interrupts raised by register writes. */
  datatype Hw = Hw(regs: Regs, errors: nat)

  predicate EnableBit(v: nat) { v / SPIV_ENABLED % 2 == 1 }

  predicate Enabled(regs: Regs) { EnableBit(regs.spiv) }

  predicate Masked(v: nat) { v / LVT_MASKED % 2 == 1 }

  /** `v | APIC_LVT_MASKED` */
  function WithMask(v: nat): nat { if Masked(v) then v else v + LVT_MASKED }

  /** An LVT value with fixed delivery and a vector below 16 (Intel SDM Vol. 3A, section 10.5.3). */
  predicate IllegalVector(v: nat) { v % 0x100 < 0x10 && v / 0x100 % 8 == 0 }

  /** While the APIC is software disabled all LVT mask bits are set (section 10.4.7.2). */
  predicate Legal(h: Hw) {
    !Enabled(h.regs) ==> forall r :: IsLvt(r) ==> Masked(h.regs.Get(r))
  }

  /** A write as the APIC performs it.  Clearing the enable bit sets the LVT masks, an LVT write
      while disabled keeps its mask set, and an illegal vector raises an error interrupt if
      LVTERR lets it. */
  function HwWrite(h: Hw, r: Reg, v: nat): Hw {
    if r.LVR? || r.ESR? then h
    else if r.SPIV? then
      var regs := h.regs.(spiv := v);
      h.(regs := if Enabled(regs) then regs else regs.MaskAll())
    else if IsLvt(r) then
      Hw(h.regs.Set(r, if Enabled(h.regs) then v else WithMask(v)),
         h.errors + (if IllegalVector(v) && !Masked(h.regs.lvterr) then 1 else 0))
    else h.(regs := h.regs.Set(r, v))
  }

  lemma MaskBits(v: nat)
    ensures Masked(WithMask(v)) && (Masked(v) ==> WithMask(v) == v)
  {
  }

  /** Setting the mask bit keeps the others, and so does clearing the enable bit. */
  lemma OtherBitsKept(v: nat)
    ensures WithMask(v) % 0x1_0000 == v % 0x1_0000 && WithMask(v) / 0x2_0000 == v / 0x2_0000
    ensures WithoutEnable(v) % 0x100 == v % 0x100 && WithoutEnable(v) / 0x200 == v / 0x200
  {
    if !Masked(v) {
      AddQuotient(v, LVT_MASKED, 1);
      ClearedBit(v + LVT_MASKED, LVT_MASKED);
    }
    if EnableBit(v) {
      ClearedBit(v, SPIV_ENABLED);
    }
  }

  /** A write raises an error interrupt exactly when it gives an LVT entry such a vector while LVTERR is
      unmasked. */
  lemma ErrorExactly(h: Hw, r: Reg, v: nat)
    ensures var raises := IsLvt(r) && v % 0x100 < 0x10 && v / 0x100 % 8 == 0 && h.regs.lvterr / 0x1_0000 % 2 == 0;
      HwWrite(h, r, v).errors == h.errors + (if raises then 1 else 0)
  {
    hide WithMask, EnableBit;
  }

  /** So LVTERR has to be masked first: on a machine where it is not, clearing any other LVT entry raises
      an error interrupt. */
  lemma WhyErrorFirst(h: Hw, r: Reg)
    requires IsLvt(r) && !Masked(h.regs.lvterr)
    ensures HwWrite(h, r, 0x1_0000).errors == h.errors + 1
  {
    hide WithMask, EnableBit;
  }

  lemma WriteKeepsLegal(h: Hw, r: Reg, v: nat)
    requires Legal(h)
    ensures Legal(HwWrite(h, r, v))
  {
    hide Masked, WithMask, EnableBit, IllegalVector;
    MaskBits(v);
    forall q | IsLvt(q) ensures Masked(WithMask(h.regs.Get(q))) {
      MaskBits(h.regs.Get(q));
    }
  }

  /** Writing a masked LVT value always stores it, and raises no error while LVTERR is masked or if
      the vector is a legal one. */
  lemma MaskedWrite(h: Hw, r: Reg, v: nat)
    requires IsLvt(r) && Masked(v)
    ensures var h' := HwWrite(h, r, v);
      h'.regs == h.regs.Set(r, v) && (Masked(h.regs.lvterr) || !IllegalVector(v) ==> h'.errors == h.errors)
  {
    hide Masked, WithMask, IllegalVector, EnableBit;
    MaskBits(v);
  }

  /** Why the order matters: an unmasked LVT value written before the APIC is enabled is lost. */
  lemma LvtBeforeEnable(h: Hw, r: Reg, v: nat, spiv: nat)
    requires Legal(h) && !Enabled(h.regs) && IsLvt(r) && EnableBit(spiv)
    ensures HwWrite(HwWrite(h, r, v), SPIV, spiv).regs.Get(r) == v <==> Masked(v)
    ensures HwWrite(HwWrite(h, SPIV, spiv), r, v).regs.Get(r) == v
  {
    hide Masked, IllegalVector, EnableBit, WithMask;
    MaskBits(v);
  }

  // The driver.

  /** The fixed circumstances: x2APIC mode, whether the APIC is mapped, the highest LVT entry and the
      kernel options for the thermal and CMCI entries. */
  datatype Config = Config(x2apic: bool, mapped: bool, maxLvt: nat, thermal: bool, cmci: bool)

  /** `apic_write`: in x2APIC mode four registers are not written. */
  function DriverWrite(c: Config, h: Hw, r: Reg, v: nat): Hw
  {
    if c.x2apic && (r.DFR? || r.ID? || r.LDR? || r.LVR?) then h else HwWrite(h, r, v)
  }

  /** `apic_read`: in x2APIC mode DFR reads as all ones. */
  function DriverRead(c: Config, h: Hw, r: Reg): nat
  {
    if c.x2apic && r.DFR? then 0xFFFF_FFFF else h.regs.Get(r)
  }

  /** The registers that suspend saves. */
  predicate Saved(c: Config, r: Reg) {
    match r
    case LVR | ESR => false
    case LVTPC => c.maxLvt >= 4
    case LVTTHMR => c.thermal && c.maxLvt >= 5
    case LVTCMCI => c.cmci && c.maxLvt >= 6
    case _ => true
  }

  /** The registers that resume can write back. */
  predicate Restored(c: Config, r: Reg) {
    Saved(c, r) && !(c.x2apic && (r.DFR? || r.ID? || r.LDR?))
  }

  /** What that comes to, register by register. */
  lemma SavedAndRestored(c: Config)
    ensures forall r :: Restored(c, r) ==> Saved(c, r)
    ensures Restored(c, SPIV) && Restored(c, TASKPRI) && Restored(c, TMICT) && Restored(c, TDCR)
    ensures Restored(c, LVTT) && Restored(c, LVT0) && Restored(c, LVT1) && Restored(c, LVTERR)
    ensures Restored(c, LVTPC) <==> c.maxLvt >= 4
    ensures Restored(c, LVTTHMR) <==> c.thermal && c.maxLvt >= 5
    ensures Restored(c, LVTCMCI) <==> c.cmci && c.maxLvt >= 6
    ensures Saved(c, ID) && Saved(c, LDR) && Saved(c, DFR) && !Saved(c, LVR) && !Saved(c, ESR)
    ensures forall r: Reg :: r.ID? || r.LDR? || r.DFR? ==> (Restored(c, r) <==> !c.x2apic)
  {
  }

  /** What `clear_local_APIC` leaves in each register. */
  function Cleared(c: Config, r: Reg, was: nat): nat {
    match r
    case LVTT | LVT0 | LVT1 => LVT_MASKED
    case LVTERR => if c.maxLvt >= 3 then LVT_MASKED else was
    case LVTPC => if c.maxLvt >= 4 then LVT_MASKED else was
    case LVTTHMR => if c.thermal && c.maxLvt >= 5 then WithMask(was) else was
    case LVTCMCI => if c.cmci && c.maxLvt >= 6 then WithMask(was) else was
    case _ => was
  }

  class Driver {
    const config: Config
    var hw: Hw
    var active: bool
    var pm: Regs

    constructor (config: Config, hw: Hw)
      requires Legal(hw)
      ensures this.config == config && this.hw == hw && !active
    {
      this.config := config;
      this.hw := hw;
      active := false;
      pm := hw.regs;
    }

    method Write(r: Reg, v: nat)
      modifies this`hw
      ensures hw == DriverWrite(config, old(hw), r, v)
    {
      hw := DriverWrite(config, hw, r, v);
    }

    method Read(r: Reg) returns (v: nat)
      ensures v == DriverRead(config, hw, r)
    {
      v := DriverRead(config, hw, r);
    }

    /** Writes a masked LVT value if the entry exists. */
    method WriteMasked(present: bool, r: Reg, v: nat)
      requires Legal(hw) && IsLvt(r) && Masked(v)
      modifies this`hw
      ensures Legal(hw)
      ensures hw.regs == if present then old(hw).regs.Set(r, v) else old(hw).regs
      ensures Masked(old(hw).regs.lvterr) || !IllegalVector(v) ==> hw.errors == old(hw.errors)
    {
      hide Masked, IllegalVector, Legal, HwWrite;
      WriteKeepsLegal(hw, r, v);
      MaskedWrite(hw, r, v);
      if present {
        Write(r, v);
      }
    }

    /** Reads an LVT entry and writes it back with the mask set. */
    method MaskLvt(present: bool, r: Reg)
      requires Legal(hw) && IsLvt(r)
      modifies this`hw
      ensures Legal(hw)
      ensures hw.regs == if present then old(hw).regs.Set(r, WithMask(old(hw).regs.Get(r))) else old(hw).regs
      ensures Masked(old(hw).regs.lvterr) ==> hw.errors == old(hw.errors)
    {
      hide Masked, IllegalVector, WithMask, Legal, HwWrite;
      var v := Read(r);
      MaskBits(v);
      WriteMasked(present, r, WithMask(v));
    }

    /** `clear_local_APIC`, lines 1141 to 1154: LVTERR is masked before the sources always there. */
    method MaskSources()
      requires Legal(hw)
      modifies this`hw
      ensures Legal(hw)
      ensures config.maxLvt >= 3 ==> Masked(hw.regs.lvterr) && hw.errors == old(hw.errors)
      ensures forall r: Reg :: r.LVTT? || r.LVT0? || r.LVT1? || (r.LVTERR? && config.maxLvt >= 3)
                               || hw.regs.Get(r) == old(hw).regs.Get(r)
    {
      hide Masked, IllegalVector, WithMask, Legal, HwWrite;
      ConstantsMasked();
      WriteMasked(config.maxLvt >= 3, LVTERR, WithMask(ERROR_VECTOR));
      MaskLvt(true, LVTT);
      MaskLvt(true, LVT0);
      MaskLvt(true, LVT1);
    }

    /** Lines 1155 to 1173: the entries that may be absent. */
    method MaskOptionalSources()
      requires Legal(hw)
      modifies this`hw
      ensures Legal(hw)
      ensures Masked(old(hw).regs.lvterr) ==> hw.errors == old(hw.errors)
      ensures hw.regs.lvterr == old(hw).regs.lvterr
      ensures hw.regs.lvtthmr == Cleared(config, LVTTHMR, old(hw).regs.lvtthmr)
      ensures hw.regs.lvtcmci == Cleared(config, LVTCMCI, old(hw).regs.lvtcmci)
      ensures forall r: Reg :: r.LVTPC? || r.LVTTHMR? || r.LVTCMCI? || hw.regs.Get(r) == old(hw).regs.Get(r)
      ensures config.maxLvt < 4 ==> hw.regs.lvtpc == old(hw).regs.lvtpc
    {
      hide Masked, IllegalVector, WithMask, Legal, HwWrite;
      MaskLvt(config.maxLvt >= 4, LVTPC);
      MaskLvt(config.thermal && config.maxLvt >= 5, LVTTHMR);
      var v := Read(LVTCMCI);
      MaskBits(v);
      MaskLvt(config.cmci && config.maxLvt >= 6 && !Masked(v), LVTCMCI);
    }

    /** Lines 1175 to 1192: the entries are left masked and otherwise zero. */
    method CleanEntries()
      requires Legal(hw)
      modifies this`hw
      ensures Legal(hw)
      ensures config.maxLvt >= 3 && Masked(old(hw).regs.lvterr) ==> hw.errors == old(hw.errors)
      ensures forall r: Reg :: hw.regs.Get(r) ==
                               if r.LVTTHMR? || r.LVTCMCI? then old(hw).regs.Get(r)
                               else Cleared(config, r, old(hw).regs.Get(r))
    {
      hide Masked, IllegalVector, WithMask, Legal, HwWrite;
      ConstantsMasked();
      WriteMasked(true, LVTT, LVT_MASKED);
      WriteMasked(true, LVT0, LVT_MASKED);
      WriteMasked(true, LVT1, LVT_MASKED);
      WriteMasked(config.maxLvt >= 3, LVTERR, LVT_MASKED);
      WriteMasked(config.maxLvt >= 4, LVTPC, LVT_MASKED);
      EsrWriteIgnored(hw);
      if config.maxLvt > 3 { Write(ESR, 0); }
    }

    /** `clear_local_APIC`.  LVTERR is masked first and stays so, and with it no write raises an
        error interrupt. */
    method ClearLocalApic()
      requires Legal(hw)
      modifies this`hw
      ensures Legal(hw)
      ensures !config.x2apic && !config.mapped ==> hw == old(hw)
      ensures config.x2apic || config.mapped ==>
        forall r :: hw.regs.Get(r) == Cleared(config, r, old(hw).regs.Get(r))
      ensures config.x2apic || config.mapped ==>
        EntriesCleared(config, hw.regs) && forall r :: !IsLvt(r) ==> hw.regs.Get(r) == old(hw).regs.Get(r)
      ensures config.maxLvt >= 3 ==> hw.errors == old(hw.errors)
    {
      hide Masked, IllegalVector, WithMask, Legal, HwWrite, EntriesCleared;
      if !config.x2apic && !config.mapped { return; }
      ghost var before := hw.regs;
      MaskSources();
      MaskOptionalSources();
      CleanEntries();
      AllCleared(config, before, hw.regs);
    }

    /** `disable_local_APIC` and `apic_soft_disable`: afterwards no LVT entry can deliver. */
    method DisableLocalApic()
      requires Legal(hw)
      modifies this`hw
      ensures Legal(hw)
      ensures !config.x2apic && !config.mapped ==> hw == old(hw)
      ensures config.x2apic || config.mapped ==> Quiet(old(hw), hw) && EntriesCleared(config, hw.regs)
      ensures config.maxLvt >= 3 ==> hw.errors == old(hw.errors)
    {
      hide Masked, IllegalVector, WithMask, EnableBit, EntriesCleared;
      if !config.x2apic && !config.mapped { return; }
      ClearLocalApic();
      ClearedEntriesStay(config, hw, WithoutEnable(hw.regs.spiv));
      var value := Read(SPIV);
      assert value == hw.regs.Get(SPIV);
      EnableCleared(value);
      WriteKeepsLegal(hw, SPIV, WithoutEnable(value));
      SpivWrite(hw, WithoutEnable(value));
      Write(SPIV, WithoutEnable(value));
    }

    method LapicSuspend()
      requires Legal(hw)
      modifies this`hw, this`pm
      ensures Legal(hw)
      ensures !active ==> hw == old(hw) && pm == old(pm)
      ensures active ==> forall r :: Saved(config, r) ==> pm.Get(r) == DriverRead(config, old(hw), r)
      ensures active && config.x2apic ==> pm.dfr == 0xFFFF_FFFF
      ensures active ==> SavedLegal(config, pm)
      ensures active && (config.x2apic || config.mapped) ==> Quiet(old(hw), hw) && EntriesCleared(config, hw.regs)
    {
      hide Legal, SavedLegal, Saved, Enabled, Quiet, EntriesCleared;
      if !active { return; }
      SavedState(config, hw, pm);
      var c := config;
      pm := Save(c, hw, pm);
      DisableLocalApic();
    }

    /** Writes back a saved register that is neither SPIV nor an LVT entry. */
    method RestorePlain(r: Reg)
      requires Legal(hw) && !IsLvt(r) && !r.SPIV? && !r.ESR? && !r.LVR?
      modifies this`hw
      ensures Legal(hw) && hw.errors == old(hw.errors)
      ensures hw.regs == if config.x2apic && (r.DFR? || r.ID? || r.LDR?) then old(hw).regs
                         else old(hw).regs.Set(r, pm.Get(r))
    {
      hide Masked, IllegalVector, WithMask, EnableBit, Legal;
      WriteKeepsLegal(hw, r, pm.Get(r));
      Write(r, pm.Get(r));
    }

    /** Writes back a saved LVT entry, SPIV being restored already. */
    method RestoreLvt(present: bool, r: Reg)
      requires Legal(hw) && IsLvt(r) && hw.regs.spiv == pm.spiv
      requires SavedLegal(config, pm) && (present ==> Saved(config, r)) && Masked(hw.regs.lvterr)
      modifies this`hw
      ensures Legal(hw) && hw.errors == old(hw.errors)
      ensures hw.regs == if present then old(hw).regs.Set(r, pm.Get(r)) else old(hw).regs
    {
      hide Masked, IllegalVector, WithMask, EnableBit, Legal;
      if present {
        WriteKeepsLegal(hw, r, pm.Get(r));
        MaskBits(pm.Get(r));
        Write(r, pm.Get(r));
      }
    }

    /** `lapic_resume`, up to and including SPIV. */
    method ResumeEnable()
      requires Legal(hw)
      modifies this`hw
      ensures Legal(hw) && hw.errors == old(hw.errors) && Masked(hw.regs.lvterr)
      ensures hw.regs.spiv == pm.spiv && hw.regs.taskpri == pm.taskpri
      ensures forall r: Reg :: r.ID? || r.DFR? || r.LDR? ==>
        hw.regs.Get(r) == (if config.x2apic then old(hw).regs.Get(r) else pm.Get(r))
    {
      hide Masked, IllegalVector, WithMask, EnableBit, Legal, HwWrite;
      ConstantsMasked();
      WriteMasked(true, LVTERR, WithMask(ERROR_VECTOR));
      RestorePlain(ID);
      RestorePlain(DFR);
      RestorePlain(LDR);
      RestorePlain(TASKPRI);
      WriteKeepsLegal(hw, SPIV, pm.spiv);
      SpivWrite(hw, pm.spiv);
      Write(SPIV, pm.spiv);
    }

    /** `lapic_resume`, the LVT entries other than LVTERR, in the order written. */
    method ResumeEntries()
      requires Legal(hw) && hw.regs.spiv == pm.spiv && SavedLegal(config, pm) && Masked(hw.regs.lvterr)
      modifies this`hw
      ensures Legal(hw) && hw.errors == old(hw.errors)
      ensures forall r: Reg :: IsLvt(r) && !r.LVTERR? && Saved(config, r) ==> hw.regs.Get(r) == pm.Get(r)
      ensures forall r: Reg :: !IsLvt(r) || r.LVTERR? ==> hw.regs.Get(r) == old(hw).regs.Get(r)
      ensures hw.regs.spiv == old(hw).regs.spiv && hw.regs.lvterr == old(hw).regs.lvterr
    {
      hide Masked, IllegalVector, WithMask, EnableBit, Legal, SavedLegal;
      RestoreLvt(true, LVT0);
      RestoreLvt(true, LVT1);
      RestoreLvt(config.thermal && config.maxLvt >= 5, LVTTHMR);
      RestoreLvt(config.cmci && config.maxLvt >= 6, LVTCMCI);
      RestoreLvt(config.maxLvt >= 4, LVTPC);
      RestoreLvt(true, LVTT);
    }

    /** `lapic_resume`, the timer registers and at last LVTERR. */
    method ResumeRest()
      requires Legal(hw) && hw.regs.spiv == pm.spiv && SavedLegal(config, pm) && Masked(hw.regs.lvterr)
      modifies this`hw
      ensures Legal(hw) && hw.errors == old(hw.errors)
      ensures forall r: Reg :: hw.regs.Get(r) ==
                               if r.TDCR? || r.TMICT? || r.LVTERR? then pm.Get(r) else old(hw).regs.Get(r)
    {
      hide Masked, IllegalVector, WithMask, EnableBit, Legal, SavedLegal, HwWrite;
      RestorePlain(TDCR);
      RestorePlain(TMICT);
      EsrWriteIgnored(hw);
      Write(ESR, 0);
      RestoreLvt(true, LVTERR);
      EsrWriteIgnored(hw);
      Write(ESR, 0);
    }

    /** `lapic_resume`.  From any legal state of the registers it brings back every saved register it
        can write, and raises no error interrupt on the way. */
    method LapicResume()
      requires Legal(hw) && SavedLegal(config, pm)
      modifies this`hw
      ensures Legal(hw) && hw.errors == old(hw.errors)
      ensures !active ==> hw == old(hw)
      ensures active ==> forall r: Reg :: Restored(config, r) ==> hw.regs.Get(r) == pm.Get(r)
      ensures active && config.x2apic ==>
        forall r: Reg :: r.ID? || r.DFR? || r.LDR? ==> hw.regs.Get(r) == old(hw).regs.Get(r)
    {
      hide Masked, IllegalVector, WithMask, EnableBit, Legal, SavedLegal, HwWrite;
      if !active { return; }
      ResumeEnable();
      ResumeEntries();
      ResumeRest();
    }

    /** The round trip: suspend, any legal state after the sleep, resume. */
    method SuspendAndResume(asleep: Hw)
      requires active && Legal(hw) && Legal(asleep)
      modifies this`hw, this`pm
      ensures hw.errors == asleep.errors
      ensures forall r: Reg :: Restored(config, r) ==> hw.regs.Get(r) == old(hw).regs.Get(r)
      ensures config.x2apic ==>
        forall r: Reg :: r.ID? || r.DFR? || r.LDR? ==> hw.regs.Get(r) == asleep.regs.Get(r)
    {
      hide Masked, IllegalVector, WithMask, EnableBit, Legal, SavedLegal, HwWrite;
      LapicSuspend();
      hw := asleep;
      LapicResume();
    }
  }

  /** Software disabled, every LVT entry masked, and everything else but the enable bit as before. */
  predicate Quiet(h0: Hw, h: Hw) {
    && !Enabled(h.regs) && h.regs.spiv == WithoutEnable(h0.regs.spiv)
    && (forall r :: IsLvt(r) ==> Masked(h.regs.Get(r)))
    && (forall r :: !IsLvt(r) && !r.SPIV? ==> h.regs.Get(r) == h0.regs.Get(r))
  }

  /** The saved values are themselves a legal state. */
  predicate SavedLegal(c: Config, pm: Regs) {
    !EnableBit(pm.spiv) ==> forall r :: IsLvt(r) && Saved(c, r) ==> Masked(pm.Get(r))
  }

  /** The reads of `lapic_suspend`, into the saved state `pm`. */
  function Save(c: Config, h: Hw, pm: Regs): Regs {
    pm.(id := DriverRead(c, h, ID), taskpri := DriverRead(c, h, TASKPRI), ldr := DriverRead(c, h, LDR),
        dfr := DriverRead(c, h, DFR), spiv := DriverRead(c, h, SPIV), lvtt := DriverRead(c, h, LVTT),
        lvtpc := if c.maxLvt >= 4 then DriverRead(c, h, LVTPC) else pm.lvtpc,
        lvt0 := DriverRead(c, h, LVT0), lvt1 := DriverRead(c, h, LVT1), lvterr := DriverRead(c, h, LVTERR),
        tmict := DriverRead(c, h, TMICT), tdcr := DriverRead(c, h, TDCR),
        lvtthmr := if c.thermal && c.maxLvt >= 5 then DriverRead(c, h, LVTTHMR) else pm.lvtthmr,
        lvtcmci := if c.cmci && c.maxLvt >= 6 then DriverRead(c, h, LVTCMCI) else pm.lvtcmci)
  }

  lemma SavedState(c: Config, h: Hw, pm: Regs)
    requires Legal(h)
    ensures forall r :: Saved(c, r) ==> Save(c, h, pm).Get(r) == DriverRead(c, h, r)
    ensures SavedLegal(c, Save(c, h, pm))
  {
    hide Masked, EnableBit;
    assert Save(c, h, pm).spiv == h.regs.spiv;
  }

  /** `v & ~APIC_SPIV_APIC_ENABLED` */
  function WithoutEnable(v: nat): nat { if EnableBit(v) then v - SPIV_ENABLED else v }

  lemma EnableCleared(v: nat)
    ensures !EnableBit(WithoutEnable(v))
  {
  }

  lemma SpivWrite(h: Hw, v: nat)
    ensures var h' := HwWrite(h, SPIV, v);
      && h'.regs.spiv == v && h'.errors == h.errors
      && (Masked(h.regs.lvterr) ==> Masked(h'.regs.lvterr))
      && (forall r :: !IsLvt(r) && !r.SPIV? ==> h'.regs.Get(r) == h.regs.Get(r))
  {
    hide Masked, WithMask, EnableBit;
    MaskBits(h.regs.lvterr);
  }

  /** What `clear_local_APIC` has to achieve: every entry present is masked, and those that are always
      there, LVTERR and LVTPC hold nothing else. */
  predicate EntriesCleared(c: Config, regs: Regs) {
    && regs.lvtt == regs.lvt0 == regs.lvt1 == 0x1_0000
    && (c.maxLvt >= 3 ==> regs.lvterr == 0x1_0000)
    && (c.maxLvt >= 4 ==> regs.lvtpc == 0x1_0000)
    && (c.thermal && c.maxLvt >= 5 ==> Masked(regs.lvtthmr))
    && (c.cmci && c.maxLvt >= 6 ==> Masked(regs.lvtcmci))
  }

  lemma AllCleared(c: Config, before: Regs, regs: Regs)
    requires forall r :: regs.Get(r) == Cleared(c, r, before.Get(r))
    ensures EntriesCleared(c, regs)
  {
    hide Masked, WithMask;
    MaskBits(before.lvtthmr);
    MaskBits(before.lvtcmci);
    assert regs.Get(LVTT) == regs.Get(LVT0) == regs.Get(LVT1) == LVT_MASKED;
    assert regs.Get(LVTERR) == regs.lvterr && regs.Get(LVTPC) == regs.lvtpc;
    assert regs.Get(LVTTHMR) == regs.lvtthmr && regs.Get(LVTCMCI) == regs.lvtcmci;
  }

  lemma ClearedEntriesStay(c: Config, h: Hw, spiv: nat)
    requires EntriesCleared(c, h.regs)
    ensures EntriesCleared(c, HwWrite(h, SPIV, spiv).regs)
  {
    hide WithMask, Masked, EnableBit;
    ConstantsMasked();
    MaskBits(LVT_MASKED);
    MaskBits(h.regs.lvtthmr);
    MaskBits(h.regs.lvtcmci);
  }

  lemma EsrWriteIgnored(h: Hw)
    ensures HwWrite(h, ESR, 0) == h
  {
  }

  lemma ConstantsMasked()
    ensures Masked(WithMask(ERROR_VECTOR)) && !IllegalVector(WithMask(ERROR_VECTOR)) && Masked(LVT_MASKED)
  {
  }
}
