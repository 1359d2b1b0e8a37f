/** The x2APIC mode machine (arch/x86/kernel/apic/apic.c): one global state, one mode flag, and
    the APIC base register of each CPU, whose transitions the processor restricts. */
module X2apic {

  datatype GlobalState = OFF | ON | DISABLED

  /** The two mode bits of IA32_APIC_BASE. */
  datatype Base = Base(xapic: bool, extd: bool)

  /** The transitions that do not fault (Intel SDM Vol. 3A, section 10.12.5): x2APIC mode is entered
      from xAPIC mode only and left through the disabled state only; EXTD without EN is invalid. */
  predicate LegalMove(from: Base, to: Base) {
    || from == to
    || (from == Base(false, false) && to == Base(true, false))
    || (from == Base(true, false) && (to == Base(false, false) || to == Base(true, true)))
    || (from == Base(true, true) && to == Base(false, false))
  }

  type Uint32 = v: nat | v < 0x1_0000_0000

  /** Why `__x2apic_disable` takes two steps, and `__x2apic_enable` needs an enabled APIC. */
  lemma NoShortcut(to: Base)
    ensures !LegalMove(Base(true, true), Base(true, false)) && !LegalMove(Base(false, false), Base(true, true))
    ensures LegalMove(Base(true, true), Base(false, false)) && LegalMove(Base(false, false), Base(true, false))
    ensures to != Base(false, true) ==> !LegalMove(to, Base(false, true))
  {
  }

  /** What the platform fixes: the APIC feature, the boot CPU's 32-bit APIC id, the highest id seen,
      and whether the hypervisor offers x2APIC without interrupt remapping. */
  datatype Platform = Platform(hasApic: bool, bootId: Uint32, maxPhysicalId: nat, hypervisorOk: bool)

  const BOOT: nat := 0

  function ToInt32(v: Uint32): (i: int)
    ensures -0x8000_0000 <= i < 0x8000_0000 && (v - i) % 0x1_0000_0000 == 0
  {
    if v >= 0x8000_0000 then v - 0x1_0000_0000 else v
  }

  /** `setup_nox2apic` compares the id as a signed number and `x2apic_disable` as an unsigned one: they
      disagree exactly on the ids from 2^31 on. */
  lemma SignedComparison(id: Uint32)
    ensures (255 <= ToInt32(id)) != (255 <= id) <==> 0x8000_0000 <= id
  {
  }

  datatype Action = TryEnable(remapsX2apic: bool) | Setup(cpu: nat)

  /** No x2APIC without interrupt remapping on this platform. */
  predicate NeedsRemapping(p: Platform) { p.maxPhysicalId > 255 || !p.hypervisorOk }

  /** The global state after an action. */
  function StateAfter(p: Platform, s: GlobalState, a: Action): GlobalState {
    match a
    case Setup(_) => s
    case TryEnable(remaps) => if s == DISABLED || (!remaps && NeedsRemapping(p)) then DISABLED else ON
  }

  /** `trace` is `s` followed by the states after the first actions of `script`. */
  predicate Scripted(p: Platform, script: seq<Action>, s: GlobalState, trace: seq<GlobalState>) {
    && 1 <= |trace| <= |script| + 1 && trace[0] == s
    && forall k :: 0 <= k < |trace| - 1 ==> trace[k + 1] == StateAfter(p, trace[k], script[k])
  }

  lemma ScriptedShape(p: Platform, script: seq<Action>, s: GlobalState, trace: seq<GlobalState>)
    requires Scripted(p, script, s, trace)
    ensures 1 <= |trace| <= |script| + 1 && trace[0] == s
  {
  }

  /** x2APIC mode is switched on only by an attempt with x2APIC remapping, or on a platform whose CPUs can
      all be addressed without it. */
  predicate Justified(p: Platform, script: seq<Action>, trace: seq<GlobalState>)
    requires |trace| <= |script| + 1
  {
    forall k :: 0 <= k < |trace| - 1 && trace[k] != ON && trace[k + 1] == ON ==>
      script[k].TryEnable? && (script[k].remapsX2apic || (p.maxPhysicalId <= 255 && p.hypervisorOk))
  }

  /** The states at successive function boundaries: DISABLED is never left, and OFF never returned to. */
  predicate Settling(trace: seq<GlobalState>) {
    forall i, j :: 0 <= i <= j < |trace| ==>
      (trace[i] == DISABLED ==> trace[j] == DISABLED) && (trace[j] == OFF ==> trace[i] == OFF)
  }

  lemma Start(s: GlobalState)
    ensures Settling([s])
  {
  }

  lemma SettlingNext(trace: seq<GlobalState>, s: GlobalState)
    requires Settling(trace) && trace != []
    requires var last := trace[|trace| - 1]; (last == DISABLED ==> s == DISABLED) && (s == OFF ==> last == OFF)
    ensures Settling(trace + [s])
  {
  }

  lemma SettlingJoined(trace: seq<GlobalState>, later: seq<GlobalState>)
    requires Settling(trace) && Settling(later) && trace != [] && later != []
    requires trace[|trace| - 1] == later[0]
    ensures Settling(trace + later[1..])
  {
    var last := |trace| - 1;
    var all := trace + later[1..];
    forall i, j | 0 <= i <= j < |all|
      ensures (all[i] == DISABLED ==> all[j] == DISABLED) && (all[j] == OFF ==> all[i] == OFF)
    {
      if i < |trace| <= j {
        assert all[i] == trace[i] && all[j] == later[j - last];
        assert trace[last] == later[0];
      } else if |trace| <= i {
        assert all[i] == later[i - last] && all[j] == later[j - last];
      }
    }
  }

  lemma FinalState(trace: seq<GlobalState>, k: nat)
    requires Settling(trace) && k < |trace|
    ensures trace[k] == DISABLED ==> trace[|trace| - 1] == DISABLED
  {
  }

  /** x2APIC mode has not been switched on or off from state `k` on. */
  predicate ModeKept(trace: seq<GlobalState>, k: nat)
    requires k < |trace|
  {
    forall m :: k <= m < |trace| ==> (trace[m] == ON <==> trace[|trace| - 1] == ON)
  }

  lemma ModeKeptBefore(trace: seq<GlobalState>, s: GlobalState)
    requires trace != []
    ensures forall k :: 0 <= k < |trace| && ModeKept(trace + [s], k) ==>
      ModeKept(trace, k) && (trace[|trace| - 1] == ON <==> s == ON)
  {
    var longer := trace + [s];
    forall k | 0 <= k < |trace| && ModeKept(longer, k)
      ensures ModeKept(trace, k) && (trace[|trace| - 1] == ON <==> s == ON)
    {
      assert longer[|trace| - 1] == trace[|trace| - 1] && longer[|trace|] == s;
      assert forall m :: k <= m < |trace| ==> longer[m] == trace[m];
    }
  }

  class Kernel {
    const platform: Platform
    var hasX2apic: bool
    var state: GlobalState
    var mode: bool
    var bases: seq<Base>
    var illegal: bool          // an MSR write has taken a transition that faults
    var panicked: bool
    ghost var settled: set<nat> // CPUs set up for the present global state

    /** What holds at every function boundary. */
    ghost predicate Safe()
      reads this
    {
      && |bases| > 0 && !illegal
      && (forall c :: 0 <= c < |bases| ==> bases[c].xapic)
      && (mode <==> state == ON)
      && (platform.hasApic && !panicked ==>
            forall c :: c in settled && c < |bases| ==> (bases[c].extd <==> state == ON))
    }

    constructor (platform: Platform, hasX2apic: bool, bases: seq<Base>)
      requires |bases| > 0 && forall c :: 0 <= c < |bases| ==> bases[c].xapic
      ensures Safe() && this.platform == platform && this.hasX2apic == hasX2apic && this.bases == bases
      ensures state == OFF && !panicked && settled == {}
    {
      this.platform := platform;
      this.hasX2apic := hasX2apic;
      this.bases := bases;
      state, mode, illegal, panicked, settled := OFF, false, false, false, {};
    }

    method WriteBase(cpu: nat, to: Base)
      requires cpu < |bases|
      modifies this`bases, this`illegal
      ensures bases == old(bases)[cpu := to]
      ensures illegal == (old(illegal) || !LegalMove(old(bases)[cpu], to))
    {
      illegal := illegal || !LegalMove(bases[cpu], to);
      bases := bases[cpu := to];
    }

    /** `__x2apic_disable` on one CPU: through the disabled state back to xAPIC mode. */
    method LeaveX2apic(cpu: nat)
      requires cpu < |bases|
      modifies this`bases, this`illegal
      ensures bases == if platform.hasApic then old(bases)[cpu := old(bases)[cpu].(extd := false)] else old(bases)
      ensures old(bases)[cpu].xapic ==> illegal == old(illegal)
    {
      if !platform.hasApic { return; }
      var msr := bases[cpu];
      if !msr.extd { return; }
      WriteBase(cpu, Base(false, false));
      WriteBase(cpu, msr.(extd := false));
    }

    /** `__x2apic_enable` on one CPU.  It faults exactly when the local APIC is disabled. */
    method EnterX2apic(cpu: nat)
      requires cpu < |bases|
      modifies this`bases, this`illegal
      ensures bases == old(bases)[cpu := old(bases)[cpu].(extd := true)]
      ensures illegal == (old(illegal) || old(bases)[cpu] == Base(false, false))
    {
      var msr := bases[cpu];
      if msr.extd { return; }
      WriteBase(cpu, msr.(extd := true));
    }

    predicate X2apicEnabled()
      reads this
      requires |bases| > 0
    {
      hasX2apic && bases[BOOT].extd
    }

    /** `setup_nox2apic`.  The id is compared as a signed number, so that of the ids from 255 on only
        those below 2^31 make it refuse. */
    method SetupNox2apic()
      requires Safe() && state != ON && (state == DISABLED ==> !hasX2apic) && settled == {}
      modifies this
      ensures Safe() && panicked == old(panicked) && |bases| == |old(bases)| && settled == {}
      ensures state == (if old(X2apicEnabled()) && 255 <= ToInt32(platform.bootId) then OFF else DISABLED)
      ensures state == DISABLED ==> !hasX2apic
      ensures state == OFF ==> hasX2apic == old(hasX2apic) && bases == old(bases)
    {
      if X2apicEnabled() {
        var apicid := ToInt32(platform.bootId);
        if apicid >= 255 { return; }
        LeaveX2apic(BOOT);
      }
      hasX2apic := false;
      state := DISABLED;
      mode := false;
    }

    /** `check_x2apic`, called once after the command line was parsed. */
    method CheckX2apic()
      requires Safe() && state != ON && (state == DISABLED ==> !hasX2apic) && settled == {}
      modifies this
      ensures Safe() && bases == old(bases) && panicked == old(panicked) && hasX2apic == old(hasX2apic)
      ensures settled == {}
      ensures state == if X2apicEnabled() then ON else if !hasX2apic then DISABLED else old(state)
    {
      if X2apicEnabled() {
        mode := true;
        state := ON;
      } else if !hasX2apic {
        state := DISABLED;
      }
    }

    /** `x2apic_setup` on one CPU: afterwards its mode is the global one. */
    method X2apicSetup(cpu: nat)
      requires Safe() && cpu < |bases|
      modifies this
      ensures Safe() && state == old(state) && panicked == old(panicked)
      ensures hasX2apic == old(hasX2apic) && |bases| == |old(bases)|
      ensures settled == old(settled) + {cpu}
      ensures forall c :: 0 <= c < |bases| && c != cpu ==> bases[c] == old(bases)[c]
      ensures platform.hasApic || state == ON ==> (bases[cpu].extd <==> state == ON)
    {
      settled := settled + {cpu};
      if state != ON {
        LeaveX2apic(cpu);
        return;
      }
      EnterX2apic(cpu);
    }

    /** `x2apic_disable` */
    method X2apicDisable()
      requires Safe()
      modifies this
      ensures Safe() && state == DISABLED && hasX2apic == old(hasX2apic) && |bases| == |old(bases)|
      ensures panicked == (old(panicked) || (old(state) == ON && platform.bootId >= 255))
      ensures old(state) == ON && platform.hasApic && platform.bootId < 255 ==> !bases[BOOT].extd
      ensures old(state) != ON ==> bases == old(bases) && settled == old(settled)
    {
      var was := state;
      mode := false;
      state := DISABLED;
      if was != ON { return; }
      settled := {BOOT};
      if platform.bootId >= 255 {
        panicked := true;
        return;
      }
      LeaveX2apic(BOOT);
    }

    /** `x2apic_enable` */
    method X2apicEnable()
      requires Safe()
      modifies this
      ensures Safe() && panicked == old(panicked) && hasX2apic == old(hasX2apic) && |bases| == |old(bases)|
      ensures state == if old(state) == OFF then ON else old(state)
      ensures old(state) == OFF ==> bases[BOOT].extd
      ensures old(state) != OFF ==> bases == old(bases) && settled == old(settled)
    {
      if state != OFF { return; }
      mode := true;
      state := ON;
      settled := {BOOT};
      EnterX2apic(BOOT);
    }

    /** `try_to_enable_x2apic` */
    method TryToEnable(remapsX2apic: bool)
      requires Safe()
      modifies this
      ensures Safe() && hasX2apic == old(hasX2apic) && |bases| == |old(bases)|
      ensures old(panicked) ==> panicked
      ensures old(state) == DISABLED ==> bases == old(bases)
      ensures (old(state) == ON <==> state == ON) ==> settled == old(settled)
      ensures state == StateAfter(platform, old(state), TryEnable(remapsX2apic))
      ensures old(state) != DISABLED && remapsX2apic ==> state == ON
      ensures !remapsX2apic && (platform.maxPhysicalId > 255 || !platform.hypervisorOk) ==> state == DISABLED
      ensures old(state) != DISABLED && platform.maxPhysicalId <= 255 && platform.hypervisorOk ==> state == ON
      ensures old(state) == DISABLED ==> state == DISABLED
    {
      if state == DISABLED { return; }
      if !remapsX2apic {
        if platform.maxPhysicalId > 255 || !platform.hypervisorOk {
          X2apicDisable();
          return;
        }
      }
      X2apicEnable();
    }

    /** The early part: any number of `nox2apic` on the command line, and the check. */
    method ParseAndCheck(nox2apic: nat) returns (ghost trace: seq<GlobalState>)
      requires Safe() && state == OFF && settled == {} && !panicked
      modifies this
      ensures Safe() && settled == {} && !panicked && |bases| == |old(bases)|
      ensures |trace| == nox2apic + 2 && trace[0] == OFF && trace[|trace| - 1] == state && Settling(trace)
      ensures forall k :: 0 < k <= nox2apic ==>
        trace[k] == if old(X2apicEnabled()) && 255 <= ToInt32(platform.bootId) then OFF else DISABLED
      ensures state == if trace[nox2apic] == OFF && old(X2apicEnabled()) then ON
                       else if !old(hasX2apic) then DISABLED else trace[nox2apic]
    {
      hide Settling;
      trace := [state];
      Start(state);
      for n := 0 to nox2apic
        invariant Safe() && state != ON && (state == DISABLED ==> !hasX2apic) && settled == {} && !panicked
        invariant |bases| == |old(bases)| && |trace| == n + 1 && trace[0] == OFF && trace[n] == state
        invariant state == OFF ==> bases == old(bases) && hasX2apic == old(hasX2apic)
        invariant Settling(trace)
        invariant forall k :: 0 < k <= n ==>
          trace[k] == if old(X2apicEnabled()) && 255 <= ToInt32(platform.bootId) then OFF else DISABLED
      {
        SetupNox2apic();
        SettlingNext(trace, state);
        trace := trace + [state];
      }
      CheckX2apic();
      SettlingNext(trace, state);
      trace := trace + [state];
    }

    /** Any sequence of attempts to switch mode and CPU set-ups, up to a panic. */
    method RunScript(script: seq<Action>) returns (ghost trace: seq<GlobalState>)
      requires Safe() && !panicked
      requires forall a :: a in script && a.Setup? ==> a.cpu < |bases|
      modifies this
      ensures Safe() && |bases| == |old(bases)|
      ensures Scripted(platform, script, old(state), trace) && Settling(trace) && trace[|trace| - 1] == state
      ensures Justified(platform, script, trace)
      ensures old(state) == ON && !NeedsRemapping(platform) ==> state == ON
      ensures !panicked ==> |trace| == |script| + 1
      ensures platform.hasApic && !panicked ==>
        forall k :: 0 <= k < |script| && script[k].Setup? && ModeKept(trace, k) ==>
          script[k] in script && (bases[script[k].cpu].extd <==> state == ON)
    {
      hide Settling, ModeKept;
      trace := [state];
      Start(state);
      var i := 0;
      while i < |script| && !panicked
        invariant i <= |script| && Safe() && |bases| == |old(bases)|
        invariant |trace| == i + 1 && trace[i] == state && Settling(trace)
        invariant Scripted(platform, script, old(state), trace) && Justified(platform, script, trace)
        invariant old(state) == ON && !NeedsRemapping(platform) ==> state == ON
        invariant forall k :: 0 <= k < i && script[k].Setup? && ModeKept(trace, k) ==> script[k].cpu in settled
      {
        match script[i] {
          case TryEnable(remaps) => TryToEnable(remaps);
          case Setup(cpu) => X2apicSetup(cpu);
        }
        SettlingNext(trace, state);
        ModeKeptBefore(trace, state);
        trace := trace + [state];
        i := i + 1;
      }
    }

    /** A whole boot.  No MSR write faults, the flag follows the state, every CPU set up for the present
        state is in its mode, and in the trace of states at all function boundaries each comes from
        the one before as it should, and DISABLED is final. */
    method Boot(nox2apic: nat, script: seq<Action>) returns (ghost trace: seq<GlobalState>)
      requires Safe() && state == OFF && settled == {} && !panicked
      requires forall a :: a in script && a.Setup? ==> a.cpu < |bases|
      modifies this
      ensures Safe()
      ensures |trace| >= nox2apic + 2 && trace[0] == OFF && trace[|trace| - 1] == state
      ensures Settling(trace)
      ensures forall k :: 0 < k <= nox2apic ==>
        trace[k] == if old(X2apicEnabled()) && 255 <= ToInt32(platform.bootId) then OFF else DISABLED
      ensures var checked := trace[nox2apic + 1];
        && checked == (if trace[nox2apic] == OFF && old(X2apicEnabled()) then ON
                       else if !old(hasX2apic) then DISABLED else trace[nox2apic])
        && Scripted(platform, script, checked, trace[nox2apic + 1..])
        && |trace| - nox2apic - 1 <= |script| + 1 && Justified(platform, script, trace[nox2apic + 1..])
      ensures old(hasX2apic) == false ==> state == DISABLED
      ensures nox2apic > 0 && !(old(X2apicEnabled()) && 255 <= ToInt32(platform.bootId)) ==> state == DISABLED
      ensures nox2apic == 0 && old(X2apicEnabled()) && !NeedsRemapping(platform) ==> state == ON
      ensures !panicked ==> |trace| == nox2apic + 2 + |script|
      ensures |bases| == |old(bases)|
      ensures platform.hasApic && !panicked ==>
        forall k :: 0 <= k < |script| && script[k].Setup? && ModeKept(trace[nox2apic + 1..], k) ==>
          script[k] in script && (bases[script[k].cpu].extd <==> state == ON)
    {
      hide Settling, Scripted, Justified, Safe;
      trace := ParseAndCheck(nox2apic);
      ghost var later := RunScript(script);
      ScriptedShape(platform, script, trace[nox2apic + 1], later);
      SettlingJoined(trace, later);
      trace := trace + later[1..];
      assert trace[nox2apic + 1..] == later;
      FinalState(trace, nox2apic + 1);
    }
  }
}
