/** Logical CPU numbers (arch/x86/kernel/apic/apic.c): `allocate_logical_cpuid` and
    `generic_processor_info`, and the tables and counters they keep in step. */
module CpuNumbering {

  const MAX_LOCAL_APIC: nat := 32768
  const BAD_APICID: nat := 0xFFFF
  const EINVAL: int := 22
  const ENODEV: int := 19

  /** The tables: `slots` is the used part of `cpuid_to_apicid`, -1 where unassigned; `apicOf` and
      `biosApicOf` are the per-CPU tables, `present` the physical id map. */
  datatype Tables = Tables(
    slots: seq<int>,
    apicOf: map<nat, int>,
    biosApicOf: map<nat, int>,
    possible: set<nat>,
    present: set<int>,
    processors: nat,
    disabled: nat,
    maxApicid: int)

  /** What stays fixed during enumeration. */
  datatype Config = Config(cpuLimit: nat, disabledApicid: int, thisApicid: int)

  const START := Tables([-1], map[], map[], {}, {}, 0, 0, 0)

  /** The first slot holding `apicid`, or the number of slots. */
  function Find(slots: seq<int>, apicid: int): (i: nat)
    ensures i <= |slots|
    ensures i < |slots| ==> slots[i] == apicid
    ensures forall j :: 0 <= j < i ==> slots[j] != apicid
  {
    if slots == [] || slots[0] == apicid then 0 else 1 + Find(slots[1..], apicid)
  }

  /** `allocate_logical_cpuid`: the new slots and the CPU number, or an error. */
  function Allocate(c: Config, slots: seq<int>, apicid: int): (r: (seq<int>, int))
    ensures slots <= r.0
  {
    var i := Find(slots, apicid);
    if i < |slots| then (slots, i)
    else if |slots| >= c.cpuLimit then (slots, -EINVAL)
    else (slots + [apicid], |slots|)
  }

  function Refuse(t: Tables): Tables { t.(disabled := t.disabled + 1) }

  /** The common tail: CPU `cpu` is registered with `apicid`. */
  function Register(t: Tables, slots: seq<int>, cpu: nat, apicid: int): Tables
  {
    t.(slots := slots,
       maxApicid := if apicid > t.maxApicid then apicid else t.maxApicid,
       apicOf := t.apicOf[cpu := apicid % 0x1_0000],
       biosApicOf := t.biosApicOf[cpu := apicid % 0x1_0000],
       possible := t.possible + {cpu},
       present := t.present + {apicid},
       processors := t.processors + 1)
  }

  /** `disabled_cpu_apicid` on the command line takes this CPU out. */
  predicate DisabledByUser(c: Config, apicid: int) {
    c.disabledApicid != BAD_APICID && c.disabledApicid != c.thisApicid && c.disabledApicid == apicid
  }

  /** `generic_processor_info` under boot apicid `boot`. */
  function ProcessorInfo(c: Config, t: Tables, boot: int, apicid: int): (r: (Tables, int))
    requires t.slots != []
    ensures r.0.slots != []
  {
    if DisabledByUser(c, apicid) then
      (Refuse(t), -ENODEV)
    else if boot !in t.present && t.processors >= c.cpuLimit - 1 && apicid != boot then (Refuse(t), -ENODEV)
    else if t.processors >= c.cpuLimit then (Refuse(t), -EINVAL)
    else if apicid == boot then (Register(t, t.slots[0 := apicid], 0, apicid), 0)
    else
      var (slots, cpu) := Allocate(c, t.slots, apicid);
      if cpu < 0 then (Refuse(t), -EINVAL) else (Register(t, slots, cpu, apicid), cpu)
  }

  /** One call, with the value `boot_cpu_physical_apicid` has at the time. */
  datatype Call = Call(boot: int, apicid: int)

  function After(c: Config, t: Tables, call: Call): (t': Tables)
    requires t.slots != []
    ensures t'.slots != []
  {
    ProcessorInfo(c, t, call.boot, call.apicid).0
  }

  function Run(c: Config, t: Tables, calls: seq<Call>): (t': Tables)
    requires t.slots != []
    ensures t'.slots != []
    decreases |calls|
  {
    if calls == [] then t
    else Run(c, After(c, t, calls[0]), calls[1..])
  }

  predicate ValidId(apicid: int) { 0 <= apicid < MAX_LOCAL_APIC }

  // One boot CPU throughout.

  /** The mapping tables: one CPU for each apicid. */
  predicate Mapped(t: Tables, boot: int) {
    && t.slots != []
    && t.slots[0] == (if boot in t.present then boot else -1)
    && (forall i :: 1 <= i < |t.slots| ==> ValidId(t.slots[i]) && t.slots[i] != boot)
    && (forall i, j :: 1 <= i < j < |t.slots| ==> t.slots[i] != t.slots[j])
  }

  /** The per-CPU table that goes with the slots, and the apicids in it. */
  function PerCpu(slots: seq<int>): map<nat, int> {
    map i: nat | i < |slots| && slots[i] != -1 :: slots[i]
  }

  function Assigned(slots: seq<int>): set<int> {
    set i: nat | i < |slots| && slots[i] != -1 :: slots[i]
  }

  /** The tables agree: the per-CPU tables and the possible mask cover the assigned CPUs and hold
      their apicids; the physical map holds exactly those. */
  predicate Consistent(t: Tables) {
    && t.apicOf == t.biosApicOf == PerCpu(t.slots)
    && t.possible == t.apicOf.Keys
    && t.present == Assigned(t.slots)
  }

  /** Room: the boot CPU's place is kept, and the slots never outnumber the processors counted. */
  predicate Room(c: Config, t: Tables, boot: int) {
    && 1 <= |t.slots| <= c.cpuLimit
    && t.processors <= c.cpuLimit
    && |t.slots| - 1 + (if boot in t.present then 1 else 0) <= t.processors
    && (boot !in t.present ==> t.processors <= c.cpuLimit - 1)
  }

  predicate Inv(c: Config, t: Tables, boot: int) {
    Mapped(t, boot) && Consistent(t) && Room(c, t, boot)
  }

  lemma StartInv(c: Config, boot: int)
    requires c.cpuLimit >= 1 && ValidId(boot)
    ensures Inv(c, START, boot)
  {
  }

  /** What the allocator does: it gives the apicid a slot that holds it, and a new one, at the end, only if
      there is none and the limit allows it. */
  lemma AllocateMeaning(c: Config, slots: seq<int>, apicid: int)
    ensures var (slots', cpu) := Allocate(c, slots, apicid);
      && (cpu >= 0 ==> cpu < |slots'| && slots'[cpu] == apicid)
      && (cpu < 0 <==> apicid !in slots && |slots| >= c.cpuLimit)
      && (cpu < 0 ==> cpu == -22)
      && slots' == if apicid !in slots && |slots| < c.cpuLimit then slots + [apicid] else slots
  {
  }

  /** Under the invariant the allocator never runs into its own limit. */
  lemma AllocatorHasRoom(c: Config, t: Tables, boot: int, apicid: int)
    requires Room(c, t, boot) && apicid != boot
    requires t.processors < c.cpuLimit
    requires boot in t.present || t.processors < c.cpuLimit - 1
    ensures Allocate(c, t.slots, apicid).1 >= 0
    ensures |t.slots| < c.cpuLimit
  {
  }

  /** `slots'` is `slots` with `a` in a slot that was new, unassigned or already held `a`. */
  predicate Puts(slots: seq<int>, slots': seq<int>, cpu: nat, a: int) {
    && |slots| <= |slots'| && cpu < |slots'| && slots'[cpu] == a
    && (forall i :: 0 <= i < |slots'| && i != cpu ==> i < |slots| && slots'[i] == slots[i])
    && (cpu < |slots| ==> slots[cpu] == -1 || slots[cpu] == a)
  }

  lemma AssignSlot(slots: seq<int>, slots': seq<int>, cpu: nat, a: int)
    requires Puts(slots, slots', cpu, a) && a != -1
    ensures PerCpu(slots') == PerCpu(slots)[cpu := a]
    ensures Assigned(slots') == Assigned(slots) + {a}
  {
    forall x | x in Assigned(slots) ensures x in Assigned(slots') {
      var i: nat :| i < |slots| && slots[i] != -1 && slots[i] == x;
      assert slots'[i] == x;
    }
  }

  lemma RegisterConsistent(t: Tables, slots: seq<int>, cpu: nat, a: int)
    requires Consistent(t) && ValidId(a) && Puts(t.slots, slots, cpu, a)
    ensures Consistent(Register(t, slots, cpu, a))
  {
    hide PerCpu, Assigned, Puts;
    AssignSlot(t.slots, slots, cpu, a);
  }

  lemma RegisterBoot(c: Config, t: Tables, boot: int)
    requires Inv(c, t, boot) && ValidId(boot) && t.processors < c.cpuLimit
    ensures Inv(c, Register(t, t.slots[0 := boot], 0, boot), boot)
  {
    hide Consistent;
    RegisterConsistent(t, t.slots[0 := boot], 0, boot);
  }

  lemma RegisterOther(c: Config, t: Tables, boot: int, apicid: int)
    requires Inv(c, t, boot) && ValidId(boot) && ValidId(apicid) && apicid != boot
    requires t.processors < c.cpuLimit && (boot in t.present || t.processors < c.cpuLimit - 1)
    ensures var (slots, cpu) := Allocate(c, t.slots, apicid);
      1 <= cpu && Inv(c, Register(t, slots, cpu, apicid), boot)
  {
    hide Consistent;
    AllocatorHasRoom(c, t, boot, apicid);
    var (slots, cpu) := Allocate(c, t.slots, apicid);
    assert cpu != 0;
    RegisterConsistent(t, slots, cpu, apicid);
  }

  lemma InfoKeepsInv(c: Config, t: Tables, boot: int, apicid: int)
    requires Inv(c, t, boot) && ValidId(boot) && ValidId(apicid)
    ensures Inv(c, ProcessorInfo(c, t, boot, apicid).0, boot)
  {
    hide Register, Mapped, Consistent;
    InvSlots(c, t, boot);
    if t.processors < c.cpuLimit {
      if apicid == boot {
        RegisterBoot(c, t, boot);
      } else if boot in t.present || t.processors < c.cpuLimit - 1 {
        RegisterOther(c, t, boot, apicid);
      }
    }
    RefuseKeepsInv(c, t, boot);
  }

  lemma InvSlots(c: Config, t: Tables, boot: int)
    requires Inv(c, t, boot)
    ensures t.slots != []
  {
  }

  lemma RefuseKeepsInv(c: Config, t: Tables, boot: int)
    requires Inv(c, t, boot)
    ensures Inv(c, Refuse(t), boot)
  {
  }

  predicate FixedBoot(calls: seq<Call>, boot: int) {
    forall k :: k in calls ==> k.boot == boot && ValidId(k.apicid)
  }

  /** CPU numbering is a bijection in every run of calls for valid apicids and one boot apicid. */
  lemma {:induction false} NumberingBijection(c: Config, t: Tables, boot: int, calls: seq<Call>)
    requires Inv(c, t, boot) && ValidId(boot) && FixedBoot(calls, boot)
    ensures Inv(c, Run(c, t, calls), boot)
    decreases |calls|
  {
    if calls != [] {
      hide Inv, ProcessorInfo;
      assert calls[0] in calls;
      InfoKeepsInv(c, t, boot, calls[0].apicid);
      NumberingBijection(c, After(c, t, calls[0]), boot, calls[1..]);
    }
  }

  /** What the invariant says of the registered numbers: they are 1 up to the last slot, and 0 just
      when the boot CPU was seen; each has its own apicid, and those fill the physical map. */
  lemma RegisteredNumbers(c: Config, t: Tables, boot: int, i: nat, j: nat)
    requires Inv(c, t, boot) && ValidId(boot)
    ensures i in t.apicOf <==> (1 <= i < |t.slots| || (i == 0 && boot in t.present))
    ensures i in t.apicOf && j in t.apicOf && i != j ==> t.apicOf[i] != t.apicOf[j]
    ensures t.present == t.apicOf.Values
  {
    assert forall k :: k in t.apicOf ==> t.apicOf[k] == t.slots[k] && t.slots[k] in t.present;
    forall a | a in t.present ensures a in t.apicOf.Values {
      var k: nat :| k < |t.slots| && t.slots[k] != -1 && t.slots[k] == a;
      assert k in t.apicOf && t.apicOf[k] == a;
    }
  }

  /** The highest apicid is that of the physical map, and 0 while it is empty. */
  predicate MaxTracked(t: Tables) {
    && (t.maxApicid == 0 || t.maxApicid in t.present)
    && (forall a :: a in t.present ==> a <= t.maxApicid)
  }

  /** `max_physical_apicid` is kept over every run, whatever the boot apicid is. */
  lemma {:induction false} MaxApicidKept(c: Config, t: Tables, calls: seq<Call>)
    requires t.slots != [] && MaxTracked(t)
    ensures MaxTracked(Run(c, t, calls))
    decreases |calls|
  {
    if calls != [] {
      hide Allocate;
      MaxApicidKept(c, After(c, t, calls[0]), calls[1..]);
    }
  }

  lemma MaxApicidFromStart(c: Config, calls: seq<Call>)
    ensures MaxTracked(Run(c, START, calls))
  {
    MaxApicidKept(c, START, calls);
  }

  /** What an answer means: a number is registered for the apicid, in all tables; after an error nothing
      has changed but the count of disabled CPUs. */
  lemma AnswerMeaning(c: Config, t: Tables, boot: int, apicid: int)
    requires t.slots != [] && ValidId(apicid)
    ensures var (t', r) := ProcessorInfo(c, t, boot, apicid);
      && (r >= 0 ==>
            && r < |t'.slots| && t'.slots[r] == apicid
            && t'.apicOf == t.apicOf[r := apicid] && t'.biosApicOf == t.biosApicOf[r := apicid]
            && t'.possible == t.possible + {r} && t'.present == t.present + {apicid}
            && t'.processors == t.processors + 1 && t'.disabled == t.disabled)
      && (r < 0 ==> t' == t.(disabled := t.disabled + 1))
  {
    hide Find;
  }

  /** The CPU that runs the kernel is never the one disabled on the command line, and without that option
      none is; any other CPU that is named there is turned down. */
  lemma DisabledExactly(c: Config, t: Tables, boot: int, apicid: int)
    requires t.slots != []
    ensures !DisabledByUser(c, c.thisApicid)
    ensures c.disabledApicid == 0xFFFF ==> !DisabledByUser(c, apicid)
    ensures apicid == c.disabledApicid && apicid != 0xFFFF && apicid != c.thisApicid ==>
      ProcessorInfo(c, t, boot, apicid) == (t.(disabled := t.disabled + 1), -19)
    ensures apicid != c.disabledApicid && boot in t.present && t.processors < c.cpuLimit ==>
      ProcessorInfo(c, t, boot, apicid).1 != -19
  {
    hide Find;
  }

  /** Every call is counted once, as a processor or as a disabled one. */
  lemma {:induction false} CallsCounted(c: Config, t: Tables, calls: seq<Call>)
    requires t.slots != []
    ensures var t' := Run(c, t, calls);
      t'.processors + t'.disabled == t.processors + t.disabled + |calls|
    decreases |calls|
  {
    if calls != [] {
      CallsCounted(c, After(c, t, calls[0]), calls[1..]);
    }
  }

  /** After any such run from the start, the boot CPU is registered as CPU 0 when its turn comes,
      unless it is the one disabled on the command line; no other CPU gets number 0; and the
      answers tell the reasons apart: -EINVAL only when all places are taken. */
  lemma BootSlotGuarantee(c: Config, boot: int, calls: seq<Call>, apicid: int)
    requires c.cpuLimit >= 1 && ValidId(boot) && FixedBoot(calls, boot) && ValidId(apicid)
    ensures var t := Run(c, START, calls);
      var disabled := DisabledByUser(c, apicid);
      var r := ProcessorInfo(c, t, boot, apicid).1;
      && (boot !in t.present ==> t.processors <= c.cpuLimit - 1)
      && (apicid == boot && boot !in t.present && !disabled ==> r == 0)
      && (r == 0 ==> apicid == boot)
      && (r == -EINVAL <==> !disabled && t.processors >= c.cpuLimit)
      && (r == -ENODEV <==> disabled || (apicid != boot && boot !in t.present && t.processors == c.cpuLimit - 1))
      && (r != -EINVAL && r != -ENODEV ==> 0 <= r < c.cpuLimit)
  {
    hide Mapped, Consistent, Register, Run;
    StartInv(c, boot);
    NumberingBijection(c, START, boot, calls);
    var t := Run(c, START, calls);
    if apicid != boot && t.processors < c.cpuLimit && (boot in t.present || t.processors < c.cpuLimit - 1) {
      AllocatorHasRoom(c, t, boot, apicid);
      SlotZeroIsBoot(c, t, boot, apicid);
    }
  }

  lemma SlotZeroIsBoot(c: Config, t: Tables, boot: int, apicid: int)
    requires Inv(c, t, boot) && apicid != boot && ValidId(apicid)
    ensures Find(t.slots, apicid) != 0
  {
  }

  // The boot apicid may change between calls.

  predicate TailInjective(slots: seq<int>) {
    forall i, j :: 1 <= i < j < |slots| ==> slots[i] != slots[j]
  }

  predicate Persists(slots: seq<int>, slots': seq<int>) {
    |slots| <= |slots'| && forall i :: 1 <= i < |slots| ==> slots'[i] == slots[i]
  }

  /** Whatever happens to the boot apicid, an assigned number above 0 is never taken away and no
      two such numbers share an apicid. */
  lemma {:induction false} MappingPersists(c: Config, t: Tables, calls: seq<Call>)
    requires t.slots != [] && TailInjective(t.slots)
    ensures Persists(t.slots, Run(c, t, calls).slots) && TailInjective(Run(c, t, calls).slots)
    decreases |calls|
  {
    if calls != [] {
      MappingPersists(c, After(c, t, calls[0]), calls[1..]);
    }
  }

  /** Asking again later for an apicid that holds a number above 0, and not also number 0, gives
      the same number and no new slot. */
  lemma SameNumberAgain(c: Config, t: Tables, calls: seq<Call>, cpu: nat)
    requires t.slots != [] && TailInjective(t.slots) && 1 <= cpu < |t.slots|
    requires Run(c, t, calls).slots[0] != t.slots[cpu]
    ensures var slots := Run(c, t, calls).slots;
      Allocate(c, slots, t.slots[cpu]) == (slots, cpu)
  {
    MappingPersists(c, t, calls);
  }

  predicate Injective(slots: seq<int>) {
    forall i, j :: 0 <= i < j < |slots| && slots[i] != -1 ==> slots[i] != slots[j]
  }

  /** The call is going to register as boot CPU an apicid that already has a number above 0. */
  predicate Duplicates(c: Config, t: Tables, call: Call)
    requires t.slots != []
  {
    && call.apicid == call.boot && call.apicid in t.slots[1..]
    && t.processors < c.cpuLimit && !DisabledByUser(c, call.apicid)
  }

  /** All numbers above 0 given out so far were given for apicids. */
  predicate TailAssigned(slots: seq<int>) {
    forall i :: 1 <= i < |slots| ==> slots[i] != -1
  }

  /** When the boot apicid changes, a call keeps the mapping injective exactly if it does not
      register as boot CPU an apicid that already has a number above 0. */
  lemma InjectiveExactly(c: Config, t: Tables, call: Call)
    requires t.slots != [] && Injective(t.slots) && TailAssigned(t.slots) && ValidId(call.apicid)
    ensures Injective(After(c, t, call).slots) <==> !Duplicates(c, t, call)
  {
    hide Find;
    var slots := After(c, t, call).slots;
    if Duplicates(c, t, call) {
      var i :| 0 <= i < |t.slots[1..]| && t.slots[1..][i] == call.apicid;
      assert slots[0] == slots[i + 1];
    } else if call.apicid == call.boot {
      assert forall i :: 1 <= i < |t.slots| ==> t.slots[i] == t.slots[1..][i - 1];
    }
  }

  lemma TailStaysAssigned(c: Config, t: Tables, call: Call)
    requires t.slots != [] && TailAssigned(t.slots) && ValidId(call.apicid)
    ensures TailAssigned(After(c, t, call).slots)
  {
  }

  lemma {:induction false} RunOneMore(c: Config, t: Tables, calls: seq<Call>, call: Call)
    requires t.slots != []
    ensures Run(c, t, calls + [call]) == After(c, Run(c, t, calls), call)
    decreases |calls|
  {
    if calls != [] {
      hide ProcessorInfo;
      assert (calls + [call])[1..] == calls[1..] + [call];
      RunOneMore(c, After(c, t, calls[0]), calls[1..], call);
    } else {
      assert (calls + [call])[1..] == [];
    }
  }

  /** The tables after the first `k` calls. */
  function AfterFirst(c: Config, t: Tables, calls: seq<Call>, k: nat): (t': Tables)
    requires t.slots != [] && k <= |calls|
    ensures t'.slots != []
  {
    Run(c, t, calls[..k])
  }

  lemma AfterNext(c: Config, t: Tables, calls: seq<Call>, k: nat)
    requires t.slots != [] && k < |calls|
    ensures AfterFirst(c, t, calls, 0) == t
    ensures AfterFirst(c, t, calls, k + 1) == After(c, AfterFirst(c, t, calls, k), calls[k])
  {
    hide ProcessorInfo;
    assert calls[..0] == [] && calls[..k + 1] == calls[..k] + [calls[k]];
    RunOneMore(c, t, calls[..k], calls[k]);
  }

  /** The mapping is injective after each of the first `n` calls. */
  predicate InjectiveThrough(c: Config, t: Tables, calls: seq<Call>, n: nat)
    requires t.slots != [] && n <= |calls|
  {
    forall k :: 0 <= k <= n ==> Injective(AfterFirst(c, t, calls, k).slots)
  }

  /** None of the first `n` calls duplicates an apicid in the state it is made in. */
  predicate NoDuplicates(c: Config, t: Tables, calls: seq<Call>, n: nat)
    requires t.slots != [] && n <= |calls|
  {
    forall k :: 0 <= k < n ==> !Duplicates(c, AfterFirst(c, t, calls, k), calls[k])
  }

  lemma ThroughNext(c: Config, t: Tables, calls: seq<Call>, n: nat)
    requires t.slots != [] && n < |calls|
    ensures InjectiveThrough(c, t, calls, n + 1)
       <==> InjectiveThrough(c, t, calls, n) && Injective(AfterFirst(c, t, calls, n + 1).slots)
    ensures NoDuplicates(c, t, calls, n + 1)
       <==> NoDuplicates(c, t, calls, n) && !Duplicates(c, AfterFirst(c, t, calls, n), calls[n])
    ensures InjectiveThrough(c, t, calls, n) ==> Injective(AfterFirst(c, t, calls, n).slots)
  {
    hide AfterFirst, Injective, Duplicates;
  }

  lemma NoneYet(c: Config, t: Tables, calls: seq<Call>)
    requires t.slots != [] && Injective(t.slots)
    ensures AfterFirst(c, t, calls, 0) == t
    ensures InjectiveThrough(c, t, calls, 0) && NoDuplicates(c, t, calls, 0)
  {
    hide ProcessorInfo, Injective, Duplicates;
    assert calls[..0] == [];
  }

  /** So over whole runs with any boot apicids. */
  lemma {:induction false} InjectiveRuns(c: Config, t: Tables, calls: seq<Call>, n: nat)
    requires t.slots != [] && Injective(t.slots) && TailAssigned(t.slots) && n <= |calls|
    requires forall call :: call in calls ==> ValidId(call.apicid)
    ensures InjectiveThrough(c, t, calls, n) <==> NoDuplicates(c, t, calls, n)
    ensures TailAssigned(AfterFirst(c, t, calls, n).slots)
    decreases n
  {
    hide AfterFirst, After, Injective, TailAssigned, Duplicates, InjectiveThrough, NoDuplicates;
    if n == 0 {
      NoneYet(c, t, calls);
    } else {
      InjectiveRuns(c, t, calls, n - 1);
      var t1, call := AfterFirst(c, t, calls, n - 1), calls[n - 1];
      assert call in calls;
      AfterNext(c, t, calls, n - 1);
      ThroughNext(c, t, calls, n - 1);
      TailStaysAssigned(c, t1, call);
      if Injective(t1.slots) {
        InjectiveExactly(c, t1, call);
      }
    }
  }

  /** It does happen: an application processor whose apicid is reported as the boot CPU's in the next
      call ends up with two numbers. */
  lemma TwoNumbers(c: Config)
    requires c.cpuLimit >= 2 && !DisabledByUser(c, 2)
    ensures var calls := [Call(1, 2), Call(2, 2)];
      && Run(c, START, calls).slots == [2, 2]
      && Duplicates(c, AfterFirst(c, START, calls, 1), calls[1])
  {
    var calls := [Call(1, 2), Call(2, 2)];
    AfterNext(c, START, calls, 0);
    AfterNext(c, START, calls, 1);
    assert calls[..2] == calls;
    assert After(c, START, calls[0]).slots == [-1, 2];
  }

  /** The kernel's own tables. */
  class Registry {
    const config: Config
    const cpuidToApicid: array<int>
    var nrLogicalCpuids: nat
    var numProcessors: nat
    var disabledCpus: nat
    var maxPhysicalApicid: int
    var x86CpuToApicid: map<nat, int>
    var x86BiosCpuApicid: map<nat, int>
    var cpuPossible: set<nat>
    var physCpuPresent: set<int>

    predicate Valid()
      reads this
    {
      1 <= nrLogicalCpuids <= config.cpuLimit <= cpuidToApicid.Length
    }

    function View(): Tables
      reads this, cpuidToApicid
      requires Valid()
    {
      Tables(cpuidToApicid[..nrLogicalCpuids], x86CpuToApicid, x86BiosCpuApicid, cpuPossible, physCpuPresent,
             numProcessors, disabledCpus, maxPhysicalApicid)
    }

    constructor (config: Config, nrCpus: nat)
      requires 1 <= config.cpuLimit <= nrCpus
      ensures Valid() && this.config == config && View() == START && fresh(cpuidToApicid)
    {
      this.config := config;
      cpuidToApicid := new int[nrCpus](i => -1);
      nrLogicalCpuids := 1;
      numProcessors, disabledCpus, maxPhysicalApicid := 0, 0, 0;
      x86CpuToApicid, x86BiosCpuApicid := map[], map[];
      cpuPossible, physCpuPresent := {}, {};
    }

    method AllocateLogicalCpuid(apicid: int) returns (cpu: int)
      requires Valid()
      modifies this`nrLogicalCpuids, cpuidToApicid
      ensures Valid()
      ensures var (slots, r) := Allocate(config, old(View().slots), apicid);
        cpu == r && View() == old(View()).(slots := slots)
    {
      ghost var slots := View().slots;
      for i := 0 to nrLogicalCpuids
        invariant Find(slots, apicid) >= i
      {
        if cpuidToApicid[i] == apicid {
          assert slots[i] == apicid;
          return i;
        }
      }
      if nrLogicalCpuids >= config.cpuLimit {
        return -EINVAL;
      }
      cpuidToApicid[nrLogicalCpuids] := apicid;
      nrLogicalCpuids := nrLogicalCpuids + 1;
      assert View().slots == slots + [apicid];
      cpu := nrLogicalCpuids - 1;
    }

    method GenericProcessorInfo(boot: int, apicid: int) returns (r: int)
      requires Valid()
      modifies this, cpuidToApicid
      ensures Valid()
      ensures (View(), r) == ProcessorInfo(config, old(View()), boot, apicid)
    {
      ghost var t := View();
      var bootCpuDetected := boot in physCpuPresent;
      if config.disabledApicid != BAD_APICID && config.disabledApicid != config.thisApicid
         && config.disabledApicid == apicid {
        disabledCpus := disabledCpus + 1;
        return -ENODEV;
      }
      if !bootCpuDetected && numProcessors >= config.cpuLimit - 1 && apicid != boot {
        disabledCpus := disabledCpus + 1;
        return -ENODEV;
      }
      if numProcessors >= config.cpuLimit {
        disabledCpus := disabledCpus + 1;
        return -EINVAL;
      }
      var cpu: int;
      if apicid == boot {
        cpu := 0;
        cpuidToApicid[0] := apicid;
        assert View().slots == t.slots[0 := apicid];
      } else {
        cpu := AllocateLogicalCpuid(apicid);
        if cpu < 0 {
          disabledCpus := disabledCpus + 1;
          return -EINVAL;
        }
      }
      if apicid > maxPhysicalApicid {
        maxPhysicalApicid := apicid;
      }
      x86CpuToApicid := x86CpuToApicid[cpu := apicid % 0x1_0000];
      x86BiosCpuApicid := x86BiosCpuApicid[cpu := apicid % 0x1_0000];
      cpuPossible := cpuPossible + {cpu};
      physCpuPresent := physCpuPresent + {apicid};
      numProcessors := numProcessors + 1;
      r := cpu;
    }
  }
}
