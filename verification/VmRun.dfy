/** The run loop of the virtual machine: entering the guest, handling its exits, and what
    holds over every sequence of exits the processor may present. */
module VmRun {
  import opened Words

  const VMX_VMEXIT := 1
  const VMX_EXIT := 2
  const VMX_RESUME := 3
  const VMX_VMABORT := 4
  const VMX_VMSKIP := 5

  const VMX_VMCALL := 18
  const EPT_VIOLATION := 48
  const PAGE_FAULT := 14
  const ENTRY_FAILURE := 0x8000_0000
  const HOST_RSP: word := 0x6c14

  const HYPERCALL_BIT := 0x1000
  const HYPERCALL_MASK := 0xFFF

  datatype Gprs = Gprs(eax: word, ebx: word, ecx: word, edx: word, ebp: word, esi: word, edi: word)

  /** What the processor presents at a VM exit: the exit fields of the VMCS, the guest's
      registers and instruction pointer, the word hypercall_field as the guest left it, and
      for a page fault its address and error code. */
  datatype Exit = Exit(reason: word, gprs: Gprs, rip: word, rflags: word, intrInfo: word, instLen: word,
                       entInstLen: word, qual: word, field: word, cr2: word, error: word)

  /** One VM entry: the instruction used and the guest state it enters with. */
  datatype Entry = Entry(launch: bool, gprs: Gprs, rip: word, rflags: word, cr3: word)

  /** The processor's registers, the save area, the guest part of the VMCS, the globals of
      the run loop, and every entry made so far. */
  datatype VmState = VmState(cpu: Gprs, save: Gprs, saveFlags: word, rip: word, rflags: word, cr3: word,
                             field: word, launched: bool, finished: bool, entries: seq<Entry>)

  datatype Verdict = Again | Returned | Broke

  // ----- what one exit means -----

  function Basic(e: Exit): nat {
    e.reason % 0x100
  }

  predicate EntryFailed(e: Exit) {
    e.reason >= ENTRY_FAILURE
  }

  predicate IsPageFault(e: Exit) {
    !EntryFailed(e) && Basic(e) == 0 && e.intrInfo % 0x100 == PAGE_FAULT
  }

  /** Bytes the handler moves the instruction pointer for each exit reason. */
  function Advance(e: Exit): word {
    var r := Basic(e);
    if r == VMX_VMCALL then 3
    else if r == 10 then 2
    else if r == 12 then 1
    else if r == 14 || r == 28 || r == 29 then e.instLen
    else if r == EPT_VIOLATION then e.entInstLen
    else 0
  }

  predicate IsHypercall(e: Exit, no: nat) {
    !EntryFailed(e) && Basic(e) == VMX_VMCALL && e.field % 0x1000 == no
  }

  /** Exits after which the guest runs on. */
  predicate Continuing(e: Exit) {
    !EntryFailed(e) && (if Basic(e) == VMX_VMCALL then e.field % 0x1000 == 3 else Basic(e) != EPT_VIOLATION)
  }

  /** Exits that end the run in the ordinary way. */
  predicate NormalEnd(e: Exit) {
    IsHypercall(e, 1) || IsHypercall(e, 2) || (!EntryFailed(e) && Basic(e) == EPT_VIOLATION)
  }

  // ----- the steps of the loop -----

  /** vmx_enter_guest: swap the registers in, enter, run until the exit, swap them back.
      The assembly uses edi for a VMCS field number first, and declares it overwritten. */
  function EnterSpec(s: VmState, e: Exit): VmState {
    var host := s.cpu.(edi := HOST_RSP);
    s.(cpu := host, save := e.gprs, rip := e.rip, rflags := e.rflags, field := e.field,
       entries := s.entries + [Entry(!s.launched, s.save, s.rip, s.rflags, s.cr3)])
  }

  function HypercallSpec(s: VmState): (VmState, int) {
    var no := s.field % 0x1000;
    (s.(field := 0),
     if no == 1 then VMX_VMEXIT else if no == 2 then VMX_VMABORT else if no == 3 then VMX_VMSKIP else VMX_EXIT)
  }

  /** exit_handler, after a successful entry. */
  function HandlerSpec(s: VmState, e: Exit, hostCr3: word): (VmState, int) {
    var s1 := s.(saveFlags := s.rflags, rip := Wrap(s.rip + Advance(e)));
    if Basic(e) == VMX_VMCALL then HypercallSpec(s1)
    else if Basic(e) == EPT_VIOLATION then (s1, VMX_VMEXIT)
    else (if Basic(e) == 0 && e.intrInfo % 0x100 == PAGE_FAULT then s1.(cr3 := hostCr3) else s1, VMX_RESUME)
  }

  /** One round of vmx_run. */
  function StepSpec(s: VmState, e: Exit, hostCr3: word): (VmState, Verdict) {
    var entered := EnterSpec(s, e);
    if EntryFailed(e) then (entered, Broke)
    else
      var (s', ret) := HandlerSpec(entered.(launched := true), e, hostCr3);
      if ret == VMX_RESUME || ret == VMX_VMSKIP then (s', Again)
      else if ret == VMX_VMEXIT || ret == VMX_VMABORT then (s'.(finished := true), Returned)
      else (s', Broke)
  }

  /** The run over a sequence of exits; Again means that the guest is still running after
      the last of them. */
  function RunSpec(s: VmState, exits: seq<Exit>, hostCr3: word): (VmState, Verdict) {
    if exits == [] then (s, Again)
    else
      var (s', v) := RunSpec(s, exits[..|exits| - 1], hostCr3);
      if v == Again then StepSpec(s', exits[|exits| - 1], hostCr3) else (s', v)
  }

  // ----- the code -----

  lemma LowByte(x: word)
    ensures BitAnd(x, 0xff) == x % 0x100
  {
    assert Pow2(8) == 0x100;
    AndLowMask(x, 8);
  }

  lemma TopBit(x: word)
    ensures BitAnd(x, ENTRY_FAILURE) != 0 <==> x >= ENTRY_FAILURE
  {
    hide BitAnd;
    var hi, lo := x / ENTRY_FAILURE, x % ENTRY_FAILURE;
    Pow2At31();
    assert x == hi * ENTRY_FAILURE + lo && hi <= 1;
    AndSplit(hi, lo, 1, 0, 31);
    AndBasics(lo);
  }

  lemma Pow2At31()
    ensures Pow2(31) == ENTRY_FAILURE
  {
    Pow2At32();
    assert Pow2(11) == 2048;
    Pow2Add(20, 11);
  }

  lemma AndBasics(x: nat)
    ensures BitAnd(0, 1) == 0 && BitAnd(1, 1) == 1 && BitAnd(x, 0) == 0
  {
  }

  lemma Low12(x: word)
    ensures BitAnd(x, HYPERCALL_MASK) == x % 0x1000
  {
    Pow2At12();
    AndLowMask(x, 12);
  }

  class Vm {
    const hostCr3: word
    var cpu: Gprs
    var regs: Gprs
    var eflags: word
    var guestRip: word
    var guestRflags: word
    var guestCr3: word
    var hypercallField: word
    var launched: bool
    var guestFinished: bool
    ghost var entries: seq<Entry>

    ghost function State(): VmState
      reads this
    {
      VmState(cpu, regs, eflags, guestRip, guestRflags, guestCr3, hypercallField, launched, guestFinished, entries)
    }

    constructor (host: Gprs, guestDir: word, entryPoint: word, hostDir: word)
      ensures State() == VmState(host, Gprs(0, 0, 0, 0, 0, 0, 0), 0, entryPoint, 0x2, guestDir, 0, false, false, [])
      ensures hostCr3 == hostDir
    {
      hostCr3 := hostDir;
      cpu, regs, eflags := host, Gprs(0, 0, 0, 0, 0, 0, 0), 0;
      guestRip, guestRflags, guestCr3 := entryPoint, 0x2, guestDir;
      hypercallField, launched, guestFinished := 0, false, false;
      entries := [];
    }

    /** SAVE_GPR_C, which is LOAD_GPR_C as well: seven exchanges, one register at a time. */
    method ExchangeGprs()
      modifies this`cpu, this`regs
      ensures cpu == old(regs) && regs == old(cpu)
    {
      var t := cpu.eax;
      cpu, regs := cpu.(eax := regs.eax), regs.(eax := t);
      t := cpu.ebx;
      cpu, regs := cpu.(ebx := regs.ebx), regs.(ebx := t);
      t := cpu.ecx;
      cpu, regs := cpu.(ecx := regs.ecx), regs.(ecx := t);
      t := cpu.edx;
      cpu, regs := cpu.(edx := regs.edx), regs.(edx := t);
      t := cpu.ebp;
      cpu, regs := cpu.(ebp := regs.ebp), regs.(ebp := t);
      t := cpu.esi;
      cpu, regs := cpu.(esi := regs.esi), regs.(esi := t);
      t := cpu.edi;
      cpu, regs := cpu.(edi := regs.edi), regs.(edi := t);
    }

    /** The guest runs: it starts from the registers and the VMCS as they are now and leaves
        what the exit says. CR3 is not among it because loads of CR3 exit. */
    method RunGuest(launch: bool, e: Exit)
      modifies this`cpu, this`guestRip, this`guestRflags, this`hypercallField, this`entries
      ensures cpu == e.gprs && guestRip == e.rip && guestRflags == e.rflags && hypercallField == e.field
      ensures entries == old(entries + [Entry(launch, cpu, guestRip, guestRflags, guestCr3)])
    {
      entries := entries + [Entry(launch, cpu, guestRip, guestRflags, guestCr3)];
      cpu, guestRip, guestRflags, hypercallField := e.gprs, e.rip, e.rflags, e.field;
    }

    method VmxEnterGuest(e: Exit) returns (entered: bool)
      modifies this
      ensures State() == EnterSpec(old(State()), e)
      ensures entered <==> !EntryFailed(e)
    {
      cpu := cpu.(edi := HOST_RSP);
      ExchangeGprs();
      RunGuest(!launched, e);
      ExchangeGprs();
      TopBit(e.reason);
      entered := !(BitAnd(e.reason, ENTRY_FAILURE) != 0);
    }

    method HandleHypercall() returns (ret: int)
      modifies this`hypercallField
      ensures (State(), ret) == HypercallSpec(old(State()))
    {
      Low12(hypercallField);
      var no := BitAnd(hypercallField, HYPERCALL_MASK);
      hypercallField := 0;
      if no == 1 {
        return VMX_VMEXIT;
      } else if no == 2 {
        return VMX_VMABORT;
      } else if no == 3 {
        return VMX_VMSKIP;
      }
      return VMX_EXIT;
    }

    method ExitHandler(e: Exit) returns (ret: int)
      modifies this
      ensures (State(), ret) == HandlerSpec(old(State()), e, hostCr3)
    {
      hide BitAnd;
      LowByte(e.reason);
      LowByte(e.intrInfo);
      var reason := BitAnd(e.reason, 0xff);
      var guestEip := guestRip;
      eflags := guestRflags;
      if reason == VMX_VMCALL {
        guestRip := Wrap(guestEip + 3);
        ret := HandleHypercall();
      } else {
        if reason == 0 {
          var vector := BitAnd(e.intrInfo, 0xff);
          if vector == PAGE_FAULT {
            guestCr3 := hostCr3;
          }
        } else if reason == 1 {
        } else if reason == 10 {
          guestRip := Wrap(guestEip + 2);
        } else if reason == 12 {
          guestRip := Wrap(guestEip + 1);
        } else if reason == 14 {
          guestRip := Wrap(guestEip + e.instLen);
        } else if reason == 28 || reason == 29 {
          guestRip := Wrap(guestEip + e.instLen);
        } else if reason == 48 {
          guestRip := Wrap(guestEip + e.entInstLen);
          guestRflags := eflags;
          return VMX_VMEXIT;
        }
        ret := VMX_RESUME;
      }
      guestRflags := eflags;
    }

    /** vmx_run over the exits the processor presents. The loop returns 0, or breaks and falls
        off the end of the function, or is still running when the exits are used up. */
    method VmxRun(exits: seq<Exit>) returns (v: Verdict)
      modifies this
      ensures (State(), v) == RunSpec(old(State()), exits, hostCr3)
    {
      hide StepSpec;
      ghost var s := State();
      var i := 0;
      while i < |exits|
        invariant 0 <= i <= |exits|
        invariant (State(), Again) == RunSpec(s, exits[..i], hostCr3)
      {
        RunExtends(s, exits, i, hostCr3);
        ghost var before := State();
        var e := exits[i];
        i := i + 1;
        var entered := VmxEnterGuest(e);
        var ret := VMX_EXIT;
        if entered {
          launched := true;
          ret := ExitHandler(e);
        }
        StepCases(before, e, hostCr3);
        if ret == VMX_RESUME || ret == VMX_VMSKIP {
          continue;
        } else if ret == VMX_VMEXIT || ret == VMX_VMABORT {
          guestFinished := true;
          RunStops(s, exits, i, hostCr3);
          return Returned;
        }
        RunStops(s, exits, i, hostCr3);
        return Broke;
      }
      assert exits[..i] == exits;
      v := Again;
    }
  }

  lemma StepCases(s: VmState, e: Exit, hostCr3: word)
    ensures var entered := EnterSpec(s, e);
            if EntryFailed(e) then StepSpec(s, e, hostCr3) == (entered, Broke)
            else
              var (s', ret) := HandlerSpec(entered.(launched := true), e, hostCr3);
              StepSpec(s, e, hostCr3) ==
                if ret == VMX_RESUME || ret == VMX_VMSKIP then (s', Again)
                else if ret == VMX_VMEXIT || ret == VMX_VMABORT then (s'.(finished := true), Returned)
                else (s', Broke)
  {
  }

  lemma RunExtends(s: VmState, exits: seq<Exit>, i: nat, hostCr3: word)
    requires i < |exits|
    ensures RunSpec(s, exits[..i + 1], hostCr3) ==
            var (s', v) := RunSpec(s, exits[..i], hostCr3);
            if v == Again then StepSpec(s', exits[i], hostCr3) else (s', v)
  {
    assert exits[..i + 1][..i] == exits[..i];
  }

  /** Once the loop has been left, later exits do not matter. */
  lemma {:induction false} RunStops(s: VmState, exits: seq<Exit>, i: nat, hostCr3: word)
    requires i <= |exits| && RunSpec(s, exits[..i], hostCr3).1 != Again
    ensures RunSpec(s, exits, hostCr3) == RunSpec(s, exits[..i], hostCr3)
    decreases |exits| - i
  {
    if i < |exits| {
      RunExtends(s, exits, i, hostCr3);
      RunStops(s, exits, i + 1, hostCr3);
    } else {
      assert exits[..i] == exits;
    }
  }
}
