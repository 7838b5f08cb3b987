/** What holds over every sequence of exits: how the guest is entered, what its registers
    are, how the run ends, and what its page faults can be. */
module VmTraces {
  import opened Words
  import opened PageList
  import opened GuestPaging
  import opened VmRun

  /** Before the first entry. */
  predicate Fresh(s: VmState) {
    !s.launched && !s.finished && s.entries == []
  }

  function NextCr3(cr3: word, e: Exit, hostCr3: word): word {
    if IsPageFault(e) then hostCr3 else cr3
  }

  /** The guest is entered again as it left: same registers and flags, the instruction pointer
      moved by what the exit reason calls for, and CR3 replaced only by a page fault. */
  predicate Resumes(before: Entry, e: Exit, after: Entry, hostCr3: word) {
    && after.gprs == e.gprs && after.rflags == e.rflags
    && after.rip == Wrap(e.rip + Advance(e))
    && after.cr3 == NextCr3(before.cr3, e, hostCr3)
  }

  /** The state between two entries, while the guest runs on. */
  predicate Between(s0: VmState, s: VmState, exits: seq<Exit>, hostCr3: word) {
    && |s.entries| == |exits|
    && (if exits == [] then s == s0
        else
          var last := |exits| - 1;
          && s.launched && s.cpu == s0.cpu.(edi := HOST_RSP)
          && Resumes(s.entries[last], exits[last], Entry(false, s.save, s.rip, s.rflags, s.cr3), hostCr3))
  }

  /** The entries made so far and the exits that ended them. */
  ghost predicate EntriesOk(s0: VmState, s: VmState, exits: seq<Exit>, hostCr3: word) {
    && |s.entries| <= |exits|
    && (forall i :: 0 <= i < |s.entries| ==> (s.entries[i].launch <==> i == 0))
    && (s.entries != [] ==> s.entries[0] == Entry(true, s0.save, s0.rip, s0.rflags, s0.cr3))
    && (forall i {:trigger s.entries[i]} :: 0 < i < |s.entries| ==>
          Resumes(s.entries[i - 1], exits[i - 1], s.entries[i], hostCr3))
    && (forall i :: 0 <= i < |s.entries| - 1 ==> Continuing(exits[i]))
    && (s.entries != [] ==> s.cpu == s0.cpu.(edi := HOST_RSP))
  }

  ghost predicate EndsAs(s: VmState, v: Verdict, exits: seq<Exit>)
    requires |s.entries| <= |exits|
  {
    var n := |s.entries|;
    && (s.finished <==> v == Returned)
    && match v
       case Again => n == |exits| && (n > 0 ==> Continuing(exits[n - 1]))
       case Returned => n > 0 && NormalEnd(exits[n - 1])
       case Broke => n > 0 && !NormalEnd(exits[n - 1]) && !Continuing(exits[n - 1])
  }

  /** The guest state that an exit leaves for the next entry. */
  predicate Left(s: VmState, e: Exit, s': VmState, hostCr3: word) {
    && s'.launched && s'.save == e.gprs && s'.rflags == e.rflags
    && s'.rip == Wrap(e.rip + Advance(e)) && s'.cr3 == NextCr3(s.cr3, e, hostCr3)
  }

  lemma StepMeaning(s: VmState, e: Exit, hostCr3: word)
    ensures var (s', v) := StepSpec(s, e, hostCr3);
            && s'.entries == s.entries + [Entry(!s.launched, s.save, s.rip, s.rflags, s.cr3)]
            && s'.cpu == s.cpu.(edi := HOST_RSP)
            && (v == Again <==> Continuing(e)) && (v == Returned <==> NormalEnd(e))
            && (s'.finished <==> s.finished || v == Returned)
            && (v == Again ==> Left(s, e, s', hostCr3))
  {
  }

  /** One round in full, in the processor's numbers: basic exit reason 18 is vmcall, 48 an EPT
      violation, 0 an exception or NMI whose vector 14 is a page fault, 10 cpuid, 12 hlt, 14 invlpg,
      28 an access to a control register, 29 one to a debug register. */
  lemma StepExactly(s: VmState, e: Exit, hostCr3: word)
    ensures var (s', v) := StepSpec(s, e, hostCr3);
            && s'.entries == s.entries + [Entry(!s.launched, s.save, s.rip, s.rflags, s.cr3)]
            && s'.cpu == Gprs(s.cpu.eax, s.cpu.ebx, s.cpu.ecx, s.cpu.edx, s.cpu.ebp, s.cpu.esi, 0x6c14)
            && s'.save == e.gprs && s'.rflags == e.rflags
            && s'.finished == (s.finished || v == Returned)
    ensures var (s', v) := StepSpec(s, e, hostCr3);
            e.reason >= 0x8000_0000 ==>
              && v == Broke && s'.launched == s.launched && s'.saveFlags == s.saveFlags
              && s'.rip == e.rip && s'.cr3 == s.cr3 && s'.field == e.field
    ensures var (s', v) := StepSpec(s, e, hostCr3);
            var r, no := e.reason % 0x100, e.field % 0x1000;
            e.reason < 0x8000_0000 ==>
              && s'.launched && s'.saveFlags == e.rflags
              && (v == Again <==> r != 48 && (r == 18 ==> no == 3))
              && (v == Returned <==> r == 48 || (r == 18 && 1 <= no <= 2))
              && s'.field == (if r == 18 then 0 else e.field)
              && s'.cr3 == (if r == 0 && e.intrInfo % 0x100 == 14 then hostCr3 else s.cr3)
              && s'.rip == (if r == 18 then (e.rip + 3) % 0x1_0000_0000
                            else if r == 10 then (e.rip + 2) % 0x1_0000_0000
                            else if r == 12 then (e.rip + 1) % 0x1_0000_0000
                            else if r in {14, 28, 29} then (e.rip + e.instLen) % 0x1_0000_0000
                            else if r == 48 then (e.rip + e.entInstLen) % 0x1_0000_0000
                            else e.rip)
  {
  }

  /** The instruction length that the processor reports for cpuid, hlt and vmcall is that of their
      encodings. */
  predicate ReportsLength(e: Exit) {
    var r := e.reason % 0x100;
    (r == 10 ==> e.instLen == 2) && (r == 12 ==> e.instLen == 1) && (r == 18 ==> e.instLen == 3)
  }

  /** Where the guest goes on, at every entry of every run: behind the instruction that exited for
      cpuid, hlt, invlpg, vmcall and accesses to control and debug registers; at the same
      instruction for every other reason, so that the write that faulted is done again. */
  lemma NextInstruction(s0: VmState, exits: seq<Exit>, hostCr3: word, i: nat)
    requires Fresh(s0) && i + 1 < |RunSpec(s0, exits, hostCr3).0.entries|
    ensures i + 1 < |exits|
    ensures var (e, next) := (exits[i], RunSpec(s0, exits, hostCr3).0.entries[i + 1]);
            && (e.reason % 0x100 in {10, 12, 14, 18, 28, 29} && ReportsLength(e) ==>
                  next.rip == (e.rip + e.instLen) % 0x1_0000_0000)
            && (e.reason % 0x100 !in {10, 12, 14, 18, 28, 29} ==> next.rip == e.rip)
            && next.gprs == e.gprs && next.rflags == e.rflags
  {
    hide RunSpec;
    RunInvariant(s0, exits, hostCr3);
    var (s, e) := (RunSpec(s0, exits, hostCr3).0, exits[i]);
    assert Continuing(e);
    assert Resumes(s.entries[i], e, s.entries[i + 1], hostCr3);
    assert Advance(e) == 0 ==> Wrap(e.rip + Advance(e)) == e.rip;
  }

  /** A run goes on after an exit exactly when it was no failed entry, no EPT violation, and no
      hypercall but number 3. */
  lemma GoesOn(s0: VmState, exits: seq<Exit>, hostCr3: word, i: nat)
    requires Fresh(s0) && i + 1 < |exits|
    ensures i + 1 < |RunSpec(s0, exits, hostCr3).0.entries| <==>
            forall j :: 0 <= j <= i ==>
              && exits[j].reason < 0x8000_0000 && exits[j].reason % 0x100 != 48
              && (exits[j].reason % 0x100 == 18 ==> exits[j].field % 0x1000 == 3)
  {
    hide RunSpec, Between, Resumes;
    RunInvariant(s0, exits, hostCr3);
    var (s, v) := RunSpec(s0, exits, hostCr3);
    var n := |s.entries|;
    if n <= i + 1 {
      assert v != Again && !Continuing(exits[n - 1]) by {
        EndsDoNotContinue(exits[n - 1]);
      }
    }
  }

  /** Every run: vmlaunch is used for the first entry only and vmresume afterwards, the host
      has its registers back after each exit, and each entry resumes the exit before it. */
  lemma {:induction false} RunInvariant(s0: VmState, exits: seq<Exit>, hostCr3: word)
    requires Fresh(s0)
    ensures var (s, v) := RunSpec(s0, exits, hostCr3);
            && EntriesOk(s0, s, exits, hostCr3) && EndsAs(s, v, exits)
            && (v == Again ==> Between(s0, s, exits, hostCr3))
    decreases |exits|
  {
    hide StepSpec, EntriesOk, EndsAs, Between;
    if exits == [] {
      NotYetRun(s0, hostCr3);
    } else {
      var before := exits[..|exits| - 1];
      var e := exits[|exits| - 1];
      RunInvariant(s0, before, hostCr3);
      var (s1, v1) := RunSpec(s0, before, hostCr3);
      assert exits == before + [e];
      if v1 == Again {
        RunGrows(s0, s1, before, e, hostCr3);
      } else {
        RunOver(s0, s1, v1, before, e, hostCr3);
      }
    }
  }

  lemma NotYetRun(s0: VmState, hostCr3: word)
    requires Fresh(s0)
    ensures EntriesOk(s0, s0, [], hostCr3) && EndsAs(s0, Again, []) && Between(s0, s0, [], hostCr3)
  {
  }

  /** After the end of the run another exit means nothing. */
  lemma RunOver(s0: VmState, s: VmState, v: Verdict, exits: seq<Exit>, e: Exit, hostCr3: word)
    requires EntriesOk(s0, s, exits, hostCr3) && EndsAs(s, v, exits) && v != Again
    ensures EntriesOk(s0, s, exits + [e], hostCr3) && EndsAs(s, v, exits + [e])
  {
    hide Resumes, Continuing, NormalEnd;
  }

  /** One more round from a state in between. */
  lemma RunGrows(s0: VmState, s: VmState, exits: seq<Exit>, e: Exit, hostCr3: word)
    requires Fresh(s0) && EntriesOk(s0, s, exits, hostCr3) && EndsAs(s, Again, exits) && Between(s0, s, exits, hostCr3)
    ensures var (s', v) := StepSpec(s, e, hostCr3);
            && EntriesOk(s0, s', exits + [e], hostCr3) && EndsAs(s', v, exits + [e])
            && (v == Again ==> Between(s0, s', exits + [e], hostCr3))
  {
    hide StepSpec, Continuing, NormalEnd, NextCr3, Advance;
    StepMeaning(s, e, hostCr3);
    EntriesGrow(s0, s, exits, StepSpec(s, e, hostCr3).0, e, hostCr3);
    EndsDoNotContinue(e);
  }

  /** One more entry from a state in between. */
  lemma EntriesGrow(s0: VmState, s: VmState, exits: seq<Exit>, s': VmState, e: Exit, hostCr3: word)
    requires Fresh(s0) && EntriesOk(s0, s, exits, hostCr3) && Between(s0, s, exits, hostCr3)
    requires exits != [] ==> Continuing(exits[|exits| - 1])
    requires s'.entries == s.entries + [Entry(!s.launched, s.save, s.rip, s.rflags, s.cr3)]
    requires s'.cpu == s.cpu.(edi := HOST_RSP)
    ensures EntriesOk(s0, s', exits + [e], hostCr3)
  {
    hide Continuing, NextCr3, Advance;
  }

  /** The run returns 0 with guest_finished set exactly when the first exit that does not
      continue is hypercall 1 or 2 or an EPT violation; it falls out of the loop exactly when
      the first such exit is any other; otherwise the guest is still running. */
  lemma Outcome(s0: VmState, exits: seq<Exit>, hostCr3: word)
    requires Fresh(s0)
    ensures var (s, v) := RunSpec(s0, exits, hostCr3);
            && (v == Returned <==> exists i :: FirstStop(exits, i) && NormalEnd(exits[i]))
            && (v == Broke <==> exists i :: FirstStop(exits, i) && !NormalEnd(exits[i]))
            && (v == Again <==> forall i :: 0 <= i < |exits| ==> Continuing(exits[i]))
            && (s.finished <==> v == Returned)
  {
    hide RunSpec, Continuing, NormalEnd, Resumes, Between;
    RunInvariant(s0, exits, hostCr3);
    var (s, v) := RunSpec(s0, exits, hostCr3);
    var n := |s.entries|;
    forall i | 0 <= i < |exits|
      ensures NormalEnd(exits[i]) ==> !Continuing(exits[i])
    {
      EndsDoNotContinue(exits[i]);
    }
    if v != Again {
      assert FirstStop(exits, n - 1);
    }
  }

  /** Exit number i is the first one after which the guest does not run on. */
  ghost predicate FirstStop(exits: seq<Exit>, i: int) {
    0 <= i < |exits| && !Continuing(exits[i]) && forall j :: 0 <= j < i ==> Continuing(exits[j])
  }

  lemma EndsDoNotContinue(e: Exit)
    ensures NormalEnd(e) ==> !Continuing(e)
  {
  }

  // ----- hypercalls -----

  /** The word the guest's hypercall stub stores before it executes vmcall. */
  function HypercallWord(no: word): nat {
    BitOr(BitAnd(no, HYPERCALL_MASK), HYPERCALL_BIT)
  }

  /** The handler decodes the low 12 bits of what the guest passed, and with them decides:
      1 and 2 end the run, 3 continues it, anything else breaks out of the loop. */
  lemma HypercallDecodes(s: VmState, e: Exit, no: word, hostCr3: word)
    requires !EntryFailed(e) && Basic(e) == VMX_VMCALL && e.field == HypercallWord(no)
    ensures e.field % 0x1000 == no % 0x1000
    ensures var (s', v) := StepSpec(s, e, hostCr3);
            && s'.field == 0
            && v == if no % 0x1000 == 3 then Again else if no % 0x1000 in {1, 2} then Returned else Broke
  {
    hide BitAnd, BitOr;
    Low12(no);
    Pow2At12();
    OrDisjoint(1, no % 0x1000, 12);
    OrSymmetric(no % 0x1000, HYPERCALL_BIT);
  }

  lemma {:induction false} OrSymmetric(x: nat, y: nat)
    ensures BitOr(x, y) == BitOr(y, x)
  {
    if x > 0 && y > 0 {
      OrSymmetric(x / 2, y / 2);
    }
  }

  // ----- page faults over a run -----

  function FaultAccess(e: Exit): MemAccess {
    MemAccess(e.cr2, e.error / 2 % 2 == 1, e.error / 4 % 2 == 1)
  }

  /** The processor as far as paging goes: at each exit memory still holds the tables, and
      a page fault is reported only for an access that the tables in use deny. */
  ghost predicate FaithfulPaging(l: Layout, s: VmState, exits: seq<Exit>, mems: seq<Mem>) {
    && |mems| == |exits| && |s.entries| <= |exits|
    && (forall i :: 0 <= i < |exits| ==> TablesIntact(mems[i], l))
    && (forall i :: 0 <= i < |s.entries| && IsPageFault(exits[i]) ==>
          !Permits(Walk(mems[i], s.entries[i].cr3, exits[i].cr2), FaultAccess(exits[i])))
  }

  ghost predicate NoFaultBefore(exits: seq<Exit>, i: nat)
    requires i <= |exits|
  {
    forall j :: 0 <= j < i ==> !IsPageFault(exits[j])
  }

  /** The guest runs on its own directory until its first page fault and on the host's ever
      after. */
  lemma {:induction false} DirectoryInUse(s0: VmState, exits: seq<Exit>, l: Layout, i: nat)
    requires Fresh(s0) && l.Valid() && s0.cr3 == l.guestDir
    requires i < |RunSpec(s0, exits, l.hostDir).0.entries|
    ensures i < |exits|
    ensures RunSpec(s0, exits, l.hostDir).0.entries[i].cr3 ==
            if NoFaultBefore(exits, i) then l.guestDir else l.hostDir
  {
    hide RunSpec, Continuing;
    RunInvariant(s0, exits, l.hostDir);
    if i > 0 {
      DirectoryInUse(s0, exits, l, i - 1);
    }
  }

  /** Page faults of any run. The first one is a write to page 0x103, and no later one is:
      after it that page is writable, and only addresses from 4 MB up can fault. */
  lemma FaultsAtMostOnce(s0: VmState, exits: seq<Exit>, l: Layout, mems: seq<Mem>, i: nat)
    requires Fresh(s0) && l.Valid() && s0.cr3 == l.guestDir
    requires FaithfulPaging(l, RunSpec(s0, exits, l.hostDir).0, exits, mems)
    requires i < |RunSpec(s0, exits, l.hostDir).0.entries| && IsPageFault(exits[i])
    ensures var e := exits[i];
            if NoFaultBefore(exits, i)
            then e.error / 2 % 2 == 1 && e.cr2 / 0x1000 == 0x103
                 && Permits(Walk(mems[i], l.hostDir, e.cr2), FaultAccess(e))
            else e.cr2 >= 0x40_0000
  {
    hide RunSpec, TablesIntact, Walk;
    DirectoryInUse(s0, exits, l, i);
    GuestWalk(mems[i], l, exits[i].cr2);
    HostWalk(mems[i], l, exits[i].cr2);
  }

  /** In every run the directory in use is one of the two, so every present address maps
      to itself and the first 4 MB are present, whenever the guest is entered. */
  lemma AddressSpace(s0: VmState, exits: seq<Exit>, l: Layout, mem: Mem, i: nat, va: word)
    requires Fresh(s0) && l.Valid() && s0.cr3 == l.guestDir && TablesIntact(mem, l)
    requires i < |RunSpec(s0, exits, l.hostDir).0.entries|
    ensures var m := Walk(mem, RunSpec(s0, exits, l.hostDir).0.entries[i].cr3, va);
            (m.Mapped? ==> m.pa == va) && (va < LARGE ==> m.Mapped?)
  {
    hide RunSpec, TablesIntact, Walk;
    DirectoryInUse(s0, exits, l, i);
    AlwaysIdentity(mem, l, RunSpec(s0, exits, l.hostDir).0.entries[i].cr3, va);
  }
}
