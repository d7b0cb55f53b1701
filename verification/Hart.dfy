/** The hart: trap entry and exit on the hypervisor stack, the handlers with their locks, and guest entry
    (src/trap/hypervisor_supervisor.rs and below it, src/hypervisor_init.rs). */
module HartModel {
  import opened Bits
  import opened PageTable
  import opened GStageTree
  import opened Csrs
  import opened Sv39x4
  import opened TwoStage
  import SS = ShadowStack
  import Plic
  import opened TrapSpec
  import opened TrapTheorems

  /** Size of `ContextData`. */
  const FRAME_SIZE: nat := 272

  class Hart {
    const hartId: nat
    const stackTop: u64
    const plic: Plic.Device
    const zicfiss: SS.Zicfiss
    const mem: HostMemory
    const hgatp: nat

    // Registers and CSRs.
    var x: seq<u64>
    var sscratch: u64
    var sstatus: nat
    var sepc: nat
    var vs: VsCsrs
    /** Contexts on the hypervisor stack, by address. */
    var frames: map<nat, Frame>
    /** The mutexes around `HYPERVISOR_DATA` and `ZICFISS_DATA`. */
    var hypervisorLocked: bool
    var zicfissLocked: bool

    ghost predicate Wired()
      reads this, plic, zicfiss, mem
    {
      && hartId < 8 && FRAME_SIZE <= stackTop && |x| == 32
      && plic.Valid() && zicfiss.ssp < WORD
      && mem.Valid() && AtpPpn(hgatp) * PAGE_SIZE == mem.root && HgatpMode(hgatp) == SV39X4
      && Address() in frames && FrameOk(frames[Address()])
    }

    /** The guest runs: its context would be saved at the stack top, and no lock is held. */
    ghost predicate GuestRuns()
      reads this, plic, zicfiss, mem
    {
      Wired() && x[0] == 0 && sscratch == stackTop && !hypervisorLocked && !zicfissLocked
    }

    /** A handler runs: sp points at the context, and sscratch keeps the guest's sp. */
    ghost predicate HandlerRuns(sp: u64)
      reads this, plic, zicfiss, mem
    {
      Wired() && sscratch == sp
    }

    function Address(): nat
      reads this
    {
      if stackTop < FRAME_SIZE then 0 else stackTop - FRAME_SIZE
    }

    ghost function Context(): Frame
      reads this
      requires Address() in frames
    {
      frames[Address()]
    }

    ghost function GuestState(): Guest
      reads this
    {
      Guest(x, sepc, sstatus, vs)
    }

    ghost function EnvOf(): Env
      reads this, plic, mem
    {
      Env(hartId, plic.base, GStage(mem.root, mem.tables))
    }

    ghost function WorldNow(): World
      reads this, plic, zicfiss
    {
      World(plic.Abs(), zicfiss.State(), zicfiss.henvSse, zicfiss.senvSse)
    }

    ghost function Result(flow: Flow): Handled
      reads this, plic, zicfiss
      requires Address() in frames
    {
      Handled(WorldNow(), Context(), vs, flow)
    }

    /** `hart_entry`: the first entry into the guest, from the context that `vsmode_setup` prepared. */
    constructor (hartId: nat, stackTop: u64, plic: Plic.Device, zicfiss: SS.Zicfiss, mem: HostMemory, hgatp: nat,
                 frame: Frame, vs: VsCsrs, dtb: u64)
      requires hartId < 8 && FRAME_SIZE <= stackTop && FrameOk(frame)
      requires plic.Valid() && zicfiss.ssp < WORD
      requires mem.Valid() && AtpPpn(hgatp) * PAGE_SIZE == mem.root && HgatpMode(hgatp) == SV39X4
      ensures this.hartId == hartId && this.stackTop == stackTop && this.plic == plic && this.zicfiss == zicfiss
              && this.mem == mem && this.hgatp == hgatp
      ensures GuestRuns() && Context() == frame
      ensures GuestState() == Restore(frame.(xreg := frame.xreg[10 := hartId][11 := dtb]), 0, vs)
    {
      hide HeapInv, TreeInv, AtpPpn, HgatpMode, And, Shr, Or;
      this.hartId, this.stackTop, this.plic, this.zicfiss, this.mem := hartId, stackTop, plic, zicfiss, mem;
      this.hgatp, this.vs := hgatp, vs;
      frames := map[stackTop - FRAME_SIZE := frame];
      sstatus, sepc := frame.sstatus, frame.sepc;
      x := seq(32, i requires 0 <= i < 32 && |frame.xreg| == 32 =>
                 if i == 0 || i == 2 then 0 else if i == 10 then hartId else if i == 11 then dtb else frame.xreg[i]);
      sscratch := stackTop;
      hypervisorLocked, zicfissLocked := false, false;
    }

    /** `hstrap_vector`: swap sp with sscratch and save the registers below it. */
    method TrapVector()
      requires GuestRuns()
      modifies this`x, this`sscratch, this`frames
      ensures Wired() && HandlerRuns(old(x[2]))
      ensures Context() == Save(old(GuestState()), old(Context())) && x[2] == stackTop - 272
    {
      hide HeapInv, TreeInv, AtpPpn, HgatpMode, And, Shr, Or;
      var sp := sscratch;
      sscratch := x[2];
      sp := sp - FRAME_SIZE;
      var slots := frames[sp].xreg;
      var saved: seq<u64> := seq(32, i requires 0 <= i < 32 && |x| == 32 && |slots| == 32 reads this =>
                                   if i == 0 || i == 2 then slots[i] else x[i]);
      frames := frames[sp := Frame(saved, sstatus, sepc)];
      x := x[2 := sp];
    }

    /** `hstrap_exit`: restore the context at the stack top and swap sp back. Spins if the lock is held. */
    method TrapExit(ghost sp: u64) returns (flow: Flow)
      requires HandlerRuns(sp)
      modifies this`x, this`sscratch, this`sstatus, this`sepc
      ensures Wired() && flow == if old(hypervisorLocked) then Deadlocked else Resumed
      ensures !old(hypervisorLocked) && !old(zicfissLocked) ==>
                GuestRuns() && GuestState() == Restore(Context(), sp, vs)
    {
      hide HeapInv, TreeInv, AtpPpn, HgatpMode, And, Shr, Or;
      if hypervisorLocked { return Deadlocked; }
      // The lock is taken to read the stack top, and released at once.
      var top := stackTop - FRAME_SIZE;
      var f := frames[top];
      sstatus := f.sstatus;
      sepc := f.sepc;
      var guestSp := sscratch;
      x := seq(32, i requires 0 <= i < 32 && |f.xreg| == 32 =>
                 if i == 0 then 0 else if i == 2 then guestSp else f.xreg[i]);
      sscratch := top + FRAME_SIZE;
      flow := Resumed;
    }

    /** Write the context back (`Context::set_xreg`, `set_sepc`, `set_sstatus`). */
    method SetContext(f: Frame)
      requires Wired() && FrameOk(f)
      modifies this`frames
      ensures Wired() && Context() == f
    {
      hide HeapInv, TreeInv, AtpPpn, HgatpMode, And, Shr, Or;
      frames := frames[stackTop - FRAME_SIZE := f];
    }

    /** `hs_forward_exception`, which takes the hypervisor lock for a moment. */
    method HsForwardException(scause: nat, stval: nat) returns (flow: Flow)
      requires Wired()
      modifies this`frames, this`vs
      ensures Wired()
      ensures old(hypervisorLocked) ==> flow == Deadlocked && Context() == old(Context()) && vs == old(vs)
      ensures !old(hypervisorLocked) ==>
                flow == Resumed && (Context(), vs) == Forward(old(Context()), old(vs), scause, stval)
    {
      hide HeapInv, TreeInv, AtpPpn, HgatpMode, And, Shr, Or;
      if hypervisorLocked { return Deadlocked; }
      var f := frames[stackTop - FRAME_SIZE];
      vs := vs.(vsepc := f.sepc, vscause := scause, vstval := stval);
      SetContext(f.(sepc := vs.vstvec));
      flow := Resumed;
    }

    /** `pseudo_vs_exception`, up to its call of the exit path. */
    method PseudoVsException(cause: nat, tval: nat) returns (flow: Flow)
      requires Wired() && sstatus == Context().sstatus
      modifies this`frames, this`vs
      ensures Wired()
      ensures old(hypervisorLocked) ==> flow == Deadlocked
      ensures !old(hypervisorLocked) ==>
                flow == Resumed && (Context(), vs) == Exception(old(Context()), old(vs), cause, tval)
    {
      hide HeapInv, TreeInv, AtpPpn, HgatpMode, And, Shr, Or;
      if hypervisorLocked { return Deadlocked; }
      var f := frames[stackTop - FRAME_SIZE];
      vs := vs.(vsepc := f.sepc, vscause := cause, vstval := tval);
      var spp := Spp(sstatus);
      var sie := vs.vsstatus.sie;
      vs := vs.(vsstatus := vs.vsstatus.(spp := spp));
      if sie { vs := vs.(vsstatus := vs.vsstatus.(spie := true)); }
      vs := vs.(vsstatus := vs.vsstatus.(sie := false));
      SetContext(f.(sstatus := Or(f.sstatus, 0x100), sepc := vs.vstvec));
      flow := Resumed;
    }

    /** `load_guest_page_fault`: the lock is held from the emulation to the end, so an error path that
        forwards the fault finds it taken. */
    method LoadGuestPageFault(address: nat, rd: nat, compressed: bool, scause: nat, stval: nat) returns (flow: Flow)
      requires Wired() && rd < 32 && !hypervisorLocked
      modifies this`frames, this`vs, this`hypervisorLocked
      ensures Wired() && (flow.Resumed? ==> !hypervisorLocked)
      ensures Result(flow)
           == Handle(EnvOf(), old(WorldNow()), old(Context()), old(vs), LoadFault(address, rd, compressed))
    {
      hide Plic.ReadSpec, HeapInv, TreeInv, AtpPpn, HgatpMode, And, Shr, Or;
      hypervisorLocked := true;
      var r := plic.EmulateRead(address);
      match r
      case Done(value) =>
        var f := frames[stackTop - FRAME_SIZE];
        SetContext(Advance(f.(xreg := f.xreg[rd := value]), compressed));
        hypervisorLocked := false;
        flow := Resumed;
      case Error(_) =>
        flow := HsForwardException(scause, stval);
      case Crash =>
        flow := Panicked;
    }

    /** `store_guest_page_fault`. */
    method StoreGuestPageFault(address: nat, rs2: nat, compressed: bool, scause: nat, stval: nat) returns (flow: Flow)
      requires Wired() && rs2 < 32 && !hypervisorLocked
      modifies this`frames, this`vs, this`hypervisorLocked, plic
      ensures Wired() && (flow.Resumed? ==> !hypervisorLocked)
      ensures Result(flow)
           == Handle(EnvOf(), old(WorldNow()), old(Context()), old(vs), StoreFault(address, rs2, compressed))
    {
      hide Plic.WriteSpec, HeapInv, TreeInv, AtpPpn, HgatpMode, And, Shr, Or;
      hypervisorLocked := true;
      var f := frames[stackTop - FRAME_SIZE];
      if f.xreg[rs2] >= 0x1_0000_0000 { return Panicked; }
      var r := plic.EmulateWrite(address, f.xreg[rs2]);
      match r
      case Done(_) =>
        SetContext(Advance(f, compressed));
        hypervisorLocked := false;
        flow := Resumed;
      case Error(_) =>
        flow := HsForwardException(scause, stval);
      case Crash =>
        flow := Panicked;
    }

    /** `illegal_instruction` on a shadow-stack instruction. Diverging exits force both locks open. */
    method IllegalInstruction(inst: SS.Inst, compressed: bool) returns (flow: Flow)
      requires Wired() && SS.RegsOk(inst) && !hypervisorLocked && !zicfissLocked && sstatus == Context().sstatus
      modifies this`frames, this`vs, this`hypervisorLocked, this`zicfissLocked, zicfiss
      ensures Wired() && (flow.Resumed? ==> !hypervisorLocked && !zicfissLocked)
      ensures Result(flow)
           == Handle(EnvOf(), old(WorldNow()), old(Context()), old(vs), ShadowStackInst(inst, compressed))
    {
      hide SS.Step, HeapInv, TreeInv, AtpPpn, HgatpMode, And, Shr, Or;
      zicfissLocked := true;
      var f := frames[stackTop - FRAME_SIZE];
      var effect, xreg := zicfiss.Instruction(mem, hgatp, vs.vsatp, f.sstatus, inst, f.xreg);
      match effect
      case Stuck =>
        flow := Panicked;
      case Raised(cause, tval) =>
        hypervisorLocked, zicfissLocked := false, false;
        flow := PseudoVsException(cause, tval);
      case Retired =>
        SetContext(Advance(f.(xreg := xreg), compressed));
        zicfissLocked := false;
        flow := Resumed;
    }

    /** `illegal_instruction` on a CSR instruction for ssp (`Zicfiss::csr`). */
    method SspCsrInstruction(op: CsrOp, rd: nat, operand: CsrOperand, compressed: bool) returns (flow: Flow)
      requires Wired() && CauseOk(SspCsr(op, rd, operand, compressed)) && !hypervisorLocked && !zicfissLocked
      modifies this`frames, this`hypervisorLocked, this`zicfissLocked, zicfiss`ssp
      ensures Wired() && flow.Resumed? && !hypervisorLocked && !zicfissLocked
      ensures Result(flow)
           == Handle(EnvOf(), old(WorldNow()), old(Context()), old(vs), SspCsr(op, rd, operand, compressed))
    {
      hide HeapInv, TreeInv, AtpPpn, HgatpMode, And, Shr, Or;
      zicfissLocked, hypervisorLocked := true, true;
      var f := frames[stackTop - FRAME_SIZE];
      var value := Operand(f, operand);
      f := f.(xreg := f.xreg[rd := zicfiss.ssp]);
      zicfiss.ssp := CsrUpdate(op, zicfiss.ssp, value);
      zicfissLocked, hypervisorLocked := false, false;
      SetContext(Advance(f, compressed));
      flow := Resumed;
    }

    /** The environment call from VS mode; `ret` is what the SBI handler returns, if it knows the call. */
    method EcallFromVsMode(ret: Option<(u64, u64)>) returns (flow: Flow)
      requires Wired() && !hypervisorLocked
      modifies this`frames
      ensures Wired()
      ensures Result(flow) == Handle(EnvOf(), old(WorldNow()), old(Context()), old(vs), Ecall(ret))
    {
      hide HeapInv, TreeInv, AtpPpn, HgatpMode, And, Shr, Or;
      var f := frames[stackTop - FRAME_SIZE];
      match ret
      case None => flow := Panicked;
      case Some(r) =>
        SetContext(Advance(f.(xreg := f.xreg[10 := r.0][11 := r.1]), false));
        flow := Resumed;
    }

    /** `trap_interrupt` and `trap_exception`, without the exit path. */
    method Dispatch(c: Cause, scause: nat, stval: nat) returns (flow: Flow)
      requires Wired() && CauseOk(c) && !hypervisorLocked && !zicfissLocked && sstatus == Context().sstatus
      modifies this`frames, this`vs, this`hypervisorLocked, this`zicfissLocked, plic, zicfiss
      ensures Wired() && (flow.Resumed? ==> !hypervisorLocked && !zicfissLocked)
      ensures Result(flow) == Handle(EnvOf(), old(WorldNow()), old(Context()), old(vs), c)
    {
      hide HeapInv, TreeInv, AtpPpn, HgatpMode, And, Shr, Or, SS.Step, SS.OpOf, Plic.ReadSpec, Plic.WriteSpec,
           CsrUpdate;
      match c
      case SoftInterrupt =>
        vs := vs.(ssip := true);
        flow := Resumed;
      case TimerInterrupt =>
        vs := vs.(stip := true);
        flow := Resumed;
      case ExternalInterrupt(irq) =>
        plic.DeliverExternal(hartId, irq);
        flow := Resumed;
      case ShadowStackInst(inst, compressed) => flow := IllegalInstruction(inst, compressed);
      case SspCsr(op, rd, operand, compressed) => flow := SspCsrInstruction(op, rd, operand, compressed);
      case Ecall(ret) => flow := EcallFromVsMode(ret);
      case LoadFault(address, rd, compressed) => flow := LoadGuestPageFault(address, rd, compressed, scause, stval);
      case StoreFault(address, rs2, compressed) => flow := StoreGuestPageFault(address, rs2, compressed, scause, stval);
      case Other(cause, tval) => flow := HsForwardException(cause, tval);
      case Unsupported => flow := Panicked;
    }

    /** A whole trap. Every trap that resumes leaves the hart as it must be for the next one: sscratch at
        the stack top and both locks free; and it does to the guest and the devices what `Trap` says. */
    method HandleTrap(c: Cause, scause: nat, stval: nat) returns (flow: Flow)
      requires GuestRuns() && CauseOk(c)
      modifies this, plic, zicfiss
      ensures Wired()
      ensures var t := Trap(EnvOf(), old(WorldNow()), old(Context()), old(GuestState()), c);
              && flow == t.flow && WorldNow() == t.world
              && (flow.Resumed? ==> GuestRuns() && GuestState() == t.guest && Context() == t.frame)
    {
      hide HeapInv, TreeInv, AtpPpn, HgatpMode, And, Shr, Or, Handle, Restore;
      ghost var sp := x[2];
      TrapVector();
      flow := Dispatch(c, scause, stval);
      if flow.Resumed? {
        flow := TrapExit(sp);
      }
    }

    /** The guest executes up to its next trap: its own state is then arbitrary, its memory is changed by
        arbitrary stores, and nothing else has changed. */
    method GuestExecutes(guest: Guest, stores: map<nat, nat>)
      requires GuestRuns() && GuestOk(guest)
      modifies this`x, this`sepc, this`sstatus, this`vs, zicfiss`words
      ensures GuestRuns() && GuestState() == guest && Context() == old(Context())
      ensures WorldNow() == Executes(old(WorldNow()), stores)
    {
      hide HeapInv, TreeInv, AtpPpn, HgatpMode;
      zicfiss.words := SS.Patch(zicfiss.words, stores);
      x, sepc, sstatus, vs := guest.x, guest.pc, guest.sstatus, guest.vs;
    }

    /** Any run of guest execution and traps, from guest entry on. */
    method RunTraps(visits: seq<Visit>) returns (flow: Flow)
      requires GuestRuns() && VisitsOk(visits)
      modifies this, plic, zicfiss
      ensures Wired()
      ensures var r := TrapRun(EnvOf(), old(WorldNow()), old(Context()), visits);
              flow == r.2 && WorldNow() == r.0 && (flow.Resumed? ==> GuestRuns() && Context() == r.1)
    {
      hide HeapInv, TreeInv, AtpPpn, HgatpMode, Trap;
      flow := Resumed;
      var i := 0;
      while i < |visits| && flow.Resumed?
        invariant 0 <= i <= |visits| && Wired()
        invariant flow.Resumed? ==> GuestRuns()
        invariant VisitsOk(visits[..i])
        invariant var r := TrapRun(EnvOf(), old(WorldNow()), old(Context()), visits[..i]);
                  flow == r.2 && WorldNow() == r.0 && (flow.Resumed? ==> Context() == r.1)
      {
        GuestExecutes(visits[i].guest, visits[i].stores);
        flow := HandleTrap(visits[i].cause, 0, 0);
        assert visits[..i + 1][..i] == visits[..i];
        i := i + 1;
      }
      RunStopped(EnvOf(), old(WorldNow()), old(Context()), visits, i);
    }
  }

  /** A run that has stopped stays stopped. */
  lemma {:induction false} RunStopped(env: Env, w: World, stale: Frame, visits: seq<Visit>, i: nat)
    requires WorldOk(env, w) && FrameOk(stale) && VisitsOk(visits) && i <= |visits|
    requires i < |visits| ==> !TrapRun(env, w, stale, visits[..i]).2.Resumed?
    ensures TrapRun(env, w, stale, visits) == TrapRun(env, w, stale, visits[..i])
  {
    hide Trap;
    if i == |visits| {
      assert visits[..i] == visits;
    } else {
      var init := visits[..|visits| - 1];
      assert init[..i] == visits[..i];
      if i == |visits| - 1 { assert init == visits[..i]; }
      RunStopped(env, w, stale, init, i);
    }
  }
}
