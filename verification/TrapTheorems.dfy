/** What every trap, and every run of traps, keeps. */
module TrapTheorems {
  import opened Bits
  import opened GStageTree
  import opened TwoStage
  import SS = ShadowStack
  import Plic
  import PlicRuns
  import opened TrapSpec

  /** One trap of a guest: entry, handler, exit. `stale` is the frame left by the previous trap. */
  datatype Trapped = Trapped(world: World, guest: Guest, frame: Frame, flow: Flow)

  function Trap(env: Env, w: World, stale: Frame, guest: Guest, c: Cause): (t: Trapped)
    requires WorldOk(env, w) && FrameOk(stale) && GuestOk(guest) && CauseOk(c)
    ensures GuestOk(t.guest) && FrameOk(t.frame) && WorldOk(env, t.world)
  {
    var h := Handle(env, w, Save(guest, stale), guest.vs, c);
    Trapped(h.world, Restore(h.frame, guest.x[2], h.vs), h.frame, h.flow)
  }

  // Program counter.

  predicate IsInterrupt(c: Cause) {
    c.SoftInterrupt? || c.TimerInterrupt? || c.ExternalInterrupt?
  }

  /** The emulated instruction raises an exception in the guest. */
  predicate Raises(env: Env, w: World, f: Frame, vs: VsCsrs, c: Cause)
    requires WorldOk(env, w) && FrameOk(f) && CauseOk(c)
  {
    && c.ShadowStackInst? && SS.OpOf(c.inst, f.xreg).Some? && Enabled(w, f.sstatus)
    && SS.Step(env.g, vs.vsatp, w.stack, SS.OpOf(c.inst, f.xreg).value).1.Raised?
  }

  /** Cause and value of the exception the guest gets. */
  function Reason(env: Env, w: World, f: Frame, vs: VsCsrs, c: Cause): (nat, nat)
    requires WorldOk(env, w) && FrameOk(f) && CauseOk(c) && (c.Other? || Raises(env, w, f, vs, c))
  {
    if c.Other? then (c.scause, c.stval)
    else
      var e := SS.Step(env.g, vs.vsatp, w.stack, SS.OpOf(c.inst, f.xreg).value).1;
      (e.cause, e.tval)
  }

  function InstLength(c: Cause): nat {
    match c
    case ShadowStackInst(_, compressed) => if compressed then 2 else 4
    case SspCsr(_, _, _, compressed) => if compressed then 2 else 4
    case LoadFault(_, _, compressed) => if compressed then 2 else 4
    case StoreFault(_, _, compressed) => if compressed then 2 else 4
    case Ecall(_) => 4
    case _ => 0
  }

  /** What the guest sees pending after an interrupt. */
  function Pended(c: Cause, vs: VsCsrs): VsCsrs {
    match c
    case SoftInterrupt => vs.(ssip := true)
    case TimerInterrupt => vs.(stip := true)
    case _ => vs
  }

  /** Exactly one of: the guest continues after the instruction, with its trap CSRs as they were; or it
      continues at its trap vector, with the old program counter in vsepc. The second happens exactly
      for forwarded exceptions and raised ones. An interrupt changes its pending bit and nothing else. */
  lemma PcExactlyOnce(env: Env, w: World, stale: Frame, guest: Guest, c: Cause)
    requires WorldOk(env, w) && FrameOk(stale) && GuestOk(guest) && CauseOk(c)
    requires Trap(env, w, stale, guest, c).flow.Resumed?
    ensures var guest', f := Trap(env, w, stale, guest, c).guest, Save(guest, stale);
            if c.Other? || Raises(env, w, f, guest.vs, c)
            then && guest'.pc == guest.vs.vstvec && guest'.vs.vsepc == guest.pc
                 && guest'.vs.vstvec == guest.vs.vstvec && guest'.vs.vsatp == guest.vs.vsatp
                 && (guest'.vs.vscause, guest'.vs.vstval) == Reason(env, w, f, guest.vs, c)
                 && (c.Other? ==> guest'.sstatus == guest.sstatus && guest'.vs.vsstatus == guest.vs.vsstatus)
            else && guest'.pc == guest.pc + InstLength(c) && guest'.sstatus == guest.sstatus
                 && guest'.vs == Pended(c, guest.vs)
                 && (c.ShadowStackInst? || c.SspCsr? || c.LoadFault? || c.StoreFault? ==>
                       guest'.pc == guest.pc + if c.compressed then 2 else 4)
                 && (c.Ecall? ==> guest'.pc == guest.pc + 4) && (IsInterrupt(c) ==> guest'.pc == guest.pc)
    ensures IsInterrupt(c) ==>
              && Trap(env, w, stale, guest, c).guest == guest.(vs := Pended(c, guest.vs))
              && Trap(env, w, stale, guest, c).world.stack == w.stack
              && (c.ExternalInterrupt? ==> Trap(env, w, stale, guest, c).world.plic.external)
              && (!c.ExternalInterrupt? ==> Trap(env, w, stale, guest, c).world == w)
  {
    hide SS.Step, SS.OpOf, Enabled, Plic.ReadSpec, Plic.WriteSpec, CsrUpdate, Or, And, Shr;
    SaveRestore(guest, stale);
  }

  lemma SaveRestore(guest: Guest, stale: Frame)
    requires FrameOk(stale) && GuestOk(guest)
    ensures Restore(Save(guest, stale), guest.x[2], guest.vs) == guest
  {
    assert Restore(Save(guest, stale), guest.x[2], guest.vs).x == guest.x;
  }

  // Registers.

  /** Registers the emulated instruction is to write. */
  function Destinations(c: Cause): set<nat> {
    match c
    case ShadowStackInst(inst, _) => if inst.opc.SSRDP? then {inst.rd} else {}
    case SspCsr(_, rd, _, _) => {rd}
    case Ecall(_) => {10, 11}
    case LoadFault(_, rd, _) => {rd}
    case _ => {}
  }

  /** A trap leaves every register but the destination as it was; sp is never written. */
  lemma RegistersKept(env: Env, w: World, stale: Frame, guest: Guest, c: Cause, i: nat)
    requires WorldOk(env, w) && FrameOk(stale) && GuestOk(guest) && CauseOk(c)
    requires i < 32 && i !in Destinations(c) - {0, 2}
    ensures Trap(env, w, stale, guest, c).guest.x[i] == guest.x[i]
  {
    hide SS.Step, Enabled, Plic.ReadSpec, Plic.WriteSpec, Plic.Deliver, CsrUpdate, Or, And, Shr;
  }

  /** Writing a register as the architecture does. */
  function Written(x: seq<u64>, rd: nat, value: u64): seq<u64>
    requires |x| == 32 && rd < 32
  {
    if rd == 0 then x else x[rd := value]
  }

  /** An emulated load delivers its value as the architecture would if and only if its destination is not
      sp (or sp already held the value). */
  lemma LoadDelivers(env: Env, w: World, stale: Frame, guest: Guest, address: nat, rd: nat, compressed: bool)
    requires WorldOk(env, w) && FrameOk(stale) && GuestOk(guest) && rd < 32
    requires Plic.ReadSpec(env.plicBase, w.plic, address).Done?
    ensures var value := Plic.ReadSpec(env.plicBase, w.plic, address).value;
            Trap(env, w, stale, guest, LoadFault(address, rd, compressed)).guest.x == Written(guest.x, rd, value)
            <==> rd != 2 || guest.x[2] == value
  {
    hide Plic.ReadSpec;
    var value := Plic.ReadSpec(env.plicBase, w.plic, address).value;
    var x' := Trap(env, w, stale, guest, LoadFault(address, rd, compressed)).guest.x;
    if rd == 2 {
      assert x'[2] == guest.x[2] && Written(guest.x, rd, value)[2] == value;
      if guest.x[2] == value { assert x' == Written(guest.x, rd, value); }
    } else {
      assert x' == Written(guest.x, rd, value);
    }
  }

  /** The PLIC emulation passes a store on to the device. */
  predicate Forwards(base: nat, address: nat) {
    && base + Plic.CONTEXT_BASE <= address <= base + Plic.CONTEXT_END
    && ((address - base) % Plic.CONTEXT_REGS_SIZE == 0 || (address - base) % Plic.CONTEXT_REGS_SIZE == 4)
  }

  /** Registers that trap entry saves. */
  predicate Saved(i: nat) {
    i != 0 && i != 2
  }

  /** An emulated store sends the guest's own register value to the device if and only if the address is
      one the emulation forwards, the value fits 32 bits, and the register is neither x0 nor sp, whose
      slots are never saved (or the stale slot happens to agree). */
  lemma StoreSends(env: Env, w: World, stale: Frame, guest: Guest, address: nat, rs2: nat, compressed: bool)
    requires WorldOk(env, w) && FrameOk(stale) && GuestOk(guest) && rs2 < 32
    ensures Trap(env, w, stale, guest, StoreFault(address, rs2, compressed)).world.plic.writes
         == w.plic.writes + [(address, guest.x[rs2])]
       <==> Forwards(env.plicBase, address) && guest.x[rs2] < 0x1_0000_0000
            && (Saved(rs2) || stale.xreg[rs2] == guest.x[rs2])
  {
    var f := Save(guest, stale);
    var t := Trap(env, w, stale, guest, StoreFault(address, rs2, compressed));
    if Forwards(env.plicBase, address) && f.xreg[rs2] < 0x1_0000_0000 {
      assert t.world.plic.writes == w.plic.writes + [(address, f.xreg[rs2])];
      var k := |w.plic.writes|;
      assert t.world.plic.writes[k] == (address, f.xreg[rs2]);
      assert (w.plic.writes + [(address, guest.x[rs2])])[k] == (address, guest.x[rs2]);
    } else {
      assert t.world.plic.writes == w.plic.writes;
      assert |w.plic.writes + [(address, guest.x[rs2])]| == |w.plic.writes| + 1;
    }
  }

  /** vsstatus after a raised exception is the architecture's (SPIE takes SIE, SIE is cleared, SPP takes
      the privilege) if and only if SPIE was not set while SIE was clear. */
  lemma RaisedStatus(f: Frame, vs: VsCsrs, cause: nat, tval: nat)
    ensures Exception(f, vs, cause, tval).1.vsstatus == VsStatus(false, vs.vsstatus.sie, Spp(f.sstatus))
       <==> !(vs.vsstatus.spie && !vs.vsstatus.sie)
  {
  }

  /** A forwarded exception leaves the state of the architecture (vsstatus as after a raised one, and the
      handler in supervisor mode) if and only if the guest was in supervisor mode with vsstatus already so:
      the source writes neither. From user mode the handler is entered in user mode. */
  lemma ForwardedStatus(env: Env, w: World, stale: Frame, guest: Guest, scause: nat, stval: nat)
    requires WorldOk(env, w) && FrameOk(stale) && GuestOk(guest)
    ensures var t := Trap(env, w, stale, guest, Other(scause, stval));
            && t.flow.Resumed? && t.guest.pc == guest.vs.vstvec
            && (&& t.guest.vs.vsstatus == VsStatus(false, guest.vs.vsstatus.sie, Spp(guest.sstatus))
                && Spp(t.guest.sstatus)
                <==> Spp(guest.sstatus) && guest.vs.vsstatus == VsStatus(false, false, true))
            && (!Spp(guest.sstatus) ==> !Spp(t.guest.sstatus))
  {
    hide And, Shr;
  }

  /** After a raised exception the guest runs its handler in supervisor mode, and no other bit of sstatus
      has changed. */
  lemma RaisedToSupervisor(f: Frame, vs: VsCsrs, cause: nat, tval: nat, i: nat)
    ensures Bit(Exception(f, vs, cause, tval).0.sstatus, i) <==> Bit(f.sstatus, i) || i == 8
    ensures Spp(f.sstatus) <==> Bit(f.sstatus, 8)
  {
    hide Or, And;
    OrBit(f.sstatus, 0x100, i);
    Pow2Table();
    PowerBit(8, i);
    BitOfQuotient(f.sstatus, 8);
    AndMask(f.sstatus / 0x100, 1);
  }

  /** The emulated CSR instructions on ssp, bit by bit. */
  lemma CsrUpdateBits(op: CsrOp, csr: u64, operand: u64, i: nat)
    requires i < 64
    ensures Bit(CsrUpdate(op, csr, operand), i)
       <==> match op
            case CsrWrite => Bit(operand, i)
            case CsrSet => Bit(csr, i) || Bit(operand, i)
            case CsrClear => Bit(csr, i) && !Bit(operand, i)
  {
    hide Or, And, Bit;
    Pow2Table();
    OrBit(csr, operand, i);
    AndBit(csr, Not(operand), i);
    ComplementBit(operand, 64, i);
  }

  /** A CSR access to ssp hands the guest the old value, unless its destination is x0 or sp. It updates
      ssp from the guest's own operand if and only if the operand register is neither x0 nor sp (or the
      slot left by an earlier trap happens to give the same update). */
  lemma CsrAccess(env: Env, w: World, stale: Frame, guest: Guest, op: CsrOp, rd: nat, rs1: nat, compressed: bool)
    requires WorldOk(env, w) && FrameOk(stale) && GuestOk(guest) && rd < 32 && rs1 < 32
    ensures var t := Trap(env, w, stale, guest, SspCsr(op, rd, Register(rs1), compressed));
            && (t.guest.x == Written(guest.x, rd, w.stack.ssp) <==> rd != 2 || guest.x[2] == w.stack.ssp)
            && (t.world == w.(stack := w.stack.(ssp := CsrUpdate(op, w.stack.ssp, guest.x[rs1])))
                <==> || Saved(rs1)
                     || CsrUpdate(op, w.stack.ssp, stale.xreg[rs1]) == CsrUpdate(op, w.stack.ssp, guest.x[rs1]))
  {
    hide CsrUpdate;
    var x' := Trap(env, w, stale, guest, SspCsr(op, rd, Register(rs1), compressed)).guest.x;
    var ssp := w.stack.ssp;
    if rd == 2 {
      assert x'[2] == guest.x[2] && Written(guest.x, rd, ssp)[2] == ssp;
      if guest.x[2] == ssp { assert x' == Written(guest.x, rd, ssp); }
    } else {
      assert x' == Written(guest.x, rd, ssp);
    }
  }

  /** An environment call returns error and value in a0 and a1. */
  lemma EcallReturns(env: Env, w: World, stale: Frame, guest: Guest, error: u64, value: u64)
    requires WorldOk(env, w) && FrameOk(stale) && GuestOk(guest)
    ensures var t := Trap(env, w, stale, guest, Ecall(Some((error, value))));
            t.flow.Resumed? && t.world == w && t.guest.x == guest.x[10 := error][11 := value]
  {
    assert Trap(env, w, stale, guest, Ecall(Some((error, value)))).guest.x == guest.x[10 := error][11 := value];
  }

  // Locks.

  /** The PLIC emulation reports an error for this access: an address that a caller can check. */
  predicate PlicRejects(base: nat, c: Cause) {
    match c
    case LoadFault(address, _, _) =>
      && address >= base
      && (address - base < Plic.CONTEXT_BASE
          || address - base >= Plic.CONTEXT_BASE + Plic.CONTEXT_REGS_SIZE * (Plic.MAX_CONTEXT_NUM + 1))
    case StoreFault(address, _, _) =>
      && address >= base
      && (address - base < Plic.CONTEXT_BASE || address - base > Plic.CONTEXT_END
          || ((address - base) % Plic.CONTEXT_REGS_SIZE != 0 && (address - base) % Plic.CONTEXT_REGS_SIZE != 4))
    case _ => false
  }

  /** A trap deadlocks if and only if it is a page fault the PLIC emulation rejects (for a store, of a
      value that fits 32 bits): the handler then forwards the fault while holding the lock. */
  lemma DeadlockExactly(env: Env, w: World, stale: Frame, guest: Guest, c: Cause)
    requires WorldOk(env, w) && FrameOk(stale) && GuestOk(guest) && CauseOk(c)
    ensures Trap(env, w, stale, guest, c).flow.Deadlocked?
       <==> PlicRejects(env.plicBase, c) && (c.StoreFault? ==> Save(guest, stale).xreg[c.rs2] < 0x1_0000_0000)
  {
    hide SS.Step, SS.OpOf, Enabled, Plic.Deliver, CsrUpdate, Or, And, Shr;
  }

  /** A push, a checked pop or neither, and where its slot is. */
  predicate Pushes(inst: SS.Inst) {
    inst.opc.SSPUSH? || inst.opc.C_SSPUSH?
  }

  predicate Pops(inst: SS.Inst) {
    inst.opc.SSPOPCHK? || inst.opc.C_SSPOPCHK?
  }

  function SlotOfInst(inst: SS.Inst, ssp: nat): nat {
    if Pops(inst) then ssp else if ssp >= 8 then ssp - 8 else ssp + 0x1_0000_0000_0000_0000 - 8
  }

  /** Neither a place in host memory nor the `Err` that becomes a page fault of the guest. */
  predicate NoPlace(g: GStage, words: Words, vsatp: nat, gva: nat) {
    match VsTranslate(g, words, vsatp, gva)
    case Ok(gpa) => Host(g, gpa).None?
    case Err => false
    case _ => true
  }

  /** The shadow stack is enabled for the mode the guest trapped from. */
  predicate IsOn(w: World, sstatus: nat) {
    if (sstatus / 0x100) % 2 == 1 then w.henvSse else w.senvSse
  }

  lemma EnabledIsOn(w: World, sstatus: nat)
    ensures Enabled(w, sstatus) <==> IsOn(w, sstatus)
  {
    hide And;
    Pow2Table();
    AndMask(sstatus / 0x100, 1);
  }

  /** A trap stops the hypervisor if and only if: its cause or environment call is unsupported; the
      instruction is SSAMOSWAP, or a push or pop, enabled, of a slot that has no place; a load is below the
      PLIC or of its context 16; or a store is of more than 32 bits, below the PLIC, or to a claim register
      past the last context. */
  lemma PanicExactly(env: Env, w: World, stale: Frame, guest: Guest, c: Cause)
    requires WorldOk(env, w) && FrameOk(stale) && GuestOk(guest) && CauseOk(c)
    ensures Trap(env, w, stale, guest, c).flow.Panicked?
       <==> match c
            case Unsupported => true
            case Ecall(ret) => ret.None?
            case ShadowStackInst(inst, _) =>
              || inst.opc.SSAMOSWAP?
              || (&& (Pushes(inst) || Pops(inst)) && IsOn(w, guest.sstatus)
                  && NoPlace(env.g, w.stack.words, guest.vs.vsatp, SlotOfInst(inst, w.stack.ssp)))
            case LoadFault(address, _, _) =>
              address < env.plicBase || env.plicBase + 0x21_0000 <= address < env.plicBase + 0x21_1000
            case StoreFault(address, rs2, _) =>
              || (if Saved(rs2) then guest.x[rs2] else stale.xreg[rs2]) >= 0x1_0000_0000
              || address < env.plicBase
              || (&& env.plicBase + 0x21_0000 <= address <= env.plicBase + Plic.CONTEXT_END
                  && (address - env.plicBase) % 0x1000 == 4)
            case _ => false
  {
    hide VsTranslate, GTranslate, Enabled, Plic.Deliver, CsrUpdate, Or, And, Shr;
    EnabledIsOn(w, guest.sstatus);
    match c
    case LoadFault(address, _, _) =>
      if address >= env.plicBase { Plic.ReadCrashes(env.plicBase, w.plic, address); }
    case StoreFault(address, rs2, _) =>
      if address >= env.plicBase {
        Plic.WriteCrashes(env.plicBase, w.plic, address, Save(guest, stale).xreg[rs2]);
      }
    case _ =>
  }

  // Runs.

  /** One leg of a run: what the guest stores before its next trap, by host address, its state at that
      trap, and the cause. */
  datatype Visit = Visit(stores: map<nat, nat>, guest: Guest, cause: Cause)

  predicate VisitsOk(visits: seq<Visit>) {
    forall v <- visits :: GuestOk(v.guest) && CauseOk(v.cause)
  }

  function Executes(w: World, stores: map<nat, nat>): World {
    w.(stack := w.stack.(words := SS.Patch(w.stack.words, stores)))
  }

  /** World and frame after a run of guest execution and traps, as long as each trap resumes the guest. */
  function TrapRun(env: Env, w: World, stale: Frame, visits: seq<Visit>): (r: (World, Frame, Flow))
    requires WorldOk(env, w) && FrameOk(stale) && VisitsOk(visits)
    ensures WorldOk(env, r.0) && FrameOk(r.1)
  {
    if visits == [] then (w, stale, Resumed)
    else
      var v := visits[|visits| - 1];
      assert v in visits;
      var (w1, f1, flow) := TrapRun(env, w, stale, visits[..|visits| - 1]);
      if !flow.Resumed? then (w1, f1, flow)
      else
        var t := Trap(env, Executes(w1, v.stores), f1, v.guest, v.cause);
        (t.world, t.frame, t.flow)
  }

  lemma RunTwo(env: Env, w: World, stale: Frame, v1: Visit, v2: Visit)
    requires WorldOk(env, w) && FrameOk(stale) && VisitsOk([v1, v2])
    ensures GuestOk(v1.guest) && CauseOk(v1.cause) && GuestOk(v2.guest) && CauseOk(v2.cause)
    ensures var t1 := Trap(env, Executes(w, v1.stores), stale, v1.guest, v1.cause);
            t1.flow.Resumed? ==>
              var t2 := Trap(env, Executes(t1.world, v2.stores), t1.frame, v2.guest, v2.cause);
              TrapRun(env, w, stale, [v1, v2]) == (t2.world, t2.frame, t2.flow)
  {
    hide Trap;
    assert v1 in [v1, v2] && v2 in [v1, v2];
    assert [v1, v2][..1] == [v1] && [v1][..0] == [];
    assert TrapRun(env, w, stale, []) == (w, stale, Resumed);
    var t1 := Trap(env, Executes(w, v1.stores), stale, v1.guest, v1.cause);
    assert TrapRun(env, w, stale, [v1]) == (t1.world, t1.frame, t1.flow);
  }

  /** The slots left behind are reachable. Writing ssp (CSRRW to x0) and then reading it (CSRRS from x0)
      turns it into the union of its new and its old value: it reads back right, and is left as written
      if and only if every bit of the old value is one of the new. */
  lemma ReadAfterWriteCorrupts(env: Env, w: World, stale: Frame, v1: Visit, v2: Visit,
                                rs1: nat, rd: nat, c1: bool, c2: bool)
    requires WorldOk(env, w) && FrameOk(stale) && GuestOk(v1.guest) && GuestOk(v2.guest)
    requires rs1 < 32 && Saved(rs1) && rd < 32 && Saved(rd)
    requires v1.cause == SspCsr(CsrWrite, 0, Register(rs1), c1) && v2.cause == SspCsr(CsrSet, rd, Register(0), c2)
    ensures VisitsOk([v1, v2])
    ensures var r := TrapRun(env, w, stale, [v1, v2]);
            && r.2.Resumed? && r.1.xreg[rd] == v1.guest.x[rs1]
            && r.0.stack.ssp == Or(v1.guest.x[rs1], w.stack.ssp)
            && (r.0.stack.ssp == v1.guest.x[rs1]
                <==> BitsWithin(w.stack.ssp, v1.guest.x[rs1]))
  {
    hide Or;
    var t1 := Trap(env, Executes(w, v1.stores), stale, v1.guest, v1.cause);
    RunTwo(env, w, stale, v1, v2);
    assert t1.frame.xreg[0] == w.stack.ssp;
    OrIsLeft(v1.guest.x[rs1], w.stack.ssp);
  }

  /** A guest that loads from its claim register into x0 and then stores x0 sends the device the claim. */
  lemma StaleZeroSent(env: Env, w: World, stale: Frame, v1: Visit, v2: Visit, address: nat, c1: bool, c2: bool)
    requires WorldOk(env, w) && FrameOk(stale) && GuestOk(v1.guest) && GuestOk(v2.guest)
    requires Forwards(env.plicBase, address)
    requires address < env.plicBase + Plic.CONTEXT_BASE + Plic.MAX_CONTEXT_NUM * Plic.CONTEXT_REGS_SIZE
    requires v1.cause == LoadFault(Plic.ClaimRegister(env.plicBase, 2 * env.hartId + 1), 0, c1)
    requires v2.cause == StoreFault(address, 0, c2)
    ensures VisitsOk([v1, v2])
    ensures var r := TrapRun(env, w, stale, [v1, v2]);
            r.2.Resumed? && r.0.plic.writes == w.plic.writes + [(address, w.plic.claim[2 * env.hartId + 1])]
  {
    hide Plic.ClaimRegister;
    Plic.Mailbox(env.plicBase, w.plic, 2 * env.hartId + 1, 0);
    RunTwo(env, w, stale, v1, v2);
    var t1 := Trap(env, Executes(w, v1.stores), stale, v1.guest, v1.cause);
    assert t1.flow.Resumed? && t1.frame.xreg[0] == w.plic.claim[2 * env.hartId + 1];
  }

  /** A run in which the PLIC rejects no access never deadlocks. */
  lemma {:induction false} RunNeverDeadlocks(env: Env, w: World, stale: Frame, visits: seq<Visit>)
    requires WorldOk(env, w) && FrameOk(stale) && VisitsOk(visits)
    requires forall v <- visits :: !PlicRejects(env.plicBase, v.cause)
    ensures !TrapRun(env, w, stale, visits).2.Deadlocked?
  {
    hide Trap, PlicRejects;
    if visits != [] {
      var init, v := visits[..|visits| - 1], visits[|visits| - 1];
      assert v in visits;
      RunNeverDeadlocks(env, w, stale, init);
      var r := TrapRun(env, w, stale, init);
      DeadlockExactly(env, Executes(r.0, v.stores), r.1, v.guest, v.cause);
    }
  }

  /** The PLIC event of a trap. */
  function EventOf(f: Frame, c: Cause): PlicRuns.Event
    requires FrameOk(f) && CauseOk(c)
  {
    match c
    case ExternalInterrupt(irq) => PlicRuns.Interrupt(irq)
    case StoreFault(address, rs2, _) => PlicRuns.Store(address, f.xreg[rs2])
    case LoadFault(address, _, _) => PlicRuns.Load(address)
    case _ => PlicRuns.Load(0)
  }

  function EventsOf(env: Env, w: World, stale: Frame, visits: seq<Visit>): (events: seq<PlicRuns.Event>)
    requires WorldOk(env, w) && FrameOk(stale) && VisitsOk(visits)
    ensures |events| == |visits|
  {
    if visits == [] then []
    else
      var init, v := visits[..|visits| - 1], visits[|visits| - 1];
      assert v in visits;
      EventsOf(env, w, stale, init) + [EventOf(Save(v.guest, TrapRun(env, w, stale, init).1), v.cause)]
  }

  lemma TrapPlic(env: Env, w: World, stale: Frame, guest: Guest, c: Cause)
    requires WorldOk(env, w) && FrameOk(stale) && GuestOk(guest) && CauseOk(c)
    requires Trap(env, w, stale, guest, c).flow.Resumed?
    ensures Trap(env, w, stale, guest, c).world.plic
         == PlicRuns.Next(env.plicBase, 2 * env.hartId + 1, w.plic, EventOf(Save(guest, stale), c))
  {
    hide SS.Step, SS.OpOf, Enabled, Plic.ReadSpec, Plic.WriteSpec, CsrUpdate, Or, And, Shr;
  }

  /** Over any run of traps that all resume, the PLIC goes through the events of the run. */
  lemma {:induction false} RunPlic(env: Env, w: World, stale: Frame, visits: seq<Visit>)
    requires WorldOk(env, w) && FrameOk(stale) && VisitsOk(visits)
    requires TrapRun(env, w, stale, visits).2.Resumed?
    ensures TrapRun(env, w, stale, visits).0.plic
         == PlicRuns.After(env.plicBase, 2 * env.hartId + 1, w.plic, EventsOf(env, w, stale, visits))
  {
    hide Trap, PlicRuns.Next, EventOf, Save;
    if visits != [] {
      var init, v := visits[..|visits| - 1], visits[|visits| - 1];
      assert v in visits;
      RunPlic(env, w, stale, init);
      var r := TrapRun(env, w, stale, init);
      TrapPlic(env, Executes(r.0, v.stores), r.1, v.guest, v.cause);
      var events := EventsOf(env, w, stale, visits);
      assert events[..|events| - 1] == EventsOf(env, w, stale, init);
    }
  }

  /** End to end: after any run of traps, a guest load from its claim register puts the interrupt last
      delivered and not yet completed, or 0, into the destination register, and nothing else changes. */
  lemma ClaimLoad(env: Env, w: World, stale: Frame, visits: seq<Visit>, guest: Guest, rd: nat, compressed: bool)
    requires WorldOk(env, w) && FrameOk(stale) && VisitsOk(visits) && GuestOk(guest) && rd < 32 && rd != 2
    requires TrapRun(env, w, stale, visits).2.Resumed? && w.plic.claim[2 * env.hartId + 1] == 0
    ensures var context := 2 * env.hartId + 1;
            var r := TrapRun(env, w, stale, visits);
            var t := Trap(env, r.0, r.1, guest, LoadFault(Plic.ClaimRegister(env.plicBase, context), rd, compressed));
            var pending := PlicRuns.Pending(env.plicBase, context, EventsOf(env, w, stale, visits));
            && t.flow.Resumed? && t.world == r.0
            && t.guest == guest.(x := Written(guest.x, rd, pending), pc := guest.pc + if compressed then 2 else 4)
  {
    hide Plic.ReadSpec, Plic.ClaimRegister, PlicRuns.After, PlicRuns.Pending, EventsOf, TrapRun;
    var context := 2 * env.hartId + 1;
    var r := TrapRun(env, w, stale, visits);
    RunPlic(env, w, stale, visits);
    PlicRuns.ClaimIsPending(env.plicBase, context, w.plic, EventsOf(env, w, stale, visits));
    LoadDelivers(env, r.0, r.1, guest, Plic.ClaimRegister(env.plicBase, context), rd, compressed);
  }

  /** End to end: after any run of traps in which the guest completes each interrupt in time and with the
      number it claimed, the hardware has been sent every interrupt claimed but the one still pending. */
  lemma InterruptsAccounted(env: Env, w: World, stale: Frame, visits: seq<Visit>)
    requires WorldOk(env, w) && FrameOk(stale) && VisitsOk(visits) && TrapRun(env, w, stale, visits).2.Resumed?
    requires PlicRuns.InTime(env.plicBase, 2 * env.hartId + 1, EventsOf(env, w, stale, visits))
    requires PlicRuns.CarriesClaim(env.plicBase, 2 * env.hartId + 1, EventsOf(env, w, stale, visits))
    ensures var events, context := EventsOf(env, w, stale, visits), 2 * env.hartId + 1;
            var register := Plic.ClaimRegister(env.plicBase, context);
            PlicRuns.SentTo(register, w.plic.writes) + PlicRuns.Claimed(events)
            == PlicRuns.SentTo(register, TrapRun(env, w, stale, visits).0.plic.writes)
               + PlicRuns.One(PlicRuns.Pending(env.plicBase, context, events))
  {
    hide Plic.ClaimRegister, PlicRuns.After, PlicRuns.Pending, PlicRuns.SentTo, PlicRuns.Claimed, EventsOf, TrapRun,
         PlicRuns.InTime, PlicRuns.CarriesClaim;
    var events, context := EventsOf(env, w, stale, visits), 2 * env.hartId + 1;
    RunPlic(env, w, stale, visits);
    PlicRuns.Conservation(env.plicBase, context, w.plic, events);
    assert events[..|events|] == events && PlicRuns.Accounted(env.plicBase, context, w.plic, events[..|events|]);
  }
}
