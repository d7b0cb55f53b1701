/** Traps from the guest as functions: what the handlers do to the saved context, the virtual CSRs and
    the emulated devices, and what a whole trap does to the guest
    (src/trap/hypervisor_supervisor and src/emulate_extension.rs). */
module TrapSpec {
  import opened Bits
  import opened GStageTree
  import opened TwoStage
  import SS = ShadowStack
  import Plic

  /** `ContextData`: the guest context on the hypervisor stack. */
  datatype Frame = Frame(xreg: seq<u64>, sstatus: nat, sepc: nat)

  /** The bits of vsstatus that a trap touches. */
  datatype VsStatus = VsStatus(sie: bool, spie: bool, spp: bool)

  /** The guest's supervisor CSRs; `ssip` and `stip` are the software and timer bits it sees pending. */
  datatype VsCsrs = VsCsrs(vsepc: nat, vscause: nat, vstval: nat, vstvec: nat, vsstatus: VsStatus, vsatp: nat,
                           ssip: bool, stip: bool)

  datatype CsrOp = CsrWrite | CsrSet | CsrClear

  /** Why the guest trapped, with the decoded instruction where the handler needs it. `compressed` is
      the length bit of the instruction, or of htinst. */
  datatype Cause =
    | SoftInterrupt
    | TimerInterrupt
    | ExternalInterrupt(irq: u32)
    | ShadowStackInst(inst: SS.Inst, compressed: bool)
    | SspCsr(op: CsrOp, rd: nat, operand: CsrOperand, compressed: bool)
    | Ecall(ret: Option<(u64, u64)>)
    | LoadFault(address: nat, rd: nat, compressed: bool)
    | StoreFault(address: nat, rs2: nat, compressed: bool)
    | Other(scause: nat, stval: nat)
    | Unsupported

  datatype CsrOperand = Register(rs1: nat) | Immediate(value: u64)

  /** The handler returns to the guest, spins on a lock it already holds, or panics. */
  datatype Flow = Resumed | Deadlocked | Panicked

  /** What stays fixed: the hart, the PLIC's address, and the G-stage. */
  datatype Env = Env(hartId: nat, plicBase: nat, g: GStage)

  /** Emulated devices and extension. */
  datatype World = World(plic: Plic.State, stack: SS.Stack, henvSse: bool, senvSse: bool)

  datatype Handled = Handled(world: World, frame: Frame, vs: VsCsrs, flow: Flow)

  predicate CauseOk(c: Cause) {
    match c
    case ShadowStackInst(inst, _) => SS.RegsOk(inst)
    case SspCsr(_, rd, operand, _) => rd < 32 && (operand.Register? ==> operand.rs1 < 32)
    case LoadFault(_, rd, _) => rd < 32
    case StoreFault(_, rs2, _) => rs2 < 32
    case _ => true
  }

  predicate WorldOk(env: Env, w: World) {
    env.hartId < 8 && Plic.StateOk(w.plic) && w.stack.ssp < WORD
  }

  predicate Spp(sstatus: nat) {
    And(Shr(sstatus, 8), 0x1) != 0
  }

  function Enabled(w: World, sstatus: nat): bool {
    if Spp(sstatus) then w.henvSse else w.senvSse
  }

  function Length(compressed: bool): nat {
    if compressed then 2 else 4
  }

  function Advance(f: Frame, compressed: bool): Frame {
    f.(sepc := f.sepc + Length(compressed))
  }

  /** `pseudo_vs_exception`. SPIE is only ever set, never cleared. */
  function Exception(f: Frame, vs: VsCsrs, cause: nat, tval: nat): (Frame, VsCsrs) {
    (f.(sstatus := Or(f.sstatus, 0x100), sepc := vs.vstvec),
     vs.(vsepc := f.sepc, vscause := cause, vstval := tval,
         vsstatus := VsStatus(false, vs.vsstatus.spie || vs.vsstatus.sie, Spp(f.sstatus))))
  }

  /** `hs_forward_exception`. */
  function Forward(f: Frame, vs: VsCsrs, scause: nat, stval: nat): (Frame, VsCsrs) {
    (f.(sepc := vs.vstvec), vs.(vsepc := f.sepc, vscause := scause, vstval := stval))
  }

  /** `EmulatedCsr::write`, `set` and `clear`. */
  function CsrUpdate(op: CsrOp, csr: u64, operand: u64): u64 {
    match op
    case CsrWrite => operand
    case CsrSet => Pow2Table(); OrBelow(csr, operand, 64); Or(csr, operand)
    case CsrClear => AndAtMost(csr, Not(operand)); And(csr, Not(operand))
  }

  predicate FrameOk(f: Frame) {
    |f.xreg| == 32
  }

  function Operand(f: Frame, operand: CsrOperand): (r: nat)
    requires FrameOk(f) && (operand.Register? ==> operand.rs1 < 32)
    ensures r < WORD
  {
    match operand
    case Register(rs1) => f.xreg[rs1]
    case Immediate(value) => value
  }

  /** The Zicfiss branch of `illegal_instruction`. */
  function HandleShadowStack(env: Env, w: World, f: Frame, vs: VsCsrs, inst: SS.Inst, compressed: bool): Handled
    requires WorldOk(env, w) && FrameOk(f) && SS.RegsOk(inst)
  {
    match SS.OpOf(inst, f.xreg)
    case Some(op) =>
      if !Enabled(w, f.sstatus) then Handled(w, Advance(f, compressed), vs, Resumed)
      else
        var (stack, effect) := SS.Step(env.g, vs.vsatp, w.stack, op);
        var w' := w.(stack := stack);
        (match effect
         case Retired => Handled(w', Advance(f, compressed), vs, Resumed)
         case Raised(cause, tval) =>
           var (f', vs') := Exception(f, vs, cause, tval);
           Handled(w', f', vs', Resumed)
         case Stuck => Handled(w', f, vs, Panicked))
    case None =>
      if inst.opc.SSRDP? then
        var f' := f.(xreg := f.xreg[inst.rd := if Enabled(w, f.sstatus) then w.stack.ssp else 0]);
        Handled(w, Advance(f', compressed), vs, Resumed)
      else Handled(w, f, vs, Panicked)
  }

  /** `trap_exception` and `trap_interrupt`. */
  function Handle(env: Env, w: World, f: Frame, vs: VsCsrs, c: Cause): Handled
    requires WorldOk(env, w) && FrameOk(f) && CauseOk(c)
  {
    match c
    case SoftInterrupt => Handled(w, f, vs.(ssip := true), Resumed)
    case TimerInterrupt => Handled(w, f, vs.(stip := true), Resumed)
    case ExternalInterrupt(irq) =>
      Handled(w.(plic := Plic.Deliver(w.plic, 2 * env.hartId + 1, irq)), f, vs, Resumed)
    case ShadowStackInst(inst, compressed) => HandleShadowStack(env, w, f, vs, inst, compressed)
    case SspCsr(op, rd, operand, compressed) =>
      var f' := f.(xreg := f.xreg[rd := w.stack.ssp]);
      var ssp := CsrUpdate(op, w.stack.ssp, Operand(f, operand));
      Handled(w.(stack := w.stack.(ssp := ssp)), Advance(f', compressed), vs, Resumed)
    case Ecall(ret) =>
      (match ret
       case Some((error, value)) =>
         Handled(w, Advance(f.(xreg := f.xreg[10 := error][11 := value]), false), vs, Resumed)
       case None => Handled(w, f, vs, Panicked))
    case LoadFault(address, rd, compressed) =>
      (match Plic.ReadSpec(env.plicBase, w.plic, address)
       case Done(value) => Handled(w, Advance(f.(xreg := f.xreg[rd := value]), compressed), vs, Resumed)
       case Error(_) => Handled(w, f, vs, Deadlocked)
       case Crash => Handled(w, f, vs, Panicked))
    case StoreFault(address, rs2, compressed) =>
      if f.xreg[rs2] >= 0x1_0000_0000 then Handled(w, f, vs, Panicked)
      else
        var (plic, r) := Plic.WriteSpec(env.plicBase, w.plic, address, f.xreg[rs2]);
        (match r
         case Done(_) => Handled(w.(plic := plic), Advance(f, compressed), vs, Resumed)
         case Error(_) => Handled(w.(plic := plic), f, vs, Deadlocked)
         case Crash => Handled(w.(plic := plic), f, vs, Panicked))
    case Other(scause, stval) =>
      var (f', vs') := Forward(f, vs, scause, stval);
      Handled(w, f', vs', Resumed)
    case Unsupported => Handled(w, f, vs, Panicked)
  }

  // A whole trap, as the guest sees it.

  /** The guest's registers, program counter and status, and its virtual CSRs. */
  datatype Guest = Guest(x: seq<u64>, pc: nat, sstatus: nat, vs: VsCsrs)

  predicate GuestOk(guest: Guest) {
    |guest.x| == 32 && guest.x[0] == 0
  }

  /** Trap entry saves x1 and x3 to x31; slots 0 and 2 keep what they held. */
  function Save(guest: Guest, stale: Frame): (f: Frame)
    requires GuestOk(guest) && FrameOk(stale)
    ensures FrameOk(f)
  {
    Frame(seq(32, i requires 0 <= i < 32 => if i == 0 || i == 2 then stale.xreg[i] else guest.x[i]),
          guest.sstatus, guest.pc)
  }

  /** Trap exit restores x1 and x3 to x31 from the frame, and sp from sscratch. */
  function Restore(f: Frame, sp: u64, vs: VsCsrs): Guest
    requires FrameOk(f)
  {
    Guest(seq(32, i requires 0 <= i < 32 => if i == 0 then 0 else if i == 2 then sp else f.xreg[i]),
          f.sepc, f.sstatus, vs)
  }
}
