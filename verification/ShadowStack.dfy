/** The emulated shadow stack (src/emulate_extension/zicfiss.rs): `ssp` and guest memory reached through
    both translation stages. */
module ShadowStack {
  import opened Bits
  import opened PageTable
  import opened GStageTree
  import opened Csrs
  import opened Sv39x4
  import opened TwoStage

  const SOFTWARE_CHECK_EXCEPTION: nat := 18
  const STORE_AMO_PAGE_FAULT: nat := 15
  const SHADOW_STACK_FAULT: nat := 3

  /** `ssp` and the guest's memory. */
  datatype Stack = Stack(ssp: nat, words: Words)

  /** What an emulated instruction does to the guest: it retires, raises an exception in VS mode, or
      stops the hypervisor: a panic, or a wild read of the G-stage walker. */
  datatype Effect = Retired | Raised(cause: nat, tval: nat) | Stuck

  datatype Op = Push(value: nat) | PopCheck(expected: nat)

  /** Where `ssp_hp_ptr` points. */
  datatype Slot = Ptr(hpa: nat) | Fault | NoPtr

  function Store(words: Words, address: nat, value: nat): Words {
    a => if a == address then value else words(a)
  }

  /** Any stores at once. */
  function Patch(words: Words, stores: map<nat, nat>): Words {
    a => if a in stores then stores[a] else words(a)
  }

  function SlotAt(g: GStage, words: Words, vsatp: nat, gva: nat): Slot {
    match VsTranslate(g, words, vsatp, gva)
    case Ok(gpa) => (match Host(g, gpa) case Some(hpa) => Ptr(hpa) case None => NoPtr)
    case Err => Fault
    case _ => NoPtr
  }

  /** Wrapping arithmetic on `ssp`. */
  function Down(ssp: nat): nat
    requires ssp < WORD
  {
    if ssp >= 8 then ssp - 8 else ssp + WORD - 8
  }

  function Up(ssp: nat): nat
    requires ssp < WORD
  {
    if ssp + 8 < WORD then ssp + 8 else ssp + 8 - WORD
  }

  /** One enabled instruction. `ssp` moves before the store is attempted and before the check. */
  function Step(g: GStage, vsatp: nat, s: Stack, op: Op): (r: (Stack, Effect))
    requires s.ssp < WORD
    ensures r.0.ssp < WORD
  {
    match op
    case Push(value) =>
      (match SlotAt(g, s.words, vsatp, Down(s.ssp))
       case Ptr(hpa) => (Stack(Down(s.ssp), Store(s.words, hpa, value)), Retired)
       case Fault => (Stack(Down(s.ssp), s.words), Raised(STORE_AMO_PAGE_FAULT, Down(s.ssp)))
       case NoPtr => (Stack(Down(s.ssp), s.words), Stuck))
    case PopCheck(expected) =>
      (match SlotAt(g, s.words, vsatp, s.ssp)
       case Ptr(hpa) =>
         (Stack(Up(s.ssp), s.words),
          if s.words(hpa) == expected then Retired else Raised(SOFTWARE_CHECK_EXCEPTION, SHADOW_STACK_FAULT))
       case Fault => (s, Raised(STORE_AMO_PAGE_FAULT, s.ssp))
       case NoPtr => (s, Stuck))
  }

  /** An instruction that raises an exception leaves `ssp` as it was if and only if it is a pop whose slot
      faults: a push that faults and a pop that finds another value have already moved it. */
  lemma RaisedMovesSsp(g: GStage, vsatp: nat, s: Stack, op: Op)
    requires s.ssp < WORD && Step(g, vsatp, s, op).1.Raised?
    ensures Step(g, vsatp, s, op).0.words == s.words
    ensures Step(g, vsatp, s, op).0.ssp == s.ssp <==> op.PopCheck? && SlotAt(g, s.words, vsatp, s.ssp).Fault?
  {
    hide SlotAt;
  }

  // The instructions.

  datatype Opcode = SSPUSH | C_SSPUSH | SSPOPCHK | C_SSPOPCHK | SSRDP | SSAMOSWAP

  datatype Inst = Inst(opc: Opcode, rd: nat, rs1: nat, rs2: nat)

  predicate RegsOk(inst: Inst) {
    inst.rd < 32 && inst.rs1 < 32 && inst.rs2 < 32
  }

  /** The stack operation of an instruction, given the saved registers. */
  function OpOf(inst: Inst, xreg: seq<nat>): Option<Op>
    requires RegsOk(inst) && |xreg| == 32
  {
    match inst.opc
    case SSPUSH => Some(Push(xreg[inst.rs2]))
    case C_SSPUSH => Some(Push(xreg[inst.rd]))
    case SSPOPCHK => Some(PopCheck(xreg[inst.rs1]))
    case C_SSPOPCHK => Some(PopCheck(xreg[inst.rd]))
    case _ => None
  }

  class Zicfiss {
    var ssp: nat
    var henvSse: bool
    var senvSse: bool
    /** Guest memory, as 64-bit words of host memory. */
    var words: Words

    ghost function State(): Stack
      reads this
    {
      Stack(ssp, words)
    }

    constructor (words: Words)
      ensures ssp == 0 && !henvSse && !senvSse && this.words == words
    {
      ssp, henvSse, senvSse := 0, false, false;
      this.words := words;
    }

    /** `is_ss_enable`: SSE of senvcfg for VU mode, of henvcfg for VS mode, by `sstatus.SPP`. */
    function IsSsEnable(sstatus: nat): bool
      reads this
    {
      if And(Shr(sstatus, 8), 0x1) == 0 then senvSse else henvSse
    }

    method SspHpPtr(mem: HostMemory, hgatp: nat, vsatp: nat) returns (slot: Slot)
      requires mem.Valid() && AtpPpn(hgatp) * PAGE_SIZE == mem.root && HgatpMode(hgatp) == SV39X4
      ensures slot == SlotAt(GStage(mem.root, mem.tables), words, vsatp, ssp)
    {
      hide VsTranslate, GTranslate, AtpPpn, HgatpMode;
      var w := VsStageTransAddr(mem, words, hgatp, vsatp, ssp);
      match w
      case Ok(gpa) =>
        var t := mem.TransAddr(hgatp, gpa);
        slot := if t.Address? then Ptr(t.address) else NoPtr;
      case Err => slot := Fault;
      case _ => slot := NoPtr;
    }

    method SsPush(mem: HostMemory, hgatp: nat, vsatp: nat, value: nat) returns (effect: Effect)
      requires mem.Valid() && AtpPpn(hgatp) * PAGE_SIZE == mem.root && HgatpMode(hgatp) == SV39X4 && ssp < WORD
      modifies this`ssp, this`words
      ensures (State(), effect) == Step(GStage(mem.root, mem.tables), vsatp, old(State()), Push(value))
    {
      hide SlotAt, AtpPpn, HgatpMode;
      ssp := Down(ssp);
      var slot := SspHpPtr(mem, hgatp, vsatp);
      match slot
      case Ptr(hpa) =>
        words := Store(words, hpa, value);
        effect := Retired;
      case Fault => effect := Raised(STORE_AMO_PAGE_FAULT, ssp);
      case NoPtr => effect := Stuck;
    }

    method SsPop(mem: HostMemory, hgatp: nat, vsatp: nat) returns (slot: Slot, value: nat)
      requires mem.Valid() && AtpPpn(hgatp) * PAGE_SIZE == mem.root && HgatpMode(hgatp) == SV39X4 && ssp < WORD
      modifies this`ssp
      ensures slot == old(SlotAt(GStage(mem.root, mem.tables), words, vsatp, ssp))
      ensures slot.Ptr? ==> value == words(slot.hpa) && ssp == Up(old(ssp))
      ensures !slot.Ptr? ==> ssp == old(ssp)
    {
      hide SlotAt, AtpPpn, HgatpMode;
      slot := SspHpPtr(mem, hgatp, vsatp);
      value := 0;
      if slot.Ptr? {
        value := words(slot.hpa);
        ssp := Up(ssp);
      }
    }

    /** The check of SSPOPCHK and C.SSPOPCHK. */
    method PopChecked(mem: HostMemory, hgatp: nat, vsatp: nat, expected: nat) returns (effect: Effect)
      requires mem.Valid() && AtpPpn(hgatp) * PAGE_SIZE == mem.root && HgatpMode(hgatp) == SV39X4 && ssp < WORD
      modifies this`ssp
      ensures (State(), effect) == Step(GStage(mem.root, mem.tables), vsatp, old(State()), PopCheck(expected))
    {
      hide SlotAt, AtpPpn, HgatpMode;
      var slot, value := SsPop(mem, hgatp, vsatp);
      match slot
      case Ptr(_) =>
        effect := if value != expected then Raised(SOFTWARE_CHECK_EXCEPTION, SHADOW_STACK_FAULT) else Retired;
      case Fault => effect := Raised(STORE_AMO_PAGE_FAULT, ssp);
      case NoPtr => effect := Stuck;
    }

    /** `instruction`: the stack step of an enabled push or pop, nothing for a disabled one, and the
        pointer or zero into `rd` for SSRDP. */
    method Instruction(mem: HostMemory, hgatp: nat, vsatp: nat, sstatus: nat, inst: Inst, xreg: seq<u64>)
        returns (effect: Effect, xreg': seq<u64>)
      requires mem.Valid() && AtpPpn(hgatp) * PAGE_SIZE == mem.root && HgatpMode(hgatp) == SV39X4 && ssp < WORD
      requires RegsOk(inst) && |xreg| == 32
      modifies this`ssp, this`words
      ensures OpOf(inst, xreg).Some? && IsSsEnable(sstatus) ==>
                && (State(), effect) == Step(GStage(mem.root, mem.tables), vsatp, old(State()), OpOf(inst, xreg).value)
                && xreg' == xreg
      ensures OpOf(inst, xreg).Some? && !IsSsEnable(sstatus) ==>
                State() == old(State()) && effect.Retired? && xreg' == xreg
      ensures inst.opc.SSRDP? ==> State() == old(State()) && effect.Retired?
                                  && xreg' == xreg[inst.rd := if IsSsEnable(sstatus) then ssp else 0]
      ensures inst.opc.SSAMOSWAP? ==> State() == old(State()) && effect.Stuck? && xreg' == xreg
    {
      hide Step, AtpPpn, HgatpMode, And, Shr;
      xreg' := xreg;
      effect := Retired;
      match inst.opc
      case SSPUSH =>
        if IsSsEnable(sstatus) { effect := SsPush(mem, hgatp, vsatp, xreg[inst.rs2]); }
      case C_SSPUSH =>
        if IsSsEnable(sstatus) { effect := SsPush(mem, hgatp, vsatp, xreg[inst.rd]); }
      case SSPOPCHK =>
        if IsSsEnable(sstatus) { effect := PopChecked(mem, hgatp, vsatp, xreg[inst.rs1]); }
      case C_SSPOPCHK =>
        if IsSsEnable(sstatus) { effect := PopChecked(mem, hgatp, vsatp, xreg[inst.rd]); }
      case SSRDP =>
        xreg' := if IsSsEnable(sstatus) then xreg[inst.rd := ssp] else xreg[inst.rd := 0];
      case SSAMOSWAP =>
        effect := Stuck;
    }
  }
}
