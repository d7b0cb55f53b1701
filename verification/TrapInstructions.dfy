/** What a guest sees of each emulated instruction, read off its registers, its address space and its
    memory. */
module TrapInstructions {
  import opened Bits
  import opened GStageTree
  import opened TwoStage
  import SS = ShadowStack
  import opened TrapSpec
  import opened TrapTheorems

  /** The guest goes on after the instruction. */
  function Stepped(guest: Guest, compressed: bool): Guest {
    guest.(pc := guest.pc + if compressed then 2 else 4)
  }

  /** The guest is at its trap vector with an exception, its registers as they were. */
  predicate Excepted(guest: Guest, guest': Guest, cause: nat, tval: nat) {
    && guest'.x == guest.x && guest'.pc == guest.vs.vstvec && guest'.vs.vstvec == guest.vs.vstvec
    && guest'.vs.vsepc == guest.pc && guest'.vs.vscause == cause && guest'.vs.vstval == tval
  }

  /** SSPUSH and C.SSPUSH with the stack mapped: ssp goes down by 8, the word there becomes the register's
      value (rs2, or rd of the compressed form), and nothing else changes. */
  lemma PushTrap(env: Env, w: World, stale: Frame, guest: Guest, inst: SS.Inst, compressed: bool, r: nat, slot: nat,
                 gpa: nat, h: nat)
    requires WorldOk(env, w) && FrameOk(stale) && GuestOk(guest) && SS.RegsOk(inst) && Saved(r)
    requires (inst.opc.SSPUSH? && r == inst.rs2) || (inst.opc.C_SSPUSH? && r == inst.rd)
    requires IsOn(w, guest.sstatus) && slot < WORD && (slot + 8) % WORD == w.stack.ssp
    requires VsTranslate(env.g, w.stack.words, guest.vs.vsatp, slot) == Ok(gpa) && Host(env.g, gpa) == Some(h)
    ensures var t := Trap(env, w, stale, guest, ShadowStackInst(inst, compressed));
            && t.flow.Resumed? && t.guest == Stepped(guest, compressed)
            && t.world == w.(stack := t.world.stack) && t.world.stack.ssp == slot
            && forall a: nat :: t.world.stack.words(a) == if a == h then guest.x[r] else w.stack.words(a)
  {
    hide VsTranslate, GTranslate, Enabled, Or, And, Shr;
    EnabledIsOn(w, guest.sstatus);
    SaveRestore(guest, stale);
    assert Save(guest, stale).xreg[r] == guest.x[r];
    assert SS.Down(w.stack.ssp) == slot;
  }

  /** SSPOPCHK and C.SSPOPCHK with the stack mapped: ssp goes up by 8 and memory stays. The guest goes on
      after the instruction if and only if the word on top is the register's value (rs1, or rd of the
      compressed form); otherwise it takes exception 18 with value 3. */
  lemma PopTrap(env: Env, w: World, stale: Frame, guest: Guest, inst: SS.Inst, compressed: bool, r: nat,
                gpa: nat, h: nat)
    requires WorldOk(env, w) && FrameOk(stale) && GuestOk(guest) && SS.RegsOk(inst) && Saved(r)
    requires (inst.opc.SSPOPCHK? && r == inst.rs1) || (inst.opc.C_SSPOPCHK? && r == inst.rd)
    requires IsOn(w, guest.sstatus)
    requires VsTranslate(env.g, w.stack.words, guest.vs.vsatp, w.stack.ssp) == Ok(gpa) && Host(env.g, gpa) == Some(h)
    ensures var t := Trap(env, w, stale, guest, ShadowStackInst(inst, compressed));
            && t.flow.Resumed? && t.world == w.(stack := w.stack.(ssp := (w.stack.ssp + 8) % WORD))
            && (if w.stack.words(h) == guest.x[r] then t.guest == Stepped(guest, compressed)
                else Excepted(guest, t.guest, 18, 3))
  {
    hide VsTranslate, GTranslate, Enabled, Or, And, Shr;
    EnabledIsOn(w, guest.sstatus);
    SaveRestore(guest, stale);
    assert Save(guest, stale).xreg[r] == guest.x[r];
    assert SS.Up(w.stack.ssp) == (w.stack.ssp + 8) % WORD;
    RaisedRegisters(guest, stale, 18, 3);
  }

  lemma RaisedRegisters(guest: Guest, stale: Frame, cause: nat, tval: nat)
    requires FrameOk(stale) && GuestOk(guest)
    ensures var (f, vs) := Exception(Save(guest, stale), guest.vs, cause, tval);
            FrameOk(f) && Excepted(guest, Restore(f, guest.x[2], vs), cause, tval)
  {
    hide Or, And, Shr;
    SaveRestore(guest, stale);
    var (f, vs) := Exception(Save(guest, stale), guest.vs, cause, tval);
    assert Restore(f, guest.x[2], vs).x == Restore(Save(guest, stale), guest.x[2], guest.vs).x;
  }

  /** A push or pop by an Sv57 guest of a slot for which no leaf is mapped: exception 15 with the address of
      the slot, memory as it was, and ssp at the slot. */
  lemma FaultTrap(env: Env, w: World, stale: Frame, guest: Guest, inst: SS.Inst, compressed: bool, slot: nat)
    requires WorldOk(env, w) && FrameOk(stale) && GuestOk(guest) && SS.RegsOk(inst) && IsOn(w, guest.sstatus)
    requires || (Pushes(inst) && slot < WORD && (slot + 8) % WORD == w.stack.ssp)
             || (Pops(inst) && slot == w.stack.ssp)
    requires guest.vs.vsatp / 0x1000_0000_0000_0000 == 10
    requires NoLeafOnPath(env.g, w.stack.words, (guest.vs.vsatp % 0x1000_0000_0000) * 4096, 4, slot)
    ensures var t := Trap(env, w, stale, guest, ShadowStackInst(inst, compressed));
            t.flow.Resumed? && t.world == w.(stack := w.stack.(ssp := slot)) && Excepted(guest, t.guest, 15, slot)
  {
    hide VsTranslate, GTranslate, Enabled, Or, And, Shr, NoLeafOnPath;
    EnabledIsOn(w, guest.sstatus);
    ErrExactly(env.g, w.stack.words, guest.vs.vsatp, slot);
    RaisedRegisters(guest, stale, 15, slot);
  }

  /** With the extension off for the guest's mode, a push or pop does nothing. */
  lemma OffTrap(env: Env, w: World, stale: Frame, guest: Guest, inst: SS.Inst, compressed: bool)
    requires WorldOk(env, w) && FrameOk(stale) && GuestOk(guest) && SS.RegsOk(inst)
    requires (Pushes(inst) || Pops(inst)) && !IsOn(w, guest.sstatus)
    ensures var t := Trap(env, w, stale, guest, ShadowStackInst(inst, compressed));
            t.flow.Resumed? && t.world == w && t.guest == Stepped(guest, compressed)
  {
    hide Enabled, Or, And, Shr;
    EnabledIsOn(w, guest.sstatus);
    SaveRestore(guest, stale);
  }

  /** SSRDP puts ssp into its destination, or 0 with the extension off, unless the destination is sp. */
  lemma ReadPointerTrap(env: Env, w: World, stale: Frame, guest: Guest, inst: SS.Inst, compressed: bool)
    requires WorldOk(env, w) && FrameOk(stale) && GuestOk(guest) && SS.RegsOk(inst) && inst.opc.SSRDP?
    ensures var t := Trap(env, w, stale, guest, ShadowStackInst(inst, compressed));
            var value: u64 := if IsOn(w, guest.sstatus) then w.stack.ssp else 0;
            && t.flow.Resumed? && t.world == w
            && (t.guest == Stepped(guest, compressed).(x := Written(guest.x, inst.rd, value))
                <==> inst.rd != 2 || guest.x[2] == value)
  {
    hide Enabled, Or, And, Shr;
    EnabledIsOn(w, guest.sstatus);
    var value: u64 := if IsOn(w, guest.sstatus) then w.stack.ssp else 0;
    var x' := Trap(env, w, stale, guest, ShadowStackInst(inst, compressed)).guest.x;
    if inst.rd == 2 {
      assert x'[2] == guest.x[2] && Written(guest.x, 2, value)[2] == value;
      if guest.x[2] == value { assert x' == Written(guest.x, 2, value); }
    } else {
      assert x' == Written(guest.x, inst.rd, value);
    }
  }

  /** A CSR access to ssp with an immediate always takes the immediate, whatever earlier traps left behind. */
  lemma ImmediateCsr(env: Env, w: World, stale: Frame, guest: Guest, op: CsrOp, rd: nat, value: u64, compressed: bool)
    requires WorldOk(env, w) && FrameOk(stale) && GuestOk(guest) && rd < 32
    ensures var t := Trap(env, w, stale, guest, SspCsr(op, rd, Immediate(value), compressed));
            && t.flow.Resumed? && t.world == w.(stack := w.stack.(ssp := CsrUpdate(op, w.stack.ssp, value)))
            && (t.guest == Stepped(guest, compressed).(x := Written(guest.x, rd, w.stack.ssp))
                <==> rd != 2 || guest.x[2] == w.stack.ssp)
  {
    hide CsrUpdate;
    var x' := Trap(env, w, stale, guest, SspCsr(op, rd, Immediate(value), compressed)).guest.x;
    var ssp := w.stack.ssp;
    if rd == 2 {
      assert x'[2] == guest.x[2] && Written(guest.x, 2, ssp)[2] == ssp;
      if guest.x[2] == ssp { assert x' == Written(guest.x, 2, ssp); }
    } else {
      assert x' == Written(guest.x, rd, ssp);
    }
  }
}
