/** The shadow stack as the guest uses it: every instruction a trap, with guest execution and other traps
    in between. */
module TrapShadowStack {
  import opened Bits
  import opened TwoStage
  import SS = ShadowStack
  import Runs = ShadowStackRuns
  import Plic
  import opened TrapSpec
  import opened TrapTheorems

  /** The register that the instruction names. */
  function OperandOf(inst: SS.Inst): nat {
    match inst.opc
    case SSPUSH => inst.rs2
    case SSPOPCHK => inst.rs1
    case _ => inst.rd
  }

  /** The guest traps at a push or a checked pop. */
  predicate OnStack(v: Visit)
    requires GuestOk(v.guest) && CauseOk(v.cause)
  {
    v.cause.ShadowStackInst? && SS.OpOf(v.cause.inst, v.guest.x).Some?
  }

  function OpAt(v: Visit): SS.Op
    requires GuestOk(v.guest) && CauseOk(v.cause) && OnStack(v)
  {
    SS.OpOf(v.cause.inst, v.guest.x).value
  }

  /** The instruction takes its operand from a register that the trap path saves, the extension is enabled
      for the guest's mode, and the guest is in address space `vsatp`. */
  predicate Performs(vsatp: nat, v: Visit, w: World)
    requires GuestOk(v.guest) && CauseOk(v.cause)
  {
    OnStack(v) && Saved(OperandOf(v.cause.inst)) && Enabled(w, v.guest.sstatus) && v.guest.vs.vsatp == vsatp
  }

  /** A trap for another reason: an interrupt, an answered environment call, a forwarded exception, a read
      of the shadow-stack pointer, or an access to an emulated PLIC register. */
  predicate Quiet(base: nat, v: Visit)
    requires GuestOk(v.guest) && CauseOk(v.cause)
  {
    match v.cause
    case ShadowStackInst(inst, _) => inst.opc.SSRDP?
    case Ecall(ret) => ret.Some?
    case LoadFault(address, _, _) => Register(base, address)
    case StoreFault(address, rs2, _) =>
      Register(base, address) && Forwards(base, address) && Saved(rs2) && v.guest.x[rs2] < 0x1_0000_0000
    case SspCsr(_, _, _, _) => false
    case Unsupported => false
    case _ => true
  }

  predicate Register(base: nat, address: nat) {
    base + Plic.CONTEXT_BASE <= address < base + Plic.CONTEXT_BASE + Plic.MAX_CONTEXT_NUM * Plic.CONTEXT_REGS_SIZE
  }

  predicate Plays(base: nat, vsatp: nat, visits: seq<Visit>, w: World) {
    && VisitsOk(visits)
    && forall v <- visits :: if OnStack(v) then Performs(vsatp, v, w) else Quiet(base, v)
  }

  /** What a leg of the run does to the stack: the guest's stores, and then the instruction. */
  function ActsAt(v: Visit): seq<Runs.Act>
    requires GuestOk(v.guest) && CauseOk(v.cause)
  {
    [Runs.Stores(v.stores)] + if OnStack(v) then [Runs.Do(OpAt(v))] else []
  }

  function Script(visits: seq<Visit>): seq<Runs.Act>
    requires VisitsOk(visits)
  {
    if visits == [] then []
    else
      var init, v := visits[..|visits| - 1], visits[|visits| - 1];
      assert v in visits;
      Script(init) + ActsAt(v)
  }

  /** One such trap does exactly the stack step: the guest goes on after the instruction when it retires,
      and takes the exception when it is raised. */
  lemma TrapIsStep(env: Env, w: World, stale: Frame, v: Visit)
    requires WorldOk(env, w) && FrameOk(stale) && GuestOk(v.guest) && CauseOk(v.cause)
    requires Performs(v.guest.vs.vsatp, v, w)
    ensures var r := SS.Step(env.g, v.guest.vs.vsatp, w.stack, OpAt(v));
            var t := Trap(env, w, stale, v.guest, v.cause);
            && t.world == w.(stack := r.0)
            && (r.1.Retired? ==> t.flow.Resumed? && t.guest == v.guest.(pc := v.guest.pc + InstLength(v.cause)))
            && (r.1.Raised? ==> t.flow.Resumed? && t.guest.pc == v.guest.vs.vstvec && t.guest.vs.vsepc == v.guest.pc
                                && t.guest.vs.vscause == r.1.cause && t.guest.vs.vstval == r.1.tval)
            && (r.1.Stuck? ==> t.flow.Panicked?)
  {
    hide SS.Step, Enabled, Or, And, Shr;
    var f := Save(v.guest, stale);
    assert f.xreg[OperandOf(v.cause.inst)] == v.guest.x[OperandOf(v.cause.inst)];
    SaveRestore(v.guest, stale);
  }

  /** A trap for another reason resumes the guest and leaves the shadow stack alone. */
  lemma QuietTrap(env: Env, w: World, stale: Frame, v: Visit)
    requires WorldOk(env, w) && FrameOk(stale) && GuestOk(v.guest) && CauseOk(v.cause) && Quiet(env.plicBase, v)
    ensures var t := Trap(env, w, stale, v.guest, v.cause);
            t.flow.Resumed? && t.world == w.(plic := t.world.plic)
  {
    hide SS.Step, Enabled, Or, And, Shr;
  }

  lemma {:induction false} RunConcat(g: GStage, vsatp: nat, st: SS.Stack, acts: seq<Runs.Act>, more: seq<Runs.Act>)
    requires st.ssp < WORD
    ensures var r := Runs.Run(g, vsatp, st, acts);
            var q := Runs.Run(g, vsatp, r.0, more);
            Runs.Run(g, vsatp, st, acts + more).0 == q.0 && Runs.Run(g, vsatp, st, acts + more).1 == r.1 + q.1
    decreases |acts|
  {
    hide Runs.Perform;
    if acts == [] {
      assert acts + more == more;
    } else {
      RunConcat(g, vsatp, Runs.Perform(g, vsatp, st, acts[0]).0, acts[1..], more);
      assert (acts + more)[1..] == acts[1..] + more;
    }
  }

  /** One leg, on the stack alone. */
  lemma RunLeg(g: GStage, vsatp: nat, st: SS.Stack, v: Visit)
    requires st.ssp < WORD && GuestOk(v.guest) && CauseOk(v.cause)
    ensures var r, st1 := Runs.Run(g, vsatp, st, ActsAt(v)), SS.Stack(st.ssp, SS.Patch(st.words, v.stores));
            if OnStack(v) then
              var e := SS.Step(g, vsatp, st1, OpAt(v));
              r.0 == e.0 && r.1 == [SS.Retired, e.1]
            else r.0 == st1 && r.1 == [SS.Retired]
  {
    hide SS.Step, SS.OpOf;
    var st1 := SS.Stack(st.ssp, SS.Patch(st.words, v.stores));
    if OnStack(v) {
      var acts, e := ActsAt(v), SS.Step(g, vsatp, st1, OpAt(v));
      assert acts[1..] == [Runs.Do(OpAt(v))] && acts[1..][1..] == [];
      RunOne(g, vsatp, st1, OpAt(v));
    } else {
      assert ActsAt(v)[1..] == [];
      Runs.RunNothing(g, vsatp, st1);
    }
  }

  lemma RunOne(g: GStage, vsatp: nat, st: SS.Stack, op: SS.Op)
    requires st.ssp < WORD
    ensures var e := SS.Step(g, vsatp, st, op);
            Runs.Run(g, vsatp, st, [Runs.Do(op)]).0 == e.0 && Runs.Run(g, vsatp, st, [Runs.Do(op)]).1 == [e.1]
  {
    hide SS.Step;
    var e := SS.Step(g, vsatp, st, op);
    assert [Runs.Do(op)][1..] == [];
    Runs.RunNothing(g, vsatp, e.0);
  }

  /** Every push and pop of the run returns to the guest right after the instruction, and nothing of the
      guest but its program counter has changed. */
  ghost predicate Undisturbed(env: Env, w: World, stale: Frame, visits: seq<Visit>)
    requires WorldOk(env, w) && FrameOk(stale) && VisitsOk(visits)
  {
    visits == [] ||
    var init, v := visits[..|visits| - 1], visits[|visits| - 1];
    assert v in visits;
    var r := TrapRun(env, w, stale, init);
    && Undisturbed(env, w, stale, init)
    && (OnStack(v) ==> Trap(env, Executes(r.0, v.stores), r.1, v.guest, v.cause).guest
                       == v.guest.(pc := v.guest.pc + InstLength(v.cause)))
  }

  ghost predicate Quietly(effects: seq<SS.Effect>) {
    forall e <- effects :: e == SS.Retired
  }

  /** One more leg. */
  lemma LegRunsStack(env: Env, w: World, stale: Frame, v: Visit, vsatp: nat)
    requires WorldOk(env, w) && FrameOk(stale) && GuestOk(v.guest) && CauseOk(v.cause)
    requires if OnStack(v) then Performs(vsatp, v, w) else Quiet(env.plicBase, v)
    requires Quietly(Runs.Run(env.g, vsatp, w.stack, ActsAt(v)).1)
    ensures var t := Trap(env, Executes(w, v.stores), stale, v.guest, v.cause);
            && t.flow.Resumed?
            && t.world == w.(plic := t.world.plic, stack := Runs.Run(env.g, vsatp, w.stack, ActsAt(v)).0)
            && (OnStack(v) ==> t.guest == v.guest.(pc := v.guest.pc + InstLength(v.cause)))
  {
    hide SS.Step, SS.OpOf, Trap, Runs.Run, ActsAt, Quiet, OpAt;
    RunLeg(env.g, vsatp, w.stack, v);
    var w1 := Executes(w, v.stores);
    if OnStack(v) {
      var e := SS.Step(env.g, vsatp, w1.stack, OpAt(v));
      assert e.1 in [SS.Retired, e.1];
      TrapIsStep(env, w1, stale, v);
    } else {
      QuietTrap(env, w1, stale, v);
    }
  }

  /** A run of guest execution and traps whose stack operations all retire leaves the stack that those
      operations and stores leave, and resumes the guest every time. */
  lemma {:induction false} TrapsRunStack(env: Env, w: World, stale: Frame, visits: seq<Visit>, vsatp: nat)
    requires WorldOk(env, w) && FrameOk(stale) && Plays(env.plicBase, vsatp, visits, w)
    requires Quietly(Runs.Run(env.g, vsatp, w.stack, Script(visits)).1)
    ensures var r := TrapRun(env, w, stale, visits);
            r.2.Resumed? && r.0 == w.(plic := r.0.plic, stack := Runs.Run(env.g, vsatp, w.stack, Script(visits)).0)
    ensures Undisturbed(env, w, stale, visits)
  {
    hide SS.Step, SS.OpOf, OnStack, Trap, Runs.Run, ActsAt, Quiet, Performs, Executes;
    if visits == [] {
      Runs.RunNothing(env.g, vsatp, w.stack);
    } else {
      var init, v := visits[..|visits| - 1], visits[|visits| - 1];
      assert v in visits && forall v' <- init :: v' in visits;
      RunConcat(env.g, vsatp, w.stack, Script(init), ActsAt(v));
      var r := Runs.Run(env.g, vsatp, w.stack, Script(init));
      var q := Runs.Run(env.g, vsatp, r.0, ActsAt(v));
      assert (forall e <- r.1 :: e in r.1 + q.1) && forall e <- q.1 :: e in r.1 + q.1;
      TrapsRunStack(env, w, stale, init, vsatp);
      var t := TrapRun(env, w, stale, init);
      PerformsAnywhere(vsatp, v, w, t.0);
      LegRunsStack(env, t.0, t.1, v, vsatp);
    }
  }

  lemma PerformsAnywhere(vsatp: nat, v: Visit, w: World, w': World)
    requires GuestOk(v.guest) && CauseOk(v.cause) && w'.henvSse == w.henvSse && w'.senvSse == w.senvSse
    ensures Performs(vsatp, v, w') <==> Performs(vsatp, v, w)
  {
  }

  /** End to end: a guest that calls and returns in nested fashion, whatever else it stores and however
      often it traps for other reasons in between, is never given an exception by the shadow stack: each
      push and pop returns right after the instruction, and `ssp` ends where it began. */
  lemma NestedCallsThroughTraps(env: Env, w: World, stale: Frame, visits: seq<Visit>, calls: Runs.Calls,
                                area: Runs.Area, s: seq<nat>)
    requires WorldOk(env, w) && FrameOk(stale) && Plays(env.plicBase, area.vsatp, visits, w)
    requires Script(visits) == Runs.ActsOf(calls)
    requires area.g == env.g && Runs.AreaOk(area) && Runs.Holds(area, w.stack, s) && Runs.Nested(area, |s|, calls)
    ensures TrapRun(env, w, stale, visits).2.Resumed? && Undisturbed(env, w, stale, visits)
    ensures TrapRun(env, w, stale, visits).0.stack.ssp == w.stack.ssp
    ensures Runs.Holds(area, TrapRun(env, w, stale, visits).0.stack, s)
  {
    hide Plays, Runs.AreaOk, Runs.Holds, Runs.Run, Runs.ActsOf, Runs.Nested, TrapRun, Undisturbed, Script;
    Runs.NestedCallsPass(area, w.stack, s, calls);
    TrapsRunStack(env, w, stale, visits, area.vsatp);
  }

  /** End to end: after any such run, a return to anything but the address on top of the stack takes the
      guest to its trap vector with a software-check exception. */
  lemma WrongReturnThroughTraps(env: Env, w: World, stale: Frame, visits: seq<Visit>, v: Visit,
                                area: Runs.Area, s: seq<nat>)
    requires WorldOk(env, w) && FrameOk(stale) && Plays(env.plicBase, area.vsatp, visits, w)
    requires area.g == env.g && Runs.AreaOk(area) && Runs.Holds(area, w.stack, s)
    requires Runs.Fits(area, s, Script(visits)) && Quietly(Runs.AbsRun(area, s, Script(visits)).1)
    requires GuestOk(v.guest) && CauseOk(v.cause) && Performs(area.vsatp, v, w) && OpAt(v).PopCheck?
    requires var top := Runs.AbsRun(area, s, Script(visits)).0;
             && top != [] && |top| <= area.depth && top[|top| - 1] != OpAt(v).expected
             && Runs.Allowed(area, |top|, Runs.Stores(v.stores))
    ensures var r := TrapRun(env, w, stale, visits);
            var t := Trap(env, Executes(r.0, v.stores), r.1, v.guest, v.cause);
            && r.2.Resumed? && t.flow.Resumed?
            && t.guest.pc == v.guest.vs.vstvec && t.guest.vs.vsepc == v.guest.pc
            && t.guest.vs.vscause == SS.SOFTWARE_CHECK_EXCEPTION && t.guest.vs.vstval == SS.SHADOW_STACK_FAULT
  {
    hide Quiet, Runs.AreaOk, Runs.Holds, Runs.Run, TrapRun, Undisturbed, Script, Runs.AbsRun, Runs.Fits, SS.Step, OpAt,
         Runs.Allowed, Trap, OnStack;
    Runs.HoldsSsp(area, w.stack, s);
    var top := Runs.AbsRun(area, s, Script(visits)).0;
    Runs.RunRefines(area, w.stack, s, Script(visits));
    TrapsRunStack(env, w, stale, visits, area.vsatp);
    var r := TrapRun(env, w, stale, visits);
    var w1 := Executes(r.0, v.stores);
    Runs.StoresRefine(area, r.0.stack, top, v.stores);
    Runs.PopRefines(area, w1.stack, top, OpAt(v).expected);
    PerformsAnywhere(area.vsatp, v, w, w1);
    TrapIsStep(env, w1, r.1, v);
  }
}
