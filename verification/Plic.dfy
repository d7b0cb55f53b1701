/** PLIC emulation (src/device/plic.rs) and external-interrupt delivery
    (src/trap/hypervisor_supervisor/interrupt.rs). */
module Plic {
  import opened Bits

  const MAX_CONTEXT_NUM: nat := 16
  const CONTEXT_BASE: nat := 0x20_0000
  const CONTEXT_REGS_SIZE: nat := 0x1000
  const CONTEXT_CLAIM: nat := 0x4
  const CONTEXT_END: nat := CONTEXT_BASE * CONTEXT_REGS_SIZE * MAX_CONTEXT_NUM

  datatype DeviceEmulateError = InvalidAddress | InvalidContextId | ReservedRegister

  /** `Crash` is a panic: an address below the PLIC, or an index past the claim array. */
  datatype Access<+T> = Done(value: T) | Error(error: DeviceEmulateError) | Crash

  /** The emulated claims, the external bit of hvip, and the writes passed on to the device. */
  datatype State = State(claim: seq<u32>, external: bool, writes: seq<(nat, nat)>)

  predicate StateOk(s: State) {
    |s.claim| == MAX_CONTEXT_NUM
  }

  function ContextOf(offset: nat): nat
    requires offset >= CONTEXT_BASE
  {
    (offset - CONTEXT_BASE) / CONTEXT_REGS_SIZE
  }

  function ReadSpec(base: nat, s: State, address: nat): Access<u32>
    requires StateOk(s)
  {
    if address < base then Crash
    else if !(CONTEXT_BASE <= address - base <= CONTEXT_END) then Error(InvalidAddress)
    else if ContextOf(address - base) > MAX_CONTEXT_NUM then Error(InvalidContextId)
    else if ContextOf(address - base) == MAX_CONTEXT_NUM then Crash
    else Done(s.claim[ContextOf(address - base)])
  }

  /** A write forwarded to the device, and, at a claim/complete register, the completion. */
  function WriteSpec(base: nat, s: State, address: nat, value: nat): (r: (State, Access<()>))
    requires StateOk(s)
    ensures StateOk(r.0)
  {
    if address < base then (s, Crash)
    else if !(CONTEXT_BASE <= address - base <= CONTEXT_END) then (s, Error(InvalidAddress))
    else
      var forwarded := s.(writes := s.writes + [(address, value)]);
      match (address - base) % CONTEXT_REGS_SIZE
      case 0 => (forwarded, Done(()))
      case 4 =>
        var c := ContextOf(address - base);
        if c < MAX_CONTEXT_NUM then (forwarded.(claim := s.claim[c := 0], external := false), Done(()))
        else (forwarded, Crash)
      case 8 => (s, Error(ReservedRegister))
      case _ => (s, Error(InvalidAddress))
  }

  class Device {
    const base: nat
    var claimComplete: seq<u32>
    /** Bit 10 of hvip. */
    var external: bool
    /** Volatile writes to the device, oldest first. */
    var writes: seq<(nat, nat)>

    ghost predicate Valid()
      reads this
    {
      |claimComplete| == MAX_CONTEXT_NUM
    }

    ghost function Abs(): State
      reads this
    {
      State(claimComplete, external, writes)
    }

    constructor (base: nat)
      ensures Valid() && this.base == base && Abs() == State(seq(MAX_CONTEXT_NUM, _ => 0), false, [])
    {
      this.base := base;
      claimComplete := seq(MAX_CONTEXT_NUM, _ => 0);
      external := false;
      writes := [];
    }

    /** The external-interrupt step: claim from the hardware register of the hart's supervisor context
        (`irq` is what the volatile read returns), then raise the guest's external interrupt. */
    method DeliverExternal(hartId: nat, irq: u32)
      requires Valid() && hartId < 8
      modifies this
      ensures Valid() && Abs() == Deliver(old(Abs()), 2 * hartId + 1, irq)
    {
      claimComplete := claimComplete[2 * hartId + 1 := irq];
      external := true;
    }

    method EmulateRead(address: nat) returns (r: Access<u32>)
      requires Valid()
      ensures r == ReadSpec(base, Abs(), address)
    {
      if address < base { return Crash; }
      var offset := address - base;
      if CONTEXT_BASE <= offset <= CONTEXT_END {
        r := ContextRead(offset);
      } else {
        r := Error(InvalidAddress);
      }
    }

    method ContextRead(offset: nat) returns (r: Access<u32>)
      requires Valid() && CONTEXT_BASE <= offset <= CONTEXT_END
      ensures r == ReadSpec(base, Abs(), base + offset)
    {
      var contextId := (offset - CONTEXT_BASE) / CONTEXT_REGS_SIZE;
      if contextId > MAX_CONTEXT_NUM { return Error(InvalidContextId); }
      if contextId >= |claimComplete| { return Crash; }
      r := Done(claimComplete[contextId]);
    }

    method EmulateWrite(address: nat, value: nat) returns (r: Access<()>)
      requires Valid()
      modifies this
      ensures Valid() && (Abs(), r) == WriteSpec(base, old(Abs()), address, value)
    {
      if address < base { return Crash; }
      var offset := address - base;
      if CONTEXT_BASE <= offset <= CONTEXT_END {
        r := ContextWrite(address, value);
      } else {
        r := Error(InvalidAddress);
      }
    }

    method ContextWrite(address: nat, value: nat) returns (r: Access<()>)
      requires Valid() && base + CONTEXT_BASE <= address <= base + CONTEXT_END
      modifies this
      ensures Valid() && (Abs(), r) == WriteSpec(base, old(Abs()), address, value)
    {
      var offset := address - base;
      var contextId := (offset - CONTEXT_BASE) / CONTEXT_REGS_SIZE;
      match offset % CONTEXT_REGS_SIZE
      case 0 =>
        writes := writes + [(address, value)];
        r := Done(());
      case 4 =>
        writes := writes + [(address, value)];
        if contextId >= |claimComplete| { return Crash; }
        claimComplete := claimComplete[contextId := 0];
        external := false;
        r := Done(());
      case 8 => r := Error(ReservedRegister);
      case _ => r := Error(InvalidAddress);
    }
  }

  function Deliver(s: State, context: nat, irq: u32): State
    requires StateOk(s) && context < MAX_CONTEXT_NUM
  {
    s.(claim := s.claim[context := irq], external := true)
  }

  // Addresses.

  function ClaimRegister(base: nat, context: nat): nat {
    base + CONTEXT_BASE + CONTEXT_REGS_SIZE * context + CONTEXT_CLAIM
  }

  lemma ClaimRegisterLayout(base: nat, context: nat)
    requires context <= MAX_CONTEXT_NUM
    ensures CONTEXT_BASE <= ClaimRegister(base, context) - base <= CONTEXT_END
    ensures ContextOf(ClaimRegister(base, context) - base) == context
    ensures (ClaimRegister(base, context) - base) % CONTEXT_REGS_SIZE == CONTEXT_CLAIM
  {
  }

  /** The claim/complete register of each context is its own mailbox: a read returns that context's
      claim, a write completes that context and no other, and reaches the same hardware register. */
  lemma Mailbox(base: nat, s: State, context: nat, value: nat)
    requires StateOk(s) && context < MAX_CONTEXT_NUM
    ensures ClaimRegister(base, context) == base + 0x20_0004 + 0x1000 * context
    ensures ReadSpec(base, s, ClaimRegister(base, context)) == Done(s.claim[context])
    ensures WriteSpec(base, s, ClaimRegister(base, context), value)
         == (State(s.claim[context := 0], false, s.writes + [(ClaimRegister(base, context), value)]), Done(()))
  {
    ClaimRegisterLayout(base, context);
  }

  /** Every address of a context's page reads as its claim, the threshold register too: a guest that sets a
      threshold reads it back if and only if it equals the claim. */
  lemma ThresholdReadsClaim(base: nat, s: State, context: nat, value: nat)
    requires StateOk(s) && context < MAX_CONTEXT_NUM
    ensures var threshold := base + CONTEXT_BASE + CONTEXT_REGS_SIZE * context;
            var (s', r) := WriteSpec(base, s, threshold, value);
            && r.Done? && s' == s.(writes := s.writes + [(threshold, value)])
            && (forall a: nat :: threshold <= a < threshold + CONTEXT_REGS_SIZE ==>
                  ReadSpec(base, s', a) == Done(s.claim[context]))
            && (ReadSpec(base, s', threshold) == Done(value) <==> value == s.claim[context])
  {
    var threshold := base + CONTEXT_BASE + CONTEXT_REGS_SIZE * context;
    DivModUnique(threshold - base, CONTEXT_REGS_SIZE, CONTEXT_BASE / CONTEXT_REGS_SIZE + context, 0);
    var s' := WriteSpec(base, s, threshold, value).0;
    forall a: nat | threshold <= a < threshold + CONTEXT_REGS_SIZE
      ensures ReadSpec(base, s', a) == Done(s.claim[context])
    {
      DivModUnique(a - base - CONTEXT_BASE, CONTEXT_REGS_SIZE, context, a - threshold);
    }
  }

  /** Reads above the PLIC's base crash exactly in the page after the last context: the bound check lets
      context 16 through. */
  lemma ReadCrashes(base: nat, s: State, address: nat)
    requires StateOk(s) && address >= base
    ensures ReadSpec(base, s, address).Crash?
       <==> base + CONTEXT_BASE + CONTEXT_REGS_SIZE * MAX_CONTEXT_NUM <= address
            < base + CONTEXT_BASE + CONTEXT_REGS_SIZE * (MAX_CONTEXT_NUM + 1)
  {
  }

  /** Writes above the base crash exactly at the claim register of a context past the last, after the
      device has been written. */
  lemma WriteCrashes(base: nat, s: State, address: nat, value: nat)
    requires StateOk(s) && address >= base
    ensures WriteSpec(base, s, address, value).1.Crash?
       <==> && address <= base + CONTEXT_END && (address - base) % CONTEXT_REGS_SIZE == CONTEXT_CLAIM
            && address >= base + CONTEXT_BASE + CONTEXT_REGS_SIZE * MAX_CONTEXT_NUM
    ensures WriteSpec(base, s, address, value).1.Crash? ==>
              WriteSpec(base, s, address, value).0.writes == s.writes + [(address, value)]
  {
  }
}
