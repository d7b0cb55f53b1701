/** Whole runs of the emulated PLIC: interrupts delivered to one context, and guest accesses. */
module PlicRuns {
  import opened Bits
  import opened Plic

  datatype Event = Interrupt(irq: u32) | Load(address: nat) | Store(address: nat, value: nat)

  function Next(base: nat, context: nat, s: State, e: Event): (r: State)
    requires StateOk(s) && context < MAX_CONTEXT_NUM
    ensures StateOk(r)
  {
    match e
    case Interrupt(irq) => Deliver(s, context, irq)
    case Load(_) => s
    case Store(address, value) => WriteSpec(base, s, address, value).0
  }

  function After(base: nat, context: nat, s: State, events: seq<Event>): (r: State)
    requires StateOk(s) && context < MAX_CONTEXT_NUM
    ensures StateOk(r)
  {
    if events == [] then s
    else Next(base, context, After(base, context, s, events[..|events| - 1]), events[|events| - 1])
  }

  /** `e` stores to the claim/complete register of context `c`. */
  predicate CompletesFor(base: nat, c: nat, e: Event) {
    e.Store? && e.address == ClaimRegister(base, c)
  }

  predicate CompletesOther(base: nat, context: nat, e: Event) {
    exists c: nat :: c < MAX_CONTEXT_NUM && c != context && CompletesFor(base, c, e)
  }

  /** The interrupt last delivered and not yet completed, 0 if there is none. */
  function Pending(base: nat, context: nat, events: seq<Event>): u32 {
    if events == [] then 0
    else
      var e := events[|events| - 1];
      if e.Interrupt? then e.irq
      else if CompletesFor(base, context, e) then 0
      else Pending(base, context, events[..|events| - 1])
  }

  /** A store touches the claims at most at the context whose claim register it names, and then clears
      hvip's external bit as well. */
  lemma StoreEffect(base: nat, s: State, address: nat, value: nat)
    requires StateOk(s)
    ensures var s' := WriteSpec(base, s, address, value).0;
            if exists c: nat :: c < MAX_CONTEXT_NUM && address == ClaimRegister(base, c)
            then exists c: nat :: && c < MAX_CONTEXT_NUM && address == ClaimRegister(base, c)
                                  && s'.claim == s.claim[c := 0] && !s'.external
            else s'.claim == s.claim && s'.external == s.external
  {
    if c: nat :| c < MAX_CONTEXT_NUM && address == ClaimRegister(base, c) {
      Mailbox(base, s, c, value);
    } else if base + CONTEXT_BASE <= address <= base + CONTEXT_END && (address - base) % CONTEXT_REGS_SIZE == 4 {
      var c := ContextOf(address - base);
      assert address == ClaimRegister(base, c);
    }
  }

  lemma ClaimRegisterInjective(base: nat, c: nat, c': nat)
    requires ClaimRegister(base, c) == ClaimRegister(base, c')
    ensures c == c'
  {
  }

  lemma NextClaim(base: nat, context: nat, s: State, e: Event)
    requires StateOk(s) && context < MAX_CONTEXT_NUM
    ensures var s' := Next(base, context, s, e);
            && s'.claim[context]
               == (if e.Interrupt? then e.irq else if CompletesFor(base, context, e) then 0 else s.claim[context])
            && (s'.external <==> e.Interrupt?
                                 || (&& s.external && !CompletesFor(base, context, e)
                                     && !CompletesOther(base, context, e)))
            && (forall c: nat :: c < MAX_CONTEXT_NUM && c != context ==>
                  s'.claim[c] == if CompletesFor(base, c, e) then 0 else s.claim[c])
  {
    hide WriteSpec, ClaimRegister;
    if e.Store? {
      StoreEffect(base, s, e.address, e.value);
      forall c: nat, c': nat | e.address == ClaimRegister(base, c) && e.address == ClaimRegister(base, c')
        ensures c == c'
      {
        ClaimRegisterInjective(base, c, c');
      }
      assert forall c: nat :: CompletesFor(base, c, e) <==> e.address == ClaimRegister(base, c);
    }
  }

  /** Claim reads return the interrupt last delivered until it is completed, and 0 after, whatever else
      the guest reads and writes. */
  lemma {:induction false} ClaimIsPending(base: nat, context: nat, s: State, events: seq<Event>)
    requires StateOk(s) && context < MAX_CONTEXT_NUM && s.claim[context] == 0
    ensures After(base, context, s, events).claim[context] == Pending(base, context, events)
    ensures ReadSpec(base, After(base, context, s, events), ClaimRegister(base, context))
         == Done(Pending(base, context, events))
  {
    hide WriteSpec, ReadSpec, ClaimRegister;
    if events != [] {
      var init, e := events[..|events| - 1], events[|events| - 1];
      ClaimIsPending(base, context, s, init);
      NextClaim(base, context, After(base, context, s, init), e);
    }
    Mailbox(base, After(base, context, s, events), context, 0);
  }

  predicate OwnOnly(base: nat, context: nat, events: seq<Event>) {
    forall e <- events :: !CompletesOther(base, context, e)
  }

  /** While the guest completes only its own context, a pending claim has its interrupt raised, and no
      other context's claim changes. */
  lemma {:induction false} PendingIsRaised(base: nat, context: nat, s: State, events: seq<Event>)
    requires StateOk(s) && context < MAX_CONTEXT_NUM && s.claim[context] == 0 && OwnOnly(base, context, events)
    ensures var s' := After(base, context, s, events);
            && (s'.claim[context] != 0 ==> s'.external)
            && (forall c: nat :: c < MAX_CONTEXT_NUM && c != context ==> s'.claim[c] == s.claim[c])
  {
    hide WriteSpec, ClaimRegister;
    if events != [] {
      var init, e := events[..|events| - 1], events[|events| - 1];
      assert forall e' <- init :: e' in events;
      PendingIsRaised(base, context, s, init);
      NextClaim(base, context, After(base, context, s, init), e);
      assert e in events && !CompletesOther(base, context, e);
    }
  }

  /** One event takes the raised bit from a pending claim exactly when it completes another context. */
  lemma LosesRaised(base: nat, context: nat, s: State, e: Event)
    requires StateOk(s) && context < MAX_CONTEXT_NUM && (s.claim[context] != 0 ==> s.external)
    ensures var s' := Next(base, context, s, e);
            !(s'.claim[context] != 0 ==> s'.external) <==> s.claim[context] != 0 && CompletesOther(base, context, e)
  {
    hide WriteSpec, ClaimRegister;
    NextClaim(base, context, s, e);
    if CompletesOther(base, context, e) && CompletesFor(base, context, e) {
      var c: nat :| c < MAX_CONTEXT_NUM && c != context && CompletesFor(base, c, e);
      ClaimRegisterInjective(base, c, context);
    }
  }

  // Where every interrupt goes.

  function One(irq: nat): multiset<nat> {
    if irq == 0 then multiset{} else multiset{irq}
  }

  /** Interrupts claimed from the hardware. */
  function Claimed(events: seq<Event>): multiset<nat> {
    if events == [] then multiset{}
    else
      var e := events[|events| - 1];
      Claimed(events[..|events| - 1]) + (if e.Interrupt? then One(e.irq) else multiset{})
  }

  /** Interrupts completed at the hardware: the values the device was sent at a claim register. */
  function SentTo(register: nat, writes: seq<(nat, nat)>): multiset<nat> {
    if writes == [] then multiset{}
    else
      var (address, value) := writes[|writes| - 1];
      SentTo(register, writes[..|writes| - 1]) + (if address == register then One(value) else multiset{})
  }

  /** The hardware's books balance: every interrupt claimed has been completed there, or is the one the
      guest has yet to complete. */
  predicate Accounted(base: nat, context: nat, s: State, events: seq<Event>)
    requires StateOk(s) && context < MAX_CONTEXT_NUM
  {
    var register := ClaimRegister(base, context);
    SentTo(register, s.writes) + Claimed(events)
    == SentTo(register, After(base, context, s, events).writes) + One(Pending(base, context, events))
  }

  /** Between any two deliveries, the first of a real interrupt, the guest completes. */
  ghost predicate InTime(base: nat, context: nat, events: seq<Event>) {
    forall i, j :: 0 <= i < j < |events| && events[i].Interrupt? && events[i].irq != 0 && events[j].Interrupt? ==>
      exists k :: i < k < j && CompletesFor(base, context, events[k])
  }

  /** The guest completes with the interrupt it claimed. */
  ghost predicate CarriesClaim(base: nat, context: nat, events: seq<Event>) {
    forall k :: 0 <= k < |events| && CompletesFor(base, context, events[k]) ==>
      events[k].value == Pending(base, context, events[..k])
  }

  /** Conservation: the books balance at every point of a run if and only if each delivery is completed
      before the next and each completion carries the interrupt claimed. */
  lemma Conservation(base: nat, context: nat, s: State, events: seq<Event>)
    requires StateOk(s) && context < MAX_CONTEXT_NUM
    ensures (forall k :: 0 <= k <= |events| ==> Accounted(base, context, s, events[..k]))
       <==> InTime(base, context, events) && CarriesClaim(base, context, events)
  {
    hide Accounted, CompletesFor, Pending, InTime, After;
    InTimeExactly(base, context, events);
    if forall k :: 0 <= k <= |events| ==> Accounted(base, context, s, events[..k]) {
      forall k | 0 <= k < |events|
        ensures Keeps(base, context, events[..k], events[k])
      {
        assert Accounted(base, context, s, events[..k]) && Accounted(base, context, s, events[..k + 1]);
        AccountedStep(base, context, s, events, k);
      }
    }
    if forall k :: 0 <= k < |events| ==> Keeps(base, context, events[..k], events[k]) {
      forall k | 0 <= k <= |events|
        ensures Accounted(base, context, s, events[..k])
      {
        KeptUpTo(base, context, s, events, k);
      }
    }
  }

  /** What an event must not do to an interrupt still pending. */
  predicate Keeps(base: nat, context: nat, init: seq<Event>, e: Event) {
    && (e.Interrupt? ==> Pending(base, context, init) == 0)
    && (CompletesFor(base, context, e) ==> e.value == Pending(base, context, init))
  }

  lemma {:induction false} KeptUpTo(base: nat, context: nat, s: State, events: seq<Event>, k: nat)
    requires StateOk(s) && context < MAX_CONTEXT_NUM && k <= |events|
    requires forall k :: 0 <= k < |events| ==> Keeps(base, context, events[..k], events[k])
    ensures Accounted(base, context, s, events[..k])
    decreases k
  {
    hide Keeps, ClaimRegister;
    if k == 0 {
      assert events[..k] == [];
    } else {
      hide Accounted;
      KeptUpTo(base, context, s, events, k - 1);
      AccountedStep(base, context, s, events, k - 1);
    }
  }

  lemma AccountedStep(base: nat, context: nat, s: State, events: seq<Event>, k: nat)
    requires StateOk(s) && context < MAX_CONTEXT_NUM && k < |events| && Accounted(base, context, s, events[..k])
    ensures Accounted(base, context, s, events[..k + 1]) <==> Keeps(base, context, events[..k], events[k])
  {
    hide ClaimRegister, WriteSpec, One, SentTo;
    var init, e, more := events[..k], events[k], events[..k + 1];
    assert more[..k] == init && more[k] == e;
    var register := ClaimRegister(base, context);
    var was, now := After(base, context, s, init), After(base, context, s, more);
    var before, p := SentTo(register, was.writes), Pending(base, context, init);
    SentBy(base, context, was, e);
    OneEqual(p, 0);
    match e
    case Interrupt(irq) =>
      Cancel(before + One(irq), One(p), multiset{});
      assert before + One(p) + One(irq) == before + One(irq) + One(p);
    case Store(_, value) =>
      if CompletesFor(base, context, e) {
        OneEqual(value, p);
        Cancel(before, One(value), One(p));
        assert Pending(base, context, more) == 0 && SentTo(register, now.writes) == before + One(value);
        assert before + One(value) + One(0) == before + One(value) && Claimed(more) == Claimed(init);
      }
    case Load(_) =>
  }

  /** A store adds its value to what a claim register was sent exactly if it names that register. */
  lemma SentBy(base: nat, context: nat, s: State, e: Event)
    requires StateOk(s) && context < MAX_CONTEXT_NUM
    ensures SentTo(ClaimRegister(base, context), Next(base, context, s, e).writes)
         == SentTo(ClaimRegister(base, context), s.writes)
            + (if CompletesFor(base, context, e) then One(e.value) else multiset{})
  {
    hide ClaimRegister, One;
    if e.Store? {
      var writes := Next(base, context, s, e).writes;
      if CompletesFor(base, context, e) { Mailbox(base, s, context, e.value); }
      if writes != s.writes {
        assert writes == s.writes + [(e.address, e.value)];
        assert writes[..|writes| - 1] == s.writes;
      }
    }
  }

  lemma OneEqual(a: nat, b: nat)
    ensures One(a) == One(b) <==> a == b
    ensures One(0) == multiset{}
  {
    if One(a) == One(b) {
      assert a in One(a) <==> a in One(b);
      assert b in One(a) <==> b in One(b);
    }
  }

  lemma Cancel(a: multiset<nat>, x: multiset<nat>, y: multiset<nat>)
    ensures a + x == a + y <==> x == y
  {
    if a + x == a + y {
      forall e: nat
        ensures x[e] == y[e]
      {
        assert (a + x)[e] == (a + y)[e];
      }
    }
  }

  /** In time, by positions, is that no delivery finds an interrupt pending. */
  lemma InTimeExactly(base: nat, context: nat, events: seq<Event>)
    ensures InTime(base, context, events)
       <==> forall k :: 0 <= k < |events| && events[k].Interrupt? ==> Pending(base, context, events[..k]) == 0
  {
    hide CompletesFor, Pending;
    if InTime(base, context, events) {
      forall j | 0 <= j < |events| && events[j].Interrupt?
        ensures Pending(base, context, events[..j]) == 0
      {
        if Pending(base, context, events[..j]) != 0 {
          var i := PendingSource(base, context, events, j);
          assert false;
        }
      }
    }
    if forall k :: 0 <= k < |events| && events[k].Interrupt? ==> Pending(base, context, events[..k]) == 0 {
      forall i, j | 0 <= i < j < |events| && events[i].Interrupt? && events[i].irq != 0 && events[j].Interrupt?
        ensures exists k :: i < k < j && CompletesFor(base, context, events[k])
      {
        if !exists k :: i < k < j && CompletesFor(base, context, events[k]) {
          Persists(base, context, events, i, j);
          assert false;
        }
      }
    }
  }

  /** A pending interrupt was delivered, and not completed since. */
  lemma {:induction false} PendingSource(base: nat, context: nat, events: seq<Event>, j: nat) returns (i: nat)
    requires j <= |events| && Pending(base, context, events[..j]) != 0
    ensures i < j && events[i].Interrupt? && events[i].irq != 0
    ensures forall k :: i < k < j ==> !CompletesFor(base, context, events[k])
    decreases j
  {
    hide CompletesFor;
    assert j > 0 && events[..j][..j - 1] == events[..j - 1];
    if events[j - 1].Interrupt? {
      i := j - 1;
    } else {
      i := PendingSource(base, context, events, j - 1);
    }
  }

  /** A delivered interrupt stays pending while it is neither completed nor overwritten. */
  lemma {:induction false} Persists(base: nat, context: nat, events: seq<Event>, i: nat, m: nat)
    requires i < m <= |events| && events[i].Interrupt? && events[i].irq != 0
    requires forall k :: i < k < m ==> !CompletesFor(base, context, events[k])
    requires forall k :: i < k < m && events[k].Interrupt? ==> Pending(base, context, events[..k]) == 0
    ensures Pending(base, context, events[..m]) == events[i].irq
    decreases m
  {
    hide CompletesFor;
    assert events[..m][..m - 1] == events[..m - 1];
    if m > i + 1 { Persists(base, context, events, i, m - 1); }
  }

  /** The guest claims an interrupt and completes another: its claim is cleared, yet the hardware is sent
      the other, and the interrupt is never completed there. */
  lemma WrongCompletion(base: nat, context: nat, s: State, irq: u32, value: nat)
    requires StateOk(s) && context < MAX_CONTEXT_NUM && irq != 0 && value != irq
    ensures var events := [Interrupt(irq), Store(ClaimRegister(base, context), value)];
            var s' := After(base, context, s, events);
            && s'.claim[context] == 0 && s'.writes == s.writes + [(ClaimRegister(base, context), value)]
            && !Accounted(base, context, s, events)
  {
    hide WriteSpec, ClaimRegister, Accounted;
    var events := [Interrupt(irq), Store(ClaimRegister(base, context), value)];
    assert events[..1] == [Interrupt(irq)] && events[..2] == events;
    AfterTwo(base, context, s, events[0], events[1]);
    Mailbox(base, Deliver(s, context, irq), context, value);
    FirstAccounted(base, context, s, irq);
    assert Pending(base, context, [Interrupt(irq)]) == irq;
    assert CompletesFor(base, context, events[1]);
    AccountedStep(base, context, s, events, 1);
  }

  /** A second delivery overwrites the first, which the guest then never sees. */
  lemma Overwritten(base: nat, context: nat, s: State, irq: u32, next: u32)
    requires StateOk(s) && context < MAX_CONTEXT_NUM && irq != 0
    ensures var events := [Interrupt(irq), Interrupt(next)];
            && After(base, context, s, events).claim[context] == next
            && !Accounted(base, context, s, events)
  {
    hide ClaimRegister, Accounted;
    var events := [Interrupt(irq), Interrupt(next)];
    assert events[..1] == [Interrupt(irq)] && events[..2] == events;
    AfterTwo(base, context, s, events[0], events[1]);
    FirstAccounted(base, context, s, irq);
    assert Pending(base, context, [Interrupt(irq)]) == irq;
    AccountedStep(base, context, s, events, 1);
  }

  lemma FirstAccounted(base: nat, context: nat, s: State, irq: u32)
    requires StateOk(s) && context < MAX_CONTEXT_NUM
    ensures Accounted(base, context, s, [Interrupt(irq)])
  {
    hide ClaimRegister;
    var events := [Interrupt(irq)];
    assert events[..0] == [] && events[..1] == events;
    assert Pending(base, context, []) == 0 && !CompletesFor(base, context, events[0]);
    AccountedStep(base, context, s, events, 0);
  }

  lemma AfterTwo(base: nat, context: nat, s: State, e1: Event, e2: Event)
    requires StateOk(s) && context < MAX_CONTEXT_NUM
    ensures After(base, context, s, [e1, e2]) == Next(base, context, Next(base, context, s, e1), e2)
  {
    hide Next;
    assert [e1, e2][..1] == [e1] && [e1][..0] == [];
    assert After(base, context, s, [e1]) == Next(base, context, s, e1);
  }
}
