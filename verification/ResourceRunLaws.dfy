/** What holds of every run of `ResourceRuns`, from any start without states and bindings. */
module ResourceRunLaws {
  import opened Kinds
  import opened HostStorage
  import opened Resources
  import opened Registry
  import opened ResourceRuns

  lemma ThreadKeeps(s: System, e: Event)
    requires Inv(s) && !e.Issue? && e.thread < |s.threads|
    ensures Inv(DoThread(s, e, e.thread, s.threads[e.thread]))
  {
    var t, x := e.thread, s.threads[e.thread];
    hide Inv, Deactivated, Less, Reserved, DropRef;
    if !x.Idle? { HolderFinds(s, t, x.token); }
    match e {
      case Issue(_, _, _) =>
      case Acquire(_, token, contextNeeded) =>
        if x == Idle && Found(s.states, token) { RaiseKeeps(s, t, token, Pinned(token)); }
      case Unpin(_) => if x.Pinned? { DropKeeps(s, t, x.token, Idle); }
      case Deactivate(_, token) =>
        if x == Idle && Found(s.states, token) && s.states[token].active { DeactivateKeeps(s, t, token); }
      case FinishRelease(_) => if x.Releasing? { DropKeeps(s, t, x.token, Idle); }
      case Lock(_) => if x.Pinned? && !s.states[x.token].locked { LockKeeps(s, t, x.token); }
      case Unlock(_) => if x.Txn? { UnlockKeeps(s, t, x.token, x.copy); }
      case Configure(_, limits, failAt) =>
        if x.Pinned? && !s.states[x.token].locked { ConfigureKeeps(s, t, x.token, limits, failAt); }
      case ChargeOnly(_, vectorBytes, units) =>
        if x.Txn? && Fits(x.copy.live, x.copy.work, s.states[x.token].limits, vectorBytes, 0, units) { ChargeKeeps(s, t, x.token, x.copy, units); }
      case Reserve(_, vectorBytes, bytes, units, purpose, hostFails) =>
        if x.Txn? && bytes > 0 { ReserveKeeps(s, t, x.token, x.copy, vectorBytes, bytes, units, purpose, hostFails); }
      case Bind(_) => if x.Retained? { BindKeeps(s, t); }
      case Book(_) => if x.Unbooked? { BookKeeps(s, t); }
      case TakeInTxn(_, a, purpose) =>
        if x.Txn? && a.owner == x.token && Matches(s.buffers, a, purpose) { TakeInTxnKeeps(s, t, a, purpose); }
      case Repay(_) => if x.Consumed? { RepayKeeps(s, t); }
      case DropRepaid(_) => if x.Repaid? { DropKeeps(s, t, x.token, Txn(x.token, x.copy)); }
      case _ => RefundKeeps(s, e);
    }
  }

  lemma RefundKeeps(s: System, e: Event)
    requires Inv(s) && (e.Take? || e.Remove? || e.PinOwing? || e.Pay? || e.UnpinPaid? || e.DropPaid?) && e.thread < |s.threads|
    ensures Inv(DoThread(s, e, e.thread, s.threads[e.thread]))
  {
    var t, x := e.thread, s.threads[e.thread];
    hide Inv, Less, Reserved, DropRef, Deactivated, ValidAddress;
    if !x.Idle? { HolderFinds(s, t, x.token); }
    match e {
      case Take(_, a, purpose) =>
        if x == Idle && Matches(s.buffers, a, purpose) { TakeKeeps(s, t, a.storage - 1, s.buffers[a.storage - 1].(active := false)); }
      case Remove(_, storage) =>
        if ValidAddress(s.buffers, storage) && (s.buffers[storage - 1].active ==> x == Idle) {
          var b := s.buffers[storage - 1].(registered := false, active := false);
          if s.buffers[storage - 1].active { TakeKeeps(s, t, storage - 1, b); } else { RemoveKeeps(s, storage - 1, b); }
        }
      case PinOwing(_) => if x.Owing? { RaiseKeeps(s, t, x.token, OwingPinned(x.token, x.bytes)); }
      case Pay(_) => if x.OwingPinned? && !s.states[x.token].locked { PayKeeps(s, t); }
      case UnpinPaid(_) => if x.PaidPinned? { DropKeeps(s, t, x.token, Paid(x.token)); }
      case DropPaid(_) => if x.Paid? { DropKeeps(s, t, x.token, Idle); }
      case _ =>
    }
  }

  lemma DoKeeps(s: System, e: Event)
    requires Inv(s)
    ensures Inv(Do(s, e))
  {
    if e.Issue? {
      if s.nextToken != 0 && e.base <= SIZE_MAX { IssueKeeps(s, e.base, e.limits, e.failAt); }
    } else if e.thread < |s.threads| {
      hide Inv, DoThread;
      ThreadKeeps(s, e);
    }
  }

  lemma InitHolds(s: System)
    requires Init(s)
    ensures Inv(s)
  {
    forall token: nat ensures CountedAt(s, token) && LockedAt(s, token) && BookedAt(s, token) {
      TotalIdle(Held, s.threads, token);
      TotalIdle(Locks, s.threads, token);
      NoneBound(s.buffers, token);
    }
  }

  lemma {:induction false} NoneBound(buffers: seq<HostBuffer>, owner: nat)
    requires forall k :: 0 <= k < |buffers| ==> !buffers[k].active
    ensures ActiveCount(buffers, owner) == 0 && ActiveBytes(buffers, owner) == 0
  {
    if buffers != [] { NoneBound(buffers[..|buffers| - 1], owner); }
  }

  lemma {:induction false} RunKeeps(s: System, run: seq<Event>)
    requires Inv(s)
    ensures Inv(Exec(s, run))
  {
    hide Inv, Do;
    if run != [] {
      RunKeeps(s, run[..|run| - 1]);
      DoKeeps(Exec(s, run[..|run| - 1]), run[|run| - 1]);
    }
  }

  // ---------------------------------------------------------------- reference counts and tokens

  /**
   In every reachable state, a token has a state exactly while something refers to it, and its count is the
   number of those references: its context, pins and owner references held by threads, and bound allocations.
   */
  lemma ReferencesCounted(s: System, run: seq<Event>, token: nat)
    requires Init(s)
    ensures var r := Exec(s, run);
            && (token in r.states <==> Expected(r, token) > 0)
            && (token in r.states ==> r.states[token].refs == Expected(r, token))
            && (token !in r.states ==> Expected(r, token) == 0)
  {
    InitHolds(s);
    RunKeeps(s, run);
    assert CountedAt(Exec(s, run), token);
  }

  /** Whoever holds a reference, thread or binding, finds the state: no refund is lost to a missing owner. */
  lemma NoDanglingReference(s: System, run: seq<Event>)
    requires Init(s)
    ensures var r := Exec(s, run);
            && (forall t: nat :: t < |r.threads| && !r.threads[t].Idle? ==> Found(r.states, r.threads[t].token))
            && (forall k: nat :: k < |r.buffers| && r.buffers[k].active ==> Found(r.states, r.buffers[k].owner))
  {
    InitHolds(s);
    RunKeeps(s, run);
    var r := Exec(s, run);
    hide Exec, Inv, Init;
    forall t: nat | t < |r.threads| && !r.threads[t].Idle? ensures Found(r.states, r.threads[t].token) {
      HolderFinds(r, t, r.threads[t].token);
    }
    forall k: nat | k < |r.buffers| && r.buffers[k].active ensures Found(r.states, r.buffers[k].owner) {
      BindingFinds(r, k);
    }
  }

  lemma RetiredGrows(s: System, e: Event)
    requires Inv(s)
    ensures s.retired <= Do(s, e).retired
    ensures forall token :: token in s.states ==> token in Do(s, e).states || token in Do(s, e).retired
    ensures forall token :: token in Do(s, e).states && token !in s.states ==> e.Issue? && token == s.nextToken
    ensures Do(s, e).nextToken == s.nextToken || Do(s, e).nextToken == NextToken(s.nextToken)
  {
  }

  /** A destroyed state is never found again and its token is never issued again. */
  lemma {:induction false} RetiredForever(s: System, run: seq<Event>, token: nat)
    requires Inv(s) && token in s.retired
    ensures var r := Exec(s, run); token in r.retired && token !in r.states && r.nextToken != token
  {
    hide Do;
    RunKeeps(s, run);
    if run != [] {
      RetiredForever(s, run[..|run| - 1], token);
      RunKeeps(s, run[..|run| - 1]);
      RetiredGrows(Exec(s, run[..|run| - 1]), run[|run| - 1]);
    }
  }

  /** A context that was given up: its state is inactive, or already destroyed. */
  ghost predicate GivenUp(s: System, token: nat) {
    token in s.retired || (token in s.states && !s.states[token].active)
  }

  lemma GivenUpStep(s: System, e: Event, token: nat)
    requires Inv(s) && GivenUp(s, token)
    ensures GivenUp(Do(s, e), token)
  {
  }

  /** No one acquires a context again after it was given up, nor gives it up twice, whatever happens in between. */
  lemma {:induction false} GivenUpForever(s: System, run: seq<Event>, token: nat)
    requires Inv(s) && token in s.states && !s.states[token].active
    ensures var r := Exec(s, run);
            && (token in r.states ==> !r.states[token].active) && (token !in r.states ==> token in r.retired)
            && (forall t: nat :: Do(r, Acquire(t, token, true)) == r && Do(r, Deactivate(t, token)) == r)
  {
    GivenUpRun(s, run, token);
    RunKeeps(s, run);
  }

  lemma {:induction false} GivenUpRun(s: System, run: seq<Event>, token: nat)
    requires Inv(s) && GivenUp(s, token)
    ensures GivenUp(Exec(s, run), token)
  {
    hide Do, Inv;
    if run != [] {
      GivenUpRun(s, run[..|run| - 1], token);
      RunKeeps(s, run[..|run| - 1]);
      GivenUpStep(Exec(s, run[..|run| - 1]), run[|run| - 1], token);
    }
  }

  /** An issued token is new: no state, live or destroyed, ever had it. */
  lemma TokensUnique(s: System, run: seq<Event>, e: Event)
    requires Init(s) && e.Issue?
    ensures var r := Exec(s, run);
            r.nextToken != 0 && e.base <= SIZE_MAX ==>
              && r.nextToken !in r.states && r.nextToken !in r.retired
              && r.nextToken in Do(r, e).states && Do(r, e).states[r.nextToken].refs == 1
  {
    InitHolds(s);
    RunKeeps(s, run);
  }

  // ---------------------------------------------------------------- the ledger

  /**
   In every reachable state without an open transaction, the live bytes of a state are the bytes it was created
   with, its active bindings, and the refunds under way.
   */
  lemma LedgerBalances(s: System, run: seq<Event>, token: nat)
    requires Init(s)
    ensures var r := Exec(s, run);
            token in r.states && !r.states[token].locked ==>
              && r.states[token].record.live == r.states[token].base + ActiveBytes(r.buffers, token) + Total(InFlight, r.threads, token)
              && Total(InFlight, r.threads, token) >= 0
  {
    InitHolds(s);
    RunKeeps(s, run);
    var r := Exec(s, run);
    hide Exec, Init;
    if token in r.states && !r.states[token].locked {
      assert BookedAt(r, token);
      Unlocked(r, token);
      forall t | 0 <= t < |r.threads| ensures Weigh(InFlight, r.threads[t], token) >= 0 {}
      TotalAtLeast(InFlight, r.threads, token);
    }
  }

  /** When every thread is idle, live bytes are exactly the initial bytes and the bound bytes. */
  lemma QuiescentLedger(s: System, run: seq<Event>, token: nat)
    requires Init(s) && token in Exec(s, run).states
    requires forall t :: 0 <= t < |Exec(s, run).threads| ==> Exec(s, run).threads[t] == Idle
    ensures var r := Exec(s, run);
            && r.states[token].record.live == r.states[token].base + ActiveBytes(r.buffers, token)
            && r.states[token].refs == (if r.states[token].active then 1 else 0) + ActiveCount(r.buffers, token)
  {
    InitHolds(s);
    RunKeeps(s, run);
    var r := Exec(s, run);
    hide Exec, Init;
    TotalIdle(Held, r.threads, token);
    TotalIdle(Locks, r.threads, token);
    TotalIdle(InFlight, r.threads, token);
    assert BookedAt(r, token) && CountedAt(r, token) && LockedAt(r, token);
  }

  /** Work and ordinals of a state never decrease. */
  lemma WorkStep(s: System, e: Event, token: nat)
    requires Inv(s) && token in s.states && token in Do(s, e).states
    ensures Do(s, e).states[token].record.work >= s.states[token].record.work
    ensures Do(s, e).states[token].record.ordinal >= s.states[token].record.ordinal
    ensures Do(s, e).states[token].base == s.states[token].base
  {
    if !e.Issue? && e.thread < |s.threads| {
      assert CopyOk(s, e.thread);
    }
  }

  lemma {:induction false} WorkMonotone(s: System, run: seq<Event>, token: nat)
    requires Inv(s) && token in s.states && token in Exec(s, run).states
    ensures Exec(s, run).states[token].record.work >= s.states[token].record.work
    ensures Exec(s, run).states[token].base == s.states[token].base
  {
    hide Do, Inv;
    if run != [] {
      var before := Exec(s, run[..|run| - 1]);
      RunKeeps(s, run[..|run| - 1]);
      if token !in before.states { GoneStays(s, run[..|run| - 1], run[|run| - 1], token); }
      WorkMonotone(s, run[..|run| - 1], token);
      WorkStep(before, run[|run| - 1], token);
    }
  }

  /** A state that disappeared on the way does not come back. */
  lemma {:induction false} Departed(s: System, run: seq<Event>, token: nat)
    requires Inv(s) && token in s.states && token !in Exec(s, run).states
    ensures token in Exec(s, run).retired
  {
    hide Do;
    if run != [] {
      var before := Exec(s, run[..|run| - 1]);
      RunKeeps(s, run[..|run| - 1]);
      RetiredGrows(before, run[|run| - 1]);
      if token !in before.states { Departed(s, run[..|run| - 1], token); }
    }
  }

  lemma GoneStays(s: System, run: seq<Event>, e: Event, token: nat)
    requires Inv(s) && token in s.states && token !in Exec(s, run).states
    ensures token !in Do(Exec(s, run), e).states
  {
    hide Do;
    RunKeeps(s, run);
    DoKeeps(Exec(s, run), e);
    Departed(s, run, token);
    RetiredGrows(Exec(s, run), e);
  }

  // ---------------------------------------------------------------- bindings

  /** A binding is taken at most once, and while it lasts its owner and bytes are fixed. */
  lemma BindingStep(s: System, e: Event, k: nat)
    requires k < |s.buffers|
    ensures var after := Do(s, e).buffers;
            && |after| >= |s.buffers|
            && (!s.buffers[k].active ==> !after[k].active)
            && after[k].owner == s.buffers[k].owner && after[k].bytes == s.buffers[k].bytes
  {
  }

  /** Taking a binding, by consuming it or by removing its buffer, is what makes the taking thread owe its bytes. */
  lemma TakingOwes(s: System, e: Event, k: nat)
    requires Inv(s) && k < |s.buffers| && s.buffers[k].active && !Do(s, e).buffers[k].active
    ensures !e.Issue? && e.thread < |s.threads|
    ensures var x := Do(s, e).threads[e.thread];
            && (x.Owing? || x.Consumed?) && x.token == s.buffers[k].owner && x.bytes == s.buffers[k].bytes
    ensures forall j: nat :: j < |s.buffers| && j != k ==> Do(s, e).buffers[j] == s.buffers[j]
  {
  }

  lemma {:induction false} TakenForever(s: System, run: seq<Event>, k: nat)
    requires k < |s.buffers| && !s.buffers[k].active
    ensures k < |Exec(s, run).buffers| && !Exec(s, run).buffers[k].active
  {
    hide Do;
    if run != [] {
      TakenForever(s, run[..|run| - 1], k);
      BindingStep(Exec(s, run[..|run| - 1]), run[|run| - 1], k);
    }
  }

  /** Owed bytes come off the record exactly, never more than it holds. */
  lemma PaymentExact(s: System, e: Event)
    requires Inv(s) && e.Pay? && e.thread < |s.threads| && s.threads[e.thread].OwingPinned?
    ensures var x := s.threads[e.thread];
            x.token in s.states && (!s.states[x.token].locked ==>
              && x.token in Do(s, e).states
              && Do(s, e).states[x.token].record.live + x.bytes == s.states[x.token].record.live)
  {
    var x := s.threads[e.thread];
    HolderFinds(s, e.thread, x.token);
    if !s.states[x.token].locked { PayKeeps(s, e.thread); }
  }

  /** New limits are in force from the event that sets them, and nothing else changes. */
  lemma ConfigureExact(s: System, t: nat, token: nat, limits: Limits, failAt: Option<nat>)
    requires Inv(s) && t < |s.threads| && s.threads[t] == Pinned(token)
    ensures var r := Do(s, Configure(t, limits, failAt));
            && token in s.states && token in r.states
            && (s.states[token].locked ==> r == s)
            && (!s.states[token].locked ==> r.states[token].limits == limits && r.states[token].failAt == failAt)
            && r.states[token].record == s.states[token].record && r.states[token].refs == s.states[token].refs
            && r.states.Keys == s.states.Keys && (forall o :: o in s.states && o != token ==> r.states[o] == s.states[o])
            && r.buffers == s.buffers && r.threads == s.threads
  {
    HolderFinds(s, t, token);
    hide Inv;
  }

  // ---------------------------------------------------------------- admissions

  /** A refused reservation leaves the copy's live bytes and work alone; at most its ordinal is used up. */
  lemma RefusalKeepsLedger(s: System, e: Event)
    requires Inv(s) && e.Reserve? && e.thread < |s.threads| && s.threads[e.thread].Txn?
    requires !Do(s, e).threads[e.thread].Retained?
    ensures var x, y := s.threads[e.thread], Do(s, e).threads[e.thread];
            && y.Txn? && y.copy.live == x.copy.live && y.copy.work == x.copy.work
            && x.copy.ordinal <= y.copy.ordinal <= x.copy.ordinal + 1
            && Do(s, e).states == s.states && Do(s, e).buffers == s.buffers
  {
  }

  /** From the reservation until the transaction ends, an accepted charge respects the limits in force. */
  lemma AdmissionWithinLimits(s: System, run: seq<Event>, t: nat)
    requires Init(s)
    ensures var r := Exec(s, run);
            t < |r.threads| && (r.threads[t].Retained? || r.threads[t].Unbooked?) ==>
              var x := r.threads[t];
              && x.token in r.states && r.states[x.token].locked
              && Within(x.charged.live, r.states[x.token].limits.liveBytes)
              && Within(x.charged.work, r.states[x.token].limits.workUnits)
              && x.charged.live == x.copy.live + x.bytes <= SIZE_MAX
  {
    InitHolds(s);
    RunKeeps(s, run);
    var r := Exec(s, run);
    hide Exec, Init;
    if t < |r.threads| && (r.threads[t].Retained? || r.threads[t].Unbooked?) {
      HolderAlone(r, t, r.threads[t].token);
      assert CopyOk(r, t);
    }
  }

  /**
   In every run, the event that is accepted next respects every limit configured at that moment: a reservation the
   vector, live and work limits, a charge for work alone the same with no bytes.
   */
  lemma AcceptedWithinLimits(s: System, run: seq<Event>, e: Event)
    requires Init(s)
    ensures var r, g := Exec(s, run), Do(Exec(s, run), e);
            (e.Reserve? || e.ChargeOnly?) && e.thread < |r.threads| && r.threads[e.thread].Txn?
            && (g.threads[e.thread].Retained? || (e.ChargeOnly? && g.threads[e.thread] != r.threads[e.thread])) ==>
              var x, y := r.threads[e.thread], g.threads[e.thread];
              var charged := if y.Retained? then y.charged else y.copy;
              && x.token in r.states && r.states[x.token].locked
              && charged.live == x.copy.live + (if e.Reserve? then e.bytes else 0) <= SIZE_MAX
              && charged.work == x.copy.work + e.units <= SIZE_MAX
              && Within(charged.live, r.states[x.token].limits.liveBytes)
              && Within(charged.work, r.states[x.token].limits.workUnits)
              && (e.vectorBytes.Some? ==> Within(e.vectorBytes.value, r.states[x.token].limits.vectorBytes))
  {
    InitHolds(s);
    RunKeeps(s, run);
    var r := Exec(s, run);
    hide Exec, Init, Inv;
    if !e.Issue? && e.thread < |r.threads| && r.threads[e.thread].Txn? {
      HolderAlone(r, e.thread, r.threads[e.thread].token);
    }
  }
}
