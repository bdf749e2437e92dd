/**
 The operations of one context against the events of the whole system.  An operation that runs alone between two
 points of its thread does to its context what its critical sections do as events of a run, so that everything proved
 of all runs holds of the operations: src/resources.cpp:1213-1362, 1536-1646, 1692-1801, 2846-3010.
 */
module LedgerRefinement {
  import opened Kinds
  import opened HostStorage
  import opened AccountRelease
  import opened ValueArenas
  import opened Resources
  import opened Registry
  import opened ResourceRuns

  function BookOf(r: Record): Book {
    Book.Book(r.live, r.work, r.ordinal)
  }

  /** A context that an evaluator works on is one state of the system, and the buffers are shared. */
  ghost predicate Mirrors(res: EvaluationResources, s: System, t: nat)
    reads res, res.host, res.state
  {
    && t < |s.threads| && s.threads[t] == Pinned(res.state.token) && res.state.token in s.states
    && var st := s.states[res.state.token];
       && !st.locked && InRange(st.record) && res.Ledger() == BookOf(st.record)
       && st.refs == res.state.refs && st.limits == res.limits && st.failAt == res.failAt
       && s.buffers == res.host.buffers
  }

  // ---------------------------------------------------------------- events of one operation

  function AdmissionEvents(t: nat, vectorBytes: Option<nat>, bytes: nat, units: nat, purpose: Purpose, hostFails: bool): seq<Event> {
    if bytes == 0 then [Lock(t), ChargeOnly(t, vectorBytes, units), Unlock(t)]
    else [Lock(t), Reserve(t, vectorBytes, bytes, units, purpose, hostFails), Bind(t), Event.Book(t), Unlock(t)]
  }

  function ReleaseEvents(t: nat, a: Account, purpose: Purpose): seq<Event> {
    if a.bytes == 0 then []
    else [Lock(t), TakeInTxn(t, a, purpose), Repay(t), DropRepaid(t), Remove(t, a.storage), Unlock(t)]
  }

  lemma ThreeEvents(s: System, a: Event, b: Event, c: Event)
    ensures Exec(s, [a, b, c]) == Do(Do(Do(s, a), b), c)
  {
    hide Do;
    assert [a, b, c] == [a] + ([b] + [c]);
    ExecAppend(s, [a], [b] + [c]);
    ExecAppend(Exec(s, [a]), [b], [c]);
    ExecOne(s, a);
    ExecOne(Do(s, a), b);
    ExecOne(Do(Do(s, a), b), c);
  }

  lemma ExecOne(s: System, a: Event)
    ensures Exec(s, [a]) == Do(s, a) && Exec(s, []) == s
  {
    hide Do;
    assert [a][..0] == [];
  }

  lemma {:induction false} ExecAppend(s: System, x: seq<Event>, y: seq<Event>)
    ensures Exec(s, x + y) == Exec(Exec(s, x), y)
  {
    hide Do;
    if y == [] {
      assert x + y == x;
    } else {
      var n := |y| - 1;
      assert (x + y)[..|x| + n] == x + y[..n] && (x + y)[|x| + n] == y[n];
      ExecAppend(s, x, y[..n]);
    }
  }

  lemma FiveEvents(s: System, a: Event, b: Event, c: Event, d: Event, e: Event)
    ensures Exec(s, [a, b, c, d, e]) == Do(Do(Do(Do(Do(s, a), b), c), d), e)
  {
    hide Do;
    assert [a, b, c, d, e] == [a] + ([b] + [c, d, e]);
    ExecAppend(s, [a], [b] + [c, d, e]);
    ExecAppend(Do(s, a), [b], [c, d, e]);
    ExecOne(s, a);
    ExecOne(Do(s, a), b);
    ThreeEvents(Do(Do(s, a), b), c, d, e);
  }

  lemma SixEvents(s: System, a: Event, b: Event, c: Event, d: Event, e: Event, f: Event)
    ensures Exec(s, [a, b, c, d, e, f]) == Do(Do(Do(Do(Do(Do(s, a), b), c), d), e), f)
  {
    hide Do;
    assert [a, b, c, d, e, f] == [a, b, c] + [d, e, f];
    ExecAppend(s, [a, b, c], [d, e, f]);
    ThreeEvents(s, a, b, c);
    ThreeEvents(Do(Do(Do(s, a), b), c), d, e, f);
  }

  // ---------------------------------------------------------------- what the events do

  /** The state of `token` with a new record and new references, everything else as it was. */
  function Settled(s: System, token: nat, after: Book, refs: nat, buffers: seq<HostBuffer>): System
    requires token in s.states
  {
    s.(states := s.states[token := s.states[token].(refs := refs, record := Record(after.live, after.work, after.ordinal))], buffers := buffers)
  }

  /** The critical sections of an admission book what `Booked` says, and bind a buffer exactly when it succeeds. */
  lemma AdmissionRun(s: System, t: nat, vectorBytes: Option<nat>, bytes: nat, units: nat, purpose: Purpose, hostFails: bool)
    requires t < |s.threads| && s.threads[t].Pinned? && s.threads[t].token in s.states
    requires var st := s.states[s.threads[t].token]; !st.locked && InRange(st.record)
    ensures var token := s.threads[t].token;
            var st := s.states[token];
            var (why, after) := Booked(BookOf(st.record), st.limits, st.failAt, vectorBytes, bytes, units, hostFails);
            var bound := why == None && bytes != 0;
            Exec(s, AdmissionEvents(t, vectorBytes, bytes, units, purpose, hostFails)) ==
              Settled(s, token, after, if bound then st.refs + 1 else st.refs,
                      if bound then s.buffers + [Bound(bytes, token, st.record.ordinal, purpose)] else s.buffers)
  {
    if bytes == 0 {
      ThreeEvents(s, Lock(t), ChargeOnly(t, vectorBytes, units), Unlock(t));
      ChargeRun(s, t, vectorBytes, units, purpose, hostFails);
    } else {
      FiveEvents(s, Lock(t), Reserve(t, vectorBytes, bytes, units, purpose, hostFails), Bind(t), Event.Book(t), Unlock(t));
      ReserveRun(s, t, vectorBytes, bytes, units, purpose, hostFails);
    }
    hide Do, Booked, Settled, Exec;
  }

  lemma ChargeRun(s: System, t: nat, vectorBytes: Option<nat>, units: nat, purpose: Purpose, hostFails: bool)
    requires t < |s.threads| && s.threads[t].Pinned? && s.threads[t].token in s.states
    requires var st := s.states[s.threads[t].token]; !st.locked && InRange(st.record)
    ensures var token := s.threads[t].token;
            var st := s.states[token];
            var (_, after) := Booked(BookOf(st.record), st.limits, st.failAt, vectorBytes, 0, units, hostFails);
            Do(Do(Do(s, Lock(t)), ChargeOnly(t, vectorBytes, units)), Unlock(t)) == Settled(s, token, after, st.refs, s.buffers)
  {
    var token := s.threads[t].token;
    var st := s.states[token];
    var s1 := Do(s, Lock(t));
    assert s1.threads[t] == Txn(token, st.record) && s1.states[token] == st.(locked := true);
    var s2 := Do(s1, ChargeOnly(t, vectorBytes, units));
    assert s2.threads[t].Txn? && s2.threads[t].token == token && s2.states == s1.states;
    Back(s, s2, t, token, s2.threads[t].copy);
  }

  lemma LockStep(s: System, t: nat)
    requires t < |s.threads| && s.threads[t].Pinned? && s.threads[t].token in s.states && !s.states[s.threads[t].token].locked
    ensures var token := s.threads[t].token;
            var st := s.states[token];
            Do(s, Lock(t)) == s.(threads := s.threads[t := Txn(token, st.record)], states := s.states[token := st.(locked := true)])
  {
  }

  /** Unlocking writes the copy back and leaves nothing else behind. */
  lemma Back(s: System, s': System, t: nat, token: nat, copy: Record)
    requires t < |s.threads| && s.threads[t] == Pinned(token) && token in s.states && !s.states[token].locked
    requires |s'.threads| == |s.threads| && s'.threads == s.threads[t := Txn(token, copy)] && token in s'.states
    requires s'.states == s.states[token := s'.states[token]] && s'.retired == s.retired && s'.nextToken == s.nextToken
    requires s'.states[token] == s.states[token].(locked := true, refs := s'.states[token].refs)
    ensures Do(s', Unlock(t)) == Settled(s, token, BookOf(copy), s'.states[token].refs, s'.buffers)
  {
    var g := Do(s', Unlock(t));
    assert g.threads == s.threads;
    assert g.states == s.states[token := s.states[token].(refs := s'.states[token].refs, record := copy)];
  }

  lemma ReserveRun(s: System, t: nat, vectorBytes: Option<nat>, bytes: nat, units: nat, purpose: Purpose, hostFails: bool)
    requires t < |s.threads| && s.threads[t].Pinned? && s.threads[t].token in s.states && bytes > 0
    requires var st := s.states[s.threads[t].token]; !st.locked && InRange(st.record)
    ensures var token := s.threads[t].token;
            var st := s.states[token];
            var (why, after) := Booked(BookOf(st.record), st.limits, st.failAt, vectorBytes, bytes, units, hostFails);
            Do(Do(Do(Do(Do(s, Lock(t)), Reserve(t, vectorBytes, bytes, units, purpose, hostFails)), Bind(t)), Event.Book(t)), Unlock(t)) ==
              Settled(s, token, after, if why == None then st.refs + 1 else st.refs,
                      if why == None then s.buffers + [Bound(bytes, token, st.record.ordinal, purpose)] else s.buffers)
  {
    var token := s.threads[t].token;
    var st := s.states[token];
    hide Do, Booked;
    var s1 := Do(s, Lock(t));
    LockStep(s, t);
    var s4 := Do(Do(Do(s1, Reserve(t, vectorBytes, bytes, units, purpose, hostFails)), Bind(t)), Event.Book(t));
    ReserveSteps(s1, t, vectorBytes, bytes, units, purpose, hostFails);
    assert s4.threads == s.threads[t := s4.threads[t]];
    assert s4.states == s.states[token := s4.states[token]];
    Back(s, s4, t, token, s4.threads[t].copy);
  }

  /** Inside the transaction: the copy after reserving, binding and booking. */
  lemma ReserveSteps(s: System, t: nat, vectorBytes: Option<nat>, bytes: nat, units: nat, purpose: Purpose, hostFails: bool)
    requires t < |s.threads| && s.threads[t].Txn? && s.threads[t].token in s.states && bytes > 0 && InRange(s.threads[t].copy)
    ensures var x := s.threads[t];
            var st := s.states[x.token];
            var (why, after) := Booked(BookOf(x.copy), st.limits, st.failAt, vectorBytes, bytes, units, hostFails);
            Do(Do(Do(s, Reserve(t, vectorBytes, bytes, units, purpose, hostFails)), Bind(t)), Event.Book(t)) ==
              With(s.(states := if why == None then Raised(s.states, x.token) else s.states,
                      buffers := if why == None then s.buffers + [Bound(bytes, x.token, x.copy.ordinal, purpose)] else s.buffers),
                   t, Txn(x.token, Record(after.live, after.work, after.ordinal)))
  {
    var x := s.threads[t];
    var s1 := Do(s, Reserve(t, vectorBytes, bytes, units, purpose, hostFails));
    ReserveStep(s, t, vectorBytes, bytes, units, purpose, hostFails);
    hide Do, Booked;
    if s1.threads[t].Retained? {
      BindAndBook(s1, t);
    } else {
      NothingToBind(s1, t);
    }
  }

  /** A reservation is retained with the charge that the ledger function books, or leaves the transaction where it was. */
  lemma ReserveStep(s: System, t: nat, vectorBytes: Option<nat>, bytes: nat, units: nat, purpose: Purpose, hostFails: bool)
    requires t < |s.threads| && s.threads[t].Txn? && s.threads[t].token in s.states && bytes > 0 && InRange(s.threads[t].copy)
    ensures var x := s.threads[t];
            var st := s.states[x.token];
            var (why, after) := Booked(BookOf(x.copy), st.limits, st.failAt, vectorBytes, bytes, units, hostFails);
            Do(s, Reserve(t, vectorBytes, bytes, units, purpose, hostFails)) ==
              if why.Some? then With(s, t, Txn(x.token, Record(after.live, after.work, after.ordinal)))
              else With(s.(states := Raised(s.states, x.token)), t,
                        Retained(x.token, x.copy.(ordinal := after.ordinal), Record(after.live, after.work, x.copy.ordinal), bytes, purpose))
  {
    assert s.threads[t := s.threads[t]] == s.threads;
  }

  lemma BindAndBook(s: System, t: nat)
    requires t < |s.threads| && s.threads[t].Retained?
    ensures var x := s.threads[t];
            Do(Do(s, Bind(t)), Event.Book(t)) ==
              With(s.(buffers := s.buffers + [Bound(x.bytes, x.token, x.charged.ordinal, x.purpose)]), t,
                   Txn(x.token, x.copy.(live := x.charged.live, work := x.charged.work)))
  {
    var x, s2 := s.threads[t], Do(s, Bind(t));
    assert s2.threads == s.threads[t := Unbooked(x.token, x.copy, x.charged, x.bytes)];
    var s3 := Do(s2, Event.Book(t));
    assert s3.threads == s.threads[t := s3.threads[t]];
  }

  lemma NothingToBind(s: System, t: nat)
    requires t < |s.threads| && s.threads[t].Txn?
    ensures Do(Do(s, Bind(t)), Event.Book(t)) == s
  {
  }

  /** The critical sections of a release give the bytes and the reference back and unregister the buffer. */
  lemma ReleaseRun(s: System, t: nat, a: Account, purpose: Purpose)
    requires t < |s.threads| && s.threads[t].Pinned? && s.threads[t].token in s.states
    requires var st := s.states[s.threads[t].token]; !st.locked && st.refs > 1 && a.bytes <= st.record.live
    requires a.bytes != 0 && a.owner == s.threads[t].token && Matches(s.buffers, a, purpose)
    ensures var token := s.threads[t].token;
            var st := s.states[token];
            Exec(s, ReleaseEvents(t, a, purpose)) ==
              Settled(s, token, BookOf(st.record.(live := st.record.live - a.bytes)), st.refs - 1, LeftBuffers(s.buffers, a, Release))
  {
    hide Do, Exec, Matches, LeftBuffers;
    var token := s.threads[t].token;
    var st := s.states[token];
    SixEvents(s, Lock(t), TakeInTxn(t, a, purpose), Repay(t), DropRepaid(t), Remove(t, a.storage), Unlock(t));
    var s1 := Do(s, Lock(t));
    LockStep(s, t);
    ReleaseSteps(s1, t, a, purpose);
    var s5 := Do(Do(Do(Do(s1, TakeInTxn(t, a, purpose)), Repay(t)), DropRepaid(t)), Remove(t, a.storage));
    assert s5.threads == s.threads[t := s5.threads[t]];
    assert s5.states == s.states[token := s5.states[token]];
    Back(s, s5, t, token, s5.threads[t].copy);
  }

  lemma ReleaseSteps(s: System, t: nat, a: Account, purpose: Purpose)
    requires t < |s.threads| && s.threads[t].Txn? && s.threads[t].token in s.states && s.states[s.threads[t].token].refs > 1
    requires a.owner == s.threads[t].token && Matches(s.buffers, a, purpose) && a.bytes <= s.threads[t].copy.live
    ensures var x := s.threads[t];
            Do(Do(Do(Do(s, TakeInTxn(t, a, purpose)), Repay(t)), DropRepaid(t)), Remove(t, a.storage)) ==
              With(s.(states := Dropped(s.states, x.token), buffers := LeftBuffers(s.buffers, a, Release)),
                   t, Txn(x.token, x.copy.(live := x.copy.live - a.bytes)))
  {
    var x := s.threads[t];
    var s1 := Do(s, TakeInTxn(t, a, purpose));
    assert s1.threads[t] == Consumed(x.token, x.copy, a.bytes);
    var s2 := Do(s1, Repay(t));
    assert s2.threads[t] == Repaid(x.token, x.copy.(live := x.copy.live - a.bytes));
    var s3 := Do(s2, DropRepaid(t));
    assert s3.threads == s.threads[t := s3.threads[t]] && !s3.buffers[a.storage - 1].active;
    var s4 := Do(s3, Remove(t, a.storage));
    assert s4.buffers == LeftBuffers(s.buffers, a, Release);
  }

  // ---------------------------------------------------------------- the registry

  /** The registry of the class is the one of the system. */
  ghost predicate Registers(reg: ResourceRegistry, s: System)
    reads reg
  {
    reg.states == s.states && reg.nextToken == s.nextToken
  }

  method IssueInRun(reg: ResourceRegistry, base: nat, limits: Limits, failAt: Option<nat>, ghost s: System) returns (token: nat)
    requires reg.Valid() && Registers(reg, s) && base <= SIZE_MAX
    modifies reg
    ensures reg.Valid() && Registers(reg, Do(s, Issue(base, limits, failAt)))
    ensures token == s.nextToken && (token == 0 ==> Do(s, Issue(base, limits, failAt)) == s)
  {
    token := reg.Issue(base, limits, failAt);
  }

  /** Acquiring a context or an owner, found or refused. */
  method AcquireInRun(reg: ResourceRegistry, token: nat, contextNeeded: bool, ghost s: System, ghost t: nat) returns (found: bool)
    requires reg.Valid() && Registers(reg, s) && t < |s.threads| && s.threads[t] == Idle
    modifies reg
    ensures var g := Do(s, Acquire(t, token, contextNeeded));
            && reg.Valid() && Registers(reg, g)
            && (found ==> g.threads == s.threads[t := Pinned(token)])
            && (!found ==> g == s)
  {
    found := reg.Acquire(token, contextNeeded);
  }

  /** Giving a context up: the caller is left with the context's reference. */
  method DeactivateInRun(reg: ResourceRegistry, token: nat, ghost s: System, ghost t: nat) returns (given: bool)
    requires reg.Valid() && Registers(reg, s) && t < |s.threads| && s.threads[t] == Idle
    modifies reg
    ensures var g := Do(s, Event.Deactivate(t, token));
            && reg.Valid() && Registers(reg, g)
            && (given ==> g.threads == s.threads[t := Releasing(token)])
            && (!given ==> g == s)
  {
    given := reg.Deactivate(token);
  }

  /** Giving a reference back, of a pin, of a context given up, or of the owner of a refunded buffer. */
  method ReleaseInRun(reg: ResourceRegistry, ghost s: System, ghost t: nat, token: nat)
    requires Inv(s) && reg.Valid() && Registers(reg, s) && t < |s.threads|
    requires s.threads[t] == Pinned(token) || s.threads[t] == Releasing(token) || s.threads[t] == Paid(token)
    modifies reg
    ensures var e := if s.threads[t].Pinned? then Unpin(t) else if s.threads[t].Releasing? then FinishRelease(t) else DropPaid(t);
            reg.Valid() && Registers(reg, Do(s, e)) && Do(s, e).threads == s.threads[t := Idle]
  {
    HolderFinds(s, t, token);
    hide Inv;
    reg.Release(token);
  }

  /** Taking a binding off outside a transaction: whoever does it owes the bytes. */
  method ConsumeInRun(host: HostRegistry, a: Account, purpose: Purpose, ghost s: System, ghost t: nat) returns (ok: bool)
    requires t < |s.threads| && s.threads[t] == Idle && s.buffers == host.buffers
    modifies host
    ensures var g := Do(s, Take(t, a, purpose));
            && host.buffers == g.buffers
            && g.threads == if ok then s.threads[t := Owing(a.owner, a.bytes)] else s.threads
  {
    ok := host.Consume(a, purpose);
  }

  /** Unregistering a buffer: a binding that was left on it is what the caller then owes to the owner. */
  method RemoveInRun(host: HostRegistry, storage: nat, ghost s: System, ghost t: nat) returns (abandoned: Option<(nat, nat)>)
    requires t < |s.threads| && s.threads[t] == Idle && s.buffers == host.buffers
    modifies host
    ensures var g := Do(s, Event.Remove(t, storage));
            && host.buffers == g.buffers
            && g.threads == match abandoned { case None => s.threads case Some((owner, bytes)) => s.threads[t := Owing(owner, bytes)] }
  {
    abandoned := host.Remove(storage);
  }

  // ---------------------------------------------------------------- the operations

  /** Admitting storage or work on a context is the run of its critical sections. */
  method AdmitInRun(res: EvaluationResources, vectorBytes: Option<nat>, bytes: nat, units: nat, purpose: Purpose, hostFails: bool,
                    ghost s: System, ghost t: nat)
    returns (r: Grant)
    requires res.Valid() && Mirrors(res, s, t)
    modifies res`work, res`ordinal, res.host, res.state
    ensures res.Valid() && Mirrors(res, Exec(s, AdmissionEvents(t, vectorBytes, bytes, units, purpose, hostFails)), t)
    ensures r.Granted? <==> old(res.Admissible(vectorBytes, bytes, units, hostFails))
  {
    AdmissionRun(s, t, vectorBytes, bytes, units, purpose, hostFails);
    AppendCharge(res.host.buffers, Bound(bytes, res.state.token, res.ordinal, purpose), res.state.token);
    hide Exec, Do, AdmissionEvents;
    r := res.Admit(vectorBytes, bytes, units, purpose, hostFails);
  }

  /** Giving a tuple table back is the run of its critical sections; a refusal does nothing, nor does an empty table. */
  method ReleaseTableInRun(res: EvaluationResources, reservation: Reservation, ghost s: System, ghost t: nat) returns (ok: bool)
    requires res.Valid() && res.Unbound() >= 0 && res.OtherReferences() >= 1 && Mirrors(res, s, t)
    modifies res.host, res.state
    ensures ok <==> reservation == NO_RESERVATION || old(res.TableReleasable(reservation))
    ensures Mirrors(res, if ok then Exec(s, ReleaseEvents(t, reservation.account, TupleTable)) else s, t)
  {
    ghost var a := reservation.account;
    ExecOne(s, Lock(t));
    if res.TableReleasable(reservation) && a.bytes != 0 {
      LeftCharge(res.host.buffers, a, res.state.token);
      ReleaseRun(s, t, a, TupleTable);
    }
    hide Exec, Do;
    var left;
    ok, left := res.ReleaseTable(reservation);
  }

  /** So is giving a vector back. */
  method ReleaseVectorInRun(res: EvaluationResources, p: Payload, owners: set<nat>, ghost s: System, ghost t: nat) returns (ok: bool)
    requires res.Valid() && res.Unbound() >= 0 && res.OtherReferences() >= 1 && Mirrors(res, s, t)
    modifies res.host, res.state
    ensures ok <==> old(res.VectorReleasable(owners, p))
    ensures Mirrors(res, if ok then Exec(s, ReleaseEvents(t, p.account, VectorPayload)) else s, t)
  {
    ExecOne(s, Lock(t));
    if res.VectorReleasable(owners, p) && p.account.bytes != 0 {
      LeftCharge(res.host.buffers, p.account, res.state.token);
      ReleaseRun(s, t, p.account, VectorPayload);
    }
    hide Exec, Do;
    ok := res.ReleaseVector(p, owners);
  }
}
