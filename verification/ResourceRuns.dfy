/**
 Every interleaving of the operations on evaluation states: src/resources.cpp:117-259, 1006-1050, 1213-1362,
 1412-1532, 1536-1646, 1692-1801 and src/host_storage.cpp:150-188, 270-300.

 Any number of threads run; each event is one critical section of the registry lock, of a bucket lock or of the
 transaction lock of one state.  A transaction works on a copy of the record and writes it back when it unlocks.
 */
module ResourceRuns {
  import opened Kinds
  import opened HostStorage
  import opened Resources
  import opened Registry

  /** What a thread is in the middle of. */
  datatype Task =
    | Idle
    | Pinned(token: nat)
    | Releasing(token: nat)                                                 // context given up, its reference not yet
    | Txn(token: nat, copy: Record)                                         // transaction lock held
    | Retained(token: nat, copy: Record, charged: Record, bytes: nat, purpose: Purpose)
    | Unbooked(token: nat, copy: Record, charged: Record, bytes: nat)       // bound, the charge not yet in the copy
    | Consumed(token: nat, copy: Record, bytes: nat)                        // binding taken inside a transaction
    | Repaid(token: nat, copy: Record)                                      // refunded, owner reference not yet dropped
    | Owing(token: nat, bytes: nat)                                         // binding taken outside a transaction
    | OwingPinned(token: nat, bytes: nat)
    | PaidPinned(token: nat)
    | Paid(token: nat)

  /** `retired` collects the tokens of destroyed states. */
  datatype System = System(states: States, nextToken: nat, buffers: seq<HostBuffer>, threads: seq<Task>, retired: set<nat>)

  datatype Event =
    | Issue(base: nat, limits: Limits, failAt: Option<nat>)
    | Acquire(thread: nat, token: nat, contextNeeded: bool)
    | Unpin(thread: nat)
    | Deactivate(thread: nat, token: nat)
    | FinishRelease(thread: nat)
    | Lock(thread: nat)
    | Unlock(thread: nat)
    | Configure(thread: nat, limits: Limits, failAt: Option<nat>)
    | ChargeOnly(thread: nat, vectorBytes: Option<nat>, units: nat)
    | Reserve(thread: nat, vectorBytes: Option<nat>, bytes: nat, units: nat, purpose: Purpose, hostFails: bool)
    | Bind(thread: nat)
    | Book(thread: nat)
    | TakeInTxn(thread: nat, account: Account, purpose: Purpose)
    | Repay(thread: nat)
    | DropRepaid(thread: nat)
    | Take(thread: nat, account: Account, purpose: Purpose)
    | Remove(thread: nat, storage: nat)
    | PinOwing(thread: nat)
    | Pay(thread: nat)
    | UnpinPaid(thread: nat)
    | DropPaid(thread: nat)

  predicate InTxn(x: Task) {
    x.Txn? || x.Retained? || x.Unbooked? || x.Consumed? || x.Repaid?
  }

  predicate Started(states: States, nextToken: nat, buffers: seq<HostBuffer>, threads: seq<Task>) {
    && states == map[] && nextToken == 1
    && (forall k :: 0 <= k < |buffers| ==> !buffers[k].active)
    && (forall t :: 0 <= t < |threads| ==> threads[t] == Idle)
  }

  ghost predicate Init(s: System) {
    Started(s.states, s.nextToken, s.buffers, s.threads) && s.retired == {}
  }

  // ---------------------------------------------------------------- events

  function With(s: System, t: nat, x: Task): System
    requires t < |s.threads|
  {
    s.(threads := s.threads[t := x])
  }

  function WithState(s: System, token: nat, st: State): System {
    s.(states := s.states[token := st])
  }

  function DropRef(s: System, token: nat): System {
    if token !in s.states || s.states[token].refs == 0 then s
    else s.(states := Dropped(s.states, token), retired := if s.states[token].refs == 1 then s.retired + {token} else s.retired)
  }

  /** src/resources.cpp:1279-1345 inside a transaction: refused, failed after taking an ordinal, or retained. */
  function Reserved(s: System, t: nat, copy: Record, token: nat, vectorBytes: Option<nat>, bytes: nat, units: nat, purpose: Purpose,
                    hostFails: bool): System
    requires t < |s.threads| && token in s.states
  {
    var st := s.states[token];
    if !Fits(copy.live, copy.work, st.limits, vectorBytes, bytes, units) || copy.ordinal >= SIZE_MAX then s
    else
      var next := copy.(ordinal := copy.ordinal + 1);
      if st.failAt == Some(copy.ordinal) || hostFails then With(s, t, Txn(token, next))
      else
        With(s.(states := Raised(s.states, token)), t,
             Retained(token, next, Record(copy.live + bytes, copy.work + units, copy.ordinal), bytes, purpose))
  }

  /**
   An event that is not possible, or whose lookup fails, changes nothing.  A buffer without an active binding can be
   removed at any time, inside a transaction too; removing a bound one pays its owner back, for which a thread must
   not hold a transaction lock (src/host_storage.cpp:178-185, src/resources.cpp:246-260).
   */
  function Do(s: System, e: Event): System {
    if e.Issue? then
      if s.nextToken == 0 || e.base > SIZE_MAX then s
      else s.(nextToken := NextToken(s.nextToken),
              states := s.states[s.nextToken := State(1, true, false, e.base, e.limits, e.failAt, Record(e.base, 0, 0))])
    else if e.thread >= |s.threads| then s
    else DoThread(s, e, e.thread, s.threads[e.thread])
  }

  function DoThread(s: System, e: Event, t: nat, x: Task): System
    requires !e.Issue? && t < |s.threads| && x == s.threads[t]
  {
    match e
    case Acquire(_, token, contextNeeded) =>
      if x == Idle && Found(s.states, token) && (contextNeeded ==> s.states[token].active)
      then With(s.(states := Raised(s.states, token)), t, Pinned(token)) else s
    case Unpin(_) => if x.Pinned? then With(DropRef(s, x.token), t, Idle) else s
    case Deactivate(_, token) =>
      if x == Idle && Found(s.states, token) && s.states[token].active
      then With(WithState(s, token, s.states[token].(active := false)), t, Releasing(token)) else s
    case FinishRelease(_) => if x.Releasing? then With(DropRef(s, x.token), t, Idle) else s
    case Lock(_) =>
      if x.Pinned? && x.token in s.states && !s.states[x.token].locked
      then With(WithState(s, x.token, s.states[x.token].(locked := true)), t, Txn(x.token, s.states[x.token].record)) else s
    case Unlock(_) =>
      if x.Txn? && x.token in s.states
      then With(WithState(s, x.token, s.states[x.token].(locked := false, record := x.copy)), t, Pinned(x.token)) else s
    case Configure(_, limits, failAt) =>
      if x.Pinned? && x.token in s.states && !s.states[x.token].locked
      then WithState(s, x.token, s.states[x.token].(limits := limits, failAt := failAt)) else s
    case ChargeOnly(_, vectorBytes, units) =>
      if x.Txn? && x.token in s.states && Fits(x.copy.live, x.copy.work, s.states[x.token].limits, vectorBytes, 0, units)
      then With(s, t, Txn(x.token, x.copy.(work := x.copy.work + units))) else s
    case Reserve(_, vectorBytes, bytes, units, purpose, hostFails) =>
      if x.Txn? && x.token in s.states && bytes > 0 then Reserved(s, t, x.copy, x.token, vectorBytes, bytes, units, purpose, hostFails) else s
    case Bind(_) =>
      if x.Retained?
      then With(s.(buffers := s.buffers + [Bound(x.bytes, x.token, x.charged.ordinal, x.purpose)]), t, Unbooked(x.token, x.copy, x.charged, x.bytes)) else s
    case Book(_) =>
      if x.Unbooked? then With(s, t, Txn(x.token, x.copy.(live := x.charged.live, work := x.charged.work))) else s
    case TakeInTxn(_, a, purpose) =>
      if x.Txn? && a.owner == x.token && Matches(s.buffers, a, purpose)
      then With(s.(buffers := Deactivated(s.buffers, a.storage - 1)), t, Consumed(x.token, x.copy, a.bytes)) else s
    case Repay(_) =>
      if x.Consumed? then With(s, t, Repaid(x.token, x.copy.(live := Less(x.copy.live, x.bytes)))) else s
    case DropRepaid(_) => if x.Repaid? then With(DropRef(s, x.token), t, Txn(x.token, x.copy)) else s
    case Take(_, a, purpose) =>
      if x == Idle && Matches(s.buffers, a, purpose)
      then With(s.(buffers := Deactivated(s.buffers, a.storage - 1)), t, Owing(a.owner, a.bytes)) else s
    case Remove(_, storage) =>
      if ValidAddress(s.buffers, storage) && (s.buffers[storage - 1].active ==> x == Idle)
      then
        var b := s.buffers[storage - 1];
        var gone := s.(buffers := s.buffers[storage - 1 := b.(registered := false, active := false)]);
        if b.active then With(gone, t, Owing(b.owner, b.bytes)) else gone
      else s
    case PinOwing(_) =>
      if x.Owing? && Found(s.states, x.token) then With(s.(states := Raised(s.states, x.token)), t, OwingPinned(x.token, x.bytes)) else s
    case Pay(_) =>
      if x.OwingPinned? && x.token in s.states && !s.states[x.token].locked
      then
        var st := s.states[x.token];
        With(WithState(s, x.token, st.(record := st.record.(live := Less(st.record.live, x.bytes)))), t, PaidPinned(x.token))
      else s
    case UnpinPaid(_) => if x.PaidPinned? then With(DropRef(s, x.token), t, Paid(x.token)) else s
    case DropPaid(_) => if x.Paid? then With(DropRef(s, x.token), t, Idle) else s
  }

  function Deactivated(buffers: seq<HostBuffer>, k: nat): seq<HostBuffer>
    requires k < |buffers|
  {
    buffers[k := buffers[k].(active := false)]
  }

  /** A refund larger than the record is skipped. */
  function Less(live: nat, bytes: nat): nat {
    if bytes <= live then live - bytes else live
  }

  function Exec(s: System, run: seq<Event>): System {
    if run == [] then s else Do(Exec(s, run[..|run| - 1]), run[|run| - 1])
  }

  // ---------------------------------------------------------------- totals over the threads

  datatype Measure = Held | Locks | InFlight

  /** References held, transaction locks held, and bytes that left the bindings but not yet the record. */
  function Weigh(m: Measure, x: Task, token: nat): int {
    if x.Idle? || x.token != token then 0
    else match m
         case Held => if x.Retained? || x.Consumed? || x.Repaid? || x.OwingPinned? || x.PaidPinned? then 2 else 1
         case Locks => if InTxn(x) then 1 else 0
         case InFlight => if x.Unbooked? then 0 - x.bytes else if x.Consumed? || x.Owing? || x.OwingPinned? then x.bytes else 0
  }

  function Total(m: Measure, ts: seq<Task>, token: nat): int {
    if ts == [] then 0 else Total(m, ts[..|ts| - 1], token) + Weigh(m, ts[|ts| - 1], token)
  }

  lemma {:induction false} TotalSet(m: Measure, ts: seq<Task>, t: nat, x: Task, token: nat)
    requires t < |ts|
    ensures Total(m, ts[t := x], token) == Total(m, ts, token) - Weigh(m, ts[t], token) + Weigh(m, x, token)
    decreases |ts|
  {
    var n := |ts| - 1;
    if t == n {
      assert ts[t := x][..n] == ts[..n];
    } else {
      TotalSet(m, ts[..n], t, x, token);
      assert ts[t := x][..n] == ts[..n][t := x];
    }
  }

  lemma {:induction false} TotalIdle(m: Measure, ts: seq<Task>, token: nat)
    requires forall t :: 0 <= t < |ts| ==> Weigh(m, ts[t], token) == 0
    ensures Total(m, ts, token) == 0
  {
    if ts != [] { TotalIdle(m, ts[..|ts| - 1], token); }
  }

  lemma {:induction false} TotalAtLeast(m: Measure, ts: seq<Task>, token: nat)
    requires forall t :: 0 <= t < |ts| ==> Weigh(m, ts[t], token) >= 0
    ensures Total(m, ts, token) >= 0
    ensures forall t :: 0 <= t < |ts| ==> Weigh(m, ts[t], token) <= Total(m, ts, token)
  {
    if ts != [] { TotalAtLeast(m, ts[..|ts| - 1], token); }
  }

  /** Two threads cannot hold the lock of one state. */
  lemma OneLocker(ts: seq<Task>, t: nat, j: nat, token: nat)
    requires t < |ts| && j < |ts| && t != j && Total(Locks, ts, token) <= 1
    requires Weigh(Locks, ts[t], token) == 1
    ensures Weigh(Locks, ts[j], token) == 0
  {
    TotalSet(Locks, ts, t, Idle, token);
    TotalAtLeast(Locks, ts[t := Idle], token);
    assert ts[t := Idle][j] == ts[j];
  }

  lemma NoLocker(ts: seq<Task>, token: nat)
    requires Total(Locks, ts, token) == 0
    ensures forall t :: 0 <= t < |ts| ==> Weigh(Locks, ts[t], token) == 0
  {
    TotalAtLeast(Locks, ts, token);
  }

  /** Only a lock holder can be behind with a booking, so that whoever owes bytes finds them in flight. */
  lemma OwedInFlight(ts: seq<Task>, t: nat, token: nat)
    requires t < |ts| && Total(Locks, ts, token) <= Weigh(Locks, ts[t], token)
    ensures Weigh(InFlight, ts[t], token) <= Total(InFlight, ts, token)
  {
    var rest := ts[t := Idle];
    TotalSet(Locks, ts, t, Idle, token);
    TotalAtLeast(Locks, rest, token);
    forall j | 0 <= j < |rest| ensures Weigh(InFlight, rest[j], token) >= 0 {
      assert Weigh(Locks, rest[j], token) <= Total(Locks, rest, token);
    }
    TotalAtLeast(InFlight, rest, token);
    TotalSet(InFlight, ts, t, Idle, token);
  }

  // ---------------------------------------------------------------- the invariant

  ghost predicate TokensOk(s: System) {
    && s.nextToken <= MAX_TOKEN && 0 !in s.states && 0 !in s.retired
    && (forall k :: k in s.states ==> k !in s.retired && (s.nextToken == 0 || k < s.nextToken))
    && (forall k :: k in s.retired ==> s.nextToken == 0 || k < s.nextToken)
  }

  ghost function Context(s: System, token: nat): nat {
    if token in s.states && s.states[token].active then 1 else 0
  }

  /** References of one token: its context, whatever the threads hold, and its active bindings. */
  ghost function Expected(s: System, token: nat): int {
    Context(s, token) + Total(Held, s.threads, token) + ActiveCount(s.buffers, token)
  }

  ghost predicate CountedAt(s: System, token: nat) {
    Refs(s.states, token) == Expected(s, token) && (token in s.states ==> s.states[token].refs > 0)
  }

  ghost predicate LockedAt(s: System, token: nat) {
    Total(Locks, s.threads, token) == if token in s.states && s.states[token].locked then 1 else 0
  }

  /** What the record should say: the initial bytes, the bound bytes and the bytes in flight. */
  ghost function Due(s: System, token: nat): int
    requires token in s.states
  {
    s.states[token].base + ActiveBytes(s.buffers, token) + Total(InFlight, s.threads, token)
  }

  predicate InRange(r: Record) {
    r.live <= SIZE_MAX && r.work <= SIZE_MAX && r.ordinal <= SIZE_MAX
  }

  ghost predicate BookedAt(s: System, token: nat) {
    token in s.states ==> InRange(s.states[token].record) && (!s.states[token].locked ==> s.states[token].record.live == Due(s, token))
  }

  /** A transaction copy: up to date, never behind the record in work and ordinal, and its charge within the limits. */
  ghost predicate CopyOk(s: System, t: nat)
    requires t < |s.threads|
  {
    var x := s.threads[t];
    InTxn(x) && x.token in s.states ==>
      var st := s.states[x.token];
      && InRange(x.copy) && x.copy.live == Due(s, x.token)
      && x.copy.work >= st.record.work && x.copy.ordinal >= st.record.ordinal
      && (x.Retained? || x.Unbooked? ==>
            && InRange(x.charged) && x.charged.live == x.copy.live + x.bytes && x.charged.work >= x.copy.work
            && Within(x.charged.live, st.limits.liveBytes) && Within(x.charged.work, st.limits.workUnits))
  }

  ghost predicate Inv(s: System) {
    && TokensOk(s)
    && (forall token: nat :: CountedAt(s, token))
    && (forall token: nat :: LockedAt(s, token))
    && (forall token: nat :: BookedAt(s, token))
    && (forall t: nat :: t < |s.threads| ==> CopyOk(s, t))
  }

  // ---------------------------------------------------------------- one event

  predicate About(x: Task, token: nat) {
    x.Idle? || x.token == token
  }

  /** Between `s` and `s'`, thread `t` moved and nothing changed but what concerns `token`. */
  ghost predicate Local(s: System, s': System, t: nat, token: nat) {
    && t < |s.threads| && |s'.threads| == |s.threads|
    && s'.threads == s.threads[t := s'.threads[t]]
    && About(s.threads[t], token) && About(s'.threads[t], token)
    && (forall k: nat :: k != token ==> (k in s'.states <==> k in s.states) && (k in s.states ==> s'.states[k] == s.states[k]))
    && (forall k: nat :: k != token ==> ActiveBytes(s'.buffers, k) == ActiveBytes(s.buffers, k))
    && (forall k: nat :: k != token ==> ActiveCount(s'.buffers, k) == ActiveCount(s.buffers, k))
  }

  lemma OtherToken(s: System, s': System, t: nat, token: nat, k: nat)
    requires Local(s, s', t, token) && k != token
    ensures forall m: Measure :: Total(m, s'.threads, k) == Total(m, s.threads, k)
    ensures CountedAt(s, k) ==> CountedAt(s', k)
    ensures LockedAt(s, k) ==> LockedAt(s', k)
    ensures BookedAt(s, k) ==> BookedAt(s', k)
  {
    forall m: Measure ensures Total(m, s'.threads, k) == Total(m, s.threads, k) {
      TotalSet(m, s.threads, t, s'.threads[t], k);
    }
  }

  /** Everything that is left to check when one thread moved. */
  lemma LocalKeeps(s: System, s': System, t: nat, token: nat)
    requires Inv(s) && Local(s, s', t, token) && TokensOk(s')
    requires CountedAt(s', token) && LockedAt(s', token) && BookedAt(s', token) && CopyOk(s', t)
    requires forall j: nat :: j < |s.threads| && j != t && InTxn(s.threads[j]) && s.threads[j].token == token ==> CopyOk(s', j)
    ensures Inv(s')
  {
    forall k: nat ensures CountedAt(s', k) && LockedAt(s', k) && BookedAt(s', k) {
      if k != token { OtherToken(s, s', t, token, k); }
    }
    forall j: nat | j < |s'.threads| ensures CopyOk(s', j) {
      if j != t && InTxn(s.threads[j]) && s.threads[j].token != token {
        OtherToken(s, s', t, token, s.threads[j].token);
        assert CopyOk(s, j);
      }
    }
  }

  /** The totals of `token` after thread `t` moved. */
  lemma Moved(s: System, s': System, t: nat, token: nat)
    requires t < |s.threads| && |s'.threads| == |s.threads| && s'.threads == s.threads[t := s'.threads[t]]
    ensures Total(Held, s'.threads, token) == Total(Held, s.threads, token) - Weigh(Held, s.threads[t], token) + Weigh(Held, s'.threads[t], token)
    ensures Total(Locks, s'.threads, token) == Total(Locks, s.threads, token) - Weigh(Locks, s.threads[t], token) + Weigh(Locks, s'.threads[t], token)
    ensures Total(InFlight, s'.threads, token) ==
            Total(InFlight, s.threads, token) - Weigh(InFlight, s.threads[t], token) + Weigh(InFlight, s'.threads[t], token)
  {
    TotalSet(Held, s.threads, t, s'.threads[t], token);
    TotalSet(Locks, s.threads, t, s'.threads[t], token);
    TotalSet(InFlight, s.threads, t, s'.threads[t], token);
  }

  /** Another thread's copy stays good when the record, the limits and the due bytes stay. */
  lemma OtherCopy(s: System, s': System, t: nat, token: nat, j: nat)
    requires Inv(s) && Local(s, s', t, token) && j < |s.threads| && j != t && InTxn(s.threads[j]) && s.threads[j].token == token
    requires token in s.states && token in s'.states && Due(s', token) == Due(s, token)
    requires s'.states[token].record == s.states[token].record && s'.states[token].limits == s.states[token].limits
    ensures CopyOk(s', j)
  {
    assert CopyOk(s, j);
  }

  /** Whoever holds a reference finds the state. */
  lemma HolderFinds(s: System, t: nat, token: nat)
    requires Inv(s) && t < |s.threads| && !s.threads[t].Idle? && s.threads[t].token == token
    ensures token in s.states && s.states[token].refs >= Weigh(Held, s.threads[t], token) >= 1 && Found(s.states, token)
  {
    assert CountedAt(s, token);
    TotalAtLeast(Held, s.threads, token);
  }

  /** The holder of a transaction lock is the only one. */
  lemma HolderAlone(s: System, t: nat, token: nat)
    requires Inv(s) && t < |s.threads| && InTxn(s.threads[t]) && s.threads[t].token == token
    ensures token in s.states && s.states[token].locked && Total(Locks, s.threads, token) == 1
    ensures forall j: nat :: j < |s.threads| && j != t && InTxn(s.threads[j]) ==> s.threads[j].token != token
  {
    HolderFinds(s, t, token);
    assert LockedAt(s, token);
    TotalAtLeast(Locks, s.threads, token);
    forall j: nat | j < |s.threads| && j != t && InTxn(s.threads[j]) ensures s.threads[j].token != token {
      OneLocker(s.threads, t, j, token);
    }
  }

  lemma Unlocked(s: System, token: nat)
    requires Inv(s) && token in s.states && !s.states[token].locked
    ensures forall j: nat :: j < |s.threads| && InTxn(s.threads[j]) ==> s.threads[j].token != token
    ensures Total(Locks, s.threads, token) == 0
  {
    assert LockedAt(s, token);
    NoLocker(s.threads, token);
    forall j: nat | j < |s.threads| && InTxn(s.threads[j]) ensures s.threads[j].token != token {
      assert Weigh(Locks, s.threads[j], token) == 0;
    }
  }

  // ---------------------------------------------------------------- references

  /** A thread gives up a reference, and with the last one the state. */
  lemma DropKeeps(s: System, t: nat, token: nat, x: Task)
    requires Inv(s) && t < |s.threads| && !s.threads[t].Idle? && s.threads[t].token == token && About(x, token)
    requires Weigh(Held, x, token) == Weigh(Held, s.threads[t], token) - 1
    requires Weigh(Locks, x, token) == Weigh(Locks, s.threads[t], token) && Weigh(InFlight, x, token) == Weigh(InFlight, s.threads[t], token)
    requires InTxn(x) ==> x.Txn? && InTxn(s.threads[t]) && x.copy == s.threads[t].copy
    ensures Inv(With(DropRef(s, token), t, x))
  {
    var s' := With(DropRef(s, token), t, x);
    HolderFinds(s, t, token);
    DroppedRefs(s.states, token, token);
    assert CountedAt(s, token) && LockedAt(s, token) && BookedAt(s, token) && CopyOk(s, t);
    Moved(s, s', t, token);
    forall k: nat | k != token ensures k in s'.states <==> k in s.states {
      DroppedRefs(s.states, token, k);
    }
    if token in s'.states {
      forall j: nat | j < |s.threads| && j != t && InTxn(s.threads[j]) && s.threads[j].token == token ensures CopyOk(s', j) {
        OtherCopy(s, s', t, token, j);
      }
    } else {
      TotalAtLeast(Locks, s'.threads, token);
      LockHeldBelow(s'.threads, token);
    }
    LocalKeeps(s, s', t, token);
  }

  /** Every lock holder holds a reference. */
  lemma {:induction false} LockHeldBelow(ts: seq<Task>, token: nat)
    ensures 0 <= Total(Locks, ts, token) <= Total(Held, ts, token)
  {
    if ts != [] { LockHeldBelow(ts[..|ts| - 1], token); }
  }

  /** A thread finds the state and takes one more reference. */
  lemma RaiseKeeps(s: System, t: nat, token: nat, x: Task)
    requires Inv(s) && t < |s.threads| && Found(s.states, token) && About(s.threads[t], token) && About(x, token)
    requires Weigh(Held, x, token) == Weigh(Held, s.threads[t], token) + 1
    requires Weigh(InFlight, x, token) == Weigh(InFlight, s.threads[t], token) && !InTxn(x) && !InTxn(s.threads[t])
    ensures Inv(With(s.(states := Raised(s.states, token)), t, x))
  {
    var s' := With(s.(states := Raised(s.states, token)), t, x);
    assert CountedAt(s, token) && LockedAt(s, token) && BookedAt(s, token);
    Moved(s, s', t, token);
    forall j: nat | j < |s.threads| && j != t && InTxn(s.threads[j]) && s.threads[j].token == token ensures CopyOk(s', j) {
      OtherCopy(s, s', t, token, j);
    }
    LocalKeeps(s, s', t, token);
  }

  /** src/resources.cpp:1010-1017: the context's reference becomes the caller's. */
  lemma DeactivateKeeps(s: System, t: nat, token: nat)
    requires Inv(s) && t < |s.threads| && s.threads[t] == Idle && Found(s.states, token) && s.states[token].active
    ensures Inv(With(WithState(s, token, s.states[token].(active := false)), t, Releasing(token)))
  {
    var s' := With(WithState(s, token, s.states[token].(active := false)), t, Releasing(token));
    assert CountedAt(s, token) && LockedAt(s, token) && BookedAt(s, token);
    Moved(s, s', t, token);
    forall j: nat | j < |s.threads| && j != t && InTxn(s.threads[j]) && s.threads[j].token == token ensures CopyOk(s', j) {
      OtherCopy(s, s', t, token, j);
    }
    LocalKeeps(s, s', t, token);
  }

  // ---------------------------------------------------------------- transactions

  lemma LockKeeps(s: System, t: nat, token: nat)
    requires Inv(s) && t < |s.threads| && s.threads[t] == Pinned(token) && token in s.states && !s.states[token].locked
    ensures Inv(With(WithState(s, token, s.states[token].(locked := true)), t, Txn(token, s.states[token].record)))
  {
    var s' := With(WithState(s, token, s.states[token].(locked := true)), t, Txn(token, s.states[token].record));
    assert CountedAt(s, token) && LockedAt(s, token) && BookedAt(s, token);
    Unlocked(s, token);
    Moved(s, s', t, token);
    LocalKeeps(s, s', t, token);
  }

  lemma UnlockKeeps(s: System, t: nat, token: nat, copy: Record)
    requires Inv(s) && t < |s.threads| && s.threads[t] == Txn(token, copy) && token in s.states
    ensures Inv(With(WithState(s, token, s.states[token].(locked := false, record := copy)), t, Pinned(token)))
  {
    var s' := With(WithState(s, token, s.states[token].(locked := false, record := copy)), t, Pinned(token));
    assert CountedAt(s, token) && LockedAt(s, token) && BookedAt(s, token) && CopyOk(s, t);
    HolderAlone(s, t, token);
    Moved(s, s', t, token);
    LocalKeeps(s, s', t, token);
  }

  lemma ConfigureKeeps(s: System, t: nat, token: nat, limits: Limits, failAt: Option<nat>)
    requires Inv(s) && t < |s.threads| && s.threads[t] == Pinned(token) && token in s.states && !s.states[token].locked
    ensures Inv(WithState(s, token, s.states[token].(limits := limits, failAt := failAt)))
  {
    var s' := WithState(s, token, s.states[token].(limits := limits, failAt := failAt));
    assert CountedAt(s, token) && LockedAt(s, token) && BookedAt(s, token) && CopyOk(s, t);
    Unlocked(s, token);
    LocalKeeps(s, s', t, token);
  }

  /** Inside its transaction a thread changes its own copy, its charge and what it has in flight. */
  lemma TxnKeeps(s: System, s': System, t: nat, token: nat)
    requires Inv(s) && Local(s, s', t, token) && TokensOk(s') && InTxn(s.threads[t]) && s.threads[t].token == token
    requires InTxn(s'.threads[t]) && s'.threads[t].token == token
    requires token in s.states && token in s'.states
    requires s'.states[token] == s.states[token].(refs := s'.states[token].refs) && s'.states[token].refs > 0
    requires s'.states[token].refs - s.states[token].refs == Weigh(Held, s'.threads[t], token) - Weigh(Held, s.threads[t], token)
                                                            + ActiveCount(s'.buffers, token) - ActiveCount(s.buffers, token)
    requires CopyOk(s', t)
    ensures Inv(s')
  {
    assert CountedAt(s, token) && LockedAt(s, token) && BookedAt(s, token) && CopyOk(s, t);
    HolderAlone(s, t, token);
    Moved(s, s', t, token);
    LocalKeeps(s, s', t, token);
  }

  lemma ChargeKeeps(s: System, t: nat, token: nat, copy: Record, units: nat)
    requires Inv(s) && t < |s.threads| && s.threads[t] == Txn(token, copy) && token in s.states && copy.work + units <= SIZE_MAX
    ensures Inv(With(s, t, Txn(token, copy.(work := copy.work + units))))
  {
    var s' := With(s, t, Txn(token, copy.(work := copy.work + units)));
    HolderFinds(s, t, token);
    assert CopyOk(s, t);
    Moved(s, s', t, token);
    TxnKeeps(s, s', t, token);
  }

  lemma ReserveKeeps(s: System, t: nat, token: nat, copy: Record, vectorBytes: Option<nat>, bytes: nat, units: nat, purpose: Purpose, hostFails: bool)
    requires Inv(s) && t < |s.threads| && s.threads[t] == Txn(token, copy) && token in s.states && bytes > 0
    ensures Inv(Reserved(s, t, copy, token, vectorBytes, bytes, units, purpose, hostFails))
  {
    var s' := Reserved(s, t, copy, token, vectorBytes, bytes, units, purpose, hostFails);
    HolderFinds(s, t, token);
    assert CopyOk(s, t);
    if s' != s {
      Moved(s, s', t, token);
      TxnKeeps(s, s', t, token);
    }
  }

  lemma BindKeeps(s: System, t: nat)
    requires Inv(s) && t < |s.threads| && s.threads[t].Retained?
    ensures var x := s.threads[t];
            Inv(With(s.(buffers := s.buffers + [Bound(x.bytes, x.token, x.charged.ordinal, x.purpose)]), t, Unbooked(x.token, x.copy, x.charged, x.bytes)))
  {
    var x := s.threads[t];
    var b := Bound(x.bytes, x.token, x.charged.ordinal, x.purpose);
    var s' := With(s.(buffers := s.buffers + [b]), t, Unbooked(x.token, x.copy, x.charged, x.bytes));
    HolderFinds(s, t, x.token);
    assert CopyOk(s, t);
    forall k: nat ensures
      && ActiveBytes(s'.buffers, k) == ActiveBytes(s.buffers, k) + (if k == x.token then x.bytes else 0)
      && ActiveCount(s'.buffers, k) == ActiveCount(s.buffers, k) + (if k == x.token then 1 else 0)
    {
      AppendCharge(s.buffers, b, k);
    }
    Moved(s, s', t, x.token);
    TxnKeeps(s, s', t, x.token);
  }

  lemma BookKeeps(s: System, t: nat)
    requires Inv(s) && t < |s.threads| && s.threads[t].Unbooked?
    ensures var x := s.threads[t]; Inv(With(s, t, Txn(x.token, x.copy.(live := x.charged.live, work := x.charged.work))))
  {
    var x := s.threads[t];
    var s' := With(s, t, Txn(x.token, x.copy.(live := x.charged.live, work := x.charged.work)));
    HolderFinds(s, t, x.token);
    assert CopyOk(s, t);
    Moved(s, s', t, x.token);
    TxnKeeps(s, s', t, x.token);
  }

  // ---------------------------------------------------------------- refunds

  /** Taking a binding moves its bytes from the bindings into flight. */
  lemma TakenBytes(buffers: seq<HostBuffer>, k: nat, b: HostBuffer, owner: nat)
    requires k < |buffers| && buffers[k].active && !b.active
    ensures ActiveBytes(buffers[k := b], owner) == ActiveBytes(buffers, owner) - (if buffers[k].owner == owner then buffers[k].bytes else 0)
    ensures ActiveCount(buffers[k := b], owner) == ActiveCount(buffers, owner) - (if buffers[k].owner == owner then 1 else 0)
  {
    SetBuffer(buffers, k, b, owner);
  }

  /** An active binding keeps its owner alive. */
  lemma BindingFinds(s: System, k: nat)
    requires Inv(s) && k < |s.buffers| && s.buffers[k].active
    ensures Found(s.states, s.buffers[k].owner)
  {
    var token := s.buffers[k].owner;
    assert CountedAt(s, token);
    forall t: nat | t < |s.threads| ensures Weigh(Held, s.threads[t], token) >= 0 {}
    TotalAtLeast(Held, s.threads, token);
    TakenBytes(s.buffers, k, s.buffers[k].(active := false), token);
  }

  lemma TakeInTxnKeeps(s: System, t: nat, a: Account, purpose: Purpose)
    requires Inv(s) && t < |s.threads| && s.threads[t].Txn? && a.owner == s.threads[t].token && Matches(s.buffers, a, purpose)
    ensures var x := s.threads[t]; Inv(With(s.(buffers := Deactivated(s.buffers, a.storage - 1)), t, Consumed(x.token, x.copy, a.bytes)))
  {
    var x := s.threads[t];
    var s' := With(s.(buffers := Deactivated(s.buffers, a.storage - 1)), t, Consumed(x.token, x.copy, a.bytes));
    HolderFinds(s, t, x.token);
    assert CopyOk(s, t);
    forall k: nat { TakenBytes(s.buffers, a.storage - 1, s.buffers[a.storage - 1].(active := false), k); }
    Moved(s, s', t, x.token);
    TxnKeeps(s, s', t, x.token);
  }

  lemma RepayKeeps(s: System, t: nat)
    requires Inv(s) && t < |s.threads| && s.threads[t].Consumed?
    ensures var x := s.threads[t]; x.bytes <= x.copy.live && Inv(With(s, t, Repaid(x.token, x.copy.(live := Less(x.copy.live, x.bytes)))))
  {
    var x := s.threads[t];
    var s' := With(s, t, Repaid(x.token, x.copy.(live := Less(x.copy.live, x.bytes))));
    HolderFinds(s, t, x.token);
    HolderAlone(s, t, x.token);
    assert CopyOk(s, t);
    OwedInFlight(s.threads, t, x.token);
    Moved(s, s', t, x.token);
    TxnKeeps(s, s', t, x.token);
  }

  /** src/host_storage.cpp:150-188, 270-300: whoever takes an active binding owes its bytes to the owner. */
  lemma TakeKeeps(s: System, t: nat, k: nat, b: HostBuffer)
    requires Inv(s) && t < |s.threads| && s.threads[t] == Idle && k < |s.buffers| && s.buffers[k].active && !b.active
    ensures Inv(With(s.(buffers := s.buffers[k := b]), t, Owing(s.buffers[k].owner, s.buffers[k].bytes)))
  {
    var token := s.buffers[k].owner;
    var s' := With(s.(buffers := s.buffers[k := b]), t, Owing(token, s.buffers[k].bytes));
    BindingFinds(s, k);
    assert CountedAt(s, token) && LockedAt(s, token) && BookedAt(s, token);
    forall o: nat { TakenBytes(s.buffers, k, b, o); }
    Moved(s, s', t, token);
    forall j: nat | j < |s.threads| && j != t && InTxn(s.threads[j]) && s.threads[j].token == token ensures CopyOk(s', j) {
      OtherCopy(s, s', t, token, j);
    }
    LocalKeeps(s, s', t, token);
  }

  /** Removing a buffer whose binding is gone refunds nothing. */
  lemma RemoveKeeps(s: System, k: nat, b: HostBuffer)
    requires Inv(s) && k < |s.buffers| && !s.buffers[k].active && !b.active
    ensures Inv(s.(buffers := s.buffers[k := b]))
  {
    var s' := s.(buffers := s.buffers[k := b]);
    forall o: nat ensures ActiveBytes(s'.buffers, o) == ActiveBytes(s.buffers, o) && ActiveCount(s'.buffers, o) == ActiveCount(s.buffers, o) {
      SetBuffer(s.buffers, k, b, o);
    }
    forall o: nat ensures CountedAt(s', o) && LockedAt(s', o) && BookedAt(s', o) {
      assert CountedAt(s, o) && LockedAt(s, o) && BookedAt(s, o);
    }
    forall t: nat | t < |s.threads| ensures CopyOk(s', t) {
      assert CopyOk(s, t);
    }
  }

  /** src/resources.cpp:343-352: the refund is never skipped. */
  lemma PayKeeps(s: System, t: nat)
    requires Inv(s) && t < |s.threads| && s.threads[t].OwingPinned?
    requires s.threads[t].token in s.states && !s.states[s.threads[t].token].locked
    ensures var x := s.threads[t];
            var st := s.states[x.token];
            && x.bytes <= st.record.live
            && Inv(With(WithState(s, x.token, st.(record := st.record.(live := Less(st.record.live, x.bytes)))), t, PaidPinned(x.token)))
  {
    var x := s.threads[t];
    var st := s.states[x.token];
    var s' := With(WithState(s, x.token, st.(record := st.record.(live := Less(st.record.live, x.bytes)))), t, PaidPinned(x.token));
    assert CountedAt(s, x.token) && LockedAt(s, x.token) && BookedAt(s, x.token);
    Unlocked(s, x.token);
    OwedInFlight(s.threads, t, x.token);
    Moved(s, s', t, x.token);
    LocalKeeps(s, s', t, x.token);
  }

  lemma IssueKeeps(s: System, base: nat, limits: Limits, failAt: Option<nat>)
    requires Inv(s) && s.nextToken != 0 && base <= SIZE_MAX
    ensures Inv(Do(s, Issue(base, limits, failAt)))
  {
    var token, s' := s.nextToken, Do(s, Issue(base, limits, failAt));
    assert CountedAt(s, token) && LockedAt(s, token) && token !in s.states;
    NothingHeld(s, token);
    forall k: nat ensures CountedAt(s', k) && LockedAt(s', k) && BookedAt(s', k) {
      assert CountedAt(s, k) && LockedAt(s, k) && BookedAt(s, k);
    }
    forall t: nat | t < |s.threads| ensures CopyOk(s', t) {
      assert CopyOk(s, t);
      assert !s.threads[t].Idle? ==> Weigh(Held, s.threads[t], token) == 0;
    }
  }

  /** A token without a state is held nowhere. */
  lemma NothingHeld(s: System, token: nat)
    requires Inv(s) && token !in s.states
    ensures Total(Held, s.threads, token) == 0 && ActiveCount(s.buffers, token) == 0 && ActiveBytes(s.buffers, token) == 0
    ensures Total(InFlight, s.threads, token) == 0
    ensures forall t :: 0 <= t < |s.threads| ==> s.threads[t].Idle? || s.threads[t].token != token
  {
    assert CountedAt(s, token);
    TotalAtLeast(Held, s.threads, token);
    NoneActive(s.buffers, token);
    forall t | 0 <= t < |s.threads| ensures s.threads[t].Idle? || s.threads[t].token != token {
      assert Weigh(Held, s.threads[t], token) <= 0;
    }
    TotalIdle(InFlight, s.threads, token);
  }

  lemma {:induction false} NoneActive(buffers: seq<HostBuffer>, owner: nat)
    requires ActiveCount(buffers, owner) == 0
    ensures ActiveBytes(buffers, owner) == 0
  {
    if buffers != [] { NoneActive(buffers[..|buffers| - 1], owner); }
  }
}
