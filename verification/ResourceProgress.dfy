/** No run of `ResourceRuns` gets stuck: whatever the threads are in the middle of, they can all finish. */
module ResourceProgress {
  import opened Kinds
  import opened HostStorage
  import opened Resources
  import opened Registry
  import opened ResourceRuns
  import opened ResourceRunLaws
  import opened LedgerRefinement

  /** Critical sections a thread still has before it. */
  function StepsLeft(x: Task): nat {
    match x
    case Idle => 0
    case Pinned(_) | Releasing(_) | Paid(_) => 1
    case Txn(_, _) | PaidPinned(_) => 2
    case Unbooked(_, _, _, _) | Repaid(_, _) | OwingPinned(_, _) => 3
    case Retained(_, _, _, _, _) | Consumed(_, _, _) | Owing(_, _) => 4
  }

  /** What a thread does next when it takes on nothing new. */
  function Finishing(t: nat, x: Task): Event
    requires x != Idle
  {
    match x
    case Pinned(_) => Unpin(t)
    case Releasing(_) => FinishRelease(t)
    case Txn(_, _) => Unlock(t)
    case Retained(_, _, _, _, _) => Bind(t)
    case Unbooked(_, _, _, _) => Event.Book(t)
    case Consumed(_, _, _) => Repay(t)
    case Repaid(_, _) => DropRepaid(t)
    case Owing(_, _) => PinOwing(t)
    case OwingPinned(_, _) => Pay(t)
    case PaidPinned(_) => UnpinPaid(t)
    case Paid(_) => DropPaid(t)
  }

  function AllLeft(ts: seq<Task>): nat {
    if ts == [] then 0 else AllLeft(ts[..|ts| - 1]) + StepsLeft(ts[|ts| - 1])
  }

  lemma {:induction false} AllLeftSet(ts: seq<Task>, t: nat, x: Task)
    requires t < |ts|
    ensures AllLeft(ts[t := x]) == AllLeft(ts) - StepsLeft(ts[t]) + StepsLeft(x)
    decreases |ts|
  {
    var n := |ts| - 1;
    if t == n {
      assert ts[t := x][..n] == ts[..n];
    } else {
      AllLeftSet(ts[..n], t, x);
      assert ts[t := x][..n] == ts[..n][t := x];
    }
  }

  /** A thread can go on unless it waits for the transaction lock of a state to which it owes a refund. */
  lemma ThreadAdvances(s: System, t: nat)
    requires Inv(s) && t < |s.threads| && s.threads[t] != Idle
    requires s.threads[t].OwingPinned? && s.threads[t].token in s.states ==> !s.states[s.threads[t].token].locked
    ensures AllLeft(Do(s, Finishing(t, s.threads[t])).threads) < AllLeft(s.threads)
  {
    var x := s.threads[t];
    HolderFinds(s, t, x.token);
    hide Inv;
    var g := Do(s, Finishing(t, x));
    assert g.threads == s.threads[t := g.threads[t]] && StepsLeft(g.threads[t]) < StepsLeft(x);
    AllLeftSet(s.threads, t, g.threads[t]);
  }

  ghost predicate AllIdle(s: System) {
    forall t :: 0 <= t < |s.threads| ==> s.threads[t] == Idle
  }

  /** A lock is held by a thread inside a transaction, and that thread can go on. */
  lemma SomeoneAdvances(s: System) returns (e: Event)
    requires Inv(s) && !AllIdle(s)
    ensures AllLeft(Do(s, e).threads) < AllLeft(s.threads)
  {
    var t: nat;
    if j: nat :| j < |s.threads| && InTxn(s.threads[j]) {
      t := j;
    } else {
      t :| t < |s.threads| && s.threads[t] != Idle;
      NotLocked(s, s.threads[t].token);
    }
    e := Finishing(t, s.threads[t]);
    ThreadAdvances(s, t);
  }

  lemma NotLocked(s: System, token: nat)
    requires Inv(s) && forall t :: 0 <= t < |s.threads| ==> !InTxn(s.threads[t])
    ensures token in s.states ==> !s.states[token].locked
  {
    assert LockedAt(s, token);
    TotalIdle(Locks, s.threads, token);
  }

  lemma {:induction false} Drains(s: System) returns (more: seq<Event>)
    requires Inv(s)
    ensures Inv(Exec(s, more)) && AllIdle(Exec(s, more))
    decreases AllLeft(s.threads)
  {
    hide Do, Inv, AllLeft;
    ExecOne(s, Issue(0, Limits(None, None, None, None), None));
    if AllIdle(s) {
      return [];
    }
    var e := SomeoneAdvances(s);
    DoKeeps(s, e);
    ExecOne(s, e);
    var rest := Drains(Do(s, e));
    ExecAppend(s, [e], rest);
    more := [e] + rest;
  }

  /**
   Every run can be continued until nobody is in the middle of anything, and then every ledger holds its initial bytes
   and the bound bytes, and every state is referred to by its context and its bindings alone.
   */
  lemma EveryRunDrains(s: System, run: seq<Event>) returns (more: seq<Event>)
    requires Init(s)
    ensures var r := Exec(s, run + more);
            && AllIdle(r)
            && forall token :: token in r.states ==>
                 && r.states[token].record.live == r.states[token].base + ActiveBytes(r.buffers, token)
                 && r.states[token].refs == (if r.states[token].active then 1 else 0) + ActiveCount(r.buffers, token)
  {
    InitHolds(s);
    RunKeeps(s, run);
    more := Drains(Exec(s, run));
    ExecAppend(s, run, more);
    hide Inv, Exec, Init;
    forall token | token in Exec(s, run + more).states
      ensures var r := Exec(s, run + more);
              && r.states[token].record.live == r.states[token].base + ActiveBytes(r.buffers, token)
              && r.states[token].refs == (if r.states[token].active then 1 else 0) + ActiveCount(r.buffers, token)
    {
      QuiescentLedger(s, run + more, token);
    }
  }
}
