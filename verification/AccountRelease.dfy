/** Leaving one buffer: what the detach, release and destroy walks do with the accounting of a single node. */
module AccountRelease {
  import opened Kinds
  import opened HostStorage

  /**
   `Detach` takes the accounting off and keeps the buffer; `Release` and `Destroy` also free it.
   `Destroy` frees buffers that carry no accounting, where the other two refuse.
   */
  datatype Mode = Detach | Release | Destroy

  /** The part of an evaluation state that the walks change. */
  class ResourceState {
    const token: nat
    var live: nat
    var refs: nat

    constructor (token: nat, live: nat, refs: nat)
      ensures this.token == token && this.live == live && this.refs == refs
    {
      this.token, this.live, this.refs := token, live, refs;
    }
  }

  /** The ledger invariant: live bytes cover the active bindings, and each of them holds a reference beside the caller's pin. */
  ghost predicate Covered(buffers: seq<HostBuffer>, token: nat, live: nat, refs: nat) {
    live >= ActiveBytes(buffers, token) && refs >= ActiveCount(buffers, token) + 1
  }

  /** What the context holds beside its bindings is as it was. */
  twostate predicate SameRest(host: HostRegistry, state: ResourceState)
    reads host, state
  {
    && state.live - ActiveBytes(host.buffers, state.token) == old(state.live - ActiveBytes(host.buffers, state.token))
    && state.refs - ActiveCount(host.buffers, state.token) == old(state.refs - ActiveCount(host.buffers, state.token))
  }

  /**
   What validation establishes about one account.  `Detach` and `Release` only go on when the accounting belongs to
   the context; destroying asks for nothing more than a valid account, whoever it belongs to.
   */
  ghost predicate Ready(buffers: seq<HostBuffer>, a: Account, purpose: Purpose, token: nat, mode: Mode) {
    && token != 0
    && ((a.bytes == 0) == (a.storage == 0))
    && (a.bytes == 0 ==> a.owner == 0)
    && (a.bytes != 0 ==> ValidAddress(buffers, a.storage))
    && (a.bytes != 0 && a.active ==> Matches(buffers, a, purpose) && (mode != Destroy ==> a.owner == token))
    && (!a.active ==> a.owner == 0)
  }

  /** Bytes that the binding of one buffer charges to `token`. */
  ghost function BytesAt(buffers: seq<HostBuffer>, storage: nat, token: nat): nat {
    if ValidAddress(buffers, storage) then Charge(buffers[storage - 1], token) else 0
  }

  /** The reference that goes with them. */
  ghost function ReferencesAt(buffers: seq<HostBuffer>, storage: nat, token: nat): nat {
    if ValidAddress(buffers, storage) && buffers[storage - 1].active && buffers[storage - 1].owner == token then 1 else 0
  }

  function LeftAccount(a: Account, mode: Mode): Account {
    if mode == Detach then a.(active := false, owner := 0) else a.(active := false, owner := 0, storage := 0, ordinal := None)
  }

  function LeftBuffers(buffers: seq<HostBuffer>, a: Account, mode: Mode): seq<HostBuffer> {
    if !ValidAddress(buffers, a.storage) then buffers
    else
      var b := buffers[a.storage - 1];
      buffers[a.storage - 1 := if mode == Detach then b.(active := false) else b.(active := false, registered := false)]
  }

  /** Unaccounted bytes stop `Detach` and `Release` in the middle of their walk. */
  predicate Accounted(a: Account) {
    a.bytes == 0 || a.active
  }

  /**
   src/value.cpp:1452-1480, src/resources.cpp:600-668, 3137-3168, 3395-3421 and src/host_storage.cpp:178-185.  `state`
   is the context of a detach or a release.  Destroying pays back whatever context a binding names, through the
   account or, when the account forgot it, as the buffer goes; `state` is any one of them.
   */
  method LeaveAccount(host: HostRegistry, state: ResourceState, a: Account, purpose: Purpose, mode: Mode) returns (ok: bool, a': Account)
    requires Ready(host.buffers, a, purpose, state.token, mode)
    requires Covered(host.buffers, state.token, state.live, state.refs)
    modifies host, state
    ensures ok <==> mode == Destroy || Accounted(a)
    ensures ok ==>
              && a' == LeftAccount(a, mode)
              && host.buffers == LeftBuffers(old(host.buffers), a, mode)
              && state.live == old(state.live) - BytesAt(old(host.buffers), a.storage, state.token)
              && state.refs == old(state.refs) - ReferencesAt(old(host.buffers), a.storage, state.token)
              && Covered(host.buffers, state.token, state.live, state.refs)
    ensures ok ==> SameRest(host, state)
    ensures ok && mode == Detach ==> Detached(old(host.buffers), host.buffers, {a.storage})
    ensures ok && mode != Detach ==> Freed(old(host.buffers), host.buffers, {a.storage})
  {
    hide ActiveBytes, ActiveCount;
    ghost var before := host.buffers;
    LeftOff(before, a, mode, state.token);
    a' := a;
    if a.bytes != 0 && (mode != Destroy || (a.active && a.owner != 0)) {
      ok := host.Consume(a, purpose);
      if !ok {
        return;
      }
      ConsumeCharge(before, a.storage - 1, before[a.storage - 1].(active := false), state.token);
      if a.active && a.owner == state.token && a.bytes <= state.live {
        state.live := state.live - a.bytes;
      }
    }
    if a.owner == state.token {
      state.refs := state.refs - 1;
    }
    a' := a'.(active := false, owner := 0);
    if mode != Detach {
      ghost var consumed, live, refs := host.buffers, state.live, state.refs;
      assert Covered(consumed, state.token, live, refs);
      var abandoned := host.Remove(a.storage);
      RemovedCharge(consumed, a.storage, state.token);
      if abandoned.Some? && abandoned.value.0 == state.token {
        if abandoned.value.1 <= state.live {
          state.live := state.live - abandoned.value.1;
        }
        state.refs := state.refs - 1;
      }
      a' := a'.(storage := 0, ordinal := None);
    }
    ok := true;
  }

  /** Leaving a buffer takes what it charges off the active bindings. */
  lemma LeftOff(buffers: seq<HostBuffer>, a: Account, mode: Mode, token: nat)
    ensures ActiveBytes(LeftBuffers(buffers, a, mode), token) == ActiveBytes(buffers, token) - BytesAt(buffers, a.storage, token)
    ensures ActiveCount(LeftBuffers(buffers, a, mode), token) == ActiveCount(buffers, token) - ReferencesAt(buffers, a.storage, token)
  {
    if ValidAddress(buffers, a.storage) {
      SetBuffer(buffers, a.storage - 1, LeftBuffers(buffers, a, mode)[a.storage - 1], token);
    }
  }

  /** Unregistering a buffer takes its binding, if it still has one, off the active ones. */
  lemma RemovedCharge(buffers: seq<HostBuffer>, storage: nat, token: nat)
    ensures ValidAddress(buffers, storage) ==>
              var after := buffers[storage - 1 := buffers[storage - 1].(registered := false, active := false)];
              && ActiveBytes(after, token) == ActiveBytes(buffers, token) - BytesAt(buffers, storage, token)
              && ActiveCount(after, token) == ActiveCount(buffers, token) - ReferencesAt(buffers, storage, token)
  {
    if ValidAddress(buffers, storage) {
      SetBuffer(buffers, storage - 1, buffers[storage - 1].(registered := false, active := false), token);
    }
  }
}
