/**
 src/host_storage.cpp: the table of host buffers and the accounting binding each may carry.

 A buffer is named by its address, 1 + its position in the table; 0 is the null pointer.  Addresses are
 never reused, which is the only thing the model keeps of the allocator.
 */
module HostStorage {
  import opened Kinds

  datatype Purpose = VectorPayload | TupleTable | Workspace

  /** `registered` until the buffer is removed; `active` while its bytes are charged to `owner`. */
  datatype HostBuffer = HostBuffer(registered: bool, byteCount: nat, active: bool, owner: nat, bytes: nat, ordinal: nat, purpose: Purpose)

  /** What a value remembers about one of its buffers. */
  datatype Account = Account(storage: nat, bytes: nat, active: bool, owner: nat, ordinal: Option<nat>)

  predicate ValidAddress(buffers: seq<HostBuffer>, a: nat) {
    0 < a <= |buffers| && buffers[a - 1].registered
  }

  /** src/host_storage.cpp:243-268. */
  predicate Matches(buffers: seq<HostBuffer>, a: Account, purpose: Purpose) {
    && a.storage != 0 && a.owner != 0 && a.ordinal.Some?
    && ValidAddress(buffers, a.storage)
    && var b := buffers[a.storage - 1];
       b.active && b.owner == a.owner && b.bytes == a.bytes && b.ordinal == a.ordinal.value && b.purpose == purpose
  }

  ghost function Charge(b: HostBuffer, owner: nat): nat {
    if b.active && b.owner == owner then b.bytes else 0
  }

  /** Bytes charged to `owner` by active bindings. */
  ghost function ActiveBytes(buffers: seq<HostBuffer>, owner: nat): nat {
    if buffers == [] then 0
    else ActiveBytes(buffers[..|buffers| - 1], owner) + Charge(buffers[|buffers| - 1], owner)
  }

  /** References held on `owner` by active bindings. */
  ghost function ActiveCount(buffers: seq<HostBuffer>, owner: nat): nat {
    if buffers == [] then 0
    else ActiveCount(buffers[..|buffers| - 1], owner)
         + (if buffers[|buffers| - 1].active && buffers[|buffers| - 1].owner == owner then 1 else 0)
  }

  lemma {:induction false} SetBuffer(buffers: seq<HostBuffer>, k: nat, b: HostBuffer, owner: nat)
    requires k < |buffers|
    ensures ActiveBytes(buffers[k := b], owner) == ActiveBytes(buffers, owner) - Charge(buffers[k], owner) + Charge(b, owner)
    ensures ActiveCount(buffers[k := b], owner) ==
            ActiveCount(buffers, owner) - (if buffers[k].active && buffers[k].owner == owner then 1 else 0)
            + (if b.active && b.owner == owner then 1 else 0)
    decreases |buffers|
  {
    var n := |buffers| - 1;
    if k == n {
      assert buffers[k := b][..n] == buffers[..n];
    } else {
      SetBuffer(buffers[..n], k, b, owner);
      assert buffers[k := b][..n] == buffers[..n][k := b];
    }
  }

  /** Consuming the binding of a live buffer takes exactly its bytes and its reference away from the owner. */
  lemma ConsumeCharge(buffers: seq<HostBuffer>, k: nat, b: HostBuffer, owner: nat)
    requires k < |buffers| && buffers[k].active && !b.active
    ensures buffers[k].owner == owner ==>
              && ActiveBytes(buffers[k := b], owner) == ActiveBytes(buffers, owner) - buffers[k].bytes
              && ActiveCount(buffers[k := b], owner) == ActiveCount(buffers, owner) - 1
              && buffers[k].bytes <= ActiveBytes(buffers, owner) && 1 <= ActiveCount(buffers, owner)
    ensures buffers[k].owner != owner ==>
              && ActiveBytes(buffers[k := b], owner) == ActiveBytes(buffers, owner)
              && ActiveCount(buffers[k := b], owner) == ActiveCount(buffers, owner)
  {
    SetBuffer(buffers, k, b, owner);
  }

  /** Every buffer outside `storages` is as it was. */
  ghost predicate OnlyAt(before: seq<HostBuffer>, after: seq<HostBuffer>, storages: set<nat>) {
    |after| == |before| && forall k: nat :: k < |before| && k + 1 !in storages ==> after[k] == before[k]
  }

  /** The buffers at `storages` are gone, and nothing is charged for them any more. */
  ghost predicate Freed(before: seq<HostBuffer>, after: seq<HostBuffer>, storages: set<nat>) {
    && OnlyAt(before, after, storages)
    && forall s: nat :: s in storages ==> !ValidAddress(after, s) && (0 < s <= |after| ==> !after[s - 1].active)
  }

  /** The buffers at `storages` are still there, without their bindings. */
  ghost predicate Detached(before: seq<HostBuffer>, after: seq<HostBuffer>, storages: set<nat>) {
    && OnlyAt(before, after, storages)
    && forall s: nat :: s in storages && 0 < s <= |before| ==> after[s - 1] == before[s - 1].(active := false)
  }

  lemma FreedBoth(before: seq<HostBuffer>, mid: seq<HostBuffer>, after: seq<HostBuffer>, first: set<nat>, second: set<nat>)
    requires Freed(before, mid, first) && Freed(mid, after, second)
    ensures Freed(before, after, first + second)
  {
  }

  /** A binding is matched by the account it was made for and by no other. */
  lemma BoundMatches(buffers: seq<HostBuffer>, storage: nat, owner: nat, bytes: nat, ordinal: nat, purpose: Purpose, a: Account, p: Purpose)
    requires ValidAddress(buffers, storage) && owner != 0
    ensures var bound := buffers[storage - 1 := HostBuffer(true, buffers[storage - 1].byteCount, true, owner, bytes, ordinal, purpose)];
            a.storage == storage ==>
              (Matches(bound, a, p) <==> a.owner == owner && a.bytes == bytes && a.ordinal == Some(ordinal) && p == purpose)
    ensures var gone := buffers[storage - 1 := buffers[storage - 1].(active := false)];
            a.storage == storage ==> !Matches(gone, a, p)
  {
  }

  class HostRegistry {
    var buffers: seq<HostBuffer>

    constructor ()
      ensures buffers == []
    {
      buffers := [];
    }

    /** src/host_storage.cpp:270-300: take the binding off a buffer; refused unless everything matches. */
    method Consume(a: Account, purpose: Purpose) returns (ok: bool)
      modifies this
      ensures ok == Matches(old(buffers), a, purpose)
      ensures buffers == if ok then old(buffers)[a.storage - 1 := old(buffers)[a.storage - 1].(active := false)] else old(buffers)
    {
      if a.storage == 0 || a.owner == 0 || a.ordinal == None || !ValidAddress(buffers, a.storage) {
        return false;
      }
      var b := buffers[a.storage - 1];
      if !b.active || b.owner != a.owner || b.bytes != a.bytes || b.ordinal != a.ordinal.value || b.purpose != purpose {
        return false;
      }
      buffers := buffers[a.storage - 1 := b.(active := false)];
      return true;
    }

    /**
     src/host_storage.cpp:150-188: unregister a buffer.  A binding that was never consumed is reported, so
     that its bytes can be given back to the owner.
     */
    method Remove(storage: nat) returns (abandoned: Option<(nat, nat)>)
      modifies this
      ensures !ValidAddress(old(buffers), storage) ==> buffers == old(buffers) && abandoned == None
      ensures ValidAddress(old(buffers), storage) ==>
                && buffers == old(buffers)[storage - 1 := old(buffers)[storage - 1].(registered := false, active := false)]
                && abandoned == if old(buffers)[storage - 1].active
                                then Some((old(buffers)[storage - 1].owner, old(buffers)[storage - 1].bytes)) else None
    {
      abandoned := None;
      if ValidAddress(buffers, storage) {
        var b := buffers[storage - 1];
        if b.active {
          abandoned := Some((b.owner, b.bytes));
        }
        buffers := buffers[storage - 1 := b.(registered := false, active := false)];
      }
    }

    /** src/host_storage.cpp:110-136: a fresh buffer carries no binding. */
    method Register(byteCount: nat) returns (storage: nat)
      modifies this
      ensures buffers == old(buffers) + [HostBuffer(true, byteCount, false, 0, 0, 0, Workspace)]
      ensures storage == |buffers|
    {
      buffers := buffers + [HostBuffer(true, byteCount, false, 0, 0, 0, Workspace)];
      return |buffers|;
    }

    /** src/host_storage.cpp:215-241: refused for a buffer that already carries an active binding. */
    method Bind(storage: nat, owner: nat, bytes: nat, ordinal: nat, purpose: Purpose) returns (ok: bool)
      modifies this
      ensures ok == (owner != 0 && ValidAddress(old(buffers), storage) && !old(buffers)[storage - 1].active)
      ensures buffers ==
              if ok then old(buffers)[storage - 1 := HostBuffer(true, old(buffers)[storage - 1].byteCount, true, owner, bytes, ordinal, purpose)]
              else old(buffers)
    {
      if owner == 0 || !ValidAddress(buffers, storage) || buffers[storage - 1].active {
        return false;
      }
      buffers := buffers[storage - 1 := HostBuffer(true, buffers[storage - 1].byteCount, true, owner, bytes, ordinal, purpose)];
      return true;
    }
  }
}
