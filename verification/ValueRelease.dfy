/** The operations that take a tuple value's accounting off, with or without freeing its buffers. */
module ValueRelease {
  import opened Kinds
  import opened Arena
  import opened ArenaWalk
  import opened HostStorage
  import opened AccountRelease
  import opened ValueArenas
  import opened ValueThread
  import opened ValueValidate
  import opened ValueWalk
  import opened ValueTotals
  import opened ValueBytes

  datatype ReleaseResult = Left(order: seq<nat>) | Invalid(verdict: ValueVerdict) | ContextMismatch | BindingGone

  // ---------------------------------------------------------------- before the walk

  /** src/resources.cpp:3044-3068: an active, non-empty account of another owner. */
  predicate Foreign(a: Account, token: nat) {
    a.active && a.bytes != 0 && a.owner != token
  }

  ghost predicate AnyForeign(v: TupleValue, token: nat) {
    || (exists k: nat :: k < |v.payloads| && Foreign(v.payloads[k].account, token))
    || (exists k: nat :: k < |v.reservations| && Foreign(v.reservations[k].account, token))
    || Foreign(v.rootReservation.account, token)
  }

  method FindForeign(v: TupleValue, token: nat) returns (found: bool)
    ensures found <==> AnyForeign(v, token)
  {
    for k := 0 to |v.payloads|
      invariant forall j :: 0 <= j < k ==> !Foreign(v.payloads[j].account, token)
    {
      if Foreign(v.payloads[k].account, token) {
        return true;
      }
    }
    for k := 0 to |v.reservations|
      invariant forall j :: 0 <= j < k ==> !Foreign(v.reservations[j].account, token)
    {
      if Foreign(v.reservations[k].account, token) {
        return true;
      }
    }
    found := Foreign(v.rootReservation.account, token);
  }

  lemma ValidIsReady(buffers: seq<HostBuffer>, owners: set<nat>, v: TupleValue, token: nat, mode: Mode)
    requires ValidTuple(buffers, owners, v) && token != 0
    requires mode != Destroy ==> !AnyForeign(v, token)
    ensures AllReady(buffers, v, token, mode)
  {
    forall i: nat | i < NodeCount(v) ensures Ready(buffers, AccountAt(v, i), PurposeAt(v, i), token, mode) {
      assert SlotExists(v, SlotOf(v, i)) && SlotOk(buffers, owners, v, i);
    }
  }

  /** A valid, fully accounted value of this context gives back the canonical bytes of all its accounts. */
  lemma AllBytesHeld(buffers: seq<HostBuffer>, owners: set<nat>, v: TupleValue, token: nat)
    requires ValidTuple(buffers, owners, v) && SlotsExist(v) && !AnyForeign(v, token) && FullyAccounted(v)
    ensures HeldBytes(buffers, v, token) == CanonicalBytes(v)
  {
    forall i: nat | i < NodeCount(v) && SlotOf(v, i) != NoSlot
      ensures SlotExists(v, SlotOf(v, i)) && BytesAt(buffers, AccountOf(v, SlotOf(v, i)).storage, token) == AccountOf(v, SlotOf(v, i)).bytes
    {
      assert SlotExists(v, SlotOf(v, i)) && SlotOk(buffers, owners, v, i) && Accounted(AccountAt(v, i));
    }
    forall k: nat | k < |v.payloads| ensures BytesAt(buffers, v.payloads[k].account.storage, token) == v.payloads[k].account.bytes {
      assert SlotUsed(v, PayloadSlot(k));
    }
    forall k: nat | k < |v.reservations| ensures BytesAt(buffers, v.reservations[k].account.storage, token) == v.reservations[k].account.bytes {
      assert SlotUsed(v, TableSlot(k));
    }
    assert SlotOf(v, |v.nodes|) == RootSlot;
    HeldIsCanonical(buffers, v, token);
  }

  // ---------------------------------------------------------------- the detached value

  function DetachedPayloads(ps: seq<Payload>): (r: seq<Payload>)
    ensures |r| == |ps| && forall k :: 0 <= k < |ps| ==> r[k] == LeftPayload(ps[k], Detach)
  {
    seq(|ps|, k requires 0 <= k < |ps| => LeftPayload(ps[k], Detach))
  }

  function DetachedReservations(rs: seq<Reservation>): (r: seq<Reservation>)
    ensures |r| == |rs| && forall k :: 0 <= k < |rs| ==> r[k] == LeftReservation(rs[k], Detach)
  {
    seq(|rs|, k requires 0 <= k < |rs| => LeftReservation(rs[k], Detach))
  }

  /** The same value with every account inactive and without an owner. */
  function DetachedTuple(v: TupleValue): TupleValue {
    v.(payloads := DetachedPayloads(v.payloads), reservations := DetachedReservations(v.reservations),
       rootReservation := LeftReservation(v.rootReservation, Detach))
  }

  /** Nothing about a value changed but who is charged for its buffers: nobody any more. */
  ghost predicate OnlyUncharged(was: TupleValue, now: TupleValue) {
    && now.nodes == was.nodes && now.childIndexes == was.childIndexes && now.rootIndex == was.rootIndex
    && now.firstChild == was.firstChild && now.childCount == was.childCount
    && |now.payloads| == |was.payloads| && |now.reservations| == |was.reservations|
    && (forall k :: 0 <= k < |was.payloads| ==>
          now.payloads[k] == Payload(was.payloads[k].element, was.payloads[k].elements, Uncharged(was.payloads[k].account)))
    && (forall k :: 0 <= k < |was.reservations| ==>
          now.reservations[k] == Reservation(was.reservations[k].elementCount, Uncharged(was.reservations[k].account)))
    && now.rootReservation == Reservation(was.rootReservation.elementCount, Uncharged(was.rootReservation.account))
  }

  function Uncharged(a: Account): Account {
    Account(a.storage, a.bytes, false, 0, a.ordinal)
  }

  lemma DetachedFields(v: TupleValue)
    ensures OnlyUncharged(v, DetachedTuple(v))
  {
  }

  /** Every buffer address of the value. */
  ghost function AllStorages(v: TupleValue): set<nat>
    requires SlotsExist(v)
  {
    set i: nat | i < NodeCount(v) && StorageAt(v, i) != 0 :: StorageAt(v, i)
  }

  lemma StoragesOfAll(v: TupleValue, order: seq<nat>)
    requires SlotsExist(v) && InTable(v, order) && forall i: nat :: i < NodeCount(v) ==> i in order
    ensures StoragesOf(v, order) == AllStorages(v)
  {
    forall x | x in AllStorages(v) ensures x in StoragesOf(v, order) {
      var i: nat :| i < NodeCount(v) && StorageAt(v, i) != 0 && StorageAt(v, i) == x;
      assert i in order;
      var k :| 0 <= k < |order| && order[k] == i;
      assert StorageAt(v, order[k]) == x;
    }
  }

  lemma DetachedSameSlots(v: TupleValue)
    ensures TableOf(DetachedTuple(v)) == TableOf(v)
    ensures forall i: nat :: i < NodeCount(v) ==>
              && SlotOf(DetachedTuple(v), i) == SlotOf(v, i) && NodeFieldsOk(DetachedTuple(v), i) == NodeFieldsOk(v, i)
              && SlotExists(DetachedTuple(v), SlotOf(v, i)) == SlotExists(v, SlotOf(v, i))
              && (SlotExists(v, SlotOf(v, i)) ==> StorageAt(DetachedTuple(v), i) == StorageAt(v, i))
  {
    assert TableOf(DetachedTuple(v)).spans == TableOf(v).spans;
  }

  /** Detaching changes neither the structure of a value nor the tree it denotes. */
  lemma DetachedSameTree(v: TupleValue)
    requires Structured(v)
    ensures Structured(DetachedTuple(v)) && ValueOf(DetachedTuple(v)) == ValueOf(v)
  {
    var d := DetachedTuple(v);
    DetachedSameSlots(v);
    assert forall s: Slot :: SlotUsed(v, s) ==> SlotUsed(d, s) by {
      forall s: Slot | SlotUsed(v, s) ensures SlotUsed(d, s) {
        var i: nat :| i < NodeCount(v) && SlotOf(v, i) == s;
        assert SlotOf(d, i) == s;
      }
    }
    assert Structured(d);
    assert ValueTags(d) == ValueTags(v) by {
      forall i: nat | i < NodeCount(v) ensures ValueTagAt(d, i) == ValueTagAt(v, i) {
        assert SlotExists(v, SlotOf(v, i));
      }
    }
  }

  lemma DetachedAccountsOk(buffers: seq<HostBuffer>, owners: set<nat>, storages: set<nat>)
    ensures forall p: Payload :: PayloadOk(buffers, owners, p) ==> PayloadOk(BuffersWithout(buffers, storages, Detach), owners, LeftPayload(p, Detach))
    ensures forall r: Reservation, c: nat :: ReservationOk(buffers, owners, r, c) ==>
              ReservationOk(BuffersWithout(buffers, storages, Detach), owners, LeftReservation(r, Detach), c)
  {
  }

  lemma DetachedValid(buffers: seq<HostBuffer>, owners: set<nat>, v: TupleValue)
    requires ValidTuple(buffers, owners, v)
    ensures ValidTuple(BuffersWithout(buffers, AllStorages(v), Detach), owners, DetachedTuple(v))
  {
    var after, d := BuffersWithout(buffers, AllStorages(v), Detach), DetachedTuple(v);
    DetachedSameTree(v);
    DetachedSameSlots(v);
    DetachedAccountsOk(buffers, owners, AllStorages(v));
    hide Structured, PayloadOk, ReservationOk, LeftPayload, LeftReservation;
    forall i: nat | i < NodeCount(d) ensures SlotOk(after, owners, d, i) {
      assert SlotOk(buffers, owners, v, i);
    }
  }

  // ---------------------------------------------------------------- after the walk

  /** `Threads` with every node's account detached, put back, is the detached value. */
  lemma RestoredNode(buffers: seq<HostBuffer>, owners: set<nat>, was: TupleValue, now: TupleValue, cursors: seq<nat>, order: seq<nat>, j: nat)
    requires ValidTuple(buffers, owners, was) && Threads(was, now, cursors) && LeftTables(was, now, order, Detach) && j < |was.nodes|
    ensures now.nodes[j].container == was.nodes[j].container
    ensures was.nodes[j].container == TupleC ==>
              && now.nodes[j].reservation == was.nodes[j].reservation < |now.reservations|
              && was.nodes[j] == now.nodes[j].(childCount := now.reservations[now.nodes[j].reservation].elementCount, payload := 0)
    ensures was.nodes[j].container != TupleC ==> was.nodes[j] == now.nodes[j].(firstChild := 0)
  {
    assert NodeFieldsOk(was, j) && SlotExists(was, SlotOf(was, j)) && SlotOk(buffers, owners, was, j);
  }

  lemma DetachedTables(was: TupleValue, now: TupleValue, order: seq<nat>)
    requires Structured(was) && LeftTables(was, now, order, Detach) && forall i: nat :: i < NodeCount(was) ==> i in order
    ensures now.payloads == DetachedPayloads(was.payloads)
    ensures now.reservations == DetachedReservations(was.reservations)
    ensures now.rootReservation == LeftReservation(was.rootReservation, Detach)
  {
    forall k: nat | k < |was.payloads| ensures now.payloads[k] == DetachedPayloads(was.payloads)[k] {
      assert SlotUsed(was, PayloadSlot(k));
      var i: nat :| i < NodeCount(was) && SlotOf(was, i) == PayloadSlot(k);
      assert SlotOf(was, i).PayloadSlot? && SlotOf(was, i).index == k;
    }
    forall k: nat | k < |was.reservations| ensures now.reservations[k] == DetachedReservations(was.reservations)[k] {
      assert SlotUsed(was, TableSlot(k));
      var i: nat :| i < NodeCount(was) && SlotOf(was, i) == TableSlot(k);
      assert SlotOf(was, i).TableSlot? && SlotOf(was, i).index == k;
    }
  }

  /** src/resources.cpp:3455-3467: the counts come back from the reservations, the parent links are cleared. */
  method RestoreNodes(owner: ValueOwner, ghost buffers: seq<HostBuffer>, ghost owners: set<nat>, ghost was: TupleValue,
                      ghost cursors: seq<nat>, ghost order: seq<nat>)
    requires ValidTuple(buffers, owners, was)
    requires Threads(was, owner.tuple, cursors) && LeftTables(was, owner.tuple, order, Detach)
    requires forall i: nat :: i < NodeCount(was) ==> i in order
    modifies owner`tuple
    ensures owner.tuple == DetachedTuple(was)
  {
    ghost var now := owner.tuple;
    DetachedTables(was, now, order);
    assert SlotOf(was, |was.nodes|) == RootSlot && SlotOk(buffers, owners, was, |was.nodes|);
    assert was.childCount == now.rootReservation.elementCount;
    owner.tuple := owner.tuple.(childCount := owner.tuple.rootReservation.elementCount);
    ghost var tables := owner.tuple;
    for j := 0 to |owner.tuple.nodes|
      invariant |owner.tuple.nodes| == |was.nodes| && owner.tuple == tables.(nodes := owner.tuple.nodes)
      invariant forall i: nat :: i < |was.nodes| ==> owner.tuple.nodes[i] == if i < j then was.nodes[i] else now.nodes[i]
    {
      RestoredNode(buffers, owners, was, now, cursors, order, j);
      var node := owner.tuple.nodes[j];
      if node.container == TupleC {
        node := node.(childCount := owner.tuple.reservations[node.reservation].elementCount, payload := 0);
      } else {
        node := node.(firstChild := 0);
      }
      owner.tuple := owner.tuple.(nodes := owner.tuple.nodes[j := node]);
    }
    assert owner.tuple.nodes == was.nodes;
  }

  // ---------------------------------------------------------------- the operations

  /** A finished walk, in terms of the value alone: the order, the ledger and the buffers. */
  lemma WalkTotals(b: Before, now: TupleValue, buffers: seq<HostBuffer>, live: nat, refs: nat, cursors: seq<nat>, order: seq<nat>)
    requires WalkDone(b, now, buffers, live, refs, cursors, order)
    ensures Structured(b.was) && order == RevPost(TableOf(b.was), |b.was.nodes|)
    ensures Distinct(order) && forall i: nat :: i in order <==> i < NodeCount(b.was)
    ensures InTable(b.was, order)
    ensures live == b.live - HeldBytes(b.buffers, b.was, b.token) && refs == b.refs - ReferenceSum(b.buffers, b.was, order, b.token)
    ensures buffers == BuffersWithout(b.buffers, AllStorages(b.was), b.mode)
    ensures Covered(buffers, b.token, live, refs)
    ensures Threads(b.was, now, cursors) && LeftTables(b.was, now, order, b.mode)
    ensures b.mode == Destroy || FullyAccounted(b.was)
    ensures live - ActiveBytes(buffers, b.token) == b.live - ActiveBytes(b.buffers, b.token)
    ensures refs - ActiveCount(buffers, b.token) == b.refs - ActiveCount(b.buffers, b.token)
  {
    WholeWalk(TableOf(b.was));
    RefundIsHeldBytes(b.buffers, b.was, order, b.token);
    StoragesOfAll(b.was, order);
    AllLeftOff(b.buffers, b.was, order, b.mode, b.token);
  }

  /** Detached buffers stay, without their bindings; released and destroyed ones go. */
  lemma WithoutMeans(buffers: seq<HostBuffer>, storages: set<nat>, mode: Mode)
    ensures mode == Detach ==> Detached(buffers, BuffersWithout(buffers, storages, mode), storages)
    ensures mode != Detach ==> Freed(buffers, BuffersWithout(buffers, storages, mode), storages)
  {
  }

  /** What taking a valid value apart must have done to the ledger and the buffers. */
  twostate predicate GaveBack(host: HostRegistry, state: ResourceState, was: TupleValue, mode: Mode, order: seq<nat>)
    requires Structured(was)
    reads host, state
  {
    && order == RevPost(TableOf(was), |was.nodes|)
    && Distinct(order) && (forall i: nat :: i in order <==> i < NodeCount(was))
    && InTable(was, order)
    && state.live == old(state.live) - HeldBytes(old(host.buffers), was, state.token)
    && state.refs == old(state.refs) - ReferenceSum(old(host.buffers), was, order, state.token)
    && host.buffers == BuffersWithout(old(host.buffers), AllStorages(was), mode)
    && SameRest(host, state)
    && Covered(host.buffers, state.token, state.live, state.refs)
  }

  /**
   src/resources.cpp:3250-3471 for tuples.  Detaching succeeds exactly for the valid, fully accounted values of
   this context.  It then leaves every node once, gives back exactly the bytes the value holds, deactivates
   exactly its bindings, and restores every field it borrowed: the value keeps its tree and is still valid.
   */
  method DetachReservations(owner: ValueOwner, host: HostRegistry, state: ResourceState, owners: set<nat>) returns (r: ReleaseResult)
    requires state.token != 0 && Covered(host.buffers, state.token, state.live, state.refs)
    modifies owner`tuple, host, state
    ensures r.Invalid? <==> !old(ValidTuple(host.buffers, owners, owner.tuple))
    ensures r == ContextMismatch <==> old(ValidTuple(host.buffers, owners, owner.tuple) && AnyForeign(owner.tuple, state.token))
    ensures r.Left? <==>
              old(ValidTuple(host.buffers, owners, owner.tuple) && !AnyForeign(owner.tuple, state.token) && FullyAccounted(owner.tuple))
    ensures r.Left? ==>
              && OnlyUncharged(old(owner.tuple), owner.tuple)
              && GaveBack(host, state, old(owner.tuple), Detach, r.order)
              && Detached(old(host.buffers), host.buffers, AllStorages(old(owner.tuple)))
              && state.live == old(state.live) - TreeBytes(ValueOf(old(owner.tuple)))
              && ValidTuple(host.buffers, owners, owner.tuple)
              && ValueOf(owner.tuple) == ValueOf(old(owner.tuple))
    ensures r.Invalid? || r == ContextMismatch ==>
              owner.tuple == old(owner.tuple) && host.buffers == old(host.buffers) && state.live == old(state.live) && state.refs == old(state.refs)
  {
    var verdict := ValidateTuple(host.buffers, owners, owner.tuple);
    if verdict != ValidValue {
      return Invalid(verdict);
    }
    var foreign := FindForeign(owner.tuple, state.token);
    if foreign {
      return ContextMismatch;
    }
    ghost var was, buffers := owner.tuple, host.buffers;
    DetachedSameTree(was);
    DetachedValid(buffers, owners, was);
    DetachedFields(was);
    if FullyAccounted(was) { AllBytesHeld(buffers, owners, was, state.token); }
    CanonicalIsTreeBytes(buffers, owners, was);
    hide OnlyUncharged, TreeBytes, Detached, CanonicalBytes, ValidTuple, AnyForeign, FullyAccounted, ValueOf, HeldBytes, DetachedTuple, Structured, RevPost, AllStorages, Covered;
    r := DetachWalk(owner, host, state, owners);
  }

  /** src/resources.cpp:3302-3470: thread, walk, restore. */
  method DetachWalk(owner: ValueOwner, host: HostRegistry, state: ResourceState, ghost owners: set<nat>) returns (r: ReleaseResult)
    requires state.token != 0 && Covered(host.buffers, state.token, state.live, state.refs)
    requires ValidTuple(host.buffers, owners, owner.tuple) && !AnyForeign(owner.tuple, state.token)
    modifies owner`tuple, host, state
    ensures r.Left? || r == BindingGone
    ensures r.Left? <==> old(FullyAccounted(owner.tuple))
    ensures r.Left? ==>
              && owner.tuple == DetachedTuple(old(owner.tuple))
              && GaveBack(host, state, old(owner.tuple), Detach, r.order)
              && Detached(old(host.buffers), host.buffers, AllStorages(old(owner.tuple)))
  {
    hide Freed, Detached, ActiveBytes, ActiveCount, ValidTuple, AllReady, Covered, Threads, FullyAccounted, WalkDone, AnyForeign, LeftTables, RevPost, Structured, HeldBytes, DetachedTuple,
         WellFormed, TableOf, SlotsExist, AllStorages, BuffersWithout, ReferenceSum, InTable, Distinct, FullCursors;
    ghost var was, buffers := owner.tuple, host.buffers;
    ghost var b := Before(was, buffers, state.live, state.refs, state.token, Detach);
    ValidIsReady(buffers, owners, was, state.token, Detach);
    ValidIsStructured(buffers, owners, was);
    SetParents(owner);
    var ok, order, cursors := Walk(owner, host, state, Detach, was);
    if !ok {
      return BindingGone;
    }
    WalkTotals(b, owner.tuple, host.buffers, state.live, state.refs, cursors, order);
    WithoutMeans(buffers, AllStorages(was), Detach);
    RestoreNodes(owner, buffers, owners, was, cursors, order);
    return Left(order);
  }

  /** Thread and walk, freeing every buffer. */
  method FreeWalk(owner: ValueOwner, host: HostRegistry, state: ResourceState, mode: Mode, ghost owners: set<nat>) returns (r: ReleaseResult)
    requires state.token != 0 && Covered(host.buffers, state.token, state.live, state.refs) && mode != Detach
    requires ValidTuple(host.buffers, owners, owner.tuple) && (mode != Destroy ==> !AnyForeign(owner.tuple, state.token))
    modifies owner, host, state
    ensures r.Left? || r == BindingGone
    ensures r.Left? <==> mode == Destroy || old(FullyAccounted(owner.tuple))
    ensures r.Left? ==>
              && !owner.claimed && GaveBack(host, state, old(owner.tuple), mode, r.order)
              && Freed(old(host.buffers), host.buffers, AllStorages(old(owner.tuple)))
  {
    hide Freed, Detached, ActiveBytes, ActiveCount, ValidTuple, AllReady, Covered, Threads, FullyAccounted, WalkDone, AnyForeign, LeftTables, RevPost, Structured, HeldBytes,
         WellFormed, TableOf, SlotsExist, AllStorages, BuffersWithout, ReferenceSum, InTable, Distinct, FullCursors;
    ghost var was, buffers := owner.tuple, host.buffers;
    ghost var b := Before(was, buffers, state.live, state.refs, state.token, mode);
    ValidIsReady(buffers, owners, was, state.token, mode);
    ValidIsStructured(buffers, owners, was);
    SetParents(owner);
    var ok, order, cursors := Walk(owner, host, state, mode, was);
    if !ok {
      return BindingGone;
    }
    WalkTotals(b, owner.tuple, host.buffers, state.live, state.refs, cursors, order);
    WithoutMeans(buffers, AllStorages(was), mode);
    owner.claimed := false;
    return Left(order);
  }

  /**
   src/resources.cpp:3021-3248 for tuples: as detaching, but every buffer is freed and the value is given up.
   */
  method ReleaseReservations(owner: ValueOwner, host: HostRegistry, state: ResourceState, owners: set<nat>) returns (r: ReleaseResult)
    requires state.token != 0 && Covered(host.buffers, state.token, state.live, state.refs)
    modifies owner, host, state
    ensures r.Invalid? <==> !old(ValidTuple(host.buffers, owners, owner.tuple))
    ensures r == ContextMismatch <==> old(ValidTuple(host.buffers, owners, owner.tuple) && AnyForeign(owner.tuple, state.token))
    ensures r.Left? <==>
              old(ValidTuple(host.buffers, owners, owner.tuple) && !AnyForeign(owner.tuple, state.token) && FullyAccounted(owner.tuple))
    ensures r.Left? ==>
              && !owner.claimed && GaveBack(host, state, old(owner.tuple), Release, r.order)
              && Freed(old(host.buffers), host.buffers, AllStorages(old(owner.tuple)))
              && state.live == old(state.live) - TreeBytes(ValueOf(old(owner.tuple)))
    ensures r.Invalid? || r == ContextMismatch ==>
              owner.tuple == old(owner.tuple) && host.buffers == old(host.buffers) && state.live == old(state.live) && state.refs == old(state.refs)
  {
    var verdict := ValidateTuple(host.buffers, owners, owner.tuple);
    if verdict != ValidValue {
      return Invalid(verdict);
    }
    var foreign := FindForeign(owner.tuple, state.token);
    if foreign {
      return ContextMismatch;
    }
    ValidIsStructured(host.buffers, owners, owner.tuple);
    if FullyAccounted(owner.tuple) { AllBytesHeld(host.buffers, owners, owner.tuple, state.token); }
    CanonicalIsTreeBytes(host.buffers, owners, owner.tuple);
    hide TreeBytes, ValueOf, Freed, ValidTuple, AnyForeign, FullyAccounted, HeldBytes, CanonicalBytes, Structured, RevPost, AllStorages, Covered;
    r := FreeWalk(owner, host, state, Release, owners);
  }

  /**
   src/value.cpp:1423-1590 and src/resources.cpp:671-744 for tuples.  A value that was already given up is left
   alone.  Unlike a release, destruction also frees buffers that carry no accounting and pays back every context
   that has a charge on one of the buffers; `state` is any context, and gets exactly its own bytes and references.
   */
  method DestroyValue(owner: ValueOwner, host: HostRegistry, state: ResourceState, owners: set<nat>) returns (r: ReleaseResult)
    requires state.token != 0 && Covered(host.buffers, state.token, state.live, state.refs)
    modifies owner, host, state
    ensures r.Invalid? <==> old(owner.claimed) && !old(ValidTuple(host.buffers, owners, owner.tuple))
    ensures r.Left? || r.Invalid?
    ensures r.Left? && old(owner.claimed) ==>
              && !owner.claimed && GaveBack(host, state, old(owner.tuple), Destroy, r.order)
              && Freed(old(host.buffers), host.buffers, AllStorages(old(owner.tuple)))
    ensures !old(owner.claimed) || r.Invalid? ==>
              owner.tuple == old(owner.tuple) && host.buffers == old(host.buffers) && state.live == old(state.live) && state.refs == old(state.refs)
  {
    if !owner.claimed {
      return Left([]);
    }
    var verdict := ValidateTuple(host.buffers, owners, owner.tuple);
    if verdict != ValidValue {
      return Invalid(verdict);
    }
    ValidIsStructured(host.buffers, owners, owner.tuple);
    hide Freed, ValidTuple, AnyForeign, FullyAccounted, HeldBytes, Structured, RevPost, AllStorages, Covered;
    r := FreeWalk(owner, host, state, Destroy, owners);
  }

  lemma ValidIsStructured(buffers: seq<HostBuffer>, owners: set<nat>, v: TupleValue)
    requires ValidTuple(buffers, owners, v)
    ensures Structured(v) && SlotsExist(v) && WellFormed(TableOf(v))
  {
  }
}
