/** src/resources.cpp:2104-2330 and 2642-2690: admitting a preadmitted tuple, and giving up one that was never published. */
module PreadmitRelease {
  import opened Kinds
  import opened Arena
  import opened HostStorage
  import opened AccountRelease
  import opened ValueArenas
  import opened ValueThread
  import opened ValueElements
  import opened ValueBuild
  import opened ValueWalk
  import opened ValueTotals
  import opened ValueRelease
  import opened Resources
  import opened ValueTuple
  import opened Preadmit

  /** The buffers are those of before, and whatever was added is gone again. */
  ghost predicate NothingAdded(before: seq<HostBuffer>, after: seq<HostBuffer>) {
    && |after| >= |before|
    && forall k :: 0 <= k < |after| ==> if k < |before| then after[k] == before[k] else !after[k].registered && !after[k].active
  }

  lemma NoneAdded(buffers: seq<HostBuffer>)
    ensures NothingAdded(buffers, buffers)
  {
  }

  lemma LastFreed(before: seq<HostBuffer>, between: seq<HostBuffer>, after: seq<HostBuffer>, storage: nat)
    requires Freed(between, after, {storage})
    requires if storage == 0 then between == before else storage == |between| == |before| + 1 && between[..|before|] == before
    ensures NothingAdded(before, after)
  {
    forall k | 0 <= k < |before| ensures after[k] == before[k] {
      assert between[..|before|][k] == between[k];
    }
    if storage != 0 { assert !ValidAddress(after, storage) && !after[storage - 1].active; }
  }

  /** The table just reserved can be given back. */
  lemma TableReleases(r: EvaluationResources, owners: set<nat>, t: Reservation, count: nat)
    requires ReservationOk(r.host.buffers, owners, t, count) && t.account.active && (count != 0 ==> t.account.owner == r.state.token)
    ensures r.TableReleasable(t)
  {
  }

  /**
   src/resources.cpp:2104-2330.  The root table is reserved first and given back when the index tables cannot be
   had, which also happens when there are fewer edges than slots.
   */
  method PreadmitTuple(r: EvaluationResources, owners: set<nat>, elementCount: nat, cap: Capacity, hostFails: bool, metadataFails: bool)
    returns (a: Option<PreadmittedTuple>)
    requires r.Valid() && r.state.token in owners && r.Unbound() >= 0 && r.OtherReferences() >= 1
    modifies r`work, r`ordinal, r.host, r.state
    ensures r.Valid() && r.Unbound() == old(r.Unbound()) && r.OtherReferences() == old(r.OtherReferences())
    ensures a.Some? <==>
              && old(r.TableAdmissible(elementCount, hostFails)) && cap.edges >= elementCount
              && (metadataFails ==> cap == Capacity(0, 0, 0, 0))
    ensures a.Some? ==>
              && fresh(a.value) && a.value.Valid() && a.value.claimed && a.value.elementCount == elementCount && a.value.transferred == 0
              && a.value.Room() == cap.(edges := cap.edges - elementCount)
              && ReservationOk(r.host.buffers, owners, a.value.root, elementCount)
              && r.state.live == old(r.state.live) + elementCount * SLOT_BYTES
              && r.host.buffers == old(r.host.buffers) + (if elementCount == 0 then []
                   else [Bound(elementCount * SLOT_BYTES, r.state.token, old(r.ordinal), TupleTable)])
    ensures a == None ==>
              && r.state.live == old(r.state.live) && NothingAdded(old(r.host.buffers), r.host.buffers)
    ensures r.work == old(r.work)
  {
    hide LeftBuffers, Matches, Freed, NothingAdded, ActiveBytes, ActiveCount;
    NoneAdded(r.host.buffers);
    ghost var before := r.host.buffers;
    var reserved := r.ReserveTable(elementCount, hostFails, owners);
    if reserved.TableDenied? {
      return None;
    }
    ghost var between := r.host.buffers;
    if cap.edges < elementCount || (cap != Capacity(0, 0, 0, 0) && metadataFails) {
      TableReleases(r, owners, reserved.reservation, elementCount);
      var released, left := r.ReleaseTable(reserved.reservation);
      LastFreed(before, between, r.host.buffers, reserved.reservation.account.storage);
      return None;
    }
    var assembly := new PreadmittedTuple(elementCount, cap, reserved.reservation);
    return Some(assembly);
  }

  // ---------------------------------------------------------------- giving up one element

  /** Bytes that the buffers of one element charge to `token`. */
  ghost function HeldBy(buffers: seq<HostBuffer>, token: nat, e: Value): nat {
    match e
    case ScalarV(_) => 0
    case VectorV(p) => BytesAt(buffers, p.account.storage, token)
    case TupleV(t) => HeldBytes(buffers, t, token)
  }

  ghost function HeldByAll(buffers: seq<HostBuffer>, token: nat, es: seq<Value>): nat {
    if es == [] then 0 else HeldByAll(buffers, token, es[..|es| - 1]) + HeldBy(buffers, token, es[|es| - 1])
  }

  lemma StoragesOfTuple(t: TupleValue)
    requires Structured(t)
    ensures AllStorages(t) == StoragesIn(TupleV(t))
  {
    var e := TupleV(t);
    TupleSlots(t);
    assert |ReservationsOf(e)| == |t.reservations| + 1 && ReservationsOf(e)[|t.reservations|] == t.rootReservation;
    assert forall k :: 0 <= k < |t.reservations| ==> ReservationsOf(e)[k] == t.reservations[k];
    forall x | x in AllStorages(t) ensures x in StoragesIn(e) {
      var i: nat :| i < NodeCount(t) && StorageAt(t, i) != 0 && StorageAt(t, i) == x;
      StorageOfPosition(e, i);
    }
    forall x | x in StoragesIn(e) ensures x in AllStorages(t) {
      if k: nat :| k < |t.payloads| && t.payloads[k].account.storage == x {
        assert SlotUsed(t, PayloadSlot(k));
        var i: nat :| i < NodeCount(t) && SlotOf(t, i) == PayloadSlot(k);
        assert StorageAt(t, i) == x;
      } else if k: nat :| k < |t.reservations| && t.reservations[k].account.storage == x {
        assert SlotUsed(t, TableSlot(k));
        var i: nat :| i < NodeCount(t) && SlotOf(t, i) == TableSlot(k);
        assert StorageAt(t, i) == x;
      } else {
        assert StorageAt(t, |t.nodes|) == x;
      }
    }
  }

  lemma LeavingVector(buffers: seq<HostBuffer>, owners: set<nat>, token: nat, p: Payload)
    requires ValidElementValue(buffers, owners, VectorV(p)) && token != 0
    ensures Ready(buffers, p.account, VectorPayload, token, Destroy)
    ensures LeftBuffers(buffers, p.account, Destroy) == BuffersWithout(buffers, StoragesIn(VectorV(p)), Destroy)
  {
    assert PayloadsOf(VectorV(p))[0] == p;
    assert StoragesIn(VectorV(p)) == if p.account.storage == 0 then {} else {p.account.storage};
  }

  /** Every buffer address of the elements. */
  ghost function SlotStorages(es: seq<Value>): set<nat> {
    set k, x | 0 <= k < |es| && x in StoragesIn(es[k]) :: x
  }

  lemma SlotStoragesStep(es: seq<Value>, k: nat)
    requires k < |es|
    ensures SlotStorages(es[k..]) == SlotStorages(es[k + 1..]) + StoragesIn(es[k])
  {
    hide StoragesIn;
    var now, rest := es[k..], es[k + 1..];
    assert now[0] == es[k];
    forall x | x in SlotStorages(now) ensures x in SlotStorages(rest) + StoragesIn(es[k]) {
      var j :| 0 <= j < |now| && x in StoragesIn(now[j]);
      if j != 0 { assert rest[j - 1] == now[j]; }
    }
    forall x | x in SlotStorages(rest) ensures x in SlotStorages(now) {
      var j :| 0 <= j < |rest| && x in StoragesIn(rest[j]);
      assert now[j + 1] == rest[j];
    }
  }

  /** src/resources.cpp:600-744: free the element's buffers and give its bytes back. */
  method DestroyElement(host: HostRegistry, state: ResourceState, ghost owners: set<nat>, e: Value)
    requires state.token != 0 && Covered(host.buffers, state.token, state.live, state.refs)
    requires ValidElementValue(host.buffers, owners, e)
    modifies host, state
    ensures state.live == old(state.live) - HeldBy(old(host.buffers), state.token, e)
    ensures host.buffers == BuffersWithout(old(host.buffers), StoragesIn(e), Destroy)
    ensures Freed(old(host.buffers), host.buffers, StoragesIn(e))
    ensures SameRest(host, state)
    ensures Covered(host.buffers, state.token, state.live, state.refs)
  {
    hide Covered, BuffersWithout, HeldBytes, BytesAt, Freed, ActiveBytes, ActiveCount;
    WithoutMeans(host.buffers, StoragesIn(e), Destroy);
    match e
    case ScalarV(_) =>
      NothingLeft(host.buffers, e);
    case VectorV(p) =>
      LeavingVector(host.buffers, owners, state.token, p);
      hide StoragesIn;
      var ok, left := LeaveAccount(host, state, p.account, VectorPayload, Destroy);
    case TupleV(t) =>
      ValidIsStructured(host.buffers, owners, t);
      StoragesOfTuple(t);
      hide StoragesIn, AllStorages, ValidTuple, Structured, AnyForeign, FullyAccounted;
      var owner := new ValueOwner(t);
      var r := FreeWalk(owner, host, state, Destroy, owners);
  }

  lemma NothingLeft(buffers: seq<HostBuffer>, e: Value)
    requires e.ScalarV?
    ensures StoragesIn(e) == {} && BuffersWithout(buffers, StoragesIn(e), Destroy) == buffers
  {
    assert StoragesIn(e) == {};
  }

  // ---------------------------------------------------------------- elements with other buffers are not disturbed

  lemma OthersPayload(buffers: seq<HostBuffer>, owners: set<nat>, gone: set<nat>, p: Payload)
    requires PayloadOk(buffers, owners, p) && p.account.storage !in gone
    ensures PayloadOk(BuffersWithout(buffers, gone, Destroy), owners, p)
  {
  }

  lemma OthersReservation(buffers: seq<HostBuffer>, owners: set<nat>, gone: set<nat>, r: Reservation, count: nat)
    requires ReservationOk(buffers, owners, r, count) && r.account.storage !in gone
    ensures ReservationOk(BuffersWithout(buffers, gone, Destroy), owners, r, count)
  {
  }

  lemma OthersTuple(buffers: seq<HostBuffer>, owners: set<nat>, gone: set<nat>, t: TupleValue)
    requires ValidTuple(buffers, owners, t) && 0 !in gone
    requires AllStorages(t) !! gone
    ensures ValidTuple(BuffersWithout(buffers, gone, Destroy), owners, t)
  {
    var after := BuffersWithout(buffers, gone, Destroy);
    forall i: nat | i < NodeCount(t) ensures SlotOk(after, owners, t, i) {
      assert SlotOk(buffers, owners, t, i);
      assert StorageAt(t, i) != 0 ==> StorageAt(t, i) in AllStorages(t);
      match SlotOf(t, i) {
        case NoSlot =>
        case PayloadSlot(k) => OthersPayload(buffers, owners, gone, t.payloads[k]);
        case TableSlot(k) => OthersReservation(buffers, owners, gone, t.reservations[k], SpanOf(t, i).count);
        case RootSlot => OthersReservation(buffers, owners, gone, t.rootReservation, t.childCount);
      }
    }
  }

  lemma OthersValid(buffers: seq<HostBuffer>, owners: set<nat>, gone: set<nat>, e: Value)
    requires ValidElementValue(buffers, owners, e) && 0 !in gone && StoragesIn(e) !! gone
    ensures ValidElementValue(BuffersWithout(buffers, gone, Destroy), owners, e)
  {
    match e {
      case ScalarV(_) =>
      case VectorV(p) =>
        assert PayloadsOf(e)[0] == p;
        assert p.account.storage != 0 ==> p.account.storage in StoragesIn(e);
        OthersPayload(buffers, owners, gone, p);
      case TupleV(t) =>
        StoragesOfTuple(t);
        hide ValidTuple, AllStorages, StoragesIn;
        OthersTuple(buffers, owners, gone, t);
    }
  }

  /** Buffers that go take nothing off what an element with other buffers holds. */
  lemma OthersHeld(buffers: seq<HostBuffer>, gone: set<nat>, token: nat, e: Value)
    requires 0 !in gone && StoragesIn(e) !! gone
    ensures HeldBy(BuffersWithout(buffers, gone, Destroy), token, e) == HeldBy(buffers, token, e)
  {
    var after := BuffersWithout(buffers, gone, Destroy);
    forall k | 0 <= k < |PayloadsOf(e)|
      ensures BytesAt(after, PayloadsOf(e)[k].account.storage, token) == BytesAt(buffers, PayloadsOf(e)[k].account.storage, token)
    {
      assert PayloadsOf(e)[k].account.storage != 0 ==> PayloadsOf(e)[k].account.storage in StoragesIn(e);
    }
    forall k | 0 <= k < |ReservationsOf(e)|
      ensures BytesAt(after, ReservationsOf(e)[k].account.storage, token) == BytesAt(buffers, ReservationsOf(e)[k].account.storage, token)
    {
      assert ReservationsOf(e)[k].account.storage != 0 ==> ReservationsOf(e)[k].account.storage in StoragesIn(e);
    }
    hide BytesAt, BuffersWithout, StoragesIn;
    match e {
      case ScalarV(_) =>
      case VectorV(p) => assert PayloadsOf(e)[0] == p;
      case TupleV(t) =>
        assert |ReservationsOf(e)| == |t.reservations| + 1 && ReservationsOf(e)[|t.reservations|] == t.rootReservation;
        assert forall k :: 0 <= k < |t.reservations| ==> ReservationsOf(e)[k] == t.reservations[k];
        assert PayloadsOf(e) == t.payloads;
        forall k | 0 <= k < |t.payloads| ensures PayloadCharges(after, t, token)[k] == PayloadCharges(buffers, t, token)[k] {
          assert PayloadsOf(e)[k] == t.payloads[k];
        }
        forall k | 0 <= k < |t.reservations| ensures TableCharges(after, t, token)[k] == TableCharges(buffers, t, token)[k] {
          assert ReservationsOf(e)[k] == t.reservations[k];
        }
        assert PayloadCharges(after, t, token) == PayloadCharges(buffers, t, token);
        assert TableCharges(after, t, token) == TableCharges(buffers, t, token);
    }
  }

  // ---------------------------------------------------------------- giving up the assembly

  /** Every filled slot holds a valid element, and no two share a buffer. */
  ghost predicate AllDisposable(buffers: seq<HostBuffer>, owners: set<nat>, es: seq<Value>) {
    && (forall k :: 0 <= k < |es| ==> ValidElementValue(buffers, owners, es[k]))
    && PairwiseApart(es)
  }

  lemma OthersStay(buffers: seq<HostBuffer>, owners: set<nat>, token: nat, es: seq<Value>)
    requires 0 < |es| && AllDisposable(buffers, owners, es)
    ensures var after := BuffersWithout(buffers, StoragesIn(es[|es| - 1]), Destroy);
            && AllDisposable(after, owners, es[..|es| - 1])
            && HeldByAll(after, token, es[..|es| - 1]) == HeldByAll(buffers, token, es[..|es| - 1])
  {
    hide ValidElementValue, BuffersWithout, StoragesIn, HeldBy, HeldByAll;
    var n := |es| - 1;
    NoNullStorage(es[n]);
    forall k | 0 <= k < n ensures ValidElementValue(BuffersWithout(buffers, StoragesIn(es[n]), Destroy), owners, es[..n][k]) {
      assert StoragesIn(es[k]) !! StoragesIn(es[n]);
      OthersValid(buffers, owners, StoragesIn(es[n]), es[k]);
    }
    forall j, k | 0 <= j < k < n ensures StoragesIn(es[..n][j]) !! StoragesIn(es[..n][k]) {
      assert StoragesIn(es[j]) !! StoragesIn(es[k]);
    }
    AllHeld(buffers, StoragesIn(es[n]), token, es[..n]);
  }

  lemma {:induction false} AllHeld(buffers: seq<HostBuffer>, gone: set<nat>, token: nat, es: seq<Value>)
    requires 0 !in gone && forall k :: 0 <= k < |es| ==> StoragesIn(es[k]) !! gone
    ensures HeldByAll(BuffersWithout(buffers, gone, Destroy), token, es) == HeldByAll(buffers, token, es)
  {
    hide BuffersWithout, StoragesIn, HeldBy;
    if es != [] {
      AllHeld(buffers, gone, token, es[..|es| - 1]);
      OthersHeld(buffers, gone, token, es[|es| - 1]);
    }
  }

  lemma RootStays(buffers: seq<HostBuffer>, a: Account, token: nat, gone: set<nat>)
    requires Ready(buffers, a, TupleTable, token, Destroy) && a.storage !in gone
    ensures Ready(BuffersWithout(buffers, gone, Destroy), a, TupleTable, token, Destroy)
    ensures BytesAt(BuffersWithout(buffers, gone, Destroy), a.storage, token) == BytesAt(buffers, a.storage, token)
  {
  }

  /** src/resources.cpp:2651-2658: every transferred element passed the same check before. */
  method CheckSlots(a: PreadmittedTuple) returns (safe: bool)
    requires a.Valid() && a.claimed
    ensures safe
  {
    hide LayoutSafe, TotalsOf;
    for k := 0 to a.transferred {
      safe := CheckLayout(a.slots[k].value);
      if !safe {
        return;
      }
    }
    safe := true;
  }

  /** src/resources.cpp:2659-2663. */
  method DestroySlots(a: PreadmittedTuple, host: HostRegistry, state: ResourceState, ghost owners: set<nat>, ghost es: seq<Value>)
    requires state.token != 0 && Covered(host.buffers, state.token, state.live, state.refs)
    requires |es| == a.transferred <= a.slots.Length
    requires forall j :: 0 <= j < |es| ==> a.slots[j] == Some(es[j])
    requires AllDisposable(host.buffers, owners, es)
    requires Ready(host.buffers, a.root.account, TupleTable, state.token, Destroy)
    requires forall k :: 0 <= k < |es| ==> a.root.account.storage !in StoragesIn(es[k])
    modifies a.slots, host, state
    ensures state.live == old(state.live) - HeldByAll(old(host.buffers), state.token, es)
    ensures BytesAt(host.buffers, a.root.account.storage, state.token) == old(BytesAt(host.buffers, a.root.account.storage, state.token))
    ensures Ready(host.buffers, a.root.account, TupleTable, state.token, Destroy)
    ensures Freed(old(host.buffers), host.buffers, SlotStorages(es)) && SameRest(host, state)
    ensures Covered(host.buffers, state.token, state.live, state.refs)
  {
    hide AllDisposable, StoragesIn, Covered, BuffersWithout, Ready, ValidElementValue, HeldBy, BytesAt, Freed, SlotStorages, ActiveBytes, ActiveCount;
    var end := a.transferred;
    assert es[..end] == es;
    NoneFreed(host.buffers, es[end..]);
    while end != 0
      invariant 0 <= end <= |es|
      invariant forall j :: 0 <= j < end ==> a.slots[j] == Some(es[j])
      invariant AllDisposable(host.buffers, owners, es[..end])
      invariant Ready(host.buffers, a.root.account, TupleTable, state.token, Destroy)
      invariant state.live == old(state.live) - HeldByAll(old(host.buffers), state.token, es) + HeldByAll(host.buffers, state.token, es[..end])
      invariant BytesAt(host.buffers, a.root.account.storage, state.token) == old(BytesAt(host.buffers, a.root.account.storage, state.token))
      invariant Freed(old(host.buffers), host.buffers, SlotStorages(es[end..])) && SameRest(host, state)
      invariant Covered(host.buffers, state.token, state.live, state.refs)
    {
      ghost var now, mid := es[..end], host.buffers;
      SlotStoragesStep(es, end - 1);
      assert now[end - 1] == es[end - 1] && now[..end - 1] == es[..end - 1];
      OthersStay(host.buffers, owners, state.token, now);
      LastDisposable(host.buffers, owners, now);
      RootStays(host.buffers, a.root.account, state.token, StoragesIn(es[end - 1]));
      DestroyElement(host, state, owners, a.slots[end - 1].value);
      FreedBoth(old(host.buffers), mid, host.buffers, SlotStorages(es[end..]), StoragesIn(es[end - 1]));
      a.slots[end - 1] := None;
      end := end - 1;
    }
    assert es[0..] == es;
  }

  lemma NoneFreed(buffers: seq<HostBuffer>, es: seq<Value>)
    requires es == []
    ensures Freed(buffers, buffers, SlotStorages(es))
  {
  }

  /**
   src/resources.cpp:2642-2674: the filled slots are destroyed, last first, then the root table.  What comes back
   is exactly the bytes of the transferred elements and of the root table.
   */
  method ReleaseAssembly(a: PreadmittedTuple, host: HostRegistry, state: ResourceState, ghost owners: set<nat>) returns (ok: bool)
    requires a.Valid() && state.token != 0 && Covered(host.buffers, state.token, state.live, state.refs)
    requires a.claimed ==> AllDisposable(host.buffers, owners, a.Filled())
    requires a.claimed ==> Ready(host.buffers, a.root.account, TupleTable, state.token, Destroy)
    requires a.claimed ==> forall k :: 0 <= k < a.transferred ==> a.root.account.storage !in StoragesIn(a.Filled()[k])
    modifies a, a.slots, host, state
    ensures a.Valid()
    ensures ok <==> old(a.claimed)
    ensures ok ==>
              && !a.claimed
              && state.live == old(state.live) - HeldByAll(old(host.buffers), state.token, old(a.Filled()))
                               - BytesAt(old(host.buffers), old(a.root.account.storage), state.token)
              && Freed(old(host.buffers), host.buffers, SlotStorages(old(a.Filled())) + {old(a.root.account.storage)})
    ensures SameRest(host, state)
    ensures !ok ==> state.live == old(state.live) && host.buffers == old(host.buffers)
    ensures Covered(host.buffers, state.token, state.live, state.refs)
  {
    hide AllDisposable, StoragesIn, Covered, Ready, BytesAt, HeldByAll, LayoutSafe, TotalsOf, Accounted, LeftBuffers, LeftAccount, Freed,
         SlotStorages, ActiveBytes, ActiveCount;
    if !a.claimed {
      return false;
    }
    var safe := CheckSlots(a);
    if !safe {
      return false;
    }
    ghost var before, filled := host.buffers, a.Filled();
    DestroySlots(a, host, state, owners, filled);
    ghost var mid := host.buffers;
    var freed, left := LeaveAccount(host, state, a.root.account, TupleTable, Destroy);
    FreedBoth(before, mid, host.buffers, SlotStorages(filled), {a.root.account.storage});
    a.claimed, a.elementCount, a.transferred, a.counts, a.root := false, 0, 0, Capacity(0, 0, 0, 0), NO_RESERVATION;
    ok := true;
  }

  lemma LastDisposable(buffers: seq<HostBuffer>, owners: set<nat>, es: seq<Value>)
    requires 0 < |es| && AllDisposable(buffers, owners, es)
    ensures ValidElementValue(buffers, owners, es[|es| - 1])
  {
  }
}
