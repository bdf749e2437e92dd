/**
 src/resources.cpp: admission of storage and work against an evaluation's limits.

 One evaluation context keeps live bytes, monotone work and a reservation ordinal.  Every successful admission
 of a non-empty buffer binds it to the context; the host allocator may refuse, which is an input here.
 */
module Resources {
  import opened Kinds
  import opened HostStorage
  import opened AccountRelease
  import opened ValueArenas

  datatype Limits = Limits(vectorBytes: Option<nat>, liveBytes: Option<nat>, workUnits: Option<nat>, tupleTableBytes: Option<nat>)

  datatype Profile = TrustedV1 | BoundedV1 | TrustedV2 | BoundedV2 | UnknownProfile

  datatype LimitKind = MaxVectorBytes | MaxLiveBytes | MaxWorkUnits | MaxTupleTableBytes

  datatype Failure =
    | SizeOverflow
    | Unavailable(ordinal: Option<nat>)
    | LimitReached(kind: LimitKind, limit: nat, usage: nat, charge: nat)
    | InvalidProfile
    | TuplesUnsupported

  datatype Admission = Admitted(live: nat, work: nat) | Refused(why: Failure)

  predicate Within(amount: nat, limit: Option<nat>) {
    limit == None || amount <= limit.value
  }

  /** The whole charge fits, both the counters and every limit. */
  predicate Fits(live: nat, work: nat, limits: Limits, vectorBytes: Option<nat>, bytes: nat, units: nat) {
    && live + bytes <= SIZE_MAX && work + units <= SIZE_MAX
    && (vectorBytes.Some? ==> Within(vectorBytes.value, limits.vectorBytes))
    && Within(live + bytes, limits.liveBytes)
    && Within(work + units, limits.workUnits)
  }

  /** `why` names a configured limit, what it held before and the charge that would pass it; the limits before it held. */
  predicate NamesLimit(why: Failure, live: nat, work: nat, limits: Limits, vectorBytes: Option<nat>, bytes: nat, units: nat) {
    && why.LimitReached? && why.usage + why.charge > why.limit
    && match why.kind {
         case MaxVectorBytes => limits.vectorBytes == Some(why.limit) && why.usage == 0 && vectorBytes == Some(why.charge)
         case MaxLiveBytes =>
           && limits.liveBytes == Some(why.limit) && why.usage == live && why.charge == bytes
           && (vectorBytes.Some? ==> Within(vectorBytes.value, limits.vectorBytes))
         case MaxWorkUnits =>
           && limits.workUnits == Some(why.limit) && why.usage == work && why.charge == units
           && (vectorBytes.Some? ==> Within(vectorBytes.value, limits.vectorBytes)) && Within(live + bytes, limits.liveBytes)
         case MaxTupleTableBytes => false
       }
  }

  /**
   src/resources.cpp:918-990, with the order of its checks: the counters, then the vector, live and work limits.
   */
  function Preflight(live: nat, work: nat, limits: Limits, vectorBytes: Option<nat>, bytes: nat, units: nat): (r: Admission)
    requires live <= SIZE_MAX && work <= SIZE_MAX
    ensures r.Admitted? <==> Fits(live, work, limits, vectorBytes, bytes, units)
    ensures r.Admitted? ==> r.live - live == bytes && r.work - work == units
    ensures r == Refused(SizeOverflow) <==> live + bytes > SIZE_MAX || work + units > SIZE_MAX
    ensures r.Refused? && r.why != SizeOverflow ==> NamesLimit(r.why, live, work, limits, vectorBytes, bytes, units)
  {
    if bytes > SIZE_MAX - live || units > SIZE_MAX - work then Refused(SizeOverflow)
    else if vectorBytes.Some? && limits.vectorBytes.Some? && vectorBytes.value > limits.vectorBytes.value then
      Refused(LimitReached(MaxVectorBytes, limits.vectorBytes.value, 0, vectorBytes.value))
    else if limits.liveBytes.Some? && live + bytes > limits.liveBytes.value then
      Refused(LimitReached(MaxLiveBytes, limits.liveBytes.value, live, bytes))
    else if limits.workUnits.Some? && work + units > limits.workUnits.value then
      Refused(LimitReached(MaxWorkUnits, limits.workUnits.value, work, units))
    else Admitted(live + bytes, work + units)
  }

  predicate AnyLimit(limits: Limits) {
    limits.vectorBytes.Some? || limits.liveBytes.Some? || limits.workUnits.Some? || limits.tupleTableBytes.Some?
  }

  /** src/resources.cpp:823-881. */
  predicate ProfileOk(profile: Profile, limits: Limits) {
    match profile
    case TrustedV1 => !AnyLimit(limits)
    case BoundedV1 => AnyLimit(limits) && limits.tupleTableBytes == None
    case TrustedV2 => !AnyLimit(limits)
    case BoundedV2 => AnyLimit(limits)
    case UnknownProfile => false
  }

  predicate TuplesSupported(profile: Profile) {
    profile != TrustedV1 && profile != BoundedV1
  }

  function Bound(bytes: nat, token: nat, ordinal: nat, purpose: Purpose): HostBuffer {
    HostBuffer(true, bytes, true, token, bytes, ordinal, purpose)
  }

  lemma AppendCharge(buffers: seq<HostBuffer>, b: HostBuffer, owner: nat)
    ensures ActiveBytes(buffers + [b], owner) == ActiveBytes(buffers, owner) + Charge(b, owner)
    ensures ActiveCount(buffers + [b], owner) == ActiveCount(buffers, owner) + (if b.active && b.owner == owner then 1 else 0)
  {
    assert (buffers + [b])[..|buffers|] == buffers;
  }

  // ---------------------------------------------------------------- the ledger as a function

  /** What an admission reads and writes of one context. */
  datatype Book = Book(live: nat, work: nat, ordinal: nat)

  /** Why a request is refused, if it is, and the ledger afterwards. */
  function Booked(b: Book, limits: Limits, failAt: Option<nat>, vectorBytes: Option<nat>, bytes: nat, units: nat, hostFails: bool): (Option<Failure>, Book)
    requires b.live <= SIZE_MAX && b.work <= SIZE_MAX
  {
    var admission := Preflight(b.live, b.work, limits, vectorBytes, bytes, units);
    if admission.Refused? then (Some(admission.why), b)
    else if bytes == 0 then (None, Book(admission.live, admission.work, b.ordinal))
    else if b.ordinal >= SIZE_MAX then (Some(SizeOverflow), b)
    else if failAt == Some(b.ordinal) || hostFails then (Some(Unavailable(Some(b.ordinal))), b.(ordinal := b.ordinal + 1))
    else (None, Book(admission.live, admission.work, b.ordinal + 1))
  }

  /** The same for a vector of `count` elements. */
  function BookedVector(b: Book, limits: Limits, failAt: Option<nat>, element: ScalarType, count: nat, units: nat, hostFails: bool): (Option<Failure>, Book)
    requires b.live <= SIZE_MAX && b.work <= SIZE_MAX
  {
    var bytes := count * Width(element);
    if bytes > SIZE_MAX then (Some(SizeOverflow), b) else Booked(b, limits, failAt, Some(bytes), bytes, units, hostFails)
  }

  datatype Grant = Granted(storage: nat, ordinal: Option<nat>) | Denied(why: Failure)

  datatype VectorResult = VectorGranted(payload: Payload) | VectorDenied(why: Failure)

  datatype TableResult = TableGranted(reservation: Reservation) | TableDenied(why: Failure)

  function Zeros(n: nat): (r: seq<int>)
    ensures |r| == n && forall k :: 0 <= k < n ==> r[k] == 0
  {
    seq(n, _ => 0)
  }

  class EvaluationResources {
    const host: HostRegistry
    const state: ResourceState
    var work: nat
    var ordinal: nat
    var profile: Profile
    var limits: Limits
    var failAt: Option<nat>

    constructor (host: HostRegistry, state: ResourceState, profile: Profile, limits: Limits, failAt: Option<nat>)
      ensures this.host == host && this.state == state && work == 0 && ordinal == 0
      ensures this.profile == profile && this.limits == limits && this.failAt == failAt
    {
      this.host, this.state, work, ordinal := host, state, 0, 0;
      this.profile, this.limits, this.failAt := profile, limits, failAt;
    }

    ghost predicate Valid()
      reads this, state
    {
      state.token != 0 && state.live <= SIZE_MAX && work <= SIZE_MAX && ordinal <= SIZE_MAX
    }

    function Ledger(): Book
      reads this, state
    {
      Book(state.live, work, ordinal)
    }

    /** Bytes on the ledger that no binding accounts for; every operation keeps it. */
    ghost function Unbound(): int
      reads this, state, host
    {
      state.live - ActiveBytes(host.buffers, state.token)
    }

    /** References on the context that no binding accounts for; every operation keeps it. */
    ghost function OtherReferences(): int
      reads this, state, host
    {
      state.refs - ActiveCount(host.buffers, state.token)
    }

    /** src/resources.cpp:261-286: a fresh buffer, a reference for it, and the binding, which cannot be refused. */
    method AllocateTracked(bytes: nat, at: nat, purpose: Purpose, hostFails: bool) returns (storage: nat)
      requires state.token != 0
      modifies host, state`refs
      ensures hostFails ==> storage == 0 && host.buffers == old(host.buffers) && state.refs == old(state.refs)
      ensures !hostFails ==>
                && host.buffers == old(host.buffers) + [Bound(bytes, state.token, at, purpose)]
                && storage == |host.buffers| && state.refs == old(state.refs) + 1
    {
      if hostFails {
        return 0;
      }
      storage := host.Register(bytes);
      state.refs := state.refs + 1;
      var bound := host.Bind(storage, state.token, bytes, at, purpose);
      if !bound {
        assert false; // the buffer is fresh
      }
    }

    /** What an admission of `bytes` and `units` needs beside the profile. */
    predicate Admissible(vectorBytes: Option<nat>, bytes: nat, units: nat, hostFails: bool)
      reads this, state
      requires state.live <= SIZE_MAX && work <= SIZE_MAX
    {
      && Fits(state.live, work, limits, vectorBytes, bytes, units)
      && (bytes != 0 ==> ordinal < SIZE_MAX && failAt != Some(ordinal) && !hostFails)
    }

    /**
     The common part of src/resources.cpp:1245-1345, 1437-1492 and 1580-1637: an ordinal is used up as soon as
     the limits admit a non-empty request, even when the allocation then fails.
     */
    method Admit(vectorBytes: Option<nat>, bytes: nat, units: nat, purpose: Purpose, hostFails: bool) returns (r: Grant)
      requires Valid()
      modifies this`work, this`ordinal, host, state
      ensures Valid() && Unbound() == old(Unbound()) && OtherReferences() == old(OtherReferences())
      ensures r.Granted? <==> old(Admissible(vectorBytes, bytes, units, hostFails))
      ensures r.Granted? ==>
                && state.live == old(state.live) + bytes && work == old(work) + units
                && Within(state.live, limits.liveBytes) && Within(work, limits.workUnits)
                && (bytes != 0 ==>
                      && r.ordinal == Some(old(ordinal)) && ordinal == old(ordinal) + 1
                      && host.buffers == old(host.buffers) + [Bound(bytes, state.token, old(ordinal), purpose)]
                      && r.storage == |host.buffers|)
                && (bytes == 0 ==> r == Granted(0, None) && ordinal == old(ordinal) && host.buffers == old(host.buffers))
      ensures r.Denied? ==>
                && state.live == old(state.live) && work == old(work) && host.buffers == old(host.buffers) && state.refs == old(state.refs)
                && ordinal == old(ordinal) + (if old(Fits(state.live, work, limits, vectorBytes, bytes, units)) && old(ordinal) < SIZE_MAX then 1 else 0)
                && (ordinal == old(ordinal) + 1 ==> r.why == Unavailable(Some(old(ordinal))))
                && (ordinal == old(ordinal) ==> !r.why.Unavailable?)
      ensures var (why, after) := Booked(old(Ledger()), limits, failAt, vectorBytes, bytes, units, hostFails);
              Ledger() == after && (r.Denied? ==> why == Some(r.why))
    {
      var admission := Preflight(state.live, work, limits, vectorBytes, bytes, units);
      if admission.Refused? {
        return Denied(admission.why);
      }
      if bytes == 0 {
        state.live, work := admission.live, admission.work;
        return Granted(0, None);
      }
      if ordinal == SIZE_MAX {
        return Denied(SizeOverflow);
      }
      var mine := ordinal;
      ordinal := ordinal + 1;
      if failAt == Some(mine) {
        return Denied(Unavailable(Some(mine)));
      }
      AppendCharge(host.buffers, Bound(bytes, state.token, mine, purpose), state.token);
      var storage := AllocateTracked(bytes, mine, purpose, hostFails);
      if storage == 0 {
        return Denied(Unavailable(Some(mine)));
      }
      state.live, work := admission.live, admission.work;
      return Granted(storage, Some(mine));
    }

    /** src/resources.cpp:1213-1362: a zeroed vector, charged for its bytes and for `units` of work. */
    method AllocateVector(element: ScalarType, count: nat, units: nat, hostFails: bool, ghost owners: set<nat>) returns (r: VectorResult)
      requires Valid() && state.token in owners
      modifies this`work, this`ordinal, host, state
      ensures Valid() && Unbound() == old(Unbound()) && OtherReferences() == old(OtherReferences())
      ensures r.VectorGranted? <==>
                && ProfileOk(profile, limits) && ValidScalarType(element) && count * Width(element) <= SIZE_MAX
                && old(Admissible(Some(count * Width(element)), count * Width(element), units, hostFails))
      ensures r.VectorGranted? ==>
                && r.payload.element == element && r.payload.elements == Zeros(count)
                && PayloadOk(host.buffers, owners, r.payload)
                && (r.payload.account.active <==> count != 0) && r.payload.account.bytes == count * Width(element)
                && (r.payload.account.active ==> r.payload.account.owner == state.token)
                && state.live == old(state.live) + count * Width(element) && work == old(work) + units
      ensures r.VectorDenied? ==>
                && state.live == old(state.live) && work == old(work) && host.buffers == old(host.buffers)
                && old(ordinal) <= ordinal <= old(ordinal) + 1
      ensures !ProfileOk(profile, limits) ==> r == VectorDenied(InvalidProfile) && Ledger() == old(Ledger())
      ensures ProfileOk(profile, limits) && ValidScalarType(element) ==>
                var (why, after) := BookedVector(old(Ledger()), limits, failAt, element, count, units, hostFails);
                Ledger() == after && (r.VectorDenied? ==> why == Some(r.why)) && (r.VectorGranted? ==> why == None)
    {
      if !ProfileOk(profile, limits) {
        return VectorDenied(InvalidProfile);
      }
      if count > SIZE_MAX {
        CountTooLarge(element, count);
        return VectorDenied(SizeOverflow);
      }
      if !ValidScalarType(element) || count > SIZE_MAX / Width(element) {
        return VectorDenied(SizeOverflow);
      }
      var bytes := count * Width(element);
      var grant := Admit(Some(bytes), bytes, units, VectorPayload, hostFails);
      if grant.Denied? {
        return VectorDenied(grant.why);
      }
      var account := Account(grant.storage, bytes, bytes != 0, if bytes != 0 then state.token else 0, grant.ordinal);
      return VectorGranted(Payload(element, Zeros(count), account));
    }

    /** src/resources.cpp:1412-1498: workspace is charged like a vector but is not bounded by the vector limit. */
    method ReserveWorkspace(bytes: nat, units: nat, hostFails: bool) returns (r: Grant)
      requires Valid()
      modifies this`work, this`ordinal, host, state
      ensures Valid() && Unbound() == old(Unbound()) && OtherReferences() == old(OtherReferences())
      ensures r.Granted? <==> ProfileOk(profile, limits) && old(Admissible(None, bytes, units, hostFails))
      ensures r.Granted? ==>
                && state.live == old(state.live) + bytes && work == old(work) + units
                && (bytes != 0 ==> Matches(host.buffers, Account(r.storage, bytes, true, state.token, r.ordinal), Workspace))
      ensures r.Denied? ==>
                && state.live == old(state.live) && work == old(work) && host.buffers == old(host.buffers)
                && old(ordinal) <= ordinal <= old(ordinal) + 1
    {
      if !ProfileOk(profile, limits) {
        return Denied(InvalidProfile);
      }
      r := Admit(None, bytes, units, Workspace, hostFails);
    }

    /** src/resources.cpp:1500-1532. */
    method ChargeWork(units: nat) returns (r: Option<Failure>)
      requires Valid()
      modifies this`work
      ensures Valid()
      ensures r == None <==> ProfileOk(profile, limits) && Fits(state.live, old(work), limits, None, 0, units)
      ensures work == if r == None then old(work) + units else old(work)
      ensures r == if ProfileOk(profile, limits) then Booked(old(Ledger()), limits, failAt, None, 0, units, false).0 else Some(InvalidProfile)
    {
      if !ProfileOk(profile, limits) {
        return Some(InvalidProfile);
      }
      var admission := Preflight(state.live, work, limits, None, 0, units);
      if admission.Refused? {
        return Some(admission.why);
      }
      work := admission.work;
      r := None;
    }

    /** Everything `ReserveTable` asks of a tuple of `count` elements. */
    predicate TableAdmissible(count: nat, hostFails: bool)
      reads this, state
      requires state.live <= SIZE_MAX && work <= SIZE_MAX
    {
      && ProfileOk(profile, limits) && TuplesSupported(profile)
      && count * SLOT_BYTES <= SIZE_MAX
      && Within(count * SLOT_BYTES, limits.tupleTableBytes)
      && Admissible(None, count * SLOT_BYTES, 0, hostFails)
    }

    /** The first of the checks that fails: the profile, its support for tuples, the size, the table limit, the admission. */
    function TableRefusal(count: nat, hostFails: bool): Failure
      reads this, state
      requires state.live <= SIZE_MAX && work <= SIZE_MAX
    {
      var bytes := count * SLOT_BYTES;
      if !ProfileOk(profile, limits) then InvalidProfile
      else if !TuplesSupported(profile) then TuplesUnsupported
      else if bytes > SIZE_MAX then SizeOverflow
      else if !Within(bytes, limits.tupleTableBytes) then LimitReached(MaxTupleTableBytes, limits.tupleTableBytes.value, 0, bytes)
      else
        var (why, _) := Booked(Ledger(), limits, failAt, None, bytes, 0, hostFails);
        if why.Some? then why.value else SizeOverflow
    }

    /** src/resources.cpp:1536-1646: sixteen bytes for every element; the empty table needs no buffer and no owner. */
    method ReserveTable(count: nat, hostFails: bool, ghost owners: set<nat>) returns (r: TableResult)
      requires Valid() && state.token in owners
      modifies this`work, this`ordinal, host, state
      ensures Valid() && Unbound() == old(Unbound()) && OtherReferences() == old(OtherReferences())
      ensures r.TableGranted? <==> old(TableAdmissible(count, hostFails))
      ensures r.TableGranted? ==>
                && ReservationOk(host.buffers, owners, r.reservation, count) && r.reservation.account.active
                && state.live == old(state.live) + count * SLOT_BYTES && work == old(work)
                && (count == 0 ==> host.buffers == old(host.buffers) && r.reservation.account.storage == 0)
                && (count != 0 ==>
                      && host.buffers == old(host.buffers) + [Bound(count * SLOT_BYTES, state.token, old(ordinal), TupleTable)]
                      && r.reservation.account.storage == |host.buffers| && r.reservation.account.owner == state.token)
      ensures r.TableDenied? ==>
                && state.live == old(state.live) && work == old(work) && host.buffers == old(host.buffers)
                && old(ordinal) <= ordinal <= old(ordinal) + 1
                && r.why == old(TableRefusal(count, hostFails))
    {
      if !ProfileOk(profile, limits) {
        return TableDenied(InvalidProfile);
      }
      if !TuplesSupported(profile) {
        return TableDenied(TuplesUnsupported);
      }
      if count > SIZE_MAX / SLOT_BYTES {
        return TableDenied(SizeOverflow);
      }
      var bytes := count * SLOT_BYTES;
      if limits.tupleTableBytes.Some? && bytes > limits.tupleTableBytes.value {
        return TableDenied(LimitReached(MaxTupleTableBytes, limits.tupleTableBytes.value, 0, bytes));
      }
      var grant := Admit(None, bytes, 0, TupleTable, hostFails);
      if grant.Denied? {
        return TableDenied(grant.why);
      }
      if bytes == 0 {
        return TableGranted(Reservation(0, Account(0, 0, true, 0, None)));
      }
      return TableGranted(Reservation(count, Account(grant.storage, bytes, true, state.token, grant.ordinal)));
    }

    predicate TableReleasable(r: Reservation)
      reads host
    {
      var a, bytes := r.account, r.elementCount * SLOT_BYTES;
      && bytes <= SIZE_MAX && a.bytes == bytes && a.active
      && (bytes == 0 ==> a.storage == 0 && a.owner == 0 && a.ordinal == None)
      && (bytes != 0 ==>
            ValidAddress(host.buffers, a.storage) && host.buffers[a.storage - 1].byteCount == bytes && Matches(host.buffers, a, TupleTable)
            && a.owner == state.token)
    }

    /** src/resources.cpp:1692-1801: give a table back; an already empty reservation is left alone. */
    method ReleaseTable(r: Reservation) returns (ok: bool, r': Reservation)
      requires Valid() && Unbound() >= 0 && OtherReferences() >= 1
      modifies host, state
      ensures Valid() && Unbound() == old(Unbound()) && OtherReferences() == old(OtherReferences())
      ensures ok <==> r == NO_RESERVATION || old(TableReleasable(r))
      ensures ok ==> r' == NO_RESERVATION && state.live == old(state.live) - r.account.bytes
      ensures ok ==> host.buffers == LeftBuffers(old(host.buffers), r.account, Release)
      ensures ok ==> Freed(old(host.buffers), host.buffers, {r.account.storage})
      ensures !ok ==> r' == r && state.live == old(state.live) && host.buffers == old(host.buffers)
    {
      if r == NO_RESERVATION {
        return true, r;
      }
      var a := r.account;
      if r.elementCount > SIZE_MAX / SLOT_BYTES || a.bytes != r.elementCount * SLOT_BYTES || !a.active {
        return false, r;
      }
      if a.bytes == 0 {
        if a.storage != 0 || a.owner != 0 || a.ordinal != None {
          return false, r;
        }
      } else if !ValidAddress(host.buffers, a.storage) || host.buffers[a.storage - 1].byteCount != a.bytes
                || !Matches(host.buffers, a, TupleTable) || a.owner != state.token {
        return false, r;
      }
      LeftCharge(host.buffers, a, state.token);
      var left;
      ok, left := LeaveAccount(host, state, a, TupleTable, Release);
      r' := NO_RESERVATION;
    }

    /** What giving a vector back asks of it. */
    predicate VectorReleasable(owners: set<nat>, p: Payload)
      reads host
    {
      && PayloadOk(host.buffers, owners, p) && (p.account.active ==> p.account.owner == state.token)
      && (p.account.bytes != 0 ==> p.account.active)
    }

    /** src/resources.cpp:2846-2952. */
    method ReleaseVector(p: Payload, owners: set<nat>) returns (ok: bool)
      requires Valid() && Unbound() >= 0 && OtherReferences() >= 1
      modifies host, state
      ensures Valid() && Unbound() == old(Unbound()) && OtherReferences() == old(OtherReferences())
      ensures ok <==> old(VectorReleasable(owners, p))
      ensures ok ==> state.live == old(state.live) - p.account.bytes && host.buffers == LeftBuffers(old(host.buffers), p.account, Release)
      ensures ok ==> Freed(old(host.buffers), host.buffers, {p.account.storage})
      ensures !ok ==> state.live == old(state.live) && host.buffers == old(host.buffers)
    {
      if !PayloadOk(host.buffers, owners, p) || (p.account.active && p.account.owner != state.token)
         || (p.account.bytes != 0 && !Matches(host.buffers, p.account, VectorPayload)) {
        return false;
      }
      if p.account.bytes == 0 {
        return true;
      }
      LeftCharge(host.buffers, p.account, state.token);
      var left;
      ok, left := LeaveAccount(host, state, p.account, VectorPayload, Release);
    }

    /** src/resources.cpp:2954-3010. */
    method ReleaseWorkspace(a: Account) returns (ok: bool)
      requires Valid() && Unbound() >= 0 && OtherReferences() >= 1
      modifies host, state
      ensures Valid() && Unbound() == old(Unbound()) && OtherReferences() == old(OtherReferences())
      ensures a.bytes != 0 ==> (ok <==> old(Matches(host.buffers, a, Workspace)) && a.owner == state.token)
      ensures a.bytes == 0 ==> (ok <==> a.storage == 0 && a.owner == 0 && a.ordinal == None)
      ensures ok ==> state.live == old(state.live) - a.bytes && host.buffers == LeftBuffers(old(host.buffers), a, Release)
      ensures ok ==> Freed(old(host.buffers), host.buffers, {a.storage})
      ensures !ok ==> state.live == old(state.live) && host.buffers == old(host.buffers)
    {
      if a.bytes == 0 {
        return a.storage == 0 && a.owner == 0 && a.ordinal == None;
      }
      if a.storage == 0 || a.owner == 0 || a.ordinal == None || a.owner != state.token || !Matches(host.buffers, a, Workspace) {
        return false;
      }
      var b := a.(active := true);
      assert Matches(host.buffers, b, Workspace);
      LeftCharge(host.buffers, b, state.token);
      var left;
      ok, left := LeaveAccount(host, state, b, Workspace, Release);
    }
  }

  /** Leaving an active account takes exactly its bytes off the active bindings. */
  lemma LeftCharge(buffers: seq<HostBuffer>, a: Account, token: nat)
    requires a.bytes != 0 ==> ValidAddress(buffers, a.storage) && buffers[a.storage - 1].active && buffers[a.storage - 1].owner == token
    requires a.bytes != 0 ==> buffers[a.storage - 1].bytes == a.bytes
    requires a.bytes == 0 ==> a.storage == 0
    ensures var after := LeftBuffers(buffers, a, Release);
            && ActiveBytes(after, token) == ActiveBytes(buffers, token) - a.bytes
            && ActiveCount(after, token) == ActiveCount(buffers, token) - (if a.bytes != 0 then 1 else 0)
            && a.bytes <= ActiveBytes(buffers, token)
  {
    if a.bytes != 0 {
      ConsumeCharge(buffers, a.storage - 1, buffers[a.storage - 1].(active := false, registered := false), token);
    }
  }

  lemma CountTooLarge(element: ScalarType, count: nat)
    requires count > SIZE_MAX
    ensures count * Width(element) > SIZE_MAX
  {
  }
}
