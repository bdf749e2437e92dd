/**
 The in-place parent-link walk over a tuple value: src/resources.cpp:3119-3240 (release), 3342-3450 (detach),
 671-735 and src/value.cpp:1484-1583 (destroy).  The three differ only in what they do to the accounting of a
 node, which is `Mode`.
 */
module ValueWalk {
  import opened Kinds
  import opened Arena
  import opened ArenaWalk
  import opened HostStorage
  import opened AccountRelease
  import opened ValueArenas
  import opened ValueThread

  function PurposeAt(v: TupleValue, i: nat): Purpose
    requires i < NodeCount(v)
  {
    if ContainerOf(v, i) == VectorC then VectorPayload else TupleTable
  }

  function AccountAt(v: TupleValue, i: nat): Account
    requires i < NodeCount(v) && SlotExists(v, SlotOf(v, i))
  {
    AccountOf(v, SlotOf(v, i))
  }

  /** Every account of the value is in the state that validation and the owner check establish. */
  ghost predicate AllReady(buffers: seq<HostBuffer>, v: TupleValue, token: nat, mode: Mode)
    requires SlotsExist(v)
  {
    forall i: nat :: i < NodeCount(v) ==> Ready(buffers, AccountAt(v, i), PurposeAt(v, i), token, mode)
  }

  /** Every byte of the value is charged. */
  ghost predicate FullyAccounted(v: TupleValue)
    requires SlotsExist(v)
  {
    forall i: nat :: i < NodeCount(v) ==> Accounted(AccountAt(v, i))
  }

  // ---------------------------------------------------------------- totals over the nodes already left

  ghost predicate InTable(v: TupleValue, done: seq<nat>) {
    forall k :: 0 <= k < |done| ==> done[k] < NodeCount(v)
  }

  /** Bytes that the buffers of the listed nodes charge to `token`. */
  ghost function RefundSum(buffers: seq<HostBuffer>, v: TupleValue, done: seq<nat>, token: nat): nat
    requires SlotsExist(v) && InTable(v, done)
  {
    if done == [] then 0
    else RefundSum(buffers, v, done[..|done| - 1], token) + BytesAt(buffers, StorageAt(v, done[|done| - 1]), token)
  }

  ghost function ReferenceSum(buffers: seq<HostBuffer>, v: TupleValue, done: seq<nat>, token: nat): nat
    requires SlotsExist(v) && InTable(v, done)
  {
    if done == [] then 0
    else ReferenceSum(buffers, v, done[..|done| - 1], token) + ReferencesAt(buffers, StorageAt(v, done[|done| - 1]), token)
  }

  ghost function StoragesOf(v: TupleValue, done: seq<nat>): set<nat>
    requires SlotsExist(v) && InTable(v, done)
  {
    set k | 0 <= k < |done| && StorageAt(v, done[k]) != 0 :: StorageAt(v, done[k])
  }

  ghost function LeftBuffer(b: HostBuffer, mode: Mode): HostBuffer {
    if mode == Detach then b.(active := false) else b.(active := false, registered := false)
  }

  ghost function BuffersWithout(buffers: seq<HostBuffer>, storages: set<nat>, mode: Mode): (r: seq<HostBuffer>)
    ensures |r| == |buffers|
    ensures forall k :: 0 <= k < |r| ==> r[k] == if k + 1 in storages then LeftBuffer(buffers[k], mode) else buffers[k]
  {
    seq(|buffers|, k requires 0 <= k < |buffers| => if k + 1 in storages then LeftBuffer(buffers[k], mode) else buffers[k])
  }

  // ---------------------------------------------------------------- the tables after some nodes were left

  function LeftPayload(p: Payload, mode: Mode): Payload {
    p.(account := LeftAccount(p.account, mode), elements := if mode == Detach then p.elements else [])
  }

  function LeftReservation(r: Reservation, mode: Mode): Reservation {
    r.(account := LeftAccount(r.account, mode))
  }

  /** The value after leaving node `i`. */
  function LeftTuple(v: TupleValue, i: nat, mode: Mode): TupleValue
    requires i < NodeCount(v) && SlotExists(v, SlotOf(v, i))
  {
    match SlotOf(v, i)
    case NoSlot => v
    case PayloadSlot(k) => v.(payloads := v.payloads[k := LeftPayload(v.payloads[k], mode)])
    case TableSlot(k) => v.(reservations := v.reservations[k := LeftReservation(v.reservations[k], mode)])
    case RootSlot => v.(rootReservation := LeftReservation(v.rootReservation, mode))
  }

  ghost predicate LeftTables(was: TupleValue, now: TupleValue, done: seq<nat>, mode: Mode)
    requires SlotsExist(was)
  {
    && |now.payloads| == |was.payloads| && |now.reservations| == |was.reservations|
    && (forall i: nat :: i < NodeCount(was) && SlotOf(was, i).PayloadSlot? ==>
          var k := SlotOf(was, i).index;
          now.payloads[k] == if i in done then LeftPayload(was.payloads[k], mode) else was.payloads[k])
    && (forall i: nat :: i < NodeCount(was) && SlotOf(was, i).TableSlot? ==>
          var k := SlotOf(was, i).index;
          now.reservations[k] == if i in done then LeftReservation(was.reservations[k], mode) else was.reservations[k])
    && now.rootReservation == if |was.nodes| in done then LeftReservation(was.rootReservation, mode) else was.rootReservation
  }

  lemma LeftTablesStep(was: TupleValue, now: TupleValue, done: seq<nat>, mode: Mode, i: nat)
    requires SlotsExist(was) && SlotsUnshared(was) && LeftTables(was, now, done, mode)
    requires |now.nodes| == |was.nodes| && i < NodeCount(was) && i !in done
    requires SlotOf(now, i) == SlotOf(was, i)
    ensures SlotExists(now, SlotOf(now, i))
    ensures AccountOf(now, SlotOf(now, i)) == AccountAt(was, i)
    ensures LeftTables(was, LeftTuple(now, i, mode), done + [i], mode)
  {
    var next := LeftTuple(now, i, mode);
    forall j: nat | j < NodeCount(was) && SlotOf(was, j).PayloadSlot?
      ensures var k := SlotOf(was, j).index;
              next.payloads[k] == if j in done + [i] then LeftPayload(was.payloads[k], mode) else was.payloads[k]
    {
      assert j != i ==> SlotOf(was, j) != SlotOf(was, i);
    }
    forall j: nat | j < NodeCount(was) && SlotOf(was, j).TableSlot?
      ensures var k := SlotOf(was, j).index;
              next.reservations[k] == if j in done + [i] then LeftReservation(was.reservations[k], mode) else was.reservations[k]
    {
      assert j != i ==> SlotOf(was, j) != SlotOf(was, i);
    }
  }

  ghost predicate SameCharge(buffers: seq<HostBuffer>, buffers0: seq<HostBuffer>, storage: nat, token: nat) {
    && BytesAt(buffers, storage, token) == BytesAt(buffers0, storage, token)
    && ReferencesAt(buffers, storage, token) == ReferencesAt(buffers0, storage, token)
  }

  /** A node not yet left still has its buffer and its binding exactly as before the walk. */
  lemma StillReady(buffers: seq<HostBuffer>, was: TupleValue, done: seq<nat>, mode: Mode, i: nat, token: nat)
    requires SlotsExist(was) && StoragesDistinct(was) && AllReady(buffers, was, token, mode)
    requires InTable(was, done) && i < NodeCount(was) && i !in done
    ensures Ready(BuffersWithout(buffers, StoragesOf(was, done), mode), AccountAt(was, i), PurposeAt(was, i), token, mode)
    ensures LeftBuffers(BuffersWithout(buffers, StoragesOf(was, done), mode), AccountAt(was, i), mode)
         == BuffersWithout(buffers, StoragesOf(was, done + [i]), mode)
    ensures SameCharge(BuffersWithout(buffers, StoragesOf(was, done), mode), buffers, StorageAt(was, i), token)
  {
    var a, s := AccountAt(was, i), StoragesOf(was, done);
    assert Ready(buffers, a, PurposeAt(was, i), token, mode);
    forall k | 0 <= k < |done| && StorageAt(was, done[k]) != 0
      ensures StorageAt(was, done[k]) != a.storage
    {
      assert done[k] in done;
      assert StorageAt(was, if i < done[k] then i else done[k]) != StorageAt(was, if i < done[k] then done[k] else i);
    }
    StoragesStep(was, done, i);
    LeaveOne(buffers, s, a, PurposeAt(was, i), mode, token);
  }

  /** Leaving one more buffer, that none of the buffers left before is. */
  lemma LeaveOne(buffers: seq<HostBuffer>, s: set<nat>, a: Account, purpose: Purpose, mode: Mode, token: nat)
    requires Ready(buffers, a, purpose, token, mode) && a.storage !in s
    ensures var now := BuffersWithout(buffers, s, mode);
            && Ready(now, a, purpose, token, mode) && SameCharge(now, buffers, a.storage, token)
            && LeftBuffers(now, a, mode) == BuffersWithout(buffers, s + (if a.storage != 0 then {a.storage} else {}), mode)
  {
  }

  lemma StoragesStep(was: TupleValue, done: seq<nat>, i: nat)
    requires SlotsExist(was) && InTable(was, done) && i < NodeCount(was)
    ensures StoragesOf(was, done + [i]) == StoragesOf(was, done) + (if StorageAt(was, i) != 0 then {StorageAt(was, i)} else {})
  {
    var next := done + [i];
    forall x | x in StoragesOf(was, done) ensures x in StoragesOf(was, next) {
      var k :| 0 <= k < |done| && StorageAt(was, done[k]) != 0 && StorageAt(was, done[k]) == x;
      assert next[k] == done[k];
    }
    assert StorageAt(was, i) != 0 ==> StorageAt(was, next[|done|]) in StoragesOf(was, next);
  }

  // ---------------------------------------------------------------- the walk

  /** Everything the walk keeps: `was` and `buffers0` are the value and the buffers before it started. */
  ghost predicate WalkInv(was: TupleValue, buffers0: seq<HostBuffer>, mode: Mode, now: TupleValue, buffers: seq<HostBuffer>,
                          cursors: seq<nat>, cur: nat, done: seq<nat>) {
    && Structured(was)
    && AtNode(TableOf(was), cursors, cur, done)
    && Threads(was, now, cursors)
    && InTable(was, done)
    && LeftTables(was, now, done, mode)
    && buffers == BuffersWithout(buffers0, StoragesOf(was, done), mode)
  }

  lemma WalkInvStart(was: TupleValue, buffers: seq<HostBuffer>, mode: Mode, now: TupleValue)
    requires Structured(was) && Threads(was, now, FullCursors(TableOf(was))) && now == was.(nodes := now.nodes)
    ensures WalkInv(was, buffers, mode, now, buffers, FullCursors(TableOf(was)), |was.nodes|, [])
  {
    ArenaWalk.WalkStart(TableOf(was));
    assert StoragesOf(was, []) == {};
    assert BuffersWithout(buffers, {}, mode) == buffers;
  }

  /** What the code reads at the node it stands at. */
  lemma WalkInvReads(was: TupleValue, buffers0: seq<HostBuffer>, mode: Mode, now: TupleValue, buffers: seq<HostBuffer>,
                     cursors: seq<nat>, cur: nat, done: seq<nat>)
    requires WalkInv(was, buffers0, mode, now, buffers, cursors, cur, done)
    ensures cur < NodeCount(was) == NodeCount(now) && now.rootIndex == |was.nodes| && cur < |cursors|
    ensures ContainerOf(now, cur) == ContainerOf(was, cur) && SlotOf(now, cur) == SlotOf(was, cur)
    ensures SlotExists(now, SlotOf(now, cur))
    ensures ContainerOf(was, cur) == TupleC ==> SpanOf(now, cur) == Span(SpanOf(was, cur).first, cursors[cur])
    ensures ContainerOf(was, cur) != TupleC ==> cursors[cur] == 0
    ensures cur < |was.nodes| ==> LinkOf(now.nodes[cur]) == Parent(TableOf(was), cur)
    ensures cursors[cur] > 0 ==> SpanOf(was, cur).first + cursors[cur] - 1 < |now.childIndexes|
    ensures cursors[cur] > 0 ==> Kid(TableOf(was), cur, cursors[cur] - 1) == now.childIndexes[SpanOf(was, cur).first + cursors[cur] - 1]
  {
    WalkInvParts(was, buffers0, mode, now, buffers, cursors, cur, done);
    hide *;
    ThreadedReads(was, now, cursors, cur);
    CursorReads(was, now, cursors, cur);
  }

  lemma WalkInvParts(was: TupleValue, buffers0: seq<HostBuffer>, mode: Mode, now: TupleValue, buffers: seq<HostBuffer>,
                     cursors: seq<nat>, cur: nat, done: seq<nat>)
    requires WalkInv(was, buffers0, mode, now, buffers, cursors, cur, done)
    ensures WellFormed(TableOf(was)) && SlotsExist(was) && Threads(was, now, cursors) && CursorsOk(TableOf(was), cursors)
    ensures cur < NodeCount(was) && NodeFieldsOk(was, cur) && was.rootIndex == |was.nodes|
  {
    hide WellFormed, SlotsExist, Threads, CursorsOk, NodeFieldsOk, LeftTables;
  }

  /** What a threaded node still shows. */
  lemma ThreadedReads(was: TupleValue, now: TupleValue, cursors: seq<nat>, cur: nat)
    requires WellFormed(TableOf(was)) && SlotsExist(was) && Threads(was, now, cursors)
    requires cur < NodeCount(was) && was.rootIndex == |was.nodes|
    ensures NodeCount(was) == NodeCount(now) == |cursors| && now.rootIndex == |was.nodes|
    ensures ContainerOf(now, cur) == ContainerOf(was, cur) && SlotOf(now, cur) == SlotOf(was, cur)
    ensures SlotExists(now, SlotOf(now, cur))
    ensures ContainerOf(was, cur) == TupleC ==> SpanOf(now, cur) == Span(SpanOf(was, cur).first, cursors[cur])
    ensures cur < |was.nodes| ==> LinkOf(now.nodes[cur]) == Parent(TableOf(was), cur)
  {
    hide WellFormed, TableOf;
    assert SlotExists(was, SlotOf(was, cur));
  }

  /** The edge a cursor names. */
  lemma CursorReads(was: TupleValue, now: TupleValue, cursors: seq<nat>, cur: nat)
    requires WellFormed(TableOf(was)) && Threads(was, now, cursors) && CursorsOk(TableOf(was), cursors)
    requires cur < NodeCount(was) && NodeFieldsOk(was, cur) && |cursors| == NodeCount(was)
    ensures ContainerOf(was, cur) != TupleC ==> cursors[cur] == 0
    ensures cursors[cur] > 0 ==> SpanOf(was, cur).first + cursors[cur] - 1 < |now.childIndexes|
    ensures cursors[cur] > 0 ==> Kid(TableOf(was), cur, cursors[cur] - 1) == now.childIndexes[SpanOf(was, cur).first + cursors[cur] - 1]
  {
    assert TableOf(was).spans[cur] == SpanOf(was, cur);
    assert now.childIndexes == TableOf(was).edges;
    hide Threads;
  }

  /** One child fewer to enter. */
  function EnteredTuple(v: TupleValue, i: nat): TupleValue
    requires i < NodeCount(v) && SpanOf(v, i).count > 0
  {
    if i == |v.nodes| then v.(childCount := v.childCount - 1)
    else v.(nodes := v.nodes[i := v.nodes[i].(childCount := v.nodes[i].childCount - 1)])
  }

  lemma WalkInvDescend(was: TupleValue, buffers0: seq<HostBuffer>, mode: Mode, now: TupleValue, buffers: seq<HostBuffer>,
                       cursors: seq<nat>, cur: nat, done: seq<nat>)
    requires WalkInv(was, buffers0, mode, now, buffers, cursors, cur, done)
    requires cur < |cursors| && cursors[cur] > 0
    requires cur < NodeCount(now) && SpanOf(now, cur).count == cursors[cur] && ContainerOf(was, cur) == TupleC
    ensures var s := TableOf(was);
            var kid, cursors' := Kid(s, cur, cursors[cur] - 1), cursors[cur := cursors[cur] - 1];
            && WalkInv(was, buffers0, mode, EnteredTuple(now, cur), buffers, cursors', kid, done)
            && kid < cur
            && |Up(s, cursors', kid)| == |Up(s, cursors, cur)|
  {
    Descend(TableOf(was), cursors, cur, done);
    hide WellFormed, AtNode, LeftTables, Up, RevPost;
    ThreadsEnter(was, now, cursors, cur);
    var next := EnteredTuple(now, cur);
    assert LeftTables(was, next, done, mode) by { SameTables(was, now, next, done, mode); }
  }

  lemma SameTables(was: TupleValue, now: TupleValue, next: TupleValue, done: seq<nat>, mode: Mode)
    requires SlotsExist(was) && LeftTables(was, now, done, mode)
    requires next.payloads == now.payloads && next.reservations == now.reservations && next.rootReservation == now.rootReservation
    ensures LeftTables(was, next, done, mode)
  {
  }

  lemma ThreadsEnter(was: TupleValue, now: TupleValue, cursors: seq<nat>, cur: nat)
    requires WellFormed(TableOf(was)) && Threads(was, now, cursors)
    requires cur < |cursors| && cursors[cur] > 0 && ContainerOf(was, cur) == TupleC && SpanOf(now, cur).count == cursors[cur]
    ensures Threads(was, EnteredTuple(now, cur), cursors[cur := cursors[cur] - 1])
  {
  }

  ghost function Measure(was: TupleValue, cursors: seq<nat>, cur: nat): nat {
    var s := TableOf(was);
    if WellFormed(s) && CursorsOk(s, cursors) && cur <= Root(s) then |Up(s, cursors, cur)| else 0
  }

  /** The node the walk is about to leave, its account and its buffer are as they were before the walk. */
  lemma LeaveReads(was: TupleValue, buffers0: seq<HostBuffer>, mode: Mode, now: TupleValue, buffers: seq<HostBuffer>,
                   cursors: seq<nat>, cur: nat, done: seq<nat>, token: nat)
    requires WalkInv(was, buffers0, mode, now, buffers, cursors, cur, done) && AllReady(buffers0, was, token, mode)
    requires cur < |cursors| && cursors[cur] == 0
    ensures cur < NodeCount(was) == NodeCount(now) && cur !in done && SlotExists(now, SlotOf(now, cur))
    ensures AccountAt(now, cur) == AccountAt(was, cur) && PurposeAt(now, cur) == PurposeAt(was, cur)
    ensures Ready(buffers, AccountAt(was, cur), PurposeAt(was, cur), token, mode)
    ensures InTable(was, done + [cur])
    ensures LeftTables(was, LeftTuple(now, cur, mode), done + [cur], mode)
    ensures LeftBuffers(buffers, AccountAt(was, cur), mode) == BuffersWithout(buffers0, StoragesOf(was, done + [cur]), mode)
    ensures SameCharge(buffers, buffers0, StorageAt(was, cur), token) && StorageAt(was, cur) == AccountAt(was, cur).storage
    ensures Threads(was, LeftTuple(now, cur, mode), cursors)
  {
    WalkInvReads(was, buffers0, mode, now, buffers, cursors, cur, done);
    Leave(TableOf(was), cursors, cur, done);
    assert SlotsUnshared(was) && StoragesDistinct(was) && SlotsExist(was);
    hide *;
    StillReady(buffers0, was, done, mode, cur, token);
    LeftTablesStep(was, now, done, mode, cur);
    ThreadsLeave(was, now, cursors, cur, mode);
    assert InTable(was, done + [cur]) by { InTableStep(was, done, cur); }
  }

  lemma InTableStep(v: TupleValue, done: seq<nat>, i: nat)
    requires InTable(v, done) && i < NodeCount(v)
    ensures InTable(v, done + [i])
  {
  }

  lemma WalkInvLeave(was: TupleValue, buffers0: seq<HostBuffer>, mode: Mode, now: TupleValue, buffers: seq<HostBuffer>,
                     cursors: seq<nat>, cur: nat, done: seq<nat>, token: nat)
    requires WalkInv(was, buffers0, mode, now, buffers, cursors, cur, done) && AllReady(buffers0, was, token, mode)
    requires cur < |cursors| && cursors[cur] == 0 && cur < |was.nodes|
    requires cur < NodeCount(now) && SlotExists(now, SlotOf(now, cur)) && SlotsExist(was)
    ensures var s := TableOf(was);
            var next, left := LeftTuple(now, cur, mode), LeftBuffers(buffers, AccountAt(was, cur), mode);
            && WalkInv(was, buffers0, mode, next, left, cursors, Parent(s, cur), done + [cur])
            && Measure(was, cursors, Parent(s, cur)) < Measure(was, cursors, cur)
  {
    LeaveReads(was, buffers0, mode, now, buffers, cursors, cur, done, token);
    Leave(TableOf(was), cursors, cur, done);
    hide AtNode, LeftTables, Up, AllReady, StoragesOf, Threads, Ready, InTable, Structured;
  }

  /** The result of a whole walk over `was`: every node left once, in order, and everything it held given back. */
  ghost predicate WalkedAll(was: TupleValue, buffers0: seq<HostBuffer>, mode: Mode, now: TupleValue, buffers: seq<HostBuffer>,
                            cursors: seq<nat>, order: seq<nat>)
    requires Structured(was)
  {
    && order == RevPost(TableOf(was), |was.nodes|)
    && InTable(was, order)
    && Threads(was, now, cursors)
    && LeftTables(was, now, order, mode)
    && buffers == BuffersWithout(buffers0, StoragesOf(was, order), mode)
  }

  /** Leaving the root ends the walk. */
  lemma WalkInvEnd(was: TupleValue, buffers0: seq<HostBuffer>, mode: Mode, now: TupleValue, buffers: seq<HostBuffer>,
                   cursors: seq<nat>, done: seq<nat>, token: nat)
    requires WalkInv(was, buffers0, mode, now, buffers, cursors, |was.nodes|, done) && AllReady(buffers0, was, token, mode)
    requires |was.nodes| < |cursors| && cursors[|was.nodes|] == 0
    requires |was.nodes| < NodeCount(now) && SlotExists(now, SlotOf(now, |was.nodes|)) && SlotsExist(was)
    ensures Structured(was)
    ensures WalkedAll(was, buffers0, mode, LeftTuple(now, |was.nodes|, mode),
                      LeftBuffers(buffers, AccountAt(was, |was.nodes|), mode), cursors, done + [|was.nodes|])
  {
    LeaveReads(was, buffers0, mode, now, buffers, cursors, |was.nodes|, done, token);
    Leave(TableOf(was), cursors, |was.nodes|, done);
    hide LeftTables, Up, AllReady, StoragesOf, Threads, Ready, InTable;
  }

  lemma ThreadsLeave(was: TupleValue, now: TupleValue, cursors: seq<nat>, cur: nat, mode: Mode)
    requires WellFormed(TableOf(was)) && Threads(was, now, cursors)
    requires cur < NodeCount(now) && SlotExists(now, SlotOf(now, cur))
    ensures Threads(was, LeftTuple(now, cur, mode), cursors)
  {
  }

  /** Leave one node: its reservation for a tuple, its payload for a vector, nothing for a scalar. */
  method LeaveNode(owner: ValueOwner, host: HostRegistry, state: ResourceState, mode: Mode, i: nat) returns (ok: bool)
    requires i < NodeCount(owner.tuple) && SlotExists(owner.tuple, SlotOf(owner.tuple, i))
    requires Ready(host.buffers, AccountAt(owner.tuple, i), PurposeAt(owner.tuple, i), state.token, mode)
    requires Covered(host.buffers, state.token, state.live, state.refs)
    modifies owner`tuple, host, state
    ensures ok <==> mode == Destroy || Accounted(old(AccountAt(owner.tuple, i)))
    ensures ok ==>
              var a := old(AccountAt(owner.tuple, i));
              && owner.tuple == LeftTuple(old(owner.tuple), i, mode)
              && host.buffers == LeftBuffers(old(host.buffers), a, mode)
              && state.live == old(state.live) - BytesAt(old(host.buffers), a.storage, state.token)
              && state.refs == old(state.refs) - ReferencesAt(old(host.buffers), a.storage, state.token)
              && Covered(host.buffers, state.token, state.live, state.refs)
  {
    hide Covered, Matches;
    var v := owner.tuple;
    var a;
    match SlotOf(v, i) {
      case NoSlot =>
        ok := true;
      case PayloadSlot(k) =>
        ok, a := LeaveAccount(host, state, v.payloads[k].account, VectorPayload, mode);
        if ok {
          var elements := if mode == Detach then v.payloads[k].elements else [];
          owner.tuple := v.(payloads := v.payloads[k := v.payloads[k].(account := a, elements := elements)]);
        }
      case TableSlot(k) =>
        ok, a := LeaveAccount(host, state, v.reservations[k].account, TupleTable, mode);
        if ok {
          owner.tuple := v.(reservations := v.reservations[k := v.reservations[k].(account := a)]);
        }
      case RootSlot =>
        ok, a := LeaveAccount(host, state, v.rootReservation.account, TupleTable, mode);
        if ok {
          owner.tuple := v.(rootReservation := v.rootReservation.(account := a));
        }
    }
  }

  lemma SumsStep(buffers: seq<HostBuffer>, v: TupleValue, done: seq<nat>, i: nat, token: nat)
    requires SlotsExist(v) && InTable(v, done) && InTable(v, done + [i]) && i < NodeCount(v)
    ensures RefundSum(buffers, v, done + [i], token) == RefundSum(buffers, v, done, token) + BytesAt(buffers, StorageAt(v, i), token)
    ensures ReferenceSum(buffers, v, done + [i], token) == ReferenceSum(buffers, v, done, token) + ReferencesAt(buffers, StorageAt(v, i), token)
  {
    assert (done + [i])[..|done|] == done;
  }

  /** What the listed nodes charge comes off the active bindings as their buffers are left. */
  lemma {:induction false} AllLeftOff(buffers: seq<HostBuffer>, v: TupleValue, done: seq<nat>, mode: Mode, token: nat)
    requires SlotsExist(v) && StoragesDistinct(v) && AllReady(buffers, v, token, mode) && InTable(v, done) && Distinct(done)
    ensures var after := BuffersWithout(buffers, StoragesOf(v, done), mode);
            && ActiveBytes(after, token) == ActiveBytes(buffers, token) - RefundSum(buffers, v, done, token)
            && ActiveCount(after, token) == ActiveCount(buffers, token) - ReferenceSum(buffers, v, done, token)
  {
    if done == [] {
      assert StoragesOf(v, done) == {};
      assert BuffersWithout(buffers, {}, mode) == buffers;
    } else {
      var before, i := done[..|done| - 1], done[|done| - 1];
      assert before + [i] == done;
      forall k | 0 <= k < |before| ensures before[k] != i {
        assert before[k] == done[k];
      }
      hide AllReady, StoragesDistinct, BuffersWithout, LeftBuffers, Ready, SlotsExist, ActiveBytes, ActiveCount, StoragesOf, BytesAt, ReferencesAt;
      AllLeftOff(buffers, v, before, mode, token);
      StillReady(buffers, v, before, mode, i, token);
      LeftOff(BuffersWithout(buffers, StoragesOf(v, before), mode), AccountAt(v, i), mode, token);
    }
  }

  /** What the walk has taken from the state so far. */
  ghost predicate Ledger(b: Before, done: seq<nat>, live: nat, refs: nat)
    requires SlotsExist(b.was) && InTable(b.was, done)
  {
    && live == b.live - RefundSum(b.buffers, b.was, done, b.token)
    && refs == b.refs - ReferenceSum(b.buffers, b.was, done, b.token)
  }

  ghost predicate AccountedUpTo(was: TupleValue, order: seq<nat>, mode: Mode)
    requires SlotsExist(was) && InTable(was, order)
  {
    mode == Destroy || forall k :: 0 <= k < |order| ==> Accounted(AccountAt(was, order[k]))
  }

  /** The state before the walk, for comparison. */
  datatype Before = Before(was: TupleValue, buffers: seq<HostBuffer>, live: nat, refs: nat, token: nat, mode: Mode)

  ghost predicate WalkState(b: Before, now: TupleValue, buffers: seq<HostBuffer>, live: nat, refs: nat,
                            cursors: seq<nat>, cur: nat, order: seq<nat>) {
    && WalkInv(b.was, b.buffers, b.mode, now, buffers, cursors, cur, order)
    && AllReady(b.buffers, b.was, b.token, b.mode)
    && Ledger(b, order, live, refs)
    && Covered(buffers, b.token, live, refs)
    && AccountedUpTo(b.was, order, b.mode)
  }

  ghost predicate WalkDone(b: Before, now: TupleValue, buffers: seq<HostBuffer>, live: nat, refs: nat,
                           cursors: seq<nat>, order: seq<nat>) {
    && Structured(b.was)
    && WalkedAll(b.was, b.buffers, b.mode, now, buffers, cursors, order)
    && Ledger(b, order, live, refs)
    && Covered(buffers, b.token, live, refs)
    && (b.mode == Destroy || FullyAccounted(b.was))
    && AllReady(b.buffers, b.was, b.token, b.mode)
  }

  datatype Status = Going | Finished | Refused

  lemma EveryNodeAccounted(was: TupleValue, order: seq<nat>, mode: Mode)
    requires Structured(was) && InTable(was, order) && order == RevPost(TableOf(was), |was.nodes|)
    requires AccountedUpTo(was, order, mode)
    ensures mode == Destroy || FullyAccounted(was)
  {
    WholeWalk(TableOf(was));
    if mode != Destroy {
      forall i: nat | i < NodeCount(was) ensures Accounted(AccountAt(was, i)) {
        assert i in order;
      }
    }
  }

  /** Enter the last unentered child. */
  method EnterChild(ghost b: Before, owner: ValueOwner, ghost buffers: seq<HostBuffer>, ghost live: nat, ghost refs: nat, cur: nat,
                    ghost cursors: seq<nat>, ghost order: seq<nat>)
    returns (cur': nat, ghost cursors': seq<nat>)
    requires WalkState(b, owner.tuple, buffers, live, refs, cursors, cur, order)
    requires cur < NodeCount(owner.tuple) && ContainerOf(owner.tuple, cur) == TupleC && SpanOf(owner.tuple, cur).count > 0
    modifies owner`tuple
    ensures WalkState(b, owner.tuple, buffers, live, refs, cursors', cur', order)
    ensures Measure(b.was, cursors', cur') == Measure(b.was, cursors, cur) && cur' < cur
  {
    hide WalkState, WalkInv, Measure, Kid, LinkOf, SlotOf, SlotExists, WellFormed, TableOf;
    ghost var now := owner.tuple;
    EnterStep(b, now, buffers, live, refs, cursors, cur, order);
    cursors' := cursors[cur := cursors[cur] - 1];
    if cur == owner.tuple.rootIndex {
      var remaining := owner.tuple.childCount - 1;
      owner.tuple := owner.tuple.(childCount := remaining);
      cur' := owner.tuple.childIndexes[owner.tuple.firstChild + remaining];
    } else {
      var node := owner.tuple.nodes[cur];
      var remaining := node.childCount - 1;
      owner.tuple := owner.tuple.(nodes := owner.tuple.nodes[cur := node.(childCount := remaining)]);
      cur' := owner.tuple.childIndexes[node.firstChild + remaining];
    }
  }

  lemma EnterStep(b: Before, now: TupleValue, buffers: seq<HostBuffer>, live: nat, refs: nat,
                  cursors: seq<nat>, cur: nat, order: seq<nat>)
    requires WalkState(b, now, buffers, live, refs, cursors, cur, order)
    requires cur < NodeCount(now) && ContainerOf(now, cur) == TupleC && SpanOf(now, cur).count > 0
    ensures cur < |cursors| && SpanOf(now, cur).count == cursors[cur] && WellFormed(TableOf(b.was)) && cursors[cur] <= SpanOf(b.was, cur).count
    ensures var kid, cursors' := Kid(TableOf(b.was), cur, cursors[cur] - 1), cursors[cur := cursors[cur] - 1];
            && WalkState(b, EnteredTuple(now, cur), buffers, live, refs, cursors', kid, order)
            && Measure(b.was, cursors', kid) == Measure(b.was, cursors, cur) && kid < cur
            && SpanOf(now, cur).first + cursors[cur] - 1 < |now.childIndexes|
            && kid == now.childIndexes[SpanOf(now, cur).first + cursors[cur] - 1]
    ensures now.rootIndex == |now.nodes|
  {
    hide *;
    EnterNeeds(b, now, buffers, live, refs, cursors, cur, order);
    WalkInvDescend(b.was, b.buffers, b.mode, now, buffers, cursors, cur, order);
    var next, cursors', kid := EnteredTuple(now, cur), cursors[cur := cursors[cur] - 1], Kid(TableOf(b.was), cur, cursors[cur] - 1);
    MeasureIs(b.was, b.buffers, b.mode, now, buffers, cursors, cur, order);
    MeasureIs(b.was, b.buffers, b.mode, next, buffers, cursors', kid, order);
    Entered(b, now, next, buffers, live, refs, cursors, cur, cursors', kid, order);
  }

  /** What entering a child reads of the walk. */
  lemma EnterNeeds(b: Before, now: TupleValue, buffers: seq<HostBuffer>, live: nat, refs: nat,
                   cursors: seq<nat>, cur: nat, order: seq<nat>)
    requires WalkState(b, now, buffers, live, refs, cursors, cur, order)
    requires cur < NodeCount(now) && ContainerOf(now, cur) == TupleC && SpanOf(now, cur).count > 0
    ensures WalkInv(b.was, b.buffers, b.mode, now, buffers, cursors, cur, order)
    ensures cur < |cursors| && cur < NodeCount(b.was) && ContainerOf(b.was, cur) == TupleC && SpanOf(now, cur).count == cursors[cur]
    ensures WellFormed(TableOf(b.was)) && Postorder(TableOf(b.was)) && cur < |TableOf(b.was).spans|
    ensures 0 < cursors[cur] <= TableOf(b.was).spans[cur].count && TableOf(b.was).spans[cur] == SpanOf(b.was, cur)
    ensures SpanOf(now, cur).first + cursors[cur] - 1 < |now.childIndexes|
    ensures Kid(TableOf(b.was), cur, cursors[cur] - 1) == now.childIndexes[SpanOf(now, cur).first + cursors[cur] - 1]
    ensures now.rootIndex == |now.nodes|
  {
    hide *;
    StateInv(b, now, buffers, live, refs, cursors, cur, order);
    WalkInvReads(b.was, b.buffers, b.mode, now, buffers, cursors, cur, order);
    WalkInvParts(b.was, b.buffers, b.mode, now, buffers, cursors, cur, order);
    CursorBelow(TableOf(b.was), cursors, cur);
    NodesCounted(now);
    NodesCounted(b.was);
  }

  lemma StateInv(b: Before, now: TupleValue, buffers: seq<HostBuffer>, live: nat, refs: nat,
                 cursors: seq<nat>, cur: nat, order: seq<nat>)
    requires WalkState(b, now, buffers, live, refs, cursors, cur, order)
    ensures WalkInv(b.was, b.buffers, b.mode, now, buffers, cursors, cur, order)
  {
    hide WalkInv, AllReady, Ledger, Covered, AccountedUpTo;
  }

  lemma CursorBelow(s: Shape, cursors: seq<nat>, cur: nat)
    requires WellFormed(s) && CursorsOk(s, cursors) && cur < |s.spans|
    ensures Postorder(s) && cur < |cursors| && cursors[cur] <= s.spans[cur].count
  {
  }

  lemma NodesCounted(v: TupleValue)
    ensures NodeCount(v) == |v.nodes| + 1
  {
  }

  /** Entering a child takes nothing. */
  lemma Entered(b: Before, now: TupleValue, next: TupleValue, buffers: seq<HostBuffer>, live: nat, refs: nat,
                cursors: seq<nat>, cur: nat, cursors': seq<nat>, kid: nat, order: seq<nat>)
    requires WalkState(b, now, buffers, live, refs, cursors, cur, order)
    requires WalkInv(b.was, b.buffers, b.mode, next, buffers, cursors', kid, order)
    ensures WalkState(b, next, buffers, live, refs, cursors', kid, order)
  {
    hide AllReady, Ledger, Covered, AccountedUpTo, AtNode, Threads, LeftTables, InTable, WellFormed, BuffersWithout;
  }

  lemma MeasureIs(was: TupleValue, buffers0: seq<HostBuffer>, mode: Mode, now: TupleValue, buffers: seq<HostBuffer>,
                  cursors: seq<nat>, cur: nat, done: seq<nat>)
    requires WalkInv(was, buffers0, mode, now, buffers, cursors, cur, done)
    ensures WellFormed(TableOf(was)) && CursorsOk(TableOf(was), cursors) && cur <= Root(TableOf(was))
    ensures Measure(was, cursors, cur) == |Up(TableOf(was), cursors, cur)|
  {
  }

  lemma WalkStateParts(b: Before, now: TupleValue, buffers: seq<HostBuffer>, live: nat, refs: nat,
                       cursors: seq<nat>, cur: nat, order: seq<nat>)
    requires WalkState(b, now, buffers, live, refs, cursors, cur, order)
    ensures Structured(b.was) && WellFormed(TableOf(b.was)) && SlotsExist(b.was) && InTable(b.was, order)
    ensures |cursors| == NodeCount(b.was) && cur <= |b.was.nodes|
  {
  }

  lemma LedgerStep(b: Before, order: seq<nat>, cur: nat, live: nat, refs: nat, live': nat, refs': nat)
    requires SlotsExist(b.was) && InTable(b.was, order) && cur < NodeCount(b.was)
    requires Ledger(b, order, live, refs) && AccountedUpTo(b.was, order, b.mode) && (b.mode == Destroy || Accounted(AccountAt(b.was, cur)))
    requires live' == live - BytesAt(b.buffers, StorageAt(b.was, cur), b.token)
    requires refs' == refs - ReferencesAt(b.buffers, StorageAt(b.was, cur), b.token)
    ensures InTable(b.was, order + [cur]) && Ledger(b, order + [cur], live', refs')
    ensures AccountedUpTo(b.was, order + [cur], b.mode)
  {
    InTableStep(b.was, order, cur);
    SumsStep(b.buffers, b.was, order, cur, b.token);
  }

  /** The walk state after leaving a node that is not the root. */
  lemma LeaveStep(b: Before, now: TupleValue, buffers: seq<HostBuffer>, live: nat, refs: nat,
                  cursors: seq<nat>, cur: nat, order: seq<nat>, live': nat, refs': nat)
    requires WalkState(b, now, buffers, live, refs, cursors, cur, order)
    requires cur < |cursors| && cursors[cur] == 0 && cur < |b.was.nodes|
    requires cur < NodeCount(now) && SlotExists(now, SlotOf(now, cur))
    requires var a := AccountAt(now, cur);
             && (b.mode == Destroy || Accounted(a))
             && live' == live - BytesAt(buffers, a.storage, b.token) && refs' == refs - ReferencesAt(buffers, a.storage, b.token)
             && Covered(LeftBuffers(buffers, a, b.mode), b.token, live', refs')
    ensures WellFormed(TableOf(b.was))
    ensures WalkState(b, LeftTuple(now, cur, b.mode), LeftBuffers(buffers, AccountAt(now, cur), b.mode), live', refs',
                      cursors, Parent(TableOf(b.was), cur), order + [cur])
    ensures Measure(b.was, cursors, Parent(TableOf(b.was), cur)) < Measure(b.was, cursors, cur)
  {
    WalkStateParts(b, now, buffers, live, refs, cursors, cur, order);
    assert AllReady(b.buffers, b.was, b.token, b.mode) && WalkInv(b.was, b.buffers, b.mode, now, buffers, cursors, cur, order);
    assert Ledger(b, order, live, refs) && AccountedUpTo(b.was, order, b.mode);
    hide *;
    LeaveReads(b.was, b.buffers, b.mode, now, buffers, cursors, cur, order, b.token);
    ChargeSeen(buffers, b.buffers, StorageAt(b.was, cur), b.token);
    LedgerStep(b, order, cur, live, refs, live', refs');
    WalkInvLeave(b.was, b.buffers, b.mode, now, buffers, cursors, cur, order, b.token);
  }

  /** The result of leaving the root. */
  lemma LeaveRoot(b: Before, now: TupleValue, buffers: seq<HostBuffer>, live: nat, refs: nat,
                  cursors: seq<nat>, cur: nat, order: seq<nat>, live': nat, refs': nat)
    requires WalkState(b, now, buffers, live, refs, cursors, cur, order)
    requires cur < |cursors| && cursors[cur] == 0 && cur == |b.was.nodes|
    requires cur < NodeCount(now) && SlotExists(now, SlotOf(now, cur))
    requires var a := AccountAt(now, cur);
             && (b.mode == Destroy || Accounted(a))
             && live' == live - BytesAt(buffers, a.storage, b.token) && refs' == refs - ReferencesAt(buffers, a.storage, b.token)
             && Covered(LeftBuffers(buffers, a, b.mode), b.token, live', refs')
    ensures WalkDone(b, LeftTuple(now, cur, b.mode), LeftBuffers(buffers, AccountAt(now, cur), b.mode), live', refs', cursors, order + [cur])
  {
    WalkStateParts(b, now, buffers, live, refs, cursors, cur, order);
    assert AllReady(b.buffers, b.was, b.token, b.mode) && WalkInv(b.was, b.buffers, b.mode, now, buffers, cursors, cur, order);
    assert Ledger(b, order, live, refs) && AccountedUpTo(b.was, order, b.mode);
    hide *;
    LeaveReads(b.was, b.buffers, b.mode, now, buffers, cursors, cur, order, b.token);
    ChargeSeen(buffers, b.buffers, StorageAt(b.was, cur), b.token);
    LedgerStep(b, order, cur, live, refs, live', refs');
    WalkInvEnd(b.was, b.buffers, b.mode, now, buffers, cursors, order, b.token);
    WalkedOrder(b.was, b.buffers, b.mode, LeftTuple(now, cur, b.mode), LeftBuffers(buffers, AccountAt(now, cur), b.mode), cursors, order + [cur]);
    EveryNodeAccounted(b.was, order + [cur], b.mode);
  }

  lemma ChargeSeen(buffers: seq<HostBuffer>, buffers0: seq<HostBuffer>, storage: nat, token: nat)
    requires SameCharge(buffers, buffers0, storage, token)
    ensures BytesAt(buffers, storage, token) == BytesAt(buffers0, storage, token)
    ensures ReferencesAt(buffers, storage, token) == ReferencesAt(buffers0, storage, token)
  {
  }

  lemma WalkedOrder(was: TupleValue, buffers0: seq<HostBuffer>, mode: Mode, now: TupleValue, buffers: seq<HostBuffer>,
                    cursors: seq<nat>, order: seq<nat>)
    requires Structured(was) && WalkedAll(was, buffers0, mode, now, buffers, cursors, order)
    ensures WellFormed(TableOf(was)) && order == RevPost(TableOf(was), |was.nodes|)
  {
  }

  /** What leaving a node needs from the walk, and what a refusal means. */
  lemma LeaveNeeds(b: Before, now: TupleValue, buffers: seq<HostBuffer>, live: nat, refs: nat,
                   cursors: seq<nat>, cur: nat, order: seq<nat>)
    requires WalkState(b, now, buffers, live, refs, cursors, cur, order)
    requires cur < |cursors| && cursors[cur] == 0
    ensures cur < NodeCount(now) == NodeCount(b.was) && now.rootIndex == |b.was.nodes| && SlotExists(now, SlotOf(now, cur))
    ensures Ready(buffers, AccountAt(now, cur), PurposeAt(now, cur), b.token, b.mode) && Covered(buffers, b.token, live, refs)
    ensures cur < |b.was.nodes| ==> LinkOf(now.nodes[cur]) == Parent(TableOf(b.was), cur)
    ensures SlotsExist(b.was) && (!Accounted(AccountAt(now, cur)) ==> !FullyAccounted(b.was))
  {
    WalkInvReads(b.was, b.buffers, b.mode, now, buffers, cursors, cur, order);
    LeaveReads(b.was, b.buffers, b.mode, now, buffers, cursors, cur, order, b.token);
  }

  /** Leave the current node and climb to its parent, or finish at the root. */
  method LeaveAndClimb(ghost b: Before, owner: ValueOwner, host: HostRegistry, state: ResourceState, mode: Mode, cur: nat,
                       order: seq<nat>, ghost cursors: seq<nat>)
    returns (status: Status, cur': nat, order': seq<nat>)
    requires WalkState(b, owner.tuple, host.buffers, state.live, state.refs, cursors, cur, order)
    requires state.token == b.token && mode == b.mode && cur < |cursors| && cursors[cur] == 0
    modifies owner`tuple, host, state
    ensures order' == order + [cur]
    ensures status == Refused ==> mode != Destroy && SlotsExist(b.was) && !FullyAccounted(b.was)
    ensures status == Going ==>
              && WalkState(b, owner.tuple, host.buffers, state.live, state.refs, cursors, cur', order')
              && Measure(b.was, cursors, cur') < Measure(b.was, cursors, cur)
    ensures status == Finished ==> WalkDone(b, owner.tuple, host.buffers, state.live, state.refs, cursors, order')
  {
    ghost var now, buffers, live, refs := owner.tuple, host.buffers, state.live, state.refs;
    LeaveNeeds(b, now, buffers, live, refs, cursors, cur, order);
    order' := order + [cur];
    var root := cur == owner.tuple.rootIndex;
    cur' := if root then cur else Climb(owner.tuple, cur);
    hide WalkState, WalkDone, Covered, Ready, FullyAccounted, SlotsExist, LeftTuple, LeftBuffers, BytesAt, ReferencesAt, Measure;
    var ok := LeaveNode(owner, host, state, mode, cur);
    if !ok {
      status := Refused;
    } else if root {
      LeaveRoot(b, now, buffers, live, refs, cursors, cur, order, state.live, state.refs);
      status := Finished;
    } else {
      LeaveStep(b, now, buffers, live, refs, cursors, cur, order, state.live, state.refs);
      status := Going;
    }
  }

  /** src/resources.cpp:3231-3232: follow the parent link of the node just left. */
  function Climb(v: TupleValue, i: nat): (parent: nat)
    requires i < |v.nodes|
    ensures parent == LinkOf(v.nodes[i])
  {
    if v.nodes[i].container == TupleC then v.nodes[i].payload else v.nodes[i].firstChild
  }

  /**
   The walk.  It terminates, leaves every node exactly once in the order `RevPost`, and gives back exactly what
   the nodes hold.  `Detach` and `Release` reach the end if and only if every non-empty buffer is accounted.
   */
  method Walk(owner: ValueOwner, host: HostRegistry, state: ResourceState, mode: Mode, ghost was: TupleValue)
    returns (ok: bool, order: seq<nat>, ghost cursors: seq<nat>)
    requires Structured(was) && AllReady(host.buffers, was, state.token, mode)
    requires Threads(was, owner.tuple, FullCursors(TableOf(was))) && owner.tuple == was.(nodes := owner.tuple.nodes)
    requires Covered(host.buffers, state.token, state.live, state.refs)
    modifies owner`tuple, host, state
    ensures ok <==> mode == Destroy || FullyAccounted(was)
    ensures ok ==>
              WalkDone(Before(was, old(host.buffers), old(state.live), old(state.refs), state.token, mode),
                       owner.tuple, host.buffers, state.live, state.refs, cursors, order)
  {
    hide *;
    ghost var b := Before(was, host.buffers, state.live, state.refs, state.token, mode);
    StructuredParts(was);
    order, cursors := [], FullCursors(TableOf(was));
    WalkStateStart(b, owner.tuple);
    var cur := owner.tuple.rootIndex;
    while true
      invariant WalkState(b, owner.tuple, host.buffers, state.live, state.refs, cursors, cur, order)
      decreases Measure(was, cursors, cur), cur
    {
      NextStep(b, owner.tuple, host.buffers, state.live, state.refs, cursors, cur, order);
      if Remaining(owner.tuple, cur) != 0 {
        cur, cursors := EnterChild(b, owner, host.buffers, state.live, state.refs, cur, cursors, order);
      } else {
        var status;
        status, cur, order := LeaveAndClimb(b, owner, host, state, mode, cur, order, cursors);
        if status == Refused {
          return false, order, cursors;
        }
        if status == Finished {
          DoneAccounted(b, owner.tuple, host.buffers, state.live, state.refs, cursors, order);
          return true, order, cursors;
        }
      }
    }
  }

  lemma StructuredParts(was: TupleValue)
    requires Structured(was)
    ensures was.rootIndex == |was.nodes| && WellFormed(TableOf(was)) && SlotsExist(was)
  {
  }

  lemma WalkStateStart(b: Before, now: TupleValue)
    requires Structured(b.was) && AllReady(b.buffers, b.was, b.token, b.mode)
    requires Threads(b.was, now, FullCursors(TableOf(b.was))) && now == b.was.(nodes := now.nodes)
    requires Covered(b.buffers, b.token, b.live, b.refs)
    ensures WalkState(b, now, b.buffers, b.live, b.refs, FullCursors(TableOf(b.was)), |b.was.nodes|, [])
  {
    WalkInvStart(b.was, b.buffers, b.mode, now);
    hide WalkInv, Covered, AllReady, Threads, WellFormed, SlotsUnshared, SlotsUsed, StoragesDistinct, NodeFieldsOk, TableOf;
  }

  /** Children of a tuple not entered yet; a leaf has none. */
  function Remaining(v: TupleValue, i: nat): nat
    requires i < NodeCount(v)
  {
    if ContainerOf(v, i) == TupleC then SpanOf(v, i).count else 0
  }

  lemma NextStep(b: Before, now: TupleValue, buffers: seq<HostBuffer>, live: nat, refs: nat,
                 cursors: seq<nat>, cur: nat, order: seq<nat>)
    requires WalkState(b, now, buffers, live, refs, cursors, cur, order)
    ensures cur < NodeCount(now) == |cursors| && Remaining(now, cur) == cursors[cur]
    ensures Remaining(now, cur) != 0 ==> ContainerOf(now, cur) == TupleC && SpanOf(now, cur).count > 0
  {
    WalkInvReads(b.was, b.buffers, b.mode, now, buffers, cursors, cur, order);
  }

  lemma DoneAccounted(b: Before, now: TupleValue, buffers: seq<HostBuffer>, live: nat, refs: nat, cursors: seq<nat>, order: seq<nat>)
    requires WalkDone(b, now, buffers, live, refs, cursors, order)
    ensures SlotsExist(b.was) && (b.mode == Destroy || FullyAccounted(b.was))
  {
  }
}
