/** The bytes a value holds, counted over its tables, are what a walk over its nodes gives back. */
module ValueTotals {
  import opened Kinds
  import opened Arena
  import opened HostStorage
  import opened AccountRelease
  import opened ValueArenas
  import opened ValueWalk
  import opened Sums

  // ---------------------------------------------------------------- what a value holds

  /** Bytes that the value's buffers charge to `token`, added up over its payload table, its reservation table and its root. */
  ghost function HeldBytes(buffers: seq<HostBuffer>, v: TupleValue, token: nat): nat {
    Sum(PayloadCharges(buffers, v, token)) + Sum(TableCharges(buffers, v, token))
    + BytesAt(buffers, v.rootReservation.account.storage, token)
  }

  ghost function PayloadCharges(buffers: seq<HostBuffer>, v: TupleValue, token: nat): (r: seq<nat>)
    ensures |r| == |v.payloads| && forall k :: 0 <= k < |r| ==> r[k] == BytesAt(buffers, v.payloads[k].account.storage, token)
  {
    seq(|v.payloads|, k requires 0 <= k < |v.payloads| => BytesAt(buffers, v.payloads[k].account.storage, token))
  }

  ghost function TableCharges(buffers: seq<HostBuffer>, v: TupleValue, token: nat): (r: seq<nat>)
    ensures |r| == |v.reservations| && forall k :: 0 <= k < |r| ==> r[k] == BytesAt(buffers, v.reservations[k].account.storage, token)
  {
    seq(|v.reservations|, k requires 0 <= k < |v.reservations| => BytesAt(buffers, v.reservations[k].account.storage, token))
  }

  /** The canonical bytes that the value's own accounts record. */
  ghost function CanonicalBytes(v: TupleValue): nat {
    Sum(seq(|v.payloads|, k requires 0 <= k < |v.payloads| => v.payloads[k].account.bytes))
    + Sum(seq(|v.reservations|, k requires 0 <= k < |v.reservations| => v.reservations[k].account.bytes))
    + v.rootReservation.account.bytes
  }

  /** When every account is charged to `token`, what its buffers charge is what the accounts record. */
  lemma HeldIsCanonical(buffers: seq<HostBuffer>, v: TupleValue, token: nat)
    requires forall k :: 0 <= k < |v.payloads| ==> BytesAt(buffers, v.payloads[k].account.storage, token) == v.payloads[k].account.bytes
    requires forall k :: 0 <= k < |v.reservations| ==> BytesAt(buffers, v.reservations[k].account.storage, token) == v.reservations[k].account.bytes
    requires BytesAt(buffers, v.rootReservation.account.storage, token) == v.rootReservation.account.bytes
    ensures HeldBytes(buffers, v, token) == CanonicalBytes(v)
  {
    hide BytesAt, Sum;
    assert PayloadCharges(buffers, v, token) == seq(|v.payloads|, k requires 0 <= k < |v.payloads| => v.payloads[k].account.bytes);
    assert TableCharges(buffers, v, token) == seq(|v.reservations|, k requires 0 <= k < |v.reservations| => v.reservations[k].account.bytes);
  }

  /** Payload indexes owned by the listed nodes, in order. */
  ghost function PayloadsAt(v: TupleValue, nodes: seq<nat>): (r: seq<nat>)
    requires SlotsExist(v) && InTable(v, nodes)
    ensures forall a :: 0 <= a < |r| ==> r[a] < |v.payloads|
  {
    if nodes == [] then []
    else PayloadsAt(v, nodes[..|nodes| - 1]) +
         (if SlotOf(v, nodes[|nodes| - 1]).PayloadSlot? then [SlotOf(v, nodes[|nodes| - 1]).index] else [])
  }

  ghost function TablesAt(v: TupleValue, nodes: seq<nat>): (r: seq<nat>)
    requires SlotsExist(v) && InTable(v, nodes)
    ensures forall a :: 0 <= a < |r| ==> r[a] < |v.reservations|
  {
    if nodes == [] then []
    else TablesAt(v, nodes[..|nodes| - 1]) +
         (if SlotOf(v, nodes[|nodes| - 1]).TableSlot? then [SlotOf(v, nodes[|nodes| - 1]).index] else [])
  }

  /** How one more node changes the two index lists. */
  lemma IndexesSnoc(v: TupleValue, nodes: seq<nat>, i: nat)
    requires SlotsExist(v) && InTable(v, nodes) && i < NodeCount(v) && InTable(v, nodes + [i])
    ensures PayloadsAt(v, nodes + [i]) == if SlotOf(v, i).PayloadSlot? then PayloadsAt(v, nodes) + [SlotOf(v, i).index] else PayloadsAt(v, nodes)
    ensures TablesAt(v, nodes + [i]) == if SlotOf(v, i).TableSlot? then TablesAt(v, nodes) + [SlotOf(v, i).index] else TablesAt(v, nodes)
  {
    assert (nodes + [i])[..|nodes|] == nodes;
  }

  /** The charges of the slots that the listed nodes own, table by table. */
  ghost function SlotSum(buffers: seq<HostBuffer>, v: TupleValue, nodes: seq<nat>, token: nat): nat
    requires SlotsExist(v) && InTable(v, nodes)
  {
    PickSum(PayloadCharges(buffers, v, token), PayloadsAt(v, nodes)) + PickSum(TableCharges(buffers, v, token), TablesAt(v, nodes))
    + (if |v.nodes| in nodes then BytesAt(buffers, v.rootReservation.account.storage, token) else 0)
  }

  lemma SlotSumSnoc(buffers: seq<HostBuffer>, v: TupleValue, nodes: seq<nat>, i: nat, token: nat)
    requires SlotsExist(v) && InTable(v, nodes) && i < NodeCount(v) && i !in nodes && InTable(v, nodes + [i])
    ensures SlotSum(buffers, v, nodes + [i], token) == SlotSum(buffers, v, nodes, token) + BytesAt(buffers, StorageAt(v, i), token)
  {
    IndexesSnoc(v, nodes, i);
    assert SlotExists(v, SlotOf(v, i)) && (SlotOf(v, i) == RootSlot <==> i == |v.nodes|);
    assert |v.nodes| in nodes + [i] <==> |v.nodes| in nodes || i == |v.nodes|;
    assert BytesAt(buffers, 0, token) == 0;
    hide PayloadsAt, TablesAt, InTable, SlotsExist, BytesAt;
    if SlotOf(v, i).PayloadSlot? {
      PickSnoc(PayloadCharges(buffers, v, token), PayloadsAt(v, nodes), SlotOf(v, i).index);
    } else if SlotOf(v, i).TableSlot? {
      PickSnoc(TableCharges(buffers, v, token), TablesAt(v, nodes), SlotOf(v, i).index);
    }
  }

  lemma {:induction false} RefundSumSplit(buffers: seq<HostBuffer>, v: TupleValue, nodes: seq<nat>, token: nat)
    requires SlotsExist(v) && InTable(v, nodes) && Distinct(nodes)
    ensures RefundSum(buffers, v, nodes, token) == SlotSum(buffers, v, nodes, token)
  {
    if nodes != [] {
      var before, i := nodes[..|nodes| - 1], nodes[|nodes| - 1];
      assert nodes == before + [i] && i !in before;
      RefundSumSplit(buffers, v, before, token);
      hide PayloadsAt, TablesAt, PickSum, SlotSum;
      SumsStep(buffers, v, before, i, token);
      SlotSumSnoc(buffers, v, before, i, token);
    }
  }

  lemma {:induction false} PayloadsAtMembers(v: TupleValue, nodes: seq<nat>, k: nat)
    requires SlotsExist(v) && InTable(v, nodes)
    ensures k in PayloadsAt(v, nodes) <==> exists i: nat :: i in nodes && i < NodeCount(v) && SlotOf(v, i) == PayloadSlot(k)
    ensures k in TablesAt(v, nodes) <==> exists i: nat :: i in nodes && i < NodeCount(v) && SlotOf(v, i) == TableSlot(k)
  {
    if nodes != [] {
      var n := |nodes| - 1;
      PayloadsAtMembers(v, nodes[..n], k);
      assert nodes == nodes[..n] + [nodes[n]];
    }
  }

  lemma {:induction false} PayloadsAtDistinct(v: TupleValue, nodes: seq<nat>)
    requires SlotsExist(v) && InTable(v, nodes) && Distinct(nodes) && SlotsUnshared(v)
    ensures Distinct(PayloadsAt(v, nodes)) && Distinct(TablesAt(v, nodes))
  {
    if nodes != [] {
      var n := |nodes| - 1;
      PayloadsAtDistinct(v, nodes[..n]);
      var s := SlotOf(v, nodes[n]);
      assert nodes[n] !in nodes[..n];
      if s.PayloadSlot? || s.TableSlot? {
        PayloadsAtMembers(v, nodes[..n], s.index);
      }
    }
  }

  /** Every payload and every reservation belongs to a node that the walk leaves. */
  lemma AllSlotsMet(v: TupleValue, order: seq<nat>)
    requires Structured(v) && InTable(v, order) && forall i: nat :: i < NodeCount(v) ==> i in order
    ensures forall k: nat :: k < |v.payloads| ==> k in PayloadsAt(v, order)
    ensures forall k: nat :: k < |v.reservations| ==> k in TablesAt(v, order)
  {
    forall k: nat | k < |v.payloads| ensures k in PayloadsAt(v, order) {
      PayloadsAtMembers(v, order, k);
      assert SlotUsed(v, PayloadSlot(k));
    }
    forall k: nat | k < |v.reservations| ensures k in TablesAt(v, order) {
      PayloadsAtMembers(v, order, k);
      assert SlotUsed(v, TableSlot(k));
    }
  }

  /** Summing over the nodes, in whatever order they were left, is summing over the tables. */
  lemma RefundIsHeldBytes(buffers: seq<HostBuffer>, v: TupleValue, order: seq<nat>, token: nat)
    requires Structured(v) && InTable(v, order) && Distinct(order) && forall i: nat :: i < NodeCount(v) ==> i in order
    ensures RefundSum(buffers, v, order, token) == HeldBytes(buffers, v, token)
  {
    RefundSumSplit(buffers, v, order, token);
    PayloadsAtDistinct(v, order);
    AllSlotsMet(v, order);
    hide Structured, InTable, Distinct, PickSum, RefundSum, SlotOf, SlotUsed, BytesAt;
    PickAll(PayloadCharges(buffers, v, token), PayloadsAt(v, order));
    PickAll(TableCharges(buffers, v, token), TablesAt(v, order));
  }
}
