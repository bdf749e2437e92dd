/**
 What a value costs, counted over the tree it denotes.  The evaluator's accounts add up to it, and so do the tables
 and blocks of the emitted C: src/resources.cpp:1213-1362, 1536-1646, src/rewrite_c_runtime.cpp:432-560.
 */
module ValueBytes {
  import opened Kinds
  import opened Arena
  import opened ArenaGraft
  import opened ArenaWalk
  import opened Sums
  import opened HostStorage
  import opened ValueArenas
  import opened ValueWalk
  import opened ValueTotals

  /** Eight bytes a number, one a truth value, sixteen a tuple slot. */
  function TreeBytes(t: ValueTree): nat
    decreases t
  {
    match t.tag
    case ScalarLeaf(_) => 0
    case VectorLeaf(element, xs) => |xs| * Width(element)
    case TupleBranch => |t.kids| * SLOT_BYTES + KidsBytes(t.kids)
  }

  function KidsBytes(kids: seq<ValueTree>): nat
    decreases kids
  {
    if kids == [] then 0 else KidsBytes(kids[..|kids| - 1]) + TreeBytes(kids[|kids| - 1])
  }

  // ---------------------------------------------------------------- node by node

  ghost function NodeBytes(v: TupleValue, i: nat): nat
    requires i < NodeCount(v) && SlotExists(v, SlotOf(v, i))
  {
    AccountOf(v, SlotOf(v, i)).bytes
  }

  ghost function NodeCosts(v: TupleValue): (r: seq<nat>)
    requires SlotsExist(v)
    ensures |r| == NodeCount(v) && forall i: nat :: i < |r| ==> SlotExists(v, SlotOf(v, i)) && r[i] == NodeBytes(v, i)
  {
    seq(NodeCount(v), i requires 0 <= i < NodeCount(v) => NodeBytes(v, i))
  }

  /** In a valid value every account records what its node costs. */
  lemma NodeCost(buffers: seq<HostBuffer>, owners: set<nat>, v: TupleValue, i: nat)
    requires ValidTuple(buffers, owners, v) && i < NodeCount(v)
    ensures SlotExists(v, SlotOf(v, i)) && SpanInRange(TableOf(v), i) && |ValueAt(v, i).kids| == TableOf(v).spans[i].count
    ensures NodeBytes(v, i) == match ValueAt(v, i).tag {
                                 case ScalarLeaf(_) => 0
                                 case VectorLeaf(element, xs) => |xs| * Width(element)
                                 case TupleBranch => |ValueAt(v, i).kids| * SLOT_BYTES
                               }
    ensures ValueAt(v, i).tag != TupleBranch ==> TableOf(v).spans[i].count == 0
  {
    assert NodeFieldsOk(v, i) && SlotExists(v, SlotOf(v, i)) && SlotOk(buffers, owners, v, i) && TableOf(v).spans[i] == SpanOf(v, i);
    hide SlotsUnshared, SlotsUsed, StoragesDistinct;
    DenoteKids(TableOf(v), ValueTags(v), i);
  }

  /**
   Every node that costs something has its own registered buffer of exactly that size, and while its account is active the
   buffer is bound, for those bytes, to a live owner.
   */
  lemma NodeBuffer(buffers: seq<HostBuffer>, owners: set<nat>, v: TupleValue, i: nat)
    requires ValidTuple(buffers, owners, v) && i < NodeCount(v)
    ensures SlotExists(v, SlotOf(v, i)) && (StorageAt(v, i) == 0 <==> NodeBytes(v, i) == 0)
    ensures NodeBytes(v, i) != 0 ==> ValidAddress(buffers, StorageAt(v, i)) && buffers[StorageAt(v, i) - 1].byteCount == NodeBytes(v, i)
    ensures var a := AccountOf(v, SlotOf(v, i));
            NodeBytes(v, i) != 0 && a.active ==>
              var b := buffers[StorageAt(v, i) - 1];
              b.active && b.owner == a.owner && b.owner in owners && b.bytes == NodeBytes(v, i) && b.purpose == PurposeAt(v, i)
    ensures forall j: nat :: j < NodeCount(v) && j != i && NodeBytes(v, i) != 0 ==> SlotExists(v, SlotOf(v, j)) && StorageAt(v, j) != StorageAt(v, i)
  {
    assert NodeFieldsOk(v, i) && SlotExists(v, SlotOf(v, i)) && SlotOk(buffers, owners, v, i);
    forall j: nat | j < NodeCount(v) && j != i && NodeBytes(v, i) != 0
      ensures SlotExists(v, SlotOf(v, j)) && StorageAt(v, j) != StorageAt(v, i)
    {
      OwnBuffer(v, i, j);
    }
  }

  lemma OwnBuffer(v: TupleValue, i: nat, j: nat)
    requires SlotsExist(v) && StoragesDistinct(v) && i < NodeCount(v) && j < NodeCount(v) && i != j
    ensures SlotExists(v, SlotOf(v, i)) && SlotExists(v, SlotOf(v, j)) && (StorageAt(v, j) == StorageAt(v, i) ==> StorageAt(v, i) == 0)
  {
    var low, high := if i < j then i else j, if i < j then j else i;
    assert low < high && SlotExists(v, SlotOf(v, low)) && SlotExists(v, SlotOf(v, high));
    hide SlotOf, SlotExists, AccountOf;
  }

  lemma KidTree(v: TupleValue, i: nat, k: nat)
    requires Structured(v) && i < NodeCount(v) && SpanInRange(TableOf(v), i) && k < TableOf(v).spans[i].count == |ValueAt(v, i).kids|
    ensures Postorder(TableOf(v)) && ValueAt(v, i).kids[k] == ValueAt(v, Kid(TableOf(v), i, k))
  {
    hide SlotsUnshared, SlotsUsed, StoragesDistinct;
    DenoteKids(TableOf(v), ValueTags(v), i);
  }

  /** The nodes below one node cost what its tree costs. */
  lemma {:induction false} SubtreeBytes(buffers: seq<HostBuffer>, owners: set<nat>, v: TupleValue, i: nat)
    requires ValidTuple(buffers, owners, v) && i < NodeCount(v)
    ensures WellFormed(TableOf(v)) && SlotsExist(v) && Picks(NodeCosts(v), RevPost(TableOf(v), i))
    ensures PickSum(NodeCosts(v), RevPost(TableOf(v), i)) == TreeBytes(ValueAt(v, i))
    decreases i, TableOf(v).spans[i].count + 1
  {
    hide *;
    ValidParts(buffers, owners, v);
    NodeCost(buffers, owners, v, i);
    var s, t := TableOf(v), ValueAt(v, i);
    var c := s.spans[i].count;
    KidsBelow(buffers, owners, v, i, c);
    RevPostIs(s, i);
    PicksSnoc(NodeCosts(v), RevKids(s, i, c), i);
    assert t.kids[..c] == t.kids;
    TreeBytesIs(t);
  }

  ghost predicate Picks(w: seq<nat>, ks: seq<nat>) {
    forall a :: 0 <= a < |ks| ==> ks[a] < |w|
  }

  lemma PicksSnoc(w: seq<nat>, ks: seq<nat>, k: nat)
    requires Picks(w, ks) && k < |w|
    ensures Picks(w, ks + [k]) && PickSum(w, ks + [k]) == PickSum(w, ks) + w[k]
  {
    hide PickSum;
    PickSnoc(w, ks, k);
    MorePicks(w, ks, k);
  }

  lemma MorePicks(w: seq<nat>, ks: seq<nat>, k: nat)
    requires Picks(w, ks) && k < |w|
    ensures Picks(w, ks + [k])
  {
    var more := ks + [k];
    forall a | 0 <= a < |more| ensures more[a] < |w| {
      if a < |ks| { assert more[a] == ks[a]; }
    }
  }

  lemma PicksBoth(w: seq<nat>, xs: seq<nat>, ys: seq<nat>)
    requires Picks(w, xs) && Picks(w, ys)
    ensures Picks(w, xs + ys) && PickSum(w, xs + ys) == PickSum(w, xs) + PickSum(w, ys)
  {
    PickAppend(w, xs, ys);
  }

  lemma NoPicks(w: seq<nat>)
    ensures Picks(w, []) && PickSum(w, []) == 0
  {
  }

  lemma RevPostIs(s: Shape, i: nat)
    requires WellFormed(s) && i < |s.spans|
    ensures Postorder(s) && RevPost(s, i) == RevKids(s, i, s.spans[i].count) + [i]
  {
  }

  lemma TreeBytesIs(t: ValueTree)
    ensures TreeBytes(t) == match t.tag {
                              case ScalarLeaf(_) => 0
                              case VectorLeaf(element, xs) => |xs| * Width(element)
                              case TupleBranch => |t.kids| * SLOT_BYTES + KidsBytes(t.kids)
                            }
    ensures t.kids == [] ==> KidsBytes(t.kids) == 0
  {
  }

  lemma KidsBytesStep(kids: seq<ValueTree>, c: nat)
    requires 0 < c <= |kids|
    ensures KidsBytes(kids[..c]) == KidsBytes(kids[..c - 1]) + TreeBytes(kids[c - 1]) && KidsBytes(kids[..0]) == 0
  {
    hide TreeBytes;
    assert kids[..c][..c - 1] == kids[..c - 1];
  }

  lemma ValidParts(buffers: seq<HostBuffer>, owners: set<nat>, v: TupleValue)
    requires ValidTuple(buffers, owners, v)
    ensures Structured(v) && WellFormed(TableOf(v)) && SlotsExist(v) && |TableOf(v).spans| == NodeCount(v) && Root(TableOf(v)) == |v.nodes|
    ensures Postorder(TableOf(v)) && v.rootIndex == |v.nodes| && NodeCount(v) == |v.nodes| + 1
  {
  }

  lemma {:induction false} KidsBelow(buffers: seq<HostBuffer>, owners: set<nat>, v: TupleValue, i: nat, c: nat)
    requires ValidTuple(buffers, owners, v) && i < NodeCount(v) && c <= TableOf(v).spans[i].count
    ensures WellFormed(TableOf(v)) && SlotsExist(v) && |ValueAt(v, i).kids| == TableOf(v).spans[i].count
    ensures Picks(NodeCosts(v), RevKids(TableOf(v), i, c))
    ensures PickSum(NodeCosts(v), RevKids(TableOf(v), i, c)) == KidsBytes(ValueAt(v, i).kids[..c])
    decreases i, c
  {
    hide *;
    ValidParts(buffers, owners, v);
    NodeCost(buffers, owners, v, i);
    var s, kids := TableOf(v), ValueAt(v, i).kids;
    UnfoldRevKids(s, i, c);
    if c == 0 {
      NoPicks(NodeCosts(v));
      NoKids(kids);
    } else {
      KidTree(v, i, c - 1);
      SubtreeBytes(buffers, owners, v, Kid(s, i, c - 1));
      KidsBelow(buffers, owners, v, i, c - 1);
      PicksBoth(NodeCosts(v), RevPost(s, Kid(s, i, c - 1)), RevKids(s, i, c - 1));
      KidsBytesStep(kids, c);
    }
  }

  lemma NoKids(kids: seq<ValueTree>)
    ensures KidsBytes(kids[..0]) == 0
  {
  }

  // ---------------------------------------------------------------- table by table

  ghost function PayloadBytes(v: TupleValue): (r: seq<nat>)
    ensures |r| == |v.payloads| && forall k :: 0 <= k < |r| ==> r[k] == v.payloads[k].account.bytes
  {
    seq(|v.payloads|, k requires 0 <= k < |v.payloads| => v.payloads[k].account.bytes)
  }

  ghost function TableBytes(v: TupleValue): (r: seq<nat>)
    ensures |r| == |v.reservations| && forall k :: 0 <= k < |r| ==> r[k] == v.reservations[k].account.bytes
  {
    seq(|v.reservations|, k requires 0 <= k < |v.reservations| => v.reservations[k].account.bytes)
  }

  /** The nodes listed cost what their slots cost. */
  lemma {:induction false} NodesBySlots(v: TupleValue, nodes: seq<nat>)
    requires SlotsExist(v) && InTable(v, nodes) && Distinct(nodes)
    ensures Picks(NodeCosts(v), nodes)
    ensures PickSum(NodeCosts(v), nodes) ==
            PickSum(PayloadBytes(v), PayloadsAt(v, nodes)) + PickSum(TableBytes(v), TablesAt(v, nodes))
            + (if |v.nodes| in nodes then v.rootReservation.account.bytes else 0)
  {
    if nodes != [] {
      var before, i := nodes[..|nodes| - 1], nodes[|nodes| - 1];
      assert nodes == before + [i] && i !in before;
      NodesBySlots(v, before);
      IndexesSnoc(v, before, i);
      assert SlotExists(v, SlotOf(v, i)) && (SlotOf(v, i) == RootSlot <==> i == |v.nodes|);
      PicksSnoc(NodeCosts(v), before, i);
      hide PayloadsAt, TablesAt, PickSum, SlotsExist;
      if SlotOf(v, i).PayloadSlot? {
        PickSnoc(PayloadBytes(v), PayloadsAt(v, before), SlotOf(v, i).index);
      } else if SlotOf(v, i).TableSlot? {
        PickSnoc(TableBytes(v), TablesAt(v, before), SlotOf(v, i).index);
      }
    }
  }

  /** The canonical bytes of a valid value are what its tree costs, however its tables are laid out. */
  lemma CanonicalIsTreeBytes(buffers: seq<HostBuffer>, owners: set<nat>, v: TupleValue)
    requires ValidTuple(buffers, owners, v)
    ensures CanonicalBytes(v) == TreeBytes(ValueOf(v))
  {
    ValidParts(buffers, owners, v);
    var order := RevPost(TableOf(v), v.rootIndex);
    WholeWalk(TableOf(v));
    SubtreeBytes(buffers, owners, v, v.rootIndex);
    hide RevPost, WellFormed, TreeBytes;
    NodesBySlots(v, order);
    PayloadsAtDistinct(v, order);
    AllSlotsMet(v, order);
    hide SlotsExist, ValueAt, SlotOf;
    PickAll(PayloadBytes(v), PayloadsAt(v, order));
    PickAll(TableBytes(v), TablesAt(v, order));
    CanonicalIs(v);
  }

  lemma CanonicalIs(v: TupleValue)
    ensures CanonicalBytes(v) == Sum(PayloadBytes(v)) + Sum(TableBytes(v)) + v.rootReservation.account.bytes
  {
    hide Sum;
    assert PayloadBytes(v) == seq(|v.payloads|, k requires 0 <= k < |v.payloads| => v.payloads[k].account.bytes);
    assert TableBytes(v) == seq(|v.reservations|, k requires 0 <= k < |v.reservations| => v.reservations[k].account.bytes);
  }
}
