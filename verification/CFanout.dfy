/**
 A fan-out in the emitted C from its creation to its release.  The generated code makes a tuple of empty cells, hands
 over the value of one branch after another, and releases the fan-out when a later branch fails.
 */
module CFanout {
  import opened Kinds
  import opened Arena
  import opened ValueArenas
  import opened Resources
  import opened CHeap
  import opened CTuples
  import opened CRelease
  import opened ValueBytes

  // ---------------------------------------------------------------- the values to hand over

  ghost function AllFeet(feet: seq<set<nat>>): set<nat> {
    if feet == [] then {} else AllFeet(feet[..|feet| - 1]) + feet[|feet| - 1]
  }

  lemma {:induction false} FeetMember(feet: seq<set<nat>>, x: nat)
    ensures x in AllFeet(feet) <==> exists k: nat :: k < |feet| && x in feet[k]
  {
    if feet != [] {
      var n := |feet| - 1;
      FeetMember(feet[..n], x);
      if k: nat :| k < n && x in feet[..n][k] { assert x in feet[k]; }
      if k: nat :| k < n && x in feet[k] { assert x in feet[..n][k]; }
    }
  }

  ghost predicate HoldAll(h: Heap, children: seq<Ptr>, kids: seq<ValueTree>, feet: seq<set<nat>>, from: nat) {
    && |kids| == |feet| == |children|
    && forall k: nat :: from <= k < |children| ==> HoldsAs(h, children[k], kids[k], feet[k])
  }

  ghost predicate HoldsAs(h: Heap, p: Ptr, t: ValueTree, foot: set<nat>) {
    Points(h, p) && Holds(h, p, t) && Foot(h, p, t) == foot
  }

  /** Distinct cells whose trees own disjoint parts of the heap, none of which is the cell of the fan-out. */
  ghost predicate Apart(result: Ptr, children: seq<Ptr>, feet: seq<set<nat>>) {
    && |feet| == |children| && result.At?
    && (forall k: nat :: k < |children| ==> children[k].At? && children[k] != result && result.table !in feet[k])
    && (forall j: nat, k: nat :: j < k < |children| ==> children[j] != children[k] && feet[j] !! feet[k])
    && (forall j: nat, k: nat :: j < |children| && k < |children| ==> children[j].table !in feet[k])
  }

  /** The empty cells are neither the children nor inside them. */
  ghost predicate ClearOf(empties: seq<Ptr>, children: seq<Ptr>, feet: seq<set<nat>>)
    requires |feet| == |children|
  {
    forall j: nat, k: nat :: j < |empties| && k < |children| ==>
      empties[j].At? && empties[j] != children[k] && empties[j].table !in feet[k]
  }

  function NoTrees(n: nat): (r: seq<Option<ValueTree>>)
    ensures |r| == n && forall k :: 0 <= k < n ==> r[k] == None
  {
    seq(n, _ => None)
  }

  /** A cell that has nothing to do with the fan-out. */
  ghost predicate Bystander(result: Ptr, empties: seq<Ptr>, children: seq<Ptr>, feet: seq<set<nat>>, q: Ptr) {
    q.At? && q != result && q !in empties && q !in children && q.table !in AllFeet(feet)
  }

  function NewTable(d: nat): set<nat> {
    if d == 0 then {} else {d}
  }

  // ---------------------------------------------------------------- the fan-out while it fills

  /** The new table is none of the cells and lies inside no value. */
  ghost predicate TableBeside(result: Ptr, d: nat, children: seq<Ptr>, feet: seq<set<nat>>)
    requires |feet| == |children|
  {
    result.At? && result.table != d && forall k: nat :: k < |children| ==> children[k].At? && children[k].table != d && d !in feet[k]
  }

  /** The first `i` children are handed over, the others still stand where they were. */
  ghost predicate PartlyFilled(h0: Heap, h: Heap, result: Ptr, d: nat, empties: seq<Ptr>, children: seq<Ptr>, kids: seq<ValueTree>,
                               feet: seq<set<nat>>, i: nat)
    requires |kids| == |feet| == |children| && i <= |children|
  {
    && FreshNames(h) && h.blocks == h0.blocks && d !in h0.tables
    && Points(h, result) && Load(h, result).parent == Null && Load(h, result).data == d
    && PartHolds(h, result, kids[..i], |empties|)
    && PartFoot(h, result, kids[..i]) == NewTable(d) + AllFeet(feet[..i])
    && HoldAll(h, children, kids, feet, i)
    && (forall k: nat :: k < i ==> Points(h, children[k]) && Load(h, children[k]) == ZERO)
    && (forall q: Ptr :: Points(h0, q) && Bystander(result, empties, children, feet, q) ==> Points(h, q) && Load(h, q) == Load(h0, q))
  }

  /** A value elsewhere survives a change that leaves its cell and everything it owns alone. */
  lemma StillHeld(h: Heap, g: Heap, p: Ptr, t: ValueTree, foot: set<nat>)
    requires HoldsAs(h, p, t, foot) && g.blocks == h.blocks
    requires forall id :: id in h.tables ==> id in g.tables && |g.tables[id]| == |h.tables[id]|
    requires forall q: Ptr :: Points(h, q) && (q == p || q.table in foot) ==> Load(g, q) == Load(h, q)
    requires forall id :: id in foot && id in g.tables ==> id in h.tables
    ensures HoldsAs(g, p, t, foot)
  {
    hide Holds, Foot;
    forall id | id in foot && id in h.tables ensures g.tables[id] == h.tables[id] {
      forall k: nat | k < |h.tables[id]| ensures g.tables[id][k] == h.tables[id][k] {
        assert Points(h, At(id, k)) && Load(g, At(id, k)) == Load(h, At(id, k));
      }
    }
    HoldsFrame(h, g, p, t);
  }

  lemma FanoutStarts(h: Heap, g: Heap, result: Ptr, empties: seq<Ptr>, children: seq<Ptr>, kids: seq<ValueTree>, feet: seq<set<nat>>)
    requires FreshNames(h) && FreshNames(g) && Gathered(h, result, empties, NoTrees(|empties|)) && Load(h, result).parent == Null
    requires FanoutMade(h, g, result, empties, NoTrees(|empties|))
    requires HoldAll(h, children, kids, feet, 0) && Apart(result, children, feet) && ClearOf(empties, children, feet)
    ensures var d := if empties == [] then 0 else h.next;
            TableBeside(result, d, children, feet) && PartlyFilled(h, g, result, d, empties, children, kids, feet, 0)
  {
    var ts, d := NoTrees(|empties|), if empties == [] then 0 else h.next;
    forall k: nat | k < |children| ensures HoldsAs(g, children[k], kids[k], feet[k]) && children[k].table != d && d !in feet[k] {
      ChildStays(h, g, result, empties, children, kids, feet, k);
    }
    assert kids[..0] == [] && feet[..0] == [];
    assert result.table in h.tables;
    forall q: Ptr | Points(h, q) && Bystander(result, empties, children, feet, q) ensures Points(g, q) && Load(g, q) == Load(h, q) {
      assert Outside(h, empties, ts, h.next, q);
    }
    hide HoldsAs, Holds, Foot, Bystander, Outside, Gathered, Separate;
  }

  lemma ChildStays(h: Heap, g: Heap, result: Ptr, empties: seq<Ptr>, children: seq<Ptr>, kids: seq<ValueTree>, feet: seq<set<nat>>, k: nat)
    requires FreshNames(h) && Gathered(h, result, empties, NoTrees(|empties|)) && FanoutMade(h, g, result, empties, NoTrees(|empties|))
    requires HoldAll(h, children, kids, feet, 0) && Apart(result, children, feet) && ClearOf(empties, children, feet) && k < |children|
    ensures HoldsAs(g, children[k], kids[k], feet[k])
    ensures children[k].table != h.next && h.next !in feet[k] && children[k].table != 0 && 0 !in feet[k]
  {
    var ts, p, foot := NoTrees(|empties|), children[k], feet[k];
    assert HoldsAs(h, p, kids[k], foot);
    FootInHeap(h, p, kids[k]);
    hide Holds, Foot, PartHolds;
    forall q: Ptr | Points(h, q) && (q == p || q.table in foot) ensures Load(g, q) == Load(h, q) {
      assert q !in empties && q.table != h.next;
      assert Outside(h, empties, ts, h.next, q);
    }
    StillHeld(h, g, p, kids[k], foot);
  }

  /** The next child can be handed over. */
  lemma NextTransferable(h0: Heap, h: Heap, result: Ptr, d: nat, empties: seq<Ptr>, children: seq<Ptr>, kids: seq<ValueTree>,
                         feet: seq<set<nat>>, i: nat)
    requires |kids| == |feet| == |children| <= |empties| && i < |children|
    requires Apart(result, children, feet) && TableBeside(result, d, children, feet)
    requires PartlyFilled(h0, h, result, d, empties, children, kids, feet, i)
    ensures Transferable(h, result, i, children[i], kids[..i], |empties|, kids[i]) && Foot(h, children[i], kids[i]) == feet[i]
  {
    assert HoldsAs(h, children[i], kids[i], feet[i]);
    hide PartHolds, PartFoot, Holds, Foot;
    forall x | x in AllFeet(feet[..i]) ensures x !in feet[i] && x != children[i].table && x != result.table {
      FeetMember(feet[..i], x);
      var k: nat :| k < i && x in feet[..i][k];
      assert x in feet[k] && feet[k] !! feet[i];
    }
  }

  /** One transfer further. */
  lemma NextFilled(h0: Heap, h: Heap, g: Heap, result: Ptr, d: nat, empties: seq<Ptr>, children: seq<Ptr>, kids: seq<ValueTree>,
                   feet: seq<set<nat>>, i: nat)
    requires |kids| == |feet| == |children| <= |empties| && i < |children|
    requires Apart(result, children, feet) && TableBeside(result, d, children, feet)
    requires PartlyFilled(h0, h, result, d, empties, children, kids, feet, i)
    requires FreshNames(g) && Points(g, result) && Points(g, children[i]) && Load(g, children[i]) == ZERO
    requires PartHolds(g, result, kids[..i] + [kids[i]], |empties|)
    requires PartFoot(g, result, kids[..i] + [kids[i]]) == PartFoot(h, result, kids[..i]) + feet[i]
    requires Handed(h, g, result, i, children[i], feet[i])
    ensures PartlyFilled(h0, g, result, d, empties, children, kids, feet, i + 1)
  {
    assert kids[..i + 1] == kids[..i] + [kids[i]] && feet[..i + 1][..i] == feet[..i] && feet[..i + 1][i] == feet[i];
    hide PartHolds, PartFoot, Holds, Foot, FreshNames;
    forall k: nat | i < k < |children| ensures HoldsAs(g, children[k], kids[k], feet[k]) {
      WaitingKept(h0, h, g, result, d, empties, children, kids, feet, i, k);
    }
    forall k: nat | k < i ensures Points(g, children[k]) && Load(g, children[k]) == ZERO {
      assert Load(g, children[k]) == Load(h, children[k]);
    }
    forall q: Ptr | Points(h0, q) && Bystander(result, empties, children, feet, q) ensures Points(g, q) && Load(g, q) == Load(h0, q) {
      assert Points(h, q) && Load(h, q) == Load(h0, q);
      FeetMember(feet, q.table);
      assert q.table !in feet[i] && q != At(d, i) && children[i] in children;
    }
  }

  lemma WaitingKept(h0: Heap, h: Heap, g: Heap, result: Ptr, d: nat, empties: seq<Ptr>, children: seq<Ptr>, kids: seq<ValueTree>,
                    feet: seq<set<nat>>, i: nat, k: nat)
    requires |kids| == |feet| == |children| && i < k < |children|
    requires Apart(result, children, feet) && TableBeside(result, d, children, feet)
    requires PartlyFilled(h0, h, result, d, empties, children, kids, feet, i) && Handed(h, g, result, i, children[i], feet[i])
    ensures HoldsAs(g, children[k], kids[k], feet[k])
  {
    var p, foot := children[k], feet[k];
    assert HoldsAs(h, p, kids[k], foot);
    hide PartHolds, PartFoot, Holds, Foot, FreshNames, Bystander;
    assert feet[i] !! foot && children[i] != p && children[i].table !in foot && p.table !in feet[i];
    forall q: Ptr | Points(h, q) && (q == p || q.table in foot) ensures Load(g, q) == Load(h, q) {
      assert q != result && q != children[i] && q != At(d, i) && q.table !in feet[i];
    }
    StillHeld(h, g, p, kids[k], foot);
  }

  // ---------------------------------------------------------------- the whole life of a fan-out

  /** src/rewrite_c_runtime.cpp:611-628, once for every branch that has a value. */
  method TransferAll(prog: CProgram, result: Ptr, children: seq<Ptr>, ghost h0: Heap, ghost d: nat, ghost empties: seq<Ptr>,
                     ghost kids: seq<ValueTree>, ghost feet: seq<set<nat>>)
    requires |kids| == |feet| == |children| <= |empties|
    requires Apart(result, children, feet) && TableBeside(result, d, children, feet)
    requires PartlyFilled(h0, prog.heap, result, d, empties, children, kids, feet, 0)
    modifies prog`heap
    ensures PartlyFilled(h0, prog.heap, result, d, empties, children, kids, feet, |children|)
  {
    hide *;
    for i := 0 to |children|
      invariant PartlyFilled(h0, prog.heap, result, d, empties, children, kids, feet, i)
    {
      NextTransferable(h0, prog.heap, result, d, empties, children, kids, feet, i);
      PartNames(h0, prog.heap, result, d, empties, children, kids, feet, i);
      ghost var before := prog.heap;
      prog.Transfer(result, i, children[i], kids[..i], |empties|, kids[i]);
      NextFilled(h0, before, prog.heap, result, d, empties, children, kids, feet, i);
    }
  }

  lemma PartNames(h0: Heap, h: Heap, result: Ptr, d: nat, empties: seq<Ptr>, children: seq<Ptr>, kids: seq<ValueTree>,
                  feet: seq<set<nat>>, i: nat)
    requires |kids| == |feet| == |children| && i <= |children|
    requires PartlyFilled(h0, h, result, d, empties, children, kids, feet, i)
    ensures FreshNames(h) && Points(h, result) && NoNull(h) && Load(h, result).parent == Null
    ensures PartHolds(h, result, kids[..i], |empties|) && PartFoot(h, result, kids[..i]) == NewTable(d) + AllFeet(feet[..i])
    ensures i < |children| ==> Points(h, children[i])
  {
    assert i < |children| ==> HoldsAs(h, children[i], kids[i], feet[i]);
    hide PartHolds, PartFoot, Holds, Foot, Bystander;
  }

  /** A fan-out that every child was handed to is a tuple of them. */
  lemma FullFanout(h0: Heap, h: Heap, result: Ptr, d: nat, empties: seq<Ptr>, children: seq<Ptr>, kids: seq<ValueTree>, feet: seq<set<nat>>)
    requires |kids| == |feet| == |children| == |empties|
    requires PartlyFilled(h0, h, result, d, empties, children, kids, feet, |children|)
    ensures Points(h, result) && Holds(h, result, Node(TupleBranch, kids))
    ensures Foot(h, result, Node(TupleBranch, kids)) == NewTable(d) + AllFeet(feet)
  {
    PartNames(h0, h, result, d, empties, children, kids, feet, |children|);
    assert kids[..|children|] == kids && feet[..|children|] == feet;
    hide PartHolds, PartFoot, Holds, Foot, Bystander;
    FullPartHolds(h, result, kids);
  }

  /** What is left once the fan-out is gone. */
  lemma FanoutGone(h0: Heap, h: Heap, g: Heap, result: Ptr, d: nat, empties: seq<Ptr>, children: seq<Ptr>, kids: seq<ValueTree>, feet: seq<set<nat>>)
    requires |kids| == |feet| == |children|
    requires Apart(result, children, feet) && TableBeside(result, d, children, feet)
    requires PartlyFilled(h0, h, result, d, empties, children, kids, feet, |children|)
    requires result.table !in NewTable(d) + AllFeet(feet) && g == Released(h, result, NewTable(d) + AllFeet(feet))
    ensures Points(g, result) && Load(g, result) == ZERO
    ensures forall k: nat :: k < |children| ==> Points(g, children[k]) && Load(g, children[k]) == ZERO
    ensures forall q: Ptr :: Points(h0, q) && Bystander(result, empties, children, feet, q) ==> Points(g, q) && Load(g, q) == Load(h0, q)
    ensures g.blocks == h0.blocks - (NewTable(d) + AllFeet(feet))
  {
    var ids := NewTable(d) + AllFeet(feet);
    hide PartHolds, PartFoot, Holds, Foot, FreshNames, HoldAll;
    forall k: nat | k < |children| ensures Points(g, children[k]) && Load(g, children[k]) == ZERO {
      FeetMember(feet, children[k].table);
      assert children[k].table !in ids;
    }
    forall q: Ptr | Points(h0, q) && Bystander(result, empties, children, feet, q) ensures Points(g, q) && Load(g, q) == Load(h0, q) {
      assert q.table !in ids && Points(h, q);
    }
  }

  lemma ResultApart(result: Ptr, d: nat, children: seq<Ptr>, feet: seq<set<nat>>)
    requires Apart(result, children, feet) && TableBeside(result, d, children, feet)
    ensures result.table !in NewTable(d) + AllFeet(feet)
  {
    FeetMember(feet, result.table);
  }

  /**
   A fan-out that is abandoned after any number of transfers.  The loop frees the new table and everything the
   children brought, each name once; the ledger is where it was less the bytes of the children; the cells that took
   part are cleared and every other cell of the heap is as it was.
   */
  method AbandonFanout(prog: CProgram, result: Ptr, empties: seq<Ptr>, children: seq<Ptr>, hostFails: bool,
                       ghost kids: seq<ValueTree>, ghost feet: seq<set<nat>>)
    returns (why: Option<Failure>, freed: seq<nat>)
    requires prog.resources.Valid() && prog.resources.ordinal < SIZE_MAX && prog.resources.live >= KidsBytes(kids)
    requires FreshNames(prog.heap) && Gathered(prog.heap, result, empties, NoTrees(|empties|)) && Load(prog.heap, result).parent == Null
    requires |children| <= |empties| && HoldAll(prog.heap, children, kids, feet, 0)
    requires Apart(result, children, feet) && ClearOf(empties, children, feet)
    modifies prog`heap, prog.resources
    ensures why.Some? ==> prog.heap == old(prog.heap) && prog.resources.live == old(prog.resources.live) && freed == []
    ensures why == None ==>
              && prog.resources.live == old(prog.resources.live) - KidsBytes(kids)
              && Distinct(freed)
              && (forall x :: x in freed <==> x in NewTable(if empties == [] then 0 else old(prog.heap).next) + AllFeet(feet))
              && Points(prog.heap, result) && Load(prog.heap, result) == ZERO
              && (forall k: nat :: k < |children| ==> Points(prog.heap, children[k]) && Load(prog.heap, children[k]) == ZERO)
              && (forall q: Ptr :: Points(old(prog.heap), q) && Bystander(result, empties, children, feet, q) ==>
                    Points(prog.heap, q) && Load(prog.heap, q) == Load(old(prog.heap), q))
  {
    hide *;
    ghost var h0, d := prog.heap, if empties == [] then 0 else prog.heap.next;
    SameLengths(h0, children, kids, feet);
    freed := [];
    why := prog.Fanout(result, empties, NoTrees(|empties|), hostFails);
    if why.Some? {
      return;
    }
    FanoutStarts(h0, prog.heap, result, empties, children, kids, feet);
    TransferAll(prog, result, children, h0, d, empties, kids, feet);
    ghost var h := prog.heap;
    PartNames(h0, h, result, d, empties, children, kids, feet, |children|);
    ResultApart(result, d, children, feet);
    assert kids[..|children|] == kids && feet[..|children|] == feet;
    freed := ReleaseFanout(prog, result, kids, |empties|);
    FanoutGone(h0, h, prog.heap, result, d, empties, children, kids, feet);
  }

  lemma SameLengths(h: Heap, children: seq<Ptr>, kids: seq<ValueTree>, feet: seq<set<nat>>)
    requires HoldAll(h, children, kids, feet, 0)
    ensures |kids| == |feet| == |children|
  {
  }
}
