/**
 src/resources.cpp:84-259: the registry of evaluation states, by token, with reference counts.

 A state is found by its token, is counted by its context, by pins and by allocation bindings, and is destroyed
 by whoever takes the last reference away.
 */
module Registry {
  import opened Kinds
  import opened Resources

  const MAX_TOKEN: nat := 0xFFFF_FFFF_FFFF_FFFF

  /** `base` is the live count the state was created with; the last fields are what a transaction works on. */
  datatype State = State(refs: nat, active: bool, locked: bool, base: nat, limits: Limits, failAt: Option<nat>, record: Record)

  datatype Record = Record(live: nat, work: nat, ordinal: nat)

  type States = map<nat, State>

  predicate Found(states: States, token: nat) {
    token != 0 && token in states
  }

  function Raised(states: States, token: nat): States
    requires token in states
  {
    states[token := states[token].(refs := states[token].refs + 1)]
  }

  /** The last reference takes the state along. */
  function Dropped(states: States, token: nat): States
    requires token in states && states[token].refs > 0
  {
    if states[token].refs == 1 then states - {token} else states[token := states[token].(refs := states[token].refs - 1)]
  }

  function Refs(states: States, token: nat): nat {
    if token in states then states[token].refs else 0
  }

  /** Dropping takes one reference off one state, and removes it exactly when none is left. */
  lemma DroppedRefs(states: States, token: nat, other: nat)
    requires token in states && states[token].refs > 0
    ensures Refs(Dropped(states, token), other) == Refs(states, other) - (if other == token then 1 else 0)
    ensures other in Dropped(states, token) <==> other in states && (other != token || states[token].refs > 1)
    ensures other in Dropped(states, token) ==> Dropped(states, token)[other] == states[other].(refs := Refs(Dropped(states, token), other))
  {
  }

  /** src/resources.cpp:198-208: zero is never issued, and after the largest token nothing is. */
  function NextToken(token: nat): nat {
    if token == 0 || token >= MAX_TOKEN then 0 else token + 1
  }

  class ResourceRegistry {
    var states: States
    var nextToken: nat

    constructor ()
      ensures states == map[] && nextToken == 1
    {
      states, nextToken := map[], 1;
    }

    ghost predicate Valid()
      reads this
    {
      0 !in states && nextToken <= MAX_TOKEN && forall t :: t in states ==> states[t].refs > 0 && (nextToken == 0 || t < nextToken)
    }

    /** src/resources.cpp:385-440: register a new state; token 0 reports that the tokens are used up. */
    method Issue(base: nat, limits: Limits, failAt: Option<nat>) returns (token: nat)
      requires Valid()
      modifies this
      ensures Valid()
      ensures token == old(nextToken) && nextToken == NextToken(token)
      ensures states == if token == 0 then old(states) else old(states)[token := State(1, true, false, base, limits, failAt, Record(base, 0, 0))]
      ensures token !in old(states)
    {
      token := nextToken;
      nextToken := if token == 0 || token == MAX_TOKEN then 0 else token + 1;
      if token != 0 {
        states := states[token := State(1, true, false, base, limits, failAt, Record(base, 0, 0))];
      }
    }

    /** src/resources.cpp:117-139: pin the state of a live context, or of any owner. */
    method Acquire(token: nat, contextNeeded: bool) returns (found: bool)
      requires Valid()
      modifies this
      ensures Valid() && nextToken == old(nextToken)
      ensures found <==> Found(old(states), token) && (contextNeeded ==> old(states)[token].active)
      ensures states == if found then Raised(old(states), token) else old(states)
    {
      if token == 0 || token !in states || (contextNeeded && !states[token].active) {
        return false;
      }
      states := states[token := states[token].(refs := states[token].refs + 1)];
      return true;
    }

    /** src/resources.cpp:1006-1020: give a live context up; its reference stays with the caller. */
    method Deactivate(token: nat) returns (given: bool)
      requires Valid()
      modifies this
      ensures Valid() && nextToken == old(nextToken)
      ensures given <==> Found(old(states), token) && old(states)[token].active
      ensures states == if given then old(states)[token := old(states)[token].(active := false)] else old(states)
    {
      if token == 0 || token !in states || !states[token].active {
        return false;
      }
      states := states[token := states[token].(active := false)];
      return true;
    }

    /** src/resources.cpp:141-158 and 221-234: give one reference back; an unknown owner is ignored. */
    method Release(token: nat)
      requires Valid()
      modifies this
      ensures Valid() && nextToken == old(nextToken)
      ensures states == if Found(old(states), token) then Dropped(old(states), token) else old(states)
    {
      if token == 0 || token !in states {
        return;
      }
      var refs := states[token].refs - 1;
      if refs == 0 {
        states := states - {token};
      } else {
        states := states[token := states[token].(refs := refs)];
      }
    }
  }
}
