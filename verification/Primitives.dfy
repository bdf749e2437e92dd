/** src/primitive.cpp:131-659: primitive tables, their validation and the selection of a signature. */
module Primitives {
  import opened Kinds
  import opened ValueArenas

  datatype PrimitiveId =
    | Inc | Add | Equals | LogicalNot | Iota | LogicalAnd | LogicalOr | NotEquals | Odd | Even
    | IsPositive | IsNegative | LessThan | GreaterThan | Dec | Neg | Abs | Sub | Mul

  datatype Implementation =
    | NoImplementation | IncInt | IncDouble | AddInt | AddDouble | EqualsBool | EqualsInt | EqualsDouble
    | NotBool | IotaInt | AndBool | OrBool | NotEqualsBool | NotEqualsInt | NotEqualsDouble | OddInt | EvenInt
    | IsPositiveInt | IsPositiveDouble | IsNegativeInt | IsNegativeDouble | LessThanInt | LessThanDouble
    | GreaterThanInt | GreaterThanDouble | DecInt | DecDouble | NegInt | NegDouble | AbsInt | AbsDouble
    | SubInt | SubDouble | MulInt | MulDouble

  datatype ValueType = ValueType(container: Container, element: ScalarType)

  datatype Signature = Signature(parameters: seq<ValueType>, result: ValueType, implementation: Implementation)

  datatype Descriptor = Descriptor(id: PrimitiveId, name: string, elementwise: bool, signatures: seq<Signature>)

  // ---------------------------------------------------------------- implementations

  function IdOf(i: Implementation): Option<PrimitiveId> {
    match i
    case NoImplementation => None
    case IncInt | IncDouble => Some(Inc)
    case AddInt | AddDouble => Some(Add)
    case EqualsBool | EqualsInt | EqualsDouble => Some(Equals)
    case NotBool => Some(LogicalNot)
    case IotaInt => Some(Iota)
    case AndBool => Some(LogicalAnd)
    case OrBool => Some(LogicalOr)
    case NotEqualsBool | NotEqualsInt | NotEqualsDouble => Some(NotEquals)
    case OddInt => Some(Odd)
    case EvenInt => Some(Even)
    case IsPositiveInt | IsPositiveDouble => Some(IsPositive)
    case IsNegativeInt | IsNegativeDouble => Some(IsNegative)
    case LessThanInt | LessThanDouble => Some(LessThan)
    case GreaterThanInt | GreaterThanDouble => Some(GreaterThan)
    case DecInt | DecDouble => Some(Dec)
    case NegInt | NegDouble => Some(Neg)
    case AbsInt | AbsDouble => Some(Abs)
    case SubInt | SubDouble => Some(Sub)
    case MulInt | MulDouble => Some(Mul)
  }

  /** All parameters of an implementation have the same type. */
  function ParameterOf(i: Implementation): ScalarType {
    match i
    case EqualsBool | NotBool | AndBool | OrBool | NotEqualsBool => Boolean
    case IncDouble | AddDouble | EqualsDouble | NotEqualsDouble | IsPositiveDouble | IsNegativeDouble | LessThanDouble
      | GreaterThanDouble | DecDouble | NegDouble | AbsDouble | SubDouble | MulDouble => DoublePrecision
    case _ => Integer
  }

  function ArityOf(i: Implementation): nat {
    match i
    case IncInt | IncDouble | NotBool | IotaInt | OddInt | EvenInt | IsPositiveInt | IsPositiveDouble | IsNegativeInt
      | IsNegativeDouble | DecInt | DecDouble | NegInt | NegDouble | AbsInt | AbsDouble => 1
    case _ => 2
  }

  function ResultOf(i: Implementation): ScalarType {
    match i
    case EqualsBool | EqualsInt | EqualsDouble | NotBool | AndBool | OrBool | NotEqualsBool | NotEqualsInt | NotEqualsDouble
      | OddInt | EvenInt | IsPositiveInt | IsPositiveDouble | IsNegativeInt | IsNegativeDouble | LessThanInt | LessThanDouble
      | GreaterThanInt | GreaterThanDouble => Boolean
    case IncDouble | AddDouble | DecDouble | NegDouble | AbsDouble | SubDouble | MulDouble => DoublePrecision
    case _ => Integer
  }

  /** src/primitive.cpp:226-372. */
  predicate ImplementationMatches(id: PrimitiveId, s: Signature) {
    && IdOf(s.implementation) == Some(id)
    && |s.parameters| == ArityOf(s.implementation)
    && (forall k :: 0 <= k < |s.parameters| ==> s.parameters[k] == ValueType(ScalarC, ParameterOf(s.implementation)))
    && s.result == ValueType(if s.implementation == IotaInt then VectorC else ScalarC, ResultOf(s.implementation))
  }

  // ---------------------------------------------------------------- conversion costs

  /** src/primitive.cpp:393-406: only integers are promoted, to doubles, at cost one. */
  function ConversionCost(actual: ScalarType, parameter: ScalarType): Option<nat> {
    if actual == parameter then Some(0) else if actual == Integer && parameter == DoublePrecision then Some(1) else None
  }

  predicate Accepts(s: Signature, actual: seq<ScalarType>) {
    |s.parameters| == |actual| && forall k :: 0 <= k < |actual| ==> ConversionCost(actual[k], s.parameters[k].element).Some?
  }

  function CostUpTo(s: Signature, actual: seq<ScalarType>, n: nat): nat
    requires Accepts(s, actual) && n <= |actual|
  {
    if n == 0 then 0 else CostUpTo(s, actual, n - 1) + ConversionCost(actual[n - 1], s.parameters[n - 1].element).value
  }

  function Cost(s: Signature, actual: seq<ScalarType>): nat
    requires Accepts(s, actual)
  {
    CostUpTo(s, actual, |actual|)
  }

  /** src/primitive.cpp:416-431, 615-632: the cost of one signature, if it accepts the arguments. */
  method SignatureCost(s: Signature, actual: seq<ScalarType>) returns (cost: Option<nat>)
    requires |s.parameters| == |actual|
    ensures cost == if Accepts(s, actual) then Some(Cost(s, actual)) else None
  {
    var total := 0;
    for k := 0 to |actual|
      invariant forall j :: 0 <= j < k ==> ConversionCost(actual[j], s.parameters[j].element).Some?
      invariant Accepts(s, actual) ==> total == CostUpTo(s, actual, k)
    {
      var one := ConversionCost(actual[k], s.parameters[k].element);
      if one == None {
        return None;
      }
      total := total + one.value;
    }
    cost := Some(total);
  }

  ghost predicate AcceptsAt(sigs: seq<Signature>, actual: seq<ScalarType>, i: nat) {
    i < |sigs| && Accepts(sigs[i], actual)
  }

  /** Signature `i` accepts at no more than any other that accepts. */
  ghost predicate LeastAt(sigs: seq<Signature>, actual: seq<ScalarType>, i: nat) {
    AcceptsAt(sigs, actual, i) && forall j: nat :: AcceptsAt(sigs, actual, j) ==> Cost(sigs[i], actual) <= Cost(sigs[j], actual)
  }

  ghost predicate UniqueLeast(sigs: seq<Signature>, actual: seq<ScalarType>, i: nat) {
    LeastAt(sigs, actual, i) && forall j: nat :: LeastAt(sigs, actual, j) ==> j == i
  }

  /** Two signatures accept at the same least cost. */
  ghost predicate AmbiguousFor(sigs: seq<Signature>, actual: seq<ScalarType>) {
    exists i: nat, j: nat :: i < j && LeastAt(sigs, actual, i) && LeastAt(sigs, actual, j)
  }

  /** The positions at which an integer stands for a double. */
  ghost function Promotions(s: Signature, actual: seq<ScalarType>, n: nat): set<nat>
    requires |s.parameters| == |actual| && n <= |actual|
  {
    set k: nat | k < n && actual[k] == Integer && s.parameters[k].element == DoublePrecision
  }

  /** The cost of a signature counts the integers it promotes, and it accepts nothing else but its own types. */
  lemma {:induction false} CostCounts(s: Signature, actual: seq<ScalarType>, n: nat)
    requires |s.parameters| == |actual| && n <= |actual|
    ensures Accepts(s, actual) <==>
              forall k: nat :: k < |actual| ==>
                actual[k] == s.parameters[k].element || (actual[k] == Integer && s.parameters[k].element == DoublePrecision)
    ensures Accepts(s, actual) ==> CostUpTo(s, actual, n) == |Promotions(s, actual, n)|
  {
    if Accepts(s, actual) && n > 0 {
      CostCounts(s, actual, n - 1);
      var before := Promotions(s, actual, n - 1);
      if actual[n - 1] == Integer && s.parameters[n - 1].element == DoublePrecision {
        assert Promotions(s, actual, n) == before + {n - 1};
      } else {
        assert Promotions(s, actual, n) == before;
      }
    }
  }

  predicate TakesExactly(s: Signature, actual: seq<ScalarType>) {
    |s.parameters| == |actual| && forall k: nat :: k < |actual| ==> s.parameters[k].element == actual[k]
  }

  /** A signature of exactly the argument types costs nothing and beats every signature that promotes one. */
  lemma ExactWins(sigs: seq<Signature>, actual: seq<ScalarType>, i: nat)
    requires i < |sigs| && TakesExactly(sigs[i], actual)
    ensures LeastAt(sigs, actual, i) && Cost(sigs[i], actual) == 0
    ensures forall j: nat :: LeastAt(sigs, actual, j) ==> TakesExactly(sigs[j], actual)
  {
    CostCounts(sigs[i], actual, |actual|);
    assert Promotions(sigs[i], actual, |actual|) == {};
    forall j: nat | LeastAt(sigs, actual, j) ensures TakesExactly(sigs[j], actual) {
      assert AcceptsAt(sigs, actual, j) && AcceptsAt(sigs, actual, i);
      CostCounts(sigs[j], actual, |actual|);
      forall k: nat | k < |actual| ensures sigs[j].parameters[k].element == actual[k] {
        assert k !in Promotions(sigs[j], actual, |actual|);
      }
    }
  }

  // ---------------------------------------------------------------- selection

  datatype Selection = Selected(index: nat, cost: nat) | ArityMismatch | TypeMismatch | Ambiguous

  /** The running minimum over the first signatures: its place, its cost and whether it was met again. */
  datatype Best = NoneYet | Best(index: nat, cost: nat, count: nat)

  ghost predicate BestOf(sigs: seq<Signature>, actual: seq<ScalarType>, n: nat, b: Best)
    requires n <= |sigs|
  {
    match b
    case NoneYet => forall j: nat :: j < n ==> !AcceptsAt(sigs, actual, j)
    case Best(i, c, count) =>
      && i < n && AcceptsAt(sigs, actual, i) && Cost(sigs[i], actual) == c && count > 0
      && (forall j: nat :: j < n && AcceptsAt(sigs, actual, j) ==> c <= Cost(sigs[j], actual))
      && (count > 1 <==> exists j: nat :: j < n && j != i && AcceptsAt(sigs, actual, j) && Cost(sigs[j], actual) == c)
  }

  function Improve(b: Best, i: nat, cost: nat): Best {
    if b == NoneYet || cost < b.cost then Best(i, cost, 1) else if cost == b.cost then b.(count := b.count + 1) else b
  }

  lemma ImproveBest(sigs: seq<Signature>, actual: seq<ScalarType>, n: nat, b: Best)
    requires n < |sigs| && BestOf(sigs, actual, n, b)
    ensures BestOf(sigs, actual, n + 1, if Accepts(sigs[n], actual) then Improve(b, n, Cost(sigs[n], actual)) else b)
  {
    hide Cost, Accepts;
    if b.Best? && Accepts(sigs[n], actual) && Cost(sigs[n], actual) == b.cost {
      assert AcceptsAt(sigs, actual, n);
    }
  }

  lemma BestMeans(sigs: seq<Signature>, actual: seq<ScalarType>, b: Best)
    requires BestOf(sigs, actual, |sigs|, b)
    ensures b == NoneYet ==> !AmbiguousFor(sigs, actual) && forall j: nat :: !AcceptsAt(sigs, actual, j)
    ensures b.Best? ==>
              && LeastAt(sigs, actual, b.index) && (b.count > 1 <==> AmbiguousFor(sigs, actual))
              && (b.count == 1 ==> UniqueLeast(sigs, actual, b.index))
  {
    hide Cost, Accepts;
    if b.Best? && b.count > 1 {
      var j: nat :| j < |sigs| && j != b.index && AcceptsAt(sigs, actual, j) && Cost(sigs[j], actual) == b.cost;
      assert LeastAt(sigs, actual, j) && LeastAt(sigs, actual, b.index);
    }
    if b.Best? && b.count == 1 {
      forall j: nat | LeastAt(sigs, actual, j) ensures j == b.index {
        assert AcceptsAt(sigs, actual, j) && Cost(sigs[j], actual) == b.cost;
      }
    }
  }

  ghost predicate ArityExists(sigs: seq<Signature>, arity: nat) {
    exists i: nat :: i < |sigs| && |sigs[i].parameters| == arity
  }

  /** src/primitive.cpp:604-659: success names the unique cheapest accepting signature. */
  method SelectSignature(d: Descriptor, actual: seq<ScalarType>) returns (r: Selection)
    ensures r == ArityMismatch <==> !ArityExists(d.signatures, |actual|)
    ensures r == TypeMismatch <==> ArityExists(d.signatures, |actual|) && forall i: nat :: !AcceptsAt(d.signatures, actual, i)
    ensures r == Ambiguous <==> AmbiguousFor(d.signatures, actual)
    ensures r.Selected? ==> UniqueLeast(d.signatures, actual, r.index) && Cost(d.signatures[r.index], actual) == r.cost
  {
    hide Cost, Accepts;
    var sigs := d.signatures;
    var arityExists, b := false, NoneYet;
    for i := 0 to |sigs|
      invariant arityExists <==> exists j: nat :: j < i && |sigs[j].parameters| == |actual|
      invariant BestOf(sigs, actual, i, b)
    {
      ImproveBest(sigs, actual, i, b);
      if |sigs[i].parameters| != |actual| {
        WrongArity(sigs[i], actual);
        continue;
      }
      arityExists := true;
      var cost := SignatureCost(sigs[i], actual);
      if cost.Some? {
        b := Improve(b, i, cost.value);
      }
    }
    BestMeans(sigs, actual, b);
    if !arityExists {
      NoArity(sigs, actual);
      return ArityMismatch;
    }
    if b == NoneYet {
      return TypeMismatch;
    }
    if b.count > 1 {
      return Ambiguous;
    }
    return Selected(b.index, b.cost);
  }

  lemma WrongArity(s: Signature, actual: seq<ScalarType>)
    requires |s.parameters| != |actual|
    ensures !Accepts(s, actual)
  {
  }

  lemma NoArity(sigs: seq<Signature>, actual: seq<ScalarType>)
    requires !ArityExists(sigs, |actual|)
    ensures (forall i: nat :: !AcceptsAt(sigs, actual, i)) && !AmbiguousFor(sigs, actual)
  {
    forall i: nat ensures !AcceptsAt(sigs, actual, i) {
      if i < |sigs| { WrongArity(sigs[i], actual); }
    }
  }

  // ---------------------------------------------------------------- ambiguity of a descriptor

  ghost predicate KnownTypes(actual: seq<ScalarType>) {
    forall k :: 0 <= k < |actual| ==> ValidScalarType(actual[k])
  }

  /** Some completion of the assignment by known types is ambiguous. */
  ghost predicate AmbiguousBeyond(sigs: seq<Signature>, arity: nat, given: seq<ScalarType>) {
    exists actual: seq<ScalarType> :: |actual| == arity && given <= actual && KnownTypes(actual) && AmbiguousFor(sigs, actual)
  }

  /** src/primitive.cpp:408-447. */
  method AssignmentIsAmbiguous(d: Descriptor, given: seq<ScalarType>) returns (ambiguous: bool)
    ensures ambiguous <==> AmbiguousFor(d.signatures, given)
  {
    hide Cost, Accepts, AmbiguousFor;
    var sigs, b := d.signatures, NoneYet;
    for i := 0 to |sigs|
      invariant BestOf(sigs, given, i, b)
    {
      ImproveBest(sigs, given, i, b);
      if |sigs[i].parameters| != |given| {
        WrongArity(sigs[i], given);
        continue;
      }
      var cost := SignatureCost(sigs[i], given);
      if cost.Some? {
        b := Improve(b, i, cost.value);
      }
    }
    BestMeans(sigs, given, b);
    ambiguous := b.Best? && b.count > 1;
  }

  /** src/primitive.cpp:449-467: try every type in every remaining position. */
  method HasAmbiguousAssignment(d: Descriptor, arity: nat, given: seq<ScalarType>) returns (ambiguous: bool)
    requires |given| <= arity && KnownTypes(given)
    ensures ambiguous <==> AmbiguousBeyond(d.signatures, arity, given)
    decreases arity - |given|
  {
    hide AmbiguousFor;
    if |given| == arity {
      ambiguous := AssignmentIsAmbiguous(d, given);
      CompleteAssignment(d.signatures, arity, given);
      return;
    }
    var types := [Boolean, Integer, DoublePrecision];
    for k := 0 to |types|
      invariant forall j :: 0 <= j < k ==> !AmbiguousBeyond(d.signatures, arity, given + [types[j]])
    {
      ambiguous := HasAmbiguousAssignment(d, arity, given + [types[k]]);
      if ambiguous {
        LongerAssignment(d.signatures, arity, given, types[k]);
        return;
      }
    }
    assert types[0] == Boolean && types[1] == Integer && types[2] == DoublePrecision;
    NoLonger(d.signatures, arity, given);
    ambiguous := false;
  }

  lemma CompleteAssignment(sigs: seq<Signature>, arity: nat, given: seq<ScalarType>)
    requires |given| == arity && KnownTypes(given)
    ensures AmbiguousBeyond(sigs, arity, given) <==> AmbiguousFor(sigs, given)
  {
    hide AmbiguousFor;
    forall actual: seq<ScalarType> | |actual| == arity && given <= actual ensures actual == given {}
  }

  lemma LongerAssignment(sigs: seq<Signature>, arity: nat, given: seq<ScalarType>, t: ScalarType)
    requires AmbiguousBeyond(sigs, arity, given + [t])
    ensures AmbiguousBeyond(sigs, arity, given)
  {
    hide AmbiguousFor;
    var actual: seq<ScalarType> :| |actual| == arity && given + [t] <= actual && KnownTypes(actual) && AmbiguousFor(sigs, actual);
    assert given <= actual;
  }

  lemma NoLonger(sigs: seq<Signature>, arity: nat, given: seq<ScalarType>)
    requires |given| < arity
    requires forall t: ScalarType :: ValidScalarType(t) ==> !AmbiguousBeyond(sigs, arity, given + [t])
    ensures !AmbiguousBeyond(sigs, arity, given)
  {
    hide AmbiguousFor;
    forall actual: seq<ScalarType> | |actual| == arity && given <= actual && KnownTypes(actual)
      ensures !AmbiguousFor(sigs, actual)
    {
      assert given + [actual[|given|]] <= actual && !AmbiguousBeyond(sigs, arity, given + [actual[|given|]]);
    }
  }

  // ---------------------------------------------------------------- tables

  datatype TableError =
    | EmptyTable | DuplicateId | DuplicateName | ReservedName | MissingSignature | DuplicateSignature | ZeroArity
    | MissingImplementation | NonScalarSignature | EqualCostAmbiguity

  /** src/primitive.cpp:212-224: the result type and the parameter types, not the implementation. */
  predicate SameSignature(a: Signature, b: Signature) {
    a.parameters == b.parameters && a.result == b.result
  }

  predicate ScalarSignature(s: Signature) {
    s.result.container == ScalarC && forall k :: 0 <= k < |s.parameters| ==> s.parameters[k].container == ScalarC
  }

  predicate SignatureOk(d: Descriptor, i: nat)
    requires i < |d.signatures|
  {
    && (forall j :: 0 <= j < i ==> !SameSignature(d.signatures[j], d.signatures[i]))
    && d.signatures[i].parameters != []
    && (d.elementwise ==> ScalarSignature(d.signatures[i]))
  }

  /** No list of known argument types is equally well accepted twice. */
  ghost predicate Unambiguous(d: Descriptor) {
    forall actual: seq<ScalarType> :: KnownTypes(actual) ==> !AmbiguousFor(d.signatures, actual)
  }

  ghost predicate DescriptorOk(d: Descriptor) {
    && d.name != "parameters"
    && d.signatures != []
    && (forall i: nat :: i < |d.signatures| ==> SignatureOk(d, i) && ImplementationMatches(d.id, d.signatures[i]))
    && (d.elementwise ==> Unambiguous(d))
  }

  ghost predicate ValidTable(table: seq<Descriptor>) {
    && table != []
    && (forall k: nat :: k < |table| ==> DescriptorOk(table[k]))
    && (forall j: nat, k: nat :: j < k < |table| ==> table[j].id != table[k].id && table[j].name != table[k].name)
  }

  /** What an error says about the signature it was found at. */
  ghost predicate SignatureFault(d: Descriptor, i: nat, e: TableError)
    requires i < |d.signatures|
  {
    match e
    case DuplicateSignature => exists j: nat :: j < i && SameSignature(d.signatures[j], d.signatures[i])
    case ZeroArity => d.signatures[i].parameters == []
    case NonScalarSignature => d.elementwise && !ScalarSignature(d.signatures[i])
    case _ => false
  }

  /** What an error says about a descriptor. */
  ghost predicate DescriptorFault(d: Descriptor, e: TableError) {
    match e
    case ReservedName => d.name == "parameters"
    case MissingSignature => d.signatures == []
    case EqualCostAmbiguity => d.elementwise && !Unambiguous(d)
    case MissingImplementation => exists i: nat :: i < |d.signatures| && !ImplementationMatches(d.id, d.signatures[i])
    case _ => exists i: nat :: i < |d.signatures| && SignatureFault(d, i, e)
  }

  /** What an error says about a table: every error names a fault that is there. */
  ghost predicate TableFault(table: seq<Descriptor>, e: TableError) {
    match e
    case EmptyTable => table == []
    case DuplicateId => exists j: nat, k: nat :: j < k < |table| && table[j].id == table[k].id
    case DuplicateName => exists j: nat, k: nat :: j < k < |table| && table[j].name == table[k].name
    case _ => exists k: nat :: k < |table| && DescriptorFault(table[k], e)
  }

  method CheckSignature(d: Descriptor, i: nat) returns (e: Option<TableError>)
    requires i < |d.signatures|
    ensures e == None <==> SignatureOk(d, i)
    ensures e.Some? ==> SignatureFault(d, i, e.value)
  {
    var s := d.signatures[i];
    for j := 0 to i
      invariant forall k :: 0 <= k < j ==> !SameSignature(d.signatures[k], s)
    {
      if SameSignature(d.signatures[j], s) {
        return Some(DuplicateSignature);
      }
    }
    if s.parameters == [] {
      return Some(ZeroArity);
    }
    if d.elementwise {
      if s.result.container != ScalarC {
        return Some(NonScalarSignature);
      }
      for k := 0 to |s.parameters|
        invariant forall j :: 0 <= j < k ==> s.parameters[j].container == ScalarC
      {
        if s.parameters[k].container != ScalarC {
          return Some(NonScalarSignature);
        }
      }
    }
    e := None;
  }

  /** src/primitive.cpp:553-577: every arity is tried once, when it first occurs. */
  method CheckAmbiguity(d: Descriptor) returns (ok: bool)
    ensures ok <==> Unambiguous(d)
  {
    hide AmbiguousFor;
    for i := 0 to |d.signatures|
      invariant forall j: nat :: j < i ==> !AmbiguousBeyond(d.signatures, |d.signatures[j].parameters|, [])
    {
      var arity, checked := |d.signatures[i].parameters|, false;
      for j := 0 to i
        invariant checked ==> !AmbiguousBeyond(d.signatures, arity, [])
      {
        if |d.signatures[j].parameters| == arity {
          checked := true;
          break;
        }
      }
      if !checked {
        var ambiguous := HasAmbiguousAssignment(d, arity, []);
        if ambiguous {
          return false;
        }
      }
    }
    ArityByArity(d);
    ok := true;
  }

  lemma ArityByArity(d: Descriptor)
    requires forall j: nat :: j < |d.signatures| ==> !AmbiguousBeyond(d.signatures, |d.signatures[j].parameters|, [])
    ensures Unambiguous(d)
  {
    forall actual: seq<ScalarType> | KnownTypes(actual) ensures !AmbiguousFor(d.signatures, actual) {
      if i: nat :| i < |d.signatures| && |d.signatures[i].parameters| == |actual| {
        assert !AmbiguousBeyond(d.signatures, |actual|, []) && [] <= actual;
      } else {
        assert forall i: nat :: !AcceptsAt(d.signatures, actual, i);
      }
    }
  }

  /** src/primitive.cpp:512-596, for one descriptor. */
  method CheckDescriptor(d: Descriptor) returns (e: Option<TableError>)
    ensures e == None <==> DescriptorOk(d)
    ensures e.Some? ==> DescriptorFault(d, e.value)
  {
    hide Unambiguous, SignatureOk, ImplementationMatches;
    if d.name == "parameters" {
      return Some(ReservedName);
    }
    if d.signatures == [] {
      return Some(MissingSignature);
    }
    for i := 0 to |d.signatures|
      invariant forall j: nat :: j < i ==> SignatureOk(d, j)
    {
      e := CheckSignature(d, i);
      if e.Some? {
        return;
      }
    }
    if d.elementwise {
      var ok := CheckAmbiguity(d);
      if !ok {
        return Some(EqualCostAmbiguity);
      }
    }
    for i := 0 to |d.signatures|
      invariant forall j: nat :: j < i ==> ImplementationMatches(d.id, d.signatures[j])
    {
      if !ImplementationMatches(d.id, d.signatures[i]) {
        return Some(MissingImplementation);
      }
    }
    e := None;
  }

  /** src/primitive.cpp:501-596. */
  method ValidateTable(table: seq<Descriptor>) returns (e: Option<TableError>)
    ensures e == None <==> ValidTable(table)
    ensures e.Some? ==> TableFault(table, e.value)
  {
    hide DescriptorOk;
    if table == [] {
      return Some(EmptyTable);
    }
    for k := 0 to |table|
      invariant forall j: nat :: j < k ==> DescriptorOk(table[j])
      invariant forall i: nat, j: nat :: i < j < k ==> table[i].id != table[j].id && table[i].name != table[j].name
    {
      if table[k].name == "parameters" {
        ReservedIsBad(table[k]);
        return Some(ReservedName);
      }
      for j := 0 to k
        invariant forall i: nat :: i < j ==> table[i].id != table[k].id && table[i].name != table[k].name
      {
        if table[j].id == table[k].id {
          return Some(DuplicateId);
        }
        if table[j].name == table[k].name {
          return Some(DuplicateName);
        }
      }
      e := CheckDescriptor(table[k]);
      if e.Some? {
        return;
      }
    }
    e := None;
  }

  lemma ReservedIsBad(d: Descriptor)
    requires d.name == "parameters"
    ensures !DescriptorOk(d)
  {
  }

  /**
   In a valid table the selection of an elementwise primitive is never ambiguous, for any argument types at all:
   either some signature is the unique cheapest one, or the arity or the types do not fit.
   */
  lemma SelectionUnambiguous(table: seq<Descriptor>, k: nat, actual: seq<ScalarType>)
    requires ValidTable(table) && k < |table| && table[k].elementwise
    ensures !AmbiguousFor(table[k].signatures, actual)
  {
    var d := table[k];
    assert DescriptorOk(d);
    if k: nat :| k < |actual| && !ValidScalarType(actual[k]) {
      forall i: nat ensures !AcceptsAt(d.signatures, actual, i) {
        assert i < |d.signatures| ==> ImplementationMatches(d.id, d.signatures[i]);
      }
    } else {
      assert KnownTypes(actual);
    }
  }
}
