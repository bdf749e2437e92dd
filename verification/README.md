# Bennu: a verified model of its values, ledger, primitives and C runtime

Bennu evaluates a small array language and also emits it as C.  This project models the data structures and the
accounting beneath both, and proves that they do what the code is there for.  There are four connected parts.

- **Flat arenas.** Types and tuple values are trees kept in node and edge tables, every child before its parent.
  `Arena` gives a table its meaning, a tree; validators, constructors, equality, printing, erasure and the
  parent-link walks are loops over indexes and are proved against that tree (`Arena*`, `Type*`, `Value*`).
- **The ledger.** Live bytes, work, reservation ordinals, allocation bindings and the registry of contexts:
  once as classes with their methods (`Resources`, `Registry`, `HostStorage`), once as a system of any number of threads
  whose events are the critical sections (`ResourceRuns`, `ResourceRunLaws`, `ResourceProgress`), and the refinement of one by
  the other (`LedgerRefinement`).  `Preadmit*`, `LayoutLaws` and `PublishTables` are the assembly of a tuple whose tables exist
  before its elements.
- **Primitives.** Table validation and overload selection, checked integer arithmetic, integers rounded to binary64 and
  binary64 order by bit patterns, and the lifting of a scalar kernel over vectors (`Primitives`, `Kernels`, `KernelLaws`,
  `IntRounding`, `Binary64`, `Lifting`, `PointwiseLaws`, `Application`).
- **The emitted C.** A second implementation of the ledger, the kernels and application, and of tuples as heap tables with
  parent pointers (`CApply`, `CHeap`, `CTuples`, `CRelease`, `CFanout`, `CPrint`); `ApplyAgreement` and `PrintAgreement` compare it with the evaluator.

`size_t` is a natural number bounded by `SIZE_MAX`.  A buffer's address is its place in the buffer table and is never
reused; the host allocator's refusals are inputs (`hostFails`, `metadataFails`).  A binary64 is its bit pattern, and
the hardware's addition, subtraction and multiplication are one function parameter that both implementations share.
A loop that the source runs over an explicit stack, or in place over a table, is a loop here as well; its contract is a
function of the input, and the lemmas are about that function.

Check everything with `dafny verify dfyconfig.toml`.

## Findings

- **A published tuple need not be valid.**  `publish_preadmitted_tuple` writes the payload cursor into scalar slots
  (src/resources.cpp:2560-2570) where `make_tuple_value` writes zero (src/resources.cpp:1990-2003), and `validate_value`
  refuses anything but zero there (src/value.cpp:751-755).  `PublishTables.PublishedMeaning` gives the exact condition: the
  published value always denotes the right tree, and it is valid if and only if no slot that owns a vector payload comes before a
  scalar slot.  `PublishTables.PublishedInvalidExample` is an input that fails: a one-element vector, then a scalar.
- **`structural_type_equal`, `make_tuple_type` and `format_type` refuse one kind of well-formed type**, a table of exactly
  `SIZE_MAX` edges, because the validator's stack of `edges + 1` entries would not have a size (src/type.cpp:292-295).  The predicate
  `TypeArenas.Accepted` says so, and the contracts are equivalences with it.

## Model

| member | source | states |
|---|---|---|
| TypeArenas.ValidateType | src/type.cpp:274-419 | accepts exactly the arenas that encode one type, tree shape and inactive fields included, with a table size that leaves room for the stack; a reported violation is a real one at the reported place; the stack never overflows and the already-visited test never fires |
| TypeTuple.MakeTupleType | src/type.cpp:179-267 | builds exactly when every element is accepted and the sizes fit; the result is valid, denotes the tuple of the element types and fills the precomputed capacities exactly; no push fails |
| TypeEquality.StructuralTypeEqual | src/type.cpp:428-496 | decides exactly for accepted operands, and then answers equality of the denoted trees; the stack of `min` entries never overflows |
| TypeEquality.PairsFit | src/type.cpp:444-495 | stacked pairs name distinct nodes on both sides, so together with the nodes already compared they fit either node table |
| TypeFormat.FormatType | src/type.cpp:503-643 | formats exactly the accepted types whose capacities fit; the text is the recursive printed form; text and stack capacities are never exceeded |
| TypePrinter.PrintInjective | src/type.cpp:498-643 | two valid types print the same text if and only if they denote the same tree |
| TypePrinter.PrintShapes | src/type.cpp:498-643 | the words and brackets: `Bool`, `Int`, `Double`, `Vector<...>`, `Tuple<..., ...>` |
| ArenaFormat.OpenTupleText | src/type.cpp:607-636 | the actions pushed for a tuple write its elements with separators and the closing text, whatever the texts of the elements are |
| ArenaFormat.WholeLength | src/type.cpp:541-560 | a tree's text is no longer than what its nodes pay for, each node once |
| ValueFormat.FormatValue | src/value.cpp:1594-1838 | formats exactly the valid values whose capacities are machine sizes; the text is the recursive rendering; text and stack capacities are never exceeded |
| ValueFormat.TextFits | src/value.cpp:1618-1671 | 66 characters a node, two an edge and 65 an element are enough for any value |
| ValuePrinter.RenderInjective | src/value.cpp:1594-1838 | when scalars are written as distinct words, two values have the same text if and only if they are the same, up to the element type of an empty vector, which is not written |
| ValuePrinter.RenderShapes | src/value.cpp:1256-1283 | parentheses around vectors, brackets around tuples, one blank between elements |
| ValuePrinter.ValuesTold | src/value.cpp:1594-1838 | the same for any two valid values of the evaluator, however their tables are laid out |
| PrintAgreement.PrintBoth | src/rewrite_c_runtime.cpp:1736-1779 | for the same tree, what C prints is what the evaluator formats and a newline |
| ValueValidate.ValidateTuple | src/value.cpp:515-993 | accepts exactly the values whose tables encode one tree, whose buffers each belong to one node and whose accounting is in order; a reported reason is a real fault at the reported node and edge |
| ValueThread.SetParents | src/resources.cpp:3087-3117 | threads every node's parent index through a field the node does not use, and changes nothing else |
| ArenaWalk.WholeWalk | src/resources.cpp:3119-3240 | the order of the walk lists every node exactly once |
| ArenaWalk.DescendantsFirst | src/resources.cpp:671-735 | in that order every node comes after all its descendants |
| ArenaWalk.LaterChildFirst | src/resources.cpp:3375-3390 | and the subtree of a later child is one block of the order, before the block of an earlier child |
| ValueWalk.Walk | src/value.cpp:1518-1583 | the walk terminates, leaves the nodes in that order, takes exactly the context's bytes and references, and reaches the end exactly when the value is fully accounted or is being destroyed |
| AccountRelease.LeaveAccount | src/value.cpp:1452-1480 | leaving one account gives back the bytes and the reference of its buffer's binding once, by consuming it or as the buffer goes; released and destroyed, the buffer is registered no more whether it was bound or not, detached it only loses its binding, and no other buffer changes |
| ValueRelease.DetachReservations | src/resources.cpp:3250-3471 | succeeds exactly for valid, fully accounted values of the context; visits every node once, subtracts exactly what the value's tree costs; every buffer of the value stays and loses only its binding, no other buffer changes; nothing about the value changes but that nobody is charged: same tree, still valid |
| ValueRelease.ReleaseReservations | src/resources.cpp:3021-3248 | the same for releasing: same order, same bytes, no buffer of the value is registered any more and every other one is as it was, the value given up; a refusal before the walk changes nothing |
| ValueRelease.DestroyValue | src/value.cpp:1423-1590 | any valid value, charged to any contexts or to none: each context gets exactly its own bytes and references back, what it holds beside its bindings stays the same, and no buffer of the value is registered any more, while every other one is as it was |
| ValueRelease.AllBytesHeld | src/resources.cpp:3345-3471 | for a valid, fully accounted value of one context, what its bindings charge is the sum of the canonical bytes its accounts record |
| ValueBytes.CanonicalIsTreeBytes | src/resources.cpp:1536-1646 | the canonical bytes of a valid value are what its tree costs, eight bytes a number, one a truth value, sixteen a slot, which is also what releasing the same tree in the emitted C gives back |
| ValueBytes.SubtreeBytes | src/resources.cpp:3119-3240 | the accounts of the nodes that the walk leaves below any node add up to what that subtree costs |
| ValueBytes.NodeBuffer | src/value.cpp:876-951 | in a valid value every node that costs something has a buffer of its own, registered with exactly that size, and bound for it to a live owner while its account is active |
| ValueRelease.DetachedSameTree | src/resources.cpp:3455-3471 | taking the accounting off changes neither the structure nor the tree |
| ValueRelease.DetachedValid | src/resources.cpp:3455-3471 | a detached value is valid against the buffers as the walk leaves them |
| ValueTuple.MakeTupleValue | src/resources.cpp:1813-2100 | makes a tuple exactly when the elements are valid, share no buffer, fit, and the root table is admitted; the result is valid, denotes the tuple of the element trees, and live bytes grow by the root table |
| ValueTuple.RefusesMeans | src/resources.cpp:1838-1898 | a refusal names an element that is invalid, a pair that shares a buffer, or sizes that do not fit |
| ValueBuild.FinishedTuple | src/resources.cpp:1973-2091 | the tables that copying the elements builds are a valid value of the right tree |
| ValueTypes.TypeForNode | src/value.cpp:1102-1254 | the type of any node of a valid value is valid and denotes the erased subtree; neither push fails |
| ValueTypes.ValueType | src/value.cpp:1111-1130 | the type of a whole value denotes its erased tree |
| ValueTyping.ErasedIsType | src/value.cpp:1102-1254 | the erased tree is the one type that a value inhabits |
| ValueTyping.TypeFound | src/value.cpp:1111-1130 | so the type that is found is the type of the value, and no other is |
| ValueTypes.TupleTypesAgree | src/value.cpp:1102-1254 | the type of a made tuple is the tuple type of the elements' types |
| Preadmit.ValidIsLayoutSafe | src/resources.cpp:2329-2385 | no valid element is refused for its layout |
| LayoutLaws.LayoutSafeMeans | src/resources.cpp:2329-2385 | a tuple passes the test exactly when every slot it names exists, and its edges stay in the table and lead to smaller nodes |
| LayoutLaws.PublishedFollowable | src/resources.cpp:2549-2640 | publishing slots that each passed the test leaves a value of which the same holds |
| Preadmit.PreadmittedTuple.Transfer | src/resources.cpp:2458-2505 | takes an element exactly when it is layout-safe and fits every capacity; then one more slot is filled and the counters are the sums; a refusal leaves assembly and element alone |
| Preadmit.PreadmittedTuple.Recount | src/resources.cpp:2521-2548 | counting the filled slots again never refuses a complete assembly |
| Preadmit.PreadmittedTuple.Publish | src/resources.cpp:2507-2640 | succeeds exactly when every capacity is used up; the tables are those of `Published`; a refusal changes nothing |
| PreadmitRelease.PreadmitTuple | src/resources.cpp:2104-2330 | an assembly is had exactly when its root table is admitted and its tables can be allocated, and then only that table was added to the buffers; otherwise live bytes are as before and no buffer was added that is still there |
| PreadmitRelease.ReleaseAssembly | src/resources.cpp:2642-2674 | giving up an assembly with any number of filled slots refunds exactly the transferred elements and the root table; no buffer of a slot nor the root table is registered any more, and every other buffer is as it was |
| PublishTables.SlotTablesAgree | src/resources.cpp:2549-2619 | published tables equal those of `make_tuple_value` but for the payload field of top-level scalars, which holds the number of payloads before it |
| PublishTables.PublishedSameTree | src/resources.cpp:2549-2640 | the published value has the same table, tags and slots as the made one |
| PublishTables.PublishedMeaning | src/value.cpp:748-755 | the published value denotes the tuple of the slots' trees, and is valid if and only if no scalar slot follows a slot that owns a vector payload |
| PublishTables.PublishedInvalidExample | src/resources.cpp:2560-2570 | a vector slot before a scalar slot publishes an invalid value |
| Resources.Preflight | src/resources.cpp:918-990 | admits exactly the charges that fit the counters and every limit; a refusal is an overflow exactly when a counter overflows, and otherwise names the first limit that is exceeded, with its value, the usage before and the charge |
| Resources.EvaluationResources.Admit | src/resources.cpp:1245-1345 | the whole effect of an admission: counters, ordinal, binding; a refusal changes neither live bytes nor work; bytes that no binding accounts for stay the same |
| Resources.EvaluationResources.AllocateVector | src/resources.cpp:1213-1362 | a zeroed, valid payload exactly when the request is admissible, charged once |
| Resources.EvaluationResources.ReserveWorkspace | src/resources.cpp:1412-1498 | granted exactly when admissible, and bound |
| Resources.EvaluationResources.ChargeWork | src/resources.cpp:1500-1532 | charges exactly when the work fits |
| Resources.EvaluationResources.ReserveTable | src/resources.cpp:1536-1646 | granted exactly when profile, size, table limit and admission allow; the reservation is valid and bound; a refusal is that of the first check that fails |
| Resources.EvaluationResources.ReleaseTable | src/resources.cpp:1692-1801 | gives back exactly the releasable reservations, their bytes and their buffer, which is registered no more; no other buffer changes |
| Resources.EvaluationResources.ReleaseVector | src/resources.cpp:2846-2952 | gives back exactly the fully accounted vectors of the context, in the same way |
| Resources.EvaluationResources.ReleaseWorkspace | src/resources.cpp:2954-3013 | gives back exactly the workspace bound to the context, in the same way |
| HostStorage.HostRegistry.Consume | src/host_storage.cpp:270-300 | takes a binding off exactly when address, owner, bytes, ordinal and purpose match |
| HostStorage.HostRegistry.Remove | src/host_storage.cpp:150-188 | unregisters a buffer and reports the binding it still had |
| HostStorage.HostRegistry.Bind | src/host_storage.cpp:215-241 | binds exactly a registered buffer without an active binding |
| HostStorage.BoundMatches | src/host_storage.cpp:215-268 | a binding is matched by the account and purpose it was made for and by nothing else, and by nothing once it is consumed |
| HostStorage.ConsumeCharge | src/host_storage.cpp:270-300 | consuming takes exactly the binding's bytes and reference from its owner and nothing from anyone else |
| Registry.ResourceRegistry.Issue | src/resources.cpp:198-208 | a fresh token every time, zero when they are used up |
| Registry.ResourceRegistry.Acquire | src/resources.cpp:117-139 | finds exactly the live contexts and registered owners and raises their count |
| Registry.ResourceRegistry.Deactivate | src/resources.cpp:1006-1020 | gives up exactly the live contexts, and leaves the reference with the caller |
| Registry.ResourceRegistry.Release | src/resources.cpp:141-158 | takes one reference off and removes the state exactly with the last |
| Registry.DroppedRefs | src/resources.cpp:102-115 | dropping affects one count and removes a state exactly when none is left |
| ResourceRunLaws.RunKeeps | src/resources.cpp:89-259 | every event of every interleaving keeps the invariant of the system |
| ResourceRunLaws.ReferencesCounted | src/resources.cpp:89-158 | in every run a state exists exactly while context, pins, transactions and bindings hold it, and its count is their number |
| ResourceRunLaws.NoDanglingReference | src/resources.cpp:210-259 | in every run whoever holds a token finds its state |
| ResourceRunLaws.RetiredForever | src/resources.cpp:102-115 | a destroyed state is never found again and its token is never issued again |
| ResourceRunLaws.GivenUpForever | src/resources.cpp:121-133 | once a context was given up, in every continuation its state is inactive or destroyed, and nobody acquires it as a context or gives it up again |
| ResourceRunLaws.TokensUnique | src/resources.cpp:198-208 | in every run the next token was never used before |
| ResourceRunLaws.LedgerBalances | src/resources.cpp:1213-1362 | in every run live bytes of an unlocked state are the initial bytes, plus those of its active bindings, plus those on their way back |
| ResourceRunLaws.QuiescentLedger | src/resources.cpp:1006-1050 | when all threads are idle, live bytes are exactly the initial bytes plus those bound, and the references the context's and the bindings' |
| ResourceRunLaws.WorkMonotone | src/resources.cpp:1500-1532 | work never decreases |
| ResourceRunLaws.TakingOwes | src/host_storage.cpp:150-188 | whoever takes an active binding, by consuming it or by removing its buffer, owes exactly its bytes to its owner, and no other binding changes |
| ResourceRunLaws.TakenForever | src/host_storage.cpp:270-300 | a binding once taken is never active again, so that it is refunded once |
| ResourceRunLaws.PaymentExact | src/resources.cpp:246-260 | the refund of an abandoned buffer is never skipped |
| ResourceRunLaws.ConfigureExact | src/resources.cpp:1097-1139 | new limits are in force from the event that sets them, and nothing else changes |
| ResourceRunLaws.RefusalKeepsLedger | src/resources.cpp:918-997 | a refused reservation changes neither live bytes nor work, nor any state or buffer |
| ResourceRunLaws.AdmissionWithinLimits | src/resources.cpp:1279-1345 | in every run a charge in flight is within the live and work limits of its state |
| ResourceRunLaws.AcceptedWithinLimits | src/resources.cpp:918-997 | in every run an accepted reservation or work charge respects the vector, live and work limits configured at that moment |
| ResourceProgress.EveryRunDrains | src/resources.cpp:141-259 | no run gets stuck: every run can be continued until all threads are idle, and then ledgers and counts are those of the bindings |
| LedgerRefinement.AdmissionRun | src/resources.cpp:1279-1345 | the critical sections of an admission, run as events, book what the ledger function says and bind exactly on success |
| LedgerRefinement.ReleaseRun | src/resources.cpp:1692-1801 | those of a release give back bytes and reference and unregister the buffer |
| LedgerRefinement.AdmitInRun | src/resources.cpp:1213-1362 | the admission of a context leaves it mirrored by the system after those events |
| LedgerRefinement.ReleaseTableInRun | src/resources.cpp:1692-1801 | so does giving back a tuple table, and a refusal is no event |
| LedgerRefinement.ReleaseVectorInRun | src/resources.cpp:2846-2952 | so does giving back a vector |
| LedgerRefinement.IssueInRun | src/resources.cpp:198-208 | issuing a token does to the registry what the event does |
| LedgerRefinement.AcquireInRun | src/resources.cpp:121-146 | so does acquiring a context or an owner: found, the thread holds a pin; refused, nothing happens |
| LedgerRefinement.DeactivateInRun | src/resources.cpp:1006-1020 | so does giving a context up |
| LedgerRefinement.ReleaseInRun | src/resources.cpp:148-158 | so does giving back a pin, a context's reference or a repaid owner's, and the thread is idle |
| LedgerRefinement.ConsumeInRun | src/host_storage.cpp:270-300 | so does taking a binding off, and the thread owes its bytes |
| LedgerRefinement.RemoveInRun | src/host_storage.cpp:150-188 | so does unregistering a buffer, and the thread owes what was still bound |
| Primitives.SelectSignature | src/primitive.cpp:604-659 | each answer exactly when it should be given; success names the unique cheapest accepting signature and its cost |
| Primitives.HasAmbiguousAssignment | src/primitive.cpp:408-467 | answers whether some assignment of known types, continuing the given ones, is ambiguous |
| Primitives.ValidateTable | src/primitive.cpp:501-596 | accepts exactly the valid tables: names, identifiers, signatures, implementations, no ambiguity; every error names a fault that is there |
| Primitives.SelectionUnambiguous | src/primitive.cpp:387-475 | in a valid table no list of actual types whatever is ambiguous for an elementwise primitive |
| Primitives.CostCounts | src/primitive.cpp:393-431 | a signature accepts exactly its own types and integers for doubles, and costs the number of integers it promotes |
| Primitives.ExactWins | src/primitive.cpp:604-659 | a signature of exactly the argument types costs nothing and beats every one that promotes an argument |
| Kernels.AddExact | src/primitive.cpp:962-1110 | the range tests of addition and subtraction are exact |
| Kernels.MulExact | src/primitive.cpp:1040-1056 | the test of the product by truncated division is exact |
| Kernels.IntegerKernelExact | src/primitive.cpp:962-1110 | an integer kernel returns the mathematical result, or fails exactly when it does not fit 64 bits |
| Kernels.PredicateKernelExact | src/primitive.cpp:1010-1110 | every Boolean kernel: the truth tables, order and equality of integers by the sign of their exact difference, parity of negative integers too, comparisons of bit patterns by the values they encode |
| Kernels.KernelResults | src/primitive.cpp:942-1110 | only integer arithmetic fails, and every result is a valid scalar of the declared type |
| KernelLaws.ConnectiveLaws | src/primitive.cpp:1010-1022 | unit and zero of `and` and `or`, a `not` that is never its operand, and equality of truth values with its negation |
| KernelLaws.IntegerOrder | src/primitive.cpp:1010-1110 | exactly one of less, equal and greater, less when the exact difference is negative, signs as comparisons with zero, not-equal as the negation of equal |
| KernelLaws.PromotionAgrees | src/primitive.cpp:226-372 | the integer and the double kernel of one predicate agree on all integers up to 2^53 in magnitude, so that promotion does not change an answer |
| KernelLaws.ReadsParameters | src/primitive.cpp:942-1110 | a kernel reads only the fields of its parameter type, and a unary one nothing of a second operand |
| KernelLaws.SignKernelsExact | src/primitive.cpp:962-1110 | negation and absolute value of doubles are exact on the values the patterns encode, infinities and NaN included |
| KernelLaws.DoubleKernelExact | src/primitive.cpp:866-940 | each arithmetic kernel asks the hardware for its own operation on its operands in order, or returns the canonical NaN exactly for the invalid operations of section 7.2 of IEEE 754-2019; increment and decrement use the pattern of one |
| Kernels.KernelsAgree | src/rewrite_c_runtime.cpp:1265-1390 | the emitted kernel equals the evaluator's on every machine operand |
| IntRounding.IntToBinary64 | src/primitive.cpp:693-727 | the encoding nearest to the integer, ties to even (section 4.3.1 of IEEE 754-2019), for every Int64 |
| IntRounding.CIntToDouble | src/rewrite_c_runtime.cpp:978-1018 | the same for the shift loop of the C runtime |
| IntRounding.NearestEvenUnique | src/rewrite_c_runtime.cpp:978-1018 | there is one such encoding, so that the two implementations agree |
| IntRounding.RoundingMonotone | src/primitive.cpp:693-727 | rounding keeps order |
| IntRounding.RoundingExact | src/primitive.cpp:693-727 | rounding is exact up to 2^53 in magnitude |
| Binary64.ComparesValues | src/primitive.cpp:807-859 | comparing keys, with the case of zeros, is comparing the extended reals that the patterns encode (sections 3.4 and 5.11 of IEEE 754-2019) |
| Binary64.SignsOfValues | src/primitive.cpp:829-859 | the sign predicates ask for the side of zero |
| Binary64.Trichotomy | src/primitive.cpp:807-859 | exactly one of less, equal and greater of two numbers, none with a NaN |
| Binary64.LessTransitive | src/primitive.cpp:823-859 | less-than is transitive |
| Binary64.MagnitudeSpacing | src/primitive.cpp:807-859 | the encoding starts at zero, and neighbours are one step apart up to the end of the first binade, twice as far in every binade after it (section 3.4 of IEEE 754-2019) |
| Lifting.DomainErrorIff | src/application.cpp:470-529 | an admitted application fails exactly when the mathematical result for the arguments' own elements at some index does not fit 64 bits, and names the least such index |
| PointwiseLaws.PointwiseMap | src/application.cpp:470-531 | a successful application of vectors stores at every index what applying the elements at that index as scalars gives, and a failed one names the least index at which that fails |
| PointwiseLaws.IntegerMap | src/application.cpp:223-241 | in integer arithmetic element `k` of the result is the exact result of the arguments' own elements `k` |
| PointwiseLaws.ScalarsApply | src/application.cpp:459-512 | scalars of the parameter types are handed to the kernel as they are |
| PointwiseLaws.PromotedArgument | src/primitive.cpp:735-752 | an integer where a double is expected stands for the nearest double, ties to even |
| PointwiseLaws.IotaExact | src/application.cpp:372-399 | `iota` of a bound below one is empty and free; otherwise it is one to the bound, for eight bytes and one unit of work each |
| Lifting.LedgerAfterApply | src/application.cpp:448-531 | live bytes grow by exactly the result and are as before after a failure; work grows by one unit an element unless refused |
| Lifting.OutcomeOk | src/application.cpp:473-512 | on fitting arguments no conversion, invocation or store ever mismatches |
| Application.CheckArguments | src/application.cpp:266-327 | accepts exactly the valid non-tuple arguments, and reports the first that is not, with its reason |
| Application.ViewShows | src/application.cpp:99-135 | an argument, a value or a node of a tuple, shows the scalar or the vector that the tree has there |
| Application.ApplyPrimitive | src/application.cpp:535-566 | every refusal is the one its first failing check calls for, a shape error naming the argument and both lengths, and leaves ledger and kernel count alone; otherwise outcome, ledger and number of kernel calls are those of the specification, for the unique selected signature or for `iota` |
| Application.ApplyTyped | src/application.cpp:568-591 | the same for a given implementation, which names one signature of a valid descriptor |
| Application.ApplyStructural | src/application.cpp:329-399 | `iota` of one integer yields the integers from one, charged one unit each; of anything else it is a type error |
| CApply.CResources.Allocate | src/rewrite_c_runtime.cpp:432-505 | the C ledger's admission is the ledger function |
| CApply.CResources.ChargeWork | src/rewrite_c_runtime.cpp:408-430 | so is its charge for work |
| CApply.Apply | src/rewrite_c_runtime.cpp:1392-1518 | elements, failure, failing index and ledger are those of the specification, the refund of a failed vector included |
| CApply.ApplyIota | src/rewrite_c_runtime.cpp:1408-1432 | so are those of `iota` |
| CApply.TypesAgree | src/rewrite_c_runtime.cpp:1222-1252 | the emitted type tables are those of the primitive table |
| ApplyAgreement.ApplyBoth | src/rewrite_c_runtime.cpp:1279-1518 | from agreeing ledgers, evaluator and C show the same result or failure, limit and index, and leave agreeing ledgers |
| ApplyAgreement.IotaBoth | src/rewrite_c_runtime.cpp:1408-1432 | the same for `iota` |
| CHeap.MovedHolds | src/rewrite_c_runtime.cpp:577-594 | a value survives a move that rewrites the links of its direct children only |
| CTuples.MoveCellMoves | src/rewrite_c_runtime.cpp:577-594 | such a move carries the tree over, clears the old cell and touches nothing else |
| CTuples.CProgram.AdmitTable | src/rewrite_c_runtime.cpp:523-560 | admits exactly when sizes, table limit, live limit and the host allow |
| CTuples.CProgram.Tuple | src/rewrite_c_runtime.cpp:515-596 | the new tuple holds the elements' trees with every link right, their old cells are empty, nothing else changes, live bytes grow by the table |
| CTuples.CProgram.Fanout | src/rewrite_c_runtime.cpp:598-609 | a tuple of empty cells that owns only its table; its own link and every bystander stay |
| CTuples.CProgram.Transfer | src/rewrite_c_runtime.cpp:611-628 | the fan-out owns one more tree, every link is right, and only the child, the slot and the child's own tables changed |
| CFanout.AbandonFanout | src/rewrite_c_runtime.cpp:598-656 | a fan-out made, filled with any number of values and released: each name it came to own is freed once, the ledger is back less what the values brought, every other cell is as it was |
| CFanout.FullFanout | src/rewrite_c_runtime.cpp:611-628 | a fan-out with every slot handed over is a tuple of the values |
| CRelease.ReleaseRun | src/rewrite_c_runtime.cpp:630-656 | the run of the loop over any held tree ends at the parent with exactly the tree's bytes and names gone |
| CRelease.OrderOnce | src/rewrite_c_runtime.cpp:630-656 | each name the tree owns is freed exactly once |
| CRelease.Release | src/rewrite_c_runtime.cpp:630-656 | releasing a root terminates, frees each table and block once, subtracts exactly the tree's bytes and changes nothing else |
| CRelease.ReleaseFanout | src/rewrite_c_runtime.cpp:630-656 | the same for a fan-out after any number of transfers |
| CPrint.ValueValid | src/rewrite_c_runtime.cpp:1663-1713 | a held tree is a valid value exactly when it is a root |
| CPrint.UnfinishedInvalid | src/rewrite_c_runtime.cpp:1669-1695 | a fan-out that still lacks a value is never valid |
| CPrint.PrintValue | src/rewrite_c_runtime.cpp:1736-1779 | prints the recursive rendering of the tree and a newline for a root, nothing otherwise |

## Left out

- Processes, files, streams, path encoding, the parser, lowering and the emission of whole programs: matching shapes and the chosen implementation are preconditions of `ApplyBoth`.
- Observers and the unlock around them, error text, source spans and spread provenance, validation paths.
- Host allocation: addresses are names in a table; metadata arrays are sequences, and their sharing is not part of the overlap test; the allocation of index tables fails as one input, `metadataFails`.
- ValueValidate.ValidateTuple: a value is a scalar, a vector or a tuple, so that the tests for leftovers of the other two forms have nothing to look at; tables of `SIZE_MAX` entries, which the source refuses before allocating its flags, are not refused.
- ValueRelease.DetachReservations: after `BindingGone`, which only a value with unaccounted bytes can cause, the borrowed fields stay threaded, as in the source; nothing is claimed about that value.
- ValueRelease.DestroyValue: the ledger in the contract is that of one context, whichever the caller looks at; the others are paid by the same clause.
- PreadmitRelease.ReleaseAssembly: the filled slots hold valid elements that share no buffer; transfer itself takes any layout-safe element.
- ValueTuple.MakeTupleValue: the elements' own tables are in memory already, so that their sizes are machine sizes.
- Application.ApplyPrimitive: the descriptor is one that table validation accepts; a malformed one is not followed through application.
- CApply.CResources.Allocate: the ordinal is below `SIZE_MAX`; at that value C wraps around where the evaluator refuses.
- CApply.CResources.ChargeWork: C does not test the live limit again, so that live bytes within their limit are a precondition.
- CTuples.CProgram.AdmitTable: evaluator and C test the limits of a tuple table in different orders, and equal refusal reasons are not claimed.
- CPrint.PrintValue: the text of a scalar is a parameter, and the output stream does not fail.
- ResourceRuns: moving and refreshing a context, configuration versions, and the failure of a host lock.
- Floating-point rounding modes and the conversion of doubles to text; bit operations are written as arithmetic.
- ValueFormat.FormatValue: converting one number to text is a total function of at most 64 characters, so that it has no conversion failure.
- `clone_type` and `move_value`: plain copying.
