/** The evaluator and the emitted C, side by side on one application. */
module ApplyAgreement {
  import opened Kinds
  import opened Primitives
  import opened Kernels
  import opened Resources
  import opened Lifting
  import Application
  import CApply
  import IntRounding

  lemma SameLength(args: seq<Operand>)
    requires 1 <= |args| <= 2 && ShapesAgree(args, Application.LengthOf(args))
    ensures CApply.CountOf(args) == Application.LengthOf(args)
  {
    if |args| == 2 { assert args[1..][0] == args[1] && args[1..][1..] == []; }
  }

  /** The two ledgers agree, and so do their limits and the injected failure. */
  ghost predicate LedgersAgree(e: EvaluationResources, c: CApply.CResources)
    reads e, e.state, c
  {
    e.Ledger() == c.Ledger() && e.limits == c.limits && e.failAt == c.failAt
  }

  /**
   For every elementwise implementation and every valid arguments of one shape, both return the same elements,
   or the same refusal or failing index, and the ledgers still agree.
   */
  method ApplyBoth(ctx: Application.ApplicationContext, c: CApply.CResources, h: Hardware, d: Descriptor, s: nat,
                   arguments: seq<Application.Argument>, owners: set<nat>)
    returns (evaluated: Application.ApplyResult, emitted: Outcome)
    requires Application.Usable(ctx.resources) && ctx.resources.state.token in owners && Application.MachineArguments(arguments)
    requires DescriptorOk(d) && Application.Chosen(d, Some(s), Application.Operands(arguments), s)
    requires Application.Applicable(ctx.resources, d, arguments, owners)
    requires c.Valid() && c.ordinal < SIZE_MAX && LedgersAgree(ctx.resources, c)
    modifies ctx`invocations, ctx.resources`work, ctx.resources`ordinal, ctx.resources.host, ctx.resources.state, c
    ensures Application.Shows(evaluated, emitted) && LedgersAgree(ctx.resources, c)
  {
    hide DescriptorOk, Application.MachineArguments, Application.Usable, ApplySpec, Liftable, Application.Shows, Application.Applicable, CApply.CountOf,
         Application.LengthOf, Application.ArgumentsOk;
    var args := Application.Operands(arguments);
    ShapesOf(ctx.resources, d, arguments, owners);
    SameLength(args);
    evaluated := Application.ApplyTyped(ctx, h, d, d.signatures[s].implementation, arguments, owners);
    emitted := CApplyIt(c, h, d.signatures[s].implementation, args);
  }

  method CApplyIt(c: CApply.CResources, h: Hardware, i: Implementation, args: seq<Operand>) returns (o: Outcome)
    requires c.Valid() && c.ordinal < SIZE_MAX && 1 <= |args| <= 2 && CApply.CountOf(args) == Application.LengthOf(args)
    requires Liftable(i, args, Application.LengthOf(args))
    modifies c
    ensures (o, c.Ledger()) == ApplySpec(h, i, args, Application.LengthOf(args), c.limits, c.failAt, old(c.Ledger()))
  {
    o := CApply.Apply(c, h, i, args);
  }

  lemma ShapesOf(r: EvaluationResources, d: Descriptor, arguments: seq<Application.Argument>, owners: set<nat>)
    requires Application.Applicable(r, d, arguments, owners)
    ensures var args := Application.Operands(arguments); ShapesAgree(args, Application.LengthOf(args))
  {
    hide Application.ArgumentsOk, Application.LengthOf;
  }

  /** `iota` too: the evaluator's structural application against the emitted one. */
  method IotaBoth(ctx: Application.ApplicationContext, c: CApply.CResources, d: Descriptor, bound: int, owners: set<nat>)
    returns (evaluated: Application.ApplyResult, emitted: Outcome)
    requires Application.Usable(ctx.resources) && ctx.resources.state.token in owners && IntRounding.IsInt64(bound)
    requires DescriptorOk(d) && d.id == Iota && ProfileOk(ctx.resources.profile, ctx.resources.limits)
    requires c.Valid() && c.ordinal < SIZE_MAX && LedgersAgree(ctx.resources, c)
    modifies ctx.resources`work, ctx.resources`ordinal, ctx.resources.host, ctx.resources.state, c
    ensures Application.Shows(evaluated, emitted) && LedgersAgree(ctx.resources, c)
  {
    hide DescriptorOk, IotaSpec, Application.Shows, Application.Usable;
    evaluated := Application.ApplyStructural(ctx, d, None, [ScalarArg(IntScalar(bound))], owners);
    emitted := CApply.ApplyIota(c, bound);
  }
}
