/** A model of darcy's AbstractView: binding a view to an ElementContext
    (context injection into @Context fields, binding of lazy elements, reading of
    the @Require / @RequireAll / @NotRequired annotations into load conditions)
    and the readiness check isLoaded over the accumulated load conditions.

    Reflection is replaced by an explicit sequence of field records, in the order
    in which the fields are enumerated. Whatever lies outside the view (the
    outcome of a load condition, of a lazy element's setContext) comes from an
    oracle function passed in by the caller. */
module Views {

  datatype Option<T> = None | Some(value: T)

  /** The name of a Java type (a class or an interface). */
  type TypeName = string

  /** The identity of an object held in a field of the view. */
  type ObjId = nat

  /** An ElementContext, with the set of types the context object is an instance of. */
  datatype Context = Context(id: nat, capabilities: set<TypeName>)

  /** What a call can throw. */
  datatype Error =
    | NullContext                   // NullContextException
    | MissingLoadCondition          // MissingLoadConditionException
    | ClassCast(target: TypeName)   // ClassCastException from casting the context to a field's type
    | OtherException(code: nat)     // any other java.lang.Exception
    | NonException(code: nat)       // a Throwable that is not an Exception (a java.lang.Error)

  /** The static type of a field: assignable to Element, to List, or neither. */
  datatype StaticKind = ElementType | ListType | OtherType

  /** The value a field currently holds; the three flags are the instanceof tests
      against View, Element and LazyElement. */
  datatype Value =
    | Null
    | Object(id: ObjId, isView: bool, isElement: bool, isLazy: bool)
    | ContextValue(ctx: Context)

  /** A declared field of the concrete view together with its annotations:
      @Context, @Require and @NotRequired on the field, @RequireAll on its declaring class. */
  datatype Field = Field(
    kind: StaticKind,
    declaredType: TypeName,
    value: Value,
    atContext: bool,
    require: bool,
    notRequired: bool,
    classRequireAll: bool)

  /** A load condition: the view's own loadCondition(), a sub-view's isLoaded, or an
      element's isDisplayed. */
  datatype Condition =
    | Explicit(id: nat)
    | SubViewLoaded(view: ObjId)
    | ElementDisplayed(element: ObjId)

  /** What one call of a load condition does: returns a boolean or throws. */
  datatype Outcome = Returned(value: bool) | Threw(error: Error)

  /** What one call of LazyElement.setContext does. */
  datatype Status = Completed | Failed(error: Error)

  /** What isLoaded does: returns a boolean or throws. */
  datatype Verdict = Loaded(loaded: bool) | Thrown(error: Error)

  /** What setContext does: returns the view or throws. */
  datatype Result<T> = Ok(value: T) | Err(error: Error)

  /** A call the view makes to code outside it while being bound. */
  datatype Call = LazySetContext(target: ObjId, context: Option<Context>) | OnSetContext

  // ---------------------------------------------------------------------------
  // isLoaded

  /** The exceptions isLoaded lets through: the two it rethrows, and every
      Throwable that `catch (Exception e)` does not catch. */
  predicate Escapes(e: Error) {
    e.NullContext? || e.MissingLoadCondition? || e.NonException?
  }

  /** The result of the loop over the conditions. */
  function Evaluate(conds: seq<Condition>, oracle: Condition -> Outcome): Verdict
    decreases |conds|
  {
    if conds == [] then Loaded(true)
    else
      match oracle(conds[0])
      case Returned(b) => if b then Evaluate(conds[1..], oracle) else Loaded(false)
      case Threw(e) => if Escapes(e) then Thrown(e) else Loaded(false)
  }

  /** How many conditions the loop calls. */
  function Calls(conds: seq<Condition>, oracle: Condition -> Outcome): (n: nat)
    ensures n <= |conds|
    ensures conds != [] ==> 1 <= n
    decreases |conds|
  {
    if conds == [] then 0
    else if oracle(conds[0]) == Returned(true) then 1 + Calls(conds[1..], oracle)
    else 1
  }

  /** The result of isLoaded on a view with the given context and conditions. */
  function IsLoadedSpec(context: Option<Context>, conds: seq<Condition>, oracle: Condition -> Outcome): Verdict {
    if context.None? then Thrown(NullContext)
    else if conds == [] then Thrown(MissingLoadCondition)
    else Evaluate(conds, oracle)
  }

  /** How many conditions isLoaded calls. */
  function IsLoadedCalls(context: Option<Context>, conds: seq<Condition>, oracle: Condition -> Outcome): nat {
    if context.None? || conds == [] then 0 else Calls(conds, oracle)
  }

  /** Every condition returns true. */
  ghost predicate AllMet(conds: seq<Condition>, oracle: Condition -> Outcome) {
    forall i :: 0 <= i < |conds| ==> oracle(conds[i]) == Returned(true)
  }

  /** What isLoaded makes of the first condition that does not return true. */
  function Settle(o: Outcome): Verdict {
    if o.Threw? && Escapes(o.error) then Thrown(o.error) else Loaded(false)
  }

  /** The loop returns true exactly when every condition returns true, and then
      it calls every condition. */
  lemma {:induction false} EvaluateTrueIff(conds: seq<Condition>, oracle: Condition -> Outcome)
    ensures Evaluate(conds, oracle) == Loaded(true) <==> AllMet(conds, oracle)
    ensures AllMet(conds, oracle) ==> Calls(conds, oracle) == |conds|
    decreases |conds|
  {
    if conds != [] {
      EvaluateTrueIff(conds[1..], oracle);
      if oracle(conds[0]) == Returned(true) {
        assert AllMet(conds[1..], oracle) ==> AllMet(conds, oracle) by {
          if AllMet(conds[1..], oracle) {
            forall i | 0 <= i < |conds| ensures oracle(conds[i]) == Returned(true) {
              if i > 0 { assert conds[i] == conds[1..][i - 1]; }
            }
          }
        }
        assert AllMet(conds, oracle) ==> AllMet(conds[1..], oracle) by {
          if AllMet(conds, oracle) {
            forall i | 0 <= i < |conds| - 1 ensures oracle(conds[1..][i]) == Returned(true) {
              assert conds[1..][i] == conds[i + 1];
            }
          }
        }
      } else {
        assert !AllMet(conds, oracle) by { assert oracle(conds[0]) != Returned(true); }
        match oracle(conds[0])
        case Returned(b) =>
        case Threw(e) =>
      }
    }
  }

  /** The loop stops at the first condition that does not return true: it calls that
      condition and none after it, returns false when it returned false or threw an
      exception that is caught, and throws when it threw one that escapes. */
  lemma {:induction false} EvaluateStopsAtFirstUnmet(conds: seq<Condition>, oracle: Condition -> Outcome, k: nat)
    requires k < |conds|
    requires forall i :: 0 <= i < k ==> oracle(conds[i]) == Returned(true)
    requires oracle(conds[k]) != Returned(true)
    ensures Evaluate(conds, oracle) == Settle(oracle(conds[k]))
    ensures Calls(conds, oracle) == k + 1
    decreases k
  {
    if k > 0 {
      assert oracle(conds[0]) == Returned(true);
      forall i | 0 <= i < k - 1 ensures oracle(conds[1..][i]) == Returned(true) {
        assert conds[1..][i] == conds[i + 1];
      }
      assert conds[1..][k - 1] == conds[k];
      EvaluateStopsAtFirstUnmet(conds[1..], oracle, k - 1);
    } else {
      match oracle(conds[0])
      case Returned(b) =>
      case Threw(e) =>
    }
  }

  /** A condition that returns false anywhere in the list means isLoaded never
      returns true: the readiness check is a conjunction. */
  lemma FalseConditionPreventsLoaded(context: Option<Context>, conds: seq<Condition>, oracle: Condition -> Outcome, j: nat)
    requires j < |conds| && oracle(conds[j]) == Returned(false)
    ensures IsLoadedSpec(context, conds, oracle) != Loaded(true)
  {
    EvaluateTrueIff(conds, oracle);
  }

  /** isLoaded on a bound view with at least one condition returns true exactly when
      every condition returns true. */
  lemma IsLoadedTrueIff(context: Option<Context>, conds: seq<Condition>, oracle: Condition -> Outcome)
    ensures IsLoadedSpec(context, conds, oracle) == Loaded(true)
        <==> context.Some? && conds != [] && AllMet(conds, oracle)
  {
    EvaluateTrueIff(conds, oracle);
  }

  // ---------------------------------------------------------------------------
  // Load conditions from annotations

  /** The annotation logic: @Require on the field, or @RequireAll on the declaring
      class without @NotRequired on the field. */
  predicate Required(f: Field) {
    f.require || (f.classRequireAll && !f.notRequired)
  }

  /** getLoadConditionForElementField: the value's isLoaded if it is a View, else its
      isDisplayed if it is an Element, kept only when the field is required. */
  function ConditionFor(f: Field): (c: Option<Condition>)
    ensures c.Some? <==> f.value.Object? && (f.value.isView || f.value.isElement) && Required(f)
    ensures c.Some? && f.value.isView ==> c.value == SubViewLoaded(f.value.id)
    ensures c.Some? && !f.value.isView ==> c.value == ElementDisplayed(f.value.id)
  {
    var candidate :=
      match f.value
      case Object(id, isView, isElement, _) =>
        if isView then Some(SubViewLoaded(id))
        else if isElement then Some(ElementDisplayed(id))
        else None
      case _ => None;
    if Required(f) then candidate else None
  }

  /** A field that readLoadConditionAnnotations turns into a condition. */
  predicate Contributes(f: Field) {
    f.kind == ElementType && ConditionFor(f).Some?
  }

  /** readLoadConditionAnnotations: the conditions of the Element-typed fields, in field order. */
  function AnnotationConditions(fs: seq<Field>): (cs: seq<Condition>)
    ensures |cs| <= |fs|
    decreases |fs|
  {
    if fs == [] then []
    else (if Contributes(fs[0]) then [ConditionFor(fs[0]).value] else []) + AnnotationConditions(fs[1..])
  }

  /** Reading the annotations of two runs of fields gives the conditions of the first
      run followed by those of the second: the field order is kept. */
  lemma {:induction false} AnnotationConditionsAppend(a: seq<Field>, b: seq<Field>)
    ensures AnnotationConditions(a + b) == AnnotationConditions(a) + AnnotationConditions(b)
    decreases |a|
  {
    if a != [] {
      assert (a + b)[1..] == a[1..] + b;
      AnnotationConditionsAppend(a[1..], b);
    } else {
      assert a + b == b;
    }
  }

  /** Every field that contributes puts its condition in the list, at the position
      that follows the conditions of the fields before it. */
  lemma AnnotationConditionsComplete(fs: seq<Field>, i: nat)
    requires i < |fs| && Contributes(fs[i])
    ensures var before := |AnnotationConditions(fs[..i])|;
      before < |AnnotationConditions(fs)| && AnnotationConditions(fs)[before] == ConditionFor(fs[i]).value
  {
    assert fs == fs[..i] + fs[i..];
    AnnotationConditionsAppend(fs[..i], fs[i..]);
    assert fs[i..][1..] == fs[i + 1..];
  }

  /** Every condition in the list comes from an Element-typed field that is required
      and holds a View or an Element. */
  lemma {:induction false} AnnotationConditionsSound(fs: seq<Field>, c: Condition)
    requires c in AnnotationConditions(fs)
    ensures exists i :: 0 <= i < |fs| && fs[i].kind == ElementType && Required(fs[i]) && ConditionFor(fs[i]) == Some(c)
    decreases |fs|
  {
    if Contributes(fs[0]) && c == ConditionFor(fs[0]).value {
      assert fs[0].kind == ElementType && Required(fs[0]) && ConditionFor(fs[0]) == Some(c);
    } else {
      AnnotationConditionsSound(fs[1..], c);
      var i :| 0 <= i < |fs[1..]| && fs[1..][i].kind == ElementType && Required(fs[1..][i]) && ConditionFor(fs[1..][i]) == Some(c);
      assert fs[i + 1] == fs[1..][i];
    }
  }

  // ---------------------------------------------------------------------------
  // Context injection

  /** Class.cast succeeds on null, and on an object that is an instance of the type. */
  predicate CastSucceeds(context: Option<Context>, t: TypeName) {
    context.None? || t in context.value.capabilities
  }

  /** A @Context field whose type the context cannot be cast to. */
  predicate CastFails(f: Field, context: Option<Context>) {
    f.atContext && !CastSucceeds(context, f.declaredType)
  }

  /** A field after injectContexts has visited it. */
  function Injected(f: Field, context: Option<Context>): Field {
    if f.atContext then f.(value := if context.Some? then ContextValue(context.value) else Null) else f
  }

  /** The index of the first @Context field whose cast fails, or |fs| if there is none. */
  function FirstCastFailure(fs: seq<Field>, context: Option<Context>): (k: nat)
    ensures k <= |fs|
    ensures forall i :: 0 <= i < k ==> !CastFails(fs[i], context)
    ensures k < |fs| ==> CastFails(fs[k], context)
    decreases |fs|
  {
    if fs == [] then 0
    else if CastFails(fs[0], context) then 0
    else 1 + FirstCastFailure(fs[1..], context)
  }

  /** The fields after injectContexts has visited the first k of them. */
  function InjectUpTo(fs: seq<Field>, context: Option<Context>, k: nat): (r: seq<Field>)
    ensures |r| == |fs|
  {
    seq(|fs|, i requires 0 <= i < |fs| => if i < k then Injected(fs[i], context) else fs[i])
  }

  /** The fields after injectContexts has run to the end. */
  function InjectAll(fs: seq<Field>, context: Option<Context>): seq<Field> {
    InjectUpTo(fs, context, |fs|)
  }

  /** After a complete injection, every @Context field holds the context (null when
      the context is null) and no other field has changed. */
  lemma InjectAllAssigns(fs: seq<Field>, context: Option<Context>, i: nat)
    requires i < |fs|
    ensures InjectAll(fs, context)[i].value ==
      if !fs[i].atContext then fs[i].value
      else if context.Some? then ContextValue(context.value) else Null
    ensures InjectAll(fs, context)[i].(value := fs[i].value) == fs[i]
  {
  }

  /** Injecting a second context into fields that were already injected gives the
      same annotation conditions. In this model a @Context field never holds a View
      or an Element after injection, because the context value is not one; the
      other fields are untouched. */
  lemma {:induction false} ReinjectSameConditions(fs: seq<Field>, c1: Option<Context>, c2: Option<Context>)
    ensures AnnotationConditions(InjectAll(InjectAll(fs, c1), c2)) == AnnotationConditions(InjectAll(fs, c1))
    decreases |fs|
  {
    if fs != [] {
      var once, twice := InjectAll(fs, c1), InjectAll(InjectAll(fs, c1), c2);
      assert once[1..] == InjectAll(fs[1..], c1);
      assert twice[1..] == InjectAll(InjectAll(fs[1..], c1), c2);
      ReinjectSameConditions(fs[1..], c1, c2);
      assert Contributes(twice[0]) == Contributes(once[0]);
      assert Contributes(once[0]) ==> ConditionFor(twice[0]) == ConditionFor(once[0]);
    }
  }

  // ---------------------------------------------------------------------------
  // Lazy element binding

  /** A field whose value initializeLazyElements hands the context to. */
  predicate BindsLazily(f: Field) {
    (f.kind == ElementType || f.kind == ListType) && f.value.Object? && f.value.isLazy
  }

  /** The lazy elements initializeLazyElements visits, in field order. */
  function LazyTargets(fs: seq<Field>): (ts: seq<ObjId>)
    ensures |ts| <= |fs|
    decreases |fs|
  {
    if fs == [] then []
    else
      var rest := LazyTargets(fs[1..]);
      (if BindsLazily(fs[0]) then [fs[0].value.id] else []) + rest
  }

  /** The lazy targets of two runs of fields are those of the first run followed by
      those of the second. */
  lemma {:induction false} LazyTargetsAppend(a: seq<Field>, b: seq<Field>)
    ensures LazyTargets(a + b) == LazyTargets(a) + LazyTargets(b)
    decreases |a|
  {
    if a != [] {
      assert (a + b)[1..] == a[1..] + b;
      LazyTargetsAppend(a[1..], b);
    } else {
      assert a + b == b;
    }
  }

  /** Every field holding a lazy element in an Element- or List-typed field is a
      target, right after the targets of the fields before it. */
  lemma LazyTargetsComplete(fs: seq<Field>, i: nat)
    requires i < |fs| && BindsLazily(fs[i])
    ensures var before := |LazyTargets(fs[..i])|;
      before < |LazyTargets(fs)| && LazyTargets(fs)[before] == fs[i].value.id
  {
    assert fs == fs[..i] + fs[i..];
    LazyTargetsAppend(fs[..i], fs[i..]);
    assert fs[i..][1..] == fs[i + 1..];
  }

  /** Every target is the lazy element of an Element- or List-typed field: nothing
      else receives setContext. */
  lemma {:induction false} LazyTargetsSound(fs: seq<Field>, t: ObjId)
    requires t in LazyTargets(fs)
    ensures exists i :: 0 <= i < |fs| && BindsLazily(fs[i]) && fs[i].value.id == t
    decreases |fs|
  {
    if !(BindsLazily(fs[0]) && fs[0].value.id == t) {
      LazyTargetsSound(fs[1..], t);
      var i :| 0 <= i < |fs[1..]| && BindsLazily(fs[1..][i]) && fs[1..][i].value.id == t;
      assert fs[i + 1] == fs[1..][i];
    }
  }

  /** The index of the first lazy element whose setContext throws, or |ts| if none does. */
  function FirstBindFailure(ts: seq<ObjId>, bind: ObjId -> Status): (k: nat)
    ensures k <= |ts|
    ensures forall i :: 0 <= i < k ==> bind(ts[i]).Completed?
    ensures k < |ts| ==> bind(ts[k]).Failed?
    decreases |ts|
  {
    if ts == [] then 0
    else if bind(ts[0]).Failed? then 0
    else 1 + FirstBindFailure(ts[1..], bind)
  }

  /** The setContext calls made on the given lazy elements. */
  function BindCalls(ts: seq<ObjId>, context: Option<Context>): (cs: seq<Call>)
    ensures |cs| == |ts|
  {
    seq(|ts|, i requires 0 <= i < |ts| => LazySetContext(ts[i], context))
  }

  /** The walk of initializeLazyElements over the fields: the setContext calls made
      and the exception that stopped it, if any. */
  function LazyWalk(fs: seq<Field>, bind: ObjId -> Status, context: Option<Context>): (seq<Call>, Option<Error>)
    decreases |fs|
  {
    if fs == [] then ([], None)
    else if BindsLazily(fs[0]) then
      var call := LazySetContext(fs[0].value.id, context);
      match bind(fs[0].value.id)
      case Failed(e) => ([call], Some(e))
      case Completed =>
        var rest := LazyWalk(fs[1..], bind, context);
        ([call] + rest.0, rest.1)
    else LazyWalk(fs[1..], bind, context)
  }

  /** The walk calls setContext on the lazy targets in order, up to and including the
      first one that throws, and ends with that exception, if any. */
  ghost predicate WalkBindsTargets(fs: seq<Field>, bind: ObjId -> Status, context: Option<Context>) {
    var ts := LazyTargets(fs);
    var k := FirstBindFailure(ts, bind);
    && (k < |ts| ==> LazyWalk(fs, bind, context) == (BindCalls(ts[..k + 1], context), Some(bind(ts[k]).error)))
    && (k == |ts| ==> LazyWalk(fs, bind, context) == (BindCalls(ts, context), None))
  }

  lemma {:induction false} LazyWalkBindsTargets(fs: seq<Field>, bind: ObjId -> Status, context: Option<Context>)
    ensures WalkBindsTargets(fs, bind, context)
    decreases |fs|
  {
    if fs != [] {
      LazyWalkBindsTargets(fs[1..], bind, context);
      if BindsLazily(fs[0]) {
        LazyWalkStep(fs, bind, context);
      } else {
        assert LazyTargets(fs) == LazyTargets(fs[1..]);
      }
    }
  }

  /** The induction step of LazyWalkBindsTargets for a field that holds a lazy element. */
  lemma LazyWalkStep(fs: seq<Field>, bind: ObjId -> Status, context: Option<Context>)
    requires fs != [] && BindsLazily(fs[0])
    requires WalkBindsTargets(fs[1..], bind, context)
    ensures WalkBindsTargets(fs, bind, context)
  {
    var t, ts, rest := fs[0].value.id, LazyTargets(fs), LazyTargets(fs[1..]);
    assert ts == [t] + rest;
    var call := LazySetContext(t, context);
    if bind(t).Completed? {
      var k := FirstBindFailure(rest, bind);
      var tail := LazyWalk(fs[1..], bind, context);
      assert LazyWalk(fs, bind, context) == ([call] + tail.0, tail.1);
      assert ts[1..] == rest;
      assert FirstBindFailure(ts, bind) == 1 + k;
      if k < |rest| {
        assert ts[..k + 2] == [t] + rest[..k + 1];
        assert ts[k + 1] == rest[k];
        BindCallsCons(t, rest[..k + 1], context);
      } else {
        BindCallsCons(t, rest, context);
      }
    } else {
      assert ts[0] == t && FirstBindFailure(ts, bind) == 0;
      assert LazyWalk(fs, bind, context) == ([call], Some(bind(t).error));
      assert ts[..1] == [t] + [];
      BindCallsCons(t, [], context);
      assert BindCalls([], context) == [];
      assert BindCalls(ts[..1], context) == [call];
      assert LazyWalk(fs, bind, context) == (BindCalls(ts[..0 + 1], context), Some(bind(ts[0]).error));
    }
  }

  lemma BindCallsCons(t: ObjId, ts: seq<ObjId>, context: Option<Context>)
    ensures BindCalls([t] + ts, context) == [LazySetContext(t, context)] + BindCalls(ts, context)
  {
  }

  // ---------------------------------------------------------------------------
  // The view

  class AbstractView {
    /** The ElementContext of this view; None is Java's null. */
    var context: Option<Context>
    /** All of these need to return true for the view to be loaded. */
    var loadConditions: seq<Condition>
    /** The declared fields of the concrete view, in the order they are enumerated. */
    var fields: seq<Field>
    /** The calls this view has made to lazy elements and to onSetContext, in order. */
    var calls: seq<Call>

    /** getContext: the context stored by the last setContext, None before any. */
    function GetContext(): (c: Option<Context>)
      reads this
      ensures c == context
    {
      context
    }

    /** The instance initializer: the explicit loadCondition(), when it is not null,
        is the first load condition. */
    constructor (explicit: Option<Condition>, declared: seq<Field>)
      ensures context == None && fields == declared && calls == []
      ensures loadConditions == if explicit.Some? then [explicit.value] else []
    {
      context := None;
      fields := declared;
      calls := [];
      loadConditions := if explicit.Some? then [explicit.value] else [];
    }

    /** isLoaded: throws NullContext before anything else when there is no context,
        MissingLoadCondition when there are no conditions, and otherwise calls the
        conditions in order up to the first one that does not return true. */
    method IsLoaded(oracle: Condition -> Outcome) returns (v: Verdict, evaluated: nat)
      ensures v == IsLoadedSpec(context, loadConditions, oracle)
      ensures evaluated == IsLoadedCalls(context, loadConditions, oracle)
      ensures context.None? ==> v == Thrown(NullContext) && evaluated == 0
      ensures context.Some? && loadConditions == [] ==> v == Thrown(MissingLoadCondition) && evaluated == 0
    {
      if context.None? {
        return Thrown(NullContext), 0;
      }
      if loadConditions == [] {
        return Thrown(MissingLoadCondition), 0;
      }
      var conds := loadConditions;
      var i := 0;
      while i < |conds|
        invariant 0 <= i <= |conds|
        invariant Evaluate(conds[i..], oracle) == Evaluate(conds, oracle)
        invariant i < |conds| ==> i + Calls(conds[i..], oracle) == Calls(conds, oracle)
        invariant i == |conds| ==> i == Calls(conds, oracle)
      {
        assert conds[i..][1..] == conds[i + 1..];
        var outcome := oracle(conds[i]);
        match outcome {
          case Returned(b) =>
            if !b {
              return Loaded(false), i + 1;
            }
          case Threw(e) =>
            if Escapes(e) {
              return Thrown(e), i + 1;
            }
            return Loaded(false), i + 1;
        }
        i := i + 1;
      }
      return Loaded(true), i;
    }

    /** injectContexts: casts the context to the type of each @Context field in turn
        and assigns it; the first failing cast throws, leaving the earlier fields assigned. */
    method InjectContexts() returns (err: Option<Error>)
      modifies this`fields
      ensures var k := FirstCastFailure(old(fields), context);
        && fields == InjectUpTo(old(fields), context, k)
        && (err == if k < |old(fields)| then Some(ClassCast(old(fields)[k].declaredType)) else None)
    {
      ghost var original := fields;
      ghost var k := FirstCastFailure(original, context);
      var i := 0;
      while i < |fields|
        invariant 0 <= i <= k
        invariant fields == InjectUpTo(original, context, i)
      {
        var f := fields[i];
        if f.atContext {
          if !CastSucceeds(context, f.declaredType) {
            return Some(ClassCast(f.declaredType));
          }
          fields := fields[i := Injected(f, context)];
        }
        i := i + 1;
      }
      return None;
    }

    /** initializeLazyElements: hands the view's context to every lazy element held in
        an Element- or List-typed field, in field order; the first one that throws
        stops the walk. */
    method InitializeLazyElements(bind: ObjId -> Status) returns (err: Option<Error>)
      modifies this`calls
      ensures var ts := LazyTargets(fields);
        var k := FirstBindFailure(ts, bind);
        && (k < |ts| ==> calls == old(calls) + BindCalls(ts[..k + 1], context) && err == Some(bind(ts[k]).error))
        && (k == |ts| ==> calls == old(calls) + BindCalls(ts, context) && err == None)
    {
      var fs, ctx := fields, context;
      err := None;
      var i := 0;
      while i < |fs| && err.None?
        invariant 0 <= i <= |fs|
        invariant err.None? ==> calls + LazyWalk(fs[i..], bind, ctx).0 == old(calls) + LazyWalk(fs, bind, ctx).0
                                && LazyWalk(fs[i..], bind, ctx).1 == LazyWalk(fs, bind, ctx).1
        invariant err.Some? ==> calls == old(calls) + LazyWalk(fs, bind, ctx).0 && err == LazyWalk(fs, bind, ctx).1
      {
        assert fs[i..][1..] == fs[i + 1..];
        if BindsLazily(fs[i]) {
          var target := fs[i].value.id;
          var status := bind(target);
          calls := calls + [LazySetContext(target, ctx)];
          if status.Failed? {
            err := Some(status.error);
          }
        }
        i := i + 1;
      }
      LazyWalkBindsTargets(fs, bind, ctx);
    }

    /** readLoadConditionAnnotations: appends the annotation conditions to the list. */
    method ReadLoadConditionAnnotations()
      modifies this`loadConditions
      ensures loadConditions == old(loadConditions) + AnnotationConditions(fields)
    {
      loadConditions := loadConditions + AnnotationConditions(fields);
    }

    /** setContext: assigns the context first, then injects it into @Context fields,
        binds lazy elements, appends the annotation conditions, throws
        MissingLoadCondition if the list is still empty, and otherwise calls
        onSetContext and returns this view. */
    method SetContext(ctx: Option<Context>, bind: ObjId -> Status) returns (r: Result<AbstractView>)
      modifies this
      ensures context == ctx && GetContext() == ctx
      ensures old(loadConditions) <= loadConditions
      ensures fields == InjectUpTo(old(fields), ctx, FirstCastFailure(old(fields), ctx))
      // a failing cast aborts before any lazy element is bound
      ensures FirstCastFailure(old(fields), ctx) < |old(fields)| ==>
        && r == Err(ClassCast(old(fields)[FirstCastFailure(old(fields), ctx)].declaredType))
        && calls == old(calls) && loadConditions == old(loadConditions)
      // a failing lazy element aborts before any condition is added
      ensures var ts := LazyTargets(InjectAll(old(fields), ctx));
        var k := FirstBindFailure(ts, bind);
        FirstCastFailure(old(fields), ctx) == |old(fields)| && k < |ts| ==>
          && r == Err(bind(ts[k]).error)
          && calls == old(calls) + BindCalls(ts[..k + 1], ctx)
          && loadConditions == old(loadConditions)
      // otherwise the conditions accumulate, and the hook runs only when there is one
      ensures var ts := LazyTargets(InjectAll(old(fields), ctx));
        FirstCastFailure(old(fields), ctx) == |old(fields)| && FirstBindFailure(ts, bind) == |ts| ==>
          && loadConditions == old(loadConditions) + AnnotationConditions(InjectAll(old(fields), ctx))
          && (loadConditions == [] ==> r == Err(MissingLoadCondition) && calls == old(calls) + BindCalls(ts, ctx))
          && (loadConditions != [] ==> r == Ok(this) && calls == old(calls) + BindCalls(ts, ctx) + [OnSetContext])
    {
      context := ctx;
      var err := InjectContexts();
      if err.Some? {
        return Err(err.value);
      }
      err := InitializeLazyElements(bind);
      if err.Some? {
        return Err(err.value);
      }
      ReadLoadConditionAnnotations();
      if loadConditions == [] {
        return Err(MissingLoadCondition);
      }
      calls := calls + [OnSetContext];
      return Ok(this);
    }
  }

  /** Binding a view twice: loadConditions is never cleared, so a second successful
      setContext appends the annotation conditions a second time. */
  method Rebind(view: AbstractView, c1: Option<Context>, c2: Option<Context>, bind: ObjId -> Status)
    returns (r1: Result<AbstractView>, r2: Result<AbstractView>)
    modifies view
    ensures r1.Ok? && r2.Ok? ==>
      var once := AnnotationConditions(InjectAll(old(view.fields), c1));
      view.loadConditions == old(view.loadConditions) + once + once
  {
    ghost var fs := view.fields;
    r1 := view.SetContext(c1, bind);
    if r1.Ok? {
      assert view.fields == InjectAll(fs, c1);
      r2 := view.SetContext(c2, bind);
      ReinjectSameConditions(fs, c1, c2);
    } else {
      r2 := r1;
    }
  }

  /** A failed setContext keeps the new context and the earlier conditions, so the
      view can still report itself loaded: here a view with an explicit condition and
      one @Context field of a type the context lacks. */
  method LoadedAfterFailedBind() returns (r: Result<AbstractView>, v: Verdict, evaluated: nat)
    ensures r == Err(ClassCast("X"))
    ensures v == Loaded(true) && evaluated == 1
  {
    var view := new AbstractView(Some(Explicit(0)), [Field(OtherType, "X", Null, true, false, false, false)]);
    r := view.SetContext(Some(Context(0, {})), _ => Completed);
    assert view.loadConditions == [Explicit(0)] && view.context.Some?;
    assert [Explicit(0)][1..] == [];
    v, evaluated := view.IsLoaded(_ => Returned(true));
  }
}
