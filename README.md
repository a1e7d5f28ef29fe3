# darcy: binding views to a context and deciding when they are loaded

This project models the core of darcy's page-object layer in Dafny.

`AbstractView` is a view that is declared before any `ElementContext` exists and is bound to one later. `setContext` does four things in order:

1. it stores the context;
2. it casts the context into every `@Context` field;
3. it hands the context to every `LazyElement` held in an `Element`- or `List`-typed field;
4. it turns the `Element`-typed fields marked `@Require`, or covered by a class-level `@RequireAll` without `@NotRequired`, into load conditions.

The load conditions are appended to a list that may already hold the view's explicit `loadCondition()`. If the list is then empty, `setContext` throws `MissingLoadConditionException`. Otherwise it calls the `onSetContext` hook and returns the view. `isLoaded` is a short-circuit conjunction over that list. It rethrows `NullContextException` and `MissingLoadConditionException`, and it turns every other `Exception` into `false`.

`FindsByName.findByName` returns the first result of the abstract `findAllByName`, or throws `NotFoundException` when there is none.

Two modules:

- `Views` (views.dfy) holds the data model, the pure decisions and their lemmas, and the class `AbstractView`. The class has the source's two fields, `context` and `loadConditions`. It also has `fields`, the declared fields of the concrete view as a sequence of records, and `calls`, the calls it makes to lazy elements and to the hook.
- `FindsByName` (finds_by_name.dfy) holds `FindByName` over a `findAllByName` passed in as a function.

How the model stands in for the Java:

- A field is a record of:
  - its static kind (`Element`, `List` or other);
  - its declared type name;
  - its value;
  - its annotation flags.
- A value is null, an object, or the context. An object carries the three `instanceof` tests that the code makes: `View`, `Element` and `LazyElement`.
- A context is an id with the set of types it is an instance of. `None` stands for Java's `null`, which `setContext` accepts.
- Whatever runs outside the view comes from an oracle function parameter. That covers a condition's `call()` (a sub-view's `isLoaded`, an element's `isDisplayed`, the explicit condition) and a lazy element's `setContext`. The parameter returns a value or a thrown error.
- `IsLoaded` has no `modifies` clause, so it cannot change `context` or `loadConditions`. It returns how many conditions it called.
- `getContext` is `AbstractView.GetContext`, a read of the `context` field.
- `AnnotationConditions` and `LazyTargets` are the reference definitions of the two stream pipelines. They produce the annotation conditions and the lazy elements to bind, and the lemmas listed below characterise them.

## Model

| member | source | states |
|---|---|---|
| Views.AbstractView.constructor | src/main/java/com/redhat/darcy/ui/AbstractView.java:54-61 | a new view has no context and no calls made; its only load condition is the explicit `loadCondition()` when that is not null, and otherwise the list is empty |
| Views.AbstractView.IsLoaded | src/main/java/com/redhat/darcy/ui/AbstractView.java:63-91 | with no context it throws NullContext and calls no condition; with no conditions it throws MissingLoadCondition and calls none; otherwise the verdict and the number of conditions called are those of the in-order short-circuit evaluation (`IsLoadedSpec`, `IsLoadedCalls`); nothing is modified |
| Views.IsLoadedTrueIff | src/main/java/com/redhat/darcy/ui/AbstractView.java:63-91 | isLoaded returns true if and only if the view has a context, has at least one condition, and every condition returns true |
| Views.EvaluateTrueIff | src/main/java/com/redhat/darcy/ui/AbstractView.java:73-80 | the loop returns true exactly when every condition returns true, and then every condition has been called once |
| Views.EvaluateStopsAtFirstUnmet | src/main/java/com/redhat/darcy/ui/AbstractView.java:73-90 | at the first condition that does not return true, the loop stops after exactly that many plus one calls; it returns false if that condition returned false or threw a caught exception, and it throws if the exception was NullContext, MissingLoadCondition or a non-Exception throwable |
| Views.FalseConditionPreventsLoaded | src/main/java/com/redhat/darcy/ui/AbstractView.java:74-77 | one condition returning false anywhere in the list means isLoaded never returns true |
| Views.ConditionFor | src/main/java/com/redhat/darcy/ui/AbstractView.java:201-227 | a field yields a condition if and only if its value is a View or an Element and the field is required (`@Require`, or `@RequireAll` without `@NotRequired`); the condition is the view's isLoaded when the value is a View (preferred over Element), and otherwise the element's isDisplayed |
| Views.AnnotationConditions | src/main/java/com/redhat/darcy/ui/AbstractView.java:193-199 | the annotation conditions of the fields, in field order; at most one per field (its order, completeness and soundness are the three lemmas that follow) |
| Views.AnnotationConditionsAppend | src/main/java/com/redhat/darcy/ui/AbstractView.java:193-199 | the conditions read from two runs of fields are those of the first run followed by those of the second: field order is kept |
| Views.AnnotationConditionsComplete | src/main/java/com/redhat/darcy/ui/AbstractView.java:193-199 | every Element-typed field that yields a condition contributes it, right after the conditions of the fields before it |
| Views.AnnotationConditionsSound | src/main/java/com/redhat/darcy/ui/AbstractView.java:193-199 | every condition read comes from an Element-typed, required field holding a View or an Element; List-typed and other fields contribute nothing |
| Views.FirstCastFailure | src/main/java/com/redhat/darcy/ui/AbstractView.java:165-175 | the index of the first `@Context` field that the context cannot be cast to; every `@Context` field before it casts successfully, and a null context casts to every type |
| Views.InjectAllAssigns | src/main/java/com/redhat/darcy/ui/AbstractView.java:165-175 | after a complete injection every `@Context` field holds the context (null for a null context) and every other part of every field is unchanged |
| Views.AbstractView.InjectContexts | src/main/java/com/redhat/darcy/ui/AbstractView.java:165-175 | walks the fields in order and assigns the context to each `@Context` field; the first failing cast throws ClassCast for that field's type, leaving the earlier fields assigned and the later ones untouched; only `fields` changes |
| Views.FirstBindFailure | src/main/java/com/redhat/darcy/ui/AbstractView.java:188-190 | the index of the first lazy element whose setContext throws; all before it complete |
| Views.LazyTargets | src/main/java/com/redhat/darcy/ui/AbstractView.java:177-191 | the lazy elements held in Element- or List-typed fields, in field order; at most one per field (characterised by the three lemmas that follow) |
| Views.LazyTargetsAppend | src/main/java/com/redhat/darcy/ui/AbstractView.java:177-191 | the targets of two runs of fields are those of the first run followed by those of the second: field order is kept |
| Views.LazyTargetsComplete | src/main/java/com/redhat/darcy/ui/AbstractView.java:177-191 | every Element- or List-typed field holding a LazyElement is a target, right after the targets of the fields before it |
| Views.LazyTargetsSound | src/main/java/com/redhat/darcy/ui/AbstractView.java:177-191 | every target is the LazyElement of an Element- or List-typed field; nothing else receives setContext |
| Views.AbstractView.InitializeLazyElements | src/main/java/com/redhat/darcy/ui/AbstractView.java:177-191 | calls setContext with the view's context on every LazyElement held in an Element- or List-typed field, in field order, and on nothing else; the first call that throws stops the walk and its error propagates; only `calls` changes |
| Views.LazyWalkBindsTargets | src/main/java/com/redhat/darcy/ui/AbstractView.java:177-191 | the field walk of initializeLazyElements makes exactly one setContext call per lazy element held in an Element- or List-typed field, in field order, up to and including the first one that throws, and ends with that exception or with none |
| Views.AbstractView.ReadLoadConditionAnnotations | src/main/java/com/redhat/darcy/ui/AbstractView.java:193-199 | appends the annotation conditions of the fields to the list and removes nothing |
| Views.AbstractView.GetContext | src/main/java/com/redhat/darcy/ui/AbstractView.java:127-130 | returns the stored context; after SetContext(ctx) it is ctx even when that call failed (SetContext's `GetContext() == ctx`) |
| Views.AbstractView.SetContext | src/main/java/com/redhat/darcy/ui/AbstractView.java:108-125 | the context is stored first and stays stored whatever follows; nothing is ever removed from the list; a failed cast aborts before any lazy element is bound or condition added; a failed lazy bind aborts before any condition is added; otherwise the annotation conditions of the injected fields are appended, and the call throws MissingLoadCondition without calling onSetContext if the list is empty, else calls onSetContext once and returns the view |
| Views.ReinjectSameConditions | src/main/java/com/redhat/darcy/ui/AbstractView.java:193-199 | injecting a second context into already injected fields derives the same annotation conditions again; this holds in the model, where the context value is never a View or an Element, so it matches the Java when no Element-typed `@Context` field is required |
| Views.LoadedAfterFailedBind | src/main/java/com/redhat/darcy/ui/AbstractView.java:108-125 | for example, a view whose explicit condition holds and whose one `@Context` field has a type the context lacks: setContext throws ClassCast for that type, and a following isLoaded then returns true after calling one condition (that a failed cast keeps the new context and leaves the list unchanged in general is SetContext's cast-failure ensures) |
| Views.Rebind | src/main/java/com/redhat/darcy/ui/AbstractView.java:108-125 | two successful setContext calls leave the previous list followed by the annotation conditions twice: rebinding accumulates (matching the Java when no Element-typed `@Context` field is required) |
| FindsByName.FindByName | src/main/java/com/redhat/darcy/ui/FindsByName.java:26-34 | throws NotFound with the requested type and `By.name(name)` if and only if findAllByName returns an empty list; otherwise returns exactly the list's first element, which is a member of the list |
| FindsByName.FindByNameDependsOnlyOnHead | src/main/java/com/redhat/darcy/ui/FindsByName.java:33 | two lookups whose lists are both empty, or share their first element, give the same result |

## Left out

- Java reflection is left out: `ReflectionUtil.getAllDeclaredFields`, `Field.get` and `Field.set`. The fields are an explicit sequence in enumeration order. Wrapping `IllegalAccessException` and `IllegalArgumentException` in `RuntimeException` is not modelled, because those failures come from reflection alone.
- `getAllDeclaredFields` also returns AbstractView's own private fields `context` and `loadConditions`. They have no annotations, and `loadConditions` holds an `ArrayList`, which is not a `LazyElement`. They change nothing, so the field sequence holds only the concrete view's fields.
- `e.printStackTrace()` in `isLoaded` is diagnostic output. Only the `false` result is modelled.
- `onSetContext` is recorded as a call. Its body, and any exception it throws, belong to subclasses and are not modelled.
- The initializer calls `loadCondition()` twice and keeps the second result. It also runs before the subclass's own field initializers. The model takes the result as one optional condition.
- The context object is not treated as a View, Element or LazyElement. After injection, a `@Context` field that is also `Element`-typed therefore yields no condition and no lazy bind.
- A null context cast into a primitive-typed `@Context` field fails with `IllegalArgumentException`. That failure is not modelled.
- The `transition()` shortcut is left out, along with waiting, polling and timeouts. They belong to an external waiting primitive.
- ElementSelection.java and ElementContext.java are not part of this model. Their default methods only delegate to `ofType`/`listOfType`, `ProxyElementSelection` and `SimpleTransition`, and none of those is available.
- The lookup behind `isDisplayed`, the sub-view `isLoaded` calls and the `LazyElement` proxy are oracle parameters. Nothing of them is modelled.
- FindsByName.FindByName: findAllByName is a pure function parameter. So "it is consulted exactly once" is true by construction and is not stated as a separate property.
- The oracles are plain functions of the condition and of the object id. A condition that appears twice in one `isLoaded` (as after a rebind) therefore gets the same outcome both times, and so does a lazy element held in two fields. In Java the two calls may differ.
- Concurrency is not modelled: the source does no synchronisation.
- The model keeps these behaviours as the code has them, although a cleaner design might choose otherwise:
  - Rebinding does not discard earlier conditions: `loadConditions` is never cleared, so they accumulate.
  - Field order matters. It decides which failing cast or lazy bind is reported, and the order of the conditions.
  - Fields injected before a failing cast stay assigned.
  - A failed `setContext` (a failed cast or lazy bind) keeps the new context and the conditions already in the list, so `isLoaded` can still return true afterwards (`LoadedAfterFailedBind`).
  - A `LazyElement` receives `setContext` whether or not it was bound before.
  - `isLoaded` absorbs only `Exception`s. Other throwables (`java.lang.Error`) escape.
